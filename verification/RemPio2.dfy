/** The radix-2^24 digit loops of __rem_pio2 in gon.c.  The doubles they run on
    hold nonnegative integers below 2^53 (or such integers scaled by a power of
    two), where the C arithmetic is exact, so the model computes on integers. */
module RemPio2 {
  import opened Bits

  const RADIX: nat := 0x100_0000

  ghost predicate AreDigits(s: seq<int>)
  {
    forall i :: 0 <= i < |s| ==> 0 <= s[i] < RADIX
  }

  // Digits with the least significant first, as in iq[].
  function Weigh(s: seq<int>): int
  {
    if s == [] then 0 else Weigh(s[..|s| - 1]) + s[|s| - 1] * Pow2(24 * (|s| - 1))
  }

  // Terms with the least significant last, as in q[].
  function Sum(q: seq<nat>): nat
  {
    if q == [] then 0 else Sum(q[..|q| - 1]) * RADIX + q[|q| - 1]
  }

  lemma RadixPower(n: nat)
    ensures Pow2(24 * (n + 1)) == Pow2(24 * n) * RADIX
  {
    Pow2Constants();
    Pow2Add(24 * n, 24);
  }

  lemma {:induction false} WeighBound(s: seq<int>)
    requires AreDigits(s)
    ensures 0 <= Weigh(s) < Pow2(24 * |s|)
  {
    if s != [] {
      var n := |s| - 1;
      WeighBound(s[..n]);
      RadixPower(n);
      MulLe(s[n] + 1, RADIX, Pow2(24 * n));
      MulLe(0, s[n], Pow2(24 * n));
    }
  }

  lemma WeighEmpty()
    ensures Weigh([]) == 0
  {
  }

  lemma WeighAppend(s: seq<int>, d: int)
    ensures Weigh(s + [d]) == Weigh(s) + d * Pow2(24 * |s|)
  {
    assert (s + [d])[..|s|] == s;
  }

  // ---------- distilling q[] into iq[], lines 181-186 ----------

  // The bound keeps every intermediate z below 2^53, so that each double in the
  // loop is an exact integer and each cast to a 32-bit int is in range.
  method Distill(q: seq<nat>, jz: nat, iq: array<int>) returns (z: nat)
    requires jz < |q| && jz <= iq.Length
    requires forall i :: 0 <= i <= jz ==> q[i] <= 0x1f_ffff_e000_0000
    modifies iq
    ensures AreDigits(iq[..jz]) && iq[jz..] == old(iq[jz..])
    ensures z < 0x20_0000_0000_0000
    ensures Sum(q[..jz + 1]) == z * Pow2(24 * jz) + Weigh(iq[..jz])
  {
    hide Pow2, Weigh;
    WeighEmpty();
    ghost var total := Sum(q[..jz + 1]);
    assert q[..jz + 1][..jz] == q[..jz];
    Pow2Step(total, 0);
    var i, j := 0, jz;
    z := q[jz];
    while j > 0
      invariant i + j == jz && z < 0x20_0000_0000_0000
      invariant AreDigits(iq[..i]) && iq[jz..] == old(iq[jz..])
      invariant total == (Sum(q[..j]) * RADIX + z) * Pow2(24 * i) + Weigh(iq[..i])
    {
      var fw := z / RADIX;
      assert fw < 0x2000_0000;
      assert q[..j][..j - 1] == q[..j - 1];
      DistillStep(Sum(q[..j - 1]), q[j - 1], z, i);
      ghost var before := iq[..i];
      iq[i] := z - RADIX * fw;
      WeighAppend(before, iq[i]);
      assert iq[..i + 1] == before + [iq[i]];
      z := q[j - 1] + fw;
      i, j := i + 1, j - 1;
    }
    assert Sum(q[..0]) == 0;
  }

  lemma DistillStep(high: nat, next: nat, z: nat, i: nat)
    ensures ((high * RADIX + next) * RADIX + z) * Pow2(24 * i)
         == (high * RADIX + (next + z / RADIX)) * Pow2(24 * (i + 1)) + (z - RADIX * (z / RADIX)) * Pow2(24 * i)
  {
    hide Pow2;
    RadixPower(i);
    var p, m, fw := Pow2(24 * i), high * RADIX + next, z / RADIX;
    var digit := z - RADIX * fw;
    assert m * RADIX + z == (m + fw) * RADIX + digit;
    MulDistributes((m + fw) * RADIX, digit, p);
    MulSwap(m + fw, RADIX, p);
  }

  // ---------- complementing digits, lines 206-216 ----------

  method ComplementDigits(iq: array<int>, jz: nat) returns (carry: int)
    requires jz <= iq.Length && AreDigits(iq[..jz])
    modifies iq
    ensures AreDigits(iq[..jz]) && iq[jz..] == old(iq[jz..])
    ensures carry == if old(Weigh(iq[..jz])) == 0 then 0 else 1
    ensures Weigh(iq[..jz]) == carry * Pow2(24 * jz) - old(Weigh(iq[..jz]))
  {
    hide Pow2, Weigh;
    ghost var was := iq[..jz];
    WeighEmpty();
    carry := 0;
    for i := 0 to jz
      invariant iq[i..] == old(iq[i..])
      invariant AreDigits(iq[..i])
      invariant carry == if Weigh(was[..i]) == 0 then 0 else 1
      invariant Weigh(iq[..i]) == carry * Pow2(24 * i) - Weigh(was[..i])
    {
      var j := iq[i];
      assert j == iq[i..][0] == was[i];
      ghost var before := iq[..i];
      WeighAppend(was[..i], j);
      assert was[..i + 1] == was[..i] + [j];
      WeighBound(was[..i]);
      ComplementStep(j, i);
      assert iq[i + 1..] == old(iq[i + 1..]) by {
        assert iq[i + 1..] == iq[i..][1..];
      }
      if carry == 0 {
        if j != 0 {
          carry := 1;
          iq[i] := 0x100_0000 - j;
        }
      } else {
        iq[i] := 0xff_ffff - j;
      }
      WeighAppend(before, iq[i]);
      assert iq[..i + 1] == before + [iq[i]];
    }
    assert was[..jz] == was;
  }

  lemma ComplementStep(j: int, i: nat)
    requires 0 <= j < RADIX
    ensures (0x100_0000 - j) * Pow2(24 * i) == Pow2(24 * (i + 1)) - j * Pow2(24 * i)
    ensures Pow2(24 * i) + (0xff_ffff - j) * Pow2(24 * i) == Pow2(24 * (i + 1)) - j * Pow2(24 * i)
    ensures 0 * Pow2(24 * i) == 0
    ensures j != 0 ==> j * Pow2(24 * i) > 0
  {
    hide Pow2;
    RadixPower(i);
    var p := Pow2(24 * i);
    MulDistributes(0x100_0000 - j, j, p);
    MulDistributes(0xff_ffff - j, 1, p);
    if j != 0 {
      MulLe(1, j, p);
    }
  }

  // ---------- the quadrant and the signed fraction, lines 188-232 ----------

  // scalbn(z, q0) leaves an integer count of 2^-Grain(q0).
  function Grain(q0: int): nat { if q0 < 0 then -q0 else 0 }

  // 1.0 in units of the last digit.
  function Unit(q0: int, jz: nat): nat
    requires q0 <= 24 * jz
  {
    Pow2(24 * jz - q0)
  }

  // What z and iq[] stand for, in units of the last digit.
  function Remaining(z: int, s: seq<int>): int
  {
    z * Pow2(24 * |s|) + Weigh(s)
  }

  // Lines 188-192: the integer part of z modulo 8, and the fraction of z.
  method TrimInteger(z0: nat, q0: int, ghost jz: nat) returns (n: int, z: int, ghost k: int)
    requires q0 <= 2 && 1 <= jz
    ensures 0 <= n < 8 && 0 <= z < Pow2(Grain(q0)) && (q0 >= 0 ==> z == 0)
    ensures z0 * Pow2(24 * jz) == (8 * k + n) * Unit(q0, jz) + z * Pow2(24 * jz)
  {
    hide Pow2;
    var u := Pow2(Grain(q0));
    var scaled := if q0 > 0 then z0 * Pow2(q0) else z0;      // in units of 2^-Grain(q0)
    k := scaled / (8 * u);
    TrimDivision(scaled, u, k);
    Pow2Step(1, 0);
    var trimmed := scaled - 8 * (u * (scaled / (8 * u)));
    n := trimmed / u;
    z := trimmed - n * u;
    ScaleBack(z0, q0, jz, 8 * k + n, z);
  }

  lemma TrimDivision(scaled: int, u: int, k: int)
    requires u > 0 && k == scaled / (8 * u)
    ensures var trimmed := scaled - 8 * (u * k);
            var n := trimmed / u;
            0 <= n < 8 && 0 <= trimmed - n * u < u && scaled == (8 * k + n) * u + (trimmed - n * u)
  {
    var trimmed := scaled - 8 * (u * k);
    var n := trimmed / u;
    assert k * (8 * u) == 8 * (u * k);
    assert 0 <= trimmed < 8 * u;
    assert trimmed == n * u + trimmed % u;
    MulDistributes(8 * k, n, u);
    MulSwap(8, k, u);
    MulCancelLt(n, 8, u);
    MulCancelLt(-1, n, u);
  }

  lemma ScaleBack(z0: int, q0: int, jz: nat, m: int, z: int)
    requires q0 <= 2 && 1 <= jz
    requires (if q0 > 0 then z0 * Pow2(q0) else z0) == m * Pow2(Grain(q0)) + z
    requires q0 > 0 ==> z == 0
    ensures z0 * Pow2(24 * jz) == m * Unit(q0, jz) + z * Pow2(24 * jz)
  {
    hide Pow2;
    var r := Pow2(24 * jz);
    if q0 > 0 {
      Pow2Step(m, 0);
      Pow2Add(q0, 24 * jz - q0);
      MulAssoc(z0, Pow2(q0), Unit(q0, jz));
    } else {
      Pow2Add(Grain(q0), 24 * jz);
      MulDistributes(m * Pow2(Grain(q0)), z, r);
      MulAssoc(m, Pow2(Grain(q0)), r);
    }
  }

  // Lines 188-203: n takes the integer part mod 8, z and iq keep the fraction,
  // and ih says whether that fraction is at least one half.
  method SplitInteger(z0: nat, q0: int, iq: array<int>, jz: nat) returns (n: int, z: int, ih: int, ghost k: int)
    requires q0 <= 2 && 1 <= jz <= iq.Length && AreDigits(iq[..jz])
    modifies iq
    ensures AreDigits(iq[..jz]) && iq[jz..] == old(iq[jz..])
    ensures 0 <= n && 0 <= z < Pow2(Grain(q0))
    ensures if q0 < 0 then ih == 0 || ih == 2 else ih == 0 || ih == 1
    ensures Remaining(z0, old(iq[..jz])) == (8 * k + n) * Unit(q0, jz) + Remaining(z, iq[..jz])
    ensures Remaining(z, iq[..jz]) < Unit(q0, jz)
    ensures ih > 0 <==> 2 * Remaining(z, iq[..jz]) >= Unit(q0, jz)
  {
    hide Pow2, Weigh;
    ghost var was := iq[..jz];
    n, z, k := TrimInteger(z0, q0, jz);
    ih := 0;
    if q0 > 0 {
      var i := Shr(iq[jz - 1], 24 - q0);
      TopDigit(was, q0);
      MulDistributes(8 * k + n, i, Unit(q0, jz));
      n := n + i;
      iq[jz - 1] := iq[jz - 1] - i * Pow2(24 - q0);
      ghost var now := was[jz - 1 := was[jz - 1] % Pow2(24 - q0)];
      assert iq[..jz] == now;
      ih := Shr(iq[jz - 1], 23 - q0);
      HalfByTopDigit(now, q0);
    } else if q0 == 0 {
      TopDigit(was, 0);
      ih := Shr(iq[jz - 1], 23);
      assert was[jz - 1] == iq[jz - 1];
      DigitBelowRadix(was);
      HalfByTopDigit(was, 0);
    } else {
      HalfByScaledPart(z, q0, was);
      if 2 * z >= Pow2(Grain(q0)) {                          // z >= 0.5
        ih := 2;
      }
    }
  }

  lemma DigitBelowRadix(s: seq<int>)
    requires s != [] && AreDigits(s)
    ensures s[|s| - 1] < Pow2(24)
  {
    Pow2Constants();
  }

  // Lines 195-197: the bits of the top digit above the binary point move into n.
  lemma TopDigit(s: seq<int>, q0: nat)
    requires s != [] && AreDigits(s) && q0 <= 2
    ensures var t, m := s[|s| - 1], Pow2(24 - q0);
      && 0 <= t % m == t - Shr(t, 24 - q0) * m < m
      && t % m <= t
      && AreDigits(s[|s| - 1 := t % m])
      && Weigh(s) == Shr(t, 24 - q0) * Unit(q0, |s|) + Weigh(s[|s| - 1 := t % m])
  {
    hide Pow2, Weigh;
    var n := |s| - 1;
    var t, m := s[n], Pow2(24 - q0);
    SplitScaled(t, m, Pow2(24 * n));
    WeighAppend(s[..n], t);
    WeighAppend(s[..n], t % m);
    assert s == s[..n] + [t] && s[n := t % m] == s[..n] + [t % m];
    Pow2Add(24 - q0, 24 * n);
  }

  lemma SplitScaled(t: nat, m: nat, p: nat)
    requires m > 0
    ensures 0 <= t % m < m && t % m <= t && t % m == t - t / m * m
    ensures t * p == t / m * (m * p) + t % m * p
  {
    var i, r := t / m, t % m;
    DivNonnegative(t, m);
    MulLe(0, i, m);
    MulDistributes(i * m, r, p);
    MulAssoc(i, m, p);
  }

  // Lines 198-200: one bit of the top digit tells whether the fraction reaches a half.
  lemma HalfByTopDigit(s: seq<int>, q0: nat)
    requires s != [] && AreDigits(s) && q0 <= 2 && s[|s| - 1] < Pow2(24 - q0)
    ensures Weigh(s) < Unit(q0, |s|)
    ensures Shr(s[|s| - 1], 23 - q0) <= 1
    ensures Shr(s[|s| - 1], 23 - q0) > 0 <==> 2 * Weigh(s) >= Unit(q0, |s|)
  {
    hide Pow2;
    var n := |s| - 1;
    var t, h, p := s[n], Pow2(23 - q0), Pow2(24 * n);
    WeighBound(s[..n]);
    Pow2Step(1, 23 - q0);
    Pow2Add(24 - q0, 24 * n);
    assert Unit(q0, |s|) == 2 * h * p;
    MulLe(t + 1, 2 * h, p);
    MulDistributes(t, 1, p);
    MulAssoc(2, h, p);
    if t >= h {
      MulLe(h, t, p);
      DivModUnique(t, h, 1, t - h);
    } else {
      MulLe(t + 1, h, p);
      ModSmall(t, h);
    }
  }

  // Line 201: below the binary point of z the digits cannot change the answer.
  lemma HalfByScaledPart(z: nat, q0: int, s: seq<int>)
    requires q0 < 0 && AreDigits(s) && z < Pow2(Grain(q0))
    ensures Remaining(z, s) < Unit(q0, |s|)
    ensures 2 * z >= Pow2(Grain(q0)) <==> 2 * Remaining(z, s) >= Unit(q0, |s|)
  {
    hide Pow2;
    var h, r := Pow2(Grain(q0) - 1), Pow2(24 * |s|);
    WeighBound(s);
    Pow2Step(1, Grain(q0) - 1);
    Pow2Add(Grain(q0), 24 * |s|);
    assert Unit(q0, |s|) == 2 * h * r;
    MulAssoc(2, h, r);
    MulLe(z + 1, 2 * h, r);
    MulDistributes(z, 1, r);
    if z >= h {
      MulLe(h, z, r);
    } else {
      MulLe(z + 1, h, r);
    }
  }

  // Lines 204-232: a fraction of one half or more becomes one minus itself.
  method RoundToNearest(n0: int, z0: int, ih: int, q0: int, iq: array<int>, jz: nat) returns (n: int, z: int)
    requires q0 <= 2 && 1 <= jz <= iq.Length && AreDigits(iq[..jz])
    requires 0 <= z0 < Pow2(Grain(q0))
    requires if q0 < 0 then ih == 0 || ih == 2 else ih == 0 || ih == 1
    requires Remaining(z0, iq[..jz]) < Unit(q0, jz)
    requires ih > 0 <==> 2 * Remaining(z0, iq[..jz]) >= Unit(q0, jz)
    modifies iq
    ensures AreDigits(iq[..jz]) && iq[jz..] == old(iq[jz..])
    ensures 0 <= z < Pow2(Grain(q0))
    ensures ih == 0 ==> n == n0 && Remaining(z, iq[..jz]) == old(Remaining(z0, iq[..jz]))
    ensures ih > 0 ==> n == n0 + 1 && Remaining(z, iq[..jz]) == Unit(q0, jz) - old(Remaining(z0, iq[..jz]))
  {
    hide Pow2, Weigh;
    Pow2Step(1, 0);
    ghost var start := iq[..jz];
    WeighBound(start);
    n, z := n0, z0;
    if ih > 0 {
      n := n + 1;
      var carry := ComplementDigits(iq, jz);
      if q0 > 0 {
        ClearAbovePoint(iq, jz, q0, Weigh(start));
      }
      if ih == 2 {
        z := Pow2(Grain(q0)) - z;
        if carry != 0 {
          z := z - 1;                                        // scalbn(one, q0)
        }
        Pow2Add(Grain(q0), 24 * jz);
        ScaledComplement(Pow2(Grain(q0)), z0, carry, Pow2(24 * jz));
        assert z0 == 0 ==> carry != 0;
      }
    }
  }

  lemma ScaledComplement(u: int, z: int, carry: int, r: int)
    ensures (u - z - carry) * r + carry * r == u * r - z * r
  {
    MulDistributes(u - z - carry, carry, r);
    MulDistributes(u - z, z, r);
  }

  // Lines 217-226.
  method ClearAbovePoint(iq: array<int>, jz: nat, q0: int, ghost w: int)
    requires 0 < q0 <= 2 && 1 <= jz <= iq.Length && AreDigits(iq[..jz])
    requires 0 < w < Unit(q0, jz) && Weigh(iq[..jz]) == Pow2(24 * jz) - w
    modifies iq
    ensures AreDigits(iq[..jz]) && iq[jz..] == old(iq[jz..])
    ensures Weigh(iq[..jz]) == Unit(q0, jz) - w
  {
    hide Pow2, Weigh, Bitwise;
    Pow2Constants();
    ghost var mid := iq[..jz];
    assert mid[jz - 1] == iq[jz - 1];
    AndMask(iq[jz - 1], 24 - q0);
    MaskTop(mid, q0, w);
    if q0 == 1 {
      iq[jz - 1] := And(iq[jz - 1], 0x7f_ffff);
    } else {
      assert Pow2(22) * 2 == Pow2(23) by {
        Pow2Step(1, 22);
      }
      iq[jz - 1] := And(iq[jz - 1], 0x3f_ffff);
    }
    assert iq[..jz] == mid[jz - 1 := mid[jz - 1] % Pow2(24 - q0)];
  }

  // Masking the top digit takes the complement modulo Unit.
  lemma MaskTop(s: seq<int>, q0: nat, w: nat)
    requires s != [] && AreDigits(s) && q0 <= 2
    requires 0 < w < Unit(q0, |s|) && Weigh(s) == Pow2(24 * |s|) - w
    ensures 0 <= s[|s| - 1] % Pow2(24 - q0)
    ensures AreDigits(s[|s| - 1 := s[|s| - 1] % Pow2(24 - q0)])
    ensures Weigh(s[|s| - 1 := s[|s| - 1] % Pow2(24 - q0)]) == Unit(q0, |s|) - w
  {
    hide Pow2, Weigh;
    TopDigit(s, q0);
    var t, unit := s[|s| - 1], Unit(q0, |s|);
    var i := Shr(t, 24 - q0);
    var s' := s[|s| - 1 := t % Pow2(24 - q0)];
    HalfByTopDigit(s', q0);
    WeighBound(s');
    Pow2Add(q0, 24 * |s| - q0);
    MulDistributes(Pow2(q0) - i, i, unit);
    OneUnit(Pow2(q0) - i, unit, w);
  }

  lemma OneUnit(k: int, unit: int, w: int)
    requires 0 < w < unit && 0 <= k * unit - w < unit
    ensures k == 1
  {
    MulCancelLt(k, 2, unit);
    MulCancelLt(0, k, unit);
  }

  // Lines 160-164, with the division of C, which truncates.
  function ScaleOfLastDigit(e0: int): (q0: int)
    ensures (e0 - q0) % 24 == 0
    ensures if e0 >= 3 then -21 <= q0 <= 2 else q0 == e0 - 24
  {
    var jv := if e0 >= 3 then (e0 - 3) / 24 else -((3 - e0) / 24);
    e0 - 24 * ((if jv < 0 then 0 else jv) + 1)
  }

  // Lines 181-232 and 331 together.  The digits stand for Sum / Unit; n is the
  // integer nearest to that modulo 8, and what stays in z and iq is the exact
  // distance, taken from above when ih > 0.
  method Quadrant(q: seq<nat>, jz: nat, q0: int, iq: array<int>) returns (n: int, ih: int, z: int)
    requires 1 <= jz < |q| && jz <= iq.Length && q0 <= 2
    requires forall i :: 0 <= i <= jz ==> q[i] <= 0x1f_ffff_e000_0000
    modifies iq
    ensures AreDigits(iq[..jz]) && iq[jz..] == old(iq[jz..])
    ensures 0 <= z < Pow2(Grain(q0))
    ensures 0 <= n < 8 && 0 <= Remaining(z, iq[..jz]) && 2 * Remaining(z, iq[..jz]) <= Unit(q0, jz)
    ensures var signed := if ih > 0 then -Remaining(z, iq[..jz]) else Remaining(z, iq[..jz]);
            (Sum(q[..jz + 1]) - (n * Unit(q0, jz) + signed)) % (8 * Unit(q0, jz)) == 0
  {
    hide Pow2, Weigh, AreDigits;
    var z0 := Distill(q, jz, iq);
    var n0, z1;
    ghost var k;
    n0, z1, ih, k := SplitInteger(z0, q0, iq, jz);
    ghost var f := Remaining(z1, iq[..jz]);
    WeighBound(iq[..jz]);
    MulLe(0, z1, Pow2(24 * jz));
    var n1;
    n1, z := RoundToNearest(n0, z1, ih, q0, iq, jz);
    ghost var unit := Unit(q0, jz);
    LowThreeBits(n1);
    n := And(n1, 7);
    NearestModulo8(Sum(q[..jz + 1]), k, n0, n1, unit, f, if ih > 0 then f - unit else f);
  }

  lemma LowThreeBits(n: nat)
    ensures And(n, 7) == n % 8
  {
    hide Bitwise;
    Pow2Constants();
    AndMask(n, 3);
  }

  lemma NearestModulo8(total: int, k: int, n0: int, n: int, unit: int, f: int, signed: int)
    requires unit > 0 && total == (8 * k + n0) * unit + f
    requires (n == n0 && signed == f) || (n == n0 + 1 && signed == f - unit)
    ensures (total - (n % 8 * unit + signed)) % (8 * unit) == 0
  {
    var m := k + n / 8;
    MulDistributes(8 * k + n0, n - n0, unit);
    MulDistributes(8 * m, n % 8, unit);
    MulSwap(8, unit, m);
    assert total - (n % 8 * unit + signed) == m * (8 * unit);
    DivModUnique(m * (8 * unit), 8 * unit, m, 0);
  }

  // ---------- the digits of the fraction, lines 234-274 ----------

  lemma {:induction false} HighDigits(s: seq<int>, k: nat)
    requires AreDigits(s) && k <= |s|
    ensures Weigh(s) < Pow2(24 * k) <==> forall i :: k <= i < |s| ==> s[i] == 0
  {
    hide Pow2;
    if k == |s| {
      WeighBound(s);
    } else {
      var n := |s| - 1;
      var p := Pow2(24 * n);
      HighDigits(s[..n], k);
      assert forall i :: k <= i < n ==> s[..n][i] == s[i];
      if s[n] == 0 {
        MulLe(0, 0, p);
      } else {
        WeighBound(s[..n]);
        MulLe(1, s[n], p);
        Pow2Monotone(24 * k, 24 * n);
      }
    }
  }

  // Lines 235-239: more terms are asked for exactly when the fraction is less than one
  // unit of digit jk.
  method NeedsTerms(z: int, iq: array<int>, jz: nat, jk: nat) returns (more: bool)
    requires jk <= jz <= iq.Length && AreDigits(iq[..jz]) && z >= 0
    ensures more <==> Remaining(z, iq[..jz]) < Pow2(24 * jk)
  {
    hide Pow2, Weigh, Bitwise;
    WeighBound(iq[..jz]);
    if z != 0 {
      MulLe(1, z, Pow2(24 * jz));
      Pow2Monotone(24 * jk, 24 * jz);
      return false;
    }
    MulLe(0, 0, Pow2(24 * jz));
    HighDigits(iq[..jz], jk);
    var j: nat, i := 0, jz;
    while i > jk
      invariant jk <= i <= jz
      invariant j == 0 <==> forall m :: i <= m < jz ==> iq[m] == 0
    {
      i := i - 1;
      assert iq[i] == iq[..jz][i];
      OrIsZero(j, iq[i]);
      j := Or(j, iq[i]);
    }
    assert forall m :: jk <= m < jz ==> iq[..jz][m] == iq[m];
    more := j == 0;
  }

  // Line 240: the number of leading zeros among the first jk digits, and one more.
  method MissingTerms(iq: array<int>, jk: nat) returns (k: nat)
    requires jk <= iq.Length && AreDigits(iq[..jk]) && Weigh(iq[..jk]) > 0
    ensures 1 <= k <= jk && Pow2(24 * (jk - k)) <= Weigh(iq[..jk]) < Pow2(24 * (jk - k + 1))
  {
    hide Pow2, Weigh;
    ghost var s := iq[..jk];
    SomeDigit(s, jk);
    k := 1;
    while iq[jk - k] == 0
      invariant 1 <= k <= jk
      invariant forall i :: jk - k < i < jk ==> iq[i] == 0
      decreases jk - k
    {
      assert s[jk - k] == 0;
      SomeDigit(s, jk - k);
      k := k + 1;
    }
    assert s[jk - k] != 0;
    HighDigits(s, jk - k);
    HighDigits(s, jk - k + 1);
  }

  // Of a number that is not zero some digit below the zeros at the top is not.
  lemma SomeDigit(s: seq<int>, k: nat)
    requires AreDigits(s) && Weigh(s) > 0 && k <= |s| && forall i :: k <= i < |s| ==> s[i] == 0
    ensures k > 0
  {
    HighDigits(s, k);
  }

  // Lines 256-274: leading zero digits are dropped, or z becomes one digit or two on
  // top.  The number and the unit of its last digit stay, and the top digit, which is
  // iq[top] with scale 2^scale, is not zero.
  method TopDigits(z0: nat, q0: int, iq: array<int>, jz: nat) returns (top: nat, scale: int)
    requires 1 <= jz && jz + 2 <= iq.Length && AreDigits(iq[..jz])
    requires Remaining(z0, iq[..jz]) > 0
    modifies iq
    ensures top < iq.Length && 24 * top - scale == 24 * jz - q0
    ensures AreDigits(iq[..top]) && iq[top] > 0 && (z0 < 0x1_0000_0000_0000 ==> iq[top] < RADIX)
    ensures Weigh(iq[..top + 1]) == old(Remaining(z0, iq[..jz]))
    ensures z0 < RADIX ==> top <= jz
  {
    hide Pow2, Weigh;
    ghost var was := iq[..jz];
    top, scale := jz, q0;
    if z0 == 0 {
      top, scale := jz - 1, q0 - 24;
      while iq[top] == 0
        invariant top < jz && 24 * top - scale == 24 * jz - q0
        invariant iq[..jz] == was && Weigh(iq[..top + 1]) == Remaining(z0, was)
        decreases top
      {
        DropZero(iq[..top + 1]);
        assert iq[..top + 1][..top] == iq[..top];
        top, scale := top - 1, scale - 24;
      }
      assert iq[top] == was[top];
      assert iq[..top] == was[..top];
    } else if z0 >= RADIX {
      var fw := z0 / RADIX;
      iq[jz] := z0 - RADIX * fw;
      WeighAppend(was, iq[jz]);
      assert iq[..jz + 1] == was + [iq[jz]];
      ghost var low := iq[..jz + 1];
      iq[jz + 1] := fw;
      WeighAppend(low, fw);
      assert iq[..jz + 2] == low + [fw];
      TwoDigits(z0, jz);
      top, scale := jz + 1, q0 + 24;
    } else {
      iq[jz] := z0;
      WeighAppend(was, z0);
      assert iq[..jz + 1] == was + [z0];
    }
  }

  lemma DropZero(s: seq<int>)
    requires s != [] && s[|s| - 1] == 0 && Weigh(s) > 0
    ensures |s| > 1 && Weigh(s[..|s| - 1]) == Weigh(s)
  {
  }

  lemma TwoDigits(z: nat, jz: nat)
    ensures (z - RADIX * (z / RADIX)) * Pow2(24 * jz) + z / RADIX * Pow2(24 * (jz + 1)) == z * Pow2(24 * jz)
  {
    hide Pow2;
    RadixPower(jz);
    var fw, p := z / RADIX, Pow2(24 * jz);
    MulDistributes(z - RADIX * fw, fw * RADIX, p);
    MulSwap(fw, RADIX, p);
  }

  // Lines 181-274 and 331 for the terms at hand.  Either the distance of the number to
  // the nearest integer is too small for them, or its digits are exactly that distance.
  // The number is Sum / 2^(24 jz) in units of 2^q0, where q0 is e0 less 24 for each digit
  // of 2/pi that is skipped and for one more.
  method Fraction(q: seq<nat>, jz: nat, jk: nat, e0: int, iq: array<int>)
    returns (more: bool, n: int, ih: int, top: nat, scale: int, q0: int, ghost distance: int)
    requires 1 <= jz < |q| && jz + 2 <= iq.Length && jk <= jz
    requires forall i :: 0 <= i <= jz ==> q[i] <= 0x1f_ffff_e000_0000
    modifies iq
    ensures (e0 - q0) % 24 == 0 && (if e0 >= 3 then -21 <= q0 <= 2 else q0 == e0 - 24)
    ensures 0 <= n < 8 && 0 <= distance && 2 * distance <= Unit(q0, jz)
    ensures var signed := if ih > 0 then -distance else distance;
            (Sum(q[..jz + 1]) - (n * Unit(q0, jz) + signed)) % (8 * Unit(q0, jz)) == 0
    ensures more <==> distance < Pow2(24 * jk)
    ensures !more ==>
              && top < iq.Length && 24 * top - scale == 24 * jz - q0
              && AreDigits(iq[..top]) && iq[top] > 0
              && Weigh(iq[..top + 1]) == distance
    ensures !more && e0 >= 0 ==> top <= jz && iq[top] < RADIX
  {
    hide Pow2, Weigh, AreDigits;
    var z;
    q0 := ScaleOfLastDigit(e0);
    n, ih, z := Quadrant(q, jz, q0, iq);
    distance := Remaining(z, iq[..jz]);
    more := NeedsTerms(z, iq, jz, jk);
    top, scale := 0, 0;
    if !more {
      if q0 >= -24 {
        Pow2Monotone(Grain(q0), 24);
        Pow2Constants();
      }
      top, scale := TopDigits(z, q0, iq, jz);
    }
  }
}
