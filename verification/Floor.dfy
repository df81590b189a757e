/** floor of gon.c: clears fraction bits across two words, rounding negative
    numbers away from zero by a carry that may run into the exponent. */
module Floor {
  import opened Bits
  import opened Binary64

  // 1.0 in units of 2^-1074.
  function One(): nat { Pow2(1074) }

  // Section 7.12.9.2 of ISO/IEC 9899:1999: the largest integer value not greater than v.
  ghost predicate IsFloor(v: int, r: int)
  {
    && (exists n: int :: r == n * One())
    && r <= v
    && forall n: int :: n * One() <= v ==> n * One() <= r
  }

  lemma FloorByDivision(v: int)
    ensures IsFloor(v, v / One() * One())
  {
    hide Pow2;
    var q, one := v / One(), One();
    forall n: int | n * one <= v
      ensures n * one <= q * one
    {
      MulCancelLt(n, q + 1, one);
      MulLe(n, q, one);
    }
  }

  // The integer and the sign bit leave exactly one pair of words.
  lemma OnlyOneFloor(v: int, d: Double, e: Double)
    requires Negative(d) == Negative(e)
    requires IsFloor(v, Value(d)) && IsFloor(v, Value(e))
    ensures d == e
  {
    hide Pow2, Magnitude;
    assert Value(d) == Value(e);
    SameBits(d, e);
  }

  // A magnitude cut down to a multiple of u, or cut up when it is a negative
  // number's and not a multiple already.
  function RoundTo(negative: bool, v: nat, u: nat): (r: nat)
    requires u > 0
    ensures r == v <==> v % u == 0
  {
    DivNonnegative(v, u);
    var r := v % u;
    if negative && r != 0 then v - r + u else v - r
  }

  lemma RoundToIsFloor(x: Double, r: Double)
    requires Negative(r) == Negative(x) && Mag(r) == RoundTo(Negative(x), Mag(x), One())
    ensures Value(r) == Value(x) / One() * One()
  {
    hide Pow2, Magnitude;
    var one, v: int := One(), Mag(x);
    var q: int, m := v / one, v % one;
    if Negative(x) {
      if m == 0 {
        DivModUnique(-v, one, -q, 0);
      } else {
        DivModUnique(-v, one, -q - 1, one - m);
      }
    }
  }

  // For 1 <= |x| < 2^52 the unit 1.0 is bit k = 52 - j0 of the pattern, so rounding
  // the bits rounds the value, also when the carry leaves the fraction.
  lemma RoundingBitsIsExact(negative: bool, p: nat, k: nat)
    requires 1 <= k <= 52 && p / TWO52 == 1075 - k
    ensures Magnitude(RoundTo(negative, p, Pow2(k))) == RoundTo(negative, Magnitude(p), One())
  {
    hide Pow2, Magnitude;
    var u, w, s := Pow2(k), Pow2(52 - k), Pow2(1074 - k);
    Pow2Add(k, 1074 - k);
    Pow2Wide();
    Pow2Add(k, 52 - k);
    FractionSplit(p, u, w, TWO52);
    var p' := p - p % u;
    MagnitudeAdvance(p', p % u);
    MagnitudeAdvance(p', u);
    UlpAndWhole(p', 1075 - k, u, w);
    WholePart(Magnitude(p'), Magnitude(p), p % u, u, s);
  }

  lemma FractionSplit(p: nat, u: nat, w: nat, t: nat)
    requires u * w == t > 0
    ensures u > 0 && w > 0
    ensures 0 <= p - p % u
    ensures (p - p % u) / t == p / t
    ensures (p - p % u) % t == p % t - p % u
    ensures (p - p % u) % t % u == 0
    ensures (p - p % u) % t + u <= t
  {
    MulLe(0, u, w);
    assert u > 0 && w > 0;
    DivModSplit(p, u, w);
    var f, r := p % t, p % u;
    assert f == p / u % w * u + r;
    DivModUnique(p - r, t, p / t, f - r);
    MulLe(p / u % w + 1, w, u);
    DivModUnique(f - r, u, p / u % w, 0);
    DivNonnegative(p, u);
  }

  // Truncated to bit k, a magnitude is a whole number of units.
  lemma UlpAndWhole(p: nat, e: nat, u: nat, w: nat)
    requires e >= 1 && p / TWO52 == e && u * w == TWO52 && u > 0 && p % TWO52 % u == 0
    ensures UlpExponent(p) == e - 1
    ensures Magnitude(p) % (u * Pow2(e - 1)) == 0
  {
    hide Pow2;
    var f := p % TWO52;
    ModAddMultiple(f, w, u);
    assert w * u == TWO52;
    ModOfScaled(TWO52 + f, u, Pow2(e - 1));
  }

  lemma WholePart(v': nat, v: nat, r: nat, u: nat, s: nat)
    requires s > 0 && r < u && v == v' + r * s && v' % (u * s) == 0
    ensures v % (u * s) == r * s
    ensures r * s == 0 <==> r == 0
  {
    MulLt(r, u, s);
    MulLe(0, r, s);
    DivModUnique(v, u * s, v' / (u * s), r * s);
  }

  // ---------- the function ----------

  // huge + x > 0.0: rounding cannot turn a positive exact sum into zero.
  predicate HugePlus(x: Double) { Value(HUGE) + Value(x) > 0 }

  lemma HugeGuardHolds(x: Double)
    requires Pattern(x) < 0x4330_0000_0000_0000
    ensures HugePlus(x)
  {
    hide Magnitude;
    MagnitudeMonotone(Pattern(x), 0x4330_0000_0000_0000);
    MagnitudeMonotone(0x4330_0000_0000_0000, Pattern(HUGE));
  }

  // Shifting a run of n ones right leaves a run of n - j ones.
  lemma ShrOnes(n: nat, j: nat)
    requires j <= n
    ensures Shr(Pow2(n) - 1, j) == Pow2(n - j) - 1
  {
    hide Pow2;
    Pow2Add(n - j, j);
    DivModUnique(Pow2(n) - 1, Pow2(j), Pow2(n - j) - 1, Pow2(j) - 1);
  }

  method Floor(x: Double) returns (a: Answer)
    ensures a == NotANumber <==> IsNaN(x)
    ensures IsInfinite(x) ==> a == Exactly(x)
    ensures IsFinite(x) ==>
              && a.Exactly? && IsFinite(a.d)
              && Negative(a.d) == Negative(x)
              && IsFloor(Value(x), Value(a.d))
  {
    hide Pow2, Magnitude, Bitwise, IsFloor;
    var e := BiasedExponent(x);
    var j0: int := e - 0x3ff;
    var d;
    if j0 < 20 {
      if j0 < 0 {
        d := BelowOne(x);
      } else {
        d := ClearHigh(x, j0);
      }
    } else if j0 > 51 {
      if j0 == 0x400 {
        return if IsNaN(x) then NotANumber else Exactly(x);   // x + x
      }
      AlreadyWhole(x, j0);
      d := x;
    } else {
      d := ClearLow(x, j0);
    }
    FloorByDivision(Value(x));
    RoundToIsFloor(x, d);
    a := Exactly(d);
  }

  // (i0 >> 20) & 0x7ff; the copies of the sign an arithmetic shift brings in are masked off.
  method BiasedExponent(x: Double) returns (e: int)
    ensures e == Pattern(x) / TWO52 < 2048
  {
    hide Pow2, Bitwise;
    Pow2Constants();
    AndMask(Shr(x.ms, 20), 11);
    DivModSplit(x.ms, 0x10_0000, 0x800);
    e := And(Shr(x.ms, 20), 0x7ff);
    DivModUnique(Pattern(x), TWO52, e, Join(x.ms % 0x10_0000, x.ls));
  }

  lemma AlreadyWhole(x: Double, j0: int)
    requires j0 == Pattern(x) / TWO52 - 0x3ff && 52 <= j0 < 0x400
    ensures IsFinite(x) && Mag(x) == RoundTo(Negative(x), Mag(x), One())
  {
    hide Pow2;
    var p := Pattern(x);
    Pow2Add(j0 - 52, 1074);
    var m := TWO52 + p % TWO52;
    MulAssoc(m, Pow2(j0 - 52), One());
    DivModUnique(Mag(x), One(), m * Pow2(j0 - 52), 0);
  }

  // Lines 83-91: |x| < 1.
  method BelowOne(x: Double) returns (d: Double)
    requires Pattern(x) / TWO52 < 0x3ff
    ensures IsFinite(d) && Negative(d) == Negative(x) && Mag(d) == RoundTo(Negative(x), Mag(x), One())
  {
    hide Pow2, Magnitude, Bitwise;
    HugeGuardHolds(x);
    BelowOneValues(x);
    d := x;
    if HugePlus(x) {
      if x.ms < TWO31 {
        d := Double(0, 0);
      } else {
        Pow2Constants();
        AndMask(x.ms, 31);
        OrIsZero(And(x.ms, 0x7fff_ffff), x.ls);
        if Or(And(x.ms, 0x7fff_ffff), x.ls) != 0 {
          d := Double(0xbff0_0000, 0);
        }
      }
    }
  }

  lemma BelowOneValues(x: Double)
    requires Pattern(x) / TWO52 < 0x3ff
    ensures Magnitude(0) == 0
    ensures Mag(Double(0xbff0_0000, 0)) == One()
    ensures Mag(x) / One() == 0 && Mag(x) % One() == Mag(x)
    ensures Mag(x) == 0 <==> Pattern(x) == 0
  {
    hide Pow2;
    Pow2Wide();
    Pow2Add(52, 1022);
    var p := Pattern(Double(0xbff0_0000, 0));
    DivModUnique(p, TWO52, 0x3ff, 0);
    MagnitudeMonotone(Pattern(x), p);
    if Pattern(x) != 0 {
      MagnitudeMonotone(0, Pattern(x));
    }
    ModSmall(Mag(x), One());
  }

  // Lines 93-101: the unit lies in the high word.
  method ClearHigh(x: Double, j0: nat) returns (d: Double)
    requires j0 == Pattern(x) / TWO52 - 0x3ff && j0 < 20
    ensures IsFinite(d) && Negative(d) == Negative(x) && Mag(d) == RoundTo(Negative(x), Mag(x), One())
  {
    hide Pow2, Magnitude, Bitwise, RoundTo;
    Pow2Constants();
    var t := 20 - j0;
    RoundingBitsIsExact(Negative(x), Pattern(x), 32 + t);
    HugeGuardHolds(x);
    ShrOnes(20, j0);
    var i: Word := Shr(0x000f_ffff, j0);
    AndMask(x.ms, t);
    HighSplit(x, t, Pow2(t));
    OrIsZero(And(x.ms, i), x.ls);
    if Or(And(x.ms, i), x.ls) == 0 {
      return x;
    }
    d := x;
    if HugePlus(x) {
      var i0: Word := x.ms;
      if i0 >= TWO31 {
        Pow2Add(t, j0);
        DivModUnique(0x0010_0000, Pow2(j0), Pow2(t), 0);
        ModAddMultiple(x.ms, 1, Pow2(t));
        i0 := i0 + Shr(0x0010_0000, j0);
      }
      AndHighMask(i0, t, 32);
      i0 := And(i0, Not(32, i));
      d := Double(i0, 0);
      HighRounded(x, d, t, Pow2(t));
    }
  }

  lemma HighSplit(x: Double, t: nat, u: nat)
    requires Pattern(x) < 0x4330_0000_0000_0000 && t <= 20 && u == Pow2(t)
    ensures u <= 0x10_0000
    ensures Pattern(x) % Pow2(32 + t) == Join(x.ms % u, x.ls)
    ensures x.ms + u < TWO32
    ensures 0 <= x.ms % u == x.ms % TWO31 % u <= x.ms % TWO31
  {
    hide Pow2;
    Pow2Constants();
    Pow2Add(32, t);
    Pow2Monotone(t, 20);
    DivModSplit(Pattern(x), TWO32, u);
    DivModUnique(Pattern(x), TWO32, x.ms % TWO31, x.ls);
    ModPow2Nested(x.ms, t, 31);
    DivNonnegative(x.ms % TWO31, u);
  }

  lemma HighRounded(x: Double, d: Double, t: nat, u: nat)
    requires Pattern(x) < 0x4330_0000_0000_0000 && t <= 20 && u == Pow2(t)
    requires Pattern(x) % Pow2(32 + t) != 0
    requires d.ls == 0 && d.ms == x.ms - x.ms % u + (if Negative(x) then u else 0)
    ensures IsFinite(d) && Negative(d) == Negative(x)
    ensures Pattern(d) == RoundTo(Negative(x), Pattern(x), Pow2(32 + t))
  {
    hide Pow2;
    Pow2Constants();
    Pow2Add(32, t);
    HighSplit(x, t, u);
    hide Pattern;
    MovePattern(x, d, RoundTo(Negative(x), Pattern(x), Pow2(32 + t)));
  }

  // Lines 109-124: the unit lies in the low word.
  method ClearLow(x: Double, j0: nat) returns (d: Double)
    requires j0 == Pattern(x) / TWO52 - 0x3ff && 20 <= j0 <= 51
    ensures IsFinite(d) && Negative(d) == Negative(x) && Mag(d) == RoundTo(Negative(x), Mag(x), One())
  {
    hide Pow2, Magnitude, Bitwise, RoundTo;
    Pow2Constants();
    var k := 52 - j0;
    RoundingBitsIsExact(Negative(x), Pattern(x), k);
    HugeGuardHolds(x);
    ShrOnes(32, j0 - 20);
    var i: Word := Shr(0xffff_ffff, j0 - 20);
    AndMask(x.ls, k);
    LowSplit(x, k);
    if And(x.ls, i) == 0 {
      return x;
    }
    d := x;
    if HugePlus(x) {
      var i0: Word, i1: Word := x.ms, x.ls;
      if i0 >= TWO31 {
        if j0 == 20 {
          i0 := i0 + 1;
        } else {
          var j: Word := (i1 + Shl32(1, 52 - j0)) % TWO32;
          LowCarry(i1, k, Pow2(k));
          if j < i1 {
            i0 := i0 + 1;
          }
          i1 := j;
        }
      }
      AndHighMask(i1, k, 32);
      i1 := And(i1, Not(32, i));
      d := Double(i0, i1);
      assert Join(i0, i1) == Join(x.ms, x.ls) - x.ls % Pow2(k) + (if Negative(x) then Pow2(k) else 0);
      LowRounded(x, d, k, Pow2(k));
    }
  }

  lemma LowRounded(x: Double, d: Double, k: nat, u: nat)
    requires Pattern(x) < 0x4330_0000_0000_0000 && 1 <= k <= 32 && u == Pow2(k)
    requires Pattern(x) % u != 0
    requires Join(d.ms, d.ls) == Join(x.ms, x.ls) - x.ls % u + (if Negative(x) then u else 0)
    ensures IsFinite(d) && Negative(d) == Negative(x)
    ensures Pattern(d) == RoundTo(Negative(x), Pattern(x), u)
  {
    hide Pow2;
    Pow2Constants();
    LowSplit(x, k);
    hide Pattern;
    MovePattern(x, d, RoundTo(Negative(x), Pattern(x), u));
  }

  lemma LowSplit(x: Double, k: nat)
    requires Pattern(x) < 0x4330_0000_0000_0000 && 1 <= k <= 32
    ensures Pattern(x) % Pow2(k) == x.ls % Pow2(k) <= x.ls
    ensures Negative(x) ==> x.ms + 1 < TWO32
    ensures Pow2(k) <= TWO32
  {
    hide Pow2;
    Pow2Constants();
    DivModUnique(Pattern(x), TWO32, x.ms % TWO31, x.ls);
    ModPow2Nested(Pattern(x), k, 32);
    DivNonnegative(x.ls, Pow2(k));
    Pow2Monotone(k, 32);
  }

  lemma LowCarry(i1: Word, k: nat, u: nat)
    requires 1 <= k < 32 && u == Pow2(k)
    ensures Shl32(1, k) == u < TWO32
    ensures (i1 + u) % TWO32 % u == i1 % u
    ensures (i1 + u) % TWO32 == if i1 + u < TWO32 then i1 + u else i1 + u - TWO32
    ensures (i1 + u) % TWO32 < i1 <==> i1 + u >= TWO32
  {
    hide Pow2;
    Pow2Constants();
    Pow2Monotone(k, 32);
    ModSmall(u, TWO32);
    ModPow2Nested(i1 + u, k, 32);
    ModAddMultiple(i1, 1, u);
  }
}
