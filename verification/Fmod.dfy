/** fmod of gon.c: a shift-and-subtract remainder on two 32-bit words. */
module Fmod {
  import opened Bits
  import opened Binary64

  // ---------- what the C standard asks for ----------

  function Abs(v: int): nat { if v < 0 then -v else v }

  // Section 7.12.10.1 of ISO/IEC 9899:1999: x - n*y for some integer n, with the
  // sign of x and magnitude less than the magnitude of y.
  ghost predicate IsRemainder(x: int, y: int, r: int)
  {
    && (exists n: int :: r == x - n * y)
    && (r == 0 || (r < 0 <==> x < 0))
    && Abs(r) < Abs(y)
  }

  lemma RemainderExists(x: int, y: int)
    requires y != 0
    ensures IsRemainder(x, y, if x < 0 then -(Abs(x) % Abs(y)) else Abs(x) % Abs(y))
  {
    var q, m := Abs(x) / Abs(y), Abs(x) % Abs(y);
    DivNonnegative(Abs(x), Abs(y));
    assert Abs(x) == q * Abs(y) + m;
    SignedQuotient(x, y, q, m);
  }

  lemma SignedQuotient(x: int, y: int, q: int, m: int)
    requires Abs(x) == q * Abs(y) + m
    ensures exists n: int :: (if x < 0 then -m else m) == x - n * y
  {
    MulSigns(q, y);
    var n := if (x < 0) == (y < 0) then q else -q;
    assert (if x < 0 then -m else m) == x - n * y;
  }

  lemma MulSigns(q: int, y: int)
    ensures q * -y == -(q * y) == -q * y
  {
  }

  lemma RemainderUnique(x: int, y: int, r: int, s: int)
    requires IsRemainder(x, y, r) && IsRemainder(x, y, s)
    ensures r == s
  {
    var m :| r == x - m * y;
    var n :| s == x - n * y;
    assert r - s == (n - m) * y;
    assert Abs(r - s) < Abs(y);
    AbsOfMultiple(n - m, y);
  }

  lemma AbsOfMultiple(k: int, y: int)
    ensures k != 0 ==> Abs(k * y) >= Abs(y)
  {
    if k > 0 {
      MulLe(1, k, Abs(y));
    } else if k < 0 {
      MulLe(1, -k, Abs(y));
    }
  }

  // ---------- two-word arithmetic ----------

  // {h1,l1} - {h0,l0} with the borrow out of the low word, lines 561-564 and 576-579.
  method Subtract(hx: Word, lx: Word, hy: Word, ly: Word) returns (hz: int, lz: Word)
    ensures Join(hx, lx) - Join(hy, ly) == hz * TWO32 + lz
  {
    hz := hx - hy;
    lz := (lx - ly) % TWO32;
    if lx < ly {
      hz := hz - 1;
    }
  }

  // hx + hx + (lx >> 31), lx + lx.
  method Twice(hx: Word, lx: Word) returns (h: Word, l: Word)
    requires hx < 0x4000_0000
    ensures Join(h, l) == 2 * Join(hx, lx)
  {
    h := hx + hx + lx / TWO31;
    l := (lx + lx) % TWO32;
  }

  lemma ShiftLeftWords(h: nat, l: Word, n: nat)
    requires 1 <= n <= 31 && h * Pow2(n) < TWO32
    ensures Or(Shl32(h, n), Shr(l, 32 - n)) == Shl32(h, n) + Shr(l, 32 - n)
    ensures Join(Shl32(h, n) + Shr(l, 32 - n), Shl32(l, n)) == Join(h, l) * Pow2(n)
  {
    hide Pow2, Bitwise;
    Pow2Constants();
    Pow2Add(32 - n, n);
    ModSmall(h * Pow2(n), TWO32);
    SplitLeft(h, l, Pow2(32 - n), Pow2(n));
    OrDisjoint(Shl32(h, n), Shr(l, 32 - n), n);
  }

  lemma SplitLeft(h: nat, l: Word, d: nat, s: nat)
    requires d * s == TWO32
    ensures d > 0 && s > 0
    ensures h * s % s == 0 && l / d < s
    ensures Join(h * s + l / d, l * s % TWO32) == Join(h, l) * s
  {
    DivModSplit(l, d, s);
    ModSmall(l, TWO32);
    DivModUnique(h * s, s, h, 0);
    ModOfScaled(l, d, s);
  }

  // ---------- exponents and mantissas ----------

  // floor(log2) of a nonzero finite magnitude, counted from 2^0 = 1.0.
  ghost predicate IsLog2(v: nat, ix: int)
  {
    -1074 <= ix <= 1023 && Pow2(ix + 1074) <= v < Pow2(ix + 1075)
  }

  // The leading-zero loops of lines 510-518 and 521-529: i is shifted left until
  // its sign bit shows, i.e. while it is positive as a signed int.
  method CountDown(start: int, word: Word) returns (ix: int)
    requires word != 0
    ensures start - 31 <= ix <= start
    ensures TWO31 <= word * Pow2(start - ix) < TWO32
  {
    ix := start;
    var i: Word := word;
    Pow2Constants();
    while 0 < i < TWO31
      invariant ix <= start && 0 < i
      invariant i == word * Pow2(start - ix)
      decreases TWO32 - i
    {
      ModSmall(2 * i, TWO32);
      MulSwap(word, Pow2(start - ix), 2);
      i := 2 * i % TWO32;
      ix := ix - 1;
    }
    ShiftBound(word, start - ix, 32);
  }

  lemma ShiftBound(w: nat, k: nat, n: nat)
    requires 0 < w && w * Pow2(k) < Pow2(n)
    ensures k < n
  {
    MulLe(1, w, Pow2(k));
    if n <= k {
      Pow2Monotone(n, k);
    }
  }

  lemma SubnormalRange(w: nat, k: nat, n: nat)
    requires k <= n && Pow2(n) <= w * Pow2(k) < Pow2(n + 1)
    ensures Pow2(n - k) <= w < Pow2(n - k + 1)
  {
    hide Pow2;
    Pow2Add(n - k, k);
    Pow2Add(n - k + 1, k);
    MulCancelLt(w, Pow2(n - k + 1), Pow2(k));
    MulCancelLt(Pow2(n - k) - 1, w, Pow2(k));
  }

  method Ilogb(h: Word, l: Word) returns (ix: int)
    requires h < 0x7ff0_0000 && Join(h, l) != 0
    ensures h >= 0x10_0000 ==> ix == h / 0x10_0000 - 1023
    ensures h < 0x10_0000 ==> ix < -1022
    ensures IsLog2(Magnitude(Join(h, l)), ix)
  {
    hide Pow2;
    Pow2Constants();
    Pow2Wide();
    if h < 0x10_0000 {
      if h == 0 {
        ix := CountDown(-1043, l);
        SubnormalRange(l, -1043 - ix, 31);
      } else {
        ix := CountDown(-1022, h * 0x800);
        SubnormalHigh(h, l, -1022 - ix);
      }
    } else {
      ix := h / 0x10_0000 - 1023;
      NormalRange(h, l);
    }
  }

  lemma SubnormalHigh(h: nat, l: Word, k: nat)
    requires 0 < h < 0x10_0000 && TWO31 <= h * 0x800 * Pow2(k) < TWO32 && k <= 31
    ensures 1 <= k <= 52
    ensures Pow2(52 - k) <= Join(h, l) < Pow2(53 - k)
  {
    hide Pow2;
    Pow2Constants();
    MulSwap(h, 0x800, Pow2(k));
    MulSwap(h, Pow2(k), 0x800);
    assert h * 0x800 * Pow2(k) == h * Pow2(k) * 0x800;
    ShiftBound(h, k, 21);
    SubnormalRange(h, k, 20);
    HighWordRange(h, l, 20 - k);
  }

  lemma HighWordRange(h: nat, l: Word, j: nat)
    requires Pow2(j) <= h < Pow2(j + 1)
    ensures Pow2(j + 32) <= Join(h, l) < Pow2(j + 33)
  {
    hide Pow2;
    Pow2Constants();
    Pow2Add(j, 32);
    Pow2Add(j + 1, 32);
    MulLe(h + 1, Pow2(j + 1), TWO32);
    MulLe(Pow2(j), h, TWO32);
  }

  lemma NormalRange(h: nat, l: Word)
    requires 0x10_0000 <= h < 0x7ff0_0000
    ensures IsLog2(Magnitude(Join(h, l)), h / 0x10_0000 - 1023)
  {
    hide Pow2, Magnitude;
    NormalMagnitude(h, l);
    Pow2Wide();
    var e, f := h / 0x10_0000, Join(h % 0x10_0000, l);
    assert 1 <= e <= 2046;
    Pow2Add(52, e - 1);
    Pow2Add(53, e - 1);
    MulLe(TWO52, TWO52 + f, Pow2(e - 1));
    MulLt(TWO52 + f, TWO53, Pow2(e - 1));
  }

  // {h,l} is the mantissa of v at exponent ix: 53 bits, and nothing was lost.
  ghost predicate IsMantissa(v: nat, ix: int, h: nat, l: nat)
  {
    && ix >= -1074
    && TWO52 <= Join(h, l) < TWO53
    && v * TWO52 == Join(h, l) * Pow2(ix + 1074)
  }

  // Lines 531-543 (and 545-556 for y).
  method SetUp(h: Word, l: Word, ix: int) returns (h': Word, l': Word)
    requires h < 0x7ff0_0000 && IsLog2(Magnitude(Join(h, l)), ix)
    requires h >= 0x10_0000 ==> ix == h / 0x10_0000 - 1023
    requires h < 0x10_0000 ==> ix < -1022
    ensures IsMantissa(Magnitude(Join(h, l)), ix, h', l')
  {
    hide Pow2, Bitwise, Shr, Shl32;
    Pow2Constants();
    Pow2Wide();
    if ix >= -1022 {
      AndMask(h, 20);
      BitwiseCommutes(AndOp, 0x000f_ffff, h);
      OrDisjoint(0x0010_0000, h % 0x10_0000, 20);
      NormalMagnitude(h, l);
      Pow2Add(52, ix + 1022);
      h' := Or(0x0010_0000, And(0x000f_ffff, h));
      l' := l;
      MulSwap(TWO52 + Join(h % 0x10_0000, l), Pow2(ix + 1022), TWO52);
    } else {
      var n := -1022 - ix;
      ghost var v := Join(h, l);
      AlignedRange(v, n);
      if n <= 31 {
        AlignShort(h, l, n);
        h' := Or(Shl32(h, n), Shr(l, 32 - n));
        l' := Shl32(l, n);
      } else {
        AlignLong(h, l, n);
        h' := Shl32(l, n - 32);
        l' := 0;
      }
      assert Join(h', l') == v * Pow2(n);
      Pow2Add(n, 52 - n);
      MulAssoc(v, Pow2(n), Pow2(52 - n));
    }
  }

  lemma AlignShort(h: Word, l: Word, n: nat)
    requires 1 <= n <= 31 && Join(h, l) * Pow2(n) < TWO53
    ensures Or(Shl32(h, n), Shr(l, 32 - n)) < TWO32
    ensures Join(Or(Shl32(h, n), Shr(l, 32 - n)), Shl32(l, n)) == Join(h, l) * Pow2(n)
  {
    hide Pow2, Bitwise, Shr;
    MulDistributes(h * TWO32, l, Pow2(n));
    MulSwap(h, TWO32, Pow2(n));
    MulAssoc(h, Pow2(n), TWO32);
    MulLe(0, l, Pow2(n));
    ShiftLeftWords(h, l, n);
  }

  // Shifts of 32 or more: the high word is empty and the low word moves up.
  lemma AlignLong(h: Word, l: Word, n: nat)
    requires 32 <= n <= 52 && Join(h, l) < Pow2(53 - n) && Join(h, l) * Pow2(n) < TWO53
    ensures Join(Shl32(l, n - 32), 0) == Join(h, l) * Pow2(n)
  {
    hide Pow2;
    Pow2Constants();
    Pow2Monotone(53 - n, 32);
    Pow2Add(n - 32, 32);
    MulAssoc(l, Pow2(n - 32), TWO32);
    ModSmall(l * Pow2(n - 32), TWO32);
  }

  lemma AlignedRange(v: nat, n: int)
    requires IsLog2(v, -1022 - n) && n >= 1
    ensures n <= 52 && v < Pow2(53 - n)
    ensures TWO52 <= v * Pow2(n) < TWO53
  {
    hide Pow2;
    Pow2Wide();
    Pow2Add(52 - n, n);
    Pow2Add(53 - n, n);
    MulLe(Pow2(52 - n), v, Pow2(n));
    MulLt(v, Pow2(53 - n), Pow2(n));
  }

  // |x| >= |y| forces ix >= iy, so the loop count n = ix - iy is not negative.
  lemma ExponentsOrdered(v: nat, w: nat, ix: int, iy: int)
    requires IsLog2(v, ix) && IsLog2(w, iy) && w <= v
    ensures iy <= ix
  {
    if ix < iy {
      Pow2Monotone(ix + 1075, iy + 1074);
    }
  }

  // ---------- the remainder loop ----------

  // Lines 558-584; zero reports the early return of line 570.
  method Reduce(hx0: Word, lx0: Word, hy: Word, ly: Word, count: nat) returns (zero: bool, hx: Word, lx: Word)
    requires TWO52 <= Join(hx0, lx0) < TWO53 && TWO52 <= Join(hy, ly) < TWO53
    ensures zero ==> Join(hx0, lx0) * Pow2(count) % Join(hy, ly) == 0
    ensures !zero ==> Join(hx, lx) == Join(hx0, lx0) * Pow2(count) % Join(hy, ly)
  {
    hide Pow2, Bitwise;
    ghost var y := Join(hy, ly);
    ghost var goal := Join(hx0, lx0) * Pow2(count) % y;
    hx, lx, zero := hx0, lx0, false;
    var n := count;
    while n != 0
      invariant Join(hx, lx) < 2 * y
      invariant Join(hx, lx) * Pow2(n) % y == goal
    {
      n := n - 1;
      ghost var x := Join(hx, lx);
      var hz, lz := Subtract(hx, lx, hy, ly);
      if hz < 0 {
        hx, lx := Twice(hx, lx);
        Pow2Step(x, n);
      } else {
        ReduceStep(x, y, n);
        OrIsZero(hz, lz);
        if Or(hz, lz) == 0 {
          assert x - y == 0;
          ModSmall(0, y);
          return true, 0, 0;
        }
        hx, lx := Twice(hz, lz);
        assert Join(hx, lx) == 2 * (x - y);
      }
    }
    ghost var x := Join(hx, lx);
    Pow2Step(x, 0);
    var hz, lz := Subtract(hx, lx, hy, ly);
    if hz >= 0 {
      hx, lx := hz, lz;
      ModAddMultiple(x - y, 1, y);
    }
    ModSmall(Join(hx, lx), y);
  }

  lemma ReduceStep(x: nat, y: nat, n: nat)
    requires 0 < y <= x
    ensures 2 * (x - y) * Pow2(n) % y == x * Pow2(n + 1) % y
    ensures x == y ==> x * Pow2(n + 1) % y == 0
  {
    hide Pow2;
    var s := Pow2(n + 1);
    Pow2Step(x - y, n);
    assert x * s == (x - y) * s + s * y;
    ModAddMultiple((x - y) * s, s, y);
    if x == y {
      assert (x - y) * s == 0;
      ModSmall(0, y);
    }
  }

  // ---------- packing the result ----------

  // A signed zero, Zero[(u32) sx >> 31].
  function SignedZero(sx: Word): Double
  {
    if sx / TWO31 == 0 then Double(0, 0) else Double(0x8000_0000, 0)
  }

  // Lines 589-612: normalise, then write a normal or a subnormal result.
  method Pack(sx: Word, hx0: Word, lx0: Word, iy0: int, ghost v: nat) returns (r: Double)
    requires sx == 0 || sx == TWO31
    requires -1074 <= iy0 <= 1023 && 0 < Join(hx0, lx0) < TWO53
    requires v * TWO52 == Join(hx0, lx0) * Pow2(iy0 + 1074)
    ensures Negative(r) == (sx == TWO31) && IsFinite(r) && Mag(r) == v
  {
    hide Pow2;
    var hx: Word, lx: Word, iy := hx0, lx0, iy0;
    while hx < 0x10_0000
      invariant -1074 <= iy <= 1023 && 0 < Join(hx, lx) < TWO53
      invariant v * TWO52 == Join(hx, lx) * Pow2(iy + 1074)
      decreases TWO53 - Join(hx, lx)
    {
      ghost var x := Join(hx, lx);
      NormaliseRoom(v, x, iy);
      hx, lx := Twice(hx, lx);
      iy := iy - 1;
      Pow2Step(x, iy + 1074);
    }
    if iy >= -1022 {
      r := PackNormal(sx, hx, lx, iy, v);
    } else {
      r := PackSubnormal(sx, hx, lx, iy, v);
    }
  }

  // While the mantissa is short of 53 bits the exponent is above the least one.
  lemma NormaliseRoom(v: nat, x: nat, iy: int)
    requires iy >= -1074 && 0 < x < TWO52 && v * TWO52 == x * Pow2(iy + 1074)
    ensures iy > -1074
  {
    if iy == -1074 {
      MulLe(1, v, TWO52);
    }
  }

  method PackNormal(sx: Word, hx: Word, lx: Word, iy: int, ghost v: nat) returns (r: Double)
    requires sx == 0 || sx == TWO31
    requires -1022 <= iy <= 1023 && 0x10_0000 <= hx && IsMantissa(v, iy, hx, lx)
    ensures Negative(r) == (sx == TWO31) && IsFinite(r) && Mag(r) == v
  {
    hide Pow2, Bitwise;
    Pow2Constants();
    Pow2Wide();
    ModAddMultiple(0, iy + 1023, 0x10_0000);
    OrDisjoint((iy + 1023) * 0x10_0000, hx - 0x10_0000, 20);
    var h: Word := Or(hx - 0x10_0000, (iy + 1023) * 0x10_0000);
    OrDisjoint(sx, h, 31);
    r := Double(Or(h, sx), lx);
    assert r.ms % TWO31 == h;
    DivModUnique(h, 0x10_0000, iy + 1023, hx - 0x10_0000);
    NormalMagnitude(h, lx);
    Pow2Add(52, iy + 1022);
    MulSwap(Join(hx, lx), Pow2(iy + 1022), TWO52);
  }

  // Only zero bits are shifted out: the mantissa is v * 2^n.
  lemma DenormaliseExact(v: nat, iy: int, x: nat, n: nat)
    requires iy == -1022 - n && 1 <= n <= 52
    requires v * TWO52 == x * Pow2(iy + 1074)
    ensures x == v * Pow2(n)
  {
    Pow2Wide();
    Pow2Add(n, 52 - n);
    MulAssoc(v, Pow2(n), Pow2(52 - n));
    MulCancel(v * Pow2(n), x, Pow2(52 - n));
  }

  lemma ShiftRightWords(h: nat, l: Word, n: nat, v: nat)
    requires n <= 31 && Join(h, l) == v * Pow2(n)
    ensures Shl32(h, 32 - n) + Shr(l, n) < TWO32
    ensures v == Join(Shr(h, n), Shl32(h, 32 - n) + Shr(l, n))
    ensures Or(Shr(l, n), Shl32(h, 32 - n)) == Shl32(h, 32 - n) + Shr(l, n)
    ensures Or(Shl32(h, 32 - n), Shr(l, n)) == Shl32(h, 32 - n) + Shr(l, n)
  {
    hide Pow2, Bitwise;
    Pow2Constants();
    Pow2Add(n, 32 - n);
    SplitRight(h, l, Pow2(n), Pow2(32 - n), v);
    OrDisjoint(Shl32(h, 32 - n), Shr(l, n), 32 - n);
  }

  lemma SplitRight(h: nat, l: Word, d: nat, s: nat, v: nat)
    requires d * s == TWO32 && Join(h, l) == v * d
    ensures d > 0 && s > 0 && l / d < s
    ensures h * s % TWO32 % s == 0 && h * s % TWO32 + l / d < TWO32
    ensures v == Join(h / d, h * s % TWO32 + l / d)
  {
    MulLe(0, d, s);
    assert d > 0 && s > 0;
    var hr, hq, lq := h % d, h / d, l / d;
    DivModSplit(l, d, s);
    ModSmall(l, TWO32);
    ModOfScaled(h, d, s);
    assert h * s % TWO32 == hr * s;
    DivModUnique(hr * s, s, hr, 0);
    DivNonnegative(h, d);
    MulLe(hr + 1, d, s);
    MulDistributes(hr, 1, s);
    WholeQuotient(h, l, d, s, v, hq * TWO32 + hr * s + lq);
  }

  lemma WholeQuotient(h: nat, l: Word, d: nat, s: nat, v: nat, q: int)
    requires d > 0 && d * s == TWO32 && Join(h, l) == v * d
    requires q == h / d * TWO32 + h % d * s + l / d
    ensures v == q
  {
    var q0 := h / d * TWO32 + h % d * s;
    HighParts(h, d, s);
    MulDistributes(q0, l / d, d);
    DivModUnique(v * d, d, q, l % d);
    DivModUnique(v * d, d, v, 0);
  }

  lemma HighParts(h: nat, d: nat, s: nat)
    requires d > 0
    ensures h * (d * s) == (h / d * (d * s) + h % d * s) * d
  {
    var hq, hr := h / d, h % d;
    assert h == hq * d + hr;
    MulDistributes(hq * d, hr, d * s);
    MulDistributes(hq * (d * s), hr * s, d);
    MulSwap(hq, d * s, d);
    MulAssoc(hq, d, d * s);
    MulSwap(hr, s, d);
  }

  method PackSubnormal(sx: Word, hx: Word, lx: Word, iy: int, ghost v: nat) returns (r: Double)
    requires sx == 0 || sx == TWO31
    requires iy < -1022 && IsMantissa(v, iy, hx, lx)
    ensures Negative(r) == (sx == TWO31) && IsFinite(r) && Mag(r) == v
  {
    hide Pow2, Bitwise, Shr, Shl32, Pattern;
    Pow2Constants();
    Pow2Wide();
    var n := -1022 - iy;
    DenormaliseExact(v, iy, Join(hx, lx), n);
    SubnormalValue(v, n, Join(hx, lx));
    var h: Word, l: Word;
    ghost var high := 0;
    if n <= 20 {
      ShiftRightWords(hx, lx, n, v);
      l := Or(Shr(lx, n), Shl32(hx, 32 - n));
      h := Shr(hx, n);
      high := h;
    } else if n <= 31 {
      ShiftRightWords(hx, lx, n, v);
      l := Or(Shl32(hx, 32 - n), Shr(lx, n));
      HighVanishes(hx, n);
      h := sx;
    } else {
      WholeWords(hx, lx, n, v);
      l := Shr(hx, n - 32);
      h := sx;
    }
    assert v == Join(high, l);
    SetSign(h, high, sx);
    r := Double(Or(h, sx), l);
    SignedWords(r, high, sx);
  }

  lemma SignedWords(r: Double, high: Word, sx: Word)
    requires sx == 0 || sx == TWO31
    requires r.ms == high + sx && high < TWO31
    ensures Negative(r) == (sx == TWO31) && Pattern(r) == Join(high, r.ls)
  {
  }

  lemma SubnormalValue(v: nat, n: nat, x: nat)
    requires 1 <= n && x == v * Pow2(n) && x < TWO53
    ensures v < TWO52
  {
    Pow2Monotone(1, n);
    MulLe(2, Pow2(n), v);
  }

  lemma HighVanishes(h: nat, n: nat)
    requires h < 0x20_0000 && n >= 21
    ensures Shr(h, n) == 0
  {
    Pow2Constants();
    Pow2Monotone(21, n);
    ModSmall(h, Pow2(n));
  }

  lemma WholeWords(h: nat, l: Word, n: nat, v: nat)
    requires n >= 32 && Join(h, l) == v * Pow2(n)
    ensures l == 0 && v == Shr(h, n - 32) <= h
  {
    hide Pow2;
    Pow2Constants();
    Pow2Add(n - 32, 32);
    var d := Pow2(n - 32);
    MulAssoc(v, d, TWO32);
    MulLe(1, d, v);
    DivModUnique(Join(h, l), TWO32, h, l);
    DivModUnique(Join(h, l), TWO32, v * d, 0);
    DivModUnique(h, d, v, 0);
  }

  // h | sx sets the sign, whether h still holds high bits or is the sign already.
  lemma SetSign(h: Word, high: Word, sx: Word)
    requires sx == 0 || sx == TWO31
    requires high < TWO31 && (h == high || (h == sx && high == 0))
    ensures Or(h, sx) == high + sx
  {
    hide Pow2, Bitwise;
    Pow2Constants();
    if h == high {
      OrDisjoint(sx, high, 31);
    } else {
      OrSelf(sx);
    }
  }

  // ---------- the whole function ----------

  // (ly | -ly) >> 31 is 1 for a nonzero low word, so the test of line 500 finds NaNs.
  lemma NaNTest(h: Word, l: Word)
    requires h < TWO31
    ensures Or(h, Or(l, (TWO32 - l) % TWO32) / TWO31) > 0x7ff0_0000 <==> Join(h, l) > INFINITY
  {
    hide Pow2, Bitwise;
    LowWordTest(l);
    if l == 0 {
      OrWithZero(h);
    } else {
      BitwiseUnfold(OrOp, h, 1);
      OrWithZero(h / 2);
    }
  }

  lemma LowWordTest(l: Word)
    ensures Or(l, (TWO32 - l) % TWO32) / TWO31 == if l == 0 then 0 else 1
  {
    hide Pow2, Bitwise;
    Pow2Constants();
    var m := (TWO32 - l) % TWO32;
    OrIsZero(l, m);
    OrAtLeast(l, m);
    BitwiseBound(OrOp, l, m, 32);
  }

  // Lines 494-496: the sign of x, |x| and |y|.
  method Unsign(x: Double, y: Double) returns (sx: Word, hx: Word, hy: Word)
    ensures sx == if Negative(x) then TWO31 else 0
    ensures hx < TWO31 && Join(hx, x.ls) == Pattern(x)
    ensures hy < TWO31 && Join(hy, y.ls) == Pattern(y)
  {
    hide Pow2, Bitwise;
    Pow2Constants();
    AndHighMask(x.ms, 31, 32);
    XorOwnBits(x.ms, 0x8000_0000);
    AndMask(y.ms, 31);
    sx := And(x.ms, 0x8000_0000);
    hx := Xor(x.ms, sx);
    hy := And(y.ms, 0x7fff_ffff);
  }

  // Lines 498-507: the answers that need no division.
  method Shortcut(x: Double, y: Double, sx: Word, hx: Word, hy: Word) returns (done: bool, a: Answer)
    requires sx == if Negative(x) then TWO31 else 0
    requires hx < TWO31 && Join(hx, x.ls) == Pattern(x)
    requires hy < TWO31 && Join(hy, y.ls) == Pattern(y)
    ensures IsZero(y) || !IsFinite(x) || IsNaN(y) ==> done && a == NotANumber
    ensures IsFinite(x) && IsInfinite(y) ==> done && a == Exactly(x)
    ensures !done ==> 0 < Pattern(y) < Pattern(x) < INFINITY
    ensures done && IsFinite(x) && IsFinite(y) && !IsZero(y) ==>
              a.Exactly? && IsFinite(a.d) && Negative(a.d) == Negative(x) && Mag(y) != 0 && Mag(a.d) == Mag(x) % Mag(y)
  {
    hide Pow2, Bitwise, Magnitude;
    OrIsZero(hy, y.ls);
    NaNTest(hy, y.ls);
    if Or(hy, y.ls) == 0 || hx >= 0x7ff0_0000 || Or(hy, Or(y.ls, (TWO32 - y.ls) % TWO32) / TWO31) > 0x7ff0_0000 {
      return true, NotANumber;
    }
    ZeroMagnitude();
    MagnitudeMonotone(0, Pattern(y));
    if hx <= hy {
      if hx < hy || x.ls < y.ls {
        MagnitudeMonotone(Pattern(x), Pattern(y));
        ModSmall(Mag(x), Mag(y));
        return true, Exactly(x);
      }
      if x.ls == y.ls {
        DivModUnique(Mag(x), Mag(y), 1, 0);
        return true, Exactly(SignedZero(sx));
      }
    }
    return false, NotANumber;
  }

  lemma ZeroMagnitude()
    ensures Magnitude(0) == 0
  {
  }

  method FMod(x: Double, y: Double) returns (a: Answer)
    ensures a == NotANumber <==> IsZero(y) || !IsFinite(x) || IsNaN(y)
    ensures IsFinite(x) && IsInfinite(y) ==> a == Exactly(x)
    ensures IsFinite(x) && IsFinite(y) && !IsZero(y) ==>
              && a.Exactly? && IsFinite(a.d)
              && Negative(a.d) == Negative(x)
              && Mag(y) != 0 && Mag(a.d) == Mag(x) % Mag(y)
              && IsRemainder(Value(x), Value(y), Value(a.d))
  {
    hide Pow2, Bitwise, Magnitude, IsRemainder;
    var sx, hx, hy := Unsign(x, y);
    var done;
    done, a := Shortcut(x, y, sx, hx, hy);
    if !done {
      var d := Divide(sx, hx, x.ls, hy, y.ls);
      a := Exactly(d);
    }
    if IsFinite(x) && IsFinite(y) && !IsZero(y) {
      RemainderOfDoubles(x, y, a.d);
    }
  }

  lemma RemainderOfDoubles(x: Double, y: Double, d: Double)
    requires Mag(y) != 0 && Mag(d) == Mag(x) % Mag(y) && Negative(d) == Negative(x)
    ensures IsRemainder(Value(x), Value(y), Value(d))
  {
    hide Mag, IsRemainder;
    RemainderExists(Value(x), Value(y));
    assert Abs(Value(x)) == Mag(x) && Abs(Value(y)) == Mag(y);
    if Mag(x) == 0 {
      ModSmall(0, Mag(y));
    }
  }

  // Lines 509-613, reached with |x| > |y| > 0.
  method Divide(sx: Word, hx0: Word, lx0: Word, hy0: Word, ly0: Word) returns (r: Double)
    requires sx == 0 || sx == TWO31
    requires 0 < Join(hy0, ly0) < Join(hx0, lx0) && hx0 < 0x7ff0_0000
    ensures Magnitude(Join(hy0, ly0)) != 0
    ensures Negative(r) == (sx == TWO31) && IsFinite(r)
    ensures Mag(r) == Magnitude(Join(hx0, lx0)) % Magnitude(Join(hy0, ly0))
  {
    hide Pow2, Bitwise, Magnitude;
    ghost var v, w := Magnitude(Join(hx0, lx0)), Magnitude(Join(hy0, ly0));
    ZeroMagnitude();
    MagnitudeMonotone(0, Join(hy0, ly0));
    MagnitudeMonotone(Join(hy0, ly0), Join(hx0, lx0));
    var ix := Ilogb(hx0, lx0);
    var iy := Ilogb(hy0, ly0);
    var hx, lx := SetUp(hx0, lx0, ix);
    var hy, ly := SetUp(hy0, ly0, iy);
    ExponentsOrdered(v, w, ix, iy);
    RemainderScales(v, w, Join(hx, lx), Join(hy, ly), ix, iy);
    var zero;
    zero, hx, lx := Reduce(hx, lx, hy, ly, ix - iy);
    if zero {
      return SignedZero(sx);
    }
    OrIsZero(hx, lx);
    if Or(hx, lx) == 0 {
      return SignedZero(sx);
    }
    r := Pack(sx, hx, lx, iy, v % w);
  }

  // The remainder of the mantissas, at y's exponent, is the remainder of the values.
  lemma RemainderScales(v: nat, w: nat, x: nat, y: nat, ix: int, iy: int)
    requires -1074 <= iy <= ix && w > 0 && y > 0
    requires v * TWO52 == x * Pow2(ix + 1074) && w * TWO52 == y * Pow2(iy + 1074)
    ensures (v % w) * TWO52 == x * Pow2(ix - iy) % y * Pow2(iy + 1074)
    ensures x * Pow2(ix - iy) % y == 0 ==> v % w == 0
  {
    hide Pow2;
    var s := Pow2(iy + 1074);
    Pow2Add(ix - iy, iy + 1074);
    ModOfScaled(v, w, TWO52);
    ModOfScaled(x * Pow2(ix - iy), y, s);
    MulAssoc(x, Pow2(ix - iy), s);
  }

  // The standard's conditions and the sign bit leave exactly one pair of words.
  lemma OnlyOneAnswer(x: Double, y: Double, d: Double, e: Double)
    requires Negative(d) == Negative(e)
    requires IsRemainder(Value(x), Value(y), Value(d)) && IsRemainder(Value(x), Value(y), Value(e))
    ensures d == e
  {
    hide Magnitude, IsRemainder;
    RemainderUnique(Value(x), Value(y), Value(d), Value(e));
    SameBits(d, e);
  }
}
