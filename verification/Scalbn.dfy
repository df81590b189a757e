/** scalbn of gon.c: multiplication by a power of two by changing the exponent field,
    against the product rounded once, to nearest with ties to even, as section 4.3.1
    of IEEE 754-2008 defines it.  The multiplications the code itself makes round the
    same way. */
module Scalbn {
  import opened Bits
  import opened Binary64

  // ---------- rounding ----------

  // m / u to the nearest integer, and to the even one when two are equally near.
  function HalfEven(m: nat, u: nat): (q: nat)
    requires u > 0
    ensures m == 0 ==> q == 0
  {
    DivNonnegative(m, u);
    var q, r := m / u, m % u;
    if 2 * r > u || (2 * r == u && q % 2 == 1) then q + 1 else q
  }

  // The pattern m / 2^s is rounded to when the exponent has no upper limit.
  function Rounded(m: nat, s: nat): nat
    decreases m - TWO53 * Pow2(s)
  {
    if m < TWO53 * Pow2(s) then HalfEven(m, Pow2(s)) else Rounded(m, s + 1) + TWO52
  }

  // m * 2^n rounded.
  function Scaled(m: nat, n: int): nat
  {
    if n >= 0 then Rounded(m * Pow2(n), 0) else Rounded(m, -n)
  }

  function Capped(p: nat): nat { if p > INFINITY then INFINITY else p }

  function WithPattern(negative: bool, p: nat): (d: Double)
    requires p <= INFINITY
    ensures Negative(d) == negative && Pattern(d) == p
  {
    Double(p / TWO32 + (if negative then TWO31 else 0), p % TWO32)
  }

  // What x * 2^n should be.
  function TimesPow2(x: Double, n: int): (d: Double)
    ensures Negative(d) == Negative(x)
  {
    WithPattern(Negative(x), Capped(Scaled(Mag(x), n)))
  }

  // The product of two finite doubles.
  function Times(x: Double, y: Double): (d: Double)
    ensures Negative(d) <==> Negative(x) != Negative(y)
  {
    hide Pow2, Magnitude;
    MulLe(0, Mag(x), Mag(y));
    WithPattern(Negative(x) != Negative(y), Capped(Rounded(Mag(x) * Mag(y), 1074)))
  }

  // ---------- rounding is to nearest, ties to even ----------

  lemma LowMagnitude(p: nat)
    requires p <= TWO53
    ensures Magnitude(p) == p
  {
    if TWO52 <= p < TWO53 {
      DivModUnique(p, TWO52, 1, p - TWO52);
    } else if p == TWO53 {
      assert Pow2(1) == 2;
    }
  }

  // One more in the exponent doubles the magnitude.
  lemma MagnitudeDoubles(p: nat)
    requires p >= TWO52
    ensures Magnitude(p + TWO52) == 2 * Magnitude(p)
  {
    var e, f := p / TWO52, p % TWO52;
    DivModUnique(p + TWO52, TWO52, e + 1, f);
    Pow2Step(1, e - 1);
    hide Pow2;
    MulSwap(TWO52 + f, 2, Pow2(e - 1));
    MulAssoc(TWO52 + f, Pow2(e - 1), 2);
  }

  lemma RoundedAtLeast(m: nat, s: nat)
    requires m >= TWO52 * Pow2(s)
    ensures Rounded(m, s) >= TWO52
  {
    if m < TWO53 * Pow2(s) {
      hide Pow2;
      var u := Pow2(s);
      MulCancelLt(TWO52 - 1, m / u, u);
    }
  }

  function Distance(m: nat, s: nat, p: nat): nat
  {
    var v := Magnitude(p) * Pow2(s);
    if v < m then m - v else v - m
  }

  lemma RoundedStep(m: nat, s: nat)
    ensures Rounded(m, s) == if m < TWO53 * Pow2(s) then HalfEven(m, Pow2(s)) else Rounded(m, s + 1) + TWO52
    ensures Pow2(s + 1) == 2 * Pow2(s)
    ensures m >= TWO53 * Pow2(s) ==> m >= TWO52 * Pow2(s + 1)
    ensures m - TWO53 * Pow2(s + 1) < m - TWO53 * Pow2(s)
  {
  }

  // No pattern is nearer to m / 2^s, and when another is as near the chosen one is even.
  lemma {:induction false} RoundedIsNearest(m: nat, s: nat, q: nat)
    ensures Distance(m, s, Rounded(m, s)) <= Distance(m, s, q)
    ensures Distance(m, s, Rounded(m, s)) == Distance(m, s, q) && q != Rounded(m, s) ==> Rounded(m, s) % 2 == 0
    decreases m - TWO53 * Pow2(s)
  {
    hide Magnitude, Rounded, Distance, HalfEven, Pow2;
    RoundedStep(m, s);
    if m < TWO53 * Pow2(s) {
      NearestInLowBinades(m, s, q);
    } else {
      var p := Rounded(m, s + 1);
      RoundedAtLeast(m, s + 1);
      DoubledDistance(m, s, p);
      var q' := if q >= TWO53 then q - TWO52 else TWO52;
      RoundedIsNearest(m, s + 1, q');
      DoubledDistance(m, s, q');
      if q < TWO53 {
        FartherBelow(m, s, q);
      }
    }
  }

  lemma FartherBelow(m: nat, s: nat, q: nat)
    requires q < TWO53 && TWO53 * Pow2(s) <= m
    ensures Distance(m, s, TWO53) < Distance(m, s, q)
  {
    hide Pow2, Magnitude;
    LowMagnitude(TWO53);
    LowMagnitude(q);
    MulLt(q, TWO53, Pow2(s));
  }

  lemma DoubledDistance(m: nat, s: nat, p: nat)
    requires p >= TWO52
    ensures Distance(m, s, p + TWO52) == Distance(m, s + 1, p)
  {
    MagnitudeDoubles(p);
    Pow2Step(1, s);
    hide Pow2, Magnitude;
    MulSwap(Magnitude(p), 2, Pow2(s));
    assert 2 * Magnitude(p) * Pow2(s) == Magnitude(p) * 2 * Pow2(s);
  }

  lemma NearestInLowBinades(m: nat, s: nat, q: nat)
    requires m < TWO53 * Pow2(s)
    ensures var p := HalfEven(m, Pow2(s));
      && Distance(m, s, p) <= Distance(m, s, q)
      && (Distance(m, s, p) == Distance(m, s, q) && q != p ==> p % 2 == 0)
  {
    hide Pow2, Magnitude;
    var u := Pow2(s);
    var p := HalfEven(m, u);
    var b, r := m / u, m % u;
    DivNonnegative(m, u);
    assert m == b * u + r;
    MulCancelLt(b, TWO53, u);
    LowMagnitude(p);
    MulDistributes(b, 1, u);
    if q <= TWO53 {
      LowMagnitude(q);
      if q < b {
        MulDistributes(q, 1, u);
        MulLe(q + 1, b, u);
      } else if q > b + 1 {
        MulDistributes(q - 1, 1, u);
        MulLe(b + 2, q, u);
        MulDistributes(b, 2, u);
      }
    } else {
      LowMagnitude(TWO53);
      MagnitudeMonotone(TWO53, q);
      MulLt(TWO53, Magnitude(q), u);
      MulLe(b + 1, TWO53, u);
    }
  }

  // ---------- rounding does not depend on how the number is written ----------

  lemma {:induction false} RoundedScale(m: nat, s: nat, t: nat)
    ensures Rounded(m * Pow2(t), s + t) == Rounded(m, s)
    decreases m - TWO53 * Pow2(s)
  {
    var u, v := Pow2(s), Pow2(t);
    Pow2Add(s, t);
    assert TWO53 * (u * v) == TWO53 * u * v by {
      MulAssoc(TWO53, u, v);
    }
    if m < TWO53 * u {
      MulLt(m, TWO53 * u, v);
      HalfEvenScale(m, u, v);
    } else {
      MulLe(TWO53 * u, m, v);
      RoundedScale(m, s + 1, t);
    }
  }

  lemma HalfEvenScale(m: nat, u: nat, v: nat)
    requires u > 0 && v > 0
    ensures u * v > 0
    ensures HalfEven(m * v, u * v) == HalfEven(m, u)
  {
    MulLt(0, u, v);
    ModOfScaled(m, u, v);
    var r := m % u;
    MulAssoc(2, r, v);
    if 2 * r > u {
      MulLt(u, 2 * r, v);
    } else if 2 * r < u {
      MulLt(2 * r, u, v);
    }
  }

  lemma ScaledShift(m: nat, n: int, t: nat)
    requires t >= n
    ensures Scaled(m, n) == Rounded(m * Pow2(t), t - n)
  {
    hide Pow2, Rounded;
    if n >= 0 {
      Pow2Add(n, t - n);
      MulAssoc(m, Pow2(n), Pow2(t - n));
      RoundedScale(m * Pow2(n), 0, t - n);
    } else {
      RoundedScale(m, -n, t);
    }
  }

  lemma Rescale(m: nat, a: nat, w: nat, b: nat, n: int)
    requires m * Pow2(a) == w * Pow2(b)
    ensures Scaled(m, n + a) == Scaled(w, n + b)
  {
    hide Pow2, Rounded, Scaled;
    var t := if n > 0 then n else 0;
    ScaledShift(m, n + a, a + t);
    ScaledShift(w, n + b, b + t);
    Pow2Add(a, t);
    Pow2Add(b, t);
    MulAssoc(m, Pow2(a), Pow2(t));
    MulAssoc(w, Pow2(b), Pow2(t));
  }

  // What is a magnitude already is not changed.
  lemma {:induction false} RoundedExact(p: nat)
    ensures Rounded(Magnitude(p), 0) == p
  {
    Pow2Step(1, 0);
    if p < TWO53 {
      LowMagnitude(p);
      assert Rounded(p, 0) == HalfEven(p, 1);
    } else {
      var p' := p - TWO52;
      MagnitudeDoubles(p');
      RoundedExact(p');
      Pow2Step(1, 0);
      assert Pow2(1) == 2;
      RoundedScale(Magnitude(p'), 0, 1);
      hide Magnitude, Pow2;
      LowMagnitude(TWO53);
      if p > TWO53 {
        MagnitudeMonotone(TWO53, p);
      }
    }
  }

  // Every number of 53 bits at a nonnegative exponent is a magnitude.
  lemma {:induction false} WordIsMagnitude(w: nat, e: nat)
    requires w < TWO53
    ensures Magnitude(Rounded(w * Pow2(e), 0)) == w * Pow2(e)
  {
    hide Magnitude, Rounded, Pow2;
    var m := w * Pow2(e);
    Pow2Step(1, 0);
    RoundedStep(m, 0);
    if m < TWO53 {
      DivModUnique(m, 1, m, 0);
      LowMagnitude(m);
    } else {
      Pow2Step(w, 0);
      var m' := w * Pow2(e - 1);
      Pow2Step(1, e - 1);
      MulSwap(w, 2, Pow2(e - 1));
      MulAssoc(w, Pow2(e - 1), 2);
      assert m == m' * 2;
      RoundedScale(m', 0, 1);
      RoundedAtLeast(m', 0);
      WordIsMagnitude(w, e - 1);
      MagnitudeDoubles(Rounded(m', 0));
    }
  }

  // ---------- the products scalbn makes ----------

  const TWO54 := Double(0x4350_0000, 0)
  const TWOM54 := Double(0x3c90_0000, 0)

  // The double nearest to 1.0e-300.
  const TINY := Double(0x01a5_6e1f, 0xc2f8_f359)

  lemma PowerMagnitude(d: Double, e: nat)
    requires d.ms == (e + 1) * 0x10_0000 < TWO31 && d.ls == 0
    ensures Mag(d) == Pow2(52 + e) && !Negative(d)
  {
    hide Pow2;
    Pow2Wide();
    DivModUnique(Pattern(d), TWO52, e + 1, 0);
    Pow2Add(52, e);
  }

  lemma TimesTwo54(x: Double)
    ensures Times(x, TWO54) == TimesPow2(x, 54)
  {
    hide Pow2, Magnitude, Rounded;
    PowerMagnitude(TWO54, 1076);
    Pow2Add(54, 1074);
    MulAssoc(Mag(x), Pow2(54), Pow2(1074));
    RoundedScale(Mag(x) * Pow2(54), 0, 1074);
  }

  lemma TimesTwoM54(x: Double)
    ensures Times(x, TWOM54) == TimesPow2(x, -54)
  {
    hide Pow2, Magnitude, Rounded;
    PowerMagnitude(TWOM54, 968);
    RoundedScale(Mag(x), 54, 1020);
  }

  lemma {:induction false} RoundedLarge(m: nat, s: nat, e: nat)
    requires m >= Pow2(52 + e + s)
    ensures Rounded(m, s) >= (e + 1) * TWO52
    decreases e
  {
    hide Pow2, Rounded;
    Pow2Wide();
    Pow2Add(52, e + s);
    Pow2Add(e, s);
    if e == 0 {
      RoundedAtLeast(m, s);
    } else {
      Pow2Monotone(53 + s, 52 + e + s);
      Pow2Add(53, s);
      RoundedStep(m, s);
      RoundedLarge(m, s + 1, e - 1);
    }
  }

  lemma RoundedSmall(m: nat, s: nat)
    requires 2 * m < Pow2(s)
    ensures Rounded(m, s) == 0
  {
    hide Pow2;
    ModSmall(m, Pow2(s));
  }

  // ---------- overflow and underflow ----------

  // 1e300 squared is beyond every finite double.
  lemma HugeOverflows(x: Double)
    requires Mag(x) == Mag(HUGE)
    ensures Times(HUGE, x) == WithPattern(Negative(x), INFINITY)
  {
    hide Pow2, Rounded;
    assert Mag(HUGE) >= Pow2(2070) by {
      Pow2Wide();
      DivModUnique(Pattern(HUGE), TWO52, 2019, Pattern(HUGE) - 2019 * TWO52);
      Pow2Add(52, 2018);
      MulLe(TWO52, TWO52 + Pattern(HUGE) % TWO52, Pow2(2018));
    }
    hide Magnitude;
    var h := Mag(HUGE);
    MulLe(Pow2(2070), h, h);
    MulLe(Pow2(2070), h, Pow2(2070));
    Pow2Add(2070, 2070);
    Pow2Monotone(52 + 2046 + 1074, 4140);
    RoundedLarge(h * h, 1074, 2046);
  }

  // 1e-300 times anything of moderate size is below half the least double.
  lemma TinyVanishes(x: Double)
    requires Mag(x) < Pow2(200)
    ensures Times(TINY, x) == WithPattern(Negative(x), 0)
  {
    hide Pow2, Rounded;
    TinyMagnitude();
    hide Magnitude;
    var t := Mag(TINY);
    MulLe(t, Pow2(78), Mag(x));
    MulLe(Mag(x), Pow2(200), Pow2(78));
    Pow2Add(200, 78);
    Pow2Step(1, 278);
    Pow2Monotone(279, 1074);
    RoundedSmall(t * Mag(x), 1074);
  }

  lemma TinyMagnitude()
    ensures Mag(TINY) < Pow2(78) < Pow2(200)
  {
    hide Pow2;
    Pow2Wide();
    DivModUnique(Pattern(TINY), TWO52, 26, Pattern(TINY) - 26 * TWO52);
    Pow2Add(53, 25);
    MulLt(TWO52 + Pattern(TINY) % TWO52, TWO53, Pow2(25));
    Pow2Monotone(78, 200);
  }

  // Lines 26-30: the bits of a under the sign of x.
  method CopySign(a: Double, x: Double) returns (d: Double)
    ensures Pattern(d) == Pattern(a) && Negative(d) == Negative(x)
  {
    hide Pow2, Bitwise;
    Pow2Constants();
    AndMask(a.ms, 31);
    AndHighMask(x.ms, 31, 32);
    OrDisjoint(And(x.ms, 0x8000_0000), a.ms % TWO31, 31);
    d := Double(Or(And(a.ms, 0x7fff_ffff), And(x.ms, 0x8000_0000)), a.ls);
  }

  method Overflow(x: Double) returns (d: Double)
    ensures d == WithPattern(Negative(x), INFINITY)
  {
    hide Magnitude, Times, WithPattern, Pattern, Negative;
    d := CopySign(HUGE, x);
    HugeOverflows(d);
    d := Times(HUGE, d);
  }

  method Underflow(x: Double) returns (d: Double)
    ensures d == WithPattern(Negative(x), 0)
  {
    hide Pow2, Magnitude, Times, WithPattern, Pattern, Negative;
    d := CopySign(TINY, x);
    TinyMagnitude();
    TinyVanishes(d);
    d := Times(TINY, d);
  }

  // ---------- the exponent field ----------

  // Lines 43 and 49: the biased exponent.
  method ExponentField(x: Double) returns (k: nat)
    ensures k == Pattern(x) / TWO52 < 2048
  {
    hide Pow2, Bitwise;
    Pow2Constants();
    BitwiseHigh(AndOp, x.ms, 0x7ff0_0000, 20);
    AndMask(x.ms / 0x10_0000, 11);
    DivModSplit(x.ms, 0x10_0000, 0x800);
    k := Shr(And(x.ms, 0x7ff0_0000), 20);
    DivModUnique(Pattern(x), TWO52, k, Join(x.ms % 0x10_0000, x.ls));
  }

  // Lines 59 and 69: sign and fraction stay, k becomes the exponent.
  method SetExponent(x: Double, k: nat) returns (d: Double)
    requires k < 0x800
    ensures Negative(d) == Negative(x) && Pattern(d) == k * TWO52 + Pattern(x) % TWO52
  {
    hide Pow2, Bitwise;
    Pow2Constants();
    var h: nat := And(x.ms, 0x800f_ffff);
    MaskExponent(x.ms);
    ModSmall(k * 0x10_0000, TWO32);
    OrExponent(h, x.ms / TWO31, x.ms % 0x10_0000, k);
    var ms := Or(h, Shl32(k, 20));
    FieldsOfWord(ms, x.ms / TWO31, k, x.ms % 0x10_0000, x.ls);
    DivModSplit(x.ms, 0x10_0000, 0x800);
    FieldsOfWord(x.ms, x.ms / TWO31, x.ms / 0x10_0000 % 0x800, x.ms % 0x10_0000, x.ls);
    d := Double(ms, x.ls);
  }

  lemma MaskExponent(h: Word)
    ensures And(h, 0x800f_ffff) == h / TWO31 * TWO31 + h % 0x10_0000
  {
    hide Pow2, Bitwise;
    Pow2Constants();
    var hi, r := h / 0x10_0000, And(h, 0x800f_ffff);
    Pow2Step(1, 11);
    BitwiseLow(AndOp, h, 0x800f_ffff, 20);
    AndAllOnes(h % 0x10_0000, 20);
    BitwiseHigh(AndOp, h, 0x800f_ffff, 20);
    AndHighMask(hi, 11, 12);
    DivModSplit(h, 0x10_0000, 0x800);
  }

  lemma OrExponent(h: nat, s: nat, f: nat, k: nat)
    requires h == s * TWO31 + f && f < 0x10_0000 && k < 0x800
    ensures Or(h, k * 0x10_0000) == s * TWO31 + k * 0x10_0000 + f
  {
    hide Pow2, Bitwise;
    Pow2Constants();
    DivModUnique(h, 0x10_0000, s * 0x800, f);
    DivModUnique(k * 0x10_0000, 0x10_0000, k, 0);
    BitwiseLow(OrOp, h, k * 0x10_0000, 20);
    OrWithZero(f);
    BitwiseHigh(OrOp, h, k * 0x10_0000, 20);
    DivModUnique(s * 0x800, 0x800, s, 0);
    OrDisjoint(s * 0x800, k, 11);
  }

  lemma FieldsOfWord(ms: Word, s: nat, k: nat, f: nat, ls: Word)
    requires ms == s * TWO31 + k * 0x10_0000 + f && f < 0x10_0000 && k < 0x800
    ensures s == ms / TWO31
    ensures Pattern(Double(ms, ls)) == k * TWO52 + Join(f, ls)
    ensures Pattern(Double(ms, ls)) % TWO52 == Join(f, ls)
  {
    DivModUnique(ms, TWO31, s, k * 0x10_0000 + f);
    DivModUnique(k * TWO52 + Join(f, ls), TWO52, k, Join(f, ls));
  }

  // ---------- the function ----------

  // The 53-bit word of a normal double.
  function Word53(x: Double): (w: nat)
    ensures TWO52 <= w < TWO53
  {
    TWO52 + Pattern(x) % TWO52
  }

  // y has the sign of x, and x is the word of y at exponent k.
  ghost predicate IsNormalised(x: Double, y: Double, k: int)
  {
    && Negative(y) == Negative(x) && TWO52 <= Pattern(y) < INFINITY
    && -53 <= k <= 2046
    && Mag(x) * Pow2(54) == Word53(y) * Pow2(k + 53)
  }

  lemma NormalIsNormalised(x: Double, k: int)
    requires k == Pattern(x) / TWO52 && 0 < k < 0x7ff
    ensures IsNormalised(x, x, k)
  {
    hide Pow2;
    Pow2Add(k - 1, 54);
    MulAssoc(Word53(x), Pow2(k - 1), Pow2(54));
  }

  lemma SubnormalIsNormalised(x: Double, y: Double)
    requires 0 < Pattern(x) < TWO52 && y == TimesPow2(x, 54)
    ensures IsNormalised(x, y, Pattern(y) / TWO52 - 54)
    ensures Mag(y) < Pow2(200)
  {
    hide Pow2, Magnitude, Rounded;
    Pow2Wide();
    LowMagnitude(Pattern(x));
    var m, p := Mag(x), Rounded(Mag(x) * Pow2(54), 0);
    WordIsMagnitude(m, 54);
    MulLe(1, m, Pow2(54));
    MulLe(m, TWO52, Pow2(54));
    Pow2Add(52, 54);
    Pow2Monotone(106, 200);
    Pow2Step(1, 53);
    SmallIsFinite(p, 106);
    BigIsNormal(p);
    hide Pattern, Negative, WithPattern;
    assert Pattern(y) == p;
    WordMagnitude(y);
  }

  lemma WordMagnitude(y: Double)
    requires Pattern(y) >= TWO52
    ensures Mag(y) == Word53(y) * Pow2(Pattern(y) / TWO52 - 1)
  {
  }

  lemma SmallIsFinite(p: nat, e: nat)
    requires Magnitude(p) <= Pow2(e) && e < 2098
    ensures p < INFINITY
  {
    hide Pow2, Magnitude;
    InfinityMagnitude();
    Pow2Wide();
    Pow2Add(52, 2046);
    Pow2Monotone(e, 2098);
    if p > INFINITY {
      MagnitudeMonotone(INFINITY, p);
    }
  }

  lemma InfinityMagnitude()
    ensures Magnitude(INFINITY) == TWO52 * Pow2(2046)
  {
    hide Pow2;
    DivModUnique(INFINITY, TWO52, 2047, 0);
  }

  lemma BigIsNormal(p: nat)
    requires Magnitude(p) >= TWO53
    ensures p >= TWO53
  {
    hide Magnitude;
    if p < TWO53 {
      LowMagnitude(p);
    }
  }

  // With the new exponent in range the word is placed there unchanged.
  lemma NormalResult(x: Double, y: Double, k: int, n: int)
    requires IsNormalised(x, y, k) && k + n > 0
    ensures var p := (k + n) * TWO52 + Pattern(y) % TWO52;
      && (p >= INFINITY <==> k + n > 0x7fe)
      && TimesPow2(x, n) == WithPattern(Negative(x), Capped(p))
  {
    hide Pow2, Magnitude, Rounded;
    var w, e := Word53(y), k + n - 1;
    Rescale(Mag(x), 54, w, k + 53, n - 54);
    RoundedExact((k + n) * TWO52 + Pattern(y) % TWO52);
    assert Magnitude((k + n) * TWO52 + Pattern(y) % TWO52) == w * Pow2(e) by {
      PatternOfWord(k + n, Pattern(y) % TWO52);
    }
  }

  lemma PatternOfWord(k: nat, f: nat)
    requires k > 0 && f < TWO52
    ensures Magnitude(k * TWO52 + f) == (TWO52 + f) * Pow2(k - 1)
  {
    hide Pow2;
    DivModUnique(k * TWO52 + f, TWO52, k, f);
  }

  // Below that range the second product rounds, once.
  lemma SubnormalResult(x: Double, y: Double, k: int, n: int, z: Double)
    requires IsNormalised(x, y, k) && -54 < k + n <= 0
    requires Negative(z) == Negative(x) && Pattern(z) == (k + n + 54) * TWO52 + Pattern(y) % TWO52
    ensures TimesPow2(z, -54) == TimesPow2(x, n)
  {
    hide Pow2, Magnitude, Rounded;
    var w, j := Word53(y), k + n + 53;
    Rescale(Mag(x), 54, w, k + 53, n - 54);
    PatternOfWord(k + n + 54, Pattern(y) % TWO52);
    Pow2Step(Mag(z), 0);
    Rescale(Mag(z), 0, w, j, -54);
  }

  lemma VanishingResult(x: Double, y: Double, k: int, n: int)
    requires IsNormalised(x, y, k) && k + n <= -54
    ensures TimesPow2(x, n) == WithPattern(Negative(x), 0)
  {
    hide Pow2, Magnitude, Rounded;
    var w := Word53(y);
    Rescale(Mag(x), 54, w, k + 53, n - 54);
    Pow2Wide();
    Pow2Step(1, 53);
    Pow2Monotone(54, 1 - (k + n));
    Pow2Monotone(55, 1 - (k + n));
    RoundedSmall(w, 1 - (k + n));
  }

  lemma ZeroStays(x: Double, n: int)
    requires IsZero(x)
    ensures TimesPow2(x, n) == x
  {
    hide Pow2;
    RoundedSmall(0, if n >= 0 then 0 else -n);
    SameWords(x, TimesPow2(x, n));
  }

  lemma SameWords(x: Double, y: Double)
    requires Negative(x) == Negative(y) && Pattern(x) == Pattern(y)
    ensures x == y
  {
    DivModUnique(Pattern(x), TWO32, x.ms % TWO31, x.ls);
    DivModUnique(Pattern(y), TWO32, y.ms % TWO31, y.ls);
  }

  // Conversion of a sum to a 32-bit int, which may wrap.
  function Wrap32(v: int): int { (v + 0x8000_0000) % 0x1_0000_0000 - 0x8000_0000 }

  // Lines 43-54: the exponent of x, after scaling by 2^54 if x is subnormal; done when
  // the answer is known without more.
  method Normalise(x: Double, n: int) returns (done: bool, a: Answer, y: Double, k: int)
    ensures !done ==> IsFinite(x) && IsNormalised(x, y, k) && (k > 0 || n >= -50000)
    ensures done ==> (a == NotANumber <==> IsNaN(x)) && (IsInfinite(x) ==> a == Exactly(x))
    ensures done && IsFinite(x) ==> a == Exactly(TimesPow2(x, n))
  {
    hide Pow2, Bitwise, Magnitude, Times, TimesPow2, IsNormalised;
    Pow2Constants();
    y := x;
    k := ExponentField(x);
    if k == 0 {
      AndMask(x.ms, 31);
      OrIsZero(x.ls, And(x.ms, 0x7fff_ffff));
      if Or(x.ls, And(x.ms, 0x7fff_ffff)) == 0 {
        ZeroStays(x, n);
        return true, Exactly(x), y, k;
      }
      TimesTwo54(x);
      y := Times(x, TWO54);
      SubnormalIsNormalised(x, y);
      k := ExponentField(y);
      k := k - 54;
      if n < -50000 {
        TinyVanishes(y);
        VanishingResult(x, y, k, n);
        return true, Exactly(Times(TINY, y)), y, k;
      }
    }
    if k == 0x7ff {
      return true, if IsNaN(x) then NotANumber else Exactly(x), y, k;   // x + x
    }
    if Pattern(x) >= TWO52 {
      NormalIsNormalised(x, k);
    }
    return false, NotANumber, y, k;
  }

  // The whole function, for every double and every int: the correctly rounded product.
  // Line 61 catches the one case in which the sum of line 55 wraps.
  method Scalbn(x: Double, n: int) returns (a: Answer)
    requires -0x8000_0000 <= n < 0x8000_0000
    ensures a == NotANumber <==> IsNaN(x)
    ensures IsInfinite(x) ==> a == Exactly(x)
    ensures IsFinite(x) ==> a == Exactly(TimesPow2(x, n))
  {
    hide Pow2, Bitwise, Magnitude, Times, TimesPow2, IsNormalised, WithPattern, Pattern, Negative;
    var done, y, k;
    done, a, y, k := Normalise(x, n);
    if done {
      return;
    }
    RangeOfExponent(x, y, k);
    ghost var sum := k + n;
    k := Wrap32(k + n);
    if k > 0x7fe {
      NormalResult(x, y, sum - n, n);
      var d := Overflow(y);
      return Exactly(d);
    }
    if k > 0 {
      NormalResult(x, y, sum - n, n);
      var d := SetExponent(y, k);
      SameWords(d, TimesPow2(x, n));
      return Exactly(d);
    }
    if k <= -54 {
      if n > 50000 {
        NormalResult(x, y, sum - n, n);
        var d := Overflow(y);
        return Exactly(d);
      }
      VanishingResult(x, y, sum - n, n);
      var d := Underflow(y);
      return Exactly(d);
    }
    k := k + 54;
    var z := SetExponent(y, k);
    SubnormalResult(x, y, sum - n, n, z);
    TimesTwoM54(z);
    a := Exactly(Times(z, TWOM54));
  }

  lemma RangeOfExponent(x: Double, y: Double, k: int)
    requires IsNormalised(x, y, k)
    ensures Negative(y) == Negative(x) && -53 <= k <= 2046
  {
  }

  // A number of at most 53 bits times a power of two is scaled without error as long
  // as the result is neither too large nor reaches below 2^-1074.
  lemma ScalingIsExact(x: Double, n: int, w: nat, e: nat)
    requires w < TWO53 && Mag(x) == w * Pow2(e)
    requires e + n >= 0 && w * Pow2(e + n) <= Pow2(2097)
    ensures IsFinite(TimesPow2(x, n)) && Mag(TimesPow2(x, n)) == w * Pow2(e + n)
  {
    hide Pow2, Magnitude, Rounded, WithPattern;
    Pow2Step(Mag(x), 0);
    Rescale(Mag(x), 0, w, e, n);
    WordIsMagnitude(w, e + n);
    SmallIsFinite(Rounded(w * Pow2(e + n), 0), 2097);
  }

  // So the digit loops of __rem_pio2, which scale integers below 2^53 and multiples of
  // a power of two by 2^q0 and back, lose nothing.
  lemma IntegersScaleExactly(x: Double, z: nat, g: int, n: int)
    requires z < TWO53 && -1000 <= g <= 500 && -1000 <= g + n <= 500
    requires Mag(x) == z * Pow2(1074 + g)
    ensures IsFinite(TimesPow2(x, n)) && Mag(TimesPow2(x, n)) == z * Pow2(1074 + g + n)
  {
    hide Pow2, Magnitude, TimesPow2;
    var e := 1074 + g + n;
    Pow2Wide();
    MulLe(z, TWO53, Pow2(e));
    Pow2Add(53, e);
    Pow2Monotone(53 + e, 2097);
    ScalingIsExact(x, n, z, 1074 + g);
  }
}
