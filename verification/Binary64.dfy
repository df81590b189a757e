/** The binary64 format of section 3.4 of IEEE 754-2008 as gon.c sees it: a high
    and a low 32-bit word.  Every finite double is an integer multiple of 2^-1074,
    so its exact value is an integer in that unit and no real number is needed. */
module Binary64 {
  import opened Bits

  const TWO31: nat := 0x8000_0000
  const TWO32: nat := 0x1_0000_0000
  const TWO52: nat := 0x10_0000_0000_0000
  const TWO53: nat := 0x20_0000_0000_0000

  // x << n on a 32-bit unsigned int.
  function Shl32(x: nat, n: nat): Word { x * Pow2(n) % TWO32 }

  datatype Double = Double(ms: Word, ls: Word)

  // The double nearest to 1.0e300.
  const HUGE := Double(0x7e37_e43c, 0x8800_759c)

  // A C function on doubles either returns given bits or some NaN.
  datatype Answer = NotANumber | Exactly(d: Double)

  // The number two words spell.
  function Join(h: nat, l: nat): nat { h * TWO32 + l }

  // The 63 bits below the sign: biased exponent and fraction.
  function Pattern(x: Double): (p: nat)
    ensures p < 0x8000_0000_0000_0000
  {
    Join(x.ms % TWO31, x.ls)
  }

  predicate Negative(x: Double) { x.ms >= TWO31 }

  const INFINITY: nat := 0x7ff0_0000_0000_0000

  predicate IsFinite(x: Double) { Pattern(x) < INFINITY }
  predicate IsInfinite(x: Double) { Pattern(x) == INFINITY }
  predicate IsNaN(x: Double) { Pattern(x) > INFINITY }
  predicate IsZero(x: Double) { Pattern(x) == 0 }

  function UlpExponent(p: nat): nat
  {
    if p < TWO52 then 0 else p / TWO52 - 1
  }

  // |x| in units of 2^-1074, from the bits below the sign.
  function Magnitude(p: nat): nat
  {
    if p < TWO52 then p else (TWO52 + p % TWO52) * Pow2(p / TWO52 - 1)
  }

  function Mag(x: Double): nat { Magnitude(Pattern(x)) }

  // The exact value in units of 2^-1074.
  function Value(x: Double): int
  {
    if Negative(x) then -(Mag(x) as int) else Mag(x)
  }

  // Moving d steps up, even across the carry into the exponent, adds d ulps.
  lemma MagnitudeAdvance(p: nat, d: nat)
    requires p % TWO52 + d <= TWO52
    ensures Magnitude(p + d) == Magnitude(p) + d * Pow2(UlpExponent(p))
  {
    var e, f := p / TWO52, p % TWO52;
    if f + d < TWO52 {
      DivModUnique(p + d, TWO52, e, f + d);
      if e != 0 {
        assert (TWO52 + f + d) * Pow2(e - 1) == (TWO52 + f) * Pow2(e - 1) + d * Pow2(e - 1);
      }
    } else {
      DivModUnique(p + d, TWO52, e + 1, 0);
      if e == 0 {
        assert Pow2(0) == 1;
      } else {
        assert (TWO52 + f) * Pow2(e - 1) + d * Pow2(e - 1) == (TWO52 + f + d) * Pow2(e - 1);
        assert Pow2(e) == 2 * Pow2(e - 1);
      }
    }
  }

  // Comparing bit patterns compares magnitudes.
  lemma {:induction false} MagnitudeMonotone(p: nat, q: nat)
    requires p < q
    ensures Magnitude(p) < Magnitude(q)
    decreases q
  {
    MagnitudeAdvance(q - 1, 1);
    if p < q - 1 {
      MagnitudeMonotone(p, q - 1);
    }
  }

  // Sign and magnitude fix the bits, so a contract about them fixes the result.
  lemma SameBits(x: Double, y: Double)
    requires Negative(x) == Negative(y) && Mag(x) == Mag(y)
    ensures x == y
  {
    hide Magnitude;
    if Pattern(x) < Pattern(y) {
      MagnitudeMonotone(Pattern(x), Pattern(y));
    } else if Pattern(y) < Pattern(x) {
      MagnitudeMonotone(Pattern(y), Pattern(x));
    }
  }

  // Changing both words at once by a difference that stays below the sign bit.
  lemma MovePattern(x: Double, d: Double, p: nat)
    requires p < 0x8000_0000_0000_0000
    requires Join(d.ms, d.ls) - Join(x.ms, x.ls) == p - Pattern(x)
    ensures Negative(d) == Negative(x) && Pattern(d) == p
  {
    var s := x.ms / TWO31;
    assert Join(x.ms, x.ls) == s * 0x8000_0000_0000_0000 + Pattern(x);
    DivModUnique(Join(d.ms, d.ls), 0x8000_0000_0000_0000, s, p);
    DivModUnique(Join(d.ms, d.ls), 0x8000_0000_0000_0000, d.ms / TWO31, Pattern(d));
  }

  lemma NormalMagnitude(h: nat, l: Word)
    requires 0x10_0000 <= h
    ensures Join(h, l) / TWO52 == h / 0x10_0000
    ensures Join(h, l) % TWO52 == Join(h % 0x10_0000, l)
    ensures Magnitude(Join(h, l)) == (TWO52 + Join(h % 0x10_0000, l)) * Pow2(h / 0x10_0000 - 1)
  {
    DivModUnique(Join(h, l), TWO52, h / 0x10_0000, Join(h % 0x10_0000, l));
  }
}
