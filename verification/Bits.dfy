/** Unsigned machine words as naturals: powers of two, shifts by multiplication
    and division, and the C bitwise operators defined bit by bit.  Nothing here
    fixes a word width, so the same operators serve 32-bit code and wider words. */
module Bits {

  type Byte = b: nat | b < 0x100
  type Word = x: nat | x < 0x1_0000_0000

  function Pow2(n: nat): (r: nat)
    ensures r >= 1
  {
    if n == 0 then 1 else 2 * Pow2(n - 1)
  }

  lemma {:induction false} Pow2Add(m: nat, n: nat)
    ensures Pow2(m + n) == Pow2(m) * Pow2(n)
  {
    if n != 0 {
      Pow2Add(m, n - 1);
      calc {
        Pow2(m + n);
        2 * Pow2(m + (n - 1));
        2 * (Pow2(m) * Pow2(n - 1));
        Pow2(m) * (2 * Pow2(n - 1));
      }
    }
  }

  lemma Pow2Step(x: int, n: nat)
    ensures 2 * x * Pow2(n) == x * Pow2(n + 1)
    ensures x * Pow2(0) == x
  {
  }

  lemma {:induction false} Pow2Monotone(m: nat, n: nat)
    requires m <= n
    ensures Pow2(m) <= Pow2(n)
    ensures m < n ==> Pow2(m) < Pow2(n)
    decreases n - m
  {
    if m < n {
      Pow2Monotone(m + 1, n);
    }
  }

  // The powers that occur as constants in 32-bit code.
  lemma Pow2Constants()
    ensures Pow2(3) == 8 && Pow2(6) == 64 && Pow2(8) == 0x100 && Pow2(16) == 0x1_0000
    ensures Pow2(11) == 0x800 && Pow2(20) == 0x10_0000 && Pow2(21) == 0x20_0000
    ensures Pow2(23) == 0x80_0000 && Pow2(24) == 0x100_0000 && Pow2(29) == 0x2000_0000
    ensures Pow2(31) == 0x8000_0000 && Pow2(32) == 0x1_0000_0000
  {
  }

  lemma Pow2Wide()
    ensures Pow2(52) == 0x10_0000_0000_0000 && Pow2(53) == 0x20_0000_0000_0000
    ensures Pow2(63) == 0x8000_0000_0000_0000 && Pow2(64) == 0x1_0000_0000_0000_0000
  {
    Pow2Constants();
    Pow2Add(32, 20);
    assert Pow2(53) == 2 * Pow2(52);
    Pow2Add(32, 31);
    assert Pow2(64) == 2 * Pow2(63);
  }

  // ---------- products, stated without powers so that they stay cheap ----------

  lemma MulLe(a: int, b: int, s: int)
    requires a <= b && 0 <= s
    ensures a * s <= b * s
  {
  }

  lemma MulLt(a: int, b: int, s: int)
    requires a < b && 0 < s
    ensures a * s < b * s
  {
  }

  lemma MulCancelLt(a: int, b: int, s: int)
    requires a * s < b * s && 0 < s
    ensures a < b
  {
    if b <= a {
      MulLe(b, a, s);
    }
  }

  lemma MulCancel(a: int, b: int, s: int)
    requires a * s == b * s && s != 0
    ensures a == b
  {
  }

  lemma MulAssoc(a: int, b: int, c: int)
    ensures a * (b * c) == a * b * c
  {
  }

  lemma MulSwap(a: int, b: int, c: int)
    ensures a * b * c == a * (c * b)
  {
  }

  lemma MulDistributes(a: int, b: int, c: int)
    ensures (a + b) * c == a * c + b * c
  {
  }

  // ---------- division by a product, and multiples of a modulus ----------

  // q and r are the quotient and the remainder as soon as they look like them.
  lemma DivModUnique(x: int, d: int, q: int, r: int)
    requires d > 0 && x == q * d + r && 0 <= r < d
    ensures x / d == q && x % d == r
  {
    var q', r' := x / d, x % d;
    assert x == q' * d + r' && 0 <= r' < d;
    assert (q - q') * d == r' - r;
    assert q - q' >= 1 ==> (q - q') * d >= d;
    assert q - q' <= -1 ==> (q - q') * d <= -d;
  }

  lemma ModSmall(x: int, d: int)
    requires 0 <= x < d
    ensures x / d == 0 && x % d == x
  {
    DivModUnique(x, d, 0, x);
  }

  lemma ModAddMultiple(x: int, k: int, d: int)
    requires d > 0
    ensures (x + k * d) % d == x % d
  {
    assert x + k * d == (x / d + k) * d + x % d by {
      assert (x / d + k) * d == (x / d) * d + k * d;
    }
    DivModUnique(x + k * d, d, x / d + k, x % d);
  }

  lemma ModOfScaled(x: nat, d: nat, s: nat)
    requires d > 0 && s > 0
    ensures (x * s) % (d * s) == (x % d) * s
    ensures (x * s) / (d * s) == x / d
  {
    var q, r := x / d, x % d;
    assert x * s == q * (d * s) + r * s by {
      assert x == q * d + r;
      assert x * s == (q * d) * s + r * s;
      assert (q * d) * s == q * (d * s);
    }
    assert 0 <= r * s < d * s;
    DivModUnique(x * s, d * s, q, r * s);
  }

  // Cutting at d * e is cutting at d first and at e afterwards.
  lemma DivModSplit(x: nat, d: nat, e: nat)
    requires d > 0 && e > 0
    ensures d * e > 0
    ensures (x / d) / e == x / (d * e)
    ensures x % (d * e) == (x / d) % e * d + x % d
    ensures x % (d * e) % d == x % d
    ensures x % (d * e) / d == x / d % e
  {
    var q, r := x / d, x % d;
    var q', r' := q / e, q % e;
    assert x == q * d + r && q == q' * e + r';
    SplitParts(x, d, e, q, r, q', r');
    DivModUnique(x, d * e, q', r' * d + r);
    DivModUnique(r' * d + r, d, r', r);
  }

  lemma SplitParts(x: int, d: int, e: int, q: int, r: int, q': int, r': int)
    requires x == q * d + r && q == q' * e + r' && 0 <= r < d && 0 <= r' < e
    ensures x == q' * (d * e) + (r' * d + r) && 0 <= r' * d + r < d * e
  {
    MulDistributes(q' * e, r', d);
    MulSwap(q', e, d);
    MulDistributes(r', 1, d);
    MulLe(r' + 1, e, d);
    MulLe(0, r', d);
  }

  lemma ModPow2Nested(x: nat, m: nat, n: nat)
    requires m <= n
    ensures x % Pow2(n) % Pow2(m) == x % Pow2(m)
    ensures x % Pow2(n) / Pow2(m) == x / Pow2(m) % Pow2(n - m)
    ensures x / Pow2(n) == x / Pow2(m) / Pow2(n - m)
  {
    Pow2Add(m, n - m);
    DivModSplit(x, Pow2(m), Pow2(n - m));
  }

  lemma DivNonnegative(x: nat, d: nat)
    requires d > 0
    ensures 0 <= x / d <= x && 0 <= x % d < d
  {
    var q := x / d;
    assert x == q * d + x % d;
    if q < 0 {
      MulLe(q, -1, d);
    } else {
      MulLe(1, d, q);
    }
  }

  // x >> n on an unsigned word.
  function Shr(x: nat, n: nat): (r: nat)
    ensures r <= x
  {
    hide Pow2;
    DivNonnegative(x, Pow2(n));
    x / Pow2(n)
  }

  // x << n on an unsigned word of w bits.
  function Shl(w: nat, x: nat, n: nat): (r: nat)
    ensures r < Pow2(w)
  {
    hide Pow2;
    DivNonnegative(x * Pow2(n), Pow2(w));
    x * Pow2(n) % Pow2(w)
  }

  // ---------- bitwise operators ----------

  datatype BitOp = AndOp | OrOp | XorOp

  function OnBits(op: BitOp, p: nat, q: nat): (r: nat)
    requires p < 2 && q < 2
    ensures r < 2
  {
    match op
    case AndOp => if p == 1 && q == 1 then 1 else 0
    case OrOp => if p == 1 || q == 1 then 1 else 0
    case XorOp => if p == q then 0 else 1
  }

  function Bitwise(op: BitOp, x: nat, y: nat): nat
    decreases x + y
  {
    if x == 0 && y == 0 then 0
    else OnBits(op, x % 2, y % 2) + 2 * Bitwise(op, x / 2, y / 2)
  }

  function And(x: nat, y: nat): nat { Bitwise(AndOp, x, y) }
  function Or(x: nat, y: nat): nat { Bitwise(OrOp, x, y) }
  function Xor(x: nat, y: nat): nat { Bitwise(XorOp, x, y) }

  // One's complement of a word of n bits.
  function Not(n: nat, x: nat): nat
    requires x < Pow2(n)
  {
    Pow2(n) - 1 - x
  }

  lemma {:induction false} BitwiseUnfold(op: BitOp, x: nat, y: nat)
    ensures Bitwise(op, x, y) == OnBits(op, x % 2, y % 2) + 2 * Bitwise(op, x / 2, y / 2)
    ensures Bitwise(op, x, y) % 2 == OnBits(op, x % 2, y % 2)
    ensures Bitwise(op, x, y) / 2 == Bitwise(op, x / 2, y / 2)
  {
    var o, b := OnBits(op, x % 2, y % 2), Bitwise(op, x / 2, y / 2);
    assert Bitwise(op, x, y) == o + 2 * b;
    DivModUnique(o + 2 * b, 2, b, o);
  }

  // The low k bits of a result depend on the low k bits of the operands only.
  lemma {:induction false} BitwiseLow(op: BitOp, x: nat, y: nat, k: nat)
    ensures Bitwise(op, x, y) % Pow2(k) == Bitwise(op, x % Pow2(k), y % Pow2(k))
  {
    if k == 0 {
    } else {
      var r, x', y' := Bitwise(op, x, y), x % Pow2(k), y % Pow2(k);
      BitwiseLow(op, x / 2, y / 2, k - 1);
      DivModSplit(x, 2, Pow2(k - 1));
      DivModSplit(y, 2, Pow2(k - 1));
      DivModSplit(r, 2, Pow2(k - 1));
      BitwiseUnfold(op, x, y);
      BitwiseUnfold(op, x', y');
    }
  }

  lemma {:induction false} BitwiseHigh(op: BitOp, x: nat, y: nat, k: nat)
    ensures Shr(Bitwise(op, x, y), k) == Bitwise(op, Shr(x, k), Shr(y, k))
  {
    hide Pow2, Bitwise;
    if k == 0 {
      Pow2Step(1, 0);
    } else {
      Pow2Step(1, k - 1);
      BitwiseUnfold(op, x, y);
      BitwiseHigh(op, x / 2, y / 2, k - 1);
      DivModSplit(x, 2, Pow2(k - 1));
      DivModSplit(y, 2, Pow2(k - 1));
      DivModSplit(Bitwise(op, x, y), 2, Pow2(k - 1));
    }
  }

  lemma {:induction false} BitwiseBound(op: BitOp, x: nat, y: nat, k: nat)
    requires x < Pow2(k) && y < Pow2(k)
    ensures Bitwise(op, x, y) < Pow2(k)
  {
    BitwiseLow(op, x, y, k);
    ModSmall(x, Pow2(k));
    ModSmall(y, Pow2(k));
  }

  lemma {:induction false} BitwiseCommutes(op: BitOp, x: nat, y: nat)
    ensures Bitwise(op, x, y) == Bitwise(op, y, x)
    decreases x + y
  {
    if x != 0 || y != 0 {
      BitwiseCommutes(op, x / 2, y / 2);
    }
  }

  lemma {:induction false} AndMask(x: nat, k: nat)
    ensures And(x, Pow2(k) - 1) == x % Pow2(k)
  {
    hide Pow2, Bitwise;
    Pow2Step(1, 0);
    if k == 0 {
      AndZero(x);
    } else {
      AndMask(x / 2, k - 1);
      DivModSplit(x, 2, Pow2(k - 1));
      Pow2Step(1, k - 1);
      BitwiseUnfold(AndOp, x, 2 * (Pow2(k - 1) - 1) + 1);
    }
  }

  lemma {:induction false} AndZero(x: nat)
    ensures And(x, 0) == 0
  {
    if x != 0 {
      AndZero(x / 2);
    }
  }

  lemma {:induction false} AndAllOnes(x: nat, n: nat)
    requires x < Pow2(n)
    ensures And(x, Pow2(n) - 1) == x
  {
    AndMask(x, n);
    ModSmall(x, Pow2(n));
  }

  // Masking with n - k ones followed by k zeros clears the low k bits.
  lemma {:induction false} AndHighMask(x: nat, k: nat, n: nat)
    requires k <= n && x < Pow2(n)
    ensures Pow2(k) <= Pow2(n)
    ensures And(x, Pow2(n) - Pow2(k)) == x - x % Pow2(k)
  {
    hide Pow2, Bitwise;
    Pow2Monotone(k, n);
    if k == 0 {
      Pow2Step(1, 0);
      AndAllOnes(x, n);
    } else {
      var p, m := Pow2(k - 1), Pow2(n - 1) - Pow2(k - 1);
      Pow2Step(1, k - 1);
      Pow2Step(1, n - 1);
      AndHighMask(x / 2, k - 1, n - 1);
      AndHighStep(x, p, m);
      assert Pow2(n) - Pow2(k) == 2 * m && Pow2(k) == 2 * p;
    }
  }

  lemma {:induction false} AndHighStep(x: nat, p: nat, m: nat)
    requires p > 0 && And(x / 2, m) == x / 2 - x / 2 % p
    ensures And(x, 2 * m) == x - x % (2 * p)
  {
    hide Bitwise;
    DivModSplit(x, 2, p);
    DivModUnique(2 * m, 2, m, 0);
    BitwiseUnfold(AndOp, x, 2 * m);
  }

  lemma {:induction false} OrWithZero(x: nat)
    ensures Or(x, 0) == x && Xor(x, 0) == x
  {
    if x != 0 {
      OrWithZero(x / 2);
    }
  }

  // Or of operands that share no bit position is their sum.
  lemma {:induction false} OrDisjoint(x: nat, y: nat, k: nat)
    requires x % Pow2(k) == 0 && y < Pow2(k)
    ensures Or(x, y) == x + y && Or(y, x) == x + y
  {
    BitwiseCommutes(OrOp, x, y);
    if k == 0 {
      OrWithZero(x);
    } else {
      DivModSplit(x, 2, Pow2(k - 1));
      OrDisjoint(x / 2, y / 2, k - 1);
      BitwiseUnfold(OrOp, x, y);
    }
  }

  lemma {:induction false} OrSelf(x: nat)
    ensures Or(x, x) == x
  {
    if x != 0 {
      OrSelf(x / 2);
    }
  }

  lemma {:induction false} OrIsZero(x: nat, y: nat)
    ensures Or(x, y) == 0 <==> x == 0 && y == 0
    decreases x + y
  {
    if x != 0 || y != 0 {
      OrIsZero(x / 2, y / 2);
    }
  }

  lemma {:induction false} XorOwnBits(x: nat, m: nat)
    ensures And(x, m) <= x
    ensures Xor(x, And(x, m)) == x - And(x, m)
    decreases x + m
  {
    if x != 0 || m != 0 {
      XorOwnBits(x / 2, m / 2);
      BitwiseUnfold(AndOp, x, m);
      BitwiseUnfold(XorOp, x, And(x, m));
    }
  }

  lemma {:induction false} OrAtLeast(x: nat, y: nat)
    ensures Or(x, y) >= x && Or(x, y) >= y
    decreases x + y
  {
    if x != 0 || y != 0 {
      OrAtLeast(x / 2, y / 2);
      BitwiseUnfold(OrOp, x, y);
    }
  }
}
