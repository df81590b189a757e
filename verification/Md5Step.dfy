/** The macros of md5.c on words of any width w >= 32, and why their low 32 bits
    are those of the operations of RFC 1321 on 32-bit words. */
module Md5Step {
  import opened Bits
  import opened Rfc1321

  // The five function macros, lines 51-55.
  datatype Macro = F | G | H | H2 | I

  function Round(f: Macro): nat
  {
    match f case F => 0 case G => 1 case H => 2 case H2 => 2 case I => 3
  }

  function Apply(w: nat, f: Macro, x: nat, y: nat, z: nat): nat
    requires z < Pow2(w)
  {
    match f
    case F => Xor(z, And(x, Xor(y, z)))
    case G => Xor(y, And(z, Xor(x, y)))
    case H => Xor(Xor(x, y), z)
    case H2 => Xor(x, Xor(y, z))
    case I => Xor(y, Or(x, Not(w, z)))
  }

  // ---------- the low half of each macro ----------

  // Selecting bits with two exclusive ors instead of an and-not.
  lemma {:induction false} Select(k: nat, x: nat, y: nat, z: nat)
    requires x < Pow2(k) && y < Pow2(k) && z < Pow2(k)
    ensures Xor(z, And(x, Xor(y, z))) == Or(And(x, y), And(Not(k, x), z))
  {
    if k != 0 {
      Select(k - 1, x / 2, y / 2, z / 2);
      NotHalf(k, x);
      SelectBit(x, y, z, Not(k, x), Not(k - 1, x / 2));
    }
  }

  lemma NotHalf(k: nat, x: nat)
    requires k > 0 && x < Pow2(k)
    ensures x / 2 < Pow2(k - 1)
    ensures Not(k, x) % 2 == 1 - x % 2 && Not(k, x) / 2 == Not(k - 1, x / 2)
  {
    var p := Pow2(k - 1);
    assert Pow2(k) == 2 * p;
    DivModUnique(Not(k, x), 2, p - 1 - x / 2, 1 - x % 2);
  }

  lemma SelectBit(x: nat, y: nat, z: nat, n: nat, n': nat)
    requires n % 2 == 1 - x % 2 && n / 2 == n'
    requires Xor(z / 2, And(x / 2, Xor(y / 2, z / 2))) == Or(And(x / 2, y / 2), And(n', z / 2))
    ensures Xor(z, And(x, Xor(y, z))) == Or(And(x, y), And(n, z))
  {
    hide Bitwise;
    BitwiseUnfold(XorOp, y, z);
    BitwiseUnfold(AndOp, x, Xor(y, z));
    BitwiseUnfold(XorOp, z, And(x, Xor(y, z)));
    BitwiseUnfold(AndOp, x, y);
    BitwiseUnfold(AndOp, n, z);
    BitwiseUnfold(OrOp, And(x, y), And(n, z));
  }

  lemma {:induction false} XorAssociates(x: nat, y: nat, z: nat)
    ensures Xor(Xor(x, y), z) == Xor(x, Xor(y, z))
    decreases x + y + z
  {
    if x != 0 || y != 0 || z != 0 {
      XorAssociates(x / 2, y / 2, z / 2);
      XorAssociatesBit(x, y, z);
    } else {
      assert Xor(0, 0) == 0;
    }
  }

  lemma XorAssociatesBit(x: nat, y: nat, z: nat)
    requires Xor(Xor(x / 2, y / 2), z / 2) == Xor(x / 2, Xor(y / 2, z / 2))
    ensures Xor(Xor(x, y), z) == Xor(x, Xor(y, z))
  {
    hide Bitwise;
    BitwiseUnfold(XorOp, x, y);
    BitwiseUnfold(XorOp, Xor(x, y), z);
    BitwiseUnfold(XorOp, y, z);
    BitwiseUnfold(XorOp, x, Xor(y, z));
  }

  // On 32-bit words the macros are the functions of RFC 1321.
  lemma MacroIsAuxiliary(f: Macro, x: Word, y: Word, z: Word)
    ensures Pow2(32) == 0x1_0000_0000
    ensures Apply(32, f, x, y, z) == Auxiliary(Round(f), x, y, z)
  {
    hide Bitwise, Pow2;
    Pow2Constants();
    match f
    case F => Select(32, x, y, z);
    case G =>
      Select(32, z, x, y);
      BitwiseCommutes(AndOp, x, z);
      BitwiseCommutes(AndOp, y, Complement(z));
    case H =>
    case H2 => XorAssociates(x, y, z);
    case I =>
  }

  lemma NotLow(w: nat, z: nat)
    requires w >= 32 && z < Pow2(w)
    ensures Low(z) < Pow2(32)
    ensures Low(Not(w, z)) == Not(32, Low(z))
  {
    hide Pow2;
    Pow2Constants();
    Pow2Add(w - 32, 32);
    DivModUnique(Not(w, z), Pow2(32), Pow2(w - 32) - 1 - z / Pow2(32), Pow2(32) - 1 - Low(z));
  }

  lemma BitwiseLowWord(op: BitOp, x: nat, y: nat)
    ensures Low(Bitwise(op, x, y)) == Bitwise(op, Low(x), Low(y))
  {
    hide Bitwise, Pow2;
    Pow2Constants();
    BitwiseLow(op, x, y, 32);
  }

  lemma ApplyLow(w: nat, f: Macro, x: nat, y: nat, z: nat)
    requires w >= 32 && x < Pow2(w) && y < Pow2(w) && z < Pow2(w)
    ensures Low(Apply(w, f, x, y, z)) == Auxiliary(Round(f), Low(x), Low(y), Low(z))
  {
    hide Bitwise, Pow2, Low, Auxiliary;
    NotLow(w, z);
    MacroIsAuxiliary(f, Low(x), Low(y), Low(z));
    match f
    case F =>
      BitwiseLowWord(XorOp, y, z);
      BitwiseLowWord(AndOp, x, Xor(y, z));
      BitwiseLowWord(XorOp, z, And(x, Xor(y, z)));
    case G =>
      BitwiseLowWord(XorOp, x, y);
      BitwiseLowWord(AndOp, z, Xor(x, y));
      BitwiseLowWord(XorOp, y, And(z, Xor(x, y)));
    case H =>
      BitwiseLowWord(XorOp, x, y);
      BitwiseLowWord(XorOp, Xor(x, y), z);
    case H2 =>
      BitwiseLowWord(XorOp, y, z);
      BitwiseLowWord(XorOp, x, Xor(y, z));
    case I =>
      BitwiseLowWord(OrOp, x, Not(w, z));
      BitwiseLowWord(XorOp, y, Or(x, Not(w, z)));
  }

  // ---------- STEP, lines 60-63 ----------

  // Wrapping at w bits does not show in the low 32.
  lemma WrapLow(w: nat, x: nat)
    requires w >= 32
    ensures 0 <= x % Pow2(w) < Pow2(w)
    ensures Low(x % Pow2(w)) == Low(x)
  {
    hide Pow2;
    Pow2Constants();
    ModPow2Nested(x, 32, w);
    DivNonnegative(x, Pow2(w));
  }

  lemma LowAdd(x: int, y: int)
    ensures Low(Low(x) + y) == Low(x + y)
  {
    ModAddMultiple(Low(x) + y, x / 0x1_0000_0000, 0x1_0000_0000);
  }

  // The shift up together with the masked shift down rotates the low half of a wider word.
  lemma RotateLow(w: nat, a: nat, s: nat)
    requires w >= 32 && a < Pow2(w) && 1 <= s <= 31
    ensures var r := Or(Shl(w, a, s), Shr(And(a, 0xffff_ffff), 32 - s));
            r < Pow2(w) && Low(r) == RotateLeft(Low(a), s)
  {
    hide Bitwise, Pow2, Shl, Shr, Low;
    AndLowMask(a);
    ShlLow(w, a, s);
    ShrLow(Low(a), s);
    var low, high := Shl(w, a, s), Shr(Low(a), 32 - s);
    Pow2Monotone(s, w);
    BitwiseBound(OrOp, low, high, w);
    BitwiseLowWord(OrOp, low, high);
    OrDisjoint(Low(low), high, s);
  }

  lemma AndLowMask(a: nat)
    ensures And(a, 0xffff_ffff) == Low(a)
  {
    hide Bitwise, Pow2;
    Pow2Constants();
    AndMask(a, 32);
  }

  lemma ShlLow(w: nat, a: nat, s: nat)
    requires w >= 32 && s <= 31
    ensures Low(Shl(w, a, s)) == Shl(32, Low(a), s)
    ensures Low(Shl(w, a, s)) % Pow2(s) == 0
  {
    hide Pow2;
    Pow2Constants();
    WrapLow(w, a * Pow2(s));
    LowScaled(a, Pow2(s));
    ModPow2Nested(a * Pow2(s), s, 32);
    DivModUnique(a * Pow2(s), Pow2(s), a, 0);
  }

  lemma ShrLow(a: Word, s: nat)
    requires s <= 31
    ensures Shr(a, 32 - s) < Pow2(s)
    ensures Low(Shr(a, 32 - s)) == Shr(a, 32 - s)
  {
    hide Pow2;
    Pow2Constants();
    Pow2Add(32 - s, s);
    DivModSplit(a, Pow2(32 - s), Pow2(s));
    ModSmall(a, Pow2(32));
  }

  lemma LowScaled(a: nat, m: nat)
    ensures Low(a * m) == Low(Low(a) * m)
  {
    var p := 0x1_0000_0000;
    MulDistributes(a / p * p, a % p, m);
    MulSwap(a / p, p, m);
    MulAssoc(a / p, m, p);
    ModAddMultiple(Low(a) * m, a / p * m, p);
  }

  method Turned(w: nat, f: Macro, a: nat, b: nat, c: nat, d: nat, x: nat, t: Word, s: nat) returns (r: nat)
    requires w >= 32 && 1 <= s <= 31
    requires a < Pow2(w) && b < Pow2(w) && c < Pow2(w) && d < Pow2(w)
    ensures r < Pow2(w)
    ensures Low(r) == Turn(Round(f), Low(a), Low(b), Low(c), Low(d), Low(x), t, s)
  {
    hide Bitwise, Pow2, Low, Auxiliary, RotateLeft, Apply;
    ghost var u := Apply(w, f, b, c, d);
    ApplyLow(w, f, b, c, d);
    WrapLow(w, a + u + x + t);
    LowSum4(a, u, x, t);
    r := (a + (Apply(w, f, b, c, d) + x + t)) % Pow2(w);
    RotateLow(w, r, s);
    ghost var turned := RotateLeft(Low(r), s);
    r := Or(Shl(w, r, s), Shr(And(r, 0xffff_ffff), 32 - s));
    WrapLow(w, r + b);
    LowAdd(r, b);
    LowAdd(b, turned);
    r := (r + b) % Pow2(w);
  }

  lemma LowSum4(a: int, u: int, x: int, t: int)
    ensures Low(a + u + x + t) == Low(Low(a) + Low(u) + Low(x) + t)
  {
    hide Low;
    LowAdd(a, u + x + t);
    LowAdd(u, Low(a) + x + t);
    LowAdd(x, Low(a) + Low(u) + t);
  }

  predicate Fits(w: nat, a: nat, b: nat, c: nat, d: nat)
  {
    a < Pow2(w) && b < Pow2(w) && c < Pow2(w) && d < Pow2(w)
  }

  function LowHalves(a: nat, b: nat, c: nat, d: nat): Registers
  {
    Registers(Low(a), Low(b), Low(c), Low(d))
  }

  // The i-th STEP of body performs operation i on the low halves of the registers.
  method Step(w: nat, f: Macro, a: nat, b: nat, c: nat, d: nat, x: nat, t: Word, s: nat,
              ghost i: nat, ghost r0: Registers, ghost xs: seq<Word>) returns (r: nat)
    requires w >= 32 && Fits(w, a, b, c, d)
    requires |xs| == 16 && LowHalves(a, b, c, d) == Operations(i, r0, xs)
    requires Round(f) == i / 16 && x == xs[K(i)] && t == T(i) && s == S(i)
    ensures Fits(w, d, r, b, c)
    ensures LowHalves(d, r, b, c) == Operations(i + 1, r0, xs)
  {
    hide Pow2, Turn, T, K;
    r := Turned(w, f, a, b, c, d, x, t, s);
    ModSmall(xs[K(i)], 0x1_0000_0000);
  }
}
