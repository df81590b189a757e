/** Values of MD5 from section A.5 of RFC 1321.  They are computed with the operators
    of bit-vectors, which are proved to be those of Bits.dfy. */
module Md5Vectors {
  import opened Bits
  import opened Rfc1321

  // ---------- the bitwise operators on bytes ----------

  function OnBytes(op: BitOp, v: bv8, w: bv8): bv8
  {
    match op
    case AndOp => v & w
    case OrOp => v | w
    case XorOp => v ^ w
  }

  lemma HalfByte(v: bv8)
    ensures (v >> 1) as int == v as int / 2 && (v & 1) as int == v as int % 2
  {
  }

  lemma HalvesOf(op: BitOp, v: bv8, w: bv8)
    ensures OnBytes(op, v, w) >> 1 == OnBytes(op, v >> 1, w >> 1)
    ensures OnBytes(op, v, w) & 1 == OnBytes(op, v & 1, w & 1)
  {
  }

  lemma LowBits(op: BitOp, v: bv8, w: bv8)
    requires v <= 1 && w <= 1
    ensures v as int <= 1 && w as int <= 1
    ensures OnBytes(op, v, w) as int == OnBits(op, v as int, w as int)
  {
    assert v == 0 || v == 1;
    assert w == 0 || w == 1;
  }

  lemma ByteStep(op: BitOp, v: bv8, w: bv8)
    ensures OnBytes(op, v, w) as int
         == OnBits(op, v as int % 2, w as int % 2) + 2 * OnBytes(op, v >> 1, w >> 1) as int
  {
    hide OnBytes, OnBits;
    HalfByte(v);
    HalfByte(w);
    HalfByte(OnBytes(op, v, w));
    HalvesOf(op, v, w);
    assert v & 1 <= 1 && w & 1 <= 1;
    LowBits(op, v & 1, w & 1);
  }

  // The operators defined bit by bit are those of the machine.
  lemma {:induction false} ByteBits(op: BitOp, v: bv8, w: bv8)
    ensures Bitwise(op, v as int, w as int) == OnBytes(op, v, w) as int
    decreases v as int + w as int
  {
    if v != 0 || w != 0 {
      ByteStep(op, v, w);
      HalfByte(v);
      HalfByte(w);
      BitwiseUnfold(op, v as int, w as int);
      hide Bitwise, OnBytes, OnBits;
      ByteBits(op, v >> 1, w >> 1);
    } else {
      ZeroBits(op);
    }
  }

  lemma ZeroBits(op: BitOp)
    ensures OnBytes(op, 0, 0) == 0 && Bitwise(op, 0, 0) == 0
  {
  }

  // ---------- the same on words ----------

  function Value(v: bv8): (n: nat)
    ensures n < 0x100
  {
    v as int
  }

  // Four bytes, high order first, as a word is written.
  datatype Quad = Q(b3: bv8, b2: bv8, b1: bv8, b0: bv8)

  function Number(q: Quad): Word
  {
    ((Value(q.b3) * 0x100 + Value(q.b2)) * 0x100 + Value(q.b1)) * 0x100 + Value(q.b0)
  }

  function OnQuads(op: BitOp, v: Quad, w: Quad): Quad
  {
    Q(OnBytes(op, v.b3, w.b3), OnBytes(op, v.b2, w.b2), OnBytes(op, v.b1, w.b1), OnBytes(op, v.b0, w.b0))
  }

  function NotQuad(v: Quad): Quad { Q(!v.b3, !v.b2, !v.b1, !v.b0) }

  // Cutting both words before the low byte.
  lemma CutByte(op: BitOp, x: nat, y: nat, v: bv8, w: bv8)
    ensures Bitwise(op, x * 0x100 + Value(v), y * 0x100 + Value(w)) == Bitwise(op, x, y) * 0x100 + Value(OnBytes(op, v, w))
  {
    hide Bitwise, OnBytes, Pow2;
    Pow2Constants();
    ByteBits(op, v, w);
    assert Bitwise(op, Value(v), Value(w)) == Value(OnBytes(op, v, w));
    hide Value;
    var a, b := x * 0x100 + Value(v), y * 0x100 + Value(w);
    DivModUnique(a, 0x100, x, Value(v));
    DivModUnique(b, 0x100, y, Value(w));
    BitwiseLow(op, a, b, 8);
    BitwiseHigh(op, a, b, 8);
    var r := Bitwise(op, a, b);
    assert r == r / 0x100 * 0x100 + r % 0x100;
  }

  lemma QuadBits(op: BitOp, v: Quad, w: Quad)
    ensures Bitwise(op, Number(v), Number(w)) == Number(OnQuads(op, v, w))
  {
    hide Bitwise, OnBytes;
    ByteBits(op, v.b3, w.b3);
    assert Bitwise(op, Value(v.b3), Value(w.b3)) == Value(OnBytes(op, v.b3, w.b3));
    hide Value;
    var x3, y3 := Value(v.b3), Value(w.b3);
    var x2, y2 := x3 * 0x100 + Value(v.b2), y3 * 0x100 + Value(w.b2);
    CutByte(op, x3, y3, v.b2, w.b2);
    CutByte(op, x2, y2, v.b1, w.b1);
    CutByte(op, x2 * 0x100 + Value(v.b1), y2 * 0x100 + Value(w.b1), v.b0, w.b0);
  }

  lemma NotBits(v: Quad)
    ensures Complement(Number(v)) == Number(NotQuad(v))
  {
    hide Value;
    NotByte(v.b3);
    NotByte(v.b2);
    NotByte(v.b1);
    NotByte(v.b0);
  }

  lemma NotByte(v: bv8)
    ensures Value(!v) == 0xff - Value(v)
  {
  }

  // The functions of section 3.4 on bytes.
  function Chosen(round: nat, x: Quad, y: Quad, z: Quad): Quad
  {
    if round == 0 then OnQuads(OrOp, OnQuads(AndOp, x, y), OnQuads(AndOp, NotQuad(x), z))
    else if round == 1 then OnQuads(OrOp, OnQuads(AndOp, x, z), OnQuads(AndOp, y, NotQuad(z)))
    else if round == 2 then OnQuads(XorOp, OnQuads(XorOp, x, y), z)
    else OnQuads(XorOp, y, OnQuads(OrOp, x, NotQuad(z)))
  }

  lemma AuxiliaryBits(round: nat, x: Quad, y: Quad, z: Quad)
    ensures Auxiliary(round, Number(x), Number(y), Number(z)) == Number(Chosen(round, x, y, z))
  {
    hide Bitwise, Number, Complement, OnQuads, NotQuad;
    if round == 0 {
      NotBits(x);
      QuadBits(AndOp, x, y);
      QuadBits(AndOp, NotQuad(x), z);
      QuadBits(OrOp, OnQuads(AndOp, x, y), OnQuads(AndOp, NotQuad(x), z));
    } else if round == 1 {
      NotBits(z);
      QuadBits(AndOp, x, z);
      QuadBits(AndOp, y, NotQuad(z));
      QuadBits(OrOp, OnQuads(AndOp, x, z), OnQuads(AndOp, y, NotQuad(z)));
    } else if round == 2 {
      QuadBits(XorOp, x, y);
      QuadBits(XorOp, OnQuads(XorOp, x, y), z);
    } else {
      NotBits(z);
      QuadBits(OrOp, x, NotQuad(z));
      QuadBits(XorOp, y, OnQuads(OrOp, x, NotQuad(z)));
    }
  }

  // ---------- one operation ----------

  function Quads(a: Quad, b: Quad, c: Quad, d: Quad): Registers
  {
    Registers(Number(a), Number(b), Number(c), Number(d))
  }

  // 2^s for the rotations that occur and their complements.
  function Power(s: nat): nat
  {
    match s
    case 4 => 0x10 case 5 => 0x20 case 6 => 0x40 case 7 => 0x80 case 9 => 0x200 case 10 => 0x400
    case 11 => 0x800 case 12 => 0x1000 case 14 => 0x4000 case 15 => 0x8000 case 16 => 0x1_0000
    case 17 => 0x2_0000 case 18 => 0x4_0000 case 20 => 0x10_0000 case 21 => 0x20_0000
    case 22 => 0x40_0000 case 23 => 0x80_0000 case 25 => 0x200_0000 case 26 => 0x400_0000
    case 27 => 0x800_0000 case 28 => 0x1000_0000 case _ => 0
  }

  // 2^(32 - s).
  function CoPower(s: nat): nat { if s < 32 then Power(32 - s) else 0 }

  lemma PowerIsPow2(i: nat)
    requires i < 64
    ensures S(i) < 32 && Power(S(i)) == Pow2(S(i)) && CoPower(S(i)) == Pow2(32 - S(i)) > 0
  {
    PowersOf2();
    hide Pow2;
  }

  lemma PowersOf2()
    ensures Pow2(4) == 0x10 && Pow2(5) == 0x20 && Pow2(6) == 0x40 && Pow2(7) == 0x80 && Pow2(9) == 0x200
    ensures Pow2(10) == 0x400 && Pow2(11) == 0x800 && Pow2(12) == 0x1000 && Pow2(14) == 0x4000 && Pow2(15) == 0x8000
    ensures Pow2(16) == 0x1_0000 && Pow2(17) == 0x2_0000 && Pow2(18) == 0x4_0000 && Pow2(20) == 0x10_0000
    ensures Pow2(21) == 0x20_0000 && Pow2(22) == 0x40_0000 && Pow2(23) == 0x80_0000 && Pow2(25) == 0x200_0000
    ensures Pow2(26) == 0x400_0000 && Pow2(27) == 0x800_0000 && Pow2(28) == 0x1000_0000
  {
  }

  predicate Rotates(u: Word, v: Word, up: nat, down: nat)
  {
    down > 0 && v == u * up % 0x1_0000_0000 + u / down
  }

  lemma IsRotated(i: nat, u: Word, v: Word)
    requires i < 64 && Rotates(u, v, Power(S(i)), CoPower(S(i)))
    ensures S(i) <= 32 && v == RotateLeft(u, S(i))
  {
    PowerIsPow2(i);
    Pow2Constants();
    hide Pow2, S, Power, CoPower;
  }

  // The registers before operation i.
  predicate At(i: nat, r: Registers, x: seq<Word>, a: Quad, b: Quad, c: Quad, d: Quad)
  {
    |x| == 16 && Operations(i, r, x) == Quads(a, b, c, d)
  }

  // Operation i reads w; f is the auxiliary value, u the sum that is rotated, v the
  // rotated sum and n the result.
  lemma Next(r: Registers, x: seq<Word>, i: nat, w: Word, f: Word, u: Word, v: Word, n: Quad, a: Quad, b: Quad, c: Quad, d: Quad)
    returns (a': Quad, b': Quad, c': Quad, d': Quad)
    requires i < 64 && At(i, r, x, a, b, c, d)
    requires w == x[K(i)]
    requires f == Number(Chosen(i / 16, b, c, d)) && u == Low(Number(a) + f + w + T(i))
    requires Rotates(u, v, Power(S(i)), CoPower(S(i)))
    requires Number(n) == Low(Number(b) + v)
    ensures a' == d && b' == n && c' == b && d' == c
    ensures At(i + 1, r, x, a', b', c', d')
  {
    hide Pow2, Number, Low, T, K, S, Chosen, Auxiliary, Power, CoPower, RotateLeft, Rotates;
    IsRotated(i, u, v);
    AuxiliaryBits(i / 16, b, c, d);
    a', b', c', d' := d, n, b, c;
  }

  // ---------- the message of 62 letters and digits ----------

  // "ABCDEFGHIJKLMNOPQRSTUVWXYZabcdefghijklmnopqrstuvwxyz0123456789".  Its padding takes
  // two blocks, and no two words of the first one are equal.
  function LettersAndDigits(): (m: seq<Byte>)
    ensures |m| == 62
  {
    seq(62, i requires 0 <= i < 62 =>
      if i < 26 then 'A' as int + i else if i < 52 then 'a' as int + i - 26 else '0' as int + i - 52)
  }

  lemma Padded()
    ensures var p := Pad(LettersAndDigits());
      && |p| == 128 && p[..62] == LettersAndDigits() && p[62] == 0x80 && p[120..] == [0xf0, 1, 0, 0, 0, 0, 0, 0]
      && forall i :: 63 <= i < 120 ==> p[i] == 0
  {
    var m := LettersAndDigits();
    assert BitLength(62) == 0x1f0;
    BytesOfLength();
    hide Bytes;
    assert PadLength(62) == 57;
    assert Pad(m) == m + [0x80] + Zeros(57) + Bytes(0x1f0, 8);
  }

  lemma BytesOfLength()
    ensures Bytes(0x1f0, 8) == [0xf0, 1, 0, 0, 0, 0, 0, 0]
  {
    ZeroBytes(6);
    assert Bytes(1, 7) == [1] + Bytes(0, 6);
    assert Bytes(0x1f0, 8) == [0xf0] + Bytes(1, 7);
  }

  lemma {:induction false} ZeroBytes(n: nat)
    ensures Bytes(0, n) == Zeros(n)
  {
    if n > 0 {
      ZeroBytes(n - 1);
    }
  }

  predicate FirstWords(x: seq<Word>)
  {
    && |x| == 16
    && x[0] == 0x44434241 && x[1] == 0x48474645 && x[2] == 0x4c4b4a49 && x[3] == 0x504f4e4d
    && x[4] == 0x54535251 && x[5] == 0x58575655 && x[6] == 0x62615a59 && x[7] == 0x66656463
    && x[8] == 0x6a696867 && x[9] == 0x6e6d6c6b && x[10] == 0x7271706f && x[11] == 0x76757473
    && x[12] == 0x7a797877 && x[13] == 0x33323130 && x[14] == 0x37363534 && x[15] == 0x00803938
  }

  predicate SecondWords(x: seq<Word>)
  {
    && |x| == 16
    && x[0] == 0x00000000 && x[1] == 0x00000000 && x[2] == 0x00000000 && x[3] == 0x00000000
    && x[4] == 0x00000000 && x[5] == 0x00000000 && x[6] == 0x00000000 && x[7] == 0x00000000
    && x[8] == 0x00000000 && x[9] == 0x00000000 && x[10] == 0x00000000 && x[11] == 0x00000000
    && x[12] == 0x00000000 && x[13] == 0x00000000 && x[14] == 0x000001f0 && x[15] == 0x00000000
  }

  lemma WordsOfPadding(p: seq<Byte>)
    requires p == Pad(LettersAndDigits())
    ensures |p| == 128 && FirstWords(Decode(p[..64])) && SecondWords(Decode(p[64..]))
  {
    Padded();
    hide Pad;
    var m, x, y := LettersAndDigits(), Decode(p[..64]), Decode(p[64..]);
    forall j | 0 <= j < 16
      ensures x[j] == WordAt(p, 4 * j) && y[j] == WordAt(p, 64 + 4 * j)
    {
    }
    forall i | 0 <= i < 62
      ensures p[i] == m[i]
    {
      assert p[i] == p[..62][i];
    }
    forall i | 120 <= i < 128
      ensures p[i] == if i == 120 then 0xf0 else if i == 121 then 1 else 0
    {
      assert p[i] == p[120..][i - 120];
    }
  }

  lemma First0(x: seq<Word>, r: Registers)
    requires At(0, r, x, Q(0x67, 0x45, 0x23, 0x01), Q(0xef, 0xcd, 0xab, 0x89), Q(0x98, 0xba, 0xdc, 0xfe), Q(0x10, 0x32, 0x54, 0x76))
    requires x[0] == 0x44434241 && x[1] == 0x48474645
    ensures At(2, r, x, Q(0x98, 0xba, 0xdc, 0xfe), Q(0x99, 0xa0, 0x99, 0x99), Q(0xc6, 0xc1, 0x07, 0x96), Q(0xef, 0xcd, 0xab, 0x89))
  {
    hide Pow2, At;
    var a, b, c, d := Q(0x67, 0x45, 0x23, 0x01), Q(0xef, 0xcd, 0xab, 0x89), Q(0x98, 0xba, 0xdc, 0xfe), Q(0x10, 0x32, 0x54, 0x76);
    a, b, c, d := Next(r, x, 0, 0x44434241, 0x98badcfe, 0x1bade6b8, 0xd6f35c0d, Q(0xc6, 0xc1, 0x07, 0x96), a, b, c, d);
    a, b, c, d := Next(r, x, 1, 0x48474645, 0xdefbdbe8, 0x203d2df9, 0xd2df9203, Q(0x99, 0xa0, 0x99, 0x99), a, b, c, d);
  }

  lemma First2(x: seq<Word>, r: Registers)
    requires At(2, r, x, Q(0x98, 0xba, 0xdc, 0xfe), Q(0x99, 0xa0, 0x99, 0x99), Q(0xc6, 0xc1, 0x07, 0x96), Q(0xef, 0xcd, 0xab, 0x89))
    requires x[2] == 0x4c4b4a49 && x[3] == 0x504f4e4d
    ensures At(4, r, x, Q(0xc6, 0xc1, 0x07, 0x96), Q(0x27, 0xbc, 0xe0, 0x7a), Q(0x11, 0x06, 0x79, 0x80), Q(0x99, 0xa0, 0x99, 0x99))
  {
    hide Pow2, At;
    var a, b, c, d := Q(0x98, 0xba, 0xdc, 0xfe), Q(0x99, 0xa0, 0x99, 0x99), Q(0xc6, 0xc1, 0x07, 0x96), Q(0xef, 0xcd, 0xab, 0x89);
    a, b, c, d := Next(r, x, 2, 0x4c4b4a49, 0xe6cd2390, 0xeff3bbb2, 0x7765dfe7, Q(0x11, 0x06, 0x79, 0x80), a, b, c, d);
    a, b, c, d := Next(r, x, 3, 0x504f4e4d, 0xd7c11f96, 0xd99be85a, 0x16b666fa, Q(0x27, 0xbc, 0xe0, 0x7a), a, b, c, d);
  }

  lemma First4(x: seq<Word>, r: Registers)
    requires At(4, r, x, Q(0xc6, 0xc1, 0x07, 0x96), Q(0x27, 0xbc, 0xe0, 0x7a), Q(0x11, 0x06, 0x79, 0x80), Q(0x99, 0xa0, 0x99, 0x99))
    requires x[4] == 0x54535251 && x[5] == 0x58575655
    ensures At(6, r, x, Q(0x11, 0x06, 0x79, 0x80), Q(0xb4, 0xac, 0x92, 0x18), Q(0xf2, 0x2e, 0x6c, 0x4e), Q(0x27, 0xbc, 0xe0, 0x7a))
  {
    hide Pow2, At;
    var a, b, c, d := Q(0xc6, 0xc1, 0x07, 0x96), Q(0x27, 0xbc, 0xe0, 0x7a), Q(0x11, 0x06, 0x79, 0x80), Q(0x99, 0xa0, 0x99, 0x99);
    a, b, c, d := Next(r, x, 4, 0x54535251, 0x99047981, 0xa994e317, 0xca718bd4, Q(0xf2, 0x2e, 0x6c, 0x4e), a, b, c, d);
    a, b, c, d := Next(r, x, 5, 0x58575655, 0x232c71ca, 0x5cac27e2, 0xc27e25ca, Q(0xb4, 0xac, 0x92, 0x18), a, b, c, d);
  }

  lemma First6(x: seq<Word>, r: Registers)
    requires At(6, r, x, Q(0x11, 0x06, 0x79, 0x80), Q(0xb4, 0xac, 0x92, 0x18), Q(0xf2, 0x2e, 0x6c, 0x4e), Q(0x27, 0xbc, 0xe0, 0x7a))
    requires x[6] == 0x62615a59 && x[7] == 0x66656463
    ensures At(8, r, x, Q(0xf2, 0x2e, 0x6c, 0x4e), Q(0xa4, 0x79, 0x95, 0x06), Q(0xa9, 0x5a, 0x2f, 0xc0), Q(0xb4, 0xac, 0x92, 0x18))
  {
    hide Pow2, At;
    var a, b, c, d := Q(0x11, 0x06, 0x79, 0x80), Q(0xb4, 0xac, 0x92, 0x18), Q(0xf2, 0x2e, 0x6c, 0x4e), Q(0x27, 0xbc, 0xe0, 0x7a);
    a, b, c, d := Next(r, x, 6, 0x62615a59, 0xb33c606a, 0xced47a56, 0xf4ad9da8, Q(0xa9, 0x5a, 0x2f, 0xc0), a, b, c, d);
    a, b, c, d := Next(r, x, 7, 0x66656463, 0xf22c420e, 0x7d951bec, 0xfb1f6546, Q(0xa4, 0x79, 0x95, 0x06), a, b, c, d);
  }

  lemma First8(x: seq<Word>, r: Registers)
    requires At(8, r, x, Q(0xf2, 0x2e, 0x6c, 0x4e), Q(0xa4, 0x79, 0x95, 0x06), Q(0xa9, 0x5a, 0x2f, 0xc0), Q(0xb4, 0xac, 0x92, 0x18))
    requires x[8] == 0x6a696867 && x[9] == 0x6e6d6c6b
    ensures At(10, r, x, Q(0xa9, 0x5a, 0x2f, 0xc0), Q(0xa6, 0xe7, 0x0c, 0xfe), Q(0x1e, 0xb3, 0xe7, 0xc1), Q(0xa4, 0x79, 0x95, 0x06))
  {
    hide Pow2, At;
    var a, b, c, d := Q(0xf2, 0x2e, 0x6c, 0x4e), Q(0xa4, 0x79, 0x95, 0x06), Q(0xa9, 0x5a, 0x2f, 0xc0), Q(0xb4, 0xac, 0x92, 0x18);
    a, b, c, d := Next(r, x, 8, 0x6a696867, 0xb0dc0718, 0x76f474a5, 0x7a3a52bb, Q(0x1e, 0xb3, 0xe7, 0xc1), a, b, c, d);
    a, b, c, d := Next(r, x, 9, 0x6e6d6c6b, 0xa5798d00, 0x53d88332, 0x8833253d, Q(0xa6, 0xe7, 0x0c, 0xfe), a, b, c, d);
  }

  lemma First10(x: seq<Word>, r: Registers)
    requires At(10, r, x, Q(0xa9, 0x5a, 0x2f, 0xc0), Q(0xa6, 0xe7, 0x0c, 0xfe), Q(0x1e, 0xb3, 0xe7, 0xc1), Q(0xa4, 0x79, 0x95, 0x06))
    requires x[10] == 0x7271706f && x[11] == 0x76757473
    ensures At(12, r, x, Q(0x1e, 0xb3, 0xe7, 0xc1), Q(0x8a, 0x76, 0x12, 0xec), Q(0xca, 0x27, 0x52, 0x0b), Q(0xa6, 0xe7, 0x0c, 0xfe))
  {
    hide Pow2, At;
    var a, b, c, d := Q(0xa9, 0x5a, 0x2f, 0xc0), Q(0xa6, 0xe7, 0x0c, 0xfe), Q(0x1e, 0xb3, 0xe7, 0xc1), Q(0xa4, 0x79, 0x95, 0x06);
    a, b, c, d := Next(r, x, 10, 0x7271706f, 0x06bb95c0, 0x228691a0, 0x2340450d, Q(0xca, 0x27, 0x52, 0x0b), a, b, c, d);
    a, b, c, d := Next(r, x, 11, 0x76757473, 0x96b7a5ca, 0x3b038701, 0xc04ec0e1, Q(0x8a, 0x76, 0x12, 0xec), a, b, c, d);
  }

  lemma First12(x: seq<Word>, r: Registers)
    requires At(12, r, x, Q(0x1e, 0xb3, 0xe7, 0xc1), Q(0x8a, 0x76, 0x12, 0xec), Q(0xca, 0x27, 0x52, 0x0b), Q(0xa6, 0xe7, 0x0c, 0xfe))
    requires x[12] == 0x7a797877 && x[13] == 0x33323130
    ensures At(14, r, x, Q(0xca, 0x27, 0x52, 0x0b), Q(0xb8, 0xde, 0xc7, 0x63), Q(0x3c, 0xbd, 0xcd, 0x45), Q(0x8a, 0x76, 0x12, 0xec))
  {
    hide Pow2, At;
    var a, b, c, d := Q(0x1e, 0xb3, 0xe7, 0xc1), Q(0x8a, 0x76, 0x12, 0xec), Q(0xca, 0x27, 0x52, 0x0b), Q(0xa6, 0xe7, 0x0c, 0xfe);
    a, b, c, d := Next(r, x, 12, 0x7a797877, 0xaea71e1a, 0xb3648f74, 0xb247ba59, Q(0x3c, 0xbd, 0xcd, 0x45), a, b, c, d);
    a, b, c, d := Next(r, x, 13, 0x33323130, 0xca36124e, 0xa1e7c20f, 0x7c20fa1e, Q(0xb8, 0xde, 0xc7, 0x63), a, b, c, d);
  }

  lemma First14(x: seq<Word>, r: Registers)
    requires At(14, r, x, Q(0xca, 0x27, 0x52, 0x0b), Q(0xb8, 0xde, 0xc7, 0x63), Q(0x3c, 0xbd, 0xcd, 0x45), Q(0x8a, 0x76, 0x12, 0xec))
    requires x[14] == 0x37363534 && x[15] == 0x00803938
    ensures At(16, r, x, Q(0x3c, 0xbd, 0xcd, 0x45), Q(0x5d, 0x38, 0xe6, 0x90), Q(0xfa, 0x14, 0x8c, 0x8a), Q(0xb8, 0xde, 0xc7, 0x63))
  {
    hide Pow2, At;
    var a, b, c, d := Q(0xca, 0x27, 0x52, 0x0b), Q(0xb8, 0xde, 0xc7, 0x63), Q(0x3c, 0xbd, 0xcd, 0x45), Q(0x8a, 0x76, 0x12, 0xec);
    a, b, c, d := Next(r, x, 14, 0x37363534, 0x3abcd5cd, 0xe293a09a, 0x4135c527, Q(0xfa, 0x14, 0x8c, 0x8a), a, b, c, d);
    a, b, c, d := Next(r, x, 15, 0x00803938, 0xbcbdc547, 0x9168198c, 0x63245a06, Q(0x5d, 0x38, 0xe6, 0x90), a, b, c, d);
  }

  lemma First16(x: seq<Word>, r: Registers)
    requires At(16, r, x, Q(0x3c, 0xbd, 0xcd, 0x45), Q(0x5d, 0x38, 0xe6, 0x90), Q(0xfa, 0x14, 0x8c, 0x8a), Q(0xb8, 0xde, 0xc7, 0x63))
    requires x[1] == 0x48474645 && x[6] == 0x62615a59
    ensures At(18, r, x, Q(0xfa, 0x14, 0x8c, 0x8a), Q(0x78, 0x30, 0x02, 0xeb), Q(0x04, 0xb9, 0xd5, 0x2a), Q(0x5d, 0x38, 0xe6, 0x90))
  {
    hide Pow2, At;
    var a, b, c, d := Q(0x3c, 0xbd, 0xcd, 0x45), Q(0x5d, 0x38, 0xe6, 0x90), Q(0xfa, 0x14, 0x8c, 0x8a), Q(0xb8, 0xde, 0xc7, 0x63);
    a, b, c, d := Next(r, x, 16, 0x48474645, 0x5a18ce88, 0xd53c0774, 0xa780ee9a, Q(0x04, 0xb9, 0xd5, 0x2a), a, b, c, d);
    a, b, c, d := Next(r, x, 17, 0x62615a59, 0x0538e61a, 0xe0b9bb16, 0x73762dc1, Q(0x78, 0x30, 0x02, 0xeb), a, b, c, d);
  }

  lemma First18(x: seq<Word>, r: Registers)
    requires At(18, r, x, Q(0xfa, 0x14, 0x8c, 0x8a), Q(0x78, 0x30, 0x02, 0xeb), Q(0x04, 0xb9, 0xd5, 0x2a), Q(0x5d, 0x38, 0xe6, 0x90))
    requires x[0] == 0x44434241 && x[11] == 0x76757473
    ensures At(20, r, x, Q(0x04, 0xb9, 0xd5, 0x2a), Q(0x47, 0xae, 0x7c, 0x81), Q(0xd3, 0xee, 0x3e, 0xd1), Q(0x78, 0x30, 0x02, 0xeb))
  {
    hide Pow2, At;
    var a, b, c, d := Q(0xfa, 0x14, 0x8c, 0x8a), Q(0x78, 0x30, 0x02, 0xeb), Q(0x04, 0xb9, 0xd5, 0x2a), Q(0x5d, 0x38, 0xe6, 0x90);
    a, b, c, d := Next(r, x, 18, 0x76757473, 0x58b113aa, 0xef996ef8, 0x5bbe3be6, Q(0xd3, 0xee, 0x3e, 0xd1), a, b, c, d);
    a, b, c, d := Next(r, x, 19, 0x44434241, 0x78a816c1, 0x03db073c, 0x73c03db0, Q(0x47, 0xae, 0x7c, 0x81), a, b, c, d);
  }

  lemma First20(x: seq<Word>, r: Registers)
    requires At(20, r, x, Q(0x04, 0xb9, 0xd5, 0x2a), Q(0x47, 0xae, 0x7c, 0x81), Q(0xd3, 0xee, 0x3e, 0xd1), Q(0x78, 0x30, 0x02, 0xeb))
    requires x[5] == 0x58575655 && x[10] == 0x7271706f
    ensures At(22, r, x, Q(0xd3, 0xee, 0x3e, 0xd1), Q(0xd1, 0x21, 0x08, 0x23), Q(0x2d, 0x7d, 0x8a, 0x3f), Q(0x47, 0xae, 0x7c, 0x81))
  {
    hide Pow2, At;
    var a, b, c, d := Q(0x04, 0xb9, 0xd5, 0x2a), Q(0x47, 0xae, 0x7c, 0x81), Q(0xd3, 0xee, 0x3e, 0xd1), Q(0x78, 0x30, 0x02, 0xeb);
    a, b, c, d := Next(r, x, 20, 0x58575655, 0xc3ee3c91, 0xf72e786d, 0xe5cf0dbe, Q(0x2d, 0x7d, 0x8a, 0x3f), a, b, c, d);
    a, b, c, d := Next(r, x, 21, 0x7271706f, 0x056c4a11, 0xf251d1be, 0xa3a37de4, Q(0xd1, 0x21, 0x08, 0x23), a, b, c, d);
  }

  lemma First22(x: seq<Word>, r: Registers)
    requires At(22, r, x, Q(0xd3, 0xee, 0x3e, 0xd1), Q(0xd1, 0x21, 0x08, 0x23), Q(0x2d, 0x7d, 0x8a, 0x3f), Q(0x47, 0xae, 0x7c, 0x81))
    requires x[4] == 0x54535251 && x[15] == 0x00803938
    ensures At(24, r, x, Q(0x2d, 0x7d, 0x8a, 0x3f), Q(0x75, 0x29, 0x20, 0x30), Q(0x4b, 0x53, 0x4d, 0xc3), Q(0xd1, 0x21, 0x08, 0x23))
  {
    hide Pow2, At;
    var a, b, c, d := Q(0xd3, 0xee, 0x3e, 0xd1), Q(0xd1, 0x21, 0x08, 0x23), Q(0x2d, 0x7d, 0x8a, 0x3f), Q(0x47, 0xae, 0x7c, 0x81);
    a, b, c, d := Next(r, x, 22, 0x00803938, 0x69718a3f, 0x1681e8c9, 0x7a3245a0, Q(0x4b, 0x53, 0x4d, 0xc3), a, b, c, d);
    a, b, c, d := Next(r, x, 23, 0x54535251, 0xd9510803, 0x5d26d29d, 0x29d5d26d, Q(0x75, 0x29, 0x20, 0x30), a, b, c, d);
  }

  lemma First24(x: seq<Word>, r: Registers)
    requires At(24, r, x, Q(0x2d, 0x7d, 0x8a, 0x3f), Q(0x75, 0x29, 0x20, 0x30), Q(0x4b, 0x53, 0x4d, 0xc3), Q(0xd1, 0x21, 0x08, 0x23))
    requires x[9] == 0x6e6d6c6b && x[14] == 0x37363534
    ensures At(26, r, x, Q(0x4b, 0x53, 0x4d, 0xc3), Q(0x0e, 0x8d, 0x2e, 0x44), Q(0x9d, 0x2a, 0x6e, 0x33), Q(0x75, 0x29, 0x20, 0x30))
  {
    hide Pow2, At;
    var a, b, c, d := Q(0x2d, 0x7d, 0x8a, 0x3f), Q(0x75, 0x29, 0x20, 0x30), Q(0x4b, 0x53, 0x4d, 0xc3), Q(0xd1, 0x21, 0x08, 0x23);
    a, b, c, d := Next(r, x, 24, 0x6e6d6c6b, 0x5b7345e0, 0x19400a70, 0x28014e03, Q(0x9d, 0x2a, 0x6e, 0x33), a, b, c, d);
    a, b, c, d := Next(r, x, 25, 0x37363534, 0x3d2a6c33, 0x08b8b160, 0x7162c011, Q(0x0e, 0x8d, 0x2e, 0x44), a, b, c, d);
  }

  lemma First26(x: seq<Word>, r: Registers)
    requires At(26, r, x, Q(0x4b, 0x53, 0x4d, 0xc3), Q(0x0e, 0x8d, 0x2e, 0x44), Q(0x9d, 0x2a, 0x6e, 0x33), Q(0x75, 0x29, 0x20, 0x30))
    requires x[3] == 0x504f4e4d && x[8] == 0x6a696867
    ensures At(28, r, x, Q(0x9d, 0x2a, 0x6e, 0x33), Q(0xf2, 0xff, 0x6e, 0xa0), Q(0xd4, 0x73, 0xb5, 0x64), Q(0x0e, 0x8d, 0x2e, 0x44))
  {
    hide Pow2, At;
    var a, b, c, d := Q(0x4b, 0x53, 0x4d, 0xc3), Q(0x0e, 0x8d, 0x2e, 0x44), Q(0x9d, 0x2a, 0x6e, 0x33), Q(0x75, 0x29, 0x20, 0x30);
    a, b, c, d := Next(r, x, 26, 0x504f4e4d, 0x8c0b6e03, 0x1c83179a, 0xc5e68720, Q(0xd4, 0x73, 0xb5, 0x64), a, b, c, d);
    a, b, c, d := Next(r, x, 27, 0x6a696867, 0x96a72464, 0xbb93c1e8, 0x1e8bb93c, Q(0xf2, 0xff, 0x6e, 0xa0), a, b, c, d);
  }

  lemma First28(x: seq<Word>, r: Registers)
    requires At(28, r, x, Q(0x9d, 0x2a, 0x6e, 0x33), Q(0xf2, 0xff, 0x6e, 0xa0), Q(0xd4, 0x73, 0xb5, 0x64), Q(0x0e, 0x8d, 0x2e, 0x44))
    requires x[2] == 0x4c4b4a49 && x[13] == 0x33323130
    ensures At(30, r, x, Q(0xd4, 0x73, 0xb5, 0x64), Q(0x44, 0x00, 0xa9, 0xbd), Q(0x9b, 0x08, 0x5f, 0xa9), Q(0xf2, 0xff, 0x6e, 0xa0))
  {
    hide Pow2, At;
    var a, b, c, d := Q(0x9d, 0x2a, 0x6e, 0x33), Q(0xf2, 0xff, 0x6e, 0xa0), Q(0xd4, 0x73, 0xb5, 0x64), Q(0x0e, 0x8d, 0x2e, 0x44);
    a, b, c, d := Next(r, x, 28, 0x33323130, 0xd2ffbf20, 0x4d404788, 0xa808f109, Q(0x9b, 0x08, 0x5f, 0xa9), a, b, c, d);
    a, b, c, d := Next(r, x, 29, 0x4c4b4a49, 0xb28c5fa0, 0x0a547c25, 0xa8f84a14, Q(0x44, 0x00, 0xa9, 0xbd), a, b, c, d);
  }

  lemma First30(x: seq<Word>, r: Registers)
    requires At(30, r, x, Q(0xd4, 0x73, 0xb5, 0x64), Q(0x44, 0x00, 0xa9, 0xbd), Q(0x9b, 0x08, 0x5f, 0xa9), Q(0xf2, 0xff, 0x6e, 0xa0))
    requires x[7] == 0x66656463 && x[12] == 0x7a797877
    ensures At(32, r, x, Q(0x9b, 0x08, 0x5f, 0xa9), Q(0xdd, 0x78, 0x9e, 0xcc), Q(0x59, 0x93, 0x24, 0x8f), Q(0x44, 0x00, 0xa9, 0xbd))
  {
    hide Pow2, At;
    var a, b, c, d := Q(0xd4, 0x73, 0xb5, 0x64), Q(0x44, 0x00, 0xa9, 0xbd), Q(0x9b, 0x08, 0x5f, 0xa9), Q(0xf2, 0xff, 0x6e, 0xa0);
    a, b, c, d := Next(r, x, 30, 0x66656463, 0x490039a9, 0xeb485649, 0x15927ad2, Q(0x59, 0x93, 0x24, 0x8f), a, b, c, d);
    a, b, c, d := Next(r, x, 31, 0x7a797877, 0x5d00a49d, 0x57a3d83e, 0x83e57a3d, Q(0xdd, 0x78, 0x9e, 0xcc), a, b, c, d);
  }

  lemma First32(x: seq<Word>, r: Registers)
    requires At(32, r, x, Q(0x9b, 0x08, 0x5f, 0xa9), Q(0xdd, 0x78, 0x9e, 0xcc), Q(0x59, 0x93, 0x24, 0x8f), Q(0x44, 0x00, 0xa9, 0xbd))
    requires x[5] == 0x58575655 && x[8] == 0x6a696867
    ensures At(34, r, x, Q(0x59, 0x93, 0x24, 0x8f), Q(0x1d, 0x55, 0xa1, 0x8e), Q(0x21, 0xc8, 0xd2, 0xb7), Q(0xdd, 0x78, 0x9e, 0xcc))
  {
    hide Pow2, At;
    var a, b, c, d := Q(0x9b, 0x08, 0x5f, 0xa9), Q(0xdd, 0x78, 0x9e, 0xcc), Q(0x59, 0x93, 0x24, 0x8f), Q(0x44, 0x00, 0xa9, 0xbd);
    a, b, c, d := Next(r, x, 32, 0x58575655, 0xc0eb13fe, 0xb445033e, 0x445033eb, Q(0x21, 0xc8, 0xd2, 0xb7), a, b, c, d);
    a, b, c, d := Next(r, x, 33, 0x6a696867, 0xa52368f4, 0xdaff7199, 0xfb8cced7, Q(0x1d, 0x55, 0xa1, 0x8e), a, b, c, d);
  }

  lemma First34(x: seq<Word>, r: Registers)
    requires At(34, r, x, Q(0x59, 0x93, 0x24, 0x8f), Q(0x1d, 0x55, 0xa1, 0x8e), Q(0x21, 0xc8, 0xd2, 0xb7), Q(0xdd, 0x78, 0x9e, 0xcc))
    requires x[11] == 0x76757473 && x[14] == 0x37363534
    ensures At(36, r, x, Q(0x21, 0xc8, 0xd2, 0xb7), Q(0x1b, 0x95, 0x04, 0xf8), Q(0x05, 0x6e, 0xc1, 0x19), Q(0x1d, 0x55, 0xa1, 0x8e))
  {
    hide Pow2, At;
    var a, b, c, d := Q(0x59, 0x93, 0x24, 0x8f), Q(0x1d, 0x55, 0xa1, 0x8e), Q(0x21, 0xc8, 0xd2, 0xb7), Q(0xdd, 0x78, 0x9e, 0xcc);
    a, b, c, d := Next(r, x, 34, 0x76757473, 0xe1e5edf5, 0x1f8be819, 0xe8191f8b, Q(0x05, 0x6e, 0xc1, 0x19), a, b, c, d);
    a, b, c, d := Next(r, x, 35, 0x37363534, 0x39f3b220, 0x4c87be2c, 0x162643df, Q(0x1b, 0x95, 0x04, 0xf8), a, b, c, d);
  }

  lemma First36(x: seq<Word>, r: Registers)
    requires At(36, r, x, Q(0x21, 0xc8, 0xd2, 0xb7), Q(0x1b, 0x95, 0x04, 0xf8), Q(0x05, 0x6e, 0xc1, 0x19), Q(0x1d, 0x55, 0xa1, 0x8e))
    requires x[1] == 0x48474645 && x[4] == 0x54535251
    ensures At(38, r, x, Q(0x05, 0x6e, 0xc1, 0x19), Q(0x07, 0x58, 0x00, 0xc1), Q(0x43, 0x6b, 0x7f, 0xe9), Q(0x1b, 0x95, 0x04, 0xf8))
  {
    hide Pow2, At;
    var a, b, c, d := Q(0x21, 0xc8, 0xd2, 0xb7), Q(0x1b, 0x95, 0x04, 0xf8), Q(0x05, 0x6e, 0xc1, 0x19), Q(0x1d, 0x55, 0xa1, 0x8e);
    a, b, c, d := Next(r, x, 36, 0x48474645, 0x03ae646f, 0x127d67af, 0x27d67af1, Q(0x43, 0x6b, 0x7f, 0xe9), a, b, c, d);
    a, b, c, d := Next(r, x, 37, 0x54535251, 0x5d90ba08, 0x1b187d90, 0xc3ec80d8, Q(0x07, 0x58, 0x00, 0xc1), a, b, c, d);
  }

  lemma First38(x: seq<Word>, r: Registers)
    requires At(38, r, x, Q(0x05, 0x6e, 0xc1, 0x19), Q(0x07, 0x58, 0x00, 0xc1), Q(0x43, 0x6b, 0x7f, 0xe9), Q(0x1b, 0x95, 0x04, 0xf8))
    requires x[7] == 0x66656463 && x[10] == 0x7271706f
    ensures At(40, r, x, Q(0x43, 0x6b, 0x7f, 0xe9), Q(0xcf, 0x03, 0x41, 0xed), Q(0xf4, 0x04, 0xc2, 0xf6), Q(0x07, 0x58, 0x00, 0xc1))
  {
    hide Pow2, At;
    var a, b, c, d := Q(0x05, 0x6e, 0xc1, 0x19), Q(0x07, 0x58, 0x00, 0xc1), Q(0x43, 0x6b, 0x7f, 0xe9), Q(0x1b, 0x95, 0x04, 0xf8);
    a, b, c, d := Next(r, x, 38, 0x66656463, 0x5fa67bd0, 0xc235ecac, 0xecacc235, Q(0xf4, 0x04, 0xc2, 0xf6), a, b, c, d);
    a, b, c, d := Next(r, x, 39, 0x7271706f, 0xb037bdde, 0xfcfdefb5, 0xdafe7ef7, Q(0xcf, 0x03, 0x41, 0xed), a, b, c, d);
  }

  lemma First40(x: seq<Word>, r: Registers)
    requires At(40, r, x, Q(0x43, 0x6b, 0x7f, 0xe9), Q(0xcf, 0x03, 0x41, 0xed), Q(0xf4, 0x04, 0xc2, 0xf6), Q(0x07, 0x58, 0x00, 0xc1))
    requires x[0] == 0x44434241 && x[13] == 0x33323130
    ensures At(42, r, x, Q(0xf4, 0x04, 0xc2, 0xf6), Q(0xbb, 0xda, 0xec, 0xd8), Q(0x88, 0x8e, 0x7d, 0x8a), Q(0xcf, 0x03, 0x41, 0xed))
  {
    hide Pow2, At;
    var a, b, c, d := Q(0x43, 0x6b, 0x7f, 0xe9), Q(0xcf, 0x03, 0x41, 0xed), Q(0xf4, 0x04, 0xc2, 0xf6), Q(0x07, 0x58, 0x00, 0xc1);
    a, b, c, d := Next(r, x, 40, 0x33323130, 0x3c5f83da, 0xdb98b3b9, 0xb98b3b9d, Q(0x88, 0x8e, 0x7d, 0x8a), a, b, c, d);
    a, b, c, d := Next(r, x, 41, 0x44434241, 0xb389fe91, 0xe9c6698d, 0x334c6f4e, Q(0xbb, 0xda, 0xec, 0xd8), a, b, c, d);
  }

  lemma First42(x: seq<Word>, r: Registers)
    requires At(42, r, x, Q(0xf4, 0x04, 0xc2, 0xf6), Q(0xbb, 0xda, 0xec, 0xd8), Q(0x88, 0x8e, 0x7d, 0x8a), Q(0xcf, 0x03, 0x41, 0xed))
    requires x[3] == 0x504f4e4d && x[6] == 0x62615a59
    ensures At(44, r, x, Q(0x88, 0x8e, 0x7d, 0x8a), Q(0x04, 0x7b, 0x94, 0x19), Q(0xce, 0x62, 0x02, 0x73), Q(0xbb, 0xda, 0xec, 0xd8))
  {
    hide Pow2, At;
    var a, b, c, d := Q(0xf4, 0x04, 0xc2, 0xf6), Q(0xbb, 0xda, 0xec, 0xd8), Q(0x88, 0x8e, 0x7d, 0x8a), Q(0xcf, 0x03, 0x41, 0xed);
    a, b, c, d := Next(r, x, 42, 0x504f4e4d, 0xfc57d0bf, 0x159b1287, 0x1287159b, Q(0xce, 0x62, 0x02, 0x73), a, b, c, d);
    a, b, c, d := Next(r, x, 43, 0x62615a59, 0xfd369321, 0x33234c6c, 0x361991a6, Q(0x04, 0x7b, 0x94, 0x19), a, b, c, d);
  }

  lemma First44(x: seq<Word>, r: Registers)
    requires At(44, r, x, Q(0x88, 0x8e, 0x7d, 0x8a), Q(0x04, 0x7b, 0x94, 0x19), Q(0xce, 0x62, 0x02, 0x73), Q(0xbb, 0xda, 0xec, 0xd8))
    requires x[9] == 0x6e6d6c6b && x[12] == 0x7a797877
    ensures At(46, r, x, Q(0xce, 0x62, 0x02, 0x73), Q(0xe9, 0x5c, 0x3a, 0x43), Q(0x2d, 0xbe, 0xe2, 0x1d), Q(0x04, 0x7b, 0x94, 0x19))
  {
    hide Pow2, At;
    var a, b, c, d := Q(0x88, 0x8e, 0x7d, 0x8a), Q(0x04, 0x7b, 0x94, 0x19), Q(0xce, 0x62, 0x02, 0x73), Q(0xbb, 0xda, 0xec, 0xd8);
    a, b, c, d := Next(r, x, 44, 0x6e6d6c6b, 0x71c37ab2, 0x429434e0, 0x29434e04, Q(0x2d, 0xbe, 0xe2, 0x1d), a, b, c, d);
    a, b, c, d := Next(r, x, 45, 0x7a797877, 0xe7a77477, 0x04d773ab, 0xbb9d5826, Q(0xe9, 0x5c, 0x3a, 0x43), a, b, c, d);
  }

  lemma First46(x: seq<Word>, r: Registers)
    requires At(46, r, x, Q(0xce, 0x62, 0x02, 0x73), Q(0xe9, 0x5c, 0x3a, 0x43), Q(0x2d, 0xbe, 0xe2, 0x1d), Q(0x04, 0x7b, 0x94, 0x19))
    requires x[2] == 0x4c4b4a49 && x[15] == 0x00803938
    ensures At(48, r, x, Q(0x2d, 0xbe, 0xe2, 0x1d), Q(0xf1, 0x66, 0xf5, 0x14), Q(0xee, 0x46, 0xe9, 0x61), Q(0xe9, 0x5c, 0x3a, 0x43))
  {
    hide Pow2, At;
    var a, b, c, d := Q(0xce, 0x62, 0x02, 0x73), Q(0xe9, 0x5c, 0x3a, 0x43), Q(0x2d, 0xbe, 0xe2, 0x1d), Q(0x04, 0x7b, 0x94, 0x19);
    a, b, c, d := Next(r, x, 46, 0x00803938, 0xc0994c47, 0xaf1e04ea, 0x04eaaf1e, Q(0xee, 0x46, 0xe9, 0x61), a, b, c, d);
    a, b, c, d := Next(r, x, 47, 0x4c4b4a49, 0x2aa4313f, 0x40176606, 0x03200bb3, Q(0xf1, 0x66, 0xf5, 0x14), a, b, c, d);
  }

  lemma First48(x: seq<Word>, r: Registers)
    requires At(48, r, x, Q(0x2d, 0xbe, 0xe2, 0x1d), Q(0xf1, 0x66, 0xf5, 0x14), Q(0xee, 0x46, 0xe9, 0x61), Q(0xe9, 0x5c, 0x3a, 0x43))
    requires x[0] == 0x44434241 && x[7] == 0x66656463
    ensures At(50, r, x, Q(0xee, 0x46, 0xe9, 0x61), Q(0xfb, 0x88, 0x77, 0x51), Q(0xe4, 0x7f, 0xd4, 0xf3), Q(0xf1, 0x66, 0xf5, 0x14))
  {
    hide Pow2, At;
    var a, b, c, d := Q(0x2d, 0xbe, 0xe2, 0x1d), Q(0xf1, 0x66, 0xf5, 0x14), Q(0xee, 0x46, 0xe9, 0x61), Q(0xe9, 0x5c, 0x3a, 0x43);
    a, b, c, d := Next(r, x, 48, 0x44434241, 0x19a11cdd, 0x7fcc637f, 0xf318dfdf, Q(0xe4, 0x7f, 0xd4, 0xf3), a, b, c, d);
    a, b, c, d := Next(r, x, 49, 0x66656463, 0x049923eb, 0x9785c228, 0x1708a25e, Q(0xfb, 0x88, 0x77, 0x51), a, b, c, d);
  }

  lemma First50(x: seq<Word>, r: Registers)
    requires At(50, r, x, Q(0xee, 0x46, 0xe9, 0x61), Q(0xfb, 0x88, 0x77, 0x51), Q(0xe4, 0x7f, 0xd4, 0xf3), Q(0xf1, 0x66, 0xf5, 0x14))
    requires x[5] == 0x58575655 && x[14] == 0x37363534
    ensures At(52, r, x, Q(0xe4, 0x7f, 0xd4, 0xf3), Q(0x7a, 0x13, 0xbc, 0x5c), Q(0xf2, 0x2a, 0xed, 0xcc), Q(0xfb, 0x88, 0x77, 0x51))
  {
    hide Pow2, At;
    var a, b, c, d := Q(0xee, 0x46, 0xe9, 0x61), Q(0xfb, 0x88, 0x77, 0x51), Q(0xe4, 0x7f, 0xd4, 0xf3), Q(0xf1, 0x66, 0xf5, 0x14);
    a, b, c, d := Next(r, x, 50, 0x37363534, 0x1be6ab08, 0xecf7ed44, 0xf6a2767b, Q(0xf2, 0x2a, 0xed, 0xcc), a, b, c, d);
    a, b, c, d := Next(r, x, 51, 0x58575655, 0x0022989d, 0x4674843f, 0x87e8ce90, Q(0x7a, 0x13, 0xbc, 0x5c), a, b, c, d);
  }

  lemma First52(x: seq<Word>, r: Registers)
    requires At(52, r, x, Q(0xe4, 0x7f, 0xd4, 0xf3), Q(0x7a, 0x13, 0xbc, 0x5c), Q(0xf2, 0x2a, 0xed, 0xcc), Q(0xfb, 0x88, 0x77, 0x51))
    requires x[3] == 0x504f4e4d && x[12] == 0x7a797877
    ensures At(54, r, x, Q(0xf2, 0x2a, 0xed, 0xcc), Q(0x52, 0x84, 0x52, 0xf2), Q(0xa6, 0x91, 0xd4, 0x30), Q(0x7a, 0x13, 0xbc, 0x5c))
  {
    hide Pow2, At;
    var a, b, c, d := Q(0xe4, 0x7f, 0xd4, 0xf3), Q(0x7a, 0x13, 0xbc, 0x5c), Q(0xf2, 0x2a, 0xed, 0xcc), Q(0xfb, 0x88, 0x77, 0x51);
    a, b, c, d := Next(r, x, 52, 0x7a797877, 0x8c5d5132, 0x50b1f85f, 0x2c7e17d4, Q(0xa6, 0x91, 0xd4, 0x30), a, b, c, d);
    a, b, c, d := Next(r, x, 53, 0x504f4e4d, 0xd5c66a6f, 0xb0aafc9f, 0xabf27ec2, Q(0x52, 0x84, 0x52, 0xf2), a, b, c, d);
  }

  lemma First54(x: seq<Word>, r: Registers)
    requires At(54, r, x, Q(0xf2, 0x2a, 0xed, 0xcc), Q(0x52, 0x84, 0x52, 0xf2), Q(0xa6, 0x91, 0xd4, 0x30), Q(0x7a, 0x13, 0xbc, 0x5c))
    requires x[1] == 0x48474645 && x[10] == 0x7271706f
    ensures At(56, r, x, Q(0xa6, 0x91, 0xd4, 0x30), Q(0xef, 0xb0, 0xe7, 0x2f), Q(0x3f, 0xc2, 0x3d, 0xf6), Q(0x52, 0x84, 0x52, 0xf2))
  {
    hide Pow2, At;
    var a, b, c, d := Q(0xf2, 0x2a, 0xed, 0xcc), Q(0x52, 0x84, 0x52, 0xf2), Q(0xa6, 0x91, 0xd4, 0x30), Q(0x7a, 0x13, 0xbc, 0x5c);
    a, b, c, d := Next(r, x, 54, 0x7271706f, 0x717d87c3, 0xd609da7b, 0xed3deb04, Q(0x3f, 0xc2, 0x3d, 0xf6), a, b, c, d);
    a, b, c, d := Next(r, x, 55, 0x48474645, 0x2d6a6d0d, 0x7549cd7f, 0xafeea939, Q(0xef, 0xb0, 0xe7, 0x2f), a, b, c, d);
  }

  lemma First56(x: seq<Word>, r: Registers)
    requires At(56, r, x, Q(0xa6, 0x91, 0xd4, 0x30), Q(0xef, 0xb0, 0xe7, 0x2f), Q(0x3f, 0xc2, 0x3d, 0xf6), Q(0x52, 0x84, 0x52, 0xf2))
    requires x[8] == 0x6a696867 && x[15] == 0x00803938
    ensures At(58, r, x, Q(0x3f, 0xc2, 0x3d, 0xf6), Q(0x21, 0xa1, 0x10, 0x69), Q(0x27, 0x14, 0x57, 0x03), Q(0xef, 0xb0, 0xe7, 0x2f))
  {
    hide Pow2, At;
    var a, b, c, d := Q(0xa6, 0x91, 0xd4, 0x30), Q(0xef, 0xb0, 0xe7, 0x2f), Q(0x3f, 0xc2, 0x3d, 0xf6), Q(0x52, 0x84, 0x52, 0xf2);
    a, b, c, d := Next(r, x, 56, 0x6a696867, 0xd039d2d9, 0x50dd8dbf, 0x37636fd4, Q(0x27, 0x14, 0x57, 0x03), a, b, c, d);
    a, b, c, d := Next(r, x, 57, 0x00803938, 0x088d3024, 0x59bea32e, 0xfa8cb966, Q(0x21, 0xa1, 0x10, 0x69), a, b, c, d);
  }

  lemma First58(x: seq<Word>, r: Registers)
    requires At(58, r, x, Q(0x3f, 0xc2, 0x3d, 0xf6), Q(0x21, 0xa1, 0x10, 0x69), Q(0x27, 0x14, 0x57, 0x03), Q(0xef, 0xb0, 0xe7, 0x2f))
    requires x[6] == 0x62615a59 && x[13] == 0x33323130
    ensures At(60, r, x, Q(0x27, 0x14, 0x57, 0x03), Q(0x49, 0xd9, 0xa5, 0xb4), Q(0x37, 0x4f, 0xbe, 0x79), Q(0x21, 0xa1, 0x10, 0x69))
  {
    hide Pow2, At;
    var a, b, c, d := Q(0x3f, 0xc2, 0x3d, 0xf6), Q(0x21, 0xa1, 0x10, 0x69), Q(0x27, 0x14, 0x57, 0x03), Q(0xef, 0xb0, 0xe7, 0x2f);
    a, b, c, d := Next(r, x, 58, 0x62615a59, 0x16fb4ffa, 0x5c202b5d, 0x15aeae10, Q(0x37, 0x4f, 0xbe, 0x79), a, b, c, d);
    a, b, c, d := Next(r, x, 59, 0x33323130, 0xde4eae94, 0x4f39d894, 0x1289e73b, Q(0x49, 0xd9, 0xa5, 0xb4), a, b, c, d);
  }

  lemma First60(x: seq<Word>, r: Registers)
    requires At(60, r, x, Q(0x27, 0x14, 0x57, 0x03), Q(0x49, 0xd9, 0xa5, 0xb4), Q(0x37, 0x4f, 0xbe, 0x79), Q(0x21, 0xa1, 0x10, 0x69))
    requires x[4] == 0x54535251 && x[11] == 0x76757473
    ensures At(62, r, x, Q(0x37, 0x4f, 0xbe, 0x79), Q(0xea, 0x3d, 0x3e, 0xb4), Q(0x1c, 0xb8, 0x0f, 0x0a), Q(0x49, 0xd9, 0xa5, 0xb4))
  {
    hide Pow2, At;
    var a, b, c, d := Q(0x27, 0x14, 0x57, 0x03), Q(0x49, 0xd9, 0xa5, 0xb4), Q(0x37, 0x4f, 0xbe, 0x79), Q(0x21, 0xa1, 0x10, 0x69);
    a, b, c, d := Next(r, x, 60, 0x54535251, 0xe89051cf, 0x5b4b79a5, 0xd2de6956, Q(0x1c, 0xb8, 0x0f, 0x0a), a, b, c, d);
    a, b, c, d := Next(r, x, 61, 0x76757473, 0x9561ea3a, 0xeab3614b, 0xcd852faa, Q(0xea, 0x3d, 0x3e, 0xb4), a, b, c, d);
  }

  lemma First62(x: seq<Word>, r: Registers)
    requires At(62, r, x, Q(0x37, 0x4f, 0xbe, 0x79), Q(0xea, 0x3d, 0x3e, 0xb4), Q(0x1c, 0xb8, 0x0f, 0x0a), Q(0x49, 0xd9, 0xa5, 0xb4))
    requires x[2] == 0x4c4b4a49 && x[9] == 0x6e6d6c6b
    ensures At(64, r, x, Q(0x1c, 0xb8, 0x0f, 0x0a), Q(0xef, 0x2e, 0x3a, 0x46), Q(0x10, 0xf6, 0x87, 0x31), Q(0xea, 0x3d, 0x3e, 0xb4))
  {
    hide Pow2, At;
    var a, b, c, d := Q(0x37, 0x4f, 0xbe, 0x79), Q(0xea, 0x3d, 0x3e, 0xb4), Q(0x1c, 0xb8, 0x0f, 0x0a), Q(0x49, 0xd9, 0xa5, 0xb4);
    a, b, c, d := Next(r, x, 62, 0x4c4b4a49, 0xe28771f5, 0x90fa4d72, 0x26b9487d, Q(0x10, 0xf6, 0x87, 0x31), a, b, c, d);
    a, b, c, d := Next(r, x, 63, 0x6e6d6c6b, 0x19cac941, 0xbd98aef1, 0xde37b315, Q(0xef, 0x2e, 0x3a, 0x46), a, b, c, d);
  }

  lemma Second0(x: seq<Word>, r: Registers)
    requires At(0, r, x, Q(0x83, 0xfd, 0x32, 0x0b), Q(0xde, 0xfb, 0xe5, 0xcf), Q(0xa9, 0xb1, 0x64, 0x2f), Q(0xfa, 0x6f, 0x93, 0x2a))
    requires x[0] == 0x00000000 && x[1] == 0x00000000
    ensures At(2, r, x, Q(0xa9, 0xb1, 0x64, 0x2f), Q(0x98, 0x99, 0x39, 0xcf), Q(0xed, 0xa2, 0x3e, 0xd1), Q(0xde, 0xfb, 0xe5, 0xcf))
  {
    hide Pow2, At;
    var a, b, c, d := Q(0x83, 0xfd, 0x32, 0x0b), Q(0xde, 0xfb, 0xe5, 0xcf), Q(0xa9, 0xb1, 0x64, 0x2f), Q(0xfa, 0x6f, 0x93, 0x2a);
    a, b, c, d := Next(r, x, 0, 0x00000000, 0xa8b5762f, 0x041d4cb2, 0x0ea65902, Q(0xed, 0xa2, 0x3e, 0xd1), a, b, c, d);
    a, b, c, d := Next(r, x, 1, 0x00000000, 0xccb364ef, 0xafeaaf6f, 0xaaf6fafe, Q(0x98, 0x99, 0x39, 0xcf), a, b, c, d);
  }

  lemma Second2(x: seq<Word>, r: Registers)
    requires At(2, r, x, Q(0xa9, 0xb1, 0x64, 0x2f), Q(0x98, 0x99, 0x39, 0xcf), Q(0xed, 0xa2, 0x3e, 0xd1), Q(0xde, 0xfb, 0xe5, 0xcf))
    requires x[2] == 0x00000000 && x[3] == 0x00000000
    ensures At(4, r, x, Q(0xed, 0xa2, 0x3e, 0xd1), Q(0xdd, 0xcf, 0x06, 0x34), Q(0x3c, 0x30, 0x73, 0x38), Q(0x98, 0x99, 0x39, 0xcf))
  {
    hide Pow2, At;
    var a, b, c, d := Q(0xa9, 0xb1, 0x64, 0x2f), Q(0x98, 0x99, 0x39, 0xcf), Q(0xed, 0xa2, 0x3e, 0xd1), Q(0xde, 0xfb, 0xe5, 0xcf);
    a, b, c, d := Next(r, x, 2, 0x00000000, 0xcee2fcc1, 0x9cb4d1cb, 0xa3973969, Q(0x3c, 0x30, 0x73, 0x38), a, b, c, d);
    a, b, c, d := Next(r, x, 3, 0x00000000, 0xd9923dc9, 0x7a4bf286, 0xa19e92fc, Q(0xdd, 0xcf, 0x06, 0x34), a, b, c, d);
  }

  lemma Second4(x: seq<Word>, r: Registers)
    requires At(4, r, x, Q(0xed, 0xa2, 0x3e, 0xd1), Q(0xdd, 0xcf, 0x06, 0x34), Q(0x3c, 0x30, 0x73, 0x38), Q(0x98, 0x99, 0x39, 0xcf))
    requires x[4] == 0x00000000 && x[5] == 0x00000000
    ensures At(6, r, x, Q(0x3c, 0x30, 0x73, 0x38), Q(0xc8, 0x87, 0x58, 0x07), Q(0x75, 0x14, 0x44, 0x33), Q(0xdd, 0xcf, 0x06, 0x34))
  {
    hide Pow2, At;
    var a, b, c, d := Q(0xed, 0xa2, 0x3e, 0xd1), Q(0xdd, 0xcf, 0x06, 0x34), Q(0x3c, 0x30, 0x73, 0x38), Q(0x98, 0x99, 0x39, 0xcf);
    a, b, c, d := Next(r, x, 4, 0x00000000, 0x1c103bfb, 0xff2e8a7b, 0x97453dff, Q(0x75, 0x14, 0x44, 0x33), a, b, c, d);
    a, b, c, d := Next(r, x, 5, 0x00000000, 0x5d243738, 0x3d453731, 0x537313d4, Q(0xc8, 0x87, 0x58, 0x07), a, b, c, d);
  }

  lemma Second6(x: seq<Word>, r: Registers)
    requires At(6, r, x, Q(0x3c, 0x30, 0x73, 0x38), Q(0xc8, 0x87, 0x58, 0x07), Q(0x75, 0x14, 0x44, 0x33), Q(0xdd, 0xcf, 0x06, 0x34))
    requires x[6] == 0x00000000 && x[7] == 0x00000000
    ensures At(8, r, x, Q(0x75, 0x14, 0x44, 0x33), Q(0x99, 0xb6, 0xb6, 0x99), Q(0xc7, 0x83, 0xcb, 0x60), Q(0xc8, 0x87, 0x58, 0x07))
  {
    hide Pow2, At;
    var a, b, c, d := Q(0x3c, 0x30, 0x73, 0x38), Q(0xc8, 0x87, 0x58, 0x07), Q(0x75, 0x14, 0x44, 0x33), Q(0xdd, 0xcf, 0x06, 0x34);
    a, b, c, d := Next(r, x, 6, 0x00000000, 0x554c4633, 0x39acff7e, 0xfefc7359, Q(0xc7, 0x83, 0xcb, 0x60), a, b, c, d);
    a, b, c, d := Next(r, x, 7, 0x00000000, 0xf0974c13, 0xcbace748, 0xd232eb39, Q(0x99, 0xb6, 0xb6, 0x99), a, b, c, d);
  }

  lemma Second8(x: seq<Word>, r: Registers)
    requires At(8, r, x, Q(0x75, 0x14, 0x44, 0x33), Q(0x99, 0xb6, 0xb6, 0x99), Q(0xc7, 0x83, 0xcb, 0x60), Q(0xc8, 0x87, 0x58, 0x07))
    requires x[8] == 0x00000000 && x[9] == 0x00000000
    ensures At(10, r, x, Q(0xc7, 0x83, 0xcb, 0x60), Q(0xaa, 0x66, 0x30, 0xbe), Q(0xa6, 0x0a, 0x3f, 0x69), Q(0x99, 0xb6, 0xb6, 0x99))
  {
    hide Pow2, At;
    var a, b, c, d := Q(0x75, 0x14, 0x44, 0x33), Q(0x99, 0xb6, 0xb6, 0x99), Q(0xc7, 0x83, 0xcb, 0x60), Q(0xc8, 0x87, 0x58, 0x07);
    a, b, c, d := Next(r, x, 8, 0x00000000, 0xc183ca06, 0xa018a711, 0x0c5388d0, Q(0xa6, 0x0a, 0x3f, 0x69), a, b, c, d);
    a, b, c, d := Next(r, x, 9, 0x00000000, 0xc183f609, 0x155045bf, 0x045bf155, Q(0xaa, 0x66, 0x30, 0xbe), a, b, c, d);
  }

  lemma Second10(x: seq<Word>, r: Registers)
    requires At(10, r, x, Q(0xc7, 0x83, 0xcb, 0x60), Q(0xaa, 0x66, 0x30, 0xbe), Q(0xa6, 0x0a, 0x3f, 0x69), Q(0x99, 0xb6, 0xb6, 0x99))
    requires x[10] == 0x00000000 && x[11] == 0x00000000
    ensures At(12, r, x, Q(0xa6, 0x0a, 0x3f, 0x69), Q(0x64, 0xcc, 0x7c, 0x5a), Q(0x64, 0xdb, 0x26, 0xe9), Q(0xaa, 0x66, 0x30, 0xbe))
  {
    hide Pow2, At;
    var a, b, c, d := Q(0xc7, 0x83, 0xcb, 0x60), Q(0xaa, 0x66, 0x30, 0xbe), Q(0xa6, 0x0a, 0x3f, 0x69), Q(0x99, 0xb6, 0xb6, 0x99);
    a, b, c, d := Next(r, x, 10, 0x00000000, 0xb392b629, 0x7b15dd3a, 0xba74f62b, Q(0x64, 0xdb, 0x26, 0xe9), a, b, c, d);
    a, b, c, d := Next(r, x, 11, 0x00000000, 0xa24239a8, 0xc555c7ff, 0xfff15571, Q(0x64, 0xcc, 0x7c, 0x5a), a, b, c, d);
  }

  lemma Second12(x: seq<Word>, r: Registers)
    requires At(12, r, x, Q(0xa6, 0x0a, 0x3f, 0x69), Q(0x64, 0xcc, 0x7c, 0x5a), Q(0x64, 0xdb, 0x26, 0xe9), Q(0xaa, 0x66, 0x30, 0xbe))
    requires x[12] == 0x00000000 && x[13] == 0x00000000
    ensures At(14, r, x, Q(0x64, 0xdb, 0x26, 0xe9), Q(0x54, 0x73, 0xf8, 0xa7), Q(0xa7, 0x07, 0x37, 0xda), Q(0x64, 0xcc, 0x7c, 0x5a))
  {
    hide Pow2, At;
    var a, b, c, d := Q(0xa6, 0x0a, 0x3f, 0x69), Q(0x64, 0xcc, 0x7c, 0x5a), Q(0x64, 0xdb, 0x26, 0xe9), Q(0xaa, 0x66, 0x30, 0xbe);
    a, b, c, d := Next(r, x, 12, 0x00000000, 0xeeea24ec, 0x00847577, 0x423abb80, Q(0xa7, 0x07, 0x37, 0xda), a, b, c, d);
    a, b, c, d := Next(r, x, 13, 0x00000000, 0x64dc347b, 0x0cdad6cc, 0xad6cc0cd, Q(0x54, 0x73, 0xf8, 0xa7), a, b, c, d);
  }

  lemma Second14(x: seq<Word>, r: Registers)
    requires At(14, r, x, Q(0x64, 0xdb, 0x26, 0xe9), Q(0x54, 0x73, 0xf8, 0xa7), Q(0xa7, 0x07, 0x37, 0xda), Q(0x64, 0xcc, 0x7c, 0x5a))
    requires x[14] == 0x000001f0 && x[15] == 0x00000000
    ensures At(16, r, x, Q(0xa7, 0x07, 0x37, 0xda), Q(0xa3, 0x6f, 0x55, 0x6f), Q(0x96, 0xf6, 0x58, 0x6e), Q(0x54, 0x73, 0xf8, 0xa7))
  {
    hide Pow2, At;
    var a, b, c, d := Q(0x64, 0xdb, 0x26, 0xe9), Q(0x54, 0x73, 0xf8, 0xa7), Q(0xa7, 0x07, 0x37, 0xda), Q(0x64, 0xcc, 0x7c, 0x5a);
    a, b, c, d := Next(r, x, 14, 0x000001f0, 0x248f34da, 0x2fe3a141, 0x42825fc7, Q(0x96, 0xf6, 0x58, 0x6e), a, b, c, d);
    a, b, c, d := Next(r, x, 15, 0x00000000, 0x35737fb6, 0xe3f40431, 0x0c78fd01, Q(0xa3, 0x6f, 0x55, 0x6f), a, b, c, d);
  }

  lemma Second16(x: seq<Word>, r: Registers)
    requires At(16, r, x, Q(0xa7, 0x07, 0x37, 0xda), Q(0xa3, 0x6f, 0x55, 0x6f), Q(0x96, 0xf6, 0x58, 0x6e), Q(0x54, 0x73, 0xf8, 0xa7))
    requires x[1] == 0x00000000 && x[6] == 0x00000000
    ensures At(18, r, x, Q(0x96, 0xf6, 0x58, 0x6e), Q(0x28, 0x77, 0x60, 0x46), Q(0xa5, 0x05, 0x0a, 0xd3), Q(0xa3, 0x6f, 0x55, 0x6f))
  {
    hide Pow2, At;
    var a, b, c, d := Q(0xa7, 0x07, 0x37, 0xda), Q(0xa3, 0x6f, 0x55, 0x6f), Q(0x96, 0xf6, 0x58, 0x6e), Q(0x54, 0x73, 0xf8, 0xa7);
    a, b, c, d := Next(r, x, 16, 0x00000000, 0x82e7506f, 0x200cadab, 0x0195b564, Q(0xa5, 0x05, 0x0a, 0xd3), a, b, c, d);
    a, b, c, d := Next(r, x, 17, 0x00000000, 0xa50d0d43, 0xb9c1b92a, 0x83725573, Q(0x28, 0x77, 0x60, 0x46), a, b, c, d);
  }

  lemma Second18(x: seq<Word>, r: Registers)
    requires At(18, r, x, Q(0x96, 0xf6, 0x58, 0x6e), Q(0x28, 0x77, 0x60, 0x46), Q(0xa5, 0x05, 0x0a, 0xd3), Q(0xa3, 0x6f, 0x55, 0x6f))
    requires x[0] == 0x00000000 && x[11] == 0x00000000
    ensures At(20, r, x, Q(0xa5, 0x05, 0x0a, 0xd3), Q(0x82, 0xb8, 0x82, 0x7c), Q(0x27, 0xdc, 0xd8, 0xb4), Q(0x28, 0x77, 0x60, 0x46))
  {
    hide Pow2, At;
    var a, b, c, d := Q(0x96, 0xf6, 0x58, 0x6e), Q(0x28, 0x77, 0x60, 0x46), Q(0xa5, 0x05, 0x0a, 0xd3), Q(0xa3, 0x6f, 0x55, 0x6f);
    a, b, c, d := Next(r, x, 18, 0x00000000, 0x24674ad6, 0xe1bbfd95, 0xff65786e, Q(0x27, 0xdc, 0xd8, 0xb4), a, b, c, d);
    a, b, c, d := Next(r, x, 19, 0x00000000, 0x2d766894, 0xba9c85ad, 0x5adba9c8, Q(0x82, 0xb8, 0x82, 0x7c), a, b, c, d);
  }

  lemma Second20(x: seq<Word>, r: Registers)
    requires At(20, r, x, Q(0xa5, 0x05, 0x0a, 0xd3), Q(0x82, 0xb8, 0x82, 0x7c), Q(0x27, 0xdc, 0xd8, 0xb4), Q(0x28, 0x77, 0x60, 0x46))
    requires x[5] == 0x00000000 && x[10] == 0x00000000
    ensures At(22, r, x, Q(0x27, 0xdc, 0xd8, 0xb4), Q(0x2f, 0x3c, 0xd2, 0xa2), Q(0xe0, 0x4f, 0x07, 0x0c), Q(0x82, 0xb8, 0x82, 0x7c))
  {
    hide Pow2, At;
    var a, b, c, d := Q(0xa5, 0x05, 0x0a, 0xd3), Q(0x82, 0xb8, 0x82, 0x7c), Q(0x27, 0xdc, 0xd8, 0xb4), Q(0x28, 0x77, 0x60, 0x46);
    a, b, c, d := Next(r, x, 20, 0x00000000, 0x07b898f4, 0x82ecb424, 0x5d968490, Q(0xe0, 0x4f, 0x07, 0x0c), a, b, c, d);
    a, b, c, d := Next(r, x, 21, 0x00000000, 0xa06c024c, 0xcb2776e5, 0x4eedcb96, Q(0x2f, 0x3c, 0xd2, 0xa2), a, b, c, d);
  }

  lemma Second22(x: seq<Word>, r: Registers)
    requires At(22, r, x, Q(0x27, 0xdc, 0xd8, 0xb4), Q(0x2f, 0x3c, 0xd2, 0xa2), Q(0xe0, 0x4f, 0x07, 0x0c), Q(0x82, 0xb8, 0x82, 0x7c))
    requires x[4] == 0x00000000 && x[15] == 0x00000000
    ensures At(24, r, x, Q(0xe0, 0x4f, 0x07, 0x0c), Q(0xdf, 0x35, 0xcb, 0x56), Q(0xc0, 0xd2, 0x2b, 0x61), Q(0x2f, 0x3c, 0xd2, 0xa2))
  {
    hide Pow2, At;
    var a, b, c, d := Q(0x27, 0xdc, 0xd8, 0xb4), Q(0x2f, 0x3c, 0xd2, 0xa2), Q(0xe0, 0x4f, 0x07, 0x0c), Q(0x82, 0xb8, 0x82, 0x7c);
    a, b, c, d := Next(r, x, 22, 0x00000000, 0x627f8720, 0x62fe4655, 0x919558bf, Q(0xc0, 0xd2, 0x2b, 0x61), a, b, c, d);
    a, b, c, d := Next(r, x, 23, 0x00000000, 0xcf72d3a2, 0x39ff51e6, 0x1e639ff5, Q(0xdf, 0x35, 0xcb, 0x56), a, b, c, d);
  }

  lemma Second24(x: seq<Word>, r: Registers)
    requires At(24, r, x, Q(0xe0, 0x4f, 0x07, 0x0c), Q(0xdf, 0x35, 0xcb, 0x56), Q(0xc0, 0xd2, 0x2b, 0x61), Q(0x2f, 0x3c, 0xd2, 0xa2))
    requires x[9] == 0x00000000 && x[14] == 0x000001f0
    ensures At(26, r, x, Q(0xc0, 0xd2, 0x2b, 0x61), Q(0x57, 0x6a, 0xce, 0x33), Q(0x24, 0x2d, 0xd2, 0x10), Q(0xdf, 0x35, 0xcb, 0x56))
  {
    hide Pow2, At;
    var a, b, c, d := Q(0xe0, 0x4f, 0x07, 0x0c), Q(0xdf, 0x35, 0xcb, 0x56), Q(0xc0, 0xd2, 0x2b, 0x61), Q(0x2f, 0x3c, 0xd2, 0xa2);
    a, b, c, d := Next(r, x, 24, 0x00000000, 0xcff6eb43, 0xd227c035, 0x44f806ba, Q(0x24, 0x2d, 0xd2, 0x10), a, b, c, d);
    a, b, c, d := Next(r, x, 25, 0x000001f0, 0x1f25c216, 0x11999e7e, 0x333cfc23, Q(0x57, 0x6a, 0xce, 0x33), a, b, c, d);
  }

  lemma Second26(x: seq<Word>, r: Registers)
    requires At(26, r, x, Q(0xc0, 0xd2, 0x2b, 0x61), Q(0x57, 0x6a, 0xce, 0x33), Q(0x24, 0x2d, 0xd2, 0x10), Q(0xdf, 0x35, 0xcb, 0x56))
    requires x[3] == 0x00000000 && x[8] == 0x00000000
    ensures At(28, r, x, Q(0x24, 0x2d, 0xd2, 0x10), Q(0x22, 0x91, 0x19, 0x1a), Q(0x5c, 0x29, 0x59, 0x67), Q(0x57, 0x6a, 0xce, 0x33))
  {
    hide Pow2, At;
    var a, b, c, d := Q(0xc0, 0xd2, 0x2b, 0x61), Q(0x57, 0x6a, 0xce, 0x33), Q(0x24, 0x2d, 0xd2, 0x10), Q(0xdf, 0x35, 0xcb, 0x56);
    a, b, c, d := Next(r, x, 26, 0x00000000, 0x7728da12, 0x2cd012fa, 0x04be8b34, Q(0x5c, 0x29, 0x59, 0x67), a, b, c, d);
    a, b, c, d := Next(r, x, 27, 0x00000000, 0x576b5c23, 0x7bfb3c66, 0xc667bfb3, Q(0x22, 0x91, 0x19, 0x1a), a, b, c, d);
  }

  lemma Second28(x: seq<Word>, r: Registers)
    requires At(28, r, x, Q(0x24, 0x2d, 0xd2, 0x10), Q(0x22, 0x91, 0x19, 0x1a), Q(0x5c, 0x29, 0x59, 0x67), Q(0x57, 0x6a, 0xce, 0x33))
    requires x[2] == 0x00000000 && x[13] == 0x00000000
    ensures At(30, r, x, Q(0x5c, 0x29, 0x59, 0x67), Q(0x4b, 0xd0, 0x37, 0x8b), Q(0x24, 0xeb, 0xa6, 0x95), Q(0x22, 0x91, 0x19, 0x1a))
  {
    hide Pow2, At;
    var a, b, c, d := Q(0x24, 0x2d, 0xd2, 0x10), Q(0x22, 0x91, 0x19, 0x1a), Q(0x5c, 0x29, 0x59, 0x67), Q(0x57, 0x6a, 0xce, 0x33);
    a, b, c, d := Next(r, x, 28, 0x00000000, 0x0a011956, 0xd812d46b, 0x025a8d7b, Q(0x24, 0xeb, 0xa6, 0x95), a, b, c, d);
    a, b, c, d := Next(r, x, 29, 0x00000000, 0x26b9001d, 0x7b137248, 0x26e490f6, Q(0x4b, 0xd0, 0x37, 0x8b), a, b, c, d);
  }

  lemma Second30(x: seq<Word>, r: Registers)
    requires At(30, r, x, Q(0x5c, 0x29, 0x59, 0x67), Q(0x4b, 0xd0, 0x37, 0x8b), Q(0x24, 0xeb, 0xa6, 0x95), Q(0x22, 0x91, 0x19, 0x1a))
    requires x[7] == 0x00000000 && x[12] == 0x00000000
    ensures At(32, r, x, Q(0x24, 0xeb, 0xa6, 0x95), Q(0x9c, 0x03, 0xe2, 0xe8), Q(0x10, 0xc4, 0x2a, 0x2f), Q(0x4b, 0xd0, 0x37, 0x8b))
  {
    hide Pow2, At;
    var a, b, c, d := Q(0x5c, 0x29, 0x59, 0x67), Q(0x4b, 0xd0, 0x37, 0x8b), Q(0x24, 0xeb, 0xa6, 0x95), Q(0x22, 0x91, 0x19, 0x1a);
    a, b, c, d := Next(r, x, 30, 0x00000000, 0x06fab78f, 0xca9313cf, 0xc4f3f2a4, Q(0x10, 0xc4, 0x2a, 0x2f), a, b, c, d);
    a, b, c, d := Next(r, x, 31, 0x00000000, 0x4bd0330f, 0xfb8b98b3, 0x8b3fb8b9, Q(0x9c, 0x03, 0xe2, 0xe8), a, b, c, d);
  }

  lemma Second32(x: seq<Word>, r: Registers)
    requires At(32, r, x, Q(0x24, 0xeb, 0xa6, 0x95), Q(0x9c, 0x03, 0xe2, 0xe8), Q(0x10, 0xc4, 0x2a, 0x2f), Q(0x4b, 0xd0, 0x37, 0x8b))
    requires x[5] == 0x00000000 && x[8] == 0x00000000
    ensures At(34, r, x, Q(0x10, 0xc4, 0x2a, 0x2f), Q(0x9e, 0x41, 0x42, 0x79), Q(0x5b, 0xe1, 0xd5, 0x26), Q(0x9c, 0x03, 0xe2, 0xe8))
  {
    hide Pow2, At;
    var a, b, c, d := Q(0x24, 0xeb, 0xa6, 0x95), Q(0x9c, 0x03, 0xe2, 0xe8), Q(0x10, 0xc4, 0x2a, 0x2f), Q(0x4b, 0xd0, 0x37, 0x8b);
    a, b, c, d := Next(r, x, 32, 0x00000000, 0xc717ff4c, 0xebfddf23, 0xbfddf23e, Q(0x5b, 0xe1, 0xd5, 0x26), a, b, c, d);
    a, b, c, d := Next(r, x, 33, 0x00000000, 0xd7261de1, 0xaa684bed, 0x425f6d53, Q(0x9e, 0x41, 0x42, 0x79), a, b, c, d);
  }

  lemma Second34(x: seq<Word>, r: Registers)
    requires At(34, r, x, Q(0x10, 0xc4, 0x2a, 0x2f), Q(0x9e, 0x41, 0x42, 0x79), Q(0x5b, 0xe1, 0xd5, 0x26), Q(0x9c, 0x03, 0xe2, 0xe8))
    requires x[11] == 0x00000000 && x[14] == 0x000001f0
    ensures At(36, r, x, Q(0x5b, 0xe1, 0xd5, 0x26), Q(0xa2, 0x44, 0x84, 0x53), Q(0x9f, 0x4a, 0x1a, 0x7e), Q(0x9e, 0x41, 0x42, 0x79))
  {
    hide Pow2, At;
    var a, b, c, d := Q(0x10, 0xc4, 0x2a, 0x2f), Q(0x9e, 0x41, 0x42, 0x79), Q(0x5b, 0xe1, 0xd5, 0x26), Q(0x9c, 0x03, 0xe2, 0xe8);
    a, b, c, d := Next(r, x, 34, 0x00000000, 0x59a375b7, 0xd8050108, 0x0108d805, Q(0x9f, 0x4a, 0x1a, 0x7e), a, b, c, d);
    a, b, c, d := Next(r, x, 35, 0x000001f0, 0x5aea8d21, 0xf4d3aa05, 0x02fa69d5, Q(0xa2, 0x44, 0x84, 0x53), a, b, c, d);
  }

  lemma Second36(x: seq<Word>, r: Registers)
    requires At(36, r, x, Q(0x5b, 0xe1, 0xd5, 0x26), Q(0xa2, 0x44, 0x84, 0x53), Q(0x9f, 0x4a, 0x1a, 0x7e), Q(0x9e, 0x41, 0x42, 0x79))
    requires x[1] == 0x00000000 && x[4] == 0x00000000
    ensures At(38, r, x, Q(0x9f, 0x4a, 0x1a, 0x7e), Q(0xe8, 0xcf, 0xd6, 0x70), Q(0xe1, 0x4e, 0x40, 0x3d), Q(0xa2, 0x44, 0x84, 0x53))
  {
    hide Pow2, At;
    var a, b, c, d := Q(0x5b, 0xe1, 0xd5, 0x26), Q(0xa2, 0x44, 0x84, 0x53), Q(0x9f, 0x4a, 0x1a, 0x7e), Q(0x9e, 0x41, 0x42, 0x79);
    a, b, c, d := Next(r, x, 36, 0x00000000, 0xa34fdc54, 0xa3f09bbe, 0x3f09bbea, Q(0xe1, 0x4e, 0x40, 0x3d), a, b, c, d);
    a, b, c, d := Next(r, x, 37, 0x00000000, 0xdc40de10, 0xc660f032, 0x07819633, Q(0xe8, 0xcf, 0xd6, 0x70), a, b, c, d);
  }

  lemma Second38(x: seq<Word>, r: Registers)
    requires At(38, r, x, Q(0x9f, 0x4a, 0x1a, 0x7e), Q(0xe8, 0xcf, 0xd6, 0x70), Q(0xe1, 0x4e, 0x40, 0x3d), Q(0xa2, 0x44, 0x84, 0x53))
    requires x[7] == 0x00000000 && x[10] == 0x00000000
    ensures At(40, r, x, Q(0xe1, 0x4e, 0x40, 0x3d), Q(0xfe, 0x31, 0x41, 0x21), Q(0x60, 0xcc, 0x18, 0x3a), Q(0xe8, 0xcf, 0xd6, 0x70))
  {
    hide Pow2, At;
    var a, b, c, d := Q(0x9f, 0x4a, 0x1a, 0x7e), Q(0xe8, 0xcf, 0xd6, 0x70), Q(0xe1, 0x4e, 0x40, 0x3d), Q(0xa2, 0x44, 0x84, 0x53);
    a, b, c, d := Next(r, x, 38, 0x00000000, 0xabc5121e, 0x41ca77fc, 0x77fc41ca, Q(0x60, 0xcc, 0x18, 0x3a), a, b, c, d);
    a, b, c, d := Next(r, x, 39, 0x00000000, 0x694d8e77, 0xca51cf3a, 0x9d6528e7, Q(0xfe, 0x31, 0x41, 0x21), a, b, c, d);
  }

  lemma Second40(x: seq<Word>, r: Registers)
    requires At(40, r, x, Q(0xe1, 0x4e, 0x40, 0x3d), Q(0xfe, 0x31, 0x41, 0x21), Q(0x60, 0xcc, 0x18, 0x3a), Q(0xe8, 0xcf, 0xd6, 0x70))
    requires x[0] == 0x00000000 && x[13] == 0x00000000
    ensures At(42, r, x, Q(0x60, 0xcc, 0x18, 0x3a), Q(0xe3, 0x72, 0x09, 0xac), Q(0xff, 0xf6, 0x28, 0x09), Q(0xfe, 0x31, 0x41, 0x21))
  {
    hide Pow2, At;
    var a, b, c, d := Q(0xe1, 0x4e, 0x40, 0x3d), Q(0xfe, 0x31, 0x41, 0x21), Q(0x60, 0xcc, 0x18, 0x3a), Q(0xe8, 0xcf, 0xd6, 0x70);
    a, b, c, d := Next(r, x, 40, 0x00000000, 0x76328f6b, 0x801c4e6e, 0x01c4e6e8, Q(0xff, 0xf6, 0x28, 0x09), a, b, c, d);
    a, b, c, d := Next(r, x, 41, 0x00000000, 0x610b7112, 0x347c6f7c, 0xe37be1a3, Q(0xe3, 0x72, 0x09, 0xac), a, b, c, d);
  }

  lemma Second42(x: seq<Word>, r: Registers)
    requires At(42, r, x, Q(0x60, 0xcc, 0x18, 0x3a), Q(0xe3, 0x72, 0x09, 0xac), Q(0xff, 0xf6, 0x28, 0x09), Q(0xfe, 0x31, 0x41, 0x21))
    requires x[3] == 0x00000000 && x[6] == 0x00000000
    ensures At(44, r, x, Q(0xff, 0xf6, 0x28, 0x09), Q(0x7c, 0x7e, 0x97, 0x4c), Q(0x8c, 0xb5, 0x22, 0x1c), Q(0xe3, 0x72, 0x09, 0xac))
  {
    hide Pow2, At;
    var a, b, c, d := Q(0x60, 0xcc, 0x18, 0x3a), Q(0xe3, 0x72, 0x09, 0xac), Q(0xff, 0xf6, 0x28, 0x09), Q(0xfe, 0x31, 0x41, 0x21);
    a, b, c, d := Next(r, x, 42, 0x00000000, 0xe2b56084, 0x1870a943, 0xa9431870, Q(0x8c, 0xb5, 0x22, 0x1c), a, b, c, d);
    a, b, c, d := Next(r, x, 43, 0x00000000, 0x903103b9, 0x92ea61df, 0xefc97530, Q(0x7c, 0x7e, 0x97, 0x4c), a, b, c, d);
  }

  lemma Second44(x: seq<Word>, r: Registers)
    requires At(44, r, x, Q(0xff, 0xf6, 0x28, 0x09), Q(0x7c, 0x7e, 0x97, 0x4c), Q(0x8c, 0xb5, 0x22, 0x1c), Q(0xe3, 0x72, 0x09, 0xac))
    requires x[9] == 0x00000000 && x[12] == 0x00000000
    ensures At(46, r, x, Q(0x8c, 0xb5, 0x22, 0x1c), Q(0xd4, 0xd9, 0xc6, 0xac), Q(0x54, 0xc9, 0xeb, 0x3a), Q(0x7c, 0x7e, 0x97, 0x4c))
  {
    hide Pow2, At;
    var a, b, c, d := Q(0xff, 0xf6, 0x28, 0x09), Q(0x7c, 0x7e, 0x97, 0x4c), Q(0x8c, 0xb5, 0x22, 0x1c), Q(0xe3, 0x72, 0x09, 0xac);
    a, b, c, d := Next(r, x, 44, 0x00000000, 0x13b9bcfc, 0xed84b53e, 0xd84b53ee, Q(0x54, 0xc9, 0xeb, 0x3a), a, b, c, d);
    a, b, c, d := Next(r, x, 45, 0x00000000, 0xa4025e6a, 0x6e5001fb, 0x800fdb72, Q(0xd4, 0xd9, 0xc6, 0xac), a, b, c, d);
  }

  lemma Second46(x: seq<Word>, r: Registers)
    requires At(46, r, x, Q(0x8c, 0xb5, 0x22, 0x1c), Q(0xd4, 0xd9, 0xc6, 0xac), Q(0x54, 0xc9, 0xeb, 0x3a), Q(0x7c, 0x7e, 0x97, 0x4c))
    requires x[2] == 0x00000000 && x[15] == 0x00000000
    ensures At(48, r, x, Q(0x54, 0xc9, 0xeb, 0x3a), Q(0x79, 0xc0, 0x71, 0x0a), Q(0x2e, 0xc8, 0x6f, 0x72), Q(0xd4, 0xd9, 0xc6, 0xac))
  {
    hide Pow2, At;
    var a, b, c, d := Q(0x8c, 0xb5, 0x22, 0x1c), Q(0xd4, 0xd9, 0xc6, 0xac), Q(0x54, 0xc9, 0xeb, 0x3a), Q(0x7c, 0x7e, 0x97, 0x4c);
    a, b, c, d := Next(r, x, 46, 0x00000000, 0xfc6ebada, 0xa8c659ee, 0x59eea8c6, Q(0x2e, 0xc8, 0x6f, 0x72), a, b, c, d);
    a, b, c, d := Next(r, x, 47, 0x00000000, 0xaed842e4, 0xf0033095, 0x4af80198, Q(0x79, 0xc0, 0x71, 0x0a), a, b, c, d);
  }

  lemma Second48(x: seq<Word>, r: Registers)
    requires At(48, r, x, Q(0x54, 0xc9, 0xeb, 0x3a), Q(0x79, 0xc0, 0x71, 0x0a), Q(0x2e, 0xc8, 0x6f, 0x72), Q(0xd4, 0xd9, 0xc6, 0xac))
    requires x[0] == 0x00000000 && x[7] == 0x00000000
    ensures At(50, r, x, Q(0x2e, 0xc8, 0x6f, 0x72), Q(0x13, 0xd2, 0x45, 0xfd), Q(0x02, 0x09, 0x5a, 0xf1), Q(0x79, 0xc0, 0x71, 0x0a))
  {
    hide Pow2, At;
    var a, b, c, d := Q(0x54, 0xc9, 0xeb, 0x3a), Q(0x79, 0xc0, 0x71, 0x0a), Q(0x2e, 0xc8, 0x6f, 0x72), Q(0xd4, 0xd9, 0xc6, 0xac);
    a, b, c, d := Next(r, x, 48, 0x00000000, 0x552e1629, 0x9e2123a7, 0x8848e9e7, Q(0x02, 0x09, 0x5a, 0xf1), a, b, c, d);
    a, b, c, d := Next(r, x, 49, 0x00000000, 0xaaffabf7, 0xc304723a, 0x11c8eb0c, Q(0x13, 0xd2, 0x45, 0xfd), a, b, c, d);
  }

  lemma Second50(x: seq<Word>, r: Registers)
    requires At(50, r, x, Q(0x2e, 0xc8, 0x6f, 0x72), Q(0x13, 0xd2, 0x45, 0xfd), Q(0x02, 0x09, 0x5a, 0xf1), Q(0x79, 0xc0, 0x71, 0x0a))
    requires x[5] == 0x00000000 && x[14] == 0x000001f0
    ensures At(52, r, x, Q(0x02, 0x09, 0x5a, 0xf1), Q(0x2b, 0xa9, 0x8e, 0x3f), Q(0xa8, 0xdc, 0xfe, 0x26), Q(0x13, 0xd2, 0x45, 0xfd))
  {
    hide Pow2, At;
    var a, b, c, d := Q(0x2e, 0xc8, 0x6f, 0x72), Q(0x13, 0xd2, 0x45, 0xfd), Q(0x02, 0x09, 0x5a, 0xf1), Q(0x79, 0xc0, 0x71, 0x0a);
    a, b, c, d := Next(r, x, 50, 0x000001f0, 0x95f6950c, 0x70532a15, 0x950ab829, Q(0xa8, 0xdc, 0xfe, 0x26), a, b, c, d);
    a, b, c, d := Next(r, x, 51, 0x00000000, 0xee2cbad3, 0x6480cc16, 0x82cc9019, Q(0x2b, 0xa9, 0x8e, 0x3f), a, b, c, d);
  }

  lemma Second52(x: seq<Word>, r: Registers)
    requires At(52, r, x, Q(0x02, 0x09, 0x5a, 0xf1), Q(0x2b, 0xa9, 0x8e, 0x3f), Q(0xa8, 0xdc, 0xfe, 0x26), Q(0x13, 0xd2, 0x45, 0xfd))
    requires x[3] == 0x00000000 && x[12] == 0x00000000
    ensures At(54, r, x, Q(0xa8, 0xdc, 0xfe, 0x26), Q(0x96, 0xb0, 0x0f, 0xa7), Q(0xe1, 0x26, 0xc1, 0xaa), Q(0x2b, 0xa9, 0x8e, 0x3f))
  {
    hide Pow2, At;
    var a, b, c, d := Q(0x02, 0x09, 0x5a, 0xf1), Q(0x2b, 0xa9, 0x8e, 0x3f), Q(0xa8, 0xdc, 0xfe, 0x26), Q(0x13, 0xd2, 0x45, 0xfd);
    a, b, c, d := Next(r, x, 52, 0x00000000, 0x47714019, 0xaed5f4cd, 0xb57d336b, Q(0xe1, 0x26, 0xc1, 0xaa), a, b, c, d);
    a, b, c, d := Next(r, x, 53, 0x00000000, 0xdc8e4fc4, 0x7f6d6253, 0xb5894dfd, Q(0x96, 0xb0, 0x0f, 0xa7), a, b, c, d);
  }

  lemma Second54(x: seq<Word>, r: Registers)
    requires At(54, r, x, Q(0xa8, 0xdc, 0xfe, 0x26), Q(0x96, 0xb0, 0x0f, 0xa7), Q(0xe1, 0x26, 0xc1, 0xaa), Q(0x2b, 0xa9, 0x8e, 0x3f))
    requires x[1] == 0x00000000 && x[10] == 0x00000000
    ensures At(56, r, x, Q(0xe1, 0x26, 0xc1, 0xaa), Q(0xfb, 0x7b, 0xce, 0xe0), Q(0x6f, 0x28, 0x7f, 0xf5), Q(0x96, 0xb0, 0x0f, 0xa7))
  {
    hide Pow2, At;
    var a, b, c, d := Q(0xa8, 0xdc, 0xfe, 0x26), Q(0x96, 0xb0, 0x0f, 0xa7), Q(0xe1, 0x26, 0xc1, 0xaa), Q(0x2b, 0xa9, 0x8e, 0x3f);
    a, b, c, d := Next(r, x, 54, 0x00000000, 0x37d0be4d, 0xe09db0f0, 0xd878704e, Q(0x6f, 0x28, 0x7f, 0xf5), a, b, c, d);
    a, b, c, d := Next(r, x, 55, 0x00000000, 0xe9497052, 0x9a775c62, 0x8c534eeb, Q(0xfb, 0x7b, 0xce, 0xe0), a, b, c, d);
  }

  lemma Second56(x: seq<Word>, r: Registers)
    requires At(56, r, x, Q(0xe1, 0x26, 0xc1, 0xaa), Q(0xfb, 0x7b, 0xce, 0xe0), Q(0x6f, 0x28, 0x7f, 0xf5), Q(0x96, 0xb0, 0x0f, 0xa7))
    requires x[8] == 0x00000000 && x[15] == 0x00000000
    ensures At(58, r, x, Q(0x6f, 0x28, 0x7f, 0xf5), Q(0xca, 0x80, 0x1b, 0xa6), Q(0x45, 0x2c, 0x10, 0x99), Q(0xfb, 0x7b, 0xce, 0xe0))
  {
    hide Pow2, At;
    var a, b, c, d := Q(0xe1, 0x26, 0xc1, 0xaa), Q(0xfb, 0x7b, 0xce, 0xe0), Q(0x6f, 0x28, 0x7f, 0xf5), Q(0x96, 0xb0, 0x0f, 0xa7);
    a, b, c, d := Next(r, x, 56, 0x00000000, 0x9457810d, 0xe526c106, 0x49b041b9, Q(0x45, 0x2c, 0x10, 0x99), a, b, c, d);
    a, b, c, d := Next(r, x, 57, 0x00000000, 0x2e845e7b, 0xc3615502, 0x85540b0d, Q(0xca, 0x80, 0x1b, 0xa6), a, b, c, d);
  }

  lemma Second58(x: seq<Word>, r: Registers)
    requires At(58, r, x, Q(0x6f, 0x28, 0x7f, 0xf5), Q(0xca, 0x80, 0x1b, 0xa6), Q(0x45, 0x2c, 0x10, 0x99), Q(0xfb, 0x7b, 0xce, 0xe0))
    requires x[6] == 0x00000000 && x[13] == 0x00000000
    ensures At(60, r, x, Q(0x45, 0x2c, 0x10, 0x99), Q(0x5a, 0xc7, 0x46, 0x08), Q(0xc1, 0x97, 0xea, 0x8e), Q(0xca, 0x80, 0x1b, 0xa6))
  {
    hide Pow2, At;
    var a, b, c, d := Q(0x6f, 0x28, 0x7f, 0xf5), Q(0xca, 0x80, 0x1b, 0xa6), Q(0x45, 0x2c, 0x10, 0x99), Q(0xfb, 0x7b, 0xce, 0xe0);
    a, b, c, d := Next(r, x, 58, 0x00000000, 0x8ba82b26, 0x9dd1ee2f, 0xf717cee8, Q(0xc1, 0x97, 0xea, 0x8e), a, b, c, d);
    a, b, c, d := Next(r, x, 59, 0x00000000, 0x3157f448, 0x7adbd4c9, 0x992f5b7a, Q(0x5a, 0xc7, 0x46, 0x08), a, b, c, d);
  }

  lemma Second60(x: seq<Word>, r: Registers)
    requires At(60, r, x, Q(0x45, 0x2c, 0x10, 0x99), Q(0x5a, 0xc7, 0x46, 0x08), Q(0xc1, 0x97, 0xea, 0x8e), Q(0xca, 0x80, 0x1b, 0xa6))
    requires x[4] == 0x00000000 && x[11] == 0x00000000
    ensures At(62, r, x, Q(0xc1, 0x97, 0xea, 0x8e), Q(0xa5, 0x2d, 0xae, 0x75), Q(0x14, 0xae, 0x42, 0xc6), Q(0x5a, 0xc7, 0x46, 0x08))
  {
    hide Pow2, At;
    var a, b, c, d := Q(0x45, 0x2c, 0x10, 0x99), Q(0x5a, 0xc7, 0x46, 0x08), Q(0xc1, 0x97, 0xea, 0x8e), Q(0xca, 0x80, 0x1b, 0xa6);
    a, b, c, d := Next(r, x, 60, 0x00000000, 0xbe680cd7, 0xfae79bf2, 0xb9e6fcbe, Q(0x14, 0xae, 0x42, 0xc6), a, b, c, d);
    a, b, c, d := Next(r, x, 61, 0x00000000, 0x642911ff, 0xebe41fda, 0x907f6baf, Q(0xa5, 0x2d, 0xae, 0x75), a, b, c, d);
  }

  lemma Second62(x: seq<Word>, r: Registers)
    requires At(62, r, x, Q(0xc1, 0x97, 0xea, 0x8e), Q(0xa5, 0x2d, 0xae, 0x75), Q(0x14, 0xae, 0x42, 0xc6), Q(0x5a, 0xc7, 0x46, 0x08))
    requires x[2] == 0x00000000 && x[9] == 0x00000000
    ensures At(64, r, x, Q(0x14, 0xae, 0x42, 0xc6), Q(0x16, 0xdd, 0x92, 0x03), Q(0x82, 0x6a, 0xfd, 0x76), Q(0xa5, 0x2d, 0xae, 0x75))
  {
    hide Pow2, At;
    var a, b, c, d := Q(0xc1, 0x97, 0xea, 0x8e), Q(0xa5, 0x2d, 0xae, 0x75), Q(0x14, 0xae, 0x42, 0xc6), Q(0x5a, 0xc7, 0x46, 0x08);
    a, b, c, d := Next(r, x, 62, 0x00000000, 0xb193fd31, 0x9e03ba7a, 0xdd3d4f01, Q(0x82, 0x6a, 0xfd, 0x76), a, b, c, d);
    a, b, c, d := Next(r, x, 63, 0x00000000, 0x4e56530a, 0x94a46ca3, 0x9472948d, Q(0x16, 0xdd, 0x92, 0x03), a, b, c, d);
  }

  lemma FirstRounds(x: seq<Word>, r: Registers)
    requires FirstWords(x)
    requires r == Quads(Q(0x67, 0x45, 0x23, 0x01), Q(0xef, 0xcd, 0xab, 0x89),
                      Q(0x98, 0xba, 0xdc, 0xfe), Q(0x10, 0x32, 0x54, 0x76))
    ensures At(64, r, x, Q(0x1c, 0xb8, 0x0f, 0x0a), Q(0xef, 0x2e, 0x3a, 0x46), Q(0x10, 0xf6, 0x87, 0x31), Q(0xea, 0x3d, 0x3e, 0xb4))
  {
    assert Operations(0, r, x) == r;
    assert At(0, r, x, Q(0x67, 0x45, 0x23, 0x01), Q(0xef, 0xcd, 0xab, 0x89), Q(0x98, 0xba, 0xdc, 0xfe), Q(0x10, 0x32, 0x54, 0x76));
    hide At, Quads;
    First0(x, r);
    First2(x, r);
    First4(x, r);
    First6(x, r);
    First8(x, r);
    First10(x, r);
    First12(x, r);
    First14(x, r);
    First16(x, r);
    First18(x, r);
    First20(x, r);
    First22(x, r);
    First24(x, r);
    First26(x, r);
    First28(x, r);
    First30(x, r);
    First32(x, r);
    First34(x, r);
    First36(x, r);
    First38(x, r);
    First40(x, r);
    First42(x, r);
    First44(x, r);
    First46(x, r);
    First48(x, r);
    First50(x, r);
    First52(x, r);
    First54(x, r);
    First56(x, r);
    First58(x, r);
    First60(x, r);
    First62(x, r);
  }

  lemma FirstStart()
    ensures Registers(0x67452301, 0xefcdab89, 0x98badcfe, 0x10325476)
         == Quads(Q(0x67, 0x45, 0x23, 0x01), Q(0xef, 0xcd, 0xab, 0x89),
                  Q(0x98, 0xba, 0xdc, 0xfe), Q(0x10, 0x32, 0x54, 0x76))
  {
  }

  lemma FirstEnd()
    ensures Quads(Q(0x1c, 0xb8, 0x0f, 0x0a), Q(0xef, 0x2e, 0x3a, 0x46),
                  Q(0x10, 0xf6, 0x87, 0x31), Q(0xea, 0x3d, 0x3e, 0xb4))
         == Registers(0x1cb80f0a, 0xef2e3a46, 0x10f68731, 0xea3d3eb4)
  {
  }

  lemma FirstSum()
    ensures AddRegisters(Registers(0x67452301, 0xefcdab89, 0x98badcfe, 0x10325476),
                         Registers(0x1cb80f0a, 0xef2e3a46, 0x10f68731, 0xea3d3eb4))
         == Registers(0x83fd320b, 0xdefbe5cf, 0xa9b1642f, 0xfa6f932a)
  {
  }

  lemma FirstBlock(x: seq<Word>, r: Registers)
    requires FirstWords(x) && r == Registers(0x67452301, 0xefcdab89, 0x98badcfe, 0x10325476)
    ensures AddRegisters(r, Operations(64, r, x)) == Registers(0x83fd320b, 0xdefbe5cf, 0xa9b1642f, 0xfa6f932a)
  {
    assert |x| == 16;
    hide Operations, FirstWords, AddRegisters, Quads;
    FirstStart();
    FirstEnd();
    FirstSum();
    FirstRounds(x, r);
  }

  lemma SecondRounds(x: seq<Word>, r: Registers)
    requires SecondWords(x)
    requires r == Quads(Q(0x83, 0xfd, 0x32, 0x0b), Q(0xde, 0xfb, 0xe5, 0xcf),
                      Q(0xa9, 0xb1, 0x64, 0x2f), Q(0xfa, 0x6f, 0x93, 0x2a))
    ensures At(64, r, x, Q(0x14, 0xae, 0x42, 0xc6), Q(0x16, 0xdd, 0x92, 0x03), Q(0x82, 0x6a, 0xfd, 0x76), Q(0xa5, 0x2d, 0xae, 0x75))
  {
    assert Operations(0, r, x) == r;
    assert At(0, r, x, Q(0x83, 0xfd, 0x32, 0x0b), Q(0xde, 0xfb, 0xe5, 0xcf), Q(0xa9, 0xb1, 0x64, 0x2f), Q(0xfa, 0x6f, 0x93, 0x2a));
    hide At, Quads;
    Second0(x, r);
    Second2(x, r);
    Second4(x, r);
    Second6(x, r);
    Second8(x, r);
    Second10(x, r);
    Second12(x, r);
    Second14(x, r);
    Second16(x, r);
    Second18(x, r);
    Second20(x, r);
    Second22(x, r);
    Second24(x, r);
    Second26(x, r);
    Second28(x, r);
    Second30(x, r);
    Second32(x, r);
    Second34(x, r);
    Second36(x, r);
    Second38(x, r);
    Second40(x, r);
    Second42(x, r);
    Second44(x, r);
    Second46(x, r);
    Second48(x, r);
    Second50(x, r);
    Second52(x, r);
    Second54(x, r);
    Second56(x, r);
    Second58(x, r);
    Second60(x, r);
    Second62(x, r);
  }

  lemma SecondStart()
    ensures Registers(0x83fd320b, 0xdefbe5cf, 0xa9b1642f, 0xfa6f932a)
         == Quads(Q(0x83, 0xfd, 0x32, 0x0b), Q(0xde, 0xfb, 0xe5, 0xcf),
                  Q(0xa9, 0xb1, 0x64, 0x2f), Q(0xfa, 0x6f, 0x93, 0x2a))
  {
  }

  lemma SecondEnd()
    ensures Quads(Q(0x14, 0xae, 0x42, 0xc6), Q(0x16, 0xdd, 0x92, 0x03),
                  Q(0x82, 0x6a, 0xfd, 0x76), Q(0xa5, 0x2d, 0xae, 0x75))
         == Registers(0x14ae42c6, 0x16dd9203, 0x826afd76, 0xa52dae75)
  {
  }

  lemma SecondSum()
    ensures AddRegisters(Registers(0x83fd320b, 0xdefbe5cf, 0xa9b1642f, 0xfa6f932a),
                         Registers(0x14ae42c6, 0x16dd9203, 0x826afd76, 0xa52dae75))
         == Registers(0x98ab74d1, 0xf5d977d2, 0x2c1c61a5, 0x9f9d419f)
  {
  }

  lemma SecondBlock(x: seq<Word>, r: Registers)
    requires SecondWords(x) && r == Registers(0x83fd320b, 0xdefbe5cf, 0xa9b1642f, 0xfa6f932a)
    ensures AddRegisters(r, Operations(64, r, x)) == Registers(0x98ab74d1, 0xf5d977d2, 0x2c1c61a5, 0x9f9d419f)
  {
    assert |x| == 16;
    hide Operations, SecondWords, AddRegisters, Quads;
    SecondStart();
    SecondEnd();
    SecondSum();
    SecondRounds(x, r);
  }

  lemma FoldOfTwoBlocks(r: Registers, p: seq<Byte>)
    requires |p| == 128
    ensures Fold(r, p) == Compress(Compress(r, p[..64]), p[64..])
  {
    hide Compress;
    assert p[64..][..64] == p[64..] && p[64..][64..] == [];
    assert Fold(Compress(r, p[..64]), p[64..]) == Fold(Compress(Compress(r, p[..64]), p[64..]), []);
  }

  lemma CompressTwoBlocks()
    ensures var p := Pad(LettersAndDigits());
      |p| == 128 && Compress(Compress(IV, p[..64]), p[64..]) == Registers(0x98ab74d1, 0xf5d977d2, 0x2c1c61a5, 0x9f9d419f)
  {
    var p := Pad(LettersAndDigits());
    WordsOfPadding(p);
    hide Pad, Operations, Decode, FirstWords, SecondWords, AddRegisters, LettersAndDigits;
    FirstBlock(Decode(p[..64]), IV);
    SecondBlock(Decode(p[64..]), Compress(IV, p[..64]));
  }

  // The digest that section A.5 lists for this message.
  lemma DigestOfLettersAndDigits()
    ensures Md5(LettersAndDigits())
         == [0xd1, 0x74, 0xab, 0x98, 0xd2, 0x77, 0xd9, 0xf5,
             0xa5, 0x61, 0x1c, 0x2c, 0x9f, 0x41, 0x9d, 0x9f]
  {
    CompressTwoBlocks();
    hide Pad, Compress, Fold, Bytes, LettersAndDigits, Output;
    FoldOfTwoBlocks(IV, Pad(LettersAndDigits()));
    DigestBytes();
  }

  lemma DigestBytes()
    ensures Output(Registers(0x98ab74d1, 0xf5d977d2, 0x2c1c61a5, 0x9f9d419f)) == [0xd1, 0x74, 0xab, 0x98, 0xd2, 0x77, 0xd9, 0xf5,
                                                                                    0xa5, 0x61, 0x1c, 0x2c, 0x9f, 0x41, 0x9d, 0x9f]
  {
  }
}
