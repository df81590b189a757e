/** MD5 as section 3 of RFC 1321 defines it, on whole messages: pad, append the
    length, fold the blocks with the table-driven operations, write the digest. */
module Rfc1321 {
  import opened Bits

  function Low(x: int): Word { x % 0x1_0000_0000 }

  datatype Registers = Registers(a: Word, b: Word, c: Word, d: Word)

  // Section 3.3: the initial buffer, given there as bytes, low order first.
  const IV := Registers(0x67452301, 0xefcdab89, 0x98badcfe, 0x10325476)

  // ---------- section 3.4: functions, table and operations ----------

  function Complement(x: Word): Word { 0xffff_ffff - x }

  function Auxiliary(round: nat, x: Word, y: Word, z: Word): nat
  {
    if round == 0 then Or(And(x, y), And(Complement(x), z))
    else if round == 1 then Or(And(x, z), And(y, Complement(z)))
    else if round == 2 then Xor(Xor(x, y), z)
    else Xor(y, Or(x, Complement(z)))
  }

  function RotateLeft(x: Word, s: nat): nat
    requires s <= 32
  {
    Shl(32, x, s) + Shr(x, 32 - s)
  }

  // The integer part of 4294967296 * abs(sin(i + 1)), a row for each round.
  function T(i: nat): Word
  {
    match i / 16
    case 0 => Row1(i % 16)
    case 1 => Row2(i % 16)
    case 2 => Row3(i % 16)
    case _ => Row4(i % 16)
  }

  function Row1(j: nat): Word
  {
    match j
    case 0 => 0xd76aa478 case 1 => 0xe8c7b756 case 2 => 0x242070db case 3 => 0xc1bdceee
    case 4 => 0xf57c0faf case 5 => 0x4787c62a case 6 => 0xa8304613 case 7 => 0xfd469501
    case 8 => 0x698098d8 case 9 => 0x8b44f7af case 10 => 0xffff5bb1 case 11 => 0x895cd7be
    case 12 => 0x6b901122 case 13 => 0xfd987193 case 14 => 0xa679438e case _ => 0x49b40821
  }

  function Row2(j: nat): Word
  {
    match j
    case 0 => 0xf61e2562 case 1 => 0xc040b340 case 2 => 0x265e5a51 case 3 => 0xe9b6c7aa
    case 4 => 0xd62f105d case 5 => 0x02441453 case 6 => 0xd8a1e681 case 7 => 0xe7d3fbc8
    case 8 => 0x21e1cde6 case 9 => 0xc33707d6 case 10 => 0xf4d50d87 case 11 => 0x455a14ed
    case 12 => 0xa9e3e905 case 13 => 0xfcefa3f8 case 14 => 0x676f02d9 case _ => 0x8d2a4c8a
  }

  function Row3(j: nat): Word
  {
    match j
    case 0 => 0xfffa3942 case 1 => 0x8771f681 case 2 => 0x6d9d6122 case 3 => 0xfde5380c
    case 4 => 0xa4beea44 case 5 => 0x4bdecfa9 case 6 => 0xf6bb4b60 case 7 => 0xbebfbc70
    case 8 => 0x289b7ec6 case 9 => 0xeaa127fa case 10 => 0xd4ef3085 case 11 => 0x04881d05
    case 12 => 0xd9d4d039 case 13 => 0xe6db99e5 case 14 => 0x1fa27cf8 case _ => 0xc4ac5665
  }

  function Row4(j: nat): Word
  {
    match j
    case 0 => 0xf4292244 case 1 => 0x432aff97 case 2 => 0xab9423a7 case 3 => 0xfc93a039
    case 4 => 0x655b59c3 case 5 => 0x8f0ccc92 case 6 => 0xffeff47d case 7 => 0x85845dd1
    case 8 => 0x6fa87e4f case 9 => 0xfe2ce6e0 case 10 => 0xa3014314 case 11 => 0x4e0811a1
    case 12 => 0xf7537e82 case 13 => 0xbd3af235 case 14 => 0x2ad7d2bb case _ => 0xeb86d391
  }

  // Which word of the block operation i reads: each round strides through all 16.
  function K(i: nat): (k: nat)
    ensures k < 16
  {
    if i < 16 then i
    else if i < 32 then (5 * i + 1) % 16
    else if i < 48 then (3 * i + 5) % 16
    else 7 * i % 16
  }

  function S(i: nat): nat
  {
    match i / 16
    case 0 => (match i % 4 case 0 => 7 case 1 => 12 case 2 => 17 case _ => 22)
    case 1 => (match i % 4 case 0 => 5 case 1 => 9 case 2 => 14 case _ => 20)
    case 2 => (match i % 4 case 0 => 4 case 1 => 11 case 2 => 16 case _ => 23)
    case _ => (match i % 4 case 0 => 6 case 1 => 10 case 2 => 15 case _ => 21)
  }

  // a = b + ((a + f(b,c,d) + X[k] + T[i]) <<< s).
  function Turn(round: nat, a: Word, b: Word, c: Word, d: Word, x: Word, t: Word, s: nat): Word
    requires s <= 32
  {
    Low(b + RotateLeft(Low(a + Auxiliary(round, b, c, d) + x + t), s))
  }

  // One bracketed operation; the register it wrote is the next one's b.
  function Operation(i: nat, r: Registers, x: seq<Word>): Registers
    requires |x| == 16
  {
    Registers(r.d, Turn(i / 16, r.a, r.b, r.c, r.d, x[K(i)], T(i), S(i)), r.b, r.c)
  }

  function Operations(n: nat, r: Registers, x: seq<Word>): Registers
    requires |x| == 16
  {
    if n == 0 then r else Operation(n - 1, Operations(n - 1, r, x), x)
  }

  function AddRegisters(r: Registers, s: Registers): Registers
  {
    Registers(Low(r.a + s.a), Low(r.b + s.b), Low(r.c + s.c), Low(r.d + s.d))
  }

  // Four bytes, low order first.
  function WordAt(m: seq<Byte>, i: nat): Word
    requires i + 4 <= |m|
  {
    var b0: nat, b1: nat, b2: nat, b3: nat := m[i], m[i + 1], m[i + 2], m[i + 3];
    b0 + b1 * 0x100 + b2 * 0x1_0000 + b3 * 0x100_0000
  }

  function Decode(block: seq<Byte>): (x: seq<Word>)
    requires |block| == 64
    ensures |x| == 16
  {
    seq(16, j requires 0 <= j < 16 => WordAt(block, 4 * j))
  }

  function Compress(r: Registers, block: seq<Byte>): Registers
    requires |block| == 64
  {
    AddRegisters(r, Operations(64, r, Decode(block)))
  }

  // The whole 64-byte blocks of m, first to last; a shorter tail is not used.
  function Fold(r: Registers, m: seq<Byte>): Registers
    decreases |m|
  {
    if |m| < 64 then r else Fold(Compress(r, m[..64]), m[64..])
  }

  // ---------- sections 3.1, 3.2 and 3.5: padding, length and output ----------

  function Zeros(n: nat): (z: seq<Byte>)
    ensures |z| == n
  {
    seq(n, i => 0)
  }

  function Bytes(n: nat, count: nat): (s: seq<Byte>)
    ensures |s| == count
  {
    if count == 0 then [] else [n % 0x100] + Bytes(n / 0x100, count - 1)
  }

  function PadLength(n: nat): nat { if n % 64 < 56 then 55 - n % 64 else 119 - n % 64 }

  function BitLength(n: nat): nat { 8 * n % 0x1_0000_0000_0000_0000 }

  // A one bit, zero bits up to 448 modulo 512, and the length in bits modulo 2^64.
  function Pad(m: seq<Byte>): (p: seq<Byte>)
    ensures |p| % 64 == 0
  {
    hide Bytes;
    assert (|m| + 1 + PadLength(|m|) + 8) % 64 == 0;
    m + [0x80] + Zeros(PadLength(|m|)) + Bytes(BitLength(|m|), 8)
  }

  // The padding is the shortest that leaves room for the length in the last block.
  lemma PaddingIsShortest(n: nat)
    ensures (n + 1 + PadLength(n)) % 64 == 56 && PadLength(n) < 64
  {
    DivModUnique(n + 1 + PadLength(n), 64, if n % 64 < 56 then n / 64 else n / 64 + 1, 56);
  }

  // The number that bytes spell, low order first.
  function LittleEndian(s: seq<Byte>): nat
  {
    if s == [] then 0 else s[0] + 0x100 * LittleEndian(s[1..])
  }

  lemma {:induction false} BytesSpell(n: nat, count: nat)
    requires n < Pow2(8 * count)
    ensures LittleEndian(Bytes(n, count)) == n
    decreases count
  {
    if count > 0 {
      Pow2Add(8, 8 * (count - 1));
      assert Pow2(8) == 0x100;
      hide Pow2;
      BytesSpell(n / 0x100, count - 1);
      assert Bytes(n, count)[1..] == Bytes(n / 0x100, count - 1);
    }
  }

  // A message is padded by a byte 0x80, zeros and its length in bits modulo 2^64.
  lemma PadEndsInLength(m: seq<Byte>)
    ensures var p := Pad(m);
      && |p| % 64 == 0 && |p| >= |m| + 9 && p[..|m|] == m && p[|m|] == 0x80
      && (forall i :: |m| < i < |p| - 8 ==> p[i] == 0)
      && LittleEndian(p[|p| - 8..]) == 8 * |m| % 0x1_0000_0000_0000_0000
  {
    hide Pow2, Bytes, LittleEndian;
    Pow2Wide();
    BytesSpell(BitLength(|m|), 8);
    assert Pad(m)[|Pad(m)| - 8..] == Bytes(BitLength(|m|), 8);
  }

  function Output(r: Registers): seq<Byte>
  {
    Bytes(r.a, 4) + Bytes(r.b, 4) + Bytes(r.c, 4) + Bytes(r.d, 4)
  }

  function Md5(m: seq<Byte>): seq<Byte> { Output(Fold(IV, Pad(m))) }

  lemma {:induction false} FoldAppend(r: Registers, m: seq<Byte>, n: seq<Byte>)
    requires |m| % 64 == 0
    ensures Fold(r, m + n) == Fold(Fold(r, m), n)
    decreases |m|
  {
    hide Compress;
    if m == [] {
      assert m + n == n;
    } else {
      assert |m| >= 64 && |m[64..]| % 64 == 0 by {
        assert |m[64..]| == |m| - 64;
      }
      assert (m + n)[..64] == m[..64];
      assert (m + n)[64..] == m[64..] + n;
      FoldAppend(Compress(r, m[..64]), m[64..], n);
    }
  }

  lemma FoldTail(r: Registers, m: seq<Byte>, n: seq<Byte>)
    requires |m| % 64 == 0 && |n| < 64
    ensures Fold(r, m + n) == Fold(r, m)
  {
    FoldAppend(r, m, n);
  }
}
