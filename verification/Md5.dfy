/** The streaming interface of md5.c on words of any width w >= 32. */
module Md5 {
  import opened Bits
  import opened Sequences
  import opened Rfc1321
  import opened Md5Step

  lemma ShiftedByte(w: nat, b: Byte, s: nat)
    requires w >= 32 && s <= 24
    ensures Shl(w, b, s) == b * Pow2(s)
  {
    hide Pow2;
    Pow2Constants();
    Pow2Monotone(32, w);
    Pow2Monotone(s, 24);
    MulLe(Pow2(s), 0x100_0000, b);
    ModSmall(Pow2(s) * b, Pow2(w));
    assert Pow2(s) * b == b * Pow2(s);
  }

  class Context {
    const w: nat                       // bits in MD5_u32plus
    var a: nat
    var b: nat
    var c: nat
    var d: nat
    var lo: nat
    var hi: nat
    const buffer: array<Byte>
    const block: array<nat>

    ghost predicate Valid()
      reads this
    {
      w >= 32 && buffer.Length == 64 && block.Length == 16 && Fits(w, a, b, c, d)
      && lo < Pow2(w) && hi < Pow2(w)
    }

    constructor (width: nat)
      requires width >= 32
      ensures Valid() && w == width && fresh(buffer) && fresh(block)
    {
      w := width;
      a, b, c, d, lo, hi := 0, 0, 0, 0, 0, 0;
      buffer := new Byte[64];
      block := new nat[16];
    }

    // SET, lines 79-84: four bytes, low order first.
    method Set(ptr: seq<Byte>, n: nat) returns (x: nat)
      requires Valid() && |ptr| == 64 && n < 16
      modifies block
      ensures x == Decode(ptr)[n]
      ensures block[n] == x && forall j :: 0 <= j < 16 && j != n ==> block[j] == old(block[j])
    {
      hide Pow2, Bitwise;
      Pow2Constants();
      ShiftedByte(w, ptr[4 * n + 1], 8);
      ShiftedByte(w, ptr[4 * n + 2], 16);
      ShiftedByte(w, ptr[4 * n + 3], 24);
      var x1 := Or(ptr[4 * n], Shl(w, ptr[4 * n + 1], 8));
      OrDisjoint(Shl(w, ptr[4 * n + 1], 8), ptr[4 * n], 8);
      var x2 := Or(x1, Shl(w, ptr[4 * n + 2], 16));
      OrDisjoint(Shl(w, ptr[4 * n + 2], 16), x1, 16);
      x := Or(x2, Shl(w, ptr[4 * n + 3], 24));
      OrDisjoint(Shl(w, ptr[4 * n + 3], 24), x2, 24);
      block[n] := x;
    }

    // Round 1 also fills block[], lines 112-128.
    method Round1(ptr: seq<Byte>, a0: nat, b0: nat, c0: nat, d0: nat, ghost r0: Registers)
      returns (a: nat, b: nat, c: nat, d: nat)
      requires Valid() && |ptr| == 64
      requires Fits(w, a0, b0, c0, d0) && LowHalves(a0, b0, c0, d0) == Operations(0, r0, Decode(ptr))
      modifies block
      ensures Fits(w, a, b, c, d) && LowHalves(a, b, c, d) == Operations(16, r0, Decode(ptr))
      ensures block[..] == Decode(ptr)
    {
      hide Pow2, Operations, Operation, Decode, Fits, LowHalves;
      ghost var xs := Decode(ptr);
      a, b, c, d := a0, b0, c0, d0;
      var x: nat;
      x := Set(ptr, 0);
      a := Step(w, F, a, b, c, d, x, 0xd76aa478, 7, 0, r0, xs);
      x := Set(ptr, 1);
      d := Step(w, F, d, a, b, c, x, 0xe8c7b756, 12, 1, r0, xs);
      x := Set(ptr, 2);
      c := Step(w, F, c, d, a, b, x, 0x242070db, 17, 2, r0, xs);
      x := Set(ptr, 3);
      b := Step(w, F, b, c, d, a, x, 0xc1bdceee, 22, 3, r0, xs);
      x := Set(ptr, 4);
      a := Step(w, F, a, b, c, d, x, 0xf57c0faf, 7, 4, r0, xs);
      x := Set(ptr, 5);
      d := Step(w, F, d, a, b, c, x, 0x4787c62a, 12, 5, r0, xs);
      x := Set(ptr, 6);
      c := Step(w, F, c, d, a, b, x, 0xa8304613, 17, 6, r0, xs);
      x := Set(ptr, 7);
      b := Step(w, F, b, c, d, a, x, 0xfd469501, 22, 7, r0, xs);
      x := Set(ptr, 8);
      a := Step(w, F, a, b, c, d, x, 0x698098d8, 7, 8, r0, xs);
      x := Set(ptr, 9);
      d := Step(w, F, d, a, b, c, x, 0x8b44f7af, 12, 9, r0, xs);
      x := Set(ptr, 10);
      c := Step(w, F, c, d, a, b, x, 0xffff5bb1, 17, 10, r0, xs);
      x := Set(ptr, 11);
      b := Step(w, F, b, c, d, a, x, 0x895cd7be, 22, 11, r0, xs);
      x := Set(ptr, 12);
      a := Step(w, F, a, b, c, d, x, 0x6b901122, 7, 12, r0, xs);
      x := Set(ptr, 13);
      d := Step(w, F, d, a, b, c, x, 0xfd987193, 12, 13, r0, xs);
      x := Set(ptr, 14);
      c := Step(w, F, c, d, a, b, x, 0xa679438e, 17, 14, r0, xs);
      x := Set(ptr, 15);
      b := Step(w, F, b, c, d, a, x, 0x49b40821, 22, 15, r0, xs);
    }

    // Round 2, lines 130-146.
    method Round2(a0: nat, b0: nat, c0: nat, d0: nat, ghost r0: Registers, ghost xs: seq<Word>)
      returns (a: nat, b: nat, c: nat, d: nat)
      requires Valid() && |xs| == 16 && forall j :: 0 <= j < 16 ==> block[j] == xs[j]
      requires Fits(w, a0, b0, c0, d0) && LowHalves(a0, b0, c0, d0) == Operations(16, r0, xs)
      ensures Fits(w, a, b, c, d) && LowHalves(a, b, c, d) == Operations(32, r0, xs)
    {
      hide Pow2, Operations, Operation, Fits, LowHalves;
      assert block.Length == 16 && w >= 32;
      hide Valid;
      a, b, c, d := a0, b0, c0, d0;
      var x: nat;
      x := block[1];
      a := Step(w, G, a, b, c, d, x, 0xf61e2562, 5, 16, r0, xs);
      x := block[6];
      d := Step(w, G, d, a, b, c, x, 0xc040b340, 9, 17, r0, xs);
      x := block[11];
      c := Step(w, G, c, d, a, b, x, 0x265e5a51, 14, 18, r0, xs);
      x := block[0];
      b := Step(w, G, b, c, d, a, x, 0xe9b6c7aa, 20, 19, r0, xs);
      x := block[5];
      a := Step(w, G, a, b, c, d, x, 0xd62f105d, 5, 20, r0, xs);
      x := block[10];
      d := Step(w, G, d, a, b, c, x, 0x02441453, 9, 21, r0, xs);
      x := block[15];
      c := Step(w, G, c, d, a, b, x, 0xd8a1e681, 14, 22, r0, xs);
      x := block[4];
      b := Step(w, G, b, c, d, a, x, 0xe7d3fbc8, 20, 23, r0, xs);
      x := block[9];
      a := Step(w, G, a, b, c, d, x, 0x21e1cde6, 5, 24, r0, xs);
      x := block[14];
      d := Step(w, G, d, a, b, c, x, 0xc33707d6, 9, 25, r0, xs);
      x := block[3];
      c := Step(w, G, c, d, a, b, x, 0xf4d50d87, 14, 26, r0, xs);
      x := block[8];
      b := Step(w, G, b, c, d, a, x, 0x455a14ed, 20, 27, r0, xs);
      x := block[13];
      a := Step(w, G, a, b, c, d, x, 0xa9e3e905, 5, 28, r0, xs);
      x := block[2];
      d := Step(w, G, d, a, b, c, x, 0xfcefa3f8, 9, 29, r0, xs);
      x := block[7];
      c := Step(w, G, c, d, a, b, x, 0x676f02d9, 14, 30, r0, xs);
      x := block[12];
      b := Step(w, G, b, c, d, a, x, 0x8d2a4c8a, 20, 31, r0, xs);
    }

    // Round 3, lines 148-164.
    method Round3(a0: nat, b0: nat, c0: nat, d0: nat, ghost r0: Registers, ghost xs: seq<Word>)
      returns (a: nat, b: nat, c: nat, d: nat)
      requires Valid() && |xs| == 16 && forall j :: 0 <= j < 16 ==> block[j] == xs[j]
      requires Fits(w, a0, b0, c0, d0) && LowHalves(a0, b0, c0, d0) == Operations(32, r0, xs)
      ensures Fits(w, a, b, c, d) && LowHalves(a, b, c, d) == Operations(48, r0, xs)
    {
      hide Pow2, Operations, Operation, Fits, LowHalves;
      assert block.Length == 16 && w >= 32;
      hide Valid;
      a, b, c, d := a0, b0, c0, d0;
      var x: nat;
      x := block[5];
      a := Step(w, H, a, b, c, d, x, 0xfffa3942, 4, 32, r0, xs);
      x := block[8];
      d := Step(w, H2, d, a, b, c, x, 0x8771f681, 11, 33, r0, xs);
      x := block[11];
      c := Step(w, H, c, d, a, b, x, 0x6d9d6122, 16, 34, r0, xs);
      x := block[14];
      b := Step(w, H2, b, c, d, a, x, 0xfde5380c, 23, 35, r0, xs);
      x := block[1];
      a := Step(w, H, a, b, c, d, x, 0xa4beea44, 4, 36, r0, xs);
      x := block[4];
      d := Step(w, H2, d, a, b, c, x, 0x4bdecfa9, 11, 37, r0, xs);
      x := block[7];
      c := Step(w, H, c, d, a, b, x, 0xf6bb4b60, 16, 38, r0, xs);
      x := block[10];
      b := Step(w, H2, b, c, d, a, x, 0xbebfbc70, 23, 39, r0, xs);
      x := block[13];
      a := Step(w, H, a, b, c, d, x, 0x289b7ec6, 4, 40, r0, xs);
      x := block[0];
      d := Step(w, H2, d, a, b, c, x, 0xeaa127fa, 11, 41, r0, xs);
      x := block[3];
      c := Step(w, H, c, d, a, b, x, 0xd4ef3085, 16, 42, r0, xs);
      x := block[6];
      b := Step(w, H2, b, c, d, a, x, 0x04881d05, 23, 43, r0, xs);
      x := block[9];
      a := Step(w, H, a, b, c, d, x, 0xd9d4d039, 4, 44, r0, xs);
      x := block[12];
      d := Step(w, H2, d, a, b, c, x, 0xe6db99e5, 11, 45, r0, xs);
      x := block[15];
      c := Step(w, H, c, d, a, b, x, 0x1fa27cf8, 16, 46, r0, xs);
      x := block[2];
      b := Step(w, H2, b, c, d, a, x, 0xc4ac5665, 23, 47, r0, xs);
    }

    // Round 4, lines 166-182.
    method Round4(a0: nat, b0: nat, c0: nat, d0: nat, ghost r0: Registers, ghost xs: seq<Word>)
      returns (a: nat, b: nat, c: nat, d: nat)
      requires Valid() && |xs| == 16 && forall j :: 0 <= j < 16 ==> block[j] == xs[j]
      requires Fits(w, a0, b0, c0, d0) && LowHalves(a0, b0, c0, d0) == Operations(48, r0, xs)
      ensures Fits(w, a, b, c, d) && LowHalves(a, b, c, d) == Operations(64, r0, xs)
    {
      hide Pow2, Operations, Operation, Fits, LowHalves;
      assert block.Length == 16 && w >= 32;
      hide Valid;
      a, b, c, d := a0, b0, c0, d0;
      var x: nat;
      x := block[0];
      a := Step(w, I, a, b, c, d, x, 0xf4292244, 6, 48, r0, xs);
      x := block[7];
      d := Step(w, I, d, a, b, c, x, 0x432aff97, 10, 49, r0, xs);
      x := block[14];
      c := Step(w, I, c, d, a, b, x, 0xab9423a7, 15, 50, r0, xs);
      x := block[5];
      b := Step(w, I, b, c, d, a, x, 0xfc93a039, 21, 51, r0, xs);
      x := block[12];
      a := Step(w, I, a, b, c, d, x, 0x655b59c3, 6, 52, r0, xs);
      x := block[3];
      d := Step(w, I, d, a, b, c, x, 0x8f0ccc92, 10, 53, r0, xs);
      x := block[10];
      c := Step(w, I, c, d, a, b, x, 0xffeff47d, 15, 54, r0, xs);
      x := block[1];
      b := Step(w, I, b, c, d, a, x, 0x85845dd1, 21, 55, r0, xs);
      x := block[8];
      a := Step(w, I, a, b, c, d, x, 0x6fa87e4f, 6, 56, r0, xs);
      x := block[15];
      d := Step(w, I, d, a, b, c, x, 0xfe2ce6e0, 10, 57, r0, xs);
      x := block[6];
      c := Step(w, I, c, d, a, b, x, 0xa3014314, 15, 58, r0, xs);
      x := block[13];
      b := Step(w, I, b, c, d, a, x, 0x4e0811a1, 21, 59, r0, xs);
      x := block[4];
      a := Step(w, I, a, b, c, d, x, 0xf7537e82, 6, 60, r0, xs);
      x := block[11];
      d := Step(w, I, d, a, b, c, x, 0xbd3af235, 10, 61, r0, xs);
      x := block[2];
      c := Step(w, I, c, d, a, b, x, 0x2ad7d2bb, 15, 62, r0, xs);
      x := block[9];
      b := Step(w, I, b, c, d, a, x, 0xeb86d391, 21, 63, r0, xs);
    }

    // Registers as RFC 1321 sees them.
    function Digested(): Registers
      reads this
    {
      LowHalves(a, b, c, d)
    }

    // One block: lines 107-187.
    method Block(ptr: seq<Byte>, a0: nat, b0: nat, c0: nat, d0: nat) returns (a: nat, b: nat, c: nat, d: nat)
      requires Valid() && |ptr| == 64 && Fits(w, a0, b0, c0, d0)
      modifies block
      ensures Fits(w, a, b, c, d)
      ensures LowHalves(a, b, c, d) == Compress(LowHalves(a0, b0, c0, d0), ptr)
    {
      hide Pow2, Low, Operation, Decode;
      ghost var r0 := LowHalves(a0, b0, c0, d0);
      ghost var xs := Decode(ptr);
      a, b, c, d := Round1(ptr, a0, b0, c0, d0, r0);
      a, b, c, d := Round2(a, b, c, d, r0, xs);
      a, b, c, d := Round3(a, b, c, d, r0, xs);
      a, b, c, d := Round4(a, b, c, d, r0, xs);
      AddSaved(w, a, a0);
      AddSaved(w, b, b0);
      AddSaved(w, c, c0);
      AddSaved(w, d, d0);
      a, b, c, d := (a + a0) % Pow2(w), (b + b0) % Pow2(w), (c + c0) % Pow2(w), (d + d0) % Pow2(w);
    }

    // body, lines 93-198; size is a positive multiple of 64.
    method Body(data: seq<Byte>)
      requires Valid() && |data| > 0 && |data| % 64 == 0
      modifies this`a, this`b, this`c, this`d, block
      ensures Valid() && Digested() == Fold(old(Digested()), data)
    {
      hide Pow2, Compress, LowHalves;
      var a, b, c, d := this.a, this.b, this.c, this.d;
      var ptr, size := 0, |data|;
      ghost var r0 := Digested();
      while true
        invariant 0 <= ptr && size > 0 && size % 64 == 0 && ptr + size == |data|
        invariant Valid() && Fits(w, a, b, c, d)
        invariant Fold(r0, data) == Fold(LowHalves(a, b, c, d), data[ptr..])
        decreases size
      {
        AtLeastOneBlock(size);
        assert data[ptr..][..64] == data[ptr..ptr + 64];
        assert data[ptr..][64..] == data[ptr + 64..];
        a, b, c, d := Block(data[ptr..ptr + 64], a, b, c, d);
        ptr := ptr + 64;
        size := size - 64;
        if size == 0 {
          break;
        }
      }
      this.a, this.b, this.c, this.d := a, b, c, d;
    }

    // The whole blocks of msg are hashed and the rest of it is in the buffer.
    ghost predicate Holds(msg: seq<Byte>)
      requires buffer.Length == 64
      reads this, buffer
    {
      && Digested() == Fold(IV, msg)
      && buffer[..|msg| % 64] == msg[|msg| - |msg| % 64..]
    }

    // What the context has taken in: whole blocks are folded, the tail is buffered,
    // and {hi,lo} counts bytes modulo 2^61.
    ghost predicate Absorbed(msg: seq<Byte>)
      reads this, buffer
    {
      && Valid()
      && Holds(msg)
      && lo == |msg| % 0x2000_0000
      && Low(hi) == Low(|msg| / 0x2000_0000)
    }

    // MD5_Init, lines 200-209.
    method Init()
      requires w >= 32 && buffer.Length == 64 && block.Length == 16
      modifies this
      ensures Absorbed([])
    {
      hide Pow2, Fold, Low;
      Pow2Constants();
      Pow2Monotone(32, w);
      a := 0x67452301;
      b := 0xefcdab89;
      c := 0x98badcfe;
      d := 0x10325476;
      lo, hi := 0, 0;
      EmptyMessage();
    }

    // Puts data behind the first used bytes of the buffer.
    method CopyIn(used: nat, data: seq<Byte>)
      requires used + |data| <= buffer.Length
      modifies buffer
      ensures buffer[..] == old(buffer[..used]) + data + old(buffer[used + |data|..])
    {
      forall i | 0 <= i < |data| {
        buffer[used + i] := data[i];
      }
    }

    // Lines 216-219: lo counts modulo 2^29 and carries into hi.
    method Count(size: nat)
      requires Valid() && lo < 0x2000_0000 && size < 0x1_0000_0000_0000_0000
      modifies this`lo, this`hi
      ensures Valid()
      ensures lo == (old(lo) + size) % 0x2000_0000
      ensures Low(hi) == Low(old(hi) + (old(lo) + size) / 0x2000_0000)
    {
      hide Pow2, Bitwise, Low;
      Pow2Constants();
      Pow2Monotone(32, w);
      var savedLo := lo;
      lo := And((savedLo + size) % 0x1_0000_0000_0000_0000, 0x1fff_ffff);
      CarryCount(savedLo, size, lo);
      HighCount(w, hi, size / 0x2000_0000);
      if lo < savedLo {
        hi := (hi + 1) % Pow2(w);
      }
      hi := (hi + Shr(size, 29)) % Pow2(w);
    }

    // Lines 237-242: hash the whole blocks of data and keep the rest.
    method Absorb(data0: seq<Byte>, ghost done: seq<Byte>)
      requires Valid() && |done| % 64 == 0 && Digested() == Fold(IV, done)
      modifies this`a, this`b, this`c, this`d, buffer, block
      ensures Valid() && Holds(done + data0)
    {
      hide Pow2, Low, Fold, Fits, LowHalves;
      var data := data0;
      var n := |data| - |data| % 64;                       // size & ~0x3f
      WholeBlocks(|data|);
      ghost var whole := done + data[..n];
      if |data| >= 64 {
        Body(data[..n]);
        data := data[n..];
      } else {
        assert data[..n] == [];
      }
      FoldAppend(IV, done, data0[..n]);
      assert done + data0 == whole + data;
      FoldTail(IV, whole, data);
      CopyIn(0, data);
      TailOfSum(whole, data);
    }

    // Lines 221-242, with done hashed and tail in the buffer.
    method Take(used: nat, data: seq<Byte>, ghost done: seq<Byte>, ghost tail: seq<Byte>)
      requires Valid() && |done| % 64 == 0 && Digested() == Fold(IV, done)
      requires used == |tail| < 64 && buffer[..used] == tail
      modifies this`a, this`b, this`c, this`d, buffer, block
      ensures Valid() && Holds(done + tail + data)
    {
      hide Pow2, Low, Fold, Fits, LowHalves;
      if used != 0 {
        var available := 64 - used;
        if |data| < available {
          CopyIn(used, data);
          assert buffer[..|tail + data|] == tail + data;
          assert done + tail + data == done + (tail + data);
          TailOfSum(done, tail + data);
          FoldTail(IV, done, tail + data);
        } else {
          CopyIn(used, data[..available]);
          assert buffer[..] == tail + data[..available];
          FoldAppend(IV, done, buffer[..]);
          assert done + tail + data == done + buffer[..] + data[available..];
          ghost var block0 := buffer[..];
          Body(buffer[..]);
          Absorb(data[available..], done + block0);
        }
      } else {
        assert done + tail + data == done + data;
        Absorb(data, done);
      }
    }

    // MD5_Update, lines 211-243.
    method Update(data: seq<Byte>, ghost msg: seq<Byte>)
      requires Absorbed(msg) && |data| < 0x1_0000_0000_0000_0000
      modifies this, buffer, block
      ensures Absorbed(msg + data)
    {
      hide Pow2, Low, Fold, Fits, LowHalves;
      var used := lo % 64;
      UsedIsTail(|msg|);
      WholeBlocks(|msg|);
      ghost var done, tail := msg[..|msg| - used], msg[|msg| - used..];
      assert msg == done + tail;
      FoldTail(IV, done, tail);
      CountAppended(hi, |msg|, |data|);
      Count(|data|);
      Take(used, data, done, tail);
    }

    // Zeros part of the buffer.
    method Clear(from: nat, to: nat)
      requires from <= to <= buffer.Length
      modifies buffer
      ensures buffer[..] == old(buffer[..from]) + Zeros(to - from) + old(buffer[to..])
    {
      forall i | from <= i < to {
        buffer[i] := 0;
      }
    }

    // Four stores of a word, low byte first; each store keeps eight bits.
    method Store(at: nat, x: nat)
      requires at + 4 <= buffer.Length
      modifies buffer
      ensures buffer[..] == old(buffer[..at]) + Bytes(Low(x), 4) + old(buffer[at + 4..])
    {
      hide Pow2;
      Pow2Constants();
      FourBytes(x);
      buffer[at] := x % 0x100;
      buffer[at + 1] := Shr(x, 8) % 0x100;
      buffer[at + 2] := Shr(x, 16) % 0x100;
      buffer[at + 3] := Shr(x, 24) % 0x100;
    }

    // Lines 251-260: the one bit, and a block of its own when no room is left for the length.
    method PadBlock(used0: nat, ghost done0: seq<Byte>, ghost tail: seq<Byte>)
      returns (used: nat, ghost done: seq<Byte>, ghost rest: seq<Byte>)
      requires Valid() && |done0| % 64 == 0 && Digested() == Fold(IV, done0)
      requires used0 == |tail| < 64 && buffer[..used0] == tail
      modifies this`a, this`b, this`c, this`d, buffer, block
      ensures Valid() && |done| % 64 == 0 && Digested() == Fold(IV, done)
      ensures used == |rest| <= 56 && buffer[..used] == rest
      ensures done + rest + Zeros(56 - used) == done0 + tail + [0x80] + Zeros(PadLength(used0))
    {
      hide Pow2, Low, Fold, Fits, LowHalves;
      used, done, rest := used0, done0, tail + [0x80];
      buffer[used] := 0x80;
      used := used + 1;
      assert buffer[..used] == rest;
      if 64 - used < 8 {
        Clear(used, 64);
        ghost var block0 := buffer[..];
        assert block0 == rest + Zeros(64 - used);
        FoldAppend(IV, done, block0);
        Body(buffer[..]);
        done, rest := done + block0, [];
        assert done + rest + Zeros(56) == done0 + tail + [0x80] + Zeros(PadLength(used0));
        used := 0;
      }
    }

    // Lines 262-272: zeros up to byte 56, then the bit count.
    method PutLength(used: nat, ghost rest: seq<Byte>)
      requires Valid() && lo < 0x2000_0000 && used == |rest| <= 56 && buffer[..used] == rest
      modifies this`lo, buffer
      ensures Valid()
      ensures buffer[..] == rest + Zeros(56 - used) + Bytes(old(lo) * 8, 4) + Bytes(Low(hi), 4)
    {
      hide Pow2, Low, Bytes, Fits;
      Pow2Constants();
      Pow2Monotone(32, w);
      ModSmall(lo * 8, Pow2(w));
      LowOfWord(lo * 8);
      Clear(used, 56);
      assert buffer[..56] == rest + Zeros(56 - used);
      lo := Shl(w, lo, 3);
      Store(56, lo);
      Store(60, hi);
    }

    // Every byte of the structure is zero.
    ghost predicate Cleared()
      reads this, buffer, block
    {
      && a == b == c == d == lo == hi == 0
      && buffer.Length == 64 && block.Length == 16
      && (forall i :: 0 <= i < 64 ==> buffer[i] == 0)
      && (forall i :: 0 <= i < 16 ==> block[i] == 0)
    }

    // Leaves nothing of the message behind.
    method Wipe()
      requires buffer.Length == 64 && block.Length == 16
      modifies this, buffer, block
      ensures Cleared()
    {
      a, b, c, d, lo, hi := 0, 0, 0, 0, 0, 0;
      Clear(0, 64);
      forall i | 0 <= i < 16 {
        block[i] := 0;
      }
    }

    // Lines 276-291: four bytes of each register, low byte first.
    method Result() returns (result: seq<Byte>)
      ensures result == Output(Digested())
    {
      hide Pow2, Bytes;
      result := LowBytes(a);
      var more := LowBytes(b);
      result := result + more;
      more := LowBytes(c);
      result := result + more;
      more := LowBytes(d);
      result := result + more;
    }

    // MD5_Final, lines 245-294.
    method Final(ghost msg: seq<Byte>) returns (result: seq<Byte>)
      requires Absorbed(msg)
      modifies this, buffer, block
      ensures result == Md5(msg) && Cleared()
    {
      hide Pow2, Low, Fold, Fits, LowHalves, Bytes;
      var used := lo % 64;                                 // lo & 0x3f
      UsedIsTail(|msg|);
      WholeBlocks(|msg|);
      ghost var done, tail := msg[..|msg| - used], msg[|msg| - used..];
      assert msg == done + tail;
      FoldTail(IV, done, tail);
      LengthWords(|msg|);
      ghost var rest;
      used, done, rest := PadBlock(used, done, tail);
      PutLength(used, rest);
      PadEndsIn(msg, tail, done, rest, used, buffer[..]);
      FoldAppend(IV, done, buffer[..]);
      Body(buffer[..]);
      result := Result();
      Wipe();
    }
  }

  lemma PadEndsIn(msg: seq<Byte>, tail: seq<Byte>, done: seq<Byte>, rest: seq<Byte>, used: nat, last: seq<Byte>)
    requires used <= 56 && |tail| == |msg| % 64
    requires done + rest + Zeros(56 - used) == msg + [0x80] + Zeros(PadLength(|tail|))
    requires last == rest + Zeros(56 - used) + Bytes(BitLength(|msg|), 8)
    ensures Pad(msg) == done + last
  {
    hide Bytes;
    assert PadLength(|tail|) == PadLength(|msg|);
  }

  lemma EmptyMessage()
    ensures LowHalves(0x67452301, 0xefcdab89, 0x98badcfe, 0x10325476) == Fold(IV, [])
  {
  }

  lemma AddSaved(w: nat, x: nat, y: nat)
    requires w >= 32
    ensures 0 <= (x + y) % Pow2(w) < Pow2(w)
    ensures Low((x + y) % Pow2(w)) == Low(Low(y) + Low(x))
  {
    hide Pow2, Low;
    WrapLow(w, x + y);
    LowAdd(y, Low(x));
    LowAdd(x, y);
  }

  lemma AtLeastOneBlock(n: int)
    requires n > 0 && n % 64 == 0
    ensures n >= 64 && (n - 64) % 64 == 0
  {
  }

  lemma WholeBlocks(n: nat)
    ensures (n - n % 64) % 64 == 0 && 0 <= n - n % 64
    ensures n >= 64 ==> n - n % 64 > 0
  {
  }

  lemma UsedIsTail(n: nat)
    ensures n % 0x2000_0000 % 64 == n % 64
  {
  }

  lemma TailOfSum(done: seq<Byte>, tail: seq<Byte>)
    requires |done| % 64 == 0 && |tail| < 64
    ensures |done + tail| % 64 == |tail|
    ensures (done + tail)[|done + tail| - |tail|..] == tail
  {
  }

  // lo < saved_lo after masking exactly when the 29-bit sum carried.
  lemma CarryCount(lo: nat, size: nat, lo': nat)
    requires lo < 0x2000_0000 && lo' == And((lo + size) % 0x1_0000_0000_0000_0000, 0x1fff_ffff)
    ensures lo' == (lo + size) % 0x2000_0000
    ensures (if lo' < lo then 1 else 0) + size / 0x2000_0000 == (lo + size) / 0x2000_0000
  {
    hide Pow2, Bitwise;
    Pow2Constants();
    AndMask((lo + size) % 0x1_0000_0000_0000_0000, 29);
    DivModSplit(lo + size, 0x2000_0000, 0x8_0000_0000);
  }

  // Two wrapping additions to hi add to its low half.
  lemma HighCount(w: nat, hi: nat, n: nat)
    requires w >= 32
    ensures 0 <= (hi + n) % Pow2(w) < Pow2(w) && 0 <= (hi + 1) % Pow2(w) < Pow2(w)
    ensures 0 <= ((hi + 1) % Pow2(w) + n) % Pow2(w) < Pow2(w)
    ensures Low((hi + n) % Pow2(w)) == Low(hi + n)
    ensures Low(((hi + 1) % Pow2(w) + n) % Pow2(w)) == Low(hi + 1 + n)
  {
    hide Pow2, Low;
    WrapLow(w, hi + n);
    WrapLow(w, hi + 1);
    var hi' := (hi + 1) % Pow2(w);
    WrapLow(w, hi' + n);
    LowAdd(hi', n);
    LowAdd(hi + 1, n);
  }

  lemma CountAppended(hi: nat, n: nat, k: nat)
    requires Low(hi) == Low(n / 0x2000_0000)
    ensures (n % 0x2000_0000 + k) % 0x2000_0000 == (n + k) % 0x2000_0000
    ensures Low(hi + (n % 0x2000_0000 + k) / 0x2000_0000) == Low((n + k) / 0x2000_0000)
  {
    hide Low;
    var q, r := n / 0x2000_0000, (n % 0x2000_0000 + k) / 0x2000_0000;
    assert q + r == (n + k) / 0x2000_0000;
    LowAdd(hi, r);
    LowAdd(q, r);
  }

  lemma LowOfWord(x: Word)
    ensures Low(x) == x
  {
    ModSmall(x, 0x1_0000_0000);
  }

  lemma ByteOfLow(x: nat, j: nat)
    requires j <= 24
    ensures Shr(Low(x), j) % 0x100 == Shr(x, j) % 0x100
  {
    hide Pow2;
    Pow2Constants();
    ModPow2Nested(x, j, 32);
    ModPow2Nested(Shr(x, j), 8, 32 - j);
  }

  method LowBytes(x: nat) returns (s: seq<Byte>)
    ensures s == Bytes(Low(x), 4)
  {
    hide Bytes;
    FourBytes(x);
    s := [x % 0x100, Shr(x, 8) % 0x100, Shr(x, 16) % 0x100, Shr(x, 24) % 0x100];
  }

  // The bytes of a word come from its low half only.
  lemma FourBytes(x: nat)
    ensures Bytes(Low(x), 4) == [x % 0x100, Shr(x, 8) % 0x100, Shr(x, 16) % 0x100, Shr(x, 24) % 0x100]
  {
    hide Pow2, Low, Bytes;
    Pow2Constants();
    Pow2Step(1, 0);
    ByteOfLow(x, 0);
    ByteOfLow(x, 8);
    ByteOfLow(x, 16);
    ByteOfLow(x, 24);
    var n := Low(x);
    BytesStep(n, 3);
    BytesStep(n / 0x100, 2);
    BytesStep(n / 0x1_0000, 1);
    BytesStep(n / 0x100_0000, 0);
    assert n / 0x100 / 0x100 == n / 0x1_0000 && n / 0x1_0000 / 0x100 == n / 0x100_0000;
  }

  lemma BytesStep(n: nat, k: nat)
    ensures Bytes(n, k + 1) == [n % 0x100] + Bytes(n / 0x100, k)
    ensures Bytes(n, 0) == []
  {
  }

  lemma {:induction false} BytesSplit(x: nat, y: nat, k: nat, m: nat)
    requires y < Pow2(8 * k)
    ensures Bytes(x * Pow2(8 * k) + y, k + m) == Bytes(y, k) + Bytes(x, m)
    decreases k
  {
    hide Bytes, Pow2;
    if k == 0 {
      Pow2Step(x, 0);
      Pow2Step(1, 0);
      BytesStep(y, 0);
    } else {
      var p := Pow2(8 * (k - 1));
      var n := x * Pow2(8 * k) + y;
      Pow2Constants();
      Pow2Add(8 * (k - 1), 8);
      MulAssoc(x, p, 0x100);
      DivModUnique(n, 0x100, x * p + y / 0x100, y % 0x100);
      BytesSplit(x, y / 0x100, k - 1, m);
      BytesStep(n, k - 1 + m);
      BytesStep(y, k - 1);
    }
  }

  // The 64-bit length in bits is lo << 3 below hi.
  lemma LengthWords(n: nat)
    ensures n % 0x2000_0000 * 8 < 0x1_0000_0000
    ensures Bytes(BitLength(n), 8) == Bytes(n % 0x2000_0000 * 8, 4) + Bytes(Low(n / 0x2000_0000), 4)
  {
    hide Bytes;
    var q, r := n / 0x2000_0000, n % 0x2000_0000;
    DivModUnique(8 * n, 0x1_0000_0000_0000_0000, q / 0x1_0000_0000, Low(q) * 0x1_0000_0000 + r * 8);
    Pow2Constants();
    BytesSplit(Low(q), r * 8, 4, 4);
  }

  // ---------- a whole run ----------

  // However the message is cut up, and however wide the words are beyond 32 bits,
  // the digest is the one RFC 1321 gives the whole message.
  method DigestInChunks(width: nat, chunks: seq<seq<Byte>>) returns (result: seq<Byte>)
    requires width >= 32
    requires forall i :: 0 <= i < |chunks| ==> |chunks[i]| < 0x1_0000_0000_0000_0000
    ensures result == Md5(Concat(chunks))
  {
    hide Md5;
    var ctx := new Context(width);
    ctx.Init();
    for i := 0 to |chunks|
      invariant fresh(ctx) && fresh(ctx.buffer) && fresh(ctx.block)
      invariant ctx.Absorbed(Concat(chunks[..i]))
    {
      ConcatOneMore(chunks, i);
      ctx.Update(chunks[i], Concat(chunks[..i]));
    }
    assert chunks[..|chunks|] == chunks;
    result := ctx.Final(Concat(chunks));
  }
}
