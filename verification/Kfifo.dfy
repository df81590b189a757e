/** kfifo-test.c: a writer sends the digits 0 to 9 round and round through a FIFO and
    a reader checks that nothing is lost, whatever sizes the calls move. */
module Kfifo {
  import opened Bits
  import opened Sequences

  type Char = c: int | -128 <= c < 128        // signed char

  const ZERO: int := 48                       // '0'
  const ERRORS: nat := 2

  // Conversion of an int to char.
  function ToChar(x: int): Char { (x + 128) % 256 - 128 }

  // The C remainder, which takes the sign of x.
  function Rem10(x: int): int { if x < 0 then -(-x % 10) else x % 10 }

  // ---------- what the reader should report ----------

  // What last becomes after c: the digit after c.
  function After(c: Char): Char { Rem10(ToChar(ToChar(c - ZERO) + 1)) }

  // What dump expects to come next.
  function Expected(s: seq<Char>): Char
  {
    if s == [] then 0 else After(s[|s| - 1])
  }

  // The offsets at which the stream does not go on with the next digit.
  function Breaks(s: seq<Char>): seq<nat>
  {
    if s == [] then []
    else
      var n := |s| - 1;
      Breaks(s[..n]) + if s[n] - ZERO != Expected(s[..n]) then [n] else []
  }

  lemma BreaksAppend(s: seq<Char>, c: Char)
    ensures Breaks(s + [c]) == Breaks(s) + if c - ZERO != Expected(s) then [|s|] else []
    ensures Expected(s + [c]) == After(c)
  {
    hide After;
    assert (s + [c])[..|s|] == s;
  }

  lemma {:induction false} BreaksPrefix(s: seq<Char>, t: seq<Char>)
    ensures Breaks(s) <= Breaks(s + t)
    decreases |t|
  {
    if t == [] {
      assert s + t == s;
    } else {
      var n := |t| - 1;
      BreaksPrefix(s, t[..n]);
      assert s + t == (s + t[..n]) + [t[n]];
      BreaksAppend(s + t[..n], t[n]);
    }
  }

  // Among digits a break is a place where the digit is not the next one.
  lemma AfterDigit(c: Char)
    requires 48 <= c < 58
    ensures After(c) == (c - ZERO + 1) % 10
  {
  }

  // By position, for any stream: what follows a character depends on it only.
  lemma {:induction false} BreaksByPosition(s: seq<Char>, i: nat)
    ensures i in Breaks(s) <==> i < |s| && s[i] as int - 48 != if i == 0 then 0 else After(s[i - 1]) as int
  {
    if s != [] {
      BreaksByPosition(s[..|s| - 1], i);
    }
  }

  // The last digit of the character's distance from 47, with the sign of C's remainder;
  // characters below -80 wrap on the way.
  lemma AfterAnyChar(c: Char)
    ensures c >= -80 ==> After(c) == if c >= 47 then (c - 47) % 10 else -((47 - c) % 10)
    ensures c < -81 ==> After(c) == (c + 209) % 10
    ensures c == -81 ==> After(c) == -8
  {
  }

  // In particular: in a stream of digits the offset i is a break exactly when the digit
  // there is not the one after its predecessor, or not 0 at the start.
  lemma {:induction false} BreaksOfDigits(s: seq<Char>, i: nat)
    requires forall k :: 0 <= k < |s| ==> 48 <= s[k] < 58
    ensures i in Breaks(s) <==> i < |s| && s[i] - 48 != if i == 0 then 0 else (s[i - 1] - 48 + 1) % 10
  {
    if s != [] {
      var n := |s| - 1;
      BreaksOfDigits(s[..n], i);
      if i == n > 0 {
        AfterDigit(s[n - 1]);
      }
    }
  }

  // Breaks lists offsets in increasing order, so its members determine it.
  lemma {:induction false} BreaksIncrease(s: seq<Char>)
    ensures forall a :: 0 <= a < |Breaks(s)| ==> Breaks(s)[a] < |s|
    ensures forall a, b :: 0 <= a < b < |Breaks(s)| ==> Breaks(s)[a] < Breaks(s)[b]
  {
    if s != [] {
      BreaksIncrease(s[..|s| - 1]);
    }
  }

  // ---------- dump, lines 25-59 ----------

  class Dump {
    var chunk: nat
    var off: nat
    var errors: nat
    var last: Char
    var warned: seq<nat>                      // offsets warned about, in order

    constructor ()
      ensures Seen([])
    {
      chunk, off, errors, last, warned := 0, 0, 0, 0, [];
    }

    // The state after a stream that did not make the reader give up.
    ghost predicate Seen(s: seq<Char>)
      reads this
    {
      off == |s| && last == Expected(s) && warned == Breaks(s) && errors == |warned| <= ERRORS + 1
    }

    // One character: lines 34-51.
    method Check(c: Char, ghost s: seq<Char>) returns (exit: bool)
      requires Seen(s)
      modifies this
      ensures !exit ==> Seen(s + [c])
      ensures exit ==> |Breaks(s + [c])| == ERRORS + 2 && warned == Breaks(s + [c])
      ensures chunk == old(chunk)
    {
      hide Breaks, Expected;
      BreaksAppend(s, c);
      LastStays(c, last);
      if c - ZERO != last {
        warned := warned + [off];
        last := ToChar(c - ZERO);
        errors := errors + 1;
        if errors - 1 > ERRORS {
          return true;
        }
      }
      last := ToChar(last + 1);
      last := Rem10(last);
      off := off + 1;
      exit := false;
    }

    // True when the program exits with too many errors.
    method Run(buf: seq<Char>, ghost s: seq<Char>) returns (exit: bool)
      requires Seen(s)
      modifies this
      ensures !exit ==> Seen(s + buf)
      ensures exit ==> |Breaks(s + buf)| > ERRORS + 1 && warned == Breaks(s + buf)[..ERRORS + 2]
      ensures chunk == if exit then old(chunk) else old(chunk) + 1
    {
      hide Breaks, Expected;
      assert s + buf[..0] == s;
      for a := 0 to |buf|
        invariant Seen(s + buf[..a])
        invariant chunk == old(chunk)
      {
        ghost var t := s + buf[..a];
        assert s + buf[..a + 1] == t + [buf[a]];
        exit := Check(buf[a], t);
        if exit {
          BreaksPrefix(t + [buf[a]], buf[a + 1..]);
          assert s + buf == t + [buf[a]] + buf[a + 1..];
          return;
        }
      }
      assert buf[..|buf|] == buf;
      chunk := chunk + 1;
      exit := false;
    }
  }

  // A character that is the expected one leaves last as a warning would.
  lemma LastStays(c: Char, last: Char)
    ensures c - ZERO == last ==> ToChar(c - ZERO) == last
    ensures -128 <= Rem10(ToChar(ToChar(c - ZERO) + 1)) < 128
    ensures After(c) == Rem10(ToChar(ToChar(c - ZERO) + 1))
  {
  }

  // However the stream arrives in chunks, exactly its breaks are reported, and the
  // fourth one ends the program.
  method CheckStream(chunks: seq<seq<Char>>) returns (warned: seq<nat>, exit: bool)
    ensures exit <==> |Breaks(Concat(chunks))| > 3
    ensures warned == if exit then Breaks(Concat(chunks))[..4] else Breaks(Concat(chunks))
  {
    assert Concat(chunks[..0]) == [];
    var d := new Dump();
    hide Breaks, Expected, Concat;
    for i := 0 to |chunks|
      invariant fresh(d) && d.Seen(Concat(chunks[..i]))
    {
      ConcatOneMore(chunks, i);
      var e := d.Run(chunks[i], Concat(chunks[..i]));
      if e {
        ConcatPrefix(chunks, i + 1);
        var s, t := Concat(chunks[..i + 1]), Concat(chunks);
        BreaksPrefix(s, t[|s|..]);
        assert s + t[|s|..] == t;
        return d.warned, true;
      }
    }
    assert chunks[..|chunks|] == chunks;
    return d.warned, false;
  }

  // ---------- the writer, lines 105-138 ----------

  // roundup(x, y).
  function RoundUp(x: nat, y: nat): nat
    requires y > 0
  {
    (x + (y - 1)) / y * y
  }

  lemma RoundUpToTen(x: nat)
    requires x > 0
    ensures RoundUp(x, 10) % 10 == 0 && RoundUp(x, 10) >= x && RoundUp(x, 10) < x + 10
  {
  }

  function Digit(k: nat): Char { ZERO + k % 10 }

  // The n characters of the stream from position k on.
  function Digits(k: nat, n: nat): seq<Char>
  {
    seq<Char>(n, i requires 0 <= i < n => Digit(k + i))
  }

  lemma DigitsSplit(k: nat, m: nat, n: nat)
    ensures Digits(k, m) + Digits(k + m, n) == Digits(k, m + n)
  {
  }

  lemma DigitsByPosition(n: nat)
    ensures |Digits(0, n)| == n && forall k :: 0 <= k < n ==> Digits(0, n)[k] as int == 48 + k % 10
  {
    forall k | 0 <= k < n
      ensures Digits(0, n)[k] as int == 48 + k % 10
    {
      assert Digits(0, n)[k] == Digit(0 + k);
    }
  }

  lemma DigitsSlice(n: nat, i: nat, j: nat)
    requires i <= j <= n
    ensures Digits(0, n)[i..j] == Digits(i, j - i)
  {
  }

  lemma DigitsAppend(n: nat)
    ensures |Digits(0, n)| == n
    ensures Digits(0, n + 1) == Digits(0, n) + [Digit(n)]
  {
  }

  lemma DigitsPeriod(j: nat, k: nat, n: nat)
    requires j % 10 == k % 10
    ensures Digits(j, n) == Digits(k, n)
  {
    var s, t := Digits(j, n), Digits(k, n);
    forall i | 0 <= i < n
      ensures s[i] == t[i]
    {
      SumsAgree(j, k, i);
    }
  }

  lemma SumsAgree(j: nat, k: nat, i: nat)
    requires j % 10 == k % 10
    ensures (j + i) % 10 == (k + i) % 10
  {
  }

  // The stream goes on with the next digit at every place.
  lemma {:induction false} DigitsDoNotBreak(n: nat)
    ensures Breaks(Digits(0, n)) == []
    ensures Expected(Digits(0, n)) == n % 10
  {
    hide Breaks, Expected, Digits, After;
    NoDigits();
    if n > 0 {
      DigitsDoNotBreak(n - 1);
      DigitsAppend(n - 1);
      BreaksAppend(Digits(0, n - 1), Digit(n - 1));
      AfterDigit(Digit(n - 1));
      NextDigit(n);
    }
  }

  lemma NextDigit(n: nat)
    requires n > 0
    ensures ((n - 1) % 10 + 1) % 10 == n % 10
  {
  }

  lemma NoDigits()
    ensures Digits(0, 0) == [] && Breaks([]) == [] && Expected([]) == 0
  {
  }

  class Writer {
    const prefill: array<Char>
    var off: nat

    ghost predicate Valid()
      reads this, prefill
    {
      && prefill.Length > 0 && prefill.Length % 10 == 0 && off <= prefill.Length
      && prefill[..] == Digits(0, prefill.Length)
    }

    constructor (fifoSize: nat)
      requires fifoSize > 0
      ensures Valid() && off == 0 && fresh(prefill) && prefill.Length == RoundUp(fifoSize, 10)
    {
      hide RoundUp;
      RoundUpToTen(fifoSize);
      var p := new Char[RoundUp(fifoSize, 10)];
      prefill := p;
      off := 0;
      new;
      for a := 0 to prefill.Length
        invariant forall i :: 0 <= i < a ==> prefill[i] == Digit(i)
        invariant off == 0 && fresh(prefill)
      {
        prefill[a] := ZERO + a % 10;
      }
      assert prefill[prefill.Length - 1] == ZERO + 9;
      assert prefill[..] == Digits(0, prefill.Length);
    }

    // One turn that writes; the FIFO takes from one to all of the bytes offered.
    method Write(want: nat, ghost position: nat) returns (sent: seq<Char>)
      requires Valid() && want > 0 && off % 10 == position % 10
      modifies this
      ensures Valid() && off % 10 == (position + |sent|) % 10
      ensures |sent| == Least(want, prefill.Length - Wrapped(old(off), prefill.Length)) > 0
      ensures off == Wrapped(old(off), prefill.Length) + |sent|
      ensures sent == Digits(position, |sent|)
    {
      var cnt := prefill.Length - off;
      if cnt == 0 {
        off := 0;
        cnt := prefill.Length;
      }
      var wr := if want < cnt then want else cnt;
      hide Digits;
      sent := prefill[off..off + wr];
      DigitsSlice(prefill.Length, off, off + wr);
      assert sent == prefill[..][off..off + wr];
      DigitsPeriod(off, position, wr);
      SumsAgree(off, position, wr);
      off := off + wr;
    }
  }

  // ---------- the two processes around the FIFO ----------

  // What one turn of either process asks to move.
  datatype Step = WriteUpTo(n: nat) | ReadUpTo(n: nat)

  // How far both sides have come: the writer's offset, and the bytes written and read.
  datatype Flow = Flow(off: nat, written: nat, read: nat)

  function Wrapped(off: nat, size: nat): nat { if off == size then 0 else off }

  function FlowStep(fifoSize: nat, size: nat, f: Flow, step: Step): Flow
    requires f.read <= f.written && f.off <= size
  {
    match step
    case WriteUpTo(n) =>
      if n == 0 then f
      else
        var off := Wrapped(f.off, size);
        var wr := Least(n, size - off);
        f.(off := off + wr, written := f.written + wr)
    case ReadUpTo(n) =>
      f.(read := f.read + Least(n, Least(f.written - f.read, fifoSize / 8)))
  }

  function FlowAfter(fifoSize: nat, schedule: seq<Step>): (f: Flow)
    ensures f.read <= f.written && f.off <= RoundUp(fifoSize, 10)
  {
    if schedule == [] then Flow(0, 0, 0)
    else FlowStep(fifoSize, RoundUp(fifoSize, 10), FlowAfter(fifoSize, schedule[..|schedule| - 1]), schedule[|schedule| - 1])
  }

  lemma FlowOfPrefix(fifoSize: nat, schedule: seq<Step>, i: nat)
    requires i < |schedule|
    ensures FlowAfter(fifoSize, schedule[..i + 1])
         == FlowStep(fifoSize, RoundUp(fifoSize, 10), FlowAfter(fifoSize, schedule[..i]), schedule[i])
    ensures FlowAfter(fifoSize, []) == Flow(0, 0, 0)
  {
    hide FlowStep, RoundUp;
    assert schedule[..i + 1][..i] == schedule[..i];
  }

  // ---------- how much moves ----------

  // A turn of the reader takes as much as it asks for, as there is, and as an eighth of
  // the FIFO holds, whichever is least.
  lemma ReadAdvances(fifoSize: nat, schedule: seq<Step>, n: nat)
    ensures var f, g := FlowAfter(fifoSize, schedule), FlowAfter(fifoSize, schedule + [ReadUpTo(n)]);
      var moved, queued := g.read - f.read, f.written - f.read;
      && (schedule == [] ==> f.written == 0 && f.read == 0)
      && g.written == f.written
      && moved <= n && moved <= queued && moved <= fifoSize / 8
      && (moved == n || moved == queued || moved == fifoSize / 8)
      && (n > 0 && queued > 0 && fifoSize >= 8 ==> moved > 0)
  {
    FlowOfPrefix(fifoSize, schedule + [ReadUpTo(n)], |schedule|);
    assert (schedule + [ReadUpTo(n)])[..|schedule|] == schedule;
    assert (schedule + [ReadUpTo(n)])[..|schedule| + 1] == schedule + [ReadUpTo(n)];
    assert FlowAfter(fifoSize, []) == Flow(0, 0, 0);
    hide FlowAfter;
  }

  // The buffer is written round and round, so its offset is the count of bytes written.
  lemma {:induction false} OffsetFollowsCount(fifoSize: nat, schedule: seq<Step>)
    requires fifoSize > 0
    ensures var f, size := FlowAfter(fifoSize, schedule), RoundUp(fifoSize, 10);
      size > 0 && (if f.off == size then 0 else f.off) == f.written % size
  {
    var size := RoundUp(fifoSize, 10);
    RoundUpToTen(fifoSize);
    if schedule == [] {
      ModSmall(0, size);
    } else {
      var n := |schedule| - 1;
      var f := FlowAfter(fifoSize, schedule[..n]);
      OffsetFollowsCount(fifoSize, schedule[..n]);
      assert schedule[..n + 1] == schedule;
      FlowOfPrefix(fifoSize, schedule, n);
      hide RoundUp, FlowAfter;
      ModBelow(f.written, size);
      if schedule[n].WriteUpTo? && schedule[n].n > 0 {
        OffsetStep(f.written, size, Least(schedule[n].n, size - f.written % size));
      }
    }
  }

  lemma OffsetStep(x: nat, size: nat, wr: nat)
    requires size > 0 && wr <= size - x % size
    ensures (x + wr) % size == if x % size + wr == size then 0 else x % size + wr
  {
    var q, off := x / size, x % size;
    assert x + wr == q * size + (off + wr);
    ModBelow(x, size);
    if off + wr == size {
      MulDistributes(q, 1, size);
      DivModUnique(x + wr, size, q + 1, 0);
    } else {
      DivModUnique(x + wr, size, q, off + wr);
    }
  }

  // A turn of the writer puts in as much as it is allowed and as is left of the buffer.
  lemma WriteAdvances(fifoSize: nat, schedule: seq<Step>, n: nat)
    requires fifoSize > 0
    ensures var f, g, size := FlowAfter(fifoSize, schedule), FlowAfter(fifoSize, schedule + [WriteUpTo(n)]), RoundUp(fifoSize, 10);
      var moved := g.written - f.written;
      && g.read == f.read && size > 0
      && 0 <= moved <= n && moved <= size - f.written % size
      && (moved == n || moved == size - f.written % size)
      && (n > 0 ==> moved > 0)
  {
    OffsetFollowsCount(fifoSize, schedule);
    FlowOfPrefix(fifoSize, schedule + [WriteUpTo(n)], |schedule|);
    assert (schedule + [WriteUpTo(n)])[..|schedule|] == schedule;
    assert (schedule + [WriteUpTo(n)])[..|schedule| + 1] == schedule + [WriteUpTo(n)];
    RoundUpToTen(fifoSize);
    hide RoundUp, FlowAfter;
    ModBelow(FlowAfter(fifoSize, schedule).written, RoundUp(fifoSize, 10));
  }

  lemma ModBelow(x: nat, d: nat)
    requires d > 0
    ensures 0 <= x % d < d
  {
  }

  function Reads(n: nat, turns: nat): seq<Step>
  {
    if turns == 0 then [] else Reads(n, turns - 1) + [ReadUpTo(n)]
  }

  // As many turns of the reader as bytes are queued leave the FIFO empty.
  lemma {:induction false} ReadsDrain(fifoSize: nat, schedule: seq<Step>, n: nat, turns: nat)
    requires fifoSize >= 8 && n > 0
    ensures var f, g := FlowAfter(fifoSize, schedule), FlowAfter(fifoSize, schedule + Reads(n, turns));
      && g.written == f.written && g.written - g.read <= (if turns < f.written - f.read then f.written - f.read - turns else 0)
  {
    if turns == 0 {
      assert schedule + [] == schedule;
    } else {
      assert schedule + Reads(n, turns) == (schedule + Reads(n, turns - 1)) + [ReadUpTo(n)];
      hide FlowAfter, Reads;
      ReadsDrain(fifoSize, schedule, n, turns - 1);
      ReadAdvances(fifoSize, schedule + Reads(n, turns - 1), n);
    }
  }

  // What was received and what is in the FIFO are the stream up to where the writer is.
  ghost predicate InStep(w: Writer, received: seq<Char>, fifo: seq<Char>)
    reads w, w.prefill
  {
    && w.Valid() && w.off % 10 == (|received| + |fifo|) % 10
    && received + fifo == Digits(0, |received| + |fifo|)
  }

  method Send(w: Writer, n: nat, ghost received: seq<Char>, fifo0: seq<Char>, ghost fifoSize: nat, ghost f: Flow)
    returns (fifo: seq<Char>)
    requires n > 0 && InStep(w, received, fifo0)
    requires f == Flow(w.off, |received| + |fifo0|, |received|)
    modifies w
    ensures InStep(w, received, fifo)
    ensures Flow(w.off, |received| + |fifo|, |received|) == FlowStep(fifoSize, w.prefill.Length, f, WriteUpTo(n))
  {
    hide Digits;
    ghost var position := |received| + |fifo0|;
    var sent := w.Write(n, position);
    DigitsSplit(0, position, |sent|);
    fifo := fifo0 + sent;
    assert received + fifo == (received + fifo0) + sent;
  }

  method Receive(d: Dump, n: nat, fifoSize: nat, received0: seq<Char>, fifo0: seq<Char>, ghost w: Writer)
    returns (received: seq<Char>, fifo: seq<Char>, exit: bool)
    requires d.Seen(received0) && InStep(w, received0, fifo0)
    modifies d
    ensures d.Seen(received) && !exit && InStep(w, received, fifo)
    ensures received + fifo == received0 + fifo0
    ensures Flow(w.off, |received| + |fifo|, |received|)
         == FlowStep(fifoSize, w.prefill.Length, Flow(w.off, |received0| + |fifo0|, |received0|), ReadUpTo(n))
  {
    hide Digits, Breaks, Expected;
    received, fifo, exit := received0, fifo0, false;
    var rd := Least(n, Least(|fifo|, fifoSize / 8));          // read(fd, buf, sizeof(buf))
    if rd > 0 {
      exit := d.Run(fifo[..rd], received);
      assert (received + fifo[..rd]) + fifo[rd..] == received + fifo;
      received, fifo := received + fifo[..rd], fifo[rd..];
      StartDoesNotBreak(received, fifo);
    }
  }

  lemma NothingWarned(w: Writer, d: Dump, received: seq<Char>, fifo: seq<Char>)
    requires InStep(w, received, fifo) && d.Seen(received)
    ensures d.warned == [] && received + fifo == Digits(0, |received| + |fifo|)
  {
    StartDoesNotBreak(received, fifo);
  }

  // Any interleaving of writes and reads of any sizes through a FIFO that loses
  // nothing: the reader never warns, and what was received plus what is still in
  // the FIFO is the beginning of the periodic stream.
  method RunBoth(fifoSize: nat, schedule: seq<Step>) returns (received: seq<Char>, fifo: seq<Char>, warned: seq<nat>, exit: bool)
    requires fifoSize > 0
    ensures warned == [] && !exit
    ensures received + fifo == Digits(0, |received| + |fifo|)
    ensures forall k :: 0 <= k < |received| + |fifo| ==> (received + fifo)[k] as int == 48 + k % 10
    ensures |received| == FlowAfter(fifoSize, schedule).read
    ensures |received| + |fifo| == FlowAfter(fifoSize, schedule).written
  {
    assert FlowAfter(fifoSize, schedule[..0]) == Flow(0, 0, 0);
    hide Digits, Breaks, Expected, FlowAfter, RoundUp;
    var w := new Writer(fifoSize);
    var d := new Dump();
    received, fifo, exit := [], [], false;
    NoDigits();
    assert InStep(w, received, fifo);
    hide InStep, Dump.Seen, Writer.Valid;
    for i := 0 to |schedule|
      invariant fresh(w) && fresh(w.prefill) && fresh(d)
      invariant InStep(w, received, fifo) && d.Seen(received) && !exit
      invariant w.prefill.Length == RoundUp(fifoSize, 10)
      invariant FlowAfter(fifoSize, schedule[..i]) == Flow(w.off, |received| + |fifo|, |received|)
    {
      FlowOfPrefix(fifoSize, schedule, i);
      match schedule[i]
      case WriteUpTo(n) =>
        if n > 0 {
          fifo := Send(w, n, received, fifo, fifoSize, Flow(w.off, |received| + |fifo|, |received|));
        }
      case ReadUpTo(n) =>
        received, fifo, exit := Receive(d, n, fifoSize, received, fifo, w);
    }
    assert schedule[..|schedule|] == schedule;
    NothingWarned(w, d, received, fifo);
    DigitsByPosition(|received| + |fifo|);
    warned := d.warned;
  }

  lemma StartDoesNotBreak(s: seq<Char>, t: seq<Char>)
    requires s + t == Digits(0, |s| + |t|)
    ensures Breaks(s) == []
  {
    hide Digits, Breaks;
    DigitsSlice(|s| + |t|, 0, |s|);
    assert s == (s + t)[0..|s|];
    DigitsDoNotBreak(|s|);
  }

  function Least(a: nat, b: nat): nat { if a < b then a else b }
}
