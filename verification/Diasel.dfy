/** diasel.c: pick the cnt most frequent high characters of a string in one pass
    over an 8-bit histogram. */
module Diasel {
  import opened Bits
  import opened Sequences

  const THRESH: nat := 160
  const STATS: nat := 96

  // The counts of the high characters of a string.
  ghost predicate IsHistogram(stat: seq<nat>, s: seq<Byte>)
  {
    |stat| == STATS && forall c: Byte :: c >= THRESH ==> stat[c - THRESH] == Occurrences<Byte>(s, c)
  }

  lemma OneMore(stat: seq<nat>, input: seq<Byte>, n: nat)
    requires n < |input| && IsHistogram(stat, input[..n])
    ensures var c := input[n];
      IsHistogram(if c >= THRESH then stat[c - THRESH := stat[c - THRESH] + 1] else stat, input[..n + 1])
  {
    var c0, scanned := input[n], input[..n + 1];
    assert scanned == input[..n] + [c0];
    var stat' := if c0 >= THRESH then stat[c0 - THRESH := stat[c0 - THRESH] + 1] else stat;
    forall c: Byte | c >= THRESH
      ensures stat'[c - THRESH] == Occurrences<Byte>(scanned, c)
    {
      assert stat[c - THRESH] == Occurrences<Byte>(input[..n], c);
      OccurrencesAppend<Byte>(input[..n], c0, c);
    }
  }

  lemma StillRare(stat: seq<nat>, input: seq<Byte>, n: nat)
    requires n < |input| && IsHistogram(stat, input[..n]) && forall k :: 0 <= k < STATS ==> stat[k] < 0xff
    ensures forall c: Byte :: c >= THRESH ==> Occurrences<Byte>(input[..n], c) < 0xff
  {
    forall c: Byte | c >= THRESH
      ensures Occurrences<Byte>(input[..n], c) < 0xff
    {
      assert stat[c - THRESH] == Occurrences<Byte>(input[..n], c);
    }
  }

  // Lines 14-23; a C string has no zero before its end.  The counts are exact for
  // the prefix of n characters that was scanned, and never pass 255.
  method Histogram(input: seq<Byte>, stat: array<nat>) returns (n: nat)
    requires 0 !in input && stat.Length == STATS
    modifies stat
    ensures n <= |input| && IsHistogram(stat[..], input[..n])
    ensures forall k :: 0 <= k < STATS ==> stat[k] <= 0xff
    ensures n == |input| || exists k :: 0 <= k < STATS && stat[k] == 0xff
    ensures forall c: Byte, m :: c >= THRESH && 0 <= m < n ==> Occurrences<Byte>(input[..m], c) < 0xff
  {
    for a := 0 to STATS
      invariant forall k :: 0 <= k < a ==> stat[k] == 0
    {
      stat[a] := 0;
    }
    n := 0;
    while n < |input|
      invariant n <= |input|
      invariant IsHistogram(stat[..], input[..n])
      invariant forall k :: 0 <= k < STATS ==> stat[k] < 0xff
      invariant forall c: Byte, m :: c >= THRESH && 0 <= m < n ==> Occurrences<Byte>(input[..m], c) < 0xff
    {
      var c := input[n];
      StillRare(stat[..], input, n);
      OneMore(stat[..], input, n);
      n := n + 1;
      if c >= THRESH {
        stat[c - THRESH] := stat[c - THRESH] + 1;
        // a count that fills its byte ends the scan
        if stat[c - THRESH] == 0xff {
          break;
        }
      }
    }
  }

  // ---------- selection ----------

  // The count of a high character.
  function CountOf(stat: seq<nat>, c: nat): nat
    requires |stat| == STATS && THRESH <= c < 0x100
  {
    stat[c - THRESH]
  }

  // A slot is in use exactly when its count is not zero.
  ghost predicate Selected(out: seq<nat>, outa: seq<nat>, c: nat)
    requires |out| == |outa|
  {
    exists b :: 0 <= b < |out| && outa[b] > 0 && out[b] == c
  }

  // Used slots hold characters below end with their counts.
  ghost predicate SlotsExact(stat: seq<nat>, end: nat, out: seq<nat>, outa: seq<nat>)
    requires |stat| == STATS && end <= 0x100 && |out| == |outa|
  {
    forall b :: 0 <= b < |out| ==>
      if outa[b] == 0 then out[b] == 0
      else THRESH <= out[b] < end && outa[b] == CountOf(stat, out[b])
  }

  ghost predicate SlotsDistinct(out: seq<nat>, outa: seq<nat>)
    requires |out| == |outa|
  {
    forall b, b' :: 0 <= b < b' < |out| && outa[b] > 0 && outa[b'] > 0 ==> out[b] != out[b']
  }

  // A character that is left out is beaten or matched by every slot.
  ghost predicate OthersRarer(stat: seq<nat>, end: nat, out: seq<nat>, outa: seq<nat>)
    requires |stat| == STATS && end <= 0x100 && |out| == |outa|
  {
    forall c, b :: THRESH <= c < end && CountOf(stat, c) > 0 && !Selected(out, outa, c) && 0 <= b < |out| ==>
      outa[b] >= CountOf(stat, c)
  }

  // The selection among the characters below end.
  ghost predicate IsTop(stat: seq<nat>, end: nat, out: seq<nat>, outa: seq<nat>)
    requires |stat| == STATS && end <= 0x100 && |out| == |outa|
  {
    SlotsExact(stat, end, out, outa) && SlotsDistinct(out, outa) && OthersRarer(stat, end, out, outa)
  }

  // Lines 29-34.
  method FindMin(outa: array<nat>) returns (mpos: nat)
    requires outa.Length > 0 && forall b :: 0 <= b < outa.Length ==> outa[b] <= 0xff
    ensures mpos < outa.Length
    ensures forall b :: 0 <= b < outa.Length ==> outa[mpos] <= outa[b]
  {
    var m := 0xff;
    mpos := 0;
    for b := 0 to outa.Length
      invariant mpos < outa.Length && m <= 0xff
      invariant (m == 0xff && mpos == 0) || m == outa[mpos]
      invariant forall k :: 0 <= k < b ==> m <= outa[k]
    {
      if m > outa[b] {
        m := outa[b];
        mpos := b;
      }
    }
  }

  // Lines 25-40.
  method Select(stat: array<nat>, out: array<nat>, outa: array<nat>)
    requires stat.Length == STATS && forall k :: 0 <= k < STATS ==> stat[k] <= 0xff
    requires out.Length == outa.Length > 0 && out != outa && stat != out && stat != outa
    modifies out, outa
    ensures IsTop(stat[..], 0x100, out[..], outa[..])
  {
    for a := 0 to out.Length
      invariant forall b :: 0 <= b < a ==> out[b] == 0 && outa[b] == 0
    {
      outa[a] := 0;
      out[a] := outa[a];
    }
    ghost var counts := stat[..];
    hide IsTop;
    NoneIsTop(counts, out[..], outa[..]);
    for a := 0 to STATS
      invariant stat[..] == counts
      invariant forall b :: 0 <= b < outa.Length ==> outa[b] <= 0xff
      invariant IsTop(counts, THRESH + a, out[..], outa[..])
    {
      ghost var o: seq<nat>, c: seq<nat> := out[..], outa[..];
      assert stat[a] == counts[a] == CountOf(counts, THRESH + a);
      hide CountOf;
      if stat[a] != 0 {
        var mpos := FindMin(outa);
        ReplaceMin(counts, THRESH + a, o, c, mpos);
        if stat[a] > outa[mpos] {
          outa[mpos] := stat[a];
          out[mpos] := a + THRESH;
          assert out[..] == o[mpos := THRESH + a] && outa[..] == c[mpos := CountOf(counts, THRESH + a)];
        }
      } else {
        SkipAbsent(counts, THRESH + a, o, c);
      }
    }
  }

  lemma NoneIsTop(stat: seq<nat>, out: seq<nat>, outa: seq<nat>)
    requires |stat| == STATS && |out| == |outa| && forall b :: 0 <= b < |out| ==> out[b] == 0 && outa[b] == 0
    ensures IsTop(stat, THRESH, out, outa)
  {
  }

  lemma SkipAbsent(stat: seq<nat>, d: nat, out: seq<nat>, outa: seq<nat>)
    requires |stat| == STATS && THRESH <= d < 0x100 && |out| == |outa| && CountOf(stat, d) == 0
    requires IsTop(stat, d, out, outa)
    ensures IsTop(stat, d + 1, out, outa)
  {
    hide CountOf, Selected;
  }

  // Character d replaces the slot with the least count, or is no more frequent than any.
  lemma ReplaceMin(stat: seq<nat>, d: nat, out: seq<nat>, outa: seq<nat>, mpos: nat)
    requires |stat| == STATS && THRESH <= d < 0x100 && |out| == |outa| && mpos < |out|
    requires IsTop(stat, d, out, outa) && CountOf(stat, d) > 0
    requires forall b :: 0 <= b < |out| ==> outa[mpos] <= outa[b]
    ensures CountOf(stat, d) > outa[mpos] ==> IsTop(stat, d + 1, out[mpos := d], outa[mpos := CountOf(stat, d)])
    ensures CountOf(stat, d) <= outa[mpos] ==> IsTop(stat, d + 1, out, outa)
  {
    hide CountOf;
    var n := CountOf(stat, d);
    if n > outa[mpos] {
      var out', outa' := out[mpos := d], outa[mpos := n];
      assert out'[mpos] == d && outa'[mpos] > 0;
      assert Selected(out', outa', d);
      forall c, b | THRESH <= c < d + 1 && CountOf(stat, c) > 0 && !Selected(out', outa', c) && 0 <= b < |out'|
        ensures outa'[b] >= CountOf(stat, c)
      {
        StillSelected(out, outa, mpos, d, n, c);
      }
    }
  }

  // Only the evicted character stops being selected.
  lemma StillSelected(out: seq<nat>, outa: seq<nat>, mpos: nat, d: nat, n: nat, c: nat)
    requires |out| == |outa| && mpos < |out| && n > 0
    ensures Selected(out, outa, c) ==> Selected(out[mpos := d], outa[mpos := n], c) || (outa[mpos] > 0 && out[mpos] == c)
  {
    if Selected(out, outa, c) {
      var b :| 0 <= b < |out| && outa[b] > 0 && out[b] == c;
      assert b != mpos ==> outa[mpos := n][b] > 0 && out[mpos := d][b] == c;
    }
  }

  // ---------- what the caller gets ----------

  function Present(stat: seq<nat>): set<nat>
    requires |stat| == STATS
  {
    set c: nat | THRESH <= c < 0x100 && CountOf(stat, c) > 0
  }

  function Elements(s: seq<nat>): set<nat> { set x | x in s }

  lemma {:induction false} ElementsSize(s: seq<nat>)
    requires forall i, j :: 0 <= i < j < |s| ==> s[i] != s[j]
    ensures |Elements(s)| == |s|
  {
    if s == [] {
      assert Elements(s) == {};
    } else {
      var n := |s| - 1;
      ElementsSize(s[..n]);
      assert Elements(s) == Elements(s[..n]) + {s[n]};
      assert s[n] !in s[..n];
    }
  }

  lemma SubsetSize(a: set<nat>, b: set<nat>)
    requires a <= b
    ensures |a| <= |b|
  {
    assert b == a + (b - a);
  }

  // When at most cnt characters are distinct, every one of them is selected.
  lemma FewAreAllSelected(stat: seq<nat>, out: seq<nat>, outa: seq<nat>)
    requires |stat| == STATS && |out| == |outa| && IsTop(stat, 0x100, out, outa)
    requires |Present(stat)| <= |out|
    ensures forall c :: c in Present(stat) ==> Selected(out, outa, c)
  {
    hide CountOf;
    forall c | c in Present(stat)
      ensures Selected(out, outa, c)
    {
      if !Selected(out, outa, c) {
        assert forall b :: 0 <= b < |out| ==> outa[b] >= CountOf(stat, c) > 0;
        assert forall b :: 0 <= b < |out| ==> out[b] in Present(stat);
        assert c !in out;
        ElementsSize(out);
        SubsetSize(Elements(out), Present(stat) - {c});
      }
    }
  }

  // The whole function for cnt = out.Length; counts stands for the local outa[].
  method Diasel(out: array<nat>, input: seq<Byte>) returns (n: nat, ghost stat: seq<nat>, ghost counts: seq<nat>)
    requires 0 !in input && 1 <= out.Length <= 0xff
    modifies out
    ensures n <= |input| && IsHistogram(stat, input[..n])
    ensures n == |input| || exists k :: 0 <= k < STATS && stat[k] == 0xff
    ensures |counts| == out.Length && IsTop(stat, 0x100, out[..], counts)
  {
    var h := new nat[STATS];
    n := Histogram(input, h);
    stat := h[..];
    assert (exists k :: 0 <= k < STATS && h[k] == 0xff) ==> exists k :: 0 <= k < STATS && stat[k] == 0xff by {
      if k :| 0 <= k < STATS && h[k] == 0xff {
        assert stat[k] == 0xff;
      }
    }
    var outa := new nat[out.Length];
    hide IsTop;
    Select(h, out, outa);
    counts := outa[..];
    assert h[..] == stat;
  }

  // In terms of the string: selected characters are really there, and none is rarer
  // than a character that was left out.
  lemma SelectedAreMostFrequent(s: seq<Byte>, stat: seq<nat>, out: seq<nat>, outa: seq<nat>, b: nat)
    requires IsHistogram(stat, s) && |out| == |outa| && IsTop(stat, 0x100, out, outa) && b < |out|
    ensures out[b] != 0 ==> 160 <= out[b] < 0x100 && Occurrences<Byte>(s, out[b]) == outa[b] > 0
    ensures forall c :: 160 <= c < 0x100 && Occurrences<Byte>(s, c) > 0 && c !in out ==>
              out[b] != 0 && outa[b] >= Occurrences<Byte>(s, c)
  {
    if out[b] != 0 {
      assert stat[out[b] - THRESH] == Occurrences<Byte>(s, out[b]);
    }
    forall c | THRESH <= c < 0x100 && Occurrences<Byte>(s, c) > 0 && c !in out
      ensures out[b] != 0 && outa[b] >= Occurrences<Byte>(s, c)
    {
      assert stat[c - THRESH] == Occurrences<Byte>(s, c);
      assert !Selected(out, outa, c);
      assert outa[b] >= CountOf(stat, c);
    }
  }
}
