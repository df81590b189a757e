/** Notions about finite sequences that several models use. */
module Sequences {

  ghost predicate NoRepeats<T>(s: seq<T>)
  {
    forall i, j :: 0 <= i < j < |s| ==> s[i] != s[j]
  }

  lemma AppendNoRepeats<T>(s: seq<T>, t: seq<T>)
    requires NoRepeats(s) && NoRepeats(t)
    requires forall a, b :: a in s && b in t ==> a != b
    ensures NoRepeats(s + t)
  {
    var u := s + t;
    forall i, j | 0 <= i < j < |u|
      ensures u[i] != u[j]
    {
      if i < |s| <= j {
        assert u[i] in s && u[j] in t;
      }
    }
  }

  function Concat<T>(chunks: seq<seq<T>>): seq<T>
  {
    if chunks == [] then [] else Concat(chunks[..|chunks| - 1]) + chunks[|chunks| - 1]
  }

  lemma ConcatOneMore<T>(chunks: seq<seq<T>>, i: nat)
    requires i < |chunks|
    ensures Concat(chunks[..i + 1]) == Concat(chunks[..i]) + chunks[i]
  {
    assert chunks[..i + 1][..i] == chunks[..i];
  }

  lemma {:induction false} ConcatPrefix<T>(chunks: seq<seq<T>>, n: nat)
    requires n <= |chunks|
    ensures Concat(chunks[..n]) <= Concat(chunks)
  {
    if n < |chunks| {
      var m := |chunks| - 1;
      ConcatPrefix(chunks[..m], n);
      assert chunks[..m][..n] == chunks[..n];
    } else {
      assert chunks[..n] == chunks;
    }
  }

  function Occurrences<T(==)>(s: seq<T>, x: T): nat
  {
    if s == [] then 0
    else Occurrences(s[..|s| - 1], x) + if s[|s| - 1] == x then 1 else 0
  }

  lemma OccurrencesAppend<T>(s: seq<T>, y: T, x: T)
    ensures Occurrences(s + [y], x) == Occurrences(s, x) + if y == x then 1 else 0
  {
    assert (s + [y])[..|s|] == s;
  }

  // The number of places that hold x.
  lemma {:induction false} OccurrencesAreMultiplicity<T>(s: seq<T>, x: T)
    ensures Occurrences(s, x) == multiset(s)[x]
  {
    if s != [] {
      var n := |s| - 1;
      OccurrencesAreMultiplicity(s[..n], x);
      assert s == s[..n] + [s[n]];
    }
  }

  // Read from the front, the chunks follow one another.
  lemma {:induction false} ConcatFromFront<T>(c: seq<T>, cs: seq<seq<T>>)
    ensures Concat<T>([]) == []
    ensures Concat([c] + cs) == c + Concat(cs)
  {
    var all, n := [c] + cs, |cs|;
    assert Concat(all) == Concat(all[..n]) + all[n];
    assert cs != [] ==> Concat(cs) == Concat(cs[..n - 1]) + cs[n - 1];
    assert Concat<T>([]) == [];
    hide Concat;
    if cs == [] {
      assert all[..n] == [];
    } else {
      ConcatFromFront(c, cs[..n - 1]);
      assert all[..n] == [c] + cs[..n - 1];
    }
  }
}
