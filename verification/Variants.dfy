/** cr.c built with VARIANTS: enumerating in place every way to substitute
    characters of a dictionary word, and hashing each of them with MD5. */
module Variants {
  import opened Bits
  import opened Sequences
  import opened Rfc1321
  import S = Md5Step
  import M = Md5

  type Text = seq<Byte>

  // subs[], lines 15-24, has a slot for each character below 'z' only.
  const TABLE_SIZE: nat := 122

  function Subs(c: nat): seq<Byte>
  {
    if c == 97 then [64, 52]            // a: @ 4
    else if c == 98 then [56]           // b: 8
    else if c == 101 then [51]          // e: 3
    else if c == 105 then [33]          // i: !
    else if c == 108 then [49]          // l: 1
    else if c == 111 then [48]          // o: 0
    else if c == 115 then [36, 53]      // s: $ 5
    else if c == 116 then [55]          // t: 7
    else []
  }

  function ToLower(c: Byte): Byte { if 65 <= c <= 90 then c + 32 else c }

  function SubsAt(word: Text, i: nat): seq<Byte>
    requires i < |word|
  {
    Subs(ToLower(word[i]))
  }

  function Lowered(word: Text): Text
  {
    seq(|word|, i requires 0 <= i < |word| => ToLower(word[i]))
  }

  // What the C strings of one line satisfy: no zero inside, and every lowered
  // character has a slot in the table.
  predicate IsWord(word: Text)
  {
    forall i :: 0 <= i < |word| ==> word[i] != 0 && ToLower(word[i]) < TABLE_SIZE
  }

  // ---------- the set of variants and its enumeration ----------

  // Each position is kept or substituted.
  predicate IsVariant(v: Text, word: Text)
  {
    |v| == |word| && forall k :: 0 <= k < |word| ==> v[k] == word[k] || v[k] in SubsAt(word, k)
  }

  function Substituted(vs: seq<Text>, i: nat, c: Byte): (s: seq<Text>)
    requires forall v :: v in vs ==> i < |v|
    ensures |s| == |vs|
  {
    seq(|vs|, j requires 0 <= j < |vs| => vs[j][i := c])
  }

  // The list after trying the characters cs at position i of every word of vs.
  function Grow(vs: seq<Text>, i: nat, cs: seq<Byte>): seq<Text>
    requires forall v :: v in vs ==> i < |v|
  {
    if cs == [] then vs
    else Grow(vs, i, cs[..|cs| - 1]) + Substituted(vs, i, cs[|cs| - 1])
  }

  // The list after the first n positions.
  function Enumerate(word: Text, n: nat): (vs: seq<Text>)
    requires n <= |word|
    ensures forall v :: v in vs ==> |v| == |word|
    ensures |vs| == Count(word, n)
  {
    hide Grow, SubsAt;
    if n == 0 then [word]
    else
      GrowLengths(Enumerate(word, n - 1), n - 1, SubsAt(word, n - 1), |word|);
      GrowCount(Enumerate(word, n - 1), n - 1, SubsAt(word, n - 1), Count(word, n - 1));
      Grow(Enumerate(word, n - 1), n - 1, SubsAt(word, n - 1))
  }

  lemma {:induction false} GrowLengths(vs: seq<Text>, i: nat, cs: seq<Byte>, len: nat)
    requires i < len && forall v :: v in vs ==> |v| == len
    ensures forall v :: v in Grow(vs, i, cs) ==> |v| == len
  {
    if cs != [] {
      GrowLengths(vs, i, cs[..|cs| - 1], len);
    }
  }

  lemma {:induction false} GrowCount(vs: seq<Text>, i: nat, cs: seq<Byte>, n: nat)
    requires n == |vs| && forall v :: v in vs ==> i < |v|
    ensures |Grow(vs, i, cs)| == (|cs| + 1) * n
  {
    hide Substituted;
    if cs != [] {
      var k := |cs| - 1;
      GrowCount(vs, i, cs[..k], n);
      MulDistributes(k + 1, 1, n);
    }
  }

  function Count(word: Text, n: nat): (c: nat)
    requires n <= |word|
    ensures c >= 1
  {
    if n == 0 then 1 else (|SubsAt(word, n - 1)| + 1) * Count(word, n - 1)
  }

  lemma EnumerateStep(word: Text, i: nat)
    requires i < |word|
    ensures Enumerate(word, i + 1) == Grow(Enumerate(word, i), i, SubsAt(word, i))
    ensures Count(word, i + 1) == (|SubsAt(word, i)| + 1) * Count(word, i)
  {
    hide Grow, SubsAt;
  }

  lemma {:induction false} GrowMembers(vs: seq<Text>, i: nat, cs: seq<Byte>, w: Text)
    requires forall v :: v in vs ==> i < |v|
    ensures w in Grow(vs, i, cs) <==>
              w in vs || exists v, c :: v in vs && c in cs && w == v[i := c]
  {
    if cs != [] {
      var n := |cs| - 1;
      GrowMembers(vs, i, cs[..n], w);
      var last := Substituted(vs, i, cs[n]);
      if w in last {
        var j :| 0 <= j < |last| && w == last[j];
        assert vs[j] in vs && cs[n] in cs && w == vs[j][i := cs[n]];
      }
      if v, c :| v in vs && c in cs && w == v[i := c] {
        if c !in cs[..n] {
          assert c == cs[n];
          var j :| 0 <= j < |vs| && v == vs[j];
          assert last[j] == w;
        }
      }
      forall c | c in cs[..n]
        ensures c in cs
      {
      }
    }
  }

  // The words found in the first n positions, the rest being as in the original.
  ghost predicate IsPrefixVariant(v: Text, word: Text, n: nat)
    requires n <= |word|
  {
    && |v| == |word|
    && (forall k :: 0 <= k < n ==> v[k] == word[k] || v[k] in SubsAt(word, k))
    && (forall k :: n <= k < |word| ==> v[k] == word[k])
  }

  lemma {:induction false} EnumerateMembers(word: Text, n: nat, w: Text)
    requires n <= |word|
    ensures w in Enumerate(word, n) <==> IsPrefixVariant(w, word, n)
    decreases n
  {
    if n == 0 {
      assert Enumerate(word, 0) == [word];
      assert IsPrefixVariant(w, word, 0) ==> w == word;
    } else {
      var i := n - 1;
      var cs, before := SubsAt(word, i), Enumerate(word, i);
      EnumerateStep(word, i);
      hide SubsAt, Grow, Substituted, Enumerate, IsPrefixVariant;
      GrowMembers(before, i, cs, w);
      EnumerateMembers(word, i, w);
      PrefixVariantStep(word, i, w, word);
      if w in Grow(before, i, cs) && w !in before {
        var v, c :| v in before && c in cs && w == v[i := c];
        EnumerateMembers(word, i, v);
        PrefixVariantStep(word, i, w, v);
      }
      if IsPrefixVariant(w, word, n) && w !in before {
        PrefixVariantLength(word, n, w);
        var v := w[i := word[i]];
        PrefixVariantStep(word, i, w, v);
        EnumerateMembers(word, i, v);
        assert v in before && w[i] in cs && w == v[i := w[i]];
      }
    }
  }

  lemma PrefixVariantLength(word: Text, n: nat, w: Text)
    requires n <= |word| && IsPrefixVariant(w, word, n)
    ensures |w| == |word|
  {
  }

  lemma PrefixVariantStep(word: Text, i: nat, w: Text, v: Text)
    requires i < |word|
    ensures IsPrefixVariant(w, word, i) ==> IsPrefixVariant(w, word, i + 1)
    ensures IsPrefixVariant(v, word, i) && |w| == |v| && w[i] in SubsAt(word, i) && w == v[i := w[i]]
            ==> IsPrefixVariant(w, word, i + 1)
    ensures IsPrefixVariant(w, word, i + 1) && v == w[i := word[i]] ==> IsPrefixVariant(v, word, i)
    ensures IsPrefixVariant(w, word, i + 1) ==> w[i] in SubsAt(word, i) || IsPrefixVariant(w, word, i)
  {
    hide SubsAt;
  }

  lemma EnumerateIsComplete(word: Text, w: Text)
    ensures w in Enumerate(word, |word|) <==> IsVariant(w, word)
  {
    EnumerateMembers(word, |word|, w);
  }

  lemma SubsDiffer(c: Byte)
    ensures NoRepeats(Subs(ToLower(c))) && c !in Subs(ToLower(c))
  {
  }

  lemma {:induction false} GrowNoRepeats(vs: seq<Text>, i: nat, cs: seq<Byte>, c0: Byte, len: nat)
    requires NoRepeats(vs) && NoRepeats(cs) && c0 !in cs && i < len
    requires forall v :: v in vs ==> |v| == len && v[i] == c0
    ensures NoRepeats(Grow(vs, i, cs))
    ensures forall w :: w in Grow(vs, i, cs) ==> |w| == len && (w[i] == c0 || w[i] in cs)
  {
    if cs != [] {
      var n := |cs| - 1;
      var front, last := Grow(vs, i, cs[..n]), Substituted(vs, i, cs[n]);
      GrowNoRepeats(vs, i, cs[..n], c0, len);
      SubstitutedNoRepeats(vs, i, cs[n], c0, len);
      assert cs[n] !in cs[..n];
      forall a, b | a in front && b in last
        ensures a != b
      {
        assert b[i] == cs[n];
      }
      AppendNoRepeats(front, last);
      forall w | w in front + last
        ensures |w| == len && (w[i] == c0 || w[i] in cs)
      {
        assert w in front || w in last;
      }
    }
  }

  lemma SubstitutedNoRepeats(vs: seq<Text>, i: nat, c: Byte, c0: Byte, len: nat)
    requires NoRepeats(vs) && i < len
    requires forall v :: v in vs ==> |v| == len && v[i] == c0
    ensures NoRepeats(Substituted(vs, i, c))
    ensures forall w :: w in Substituted(vs, i, c) ==> |w| == len && w[i] == c
  {
    var s: seq<Text> := Substituted(vs, i, c);
    forall a, b | 0 <= a < b < |s|
      ensures s[a] != s[b]
    {
      assert vs[a] == s[a][i := c0] && vs[b] == s[b][i := c0];
    }
  }

  // No word is listed twice: with EnumerateIsComplete, each variant occurs exactly once.
  lemma {:induction false} EnumerateNoRepeats(word: Text, n: nat)
    requires n <= |word|
    ensures NoRepeats(Enumerate(word, n))
  {
    if n != 0 {
      var i := n - 1;
      EnumerateNoRepeats(word, i);
      SubsDiffer(word[i]);
      forall v | v in Enumerate(word, i)
        ensures v[i] == word[i]
      {
        EnumerateMembers(word, i, v);
      }
      GrowNoRepeats(Enumerate(word, i), i, SubsAt(word, i), word[i], |word|);
    }
  }

  // Entry (m + 1) * n + j of a grown list is entry j with the m-th substitution.
  lemma {:induction false} GrowAt(vs: seq<Text>, i: nat, cs: seq<Byte>, m: nat, j: nat, n: nat)
    requires forall v :: v in vs ==> i < |v|
    requires j < |vs| == n && m < |cs|
    ensures j < (m + 1) * n + j < (m + 2) * n <= |Grow(vs, i, cs)|
    ensures Grow(vs, i, cs)[(m + 1) * n + j] == vs[j][i := cs[m]]
    ensures Grow(vs, i, cs)[j] == vs[j]
  {
    hide Substituted;
    var k := |cs| - 1;
    GrowCount(vs, i, cs, n);
    GrowCount(vs, i, cs[..k], n);
    GrowStarts(vs, i, cs);
    MulDistributes(m + 1, 1, n);
    MulLe(m + 2, |cs| + 1, n);
    MulLe(1, m + 1, n);
    if m < k {
      GrowAt(vs, i, cs[..k], m, j, n);
    } else {
      SubstitutedAt(vs, i, cs[k], j);
    }
  }

  lemma SubstitutedAt(vs: seq<Text>, i: nat, c: Byte, j: nat)
    requires j < |vs| && forall v :: v in vs ==> i < |v|
    ensures Substituted(vs, i, c)[j] == vs[j][i := c]
  {
  }

  lemma {:induction false} GrowStarts(vs: seq<Text>, i: nat, cs: seq<Byte>)
    requires forall v :: v in vs ==> i < |v|
    ensures vs <= Grow(vs, i, cs)
  {
    if cs != [] {
      GrowStarts(vs, i, cs[..|cs| - 1]);
    }
  }

  lemma {:induction false} CountMonotone(word: Text, m: nat, n: nat)
    requires m <= n <= |word|
    ensures Count(word, m) <= Count(word, n)
    decreases n - m
  {
    hide SubsAt;
    if m < n {
      MulLe(1, |SubsAt(word, m)| + 1, Count(word, m));
      CountMonotone(word, m + 1, n);
    }
  }

  // Variants are C strings of the same length again.
  lemma VariantsHaveNoZero(word: Text, n: nat, v: Text)
    requires IsWord(word) && n <= |word| && v in Enumerate(word, n)
    ensures 0 !in v && |v| == |word|
  {
    hide Enumerate;
    EnumerateMembers(word, n, v);
  }

  // ---------- the flat array ----------

  // n slots, each a word of len bytes and its zero.
  function Size(n: nat, len: nat): nat { n * (len + 1) }

  lemma SizeSteps(m: nat, n: nat, len: nat)
    ensures Size(0, len) == 0 && Size(n + 1, len) == Size(n, len) + len + 1
    ensures m <= n ==> Size(m, len) <= Size(n, len)
  {
    MulDistributes(n, 1, len + 1);
    if m <= n {
      MulLe(m, n, len + 1);
    }
  }

  function Flat(vs: seq<Text>): Text
  {
    if vs == [] then [] else Flat(vs[..|vs| - 1]) + vs[|vs| - 1] + [0]
  }

  lemma FlatAppend(vs: seq<Text>, v: Text)
    ensures Flat(vs + [v]) == Flat(vs) + (v + [0])
  {
    assert (vs + [v])[..|vs|] == vs;
  }

  lemma {:induction false} FlatLength(vs: seq<Text>, len: nat)
    requires forall v :: v in vs ==> |v| == len
    ensures |Flat(vs)| == Size(|vs|, len)
  {
    hide Size;
    SizeSteps(0, if vs == [] then 0 else |vs| - 1, len);
    if vs != [] {
      FlatLength(vs[..|vs| - 1], len);
    }
  }

  lemma {:induction false} FlatSlot(vs: seq<Text>, len: nat, j: nat)
    requires forall v :: v in vs ==> |v| == len
    requires j < |vs|
    ensures Size(j, len) + len + 1 <= |Flat(vs)|
    ensures Flat(vs)[Size(j, len)..Size(j, len) + len + 1] == vs[j] + [0]
  {
    hide Size, Flat;
    var n := |vs| - 1;
    var front := vs[..n];
    FlatAppend(front, vs[n]);
    assert vs == front + [vs[n]];
    FlatLength(front, len);
    if j < n {
      FlatSlot(front, len, j);
    }
  }

  // Copies the string at src to dst, for a source that ends before dst begins.
  method StrCpy(all: array<Byte>, dst: nat, src: nat, ghost word: Text)
    requires 0 !in word && src + |word| + 1 <= dst && dst + |word| + 1 <= all.Length
    requires all[src..src + |word| + 1] == word + [0]
    modifies all
    ensures all[..] == old(all[..dst]) + (word + [0]) + old(all[dst + |word| + 1..])
  {
    ghost var s := all[src..src + |word| + 1];
    var k := 0;
    while all[src + k] != 0
      invariant 0 <= k <= |word|
      invariant all[..dst] == old(all[..dst])
      invariant all[dst..dst + k] == word[..k]
      invariant all[dst + |word| + 1..] == old(all[dst + |word| + 1..])
      invariant forall m :: 0 <= m <= |word| ==> all[src + m] == s[m]
      decreases |word| - k
    {
      assert all[src + k] == s[k];
      all[dst + k] := all[src + k];
      k := k + 1;
    }
    assert all[src + k] == s[k];
    assert k == |word|;
    all[dst + k] := 0;
  }

  lemma SuffixOfSuffix(s: Text, i: nat, j: nat)
    requires i <= j <= |s|
    ensures s[i..][j - i..] == s[j..]
  {
  }

  lemma SliceOfPrefix(s: Text, n: nat, i: nat, j: nat)
    requires i <= j <= n <= |s|
    ensures s[..n][i..j] == s[i..j]
  {
  }

  // One step of lines 59-64: slot `words` becomes slot j with one character changed.
  method AddVariant(all: array<Byte>, len: nat, words: nat, j: nat, i: nat, c: Byte, ghost vs: seq<Text>)
    requires j < words == |vs| && i < len
    requires forall v :: v in vs ==> |v| == len && 0 !in v
    requires Size(words + 1, len) <= all.Length
    requires Size(words, len) <= all.Length && all[..Size(words, len)] == Flat(vs)
    modifies all
    ensures all[..Size(words + 1, len)] == Flat(vs + [vs[j][i := c]])
    ensures all[Size(words + 1, len)..] == old(all[Size(words + 1, len)..])
  {
    hide Size, Flat;
    var src, dst := Size(j, len), Size(words, len);
    SizeSteps(j + 1, words, len);
    SizeSteps(j, j, len);
    FlatSlot(vs, len, j);
    FlatAppend(vs, vs[j][i := c]);
    ghost var word := vs[j];
    assert src + len + 1 <= dst;
    SliceOfPrefix(all[..], dst, src, src + len + 1);
    assert word in vs;
    ghost var low, high := all[..dst], all[dst + len + 1..];
    StrCpy(all, dst, src, word);
    ghost var copied := all[..];
    all[dst + i] := c;
    assert all[..] == copied[dst + i := c];
    PatchMiddle(low, word, high, i, c);
    SliceMiddle(all[..], low, word[i := c] + [0], high);
  }

  lemma PatchMiddle(low: Text, word: Text, high: Text, i: nat, c: Byte)
    requires i < |word|
    ensures (low + (word + [0]) + high)[|low| + i := c] == low + (word[i := c] + [0]) + high
  {
  }

  lemma SliceMiddle(s: Text, low: Text, mid: Text, high: Text)
    requires s == low + mid + high
    ensures s[..|low| + |mid|] == low + mid && s[|low| + |mid|..] == high
  {
  }

  // The entry that the m-th substitution at position i makes of entry j.
  lemma TargetEntry(word: Text, i: nat, m: nat, j: nat, n: nat)
    requires i < |word| && m < |SubsAt(word, i)| && j < Count(word, i) == n
    ensures j < (m + 1) * n + j < (m + 2) * n <= Count(word, i + 1)
    ensures Enumerate(word, i + 1)[(m + 1) * n + j] == Enumerate(word, i + 1)[j][i := SubsAt(word, i)[m]]
  {
    hide Enumerate, Grow, SubsAt, Count;
    EnumerateStep(word, i);
    GrowAt(Enumerate(word, i), i, SubsAt(word, i), m, j, n);
  }

  // No slot before the last one reaches past the buffer the count asks for.
  lemma SlotFits(word: Text, i: nat, words: nat)
    requires i < |word| && words < Count(word, i + 1)
    ensures Size(words, |word|) + |word| + 1 == Size(words + 1, |word|) <= Size(Count(word, |word|), |word|)
  {
    hide Size, Count;
    CountMonotone(word, i + 1, |word|);
    SizeSteps(words + 1, Count(word, |word|), |word|);
    SizeSteps(words, words, |word|);
  }

  // Where the words with substitution m begin when there are n words without.
  function FirstSlot(m: nat, n: nat): nat { (m + 1) * n }

  lemma FirstSlotNext(m: nat, n: nat)
    ensures FirstSlot(m + 1, n) == FirstSlot(m, n) + n
  {
  }

  // What one slot of the pass needs and gives.
  lemma NextSlot(word: Text, i: nat, m: nat, j: nat, n: nat, words: nat)
    requires IsWord(word) && i < |word| && m < |SubsAt(word, i)| && j < Count(word, i) == n
    requires words == FirstSlot(m, n) + j
    ensures var target := Enumerate(word, i + 1);
      && j < words < |target| && target[..words][j] == target[j]
      && target[..words] + [target[j][i := SubsAt(word, i)[m]]] == target[..words + 1]
      && (forall v :: v in target[..words] ==> |v| == |word| && 0 !in v)
      && Size(words, |word|) + |word| + 1 == Size(words + 1, |word|) <= Size(Count(word, |word|), |word|)
  {
    hide Size, Count, Enumerate, IsWord, SubsAt;
    TargetEntry(word, i, m, j, n);
    SlotFits(word, i, words);
    PrefixOfVariants(word, i + 1, words);
  }

  // One pass of line 58 for the substitution c: slot j of the words0 first ones, with
  // the character changed, becomes slot `words`.
  method TrySlot(all: array<Byte>, len: nat, i: nat, m: nat, c: Byte, words0: nat, j: nat, words: nat, ghost word: Text)
    requires IsWord(word) && i < len == |word| && j < words0 == Count(word, i)
    requires m < |SubsAt(word, i)| && c == SubsAt(word, i)[m] && words == FirstSlot(m, words0) + j
    requires Size(Count(word, len), len) <= all.Length
    requires words <= |Enumerate(word, i + 1)| && Size(words, len) <= all.Length
    requires all[..Size(words, len)] == Flat(Enumerate(word, i + 1)[..words])
    modifies all
    ensures words < |Enumerate(word, i + 1)| && Size(words + 1, len) <= all.Length
    ensures all[..Size(words + 1, len)] == Flat(Enumerate(word, i + 1)[..words + 1])
    ensures all[Size(Count(word, len), len)..] == old(all[Size(Count(word, len), len)..])
  {
    hide Flat, Size, Count, Enumerate, IsWord, FirstSlot;
    SubsAreNonzero(ToLower(word[i]), m);
    hide SubsAt;
    ghost var target, end := Enumerate(word, i + 1), Size(Count(word, len), len);
    NextSlot(word, i, m, j, words0, words);
    ghost var next, before := Size(words + 1, len), all[..];
    SuffixOfSuffix(before, next, end);
    AddVariant(all, len, words, j, i, c, target[..words]);
    SuffixOfSuffix(all[..], next, end);
    assert all[end..] == all[..][end..] && all[next..] == all[..][next..];
  }

  method TrySubstitution(all: array<Byte>, len: nat, i: nat, m: nat, c: Byte, words0: nat, ghost word: Text)
    returns (words: nat)
    requires IsWord(word) && i < len == |word| && words0 == Count(word, i)
    requires m < |SubsAt(word, i)| && c == SubsAt(word, i)[m]
    requires Size(Count(word, len), len) <= all.Length
    requires FirstSlot(m, words0) <= Count(word, i + 1)
    requires Size(FirstSlot(m, words0), len) <= all.Length
    requires all[..Size(FirstSlot(m, words0), len)] == Flat(Enumerate(word, i + 1)[..FirstSlot(m, words0)])
    modifies all
    ensures words == FirstSlot(m + 1, words0) <= Count(word, i + 1) && Size(words, len) <= all.Length
    ensures all[..Size(words, len)] == Flat(Enumerate(word, i + 1)[..words])
    ensures all[Size(Count(word, len), len)..] == old(all[Size(Count(word, len), len)..])
  {
    hide Flat, Size, Count, Enumerate, IsWord, SubsAt;
    FirstSlotNext(m, words0);
    hide FirstSlot;
    words := FirstSlot(m, words0);
    for j := 0 to words0
      invariant words == FirstSlot(m, words0) + j <= |Enumerate(word, i + 1)| && Size(words, len) <= all.Length
      invariant all[..Size(words, len)] == Flat(Enumerate(word, i + 1)[..words])
      invariant all[Size(Count(word, len), len)..] == old(all[Size(Count(word, len), len)..])
    {
      TrySlot(all, len, i, m, c, words0, j, words, word);
      words := words + 1;
    }
  }

  // Lines 57-66 for one position.
  method TryPosition(lower: Text, all: array<Byte>, len: nat, i: nat, words0: nat, ghost word: Text) returns (words: nat)
    requires IsWord(word) && i < len == |word| && lower == Lowered(word)
    requires words0 == Count(word, i) && Size(Count(word, len), len) <= all.Length
    requires Size(words0, len) <= all.Length && all[..Size(words0, len)] == Flat(Enumerate(word, i))
    modifies all
    ensures words == Count(word, i + 1) && Size(words, len) <= all.Length
    ensures all[..Size(words, len)] == Flat(Enumerate(word, i + 1))
    ensures all[Size(Count(word, len), len)..] == old(all[Size(Count(word, len), len)..])
  {
    hide Flat, Size, Count, Enumerate, Grow, Subs, IsWord;
    var sub := Subs(lower[i]);
    ghost var base, target := Enumerate(word, i), Enumerate(word, i + 1);
    EnumerateStep(word, i);
    GrowStarts(base, i, sub);
    words := words0;
    assert target[..words] == base;
    var m := 0;
    while m < |sub|
      invariant 0 <= m <= |sub| && words == FirstSlot(m, words0)
      invariant words <= |target| && Size(words, len) <= all.Length
      invariant all[..Size(words, len)] == Flat(target[..words])
      invariant all[Size(Count(word, len), len)..] == old(all[Size(Count(word, len), len)..])
    {
      words := TrySubstitution(all, len, i, m, sub[m], words0, word);
      m := m + 1;
    }
    assert target[..words] == target;
  }

  lemma SubsAreNonzero(c: Byte, m: nat)
    requires m < |Subs(c)|
    ensures Subs(c)[m] != 0
  {
  }

  lemma PrefixOfVariants(word: Text, n: nat, words: nat)
    requires IsWord(word) && n <= |word| && words <= |Enumerate(word, n)|
    ensures forall v :: v in Enumerate(word, n)[..words] ==> |v| == |word| && 0 !in v
  {
    hide Enumerate;
    forall v | v in Enumerate(word, n)[..words]
      ensures |v| == |word| && 0 !in v
    {
      VariantsHaveNoZero(word, n, v);
    }
  }

  // getvariants, lines 47-67: every slot the count calls for is filled, and none beyond.
  method GetVariants(lower: Text, all: array<Byte>, len: nat, ghost word: Text)
    requires IsWord(word) && len == |word| && lower == Lowered(word)
    requires Size(Count(word, len), len) <= all.Length
    requires len + 1 <= all.Length && all[..len + 1] == word + [0]
    modifies all
    ensures all[..Size(Count(word, len), len)] == Flat(Enumerate(word, len))
    ensures all[Size(Count(word, len), len)..] == old(all[Size(Count(word, len), len)..])
  {
    hide Flat, Count, Enumerate, Subs, Size;
    var words := 1;
    EnumerateStart(word);
    ghost var end := Size(Count(word, len), len);
    for i := 0 to len
      invariant words == Count(word, i) && Size(words, len) <= all.Length
      invariant all[..Size(words, len)] == Flat(Enumerate(word, i))
      invariant all[end..] == old(all[end..])
    {
      words := TryPosition(lower, all, len, i, words, word);
    }
  }

  lemma EnumerateStart(word: Text)
    ensures Count(word, 0) == 1 && Size(1, |word|) == |word| + 1
    ensures Flat(Enumerate(word, 0)) == word + [0]
  {
    FlatAppend([], word);
    assert [word] == [] + [word];
  }

  // ---------- sizes, lines 95-107 of main ----------

  // count and size are computed modulo 2^32.
  method CountVariants(word: Text) returns (lower: Text, count: nat, size: nat)
    requires IsWord(word)
    ensures lower == Lowered(word)
    ensures count == Low(Count(word, |word|)) && size == Low(Size(Count(word, |word|), |word|))
  {
    hide Subs, ToLower, Low;
    lower, count := [], 1;
    M.LowOfWord(1);
    for i := 0 to |word|
      invariant lower == Lowered(word)[..i]
      invariant count == Low(Count(word, i))
    {
      lower := lower + [ToLower(word[i])];
      var sub := Subs(lower[i]);
      LowScaledRight(Count(word, i), |sub| + 1);
      count := Low(count * (|sub| + 1));
    }
    assert Lowered(word)[..|word|] == Lowered(word);
    LowScaledRight(Count(word, |word|), |word| + 1);
    size := Low(count * (|word| + 1));
  }

  lemma LowScaledRight(a: nat, m: nat)
    ensures Low(Low(a) * m) == Low(a * m) == Low(m * a)
  {
    S.LowScaled(a, m);
  }

  // The buffer main allocates holds every variant exactly when the true size
  // fits in 32 bits; then the count is the true one as well.
  lemma SizeIsEnough(word: Text)
    ensures Low(Size(Count(word, |word|), |word|)) >= Size(Count(word, |word|), |word|)
       <==> Size(Count(word, |word|), |word|) < 0x1_0000_0000
    ensures Size(Count(word, |word|), |word|) < 0x1_0000_0000 ==> Low(Count(word, |word|)) == Count(word, |word|)
  {
    hide Count;
    MulLe(1, |word| + 1, Count(word, |word|));
    M.LowOfWord(if Count(word, |word|) < 0x1_0000_0000 then Count(word, |word|) else 0);
  }

  // A line of 39 letters s, which fits in buf, has more variants than 32 bits can count.
  lemma LongWordOverflows()
    ensures var word: Text := seq(39, i => 115);
      IsWord(word) && Count(word, |word|) >= 0x1_0000_0000
  {
    var word: Text := seq(39, i => 115);
    CountDoubles(word, 39);
    Pow2Constants();
    Pow2Monotone(32, 39);
  }

  lemma {:induction false} CountDoubles(word: Text, n: nat)
    requires n <= |word| && forall i :: 0 <= i < |word| ==> word[i] == 115
    ensures Count(word, n) >= Pow2(n)
  {
    if n > 0 {
      CountDoubles(word, n - 1);
      assert |SubsAt(word, n - 1)| == 2;
      hide SubsAt;
      assert Count(word, n) == 3 * Count(word, n - 1);
    }
  }

  // Which characters have a slot in subs[]: not z, not Z, and nothing above z.
  lemma TableCovers(c: Byte)
    ensures ToLower(c) < TABLE_SIZE <==> c < 122 && c != 90
  {
  }

  // ---------- which substitutes there are ----------

  // The table by letters of either case: what may stand for the character c.
  predicate StandsFor(d: char, c: char)
  {
    match d
    case '@' => c == 'a' || c == 'A'
    case '4' => c == 'a' || c == 'A'
    case '8' => c == 'b' || c == 'B'
    case '3' => c == 'e' || c == 'E'
    case '!' => c == 'i' || c == 'I'
    case '1' => c == 'l' || c == 'L'
    case '0' => c == 'o' || c == 'O'
    case '$' => c == 's' || c == 'S'
    case '5' => c == 's' || c == 'S'
    case '7' => c == 't' || c == 'T'
    case _ => false
  }

  lemma SubstitutesAreTheTable(c: Byte, d: Byte)
    ensures d in Subs(ToLower(c)) <==> StandsFor(d as char, c as char)
  {
  }

  // In the order in which they are tried.
  lemma OrderOfSubstitutes(c: Byte)
    ensures c as char in "aA" ==> Subs(ToLower(c)) == Codes("@4")
    ensures c as char in "sS" ==> Subs(ToLower(c)) == Codes("$5")
    ensures c as char !in "aAsS" ==> |Subs(ToLower(c))| <= 1
  {
  }

  function Codes(s: string): Text
    requires forall i :: 0 <= i < |s| ==> s[i] as int < 0x100
  {
    seq(|s|, i requires 0 <= i < |s| => s[i] as int)
  }

  // Stated on characters only: a variant has the length of the word, and each of its
  // characters is that of the word or stands for it.
  lemma VariantsByLetters(v: Text, word: Text)
    ensures IsVariant(v, word) <==>
              && |v| == |word|
              && forall k :: 0 <= k < |word| ==> v[k] == word[k] || StandsFor(v[k] as char, word[k] as char)
  {
    forall k | 0 <= k < |word| && k < |v|
      ensures v[k] in SubsAt(word, k) <==> StandsFor(v[k] as char, word[k] as char)
    {
      SubstitutesAreTheTable(word[k], v[k]);
    }
  }

  // Letters that differ in case only have the same substitutes.
  lemma CaseIsIgnored(c: Byte)
    requires 'A' <= c as char <= 'Z'
    ensures Subs(ToLower(c)) == Subs(ToLower(c + 32))
  {
  }

  // The eight variants of "Bob".
  lemma VariantsOfBob(v: Text)
    ensures IsVariant(v, Codes("Bob")) <==>
              v in {Codes("Bob"), Codes("8ob"), Codes("B0b"), Codes("Bo8"),
                    Codes("80b"), Codes("8o8"), Codes("B08"), Codes("808")}
  {
    VariantsByLetters(v, Codes("Bob"));
    hide IsVariant;
    assert Codes("Bob") == [66, 111, 98] && Codes("8ob") == [56, 111, 98] && Codes("B0b") == [66, 48, 98];
    assert Codes("Bo8") == [66, 111, 56] && Codes("80b") == [56, 48, 98] && Codes("8o8") == [56, 111, 56];
    assert Codes("B08") == [66, 48, 56] && Codes("808") == [56, 48, 56];
    if |v| == 3 {
      assert v == [v[0], v[1], v[2]];
      SubstitutesOfBob(v[0], v[1], v[2]);
    }
  }

  lemma SubstitutesOfBob(x: Byte, y: Byte, z: Byte)
    ensures StandsFor(x as char, 66 as char) <==> x == 56
    ensures StandsFor(y as char, 111 as char) <==> y == 48
    ensures StandsFor(z as char, 98 as char) <==> z == 56
  {
  }

  // ---------- hashing the variants, lines 27-45 ----------

  datatype Found = Nothing | Slot(index: nat)

  // The text in slot i of a buffer of n slots.
  function SlotText(s: Text, len: nat, n: nat, i: nat): Text
    requires Size(n, len) <= |s| && i < n
  {
    SizeSteps(i + 1, n, len);
    SizeSteps(i, i, len);
    s[Size(i, len)..Size(i, len) + len]
  }

  method Hash(ctx: M.Context, try: Text) returns (md5: seq<Byte>)
    requires ctx.w == 32 && ctx.buffer.Length == 64 && ctx.block.Length == 16
    requires |try| < 0x1_0000_0000
    modifies ctx, ctx.buffer, ctx.block
    ensures md5 == Md5(try)
  {
    hide Md5;
    ctx.Init();
    ctx.Update(try, []);
    assert [] + try == try;
    md5 := ctx.Final(try);
  }

  method Compute(all: array<Byte>, len: nat, count: nat, hash: seq<Byte>) returns (found: Found)
    requires Size(count, len) <= all.Length && len < 0x1_0000_0000
    ensures found.Slot? ==> found.index < count && Md5(SlotText(all[..], len, count, found.index)) == hash
    ensures found.Nothing? ==> forall i :: 0 <= i < count ==> Md5(SlotText(all[..], len, count, i)) != hash
  {
    hide Md5, Size, SlotText;
    var ctx := new M.Context(32);
    ghost var s := all[..];
    for i := 0 to count
      invariant fresh(ctx) && fresh(ctx.buffer) && fresh(ctx.block)
      invariant ctx.w == 32 && ctx.buffer.Length == 64 && ctx.block.Length == 16
      invariant all[..] == s
      invariant forall k :: 0 <= k < i ==> Md5(SlotText(s, len, count, k)) != hash
    {
      var try := SlotAt(all, len, count, i);
      var md5 := Hash(ctx, try);
      if md5 == hash {
        return Slot(i);
      }
    }
    found := Nothing;
  }

  // &arr[i * len0], of which len bytes are hashed.
  method SlotAt(all: array<Byte>, len: nat, count: nat, i: nat) returns (try: Text)
    requires Size(count, len) <= all.Length && i < count
    ensures try == SlotText(all[..], len, count, i) && |try| == len
  {
    hide Size;
    SizeSteps(i + 1, count, len);
    SizeSteps(i, i, len);
    try := all[Size(i, len)..Size(i, len) + len];
  }

  datatype Guess = NoGuess | Guess(text: Text)

  // Lines 95-127 for one word: a variant with the wanted digest is found whenever
  // there is one.
  method TryWord(word: Text, hash: seq<Byte>) returns (guess: Guess)
    requires IsWord(word) && Size(Count(word, |word|), |word|) < 0x1_0000_0000
    ensures guess.Guess? ==> IsVariant(guess.text, word) && Md5(guess.text) == hash
    ensures guess.NoGuess? ==> forall v :: IsVariant(v, word) ==> Md5(v) != hash
  {
    hide Md5, Size, Count, Flat, Enumerate, IsVariant, IsWord, Low, SlotText;
    var len := |word|;
    var lower, count, size := CountVariants(word);
    SizeIsEnough(word);
    M.LowOfWord(Size(Count(word, len), len));
    SizeSteps(1, count, len);
    SizeSteps(1, 0, len);
    var all := new Byte[size];
    forall k | 0 <= k < len + 1 {
      all[k] := if k < len then word[k] else 0;              // the word itself in slot 0
    }
    assert all[..len + 1] == word + [0];
    GetVariants(lower, all, len, word);
    var found := Compute(all, len, count, hash);
    ghost var vs := Enumerate(word, len);
    forall i | 0 <= i < count
      ensures SlotText(all[..], len, count, i) == vs[i]
    {
      SlotHoldsVariant(all[..], vs, len, count, i);
    }
    match found
    case Slot(i) =>
      var text := SlotAt(all, len, count, i);
      guess := Guess(text);
      EnumerateIsComplete(word, vs[i]);
      assert vs[i] in vs;
    case Nothing =>
      guess := NoGuess;
      forall v | IsVariant(v, word)
        ensures Md5(v) != hash
      {
        EnumerateIsComplete(word, v);
        var i :| 0 <= i < |vs| && v == vs[i];
      }
  }

  lemma SlotHoldsVariant(s: Text, vs: seq<Text>, len: nat, n: nat, i: nat)
    requires n == |vs| && i < n && forall v :: v in vs ==> |v| == len
    requires Size(n, len) <= |s| && s[..Size(n, len)] == Flat(vs)
    ensures SlotText(s, len, n, i) == vs[i]
  {
    hide Size, Flat;
    FlatSlot(vs, len, i);
    FlatLength(vs, len);
    var at := Size(i, len);
    SliceOfPrefix(s, Size(n, len), at, at + len + 1);
    assert s[at..at + len] == s[at..at + len + 1][..len];
  }
}
