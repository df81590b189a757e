/** Rename-chain folding of git_renames/log-raw.cpp: one pass over a history from
    its newest rename to its oldest. */
module Renames {
  import opened Bits
  import opened Sequences

  type Path = string

  // One line of the log.
  datatype Rename = Rename(from: Path, to: Path, similarity: Word)

  datatype RenameInfo = RenameInfo(path: Path, similarity: Word)

  type Map = map<Path, RenameInfo>

  datatype Result = Ok(renames: Map) | BadRename(line: nat)

  // unordered_map::emplace does nothing when the key is there already.
  function Emplace(m: Map, k: Path, v: RenameInfo): Map
  {
    if k in m then m else m[k := v]
  }

  // Two percentages in a row; the 32-bit product may wrap before it is divided.
  function Scale(s: Word, t: Word): Word
  {
    s * t % 0x1_0000_0000 / 100
  }

  // Lines 211-224.
  function Prepend(m: Map, r: Rename): Map
  {
    if r.to in m then
      var final := m[r.to];
      var m' := m - {r.to};
      if r.from != final.path
      then Emplace(m', r.from, RenameInfo(final.path, Scale(final.similarity, r.similarity)))
      else m'
    else
      Emplace(m, r.from, RenameInfo(r.to, r.similarity))
  }

  // The map after a history, oldest rename first.
  function Summary(h: seq<Rename>): Map
  {
    if h == [] then map[] else Prepend(Summary(h[1..]), h[0])
  }

  function Reversed(s: seq<Rename>): seq<Rename>
  {
    if s == [] then [] else [s[|s| - 1]] + Reversed(s[..|s| - 1])
  }

  lemma SummaryOneMore(lines: seq<Rename>, n: nat)
    requires n < |lines|
    ensures Summary(Reversed(lines[..n + 1])) == Prepend(Summary(Reversed(lines[..n])), lines[n])
  {
    hide Prepend;
    assert lines[..n + 1][..n] == lines[..n];
    assert Reversed(lines[..n + 1]) == [lines[n]] + Reversed(lines[..n]);
    assert ([lines[n]] + Reversed(lines[..n]))[1..] == Reversed(lines[..n]);
  }

  // The loop of lines 191-225 over lines that come newest first.
  method Between(lines: seq<Rename>) returns (result: Result)
    ensures result.BadRename? <==> exists r :: r in lines && r.similarity == 0
    ensures result.Ok? ==> result.renames == Summary(Reversed(lines))
    ensures result.BadRename? ==> result.line < |lines| && lines[result.line].similarity == 0
  {
    var renames: Map := map[];
    var n := 0;
    assert Summary(Reversed(lines[..0])) == map[];
    hide Summary, Reversed;
    while n < |lines|
      invariant 0 <= n <= |lines|
      invariant forall r :: r in lines[..n] ==> r.similarity != 0
      invariant renames == Summary(Reversed(lines[..n]))
    {
      var line := lines[n];
      if line.similarity == 0 {
        return BadRename(n);
      }
      assert lines[..n + 1] == lines[..n] + [line];
      SummaryOneMore(lines, n);
      ghost var before := renames;
      if line.to in renames {
        var final := renames[line.to];
        renames := renames - {line.to};
        // a file that is back where it started has no entry
        if line.from != final.path {
          renames := Emplace(renames, line.from, RenameInfo(final.path, Scale(final.similarity, line.similarity)));
        }
      } else {
        renames := Emplace(renames, line.from, RenameInfo(line.to, line.similarity));
      }
      assert renames == Prepend(before, line);
      n := n + 1;
    }
    assert lines[..n] == lines;
    result := Ok(renames);
  }

  // ---------- following files forwards ----------

  // Every source exists and every target does not, at its point of the history.
  predicate IsHistory(files: set<Path>, h: seq<Rename>)
    decreases |h|
  {
    h != [] ==>
      && h[0].from in files && h[0].to !in files
      && IsHistory(files - {h[0].from} + {h[0].to}, h[1..])
  }

  function Trace(h: seq<Rename>, p: Path): Path
  {
    if h == [] then p
    else Trace(h[1..], if p == h[0].from then h[0].to else p)
  }

  // A map tells where files went: which paths moved, and to where.
  ghost predicate Agrees(m: Map, files: set<Path>, h: seq<Rename>)
  {
    && (forall p :: p in m <==> p in files && Trace(h, p) != p)
    && (forall p :: p in m ==> m[p].path == Trace(h, p))
  }

  // Backwards folding agrees with tracing every initial file forwards.
  lemma {:induction false} SummaryAgrees(files: set<Path>, h: seq<Rename>)
    requires IsHistory(files, h)
    ensures Agrees(Summary(h), files, h)
    decreases |h|
  {
    if h != [] {
      var r := h[0];
      var files' := files - {r.from} + {r.to};
      SummaryAgrees(files', h[1..]);
      TraceInjective(files', h[1..]);
      PrependAgrees(Summary(h[1..]), files, h);
    }
  }

  lemma PrependAgrees(m: Map, files: set<Path>, h: seq<Rename>)
    requires h != [] && IsHistory(files, h)
    requires Agrees(m, files - {h[0].from} + {h[0].to}, h[1..])
    ensures Agrees(Prepend(m, h[0]), files, h)
  {
    var r := h[0];
    forall p
      ensures p in Prepend(m, r) <==> p in files && Trace(h, p) != p
      ensures p in Prepend(m, r) ==> Prepend(m, r)[p].path == Trace(h, p)
    {
      if p != r.from && p != r.to {
        assert Trace(h, p) == Trace(h[1..], p);
        assert p in Prepend(m, r) <==> p in m;
      } else {
        assert Trace(h, r.from) == Trace(h[1..], r.to);
      }
    }
  }

  // Two files never end at the same path, so the map is injective.
  lemma {:induction false} TraceInjective(files: set<Path>, h: seq<Rename>)
    requires IsHistory(files, h)
    ensures forall p, q :: p in files && q in files && p != q ==> Trace(h, p) != Trace(h, q)
    decreases |h|
  {
    if h != [] {
      var r := h[0];
      var files' := files - {r.from} + {r.to};
      TraceInjective(files', h[1..]);
      forall p, q | p in files && q in files && p != q
        ensures Trace(h, p) != Trace(h, q)
      {
        var p' := if p == r.from then r.to else p;
        var q' := if q == r.from then r.to else q;
        assert p' in files' && q' in files' && p' != q';
      }
    }
  }

  lemma SummaryInjective(files: set<Path>, h: seq<Rename>)
    requires IsHistory(files, h)
    ensures var m := Summary(h);
            forall p, q :: p in m && q in m && p != q ==> m[p].path != m[q].path
  {
    SummaryAgrees(files, h);
    TraceInjective(files, h);
  }

  // Whatever suffix of the history is done, the next emplace finds its key free.
  lemma {:induction false} EmplaceFindsFreeKey(files: set<Path>, h: seq<Rename>, i: nat)
    requires IsHistory(files, h) && i < |h|
    ensures h[i].from !in Summary(h[i + 1..])
    decreases |h|
  {
    var files' := files - {h[0].from} + {h[0].to};
    if i == 0 {
      SummaryAgrees(files', h[1..]);
    } else {
      EmplaceFindsFreeKey(files', h[1..], i - 1);
      assert h[1..][i..] == h[i + 1..];
    }
  }

  // The whole program: run on the log of a history, newest first, it reports
  // exactly the initial paths whose final path differs.
  lemma LogReportsMoves(files: set<Path>, h: seq<Rename>, lines: seq<Rename>)
    requires IsHistory(files, h) && lines == Reversed(h)
    ensures Reversed(lines) == h
    ensures Agrees(Summary(Reversed(lines)), files, h)
  {
    ReverseTwice(h);
    SummaryAgrees(files, h);
  }

  lemma {:induction false} ReverseTwice(s: seq<Rename>)
    ensures Reversed(Reversed(s)) == s
  {
    if s != [] {
      var n := |s| - 1;
      ReverseTwice(s[..n]);
      ReverseAfterFirst(s[n], Reversed(s[..n]));
    }
  }

  lemma {:induction false} ReverseAfterFirst(r: Rename, s: seq<Rename>)
    ensures Reversed([r] + s) == Reversed(s) + [r]
    decreases |s|
  {
    var t := [r] + s;
    if s == [] {
      assert t[..0] == [];
    } else {
      assert t[..|t| - 1] == [r] + s[..|s| - 1];
      ReverseAfterFirst(r, s[..|s| - 1]);
    }
  }

  // ---------- several renames in one commit ----------

  ghost predicate Disjoint(r: Rename, s: Rename) { {r.from, r.to} !! {s.from, s.to} }

  // No path occurs in two lines of the commit.
  ghost predicate Independent(c: seq<Rename>)
  {
    forall i, j :: 0 <= i < j < |c| ==> Disjoint(c[i], c[j])
  }

  // One step after the other or all at once is then the same: a commit can follow
  // exactly when its sources exist and its targets do not, and each source becomes
  // its target.
  lemma {:induction false} CommitIsSimultaneous(files: set<Path>, c: seq<Rename>)
    requires Independent(c)
    ensures IsHistory(files, c) <==> forall i :: 0 <= i < |c| ==> c[i].from in files && c[i].to !in files
    ensures forall i :: 0 <= i < |c| ==> Trace(c, c[i].from) == c[i].to
    ensures forall p :: (forall i :: 0 <= i < |c| ==> c[i].from != p) ==> Trace(c, p) == p
    decreases |c|
  {
    if c != [] {
      var r := c[0];
      var files' := files - {r.from} + {r.to};
      CommitIsSimultaneous(files', c[1..]);
      forall i | 1 <= i < |c|
        ensures Disjoint(r, c[i]) && c[i] == c[1..][i - 1] && Trace(c, c[i].from) == c[i].to
      {
        assert Disjoint(c[0], c[i]);
      }
      forall p | forall i :: 0 <= i < |c| ==> c[i].from != p
        ensures Trace(c, p) == p
      {
        assert c[0].from != p;
      }
    }
  }

  lemma PrependCommutes(m: Map, r: Rename, s: Rename)
    requires Disjoint(r, s)
    ensures Prepend(Prepend(m, r), s) == Prepend(Prepend(m, s), r)
  {
  }

  // Neighbouring lines without a common path may be swapped.
  lemma {:induction false} NeighboursSwap(files: set<Path>, a: seq<Rename>, r: Rename, s: Rename, b: seq<Rename>)
    requires Disjoint(r, s) && IsHistory(files, a + [r, s] + b)
    ensures IsHistory(files, a + [s, r] + b)
    ensures Summary(a + [s, r] + b) == Summary(a + [r, s] + b)
    decreases |a|
  {
    var h, h' := a + [r, s] + b, a + [s, r] + b;
    if a == [] {
      assert h[0] == r && h[1..][0] == s && h[1..][1..] == b;
      assert h'[0] == s && h'[1..][0] == r && h'[1..][1..] == b;
      var f1, f2 := files - {r.from} + {r.to}, files - {s.from} + {s.to};
      assert f1 - {s.from} + {s.to} == f2 - {r.from} + {r.to};
      PrependCommutes(Summary(b), r, s);
    } else {
      assert h[0] == h'[0] == a[0];
      assert h[1..] == a[1..] + [r, s] + b && h'[1..] == a[1..] + [s, r] + b;
      NeighboursSwap(files - {a[0].from} + {a[0].to}, a[1..], r, s, b);
    }
  }

  // So a line may move in front of all the lines it shares no path with.
  lemma {:induction false} MovesToFront(files: set<Path>, a: seq<Rename>, c: seq<Rename>, r: Rename, b: seq<Rename>)
    requires (forall i :: 0 <= i < |c| ==> Disjoint(c[i], r)) && IsHistory(files, a + c + [r] + b)
    ensures IsHistory(files, a + [r] + c + b)
    ensures Summary(a + [r] + c + b) == Summary(a + c + [r] + b)
    decreases |c|
  {
    if c == [] {
      assert a + [r] + c + b == a + c + [r] + b;
    } else {
      var n := |c| - 1;
      var c', s := c[..n], c[n];
      assert a + c + [r] + b == (a + c') + [s, r] + b;
      assert (a + c') + [r, s] + b == a + c' + [r] + ([s] + b);
      assert a + [r] + c' + ([s] + b) == a + [r] + c + b;
      NeighboursSwap(files, a + c', s, r, b);
      MovesToFront(files, a, c', r, [s] + b);
    }
  }

  lemma OneForward(files: set<Path>, a: seq<Rename>, c: seq<Rename>, i: nat, b: seq<Rename>)
    requires i < |c| && Independent(c) && IsHistory(files, a + c + b)
    ensures IsHistory(files, (a + [c[i]]) + (c[..i] + c[i + 1..]) + b)
    ensures Summary((a + [c[i]]) + (c[..i] + c[i + 1..]) + b) == Summary(a + c + b)
  {
    hide IsHistory, Summary, Disjoint;
    var r, front, back := c[i], c[..i], c[i + 1..];
    assert c == front + [r] + back;
    assert a + c + b == a + front + [r] + (back + b);
    RestIsIndependent(c, i);
    MovesToFront(files, a, front, r, back + b);
    assert a + [r] + front + (back + b) == (a + [r]) + (front + back) + b;
  }

  lemma FindLine(c: seq<Rename>, d: seq<Rename>) returns (i: nat)
    requires d != [] && multiset(c) == multiset(d)
    ensures i < |c| && c[i] == d[0] && multiset(c[..i] + c[i + 1..]) == multiset(d[1..])
  {
    var r := d[0];
    WithoutFirst(d);
    assert r in multiset(c);
    i := Find(c, r);
    Without(c, i);
  }

  lemma WithoutFirst(s: seq<Rename>)
    requires s != []
    ensures s[0] in multiset(s) && multiset(s[1..]) == multiset(s) - multiset{s[0]}
  {
    assert s == [s[0]] + s[1..];
  }

  lemma Find(c: seq<Rename>, r: Rename) returns (i: nat)
    requires r in multiset(c)
    ensures i < |c| && c[i] == r
  {
    i :| 0 <= i < |c| && c[i] == r;
  }

  lemma Without(s: seq<Rename>, i: nat)
    requires i < |s|
    ensures multiset(s[..i] + s[i + 1..]) == multiset(s) - multiset{s[i]}
  {
    assert s == s[..i] + ([s[i]] + s[i + 1..]);
  }

  // The lines of one commit may be printed in any order: a permutation of lines
  // without common paths is a history too, with the same map.
  lemma {:induction false} CommitOrderIsImmaterial(files: set<Path>, a: seq<Rename>, c: seq<Rename>, d: seq<Rename>, b: seq<Rename>)
    requires Independent(c) && multiset(c) == multiset(d) && IsHistory(files, a + c + b)
    ensures IsHistory(files, a + d + b)
    ensures Summary(a + d + b) == Summary(a + c + b)
    decreases |d|
  {
    if d == [] {
      assert |c| == |multiset(c)| == 0;
    } else {
      hide IsHistory, Summary, Independent;
      var i := FindLine(c, d);
      OneForward(files, a, c, i, b);
      RestIsIndependent(c, i);
      CommitOrderIsImmaterial(files, a + [d[0]], c[..i] + c[i + 1..], d[1..], b);
      assert (a + [d[0]]) + d[1..] + b == a + d + b;
    }
  }

  lemma RestIsIndependent(c: seq<Rename>, i: nat)
    requires i < |c| && Independent(c)
    ensures Independent(c[..i] + c[i + 1..])
    ensures forall j :: 0 <= j < i ==> Disjoint(c[..i][j], c[i])
  {
    hide Disjoint;
    var rest := c[..i] + c[i + 1..];
    forall j, k | 0 <= j < k < |rest|
      ensures Disjoint(rest[j], rest[k])
    {
      assert rest[j] == c[if j < i then j else j + 1] && rest[k] == c[if k < i then k else k + 1];
    }
  }

  // ---------- similarity ----------

  // The links of p's chain that its entry is composed of, oldest first: a tail of
  // the chain that ends where it starts has left no entry to build on.
  function Links(h: seq<Rename>, p: Path): seq<Word>
  {
    if h == [] then []
    else if p != h[0].from then Links(h[1..], p)
    else if Trace(h[1..], h[0].to) == p then []
    else if Trace(h[1..], h[0].to) == h[0].to then [h[0].similarity]
    else [h[0].similarity] + Links(h[1..], h[0].to)
  }

  function AllLinks(h: seq<Rename>, p: Path): seq<Word>
  {
    if h == [] then []
    else if p != h[0].from then AllLinks(h[1..], p)
    else [h[0].similarity] + AllLinks(h[1..], h[0].to)
  }

  // The paths the file has had, in order.
  function Visits(h: seq<Rename>, p: Path): (v: seq<Path>)
    ensures v != [] && v[0] == p
    ensures v[|v| - 1] == Trace(h, p)
  {
    if h == [] then [p]
    else if p != h[0].from then Visits(h[1..], p)
    else [p] + Visits(h[1..], h[0].to)
  }

  function FirstIndex(v: seq<Path>, x: Path): (k: nat)
    requires x in v
    ensures k < |v| && v[k] == x && x !in v[..k]
  {
    if v[0] == x then 0 else 1 + FirstIndex(v[1..], x)
  }

  // The number of links up to the first visit to the path where the chain ends.
  function FirstArrival(h: seq<Rename>, p: Path): (k: nat)
    ensures k < |Visits(h, p)| && Visits(h, p)[k] == Trace(h, p)
    ensures Trace(h, p) !in Visits(h, p)[..k]
  {
    FirstIndex(Visits(h, p), Trace(h, p))
  }

  // An entry is composed of exactly the links up to that first visit.
  lemma {:induction false} LinksUpToFirstArrival(h: seq<Rename>, p: Path)
    ensures |AllLinks(h, p)| == |Visits(h, p)| - 1
    ensures Links(h, p) == AllLinks(h, p)[..FirstArrival(h, p)]
  {
    if h != [] {
      if p != h[0].from {
        LinksUpToFirstArrival(h[1..], p);
      } else {
        LinksUpToFirstArrival(h[1..], h[0].to);
        assert Visits(h, p)[1..] == Visits(h[1..], h[0].to);
      }
    }
  }

  // The chain is composed whole exactly when its last path occurs in it only once.
  lemma ChainComposedWhole(h: seq<Rename>, p: Path)
    ensures Links(h, p) == AllLinks(h, p) <==> ArrivesOnce(h, p)
  {
    LinksUpToFirstArrival(h, p);
    var v, k := Visits(h, p), FirstArrival(h, p);
    if k < |v| - 1 {
      assert v[k] == Trace(h, p);
      assert |Links(h, p)| == k;
    } else {
      assert AllLinks(h, p)[..k] == AllLinks(h, p);
    }
  }

  predicate ArrivesOnce(h: seq<Rename>, p: Path)
  {
    var v := Visits(h, p);
    forall i :: 0 <= i < |v| - 1 ==> v[i] != Trace(h, p)
  }

  // In particular a file that never has a path twice keeps every link.
  lemma SimpleChainKeepsLinks(h: seq<Rename>, p: Path)
    requires NoRepeats(Visits(h, p))
    ensures Links(h, p) == AllLinks(h, p)
    ensures |AllLinks(h, p)| == |Visits(h, p)| - 1
  {
    hide Visits, Links, AllLinks, Trace;
    LinksUpToFirstArrival(h, p);
    ChainComposedWhole(h, p);
    var v := Visits(h, p);
    assert v[|v| - 1] == Trace(h, p);
  }

  function Compose(links: seq<Word>): Word
    requires links != []
  {
    if |links| == 1 then links[0] else Scale(Compose(links[1..]), links[0])
  }

  lemma {:induction false} SummarySimilarity(files: set<Path>, h: seq<Rename>, p: Path)
    requires IsHistory(files, h) && p in Summary(h)
    ensures Links(h, p) != []
    ensures Summary(h)[p].similarity == Compose(Links(h, p))
    decreases |h|
  {
    var r := h[0];
    var files' := files - {r.from} + {r.to};
    SummaryAgrees(files, h);
    SummaryAgrees(files', h[1..]);
    if p != r.from {
      assert p in files' && Trace(h, p) == Trace(h[1..], p);
      SummarySimilarity(files', h[1..], p);
    } else {
      assert Trace(h, p) == Trace(h[1..], r.to);
      if r.to in Summary(h[1..]) {
        SummarySimilarity(files', h[1..], r.to);
        assert ([r.similarity] + Links(h[1..], r.to))[1..] == Links(h[1..], r.to);
      } else {
        assert Trace(h[1..], r.to) == r.to;
      }
    }
  }

  ghost predicate ArePercents(links: seq<Word>)
  {
    forall i :: 0 <= i < |links| ==> 1 <= links[i] <= 100
  }

  function Product(links: seq<Word>): nat
  {
    if links == [] then 1 else links[0] * Product(links[1..])
  }

  function Pow100(n: nat): (p: nat)
    ensures p >= 1
  {
    if n == 0 then 1 else 100 * Pow100(n - 1)
  }

  // c is p / t, short by less than k, or exact when k is 0.
  ghost predicate ShortByLess(c: nat, k: nat, p: nat, t: nat)
  {
    c * t <= p && if k == 0 then p == c * t else p < (c + k) * t
  }

  // k links compose to at most their exact product s1...sk / 100^(k-1), and to
  // less than k-1 below it although every step truncates.
  lemma {:induction false} ComposeNearProduct(links: seq<Word>)
    requires links != [] && ArePercents(links)
    ensures ShortByLess(Compose(links), |links| - 1, Product(links), Pow100(|links| - 1))
  {
    if |links| == 1 {
      assert Product(links) == links[0] * Product([]) == links[0];
      assert Pow100(0) == 1;
    } else {
      var rest, s := links[1..], links[0];
      ComposeNearProduct(rest);
      ComposeBelowLinks(rest);
      var c, c' := Compose(rest), Compose(links);
      assert c <= rest[0] == links[1];
      assert c' == Scale(c, s);
      assert Product(links) == s * Product(rest) && Pow100(|rest|) == 100 * Pow100(|rest| - 1);
      hide ShortByLess, Compose, Product, Pow100, Scale;
      ScaleIsExactDivision(c, s);
      TruncationStep(c, s, c', |rest| - 1, Product(rest), Pow100(|rest| - 1));
    }
  }

  lemma {:induction false} ComposeBelowLinks(links: seq<Word>)
    requires links != [] && ArePercents(links)
    ensures forall i :: 0 <= i < |links| ==> Compose(links) <= links[i]
  {
    hide Scale;
    if |links| > 1 {
      var rest := links[1..];
      ComposeBelowLinks(rest);
      assert Compose(rest) <= rest[0] == links[1];
      ScaleIsExactDivision(Compose(rest), links[0]);
      assert Compose(links) <= Compose(rest) && Compose(links) <= links[0];
      forall i | 1 <= i < |links|
        ensures Compose(links) <= links[i]
      {
        assert links[i] == rest[i - 1];
      }
    }
  }

  predicate AllPercents(h: seq<Rename>)
  {
    forall i :: 0 <= i < |h| ==> 1 <= h[i].similarity <= 100
  }

  lemma {:induction false} ChainPercents(h: seq<Rename>, p: Path)
    requires AllPercents(h)
    ensures ArePercents(AllLinks(h, p))
  {
    if h != [] {
      ChainPercents(h[1..], if p == h[0].from then h[0].to else p);
    }
  }

  // What the map says about a file, against the links up to the first time the file
  // has its final path: no link is exceeded and the exact product is met to within
  // the truncations.
  lemma EntryNearItsLinks(files: set<Path>, h: seq<Rename>, p: Path)
    requires IsHistory(files, h) && AllPercents(h) && p in Summary(h)
    ensures var k, s := FirstArrival(h, p), Summary(h)[p].similarity;
      && 0 < k <= |AllLinks(h, p)|
      && s == Compose(AllLinks(h, p)[..k])
      && ShortByLess(s, k - 1, Product(AllLinks(h, p)[..k]), Pow100(k - 1))
      && forall i :: 0 <= i < k ==> s <= AllLinks(h, p)[i]
  {
    hide Visits, Links, AllLinks, Trace, Summary, IsHistory, Compose, Product, Pow100, ShortByLess;
    SummarySimilarity(files, h, p);
    LinksUpToFirstArrival(h, p);
    ChainPercents(h, p);
    var links := Links(h, p);
    ComposeNearProduct(links);
    ComposeBelowLinks(links);
    forall i | 0 <= i < FirstArrival(h, p)
      ensures Summary(h)[p].similarity <= AllLinks(h, p)[i]
    {
      assert AllLinks(h, p)[i] == links[i];
    }
  }

  // The same against the whole chain, for files whose final path occurs once.
  lemma EntryNearWholeChain(files: set<Path>, h: seq<Rename>, p: Path)
    requires IsHistory(files, h) && AllPercents(h) && p in Summary(h) && ArrivesOnce(h, p)
    ensures var links, s := AllLinks(h, p), Summary(h)[p].similarity;
      && links != []
      && s == Compose(links)
      && ShortByLess(s, |links| - 1, Product(links), Pow100(|links| - 1))
      && forall i :: 0 <= i < |links| ==> s <= links[i]
  {
    hide Visits, Links, AllLinks, Trace, Summary, IsHistory, Compose, Product, Pow100, ShortByLess;
    SummarySimilarity(files, h, p);
    ChainComposedWhole(h, p);
    ChainPercents(h, p);
    ComposeNearProduct(AllLinks(h, p));
    ComposeBelowLinks(AllLinks(h, p));
  }

  // A file that leaves its final path and comes back: two links of 10 percent are
  // dropped and the entry says 100.
  lemma RoundTripIsDropped()
    ensures var h := [Rename("A", "B", 100), Rename("B", "C", 10), Rename("C", "B", 10)];
      && IsHistory({"A"}, h)
      && Summary(h) == map["A" := RenameInfo("B", 100)]
      && AllLinks(h, "A") == [100, 10, 10]
      && !ArrivesOnce(h, "A")
  {
    var h2 := [Rename("C", "B", 10)];
    var h1 := [Rename("B", "C", 10)] + h2;
    var h := [Rename("A", "B", 100)] + h1;
    assert h[1..] == h1 && h1[1..] == h2 && h2[1..] == [];
    assert h == [Rename("A", "B", 100), Rename("B", "C", 10), Rename("C", "B", 10)];
    assert "A" != "B" && "B" != "C" && "A" != "C" by {
      assert "A"[0] != "B"[0] && "B"[0] != "C"[0] && "A"[0] != "C"[0];
    }
    assert Summary(h2) == map["C" := RenameInfo("B", 10)];
    assert Summary(h1) == map[];
    assert AllLinks(h2, "C") == [10] && AllLinks(h1, "B") == [10, 10];
    assert Trace(h2, "C") == "B" && Trace(h1, "B") == "B";
    assert {"A"} - {"A"} + {"B"} == {"B"} && {"B"} - {"B"} + {"C"} == {"C"};
    assert IsHistory({"C"}, h2) && IsHistory({"B"}, h1);
    assert Visits(h, "A")[1] == "B";
  }

  // The product of two percentages does not wrap, so only the division truncates.
  lemma ScaleIsExactDivision(c: Word, s: Word)
    requires c <= 100 && 1 <= s <= 100
    ensures 100 * Scale(c, s) <= c * s < 100 * Scale(c, s) + 100
    ensures Scale(c, s) <= c && Scale(c, s) <= s
  {
    MulLe(s, 100, c);
    MulLe(c, 100, s);
    MulLe(0, c, s);
    var m := c * s;
    assert 0 <= m <= 10000;
    assert m % 0x1_0000_0000 == m;
  }

  lemma TruncationStep(c: nat, s: nat, c': nat, k: nat, p: nat, t: nat)
    requires 1 <= s <= 100 && t >= 1
    requires 100 * c' <= c * s < 100 * c' + 100
    requires ShortByLess(c, k, p, t)
    ensures ShortByLess(c', k + 1, s * p, 100 * t)
  {
    var ct, kt, u := c * t, k * t, c' * t;
    var e := p - ct;
    MulAssoc(c', 100, t);
    MulAssoc(100, c', t);
    MulSwap(c, s, t);
    MulAssoc(c, t, s);
    assert c * s * t == s * ct;
    MulLe(100 * c', c * s, t);
    MulLe(c * s, 100 * c' + 99, t);
    MulDistributes(100 * c', 99, t);
    assert 100 * u <= s * ct <= 100 * u + 99 * t;
    MulDistributes(ct, e, s);
    MulLe(s, 100, e);
    MulLe(0, e, s);
    MulDistributes(c, k, t);
    assert s * p == s * ct + s * e;
    assert s * e <= 100 * e <= 100 * kt;
    MulDistributes(c', k + 1, 100 * t);
    MulDistributes(k, 1, t);
    MulAssoc(k + 1, 100, t);
    MulAssoc(100, k + 1, t);
  }
}
