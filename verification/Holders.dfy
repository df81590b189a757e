/** Holder.h: an owner of a handle that destroys it unless it is moved or released.
    Handles are plain values, so a moved-from m_x still shows its old value. */
module Holders {
  import opened Sequences

  type Handle = int

  // What Destroy{} has been called on, in order.
  class Destroyer {
    var destroyed: seq<Handle>

    constructor ()
      ensures destroyed == []
    {
      destroyed := [];
    }
  }

  datatype State = State(valid: bool, x: Handle)

  // How often s owns t.
  function Owned(s: State, t: Handle): nat { if s.valid && s.x == t then 1 else 0 }

  class Holder {
    var valid: bool
    var x: Handle

    function Current(): State
      reads this
    {
      State(valid, x)
    }

    // Holder(): m_x holds whatever was there.
    constructor Empty(garbage: Handle)
      ensures Current() == State(false, garbage)
    {
      valid, x := false, garbage;
    }

    constructor Of(t: Handle)
      ensures Current() == State(true, t)
    {
      valid, x := true, t;
    }

    // Holder(Holder &&o).
    constructor Move(o: Holder)
      modifies o
      ensures Current() == old(o.Current())
      ensures o.Current() == old(o.Current()).(valid := false)
    {
      valid, x := o.valid, o.x;
      new;
      o.Invalidate();
    }

    method Invalidate()
      modifies this
      ensures Current() == old(Current()).(valid := false)
    {
      valid := false;
    }

    // release() does not look at m_valid.
    method Release() returns (t: Handle)
      modifies this
      ensures t == old(x) && Current() == State(false, old(x))
    {
      Invalidate();
      t := x;
    }

    // destroy(), which is also what ~Holder() does.
    method Destroy(d: Destroyer)
      modifies this, d
      ensures Current() == State(false, old(x))
      ensures d.destroyed == old(d.destroyed) + if old(valid) then [old(x)] else []
    {
      if valid {
        var t := Release();
        d.destroyed := d.destroyed + [t];
      }
    }

    method Set(t: Handle, v: bool, d: Destroyer)
      modifies this, d
      ensures Current() == State(v, if v then t else old(x))
      ensures d.destroyed == old(d.destroyed) + if old(valid) then [old(x)] else []
    {
      Destroy(d);
      if v {
        x := t;
      }
      valid := v;
    }

    // operator=(Holder &&o).
    method Assign(o: Holder, d: Destroyer)
      modifies this, o, d
      ensures this == o ==> Current() == old(Current()) && d.destroyed == old(d.destroyed)
      ensures this != o ==>
                && Current() == State(old(o.valid), if old(o.valid) then old(o.x) else old(x))
                && o.Current() == old(o.Current()).(valid := false)
                && d.destroyed == old(d.destroyed) + if old(valid) then [old(x)] else []
    {
      if this != o {
        var v := o.valid;
        var t := o.Release();
        Set(t, v, d);
      }
    }
  }

  // ---------- counting handles ----------

  function OwnedBy(s: seq<State>, t: Handle): nat
  {
    if s == [] then 0 else OwnedBy(s[..|s| - 1], t) + Owned(s[|s| - 1], t)
  }

  lemma OwnedAppend(s: seq<State>, v: State, t: Handle)
    ensures OwnedBy(s + [v], t) == OwnedBy(s, t) + Owned(v, t)
  {
    assert (s + [v])[..|s|] == s;
  }

  lemma {:induction false} OwnedConcat(r: seq<State>, s: seq<State>, t: Handle)
    ensures OwnedBy(r + s, t) == OwnedBy(r, t) + OwnedBy(s, t)
    decreases |s|
  {
    if s == [] {
      assert r + s == r;
    } else {
      var n := |s| - 1;
      OwnedConcat(r, s[..n], t);
      assert r + s == (r + s[..n]) + [s[n]];
      OwnedAppend(r + s[..n], s[n], t);
    }
  }

  lemma OwnedUpdate(s: seq<State>, i: nat, v: State, t: Handle)
    requires i < |s|
    ensures OwnedBy(s[i := v], t) == OwnedBy(s, t) - Owned(s[i], t) + Owned(v, t)
    ensures OwnedBy(s[..i] + s[i + 1..], t) == OwnedBy(s, t) - Owned(s[i], t)
  {
    hide OwnedBy, Owned;
    OwnedAppend(s[..i], s[i], t);
    OwnedAppend(s[..i], v, t);
    OwnedConcat(s[..i] + [s[i]], s[i + 1..], t);
    OwnedConcat(s[..i] + [v], s[i + 1..], t);
    OwnedConcat(s[..i], s[i + 1..], t);
    assert s == s[..i] + [s[i]] + s[i + 1..] && s[i := v] == s[..i] + [v] + s[i + 1..];
  }

  // ---------- any number of holders, any sequence of operations ----------

  datatype Operation =
    | NewEmpty(garbage: Handle)
    | NewOf(t: Handle)
    | NewMove(from: nat)
    | AssignMove(to: nat, from: nat)
    | SetTo(i: nat, t: Handle)
    | Release(i: nat)
    | EndLife(i: nat)

  // released went back to the caller; given was put under ownership.
  datatype World = World(holders: seq<State>, destroyed: seq<Handle>, released: seq<Handle>, given: seq<Handle>)

  // The handle a valid holder gives up when something else happens to it.
  function Dropped(s: State): seq<Handle> { if s.valid then [s.x] else [] }

  // An operation on a holder that does not exist is no operation.
  function After(w: World, op: Operation): World
  {
    var s := w.holders;
    match op
    case NewEmpty(g) => w.(holders := s + [State(false, g)])
    case NewOf(t) => w.(holders := s + [State(true, t)], given := w.given + [t])
    case NewMove(from) =>
      if from < |s| then w.(holders := s[from := s[from].(valid := false)] + [s[from]]) else w
    case AssignMove(to, from) =>
      if to < |s| && from < |s| && to != from then
        var v := State(s[from].valid, if s[from].valid then s[from].x else s[to].x);
        w.(holders := s[from := s[from].(valid := false)][to := v], destroyed := w.destroyed + Dropped(s[to]))
      else w
    case SetTo(i, t) =>
      if i < |s| then
        w.(holders := s[i := State(true, t)], destroyed := w.destroyed + Dropped(s[i]), given := w.given + [t])
      else w
    case Release(i) =>
      if i < |s| then w.(holders := s[i := s[i].(valid := false)], released := w.released + [s[i].x]) else w
    case EndLife(i) =>
      if i < |s| then w.(holders := s[..i] + s[i + 1..], destroyed := w.destroyed + Dropped(s[i])) else w
  }

  function AfterAll(ops: seq<Operation>): World
  {
    if ops == [] then World([], [], [], []) else After(AfterAll(ops[..|ops| - 1]), ops[|ops| - 1])
  }

  // How often t is owned by a valid holder, was handed back or was destroyed, beyond
  // the times it was given.
  function Excess(w: World, t: Handle): int
  {
    OwnedBy(w.holders, t) + Occurrences(w.released, t) + Occurrences(w.destroyed, t) - Occurrences(w.given, t)
  }

  // Every handle is in the three places together as often as it was given.
  ghost predicate Balanced(w: World)
  {
    forall t :: Excess(w, t) == 0
  }

  // The release of a holder that exists but is not valid.
  predicate ReleasesInvalid(w: World, op: Operation)
  {
    op.Release? && op.i < |w.holders| && !w.holders[op.i].valid
  }

  lemma DroppedCounts(d: seq<Handle>, s: State, t: Handle)
    ensures Occurrences(d + Dropped(s), t) == Occurrences(d, t) + Owned(s, t)
  {
    if s.valid {
      OccurrencesAppend(d, s.x, t);
    } else {
      assert d + [] == d;
    }
  }

  // Every operation but the release of an invalid holder leaves every count as it
  // was; that one hands out once more what the holder last held.
  lemma OperationCounts(w: World, op: Operation, t: Handle)
    ensures Excess(After(w, op), t)
         == Excess(w, t) + if ReleasesInvalid(w, op) && w.holders[op.i].x == t then 1 else 0
  {
    hide OwnedBy, Occurrences, Dropped;
    var s := w.holders;
    match op
    case NewEmpty(g) => OwnedAppend(s, State(false, g), t);
    case NewOf(x) =>
      OwnedAppend(s, State(true, x), t);
      OccurrencesAppend(w.given, x, t);
    case NewMove(from) =>
      if from < |s| {
        OwnedUpdate(s, from, s[from].(valid := false), t);
        OwnedAppend(s[from := s[from].(valid := false)], s[from], t);
      }
    case AssignMove(to, from) =>
      if to < |s| && from < |s| && to != from {
        var moved := s[from := s[from].(valid := false)];
        OwnedUpdate(s, from, s[from].(valid := false), t);
        OwnedUpdate(moved, to, After(w, op).holders[to], t);
        DroppedCounts(w.destroyed, s[to], t);
      }
    case SetTo(i, x) =>
      if i < |s| {
        OwnedUpdate(s, i, State(true, x), t);
        DroppedCounts(w.destroyed, s[i], t);
        OccurrencesAppend(w.given, x, t);
      }
    case Release(i) =>
      if i < |s| {
        OwnedUpdate(s, i, s[i].(valid := false), t);
        OccurrencesAppend(w.released, s[i].x, t);
      }
    case EndLife(i) =>
      if i < |s| {
        OwnedUpdate(s, i, s[i], t);
        DroppedCounts(w.destroyed, s[i], t);
      }
  }

  // From a balanced state an operation keeps the balance exactly unless it releases
  // an invalid holder.
  lemma OperationBalances(w: World, op: Operation)
    requires Balanced(w)
    ensures Balanced(After(w, op)) <==> !ReleasesInvalid(w, op)
  {
    hide Excess, After;
    forall t
      ensures Excess(After(w, op), t) == if ReleasesInvalid(w, op) && w.holders[op.i].x == t then 1 else 0
    {
      OperationCounts(w, op, t);
    }
    if ReleasesInvalid(w, op) {
      assert Excess(After(w, op), w.holders[op.i].x) == 1;
    }
  }

  // No operation of the sequence releases an invalid holder.
  ghost predicate ReleasesAreValid(ops: seq<Operation>)
  {
    forall k :: 0 <= k < |ops| ==> !ReleasesInvalid(AfterAll(ops[..k]), ops[k])
  }

  lemma ReleasesOfPrefix(ops: seq<Operation>)
    requires ops != []
    ensures var n := |ops| - 1;
      ReleasesAreValid(ops) <==> ReleasesAreValid(ops[..n]) && !ReleasesInvalid(AfterAll(ops[..n]), ops[n])
  {
    hide ReleasesInvalid, AfterAll;
    var n := |ops| - 1;
    assert forall k :: 0 <= k < n ==> ops[..n][..k] == ops[..k] && ops[..n][k] == ops[k];
  }

  // No handle is ever in fewer places than it was given.
  lemma {:induction false} NothingIsLost(ops: seq<Operation>, t: Handle)
    ensures Excess(AfterAll(ops), t) >= 0
  {
    hide After;
    if ops != [] {
      NothingIsLost(ops[..|ops| - 1], t);
      OperationCounts(AfterAll(ops[..|ops| - 1]), ops[|ops| - 1], t);
    }
  }

  // A run ends balanced exactly when none of its operations releases an invalid
  // holder: what such a release hands out twice no later operation takes back.
  lemma {:induction false} RunsBalance(ops: seq<Operation>)
    ensures Balanced(AfterAll(ops)) <==> ReleasesAreValid(ops)
  {
    if ops != [] {
      var n := |ops| - 1;
      var w := AfterAll(ops[..n]);
      assert AfterAll(ops) == After(w, ops[n]);
      RunsBalance(ops[..n]);
      ReleasesOfPrefix(ops);
      hide After, AfterAll, Excess, ReleasesInvalid;
      if Balanced(w) {
        OperationBalances(w, ops[n]);
      } else {
        var t :| Excess(w, t) != 0;
        NothingIsLost(ops[..n], t);
        OperationCounts(w, ops[n], t);
        assert Excess(AfterAll(ops), t) > 0;
      }
    }
  }

  lemma AfterOneMore(ops: seq<Operation>, op: Operation)
    ensures AfterAll(ops + [op]) == After(AfterAll(ops), op)
  {
    hide After;
    assert (ops + [op])[..|ops|] == ops;
  }

  // A run that is not balanced: the handle 1, given once, is released twice.
  lemma ReleasedTwice()
    ensures var ops := [NewOf(1), Release(0), Release(0)];
      && AfterAll(ops) == World([State(false, 1)], [], [1, 1], [1])
      && !ReleasesAreValid(ops) && !Balanced(AfterAll(ops))
  {
    var ops, w := [NewOf(1), Release(0)], World([State(false, 1)], [], [1], [1]);
    AfterOneMore([], NewOf(1));
    AfterOneMore([NewOf(1)], Release(0));
    AfterOneMore(ops, Release(0));
    assert [] + [NewOf(1)] == [NewOf(1)] && [NewOf(1)] + [Release(0)] == ops;
    assert ops + [Release(0)] == [NewOf(1), Release(0), Release(0)];
    assert AfterAll(ops) == w && After(w, Release(0)) == World([State(false, 1)], [], [1, 1], [1]);
    assert ReleasesInvalid(w, Release(0));
    hide AfterAll, After, ReleasesInvalid, Balanced;
    ReleasesOfPrefix(ops + [Release(0)]);
    assert (ops + [Release(0)])[..2] == ops;
    RunsBalance(ops + [Release(0)]);
  }

  // So a handle given once is in exactly one of the places, once.
  lemma EachHandleIsInOnePlace(ops: seq<Operation>, t: Handle)
    requires ReleasesAreValid(ops) && Occurrences(AfterAll(ops).given, t) == 1
    ensures var w := AfterAll(ops);
      OwnedBy(w.holders, t) + Occurrences(w.released, t) + Occurrences(w.destroyed, t) == 1
  {
    RunsBalance(ops);
    assert Excess(AfterAll(ops), t) == 0;
  }

  // ---------- where the handles go ----------

  // Nothing but holders i and j has changed.
  ghost predicate OthersStay(s: seq<State>, s': seq<State>, i: nat, j: nat)
  {
    |s| <= |s'| && forall k :: 0 <= k < |s| && k != i && k != j ==> s'[k] == s[k]
  }

  // Whatever came before, a holder built from a handle owns it, and one built without
  // owns nothing.
  lemma NewHolderOwns(ops: seq<Operation>, t: Handle)
    ensures var w, v := AfterAll(ops), AfterAll(ops + [NewOf(t)]);
      && v.holders == w.holders + [State(true, t)]
      && v.given == w.given + [t] && v.destroyed == w.destroyed && v.released == w.released
    ensures var w, v := AfterAll(ops), AfterAll(ops + [NewEmpty(t)]);
      && |v.holders| == |w.holders| + 1 && !v.holders[|w.holders|].valid && v.holders[..|w.holders|] == w.holders
      && v.given == w.given && v.destroyed == w.destroyed && v.released == w.released
  {
    AfterOneMore(ops, NewOf(t));
    AfterOneMore(ops, NewEmpty(t));
  }

  // A holder built by moving is what the other one was, and that one owns nothing now.
  lemma MoveTransfers(ops: seq<Operation>, from: nat)
    requires from < |AfterAll(ops).holders|
    ensures var w, v := AfterAll(ops), AfterAll(ops + [NewMove(from)]);
      var n := |w.holders|;
      && |v.holders| == n + 1 && v.holders[n] == w.holders[from]
      && !v.holders[from].valid && OthersStay(w.holders, v.holders, from, from)
      && v.given == w.given && v.destroyed == w.destroyed && v.released == w.released
  {
    AfterOneMore(ops, NewMove(from));
  }

  // Move assignment between two holders destroys what the target owned, which is then
  // what the source was; assignment to itself changes nothing.
  lemma AssignTransfers(ops: seq<Operation>, to: nat, from: nat)
    requires to < |AfterAll(ops).holders| && from < |AfterAll(ops).holders|
    ensures var w, v := AfterAll(ops), AfterAll(ops + [AssignMove(to, from)]);
      && (to == from ==> v == w)
      && (to != from ==>
            && |v.holders| == |w.holders| && OthersStay(w.holders, v.holders, to, from)
            && v.holders[to].valid == w.holders[from].valid && !v.holders[from].valid
            && v.holders[to].x == (if w.holders[from].valid then w.holders[from].x else w.holders[to].x)
            && v.destroyed == (if w.holders[to].valid then w.destroyed + [w.holders[to].x] else w.destroyed)
            && v.given == w.given && v.released == w.released)
  {
    AfterOneMore(ops, AssignMove(to, from));
  }

  lemma SetReplaces(ops: seq<Operation>, i: nat, t: Handle)
    requires i < |AfterAll(ops).holders|
    ensures var w, v := AfterAll(ops), AfterAll(ops + [SetTo(i, t)]);
      && |v.holders| == |w.holders| && OthersStay(w.holders, v.holders, i, i)
      && v.holders[i] == State(true, t)
      && v.destroyed == (if w.holders[i].valid then w.destroyed + [w.holders[i].x] else w.destroyed)
      && v.given == w.given + [t] && v.released == w.released
  {
    AfterOneMore(ops, SetTo(i, t));
  }

  lemma ReleaseHandsBack(ops: seq<Operation>, i: nat)
    requires i < |AfterAll(ops).holders|
    ensures var w, v := AfterAll(ops), AfterAll(ops + [Release(i)]);
      && |v.holders| == |w.holders| && OthersStay(w.holders, v.holders, i, i)
      && !v.holders[i].valid && v.released == w.released + [w.holders[i].x]
      && v.given == w.given && v.destroyed == w.destroyed
  {
    AfterOneMore(ops, Release(i));
  }

  // The end of a holder's life destroys the handle it owns; the ones behind it move up.
  lemma EndDestroys(ops: seq<Operation>, i: nat)
    requires i < |AfterAll(ops).holders|
    ensures var w, v := AfterAll(ops), AfterAll(ops + [EndLife(i)]);
      && |v.holders| == |w.holders| - 1
      && (forall k :: 0 <= k < |v.holders| ==> v.holders[k] == w.holders[if k < i then k else k + 1])
      && v.destroyed == (if w.holders[i].valid then w.destroyed + [w.holders[i].x] else w.destroyed)
      && v.given == w.given && v.released == w.released
  {
    AfterOneMore(ops, EndLife(i));
  }

  // A handle that is given, moved and dropped with its new holder is destroyed once.
  lemma MovedThenDestroyed(t: Handle)
    ensures var w := AfterAll([NewOf(t), NewMove(0), EndLife(1)]);
      && |w.holders| == 1 && !w.holders[0].valid && w.destroyed == [t] && w.released == [] && w.given == [t]
  {
    var o1, o2 := [NewOf(t)], [NewOf(t), NewMove(0)];
    NewHolderOwns([], t);
    assert [] + [NewOf(t)] == o1 && o1 + [NewMove(0)] == o2 && o2 + [EndLife(1)] == [NewOf(t), NewMove(0), EndLife(1)];
    assert AfterAll([]) == World([], [], [], []);
    hide AfterAll;
    MoveTransfers(o1, 0);
    EndDestroys(o2, 1);
  }

  // ---------- the same run on objects ----------

  ghost function States(hs: seq<Holder>): seq<State>
    reads hs
  {
    seq(|hs|, i requires 0 <= i < |hs| reads hs => hs[i].Current())
  }

  ghost function Snapshot(hs: seq<Holder>, d: Destroyer, released: seq<Handle>, given: seq<Handle>): World
    reads hs, d
  {
    World(States(hs), d.destroyed, released, given)
  }

  // An operation on a holder that exists already.
  method Change(op: Operation, hs: seq<Holder>, d: Destroyer, released0: seq<Handle>, given0: seq<Handle>)
    returns (released: seq<Handle>, given: seq<Handle>)
    requires NoRepeats(hs) && (op.AssignMove? || op.SetTo? || op.Release?)
    modifies hs, d
    ensures Snapshot(hs, d, released, given) == After(old(Snapshot(hs, d, released0, given0)), op)
  {
    released, given := released0, given0;
    ghost var s := States(hs);
    if op.AssignMove? && op.to < |hs| && op.from < |hs| {
      hs[op.to].Assign(hs[op.from], d);
    } else if op.SetTo? && op.i < |hs| {
      hs[op.i].Set(op.t, true, d);
      given := given + [op.t];
    } else if op.Release? && op.i < |hs| {
      var x := hs[op.i].Release();
      released := released + [x];
    }
    assert States(hs) == After(World(s, [], [], []), op).holders;
  }

  // An operation that begins or ends the life of a holder.
  method Create(op: Operation, hs0: seq<Holder>, d: Destroyer, given0: seq<Handle>, ghost released: seq<Handle>)
    returns (hs: seq<Holder>, given: seq<Handle>)
    requires NoRepeats(hs0) && (op.NewEmpty? || op.NewOf? || op.NewMove? || op.EndLife?)
    modifies hs0, d
    ensures NoRepeats(hs) && forall j :: 0 <= j < |hs| ==> hs[j] in hs0 || fresh(hs[j])
    ensures Snapshot(hs, d, released, given) == After(old(Snapshot(hs0, d, released, given0)), op)
  {
    hs, given := hs0, given0;
    ghost var s := States(hs0);
    if op.NewEmpty? {
      var h := new Holder.Empty(op.garbage);
      hs := hs + [h];
    } else if op.NewOf? {
      var h := new Holder.Of(op.t);
      hs := hs + [h];
      given := given + [op.t];
    } else if op.NewMove? && op.from < |hs| {
      var h := new Holder.Move(hs[op.from]);
      hs := hs + [h];
    } else if op.EndLife? && op.i < |hs| {
      hs[op.i].Destroy(d);
      hs := hs[..op.i] + hs[op.i + 1..];
    }
    assert States(hs) == After(World(s, [], [], []), op).holders;
  }

  method Run(ops: seq<Operation>) returns (hs: seq<Holder>, d: Destroyer, released: seq<Handle>, given: seq<Handle>)
    ensures NoRepeats(hs) && Snapshot(hs, d, released, given) == AfterAll(ops)
  {
    hs, released, given := [], [], [];
    d := new Destroyer();
    assert Snapshot(hs, d, released, given) == AfterAll(ops[..0]);
    for k := 0 to |ops|
      invariant fresh(d) && NoRepeats(hs) && forall j :: 0 <= j < |hs| ==> fresh(hs[j])
      invariant Snapshot(hs, d, released, given) == AfterAll(ops[..k])
    {
      assert ops[..k + 1][..k] == ops[..k];
      if ops[k].AssignMove? || ops[k].SetTo? || ops[k].Release? {
        released, given := Change(ops[k], hs, d, released, given);
      } else {
        hs, given := Create(ops[k], hs, d, given, released);
      }
    }
    assert ops[..|ops|] == ops;
  }
}
