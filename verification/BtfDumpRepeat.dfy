/** Exactly when a visit of the dumper lists something twice: when the visit of a
    typedef's target has listed the typedef already. */
module BtfDumpRepeat {
  import opened Basics
  import opened BtfTypes
  import opened BtfDumpRun

  ghost predicate NoRepeat(q: seq<Id>) {
    forall j, k :: 0 <= j < k < |q| ==> q[j] != q[k]
  }

  /** What is listed is ordered, and a typedef is ordered only by being listed. */
  ghost predicate Filed(g: Graph, st: seq<State>, q: seq<Id>) {
    && |st| == |g|
    && (forall i :: i in q ==> i < |g| && st[i] == Ordered)
    && (forall i :: 0 <= i < |g| && IsTypedef(g[i]) && st[i] == Ordered ==> i in q)
  }

  /** Exactly the open structs stay open. */
  ghost predicate OpenStay(st: seq<State>, now: seq<State>) {
    |st| == |now| && forall i :: 0 <= i < |st| ==> (st[i] == Ordering <==> now[i] == Ordering)
  }

  /** Whether, in the visit, a typedef about to be listed is ordered already. */
  ghost predicate Meets(n: nat, g: Graph, rf: seq<bool>, st: seq<State>, q: seq<Id>, id: Id, ptr: bool)
    decreases n, 0
  {
    n > 0 && id < |g| == |st| == |rf| && st[id] == NotOrdered &&
    match g[id].body
    case Ref(Ptr, _, target) => Meets(n - 1, g, rf, st, q, target, true)
    case Ref(Func, _, _) => false
    case Ref(Typedef, _, target) =>
      Meets(n - 1, g, rf, st, q, target, ptr) || ListsAgain(Visit(n - 1, g, rf, st, q, target, ptr), id, ptr)
    case Ref(_, _, target) => Meets(n - 1, g, rf, st, q, target, ptr)
    case Array(_, _, _, elem, _) => Meets(n - 1, g, rf, st, q, elem, ptr)
    case Composite(_, _, _) =>
      !(ptr && Named(g[id])) &&
      MeetsIn(n - 1, g, rf, st[id := Ordering], q, FieldTypes(g[id]), false, |FieldTypes(g[id])|)
    case FuncProto(_, _) => MeetsIn(n - 1, g, rf, st, q, ProtoTypes(g[id]), ptr, |ProtoTypes(g[id])|)
    case _ => false
  }

  /** The typedef goes on the list after its target, and is ordered by then. */
  predicate ListsAgain(target: Option<Out>, id: Id, ptr: bool) {
    && target.Some? && !target.value.link.Failed? && !(ptr && target.value.link == Weak)
    && id < |target.value.st| && target.value.st[id] == Ordered
  }

  ghost predicate MeetsIn(n: nat, g: Graph, rf: seq<bool>, st: seq<State>, q: seq<Id>, ids: seq<Id>, ptr: bool, k: nat)
    requires k <= |ids|
    decreases n, 1, k
  {
    k > 0 && (
      MeetsIn(n, g, rf, st, q, ids, ptr, k - 1)
      || var before := VisitAll(n, g, rf, st, q, ids, ptr, k - 1);
         n > 0 && before.Some? && Meets(n - 1, g, rf, before.value.st, before.value.q, ids[k - 1], ptr))
  }

  /** The lists before and after a visit, which meets one or does not. */
  ghost predicate Repeats(g: Graph, st: seq<State>, q: seq<Id>, meets: bool, o: Out) {
    && Filed(g, o.st, o.q) && OpenStay(st, o.st) && (NoRepeat(o.q) <==> NoRepeat(q) && !meets)
  }

  lemma NothingListed(g: Graph, st: seq<State>, q: seq<Id>, id: Id, mark: bool, o: Out)
    requires Filed(g, st, q) && id < |g| && o.q == q && o.st == if mark then st[id := Ordered] else st
    requires mark ==> st[id] != Ordering && !IsTypedef(g[id])
    ensures Repeats(g, st, q, false, o)
  {
  }

  lemma OneListed(g: Graph, st: seq<State>, q: seq<Id>, id: Id, o: Out)
    requires Filed(g, st, q) && id < |g| && o.q == q + [id] && o.st == st[id := Ordered]
    requires st[id] == NotOrdered || (st[id] == Ordered && IsTypedef(g[id]))
    ensures Repeats(g, st, q, st[id] == Ordered, o)
  {
    if st[id] == Ordered {
      var j :| 0 <= j < |q| && q[j] == id;
      assert o.q[j] == o.q[|q|];
    } else if NoRepeat(q) {
      assert id !in q;
    } else {
      var j, k :| 0 <= j < k < |q| && q[j] == q[k];
      assert o.q[j] == o.q[k];
    }
  }

  lemma RepeatsThen(g: Graph, st: seq<State>, q: seq<Id>, meets: bool, o: Out, again: bool, p: Out)
    requires Repeats(g, st, q, meets, o) && Repeats(g, o.st, o.q, again, p)
    ensures Repeats(g, st, q, meets || again, p)
  {
  }

  /** Marking a struct that was open, and listing it if it is named. */
  lemma StructListed(g: Graph, st: seq<State>, q: seq<Id>, id: Id, meets: bool, o: Out, p: Out)
    requires id < |g| == |st| && st[id] == NotOrdered && g[id].body.Composite?
    requires Filed(g, st, q) && Repeats(g, st[id := Ordering], q, meets, o)
    requires p.st == o.st[id := Ordered] && p.q == (if Named(g[id]) then o.q + [id] else o.q)
    ensures Repeats(g, st, q, meets, p)
  {
    assert o.st[id] == Ordering && id !in o.q;
    if Named(g[id]) {
      if NoRepeat(o.q) {
        assert NoRepeat(p.q);
      } else {
        var j, k :| 0 <= j < k < |o.q| && o.q[j] == o.q[k];
        assert p.q[j] == p.q[k];
      }
    }
    assert forall i :: 0 <= i < |st| && i != id ==> st[id := Ordering][i] == st[i];
  }

  lemma OpenFiled(g: Graph, st: seq<State>, q: seq<Id>, id: Id)
    requires Filed(g, st, q) && id < |g| && st[id] == NotOrdered
    ensures Filed(g, st[id := Ordering], q)
  {
  }

  lemma {:induction false} VisitRepeats(n: nat, g: Graph, rf: seq<bool>, st: seq<State>, q: seq<Id>, id: Id, ptr: bool)
    requires Filed(g, st, q) && Visit(n, g, rf, st, q, id, ptr).Some?
    requires !Visit(n, g, rf, st, q, id, ptr).value.link.Failed?
    ensures Repeats(g, st, q, Meets(n, g, rf, st, q, id, ptr), Visit(n, g, rf, st, q, id, ptr).value)
    decreases n, 0
  {
    hide Filed, Repeats;
    var t, o := g[id], Visit(n, g, rf, st, q, id, ptr).value;
    if st[id] != NotOrdered {
      NothingListed(g, st, q, id, false, o);
      return;
    }
    match t.body
    case Int(_, _, _) => NothingListed(g, st, q, id, true, o);
    case Var(_, _, _) => NothingListed(g, st, q, id, true, o);
    case Datasec(_, _) => NothingListed(g, st, q, id, true, o);
    case Enum(_, _) =>
      if Named(t) || !rf[id] { OneListed(g, st, q, id, o); } else { NothingListed(g, st, q, id, true, o); }
    case Fwd(_, _) =>
      if Named(t) || !rf[id] { OneListed(g, st, q, id, o); } else { NothingListed(g, st, q, id, true, o); }
    case Ref(kind, _, target) =>
      if kind == Func {
        NothingListed(g, st, q, id, true, o);
      } else {
        VisitRepeats(n - 1, g, rf, st, q, target, if kind == Ptr then true else ptr);
        RefRepeats(n, g, rf, st, q, id, ptr);
      }
    case Array(_, _, _, elem, _) => VisitRepeats(n - 1, g, rf, st, q, elem, ptr);
    case Composite(_, _, _) =>
      if ptr && Named(t) {
        NothingListed(g, st, q, id, false, o);
      } else {
        OpenFiled(g, st, q, id);
        var ids := FieldTypes(t);
        VisitAllRepeats(n - 1, g, rf, st[id := Ordering], q, ids, false, |ids|);
        StructListed(g, st, q, id, MeetsIn(n - 1, g, rf, st[id := Ordering], q, ids, false, |ids|),
                     VisitAll(n - 1, g, rf, st[id := Ordering], q, ids, false, |ids|).value, o);
      }
    case FuncProto(_, _) =>
      VisitAllRepeats(n - 1, g, rf, st, q, ProtoTypes(t), ptr, |ProtoTypes(t)|);
  }

  /** A pointer marks itself, a typedef lists itself, the others do nothing more. */
  lemma RefRepeats(n: nat, g: Graph, rf: seq<bool>, st: seq<State>, q: seq<Id>, id: Id, ptr: bool)
    requires n > 0 && Visit(n, g, rf, st, q, id, ptr).Some? && !Visit(n, g, rf, st, q, id, ptr).value.link.Failed?
    requires st[id] == NotOrdered && g[id].body.Ref? && g[id].body.kind != Func
    requires var through := if g[id].body.kind == Ptr then true else ptr;
      Repeats(g, st, q, Meets(n - 1, g, rf, st, q, g[id].body.target, through),
              Visit(n - 1, g, rf, st, q, g[id].body.target, through).value)
    ensures Repeats(g, st, q, Meets(n, g, rf, st, q, id, ptr), Visit(n, g, rf, st, q, id, ptr).value)
  {
    var kind, target, o := g[id].body.kind, g[id].body.target, Visit(n, g, rf, st, q, id, ptr).value;
    var through := if kind == Ptr then true else ptr;
    var inner := Visit(n - 1, g, rf, st, q, target, through).value;
    var meets := Meets(n - 1, g, rf, st, q, target, through);
    if kind == Ptr {
      PtrMarked(g, st, q, id, meets, inner, o);
    } else if kind == Typedef && !(ptr && inner.link == Weak) {
      TypedefListed(g, st, q, id, meets, inner, o);
    }
  }

  lemma PtrMarked(g: Graph, st: seq<State>, q: seq<Id>, id: Id, meets: bool, o: Out, p: Out)
    requires id < |g| == |st| && st[id] == NotOrdered && g[id].body.Ref? && g[id].body.kind == Ptr
    requires Repeats(g, st, q, meets, o) && p.st == o.st[id := Ordered] && p.q == o.q
    ensures Repeats(g, st, q, meets, p)
  {
  }

  lemma TypedefListed(g: Graph, st: seq<State>, q: seq<Id>, id: Id, meets: bool, o: Out, p: Out)
    requires id < |g| == |st| && st[id] == NotOrdered && IsTypedef(g[id])
    requires Repeats(g, st, q, meets, o) && p.st == o.st[id := Ordered] && p.q == o.q + [id]
    ensures Repeats(g, st, q, meets || o.st[id] == Ordered, p)
  {
    OneListed(g, o.st, o.q, id, p);
  }

  lemma {:induction false} VisitAllRepeats(n: nat, g: Graph, rf: seq<bool>, st: seq<State>, q: seq<Id>,
                                           ids: seq<Id>, ptr: bool, k: nat)
    requires k <= |ids| && Filed(g, st, q) && VisitAll(n, g, rf, st, q, ids, ptr, k).Some?
    requires !VisitAll(n, g, rf, st, q, ids, ptr, k).value.link.Failed?
    ensures Repeats(g, st, q, MeetsIn(n, g, rf, st, q, ids, ptr, k), VisitAll(n, g, rf, st, q, ids, ptr, k).value)
    decreases n, 1, k
  {
    if k > 0 {
      VisitAllRepeats(n, g, rf, st, q, ids, ptr, k - 1);
      var o := VisitAll(n, g, rf, st, q, ids, ptr, k - 1).value;
      VisitRepeats(n - 1, g, rf, o.st, o.q, ids[k - 1], ptr);
      var p := Visit(n - 1, g, rf, o.st, o.q, ids[k - 1], ptr).value;
      RepeatsThen(g, st, q, MeetsIn(n, g, rf, st, q, ids, ptr, k - 1), o,
                  Meets(n - 1, g, rf, o.st, o.q, ids[k - 1], ptr), p);
    }
  }

  /** The list repeats an entry if it did before, or the visit meets a typedef
      already ordered after its target; and only then. */
  ghost predicate RepeatsAsMet(g: Graph, rf: seq<bool>, st: seq<State>, q: seq<Id>, id: Id, o: Out) {
    exists n: nat :: Visit(n, g, rf, st, q, id, false) == Some(o) &&
                     (NoRepeat(o.q) <==> NoRepeat(q) && !Meets(n, g, rf, st, q, id, false))
  }

  lemma QueueRepeatsIff(g: Graph, rf: seq<bool>, st: seq<State>, q: seq<Id>, id: Id, o: Out)
    requires Filed(g, st, q) && Ends(g, rf, st, q, id, false, o) && !o.link.Failed?
    ensures Filed(g, o.st, o.q) && RepeatsAsMet(g, rf, st, q, id, o)
  {
    var n: nat :| Visit(n, g, rf, st, q, id, false) == Some(o);
    VisitRepeats(n, g, rf, st, q, id, false);
  }

  // ----- a condition on the graph alone -----

  function Uses(ids: seq<Id>, ptr: bool): seq<(Id, bool)> {
    seq(|ids|, k requires 0 <= k < |ids| => (ids[k], ptr))
  }

  /** The types a visit goes on to, and whether behind a pointer. */
  function Goes(t: Type, ptr: bool): seq<(Id, bool)> {
    match t.body
    case Ref(Ptr, _, target) => [(target, true)]
    case Ref(Func, _, _) => []
    case Ref(_, _, target) => [(target, ptr)]
    case Array(_, _, _, elem, _) => [(elem, ptr)]
    case Composite(_, _, _) =>
      if ptr && Named(t) then [] else Uses(FieldTypes(t), false)
    case FuncProto(_, _) => Uses(ProtoTypes(t), ptr)
    case _ => []
  }

  /** A visit of `i` may come to `y`, in at most `n` steps. */
  ghost predicate LeadsWithin(g: Graph, i: Id, ptr: bool, y: Id, p: bool, n: nat)
    decreases n
  {
    n > 0 && i < |g| && (
      (i == y && ptr == p)
      || exists k :: 0 <= k < |Goes(g[i], ptr)| && LeadsBy(g, Goes(g[i], ptr)[k], y, p, n))
  }

  ghost predicate LeadsBy(g: Graph, use: (Id, bool), y: Id, p: bool, n: nat)
    requires n > 0
    decreases n, 0
  {
    LeadsWithin(g, use.0, use.1, y, p, n - 1)
  }

  ghost predicate Leads(g: Graph, i: Id, ptr: bool, y: Id, p: bool) {
    exists n: nat :: LeadsWithin(g, i, ptr, y, p, n)
  }

  /** A typedef whose own target leads back to it. */
  ghost predicate Returns(g: Graph, y: Id, p: bool) {
    y < |g| && IsTypedef(g[y]) && exists p' :: Leads(g, g[y].body.target, p, y, p')
  }

  /** A typedef that returns is among what a visit of `i` may come to. */
  ghost predicate LeadsToReturning(g: Graph, i: Id, ptr: bool) {
    exists y, p :: Leads(g, i, ptr, y, p) && Returns(g, y, p)
  }

  lemma LeadsHere(g: Graph, i: Id, ptr: bool)
    requires i < |g|
    ensures Leads(g, i, ptr, i, ptr)
  {
    assert LeadsWithin(g, i, ptr, i, ptr, 1);
  }

  lemma LeadsOn(g: Graph, i: Id, ptr: bool, k: nat, y: Id, p: bool)
    requires i < |g| && k < |Goes(g[i], ptr)| && Leads(g, Goes(g[i], ptr)[k].0, Goes(g[i], ptr)[k].1, y, p)
    ensures Leads(g, i, ptr, y, p)
  {
    var use := Goes(g[i], ptr)[k];
    var n: nat :| LeadsWithin(g, use.0, use.1, y, p, n);
    assert LeadsBy(g, use, y, p, n + 1);
    assert LeadsWithin(g, i, ptr, y, p, n + 1);
  }

  /** What the visit of `i` orders, it may come to. */
  ghost predicate OrdersLed(g: Graph, st: seq<State>, now: seq<State>, i: Id, ptr: bool) {
    |st| == |now| && forall y :: 0 <= y < |st| && st[y] != Ordered && now[y] == Ordered ==> LedTo(g, i, ptr, y)
  }

  ghost predicate LedTo(g: Graph, i: Id, ptr: bool, y: Id) {
    exists p :: Leads(g, i, ptr, y, p)
  }

  lemma LedOn(g: Graph, st: seq<State>, now: seq<State>, i: Id, ptr: bool, k: nat)
    requires i < |g| && k < |Goes(g[i], ptr)|
    requires OrdersLed(g, st, now, Goes(g[i], ptr)[k].0, Goes(g[i], ptr)[k].1)
    ensures OrdersLed(g, st, now, i, ptr)
  {
    forall y | 0 <= y < |st| && st[y] != Ordered && now[y] == Ordered ensures LedTo(g, i, ptr, y) {
      assert LedTo(g, Goes(g[i], ptr)[k].0, Goes(g[i], ptr)[k].1, y);
      var p :| Leads(g, Goes(g[i], ptr)[k].0, Goes(g[i], ptr)[k].1, y, p);
      LeadsOn(g, i, ptr, k, y, p);
    }
  }

  lemma LedMarked(g: Graph, st: seq<State>, now: seq<State>, i: Id, ptr: bool)
    requires i < |g| == |now| && OrdersLed(g, st, now, i, ptr)
    ensures OrdersLed(g, st, now[i := Ordered], i, ptr)
  {
    LeadsHere(g, i, ptr);
    assert LedTo(g, i, ptr, i);
  }

  /** The first `k` of the types that `i` goes on to have been visited. */
  ghost predicate OrdersAllLed(g: Graph, st: seq<State>, now: seq<State>, ids: seq<Id>, ptr: bool, k: nat)
    requires k <= |ids|
  {
    |st| == |now| && forall y :: 0 <= y < |st| && st[y] != Ordered && now[y] == Ordered ==> LedFrom(g, ids, ptr, k, y)
  }

  ghost predicate LedFrom(g: Graph, ids: seq<Id>, ptr: bool, k: nat, y: Id)
    requires k <= |ids|
  {
    exists j :: 0 <= j < k && LedTo(g, ids[j], ptr, y)
  }

  lemma AllLed(g: Graph, st: seq<State>, now: seq<State>, i: Id, ptr: bool, ids: seq<Id>, through: bool)
    requires i < |g| && |Goes(g[i], ptr)| == |ids| && OrdersAllLed(g, st, now, ids, through, |ids|)
    requires forall k :: 0 <= k < |ids| ==> Goes(g[i], ptr)[k] == (ids[k], through)
    ensures OrdersLed(g, st, now, i, ptr)
  {
    forall y | 0 <= y < |st| && st[y] != Ordered && now[y] == Ordered ensures LedTo(g, i, ptr, y) {
      assert LedFrom(g, ids, through, |ids|, y);
      var j :| 0 <= j < |ids| && LedTo(g, ids[j], through, y);
      var p :| Leads(g, ids[j], through, y, p);
      assert Goes(g[i], ptr)[j] == (ids[j], through);
      LeadsOn(g, i, ptr, j, y, p);
    }
  }

  lemma {:induction false} VisitLed(n: nat, g: Graph, rf: seq<bool>, st: seq<State>, q: seq<Id>, id: Id, ptr: bool)
    requires Visit(n, g, rf, st, q, id, ptr).Some?
    ensures OrdersLed(g, st, Visit(n, g, rf, st, q, id, ptr).value.st, id, ptr)
    decreases n, 0
  {
    hide Leads, LedTo;
    var t, o := g[id], Visit(n, g, rf, st, q, id, ptr).value;
    if st[id] != NotOrdered { return; }
    match t.body
    case Ref(kind, _, target) =>
      if kind == Func {
        LedMarked(g, st, st, id, ptr);
      } else {
        var through := if kind == Ptr then true else ptr;
        VisitLed(n - 1, g, rf, st, q, target, through);
        var now := Visit(n - 1, g, rf, st, q, target, through).value.st;
        assert Goes(t, ptr)[0] == (target, through);
        LedOn(g, st, now, id, ptr, 0);
        LedMarked(g, st, now, id, ptr);
      }
    case Array(_, _, _, elem, _) =>
      VisitLed(n - 1, g, rf, st, q, elem, ptr);
      assert Goes(t, ptr)[0] == (elem, ptr);
      LedOn(g, st, o.st, id, ptr, 0);
    case Composite(_, _, _) =>
      if !(ptr && Named(t)) {
        var ids, open := FieldTypes(t), st[id := Ordering];
        VisitAllLed(n - 1, g, rf, open, q, ids, false, |ids|);
        var now := VisitAll(n - 1, g, rf, open, q, ids, false, |ids|).value.st;
        OpenLed(g, st, now, id, ptr, ids);
        LedMarked(g, st, now, id, ptr);
      }
    case FuncProto(_, _) =>
      var ids := ProtoTypes(t);
      VisitAllLed(n - 1, g, rf, st, q, ids, ptr, |ids|);
      AllLed(g, st, o.st, id, ptr, ids, ptr);
    case Void =>
    case _ => LedMarked(g, st, st, id, ptr);
  }

  lemma OpenLed(g: Graph, st: seq<State>, now: seq<State>, id: Id, ptr: bool, ids: seq<Id>)
    requires id < |g| == |st| && g[id].body.Composite? && !(ptr && Named(g[id])) && ids == FieldTypes(g[id])
    requires OrdersAllLed(g, st[id := Ordering], now, ids, false, |ids|)
    ensures OrdersLed(g, st, now, id, ptr)
  {
    AllLed(g, st[id := Ordering], now, id, ptr, ids, false);
    forall y | 0 <= y < |st| && st[y] != Ordered && now[y] == Ordered ensures LedTo(g, id, ptr, y) {
      assert st[id := Ordering][y] != Ordered;
    }
  }

  lemma {:induction false} VisitAllLed(n: nat, g: Graph, rf: seq<bool>, st: seq<State>, q: seq<Id>, ids: seq<Id>,
                                       ptr: bool, k: nat)
    requires k <= |ids| && VisitAll(n, g, rf, st, q, ids, ptr, k).Some?
    ensures OrdersAllLed(g, st, VisitAll(n, g, rf, st, q, ids, ptr, k).value.st, ids, ptr, k)
    decreases n, 1, k
  {
    if k > 0 {
      VisitAllLed(n, g, rf, st, q, ids, ptr, k - 1);
      var o := VisitAll(n, g, rf, st, q, ids, ptr, k - 1).value;
      if o.link.Failed? {
        AllLedNext(g, st, o.st, o.st, ids, ptr, k - 1);
      } else {
        VisitLed(n - 1, g, rf, o.st, o.q, ids[k - 1], ptr);
        AllLedNext(g, st, o.st, Visit(n - 1, g, rf, o.st, o.q, ids[k - 1], ptr).value.st, ids, ptr, k - 1);
      }
    }
  }

  lemma AllLedNext(g: Graph, st: seq<State>, mid: seq<State>, now: seq<State>, ids: seq<Id>, ptr: bool, k: nat)
    requires k < |ids| && OrdersAllLed(g, st, mid, ids, ptr, k)
    requires OrdersLed(g, mid, now, ids[k], ptr)
    ensures OrdersAllLed(g, st, now, ids, ptr, k + 1)
  {
    var next := k + 1;
    forall y | 0 <= y < |st| && st[y] != Ordered && now[y] == Ordered ensures LedFrom(g, ids, ptr, next, y) {
      if mid[y] == Ordered {
        assert LedFrom(g, ids, ptr, k, y);
      } else {
        assert LedTo(g, ids[k], ptr, y);
      }
    }
  }

  lemma ReturningOn(g: Graph, i: Id, ptr: bool, k: nat)
    requires i < |g| && k < |Goes(g[i], ptr)| && LeadsToReturning(g, Goes(g[i], ptr)[k].0, Goes(g[i], ptr)[k].1)
    ensures LeadsToReturning(g, i, ptr)
  {
    var use := Goes(g[i], ptr)[k];
    var y, p :| Leads(g, use.0, use.1, y, p) && Returns(g, y, p);
    LeadsOn(g, i, ptr, k, y, p);
  }

  /** A typedef met already ordered returns. */
  lemma ListedReturns(n: nat, g: Graph, rf: seq<bool>, st: seq<State>, q: seq<Id>, id: Id, ptr: bool)
    requires id < |g| == |st| && IsTypedef(g[id]) && st[id] == NotOrdered
    requires ListsAgain(Visit(n, g, rf, st, q, g[id].body.target, ptr), id, ptr)
    ensures LeadsToReturning(g, id, ptr)
  {
    VisitLed(n, g, rf, st, q, g[id].body.target, ptr);
    assert LedTo(g, g[id].body.target, ptr, id);
    LeadsHere(g, id, ptr);
    assert Returns(g, id, ptr);
  }

  lemma {:induction false} MeetsReturning(n: nat, g: Graph, rf: seq<bool>, st: seq<State>, q: seq<Id>, id: Id,
                                          ptr: bool)
    requires Meets(n, g, rf, st, q, id, ptr)
    ensures LeadsToReturning(g, id, ptr)
    decreases n, 0
  {
    hide LeadsToReturning;
    var t := g[id];
    match t.body
    case Ref(kind, _, target) =>
      var through := if kind == Ptr then true else ptr;
      if Meets(n - 1, g, rf, st, q, target, through) {
        MeetsReturning(n - 1, g, rf, st, q, target, through);
        assert Goes(t, ptr)[0] == (target, through);
        ReturningOn(g, id, ptr, 0);
      } else {
        ListedReturns(n - 1, g, rf, st, q, id, ptr);
      }
    case Array(_, _, _, elem, _) =>
      MeetsReturning(n - 1, g, rf, st, q, elem, ptr);
      assert Goes(t, ptr)[0] == (elem, ptr);
      ReturningOn(g, id, ptr, 0);
    case Composite(_, _, _) =>
      var j := MeetsInReturning(n - 1, g, rf, st[id := Ordering], q, FieldTypes(t), false, |FieldTypes(t)|);
      assert Goes(t, ptr)[j] == (FieldTypes(t)[j], false);
      ReturningOn(g, id, ptr, j);
    case FuncProto(_, _) =>
      var j := MeetsInReturning(n - 1, g, rf, st, q, ProtoTypes(t), ptr, |ProtoTypes(t)|);
      assert Goes(t, ptr)[j] == (ProtoTypes(t)[j], ptr);
      ReturningOn(g, id, ptr, j);
    case _ =>
  }

  lemma {:induction false} MeetsInReturning(n: nat, g: Graph, rf: seq<bool>, st: seq<State>, q: seq<Id>, ids: seq<Id>,
                                            ptr: bool, k: nat) returns (j: nat)
    requires k <= |ids| && MeetsIn(n, g, rf, st, q, ids, ptr, k)
    ensures j < k && LeadsToReturning(g, ids[j], ptr)
    decreases n, 1, k
  {
    hide LeadsToReturning;
    if MeetsIn(n, g, rf, st, q, ids, ptr, k - 1) {
      j := MeetsInReturning(n, g, rf, st, q, ids, ptr, k - 1);
    } else {
      var o := VisitAll(n, g, rf, st, q, ids, ptr, k - 1).value;
      MeetsReturning(n - 1, g, rf, o.st, o.q, ids[k - 1], ptr);
      j := k - 1;
    }
  }

  /** A dump can repeat an entry only if its type leads to a typedef whose target
      leads back to it, which a caller can tell from the graph. */
  lemma NoReturnNoRepeat(g: Graph, rf: seq<bool>, st: seq<State>, q: seq<Id>, id: Id, o: Out)
    requires Filed(g, st, q) && NoRepeat(q) && Ends(g, rf, st, q, id, false, o) && !o.link.Failed?
    requires !LeadsToReturning(g, id, false)
    ensures NoRepeat(o.q)
  {
    var n: nat :| Visit(n, g, rf, st, q, id, false) == Some(o);
    VisitRepeats(n, g, rf, st, q, id, false);
    if Meets(n, g, rf, st, q, id, false) { MeetsReturning(n, g, rf, st, q, id, false); }
  }

  /** `typedef struct S t(void); struct S { t *p; };` */
  function Returning(): Graph {
    [Type(0, false, Void),
     Type(1, false, Ref(Typedef, 0, 2)),
     Type(0, false, FuncProto(3, [])),
     Type(3, false, Composite(false, 8, [Member(5, 4, 0)])),
     Type(0, false, Ref(Ptr, 0, 1))]
  }

  /** The converse fails: this typedef returns, and is listed once. Whether it is
      listed twice depends on whether its result is ordered when it is met. */
  lemma ReturningListedOnce()
    ensures Returns(Returning(), 1, false)
    ensures var st := [Ordered, NotOrdered, NotOrdered, NotOrdered, NotOrdered];
      exists o :: Ends(Returning(), [true, true, true, true, true], st, [], 1, false, o) &&
                  !o.link.Failed? && o.q == [3, 1]
  {
    var g, rf := Returning(), [true, true, true, true, true];
    ReturningLeads(g);
    var st := [Ordered, NotOrdered, NotOrdered, NotOrdered, NotOrdered];
    ReturningStruct(g, rf, st);
    var now := [Ordered, NotOrdered, NotOrdered, Ordered, Ordered];
    var one: seq<Id> := [3];
    assert one + [1] == [3, 1];
    assert ProtoTypes(g[2]) == [3];
    assert VisitAll(8, g, rf, st, [], [3], false, 1) == Some(Out(Strong, now, [3]));
    assert Visit(9, g, rf, st, [], 2, false) == Some(Out(Strong, now, [3]));
    assert Visit(10, g, rf, st, [], 1, false) == Some(Out(Strong, now[1 := Ordered], [3, 1]));
  }

  lemma ReturningLeads(g: Graph)
    requires g == Returning()
    ensures Returns(g, 1, false)
  {
    LeadsHere(g, 1, true);
    assert Goes(g[4], false)[0] == (1, true);
    LeadsOn(g, 4, false, 0, 1, true);
    assert FieldTypes(g[3]) == [4] && Goes(g[3], false)[0] == (4, false);
    LeadsOn(g, 3, false, 0, 1, true);
    assert ProtoTypes(g[2]) == [3] && Goes(g[2], false)[0] == (3, false);
    LeadsOn(g, 2, false, 0, 1, true);
  }

  /** The typedef behind the pointer, while the struct is open: its result is
      only a name. */
  lemma ReturningStruct(g: Graph, rf: seq<bool>, st: seq<State>)
    requires g == Returning() && rf == [true, true, true, true, true]
    requires st == [Ordered, NotOrdered, NotOrdered, NotOrdered, NotOrdered]
    ensures Visit(7, g, rf, st, [], 3, false) ==
            Some(Out(Strong, [Ordered, NotOrdered, NotOrdered, Ordered, Ordered], [3]))
  {
    var open := st[3 := Ordering];
    var none: seq<Id> := [];
    assert none + [3] == [3];
    assert ProtoTypes(g[2]) == [3];
    assert VisitAll(2, g, rf, open, [], [3], true, 1) == Some(Out(Weak, open, []));
    assert Visit(3, g, rf, open, [], 2, true) == Some(Out(Weak, open, []));
    assert Visit(4, g, rf, open, [], 1, true) == Some(Out(Weak, open, []));
    var inner := open[4 := Ordered];
    assert FieldTypes(g[3]) == [4];
    assert Visit(5, g, rf, open, [], 4, false) == Some(Out(Weak, inner, []));
    assert VisitAll(6, g, rf, open, [], [4], false, 1) == Some(Out(Weak, inner, []));
    assert inner[3 := Ordered] == [Ordered, NotOrdered, NotOrdered, Ordered, Ordered];
  }
}
