/** When a visit of the dumper fails, and what it lists, in terms of the graph. */
module BtfDumpFail {
  import opened Basics
  import opened BtfTypes
  import opened BtfDumpRun
  import opened BtfDumpRepeat

  /** Only the name is asked for: a named struct behind a pointer. */
  predicate AsName(t: Type, ptr: bool) { t.body.Composite? && ptr && Named(t) }

  /** Open structs stay open, and nothing is forgotten. */
  ghost predicate Steady(st: seq<State>, now: seq<State>) {
    |st| == |now| && forall i :: 0 <= i < |st| ==>
      (st[i] == Ordering <==> now[i] == Ordering) && (now[i] == NotOrdered ==> st[i] == NotOrdered)
  }

  lemma {:induction false} VisitSteady(n: nat, g: Graph, rf: seq<bool>, st: seq<State>, q: seq<Id>, id: Id, ptr: bool)
    requires Visit(n, g, rf, st, q, id, ptr).Some? && !Visit(n, g, rf, st, q, id, ptr).value.link.Failed?
    ensures Steady(st, Visit(n, g, rf, st, q, id, ptr).value.st)
    decreases n, 1
  {
    if st[id] == NotOrdered {
      if g[id].body.Ref? {
        RefSteady(n, g, rf, st, q, id, ptr);
      } else if g[id].body.Array? {
        VisitSteady(n - 1, g, rf, st, q, g[id].body.elem, ptr);
      } else if g[id].body.Composite? || g[id].body.FuncProto? {
        ManySteady(n, g, rf, st, q, id, ptr);
      }
    }
  }

  lemma {:induction false} RefSteady(n: nat, g: Graph, rf: seq<bool>, st: seq<State>, q: seq<Id>, id: Id, ptr: bool)
    requires Visit(n, g, rf, st, q, id, ptr).Some? && !Visit(n, g, rf, st, q, id, ptr).value.link.Failed?
    requires st[id] == NotOrdered && g[id].body.Ref?
    ensures Steady(st, Visit(n, g, rf, st, q, id, ptr).value.st)
    decreases n, 0
  {
    var kind, target := g[id].body.kind, g[id].body.target;
    if kind != Func { VisitSteady(n - 1, g, rf, st, q, target, if kind == Ptr then true else ptr); }
  }

  lemma {:induction false} ManySteady(n: nat, g: Graph, rf: seq<bool>, st: seq<State>, q: seq<Id>, id: Id, ptr: bool)
    requires Visit(n, g, rf, st, q, id, ptr).Some? && !Visit(n, g, rf, st, q, id, ptr).value.link.Failed?
    requires st[id] == NotOrdered && (g[id].body.Composite? || g[id].body.FuncProto?)
    ensures Steady(st, Visit(n, g, rf, st, q, id, ptr).value.st)
    decreases n, 0
  {
    hide Steady, VisitAll;
    if g[id].body.FuncProto? {
      AllSteady(n - 1, g, rf, st, q, ProtoTypes(g[id]), ptr, |ProtoTypes(g[id])|);
    } else if AsName(g[id], ptr) {
      SteadyHere(st);
    } else {
      var ids := FieldTypes(g[id]);
      AllSteady(n - 1, g, rf, st[id := Ordering], q, ids, false, |ids|);
      Entered(st, id, VisitAll(n - 1, g, rf, st[id := Ordering], q, ids, false, |ids|).value.st);
    }
  }

  lemma SteadyHere(st: seq<State>)
    ensures Steady(st, st)
  {
  }

  lemma Entered(st: seq<State>, id: Id, now: seq<State>)
    requires id < |st| && st[id] == NotOrdered && Steady(st[id := Ordering], now)
    ensures Steady(st, now[id := Ordered])
  {
  }

  lemma {:induction false} AllSteady(n: nat, g: Graph, rf: seq<bool>, st: seq<State>, q: seq<Id>, ids: seq<Id>,
                                     ptr: bool, k: nat)
    requires k <= |ids| && VisitAll(n, g, rf, st, q, ids, ptr, k).Some?
    requires !VisitAll(n, g, rf, st, q, ids, ptr, k).value.link.Failed?
    ensures Steady(st, VisitAll(n, g, rf, st, q, ids, ptr, k).value.st)
    decreases n, 2, k
  {
    if k > 0 {
      AllSteady(n, g, rf, st, q, ids, ptr, k - 1);
      var o := VisitAll(n, g, rf, st, q, ids, ptr, k - 1).value;
      VisitSteady(n - 1, g, rf, o.st, o.q, ids[k - 1], ptr);
    }
  }

  // ----- why a visit fails -----

  /** The visit comes to a struct that is open, and not as a name. */
  ghost predicate MeetsOpen(g: Graph, st: seq<State>, i: Id, ptr: bool) {
    exists s: Id, p :: Leads(g, i, ptr, s, p) && s < |g| == |st| && st[s] == Ordering && !AsName(g[s], p)
  }

  /** A struct whose members lead back to it, and not as a name. */
  ghost predicate Loops(g: Graph, s: Id) {
    s < |g| && g[s].body.Composite? && exists k, p :: 0 <= k < |FieldTypes(g[s])| && ReturnsBy(g, s, k, p)
  }

  ghost predicate ReturnsBy(g: Graph, s: Id, k: nat, p: bool)
    requires s < |g| && g[s].body.Composite? && k < |FieldTypes(g[s])|
  {
    Leads(g, FieldTypes(g[s])[k], false, s, p) && !AsName(g[s], p)
  }

  /** Among what a visit may come to, not as a name, is such a struct. */
  ghost predicate LeadsToLoop(g: Graph, i: Id, ptr: bool) {
    exists s: Id, p :: Leads(g, i, ptr, s, p) && Loops(g, s) && !AsName(g[s], p)
  }

  /** It may come to a type of unknown kind. */
  ghost predicate LeadsToVoid(g: Graph, st: seq<State>, i: Id, ptr: bool) {
    exists y: Id, p :: Leads(g, i, ptr, y, p) && y < |g| == |st| && g[y].body.Void? && st[y] == NotOrdered
  }

  /** What a failure rests on. */
  ghost predicate Explained(g: Graph, st: seq<State>, i: Id, ptr: bool, r: Link) {
    && (r == Failed(ELoop) ==> MeetsOpen(g, st, i, ptr) || LeadsToLoop(g, i, ptr))
    && (r == Failed(EInval) ==> LeadsToVoid(g, st, i, ptr))
  }

  /** The explanation of a failure further on is one here. */
  lemma ExplainedOn(g: Graph, st: seq<State>, i: Id, ptr: bool, k: nat, r: Link)
    requires i < |g| && k < |Goes(g[i], ptr)| && Explained(g, st, Goes(g[i], ptr)[k].0, Goes(g[i], ptr)[k].1, r)
    ensures Explained(g, st, i, ptr, r)
  {
    hide Leads;
    var j, through := Goes(g[i], ptr)[k].0, Goes(g[i], ptr)[k].1;
    if r == Failed(ELoop) {
      if MeetsOpen(g, st, j, through) {
        var s: Id, p :| Leads(g, j, through, s, p) && s < |g| == |st| && st[s] == Ordering && !AsName(g[s], p);
        LeadsOn(g, i, ptr, k, s, p);
      } else {
        var s: Id, p :| Leads(g, j, through, s, p) && Loops(g, s) && !AsName(g[s], p);
        LeadsOn(g, i, ptr, k, s, p);
      }
    } else if r == Failed(EInval) {
      var y: Id, p :| Leads(g, j, through, y, p) && y < |g| == |st| && g[y].body.Void? && st[y] == NotOrdered;
      LeadsOn(g, i, ptr, k, y, p);
    }
  }

  lemma ExplainedBefore(g: Graph, st: seq<State>, mid: seq<State>, i: Id, ptr: bool, r: Link)
    requires Steady(st, mid) && Explained(g, mid, i, ptr, r)
    ensures Explained(g, st, i, ptr, r)
  {
    hide Leads, LeadsToLoop;
    if r == Failed(ELoop) && MeetsOpen(g, mid, i, ptr) {
      var s: Id, p :| Leads(g, i, ptr, s, p) && s < |g| == |mid| && mid[s] == Ordering && !AsName(g[s], p);
      assert st[s] == Ordering;
    }
    if r == Failed(EInval) {
      var y: Id, p :| Leads(g, i, ptr, y, p) && y < |g| == |mid| && g[y].body.Void? && mid[y] == NotOrdered;
      assert st[y] == NotOrdered;
    }
  }

  /** Opening a struct explains only that its members lead back to it. */
  lemma ExplainedOpen(g: Graph, st: seq<State>, id: Id, ptr: bool, k: nat, r: Link)
    requires id < |g| == |st| && g[id].body.Composite? && st[id] == NotOrdered && !AsName(g[id], ptr)
    requires k < |FieldTypes(g[id])| && Explained(g, st[id := Ordering], FieldTypes(g[id])[k], false, r)
    ensures Explained(g, st, id, ptr, r)
  {
    hide Leads;
    var open, j := st[id := Ordering], FieldTypes(g[id])[k];
    assert Goes(g[id], ptr)[k] == (j, false);
    if r == Failed(ELoop) && MeetsOpen(g, open, j, false) {
      var s: Id, p :| Leads(g, j, false, s, p) && s < |g| == |open| && open[s] == Ordering && !AsName(g[s], p);
      if s == id {
        assert ReturnsBy(g, id, k, p);
        LeadsHere(g, id, ptr);
        assert Loops(g, id);
      } else {
        assert st[s] == Ordering;
        LeadsOn(g, id, ptr, k, s, p);
      }
    } else if r == Failed(EInval) {
      var y: Id, p :| Leads(g, j, false, y, p) && y < |g| == |open| && g[y].body.Void? && open[y] == NotOrdered;
      assert st[y] == NotOrdered;
      LeadsOn(g, id, ptr, k, y, p);
    } else {
      ExplainedOn(g, st, id, ptr, k, r);
    }
  }

  lemma {:induction false} VisitExplained(n: nat, g: Graph, rf: seq<bool>, st: seq<State>, q: seq<Id>, id: Id,
                                          ptr: bool)
    requires Visit(n, g, rf, st, q, id, ptr).Some?
    ensures Explained(g, st, id, ptr, Visit(n, g, rf, st, q, id, ptr).value.link)
    decreases n, 0
  {
    hide Leads, Explained;
    var t, o := g[id], Visit(n, g, rf, st, q, id, ptr).value;
    if !o.link.Failed? { NotExplained(g, st, id, ptr, o.link); return; }
    if st[id] != NotOrdered { MeetsHere(g, st, id, ptr); return; }
    match t.body
    case Ref(kind, _, target) =>
      var through := if kind == Ptr then true else ptr;
      VisitExplained(n - 1, g, rf, st, q, target, through);
      assert Goes(t, ptr)[0] == (target, through);
      ExplainedOn(g, st, id, ptr, 0, o.link);
    case Array(_, _, _, elem, _) =>
      VisitExplained(n - 1, g, rf, st, q, elem, ptr);
      assert Goes(t, ptr)[0] == (elem, ptr);
      ExplainedOn(g, st, id, ptr, 0, o.link);
    case Composite(_, _, _) =>
      var k := AllExplained(n - 1, g, rf, st[id := Ordering], q, FieldTypes(t), false, |FieldTypes(t)|);
      ExplainedOpen(g, st, id, ptr, k, o.link);
    case FuncProto(_, _) =>
      var k := AllExplained(n - 1, g, rf, st, q, ProtoTypes(t), ptr, |ProtoTypes(t)|);
      assert Goes(t, ptr)[k] == (ProtoTypes(t)[k], ptr);
      ExplainedOn(g, st, id, ptr, k, o.link);
    case Void => VoidHere(g, st, id, ptr);
    case _ => assert false;
  }

  lemma NotExplained(g: Graph, st: seq<State>, i: Id, ptr: bool, r: Link)
    requires !r.Failed?
    ensures Explained(g, st, i, ptr, r)
  {
  }

  lemma MeetsHere(g: Graph, st: seq<State>, i: Id, ptr: bool)
    requires i < |g| == |st| && st[i] == Ordering && !AsName(g[i], ptr)
    ensures Explained(g, st, i, ptr, Failed(ELoop))
  {
    LeadsHere(g, i, ptr);
  }

  lemma VoidHere(g: Graph, st: seq<State>, i: Id, ptr: bool)
    requires i < |g| == |st| && st[i] == NotOrdered && g[i].body.Void?
    ensures Explained(g, st, i, ptr, Failed(EInval))
  {
    LeadsHere(g, i, ptr);
  }

  lemma {:induction false} AllExplained(n: nat, g: Graph, rf: seq<bool>, st: seq<State>, q: seq<Id>, ids: seq<Id>,
                                        ptr: bool, k: nat) returns (j: nat)
    requires k <= |ids| && VisitAll(n, g, rf, st, q, ids, ptr, k).Some?
    requires VisitAll(n, g, rf, st, q, ids, ptr, k).value.link.Failed?
    ensures j < k && Explained(g, st, ids[j], ptr, VisitAll(n, g, rf, st, q, ids, ptr, k).value.link)
    decreases n, 1, k
  {
    hide Explained, Steady;
    var o := VisitAll(n, g, rf, st, q, ids, ptr, k - 1).value;
    if o.link.Failed? {
      j := AllExplained(n, g, rf, st, q, ids, ptr, k - 1);
    } else {
      j := k - 1;
      VisitExplained(n - 1, g, rf, o.st, o.q, ids[j], ptr);
      AllSteady(n, g, rf, st, q, ids, ptr, k - 1);
      ExplainedBefore(g, st, o.st, ids[j], ptr, Visit(n - 1, g, rf, o.st, o.q, ids[j], ptr).value.link);
    }
  }

  /** It may come to a type of unknown kind other than void. */
  ghost predicate LeadsToUnknown(g: Graph, i: Id, ptr: bool) {
    exists y: Id, p :: Leads(g, i, ptr, y, p) && 0 < y < |g| && g[y].body.Void?
  }

  // ----- graphs that lead to no such struct -----

  /** The rank goes down along whatever follows from the use; a named struct behind
      a pointer is followed no further. */
  ghost predicate DownFrom(g: Graph, rank: ((Id, bool)) -> nat, i: Id, ptr: bool) {
    forall y: Id, p :: y < |g| && Leads(g, i, ptr, y, p) ==> StepsDown(g, rank, y, p)
  }

  ghost predicate StepsDown(g: Graph, rank: ((Id, bool)) -> nat, y: Id, p: bool)
    requires y < |g|
  {
    forall k :: 0 <= k < |Goes(g[y], p)| ==> rank(Goes(g[y], p)[k]) < rank((y, p))
  }

  lemma DownOn(g: Graph, rank: ((Id, bool)) -> nat, i: Id, ptr: bool, k: nat)
    requires i < |g| && k < |Goes(g[i], ptr)| && DownFrom(g, rank, i, ptr)
    ensures DownFrom(g, rank, Goes(g[i], ptr)[k].0, Goes(g[i], ptr)[k].1)
    ensures rank(Goes(g[i], ptr)[k]) < rank((i, ptr))
  {
    hide Leads, StepsDown;
    LeadsHere(g, i, ptr);
    assert StepsDown(g, rank, i, ptr);
    var use := Goes(g[i], ptr)[k];
    forall y: Id, p | y < |g| && Leads(g, use.0, use.1, y, p) ensures StepsDown(g, rank, y, p) {
      LeadsOn(g, i, ptr, k, y, p);
    }
    StepDown(g, rank, i, ptr, k);
  }

  lemma StepDown(g: Graph, rank: ((Id, bool)) -> nat, i: Id, ptr: bool, k: nat)
    requires i < |g| && k < |Goes(g[i], ptr)| && StepsDown(g, rank, i, ptr)
    ensures rank(Goes(g[i], ptr)[k]) < rank((i, ptr))
  {
  }

  lemma {:induction false} DownTo(g: Graph, rank: ((Id, bool)) -> nat, i: Id, ptr: bool, y: Id, p: bool, n: nat)
    requires LeadsWithin(g, i, ptr, y, p, n) && DownFrom(g, rank, i, ptr)
    ensures y < |g| && DownFrom(g, rank, y, p) && rank((y, p)) <= rank((i, ptr))
    decreases n
  {
    hide DownFrom;
    if (i, ptr) != (y, p) {
      var k :| 0 <= k < |Goes(g[i], ptr)| && LeadsBy(g, Goes(g[i], ptr)[k], y, p, n);
      DownOn(g, rank, i, ptr, k);
      DownTo(g, rank, Goes(g[i], ptr)[k].0, Goes(g[i], ptr)[k].1, y, p, n - 1);
    }
  }

  lemma LeadsDown(g: Graph, rank: ((Id, bool)) -> nat, i: Id, ptr: bool, y: Id, p: bool)
    requires Leads(g, i, ptr, y, p) && DownFrom(g, rank, i, ptr)
    ensures y < |g| && DownFrom(g, rank, y, p) && rank((y, p)) <= rank((i, ptr))
  {
    hide DownFrom, LeadsWithin;
    var n: nat :| LeadsWithin(g, i, ptr, y, p, n);
    DownTo(g, rank, i, ptr, y, p, n);
  }

  /** From a struct met, and not as a name, the way back to it goes down. */
  lemma ReturnsDown(g: Graph, rank: ((Id, bool)) -> nat, s: Id, p: bool, k: nat, p': bool)
    requires s < |g| && g[s].body.Composite? && !AsName(g[s], p) && DownFrom(g, rank, s, p)
    requires k < |FieldTypes(g[s])| && Leads(g, FieldTypes(g[s])[k], false, s, p')
    ensures DownFrom(g, rank, s, p') && rank((s, p')) < rank((s, p))
  {
    hide DownFrom, Leads;
    assert Goes(g[s], p)[k] == (FieldTypes(g[s])[k], false);
    DownOn(g, rank, s, p, k);
    LeadsDown(g, rank, FieldTypes(g[s])[k], false, s, p');
  }

  /** With such a rank, no struct that is met leads back to itself. */
  lemma RankedNoLoop(g: Graph, rank: ((Id, bool)) -> nat, i: Id, ptr: bool)
    requires DownFrom(g, rank, i, ptr)
    ensures !LeadsToLoop(g, i, ptr)
  {
    hide DownFrom, Leads;
    forall s: Id, p | Leads(g, i, ptr, s, p) ensures s < |g| && (Loops(g, s) ==> AsName(g[s], p)) {
      LeadsDown(g, rank, i, ptr, s, p);
      if g[s].body.Composite? && !AsName(g[s], p) {
        forall k, p' | 0 <= k < |FieldTypes(g[s])| ensures !ReturnsBy(g, s, k, p') {
          if Leads(g, FieldTypes(g[s])[k], false, s, p') && !AsName(g[s], p') {
            ReturnsDown(g, rank, s, p, k, p');
            ReturnsDown(g, rank, s, p', k, p');
            assert false;
          }
        }
      }
    }
  }

  /** From a state in which nothing is open, a visit fails only toward a struct whose
      members lead back to it, or a type of unknown kind. */
  lemma FailsOnly(g: Graph, rf: seq<bool>, st: seq<State>, q: seq<Id>, id: Id, o: Out)
    requires Ends(g, rf, st, q, id, false, o) && 0 < |g| == |st| && st[0] == Ordered
    requires forall i :: 0 <= i < |st| ==> st[i] != Ordering
    ensures o.link == Failed(ELoop) ==> LeadsToLoop(g, id, false)
    ensures o.link == Failed(EInval) ==> LeadsToUnknown(g, id, false)
  {
    var n: nat :| Visit(n, g, rf, st, q, id, false) == Some(o);
    VisitExplained(n, g, rf, st, q, id, false);
    hide Leads, LeadsToLoop;
    if LeadsToVoid(g, st, id, false) {
      var y: Id, p :| Leads(g, id, false, y, p) && y < |g| == |st| && g[y].body.Void? && st[y] == NotOrdered;
      assert y != 0;
    }
  }

  // ----- what a visit lists -----

  /** Definitions of their own: typedefs, named structs, and enums and forward
      declarations that have a name or are not referred to. */
  predicate Listable(t: Type, referenced: bool) {
    match t.body
    case Composite(_, _, _) => Named(t)
    case Enum(_, _) => Named(t) || !referenced
    case Fwd(_, _) => Named(t) || !referenced
    case Ref(kind, _, _) => kind == Typedef
    case _ => false
  }

  /** What was listed since is such a definition, was not ordered before, and is
      ordered now. */
  ghost predicate ListsOnly(g: Graph, rf: seq<bool>, st: seq<State>, q: seq<Id>, o: Out) {
    && |g| == |rf| == |st| == |o.st| && q <= o.q
    && (forall i :: 0 <= i < |g| && st[i] == Ordered ==> o.st[i] == Ordered)
    && forall k :: |q| <= k < |o.q| ==> ListedNew(g, rf, st, o.q[k], o.st)
  }

  ghost predicate ListedNew(g: Graph, rf: seq<bool>, st: seq<State>, y: Id, now: seq<State>)
    requires |g| == |rf| == |st| == |now|
  {
    y < |g| && Listable(g[y], rf[y]) && st[y] != Ordered && now[y] == Ordered
  }

  lemma ListsThen(g: Graph, rf: seq<bool>, st: seq<State>, q: seq<Id>, mid: Out, o: Out)
    requires ListsOnly(g, rf, st, q, mid) && ListsOnly(g, rf, mid.st, mid.q, o)
    ensures ListsOnly(g, rf, st, q, o)
  {
    forall k | |q| <= k < |o.q| ensures ListedNew(g, rf, st, o.q[k], o.st) {
      if k < |mid.q| {
        assert o.q[k] == mid.q[k] && ListedNew(g, rf, st, mid.q[k], mid.st);
      } else {
        assert ListedNew(g, rf, mid.st, o.q[k], o.st);
      }
    }
  }

  lemma ListsMarked(g: Graph, rf: seq<bool>, st: seq<State>, q: seq<Id>, id: Id, o: Out, lists: bool, r: Link)
    requires ListsOnly(g, rf, st, q, o) && id < |g| && st[id] != Ordered && (lists ==> Listable(g[id], rf[id]))
    ensures ListsOnly(g, rf, st, q, Out(r, o.st[id := Ordered], if lists then o.q + [id] else o.q))
  {
    var p := Out(r, o.st[id := Ordered], if lists then o.q + [id] else o.q);
    forall k | |q| <= k < |p.q| ensures ListedNew(g, rf, st, p.q[k], p.st) {
      if k < |o.q| { assert ListedNew(g, rf, st, o.q[k], o.st); }
    }
  }

  lemma ListsOpened(g: Graph, rf: seq<bool>, st: seq<State>, q: seq<Id>, id: Id, o: Out)
    requires id < |st| && st[id] == NotOrdered && ListsOnly(g, rf, st[id := Ordering], q, o)
    ensures ListsOnly(g, rf, st, q, o)
  {
    forall k | |q| <= k < |o.q| ensures ListedNew(g, rf, st, o.q[k], o.st) {
      assert ListedNew(g, rf, st[id := Ordering], o.q[k], o.st);
    }
  }

  lemma ListsNothing(g: Graph, rf: seq<bool>, st: seq<State>, q: seq<Id>, r: Link)
    requires |g| == |rf| == |st|
    ensures ListsOnly(g, rf, st, q, Out(r, st, q))
  {
  }

  lemma {:induction false} VisitLists(n: nat, g: Graph, rf: seq<bool>, st: seq<State>, q: seq<Id>, id: Id, ptr: bool)
    requires Visit(n, g, rf, st, q, id, ptr).Some?
    ensures ListsOnly(g, rf, st, q, Visit(n, g, rf, st, q, id, ptr).value)
    decreases n, 0
  {
    hide ListsOnly, ListedNew;
    var t, o := g[id], Visit(n, g, rf, st, q, id, ptr).value;
    var none := Out(Weak, st, q);
    ListsNothing(g, rf, st, q, Weak);
    ListsNothing(g, rf, st, q, o.link);
    if st[id] != NotOrdered { return; }
    match t.body
    case Ref(kind, _, target) => RefLists(n, g, rf, st, q, id, ptr);
    case Array(_, _, _, elem, _) => VisitLists(n - 1, g, rf, st, q, elem, ptr);
    case Composite(_, _, _) =>
      if !AsName(t, ptr) {
        var ids := FieldTypes(t);
        AllLists(n - 1, g, rf, st[id := Ordering], q, ids, false, |ids|);
        var p := VisitAll(n - 1, g, rf, st[id := Ordering], q, ids, false, |ids|).value;
        ListsOpened(g, rf, st, q, id, p);
        ListsMarked(g, rf, st, q, id, p, Named(t), Strong);
      }
    case FuncProto(_, _) => AllLists(n - 1, g, rf, st, q, ProtoTypes(t), ptr, |ProtoTypes(t)|);
    case Enum(_, _) => ListsMarked(g, rf, st, q, id, none, Named(t) || !rf[id], Strong);
    case Fwd(_, _) => ListsMarked(g, rf, st, q, id, none, Named(t) || !rf[id], Strong);
    case Void =>
    case _ => ListsMarked(g, rf, st, q, id, none, false, Weak);
  }

  lemma {:induction false} RefLists(n: nat, g: Graph, rf: seq<bool>, st: seq<State>, q: seq<Id>, id: Id, ptr: bool)
    requires Visit(n, g, rf, st, q, id, ptr).Some? && st[id] == NotOrdered && g[id].body.Ref?
    ensures ListsOnly(g, rf, st, q, Visit(n, g, rf, st, q, id, ptr).value)
    decreases n, 0, 0
  {
    hide ListsOnly, ListedNew;
    var kind, target := g[id].body.kind, g[id].body.target;
    if kind == Func {
      ListsNothing(g, rf, st, q, Weak);
      ListsMarked(g, rf, st, q, id, Out(Weak, st, q), false, Weak);
    } else {
      var through := if kind == Ptr then true else ptr;
      VisitLists(n - 1, g, rf, st, q, target, through);
      var p := Visit(n - 1, g, rf, st, q, target, through).value;
      if kind == Ptr { ListsMarked(g, rf, st, q, id, p, false, p.link); }
      if kind == Typedef { ListsMarked(g, rf, st, q, id, p, true, Strong); }
    }
  }

  lemma {:induction false} AllLists(n: nat, g: Graph, rf: seq<bool>, st: seq<State>, q: seq<Id>, ids: seq<Id>,
                                    ptr: bool, k: nat)
    requires k <= |ids| && VisitAll(n, g, rf, st, q, ids, ptr, k).Some? && |rf| == |g|
    ensures ListsOnly(g, rf, st, q, VisitAll(n, g, rf, st, q, ids, ptr, k).value)
    decreases n, 1, k
  {
    hide ListsOnly, ListedNew;
    if k == 0 {
      ListsNothing(g, rf, st, q, Weak);
    } else {
      AllLists(n, g, rf, st, q, ids, ptr, k - 1);
      var o := VisitAll(n, g, rf, st, q, ids, ptr, k - 1).value;
      if !o.link.Failed? {
        VisitLists(n - 1, g, rf, o.st, o.q, ids[k - 1], ptr);
        var p := Visit(n - 1, g, rf, o.st, o.q, ids[k - 1], ptr).value;
        ListsThen(g, rf, st, q, o, p);
        ListsLinked(g, rf, st, q, p, Join(o.link, p.link));
      }
    }
  }

  lemma ListsLinked(g: Graph, rf: seq<bool>, st: seq<State>, q: seq<Id>, o: Out, r: Link)
    requires ListsOnly(g, rf, st, q, o)
    ensures ListsOnly(g, rf, st, q, o.(link := r))
  {
  }

  lemma EndsLists(g: Graph, rf: seq<bool>, st: seq<State>, q: seq<Id>, id: Id, ptr: bool, o: Out)
    requires Ends(g, rf, st, q, id, ptr, o)
    ensures ListsOnly(g, rf, st, q, o)
  {
    var n: nat :| Visit(n, g, rf, st, q, id, ptr) == Some(o);
    VisitLists(n, g, rf, st, q, id, ptr);
  }
}
