/** The ordering half of the C dumper: a depth-first topological sort in which
    some definitions only need a forward declaration. */
module BtfDumpOrder {
  import opened Basics
  import opened BtfTypes
  import opened BtfMeaning
  import opened BtfDumpRun
  import BtfDumpUnique
  import BtfDumpRepeat
  import BtfDumpFail

  // ----- what C asks for -----

  /** An occurrence of a type: its id, and whether a pointer was crossed since
      the enclosing definition. */
  type Use = (Id, bool)

  /** The uses a use expands to in place. A named struct behind a pointer stays
      a name; a prototype needs its parameter types only as names. */
  function Expand(t: Type, ptr: bool): seq<Use> {
    match t.body
    case Ref(Ptr, _, ty) => [(ty, true)]
    case Ref(Func, _, _) => []
    case Ref(_, _, ty) => [(ty, ptr)]
    case Array(_, _, _, el, _) => [(el, ptr)]
    case Composite(_, _, ms) =>
      if ptr && Named(t) then [] else seq(|ms|, i requires 0 <= i < |ms| => (ms[i].ty, false))
    case FuncProto(r, ps) => [(r, true)] + seq(|ps|, i requires 0 <= i < |ps| => (ps[i].ty, true))
    case _ => []
  }

  /** Whether the use itself asks for its type to be defined before. */
  predicate AsksItself(t: Type, referenced: bool, ptr: bool) {
    match t.body
    case Composite(_, _, _) => Named(t) && !ptr
    case Enum(_, _) => Named(t) || !referenced
    case Fwd(_, _) => Named(t) || !referenced
    case Ref(Typedef, _, _) => !ptr
    case _ => false
  }

  /** `y` must be defined before a definition that uses `i` so, by an expansion
      no deeper than `n`. */
  ghost predicate NeedsWithin(g: Graph, rf: seq<bool>, i: Id, ptr: bool, y: Id, n: nat)
    requires Closed(g) && |rf| == |g| && i < |g|
    decreases n
  {
    n > 0 && (
      (y == i && AsksItself(g[i], rf[i], ptr))
      || var us := Expand(g[i], ptr);
         exists k :: 0 <= k < |us| && us[k].0 < |g| && NeedsWithin(g, rf, us[k].0, us[k].1, y, n - 1))
  }

  ghost predicate Needs(g: Graph, rf: seq<bool>, i: Id, ptr: bool, y: Id)
    requires Closed(g) && |rf| == |g| && i < |g|
  {
    exists n: nat :: NeedsWithin(g, rf, i, ptr, y, n)
  }

  /** A use behind a pointer needs no more than one by value. */
  lemma {:induction false} PtrNeedsLess(g: Graph, rf: seq<bool>, i: Id, y: Id, n: nat)
    requires Closed(g) && |rf| == |g| && i < |g| && NeedsWithin(g, rf, i, true, y, n)
    ensures NeedsWithin(g, rf, i, false, y, n)
    decreases n
  {
    if !(y == i && AsksItself(g[i], rf[i], true)) {
      var us, us' := Expand(g[i], true), Expand(g[i], false);
      var k :| 0 <= k < |us| && us[k].0 < |g| && NeedsWithin(g, rf, us[k].0, us[k].1, y, n - 1);
      assert us'[k].0 == us[k].0;
      if us'[k].1 != us[k].1 { PtrNeedsLess(g, rf, us[k].0, y, n - 1); }
    }
  }

  /** All that a use needs is in the list. */
  ghost predicate Met(g: Graph, rf: seq<bool>, q: seq<Id>, i: Id, ptr: bool)
    requires Closed(g) && |rf| == |g| && i < |g|
  {
    forall y, n: nat :: NeedsWithin(g, rf, i, ptr, y, n) ==> y in q
  }

  ghost predicate UsesMet(g: Graph, rf: seq<bool>, q: seq<Id>, us: seq<Use>)
    requires Closed(g) && |rf| == |g|
  {
    forall k :: 0 <= k < |us| ==> us[k].0 < |g| && Met(g, rf, q, us[k].0, us[k].1)
  }

  lemma MetByPtr(g: Graph, rf: seq<bool>, q: seq<Id>, i: Id)
    requires Closed(g) && |rf| == |g| && i < |g| && Met(g, rf, q, i, false)
    ensures Met(g, rf, q, i, true)
  {
    forall y, n: nat | NeedsWithin(g, rf, i, true, y, n) ensures y in q {
      PtrNeedsLess(g, rf, i, y, n);
    }
  }

  lemma MetLonger(g: Graph, rf: seq<bool>, q: seq<Id>, q': seq<Id>, i: Id, ptr: bool)
    requires Closed(g) && |rf| == |g| && i < |g| && Met(g, rf, q, i, ptr) && q <= q'
    ensures Met(g, rf, q', i, ptr)
  {
    assert forall y :: y in q ==> y in q';
  }

  /** A use is met when what it expands to is, and it does not ask for itself or
      is listed. */
  lemma MetFromUses(g: Graph, rf: seq<bool>, q: seq<Id>, i: Id, ptr: bool)
    requires Closed(g) && |rf| == |g| && i < |g| && UsesMet(g, rf, q, Expand(g[i], ptr))
    requires AsksItself(g[i], rf[i], ptr) ==> i in q
    ensures Met(g, rf, q, i, ptr)
  {
    var us := Expand(g[i], ptr);
    forall y, n: nat | NeedsWithin(g, rf, i, ptr, y, n) ensures y in q {
      if !(y == i && AsksItself(g[i], rf[i], ptr)) {
        var k :| 0 <= k < |us| && us[k].0 < |g| && NeedsWithin(g, rf, us[k].0, us[k].1, y, n - 1);
        assert Met(g, rf, q, us[k].0, us[k].1);
      }
    }
  }

  /** The list is a topological order: whatever the definition of an entry needs
      stands before it. */
  ghost predicate TopoSorted(g: Graph, rf: seq<bool>, q: seq<Id>)
    requires Closed(g) && |rf| == |g|
  {
    forall p :: 0 <= p < |q| ==> q[p] < |g| && UsesMet(g, rf, q[..p], Expand(g[q[p]], false))
  }

  lemma TopoAppend(g: Graph, rf: seq<bool>, q: seq<Id>, i: Id)
    requires Closed(g) && |rf| == |g| && TopoSorted(g, rf, q) && i < |g|
    requires UsesMet(g, rf, q, Expand(g[i], false))
    ensures TopoSorted(g, rf, q + [i])
  {
    var q' := q + [i];
    forall p | 0 <= p < |q'| ensures q'[p] < |g| && UsesMet(g, rf, q'[..p], Expand(g[q'[p]], false)) {
      if p < |q| { assert q'[..p] == q[..p]; } else { assert q'[..p] == q; }
    }
  }

  /** Reading the order: the definition at position `p` needs nothing that is
      not already listed. */
  lemma TopoMeans(g: Graph, rf: seq<bool>, q: seq<Id>, p: nat, k: nat, y: Id)
    requires Closed(g) && |rf| == |g| && TopoSorted(g, rf, q) && p < |q|
    requires k < |Expand(g[q[p]], false)| && Expand(g[q[p]], false)[k].0 < |g|
    requires Needs(g, rf, Expand(g[q[p]], false)[k].0, Expand(g[q[p]], false)[k].1, y)
    ensures exists p' :: 0 <= p' < p && q[p'] == y
  {
    var u := Expand(g[q[p]], false)[k];
    assert UsesMet(g, rf, q[..p], Expand(g[q[p]], false));
    var n: nat :| NeedsWithin(g, rf, u.0, u.1, y, n);
    assert y in q[..p];
  }

  /** A definition that needs itself. */
  ghost predicate NeedsItself(g: Graph, rf: seq<bool>, y: Id)
    requires Closed(g) && |rf| == |g|
  {
    y < |g| && exists k :: 0 <= k < |Expand(g[y], false)| && NeedsBy(g, rf, y, k)
  }

  ghost predicate NeedsBy(g: Graph, rf: seq<bool>, y: Id, k: nat)
    requires Closed(g) && |rf| == |g| && y < |g| && k < |Expand(g[y], false)|
  {
    Expand(g[y], false)[k].0 < |g| && Needs(g, rf, Expand(g[y], false)[k].0, Expand(g[y], false)[k].1, y)
  }

  /** It stands in no topological order: before each of its places there would be
      another. */
  lemma {:induction false} NotInOrder(g: Graph, rf: seq<bool>, q: seq<Id>, y: Id, p: nat)
    requires Closed(g) && |rf| == |g| && TopoSorted(g, rf, q) && NeedsItself(g, rf, y) && p < |q|
    ensures q[p] != y
    decreases p
  {
    if q[p] == y {
      var k :| 0 <= k < |Expand(g[y], false)| && NeedsBy(g, rf, y, k);
      TopoMeans(g, rf, q, p, k, y);
      var p' :| 0 <= p' < p && q[p'] == y;
      NotInOrder(g, rf, q, y, p');
    }
  }

  /** The use needs a definition that needs itself. */
  ghost predicate NeedsLoop(g: Graph, rf: seq<bool>, id: Id, ptr: bool)
    requires Closed(g) && |rf| == |g| && id < |g|
  {
    exists y :: NeedsItself(g, rf, y) && Needs(g, rf, id, ptr, y)
  }

  /** Such a use is never met. */
  lemma NeverMet(g: Graph, rf: seq<bool>, q: seq<Id>, id: Id, ptr: bool)
    requires Closed(g) && |rf| == |g| && TopoSorted(g, rf, q) && id < |g| && Met(g, rf, q, id, ptr)
    ensures !NeedsLoop(g, rf, id, ptr)
  {
    if NeedsLoop(g, rf, id, ptr) {
      var y :| NeedsItself(g, rf, y) && Needs(g, rf, id, ptr, y);
      var n: nat :| NeedsWithin(g, rf, id, ptr, y, n);
      var p :| 0 <= p < |q| && q[p] == y;
      NotInOrder(g, rf, q, y, p);
    }
  }

  // ----- the invariant of the sort -----

  /** Ordered types are met by value, listed types are ordered, and the list so
      far is a topological order. */
  ghost predicate SortInv(g: Graph, rf: seq<bool>, st: seq<State>, q: seq<Id>) {
    && Closed(g) && |rf| == |g| == |st| && TopoSorted(g, rf, q)
    && (forall i :: 0 <= i < |g| && st[i] == Ordered ==> Met(g, rf, q, i, false))
    && (forall i :: i in q ==> i < |g| && st[i] == Ordered)
  }

  /** What a successful visit keeps. */
  ghost predicate Advances(st: seq<State>, q: seq<Id>, st': seq<State>, q': seq<Id>) {
    && |st| == |st'| && q <= q'
    && (forall i :: 0 <= i < |st| && st[i] == Ordered ==> st'[i] == Ordered)
    && (forall i :: 0 <= i < |st| ==> (st[i] == Ordering <==> st'[i] == Ordering))
  }

  /** Structs not yet entered: with the rank of chains free of structs, what
      bounds the recursion. */
  ghost function Unentered(g: Graph, st: seq<State>): set<Id> {
    set i | 0 <= i < |g| && i < |st| && g[i].body.Composite? && st[i] == NotOrdered
  }

  /** Every reference cycle passes through a struct or union: other types refer
      to types of lower rank only. */
  ghost predicate CyclesThroughStructs(g: Graph, rank: seq<nat>) {
    && |rank| == |g|
    && forall i, ptr, k :: 0 <= i < |g| && !g[i].body.Composite? && 0 <= k < |Expand(g[i], ptr)| ==>
         Expand(g[i], ptr)[k].0 < |g| && rank[Expand(g[i], ptr)[k].0] < rank[i]
  }

  lemma AdvancesThen(st: seq<State>, q: seq<Id>, st1: seq<State>, q1: seq<Id>, st2: seq<State>, q2: seq<Id>)
    requires Advances(st, q, st1, q1) && Advances(st1, q1, st2, q2)
    ensures Advances(st, q, st2, q2)
  {
  }

  lemma AdvancesUnentered(g: Graph, st: seq<State>, q: seq<Id>, st': seq<State>, q': seq<Id>)
    requires Advances(st, q, st', q')
    ensures |Unentered(g, st')| <= |Unentered(g, st)|
  {
    SubsetSize(Unentered(g, st'), Unentered(g, st));
  }

  lemma EnterStruct(g: Graph, rf: seq<bool>, st: seq<State>, q: seq<Id>, i: Id)
    requires SortInv(g, rf, st, q) && i < |g| && g[i].body.Composite? && st[i] == NotOrdered
    ensures SortInv(g, rf, st[i := Ordering], q)
    ensures |Unentered(g, st[i := Ordering])| < |Unentered(g, st)|
  {
    assert i in Unentered(g, st) && Unentered(g, st[i := Ordering]) == Unentered(g, st) - {i};
  }

  /** Marking a type whose use by value is met. */
  lemma MarkOrdered(g: Graph, rf: seq<bool>, st: seq<State>, q: seq<Id>, i: Id)
    requires SortInv(g, rf, st, q) && i < |g| && Met(g, rf, q, i, false)
    ensures SortInv(g, rf, st[i := Ordered], q)
  {
  }

  /** Listing a type whose definition is met, and marking it. */
  lemma ListAndMark(g: Graph, rf: seq<bool>, st: seq<State>, q: seq<Id>, i: Id)
    requires SortInv(g, rf, st, q) && i < |g| && UsesMet(g, rf, q, Expand(g[i], false))
    ensures SortInv(g, rf, st[i := Ordered], q + [i]) && Met(g, rf, q + [i], i, false)
  {
    TopoAppend(g, rf, q, i);
    UsesMetLonger(g, rf, q, q + [i], Expand(g[i], false));
    MetFromUses(g, rf, q + [i], i, false);
    forall j | 0 <= j < |g| && st[i := Ordered][j] == Ordered ensures Met(g, rf, q + [i], j, false) {
      if j != i { MetLonger(g, rf, q, q + [i], j, false); }
    }
  }

  lemma UsesMetLonger(g: Graph, rf: seq<bool>, q: seq<Id>, q': seq<Id>, us: seq<Use>)
    requires Closed(g) && |rf| == |g| && UsesMet(g, rf, q, us) && q <= q'
    ensures UsesMet(g, rf, q', us)
  {
    forall k | 0 <= k < |us| ensures Met(g, rf, q', us[k].0, us[k].1) {
      MetLonger(g, rf, q, q', us[k].0, us[k].1);
    }
  }

  lemma UsesMetOne(g: Graph, rf: seq<bool>, q: seq<Id>, q': seq<Id>, us: seq<Use>, k: nat)
    requires Closed(g) && |rf| == |g| && k < |us| && UsesMet(g, rf, q, us[..k]) && q <= q'
    requires us[k].0 < |g| && Met(g, rf, q', us[k].0, us[k].1)
    ensures UsesMet(g, rf, q', us[..k + 1])
  {
    forall j | 0 <= j < k ensures us[..k][j].0 < |g| && Met(g, rf, q', us[j].0, us[j].1) {
      MetLonger(g, rf, q, q', us[..k][j].0, us[..k][j].1);
    }
  }

  /** The use of a type met by value is met behind a pointer too. */
  lemma MetEither(g: Graph, rf: seq<bool>, q: seq<Id>, i: Id, ptr: bool)
    requires Closed(g) && |rf| == |g| && i < |g| && Met(g, rf, q, i, false)
    ensures Met(g, rf, q, i, ptr)
  {
    if ptr { MetByPtr(g, rf, q, i); }
  }

  /** The outcome of a visit: that of the function, and a longer order. */
  ghost predicate Visited(g: Graph, rf: seq<bool>, st: seq<State>, q: seq<Id>, st': seq<State>, q': seq<Id>, i: Id,
                          ptr: bool, r: Link) {
    && Ends(g, rf, st, q, i, ptr, Out(r, st', q'))
    && (!r.Failed? ==>
          && SortInv(g, rf, st', q') && Advances(st, q, st', q') && i < |g|
          && Met(g, rf, q', i, ptr) && (r == Strong ==> Met(g, rf, q', i, false)))
  }

  /** The first `k` of the types that a struct or prototype refers to have been
      visited, with the outcome of the function and their uses met. */
  ghost predicate SoFar(g: Graph, rf: seq<bool>, st: seq<State>, q: seq<Id>, ids: seq<Id>, us: seq<Use>, ptr: bool,
                        k: nat, o: Out) {
    && Closed(g) && |rf| == |g| && k <= |ids| == |us| && !o.link.Failed?
    && SortInv(g, rf, o.st, o.q) && Advances(st, q, o.st, o.q)
    && UsesMet(g, rf, o.q, us[..k]) && AllEnd(g, rf, st, q, ids, ptr, k, o)
  }

  lemma VisitFailed(g: Graph, rf: seq<bool>, st: seq<State>, q: seq<Id>, i: Id, ptr: bool, o: Out)
    requires o.link.Failed? && Ends(g, rf, st, q, i, ptr, o)
    ensures Visited(g, rf, st, q, o.st, o.q, i, ptr, o.link)
  {
  }

  lemma VisitDone(g: Graph, rf: seq<bool>, st: seq<State>, q: seq<Id>, i: Id, ptr: bool, o: Out)
    requires !o.link.Failed? && Ends(g, rf, st, q, i, ptr, o)
    requires SortInv(g, rf, o.st, o.q) && Advances(st, q, o.st, o.q) && i < |g|
    requires Met(g, rf, o.q, i, ptr) && (o.link == Strong ==> Met(g, rf, o.q, i, false))
    ensures Visited(g, rf, st, q, o.st, o.q, i, ptr, o.link)
  {
  }

  lemma SoFarNone(g: Graph, rf: seq<bool>, st: seq<State>, q: seq<Id>, ids: seq<Id>, us: seq<Use>, ptr: bool)
    requires SortInv(g, rf, st, q) && |ids| == |us|
    ensures SoFar(g, rf, st, q, ids, us, ptr, 0, Out(Weak, st, q))
  {
    AllEndNone(g, rf, st, q, ids, ptr);
  }

  /** One more visit: a failure is the outcome of all, a success goes on. */
  lemma SoFarNext(g: Graph, rf: seq<bool>, st: seq<State>, q: seq<Id>, ids: seq<Id>, us: seq<Use>, ptr: bool, k: nat,
                  o: Out, p: Out)
    requires SoFar(g, rf, st, q, ids, us, ptr, k, o) && k < |ids| && ids[k] < |g|
    requires us[k] == (ids[k], true) || (us[k] == (ids[k], false) && !ptr)
    requires Visited(g, rf, o.st, o.q, p.st, p.q, ids[k], ptr, p.link)
    ensures p.link.Failed? ==> AllEnd(g, rf, st, q, ids, ptr, |ids|, p)
    ensures !p.link.Failed? ==> SoFar(g, rf, st, q, ids, us, ptr, k + 1, p.(link := Join(o.link, p.link)))
  {
    hide Ends, AllEnd, Met, NeedsWithin, SortInv, UsesMet;
    AllEndNext(g, rf, st, q, ids, ptr, k, o, p);
    if p.link.Failed? {
      AllEndFailed(g, rf, st, q, ids, ptr, k + 1, |ids|, p);
    } else {
      AdvancesThen(st, q, o.st, o.q, p.st, p.q);
      if us[k].1 { MetAsName(g, rf, p.q, ids[k], ptr); }
      UsesMetOne(g, rf, o.q, p.q, us, k);
    }
  }

  lemma SoFarMeans(g: Graph, rf: seq<bool>, st: seq<State>, q: seq<Id>, ids: seq<Id>, us: seq<Use>, ptr: bool, k: nat,
                   o: Out)
    requires SoFar(g, rf, st, q, ids, us, ptr, k, o)
    ensures SortInv(g, rf, o.st, o.q) && Advances(st, q, o.st, o.q) && |Unentered(g, o.st)| <= |Unentered(g, st)|
    ensures k == |ids| ==> UsesMet(g, rf, o.q, us) && AllEnd(g, rf, st, q, ids, ptr, |ids|, o)
  {
    AdvancesUnentered(g, st, q, o.st, o.q);
    assert us[..|us|] == us;
  }

  /** The same condition on the links alone. */
  lemma RanksLinks(g: Graph, rank: seq<nat>)
    requires CyclesThroughStructs(g, rank)
    ensures BtfDumpUnique.Ranked(g, rank)
  {
    forall i: Id, k: nat | i < |g| && k < |BtfDumpUnique.Links(g[i])| ensures BtfDumpUnique.LinkDown(g, rank, i, k) {
      assert Expand(g[i], true)[k].0 == BtfDumpUnique.Links(g[i])[k];
    }
  }

  lemma StillReady(g: Graph, rf: seq<bool>, st: seq<State>, q: seq<Id>, now: seq<State>, q': seq<Id>)
    requires SortInv(g, rf, now, q') && Advances(st, q, now, q') && forall i :: 0 <= i < |st| ==> st[i] != Ordering
    ensures Closed(g) && |rf| == |g| && TopoSorted(g, rf, q') && q <= q'
    ensures forall i :: 0 <= i < |now| ==> now[i] != Ordering
    ensures |st| > 0 && st[0] == Ordered ==> |now| > 0 && now[0] == Ordered
  {
  }

  lemma StartsReady(g: Graph, rf: seq<bool>, st: seq<State>)
    requires Closed(g) && |rf| == |g| == |st| && g[0].body.Void?
    requires forall i :: 0 <= i < |st| ==> st[i] == if i == 0 then Ordered else NotOrdered
    ensures SortInv(g, rf, st, []) && BtfDumpUnique.Unrepeated(g, st, []) && BtfDumpRepeat.Filed(g, st, [])
  {
    MetFromUses(g, rf, [], 0, false);
  }

  /** Arrays and modifiers hand a visit on, and its outcome back. */
  lemma SameVisited(g: Graph, rf: seq<bool>, st: seq<State>, q: seq<Id>, id: Id, target: Id, ptr: bool, o: Out)
    requires Closed(g) && id < |g| == |st| == |rf| && st[id] == NotOrdered
    requires (IsModifier(g[id]) && target == g[id].body.target) || (g[id].body.Array? && target == g[id].body.elem)
    requires Visited(g, rf, st, q, o.st, o.q, target, ptr, o.link)
    ensures Visited(g, rf, st, q, o.st, o.q, id, ptr, o.link)
  {
    hide Ends, SortInv, Advances, Met, NeedsWithin;
    EndsSame(g, rf, st, q, id, target, ptr, o);
    if !o.link.Failed? {
      SameMet(g, rf, o.q, id, target, ptr);
      if o.link == Strong { SameMet(g, rf, o.q, id, target, false); }
    }
  }

  lemma SameMet(g: Graph, rf: seq<bool>, q: seq<Id>, id: Id, target: Id, ptr: bool)
    requires Closed(g) && id < |g| == |rf| && target < |g| && Met(g, rf, q, target, ptr)
    requires (IsModifier(g[id]) && target == g[id].body.target) || (g[id].body.Array? && target == g[id].body.elem)
    ensures Met(g, rf, q, id, ptr)
  {
    assert Expand(g[id], ptr) == [(target, ptr)];
    MetFromUses(g, rf, q, id, ptr);
  }

  class Dump {
    const btf: Graph
    const orderState: array<State>
    /** type_states[].referenced. */
    const referenced: seq<bool>
    var emitQueue: seq<Id>
    /** Everything queued by earlier dump_type calls. */
    ghost var emitted: seq<Id>

    constructor (btf: Graph, referenced: seq<bool>)
      requires Closed(btf) && |referenced| == |btf| && btf[0].body.Void?
      ensures this.btf == btf && this.referenced == referenced && fresh(orderState)
      ensures Ready() && All() == []
    {
      this.btf, this.referenced, emitQueue, emitted := btf, referenced, [], [];
      orderState := new State[|btf|](i => if i == 0 then Ordered else NotOrdered);
      new;
      hide SortInv, BtfDumpUnique.Unrepeated, BtfDumpRepeat.Filed;
      StartsReady(btf, referenced, orderState[..]);
    }

    ghost function All(): seq<Id>
      reads this
    {
      emitted + emitQueue
    }

    ghost predicate Inv()
      reads this, orderState
    {
      orderState.Length == |btf| && SortInv(btf, referenced, orderState[..], All())
    }

    /** Between top-level calls that all succeeded. */
    ghost predicate Ready()
      reads this, orderState
    {
      && Inv() && BtfDumpUnique.Unrepeated(btf, orderState[..], All())
      && BtfDumpRepeat.Filed(btf, orderState[..], All())
      && orderState[0] == Ordered && forall i :: 0 <= i < orderState.Length ==> orderState[i] != Ordering
    }

    /** btf_dump_order_type. */
    method OrderType(id: Id, throughPtr: bool, ghost rank: seq<nat>) returns (r: Link)
      requires Inv() && id < |btf| && CyclesThroughStructs(btf, rank)
      modifies orderState, this`emitQueue
      ensures orderState.Length == |btf|
      ensures Visited(btf, referenced, old(orderState[..]), old(All()), orderState[..], All(), id, throughPtr, r)
      decreases |Unentered(btf, orderState[..])|, rank[id], 1
    {
      ghost var g, rf, st, q := btf, referenced, orderState[..], All();
      var t := btf[id];
      if orderState[id] == Ordered {
        MetEither(g, rf, q, id, throughPtr);
        EndsHere(g, rf, st, q, id, throughPtr, Out(Strong, st, q));
        return Strong;
      }
      if orderState[id] == Ordering {
        if t.body.Composite? && throughPtr && Named(t) {
          MetFromUses(g, rf, q, id, true);
          EndsHere(g, rf, st, q, id, throughPtr, Out(Weak, st, q));
          return Weak;
        }
        EndsHere(g, rf, st, q, id, throughPtr, Out(Failed(ELoop), st, q));
        return Failed(ELoop);
      }
      match t.body
      case Int(_, _, _) =>
        r := OrderLeaf(id, throughPtr);
      case Var(_, _, _) =>
        r := OrderLeaf(id, throughPtr);
      case Datasec(_, _) =>
        r := OrderLeaf(id, throughPtr);
      case Ref(kind, _, target) =>
        if kind == Ptr {
          r := OrderPtr(id, throughPtr, rank);
        } else if kind == Typedef {
          r := OrderTypedef(id, throughPtr, rank);
        } else if kind == Func {
          r := OrderLeaf(id, throughPtr);
        } else {
          r := OrderSame(id, target, throughPtr, rank);
        }
      case Array(_, _, _, elem, _) =>
        r := OrderSame(id, elem, throughPtr, rank);
      case Composite(_, _, _) =>
        if throughPtr && Named(t) {
          MetFromUses(g, rf, q, id, true);
          EndsHere(g, rf, st, q, id, throughPtr, Out(Weak, st, q));
          return Weak;
        }
        r := OrderStruct(id, throughPtr, rank);
      case Enum(_, _) =>
        r := OrderEnum(id, throughPtr);
      case Fwd(_, _) =>
        r := OrderEnum(id, throughPtr);
      case FuncProto(_, _) =>
        r := OrderProto(id, throughPtr, rank);
      case Void =>
        EndsHere(g, rf, st, q, id, throughPtr, Out(Failed(EInval), st, q));
        return Failed(EInval);
    }

    /** INT, FUNC, VAR and DATASEC need nothing. */
    method OrderLeaf(id: Id, ghost throughPtr: bool) returns (r: Link)
      requires Inv() && id < |btf| && orderState[id] == NotOrdered
      requires Expand(btf[id], false) == [] && !AsksItself(btf[id], referenced[id], false)
      requires btf[id].body.Int? || btf[id].body.Var? || btf[id].body.Datasec? ||
        (btf[id].body.Ref? && btf[id].body.kind == Func)
      modifies orderState
      ensures r == Weak
      ensures Visited(btf, referenced, old(orderState[..]), old(All()), orderState[..], All(), id, throughPtr, r)
    {
      ghost var g, rf, st, q := btf, referenced, orderState[..], All();
      MetFromUses(g, rf, q, id, false);
      MetEither(g, rf, q, id, throughPtr);
      MarkOrdered(g, rf, st, q, id);
      orderState[id] := Ordered;
      assert orderState[..] == st[id := Ordered];
      EndsHere(g, rf, st, q, id, throughPtr, Out(Weak, orderState[..], q));
      return Weak;
    }

    /** PTR. */
    method OrderPtr(id: Id, ghost throughPtr: bool, ghost rank: seq<nat>) returns (r: Link)
      requires Inv() && id < |btf| && CyclesThroughStructs(btf, rank)
      requires orderState[id] == NotOrdered && btf[id].body.Ref? && btf[id].body.kind == Ptr
      modifies orderState, this`emitQueue
      ensures Visited(btf, referenced, old(orderState[..]), old(All()), orderState[..], All(), id, throughPtr, r)
      decreases |Unentered(btf, orderState[..])|, rank[id], 0
    {
      ghost var g, rf, st0, q0 := btf, referenced, orderState[..], All();
      assert Expand(g[id], false) == [(g[id].body.target, true)] && Expand(g[id], false)[0].0 < |g|;
      r := OrderType(btf[id].body.target, true, rank);
      ghost var st, q := orderState[..], All();
      EndsPtr(g, rf, st0, q0, id, throughPtr, Out(r, st, q));
      if !r.Failed? {
        MetFromUses(g, rf, q, id, false);
        MetEither(g, rf, q, id, throughPtr);
        MarkOrdered(g, rf, st, q, id);
      }
      orderState[id] := Ordered;
      assert orderState[..] == st[id := Ordered];
    }

    /** ARRAY and the modifiers pass the question on. */
    method OrderSame(id: Id, target: Id, throughPtr: bool, ghost rank: seq<nat>) returns (r: Link)
      requires Inv() && id < |btf| && CyclesThroughStructs(btf, rank) && orderState[id] == NotOrdered
      requires (IsModifier(btf[id]) && target == btf[id].body.target) ||
        (btf[id].body.Array? && target == btf[id].body.elem)
      requires forall p :: Expand(btf[id], p) == [(target, p)] && !AsksItself(btf[id], referenced[id], p)
      modifies orderState, this`emitQueue
      ensures Visited(btf, referenced, old(orderState[..]), old(All()), orderState[..], All(), id, throughPtr, r)
      decreases |Unentered(btf, orderState[..])|, rank[id], 0
    {
      hide Visited, Ends, Met, UsesMet, NeedsWithin, TopoSorted, Advances;
      ghost var st, q := orderState[..], All();
      assert Expand(btf[id], false)[0].0 < |btf|;
      r := OrderType(target, throughPtr, rank);
      SameVisited(btf, referenced, st, q, id, target, throughPtr, Out(r, orderState[..], All()));
    }

    /** TYPEDEF: always a named definition, but behind a pointer only queued when
        what it names is strongly linked. */
    method OrderTypedef(id: Id, throughPtr: bool, ghost rank: seq<nat>) returns (r: Link)
      requires Inv() && id < |btf| && CyclesThroughStructs(btf, rank)
      requires orderState[id] == NotOrdered && IsTypedef(btf[id])
      modifies orderState, this`emitQueue
      ensures Visited(btf, referenced, old(orderState[..]), old(All()), orderState[..], All(), id, throughPtr, r)
      decreases |Unentered(btf, orderState[..])|, rank[id], 0
    {
      ghost var g, rf, st, q := btf, referenced, orderState[..], All();
      var target := btf[id].body.target;
      assert Expand(g[id], throughPtr) == [(target, throughPtr)] && Expand(g[id], throughPtr)[0].0 < |g|;
      assert Expand(g[id], false) == [(target, false)];
      r := OrderType(target, throughPtr, rank);
      EndsTypedef(g, rf, st, q, id, throughPtr, Out(r, orderState[..], All()));
      if r.Failed? { return; }
      if throughPtr && r == Weak {
        MetFromUses(g, rf, All(), id, true);
        return Weak;
      }
      Queue(id, throughPtr);
      return Strong;
    }

    /** Appends to the emit queue a type whose definition is met, and marks it. */
    method Queue(id: Id, ghost throughPtr: bool)
      requires Inv() && id < |btf| && UsesMet(btf, referenced, All(), Expand(btf[id], false))
      modifies orderState, this`emitQueue
      ensures Inv() && All() == old(All()) + [id] && orderState[..] == old(orderState[..])[id := Ordered]
      ensures Met(btf, referenced, All(), id, throughPtr) && Met(btf, referenced, All(), id, false)
    {
      ghost var st, q := orderState[..], All();
      ListAndMark(btf, referenced, st, q, id);
      emitQueue := emitQueue + [id];
      orderState[id] := Ordered;
      assert orderState[..] == st[id := Ordered] && All() == q + [id];
      MetEither(btf, referenced, All(), id, throughPtr);
    }

    /** ENUM and FWD: queued when named or unreferenced. */
    method OrderEnum(id: Id, ghost throughPtr: bool) returns (r: Link)
      requires Inv() && id < |btf| && orderState[id] == NotOrdered && (btf[id].body.Enum? || btf[id].body.Fwd?)
      modifies orderState, this`emitQueue
      ensures r == Strong
      ensures Visited(btf, referenced, old(orderState[..]), old(All()), orderState[..], All(), id, throughPtr, r)
    {
      ghost var g, rf, st, q := btf, referenced, orderState[..], All();
      if Named(btf[id]) || !referenced[id] {
        Queue(id, throughPtr);
      } else {
        MetFromUses(g, rf, q, id, false);
        MetEither(g, rf, q, id, throughPtr);
        MarkOrdered(g, rf, st, q, id);
        orderState[id] := Ordered;
        assert orderState[..] == st[id := Ordered];
      }
      EndsHere(g, rf, st, q, id, throughPtr, Out(Strong, orderState[..], All()));
      return Strong;
    }

    /** STRUCT and UNION that have to be defined: every member first. */
    method OrderStruct(id: Id, throughPtr: bool, ghost rank: seq<nat>) returns (r: Link)
      requires Inv() && id < |btf| && CyclesThroughStructs(btf, rank)
      requires orderState[id] == NotOrdered && btf[id].body.Composite? && !(throughPtr && Named(btf[id]))
      modifies orderState, this`emitQueue
      ensures Visited(btf, referenced, old(orderState[..]), old(All()), orderState[..], All(), id, throughPtr, r)
      decreases |Unentered(btf, orderState[..])|, rank[id], 0
    {
      ghost var g, rf, st, q := btf, referenced, orderState[..], All();
      var members := btf[id].body.members;
      ghost var us, ids := Expand(g[id], false), FieldTypes(g[id]);
      assert us == Expand(g[id], throughPtr);
      EnterStruct(g, rf, st, q, id);
      orderState[id] := Ordering;
      ghost var st1 := orderState[..];
      assert st1 == st[id := Ordering];
      ghost var sofar := Out(Weak, st1, q);
      SoFarNone(g, rf, st1, q, ids, us, false);
      for i := 0 to |members|
        modifies orderState, this`emitQueue
        invariant sofar.st == orderState[..] && sofar.q == All()
        invariant SoFar(g, rf, st1, q, ids, us, false, i, sofar)
      {
        hide SoFar, Ends, SortInv, Visited;
        SoFarMeans(g, rf, st1, q, ids, us, false, i, sofar);
        assert Refs(g[id])[i] < |g|;
        r := OrderType(members[i].ty, false, rank);
        ghost var next := Out(r, orderState[..], All());
        SoFarNext(g, rf, st1, q, ids, us, false, i, sofar, next);
        if r.Failed? {
          EndsStruct(g, rf, st, q, id, throughPtr, next);
          VisitFailed(g, rf, st, q, id, throughPtr, next);
          return;
        }
        sofar := next.(link := Join(sofar.link, r));
      }
      SoFarMeans(g, rf, st1, q, ids, us, false, |ids|, sofar);
      EndsStruct(g, rf, st, q, id, throughPtr, sofar);
      r := CloseStruct(id, throughPtr, st, q);
    }

    /** The struct's members are ordered: it is listed if it has a name. */
    method CloseStruct(id: Id, throughPtr: bool, ghost st: seq<State>, ghost q: seq<Id>) returns (r: Link)
      requires Inv() && id < |btf| == |st| && btf[id].body.Composite? && !(throughPtr && Named(btf[id]))
      requires st[id] == NotOrdered && Advances(st[id := Ordering], q, orderState[..], All())
      requires UsesMet(btf, referenced, All(), Expand(btf[id], false))
      requires Ends(btf, referenced, st, q, id, throughPtr,
                    Out(Strong, orderState[..][id := Ordered], if Named(btf[id]) then All() + [id] else All()))
      modifies orderState, this`emitQueue
      ensures orderState.Length == |btf|
      ensures Visited(btf, referenced, st, q, orderState[..], All(), id, throughPtr, r)
    {
      if Named(btf[id]) {
        Queue(id, throughPtr);
      } else {
        ghost var g, rf, st2, q2 := btf, referenced, orderState[..], All();
        MetFromUses(g, rf, q2, id, false);
        MetEither(g, rf, q2, id, throughPtr);
        MarkOrdered(g, rf, st2, q2, id);
        orderState[id] := Ordered;
        assert orderState[..] == st2[id := Ordered];
      }
      return Strong;
    }

    /** FUNC_PROTO: strong if the result or any parameter is. */
    method OrderProto(id: Id, throughPtr: bool, ghost rank: seq<nat>) returns (r: Link)
      requires Inv() && id < |btf| && CyclesThroughStructs(btf, rank)
      requires orderState[id] == NotOrdered && btf[id].body.FuncProto?
      modifies orderState, this`emitQueue
      ensures Visited(btf, referenced, old(orderState[..]), old(All()), orderState[..], All(), id, throughPtr, r)
      decreases |Unentered(btf, orderState[..])|, rank[id], 0
    {
      hide SoFar, Ends, Visited, Met, UsesMet, NeedsWithin, TopoSorted;
      ghost var g, rf, st, q := btf, referenced, orderState[..], All();
      var ret, params := btf[id].body.ret, btf[id].body.params;
      ghost var us, ids := Expand(g[id], false), ProtoTypes(g[id]);
      assert us == Expand(g[id], throughPtr) && us[0] == (ret, true) && us[0].0 < |g|;
      SoFarNone(g, rf, st, q, ids, us, throughPtr);
      r := OrderType(ret, throughPtr, rank);
      ghost var sofar := Out(r, orderState[..], All());
      SoFarNext(g, rf, st, q, ids, us, throughPtr, 0, Out(Weak, st, q), sofar);
      if r.Failed? {
        EndsProto(g, rf, st, q, id, throughPtr, sofar);
        VisitFailed(g, rf, st, q, id, throughPtr, sofar);
        return;
      }
      var isStrong := r == Strong;
      for i := 0 to |params|
        modifies orderState, this`emitQueue
        invariant sofar == Out(if isStrong then Strong else Weak, orderState[..], All())
        invariant SoFar(g, rf, st, q, ids, us, throughPtr, i + 1, sofar)
      {
        hide SortInv;
        SoFarMeans(g, rf, st, q, ids, us, throughPtr, i + 1, sofar);
        assert us[i + 1] == (params[i].ty, true) && us[i + 1].0 < |g| && rank[us[i + 1].0] < rank[id];
        r := OrderType(params[i].ty, throughPtr, rank);
        ghost var next := Out(r, orderState[..], All());
        SoFarNext(g, rf, st, q, ids, us, throughPtr, i + 1, sofar, next);
        if r.Failed? {
          EndsProto(g, rf, st, q, id, throughPtr, next);
          VisitFailed(g, rf, st, q, id, throughPtr, next);
          return;
        }
        if r == Strong { isStrong := true; }
        sofar := next.(link := Join(sofar.link, r));
      }
      SoFarMeans(g, rf, st, q, ids, us, throughPtr, |ids|, sofar);
      EndsProto(g, rf, st, q, id, throughPtr, sofar);
      MetFromUses(g, rf, All(), id, false);
      MetFromUses(g, rf, All(), id, throughPtr);
      VisitDone(g, rf, st, q, id, throughPtr, sofar);
      return if isStrong then Strong else Weak;
    }

    /** The ordering half of btf_dump__dump_type: the queue of this call extends
        the topological order of everything queued before. */
    method DumpType(id: Id, ghost rank: seq<nat>) returns (r: Link)
      requires Ready() && CyclesThroughStructs(btf, rank)
      modifies orderState, this
      ensures id >= |btf| ==> r == Failed(EInval)
      ensures id < |btf| ==> Ends(btf, referenced, old(orderState[..]), old(All()), id, false,
        Out(r, orderState[..], All()))
      ensures !r.Failed? ==> Ready() && id < |btf| && Met(btf, referenced, All(), id, false)
      ensures !r.Failed? ==> emitted == old(All()) && old(All()) <= All()
      ensures !r.Failed? ==> TopoSorted(btf, referenced, All())
      ensures !r.Failed? ==> BtfDumpUnique.Unrepeated(btf, orderState[..], All())
      ensures !r.Failed? ==>
        BtfDumpRepeat.RepeatsAsMet(btf, referenced, old(orderState[..]), old(All()), id, Out(r, orderState[..], All()))
      ensures !r.Failed? && BtfDumpRepeat.NoRepeat(old(All())) && !BtfDumpRepeat.LeadsToReturning(btf, id, false) ==>
        BtfDumpRepeat.NoRepeat(All())
      ensures r == Failed(ELoop) ==> BtfDumpFail.LeadsToLoop(btf, id, false)
      ensures r == Failed(EInval) ==> id >= |btf| || BtfDumpFail.LeadsToUnknown(btf, id, false)
      ensures id < |btf| && NeedsLoop(btf, referenced, id, false) ==> r.Failed?
      ensures id < |btf| ==>
        BtfDumpFail.ListsOnly(btf, referenced, old(orderState[..]), old(All()), Out(r, orderState[..], All()))
    {
      hide SortInv, Advances, BtfDumpUnique.Unrepeated, BtfDumpRepeat.Filed, BtfDumpRepeat.RepeatsAsMet, Ends,
        BtfDumpRepeat.NoRepeat, BtfDumpRepeat.LeadsToReturning, BtfDumpFail.LeadsToLoop, BtfDumpFail.LeadsToUnknown,
        BtfDumpFail.ListsOnly, NeedsLoop, Met;
      if id >= |btf| { return Failed(EInval); }
      ghost var st, q := orderState[..], All();
      emitted := emitted + emitQueue;
      emitQueue := [];
      assert All() == q;
      r := OrderType(id, false, rank);
      BtfDumpFail.FailsOnly(btf, referenced, st, q, id, Out(r, orderState[..], All()));
      BtfDumpFail.EndsLists(btf, referenced, st, q, id, false, Out(r, orderState[..], All()));
      if !r.Failed? {
        RanksLinks(btf, rank);
        BtfDumpUnique.QueueUnrepeated(btf, referenced, rank, st, q, id, Out(r, orderState[..], All()));
        BtfDumpRepeat.QueueRepeatsIff(btf, referenced, st, q, id, Out(r, orderState[..], All()));
        if BtfDumpRepeat.NoRepeat(q) && !BtfDumpRepeat.LeadsToReturning(btf, id, false) {
          BtfDumpRepeat.NoReturnNoRepeat(btf, referenced, st, q, id, Out(r, orderState[..], All()));
        }
        StillReady(btf, referenced, st, q, orderState[..], All());
        NeverMet(btf, referenced, All(), id, false);
      }
    }
  }

  lemma MetAsName(g: Graph, rf: seq<bool>, q: seq<Id>, i: Id, ptr: bool)
    requires Closed(g) && |rf| == |g| && i < |g| && Met(g, rf, q, i, ptr)
    ensures Met(g, rf, q, i, true)
  {
    if !ptr { MetByPtr(g, rf, q, i); }
  }
}
