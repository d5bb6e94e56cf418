/** When the emit queue of the dumper repeats an entry. Only a typedef of a bare
    function prototype can be queued twice, and it can: the result of such a
    prototype makes a pointer to it count as strong. */
module BtfDumpUnique {
  import opened Basics
  import opened BtfTypes
  import opened BtfDumpRun

  /** Kinds that hand a visit on to one type: typedefs, modifiers, arrays. */
  predicate Passes(t: Type) {
    t.body.Array? || (t.body.Ref? && t.body.kind != Ptr && t.body.kind != Func)
  }

  function Passed(t: Type): Id
    requires Passes(t)
  {
    if t.body.Array? then t.body.elem else t.body.target
  }

  /** The types a visit goes on to from a kind other than a struct or union. */
  function Links(t: Type): seq<Id> {
    if Passes(t) then [Passed(t)]
    else if t.body.Ref? && t.body.kind == Ptr then [t.body.target]
    else if t.body.FuncProto? then ProtoTypes(t)
    else []
  }

  /** Every reference cycle passes through a struct or union. */
  ghost predicate Ranked(g: Graph, rank: seq<nat>) {
    |rank| == |g| && forall i, k :: 0 <= i < |g| && 0 <= k < |Links(g[i])| ==> LinkDown(g, rank, i, k)
  }

  ghost predicate LinkDown(g: Graph, rank: seq<nat>, i: Id, k: nat)
    requires |rank| == |g| && i < |g| && k < |Links(g[i])|
  {
    Links(g[i])[k] < |g| && rank[Links(g[i])[k]] < rank[i]
  }

  /** A function prototype, named through typedefs, modifiers and arrays only. */
  ghost predicate BareWithin(g: Graph, i: Id, n: nat)
    decreases n
  {
    n > 0 && i < |g| && (g[i].body.FuncProto? || (Passes(g[i]) && BareWithin(g, Passed(g[i]), n - 1)))
  }

  ghost predicate Bare(g: Graph, i: Id) {
    exists n: nat :: BareWithin(g, i, n)
  }

  // ----- what an open struct holds up -----

  /** `i` passes on to a struct that is being visited: it stays unordered, and a
      visit behind a pointer ends weakly. */
  ghost predicate Held(g: Graph, st: seq<State>, i: Id, n: nat)
    decreases n
  {
    n > 0 && i < |g| == |st| && st[i] != Ordered &&
    ((g[i].body.Composite? && st[i] == Ordering) || (Passes(g[i]) && Held(g, st, Passed(g[i]), n - 1)))
  }

  /** `i` links to an unnamed struct that is being visited: a visit fails. */
  ghost predicate Dead(g: Graph, st: seq<State>, i: Id, n: nat)
    decreases n
  {
    n > 0 && i < |g| == |st| && st[i] != Ordered &&
    ((g[i].body.Composite? && st[i] == Ordering && !Named(g[i])) ||
     exists k :: 0 <= k < |Links(g[i])| && Dead(g, st, Links(g[i])[k], n - 1))
  }

  ghost predicate Blocked(g: Graph, st: seq<State>, i: Id) {
    exists n: nat :: Held(g, st, i, n) || Dead(g, st, i, n)
  }

  /** `y` passes on to `i`, with nothing on the way ordered. */
  ghost predicate PassesTo(g: Graph, st: seq<State>, y: Id, i: Id, n: nat)
    decreases n
  {
    n > 0 && y < |g| == |st| && st[y] != Ordered && Passes(g[y]) &&
    (Passed(g[y]) == i || PassesTo(g, st, Passed(g[y]), i, n - 1))
  }

  /** `y` links to `i`, with nothing on the way ordered. */
  ghost predicate LinksTo(g: Graph, st: seq<State>, y: Id, i: Id, n: nat)
    decreases n
  {
    n > 0 && y < |g| == |st| && st[y] != Ordered &&
    exists k :: 0 <= k < |Links(g[y])| && (Links(g[y])[k] == i || LinksTo(g, st, Links(g[y])[k], i, n - 1))
  }

  /** `y` waits for the visit of `i`. */
  ghost predicate Waits(g: Graph, st: seq<State>, y: Id, i: Id, ptr: bool) {
    if ptr then exists n: nat :: LinksTo(g, st, y, i, n)
    else !Bare(g, y) && exists n: nat :: PassesTo(g, st, y, i, n)
  }

  lemma {:induction false} LinksDown(g: Graph, rank: seq<nat>, st: seq<State>, y: Id, i: Id, n: nat)
    requires Ranked(g, rank) && LinksTo(g, st, y, i, n)
    ensures i < |g| && rank[i] < rank[y]
    decreases n
  {
    var k :| 0 <= k < |Links(g[y])| && (Links(g[y])[k] == i || LinksTo(g, st, Links(g[y])[k], i, n - 1));
    assert LinkDown(g, rank, y, k);
    if Links(g[y])[k] != i { LinksDown(g, rank, st, Links(g[y])[k], i, n - 1); }
  }

  lemma {:induction false} PassesLinks(g: Graph, st: seq<State>, y: Id, i: Id, n: nat)
    requires PassesTo(g, st, y, i, n)
    ensures LinksTo(g, st, y, i, n)
    decreases n
  {
    assert Links(g[y])[0] == Passed(g[y]);
    if Passed(g[y]) != i { PassesLinks(g, st, Passed(g[y]), i, n - 1); }
  }

  lemma WaitsAbove(g: Graph, rank: seq<nat>, st: seq<State>, y: Id, i: Id, ptr: bool)
    requires Ranked(g, rank) && Waits(g, st, y, i, ptr)
    ensures y < |g| == |st| && st[y] != Ordered && i < |g| && rank[i] < rank[y]
  {
    if ptr {
      var n: nat :| LinksTo(g, st, y, i, n);
      LinksDown(g, rank, st, y, i, n);
    } else {
      var n: nat :| PassesTo(g, st, y, i, n);
      PassesLinks(g, st, y, i, n);
      LinksDown(g, rank, st, y, i, n);
    }
  }

  lemma {:induction false} LinksOn(g: Graph, st: seq<State>, y: Id, i: Id, n: nat, k: nat)
    requires LinksTo(g, st, y, i, n) && i < |g| && st[i] != Ordered && k < |Links(g[i])|
    ensures LinksTo(g, st, y, Links(g[i])[k], n + 1)
    decreases n
  {
    var j :| 0 <= j < |Links(g[y])| && (Links(g[y])[j] == i || LinksTo(g, st, Links(g[y])[j], i, n - 1));
    if Links(g[y])[j] == i {
      assert LinksTo(g, st, i, Links(g[i])[k], n) by { assert Links(g[i])[k] == Links(g[i])[k]; }
    } else {
      LinksOn(g, st, Links(g[y])[j], i, n - 1, k);
    }
  }

  lemma {:induction false} PassesOn(g: Graph, st: seq<State>, y: Id, i: Id, n: nat)
    requires PassesTo(g, st, y, i, n) && i < |g| && st[i] != Ordered && Passes(g[i])
    ensures PassesTo(g, st, y, Passed(g[i]), n + 1)
    decreases n
  {
    if Passed(g[y]) != i { PassesOn(g, st, Passed(g[y]), i, n - 1); }
  }

  lemma {:induction false} PassesToBare(g: Graph, st: seq<State>, y: Id, i: Id, n: nat)
    requires PassesTo(g, st, y, i, n) && i < |g| && g[i].body.FuncProto?
    ensures BareWithin(g, y, n + 1)
    decreases n
  {
    if Passed(g[y]) != i { PassesToBare(g, st, Passed(g[y]), i, n - 1); }
  }

  /** What waits for a type waits for what the type links to, and so does the
      type itself. */
  lemma WaitsOn(g: Graph, st: seq<State>, i: Id, ptr: bool, k: nat, ptr2: bool)
    requires i < |g| == |st| && st[i] != Ordered && k < |Links(g[i])|
    requires ptr2 == ptr || (ptr2 && g[i].body.Ref? && g[i].body.kind == Ptr)
    requires ptr2 || Passes(g[i])
    ensures forall y: Id :: Waits(g, st, y, i, ptr) ==> Waits(g, st, y, Links(g[i])[k], ptr2)
    ensures (ptr2 || !Bare(g, i)) ==> Waits(g, st, i, Links(g[i])[k], ptr2)
  {
    var c := Links(g[i])[k];
    forall y: Id | Waits(g, st, y, i, ptr) ensures Waits(g, st, y, c, ptr2) {
      if ptr {
        var n: nat :| LinksTo(g, st, y, i, n);
        LinksOn(g, st, y, i, n, k);
      } else {
        var n: nat :| PassesTo(g, st, y, i, n);
        if ptr2 {
          PassesLinks(g, st, y, i, n);
          LinksOn(g, st, y, i, n, k);
        } else {
          PassesOn(g, st, y, i, n);
        }
      }
    }
    if ptr2 {
      assert LinksTo(g, st, i, c, 1);
    } else {
      assert PassesTo(g, st, i, c, 1);
    }
  }

  // ----- what a successful visit keeps -----

  ghost predicate Steady(st: seq<State>, now: seq<State>) {
    |now| == |st| && forall i {:trigger now[i]} :: 0 <= i < |st| ==>
      (st[i] == Ordered ==> now[i] == Ordered) && (st[i] == Ordering <==> now[i] == Ordering)
  }

  ghost predicate BlockedStay(g: Graph, st: seq<State>, now: seq<State>) {
    |now| == |st| && forall y: Id :: Blocked(g, st, y) ==> y < |st| && now[y] != Ordered
  }

  /** Only a typedef of a bare prototype repeats, and what is queued is ordered. */
  ghost predicate Unrepeated(g: Graph, st: seq<State>, q: seq<Id>) {
    && (forall i :: i in q ==> i < |g| == |st| && st[i] == Ordered)
    && (forall j, k :: 0 <= j < k < |q| && q[j] == q[k] ==> q[j] < |g| && IsTypedef(g[q[j]]) && Bare(g, q[j]))
  }

  ghost predicate Kept(g: Graph, st: seq<State>, q: seq<Id>, id: Id, ptr: bool, o: Out) {
    && Steady(st, o.st) && BlockedStay(g, st, o.st)
    && (forall n: nat :: !Dead(g, st, id, n))
    && (forall n: nat :: Held(g, st, id, n) ==> ptr && o == Out(Weak, st, q))
    && (forall y: Id :: Waits(g, st, y, id, ptr) ==> y < |o.st| && o.st[y] != Ordered)
    && (Unrepeated(g, st, q) ==> Unrepeated(g, o.st, o.q))
  }

  lemma {:induction false} HeldStays(g: Graph, st: seq<State>, now: seq<State>, y: Id, n: nat)
    requires Steady(st, now) && BlockedStay(g, st, now) && Held(g, st, y, n)
    ensures Held(g, now, y, n)
    decreases n
  {
    assert Blocked(g, st, y);
    if !(g[y].body.Composite? && st[y] == Ordering) { HeldStays(g, st, now, Passed(g[y]), n - 1); }
  }

  lemma {:induction false} DeadStays(g: Graph, st: seq<State>, now: seq<State>, y: Id, n: nat)
    requires Steady(st, now) && BlockedStay(g, st, now) && Dead(g, st, y, n)
    ensures Dead(g, now, y, n)
    decreases n
  {
    assert Blocked(g, st, y);
    if !(g[y].body.Composite? && st[y] == Ordering && !Named(g[y])) {
      var k :| 0 <= k < |Links(g[y])| && Dead(g, st, Links(g[y])[k], n - 1);
      DeadStays(g, st, now, Links(g[y])[k], n - 1);
    }
  }

  lemma BlockedThen(g: Graph, st: seq<State>, mid: seq<State>, now: seq<State>)
    requires Steady(st, mid) && BlockedStay(g, st, mid) && Steady(mid, now) && BlockedStay(g, mid, now)
    ensures Steady(st, now) && BlockedStay(g, st, now)
  {
    forall y: Id | Blocked(g, st, y) ensures y < |st| && now[y] != Ordered {
      var n: nat :| Held(g, st, y, n) || Dead(g, st, y, n);
      if Held(g, st, y, n) { HeldStays(g, st, mid, y, n); } else { DeadStays(g, st, mid, y, n); }
      assert Blocked(g, mid, y);
    }
  }

  /** Opening a struct holds up more, never less. */
  lemma {:induction false} HeldMore(g: Graph, st: seq<State>, id: Id, y: Id, n: nat)
    requires id < |g| == |st| && st[id] == NotOrdered && Held(g, st, y, n)
    ensures Held(g, st[id := Ordering], y, n)
    decreases n
  {
    if !(g[y].body.Composite? && st[y] == Ordering) { HeldMore(g, st, id, Passed(g[y]), n - 1); }
  }

  lemma {:induction false} DeadMore(g: Graph, st: seq<State>, id: Id, y: Id, n: nat)
    requires id < |g| == |st| && st[id] == NotOrdered && Dead(g, st, y, n)
    ensures Dead(g, st[id := Ordering], y, n)
    decreases n
  {
    if !(g[y].body.Composite? && st[y] == Ordering && !Named(g[y])) {
      var k :| 0 <= k < |Links(g[y])| && Dead(g, st, Links(g[y])[k], n - 1);
      DeadMore(g, st, id, Links(g[y])[k], n - 1);
    }
  }

  lemma {:induction false} PassesHeld(g: Graph, st: seq<State>, id: Id, y: Id, n: nat)
    requires id < |g| == |st| && st[id] == NotOrdered && g[id].body.Composite? && PassesTo(g, st, y, id, n)
    ensures Held(g, st[id := Ordering], y, n + 1)
    decreases n
  {
    if Passed(g[y]) != id { PassesHeld(g, st, id, Passed(g[y]), n - 1); }
  }

  lemma {:induction false} LinksDead(g: Graph, st: seq<State>, id: Id, y: Id, n: nat)
    requires id < |g| == |st| && st[id] == NotOrdered && g[id].body.Composite? && !Named(g[id])
    requires LinksTo(g, st, y, id, n)
    ensures Dead(g, st[id := Ordering], y, n + 1)
    decreases n
  {
    var k :| 0 <= k < |Links(g[y])| && (Links(g[y])[k] == id || LinksTo(g, st, Links(g[y])[k], id, n - 1));
    if Links(g[y])[k] != id {
      LinksDead(g, st, id, Links(g[y])[k], n - 1);
    } else {
      assert Dead(g, st[id := Ordering], Links(g[y])[k], n);
    }
  }

  /** What was blocked, or waits for the struct, is blocked once it is open. */
  lemma OpenBlocks(g: Graph, st: seq<State>, id: Id, ptr: bool)
    requires id < |g| == |st| && st[id] == NotOrdered && g[id].body.Composite? && !(ptr && Named(g[id]))
    ensures forall y: Id :: Blocked(g, st, y) || Waits(g, st, y, id, ptr) ==>
      Blocked(g, st[id := Ordering], y) && y != id
  {
    forall y: Id | Blocked(g, st, y) || Waits(g, st, y, id, ptr) ensures Blocked(g, st[id := Ordering], y) && y != id {
      if Blocked(g, st, y) {
        var n: nat :| Held(g, st, y, n) || Dead(g, st, y, n);
        if Held(g, st, y, n) { HeldMore(g, st, id, y, n); } else { DeadMore(g, st, id, y, n); }
      } else if ptr {
        var n: nat :| LinksTo(g, st, y, id, n);
        LinksDead(g, st, id, y, n);
      } else {
        var n: nat :| PassesTo(g, st, y, id, n);
        PassesHeld(g, st, id, y, n);
      }
    }
  }

  lemma {:induction false} LinksStay(g: Graph, st: seq<State>, now: seq<State>, y: Id, id: Id, n: nat)
    requires |now| == |st| && LinksTo(g, st, y, id, n)
    requires forall z: Id :: Waits(g, st, z, id, true) ==> z < |now| && now[z] != Ordered
    ensures LinksTo(g, now, y, id, n)
    decreases n
  {
    assert Waits(g, st, y, id, true);
    var k :| 0 <= k < |Links(g[y])| && (Links(g[y])[k] == id || LinksTo(g, st, Links(g[y])[k], id, n - 1));
    if Links(g[y])[k] != id { LinksStay(g, st, now, Links(g[y])[k], id, n - 1); }
  }

  // ----- the visits -----

  lemma UnrepeatedMark(g: Graph, st: seq<State>, q: seq<Id>, id: Id)
    requires Unrepeated(g, st, q) && id < |g| == |st|
    ensures Unrepeated(g, st[id := Ordered], q)
  {
  }

  lemma UnrepeatedList(g: Graph, st: seq<State>, q: seq<Id>, id: Id)
    requires Unrepeated(g, st, q) && id < |g| == |st|
    requires st[id] == Ordered ==> IsTypedef(g[id]) && Bare(g, id)
    ensures Unrepeated(g, st[id := Ordered], q + [id])
  {
  }

  /** Marking a type that nothing is held up by. */
  lemma KeptLeaf(g: Graph, rank: seq<nat>, st: seq<State>, q: seq<Id>, id: Id, ptr: bool, o: Out)
    requires Ranked(g, rank) && id < |g| == |st| && st[id] == NotOrdered && Links(g[id]) == [] && !g[id].body.Composite?
    requires o.st == st[id := Ordered] && (o.q == q || o.q == q + [id])
    ensures Kept(g, st, q, id, ptr, o)
  {
    forall y: Id | Waits(g, st, y, id, ptr) ensures y < |st| && o.st[y] != Ordered {
      WaitsAbove(g, rank, st, y, id, ptr);
    }
    if Unrepeated(g, st, q) {
      UnrepeatedMark(g, st, q, id);
      UnrepeatedList(g, st, q, id);
    }
  }

  lemma OneLinkDown(g: Graph, st: seq<State>, id: Id, n: nat)
    requires id < |g| == |st| && |Links(g[id])| == 1 && !g[id].body.Composite?
    ensures n == 0 ==> !Dead(g, st, id, n) && !Held(g, st, id, n)
    ensures n > 0 && Dead(g, st, id, n) ==> Dead(g, st, Links(g[id])[0], n - 1)
    ensures n > 0 && Held(g, st, id, n) ==> Passes(g[id]) && Held(g, st, Links(g[id])[0], n - 1)
  {
  }

  /** A modifier or array, or a typedef that stays weak, hands the visit on. */
  lemma KeptPass(g: Graph, st: seq<State>, q: seq<Id>, id: Id, ptr: bool, o: Out)
    requires id < |g| == |st| && st[id] == NotOrdered && Passes(g[id])
    requires Kept(g, st, q, Passed(g[id]), ptr, o)
    ensures Kept(g, st, q, id, ptr, o)
  {
    assert Links(g[id])[0] == Passed(g[id]);
    WaitsOn(g, st, id, ptr, 0, ptr);
    forall n: nat ensures !Dead(g, st, id, n) {
      OneLinkDown(g, st, id, n);
    }
  }

  /** A pointer, or a typedef that is listed, is marked after its target. */
  lemma KeptMark(g: Graph, rank: seq<nat>, st: seq<State>, q: seq<Id>, id: Id, ptr: bool, ptr2: bool, o: Out, p: Out)
    requires Ranked(g, rank) && id < |g| == |st| && st[id] == NotOrdered && |Links(g[id])| == 1 &&
      !g[id].body.FuncProto?
    requires if Passes(g[id]) then ptr2 == ptr && !(ptr && o.link == Weak) else ptr2
    requires Kept(g, st, q, Links(g[id])[0], ptr2, o) && !o.link.Failed?
    requires p.st == o.st[id := Ordered] && (p.q == o.q || (p.q == o.q + [id] && IsTypedef(g[id])))
    ensures Kept(g, st, q, id, ptr, p)
  {
    var c := Links(g[id])[0];
    WaitsOn(g, st, id, ptr, 0, ptr2);
    forall n: nat ensures !Dead(g, st, id, n) && !Held(g, st, id, n) {
      OneLinkDown(g, st, id, n);
    }
    forall y: Id | Blocked(g, st, y) ensures y < |st| && p.st[y] != Ordered {
      assert y != id;
    }
    forall y: Id | Waits(g, st, y, id, ptr) ensures y < |st| && p.st[y] != Ordered {
      WaitsAbove(g, rank, st, y, id, ptr);
    }
    if Unrepeated(g, st, q) {
      UnrepeatedMark(g, o.st, o.q, id);
      if p.q == o.q + [id] { UnrepeatedList(g, o.st, o.q, id); }
    }
  }

  ghost predicate KeptAll(g: Graph, st: seq<State>, q: seq<Id>, ids: seq<Id>, ptr: bool, k: nat, owner: Id, o: Out)
    requires k <= |ids|
  {
    && Steady(st, o.st) && BlockedStay(g, st, o.st)
    && (forall j, n: nat :: 0 <= j < k ==> !Dead(g, st, ids[j], n))
    && (Unrepeated(g, st, q) ==> Unrepeated(g, o.st, o.q))
    && (ptr && owner < |g| == |st| && st[owner] != Ordered && ids == Links(g[owner]) ==>
      KeptWaiting(g, st, owner, o.st))
  }

  /** A prototype and all that links to it stay unordered. */
  ghost predicate KeptWaiting(g: Graph, st: seq<State>, owner: Id, now: seq<State>) {
    owner < |now| == |st| && now[owner] != Ordered &&
    forall y: Id :: Waits(g, st, y, owner, true) ==> y < |now| && now[y] != Ordered
  }

  lemma WaitingNext(g: Graph, st: seq<State>, owner: Id, mid: seq<State>, k: nat, q: seq<Id>, p: Out)
    requires owner < |g| == |st| && k < |Links(g[owner])| && KeptWaiting(g, st, owner, mid)
    requires Kept(g, mid, q, Links(g[owner])[k], true, p)
    ensures KeptWaiting(g, st, owner, p.st)
  {
    WaitsOn(g, mid, owner, true, k, true);
    forall y: Id | Waits(g, st, y, owner, true) ensures y < |p.st| && p.st[y] != Ordered {
      var n: nat :| LinksTo(g, st, y, owner, n);
      LinksStay(g, st, mid, y, owner, n);
      assert Waits(g, mid, y, owner, true);
    }
  }

  lemma KeptNext(g: Graph, st: seq<State>, q: seq<Id>, ids: seq<Id>, ptr: bool, k: nat, owner: Id, o: Out, p: Out)
    requires k < |ids| && KeptAll(g, st, q, ids, ptr, k, owner, o) && Kept(g, o.st, o.q, ids[k], ptr, p)
    ensures KeptAll(g, st, q, ids, ptr, k + 1, owner, p.(link := Join(o.link, p.link)))
  {
    BlockedThen(g, st, o.st, p.st);
    forall n: nat ensures !Dead(g, st, ids[k], n) {
      if Dead(g, st, ids[k], n) { DeadStays(g, st, o.st, ids[k], n); }
    }
    if ptr && owner < |g| == |st| && st[owner] != Ordered && ids == Links(g[owner]) {
      WaitingNext(g, st, owner, o.st, k, o.q, p);
    }
  }

  lemma KeptNone(g: Graph, rank: seq<nat>, st: seq<State>, q: seq<Id>, ids: seq<Id>, ptr: bool, owner: Id)
    requires Ranked(g, rank)
    ensures KeptAll(g, st, q, ids, ptr, 0, owner, Out(Weak, st, q))
  {
    forall y: Id | Blocked(g, st, y) ensures y < |st| && st[y] != Ordered {
      var n: nat :| Held(g, st, y, n) || Dead(g, st, y, n);
    }
    forall y: Id | Waits(g, st, y, owner, true) ensures y < |st| && st[y] != Ordered {
      WaitsAbove(g, rank, st, y, owner, true);
    }
  }

  lemma KeptStruct(g: Graph, st: seq<State>, q: seq<Id>, id: Id, ptr: bool, o: Out, p: Out)
    requires id < |g| == |st| && st[id] == NotOrdered && g[id].body.Composite? && !(ptr && Named(g[id]))
    requires KeptAll(g, st[id := Ordering], q, FieldTypes(g[id]), false, |FieldTypes(g[id])|, id, o)
    requires p.st == o.st[id := Ordered] && (p.q == o.q || p.q == o.q + [id])
    ensures Kept(g, st, q, id, ptr, p)
  {
    var open := st[id := Ordering];
    OpenBlocks(g, st, id, ptr);
    assert Steady(st, p.st) by {
      forall i | 0 <= i < |st|
        ensures (st[i] == Ordered ==> p.st[i] == Ordered) && (st[i] == Ordering <==> p.st[i] == Ordering)
      {
        assert o.st[i] == o.st[i];
      }
    }
    assert o.st[id] == Ordering;
    if Unrepeated(g, st, q) {
      assert Unrepeated(g, open, q);
      UnrepeatedMark(g, o.st, o.q, id);
      UnrepeatedList(g, o.st, o.q, id);
    }
  }

  lemma KeptProto(g: Graph, st: seq<State>, q: seq<Id>, id: Id, ptr: bool, o: Out)
    requires id < |g| == |st| && st[id] == NotOrdered && g[id].body.FuncProto?
    requires KeptAll(g, st, q, ProtoTypes(g[id]), ptr, |ProtoTypes(g[id])|, id, o)
    ensures Kept(g, st, q, id, ptr, o)
  {
    assert Links(g[id]) == ProtoTypes(g[id]);
    assert forall n: nat :: !Held(g, st, id, n);
    forall y: Id | !ptr ensures !Waits(g, st, y, id, ptr) {
      forall n: nat ensures PassesTo(g, st, y, id, n) ==> Bare(g, y) {
        if PassesTo(g, st, y, id, n) { PassesToBare(g, st, y, id, n); }
      }
    }
  }

  /** A visit that does not go in. */
  lemma KeptSame(g: Graph, rank: seq<nat>, st: seq<State>, q: seq<Id>, id: Id, ptr: bool, o: Out)
    requires Ranked(g, rank) && id < |g| == |st| && o.st == st && o.q == q
    requires st[id] == Ordered || (g[id].body.Composite? && ptr && Named(g[id]) && o.link == Weak)
    ensures Kept(g, st, q, id, ptr, o)
  {
    KeptNone(g, rank, st, q, [], ptr, id);
    forall y: Id | Waits(g, st, y, id, ptr) ensures y < |st| && st[y] != Ordered {
      WaitsAbove(g, rank, st, y, id, ptr);
    }
  }

  lemma {:induction false} VisitKept(n: nat, g: Graph, rf: seq<bool>, rank: seq<nat>, st: seq<State>, q: seq<Id>,
                                     id: Id, ptr: bool)
    requires Ranked(g, rank) && Visit(n, g, rf, st, q, id, ptr).Some?
    requires !Visit(n, g, rf, st, q, id, ptr).value.link.Failed?
    ensures Kept(g, st, q, id, ptr, Visit(n, g, rf, st, q, id, ptr).value)
    decreases n, 1
  {
    hide Kept, KeptAll, Ranked;
    var t, o := g[id], Visit(n, g, rf, st, q, id, ptr).value;
    if st[id] != NotOrdered {
      KeptSame(g, rank, st, q, id, ptr, o);
    } else if t.body.Ref? || t.body.Array? {
      OneKept(n, g, rf, rank, st, q, id, ptr);
    } else if t.body.Composite? || t.body.FuncProto? {
      ManyKept(n, g, rf, rank, st, q, id, ptr);
    } else {
      KeptLeaf(g, rank, st, q, id, ptr, o);
    }
  }

  lemma {:induction false} OneKept(n: nat, g: Graph, rf: seq<bool>, rank: seq<nat>, st: seq<State>, q: seq<Id>,
                                   id: Id, ptr: bool)
    requires Ranked(g, rank) && Visit(n, g, rf, st, q, id, ptr).Some?
    requires !Visit(n, g, rf, st, q, id, ptr).value.link.Failed?
    requires st[id] == NotOrdered && (g[id].body.Ref? || g[id].body.Array?)
    ensures Kept(g, st, q, id, ptr, Visit(n, g, rf, st, q, id, ptr).value)
    decreases n, 0
  {
    hide Kept, KeptAll, Ranked, VisitAll;
    var t, o := g[id], Visit(n, g, rf, st, q, id, ptr).value;
    if t.body.Array? {
      VisitKept(n - 1, g, rf, rank, st, q, t.body.elem, ptr);
      KeptPass(g, st, q, id, ptr, o);
      return;
    }
    var kind, target := t.body.kind, t.body.target;
    if kind == Func {
      KeptLeaf(g, rank, st, q, id, ptr, o);
    } else {
      var through := if kind == Ptr then true else ptr;
      VisitKept(n - 1, g, rf, rank, st, q, target, through);
      var inner := Visit(n - 1, g, rf, st, q, target, through).value;
      if kind == Ptr || (kind == Typedef && !(ptr && inner.link == Weak)) {
        KeptMark(g, rank, st, q, id, ptr, through, inner, o);
      } else {
        KeptPass(g, st, q, id, ptr, o);
      }
    }
  }

  lemma {:induction false} ManyKept(n: nat, g: Graph, rf: seq<bool>, rank: seq<nat>, st: seq<State>, q: seq<Id>,
                                    id: Id, ptr: bool)
    requires Ranked(g, rank) && Visit(n, g, rf, st, q, id, ptr).Some?
    requires !Visit(n, g, rf, st, q, id, ptr).value.link.Failed?
    requires st[id] == NotOrdered && (g[id].body.Composite? || g[id].body.FuncProto?)
    ensures Kept(g, st, q, id, ptr, Visit(n, g, rf, st, q, id, ptr).value)
    decreases n, 0
  {
    hide Kept, KeptAll, Ranked, VisitAll;
    var t, o := g[id], Visit(n, g, rf, st, q, id, ptr).value;
    if t.body.FuncProto? {
      VisitAllKept(n - 1, g, rf, rank, st, q, ProtoTypes(t), ptr, |ProtoTypes(t)|, id);
      KeptProto(g, st, q, id, ptr, o);
    } else if ptr && Named(t) {
      KeptSame(g, rank, st, q, id, ptr, o);
    } else {
      VisitAllKept(n - 1, g, rf, rank, st[id := Ordering], q, FieldTypes(t), false, |FieldTypes(t)|, id);
      var inner := VisitAll(n - 1, g, rf, st[id := Ordering], q, FieldTypes(t), false, |FieldTypes(t)|).value;
      KeptStruct(g, st, q, id, ptr, inner, o);
    }
  }

  lemma {:induction false} VisitAllKept(n: nat, g: Graph, rf: seq<bool>, rank: seq<nat>, st: seq<State>, q: seq<Id>,
                                        ids: seq<Id>, ptr: bool, k: nat, owner: Id)
    requires Ranked(g, rank) && k <= |ids| && VisitAll(n, g, rf, st, q, ids, ptr, k).Some?
    requires !VisitAll(n, g, rf, st, q, ids, ptr, k).value.link.Failed?
    ensures KeptAll(g, st, q, ids, ptr, k, owner, VisitAll(n, g, rf, st, q, ids, ptr, k).value)
    decreases n, 2, k
  {
    if k == 0 {
      KeptNone(g, rank, st, q, ids, ptr, owner);
    } else {
      hide Kept, KeptAll, Ranked;
      VisitAllKept(n, g, rf, rank, st, q, ids, ptr, k - 1, owner);
      var o := VisitAll(n, g, rf, st, q, ids, ptr, k - 1).value;
      VisitKept(n - 1, g, rf, rank, o.st, o.q, ids[k - 1], ptr);
      KeptNext(g, st, q, ids, ptr, k - 1, owner, o, Visit(n - 1, g, rf, o.st, o.q, ids[k - 1], ptr).value);
    }
  }

  // ----- what follows for the queue -----

  /** No entry is listed twice unless it is a typedef of a bare prototype. */
  lemma QueueUnrepeated(g: Graph, rf: seq<bool>, rank: seq<nat>, st: seq<State>, q: seq<Id>, id: Id, o: Out)
    requires Ranked(g, rank) && Unrepeated(g, st, q)
    requires Ends(g, rf, st, q, id, false, o) && !o.link.Failed?
    ensures Unrepeated(g, o.st, o.q)
    ensures (forall i :: 0 <= i < |g| ==> !(IsTypedef(g[i]) && Bare(g, i))) ==>
            forall j, k :: 0 <= j < k < |o.q| ==> o.q[j] != o.q[k]
  {
    var n: nat :| Visit(n, g, rf, st, q, id, false) == Some(o);
    VisitKept(n, g, rf, rank, st, q, id, false);
  }

  /** `typedef void t(struct c); struct c { t *p; };` */
  function Repeating(): Graph {
    [Type(0, false, Void),
     Type(1, false, Ref(Typedef, 0, 2)),
     Type(0, false, FuncProto(0, [Param(0, 3)])),
     Type(3, false, Composite(false, 8, [Member(5, 4, 0)])),
     Type(0, false, Ref(Ptr, 0, 1))]
  }

  /** The typedef behind the pointer, while the struct is open: it is queued. */
  lemma RepeatsInside(g: Graph, rf: seq<bool>, open: seq<State>)
    requires g == Repeating() && rf == [true, true, true, true, true]
    requires open == [Ordered, NotOrdered, NotOrdered, Ordering, NotOrdered]
    ensures Visit(4, g, rf, open, [], 1, true) == Some(Out(Strong, open[1 := Ordered], [1]))
  {
    var none: seq<Id> := [];
    assert none + [1] == [1];
    assert ProtoTypes(g[2]) == [0, 3];
    assert VisitAll(2, g, rf, open, [], [0, 3], true, 1) == Some(Out(Strong, open, []));
    assert VisitAll(2, g, rf, open, [], [0, 3], true, 2) == Some(Out(Strong, open, []));
    assert Visit(3, g, rf, open, [], 2, true) == Some(Out(Strong, open, []));
  }

  lemma RepeatsStruct(g: Graph, rf: seq<bool>, st: seq<State>)
    requires g == Repeating() && rf == [true, true, true, true, true]
    requires st == [Ordered, NotOrdered, NotOrdered, NotOrdered, NotOrdered]
    ensures Visit(7, g, rf, st, [], 3, false) ==
            Some(Out(Strong, [Ordered, Ordered, NotOrdered, Ordered, Ordered], [1, 3]))
  {
    var open := st[3 := Ordering];
    RepeatsInside(g, rf, open);
    var inner := open[1 := Ordered][4 := Ordered];
    var one: seq<Id> := [1];
    assert one + [3] == [1, 3];
    assert FieldTypes(g[3]) == [4];
    assert Visit(5, g, rf, open, [], 4, false) == Some(Out(Strong, inner, [1]));
    assert VisitAll(6, g, rf, open, [], [4], false, 1) == Some(Out(Strong, inner, [1]));
    assert inner[3 := Ordered] == [Ordered, Ordered, NotOrdered, Ordered, Ordered];
  }

  /** Dumping that typedef succeeds and queues it twice. */
  lemma TypedefRepeats()
    ensures Ranked(Repeating(), [0, 2, 1, 0, 3]) && Bare(Repeating(), 1)
    ensures var st := [Ordered, NotOrdered, NotOrdered, NotOrdered, NotOrdered];
      exists o :: Ends(Repeating(), [true, true, true, true, true], st, [], 1, false, o) &&
                  !o.link.Failed? && o.q == [1, 3, 1]
  {
    var g, rf := Repeating(), [true, true, true, true, true];
    assert BareWithin(g, 1, 2);
    var st := [Ordered, NotOrdered, NotOrdered, NotOrdered, NotOrdered];
    RepeatsStruct(g, rf, st);
    RepeatsOutside(g, rf, st);
  }

  lemma RepeatsOutside(g: Graph, rf: seq<bool>, st: seq<State>)
    requires g == Repeating() && rf == [true, true, true, true, true]
    requires st == [Ordered, NotOrdered, NotOrdered, NotOrdered, NotOrdered]
    requires Visit(7, g, rf, st, [], 3, false) ==
             Some(Out(Strong, [Ordered, Ordered, NotOrdered, Ordered, Ordered], [1, 3]))
    ensures exists o :: Ends(g, rf, st, [], 1, false, o) && !o.link.Failed? && o.q == [1, 3, 1]
  {
    var done := [Ordered, Ordered, NotOrdered, Ordered, Ordered];
    var two: seq<Id> := [1, 3];
    assert two + [1] == [1, 3, 1];
    assert ProtoTypes(g[2]) == [0, 3];
    assert Visit(7, g, rf, st, [], 0, false) == Some(Out(Strong, st, []));
    assert VisitAll(8, g, rf, st, [], [0, 3], false, 1) == Some(Out(Strong, st, []));
    assert VisitAll(8, g, rf, st, [], [0, 3], false, 2) == Some(Out(Strong, done, [1, 3]));
    assert Visit(9, g, rf, st, [], 2, false) == Some(Out(Strong, done, [1, 3]));
    assert Visit(10, g, rf, st, [], 1, false) == Some(Out(Strong, done[1 := Ordered], [1, 3, 1]));
  }
}
