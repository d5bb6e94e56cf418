/** What the passes keep true of the canonical map and the table of canonical
    candidates, one lemma per rewrite they make. */
module BtfCanon {
  import opened Basics
  import opened BtfTypes
  import opened BtfMeaning
  import opened IdForest
  import opened BtfEquivalence
  import opened HashMaps

  type Candidates = multiset<Entry<int, Id>>

  predicate IsPrim(t: Type) { t.body.Int? || t.body.Enum? || t.body.Fwd? }

  predicate IsReference(t: Type) { t.body.Ref? || t.body.Array? || t.body.FuncProto? }

  /** Kinds deduplicated by plain comparison with the candidates of their hash. */
  predicate Plain(t: Type) { IsPrim(t) || IsReference(t) }

  /** A candidate is mapped; unless it is a forward declaration that may still
      be resolved, it stays canonical. */
  ghost predicate Anchored(g: Graph, exact: bool, m: seq<nat>, v: Id)
    requires |m| == |g|
  {
    && 0 < v < |g| && Mapped(m, v)
    && (exact || !(g[v].body.Fwd? || IsEnumFwd(g[v])) ==> m[v] == v)
  }

  /** All candidates are anchored, every canonical plain descriptor and struct is
      a candidate under its hash, and no two canonical plain descriptors are equal. */
  ghost predicate TableInv(g: Graph, exact: bool, m: seq<nat>, es: Candidates)
    requires |m| == |g|
  {
    && (forall e :: e in es ==> Anchored(g, exact, m, e.value))
    && (forall i :: 0 < i < |g| && m[i] == i && (Plain(g[i]) || g[i].body.Composite?) ==> Entry(Hash(g[i]), i) in es)
    && NoDuplicates(g, m) && |es| <= |MappedIds(m)|
  }

  ghost function MappedIds(m: seq<nat>): set<Id> {
    set i: Id | i < |m| && Mapped(m, i)
  }

  lemma MappedMore(m: seq<nat>, m': seq<nat>)
    requires |m| == |m'| && forall i :: 0 <= i < |m| && Mapped(m, i) ==> Mapped(m', i)
    ensures |MappedIds(m)| <= |MappedIds(m')|
  {
    SubsetSize(MappedIds(m), MappedIds(m'));
  }

  lemma {:induction false} MappedBound(m: seq<nat>)
    ensures |MappedIds(m)| <= |m|
  {
    if m != [] {
      var n := |m| - 1;
      MappedBound(m[..n]);
      assert forall i :: 0 <= i < n && Mapped(m, i) ==> Mapped(m[..n], i);
      SubsetSize(MappedIds(m), MappedIds(m[..n]) + {n});
    }
  }

  lemma TableRoom(g: Graph, exact: bool, m: seq<nat>, es: Candidates)
    requires |m| == |g| && TableInv(g, exact, m, es)
    ensures |es| <= |m|
  {
    MappedBound(m);
  }

  ghost predicate NoDuplicates(g: Graph, m: seq<nat>)
    requires |m| == |g|
  {
    forall i, j :: 0 < i < |g| && 0 < j < |g| && m[i] == i && m[j] == j && Plain(g[i]) && g[i] == g[j] ==> i == j
  }

  /** Making an id canonical and a candidate. */
  lemma AddSelf(g: Graph, exact: bool, m: seq<nat>, es: Candidates, x: Id)
    requires |m| == |g| && 0 < x < |g| && |g| <= MAX_NR_TYPES + 1 && !Mapped(m, x)
    requires TableInv(g, exact, m, es)
    requires Plain(g[x]) ==> forall j :: 0 < j < |g| && m[j] == j ==> g[j] != g[x]
    ensures TableInv(g, exact, m[x := x], es + multiset{Entry(Hash(g[x]), x)})
  {
    hide MappedIds, Hash;
    var m' := m[x := x];
    OneMoreMapped(m, x);
    forall e | e in es + multiset{Entry(Hash(g[x]), x)} ensures Anchored(g, exact, m', e.value) {
      if e in es { assert Anchored(g, exact, m, e.value); }
    }
  }

  lemma OneMoreMapped(m: seq<nat>, x: Id)
    requires x < |m| && x <= MAX_NR_TYPES && !Mapped(m, x)
    ensures |MappedIds(m[x := x])| == |MappedIds(m)| + 1
  {
    assert MappedIds(m[x := x]) == MappedIds(m) + {x} && x !in MappedIds(m);
  }

  ghost predicate NotFiled(es: Candidates, x: Id) {
    forall e :: e in es ==> e.value != x
  }

  lemma SoundForest(g: Graph, exact: bool, m: seq<nat>)
    requires Sound(g, exact, m)
    ensures Closed(g) && Forest(m)
  {
  }

  lemma UnmappedNotFiled(g: Graph, exact: bool, m: seq<nat>, es: Candidates, x: Id)
    requires |m| == |g| && x < |g| && TableInv(g, exact, m, es) && !Mapped(m, x)
    ensures NotFiled(es, x)
  {
    forall e | e in es ensures e.value != x {
      assert Anchored(g, exact, m, e.value);
    }
  }

  /** Linking an id that is no candidate. */
  lemma LinkOther(g: Graph, exact: bool, m: seq<nat>, es: Candidates, x: Id, y: Id)
    requires |m| == |g| && 0 < x < |g| && y <= MAX_NR_TYPES && y != x && NotFiled(es, x)
    requires TableInv(g, exact, m, es)
    ensures TableInv(g, exact, m[x := y], es)
  {
    var m' := m[x := y];
    forall e | e in es ensures Anchored(g, exact, m', e.value) {
      assert Anchored(g, exact, m, e.value);
    }
    MappedMore(m, m');
  }

  /** Resolving a candidate that is a forward declaration. */
  lemma LinkFwd(g: Graph, exact: bool, m: seq<nat>, es: Candidates, x: Id, y: Id)
    requires |m| == |g| && 0 < x < |g| && y <= MAX_NR_TYPES && y != x
    requires !exact && (g[x].body.Fwd? || IsEnumFwd(g[x]))
    requires TableInv(g, exact, m, es)
    ensures TableInv(g, exact, m[x := y], es)
  {
    var m' := m[x := y];
    forall e | e in es ensures Anchored(g, exact, m', e.value) {
      assert Anchored(g, exact, m, e.value);
    }
    MappedMore(m, m');
  }

  // ----- soundness of one rewrite -----

  lemma SoundSelf(g: Graph, exact: bool, m: seq<nat>, x: Id)
    requires Sound(g, exact, m) && x < |g|
    ensures Sound(g, exact, m[x := x])
  {
    SetEnd(m, x, x);
  }

  lemma SoundUnmapped(g: Graph, exact: bool, m: seq<nat>, x: Id, v: nat)
    requires Sound(g, exact, m) && x < |g| && v > MAX_NR_TYPES
    ensures Sound(g, exact, m[x := v])
  {
    SetEnd(m, x, v);
  }

  lemma SoundToEnd(g: Graph, exact: bool, m: seq<nat>, x: Id, e: Id)
    requires Sound(g, exact, m) && x < |g| && e < |g| && e != x && IsEnd(m, e)
    requires Same(g, exact, x, e)
    ensures Sound(g, exact, m[x := e])
  {
    LinkToEnd(m, x, e);
  }

  lemma SoundFromEnd(g: Graph, exact: bool, m: seq<nat>, x: Id, y: Id)
    requires Sound(g, exact, m) && x < |g| && y < |g| && IsEnd(m, x) && Root(m, y) != x
    requires Same(g, exact, x, y)
    ensures Sound(g, exact, m[x := y])
  {
    LinkEnd(m, x, y);
  }

  /** Links only lead to mapped ids. */
  ghost predicate LinksMapped(m: seq<nat>)
    requires InRange(m)
  {
    forall i :: 0 <= i < |m| && Mapped(m, i) ==> Mapped(m, m[i])
  }

  lemma {:induction false} RootByMapped(m: seq<nat>, rank: seq<nat>, i: Id)
    requires Ranked(m, rank) && LinksMapped(m) && i < |m| && Mapped(m, i)
    ensures Mapped(m, RootBy(m, rank, i))
    decreases rank[i]
  {
    if !IsEnd(m, i) { RootByMapped(m, rank, m[i]); }
  }

  /** Then a mapped id resolves to a canonical one. */
  lemma RootMapped(m: seq<nat>, i: Id)
    requires Forest(m) && InRange(m) && LinksMapped(m) && i < |m| && Mapped(m, i)
    ensures Mapped(m, Root(m, i)) && m[Root(m, i)] == Root(m, i)
  {
    var rank :| Ranked(m, rank);
    RootIs(m, rank, i);
    RootByMapped(m, rank, i);
  }

  // ----- the frame of the struct pass -----

  /** Only resolvable forward declarations and unmapped structs get linked. */
  ghost predicate Relinked(g: Graph, exact: bool, m: seq<nat>, m': seq<nat>) {
    && |g| == |m| == |m'|
    && forall i :: 0 <= i < |m| ==> m'[i] == m[i] || RelinkedAt(g, exact, m, m', i)
  }

  ghost predicate RelinkedAt(g: Graph, exact: bool, m: seq<nat>, m': seq<nat>, i: Id)
    requires |g| == |m| == |m'| && i < |g|
  {
    !IsEnd(m', i) && ((!exact && g[i].body.Fwd?) || (g[i].body.Composite? && !Mapped(m, i)))
  }

  lemma RelinkOne(g: Graph, exact: bool, m: seq<nat>, m': seq<nat>, x: Id, y: Id)
    requires Relinked(g, exact, m, m') && x < |m| && y <= MAX_NR_TYPES && y != x && IsEnd(m', x)
    requires (!exact && g[x].body.Fwd?) || (g[x].body.Composite? && !Mapped(m', x))
    ensures Relinked(g, exact, m, m'[x := y])
  {
    var m'' := m'[x := y];
    forall i | 0 <= i < |m| ensures m''[i] == m[i] || RelinkedAt(g, exact, m, m'', i) {
      assert m'[i] == m[i] || RelinkedAt(g, exact, m, m', i);
    }
  }

  lemma RelinkTable(g: Graph, exact: bool, m: seq<nat>, m': seq<nat>, es: Candidates)
    requires Relinked(g, exact, m, m') && TableInv(g, exact, m, es)
    ensures TableInv(g, exact, m', es)
  {
    forall i | 0 < i < |g| ensures m'[i] == i ==> m[i] == i {
      assert m'[i] == m[i] || RelinkedAt(g, exact, m, m', i);
    }
    forall e | e in es ensures Anchored(g, exact, m', e.value) {
      assert Anchored(g, exact, m, e.value);
      assert m'[e.value] == m[e.value] || RelinkedAt(g, exact, m, m', e.value);
    }
    forall i | 0 <= i < |m| && Mapped(m, i) ensures Mapped(m', i) {
      assert m'[i] == m[i] || RelinkedAt(g, exact, m, m', i);
    }
    MappedMore(m, m');
  }

  // ----- the frame of the primitive pass -----

  /** Links lead to mapped ids or to `x`, which is being processed. */
  ghost predicate LinksMappedBut(m: seq<nat>, x: Id)
    requires InRange(m)
  {
    forall i :: 0 <= i < |m| && Mapped(m, i) ==> Mapped(m, m[i]) || m[i] == x
  }

  /** Only mapped enums, and `x`, change; mapped ids stay mapped. */
  ghost predicate KeepsMapped(g: Graph, m: seq<nat>, m': seq<nat>, x: Id) {
    && |g| == |m| == |m'|
    && forall i :: 0 <= i < |m| && i != x ==> m'[i] == m[i] || (Mapped(m, i) && Mapped(m', i) && g[i].body.Enum?)
  }

  /** How far the ENUM case has changed the map `m0` into `m` for `x`. */
  ghost predicate EnumProgress(g: Graph, m0: seq<nat>, m: seq<nat>, x: Id) {
    && |g| == |m0| == |m| && x < |g| && InRange(m)
    && m[x] == m0[x] && (IsEnumFwd(g[x]) ==> m == m0)
    && LinksMappedBut(m, x) && KeepsMapped(g, m0, m, x)
  }

  ghost predicate AllAnchored(g: Graph, exact: bool, m: seq<nat>, cands: seq<Id>)
    requires |m| == |g|
  {
    forall i :: 0 <= i < |cands| ==> Anchored(g, exact, m, cands[i])
  }

  lemma ResolveKeeps(g: Graph, exact: bool, m: seq<nat>, cand: Id, x: Id, cands: seq<Id>)
    requires |m| == |g| && cand < |g| && x < |g| && cand != x && x <= MAX_NR_TYPES
    requires !exact && IsEnumFwd(g[cand])
    requires CoversEquals(g, m, x, cands) && AllAnchored(g, exact, m, cands)
    ensures CoversEquals(g, m[cand := x], x, cands) && AllAnchored(g, exact, m[cand := x], cands)
  {
    forall i | 0 <= i < |cands| ensures Anchored(g, exact, m[cand := x], cands[i]) {
      assert Anchored(g, exact, m, cands[i]);
    }
  }

  /** The candidates filed under the hash of `g[x]` include everything
      canonical it could equal. */
  ghost predicate CoversEquals(g: Graph, m: seq<nat>, x: Id, cands: seq<Id>)
    requires |m| == |g| && x < |g|
  {
    forall j :: 0 < j < |g| && m[j] == j && g[j] == g[x] ==> j in cands
  }

  lemma TableCovers(g: Graph, exact: bool, m: seq<nat>, es: Candidates, x: Id, cands: seq<Id>)
    requires |m| == |g| && x < |g| && Plain(g[x]) && TableInv(g, exact, m, es)
    requires forall c :: c in cands <==> Entry(Hash(g[x]), c) in es
    ensures CoversEquals(g, m, x, cands)
    ensures AllAnchored(g, exact, m, cands)
  {
    forall i | 0 <= i < |cands| ensures Anchored(g, exact, m, cands[i]) {
      assert cands[i] in cands;
    }
  }

  /** The first `k` candidates differ from `g[x]`. */
  ghost predicate NoneUpTo(g: Graph, cands: seq<Id>, x: Id, k: nat)
    requires k <= |cands| && x < |g|
  {
    forall i :: 0 <= i < k ==> cands[i] < |g| && g[cands[i]] != g[x]
  }

  /** When none of them is equal, nothing canonical is. */
  lemma NoneEqual(g: Graph, m: seq<nat>, x: Id, cands: seq<Id>)
    requires |m| == |g| && x < |g| && CoversEquals(g, m, x, cands)
    requires NoneUpTo(g, cands, x, |cands|)
    ensures forall j :: 0 < j < |g| && m[j] == j ==> g[j] != g[x]
  {
  }

  // ----- one step of the ENUM case -----

  ghost predicate MapInv(g: Graph, exact: bool, m: seq<nat>, es: Candidates) {
    Sound(g, exact, m) && TableInv(g, exact, m, es)
  }

  /** What makes `y` a representative `x` may be linked to. */
  ghost predicate EnumTarget(g: Graph, exact: bool, m: seq<nat>, x: Id, y: Id) {
    && Sound(g, exact, m) && x < |g| && 0 < y < |g| && y != x
    && Mapped(m, y) && Root(m, y) != x && Same(g, exact, x, y)
  }

  lemma EnumTargetFound(g: Graph, exact: bool, m0: seq<nat>, m: seq<nat>, x: Id, y: Id)
    requires Sound(g, exact, m) && Forest(m0) && InRange(m0) && LinksMapped(m0) && EnumProgress(g, m0, m, x)
    requires !Mapped(m, x) && Anchored(g, exact, m, y) && Same(g, exact, x, y)
    requires IsEnumFwd(g[x]) || m[y] == y
    ensures EnumTarget(g, exact, m, x, y)
  {
    if m[y] == y { RootStep(m, y); } else { RootMapped(m0, y); }
  }

  lemma EnumResolved(g: Graph, exact: bool, m0: seq<nat>, m: seq<nat>, es: Candidates, x: Id, y: Id)
    requires MapInv(g, exact, m, es) && EnumProgress(g, m0, m, x)
    requires 0 < x < |g| && !Mapped(m, x) && !IsEnumFwd(g[x])
    requires Anchored(g, exact, m, y) && !exact && IsEnumFwd(g[y]) && Same(g, exact, y, x)
    ensures MapInv(g, exact, m[y := x], es) && EnumProgress(g, m0, m[y := x], x)
  {
    SoundToEnd(g, exact, m, y, x);
    LinkFwd(g, exact, m, es, y, x);
  }

  /** The invariant of the loop over the candidates of `x`. */
  ghost predicate EnumLoop(g: Graph, exact: bool, m0: seq<nat>, m: seq<nat>, es: Candidates, x: Id, cands: seq<Id>,
                           k: nat)
    requires k <= |cands|
  {
    && MapInv(g, exact, m, es) && EnumProgress(g, m0, m, x)
    && CoversEquals(g, m, x, cands) && AllAnchored(g, exact, m, cands) && NoneUpTo(g, cands, x, k)
  }

  lemma EnumLoopStep(g: Graph, exact: bool, m0: seq<nat>, m: seq<nat>, m': seq<nat>, es: Candidates, x: Id,
                     cands: seq<Id>, k: nat)
    requires k < |cands| && EnumLoop(g, exact, m0, m, es, x, cands, k) && !Mapped(m, x)
    requires MapInv(g, exact, m', es) && EnumProgress(g, m0, m', x) && x <= MAX_NR_TYPES
    requires cands[k] < |g| && g[cands[k]] != g[x]
    requires m' == m || (!exact && IsEnumFwd(g[cands[k]]) && m' == m[cands[k] := x])
    ensures EnumLoop(g, exact, m0, m', es, x, cands, k + 1)
  {
    if m' != m {
      assert Anchored(g, exact, m, cands[k]);
      ResolveKeeps(g, exact, m, cands[k], x, cands);
    }
  }

  // ----- where the passes stand -----

  /** After the primitive pass: everything but structs and reference kinds is
      mapped, reference kinds are untouched. */
  ghost predicate Staged(g: Graph, m: seq<nat>) {
    && |m| == |g| > 0 && m[0] == 0
    && forall i :: 0 < i < |g| ==> StagedAt(g[i], m[i])
  }

  predicate StagedAt(t: Type, v: nat) {
    && !t.body.Void?
    && (IsReference(t) ==> v == UNPROCESSED)
    && (t.body.Composite? ==> v <= MAX_NR_TYPES || v == UNPROCESSED)
    && (!IsReference(t) && !t.body.Composite? ==> v <= MAX_NR_TYPES)
  }

  lemma RelinkStaged(g: Graph, exact: bool, m: seq<nat>, m': seq<nat>)
    requires Staged(g, m) && Relinked(g, exact, m, m') && g[0].body.Void?
    ensures Staged(g, m')
    ensures forall i :: 0 <= i < |m| && Mapped(m, i) ==> Mapped(m', i)
  {
    forall i | 0 <= i < |m| ensures m'[i] == m[i] || RelinkedAt(g, exact, m, m', i) {
    }
  }

  /** During the primitive pass, just before id `n`. */
  ghost predicate PrimStage(g: Graph, m: seq<nat>, n: nat) {
    && |m| == |g| > 0 && m[0] == 0
    && forall i :: 0 < i < |g| ==> PrimStageAt(g[i], m[i], i, i < n)
  }

  predicate PrimStageAt(t: Type, v: nat, i: Id, done: bool) {
    && (done ==> !t.body.Void?)
    && (IsPrim(t) ==> if done then v <= MAX_NR_TYPES else v == UNPROCESSED)
    && (t.body.Var? || t.body.Datasec? ==> v == i)
    && (IsReference(t) || t.body.Composite? || t.body.Void? ==> v == UNPROCESSED)
  }

  lemma PrimStageNext(g: Graph, m: seq<nat>, m': seq<nat>, n: nat)
    requires PrimStage(g, m, n) && 0 < n < |g| && KeepsMapped(g, m, m', n)
    requires !g[n].body.Void?
    requires IsPrim(g[n]) ==> Mapped(m', n)
    requires !IsPrim(g[n]) ==> m'[n] == m[n]
    requires m'[0] == 0
    ensures PrimStage(g, m', n + 1)
  {
    forall i | 0 < i < |g| ensures PrimStageAt(g[i], m'[i], i, i < n + 1) {
      assert PrimStageAt(g[i], m[i], i, i < n);
    }
  }

  lemma PrimStageEnd(g: Graph, m: seq<nat>)
    requires PrimStage(g, m, |g|) && |g| <= MAX_NR_TYPES + 1
    ensures Staged(g, m)
  {
    forall i | 0 < i < |g| ensures StagedAt(g[i], m[i]) {
      assert PrimStageAt(g[i], m[i], i, true);
    }
  }

  // ----- merging one recorded pair -----

  /** Ends that mean the same can be linked, as far as the frame allows. */
  lemma RelinkSound(g: Graph, exact: bool, m0: seq<nat>, m: seq<nat>, x: Id, e: Id)
    requires Sound(g, exact, m) && Relinked(g, exact, m0, m)
    requires x < |g| && e < |g| && x != e && IsEnd(m, x) && IsEnd(m, e) && Same(g, exact, x, e)
    requires (!exact && g[x].body.Fwd?) || (g[x].body.Composite? && !Mapped(m, x))
    ensures Sound(g, exact, m[x := e]) && Relinked(g, exact, m0, m[x := e])
  {
    SoundToEnd(g, exact, m, x, e);
    RelinkOne(g, exact, m0, m, x, e);
  }

  /** The ends of a recorded pair mean the same. */
  lemma EndsSame(g: Graph, exact: bool, m: seq<nat>, a: Id, b: Id)
    requires Sound(g, exact, m) && a < |g| && b < |g| && Same(g, exact, a, b)
    ensures Same(g, exact, Root(m, a), Root(m, b)) && Same(g, exact, Root(m, b), Root(m, a))
    ensures exact ==> KindOf(g[Root(m, a)]) == KindOf(g[Root(m, b)])
  {
    RootSame(g, exact, m, a);
    RootSame(g, exact, m, b);
    SameJoin(g, exact, a, Root(m, a), b);
    SameSym(g, exact, Root(m, a), b);
    SameJoin(g, exact, b, Root(m, a), Root(m, b));
    SameSym(g, exact, Root(m, a), Root(m, b));
    SameShape(g, exact, Root(m, a), Root(m, b));
    if exact { assert KindOf(Label(g[Root(m, a)])) == KindOf(Label(g[Root(m, b)])); }
  }

  /** The id does not resolve to a forward declaration. */
  ghost predicate FwdFree(g: Graph, m: seq<nat>, i: Id)
    requires Forest(m) && |m| == |g| && i < |g|
  {
    !g[Root(m, i)].body.Fwd?
  }

  /** Ids that resolve to something defined go on to do so. */
  ghost predicate StaysFree(g: Graph, m: seq<nat>, now: seq<nat>) {
    && Forest(m) && Forest(now) && |m| == |now| == |g|
    && forall i: Id :: i < |g| && FwdFree(g, m, i) ==> FwdFree(g, now, i)
  }

  /** If one of the two does, afterwards both do. */
  ghost predicate BothFree(g: Graph, m: seq<nat>, now: seq<nat>, a: Id, b: Id)
    requires Forest(m) && Forest(now) && |m| == |now| == |g| && a < |g| && b < |g|
  {
    FwdFree(g, m, a) || FwdFree(g, m, b) ==> FwdFree(g, now, a) && FwdFree(g, now, b)
  }

  /** Linking an end to one that is no forward declaration. */
  lemma FreeLinked(g: Graph, m: seq<nat>, x: Id, e: Id)
    requires Forest(m) && |m| == |g| <= MAX_NR_TYPES + 1 && x < |g| && e < |g| && x != e
    requires IsEnd(m, x) && IsEnd(m, e) && !g[e].body.Fwd?
    ensures StaysFree(g, m, m[x := e])
    ensures forall i: Id :: i < |g| && (Root(m, i) == x || Root(m, i) == e) ==> FwdFree(g, m[x := e], i)
  {
    LinkToEnd(m, x, e);
    forall i: Id | i < |g|
      ensures FwdFree(g, m, i) ==> FwdFree(g, m[x := e], i)
      ensures Root(m, i) == x || Root(m, i) == e ==> FwdFree(g, m[x := e], i)
    {
      RootAfter(m, x, e, i);
    }
  }

  lemma ListedInside(h: seq<nat>, list: seq<Id>)
    requires HypotOk(h, list)
    ensures forall k :: 0 <= k < |list| ==> list[k] < |h| && h[list[k]] < |h|
  {
    forall k | 0 <= k < |list| ensures list[k] < |h| && h[list[k]] < |h| {
      assert list[k] in list && Recorded(h, list[k]);
    }
  }

  lemma FreeThen(g: Graph, m: seq<nat>, mid: seq<nat>, now: seq<nat>, h: seq<nat>, list: seq<Id>, n: nat)
    requires StaysFree(g, m, mid) && StaysFree(g, mid, now) && |h| == |g| && n < |list|
    requires forall k :: 0 <= k < |list| ==> list[k] < |h| && h[list[k]] < |h|
    requires forall k :: 0 <= k < n ==> BothFree(g, m, mid, list[k], h[list[k]])
    requires BothFree(g, mid, now, list[n], h[list[n]])
    ensures StaysFree(g, m, now) && forall k :: 0 <= k < n + 1 ==> BothFree(g, m, now, list[k], h[list[k]])
  {
    hide FwdFree, Forest;
  }

  // ----- the end of one step of the primitive pass -----

  /** `x` may be made its own or linked to `y`. */
  ghost predicate PrimChoice(g: Graph, exact: bool, m: seq<nat>, x: Id, y: Id) {
    && Sound(g, exact, m) && LinksMappedBut(m, x) && x < |g| && !Mapped(m, x)
    && 0 < y < |g| && (y == x || (Mapped(m, y) && Root(m, y) != x && Same(g, exact, x, y)))
  }

  lemma PrimChosen(g: Graph, exact: bool, m0: seq<nat>, m: seq<nat>, x: Id, y: Id)
    requires PrimChoice(g, exact, m, x, y) && KeepsMapped(g, m0, m, x)
    ensures y != x ==> Sound(g, exact, m[x := y])
    ensures InRange(m[x := y]) && LinksMapped(m[x := y]) && KeepsMapped(g, m0, m[x := y], x)
  {
    if y != x {
      SoundFromEnd(g, exact, m, x, y);
    }
  }

  lemma EqualChoice(g: Graph, exact: bool, m: seq<nat>, x: Id, y: Id)
    requires Sound(g, exact, m) && LinksMapped(m) && x < |g| && 0 < y < |g| && !Mapped(m, x)
    requires y != x ==> Mapped(m, y) && g[x] == g[y]
    ensures PrimChoice(g, exact, m, x, y)
  {
    if y != x {
      SameWhenEqual(g, exact, x, y);
      RootMapped(m, y);
    }
  }

  // ----- the struct pass -----

  /** `x` was found equivalent to the candidate `y`: after merging what the
      check recorded, `x` may be linked to `y`. */
  lemma StructChosen(g: Graph, exact: bool, m0: seq<nat>, m: seq<nat>, es: Candidates, x: Id, y: Id)
    requires MapInv(g, exact, m0, es) && Sound(g, exact, m) && Relinked(g, exact, m0, m)
    requires x < |g| && g[x].body.Composite? && !Mapped(m0, x)
    requires Anchored(g, exact, m0, y) && g[y].body.Composite? && Same(g, exact, x, y)
    ensures y != x && Sound(g, exact, m[x := y]) && TableInv(g, exact, m, es) && NotFiled(es, x)
  {
    assert m[y] == m0[y];
    UnmappedNotFiled(g, exact, m0, es, x);
    SoundToEnd(g, exact, m, x, y);
    RelinkTable(g, exact, m0, m, es);
  }

  /** How far the struct pass has come: structs below `n` are mapped. */
  ghost predicate StructStage(g: Graph, m: seq<nat>, n: nat) {
    && Staged(g, m)
    && forall i :: 0 <= i < n && i < |g| && g[i].body.Composite? ==> Mapped(m, i)
  }

  lemma StructStageNext(g: Graph, exact: bool, m0: seq<nat>, m: seq<nat>, x: Id, y: Id)
    requires StructStage(g, m0, x) && Relinked(g, exact, m0, m) && x < |g| && g[0].body.Void?
    requires y <= MAX_NR_TYPES && g[x].body.Composite?
    ensures StructStage(g, m[x := y], x + 1)
  {
    RelinkStaged(g, exact, m0, m);
  }

  lemma StructStageEnd(g: Graph, exact: bool, m: seq<nat>)
    requires Sound(g, exact, m) && StructStage(g, m, |g|) && g[0].body.Void?
    ensures LinksMapped(m)
    ensures forall i :: 0 <= i < |g| && !IsReference(g[i]) ==> Mapped(m, i)
  {
    forall i | 0 <= i < |g| ensures Mapped(m, i) <==> !IsReference(g[i]) {
      if i > 0 { assert StagedAt(g[i], m[i]); }
    }
    forall i | 0 <= i < |m| && Mapped(m, i) ensures Mapped(m, m[i]) {
      SameShape(g, exact, i, m[i]);
      ShapeKeepsReference(g[i], g[m[i]], exact);
    }
  }

  lemma ShapeKeepsReference(t: Type, t': Type, exact: bool)
    requires ShapeOf(t, exact) == ShapeOf(t', exact)
    ensures IsReference(t) <==> IsReference(t')
  {
    assert KindOf(Label(t)) == KindOf(t) && KindOf(Label(t')) == KindOf(t');
  }

  lemma RelinkedRefl(g: Graph, exact: bool, m: seq<nat>)
    requires |g| == |m|
    ensures Relinked(g, exact, m, m)
  {
  }
}
