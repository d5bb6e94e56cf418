/** What the passes do not leave side by side: without forward resolution, structs
    whose graphs can be paired one to one; with it, valueless enums beside full ones. */
module BtfTwins {
  import opened BtfTypes
  import opened BtfMeaning
  import opened IdForest
  import opened BtfEquivalence
  import opened BtfCanon
  import opened Basics
  import HashMaps

  /** Resolved by the primitive pass: equal ones get one representative. The type
      field of a forward declaration is unused, hence zero. */
  predicate Simple(t: Type) {
    t.body.Int? || t.body.Enum? || (t.body.Fwd? && t.body.fwdType == 0)
  }

  /** `t` may stand for `c`: the same id, an equal simple descriptor, or its partner. */
  predicate Stands(g: Graph, phi: seq<nat>, t: Id, c: Id)
    requires |phi| == |g|
  {
    t == c || (t < |g| && c < |g| && Simple(g[c]) && g[t] == g[c]) || (c < |g| && phi[c] == t)
  }

  /** `phi` gives ids partners that agree locally and whose references stand for
      each other; no map of canonical ids is involved. */
  ghost predicate Direct(g: Graph, phi: seq<nat>) {
    |phi| == |g| && forall c :: 0 <= c < |phi| && Recorded(phi, c) ==> DirectAt(g, phi, c)
  }

  ghost predicate DirectAt(g: Graph, phi: seq<nat>, c: Id)
    requires |phi| == |g| && c < |g|
  {
    && phi[c] < |g| && Label(g[c]) == Label(g[phi[c]]) && |Refs(g[c])| == |Refs(g[phi[c]])|
    && (g[c].body.Fwd? ==> g[c] == g[phi[c]])
    && forall k :: 0 <= k < |Refs(g[c])| ==> Stands(g, phi, Refs(g[phi[c]])[k], Refs(g[c])[k])
  }

  /** Some such pairing makes `a` the partner of `b`. */
  ghost predicate Paired(g: Graph, a: Id, b: Id) {
    b < |g| && exists phi: seq<nat> :: PairsUp(g, phi, a, b)
  }

  ghost predicate PairsUp(g: Graph, phi: seq<nat>, a: Id, b: Id)
    requires b < |g|
  {
    Direct(g, phi) && phi[b] == a
  }

  /** Structs that can be paired either way round. */
  ghost predicate Twins(g: Graph, a: Id, b: Id) {
    a < |g| && b < |g| && g[a].body.Composite? && g[b].body.Composite? && Paired(g, a, b) && Paired(g, b, a)
  }

  /** No two canonical structs are twins. */
  ghost predicate Tight(g: Graph, m: seq<nat>) {
    |m| == |g| && forall a, b :: 0 < a < |g| && 0 < b < |g| && m[a] == a && m[b] == b && Twins(g, a, b) ==> a == b
  }

  /** A valueless enum and a full one it could be resolved to. */
  predicate Clash(t: Type, t': Type) {
    IsEnumFwd(t) && t'.body.Enum? && !IsEnumFwd(t') && CompatEnum(t, t')
  }

  /** No canonical valueless enum is left beside such a full one. */
  ghost predicate NoClash(g: Graph, m: seq<nat>) {
    |m| == |g| && forall a, b :: 0 < a < |g| && 0 < b < |g| && m[a] == a && m[b] == b ==> !Clash(g[a], g[b])
  }

  /** What is promised in either mode. */
  ghost predicate Tidy(g: Graph, exact: bool, m: seq<nat>) {
    if exact then Tight(g, m) else NoClash(g, m)
  }

  // ----- what the primitive pass leaves -----

  /** Only void means void. */
  lemma VoidOnly(g: Graph, exact: bool, i: Id)
    requires Closed(g) && g[0].body.Void? && (forall j :: 0 < j < |g| ==> !g[j].body.Void?)
    requires i < |g| && Same(g, exact, 0, i)
    ensures i == 0
  {
    SameShape(g, exact, 0, i);
  }

  /** What means the same as a simple descriptor is equal to it. */
  lemma SimpleSame(g: Graph, i: Id, j: Id)
    requires Closed(g) && g[0].body.Void? && (forall k :: 0 < k < |g| ==> !g[k].body.Void?)
    requires i < |g| && Simple(g[i]) && Same(g, true, i, j)
    ensures g[i] == g[j]
  {
    SameShape(g, true, i, j);
    assert KindOf(Label(g[i])) == KindOf(g[i]) && KindOf(Label(g[j])) == KindOf(g[j]);
    if g[i].body.Fwd? {
      SameKids(g, true, i, j, 0);
      VoidOnly(g, true, Refs(g[j])[0]);
    }
    LabelAndRefs(g[i], g[j]);
  }

  /** Between the primitive and the reference pass: equal simple descriptors have
      one root. */
  lemma SimpleRoots(g: Graph, m: seq<nat>, i: Id, j: Id)
    requires Sound(g, true, m) && Staged(g, m) && NoDuplicates(g, m) && g[0].body.Void?
    requires i < |g| && j < |g| && Simple(g[i]) && g[i] == g[j]
    ensures Root(m, i) == Root(m, j)
  {
    StagedKinds(g, m);
    SimpleRoot(g, m, i);
    SimpleRoot(g, m, j);
  }

  lemma StagedKinds(g: Graph, m: seq<nat>)
    requires Staged(g, m)
    ensures forall i :: 0 < i < |g| ==> !g[i].body.Void?
    ensures forall i :: 0 < i < |g| && Simple(g[i]) ==> Mapped(m, i)
  {
    forall i | 0 < i < |g| ensures !g[i].body.Void? && (Simple(g[i]) ==> Mapped(m, i)) {
      assert StagedAt(g[i], m[i]);
    }
  }

  lemma SimpleRoot(g: Graph, m: seq<nat>, i: Id)
    requires Sound(g, true, m) && Staged(g, m) && g[0].body.Void? && i < |g| && Simple(g[i])
    ensures 0 < Root(m, i) < |g| && m[Root(m, i)] == Root(m, i) && g[Root(m, i)] == g[i]
  {
    StagedKinds(g, m);
    RootSame(g, true, m, i);
    SimpleSame(g, i, Root(m, i));
    RootStep(m, i);
  }

  /** Without resolution, a forward declaration stands for itself. */
  lemma FwdStays(g: Graph, m: seq<nat>, i: Id)
    requires Sound(g, true, m) && i < |g|
    ensures FwdRoot(g, m, i) == i
  {
    RootSame(g, true, m, i);
    SameShape(g, true, i, Root(m, i));
    assert KindOf(Label(g[i])) == KindOf(g[i]) && KindOf(Label(g[Root(m, i)])) == KindOf(g[Root(m, i)]);
  }

  /** A pairing is a matching under every map the struct pass may have reached. */
  lemma DirectMatches(g: Graph, m: seq<nat>, phi: seq<nat>)
    requires Sound(g, true, m) && Staged(g, m) && NoDuplicates(g, m) && g[0].body.Void? && Direct(g, phi)
    ensures Matching(g, m, phi)
  {
    hide Label;
    forall c | 0 <= c < |phi| && Recorded(phi, c) ensures MatchedAt(g, m, phi, c) {
      assert DirectAt(g, phi, c);
      forall k | 0 <= k < |Refs(g[c])| ensures Linked(g, m, phi, Refs(g[phi[c]])[k], Refs(g[c])[k]) {
        assert Refs(g[c])[k] < |g| && Refs(g[phi[c]])[k] < |g|;
        StandsLinked(g, m, phi, Refs(g[phi[c]])[k], Refs(g[c])[k]);
      }
    }
  }

  lemma StandsLinked(g: Graph, m: seq<nat>, phi: seq<nat>, t: Id, c: Id)
    requires Sound(g, true, m) && Staged(g, m) && NoDuplicates(g, m) && g[0].body.Void?
    requires |phi| == |g| && t < |g| && c < |g| && Stands(g, phi, t, c)
    ensures Linked(g, m, phi, t, c)
  {
    FwdStays(g, m, c);
    if Simple(g[c]) && g[t] == g[c] { SimpleRoots(g, m, t, c); }
  }

  /** So the check must accept paired structs. */
  lemma PairedMatches(g: Graph, m: seq<nat>, a: Id, b: Id)
    requires Sound(g, true, m) && Staged(g, m) && NoDuplicates(g, m) && g[0].body.Void?
    requires a < |g| && b < |g| && g[b].body.Composite? && Paired(g, a, b)
    ensures Matches(g, m, a, b) && g[a].body.Composite? && ShallowEqualStruct(g[a], g[b]) && Hash(g[a]) == Hash(g[b])
  {
    var phi: seq<nat> :| PairsUp(g, phi, a, b);
    DirectMatches(g, m, phi);
    assert DirectAt(g, phi, b);
    assert Linked(g, m, phi, a, b);
    assert Pairs(g, m, phi, a, b);
    assert KindOf(Label(g[a])) == KindOf(g[a]) && KindOf(Label(g[b])) == KindOf(g[b]);
    LabelPasses(g[a], g[b]);
    ShallowHash(g[a], g[b]);
  }

  lemma ShallowHash(t: Type, t': Type)
    requires t.body.Composite? && ShallowEqualStruct(t, t')
    ensures Hash(t) == Hash(t')
  {
    SameWords(t.body.members, t'.body.members);
  }

  lemma {:induction false} SameWords(a: seq<Member>, b: seq<Member>)
    requires |a| == |b| && forall i :: 0 <= i < |a| ==> a[i].name == b[i].name && a[i].offset == b[i].offset
    ensures MemberWords(a) == MemberWords(b)
  {
    if a != [] { SameWords(a[1..], b[1..]); }
  }

  // ----- the primitive pass -----

  /** Only ids that were canonical are. */
  ghost predicate Fewer(m: seq<nat>, now: seq<nat>) {
    |m| == |now| && forall i :: 0 <= i < |m| && now[i] == i ==> m[i] == i
  }

  lemma FewerThen(m: seq<nat>, mid: seq<nat>, now: seq<nat>)
    requires Fewer(m, mid) && Fewer(mid, now)
    ensures Fewer(m, now)
  {
  }

  /** Nothing canonical clashes with `id`. */
  ghost predicate NoClashWith(g: Graph, m: seq<nat>, id: Id)
    requires id < |g| == |m|
  {
    forall c :: 0 < c < |g| && m[c] == c ==> !Clash(g[id], g[c]) && !Clash(g[c], g[id])
  }

  /** None of the first `k` candidates does. */
  ghost predicate NoneClash(g: Graph, m: seq<nat>, id: Id, cands: seq<Id>, k: nat)
    requires id < |g| == |m| && k <= |cands|
  {
    forall i :: 0 <= i < k && cands[i] < |g| && m[cands[i]] == cands[i] ==>
      !Clash(g[id], g[cands[i]]) && !Clash(g[cands[i]], g[id])
  }

  lemma NoneClashLess(g: Graph, m: seq<nat>, now: seq<nat>, id: Id, cands: seq<Id>, k: nat)
    requires id < |g| == |m| && k < |cands| && Fewer(m, now) && NoneClash(g, m, id, cands, k)
    requires cands[k] < |g| && now[cands[k]] == cands[k] ==> !Clash(g[id], g[cands[k]]) && !Clash(g[cands[k]], g[id])
    ensures NoneClash(g, now, id, cands, k + 1)
  {
  }

  /** All canonical enums that could clash are candidates. */
  lemma AllEnumsSeen(g: Graph, exact: bool, m: seq<nat>, es: Candidates, id: Id, cands: seq<Id>)
    requires |m| == |g| && TableInv(g, exact, m, es) && id < |g|
    requires forall c :: HashMaps.Entry(Hash(g[id]), c) in es ==> c in cands
    requires NoneClash(g, m, id, cands, |cands|)
    ensures NoClashWith(g, m, id)
  {
    forall c | 0 < c < |g| && m[c] == c ensures !Clash(g[id], g[c]) && !Clash(g[c], g[id]) {
      ClashHash(g[id], g[c]);
      ClashHash(g[c], g[id]);
      if c in cands { var k :| 0 <= k < |cands| && cands[k] == c; }
    }
  }

  lemma ClashHash(t: Type, t': Type)
    ensures Clash(t, t') ==> Hash(t) == Hash(t')
  {
    if Clash(t, t') { assert Signature(t) == Signature(t'); }
  }

  // ----- the loop over the candidates of an enum -----

  /** The enum `x` has not found a representative among the first `k` candidates. */
  ghost predicate EnumScan(g: Graph, exact: bool, m0: seq<nat>, m: seq<nat>, es: Candidates, x: Id, cands: seq<Id>,
                           k: nat)
  {
    && k <= |cands| && 0 < x < |g| == |m| && !Mapped(m, x)
    && Forest(m0) && InRange(m0) && LinksMapped(m0) && Fewer(m0, m)
    && (forall c :: HashMaps.Entry(Hash(g[x]), c) in es ==> c in cands)
    && EnumLoop(g, exact, m0, m, es, x, cands, k) && (!exact ==> NoneClash(g, m, x, cands, k))
  }

  lemma EnumScanStart(g: Graph, exact: bool, m: seq<nat>, es: Candidates, x: Id, cands: seq<Id>)
    requires MapInv(g, exact, m, es) && LinksMapped(m) && 0 < x < |g| && !Mapped(m, x)
    requires CoversEquals(g, m, x, cands) && AllAnchored(g, exact, m, cands)
    requires forall c :: HashMaps.Entry(Hash(g[x]), c) in es ==> c in cands
    ensures EnumScan(g, exact, m, m, es, x, cands, 0)
  {
    hide TableInv, CoversEquals, AllAnchored, IsEnumFwd;
    NoProgress(g, m, x);
  }

  lemma NoProgress(g: Graph, m: seq<nat>, x: Id)
    requires InRange(m) && LinksMapped(m) && x < |g| == |m|
    ensures EnumProgress(g, m, m, x) && Fewer(m, m)
  {
  }

  lemma EnumScanTurn(g: Graph, exact: bool, m0: seq<nat>, m: seq<nat>, es: Candidates, x: Id, cands: seq<Id>, k: nat)
    requires EnumScan(g, exact, m0, m, es, x, cands, k) && k < |cands|
    ensures MapInv(g, exact, m, es) && EnumProgress(g, m0, m, x) && Fewer(m0, m) && !Mapped(m, x)
    ensures 0 < cands[k] < |g| && Anchored(g, exact, m, cands[k])
    ensures Forest(m0) && InRange(m0) && LinksMapped(m0)
  {
  }

  lemma EnumScanStep(g: Graph, exact: bool, m0: seq<nat>, m: seq<nat>, m': seq<nat>, es: Candidates, x: Id,
                     cands: seq<Id>, k: nat)
    requires EnumScan(g, exact, m0, m, es, x, cands, k) && k < |cands| && cands[k] < |g|
    requires MapInv(g, exact, m', es) && EnumProgress(g, m0, m', x) && Fewer(m, m') && g[cands[k]] != g[x]
    requires !exact && m'[cands[k]] == cands[k] ==> !Clash(g[x], g[cands[k]]) && !Clash(g[cands[k]], g[x])
    requires m' == m || (!exact && IsEnumFwd(g[cands[k]]) && m' == m[cands[k] := x])
    ensures EnumScan(g, exact, m0, m', es, x, cands, k + 1)
  {
    hide TableInv, LinksMapped, CoversEquals, AllAnchored, NoneUpTo, NoneClash, Clash;
    EnumLoopStep(g, exact, m0, m, m', es, x, cands, k);
    FewerThen(m0, m, m');
    if !exact { NoneClashLess(g, m, m', x, cands, k); }
  }

  lemma EnumScanEnd(g: Graph, exact: bool, m0: seq<nat>, m: seq<nat>, es: Candidates, x: Id, cands: seq<Id>)
    requires EnumScan(g, exact, m0, m, es, x, cands, |cands|)
    ensures MapInv(g, exact, m, es) && EnumProgress(g, m0, m, x) && Fewer(m0, m)
    ensures forall j :: 0 < j < |g| && m[j] == j ==> g[j] != g[x]
    ensures !exact ==> NoClashWith(g, m, x)
  {
    hide TableInv, LinksMapped, CoversEquals, AllAnchored, NoneUpTo, NoneClash, Clash;
    NoneEqual(g, m, x, cands);
    if !exact { AllEnumsSeen(g, exact, m, es, x, cands); }
  }

  lemma NoClashChosen(g: Graph, m: seq<nat>, id: Id, y: Id)
    requires id < |g| && NoClash(g, m) && (y == id ==> NoClashWith(g, m, id))
    ensures NoClash(g, m[id := y])
  {
  }

  lemma NoClashLess(g: Graph, m: seq<nat>, now: seq<nat>)
    requires NoClash(g, m) && Fewer(m, now)
    ensures NoClash(g, now)
  {
  }

  // ----- the struct and the reference pass -----

  /** Before the struct pass no struct is canonical. */
  lemma TightBegin(g: Graph, m: seq<nat>)
    requires PrimStage(g, m, |g|) && |g| <= MAX_NR_TYPES + 1
    ensures Tight(g, m)
  {
    forall a | 0 < a < |g| && g[a].body.Composite? ensures m[a] != a {
      assert PrimStageAt(g[a], m[a], a, true);
    }
  }

  /** No canonical struct that looks like `id` matches it. */
  ghost predicate Unmatched(g: Graph, m: seq<nat>, id: Id)
    requires id < |g| == |m| && g[id].body.Composite?
  {
    forall c :: 0 < c < |g| && m[c] == c && g[c].body.Composite? && ShallowEqualStruct(g[id], g[c]) ==>
      !Matches(g, m, id, c)
  }

  /** Candidates that were all turned down are all the canonical structs there are. */
  lemma AllTurnedDown(g: Graph, exact: bool, m: seq<nat>, es: Candidates, id: Id, cands: seq<Id>)
    requires |m| == |g| && TableInv(g, exact, m, es) && id < |g| && g[id].body.Composite?
    requires forall c :: HashMaps.Entry(Hash(g[id]), c) in es ==> c in cands
    requires NoneMatches(g, m, id, cands, |cands|)
    ensures Unmatched(g, m, id)
  {
    forall c | 0 < c < |g| && m[c] == c && g[c].body.Composite? && ShallowEqualStruct(g[id], g[c])
      ensures !Matches(g, m, id, c)
    {
      ShallowHash(g[id], g[c]);
      assert HashMaps.Entry(Hash(g[c]), c) in es;
      var k :| 0 <= k < |cands| && cands[k] == c;
    }
  }

  /** A struct that no candidate matched becomes canonical. */
  lemma StructAlone(g: Graph, exact: bool, m: seq<nat>, es: Candidates, id: Id, cands: seq<Id>)
    requires Sound(g, exact, m) && Staged(g, m) && TableInv(g, exact, m, es) && g[0].body.Void?
    requires id < |g| && g[id].body.Composite? && Tidy(g, exact, m)
    requires forall c :: HashMaps.Entry(Hash(g[id]), c) in es ==> c in cands
    requires NoneMatches(g, m, id, cands, |cands|)
    ensures Unmatched(g, m, id) && Tidy(g, exact, m[id := id])
  {
    hide Unmatched, Tight, NoClash;
    AllTurnedDown(g, exact, m, es, id, cands);
    if exact { TightSelf(g, m, id); } else { NoClashChosenStruct(g, m, id); }
  }

  lemma NoClashChosenStruct(g: Graph, m: seq<nat>, id: Id)
    requires id < |g| && g[id].body.Composite? && NoClash(g, m)
    ensures NoClash(g, m[id := id])
  {
  }

  /** A struct that a candidate matched is linked to it, after the merge. */
  lemma StructLinked(g: Graph, exact: bool, m: seq<nat>, now: seq<nat>, es: Candidates, id: Id, y: Id)
    requires MapInv(g, exact, m, es) && Sound(g, exact, now) && Relinked(g, exact, m, now)
    requires id < |g| && g[id].body.Composite? && !Mapped(m, id) && Tidy(g, exact, m)
    requires Anchored(g, exact, m, y) && g[y].body.Composite? && Same(g, exact, id, y)
    ensures y != id && Sound(g, exact, now[id := y]) && TableInv(g, exact, now, es) && NotFiled(es, id)
    ensures Tidy(g, exact, now[id := y])
  {
    hide Sound, TableInv, NotFiled, Tidy;
    StructChosen(g, exact, m, now, es, id, y);
    TidyRelinked(g, exact, m, now, id, y);
  }

  lemma TightSelf(g: Graph, m: seq<nat>, id: Id)
    requires Sound(g, true, m) && Staged(g, m) && NoDuplicates(g, m) && g[0].body.Void? && Tight(g, m)
    requires id < |g| && g[id].body.Composite? && Unmatched(g, m, id)
    ensures Tight(g, m[id := id])
  {
    var now := m[id := id];
    forall a, b | 0 < a < |g| && 0 < b < |g| && now[a] == a && now[b] == b && Twins(g, a, b) ensures a == b {
      if a != b { PairedMatches(g, m, id, if a == id then b else a); }
    }
  }

  /** When no struct becomes canonical, no twins do. */
  lemma TightLess(g: Graph, m: seq<nat>, now: seq<nat>)
    requires Tight(g, m) && |now| == |m|
    requires forall a :: 0 < a < |g| && g[a].body.Composite? && now[a] == a ==> m[a] == a
    ensures Tight(g, now)
  {
  }

  lemma TidyLess(g: Graph, exact: bool, m: seq<nat>, now: seq<nat>)
    requires Tidy(g, exact, m) && |now| == |m|
    requires forall a :: 0 < a < |g| && (g[a].body.Composite? || g[a].body.Enum?) && now[a] == a ==> m[a] == a
    ensures Tidy(g, exact, now)
  {
    if exact { TightLess(g, m, now); }
  }

  lemma TidyRelinked(g: Graph, exact: bool, m: seq<nat>, now: seq<nat>, id: Id, y: Id)
    requires Tidy(g, exact, m) && Relinked(g, exact, m, now) && id < |g| && y != id
    ensures Tidy(g, exact, now[id := y])
  {
    forall a | 0 < a < |g| ensures now[a] == a ==> m[a] == a {
      assert now[a] == m[a] || RelinkedAt(g, exact, m, now, a);
    }
    TidyLess(g, exact, m, now[id := y]);
  }

  /** Settling a reference makes no struct and no enum canonical. */
  lemma TidySettled(orig: Graph, g: Graph, exact: bool, m: seq<nat>, x: Id, y: Id)
    requires Closed(orig) && Rewritten(orig, g, exact) && x < |g| && IsReference(g[x])
    ensures Tidy(orig, exact, m) ==> Tidy(orig, exact, m[x := y])
  {
    assert RewrittenAt(orig, orig[x], g[x], exact);
    assert KindOf(Label(orig[x])) == KindOf(orig[x]) && KindOf(Label(g[x])) == KindOf(g[x]);
    if Tidy(orig, exact, m) { TidyLess(orig, exact, m, m[x := y]); }
  }
}
