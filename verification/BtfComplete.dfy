/** When deduplication without forward resolution is complete: ids that mean the
    same end as one. */
module BtfComplete {
  import opened Basics
  import opened BtfTypes
  import opened BtfMeaning
  import opened IdForest
  import opened BtfEquivalence
  import opened BtfCanon
  import opened BtfTwins
  import opened BtfRefPass
  import opened BtfFinal

  /** All that means the same as the struct can be paired one to one. */
  ghost predicate Mergeable(g: Graph, i: Id)
    requires Closed(g)
  {
    i < |g| && g[i].body.Composite? &&
    forall a: Id, b: Id :: Same(g, true, a, i) && Same(g, true, b, i) ==> Twins(g, a, b)
  }

  ghost predicate AllMergeable(g: Graph)
    requires Closed(g)
  {
    forall i: Id :: i < |g| && g[i].body.Composite? ==> Mergeable(g, i)
  }

  /** The type field of forward declarations is zero, as it should be. */
  predicate PlainFwds(g: Graph) {
    forall i :: 0 <= i < |g| && g[i].body.Fwd? ==> g[i].body.fwdType == 0
  }

  /** Such structs end as one. */
  lemma MergeableMerged(orig: Graph, m: seq<nat>, i: Id, j: Id)
    requires Sound(orig, true, m) && Tight(orig, m) && Resolved(m) && orig[0].body.Void?
    requires Mergeable(orig, i) && Same(orig, true, i, j)
    ensures FinalId(m, i) == FinalId(m, j)
  {
    var c, d := Root(m, i), Root(m, j);
    RootMeans(orig, true, m, i, i);
    SameSym(orig, true, i, j);
    RootMeans(orig, true, m, j, i);
    RootCanonical(m, i);
    RootCanonical(m, j);
    assert Twins(orig, c, d);
  }

  /** A root means whatever its id does. */
  lemma RootMeans(orig: Graph, exact: bool, m: seq<nat>, i: Id, j: Id)
    requires Sound(orig, exact, m) && i < |orig| && Same(orig, exact, i, j)
    ensures Same(orig, exact, Root(m, i), j)
  {
    RootSame(orig, exact, m, i);
    SameSym(orig, exact, i, Root(m, i));
    SameTrans(orig, exact, Root(m, i), i, j);
  }

  // ----- canonical ids -----

  ghost predicate Completable(orig: Graph)
    requires Closed(orig)
  {
    AllMergeable(orig) && PlainFwds(orig) && TameGraph(orig) && orig[0].body.Void?
  }

  /** Canonical ids that mean the same are one id: by twins for structs, by equality
      for simple kinds, and by what they refer to for reference kinds. */
  lemma {:induction false} CanonicalUnique(orig: Graph, g: Graph, m: seq<nat>, c: Id, d: Id, n: nat)
    requires SolvedMap(orig, g, true, m) && Closed(orig) && Completable(orig)
    requires c < |orig| && !VarLike(orig[c]) && m[c] == c && d < |orig| && m[d] == d
    requires Shallow(orig, c, n) && Same(orig, true, c, d)
    ensures c == d
    decreases n
  {
    hide SolvedMap, AllMergeable, PlainFwds, Same, TameGraph, Label, KindOf, Refs, Closed;
    SolvedFacts(orig, g, m, c, d);
    if IsReference(orig[c]) {
      forall k | 0 <= k < |Refs(g[c])| ensures Refs(g[c])[k] == Refs(g[d])[k] {
        var x, y := Refs(g[c])[k], Refs(g[d])[k];
        ReferencesSame(orig, g, m, c, d, k);
        ShallowSame(orig, true, Refs(orig[c])[k], x, n - 1);
        CanonicalUnique(orig, g, m, x, y, n - 1);
      }
      ReferencesEqual(orig, g, m, c, d);
    }
  }

  /** The kinds that need no induction. */
  lemma SolvedFacts(orig: Graph, g: Graph, m: seq<nat>, c: Id, d: Id)
    requires SolvedMap(orig, g, true, m) && Closed(orig) && Completable(orig)
    requires c < |orig| && !VarLike(orig[c]) && m[c] == c && d < |orig| && m[d] == d && Same(orig, true, c, d)
    ensures |g| == |orig| == |m| && |Refs(g[c])| == |Refs(g[d])|
    ensures !IsReference(orig[c]) ==> c == d
    ensures IsReference(orig[c]) ==> IsReference(orig[d])
  {
    SolvedVoid(orig, g, true, m);
    SameShape(orig, true, c, d);
    KindsKept(orig, g, c);
    KindsKept(orig, g, d);
    if orig[c].body.Void? {
      VoidPair(orig, c, d);
    } else if orig[c].body.Composite? {
      SameSym(orig, true, c, d);
      SameRefl(orig, true, c);
      assert Mergeable(orig, c);
      assert Twins(orig, c, d);
    } else if !IsReference(orig[c]) {
      SimpleKept(orig, g, c);
      SimpleKept(orig, g, d);
    }
  }

  lemma SameRefl(g: Graph, exact: bool, i: Id)
    requires Closed(g) && i < |g|
    ensures Same(g, exact, i, i)
  {
  }

  lemma SameTrans(g: Graph, exact: bool, a: Id, b: Id, c: Id)
    requires Closed(g) && Same(g, exact, a, b) && Same(g, exact, b, c)
    ensures Same(g, exact, a, c)
  {
    forall n: nat ensures Unfold(g, exact, a, n) == Unfold(g, exact, c, n) {
      assert Unfold(g, exact, a, n) == Unfold(g, exact, b, n);
    }
  }

  lemma LabelKind(t: Type, t': Type)
    requires Label(t) == Label(t')
    ensures KindOf(t) == KindOf(t') && |Refs(t)| == |Refs(t')|
  {
    LabelDecidesShape(t, t', true);
    assert KindOf(Label(t)) == KindOf(t) && KindOf(Label(t')) == KindOf(t');
  }

  lemma KindsKept(orig: Graph, g: Graph, c: Id)
    requires Closed(orig) && Rewritten(orig, g, true) && c < |orig|
    ensures Label(g[c]) == Label(orig[c]) && KindOf(g[c]) == KindOf(orig[c]) && |Refs(g[c])| == |Refs(orig[c])|
  {
    assert RewrittenAt(orig, orig[c], g[c], true);
    LabelKind(g[c], orig[c]);
  }

  /** Simple descriptors are as they were. */
  lemma SimpleKept(orig: Graph, g: Graph, c: Id)
    requires Closed(orig) && Rewritten(orig, g, true) && c < |orig| && Simple(orig[c])
    requires orig[0].body.Void? && NoVoid(orig)
    ensures g[c] == orig[c]
  {
    KindsKept(orig, g, c);
    if orig[c].body.Fwd? {
      assert RewrittenAt(orig, orig[c], g[c], true);
      SameSym(orig, true, Refs(g[c])[0], 0);
      VoidOnly(orig, true, Refs(g[c])[0]);
    }
    LabelAndRefs(g[c], orig[c]);
  }

  /** The references of a canonical reference descriptor are canonical and mean
      what they meant. */
  lemma ReferenceMeans(orig: Graph, g: Graph, m: seq<nat>, c: Id, k: nat)
    requires SolvedMap(orig, g, true, m) && c < |orig| && m[c] == c && IsReference(orig[c]) && k < |Refs(g[c])|
    ensures k < |Refs(orig[c])| && Refs(orig[c])[k] < |orig|
    ensures Refs(g[c])[k] < |orig| == |m| && m[Refs(g[c])[k]] == Refs(g[c])[k]
    ensures Same(orig, true, Refs(g[c])[k], Refs(orig[c])[k])
  {
    hide Label, Tight, Same, NoDuplicates, KeepsMeaning, Forest, RefStage, RewrittenAt, KindOf, Refs;
    RewrittenReference(orig, g, c, k);
    StagedReference(g, m, c, k);
  }

  lemma RewrittenReference(orig: Graph, g: Graph, c: Id, k: nat)
    requires Closed(orig) && Rewritten(orig, g, true) && c < |orig| && k < |Refs(g[c])|
    ensures k < |Refs(orig[c])| && Refs(orig[c])[k] < |orig|
    ensures IsReference(g[c]) <==> IsReference(orig[c])
    ensures Same(orig, true, Refs(g[c])[k], Refs(orig[c])[k])
  {
    KindsKept(orig, g, c);
    assert RewrittenAt(orig, orig[c], g[c], true);
    hide Label, Same;
  }

  lemma StagedReference(g: Graph, m: seq<nat>, c: Id, k: nat)
    requires RefStage(g, m) && c < |g| && IsReference(g[c]) && Mapped(m, c) && k < |Refs(g[c])|
    ensures Refs(g[c])[k] < |m| && m[Refs(g[c])[k]] == Refs(g[c])[k]
  {
    assert RefStageAt(g, m, c);
  }

  /** Those of two that mean the same pairwise mean the same. */
  lemma ReferencesSame(orig: Graph, g: Graph, m: seq<nat>, c: Id, d: Id, k: nat)
    requires SolvedMap(orig, g, true, m) && Closed(orig) && TameGraph(orig) && |g| == |orig| == |m|
    requires c < |orig| && !VarLike(orig[c]) && m[c] == c && d < |orig| && m[d] == d && Same(orig, true, c, d)
    requires IsReference(orig[c]) && IsReference(orig[d]) && k < |Refs(g[c])| == |Refs(g[d])|
    ensures k < |Refs(orig[c])| && Refs(g[c])[k] < |orig| && Refs(g[d])[k] < |orig|
    ensures m[Refs(g[c])[k]] == Refs(g[c])[k] && m[Refs(g[d])[k]] == Refs(g[d])[k]
    ensures Same(orig, true, Refs(orig[c])[k], Refs(g[c])[k]) && Same(orig, true, Refs(g[c])[k], Refs(g[d])[k])
    ensures !VarLike(orig[Refs(g[c])[k]])
  {
    hide Same, SolvedMap, Closed, TameGraph, ShapeOf, KindOf, Label;
    ReferenceMeans(orig, g, m, c, k);
    ReferenceMeans(orig, g, m, d, k);
    var x, y, r, r' := Refs(g[c])[k], Refs(g[d])[k], Refs(orig[c])[k], Refs(orig[d])[k];
    RefsAreKids(orig[c]);
    RefsAreKids(orig[d]);
    hide Kids;
    SameKids(orig, true, c, d, k);
    SameTrans(orig, true, x, r, r');
    SameSym(orig, true, y, r');
    SameTrans(orig, true, x, r', y);
    SameSym(orig, true, x, r);
    TameTarget(orig, c, k);
    SameShape(orig, true, x, r);
    ShapeKind(orig[x], orig[r]);
  }

  lemma RefsAreKids(t: Type)
    ensures Kids(t, true) == Refs(t)
  {
  }

  lemma TameTarget(g: Graph, i: Id, k: nat)
    requires TameGraph(g) && i < |g| && !VarLike(g[i]) && k < |Refs(g[i])|
    ensures Refs(g[i])[k] < |g| && !VarLike(g[Refs(g[i])[k]])
  {
    assert TameRef(g, i, k);
  }

  lemma ShapeKind(t: Type, t': Type)
    requires ShapeOf(t, true) == ShapeOf(t', true)
    ensures KindOf(t) == KindOf(t') && (VarLike(t) <==> VarLike(t'))
  {
    LabelKind(t, t');
  }

  lemma ReferencesEqual(orig: Graph, g: Graph, m: seq<nat>, c: Id, d: Id)
    requires SolvedMap(orig, g, true, m) && orig[0].body.Void?
    requires c < |orig| && m[c] == c && d < |orig| && m[d] == d && Same(orig, true, c, d) && IsReference(orig[c])
    requires |Refs(g[c])| == |Refs(g[d])| && forall k :: 0 <= k < |Refs(g[c])| ==> Refs(g[c])[k] == Refs(g[d])[k]
    ensures c == d
  {
    SameShape(orig, true, c, d);
    LabelKind(orig[c], orig[d]);
    KindsKept(orig, g, c);
    KindsKept(orig, g, d);
    hide Label, RefStage, Tight;
    LabelAndRefs(g[c], g[d]);
  }

  lemma VoidPair(orig: Graph, c: Id, d: Id)
    requires NoVoid(orig) && c < |orig| && d < |orig| && orig[c].body.Void? && Label(orig[c]) == Label(orig[d])
    ensures c == d
  {
    assert KindOf(Label(orig[c])) == KindOf(orig[c]) && KindOf(Label(orig[d])) == KindOf(orig[d]);
  }

  // ----- all ids -----

  /** Ids end as one exactly if they mean the same. */
  ghost predicate Merged(orig: Graph, m: seq<nat>)
    requires Closed(orig) && Resolved(m) && |m| == |orig|
  {
    forall i: Id, j: Id :: i < |orig| && j < |orig| && !VarLike(orig[i]) ==>
      (Same(orig, true, i, j) <==> FinalId(m, i) == FinalId(m, j))
  }

  /** What is promised beyond the result meaning the same: structs of which all
      that mean the same can be paired end as one; and if that is so for every
      struct, everything that means the same ends as one. */
  ghost predicate CompletedBy(orig: Graph, m: seq<nat>) {
    && Closed(orig) && Resolved(m) && |m| == |orig|
    && (forall i: Id, j: Id :: Mergeable(orig, i) && Same(orig, true, i, j) ==> FinalId(m, i) == FinalId(m, j))
    && (Completable(orig) && Acyclic(orig) ==> Merged(orig, m))
  }

  lemma AllCompleted(orig: Graph, g: Graph, m: seq<nat>)
    requires SolvedMap(orig, g, true, m)
    ensures CompletedBy(orig, m)
  {
    SolvedVoid(orig, g, true, m);
    SolvedResolves(orig, g, true, m);
    forall i: Id, j: Id | Mergeable(orig, i) && Same(orig, true, i, j) ensures FinalId(m, i) == FinalId(m, j) {
      MergeableMerged(orig, m, i, j);
    }
    if Completable(orig) && Acyclic(orig) {
      forall i: Id, j: Id | i < |orig| && j < |orig| && !VarLike(orig[i])
        ensures Same(orig, true, i, j) <==> FinalId(m, i) == FinalId(m, j)
      {
        hide SolvedMap, Completable, Acyclic, Same, Resolved, FinalId;
        if Same(orig, true, i, j) { SameMerged(orig, g, m, i, j); }
        if FinalId(m, i) == FinalId(m, j) { MergedSame(orig, g, m, i, j); }
      }
    }
  }

  lemma SameMerged(orig: Graph, g: Graph, m: seq<nat>, i: Id, j: Id)
    requires SolvedMap(orig, g, true, m) && Closed(orig) && Resolved(m) && |m| == |orig|
    requires Completable(orig) && Acyclic(orig) && i < |orig| && !VarLike(orig[i]) && Same(orig, true, i, j)
    ensures FinalId(m, i) == FinalId(m, j)
  {
    var c, d := Root(m, i), Root(m, j);
    RootCanonical(m, i);
    RootCanonical(m, j);
    RootMeans(orig, true, m, i, j);
    SameRefl(orig, true, j);
    RootMeans(orig, true, m, j, j);
    SameSym(orig, true, d, j);
    SameTrans(orig, true, c, j, d);
    RootSame(orig, true, m, i);
    SameShape(orig, true, i, c);
    ShapeKind(orig[i], orig[c]);
    hide SolvedMap, Completable, Same, Resolved, Label;
    assert HasDepth(orig, c);
    var n: nat :| Shallow(orig, c, n);
    CanonicalUnique(orig, g, m, c, d, n);
  }

  lemma MergedSame(orig: Graph, g: Graph, m: seq<nat>, i: Id, j: Id)
    requires SolvedMap(orig, g, true, m) && Closed(orig) && Resolved(m) && |m| == |orig|
    requires i < |orig| && j < |orig| && FinalId(m, i) == FinalId(m, j)
    ensures Same(orig, true, i, j)
  {
    RootCanonical(m, i);
    RootCanonical(m, j);
    var c, d := Root(m, i), Root(m, j);
    if c < d { NewIdIncreases(m, c, d); }
    if d < c { NewIdIncreases(m, d, c); }
    RootSame(orig, true, m, i);
    RootSame(orig, true, m, j);
    SameSym(orig, true, j, d);
    SameTrans(orig, true, i, c, j);
  }

  // ----- how many types are left -----

  /** Every type but void is one of `reps`, or means the same as one of them. */
  ghost predicate Spanned(orig: Graph, reps: set<Id>)
    requires Closed(orig)
  {
    forall i: Id :: 0 < i < |orig| ==> Spans(orig, reps, i)
  }

  ghost predicate Spans(orig: Graph, reps: set<Id>, i: Id)
    requires Closed(orig) && i < |orig|
  {
    exists r: Id :: r in reps && Covers(orig, r, i)
  }

  ghost predicate Covers(orig: Graph, r: Id, i: Id)
    requires Closed(orig) && i < |orig|
  {
    r < |orig| && (r == i || (!VarLike(orig[i]) && Same(orig, true, i, r)))
  }

  /** Then no more types are left than that. */
  lemma FewTypes(orig: Graph, m: seq<nat>, reps: set<Id>)
    requires Closed(orig) && Resolved(m) && |m| == |orig| && Merged(orig, m) && Spanned(orig, reps)
    ensures CanonCount(m, |m|) <= |reps|
  {
    var inside := set r | r in reps && r < |m|;
    var finals := set r | r in inside :: FinalId(m, r);
    ImageSize(m, inside);
    SubsetSize(inside, reps);
    var n := CanonCount(m, |m|);
    forall k | k in UpTo(n) ensures k in finals {
      var c := NewIdOnto(m, |m|, k);
      assert Spans(orig, reps, c);
      var r: Id :| r in reps && Covers(orig, r, c);
      RootStepCanonical(m, c);
      assert FinalId(m, r) == FinalId(m, c) == k;
      assert r in inside;
    }
    SubsetSize(UpTo(n), finals);
  }

  lemma FewTypesLeft(orig: Graph, exact: bool, m: seq<nat>, f: Graph)
    requires CompletedBy(orig, m) && Deduplicated(orig, exact, m, f) && Completable(orig) && Acyclic(orig)
    ensures forall reps: set<Id> :: Spanned(orig, reps) ==> |f| - 1 <= |reps|
  {
    hide Merged, Completable, Acyclic, Spanned, CanonCount;
    forall reps: set<Id> | Spanned(orig, reps) ensures |f| - 1 <= |reps| {
      FewTypes(orig, m, reps);
    }
  }

  lemma RootStepCanonical(m: seq<nat>, c: Id)
    requires Resolved(m) && c < |m| && m[c] == c
    ensures Root(m, c) == c
  {
    RootStep(m, c);
  }

  lemma {:induction false} ImageSize(m: seq<nat>, s: set<Id>)
    requires Resolved(m) && forall r :: r in s ==> r < |m|
    ensures |(set r | r in s :: FinalId(m, r))| <= |s|
    decreases |s|
  {
    if s != {} {
      var x :| x in s;
      ImageSize(m, s - {x});
      assert (set r | r in s :: FinalId(m, r)) == (set r | r in s - {x} :: FinalId(m, r)) + {FinalId(m, x)};
    }
  }

  ghost function UpTo(n: nat): (r: set<nat>)
    ensures |r| == n && forall k :: k in r <==> 1 <= k <= n
  {
    if n == 0 then {} else UpTo(n - 1) + {n}
  }

  // ----- graphs that can be merged completely -----

  /** A struct whose members are ints, enums or forward declarations. */
  predicate Flat(g: Graph, i: Id) {
    i < |g| && g[i].body.Composite? &&
    forall k :: 0 <= k < |Refs(g[i])| ==> Refs(g[i])[k] < |g| && Simple(g[Refs(g[i])[k]])
  }

  /** What means the same as a flat struct has equal members. */
  lemma FlatSame(g: Graph, i: Id, j: Id)
    requires Closed(g) && g[0].body.Void? && NoVoid(g) && Flat(g, i) && Same(g, true, i, j)
    ensures Flat(g, j) && Label(g[i]) == Label(g[j]) && |Refs(g[i])| == |Refs(g[j])|
    ensures forall k :: 0 <= k < |Refs(g[i])| ==> g[Refs(g[i])[k]] == g[Refs(g[j])[k]]
  {
    SameShape(g, true, i, j);
    LabelKind(g[i], g[j]);
    forall k | 0 <= k < |Refs(g[i])| ensures Refs(g[j])[k] < |g| && g[Refs(g[i])[k]] == g[Refs(g[j])[k]] {
      SameKids(g, true, i, j, k);
      SimpleSame(g, Refs(g[i])[k], Refs(g[j])[k]);
    }
  }

  /** Flat structs are merged completely. */
  lemma FlatMergeable(g: Graph, i: Id)
    requires Closed(g) && g[0].body.Void? && NoVoid(g) && Flat(g, i)
    ensures Mergeable(g, i)
  {
    forall a: Id, b: Id | Same(g, true, a, i) && Same(g, true, b, i) ensures Twins(g, a, b) {
      SameSym(g, true, a, i);
      SameSym(g, true, b, i);
      FlatSame(g, i, a);
      FlatSame(g, i, b);
      FlatPaired(g, a, b);
      FlatPaired(g, b, a);
    }
  }

  lemma FlatPaired(g: Graph, a: Id, b: Id)
    requires Closed(g) && Flat(g, a) && Flat(g, b) && Label(g[a]) == Label(g[b]) && |Refs(g[a])| == |Refs(g[b])|
    requires forall k :: 0 <= k < |Refs(g[a])| ==> g[Refs(g[a])[k]] == g[Refs(g[b])[k]]
    ensures Paired(g, a, b)
  {
    var phi := seq(|g|, _ => UNPROCESSED)[b := a];
    hide Label;
    assert DirectAt(g, phi, b);
    assert PairsUp(g, phi, a, b);
  }

  /** `copy` turns the graph into itself: every type has a copy that says the same
      about the copies of what it refers to. */
  ghost predicate Copies(g: Graph, copy: seq<Id>) {
    && |copy| == |g| <= MAX_NR_TYPES + 1
    && forall i: Id :: i < |g| ==> CopiedAt(g, copy, i)
  }

  ghost predicate CopiedAt(g: Graph, copy: seq<Id>, i: Id)
    requires |copy| == |g| && i < |g|
  {
    && copy[i] < |g| && copy[copy[i]] == i
    && Label(g[copy[i]]) == Label(g[i]) && |Refs(g[copy[i]])| == |Refs(g[i])| && (g[i].body.Fwd? ==> g[copy[i]] == g[i])
    && forall k :: 0 <= k < |Refs(g[i])| ==> Refs(g[i])[k] < |g| && Refs(g[copy[i]])[k] == copy[Refs(g[i])[k]]
  }

  /** And nothing else means the same. */
  ghost predicate OnlyCopies(g: Graph, copy: seq<Id>)
    requires Closed(g) && |copy| == |g|
  {
    forall i: Id, j: Id :: i < |g| && Same(g, true, i, j) ==> j == i || j == copy[i]
  }

  /** A graph that holds every type twice, cycles included, is merged completely. */
  lemma CopiesMergeable(g: Graph, copy: seq<Id>)
    requires Closed(g) && Copies(g, copy) && OnlyCopies(g, copy)
    ensures AllMergeable(g)
  {
    hide Same, Paired, Copies, OnlyCopies, Closed;
    forall i: Id, a: Id, b: Id
      | i < |g| && g[i].body.Composite? && Same(g, true, a, i) && Same(g, true, b, i)
      ensures Twins(g, a, b)
    {
      OnlyCopy(g, copy, i, a);
      OnlyCopy(g, copy, i, b);
      CopyPaired(g, copy, a, b);
      CopyPaired(g, copy, b, a);
    }
  }

  lemma OnlyCopy(g: Graph, copy: seq<Id>, i: Id, a: Id)
    requires Closed(g) && Copies(g, copy) && OnlyCopies(g, copy)
    requires i < |g| && g[i].body.Composite? && Same(g, true, a, i)
    ensures i < |copy| == |g| && copy[i] < |g| && a < |g| && g[a].body.Composite?
    ensures (a == i || a == copy[i]) && copy[copy[i]] == i
  {
    hide ShapeOf, Label, Unfold;
    SameSym(g, true, a, i);
    SameShape(g, true, i, a);
    ShapeKind(g[i], g[a]);
    assert CopiedAt(g, copy, i);
  }

  lemma CopyPaired(g: Graph, copy: seq<Id>, a: Id, b: Id)
    requires Closed(g) && Copies(g, copy) && a < |g| && b < |g| && g[b].body.Composite? && (a == b || a == copy[b])
    ensures Paired(g, a, b)
  {
    hide Label;
    if a == b {
      var phi := seq(|g|, _ => UNPROCESSED)[b := b];
      assert DirectAt(g, phi, b);
      assert PairsUp(g, phi, a, b);
    } else {
      forall c | 0 <= c < |copy| ensures DirectAt(g, copy, c) {
        assert CopiedAt(g, copy, c);
      }
      assert PairsUp(g, copy, a, b);
    }
  }

  /** Copies mean the same. */
  lemma CopiesSame(g: Graph, copy: seq<Id>, i: Id)
    requires Closed(g) && Copies(g, copy) && i < |g| == |copy|
    ensures copy[i] < |g| && Same(g, true, i, copy[i])
  {
    hide Copies, Refs, Kids, ShapeOf;
    var r: iset<(Id, Id)> := iset j: Id | j < |g| :: (j, copy[j]);
    forall p | p in r ensures BisimilarPair(g, g, true, r, p.0, p.1) {
      CopyShape(g, copy, p.0);
      forall k | 0 <= k < |Kids(g[p.0], true)| ensures (Kids(g[p.0], true)[k], Kids(g[p.1], true)[k]) in r {
      }
    }
    CopyShape(g, copy, i);
    assert Bisimulation(g, g, true, r) && (i, copy[i]) in r;
    SameIffBisimilar(g, i, g, copy[i], true);
  }

  lemma CopyShape(g: Graph, copy: seq<Id>, i: Id)
    requires |copy| == |g| && Copies(g, copy) && i < |g|
    ensures copy[i] < |g|
    ensures ShapeOf(g[copy[i]], true) == ShapeOf(g[i], true) && |Kids(g[copy[i]], true)| == |Kids(g[i], true)|
    ensures forall k :: 0 <= k < |Kids(g[i], true)| ==>
      Kids(g[i], true)[k] < |g| && copy[Kids(g[i], true)[k]] < |g| &&
      Kids(g[copy[i]], true)[k] == copy[Kids(g[i], true)[k]]
  {
    assert CopiedAt(g, copy, i);
    hide Label;
    forall k | 0 <= k < |Refs(g[i])| ensures copy[Refs(g[i])[k]] < |g| {
      assert CopiedAt(g, copy, Refs(g[i])[k]);
    }
  }

  /** So if no type but void is its own copy, at most half of the types are left. */
  lemma HalfLeft(orig: Graph, m: seq<nat>, copy: seq<Id>)
    requires Closed(orig) && Resolved(m) && |m| == |orig| && Merged(orig, m) && Copies(orig, copy)
    requires copy[0] == 0 && forall i :: 0 < i < |orig| ==> copy[i] != i && !VarLike(orig[i])
    ensures 2 * CanonCount(m, |m|) <= |orig| - 1
  {
    var low := set i | 0 < i < |orig| && i < copy[i];
    var high := set i | 0 < i < |orig| && copy[i] < i;
    forall i: Id | 0 < i < |orig| ensures Spans(orig, low, i) && Spans(orig, high, i) {
      assert CopiedAt(orig, copy, i) && CopiedAt(orig, copy, 0);
      CopiesSame(orig, copy, i);
      assert Covers(orig, i, i) && Covers(orig, copy[i], i);
    }
    FewTypes(orig, m, low);
    FewTypes(orig, m, high);
    TwoHalves(|orig|, low, high);
  }

  lemma TwoHalves(n: nat, low: set<Id>, high: set<Id>)
    requires n > 0 && low !! high && forall i :: i in low + high ==> 0 < i < n
    ensures |low| + |high| <= n - 1
  {
    assert low + high <= UpTo(n - 1);
    SubsetSize(low + high, UpTo(n - 1));
  }

  // ----- what the check accepts, and what it misses -----

  /** Nothing was recorded before: whatever the check accepts matches. With
      `BtfDedup.Dedup.IsEquiv` it accepts exactly what matches. */
  lemma AcceptedMatches(g: Graph, m: seq<nat>, h0: seq<nat>, h: seq<nat>, cand: Id, canon: Id)
    requires Forest(m) && |m| == |g| == |h| == |h0| && PlainFwds(g) && forall c :: 0 <= c < |h0| ==> !Recorded(h0, c)
    requires JustifiedSince(g, true, m, h0, h) && Linked(g, m, h, cand, canon)
    ensures Matches(g, m, cand, canon)
  {
    hide Linked, Label;
    forall c | 0 <= c < |h| && Recorded(h, c) ensures MatchedAt(g, m, h, c) {
      assert Justified(g, true, m, h, c);
      if g[c].body.Fwd? { PlainFwdsEqual(g, c, h[c]); }
    }
    assert Pairs(g, m, h, cand, canon);
  }

  lemma PlainFwdsEqual(g: Graph, i: Id, j: Id)
    requires PlainFwds(g) && i < |g| && j < |g| && Label(g[i]) == Label(g[j]) && g[i].body.Fwd?
    ensures g[i] == g[j]
  {
    LabelKind(g[i], g[j]);
    LabelAndRefs(g[i], g[j]);
  }

  /** Two structs of two pointers to an int: 5 has one pointer type twice, 6 has two. */
  function PointerStructs(): Graph {
    var ptr := Type(0, false, Ref(Ptr, 0, 1));
    [ Type(0, false, Void), Type(1, false, Int(0, 4, 0)), ptr, ptr, ptr,
      Type(2, false, Composite(false, 16, [Member(3, 2, 0), Member(4, 2, 64)])),
      Type(2, false, Composite(false, 16, [Member(3, 3, 0), Member(4, 4, 64)])) ]
  }

  /** They mean the same, but the second does not match the first, because one
      pointer would need two partners; the first would match the second. */
  lemma PointersApart(m: seq<nat>)
    requires Forest(m) && |m| == 7 && m[2] == UNPROCESSED && m[3] == UNPROCESSED && m[4] == UNPROCESSED
    requires m[5] == 5 && m[6] == UNPROCESSED
    ensures Closed(PointerStructs()) && Same(PointerStructs(), true, 5, 6)
    ensures !Matches(PointerStructs(), m, 6, 5) && Matches(PointerStructs(), m, 5, 6)
  {
    PointersSame();
    PointerRoots(m);
    SecondTurnedDown(m);
    FirstAccepted(m);
  }

  lemma PointerRoots(m: seq<nat>)
    requires Forest(m) && |m| == 7 && m[5] == 5
    requires m[2] == UNPROCESSED && m[3] == UNPROCESSED && m[4] == UNPROCESSED && m[6] == UNPROCESSED
    ensures forall i :: 2 <= i < 7 ==> Root(m, i) == i && FwdRoot(PointerStructs(), m, i) == i
  {
    forall i | 2 <= i < 7 ensures Root(m, i) == i && FwdRoot(PointerStructs(), m, i) == i {
      RootStep(m, i);
    }
  }

  lemma SecondTurnedDown(m: seq<nat>)
    requires Forest(m) && |m| == 7
    requires forall i :: 2 <= i < 7 ==> Root(m, i) == i && FwdRoot(PointerStructs(), m, i) == i
    ensures !Matches(PointerStructs(), m, 6, 5)
  {
    var g := PointerStructs();
    hide Root, FwdRoot, Label;
    assert Refs(g[5])[0] == 2 && Refs(g[5])[1] == 2 && Refs(g[6])[0] == 3 && Refs(g[6])[1] == 4;
    forall phi: seq<nat> ensures !Pairs(g, m, phi, 6, 5) {
      if |phi| == 7 && phi[5] == 6 { assert !MatchedAt(g, m, phi, 5); }
    }
  }

  lemma FirstAccepted(m: seq<nat>)
    requires Forest(m) && |m| == 7
    requires forall i :: 2 <= i < 7 ==> Root(m, i) == i && FwdRoot(PointerStructs(), m, i) == i
    ensures Matches(PointerStructs(), m, 5, 6)
  {
    var g := PointerStructs();
    hide Root, FwdRoot;
    var phi := [UNPROCESSED, UNPROCESSED, UNPROCESSED, 2, 2, UNPROCESSED, 5];
    assert Refs(g[5]) == [2, 2] && Refs(g[6]) == [3, 4] && Refs(g[2]) == [1] && Refs(g[3]) == [1];
    assert Label(g[5]) == Label(g[6]) by { PointersSame(); SameShape(g, true, 5, 6); }
    assert MatchedAt(g, m, phi, 6);
    assert MatchedAt(g, m, phi, 3) && MatchedAt(g, m, phi, 4);
    assert Pairs(g, m, phi, 5, 6);
  }

  lemma PointersSame()
    ensures Closed(PointerStructs()) && Same(PointerStructs(), true, 5, 6)
  {
    var g := PointerStructs();
    assert Closed(g);
    SameWhenEqual(g, true, 2, 3);
    SameWhenEqual(g, true, 2, 4);
    SameFromKids(g, true, 5, 6);
  }
}
