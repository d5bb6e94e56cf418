/** What a type id means: the infinite tree its graph unfolds to, cut off at
    every finite depth. Two ids with equal unfoldings at all depths describe
    bisimilar type graphs, cycles included. */
module BtfMeaning {
  import opened BtfTypes

  /** What an observer sees of one descriptor. In `exact` mode (forward
      declarations are not resolved) that is the whole descriptor except its
      references. Otherwise structs, unions and forward declarations are seen
      only as the C tag that names them, and enums without their values. */
  datatype Shape =
    | Full(desc: Type)
    | Tagged(isUnion: bool, name: nat)
    | EnumTag(name: nat, kflag: bool, size: nat)

  function ShapeOf(t: Type, exact: bool): Shape {
    if exact then Full(Label(t)) else
    match t.body
    case Composite(u, _, _) => Tagged(u, t.name)
    case Fwd(_, _) => Tagged(t.kflag, t.name)
    case Enum(s, _) => EnumTag(t.name, t.kflag, s)
    case _ => Full(Label(t))
  }

  /** The references an observer follows. */
  function Kids(t: Type, exact: bool): seq<Id> {
    if !exact && (t.body.Composite? || t.body.Fwd?) then [] else Refs(t)
  }

  datatype Tree = Cut | Node(shape: Shape, kids: seq<Tree>)

  /** Every reference stays inside the graph. */
  ghost predicate Closed(g: Graph) {
    && 0 < |g| <= MAX_NR_TYPES + 1
    && forall i, k :: 0 <= i < |g| && 0 <= k < |Refs(g[i])| ==> Refs(g[i])[k] < |g|
  }

  ghost function Unfold(g: Graph, exact: bool, i: Id, depth: nat): Tree
    requires Closed(g) && i < |g|
    decreases depth
  {
    if depth == 0 then Cut
    else
      var kids := Kids(g[i], exact);
      Node(ShapeOf(g[i], exact),
           seq(|kids|, k requires 0 <= k < |kids| => Unfold(g, exact, kids[k], depth - 1)))
  }

  /** `i` in `g` and `j` in `h` mean the same. */
  ghost predicate SameMeaning(g: Graph, i: Id, h: Graph, j: Id, exact: bool)
    requires Closed(g) && Closed(h)
  {
    i < |g| && j < |h| && forall n: nat :: Unfold(g, exact, i, n) == Unfold(h, exact, j, n)
  }

  ghost predicate Same(g: Graph, exact: bool, i: Id, j: Id)
    requires Closed(g)
  {
    SameMeaning(g, i, g, j, exact)
  }

  lemma UnfoldStep(g: Graph, i: Id, h: Graph, j: Id, exact: bool, n: nat)
    requires Closed(g) && Closed(h) && i < |g| && j < |h|
    requires ShapeOf(g[i], exact) == ShapeOf(h[j], exact)
    requires |Kids(g[i], exact)| == |Kids(h[j], exact)|
    requires forall k :: 0 <= k < |Kids(g[i], exact)| ==>
      Unfold(g, exact, Kids(g[i], exact)[k], n) == Unfold(h, exact, Kids(h[j], exact)[k], n)
    ensures Unfold(g, exact, i, n + 1) == Unfold(h, exact, j, n + 1)
  {
    assert Unfold(g, exact, i, n + 1).kids == Unfold(h, exact, j, n + 1).kids;
  }

  /** Ids that mean the same look the same. */
  lemma SameShape(g: Graph, exact: bool, i: Id, j: Id)
    requires Closed(g) && Same(g, exact, i, j)
    ensures ShapeOf(g[i], exact) == ShapeOf(g[j], exact)
  {
    assert Unfold(g, exact, i, 1) == Unfold(g, exact, j, 1);
  }

  /** Children of ids that mean the same mean the same. */
  lemma SameKids(g: Graph, exact: bool, i: Id, j: Id, k: nat)
    requires Closed(g) && Same(g, exact, i, j)
    requires k < |Kids(g[i], exact)|
    ensures |Kids(g[i], exact)| == |Kids(g[j], exact)|
    ensures Same(g, exact, Kids(g[i], exact)[k], Kids(g[j], exact)[k])
  {
    assert Unfold(g, exact, i, 1) == Unfold(g, exact, j, 1);
    forall n: nat
      ensures Unfold(g, exact, Kids(g[i], exact)[k], n) == Unfold(g, exact, Kids(g[j], exact)[k], n)
    {
      assert Unfold(g, exact, i, n + 1).kids[k] == Unfold(g, exact, j, n + 1).kids[k];
    }
  }

  /** Children that mean the same make parents of one shape mean the same. */
  lemma {:induction false} SameFromKids(g: Graph, exact: bool, i: Id, j: Id)
    requires Closed(g) && i < |g| && j < |g|
    requires ShapeOf(g[i], exact) == ShapeOf(g[j], exact)
    requires |Kids(g[i], exact)| == |Kids(g[j], exact)|
    requires forall k :: 0 <= k < |Kids(g[i], exact)| ==>
      Same(g, exact, Kids(g[i], exact)[k], Kids(g[j], exact)[k])
    ensures Same(g, exact, i, j)
  {
    forall n: nat ensures Unfold(g, exact, i, n) == Unfold(g, exact, j, n) {
      if n > 0 {
        UnfoldStep(g, i, g, j, exact, n - 1);
      }
    }
  }

  /** Two descriptors that compare equal mean the same. */
  lemma SameWhenEqual(g: Graph, exact: bool, i: Id, j: Id)
    requires Closed(g) && i < |g| && j < |g| && g[i] == g[j]
    ensures Same(g, exact, i, j)
  {
    SameFromKids(g, exact, i, j);
  }

  // ----- the same notion as a bisimulation -----

  /** Related ids look the same and so, pairwise, do the ids they reference. */
  ghost predicate Bisimulation(g: Graph, h: Graph, exact: bool, r: iset<(Id, Id)>) {
    forall p :: p in r ==> BisimilarPair(g, h, exact, r, p.0, p.1)
  }

  ghost predicate BisimilarPair(g: Graph, h: Graph, exact: bool, r: iset<(Id, Id)>, i: Id, j: Id) {
    && i < |g| && j < |h| && ShapeOf(g[i], exact) == ShapeOf(h[j], exact)
    && |Kids(g[i], exact)| == |Kids(h[j], exact)|
    && forall k :: 0 <= k < |Kids(g[i], exact)| ==> (Kids(g[i], exact)[k], Kids(h[j], exact)[k]) in r
  }

  ghost predicate UnfoldsAlike(g: Graph, h: Graph, exact: bool, r: iset<(Id, Id)>, n: nat)
    requires Closed(g) && Closed(h)
  {
    forall p :: p in r ==> PairUnfolds(g, h, exact, p.0, p.1, n)
  }

  ghost predicate PairUnfolds(g: Graph, h: Graph, exact: bool, i: Id, j: Id, n: nat)
    requires Closed(g) && Closed(h)
  {
    i < |g| && j < |h| && Unfold(g, exact, i, n) == Unfold(h, exact, j, n)
  }

  lemma BisimulationStep(g: Graph, h: Graph, exact: bool, r: iset<(Id, Id)>, i: Id, j: Id, n: nat)
    requires Closed(g) && Closed(h) && UnfoldsAlike(g, h, exact, r, n) && BisimilarPair(g, h, exact, r, i, j)
    ensures PairUnfolds(g, h, exact, i, j, n + 1)
  {
    var kids, kids' := Kids(g[i], exact), Kids(h[j], exact);
    forall k | 0 <= k < |kids| ensures Unfold(g, exact, kids[k], n) == Unfold(h, exact, kids'[k], n) {
      var p := (kids[k], kids'[k]);
      assert p in r && PairUnfolds(g, h, exact, p.0, p.1, n);
    }
    UnfoldStep(g, i, h, j, exact, n);
  }

  lemma BisimulationStart(g: Graph, h: Graph, exact: bool, r: iset<(Id, Id)>)
    requires Closed(g) && Closed(h) && Bisimulation(g, h, exact, r)
    ensures UnfoldsAlike(g, h, exact, r, 0)
  {
    forall p | p in r ensures PairUnfolds(g, h, exact, p.0, p.1, 0) {
      assert BisimilarPair(g, h, exact, r, p.0, p.1);
    }
  }

  lemma BisimulationNext(g: Graph, h: Graph, exact: bool, r: iset<(Id, Id)>, n: nat)
    requires Closed(g) && Closed(h) && Bisimulation(g, h, exact, r) && UnfoldsAlike(g, h, exact, r, n)
    ensures UnfoldsAlike(g, h, exact, r, n + 1)
  {
    hide BisimilarPair, PairUnfolds, Closed;
    forall p | p in r ensures PairUnfolds(g, h, exact, p.0, p.1, n + 1) {
      BisimulationStep(g, h, exact, r, p.0, p.1, n);
    }
  }

  lemma {:induction false} BisimulationUnfolds(g: Graph, h: Graph, exact: bool, r: iset<(Id, Id)>, n: nat)
    requires Closed(g) && Closed(h) && Bisimulation(g, h, exact, r)
    ensures UnfoldsAlike(g, h, exact, r, n)
    decreases n
  {
    hide Bisimulation, UnfoldsAlike, Closed;
    if n == 0 {
      BisimulationStart(g, h, exact, r);
    } else {
      BisimulationUnfolds(g, h, exact, r, n - 1);
      BisimulationNext(g, h, exact, r, n - 1);
    }
  }

  ghost function Meanings(g: Graph, h: Graph, exact: bool): iset<(Id, Id)>
    requires Closed(g) && Closed(h)
  {
    iset p: (Id, Id) | SameMeaning(g, p.0, h, p.1, exact)
  }

  lemma SameMeaningPair(g: Graph, h: Graph, exact: bool, i: Id, j: Id)
    requires Closed(g) && Closed(h) && SameMeaning(g, i, h, j, exact)
    ensures BisimilarPair(g, h, exact, Meanings(g, h, exact), i, j)
  {
    assert Unfold(g, exact, i, 1) == Unfold(h, exact, j, 1);
    var kids, kids' := Kids(g[i], exact), Kids(h[j], exact);
    assert |Unfold(g, exact, i, 1).kids| == |Unfold(h, exact, j, 1).kids|;
    forall k | 0 <= k < |kids| ensures (kids[k], kids'[k]) in Meanings(g, h, exact) {
      forall n: nat ensures Unfold(g, exact, kids[k], n) == Unfold(h, exact, kids'[k], n) {
        assert Unfold(g, exact, i, n + 1) == Unfold(h, exact, j, n + 1);
        assert Unfold(g, exact, i, n + 1).kids[k] == Unfold(h, exact, j, n + 1).kids[k];
      }
      assert Refs(g[i])[k] < |g| && Refs(h[j])[k] < |h|;
    }
  }

  /** Meaning the same is exactly being related by some bisimulation. */
  lemma SameIffBisimilar(g: Graph, i: Id, h: Graph, j: Id, exact: bool)
    requires Closed(g) && Closed(h)
    ensures SameMeaning(g, i, h, j, exact) <==> exists r :: Bisimulation(g, h, exact, r) && (i, j) in r
  {
    if SameMeaning(g, i, h, j, exact) {
      var r := Meanings(g, h, exact);
      forall p | p in r ensures BisimilarPair(g, h, exact, r, p.0, p.1) {
        SameMeaningPair(g, h, exact, p.0, p.1);
      }
      assert Bisimulation(g, h, exact, r) && (i, j) in r;
    }
    if r :| Bisimulation(g, h, exact, r) && (i, j) in r {
      BisimulationUnfolds(g, h, exact, r, 0);
      assert PairUnfolds(g, h, exact, (i, j).0, (i, j).1, 0);
      forall n: nat ensures Unfold(g, exact, i, n) == Unfold(h, exact, j, n) {
        BisimulationUnfolds(g, h, exact, r, n);
        assert PairUnfolds(g, h, exact, (i, j).0, (i, j).1, n);
      }
    }
  }

  // ----- rewriting references in place -----

  /** `h` is `g` with references replaced by references that mean the same in `g`. */
  ghost predicate Rewritten(g: Graph, h: Graph, exact: bool)
    requires Closed(g)
  {
    && |h| == |g|
    && forall i :: 0 <= i < |g| ==> RewrittenAt(g, g[i], h[i], exact)
  }

  ghost predicate RewrittenAt(g: Graph, t: Type, t': Type, exact: bool)
    requires Closed(g)
  {
    && Label(t') == Label(t) && |Refs(t')| == |Refs(t)|
    && forall k :: 0 <= k < |Refs(t)| ==> Refs(t)[k] < |g| && Same(g, exact, Refs(t')[k], Refs(t)[k])
  }

  lemma RewrittenClosed(g: Graph, h: Graph, exact: bool)
    requires Closed(g) && Rewritten(g, h, exact)
    ensures Closed(h)
  {
    forall i, k | 0 <= i < |h| && 0 <= k < |Refs(h[i])|
      ensures Refs(h[i])[k] < |h|
    {
      assert RewrittenAt(g, g[i], h[i], exact);
      assert Same(g, exact, Refs(h[i])[k], Refs(g[i])[k]);
    }
  }

  lemma LabelDecidesShape(t: Type, t': Type, exact: bool)
    requires Label(t) == Label(t')
    ensures ShapeOf(t, exact) == ShapeOf(t', exact)
    ensures |Refs(t)| == |Refs(t')|
    ensures Kids(t, exact) == [] <==> Kids(t', exact) == []
    ensures |Kids(t, exact)| == |Kids(t', exact)|
  {
    assert KindOf(Label(t)) == KindOf(t) && KindOf(Label(t')) == KindOf(t');
    assert |Refs(Label(t))| == |Refs(t)| && |Refs(Label(t'))| == |Refs(t')|;
  }

  lemma RewrittenLooks(g: Graph, h: Graph, exact: bool, i: Id)
    requires Closed(g) && Rewritten(g, h, exact) && i < |g|
    ensures ShapeOf(g[i], exact) == ShapeOf(h[i], exact)
    ensures |Kids(g[i], exact)| == |Kids(h[i], exact)|
  {
    assert RewrittenAt(g, g[i], h[i], exact);
    LabelDecidesShape(g[i], h[i], exact);
  }

  lemma RewrittenKid(g: Graph, h: Graph, exact: bool, i: Id, k: nat)
    requires Closed(g) && Rewritten(g, h, exact) && i < |g|
    requires k < |Kids(h[i], exact)|
    ensures |Kids(g[i], exact)| == |Kids(h[i], exact)|
    ensures Same(g, exact, Kids(h[i], exact)[k], Kids(g[i], exact)[k])
  {
    assert RewrittenAt(g, g[i], h[i], exact);
    LabelDecidesShape(g[i], h[i], exact);
    assert Same(g, exact, Refs(h[i])[k], Refs(g[i])[k]);
  }

  lemma RewrittenStep(g: Graph, h: Graph, exact: bool, i: Id, n: nat)
    requires Closed(g) && Closed(h) && Rewritten(g, h, exact) && i < |g|
    requires forall j :: 0 <= j < |g| ==> Unfold(h, exact, j, n) == Unfold(g, exact, j, n)
    ensures Unfold(h, exact, i, n + 1) == Unfold(g, exact, i, n + 1)
  {
    RewrittenLooks(g, h, exact, i);
    var kids, kids' := Kids(g[i], exact), Kids(h[i], exact);
    forall k | 0 <= k < |kids'|
      ensures Unfold(h, exact, kids'[k], n) == Unfold(g, exact, kids[k], n)
    {
      RewrittenKid(g, h, exact, i, k);
    }
    UnfoldStep(h, i, g, i, exact, n);
  }

  /** Rewriting references to ids that mean the same changes no meaning. */
  lemma {:induction false} RewrittenSame(g: Graph, h: Graph, exact: bool, n: nat)
    requires Closed(g) && Closed(h) && Rewritten(g, h, exact)
    ensures forall i :: 0 <= i < |g| ==> Unfold(h, exact, i, n) == Unfold(g, exact, i, n)
    decreases n
  {
    if n > 0 {
      RewrittenSame(g, h, exact, n - 1);
      forall i | 0 <= i < |g| ensures Unfold(h, exact, i, n) == Unfold(g, exact, i, n) {
        RewrittenStep(g, h, exact, i, n - 1);
      }
    }
  }

  /** Descriptors that became equal by rewriting meant the same to begin with. */
  lemma EqualAfterRewrite(g: Graph, h: Graph, exact: bool, i: Id, j: Id)
    requires Closed(g) && Rewritten(g, h, exact) && i < |g| && j < |g| && h[i] == h[j]
    ensures Same(g, exact, i, j)
  {
    RewrittenLooks(g, h, exact, i);
    RewrittenLooks(g, h, exact, j);
    forall k | 0 <= k < |Kids(g[i], exact)|
      ensures Same(g, exact, Kids(g[i], exact)[k], Kids(g[j], exact)[k])
    {
      RewrittenKid(g, h, exact, i, k);
      RewrittenKid(g, h, exact, j, k);
      SameJoin(g, exact, Kids(h[i], exact)[k], Kids(g[i], exact)[k], Kids(g[j], exact)[k]);
    }
    SameFromKids(g, exact, i, j);
  }

  lemma SameJoin(g: Graph, exact: bool, a: Id, b: Id, c: Id)
    requires Closed(g) && Same(g, exact, a, b) && Same(g, exact, a, c)
    ensures Same(g, exact, b, c)
  {
    forall n: nat ensures Unfold(g, exact, b, n) == Unfold(g, exact, c, n) {
      assert Unfold(g, exact, a, n) == Unfold(g, exact, b, n);
    }
  }
}
