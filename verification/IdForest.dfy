/** The canonical-type map as a forest: apart from self loops its links never
    cycle, so following them ends, and every rewrite the passes make keeps it so. */
module IdForest {
  import opened BtfTypes
  import opened BtfMeaning

  const UNPROCESSED: nat := 0xffff_ffff
  const IN_PROGRESS: nat := 0xffff_fffe

  predicate Mapped(m: seq<nat>, i: Id)
    requires i < |m|
  {
    m[i] <= MAX_NR_TYPES
  }

  /** Where following links stops: an unmapped id or a canonical one. */
  predicate IsEnd(m: seq<nat>, i: Id)
    requires i < |m|
  {
    !Mapped(m, i) || m[i] == i
  }

  ghost predicate InRange(m: seq<nat>) {
    forall i :: 0 <= i < |m| && Mapped(m, i) ==> m[i] < |m|
  }

  /** Ranks strictly decrease along links. */
  ghost predicate Ranked(m: seq<nat>, rank: seq<nat>) {
    && InRange(m) && |rank| == |m|
    && forall i {:trigger IsEnd(m, i)} :: 0 <= i < |m| && !IsEnd(m, i) ==> rank[m[i]] < rank[i]
  }

  ghost predicate Forest(m: seq<nat>) {
    exists rank :: Ranked(m, rank)
  }

  ghost function RootBy(m: seq<nat>, rank: seq<nat>, i: Id): (r: Id)
    requires Ranked(m, rank) && i < |m|
    ensures r < |m| && IsEnd(m, r)
    decreases rank[i]
  {
    if IsEnd(m, i) then i else RootBy(m, rank, m[i])
  }

  /** The id that following links from `i` ends at. */
  ghost function Root(m: seq<nat>, i: Id): (r: Id)
    requires Forest(m) && i < |m|
    ensures r < |m| && IsEnd(m, r)
  {
    var rank :| Ranked(m, rank);
    RootBy(m, rank, i)
  }

  lemma {:induction false} RootByAnyRank(m: seq<nat>, rank: seq<nat>, rank': seq<nat>, i: Id)
    requires Ranked(m, rank) && Ranked(m, rank') && i < |m|
    ensures RootBy(m, rank, i) == RootBy(m, rank', i)
    decreases rank[i]
  {
    if !IsEnd(m, i) { RootByAnyRank(m, rank, rank', m[i]); }
  }

  lemma RootIs(m: seq<nat>, rank: seq<nat>, i: Id)
    requires Ranked(m, rank) && i < |m|
    ensures Root(m, i) == RootBy(m, rank, i)
  {
    var rank' :| Ranked(m, rank') && Root(m, i) == RootBy(m, rank', i);
    RootByAnyRank(m, rank, rank', i);
  }

  /** One link does not change where following ends. */
  lemma RootStep(m: seq<nat>, i: Id)
    requires Forest(m) && i < |m|
    ensures IsEnd(m, i) ==> Root(m, i) == i
    ensures !IsEnd(m, i) ==> m[i] < |m| && Root(m, m[i]) == Root(m, i)
  {
    var rank :| Ranked(m, rank);
    RootIs(m, rank, i);
    if !IsEnd(m, i) { RootIs(m, rank, m[i]); }
  }

  // ----- rewrites that keep the forest -----

  /** Turning an id into an end (canonical, unmapped or in progress). */
  lemma SetEnd(m: seq<nat>, x: Id, v: nat)
    requires Forest(m) && x < |m| && (v > MAX_NR_TYPES || v == x)
    ensures Forest(m[x := v])
  {
    var rank :| Ranked(m, rank);
    var m' := m[x := v];
    forall i | 0 <= i < |m| && !IsEnd(m', i) ensures rank[m'[i]] < rank[i] {
      assert !IsEnd(m, i);
    }
    assert Ranked(m', rank);
  }

  /** Linking any id to a different end. */
  lemma LinkToEnd(m: seq<nat>, x: Id, e: Id)
    requires Forest(m) && x < |m| && e < |m| && e != x && IsEnd(m, e)
    ensures Forest(m[x := e])
  {
    var rank :| Ranked(m, rank);
    var rank' := seq(|m|, y requires 0 <= y < |m| => if y == e then 0 else rank[y] + 1);
    var m' := m[x := e];
    forall i | 0 <= i < |m| && !IsEnd(m', i) ensures rank'[m'[i]] < rank'[i] {
      assert i == x || !IsEnd(m, i);
    }
    assert Ranked(m', rank');
  }

  /** Linking an end to an id whose own chain ends elsewhere. */
  lemma LinkEnd(m: seq<nat>, x: Id, y: Id)
    requires Forest(m) && x < |m| && y < |m| && IsEnd(m, x) && Root(m, y) != x
    requires |m| <= MAX_NR_TYPES + 1
    ensures Forest(m[x := y])
  {
    var rank :| Ranked(m, rank);
    RootIs(m, rank, y);
    var rank' := seq(|m|, z requires 0 <= z < |m| =>
      if RootBy(m, rank, z) == x then rank[z] + rank[y] + 1 else rank[z]);
    var m' := m[x := y];
    forall i | 0 <= i < |m| && !IsEnd(m', i) ensures rank'[m'[i]] < rank'[i] {
      if i != x { assert RootBy(m, rank, m[i]) == RootBy(m, rank, i); }
    }
    assert Ranked(m', rank');
  }

  lemma {:induction false} RootByAfter(m: seq<nat>, rank: seq<nat>, x: Id, e: Id, i: Id)
    requires Ranked(m, rank) && x < |m| && e < |m| && x != e && IsEnd(m, x) && IsEnd(m, e) && e <= MAX_NR_TYPES
    requires Forest(m[x := e]) && i < |m|
    ensures Root(m[x := e], i) == if RootBy(m, rank, i) == x then e else RootBy(m, rank, i)
    decreases rank[i]
  {
    var now := m[x := e];
    RootStep(now, i);
    if i == x {
      RootStep(now, e);
    } else if !IsEnd(m, i) {
      RootByAfter(m, rank, x, e, m[i]);
    }
  }

  /** Linking one end to another moves what ended at the one to the other. */
  lemma RootAfter(m: seq<nat>, x: Id, e: Id, i: Id)
    requires Forest(m) && x < |m| && e < |m| && x != e && IsEnd(m, x) && IsEnd(m, e) && e <= MAX_NR_TYPES
    requires i < |m|
    ensures Forest(m[x := e]) && Root(m[x := e], i) == if Root(m, i) == x then e else Root(m, i)
  {
    LinkToEnd(m, x, e);
    var rank :| Ranked(m, rank);
    RootIs(m, rank, i);
    RootByAfter(m, rank, x, e, i);
  }

  // ----- links that keep the meaning -----

  /** Every link joins ids that mean the same in `g`. */
  ghost predicate KeepsMeaning(g: Graph, exact: bool, m: seq<nat>)
    requires Closed(g)
  {
    && |m| == |g|
    && forall i :: 0 <= i < |m| && Mapped(m, i) ==> Same(g, exact, i, m[i])
  }

  lemma {:induction false} RootBySame(g: Graph, exact: bool, m: seq<nat>, rank: seq<nat>, i: Id)
    requires Closed(g) && Ranked(m, rank) && KeepsMeaning(g, exact, m) && i < |m|
    ensures Same(g, exact, i, RootBy(m, rank, i))
    decreases rank[i]
  {
    if !IsEnd(m, i) {
      RootBySame(g, exact, m, rank, m[i]);
    }
  }

  /** The canonical representative of an id means the same as the id. */
  lemma RootSame(g: Graph, exact: bool, m: seq<nat>, i: Id)
    requires Closed(g) && Forest(m) && KeepsMeaning(g, exact, m) && i < |m|
    ensures Same(g, exact, i, Root(m, i))
  {
    var rank :| Ranked(m, rank);
    RootIs(m, rank, i);
    RootBySame(g, exact, m, rank, i);
  }

  lemma SameSym(g: Graph, exact: bool, a: Id, b: Id)
    requires Closed(g) && Same(g, exact, a, b)
    ensures Same(g, exact, b, a)
  {
    forall n: nat ensures Unfold(g, exact, b, n) == Unfold(g, exact, a, n) {
      assert Unfold(g, exact, a, n) == Unfold(g, exact, b, n);
    }
  }
}
