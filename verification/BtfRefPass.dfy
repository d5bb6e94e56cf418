/** The reference pass on values: what one resolved reference, one recursive
    call and one settled descriptor change. */
module BtfRefPass {
  import opened Basics
  import opened BtfTypes
  import opened BtfMeaning
  import opened IdForest
  import opened BtfEquivalence
  import opened BtfCanon

  predicate IsRoot(m: seq<nat>, i: Id) { i < |m| && m[i] == i }

  /** During the reference pass: everything but reference kinds is mapped, links
      lead to mapped ids, and mapped reference descriptors refer to canonical ids. */
  ghost predicate RefStage(g: Graph, m: seq<nat>) {
    && |m| == |g| > 0 && m[0] == 0 && InRange(m) && LinksMapped(m)
    && forall i :: 0 <= i < |g| ==> RefStageAt(g, m, i)
  }

  ghost predicate RefStageAt(g: Graph, m: seq<nat>, i: Id)
    requires |m| == |g| && i < |g|
  {
    && (i > 0 ==> !g[i].body.Void?)
    && (Mapped(m, i) || (IsReference(g[i]) && (m[i] == UNPROCESSED || m[i] == IN_PROGRESS)))
    && (IsReference(g[i]) && Mapped(m, i) ==> AllRoots(m, Refs(g[i])))
  }

  predicate AllRoots(m: seq<nat>, refs: seq<Id>) {
    forall k :: 0 <= k < |refs| ==> IsRoot(m, refs[k])
  }

  /** Ids not yet visited: bounds the recursion. */
  ghost function Unvisited(m: seq<nat>): set<Id> {
    set i | 0 <= i < |m| && m[i] == UNPROCESSED
  }

  /** A successful call leaves visited ids alone, and leaves no new id in progress. */
  ghost predicate Frame(g: Graph, m: seq<nat>, g': Graph, m': seq<nat>) {
    && |g| == |m| == |g'| == |m'|
    && forall i :: 0 <= i < |m| ==> FrameAt(g, m, g', m', i)
  }

  ghost predicate FrameAt(g: Graph, m: seq<nat>, g': Graph, m': seq<nat>, i: Id)
    requires |g| == |m| == |g'| == |m'| && i < |m|
  {
    (m'[i] == m[i] && g'[i] == g[i]) || (m[i] == UNPROCESSED && Mapped(m', i))
  }

  // ----- marking an id as in progress -----

  lemma MarkTable(g: Graph, exact: bool, m: seq<nat>, es: Candidates, x: Id)
    requires |m| == |g| <= MAX_NR_TYPES + 1 && x < |g| && TableInv(g, exact, m, es) && !Mapped(m, x)
    ensures TableInv(g, exact, m[x := IN_PROGRESS], es)
  {
    var m' := m[x := IN_PROGRESS];
    UnmappedNotFiled(g, exact, m, es, x);
    forall e | e in es ensures Anchored(g, exact, m', e.value) {
      assert Anchored(g, exact, m, e.value);
    }
    MappedMore(m, m');
  }

  lemma MarkStage(g: Graph, m: seq<nat>, x: Id)
    requires RefStage(g, m) && x < |g| <= MAX_NR_TYPES + 1 && m[x] == UNPROCESSED
    ensures RefStage(g, m[x := IN_PROGRESS])
    ensures |Unvisited(m[x := IN_PROGRESS])| < |Unvisited(m)|
  {
    var m' := m[x := IN_PROGRESS];
    forall i | 0 <= i < |g| ensures RefStageAt(g, m', i) {
      assert RefStageAt(g, m, i);
    }
    assert x in Unvisited(m) && Unvisited(m') == Unvisited(m) - {x};
  }

  // ----- rewriting one reference of an id in progress -----

  lemma RewriteTable(g: Graph, exact: bool, m: seq<nat>, es: Candidates, x: Id, t': Type)
    requires |m| == |g| <= MAX_NR_TYPES + 1 && x < |g| && TableInv(g, exact, m, es) && !Mapped(m, x)
    ensures TableInv(g[x := t'], exact, m, es)
  {
    var g' := g[x := t'];
    forall e | e in es ensures Anchored(g', exact, m, e.value) {
      assert Anchored(g, exact, m, e.value);
    }
  }

  lemma RewriteStage(g: Graph, m: seq<nat>, x: Id, t': Type)
    requires RefStage(g, m) && x < |g| && m[x] == IN_PROGRESS && KindOf(t') == KindOf(g[x])
    ensures RefStage(g[x := t'], m)
  {
    var g' := g[x := t'];
    forall i | 0 <= i < |g'| ensures RefStageAt(g', m, i) {
      assert RefStageAt(g, m, i);
    }
  }

  lemma RewriteOne(orig: Graph, g: Graph, exact: bool, x: Id, k: nat, r: Id)
    requires Closed(orig) && Rewritten(orig, g, exact) && x < |g| && k < |Refs(g[x])|
    requires Refs(g[x])[k] < |orig| && Same(orig, exact, Refs(g[x])[k], r)
    ensures Rewritten(orig, g[x := SetRefs(g[x], Refs(g[x])[k := r])], exact)
  {
    var refs' := Refs(g[x])[k := r];
    var t' := SetRefs(g[x], refs');
    var g' := g[x := t'];
    SetRefsLabel(g[x], refs');
    forall i | 0 <= i < |orig| ensures RewrittenAt(orig, orig[i], g'[i], exact) {
      assert RewrittenAt(orig, orig[i], g[i], exact);
      if i == x {
        SameJoin(orig, exact, Refs(g[x])[k], r, Refs(orig[x])[k]);
      }
    }
  }

  // ----- settling an id whose references are all resolved -----

  lemma SettleSafe(orig: Graph, g: Graph, exact: bool, m: seq<nat>, x: Id, y: Id)
    requires Sound(orig, exact, m) && Rewritten(orig, g, exact) && RefStage(g, m)
    requires 0 < x < |g| && m[x] == IN_PROGRESS && AllRoots(m, Refs(g[x]))
    requires y == x || (y < |g| && m[y] == y && g[y] == g[x])
    ensures y != x ==> Sound(orig, exact, m[x := y])
    ensures RefStage(g, m[x := y])
  {
    SettleStage(orig, g, exact, m, x, y);
    hide Same, Closed, Forest, KeepsMeaning, RewrittenAt, RefStage, RefStageAt, AllRoots;
    if y != x {
      EqualAfterRewrite(orig, g, exact, x, y);
      SoundToEnd(orig, exact, m, x, y);
    }
  }

  lemma SettleStage(orig: Graph, g: Graph, exact: bool, m: seq<nat>, x: Id, y: Id)
    requires Sound(orig, exact, m) && |g| == |orig| && RefStage(g, m)
    requires 0 < x < |g| && m[x] == IN_PROGRESS && AllRoots(m, Refs(g[x]))
    requires y == x || (y < |g| && m[y] == y && g[y] == g[x])
    ensures RefStage(g, m[x := y]) && |m| == |g| <= MAX_NR_TYPES + 1
  {
    hide Same, Forest, Refs;
    var m' := m[x := y];
    forall i | 0 <= i < |g| ensures RefStageAt(g, m', i) {
      assert RefStageAt(g, m, i);
    }
  }

  /** A frame that excepts the descriptor of the id in progress. */
  ghost predicate FrameBut(g: Graph, m: seq<nat>, g': Graph, m': seq<nat>, x: Id) {
    && x < |g| == |m| == |g'| == |m'| && m[x] == m'[x] == IN_PROGRESS
    && KindOf(g'[x]) == KindOf(g[x]) && |Refs(g'[x])| == |Refs(g[x])|
    && forall i :: 0 <= i < |m| && i != x ==> FrameAt(g, m, g', m', i)
  }

  lemma FrameButFacts(g: Graph, m: seq<nat>, g': Graph, m': seq<nat>, x: Id)
    requires FrameBut(g, m, g', m', x)
    ensures x < |g| == |m| == |g'| == |m'| && m'[x] == IN_PROGRESS && |Refs(g'[x])| == |Refs(g[x])|
    ensures FrameBut(g', m', g', m', x)
  {
  }

  lemma FrameButRewrite(g: Graph, m: seq<nat>, g': Graph, m': seq<nat>, x: Id, refs: seq<Id>)
    requires Frame(g, m, g', m') && x < |m| && m[x] == IN_PROGRESS && |refs| == |Refs(g[x])|
    ensures g'[x] == g[x] && FrameBut(g, m, g'[x := SetRefs(g[x], refs)], m', x)
  {
    var g'' := g'[x := SetRefs(g[x], refs)];
    assert FrameAt(g, m, g', m', x);
    forall i | 0 <= i < |m| && i != x ensures FrameAt(g, m, g'', m', i) {
      assert FrameAt(g, m, g', m', i);
    }
  }

  lemma FrameButThen(g: Graph, m: seq<nat>, g1: Graph, m1: seq<nat>, g2: Graph, m2: seq<nat>, x: Id)
    requires FrameBut(g, m, g1, m1, x) && FrameBut(g1, m1, g2, m2, x)
    ensures FrameBut(g, m, g2, m2, x)
  {
    forall i | 0 <= i < |m| && i != x ensures FrameAt(g, m, g2, m2, i) {
      assert FrameAt(g, m, g1, m1, i) && FrameAt(g1, m1, g2, m2, i);
    }
  }

  lemma FrameButUnvisited(g: Graph, m: seq<nat>, g': Graph, m': seq<nat>, x: Id)
    requires FrameBut(g, m, g', m', x)
    ensures |Unvisited(m')| <= |Unvisited(m)|
  {
    forall i | i in Unvisited(m') ensures i in Unvisited(m) {
      if i != x { assert FrameAt(g, m, g', m', i); }
    }
    SubsetSize(Unvisited(m'), Unvisited(m));
  }

  lemma FrameButRoot(g: Graph, m: seq<nat>, g': Graph, m': seq<nat>, x: Id, i: Id)
    requires FrameBut(g, m, g', m', x) && IsRoot(m, i) && |m| <= MAX_NR_TYPES + 1
    ensures IsRoot(m', i)
  {
    assert FrameAt(g, m, g', m', i);
  }

  /** The references of `x` with an index in `done` are canonical. */
  ghost predicate RootsAmong(g: Graph, m: seq<nat>, x: Id, done: set<nat>)
    requires x < |g|
  {
    forall k :: k in done && k < |Refs(g[x])| ==> IsRoot(m, Refs(g[x])[k])
  }

  lemma RootsAmongNext(g: Graph, m: seq<nat>, g': Graph, m': seq<nat>, x: Id, done: set<nat>, k: nat, r: Id)
    requires FrameBut(g, m, g', m', x) && RootsAmong(g, m, x, done) && |m| <= MAX_NR_TYPES + 1
    requires k < |Refs(g[x])| && Refs(g'[x]) == Refs(g[x])[k := r] && IsRoot(m', r)
    ensures RootsAmong(g', m', x, done + {k})
  {
    forall j | j in done + {k} && j < |Refs(g'[x])| ensures IsRoot(m', Refs(g'[x])[j]) {
      if j != k { FrameButRoot(g, m, g', m', x, Refs(g[x])[j]); }
    }
  }

  lemma RootsAll(g: Graph, m: seq<nat>, x: Id, done: set<nat>)
    requires x < |g| && RootsAmong(g, m, x, done)
    requires forall k :: 0 <= k < |Refs(g[x])| ==> k in done
    ensures AllRoots(m, Refs(g[x]))
  {
  }

  lemma SettleFrameBut(g0: Graph, m0: seq<nat>, g: Graph, m: seq<nat>, x: Id, y: Id)
    requires |g0| == |m0| && x < |g0| && m0[x] == UNPROCESSED && y <= MAX_NR_TYPES
    requires FrameBut(g0, m0[x := IN_PROGRESS], g, m, x)
    ensures Frame(g0, m0, g, m[x := y])
  {
    var m', m1 := m[x := y], m0[x := IN_PROGRESS];
    forall i | 0 <= i < |m0| ensures FrameAt(g0, m0, g, m', i) {
      if i != x { assert FrameAt(g0, m1, g, m, i); }
    }
  }

  lemma NoneUnvisited(g: Graph, m: seq<nat>, g': Graph, m': seq<nat>, n: nat)
    requires Frame(g, m, g', m') && n < |m| && (forall i :: 0 <= i < n ==> Mapped(m, i))
    requires Mapped(m', n)
    requires forall i :: 0 <= i < |m| ==> Mapped(m, i) || m[i] == UNPROCESSED
    requires |m| <= MAX_NR_TYPES + 1
    ensures forall i :: 0 <= i < n + 1 ==> Mapped(m', i)
    ensures forall i :: 0 <= i < |m| ==> Mapped(m', i) || m'[i] == UNPROCESSED
  {
    forall i | 0 <= i < |m| ensures i < n + 1 ==> Mapped(m', i) {
      assert FrameAt(g, m, g', m', i);
      if i < n { assert Mapped(m, i); }
    }
    forall i | 0 <= i < |m| ensures Mapped(m', i) || m'[i] == UNPROCESSED {
      assert FrameAt(g, m, g', m', i);
    }
  }

  lemma RefsStart(g: Graph, m: seq<nat>, x: Id)
    requires x < |g| == |m| && m[x] == IN_PROGRESS
    ensures FrameBut(g, m, g, m, x) && RootsAmong(g, m, x, {})
  {
  }

  // ----- when the pass meets no cycle -----

  /** The chains of reference kinds below `i` are shorter than `n`. */
  ghost predicate Shallow(g: Graph, i: Id, n: nat)
    decreases n
  {
    n > 0 && i < |g| && (IsReference(g[i]) ==> forall k :: 0 <= k < |Refs(g[i])| ==> Shallow(g, Refs(g[i])[k], n - 1))
  }

  /** Every cycle of references passes through a kind that is not a reference. */
  ghost predicate Acyclic(g: Graph) {
    forall i: Id :: i < |g| ==> HasDepth(g, i)
  }

  ghost predicate HasDepth(g: Graph, i: Id) {
    exists n: nat :: Shallow(g, i, n)
  }

  lemma {:induction false} ShallowMore(g: Graph, i: Id, n: nat, m: nat)
    requires Shallow(g, i, n) && n <= m
    ensures Shallow(g, i, m)
    decreases n
  {
    if IsReference(g[i]) {
      forall k | 0 <= k < |Refs(g[i])| ensures Shallow(g, Refs(g[i])[k], m - 1) {
        ShallowMore(g, Refs(g[i])[k], n - 1, m - 1);
      }
    }
  }

  /** Ids that mean the same have chains of the same length below them. */
  lemma {:induction false} ShallowSame(g: Graph, exact: bool, i: Id, j: Id, n: nat)
    requires Closed(g) && Same(g, exact, i, j) && Shallow(g, i, n)
    ensures Shallow(g, j, n)
    decreases n
  {
    SameShape(g, exact, i, j);
    ShapeKeepsReference(g[i], g[j], exact);
    if IsReference(g[j]) {
      forall k | 0 <= k < |Refs(g[j])| ensures Shallow(g, Refs(g[j])[k], n - 1) {
        SameSym(g, exact, i, j);
        SameKids(g, exact, j, i, k);
        SameSym(g, exact, Refs(g[j])[k], Refs(g[i])[k]);
        ShallowSame(g, exact, Refs(g[i])[k], Refs(g[j])[k], n - 1);
      }
    }
  }

  /** The least such bound. */
  ghost predicate DepthIs(g: Graph, i: Id, n: nat) {
    n > 0 && Shallow(g, i, n) && !Shallow(g, i, n - 1)
  }

  lemma {:induction false} DepthExists(g: Graph, i: Id, n: nat) returns (d: nat)
    requires Shallow(g, i, n)
    ensures d <= n && DepthIs(g, i, d)
  {
    if Shallow(g, i, n - 1) {
      d := DepthExists(g, i, n - 1);
    } else {
      d := n;
    }
  }

  /** What is in progress, `id` aside, lies deeper than `n`. */
  ghost predicate DeeperBut(g: Graph, m: seq<nat>, id: Id, n: nat) {
    forall p :: 0 <= p < |m| && p != id && m[p] == IN_PROGRESS ==> !Shallow(g, p, n)
  }

  /** A visit of `id` meets nothing in progress. */
  ghost predicate Safe(g: Graph, m: seq<nat>, id: Id) {
    exists n: nat :: DepthIs(g, id, n) && DeeperBut(g, m, |m|, n)
  }

  ghost predicate SafeInside(g: Graph, m: seq<nat>, id: Id) {
    exists n: nat :: DepthIs(g, id, n) && DeeperBut(g, m, id, n)
  }

  lemma SafeNotInProgress(g: Graph, m: seq<nat>, id: Id)
    requires Safe(g, m, id) && id < |m|
    ensures m[id] != IN_PROGRESS
  {
  }

  lemma SafeMark(g: Graph, m: seq<nat>, id: Id)
    requires Safe(g, m, id) && id < |m|
    ensures SafeInside(g, m[id := IN_PROGRESS], id)
  {
    var n: nat :| DepthIs(g, id, n) && DeeperBut(g, m, |m|, n);
    assert DeeperBut(g, m[id := IN_PROGRESS], id, n);
  }

  lemma EnterSafe(g: Graph, m: seq<nat>, id: Id)
    requires id < |m|
    ensures Safe(g, m, id) ==> m[id] != IN_PROGRESS && SafeInside(g, m[id := IN_PROGRESS], id)
  {
    if Safe(g, m, id) {
      SafeNotInProgress(g, m, id);
      SafeMark(g, m, id);
    }
  }

  lemma RewrittenRef(orig: Graph, exact: bool, g: Graph, id: Id, k: nat)
    requires Closed(orig) && Rewritten(orig, g, exact) && id < |g| && k < |Refs(g[id])|
    ensures |orig| == |g| && k < |Refs(orig[id])| && KindOf(orig[id]) == KindOf(g[id])
    ensures Refs(orig[id])[k] < |orig| && Same(orig, exact, Refs(orig[id])[k], Refs(g[id])[k])
  {
    assert RewrittenAt(orig, orig[id], g[id], exact);
    hide Same;
    SameSym(orig, exact, Refs(g[id])[k], Refs(orig[id])[k]);
  }

  lemma SafeChild(orig: Graph, exact: bool, g: Graph, m: seq<nat>, id: Id, k: nat)
    requires Closed(orig) && Rewritten(orig, g, exact) && |m| == |g| && id < |g|
    requires SafeInside(orig, m, id) && IsReference(g[id]) && k < |Refs(g[id])|
    ensures Safe(orig, m, Refs(g[id])[k])
  {
    var n: nat :| DepthIs(orig, id, n) && DeeperBut(orig, m, id, n);
    RewrittenRef(orig, exact, g, id, k);
    hide Same, Closed, Label, Refs, Rewritten;
    var c, c0 := Refs(g[id])[k], Refs(orig[id])[k];
    ShallowSame(orig, exact, c0, c, n - 1);
    var d := DepthExists(orig, c, n - 1);
    forall p | 0 <= p < |m| && m[p] == IN_PROGRESS ensures !Shallow(orig, p, d) {
      if Shallow(orig, p, d) { ShallowMore(orig, p, d, if p == id then n - 1 else n); }
    }
  }

  lemma SafeFrame(orig: Graph, g: Graph, m: seq<nat>, g': Graph, m': seq<nat>, id: Id)
    requires SafeInside(orig, m, id) && FrameBut(g, m, g', m', id)
    ensures SafeInside(orig, m', id)
  {
    var n: nat :| DepthIs(orig, id, n) && DeeperBut(orig, m, id, n);
    forall p | 0 <= p < |m'| && p != id && m'[p] == IN_PROGRESS ensures !Shallow(orig, p, n) {
      assert FrameAt(g, m, g', m', p);
    }
  }

  lemma KeepSafe(orig: Graph, g: Graph, m: seq<nat>, g': Graph, m': seq<nat>, id: Id)
    requires FrameBut(g, m, g', m', id)
    ensures SafeInside(orig, m, id) ==> SafeInside(orig, m', id)
  {
    if SafeInside(orig, m, id) { SafeFrame(orig, g, m, g', m', id); }
  }

  lemma SafeStart(g: Graph, m: seq<nat>, id: Id)
    requires Acyclic(g) && id < |g| && forall p :: 0 <= p < |m| ==> m[p] != IN_PROGRESS
    ensures Safe(g, m, id)
  {
    assert HasDepth(g, id);
    var n: nat :| Shallow(g, id, n);
    var d := DepthExists(g, id, n);
    assert DeeperBut(g, m, |m|, d);
  }
}
