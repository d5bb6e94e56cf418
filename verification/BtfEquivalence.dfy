/** The hypothetical map of an equivalence check as a bisimulation up to the
    canonical map: when every recorded pair is justified, recorded pairs mean
    the same. */
module BtfEquivalence {
  import opened Basics
  import opened BtfTypes
  import opened BtfMeaning
  import opened IdForest

  predicate Recorded(h: seq<nat>, c: Id)
    requires c < |h|
  {
    h[c] <= MAX_NR_TYPES
  }

  /** Exactly the recorded ids are listed, for clearing and merging. */
  ghost predicate HypotOk(h: seq<nat>, list: seq<Id>) {
    && (forall c :: 0 <= c < |h| && Recorded(h, c) ==> h[c] < |h| && c in list)
    && (forall c :: c in list ==> c < |h| && Recorded(h, c))
  }

  /** Recorded pairs are never overwritten. */
  ghost predicate Grows(h: seq<nat>, h': seq<nat>) {
    |h| == |h'| && forall c :: 0 <= c < |h| && Recorded(h, c) ==> h'[c] == h[c]
  }

  ghost function Free(h: seq<nat>): set<Id> {
    set c | 0 <= c < |h| && !Recorded(h, c)
  }

  /** How many ids can still be recorded: bounds the recursion of the check. */
  ghost function Room(h: seq<nat>): nat { |Free(h)| }

  lemma GrowsRoom(h: seq<nat>, h': seq<nat>)
    requires Grows(h, h')
    ensures Room(h') <= Room(h)
  {
    SubsetSize(Free(h'), Free(h));
  }

  lemma RecordRoom(h: seq<nat>, c: Id, t: Id)
    requires c < |h| && !Recorded(h, c) && t <= MAX_NR_TYPES
    ensures Room(h[c := t]) < Room(h)
  {
    assert Free(h[c := t]) == Free(h) - {c};
  }

  /** resolve_fwd_id: a forward declaration stands for the struct it resolves to. */
  ghost function FwdRoot(g: Graph, m: seq<nat>, i: Id): (r: Id)
    requires Forest(m) && |m| == |g| && i < |g|
    ensures r < |g|
  {
    if g[i].body.Fwd? && !g[Root(m, i)].body.Fwd? then Root(m, i) else i
  }

  /** What a positive answer about (cand, canon) rests on. */
  ghost predicate Linked(g: Graph, m: seq<nat>, h: seq<nat>, cand: Id, canon: Id)
    requires Forest(m) && |m| == |g| == |h|
  {
    && cand < |g| && canon < |g|
    && (Root(m, cand) == Root(m, canon) || h[FwdRoot(g, m, canon)] == cand)
  }

  /** The recorded pair of `c` agrees locally and its children are linked. */
  ghost predicate Justified(g: Graph, exact: bool, m: seq<nat>, h: seq<nat>, c: Id)
    requires Forest(m) && |m| == |g| == |h|
  {
    && c < |g| && Recorded(h, c) && h[c] < |g|
    && ShapeOf(g[c], exact) == ShapeOf(g[h[c]], exact)
    && |Kids(g[c], exact)| == |Kids(g[h[c]], exact)|
    && forall k :: 0 <= k < |Kids(g[c], exact)| ==>
         Linked(g, m, h, Kids(g[h[c]], exact)[k], Kids(g[c], exact)[k])
  }

  /** Every pair recorded in `h` but not in `h0` is justified. */
  ghost predicate JustifiedSince(g: Graph, exact: bool, m: seq<nat>, h0: seq<nat>, h: seq<nat>)
    requires Forest(m) && |m| == |g| == |h| == |h0|
  {
    forall c :: 0 <= c < |h| && Recorded(h, c) && !Recorded(h0, c) ==> Justified(g, exact, m, h, c)
  }

  ghost predicate AllJustified(g: Graph, exact: bool, m: seq<nat>, h: seq<nat>)
    requires Forest(m) && |m| == |g| == |h|
  {
    forall c :: 0 <= c < |h| && Recorded(h, c) ==> Justified(g, exact, m, h, c)
  }

  lemma LinkedGrows(g: Graph, m: seq<nat>, h: seq<nat>, h': seq<nat>, cand: Id, canon: Id)
    requires Forest(m) && |m| == |g| == |h| && Grows(h, h')
    requires |g| <= MAX_NR_TYPES + 1
    requires Linked(g, m, h, cand, canon)
    ensures Linked(g, m, h', cand, canon)
  {
  }

  lemma JustifiedGrows(g: Graph, exact: bool, m: seq<nat>, h: seq<nat>, h': seq<nat>, c: Id)
    requires Forest(m) && |m| == |g| == |h| && Grows(h, h')
    requires |g| <= MAX_NR_TYPES + 1
    requires Justified(g, exact, m, h, c)
    ensures Justified(g, exact, m, h', c)
  {
    forall k | 0 <= k < |Kids(g[c], exact)|
      ensures Linked(g, m, h', Kids(g[h'[c]], exact)[k], Kids(g[c], exact)[k])
    {
      LinkedGrows(g, m, h, h', Kids(g[h[c]], exact)[k], Kids(g[c], exact)[k]);
    }
  }

  lemma JustifiedThen(g: Graph, exact: bool, m: seq<nat>, h0: seq<nat>, h1: seq<nat>, h2: seq<nat>)
    requires Forest(m) && |m| == |g| == |h0| && Grows(h0, h1) && Grows(h1, h2)
    requires |g| <= MAX_NR_TYPES + 1
    requires JustifiedSince(g, exact, m, h0, h1) && JustifiedSince(g, exact, m, h1, h2)
    ensures JustifiedSince(g, exact, m, h0, h2) && Grows(h0, h2)
  {
    forall c | 0 <= c < |h2| && Recorded(h2, c) && !Recorded(h0, c)
      ensures Justified(g, exact, m, h2, c)
    {
      if Recorded(h1, c) { JustifiedGrows(g, exact, m, h1, h2, c); }
    }
  }

  /** Completing the pair recorded on entry completes the whole check. */
  lemma JustifiedWith(g: Graph, exact: bool, m: seq<nat>, h0: seq<nat>, c: Id, t: Id, h: seq<nat>)
    requires Forest(m) && |m| == |g| == |h0| && c < |g| && t < |g| && !Recorded(h0, c)
    requires |g| <= MAX_NR_TYPES + 1
    requires Grows(h0[c := t], h) && JustifiedSince(g, exact, m, h0[c := t], h)
    requires Justified(g, exact, m, h, c)
    ensures JustifiedSince(g, exact, m, h0, h) && Grows(h0, h)
  {
  }

  /** The canonical map joins ids that mean the same, and is a forest. */
  ghost predicate Sound(g: Graph, exact: bool, m: seq<nat>) {
    Closed(g) && Forest(m) && KeepsMeaning(g, exact, m)
  }

  lemma FwdRootSame(g: Graph, exact: bool, m: seq<nat>, i: Id)
    requires Sound(g, exact, m) && i < |g|
    ensures Same(g, exact, i, FwdRoot(g, m, i))
  {
    RootSame(g, exact, m, i);
  }

  /** Recorded pairs unfold alike down to one depth. */
  ghost predicate PairsAgree(g: Graph, exact: bool, h: seq<nat>, n: nat)
    requires Closed(g) && |h| == |g|
  {
    forall c :: 0 <= c < |h| && Recorded(h, c) ==> AgreeAt(g, exact, h, c, n)
  }

  ghost predicate AgreeAt(g: Graph, exact: bool, h: seq<nat>, c: Id, n: nat)
    requires Closed(g) && |h| == |g| && c < |g|
  {
    h[c] < |g| && Unfold(g, exact, c, n) == Unfold(g, exact, h[c], n)
  }

  lemma LinkedUnfold(g: Graph, exact: bool, m: seq<nat>, h: seq<nat>, cand: Id, canon: Id, n: nat)
    requires Sound(g, exact, m) && |h| == |g| && Linked(g, m, h, cand, canon)
    requires PairsAgree(g, exact, h, n)
    ensures Unfold(g, exact, canon, n) == Unfold(g, exact, cand, n)
  {
    if Root(m, cand) == Root(m, canon) {
      RootSame(g, exact, m, cand);
      RootSame(g, exact, m, canon);
    } else {
      FwdRootSame(g, exact, m, canon);
      assert AgreeAt(g, exact, h, FwdRoot(g, m, canon), n);
    }
  }

  lemma RecordedStep(g: Graph, exact: bool, m: seq<nat>, h: seq<nat>, c: Id, n: nat)
    requires Sound(g, exact, m) && |h| == |g| && c < |h| && Justified(g, exact, m, h, c)
    requires PairsAgree(g, exact, h, n)
    ensures AgreeAt(g, exact, h, c, n + 1)
  {
    var kids, kids' := Kids(g[c], exact), Kids(g[h[c]], exact);
    forall k | 0 <= k < |kids|
      ensures Unfold(g, exact, kids[k], n) == Unfold(g, exact, kids'[k], n)
    {
      LinkedUnfold(g, exact, m, h, kids'[k], kids[k], n);
    }
    UnfoldStep(g, c, g, h[c], exact, n);
  }

  lemma RecordedSteps(g: Graph, exact: bool, m: seq<nat>, h: seq<nat>, n: nat)
    requires Sound(g, exact, m) && |h| == |g|
    requires AllJustified(g, exact, m, h) && PairsAgree(g, exact, h, n)
    ensures PairsAgree(g, exact, h, n + 1)
  {
    forall c | 0 <= c < |h| && Recorded(h, c) ensures AgreeAt(g, exact, h, c, n + 1) {
      RecordedStep(g, exact, m, h, c, n);
    }
  }

  lemma RecordedStart(g: Graph, exact: bool, m: seq<nat>, h: seq<nat>)
    requires Sound(g, exact, m) && |h| == |g| && AllJustified(g, exact, m, h)
    ensures PairsAgree(g, exact, h, 0)
  {
    forall c | 0 <= c < |h| && Recorded(h, c) ensures AgreeAt(g, exact, h, c, 0) {
      assert Justified(g, exact, m, h, c);
    }
  }

  lemma {:induction false} RecordedUnfold(g: Graph, exact: bool, m: seq<nat>, h: seq<nat>, n: nat)
    requires Sound(g, exact, m) && |h| == |g| && AllJustified(g, exact, m, h)
    ensures PairsAgree(g, exact, h, n)
  {
    if n == 0 {
      RecordedStart(g, exact, m, h);
    } else {
      RecordedUnfold(g, exact, m, h, n - 1);
      RecordedSteps(g, exact, m, h, n - 1);
    }
  }

  /** Soundness of the check: started from a cleared hypothetical map, all that
      it recorded on the way to a positive answer means the same, cycles included. */
  lemma RecordedSame(g: Graph, exact: bool, m: seq<nat>, h0: seq<nat>, h: seq<nat>)
    requires Sound(g, exact, m) && |h| == |g| == |h0|
    requires forall c :: 0 <= c < |h0| ==> !Recorded(h0, c)
    requires JustifiedSince(g, exact, m, h0, h)
    ensures forall c :: 0 <= c < |h| && Recorded(h, c) ==> Same(g, exact, c, h[c])
  {
    forall c | 0 <= c < |h| && Recorded(h, c)
      ensures Same(g, exact, c, h[c])
    {
      assert Justified(g, exact, m, h, c);
      forall n: nat ensures Unfold(g, exact, c, n) == Unfold(g, exact, h[c], n) {
        RecordedUnfold(g, exact, m, h, n);
        assert AgreeAt(g, exact, h, c, n);
      }
    }
  }

  lemma LinkedSame(g: Graph, exact: bool, m: seq<nat>, h: seq<nat>, cand: Id, canon: Id)
    requires Sound(g, exact, m) && |h| == |g| && Linked(g, m, h, cand, canon)
    requires forall c :: 0 <= c < |h| && Recorded(h, c) ==> Same(g, exact, c, h[c])
    ensures Same(g, exact, cand, canon)
  {
    forall n: nat ensures Unfold(g, exact, cand, n) == Unfold(g, exact, canon, n) {
      assert PairsAgree(g, exact, h, n);
      LinkedUnfold(g, exact, m, h, cand, canon, n);
    }
  }

  // ----- local agreement, kind by kind -----

  /** Descriptors that are equal justify each other. */
  lemma JustifyEqual(g: Graph, exact: bool, m: seq<nat>, h: seq<nat>, c: Id)
    requires Closed(g) && Forest(m) && |m| == |g| == |h| && c < |g| && Recorded(h, c) && h[c] < |g|
    requires g[c] == g[h[c]]
    ensures Justified(g, exact, m, h, c)
  {
    forall k | 0 <= k < |Kids(g[c], exact)|
      ensures Linked(g, m, h, Kids(g[h[c]], exact)[k], Kids(g[c], exact)[k])
    {
      assert Refs(g[c])[k] < |g|;
    }
  }

  /** The pairs that count by tag: a struct and a forward declaration of its kind, and
      enums that could be resolved to each other. */
  predicate TagsAgree(t: Type, t': Type) {
    t.name == t'.name &&
    if t.body.Enum? then CompatEnum(t, t')
    else if t.body.Fwd? then KindOf(t') == KComposite(t.kflag)
    else t'.body.Fwd? && KindOf(t) == KComposite(t'.kflag)
  }

  lemma JustifyAgreeing(g: Graph, m: seq<nat>, h: seq<nat>, c: Id)
    requires Forest(m) && |m| == |g| == |h| && c < |g| && Recorded(h, c) && h[c] < |g|
    requires TagsAgree(g[h[c]], g[c])
    ensures Justified(g, false, m, h, c)
  {
  }

  /** Descriptors that agree up to references, all of them linked, justify each other. */
  lemma JustifyRefs(g: Graph, exact: bool, m: seq<nat>, h: seq<nat>, c: Id)
    requires Forest(m) && |m| == |g| == |h| && c < |g| && Recorded(h, c) && h[c] < |g|
    requires Label(g[c]) == Label(g[h[c]])
    requires |Refs(g[c])| == |Refs(g[h[c]])|
    requires forall k :: 0 <= k < |Refs(g[c])| ==> Linked(g, m, h, Refs(g[h[c]])[k], Refs(g[c])[k])
    ensures Justified(g, exact, m, h, c)
  {
    LabelDecidesShape(g[c], g[h[c]], exact);
  }

  lemma StructLabels(t1: Type, t2: Type)
    requires t1.body.Composite? && ShallowEqualStruct(t1, t2)
    ensures Label(t1) == Label(t2) && |Refs(t1)| == |Refs(t2)|
  {
    var zeros := seq(|Refs(t1)|, _ => 0);
    assert SetMemberTypes(t1.body.members, zeros) == SetMemberTypes(t2.body.members, zeros);
  }

  lemma FuncProtoLabels(t1: Type, t2: Type)
    requires t1.body.FuncProto? && CompatFuncProto(t1, t2)
    ensures Label(t1) == Label(t2) && |Refs(t1)| == |Refs(t2)|
  {
    var zeros := seq(|t1.body.params|, _ => 0);
    assert seq(|Refs(t1)|, _ => 0)[1..] == zeros;
    assert SetParamTypes(t1.body.params, zeros) == SetParamTypes(t2.body.params, zeros);
  }

  predicate EqualUpToTarget(t1: Type, t2: Type) {
    && t1.name == t2.name
    && KindOf(t1) == KindOf(t2) && t1.kflag == t2.kflag && Vlen(t1) == Vlen(t2)
  }

  lemma GrowsThen(h0: seq<nat>, h1: seq<nat>, h2: seq<nat>)
    requires Grows(h0, h1) && Grows(h1, h2)
    ensures Grows(h0, h2)
  {
  }

  ghost predicate LinkedUpTo(g: Graph, m: seq<nat>, h: seq<nat>, cands: seq<Id>, canons: seq<Id>, n: nat)
    requires Forest(m) && |m| == |g| == |h| && n <= |cands| == |canons|
  {
    forall k :: 0 <= k < n ==> Linked(g, m, h, cands[k], canons[k])
  }

  lemma KeepLinks(g: Graph, m: seq<nat>, h: seq<nat>, h': seq<nat>, cands: seq<Id>, canons: seq<Id>, n: nat)
    requires Forest(m) && |m| == |g| == |h| && Grows(h, h') && |g| <= MAX_NR_TYPES + 1
    requires n <= |cands| == |canons| && LinkedUpTo(g, m, h, cands, canons, n)
    ensures LinkedUpTo(g, m, h', cands, canons, n)
  {
    forall k | 0 <= k < n ensures Linked(g, m, h', cands[k], canons[k]) {
      LinkedGrows(g, m, h, h', cands[k], canons[k]);
    }
  }

  /** The first `n` references of a pair of descriptors have been compared. */
  ghost predicate Progress(g: Graph, exact: bool, m: seq<nat>, h1: seq<nat>, h: seq<nat>, cands: seq<Id>,
                           canons: seq<Id>, n: nat)
    requires Forest(m) && |m| == |g| == |h1| == |h| && n <= |cands| == |canons|
  {
    Grows(h1, h) && JustifiedSince(g, exact, m, h1, h) && LinkedUpTo(g, m, h, cands, canons, n)
  }

  lemma ProgressNone(g: Graph, exact: bool, m: seq<nat>, h: seq<nat>, cands: seq<Id>, canons: seq<Id>)
    requires Forest(m) && |m| == |g| == |h| && |cands| == |canons|
    ensures Progress(g, exact, m, h, h, cands, canons, 0)
  {
  }

  lemma ProgressGrows(g: Graph, exact: bool, m: seq<nat>, h1: seq<nat>, h: seq<nat>, cands: seq<Id>, canons: seq<Id>,
                      n: nat)
    requires Forest(m) && |m| == |g| == |h1| == |h| && n <= |cands| == |canons|
    requires Progress(g, exact, m, h1, h, cands, canons, n)
    ensures Grows(h1, h)
  {
  }

  lemma ProtoRefs(t: Type)
    requires t.body.FuncProto?
    ensures |Refs(t)| == 1 + |t.body.params| && Refs(t)[0] == t.body.ret
    ensures forall i :: 0 <= i < |t.body.params| ==> Refs(t)[i + 1] == t.body.params[i].ty
  {
  }

  lemma ProgressRoom(g: Graph, exact: bool, m: seq<nat>, h1: seq<nat>, h: seq<nat>, cands: seq<Id>, canons: seq<Id>,
                     n: nat)
    requires Forest(m) && |m| == |g| == |h1| == |h| && n <= |cands| == |canons|
    requires Progress(g, exact, m, h1, h, cands, canons, n)
    ensures Room(h) <= Room(h1)
  {
    GrowsRoom(h1, h);
  }

  lemma RefsInside(g: Graph, i: Id)
    requires Closed(g) && i < |g|
    ensures forall k :: 0 <= k < |Refs(g[i])| ==> Refs(g[i])[k] < |g|
  {
  }

  // ----- when the check has to agree -----

  /** `phi` gives canonical-side ids their partners so that partners agree
      locally and their references are linked by it again. */
  ghost predicate Matching(g: Graph, m: seq<nat>, phi: seq<nat>) {
    && Forest(m) && |m| == |g| == |phi|
    && forall c :: 0 <= c < |phi| && Recorded(phi, c) ==> MatchedAt(g, m, phi, c)
  }

  ghost predicate MatchedAt(g: Graph, m: seq<nat>, phi: seq<nat>, c: Id)
    requires Forest(m) && |m| == |g| == |phi|
  {
    && c < |g| && phi[c] < |g|
    && Label(g[c]) == Label(g[phi[c]]) && |Refs(g[c])| == |Refs(g[phi[c]])|
    && (g[c].body.Fwd? ==> g[c] == g[phi[c]])
    && forall k :: 0 <= k < |Refs(g[c])| ==> Linked(g, m, phi, Refs(g[phi[c]])[k], Refs(g[c])[k])
  }

  /** Everything recorded so far is as `phi` has it. */
  ghost predicate Within(h: seq<nat>, phi: seq<nat>) {
    |h| == |phi| && forall c :: 0 <= c < |h| && Recorded(h, c) ==> phi[c] == h[c]
  }

  ghost predicate Follows(g: Graph, m: seq<nat>, phi: seq<nat>, h: seq<nat>) {
    Matching(g, m, phi) && Within(h, phi)
  }

  /** A recorded pair that follows the matching passes the local comparisons. */
  lemma FollowsAt(g: Graph, m: seq<nat>, phi: seq<nat>, h: seq<nat>, c: Id, t: Id)
    requires Follows(g, m, phi, h) && c < |g| && t < |g| <= MAX_NR_TYPES + 1 && h[c] == t
    ensures Label(g[t]) == Label(g[c]) && |Refs(g[t])| == |Refs(g[c])|
    ensures g[c].body.Fwd? ==> g[c] == g[t]
    ensures forall k :: 0 <= k < |Refs(g[t])| ==> Linked(g, m, phi, Refs(g[t])[k], Refs(g[c])[k])
  {
    assert Recorded(h, c) && Recorded(phi, c);
    assert MatchedAt(g, m, phi, c);
  }

  lemma NoneNext(g: Graph, m: seq<nat>, id: Id, cands: seq<Id>, n: nat)
    requires n < |cands| && id < |g| && g[id].body.Composite? && NoneMatches(g, m, id, cands, n)
    requires cands[n] < |g| && ShallowEqualStruct(g[id], g[cands[n]]) ==> !Matches(g, m, id, cands[n])
    ensures NoneMatches(g, m, id, cands, n + 1)
  {
  }

  lemma FollowKid(g: Graph, m: seq<nat>, phi: seq<nat>, h: seq<nat>, c: Id, t: Id, k: nat)
    requires Closed(g) && |h| == |g| && c < |g| && t < |g| && h[c] == t
    requires k < |Refs(g[c])| && k < |Refs(g[t])|
    ensures Follows(g, m, phi, h) ==> Linked(g, m, phi, Refs(g[t])[k], Refs(g[c])[k])
  {
    if Follows(g, m, phi, h) { FollowsAt(g, m, phi, h, c, t); }
  }

  lemma FollowPasses(g: Graph, m: seq<nat>, phi: seq<nat>, h: seq<nat>, c: Id, t: Id)
    requires |h| == |g| <= MAX_NR_TYPES + 1 && c < |g| && t < |g| && h[c] == t
    ensures Follows(g, m, phi, h) ==> LocallyEqual(g[t], g[c])
  {
    if Follows(g, m, phi, h) {
      FollowsAt(g, m, phi, h, c, t);
      LabelPasses(g[t], g[c]);
    }
  }

  /** The comparisons of one pair of descriptors, by kind. */
  predicate LocallyEqual(t: Type, t': Type) {
    && t.name == t'.name && KindOf(t) == KindOf(t') && t.kflag == t'.kflag && Vlen(t) == Vlen(t')
    && (t.body.Int? || t.body.Enum? || t.body.Fwd? ==> t == t')
    && (t.body.Array? ==> CompatArray(t, t'))
    && (t.body.Composite? ==> ShallowEqualStruct(t, t'))
    && (t.body.FuncProto? ==> CompatFuncProto(t, t'))
  }

  /** Some matching pairs the two ids. */
  ghost predicate Matches(g: Graph, m: seq<nat>, cand: Id, canon: Id) {
    exists phi: seq<nat> :: Pairs(g, m, phi, cand, canon)
  }

  ghost predicate Pairs(g: Graph, m: seq<nat>, phi: seq<nat>, cand: Id, canon: Id) {
    Matching(g, m, phi) && Linked(g, m, phi, cand, canon)
  }

  ghost function Partners(g: Graph, m: seq<nat>, cand: Id, canon: Id): (phi: seq<nat>)
    ensures Matches(g, m, cand, canon) ==> Pairs(g, m, phi, cand, canon)
  {
    if Matches(g, m, cand, canon) then
      var phi: seq<nat> :| Pairs(g, m, phi, cand, canon);
      phi
    else []
  }

  /** With nothing recorded yet, the partners are followed. */
  lemma PartnersFollowed(g: Graph, m: seq<nat>, h: seq<nat>, cand: Id, canon: Id)
    requires |h| == |g| == |m| && Forest(m) && forall c :: 0 <= c < |h| ==> !Recorded(h, c)
    ensures Matches(g, m, cand, canon) ==>
      var phi := Partners(g, m, cand, canon); Follows(g, m, phi, h) && Linked(g, m, phi, cand, canon)
  {
  }

  /** None of the first `n` candidates that look alike matches. */
  ghost predicate NoneMatches(g: Graph, m: seq<nat>, id: Id, cands: seq<Id>, n: nat)
    requires n <= |cands| && id < |g| && g[id].body.Composite?
  {
    forall k :: 0 <= k < n && cands[k] < |g| && ShallowEqualStruct(g[id], g[cands[k]]) ==> !Matches(g, m, id, cands[k])
  }

  lemma LabelPasses(t: Type, t': Type)
    requires Label(t) == Label(t') && |Refs(t)| == |Refs(t')|
    ensures t.name == t'.name && KindOf(t) == KindOf(t') && t.kflag == t'.kflag && Vlen(t) == Vlen(t')
    ensures t.body.Int? || t.body.Enum? ==> t == t'
    ensures t.body.Array? ==> CompatArray(t, t')
    ensures t.body.Composite? ==> ShallowEqualStruct(t, t')
    ensures t.body.FuncProto? ==> CompatFuncProto(t, t')
  {
    var zeros, zeros' := seq(|Refs(t)|, _ => 0), seq(|Refs(t')|, _ => 0);
    assert zeros == zeros';
    match t.body
    case Composite(_, _, ms) =>
      var l, l' := SetMemberTypes(ms, zeros), SetMemberTypes(t'.body.members, zeros);
      assert l == l' && |ms| == |t'.body.members|;
      forall i | 0 <= i < |ms|
        ensures ms[i].name == t'.body.members[i].name && ms[i].offset == t'.body.members[i].offset
      {
        assert l[i] == l'[i];
      }
    case FuncProto(_, ps) =>
      var l, l' := SetParamTypes(ps, zeros[1..]), SetParamTypes(t'.body.params, zeros[1..]);
      assert l == l';
      forall i | 0 <= i < |ps| ensures ps[i].name == t'.body.params[i].name {
        assert l[i] == l'[i];
      }
    case Datasec(_, vs) =>
      assert |SetVarTypes(vs, zeros)| == |vs|;
    case _ =>
  }

  // ----- inputs on which the check cannot fail -----

  predicate VarLike(t: Type) { t.body.Var? || t.body.Datasec? }

  /** All kinds are known, variables and sections are referred to by sections
      only, and void is canonical. */
  ghost predicate Tame(g: Graph, m: seq<nat>) {
    TameGraph(g) && |m| == |g| && m[0] == 0
  }

  ghost predicate TameGraph(g: Graph) {
    && |g| > 0 && (forall i :: 0 < i < |g| ==> !g[i].body.Void?)
    && forall i, k :: 0 <= i < |g| && 0 <= k < |Refs(g[i])| ==> TameRef(g, i, k)
  }

  predicate TameRef(g: Graph, i: Id, k: nat)
    requires i < |g| && k < |Refs(g[i])|
  {
    Refs(g[i])[k] < |g| && (VarLike(g[i]) || !VarLike(g[Refs(g[i])[k]]))
  }

  lemma TameKid(g: Graph, m: seq<nat>, i: Id, k: nat)
    requires i < |g| && k < |Refs(g[i])|
    ensures Tame(g, m) && !VarLike(g[i]) ==> Refs(g[i])[k] < |g| && !VarLike(g[Refs(g[i])[k]])
  {
    if Tame(g, m) { assert TameRef(g, i, k); }
  }

  /** The ids to compare are both void, which is caught before. */
  lemma VoidsMeet(g: Graph, m: seq<nat>, cand: Id, canonId: Id)
    requires Tame(g, m) && Forest(m) && cand < |g| && canonId < |g|
    requires g[cand].body.Void? && g[FwdRoot(g, m, canonId)].body.Void?
    ensures Root(m, cand) == Root(m, canonId)
  {
    assert cand == 0 && FwdRoot(g, m, canonId) == 0;
    RootStep(m, 0);
  }
}
