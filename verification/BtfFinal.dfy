/** Compaction and remapping on values: the numbering of canonical ids, the
    final graph, and why it still means what the original did. */
module BtfFinal {
  import opened BtfTypes
  import opened BtfMeaning
  import opened IdForest
  import opened BtfEquivalence
  import opened BtfCanon
  import opened BtfTwins
  import opened BtfRefPass

  /** How many canonical ids lie in [1, n). */
  function CanonCount(m: seq<nat>, n: nat): nat
    requires n <= |m|
  {
    if n <= 1 then 0 else CanonCount(m, n - 1) + if m[n - 1] == n - 1 then 1 else 0
  }

  /** The id a canonical id gets when the canonical ones are packed in order. */
  function NewId(m: seq<nat>, i: Id): nat
    requires i < |m|
  {
    if i == 0 then 0 else 1 + CanonCount(m, i)
  }

  lemma {:induction false} CanonCountMono(m: seq<nat>, i: nat, j: nat)
    requires i <= j <= |m|
    ensures CanonCount(m, i) <= CanonCount(m, j) <= CanonCount(m, i) + (j - i)
    decreases j
  {
    if i < j { CanonCountMono(m, i, j - 1); }
  }

  /** New ids strictly increase with canonical ids and never exceed them. */
  lemma NewIdIncreases(m: seq<nat>, i: Id, j: Id)
    requires i < j < |m| && m[i] == i && m[j] == j
    ensures NewId(m, i) < NewId(m, j) <= CanonCount(m, |m|)
    ensures NewId(m, j) <= j
  {
    if i > 0 { CanonCountMono(m, i + 1, j); }
    CanonCountMono(m, 1, j);
    CanonCountMono(m, j + 1, |m|);
  }

  lemma NewIdRange(m: seq<nat>, i: Id)
    requires 0 < i < |m| && m[i] == i
    ensures 1 <= NewId(m, i) <= CanonCount(m, |m|) && NewId(m, i) <= i
  {
    CanonCountMono(m, 1, i);
    CanonCountMono(m, i + 1, |m|);
  }

  /** Every new id is the new id of a canonical id. */
  lemma {:induction false} NewIdOnto(m: seq<nat>, n: nat, k: nat) returns (i: Id)
    requires n <= |m| && 1 <= k <= CanonCount(m, n)
    ensures 0 < i < n && m[i] == i && NewId(m, i) == k
    decreases n
  {
    if CanonCount(m, n - 1) >= k {
      i := NewIdOnto(m, n - 1, k);
    } else {
      i := n - 1;
    }
  }

  /** Every chain of links ends at a canonical id. */
  ghost predicate Resolved(m: seq<nat>) {
    && Forest(m) && InRange(m) && |m| > 0 && m[0] == 0
    && forall i :: 0 <= i < |m| ==> Mapped(m, i)
  }

  lemma RootCanonical(m: seq<nat>, i: Id)
    requires Resolved(m) && i < |m|
    ensures Root(m, i) < |m| && m[Root(m, i)] == Root(m, i)
  {
  }

  /** Where an original id ends up. */
  ghost function FinalId(m: seq<nat>, i: Id): nat
    requires Resolved(m) && i < |m|
  {
    NewId(m, Root(m, i))
  }

  lemma FinalIdRange(m: seq<nat>, i: Id)
    requires Resolved(m) && i < |m|
    ensures FinalId(m, i) <= CanonCount(m, |m|)
  {
    RootCanonical(m, i);
    if Root(m, i) > 0 { NewIdRange(m, Root(m, i)); }
  }

  ghost function FinalIds(m: seq<nat>, refs: seq<Id>): (r: seq<Id>)
    requires Resolved(m) && forall k :: 0 <= k < |refs| ==> refs[k] < |m|
    ensures |r| == |refs|
  {
    seq(|refs|, k requires 0 <= k < |refs| => FinalId(m, refs[k]))
  }

  /** `f` holds exactly the canonical descriptors of `g`, packed in order, with
      every reference replaced by its final id. */
  ghost predicate Finished(g: Graph, m: seq<nat>, f: Graph)
    requires Closed(g) && Resolved(m) && |m| == |g|
  {
    && |f| == CanonCount(m, |m|) + 1
    && forall i :: 0 <= i < |g| && m[i] == i ==> FinishedAt(g, m, f, i)
  }

  ghost predicate FinishedAt(g: Graph, m: seq<nat>, f: Graph, i: Id)
    requires Closed(g) && Resolved(m) && |m| == |g| && i < |g|
  {
    NewId(m, i) < |f| && f[NewId(m, i)] == SetRefs(g[i], FinalIds(m, Refs(g[i])))
  }

  lemma FinishedSource(g: Graph, m: seq<nat>, f: Graph, k: Id) returns (i: Id)
    requires Closed(g) && Resolved(m) && |m| == |g| && Finished(g, m, f) && k < |f|
    ensures i < |g| && m[i] == i && NewId(m, i) == k && FinishedAt(g, m, f, i)
  {
    if k == 0 { i := 0; } else { i := NewIdOnto(m, |m|, k); }
    assert FinishedAt(g, m, f, i);
  }

  /** The final graph has no dangling reference. */
  lemma FinishedClosed(g: Graph, m: seq<nat>, f: Graph)
    requires Closed(g) && Resolved(m) && |m| == |g| && Finished(g, m, f)
    ensures Closed(f)
  {
    CanonCountMono(m, 1, |m|);
    forall k, j | 0 <= k < |f| && 0 <= j < |Refs(f[k])| ensures Refs(f[k])[j] < |f| {
      var i := FinishedSource(g, m, f, k);
      FinalIdRange(m, Refs(g[i])[j]);
    }
  }

  lemma FinishedRoot(g: Graph, m: seq<nat>, f: Graph, i: Id)
    requires Closed(g) && Resolved(m) && |m| == |g| && Finished(g, m, f) && i < |g|
    ensures FinishedAt(g, m, f, Root(m, i)) && FinalId(m, i) < |f|
  {
    RootCanonical(m, i);
  }

  lemma FinishedLooks(orig: Graph, g: Graph, exact: bool, m: seq<nat>, f: Graph, r: Id)
    requires Closed(g) && Resolved(m) && |m| == |g| && Closed(orig) && Rewritten(orig, g, exact)
    requires r < |g| && FinishedAt(g, m, f, r)
    ensures ShapeOf(f[NewId(m, r)], exact) == ShapeOf(orig[r], exact)
    ensures |Kids(f[NewId(m, r)], exact)| == |Kids(orig[r], exact)| == |Kids(g[r], exact)|
  {
    SetRefsLabel(g[r], FinalIds(m, Refs(g[r])));
    LabelDecidesShape(f[NewId(m, r)], g[r], exact);
    RewrittenLooks(orig, g, exact, r);
  }

  lemma FinishedKid(g: Graph, exact: bool, m: seq<nat>, f: Graph, r: Id, k: nat)
    requires Closed(g) && Resolved(m) && |m| == |g|
    requires r < |g| && FinishedAt(g, m, f, r) && k < |Kids(f[NewId(m, r)], exact)|
    ensures k < |Kids(g[r], exact)| && Kids(g[r], exact)[k] < |g|
    ensures Kids(f[NewId(m, r)], exact)[k] == FinalId(m, Kids(g[r], exact)[k])
  {
    SetRefsLabel(g[r], FinalIds(m, Refs(g[r])));
    LabelDecidesShape(f[NewId(m, r)], g[r], exact);
    assert Refs(g[r])[k] < |g|;
  }

  ghost predicate FinalAgrees(orig: Graph, exact: bool, m: seq<nat>, f: Graph, n: nat)
    requires Closed(orig) && Closed(f) && Resolved(m) && |m| == |orig|
  {
    forall i :: 0 <= i < |orig| ==> FinalAgreesAt(orig, exact, m, f, i, n)
  }

  ghost predicate FinalAgreesAt(orig: Graph, exact: bool, m: seq<nat>, f: Graph, i: Id, n: nat)
    requires Closed(orig) && Closed(f) && Resolved(m) && |m| == |orig| && i < |orig|
  {
    FinalId(m, i) < |f| && Unfold(f, exact, FinalId(m, i), n) == Unfold(orig, exact, i, n)
  }

  lemma FinalStep(orig: Graph, g: Graph, exact: bool, m: seq<nat>, f: Graph, i: Id, n: nat)
    requires Sound(orig, exact, m) && Closed(g) && Rewritten(orig, g, exact) && Resolved(m) && |m| == |g|
    requires Closed(f) && Finished(g, m, f) && i < |orig| && FinalAgrees(orig, exact, m, f, n)
    ensures FinalAgreesAt(orig, exact, m, f, i, n + 1)
  {
    var r := Root(m, i);
    FinishedRoot(g, m, f, i);
    FinishedLooks(orig, g, exact, m, f, r);
    var kids, kids' := Kids(f[NewId(m, r)], exact), Kids(orig[r], exact);
    forall k | 0 <= k < |kids|
      ensures Unfold(f, exact, kids[k], n) == Unfold(orig, exact, kids'[k], n)
    {
      FinishedKid(g, exact, m, f, r, k);
      assert FinalAgreesAt(orig, exact, m, f, Kids(g[r], exact)[k], n);
      RewrittenKid(orig, g, exact, r, k);
    }
    UnfoldStep(f, NewId(m, r), orig, r, exact, n);
    RootSame(orig, exact, m, i);
  }

  lemma {:induction false} FinalAtDepth(orig: Graph, g: Graph, exact: bool, m: seq<nat>, f: Graph, n: nat)
    requires Sound(orig, exact, m) && Closed(g) && Rewritten(orig, g, exact) && Resolved(m) && |m| == |g|
    requires Closed(f) && Finished(g, m, f)
    ensures FinalAgrees(orig, exact, m, f, n)
    decreases n
  {
    hide Unfold, FinalAgrees, Sound, Rewritten, Closed, Resolved, Finished;
    if n == 0 {
      FinalAtNone(orig, g, exact, m, f);
    } else {
      FinalAtDepth(orig, g, exact, m, f, n - 1);
      FinalDeeper(orig, g, exact, m, f, n - 1);
    }
  }

  lemma FinalAtNone(orig: Graph, g: Graph, exact: bool, m: seq<nat>, f: Graph)
    requires Sound(orig, exact, m) && Closed(g) && Rewritten(orig, g, exact) && Resolved(m) && |m| == |g|
    requires Closed(f) && Finished(g, m, f)
    ensures FinalAgrees(orig, exact, m, f, 0)
  {
    forall i | 0 <= i < |orig| ensures FinalAgreesAt(orig, exact, m, f, i, 0) {
      FinishedRoot(g, m, f, i);
    }
  }

  lemma FinalDeeper(orig: Graph, g: Graph, exact: bool, m: seq<nat>, f: Graph, n: nat)
    requires Sound(orig, exact, m) && Closed(g) && Rewritten(orig, g, exact) && Resolved(m) && |m| == |g|
    requires Closed(f) && Finished(g, m, f) && FinalAgrees(orig, exact, m, f, n)
    ensures FinalAgrees(orig, exact, m, f, n + 1)
  {
    var deeper := n + 1;
    forall i | 0 <= i < |orig| ensures FinalAgreesAt(orig, exact, m, f, i, deeper) {
      FinalStep(orig, g, exact, m, f, i, n);
    }
  }

  /** Deduplication preserves meaning: every original id and its final id unfold
      alike at every depth. */
  lemma FinalMeaning(orig: Graph, g: Graph, exact: bool, m: seq<nat>, f: Graph, i: Id)
    requires Sound(orig, exact, m) && Closed(g) && Rewritten(orig, g, exact) && Resolved(m) && |m| == |g|
    requires Closed(f) && Finished(g, m, f) && i < |orig|
    ensures SameMeaning(orig, i, f, FinalId(m, i), exact)
  {
    FinishedRoot(g, m, f, i);
    forall n: nat ensures Unfold(orig, exact, i, n) == Unfold(f, exact, FinalId(m, i), n) {
      FinalAtDepth(orig, g, exact, m, f, n);
      assert FinalAgreesAt(orig, exact, m, f, i, n);
    }
  }

  lemma {:induction false} FinalIdsInjective(m: seq<nat>, refs: seq<Id>, refs': seq<Id>)
    requires Resolved(m) && AllRoots(m, refs) && AllRoots(m, refs')
    requires |refs| == |refs'| && FinalIds(m, refs) == FinalIds(m, refs')
    ensures refs == refs'
  {
    forall k | 0 <= k < |refs| ensures refs[k] == refs'[k] {
      assert FinalIds(m, refs)[k] == FinalIds(m, refs')[k];
      RootStep(m, refs[k]);
      RootStep(m, refs'[k]);
      if refs[k] < refs'[k] { NewIdIncreases(m, refs[k], refs'[k]); }
      if refs'[k] < refs[k] { NewIdIncreases(m, refs'[k], refs[k]); }
    }
  }

  /** Descriptors that are pairwise distinct in the result. The type field of a
      forward declaration is unused, hence zero. */
  predicate Distinguished(t: Type) {
    t.body.Int? || t.body.Enum? || IsReference(t) || (t.body.Fwd? && t.body.fwdType == 0)
  }

  lemma DistinguishedRefs(g: Graph, m: seq<nat>, i: Id)
    requires RefStage(g, m) && Resolved(m) && i < |g| && Distinguished(g[i])
    ensures AllRoots(m, Refs(g[i]))
  {
    assert RefStageAt(g, m, i);
  }

  /** Only void resolves to void. */
  lemma VoidAlone(orig: Graph, exact: bool, m: seq<nat>, i: Id)
    requires Sound(orig, exact, m) && orig[0].body.Void? && NoVoid(orig) && i < |orig| && Root(m, i) == 0
    ensures i == 0
  {
    RootSame(orig, exact, m, i);
    SameShape(orig, exact, i, 0);
    assert ShapeOf(orig[0], exact) == Full(Label(orig[0]));
  }

  /** The source of a distinguished descriptor is one as well. */
  lemma DistinguishedSource(orig: Graph, g: Graph, exact: bool, m: seq<nat>, i: Id)
    requires Sound(orig, exact, m) && orig[0].body.Void? && NoVoid(orig) && Closed(g) && Resolved(m) && |m| == |g|
    requires i < |g| && Distinguished(SetRefs(g[i], FinalIds(m, Refs(g[i]))))
    ensures Distinguished(g[i])
  {
    if g[i].body.Fwd? {
      assert FinalIds(m, Refs(g[i]))[0] == FinalId(m, Refs(g[i])[0]);
      VoidAlone(orig, exact, m, Refs(g[i])[0]);
    }
  }

  lemma EqualSources(m: seq<nat>, t: Type, t': Type)
    requires Resolved(m) && AllRoots(m, Refs(t)) && AllRoots(m, Refs(t'))
    requires SetRefs(t, FinalIds(m, Refs(t))) == SetRefs(t', FinalIds(m, Refs(t')))
    ensures t == t'
  {
    SetRefsLabel(t, FinalIds(m, Refs(t)));
    SetRefsLabel(t', FinalIds(m, Refs(t')));
    FinalIdsInjective(m, Refs(t), Refs(t'));
    LabelAndRefs(t, t');
  }

  /** Nothing is left to merge: no two ints, enums, forward declarations or
      reference descriptors of the result are identical. */
  lemma FinalDistinct(orig: Graph, g: Graph, exact: bool, m: seq<nat>, f: Graph, k: Id, l: Id)
    requires Sound(orig, exact, m) && orig[0].body.Void? && NoVoid(orig)
    requires Closed(g) && Resolved(m) && |m| == |g| && Finished(g, m, f)
    requires NoDuplicates(g, m) && RefStage(g, m)
    requires 0 < k < |f| && 0 < l < |f| && Distinguished(f[k]) && f[k] == f[l]
    ensures k == l
  {
    hide Finished, Closed, Resolved, NoDuplicates, RefStage, AllRoots, Distinguished, Sound, NoVoid;
    var i := FinishedSource(g, m, f, k);
    var j := FinishedSource(g, m, f, l);
    DistinguishedSource(orig, g, exact, m, i);
    DistinguishedSource(orig, g, exact, m, j);
    DistinguishedRefs(g, m, i);
    DistinguishedRefs(g, m, j);
    EqualSources(m, g[i], g[j]);
    OneSource(g, m, i, j);
  }

  lemma OneSource(g: Graph, m: seq<nat>, i: Id, j: Id)
    requires |m| == |g| && NoDuplicates(g, m) && 0 < i < |g| && 0 < j < |g|
    requires m[i] == i && m[j] == j && Distinguished(g[i]) && g[i] == g[j]
    ensures i == j
  {
  }

  // ----- the loops of the two passes -----

  /** Compaction before visiting id `n`: canonical descriptors below `n` are
      packed, those from `n` on are still in place, so no unread descriptor has
      been overwritten. */
  ghost predicate Packing(g: Graph, m: seq<nat>, f: Graph, h: seq<nat>, n: nat) {
    && 1 <= n <= |m| == |g| == |f| == |h| && f[0] == g[0] && h[0] == 0
    && (forall i :: n <= i < |g| ==> f[i] == g[i] && h[i] == UNPROCESSED)
    && (forall i :: 0 < i < n ==> PackedAt(g, m, f, h, i))
  }

  ghost predicate PackedAt(g: Graph, m: seq<nat>, f: Graph, h: seq<nat>, i: Id)
    requires i < |m| == |g| == |f| == |h|
  {
    if m[i] == i then NewId(m, i) < |f| && f[NewId(m, i)] == g[i] && h[i] == NewId(m, i) else h[i] == UNPROCESSED
  }

  lemma PackOne(g: Graph, m: seq<nat>, f: Graph, h: seq<nat>, n: nat)
    requires Packing(g, m, f, h, n) && n < |m|
    ensures m[n] == n ==> NewId(m, n) <= n
    ensures m[n] == n ==> Packing(g, m, f[NewId(m, n) := f[n]], h[n := NewId(m, n)], n + 1)
    ensures m[n] != n ==> Packing(g, m, f, h, n + 1)
  {
    if m[n] == n {
      NewIdRange(m, n);
      var k := NewId(m, n);
      var f', h' := f[k := f[n]], h[n := k];
      forall i | 0 < i < n + 1 ensures PackedAt(g, m, f', h', i) {
        if i < n {
          assert PackedAt(g, m, f, h, i);
          if m[i] == i { NewIdIncreases(m, i, n); }
        }
      }
    } else {
      forall i | 0 < i < n + 1 ensures PackedAt(g, m, f, h, i) {
      }
    }
  }

  /** The table of new ids the compaction leaves behind. */
  ghost predicate Numbered(m: seq<nat>, h: seq<nat>) {
    |h| == |m| && forall i :: 0 <= i < |m| && m[i] == i ==> h[i] == NewId(m, i)
  }

  /** Remapping before visiting final id `n`. */
  ghost predicate Remapping(g: Graph, m: seq<nat>, f: Graph, n: nat)
    requires Closed(g) && Resolved(m) && |m| == |g|
  {
    && |f| == CanonCount(m, |m|) + 1 && 1 <= n <= |f|
    && forall i :: 0 <= i < |g| && m[i] == i ==> RemappedAt(g, m, f, i, n)
  }

  ghost predicate RemappedAt(g: Graph, m: seq<nat>, f: Graph, i: Id, n: nat)
    requires Closed(g) && Resolved(m) && |m| == |g| && i < |g|
  {
    && NewId(m, i) < |f|
    && f[NewId(m, i)] == if NewId(m, i) < n then SetRefs(g[i], FinalIds(m, Refs(g[i]))) else g[i]
  }

  lemma RemapStart(g: Graph, m: seq<nat>, f: Graph, h: seq<nat>)
    requires Closed(g) && Resolved(m) && Packing(g, m, f, h, |m|) && g[0].body.Void?
    ensures CanonCount(m, |m|) < |m| && Remapping(g, m, f[..CanonCount(m, |m|) + 1], 1) && Numbered(m, h)
  {
    CanonCountMono(m, 1, |m|);
    var f' := f[..CanonCount(m, |m|) + 1];
    forall i | 0 <= i < |g| && m[i] == i ensures RemappedAt(g, m, f', i, 1) {
      if i > 0 {
        NewIdRange(m, i);
        assert PackedAt(g, m, f, h, i);
      } else {
        SetOwnRefs(g[0]);
        assert FinalIds(m, Refs(g[0])) == [];
      }
    }
    forall i | 0 <= i < |m| && m[i] == i ensures h[i] == NewId(m, i) {
      if i > 0 { assert PackedAt(g, m, f, h, i); }
    }
  }

  lemma RemapSource(g: Graph, m: seq<nat>, f: Graph, n: nat) returns (i: Id)
    requires Closed(g) && Resolved(m) && |m| == |g| && Remapping(g, m, f, n) && n < |f|
    ensures 0 < i < |g| && m[i] == i && NewId(m, i) == n && f[n] == g[i]
  {
    i := NewIdOnto(m, |m|, n);
    assert RemappedAt(g, m, f, i, n);
  }

  lemma RemapOne(g: Graph, m: seq<nat>, f: Graph, n: nat, t': Type)
    requires Closed(g) && Resolved(m) && |m| == |g| && Remapping(g, m, f, n) && n < |f|
    requires (forall k :: 0 <= k < |Refs(f[n])| ==> Refs(f[n])[k] < |m|) && t' == SetRefs(f[n], FinalIds(m, Refs(f[n])))
    ensures Remapping(g, m, f[n := t'], n + 1)
  {
    var src := RemapSource(g, m, f, n);
    var f' := f[n := t'];
    forall i | 0 <= i < |g| && m[i] == i ensures RemappedAt(g, m, f', i, n + 1) {
      assert RemappedAt(g, m, f, i, n);
      if i < src { NewIdIncreases(m, i, src); }
      if src < i { NewIdIncreases(m, src, i); }
    }
  }

  lemma RemapEnd(g: Graph, m: seq<nat>, f: Graph)
    requires Closed(g) && Resolved(m) && |m| == |g| && Remapping(g, m, f, |f|)
    ensures Finished(g, m, f)
  {
    forall i | 0 <= i < |g| && m[i] == i ensures FinishedAt(g, m, f, i) {
      assert RemappedAt(g, m, f, i, |f|);
    }
  }

  lemma PackingStart(g: Graph, m: seq<nat>, h: seq<nat>)
    requires |g| == |m| > 0 && h == seq(|m|, i => if i == 0 then 0 else UNPROCESSED)
    ensures Packing(g, m, g, h, 1)
  {
  }

  ghost predicate AllNumbered(m: seq<nat>, h: seq<nat>, refs: seq<Id>)
    requires Forest(m) && |h| == |m| && forall k :: 0 <= k < |refs| ==> refs[k] < |m|
  {
    forall k :: 0 <= k < |refs| ==> h[Root(m, refs[k])] <= MAX_NR_TYPES
  }

  ghost function NewIds(m: seq<nat>, h: seq<nat>, refs: seq<Id>): (r: seq<Id>)
    requires Forest(m) && |h| == |m| && forall k :: 0 <= k < |refs| ==> refs[k] < |m|
    ensures |r| == |refs|
  {
    seq(|refs|, k requires 0 <= k < |refs| => h[Root(m, refs[k])])
  }

  ghost predicate NoVoid(g: Graph) {
    forall i :: 0 < i < |g| ==> !g[i].body.Void?
  }

  /** The next descriptor to remap has only numbered references. */
  lemma RemapReady(g: Graph, m: seq<nat>, h: seq<nat>, f: Graph, n: nat)
    requires Closed(g) && Resolved(m) && |m| == |g| && Numbered(m, h) && NoVoid(g)
    requires Remapping(g, m, f, n) && n < |f|
    ensures !f[n].body.Void? && Forest(m)
    ensures forall k :: 0 <= k < |Refs(f[n])| ==> Refs(f[n])[k] < |m|
    ensures AllNumbered(m, h, Refs(f[n])) && NewIds(m, h, Refs(f[n])) == FinalIds(m, Refs(f[n]))
  {
    var i := RemapSource(g, m, f, n);
    var refs := Refs(f[n]);
    CanonCountMono(m, 1, |m|);
    forall k | 0 <= k < |refs|
      ensures refs[k] < |m| && h[Root(m, refs[k])] <= MAX_NR_TYPES && h[Root(m, refs[k])] == FinalId(m, refs[k])
    {
      assert Refs(g[i])[k] < |g|;
      RootCanonical(m, refs[k]);
      FinalIdRange(m, refs[k]);
    }
  }

  /** What the first four passes achieve: every id resolves to a canonical one
      that means the same, no two canonical plain descriptors are equal, and
      no canonical twins or clashing enums are left. */
  ghost predicate SolvedMap(orig: Graph, g: Graph, exact: bool, m: seq<nat>) {
    && Sound(orig, exact, m) && Closed(g) && |g| == |m| && Rewritten(orig, g, exact)
    && NoDuplicates(g, m) && RefStage(g, m) && g[0].body.Void?
    && Tidy(orig, exact, m)
    && forall i :: 0 <= i < |m| ==> Mapped(m, i)
  }

  lemma SolvedResolves(orig: Graph, g: Graph, exact: bool, m: seq<nat>)
    requires SolvedMap(orig, g, exact, m)
    ensures Resolved(m) && NoVoid(g)
  {
    forall i | 0 < i < |g| ensures !g[i].body.Void? {
      assert RefStageAt(g, m, i);
    }
  }

  lemma AfterCompaction(orig: Graph, g: Graph, exact: bool, m: seq<nat>, f: Graph, h: seq<nat>)
    requires SolvedMap(orig, g, exact, m) && Packing(g, m, f, h, |m|)
    ensures Closed(g) && Resolved(m) && NoVoid(g) && Numbered(m, h) && CanonCount(m, |m|) < |m| == |g|
    ensures Remapping(g, m, f[..CanonCount(m, |m|) + 1], 1)
  {
    SolvedResolves(orig, g, exact, m);
    RemapStart(g, m, f, h);
  }

  /** The result of a deduplication: every original id means the same as its
      final id, nothing dangles, what is left is as many types as there are
      canonical ids, and no two ints, enums, forward declarations or reference
      descriptors are left identical, nor, with resolution, a valueless enum
      beside a full one of its name and size. */
  ghost predicate Deduplicated(orig: Graph, exact: bool, m: seq<nat>, f: Graph) {
    && Closed(orig) && Closed(f) && Resolved(m) && |m| == |orig|
    && |f| == CanonCount(m, |m|) + 1 <= |orig|
    && (forall i :: 0 <= i < |orig| ==> SameMeaning(orig, i, f, FinalId(m, i), exact))
    && (forall k, l :: 0 < k < |f| && 0 < l < |f| && Distinguished(f[k]) && f[k] == f[l] ==> k == l)
    && (!exact ==> forall k, l :: 0 < k < |f| && 0 < l < |f| ==> !Clash(f[k], f[l]))
  }

  /** Enums are left as they were. */
  lemma FinalEnum(orig: Graph, g: Graph, exact: bool, m: seq<nat>, f: Graph, k: Id) returns (i: Id)
    requires Closed(orig) && Rewritten(orig, g, exact) && Closed(g) && Resolved(m) && |m| == |g| && Finished(g, m, f)
    requires 0 < k < |f| && f[k].body.Enum?
    ensures 0 < i < |orig| && m[i] == i && f[k] == orig[i]
  {
    i := FinishedSource(g, m, f, k);
    assert RewrittenAt(orig, orig[i], g[i], exact);
    assert KindOf(Label(orig[i])) == KindOf(orig[i]) && KindOf(Label(g[i])) == KindOf(g[i]);
    hide Resolved, Finished, Rewritten;
    SetRefsLabel(g[i], FinalIds(m, Refs(g[i])));
    LabelAndRefs(orig[i], f[k]);
  }

  lemma SolvedVoid(orig: Graph, g: Graph, exact: bool, m: seq<nat>)
    requires SolvedMap(orig, g, exact, m)
    ensures orig[0].body.Void? && NoVoid(orig)
  {
    SolvedResolves(orig, g, exact, m);
    forall i | 0 <= i < |g| ensures KindOf(orig[i]) == KindOf(g[i]) {
      assert RewrittenAt(orig, orig[i], g[i], exact);
      assert KindOf(Label(orig[i])) == KindOf(orig[i]) && KindOf(Label(g[i])) == KindOf(g[i]);
    }
  }

  lemma AfterRemap(orig: Graph, g: Graph, exact: bool, m: seq<nat>, f: Graph)
    requires SolvedMap(orig, g, exact, m) && Resolved(m) && Closed(g) && |m| == |g| && Finished(g, m, f)
    ensures Deduplicated(orig, exact, m, f)
  {
    FinishedClosed(g, m, f);
    CanonCountMono(m, 1, |m|);
    SolvedVoid(orig, g, exact, m);
    forall i | 0 <= i < |orig| ensures SameMeaning(orig, i, f, FinalId(m, i), exact) {
      FinalMeaning(orig, g, exact, m, f, i);
    }
    forall k, l | 0 < k < |f| && 0 < l < |f| && Distinguished(f[k]) && f[k] == f[l] ensures k == l {
      FinalDistinct(orig, g, exact, m, f, k, l);
    }
    if !exact {
      forall k, l | 0 < k < |f| && 0 < l < |f| ensures !Clash(f[k], f[l]) {
        FinalNoClash(orig, g, m, f, k, l);
      }
    }
  }

  /** No valueless enum is left beside a full one it could be resolved to. */
  lemma FinalNoClash(orig: Graph, g: Graph, m: seq<nat>, f: Graph, k: Id, l: Id)
    requires Closed(orig) && Rewritten(orig, g, false) && Closed(g) && Resolved(m) && |m| == |g| && Finished(g, m, f)
    requires NoClash(orig, m) && 0 < k < |f| && 0 < l < |f|
    ensures !Clash(f[k], f[l])
  {
    hide Finished, Resolved, Closed, Rewritten;
    if f[k].body.Enum? && f[l].body.Enum? {
      var i := FinalEnum(orig, g, false, m, f, k);
      var j := FinalEnum(orig, g, false, m, f, l);
    }
  }

  // ----- the initial state -----

  function InitialMap(g: Graph): seq<nat> {
    seq(|g|, i requires 0 <= i < |g| =>
      if i == 0 then 0 else if g[i].body.Var? || g[i].body.Datasec? then i else UNPROCESSED)
  }

  lemma InitialSound(g: Graph, exact: bool)
    requires Closed(g)
    ensures Sound(g, exact, InitialMap(g)) && LinksMapped(InitialMap(g)) && PrimStage(g, InitialMap(g), 1)
    ensures TableInv(g, exact, InitialMap(g), multiset{}) && Rewritten(g, g, exact)
  {
    var m := InitialMap(g);
    assert Ranked(m, seq(|g|, _ => 0));
    forall i | 0 <= i < |g| ensures RewrittenAt(g, g[i], g[i], exact) {
      RefsInside(g, i);
    }
  }

  /** The first loop of btf_dedup_compact_types: no id has a new one yet. */
  method ClearIds(hypotMap: array<nat>)
    requires hypotMap.Length > 0
    modifies hypotMap
    ensures hypotMap[..] == seq(hypotMap.Length, i => if i == 0 then 0 else UNPROCESSED)
  {
    hypotMap[0] := 0;
    for i := 1 to hypotMap.Length
      invariant hypotMap[0] == 0 && forall k :: 1 <= k < i ==> hypotMap[k] == UNPROCESSED
    {
      hypotMap[i] := UNPROCESSED;
    }
  }
}
