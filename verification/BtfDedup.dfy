/** btf__dedup: the in-place passes over the type array, the canonical map and
    the hypothetical map. */
module BtfDedup {
  import opened BtfTypes
  import opened BtfMeaning
  import opened IdForest
  import opened BtfEquivalence
  import opened BtfCanon
  import opened BtfTwins
  import opened BtfRefPass
  import opened BtfFinal
  import opened BtfComplete
  import opened Basics
  import HashMaps

  datatype Errno = EInval | ENoMem | ELoop

  datatype Verdict = Equal | Different | Failed(errno: Errno)

  datatype IdResult = Got(id: Id) | NoId(errno: Errno)

  datatype Outcome = Done | Error(errno: Errno)

  /** Table keys are signature hashes; `collide` forces all into one bucket. */
  function TableHashing(collide: bool): HashMaps.Hashing<int> {
    HashMaps.Hashing(h => if collide then 0 else h % WORD, (a, b) => a == b)
  }

  lemma TableHashingRespectful(collide: bool)
    ensures HashMaps.Respectful(TableHashing(collide))
  {
  }

  class Dedup {
    /** opts.dont_resolve_fwds: forward declarations stay unresolved. */
    const exact: bool
    /** opts.dedup_table_size == 1: all candidates share one bucket. */
    const collide: bool
    const types: array<Type>
    const canonMap: array<nat>
    const hypotMap: array<nat>
    var hypotList: seq<Id>
    const table: HashMaps.HashMap<int, Id>
    var nrTypes: nat
    /** The graph as it was given. */
    ghost const orig: Graph

    /** btf_dedup_new: void, variables and data sections are canonical at once. */
    constructor (btf: array<Type>, exact: bool, collide: bool)
      requires Closed(btf[..])
      ensures this.types == btf && this.exact == exact && this.collide == collide && nrTypes == btf.Length - 1
      ensures orig == btf[..]
      ensures fresh(canonMap) && fresh(hypotMap) && fresh(table) && canonMap != hypotMap
      ensures canonMap[..] == InitialMap(btf[..])
      ensures hypotMap[..] == seq(btf.Length, _ => UNPROCESSED) && hypotList == []
      ensures table.Valid() && table.fns == TableHashing(collide) && table.Entries() == multiset{}
    {
      hide HashMaps.HashMap.Valid;
      types, this.exact, this.collide, nrTypes, hypotList, orig := btf, exact, collide, btf.Length - 1, [], btf[..];
      canonMap := new nat[btf.Length];
      hypotMap := new nat[btf.Length];
      table := new HashMaps.HashMap<int, Id>(TableHashing(collide));
      new;
      canonMap[0] := 0;
      for i := 1 to btf.Length
        modifies canonMap
        invariant canonMap[..i] == InitialMap(btf[..])[..i]
      {
        canonMap[i] := if btf[i].body.Var? || btf[i].body.Datasec? then i else UNPROCESSED;
      }
      for i := 0 to btf.Length
        modifies hypotMap
        invariant canonMap[..] == InitialMap(btf[..])
        invariant forall k :: 0 <= k < i ==> hypotMap[k] == UNPROCESSED
      {
        hypotMap[i] := UNPROCESSED;
      }
    }

    /** The arrays are aligned and every reference and link stays inside them. */
    ghost predicate Aligned()
      reads types, canonMap
    {
      && types.Length == canonMap.Length == hypotMap.Length <= MAX_NR_TYPES + 1 && canonMap != hypotMap
      && Closed(types[..]) && Forest(canonMap[..])
    }

    /** resolve_type_id. */
    method ResolveTypeId(id: Id) returns (r: Id)
      requires Forest(canonMap[..]) && id < canonMap.Length
      ensures r == Root(canonMap[..], id)
    {
      r := id;
      ghost var m := canonMap[..];
      ghost var rank :| Ranked(m, rank);
      while canonMap[r] <= MAX_NR_TYPES && canonMap[r] != r
        invariant r < canonMap.Length && Root(m, r) == Root(m, id)
        decreases rank[r]
      {
        assert !IsEnd(m, r);
        RootStep(m, r);
        r := canonMap[r];
      }
      RootStep(m, r);
    }

    /** resolve_fwd_id. */
    method ResolveFwdId(id: Id) returns (r: Id)
      requires Aligned() && id < types.Length
      ensures r == FwdRoot(types[..], canonMap[..], id)
    {
      if !types[id].body.Fwd? { return id; }
      r := ResolveTypeId(id);
      if !types[r].body.Fwd? { return r; }
      return id;
    }

    /** btf_dedup_clear_hypot_map. */
    method ClearHypotMap()
      requires HypotOk(hypotMap[..], hypotList)
      modifies hypotMap, this`hypotList
      ensures forall c :: 0 <= c < hypotMap.Length ==> !Recorded(hypotMap[..], c)
      ensures hypotList == [] && HypotOk(hypotMap[..], hypotList)
    {
      var list := hypotList;
      for i := 0 to |list|
        modifies hypotMap
        invariant forall k :: 0 <= k < |list| ==> list[k] in list && list[k] < hypotMap.Length
        invariant forall c :: 0 <= c < hypotMap.Length && hypotMap[c] <= MAX_NR_TYPES ==> c in list[i..]
      {
        assert list[i..] == [list[i]] + list[i + 1..];
        hypotMap[list[i]] := UNPROCESSED;
      }
      hypotList := [];
    }

    /** btf_dedup_is_equiv. A positive answer means the two ids are linked and
        every pair recorded on the way is justified. */
    method IsEquiv(cand: Id, canonId: Id, ghost phi: seq<nat>) returns (v: Verdict)
      requires Aligned() && cand < types.Length && canonId < types.Length
      requires HypotOk(hypotMap[..], hypotList)
      modifies hypotMap, this`hypotList
      ensures HypotOk(hypotMap[..], hypotList)
      ensures Grows(old(hypotMap[..]), hypotMap[..])
      ensures v == Equal ==>
        && Linked(types[..], canonMap[..], hypotMap[..], cand, canonId)
        && JustifiedSince(types[..], exact, canonMap[..], old(hypotMap[..]), hypotMap[..])
      ensures v.Failed? ==> VarLike(types[cand]) || !Tame(types[..], canonMap[..])
      ensures Follows(types[..], canonMap[..], phi, old(hypotMap[..])) ==>
        Linked(types[..], canonMap[..], phi, cand, canonId) ==>
        v != Different && Within(hypotMap[..], phi)
      decreases Room(hypotMap[..]), 0
    {
      hide Tame, Closed, Forest, Justified, Justified;
      ghost var g, m, h0 := types[..], canonMap[..], hypotMap[..];
      var candRoot := ResolveTypeId(cand);
      var canonRoot := ResolveTypeId(canonId);
      if candRoot == canonRoot { return Equal; }
      var canon := ResolveFwdId(canonId);
      if hypotMap[canon] <= MAX_NR_TYPES {
        return if hypotMap[canon] == cand then Equal else Different;
      }
      hypotList := hypotList + [canon];
      hypotMap[canon] := cand;
      assert hypotMap[..] == h0[canon := cand];
      RecordRoom(h0, canon, cand);
      v := ComparePair(cand, canon, phi);
      if v == Equal {
        JustifiedWith(g, exact, m, h0, canon, cand, hypotMap[..]);
      }
      if v.Failed? && !VarLike(types[cand]) && g[cand].body.Void? && g[canon].body.Void? && Tame(g, m) {
        VoidsMeet(g, m, cand, canonId);
      }
    }

    /** The part of the check after the pair (canon, cand) is recorded. */
    method ComparePair(cand: Id, canon: Id, ghost phi: seq<nat>) returns (v: Verdict)
      requires Aligned() && cand < types.Length && canon < types.Length
      requires HypotOk(hypotMap[..], hypotList) && hypotMap[canon] == cand
      modifies hypotMap, this`hypotList
      ensures HypotOk(hypotMap[..], hypotList)
      ensures Grows(old(hypotMap[..]), hypotMap[..])
      ensures v == Equal ==>
        && Justified(types[..], exact, canonMap[..], hypotMap[..], canon)
        && JustifiedSince(types[..], exact, canonMap[..], old(hypotMap[..]), hypotMap[..])
      ensures v.Failed? ==> VarLike(types[cand]) || !Tame(types[..], canonMap[..]) ||
                            (types[cand].body.Void? && types[canon].body.Void?)
      ensures Follows(types[..], canonMap[..], phi, old(hypotMap[..])) ==>
        v != Different && Within(hypotMap[..], phi)
      decreases Room(hypotMap[..]), 4
    {
      hide Closed, Forest, Tame, HypotOk, Room, Matching, Justified, ShapeOf, Kids;
      ghost var g, m, h := types[..], canonMap[..], hypotMap[..];
      var candType, canonType := types[cand], types[canon];
      FollowPasses(g, m, phi, h, canon, cand);
      if candType.name != canonType.name { return Different; }
      if !exact && (candType.body.Fwd? || canonType.body.Fwd?) && KindOf(candType) != KindOf(canonType) {
        var same := if candType.body.Fwd? then KindOf(canonType) == KComposite(candType.kflag)
                    else KindOf(candType) == KComposite(canonType.kflag);
        if same {
          JustifyAgreeing(g, m, h, canon);
          return Equal;
        }
        return Different;
      }
      if KindOf(candType) != KindOf(canonType) { return Different; }
      match candType.body
      case Int(_, _, _) =>
        v := if EqualInt(candType, canonType) then Equal else Different;
        EqualByKindIsEquality(candType, canonType);
        if v == Equal { JustifyEqual(g, exact, m, h, canon); }
      case Enum(_, _) =>
        if exact {
          v := if EqualEnum(candType, canonType) then Equal else Different;
          EqualByKindIsEquality(candType, canonType);
          if v == Equal { JustifyEqual(g, exact, m, h, canon); }
        } else {
          v := if CompatEnum(candType, canonType) then Equal else Different;
          if v == Equal { JustifyAgreeing(g, m, h, canon); }
        }
      case Fwd(_, _) =>
        v := if EqualCommon(candType, canonType) then Equal else Different;
        EqualByKindIsEquality(candType, canonType);
        if v == Equal { JustifyEqual(g, exact, m, h, canon); }
      case Ref(_, _, _) =>
        if candType.kflag != canonType.kflag || Vlen(candType) != Vlen(canonType) { return Different; }
        v := CompareRef(cand, canon, phi);
      case Array(_, _, _, _, _) =>
        if !CompatArray(candType, canonType) { return Different; }
        v := CompareArray(cand, canon, phi);
      case Composite(_, _, _) =>
        if !ShallowEqualStruct(candType, canonType) { return Different; }
        StructLabels(candType, canonType);
        v := CompareMembers(cand, canon, phi);
      case FuncProto(_, _) =>
        if !CompatFuncProto(candType, canonType) { return Different; }
        FuncProtoLabels(candType, canonType);
        v := CompareParams(cand, canon, phi);
      case _ =>
        return Failed(EInval);
    }

    method CompareRef(cand: Id, canon: Id, ghost phi: seq<nat>) returns (v: Verdict)
      requires Aligned() && cand < types.Length && canon < types.Length
      requires HypotOk(hypotMap[..], hypotList) && hypotMap[canon] == cand
      requires types[cand].body.Ref? && EqualUpToTarget(types[cand], types[canon])
      modifies hypotMap, this`hypotList
      ensures HypotOk(hypotMap[..], hypotList)
      ensures Grows(old(hypotMap[..]), hypotMap[..])
      ensures v == Equal ==>
        && Justified(types[..], exact, canonMap[..], hypotMap[..], canon)
        && JustifiedSince(types[..], exact, canonMap[..], old(hypotMap[..]), hypotMap[..])
      ensures v.Failed? ==> !Tame(types[..], canonMap[..])
      ensures Follows(types[..], canonMap[..], phi, old(hypotMap[..])) ==>
        v != Different && Within(hypotMap[..], phi)
      decreases Room(hypotMap[..]), 2
    {
      ghost var g, m := types[..], canonMap[..];
      assert Refs(g[cand])[0] == g[cand].body.target && Refs(g[canon])[0] == g[canon].body.target;
      FollowKid(g, m, phi, hypotMap[..], canon, cand, 0);
      v := IsEquiv(types[cand].body.target, types[canon].body.target, phi);
      TameKid(g, m, cand, 0);
      if v == Equal { JustifyRefs(g, exact, m, hypotMap[..], canon); }
    }

    method CompareArray(cand: Id, canon: Id, ghost phi: seq<nat>) returns (v: Verdict)
      requires Aligned() && cand < types.Length && canon < types.Length
      requires HypotOk(hypotMap[..], hypotList) && hypotMap[canon] == cand
      requires types[cand].body.Array? && CompatArray(types[cand], types[canon])
      modifies hypotMap, this`hypotList
      ensures HypotOk(hypotMap[..], hypotList)
      ensures Grows(old(hypotMap[..]), hypotMap[..])
      ensures v == Equal ==>
        && Justified(types[..], exact, canonMap[..], hypotMap[..], canon)
        && JustifiedSince(types[..], exact, canonMap[..], old(hypotMap[..]), hypotMap[..])
      ensures v.Failed? ==> !Tame(types[..], canonMap[..])
      ensures Follows(types[..], canonMap[..], phi, old(hypotMap[..])) ==>
        v != Different && Within(hypotMap[..], phi)
      decreases Room(hypotMap[..]), 2
    {
      hide Tame, Closed, Forest, HypotOk, Justified, Linked, Matching;
      ghost var g, m, h1 := types[..], canonMap[..], hypotMap[..];
      var candArr, canonArr := types[cand].body, types[canon].body;
      assert Refs(g[cand]) == [candArr.index, candArr.elem] && Refs(g[canon]) == [canonArr.index, canonArr.elem];
      RefsInside(g, cand);
      RefsInside(g, canon);
      assert Refs(g[cand])[0] == candArr.index && Refs(g[canon])[0] == canonArr.index;
      assert Refs(g[cand])[1] == candArr.elem && Refs(g[canon])[1] == canonArr.elem;
      TameKid(g, m, cand, 0);
      TameKid(g, m, cand, 1);
      FollowKid(g, m, phi, h1, canon, cand, 0);
      FollowKid(g, m, phi, h1, canon, cand, 1);
      v := IsEquiv(candArr.index, canonArr.index, phi);
      if v != Equal { return; }
      ghost var h2 := hypotMap[..];
      GrowsRoom(h1, h2);
      v := IsEquiv(candArr.elem, canonArr.elem, phi);
      if v == Equal {
        LinkedGrows(g, m, h2, hypotMap[..], candArr.index, canonArr.index);
        JustifiedThen(g, exact, m, h1, h2, hypotMap[..]);
        JustifyRefs(g, exact, m, hypotMap[..], canon);
      }
    }

    /** Compares one more pair of references of a pair of descriptors. */
    method LinkNext(cand: Id, canon: Id, ghost h1: seq<nat>, ghost cands: seq<Id>, ghost canons: seq<Id>, ghost n: nat,
                    ghost phi: seq<nat>) returns (v: Verdict)
      requires Aligned() && HypotOk(hypotMap[..], hypotList)
      requires n < |cands| == |canons| && cand == cands[n] && canon == canons[n]
      requires cand < types.Length && canon < types.Length && |h1| == types.Length
      requires Progress(types[..], exact, canonMap[..], h1, hypotMap[..], cands, canons, n)
      modifies hypotMap, this`hypotList
      ensures HypotOk(hypotMap[..], hypotList) && Grows(h1, hypotMap[..])
      ensures Grows(old(hypotMap[..]), hypotMap[..])
      ensures v == Equal ==> Progress(types[..], exact, canonMap[..], h1, hypotMap[..], cands, canons, n + 1)
      ensures v.Failed? ==> VarLike(types[cand]) || !Tame(types[..], canonMap[..])
      ensures Follows(types[..], canonMap[..], phi, old(hypotMap[..])) ==>
        Linked(types[..], canonMap[..], phi, cand, canon) ==>
        v != Different && Within(hypotMap[..], phi)
      decreases Room(hypotMap[..]), 1
    {
      ghost var g, m, h := types[..], canonMap[..], hypotMap[..];
      v := IsEquiv(cand, canon, phi);
      GrowsThen(h1, h, hypotMap[..]);
      if v == Equal {
        KeepLinks(g, m, h, hypotMap[..], cands, canons, n);
        JustifiedThen(g, exact, m, h1, h, hypotMap[..]);
      }
    }

    method CompareMembers(cand: Id, canon: Id, ghost phi: seq<nat>) returns (v: Verdict)
      requires Aligned() && cand < types.Length && canon < types.Length
      requires HypotOk(hypotMap[..], hypotList) && hypotMap[canon] == cand
      requires types[cand].body.Composite? && types[canon].body.Composite? && Label(types[cand]) == Label(types[canon])
      requires |types[cand].body.members| == |types[canon].body.members|
      modifies hypotMap, this`hypotList
      ensures HypotOk(hypotMap[..], hypotList)
      ensures Grows(old(hypotMap[..]), hypotMap[..])
      ensures v == Equal ==>
        && Justified(types[..], exact, canonMap[..], hypotMap[..], canon)
        && JustifiedSince(types[..], exact, canonMap[..], old(hypotMap[..]), hypotMap[..])
      ensures v.Failed? ==> !Tame(types[..], canonMap[..])
      ensures Follows(types[..], canonMap[..], phi, old(hypotMap[..])) ==>
        v != Different && Within(hypotMap[..], phi)
      decreases Room(hypotMap[..]), 2
    {
      hide Tame, Closed, Forest, HypotOk, Justified, Linked, Label, Matching;
      ghost var g, m, h1 := types[..], canonMap[..], hypotMap[..];
      var members, members' := types[cand].body.members, types[canon].body.members;
      ghost var refs, refs' := MemberTypes(members), MemberTypes(members');
      assert Refs(g[cand]) == refs && Refs(g[canon]) == refs';
      RefsInside(g, cand);
      RefsInside(g, canon);
      for i := 0 to |members|
        modifies hypotMap, this`hypotList
        invariant HypotOk(hypotMap[..], hypotList)
        invariant Progress(g, exact, m, h1, hypotMap[..], refs, refs', i)
        invariant Follows(g, m, phi, h1) ==> Within(hypotMap[..], phi)
      {
        ProgressRoom(g, exact, m, h1, hypotMap[..], refs, refs', i);
        TameKid(g, m, cand, i);
        FollowKid(g, m, phi, h1, canon, cand, i);
        v := LinkNext(members[i].ty, members'[i].ty, h1, refs, refs', i, phi);
        if v != Equal { return; }
      }
      JustifyRefs(g, exact, m, hypotMap[..], canon);
      return Equal;
    }

    method CompareParams(cand: Id, canon: Id, ghost phi: seq<nat>) returns (v: Verdict)
      requires Aligned() && cand < types.Length && canon < types.Length
      requires HypotOk(hypotMap[..], hypotList) && hypotMap[canon] == cand
      requires types[cand].body.FuncProto? && types[canon].body.FuncProto? && Label(types[cand]) == Label(types[canon])
      requires |types[cand].body.params| == |types[canon].body.params|
      modifies hypotMap, this`hypotList
      ensures HypotOk(hypotMap[..], hypotList)
      ensures Grows(old(hypotMap[..]), hypotMap[..])
      ensures v == Equal ==>
        && Justified(types[..], exact, canonMap[..], hypotMap[..], canon)
        && JustifiedSince(types[..], exact, canonMap[..], old(hypotMap[..]), hypotMap[..])
      ensures v.Failed? ==> !Tame(types[..], canonMap[..])
      ensures Follows(types[..], canonMap[..], phi, old(hypotMap[..])) ==>
        v != Different && Within(hypotMap[..], phi)
      decreases Room(hypotMap[..]), 3
    {
      hide Tame, Closed, Forest, HypotOk, Grows, Justified, JustifiedSince, Label, Refs;
      ghost var g, m, h1 := types[..], canonMap[..], hypotMap[..];
      var ret, ret' := types[cand].body.ret, types[canon].body.ret;
      RefsInside(g, cand);
      RefsInside(g, canon);
      ProtoRefs(types[cand]);
      ProtoRefs(types[canon]);
      ProgressNone(g, exact, m, h1, Refs(g[cand]), Refs(g[canon]));
      TameKid(g, m, cand, 0);
      FollowKid(g, m, phi, h1, canon, cand, 0);
      v := LinkNext(ret, ret', h1, Refs(g[cand]), Refs(g[canon]), 0, phi);
      if v != Equal { return; }
      ProgressRoom(g, exact, m, h1, hypotMap[..], Refs(g[cand]), Refs(g[canon]), 1);
      v := CompareRest(cand, canon, h1, phi);
    }

    /** The parameters, once the results agree. */
    method CompareRest(cand: Id, canon: Id, ghost h1: seq<nat>, ghost phi: seq<nat>) returns (v: Verdict)
      requires Aligned() && cand < types.Length && canon < types.Length && |h1| == types.Length
      requires HypotOk(hypotMap[..], hypotList) && h1[canon] == cand
      requires types[cand].body.FuncProto? && types[canon].body.FuncProto? && Label(types[cand]) == Label(types[canon])
      requires |types[cand].body.params| == |types[canon].body.params|
      requires |Refs(types[cand])| == |Refs(types[canon])| >= 1
      requires Progress(types[..], exact, canonMap[..], h1, hypotMap[..], Refs(types[cand]), Refs(types[canon]), 1)
      modifies hypotMap, this`hypotList
      ensures HypotOk(hypotMap[..], hypotList)
      ensures Grows(h1, hypotMap[..])
      ensures v == Equal ==>
        && Justified(types[..], exact, canonMap[..], hypotMap[..], canon)
        && JustifiedSince(types[..], exact, canonMap[..], h1, hypotMap[..])
      ensures v.Failed? ==> !Tame(types[..], canonMap[..])
      ensures Follows(types[..], canonMap[..], phi, h1) && Within(old(hypotMap[..]), phi) ==>
        v != Different && Within(hypotMap[..], phi)
      decreases Room(hypotMap[..]), 2
    {
      hide Tame, Closed, Forest, HypotOk, Grows, Justified, JustifiedSince, Label, Refs, Progress;
      ghost var g, m := types[..], canonMap[..];
      var params, params' := types[cand].body.params, types[canon].body.params;
      RefsInside(g, cand);
      RefsInside(g, canon);
      ProtoRefs(types[cand]);
      ProtoRefs(types[canon]);
      ProgressGrows(g, exact, m, h1, hypotMap[..], Refs(g[cand]), Refs(g[canon]), 1);
      for i := 0 to |params|
        modifies hypotMap, this`hypotList
        invariant HypotOk(hypotMap[..], hypotList) && Room(hypotMap[..]) <= Room(old(hypotMap[..]))
        invariant Grows(h1, hypotMap[..])
        invariant Progress(g, exact, m, h1, hypotMap[..], Refs(g[cand]), Refs(g[canon]), i + 1)
        invariant Follows(g, m, phi, h1) && Within(old(hypotMap[..]), phi) ==> Within(hypotMap[..], phi)
      {
        ghost var h := hypotMap[..];
        TameKid(g, m, cand, i + 1);
        FollowKid(g, m, phi, h1, canon, cand, i + 1);
        v := LinkNext(params[i].ty, params'[i].ty, h1, Refs(g[cand]), Refs(g[canon]), i + 1, phi);
        if v != Equal { return; }
        GrowsRoom(h, hypotMap[..]);
      }
      v := CloseParams(cand, canon, h1);
    }

    /** All parameters agree. */
    method CloseParams(cand: Id, canon: Id, ghost h1: seq<nat>) returns (v: Verdict)
      requires Aligned() && cand < types.Length && canon < types.Length && |h1| == types.Length
      requires h1[canon] == cand && Label(types[cand]) == Label(types[canon])
      requires types[cand].body.FuncProto? && types[canon].body.FuncProto?
      requires |Refs(types[cand])| == |Refs(types[canon])|
      requires Progress(types[..], exact, canonMap[..], h1, hypotMap[..], Refs(types[cand]), Refs(types[canon]),
        |Refs(types[cand])|)
      ensures v == Equal
      ensures Justified(types[..], exact, canonMap[..], hypotMap[..], canon)
      ensures JustifiedSince(types[..], exact, canonMap[..], h1, hypotMap[..])
    {
      JustifyRefs(types[..], exact, canonMap[..], hypotMap[..], canon);
      return Equal;
    }

    /** What holds between steps of the first four passes: the map is a forest
        joining ids that mean the same in the original graph, references were
        only rewritten to ids that mean the same, and the table is in order. */
    ghost predicate Inv()
      reads types, canonMap, table
    {
      && Aligned() && |orig| == types.Length && Sound(orig, exact, canonMap[..])
      && Rewritten(orig, types[..], exact)
      && table.Valid() && table.fns == TableHashing(collide)
      && TableInv(types[..], exact, canonMap[..], table.Entries())
    }

    // ----- candidates -----

    /** for_each_dedup_cand: the candidates filed under `h`, in the order visited. */
    method Candidates(h: int) returns (cands: seq<Id>)
      requires table.Valid() && table.fns == TableHashing(collide)
      ensures forall c :: c in cands <==> HashMaps.Entry(h, c) in table.Entries()
    {
      var es := table.KeyEntries(h);
      TableHashingRespectful(collide);
      cands := seq(|es|, i requires 0 <= i < |es| => es[i].value);
      forall c ensures c in cands <==> HashMaps.Entry(h, c) in table.Entries() {
        table.KeyEntriesExact(h, HashMaps.Entry(h, c));
        assert c in cands <==> HashMaps.Entry(h, c) in multiset(es) by {
          if c in cands {
            var i :| 0 <= i < |es| && cands[i] == c;
            table.KeyEntriesExact(h, es[i]);
            assert es[i] in multiset(es);
          }
          if HashMaps.Entry(h, c) in es {
            var i :| 0 <= i < |es| && es[i] == HashMaps.Entry(h, c);
            assert cands[i] == c;
          }
        }
      }
    }

    /** The candidates a plain descriptor is compared with. */
    method CandidatesFor(id: Id, h: int) returns (cands: seq<Id>)
      requires Inv() && 0 < id < types.Length && Plain(types[id]) && h == Hash(types[id])
      ensures CoversEquals(types[..], canonMap[..], id, cands)
      ensures AllAnchored(types[..], exact, canonMap[..], cands)
      ensures forall c :: HashMaps.Entry(Hash(types[id]), c) in table.Entries() ==> c in cands
    {
      cands := Candidates(h);
      TableCovers(types[..], exact, canonMap[..], table.Entries(), id, cands);
    }

    /** The search for an equal candidate, shared by the plain kinds. */
    method FindEqual(id: Id, cands: seq<Id>) returns (newId: Id)
      requires 0 < id < types.Length == canonMap.Length && Plain(types[id])
      requires CoversEquals(types[..], canonMap[..], id, cands) && AllAnchored(types[..], exact, canonMap[..], cands)
      requires !Mapped(canonMap[..], id)
      ensures 0 < newId < types.Length
      ensures newId != id ==> types[newId] == types[id] && Anchored(types[..], exact, canonMap[..], newId)
      ensures newId == id ==> forall j :: 0 < j < types.Length && canonMap[j] == j ==> types[j] != types[id]
    {
      newId := id;
      var t := types[id];
      ghost var g, m := types[..], canonMap[..];
      for k := 0 to |cands|
        invariant newId == id
        invariant NoneUpTo(g, cands, id, k)
      {
        var c := cands[k];
        assert Anchored(g, exact, m, c);
        EqualByKindIsEquality(t, types[c]);
        if EqualByKind(t, types[c]) {
          return c;
        }
      }
      NoneEqual(g, m, id, cands);
    }

    /** The common tail of the passes: records the canonical id, and files a
        descriptor that is its own as a candidate. */
    method Settle(id: Id, newId: Id, h: int) returns (o: Outcome)
      requires Inv() && 0 < id < types.Length && newId < types.Length && NotFiled(table.Entries(), id)
      requires h == Hash(types[id])
      requires newId == id ==> !Mapped(canonMap[..], id)
      requires newId == id ==> Plain(types[id]) ==> forall j :: 0 < j < types.Length && canonMap[j] == j ==>
        types[j] != types[id]
      requires newId != id ==> Sound(orig, exact, canonMap[..][id := newId])
      modifies canonMap, table
      ensures o == Done
      ensures canonMap[..] == old(canonMap[..])[id := newId]
      ensures Inv()
    {
      hide KeepsMeaning, Rewritten, Closed, Forest, TableInv;
      ghost var g, m, es := types[..], canonMap[..], table.Entries();
      canonMap[id] := newId;
      assert canonMap[..] == m[id := newId];
      if newId == id {
        SoundSelf(orig, exact, m, id);
        AddSelf(g, exact, m, es, id);
        TableRoom(g, exact, m, es);
        var status, _ := table.Insert(h, id, HashMaps.Append);
        if status != HashMaps.Ok { return Error(ENoMem); }
      } else {
        LinkOther(g, exact, m, es, id, newId);
      }
      return Done;
    }

    // ----- primitive types -----

    /** Between steps of the primitive pass nothing is linked to an unmapped id
        and the types are as given. */
    ghost predicate PrimInv()
      reads types, canonMap, table
    {
      && Inv() && types[..] == orig && LinksMapped(canonMap[..]) && (!exact ==> NoClash(orig, canonMap[..]))
    }

    /** The ENUM case of btf_dedup_prim_type. Unless forward declarations stay
        unresolved, a valueless enum resolves to a compatible full one, whichever
        comes first. */
    method SearchEnum(id: Id, cands: seq<Id>, ghost es: Candidates) returns (newId: Id)
      requires 0 < id < types.Length == canonMap.Length && types[id].body.Enum?
      requires MapInv(types[..], exact, canonMap[..], es) && LinksMapped(canonMap[..])
      requires CoversEquals(types[..], canonMap[..], id, cands) && AllAnchored(types[..], exact, canonMap[..], cands)
      requires forall c :: HashMaps.Entry(Hash(types[id]), c) in es ==> c in cands
      requires !Mapped(canonMap[..], id)
      modifies canonMap
      ensures MapInv(types[..], exact, canonMap[..], es) && 0 < newId < types.Length
      ensures newId != id ==> EnumTarget(types[..], exact, canonMap[..], id, newId)
      ensures newId == id ==> forall j :: 0 < j < types.Length && canonMap[j] == j ==> types[j] != types[id]
      ensures EnumProgress(types[..], old(canonMap[..]), canonMap[..], id)
      ensures Fewer(old(canonMap[..]), canonMap[..])
      ensures !exact && newId == id ==> NoClashWith(types[..], canonMap[..], id)
    {
      hide NoClashWith, Clash, EnumScan, MapInv, EnumProgress, Fewer, EnumTarget, Anchored, LinksMapped,
        CoversEquals, AllAnchored, Forest, InRange, Mapped, IsEnumFwd, Hash;
      ghost var g, m0 := types[..], canonMap[..];
      newId := id;
      EnumScanStart(g, exact, m0, es, id, cands);
      for k := 0 to |cands|
        modifies canonMap
        invariant newId == id && types[..] == g && EnumScan(g, exact, m0, canonMap[..], es, id, cands, k)
      {
        ghost var m := canonMap[..];
        EnumScanTurn(g, exact, m0, m, es, id, cands, k);
        newId := TryEnum(id, cands[k], m0, es);
        if newId != id {
          FewerThen(m0, m, canonMap[..]);
          return;
        }
        EnumScanStep(g, exact, m0, m, canonMap[..], es, id, cands, k);
      }
      EnumScanEnd(g, exact, m0, canonMap[..], es, id, cands);
    }

    /** One candidate of the ENUM case. */
    method TryEnum(id: Id, candId: Id, ghost m0: seq<nat>, ghost es: Candidates) returns (newId: Id)
      requires 0 < id < types.Length == canonMap.Length && types[id].body.Enum?
      requires MapInv(types[..], exact, canonMap[..], es)
      requires Forest(m0) && InRange(m0) && LinksMapped(m0) && EnumProgress(types[..], m0, canonMap[..], id)
      requires !Mapped(canonMap[..], id) && Anchored(types[..], exact, canonMap[..], candId)
      modifies canonMap
      ensures MapInv(types[..], exact, canonMap[..], es)
      ensures EnumProgress(types[..], m0, canonMap[..], id)
      ensures newId == id ==> types[candId] != types[id]
      ensures !exact && newId == id && canonMap[candId] == candId ==>
        !Clash(types[id], types[candId]) && !Clash(types[candId], types[id])
      ensures Fewer(old(canonMap[..]), canonMap[..])
      ensures newId != id ==> newId == candId && EnumTarget(types[..], exact, canonMap[..], id, newId)
      ensures canonMap[..] == old(canonMap[..])
        || (!exact && IsEnumFwd(types[candId]) && canonMap[..] == old(canonMap[..])[candId := id])
    {
      hide KeepsMeaning, Closed, TableInv, Forest, EnumTarget, EnumProgress, LinksMapped, InRange;
      var t, cand := types[id], types[candId];
      ghost var g, m := types[..], canonMap[..];
      EqualByKindIsEquality(t, cand);
      if EqualEnum(t, cand) {
        SameWhenEqual(g, exact, id, candId);
        EnumTargetFound(g, exact, m0, m, id, candId);
        return candId;
      }
      if exact { return id; }
      if CompatEnum(t, cand) {
        SameFromKids(g, exact, id, candId);
        if IsEnumFwd(t) {
          EnumTargetFound(g, exact, m0, m, id, candId);
          return candId;
        }
        SameSym(g, exact, id, candId);
        EnumResolved(g, exact, m0, m, es, id, candId);
        canonMap[candId] := id;
        assert canonMap[..] == m[candId := id];
      }
      return id;
    }

    /** btf_dedup_prim_type. */
    method DedupPrimType(id: Id) returns (o: Outcome)
      requires PrimInv() && PrimStage(types[..], canonMap[..], id) && 0 < id < types.Length && types[0].body.Void?
      modifies canonMap, table
      ensures o == Done ==> PrimInv() && PrimStage(types[..], canonMap[..], id + 1)
      ensures o != Done <==> types[id].body.Void?
    {
      ghost var g, m0 := types[..], canonMap[..];
      assert PrimStageAt(g[id], m0[id], id, false);
      if IsPrim(types[id]) {
        o := DedupPrim(id);
      } else if types[id].body.Void? {
        return Error(EInval);
      } else {
        o := Done;
      }
      if o == Done { PrimStageNext(g, m0, canonMap[..], id); }
    }

    /** The INT, ENUM and FWD cases. */
    method DedupPrim(id: Id) returns (o: Outcome)
      requires PrimInv() && 0 < id < types.Length && IsPrim(types[id]) && !Mapped(canonMap[..], id)
      modifies canonMap, table
      ensures o == Done && PrimInv() && Mapped(canonMap[..], id)
      ensures KeepsMapped(types[..], old(canonMap[..]), canonMap[..], id)
    {
      ghost var m := canonMap[..];
      var h := Hash(types[id]);
      var cands := CandidatesFor(id, h);
      var newId := ChoosePrim(id, cands, table.Entries());
      if !exact { NoClashLess(orig, m, canonMap[..]); }
      o := SettlePrim(id, newId, h, m);
    }

    method ChoosePrim(id: Id, cands: seq<Id>, ghost es: Candidates) returns (newId: Id)
      requires 0 < id < types.Length == canonMap.Length && IsPrim(types[id])
      requires MapInv(types[..], exact, canonMap[..], es) && LinksMapped(canonMap[..])
      requires CoversEquals(types[..], canonMap[..], id, cands) && AllAnchored(types[..], exact, canonMap[..], cands)
      requires forall c :: HashMaps.Entry(Hash(types[id]), c) in es ==> c in cands
      requires !Mapped(canonMap[..], id)
      modifies canonMap
      ensures MapInv(types[..], exact, canonMap[..], es)
      ensures PrimChoice(types[..], exact, canonMap[..], id, newId)
      ensures newId == id ==> forall j :: 0 < j < types.Length && canonMap[j] == j ==> types[j] != types[id]
      ensures KeepsMapped(types[..], old(canonMap[..]), canonMap[..], id)
      ensures Fewer(old(canonMap[..]), canonMap[..])
      ensures !exact && newId == id ==> NoClashWith(types[..], canonMap[..], id)
    {
      if types[id].body.Enum? {
        newId := SearchEnum(id, cands, es);
      } else {
        newId := FindEqual(id, cands);
        EqualChoice(types[..], exact, canonMap[..], id, newId);
      }
    }

    method SettlePrim(id: Id, newId: Id, h: int, ghost m0: seq<nat>) returns (o: Outcome)
      requires Inv() && types[..] == orig && 0 < id < types.Length && h == Hash(types[id])
      requires PrimChoice(types[..], exact, canonMap[..], id, newId) && KeepsMapped(types[..], m0, canonMap[..], id)
      requires newId == id ==> forall j :: 0 < j < types.Length && canonMap[j] == j ==> types[j] != types[id]
      requires !exact ==> NoClash(orig, canonMap[..]) && (newId == id ==> NoClashWith(orig, canonMap[..], id))
      modifies canonMap, table
      ensures o == Done && PrimInv() && Mapped(canonMap[..], id)
      ensures KeepsMapped(types[..], m0, canonMap[..], id)
    {
      ghost var g, m := types[..], canonMap[..];
      UnmappedNotFiled(g, exact, m, table.Entries(), id);
      PrimChosen(g, exact, m0, m, id, newId);
      if !exact { NoClashChosen(orig, m, id, newId); }
      o := Settle(id, newId, h);
    }

    /** btf_dedup_prim_types. */
    method DedupPrimTypes() returns (o: Outcome)
      requires PrimInv() && PrimStage(types[..], canonMap[..], 1) && types[0].body.Void?
      requires nrTypes == types.Length - 1
      modifies canonMap, table
      ensures o == Done ==> PrimInv() && Staged(types[..], canonMap[..]) && Tidy(orig, exact, canonMap[..])
      ensures o == Done <==> forall i :: 0 < i < types.Length ==> !types[i].body.Void?
    {
      hide Sound, Rewritten, TableInv, Closed, Forest, HashMaps.HashMap.Valid, PrimStage, Staged, Tight, NoClash;
      for i := 1 to nrTypes + 1
        modifies canonMap, table
        invariant PrimInv() && PrimStage(types[..], canonMap[..], i)
        invariant forall j :: 0 < j < i ==> !types[j].body.Void?
      {
        o := DedupPrimType(i);
        if o != Done { return; }
      }
      PrimStageEnd(types[..], canonMap[..]);
      TightBegin(types[..], canonMap[..]);
      return Done;
    }

    // ----- structs and unions -----

    /** btf_dedup_merge_hypot_map. */
    method MergeHypotMap()
      requires types.Length == canonMap.Length == hypotMap.Length && canonMap != hypotMap
      requires Sound(types[..], exact, canonMap[..]) && HypotOk(hypotMap[..], hypotList)
      requires forall c :: 0 <= c < hypotMap.Length && Recorded(hypotMap[..], c) ==>
        Same(types[..], exact, c, hypotMap[c])
      modifies canonMap
      ensures Sound(types[..], exact, canonMap[..]) && Relinked(types[..], exact, old(canonMap[..]), canonMap[..])
      ensures forall c :: 0 <= c < hypotMap.Length && Recorded(hypotMap[..], c) ==>
        BothFree(types[..], old(canonMap[..]), canonMap[..], c, hypotMap[c])
    {
      hide FwdFree, Closed, KeepsMeaning, Forest, Same;
      ghost var g, m0, h := types[..], canonMap[..], hypotMap[..];
      RelinkedRefl(g, exact, m0);
      ListedInside(h, hypotList);
      for i := 0 to |hypotList|
        modifies canonMap
        invariant Sound(g, exact, canonMap[..]) && Relinked(g, exact, m0, canonMap[..])
        invariant StaysFree(g, m0, canonMap[..])
        invariant forall k :: 0 <= k < i ==> BothFree(g, m0, canonMap[..], hypotList[k], h[hypotList[k]])
      {
        var candTypeId := hypotList[i];
        assert candTypeId in hypotList && Recorded(h, candTypeId);
        ghost var m := canonMap[..];
        MergePair(candTypeId, hypotMap[candTypeId], m0);
        FreeThen(g, m0, m, canonMap[..], h, hypotList, i);
      }
      forall c | 0 <= c < |h| && Recorded(h, c) ensures BothFree(g, m0, canonMap[..], c, h[c]) {
        assert c in hypotList;
      }
    }

    /** One recorded pair: links a forward declaration to the struct it pairs
        with, or a struct not yet mapped to a mapped one. */
    method MergePair(candTypeId: Id, targTypeId: Id, ghost m0: seq<nat>)
      requires types.Length == canonMap.Length && candTypeId < types.Length && targTypeId < types.Length
      requires Sound(types[..], exact, canonMap[..]) && Relinked(types[..], exact, m0, canonMap[..])
      requires Same(types[..], exact, candTypeId, targTypeId)
      modifies canonMap
      ensures Sound(types[..], exact, canonMap[..]) && Relinked(types[..], exact, m0, canonMap[..])
      ensures StaysFree(types[..], old(canonMap[..]), canonMap[..])
      ensures BothFree(types[..], old(canonMap[..]), canonMap[..], candTypeId, targTypeId)
    {
      hide KeepsMeaning, Forest, Same, Relinked;
      ghost var g, m := types[..], canonMap[..];
      var tId := ResolveTypeId(targTypeId);
      var cId := ResolveTypeId(candTypeId);
      EndsSame(g, exact, m, candTypeId, targTypeId);
      var tKind, cKind := types[tId], types[cId];
      if !tKind.body.Fwd? && cKind.body.Fwd? {
        RelinkSound(g, exact, m0, m, cId, tId);
        FreeLinked(g, m, cId, tId);
        canonMap[cId] := tId;
        assert canonMap[..] == m[cId := tId];
      } else if tKind.body.Fwd? && !cKind.body.Fwd? {
        RelinkSound(g, exact, m0, m, tId, cId);
        FreeLinked(g, m, tId, cId);
        canonMap[tId] := cId;
        assert canonMap[..] == m[tId := cId];
      }
      if tKind.body.Composite? && !cKind.body.Fwd? && canonMap[cId] <= MAX_NR_TYPES && canonMap[tId] > MAX_NR_TYPES {
        assert canonMap[..] == m;
        RelinkSound(g, exact, m0, m, tId, cId);
        FreeLinked(g, m, tId, cId);
        canonMap[tId] := cId;
        assert canonMap[..] == m[tId := cId];
      }
    }

    /** Between steps of the struct pass. */
    ghost predicate StructInv()
      reads types, canonMap, table
    {
      && Inv() && types[..] == orig && types[0].body.Void? && Staged(types[..], canonMap[..])
      && Tidy(orig, exact, canonMap[..])
    }

    /** The loop of btf_dedup_struct_type over the candidates of its hash: the
        first one the equivalence check accepts. */
    method SearchStruct(id: Id, cands: seq<Id>) returns (newId: Id, failure: Outcome)
      requires Aligned() && 0 < id < types.Length && types[id].body.Composite? && !Mapped(canonMap[..], id)
      requires Sound(types[..], exact, canonMap[..]) && AllAnchored(types[..], exact, canonMap[..], cands)
      requires HypotOk(hypotMap[..], hypotList)
      modifies hypotMap, this`hypotList
      ensures HypotOk(hypotMap[..], hypotList)
      ensures failure == Done && newId != id ==>
        && newId in cands && types[newId].body.Composite? && Same(types[..], exact, id, newId)
        && forall c :: 0 <= c < hypotMap.Length && Recorded(hypotMap[..], c) ==> Same(types[..], exact, c, hypotMap[c])
      ensures failure != Done ==> !Tame(types[..], canonMap[..])
      ensures failure == Done && newId == id ==> NoneMatches(types[..], canonMap[..], id, cands, |cands|)
      ensures failure == Done && newId != id && exact && PlainFwds(types[..]) ==>
        Matches(types[..], canonMap[..], id, newId)
    {
      hide Sound, Closed, Forest, HypotOk, Tame, Follows, AllJustified, JustifiedSince, Linked;
      hide Matches, Pairs, Matching, Within, Partners, PlainFwds;
      ghost var g, m := types[..], canonMap[..];
      newId, failure := id, Done;
      for k := 0 to |cands|
        modifies hypotMap, this`hypotList
        invariant newId == id && HypotOk(hypotMap[..], hypotList)
        invariant NoneMatches(g, m, id, cands, k)
      {
        assert Anchored(g, exact, m, cands[k]);
        if !ShallowEqualStruct(types[id], types[cands[k]]) {
          NoneNext(g, m, id, cands, k);
          continue;
        }
        ClearHypotMap();
        ghost var h0 := hypotMap[..];
        ghost var phi := Partners(g, m, id, cands[k]);
        PartnersFollowed(g, m, h0, id, cands[k]);
        var v := IsEquiv(id, cands[k], phi);
        if v.Failed? { return id, Error(v.errno); }
        if v == Equal {
          RecordedSame(g, exact, m, h0, hypotMap[..]);
          LinkedSame(g, exact, m, hypotMap[..], id, cands[k]);
          if exact && PlainFwds(g) { AcceptedMatches(g, m, h0, hypotMap[..], id, cands[k]); }
          return cands[k], Done;
        }
        NoneNext(g, m, id, cands, k);
      }
    }

    /** btf_dedup_struct_type. */
    method DedupStructType(id: Id) returns (o: Outcome)
      requires StructInv() && StructStage(types[..], canonMap[..], id) && 0 < id < types.Length
      requires HypotOk(hypotMap[..], hypotList)
      modifies canonMap, hypotMap, this`hypotList, table
      ensures HypotOk(hypotMap[..], hypotList)
      ensures o == Done ==> StructInv() && StructStage(types[..], canonMap[..], id + 1)
      ensures o == Done && types[id].body.Composite? && !Mapped(old(canonMap[..]), id) && canonMap[id] == id ==>
        Unmatched(types[..], old(canonMap[..]), id)
      ensures o == Done && types[id].body.Composite? && !Mapped(old(canonMap[..]), id) && canonMap[id] != id ==>
        exact && PlainFwds(types[..]) ==> Matches(types[..], old(canonMap[..]), id, canonMap[id])
      ensures o != Done ==> !TameGraph(types[..])
    {
      hide Sound, Rewritten, TableInv, Closed, Forest, HashMaps.HashMap.Valid, HypotOk, TameGraph,
        Tidy, Unmatched, NoneMatches, NotFiled, Relinked, Same, Recorded, BothFree, PlainFwds, Matches;
      ghost var g, m0, es := types[..], canonMap[..], table.Entries();
      if canonMap[id] <= MAX_NR_TYPES { return Done; }
      if !types[id].body.Composite? { return Done; }
      var h := Hash(types[id]);
      var cands := StructCandidates(h);
      var newId, failure := SearchStruct(id, cands);
      if failure != Done { return failure; }
      RelinkedRefl(g, exact, m0);
      UnmappedNotFiled(g, exact, m0, es, id);
      if newId != id {
        assert Anchored(g, exact, m0, newId);
        MergeHypotMap();
        SoundForest(g, exact, canonMap[..]);
        StructLinked(g, exact, m0, canonMap[..], es, id, newId);
      } else {
        StructAlone(g, exact, m0, es, id, cands);
      }
      StructStageNext(g, exact, m0, canonMap[..], id, newId);
      o := Settle(id, newId, h);
    }

    method StructCandidates(h: int) returns (cands: seq<Id>)
      requires Inv()
      ensures AllAnchored(types[..], exact, canonMap[..], cands)
      ensures forall c :: c in cands ==> Anchored(types[..], exact, canonMap[..], c)
      ensures forall c :: HashMaps.Entry(h, c) in table.Entries() ==> c in cands
    {
      cands := Candidates(h);
      forall i | 0 <= i < |cands| ensures Anchored(types[..], exact, canonMap[..], cands[i]) {
        assert cands[i] in cands;
      }
    }

    /** btf_dedup_struct_types. */
    method DedupStructTypes() returns (o: Outcome)
      requires StructInv() && nrTypes == types.Length - 1 && HypotOk(hypotMap[..], hypotList)
      modifies canonMap, hypotMap, this`hypotList, table
      ensures o == Done ==> StructInv() && StructStage(types[..], canonMap[..], types.Length)
      ensures o != Done ==> !TameGraph(types[..])
    {
      for i := 1 to nrTypes + 1
        modifies canonMap, hypotMap, this`hypotList, table
        invariant StructInv() && StructStage(types[..], canonMap[..], i) && HypotOk(hypotMap[..], hypotList)
      {
        o := DedupStructType(i);
        if o != Done { return; }
      }
      return Done;
    }

    // ----- reference types -----

    /** Between steps of the reference pass. */
    ghost predicate RefInv()
      reads types, canonMap, table
    {
      && Inv() && types[0].body.Void? && RefStage(types[..], canonMap[..])
      && Tidy(orig, exact, canonMap[..])
    }

    /** btf_dedup_ref_type: resolves the references of a descriptor, then looks
        for an equal candidate. Returns the canonical id. */
    method DedupRefType(id: Id) returns (r: IdResult)
      requires RefInv() && id < types.Length
      modifies types, canonMap, table
      ensures r.Got? ==> RefInv() && Frame(old(types[..]), old(canonMap[..]), types[..], canonMap[..])
      ensures r.Got? ==> IsRoot(canonMap[..], r.id) && Mapped(canonMap[..], id) && Root(canonMap[..], id) == r.id
      ensures r.NoId? ==> !Safe(orig, old(canonMap[..]), id)
      decreases |Unvisited(canonMap[..])|, 0
    {
      hide Safe, SafeInside, Sound, Rewritten, TableInv, Closed, Forest, RefStage, HashMaps.HashMap.Valid, Tidy, Refs;
      ghost var g0, m0 := types[..], canonMap[..];
      VisitedOrNot(id);
      EnterSafe(orig, m0, id);
      if canonMap[id] == IN_PROGRESS { return NoId(ELoop); }
      if canonMap[id] <= MAX_NR_TYPES {
        r := ResolveVisited(id);
        return;
      }
      Mark(id);
      var o := ResolveRefs(id);
      if o != Done { return NoId(o.errno); }
      r := SettleRef(id, g0, m0);
    }

    lemma VisitedOrNot(id: Id)
      requires RefInv() && id < types.Length
      ensures Mapped(canonMap[..], id)
        || (IsReference(types[id]) && id > 0 && (canonMap[id] == UNPROCESSED || canonMap[id] == IN_PROGRESS))
    {
      assert RefStageAt(types[..], canonMap[..], id);
    }

    method ResolveVisited(id: Id) returns (r: IdResult)
      requires RefInv() && id < types.Length && Mapped(canonMap[..], id)
      ensures r.Got? && Frame(types[..], canonMap[..], types[..], canonMap[..])
      ensures IsRoot(canonMap[..], r.id) && Root(canonMap[..], id) == r.id
    {
      RootMapped(canonMap[..], id);
      var root := ResolveTypeId(id);
      return Got(root);
    }

    method Mark(id: Id)
      requires RefInv() && id < types.Length && canonMap[id] == UNPROCESSED
      modifies canonMap
      ensures RefInv() && canonMap[..] == old(canonMap[..])[id := IN_PROGRESS]
      ensures |Unvisited(canonMap[..])| < |Unvisited(old(canonMap[..]))|
    {
      ghost var g, m := types[..], canonMap[..];
      SoundUnmapped(orig, exact, m, id, IN_PROGRESS);
      MarkTable(g, exact, m, table.Entries(), id);
      MarkStage(g, m, id);
      canonMap[id] := IN_PROGRESS;
      assert canonMap[..] == m[id := IN_PROGRESS];
    }

    /** Resolves every reference of the descriptor in progress, in place: of an
        array the element type first, of a prototype the result first. */
    method ResolveRefs(id: Id) returns (o: Outcome)
      requires RefInv() && id < types.Length && canonMap[id] == IN_PROGRESS && IsReference(types[id])
      modifies types, canonMap, table
      ensures o == Done ==> RefInv() && FrameBut(old(types[..]), old(canonMap[..]), types[..], canonMap[..], id)
      ensures o == Done ==> AllRoots(canonMap[..], Refs(types[id]))
      ensures o != Done ==> !SafeInside(orig, old(canonMap[..]), id)
      decreases |Unvisited(canonMap[..])|, 3
    {
      hide SafeInside, Sound, Rewritten, TableInv, Closed, Forest, RefStage, FrameAt, RootsAmong,
        HashMaps.HashMap.Valid;
      ghost var g, m := types[..], canonMap[..];
      ghost var done: set<nat> := {};
      RefsStart(g, m, id);
      if types[id].body.Array? {
        o, done := ResolveRef(id, 1, g, m, done);
        if o != Done { return; }
        FrameButUnvisited(g, m, types[..], canonMap[..], id);
        KeepSafe(orig, g, m, types[..], canonMap[..], id);
        o, done := ResolveRef(id, 0, g, m, done);
      } else {
        o, done := ResolveInOrder(id, |Refs(types[id])|, g, m);
      }
      if o == Done { RootsAll(types[..], canonMap[..], id, done); }
    }

    method ResolveInOrder(id: Id, n: nat, ghost g: Graph, ghost m: seq<nat>) returns (o: Outcome, ghost done: set<nat>)
      requires RefInv() && FrameBut(g, m, types[..], canonMap[..], id) && n == |Refs(types[id])|
      modifies types, canonMap, table
      ensures o == Done ==> RefInv() && FrameBut(g, m, types[..], canonMap[..], id)
      ensures o == Done ==> RootsAmong(types[..], canonMap[..], id, done) && forall k :: 0 <= k < n ==> k in done
      ensures o != Done ==> !SafeInside(orig, old(canonMap[..]), id)
      decreases |Unvisited(canonMap[..])|, 2
    {
      hide SafeInside, Sound, Rewritten, TableInv, Closed, Forest, RefStage, FrameBut, FrameAt, RootsAmong,
        Unvisited, HashMaps.HashMap.Valid, Tidy, Refs, KindOf;
      ghost var g1, m1 := types[..], canonMap[..];
      FrameButFacts(g, m, g1, m1, id);
      RefsStart(g1, m1, id);
      o, done := Done, {};
      for i := 0 to n
        modifies types, canonMap, table
        invariant RefInv() && FrameBut(g, m, types[..], canonMap[..], id) &&
          FrameBut(g1, m1, types[..], canonMap[..], id)
        invariant RootsAmong(types[..], canonMap[..], id, done) && forall k :: 0 <= k < i ==> k in done
        invariant o == Done
      {
        ghost var gi, mi := types[..], canonMap[..];
        FrameButFacts(g, m, gi, mi, id);
        FrameButUnvisited(g1, m1, gi, mi, id);
        KeepSafe(orig, g1, m1, gi, mi, id);
        RefsStart(gi, mi, id);
        o, done := ResolveRef(id, i, gi, mi, done);
        if o != Done { return; }
        FrameButThen(g, m, gi, mi, types[..], canonMap[..], id);
        FrameButThen(g1, m1, gi, mi, types[..], canonMap[..], id);
      }
    }

    /** Resolves one reference of the descriptor in progress. */
    method ResolveRef(id: Id, k: nat, ghost g: Graph, ghost m: seq<nat>, ghost done: set<nat>)
      returns (o: Outcome, ghost done': set<nat>)
      requires RefInv() && FrameBut(g, m, types[..], canonMap[..], id)
      requires k < |Refs(types[id])| && RootsAmong(types[..], canonMap[..], id, done)
      modifies types, canonMap, table
      ensures o == Done ==> RefInv() && FrameBut(g, m, types[..], canonMap[..], id)
      ensures o == Done ==> RootsAmong(types[..], canonMap[..], id, done')
      ensures done' == done + {k}
      ensures o != Done ==> !SafeInside(orig, old(canonMap[..]), id)
      decreases |Unvisited(canonMap[..])|, 1
    {
      hide SafeInside, Safe, Sound, Rewritten, TableInv, Closed, Forest, RefStage, FrameAt, HashMaps.HashMap.Valid;
      done' := done + {k};
      ghost var g1, m1 := types[..], canonMap[..];
      RefWithin(id, k);
      var ref := Refs(types[id])[k];
      ChildSafe(id, k);
      var r := DedupRefType(ref);
      if r.NoId? { return Error(r.errno), done'; }
      ghost var g2, m2 := types[..], canonMap[..];
      RefRoot(ref);
      ghost var refs' := Refs(g1[id])[k := r.id];
      FrameButRewrite(g1, m1, g2, m2, id, refs');
      StoreRef(id, k, r.id);
      FrameButThen(g, m, g1, m1, types[..], canonMap[..], id);
      RootsAmongNext(g1, m1, types[..], canonMap[..], id, done, k, r.id);
      return Done, done';
    }

    lemma ChildSafe(id: Id, k: nat)
      requires RefInv() && id < types.Length && k < |Refs(types[id])| && canonMap[id] == IN_PROGRESS
      ensures SafeInside(orig, canonMap[..], id) ==> Safe(orig, canonMap[..], Refs(types[id])[k])
    {
      VisitedOrNot(id);
      if SafeInside(orig, canonMap[..], id) {
        SafeChild(orig, exact, types[..], canonMap[..], id, k);
      }
    }

    lemma RefWithin(id: Id, k: nat)
      requires RefInv() && id < types.Length && k < |Refs(types[id])|
      ensures Refs(types[id])[k] < types.Length == canonMap.Length
      ensures types.Length <= MAX_NR_TYPES + 1
    {
      RefsInside(types[..], id);
    }

    lemma RefRoot(ref: Id)
      requires RefInv() && ref < types.Length
      ensures Same(orig, exact, ref, Root(canonMap[..], ref))
    {
      RootSame(orig, exact, canonMap[..], ref);
    }

    method StoreRef(id: Id, k: nat, r: Id)
      requires RefInv() && id < types.Length && canonMap[id] == IN_PROGRESS && k < |Refs(types[id])|
      requires Refs(types[id])[k] < types.Length && IsRoot(canonMap[..], r) && Same(orig, exact, Refs(types[id])[k], r)
      modifies types
      ensures RefInv()
      ensures types[..] == old(types[..])[id := SetRefs(old(types[id]), Refs(old(types[id]))[k := r])]
    {
      ghost var g, m := types[..], canonMap[..];
      var t' := SetRefs(types[id], Refs(types[id])[k := r]);
      RewriteOne(orig, g, exact, id, k, r);
      RewriteTable(g, exact, m, table.Entries(), id, t');
      RewriteStage(g, m, id, t');
      RewrittenClosed(orig, g[id := t'], exact);
      types[id] := t';
      assert types[..] == g[id := t'];
    }

    /** The comparison with the candidates once the references are resolved. */
    method SettleRef(id: Id, ghost g0: Graph, ghost m0: seq<nat>) returns (r: IdResult)
      requires RefInv() && 0 < id < types.Length && IsReference(types[id]) && AllRoots(canonMap[..], Refs(types[id]))
      requires |g0| == |m0| && id < |g0| && m0[id] == UNPROCESSED
      requires FrameBut(g0, m0[id := IN_PROGRESS], types[..], canonMap[..], id)
      modifies canonMap, table
      ensures RefInv() && Frame(g0, m0, types[..], canonMap[..])
      ensures r.Got? && IsRoot(canonMap[..], r.id) && Mapped(canonMap[..], id) && Root(canonMap[..], id) == r.id
    {
      hide KeepsMeaning, Rewritten, TableInv, Closed, Forest, HashMaps.HashMap.Valid, FrameBut, Frame, AllAnchored,
        CoversEquals, NotFiled, Tidy;
      ghost var g, m := types[..], canonMap[..];
      FrameButFacts(g0, m0[id := IN_PROGRESS], g, m, id);
      var h := Hash(types[id]);
      var cands := CandidatesFor(id, h);
      var newId := FindEqual(id, cands);
      UnmappedNotFiled(g, exact, m, table.Entries(), id);
      SettleSafe(orig, g, exact, m, id, newId);
      TidySettled(orig, g, exact, m, id, newId);
      var o := Settle(id, newId, h);
      if o != Done { return NoId(ENoMem); }
      SettleFrameBut(g0, m0, g, m, id, newId);
      RootStep(canonMap[..], id);
      RootStep(canonMap[..], newId);
      return Got(newId);
    }

    /** After the first four passes. */
    ghost predicate Solved()
      reads types, canonMap
    {
      types.Length == canonMap.Length == hypotMap.Length && canonMap != hypotMap
      && SolvedMap(orig, types[..], exact, canonMap[..])
    }

    method FreeTable()
      requires RefInv() && forall i :: 0 <= i < canonMap.Length ==> Mapped(canonMap[..], i)
      modifies table
      ensures Solved()
    {
      table.Clear();
    }

    /** btf_dedup_ref_types. */
    method DedupRefTypes() returns (o: Outcome)
      requires RefInv() && nrTypes == types.Length - 1
      requires forall i :: 0 <= i < canonMap.Length ==> Mapped(canonMap[..], i) || canonMap[i] == UNPROCESSED
      modifies types, canonMap, table
      ensures o == Done ==> Solved()
      ensures o != Done ==> !Acyclic(orig)
    {
      hide Sound, Rewritten, TableInv, Forest, HashMaps.HashMap.Valid, Safe, Acyclic;
      for i := 1 to nrTypes + 1
        modifies types, canonMap, table
        invariant RefInv() && forall j :: 0 <= j < i ==> Mapped(canonMap[..], j)
        invariant forall j :: 0 <= j < canonMap.Length ==> Mapped(canonMap[..], j) || canonMap[j] == UNPROCESSED
      {
        ghost var g, m := types[..], canonMap[..];
        if Acyclic(orig) { SafeStart(orig, m, i); }
        var r := DedupRefType(i);
        if r.NoId? { return Error(r.errno); }
        NoneUnvisited(g, m, types[..], canonMap[..], i);
      }
      FreeTable();
      return Done;
    }

    // ----- compaction and remapping -----

    /** btf_dedup_compact_types, on descriptors: packs the canonical ones to the
        front and leaves the table of new ids in the hypothetical map. */
    method CompactTypes()
      requires Solved() && nrTypes == types.Length - 1
      modifies types, hypotMap, this`nrTypes
      ensures nrTypes == CanonCount(canonMap[..], canonMap.Length)
      ensures Packing(old(types[..]), canonMap[..], types[..], hypotMap[..], canonMap.Length)
    {
      hide Sound, Rewritten, NoDuplicates, Closed, Forest, RefStage, Packing;
      ghost var g, m := types[..], canonMap[..];
      ClearIds(hypotMap);
      PackingStart(g, m, hypotMap[..]);
      var nextTypeId := 1;
      for i := 1 to nrTypes + 1
        modifies types, hypotMap
        invariant canonMap[..] == m && nextTypeId == 1 + CanonCount(m, i)
        invariant Packing(g, m, types[..], hypotMap[..], i)
      {
        ghost var f, h := types[..], hypotMap[..];
        PackOne(g, m, f, h, i);
        if canonMap[i] != i { continue; }
        types[nextTypeId] := types[i];
        hypotMap[i] := nextTypeId;
        assert types[..] == f[nextTypeId := f[i]] && hypotMap[..] == h[i := nextTypeId];
        nextTypeId := nextTypeId + 1;
      }
      nrTypes := nextTypeId - 1;
    }

    /** btf_dedup_remap_type_id. */
    method RemapTypeId(id: Id) returns (r: IdResult)
      requires canonMap.Length == hypotMap.Length && Forest(canonMap[..]) && id < canonMap.Length
      ensures r == if hypotMap[Root(canonMap[..], id)] > MAX_NR_TYPES then NoId(EInval)
                   else Got(hypotMap[Root(canonMap[..], id)])
    {
      var resolved := ResolveTypeId(id);
      if hypotMap[resolved] > MAX_NR_TYPES { return NoId(EInval); }
      return Got(hypotMap[resolved]);
    }

    /** btf_dedup_remap_type: rewrites every reference of one descriptor. It
        fails exactly when some reference resolves to an id without a new number. */
    method RemapType(id: Id) returns (o: Outcome)
      requires canonMap.Length == hypotMap.Length && Forest(canonMap[..])
      requires id < types.Length && !types[id].body.Void?
      requires forall k :: 0 <= k < |Refs(types[id])| ==> Refs(types[id])[k] < canonMap.Length
      modifies types
      ensures o == Done || o == Error(EInval)
      ensures o == Done <==> AllNumbered(canonMap[..], hypotMap[..], Refs(old(types[id])))
      ensures o == Done ==>
        types[..] == old(types[..])[id := SetRefs(old(types[id]),
          NewIds(canonMap[..], hypotMap[..], Refs(old(types[id]))))]
    {
      ghost var m, h := canonMap[..], hypotMap[..];
      var t := types[id];
      var refs, newRefs := Refs(t), [];
      for k := 0 to |refs|
        invariant |newRefs| == k && types[..] == old(types[..])
        invariant forall j :: 0 <= j < k ==> h[Root(m, refs[j])] <= MAX_NR_TYPES && newRefs[j] == h[Root(m, refs[j])]
      {
        var r := RemapTypeId(refs[k]);
        if r.NoId? { return Error(r.errno); }
        newRefs := newRefs + [r.id];
      }
      assert newRefs == NewIds(m, h, refs);
      types[id] := SetRefs(t, newRefs);
      assert types[..] == old(types[..])[id := SetRefs(t, newRefs)];
      return Done;
    }

    /** btf_dedup_remap_types. After a successful compaction it cannot fail. */
    method RemapTypes(ghost g: Graph) returns (o: Outcome)
      requires nrTypes < types.Length && canonMap.Length == hypotMap.Length && Closed(g)
      requires Resolved(canonMap[..]) && |g| == canonMap.Length && Numbered(canonMap[..], hypotMap[..])
      requires nrTypes == CanonCount(canonMap[..], canonMap.Length) && NoVoid(g)
      requires Remapping(g, canonMap[..], types[..nrTypes + 1], 1)
      modifies types
      ensures o == Done
      ensures Finished(g, canonMap[..], types[..nrTypes + 1])
    {
      hide Closed, Resolved, Remapping, RemappedAt;
      ghost var m, h := canonMap[..], hypotMap[..];
      for i := 1 to nrTypes + 1
        invariant Remapping(g, m, types[..nrTypes + 1], i)
      {
        ghost var f := types[..nrTypes + 1];
        assert f[i] == types[i];
        RemapReady(g, m, h, f, i);
        o := RemapType(i);
        RemapOne(g, m, f, i, SetRefs(f[i], FinalIds(m, Refs(f[i]))));
        assert types[..nrTypes + 1] == f[i := SetRefs(f[i], FinalIds(m, Refs(f[i])))];
      }
      RemapEnd(g, m, types[..nrTypes + 1]);
      return Done;
    }

    // ----- the whole of btf__dedup -----

    /** A state btf_dedup_new can leave, the strings having been deduplicated. */
    ghost predicate Fresh()
      reads this, types, canonMap, hypotMap, table
    {
      && types.Length == canonMap.Length == hypotMap.Length && canonMap != hypotMap
      && Closed(types[..]) && types[..] == orig && types[0].body.Void? && nrTypes == types.Length - 1
      && canonMap[..] == InitialMap(types[..])
      && hypotMap[..] == seq(types.Length, _ => UNPROCESSED) && hypotList == []
      && table.Valid() && table.fns == TableHashing(collide) && table.Entries() == multiset{}
    }

    /** btf__dedup after the strings. */
    method Run() returns (o: Outcome)
      requires Fresh()
      modifies this, types, canonMap, hypotMap, table
      ensures o == Done ==> nrTypes < types.Length && Deduplicated(orig, exact, canonMap[..], types[..nrTypes + 1])
      ensures o == Done && exact ==> CompletedBy(orig, canonMap[..])
      ensures TameGraph(orig) && Acyclic(orig) ==> o == Done
    {
      hide TameGraph, Acyclic, SolvedMap, Closed, Forest, Packing, Remapping, Deduplicated, Resolved, Numbered,
        NoVoid, Finished, HashMaps.HashMap.Valid, CompletedBy;
      o := DedupAll();
      if o != Done { return; }
      ghost var g, m := types[..], canonMap[..];
      if exact { AllCompleted(orig, g, m); }
      CompactTypes();
      AfterCompaction(orig, g, exact, m, types[..], hypotMap[..]);
      o := RemapTypes(g);
      AfterRemap(orig, g, exact, m, types[..nrTypes + 1]);
    }

    /** The first four passes. */
    method DedupAll() returns (o: Outcome)
      requires Fresh()
      modifies this`hypotList, types, canonMap, hypotMap, table
      ensures o == Done ==> Solved()
      ensures TameGraph(orig) && Acyclic(orig) ==> o == Done
    {
      hide Acyclic, Sound, Rewritten, TableInv, Closed, Forest, RefStage, PrimStage, StructStage,
        HashMaps.HashMap.Valid, SolvedMap;
      Begin();
      o := DedupPrimTypes();
      if o != Done { return; }
      o := DedupStructTypes();
      if o != Done { return; }
      BeginRefs();
      o := DedupRefTypes();
    }

    lemma Begin()
      requires Fresh()
      ensures PrimInv() && PrimStage(types[..], canonMap[..], 1) && HypotOk(hypotMap[..], hypotList)
    {
      InitialSound(types[..], exact);
    }

    lemma BeginRefs()
      requires StructInv() && StructStage(types[..], canonMap[..], types.Length)
      ensures RefInv()
      ensures forall i :: 0 <= i < canonMap.Length ==> Mapped(canonMap[..], i) || canonMap[i] == UNPROCESSED
    {
      StructStageEnd(types[..], exact, canonMap[..]);
    }
  }

  /** btf__dedup on the types. On success `nrTypes` types are left, and every
      original id means the same as the final id its links lead to. It succeeds
      on every input whose kinds are known, whose variables and sections are not
      used as types, and whose cycles of references all pass through a struct. */
  method DedupTypes(btf: array<Type>, dontResolveFwds: bool, collide: bool)
    returns (o: Outcome, nrTypes: nat, ghost links: seq<nat>)
    requires Closed(btf[..]) && btf[0].body.Void?
    modifies btf
    ensures o == Done ==> nrTypes < btf.Length
    ensures o == Done ==> Deduplicated(old(btf[..]), dontResolveFwds, links, btf[..nrTypes + 1])
    ensures o == Done && dontResolveFwds ==> CompletedBy(old(btf[..]), links)
    ensures o == Done && dontResolveFwds && Completable(old(btf[..])) && Acyclic(old(btf[..])) ==>
      forall reps: set<Id> :: Spanned(old(btf[..]), reps) ==> nrTypes <= |reps|
    ensures TameGraph(old(btf[..])) && Acyclic(old(btf[..])) ==> o == Done
  {
    hide Closed, Deduplicated, HashMaps.HashMap.Valid, TameGraph, Acyclic, CompletedBy, Completable, Spanned;
    var d := new Dedup(btf, dontResolveFwds, collide);
    o := d.Run();
    nrTypes, links := d.nrTypes, d.canonMap[..];
    if o == Done && dontResolveFwds && Completable(d.orig) && Acyclic(d.orig) {
      FewTypesLeft(d.orig, dontResolveFwds, links, btf[..nrTypes + 1]);
    }
  }
}
