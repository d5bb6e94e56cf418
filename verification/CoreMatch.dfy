/** Matching a local field spec against a target type. */
module CoreMatch {
  import opened Basics
  import opened BtfTypes
  import opened CoreSpec
  import opened CoreSearch
  import opened CoreUnique
  import opened CoreCompat

  class Spec {
    const b: Btf
    var accs: seq<Accessor>
    var raw: seq<nat>
    var bitOffset: nat

    ghost function Now(): State
      reads this
    {
      State(accs, raw, bitOffset)
    }

    ghost predicate Valid()
      reads this
    {
      Sane(b) && bitOffset < U32 && |raw| <= SPEC_MAX_LEN
    }

    constructor (b: Btf)
      requires Sane(b)
      ensures Valid() && this.b == b && accs == [] && raw == [] && bitOffset == 0
    {
      this.b, accs, raw, bitOffset := b, [], [], 0;
    }

    /** bpf_core_match_member: tries the members of a target type in order, going
        into anonymous ones, and backs out of those that do not lead to the name. */
    method MatchMember(w: Wanted, targId: Id) returns (m: Match)
      requires Valid() && ProperNames(b) && ProperWanted(w) && targId < |b.types| && accs != []
      modifies this`accs, this`raw, this`bitOffset
      ensures Valid() && |raw| >= |old(raw)| && accs != []
      ensures Searched(b, w, old(Now()), Now(), targId, m)
      decreases SPEC_MAX_LEN - |raw|
    {
      hide Sane, ProperNames, Passed, Searched, Compatible, Skip, MemberBitOffset;
      var id := Skip(b, targId);
      var t := b.types[id];
      ghost var st := Now();
      if !t.body.Composite? {
        NoMembers(b, targId, w, st);
        return NotFound;
      }
      var members := t.body.members;
      PassedNone(b, w, t, st);
      MembersInside(b, id);
      for i := 0 to |members|
        invariant Valid() && |raw| >= |st.raw| && accs != []
        invariant Passed(b, w, t, i, st, Now())
      {
        if |raw| == SPEC_MAX_LEN {
          SearchFull(b, w, targId, i, st, Now());
          return Failed(E2Big);
        }
        ghost var st1 := Now();
        var off := MemberBitOffset(t, i);
        bitOffset := Forward(bitOffset, off);
        raw := raw + [i];
        var name := b.strs(members[i].name);
        if name == "" {
          m := MatchMember(w, members[i].ty);
          if m.Found? { FoundInside(b, w, targId, i, st, st1, Now(), m); }
          if m.Failed? { SearchFailed(b, w, targId, i, st, st1, Now(), m.errno); }
          if m != NotFound { return; }
          PassAnonymous(b, w, targId, i, st, st1, Now());
        } else if name == w.name {
          accs := accs + [Accessor(id, i, Some(name))];
          if Compatible(w.l, w.ty, b, members[i].ty) {
            FoundHere(b, w, targId, i, st, st1);
            return Found(members[i].ty);
          }
          accs := accs[..|accs| - 1];
          MissedHere(b, w, targId, i, st, st1, Now());
          return NotFound;
        } else {
          PassNamed(b, w, targId, i, st, st1);
        }
        bitOffset := Back(bitOffset, off);
        raw := raw[..|raw| - 1];
      }
      PassedAll(b, w, targId, st, Now());
      return NotFound;
    }

    /** bpf_core_spec_parse, on the numbers of the access string. */
    method Parse(typeId: Id, access: seq<nat>) returns (r: Result<Id>)
      requires Sane(b)
      modifies this`accs, this`raw, this`bitOffset
      ensures Valid()
      ensures r == match Denotes(b, typeId, access) { case Err(e) => Err(e) case Ok(w) => Ok(w.id) }
      ensures r.Ok? ==> raw == access && Denotes(b, typeId, access) == Ok(Walk(r.value, accs, bitOffset))
    {
      hide Sane, Skip, SizeOf, Steps, Step, Denotes;
      accs, raw, bitOffset := [], [], 0;
      DenotesNothing(b, typeId, access);
      if access == [] { return Err(EInval); }
      if |access| > SPEC_MAX_LEN { return Err(E2Big); }
      raw := access;
      StepsStart(b, typeId, access);
      if typeId >= |b.types| { return Err(EInval); }
      var id: Id := Skip(b, typeId);
      accs := [Accessor(id, access[0], None)];
      var size := ElementSize(id);
      if size.Err? { return Err(size.errno); }
      bitOffset := access[0] * size.value * 8 % U32;
      ghost var w0 := Walk(id, accs, bitOffset);
      assert Start(b, typeId, access[0]) == Ok(w0);
      for i := 1 to |access|
        invariant Valid() && raw == access && id < |b.types| && accs != []
        invariant w0.id < |b.types| && w0.accs != [] && Denotes(b, typeId, access) == Steps(b, w0, access[1..])
        invariant Steps(b, w0, access[1..i]) == Ok(Walk(id, accs, bitOffset))
      {
        StepsNext(b, w0, access, i, Walk(id, accs, bitOffset));
        var next := ParseStep(id, access[i]);
        if next.Err? { return next; }
        id := next.value;
      }
      assert access[1..|access|] == access[1..];
      return Ok(id);
    }

    /** One element of the access string. */
    method ParseStep(at: Id, idx: nat) returns (r: Result<Id>)
      requires Valid() && at < |b.types| && accs != []
      modifies this`accs, this`bitOffset
      ensures Valid() && accs != []
      ensures match Step(b, Walk(at, old(accs), old(bitOffset)), idx) {
        case Err(e) => r == Err(e)
        case Ok(w) => r == Ok(w.id) && accs == w.accs && bitOffset == w.bitOffset
      }
    {
      hide Sane, Skip, SizeOf, MemberBitOffset;
      var id: Id := Skip(b, at);
      var t := b.types[id];
      if t.body.Composite? {
        if idx >= |t.body.members| { return Err(EInval); }
        bitOffset := (bitOffset + MemberBitOffset(t, idx)) % U32;
        var m := t.body.members[idx];
        if m.name != 0 {
          var name := b.strs(m.name);
          if name == "" { return Err(EInval); }
          accs := accs + [Accessor(id, idx, Some(name))];
        }
        return Ok(m.ty);
      } else if t.body.Array? {
        ElementInside(b, at);
        var el: Id := Skip(b, t.body.elem);
        if !IsFlexArr(b, accs[|accs| - 1], t.body.nelems) && idx >= t.body.nelems { return Err(EInval); }
        accs := accs + [Accessor(el, idx, None)];
        var size := ElementSize(el);
        if size.Err? { return Err(size.errno); }
        bitOffset := (bitOffset + idx * size.value * 8) % U32;
        return Ok(el);
      } else {
        return Err(EInval);
      }
    }

    /** bpf_core_spec_match. On success the target spec is exactly what its own
        access string denotes on the target type, accessor by accessor it has the
        names, indices and compatible types of the local spec, and nothing else
        on the target corresponds to the local spec; when there is no match,
        nothing does. It does match whenever something corresponds and the
        target's anonymous nesting leaves room in the spec. */
    method SpecMatch(l: Btf, localAccs: seq<Accessor>, targId: Id) returns (r: Result<bool>)
      requires Valid() && ProperNames(b) && LocalSpec(l, localAccs)
      modifies this`accs, this`raw, this`bitOffset
      ensures Valid()
      ensures r == Ok(true) ==>
        exists w :: Corresponds(l, localAccs, b, targId, raw, w) && w.accs == accs && w.bitOffset == bitOffset
      ensures r == Ok(true) ==>
        forall other: seq<nat>, w :: Corresponds(l, localAccs, b, targId, other, w) ==> raw <= other && w.accs == accs
      ensures r == Ok(false) && NoAnonymousArrays(b) ==>
        forall other: seq<nat>, w :: !Corresponds(l, localAccs, b, targId, other, w)
      ensures r.Err? ==> (targId >= |b.types| && r.errno == EInval) || Overruns(r.errno)
      ensures Findable(l, localAccs, b, targId) ==> r == Ok(true)
    {
      hide Sane, ProperNames, Compatible, Skip, Searched, NamesMember, AccMatches, Corresponds, SizeOf, Midway,
        NoAnonymousArrays, Indexes, Findable;
      accs, raw, bitOffset := [], [], 0;
      if targId >= |b.types| {
        OutsideNothing(l, localAccs, b, targId);
        NothingFindable(l, localAccs, b, targId);
        return Err(EInval);
      }
      var cur: Id := Skip(b, targId);
      MidwayNone(l, localAccs, b, targId);
      for i := 0 to |localAccs|
        invariant Valid() && |accs| == i && cur < |b.types|
        invariant Midway(l, localAccs, b, targId, i, cur, Now())
      {
        var acc := localAccs[i];
        ghost var st := Now();
        if acc.name.Some? {
          var want := WantedOf(l, acc);
          var m := MatchMember(want, Skip(b, cur));
          match m {
            case Found(next) =>
              MidwayMember(l, localAccs, b, targId, i, cur, st, Now(), next);
              FoundInRange(b, want, st, Now(), Skip(b, cur), next);
              cur := next;
            case NotFound =>
              MidwayNoMember(l, localAccs, b, targId, i, cur, st, Now());
              NothingFindable(l, localAccs, b, targId);
              return Ok(false);
            case Failed(e) =>
              FailedFull(b, want, st, Now(), Skip(b, cur), e);
              FailedUnfindable(l, localAccs, b, targId, i, cur, st, Now(), e);
              return Err(e);
          }
        } else {
          var id := Skip(b, cur);
          if i > 0 {
            var t := b.types[id];
            IndexesIs(b, cur, accs[i - 1], acc.idx);
            if !t.body.Array? || (!IsFlexArr(b, accs[i - 1], t.body.nelems) && acc.idx >= t.body.nelems) {
              MidwayNoIndex(l, localAccs, b, targId, i, cur, st);
              NothingFindable(l, localAccs, b, targId);
              return Ok(false);
            }
            id := Skip(b, t.body.elem);
          }
          if |raw| == SPEC_MAX_LEN {
            FullUnfindable(l, localAccs, b, targId, i, cur, st);
            return Err(E2Big);
          }
          accs := accs + [Accessor(id, acc.idx, None)];
          raw := raw + [acc.idx];
          var size := ElementSize(id);
          if size.Err? {
            SizelessUnfindable(l, localAccs, b, targId, i, cur, st, id);
            return Err(size.errno);
          }
          bitOffset := (bitOffset + acc.idx * size.value * 8) % U32;
          assert Now() == Indexed(st, id, acc.idx, size.value);
          if i == 0 {
            MidwayStart(l, localAccs, b, targId, cur, st, size.value);
          } else {
            MidwayIndex(l, localAccs, b, targId, i, cur, st, id, size.value);
          }
          cur := id;
        }
      }
      MidwayEnd(l, localAccs, b, targId, cur, Now());
      return Ok(true);
    }

    /** The spec is full, or the last type indexed has no size. */
    ghost predicate Overruns(e: Errno)
      requires Sane(b)
      reads this
    {
      || (e == E2Big && |raw| == SPEC_MAX_LEN)
      || (accs != [] && accs[|accs| - 1].typeId < |b.types| && SizeOf(b, accs[|accs| - 1].typeId) == Err(e))
    }

    method ElementSize(id: Id) returns (r: Result<nat>)
      requires Sane(b) && id < |b.types|
      ensures r == SizeOf(b, id)
    {
      r := SizeOf(b, id);
    }
  }

  /** A spec parsed from an access string and matched against the BTF it comes
      from finds itself: the same members, whatever pointers, structs, enums,
      integers and arrays of them it passes. */
  method MatchOwn(b: Btf, typeId: Id, access: seq<nat>, ghost d: nat) returns (found: Result<bool>, spec: Spec)
    requires Sane(b) && ProperNames(b) && NoAnonymousArrays(b) && NestedBelow(b, d) && |access| + d <= SPEC_MAX_LEN
    requires Denotes(b, typeId, access).Ok? && AllRelocatable(b, Denotes(b, typeId, access).value.accs)
    ensures found == Ok(true)
    ensures spec.raw <= access && spec.accs == Denotes(b, typeId, access).value.accs
  {
    hide Denotes, AllRelocatable, Findable, Corresponds;
    var local := new Spec(b);
    var _ := local.Parse(typeId, access);
    ghost var w := Denotes(b, typeId, access).value;
    DenotesLocal(b, typeId, access);
    SelfFindable(b, typeId, access, w, d);
    SelfCorresponds(b, typeId, access, w);
    spec := new Spec(b);
    found := spec.SpecMatch(b, local.accs, typeId);
  }
}
