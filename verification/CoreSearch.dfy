/** The search for a member of a target type, and when a target spec corresponds
    to a local one. */
module CoreSearch {
  import opened Basics
  import opened BtfTypes
  import opened BtfMeaning
  import opened CoreSpec

  // ----- names and compatibility -----

  /** X___Y at position i, X and Y not underscores. */
  predicate IsFlavorSep(s: string, i: nat) {
    i + 4 < |s| && s[i] != '_' && s[i + 1] == '_' && s[i + 2] == '_' && s[i + 3] == '_' && s[i + 4] != '_'
  }

  /** Length of the name without its flavor suffix, looking from `i` down. */
  function EssentialLenFrom(s: string, i: nat): (r: nat)
    requires i <= |s|
    ensures r <= |s|
  {
    if i == 0 then |s|
    else if IsFlavorSep(s, i - 1) then i
    else EssentialLenFrom(s, i - 1)
  }

  function EssentialLen(s: string): (r: nat)
    ensures r <= |s|
  {
    if |s| < 5 then |s| else EssentialLenFrom(s, |s| - 4)
  }

  function IntOffset(encoding: nat): nat { encoding / 0x1_0000 % 0x100 }

  /** bpf_core_fields_are_compat. */
  predicate Compatible(l: Btf, lid: Id, b: Btf, id: Id)
    requires Sane(l) && Sane(b) && lid < |l.types| && id < |b.types|
    decreases RankOf(l)[Skip(l, lid)], RankOf(l)[lid]
  {
    var lid', id' := Skip(l, lid), Skip(b, id);
    var lt, t := l.types[lid'], b.types[id'];
    if lt.body.Composite? && t.body.Composite? then true
    else if KindOf(lt) != KindOf(t) then false
    else match lt.body
      case Ref(Ptr, _, _) => true
      case Fwd(_, _) => SameEssential(l.strs(lt.name), b.strs(t.name))
      case Enum(_, _) => SameEssential(l.strs(lt.name), b.strs(t.name))
      case Int(_, _, enc) => IntOffset(enc) == 0 && IntOffset(t.body.encoding) == 0
      case Array(_, _, _, el, _) => (SkipRank(l, el); Compatible(l, el, b, t.body.elem))
      case _ => false
  }

  lemma {:induction false} SkipRank(l: Btf, id: Id)
    requires Sane(l) && id < |l.types|
    ensures RankOf(l)[Skip(l, id)] <= RankOf(l)[id]
    decreases RankOf(l)[id]
  {
    if IsSkipped(l.types[id]) { SkipRank(l, l.types[id].body.target); }
  }

  predicate SameEssential(a: string, b: string) {
    var n, m := EssentialLen(a), EssentialLen(b);
    n == 0 || m == 0 || (n == m && a[..n] == b[..m])
  }

  // ----- which members a type has, anonymous ones flattened -----

  /** Some member named `name` whose type satisfies `ok` is reachable from `id`
      through fewer than `n` levels of anonymous members. */
  ghost predicate HasMember(b: Btf, id: Id, name: string, ok: Id -> bool, n: nat)
    requires Sane(b) && id < |b.types|
    decreases n, 1
  {
    var t := b.types[Skip(b, id)];
    t.body.Composite? && exists i :: 0 <= i < |t.body.members| && MemberIs(b, t, i, name, ok, n)
  }

  ghost predicate MemberIs(b: Btf, t: Type, i: nat, name: string, ok: Id -> bool, n: nat)
    requires Sane(b) && t.body.Composite? && i < |t.body.members|
    decreases n, 0
  {
    var m := t.body.members[i];
    m.ty < |b.types| && n > 0 &&
    if b.strs(m.name) == "" then HasMember(b, m.ty, name, ok, n - 1) else b.strs(m.name) == name && ok(m.ty)
  }

  ghost predicate Has(b: Btf, id: Id, name: string, ok: Id -> bool)
    requires Sane(b) && id < |b.types|
  {
    exists n: nat :: HasMember(b, id, name, ok, n)
  }

  ghost predicate MemberHas(b: Btf, t: Type, i: nat, name: string, ok: Id -> bool)
    requires Sane(b) && t.body.Composite? && i < |t.body.members|
  {
    exists n: nat :: MemberIs(b, t, i, name, ok, n)
  }

  ghost function Any(): Id -> bool { _ => true }

  /** As C demands, no two members of a struct, anonymous ones flattened, share a
      name; and only string offset 0 reads the empty string. */
  ghost predicate ProperNames(b: Btf)
    requires Sane(b)
  {
    && (forall o: nat :: b.strs(o) == "" <==> o == 0)
    && forall i, name :: 0 <= i < |b.types| && b.types[i].body.Composite? && name != "" ==>
      UniqueIn(b, b.types[i], name)
  }

  ghost predicate UniqueIn(b: Btf, t: Type, name: string)
    requires Sane(b) && t.body.Composite?
  {
    forall j, k :: 0 <= j < k < |t.body.members| && MemberHas(b, t, j, name, Any()) ==> !MemberHas(b, t, k, name, Any())
  }

  lemma HasFromMember(b: Btf, id: Id, i: nat, name: string, ok: Id -> bool)
    requires Sane(b) && id < |b.types| && b.types[Skip(b, id)].body.Composite?
    requires i < |b.types[Skip(b, id)].body.members| && MemberHas(b, b.types[Skip(b, id)], i, name, ok)
    ensures Has(b, id, name, ok)
  {
    var n: nat :| MemberIs(b, b.types[Skip(b, id)], i, name, ok, n);
    assert HasMember(b, id, name, ok, n);
  }

  lemma MemberFromDepth(b: Btf, id: Id, name: string, ok: Id -> bool, n: nat) returns (i: nat)
    requires Sane(b) && id < |b.types| && HasMember(b, id, name, ok, n)
    ensures var t := b.types[Skip(b, id)];
      t.body.Composite? && i < |t.body.members| && MemberHas(b, t, i, name, ok)
  {
    var t := b.types[Skip(b, id)];
    i :| 0 <= i < |t.body.members| && MemberIs(b, t, i, name, ok, n);
  }

  lemma MemberFromHas(b: Btf, id: Id, name: string, ok: Id -> bool) returns (i: nat)
    requires Sane(b) && id < |b.types| && Has(b, id, name, ok)
    ensures var t := b.types[Skip(b, id)];
      t.body.Composite? && i < |t.body.members| && MemberHas(b, t, i, name, ok)
  {
    var n: nat :| HasMember(b, id, name, ok, n);
    i := MemberFromDepth(b, id, name, ok, n);
  }

  /** A member has a name when it bears it, or is anonymous and its type has it. */
  lemma MemberHasIs(b: Btf, t: Type, i: nat, name: string, ok: Id -> bool)
    requires Sane(b) && t.body.Composite? && i < |t.body.members| && t.body.members[i].ty < |b.types|
    ensures var m := t.body.members[i];
      MemberHas(b, t, i, name, ok) <==>
        if b.strs(m.name) == "" then Has(b, m.ty, name, ok) else b.strs(m.name) == name && ok(m.ty)
  {
    var m := t.body.members[i];
    if b.strs(m.name) == "" {
      if n: nat :| HasMember(b, m.ty, name, ok, n) { assert MemberIs(b, t, i, name, ok, n + 1); }
      if n: nat :| MemberIs(b, t, i, name, ok, n) { assert HasMember(b, m.ty, name, ok, n - 1); }
    } else if b.strs(m.name) == name && ok(m.ty) {
      assert MemberIs(b, t, i, name, ok, 1);
    }
  }

  lemma {:induction false} OkIsAny(b: Btf, id: Id, name: string, ok: Id -> bool, n: nat)
    requires Sane(b) && id < |b.types| && HasMember(b, id, name, ok, n)
    ensures HasMember(b, id, name, Any(), n)
    decreases n
  {
    var t := b.types[Skip(b, id)];
    var i :| 0 <= i < |t.body.members| && MemberIs(b, t, i, name, ok, n);
    var m := t.body.members[i];
    if b.strs(m.name) == "" { OkIsAny(b, m.ty, name, ok, n - 1); }
    assert MemberIs(b, t, i, name, Any(), n);
  }

  // ----- the search -----

  datatype Match = Found(next: Id) | NotFound | Failed(errno: Errno)

  /** What the search looks for: a member of the local type. */
  datatype Wanted = Wanted(l: Btf, ty: Id, name: string)

  ghost predicate ProperWanted(w: Wanted) {
    Sane(w.l) && w.ty < |w.l.types| && w.name != ""
  }

  ghost function Fits(w: Wanted, b: Btf): Id -> bool
    requires ProperWanted(w) && Sane(b)
  {
    (id: Id) => id < |b.types| && Compatible(w.l, w.ty, b, id)
  }

  /** The low-level and high-level state of the target spec. */
  datatype State = State(accs: seq<Accessor>, raw: seq<nat>, bitOffset: nat)

  /** The accessor stands for a member with this name and type. */
  ghost predicate Names(b: Btf, acc: Accessor, name: string, ty: Id) {
    && acc.name == Some(name) && acc.typeId < |b.types| && b.types[acc.typeId].body.Composite?
    && acc.idx < |b.types[acc.typeId].body.members|
    && b.strs(b.types[acc.typeId].body.members[acc.idx].name) == name
    && b.types[acc.typeId].body.members[acc.idx].ty == ty
  }

  /** No accessor is passed before the last step of the path. */
  ghost predicate Straight(b: Btf, w: Walk, path: seq<nat>)
    requires Sane(b) && w.id < |b.types| && w.accs != []
  {
    path != [] && Steps(b, w, path[..|path| - 1]).Ok? && Steps(b, w, path[..|path| - 1]).value.accs == w.accs
  }

  /** `st'` extends `st` by a walk from `id` to a member named `name`. */
  ghost predicate Reaches(b: Btf, st: State, st': State, id: Id, name: string, next: Id)
    requires Sane(b) && id < |b.types|
  {
    && st.accs != [] && |st.raw| < |st'.raw| && st.raw <= st'.raw
    && |st'.accs| == |st.accs| + 1 && Names(b, st'.accs[|st.accs|], name, next)
    && Steps(b, Walk(id, st.accs, st.bitOffset), st'.raw[|st.raw|..]) == Ok(Walk(next, st'.accs, st'.bitOffset))
    && Straight(b, Walk(id, st.accs, st.bitOffset), st'.raw[|st.raw|..])
  }

  /** A struct lies `n` levels of anonymous members below `id`. */
  ghost predicate Deep(b: Btf, id: Id, n: int)
    requires Sane(b) && id < |b.types|
    decreases n, 1
  {
    var t := b.types[Skip(b, id)];
    t.body.Composite? && t.body.members != [] &&
    (n <= 0 || exists i :: 0 <= i < |t.body.members| && DeepIn(b, t, i, n))
  }

  ghost predicate DeepIn(b: Btf, t: Type, i: nat, n: int)
    requires Sane(b) && t.body.Composite? && i < |t.body.members| && n > 0
    decreases n, 0
  {
    t.body.members[i].ty < |b.types| && b.strs(t.body.members[i].name) == "" && Deep(b, t.body.members[i].ty, n - 1)
  }

  /** The outcome of searching the members of `id`. */
  ghost predicate Searched(b: Btf, w: Wanted, st: State, st': State, id: Id, m: Match)
    requires Sane(b) && id < |b.types| && ProperWanted(w)
  {
    match m
    case Found(next) => next < |b.types| && Compatible(w.l, w.ty, b, next) && Reaches(b, st, st', id, w.name, next)
      && Has(b, id, w.name, Any()) && Has(b, id, w.name, Fits(w, b))
    case NotFound =>
      && (Has(b, id, w.name, Any()) || st' == st)
      && !Has(b, id, w.name, Fits(w, b))
    case Failed(e) =>
      && e == E2Big && |st'.raw| == SPEC_MAX_LEN
      && ((Has(b, id, w.name, Any()) && !Has(b, id, w.name, Fits(w, b))) || Deep(b, id, SPEC_MAX_LEN - |st.raw|))
  }

  /** Adding to and subtracting from a 32-bit offset. */
  function Forward(o: nat, off: nat): (r: nat)
    ensures r < U32
  {
    (o + off) % U32
  }

  function Back(o: nat, off: nat): (r: nat)
    ensures r < U32
  {
    (o + (U32 - off % U32)) % U32
  }

  lemma ForwardBack(o: nat, off: nat)
    requires o < U32
    ensures Back(Forward(o, off), off) == o
  {
    var r := off % U32;
    assert off == off / U32 * U32 + r;
    assert Forward(o, off) == (o + r) % U32;
    assert o + r < U32 ==> Forward(o, off) == o + r;
    assert o + r >= U32 ==> Forward(o, off) == o + r - U32;
  }

  /** Entering member `i` of `t`, and backing out of it. */
  function Push(st: State, t: Type, i: nat): State
    requires t.body.Composite? && i < |t.body.members|
  {
    State(st.accs, st.raw + [i], Forward(st.bitOffset, MemberBitOffset(t, i)))
  }

  function Pop(st: State, t: Type, i: nat): State
    requires t.body.Composite? && i < |t.body.members| && st.raw != []
  {
    State(st.accs, st.raw[..|st.raw| - 1], Back(st.bitOffset, MemberBitOffset(t, i)))
  }

  lemma PushPop(st: State, t: Type, i: nat)
    requires t.body.Composite? && i < |t.body.members| && st.bitOffset < U32
    ensures Pop(Push(st, t, i), t, i) == st
  {
    ForwardBack(st.bitOffset, MemberBitOffset(t, i));
  }

  /** Members below `i` do not fit; unless one of them bore the name, the state
      is as it was. */
  ghost predicate Passed(b: Btf, w: Wanted, t: Type, i: nat, st: State, now: State)
    requires Sane(b) && ProperWanted(w) && t.body.Composite? && i <= |t.body.members|
  {
    && (forall j :: 0 <= j < i ==> !MemberHas(b, t, j, w.name, Fits(w, b)))
    && (now == st || exists j :: 0 <= j < i && MemberHas(b, t, j, w.name, Any()))
  }

  lemma PassedNone(b: Btf, w: Wanted, t: Type, st: State)
    requires Sane(b) && ProperWanted(w) && t.body.Composite?
    ensures Passed(b, w, t, 0, st, st)
  {
  }

  lemma MembersInside(b: Btf, id: Id)
    requires Sane(b) && id < |b.types| && b.types[id].body.Composite?
    ensures forall i :: 0 <= i < |b.types[id].body.members| ==> b.types[id].body.members[i].ty < |b.types|
  {
    forall i | 0 <= i < |b.types[id].body.members| ensures b.types[id].body.members[i].ty < |b.types| {
      assert Refs(b.types[id])[i] == b.types[id].body.members[i].ty;
    }
  }

  /** A member that bears the name and does not fit: no member fits. */
  lemma NoneFits(b: Btf, w: Wanted, id: Id, j: nat)
    requires Sane(b) && id < |b.types| && ProperWanted(w) && ProperNames(b) && b.types[Skip(b, id)].body.Composite?
    requires var t := b.types[Skip(b, id)];
      j < |t.body.members| && MemberHas(b, t, j, w.name, Any()) && !MemberHas(b, t, j, w.name, Fits(w, b))
    ensures Has(b, id, w.name, Any()) && !Has(b, id, w.name, Fits(w, b))
  {
    var t := b.types[Skip(b, id)];
    HasFromMember(b, id, j, w.name, Any());
    assert UniqueIn(b, t, w.name);
    if Has(b, id, w.name, Fits(w, b)) {
      var i := MemberFromHas(b, id, w.name, Fits(w, b));
      MemberOkIsAny(b, t, i, w.name, Fits(w, b));
    }
  }

  /** The members cannot be tried: the spec is full. */
  lemma SearchFull(b: Btf, w: Wanted, id: Id, i: nat, st: State, now: State)
    requires Sane(b) && id < |b.types| && ProperWanted(w) && ProperNames(b) && b.types[Skip(b, id)].body.Composite?
    requires i < |b.types[Skip(b, id)].body.members| && Passed(b, w, b.types[Skip(b, id)], i, st, now)
    requires |now.raw| == SPEC_MAX_LEN
    ensures Searched(b, w, st, now, id, Failed(E2Big))
  {
    if j :| 0 <= j < i && MemberHas(b, b.types[Skip(b, id)], j, w.name, Any()) {
      NoneFits(b, w, id, j);
    }
  }

  /** The search fails inside an anonymous member. */
  lemma SearchFailed(b: Btf, w: Wanted, id: Id, i: nat, st: State, st1: State, now: State, e: Errno)
    requires Sane(b) && id < |b.types| && ProperWanted(w) && ProperNames(b) && b.types[Skip(b, id)].body.Composite?
    requires var t := b.types[Skip(b, id)];
      i < |t.body.members| && t.body.members[i].ty < |b.types| && Passed(b, w, t, i, st, st1)
      && b.strs(t.body.members[i].name) == "" && |st1.raw| < SPEC_MAX_LEN
      && Searched(b, w, Push(st1, t, i), now, t.body.members[i].ty, Failed(e))
    ensures Searched(b, w, st, now, id, Failed(e))
  {
    hide ProperNames, Sane;
    var t := b.types[Skip(b, id)];
    MemberHasIs(b, t, i, w.name, Any());
    MemberHasIs(b, t, i, w.name, Fits(w, b));
    if j :| 0 <= j < i && MemberHas(b, t, j, w.name, Any()) {
      NoneFits(b, w, id, j);
    } else if Has(b, t.body.members[i].ty, w.name, Any()) && !Has(b, t.body.members[i].ty, w.name, Fits(w, b)) {
      NoneFits(b, w, id, i);
    } else {
      assert st1 == st && Deep(b, t.body.members[i].ty, SPEC_MAX_LEN - |st.raw| - 1);
      assert DeepIn(b, t, i, SPEC_MAX_LEN - |st.raw|);
    }
  }

  lemma NoMembers(b: Btf, id: Id, w: Wanted, st: State)
    requires Sane(b) && id < |b.types| && ProperWanted(w) && !b.types[Skip(b, id)].body.Composite?
    ensures Searched(b, w, st, st, id, NotFound)
  {
    if Has(b, id, w.name, Fits(w, b)) { var i := MemberFromHas(b, id, w.name, Fits(w, b)); }
    if Has(b, id, w.name, Any()) { var i := MemberFromHas(b, id, w.name, Any()); }
  }

  lemma PassedAll(b: Btf, w: Wanted, id: Id, st: State, now: State)
    requires Sane(b) && id < |b.types| && ProperWanted(w) && b.types[Skip(b, id)].body.Composite?
    requires Passed(b, w, b.types[Skip(b, id)], |b.types[Skip(b, id)].body.members|, st, now)
    ensures Searched(b, w, st, now, id, NotFound)
  {
    if Has(b, id, w.name, Fits(w, b)) { var i := MemberFromHas(b, id, w.name, Fits(w, b)); }
    if j :| 0 <= j < |b.types[Skip(b, id)].body.members| && MemberHas(b, b.types[Skip(b, id)], j, w.name, Any()) {
      HasFromMember(b, id, j, w.name, Any());
    }
  }

  lemma PassNamed(b: Btf, w: Wanted, id: Id, i: nat, st: State, st1: State)
    requires Sane(b) && id < |b.types| && ProperWanted(w) && b.types[Skip(b, id)].body.Composite?
    requires var t := b.types[Skip(b, id)];
      i < |t.body.members| && t.body.members[i].ty < |b.types|
      && Passed(b, w, t, i, st, st1) && st1.bitOffset < U32
      && b.strs(t.body.members[i].name) != "" && b.strs(t.body.members[i].name) != w.name
    ensures var t := b.types[Skip(b, id)]; Passed(b, w, t, i + 1, st, Pop(Push(st1, t, i), t, i))
  {
    var t := b.types[Skip(b, id)];
    PushPop(st1, t, i);
    MemberHasIs(b, t, i, w.name, Fits(w, b));
  }

  lemma PassAnonymous(b: Btf, w: Wanted, id: Id, i: nat, st: State, st1: State, now: State)
    requires Sane(b) && id < |b.types| && ProperWanted(w) && b.types[Skip(b, id)].body.Composite?
    requires var t := b.types[Skip(b, id)];
      i < |t.body.members| && t.body.members[i].ty < |b.types|
      && Passed(b, w, t, i, st, st1) && st1.bitOffset < U32 && now.raw != []
      && b.strs(t.body.members[i].name) == ""
      && Searched(b, w, Push(st1, t, i), now, t.body.members[i].ty, NotFound)
    ensures var t := b.types[Skip(b, id)]; Passed(b, w, t, i + 1, st, Pop(now, t, i))
  {
    var t := b.types[Skip(b, id)];
    PushPop(st1, t, i);
    MemberHasIs(b, t, i, w.name, Fits(w, b));
    MemberHasIs(b, t, i, w.name, Any());
  }

  lemma MissedHere(b: Btf, w: Wanted, id: Id, i: nat, st: State, st1: State, now: State)
    requires Sane(b) && id < |b.types| && ProperWanted(w) && ProperNames(b) && b.types[Skip(b, id)].body.Composite?
    requires var t := b.types[Skip(b, id)];
      i < |t.body.members| && t.body.members[i].ty < |b.types| && Passed(b, w, t, i, st, st1)
      && b.strs(t.body.members[i].name) == w.name && !Compatible(w.l, w.ty, b, t.body.members[i].ty)
    ensures Searched(b, w, st, now, id, NotFound)
  {
    var t := b.types[Skip(b, id)];
    MemberHasIs(b, t, i, w.name, Any());
    HasFromMember(b, id, i, w.name, Any());
    assert UniqueIn(b, t, w.name);
    if Has(b, id, w.name, Fits(w, b)) {
      var j := MemberFromHas(b, id, w.name, Fits(w, b));
      MemberHasIs(b, t, i, w.name, Fits(w, b));
      MemberOkIsAny(b, t, j, w.name, Fits(w, b));
    }
  }

  lemma MemberOkIsAny(b: Btf, t: Type, j: nat, name: string, ok: Id -> bool)
    requires Sane(b) && t.body.Composite? && j < |t.body.members| && MemberHas(b, t, j, name, ok)
    ensures MemberHas(b, t, j, name, Any())
  {
    var n: nat :| MemberIs(b, t, j, name, ok, n);
    if b.strs(t.body.members[j].name) == "" { OkIsAny(b, t.body.members[j].ty, name, ok, n - 1); }
    assert MemberIs(b, t, j, name, Any(), n);
  }

  /** Two members cannot both have the name: a hit leaves the state clean. */
  lemma HitIsClean(b: Btf, w: Wanted, id: Id, i: nat, st: State, st1: State)
    requires Sane(b) && id < |b.types| && ProperWanted(w) && ProperNames(b) && b.types[Skip(b, id)].body.Composite?
    requires var t := b.types[Skip(b, id)];
      i < |t.body.members| && Passed(b, w, t, i, st, st1) && MemberHas(b, t, i, w.name, Any())
    ensures st1 == st
  {
    assert UniqueIn(b, b.types[Skip(b, id)], w.name);
  }

  lemma FoundHere(b: Btf, w: Wanted, id: Id, i: nat, st: State, st1: State)
    requires Sane(b) && id < |b.types| && ProperWanted(w) && ProperNames(b) && b.types[Skip(b, id)].body.Composite?
    requires var t := b.types[Skip(b, id)];
      i < |t.body.members| && t.body.members[i].ty < |b.types| && Passed(b, w, t, i, st, st1) && st.accs != []
      && b.strs(t.body.members[i].name) == w.name && Compatible(w.l, w.ty, b, t.body.members[i].ty)
    ensures var t := b.types[Skip(b, id)];
      var now := Push(st1, t, i).(accs := st1.accs + [Accessor(Skip(b, id), i, Some(w.name))]);
      Searched(b, w, st, now, id, Found(t.body.members[i].ty))
  {
    hide Compatible, SizeOf, IsFlexArr;
    var t := b.types[Skip(b, id)];
    MemberHasIs(b, t, i, w.name, Any());
    MemberHasIs(b, t, i, w.name, Fits(w, b));
    HasFromMember(b, id, i, w.name, Any());
    HasFromMember(b, id, i, w.name, Fits(w, b));
    HitIsClean(b, w, id, i, st, st1);
    var now := Push(st1, t, i).(accs := st1.accs + [Accessor(Skip(b, id), i, Some(w.name))]);
    assert now.raw[|st.raw|..] == [i] && [i][..0] == [];
    StepsOne(b, Walk(id, st.accs, st.bitOffset), i);
  }

  lemma FoundInside(b: Btf, w: Wanted, id: Id, i: nat, st: State, st1: State, now: State, m: Match)
    requires Sane(b) && id < |b.types| && ProperWanted(w) && ProperNames(b) && b.types[Skip(b, id)].body.Composite?
    requires var t := b.types[Skip(b, id)];
      i < |t.body.members| && t.body.members[i].ty < |b.types| && Passed(b, w, t, i, st, st1) && st.accs != []
      && b.strs(t.body.members[i].name) == "" && m.Found?
      && Searched(b, w, Push(st1, t, i), now, t.body.members[i].ty, m)
    ensures Searched(b, w, st, now, id, m)
  {
    var t := b.types[Skip(b, id)];
    MemberHasIs(b, t, i, w.name, Any());
    MemberHasIs(b, t, i, w.name, Fits(w, b));
    HasFromMember(b, id, i, w.name, Any());
    HasFromMember(b, id, i, w.name, Fits(w, b));
    HitIsClean(b, w, id, i, st, st1);
    ReachesInside(b, w.name, id, i, st, now, m.next);
  }

  /** A walk from an anonymous member is a walk from its struct. */
  lemma ReachesInside(b: Btf, name: string, id: Id, i: nat, st: State, now: State, next: Id)
    requires Sane(b) && ProperNames(b) && id < |b.types| && b.types[Skip(b, id)].body.Composite? && st.accs != []
    requires var t := b.types[Skip(b, id)];
      i < |t.body.members| && t.body.members[i].ty < |b.types| && b.strs(t.body.members[i].name) == ""
      && Reaches(b, Push(st, t, i), now, t.body.members[i].ty, name, next)
    ensures Reaches(b, st, now, id, name, next)
  {
    hide Names, Skip;
    var t := b.types[Skip(b, id)];
    var st2 := Push(st, t, i);
    var w0, path := Walk(id, st.accs, st.bitOffset), now.raw[|st2.raw|..];
    StepsOne(b, w0, i);
    assert Step(b, w0, i) == Ok(Walk(t.body.members[i].ty, st2.accs, st2.bitOffset));
    assert now.raw == st2.raw + path;
    assert now.raw[|st.raw|..] == [i] + path;
    StepsThen(b, w0, [i], path);
    var init := path[..|path| - 1];
    assert ([i] + path)[..|path|] == [i] + init;
    StepsThen(b, w0, [i], init);
  }

  // ----- local specs, and when a target spec corresponds to one -----

  /** A named accessor of a type's spec names one of its members. */
  ghost predicate NamesMember(l: Btf, acc: Accessor) {
    && acc.name.Some? && acc.name.value != ""
    && exists ty: Id :: ty < |l.types| && Names(l, acc, acc.name.value, ty)
  }

  /** What bpf_core_spec_parse leaves for the local type. */
  ghost predicate LocalSpec(l: Btf, accs: seq<Accessor>) {
    && Sane(l) && accs != [] && accs[0].name.None?
    && forall i :: 0 <= i < |accs| && accs[i].name.Some? ==> NamesMember(l, accs[i])
  }

  function WantedOf(l: Btf, acc: Accessor): (w: Wanted)
    requires Sane(l) && NamesMember(l, acc)
    ensures ProperWanted(w) && acc.name == Some(w.name) && Names(l, acc, w.name, w.ty)
  {
    Wanted(l, l.types[acc.typeId].body.members[acc.idx].ty, l.strs(l.types[acc.typeId].body.members[acc.idx].name))
  }

  /** Same index for an array accessor; same name and compatible member types
      for a field accessor. */
  ghost predicate AccMatches(l: Btf, la: Accessor, b: Btf, ta: Accessor)
    requires Sane(l) && Sane(b)
  {
    if la.name.None? then ta.name.None? && ta.idx == la.idx
    else exists lty: Id, ty: Id :: CompatibleAs(l, la, lty, b, ta, ty)
  }

  ghost predicate CompatibleAs(l: Btf, la: Accessor, lty: Id, b: Btf, ta: Accessor, ty: Id)
    requires Sane(l) && Sane(b)
  {
    && la.name.Some? && Names(l, la, la.name.value, lty) && Names(b, ta, la.name.value, ty)
    && lty < |l.types| && ty < |b.types| && Compatible(l, lty, b, ty)
  }

  ghost predicate AccsMatch(l: Btf, las: seq<Accessor>, b: Btf, tas: seq<Accessor>)
    requires Sane(l) && Sane(b)
  {
    |las| == |tas| && forall i :: 0 <= i < |las| ==> AccMatches(l, las[i], b, tas[i])
  }

  lemma FoundMatches(l: Btf, la: Accessor, b: Btf, st: State, now: State, id: Id, next: Id)
    requires Sane(l) && NamesMember(l, la) && Sane(b) && id < |b.types|
    requires Searched(b, WantedOf(l, la), st, now, id, Found(next))
    ensures |now.accs| == |st.accs| + 1 && st.accs <= now.accs && AccMatches(l, la, b, now.accs[|st.accs|])
  {
    var w := WantedOf(l, la);
    assert CompatibleAs(l, la, w.ty, b, now.accs[|st.accs|], next);
  }

  lemma {:induction false} StepsLocal(l: Btf, w: Walk, raw: seq<nat>)
    requires Sane(l) && w.id < |l.types| && w.accs != [] && LocalSpec(l, w.accs) && Steps(l, w, raw).Ok?
    ensures LocalSpec(l, Steps(l, w, raw).value.accs)
    decreases |raw|
  {
    if raw != [] {
      StepsLocal(l, w, raw[..|raw| - 1]);
      var w1, i := Steps(l, w, raw[..|raw| - 1]).value, raw[|raw| - 1];
      var t := l.types[Skip(l, w1.id)];
      if t.body.Composite? {
        assert Refs(t)[i] == t.body.members[i].ty;
        if t.body.members[i].name != 0 {
          var acc := Accessor(Skip(l, w1.id), i, Some(l.strs(t.body.members[i].name)));
          assert Names(l, acc, acc.name.value, t.body.members[i].ty);
        }
      }
    }
  }

  /** Every access string that denotes something is a local spec. */
  lemma DenotesLocal(l: Btf, typeId: Id, raw: seq<nat>)
    requires Sane(l) && Denotes(l, typeId, raw).Ok?
    ensures LocalSpec(l, Denotes(l, typeId, raw).value.accs)
  {
    StepsLocal(l, Start(l, typeId, raw[0]).value, raw[1..]);
  }

  // ----- one accessor further on the target -----

  lemma DenotesThen(b: Btf, typeId: Id, raw: seq<nat>, path: seq<nat>, w: Walk)
    requires Sane(b) && raw != [] && |raw + path| <= SPEC_MAX_LEN && Denotes(b, typeId, raw) == Ok(w)
    ensures Denotes(b, typeId, raw + path) == Steps(b, w, path)
  {
    hide Start, Step;
    assert (raw + path)[1..] == raw[1..] + path && (raw + path)[0] == raw[0];
    StepsThen(b, Start(b, typeId, raw[0]).value, raw[1..], path);
  }

  lemma WalkOn(b: Btf, typeId: Id, w: Wanted, st: State, now: State, cur: Id, next: Id)
    requires Sane(b) && cur < |b.types| && ProperWanted(w) && st.raw != [] && |now.raw| <= SPEC_MAX_LEN
    requires Denotes(b, typeId, st.raw) == Ok(Walk(cur, st.accs, st.bitOffset))
    requires Searched(b, w, st, now, Skip(b, cur), Found(next))
    ensures Denotes(b, typeId, now.raw) == Ok(Walk(next, now.accs, now.bitOffset))
  {
    hide Sane, Steps, Step, Skip, Start, Denotes, Has, Names, Compatible, Straight;
    var path := now.raw[|st.raw|..];
    assert now.raw == st.raw + path;
    DenotesThen(b, typeId, st.raw, path, Walk(cur, st.accs, st.bitOffset));
    StepsSkip(b, Walk(cur, st.accs, st.bitOffset), path);
  }

  lemma StartHere(b: Btf, typeId: Id, idx: nat, sz: nat)
    requires Sane(b) && typeId < |b.types| && SizeOf(b, Skip(b, Skip(b, typeId))) == Ok(sz)
    ensures Denotes(b, typeId, [idx]) == Ok(Walk(Skip(b, Skip(b, typeId)),
      [Accessor(Skip(b, Skip(b, typeId)), idx, None)], idx * sz * 8 % U32))
  {
    SkipIdempotent(b, typeId);
    assert [idx][1..] == [];
  }

  /** The array the current use stands for, and its element type. */
  ghost predicate ElementOf(b: Btf, cur: Id, st: State, idx: nat, el: Id)
    requires Sane(b) && cur < |b.types|
  {
    var t := b.types[Skip(b, cur)];
    && t.body.Array? && t.body.elem < |b.types| && el == Skip(b, t.body.elem) && st.accs != []
    && (IsFlexArr(b, st.accs[|st.accs| - 1], t.body.nelems) || idx < t.body.nelems)
  }

  lemma IndexOn(b: Btf, typeId: Id, st: State, cur: Id, idx: nat, el: Id, sz: nat)
    requires Sane(b) && cur < |b.types| && st.raw != [] && |st.raw| < SPEC_MAX_LEN
    requires Denotes(b, typeId, st.raw) == Ok(Walk(cur, st.accs, st.bitOffset))
    requires ElementOf(b, cur, st, idx, el) && SizeOf(b, el) == Ok(sz)
    ensures Denotes(b, typeId, st.raw + [idx])
      == Ok(Walk(el, st.accs + [Accessor(el, idx, None)], (st.bitOffset + idx * sz * 8) % U32))
  {
    hide Denotes, SizeOf, IsFlexArr;
    DenotesThen(b, typeId, st.raw, [idx], Walk(cur, st.accs, st.bitOffset));
    StepsOne(b, Walk(cur, st.accs, st.bitOffset), idx);
  }

  lemma FoundInRange(b: Btf, w: Wanted, st: State, now: State, id: Id, next: Id)
    requires Sane(b) && id < |b.types| && ProperWanted(w) && Searched(b, w, st, now, id, Found(next))
    ensures next < |b.types| && |now.raw| > 0
  {
  }

  lemma FailedFull(b: Btf, w: Wanted, st: State, now: State, id: Id, e: Errno)
    requires Sane(b) && id < |b.types| && ProperWanted(w) && Searched(b, w, st, now, id, Failed(e))
    ensures e == E2Big && |now.raw| == SPEC_MAX_LEN
  {
  }

  lemma ElementHere(b: Btf, cur: Id, st: State, idx: nat)
    requires Sane(b) && cur < |b.types| && b.types[Skip(b, cur)].body.Array? && st.accs != []
    requires IsFlexArr(b, st.accs[|st.accs| - 1], b.types[Skip(b, cur)].body.nelems) ||
      idx < b.types[Skip(b, cur)].body.nelems
    ensures b.types[Skip(b, cur)].body.elem < |b.types|
    ensures ElementOf(b, cur, st, idx, Skip(b, b.types[Skip(b, cur)].body.elem))
  {
  }

  lemma IndexMatches(l: Btf, la: Accessor, b: Btf, ta: Accessor)
    requires Sane(l) && Sane(b) && la.name.None? && ta.name.None? && ta.idx == la.idx
    ensures AccMatches(l, la, b, ta)
  {
  }
}
