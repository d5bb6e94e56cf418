/** Why a member search cannot miss: names being unique, the accessors of a spec
    leave only one path through the anonymous members. */
module CoreUnique {
  import opened Basics
  import opened BtfTypes
  import opened BtfMeaning
  import opened CoreSpec
  import opened CoreSearch

  /** Anonymous members are structs or unions, never arrays of them. */
  ghost predicate NoAnonymousArrays(b: Btf)
    requires Sane(b)
  {
    forall i, k :: 0 <= i < |b.types| && b.types[i].body.Composite? && 0 <= k < |b.types[i].body.members| ==>
      NoAnonymousArray(b, b.types[i].body.members[k])
  }

  predicate NoAnonymousArray(b: Btf, m: Member)
    requires Sane(b)
  {
    m.name == 0 && m.ty < |b.types| ==> !b.types[Skip(b, m.ty)].body.Array?
  }

  // ----- walks, first step first -----

  lemma {:induction false} StepsPrefix(b: Btf, w: Walk, path: seq<nat>, k: nat)
    requires Sane(b) && w.id < |b.types| && w.accs != [] && k <= |path| && Steps(b, w, path).Ok?
    ensures Steps(b, w, path[..k]).Ok?
    decreases |path|
  {
    if k < |path| {
      StepsPrefix(b, w, path[..|path| - 1], k);
      assert path[..|path| - 1][..k] == path[..k];
    } else {
      assert path[..k] == path;
    }
  }

  lemma StepsFirst(b: Btf, w: Walk, path: seq<nat>)
    requires Sane(b) && w.id < |b.types| && w.accs != [] && path != [] && Steps(b, w, path).Ok?
    ensures Step(b, w, path[0]).Ok?
    ensures Steps(b, w, path) == Steps(b, Step(b, w, path[0]).value, path[1..])
    ensures Step(b, w, path[0]).value.accs <= Steps(b, w, path).value.accs
  {
    StepsPrefix(b, w, path, 1);
    assert path[..1] == [path[0]];
    StepsOne(b, w, path[0]);
    StepsThen(b, w, [path[0]], path[1..]);
    assert [path[0]] + path[1..] == path;
  }

  /** The first step from an array is its index. */
  lemma FirstIndex(b: Btf, w: Walk, path: seq<nat>)
    requires Sane(b) && w.id < |b.types| && w.accs != [] && b.types[Skip(b, w.id)].body.Array?
    requires path != [] && Steps(b, w, path).Ok?
    ensures |w.accs| < |Steps(b, w, path).value.accs|
    ensures Steps(b, w, path).value.accs[|w.accs|].name == None && Steps(b, w, path).value.accs[|w.accs|].idx == path[0]
    ensures IsFlexArr(b, w.accs[|w.accs| - 1], b.types[Skip(b, w.id)].body.nelems) ||
      path[0] < b.types[Skip(b, w.id)].body.nelems
  {
    StepsFirst(b, w, path);
    var w1 := Step(b, w, path[0]).value;
    assert w1.accs[|w.accs|] == Steps(b, w, path).value.accs[|w.accs|];
  }

  /** The walk passes an accessor, and the first one it passes bears this name. */
  ghost predicate PassesFirst(b: Btf, w: Walk, path: seq<nat>, name: string)
    requires Sane(b) && w.id < |b.types| && w.accs != []
  {
    && Steps(b, w, path).Ok? && |w.accs| < |Steps(b, w, path).value.accs|
    && Steps(b, w, path).value.accs[|w.accs|].name == Some(name)
  }

  /** Such a walk goes through a member that bears or has the name. */
  lemma {:induction false} PathHas(b: Btf, w: Walk, path: seq<nat>, name: string, ok: Id -> bool)
    requires Sane(b) && ProperNames(b) && w.id < |b.types| && w.accs != [] && PassesFirst(b, w, path, name)
    requires forall ty :: Names(b, Steps(b, w, path).value.accs[|w.accs|], name, ty) ==> ok(ty)
    ensures Has(b, w.id, name, ok)
    ensures var t := b.types[Skip(b, w.id)];
      path != [] && t.body.Composite? && path[0] < |t.body.members| && MemberHas(b, t, path[0], name, ok)
    decreases |path|
  {
    assert path != [];
    StepsFirst(b, w, path);
    var i, t, w1 := path[0], b.types[Skip(b, w.id)], Step(b, w, path[0]).value;
    var acc := Steps(b, w, path).value.accs[|w.accs|];
    if t.body.Array? {
      FirstIndex(b, w, path);
      assert false;
    }
    assert Refs(t)[i] == t.body.members[i].ty;
    MemberHasIs(b, t, i, name, ok);
    if t.body.members[i].name == 0 {
      PathHas(b, w1, path[1..], name, ok);
    } else {
      assert w1.accs[|w.accs|] == acc;
      assert Names(b, acc, name, t.body.members[i].ty);
    }
    HasFromMember(b, w.id, i, name, ok);
  }

  lemma SameMember(b: Btf, w: Walk, path: seq<nat>, other: seq<nat>, name: string)
    requires Sane(b) && ProperNames(b) && w.id < |b.types| && w.accs != [] && name != ""
    requires PassesFirst(b, w, path, name) && PassesFirst(b, w, other, name)
    ensures path != [] && other != [] && path[0] == other[0]
    ensures b.types[Skip(b, w.id)].body.Composite? && path[0] < |b.types[Skip(b, w.id)].body.members|
  {
    hide PassesFirst, Steps;
    PathHas(b, w, path, name, Any());
    PathHas(b, w, other, name, Any());
    assert UniqueIn(b, b.types[Skip(b, w.id)], name);
  }

  /** Behind an anonymous member the rest of the walk is as the whole. */
  lemma RestPasses(b: Btf, w: Walk, path: seq<nat>, name: string)
    requires Sane(b) && w.id < |b.types| && w.accs != [] && path != [] && PassesFirst(b, w, path, name)
    requires Step(b, w, path[0]).Ok? && Step(b, w, path[0]).value.accs == w.accs
    ensures PassesFirst(b, Step(b, w, path[0]).value, path[1..], name)
  {
    hide Step;
    StepsFirst(b, w, path);
  }

  lemma RestStraight(b: Btf, w: Walk, path: seq<nat>)
    requires Sane(b) && w.id < |b.types| && w.accs != [] && |path| > 1 && Straight(b, w, path)
    ensures Step(b, w, path[0]).Ok? && Step(b, w, path[0]).value.accs == w.accs
    ensures Straight(b, Step(b, w, path[0]).value, path[1..])
  {
    hide Step;
    var init := path[..|path| - 1];
    StepsFirst(b, w, init);
    assert init[1..] == path[1..][..|path| - 2];
  }

  /** A walk that stops where the first accessor of that name is passed is the
      beginning of every walk that passes one. */
  lemma {:induction false} SamePath(b: Btf, w: Walk, path: seq<nat>, other: seq<nat>, name: string)
    requires Sane(b) && ProperNames(b) && w.id < |b.types| && w.accs != [] && name != ""
    requires Straight(b, w, path) && PassesFirst(b, w, path, name) && PassesFirst(b, w, other, name)
    ensures path <= other
    decreases |path|
  {
    SameMember(b, w, path, other, name);
    hide Sane, ProperNames, Skip, Step, Steps, PassesFirst, Straight;
    if |path| > 1 {
      RestStraight(b, w, path);
      RestPasses(b, w, path, name);
      RestPasses(b, w, other, name);
      SamePath(b, Step(b, w, path[0]).value, path[1..], other[1..], name);
    }
  }

  /** From anything but an array the first accessor passed is a named one. */
  lemma {:induction false} FirstNamed(b: Btf, w: Walk, path: seq<nat>)
    requires Sane(b) && NoAnonymousArrays(b) && w.id < |b.types| && w.accs != []
    requires !b.types[Skip(b, w.id)].body.Array?
    requires Steps(b, w, path).Ok? && |w.accs| < |Steps(b, w, path).value.accs|
    ensures Steps(b, w, path).value.accs[|w.accs|].name.Some?
    decreases |path|
  {
    StepsFirst(b, w, path);
    var i, t, w1 := path[0], b.types[Skip(b, w.id)], Step(b, w, path[0]).value;
    assert Refs(t)[i] == t.body.members[i].ty;
    if t.body.members[i].name == 0 {
      assert NoAnonymousArray(b, t.body.members[i]);
      FirstNamed(b, w1, path[1..]);
    } else {
      assert w1.accs[|w.accs|] == Steps(b, w, path).value.accs[|w.accs|];
    }
  }

  // ----- target specs that correspond to a local one -----

  /** `raw` denotes a spec of the target type that corresponds to `las`. */
  ghost predicate Corresponds(l: Btf, las: seq<Accessor>, b: Btf, targId: Id, raw: seq<nat>, w: Walk)
    requires Sane(l) && Sane(b)
  {
    Denotes(b, targId, raw) == Ok(w) && AccsMatch(l, las, b, w.accs)
  }

  /** Its first `i` accessors do. */
  ghost predicate AgreesUpTo(l: Btf, las: seq<Accessor>, b: Btf, targId: Id, raw: seq<nat>, i: nat)
    requires Sane(l) && Sane(b)
  {
    && i <= |las| && Denotes(b, targId, raw).Ok? && i <= |Denotes(b, targId, raw).value.accs|
    && forall k :: 0 <= k < i ==> AccMatches(l, las[k], b, Denotes(b, targId, raw).value.accs[k])
  }

  /** Whatever agrees with the first `i` begins with `raw`. */
  ghost predicate Only(l: Btf, las: seq<Accessor>, b: Btf, targId: Id, i: nat, raw: seq<nat>)
    requires Sane(l) && Sane(b)
  {
    forall other: seq<nat> :: AgreesUpTo(l, las, b, targId, other, i) ==> raw <= other
  }

  ghost predicate NoneAgrees(l: Btf, las: seq<Accessor>, b: Btf, targId: Id, i: nat)
    requires Sane(l) && Sane(b)
  {
    forall other: seq<nat> :: !AgreesUpTo(l, las, b, targId, other, i)
  }

  /** Where the search stands before accessor `i`. */
  ghost predicate Standing(l: Btf, las: seq<Accessor>, b: Btf, targId: Id, i: nat, cur: Id, st: State)
    requires Sane(l) && Sane(b)
  {
    && i < |las| && cur < |b.types| && st.raw != [] && st.accs != [] && |st.accs| == i
    && Denotes(b, targId, st.raw) == Ok(Walk(cur, st.accs, st.bitOffset))
    && Only(l, las, b, targId, i, st.raw)
  }

  /** A spec that agrees one accessor further goes on from there. */
  lemma GoesOn(l: Btf, las: seq<Accessor>, b: Btf, targId: Id, i: nat, cur: Id, st: State, other: seq<nat>)
    requires Sane(l) && Sane(b) && Standing(l, las, b, targId, i, cur, st)
    requires AgreesUpTo(l, las, b, targId, other, i + 1)
    ensures st.raw <= other && other[|st.raw|..] != []
    ensures Steps(b, Walk(cur, st.accs, st.bitOffset), other[|st.raw|..]) == Denotes(b, targId, other)
    ensures Steps(b, Walk(Skip(b, cur), st.accs, st.bitOffset), other[|st.raw|..]) == Denotes(b, targId, other)
    ensures Denotes(b, targId, other).Ok? && |Denotes(b, targId, other).value.accs| > i
    ensures AccMatches(l, las[i], b, Denotes(b, targId, other).value.accs[i])
  {
    hide AccMatches, Sane, Skip;
    assert AgreesUpTo(l, las, b, targId, other, i);
    var path := other[|st.raw|..];
    assert st.raw + path == other;
    DenotesThen(b, targId, st.raw, path, Walk(cur, st.accs, st.bitOffset));
    assert path != [];
    StepsSkip(b, Walk(cur, st.accs, st.bitOffset), path);
  }

  lemma FitsWanted(l: Btf, la: Accessor, b: Btf, ta: Accessor)
    requires Sane(l) && Sane(b) && NamesMember(l, la) && AccMatches(l, la, b, ta)
    ensures var w := WantedOf(l, la);
      ta.name == Some(w.name) && forall ty :: Names(b, ta, w.name, ty) ==> Fits(w, b)(ty)
  {
  }

  lemma OnlyStart(l: Btf, las: seq<Accessor>, b: Btf, targId: Id)
    requires Sane(l) && Sane(b) && las != [] && las[0].name.None?
    ensures Only(l, las, b, targId, 1, [las[0].idx])
  {
    forall other: seq<nat> | AgreesUpTo(l, las, b, targId, other, 1) ensures [las[0].idx] <= other {
      assert Denotes(b, targId, other).value.accs[0] == Start(b, targId, other[0]).value.accs[0];
      assert AccMatches(l, las[0], b, Denotes(b, targId, other).value.accs[0]);
    }
  }

  /** What agrees one accessor further passes the member next. */
  lemma PassesMember(l: Btf, las: seq<Accessor>, b: Btf, targId: Id, i: nat, cur: Id, st: State, other: seq<nat>)
    requires Sane(l) && Sane(b) && Standing(l, las, b, targId, i, cur, st) && NamesMember(l, las[i])
    requires AgreesUpTo(l, las, b, targId, other, i + 1)
    ensures st.raw <= other && st.accs != [] && i < |las|
    ensures PassesFirst(b, Walk(Skip(b, cur), st.accs, st.bitOffset), other[|st.raw|..], WantedOf(l, las[i]).name)
  {
    hide Sane, AgreesUpTo, NamesMember, AccMatches, Steps, Names, Fits, Denotes;
    GoesOn(l, las, b, targId, i, cur, st, other);
    FitsWanted(l, las[i], b, Denotes(b, targId, other).value.accs[i]);
  }

  lemma BeginsWithMember(l: Btf, las: seq<Accessor>, b: Btf, targId: Id, i: nat, cur: Id, st: State, now: State,
                         next: Id, other: seq<nat>)
    requires Sane(l) && Sane(b) && ProperNames(b) && Standing(l, las, b, targId, i, cur, st) && NamesMember(l, las[i])
    requires Searched(b, WantedOf(l, las[i]), st, now, Skip(b, cur), Found(next))
    requires AgreesUpTo(l, las, b, targId, other, i + 1)
    ensures now.raw <= other
  {
    hide Sane, ProperNames, NamesMember, Searched, AgreesUpTo, AccMatches, PassesFirst, Straight, Skip, Denotes, Only;
    var w := WantedOf(l, las[i]);
    PassesMember(l, las, b, targId, i, cur, st, other);
    FoundPath(b, w, st, now, Skip(b, cur), next);
    var at := Walk(Skip(b, cur), st.accs, st.bitOffset);
    SamePath(b, at, now.raw[|st.raw|..], other[|st.raw|..], w.name);
    assert now.raw == st.raw + now.raw[|st.raw|..] && other == st.raw + other[|st.raw|..];
  }

  lemma FoundPath(b: Btf, w: Wanted, st: State, now: State, id: Id, next: Id)
    requires Sane(b) && id < |b.types| && ProperWanted(w) && Searched(b, w, st, now, id, Found(next))
    ensures st.accs != [] && st.raw <= now.raw
    ensures Straight(b, Walk(id, st.accs, st.bitOffset), now.raw[|st.raw|..])
    ensures PassesFirst(b, Walk(id, st.accs, st.bitOffset), now.raw[|st.raw|..], w.name)
  {
    hide Has, Compatible, Straight, Steps, Sane;
  }

  lemma OnlyMember(l: Btf, las: seq<Accessor>, b: Btf, targId: Id, i: nat, cur: Id, st: State, now: State, next: Id)
    requires Sane(l) && Sane(b) && ProperNames(b) && Standing(l, las, b, targId, i, cur, st) && NamesMember(l, las[i])
    requires Searched(b, WantedOf(l, las[i]), st, now, Skip(b, cur), Found(next))
    ensures Only(l, las, b, targId, i + 1, now.raw)
  {
    hide Standing, NamesMember, AccMatches, ProperNames, Sane, Searched, AgreesUpTo;
    var n := i + 1;
    forall other: seq<nat> | AgreesUpTo(l, las, b, targId, other, n) ensures now.raw <= other {
      BeginsWithMember(l, las, b, targId, i, cur, st, now, next, other);
    }
  }

  lemma NoMember(l: Btf, las: seq<Accessor>, b: Btf, targId: Id, i: nat, cur: Id, st: State, now: State)
    requires Sane(l) && Sane(b) && ProperNames(b) && Standing(l, las, b, targId, i, cur, st) && NamesMember(l, las[i])
    requires Searched(b, WantedOf(l, las[i]), st, now, Skip(b, cur), NotFound)
    ensures NoneAgrees(l, las, b, targId, i + 1)
  {
    var n := i + 1;
    var w := WantedOf(l, las[i]);
    var at := Walk(Skip(b, cur), st.accs, st.bitOffset);
    forall other: seq<nat> ensures !AgreesUpTo(l, las, b, targId, other, n) {
      if AgreesUpTo(l, las, b, targId, other, n) {
        GoesOn(l, las, b, targId, i, cur, st, other);
        FitsWanted(l, las[i], b, Denotes(b, targId, other).value.accs[i]);
        PathHas(b, at, other[|st.raw|..], w.name, Fits(w, b));
        assert false;
      }
    }
  }

  lemma BeginsWithIndex(l: Btf, las: seq<Accessor>, b: Btf, targId: Id, i: nat, cur: Id, st: State, other: seq<nat>)
    requires Sane(l) && Sane(b) && Standing(l, las, b, targId, i, cur, st) && las[i].name.None?
    requires b.types[Skip(b, cur)].body.Array? && AgreesUpTo(l, las, b, targId, other, i + 1)
    ensures st.raw + [las[i].idx] <= other
  {
    hide Sane, Steps, AgreesUpTo, Denotes, Skip, Only, SizeOf;
    GoesOn(l, las, b, targId, i, cur, st, other);
    FirstIndex(b, Walk(cur, st.accs, st.bitOffset), other[|st.raw|..]);
    assert other == st.raw + other[|st.raw|..];
  }

  lemma OnlyIndex(l: Btf, las: seq<Accessor>, b: Btf, targId: Id, i: nat, cur: Id, st: State)
    requires Sane(l) && Sane(b) && Standing(l, las, b, targId, i, cur, st) && las[i].name.None?
    requires b.types[Skip(b, cur)].body.Array?
    ensures Only(l, las, b, targId, i + 1, st.raw + [las[i].idx])
  {
    hide Sane, AgreesUpTo, Skip, Denotes;
    var n := i + 1;
    forall other: seq<nat> | AgreesUpTo(l, las, b, targId, other, n) ensures st.raw + [las[i].idx] <= other {
      BeginsWithIndex(l, las, b, targId, i, cur, st, other);
    }
  }

  /** There is no array, or the index is beyond it. */
  lemma NoIndex(l: Btf, las: seq<Accessor>, b: Btf, targId: Id, i: nat, cur: Id, st: State)
    requires Sane(l) && Sane(b) && NoAnonymousArrays(b) && Standing(l, las, b, targId, i, cur, st) && las[i].name.None?
    requires var t := b.types[Skip(b, cur)];
      t.body.Array? ==> !IsFlexArr(b, st.accs[i - 1], t.body.nelems) && las[i].idx >= t.body.nelems
    ensures NoneAgrees(l, las, b, targId, i + 1)
  {
    var n := i + 1;
    var at := Walk(cur, st.accs, st.bitOffset);
    forall other: seq<nat> ensures !AgreesUpTo(l, las, b, targId, other, n) {
      if AgreesUpTo(l, las, b, targId, other, n) {
        GoesOn(l, las, b, targId, i, cur, st, other);
        if b.types[Skip(b, cur)].body.Array? {
          FirstIndex(b, at, other[|st.raw|..]);
        } else {
          FirstNamed(b, at, other[|st.raw|..]);
        }
        assert false;
      }
    }
  }

  /** Nothing corresponds. */
  lemma NoneCorresponds(l: Btf, las: seq<Accessor>, b: Btf, targId: Id, i: nat)
    requires Sane(l) && Sane(b) && i <= |las| && NoneAgrees(l, las, b, targId, i)
    ensures forall raw: seq<nat>, w :: !Corresponds(l, las, b, targId, raw, w)
  {
    forall raw: seq<nat>, w ensures !Corresponds(l, las, b, targId, raw, w) {
      assert !AgreesUpTo(l, las, b, targId, raw, i);
    }
  }

  /** Whatever corresponds is what was found, but for anonymous members entered
      behind the last accessor. */
  lemma OneCorresponds(l: Btf, las: seq<Accessor>, b: Btf, targId: Id, raw: seq<nat>, w: Walk)
    requires Sane(l) && Sane(b) && raw != [] && Only(l, las, b, targId, |las|, raw)
    requires Denotes(b, targId, raw) == Ok(w) && |w.accs| == |las| && w.accs != []
    ensures forall other: seq<nat>, w' :: Corresponds(l, las, b, targId, other, w') ==>
      raw <= other && w'.accs == w.accs
  {
    forall other: seq<nat>, w' | Corresponds(l, las, b, targId, other, w') ensures raw <= other && w'.accs == w.accs {
      assert AgreesUpTo(l, las, b, targId, other, |las|);
      var path := other[|raw|..];
      assert raw + path == other;
      DenotesThen(b, targId, raw, path, w);
    }
  }

  // ----- the loop over the accessors -----

  /** After the first `i` accessors. */
  ghost predicate Midway(l: Btf, las: seq<Accessor>, b: Btf, targId: Id, i: nat, cur: Id, st: State)
    requires Sane(l) && Sane(b)
  {
    && i <= |las| && cur < |b.types| && |st.accs| == i && AccsMatch(l, las[..i], b, st.accs)
    && if i == 0 then st == State([], [], 0) && targId < |b.types| && cur == Skip(b, targId)
       else st.raw != [] && Denotes(b, targId, st.raw) == Ok(Walk(cur, st.accs, st.bitOffset))
            && Only(l, las, b, targId, i, st.raw)
  }

  lemma AccsMatchNext(l: Btf, las: seq<Accessor>, b: Btf, tas: seq<Accessor>, ta: Accessor)
    requires Sane(l) && Sane(b) && |tas| < |las| && AccsMatch(l, las[..|tas|], b, tas)
    requires AccMatches(l, las[|tas|], b, ta)
    ensures AccsMatch(l, las[..|tas| + 1], b, tas + [ta])
  {
  }

  lemma MidwayNone(l: Btf, las: seq<Accessor>, b: Btf, targId: Id)
    requires Sane(l) && Sane(b) && targId < |b.types|
    ensures Midway(l, las, b, targId, 0, Skip(b, targId), State([], [], 0))
  {
  }

  lemma IndexesIs(b: Btf, cur: Id, prior: Accessor, idx: nat)
    requires Sane(b) && cur < |b.types|
    ensures var t := b.types[Skip(b, cur)];
      && (Indexes(b, cur, prior, idx) <==> t.body.Array? && (IsFlexArr(b, prior, t.body.nelems) || idx < t.body.nelems))
      && (t.body.Array? ==> t.body.elem < |b.types|)
  {
    var t := b.types[Skip(b, cur)];
    if t.body.Array? { assert Refs(t)[1] == t.body.elem; }
  }

  lemma ElementInside(b: Btf, at: Id)
    requires Sane(b) && at < |b.types| && b.types[Skip(b, at)].body.Array?
    ensures b.types[Skip(b, at)].body.elem < |b.types|
  {
    assert Refs(b.types[Skip(b, at)])[1] == b.types[Skip(b, at)].body.elem;
  }

  lemma MidwayMember(l: Btf, las: seq<Accessor>, b: Btf, targId: Id, i: nat, cur: Id, st: State, now: State, next: Id)
    requires Sane(l) && Sane(b) && ProperNames(b) && 0 < i < |las| && NamesMember(l, las[i])
    requires Midway(l, las, b, targId, i, cur, st) && |now.raw| <= SPEC_MAX_LEN
    requires Searched(b, WantedOf(l, las[i]), st, now, Skip(b, cur), Found(next))
    ensures Midway(l, las, b, targId, i + 1, next, now) && |now.accs| == i + 1
  {
    hide AccMatches, Denotes, Only, ProperNames, Searched, NamesMember, Skip;
    FoundMatches(l, las[i], b, st, now, Skip(b, cur), next);
    OnlyMember(l, las, b, targId, i, cur, st, now, next);
    WalkOn(b, targId, WantedOf(l, las[i]), st, now, cur, next);
    FoundInRange(b, WantedOf(l, las[i]), st, now, Skip(b, cur), next);
    AccsMatchNext(l, las, b, st.accs, now.accs[i]);
    assert now.accs == st.accs + [now.accs[i]];
  }

  lemma MidwayNoMember(l: Btf, las: seq<Accessor>, b: Btf, targId: Id, i: nat, cur: Id, st: State, now: State)
    requires Sane(l) && Sane(b) && ProperNames(b) && 0 < i < |las| && NamesMember(l, las[i])
    requires Midway(l, las, b, targId, i, cur, st)
    requires Searched(b, WantedOf(l, las[i]), st, now, Skip(b, cur), NotFound)
    ensures forall raw: seq<nat>, w :: !Corresponds(l, las, b, targId, raw, w)
  {
    hide AccMatches, Denotes, Only, ProperNames, Searched, NamesMember, Skip;
    NoMember(l, las, b, targId, i, cur, st, now);
    NoneCorresponds(l, las, b, targId, i + 1);
  }

  /** The array an index accessor goes into. */
  predicate Indexes(b: Btf, cur: Id, prior: Accessor, idx: nat)
    requires Sane(b) && cur < |b.types|
  {
    var t := b.types[Skip(b, cur)];
    t.body.Array? && (IsFlexArr(b, prior, t.body.nelems) || idx < t.body.nelems)
  }

  lemma MidwayNoIndex(l: Btf, las: seq<Accessor>, b: Btf, targId: Id, i: nat, cur: Id, st: State)
    requires Sane(l) && Sane(b) && 0 < i < |las| && las[i].name.None?
    requires Midway(l, las, b, targId, i, cur, st) && !Indexes(b, cur, st.accs[i - 1], las[i].idx)
    ensures NoAnonymousArrays(b) ==> forall raw: seq<nat>, w :: !Corresponds(l, las, b, targId, raw, w)
  {
    hide AccMatches, Denotes, Only, Skip, NoAnonymousArrays;
    if NoAnonymousArrays(b) {
      NoIndex(l, las, b, targId, i, cur, st);
      NoneCorresponds(l, las, b, targId, i + 1);
    }
  }

  lemma MidwayIndex(l: Btf, las: seq<Accessor>, b: Btf, targId: Id, i: nat, cur: Id, st: State, el: Id, sz: nat)
    requires Sane(l) && Sane(b) && 0 < i < |las| && las[i].name.None? && |st.raw| < SPEC_MAX_LEN
    requires Midway(l, las, b, targId, i, cur, st) && Indexes(b, cur, st.accs[i - 1], las[i].idx)
    requires b.types[Skip(b, cur)].body.elem < |b.types| && el == Skip(b, b.types[Skip(b, cur)].body.elem)
    requires SizeOf(b, el) == Ok(sz)
    ensures Midway(l, las, b, targId, i + 1, el, Indexed(st, el, las[i].idx, sz))
  {
    hide AccMatches, Denotes, Only, Skip, SizeOf;
    ElementHere(b, cur, st, las[i].idx);
    OnlyIndex(l, las, b, targId, i, cur, st);
    IndexOn(b, targId, st, cur, las[i].idx, el, sz);
    IndexMatches(l, las[i], b, Accessor(el, las[i].idx, None));
    AccsMatchNext(l, las, b, st.accs, Accessor(el, las[i].idx, None));
  }

  function Indexed(st: State, el: Id, idx: nat, sz: nat): State {
    State(st.accs + [Accessor(el, idx, None)], st.raw + [idx], (st.bitOffset + idx * sz * 8) % U32)
  }

  lemma MidwayStart(l: Btf, las: seq<Accessor>, b: Btf, targId: Id, cur: Id, st: State, sz: nat)
    requires Sane(l) && Sane(b) && las != [] && las[0].name.None? && Midway(l, las, b, targId, 0, cur, st)
    requires SizeOf(b, Skip(b, cur)) == Ok(sz)
    ensures Midway(l, las, b, targId, 1, Skip(b, cur), Indexed(st, Skip(b, cur), las[0].idx, sz))
  {
    hide AccMatches, Denotes, Only, Skip, SizeOf;
    var idx, id := las[0].idx, Skip(b, cur);
    OnlyStart(l, las, b, targId);
    StartHere(b, targId, idx, sz);
    IndexMatches(l, las[0], b, Accessor(id, idx, None));
    AccsMatchNext(l, las, b, [], Accessor(id, idx, None));
    assert st.raw + [idx] == [idx] && st.accs + [Accessor(id, idx, None)] == [Accessor(id, idx, None)];
  }

  lemma MidwayEnd(l: Btf, las: seq<Accessor>, b: Btf, targId: Id, cur: Id, st: State)
    requires Sane(l) && Sane(b) && las != [] && Midway(l, las, b, targId, |las|, cur, st)
    ensures Corresponds(l, las, b, targId, st.raw, Walk(cur, st.accs, st.bitOffset))
    ensures forall other: seq<nat>, w' :: Corresponds(l, las, b, targId, other, w') ==>
      st.raw <= other && w'.accs == st.accs
  {
    hide AccMatches, Denotes, Only;
    assert las[..|las|] == las;
    OneCorresponds(l, las, b, targId, st.raw, Walk(cur, st.accs, st.bitOffset));
  }

  // ----- when the search cannot overrun -----

  /** No struct lies `d` levels of anonymous members below any type. */
  ghost predicate NestedBelow(b: Btf, d: nat)
    requires Sane(b)
  {
    forall id: Id :: id < |b.types| ==> !Deep(b, id, d)
  }

  lemma {:induction false} DeepLess(b: Btf, id: Id, n: int, d: nat)
    requires Sane(b) && id < |b.types| && Deep(b, id, n) && d <= n
    ensures Deep(b, id, d)
    decreases d
  {
    if d > 0 {
      var t := b.types[Skip(b, id)];
      var i :| 0 <= i < |t.body.members| && DeepIn(b, t, i, n);
      DeepLess(b, t.body.members[i].ty, n - 1, d - 1);
      assert DeepIn(b, t, i, d);
    }
  }

  /** Something on the target corresponds, and leaves room for `d` more. */
  ghost predicate RoomFor(l: Btf, las: seq<Accessor>, b: Btf, targId: Id, d: nat)
    requires Sane(l) && Sane(b)
  {
    exists raw: seq<nat>, w :: Corresponds(l, las, b, targId, raw, w) && |raw| + d <= SPEC_MAX_LEN
  }

  lemma CorrespondsAgrees(l: Btf, las: seq<Accessor>, b: Btf, targId: Id, raw: seq<nat>, w: Walk, i: nat)
    requires Sane(l) && Sane(b) && Corresponds(l, las, b, targId, raw, w) && i <= |las|
    ensures AgreesUpTo(l, las, b, targId, raw, i)
  {
  }

  /** The search fails: no such spec is there. */
  lemma FailedNoRoom(l: Btf, las: seq<Accessor>, b: Btf, targId: Id, i: nat, cur: Id, st: State, now: State, e: Errno,
                     d: nat)
    requires Sane(l) && Sane(b) && ProperNames(b) && NestedBelow(b, d) && 0 < i < |las| && NamesMember(l, las[i])
    requires Midway(l, las, b, targId, i, cur, st)
    requires Searched(b, WantedOf(l, las[i]), st, now, Skip(b, cur), Failed(e))
    ensures !RoomFor(l, las, b, targId, d)
  {
    hide Sane, ProperNames, AccMatches, Names, Skip, Steps, Fits, Has, Deep, NamesMember, Denotes;
    var w := WantedOf(l, las[i]);
    if RoomFor(l, las, b, targId, d) {
      var other: seq<nat>, w' :| Corresponds(l, las, b, targId, other, w') && |other| + d <= SPEC_MAX_LEN;
      CorrespondsAgrees(l, las, b, targId, other, w', i + 1);
      GoesOn(l, las, b, targId, i, cur, st, other);
      FitsWanted(l, las[i], b, Denotes(b, targId, other).value.accs[i]);
      PathHas(b, Walk(Skip(b, cur), st.accs, st.bitOffset), other[|st.raw|..], w.name, Fits(w, b));
      DeepLess(b, Skip(b, cur), SPEC_MAX_LEN - |st.raw|, d);
      assert false;
    }
  }

  /** The spec is full, or the element has no size: no spec corresponds. */
  lemma FullNoRoom(l: Btf, las: seq<Accessor>, b: Btf, targId: Id, i: nat, cur: Id, st: State, d: nat)
    requires Sane(l) && Sane(b) && i < |las| && Midway(l, las, b, targId, i, cur, st)
    requires |st.raw| == SPEC_MAX_LEN
    ensures !RoomFor(l, las, b, targId, d)
  {
    hide Sane, AccMatches, Skip, Steps, Denotes;
    if RoomFor(l, las, b, targId, d) {
      var other: seq<nat>, w' :| Corresponds(l, las, b, targId, other, w') && |other| + d <= SPEC_MAX_LEN;
      CorrespondsAgrees(l, las, b, targId, other, w', i + 1);
      GoesOn(l, las, b, targId, i, cur, st, other);
      assert false;
    }
  }

  lemma SizelessNoRoom(l: Btf, las: seq<Accessor>, b: Btf, targId: Id, i: nat, cur: Id, st: State, el: Id, d: nat)
    requires Sane(l) && Sane(b) && i < |las| && las[i].name.None? && Midway(l, las, b, targId, i, cur, st)
    requires i > 0 ==> b.types[Skip(b, cur)].body.Array? && b.types[Skip(b, cur)].body.elem < |b.types|
    requires el == if i == 0 then Skip(b, cur) else Skip(b, b.types[Skip(b, cur)].body.elem)
    requires SizeOf(b, el).Err?
    ensures !RoomFor(l, las, b, targId, d)
  {
    hide Sane, AccMatches, Denotes, Steps, SizeOf, Skip;
    if RoomFor(l, las, b, targId, d) {
      var other: seq<nat>, w' :| Corresponds(l, las, b, targId, other, w') && |other| + d <= SPEC_MAX_LEN;
      CorrespondsAgrees(l, las, b, targId, other, w', i + 1);
      if i == 0 {
        SizelessStart(b, targId, other);
      } else {
        GoesOn(l, las, b, targId, i, cur, st, other);
        SizelessStep(b, Walk(cur, st.accs, st.bitOffset), other[|st.raw|..]);
      }
      assert false;
    }
  }

  lemma SizelessStart(b: Btf, targId: Id, raw: seq<nat>)
    requires Sane(b) && (targId < |b.types| ==> SizeOf(b, Skip(b, Skip(b, targId))).Err?)
    ensures Denotes(b, targId, raw).Err?
  {
    if targId < |b.types| { SkipIdempotent(b, targId); }
  }

  lemma SizelessStep(b: Btf, w: Walk, path: seq<nat>)
    requires Sane(b) && w.id < |b.types| && w.accs != [] && path != [] && b.types[Skip(b, w.id)].body.Array?
    requires b.types[Skip(b, w.id)].body.elem < |b.types|
    requires SizeOf(b, Skip(b, b.types[Skip(b, w.id)].body.elem)).Err?
    ensures Steps(b, w, path).Err?
  {
    if Steps(b, w, path).Ok? { StepsFirst(b, w, path); }
  }

  lemma OutsideNothing(l: Btf, las: seq<Accessor>, b: Btf, targId: Id)
    requires Sane(l) && Sane(b) && targId >= |b.types|
    ensures forall raw: seq<nat>, w :: !Corresponds(l, las, b, targId, raw, w)
  {
  }

  /** A spec corresponds, and the deepest anonymous nesting leaves room for it. */
  ghost predicate Findable(l: Btf, las: seq<Accessor>, b: Btf, targId: Id)
    requires Sane(l) && Sane(b)
  {
    NoAnonymousArrays(b) && exists d: nat :: NestedBelow(b, d) && RoomFor(l, las, b, targId, d)
  }

  lemma NothingFindable(l: Btf, las: seq<Accessor>, b: Btf, targId: Id)
    requires Sane(l) && Sane(b)
    requires NoAnonymousArrays(b) ==> forall raw: seq<nat>, w :: !Corresponds(l, las, b, targId, raw, w)
    ensures !Findable(l, las, b, targId)
  {
  }

  lemma FailedUnfindable(l: Btf, las: seq<Accessor>, b: Btf, targId: Id, i: nat, cur: Id, st: State, now: State,
                         e: Errno)
    requires Sane(l) && Sane(b) && ProperNames(b) && 0 < i < |las| && NamesMember(l, las[i])
    requires Midway(l, las, b, targId, i, cur, st)
    requires Searched(b, WantedOf(l, las[i]), st, now, Skip(b, cur), Failed(e))
    ensures !Findable(l, las, b, targId)
  {
    hide RoomFor, NestedBelow, Midway, Searched, ProperNames, NamesMember, Sane;
    if Findable(l, las, b, targId) {
      var d: nat :| NestedBelow(b, d) && RoomFor(l, las, b, targId, d);
      FailedNoRoom(l, las, b, targId, i, cur, st, now, e, d);
      assert false;
    }
  }

  lemma FullUnfindable(l: Btf, las: seq<Accessor>, b: Btf, targId: Id, i: nat, cur: Id, st: State)
    requires Sane(l) && Sane(b) && i < |las| && Midway(l, las, b, targId, i, cur, st) && |st.raw| == SPEC_MAX_LEN
    ensures !Findable(l, las, b, targId)
  {
    hide RoomFor, NestedBelow, Midway, Sane;
    if Findable(l, las, b, targId) {
      var d: nat :| NestedBelow(b, d) && RoomFor(l, las, b, targId, d);
      FullNoRoom(l, las, b, targId, i, cur, st, d);
      assert false;
    }
  }

  lemma SizelessUnfindable(l: Btf, las: seq<Accessor>, b: Btf, targId: Id, i: nat, cur: Id, st: State, el: Id)
    requires Sane(l) && Sane(b) && i < |las| && las[i].name.None? && Midway(l, las, b, targId, i, cur, st)
    requires i > 0 ==> b.types[Skip(b, cur)].body.Array? && b.types[Skip(b, cur)].body.elem < |b.types|
    requires el == if i == 0 then Skip(b, cur) else Skip(b, b.types[Skip(b, cur)].body.elem)
    requires SizeOf(b, el).Err?
    ensures !Findable(l, las, b, targId)
  {
    hide RoomFor, NestedBelow, Midway, Sane;
    if Findable(l, las, b, targId) {
      var d: nat :| NestedBelow(b, d) && RoomFor(l, las, b, targId, d);
      SizelessNoRoom(l, las, b, targId, i, cur, st, el, d);
      assert false;
    }
  }
}
