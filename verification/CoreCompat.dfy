/** When two types are compatible, in terms of what they are, and that a spec
    finds itself. */
module CoreCompat {
  import opened Basics
  import opened BtfTypes
  import opened BtfMeaning
  import opened CoreSpec
  import opened CoreSearch
  import opened CoreUnique

  // ----- flavors -----

  /** The essential length is where the last flavor separator begins, or all. */
  lemma {:induction false} LastSeparator(s: string, i: nat)
    requires i <= |s| && forall j: nat :: i <= j < |s| ==> !IsFlavorSep(s, j)
    ensures EssentialLenFrom(s, i) == |s| <==> forall j: nat :: j < |s| ==> !IsFlavorSep(s, j)
    ensures EssentialLenFrom(s, i) < |s| ==> EssentialLenFrom(s, i) > 0 && IsFlavorSep(s, EssentialLenFrom(s, i) - 1)
    ensures forall j: nat :: EssentialLenFrom(s, i) <= j < |s| ==> !IsFlavorSep(s, j)
  {
    if i > 0 && !IsFlavorSep(s, i - 1) {
      LastSeparator(s, i - 1);
    }
  }

  lemma EssentialLenIs(s: string)
    ensures EssentialLen(s) == |s| <==> forall j: nat :: j < |s| ==> !IsFlavorSep(s, j)
    ensures EssentialLen(s) < |s| ==> EssentialLen(s) > 0 && IsFlavorSep(s, EssentialLen(s) - 1)
    ensures forall j: nat :: EssentialLen(s) <= j < |s| ==> !IsFlavorSep(s, j)
  {
    if |s| >= 5 { LastSeparator(s, |s| - 4); }
  }

  /** Neither ends nor begins with an underscore, and has no flavor itself. */
  predicate Plain(s: string) {
    s != [] && s[0] != '_' && s[|s| - 1] != '_' && EssentialLen(s) == |s|
  }

  /** A flavor suffix is not part of the essential name. */
  lemma FlavorDropped(x: string, y: string)
    requires Plain(x) && Plain(y)
    ensures EssentialLen(x + "___" + y) == |x| && (x + "___" + y)[..|x|] == x
  {
    var s := x + "___" + y;
    EssentialLenIs(s);
    EssentialLenIs(y);
    var n := |x|;
    assert s[n - 1] == x[n - 1] && s[n] == '_' && s[n + 1] == '_' && s[n + 2] == '_' && s[n + 3] == y[0];
    assert IsFlavorSep(s, n - 1);
    forall j: nat | n <= j < |s| ensures !IsFlavorSep(s, j) {
      if j >= n + 3 { SeparatorBehind(x + "___", y, j); }
    }
  }

  lemma SeparatorBehind(p: string, y: string, j: nat)
    requires |p| <= j < |p + y|
    ensures IsFlavorSep(p + y, j) == IsFlavorSep(y, j - |p|)
  {
  }

  /** So flavors of one name are the same, and flavors of different names are not. */
  lemma FlavorsSame(x: string, y: string, x2: string, y2: string)
    requires Plain(x) && Plain(y) && Plain(x2) && Plain(y2)
    ensures SameEssential(x + "___" + y, x2 + "___" + y2) <==> x == x2
    ensures SameEssential(x + "___" + y, x2) <==> x == x2
    ensures SameEssential(x, x2) <==> x == x2
  {
    FlavorDropped(x, y);
    FlavorDropped(x2, y2);
    hide EssentialLen;
    assert x[..|x|] == x && x2[..|x2|] == x2;
  }

  // ----- compatibility -----

  function Target(b: Btf, id: Id): Type
    requires Sane(b) && id < |b.types|
  {
    b.types[Skip(b, id)]
  }

  /** Typedefs and modifiers on either side are not seen. */
  lemma SkippedUnseen(l: Btf, lid: Id, b: Btf, id: Id)
    requires Sane(l) && Sane(b) && lid < |l.types| && id < |b.types|
    ensures IsSkipped(l.types[lid]) ==> Compatible(l, lid, b, id) == Compatible(l, l.types[lid].body.target, b, id)
    ensures IsSkipped(b.types[id]) ==> Compatible(l, lid, b, id) == Compatible(l, lid, b, b.types[id].body.target)
  {
    hide Compatible, Skip;
    if IsSkipped(l.types[lid]) { LocalUnseen(l, lid, b, id); }
    if IsSkipped(b.types[id]) { TargetUnseen(l, lid, b, id); }
  }

  lemma LocalUnseen(l: Btf, lid: Id, b: Btf, id: Id)
    requires Sane(l) && Sane(b) && lid < |l.types| && id < |b.types| && IsSkipped(l.types[lid])
    ensures Compatible(l, lid, b, id) == Compatible(l, l.types[lid].body.target, b, id)
  {
  }

  lemma TargetUnseen(l: Btf, lid: Id, b: Btf, id: Id)
    requires Sane(l) && Sane(b) && lid < |l.types| && id < |b.types| && IsSkipped(b.types[id])
    ensures Compatible(l, lid, b, id) == Compatible(l, lid, b, b.types[id].body.target)
  {
  }

  /** Any two pointers, and any two of structs and unions, are compatible. */
  lemma AlwaysCompatible(l: Btf, lid: Id, b: Btf, id: Id)
    requires Sane(l) && Sane(b) && lid < |l.types| && id < |b.types|
    requires (Target(l, lid).body.Composite? && Target(b, id).body.Composite?) ||
      (KindOf(Target(l, lid)) == KindOf(Target(b, id)) && Target(l, lid).body.Ref? && Target(l, lid).body.kind == Ptr)
    ensures Compatible(l, lid, b, id)
  {
  }

  /** Members of different kinds are not, nor are members of the kinds that no
      relocation goes to. */
  lemma OtherKindsDiffer(l: Btf, lid: Id, b: Btf, id: Id)
    requires Sane(l) && Sane(b) && lid < |l.types| && id < |b.types| && Compatible(l, lid, b, id)
    ensures KindOf(Target(l, lid)) == KindOf(Target(b, id)) ||
      (Target(l, lid).body.Composite? && Target(b, id).body.Composite?)
    ensures Listed(KindOf(Target(l, lid)))
  {
  }

  /** The kinds a relocation can go to. */
  predicate Listed(k: Kind) {
    k == KRef(Ptr) || k.KComposite? || k == KFwd || k == KEnum || k == KInt || k == KArray
  }

  /** Integers are compatible unless one of them starts inside its bytes; enums and
      forward declarations by essential name; arrays by their elements. */
  lemma CompatibleWithin(l: Btf, lid: Id, b: Btf, id: Id)
    requires Sane(l) && Sane(b) && lid < |l.types| && id < |b.types|
    requires KindOf(Target(l, lid)) == KindOf(Target(b, id))
    ensures Target(l, lid).body.Int? ==>
      (Compatible(l, lid, b, id) <==>
       IntOffset(Target(l, lid).body.encoding) == 0 == IntOffset(Target(b, id).body.encoding))
    ensures Target(l, lid).body.Enum? || Target(l, lid).body.Fwd? ==>
      (Compatible(l, lid, b, id) <==> SameEssential(l.strs(Target(l, lid).name), b.strs(Target(b, id).name)))
    ensures Target(l, lid).body.Array? ==>
      Target(l, lid).body.elem < |l.types| && Target(b, id).body.elem < |b.types| &&
      (Compatible(l, lid, b, id) <==> Compatible(l, Target(l, lid).body.elem, b, Target(b, id).body.elem))
  {
    ElementsInside(l, Skip(l, lid));
    ElementsInside(b, Skip(b, id));
  }

  lemma ElementsInside(b: Btf, id: Id)
    requires Sane(b) && id < |b.types|
    ensures b.types[id].body.Array? ==> b.types[id].body.elem < |b.types|
  {
    if b.types[id].body.Array? { assert Refs(b.types[id])[1] == b.types[id].body.elem; }
  }

  /** Which side is local does not matter. */
  lemma {:induction false} CompatibleSymmetric(l: Btf, lid: Id, b: Btf, id: Id)
    requires Sane(l) && Sane(b) && lid < |l.types| && id < |b.types| && Compatible(l, lid, b, id)
    ensures Compatible(b, id, l, lid)
    decreases RankOf(l)[Skip(l, lid)]
  {
    var lt, t := Target(l, lid), Target(b, id);
    if lt.body.Array? {
      CompatibleWithin(l, lid, b, id);
      SkipRank(l, lt.body.elem);
      CompatibleSymmetric(l, lt.body.elem, b, t.body.elem);
      CompatibleWithin(b, id, l, lid);
    }
  }

  /** A type a relocation can go to: of a listed kind down to the elements, and no
      bitfield-like integer. */
  predicate Relocatable(b: Btf, id: Id)
    requires Sane(b) && id < |b.types|
    decreases RankOf(b)[Skip(b, id)]
  {
    var t := Target(b, id);
    Listed(KindOf(t)) && (t.body.Int? ==> IntOffset(t.body.encoding) == 0) &&
    (t.body.Array? ==> (ElementsInside(b, Skip(b, id)); SkipRank(b, t.body.elem); Relocatable(b, t.body.elem)))
  }

  /** These are the types compatible with themselves. */
  lemma {:induction false} CompatibleSelfIff(b: Btf, id: Id)
    requires Sane(b) && id < |b.types|
    ensures Compatible(b, id, b, id) <==> Relocatable(b, id)
    decreases RankOf(b)[Skip(b, id)]
  {
    var t := Target(b, id);
    if t.body.Array? {
      ElementsInside(b, Skip(b, id));
      SkipRank(b, t.body.elem);
      CompatibleSelfIff(b, t.body.elem);
    }
  }

  // ----- a spec finds itself -----

  /** The members an access string names are of types a relocation can go to. */
  ghost predicate AllRelocatable(b: Btf, accs: seq<Accessor>)
    requires Sane(b)
  {
    forall i :: 0 <= i < |accs| && accs[i].name.Some? ==> MemberRelocatable(b, accs[i])
  }

  ghost predicate MemberRelocatable(b: Btf, acc: Accessor)
    requires Sane(b)
  {
    acc.name.Some? && exists ty: Id :: ty < |b.types| && Names(b, acc, acc.name.value, ty) && Relocatable(b, ty)
  }

  /** What an access string denotes corresponds to itself, exactly if the members it
      names are of such types. */
  lemma SelfCorresponds(b: Btf, t: Id, raw: seq<nat>, w: Walk)
    requires Sane(b) && Denotes(b, t, raw) == Ok(w)
    ensures Corresponds(b, w.accs, b, t, raw, w) <==> AllRelocatable(b, w.accs)
  {
    DenotesLocal(b, t, raw);
    hide Denotes, Relocatable, Compatible;
    forall i | 0 <= i < |w.accs| && w.accs[i].name.Some?
      ensures AccMatches(b, w.accs[i], b, w.accs[i]) <==> MemberRelocatable(b, w.accs[i])
    {
      SelfMatches(b, w.accs[i]);
    }
    if AllRelocatable(b, w.accs) {
      forall i | 0 <= i < |w.accs| ensures AccMatches(b, w.accs[i], b, w.accs[i]) {
      }
    }
  }

  lemma SelfMatches(b: Btf, acc: Accessor)
    requires Sane(b) && NamesMember(b, acc)
    ensures AccMatches(b, acc, b, acc) <==> MemberRelocatable(b, acc)
  {
    var ty: Id :| ty < |b.types| && Names(b, acc, acc.name.value, ty);
    CompatibleSelfIff(b, ty);
    hide Compatible, Relocatable;
    if Relocatable(b, ty) { assert CompatibleAs(b, acc, ty, b, acc, ty); }
  }

  /** And then the search must find it, if the nesting leaves room. */
  lemma SelfFindable(b: Btf, t: Id, raw: seq<nat>, w: Walk, d: nat)
    requires Sane(b) && Denotes(b, t, raw) == Ok(w) && AllRelocatable(b, w.accs)
    requires NoAnonymousArrays(b) && NestedBelow(b, d) && |raw| + d <= SPEC_MAX_LEN
    ensures Findable(b, w.accs, b, t)
  {
    SelfCorresponds(b, t, raw, w);
    hide Denotes, AllRelocatable, NoAnonymousArrays, NestedBelow, Corresponds;
    assert RoomFor(b, w.accs, b, t, d);
  }
}
