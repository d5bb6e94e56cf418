/** Sizes and bit offsets: what an access string denotes lies where the layout of
    its types puts it. */
module CoreLayout {
  import opened Basics
  import opened BtfTypes
  import opened BtfMeaning
  import opened CoreSpec
  import opened CoreSearch

  // ----- the word of a member -----

  /** With the kind flag set, a member's word holds a bit offset of 24 bits and a
      bitfield size of 8; without it, the word is the offset. */
  lemma MemberWord(t: Type, i: nat, offset: nat, size: nat)
    requires t.body.Composite? && i < |t.body.members|
    requires t.body.members[i].offset == if t.kflag then size * 0x100_0000 + offset else offset
    requires if t.kflag then offset < 0x100_0000 && size < 0x100 else size == 0
    ensures MemberBitOffset(t, i) == offset && MemberBitfieldSize(t, i) == size
  {
    if t.kflag { assert t.body.members[i].offset / 0x100_0000 == size; }
  }

  // ----- sizes -----

  function Product(dims: seq<nat>): nat {
    if dims == [] then 1 else dims[0] * Product(dims[1..])
  }

  /** The size a type has of its own. */
  function OwnSize(t: Type): Option<nat> {
    match t.body
    case Int(_, s, _) => Some(s)
    case Composite(_, s, _) => Some(s)
    case Enum(s, _) => Some(s)
    case Datasec(s, _) => Some(s)
    case Ref(Ptr, _, _) => Some(8)
    case _ => None
  }

  /** From `id`, over `steps` modifiers, typedefs, variables and arrays of these
      dimensions, one comes to `base`, which is none of them. */
  ghost predicate ArrayOf(b: Btf, id: Id, dims: seq<nat>, base: Id, steps: nat)
    decreases steps
  {
    id < |b.types| && base < |b.types| &&
    match b.types[id].body
    case Array(_, _, _, el, n) =>
      steps > 0 && dims != [] && dims[0] == n && ArrayOf(b, el, dims[1..], base, steps - 1)
    case Var(_, ty, _) => steps > 0 && ArrayOf(b, ty, dims, base, steps - 1)
    case Ref(kind, _, ty) =>
      if kind == Ptr || kind == Func then steps == 0 && dims == [] && base == id
      else steps > 0 && ArrayOf(b, ty, dims, base, steps - 1)
    case _ => steps == 0 && dims == [] && base == id
  }

  /** No number of elements, and not the size, reaches 2^32. */
  predicate Fits32(n: nat, dims: seq<nat>, size: nat)
    decreases |dims|
  {
    if dims == [] then n * size < U32 else n * dims[0] < U32 && Fits32(n * dims[0], dims[1..], size)
  }

  lemma QuotientIs(n: nat, k: nat)
    ensures n > 0 ==> (k > (U32 - 1) / n <==> n * k >= U32)
  {
    if n > 0 {
      var q := (U32 - 1) / n;
      if k > q { assert n * k >= n * (q + 1); } else { assert n * k <= n * q; }
    }
  }

  lemma Associates(a: nat, b: nat, c: nat)
    ensures (a * b) * c == a * (b * c)
  {
  }

  /** The size of an array is the product of its dimensions and the size of what it
      is an array of; it is found exactly if no 32-bit number overflows and the way
      there is shorter than 32 types. */
  ghost predicate SizedAs(b: Btf, id: Id, dims: seq<nat>, base: Id, steps: nat, n: nat, depth: nat)
    requires Closed(b.types) && id < |b.types| && base < |b.types|
  {
    && (ResolveSize(b, id, n, depth).Ok? <==>
      depth + steps < MAX_RESOLVE_DEPTH && OwnSize(b.types[base]).Some? &&
      Fits32(n, dims, OwnSize(b.types[base]).value))
    && (ResolveSize(b, id, n, depth).Ok? ==>
      ResolveSize(b, id, n, depth).value == n * Product(dims) * OwnSize(b.types[base]).value)
  }

  lemma {:induction false} SizeIs(b: Btf, id: Id, dims: seq<nat>, base: Id, steps: nat, n: nat, depth: nat)
    requires Closed(b.types) && ArrayOf(b, id, dims, base, steps) && n < U32
    ensures SizedAs(b, id, dims, base, steps, n, depth)
    decreases steps
  {
    hide SizedAs;
    match b.types[id].body
    case Array(_, _, _, el, k) =>
      assert Refs(b.types[id])[1] == el;
      if n * k < U32 { SizeIs(b, el, dims[1..], base, steps - 1, n * k, depth + 1); }
      SizedElements(b, id, dims, base, steps, n, depth);
    case Var(_, ty, _) =>
      SizeIs(b, ty, dims, base, steps - 1, n, depth + 1);
      SizedThrough(b, id, ty, dims, base, steps, n, depth);
    case Ref(kind, _, ty) =>
      if kind == Ptr || kind == Func {
        SizedOwn(b, id, n, depth);
      } else {
        SizeIs(b, ty, dims, base, steps - 1, n, depth + 1);
        SizedThrough(b, id, ty, dims, base, steps, n, depth);
      }
    case _ => SizedOwn(b, id, n, depth);
  }

  lemma SizedOwn(b: Btf, id: Id, n: nat, depth: nat)
    requires Closed(b.types) && ArrayOf(b, id, [], id, 0)
    ensures SizedAs(b, id, [], id, 0, n, depth)
  {
    var own := OwnSize(b.types[id]);
    if own.Some? { QuotientIs(n, own.value); }
  }

  lemma SizedThrough(b: Btf, id: Id, ty: Id, dims: seq<nat>, base: Id, steps: nat, n: nat, depth: nat)
    requires Closed(b.types) && id < |b.types| && base < |b.types| && ty < |b.types| && steps > 0
    requires match b.types[id].body
             case Var(_, t, _) => t == ty
             case Ref(kind, _, t) => kind != Ptr && kind != Func && t == ty
             case _ => false
    requires SizedAs(b, ty, dims, base, steps - 1, n, depth + 1)
    ensures SizedAs(b, id, dims, base, steps, n, depth)
  {
    hide Total, OwnSize, Fits32, Product;
  }

  lemma SizedElements(b: Btf, id: Id, dims: seq<nat>, base: Id, steps: nat, n: nat, depth: nat)
    requires Closed(b.types) && id < |b.types| && base < |b.types| && n < U32
    requires b.types[id].body.Array? && b.types[id].body.elem < |b.types|
    requires steps > 0 && dims != [] && dims[0] == b.types[id].body.nelems
    requires n * dims[0] < U32 ==>
      SizedAs(b, b.types[id].body.elem, dims[1..], base, steps - 1, n * dims[0], depth + 1)
    ensures SizedAs(b, id, dims, base, steps, n, depth)
  {
    hide Total, OwnSize;
    QuotientIs(n, dims[0]);
    Associates(n, dims[0], Product(dims[1..]));
  }

  lemma ArraySize(b: Btf, id: Id, dims: seq<nat>, base: Id, steps: nat)
    requires Closed(b.types) && ArrayOf(b, id, dims, base, steps)
    ensures SizeOf(b, id).Ok? <==>
      steps < MAX_RESOLVE_DEPTH && OwnSize(b.types[base]).Some? && Fits32(1, dims, OwnSize(b.types[base]).value)
    ensures SizeOf(b, id).Ok? ==> SizeOf(b, id).value == Product(dims) * OwnSize(b.types[base]).value
  {
    SizeIs(b, id, dims, base, steps, 1, 0);
  }

  /** Fewer elements, met earlier on the way, are in proportion. */
  lemma {:induction false} InProportion(b: Btf, id: Id, n: nat, m: nat, depth: nat, depth': nat) returns (u: nat)
    requires Closed(b.types) && id < |b.types| && ResolveSize(b, id, n, depth).Ok? && m <= n < U32 && depth' <= depth
    ensures ResolveSize(b, id, n, depth).value == n * u
    ensures ResolveSize(b, id, m, depth') == Ok(m * u)
    decreases MAX_RESOLVE_DEPTH - depth
  {
    match b.types[id].body
    case Array(_, _, _, el, k) =>
      assert Refs(b.types[id])[1] == el;
      ProductSmall(n, m, k);
      var u' := InProportion(b, el, n * k, m * k, depth + 1, depth' + 1);
      u := k * u';
      Associates(n, k, u');
      Associates(m, k, u');
    case Var(_, ty, _) =>
      assert Refs(b.types[id])[0] == ty;
      u := InProportion(b, ty, n, m, depth + 1, depth' + 1);
    case Ref(kind, _, ty) =>
      assert Refs(b.types[id])[0] == ty;
      if kind == Ptr {
        u := TotalInProportion(n, m, 8);
      } else {
        u := InProportion(b, ty, n, m, depth + 1, depth' + 1);
      }
    case Int(_, s, _) => u := TotalInProportion(n, m, s);
    case Composite(_, s, _) => u := TotalInProportion(n, m, s);
    case Enum(s, _) => u := TotalInProportion(n, m, s);
    case Datasec(s, _) => u := TotalInProportion(n, m, s);
    case _ => assert false;
  }

  lemma ProductSmall(n: nat, m: nat, k: nat)
    requires m <= n && !(n > 0 && k > (U32 - 1) / n)
    ensures m * k <= n * k < U32 && n * k % U32 == n * k && m * k % U32 == m * k && !(m > 0 && k > (U32 - 1) / m)
  {
    QuotientIs(n, k);
    QuotientIs(m, k);
    LessTimes(m, n, k);
  }

  lemma TotalInProportion(n: nat, m: nat, size: nat) returns (u: nat)
    requires Total(n, size).Ok? && m <= n
    ensures u == size && Total(n, size).value == n * u && Total(m, size) == Ok(m * u)
  {
    u := size;
    QuotientIs(n, size);
    QuotientIs(m, size);
    LessTimes(m, n, size);
  }

  lemma LessTimes(m: nat, n: nat, k: nat)
    requires m <= n
    ensures m * k <= n * k
  {
  }

  /** A type has the size of what it stands for, and an array that of all its elements. */
  lemma {:induction false} SizeSkips(b: Btf, id: Id)
    requires Sane(b) && id < |b.types| && SizeOf(b, id).Ok?
    ensures SizeOf(b, Skip(b, id)) == SizeOf(b, id)
    decreases RankOf(b)[id]
  {
    if IsSkipped(b.types[id]) {
      assert Refs(b.types[id])[0] == b.types[id].body.target;
      var u := InProportion(b, b.types[id].body.target, 1, 1, 1, 0);
      SizeSkips(b, b.types[id].body.target);
    }
  }

  /** An array is sized by its elements, that many of them. */
  lemma ElementsSize(b: Btf, id: Id)
    requires Closed(b.types) && id < |b.types| && b.types[id].body.Array? && SizeOf(b, id).Ok?
    ensures b.types[id].body.elem < |b.types| && b.types[id].body.nelems < U32
    ensures ResolveSize(b, b.types[id].body.elem, b.types[id].body.nelems, 1) == SizeOf(b, id)
  {
    hide Total;
    assert Refs(b.types[id])[1] == b.types[id].body.elem;
  }

  lemma ElementSize(b: Btf, id: Id)
    requires Sane(b) && id < |b.types| && b.types[id].body.Array? && SizeOf(b, id).Ok? && b.types[id].body.nelems > 0
    ensures b.types[id].body.elem < |b.types| && SizeOf(b, Skip(b, b.types[id].body.elem)).Ok?
    ensures SizeOf(b, id).value == b.types[id].body.nelems * SizeOf(b, Skip(b, b.types[id].body.elem)).value
  {
    var el, n := b.types[id].body.elem, b.types[id].body.nelems;
    assert Refs(b.types[id])[1] == el;
    ElementsSize(b, id);
    hide ResolveSize, Refs;
    var u := InProportion(b, el, n, 1, 1, 0);
    SizeSkips(b, el);
  }

  // ----- layout -----

  function SizeOrZero(b: Btf, id: Id): nat
    requires id < |b.types| && Closed(b.types)
  {
    if SizeOf(b, id).Ok? then SizeOf(b, id).value else 0
  }

  /** How many bits the member takes. */
  function MemberBits(b: Btf, t: Type, i: nat): nat
    requires Closed(b.types) && t.body.Composite? && i < |t.body.members|
  {
    if MemberBitfieldSize(t, i) > 0 then MemberBitfieldSize(t, i)
    else if t.body.members[i].ty < |b.types| then 8 * SizeOrZero(b, t.body.members[i].ty)
    else 0
  }

  predicate IsUnion(t: Type) { t.body.Composite? && t.body.isUnion }

  predicate Disjoint(a: nat, n: nat, b: nat, m: nat) { a + n <= b || b + m <= a }

  /** Members have sizes and lie inside; those of a struct do not overlap; bitfields
      are not of types with members. */
  ghost predicate LaidOut(b: Btf)
    requires Sane(b)
  {
    forall id :: 0 <= id < |b.types| && b.types[id].body.Composite? ==> WellLaid(b, b.types[id])
  }

  ghost predicate WellLaid(b: Btf, t: Type)
    requires Sane(b) && t.body.Composite?
  {
    && (forall k :: 0 <= k < |t.body.members| ==> MemberInside(b, t, k))
    && (IsUnion(t) ||
        forall j, k :: 0 <= j < |t.body.members| && 0 <= k < |t.body.members| && j != k ==> MembersApart(b, t, j, k))
  }

  predicate MemberInside(b: Btf, t: Type, k: nat)
    requires Sane(b) && t.body.Composite? && k < |t.body.members|
  {
    var ty := t.body.members[k].ty;
    && ty < |b.types| && SizeOf(b, ty).Ok? && MemberBitOffset(t, k) + MemberBits(b, t, k) <= 8 * SizeOrType(t)
    && (MemberBitfieldSize(t, k) > 0 ==>
          !b.types[Skip(b, ty)].body.Composite? && !b.types[Skip(b, ty)].body.Array?)
  }

  predicate MembersApart(b: Btf, t: Type, j: nat, k: nat)
    requires Sane(b) && t.body.Composite? && j < |t.body.members| && k < |t.body.members|
  {
    Disjoint(MemberBitOffset(t, j), MemberBits(b, t, j), MemberBitOffset(t, k), MemberBits(b, t, k))
  }

  /** How many bits one more element of an access string reaches. */
  function StepBits(b: Btf, w: Walk, idx: nat): nat
    requires Sane(b) && w.id < |b.types|
  {
    var t := b.types[Skip(b, w.id)];
    match t.body
    case Composite(_, _, ms) => if idx < |ms| then MemberBits(b, t, idx) else 0
    case Array(_, _, _, elem, _) => if elem < |b.types| then 8 * SizeOrZero(b, Skip(b, elem)) else 0
    case _ => 0
  }

  /** The index is below the length of the array, also for one that ends a struct. */
  predicate InBounds(b: Btf, w: Walk, idx: nat)
    requires Sane(b) && w.id < |b.types|
  {
    b.types[Skip(b, w.id)].body.Array? ==> idx < b.types[Skip(b, w.id)].body.nelems
  }

  /** How far behind the start of a type one more element lies. */
  function StepOffset(b: Btf, w: Walk, idx: nat): nat
    requires Sane(b) && w.id < |b.types|
  {
    var t := b.types[Skip(b, w.id)];
    match t.body
    case Composite(_, _, ms) => if idx < |ms| then MemberBitOffset(t, idx) else 0
    case Array(_, _, _, elem, _) => idx * StepBits(b, w, idx)
    case _ => 0
  }

  lemma StepOffsetIs(b: Btf, w: Walk, idx: nat)
    requires Sane(b) && w.id < |b.types| && w.accs != [] && Step(b, w, idx).Ok?
    ensures Step(b, w, idx).value.bitOffset == (w.bitOffset + StepOffset(b, w, idx)) % U32
  {
    var t := b.types[Skip(b, w.id)];
    if t.body.Array? {
      var sz := SizeOf(b, Skip(b, t.body.elem)).value;
      assert idx * sz * 8 == idx * (8 * sz);
    }
  }

  lemma OffsetInside(b: Btf, w: Walk, idx: nat)
    requires Sane(b) && LaidOut(b) && w.id < |b.types| && w.accs != [] && Step(b, w, idx).Ok? && InBounds(b, w, idx)
    requires SizeOf(b, w.id).Ok?
    ensures StepOffset(b, w, idx) + StepBits(b, w, idx) <= 8 * SizeOf(b, w.id).value
  {
    SizeSkips(b, w.id);
    var id := Skip(b, w.id);
    var t := b.types[id];
    if t.body.Array? {
      ElementSize(b, id);
      ElementInside(idx, t.body.nelems, SizeOf(b, Skip(b, t.body.elem)).value);
    } else {
      assert WellLaid(b, t) && MemberInside(b, t, idx);
      QuotientIs(1, SizeOrType(t));
    }
  }

  /** One element further lies inside what was reached. */
  lemma StepInside(b: Btf, w: Walk, idx: nat)
    requires Sane(b) && LaidOut(b) && w.id < |b.types| && w.accs != [] && Step(b, w, idx).Ok? && InBounds(b, w, idx)
    requires SizeOf(b, w.id).Ok? && w.bitOffset + 8 * SizeOf(b, w.id).value < U32
    ensures var r := Step(b, w, idx).value;
      r.bitOffset == w.bitOffset + StepOffset(b, w, idx) &&
      r.bitOffset + StepBits(b, w, idx) <= w.bitOffset + 8 * SizeOf(b, w.id).value
  {
    hide LaidOut, Step, InBounds, StepOffset, StepBits, SizeOf, Skip;
    OffsetInside(b, w, idx);
    StepOffsetIs(b, w, idx);
  }

  /** What was reached has that many bits, unless it is a bitfield, which is the end. */
  lemma StepReaches(b: Btf, w: Walk, idx: nat)
    requires Sane(b) && LaidOut(b) && w.id < |b.types| && w.accs != [] && Step(b, w, idx).Ok?
    ensures var id := Step(b, w, idx).value.id;
      SizeOf(b, id).Ok? &&
      (StepBits(b, w, idx) == 8 * SizeOf(b, id).value ||
       !(b.types[Skip(b, id)].body.Composite? || b.types[Skip(b, id)].body.Array?))
  {
    var t := b.types[Skip(b, w.id)];
    if t.body.Composite? { assert WellLaid(b, t) && MemberInside(b, t, idx); }
  }

  lemma ElementInside(i: nat, n: nat, sz: nat)
    requires i < n
    ensures i * (8 * sz) + 8 * sz <= 8 * (n * sz)
  {
    LessTimes(i + 1, n, sz);
    assert (i + 1) * sz == i * sz + sz && i * (8 * sz) == 8 * (i * sz);
  }

  /** A member that exists, or an element in bounds, is always reached, and counted as
      an accessor unless it is an anonymous member. */
  lemma StepSucceeds(b: Btf, w: Walk, idx: nat)
    requires Sane(b) && ProperNames(b) && LaidOut(b) && w.id < |b.types| && w.accs != []
    requires var t := b.types[Skip(b, w.id)];
      (t.body.Composite? && idx < |t.body.members|) ||
      (t.body.Array? && idx < t.body.nelems && SizeOf(b, Skip(b, w.id)).Ok?)
    ensures Step(b, w, idx).Ok?
    ensures var t, r := b.types[Skip(b, w.id)], Step(b, w, idx).value;
      if t.body.Array? then
        |r.accs| == |w.accs| + 1 && r.accs[|w.accs|].name == None && r.accs[|w.accs|].idx == idx
      else if t.body.members[idx].name == 0 then r.accs == w.accs && r.id == t.body.members[idx].ty
      else
        |r.accs| == |w.accs| + 1 &&
        Names(b, r.accs[|w.accs|], b.strs(t.body.members[idx].name), t.body.members[idx].ty) &&
        r.id == t.body.members[idx].ty
  {
    var t := b.types[Skip(b, w.id)];
    if t.body.Array? {
      ElementSize(b, Skip(b, w.id));
    } else {
      assert WellLaid(b, t) && MemberInside(b, t, idx);
    }
  }

  /** Two members of a struct, or two elements of an array, lie apart. */
  lemma StepsApart(b: Btf, w: Walk, i: nat, j: nat)
    requires Sane(b) && LaidOut(b) && w.id < |b.types| && w.accs != [] && i != j
    requires Step(b, w, i).Ok? && InBounds(b, w, i) && Step(b, w, j).Ok? && InBounds(b, w, j)
    requires SizeOf(b, w.id).Ok? && w.bitOffset + 8 * SizeOf(b, w.id).value < U32
    requires !IsUnion(b.types[Skip(b, w.id)])
    ensures Disjoint(Step(b, w, i).value.bitOffset, StepBits(b, w, i),
                     Step(b, w, j).value.bitOffset, StepBits(b, w, j))
  {
    hide LaidOut, Step, InBounds, StepOffset, StepBits, SizeOf, Skip;
    StepInside(b, w, i);
    StepInside(b, w, j);
    OffsetsApart(b, w, i, j);
  }

  lemma OffsetsApart(b: Btf, w: Walk, i: nat, j: nat)
    requires Sane(b) && LaidOut(b) && w.id < |b.types| && w.accs != [] && i != j
    requires Step(b, w, i).Ok? && Step(b, w, j).Ok?
    requires !IsUnion(b.types[Skip(b, w.id)])
    ensures Disjoint(StepOffset(b, w, i), StepBits(b, w, i), StepOffset(b, w, j), StepBits(b, w, j))
  {
    var t := b.types[Skip(b, w.id)];
    if t.body.Array? {
      var bits := StepBits(b, w, i);
      if i < j { LessTimes(i + 1, j, bits); } else { LessTimes(j + 1, i, bits); }
      assert (i + 1) * bits == i * bits + bits && (j + 1) * bits == j * bits + bits;
    } else {
      assert WellLaid(b, t) && MembersApart(b, t, i, j);
    }
  }

  // ----- whole access strings -----

  /** Every index of the walk is in bounds. */
  ghost predicate WalkInBounds(b: Btf, w: Walk, raw: seq<nat>)
    requires Sane(b) && w.id < |b.types| && w.accs != []
    decreases |raw|
  {
    raw == [] ||
    (var init, last := raw[..|raw| - 1], raw[|raw| - 1];
     Steps(b, w, init).Ok? && WalkInBounds(b, w, init) && InBounds(b, Steps(b, w, init).value, last))
  }

  /** How many bits the end of the walk has. */
  function Extent(b: Btf, w: Walk, raw: seq<nat>): nat
    requires Sane(b) && w.id < |b.types| && w.accs != [] && Steps(b, w, raw).Ok?
  {
    if raw == [] then 8 * SizeOrZero(b, w.id)
    else StepBits(b, Steps(b, w, raw[..|raw| - 1]).value, raw[|raw| - 1])
  }

  /** The type a walk starts from has a size, and lies below the 32-bit limit. */
  ghost predicate Placed(b: Btf, w: Walk)
    requires Sane(b)
  {
    && w.id < |b.types| && w.accs != [] && SizeOf(b, w.id).Ok?
    && w.bitOffset + 8 * SizeOf(b, w.id).value < U32
  }

  /** The end of a walk lies inside what the walk started from. */
  lemma {:induction false} WalkInside(b: Btf, w: Walk, raw: seq<nat>)
    requires Sane(b) && LaidOut(b) && Placed(b, w) && Steps(b, w, raw).Ok? && WalkInBounds(b, w, raw)
    ensures var r := Steps(b, w, raw).value;
      && w.bitOffset <= r.bitOffset && r.bitOffset + Extent(b, w, raw) <= w.bitOffset + 8 * SizeOf(b, w.id).value
      && SizeOf(b, r.id).Ok?
      && (Extent(b, w, raw) == 8 * SizeOf(b, r.id).value ||
          !(b.types[Skip(b, r.id)].body.Composite? || b.types[Skip(b, r.id)].body.Array?))
    decreases |raw|
  {
    hide Sane, LaidOut, Step, InBounds, StepBits, SizeOf, Skip;
    if raw != [] {
      var init, last := raw[..|raw| - 1], raw[|raw| - 1];
      WalkInside(b, w, init);
      var mid := Steps(b, w, init).value;
      StepGoesOn(b, mid, last);
      StepInside(b, mid, last);
      StepReaches(b, mid, last);
    }
  }

  lemma StepGoesOn(b: Btf, w: Walk, idx: nat)
    requires Sane(b) && w.id < |b.types| && w.accs != [] && Step(b, w, idx).Ok?
    ensures b.types[Skip(b, w.id)].body.Composite? || b.types[Skip(b, w.id)].body.Array?
  {
  }

  /** Where one more element leads to, what follows stays. */
  lemma {:induction false} WalkBehind(b: Btf, w: Walk, p: seq<nat>, i: nat, q: seq<nat>)
    requires Sane(b) && LaidOut(b) && Placed(b, w) && Steps(b, w, p + [i] + q).Ok? && WalkInBounds(b, w, p + [i] + q)
    ensures Steps(b, w, p).Ok? && WalkInBounds(b, w, p)
    ensures var mid := Steps(b, w, p).value;
      Step(b, mid, i).Ok? && InBounds(b, mid, i) &&
      var from := Step(b, mid, i).value.bitOffset;
      var r := Steps(b, w, p + [i] + q).value;
      from <= r.bitOffset && r.bitOffset + Extent(b, w, p + [i] + q) <= from + StepBits(b, mid, i)
    decreases |q|
  {
    hide Sane, LaidOut, Step, InBounds, StepBits, SizeOf, Skip;
    var raw := p + [i] + q;
    var init, last := raw[..|raw| - 1], raw[|raw| - 1];
    if q == [] {
      assert init == p && last == i;
    } else {
      assert init == p + [i] + q[..|q| - 1];
      WalkBehind(b, w, p, i, q[..|q| - 1]);
      WalkInside(b, w, init);
      var mid := Steps(b, w, init).value;
      StepGoesOn(b, mid, last);
      StepInside(b, mid, last);
    }
  }

  /** Access strings that part at a struct or an array denote bits that do not
      overlap, whatever follows. */
  lemma WalksApart(b: Btf, w: Walk, p: seq<nat>, i: nat, q: seq<nat>, i': nat, q': seq<nat>)
    requires Sane(b) && LaidOut(b) && Placed(b, w) && i != i'
    requires Steps(b, w, p + [i] + q).Ok? && WalkInBounds(b, w, p + [i] + q)
    requires Steps(b, w, p + [i'] + q').Ok? && WalkInBounds(b, w, p + [i'] + q')
    requires Steps(b, w, p).Ok? ==> !IsUnion(b.types[Skip(b, Steps(b, w, p).value.id)])
    ensures Disjoint(Steps(b, w, p + [i] + q).value.bitOffset, Extent(b, w, p + [i] + q),
                     Steps(b, w, p + [i'] + q').value.bitOffset, Extent(b, w, p + [i'] + q'))
  {
    hide Sane, LaidOut, Step, InBounds, StepBits, SizeOf, Skip, Extent;
    WalkBehind(b, w, p, i, q);
    WalkBehind(b, w, p, i', q');
    WalkInside(b, w, p);
    var mid := Steps(b, w, p).value;
    StepGoesOn(b, mid, i);
    StepsApart(b, mid, i, i');
  }

  // ----- from the root -----

  /** Where the first element of an access string leads to. */
  lemma StartAt(b: Btf, typeId: Id, idx: nat)
    requires Sane(b) && typeId < |b.types| && SizeOf(b, typeId).Ok? && 8 * SizeOf(b, typeId).value * (idx + 1) < U32
    ensures Start(b, typeId, idx).Ok?
    ensures var w := Start(b, typeId, idx).value;
      Placed(b, w) && SizeOf(b, w.id) == SizeOf(b, typeId) && w.bitOffset == 8 * SizeOf(b, typeId).value * idx
  {
    SizeSkips(b, typeId);
    hide SizeOf, Skip, Sane;
    ElementStart(idx, SizeOf(b, typeId).value);
  }

  lemma ElementStart(i: nat, sz: nat)
    requires 8 * sz * (i + 1) < U32
    ensures i * sz * 8 % U32 == 8 * sz * i && 8 * sz * i + 8 * sz < U32
  {
    assert i * sz * 8 == 8 * sz * i && 8 * sz * (i + 1) == 8 * sz * i + 8 * sz;
  }

  /** What an access string denotes lies inside the element of the root type that its
      first index names. */
  lemma DenotedInside(b: Btf, typeId: Id, raw: seq<nat>)
    requires Sane(b) && LaidOut(b) && typeId < |b.types| && SizeOf(b, typeId).Ok? && Denotes(b, typeId, raw).Ok?
    requires 8 * SizeOf(b, typeId).value * (raw[0] + 1) < U32
    requires WalkInBounds(b, Start(b, typeId, raw[0]).value, raw[1..])
    ensures var w, from := Denotes(b, typeId, raw).value, 8 * SizeOf(b, typeId).value * raw[0];
      from <= w.bitOffset &&
      w.bitOffset + Extent(b, Start(b, typeId, raw[0]).value, raw[1..]) <= from + 8 * SizeOf(b, typeId).value
  {
    StartAt(b, typeId, raw[0]);
    hide Sane, LaidOut, Start, SizeOf, Skip, Extent;
    WalkInside(b, Start(b, typeId, raw[0]).value, raw[1..]);
  }
}
