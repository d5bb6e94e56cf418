/** CO-RE field specs: the accessor walk over a BTF, and the search that matches
    a local spec against a target type. */
module CoreSpec {
  import opened Basics
  import opened BtfTypes
  import opened BtfMeaning

  datatype Errno = EInval | E2Big

  datatype Result<+T> = Ok(value: T) | Err(errno: Errno)

  const SPEC_MAX_LEN: nat := 64
  const U32: nat := 0x1_0000_0000
  const MAX_RESOLVE_DEPTH: nat := 32

  /** A BTF: its types, and the string each string offset reads. */
  datatype Btf = Btf(types: Graph, strs: nat -> string)

  predicate IsSkipped(t: Type) { t.body.Ref? && t.body.kind != Ptr && t.body.kind != Func }

  /** Modifiers, typedefs and arrays form no cycle. */
  ghost predicate Chained(g: Graph, rank: seq<nat>) {
    && |rank| == |g|
    && (forall i :: 0 <= i < |g| && IsSkipped(g[i]) ==> g[i].body.target < |g| && rank[g[i].body.target] < rank[i])
    && (forall i :: 0 <= i < |g| && g[i].body.Array? ==> g[i].body.elem < |g| && rank[g[i].body.elem] < rank[i])
  }

  ghost predicate Sane(b: Btf) {
    Closed(b.types) && b.types[0].body.Void? && exists rank :: Chained(b.types, rank)
  }

  ghost function RankOf(b: Btf): (rank: seq<nat>)
    requires Sane(b)
    ensures Chained(b.types, rank)
  {
    var rank :| Chained(b.types, rank); rank
  }

  /** skip_mods_and_typedefs inside the graph. */
  function Skip(b: Btf, id: Id): (r: Id)
    requires Sane(b) && id < |b.types|
    ensures r < |b.types| && !IsSkipped(b.types[r])
    decreases RankOf(b)[id]
  {
    if IsSkipped(b.types[id]) then Skip(b, b.types[id].body.target) else id
  }

  lemma {:induction false} SkipIdempotent(b: Btf, id: Id)
    requires Sane(b) && id < |b.types|
    ensures Skip(b, Skip(b, id)) == Skip(b, id)
  {
  }

  /** btf__resolve_size. */
  function ResolveSize(b: Btf, id: Id, nelems: nat, depth: nat): Result<nat>
    requires id < |b.types| && Closed(b.types)
    decreases MAX_RESOLVE_DEPTH - depth
  {
    if depth >= MAX_RESOLVE_DEPTH then Err(EInval) else
    match b.types[id].body
    case Void => Err(EInval)
    case Fwd(_, _) => Err(EInval)
    case Int(_, s, _) => Total(nelems, s)
    case Composite(_, s, _) => Total(nelems, s)
    case Enum(s, _) => Total(nelems, s)
    case Datasec(s, _) => Total(nelems, s)
    case Ref(Ptr, _, _) => Total(nelems, 8)
    case Ref(Func, _, _) => Err(EInval)
    case Ref(_, _, ty) => (assert Refs(b.types[id])[0] == ty; ResolveSize(b, ty, nelems, depth + 1))
    case Var(_, ty, _) => (assert Refs(b.types[id])[0] == ty; ResolveSize(b, ty, nelems, depth + 1))
    case Array(_, _, _, el, n) =>
      if nelems > 0 && n > (U32 - 1) / nelems then Err(E2Big)
      else (assert Refs(b.types[id])[1] == el; ResolveSize(b, el, nelems * n % U32, depth + 1))
    case FuncProto(_, _) => Err(EInval)
  }

  function Total(nelems: nat, size: nat): Result<nat> {
    if nelems > 0 && size > (U32 - 1) / nelems then Err(E2Big) else Ok(nelems * size)
  }

  function SizeOf(b: Btf, id: Id): Result<nat>
    requires id < |b.types| && Closed(b.types)
  {
    ResolveSize(b, id, 1, 0)
  }

  /** btf_member_bit_offset. */
  function MemberBitOffset(t: Type, i: nat): nat
    requires t.body.Composite? && i < |t.body.members|
  {
    if t.kflag then t.body.members[i].offset % 0x100_0000 else t.body.members[i].offset
  }

  /** btf_member_bitfield_size. */
  function MemberBitfieldSize(t: Type, i: nat): nat
    requires t.body.Composite? && i < |t.body.members|
  {
    if t.kflag then t.body.members[i].offset / 0x100_0000 % 0x100 else 0
  }

  /** A high-level accessor: a named field, or an array index (no name). */
  datatype Accessor = Accessor(typeId: Id, idx: nat, name: Option<string>)

  /** Where a walk has come: the type reached, the accessors passed, the bit offset. */
  datatype Walk = Walk(id: Id, accs: seq<Accessor>, bitOffset: nat)

  /** is_flex_arr: a zero-length array that is the last member of its struct. */
  predicate IsFlexArr(b: Btf, acc: Accessor, nelems: nat) {
    && acc.name.Some? && nelems == 0
    && acc.typeId < |b.types| && acc.idx + 1 == Vlen(b.types[acc.typeId])
  }

  /** The first element of an access string: an index into an array of the root type. */
  function Start(b: Btf, typeId: Id, idx: nat): (r: Result<Walk>)
    requires Sane(b)
    ensures r.Ok? ==> r.value.id < |b.types| && |r.value.accs| == 1
  {
    if typeId >= |b.types| then Err(EInval) else
    var id := Skip(b, typeId);
    match SizeOf(b, id)
    case Err(e) => Err(e)
    case Ok(sz) => Ok(Walk(id, [Accessor(id, idx, None)], idx * sz * 8 % U32))
  }

  /** One further element: a member index or an array index. */
  function Step(b: Btf, w: Walk, idx: nat): (r: Result<Walk>)
    requires Sane(b) && w.id < |b.types| && w.accs != []
    ensures r.Ok? ==> r.value.id < |b.types| && w.accs <= r.value.accs
  {
    var id := Skip(b, w.id);
    var t := b.types[id];
    match t.body
    case Composite(_, _, ms) =>
      if idx >= |ms| then Err(EInval) else
      var off := (w.bitOffset + MemberBitOffset(t, idx)) % U32;
      assert Refs(t)[idx] == ms[idx].ty;
      if ms[idx].name == 0 then Ok(Walk(ms[idx].ty, w.accs, off))
      else if b.strs(ms[idx].name) == "" then Err(EInval)
      else Ok(Walk(ms[idx].ty, w.accs + [Accessor(id, idx, Some(b.strs(ms[idx].name)))], off))
    case Array(_, _, _, elem, nelems) =>
      assert Refs(t)[1] == elem;
      var el := Skip(b, elem);
      if !IsFlexArr(b, w.accs[|w.accs| - 1], nelems) && idx >= nelems then Err(EInval) else
      (match SizeOf(b, el)
       case Err(e) => Err(e)
       case Ok(sz) => Ok(Walk(el, w.accs + [Accessor(el, idx, None)], (w.bitOffset + idx * sz * 8) % U32)))
    case _ => Err(EInval)
  }

  function Steps(b: Btf, w: Walk, raw: seq<nat>): (r: Result<Walk>)
    requires Sane(b) && w.id < |b.types| && w.accs != []
    ensures r.Ok? ==> r.value.id < |b.types| && w.accs <= r.value.accs
    decreases |raw|
  {
    if raw == [] then Ok(w) else
    match Steps(b, w, raw[..|raw| - 1])
    case Err(e) => Err(e)
    case Ok(w') => Step(b, w', raw[|raw| - 1])
  }

  /** What an access string denotes. */
  function Denotes(b: Btf, typeId: Id, raw: seq<nat>): Result<Walk>
    requires Sane(b)
  {
    if raw == [] then Err(EInval)
    else if |raw| > SPEC_MAX_LEN then Err(E2Big)
    else match Start(b, typeId, raw[0])
      case Err(e) => Err(e)
      case Ok(w) => Steps(b, w, raw[1..])
  }

  lemma {:induction false} StepsThen(b: Btf, w: Walk, raw1: seq<nat>, raw2: seq<nat>)
    requires Sane(b) && w.id < |b.types| && w.accs != [] && Steps(b, w, raw1).Ok?
    ensures Steps(b, w, raw1 + raw2) == Steps(b, Steps(b, w, raw1).value, raw2)
    decreases |raw2|
  {
    var w1 := Steps(b, w, raw1).value;
    if raw2 == [] {
      assert raw1 + raw2 == raw1;
    } else {
      StepsThen(b, w, raw1, raw2[..|raw2| - 1]);
      assert (raw1 + raw2)[..|raw1 + raw2| - 1] == raw1 + raw2[..|raw2| - 1];
    }
  }

  lemma StepsOne(b: Btf, w: Walk, i: nat)
    requires Sane(b) && w.id < |b.types| && w.accs != []
    ensures Steps(b, w, [i]) == Step(b, w, i)
  {
    assert Steps(b, w, [i][..0]) == Ok(w);
  }

  lemma DenotesNothing(b: Btf, typeId: Id, access: seq<nat>)
    requires Sane(b)
    ensures access == [] ==> Denotes(b, typeId, access) == Err(EInval)
    ensures |access| > SPEC_MAX_LEN ==> Denotes(b, typeId, access) == Err(E2Big)
  {
  }

  ghost predicate StartsAt(b: Btf, typeId: Id, access: seq<nat>, w: Walk)
    requires Sane(b) && access != []
  {
    && w.id < |b.types| && w.accs != [] && Steps(b, w, access[1..1]) == Ok(w)
    && Denotes(b, typeId, access) == Steps(b, w, access[1..])
  }

  /** The first element of the access string. */
  lemma StepsStart(b: Btf, typeId: Id, access: seq<nat>)
    requires Sane(b) && 0 < |access| <= SPEC_MAX_LEN
    ensures Start(b, typeId, access[0]).Err? ==> Denotes(b, typeId, access) == Err(Start(b, typeId, access[0]).errno)
    ensures Start(b, typeId, access[0]).Ok? ==> StartsAt(b, typeId, access, Start(b, typeId, access[0]).value)
  {
  }

  /** One more element of the access string. */
  lemma StepsNext(b: Btf, w: Walk, access: seq<nat>, i: nat, w1: Walk)
    requires Sane(b) && w.id < |b.types| && w.accs != [] && 1 <= i < |access|
    requires Steps(b, w, access[1..i]) == Ok(w1)
    ensures w1.id < |b.types| && w1.accs != []
    ensures Steps(b, w, access[1..i + 1]) == Step(b, w1, access[i])
    ensures Steps(b, w, access[1..]).Ok? ==> Step(b, w1, access[i]).Ok?
    ensures Step(b, w1, access[i]).Err? ==> Steps(b, w, access[1..]) == Step(b, w1, access[i])
  {
    hide Sane, Step;
    assert access[1..i + 1][..i - 1] == access[1..i];
    assert access[1..] == access[1..i + 1] + access[i + 1..];
    if Step(b, w1, access[i]).Err? { StepsFail(b, w, access[1..i + 1], access[i + 1..]); }
  }

  /** A walk that fails fails whatever follows. */
  lemma {:induction false} StepsFail(b: Btf, w: Walk, raw1: seq<nat>, raw2: seq<nat>)
    requires Sane(b) && w.id < |b.types| && w.accs != [] && Steps(b, w, raw1).Err?
    ensures Steps(b, w, raw1 + raw2) == Steps(b, w, raw1)
    decreases |raw2|
  {
    if raw2 == [] {
      assert raw1 + raw2 == raw1;
    } else {
      StepsFail(b, w, raw1, raw2[..|raw2| - 1]);
      assert (raw1 + raw2)[..|raw1 + raw2| - 1] == raw1 + raw2[..|raw2| - 1];
    }
  }

  /** Walking from a type is walking from what it stands for. */
  lemma {:induction false} StepsSkip(b: Btf, w: Walk, raw: seq<nat>)
    requires Sane(b) && w.id < |b.types| && w.accs != [] && raw != []
    ensures Steps(b, w, raw) == Steps(b, w.(id := Skip(b, w.id)), raw)
    decreases |raw|
  {
    SkipIdempotent(b, w.id);
    var w' := w.(id := Skip(b, w.id));
    if |raw| == 1 {
      assert raw[..0] == [];
    } else {
      StepsSkip(b, w, raw[..|raw| - 1]);
    }
  }
}
