/** The BTF type graph: type descriptors, the ids they reference, and the
    structural comparisons and signature hashes the deduplication uses. */
module BtfTypes {

  type Id = nat

  /** BTF_MAX_NR_TYPES; the two sentinels lie above it. */
  const MAX_NR_TYPES: nat := 0x7fff_ffff

  datatype RefKind = Ptr | Typedef | Volatile | Const | Restrict | Func

  datatype Member = Member(name: nat, ty: Id, offset: nat)
  datatype EnumValue = EnumValue(name: nat, val: int)
  datatype Param = Param(name: nat, ty: Id)
  datatype SecVar = SecVar(ty: Id, offset: nat, size: nat)

  /** The kind-specific part of a descriptor. `Array` lists the index type
      first because the equivalence check visits it first. `bits` are the vlen
      bits of the info word of a kind with no trailing array. */
  datatype Body =
    | Void
    | Int(bits: nat, size: nat, encoding: nat)
    | Enum(size: nat, values: seq<EnumValue>)
    | Fwd(bits: nat, fwdType: Id)
    | Ref(kind: RefKind, bits: nat, target: Id)
    | Array(bits: nat, size: nat, index: Id, elem: Id, nelems: nat)
    | Composite(isUnion: bool, size: nat, members: seq<Member>)
    | FuncProto(ret: Id, params: seq<Param>)
    | Var(bits: nat, target: Id, linkage: nat)
    | Datasec(size: nat, vars: seq<SecVar>)

  /** `name` is a string offset; `kflag` is the kind flag of the info word. */
  datatype Type = Type(name: nat, kflag: bool, body: Body)

  type Graph = seq<Type>

  /** The kind bits of the info word. */
  datatype Kind =
    | KVoid | KInt | KEnum | KFwd | KRef(kind: RefKind) | KArray
    | KComposite(isUnion: bool) | KFuncProto | KVar | KDatasec

  function KindOf(t: Type): Kind {
    match t.body
    case Void => KVoid
    case Int(_, _, _) => KInt
    case Enum(_, _) => KEnum
    case Fwd(_, _) => KFwd
    case Ref(k, _, _) => KRef(k)
    case Array(_, _, _, _, _) => KArray
    case Composite(u, _, _) => KComposite(u)
    case FuncProto(_, _) => KFuncProto
    case Var(_, _, _) => KVar
    case Datasec(_, _) => KDatasec
  }

  function Vlen(t: Type): nat {
    match t.body
    case Enum(_, vs) => |vs|
    case Composite(_, _, ms) => |ms|
    case FuncProto(_, ps) => |ps|
    case Datasec(_, vs) => |vs|
    case Int(b, _, _) => b
    case Fwd(b, _) => b
    case Ref(_, b, _) => b
    case Array(b, _, _, _, _) => b
    case Var(b, _, _) => b
    case Void => 0
  }

  /** The `size`/`type` union of the descriptor header. */
  function SizeOrType(t: Type): nat {
    match t.body
    case Void => 0
    case Int(_, s, _) => s
    case Enum(s, _) => s
    case Fwd(_, ty) => ty
    case Ref(_, _, ty) => ty
    case Array(_, s, _, _, _) => s
    case Composite(_, s, _) => s
    case FuncProto(r, _) => r
    case Var(_, ty, _) => ty
    case Datasec(s, _) => s
  }

  // ----- referenced ids -----

  function MemberTypes(ms: seq<Member>): (r: seq<Id>)
    ensures |r| == |ms|
  { seq(|ms|, i requires 0 <= i < |ms| => ms[i].ty) }

  function ParamTypes(ps: seq<Param>): (r: seq<Id>)
    ensures |r| == |ps|
  { seq(|ps|, i requires 0 <= i < |ps| => ps[i].ty) }

  function VarTypes(vs: seq<SecVar>): (r: seq<Id>)
    ensures |r| == |vs|
  { seq(|vs|, i requires 0 <= i < |vs| => vs[i].ty) }

  function Refs(t: Type): seq<Id> {
    match t.body
    case Void => []
    case Int(_, _, _) => []
    case Enum(_, _) => []
    case Fwd(_, ty) => [ty]
    case Ref(_, _, ty) => [ty]
    case Array(_, _, ix, el, _) => [ix, el]
    case Composite(_, _, ms) => MemberTypes(ms)
    case FuncProto(r, ps) => [r] + ParamTypes(ps)
    case Var(_, ty, _) => [ty]
    case Datasec(_, vs) => VarTypes(vs)
  }

  function SetMemberTypes(ms: seq<Member>, rs: seq<Id>): (r: seq<Member>)
    requires |rs| == |ms|
    ensures MemberTypes(r) == rs
  { seq(|ms|, i requires 0 <= i < |ms| => ms[i].(ty := rs[i])) }

  function SetParamTypes(ps: seq<Param>, rs: seq<Id>): (r: seq<Param>)
    requires |rs| == |ps|
    ensures ParamTypes(r) == rs
  { seq(|ps|, i requires 0 <= i < |ps| => ps[i].(ty := rs[i])) }

  function SetVarTypes(vs: seq<SecVar>, rs: seq<Id>): (r: seq<SecVar>)
    requires |rs| == |vs|
    ensures VarTypes(r) == rs
  { seq(|vs|, i requires 0 <= i < |vs| => vs[i].(ty := rs[i])) }

  /** `t` with its referenced ids replaced by `rs`. */
  function SetRefs(t: Type, rs: seq<Id>): (r: Type)
    requires |rs| == |Refs(t)|
    ensures Refs(r) == rs
    ensures KindOf(r) == KindOf(t) && r.name == t.name && r.kflag == t.kflag
  {
    match t.body
    case Void => t
    case Int(_, _, _) => t
    case Enum(_, _) => t
    case Fwd(b, _) => t.(body := Fwd(b, rs[0]))
    case Ref(k, b, _) => t.(body := Ref(k, b, rs[0]))
    case Array(b, s, _, _, n) => t.(body := Array(b, s, rs[0], rs[1], n))
    case Composite(u, s, ms) => t.(body := Composite(u, s, SetMemberTypes(ms, rs)))
    case FuncProto(_, ps) => t.(body := FuncProto(rs[0], SetParamTypes(ps, rs[1..])))
    case Var(b, _, l) => t.(body := Var(b, rs[0], l))
    case Datasec(s, vs) => t.(body := Datasec(s, SetVarTypes(vs, rs)))
  }

  /** Everything a descriptor says apart from which ids it references. */
  function Label(t: Type): Type {
    SetRefs(t, seq(|Refs(t)|, _ => 0))
  }

  lemma SetRefsTwice(t: Type, rs: seq<Id>, rs': seq<Id>)
    requires |rs| == |rs'| == |Refs(t)|
    ensures SetRefs(SetRefs(t, rs), rs') == SetRefs(t, rs')
  {
    match t.body
    case Composite(_, _, ms) =>
      assert SetMemberTypes(SetMemberTypes(ms, rs), rs') == SetMemberTypes(ms, rs');
    case FuncProto(_, ps) =>
      assert SetParamTypes(SetParamTypes(ps, rs[1..]), rs'[1..]) == SetParamTypes(ps, rs'[1..]);
    case Datasec(_, vs) =>
      assert SetVarTypes(SetVarTypes(vs, rs), rs') == SetVarTypes(vs, rs');
    case _ =>
  }

  lemma SetRefsLabel(t: Type, rs: seq<Id>)
    requires |rs| == |Refs(t)|
    ensures Label(SetRefs(t, rs)) == Label(t)
  {
    SetRefsTwice(t, rs, seq(|Refs(t)|, _ => 0));
  }

  lemma SetOwnRefs(t: Type)
    ensures SetRefs(t, Refs(t)) == t
  {
    match t.body
    case Composite(_, _, ms) => assert SetMemberTypes(ms, MemberTypes(ms)) == ms;
    case FuncProto(r, ps) =>
      assert Refs(t)[1..] == ParamTypes(ps);
      assert SetParamTypes(ps, ParamTypes(ps)) == ps;
    case Datasec(_, vs) => assert SetVarTypes(vs, VarTypes(vs)) == vs;
    case _ =>
  }

  /** A descriptor is determined by its label and its references. */
  lemma LabelAndRefs(t1: Type, t2: Type)
    requires Label(t1) == Label(t2) && Refs(t1) == Refs(t2)
    ensures t1 == t2
  {
    SetOwnRefs(t1);
    SetOwnRefs(t2);
    SetRefsTwice(t1, seq(|Refs(t1)|, _ => 0), Refs(t1));
    SetRefsTwice(t2, seq(|Refs(t2)|, _ => 0), Refs(t2));
  }

  // ----- comparisons (btf_equal_* / btf_compat_*) -----

  predicate EqualCommon(t1: Type, t2: Type) {
    && t1.name == t2.name
    && KindOf(t1) == KindOf(t2) && t1.kflag == t2.kflag && Vlen(t1) == Vlen(t2)
    && SizeOrType(t1) == SizeOrType(t2)
  }

  predicate EqualInt(t1: Type, t2: Type)
    requires t1.body.Int?
  {
    EqualCommon(t1, t2) && t1.body.encoding == t2.body.encoding
  }

  predicate EqualEnum(t1: Type, t2: Type)
    requires t1.body.Enum?
  {
    && EqualCommon(t1, t2)
    && forall i :: 0 <= i < |t1.body.values| ==> t1.body.values[i] == t2.body.values[i]
  }

  predicate IsEnumFwd(t: Type) { t.body.Enum? && |t.body.values| == 0 }

  predicate CompatEnum(t1: Type, t2: Type)
    requires t1.body.Enum?
  {
    if !IsEnumFwd(t1) && !IsEnumFwd(t2) then EqualEnum(t1, t2)
    else t1.name == t2.name && KindOf(t1) == KindOf(t2) && t1.kflag == t2.kflag
         && SizeOrType(t1) == SizeOrType(t2)
  }

  predicate ShallowEqualStruct(t1: Type, t2: Type)
    requires t1.body.Composite?
  {
    && EqualCommon(t1, t2)
    && forall i :: 0 <= i < |t1.body.members| ==>
         && t1.body.members[i].name == t2.body.members[i].name
         && t1.body.members[i].offset == t2.body.members[i].offset
  }

  predicate EqualArray(t1: Type, t2: Type)
    requires t1.body.Array?
  {
    && EqualCommon(t1, t2)
    && t1.body.elem == t2.body.elem && t1.body.index == t2.body.index
    && t1.body.nelems == t2.body.nelems
  }

  predicate CompatArray(t1: Type, t2: Type)
    requires t1.body.Array?
  {
    EqualCommon(t1, t2) && t1.body.nelems == t2.body.nelems
  }

  predicate EqualFuncProto(t1: Type, t2: Type)
    requires t1.body.FuncProto?
  {
    && EqualCommon(t1, t2)
    && forall i :: 0 <= i < |t1.body.params| ==> t1.body.params[i] == t2.body.params[i]
  }

  predicate CompatFuncProto(t1: Type, t2: Type)
    requires t1.body.FuncProto?
  {
    && t1.name == t2.name
    && KindOf(t1) == KindOf(t2) && t1.kflag == t2.kflag && Vlen(t1) == Vlen(t2)
    && forall i :: 0 <= i < |t1.body.params| ==> t1.body.params[i].name == t2.body.params[i].name
  }

  /** The comparison used against candidates of the same signature, by kind. */
  predicate EqualByKind(t: Type, cand: Type)
    requires t.body.Int? || t.body.Enum? || t.body.Fwd? || t.body.Ref? || t.body.Array? || t.body.FuncProto?
  {
    match t.body
    case Int(_, _, _) => EqualInt(t, cand)
    case Enum(_, _) => EqualEnum(t, cand)
    case Array(_, _, _, _, _) => EqualArray(t, cand)
    case FuncProto(_, _) => EqualFuncProto(t, cand)
    case _ => EqualCommon(t, cand)
  }

  /** The comparisons of one kind are exactly descriptor equality. */
  lemma EqualByKindIsEquality(t: Type, cand: Type)
    requires t.body.Int? || t.body.Enum? || t.body.Fwd? || t.body.Ref? || t.body.Array? || t.body.FuncProto?
    ensures EqualByKind(t, cand) <==> t == cand
  {
    if EqualByKind(t, cand) {
      match t.body
      case Enum(_, vs) => assert vs == cand.body.values;
      case FuncProto(_, ps) => assert ps == cand.body.params;
      case _ =>
    }
  }

  // ----- signature hashes -----

  /** Two's-complement wrap-around of a 64-bit `long`. */
  function WrapLong(x: int): int {
    (x + 0x8000_0000_0000_0000) % 0x1_0000_0000_0000_0000 - 0x8000_0000_0000_0000
  }

  function HashCombine(h: int, value: int): int { WrapLong(h * 31 + value) }

  function KindNumber(k: Kind): nat {
    match k
    case KVoid => 0
    case KInt => 1
    case KRef(Ptr) => 2
    case KArray => 3
    case KComposite(false) => 4
    case KComposite(true) => 5
    case KEnum => 6
    case KFwd => 7
    case KRef(Typedef) => 8
    case KRef(Volatile) => 9
    case KRef(Const) => 10
    case KRef(Restrict) => 11
    case KRef(Func) => 12
    case KFuncProto => 13
    case KVar => 14
    case KDatasec => 15
  }

  /** The info word without its vlen bits. */
  function InfoNoVlen(t: Type): nat {
    (if t.kflag then 0x8000_0000 else 0) + KindNumber(KindOf(t)) * 0x100_0000
  }

  /** The words that enter the signature hash of a descriptor, in order. Enum
      values and the vlen of an enum stay out so that valueless enums collide
      with full ones; struct members contribute names and offsets only. */
  function Signature(t: Type): seq<int> {
    match t.body
    case Int(_, _, enc) => HeaderWords(t) + [enc]
    case Enum(_, _) => [t.name, InfoNoVlen(t), SizeOrType(t)]
    case Array(_, _, ix, el, n) => HeaderWords(t) + [el, ix, n]
    case Composite(_, _, ms) => HeaderWords(t) + MemberWords(ms)
    case FuncProto(_, ps) => HeaderWords(t) + ParamWords(ps)
    case _ => HeaderWords(t)
  }

  function HeaderWords(t: Type): seq<int> {
    [t.name, InfoNoVlen(t) + Vlen(t), SizeOrType(t)]
  }

  function MemberWords(ms: seq<Member>): seq<int> {
    if ms == [] then [] else [ms[0].name, ms[0].offset] + MemberWords(ms[1..])
  }

  function ParamWords(ps: seq<Param>): seq<int> {
    if ps == [] then [] else [ps[0].name, ps[0].ty] + ParamWords(ps[1..])
  }

  function HashWords(words: seq<int>): int {
    if words == [] then 0
    else HashCombine(HashWords(words[..|words| - 1]), words[|words| - 1])
  }

  function Hash(t: Type): int { HashWords(Signature(t)) }
}
