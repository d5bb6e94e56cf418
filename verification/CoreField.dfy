/** Field relocations: the bitfield load window, and the macros that read a
    field through the relocated offset, size and shifts. */
module CoreField {
  import opened Basics
  import opened BtfTypes
  import opened BtfMeaning
  import opened CoreSpec
  import opened CoreSearch

  datatype FieldKind = ByteOffset | ByteSize | FieldExists | Signed | LShift | RShift

  /** The relocated aspects of one field. */
  datatype Window = Window(byteOff: nat, byteSz: nat, bitOff: nat, bitSz: nat)

  predicate IsLoadSize(sz: int) { sz == 1 || sz == 2 || sz == 4 || sz == 8 }

  /** The load of `byteSz` bytes at `byteOff` holds the whole field. */
  predicate Inside(w: Window) {
    IsLoadSize(w.byteSz) && w.byteOff * 8 <= w.bitOff && w.bitOff + w.bitSz <= (w.byteOff + w.byteSz) * 8
  }

  /** And it is aligned. */
  predicate Covers(w: Window) {
    Inside(w) && w.byteOff % w.byteSz == 0
  }

  /** The aligned window of `sz` bytes around a bit. */
  function Aligned(bitOff: nat, bitSz: nat, sz: nat): Window
    requires sz > 0
  {
    Window(RoundedDown(bitOff / 8, sz), sz, bitOff, bitSz)
  }

  /** The multiple of `sz` at or below `x`. */
  function RoundedDown(x: nat, sz: nat): nat
    requires sz > 0
  {
    x / sz * sz
  }

  lemma AlignedFacts1(bitOff: nat)
    ensures var o := bitOff / 8 / 1 * 1;
      o % 1 == 0 && o * 8 <= bitOff && bitOff < o * 8 + 8 && bitOff - o * 8 == bitOff % 8
  {
  }

  lemma AlignedFacts2(bitOff: nat)
    ensures var o := bitOff / 8 / 2 * 2;
      o % 2 == 0 && o * 8 <= bitOff && bitOff < o * 8 + 16 && bitOff - o * 8 == bitOff % 16
  {
  }

  lemma AlignedFacts4(bitOff: nat)
    ensures var o := bitOff / 8 / 4 * 4;
      o % 4 == 0 && o * 8 <= bitOff && bitOff < o * 8 + 32 && bitOff - o * 8 == bitOff % 32
  {
  }

  lemma AlignedFacts8(bitOff: nat)
    ensures var o := bitOff / 8 / 8 * 8;
      o % 8 == 0 && o * 8 <= bitOff && bitOff < o * 8 + 64 && bitOff - o * 8 == bitOff % 64
  {
  }

  lemma AlignedFacts(bitOff: nat, sz: nat)
    requires IsLoadSize(sz)
    ensures var o := bitOff / 8 / sz * sz;
      o % sz == 0 && o * 8 <= bitOff && bitOff < o * 8 + sz * 8 && bitOff - o * 8 == bitOff % (sz * 8)
  {
    if sz == 1 {
      AlignedFacts1(bitOff);
    } else if sz == 2 {
      AlignedFacts2(bitOff);
    } else if sz == 4 {
      AlignedFacts4(bitOff);
    } else {
      AlignedFacts8(bitOff);
    }
  }

  /** 32-bit unsigned subtraction. */
  function Sub32(a: nat, b: nat): (r: nat)
    ensures r < U32
  {
    ((a as int - b as int) % U32) as nat
  }

  /** The test of the loop, in 32 bits: the field ends within the window. */
  predicate Holds(bitOff: nat, bitSz: nat, sz: nat)
    requires sz > 0
  {
    Sub32((bitOff + bitSz) % U32, RoundedDown(bitOff / 8, sz) * 8 % U32) <= sz * 8 % U32
  }

  /** The first window, doubling from the storage size while that is below 8
      bytes, that holds the field. */
  function BestWindow(bitOff: nat, bitSz: nat, sz: nat): Result<Window>
    requires sz > 0
    decreases if sz < 8 then 8 - sz else 0
  {
    if Holds(bitOff, bitSz, sz) then Ok(Aligned(bitOff, bitSz, sz))
    else if sz >= 8 then Err(E2Big)
    else BestWindow(bitOff, bitSz, sz * 2)
  }

  /** From a storage size that can be loaded such a window exists exactly when
      the aligned 8 bytes hold the field, it can be loaded, and no smaller one
      holds the field. */
  lemma {:induction false} BestWindowExact(bitOff: nat, bitSz: nat, sz: nat)
    requires bitOff < U32 && bitSz < 0x100 && IsLoadSize(sz)
    ensures var r := BestWindow(bitOff, bitSz, sz);
      && (r.Ok? <==> bitOff % 64 + bitSz <= 64)
      && (r.Ok? ==> Covers(r.value) && r.value.bitOff == bitOff && r.value.bitSz == bitSz && sz <= r.value.byteSz)
      && (r.Ok? ==> forall s: nat :: IsLoadSize(s) && sz <= s < r.value.byteSz ==> !Covers(Aligned(bitOff, bitSz, s)))
    decreases 8 - sz
  {
    AlignedFacts(bitOff, sz);
    HoldsIsCovers(bitOff, bitSz, sz);
    hide Holds;
    if Holds(bitOff, bitSz, sz) {
      Widest(bitOff, bitSz, sz);
    } else if sz < 8 {
      BestWindowExact(bitOff, bitSz, sz * 2);
    }
  }

  /** The wrapped test is the true one, for every storage size the 32-bit
      multiplication by 8 does not wrap. */
  lemma HoldsIff(bitOff: nat, bitSz: nat, sz: nat)
    requires bitOff < U32 && bitSz < 0x100 && 0 < sz < 0x2000_0000 - 32
    ensures var o := RoundedDown(bitOff / 8, sz);
      o % sz == 0 && o * 8 <= bitOff && (Holds(bitOff, bitSz, sz) <==> bitOff + bitSz <= (o + sz) * 8)
  {
    var o := RoundedDown(bitOff / 8, sz);
    DownBounds(bitOff / 8, sz);
    hide RoundedDown, Sub32;
    Difference(bitOff, bitSz, o, sz);
  }

  lemma DownIs(x: nat, sz: nat)
    requires sz > 0
    ensures RoundedDown(x, sz) == x / sz * sz
  {
  }

  lemma DownBounds(x: nat, sz: nat)
    requires sz > 0
    ensures RoundedDown(x, sz) <= x < RoundedDown(x, sz) + sz && RoundedDown(x, sz) % sz == 0
  {
    assert x == sz * (x / sz) + x % sz;
    RemainderIs(x / sz * sz, sz, x / sz, 0);
  }

  lemma HoldsIsCovers(bitOff: nat, bitSz: nat, sz: nat)
    requires bitOff < U32 && bitSz < 0x100 && IsLoadSize(sz)
    ensures Holds(bitOff, bitSz, sz) <==> Covers(Aligned(bitOff, bitSz, sz))
  {
    HoldsIff(bitOff, bitSz, sz);
  }

  /** The bitfield loop of bpf_core_calc_field_relo. */
  method BitfieldWindow(bitOff: nat, bitSz: nat, storageSize: nat) returns (r: Result<Window>)
    requires bitOff < U32 && bitSz < 0x100 && 0 < storageSize < U32
    ensures r == BestWindow(bitOff, bitSz, storageSize)
  {
    var byteSz := storageSize;
    var byteOff: nat := bitOff / 8 / byteSz * byteSz;
    assert byteOff == RoundedDown(bitOff / 8, byteSz);
    hide RoundedDown, Sub32;
    while Sub32((bitOff + bitSz) % U32, byteOff * 8 % U32) > byteSz * 8 % U32
      invariant 0 < byteSz && byteOff == RoundedDown(bitOff / 8, byteSz)
      invariant BestWindow(bitOff, bitSz, byteSz) == BestWindow(bitOff, bitSz, storageSize)
      decreases if byteSz < 8 then 8 - byteSz else 0
    {
      if byteSz >= 8 { return Err(E2Big); }
      byteSz := byteSz * 2;
      byteOff := bitOff / 8 / byteSz * byteSz;
      DownIs(bitOff / 8, byteSz);
    }
    return Ok(Window(byteOff, byteSz, bitOff, bitSz));
  }

  /** The wrapped 32-bit difference is the true one. */
  lemma Difference(bitOff: nat, bitSz: nat, byteOff: nat, byteSz: nat)
    requires bitOff < U32 && bitSz < 0x100 && 0 < byteSz < 0x2000_0000 - 32
    requires byteOff * 8 <= bitOff < byteOff * 8 + byteSz * 8
    ensures Sub32((bitOff + bitSz) % U32, byteOff * 8 % U32) == bitOff + bitSz - byteOff * 8
  {
    assert byteOff * 8 % U32 == byteOff * 8;
    if bitOff + bitSz < U32 {
      assert (bitOff + bitSz) % U32 == bitOff + bitSz;
    } else {
      assert (bitOff + bitSz) % U32 == bitOff + bitSz - U32;
    }
  }

  /** Whatever a smaller aligned window covers, the 8-byte one does. */
  lemma Widest(bitOff: nat, bitSz: nat, sz: nat)
    requires IsLoadSize(sz) && Covers(Aligned(bitOff, bitSz, sz))
    ensures bitOff % 64 + bitSz <= 64
  {
    AlignedFacts(bitOff, sz);
    if sz < 8 { Remainders(bitOff, sz * 8); }
  }

  lemma Remainders(b: nat, k: nat)
    requires k == 8 || k == 16 || k == 32
    ensures b % 64 <= 64 - k + b % k
  {
    if k == 8 { Remainder8(b); } else if k == 16 { Remainder16(b); } else { Remainder32(b); }
  }

  lemma Remainder8(b: nat)
    ensures b % 64 <= 56 + b % 8
  {
    SameRemainder(8, 8, b / 64, b % 64 / 8, b % 64 % 8, b / 8, b % 8);
  }

  lemma Remainder16(b: nat)
    ensures b % 64 <= 48 + b % 16
  {
    SameRemainder(16, 4, b / 64, b % 64 / 16, b % 64 % 16, b / 16, b % 16);
  }

  lemma Remainder32(b: nat)
    ensures b % 64 <= 32 + b % 32
  {
    SameRemainder(32, 2, b / 64, b % 64 / 32, b % 64 % 32, b / 32, b % 32);
  }

  /** Two ways of writing a number as a multiple of `k` plus a remainder. */
  lemma SameRemainder(k: nat, n: nat, q: nat, j: nat, s: nat, t: nat, u: nat)
    requires (k == 8 && n == 8) || (k == 16 && n == 4) || (k == 32 && n == 2)
    requires s < k && u < k && 64 * q + (k * j + s) == k * t + u
    ensures s == u
  {
    if k == 8 {
      assert s - u == 8 * (t - 8 * q - j);
    } else if k == 16 {
      assert s - u == 16 * (t - 4 * q - j);
    } else {
      assert s - u == 32 * (t - 2 * q - j);
    }
  }

  const INT_SIGNED_BIT: nat := 0x100_0000

  /** btf_is_enum(mt) || (btf_int_encoding(mt) & BTF_INT_SIGNED). */
  predicate ReadsSigned(mt: Type) {
    mt.body.Enum? || (mt.body.Int? && mt.body.encoding / INT_SIGNED_BIT % 2 == 1)
  }

  /** One relocated aspect of a window, for a little- or big-endian machine. */
  function Aspect(little: bool, w: Window, kind: FieldKind, signed: bool): Result<nat> {
    match kind
    case ByteOffset => Ok(w.byteOff)
    case ByteSize => Ok(w.byteSz)
    case Signed => Ok(if signed then 1 else 0)
    case LShift => Ok((LShiftOf(little, w) % U32) as nat)
    case RShift => Ok((RShiftOf(w) % U32) as nat)
    case FieldExists => Err(EInval)
  }

  /** The window of a named field: the best load of a bitfield, or the bytes of
      an ordinary field. */
  function FieldWindow(b: Btf, acc: Accessor, bitOffset: nat): Result<Window>
    requires Sane(b) && FieldOk(b, acc)
  {
    var t := b.types[acc.typeId];
    var m := t.body.members[acc.idx];
    var bitSz := MemberBitfieldSize(t, acc.idx);
    if bitSz > 0 then BestWindow(bitOffset, bitSz, SizeOrType(b.types[Skip(b, m.ty)]))
    else match SizeOf(b, m.ty)
      case Err(_) => Err(EInval)
      case Ok(sz) => Ok(Window(bitOffset / 8, sz, bitOffset, sz * 8))
  }

  /** The accessor names a member; the storage size of a bitfield, by which the
      source divides, is not zero. */
  predicate FieldOk(b: Btf, acc: Accessor)
    requires Sane(b)
  {
    && acc.typeId < |b.types| && b.types[acc.typeId].body.Composite?
    && acc.idx < |b.types[acc.typeId].body.members|
    && b.types[acc.typeId].body.members[acc.idx].ty < |b.types|
    && (MemberBitfieldSize(b.types[acc.typeId], acc.idx) > 0 ==>
          0 < SizeOrType(b.types[Skip(b, b.types[acc.typeId].body.members[acc.idx].ty)]) < U32)
  }

  /** bpf_core_calc_field_relo: the relocated value, and whether the original
      value of the instruction is to be validated. */
  method CalcFieldRelo(little: bool, b: Btf, acc: Accessor, bitOffset: nat, kind: FieldKind)
    returns (r: Result<nat>, validate: bool)
    requires Sane(b) && bitOffset < U32 && acc.typeId < |b.types|
    requires acc.name.Some? ==> FieldOk(b, acc)
    ensures acc.name.None? ==> r == match kind {
      case ByteOffset => Ok(bitOffset / 8)
      case ByteSize => if SizeOf(b, acc.typeId).Ok? then SizeOf(b, acc.typeId) else Err(EInval)
      case _ => Err(EInval)
    }
    ensures acc.name.Some? ==>
      var mt := b.types[Skip(b, b.types[acc.typeId].body.members[acc.idx].ty)];
      match FieldWindow(b, acc, bitOffset) {
        case Err(e) => r == Err(e)
        case Ok(w) => r == Aspect(little, w, kind, ReadsSigned(mt))
      }
    ensures r.Ok? && kind == ByteOffset && (acc.name.None? || MemberBitfieldSize(b.types[acc.typeId], acc.idx) == 0) ==>
      8 * r.value <= bitOffset < 8 * r.value + 8
    ensures acc.name.Some? && r.Ok? ==>
      (validate <==> MemberBitfieldSize(b.types[acc.typeId], acc.idx) == 0 || kind == Signed || kind == RShift)
  {
    validate := true;
    if acc.name.None? {
      if kind == ByteOffset { return Ok(bitOffset / 8), true; }
      if kind == ByteSize {
        var size := SizeOf(b, acc.typeId);
        return if size.Ok? then size else Err(EInval), true;
      }
      return Err(EInval), true;
    }
    var t := b.types[acc.typeId];
    var m := t.body.members[acc.idx];
    var mt := b.types[Skip(b, m.ty)];
    var bitSz := MemberBitfieldSize(t, acc.idx);
    var bitfield := bitSz > 0;
    var w: Window;
    if bitfield {
      var best := BitfieldWindow(bitOffset, bitSz, SizeOrType(mt));
      if best.Err? { return Err(best.errno), true; }
      w := best.value;
    } else {
      var size := SizeOf(b, m.ty);
      if size.Err? { return Err(EInval), true; }
      w := Window(bitOffset / 8, size.value, bitOffset, size.value * 8);
    }
    validate := !bitfield;
    match kind {
      case ByteOffset => r := Ok(w.byteOff);
      case ByteSize => r := Ok(w.byteSz);
      case Signed =>
        r := Ok(if mt.body.Enum? || (mt.body.Int? && mt.body.encoding / INT_SIGNED_BIT % 2 == 1) then 1 else 0);
        validate := true;
      case LShift =>
        r := Ok((if little then 64 - (w.bitOff + w.bitSz - w.byteOff * 8)
                 else (8 - w.byteSz) * 8 + (w.bitOff - w.byteOff * 8)) % U32);
      case RShift =>
        r := Ok((64 - w.bitSz) % U32);
        validate := true;
      case FieldExists => r := Err(EInval);
    }
  }

  /** The sign is bit 0 of the encoding of an integer, which is the low half of the
      fourth byte of the word behind its descriptor; enums read as signed. */
  lemma SignIsEncodingBit(t: Type, encoding: nat, offset: nat, bits: nat)
    requires encoding < 16 && offset < 256 && bits < 256
    requires t.body.Int? ==> t.body.encoding == encoding * 0x100_0000 + offset * 0x1_0000 + bits
    ensures ReadsSigned(t) <==> t.body.Enum? || (t.body.Int? && encoding % 2 == 1)
  {
    if t.body.Int? { assert t.body.encoding / INT_SIGNED_BIT == encoding; }
  }

  // ----- reading -----

  /** A 64-bit value, least significant bit first. */
  type Word = b: seq<bool> | |b| == 64 witness seq(64, _ => false)

  function Rep(x: bool, n: nat): seq<bool> { seq(n, _ => x) }

  function Shl(v: Word, n: nat): Word
    requires n <= 64
  {
    Rep(false, n) + v[..64 - n]
  }

  function Shr(v: Word, n: nat): Word
    requires n <= 64
  {
    v[n..] + Rep(false, n)
  }

  /** Arithmetic shift: copies of the top bit come in. */
  function Sar(v: Word, n: nat): Word
    requires n <= 64
  {
    v[n..] + Rep(v[63], n)
  }

  /** Memory as bits, in the order the byte order of the machine numbers them:
      from the least significant bit of each byte on little-endian machines, from
      the most significant on big-endian ones. */
  type Memory = nat -> bool

  function Bits(mem: Memory, at: nat, n: nat): (r: seq<bool>)
    ensures |r| == n
  {
    seq(n, i requires 0 <= i < n => mem(at + i))
  }

  function Reverse(s: seq<bool>): (r: seq<bool>)
    ensures |r| == |s|
  {
    seq(|s|, i requires 0 <= i < |s| => s[|s| - 1 - i])
  }

  /** Loading `sz` bytes into the low-order bytes of a zeroed word. */
  function Load(little: bool, mem: Memory, byteOff: nat, sz: nat): Word
    requires sz <= 8
  {
    var bs := Bits(mem, byteOff * 8, sz * 8);
    (if little then bs else Reverse(bs)) + Rep(false, 64 - sz * 8)
  }

  function LShiftOf(little: bool, w: Window): int {
    if little then 64 - (w.bitOff + w.bitSz - w.byteOff * 8)
    else (8 - w.byteSz) * 8 + (w.bitOff - w.byteOff * 8)
  }

  function RShiftOf(w: Window): int { 64 - w.bitSz }

  /** What a field of `bitSz` bits holds: its bits, zero- or sign-extended. */
  function FieldValue(little: bool, mem: Memory, bitOff: nat, bitSz: nat, signed: bool): Word
    requires 0 < bitSz <= 64
  {
    var bs := Bits(mem, bitOff, bitSz);
    var f := if little then bs else Reverse(bs);
    f + Rep(signed && f[bitSz - 1], 64 - bitSz)
  }

  function ShiftOut(v: Word, lshift: nat, rshift: nat, signed: bool): Word
    requires lshift <= 64 && rshift <= 64
  {
    if signed then Sar(Shl(v, lshift), rshift) else Shr(Shl(v, lshift), rshift)
  }

  /** BPF_CORE_READ_BITFIELD_PROBED: loads exactly the window. */
  function ReadProbed(little: bool, mem: Memory, w: Window, signed: bool): Word
    requires Inside(w) && 0 < w.bitSz
  {
    ShiftOut(Load(little, mem, w.byteOff, w.byteSz), LShiftOf(little, w), RShiftOf(w), signed)
  }

  /** BPF_CORE_READ_BITFIELD: its switch falls through, so whatever the window
      size, the last load is that of 8 bytes. */
  function ReadDirect(little: bool, mem: Memory, w: Window, signed: bool): Word
    requires Inside(w) && 0 < w.bitSz
  {
    ShiftOut(Load(little, mem, w.byteOff, 8), LShiftOf(little, w), RShiftOf(w), signed)
  }

  /** Both shifts together select a run of bits and extend it. */
  lemma ShiftOutBits(v: Word, lshift: nat, rshift: nat, signed: bool)
    requires lshift <= rshift < 64
    ensures ShiftOut(v, lshift, rshift, signed)
      == v[rshift - lshift..64 - lshift] + Rep(signed && v[63 - lshift], rshift)
  {
    DropShl(v, lshift, rshift);
    hide Shl;
  }

  lemma DropShl(v: Word, l: nat, r: nat)
    requires l <= r < 64
    ensures Shl(v, l)[r..] == v[r - l..64 - l] && Shl(v, l)[63] == v[63 - l]
  {
    forall i | 0 <= i < 64 - r ensures Shl(v, l)[r..][i] == v[r - l..64 - l][i] {
      assert Shl(v, l)[r + i] == v[..64 - l][r + i - l];
    }
    assert Shl(v, l)[63] == v[..64 - l][63 - l];
  }

  lemma LoadedField(little: bool, mem: Memory, w: Window, sz: nat)
    requires Inside(w) && 0 < w.bitSz && w.byteSz <= sz <= 8 && (little || sz == w.byteSz)
    ensures var l, r := LShiftOf(little, w), RShiftOf(w);
      && 0 <= l <= r < 64
      && Load(little, mem, w.byteOff, sz)[r - l..64 - l] == FieldValue(little, mem, w.bitOff, w.bitSz, false)[..w.bitSz]
  {
    var l, r := LShiftOf(little, w), RShiftOf(w);
    var got := Load(little, mem, w.byteOff, sz)[r - l..64 - l];
    var want := FieldValue(little, mem, w.bitOff, w.bitSz, false)[..w.bitSz];
    forall i | 0 <= i < w.bitSz ensures got[i] == want[i] {
      if little {
        assert got[i] == Bits(mem, w.byteOff * 8, sz * 8)[r - l + i];
      } else {
        assert got[i] == Reverse(Bits(mem, w.byteOff * 8, sz * 8))[r - l + i];
      }
    }
  }

  /** Reading the window through the shifts yields the field, for every memory. */
  lemma ProbedReadsField(little: bool, mem: Memory, w: Window, signed: bool)
    requires Inside(w) && 0 < w.bitSz
    ensures ReadProbed(little, mem, w, signed) == FieldValue(little, mem, w.bitOff, w.bitSz, signed)
  {
    hide Load, FieldValue, Bits, Reverse, ShiftOut;
    LoadedField(little, mem, w, w.byteSz);
    ShiftOutBits(Load(little, mem, w.byteOff, w.byteSz), LShiftOf(little, w), RShiftOf(w), signed);
    FieldBits(little, mem, w, signed, Load(little, mem, w.byteOff, w.byteSz));
  }

  lemma FieldBits(little: bool, mem: Memory, w: Window, signed: bool, v: Word)
    requires Inside(w) && 0 < w.bitSz
    requires var l, r := LShiftOf(little, w), RShiftOf(w);
      0 <= l <= r < 64 && v[r - l..64 - l] == FieldValue(little, mem, w.bitOff, w.bitSz, false)[..w.bitSz]
    ensures var l, r := LShiftOf(little, w), RShiftOf(w);
      v[r - l..64 - l] + Rep(signed && v[63 - l], r) == FieldValue(little, mem, w.bitOff, w.bitSz, signed)
  {
    var l, r := LShiftOf(little, w), RShiftOf(w);
    assert v[63 - l] == v[r - l..64 - l][w.bitSz - 1];
  }

  /** How many bits the named field has. */
  function FieldBitSize(b: Btf, acc: Accessor): nat
    requires Sane(b) && FieldOk(b, acc)
  {
    var t := b.types[acc.typeId];
    if MemberBitfieldSize(t, acc.idx) > 0 then MemberBitfieldSize(t, acc.idx)
    else match SizeOf(b, t.body.members[acc.idx].ty) { case Ok(sz) => 8 * sz case Err(_) => 0 }
  }

  /** A bitfield of a loadable storage type, or a whole number of bytes that can
      be loaded, starting at a byte. */
  predicate Loadable(b: Btf, acc: Accessor, bitOffset: nat)
    requires Sane(b) && FieldOk(b, acc)
  {
    var t := b.types[acc.typeId];
    var ty := t.body.members[acc.idx].ty;
    if MemberBitfieldSize(t, acc.idx) > 0 then IsLoadSize(SizeOrType(b.types[Skip(b, ty)]))
    else SizeOf(b, ty).Ok? && IsLoadSize(SizeOf(b, ty).value) && bitOffset % 8 == 0
  }

  /** The window of a loadable field, if it has one, holds exactly its bits; an
      ordinary field has one, and a bitfield if 8 aligned bytes hold it. */
  lemma LoadableWindow(b: Btf, acc: Accessor, bitOffset: nat)
    requires Sane(b) && FieldOk(b, acc) && Loadable(b, acc, bitOffset) && bitOffset < U32
    ensures FieldWindow(b, acc, bitOffset).Ok? <==>
      MemberBitfieldSize(b.types[acc.typeId], acc.idx) == 0 || bitOffset % 64 + FieldBitSize(b, acc) <= 64
    ensures FieldWindow(b, acc, bitOffset).Ok? ==>
      var w := FieldWindow(b, acc, bitOffset).value;
      Inside(w) && w.bitOff == bitOffset && w.bitSz == FieldBitSize(b, acc) > 0
  {
    var t := b.types[acc.typeId];
    if MemberBitfieldSize(t, acc.idx) > 0 {
      BestWindowExact(bitOffset, MemberBitfieldSize(t, acc.idx),
                      SizeOrType(b.types[Skip(b, t.body.members[acc.idx].ty)]));
    }
  }

  lemma ShiftsReported(little: bool, w: Window, signed: bool)
    requires 0 <= LShiftOf(little, w) <= RShiftOf(w) < 64
    ensures Aspect(little, w, LShift, signed) == Ok(LShiftOf(little, w))
    ensures Aspect(little, w, RShift, signed) == Ok(RShiftOf(w))
  {
    hide LShiftOf;
  }

  /** BPF_CORE_READ_BITFIELD_PROBED, with the values relocated for the field: it
      reads exactly that field, for every memory and either byte order. There is
      no value if a relocation cannot be satisfied, which is only the case for a
      bitfield that no 8 aligned bytes hold. `mem` starts with the object. */
  method ReadRelocated(little: bool, b: Btf, acc: Accessor, bitOffset: nat, mem: Memory) returns (v: Option<Word>)
    requires Sane(b) && bitOffset < U32 && acc.name.Some? && FieldOk(b, acc) && Loadable(b, acc, bitOffset)
    ensures v.Some? <==>
      MemberBitfieldSize(b.types[acc.typeId], acc.idx) == 0 || bitOffset % 64 + FieldBitSize(b, acc) <= 64
    ensures v.Some? ==> 0 < FieldBitSize(b, acc) <= 64
    ensures v.Some? ==>
      var mt := b.types[Skip(b, b.types[acc.typeId].body.members[acc.idx].ty)];
      v.value == FieldValue(little, mem, bitOffset, FieldBitSize(b, acc), ReadsSigned(mt))
  {
    hide FieldWindow, FieldBitSize, Loadable, Load, ShiftOut, FieldValue, LShiftOf, RShiftOf, Sane, Skip, ReadsSigned;
    LoadableWindow(b, acc, bitOffset);
    var size, _ := CalcFieldRelo(little, b, acc, bitOffset, ByteSize);
    var offset, _ := CalcFieldRelo(little, b, acc, bitOffset, ByteOffset);
    if size.Err? || offset.Err? { return None; }
    ghost var w := FieldWindow(b, acc, bitOffset).value;
    ghost var mt := b.types[Skip(b, b.types[acc.typeId].body.members[acc.idx].ty)];
    LoadedField(little, mem, w, w.byteSz);
    ShiftsReported(little, w, ReadsSigned(mt));
    var lshift, _ := CalcFieldRelo(little, b, acc, bitOffset, LShift);
    var signed, _ := CalcFieldRelo(little, b, acc, bitOffset, Signed);
    var rshift, _ := CalcFieldRelo(little, b, acc, bitOffset, RShift);
    ProbedReadsField(little, mem, w, ReadsSigned(mt));
    return Some(ShiftOut(Load(little, mem, offset.value, size.value), lshift.value, rshift.value, signed.value != 0));
  }

  /** The bytes of an array element, at the relocated offset and of the relocated
      size, are the element. */
  method ReadElement(little: bool, b: Btf, acc: Accessor, bitOffset: nat, mem: Memory) returns (v: Word)
    requires Sane(b) && bitOffset < U32 && acc.name.None? && acc.typeId < |b.types|
    requires SizeOf(b, acc.typeId).Ok? && IsLoadSize(SizeOf(b, acc.typeId).value) && bitOffset % 8 == 0
    ensures v == FieldValue(little, mem, bitOffset, 8 * SizeOf(b, acc.typeId).value, false)
  {
    var size, _ := CalcFieldRelo(little, b, acc, bitOffset, ByteSize);
    var offset, _ := CalcFieldRelo(little, b, acc, bitOffset, ByteOffset);
    assert offset.value * 8 == bitOffset;
    return Load(little, mem, offset.value, size.value);
  }

  /** On little-endian machines the extra high bytes the fall-through loads are
      shifted out again. */
  lemma DirectReadsFieldLittle(mem: Memory, w: Window, signed: bool)
    requires Inside(w) && 0 < w.bitSz
    ensures ReadDirect(true, mem, w, signed) == FieldValue(true, mem, w.bitOff, w.bitSz, signed)
  {
    hide Load, FieldValue, Bits, Reverse, ShiftOut;
    LoadedField(true, mem, w, 8);
    ShiftOutBits(Load(true, mem, w.byteOff, 8), LShiftOf(true, w), RShiftOf(w), signed);
    FieldBits(true, mem, w, signed, Load(true, mem, w.byteOff, 8));
  }

  ghost predicate DirectAlwaysReadsBig(w: Window, signed: bool)
    requires Inside(w) && 0 < w.bitSz
  {
    forall mem: Memory :: ReadDirect(false, mem, w, signed) == FieldValue(false, mem, w.bitOff, w.bitSz, signed)
  }

  /** On big-endian machines the shifts assume the window was loaded alone: the
      fall-through is right exactly when the window has 8 bytes. */
  lemma DirectReadsFieldBig(w: Window, signed: bool)
    requires Inside(w) && 0 < w.bitSz
    ensures DirectAlwaysReadsBig(w, signed) <==> w.byteSz == 8
  {
    if w.byteSz == 8 {
      forall mem: Memory
        ensures ReadDirect(false, mem, w, signed) == FieldValue(false, mem, w.bitOff, w.bitSz, signed)
      {
        ProbedReadsField(false, mem, w, signed);
      }
    } else {
      // a memory in which only the first bit of the field is set
      var mem: Memory := k => k == w.bitOff;
      var l := LShiftOf(false, w);
      ShiftOutBits(Load(false, mem, w.byteOff, 8), l, RShiftOf(w), signed);
      assert !Load(false, mem, w.byteOff, 8)[63 - l];
      assert !ReadDirect(false, mem, w, signed)[w.bitSz - 1];
      assert FieldValue(false, mem, w.bitOff, w.bitSz, signed)[w.bitSz - 1];
    }
  }

  // ----- the shifts as arithmetic -----

  function Value(s: seq<bool>): nat {
    if s == [] then 0 else (if s[0] then 1 else 0) + 2 * Value(s[1..])
  }

  lemma {:induction false} ValueConcat(s: seq<bool>, t: seq<bool>)
    ensures Value(s + t) == Value(s) + Pow2(|s|) * Value(t)
  {
    if s == [] {
      assert s + t == t;
    } else {
      ValueConcat(s[1..], t);
      assert (s + t)[1..] == s[1..] + t;
      assert 2 * (Pow2(|s| - 1) * Value(t)) == 2 * Pow2(|s| - 1) * Value(t);
    }
  }

  lemma {:induction false} ValueBound(s: seq<bool>)
    ensures Value(s) < Pow2(|s|)
  {
    if s != [] { ValueBound(s[1..]); }
  }

  lemma {:induction false} ValueZeros(n: nat)
    ensures Value(Rep(false, n)) == 0
  {
    if n > 0 {
      ValueZeros(n - 1);
      assert Rep(false, n)[1..] == Rep(false, n - 1);
    }
  }

  /** The left shift multiplies, dropping what leaves the word. */
  lemma ShlMultiplies(v: Word, n: nat)
    requires n <= 64
    ensures Value(v) * Pow2(n) == Value(Shl(v, n)) + Pow2(64) * Value(v[64 - n..])
    ensures Value(Shl(v, n)) < Pow2(64)
  {
    ValueConcat(v[..64 - n], v[64 - n..]);
    assert v == v[..64 - n] + v[64 - n..];
    ValueConcat(Rep(false, n), v[..64 - n]);
    ValueZeros(n);
    ValueBound(Shl(v, n));
    Pow2Adds(n, 64 - n);
    hide Value, Pow2, Shl;
    Distributes(Value(v), Value(v[..64 - n]), Value(v[64 - n..]), Pow2(n), Pow2(64 - n), Pow2(64));
  }

  lemma Distributes(v: nat, lo: nat, hi: nat, p: nat, q: nat, pq: nat)
    requires v == lo + q * hi && pq == p * q
    ensures v * p == p * lo + pq * hi
  {
    assert (q * hi) * p == (p * q) * hi;
  }

  /** The logical right shift is the quotient by a power of two. */
  lemma ShrDivides(v: Word, n: nat)
    requires n <= 64
    ensures Value(v) == Pow2(n) * Value(Shr(v, n)) + Value(v[..n]) && Value(v[..n]) < Pow2(n)
  {
    assert v == v[..n] + v[n..];
    ValueConcat(v[..n], v[n..]);
    ValueBound(v[..n]);
    ValueConcat(v[n..], Rep(false, n));
    ValueZeros(n);
  }
}
