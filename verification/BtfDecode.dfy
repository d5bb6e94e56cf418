/** The records of the type section as descriptors, in little-endian order, and
    the compaction of the bytes as a compaction of what they decode to. */
module BtfDecode {
  import opened Basics
  import opened BtfTypes
  import opened BtfFinal
  import opened BtfBytes

  /** The 32-bit word at `at`. */
  function Word(d: Bytes, at: nat): nat
    requires at + 4 <= |d|
  {
    (d[at] as nat) + 0x100 * (d[at + 1] as nat) + 0x1_0000 * (d[at + 2] as nat) + 0x100_0000 * (d[at + 3] as nat)
  }

  predicate Sized(d: Bytes, at: nat) {
    at + HEADER <= |d| && TypeSize(d, at) >= 0 && at + TypeSize(d, at) <= |d|
  }

  function KindBits(d: Bytes, at: nat): nat
    requires at + HEADER <= |d|
  {
    (d[at + 7] as nat) % 16
  }

  function VlenBits(d: Bytes, at: nat): nat
    requires at + HEADER <= |d|
  {
    (d[at + 4] as nat) + 0x100 * (d[at + 5] as nat)
  }

  /** How many bytes the entries behind the header take. */
  function EntrySize(kind: nat): nat {
    if kind == 4 || kind == 5 || kind == 15 then 12 else if kind == 6 || kind == 13 then 8 else 0
  }

  lemma EntriesInside(d: Bytes, at: nat, i: nat)
    requires Sized(d, at) && i < VlenBits(d, at) && EntrySize(KindBits(d, at)) > 0
    ensures at + HEADER + EntrySize(KindBits(d, at)) * (i + 1) <= at + TypeSize(d, at) <= |d|
  {
  }

  /** Word `j` of entry `i`. */
  function EntryWord(d: Bytes, at: nat, i: nat, j: nat): nat
    requires Sized(d, at) && i < VlenBits(d, at) && 4 * (j + 1) <= EntrySize(KindBits(d, at))
  {
    EntriesInside(d, at, i);
    Word(d, at + HEADER + EntrySize(KindBits(d, at)) * i + 4 * j)
  }

  /** The record at `at` as a descriptor. */
  function Decode(d: Bytes, at: nat): Type
    requires Sized(d, at)
  {
    Type(Word(d, at), (d[at + 7] as nat) / 128 == 1, DecodeBody(d, at))
  }

  function DecodeBody(d: Bytes, at: nat): Body
    requires Sized(d, at)
  {
    var kind, vlen, st := KindBits(d, at), VlenBits(d, at), Word(d, at + 8);
    if kind == 1 then Int(vlen, st, Word(d, at + 12))
    else if kind == 2 then Ref(Ptr, vlen, st)
    else if kind == 3 then Array(vlen, st, Word(d, at + 16), Word(d, at + 12), Word(d, at + 20))
    else if kind == 4 || kind == 5 then
      Composite(kind == 5, st, seq(vlen, i requires 0 <= i < vlen =>
        Member(EntryWord(d, at, i, 0), EntryWord(d, at, i, 1), EntryWord(d, at, i, 2))))
    else if kind == 6 then
      Enum(st, seq(vlen, i requires 0 <= i < vlen => EnumValue(EntryWord(d, at, i, 0), EntryWord(d, at, i, 1))))
    else if kind == 7 then Fwd(vlen, st)
    else if kind == 8 then Ref(Typedef, vlen, st)
    else if kind == 9 then Ref(Volatile, vlen, st)
    else if kind == 10 then Ref(Const, vlen, st)
    else if kind == 11 then Ref(Restrict, vlen, st)
    else if kind == 12 then Ref(Func, vlen, st)
    else if kind == 13 then
      FuncProto(st, seq(vlen, i requires 0 <= i < vlen => Param(EntryWord(d, at, i, 0), EntryWord(d, at, i, 1))))
    else if kind == 14 then Var(vlen, st, Word(d, at + 12))
    else
      Datasec(st, seq(vlen, i requires 0 <= i < vlen =>
        SecVar(EntryWord(d, at, i, 0), EntryWord(d, at, i, 1), EntryWord(d, at, i, 2))))
  }

  /** The kind and the length that the source reads off the info word. */
  lemma DecodedKind(d: Bytes, at: nat)
    requires Sized(d, at)
    ensures KindNumber(KindOf(Decode(d, at))) == KindBits(d, at)
    ensures Vlen(Decode(d, at)) == VlenBits(d, at) && SizeOrType(Decode(d, at)) == Word(d, at + 8)
  {
  }

  // ----- records that are equal byte for byte -----

  ghost predicate SameBytes(d: Bytes, at: nat, d': Bytes, at': nat, n: nat) {
    at + n <= |d| && at' + n <= |d'| && d[at..at + n] == d'[at'..at' + n]
  }

  lemma SameByte(d: Bytes, at: nat, d': Bytes, at': nat, n: nat, k: nat)
    requires SameBytes(d, at, d', at', n) && k < n
    ensures d[at + k] == d'[at' + k]
  {
    assert d[at..at + n][k] == d'[at'..at' + n][k];
  }

  lemma SameWord(d: Bytes, at: nat, d': Bytes, at': nat, n: nat, k: nat)
    requires SameBytes(d, at, d', at', n) && k + 4 <= n
    ensures Word(d, at + k) == Word(d', at' + k)
  {
    SameByte(d, at, d', at', n, k);
    SameByte(d, at, d', at', n, k + 1);
    SameByte(d, at, d', at', n, k + 2);
    SameByte(d, at, d', at', n, k + 3);
  }

  lemma SameHeader(d: Bytes, at: nat, d': Bytes, at': nat, n: nat)
    requires SameBytes(d, at, d', at', n) && HEADER <= n
    ensures TypeSize(d, at) == TypeSize(d', at') && KindBits(d, at) == KindBits(d', at')
    ensures VlenBits(d, at) == VlenBits(d', at') && d[at + 7] == d'[at' + 7]
  {
    SameByte(d, at, d', at', n, 4);
    SameByte(d, at, d', at', n, 5);
    SameByte(d, at, d', at', n, 7);
  }

  lemma SameEntry(d: Bytes, at: nat, d': Bytes, at': nat, i: nat, j: nat)
    requires Sized(d, at) && SameBytes(d, at, d', at', TypeSize(d, at)) && Sized(d', at')
    requires KindBits(d, at) == KindBits(d', at') && VlenBits(d, at) == VlenBits(d', at')
    requires i < VlenBits(d, at) && 4 * (j + 1) <= EntrySize(KindBits(d, at))
    ensures EntryWord(d, at, i, j) == EntryWord(d', at', i, j)
  {
    hide SameBytes, TypeSize, KindBits, VlenBits, Word;
    EntriesInside(d, at, i);
    EntriesInside(d', at', i);
    SameWord(d, at, d', at', TypeSize(d, at), HEADER + EntrySize(KindBits(d, at)) * i + 4 * j);
  }

  /** Equal bytes decode to equal descriptors. */
  lemma SameDecode(d: Bytes, at: nat, d': Bytes, at': nat)
    requires Sized(d, at) && SameBytes(d, at, d', at', TypeSize(d, at))
    ensures Sized(d', at') && TypeSize(d', at') == TypeSize(d, at) && Decode(d', at') == Decode(d, at)
  {
    var n := TypeSize(d, at);
    SizeBounds(d, at);
    SameHeader(d, at, d', at', n);
    SameWord(d, at, d', at', n, 0);
    SameWord(d, at, d', at', n, 8);
    if n >= HEADER + 4 { SameWord(d, at, d', at', n, 12); }
    if n >= HEADER + 12 {
      SameWord(d, at, d', at', n, 16);
      SameWord(d, at, d', at', n, 20);
    }
    SameEntries(d, at, d', at');
    SameBody(d, at, d', at');
  }

  lemma SameBody(d: Bytes, at: nat, d': Bytes, at': nat)
    requires Sized(d, at) && Sized(d', at') && TypeSize(d, at) == TypeSize(d', at')
    requires KindBits(d, at) == KindBits(d', at') && VlenBits(d, at) == VlenBits(d', at')
    requires Word(d, at + 8) == Word(d', at' + 8)
    requires TypeSize(d, at) >= HEADER + 4 ==> Word(d, at + 12) == Word(d', at' + 12)
    requires TypeSize(d, at) >= HEADER + 12 ==>
      Word(d, at + 16) == Word(d', at' + 16) && Word(d, at + 20) == Word(d', at' + 20)
    requires forall i, j :: 0 <= i < VlenBits(d, at) && 0 <= j && 4 * (j + 1) <= EntrySize(KindBits(d, at)) ==>
      EntryWord(d, at, i, j) == EntryWord(d', at', i, j)
    ensures DecodeBody(d, at) == DecodeBody(d', at')
  {
    SizeBounds(d, at);
    hide Word, EntryWord, TypeSize, KindBits, VlenBits;
    var b, b' := DecodeBody(d, at), DecodeBody(d', at');
    match b
    case Composite(_, _, ms) => assert ms == b'.members;
    case Enum(_, vs) => assert vs == b'.values;
    case FuncProto(_, ps) => assert ps == b'.params;
    case Datasec(_, vs) => assert vs == b'.vars;
    case _ =>
  }

  lemma SizeBounds(d: Bytes, at: nat)
    requires at + HEADER <= |d| && TypeSize(d, at) >= 0
    ensures TypeSize(d, at) >= HEADER
    ensures KindBits(d, at) == 1 || KindBits(d, at) == 14 ==> TypeSize(d, at) >= HEADER + 4
    ensures KindBits(d, at) == 3 ==> TypeSize(d, at) >= HEADER + 12
  {
  }

  lemma SameEntries(d: Bytes, at: nat, d': Bytes, at': nat)
    requires Sized(d, at) && SameBytes(d, at, d', at', TypeSize(d, at)) && Sized(d', at')
    requires KindBits(d, at) == KindBits(d', at') && VlenBits(d, at) == VlenBits(d', at')
    ensures forall i, j :: 0 <= i < VlenBits(d, at) && 0 <= j && 4 * (j + 1) <= EntrySize(KindBits(d, at)) ==>
      EntryWord(d, at, i, j) == EntryWord(d', at', i, j)
  {
    forall i, j | 0 <= i < VlenBits(d, at) && 0 <= j && 4 * (j + 1) <= EntrySize(KindBits(d, at))
      ensures EntryWord(d, at, i, j) == EntryWord(d', at', i, j)
    {
      SameEntry(d, at, d', at', i, j);
    }
  }

  // ----- compaction of bytes is compaction of descriptors -----

  /** The records decode to the descriptors of `g`. */
  ghost predicate Decodes(d: Bytes, at: seq<nat>, g: Graph) {
    && |g| == |at| - 1
    && forall i: nat :: 1 <= i < |g| ==> DecodesAt(d, at, g, i)
  }

  ghost predicate DecodesAt(d: Bytes, at: seq<nat>, g: Graph, i: nat)
    requires i < |g| && i < |at| - 1
  {
    Sized(d, at[i]) && at[i + 1] == at[i] + TypeSize(d, at[i]) && Decode(d, at[i]) == g[i]
  }

  lemma DecodesLaid(d: Bytes, at: seq<nat>, g: Graph)
    requires Decodes(d, at, g) && |at| >= 2
    ensures Laid(d, at)
  {
    forall i: nat | 1 <= i < |at| - 1 ensures LaidAt(d, at, i) {
      assert DecodesAt(d, at, g, i);
      SizeBounds(d, at[i]);
    }
  }

  /** The pointer table after compaction, with the end of the last record. */
  function NewTable(m: seq<nat>, o: seq<nat>, p: nat): (r: seq<nat>)
    requires CanonCount(m, |m|) < |o|
    ensures |r| == CanonCount(m, |m|) + 2
  {
    o[..CanonCount(m, |m|) + 1] + [p]
  }

  /** Compacting the bytes of a graph leaves the bytes of the compacted graph,
      and both assign the same new ids. */
  lemma CompactionRefines(d0: Bytes, at: seq<nat>, g: Graph, m: seq<nat>, strings: nat, strLen: nat,
                          d: Bytes, o: seq<nat>, h: seq<nat>, p: nat, f: Graph, h': seq<nat>)
    requires Laid(d0, at) && |m| == |at| - 1 && strings + strLen <= |d0| && Decodes(d0, at, g)
    requires Compacted(d0, at, m, strings, strLen, d, o, h, p) && Packing(g, m, f, h', |m|)
    ensures h == h' && CanonCount(m, |m|) < |f| == |o|
    ensures Decodes(d, NewTable(m, o, p), f[..CanonCount(m, |m|) + 1]) && Laid(d, NewTable(m, o, p))
  {
    hide Laid, Compacted, Packing, CanonCount, NewId, Decode, TypeSize, Decodes;
    CompactedIds(d0, at, m, strings, strLen, d, o, h, p);
    CountBelow(m);
    SameIds(g, m, f, h', h);
    var at', f' := NewTable(m, o, p), f[..CanonCount(m, |m|) + 1];
    forall k: nat | 1 <= k < |f'| ensures DecodesAt(d, at', f', k) {
      var i := NewIdOnto(m, |m|, k);
      RecordDecodes(d0, at, g, m, strings, strLen, d, o, h, p, i);
      PackedDescriptor(g, m, f, h', i);
    }
    AllDecode(d, at', f');
    DecodesLaid(d, at', f');
  }

  lemma AllDecode(d: Bytes, at: seq<nat>, g: Graph)
    requires |g| == |at| - 1 && forall i: nat :: 1 <= i < |g| ==> DecodesAt(d, at, g, i)
    ensures Decodes(d, at, g)
  {
  }

  lemma CompactedIds(d0: Bytes, at: seq<nat>, m: seq<nat>, strings: nat, strLen: nat,
                     d: Bytes, o: seq<nat>, h: seq<nat>, p: nat)
    requires Laid(d0, at) && |m| == |at| - 1 && strings + strLen <= |d0|
    requires Compacted(d0, at, m, strings, strLen, d, o, h, p)
    ensures IdsAssigned(m, h, |m|) && |o| == |m| > 0
  {
  }

  lemma SameIds(g: Graph, m: seq<nat>, f: Graph, h': seq<nat>, h: seq<nat>)
    requires Packing(g, m, f, h', |m|) && IdsAssigned(m, h, |m|)
    ensures h == h' && |g| == |f| == |m|
  {
    forall j | 0 <= j < |m| ensures h[j] == h'[j] {
      if j > 0 { assert PackedAt(g, m, f, h', j); }
    }
  }

  lemma PackedDescriptor(g: Graph, m: seq<nat>, f: Graph, h': seq<nat>, i: nat)
    requires Packing(g, m, f, h', |m|) && 1 <= i < |m| && m[i] == i
    ensures NewId(m, i) < |f| && f[NewId(m, i)] == g[i]
  {
    assert PackedAt(g, m, f, h', i);
  }

  /** The record of a canonical type decodes where it now is to what it was. */
  lemma RecordDecodes(d0: Bytes, at: seq<nat>, g: Graph, m: seq<nat>, strings: nat, strLen: nat,
                      d: Bytes, o: seq<nat>, h: seq<nat>, p: nat, i: nat)
    requires Laid(d0, at) && |m| == |at| - 1 && strings + strLen <= |d0| && Decodes(d0, at, g)
    requires Compacted(d0, at, m, strings, strLen, d, o, h, p)
    requires 1 <= i < |m| && m[i] == i
    ensures |o| == |m| && 1 <= NewId(m, i) <= CanonCount(m, |m|) < |m|
    ensures var to := o[NewId(m, i)];
      Sized(d, to) && Decode(d, to) == g[i] &&
      to + TypeSize(d, to) == if NewId(m, i) < CanonCount(m, |m|) then o[NewId(m, i) + 1] else p
  {
    hide Laid, Compacted, CanonCount, NewId, Decode, TypeSize;
    CompactedRecord(d0, at, m, strings, strLen, d, o, h, p, i);
    CompactedNext(d0, at, m, strings, strLen, d, o, h, p, i);
    assert DecodesAt(d0, at, g, i);
    SameDecode(d0, at[i], d, o[NewId(m, i)]);
  }
}
