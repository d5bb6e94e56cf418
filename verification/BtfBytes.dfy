/** Compaction of the type section on the bytes themselves: the records of the
    canonical types are moved down over the others in one buffer, the pointer
    table is packed in place beside them, and the strings follow without a gap. */
module BtfBytes {
  import opened BtfTypes
  import opened BtfFinal
  import opened Basics
  import opened IdForest

  const HEADER := 12

  /** btf_type_size of the record at `at`: the kind is in the upper bits of the
      info word, the number of trailing entries in the lower ones. */
  function TypeSize(d: Bytes, at: nat): int
    requires at + HEADER <= |d|
  {
    var kind := (d[at + 7] as int) % 16;
    var vlen := (d[at + 4] as int) + 256 * (d[at + 5] as int);
    if kind in {7, 10, 9, 11, 2, 8, 12} then HEADER
    else if kind == 1 then HEADER + 4
    else if kind == 6 then HEADER + vlen * 8
    else if kind == 3 then HEADER + 12
    else if kind == 4 || kind == 5 then HEADER + vlen * 12
    else if kind == 13 then HEADER + vlen * 8
    else if kind == 14 then HEADER + 4
    else if kind == 15 then HEADER + vlen * 12
    else -1
  }

  /** The records lie one behind the other: `at[i]` is where record `i` starts,
      and the last entry is where the last record ends. */
  ghost predicate Laid(d: Bytes, at: seq<nat>) {
    |at| >= 2 && forall i: nat :: 1 <= i < |at| - 1 ==> LaidAt(d, at, i)
  }

  ghost predicate LaidAt(d: Bytes, at: seq<nat>, i: nat)
    requires 1 <= i < |at| - 1
  {
    && at[i] + HEADER <= at[i + 1] <= |d|
    && (TypeSize(d, at[i]) >= 0 ==> at[i + 1] == at[i] + TypeSize(d, at[i]))
  }

  lemma {:induction false} LaidUp(d: Bytes, at: seq<nat>, i: nat, j: nat)
    requires Laid(d, at) && 1 <= i <= j < |at|
    ensures at[i] <= at[j] && (j > i || at[i] <= |d| ==> at[j] <= |d|)
    decreases j
  {
    if i < j {
      LaidUp(d, at, i, j - 1);
      assert LaidAt(d, at, j - 1);
    }
  }

  /** No canonical record below `n` is of an unknown kind. */
  ghost predicate KindsKnown(d: Bytes, at: seq<nat>, m: seq<nat>, n: nat)
    requires Laid(d, at) && n <= |m| < |at|
  {
    forall i: nat :: 1 <= i < n && m[i] == i ==> LaidAt(d, at, i) && TypeSize(d, at[i]) >= 0
  }

  lemma KindsNext(d: Bytes, at: seq<nat>, m: seq<nat>, n: nat)
    requires Laid(d, at) && 1 <= n < |m| < |at| && KindsKnown(d, at, m, n)
    ensures at[n] + HEADER <= |d|
    ensures KindsKnown(d, at, m, n + 1) <==> (m[n] == n ==> TypeSize(d, at[n]) >= 0)
    ensures KindsKnown(d, at, m, |m|) ==> KindsKnown(d, at, m, n + 1)
  {
    assert LaidAt(d, at, n);
  }

  ghost function Record(d: Bytes, at: seq<nat>, i: nat): Bytes
    requires 1 <= i < |at| - 1 && LaidAt(d, at, i)
  {
    d[at[i]..at[i + 1]]
  }

  /** The records of the canonical types below `n`, one behind the other. */
  ghost function Kept(d: Bytes, at: seq<nat>, m: seq<nat>, n: nat): (r: Bytes)
    requires Laid(d, at) && n <= |m| < |at|
    ensures n >= 1 ==> at[1] + |r| <= at[n]
  {
    if n <= 1 then []
    else
      LaidUp(d, at, 1, n - 1);
      assert LaidAt(d, at, n - 1);
      if m[n - 1] == n - 1 then Kept(d, at, m, n - 1) + Record(d, at, n - 1) else Kept(d, at, m, n - 1)
  }

  lemma {:induction false} KeptGrows(d: Bytes, at: seq<nat>, m: seq<nat>, i: nat, j: nat)
    requires Laid(d, at) && 1 <= i <= j <= |m| < |at|
    ensures Kept(d, at, m, i) <= Kept(d, at, m, j)
    ensures CanonCount(m, i) == CanonCount(m, j) ==> Kept(d, at, m, i) == Kept(d, at, m, j)
    decreases j
  {
    if i < j {
      KeptGrows(d, at, m, i, j - 1);
      CanonCountMono(m, i, j - 1);
    }
  }

  /** memmove within one buffer. */
  ghost predicate Moved(was: Bytes, now: Bytes, dst: nat, src: nat, len: nat)
    requires dst + len <= |was| && src + len <= |was|
  {
    && |now| == |was|
    && now[..dst] == was[..dst]
    && now[dst..dst + len] == was[src..src + len]
    && now[dst + len..] == was[dst + len..]
  }

  /** The buffer, pointer table and id table when the ids below `i` are done:
      the kept records are packed, and nothing unread has been touched. */
  ghost predicate Packed(d0: Bytes, at: seq<nat>, m: seq<nat>, i: nat, d: Bytes, o: seq<nat>, p: nat)
    requires Laid(d0, at) && 1 <= i <= |m| == |at| - 1
  {
    && |d| == |d0| && |o| == |m|
    && p == at[1] + |Kept(d0, at, m, i)| <= at[i] <= |d0|
    && d[..at[1]] == d0[..at[1]]
    && d[at[1]..p] == Kept(d0, at, m, i)
    && d[at[i]..] == d0[at[i]..]
    && (forall k :: i <= k < |m| ==> o[k] == at[k])
    && (forall j {:trigger m[j]} :: 1 <= j < i && m[j] == j ==>
      NewId(m, j) < i && o[NewId(m, j)] == at[1] + |Kept(d0, at, m, j)|)
  }

  predicate IdsAssigned(m: seq<nat>, h: seq<nat>, i: nat) {
    && |h| == |m| && i <= |m|
    && forall j {:trigger h[j]} :: 0 <= j < |m| ==>
         h[j] == if j == 0 then 0 else if j < i && m[j] == j then NewId(m, j) else UNPROCESSED
  }

  lemma PackedStart(d0: Bytes, at: seq<nat>, m: seq<nat>)
    requires Laid(d0, at) && |m| == |at| - 1
    requires at[1] <= |d0|
    ensures Packed(d0, at, m, 1, d0, at[..|m|], at[1])
  {
  }

  lemma PackedSkip(d0: Bytes, at: seq<nat>, m: seq<nat>, i: nat, d: Bytes, o: seq<nat>, p: nat)
    requires Laid(d0, at) && 1 <= i < |m| == |at| - 1 && m[i] != i
    requires Packed(d0, at, m, i, d, o, p)
    ensures Packed(d0, at, m, i + 1, d, o, p)
  {
    LaidUp(d0, at, i, i + 1);
    assert Kept(d0, at, m, i + 1) == Kept(d0, at, m, i);
    hide Laid, Kept, CanonCount;
    DropMore(d, d0, at[i], at[i + 1]);
  }

  lemma DropMore(a: Bytes, b: Bytes, i: nat, j: nat)
    requires i <= j <= |a| == |b| && a[i..] == b[i..]
    ensures a[j..] == b[j..]
  {
    assert a[j..] == a[i..][j - i..];
  }

  lemma SizeUntouched(d0: Bytes, d: Bytes, at: nat)
    requires at + HEADER <= |d| == |d0| && d[at..] == d0[at..]
    ensures TypeSize(d, at) == TypeSize(d0, at)
  {
    assert d[at + 4] == d[at..][4] && d[at + 5] == d[at..][5] && d[at + 7] == d[at..][7];
    assert d0[at + 4] == d0[at..][4] && d0[at + 5] == d0[at..][5] && d0[at + 7] == d0[at..][7];
  }

  lemma PackedNext(d0: Bytes, at: seq<nat>, m: seq<nat>, i: nat, d: Bytes, o: seq<nat>, p: nat, len: nat, now: Bytes)
    requires Laid(d0, at) && 1 <= i < |m| == |at| - 1 && m[i] == i
    requires Packed(d0, at, m, i, d, o, p)
    requires at[i + 1] == at[i] + len && p + len <= at[i] + len <= |d| && Moved(d, now, p, at[i], len)
    ensures NewId(m, i) <= i
    ensures Packed(d0, at, m, i + 1, now, o[NewId(m, i) := p], p + len)
  {
    assert LaidAt(d0, at, i);
    NewIdRange(m, i);
    var kept, record := Kept(d0, at, m, i), Record(d0, at, i);
    assert Kept(d0, at, m, i + 1) == kept + record;
    MovedRecord(d0, at[1], at[i], d, p, len, now, kept);
    forall j | 1 <= j < i && m[j] == j ensures NewId(m, j) < NewId(m, i) {
      NewIdIncreases(m, j, i);
    }
  }

  lemma MovedRecord(d0: Bytes, start: nat, src: nat, d: Bytes, p: nat, len: nat, now: Bytes, kept: Bytes)
    requires |d| == |d0| && start <= p <= src && src + len <= |d|
    requires d[..start] == d0[..start] && d[start..p] == kept && d[src..] == d0[src..]
    requires Moved(d, now, p, src, len)
    ensures now[..start] == d0[..start]
    ensures now[start..p + len] == kept + d0[src..src + len]
    ensures now[src + len..] == d0[src + len..]
  {
    assert now[..start] == now[..p][..start] && d[..start] == d[..p][..start];
    assert now[start..p] == now[..p][start..] && d[start..p] == d[..p][start..];
    assert now[start..p + len] == now[start..p] + now[p..p + len];
    assert d[src..src + len] == d[src..][..len] && d0[src..src + len] == d0[src..][..len];
    assert now[src + len..] == now[p + len..][src - p..] && d[src + len..] == d[p + len..][src - p..];
    DropMore(d, d0, src, src + len);
  }

  lemma PackedReads(d0: Bytes, at: seq<nat>, m: seq<nat>, i: nat, d: Bytes, o: seq<nat>, p: nat)
    requires Laid(d0, at) && 1 <= i < |m| == |at| - 1
    requires Packed(d0, at, m, i, d, o, p)
    ensures |d| == |d0| && |o| == |m| && o[i] == at[i] && p <= at[i]
    ensures at[i] + HEADER <= at[i + 1] <= |d|
    ensures TypeSize(d, at[i]) == TypeSize(d0, at[i])
    ensures TypeSize(d, at[i]) >= 0 ==> at[i + 1] == at[i] + TypeSize(d, at[i])
  {
    assert LaidAt(d0, at, i);
    SizeUntouched(d0, d, at[i]);
  }

  lemma PackedFits(d0: Bytes, at: seq<nat>, m: seq<nat>, d: Bytes, o: seq<nat>, p: nat)
    requires Laid(d0, at) && 1 <= |m| == |at| - 1 && Packed(d0, at, m, |m|, d, o, p)
    ensures at[1] <= p <= at[|m|]
  {
  }

  lemma KindsStart(d: Bytes, at: seq<nat>, m: seq<nat>)
    requires Laid(d, at) && 1 <= |m| < |at|
    ensures KindsKnown(d, at, m, 1)
  {
  }

  lemma IdsStart(m: seq<nat>)
    ensures |m| > 0 ==> IdsAssigned(m, seq(|m|, i => if i == 0 then 0 else UNPROCESSED), 1)
  {
  }

  lemma IdsSkip(m: seq<nat>, h: seq<nat>, i: nat)
    requires IdsAssigned(m, h, i) && 1 <= i < |m| && m[i] != i
    ensures IdsAssigned(m, h, i + 1)
  {
  }

  lemma IdsNext(m: seq<nat>, h: seq<nat>, i: nat)
    requires IdsAssigned(m, h, i) && 1 <= i < |m| && m[i] == i
    ensures |h| == |m| && IdsAssigned(m, h[i := NewId(m, i)], i + 1)
  {
  }

  /** What compaction leaves: the kept records in order, then the strings. */
  ghost predicate Compacted(d0: Bytes, at: seq<nat>, m: seq<nat>, strings: nat, strLen: nat,
                            d: Bytes, o: seq<nat>, h: seq<nat>, p: nat)
    requires Laid(d0, at) && |m| == |at| - 1 && strings + strLen <= |d0|
  {
    && |d| == |d0| && |o| == |m|
    && p == at[1] + |Kept(d0, at, m, |m|)| && p + strLen <= |d|
    && d[..at[1]] == d0[..at[1]]
    && d[at[1]..p] == Kept(d0, at, m, |m|)
    && d[p..p + strLen] == d0[strings..strings + strLen]
    && (forall j {:trigger m[j]} :: 1 <= j < |m| && m[j] == j ==>
         NewId(m, j) < |m| && o[NewId(m, j)] == at[1] + |Kept(d0, at, m, j)|)
    && IdsAssigned(m, h, |m|)
  }

  lemma CompactedEnd(d0: Bytes, at: seq<nat>, m: seq<nat>, strings: nat, strLen: nat,
                     d: Bytes, o: seq<nat>, h: seq<nat>, p: nat, now: Bytes)
    requires Laid(d0, at) && |m| == |at| - 1 >= 1 && at[|m|] <= strings && strings + strLen <= |d0|
    requires Packed(d0, at, m, |m|, d, o, p) && IdsAssigned(m, h, |m|)
    requires p + strLen <= |d| && Moved(d, now, p, strings, strLen)
    ensures Compacted(d0, at, m, strings, strLen, now, o, h, p)
  {
    assert now[..at[1]] == now[..p][..at[1]] && d[..at[1]] == d[..p][..at[1]];
    assert now[at[1]..p] == now[..p][at[1]..] && d[at[1]..p] == d[..p][at[1]..];
    DropMore(d, d0, at[|m|], strings);
    assert d[strings..strings + strLen] == d[strings..][..strLen];
    assert d0[strings..strings + strLen] == d0[strings..][..strLen];
  }

  /** Where the new table has a canonical record. */
  lemma CompactedAt(d0: Bytes, at: seq<nat>, m: seq<nat>, strings: nat, strLen: nat,
                    d: Bytes, o: seq<nat>, h: seq<nat>, p: nat, i: nat)
    requires Laid(d0, at) && |m| == |at| - 1 && strings + strLen <= |d0|
    requires Compacted(d0, at, m, strings, strLen, d, o, h, p)
    requires 1 <= i < |m| && m[i] == i
    ensures |o| == |m| && 1 <= NewId(m, i) <= CanonCount(m, |m|) < |m|
    ensures o[NewId(m, i)] == at[1] + |Kept(d0, at, m, i)|
    ensures p == at[1] + |Kept(d0, at, m, |m|)| <= |d| && d[at[1]..p] == Kept(d0, at, m, |m|)
  {
    hide Laid, IdsAssigned, Kept, CanonCount, NewId;
    NewIdRange(m, i);
    CountBelow(m);
  }

  /** Each canonical record is there, byte for byte. */
  lemma CompactedRecord(d0: Bytes, at: seq<nat>, m: seq<nat>, strings: nat, strLen: nat,
                        d: Bytes, o: seq<nat>, h: seq<nat>, p: nat, i: nat)
    requires Laid(d0, at) && |m| == |at| - 1 && strings + strLen <= |d0|
    requires Compacted(d0, at, m, strings, strLen, d, o, h, p)
    requires 1 <= i < |m| && m[i] == i
    ensures |o| == |m| && 1 <= NewId(m, i) <= CanonCount(m, |m|) < |m| && LaidAt(d0, at, i)
    ensures o[NewId(m, i)] + |Record(d0, at, i)| <= p <= |d|
    ensures d[o[NewId(m, i)]..o[NewId(m, i)] + |Record(d0, at, i)|] == Record(d0, at, i)
  {
    hide Laid, LaidAt, Compacted, Kept, CanonCount, NewId, Record;
    KeptSplit(d0, at, m, i);
    CompactedAt(d0, at, m, strings, strLen, d, o, h, p, i);
    PrefixSlice(d, at[1], p, Kept(d0, at, m, |m|), Kept(d0, at, m, i), Record(d0, at, i));
  }

  /** The new records lie one behind the other again, the last ending at `p`. */
  lemma CompactedNext(d0: Bytes, at: seq<nat>, m: seq<nat>, strings: nat, strLen: nat,
                      d: Bytes, o: seq<nat>, h: seq<nat>, p: nat, i: nat)
    requires Laid(d0, at) && |m| == |at| - 1 && strings + strLen <= |d0|
    requires Compacted(d0, at, m, strings, strLen, d, o, h, p)
    requires 1 <= i < |m| && m[i] == i
    ensures |o| == |m| && 1 <= NewId(m, i) <= CanonCount(m, |m|) < |m| && LaidAt(d0, at, i)
    ensures o[NewId(m, i)] + |Record(d0, at, i)| ==
            if NewId(m, i) < CanonCount(m, |m|) then o[NewId(m, i) + 1] else p
  {
    hide Laid, LaidAt, Compacted, Kept, CanonCount, NewId, Record;
    KeptSplit(d0, at, m, i);
    CompactedAt(d0, at, m, strings, strLen, d, o, h, p, i);
    if NewId(m, i) < CanonCount(m, |m|) {
      var j := NextCanonical(m, i);
      CompactedAt(d0, at, m, strings, strLen, d, o, h, p, j);
      KeptGrows(d0, at, m, i + 1, j);
    } else {
      KeptGrows(d0, at, m, i + 1, |m|);
    }
  }

  lemma CountBelow(m: seq<nat>)
    requires |m| > 0
    ensures CanonCount(m, |m|) < |m|
  {
    CanonCountMono(m, 1, |m|);
  }

  lemma KeptSplit(d: Bytes, at: seq<nat>, m: seq<nat>, i: nat)
    requires Laid(d, at) && 1 <= i < |m| < |at| && m[i] == i
    ensures LaidAt(d, at, i)
    ensures Kept(d, at, m, i + 1) == Kept(d, at, m, i) + Record(d, at, i) <= Kept(d, at, m, |m|)
    ensures CanonCount(m, i + 1) == NewId(m, i)
  {
    assert LaidAt(d, at, i);
    KeptGrows(d, at, m, i + 1, |m|);
  }

  lemma NextCanonical(m: seq<nat>, i: nat) returns (j: nat)
    requires 1 <= i < |m| && m[i] == i && NewId(m, i) < CanonCount(m, |m|)
    ensures i < j < |m| && m[j] == j && NewId(m, j) == NewId(m, i) + 1
    ensures CanonCount(m, i + 1) == CanonCount(m, j)
  {
    j := NewIdOnto(m, |m|, NewId(m, i) + 1);
    if j < i { NewIdIncreases(m, j, i); }
  }

  lemma SliceOfSlice(d: Bytes, x: nat, y: nat, i: nat, j: nat)
    requires i <= j && x + j <= y <= |d|
    ensures d[x..y][i..j] == d[x + i..x + j]
  {
    forall k: nat | k < j - i ensures d[x..y][i..j][k] == d[x + i..x + j][k] {
      assert d[x..y][i + k] == d[x + (i + k)];
    }
  }

  lemma PrefixSlice(d: Bytes, start: nat, p: nat, all: Bytes, a: Bytes, b: Bytes)
    requires start <= p <= |d| && d[start..p] == all && a + b <= all
    ensures start + |a| + |b| <= p && d[start + |a|..start + |a| + |b|] == b
  {
    var n := |a| + |b|;
    SliceOfSlice(d, start, p, |a|, n);
    assert all[|a|..n] == all[..n][|a|..] && all[..n] == a + b;
  }

  /** The part of `struct btf` that compaction rewrites. `data` starts behind the
      header; `types` and `strings` are positions in it. */
  class BtfData {
    const data: array<Byte>
    const types: array<nat>
    const canonMap: array<nat>
    const hypotMap: array<nat>
    var nrTypes: nat
    var typeOff: nat
    var typeLen: nat
    var strOff: nat
    var strings: nat
    var strLen: nat

    ghost predicate Valid(at: seq<nat>)
      reads this, data, types, canonMap, hypotMap
    {
      && types != canonMap && types != hypotMap && canonMap != hypotMap
      && canonMap.Length == hypotMap.Length == types.Length == nrTypes + 1 == |at| - 1
      && Laid(data[..], at) && at[..|at| - 1] == types[..]
      && at[1] == typeOff <= data.Length && at[|at| - 1] <= strings && strings + strLen <= data.Length
    }

    method Move(dst: nat, src: nat, len: nat)
      requires dst + len <= data.Length && src + len <= data.Length
      modifies data
      ensures Moved(old(data[..]), data[..], dst, src, len)
    {
      ghost var d := data[..];
      forall k | 0 <= k < len { data[dst + k] := data[src + k]; }
    }

    /** btf_dedup_compact_types. It fails exactly if a canonical record is of an
        unknown kind. */
    method CompactTypes(ghost at: seq<nat>) returns (ok: bool)
      requires Valid(at)
      modifies this, data, types, hypotMap
      ensures ok <==> KindsKnown(old(data[..]), at, canonMap[..], canonMap.Length)
      ensures ok ==> Compacted(old(data[..]), at, canonMap[..], old(strings), old(strLen),
                               data[..], types[..], hypotMap[..], strings)
      ensures ok ==> nrTypes == CanonCount(canonMap[..], canonMap.Length)
      ensures ok ==> strOff == strings && typeLen == strings - typeOff
      ensures typeOff == old(typeOff) && strLen == old(strLen)
    {
      hide Packed, IdsAssigned, Moved, TypeSize, Laid, KindsKnown, Kept;
      ghost var d0, m := data[..], canonMap[..];
      ClearIds(hypotMap);
      IdsStart(m);
      var p: nat := typeOff;
      var nextTypeId := 1;
      PackedStart(d0, at, m);
      KindsStart(d0, at, m);
      var i := 1;
      while i <= nrTypes
        invariant 1 <= i <= |m| && nrTypes == old(nrTypes) && m == canonMap[..]
        invariant strings == old(strings) && strLen == old(strLen) && typeOff == old(typeOff)
        invariant nextTypeId == 1 + CanonCount(m, i)
        invariant Packed(d0, at, m, i, data[..], types[..], p)
        invariant IdsAssigned(m, hypotMap[..], i)
        invariant KindsKnown(d0, at, m, i)
      {
        var known;
        known, p, nextTypeId := CompactOne(d0, at, i, p, nextTypeId);
        if !known { return false; }
        i := i + 1;
      }
      ghost var d := data[..];
      PackedFits(d0, at, m, d, types[..], p);
      nrTypes := nextTypeId - 1;
      typeLen := p - typeOff;
      strOff := p;
      Move(p, strings, strLen);
      CompactedEnd(d0, at, m, strings, strLen, d, types[..], hypotMap[..], p, data[..]);
      strings := p;
      ok := true;
    }

    /** One turn of the loop: the record of a canonical type is moved down. */
    method CompactOne(ghost d0: Bytes, ghost at: seq<nat>, i: nat, p: nat, nextTypeId: nat)
      returns (known: bool, q: nat, nextId: nat)
      requires types != canonMap && types != hypotMap && canonMap != hypotMap
      requires types.Length == hypotMap.Length == canonMap.Length == |at| - 1 && |d0| == data.Length
      requires Laid(d0, at) && 1 <= i < canonMap.Length
      requires nextTypeId == 1 + CanonCount(canonMap[..], i)
      requires Packed(d0, at, canonMap[..], i, data[..], types[..], p)
      requires IdsAssigned(canonMap[..], hypotMap[..], i) && KindsKnown(d0, at, canonMap[..], i)
      modifies data, types, hypotMap
      ensures known <==> KindsKnown(d0, at, canonMap[..], i + 1)
      ensures !known ==> !KindsKnown(d0, at, canonMap[..], canonMap.Length)
      ensures known ==> nextId == 1 + CanonCount(canonMap[..], i + 1)
      ensures known ==> Packed(d0, at, canonMap[..], i + 1, data[..], types[..], q)
      ensures known ==> IdsAssigned(canonMap[..], hypotMap[..], i + 1)
    {
      hide Packed, IdsAssigned, Moved, TypeSize, Laid, Kept, KindsKnown;
      ghost var m, d, o, h := canonMap[..], data[..], types[..], hypotMap[..];
      PackedReads(d0, at, m, i, d, o, p);
      KindsNext(d0, at, m, i);
      if canonMap[i] != i {
        PackedSkip(d0, at, m, i, d, o, p);
        IdsSkip(m, h, i);
        return true, p, nextTypeId;
      }
      var len := TypeSize(data[..], types[i]);
      if len < 0 { return false, p, nextTypeId; }
      Move(p, types[i], len);
      PackedNext(d0, at, m, i, d, o, p, len, data[..]);
      IdsNext(m, h, i);
      hypotMap[i] := nextTypeId;
      types[nextTypeId] := p;
      assert types[..] == o[nextTypeId := p] && hypotMap[..] == h[i := nextTypeId];
      return true, p + len, nextTypeId + 1;
    }
  }
}
