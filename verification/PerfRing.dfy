/**
  The reader of a perf event ring: records lie one behind the other in a
  memory whose size is a power of two, and one that runs over the end is put
  together again in a buffer before it is handed to the callback.
*/
module PerfRings {
  import opened Basics

  datatype Ret = Done | Error | Cont

  // ---------- powers of two ----------

  /** The `&` of C, bit by bit. */
  function And(x: nat, y: nat): nat
    decreases x
  {
    if x == 0 || y == 0 then 0
    else (if x % 2 == 1 && y % 2 == 1 then 1 else 0) + 2 * And(x / 2, y / 2)
  }

  lemma HalfRemainder(x: nat, m: nat)
    requires m > 0
    ensures x % (2 * m) == x % 2 + 2 * ((x / 2) % m)
  {
    var q, r := (x / 2) / m, (x / 2) % m;
    assert x / 2 == m * q + r;
    assert x == (2 * m) * q + (x % 2 + 2 * r);
    RemainderIs(x, 2 * m, q, x % 2 + 2 * r);
  }

  /** Masking with one less than a power of two takes the remainder. */
  lemma {:induction false} MaskIsRemainder(x: nat, k: nat)
    ensures And(x, Pow2(k) - 1) == x % Pow2(k)
  {
    if k > 0 {
      MaskIsRemainder(x / 2, k - 1);
      MaskStep(x, Pow2(k - 1));
    }
  }

  lemma MaskStep(x: nat, m: nat)
    requires m > 0 && And(x / 2, m - 1) == (x / 2) % m
    ensures And(x, 2 * m - 1) == x % (2 * m)
  {
    hide And;
    var low, half := x % 2, (x / 2) % m;
    var whole := x % (2 * m);
    assert whole == low + 2 * half by { HalfRemainder(x, m); }
    assert And(x, 2 * m - 1) == low + 2 * half by { AndOdd(x, m - 1, 2 * m - 1); }
  }

  lemma AndOdd(x: nat, y: nat, mask: nat)
    requires mask == 2 * y + 1
    ensures And(x, mask) == x % 2 + 2 * And(x / 2, y)
  {
    OddHalf(y);
  }

  lemma OddHalf(y: nat)
    ensures (2 * y + 1) % 2 == 1 && (2 * y + 1) / 2 == y
  {
  }

  lemma {:induction false} Pow2Divides(k: nat, n: nat)
    requires k <= n
    ensures exists c :: Pow2(n) == Pow2(k) * c
  {
    if k == n {
      assert Pow2(n) == Pow2(k) * 1;
    } else {
      Pow2Divides(k, n - 1);
      var c :| Pow2(n - 1) == Pow2(k) * c;
      assert Pow2(n) == Pow2(k) * (2 * c);
    }
  }

  function Wrapped(x: nat): (r: nat)
    ensures r < WORD
  {
    x % WORD
  }

  predicate Aligned(x: nat) {
    x % 8 == 0
  }

  /** Where in a ring of `m` bytes the `i`-th byte from counter `x` lies. */
  function Place(x: nat, i: nat, m: nat): (p: nat)
    requires 0 < m
    ensures p < m
  {
    (x + i) % m
  }

  /** Counters that wrap at 2^64 keep their place in the ring. */
  lemma WrapKeepsPlace(x: nat, i: nat, k: nat)
    requires k <= 64
    ensures Place(Wrapped(x), i, Pow2(k)) == Place(x, i, Pow2(k))
  {
    Pow2Word();
    Pow2Divides(k, 64);
    var c :| WORD == Pow2(k) * c;
    Multiples(x, i, Pow2(k), c, WORD);
  }

  lemma Multiples(x: nat, i: nat, m: nat, c: int, w: nat)
    requires m > 0 && w > 0 && w == m * c
    ensures (x % w + i) % m == (x + i) % m
  {
    var q, y := x / w, x % w + i;
    var p := y / m;
    calc {
      x + i;
      w * q + y;
      m * c * q + (m * p + y % m);
      m * (c * q) + m * p + y % m;
      m * (c * q + p) + y % m;
    }
    RemainderIs(x + i, m, c * q + p, y % m);
  }

  lemma PlaceIn(x: nat, i: nat, m: nat)
    requires 0 < m && i <= m
    ensures Place(x, i, m) == if x % m + i < m then x % m + i else x % m + i - m
  {
    var q := x / m;
    assert x == m * q + x % m;
    if x % m + i < m {
      RemainderIs(x + i, m, q, x % m + i);
    } else {
      assert x + i == m * (q + 1) + (x % m + i - m);
      RemainderIs(x + i, m, q + 1, x % m + i - m);
    }
  }

  // ---------- the logical stream ----------

  function SizeField(s: Bytes): int
    requires |s| >= 8
  {
    (s[6] as int) + 256 * (s[7] as int)
  }

  /** The stream is made of whole records, as the kernel writes them: at least a
      header each and a multiple of eight bytes. */
  predicate Tiles(s: Bytes)
    decreases |s|
  {
    s == [] ||
    (|s| >= 8 && 8 <= SizeField(s) <= |s| && Aligned(SizeField(s)) && Tiles(s[SizeField(s)..]))
  }

  function Records(s: Bytes): seq<Bytes>
    requires Tiles(s)
    decreases |s|
  {
    if s == [] then [] else [s[..SizeField(s)]] + Records(s[SizeField(s)..])
  }

  function Flat(records: seq<Bytes>): Bytes {
    if records == [] then [] else records[0] + Flat(records[1..])
  }

  lemma {:induction false} RecordsTile(s: Bytes)
    requires Tiles(s)
    ensures Flat(Records(s)) == s
    decreases |s|
  {
    if s != [] {
      RecordsTile(s[SizeField(s)..]);
    }
  }

  /** `n` bytes from counter `from` on. */
  function Stream(mem: Bytes, from: nat, n: nat): (s: Bytes)
    requires 0 < |mem|
    ensures |s| == n
  {
    seq(n, i requires 0 <= i => mem[Place(from, i, |mem|)])
  }

  lemma StreamSplit(mem: Bytes, from: nat, n: nat, k: nat, bits: nat)
    requires |mem| == Pow2(bits) && bits <= 64 && k <= n
    ensures Stream(mem, from, n)[k..] == Stream(mem, Wrapped(from + k), n - k)
  {
    forall j: nat | k <= j < n
      ensures Place(from, j, |mem|) == Place(Wrapped(from + k), j - k, |mem|)
    {
      WrapKeepsPlace(from + k, j - k, bits);
    }
    hide Place;
  }

  /** A piece of the stream as it lies in memory: in one piece, or to the end of
      the memory and on from its start. */
  lemma StreamInMemory(mem: Bytes, from: nat, n: nat, k: nat)
    requires 0 < |mem| && k <= n && k <= |mem|
    ensures Stream(mem, from, n)[..k] ==
            var off := from % |mem|;
            if off + k <= |mem| then mem[off..off + k] else mem[off..] + mem[..k - (|mem| - off)]
  {
    hide Place;
    forall i: nat | i < k
      ensures Place(from, i, |mem|) == if from % |mem| + i < |mem| then from % |mem| + i else from % |mem| + i - |mem|
    {
      PlaceIn(from, i, |mem|);
    }
  }

  lemma HeaderInside(from: nat, bits: nat)
    requires Aligned(from) && bits >= 3
    ensures from % Pow2(bits) + 8 <= Pow2(bits)
  {
    assert Pow2(3) == 8;
    Pow2Divides(3, bits);
    var c :| Pow2(bits) == 8 * c;
    Multiples(from, 0, 8, c, Pow2(bits));
    RoomForEight(from % Pow2(bits), Pow2(bits), c);
  }

  lemma RoomForEight(r: nat, m: nat, c: int)
    requires (r + 0) % 8 == 0 && r < m == 8 * c
    ensures r + 8 <= m
  {
  }

  /** How far the writer is ahead of the reader. */
  function Distance(head: nat, tail: nat): nat {
    (head - tail) % WORD
  }

  lemma AddWraps(a: nat, b: nat)
    ensures Wrapped(Wrapped(a) + b) == Wrapped(a + b)
  {
    Multiples(a, b, WORD, 1, WORD);
  }

  lemma NotThereYet(tail: nat, left: nat)
    requires tail < WORD && left < WORD
    ensures Wrapped(tail + left) == tail <==> left == 0
    ensures left == Distance(Wrapped(tail + left), tail)
  {
    PlaceIn(tail, left, WORD);
    RemainderIs(tail, WORD, 0, tail);
    var q := if tail + left < WORD then 0 else -1;
    RemainderIs(Wrapped(tail + left) - tail, WORD, q, left);
  }

  lemma StaysAligned(tail: nat, size: nat)
    requires Aligned(tail) && Aligned(size)
    ensures Aligned(Wrapped(tail + size))
  {
    WrapKeepsPlace(tail + size, 0, 3);
    assert Pow2(3) == 8;
    hide Wrapped;
    AlignedSum(tail, size);
  }

  lemma AlignedSum(a: nat, b: nat)
    requires Aligned(a) && Aligned(b)
    ensures Aligned(a + b)
  {
  }

  lemma {:induction false} FlatJoins(a: seq<Bytes>, b: seq<Bytes>)
    ensures Flat(a + b) == Flat(a) + Flat(b)
  {
    if a == [] {
      assert a + b == b;
    } else {
      FlatJoins(a[1..], b);
      assert (a + b)[0] == a[0] && (a + b)[1..] == a[1..] + b;
      Associative(a[0], Flat(a[1..]), Flat(b));
    }
  }

  /** Where the reader is: `delivered` of the records in `all` are handed out and
      `left` bytes remain behind `tail`. */
  ghost predicate Progress(mem: Bytes, bits: nat, start: nat, head: nat, all: Bytes,
                           tail: nat, left: int, delivered: seq<Bytes>)
  {
    && 3 <= bits < 64 && |mem| == Pow2(bits) && |mem| < WORD
    && tail < WORD && Aligned(tail)
    && 0 <= left <= |all| <= |mem|
    && Wrapped(tail + left) == head
    && Stream(mem, tail, left) == all[|all| - left..]
    && Tiles(Stream(mem, tail, left))
    && Tiles(all) && Records(all) == delivered + Records(Stream(mem, tail, left))
    && |Flat(delivered)| == |all| - left
    && tail == Wrapped(start + |Flat(delivered)|)
  }

  lemma FirstRecord(s: Bytes)
    requires Tiles(s) && s != []
    ensures |s| >= 8 && 8 <= SizeField(s) <= |s| && Aligned(SizeField(s)) && Tiles(s[SizeField(s)..])
    ensures Records(s) == [s[..SizeField(s)]] + Records(s[SizeField(s)..])
  {
  }

  lemma StartsProgress(mem: Bytes, bits: nat, tail: nat, left: nat)
    requires 3 <= bits < 64 && |mem| == Pow2(bits) && |mem| < WORD
    requires tail < WORD && Aligned(tail) && left <= |mem| && Tiles(Stream(mem, tail, left))
    ensures Progress(mem, bits, tail, Wrapped(tail + left), Stream(mem, tail, left), tail, left, [])
  {
    NotThereYet(tail, 0);
    hide Place, Pow2, Wrapped, Aligned, Tiles, Records, Stream;
    var s := Stream(mem, tail, left);
    assert s[|s| - left..] == s;
    assert [] + Records(s) == Records(s);
  }

  lemma ProgressNext(mem: Bytes, bits: nat, start: nat, head: nat, all: Bytes,
                     tail: nat, left: nat, delivered: seq<Bytes>, size: nat)
    requires Progress(mem, bits, start, head, all, tail, left, delivered)
    requires left >= 8 && size == SizeField(Stream(mem, tail, left))
    ensures 8 <= size <= left
    ensures Progress(mem, bits, start, head, all, Wrapped(tail + size), left - size,
                     delivered + [Stream(mem, tail, left)[..size]])
  {
    hide Place, Pow2, Wrapped, Aligned, Tiles, Records, Stream, Flat, SizeField, Distance;
    var s := Stream(mem, tail, left);
    FirstRecord(s);
    StreamSplit(mem, tail, left, size, bits);
    AddWraps(tail + size, left - size);
    StaysAligned(tail, size);
    FlatNext(delivered, s[..size]);
    AddWraps(start + |Flat(delivered)|, size);
    DropTwice(all, left, size);
    RecordsGo(all, delivered, s, size);
  }

  /** One more record is handed out. */
  lemma RecordsGo(all: Bytes, delivered: seq<Bytes>, s: Bytes, size: nat)
    requires 8 <= size <= |s| && Tiles(all) && Tiles(s) && Tiles(s[size..])
    requires Records(s) == [s[..size]] + Records(s[size..])
    requires Records(all) == delivered + Records(s)
    ensures Records(all) == (delivered + [s[..size]]) + Records(s[size..])
  {
    hide Records, Tiles;
    Associative(delivered, [s[..size]], Records(s[size..]));
  }

  lemma ProgressMore(mem: Bytes, bits: nat, start: nat, head: nat, all: Bytes,
                     tail: nat, left: nat, delivered: seq<Bytes>)
    requires Progress(mem, bits, start, head, all, tail, left, delivered) && head != tail
    ensures 3 <= bits && |mem| == Pow2(bits) && Aligned(tail) && 8 <= left <= |mem|
    ensures 8 <= SizeField(Stream(mem, tail, left)) <= left
  {
    hide Place, Pow2, Wrapped, Aligned, Records, Stream;
    NotThereYet(tail, left);
    FirstRecord(Stream(mem, tail, left));
  }

  lemma ProgressEnd(mem: Bytes, bits: nat, start: nat, head: nat, all: Bytes,
                    tail: nat, left: nat, delivered: seq<Bytes>)
    requires Progress(mem, bits, start, head, all, tail, left, delivered)
    ensures Tiles(all) && delivered <= Records(all)
    ensures tail < WORD && Aligned(tail) && tail == Wrapped(start + |Flat(delivered)|)
    ensures left == Distance(head, tail) == |all| - |Flat(delivered)| <= |mem|
    ensures Wrapped(tail + left) == head && Tiles(Stream(mem, tail, left))
    ensures Stream(mem, tail, left) == all[|Flat(delivered)|..]
    ensures head == tail ==> left == 0
  {
    hide Place, Pow2, Wrapped, Aligned, Records, Stream, Distance, Tiles;
    NotThereYet(tail, left);
  }

  lemma FlatNext(delivered: seq<Bytes>, record: Bytes)
    ensures Flat(delivered + [record]) == Flat(delivered) + record
  {
    FlatJoins(delivered, [record]);
    assert Flat([record]) == record + [];
  }

  lemma DropTwice(s: Bytes, left: nat, k: nat)
    requires k <= left <= |s|
    ensures s[|s| - left..][k..] == s[|s| - (left - k)..]
  {
  }

  /** Every delivered record but the last was answered with "continue". */
  ghost predicate Answered(fn: (nat, Bytes) -> Ret, delivered: seq<Bytes>) {
    forall i: nat :: i + 1 < |delivered| ==> fn(i, delivered[i]) == Cont
  }

  /** What the callback answered last; "continue" before any call. */
  function LastAnswer(fn: (nat, Bytes) -> Ret, delivered: seq<Bytes>): Ret {
    if delivered == [] then Cont else fn(|delivered| - 1, delivered[|delivered| - 1])
  }

  class PerfBuffer {
    const mem: array<Byte>
    const bits: nat
    var dataHead: nat
    var dataTail: nat
    var copyMem: array?<Byte>
    var copySize: nat

    ghost predicate Valid()
      reads this, mem
    {
      && 3 <= bits < 64 && mem.Length == Pow2(bits) && mem.Length < WORD
      && dataHead < WORD && dataTail < WORD && Aligned(dataTail)
      && Waiting() <= mem.Length && Wrapped(dataTail + Waiting()) == dataHead
      && Tiles(Stream(mem[..], dataTail, Waiting()))
    }

    ghost predicate ValidCopy()
      reads this
    {
      copyMem != mem && copySize == if copyMem == null then 0 else copyMem.Length
    }

    /** How many bytes the kernel has written and the reader not read. */
    ghost function Waiting(): nat
      reads this
    {
      Distance(dataHead, dataTail)
    }

    /** The two copies that put a record over the end of the memory together. */
    method JoinPieces(off: nat, size: nat)
      requires copyMem != null && copyMem != mem && size <= copyMem.Length
      requires off <= mem.Length <= off + size <= 2 * mem.Length
      modifies copyMem
      ensures copyMem[..size] == mem[..][off..] + mem[..][..off + size - mem.Length]
    {
      var first := mem.Length - off;
      forall i | 0 <= i < first { copyMem[i] := mem[off + i]; }
      forall i | first <= i < size { copyMem[i] := mem[i - first]; }
    }

    /** The record at `tail`, if it is in one piece or there is memory to join it in. */
    method TakeRecord(tail: nat, alloc: bool, ghost left: nat) returns (record: Bytes, ok: bool)
      requires ValidCopy() && 3 <= bits && mem.Length == Pow2(bits) && Aligned(tail)
      requires 8 <= left <= mem.Length && SizeField(Stream(mem[..], tail, left)) <= left
      modifies this`copyMem, this`copySize, copyMem
      ensures ValidCopy() && mem[..] == old(mem[..])
      ensures copyMem == old(copyMem) || copyMem == null || fresh(copyMem)
      ensures ok ==> record == Stream(mem[..], tail, left)[..SizeField(Stream(mem[..], tail, left))]
      ensures !ok ==> !alloc
    {
      hide Place, Pow2, Aligned;
      var off := And(tail, mem.Length - 1);
      MaskIsRemainder(tail, bits);
      HeaderInside(tail, bits);
      var size := (mem[off + 6] as int) + 256 * (mem[off + 7] as int);
      StreamInMemory(mem[..], tail, left, 8);
      assert size == SizeField(Stream(mem[..], tail, left)[..8]);
      StreamInMemory(mem[..], tail, left, size);
      if off + size <= mem.Length {
        return mem[off..off + size], true;
      }
      if copySize < size {
        copyMem, copySize := null, 0;
        if !alloc { return [], false; }
        copyMem, copySize := new Byte[size], size;
      }
      JoinPieces(off, size);
      record, ok := copyMem[..size], true;
    }

    /** bpf_perf_event_read_simple.  `fn` is the callback, told how many records
        it was given before; `alloc` says whether an allocation at that point
        succeeds. */
    method ReadSimple(fn: (nat, Bytes) -> Ret, alloc: nat -> bool) returns (ret: Ret, delivered: seq<Bytes>)
      requires Valid() && ValidCopy()
      modifies this, copyMem
      ensures ValidCopy() && dataHead == old(dataHead) && mem[..] == old(mem[..])
      ensures delivered <= Records(old(Stream(mem[..], dataTail, Waiting())))
      ensures dataTail == Wrapped(old(dataTail) + |Flat(delivered)|)
      ensures Valid() && Waiting() == old(Waiting()) - |Flat(delivered)|
      ensures Stream(mem[..], dataTail, Waiting()) ==
              old(Stream(mem[..], dataTail, Waiting()))[|Flat(delivered)|..]
      ensures Answered(fn, delivered)
      ensures ret != LastAnswer(fn, delivered) ==> ret == Error && !alloc(|delivered|)
      ensures ret == Cont ==> Waiting() == 0
    {
      hide Place, Pow2, Wrapped, Aligned, Tiles, Records, Stream, Distance, Progress, Flat;
      var tail: nat := dataTail;
      ghost var all, left: nat := Stream(mem[..], dataTail, Waiting()), Waiting();
      StartsProgress(mem[..], bits, tail, left);
      ret, delivered := Cont, [];
      while dataHead != tail
        invariant Progress(mem[..], bits, dataTail, dataHead, all, tail, left, delivered)
        invariant ValidCopy() && mem[..] == old(mem[..])
        invariant dataHead == old(dataHead) && dataTail == old(dataTail)
        invariant copyMem == old(copyMem) || copyMem == null || fresh(copyMem)
        invariant Answered(fn, delivered) && ret == Cont == LastAnswer(fn, delivered)
        decreases left
      {
        ProgressMore(mem[..], bits, dataTail, dataHead, all, tail, left, delivered);
        ghost var size := SizeField(Stream(mem[..], tail, left));
        ProgressNext(mem[..], bits, dataTail, dataHead, all, tail, left, delivered, size);
        var record, ok := TakeRecord(tail, alloc(|delivered|), left);
        if !ok {
          ret := Error;
          break;
        }
        ret := fn(|delivered|, record);
        delivered := delivered + [record];
        tail := Wrapped(tail + |record|);
        left := left - size;
        if ret != Cont { break; }
      }
      ProgressEnd(mem[..], bits, dataTail, dataHead, all, tail, left, delivered);
      dataTail := tail;
    }
  }
}
