/**
  The reporter's file of waiting records, byte by byte: what one record looks
  like, how a buffered reader takes records off the file, and the store that
  keeps a sequence of payloads across restarts.
*/
module FileStores {
  import opened Basics

  const BUFFER := 4096

  // ---------- records ----------

  /** A record as written: of the length only the low byte is stored. */
  function RecordBytes(data: Bytes): Bytes {
    [|data| % 256, 0] + data
  }

  function RecordsBytes(records: seq<Bytes>): Bytes {
    if records == [] then [] else RecordBytes(records[0]) + RecordsBytes(records[1..])
  }

  /** The first record of a stream and what follows it. */
  function FirstRecord(s: Bytes): Option<(Bytes, Bytes)> {
    if |s| < 2 then None
    else
      var n := (s[0] as int) + 256 * (s[1] as int);
      if n >= 0x8000 || |s| < 2 + n then None else Some((s[2..2 + n], s[2 + n..]))
  }

  lemma RecordRoundTrip(data: Bytes, rest: Bytes)
    ensures FirstRecord(RecordBytes(data) + rest) == Some((data, rest)) <==> |data| < 256
  {
    var s := RecordBytes(data) + rest;
    var n := |data| % 256;
    assert s[2..] == data + rest;
    if |data| < 256 {
      assert s[2..2 + n] == data;
      assert s[2 + n..] == rest;
    } else {
      assert |s[2..2 + n]| == n;
    }
  }

  predicate Short(records: seq<Bytes>) {
    forall i :: 0 <= i < |records| ==> |records[i]| < 256
  }

  lemma {:induction false} RecordsJoin(a: seq<Bytes>, b: seq<Bytes>)
    ensures RecordsBytes(a + b) == RecordsBytes(a) + RecordsBytes(b)
  {
    hide RecordBytes;
    if a == [] {
      assert a + b == b;
    } else {
      RecordsJoin(a[1..], b);
      assert (a + b)[1..] == a[1..] + b && (a + b)[0] == a[0];
      Associative(RecordBytes(a[0]), RecordsBytes(a[1..]), RecordsBytes(b));
    }
  }

  /** Different lists of short records are different bytes. */
  lemma {:induction false} RecordsInjective(a: seq<Bytes>, b: seq<Bytes>)
    requires Short(a) && Short(b) && RecordsBytes(a) == RecordsBytes(b)
    ensures a == b
  {
    if a != [] && b != [] {
      RecordRoundTrip(a[0], RecordsBytes(a[1..]));
      RecordRoundTrip(b[0], RecordsBytes(b[1..]));
      RecordsInjective(a[1..], b[1..]);
      assert a == [a[0]] + a[1..] && b == [b[0]] + b[1..];
    }
  }

  // ---------- the file and the buffered reader ----------

  /** What a write at `cursor` leaves; a gap reads as zeros, and writing nothing
      does nothing. */
  function Overwritten(content: Bytes, cursor: nat, data: Bytes): (r: Bytes) {
    if data == [] then content else
    var kept := if cursor <= |content| then content[..cursor] else content + seq(cursor - |content|, _ => 0);
    var end := cursor + |data|;
    kept + data + (if end < |content| then content[end..] else [])
  }

  /** Byte by byte: what was written where it was, what was there elsewhere. */
  lemma OverwrittenBytes(content: Bytes, cursor: nat, data: Bytes, i: nat)
    requires data != [] && i < |Overwritten(content, cursor, data)|
    ensures |Overwritten(content, cursor, data)| == if cursor + |data| < |content| then |content| else cursor + |data|
    ensures Overwritten(content, cursor, data)[i] ==
            if cursor <= i < cursor + |data| then data[i - cursor] else if i < |content| then content[i] else 0
  {
  }

  /** Without append mode a write adds to the file exactly when the cursor is at its end. */
  lemma WriteAppendsIff(content: Bytes, cursor: nat, data: Bytes)
    requires data != []
    ensures Overwritten(content, cursor, data) == content + data <==> cursor == |content|
  {
    var end := cursor + |data|;
    if cursor < |content| {
      assert |Overwritten(content, cursor, data)| == if end < |content| then |content| else end;
    } else if cursor > |content| {
      assert |Overwritten(content, cursor, data)| == end;
    }
  }

  class File {
    var content: Bytes
    var cursor: nat

    constructor (content: Bytes)
      ensures this.content == content && cursor == 0
    {
      this.content := content;
      cursor := 0;
    }

    /** At most `n` bytes from the cursor on; nothing at the end of the file. */
    method Read(n: nat) returns (data: Bytes)
      modifies this
      ensures content == old(content)
      ensures old(cursor) <= |content| ==>
        var end := if old(cursor) + n <= |content| then old(cursor) + n else |content|;
        data == content[old(cursor)..end] && cursor == end
    {
      var end := if cursor + n <= |content| then cursor + n else |content|;
      if cursor >= end { return []; }
      data := content[cursor..end];
      cursor := end;
    }

    method Write(data: Bytes)
      modifies this
      ensures content == Overwritten(old(content), old(cursor), data)
      ensures cursor == old(cursor) + |data|
      ensures old(cursor) == |old(content)| ==> content == old(content) + data
    {
      assert cursor == |content| ==> Overwritten(content, cursor, data) == content + data + [];
      content := Overwritten(content, cursor, data);
      cursor := cursor + |data|;
    }
  }

  lemma CutSlice(s: Bytes, a: nat, b: nat, k: nat)
    requires a + k <= b <= |s|
    ensures s[a..b][..k] == s[a..a + k]
    ensures s[a..b][k..] == s[a + k..b]
  {
  }

  lemma JoinSlices(s: Bytes, a: nat, b: nat, c: nat)
    requires a <= b <= c <= |s|
    ensures s[a..b] + s[b..c] + [] == s[a..c]
  {
  }

  lemma RecordHead(s: Bytes, from: nat, records: seq<Bytes>)
    requires from <= |s| && records != [] && s[from..] == RecordsBytes(records) && |records[0]| < 256
    ensures from + 2 + |records[0]| <= |s| && s[from] == |records[0]| && s[from + 1] == 0
    ensures s[from + 2..from + 2 + |records[0]|] == records[0]
    ensures s[from + 2 + |records[0]|..] == RecordsBytes(records[1..])
  {
    var n, rest := |records[0]|, RecordsBytes(records[1..]);
    assert s[from..] == RecordBytes(records[0]) + rest;
    assert s[from + 2..] == s[from..][2..] == records[0] + rest;
    assert s[from + 2..from + 2 + n] == s[from + 2..][..n];
    assert s[from + 2 + n..] == s[from + 2..][n..];
    assert s[from] == s[from..][0] && s[from + 1] == s[from..][1];
  }

  /** bufio.Reader over a file.  `start` is where the file was when the reader
      was made and `chunks` how many buffers it has filled since. */
  class Reader {
    const file: File
    const start: nat
    var buf: Bytes
    ghost var chunks: nat

    constructor (file: File)
      requires file.cursor <= |file.content|
      ensures this.file == file && Valid() && Lazy() && start == file.cursor && buf == [] && chunks == 0
      ensures Pos() == file.cursor
    {
      this.file := file;
      this.start := file.cursor;
      this.buf := [];
      this.chunks := 0;
    }

    ghost predicate Valid()
      reads this, file
    {
      && start <= Pos() <= file.cursor <= |file.content|
      && buf == file.content[Pos()..file.cursor]
    }

    /** No buffer was filled before it was needed. */
    ghost predicate Lazy()
      reads this, file
    {
      Fetched(|file.content| - start, chunks, file.cursor - start, Pos() - start)
    }

    /** How far into the file the reader's caller is. */
    ghost function Pos(): int
      reads this, file
    {
      file.cursor - |buf|
    }

    /** The bytes still to be read. */
    ghost function Rest(): Bytes
      requires 0 <= Pos() <= |file.content|
      reads this, file
    {
      file.content[Pos()..]
    }

    method Fill() returns (eof: bool)
      requires Valid() && Lazy() && buf == []
      modifies this, file
      ensures Valid() && file.content == old(file.content) && Pos() == old(Pos())
      ensures eof <==> Pos() == |file.content|
      ensures eof ==> Lazy()
      ensures !eof ==> Fetched(|file.content| - start, chunks, file.cursor - start, Pos() + 1 - start)
      ensures |buf| == (if |file.content| - Pos() <= BUFFER then |file.content| - Pos() else BUFFER)
    {
      hide Fetched;
      var chunk := file.Read(BUFFER);
      if chunk == [] { return true; }
      FetchNext(|file.content| - start, chunks, old(file.cursor) - start, |chunk|);
      buf := chunk;
      chunks := chunks + 1;
      eof := false;
    }

    /** At most `n` bytes, at least one unless `n` is zero or the file has ended. */
    method Read(n: nat) returns (data: Option<Bytes>)
      requires Valid() && Lazy() && n < BUFFER
      modifies this, file
      ensures Valid() && Lazy() && file.content == old(file.content)
      ensures data == None <==> n > 0 && old(Pos()) == |file.content|
      ensures data == None ==> Pos() == old(Pos())
      ensures n <= |old(buf)| ==> file.cursor == old(file.cursor)
      ensures data.Some? ==> |data.value| == Taken(n, |old(buf)|, |file.content| - old(Pos()))
      ensures data.Some? ==> Pos() == old(Pos()) + |data.value| && data.value == file.content[old(Pos())..Pos()]
    {
      hide Fetched;
      ghost var from := Pos();
      if n == 0 {
        assert file.content[from..from] == [];
        return Some([]);
      }
      if buf == [] {
        var eof := Fill();
        if eof { return None; }
      }
      var k := if n <= |buf| then n else |buf|;
      data := Some(buf[..k]);
      CutSlice(file.content, from, file.cursor, k);
      if old(buf) != [] {
        FetchUse(|file.content| - start, chunks, file.cursor - start, from - start, k);
      } else {
        FetchUse(|file.content| - start, chunks, file.cursor - start, from + 1 - start, k - 1);
      }
      buf := buf[k..];
    }

    /** readFixedLength: what is buffered, then the rest in a second read.  At
        the end of the file the second read may fall short and leave zeros. */
    method ReadFixedLength(n: nat) returns (r: Option<Bytes>)
      requires Valid() && Lazy() && n < BUFFER
      modifies this, file
      ensures Valid() && Lazy() && file.content == old(file.content)
      ensures old(Pos()) == |file.content| && n > 0 ==> r == None && Pos() == old(Pos())
      ensures old(Pos()) + n <= |file.content| ==>
        Pos() == old(Pos()) + n && r == Some(file.content[old(Pos())..Pos()])
    {
      ghost var from := Pos();
      var remaining := |buf|;
      var data := Read(if remaining < n then remaining else n);
      if data == None { return None; }
      if remaining < n {
        var more := Read(n - remaining);
        if more == None { return None; }
        if from + n <= |file.content| {
          JoinSlices(file.content, from, from + remaining, from + n);
          assert |more.value| == n - remaining;
        }
        var zeros: Bytes := seq(n - remaining - |more.value|, _ => 0);
        r := Some(data.value + more.value + zeros);
        if from + n <= |file.content| {
          assert zeros == [];
          assert data.value == file.content[from..from + remaining];
          assert more.value == file.content[from + remaining..from + n];
        }
        return r;
      }
      return data;
    }

    /** read: the next record, or nothing at the end of the file. */
    method ReadRecord(ghost records: seq<Bytes>) returns (r: Option<Bytes>)
      requires Valid() && Lazy() && Short(records) && Rest() == RecordsBytes(records)
      modifies this, file
      ensures Valid() && Lazy() && file.content == old(file.content)
      ensures records == [] ==> r == None && Pos() == old(Pos())
      ensures records != [] ==> r == Some(records[0]) && Pos() == old(Pos()) + 2 + |records[0]| &&
                                Rest() == RecordsBytes(records[1..])
    {
      ghost var from := Pos();
      var head := ReadFixedLength(2);
      if head == None { return None; }
      if records != [] {
        RecordHead(file.content, from, records);
      }
      var n := (head.value[0] as int) + 256 * (head.value[1] as int);
      r := ReadFixedLength(n);
    }
  }

  /** How many of `n` bytes one Read hands out. */
  function Taken(n: nat, buffered: nat, left: int): int {
    if buffered >= n then n
    else if buffered > 0 then buffered
    else if left >= n then n else left
  }

  /** `got` of the `size` bytes are in after filling `chunks` buffers, and the
      last of them was needed for the `used` bytes handed out. */
  predicate Fetched(size: int, chunks: int, got: int, used: int) {
    && got == (if 4096 * chunks <= size then 4096 * chunks else size)
    && 0 <= used <= got
    && (chunks > 0 ==> used > 4096 * (chunks - 1))
    && (chunks == 0 ==> used == 0)
  }

  lemma FetchNext(size: int, chunks: int, got: int, more: int)
    requires Fetched(size, chunks, got, got) && got < size
    requires more == (if size - got <= BUFFER then size - got else BUFFER)
    ensures Fetched(size, chunks + 1, got + more, got + 1)
  {
  }

  lemma FetchUse(size: int, chunks: int, got: int, used: int, k: int)
    requires Fetched(size, chunks, got, used) && 0 <= k && used + k <= got
    ensures Fetched(size, chunks, got, used + k)
  {
  }

  /** How many buffers `n` bytes take. */
  function Buffers(n: nat): nat {
    (n + 4095) / 4096
  }

  lemma FetchedExactly(size: int, chunks: int, got: int, used: nat)
    requires Fetched(size, chunks, got, used)
    ensures used <= got && (got == size <==> size <= 4096 * Buffers(used))
  {
  }

  // ---------- the store ----------

  const CLEAN_OFFSET_THRESHOLD := 1024 * 1024

  datatype Codec<!T> = Codec(encode: T -> Bytes, decode: Bytes -> Option<T>)

  function Encoded<T>(c: Codec<T>, reqs: seq<T>): (r: seq<Bytes>)
    ensures |r| == |reqs|
  {
    seq(|reqs|, i requires 0 <= i < |reqs| => c.encode(reqs[i]))
  }

  /** What decodes, up to the first payload that does not. */
  function DecodedPrefix<T>(c: Codec<T>, records: seq<Bytes>): (r: seq<T>)
    ensures |r| <= |records|
  {
    if records == [] || c.decode(records[0]) == None then []
    else [c.decode(records[0]).value] + DecodedPrefix(c, records[1..])
  }

  /** A stream that starts with the records in `a` and continues with those in `b`. */
  lemma SurroundedRecords(a: seq<Bytes>, b: seq<Bytes>, c: seq<Bytes>)
    ensures [] + RecordsBytes(a) + RecordsBytes(b) + RecordsBytes(c) == RecordsBytes(a + b + c)
  {
    RecordsJoin(a, b);
    RecordsJoin(a + b, c);
    assert [] + RecordsBytes(a) == RecordsBytes(a);
  }

  /** The bytes of the first `rows` records and one more. */
  function Lookahead(records: seq<Bytes>, rows: nat): nat {
    |RecordsBytes(if rows < |records| then records[..rows + 1] else records)|
  }

  lemma RecordsNext(records: seq<Bytes>, i: nat)
    requires i < |records|
    ensures RecordsBytes(records[..i + 1]) == RecordsBytes(records[..i]) + RecordBytes(records[i])
  {
    RecordsJoin(records[..i], [records[i]]);
    assert records[..i + 1] == records[..i] + [records[i]];
    assert RecordsBytes([records[i]]) == RecordBytes(records[i]);
  }

  lemma {:induction false} DecodedNext<T>(c: Codec<T>, records: seq<Bytes>, i: nat)
    requires i < |records| && |DecodedPrefix(c, records[..i])| == i
    ensures c.decode(records[i]).Some? ==>
            DecodedPrefix(c, records[..i + 1]) == DecodedPrefix(c, records[..i]) + [c.decode(records[i]).value]
    ensures c.decode(records[i]).None? ==>
            forall k :: i < k <= |records| ==> DecodedPrefix(c, records[..k]) == DecodedPrefix(c, records[..i])
  {
    if i > 0 {
      assert records[..i][1..] == records[1..][..i - 1];
      DecodedNext(c, records[1..], i - 1);
      assert forall k :: 0 < k <= |records| ==> records[..k][1..] == records[1..][..k - 1];
    }
  }

  /** How far Load has come: `index` records decoded and one more looked at. */
  ghost predicate Loading<T>(c: Codec<T>, all: seq<Bytes>, index: nat, reqs: seq<T>,
                             record: Option<Bytes>, used: int, dataLen: int) {
    && index <= |all| && |reqs| == index
    && reqs == DecodedPrefix(c, all[..index])
    && record == (if index < |all| then Some(all[index]) else None)
    && used == |RecordsBytes(all[..if index < |all| then index + 1 else index])|
    && dataLen == |RecordsBytes(all[..index])|
  }

  lemma LoadingNext<T>(c: Codec<T>, all: seq<Bytes>, index: nat, reqs: seq<T>, record: Option<Bytes>, used: int,
                       dataLen: int)
    requires Loading(c, all, index, reqs, record, used, dataLen) && record.Some?
    ensures |reqs| == index < |all| && record.value == all[index]
    ensures c.decode(all[index]).Some? ==>
            var next := if index + 1 < |all| then Some(all[index + 1]) else None;
            Loading(c, all, index + 1, reqs + [c.decode(all[index]).value], next,
                    if next == None then used else used + 2 + |all[index + 1]|, dataLen + |all[index]| + 2)
    ensures c.decode(all[index]).None? ==>
            forall k :: index < k <= |all| ==> DecodedPrefix(c, all[..k]) == reqs
  {
    DecodedNext(c, all, index);
    RecordsNext(all, index);
    if index + 1 < |all| { RecordsNext(all, index + 1); }
  }

  lemma LoadingEnds<T>(c: Codec<T>, all: seq<Bytes>, rows: nat, index: nat, reqs: seq<T>, record: Option<Bytes>,
                       used: int, dataLen: int)
    requires Loading(c, all, index, reqs, record, used, dataLen) && index <= rows && (index < rows ==> record == None)
    ensures |reqs| == index == if rows < |all| then rows else |all|
    ensures reqs == DecodedPrefix(c, all[..index]) && dataLen == |RecordsBytes(all[..index])|
    ensures used == Lookahead(all, rows)
  {
    assert all[..|all|] == all;
  }

  lemma StartsLoading<T>(c: Codec<T>, all: seq<Bytes>)
    ensures Loading(c, all, 0, [], if all == [] then None else Some(all[0]),
                    if all == [] then 0 else 2 + |all[0]|, 0)
  {
    if all != [] { RecordsNext(all, 0); }
  }

  lemma RecordsSplit(all: seq<Bytes>, k: nat)
    requires k <= |all|
    ensures |RecordsBytes(all[..k])| <= |RecordsBytes(all)|
    ensures RecordsBytes(all)[|RecordsBytes(all[..k])|..] == RecordsBytes(all[k..])
  {
    RecordsJoin(all[..k], all[k..]);
    assert all[..k] + all[k..] == all;
  }

  lemma LookaheadCovers(records: seq<Bytes>, rows: nat)
    ensures var k := if rows < |records| then rows else |records|;
      |RecordsBytes(records[..k])| <= Lookahead(records, rows)
  {
    if rows < |records| {
      RecordsSplit(records[..rows + 1], rows);
      assert records[..rows + 1][..rows] == records[..rows];
    } else {
      assert records[..|records|] == records;
    }
  }

  class FileStore<T> {
    const codec: Codec<T>
    const file: File
    var offset: nat
    ghost var pending: seq<Bytes>

    /** The unread part of the file is the pending records and nothing else. */
    ghost predicate Valid()
      reads this, file
    {
      && offset <= |file.content| && file.cursor <= |file.content|
      && Short(pending)
      && file.content[offset..] == RecordsBytes(pending)
    }

    ghost predicate AtEnd()
      reads this, file
    {
      file.cursor == |file.content|
    }

    /** Whether loading `rows` records leaves the cursor at the end of the file:
        the consumed part is cleaned away, or the buffers filled reach the end. */
    ghost predicate ReachesEnd(rows: nat)
      requires Valid()
      reads this, file
    {
      var k := if rows < |pending| then rows else |pending|;
      offset + |RecordsBytes(pending[..k])| > CLEAN_OFFSET_THRESHOLD ||
      |file.content| - offset <= 4096 * Buffers(Lookahead(pending, rows))
    }

    /** Open, on what an earlier process left. */
    constructor (codec: Codec<T>, file: File, ghost records: seq<Bytes>)
      requires file.content == RecordsBytes(records) && Short(records) && file.cursor == 0
      ensures Valid() && this.codec == codec && this.file == file && pending == records && offset == 0
    {
      this.codec := codec;
      this.file := file;
      this.offset := 0;
      this.pending := records;
    }

    method DoWrite(reqs: seq<T>)
      modifies file
      ensures file.content == Overwritten(old(file.content), old(file.cursor), RecordsBytes(Encoded(codec, reqs)))
      ensures file.cursor == old(file.cursor) + |RecordsBytes(Encoded(codec, reqs))|
      ensures old(AtEnd()) ==> AtEnd() && file.content == old(file.content) + RecordsBytes(Encoded(codec, reqs))
    {
      var out: Bytes := [];
      for i := 0 to |reqs|
        invariant file.content == old(file.content) && file.cursor == old(file.cursor)
        invariant out == RecordsBytes(Encoded(codec, reqs)[..i])
      {
        var data := codec.encode(reqs[i]);
        RecordsJoin(Encoded(codec, reqs)[..i], [data]);
        assert Encoded(codec, reqs)[..i + 1] == Encoded(codec, reqs)[..i] + [data];
        assert RecordsBytes([data]) == RecordBytes(data);
        out := out + RecordBytes(data);
      }
      assert Encoded(codec, reqs)[..|reqs|] == Encoded(codec, reqs);
      file.Write(out);
    }

    /** Store: the records are written at the cursor.  If that is the end of the
        file, they come after all pending ones. */
    method Store(reqs: seq<T>)
      modifies this, file
      ensures file.content == Overwritten(old(file.content), old(file.cursor), RecordsBytes(Encoded(codec, reqs)))
      ensures file.cursor == old(file.cursor) + |RecordsBytes(Encoded(codec, reqs))| && offset == old(offset)
      ensures old(Valid() && AtEnd()) && Short(Encoded(codec, reqs)) ==>
        Valid() && AtEnd() && pending == old(pending) + Encoded(codec, reqs)
    {
      hide RecordsBytes, Overwritten, Encoded;
      ghost var fits := Valid() && AtEnd() && Short(Encoded(codec, reqs));
      DoWrite(reqs);
      if fits {
        assert file.content[offset..] == old(file.content[offset..]) + RecordsBytes(Encoded(codec, reqs));
        RecordsJoin(pending, Encoded(codec, reqs));
        pending := pending + Encoded(codec, reqs);
      }
    }

    /** Truncate: the unread part between two new parts, and nothing else. */
    method Truncate(before: seq<T>, after: seq<T>)
      requires Valid() && Short(Encoded(codec, before)) && Short(Encoded(codec, after))
      modifies this, file
      ensures Valid() && AtEnd() && offset == 0
      ensures pending == Encoded(codec, before) + old(pending) + Encoded(codec, after)
      ensures file.content == RecordsBytes(pending)
    {
      hide RecordsBytes, Overwritten, Encoded;
      var data := file.content[offset..];
      file.content := [];
      file.cursor := 0;
      DoWrite(before);
      file.Write(data);
      DoWrite(after);
      offset := 0;
      SurroundedRecords(Encoded(codec, before), pending, Encoded(codec, after));
      pending := Encoded(codec, before) + pending + Encoded(codec, after);
      assert file.content[0..] == file.content;
    }

    /** Load: at most `rows` of the oldest records.  It reads one record more
        than it takes, and what a buffer brought in beyond that, so afterwards
        the cursor is at the end only if the buffers it filled reach that far.
        A payload that does not decode empties the file. */
    method Load(rows: nat) returns (reqs: seq<T>)
      requires Valid()
      modifies this, file
      ensures Valid()
      ensures var k := if rows < |old(pending)| then rows else |old(pending)|;
        reqs == DecodedPrefix(codec, old(pending)[..k]) &&
        if |reqs| < k then pending == [] && file.content == [] && offset == 0 && AtEnd()
        else
          pending == old(pending)[k..] && (AtEnd() <==> old(ReachesEnd(rows))) &&
          var end := old(offset) + |RecordsBytes(old(pending)[..k])|;
          if end <= CLEAN_OFFSET_THRESHOLD
          then file.content == old(file.content) && offset == end <= file.cursor else offset == 0
    {
      hide RecordsBytes, DecodedPrefix, Fetched, Lookahead;
      file.cursor := offset;
      var reader := new Reader(file);
      ghost var all := pending;
      var broken, dataLen;
      reqs, dataLen, broken := Collect(reader, rows);
      if broken {
        file.content := [];
        file.cursor := 0;
        offset := 0;
        pending := [];
        assert RecordsBytes(all[..0]) == [] by { RecordsSplit(all, 0); }
        return;
      }
      FetchedExactly(|file.content| - offset, reader.chunks, file.cursor - offset, Lookahead(all, rows));
      LookaheadCovers(all, rows);
      Advance(|reqs|, dataLen);
    }

    /** The records read are done with; a long stretch of them is cleaned away. */
    method Advance(k: nat, dataLen: nat)
      requires Valid() && k <= |pending| && dataLen == |RecordsBytes(pending[..k])|
      modifies this, file
      ensures Valid() && pending == old(pending)[k..]
      ensures if old(offset) + dataLen <= CLEAN_OFFSET_THRESHOLD
        then file.content == old(file.content) && file.cursor == old(file.cursor) && offset == old(offset) + dataLen
        else offset == 0 && AtEnd()
    {
      hide RecordsBytes;
      RecordsSplit(pending, k);
      assert file.content[offset..][dataLen..] == file.content[offset + dataLen..];
      pending := pending[k..];
      offset := offset + dataLen;
      if CLEAN_OFFSET_THRESHOLD < offset {
        Truncate([], []);
      }
    }

    /** The loop of Load. */
    method Collect(reader: Reader, rows: nat) returns (reqs: seq<T>, dataLen: nat, broken: bool)
      requires Valid() && reader.file == file && reader.Valid() && reader.Lazy()
      requires reader.start == offset == reader.Pos()
      modifies reader, file
      ensures file.content == old(file.content) && file.cursor <= |file.content|
      ensures var k := if rows < |pending| then rows else |pending|;
        reqs == DecodedPrefix(codec, pending[..k]) && (broken <==> |reqs| < k)
      ensures !broken ==>
        dataLen == |RecordsBytes(pending[..|reqs|])| &&
        Fetched(|file.content| - offset, reader.chunks, file.cursor - offset, Lookahead(pending, rows))
    {
      hide RecordsBytes, DecodedPrefix, Loading, Fetched;
      ghost var all := pending;
      reqs, dataLen, broken := [], 0, false;
      var index := 0;
      assert all[0..] == all;
      StartsLoading(codec, all);
      var record := reader.ReadRecord(all);
      while index < rows && record != None
        invariant reader.Valid() && reader.Lazy() && file.content == old(file.content)
        invariant index <= rows
        invariant Loading(codec, all, index, reqs, record, reader.Pos() - offset, dataLen)
        invariant index < |all| ==> reader.Rest() == RecordsBytes(all[index + 1..])
      {
        LoadingNext(codec, all, index, reqs, record, reader.Pos() - offset, dataLen);
        var decoded := codec.decode(record.value);
        if decoded == None {
          return reqs, dataLen, true;
        }
        reqs := reqs + [decoded.value];
        dataLen := dataLen + |record.value| + 2;
        index := index + 1;
        assert all[index - 1..][1..] == all[index..];
        record := reader.ReadRecord(all[index..]);
      }
      LoadingEnds(codec, all, rows, index, reqs, record, reader.Pos() - offset, dataLen);
    }
  }

  // ---------- a load after which a store overwrites what is waiting ----------

  function Empties(n: nat): (r: seq<Bytes>)
    ensures |r| == n && forall i :: 0 <= i < n ==> r[i] == []
  {
    seq(n, _ => [])
  }

  lemma {:induction false} EmptiesBytes(n: nat)
    ensures RecordsBytes(Empties(n)) == seq(2 * n, _ => 0)
  {
    if n > 0 {
      assert Empties(n)[0] == [] && Empties(n)[1..] == Empties(n - 1);
      EmptiesBytes(n - 1);
      assert RecordBytes([]) == [0, 0];
    }
  }

  /** Three thousand empty records, of which one is loaded: the reader has filled
      one buffer, so the next record is written in the middle of those waiting. */
  method LoadThenStore() returns (waiting: Bytes, unread: Bytes)
    ensures |waiting| == 5998 && !(waiting <= unread)
  {
    hide RecordsBytes, Empties, Overwritten, DecodedPrefix;
    var file := new File(RecordsBytes(Empties(3000)));
    EmptiesBytes(3000);
    var codec: Codec<bool> := Codec(x => if x then [7] else [], data => Some(data != []));
    var store := new FileStore(codec, file, Empties(3000));
    FirstEmpties(3000, 1);
    FirstEmpties(3000, 2);
    var first := store.Load(1);
    OneDecoded(codec, Empties(3000));
    waiting := file.content[store.offset..];
    assert !store.AtEnd() && store.offset == 2;
    ghost var before, cursor := file.content, file.cursor;
    store.Store([true]);
    OneStored(codec, before, cursor);
    unread := file.content[store.offset..];
    assert unread[cursor - 2] == file.content[cursor] && waiting[cursor - 2] == before[cursor];
  }

  lemma FirstEmpties(n: nat, k: nat)
    requires k <= n
    ensures Empties(n)[..k] == Empties(k) && RecordsBytes(Empties(n)[..k]) == seq(2 * k, _ => 0)
  {
    EmptiesBytes(k);
  }

  lemma OneDecoded(codec: Codec<bool>, records: seq<Bytes>)
    requires codec.decode([]) == Some(false) && |records| > 0 && records[0] == []
    ensures |DecodedPrefix(codec, records[..1])| == 1
  {
    assert records[..1][0] == [] && records[..1][1..] == [];
  }

  lemma OneStored(codec: Codec<bool>, content: Bytes, cursor: nat)
    requires codec.encode(true) == [7] && cursor < |content|
    ensures |Overwritten(content, cursor, RecordsBytes(Encoded(codec, [true])))| >= |content|
    ensures Overwritten(content, cursor, RecordsBytes(Encoded(codec, [true])))[cursor] == 1
  {
    assert Encoded(codec, [true]) == [[7]] && [[7]][1..] == [];
    assert RecordsBytes([[7]]) == RecordBytes([7]) + [] == [1, 0, 7];
  }
}
