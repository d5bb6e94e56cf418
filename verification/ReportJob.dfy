/**
  The bandwidth report job: the ring, the overflow slice and the file store
  joined, one method for each piece of code that runs without interruption.
  Each method is proved to make the step of ReportQueues it is named after.
*/
module ReportJobs {
  import opened Basics
  import opened RingBuffs
  import FileStores
  import opened ReportQueues

  /** Decoding undoes encoding, and no payload is longer than a record can say. */
  ghost predicate Faithful<T(!new)>(c: FileStores.Codec<T>) {
    forall x: T :: |c.encode(x)| < 256 && c.decode(c.encode(x)) == Some(x)
  }

  lemma {:induction false} EncodedDecodes<T(!new)>(c: FileStores.Codec<T>, xs: seq<T>, k: nat)
    requires Faithful(c) && k <= |xs|
    ensures FileStores.DecodedPrefix(c, FileStores.Encoded(c, xs)[..k]) == xs[..k]
    ensures FileStores.Encoded(c, xs)[k..] == FileStores.Encoded(c, xs[k..])
    ensures FileStores.Short(FileStores.Encoded(c, xs))
  {
    if k > 0 {
      EncodedDecodes(c, xs[1..], k - 1);
      assert FileStores.Encoded(c, xs)[..k][1..] == FileStores.Encoded(c, xs[1..])[..k - 1];
      assert xs[..k] == [xs[0]] + xs[1..][..k - 1];
    }
  }

  lemma EncodedJoins<T>(c: FileStores.Codec<T>, a: seq<T>, b: seq<T>)
    ensures FileStores.Encoded(c, a + b) == FileStores.Encoded(c, a) + FileStores.Encoded(c, b)
  {
  }

  class ReportJob<T(0, !new)> {
    const bufLen: nat
    const ringBuff: RingBuff<T>
    const store: FileStores.FileStore<T>
    var tmp: seq<T>
    var dataBuffOnly: bool
    ghost var waiting: seq<T>

    ghost predicate Valid()
      reads this, ringBuff, store, store.file
    {
      && bufLen > 0 && ringBuff.Valid() && ringBuff.capacity == bufLen
      && Faithful(store.codec) && store.Valid()
      && store.pending == FileStores.Encoded(store.codec, waiting)
    }

    ghost function State(): Queue<T>
      requires ringBuff.Valid()
      reads this, ringBuff, ringBuff.items
    {
      Queue(ringBuff.Contents(), waiting, tmp, dataBuffOnly)
    }

    /** NewBandwidthReportJob, with the configured buffer length, and Open. */
    constructor (configured: int, store: FileStores.FileStore<T>, ghost waiting: seq<T>)
      requires store.Valid() && Faithful(store.codec)
      requires store.pending == FileStores.Encoded(store.codec, waiting)
      ensures Valid() && fresh(ringBuff) && fresh(ringBuff.items) && this.store == store
      ensures bufLen == if configured > 0 then configured else 500
      ensures State() == Queue([], waiting, [], false)
    {
      var len := if configured > 0 then configured else 500;
      bufLen := len;
      ringBuff := new RingBuff(len);
      this.store := store;
      tmp := [];
      dataBuffOnly := false;
      this.waiting := waiting;
    }

    /** Whether an addition writes the overflow slice to the file. */
    ghost predicate Flushes(forceAdd: bool)
      requires ringBuff.Valid()
      reads this, ringBuff, ringBuff.items
    {
      !((dataBuffOnly || forceAdd) && |ringBuff.Contents()| < bufLen) && |tmp| + 1 >= bufLen
    }

    /** The slice goes to where the file's cursor is.  If that is its end, or
        nothing is written, this is the step of the queue. */
    method DoAdd(req: T, forceAdd: bool)
      requires Valid() && Fits(State(), bufLen)
      modifies this, ringBuff, ringBuff.items, store, store.file
      ensures ringBuff.items == old(ringBuff.items)
      ensures old(!Flushes(forceAdd) || store.AtEnd()) ==>
        Valid() && State() == Added(old(State()), bufLen, req, forceAdd)
      ensures old(!Flushes(forceAdd)) ==> (store.AtEnd() <==> old(store.AtEnd()))
      ensures old(Flushes(forceAdd)) ==>
        ringBuff.Valid() && ringBuff.Contents() == old(ringBuff.Contents()) && tmp == [] && !dataBuffOnly
      ensures old(Flushes(forceAdd)) ==>
        store.file.content == FileStores.Overwritten(old(store.file.content), old(store.file.cursor),
                                FileStores.RecordsBytes(FileStores.Encoded(store.codec, old(tmp) + [req])))
      ensures old(Flushes(forceAdd) && store.AtEnd()) ==> store.AtEnd()
    {
      hide Faithful, RingBuff.Valid, RingBuff.Contents, FileStores.FileStore.Valid, FileStores.Encoded,
        FileStores.Overwritten;
      if dataBuffOnly || forceAdd {
        var ok := ringBuff.Enqueue(req);
        if ok { return; }
      }
      tmp := tmp + [req];
      if |tmp| >= bufLen {
        EncodedDecodes(store.codec, tmp, 0);
        EncodedJoins(store.codec, waiting, tmp);
        ghost var ends := store.AtEnd();
        store.Store(tmp);
        if ends { waiting := waiting + tmp; }
        tmp := [];
      }
      dataBuffOnly := false;
    }

    method Add(req: T, forceAdd: bool)
      requires Valid() && Fits(State(), bufLen)
      modifies this, ringBuff, ringBuff.items, store, store.file
      ensures ringBuff.items == old(ringBuff.items)
      ensures old(!Flushes(forceAdd) || store.AtEnd()) ==>
        Valid() && State() == Added(old(State()), bufLen, req, forceAdd)
      ensures old(!Flushes(forceAdd)) ==> (store.AtEnd() <==> old(store.AtEnd()))
      ensures old(Flushes(forceAdd)) ==>
        ringBuff.Valid() && ringBuff.Contents() == old(ringBuff.Contents()) && tmp == [] && !dataBuffOnly
      ensures old(Flushes(forceAdd)) ==>
        store.file.content == FileStores.Overwritten(old(store.file.content), old(store.file.cursor),
                                FileStores.RecordsBytes(FileStores.Encoded(store.codec, old(tmp) + [req])))
      ensures old(Flushes(forceAdd) && store.AtEnd()) ==> store.AtEnd()
    {
      DoAdd(req, forceAdd);
    }

    /** loadFromFile: the oldest waiting requests leave the file. */
    method LoadFromFile(rows: nat) returns (reqs: seq<T>)
      requires Valid()
      modifies this, store, store.file
      ensures Valid() && (store.AtEnd() <==> old(store.ReachesEnd(rows)))
      ensures reqs == old(waiting)[..Least(rows, |old(waiting)|)]
      ensures State() == old(State()).(file := old(waiting)[Least(rows, |old(waiting)|)..])
    {
      hide RingBuff.Contents, RingBuff.Valid, Faithful, FileStores.FileStore.ReachesEnd;
      EncodedDecodes(store.codec, waiting, Least(rows, |waiting|));
      reqs := store.Load(rows);
      waiting := waiting[|reqs|..];
    }

    /** The requests go into the ring, which has room for all of them. */
    method AddAll(reqs: seq<T>)
      requires Valid() && Fits(State(), bufLen)
      requires |ringBuff.Contents()| + |reqs| <= bufLen
      modifies this, ringBuff, ringBuff.items, store, store.file
      ensures Valid() && (store.AtEnd() <==> old(store.AtEnd())) && ringBuff.items == old(ringBuff.items)
      ensures State() == old(State()).(ring := old(State()).ring + reqs)
    {
      ghost var q := State();
      for i := 0 to |reqs|
        invariant Valid() && (store.AtEnd() <==> old(store.AtEnd())) && ringBuff.items == old(ringBuff.items)
        invariant State() == q.(ring := q.ring + reqs[..i])
      {
        hide Faithful, RingBuff.Contents, RingBuff.Valid, FileStores.FileStore.Valid, Valid, FileStores.FileStore.AtEnd;
        DoAdd(reqs[i], true);
        assert q.ring + reqs[..i + 1] == q.ring + reqs[..i] + [reqs[i]];
      }
      assert reqs[..|reqs|] == reqs;
    }

    /** It only moves requests into the ring; the cursor is where the load left it. */
    method TryLoadData()
      requires Valid() && Fits(State(), bufLen)
      modifies this, ringBuff, ringBuff.items, store, store.file
      ensures Valid() && ringBuff.items == old(ringBuff.items)
      ensures State() == Loaded(old(State()), bufLen)
      ensures store.AtEnd() <==>
        if old(ringBuff.SurplusCount()) > 0 then old(store.ReachesEnd(ringBuff.SurplusCount())) else old(store.AtEnd())
    {
      hide Faithful, RingBuff.Contents, FileStores.FileStore.Valid, FileStores.FileStore.ReachesEnd;
      ghost var q := State();
      if ringBuff.SurplusCount() == 0 { return; }
      var reqs := LoadFromFile(ringBuff.SurplusCount());
      AddAll(reqs);
      assert State() == Queue(q.ring + q.file[..|reqs|], q.file[|reqs|..], q.tmp, q.bufferOnly);
      AddBuffered();
    }

    /** The slice goes into the ring as far as there is room. */
    method AddBuffered()
      requires Valid() && Fits(State(), bufLen)
      modifies this, ringBuff, ringBuff.items, store, store.file
      ensures Valid() && ringBuff.items == old(ringBuff.items) && (store.AtEnd() <==> old(store.AtEnd()))
      ensures var q, room := old(State()), bufLen - |old(State()).ring|;
        State() == if |q.tmp| > room then q.(ring := q.ring + q.tmp[..room], tmp := q.tmp[room..])
                   else Queue(q.ring + q.tmp, q.file, [], true)
    {
      hide Faithful, RingBuff.Contents, FileStores.FileStore.Valid;
      ghost var r := State();
      var index := 0;
      var all := tmp;
      while index < |all|
        invariant Valid() && (store.AtEnd() <==> old(store.AtEnd())) && ringBuff.items == old(ringBuff.items)
        invariant index <= |all| && |r.ring| + index <= bufLen
        invariant State() == r.(ring := r.ring + all[..index])
      {
        hide RingBuff.Valid, Valid, FileStores.FileStore.AtEnd;
        if ringBuff.SurplusCount() > 0 {
          DoAdd(all[index], true);
          assert r.ring + all[..index + 1] == r.ring + all[..index] + [all[index]];
        } else {
          tmp := tmp[index..];
          return;
        }
        index := index + 1;
      }
      assert all[..index] == all;
      tmp := [];
      dataBuffOnly := true;
    }

    /** Start: the file's first requests fill the ring. */
    method Start()
      requires Valid() && State() == Queue([], waiting, [], false)
      modifies this, ringBuff, ringBuff.items, store, store.file
      ensures Valid() && (store.AtEnd() <==> old(store.ReachesEnd(bufLen))) && ringBuff.items == old(ringBuff.items)
      ensures State() == Started(old(waiting), bufLen)
    {
      hide Faithful, FileStores.FileStore.Valid, FileStores.FileStore.ReachesEnd, FileStores.FileStore.AtEnd;
      var reqs := LoadFromFile(bufLen);
      AddAll(reqs);
      if ringBuff.SurplusCount() > 0 {
        dataBuffOnly := true;
      }
    }

    /** Stop: the file now holds all that was waiting, in order, and nothing else. */
    method Stop()
      requires Valid() && Fits(State(), bufLen)
      modifies this, store, store.file
      ensures store.Valid() && store.offset == 0
      ensures store.pending == FileStores.Encoded(store.codec, Contents(old(State())))
      ensures store.file.content == FileStores.RecordsBytes(store.pending)
    {
      var surplus := ringBuff.Surplus();
      EncodedDecodes(store.codec, surplus, 0);
      EncodedDecodes(store.codec, tmp, 0);
      EncodedJoins(store.codec, surplus, waiting);
      EncodedJoins(store.codec, surplus + waiting, tmp);
      store.Truncate(surplus, tmp);
      waiting := surplus + waiting + tmp;
    }

    /** The top of the loop in loopReport: the request to send now, if any. */
    method Turn() returns (req: Option<T>)
      requires Valid() && Fits(State(), bufLen)
      modifies this, ringBuff, ringBuff.items, store, store.file
      ensures Valid() && ringBuff.items == old(ringBuff.items)
      ensures old(State()).ring != [] ==> req == Some(old(State()).ring[0]) && State() == old(State())
      ensures old(State()).ring == [] ==> req == None && State() == Loaded(old(State()), bufLen)
      ensures store.AtEnd() <==>
        if old(State()).ring == [] then old(store.ReachesEnd(bufLen)) else old(store.AtEnd())
    {
      hide Faithful, FileStores.FileStore.Valid, FileStores.FileStore.ReachesEnd, FileStores.FileStore.AtEnd;
      req := ringBuff.Current();
      if req == None {
        TryLoadData();
      }
    }

    /** What the loop does once the request it sent has been reported. */
    method Dequeue()
      requires Valid() && State().ring != []
      modifies ringBuff
      ensures Valid() && ringBuff.items == old(ringBuff.items)
      ensures State() == old(State()).(ring := old(State()).ring[1..])
    {
      var _ := ringBuff.Dequeue();
    }
  }
}
