/**
  Bandwidth samples: the collector that sums packet lengths per endpoint, the
  engine that keeps a bounded run of samples in time order, and the report
  task that reads them window by window.
*/
module Samples {
  import opened Basics

  datatype Sample = Sample(ip: string, port: string, up: int, down: int, startTime: int, collectTime: int)

  datatype Direction = Up | Down | Other

  // ---------- the collector ----------

  /** AddPacketLen. */
  function WithPacket(s: Sample, n: int, d: Direction): Sample {
    match d
    case Up => s.(up := s.up + n)
    case Down => s.(down := s.down + n)
    case Other => s
  }

  function Key(ip: string, port: string): string {
    ip + ":" + port
  }

  /** Ports hold no colon, so the joined key names one endpoint. */
  lemma KeyInjective(ip: string, port: string, ip2: string, port2: string)
    requires ':' !in port && ':' !in port2 && Key(ip, port) == Key(ip2, port2)
    ensures ip == ip2 && port == port2
  {
    LastColon(ip, port);
    LastColon(ip2, port2);
    var k := Key(ip, port);
    assert |ip| == |ip2|;
    assert ip == k[..|ip|] && ip2 == k[..|ip|];
    assert port == k[|ip| + 1..] && port2 == k[|ip| + 1..];
  }

  lemma LastColon(ip: string, port: string)
    requires ':' !in port
    ensures Key(ip, port)[|ip|] == ':'
    ensures forall j :: |ip| < j < |Key(ip, port)| ==> Key(ip, port)[j] != ':'
  {
    forall j | |ip| < j < |Key(ip, port)| ensures Key(ip, port)[j] != ':' {
      assert Key(ip, port)[j] == port[j - |ip| - 1] && port[j - |ip| - 1] in port;
    }
  }

  /** Bytes in one direction over a run of samples. */
  function TotalUp(ss: seq<Sample>): int {
    if ss == [] then 0 else ss[0].up + TotalUp(ss[1..])
  }

  function TotalDown(ss: seq<Sample>): int {
    if ss == [] then 0 else ss[0].down + TotalDown(ss[1..])
  }

  lemma {:induction false} TotalsJoin(a: seq<Sample>, b: seq<Sample>)
    ensures TotalUp(a + b) == TotalUp(a) + TotalUp(b)
    ensures TotalDown(a + b) == TotalDown(a) + TotalDown(b)
  {
    if a == [] {
      assert a + b == b;
    } else {
      TotalsJoin(a[1..], b);
      assert (a + b)[1..] == a[1..] + b;
    }
  }

  /** Group. */
  method Group(ss: seq<Sample>) returns (upstream: int, downstream: int)
    ensures upstream == TotalUp(ss) && downstream == TotalDown(ss)
  {
    upstream, downstream := 0, 0;
    for i := 0 to |ss|
      invariant upstream == TotalUp(ss[..i]) && downstream == TotalDown(ss[..i])
    {
      TotalsJoin(ss[..i], [ss[i]]);
      assert ss[..i + 1] == ss[..i] + [ss[i]];
      upstream := upstream + ss[i].up;
      downstream := downstream + ss[i].down;
    }
    assert ss[..|ss|] == ss;
  }

  class BandwidthCollector {
    var stats: map<string, Sample>
    var lastCollectorTime: int

    constructor (now: int)
      ensures stats == map[] && lastCollectorTime == now
    {
      stats := map[];
      lastCollectorTime := now;
    }

    /** addPacketLen: only the endpoint's own sample changes. */
    method AddPacketLen(n: int, ip: string, port: string, d: Direction)
      modifies this`stats
      ensures stats.Keys == old(stats).Keys + {Key(ip, port)}
      ensures forall k :: k in old(stats) && k != Key(ip, port) ==> stats[k] == old(stats)[k]
      ensures var was := if Key(ip, port) in old(stats) then old(stats)[Key(ip, port)]
                         else Sample(ip, port, 0, 0, lastCollectorTime, 0);
        stats[Key(ip, port)] == WithPacket(was, n, d)
    {
      var key := Key(ip, port);
      if key !in stats {
        stats := stats[key := Sample(ip, port, 0, 0, lastCollectorTime, 0)];
      }
      stats := stats[key := WithPacket(stats[key], n, d)];
    }

    /** ExportAndClean: every endpoint's sample once, in some order, and a new start. */
    method ExportAndClean(endTime: int) returns (result: seq<Sample>, ghost keys: seq<string>)
      modifies this
      ensures |keys| == |result| && forall i, j :: 0 <= i < j < |keys| ==> keys[i] != keys[j]
      ensures forall k :: k in keys <==> k in old(stats)
      ensures forall i :: 0 <= i < |keys| ==> result[i] == old(stats)[keys[i]].(collectTime := endTime)
      ensures stats == map[] && lastCollectorTime == endTime
    {
      result, keys := [], [];
      var left := stats.Keys;
      while left != {}
        invariant left <= old(stats).Keys && stats == old(stats)
        invariant |keys| == |result| && forall i, j :: 0 <= i < j < |keys| ==> keys[i] != keys[j]
        invariant forall k :: k in keys <==> k in old(stats) && k !in left
        invariant forall i :: 0 <= i < |keys| ==> result[i] == old(stats)[keys[i]].(collectTime := endTime)
        decreases |left|
      {
        var k :| k in left;
        result := result + [stats[k].(collectTime := endTime)];
        keys := keys + [k];
        left := left - {k};
      }
      lastCollectorTime := endTime;
      stats := map[];
    }
  }

  // ---------- the engine ----------

  ghost predicate TimeOrdered(ss: seq<Sample>) {
    forall i, j :: 0 <= i < j < |ss| ==> ss[i].collectTime <= ss[j].collectTime
  }

  /** The samples a query asks for, one by one; an end of zero or less is none. */
  function Within(ss: seq<Sample>, from: int, to: int): seq<Sample> {
    if ss == [] then []
    else
      var rest := Within(ss[1..], from, to);
      if from <= ss[0].collectTime && (to > 0 ==> ss[0].collectTime < to) then [ss[0]] + rest else rest
  }

  function Chosen(ss: seq<Sample>, keep: Sample -> bool): seq<Sample> {
    if ss == [] then []
    else if keep(ss[0]) then [ss[0]] + Chosen(ss[1..], keep) else Chosen(ss[1..], keep)
  }

  lemma ShiftSlice(ss: seq<Sample>, a: nat, b: nat)
    requires 0 < a <= b <= |ss|
    ensures ss[a..b] == ss[1..][a - 1..b - 1]
  {
    forall k | 0 <= k < b - a ensures ss[a..b][k] == ss[1..][a - 1..b - 1][k] {
      assert ss[1..][a - 1 + k] == ss[a + k];
    }
  }

  lemma {:induction false} WithinCut(ss: seq<Sample>, from: int, to: int, a: nat, b: nat)
    requires a <= b <= |ss|
    requires forall i :: 0 <= i < a ==> ss[i].collectTime < from
    requires forall i :: a <= i < |ss| ==> from <= ss[i].collectTime
    requires to > 0 ==> forall i :: 0 <= i < b ==> ss[i].collectTime < to
    requires to > 0 ==> forall i :: b <= i < |ss| ==> to <= ss[i].collectTime
    requires to <= 0 ==> b == |ss|
    ensures Within(ss, from, to) == ss[a..b]
  {
    if ss != [] {
      if a > 0 {
        WithinCut(ss[1..], from, to, a - 1, b - 1);
        ShiftSlice(ss, a, b);
      } else if b > 0 {
        WithinCut(ss[1..], from, to, 0, b - 1);
        if b > 1 { ShiftSlice(ss, 1, b); }
        assert ss[0..b] == [ss[0]] + ss[1..b];
      } else {
        WithinCut(ss[1..], from, to, 0, 0);
      }
    }
  }

  lemma DropsFirst(a: seq<Sample>, b: seq<Sample>, k: nat)
    requires |a| <= k <= |a| + |b|
    ensures (a + b)[k..] == b[k - |a|..]
  {
  }

  lemma DropsSome(a: seq<Sample>, b: seq<Sample>, k: nat)
    requires k <= |a|
    ensures (a + b)[k..] == a[k..] + b
  {
  }

  class FileEngine {
    var data: seq<Sample>
    const capacity: int

    /** NewBandwidthEngine. */
    constructor (configured: int)
      ensures Valid() && data == []
      ensures capacity == if configured > 0 then configured else 4000
    {
      capacity := if configured > 0 then configured else 4000;
      data := [];
    }

    ghost predicate Valid()
      reads this
    {
      capacity > 0 && |data| <= capacity && TimeOrdered(data)
    }

    /** Add.  The deferred sort is of the slice as it was on entry, which is in
        order already; so the store stays in order exactly if what is kept of both
        is.  It panics exactly if half the capacity is to be dropped and less is
        there. */
    method Add(more: seq<Sample>) returns (panics: bool, ghost dropped: nat)
      requires Valid()
      modifies this
      ensures panics <==> |more| <= capacity < |old(data)| + |more| && |old(data)| < capacity / 2
      ensures panics ==> data == old(data)
      ensures dropped <= |old(data) + more| && (panics ==> dropped == 0)
      ensures |data| <= capacity && (Valid() <==> panics || TimeOrdered((old(data) + more)[dropped..]))
      ensures !panics ==> data == (old(data) + more)[dropped..]
      ensures |old(data)| + |more| <= capacity ==> dropped == 0
      ensures !panics && |old(data)| + |more| > capacity ==>
        |data| == capacity || (|more| <= capacity && dropped == capacity / 2)
      ensures !panics && |old(data)| + |more| > capacity >= |more| ==> dropped >= capacity / 2
      ensures |more| <= capacity - capacity / 2 ==> !panics && dropped <= |old(data)|
    {
      hide TimeOrdered;
      ghost var all := data + more;
      var length := |more|;
      dropped := 0;
      if length > capacity {
        dropped := |all| - capacity;
        DropsFirst(data, more, dropped);
        data := more[length - capacity..];
        return false, dropped;
      }
      var reduce := length + |data| - capacity;
      if reduce > 0 {
        if reduce < capacity / 2 {
          reduce := capacity / 2;
        }
        if reduce > |data| { return true, 0; }
        DropsSome(data, more, reduce);
        data := data[reduce..];
        dropped := reduce;
      }
      data := data + more;
      panics := false;
    }

    /** sort.Search for the first sample at or after `t`. */
    method FirstFrom(t: int) returns (i: nat)
      requires TimeOrdered(data)
      ensures i <= |data|
      ensures forall j :: 0 <= j < i ==> data[j].collectTime < t
      ensures forall j :: i <= j < |data| ==> t <= data[j].collectTime
    {
      i := 0;
      var j := |data|;
      while i < j
        invariant 0 <= i <= j <= |data|
        invariant forall k :: 0 <= k < i ==> data[k].collectTime < t
        invariant forall k :: j <= k < |data| ==> t <= data[k].collectTime
      {
        var h := (i + j) / 2;
        if data[h].collectTime >= t { j := h; } else { i := h + 1; }
      }
    }

    /** Query: Search, then Filter.  The slice expression panics exactly if a
        sample lies between an end and a later start. */
    method Query(keep: Sample -> bool, from: int, to: int) returns (r: seq<Sample>, panics: bool)
      requires Valid()
      ensures panics <==> to > 0 && exists s :: s in data && to <= s.collectTime < from
      ensures !panics ==> r == Chosen(Within(data, from, to), keep)
    {
      var start := FirstFrom(from);
      var end := |data|;
      if to > 0 {
        end := FirstFrom(to);
      }
      if start > end {
        assert data[end] in data;
        return [], true;
      }
      WithinCut(data, from, to, start, end);
      var found := data[start..end];
      r := [];
      for i := 0 to |found|
        invariant r == Chosen(found[..i], keep)
      {
        ChosenJoins(found[..i], [found[i]], keep);
        assert found[..i + 1] == found[..i] + [found[i]];
        if keep(found[i]) { r := r + [found[i]]; }
      }
      assert found[..|found|] == found;
      panics := false;
      forall s | s in data && to > 0 && to <= s.collectTime ensures from <= s.collectTime {
        var j :| 0 <= j < |data| && data[j] == s;
      }
    }
  }

  lemma {:induction false} ChosenJoins(a: seq<Sample>, b: seq<Sample>, keep: Sample -> bool)
    ensures Chosen(a + b, keep) == Chosen(a, keep) + Chosen(b, keep)
  {
    if a == [] {
      assert a + b == b;
    } else {
      ChosenJoins(a[1..], b, keep);
      assert (a + b)[1..] == a[1..] + b;
    }
  }

  // ---------- windows ----------

  datatype Report = Report(upTotal: int, downTotal: int, upstream: int, downstream: int)

  class ReportTask {
    const engine: FileEngine
    const streamIp: string
    const streamPorts: set<string>
    var lastStatTime: int
    var no: int

    constructor (engine: FileEngine, start: int, streamIp: string, streamPorts: set<string>)
      ensures this.engine == engine && lastStatTime == start && no == 0
      ensures this.streamIp == streamIp && this.streamPorts == streamPorts
    {
      this.engine := engine;
      this.streamIp := streamIp;
      this.streamPorts := streamPorts;
      lastStatTime := start;
      no := 0;
    }

    predicate OfSession(s: Sample) {
      |streamIp| > 0 ==> s.ip == streamIp
    }

    predicate OnStream(s: Sample) {
      streamPorts != {} ==> s.port in streamPorts
    }

    function Keep(): Sample -> bool {
      s => OfSession(s)
    }

    ghost function Window(now: int): seq<Sample>
      reads this, engine
    {
      Chosen(Within(engine.data, lastStatTime, now), Keep())
    }

    /** Some bytes in the window, and some of them on the stream's ports. */
    ghost predicate Reportable(w: seq<Sample>) {
      var streamed := Chosen(w, s => OnStream(s));
      w != [] && TotalUp(w) + TotalDown(w) >= 1 && TotalUp(streamed) + TotalDown(streamed) >= 1
    }

    /** periodFetchBandwidth: the window ends at `now` and the next one starts
        there, unless it is empty or the query fails; then it stays open. */
    method PeriodFetchBandwidth(now: int) returns (report: Option<Report>)
      requires engine.Valid()
      modifies this
      ensures old(lastStatTime) <= now ==>
        lastStatTime == if old(Window(now)) == [] then old(lastStatTime) else now
      ensures lastStatTime == old(lastStatTime) || (lastStatTime == now && old(Window(now)) != [])
      ensures report.Some? <==> no == old(no) + 1
      ensures report.None? ==> no == old(no)
      ensures old(lastStatTime) <= now ==> (report.Some? <==> Reportable(old(Window(now))))
      ensures report.Some? ==>
        var w := old(Window(now));
        var streamed := Chosen(w, s => OnStream(s));
        lastStatTime == now && w != [] &&
        Reportable(w) && report.value == Report(TotalUp(w), TotalDown(w), TotalUp(streamed), TotalDown(streamed))
    {
      var bandwidths, failed := engine.Query(Keep(), lastStatTime, now);
      if failed || bandwidths == [] { return None; }
      lastStatTime := now;
      var upTotal, downTotal := Group(bandwidths);
      if upTotal + downTotal < 1 { return None; }
      var streamed := Chosen(bandwidths, s => OnStream(s));
      var upstream, downstream := Group(streamed);
      if upstream + downstream < 1 { return None; }
      no := no + 1;
      return Some(Report(upTotal, downTotal, upstream, downstream));
    }
  }

  // ---------- every sample in one window ----------

  /** All samples that ever arrived, by position: those before `gone` have been
      dropped by the engine; `counted` were in a window of the report task, and `lost`
      were dropped before one reached them. */
  datatype History = History(arrived: seq<Sample>, gone: nat, last: int, counted: seq<nat>, lost: set<nat>)

  predicate InWindow(s: Sample, keep: Sample -> bool, from: int, to: int) {
    keep(s) && from <= s.collectTime < to
  }

  function Matching(ss: seq<Sample>, keep: Sample -> bool, from: int, to: int, lo: nat): (r: seq<nat>)
    ensures forall i :: i in r <==> lo <= i < |ss| && InWindow(ss[i], keep, from, to)
    ensures forall k :: 0 <= k < |r| ==> r[k] < |ss|
    ensures forall j, k :: 0 <= j < k < |r| ==> r[j] < r[k]
    decreases |ss| - lo
  {
    if lo >= |ss| then []
    else
      var rest := Matching(ss, keep, from, to, lo + 1);
      assert forall k :: 0 <= k < |rest| ==> rest[k] in rest;
      if InWindow(ss[lo], keep, from, to) then [lo] + rest else rest
  }

  function Picked(ss: seq<Sample>, at: seq<nat>): seq<Sample>
    requires forall k :: 0 <= k < |at| ==> at[k] < |ss|
  {
    if at == [] then [] else [ss[at[0]]] + Picked(ss, at[1..])
  }

  /** The positions of a window name what the query returns. */
  lemma {:induction false} MatchingIsQuery(ss: seq<Sample>, keep: Sample -> bool, from: int, to: int, lo: nat)
    requires lo <= |ss| && to > 0
    ensures Picked(ss, Matching(ss, keep, from, to, lo)) == Chosen(Within(ss[lo..], from, to), keep)
    decreases |ss| - lo
  {
    if lo < |ss| {
      MatchingIsQuery(ss, keep, from, to, lo + 1);
      assert ss[lo..][1..] == ss[lo + 1..] && ss[lo..][0] == ss[lo];
      var rest := Matching(ss, keep, from, to, lo + 1);
      assert ([lo] + rest)[1..] == rest;
    }
  }

  ghost predicate Increasing(at: seq<nat>) {
    forall j, k :: 0 <= j < k < |at| ==> at[j] < at[k]
  }

  /** Each sample of the session between the first start and the open window is
      counted once, or was dropped before its window closed. */
  ghost predicate ExactlyOnce(h: History, start: int, keep: Sample -> bool) {
    && TimeOrdered(h.arrived) && h.gone <= |h.arrived| && start <= h.last
    && Increasing(h.counted)
    && (forall i :: i in h.counted ==> i < |h.arrived| && InWindow(h.arrived[i], keep, start, h.last))
    && (forall i: nat :: i < |h.arrived| && InWindow(h.arrived[i], keep, start, h.last) ==>
      i in h.counted || i in h.lost)
    && (forall i :: i in h.lost ==> i < h.gone && i !in h.counted)
    && (forall i: nat :: i < h.gone ==> i in h.counted || i in h.lost)
  }

  /** The engine takes in `more` and then drops its `k` oldest samples. */
  function Stored(h: History, more: seq<Sample>, k: nat): History {
    var fallen := set i: nat | h.gone <= i < h.gone + k && i !in h.counted;
    h.(arrived := h.arrived + more, gone := h.gone + k, lost := h.lost + fallen)
  }

  function Fetched(h: History, now: int, keep: Sample -> bool): History {
    var at := Matching(h.arrived, keep, h.last, now, h.gone);
    if at == [] then h else h.(last := now, counted := h.counted + at)
  }

  /** The clock does not run back: nothing new is older than the open window. */
  lemma StoredExactly(h: History, start: int, keep: Sample -> bool, more: seq<Sample>, k: nat)
    requires ExactlyOnce(h, start, keep) && h.gone + k <= |h.arrived + more|
    requires TimeOrdered(h.arrived + more)
    requires forall i :: 0 <= i < |more| ==> h.last <= more[i].collectTime
    ensures ExactlyOnce(Stored(h, more, k), start, keep)
  {
    var r := Stored(h, more, k);
    assert forall i :: |h.arrived| <= i < |r.arrived| ==> r.arrived[i] == more[i - |h.arrived|];
    forall i | i in r.counted ensures i < |r.arrived| && InWindow(r.arrived[i], keep, start, r.last) {
      assert r.arrived[i] == h.arrived[i];
    }
  }

  lemma StoredTail(h: History, more: seq<Sample>, k: nat)
    requires h.gone <= |h.arrived| && h.gone + k <= |h.arrived + more|
    ensures Stored(h, more, k).last == h.last && h.gone + k <= |Stored(h, more, k).arrived|
    ensures Stored(h, more, k).arrived[h.gone + k..] == (h.arrived[h.gone..] + more)[k..]
    ensures Stored(h, more, k).gone == h.gone + k
  {
  }

  lemma TailOrdered(ss: seq<Sample>, k: nat)
    requires k <= |ss| && TimeOrdered(ss)
    ensures TimeOrdered(ss[k..])
  {
  }

  lemma EarlierFirst(ss: seq<Sample>, a: nat, b: nat)
    requires TimeOrdered(ss) && a < |ss| && b < |ss| && ss[a].collectTime < ss[b].collectTime
    ensures a < b
  {
    if b <= a { assert false; }
  }

  lemma FetchedExactly(h: History, start: int, keep: Sample -> bool, now: int)
    requires ExactlyOnce(h, start, keep) && h.last <= now
    ensures ExactlyOnce(Fetched(h, now, keep), start, keep)
  {
    var at := Matching(h.arrived, keep, h.last, now, h.gone);
    var r := Fetched(h, now, keep);
    if at != [] {
      forall j, k | 0 <= j < k < |r.counted| ensures r.counted[j] < r.counted[k] {
        var a, b := r.counted[j], r.counted[k];
        if j < |h.counted| <= k {
          assert a in h.counted && b in at;
          EarlierFirst(h.arrived, a, b);
        }
      }
      forall i | i in r.lost ensures i !in r.counted {
        assert i < h.gone;
      }
    }
  }

  /** One task of the engine over time. */
  class TaskRun {
    const engine: FileEngine
    const task: ReportTask
    const start: int
    ghost var h: History

    ghost predicate Valid()
      reads this, engine, task
    {
      && task.engine == engine && engine.Valid()
      && ExactlyOnce(h, start, task.Keep())
      && engine.data == h.arrived[h.gone..] && task.lastStatTime == h.last
    }

    constructor (engine: FileEngine, task: ReportTask)
      requires task.engine == engine && engine.Valid()
      ensures Valid() && h.counted == [] && h.lost == {}
      ensures start == task.lastStatTime && this.engine == engine && this.task == task
    {
      this.engine := engine;
      this.task := task;
      this.start := task.lastStatTime;
      this.h := History(engine.data, 0, task.lastStatTime, [], {});
    }

    /** The engine's collector ran: its batch is no older than what is kept. */
    method Collect(batch: seq<Sample>) returns (panics: bool, ghost k: nat)
      requires Valid() && TimeOrdered(h.arrived + batch)
      requires forall i :: 0 <= i < |batch| ==> task.lastStatTime <= batch[i].collectTime
      requires h.gone <= |h.arrived|
      modifies this, engine
      ensures Valid()
      ensures panics ==> h == old(h)
      ensures !panics ==> h == Stored(old(h), batch, k)
      ensures |batch| <= engine.capacity - engine.capacity / 2 ==> !panics
    {
      hide ExactlyOnce, TimeOrdered, Stored, FileEngine.Valid, ReportTask.Keep;
      ghost var all, was := h.arrived + batch, engine.data;
      assert all[h.gone..] == was + batch;
      panics, k := engine.Add(batch);
      if !panics {
        TailOrdered(all, h.gone + k);
        assert all[h.gone + k..] == all[h.gone..][k..];
        StoredExactly(h, start, task.Keep(), batch, k);
        StoredTail(h, batch, k);
        h := Stored(h, batch, k);
      }
    }

    /** The task's timer fired at `now`. */
    method Fetch(now: int) returns (report: Option<Report>)
      requires Valid() && task.lastStatTime <= now && now > 0
      modifies this, task
      ensures Valid() && h == Fetched(old(h), now, task.Keep())
    {
      ghost var at := Matching(h.arrived, task.Keep(), h.last, now, h.gone);
      MatchingIsQuery(h.arrived, task.Keep(), h.last, now, h.gone);
      FetchedExactly(h, start, task.Keep(), now);
      report := task.PeriodFetchBandwidth(now);
      h := Fetched(h, now, task.Keep());
    }
  }
}
