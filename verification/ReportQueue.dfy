/**
  The reporter's queue as one state machine: requests wait in the ring, in the
  file and in the overflow slice, while one loop reports them and any number
  of callers add to them.  The steps are those of the code between two points
  where another goroutine may run.
*/
module ReportQueues {

  datatype Queue<T> = Queue(ring: seq<T>, file: seq<T>, tmp: seq<T>, bufferOnly: bool)

  /** Everything waiting, in the order in which Stop writes it down. */
  function Contents<T>(q: Queue<T>): seq<T> {
    q.ring + q.file + q.tmp
  }

  function Least(a: int, b: int): int {
    if a < b then a else b
  }

  /** doAdd; `n` is the length of the buffers. */
  function Added<T>(q: Queue<T>, n: nat, req: T, force: bool): Queue<T> {
    if (q.bufferOnly || force) && |q.ring| < n then q.(ring := q.ring + [req])
    else if |q.tmp| + 1 >= n then q.(file := q.file + (q.tmp + [req]), tmp := [], bufferOnly := false)
    else q.(tmp := q.tmp + [req], bufferOnly := false)
  }

  /** tryLoadData: the file first, then the overflow slice. */
  function Loaded<T>(q: Queue<T>, n: nat): Queue<T>
    requires |q.ring| <= n
  {
    if |q.ring| == n then q else
    var k := Least(n - |q.ring|, |q.file|);
    var ring := q.ring + q.file[..k];
    var room := n - |ring|;
    if |q.tmp| > room then Queue(ring + q.tmp[..room], q.file[k..], q.tmp[room..], q.bufferOnly)
    else Queue(ring + q.tmp, q.file[k..], [], true)
  }

  /** Start, on the file that an earlier process left. */
  function Started<T>(file: seq<T>, n: nat): Queue<T> {
    var k := Least(n, |file|);
    Queue(file[..k], file[k..], [], k < n)
  }

  predicate Fits<T>(q: Queue<T>, n: nat) {
    |q.ring| <= n && |q.tmp| < n && (q.bufferOnly ==> q.tmp == [])
  }

  lemma ContentsSum<T>(q: Queue<T>)
    ensures multiset(Contents(q)) == multiset(q.ring) + multiset(q.file) + multiset(q.tmp)
  {
  }

  lemma AddedKeepsAll<T>(q: Queue<T>, n: nat, req: T, force: bool)
    requires Fits(q, n)
    ensures Fits(Added(q, n, req, force), n)
    ensures multiset(Contents(Added(q, n, req, force))) == multiset(Contents(q)) + multiset{req}
  {
    ContentsSum(q);
    ContentsSum(Added(q, n, req, force));
    hide Contents;
  }

  lemma Moved<T>(a: seq<T>, f: seq<T>, t: seq<T>, k: nat, j: nat)
    requires k <= |f| && j <= |t| && (k == |f| || j == 0)
    ensures (a + f[..k] + t[..j]) + f[k..] + t[j..] == a + f + t
  {
    assert f[..k] + f[k..] == f && t[..j] + t[j..] == t;
    if j == 0 {
      assert a + f[..k] + t[..j] == a + f[..k];
    } else {
      assert f[k..] == [] && f[..k] == f;
    }
  }

  lemma LoadedFits<T>(q: Queue<T>, n: nat)
    requires Fits(q, n)
    ensures Fits(Loaded(q, n), n)
  {
  }

  /** A load moves requests and keeps them all in order. */
  lemma LoadedKeepsOrder<T>(q: Queue<T>, n: nat)
    requires |q.ring| <= n
    ensures Contents(Loaded(q, n)) == Contents(q)
  {
    if |q.ring| < n {
      var k := Least(n - |q.ring|, |q.file|);
      var j := Least(n - |q.ring| - k, |q.tmp|);
      Moved(q.ring, q.file, q.tmp, k, j);
      assert q.tmp[..|q.tmp|] == q.tmp && q.tmp[|q.tmp|..] == [];
    }
  }

  /** A load fills the ring: it stops only when the ring is full or nothing waits
      elsewhere, and in the latter case new requests go straight into the ring. */
  lemma LoadedFills<T>(q: Queue<T>, n: nat)
    requires Fits(q, n)
    ensures Loaded(q, n).ring == Contents(q)[..Least(n, |Contents(q)|)]
    ensures |q.ring| < n && |Contents(q)| <= n ==> Loaded(q, n).bufferOnly
    ensures Loaded(q, n).bufferOnly && !q.bufferOnly ==> Loaded(q, n).tmp == []
  {
    LoadedKeepsOrder(q, n);
    assert |Loaded(q, n).ring| == Least(n, |Contents(q)|);
    assert Loaded(q, n).ring <= Contents(Loaded(q, n));
  }

  lemma StartedKeepsOrder<T>(file: seq<T>, n: nat)
    requires n > 0
    ensures Contents(Started(file, n)) == file && Fits(Started(file, n), n) && InOrder(Started(file, n))
    ensures |Started(file, n).ring| == Least(n, |file|) && (|file| < n ==> Started(file, n).bufferOnly)
  {
  }

  /** The file is written when the slice has reached the buffers' length, all of
      it and the new request at once; and never while there is room in the ring
      for a request that may go there. */
  lemma AddedInBatches<T>(q: Queue<T>, n: nat, req: T, force: bool)
    requires Fits(q, n)
    ensures var r := Added(q, n, req, force);
      if (q.bufferOnly || force) && |q.ring| < n then r.ring == q.ring + [req] && r.file == q.file && r.tmp == q.tmp
      else r.ring == q.ring && if r.tmp == [] then |r.file| == |q.file| + n else r.file == q.file
  {
  }

  // ---------- order ----------

  /** Nothing waits behind the ring while new requests go straight into it. */
  predicate InOrder<T>(q: Queue<T>) {
    q.bufferOnly ==> q.file == [] && q.tmp == []
  }

  lemma {:induction false} OnlyCopies<T>(req: T, s: seq<T>)
    ensures [req] + s == s + [req] <==> forall x :: x in s ==> x == req
  {
    if s != [] {
      OnlyCopies(req, s[1..]);
      if [req] + s == s + [req] {
        assert s[0] == ([req] + s)[0] == req;
        assert s == [req] + s[1..];
        assert s + [req] == [req] + (s[1..] + [req]);
        assert ([req] + s)[1..] == s;
        assert [req] + s[1..] == s[1..] + [req];
      }
      if forall x :: x in s ==> x == req {
        assert s[0] in s;
        assert s == [req] + s[1..];
        assert forall x :: x in s[1..] ==> x in s;
        assert [req] + s == [req] + (s[1..] + [req]) == ([req] + s[1..]) + [req];
      }
    }
  }

  /** A new request goes behind all others unless it enters the ring ahead of
      different ones in the file or the slice. */
  lemma AddedLastIff<T>(q: Queue<T>, n: nat, req: T)
    requires Fits(q, n)
    ensures Contents(Added(q, n, req, false)) == Contents(q) + [req] <==>
            !(q.bufferOnly && |q.ring| < n && exists x :: x in q.file + q.tmp && x != req)
  {
    var rest := q.file + q.tmp;
    if q.bufferOnly && |q.ring| < n {
      assert Contents(Added(q, n, req, false)) == q.ring + ([req] + rest);
      assert Contents(q) + [req] == q.ring + (rest + [req]);
      OnlyCopies(req, rest);
      SamePrefix(q.ring, [req] + rest, rest + [req]);
    } else {
      assert Contents(Added(q, n, req, false)) == Contents(q) + [req];
    }
  }

  lemma SamePrefix<T>(p: seq<T>, a: seq<T>, b: seq<T>)
    ensures p + a == p + b <==> a == b
  {
    assert (p + a)[|p|..] == a && (p + b)[|p|..] == b;
  }

  /** A load keeps the order promise exactly when it does not find the slice
      empty and more in the file than the ring can take. */
  lemma LoadedInOrderIff<T>(q: Queue<T>, n: nat)
    requires Fits(q, n) && InOrder(q)
    ensures InOrder(Loaded(q, n)) <==> !Overfull(q, n)
  {
  }

  predicate Overfull<T>(q: Queue<T>, n: nat) {
    |q.ring| < n && q.tmp == [] && |q.file| > n - |q.ring|
  }

  // ---------- runs ----------

  datatype Phase<T> = Idle | Sending(req: T) | Sent(req: T)

  datatype Machine<T> = Machine(q: Queue<T>, phase: Phase<T>, accepted: seq<T>, reported: seq<T>, again: seq<T>)

  datatype Event<T> =
    | Add(req: T)      // a caller's Add
    | Turn             // the loop looks at the ring, and loads when it is empty
    | Succeeded        // the request being sent is reported
    | Failed           // it is not
    | Dequeue          // the loop takes the reported request off the ring
    | Restart          // Stop, and Start in a new process

  predicate Enabled<T>(m: Machine<T>, e: Event<T>) {
    match e
    case Turn => m.phase.Idle?
    case Succeeded => m.phase.Sending?
    case Failed => m.phase.Sending?
    case Dequeue => m.phase.Sent?
    case _ => true
  }

  function Next<T>(m: Machine<T>, n: nat, e: Event<T>): Machine<T>
    requires |m.q.ring| <= n && (m.phase.Sent? ==> m.q.ring != [])
  {
    if !Enabled(m, e) then m else
    match e
    case Add(req) => m.(q := Added(m.q, n, req, false), accepted := m.accepted + [req])
    case Turn =>
      if m.q.ring != [] then m.(phase := Sending(m.q.ring[0])) else m.(q := Loaded(m.q, n))
    case Succeeded => m.(phase := Sent(m.phase.req), reported := m.reported + [m.phase.req])
    case Failed => m.(phase := Idle)
    case Dequeue => m.(phase := Idle, q := m.q.(ring := m.q.ring[1..]))
    case Restart =>
      m.(q := Started(Contents(m.q), n), phase := Idle,
         again := if m.phase.Sent? then m.again + [m.phase.req] else m.again)
  }

  /** The request in flight heads the ring: it leaves only after its own report. */
  ghost predicate Sound<T>(m: Machine<T>, n: nat) {
    && n > 0 && Fits(m.q, n)
    && (!m.phase.Idle? ==> m.q.ring != [] && m.q.ring[0] == m.phase.req)
  }

  ghost function InFlight<T>(m: Machine<T>): multiset<T> {
    if m.phase.Sent? then multiset{m.phase.req} else multiset{}
  }

  /** Every accepted request is reported or waits.  What is reported and still
      waits is in flight, or was when the process restarted. */
  ghost predicate Conserved<T>(m: Machine<T>) {
    multiset(m.accepted) + multiset(m.again) + InFlight(m) ==
    multiset(m.reported) + multiset(Contents(m.q))
  }

  lemma NextIsSound<T>(m: Machine<T>, n: nat, e: Event<T>)
    requires Sound(m, n)
    ensures Sound(Next(m, n, e), n)
  {
    if !Enabled(m, e) { return; }
    match e
    case Add(req) => AddedKeepsAll(m.q, n, req, false);
    case Turn => LoadedFits(m.q, n);
    case Restart => StartedKeepsOrder(Contents(m.q), n);
    case _ =>
  }

  lemma AddConserves<T>(m: Machine<T>, n: nat, req: T)
    requires Sound(m, n) && Conserved(m)
    ensures Conserved(Next(m, n, Add(req)))
  {
    hide Contents, Added;
    AddedKeepsAll(m.q, n, req, false);
    var q := Added(m.q, n, req, false);
    calc {
      multiset(m.accepted + [req]) + multiset(m.again) + InFlight(m);
      multiset(m.accepted) + multiset(m.again) + InFlight(m) + multiset{req};
      multiset(m.reported) + multiset(Contents(q));
    }
  }

  lemma DequeueConserves<T>(m: Machine<T>, n: nat)
    requires Sound(m, n) && Conserved(m) && m.phase.Sent?
    ensures Conserved(Next(m, n, Dequeue))
  {
    var rest := m.q.(ring := m.q.ring[1..]);
    ContentsSum(m.q);
    ContentsSum(rest);
    hide Contents;
    assert m.q.ring == [m.phase.req] + rest.ring;
    assert multiset(m.q.ring) == multiset{m.phase.req} + multiset(rest.ring);
    OneLess(multiset(m.accepted) + multiset(m.again), multiset(m.reported), multiset(Contents(rest)),
            multiset(Contents(m.q)), m.phase.req);
  }

  lemma OneLess<T>(a: multiset<T>, b: multiset<T>, less: multiset<T>, more: multiset<T>, x: T)
    requires a + multiset{x} == b + more && more == multiset{x} + less
    ensures a == b + less
  {
    assert a + multiset{x} == b + less + multiset{x};
    assert (a + multiset{x}) - multiset{x} == a;
  }

  lemma SucceededConserves<T>(m: Machine<T>, n: nat)
    requires Sound(m, n) && Conserved(m) && m.phase.Sending?
    ensures Conserved(Next(m, n, Succeeded))
  {
    hide Contents;
    calc {
      multiset(m.accepted) + multiset(m.again) + multiset{m.phase.req};
      multiset(m.accepted) + multiset(m.again) + multiset{} + multiset{m.phase.req};
      multiset(m.reported) + multiset(Contents(m.q)) + multiset{m.phase.req};
      multiset(m.reported + [m.phase.req]) + multiset(Contents(m.q));
    }
  }

  lemma NextConserves<T>(m: Machine<T>, n: nat, e: Event<T>)
    requires Sound(m, n) && Conserved(m)
    ensures Sound(Next(m, n, e), n) && Conserved(Next(m, n, e))
  {
    NextIsSound(m, n, e);
    if !Enabled(m, e) { return; }
    hide Contents, Added, Loaded, Started, Sound;
    match e
    case Add(req) => AddConserves(m, n, req);
    case Turn => LoadedKeepsOrder(m.q, n);
    case Succeeded => SucceededConserves(m, n);
    case Dequeue => DequeueConserves(m, n);
    case Restart =>
      StartedKeepsOrder(Contents(m.q), n);
      if m.phase.Sent? {
        assert multiset(m.again + [m.phase.req]) == multiset(m.again) + multiset{m.phase.req};
      }
    case Failed =>
  }

  function Run<T>(m: Machine<T>, n: nat, events: seq<Event<T>>): (r: Machine<T>)
    requires Sound(m, n) && Conserved(m)
    ensures Sound(r, n) && Conserved(r)
    decreases |events|
  {
    if events == [] then m
    else
      NextConserves(m, n, events[0]);
      Run(Next(m, n, events[0]), n, events[1..])
  }

  /** A new queue over the file of an earlier process. */
  function Begun<T>(file: seq<T>, n: nat): Machine<T> {
    Machine(Started(file, n), Idle, file, [], [])
  }

  /** Over every run of any interleaving, nothing is lost and nothing invented. */
  lemma NothingLost<T>(file: seq<T>, n: nat, events: seq<Event<T>>)
    requires n > 0
    ensures Sound(Begun(file, n), n) && Conserved(Begun(file, n))
    ensures var m := Run(Begun(file, n), n, events);
      multiset(m.accepted) + multiset(m.again) + InFlight(m) == multiset(m.reported) + multiset(Contents(m.q))
  {
    StartedKeepsOrder(file, n);
  }

  /** Requests are reported in the order of their acceptance. */
  ghost predicate Ordered<T>(m: Machine<T>) {
    && InOrder(m.q)
    && (m.phase.Sent? ==> m.reported != [] && m.reported[|m.reported| - 1] == m.phase.req)
    && m.accepted == (if m.phase.Sent? then m.reported[..|m.reported| - 1] else m.reported) + Contents(m.q)
  }

  /** The step neither leaves records in the file behind an empty slice nor
      restarts with a request reported but still in the ring. */
  predicate Calm<T>(m: Machine<T>, n: nat, e: Event<T>) {
    && !(e == Turn && m.phase.Idle? && m.q.ring == [] && Overfull(m.q, n))
    && !(e == Restart && m.phase.Sent?)
  }

  ghost predicate AllCalm<T>(m: Machine<T>, n: nat, events: seq<Event<T>>)
    requires Sound(m, n)
    decreases |events|
  {
    events == [] ||
    (NextIsSound(m, n, events[0]);
     Calm(m, n, events[0]) && AllCalm(Next(m, n, events[0]), n, events[1..]))
  }

  lemma NextOrdered<T>(m: Machine<T>, n: nat, e: Event<T>)
    requires Sound(m, n) && Ordered(m) && Calm(m, n, e)
    ensures Ordered(Next(m, n, e))
  {
    if !Enabled(m, e) { return; }
    match e
    case Add(req) => AddedLastIff(m.q, n, req);
    case Turn => TurnOrdered(m, n);
    case Restart => StartedKeepsOrder(Contents(m.q), n);
    case Dequeue => DequeueOrdered(m, n);
    case _ =>
  }

  lemma TurnOrdered<T>(m: Machine<T>, n: nat)
    requires Sound(m, n) && Ordered(m) && Calm(m, n, Turn) && m.phase.Idle?
    ensures Ordered(Next(m, n, Turn))
  {
    LoadedInOrderIff(m.q, n);
    LoadedKeepsOrder(m.q, n);
    hide Contents, Loaded, InOrder;
  }

  lemma DequeueOrdered<T>(m: Machine<T>, n: nat)
    requires Sound(m, n) && Ordered(m) && m.phase.Sent?
    ensures Ordered(Next(m, n, Dequeue))
  {
    var rest := m.q.(ring := m.q.ring[1..]);
    assert m.q.ring == [m.phase.req] + rest.ring;
    assert Contents(m.q) == [m.phase.req] + Contents(rest);
    assert m.reported == m.reported[..|m.reported| - 1] + [m.phase.req];
  }

  lemma {:induction false} RunOrdered<T>(m: Machine<T>, n: nat, events: seq<Event<T>>)
    requires Sound(m, n) && Conserved(m) && Ordered(m) && AllCalm(m, n, events)
    ensures Ordered(Run(m, n, events))
    decreases |events|
  {
    if events != [] {
      NextOrdered(m, n, events[0]);
      NextConserves(m, n, events[0]);
      RunOrdered(Next(m, n, events[0]), n, events[1..]);
    }
  }

  // ---------- progress ----------

  /** What is still to be reported, in order. */
  function Unreported<T>(m: Machine<T>): seq<T>
    requires m.phase.Sent? ==> m.q.ring != []
  {
    if m.phase.Sent? then Contents(m.q)[1..] else Contents(m.q)
  }

  /** The loop alone, with reports that succeed. */
  predicate LoopOnly<T>(events: seq<Event<T>>) {
    forall i :: 0 <= i < |events| ==> events[i].Turn? || events[i].Succeeded? || events[i].Dequeue?
  }

  /** What the loop does next. */
  function Step<T>(m: Machine<T>): Event<T> {
    match m.phase
    case Idle => Turn
    case Sending(_) => Succeeded
    case Sent(_) => Dequeue
  }

  /** How far the loop is from having reported all that waits. */
  function StepsLeft<T>(m: Machine<T>): nat
    requires !m.phase.Idle? ==> m.q.ring != []
  {
    4 * |Unreported(m)| + (match m.phase
                           case Idle => if m.q.ring == [] then 0 else -1
                           case Sending(_) => -2
                           case Sent(_) => 1)
  }

  /** One step of the loop while something waits: it reports in order, nothing
      else, and comes nearer to the end. */
  lemma StepProgress<T>(m: Machine<T>, n: nat)
    requires Sound(m, n) && Contents(m.q) != []
    ensures Sound(Next(m, n, Step(m)), n) && Next(m, n, Step(m)).accepted == m.accepted
    ensures var r := Next(m, n, Step(m));
      StepsLeft(r) < StepsLeft(m) && r.reported + Unreported(r) == m.reported + Unreported(m)
  {
    NextIsSound(m, n, Step(m));
    match m.phase
    case Idle =>
      LoadedFills(m.q, n);
      LoadedKeepsOrder(m.q, n);
      hide Contents, Loaded;
    case Sending(req) =>
      SentNext(m.reported, Contents(m.q), req);
      hide Contents;
    case Sent(req) =>
      var rest := m.q.(ring := m.q.ring[1..]);
      assert Contents(m.q)[1..] == Contents(rest);
  }

  lemma SentNext<T>(reported: seq<T>, waiting: seq<T>, req: T)
    requires waiting != [] && waiting[0] == req
    ensures (reported + [req]) + waiting[1..] == reported + waiting
  {
    assert waiting == [req] + waiting[1..];
  }

  /** From every state that can be reached, the loop alone reports all that waits,
      in order, within four steps a request, if its reports succeed. */
  lemma {:induction false} AllReported<T>(m: Machine<T>, n: nat) returns (events: seq<Event<T>>)
    requires Sound(m, n) && Conserved(m)
    ensures LoopOnly(events) && |events| <= StepsLeft(m) <= 4 * |Contents(m.q)|
    ensures var r := Run(m, n, events);
      r.phase.Idle? && Contents(r.q) == [] && r.reported == m.reported + Unreported(m) && r.accepted == m.accepted
    decreases StepsLeft(m)
  {
    hide Contents, Unreported, StepsLeft, Conserved, Next;
    StepsBound(m, n);
    events := [];
    if Contents(m.q) != [] {
      StepProgress(m, n);
      NextConserves(m, n, Step(m));
      var rest := AllReported(Next(m, n, Step(m)), n);
      RunFirst(m, n, Step(m), rest);
      events := [Step(m)] + rest;
    }
  }

  lemma StepsBound<T>(m: Machine<T>, n: nat)
    requires Sound(m, n)
    ensures StepsLeft(m) <= 4 * |Contents(m.q)|
    ensures Contents(m.q) == [] ==> m.phase.Idle? && Unreported(m) == []
  {
  }

  lemma RunFirst<T>(m: Machine<T>, n: nat, e: Event<T>, rest: seq<Event<T>>)
    requires Sound(m, n) && Conserved(m) && Sound(Next(m, n, e), n) && Conserved(Next(m, n, e))
    ensures Run(m, n, [e] + rest) == Run(Next(m, n, e), n, rest)
  {
    hide Next, Conserved;
    assert ([e] + rest)[1..] == rest;
  }

  /** Without calm steps the order can break: with buffers of length one and
      three requests in the file, the first reported, a load leaves the third
      behind and the next new request overtakes it once the second is reported. */
  lemma Overtaking()
    ensures var emptied := Started([1, 2, 3], 1).(ring := []);
      Fits(emptied, 1) && InOrder(emptied) && Overfull(emptied, 1) &&
      Loaded(emptied, 1) == Queue([2], [3], [], true) &&
      Contents(Added(Queue([], [3], [], true), 1, 4, false)) == [4, 3]
  {
    assert Started([1, 2, 3], 1) == Queue([1], [2, 3], [], false);
    assert Added(Queue([], [3], [], true), 1, 4, false) == Queue([4], [3], [], true);
  }
}
