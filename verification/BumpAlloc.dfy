/**
  The bump allocator through which eBPF programs write to user memory: one
  region, cut into a partition per CPU, each filled from its start and begun
  again when it is used up.
*/
module BumpAlloc {
  import opened Basics

  const PAGE := 4096
  const MAX_BUFFER_SIZE := 1024
  const MIN_BUFFER_SIZE := 1

  /** bound_number. */
  function Bounded(num: int, min: int, max: int): (r: int)
    requires min <= max
    ensures min <= r <= max && (min <= num <= max ==> r == num)
  {
    if num < min then min else if num > max then max else num
  }

  /** One allocation of a CPU: `round` counts how often its partition began again. */
  datatype Block = Block(round: nat, at: int, size: int)

  predicate Overlap(a: Block, b: Block) {
    a.at < b.at + b.size && b.at < a.at + a.size
  }

  lemma {:induction false} TimesGrows(part: nat, i: nat, j: nat)
    requires i < j
    ensures part * i + part <= part * j
    decreases j
  {
    if i + 1 < j { TimesGrows(part, i, j - 1); }
    assert part * j == part * (j - 1) + part;
  }

  lemma {:induction false} PagesAligned(part: nat, i: nat)
    requires PageAligned(part)
    ensures PageAligned(part * i)
  {
    if i > 0 {
      PagesAligned(part, i - 1);
      assert part * i == part * (i - 1) + part;
      SumAligned(part * (i - 1), part);
    }
  }

  predicate PageAligned(x: int) {
    x % PAGE == 0
  }

  predicate OnePage(at: int, size: int) {
    at % PAGE + size <= PAGE
  }

  /** The address after a block, rounded up to eight bytes. */
  function RoundedUp(x: int): (r: int)
    ensures r % 8 == 0 && x <= r < x + 8
    ensures forall e :: x <= e && e % 8 == 0 ==> r <= e
  {
    if x % 8 != 0 then x + (8 - x % 8) else x
  }

  /** Where a block of `size` bytes goes when `start` is free: here, or on the next page. */
  function Placed(start: int, size: int): int {
    if PAGE - start % PAGE < size then start + (PAGE - start % PAGE) else start
  }

  lemma PlacedFits(start: int, size: int, end: int)
    requires 0 < size <= MAX_BUFFER_SIZE && start % 8 == 0 && PageAligned(end) && start + size <= end
    ensures start <= Placed(start, size) && Placed(start, size) + size <= end
    ensures Placed(start, size) % 8 == 0 && OnePage(Placed(start, size), size)
  {
    var page, r, last := start / PAGE, start % PAGE, end / PAGE;
    assert start == PAGE * page + r && end == PAGE * last;
    if PAGE - r < size {
      var at := PAGE * (page + 1);
      assert Placed(start, size) == at;
      NextPage(page + 1);
    }
  }

  lemma NextPage(page: int)
    ensures (PAGE * page) % PAGE == 0 && (PAGE * page) % 8 == 0
  {
    assert PAGE * page == 8 * (512 * page);
  }

  /** The blocks of a CPU so far, and the round its partition is in. */
  datatype Log = Log(round: nat, blocks: seq<Block>)

  /** Each block lies in [from, to), is aligned and within one page; those of one
      round lie one behind the other, and those of the current one before `free`. */
  ghost predicate LogOk(l: Log, from: int, to: int, free: int) {
    && (forall i :: 0 <= i < |l.blocks| ==> BlockOk(l.blocks[i], from, to))
    && (forall i :: 0 <= i < |l.blocks| ==> l.blocks[i].round <= l.round)
    && (forall i :: 0 <= i < |l.blocks| && l.blocks[i].round == l.round ==>
          l.blocks[i].at + l.blocks[i].size <= free)
    && (forall i, j :: 0 <= i < j < |l.blocks| && l.blocks[i].round == l.blocks[j].round ==>
          l.blocks[i].at + l.blocks[i].size <= l.blocks[j].at)
  }

  predicate BlockOk(b: Block, from: int, to: int) {
    0 < b.size && from <= b.at && b.at + b.size <= to && b.at % 8 == 0 && OnePage(b.at, b.size)
  }

  lemma LogGrows(l: Log, from: int, to: int, free: int, b: Block, next: int)
    requires LogOk(l, from, to, free) && BlockOk(b, from, to) && b.round == l.round
    requires free <= b.at && b.at + b.size <= next
    ensures LogOk(l.(blocks := l.blocks + [b]), from, to, next)
  {
  }

  lemma LogBegins(l: Log, from: int, to: int, free: int)
    requires LogOk(l, from, to, free)
    ensures LogOk(l.(round := l.round + 1), from, to, from)
  {
  }

  lemma QuotientFits(x: int, n: nat)
    requires n > 0 && x >= 0
    ensures (x / n) * n <= x
  {
  }

  lemma PartitionsApart(start: int, end: int, n: nat, part: nat, a: nat, b: nat)
    requires part * n <= end - start && PageAligned(start) && PageAligned(part) && a < n
    ensures PageAligned(start + part * a) && PageAligned(start + part * a + part)
    ensures start <= start + part * a && start + part * a + part <= end
    ensures a < b ==> start + part * a + part <= start + part * b
  {
    PagesAligned(part, a);
    SumAligned(start, part * a);
    SumAligned(start + part * a, part);
    TimesGrows(part, a, n);
    if a < b { TimesGrows(part, a, b); }
    TimesNonNegative(part, a);
  }

  lemma SumAligned(x: int, y: int)
    requires PageAligned(x) && PageAligned(y)
    ensures PageAligned(x + y)
  {
  }

  function At(m: map<nat, Addr>, c: nat): Option<int> {
    if c in m then Some(m[c]) else None
  }

  /** What the map says of a CPU: nothing, or where its free part starts and
      where its partition ends. */
  ghost predicate CpuOk(start: Option<int>, end: Option<int>, l: Log, from: int, to: int) {
    && (start == None <==> end == None)
    && (start.Some? ==> from <= start.value <= to && start.value % 8 == 0 && end == Some(to))
    && LogOk(l, from, to, if start.Some? then start.value else from)
  }

  /** get_area_start and get_area_end set what is not set. */
  lemma AreaSet(start: Option<int>, end: Option<int>, l: Log, from: int, to: int)
    requires CpuOk(start, end, l, from, to) && 0 < from < to && from % 8 == 0
    ensures var s := if start.Some? && start.value != 0 then start.value else from;
            var e := if end.Some? && end.value != 0 then end.value else s + (to - from);
            e == to && from <= s <= to && s % 8 == 0 && CpuOk(Some(s), Some(e), l, from, to) &&
            LogOk(l, from, to, s) && (start.Some? ==> s == start.value) && (start == None ==> s == from)
  {
  }

  lemma AreaBeginsAgain(start: int, l: Log, from: int, to: int)
    requires CpuOk(Some(start), Some(to), l, from, to) && from <= to && from % 8 == 0
    ensures CpuOk(Some(from), Some(to), l.(round := l.round + 1), from, to)
  {
    LogBegins(l, from, to, start);
  }

  class Allocator {
    const totalCpus: nat
    const startAddr: int
    const endAddr: int
    var starts: map<nat, Addr>
    var ends: map<nat, Addr>
    ghost var logs: seq<Log>

    /** A region on page boundaries with at least a page for each CPU. */
    constructor (totalCpus: nat, startAddr: int, endAddr: int)
      requires totalCpus > 0 && 0 < startAddr <= endAddr < WORD && PageAligned(startAddr)
      requires PageAligned((endAddr - startAddr) / totalCpus) && (endAddr - startAddr) / totalCpus >= PAGE
      ensures Valid() && forall l :: l in logs ==> l.blocks == []
      ensures this.totalCpus == totalCpus && this.startAddr == startAddr && this.endAddr == endAddr
      ensures starts == map[] && ends == map[]
    {
      this.totalCpus := totalCpus;
      this.startAddr := startAddr;
      this.endAddr := endAddr;
      starts := map[];
      ends := map[];
      logs := seq(totalCpus, _ => Log(0, []));
    }

    function PartitionSize(): int
      requires totalCpus > 0
    {
      (endAddr - startAddr) / totalCpus
    }

    function From(cpu: nat): int
      requires totalCpus > 0
    {
      startAddr + PartitionSize() * cpu
    }

    function To(cpu: nat): int
      requires totalCpus > 0
    {
      From(cpu) + PartitionSize()
    }

    /** Page boundaries, and at least a page for each CPU. */
    predicate Region() {
      && totalCpus > 0 && 0 < startAddr <= endAddr < WORD && PageAligned(startAddr)
      && PageAligned(PartitionSize()) && PartitionSize() >= PAGE
    }

    ghost predicate Valid()
      reads this
    {
      && Region() && |logs| == totalCpus
      && forall c: nat :: c < totalCpus ==> CpuOk(At(starts, c), At(ends, c), logs[c], From(c), To(c))
    }

    /** Partitions of different CPUs do not meet, and all lie in the region. */
    lemma Partitions(a: nat, b: nat)
      requires Valid() && a < totalCpus
      ensures PageAligned(From(a)) && PageAligned(To(a)) && startAddr <= From(a) && To(a) <= endAddr
      ensures a < b ==> To(a) <= From(b)
      ensures To(a) == From(a) + PartitionSize()
    {
      var part := PartitionSize();
      QuotientFits(endAddr - startAddr, totalCpus);
      PartitionsApart(startAddr, endAddr, totalCpus, part, a, b);
    }

    /** Over every sequence of calls: blocks of different CPUs never overlap, nor
        do those of one CPU between two beginnings of its partition. */
    lemma Isolated(a: nat, b: nat, i: nat, j: nat)
      requires Valid() && a < totalCpus && b < totalCpus
      requires i < |logs[a].blocks| && j < |logs[b].blocks|
      requires a == b ==> i != j && logs[a].blocks[i].round == logs[a].blocks[j].round
      ensures !Overlap(logs[a].blocks[i], logs[b].blocks[j])
    {
      hide From, To, PartitionSize, PageAligned, OnePage;
      Partitions(a, b);
      Partitions(b, a);
      assert CpuOk(At(starts, a), At(ends, a), logs[a], From(a), To(a));
      assert CpuOk(At(starts, b), At(ends, b), logs[b], From(b), To(b));
      assert BlockOk(logs[a].blocks[i], From(a), To(a)) && BlockOk(logs[b].blocks[j], From(b), To(b));
    }

    method GetAreaStart(cpu: nat) returns (r: Addr)
      requires Region() && cpu < totalCpus
      modifies this`starts
      ensures starts == old(starts)[cpu := r]
      ensures r == if cpu in old(starts) && old(starts)[cpu] != 0 then old(starts)[cpu] else From(cpu)
    {
      RegionParts(cpu);
      if cpu !in starts || starts[cpu] == 0 {
        r := startAddr + PartitionSize() * cpu;
        starts := starts[cpu := r];
      } else {
        r := starts[cpu];
      }
    }

    method GetAreaEnd(cpu: nat, start: Addr) returns (r: Addr)
      requires Region() && cpu < totalCpus
      modifies this`ends
      ensures ends == old(ends)[cpu := r]
      ensures r == if cpu in old(ends) && old(ends)[cpu] != 0 then old(ends)[cpu] else (start + PartitionSize()) % WORD
    {
      if cpu !in ends || ends[cpu] == 0 {
        r := (start + PartitionSize()) % WORD;
        ends := ends[cpu := r];
      } else {
        r := ends[cpu];
      }
    }

    /** Whether the CPU has used its partition to the last byte. */
    predicate UsedUp(cpu: nat)
      requires totalCpus > 0
      reads this
    {
      At(starts, cpu) == Some(To(cpu))
    }

    /** Where the free part of the CPU's partition starts. */
    function FreeFrom(cpu: nat): Addr
      requires Region() && cpu < totalCpus
      reads this
    {
      RegionParts(cpu);
      if cpu in starts && starts[cpu] != 0 then starts[cpu] else From(cpu)
    }

    /** Where the CPU's partition ends. */
    function EndOf(cpu: nat): Addr
      requires Region() && cpu < totalCpus
      reads this
    {
      if cpu in ends && ends[cpu] != 0 then ends[cpu] else (FreeFrom(cpu) + PartitionSize()) % WORD
    }

    /** Whether `size` is more than what is left, both as unsigned 64-bit numbers. */
    predicate TooLittleLeft(cpu: nat, size: int)
      requires Region() && cpu < totalCpus
      reads this
    {
      (EndOf(cpu) - FreeFrom(cpu)) % WORD < if size < 0 then size + WORD else size
    }

    /** Where a request for `size` bytes starts: at the free part, or at the
        partition's beginning if too little is left. */
    function StartFor(cpu: nat, size: int): Addr
      requires Region() && cpu < totalCpus
      reads this
    {
      RegionParts(cpu);
      if TooLittleLeft(cpu, size) then From(cpu) else FreeFrom(cpu)
    }

    /** The free part of the CPU starts behind its partition. */
    predicate Escaped(cpu: nat)
      requires totalCpus > 0
      reads this
    {
      At(ends, cpu) == Some(To(cpu)) && At(starts, cpu).Some? && To(cpu) < At(starts, cpu).value <= endAddr + PAGE
    }

    /** The region does not lie at the very top of the address space. */
    predicate Low() {
      endAddr + PAGE + 0x8000_0000 <= WORD
    }

    /** What a call does to the maps and what it returns, in any state. */
    ghost predicate Called(cpu: nat, hasData: bool, n: int, written: bool, start: Addr, end: Addr,
                           starts0: map<nat, Addr>, ends0: map<nat, Addr>, r: Option<int>)
      reads this
    {
      if !hasData then r == None && starts == starts0 && ends == ends0
      else
        && r == (if written && startAddr <= Target(start, n) <= endAddr then Some(Target(start, n)) else None)
        && starts == starts0[cpu := if r.Some? then Bumped(r.value, n) else start]
        && ends == ends0[cpu := end]
    }

    /** write_target_data.  `written` is the outcome of the write to user memory.
        In a valid state a block lies in the partition of its CPU except in one
        case: an empty request when the partition is used up goes one byte beyond
        it.  From then on what is left is as good as endless: for all requests of
        no negative size, the CPU never begins again and its blocks lie behind its
        partition. */
    method WriteTargetData(cpu: nat, hasData: bool, size: int, written: bool)
      returns (r: Option<int>, ghost round: nat)
      requires Region() && cpu < totalCpus == |logs| && -0x8000_0000 <= size < 0x8000_0000
      modifies this
      ensures Called(cpu, hasData, Bounded(size, MIN_BUFFER_SIZE, MAX_BUFFER_SIZE), written,
                     old(StartFor(cpu, size)), old(EndOf(cpu)), old(starts), old(ends), r)
      ensures round == old(logs)[cpu].round + if hasData && old(TooLittleLeft(cpu, size)) then 1 else 0
      ensures logs ==
        old(logs)[cpu := Logged(old(logs)[cpu], round, r, Bounded(size, MIN_BUFFER_SIZE, MAX_BUFFER_SIZE))]
      ensures old(Valid()) && !(hasData && size == 0 && old(UsedUp(cpu))) ==> Valid()
      ensures old(Valid()) ==> (r.Some? <==> hasData && written)
      ensures old(Valid()) && r.Some? && !(size == 0 && old(UsedUp(cpu))) ==>
        InPartition(cpu, r.value, Bounded(size, MIN_BUFFER_SIZE, MAX_BUFFER_SIZE))
      ensures old(Valid()) && r.Some? && size == 0 && old(UsedUp(cpu)) ==> r.value == To(cpu) && Escaped(cpu)
      ensures Low() && old(Escaped(cpu)) && 0 <= size ==>
        Escaped(cpu) && round == old(logs)[cpu].round && (r.Some? ==> To(cpu) < r.value)
    {
      hide LogOk, CpuOk, OnePage, RoundedUp, From, To, PartitionSize, PageAligned, Valid, InPartition, Placed;
      round := logs[cpu].round;
      if !hasData {
        assert logs[cpu] == Logged(logs[cpu], round, None, 1);
        return None, round;
      }
      EscapedLeft(cpu, size);
      var start;
      start, round := FindStart(cpu, size);
      r := WriteAt(cpu, start, Bounded(size, MIN_BUFFER_SIZE, MAX_BUFFER_SIZE), written);
    }

    /** The free part starts at `start` and what is asked for fits. */
    ghost predicate Ready(cpu: nat, start: int, n: int)
      reads this
    {
      && Valid() && cpu < totalCpus && At(ends, cpu) == Some(To(cpu))
      && LogOk(logs[cpu], From(cpu), To(cpu), start) && From(cpu) <= start && start % 8 == 0 && start + n <= To(cpu)
    }

    /** The second half of write_target_data. */
    method WriteAt(cpu: nat, start: Addr, n: int, written: bool) returns (r: Option<int>)
      requires Region() && cpu < totalCpus == |logs| && At(starts, cpu) == Some(start)
      requires MIN_BUFFER_SIZE <= n <= MAX_BUFFER_SIZE
      modifies this`starts, this`logs
      ensures r == if written && startAddr <= Target(start, n) <= endAddr then Some(Target(start, n)) else None
      ensures starts == old(starts)[cpu := if r.Some? then Bumped(r.value, n) else start]
      ensures logs == old(logs)[cpu := Logged(old(logs)[cpu], old(logs)[cpu].round, r, n)]
      ensures old(Ready(cpu, start, n)) ==>
        Valid() && (r.Some? <==> written) && (r.Some? ==> InPartition(cpu, r.value, n))
      ensures old(Valid()) && At(ends, cpu) == Some(To(cpu)) && start == To(cpu) && n == 1 ==>
        (r.Some? <==> written) && if r.Some? then r.value == To(cpu) && Escaped(cpu) else Valid()
      ensures Low() && old(Escaped(cpu)) ==> Escaped(cpu) && (r.Some? ==> To(cpu) < r.value)
    {
      hide LogOk, CpuOk, OnePage, From, To, PartitionSize, PageAligned, Valid, InPartition, OthersValid, Target, Bumped;
      ghost var ready := Ready(cpu, start, n);
      ghost var usedUp := Valid() && At(ends, cpu) == Some(To(cpu)) && start == To(cpu) && n == 1;
      var target: Addr := MoveToPage(start, n);
      if ready { PlacedInside(cpu, start, n); }
      if usedUp { EndIsPlaced(cpu); }
      ghost var l, starts0, logs0 := logs[cpu], starts, logs;
      if target > endAddr || target < startAddr || !written {
        assert l == Logged(l, l.round, None, n);
        return None;
      }
      if ready { ValidOthers(cpu); }
      var updatedStart: Addr := BehindBlock(target, n);
      starts := starts[cpu := updatedStart];
      logs := logs[cpu := l.(blocks := l.blocks + [Block(l.round, target, n)])];
      r := Some(target);
      BumpedPast(start, n);
      if ready {
        OthersStay(cpu, starts0, ends, logs0, Bumped(target, n), logs[cpu]);
        StaysValid(cpu, start, n, l);
      }
      if usedUp { Escapes(cpu); }
    }

    /** A block that would cross a page boundary goes to the next page. */
    method MoveToPage(start: Addr, n: int) returns (target: Addr)
      requires 0 < n <= MAX_BUFFER_SIZE
      ensures target == Target(start, n)
    {
      target := start;
      var distToNextPage := PAGE - target % PAGE;
      if distToNextPage < n {
        target := (target + distToNextPage) % WORD;
      }
      TargetIs(start, n);
    }

    /** The next multiple of eight behind the block. */
    method BehindBlock(target: Addr, n: int) returns (updatedStart: Addr)
      requires 0 < n <= MAX_BUFFER_SIZE
      ensures updatedStart == Bumped(target, n)
    {
      updatedStart := (target + n) % WORD;
      if updatedStart % 8 != 0 {
        updatedStart := (updatedStart + (8 - updatedStart % 8)) % WORD;
      }
    }

    /** What is asked for fits: the target is inside. */
    lemma PlacedInside(cpu: nat, start: Addr, n: int)
      requires Ready(cpu, start, n) && 0 < n <= MAX_BUFFER_SIZE
      ensures startAddr <= Target(start, n) <= endAddr && InPartition(cpu, Target(start, n), n)
    {
      hide LogOk, CpuOk, OnePage, From, To, PartitionSize;
      Partitions(cpu, cpu);
      hide PageAligned;
      PlacedFits(start, n, To(cpu));
      SmallRemainder(Placed(start, n));
    }

    lemma EndIsPlaced(cpu: nat)
      requires Region() && cpu < totalCpus
      ensures startAddr <= Target(To(cpu), 1) == To(cpu) <= endAddr
    {
      RegionParts(cpu);
      hide From, To, PartitionSize;
    }

    /** And the state after the block is filed is valid again, with the same exception. */
    lemma StaysValid(cpu: nat, start: Addr, n: int, l: Log)
      requires OthersValid(cpu, starts, ends, logs) && cpu < totalCpus && 0 < n <= MAX_BUFFER_SIZE
      requires At(ends, cpu) == Some(To(cpu)) && At(starts, cpu) == Some(Bumped(Target(start, n), n))
      requires LogOk(l, From(cpu), To(cpu), start) && From(cpu) <= start && start % 8 == 0 && start + n <= To(cpu)
      requires logs[cpu] == l.(blocks := l.blocks + [Block(l.round, Target(start, n), n)])
      ensures Valid()
    {
      hide LogOk, CpuOk, OnePage, From, To, PageAligned, PartitionSize, RoundedUp;
      RegionParts(cpu);
      AlignedByEight(From(cpu));
      BlockFits(l, From(cpu), To(cpu), start, n);
      PlacedFits(start, n, To(cpu));
      SmallRemainder(Placed(start, n));
      SmallRemainder(Placed(start, n) + n);
      SmallRemainder(RoundedUp(Placed(start, n) + n));
    }

    lemma Escapes(cpu: nat)
      requires Region() && cpu < totalCpus && At(ends, cpu) == Some(To(cpu))
      requires At(starts, cpu) == Some(Bumped(Target(To(cpu), 1), 1))
      ensures Escaped(cpu)
    {
      RegionParts(cpu);
      hide From, To, PartitionSize;
      EndBumped(To(cpu));
    }

    /** Where the CPU's free part starts and where its partition ends. */
    method GetArea(cpu: nat) returns (start: Addr, end: Addr)
      requires Region() && cpu < totalCpus == |logs|
      modifies this`starts, this`ends
      ensures start == old(FreeFrom(cpu)) && end == old(EndOf(cpu))
      ensures starts == old(starts)[cpu := start] && ends == old(ends)[cpu := end]
      ensures old(Valid()) ==>
        Valid() && end == To(cpu) && From(cpu) <= start <= end && start % 8 == 0 &&
        LogOk(logs[cpu], From(cpu), To(cpu), start) && (start == To(cpu) <==> old(UsedUp(cpu)))
    {
      hide LogOk, CpuOk, From, To, PartitionSize, PageAligned;
      ghost var valid := Valid();
      RegionParts(cpu);
      if valid {
        Partitions(cpu, cpu);
        AlignedByEight(From(cpu));
        AreaSet(At(starts, cpu), At(ends, cpu), logs[cpu], From(cpu), To(cpu));
      }
      start := GetAreaStart(cpu);
      end := GetAreaEnd(cpu, start);
    }

    /** Where the CPU's free part starts, after going back to the start of the
        partition if what is asked for does not fit. */
    method FindStart(cpu: nat, size: int) returns (start: int, ghost round: nat)
      requires Region() && cpu < totalCpus == |logs| && -0x8000_0000 <= size < 0x8000_0000
      modifies this
      ensures start == old(StartFor(cpu, size))
      ensures starts == old(starts)[cpu := start] && ends == old(ends)[cpu := old(EndOf(cpu))]
      ensures round == old(logs)[cpu].round + if old(TooLittleLeft(cpu, size)) then 1 else 0
      ensures logs == old(logs)[cpu := Log(round, old(logs)[cpu].blocks)]
      ensures old(Valid()) ==> Valid() && At(ends, cpu) == Some(To(cpu))
      ensures old(Valid()) ==>
        From(cpu) <= start && start % 8 == 0 && LogOk(logs[cpu], From(cpu), To(cpu), start)
      ensures old(Valid()) && size == 0 && old(UsedUp(cpu)) ==> start == To(cpu)
      ensures old(Valid()) && !(size == 0 && old(UsedUp(cpu))) ==>
        start + Bounded(size, MIN_BUFFER_SIZE, MAX_BUFFER_SIZE) <= To(cpu)
    {
      hide LogOk, From, To, PartitionSize, PageAligned, Valid;
      ghost var valid := Valid();
      if valid {
        Partitions(cpu, cpu);
        AlignedByEight(From(cpu));
      }
      var end;
      start, end := GetArea(cpu);
      round := logs[cpu].round;
      assert logs == logs[cpu := Log(round, logs[cpu].blocks)];
      var wanted := if size < 0 then size + WORD else size;
      if valid { SmallRemainder(end - start); }
      if (end - start) % WORD < wanted {
        start := BeginAgain(cpu);
        round := round + 1;
      }
    }

    /** The CPU's start is forgotten and set anew. */
    method BeginAgain(cpu: nat) returns (start: int)
      requires Region() && cpu < totalCpus == |logs|
      modifies this`starts, this`logs
      ensures start == From(cpu) && starts == old(starts)[cpu := start]
      ensures logs == old(logs)[cpu := Log(old(logs)[cpu].round + 1, old(logs)[cpu].blocks)]
      ensures old(Valid()) && cpu in old(starts) && At(ends, cpu) == Some(To(cpu)) ==>
        Valid() && LogOk(logs[cpu], From(cpu), To(cpu), start)
    {
      ghost var valid := Valid() && cpu in starts && At(ends, cpu) == Some(To(cpu));
      if valid {
        Partitions(cpu, cpu);
        AlignedByEight(From(cpu));
        AreaBeginsAgain(starts[cpu], logs[cpu], From(cpu), To(cpu));
      }
      hide LogOk, CpuOk, From, To, PartitionSize, PageAligned;
      ghost var starts0 := starts;
      starts := starts - {cpu};
      start := GetAreaStart(cpu);
      assert starts == starts0[cpu := start];
      logs := logs[cpu := logs[cpu].(round := logs[cpu].round + 1)];
    }

    /** A block of the CPU, aligned and within one page. */
    predicate InPartition(cpu: nat, at: int, n: int)
      requires totalCpus > 0
    {
      From(cpu) <= at && at + n <= To(cpu) && at % 8 == 0 && OnePage(at, n)
    }

    /** All that makes the state valid but what concerns one CPU. */
    ghost predicate OthersValid(cpu: nat, starts: map<nat, Addr>, ends: map<nat, Addr>, logs: seq<Log>) {
      && Region() && |logs| == totalCpus
      && forall c: nat :: c < totalCpus && c != cpu ==> CpuOk(At(starts, c), At(ends, c), logs[c], From(c), To(c))
    }

    lemma OthersStay(cpu: nat, starts: map<nat, Addr>, ends: map<nat, Addr>, logs: seq<Log>, start: Addr, l: Log)
      requires OthersValid(cpu, starts, ends, logs) && cpu < totalCpus
      ensures OthersValid(cpu, starts[cpu := start], ends, logs[cpu := l])
    {
    }

    lemma ValidOthers(cpu: nat)
      requires Valid()
      ensures OthersValid(cpu, starts, ends, logs)
    {
    }

    lemma RegionParts(cpu: nat)
      requires Region() && cpu < totalCpus
      ensures PageAligned(From(cpu)) && PageAligned(To(cpu)) && 0 < startAddr <= From(cpu) < To(cpu) <= endAddr
    {
      QuotientFits(endAddr - startAddr, totalCpus);
      PartitionsApart(startAddr, endAddr, totalCpus, PartitionSize(), cpu, cpu);
    }

    /** Behind the partition the unsigned difference is larger than any size. */
    lemma EscapedLeft(cpu: nat, size: int)
      requires Region() && cpu < totalCpus && size < 0x8000_0000
      ensures Low() && Escaped(cpu) && 0 <= size ==>
        !TooLittleLeft(cpu, size) && FreeFrom(cpu) == starts[cpu] && EndOf(cpu) == To(cpu)
    {
      RegionParts(cpu);
      hide From, To, PageAligned, PartitionSize;
      if Escaped(cpu) {
        assert EndOf(cpu) == To(cpu) && FreeFrom(cpu) == starts[cpu];
        assert Low() ==> (EndOf(cpu) - FreeFrom(cpu)) % WORD == EndOf(cpu) - FreeFrom(cpu) + WORD;
      }
    }
  }

  /** At the end of a partition one byte is placed there, and eight are taken. */
  lemma EndBumped(end: int)
    requires PageAligned(end) && 0 < end < WORD
    ensures Target(end, 1) == end && Bumped(end, 1) == end + 8
  {
    var page := end / PAGE;
    assert end == PAGE * page && WORD == PAGE * 0x10_0000_0000_0000;
    assert page <= 0x10_0000_0000_0000 - 1;
    SmallRemainder(end);
    SmallRemainder(end + 1);
    SmallRemainder(end + 8);
    NextPage(page);
    assert (end + 1) % 8 == 1;
  }

  lemma TargetIs(start: Addr, n: int)
    requires 0 < n <= MAX_BUFFER_SIZE
    ensures Target(start, n) ==
            if PAGE - start % PAGE < n then (start + (PAGE - start % PAGE)) % WORD else start
  {
  }

  /** Away from the top of the address space the free part moves past the block. */
  lemma BumpedPast(start: Addr, n: int)
    requires 0 < n <= MAX_BUFFER_SIZE
    ensures start + 2 * PAGE <= WORD ==>
      start <= Target(start, n) < Bumped(Target(start, n), n) <= Target(start, n) + n + 8
  {
    if start + 2 * PAGE <= WORD {
      var at := Placed(start, n);
      assert start <= at < start + n;
      SmallRemainder(at);
      SmallRemainder(at + n);
      SmallRemainder(RoundedUp(at + n));
      hide Placed, RoundedUp;
    }
  }

  /** One request that fits at the free part of its CPU without crossing a page. */
  method Call(a: Allocator, cpu: nat, size: int, ghost start: Addr, ghost end: Addr, ghost otherStart: Addr,
              ghost otherEnd: Addr) returns (r: Option<int>)
    requires a.Region() && a.totalCpus == 2 == |a.logs| && cpu < 2 && 0 <= size <= MAX_BUFFER_SIZE
    requires a.FreeFrom(cpu) == start && a.EndOf(cpu) == end && 0 < start < WORD - PAGE && start % 8 == 0 && 0 < end
    requires a.FreeFrom(1 - cpu) == otherStart && a.EndOf(1 - cpu) == otherEnd
    requires size <= (end - start) % WORD && start % PAGE + 1024 <= PAGE && a.startAddr <= start <= a.endAddr
    modifies a
    ensures |a.logs| == 2 && r == Some(start)
    ensures a.FreeFrom(cpu) == RoundedUp(start + Bounded(size, 1, 1024)) && a.EndOf(cpu) == end
    ensures a.FreeFrom(1 - cpu) == otherStart && a.EndOf(1 - cpu) == otherEnd
  {
    hide LogOk, CpuOk, PageAligned, Allocator.Valid, Allocator.From, Allocator.To, Allocator.PartitionSize,
      Allocator.InPartition, Allocator.Escaped;
    SmallRemainder(start);
    SmallRemainder(start + Bounded(size, 1, 1024));
    SmallRemainder(RoundedUp(start + Bounded(size, 1, 1024)));
    ghost var round;
    r, round := a.WriteTargetData(cpu, true, size, true);
  }

  method TwoPages() returns (a: Allocator)
    ensures fresh(a) && a.Region() && a.totalCpus == 2 == |a.logs| && a.startAddr == 4096 && a.endAddr == 12288
    ensures a.FreeFrom(0) == 4096 && a.EndOf(0) == 8192 && a.FreeFrom(1) == 8192 && a.EndOf(1) == 12288
  {
    hide LogOk, CpuOk;
    a := new Allocator(2, 4096, 12288);
    assert a.From(0) == 4096 && a.From(1) == 8192;
  }

  lemma UpToNext()
    ensures RoundedUp(5120) == 5120 && RoundedUp(6144) == 6144 && RoundedUp(7168) == 7168 && RoundedUp(8192) == 8192
    ensures RoundedUp(8193) == 8200 && RoundedUp(9224) == 9224
  {
  }

  /** A run that leaves its partition: two CPUs with a page each.  Four blocks use
      the first page up, an empty request goes to the start of the other's page,
      and the next block there overlaps the first block of the other CPU. */
  method Overrun() returns (empty: Option<int>, mine: Option<int>, other: Option<int>)
    ensures empty == Some(8192) && mine == Some(8200) && other == Some(8192)
    ensures Overlap(Block(0, mine.value, MAX_BUFFER_SIZE), Block(0, other.value, MAX_BUFFER_SIZE))
  {
    hide Allocator.Region, Allocator.FreeFrom, Allocator.EndOf, RoundedUp;
    var a := TwoPages();
    UpToNext();
    var r := Call(a, 0, 1024, 4096, 8192, 8192, 12288);
    r := Call(a, 0, 1024, 5120, 8192, 8192, 12288);
    r := Call(a, 0, 1024, 6144, 8192, 8192, 12288);
    r := Call(a, 0, 1024, 7168, 8192, 8192, 12288);
    empty := Call(a, 0, 0, 8192, 8192, 8192, 12288);
    mine := Call(a, 0, 1024, 8200, 8192, 8192, 12288);
    other := Call(a, 1, 1024, 8192, 12288, 9224, 8192);
  }

  /** The CPU's log after a call. */
  function Logged(l: Log, round: nat, r: Option<int>, n: int): Log {
    Log(round, if r.Some? then l.blocks + [Block(round, r.value, n)] else l.blocks)
  }

  /** The address a request at `start` is written to. */
  function Target(start: int, n: int): int {
    Placed(start, n) % WORD
  }

  /** Where the free part starts after a block. */
  function Bumped(target: int, n: int): int {
    RoundedUp((target + n) % WORD) % WORD
  }

  lemma SmallRemainder(x: int)
    requires 0 <= x < WORD
    ensures x % WORD == x
  {
  }

  lemma AlignedByEight(x: int)
    requires PageAligned(x)
    ensures x % 8 == 0
  {
  }

  lemma BlockFits(l: Log, from: int, to: int, start: int, n: int)
    requires LogOk(l, from, to, start) && from <= start && start % 8 == 0 && PageAligned(to)
    requires 0 < n <= MAX_BUFFER_SIZE && start + n <= to
    ensures var at := Placed(start, n);
      start <= at && at + n <= to && at % 8 == 0 && OnePage(at, n) &&
      RoundedUp(at + n) <= to && RoundedUp(at + n) % 8 == 0 &&
      CpuOk(Some(RoundedUp(at + n)), Some(to), l.(blocks := l.blocks + [Block(l.round, at, n)]), from, to)
  {
    PlacedFits(start, n, to);
    AlignedByEight(to);
    hide Placed, OnePage, PageAligned, LogOk;
    LogGrows(l, from, to, start, Block(l.round, Placed(start, n), n), RoundedUp(Placed(start, n) + n));
  }

  lemma {:induction false} TimesNonNegative(part: nat, i: nat)
    ensures part * i >= 0
  {
    if i > 0 { TimesNonNegative(part, i - 1); assert part * i == part * (i - 1) + part; }
  }
}
