/**
  The ring buffer of the bandwidth reporter: a queue of bounded length over an
  array whose two ends wrap around.
*/
module RingBuffs {
  import opened Basics

  /** Where the `i`-th element from `head` is stored. */
  function Slot(head: nat, i: nat, capacity: nat): (k: nat)
    requires head < capacity && i <= capacity
    ensures k < capacity && k == (head + i) % capacity
  {
    WrapOnce(head + i, capacity);
    if head + i < capacity then head + i else head + i - capacity
  }

  lemma WrapOnce(x: nat, n: nat)
    requires 0 < n && x < 2 * n
    ensures x % n == if x < n then x else x - n
  {
    if n <= x {
      assert (x - n) % n == x - n;
      assert x == n + (x - n);
    }
  }

  class RingBuff<T(0)> {
    var items: array<T>
    var size: nat
    var capacity: nat
    var head: nat
    var tail: nat

    ghost predicate Valid()
      reads this
    {
      && capacity == items.Length && size <= capacity
      && (capacity > 0 ==> head < capacity && tail == Slot(head, size, capacity))
    }

    /** The queued values, oldest first. */
    ghost function Contents(): (s: seq<T>)
      requires Valid()
      reads this, items
      ensures |s| == size
    {
      seq(size, i requires 0 <= i < size && Valid() reads this, items => items[Slot(head, i, capacity)])
    }

    constructor (capacity: nat)
      ensures Valid() && fresh(items) && this.capacity == capacity && Contents() == []
    {
      items := new T[capacity];
      size := 0;
      this.capacity := capacity;
      head := 0;
      tail := 0;
    }

    method Enqueue(val: T) returns (ok: bool)
      requires Valid()
      modifies this, items
      ensures Valid() && items == old(items) && capacity == old(capacity)
      ensures ok == (old(size) < capacity)
      ensures Contents() == if ok then old(Contents()) + [val] else old(Contents())
    {
      if size == capacity { return false; }
      ghost var was := Contents();
      items[tail] := val;
      tail := (tail + 1) % capacity;
      size := size + 1;
      WrapOnce(old(tail) + 1, capacity);
      forall i | 0 <= i < old(size) ensures items[Slot(head, i, capacity)] == was[i] {
        assert Slot(head, i, capacity) != old(tail);
      }
      return true;
    }

    method Dequeue() returns (r: Option<T>)
      requires Valid()
      modifies this
      ensures Valid() && items == old(items) && capacity == old(capacity)
      ensures old(Contents()) == [] ==> r == None && Contents() == []
      ensures old(Contents()) != [] ==> r == Some(old(Contents())[0]) && Contents() == old(Contents())[1..]
    {
      if size == 0 { return None; }
      ghost var was := Contents();
      var val := items[head];
      assert was[0] == val;
      head := (head + 1) % capacity;
      size := size - 1;
      WrapOnce(old(head) + 1, capacity);
      forall i | 0 <= i < size ensures items[Slot(head, i, capacity)] == was[i + 1] {
        assert Slot(head, i, capacity) == Slot(old(head), i + 1, capacity);
      }
      return Some(val);
    }

    method Current() returns (r: Option<T>)
      requires Valid()
      ensures r == if Contents() == [] then None else Some(Contents()[0])
    {
      if size == 0 { return None; }
      return Some(items[head]);
    }

    method Surplus() returns (result: seq<T>)
      requires Valid()
      ensures result == Contents()
    {
      result := [];
      for index := 0 to size
        invariant result == Contents()[..index]
      {
        WrapOnce(head + index, capacity);
        result := result + [items[(index + head) % capacity]];
      }
    }

    function SurplusCount(): int
      reads this
    {
      capacity - size
    }
  }
}
