/**
The ring buffer as the durable buffer uses it: every call under one mutex, so a call meets
no other thread.  It is then exactly a bounded FIFO queue.
*/
module Ring {
  import opened Wrappers
  import opened Types
  import RingMachine
  import Words

  lemma {:induction false} IndexIsMask(t: nat, cap: nat)
    requires exists k: nat :: cap == Words.Pow2(k)
    ensures cap > 0 && RingMachine.Index(t, cap) == Words.And(t, cap - 1)
  {
    var k: nat :| cap == Words.Pow2(k);
    Words.MaskIsRemainder(t, k);
    RingMachine.IndexIsRemainder(t, cap);
  }

  class RingBuffer<T(0)> {
    const capacity: nat
    const sequence: array<nat>
    const val: array<T>
    var head: nat
    var tail: nat

    /** No call is under way: each slot shows either a published or a released ticket. */
    ghost predicate Valid()
      reads this, sequence, val
    {
      && capacity >= 2
      && (exists k: nat :: capacity == Words.Pow2(k))
      && sequence.Length == val.Length == capacity
      && sequence as object != val as object
      && head <= tail <= head + capacity
      && (forall t: int :: tail - capacity <= t < tail ==>
            sequence[RingMachine.Index(t, capacity)] == if t >= head then t + 1 else t + capacity)
    }

    /** The queued values, oldest first. */
    ghost function Contents(): (s: seq<T>)
      requires Valid()
      reads this, sequence, val
      ensures |s| == tail - head
    {
      seq(tail - head, i requires 0 <= i < tail - head reads this, val, sequence requires Valid() =>
        val[RingMachine.Index(head + i, capacity)])
    }

    constructor NewRingBuffer(requested: nat)
      requires requested < TWO64
      ensures fresh(sequence) && fresh(val)
      ensures head == 0 && tail == 0
      ensures requested <= 1 ==> capacity == 1
      ensures 2 <= requested <= TWO63 ==>
        Valid() && Contents() == [] && requested <= capacity < 2 * requested
    {
      var n := Words.NextPowerOfTwo(requested);
      var slots := new nat[n];
      var vals := new T[n];
      for i := 0 to n
        invariant forall j :: 0 <= j < i ==> slots[j] == j
      {
        slots[i] := i;
      }
      capacity, sequence, val, head, tail := n, slots, vals, 0, 0;
      new;
      if requested <= 1 {
        SmallestRing(requested, n);
      } else if requested <= TWO63 {
        CapacityBounds(requested, n);
        forall t: int | t + n >= 0 && t < 0 ensures slots[RingMachine.Index(t, n)] == t + n {
          RingMachine.IndexLap(t, n);
        }
      }
    }

    function Cap(): nat {
      capacity
    }

    /** The source returns 0 where a concurrent reader could see head ahead of tail. */
    function Len(): (n: nat)
      reads this, sequence, val
      ensures Valid() ==> n == |Contents()|
    {
      if tail > head then tail - head else 0
    }

    /**
    No other thread moves the tail between its load and its CAS, so the CAS succeeds and the
    retry branch, which the source reaches when the slot is ahead of the loaded tail, cannot
    be taken: the loop of the source goes round once.
    */
    method Push(v: T) returns (ok: bool)
      requires Valid()
      modifies this, sequence, val
      ensures Valid()
      ensures ok == (|old(Contents())| < capacity)
      ensures Contents() == if ok then old(Contents()) + [v] else old(Contents())
    {
      var mask := capacity - 1;
      var t := tail;
      IndexIsMask(t, capacity);
      var slot := Words.And(t, mask);
      var difference := sequence[slot] as int - t;
      NextSlotShows();
      if difference == 0 {
        StorePush(v, t, slot);
        ok := true;
      } else if difference < 0 {
        ok := false;
      } else {
        assert false;
      }
    }

    // The CAS, the write and the store that publishes it.
    method StorePush(v: T, t: nat, slot: nat)
      requires Valid() && t == tail && slot == RingMachine.Index(t, capacity) && tail < head + capacity
      modifies this, sequence, val
      ensures Valid() && Contents() == old(Contents()) + [v]
    {
      RingMachine.IndexDistinct(t + 1 - capacity, capacity);
      tail := t + 1;
      val[slot] := v;
      sequence[slot] := t + 1;
      assert Contents() == old(Contents()) + [v];
    }

    lemma NextSlotShows()
      requires Valid()
      ensures sequence[RingMachine.Index(tail, capacity)]
                == if tail < head + capacity then tail else tail - capacity + 1
    {
      RingMachine.IndexLap(tail - capacity, capacity);
    }

    method Pop() returns (r: Option<T>)
      requires Valid()
      modifies this, sequence
      ensures Valid()
      ensures old(Contents()) == [] ==> r == None && Contents() == []
      ensures old(Contents()) != [] ==> r == Some(old(Contents())[0]) && Contents() == old(Contents())[1..]
    {
      var mask := capacity - 1;
      var h := head;
      IndexIsMask(h, capacity);
      var slot := Words.And(h, mask);
      var difference := sequence[slot] as int - (h + 1);
      NextSlotShows();
      if difference == 0 {
        var v := StorePop(h, slot);
        r := Some(v);
      } else if difference < 0 {
        r := None;
      } else {
        assert false;
      }
    }

    method StorePop(h: nat, slot: nat) returns (v: T)
      requires Valid() && h == head && slot == RingMachine.Index(h, capacity) && head < tail
      modifies this, sequence
      ensures Valid() && v == old(Contents())[0] && Contents() == old(Contents())[1..]
    {
      RingMachine.IndexDistinct(tail - capacity, capacity);
      head := h + 1;
      v := val[slot];
      sequence[slot] := h + capacity;
      assert Contents() == old(Contents())[1..];
    }

    method Drain(dst: array<T>) returns (n: nat)
      requires Valid() && dst != val && dst as object != sequence
      modifies this, sequence, dst
      ensures Valid()
      ensures n == if |old(Contents())| < dst.Length then |old(Contents())| else dst.Length
      ensures dst[..n] == old(Contents())[..n] && dst[n..] == old(dst[n..])
      ensures Contents() == old(Contents())[n..]
    {
      n := 0;
      while n < dst.Length
        invariant Valid()
        invariant n <= dst.Length && n <= |old(Contents())|
        invariant dst[..n] == old(Contents())[..n] && dst[n..] == old(dst[..])[n..]
        invariant Contents() == old(Contents())[n..]
      {
        var r := Pop();
        if r.None? {
          break;
        }
        ghost var tail := dst[n..];
        dst[n] := r.value;
        assert dst[n + 1..] == tail[1..];
        n := n + 1;
      }
    }
  }

  lemma SmallestRing(requested: nat, n: nat)
    requires requested <= 1
    requires exists k: nat :: Words.LeastPower(requested, n, k)
    ensures n == 1
  {
    var k: nat :| Words.LeastPower(requested, n, k);
    assert requested <= Words.Pow2(0) == 1;
  }

  lemma CapacityBounds(requested: nat, n: nat)
    requires 2 <= requested
    requires exists k: nat :: Words.LeastPower(requested, n, k)
    ensures requested <= n < 2 * requested
  {
    var k: nat :| Words.LeastPower(requested, n, k);
    if k == 0 {
      assert false;
    }
    if requested <= Words.Pow2(k - 1) { assert false; }
  }
}
