/** Bounded FIFO queues on values, and the index arithmetic shared by everything that
    stores such a queue in a fixed-size cyclic buffer. */
module Queue {
  import Arith

  /** Offering a block to a queue of the given capacity: all of it goes in, or none of it. */
  function Offer<T>(q: seq<T>, block: seq<T>, capacity: nat): (bool, seq<T>) {
    if |q| + |block| <= capacity then (true, q + block) else (false, q)
  }

  /** The buffer slot that holds the k-th element ever stored. */
  function Slot(k: nat, size: nat): (slot: nat)
    requires 0 < size
    ensures slot < size
  {
    k % size
  }

  /** ring_buffer::increment: the successor of a buffer index. */
  function Increment(index: nat, size: nat): nat {
    if index + 1 >= size then 0 else index + 1
  }

  /** Two counts less than a buffer length apart occupy different slots. */
  lemma SlotsDiffer(i: nat, j: nat, size: nat)
    requires i < j < i + size
    ensures Slot(i, size) != Slot(j, size)
  {
    var a, b := i / size, j / size;
    assert i == size * a + i % size && j == size * b + j % size;
    if i % size == j % size {
      assert j - i == size * (b - a);
      Arith.MultipleIsLarge(size, b - a);
    }
  }

  /** increment() moves from the slot of one element to the slot of the next. */
  lemma IncrementIsNextSlot(k: nat, size: nat)
    requires 0 < size
    ensures Increment(Slot(k, size), size) == Slot(k + 1, size)
  {
    var a, r := k / size, k % size;
    assert k == size * a + r;
    if r + 1 < size {
      Arith.RemainderUnique(k + 1, a, r + 1, size);
    } else {
      assert k + 1 == size * (a + 1) + 0 by { assert size * (a + 1) == size * a + size; }
      Arith.RemainderUnique(k + 1, a + 1, 0, size);
    }
  }

  /** The blocks of a list that a queue accepts when they are offered one after the other. */
  function Accepted<T>(q: seq<T>, blocks: seq<seq<T>>, capacity: nat): (s: seq<T>)
    ensures |q| <= capacity ==> |q + s| <= capacity
    decreases |blocks|
  {
    if blocks == [] then []
    else
      var (ok, q') := Offer(q, blocks[0], capacity);
      (if ok then blocks[0] else []) + Accepted(q', blocks[1..], capacity)
  }

  lemma AcceptedNone<T>(q: seq<T>, capacity: nat)
    ensures Accepted(q, [], capacity) == []
  {
  }

  lemma AcceptedOne<T>(q: seq<T>, block: seq<T>, capacity: nat)
    ensures Accepted(q, [block], capacity) == if |q| + |block| <= capacity then block else []
    ensures Offer(q, block, capacity) == (|q| + |block| <= capacity, q + Accepted(q, [block], capacity))
  {
    assert [block][1..] == [];
    assert q + [] == q;
  }

  /** Operations compose: later blocks meet the queue that the earlier ones left. */
  lemma {:induction false} AcceptedAppend<T>(q: seq<T>, a: seq<seq<T>>, b: seq<seq<T>>, capacity: nat)
    ensures Accepted(q, a + b, capacity) == Accepted(q, a, capacity) + Accepted(q + Accepted(q, a, capacity), b, capacity)
    decreases |a|
  {
    if a == [] {
      assert a + b == b && q + [] == q;
    } else {
      var (ok, q') := Offer(q, a[0], capacity);
      var head, rest := if ok then a[0] else [], Accepted(q', a[1..], capacity);
      AcceptedAppend(q', a[1..], b, capacity);
      assert (a + b)[0] == a[0] && (a + b)[1..] == a[1..] + b;
      assert q' == q + head;
      Associative(q, head, rest);
      Associative(head, rest, Accepted(q' + rest, b, capacity));
    }
  }

  lemma Associative<T>(a: seq<T>, b: seq<T>, c: seq<T>)
    ensures (a + b) + c == a + (b + c)
  {
  }

  /** The elements of a block as blocks of their own. */
  function Singles<T>(block: seq<T>): seq<seq<T>> {
    if block == [] then [] else [[block[0]]] + Singles(block[1..])
  }

  /** How much of a block goes in when its elements are offered one by one. */
  function FittingPrefix<T>(q: seq<T>, block: seq<T>, capacity: nat): seq<T>
    requires |q| <= capacity
  {
    if |q| + |block| <= capacity then block else block[..capacity - |q|]
  }

  /** Offering the elements one by one accepts the longest prefix that fits; so a block that is
      accepted as a whole is accepted one by one, with the same result. */
  lemma {:induction false} OneByOneAcceptsPrefix<T>(q: seq<T>, block: seq<T>, capacity: nat)
    requires |q| <= capacity
    ensures Accepted(q, Singles(block), capacity) == FittingPrefix(q, block, capacity)
    ensures Offer(q, block, capacity).0 <==> Accepted(q, Singles(block), capacity) == block
    ensures Offer(q, block, capacity).0 ==> Offer(q, block, capacity).1 == q + Accepted(q, Singles(block), capacity)
    decreases |block|
  {
    if block != [] {
      var x, rest := block[0], block[1..];
      assert Singles(block)[1..] == Singles(rest);
      assert [x] + rest == block;
      if |q| < capacity {
        OneByOneAcceptsPrefix(q + [x], rest, capacity);
      } else {
        OneByOneAcceptsPrefix(q, rest, capacity);
      }
    }
  }
}
