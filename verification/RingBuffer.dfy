/** ring_buffer<char, size>, its calls running to completion one after the other. */
module RingBuffers {
  import opened Queue

  /** The characters a C string argument denotes: those before the first NUL. */
  function CString(data: seq<char>): (s: seq<char>)
    requires '\0' in data
    ensures s <= data && '\0' !in s && data[|s|] == '\0'
  {
    if data[0] == '\0' then [] else [data[0]] + CString(data[1..])
  }

  /** The slot k places after index "from". */
  function SlotAfter(from: nat, k: nat, size: nat): (slot: nat)
    requires from < size && k < size
    ensures slot < size
  {
    if from + k < size then from + k else from + k - size
  }

  function Distance(from: nat, to: nat, size: nat): (d: nat)
    requires from < size && to < size
    ensures d < size && SlotAfter(from, d, size) == to
  {
    if to >= from then to - from else to + size - from
  }

  /** What "len" consecutive slots hold, cyclically from index "from". */
  function Window(b: seq<char>, from: nat, len: nat): (q: seq<char>)
    requires from < |b| && len < |b|
    ensures |q| == len
  {
    seq(len, k requires 0 <= k < len => b[SlotAfter(from, k, |b|)])
  }

  /** Writing the slot behind a window extends the window by what was written. */
  lemma WriteExtendsWindow(b: seq<char>, from: nat, len: nat, c: char)
    requires from < |b| && len + 1 < |b|
    ensures Window(b[SlotAfter(from, len, |b|) := c], from, len + 1) == Window(b, from, len) + [c]
    ensures Increment(SlotAfter(from, len, |b|), |b|) == SlotAfter(from, len + 1, |b|) != from
  {
  }

  class RingBuffer {
    const size: nat
    const buf: array<char>
    var writeIndex: nat
    var readIndex: nat

    ghost predicate Valid()
      reads this
    {
      0 < size == buf.Length && writeIndex < size && readIndex < size
    }

    /** The queued characters, oldest first. */
    ghost function Contents(): (q: seq<char>)
      reads this, buf
      requires Valid()
      ensures |q| < size
    {
      Window(buf[..], readIndex, Distance(readIndex, writeIndex, size))
    }

    constructor (size: nat)
      requires 0 < size
      ensures Valid() && fresh(buf) && this.size == size && Contents() == []
    {
      this.size := size;
      buf := new char[size];
      writeIndex, readIndex := 0, 0;
    }

    method Reset()
      requires Valid()
      modifies this
      ensures Valid() && Contents() == []
    {
      writeIndex := 0;
      readIndex := 0;
    }

    method Push(data: char) returns (ok: bool)
      requires Valid()
      modifies this`writeIndex, buf
      ensures Valid()
      ensures (ok, Contents()) == Offer(old(Contents()), [data], size - 1)
    {
      var next := Increment(writeIndex, size);
      if next == readIndex {
        return false;
      }
      WriteExtendsWindow(buf[..], readIndex, |Contents()|, data);
      buf[writeIndex] := data;
      writeIndex := next;
      return true;
    }

    method Pop() returns (ok: bool, data: char)
      requires Valid()
      modifies this`readIndex
      ensures Valid()
      ensures ok <==> old(Contents()) != []
      ensures old(Contents()) == if ok then [data] + Contents() else Contents()
    {
      if readIndex == writeIndex {
        return false, '\0';
      }
      data := buf[readIndex];
      readIndex := Increment(readIndex, size);
      ok := true;
    }

    method Pushs(data: seq<char>) returns (ok: bool)
      requires Valid() && '\0' in data
      modifies this`writeIndex, buf
      ensures Valid()
      ensures (ok, Contents()) == Offer(old(Contents()), CString(data), size - 1)
    {
      hide Window, CString;
      ghost var s, q := CString(data), Contents();
      var write, i := writeIndex, 0;
      while data[i] != '\0'
        invariant Valid() && writeIndex == old(writeIndex)
        invariant i <= |s| && |q| + i < size && write == SlotAfter(readIndex, |q| + i, size)
        invariant Window(buf[..], readIndex, |q| + i) == q + s[..i]
        decreases |s| - i
      {
        var next := Increment(write, size);
        if next == readIndex {
          WindowPrefix(buf[..], readIndex, |q|, |q| + i);
          return false;
        }
        WriteExtendsWindow(buf[..], readIndex, |q| + i, data[i]);
        buf[write] := data[i];
        write := next;
        i := i + 1;
      }
      assert s[..i] == s;
      writeIndex := write;
      return true;
    }

    method PushsCount(data: seq<char>, count: nat) returns (ok: bool)
      requires Valid() && count <= |data|
      modifies this`writeIndex, buf
      ensures Valid()
      ensures (ok, Contents()) == Offer(old(Contents()), data[..count], size - 1)
    {
      hide Window;
      ghost var q := Contents();
      var write, i := writeIndex, 0;
      while i < count
        invariant Valid() && writeIndex == old(writeIndex)
        invariant i <= count && |q| + i < size && write == SlotAfter(readIndex, |q| + i, size)
        invariant Window(buf[..], readIndex, |q| + i) == q + data[..i]
      {
        var next := Increment(write, size);
        if next == readIndex {
          WindowPrefix(buf[..], readIndex, |q|, |q| + i);
          return false;
        }
        WriteExtendsWindow(buf[..], readIndex, |q| + i, data[i]);
        buf[write] := data[i];
        write := next;
        i := i + 1;
      }
      writeIndex := write;
      return true;
    }
  }

  /** A producer that pushes the characters of a block one at a time: it gets in the longest prefix
      that fits. If pushs() of the block would have succeeded, the queue ends up the same. */
  method PushEach(fifo: RingBuffer, data: seq<char>)
    requires fifo.Valid()
    modifies fifo`writeIndex, fifo.buf
    ensures fifo.Valid()
    ensures fifo.Contents() == old(fifo.Contents()) + FittingPrefix(old(fifo.Contents()), data, fifo.size - 1)
    ensures var (ok, q) := Offer(old(fifo.Contents()), data, fifo.size - 1);
            ok ==> fifo.Contents() == q
  {
    hide RingBuffer.Contents;
    ghost var q := fifo.Contents();
    var i := 0;
    while i < |data|
      invariant 0 <= i <= |data| && fifo.Valid()
      invariant fifo.Contents() == q + FittingPrefix(q, data[..i], fifo.size - 1)
    {
      var ok := fifo.Push(data[i]);
      assert data[..i + 1] == data[..i] + [data[i]];
      i := i + 1;
    }
    assert data[..i] == data;
  }

  lemma WindowPrefix(b: seq<char>, from: nat, short: nat, long: nat)
    requires from < |b| && short <= long < |b|
    ensures Window(b, from, short) == Window(b, from, long)[..short]
  {
  }
}
