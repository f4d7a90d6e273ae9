/** The circular byte buffer of queue.c, one call at a time. */
module ByteRing {
  import opened Bytes

  /** Position `i` reduced into a buffer of `cap` cells, for `i` below two turns. */
  function Wrap(cap: nat, i: nat): nat {
    if i < cap then i else i - cap
  }

  /** The index update of the source, written with `%`, moves one cell and wraps. */
  lemma AdvanceIsWrap(cap: nat, i: nat)
    requires i < cap
    ensures (i + 1) % cap == Wrap(cap, i + 1)
  {
    if i + 1 < cap {
      assert (i + 1) / cap == 0;
    } else {
      assert (i + 1) % cap == 0;
    }
  }

  /** The `n` bytes that start at `front` and run around the end of the buffer. */
  function Window(buf: seq<u8>, front: nat, n: nat): (w: seq<u8>)
    requires front < |buf| && n <= |buf|
    ensures |w| == n
  {
    seq(n, k requires 0 <= k < n => buf[Wrap(|buf|, front + k)])
  }

  /** Storing behind the last byte of a window that has room extends the window by that byte. */
  lemma WindowPush(buf: seq<u8>, front: nat, n: nat, b: u8)
    requires front < |buf| && n < |buf|
    ensures Window(buf[Wrap(|buf|, front + n) := b], front, n + 1) == Window(buf, front, n) + [b]
  {
    var next := buf[Wrap(|buf|, front + n) := b];
    forall k | 0 <= k <= n
      ensures Window(next, front, n + 1)[k] == (Window(buf, front, n) + [b])[k]
    {
      assert k < n ==> Wrap(|buf|, front + k) != Wrap(|buf|, front + n);
    }
  }

  /** Moving the front past `i` bytes drops exactly those bytes from the window. */
  lemma WindowDrop(buf: seq<u8>, front: nat, n: nat, i: nat)
    requires front < |buf| && i <= n <= |buf|
    ensures Window(buf, Wrap(|buf|, front + i), n - i) == Window(buf, front, n)[i..]
  {
    var w := Window(buf, Wrap(|buf|, front + i), n - i);
    forall k | 0 <= k < n - i
      ensures w[k] == Window(buf, front, n)[i..][k]
    {
      assert Wrap(|buf|, Wrap(|buf|, front + i) + k) == Wrap(|buf|, front + (i + k));
    }
  }

  /** The oldest byte of a window, and the window behind it. */
  lemma WindowFirst(buf: seq<u8>, front: nat, n: nat)
    requires front < |buf| && 0 < n <= |buf|
    ensures Window(buf, front, n) == [buf[front]] + Window(buf, Wrap(|buf|, front + 1), n - 1)
  {
    WindowDrop(buf, front, n, 1);
    var w := Window(buf, front, n);
    assert w[0] == buf[Wrap(|buf|, front + 0)];
    assert w == [w[0]] + w[1..];
  }

  class Queue {
    const buffer: array<u8>
    var front: nat
    var rear: nat
    var isFull: bool

    ghost predicate Valid()
      reads this
    {
      && front < buffer.Length && rear < buffer.Length
      && (isFull ==> front == rear)
    }

    ghost function Used(): (n: nat)
      requires Valid()
      reads this
      ensures n <= buffer.Length
    {
      if isFull then buffer.Length
      else if front <= rear then rear - front
      else rear + buffer.Length - front
    }

    /** The bytes held, oldest first: what the ring stands for. */
    ghost function Contents(): (s: seq<u8>)
      requires Valid()
      reads this, buffer
      ensures |s| == Used()
    {
      Window(buffer[..], front, Used())
    }

    /** A queue of size 0 can be made, but it has no cell for `front` and `rear` to stand on. */
    constructor (bufferSize: nat)
      ensures fresh(buffer) && buffer.Length == bufferSize
      ensures Valid() <==> bufferSize > 0
      ensures Valid() ==> Contents() == []
    {
      buffer := new u8[bufferSize];
      front, rear, isFull := 0, 0, false;
    }

    /** Appends as much of the front of `data` as fits and says how much that was. */
    method Write(data: seq<u8>) returns (n: nat)
      requires Valid()
      modifies this, buffer
      ensures Valid() && front == old(front)
      ensures n == Min(|data|, buffer.Length - |old(Contents())|)
      ensures Contents() == old(Contents()) + data[..n]
    {
      if |data| == 0 || isFull {
        return 0;
      }
      ghost var used := Used();
      ghost var ring := Contents();
      var i := 0;
      while i == 0 || (front != rear && i < |data|)
        invariant 0 <= i <= |data| && used + i <= buffer.Length
        invariant front == old(front) && !isFull
        invariant rear == Wrap(buffer.Length, front + used + i)
        invariant ring == old(Contents()) + data[..i]
        invariant Window(buffer[..], front, used + i) == ring
        decreases |data| - i
      {
        WindowPush(buffer[..], front, used + i, data[i]);
        ghost var cells := buffer[..];
        buffer[rear] := data[i];
        assert buffer[..] == cells[rear := data[i]];
        ring := ring + [data[i]];
        AdvanceIsWrap(buffer.Length, rear);
        rear := (rear + 1) % buffer.Length;
        i := i + 1;
      }
      if front == rear {
        isFull := true;
      }
      assert Used() == used + i;
      return i;
    }

    /** Moves as many of the oldest bytes as asked for into the front of `out`. */
    method Read(out: array<u8>, size: nat) returns (n: nat)
      requires Valid()
      requires size <= out.Length && out != buffer
      modifies this, out
      ensures Valid() && rear == old(rear)
      ensures n == Min(size, |old(Contents())|)
      ensures Contents() == old(Contents())[n..]
      ensures forall k :: 0 <= k < n ==> out[k] == old(Contents())[k]
      ensures forall k :: n <= k < out.Length ==> out[k] == old(out[k])
    {
      if size == 0 || (!isFull && front == rear) {
        return 0;
      }
      ghost var used := Used();
      ghost var before := Contents();
      var i := 0;
      while i == 0 || (front != rear && i < size)
        invariant 0 <= i <= size && i <= used
        invariant rear == old(rear)
        invariant front == Wrap(buffer.Length, old(front) + i)
        invariant buffer[..] == old(buffer[..])
        invariant forall k :: 0 <= k < i ==> out[k] == before[k]
        invariant forall k :: i <= k < out.Length ==> out[k] == old(out[k])
        decreases size - i
      {
        assert buffer[front] == before[i];
        out[i] := buffer[front];
        AdvanceIsWrap(buffer.Length, front);
        front := (front + 1) % buffer.Length;
        i := i + 1;
      }
      if i != 0 {
        isFull := false;
      }
      WindowDrop(buffer[..], old(front), used, i);
      assert Used() == used - i;
      return i;
    }

    method Empty() returns (empty: bool)
      requires Valid()
      ensures empty <==> Contents() == []
    {
      return !isFull && front == rear;
    }
  }
}
