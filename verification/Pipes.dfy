/** The pipe: a ring of 512 bytes (kernel/pipe.c). */
module Pipes {
  import opened Bytes
  import opened Streams

  /** Where the i-th byte behind position p of the ring lies. */
  function Slot(p: nat, i: nat): (k: nat)
    requires p < PIPE_SIZE && i <= PIPE_SIZE
    ensures k < PIPE_SIZE
    ensures k == (p + i) % PIPE_SIZE
  {
    if p + i < PIPE_SIZE then p + i else p + i - PIPE_SIZE
  }

  class Pipe {
    const buf: array<u8>
    var readPos: nat
    var writePos: nat
    var count: nat

    ghost predicate Valid()
      reads this
    {
      && buf.Length == PIPE_SIZE && readPos < PIPE_SIZE && count <= PIPE_SIZE
      && writePos == Slot(readPos, count)
    }

    /** The bytes in the pipe, oldest first. */
    ghost function Queue(): (q: Chunk)
      requires Valid()
      reads this, buf
      ensures |q| == count
    {
      seq(count, i requires 0 <= i < count && Valid() reads this, buf => buf[Slot(readPos, i)])
    }

    /** pipe_init. */
    constructor ()
      ensures Valid() && Queue() == [] && fresh(buf)
    {
      buf := new u8[PIPE_SIZE](_ => 0);
      readPos, writePos, count := 0, 0, 0;
    }

    /** pipe_write: what does not fit is not taken. */
    method Write(data: Chunk) returns (written: nat)
      requires Valid()
      modifies this, buf
      ensures Valid()
      ensures written == Taken(old(Queue()), data) && Queue() == old(Queue()) + data[..written]
    {
      ghost var q := Queue();
      written := 0;
      while written < |data| && count < PIPE_SIZE
        invariant Valid() && written <= |data| && count == |q| + written
        invariant Queue() == q + data[..written]
      {
        PutByte(data[written]);
        assert q + data[..written] + [data[written]] == q + data[..written + 1];
        written := written + 1;
      }
    }

    method PutByte(b: u8)
      requires Valid() && count < PIPE_SIZE
      modifies this, buf
      ensures Valid() && Queue() == old(Queue()) + [b]
    {
      ghost var q := Queue();
      buf[writePos] := b;
      writePos := (writePos + 1) % PIPE_SIZE;
      count := count + 1;
      forall i | 0 <= i < |q| ensures Queue()[i] == q[i] {
      }
    }

    /** pipe_read: at most max of the oldest bytes. */
    method Read(out: array<u8>, max: nat) returns (n: nat)
      requires Valid() && max <= out.Length && out != buf
      modifies this, out
      ensures Valid()
      ensures n == Min(max, |old(Queue())|)
      ensures out[..n] == old(Queue())[..n] && Queue() == old(Queue())[n..]
      ensures out[n..] == old(out[n..])
    {
      ghost var q := Queue();
      n := 0;
      while n < max && count > 0
        invariant Valid() && n <= max && n + count == |q|
        invariant out[..n] == q[..n] && Queue() == q[n..]
        invariant forall j :: n <= j < out.Length ==> out[j] == old(out[j])
      {
        assert Queue()[0] == q[n] && Slot(readPos, 0) == readPos;
        out[n] := buf[readPos];
        assert out[..n + 1] == q[..n + 1];
        DropByte();
        n := n + 1;
      }
    }

    method DropByte()
      requires Valid() && count > 0
      modifies this
      ensures Valid() && Queue() == old(Queue())[1..]
    {
      readPos := (readPos + 1) % PIPE_SIZE;
      count := count - 1;
    }
  }
}
