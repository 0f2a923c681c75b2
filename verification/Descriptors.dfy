/** The descriptor table over files and pipes (fs/fd.c). */
module Descriptors {
  import opened Bytes
  import opened Streams
  import R = RamFs
  import P = Pipes

  const FD_MAX := 16

  datatype Entry = Entry(open: bool, isPipe: bool, node: Option<R.File>, pipe: Option<P.Pipe>, offset: nat,
                         writeEnd: bool)

  /** The objects a read or write of an entry works on. */
  ghost function Target(e: Entry): set<object>
  {
    if e.isPipe then (if e.pipe.Some? then {e.pipe.value, e.pipe.value.buf} else {})
    else if e.node.Some? then {e.node.value, e.node.value.buf} else {}
  }

  /** The stream behind a file entry. */
  ghost function StreamOf(e: Entry): (s: Stream)
    requires e.node.Some? && e.node.value.Valid()
    reads if e.node.Some? then {e.node.value, e.node.value.buf} else {}
  {
    Stream(FileView(e.node.value.buf[..], e.node.value.length), e.offset)
  }

  /** What a read or write may assume of an open entry: its pipe or file is in order and its offset inside the file. */
  ghost predicate Sound(e: Entry)
    reads Target(e)
  {
    if e.isPipe then e.pipe.Some? && e.pipe.value.Valid()
    else e.node.Some? ==> e.node.value.Valid() && e.offset <= e.node.value.buf.Length < 0x8000_0000
  }

  /** fd is the lowest closed slot, or -1 when there is none. */
  predicate FreeAt(es: seq<Entry>, fd: int)
  {
    if fd == -1 then forall i :: 0 <= i < |es| ==> es[i].open
    else 0 <= fd < |es| && !es[fd].open && forall i :: 0 <= i < fd ==> es[i].open
  }

  lemma WrittenIs(s: Stream, data: Chunk, t: Stream, n: nat)
    requires StreamOk(s) && n == Min(|data|, |s.file.buf| - s.offset) && t.offset == s.offset + n
    requires t.file.buf == s.file.buf[..s.offset] + data[..n] + s.file.buf[s.offset + n..]
    requires t.file.length == if s.offset + n > s.file.length then s.offset + n else s.file.length
    ensures t == WriteStream(s, data)
  {
  }

  lemma InnerSlice(s: seq<u8>, len: nat, from: nat, to: nat)
    requires from <= to <= len <= |s|
    ensures s[..len][from..to] == s[from..to]
  {
  }

  class FdTable {
    const entries: array<Entry>

    ghost predicate Shape() { entries.Length == FD_MAX }

    ghost predicate IsOpen(fd: int)
      reads entries
    {
      Shape() && 0 <= fd < FD_MAX && entries[fd].open
    }

    /** fd_init. */
    constructor ()
      ensures Shape() && entries.Length == 16 && fresh(entries)
      ensures forall i :: 0 <= i < FD_MAX ==> entries[i] == Entry(false, false, None, None, 0, false)
    {
      entries := new Entry[FD_MAX](_ => Entry(false, false, None, None, 0, false));
    }

    /** The lowest closed slot, the search of fd_open and fd_open_pipe. */
    method FreeSlot() returns (fd: int)
      requires Shape()
      ensures FreeAt(entries[..], fd)
    {
      fd := 0;
      while fd < FD_MAX
        invariant 0 <= fd <= FD_MAX
        invariant forall i :: 0 <= i < fd ==> entries[i].open
      {
        if !entries[fd].open {
          return;
        }
        fd := fd + 1;
      }
      fd := -1;
    }

    /** fd_open: the slot keeps its pipe mark, so it reads and writes the file only if no pipe was ever opened there. */
    method Open(node: Option<R.File>) returns (fd: int)
      requires Shape()
      modifies entries
      ensures FreeAt(old(entries[..]), fd)
      ensures if fd == -1 then entries[..] == old(entries[..])
              else entries[..] == old(entries[..])[fd := old(entries[fd]).(node := node, offset := 0, open := true)]
    {
      fd := FreeSlot();
      if fd >= 0 {
        entries[fd] := entries[fd].(node := node, offset := 0, open := true);
      }
    }

    /** fd_open_pipe. */
    method OpenPipe(p: P.Pipe, writeEnd: bool) returns (fd: int)
      requires Shape()
      modifies entries
      ensures FreeAt(old(entries[..]), fd)
      ensures if fd == -1 then entries[..] == old(entries[..])
              else entries[..] == old(entries[..])[fd := Entry(true, true, None, Some(p), 0, writeEnd)]
    {
      fd := FreeSlot();
      if fd >= 0 {
        entries[fd] := Entry(true, true, None, Some(p), 0, writeEnd);
      }
    }

    /** fd_close: closing what is not open changes nothing that can be seen; the pipe mark stays. */
    method Close(fd: int)
      requires Shape()
      modifies entries
      ensures entries[..] == if 0 <= fd < FD_MAX
                             then old(entries[..])[fd := old(entries[fd]).(open := false, node := None, offset := 0)]
                             else old(entries[..])
    {
      if 0 <= fd < FD_MAX {
        entries[fd] := entries[fd].(open := false, node := None, offset := 0);
      }
    }

    /** fd_dup2: the two descriptors do not share an offset, and a descriptor copied onto itself ends up closed. */
    method Dup2(oldfd: int, newfd: int) returns (r: int)
      requires Shape()
      modifies entries
      ensures r == if old(IsOpen(oldfd)) && 0 <= newfd < FD_MAX then newfd else -1
      ensures r == -1 ==> entries[..] == old(entries[..])
      ensures r >= 0 && oldfd != newfd ==> entries[..] == old(entries[..])[newfd := old(entries[oldfd])]
      ensures r >= 0 && oldfd == newfd ==> !IsOpen(newfd)
    {
      if oldfd < 0 || oldfd >= FD_MAX || !entries[oldfd].open {
        return -1;
      }
      if newfd < 0 || newfd >= FD_MAX {
        return -1;
      }
      if entries[newfd].open {
        Close(newfd);
      }
      entries[newfd] := entries[oldfd];
      r := newfd;
    }

    /** fd_write on a file or a pipe. */
    method Write(fd: int, data: Chunk) returns (r: int)
      requires Shape() && |data| < 0x8000_0000 && (IsOpen(fd) ==> Sound(entries[fd]))
      modifies entries, if IsOpen(fd) then Target(entries[fd]) else {}
      ensures !old(IsOpen(fd)) ==> r == -1
      ensures old(IsOpen(fd)) ==> forall i :: 0 <= i < FD_MAX && i != fd ==> entries[i] == old(entries[i])
      ensures old(IsOpen(fd)) && !old(entries[fd]).isPipe && old(entries[fd]).node.Some? ==>
                && entries[fd] == old(entries[fd]).(offset := entries[fd].offset) && entries[fd].node.value.Valid()
                && StreamOf(entries[fd]) == WriteStream(old(StreamOf(entries[fd])), data)
                && r == entries[fd].offset - old(entries[fd]).offset
      ensures old(IsOpen(fd)) && !old(entries[fd]).isPipe && old(entries[fd]).node.None? ==>
                r == 0 && entries[fd] == old(entries[fd])
      ensures old(IsOpen(fd)) && old(entries[fd]).isPipe ==>
                && entries[fd] == old(entries[fd]) && entries[fd].pipe.value.Valid()
                && r == Taken(old(entries[fd].pipe.value.Queue()), data)
                && entries[fd].pipe.value.Queue() == old(entries[fd].pipe.value.Queue()) + data[..r]
    {
      if fd < 0 || fd >= FD_MAX || !entries[fd].open {
        return -1;
      }
      if entries[fd].isPipe {
        r := entries[fd].pipe.value.Write(data);
      } else if entries[fd].node.Some? {
        r := WriteFile(fd, data);
      } else {
        r := 0;
      }
    }

    method WriteFile(fd: nat, data: Chunk) returns (n: nat)
      requires Shape() && |data| < 0x8000_0000 && fd < FD_MAX && Sound(entries[fd])
      requires !entries[fd].isPipe && entries[fd].node.Some?
      modifies entries, Target(entries[fd])
      ensures forall i :: 0 <= i < FD_MAX && i != fd ==> entries[i] == old(entries[i])
      ensures entries[fd] == old(entries[fd]).(offset := entries[fd].offset) && entries[fd].node.value.Valid()
      ensures StreamOf(entries[fd]) == WriteStream(old(StreamOf(entries[fd])), data)
      ensures n == entries[fd].offset - old(entries[fd]).offset
    {
      var e := entries[fd];
      ghost var before := StreamOf(e);
      n := e.node.value.Write(e.offset, data);
      assert e.node.value.buf[..] == before.file.buf[..e.offset] + data[..n] + before.file.buf[e.offset + n..];
      WrittenIs(before, data, StreamOf(e.(offset := e.offset + n)), n);
      hide WriteStream;
      entries[fd] := e.(offset := e.offset + n);
    }

    /** fd_read on a file or a pipe. */
    method Read(fd: int, out: array<u8>, size: nat) returns (r: int)
      requires Shape() && size <= out.Length < 0x8000_0000 && (IsOpen(fd) ==> Sound(entries[fd]))
      requires IsOpen(fd) ==> out !in Target(entries[fd])
      modifies entries, out, if IsOpen(fd) && entries[fd].isPipe then Target(entries[fd]) else {}
      ensures !old(IsOpen(fd)) ==> r == -1 && out[..] == old(out[..])
      ensures old(IsOpen(fd)) ==> forall i :: 0 <= i < FD_MAX && i != fd ==> entries[i] == old(entries[i])
      ensures old(IsOpen(fd)) && !old(entries[fd]).isPipe && old(entries[fd]).node.Some? ==>
                && 0 <= r <= size && entries[fd] == old(entries[fd]).(offset := entries[fd].offset)
                && old(StreamOk(StreamOf(entries[fd])))
                && (out[..r], StreamOf(entries[fd])) == ReadStream(old(StreamOf(entries[fd])), size)
      ensures old(IsOpen(fd)) && !old(entries[fd]).isPipe && old(entries[fd]).node.None? ==>
                r == 0 && entries[fd] == old(entries[fd])
      ensures old(IsOpen(fd)) && old(entries[fd]).isPipe ==>
                && entries[fd] == old(entries[fd]) && entries[fd].pipe.value.Valid()
                && r == Min(size, |old(entries[fd].pipe.value.Queue())|)
                && out[..r] + entries[fd].pipe.value.Queue() == old(entries[fd].pipe.value.Queue())
      ensures old(IsOpen(fd)) ==> 0 <= r <= size && out[r..] == old(out[r..])
    {
      if fd < 0 || fd >= FD_MAX || !entries[fd].open {
        return -1;
      }
      if entries[fd].isPipe {
        ghost var q := entries[fd].pipe.value.Queue();
        r := entries[fd].pipe.value.Read(out, size);
        assert q[..r] + q[r..] == q;
      } else if entries[fd].node.Some? {
        r := ReadFile(fd, out, size);
      } else {
        r := 0;
      }
    }

    method ReadFile(fd: nat, out: array<u8>, size: nat) returns (n: nat)
      requires Shape() && size <= out.Length < 0x8000_0000 && fd < FD_MAX && Sound(entries[fd])
      requires !entries[fd].isPipe && entries[fd].node.Some? && out !in Target(entries[fd])
      modifies entries, out
      ensures forall i :: 0 <= i < FD_MAX && i != fd ==> entries[i] == old(entries[i])
      ensures n <= size && entries[fd] == old(entries[fd]).(offset := entries[fd].offset)
      ensures old(StreamOk(StreamOf(entries[fd])))
      ensures (out[..n], StreamOf(entries[fd])) == ReadStream(old(StreamOf(entries[fd])), size)
      ensures out[n..] == old(out[n..])
    {
      var e := entries[fd];
      n := e.node.value.Read(e.offset, size, out);
      entries[fd] := e.(offset := e.offset + n);
      if n > 0 {
        InnerSlice(e.node.value.buf[..], e.node.value.length, e.offset, e.offset + n);
      }
      assert n == 0 ==> out[..n] == [];
    }
  }
}
