/** Files of the in-memory file system: a fixed buffer and a length (fs/ramfs.c). */
module RamFs {
  import opened Bytes

  const MAX_FILESIZE := 4096

  /** How many bytes a read of size at offset delivers from a file of the given length. */
  function ReadCount(length: nat, offset: nat, size: nat): nat
  {
    if offset >= length then 0 else Min(size, length - offset)
  }

  lemma SliceIs(s: seq<u8>, from: nat, part: seq<u8>)
    requires from + |part| <= |s| && forall j :: 0 <= j < |part| ==> part[j] == s[from + j]
    ensures part == s[from..from + |part|]
  {
  }

  lemma OverwriteStep(was: seq<u8>, offset: nat, data: seq<u8>, i: nat)
    requires i < |data| && offset + i < |was|
    ensures (was[..offset] + data[..i] + was[offset + i..])[offset + i := data[i]]
            == was[..offset] + data[..i + 1] + was[offset + i + 1..]
  {
  }

  class File {
    const buf: array<u8>
    var length: nat

    ghost predicate Valid()
      reads this
    {
      length <= buf.Length
    }

    /** The bytes of the file. */
    ghost function Contents(): seq<u8>
      requires Valid()
      reads this, buf
    {
      buf[..length]
    }

    /** make_node for a file whose buffer could be allocated. */
    constructor ()
      ensures Valid() && fresh(buf) && buf.Length == 4096 && Contents() == []
    {
      buf := new u8[MAX_FILESIZE](_ => 0);
      length := 0;
    }

    /** ramfs_read. */
    method Read(offset: nat, size: nat, out: array<u8>) returns (n: nat)
      requires Valid() && size <= out.Length && out != buf && (offset < length ==> offset + size < 0x1_0000_0000)
      modifies out
      ensures n == ReadCount(length, offset, size)
      ensures n > 0 ==> out[..n] == Contents()[offset..offset + n]
      ensures out[n..] == old(out[n..])
    {
      if offset >= buf.Length || offset >= length {
        return 0;
      }
      n := size;
      if offset + size > length {
        n := length - offset;
      }
      var i := 0;
      while i < n
        invariant i <= n
        invariant forall j :: 0 <= j < i ==> out[j] == buf[offset + j]
        invariant forall j :: i <= j < out.Length ==> out[j] == old(out[j])
      {
        out[i] := buf[offset + i];
        i := i + 1;
      }
      SliceIs(Contents(), offset, out[..n]);
      assert out[n..] == old(out[n..]);
    }

    /** ramfs_write: what does not fit in the buffer is cut off. */
    method Write(offset: nat, data: seq<u8>) returns (n: nat)
      requires Valid() && offset <= buf.Length && offset + |data| < 0x1_0000_0000
      modifies this, buf
      ensures Valid()
      ensures n == Min(|data|, buf.Length - offset)
      ensures buf[..] == old(buf[..offset]) + data[..n] + old(buf[offset + n..])
      ensures length == if offset + n > old(length) then offset + n else old(length)
    {
      ghost var was := buf[..];
      n := |data|;
      if offset + n > buf.Length {
        n := buf.Length - offset;
      }
      var i := 0;
      while i < n
        invariant i <= n
        invariant buf[..] == was[..offset] + data[..i] + was[offset + i..]
        modifies buf
      {
        OverwriteStep(was, offset, data, i);
        buf[offset + i] := data[i];
        i := i + 1;
      }
      if offset + n > length {
        length := offset + n;
      }
    }
  }
}
