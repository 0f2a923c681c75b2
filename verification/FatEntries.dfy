/** The 12-bit packing of the file allocation table (kernel/fat12.c, fat12_get and fat12_set). */
module FatEntries {
  import opened Bytes

  const FAT_BYTES := 1024

  /** Entries whose two bytes both lie inside the cached table. */
  const FAT_ENTRIES := 682

  type FatTable = t: seq<u8> | |t| == 1024 witness seq(1024, _ => 0)

  /** The entry held by a low and a high byte; shifts and masks are written as division and remainder. */
  function Unpack(odd: bool, lo: u8, hi: u8): (v: nat)
    ensures v < 4096
  {
    if odd then lo as int / 16 + hi as int * 16 else lo as int + hi as int % 16 * 256
  }

  function PackLow(odd: bool, lo: u8, v: nat): u8
  {
    if odd then lo % 16 + v % 16 * 16 else v % 256
  }

  function PackHigh(odd: bool, hi: u8, v: nat): u8
  {
    if odd then v / 16 % 256 else hi / 16 * 16 + v / 256 % 16
  }

  lemma Nibbles(low: nat, high: nat)
    requires low < 16
    ensures (low + high * 16) / 16 == high && (low + high * 16) % 16 == low
  {
  }

  lemma Parts(v: nat)
    requires v < 4096
    ensures v / 16 % 256 == v / 16 && v / 16 * 16 + v % 16 == v
    ensures v / 256 % 16 == v / 256 && v / 256 * 256 + v % 256 == v
  {
  }

  /** Packing then unpacking gives the value; the nibble owned by the neighbour survives. */
  lemma PackUnpack(odd: bool, lo: u8, hi: u8, v: nat)
    requires v < 4096
    ensures Unpack(odd, PackLow(odd, lo, v), PackHigh(odd, hi, v)) == v
    ensures odd ==> PackLow(odd, lo, v) % 16 == lo % 16
    ensures !odd ==> PackHigh(odd, hi, v) / 16 == hi / 16
  {
    Parts(v);
    if odd {
      Nibbles(lo % 16, v % 16);
    } else {
      Nibbles(v / 256, hi / 16);
    }
  }

  function Offset(c: nat): nat { c + c / 2 }

  /** fat12_get */
  function GetEntry(t: FatTable, c: nat): (v: nat)
    requires c < FAT_ENTRIES
    ensures v < 4096
  {
    Unpack(c % 2 == 1, t[Offset(c)], t[Offset(c) + 1])
  }

  /** fat12_set */
  function SetEntry(t: FatTable, c: nat, v: nat): FatTable
    requires c < FAT_ENTRIES
  {
    var o, odd := Offset(c), c % 2 == 1;
    t[o := PackLow(odd, t[o], v)][o + 1 := PackHigh(odd, t[o + 1], v)]
  }

  /** Entries lie in the table as consecutive 12-bit numbers, low bits first: two of them fill three bytes. */
  lemma EntryLayout(t: FatTable, k: nat)
    requires 2 * k + 1 < FAT_ENTRIES
    ensures t[3 * k] as int + 0x100 * t[3 * k + 1] as int + 0x1_0000 * t[3 * k + 2] as int ==
            GetEntry(t, 2 * k) + 0x1000 * GetEntry(t, 2 * k + 1)
  {
    assert Offset(2 * k) == 3 * k && Offset(2 * k + 1) == 3 * k + 1;
    var shared: int := t[3 * k + 1];
    assert shared == shared / 16 * 16 + shared % 16;
  }

  /** The bytes 03 40 00 behind the two reserved entries are the links of the chain 2, 3, 4. */
  lemma LinksOfThreeBytes(t: FatTable)
    requires t[3] == 0x03 && t[4] == 0x40 && t[5] == 0x00
    ensures GetEntry(t, 2) == 3 && GetEntry(t, 3) == 4
  {
    EntryLayout(t, 1);
    hide GetEntry, Unpack;
    assert GetEntry(t, 2) < 4096 && GetEntry(t, 3) < 4096;
  }

  /** Two packed neighbours share a byte; setting one never disturbs the other. */
  lemma SetThenGet(t: FatTable, c: nat, v: nat, d: nat)
    requires c < FAT_ENTRIES && d < FAT_ENTRIES && v < 4096
    ensures GetEntry(SetEntry(t, c, v), d) == if d == c then v else GetEntry(t, d)
  {
    var o, p := Offset(c), Offset(d);
    PackUnpack(c % 2 == 1, t[o], t[o + 1], v);
    if c < d {
      assert p > o;
      assert p == o + 1 ==> c % 2 == 0 && d == c + 1;
    } else if d < c {
      assert o > p;
      assert o == p + 1 ==> d % 2 == 0 && c == d + 1;
    }
  }

  /** The first n entries as plain numbers. */
  function Entries(t: FatTable, n: nat): (f: seq<nat>)
    requires n <= FAT_ENTRIES
    ensures |f| == n && forall c :: 0 <= c < n ==> f[c] == GetEntry(t, c) && f[c] < 4096
  {
    seq(n, c requires 0 <= c < n => GetEntry(t, c))
  }

  lemma EntriesAfterSet(t: FatTable, n: nat, c: nat, v: nat)
    requires c < n <= FAT_ENTRIES && v < 4096
    ensures Entries(SetEntry(t, c, v), n) == Entries(t, n)[c := v]
  {
    forall d | 0 <= d < n
      ensures GetEntry(SetEntry(t, c, v), d) == Entries(t, n)[c := v][d]
    {
      SetThenGet(t, c, v, d);
    }
  }

  /** With a one-sector table only the first 512 bytes are read from disk; 341 entries lie there. */
  const ONE_SECTOR_ENTRIES := 341

  lemma EntriesFromPrefix(t: FatTable, u: FatTable, n: nat, bytes: nat)
    requires (bytes == 512 && n <= ONE_SECTOR_ENTRIES) || (bytes == 1024 && n <= FAT_ENTRIES)
    requires t[..bytes] == u[..bytes]
    ensures Entries(t, n) == Entries(u, n)
  {
    forall c | 0 <= c < n
      ensures GetEntry(t, c) == GetEntry(u, c)
    {
      var o := Offset(c);
      assert o + 1 < bytes;
      assert t[o] == t[..bytes][o] && u[o] == u[..bytes][o];
      assert t[o + 1] == t[..bytes][o + 1] && u[o + 1] == u[..bytes][o + 1];
    }
  }
}
