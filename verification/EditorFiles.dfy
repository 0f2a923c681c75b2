/** Saving the editor's buffer to a file and loading a file into a fresh buffer (kernel/editor.c:284-316, 357-366). */
module EditorFiles {
  import opened Bytes
  import opened EditorText
  import opened EditorRuns
  import opened SavedText
  import E = Editor
  import R = RamFs

  /** The bytes of one line. */
  method LineBytes(ed: E.Editor, k: nat) returns (line: Line)
    requires ed.Valid() && k < ed.numLines
    ensures line == ed.Contents().lines[k]
  {
    ghost var whole := ed.Contents().lines[k];
    E.LineLength(ed.AllCells(), ed.lineLen[..], ed.numLines, k);
    line := [];
    var j := 0;
    while j < ed.lineLen[k]
      invariant j <= ed.lineLen[k] && line == whole[..j]
    {
      assert whole[j] == ed.RowCells(k)[j];
      line := line + [ed.buf[k, j]];
      j := j + 1;
    }
  }

  /** One turn of the write loop of save_file: a line and its newline at the file's end, as far as they fit. The offset
      moves past the newline even where that was cut off. */
  method SaveLine(node: R.File, off: nat, line: Line) returns (next: nat)
    requires node.Valid() && off == node.length && |line| <= LINE_MAX && node.buf.Length < 0x8000_0000
    modifies node, node.buf
    ensures node.Valid()
    ensures var all, capacity := old(node.Contents()) + line + [NEWLINE], node.buf.Length;
            node.Contents() == all[..Min(|all|, capacity)] && (|all| <= capacity ==> next == node.length)
  {
    ghost var was := node.Contents();
    var n := node.Write(off, line);
    ghost var part := node.Contents();
    assert part == was + line[..n];
    next := off + n;
    n := node.Write(next, [NEWLINE]);
    assert node.Contents() == part + [NEWLINE][..n];
    next := next + 1;
    CutTwice(was, line, node.buf.Length);
  }

  lemma CutTwice(was: Line, line: Line, capacity: nat)
    requires |was| <= capacity
    ensures var all, n := was + line + [NEWLINE], Min(|line|, capacity - |was|);
            all[..Min(|all|, capacity)] == was + line[..n] + [NEWLINE][..Min(1, capacity - |was| - n)]
  {
  }

  /** The write loop of save_file, on a text whose last line begins inside the file. */
  method Save(ed: E.Editor, node: R.File)
    requires ed.Valid() && node.Valid() && node.buf.Length < 0x8000_0000
    requires Savable(ed.Contents().lines, node.buf.Length)
    modifies ed`modified, node, node.buf
    ensures ed.Valid() && ed.Contents() == old(ed.Contents()).(modified := false)
    ensures node.Valid() && node.Contents() == Saved(ed.Contents().lines, node.buf.Length)
  {
    hide Before, Ok, Savable, Saved;
    ghost var d := ed.Contents();
    node.length := 0;
    var off, i := 0, 0;
    BeforeNone(d.lines);
    while i < ed.numLines
      invariant i <= ed.numLines && ed.Valid() && ed.Contents() == d
      invariant node.Valid()
      invariant i < ed.numLines ==> off == node.length && node.Contents() == Before(d.lines, i)
      invariant i == ed.numLines ==> node.Contents() == Saved(d.lines, node.buf.Length)
      modifies node, node.buf
    {
      var line := LineBytes(ed, i);
      off := SaveLine(node, off, line);
      SaveStep(d.lines, i, node.buf.Length);
      i := i + 1;
    }
    ed.modified := false;
  }

  /** A line and its newline behind the lines before it: all of them fit in front of the last one, and behind that one
      stands what the file holds in the end. */
  lemma SaveStep(lines: seq<Line>, i: nat, capacity: nat)
    requires i < |lines| && Savable(lines, capacity)
    ensures var all := Before(lines, i) + lines[i] + [NEWLINE];
            && (i + 1 < |lines| ==> |all| <= capacity && all[..Min(|all|, capacity)] == Before(lines, i + 1))
            && (i + 1 == |lines| ==> all[..Min(|all|, capacity)] == Saved(lines, capacity))
  {
    hide Before;
    BeforeNext(lines, i);
    if i + 1 < |lines| {
      BeforeWithin(lines, i + 1, |lines| - 1);
      var b := Before(lines, i + 1);
      assert b[..|b|] == b;
    }
  }

  lemma BeforeNone(lines: seq<Line>)
    ensures Before(lines, 0) == []
  {
  }

  lemma {:induction false} BeforeWithin(lines: seq<Line>, k: nat, n: nat)
    requires k <= n <= |lines|
    ensures |Before(lines, k)| <= |Before(lines, n)|
    decreases n - k
  {
    if k < n {
      BeforeNext(lines, k);
      BeforeWithin(lines, k + 1, n);
    }
  }

  // ---------------------------------------------------------------- loading

  /** The rows hold what has been read so far; the lines behind it are still empty. */
  ghost predicate Holds(ed: E.Editor, line: nat, col: nat, r: Reading)
    reads ed.buf, ed.lineLen
  {
    && ed.Shape() && line == |r.done| <= MAX_LINES && col == |r.cur| <= LINE_MAX
    && (forall k :: 0 <= k < line ==> ed.lineLen[k] == |r.done[k]| <= LINE_MAX
                                      && ed.AllCells()[k][..ed.lineLen[k]] == r.done[k])
    && (forall k :: line <= k < MAX_LINES ==> ed.lineLen[k] == 0)
    && (line < MAX_LINES ==> ed.AllCells()[line][..col] == r.cur)
  }

  /** One byte of the inner loop of load_file. */
  method LoadByte(ed: E.Editor, line: nat, col: nat, c: u8, ghost r: Reading) returns (line1: nat, col1: nat)
    requires Holds(ed, line, col, r) && line < MAX_LINES
    modifies ed.buf, ed.lineLen
    ensures Holds(ed, line1, col1, Feed(r, c))
  {
    line1, col1 := line, col;
    ghost var cells := ed.AllCells();
    if c == NEWLINE {
      ed.SetCell(line, col, E.NUL);
      assert ed.AllCells()[line][..col] == cells[line][..col];
      ed.lineLen[line] := col;
      line1 := line + 1;
      col1 := 0;
      assert line1 < MAX_LINES ==> ed.AllCells()[line1][..0] == [];
    } else if col < LINE_MAX {
      ed.SetCell(line, col, c);
      assert ed.AllCells()[line][..col + 1] == cells[line][..col] + [c];
      col1 := col + 1;
    }
  }

  /** The inner loop of load_file: one chunk, the n bytes of the file from off on. It stops behind the last line. */
  method LoadChunk(ed: E.Editor, line: nat, col: nat, chunk: array<u8>, n: nat, ghost bytes: Line, ghost off: nat)
    returns (line1: nat, col1: nat)
    requires n <= chunk.Length && chunk != ed.buf as object
    requires off + n <= |bytes| && chunk[..n] == bytes[off..off + n]
    requires Holds(ed, line, col, Parsed(bytes[..off]))
    modifies ed.buf, ed.lineLen
    ensures Holds(ed, line1, col1, Parsed(bytes[..off + n]))
  {
    hide Feed, Parsed, Holds;
    HoldsBounds(ed, line, col, Parsed(bytes[..off]));
    line1, col1 := line, col;
    var i := 0;
    while i < n && line1 < MAX_LINES
      invariant i <= n && chunk[..n] == bytes[off..off + n]
      invariant Holds(ed, line1, col1, Parsed(bytes[..off + i]))
    {
      assert chunk[i] == chunk[..n][i] == bytes[off + i];
      OneByteMore(bytes, off + i);
      line1, col1 := LoadByte(ed, line1, col1, chunk[i], Parsed(bytes[..off + i]));
      i := i + 1;
    }
    HoldsBounds(ed, line1, col1, Parsed(bytes[..off + i]));
    if i < n {
      Stopped(bytes, off + i, off + n);
    }
  }

  /** Behind the last line nothing is read any more. */
  lemma {:induction false} Stopped(bytes: Line, k: nat, n: nat)
    requires k <= n <= |bytes| && |Parsed(bytes[..k]).done| == MAX_LINES
    ensures Parsed(bytes[..n]) == Parsed(bytes[..k])
    decreases n - k
  {
    if k < n {
      Stopped(bytes, k, n - 1);
      OneByteMore(bytes, n - 1);
    }
  }

  lemma OneByteMore(bytes: Line, k: nat)
    requires k < |bytes|
    ensures Parsed(bytes[..k + 1]) == Feed(Parsed(bytes[..k]), bytes[k])
  {
    assert bytes[..k + 1] == bytes[..k] + [bytes[k]];
    ParsedAppend(bytes[..k], bytes[k]);
  }

  const CHUNK := 128

  /** A chunk of n bytes has been read from off, and the bytes before it have been taken in. */
  ghost predicate Reads(ed: E.Editor, bytes: Line, tmp: array<u8>, off: nat, n: nat, line: nat, col: nat)
    reads ed.buf, ed.lineLen, tmp
  {
    && off <= |bytes| && tmp.Length == CHUNK && n == R.ReadCount(|bytes|, off, CHUNK)
    && (n > 0 ==> tmp[..n] == bytes[off..off + n])
    && Holds(ed, line, col, Parsed(bytes[..off]))
  }

  /** One turn of the outer loop of load_file: the chunk is taken in and the next one read. */
  method LoadNext(ed: E.Editor, node: R.File, tmp: array<u8>, off: nat, n: nat, line: nat, col: nat)
    returns (off1: nat, n1: nat, line1: nat, col1: nat)
    requires node.Valid() && node.buf.Length < 0x8000_0000 && n > 0
    requires Reads(ed, node.Contents(), tmp, off, n, line, col)
    requires node.buf != ed.buf as object && tmp != ed.buf as object && tmp != node.buf
    modifies tmp, ed.buf, ed.lineLen
    ensures node.Contents() == old(node.Contents()) && off1 == off + n
    ensures Reads(ed, node.Contents(), tmp, off1, n1, line1, col1)
  {
    hide Feed, Parsed, Holds;
    line1, col1 := LoadChunk(ed, line, col, tmp, n, node.Contents(), off);
    off1 := off + n;
    n1 := node.Read(off1, CHUNK, tmp);
  }

  /** The outer loop of load_file: the file in chunks of 128 bytes. */
  method LoadChunks(ed: E.Editor, node: R.File) returns (line: nat)
    requires Holds(ed, 0, 0, Reading([], []))
    requires node.Valid() && node.buf.Length < 0x8000_0000 && node.buf != ed.buf as object
    modifies ed.buf, ed.lineLen
    ensures node.Valid() && node.Contents() == old(node.Contents())
    ensures Holds(ed, line, |Parsed(node.Contents()).cur|, Parsed(node.Contents()))
  {
    ghost var bytes := node.Contents();
    var tmp := new u8[CHUNK](_ => 0);
    var off: nat, col: nat := 0, 0;
    line := 0;
    assert bytes[..0] == [];
    var n := node.Read(off, CHUNK, tmp);
    assert Reads(ed, bytes, tmp, off, n, line, col);
    hide Feed, Parsed, Holds;
    while n > 0 && line < MAX_LINES
      invariant node.Contents() == bytes && Reads(ed, bytes, tmp, off, n, line, col)
      decreases |bytes| - off
      modifies tmp, ed.buf, ed.lineLen
    {
      off, n, line, col := LoadNext(ed, node, tmp, off, n, line, col);
    }
    HoldsBounds(ed, line, col, Parsed(bytes[..off]));
    assert bytes[..|bytes|] == bytes;
    if n > 0 {
      Stopped(bytes, off, |bytes|);
    }
  }

  lemma HoldsBounds(ed: E.Editor, line: nat, col: nat, r: Reading)
    requires Holds(ed, line, col, r)
    ensures line == |r.done| <= MAX_LINES && col == |r.cur|
  {
  }

  /** The end of load_file: how many lines the buffer has. */
  method LineCount(line: int, empty: bool) returns (count: int)
    requires line >= 0
    ensures count == if line == 0 then 1 else if empty && line < MAX_LINES then line else line + 1
  {
    if empty && line < MAX_LINES {
      count := if line == 0 then 1 else line;
    } else {
      count := line + 1;
    }
    if count < 1 {
      count := 1;
    }
  }

  /** load_file into a fresh buffer. The result does not depend on the chunks. A file of 128 newlines or more leaves its
      first 128 lines and a count of 129, which no buffer has. */
  method Load(ed: E.Editor, node: R.File)
    requires ed.Valid() && ed.cx == 0 && ed.cy == 0 && forall k :: 0 <= k < MAX_LINES ==> ed.lineLen[k] == 0
    requires node.Valid() && node.buf.Length < 0x8000_0000 && node.buf != ed.buf as object
    modifies ed`numLines, ed.buf, ed.lineLen
    ensures ed.Valid() <==> Loaded(node.Contents()).Some?
    ensures ed.Valid() ==> ed.Contents() == Doc(Loaded(node.Contents()).value, 0, 0, old(ed.modified))
    ensures !ed.Valid() ==> ed.numLines == MAX_LINES + 1 && Holds(ed, MAX_LINES, 0, Parsed(node.Contents()))
    ensures node.Valid() && node.Contents() == old(node.Contents())
  {
    assert ed.AllCells()[0][..0] == [];
    var line := LoadChunks(ed, node);
    ghost var r := Parsed(node.Contents());
    hide Feed, Parsed;
    ed.numLines := LineCount(line, line < MAX_LINES && ed.lineLen[line] == 0);
    if line < MAX_LINES {
      ghost var lines := E.LinesOf(ed.AllCells(), ed.lineLen[..], ed.numLines);
      assert lines == if r.done == [] then [EMPTY] else r.done;
    }
  }

  /** Ctrl-S, then editor_open of the same file: the new buffer has exactly the old one's lines if and only if those are
      fewer than 128 and fit the file. */
  method SaveAndReopen(ed: E.Editor, node: R.File) returns (again: E.Editor)
    requires ed.Valid() && node.Valid() && LINE_MAX < node.buf.Length < 0x8000_0000 && Clean(ed.Contents().lines)
    requires Savable(ed.Contents().lines, node.buf.Length)
    modifies ed`modified, node, node.buf
    ensures fresh(again)
    ensures var lines := old(ed.Contents()).lines;
            (again.Valid() && again.Visible() && again.Contents() == Doc(lines, 0, 0, false)) <==>
            |lines| < MAX_LINES && |SaveBytes(lines)| <= node.buf.Length
  {
    ghost var lines := ed.Contents().lines;
    SaveThenLoadIff(ed.Contents(), node.buf.Length);
    Save(ed, node);
    again := new E.Editor();
    Load(again, node);
  }
}
