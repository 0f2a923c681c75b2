/** The editor's buffer: a fixed array of 128 rows of 81 bytes with a length for each line (kernel/editor.c). */
module Editor {
  import opened Bytes
  import opened EditorText
  import opened EditorRuns

  const ROWS := 22
  const WIDTH := 81
  const NUL: u8 := 0

  type Cells = seq<seq<u8>>

  predicate Grid(cells: Cells, lens: seq<nat>)
  {
    && |cells| == MAX_LINES && |lens| == MAX_LINES
    && (forall k :: 0 <= k < MAX_LINES ==> |cells[k]| == WIDTH)
  }

  predicate Fits(cells: Cells, lens: seq<nat>, n: nat)
  {
    && Grid(cells, lens) && 1 <= n <= MAX_LINES
    && (forall k :: 0 <= k < n ==> lens[k] <= LINE_MAX)
  }

  /** The lines that the rows and lengths hold. */
  function LinesOf(cells: Cells, lens: seq<nat>, n: nat): (lines: seq<Line>)
    requires Fits(cells, lens, n)
    ensures |lines| == n
    ensures forall k :: 0 <= k < n ==> lines[k] == cells[k][..lens[k]]
  {
    seq(n, k requires 0 <= k < n => cells[k][..lens[k]])
  }

  /** Rows from k on, up to n, move up by one; row n - 1 stays where it was. */
  function MovedUp<T>(s: seq<T>, k: nat, n: nat): seq<T>
    requires k < n <= |s|
  {
    s[..k] + s[k + 1..n] + s[n - 1..]
  }

  /** Rows from k to n - 1 move down by one; row k stays where it was. */
  function MovedDown<T>(s: seq<T>, k: nat, n: nat): seq<T>
    requires k <= n < |s|
  {
    s[..k + 1] + s[k..n] + s[n + 1..]
  }

  lemma MovedUpAt<T>(s: seq<T>, k: nat, n: nat, i: nat)
    requires k < n <= |s| && i < |s|
    ensures |MovedUp(s, k, n)| == |s|
    ensures MovedUp(s, k, n)[i] == if k <= i < n - 1 then s[i + 1] else s[i]
  {
  }

  lemma MovedDownAt<T>(s: seq<T>, k: nat, n: nat, i: nat)
    requires k <= n < |s| && i < |s|
    ensures |MovedDown(s, k, n)| == |s|
    ensures MovedDown(s, k, n)[i] == if k < i <= n then s[i - 1] else s[i]
  {
  }

  lemma MovedUpStart<T>(s: seq<T>, k: nat)
    requires k < |s|
    ensures MovedUp(s, k, k + 1) == s
  {
    assert s[k + 1..k + 1] == [];
  }

  lemma MovedUpStep<T>(s: seq<T>, k: nat, n: nat)
    requires k < n < |s|
    ensures |MovedUp(s, k, n)| == |s| && MovedUp(s, k, n)[n] == s[n]
    ensures MovedUp(s, k, n + 1) == MovedUp(s, k, n)[n - 1 := s[n]]
  {
  }

  lemma MovedDownStart<T>(s: seq<T>, n: nat)
    requires n < |s|
    ensures MovedDown(s, n, n) == s
  {
    assert s[n..n] == [];
  }

  lemma MovedDownStep<T>(s: seq<T>, k: nat, n: nat)
    requires 0 < k <= n < |s|
    ensures |MovedDown(s, k, n)| == |s| && MovedDown(s, k, n)[k - 1] == s[k - 1]
    ensures MovedDown(s, k - 1, n) == MovedDown(s, k, n)[k := s[k - 1]]
  {
  }

  /** to with row[from..from + n] copied over its bytes from at on. */
  function Pasted(to: seq<u8>, at: nat, row: seq<u8>, from: nat, n: nat): (r: seq<u8>)
    requires at + n <= |to| && from + n <= |row|
    ensures |r| == |to|
  {
    to[..at] + row[from..from + n] + to[at + n..]
  }

  lemma PastedStart(to: seq<u8>, at: nat, row: seq<u8>, from: nat)
    requires at <= |to| && from <= |row|
    ensures Pasted(to, at, row, from, 0) == to
  {
    assert row[from..from] == [];
  }

  lemma PastedStep(to: seq<u8>, at: nat, row: seq<u8>, from: nat, n: nat)
    requires at + n < |to| && from + n < |row|
    ensures Pasted(to, at, row, from, n)[at + n := row[from + n]] == Pasted(to, at, row, from, n + 1)
  {
  }

  // ---------------------------------------------------------------- the keys on rows and lengths

  /** The lines without line k. */
  function Dropped(lines: seq<Line>, k: nat): (r: seq<Line>)
    requires k < |lines|
    ensures |r| == |lines| - 1
  {
    lines[..k] + lines[k + 1..]
  }

  /** Line k behind the line before it. */
  function Appended(lines: seq<Line>, k: nat): (r: seq<Line>)
    requires 0 < k < |lines|
    ensures |r| == |lines|
  {
    lines[k - 1 := lines[k - 1] + lines[k]]
  }

  lemma LineLength(cells: Cells, lens: seq<nat>, n: nat, k: nat)
    requires Fits(cells, lens, n) && k < n
    ensures |LinesOf(cells, lens, n)[k]| == lens[k]
  {
  }

  /** Changing one row within its own length changes that line only. */
  lemma OneRow(cells: Cells, lens: seq<nat>, n: nat, k: nat, row: seq<u8>, len: nat)
    requires Fits(cells, lens, n) && k < n && |row| == WIDTH && len <= LINE_MAX
    ensures Fits(cells[k := row], lens[k := len], n)
    ensures LinesOf(cells[k := row], lens[k := len], n) == LinesOf(cells, lens, n)[k := row[..len]]
  {
  }

  /** Rows moved up over line k: that line is gone. */
  lemma LineGone(cells: Cells, lens: seq<nat>, n: nat, k: nat)
    requires Fits(cells, lens, n) && k < n && n > 1
    ensures Fits(MovedUp(cells, k, n), MovedUp<nat>(lens, k, n), n - 1)
    ensures LinesOf(MovedUp(cells, k, n), MovedUp<nat>(lens, k, n), n - 1)
            == LinesOf(cells, lens, n)[..k] + LinesOf(cells, lens, n)[k + 1..]
  {
    hide MovedUp;
    var cells1, lens1 := MovedUp(cells, k, n), MovedUp<nat>(lens, k, n);
    MovedUpAt(cells, k, n, 0);
    MovedUpAt<nat>(lens, k, n, 0);
    forall i: nat | i < MAX_LINES ensures |cells1[i]| == WIDTH && (i < n - 1 ==> lens1[i] <= LINE_MAX) {
      MovedUpAt(cells, k, n, i);
      MovedUpAt<nat>(lens, k, n, i);
    }
    var lines := LinesOf(cells, lens, n);
    var lines1, want := LinesOf(cells1, lens1, n - 1), lines[..k] + lines[k + 1..];
    forall i: nat | i < n - 1 ensures lines1[i] == want[i] {
      MovedUpAt(cells, k, n, i);
      MovedUpAt<nat>(lens, k, n, i);
      assert want[i] == lines[if i < k then i else i + 1];
    }
  }

  /** The rows and lengths after the rows behind k moved down and rows k and k + 1 were set. */
  predicate CutRows(cells: Cells, lens: seq<nat>, n: nat, k: nat, left: seq<u8>, right: seq<u8>, a: nat, b: nat,
                    cells1: Cells, lens1: seq<nat>)
    requires Fits(cells, lens, n) && k < n < MAX_LINES
  {
    && cells1 == MovedDown(cells, k + 1, n)[k + 1 := right][k := left]
    && lens1 == MovedDown<nat>(lens, k + 1, n)[k + 1 := b][k := a]
  }

  lemma CutRowsAt(cells: Cells, lens: seq<nat>, n: nat, k: nat, left: seq<u8>, right: seq<u8>, a: nat, b: nat,
                  cells1: Cells, lens1: seq<nat>, i: nat)
    requires Fits(cells, lens, n) && k < n < MAX_LINES && CutRows(cells, lens, n, k, left, right, a, b, cells1, lens1)
    requires i < MAX_LINES
    ensures |cells1| == |lens1| == MAX_LINES
    ensures cells1[i] == if i == k then left else if i == k + 1 then right
                         else if k + 1 < i <= n then cells[i - 1] else cells[i]
    ensures lens1[i] == if i == k then a else if i == k + 1 then b
                        else if k + 1 < i <= n then lens[i - 1] else lens[i]
  {
    hide MovedDown;
    MovedDownAt(cells, k + 1, n, i);
    MovedDownAt<nat>(lens, k + 1, n, i);
  }

  /** Rows moved down behind line k, and that line cut in two. */
  lemma LineCut(cells: Cells, lens: seq<nat>, n: nat, k: nat, left: seq<u8>, right: seq<u8>, a: nat, b: nat,
                cells1: Cells, lens1: seq<nat>)
    requires Fits(cells, lens, n) && k < n < MAX_LINES && CutRows(cells, lens, n, k, left, right, a, b, cells1, lens1)
    requires |left| == WIDTH && |right| == WIDTH && a <= LINE_MAX && b <= LINE_MAX
    ensures Fits(cells1, lens1, n + 1)
    ensures LinesOf(cells1, lens1, n + 1)
            == LinesOf(cells, lens, n)[..k] + [left[..a], right[..b]] + LinesOf(cells, lens, n)[k + 1..]
  {
    hide CutRows;
    CutRowsAt(cells, lens, n, k, left, right, a, b, cells1, lens1, 0);
    forall i: nat | i < MAX_LINES
      ensures |cells1[i]| == WIDTH && (i < n + 1 ==> lens1[i] <= LINE_MAX)
    {
      CutRowsAt(cells, lens, n, k, left, right, a, b, cells1, lens1, i);
    }
    var lines := LinesOf(cells, lens, n);
    var lines1, want := LinesOf(cells1, lens1, n + 1), lines[..k] + [left[..a], right[..b]] + lines[k + 1..];
    forall i: nat | i < n + 1 ensures lines1[i] == want[i] {
      CutRowsAt(cells, lens, n, k, left, right, a, b, cells1, lens1, i);
      if i > k + 1 {
        assert want[i] == lines[i - 1];
      }
    }
  }

  predicate Shows(first: nat, line: nat) { first <= line < first + 22 }

  class Editor {
    const buf: array2<u8>
    const lineLen: array<nat>
    var numLines: nat
    var cx: nat
    var cy: nat
    var scrollY: nat
    var modified: bool

    ghost predicate Shape()
    {
      buf.Length0 == MAX_LINES && buf.Length1 == WIDTH && lineLen.Length == MAX_LINES
    }

    /** One row of the array, all 81 bytes. */
    ghost function RowCells(k: nat): (row: seq<u8>)
      requires Shape() && k < MAX_LINES
      reads buf
      ensures |row| == WIDTH && forall j :: 0 <= j < WIDTH ==> row[j] == buf[k, j]
    {
      seq(WIDTH, j requires 0 <= j < WIDTH && Shape() && k < MAX_LINES reads buf => buf[k, j])
    }

    ghost function AllCells(): (cells: Cells)
      requires Shape()
      reads buf
      ensures |cells| == MAX_LINES && forall k :: 0 <= k < MAX_LINES ==> cells[k] == RowCells(k)
    {
      seq(MAX_LINES, k requires 0 <= k < MAX_LINES && Shape() reads buf => RowCells(k))
    }

    /** Lines and cursor are in range: kept by every operation. */
    ghost predicate Valid()
      reads this, buf, lineLen
    {
      && Shape()
      && Fits(AllCells(), lineLen[..], numLines)
      && cy < numLines && cx <= lineLen[cy]
    }

    ghost function Contents(): (d: Doc)
      requires Valid()
      reads this, buf, lineLen
      ensures Ok(d)
    {
      Doc(LinesOf(AllCells(), lineLen[..], numLines), cx, cy, modified)
    }

    /** buf_init: one empty line. */
    constructor ()
      ensures Valid() && fresh(buf) && fresh(lineLen) && Visible()
      ensures Contents() == Doc([EMPTY], 0, 0, false)
      ensures forall k :: 0 <= k < MAX_LINES ==> lineLen[k] == 0
    {
      buf := new u8[MAX_LINES, WIDTH]((_, _) => 0);
      lineLen := new nat[MAX_LINES](_ => 0);
      numLines, cx, cy, scrollY, modified := 1, 0, 0, 0, false;
      new;
      assert LinesOf(AllCells(), lineLen[..], 1) == [EMPTY];
    }

    // -------------------------------------------------------------- memory

    method SetCell(r: nat, j: nat, v: u8)
      requires Shape() && r < MAX_LINES && j < WIDTH
      modifies buf
      ensures AllCells() == old(AllCells())[r := old(RowCells(r))[j := v]]
    {
      buf[r, j] := v;
      forall k | 0 <= k < MAX_LINES && k != r ensures RowCells(k) == old(RowCells(k)) {
      }
      assert RowCells(r) == old(RowCells(r))[j := v];
    }

    /** memcpy of n bytes from one row into another. */
    method CopyCells(dst: nat, at: nat, src: nat, from: nat, n: nat)
      requires Shape() && dst < MAX_LINES && src < MAX_LINES && dst != src
      requires at + n <= WIDTH && from + n <= WIDTH
      modifies buf
      ensures AllCells() == old(AllCells())[dst := Pasted(old(RowCells(dst)), at, old(RowCells(src)), from, n)]
    {
      hide Pasted;
      ghost var cells, to, row := AllCells(), RowCells(dst), RowCells(src);
      var i := 0;
      PastedStart(to, at, row, from);
      assert cells[dst := to] == cells;
      while i < n
        invariant i <= n
        invariant AllCells() == cells[dst := Pasted(to, at, row, from, i)]
      {
        assert RowCells(src) == AllCells()[src] == row;
        assert RowCells(dst) == AllCells()[dst] == Pasted(to, at, row, from, i);
        PastedStep(to, at, row, from, i);
        SetCell(dst, at + i, buf[src, from + i]);
        i := i + 1;
      }
    }

    method CopyRow(dst: nat, src: nat)
      requires Shape() && dst < MAX_LINES && src < MAX_LINES && dst != src
      modifies buf
      ensures AllCells() == old(AllCells())[dst := old(RowCells(src))]
    {
      ghost var to, row := RowCells(dst), RowCells(src);
      CopyCells(dst, 0, src, 0, WIDTH);
      assert Pasted(to, 0, row, 0, WIDTH) == row;
    }

    /** The rows behind line k move up by one. */
    method MoveUp(k: nat)
      requires Shape() && k < numLines <= MAX_LINES
      modifies buf, lineLen
      ensures AllCells() == MovedUp(old(AllCells()), k, numLines)
      ensures lineLen[..] == MovedUp<nat>(old(lineLen[..]), k, numLines)
    {
      hide MovedUp;
      ghost var cells, lens := AllCells(), lineLen[..];
      var i := k;
      MovedUpStart(cells, k);
      MovedUpStart<nat>(lens, k);
      while i < numLines - 1
        invariant k <= i < numLines
        invariant AllCells() == MovedUp(cells, k, i + 1)
        invariant lineLen[..] == MovedUp<nat>(lens, k, i + 1)
      {
        MovedUpStep(cells, k, i + 1);
        MovedUpStep<nat>(lens, k, i + 1);
        assert RowCells(i + 1) == AllCells()[i + 1] && lineLen[i + 1] == lineLen[..][i + 1];
        CopyRow(i, i + 1);
        lineLen[i] := lineLen[i + 1];
        assert lineLen[..] == MovedUp<nat>(lens, k, i + 1)[i := lens[i + 1]];
        i := i + 1;
      }
    }

    /** The rows from k to the last line move down by one; row k is left for the caller. */
    method MoveDown(k: nat)
      requires Shape() && k <= numLines < MAX_LINES
      modifies buf, lineLen
      ensures AllCells() == MovedDown(old(AllCells()), k, numLines)
      ensures lineLen[..] == MovedDown<nat>(old(lineLen[..]), k, numLines)
    {
      hide MovedDown;
      ghost var cells, lens := AllCells(), lineLen[..];
      var i := numLines;
      MovedDownStart(cells, numLines);
      MovedDownStart<nat>(lens, numLines);
      while i > k
        invariant k <= i <= numLines
        invariant AllCells() == MovedDown(cells, i, numLines)
        invariant lineLen[..] == MovedDown<nat>(lens, i, numLines)
      {
        MovedDownStep(cells, i, numLines);
        MovedDownStep<nat>(lens, i, numLines);
        assert RowCells(i - 1) == AllCells()[i - 1] && lineLen[i - 1] == lineLen[..][i - 1];
        CopyRow(i, i - 1);
        lineLen[i] := lineLen[i - 1];
        assert lineLen[..] == MovedDown<nat>(lens, i, numLines)[i := lens[i - 1]];
        i := i - 1;
      }
    }

    // -------------------------------------------------------------- keys

    /** The bytes of a line from the cursor on move right by one, from the line's end to the cursor. */
    method ShiftRight()
      requires Valid() && lineLen[cy] < LINE_MAX
      modifies buf
      ensures AllCells() == old(AllCells())[cy := MovedDown<u8>(old(RowCells(cy)), cx, lineLen[cy])]
    {
      hide MovedDown;
      ghost var cells, row := AllCells(), RowCells(cy);
      var i := lineLen[cy];
      MovedDownStart<u8>(row, i);
      assert cells[cy := row] == cells;
      while i > cx
        invariant cx <= i <= lineLen[cy]
        invariant AllCells() == cells[cy := MovedDown<u8>(row, i, lineLen[cy])]
      {
        assert RowCells(cy) == AllCells()[cy];
        MovedDownStep<u8>(row, i, lineLen[cy]);
        SetCell(cy, i, buf[cy, i - 1]);
        i := i - 1;
      }
    }

    /** buf_insert_char. */
    method InsertChar(c: u8)
      requires Valid()
      modifies this, buf, lineLen
      ensures Valid() && Contents() == Insert(old(Contents()), c) && scrollY == old(scrollY)
    {
      ghost var cells, lens, row, d := AllCells(), lineLen[..], RowCells(cy), Contents();
      var len := lineLen[cy];
      if len >= LINE_MAX {
        return;
      }
      ShiftRight();
      ghost var row1 := RowCells(cy);
      assert AllCells()[cy] == row1;
      SetCell(cy, cx, c);
      ghost var row2 := RowCells(cy);
      assert AllCells()[cy] == row2;
      var longer: nat := len + 1;
      lineLen[cy] := longer;
      SetCell(cy, len + 1, NUL);
      ghost var row3 := RowCells(cy);
      assert AllCells()[cy] == row3;
      assert AllCells() == cells[cy := row3] && lineLen[..] == lens[cy := longer];
      InsertedRow(row, cx, len, c);
      OneRow(cells, lens, numLines, cy, row3, longer);
      assert d.lines[cy] == row[..len];
      cx := cx + 1;
      modified := true;
    }

    /** The bytes of a line behind the cursor move left by one, over the character before it. */
    method ShiftLeft()
      requires Valid() && cx > 0
      modifies buf
      ensures AllCells() == old(AllCells())[cy := MovedUp<u8>(old(RowCells(cy)), cx - 1, lineLen[cy])]
    {
      hide MovedUp;
      ghost var cells, row := AllCells(), RowCells(cy);
      var i := cx - 1;
      MovedUpStart<u8>(row, i);
      assert cells[cy := row] == cells;
      while i < lineLen[cy] - 1
        invariant cx - 1 <= i < lineLen[cy]
        invariant AllCells() == cells[cy := MovedUp<u8>(row, cx - 1, i + 1)]
      {
        assert RowCells(cy) == AllCells()[cy];
        MovedUpStep<u8>(row, cx - 1, i + 1);
        SetCell(cy, i, buf[cy, i + 1]);
        i := i + 1;
      }
    }

    /** The part of buf_delete_char that removes a character of the cursor's line. */
    method DeleteInLine()
      requires Valid() && cx > 0
      modifies this, buf, lineLen
      ensures Valid() && Contents() == Backspace(old(Contents())) && scrollY == old(scrollY)
    {
      ghost var cells, lens, row, d := AllCells(), lineLen[..], RowCells(cy), Contents();
      var len := lineLen[cy];
      ShiftLeft();
      assert AllCells()[cy] == RowCells(cy);
      var shorter: nat := len - 1;
      lineLen[cy] := shorter;
      SetCell(cy, shorter, NUL);
      ghost var row2 := RowCells(cy);
      assert AllCells()[cy] == row2;
      assert AllCells() == cells[cy := row2] && lineLen[..] == lens[cy := shorter];
      DeletedRow(row, cx, len);
      OneRow(cells, lens, numLines, cy, row2, shorter);
      assert d.lines[cy] == row[..len];
      cx := cx - 1;
      modified := true;
    }

    /** buf_delete_char: the cursor's line is appended to the one above it. */
    method AppendToPrevious()
      requires Valid() && cy > 0 && lineLen[cy - 1] + lineLen[cy] <= LINE_MAX
      modifies buf, lineLen
      ensures Valid()
      ensures var d := old(Contents());
              Contents() == d.(lines := Appended(d.lines, cy))
    {
      hide Pasted, LinesOf, Appended;
      ghost var cells, lens: seq<nat> := AllCells(), lineLen[..];
      var prevLen, curLen := lineLen[cy - 1], lineLen[cy];
      assert RowCells(cy - 1) == cells[cy - 1] && RowCells(cy) == cells[cy];
      CopyCells(cy - 1, prevLen, cy, 0, curLen);
      assert AllCells()[cy - 1] == RowCells(cy - 1);
      var joined: nat := prevLen + curLen;
      lineLen[cy - 1] := joined;
      SetCell(cy - 1, joined, NUL);
      LineAppended(cells, lens, numLines, cy, AllCells(), lineLen[..]);
    }

    /** The rows behind line k move up over it. */
    method DropLine(k: nat)
      requires Shape() && Fits(AllCells(), lineLen[..], numLines) && k < numLines && numLines > 1
      modifies `numLines, buf, lineLen
      ensures numLines == old(numLines) - 1 && Fits(AllCells(), lineLen[..], numLines)
      ensures var lines := old(LinesOf(AllCells(), lineLen[..], numLines));
              LinesOf(AllCells(), lineLen[..], numLines) == Dropped(lines, k)
    {
      ghost var cells, lens: seq<nat> := AllCells(), lineLen[..];
      assert numLines <= MAX_LINES;
      hide MovedUp, Fits, LinesOf;
      MoveUp(k);
      LineGone(cells, lens, numLines, k);
      numLines := numLines - 1;
    }

    /** The part of buf_delete_char that joins the cursor's line to the one above, with room for both. */
    method JoinLines()
      requires Valid() && cx == 0 && cy > 0 && lineLen[cy - 1] + lineLen[cy] <= LINE_MAX
      modifies this, buf, lineLen
      ensures Valid() && Contents() == Backspace(old(Contents())) && scrollY == old(scrollY)
    {
      hide Fits, LinesOf, Backspace, Appended, Dropped;
      ghost var d := Contents();
      var prevLen := lineLen[cy - 1];
      LineLength(AllCells(), lineLen[..], numLines, cy - 1);
      LineLength(AllCells(), lineLen[..], numLines, cy);
      ghost var lines := JoinRows();
      JoinedDoc(d, lines);
      LineLength(AllCells(), lineLen[..], numLines, cy - 1);
      cy := cy - 1;
      cx := prevLen;
      modified := true;
    }

    /** The cursor's line goes behind the line before it, and its row away. */
    method JoinRows() returns (ghost lines: seq<Line>)
      requires Valid() && cy > 0 && lineLen[cy - 1] + lineLen[cy] <= LINE_MAX
      modifies `numLines, buf, lineLen
      ensures numLines == old(numLines) - 1 && Fits(AllCells(), lineLen[..], numLines)
      ensures lines == LinesOf(AllCells(), lineLen[..], numLines)
      ensures var d := old(Contents());
              lines == Dropped(Appended(d.lines, cy), cy)
    {
      hide Fits, LinesOf, Appended, Dropped;
      AppendToPrevious();
      DropLine(cy);
      lines := LinesOf(AllCells(), lineLen[..], numLines);
    }

    /** buf_delete_char. */
    method DeleteChar()
      requires Valid()
      modifies this, buf, lineLen
      ensures Valid() && Contents() == Backspace(old(Contents())) && scrollY == old(scrollY)
    {
      if cx == 0 {
        if cy == 0 {
          return;
        }
        assert Contents().lines[cy - 1] == AllCells()[cy - 1][..lineLen[cy - 1]];
        assert Contents().lines[cy] == AllCells()[cy][..lineLen[cy]];
        if lineLen[cy - 1] + lineLen[cy] <= LINE_MAX {
          JoinLines();
        } else {
          modified := true;
        }
      } else {
        DeleteInLine();
      }
    }

    /** buf_newline: the part of the cursor's row behind the cursor is copied to the row below, and both are ended. */
    method SplitRow(rest: nat)
      requires Shape() && cy + 1 < MAX_LINES && cx + rest <= LINE_MAX
      modifies buf, lineLen
      ensures var row, below, lens := old(RowCells(cy)), old(RowCells(cy + 1)), old(lineLen[..]);
              && AllCells() == old(AllCells())[cy + 1 := Pasted(below, 0, row, cx, rest)[rest := NUL]][cy := row[cx := NUL]]
              && lineLen[..] == lens[cy + 1 := rest][cy := cx]
    {
      hide Pasted;
      ghost var cells := AllCells();
      CopyCells(cy + 1, 0, cy, cx, rest);
      assert AllCells()[cy + 1] == RowCells(cy + 1);
      SetCell(cy + 1, rest, NUL);
      assert RowCells(cy) == AllCells()[cy] == cells[cy];
      lineLen[cy + 1] := rest;
      SetCell(cy, cx, NUL);
      lineLen[cy] := cx;
    }

    /** buf_newline: the rows behind the cursor's line move down, and that line is cut at the cursor. */
    method OpenLine()
      requires Valid() && numLines < MAX_LINES
      modifies buf, lineLen
      ensures Fits(AllCells(), lineLen[..], numLines + 1)
      ensures var lines := old(Contents()).lines;
              LinesOf(AllCells(), lineLen[..], numLines + 1)
              == lines[..cy] + [lines[cy][..cx], lines[cy][cx..]] + lines[cy + 1..]
    {
      hide MovedDown, Pasted, LinesOf, Fits;
      ghost var cells, lens: seq<nat> := AllCells(), lineLen[..];
      RowFits(cells, lens, numLines, cy);
      MoveDown(cy + 1);
      MovedDownAt(cells, cy + 1, numLines, cy);
      MovedDownAt<nat>(lens, cy + 1, numLines, cy);
      ghost var row, below := RowCells(cy), RowCells(cy + 1);
      assert row == AllCells()[cy] == cells[cy] && lineLen[cy] == lineLen[..][cy] == lens[cy];
      var rest: nat := lineLen[cy] - cx;
      SplitRow(rest);
      LineOpened(cells, lens, numLines, cy, cx, below, AllCells(), lineLen[..]);
    }

    /** buf_newline. */
    method BreakLine()
      requires Valid()
      modifies this, buf, lineLen
      ensures Valid() && Contents() == Newline(old(Contents())) && scrollY == old(scrollY)
    {
      hide Fits;
      ghost var d := Contents();
      if numLines >= MAX_LINES {
        return;
      }
      OpenLine();
      numLines := numLines + 1;
      cy := cy + 1;
      ghost var lines := LinesOf(AllCells(), lineLen[..], numLines);
      cx := 0;
      modified := true;
      assert Contents() == Doc(lines, 0, cy, true);
    }

    /** buf_delete_line on the only line. */
    method ClearOnlyLine()
      requires Valid() && numLines == 1
      modifies this, buf, lineLen
      ensures Valid() && Contents() == DeleteLine(old(Contents())) && scrollY == old(scrollY)
    {
      ghost var cells, lens: seq<nat> := AllCells(), lineLen[..];
      var j := 0;
      assert cells[0 := cells[0]] == cells;
      while j < WIDTH
        invariant j <= WIDTH
        invariant AllCells() == cells[0 := RowCells(0)]
        modifies buf
      {
        SetCell(0, j, NUL);
        assert AllCells()[0] == RowCells(0);
        j := j + 1;
      }
      var empty: nat := 0;
      lineLen[0] := empty;
      assert lineLen[..] == lens[0 := empty];
      OneRow(cells, lens, 1, 0, RowCells(0), empty);
      cx := 0;
      modified := true;
    }

    /** buf_delete_line on one of several lines. */
    method RemoveOneOfMany()
      requires Valid() && numLines > 1
      modifies this, buf, lineLen
      ensures Valid() && Contents() == DeleteLine(old(Contents())) && scrollY == old(scrollY)
    {
      hide Fits, LinesOf, DeleteLine, Dropped;
      ghost var d := Contents();
      DropLine(cy);
      ghost var lines := LinesOf(AllCells(), lineLen[..], numLines);
      DeletedDoc(d, lines);
      modified := true;
      KeepInText();
      assert LinesOf(AllCells(), lineLen[..], numLines) == lines;
    }

    /** buf_delete_line. */
    method RemoveLine()
      requires Valid()
      modifies this, buf, lineLen
      ensures Valid() && Contents() == DeleteLine(old(Contents())) && scrollY == old(scrollY)
    {
      if numLines == 1 {
        ClearOnlyLine();
      } else {
        RemoveOneOfMany();
      }
    }

    /** The end of buf_delete_line: a cursor behind the last line or the line's end moves back to it. */
    method KeepInText()
      requires Shape() && Fits(AllCells(), lineLen[..], numLines)
      modifies `cx, `cy
      ensures cy == if old(cy) >= numLines then numLines - 1 else old(cy)
      ensures cx == Min(old(cx), |LinesOf(AllCells(), lineLen[..], numLines)[cy]|)
      ensures cx <= lineLen[cy]
    {
      if cy >= numLines {
        cy := numLines - 1;
      }
      ghost var lines := LinesOf(AllCells(), lineLen[..], numLines);
      assert |lines[cy]| == lineLen[..][cy] == lineLen[cy];
      if cx > lineLen[cy] {
        cx := lineLen[cy];
      }
    }

    // -------------------------------------------------------------- cursor keys and the key loop

    method CursorUp()
      requires Valid()
      modifies `cx, `cy
      ensures Valid() && Contents() == Up(old(Contents()))
    {
      hide LinesOf;
      if cy > 0 {
        cy := cy - 1;
        LineLength(AllCells(), lineLen[..], numLines, cy);
        if cx > lineLen[cy] {
          cx := lineLen[cy];
        }
      }
    }

    method CursorDown()
      requires Valid()
      modifies `cx, `cy
      ensures Valid() && Contents() == Down(old(Contents()))
    {
      hide LinesOf;
      if cy + 1 < numLines {
        cy := cy + 1;
        LineLength(AllCells(), lineLen[..], numLines, cy);
        if cx > lineLen[cy] {
          cx := lineLen[cy];
        }
      }
    }

    method CursorLeft()
      requires Valid()
      modifies `cx, `cy
      ensures Valid() && Contents() == Left(old(Contents()))
    {
      hide LinesOf;
      if cx > 0 {
        cx := cx - 1;
      } else if cy > 0 {
        cy := cy - 1;
        LineLength(AllCells(), lineLen[..], numLines, cy);
        cx := lineLen[cy];
      }
    }

    method CursorRight()
      requires Valid()
      modifies `cx, `cy
      ensures Valid() && Contents() == Right(old(Contents()))
    {
      hide LinesOf;
      LineLength(AllCells(), lineLen[..], numLines, cy);
      if cx < lineLen[cy] {
        cx := cx + 1;
      } else if cy + 1 < numLines {
        cy := cy + 1;
        cx := 0;
      }
    }

    method CursorHome()
      requires Valid()
      modifies `cx, `cy
      ensures Valid() && Contents() == Home(old(Contents()))
    {
      hide LinesOf;
      cx := 0;
    }

    method CursorEnd()
      requires Valid()
      modifies `cx, `cy
      ensures Valid() && Contents() == End(old(Contents()))
    {
      hide LinesOf;
      LineLength(AllCells(), lineLen[..], numLines, cy);
      cx := lineLen[cy];
    }

    /** The cursor's line is one of the 22 on the screen. */
    ghost predicate Visible()
      reads this
    {
      Shows(scrollY, cy)
    }

    /** adjust_scroll: the nearest first line that shows the cursor. */
    method AdjustScroll()
      modifies `scrollY
      ensures Visible()
      ensures forall s: nat :: Shows(s, cy) ==>
                if old(scrollY) <= s then old(scrollY) <= scrollY <= s else s <= scrollY <= old(scrollY)
    {
      if cy < scrollY {
        scrollY := cy;
      }
      if cy >= scrollY + ROWS {
        scrollY := cy - ROWS + 1;
      }
    }

    method HandleChar(c: u8)
      requires Valid()
      modifies this, buf, lineLen
      ensures Valid() && Contents() == Press(old(Contents()), Char(c)) && scrollY == old(scrollY)
    {
      hide Fits, LinesOf, Home, End, Insert, Newline, Backspace, DeleteLine;
      if c == CTRL_K {
        RemoveLine();
      } else if c == CTRL_A {
        CursorHome();
      } else if c == CTRL_E {
        CursorEnd();
      } else if c == NEWLINE {
        BreakLine();
      } else if c == BACKSPACE {
        DeleteChar();
      } else if 32 <= c < 127 {
        InsertChar(c);
      }
    }

    /** One turn of the key loop, for the keys that neither save, search nor quit. */
    method HandleKey(e: Event)
      requires Valid() && Visible()
      modifies this, buf, lineLen
      ensures Valid() && Visible()
      ensures Contents() == Press(old(Contents()), e)
    {
      hide Fits, LinesOf, Up, Down, Left, Right, Home, End, Insert, Newline, Backspace, DeleteLine;
      match e {
        case ArrowUp => CursorUp();
        case ArrowDown => CursorDown();
        case ArrowLeft => CursorLeft();
        case ArrowRight => CursorRight();
        case HomeKey => CursorHome();
        case EndKey => CursorEnd();
        case Char(c) => HandleChar(c);
      }
      AdjustScroll();
    }

    // -------------------------------------------------------------- find

    /** The text on the screen at line l, column c starts with the query: strncmp on the row. */
    method MatchesAt(l: nat, c: nat, q: seq<u8>) returns (matches: bool)
      requires Valid() && NUL !in q && l < numLines && c + |q| <= lineLen[l]
      ensures matches <==> OccursAt(Contents().lines, q, l, c)
    {
      ghost var line := Contents().lines[l];
      LineLength(AllCells(), lineLen[..], numLines, l);
      assert forall j :: 0 <= j < |line| ==> line[j] == RowCells(l)[j] == buf[l, j];
      var i := 0;
      while i < |q| && buf[l, c + i] != NUL && buf[l, c + i] == q[i]
        invariant i <= |q| && line[c..c + i] == q[..i]
      {
        assert line[c..c + i + 1] == line[c..c + i] + [line[c + i]] && q[..i + 1] == q[..i] + [q[i]];
        i := i + 1;
      }
      matches := i == |q| || buf[l, c + i] == q[i];
      if i < |q| {
        assert line[c..c + |q|][i] != q[i];
      } else {
        assert q[..i] == q;
      }
    }

    /** The first place in columns from..end of line l where the query stands. */
    method ScanLine(l: nat, from: nat, end: nat, q: seq<u8>, ghost lines: seq<Line>) returns (found: bool, col: nat)
      requires Valid() && NUL !in q && l < numLines && end <= lineLen[l] && lines == Contents().lines
      ensures found ==> from <= col && col + |q| <= end && OccursAt(lines, q, l, col)
      ensures forall e: nat :: OccursAt(lines, q, l, e) ==> e < from || end < e + |q| || (found && col <= e)
      ensures forall e: nat :: OccursAt(lines, q, l, e) ==> e + |q| <= lineLen[l]
    {
      LineLength(AllCells(), lineLen[..], numLines, l);
      assert |lines[l]| == lineLen[l];
      found := false;
      col := from;
      while col + |q| <= end
        invariant from <= col
        invariant forall e: nat :: OccursAt(lines, q, l, e) ==> e < from || col <= e
      {
        found := MatchesAt(l, col, q);
        if found {
          return;
        }
        col := col + 1;
      }
    }

    /** The first loop of ed_find: from behind the cursor to the end of the text. */
    method FindAhead(q: seq<u8>) returns (found: bool, row: nat, col: nat)
      requires Valid() && NUL !in q && q != []
      ensures found ==> Candidate(Contents(), q, row, col) && Ahead(Contents(), row, col)
      ensures forall m: nat, e: nat :: Candidate(Contents(), q, m, e) && Ahead(Contents(), m, e) ==>
                found && NoLater(Contents(), row, col, m, e)
    {
      hide Fits, LinesOf;
      ghost var d := Contents();
      found, col := false, 0;
      row := cy;
      while row < numLines
        invariant cy <= row <= numLines
        invariant forall m: nat, e: nat :: Candidate(d, q, m, e) && Ahead(d, m, e) ==> m >= row
      {
        var start := if row == cy then cx + 1 else 0;
        found, col := ScanLine(row, start, lineLen[row], q, d.lines);
        if found {
          assert Candidate(d, q, row, col);
          return;
        }
        assert forall e: nat :: OccursAt(d.lines, q, row, e) ==> e < start;
        row := row + 1;
      }
    }

    /** The second loop of ed_find: from the start of the text to the cursor. */
    method FindBehind(q: seq<u8>) returns (found: bool, row: nat, col: nat)
      requires Valid() && NUL !in q && q != []
      ensures found ==> Candidate(Contents(), q, row, col)
      ensures forall m: nat, e: nat :: Candidate(Contents(), q, m, e) && !Ahead(Contents(), m, e) ==>
                found && (row < m || (row == m && col <= e))
      ensures found ==> !Ahead(Contents(), row, col)
    {
      hide Fits, LinesOf;
      ghost var d := Contents();
      found, col := false, 0;
      row := 0;
      while row <= cy
        invariant row <= cy + 1
        invariant forall m: nat, e: nat :: Candidate(d, q, m, e) && !Ahead(d, m, e) ==> m >= row
      {
        var end := if row == cy then cx else lineLen[row];
        found, col := ScanLine(row, 0, end, q, d.lines);
        if found {
          assert Candidate(d, q, row, col);
          return;
        }
        assert forall e: nat :: OccursAt(d.lines, q, row, e) ==> end < e + |q| <= lineLen[row];
        row := row + 1;
      }
    }

    /** ed_find, for a query from the search bar: at most 63 printable characters. */
    method Find(q: seq<u8>) returns (found: bool, row: nat, col: nat)
      requires Valid() && NUL !in q
      ensures q == [] ==> !found
      ensures q != [] ==> FindResult(Contents(), q, found, row, col)
      ensures q != [] ==>
                (!found <==> forall l: nat, c: nat ::
                   OccursAt(Contents().lines, q, l, c) ==> CoversCursor(Contents(), q, l, c))
    {
      hide Fits, LinesOf, Grid, OccursAt, CoversCursor;
      if q == [] {
        return false, 0, 0;
      }
      found, row, col := FindAhead(q);
      if !found {
        found, row, col := FindBehind(q);
      }
      FindMissesIff(Contents(), q, found, row, col);
    }

    /** Ctrl-N: the cursor goes to the next occurrence, if there is one. */
    method FindNext(q: seq<u8>) returns (found: bool)
      requires Valid() && NUL !in q
      modifies `cx, `cy, `scrollY
      ensures Valid() && Visible()
      ensures exists row: nat, col: nat ::
                && (q != [] ==> FindResult(old(Contents()), q, found, row, col))
                && Contents() == if found then old(Contents()).(cy := row, cx := col) else old(Contents())
    {
      var row, col;
      found, row, col := Find(q);
      if found {
        LineLength(AllCells(), lineLen[..], numLines, row);
        cy := row;
        cx := col;
      }
      AdjustScroll();
      assert Contents() == if found then old(Contents()).(cy := row, cx := col) else old(Contents());
    }
  }

  lemma InsertedRow(row: seq<u8>, x: nat, len: nat, c: u8)
    requires |row| == WIDTH && x <= len < LINE_MAX
    ensures |MovedDown<u8>(row, x, len)| == WIDTH
    ensures MovedDown<u8>(row, x, len)[x := c][len + 1 := NUL][..len + 1] == row[..len][..x] + [c] + row[..len][x..]
  {
  }

  lemma DeletedRow(row: seq<u8>, x: nat, len: nat)
    requires |row| == WIDTH && 0 < x <= len <= LINE_MAX
    ensures |MovedUp<u8>(row, x - 1, len)| == WIDTH
    ensures MovedUp<u8>(row, x - 1, len)[len - 1 := NUL][..len - 1] == row[..len][..x - 1] + row[..len][x..]
  {
  }

  lemma JoinedRow(prev: seq<u8>, prevLen: nat, cur: seq<u8>, curLen: nat)
    requires |prev| == |cur| == WIDTH && prevLen + curLen <= LINE_MAX
    ensures Pasted(prev, prevLen, cur, 0, curLen)[prevLen + curLen := NUL][..prevLen + curLen]
            == prev[..prevLen] + cur[..curLen]
  {
  }

  /** The row before k with row k's line pasted behind its own: line k stands behind line k - 1. */
  lemma LineAppended(cells: Cells, lens: seq<nat>, n: nat, k: nat, cells1: Cells, lens1: seq<nat>)
    requires Fits(cells, lens, n) && 0 < k < n <= |cells| == |lens| && lens[k - 1] + lens[k] <= LINE_MAX
    requires |cells[k - 1]| == |cells[k]| == WIDTH
    requires var joined: nat := lens[k - 1] + lens[k];
             && cells1 == cells[k - 1 := Pasted(cells[k - 1], lens[k - 1], cells[k], 0, lens[k])[joined := NUL]]
             && lens1 == lens[k - 1 := joined]
    ensures Fits(cells1, lens1, n)
    ensures LinesOf(cells1, lens1, n) == Appended(LinesOf(cells, lens, n), k)
  {
    hide Pasted;
    var joined: nat := lens[k - 1] + lens[k];
    JoinedRow(cells[k - 1], lens[k - 1], cells[k], lens[k]);
    OneRow(cells, lens, n, k - 1, Pasted(cells[k - 1], lens[k - 1], cells[k], 0, lens[k])[joined := NUL], joined);
  }

  lemma JoinedDoc(d: Doc, lines: seq<Line>)
    requires Ok(d) && d.cx == 0 && d.cy > 0 && !BackspaceRefused(d)
    requires lines == Dropped(Appended(d.lines, d.cy), d.cy)
    ensures Backspace(d) == Doc(lines, |d.lines[d.cy - 1]|, d.cy - 1, true)
    ensures |lines| == |d.lines| - 1 && lines[d.cy - 1] == d.lines[d.cy - 1] + d.lines[d.cy]
  {
  }

  lemma DeletedDoc(d: Doc, lines: seq<Line>)
    requires Ok(d) && |d.lines| > 1 && lines == Dropped(d.lines, d.cy)
    ensures var cy := if d.cy >= |lines| then |lines| - 1 else d.cy;
            DeleteLine(d) == Doc(lines, Min(d.cx, |lines[cy]|), cy, true)
  {
  }

  lemma RowFits(cells: Cells, lens: seq<nat>, n: nat, k: nat)
    requires Fits(cells, lens, n) && k < n
    ensures |cells| == |lens| == MAX_LINES && |cells[k]| == WIDTH && lens[k] <= LINE_MAX
  {
  }

  /** Rows moved down behind line k, and line k cut in two: the line is broken at x. */
  lemma LineOpened(cells: Cells, lens: seq<nat>, n: nat, k: nat, x: nat, below: seq<u8>, cells1: Cells, lens1: seq<nat>)
    requires Fits(cells, lens, n) && k < n < MAX_LINES && x <= lens[k] && |below| == WIDTH && |cells[k]| == WIDTH
    requires |cells| == |lens| == MAX_LINES && lens[k] <= LINE_MAX
    requires var rest := lens[k] - x;
             && cells1 == MovedDown(cells, k + 1, n)[k + 1 := Pasted(below, 0, cells[k], x, rest)[rest := NUL]]
                          [k := cells[k][x := NUL]]
             && lens1 == MovedDown<nat>(lens, k + 1, n)[k + 1 := rest][k := x]
    ensures Fits(cells1, lens1, n + 1)
    ensures var lines := LinesOf(cells, lens, n);
            && |lines[k]| == lens[k]
            && LinesOf(cells1, lens1, n + 1) == lines[..k] + [lines[k][..x], lines[k][x..]] + lines[k + 1..]
  {
    hide MovedDown, Pasted, Fits;
    var row, rest: nat := cells[k], lens[k] - x;
    var left, right := row[x := NUL], Pasted(below, 0, row, x, rest)[rest := NUL];
    BrokenRow(row, below, x, lens[k]);
    LineCut(cells, lens, n, k, left, right, x, rest, cells1, lens1);
    assert LinesOf(cells, lens, n)[k] == row[..lens[k]];
  }

  lemma BrokenRow(row: seq<u8>, below: seq<u8>, x: nat, len: nat)
    requires |row| == |below| == WIDTH && x <= len <= LINE_MAX
    ensures row[x := NUL][..x] == row[..len][..x]
    ensures Pasted(below, 0, row, x, len - x)[len - x := NUL][..len - x] == row[..len][x..]
  {
  }
}
