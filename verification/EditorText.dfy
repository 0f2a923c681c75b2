/** The editor's text as lines and as one flat string, and what its keys do (kernel/editor.c). */
module EditorText {
  import opened Bytes

  const MAX_LINES := 128
  const LINE_MAX := 80
  const NEWLINE: u8 := 10

  type Line = seq<u8>

  const EMPTY: Line := []

  /** The buffer's lines, the cursor column and line, and the modified flag. */
  datatype Doc = Doc(lines: seq<Line>, cx: nat, cy: nat, modified: bool)

  /** What holds after every key. */
  predicate Ok(d: Doc)
  {
    && 1 <= |d.lines| <= MAX_LINES
    && (forall k :: 0 <= k < |d.lines| ==> |d.lines[k]| <= LINE_MAX)
    && d.cy < |d.lines| && d.cx <= |d.lines[d.cy]|
  }

  // ---------------------------------------------------------------- the flat string

  /** The lines joined by newlines. */
  function Flat(lines: seq<Line>): Line
  {
    if lines == [] then [] else if |lines| == 1 then lines[0] else lines[0] + [NEWLINE] + Flat(lines[1..])
  }

  /** Where line k begins in the flat string. */
  function Start(lines: seq<Line>, k: nat): nat
    requires k <= |lines|
  {
    if k == 0 then 0 else |lines[0]| + 1 + Start(lines[1..], k - 1)
  }

  /** The cursor as an offset into the flat string. */
  function Offset(d: Doc): nat
    requires Ok(d)
  {
    Start(d.lines, d.cy) + d.cx
  }

  function Text(d: Doc): Line { Flat(d.lines) }

  /** The flat string cut into its lines before k, line k and its lines behind k. */
  lemma {:induction false} FlatAround(lines: seq<Line>, k: nat)
    requires k < |lines|
    ensures Flat(lines) == Before(lines, k) + lines[k] + Behind(lines, k)
    ensures |Before(lines, k)| == Start(lines, k)
    decreases k
  {
    hide Before;
    if k == 0 {
      BeforeNone(lines);
      if |lines| > 1 {
        assert Flat(lines) == lines[0] + ([NEWLINE] + Flat(lines[1..]));
      }
    } else {
      hide Behind;
      FlatAround(lines[1..], k - 1);
      BeforeStep(lines, k);
      assert Behind(lines, k) == Behind(lines[1..], k - 1) by {
        BehindSame(lines, k, lines[1..], k - 1);
      }
      Outer(lines[0] + [NEWLINE], Before(lines[1..], k - 1), lines[k], Behind(lines, k));
    }
  }

  lemma Outer(first: Line, p: Line, line: Line, b: Line)
    ensures first + (p + line + b) == first + p + line + b
  {
  }

  lemma BeforeNone(lines: seq<Line>)
    ensures Before(lines, 0) == []
  {
  }

  /** The lines before k, each with its newline. */
  function Before(lines: seq<Line>, k: nat): Line
    requires k <= |lines|
  {
    if k == 0 then [] else lines[0] + [NEWLINE] + Before(lines[1..], k - 1)
  }

  lemma BeforeStep(lines: seq<Line>, k: nat)
    requires 0 < k <= |lines|
    ensures Before(lines, k) == lines[0] + [NEWLINE] + Before(lines[1..], k - 1)
  {
  }

  /** The lines behind k, with the newline that ends line k. */
  function Behind(lines: seq<Line>, k: nat): Line
    requires k < |lines|
  {
    if k + 1 == |lines| then [] else [NEWLINE] + Flat(lines[k + 1..])
  }

  /** What lies before line k depends on those lines only. */
  lemma {:induction false} BeforeSame(a: seq<Line>, b: seq<Line>, k: nat)
    requires k <= |a| && k <= |b| && a[..k] == b[..k]
    ensures Before(a, k) == Before(b, k) && Start(a, k) == Start(b, k)
    decreases k
  {
    if k > 0 {
      assert a[0] == a[..k][0] == b[..k][0] == b[0];
      assert a[1..][..k - 1] == a[..k][1..] && b[1..][..k - 1] == b[..k][1..];
      BeforeSame(a[1..], b[1..], k - 1);
    }
  }

  lemma BehindSame(a: seq<Line>, i: nat, b: seq<Line>, j: nat)
    requires i < |a| && j < |b| && a[i + 1..] == b[j + 1..]
    ensures Behind(a, i) == Behind(b, j)
  {
    assert |a[i + 1..]| == |b[j + 1..]|;
  }

  lemma {:induction false} BeforeNext(lines: seq<Line>, k: nat)
    requires k < |lines|
    ensures Before(lines, k + 1) == Before(lines, k) + lines[k] + [NEWLINE]
    ensures Start(lines, k + 1) == Start(lines, k) + |lines[k]| + 1
    decreases k
  {
    if k > 0 {
      BeforeNext(lines[1..], k - 1);
      assert lines[1..][k - 1] == lines[k];
    }
  }

  // ---------------------------------------------------------------- keys

  /** buf_insert_char: refused on a full line. */
  function Insert(d: Doc, c: u8): (r: Doc)
    requires Ok(d)
    ensures Ok(r)
  {
    var line := d.lines[d.cy];
    if |line| >= LINE_MAX then d
    else Doc(d.lines[d.cy := line[..d.cx] + [c] + line[d.cx..]], d.cx + 1, d.cy, true)
  }

  /** buf_newline: refused when the buffer has 128 lines. */
  function Newline(d: Doc): (r: Doc)
    requires Ok(d)
    ensures Ok(r)
  {
    var line := d.lines[d.cy];
    if |d.lines| >= MAX_LINES then d
    else Doc(d.lines[..d.cy] + [line[..d.cx], line[d.cx..]] + d.lines[d.cy + 1..], 0, d.cy + 1, true)
  }

  /** buf_delete_char: refused at the start of the text, and when the joined line would be too long; the latter still
      sets the flag. */
  function Backspace(d: Doc): (r: Doc)
    requires Ok(d)
    ensures Ok(r)
  {
    var line := d.lines[d.cy];
    if d.cx > 0 then
      Doc(d.lines[d.cy := line[..d.cx - 1] + line[d.cx..]], d.cx - 1, d.cy, true)
    else if d.cy == 0 then d
    else
      var prev := d.lines[d.cy - 1];
      if |prev| + |line| <= LINE_MAX then
        Doc(d.lines[..d.cy - 1] + [prev + line] + d.lines[d.cy + 1..], |prev|, d.cy - 1, true)
      else d.(modified := true)
  }

  /** buf_delete_line: the only line is emptied, any other is removed. */
  function DeleteLine(d: Doc): (r: Doc)
    requires Ok(d)
    ensures Ok(r)
  {
    if |d.lines| == 1 then Doc([EMPTY], 0, d.cy, true)
    else
      var lines: seq<Line> := d.lines[..d.cy] + d.lines[d.cy + 1..];
      var cy: nat := if d.cy >= |lines| then |lines| - 1 else d.cy;
      Doc(lines, Min(d.cx, |lines[cy]|), cy, true)
  }

  function Left(d: Doc): (r: Doc)
    requires Ok(d)
    ensures Ok(r)
  {
    if d.cx > 0 then d.(cx := d.cx - 1)
    else if d.cy > 0 then d.(cy := d.cy - 1, cx := |d.lines[d.cy - 1]|) else d
  }

  function Right(d: Doc): (r: Doc)
    requires Ok(d)
    ensures Ok(r)
  {
    if d.cx < |d.lines[d.cy]| then d.(cx := d.cx + 1)
    else if d.cy < |d.lines| - 1 then d.(cy := d.cy + 1, cx := 0) else d
  }

  function Up(d: Doc): (r: Doc)
    requires Ok(d)
    ensures Ok(r)
  {
    if d.cy > 0 then d.(cy := d.cy - 1, cx := Min(d.cx, |d.lines[d.cy - 1]|)) else d
  }

  function Down(d: Doc): (r: Doc)
    requires Ok(d)
    ensures Ok(r)
  {
    if d.cy < |d.lines| - 1 then d.(cy := d.cy + 1, cx := Min(d.cx, |d.lines[d.cy + 1]|)) else d
  }

  function Home(d: Doc): (r: Doc)
    requires Ok(d)
    ensures Ok(r)
  {
    d.(cx := 0)
  }

  function End(d: Doc): (r: Doc)
    requires Ok(d)
    ensures Ok(r)
  {
    d.(cx := |d.lines[d.cy]|)
  }

  // ---------------------------------------------------------------- what the keys mean for the flat string

  /** The string with c inserted at offset o. */
  function InsertAt(s: Line, o: nat, c: u8): Line
    requires o <= |s|
  {
    s[..o] + [c] + s[o..]
  }

  lemma CursorInText(d: Doc)
    requires Ok(d)
    ensures var p, line := Before(d.lines, d.cy), d.lines[d.cy];
            && Offset(d) <= |Text(d)|
            && Text(d)[..Offset(d)] == p + line[..d.cx]
            && Text(d)[Offset(d)..] == line[d.cx..] + Behind(d.lines, d.cy)
  {
    FlatAround(d.lines, d.cy);
    var p, line, b := Before(d.lines, d.cy), d.lines[d.cy], Behind(d.lines, d.cy);
    assert line == line[..d.cx] + line[d.cx..];
    assert p + line + b == (p + line[..d.cx]) + (line[d.cx..] + b);
  }

  /** The flat string with line k replaced. */
  lemma FlatReplaced(lines: seq<Line>, k: nat, line: Line)
    requires k < |lines|
    ensures Flat(lines[k := line]) == Before(lines, k) + line + Behind(lines, k)
    ensures Start(lines[k := line], k) == Start(lines, k)
  {
    hide Flat, Before, Start, Behind;
    var r := lines[k := line];
    assert r[..k] == lines[..k] && r[k + 1..] == lines[k + 1..];
    FlatAround(r, k);
    BeforeSame(lines, r, k);
    BehindSame(lines, k, r, k);
  }

  /** The flat string with line k replaced by two. */
  lemma FlatParted(lines: seq<Line>, k: nat, u: Line, v: Line)
    requires k < |lines|
    ensures var r := lines[..k] + [u, v] + lines[k + 1..];
            && Flat(r) == Before(lines, k) + (u + [NEWLINE] + v) + Behind(lines, k)
            && Start(r, k + 1) == Start(lines, k) + |u| + 1
  {
    hide Flat, Before, Start, Behind;
    var r := lines[..k] + [u, v] + lines[k + 1..];
    assert r[..k] == lines[..k] && r[k + 2..] == lines[k + 1..] && r[k] == u && r[k + 1] == v;
    BeforeSame(lines, r, k);
    BeforeNext(r, k);
    FlatAround(r, k + 1);
    BehindSame(lines, k, r, k + 1);
    Regroup(Before(lines, k), u, v, Behind(lines, k));
  }

  lemma Regroup(p: Line, u: Line, v: Line, b: Line)
    ensures (p + u + [NEWLINE]) + v + b == p + (u + [NEWLINE] + v) + b
  {
  }

  lemma InsertInside(p: Line, line: Line, b: Line, x: nat, c: u8)
    requires x <= |line|
    ensures |p| + x <= |p + line + b|
    ensures InsertAt(p + line + b, |p| + x, c) == p + (line[..x] + [c] + line[x..]) + b
  {
    var s := p + line + b;
    assert s[..|p| + x] == p + line[..x] && s[|p| + x..] == line[x..] + b;
  }

  /** A printable key inserts one character at the cursor. */
  lemma InsertFlat(d: Doc, c: u8)
    requires Ok(d)
    ensures Offset(d) <= |Text(d)|
    ensures if |d.lines[d.cy]| < LINE_MAX
            then Text(Insert(d, c)) == InsertAt(Text(d), Offset(d), c) && Offset(Insert(d, c)) == Offset(d) + 1
            else Insert(d, c) == d
  {
    hide Flat, Before, Start, Behind, InsertAt;
    var line := d.lines[d.cy];
    FlatAround(d.lines, d.cy);
    InsertInside(Before(d.lines, d.cy), line, Behind(d.lines, d.cy), d.cx, c);
    FlatReplaced(d.lines, d.cy, line[..d.cx] + [c] + line[d.cx..]);
  }

  /** Enter inserts one newline at the cursor. */
  lemma NewlineFlat(d: Doc)
    requires Ok(d)
    ensures Offset(d) <= |Text(d)|
    ensures if |d.lines| < MAX_LINES
            then Text(Newline(d)) == InsertAt(Text(d), Offset(d), NEWLINE) && Offset(Newline(d)) == Offset(d) + 1
            else Newline(d) == d
  {
    hide Flat, Before, Start, Behind, InsertAt;
    var line := d.lines[d.cy];
    FlatAround(d.lines, d.cy);
    InsertInside(Before(d.lines, d.cy), line, Behind(d.lines, d.cy), d.cx, NEWLINE);
    FlatParted(d.lines, d.cy, line[..d.cx], line[d.cx..]);
  }

  /** Backspace is refused exactly at the start of the text and where joining two lines would overrun one. */
  predicate BackspaceRefused(d: Doc)
    requires Ok(d)
  {
    d.cx == 0 && (d.cy == 0 || |d.lines[d.cy - 1]| + |d.lines[d.cy]| > LINE_MAX)
  }

  /** Backspace undoes an accepted printable key, text and cursor. */
  lemma BackspaceUndoesInsert(d: Doc, c: u8)
    requires Ok(d) && |d.lines[d.cy]| < LINE_MAX
    ensures Backspace(Insert(d, c)) == d.(modified := true)
  {
    var line := d.lines[d.cy];
    var r := Insert(d, c);
    assert r.lines[d.cy][..d.cx] == line[..d.cx] && r.lines[d.cy][d.cx + 1..] == line[d.cx..];
    assert line[..d.cx] + line[d.cx..] == line;
    assert r.lines[d.cy := line] == d.lines;
  }

  /** Backspace undoes an accepted Enter. */
  lemma BackspaceUndoesNewline(d: Doc)
    requires Ok(d) && |d.lines| < MAX_LINES
    ensures Backspace(Newline(d)) == d.(modified := true)
  {
    var line := d.lines[d.cy];
    var r := Newline(d);
    assert r.lines[d.cy] == line[..d.cx] && r.lines[d.cy + 1] == line[d.cx..];
    assert line[..d.cx] + line[d.cx..] == line;
    assert r.lines[..d.cy] + [line] + r.lines[d.cy + 2..] == d.lines;
  }

  /** An accepted Backspace is the undoing of the key that could have put the character there: so it removes exactly
      the character before the cursor, joining lines when that is a newline. */
  lemma BackspaceFlat(d: Doc)
    requires Ok(d)
    ensures Offset(d) <= |Text(d)|
    ensures if BackspaceRefused(d) then Backspace(d).(modified := d.modified) == d
            else Offset(d) > 0 && Offset(Backspace(d)) == Offset(d) - 1
                 && Text(Backspace(d)) == Text(d)[..Offset(d) - 1] + Text(d)[Offset(d)..]
  {
    hide Flat, Start, InsertAt, Backspace;
    CursorInText(d);
    if BackspaceRefused(d) {
      RefusedIs(d);
    } else if d.cx > 0 {
      var r, c := Backspace(d), d.lines[d.cy][d.cx - 1];
      InsertAgain(d);
      InsertFlat(r, c);
      SameView(Insert(r, c), d);
      RemoveInserted(Text(r), Offset(r), c);
    } else {
      var r := Backspace(d);
      SplitAgain(d);
      BackspaceShorter(d);
      NewlineFlat(r);
      RemoveInserted(Text(r), Offset(r), NEWLINE);
    }
  }

  lemma RefusedIs(d: Doc)
    requires Ok(d) && BackspaceRefused(d)
    ensures Backspace(d).(modified := d.modified) == d
  {
  }

  lemma SameView(d: Doc, e: Doc)
    requires Ok(d) && Ok(e) && d.lines == e.lines && d.cx == e.cx && d.cy == e.cy
    ensures Text(d) == Text(e) && Offset(d) == Offset(e)
  {
  }

  lemma InsertAgain(d: Doc)
    requires Ok(d) && d.cx > 0
    ensures var r, c := Backspace(d), d.lines[d.cy][d.cx - 1];
            && |r.lines[r.cy]| < LINE_MAX
            && Insert(r, c).lines == d.lines && Insert(r, c).cx == d.cx && Insert(r, c).cy == d.cy
  {
    var r, line := Backspace(d), d.lines[d.cy];
    assert r.lines[d.cy][..r.cx] == line[..d.cx - 1] && r.lines[d.cy][r.cx..] == line[d.cx..];
    assert line[..d.cx - 1] + [line[d.cx - 1]] + line[d.cx..] == line;
  }

  lemma BackspaceShorter(d: Doc)
    requires Ok(d) && !BackspaceRefused(d) && d.cx == 0
    ensures |Backspace(d).lines| == |d.lines| - 1
  {
  }

  lemma SplitAgain(d: Doc)
    requires Ok(d) && !BackspaceRefused(d) && d.cx == 0
    ensures Newline(Backspace(d)) == d.(modified := true)
  {
    var r := Backspace(d);
    var prev, line := d.lines[d.cy - 1], d.lines[d.cy];
    assert r.lines[r.cy] == prev + line;
    assert (prev + line)[..|prev|] == prev && (prev + line)[|prev|..] == line;
    assert r.lines[..r.cy] == d.lines[..d.cy - 1] && r.lines[r.cy + 1..] == d.lines[d.cy + 1..];
    assert d.lines == d.lines[..d.cy - 1] + [prev, line] + d.lines[d.cy + 1..];
  }

  lemma RemoveInserted(s: Line, o: nat, c: u8)
    requires o <= |s|
    ensures InsertAt(s, o, c)[..o] + InsertAt(s, o, c)[o + 1..] == s
  {
  }

  lemma {:induction false} FlatFrom(lines: seq<Line>, k: nat)
    requires k < |lines|
    ensures Flat(lines) == Before(lines, k) + Flat(lines[k..])
    decreases k
  {
    if k == 0 {
      assert lines[0..] == lines;
    } else {
      FlatFrom(lines[1..], k - 1);
      assert lines[1..][k - 1..] == lines[k..];
    }
  }

  lemma CutAt(p: Line, line: Line, f: Line)
    ensures var s := p + line + ([NEWLINE] + f);
            && |s| == |p| + |line| + 1 + |f| && s[|p| + |line|] == NEWLINE
            && s[..|p|] == p && s[..|p| + |line|] == p + line && s[|p| + |line| + 1..] == f
  {
  }

  /** The flat string around an inner line: what precedes it, the line and its newline, and the lines that follow. */
  lemma CutLine(lines: seq<Line>, k: nat)
    requires k + 1 < |lines|
    ensures var s, a, n := Flat(lines), Start(lines, k), |lines[k]|;
            && a + n + 1 <= |s| && s[a + n] == NEWLINE
            && s[..a] == Before(lines, k) && s[a + n + 1..] == Flat(lines[k + 1..])
  {
    hide Flat, Before, Start, Behind;
    FlatAround(lines, k);
    BehindInner(lines, k);
    CutAt(Before(lines, k), lines[k], Flat(lines[k + 1..]));
  }

  lemma BehindInner(lines: seq<Line>, k: nat)
    requires k + 1 < |lines|
    ensures Behind(lines, k) == [NEWLINE] + Flat(lines[k + 1..])
  {
  }

  /** The flat string cut in front of its last line's newline. */
  lemma CutLastLine(lines: seq<Line>)
    requires |lines| > 1
    ensures var s, a := Flat(lines), Start(lines, |lines| - 1);
            1 <= a <= |s| && s[a - 1] == NEWLINE && s[..a - 1] == Flat(lines[..|lines| - 1])
  {
    hide Flat, Before, Start;
    var k := |lines| - 1;
    var shorter := lines[..k];
    assert shorter[k - 1] == lines[k - 1] && shorter[..k - 1] == lines[..k - 1];
    FlatAround(lines, k);
    BeforeNext(lines, k - 1);
    BeforeSame(lines, shorter, k - 1);
    FlatAround(shorter, k - 1);
    CutAt(Before(lines, k - 1), lines[k - 1], lines[k]);
    LastLine(Before(lines, k - 1), lines[k - 1], lines[k]);
  }

  lemma LastLine(p: Line, line: Line, last: Line)
    ensures (p + line + [NEWLINE]) + last + [] == p + line + ([NEWLINE] + last)
  {
  }

  lemma SingleFlat(lines: seq<Line>)
    requires |lines| == 1
    ensures Flat(lines) == lines[0]
  {
  }

  /** The flat string without an inner line and its newline. */
  lemma DropInner(lines: seq<Line>, k: nat)
    requires k + 1 < |lines|
    ensures var r, s, a, n := lines[..k] + lines[k + 1..], Flat(lines), Start(lines, k), |lines[k]|;
            && a + n + 1 <= |s| && s[a + n] == NEWLINE
            && Flat(r) == s[..a] + s[a + n + 1..] && Start(r, k) == a
  {
    hide Flat, Before, Start;
    var r := lines[..k] + lines[k + 1..];
    CutLine(lines, k);
    assert r[..k] == lines[..k] && r[k..] == lines[k + 1..];
    BeforeSame(lines, r, k);
    FlatFrom(r, k);
  }

  /** The flat string without its last line and the newline in front of it. */
  lemma DropLast(lines: seq<Line>)
    requires |lines| > 1
    ensures var k, s := |lines| - 1, Flat(lines);
            && 1 <= Start(lines, k) <= |s| && s[Start(lines, k) - 1] == NEWLINE
            && Flat(lines[..k]) == s[..Start(lines, k) - 1] && Start(lines[..k], k - 1) == Start(lines, k - 1)
  {
    hide Flat, Before, Start;
    var k := |lines| - 1;
    CutLastLine(lines);
    assert lines[..k][..k - 1] == lines[..k - 1];
    BeforeSame(lines, lines[..k], k - 1);
  }

  lemma StartNone(lines: seq<Line>)
    ensures Start(lines, 0) == 0
  {
  }

  /** Ctrl-K removes exactly one line, its characters and one newline, and leaves the cursor in its column, or at the
      line's end, of the line that follows, of the line before if none follows; the only line is emptied. */
  lemma DeleteLineFlat(d: Doc)
    requires Ok(d)
    ensures Offset(DeleteLine(d)) ==
            if |d.lines| == 1 then 0
            else if d.cy + 1 < |d.lines| then Start(d.lines, d.cy) + Min(d.cx, |d.lines[d.cy + 1]|)
            else Start(d.lines, d.cy - 1) + Min(d.cx, |d.lines[d.cy - 1]|)
    ensures var s, a, n, r := Text(d), Start(d.lines, d.cy), |d.lines[d.cy]|, Text(DeleteLine(d));
            if |d.lines| == 1 then r == []
            else if d.cy + 1 < |d.lines| then
              a + n + 1 <= |s| && s[a + n] == NEWLINE && r == s[..a] + s[a + n + 1..]
            else 1 <= a <= |s| && s[a - 1] == NEWLINE && r == s[..a - 1]
  {
    hide Flat, Before, Start;
    var k := d.cy;
    if |d.lines| == 1 {
      SingleFlat([EMPTY]);
      StartNone([EMPTY]);
    } else if k + 1 < |d.lines| {
      var r: seq<Line> := d.lines[..k] + d.lines[k + 1..];
      DropInner(d.lines, k);
      assert r[k] == d.lines[k + 1];
    } else {
      assert d.lines[..k] + d.lines[k + 1..] == d.lines[..k];
      DropLast(d.lines);
    }
  }

  /** The arrow keys left and right move the offset by one, and stop at the ends of the text. */
  lemma ArrowsFlat(d: Doc)
    requires Ok(d)
    ensures Offset(Left(d)) == if Offset(d) > 0 then Offset(d) - 1 else 0
    ensures Offset(Right(d)) == if Offset(d) < |Text(d)| then Offset(d) + 1 else |Text(d)|
  {
    hide Flat, Before, Start;
    FlatAround(d.lines, d.cy);
    StartNone(d.lines);
    if d.cy > 0 {
      BeforeNext(d.lines, d.cy - 1);
    }
    if d.cy + 1 < |d.lines| {
      BeforeNext(d.lines, d.cy);
    }
  }

  // ---------------------------------------------------------------- find

  /** The query stands at column c of line l. */
  predicate OccursAt(lines: seq<Line>, q: Line, l: nat, c: nat)
  {
    l < |lines| && c + |q| <= |lines[l]| && lines[l][c..c + |q|] == q
  }

  /** An occurrence that covers the cursor's own position: the one place ed_find never looks at. */
  predicate CoversCursor(d: Doc, q: Line, l: nat, c: nat)
  {
    l == d.cy && c <= d.cx < c + |q|
  }

  /** What ed_find can report. */
  predicate Candidate(d: Doc, q: Line, l: nat, c: nat)
  {
    OccursAt(d.lines, q, l, c) && !CoversCursor(d, q, l, c)
  }

  predicate Ahead(d: Doc, l: nat, c: nat) { l > d.cy || (l == d.cy && c > d.cx) }

  /** Position (l, c) comes no later than (m, e) when reading on from the cursor and around the end of the text. */
  predicate NoLater(d: Doc, l: nat, c: nat, m: nat, e: nat)
  {
    if Ahead(d, l, c) != Ahead(d, m, e) then Ahead(d, l, c)
    else l < m || (l == m && c <= e)
  }

  /** The result of ed_find: nothing exactly when there is no candidate, and otherwise the next one. */
  ghost predicate FindResult(d: Doc, q: Line, found: bool, row: nat, col: nat)
  {
    if found then
      && Candidate(d, q, row, col)
      && forall m: nat, e: nat :: Candidate(d, q, m, e) ==> NoLater(d, row, col, m, e)
    else forall m: nat, e: nat :: !Candidate(d, q, m, e)
  }

  /** The specification leaves ed_find no choice. */
  lemma FindUnique(d: Doc, q: Line, f: bool, l: nat, c: nat, g: bool, m: nat, e: nat)
    requires FindResult(d, q, f, l, c) && FindResult(d, q, g, m, e)
    ensures f == g && (f ==> l == m && c == e)
  {
    if f {
      assert Candidate(d, q, l, c);
      assert g;
      assert NoLater(d, l, c, m, e) && NoLater(d, m, e, l, c);
    } else {
      assert g ==> Candidate(d, q, m, e);
    }
  }

  /** A query that stands in the text is missed exactly when each of its occurrences covers the cursor. */
  lemma FindMissesIff(d: Doc, q: Line, found: bool, row: nat, col: nat)
    requires FindResult(d, q, found, row, col)
    ensures !found <==> forall l: nat, c: nat :: OccursAt(d.lines, q, l, c) ==> CoversCursor(d, q, l, c)
  {
    if found {
      assert OccursAt(d.lines, q, row, col) && !CoversCursor(d, q, row, col);
    } else {
      forall l: nat, c: nat | OccursAt(d.lines, q, l, c) ensures CoversCursor(d, q, l, c) {
        assert !Candidate(d, q, l, c);
      }
    }
  }

  /** Searching for the text's only word from its own first letter reports nothing. */
  lemma FindMisses(found: bool, row: nat, col: nat)
    requires FindResult(Doc([[97, 98]], 0, 0, false), [97, 98], found, row, col)
    ensures OccursAt([[97, 98]], [97, 98], 0, 0) && !found
  {
    var line: Line := [97, 98];
    assert line[0..2] == line;
  }
}
