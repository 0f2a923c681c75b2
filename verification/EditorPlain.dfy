/** The editor's keys on a plain string with a cursor, and runs of keys as runs on that string
    (kernel/editor.c:488-576). */
module EditorPlain {
  import opened Bytes
  import opened EditorText
  import opened EditorRuns

  /** A text and a cursor in it. */
  datatype Plain = Plain(text: Line, at: nat)

  predicate PlainOk(p: Plain) { p.at <= |p.text| }

  // ---------------------------------------------------------------- lines of a string

  /** Where the line around a position begins. */
  function LineStart(s: Line, at: nat): (b: nat)
    requires at <= |s|
    ensures b <= at
  {
    if at == 0 || s[at - 1] == NEWLINE then at else LineStart(s, at - 1)
  }

  /** Where it ends. */
  function LineEnd(s: Line, at: nat): (e: nat)
    requires at <= |s|
    ensures at <= e <= |s|
    decreases |s| - at
  {
    if at == |s| || s[at] == NEWLINE then at else LineEnd(s, at + 1)
  }

  lemma {:induction false} LineStartIs(s: Line, b: nat, at: nat)
    requires b <= at <= |s| && (b == 0 || s[b - 1] == NEWLINE) && forall j :: b <= j < at ==> s[j] != NEWLINE
    ensures LineStart(s, at) == b
  {
    if b < at {
      LineStartIs(s, b, at - 1);
    }
  }

  lemma {:induction false} LineEndIs(s: Line, at: nat, e: nat)
    requires at <= e <= |s| && (e == |s| || s[e] == NEWLINE) && forall j :: at <= j < e ==> s[j] != NEWLINE
    ensures LineEnd(s, at) == e
    decreases e - at
  {
    if at < e {
      LineEndIs(s, at + 1, e);
    }
  }

  // ---------------------------------------------------------------- the keys

  /** The cursor at a column of the line that begins at b, or at its end if that comes first. */
  function InLine(s: Line, b: nat, column: nat): (r: Plain)
    requires b <= |s|
    ensures PlainOk(r)
  {
    Plain(s, b + Min(column, LineEnd(s, b) - b))
  }

  function UpIn(p: Plain): (r: Plain)
    requires PlainOk(p)
    ensures PlainOk(r)
  {
    var b := LineStart(p.text, p.at);
    if b == 0 then p else InLine(p.text, LineStart(p.text, b - 1), p.at - b)
  }

  function DownIn(p: Plain): (r: Plain)
    requires PlainOk(p)
    ensures PlainOk(r)
  {
    var e := LineEnd(p.text, p.at);
    if e == |p.text| then p else InLine(p.text, e + 1, p.at - LineStart(p.text, p.at))
  }

  /** The line goes with the newline that ends it, the last line with the newline in front of it. */
  function WithoutLine(p: Plain): (r: Plain)
    requires PlainOk(p)
    ensures PlainOk(r)
  {
    var s, b, e := p.text, LineStart(p.text, p.at), LineEnd(p.text, p.at);
    if e < |s| then InLine(s[..b] + s[e + 1..], b, p.at - b)
    else if b > 0 then InLine(s[..b - 1], LineStart(s[..b - 1], b - 1), p.at - b)
    else Plain(EMPTY, 0)
  }

  function PlainPress(p: Plain, e: Event): (r: Plain)
    requires PlainOk(p)
    ensures PlainOk(r)
  {
    match e
    case ArrowUp => UpIn(p)
    case ArrowDown => DownIn(p)
    case ArrowLeft => if p.at > 0 then p.(at := p.at - 1) else p
    case ArrowRight => if p.at < |p.text| then p.(at := p.at + 1) else p
    case HomeKey => p.(at := LineStart(p.text, p.at))
    case EndKey => p.(at := LineEnd(p.text, p.at))
    case Char(c) =>
      if c == CTRL_K then WithoutLine(p)
      else if c == CTRL_A then p.(at := LineStart(p.text, p.at))
      else if c == CTRL_E then p.(at := LineEnd(p.text, p.at))
      else if c == BACKSPACE then
        if p.at > 0 then Plain(p.text[..p.at - 1] + p.text[p.at..], p.at - 1) else p
      else if c == NEWLINE || Printable(c) then Plain(InsertAt(p.text, p.at, c), p.at + 1)
      else p
  }

  function PlainRun(p: Plain, events: seq<Event>): (r: Plain)
    requires PlainOk(p)
    ensures PlainOk(r)
    decreases |events|
  {
    if events == [] then p else PlainRun(PlainPress(p, events[0]), events[1..])
  }

  /** The keys the editor turns down for want of room. */
  predicate Refused(d: Doc, e: Event)
    requires Ok(d)
  {
    e.Char? &&
    if e.c == NEWLINE then |d.lines| >= MAX_LINES
    else if e.c == BACKSPACE then BackspaceRefused(d)
    else Printable(e.c) && |d.lines[d.cy]| >= LINE_MAX
  }

  function View(d: Doc): Plain
    requires Ok(d)
  {
    Plain(Text(d), Offset(d))
  }

  // ---------------------------------------------------------------- a line of the buffer is a line of the string

  /** The lines of the buffer lie between the newlines of the string, if they hold none of their own. */
  lemma LineInText(lines: seq<Line>, k: nat, x: nat)
    requires k < |lines| && Clean(lines) && x <= |lines[k]|
    ensures var s, b, e := Flat(lines), Start(lines, k), Start(lines, k) + |lines[k]|;
            && e <= |s| && (b == 0 <==> k == 0) && (e == |s| <==> k + 1 == |lines|)
            && LineStart(s, b + x) == b && LineEnd(s, b + x) == e
  {
    hide Flat, Start, Before, Clean, LineStart, LineEnd;
    FlatAround(lines, k);
    StartPositive(lines, k);
    var p, line, f := Before(lines, k), lines[k], Behind(lines, k);
    assert CleanLine(line) by {
      CleanAt(lines, k);
    }
    Between(p, line, f, x);
  }

  lemma CleanAt(lines: seq<Line>, k: nat)
    requires k < |lines| && Clean(lines)
    ensures CleanLine(lines[k])
  {
  }

  lemma StartPositive(lines: seq<Line>, k: nat)
    requires k < |lines|
    ensures (Start(lines, k) == 0 <==> k == 0) && (Before(lines, k) == [] <==> k == 0)
    ensures k > 0 ==> Before(lines, k) != [] && Before(lines, k)[|Before(lines, k)| - 1] == NEWLINE
  {
    if k > 0 {
      BeforeNext(lines, k - 1);
    }
  }

  lemma Between(p: Line, line: Line, f: Line, x: nat)
    requires (p == [] || p[|p| - 1] == NEWLINE) && (f == [] || f[0] == NEWLINE)
    requires CleanLine(line) && x <= |line|
    ensures var s := p + line + f;
            LineStart(s, |p| + x) == |p| && LineEnd(s, |p| + x) == |p| + |line|
  {
    hide LineStart, LineEnd;
    var s := p + line + f;
    forall j | |p| <= j < |p| + |line| ensures s[j] != NEWLINE {
      assert s[j] == line[j - |p|] && line[j - |p|] in line;
    }
    LineStartIs(s, |p|, |p| + x);
    LineEndIs(s, |p| + x, |p| + |line|);
  }

  lemma StartNext(lines: seq<Line>, k: nat)
    requires k + 1 < |lines|
    ensures Start(lines, k + 1) == Start(lines, k) + |lines[k]| + 1
  {
    BeforeNext(lines, k);
  }

  // ---------------------------------------------------------------- one key

  lemma UpRefines(d: Doc)
    requires Ok(d) && Clean(d.lines) && PlainOk(View(d))
    ensures View(Up(d)) == UpIn(View(d))
  {
    hide Flat, Start, Clean, LineStart, LineEnd;
    LineInText(d.lines, d.cy, d.cx);
    if d.cy > 0 {
      var k, n := d.cy - 1, |d.lines[d.cy - 1]|;
      LineInText(d.lines, k, n);
      LineInText(d.lines, k, 0);
      StartNext(d.lines, k);
    }
  }

  lemma DownRefines(d: Doc)
    requires Ok(d) && Clean(d.lines) && PlainOk(View(d))
    ensures View(Down(d)) == DownIn(View(d))
  {
    hide Flat, Start, Clean, LineStart, LineEnd;
    LineInText(d.lines, d.cy, d.cx);
    if d.cy + 1 < |d.lines| {
      LineInText(d.lines, d.cy + 1, 0);
      StartNext(d.lines, d.cy);
    }
  }

  lemma EndsRefine(d: Doc)
    requires Ok(d) && Clean(d.lines) && PlainOk(View(d))
    ensures View(Home(d)) == View(d).(at := LineStart(Text(d), Offset(d)))
    ensures View(End(d)) == View(d).(at := LineEnd(Text(d), Offset(d)))
  {
    hide Flat, Start, Clean, LineStart, LineEnd;
    LineInText(d.lines, d.cy, d.cx);
  }

  lemma DeleteLineRefines(d: Doc)
    requires Ok(d) && Clean(d.lines) && PlainOk(View(d))
    ensures View(DeleteLine(d)) == WithoutLine(View(d))
  {
    hide Flat, Start, Clean, LineStart, LineEnd, InLine;
    LineInText(d.lines, d.cy, d.cx);
    if |d.lines| == 1 {
      SingleFlat([EMPTY]);
      StartNone([EMPTY]);
    } else {
      DeleteLineKeepsClean(d);
      hide Ok;
      if d.cy + 1 < |d.lines| {
        InnerLine(d.lines, d.cy, d.cx);
      } else {
        assert d.lines[..d.cy] + d.lines[d.cy + 1..] == d.lines[..d.cy];
        LastLineOf(d.lines, d.cx);
      }
    }
  }

  lemma InnerLine(lines: seq<Line>, k: nat, column: nat)
    requires k + 1 < |lines| && Clean(lines) && Clean(lines[..k] + lines[k + 1..])
    ensures var s, b, e := Flat(lines), Start(lines, k), Start(lines, k) + |lines[k]|;
            var r: seq<Line> := lines[..k] + lines[k + 1..];
            && e < |s| && b <= |s[..b] + s[e + 1..]|
            && InLine(s[..b] + s[e + 1..], b, column) == Plain(Flat(r), Start(r, k) + Min(column, |r[k]|))
  {
    hide Flat, Start, Clean, LineStart, LineEnd;
    var r := lines[..k] + lines[k + 1..];
    DropInner(lines, k);
    LineInText(r, k, 0);
  }

  lemma LastLineOf(lines: seq<Line>, column: nat)
    requires |lines| > 1 && Clean(lines) && Clean(lines[..|lines| - 1])
    ensures var k, s := |lines| - 1, Flat(lines);
            var b := Start(lines, k);
            var r: seq<Line> := lines[..k];
            && 0 < b <= |s|
            && InLine(s[..b - 1], LineStart(s[..b - 1], b - 1), column)
               == Plain(Flat(r), Start(r, k - 1) + Min(column, |r[k - 1]|))
  {
    hide Flat, Start, Clean, LineStart, LineEnd;
    var k := |lines| - 1;
    var r := lines[..k];
    DropLast(lines);
    LineInText(r, k - 1, 0);
    LineInText(r, k - 1, |r[k - 1]|);
  }

  /** One key: a refused one changes neither text nor cursor, any other acts on the string alone. */
  lemma PressRefines(d: Doc, e: Event)
    requires Ok(d) && Clean(d.lines)
    ensures PlainOk(View(d))
    ensures View(Press(d, e)) == if Refused(d, e) then View(d) else PlainPress(View(d), e)
  {
    hide Flat, Start, InsertAt, Clean, UpIn, DownIn, WithoutLine, LineStart, LineEnd, DeleteLine, Up, Down, Left, Right;
    CursorInText(d);
    match e
    case ArrowUp => UpRefines(d);
    case ArrowDown => DownRefines(d);
    case ArrowLeft => ArrowsFlat(d); ArrowsKeepText(d);
    case ArrowRight => ArrowsFlat(d); ArrowsKeepText(d);
    case HomeKey => EndsRefine(d);
    case EndKey => EndsRefine(d);
    case Char(c) => CharRefines(d, c);
  }

  lemma CharRefines(d: Doc, c: u8)
    requires Ok(d) && Clean(d.lines) && PlainOk(View(d))
    ensures View(Press(d, Char(c))) == if Refused(d, Char(c)) then View(d) else PlainPress(View(d), Char(c))
  {
    hide Flat, Start, InsertAt, Clean, WithoutLine, LineStart, LineEnd, DeleteLine, Insert, Newline, Backspace;
    if c == CTRL_K {
      DeleteLineRefines(d);
    } else if c == CTRL_A || c == CTRL_E {
      EndsRefine(d);
    } else if c == NEWLINE {
      NewlineFlat(d);
    } else if c == BACKSPACE {
      BackspaceFlat(d);
    } else if Printable(c) {
      InsertFlat(d, c);
    }
  }

  lemma ArrowsKeepText(d: Doc)
    requires Ok(d)
    ensures Text(Left(d)) == Text(d) && Text(Right(d)) == Text(d)
  {
  }

  // ---------------------------------------------------------------- whole runs

  /** The events of a run that were not refused. */
  function Kept(d: Doc, events: seq<Event>): (r: seq<Event>)
    requires Ok(d)
    ensures |r| <= |events| && forall k :: 0 <= k < |r| ==> r[k] in events
    decreases |events|
  {
    if events == [] then []
    else (if Refused(d, events[0]) then [] else [events[0]]) + Kept(Press(d, events[0]), events[1..])
  }

  /** A whole run of any keys is the run of its accepted keys on one string with a cursor. */
  lemma {:induction false} RunRefinesPlain(d: Doc, events: seq<Event>)
    requires Ok(d) && Clean(d.lines)
    ensures PlainOk(View(d))
    ensures View(Run(d, events)) == PlainRun(View(d), Kept(d, events))
    decreases |events|
  {
    hide View, Clean, Press, PlainPress, Refused;
    ViewOk(d);
    if events != [] {
      var e, next := events[0], Press(d, events[0]);
      PressRefines(d, e);
      PressKeepsClean(d, e);
      RunRefinesPlain(next, events[1..]);
      if !Refused(d, e) {
        var kept := Kept(d, events);
        assert kept[0] == e && kept[1..] == Kept(next, events[1..]);
      } else {
        assert Kept(d, events) == Kept(next, events[1..]);
      }
    }
  }

  lemma ViewOk(d: Doc)
    requires Ok(d)
    ensures PlainOk(View(d))
  {
    CursorInText(d);
  }
}
