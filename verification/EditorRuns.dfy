/** Runs of editor keys (kernel/editor.c:488-576). */
module EditorRuns {
  import opened Bytes
  import opened EditorText

  datatype Event = ArrowUp | ArrowDown | ArrowLeft | ArrowRight | HomeKey | EndKey | Char(c: u8)

  const CTRL_A: u8 := 1
  const CTRL_E: u8 := 5
  const BACKSPACE: u8 := 8
  const CTRL_K: u8 := 11

  predicate Printable(c: u8) { 32 <= c < 127 }

  /** The key loop of editor_open, for the keys that neither save, search nor quit. */
  function Press(d: Doc, e: Event): (r: Doc)
    requires Ok(d)
    ensures Ok(r)
  {
    match e
    case ArrowUp => Up(d)
    case ArrowDown => Down(d)
    case ArrowLeft => Left(d)
    case ArrowRight => Right(d)
    case HomeKey => Home(d)
    case EndKey => End(d)
    case Char(c) =>
      if c == CTRL_K then DeleteLine(d)
      else if c == CTRL_A then Home(d)
      else if c == CTRL_E then End(d)
      else if c == NEWLINE then Newline(d)
      else if c == BACKSPACE then Backspace(d)
      else if Printable(c) then Insert(d, c)
      else d
  }

  function Run(d: Doc, events: seq<Event>): (r: Doc)
    requires Ok(d)
    ensures Ok(r)
    decreases |events|
  {
    if events == [] then d else Run(Press(d, events[0]), events[1..])
  }

  // ---------------------------------------------------------------- the modified flag

  lemma InsertFlag(d: Doc, c: u8)
    requires Ok(d)
    ensures Insert(d, c).modified <==> d.modified || Insert(d, c).lines != d.lines
  {
    if |d.lines[d.cy]| < LINE_MAX {
      assert |Insert(d, c).lines[d.cy]| == |d.lines[d.cy]| + 1;
    }
  }

  lemma BackspaceFlag(d: Doc)
    requires Ok(d)
    ensures Backspace(d).modified <==> d.modified || Backspace(d).lines != d.lines || (d.cx == 0 && d.cy > 0)
  {
    if d.cx > 0 {
      assert |Backspace(d).lines[d.cy]| == |d.lines[d.cy]| - 1;
    }
  }

  /** A key sets the flag exactly if it changes the lines, or is Ctrl-K, or Backspace in front of a line but the first;
      none clears it. */
  lemma FlagIff(d: Doc, e: Event)
    requires Ok(d)
    ensures Press(d, e).modified <==>
            d.modified || Press(d, e).lines != d.lines || e == Char(11) || (e == Char(8) && d.cx == 0 && d.cy > 0)
  {
    hide Insert, Backspace;
    if e.Char? {
      InsertFlag(d, e.c);
      BackspaceFlag(d);
    }
  }

  /** A buffer that is unmodified after a run has the lines it had before: quitting it loses nothing. */
  lemma {:induction false} UnmodifiedKeepsLines(d: Doc, events: seq<Event>)
    requires Ok(d) && !Run(d, events).modified
    ensures !d.modified && Run(d, events).lines == d.lines && Text(Run(d, events)) == Text(d)
    decreases |events|
  {
    if events != [] {
      FlagIff(d, events[0]);
      UnmodifiedKeepsLines(Press(d, events[0]), events[1..]);
    }
  }

  // ---------------------------------------------------------------- what can be typed

  function Typed(cs: seq<u8>): (events: seq<Event>)
    ensures |events| == |cs| && forall k :: 0 <= k < |cs| ==> events[k] == Char(cs[k])
  {
    seq(|cs|, k requires 0 <= k < |cs| => Char(cs[k]))
  }

  lemma TypeOne(d: Doc, c: u8)
    requires Ok(d) && d.cx == |d.lines[d.cy]| && 32 <= c < 127
    ensures var r := Press(d, Char(c));
            && r.cy == d.cy && d.cx <= 80
            && (d.cx < 80 ==> r.cx == d.cx + 1 && r.lines == d.lines[d.cy := d.lines[d.cy] + [c]])
            && (d.cx == 80 ==> r == d)
  {
    var line := d.lines[d.cy];
    assert line[..d.cx] + [c] + line[d.cx..] == line + [c];
  }

  lemma TypedTail(cs: seq<u8>)
    requires cs != []
    ensures Typed(cs)[0] == Char(cs[0]) && Typed(cs)[1..] == Typed(cs[1..])
  {
    forall k | 0 <= k < |cs| - 1 ensures Typed(cs)[1..][k] == Typed(cs[1..])[k] {
      assert Typed(cs)[k + 1] == Char(cs[k + 1]);
    }
  }

  lemma TypedOneMore(line: Line, cs: seq<u8>, n: nat)
    requires 1 <= n <= |cs|
    ensures line + [cs[0]] + cs[1..][..n - 1] == line + cs[..n]
  {
  }

  /** Printable keys typed at the end of a line stand there as typed, up to eighty; the rest is refused. */
  lemma {:induction false} TypeLine(d: Doc, cs: seq<u8>)
    requires Ok(d) && d.cx == |d.lines[d.cy]| && forall k :: 0 <= k < |cs| ==> 32 <= cs[k] < 127
    ensures d.cx <= 80 && Run(d, Typed(cs)).lines == d.lines[d.cy := d.lines[d.cy] + cs[..Min(|cs|, 80 - d.cx)]]
    decreases |cs|
  {
    hide Press, Typed;
    if cs == [] {
      assert d.lines[d.cy] + cs[..0] == d.lines[d.cy];
    } else {
      TypeOne(d, cs[0]);
      TypedTail(cs);
      TypeLine(Press(d, Char(cs[0])), cs[1..]);
      if d.cx < 80 {
        TypedOneMore(d.lines[d.cy], cs, Min(|cs|, 80 - d.cx));
      } else {
        assert d.lines[d.cy] + cs[..0] == d.lines[d.cy];
      }
    }
  }

  /** Enter stops at 128 lines. */
  lemma LinesBounded(d: Doc)
    requires Ok(d)
    ensures |Press(d, Char(10)).lines| == if |d.lines| < 128 then |d.lines| + 1 else |d.lines|
  {
  }

  /** Any other character does nothing; those that save, search or quit are not keys of a run. */
  lemma OthersIgnored(d: Doc, c: u8)
    requires Ok(d) && (c < 32 || c >= 127) && c !in {1, 5, 6, 8, 10, 11, 14, 17, 19}
    ensures Press(d, Char(c)) == d
  {
  }

  // ---------------------------------------------------------------- lines stay free of newlines

  predicate CleanLine(line: Line) { NEWLINE !in line }

  /** No line holds a newline of its own, so the flat string determines the lines. */
  predicate Clean(lines: seq<Line>)
  {
    forall k :: 0 <= k < |lines| ==> CleanLine(lines[k])
  }

  lemma InsertKeepsClean(d: Doc, c: u8)
    requires Ok(d) && Clean(d.lines) && c != NEWLINE
    ensures Clean(Insert(d, c).lines)
  {
    assert CleanLine(d.lines[d.cy]);
  }

  lemma NewlineKeepsClean(d: Doc)
    requires Ok(d) && Clean(d.lines)
    ensures Clean(Newline(d).lines)
  {
    var r := Newline(d);
    assert CleanLine(d.lines[d.cy]);
    forall k | 0 <= k < |r.lines| ensures CleanLine(r.lines[k]) {
      if k > d.cy + 1 && |d.lines| < MAX_LINES {
        assert r.lines[k] == d.lines[k - 1];
      }
    }
  }

  lemma BackspaceKeepsClean(d: Doc)
    requires Ok(d) && Clean(d.lines)
    ensures Clean(Backspace(d).lines)
  {
    var r := Backspace(d);
    assert CleanLine(d.lines[d.cy]) && (d.cy > 0 ==> CleanLine(d.lines[d.cy - 1]));
    forall k | 0 <= k < |r.lines| ensures CleanLine(r.lines[k]) {
      if d.cx == 0 && !BackspaceRefused(d) && k >= d.cy {
        assert r.lines[k] == d.lines[k + 1];
      }
    }
  }

  lemma DeleteLineKeepsClean(d: Doc)
    requires Ok(d) && Clean(d.lines)
    ensures Clean(DeleteLine(d).lines)
  {
    var r := DeleteLine(d);
    forall k | 0 <= k < |r.lines| ensures CleanLine(r.lines[k]) {
      if |d.lines| > 1 {
        assert r.lines[k] == d.lines[if k < d.cy then k else k + 1];
      }
    }
  }

  lemma PressKeepsClean(d: Doc, e: Event)
    requires Ok(d) && Clean(d.lines)
    ensures Clean(Press(d, e).lines)
  {
    hide Clean, Insert, Newline, Backspace, DeleteLine;
    if e.Char? {
      if e.c != NEWLINE {
        InsertKeepsClean(d, e.c);
      }
      NewlineKeepsClean(d);
      BackspaceKeepsClean(d);
      DeleteLineKeepsClean(d);
    }
  }

  lemma {:induction false} RunKeepsClean(d: Doc, events: seq<Event>)
    requires Ok(d) && Clean(d.lines)
    ensures Clean(Run(d, events).lines)
    decreases |events|
  {
    if events != [] {
      PressKeepsClean(d, events[0]);
      RunKeepsClean(Press(d, events[0]), events[1..]);
    }
  }
}
