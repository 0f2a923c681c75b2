/** The bytes that the editor saves, and the lines that it loads from a file (kernel/editor.c:284-316, 357-366). */
module SavedText {
  import opened Bytes
  import opened EditorText
  import opened EditorRuns
  import R = RamFs

  /** save_file: each line, then a newline. */
  function SaveBytes(lines: seq<Line>): Line { Before(lines, |lines|) }

  /** The last line begins inside the file. Past the capacity the in-memory file system wraps the remaining size. */
  predicate Savable(lines: seq<Line>, capacity: nat)
    requires lines != []
  {
    |Before(lines, |lines| - 1)| <= capacity
  }

  /** The file afterwards: what does not fit is cut off. */
  function Saved(lines: seq<Line>, capacity: nat): Line { SaveBytes(lines)[..Min(|SaveBytes(lines)|, capacity)] }

  /** What load_file has read: the lines ended so far, and the line being read. */
  datatype Reading = Reading(done: seq<Line>, cur: Line)

  /** One byte of load_file: a line keeps its first 80 bytes, and after 128 lines nothing more is read. */
  function Feed(r: Reading, c: u8): Reading
  {
    if |r.done| >= MAX_LINES then r
    else if c == NEWLINE then Reading(r.done + [r.cur], [])
    else if |r.cur| < LINE_MAX then Reading(r.done, r.cur + [c])
    else r
  }

  function Parsed(bytes: Line): (r: Reading)
    ensures |r.cur| <= LINE_MAX && |r.done| <= MAX_LINES && (|r.done| == MAX_LINES ==> r.cur == [])
    ensures forall k :: 0 <= k < |r.done| ==> |r.done[k]| <= LINE_MAX
    decreases |bytes|
  {
    if bytes == [] then Reading([], [])
    else Feed(Parsed(bytes[..|bytes| - 1]), bytes[|bytes| - 1])
  }

  /** The lines of the buffer after loading: a last line without its newline is dropped. */
  function LoadedLines(bytes: Line): (lines: seq<Line>)
    ensures |lines| >= 1
  {
    if Parsed(bytes).done == [] then [EMPTY] else Parsed(bytes).done
  }

  /** The buffer's lines after loading, or None when it claims one line more than it has. */
  function Loaded(bytes: Line): Option<seq<Line>>
  {
    if |Parsed(bytes).done| == MAX_LINES then None else Some(LoadedLines(bytes))
  }

  function Newlines(bytes: Line): nat
  {
    if bytes == [] then 0 else Newlines(bytes[..|bytes| - 1]) + if bytes[|bytes| - 1] == NEWLINE then 1 else 0
  }

  /** Each newline ends a line, up to 128. */
  lemma {:induction false} DoneAre(bytes: Line)
    ensures |Parsed(bytes).done| == Min(Newlines(bytes), MAX_LINES)
    decreases |bytes|
  {
    if bytes != [] {
      DoneAre(bytes[..|bytes| - 1]);
    }
  }

  lemma ParsedAppend(bytes: Line, c: u8)
    ensures Parsed(bytes + [c]) == Feed(Parsed(bytes), c)
  {
    assert (bytes + [c])[..|bytes|] == bytes;
  }

  // ---------------------------------------------------------------- saving, then loading

  /** Reading the bytes of a short line adds them to the line being read. */
  lemma {:induction false} ParsedLine(bytes: Line, line: Line, j: nat)
    requires CleanLine(line) && j <= |line| <= LINE_MAX && Parsed(bytes).cur == [] && |Parsed(bytes).done| < MAX_LINES
    ensures Parsed(bytes + line[..j]) == Reading(Parsed(bytes).done, line[..j])
    decreases j
  {
    if j == 0 {
      assert bytes + line[..0] == bytes;
    } else {
      ParsedLine(bytes, line, j - 1);
      NextByte(bytes, line, j - 1);
    }
  }

  lemma OneMore(bytes: Line, line: Line, j: nat)
    requires j < |line|
    ensures line[..j] + [line[j]] == line[..j + 1]
    ensures bytes + line[..j] + [line[j]] == bytes + line[..j + 1]
  {
    assert bytes + line[..j] + [line[j]] == bytes + (line[..j] + [line[j]]);
  }

  lemma {:induction false} NextByte(bytes: Line, line: Line, j: nat)
    requires CleanLine(line) && j < |line| <= LINE_MAX && |Parsed(bytes).done| < MAX_LINES
    requires Parsed(bytes + line[..j]) == Reading(Parsed(bytes).done, line[..j])
    ensures Parsed(bytes + line[..j + 1]) == Reading(Parsed(bytes).done, line[..j + 1])
  {
    hide Parsed;
    OneMore(bytes, line, j);
    ParsedAppend(bytes + line[..j], line[j]);
  }

  lemma ParsedNone(lines: seq<Line>)
    ensures Before(lines, 0) == [] && Parsed([]) == Reading([], [])
  {
  }

  /** Of a longer line its first eighty bytes are kept. */
  lemma {:induction false} LongLineCut(bytes: Line, line: Line)
    requires CleanLine(line) && Parsed(bytes).cur == [] && |Parsed(bytes).done| < 128
    ensures Parsed(bytes + line) == Reading(Parsed(bytes).done, line[..Min(|line|, 80)])
    ensures Parsed(bytes + line + [10]) == Reading(Parsed(bytes).done + [line[..Min(|line|, 80)]], [])
    decreases |line|
  {
    hide Parsed;
    if line == [] {
      assert bytes + line == bytes;
    } else {
      var n := |line| - 1;
      LongLineCut(bytes, line[..n]);
      assert bytes + line == bytes + line[..n] + [line[n]];
      ParsedAppend(bytes + line[..n], line[n]);
      assert line[n] in line;
    }
    ParsedAppend(bytes + line, NEWLINE);
  }

  lemma {:induction false} ParsedSaved(lines: seq<Line>, k: nat)
    requires Clean(lines) && k <= |lines| <= MAX_LINES && forall i :: 0 <= i < |lines| ==> |lines[i]| <= LINE_MAX
    ensures Parsed(Before(lines, k)) == Reading(lines[..k], [])
    decreases k
  {
    hide Parsed, Before;
    if k == 0 {
      ParsedNone(lines);
    } else {
      ParsedSaved(lines, k - 1);
      BeforeNext(lines, k - 1);
      var p, line := Before(lines, k - 1), lines[k - 1];
      ParsedLine(p, line, |line|);
      assert line[..|line|] == line;
      ParsedAppend(p + line, NEWLINE);
      assert lines[..k - 1] + [line] == lines[..k];
    }
  }

  lemma SaveBytesAre(lines: seq<Line>)
    requires lines != []
    ensures var n := |lines| - 1; SaveBytes(lines) == Before(lines, n) + lines[n] + [NEWLINE]
  {
    BeforeNext(lines, |lines| - 1);
  }

  /** The saved bytes are the text and a newline. */
  lemma SavedIsText(lines: seq<Line>)
    requires lines != []
    ensures SaveBytes(lines) == Flat(lines) + [NEWLINE]
  {
    hide Flat, Before;
    var n := |lines| - 1;
    SaveBytesAre(lines);
    FlatAround(lines, n);
    assert Before(lines, n) + lines[n] + [] == Before(lines, n) + lines[n];
  }

  /** What a file that was cut off reads as: its last line has lost its newline. */
  lemma CutReads(lines: seq<Line>, capacity: nat)
    requires lines != [] && |lines| <= MAX_LINES && Clean(lines) && Savable(lines, capacity)
    requires forall i :: 0 <= i < |lines| ==> |lines[i]| <= LINE_MAX
    requires |SaveBytes(lines)| > capacity
    ensures Parsed(Saved(lines, capacity)).done == lines[..|lines| - 1]
  {
    hide Parsed, Before, Clean;
    var n := |lines| - 1;
    var p, line := Before(lines, n), lines[n];
    SaveBytesAre(lines);
    var j := capacity - |p|;
    assert Saved(lines, capacity) == p + line[..j];
    ParsedSaved(lines, n);
    assert CleanLine(line) by {
      OneClean(lines, n);
    }
    ParsedLine(p, line, j);
  }

  lemma OneClean(lines: seq<Line>, k: nat)
    requires Clean(lines) && k < |lines|
    ensures CleanLine(lines[k])
  {
  }

  /** Loading what was saved gives back the same lines exactly when the buffer has fewer than 128 of them and they fit
      the file. */
  lemma SaveThenLoadIff(d: Doc, capacity: nat)
    requires Ok(d) && Clean(d.lines) && Savable(d.lines, capacity) && capacity > LINE_MAX
    ensures Loaded(Saved(d.lines, capacity)) == Some(d.lines) <==>
            |d.lines| < MAX_LINES && |SaveBytes(d.lines)| <= capacity
  {
    hide Parsed, Before, Clean;
    var lines := d.lines;
    if |SaveBytes(lines)| <= capacity {
      ParsedSaved(lines, |lines|);
      assert lines[..|lines|] == lines && Saved(lines, capacity) == SaveBytes(lines);
    } else {
      CutReads(lines, capacity);
      if |lines| == 1 {
        OneLine(lines);
      }
    }
  }

  lemma OneLine(lines: seq<Line>)
    requires |lines| == 1
    ensures |SaveBytes(lines)| == |lines[0]| + 1
  {
    assert Before(lines, 0) == [];
    SaveBytesAre(lines);
  }

  /** So it is after any run of keys on a buffer that was free of newlines. */
  lemma RunSaveLoadIff(d: Doc, events: seq<Event>, capacity: nat)
    requires Ok(d) && Clean(d.lines) && Savable(Run(d, events).lines, capacity) && capacity > LINE_MAX
    ensures var lines := Run(d, events).lines;
            Loaded(Saved(lines, capacity)) == Some(lines) <==> |lines| < MAX_LINES && |SaveBytes(lines)| <= capacity
  {
    RunKeepsClean(d, events);
    SaveThenLoadIff(Run(d, events), capacity);
  }

  // ---------------------------------------------------------------- a file of the editor's own that it cannot load

  const ENTER: Event := Char(NEWLINE)

  function Enters(n: nat): (events: seq<Event>)
    ensures |events| == n && forall k :: 0 <= k < n ==> events[k] == ENTER
  {
    seq(n, _ => ENTER)
  }

  lemma {:induction false} EntersAdd(d: Doc, n: nat)
    requires Ok(d) && |d.lines| + n <= MAX_LINES
    ensures |Run(d, Enters(n)).lines| == |d.lines| + n && |Text(Run(d, Enters(n)))| == |Text(d)| + n
    decreases n
  {
    hide Flat, Start;
    if n > 0 {
      NewlineFlat(d);
      assert Enters(n)[1..] == Enters(n - 1);
      EntersAdd(Press(d, ENTER), n - 1);
    }
  }

  /** 127 times Enter in an empty buffer, saved: the file has 129 lines when it is loaded again. */
  lemma OwnFileOverruns()
    ensures var lines := Run(Doc([EMPTY], 0, 0, false), Enters(127)).lines;
            |lines| == MAX_LINES && Savable(lines, R.MAX_FILESIZE) && Loaded(Saved(lines, R.MAX_FILESIZE)) == None
  {
    hide Flat, Before, Parsed, Clean, Run, Enters;
    var d := Doc([EMPTY], 0, 0, false);
    EntersAdd(d, 127);
    SingleFlat([EMPTY]);
    EmptyClean();
    RunKeepsClean(d, Enters(127));
    FullOverruns(Run(d, Enters(127)));
  }

  lemma FullOverruns(d: Doc)
    requires Ok(d) && Clean(d.lines) && |d.lines| == MAX_LINES && |Text(d)| < R.MAX_FILESIZE
    ensures Savable(d.lines, R.MAX_FILESIZE) && Loaded(Saved(d.lines, R.MAX_FILESIZE)) == None
  {
    hide Flat, Before, Parsed, Clean;
    SavedIsText(d.lines);
    SaveBytesAre(d.lines);
    ParsedSaved(d.lines, |d.lines|);
    assert d.lines[..|d.lines|] == d.lines && Saved(d.lines, R.MAX_FILESIZE) == SaveBytes(d.lines);
  }

  lemma EmptyClean()
    ensures Clean([EMPTY])
  {
  }

  // ---------------------------------------------------------------- loading, then saving

  /** 81 bytes in a row without a newline. */
  predicate LongAt(bytes: Line, i: nat)
  {
    i + LINE_MAX < |bytes| && CleanLine(bytes[i..i + LINE_MAX + 1])
  }

  /** Every line has at most 80 bytes. */
  ghost predicate ShortLines(bytes: Line)
  {
    forall i: nat :: !LongAt(bytes, i)
  }

  function Rejoined(r: Reading): Line { SaveBytes(r.done) + r.cur }

  lemma RejoinedNewline(r: Reading)
    requires |r.done| < MAX_LINES
    ensures Rejoined(Feed(r, NEWLINE)) == Rejoined(r) + [NEWLINE]
  {
    var r1 := Feed(r, NEWLINE);
    BeforeNext(r1.done, |r.done|);
    assert r1.done[..|r.done|] == r.done[..|r.done|];
    BeforeSame(r.done, r1.done, |r.done|);
  }

  lemma RejoinedByte(r: Reading, c: u8)
    requires c != NEWLINE && |r.cur| < LINE_MAX && |r.done| < MAX_LINES
    ensures Rejoined(Feed(r, c)) == Rejoined(r) + [c]
  {
    hide SaveBytes;
    assert SaveBytes(r.done) + (r.cur + [c]) == SaveBytes(r.done) + r.cur + [c];
  }

  /** What is read is never more than the bytes, and all of them exactly when no line is too long. */
  lemma {:induction false} ParsedKeeps(bytes: Line)
    ensures |Rejoined(Parsed(bytes))| <= |bytes|
    ensures Rejoined(Parsed(bytes)) == bytes || |Rejoined(Parsed(bytes))| < |bytes|
    decreases |bytes|
  {
    if bytes != [] {
      hide Rejoined;
      var p, c := bytes[..|bytes| - 1], bytes[|bytes| - 1];
      assert bytes == p + [c];
      ParsedKeeps(p);
      if |Parsed(p).done| == MAX_LINES {
      } else if c == NEWLINE {
        RejoinedNewline(Parsed(p));
      } else if |Parsed(p).cur| < LINE_MAX {
        RejoinedByte(Parsed(p), c);
      }
    }
  }

  /** The last m bytes, free of newlines, are all in the line being read, up to 80 of them. */
  lemma {:induction false} TailRead(bytes: Line, m: nat)
    requires m <= |bytes| && CleanLine(bytes[|bytes| - m..]) && |Parsed(bytes).done| < MAX_LINES
    ensures |Parsed(bytes).cur| >= Min(m, LINE_MAX)
    decreases m
  {
    if m > 0 {
      var p, c := bytes[..|bytes| - 1], bytes[|bytes| - 1];
      assert c == bytes[|bytes| - m..][m - 1];
      assert p[|p| - (m - 1)..] == bytes[|bytes| - m..][..m - 1];
      TailRead(p, m - 1);
    }
  }

  lemma LongAtPrefix(bytes: Line, i: nat)
    requires bytes != []
    ensures LongAt(bytes[..|bytes| - 1], i) <==> LongAt(bytes, i) && i + LINE_MAX + 1 < |bytes|
  {
    var p := bytes[..|bytes| - 1];
    if i + LINE_MAX < |p| {
      assert p[i..i + LINE_MAX + 1] == bytes[i..i + LINE_MAX + 1];
    }
  }

  /** The line being read is a suffix of the bytes when nothing was dropped. */
  lemma {:induction false} CurIsTail(bytes: Line)
    requires ShortLines(bytes) && |Parsed(bytes).done| < MAX_LINES
    ensures Rejoined(Parsed(bytes)) == bytes && CleanLine(Parsed(bytes).cur)
    decreases |bytes|
  {
    if bytes != [] {
      var p, c := bytes[..|bytes| - 1], bytes[|bytes| - 1];
      assert bytes == p + [c];
      forall i: nat ensures !LongAt(p, i) {
        LongAtPrefix(bytes, i);
      }
      CurIsTail(p);
      var r := Parsed(p);
      if c == NEWLINE {
        RejoinedNewline(r);
      } else {
        if |r.cur| >= LINE_MAX {
          FullLine(bytes, p, c, r);
        }
        assert Rejoined(Parsed(bytes)) == Rejoined(r) + [c];
      }
    }
  }

  lemma FullLine(bytes: Line, p: Line, c: u8, r: Reading)
    requires bytes == p + [c] && Rejoined(r) == p && CleanLine(r.cur) && |r.cur| == LINE_MAX && c != NEWLINE
    ensures !ShortLines(bytes)
  {
    var i := |bytes| - LINE_MAX - 1;
    assert p[i..] == r.cur;
    assert bytes[i..i + LINE_MAX + 1] == r.cur + [c];
    assert LongAt(bytes, i);
  }

  /** A line of more than 80 bytes loses some. */
  lemma {:induction false} LongLineLoses(bytes: Line)
    requires !ShortLines(bytes) && |Parsed(bytes).done| < MAX_LINES
    ensures |Rejoined(Parsed(bytes))| < |bytes|
    decreases |bytes|
  {
    assert bytes != [];
    var p, c := bytes[..|bytes| - 1], bytes[|bytes| - 1];
    assert bytes == p + [c];
    ParsedKeeps(p);
    if !ShortLines(p) {
      LongLineLoses(p);
      if c == NEWLINE {
        RejoinedNewline(Parsed(p));
      }
    } else {
      var i := |bytes| - LINE_MAX - 1;
      LongTail(bytes, p);
      assert c == bytes[i..][LINE_MAX];
      assert p[i..] == bytes[i..][..LINE_MAX];
      TailRead(p, LINE_MAX);
    }
  }

  lemma LongTail(bytes: Line, p: Line)
    requires bytes != [] && p == bytes[..|bytes| - 1] && !ShortLines(bytes) && ShortLines(p)
    ensures |bytes| > LINE_MAX && CleanLine(bytes[|bytes| - LINE_MAX - 1..])
  {
    var i: nat :| LongAt(bytes, i);
    LongAtPrefix(bytes, i);
    assert !LongAt(p, i);
    assert bytes[i..i + LINE_MAX + 1] == bytes[i..];
  }

  lemma EndsLine(bytes: Line)
    requires bytes != [] && bytes[|bytes| - 1] == NEWLINE && |Parsed(bytes).done| < MAX_LINES
    ensures Parsed(bytes).cur == [] && Parsed(bytes).done != []
  {
    assert |Parsed(bytes).done| >= 1;
  }

  lemma EmptySaved()
    ensures SaveBytes([EMPTY]) == [NEWLINE]
  {
    BeforeNext([EMPTY], 0);
    assert EMPTY + [NEWLINE] == [NEWLINE];
  }

  /** Saving what was loaded gives back the file exactly when it ends in a newline, has no line of more than 80 bytes,
      and has fewer than 128 newlines. It fits wherever the file did. */
  lemma LoadThenSaveIff(bytes: Line)
    ensures (Loaded(bytes).Some? && SaveBytes(Loaded(bytes).value) == bytes) <==>
            bytes != [] && bytes[|bytes| - 1] == NEWLINE && ShortLines(bytes) && Newlines(bytes) < MAX_LINES
    ensures Loaded(bytes).Some? ==> |SaveBytes(Loaded(bytes).value)| <= if bytes == [] then 1 else |bytes|
  {
    hide SaveBytes, Parsed, ShortLines, Newlines;
    var r := Parsed(bytes);
    DoneAre(bytes);
    ParsedKeeps(bytes);
    EmptySaved();
    if bytes == [] {
      NothingParsed();
    } else if |r.done| < MAX_LINES {
      if bytes[|bytes| - 1] != NEWLINE {
        NoNewline(bytes);
      } else {
        EndsLine(bytes);
        if ShortLines(bytes) {
          CurIsTail(bytes);
        } else {
          LongLineLoses(bytes);
        }
      }
    }
  }

  lemma NothingParsed()
    ensures Parsed([]) == Reading([], [])
  {
  }

  lemma NoNewline(bytes: Line)
    requires bytes != [] && bytes[|bytes| - 1] != NEWLINE && |Parsed(bytes).done| < MAX_LINES
    ensures Parsed(bytes).cur != []
  {
    var last := bytes[|bytes| - 1..];
    assert forall c :: c in last ==> c == bytes[|bytes| - 1];
    TailRead(bytes, 1);
  }
}
