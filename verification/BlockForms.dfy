/** What `renderBlocks` takes for a quoted line, a header, a list item and the delimiter row of a
    table, told as what such a line is made of. */
module BlockForms {
  import opened Basics
  import opened Blocks
  import opened Html
  import opened Scan

  // ----- Recognising a line -----

  lemma SpaceEndAt(s: string, k: nat, e: nat)
    requires k <= e <= |s| && (e < |s| ==> !IsSpace(s[e])) && forall i :: k <= i < e ==> IsSpace(s[i])
    ensures SpaceEnd(s, k) == e
    decreases e - k
  {
    if k < e { SpaceEndAt(s, k + 1, e); }
  }

  /** No blank in front. */
  predicate NoIndent(s: string) {
    s == "" || s[0] as nat !in BLANKS
  }

  lemma Indent(s: string)
    ensures NoIndent(s) <==> s == "" || !IsSpace(s[0])
  {
    if s != "" { BlanksAre(s[0]); }
  }

  lemma SkipsBlanks(front: string, blanks: string, text: string)
    requires IsBlank(blanks) && NoIndent(text)
    ensures SpaceEnd(front + blanks + text, |front|) == |front| + |blanks|
  {
    var s := front + blanks + text;
    BlankIsSpace(blanks);
    Indent(text);
    assert forall i :: |front| <= i < |front| + |blanks| ==> s[i] == blanks[i - |front|];
    SpaceEndAt(s, |front|, |front| + |blanks|);
  }

  /** A line of a quote: blanks, a greater-than sign, and behind it one blank or none. */
  ghost predicate IsQuoteOf(line: string, inner: string) {
    exists blanks, sep :: QuoteOf(line, blanks, sep, inner)
  }

  predicate QuoteOf(line: string, blanks: string, sep: string, inner: string) {
    && IsBlank(blanks) && IsBlank(sep) && |sep| <= 1 && (sep == "" ==> NoIndent(inner))
    && line == blanks + (">" + (sep + inner))
  }

  /** The line behind its sign: one blank goes, if there is one. */
  function Behind(after: string): string {
    if NoIndent(after) then after else after[1..]
  }

  lemma Stripped(line: string)
    requires IsQuote(line)
    ensures var e := SpaceEnd(line, 0);
      line == line[..e] + (">" + line[e + 1..]) && IsBlank(line[..e]) && StripQuote(line) == Behind(line[e + 1..])
  {
    var e := SpaceEnd(line, 0);
    BlankIsSpace(line[..e]);
    Indent(line[e + 1..]);
    hide SpaceEnd, IsSpace, IsBlank, NoIndent;
    SplitAt(line, e);
  }

  lemma SplitAt(s: string, e: nat)
    requires e < |s|
    ensures s == s[..e] + ([s[e]] + s[e + 1..])
    ensures e + 1 < |s| ==> s[e + 1..][0] == s[e + 1] && s[e + 1..][1..] == s[e + 2..]
  {
  }

  lemma OneBlank(after: string) returns (sep: string)
    ensures IsBlank(sep) && |sep| <= 1 && after == sep + Behind(after) && (sep == "" ==> NoIndent(Behind(after)))
  {
    sep := if NoIndent(after) then "" else after[..1];
  }

  lemma PartsOfQuote(line: string)
    requires IsQuote(line)
    ensures IsQuoteOf(line, StripQuote(line))
  {
    hide IsQuote, StripQuote, SpaceEnd, IsBlank, NoIndent, Behind;
    Stripped(line);
    var e := SpaceEnd(line, 0);
    var sep := OneBlank(line[e + 1..]);
    assert QuoteOf(line, line[..e], sep, StripQuote(line));
  }

  lemma QuoteOfParts(line: string, blanks: string, sep: string, inner: string)
    requires QuoteOf(line, blanks, sep, inner)
    ensures IsQuote(line) && StripQuote(line) == inner
  {
    var after := sep + inner;
    SignAt(line, blanks, after);
    Stripped(line);
    assert Behind(after) == inner;
    hide SpaceEnd, IsQuote, StripQuote, Behind;
  }

  lemma SignAt(line: string, blanks: string, after: string)
    requires IsBlank(blanks) && line == blanks + (">" + after)
    ensures IsQuote(line) && SpaceEnd(line, 0) == |blanks| && line[|blanks| + 1..] == after
  {
    hide SpaceEnd, IsBlank, NoIndent;
    SignNoIndent(after);
    assert line[0..] == line;
    SkipAt(line, 0, blanks, ">" + after);
    AtSign(blanks, after);
  }

  lemma SignNoIndent(after: string)
    ensures NoIndent(">" + after)
  {
    BlanksAre('>');
  }

  lemma AtSign(blanks: string, after: string)
    ensures var line := blanks + (">" + after); line[|blanks|] == '>' && line[|blanks| + 1..] == after
  {
  }

  lemma QuoteIs(line: string, inner: string)
    ensures IsQuote(line) && StripQuote(line) == inner <==> IsQuoteOf(line, inner)
  {
    hide IsQuote, StripQuote, QuoteOf;
    if IsQuote(line) { PartsOfQuote(line); }
    if IsQuoteOf(line, inner) {
      var blanks, sep :| QuoteOf(line, blanks, sep, inner);
      QuoteOfParts(line, blanks, sep, inner);
    }
  }

  /** A header: one to three number signs, blanks, and the text up to the end of the line. */
  ghost predicate IsHeaderOf(line: string, level: nat, text: string) {
    exists blanks, more :: HeaderOf(line, level, blanks, text, more)
  }

  predicate HeaderOf(line: string, level: nat, blanks: string, text: string, more: string) {
    && 1 <= level <= 3
    && blanks != "" && IsBlank(blanks) && NoIndent(text + more)
    && (forall i :: 0 <= i < |text| ==> text[i] !in LINE_ENDS) && (more == "" || more[0] in LINE_ENDS)
    && line == "###"[..level] + blanks + (text + more)
  }

  const LINE_ENDS := {'\n', '\r', '\U{2028}', '\U{2029}'}

  lemma LevelParts(line: string)
    requires HeaderLevel(line) > 0
    ensures var n := HeaderLevel(line); n < |line| && IsSpace(line[n]) && line[..n] == "###"[..n]
  {}

  lemma TextParts(line: string)
    ensures var from := SpaceEnd(line, HeaderLevel(line));
      var to := RunEnd(line, from, LINE_ENDS);
      && HeaderText(line) == line[from..to]
      && (forall i :: from <= i < to ==> line[i] !in LINE_ENDS) && (to < |line| ==> line[to] in LINE_ENDS)
  {
    hide SpaceEnd, HeaderLevel, RunEnd;
  }

  lemma HeaderParts(line: string)
    requires HeaderLevel(line) > 0
    ensures IsHeaderOf(line, HeaderLevel(line), HeaderText(line))
  {
    LevelParts(line);
    TextParts(line);
    var n := HeaderLevel(line);
    var from := SpaceEnd(line, n);
    var to := RunEnd(line, from, LINE_ENDS);
    hide HeaderLevel, HeaderText, RunEnd;
    Sliced(line, n, from, to);
    var blanks, text, more := line[n..from], line[from..to], line[to..];
    BlankIsSpace(blanks);
    Indent(line[from..]);
    assert from < |line| ==> line[from..][0] == line[from];
    hide SpaceEnd, IsSpace, IsBlank, NoIndent;
    assert HeaderOf(line, n, blanks, text, more);
  }

  lemma Sliced(s: string, n: nat, from: nat, to: nat)
    requires n <= from <= to <= |s|
    ensures s == s[..n] + s[n..from] + (s[from..to] + s[to..]) && s[from..to] + s[to..] == s[from..]
    ensures forall i :: 0 <= i < to - from ==> s[from..to][i] == s[from + i]
  {}

  lemma PartsHeader(line: string, level: nat, blanks: string, text: string, more: string)
    requires HeaderOf(line, level, blanks, text, more)
    ensures HeaderLevel(line) == level && HeaderText(line) == text
  {
    SkipsBlanks("###"[..level], blanks, text + more);
    LevelOf(level, blanks, text + more);
    TextRuns("###"[..level] + blanks, text, more);
    TextParts(line);
    hide SpaceEnd, HeaderLevel, HeaderText, RunEnd;
  }

  lemma TextRuns(front: string, text: string, more: string)
    requires (forall i :: 0 <= i < |text| ==> text[i] !in LINE_ENDS) && (more == "" || more[0] in LINE_ENDS)
    ensures var line := front + (text + more);
      var e := RunEnd(line, |front|, LINE_ENDS);
      line[|front|..e] == text
  {
    var line := front + (text + more);
    var e := |front| + |text|;
    assert forall i :: |front| <= i < e ==> line[i] == text[i - |front|];
    RunEndAt(line, |front|, e, LINE_ENDS);
  }

  lemma LevelOf(level: nat, blanks: string, rest: string)
    requires 1 <= level <= 3 && blanks != "" && IsBlank(blanks)
    ensures HeaderLevel("###"[..level] + blanks + rest) == level
  {
    var line := "###"[..level] + blanks + rest;
    BlankIsSpace(blanks);
    assert line[level] == blanks[0] && IsSpace(blanks[0]);
    assert forall i :: 0 <= i < level ==> line[i] == '#';
    ClassEndAt(line, 0, 3, IsHash, level);
  }

  lemma HeaderIs(line: string, level: nat, text: string)
    ensures level > 0 && HeaderLevel(line) == level && HeaderText(line) == text <==> IsHeaderOf(line, level, text)
  {
    hide HeaderLevel, HeaderText, HeaderOf;
    if level > 0 && HeaderLevel(line) == level { HeaderParts(line); }
    if IsHeaderOf(line, level, text) {
      var blanks, more :| HeaderOf(line, level, blanks, text, more);
      PartsHeader(line, level, blanks, text, more);
      LevelPositive(line, level, blanks, text, more);
    }
  }

  lemma LevelPositive(line: string, level: nat, blanks: string, text: string, more: string)
    requires HeaderOf(line, level, blanks, text, more)
    ensures level > 0
  {}

  /** An item of a list: a star or a dash, blanks, and the text. */
  ghost predicate IsItemOf(line: string, text: string) {
    exists mark, blanks ::
      && (mark == "*" || mark == "-") && blanks != "" && IsBlank(blanks) && NoIndent(text)
      && line == mark + blanks + text
  }

  lemma ItemIs(line: string, text: string)
    ensures IsListItem(line) && ItemText(line) == text <==> IsItemOf(line, text)
  {
    if IsListItem(line) && ItemText(line) == text {
      var e := SpaceEnd(line, 1);
      BlankIsSpace(line[1..e]);
      Indent(line[e..]);
      assert line == line[..1] + line[1..e] + text;
      assert line[..1] == [line[0]];
    }
    hide SpaceEnd, IsBlank, NoIndent;
    if IsItemOf(line, text) {
      var mark, blanks :|
        && (mark == "*" || mark == "-") && blanks != "" && IsBlank(blanks) && NoIndent(text)
        && line == mark + blanks + text;
      PartsItem(mark, blanks, text);
    }
  }

  lemma PartsItem(mark: string, blanks: string, text: string)
    requires (mark == "*" || mark == "-") && blanks != "" && IsBlank(blanks) && NoIndent(text)
    ensures var line := mark + blanks + text; IsListItem(line) && ItemText(line) == text
  {
    var line := mark + blanks + text;
    SkipsBlanks(mark, blanks, text);
    BlankIsSpace(blanks);
    assert line[1] == blanks[0];
    assert line[1 + |blanks|..] == text;
  }

  // ----- The row under a table's header -----

  /** A cell of it: dashes, with a colon at either end or not, amid blanks. */
  datatype Cell = Cell(before: string, left: bool, dashes: nat, right: bool, after: string)

  predicate IsCell(c: Cell) {
    IsBlank(c.before) && IsBlank(c.after) && c.dashes >= 1
  }

  function Dashes(n: nat): (s: string)
    ensures |s| == n && forall i :: 0 <= i < n ==> s[i] == '-'
  {
    seq(n, i => '-')
  }

  function CellFront(c: Cell): string {
    (if c.left then ":" else "") + Dashes(c.dashes) + (if c.right then ":" else "")
  }

  /** A cell without the blanks in front of it. */
  function CellCore(c: Cell): string {
    CellFront(c) + c.after
  }

  /** The cells from the first one's core on, a pipe between two, and what is behind them. */
  function CellsText(cells: seq<Cell>, back: string): string
    requires cells != []
  {
    CellCore(cells[0]) + (if |cells| == 1 then back else "|" + (cells[1].before + CellsText(cells[1..], back)))
  }

  /** Nothing, or a pipe and blanks. */
  predicate IsBack(s: string) {
    s == "" || (s[0] == '|' && IsBlank(s[1..]))
  }

  /** Nothing, or blanks and a pipe. */
  predicate IsFront(s: string) {
    s == "" || (s[|s| - 1] == '|' && IsBlank(s[..|s| - 1]))
  }

  predicate IsRow(s: string, front: string, cells: seq<Cell>, back: string) {
    && cells != [] && AllCells(cells) && IsFront(front) && IsBack(back)
    && s == front + (cells[0].before + CellsText(cells, back))
  }

  /** One or more cells, with pipes around them or not. */
  ghost predicate IsDelimiterRow(s: string) {
    exists front, cells, back :: IsRow(s, front, cells, back)
  }

  lemma DashRun(front: string, n: nat, more: string)
    requires more == "" || more[0] != '-'
    ensures var s := front + Dashes(n) + more; ClassEnd(s, |front|, |s|, IsDash) == |front| + n
  {
    var s := front + Dashes(n) + more;
    assert forall i :: |front| <= i < |front| + n ==> s[i] == Dashes(n)[i - |front|];
    ClassEndAt(s, |front|, |s|, IsDash, |front| + n);
  }

  lemma CellDashes(c: Cell, tail: string)
    requires c.dashes >= 1 && (tail == "" || (tail[0] != '-' && tail[0] != ':'))
    ensures |CellFront(c)| == (if c.left then 1 else 0) + c.dashes + (if c.right then 1 else 0)
    ensures var s := CellFront(c) + tail;
      var colon := if c.left then 1 else 0;
      && s != "" && (s[0] == ':' <==> c.left)
      && ClassEnd(s, colon, |s|, IsDash) == colon + c.dashes
      && (colon + c.dashes < |s| && s[colon + c.dashes] == ':' <==> c.right)
  {
    var l, d, r := if c.left then ":" else "", Dashes(c.dashes), if c.right then ":" else "";
    assert l + d + r + tail == l + d + (r + tail);
    DashRun(l, c.dashes, r + tail);
    hide ClassEnd;
  }

  lemma TailStarts(blanks: string, rest: string)
    requires IsBlank(blanks) && (rest == "" || rest[0] == '|')
    ensures var tail := blanks + rest; tail == "" || (tail[0] != '-' && tail[0] != ':')
    ensures NoIndent(rest)
  {
    BlankIsSpace(blanks);
    BlanksAre('|');
    if blanks != "" { assert IsSpace(blanks[0]); }
  }

  lemma SkipAt(s: string, k: nat, blanks: string, text: string)
    requires k <= |s| && s[k..] == blanks + text && IsBlank(blanks) && NoIndent(text)
    ensures SpaceEnd(s, k) == k + |blanks| <= |s| && s[k + |blanks|..] == text
  {
    assert s == s[..k] + blanks + text;
    SkipsBlanks(s[..k], blanks, text);
    hide SpaceEnd;
  }

  lemma Halves(front: string, tail: string)
    ensures (front + tail)[|front|..] == tail
  {}

  lemma CellEndIs(s: string, left: bool, n: nat, right: bool)
    requires n >= 1 && s != "" && (s[0] == ':' <==> left)
    requires var colon := if left then 1 else 0;
      ClassEnd(s, colon, |s|, IsDash) == colon + n && (colon + n < |s| && s[colon + n] == ':' <==> right)
    ensures CellEnd(s) == SpaceEnd(s, (if left then 1 else 0) + n + (if right then 1 else 0))
  {
    hide ClassEnd, SpaceEnd;
  }

  /** Where the first cell ends. */
  lemma CellEnds(c: Cell, rest: string)
    requires IsCell(c) && (rest == "" || rest[0] == '|')
    ensures var s := CellCore(c) + rest; CellEnd(s) == |CellCore(c)| > 0 && s[|CellCore(c)|..] == rest
  {
    hide IsSpace, IsBlank, ClassEnd, SpaceEnd, NoIndent, CellEnd, CellFront, IsCell;
    var front, tail := CellFront(c), c.after + rest;
    var s := front + tail;
    CellBlanks(c);
    TailStarts(c.after, rest);
    CellDashes(c, tail);
    Associative(front, c.after, rest);
    assert s == CellCore(c) + rest && |CellCore(c)| == |front| + |c.after|;
    Halves(front, tail);
    CellEndIs(s, c.left, c.dashes, c.right);
    hide CellCore;
    SkipAt(s, |front|, c.after, rest);
  }

  /** One cell on. */
  lemma DelimStep(c: Cell, rest: string)
    requires IsCell(c) && (rest == "" || rest[0] == '|')
    ensures var s := CellCore(c) + rest;
      var next := if rest == "" then |s| else SpaceEnd(s, |CellCore(c)| + 1);
      IsDelimFrom(s) <==> next == |s| || IsDelimFrom(s[next..])
  {
    hide SpaceEnd, CellEnd, CellCore, IsCell, IsDelimFrom;
    var s, n := CellCore(c) + rest, |CellCore(c)|;
    CellEnds(c, rest);
    DelimAt(s);
    assert rest != "" ==> s[n] == rest[0];
  }

  lemma DelimAt(s: string)
    ensures var after := CellEnd(s);
      IsDelimFrom(s) <==>
        after > 0 && (after == |s| || (s[after] == '|' &&
          var next := SpaceEnd(s, after + 1); next == |s| || IsDelimFrom(s[next..])))
  {
    hide CellEnd, SpaceEnd;
  }

  lemma CoreStarts(c: Cell, more: string)
    requires IsCell(c)
    ensures var s := CellCore(c) + more; s != "" && s[0] != '|' && NoIndent(s)
  {
    BlanksAre('-');
    BlanksAre(':');
    assert CellCore(c)[0] == ':' || CellCore(c)[0] == '-';
  }

  lemma CellsStart(cells: seq<Cell>, back: string)
    requires cells != [] && IsCell(cells[0])
    ensures var s := CellsText(cells, back); s != "" && s[0] != '|' && NoIndent(s)
  {
    CoreStarts(cells[0], if |cells| == 1 then back else "|" + (cells[1].before + CellsText(cells[1..], back)));
  }

  lemma BehindPipe(core: string, more: string)
    ensures (core + ("|" + more))[|core| + 1..] == more
  {}

  lemma {:induction false} CellsAccepted(cells: seq<Cell>, back: string)
    requires cells != [] && (forall i :: 0 <= i < |cells| ==> IsCell(cells[i])) && IsBack(back)
    ensures IsDelimFrom(CellsText(cells, back))
    decreases |cells|
  {
    hide SpaceEnd, IsBlank, IsCell, CellCore, IsDelimFrom, NoIndent;
    var c := cells[0];
    var core := CellCore(c);
    if |cells| == 1 {
      DelimStep(c, back);
      if back != "" {
        BackIs(back);
        BehindPipe(core, back[1..]);
        EmptyNoIndent();
        assert back[1..] + "" == back[1..];
        SkipAt(core + back, |core| + 1, back[1..], "");
      }
    } else {
      var next, more := cells[1], CellsText(cells[1..], back);
      var rest := "|" + (next.before + more);
      assert IsCell(next);
      DelimStep(c, rest);
      CellsAccepted(cells[1..], back);
      BehindPipe(core, next.before + more);
      CellsStart(cells[1..], back);
      CellBlanks(next);
      SkipAt(core + rest, |core| + 1, next.before, more);
    }
  }

  lemma BackIs(back: string)
    requires IsBack(back) && back != ""
    ensures back == "|" + back[1..] && IsBlank(back[1..])
  {}

  lemma EmptyNoIndent()
    ensures NoIndent("")
  {}

  lemma CellBlanks(c: Cell)
    requires IsCell(c)
    ensures IsBlank(c.before) && IsBlank(c.after) && c.dashes >= 1
  {}

  lemma RowPlain(s: string, before: string, more: string)
    requires s == before + more && IsBlank(before) && more != "" && more[0] != '|' && NoIndent(more)
    ensures IsDelim(s) <==> IsDelimFrom(more)
  {
    assert s[0..] == before + more;
    SkipAt(s, 0, before, more);
    assert s[|before|] == more[0];
    hide SpaceEnd, IsBlank, NoIndent, IsDelimFrom;
  }

  lemma AtPipe(b: string, more: string)
    ensures var s := b + ("|" + more); s[0..] == s && |s| > |b| && s[|b|] == '|' && s[|b| + 1..] == more
  {}

  lemma RowPiped(s: string, b: string, before: string, more: string)
    requires s == b + ("|" + (before + more)) && IsBlank(b) && IsBlank(before) && NoIndent(more)
    ensures IsDelim(s) <==> IsDelimFrom(more)
  {
    hide SpaceEnd, IsBlank, NoIndent, IsDelimFrom;
    AtPipe(b, before + more);
    PipeNoIndent(before + more);
    SkipAt(s, 0, b, "|" + (before + more));
    SkipAt(s, |b| + 1, before, more);
  }

  lemma RowAccepted(s: string, front: string, cells: seq<Cell>, back: string)
    requires IsRow(s, front, cells, back)
    ensures IsDelim(s)
  {
    var c, more := cells[0], CellsText(cells, back);
    CellsAccepted(cells, back);
    CellsStart(cells, back);
    CellBlanks(c);
    hide CellsText, IsDelimFrom, IsDelim, IsCell, IsBlank, NoIndent;
    if front == "" {
      assert s == c.before + more;
      RowPlain(s, c.before, more);
    } else {
      FrontIs(front);
      var b := front[..|front| - 1];
      Associative(b, "|", c.before + more);
      RowPiped(s, b, c.before, more);
    }
  }

  lemma FrontIs(front: string)
    requires IsFront(front) && front != ""
    ensures front == front[..|front| - 1] + "|" && IsBlank(front[..|front| - 1])
  {}

  lemma PipeNoIndent(more: string)
    ensures NoIndent("|" + more)
  {
    BlanksAre('|');
  }

  lemma CellParts(s: string) returns (colon: nat, d: nat, from: nat)
    requires CellEnd(s) > 0
    ensures colon <= 1 && colon < d <= from <= d + 1 && from <= CellEnd(s)
    ensures (colon == 1 ==> s[0] == ':') && (from > d ==> s[d] == ':')
    ensures forall i :: colon <= i < d ==> s[i] == '-'
    ensures IsBlank(s[from..CellEnd(s)])
  {
    colon := if s != "" && s[0] == ':' then 1 else 0;
    d := ClassEnd(s, colon, |s|, IsDash);
    from := if d < |s| && s[d] == ':' then d + 1 else d;
    BlankIsSpace(s[from..SpaceEnd(s, from)]);
    hide IsBlank;
  }

  /** The parts of the cell at the front. */
  lemma FirstCell(s: string) returns (c: Cell)
    requires CellEnd(s) > 0
    ensures IsCell(c) && c.before == "" && s == CellCore(c) + s[CellEnd(s)..]
  {
    hide CellEnd, IsBlank, Dashes;
    var colon, d, from := CellParts(s);
    var e := CellEnd(s);
    c := Cell("", colon == 1, d - colon, from > d, s[from..e]);
    EmptyIsBlank();
    AllDashes(s, colon, d);
    ColonSlices(s, colon, d, from);
    assert CellFront(c) == s[..colon] + s[colon..d] + s[d..from];
    hide CellFront;
    FourSlices(s, colon, d, from, e);
  }

  lemma EmptyIsBlank()
    ensures IsBlank("")
  {}

  lemma AllDashes(s: string, from: nat, to: nat)
    requires from <= to <= |s| && forall i :: from <= i < to ==> IsDash(s[i])
    ensures s[from..to] == Dashes(to - from)
  {}

  lemma ColonSlices(s: string, colon: nat, d: nat, from: nat)
    requires colon <= 1 && d <= from <= d + 1 && colon <= |s| && from <= |s|
    requires (colon == 1 ==> s[0] == ':') && (from > d ==> s[d] == ':')
    ensures s[..colon] == if colon == 1 then ":" else ""
    ensures s[d..from] == if from > d then ":" else ""
  {}

  lemma FourSlices(s: string, a: nat, b: nat, c: nat, d: nat)
    requires a <= b <= c <= d <= |s|
    ensures s == s[..a] + s[a..b] + s[b..c] + s[c..d] + s[d..]
  {}

  lemma SameCore(c: Cell, blanks: string)
    requires IsCell(c) && IsBlank(blanks)
    ensures IsCell(c.(before := blanks)) && CellCore(c.(before := blanks)) == CellCore(c)
  {}

  lemma SameCells(a: seq<Cell>, b: seq<Cell>, back: string)
    requires a != [] && b != [] && a[1..] == b[1..] && |a| == |b| && CellCore(a[0]) == CellCore(b[0])
    ensures CellsText(a, back) == CellsText(b, back)
  {
    assert |a| > 1 ==> a[1] == a[1..][0] && b[1] == b[1..][0];
  }

  predicate AllCells(cells: seq<Cell>) {
    forall i :: 0 <= i < |cells| ==> IsCell(cells[i])
  }

  /** Blanks in front of the first cell. */
  lemma Indented(cells: seq<Cell>, blanks: string, back: string) returns (r: seq<Cell>)
    requires cells != [] && AllCells(cells) && IsBlank(blanks)
    ensures r != [] && AllCells(r) && r[0].before == blanks && CellsText(r, back) == CellsText(cells, back)
  {
    SameCore(cells[0], blanks);
    r := [cells[0].(before := blanks)] + cells[1..];
    SameCells(r, cells, back);
    hide IsCell;
    assert forall i :: 1 <= i < |r| ==> r[i] == cells[i];
  }

  /** One more cell in front. */
  lemma OneMoreCell(c: Cell, cells: seq<Cell>, back: string) returns (r: seq<Cell>)
    requires IsCell(c) && cells != [] && AllCells(cells)
    ensures r != [] && AllCells(r) && r[0] == c
    ensures CellsText(r, back) == CellCore(c) + ("|" + (cells[0].before + CellsText(cells, back)))
  {
    hide IsCell, CellCore;
    r := [c] + cells;
    assert r[1..] == cells && r[1] == cells[0];
  }

  lemma {:induction false} CellsFound(s: string) returns (cells: seq<Cell>, back: string)
    requires IsDelimFrom(s)
    ensures cells != [] && AllCells(cells) && IsBack(back) && cells[0].before == "" && s == CellsText(cells, back)
    decreases |s|
  {
    var c := FirstCell(s);
    var after := CellEnd(s);
    hide CellEnd, IsCell, CellCore, AllCells;
    LoneCell(c);
    if after == |s| {
      cells, back := [c], "";
      assert s[after..] == "";
    } else {
      var next := SpaceEnd(s, after + 1);
      PipeAt(s, after, next);
      var blanks := s[after + 1..next];
      BlankIsSpace(blanks);
      hide SpaceEnd, IsBlank;
      if next == |s| {
        cells, back := [c], s[after..];
        assert back[1..] == blanks;
      } else {
        var more;
        more, back := CellsFound(s[next..]);
        more := Indented(more, blanks, back);
        cells := OneMoreCell(c, more, back);
      }
    }
  }

  lemma LoneCell(c: Cell)
    requires IsCell(c)
    ensures AllCells([c]) && forall back :: CellsText([c], back) == CellCore(c) + back
  {}

  lemma PipeAt(s: string, k: nat, next: nat)
    requires k < next <= |s| && s[k] == '|'
    ensures s[k..] == "|" + (s[k + 1..next] + s[next..]) && (next == |s| ==> s[k..][1..] == s[k + 1..next])
  {}

  /** The row under a table's header is recognised exactly when it is one. */
  lemma DelimIs(s: string)
    ensures IsDelim(s) <==> IsDelimiterRow(s)
  {
    hide IsDelim, IsRow;
    if IsDelim(s) { RowFound(s); }
    if IsDelimiterRow(s) {
      var front, cells, back :| IsRow(s, front, cells, back);
      RowAccepted(s, front, cells, back);
    }
  }

  lemma RowFound(s: string)
    requires IsDelim(s)
    ensures IsDelimiterRow(s)
  {
    var e := SpaceEnd(s, 0);
    BlankIsSpace(s[..e]);
    if e < |s| && s[e] == '|' {
      var first := SpaceEnd(s, e + 1);
      BlankIsSpace(s[e + 1..first]);
      hide SpaceEnd, IsDelimFrom, IsBlank;
      FrontFound(s, e, true);
      RowFrom(s, e + 1, first);
    } else {
      hide SpaceEnd, IsDelimFrom, IsBlank;
      FrontFound(s, e, false);
      assert s[0..e] == s[..e];
      RowFrom(s, 0, e);
    }
  }

  lemma RowFrom(s: string, from: nat, first: nat)
    requires from <= first <= |s| && IsFront(s[..from]) && IsBlank(s[from..first]) && IsDelimFrom(s[first..])
    ensures IsDelimiterRow(s)
  {
    hide IsDelimFrom, IsBlank, IsFront, CellsText, IsBack, AllCells;
    var cells, back := CellsFound(s[first..]);
    cells := Indented(cells, s[from..first], back);
    Rejoin(s, from, first);
    assert IsRow(s, s[..from], cells, back);
  }

  lemma Rejoin(s: string, from: nat, first: nat)
    requires from <= first <= |s|
    ensures s == s[..from] + (s[from..first] + s[first..])
  {}

  lemma FrontFound(s: string, e: nat, piped: bool)
    requires e <= |s| && IsBlank(s[..e]) && (piped ==> e < |s| && s[e] == '|')
    ensures IsFront(s[..if piped then e + 1 else 0])
  {
    if piped { assert s[..e + 1][..e] == s[..e]; }
  }
}
