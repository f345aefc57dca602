/** What `renderBlocks` makes of each kind of block, from the text of its lines to its HTML. What
    follows a block is always rendered as if it stood alone. */
module BlockLaws {
  import opened Basics
  import opened Blocks
  import opened BlockForms
  import opened Html
  import opened Scan
  import opened Tables
  import T = TableLaws

  // ----- Which block a line opens -----

  /** Three backticks and a language, perhaps none, and blanks. */
  ghost predicate IsFenceOf(line: string, lang: string) {
    exists blanks :: FenceOf(line, lang, blanks)
  }

  predicate FenceOf(line: string, lang: string, blanks: string) {
    IsLang(lang) && IsBlank(blanks) && line == "```" + lang + blanks
  }

  ghost predicate IsClosing(line: string) {
    exists blanks :: IsBlank(blanks) && line == "```" + blanks
  }

  ghost predicate OpensNoFence(line: string) {
    forall lang :: !IsFenceOf(line, lang)
  }

  ghost predicate OpensNoQuote(line: string) {
    forall inner :: !IsQuoteOf(line, inner)
  }

  /** A line with a pipe over a delimiter row. */
  ghost predicate OpensTable(lines: seq<string>) {
    |lines| > 1 && '|' in lines[0] && IsDelimiterRow(Escape(lines[1]))
  }

  lemma FenceIs(line: string)
    ensures OpensFence(line) <==> !OpensNoFence(line)
    ensures ClosesFence(line) <==> IsClosing(line)
  {
    Closes(line);
    if OpensFence(line) {
      OpensOnly(line);
      var lang, blanks :| IsLang(lang) && IsBlank(blanks) && line == "```" + lang + blanks;
      assert FenceOf(line, lang, blanks);
      assert IsFenceOf(line, lang);
    }
    if !OpensNoFence(line) {
      var lang :| IsFenceOf(line, lang);
      var blanks :| FenceOf(line, lang, blanks);
      Opens(lang, blanks);
    }
  }

  lemma LangIs(line: string, lang: string)
    requires IsFenceOf(line, lang)
    ensures OpensFence(line) && |line| >= 3 && line[3..ClassEnd(line, 3, |line|, IsLangChar)] == lang
  {
    hide OpensFence, ClassEnd, IsLang, IsBlank;
    var blanks :| FenceOf(line, lang, blanks);
    Opens(lang, blanks);
    Amid("```", lang, blanks);
  }

  lemma Amid(a: string, b: string, c: string)
    ensures (a + b + c)[|a|..|a| + |b|] == b && |a + b + c| >= |a|
  {}

  lemma NoQuoteIs(line: string)
    ensures IsQuote(line) <==> !OpensNoQuote(line)
  {
    hide IsQuote, StripQuote;
    if IsQuote(line) { QuoteIs(line, StripQuote(line)); }
    if !OpensNoQuote(line) {
      var inner :| IsQuoteOf(line, inner);
      QuoteIs(line, inner);
    }
  }

  lemma TableIs(lines: seq<string>)
    ensures OpensTable(lines) <==> |lines| > 1 && IsTableRow(lines[0]) && IsDelim(EscapeHtml(lines[1]))
  {
    hide IsDelim, IsDelimiterRow, EscapeHtml, Escape;
    if |lines| > 1 {
      EscapeHtmlIsEscape(lines[1]);
      DelimIs(Escape(lines[1]));
    }
  }

  // ----- Code -----

  function CodeBlock(f: Formatter, lang: string, code: seq<string>): string {
    "<div class=\"code-block-wrap\"" + (if lang == "" then "" else " data-lang=\"" + lang + "\"")
    + "><pre class=\"code-block\"><code>" + f.highlight(Join(code, "\n"), lang) + "</code></pre></div>"
  }

  ghost predicate NoneCloses(code: seq<string>) {
    forall i :: 0 <= i < |code| ==> !IsClosing(code[i])
  }

  lemma {:induction false} RunAt(lines: seq<string>, k: nat, p: string -> bool, j: nat)
    requires k <= j <= |lines| && (j < |lines| ==> !p(lines[j])) && forall i :: k <= i < j ==> p(lines[i])
    ensures RunOfLines(lines, k, p) == j
    decreases j - k
  {
    if k < j { RunAt(lines, k + 1, p, j); }
  }

  lemma LangEscapes(lang: string)
    requires IsLang(lang)
    ensures EscapeHtml(ToLower(lang)) == ToLower(lang)
  {
    forall i | 0 <= i < |lang| ensures IsLangChar(lang[i]) {
      assert lang[i] in lang;
      LangCharsAre(lang[i]);
    }
    var low := ToLower(lang);
    assert forall i :: 0 <= i < |low| ==> IsLangChar(low[i]);
    NothingEscapes(low);
    EscapeHtmlIsEscape(low);
  }

  lemma CodeRun(opening: string, code: seq<string>, rest: seq<string>)
    requires NoneCloses(code) && (rest == [] || IsClosing(rest[0]))
    ensures RunOfLines([opening] + (code + rest), 1, StaysInFence) == 1 + |code|
  {
    hide IsClosing, ClosesFence;
    var lines := [opening] + (code + rest);
    forall i | 1 <= i < 1 + |code| ensures StaysInFence(lines[i]) {
      assert lines[i] == code[i - 1];
      FenceIs(lines[i]);
    }
    if rest != [] {
      assert lines[1 + |code|] == rest[0];
      FenceIs(rest[0]);
    }
    RunAt(lines, 1, StaysInFence, 1 + |code|);
  }

  lemma CodeHtml(f: Formatter, opening: string, lang: string, code: seq<string>, rest: seq<string>)
    requires IsFenceOf(opening, lang) && IsLang(lang)
    requires RunOfLines([opening] + (code + rest), 1, StaysInFence) == 1 + |code|
    ensures OpensFence(opening) && FenceHtml(f, [opening] + (code + rest)) == CodeBlock(f, ToLower(lang), code)
  {
    var lines := [opening] + (code + rest);
    LangIs(opening, lang);
    LangEscapes(lang);
    assert lines[1..1 + |code|] == code;
    hide EscapeHtml, ToLower, IsFenceOf, OpensFence, ClassEnd, RunOfLines;
  }

  /** A code block: a line of three backticks with a language, any lines none of which is three
      backticks and blanks, and such a line. It holds exactly the lines between, highlighted. */
  lemma FencedBlock(f: Formatter, opening: string, lang: string, code: seq<string>, closing: string, rest: seq<string>)
    requires IsFenceOf(opening, lang) && NoneCloses(code) && IsClosing(closing)
    ensures BlockHtmls(f, [opening] + (code + ([closing] + rest)))
         == [CodeBlock(f, ToLower(lang), code)] + BlockHtmls(f, rest)
  {
    var lines := [opening] + (code + ([closing] + rest));
    CodeRun(opening, code, [closing] + rest);
    CodeHtml(f, opening, lang, code, [closing] + rest);
    hide CodeBlock, FenceHtml, OpensFence, RunOfLines, IsFenceOf, IsClosing, NoneCloses;
    var n := |code| + 2;
    assert KindOf(lines) == Fence && BlockLength(lines) == n;
    FenceSame(f, lines, n);
    assert lines[n..] == rest;
  }

  /** Without such a line it goes on to the end. */
  lemma OpenFencedBlock(f: Formatter, opening: string, lang: string, code: seq<string>)
    requires IsFenceOf(opening, lang) && NoneCloses(code)
    ensures BlockHtmls(f, [opening] + code) == [CodeBlock(f, ToLower(lang), code)]
  {
    assert code + [] == code;
    var lines := [opening] + code;
    CodeRun(opening, code, []);
    CodeHtml(f, opening, lang, code, []);
    hide CodeBlock, FenceHtml, OpensFence, RunOfLines, IsFenceOf, NoneCloses;
    assert KindOf(lines) == Fence && BlockLength(lines) == |lines|;
    FenceSame(f, lines, |lines|);
    assert lines[|lines|..] == [];
    NoLines(f);
  }

  // ----- Headers, lists, tables, plain lines, quotes -----

  /** A line that starts with such a character opens neither a fence nor a quote. */
  lemma StartsPlain(line: string)
    requires line != "" && line[0] in {'#', '*', '-'}
    ensures !OpensFence(line) && !IsQuote(line)
  {
    if OpensFence(line) { StartsSame(line, FENCE, 0); }
    assert !IsSpace(line[0]);
    assert SpaceEnd(line, 0) == 0;
  }

  lemma HeaderStarts(line: string, level: nat, text: string)
    requires IsHeaderOf(line, level, text)
    ensures line != "" && line[0] == '#' && 1 <= level <= 3
  {
    var blanks, more :| HeaderOf(line, level, blanks, text, more);
    assert line[0] == "###"[..level][0];
  }

  /** A header of one, two or three number signs is an h3, h4 or h5 of its text, unless it is the
      first row of a table. */
  lemma HeaderBlock(f: Formatter, line: string, level: nat, text: string, rest: seq<string>)
    requires IsHeaderOf(line, level, text) && !OpensTable([line] + rest)
    ensures BlockHtmls(f, [line] + rest) ==
      [(if level == 1 then "<h3>" else if level == 2 then "<h4>" else "<h5>") + f.inline(Escape(text))
       + (if level == 1 then "</h3>" else if level == 2 then "</h4>" else "</h5>")] + BlockHtmls(f, rest)
  {
    hide IsHeaderOf, OpensTable, HeaderLevel, HeaderText, OpensFence, IsQuote, IsDelim, Escape, EscapeHtml;
    var lines := [line] + rest;
    HeaderIs(line, level, text);
    HeaderStarts(line, level, text);
    StartsPlain(line);
    TableIs(lines);
    EscapeHtmlIsEscape(text);
    assert KindOf(lines) == Header;
    assert lines[1..] == rest;
    assert "<" + "h3" + ">" == "<h3>" && "</" + "h3" + ">" == "</h3>";
    assert "<" + "h4" + ">" == "<h4>" && "</" + "h4" + ">" == "</h4>";
    assert "<" + "h5" + ">" == "<h5>" && "</" + "h5" + ">" == "</h5>";
    Tagged(f, line, level, text);
  }

  lemma Tagged(f: Formatter, line: string, level: nat, text: string)
    requires HeaderLevel(line) == level && 1 <= level <= 3 && HeaderText(line) == text
    ensures HeaderHtml(f, line) ==
      (if level == 1 then "<h3>" else if level == 2 then "<h4>" else "<h5>") + f.inline(EscapeHtml(text))
      + (if level == 1 then "</h3>" else if level == 2 then "</h4>" else "</h5>")
  {
    hide HeaderLevel, HeaderText, EscapeHtml;
    assert "<" + "h3" + ">" == "<h3>" && "</" + "h3" + ">" == "</h3>";
    assert "<" + "h4" + ">" == "<h4>" && "</" + "h4" + ">" == "</h4>";
    assert "<" + "h5" + ">" == "<h5>" && "</" + "h5" + ">" == "</h5>";
  }

  /** The items of a list, one for each text. */
  function Items(f: Formatter, texts: seq<string>): string {
    if texts == [] then "" else "<li>" + f.inline(Escape(texts[0])) + "</li>" + Items(f, texts[1..])
  }

  ghost predicate AreItems(lines: seq<string>, texts: seq<string>) {
    |lines| == |texts| && forall i :: 0 <= i < |lines| ==> IsItemOf(lines[i], texts[i])
  }

  ghost predicate IsNoItem(line: string) {
    forall text :: !IsItemOf(line, text)
  }

  lemma NoItemIs(line: string)
    ensures IsListItem(line) <==> !IsNoItem(line)
  {
    hide IsItemOf;
    if IsListItem(line) { ItemIs(line, ItemText(line)); }
    if !IsNoItem(line) {
      var text :| IsItemOf(line, text);
      ItemIs(line, text);
    }
  }

  lemma {:induction false} ItemsAre(f: Formatter, lines: seq<string>, texts: seq<string>)
    requires AreItems(lines, texts)
    ensures forall i :: 0 <= i < |lines| ==> IsListItem(lines[i])
    ensures ItemsHtml(f, lines) == Items(f, texts)
  {
    hide IsItemOf, IsListItem, ItemText, Escape, EscapeHtml;
    forall i | 0 <= i < |lines| ensures IsListItem(lines[i]) {
      ItemIs(lines[i], texts[i]);
    }
    if lines != [] {
      ItemIs(lines[0], texts[0]);
      ItemsAre(f, lines[1..], texts[1..]);
      EscapeHtmlIsEscape(texts[0]);
    }
  }

  /** Lines that start with a star or a dash and a blank are one list, an item for each. */
  lemma ListBlock(f: Formatter, items: seq<string>, texts: seq<string>, rest: seq<string>)
    requires items != [] && AreItems(items, texts) && !OpensTable(items + rest)
    requires rest == [] || IsNoItem(rest[0])
    ensures BlockHtmls(f, items + rest) == ["<ul>" + Items(f, texts) + "</ul>"] + BlockHtmls(f, rest)
  {
    hide IsListItem, OpensTable, HeaderLevel, OpensFence, IsQuote, IsDelim, EscapeHtml, ItemsHtml, Items, AreItems;
    var lines, n := items + rest, |items|;
    ItemsAre(f, items, texts);
    assert forall i :: 0 <= i < n ==> lines[i] == items[i];
    assert rest != [] ==> lines[n] == rest[0];
    if rest != [] { NoItemIs(rest[0]); }
    ItemStarts(lines[0]);
    StartsPlain(lines[0]);
    TableIs(lines);
    RunAt(lines, 0, IsListItem, n);
    assert KindOf(lines) == List && BlockLength(lines) == n;
    assert lines[..n] == items && lines[n..] == rest;
  }

  lemma ItemStarts(line: string)
    requires IsListItem(line)
    ensures line != "" && line[0] in {'#', '*', '-'} && HeaderLevel(line) == 0
  {
    assert ClassEnd(line, 0, 3, IsHash) == 0;
  }

  /** A row of a table's body: a pipe, and neither a fence nor a quote. */
  ghost predicate IsBodyRow(line: string) {
    '|' in line && OpensNoFence(line) && OpensNoQuote(line)
  }

  lemma BodyRowIs(line: string)
    ensures IsTableBody(line) <==> IsBodyRow(line)
  {
    hide OpensFence, IsQuote, OpensNoFence, OpensNoQuote;
    FenceIs(line);
    NoQuoteIs(line);
  }

  lemma BodyRun(header: string, delimiter: string, body: seq<string>, rest: seq<string>)
    requires (forall i :: 0 <= i < |body| ==> IsBodyRow(body[i])) && (rest == [] || !IsBodyRow(rest[0]))
    ensures RunOfLines([header, delimiter] + (body + rest), 2, IsTableBody) == 2 + |body|
  {
    hide IsBodyRow, IsTableBody;
    var lines, n := [header, delimiter] + (body + rest), 2 + |body|;
    forall i | 2 <= i < n ensures IsTableBody(lines[i]) {
      assert lines[i] == body[i - 2];
      BodyRowIs(body[i - 2]);
    }
    if rest != [] {
      assert lines[n] == rest[0];
      BodyRowIs(rest[0]);
    }
    RunAt(lines, 2, IsTableBody, n);
  }

  /** The cells of each row, and the alignment of each column. */
  function CellsOfEach(rows: seq<string>): (r: seq<seq<string>>)
    ensures |r| == |rows| && forall i :: 0 <= i < |rows| ==> r[i] == CellsOf(Escape(rows[i]))
  {
    if rows == [] then [] else [CellsOf(Escape(rows[0]))] + CellsOfEach(rows[1..])
  }

  lemma {:induction false} CellsAt(rows: seq<string>)
    ensures |CellsOfAll(rows)| == |rows|
    ensures forall i :: 0 <= i < |rows| ==> CellsOfAll(rows)[i] == CellsOf(EscapeHtml(rows[i]))
  {
    hide CellsOf, EscapeHtml;
    if rows != [] {
      var init := rows[..|rows| - 1];
      CellsAt(init);
      assert forall i :: 0 <= i < |rows| - 1 ==> rows[i] == init[i];
    }
  }

  lemma CellsAre(rows: seq<string>)
    ensures CellsOfAll(rows) == CellsOfEach(rows)
  {
    hide CellsOf, EscapeHtml, Escape;
    CellsAt(rows);
    forall i | 0 <= i < |rows| ensures CellsOfAll(rows)[i] == CellsOfEach(rows)[i] {
      EscapeHtmlIsEscape(rows[i]);
    }
  }

  /** A row with a pipe over a delimiter row, and the rows that follow, are one table. */
  lemma TableBlock(f: Formatter, header: string, delimiter: string, body: seq<string>, rest: seq<string>)
    requires '|' in header && OpensNoFence(header) && OpensNoQuote(header) && IsDelimiterRow(Escape(delimiter))
    requires (forall i :: 0 <= i < |body| ==> IsBodyRow(body[i])) && (rest == [] || !IsBodyRow(rest[0]))
    ensures BlockHtmls(f, [header, delimiter] + (body + rest))
         == [T.Table(f.inline, CellsOf(Escape(header)), Aligns(CellsOf(Escape(delimiter))), CellsOfEach(body))]
            + BlockHtmls(f, rest)
  {
    TableLinesAre(f, header, delimiter, body);
    hide OpensFence, IsQuote, OpensNoFence, OpensNoQuote, IsDelim, EscapeHtml, Escape, IsBodyRow, IsTableBody;
    hide OpensTable, IsDelimiterRow, KindOf, BlockLength, RunOfLines, BlockHtmls, TableLinesHtml, CellsOf, Aligns;
    hide T.Table, CellsOfEach;
    var lines := [header, delimiter] + (body + rest);
    FenceIs(header);
    NoQuoteIs(header);
    UnderHeader(lines, header, delimiter);
    TableIs(lines);
    BodyRun(header, delimiter, body, rest);
    TableKind(lines);
    Cut([header, delimiter], body, rest);
    FirstIsTable(f, lines, [header, delimiter] + body, rest);
  }

  lemma TableLinesAre(f: Formatter, header: string, delimiter: string, body: seq<string>)
    ensures TableLinesHtml(f, [header, delimiter] + body)
         == T.Table(f.inline, CellsOf(Escape(header)), Aligns(CellsOf(Escape(delimiter))), CellsOfEach(body))
  {
    hide CellsOf, EscapeHtml, Escape, TableHtml, T.Table, Aligns;
    EscapeHtmlIsEscape(header);
    EscapeHtmlIsEscape(delimiter);
    CellsAre(body);
    assert ([header, delimiter] + body)[2..] == body;
    T.TableIs(f.inline, CellsOf(Escape(header)), Aligns(CellsOf(Escape(delimiter))), CellsOfEach(body));
  }

  lemma UnderHeader(lines: seq<string>, header: string, delimiter: string)
    requires |lines| > 1 && lines[0] == header && lines[1] == delimiter
    requires '|' in header && IsDelimiterRow(Escape(delimiter))
    ensures OpensTable(lines)
  {}

  lemma TableKind(lines: seq<string>)
    requires |lines| > 1 && !OpensFence(lines[0]) && !IsQuote(lines[0])
    requires IsTableRow(lines[0]) && IsDelim(EscapeHtml(lines[1]))
    ensures KindOf(lines) == Table && BlockLength(lines) == RunOfLines(lines, 2, IsTableBody)
  {
    hide OpensFence, IsQuote, IsTableRow, IsDelim, EscapeHtml, RunOfLines;
  }

  lemma Cut(a: seq<string>, b: seq<string>, c: seq<string>)
    ensures var all := a + (b + c); all[..|a| + |b|] == a + b && all[|a| + |b|..] == c
  {}

  lemma FirstIsTable(f: Formatter, lines: seq<string>, table: seq<string>, rest: seq<string>)
    requires lines != [] && KindOf(lines) == Table && BlockLength(lines) == |table| && |table| > 1
    requires lines[..|table|] == table && lines[|table|..] == rest
    ensures BlockHtmls(f, lines) == [TableLinesHtml(f, table)] + BlockHtmls(f, rest)
  {
    hide KindOf, BlockLength, TableLinesHtml;
  }

  /** Any other line is inline text. */
  lemma InlineBlock(f: Formatter, line: string, rest: seq<string>)
    requires OpensNoFence(line) && OpensNoQuote(line) && !OpensTable([line] + rest) && IsNoItem(line)
    requires forall level, text :: !IsHeaderOf(line, level, text)
    ensures BlockHtmls(f, [line] + rest) == [f.inline(Escape(line))] + BlockHtmls(f, rest)
  {
    hide OpensFence, IsQuote, OpensNoFence, OpensNoQuote, IsDelim, EscapeHtml, Escape, IsListItem, IsNoItem, OpensTable;
    hide HeaderLevel, HeaderText, IsHeaderOf;
    var lines := [line] + rest;
    FenceIs(line);
    NoQuoteIs(line);
    TableIs(lines);
    NoItemIs(line);
    HeaderIs(line, HeaderLevel(line), HeaderText(line));
    EscapeHtmlIsEscape(line);
    assert KindOf(lines) == Kind.Inline;
    assert lines[1..] == rest;
  }

  /** Quoted lines, in any of the ways a line is quoted, are one block around the rendering of the
      lines they quote. */
  lemma QuoteBlock(f: Formatter, lines: seq<string>, inner: seq<string>, rest: seq<string>)
    requires lines != [] && |inner| == |lines| && forall i :: 0 <= i < |lines| ==> IsQuoteOf(lines[i], inner[i])
    requires rest == [] || OpensNoQuote(rest[0])
    ensures BlockHtmls(f, lines + rest) == ["<blockquote>" + Render(f, inner) + "</blockquote>"] + BlockHtmls(f, rest)
  {
    hide OpensFence, IsQuote, StripQuote, OpensNoQuote, IsQuoteOf, Render;
    var all, n := lines + rest, |lines|;
    forall i | 0 <= i < n ensures IsQuote(all[i]) && StripQuote(all[i]) == inner[i] {
      assert all[i] == lines[i];
      QuoteIs(lines[i], inner[i]);
    }
    if rest != [] {
      assert all[n] == rest[0];
      NoQuoteIs(rest[0]);
    }
    if OpensFence(all[0]) { FenceNoQuote(all[0]); }
    RunAt(all, 0, IsQuote, n);
    assert KindOf(all) == Quote && BlockLength(all) == n;
    assert all[..n] == lines && all[n..] == rest;
    assert StripAll(all[..n]) == inner;
  }

  lemma FenceNoQuote(line: string)
    requires OpensFence(line)
    ensures !IsQuote(line)
  {
    StartsSame(line, FENCE, 0);
    assert !IsSpace(line[0]);
    assert SpaceEnd(line, 0) == 0;
  }

  // ----- The pieces put together -----

  /** The tags that need no line break next to them. */
  predicate IsBlockHtml(s: string) {
    || "<blockquote" <= s || "<table" <= s || "<ul" <= s || "<pre" <= s
    || "<h1" <= s || "<h2" <= s || "<h3" <= s || "<h4" <= s || "<h5" <= s || "<h6" <= s
  }

  lemma BlockHtmlIs(s: string)
    ensures IsBlock(s) <==> IsBlockHtml(s)
  {
    var digits := "123456";
    if |s| >= 3 && s[0] == '<' && s[1] == 'h' && '1' <= s[2] <= '6' {
      assert s[..3] == ['<', 'h', s[2]];
    }
    assert forall p: string :: p <= s <==> StartsWith(s, p);
  }

  lemma AssembleFirst(a: seq<string>)
    requires |a| > 1
    ensures Assemble(a) == a[0] + Separator(a[0], a[1]) + Assemble(a[1..])
  {}

  lemma AssembleOne(x: string, b: seq<string>)
    requires b != []
    ensures Assemble([x] + b) == x + Separator(x, b[0]) + Assemble(b) && Assemble([x]) == x
  {
    AssembleFirst([x] + b);
    assert ([x] + b)[1..] == b;
  }

  lemma SeparatorIs(x: string, y: string)
    ensures Separator(x, y) == if IsBlockHtml(x) || IsBlockHtml(y) then "" else "<br>"
  {
    hide IsBlock, IsBlockHtml;
    BlockHtmlIs(x);
    BlockHtmlIs(y);
  }

  /** Two runs of pieces: a line break between them, unless the last of the one or the first of
      the other is such a tag. */
  lemma {:induction false} PiecesJoined(a: seq<string>, b: seq<string>)
    requires a != [] && b != []
    ensures Assemble(a + b) ==
      Assemble(a) + (if IsBlockHtml(a[|a| - 1]) || IsBlockHtml(b[0]) then "" else "<br>") + Assemble(b)
    ensures |a| == 1 ==> Assemble(a) == a[0]
  {
    hide IsBlockHtml, Separator, Assemble;
    SeparatorIs(a[|a| - 1], b[0]);
    if |a| == 1 {
      assert a == [a[0]];
      AssembleOne(a[0], b);
    } else {
      assert a == [a[0]] + a[1..] && a + b == [a[0]] + (a[1..] + b);
      AssembleOne(a[0], a[1..] + b);
      AssembleOne(a[0], a[1..]);
      PiecesJoined(a[1..], b);
      var lead, mid := a[0] + Separator(a[0], a[1]), Separator(a[|a| - 1], b[0]);
      Associative(lead, Assemble(a[1..]) + mid, Assemble(b));
      Associative(lead, Assemble(a[1..]), mid);
    }
  }

  /** A rendered message is the pieces of its blocks put together, and the empty text nothing. */
  lemma RendersPieces(f: Formatter, lines: seq<string>)
    requires lines != [] && forall l <- lines :: '\n' !in l
    ensures FormatMessage(f, Join(lines, "\n")) == Assemble(BlockHtmls(f, lines))
  {
    hide BlockHtmls, Assemble;
    SplitUndoesJoin(lines);
    RenderIs(f, lines);
  }

  /** A forwarded message, written out: a line that says so, and the original's lines quoted. */
  lemma ForwardsWritten(f: Formatter, lines: seq<string>)
    requires lines != [] && forall l <- lines :: '\n' !in l
    ensures ForwardBody(Join(lines, "\n")) == "*Forwarded:*" + "\n" + Join(Quoted(lines), "\n")
    ensures FormatMessage(f, ForwardBody(Join(lines, "\n")))
         == f.inline("*Forwarded:*") + ("<blockquote>" + FormatMessage(f, Join(lines, "\n")) + "</blockquote>")
  {
    hide Join, Quoted, FormatMessage;
    SplitUndoesJoin(lines);
    ForwardRendersOriginal(f, Join(lines, "\n"));
    ForwardedEscapes();
  }

  lemma ForwardedEscapes()
    ensures EscapeHtml("*Forwarded:*") == "*Forwarded:*"
  {
    hide Escape, EscapeHtml;
    TameText();
    EscapeHtmlIsEscape("*Forwarded:*");
    NothingEscapes("*Forwarded:*");
  }

  lemma TameText()
    ensures var s := "*Forwarded:*"; forall i :: 0 <= i < |s| ==> s[i] == '*' || s[i] == ':' || 'A' <= s[i] <= 'z'
  {}
}
