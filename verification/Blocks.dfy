/** `renderBlocks` of web/static/format.js, and `forwardBody` of web/static/forward.js. */
module Blocks {
  import opened Basics
  import opened Html
  import opened Scan
  import opened Tables

  /** The parts of the renderer below block level: inline text and code highlighting. */
  datatype Formatter = Formatter(inline: string -> string, highlight: (string, string) -> string)

  // ----- Recognising a line -----

  function SpaceEnd(s: string, k: nat): (e: nat)
    requires k <= |s|
    ensures k <= e <= |s|
    ensures forall i :: k <= i < e ==> IsSpace(s[i])
    ensures e < |s| ==> !IsSpace(s[e])
    decreases |s| - k
  {
    if k == |s| || !IsSpace(s[k]) then k else SpaceEnd(s, k + 1)
  }

  /** QUOTE_RE. */
  predicate IsQuote(line: string) {
    var e := SpaceEnd(line, 0);
    e < |line| && line[e] == '>'
  }

  /** QUOTE_STRIP: one level, and at most one blank after it. */
  function StripQuote(line: string): (inner: string)
    requires IsQuote(line)
    ensures |inner| < |line|
  {
    var e := SpaceEnd(line, 0) + 1;
    if e < |line| && IsSpace(line[e]) then line[e + 1..] else line[e..]
  }

  predicate IsTableRow(line: string) {
    '|' in line
  }

  predicate IsDash(c: char) {
    c == '-'
  }

  predicate IsHash(c: char) {
    c == '#'
  }

  /** The end of the cell of TABLE_DELIM_RE at the front, blanks behind it included: `:?-+:?`;
      0 when there is none. */
  function CellEnd(s: string): (e: nat)
    ensures e <= |s|
  {
    var colon := if s != "" && s[0] == ':' then 1 else 0;
    var dashes := ClassEnd(s, colon, |s|, IsDash);
    if dashes == colon then 0
    else SpaceEnd(s, if dashes < |s| && s[dashes] == ':' then dashes + 1 else dashes)
  }

  /** The cells, from the first, separated by pipes. */
  predicate IsDelimFrom(s: string)
    decreases |s|
  {
    var after := CellEnd(s);
    after > 0 &&
    (after == |s| || (s[after] == '|' &&
      var next := SpaceEnd(s, after + 1);
      next == |s| || IsDelimFrom(s[next..])))
  }

  /** TABLE_DELIM_RE. */
  predicate IsDelim(s: string) {
    var e := SpaceEnd(s, 0);
    var first := if e < |s| && s[e] == '|' then SpaceEnd(s, e + 1) else e;
    IsDelimFrom(s[first..])
  }

  /** The level of a header line, or 0: one to three `#`, then white space. */
  function HeaderLevel(line: string): (n: nat)
    ensures n <= 3 && n <= |line|
  {
    var n := ClassEnd(line, 0, 3, IsHash);
    if n > 0 && n < |line| && IsSpace(line[n]) then n else 0
  }

  /** `(.*)` after the white space: up to a line terminator. */
  function HeaderText(line: string): string {
    var from := SpaceEnd(line, HeaderLevel(line));
    line[from..RunEnd(line, from, {'\n', '\r', '\U{2028}', '\U{2029}'})]
  }

  predicate IsListItem(line: string) {
    |line| >= 2 && (line[0] == '*' || line[0] == '-') && IsSpace(line[1])
  }

  function ItemText(line: string): string
    requires IsListItem(line)
  {
    line[SpaceEnd(line, 1)..]
  }

  // ----- Where a block ends -----

  datatype Kind = Fence | Quote | Table | Header | List | Inline

  /** The branch `renderBlocks` takes at the front of these lines. */
  function KindOf(lines: seq<string>): Kind
    requires lines != []
  {
    if OpensFence(lines[0]) then Fence
    else if IsQuote(lines[0]) then Quote
    else if |lines| > 1 && IsTableRow(lines[0]) && IsDelim(EscapeHtml(lines[1])) then Table
    else if HeaderLevel(lines[0]) > 0 then Header
    else if IsListItem(lines[0]) then List
    else Inline
  }

  predicate IsTableBody(line: string) {
    IsTableRow(line) && !OpensFence(line) && !IsQuote(line)
  }

  /** How many lines from k on satisfy p. */
  function RunOfLines(lines: seq<string>, k: nat, p: string -> bool): (j: nat)
    requires k <= |lines|
    ensures k <= j <= |lines|
    ensures forall i :: k <= i < j ==> p(lines[i])
    ensures j < |lines| ==> !p(lines[j])
    decreases |lines| - k
  {
    if k == |lines| || !p(lines[k]) then k else RunOfLines(lines, k + 1, p)
  }

  predicate StaysInFence(line: string) {
    !ClosesFence(line)
  }

  /** How many lines the block at the front takes. */
  function BlockLength(lines: seq<string>): (n: nat)
    requires lines != []
    ensures 0 < n <= |lines|
    ensures KindOf(lines) == Quote ==> forall i :: 0 <= i < n ==> IsQuote(lines[i])
    ensures KindOf(lines) == List ==> forall i :: 0 <= i < n ==> IsListItem(lines[i])
  {
    match KindOf(lines)
    case Fence => var j := RunOfLines(lines, 1, StaysInFence); if j < |lines| then j + 1 else j
    case Quote => RunOfLines(lines, 0, IsQuote)
    case Table => RunOfLines(lines, 2, IsTableBody)
    case List => RunOfLines(lines, 0, IsListItem)
    case _ => 1
  }

  // ----- Rendering -----

  function Weight(lines: seq<string>): nat {
    if lines == [] then 0 else |lines[0]| + 1 + Weight(lines[1..])
  }

  function StripAll(lines: seq<string>): (inner: seq<string>)
    requires forall i :: 0 <= i < |lines| ==> IsQuote(lines[i])
    ensures |inner| == |lines| && forall i :: 0 <= i < |inner| ==> inner[i] == StripQuote(lines[i])
  {
    seq(|lines|, i requires 0 <= i < |lines| => StripQuote(lines[i]))
  }

  lemma {:induction false} StrippedIsLighter(lines: seq<string>)
    requires forall i :: 0 <= i < |lines| ==> IsQuote(lines[i])
    ensures Weight(StripAll(lines)) <= Weight(lines)
    ensures lines != [] ==> Weight(StripAll(lines)) < Weight(lines)
  {
    if lines != [] {
      StrippedIsLighter(lines[1..]);
      assert StripAll(lines)[1..] == StripAll(lines[1..]);
    }
  }

  lemma {:induction false} WeightSplits(lines: seq<string>, n: nat)
    requires n <= |lines|
    ensures Weight(lines) == Weight(lines[..n]) + Weight(lines[n..])
    ensures n < |lines| ==> Weight(lines[n..]) > 0
  {
    if n > 0 {
      WeightSplits(lines[1..], n - 1);
      assert lines[..n][1..] == lines[1..][..n - 1] && lines[n..] == lines[1..][n - 1..];
    } else {
      assert lines[..0] == [] && lines[0..] == lines;
    }
  }

  function FenceHtml(f: Formatter, lines: seq<string>): string
    requires lines != [] && OpensFence(lines[0])
  {
    var lang := ToLower(lines[0][3..ClassEnd(lines[0], 3, |lines[0]|, IsLangChar)]);
    var code := lines[1..RunOfLines(lines, 1, StaysInFence)];
    "<div class=\"code-block-wrap\"" + (if lang == "" then "" else " data-lang=\"" + EscapeHtml(lang) + "\"")
    + "><pre class=\"code-block\"><code>" + f.highlight(Join(code, "\n"), lang) + "</code></pre></div>"
  }

  function InlineHtml(f: Formatter, s: string): string {
    f.inline(EscapeHtml(s))
  }

  function HeaderHtml(f: Formatter, line: string): string {
    var tag := match HeaderLevel(line) case 1 => "h3" case 2 => "h4" case _ => "h5";
    "<" + tag + ">" + InlineHtml(f, HeaderText(line)) + "</" + tag + ">"
  }

  function ItemsHtml(f: Formatter, lines: seq<string>): string
    requires forall i :: 0 <= i < |lines| ==> IsListItem(lines[i])
  {
    if lines == [] then "" else "<li>" + InlineHtml(f, ItemText(lines[0])) + "</li>" + ItemsHtml(f, lines[1..])
  }

  function CellsOfAll(lines: seq<string>): seq<seq<string>> {
    if lines == [] then [] else CellsOfAll(lines[..|lines| - 1]) + [CellsOf(EscapeHtml(lines[|lines| - 1]))]
  }

  /** A header row, the alignments under it, and the body. */
  function TableLinesHtml(f: Formatter, lines: seq<string>): string
    requires |lines| > 1
  {
    TableHtml(f.inline, CellsOf(EscapeHtml(lines[0])), Aligns(CellsOf(EscapeHtml(lines[1]))), CellsOfAll(lines[2..]))
  }

  /** The HTML of the block at the front of the lines. */
  function FirstBlockHtml(f: Formatter, lines: seq<string>): string
    requires lines != []
    decreases Weight(lines), 0
  {
    var n := BlockLength(lines);
    match KindOf(lines)
    case Fence => FenceHtml(f, lines[..n])
    case Quote =>
      StrippedIsLighter(lines[..n]);
      WeightSplits(lines, n);
      QuoteHtml(Render(f, StripAll(lines[..n])))
    case Table => TableLinesHtml(f, lines[..n])
    case Header => HeaderHtml(f, lines[0])
    case List => "<ul>" + ItemsHtml(f, lines[..n]) + "</ul>"
    case Inline => InlineHtml(f, lines[0])
  }

  /** Each block's HTML, in order. */
  function BlockHtmls(f: Formatter, lines: seq<string>): seq<string>
    decreases Weight(lines), 1
  {
    if lines == [] then []
    else
      WeightSplits(lines, BlockLength(lines));
      WeightSplits(lines[..BlockLength(lines)], 0);
      [FirstBlockHtml(f, lines)] + BlockHtmls(f, lines[BlockLength(lines)..])
  }

  function QuoteHtml(inner: string): string {
    "<blockquote>" + inner + "</blockquote>"
  }

  /** A block-level element: what /^<(?:blockquote|h[1-6]|table|ul|pre)/ matches. */
  predicate IsBlock(s: string) {
    || StartsWith(s, "<blockquote") || StartsWith(s, "<table") || StartsWith(s, "<ul") || StartsWith(s, "<pre")
    || (|s| >= 3 && s[0] == '<' && s[1] == 'h' && '1' <= s[2] <= '6')
  }

  function Separator(a: string, b: string): string {
    if IsBlock(a) || IsBlock(b) then "" else "<br>"
  }

  function Assemble(htmls: seq<string>): string {
    if htmls == [] then ""
    else if |htmls| == 1 then htmls[0]
    else htmls[0] + Separator(htmls[0], htmls[1]) + Assemble(htmls[1..])
  }

  /** `renderBlocks`. */
  function Render(f: Formatter, lines: seq<string>): string
    decreases Weight(lines), 2
  {
    Assemble(BlockHtmls(f, lines))
  }

  // ----- Blocks partition the lines -----

  function Segments(lines: seq<string>): seq<seq<string>>
    decreases |lines|
  {
    if lines == [] then [] else [lines[..BlockLength(lines)]] + Segments(lines[BlockLength(lines)..])
  }

  function Concat(parts: seq<seq<string>>): seq<string> {
    if parts == [] then [] else parts[0] + Concat(parts[1..])
  }

  /** Every line belongs to exactly one block, blocks are not empty, and there is one piece of
      HTML per block. */
  lemma {:induction false} SegmentsPartition(f: Formatter, lines: seq<string>)
    ensures Concat(Segments(lines)) == lines
    ensures forall s <- Segments(lines) :: s != []
    ensures |BlockHtmls(f, lines)| == |Segments(lines)|
    decreases |lines|
  {
    hide BlockLength, KindOf;
    if lines != [] {
      var n := BlockLength(lines);
      SegmentsPartition(f, lines[n..]);
      assert lines == lines[..n] + lines[n..];
      WeightSplits(lines, n);
    }
  }

  // ----- The loop -----

  /** `renderBlocks`: one loop over the lines, with a loop inside each branch that takes a run. */
  method RenderBlocks(f: Formatter, lines: seq<string>) returns (html: string)
    ensures html == Render(f, lines)
    decreases Weight(lines), 1
  {
    hide BlockHtmls, FirstBlockHtml, BlockLength, KindOf, Render;
    var rendered: seq<string> := [];
    var li := 0;
    Nothing(f, lines);
    while li < |lines|
      invariant 0 <= li <= |lines|
      invariant BlockHtmls(f, lines) == rendered + BlockHtmls(f, lines[li..])
    {
      Moves(f, lines, li);
      var item, n := RenderFirst(f, lines[li..], Weight(lines));
      Associative(rendered, [item], BlockHtmls(f, lines[li + n..]));
      rendered := rendered + [item];
      li := li + n;
    }
    assert lines[|lines|..] == [];
    assert rendered + [] == rendered;
    html := Reduce(rendered);
    RenderIs(f, lines);
  }

  /** `rendered.reduce(…)`: join the pieces, with <br> between two that are not block elements. */
  method Reduce(rendered: seq<string>) returns (acc: string)
    ensures acc == Assemble(rendered)
  {
    hide IsBlock;
    acc := "";
    for idx := 0 to |rendered|
      invariant acc == Assemble(rendered[..idx])
    {
      AssemblePush(rendered[..idx], rendered[idx]);
      assert rendered[..idx + 1] == rendered[..idx] + [rendered[idx]];
      acc := if idx == 0 then rendered[0]
             else acc + (if IsBlock(rendered[idx - 1]) || IsBlock(rendered[idx]) then "" else "<br>") + rendered[idx];
    }
    assert rendered[..|rendered|] == rendered;
  }

  lemma Nothing(f: Formatter, lines: seq<string>)
    ensures BlockHtmls(f, []) == [] && lines[0..] == lines && [] + BlockHtmls(f, lines) == BlockHtmls(f, lines)
  {}

  lemma RenderIs(f: Formatter, lines: seq<string>)
    ensures Render(f, lines) == Assemble(BlockHtmls(f, lines))
  {}

  lemma Moves(f: Formatter, lines: seq<string>, li: nat)
    requires li < |lines|
    ensures var n := BlockLength(lines[li..]);
      li + n <= |lines|
      && BlockHtmls(f, lines[li..]) == [FirstBlockHtml(f, lines[li..])] + BlockHtmls(f, lines[li + n..])
    ensures Weight(lines[li..]) <= Weight(lines)
  {
    hide FirstBlockHtml, BlockLength;
    WeightSplits(lines, li);
    var n := BlockLength(lines[li..]);
    assert lines[li..][n..] == lines[li + n..];
  }

  lemma {:induction false} AssemblePush(a: seq<string>, x: string)
    ensures Assemble(a + [x]) == if a == [] then x else Assemble(a) + Separator(a[|a| - 1], x) + x
  {
    hide Separator;
    if |a| == 1 {
      assert (a + [x])[1..] == [x];
      assert Assemble([x]) == x;
    } else if |a| > 1 {
      assert (a + [x])[0] == a[0] && (a + [x])[1] == a[1] && (a + [x])[1..] == a[1..] + [x];
      AssemblePush(a[1..], x);
      var lead := a[0] + Separator(a[0], a[1]);
      Associative(lead, Assemble(a[1..]) + Separator(a[|a| - 1], x), x);
      Associative(lead, Assemble(a[1..]), Separator(a[|a| - 1], x));
    }
  }

  /** The body of the outer loop: the block at the front of the remaining lines. */
  method RenderFirst(f: Formatter, lines: seq<string>, ghost bound: nat) returns (item: string, n: nat)
    requires lines != [] && Weight(lines) <= bound
    ensures item == FirstBlockHtml(f, lines) && n == BlockLength(lines)
    decreases bound, 0
  {
    hide Render, Weight, IsQuote, OpensFence, IsTableRow, IsDelim, HeaderLevel, IsListItem;
    hide HeaderHtml, EscapeHtml, ItemsHtml, FenceHtml, TableLinesHtml;
    var raw := lines[0];
    if OpensFence(raw) {
      item, n := RenderFence(f, lines);
      return;
    }
    if IsQuote(raw) {
      var inner := TakeQuoted(lines);
      WeightSplits(lines, |inner|);
      StrippedIsLighter(lines[..|inner|]);
      var quoted := RenderBlocks(f, inner);
      return QuoteHtml(quoted), |inner|;
    }
    if |lines| > 1 && IsTableRow(raw) && IsDelim(EscapeHtml(lines[1])) {
      item, n := TakeTable(f, lines);
      return;
    }
    if HeaderLevel(raw) > 0 {
      return HeaderHtml(f, raw), 1;
    }
    if IsListItem(raw) {
      item, n := RenderList(f, lines);
      return;
    }
    return InlineHtml(f, raw), 1;
  }

  method RenderFence(f: Formatter, lines: seq<string>) returns (item: string, n: nat)
    requires lines != [] && OpensFence(lines[0])
    ensures n == BlockLength(lines) && item == FenceHtml(f, lines[..n])
  {
    hide ClosesFence;
    var raw := lines[0];
    var lang := ToLower(raw[3..ClassEnd(raw, 3, |raw|, IsLangChar)]);
    var code: seq<string> := [];
    var j := 1;
    while j < |lines| && !ClosesFence(lines[j])
      invariant 1 <= j <= |lines| && code == lines[1..j]
      invariant RunOfLines(lines, 1, StaysInFence) == RunOfLines(lines, j, StaysInFence)
    {
      code := code + [lines[j]];
      j := j + 1;
    }
    var langAttr := if lang == "" then "" else " data-lang=\"" + EscapeHtml(lang) + "\"";
    item := "<div class=\"code-block-wrap\"" + langAttr + "><pre class=\"code-block\"><code>"
            + f.highlight(Join(code, "\n"), lang) + "</code></pre></div>";
    n := if j < |lines| then j + 1 else j;
    FenceSame(f, lines, n);
  }

  method TakeTable(f: Formatter, lines: seq<string>) returns (item: string, n: nat)
    requires lines != [] && KindOf(lines) == Table
    ensures n == BlockLength(lines) && n > 1 && item == TableLinesHtml(f, lines[..n])
  {
    hide IsTableRow, OpensFence, IsQuote, IsDelim, CellsOf, EscapeHtml;
    var header := SplitRow(EscapeHtml(lines[0]));
    var specs := SplitRow(EscapeHtml(lines[1]));
    var body: seq<seq<string>> := [];
    var j := 2;
    assert lines[2..2] == [];
    while j < |lines| && IsTableRow(lines[j]) && !OpensFence(lines[j]) && !IsQuote(lines[j])
      invariant 2 <= j <= |lines| && body == CellsOfAll(lines[2..j])
      invariant RunOfLines(lines, 2, IsTableBody) == RunOfLines(lines, j, IsTableBody)
    {
      var row := SplitRow(EscapeHtml(lines[j]));
      assert lines[2..j + 1] == lines[2..j] + [lines[j]];
      body := body + [row];
      j := j + 1;
    }
    n := j;
    assert lines[..n][2..] == lines[2..n];
    item := RenderTable(f.inline, header, Aligns(specs), body);
  }

  method TakeQuoted(lines: seq<string>) returns (inner: seq<string>)
    requires lines != [] && KindOf(lines) == Quote
    ensures |inner| == BlockLength(lines) && inner == StripAll(lines[..|inner|])
  {
    hide IsQuote, StripQuote;
    inner := [];
    var j := 0;
    while j < |lines| && IsQuote(lines[j])
      invariant 0 <= j <= |lines| && |inner| == j
      invariant forall i :: 0 <= i < j ==> IsQuote(lines[i]) && inner[i] == StripQuote(lines[i])
      invariant RunOfLines(lines, 0, IsQuote) == RunOfLines(lines, j, IsQuote)
    {
      inner := inner + [StripQuote(lines[j])];
      j := j + 1;
    }
    assert inner == StripAll(lines[..j]);
  }

  method RenderList(f: Formatter, lines: seq<string>) returns (item: string, n: nat)
    requires lines != [] && KindOf(lines) == List
    ensures n == BlockLength(lines) && item == "<ul>" + ItemsHtml(f, lines[..n]) + "</ul>"
  {
    hide IsListItem, ItemText, InlineHtml;
    var lis := "";
    var j := 0;
    while j < |lines| && IsListItem(lines[j])
      invariant 0 <= j <= |lines|
      invariant forall i :: 0 <= i < j ==> IsListItem(lines[i])
      invariant lis == ItemsHtml(f, lines[..j])
      invariant RunOfLines(lines, 0, IsListItem) == RunOfLines(lines, j, IsListItem)
    {
      ItemsPush(f, lines[..j], lines[j]);
      assert lines[..j + 1] == lines[..j] + [lines[j]];
      lis := lis + ("<li>" + InlineHtml(f, ItemText(lines[j])) + "</li>");
      j := j + 1;
    }
    return "<ul>" + lis + "</ul>", j;
  }

  /** The fence branch reads only the block's own lines. */
  lemma FenceSame(f: Formatter, lines: seq<string>, n: nat)
    requires lines != [] && OpensFence(lines[0]) && n == BlockLength(lines)
    ensures FenceHtml(f, lines[..n]) == FenceHtml(f, lines)
  {
    var j := RunOfLines(lines, 1, StaysInFence);
    assert lines[..n][1..j] == lines[1..j];
  }

  lemma {:induction false} ItemsPush(f: Formatter, a: seq<string>, x: string)
    requires (forall i :: 0 <= i < |a| ==> IsListItem(a[i])) && IsListItem(x)
    ensures ItemsHtml(f, a + [x]) == ItemsHtml(f, a) + ("<li>" + InlineHtml(f, ItemText(x)) + "</li>")
  {
    var item := "<li>" + InlineHtml(f, ItemText(x)) + "</li>";
    if a == [] {
      assert ([] + [x])[1..] == [] && [] + [x] == [x];
      assert item + "" == item && "" + item == item;
    } else {
      assert (a + [x])[0] == a[0] && (a + [x])[1..] == a[1..] + [x];
      ItemsPush(f, a[1..], x);
      Associative("<li>" + InlineHtml(f, ItemText(a[0])) + "</li>", ItemsHtml(f, a[1..]), item);
    }
  }

  // ----- Quoting -----

  /** What a forward does to each line. */
  function Quoted(lines: seq<string>): (q: seq<string>)
    ensures |q| == |lines| && forall i :: 0 <= i < |q| ==> q[i] == "> " + lines[i]
  {
    seq(|lines|, i requires 0 <= i < |lines| => "> " + lines[i])
  }

  lemma QuotedLine(line: string)
    ensures IsQuote("> " + line) && StripQuote("> " + line) == line && !OpensFence("> " + line)
  {
    var q := "> " + line;
    assert q[0] == '>' && q[1] == ' ' && !IsSpace('>') && IsSpace(' ');
    assert SpaceEnd(q, 0) == 0;
    assert q[2..] == line;
    if OpensFence(q) { StartsSame(q, FENCE, 0); }
  }

  lemma {:induction false} RunOverQuoted(lines: seq<string>, rest: seq<string>, k: nat)
    requires k <= |lines| && (rest == [] || !IsQuote(rest[0]))
    ensures RunOfLines(Quoted(lines) + rest, k, IsQuote) == |lines|
    decreases |lines| - k
  {
    var all := Quoted(lines) + rest;
    if k < |lines| {
      QuotedLine(lines[k]);
      assert all[k] == "> " + lines[k];
      RunOverQuoted(lines, rest, k + 1);
    } else if rest != [] {
      assert all[k] == rest[0];
    }
  }

  /** Quoted lines are one block, whatever they hold, and render as a blockquote around the
      rendering of the original lines; what follows renders as if it stood alone. */
  lemma QuotedBlock(f: Formatter, lines: seq<string>, rest: seq<string>)
    requires lines != [] && (rest == [] || !IsQuote(rest[0]))
    ensures BlockHtmls(f, Quoted(lines) + rest) == [QuoteHtml(Render(f, lines))] + BlockHtmls(f, rest)
  {
    hide Render, Assemble, OpensFence, IsQuote, StripQuote;
    var all := Quoted(lines) + rest;
    var n := |lines|;
    QuotedLine(lines[0]);
    assert all[0] == "> " + lines[0];
    RunOverQuoted(lines, rest, 0);
    assert KindOf(all) == Quote && BlockLength(all) == n;
    assert all[..n] == Quoted(lines) && all[n..] == rest;
    forall i | 0 <= i < n ensures StripAll(all[..n])[i] == lines[i] {
      QuotedLine(lines[i]);
    }
    assert StripAll(all[..n]) == lines;
  }

  function QuotedTimes(lines: seq<string>, k: nat): seq<string>
    decreases k
  {
    if k == 0 then lines else Quoted(QuotedTimes(lines, k - 1))
  }

  function NestedQuotes(html: string, k: nat): string
    decreases k
  {
    if k == 0 then html else QuoteHtml(NestedQuotes(html, k - 1))
  }

  lemma QuotedRenders(f: Formatter, lines: seq<string>)
    requires lines != []
    ensures Render(f, Quoted(lines)) == QuoteHtml(Render(f, lines))
  {
    hide QuoteHtml;
    QuotedBlock(f, lines, []);
    assert Quoted(lines) + [] == Quoted(lines);
    assert BlockHtmls(f, []) == [];
    var html := QuoteHtml(Render(f, lines));
    assert [html] + [] == [html];
  }

  /** Text quoted k levels deep renders as k nested blockquotes around its own rendering. */
  lemma {:induction false} QuotingPreservesRendering(f: Formatter, lines: seq<string>, k: nat)
    requires lines != []
    ensures |QuotedTimes(lines, k)| == |lines|
    ensures Render(f, QuotedTimes(lines, k)) == NestedQuotes(Render(f, lines), k)
    decreases k
  {
    hide Render, QuoteHtml, Quoted;
    if k > 0 {
      var inner := QuotedTimes(lines, k - 1);
      QuotingPreservesRendering(f, lines, k - 1);
      QuotedRenders(f, inner);
    }
  }

  // ----- Forwarding a DM -----

  const FORWARDED := "*Forwarded:*"

  /** `forwardBody` of a DM message. */
  function ForwardBody(content: string): string {
    FORWARDED + "\n" + Join(Quoted(SplitLines(content)), "\n")
  }

  /** `formatMessage`, with its options fixed in the formatter. */
  function FormatMessage(f: Formatter, text: string): string {
    Render(f, SplitLines(text))
  }

  /** A line that starts with a star but is no list item, and holds no pipe, is inline. */
  lemma StarredLineIsInline(line: string, rest: seq<string>)
    requires |line| >= 2 && line[0] == '*' && !IsSpace(line[1]) && '|' !in line
    ensures KindOf([line] + rest) == Kind.Inline
  {
    if OpensFence(line) { StartsSame(line, FENCE, 0); }
    assert !IsSpace('*');
    assert SpaceEnd(line, 0) == 0;
    assert ClassEnd(line, 0, 3, IsHash) == 0;
  }

  lemma InlineFirst(f: Formatter, lines: seq<string>)
    requires lines != [] && KindOf(lines) == Kind.Inline
    ensures BlockHtmls(f, lines) == [InlineHtml(f, lines[0])] + BlockHtmls(f, lines[1..])
  {}

  /** A forwarded DM message renders as the header line and, right under it, a blockquote of
      exactly what the original message renders as, tables, code and nested quotes included. */
  lemma ForwardRendersOriginal(f: Formatter, content: string)
    ensures FormatMessage(f, ForwardBody(content))
         == InlineHtml(f, FORWARDED) + QuoteHtml(FormatMessage(f, content))
  {
    hide KindOf, SplitLines, Render;
    var lines := SplitLines(content);
    JoinUndoesSplit(content);
    var quoted := Quoted(lines);
    forall l | l in quoted ensures '\n' !in l {
      var i :| 0 <= i < |quoted| && quoted[i] == l;
      assert lines[i] in lines;
    }
    assert '\n' !in FORWARDED;
    SplitAppend(FORWARDED, Join(quoted, "\n"));
    SplitUndoesJoin(quoted);
    var all := [FORWARDED] + quoted;
    assert SplitLines(ForwardBody(content)) == all;
    ForwardedRenders(f, lines);
  }

  lemma ForwardedRenders(f: Formatter, lines: seq<string>)
    requires lines != []
    ensures Render(f, [FORWARDED] + Quoted(lines)) == InlineHtml(f, FORWARDED) + QuoteHtml(Render(f, lines))
  {
    hide BlockHtmls, KindOf, Render, IsBlock, InlineHtml, QuoteHtml, Quoted;
    var all := [FORWARDED] + Quoted(lines);
    assert '|' !in FORWARDED && !IsSpace('F');
    StarredLineIsInline(FORWARDED, Quoted(lines));
    InlineFirst(f, all);
    assert all[1..] == Quoted(lines);
    QuotedBlock(f, lines, []);
    assert Quoted(lines) + [] == Quoted(lines);
    NoLines(f);
    QuoteIsBlock(Render(f, lines));
    RenderIs(f, all);
  }

  lemma NoLines(f: Formatter)
    ensures BlockHtmls(f, []) == []
  {}

  lemma QuoteIsBlock(inner: string)
    ensures IsBlock(QuoteHtml(inner))
  {
    assert QuoteHtml(inner)[..11] == "<blockquote";
  }
}
