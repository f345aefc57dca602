/** `decorate` of web/static/composer-richtext.js: markdown decoration that must never add or
    lose a character of the text being typed. */
module Decorate {
  import opened Basics
  import opened CodeSpans
  import opened Html
  import opened Markup
  import opened Rules
  import opened Scan

  // ----- One line -----

  /** What the composer knows: names it may tint. A part the caller leaves out is None, and
      an empty `me` is no user. */
  datatype Context =
    Context(usernames: Option<set<string>>, me: string, channels: Option<set<string>>, emojis: Option<set<string>>)

  function Emphasize(s: string): string {
    var s1 := ReplaceAll(Bold, s, true);
    var s2 := ReplaceAll(Italic('*'), s1, true);
    var s3 := ReplaceAll(Italic('_'), s2, true);
    var s4 := ReplaceAll(Double('~', "md-del"), s3, true);
    ReplaceAll(Double('|', "md-spoiler"), s4, true)
  }

  function Annotate(s: string, ctx: Option<Context>): string {
    if ctx.None? then s
    else
      var s1 := if ctx.value.usernames.None? then s
                else ReplaceAll(Mention(ctx.value.usernames.value, ctx.value.me), s, true);
      var s2 := if ctx.value.channels.None? then s1 else ReplaceAll(Channel(ctx.value.channels.value), s1, true);
      if ctx.value.emojis.None? then s2 else ReplaceAll(Emoji(ctx.value.emojis.value), s2, true)
  }

  /** `decorateLine` with markup on. */
  function DecorateLine(line: string, ctx: Option<Context>): string {
    var pulled := PullCode(EscapeHtml(line), 0);
    Restore(Annotate(Emphasize(pulled.text), ctx), CodeHtmls(pulled.inners))
  }

  // ----- Fidelity of one line -----

  /** What a decorated line shows. */
  function ShownLine(line: string): string {
    var pulled := PullCode(Escape(line), 0);
    Reads(pulled.text, Text, Some(CodeTexts(pulled.inners)))
  }

  lemma PassReads(rule: Rule, s: string, refs: Refs)
    requires IsRule(rule) && InText(After(s, Text, refs))
    ensures InText(After(ReplaceAll(rule, s, true), Text, refs))
    ensures Reads(ReplaceAll(rule, s, true), Text, refs) == Reads(s, Text, refs)
  {
    PassKeeps(rule, s, true, Text, refs);
  }

  lemma PassesRead(s: string, ctx: Option<Context>, refs: Refs)
    requires InText(After(s, Text, refs))
    ensures InText(After(Annotate(Emphasize(s), ctx), Text, refs))
    ensures Reads(Annotate(Emphasize(s), ctx), Text, refs) == Reads(s, Text, refs)
  {
    hide Reads, After, ReplaceAll;
    var s1 := ReplaceAll(Bold, s, true);
    PassReads(Bold, s, refs);
    var s2 := ReplaceAll(Italic('*'), s1, true);
    PassReads(Italic('*'), s1, refs);
    var s3 := ReplaceAll(Italic('_'), s2, true);
    PassReads(Italic('_'), s2, refs);
    var s4 := ReplaceAll(Double('~', "md-del"), s3, true);
    PassReads(Double('~', "md-del"), s3, refs);
    PassReads(Double('|', "md-spoiler"), s4, refs);
    if ctx.Some? {
      var t := Emphasize(s);
      if ctx.value.usernames.Some? {
        var rule := Mention(ctx.value.usernames.value, ctx.value.me);
        PassReads(rule, t, refs);
        t := ReplaceAll(rule, t, true);
      }
      if ctx.value.channels.Some? {
        var rule := Channel(ctx.value.channels.value);
        PassReads(rule, t, refs);
        t := ReplaceAll(rule, t, true);
      }
      if ctx.value.emojis.Some? {
        PassReads(Emoji(ctx.value.emojis.value), t, refs);
      }
    }
  }

  /** A decorated line shows what its pulled text shows, whatever the context. */
  lemma LineShows(line: string, ctx: Option<Context>)
    ensures Displays(DecorateLine(line, ctx), None, ShownLine(line))
  {
    hide Emphasize, Annotate, PullCode, Restore, CodeHtml, CodeText, Reads, After, Shown, Escape, EscapeHtml;
    EscapeHtmlIsEscape(line);
    EscapeIsClean(line);
    var pulled := PullCode(Escape(line), 0);
    var refs := CodeTexts(pulled.inners);
    PulledHasNoTag(Escape(line), 0);
    NoTagIsText(pulled.text, Text, Some(refs));
    PassesRead(pulled.text, ctx, Some(refs));
    CodesDisplay(pulled.inners);
    RestoreKeeps(Annotate(Emphasize(pulled.text), ctx), Text, refs, CodeHtmls(pulled.inners));
  }

  /** A line shows its escaped source exactly when it forges no reference; if it does forge
      one, it goes wrong at a NUL of the escaped source. */
  lemma LineReads(line: string)
    ensures if Forged(line) then exists i :: WrongAt(ShownLine(line), Escape(line), i)
            else ShownLine(line) == Escape(line)
  {
    hide Reads, PullCode, Forged, Escape, WrongAt;
    EscapeIsClean(line);
    ForgedEscapes(line);
    var inners := PullCode(Escape(line), 0).inners;
    PullReads(Escape(line), 0, CodeTexts(inners));
    if Forged(line) {
      var i :| WrongAt(Reads(PullCode(Escape(line), 0).text, Text, Some(CodeTexts(inners))), Escape(line), i);
      assert WrongAt(ShownLine(line), Escape(line), i);
    }
  }

  /** A decorated line shows exactly its escaped source, whatever the context, if and only if
      it holds no forged reference. */
  lemma LineDisplays(line: string, ctx: Option<Context>)
    ensures Displays(DecorateLine(line, ctx), None, Escape(line)) <==> !Forged(line)
  {
    hide DecorateLine, ShownLine, Escape, Forged, After, Shown;
    LineShows(line, ctx);
    LineReads(line);
  }

  // ----- The whole text -----

  /** `fenceLineHtml`. */
  function FenceLine(line: string): string
    requires StartsWith(line, FENCE)
  {
    var after := line[3..];
    Open("md-codeblock md-cb-fence")
    + (Mk(FENCE) + (if after == "" then "" else Open("md-cb-lang") + EscapeHtml(after) + CLOSE))
    + CLOSE
  }

  function CodeLine(line: string): string {
    if line == "" then "" else Open("md-codeblock") + EscapeHtml(line) + CLOSE
  }

  /** One entry per line; `fenced` says that a code block is open. */
  function DecorateLines(lines: seq<string>, ctx: Option<Context>, fenced: bool): (out: seq<string>)
    ensures |out| == |lines|
  {
    if lines == [] then []
    else
      var line, more := lines[0], lines[1..];
      if fenced then
        if ClosesFence(line) then [FenceLine(line)] + DecorateLines(more, ctx, false)
        else [CodeLine(line)] + DecorateLines(more, ctx, true)
      else if OpensFence(line) then [FenceLine(line)] + DecorateLines(more, ctx, true)
      else [DecorateLine(line, ctx)] + DecorateLines(more, ctx, false)
  }

  function PlainLines(lines: seq<string>): (out: seq<string>)
    ensures |out| == |lines| && forall k :: 0 <= k < |out| ==> out[k] == EscapeHtml(lines[k])
  {
    seq(|lines|, k requires 0 <= k < |lines| => EscapeHtml(lines[k]))
  }

  /** What `decorate` returns. */
  function DecorateText(text: string, markup: bool, ctx: Option<Context>): string {
    if text == "" then ""
    else if !markup then Join(PlainLines(SplitLines(text)), "<br>")
    else Join(DecorateLines(SplitLines(text), ctx, false), "<br>")
  }

  /** `decorate`: an outer loop over lines, an inner one over the lines of a code block. */
  method Decorate(text: string, markup: bool, ctx: Option<Context>) returns (html: string)
    ensures html == DecorateText(text, markup, ctx)
  {
    hide DecorateLines, DecorateLine, FenceLine, CodeLine, OpensFence, ClosesFence, EscapeHtml, Join;
    if text == "" { return ""; }
    var lines := SplitLines(text);
    if !markup { return Join(PlainLines(lines), "<br>"); }
    var out: seq<string> := [];
    var i := 0;
    while i < |lines|
      invariant 0 <= i <= |lines|
      invariant DecorateLines(lines, ctx, false) == out + DecorateLines(lines[i..], ctx, false)
    {
      if OpensFence(lines[i]) {
        OpeningLine(lines[i]);
        FenceStep(out, lines, i, ctx, false);
        out := out + [FenceLine(lines[i])];
        var j := i + 1;
        var closed := false;
        while j < |lines| && !closed
          invariant i < j <= |lines|
          invariant DecorateLines(lines, ctx, false) == out + DecorateLines(lines[j..], ctx, !closed)
          decreases |lines| - j, !closed
        {
          if ClosesFence(lines[j]) {
            ClosingLine(lines[j]);
            FenceStep(out, lines, j, ctx, true);
            out := out + [FenceLine(lines[j])];
            closed := true;
          } else {
            CodeStep(out, lines, j, ctx);
            out := out + [CodeLine(lines[j])];
          }
          j := j + 1;
        }
        if !closed { Finished(lines, ctx); }
        i := j;
        continue;
      }
      PlainStep(out, lines, i, ctx);
      out := out + [DecorateLine(lines[i], ctx)];
      i := i + 1;
    }
    Finished(lines, ctx);
    assert out + [] == out;
    return Join(out, "<br>");
  }

  lemma OpeningLine(line: string)
    requires OpensFence(line)
    ensures StartsWith(line, FENCE)
  {}

  lemma ClosingLine(line: string)
    requires ClosesFence(line)
    ensures StartsWith(line, FENCE)
  {}

  lemma Finished(lines: seq<string>, ctx: Option<Context>)
    ensures DecorateLines(lines[|lines|..], ctx, true) == DecorateLines(lines[|lines|..], ctx, false) == []
  {}

  lemma Rest(lines: seq<string>, i: nat)
    requires i < |lines|
    ensures lines[i..] == [lines[i]] + lines[i + 1..] && lines[i..][1..] == lines[i + 1..]
  {}

  /** A line that opens or closes a block. */
  lemma FenceStep(out: seq<string>, lines: seq<string>, i: nat, ctx: Option<Context>, fenced: bool)
    requires i < |lines| && StartsWith(lines[i], FENCE)
    requires if fenced then ClosesFence(lines[i]) else OpensFence(lines[i])
    ensures out + DecorateLines(lines[i..], ctx, fenced)
         == out + [FenceLine(lines[i])] + DecorateLines(lines[i + 1..], ctx, !fenced)
  {
    Rest(lines, i);
    Associative(out, [FenceLine(lines[i])], DecorateLines(lines[i + 1..], ctx, !fenced));
  }

  lemma CodeStep(out: seq<string>, lines: seq<string>, i: nat, ctx: Option<Context>)
    requires i < |lines| && !ClosesFence(lines[i])
    ensures out + DecorateLines(lines[i..], ctx, true)
         == out + [CodeLine(lines[i])] + DecorateLines(lines[i + 1..], ctx, true)
  {
    Rest(lines, i);
    Associative(out, [CodeLine(lines[i])], DecorateLines(lines[i + 1..], ctx, true));
  }

  lemma PlainStep(out: seq<string>, lines: seq<string>, i: nat, ctx: Option<Context>)
    requires i < |lines| && !OpensFence(lines[i])
    ensures out + DecorateLines(lines[i..], ctx, false)
         == out + [DecorateLine(lines[i], ctx)] + DecorateLines(lines[i + 1..], ctx, false)
  {
    Rest(lines, i);
    Associative(out, [DecorateLine(lines[i], ctx)], DecorateLines(lines[i + 1..], ctx, false));
  }

  // ----- Reading it back -----

  /** The text a browser exposes: every tag drops away, `<br>` becomes a newline. */
  function ReadHtml(s: string): string
    decreases |s|
  {
    if s == "" then ""
    else if s[0] == '<' then
      var e := RunEnd(s, 1, {'>'});
      (if s[1..e] == "br" then "\n" else "") + (if e < |s| then ReadHtml(s[e + 1..]) else "")
    else [s[0]] + ReadHtml(s[1..])
  }

  function SourceOf(html: string): string {
    Unescape(ReadHtml(html))
  }

  /** A tag the scanner accepts ends at its first `>`, and is not `<br>`. */
  lemma {:induction false} TagShape(s: string, first: bool)
    requires After(s, Tag(first), None) == Text
    ensures var e := RunEnd(s, 0, {'>'});
      && e < |s| && (first ==> e > 0 && (s[0] == 's' || s[0] == '/'))
      && After(s[e + 1..], Text, None) == Text
      && Shown(s, Tag(first), None) == Shown(s[e + 1..], Text, None)
    decreases |s|
  {
    BadStays(s[1..], None);
    if s[0] != '>' {
      TagShape(s[1..], false);
      RunEndShift(s, 1, {'>'});
      var e := RunEnd(s[1..], 0, {'>'});
      assert s[1..][e + 1..] == s[e + 2..];
    }
  }

  lemma {:induction false} RunEndShift(s: string, k: nat, stops: set<char>)
    requires 1 <= k <= |s|
    ensures RunEnd(s, k, stops) == RunEnd(s[1..], k - 1, stops) + 1
    decreases |s| - k
  {
    if k < |s| && s[k] !in stops {
      RunEndShift(s, k + 1, stops);
    }
  }

  lemma {:induction false} RunEndAppend(s: string, more: string, k: nat, stops: set<char>)
    requires k <= |s| && RunEnd(s, k, stops) < |s|
    ensures RunEnd(s + more, k, stops) == RunEnd(s, k, stops)
    decreases |s| - k
  {
    if s[k] !in stops {
      RunEndAppend(s, more, k + 1, stops);
    }
  }

  /** Reading well-formed decorated text, and then whatever follows it. */
  lemma {:induction false} ReadsShown(s: string, more: string)
    requires After(s, Text, None) == Text
    ensures ReadHtml(s + more) == Shown(s, Text, None) + ReadHtml(more)
    decreases |s|
  {
    if s == "" {
      assert s + more == more;
    } else {
      hide ReadHtml, After, Shown;
      if s[0] == '<' {
        TagAtFront(s);
        ReadTag(s, more);
        ReadsShown(s[RunEnd(s, 1, {'>'}) + 1..], more);
      } else {
        CharAtFront(s);
        ReadsShown(s[1..], more);
        ReadChar(s, more);
        Associative([s[0]], Shown(s[1..], Text, None), ReadHtml(more));
      }
    }
  }

  lemma TagAtFront(s: string)
    requires s != "" && s[0] == '<' && After(s, Text, None) == Text
    ensures var e := RunEnd(s, 1, {'>'});
      && 1 < e < |s| && s[1] != 'b'
      && After(s[e + 1..], Text, None) == Text && Shown(s, Text, None) == Shown(s[e + 1..], Text, None)
  {
    TagShape(s[1..], true);
    RunEndShift(s, 1, {'>'});
    var e := RunEnd(s, 1, {'>'});
    assert s[1..][e..] == s[e + 1..];
    assert Shown(s, Text, None) == "" + Shown(s[1..], Tag(true), None);
  }

  lemma CharAtFront(s: string)
    requires s != "" && s[0] != '<' && After(s, Text, None) == Text
    ensures After(s[1..], Text, None) == Text && Shown(s, Text, None) == [s[0]] + Shown(s[1..], Text, None)
  {
    BadStays(s[1..], None);
  }

  lemma ReadTag(s: string, more: string)
    requires s != "" && s[0] == '<' && 1 < RunEnd(s, 1, {'>'}) < |s| && s[1] != 'b'
    ensures ReadHtml(s + more) == ReadHtml(s[RunEnd(s, 1, {'>'}) + 1..] + more)
  {
    var all, e := s + more, RunEnd(s, 1, {'>'});
    RunEndAppend(s, more, 1, {'>'});
    assert all[e + 1..] == s[e + 1..] + more;
    assert all[1..e][0] == s[1];
  }

  lemma ReadChar(s: string, more: string)
    requires s != "" && s[0] != '<'
    ensures ReadHtml(s + more) == [s[0]] + ReadHtml(s[1..] + more)
  {
    assert (s + more)[1..] == s[1..] + more;
  }

  lemma ReadsBreak(more: string)
    ensures ReadHtml("<br>" + more) == "\n" + ReadHtml(more)
  {
    var s := "<br>" + more;
    assert s[0] == '<' && s[1] == 'b' && s[2] == 'r' && s[3] == '>';
    assert RunEnd(s, 3, {'>'}) == 3;
    assert RunEnd(s, 2, {'>'}) == 3;
    assert RunEnd(s, 1, {'>'}) == 3;
    assert s[1..3] == "br" && s[4..] == more;
  }

  // ----- Fidelity of the whole -----

  lemma FenceLineDisplays(line: string)
    requires StartsWith(line, FENCE)
    ensures Displays(FenceLine(line), None, Escape(line))
  {
    hide Displays, EscapeHtml, Escape, Open, Mk;
    var after := line[3..];
    assert line == FENCE + after;
    EscapeAppend(FENCE, after);
    EscapeFence();
    EscapeHtmlIsEscape(after);
    EscapeIsClean(after);
    PlainShowsItself(Escape(after), None);
    FenceClasses();
    hide TagChars;
    MkDisplays(FENCE, None);
    var inner := Mk(FENCE) + (if after == "" then "" else Open("md-cb-lang") + EscapeHtml(after) + CLOSE);
    if after == "" {
      assert inner == Mk(FENCE) && Escape(line) == FENCE by { assert FENCE + "" == FENCE; EscapeEmpty(); }
      assert Displays(inner, None, Escape(line));
    } else {
      SpanDisplays("md-cb-lang", EscapeHtml(after), None, Escape(after));
      DisplaysAppend(Mk(FENCE), Open("md-cb-lang") + EscapeHtml(after) + CLOSE, None, FENCE, Escape(after));
    }
    SpanDisplays("md-codeblock md-cb-fence", inner, None, Escape(line));
  }

  lemma FenceClasses()
    ensures TagChars("md-cb-lang") && TagChars("md-codeblock md-cb-fence") && TagChars("md-codeblock")
    ensures Plain(FENCE)
  {
    TagCharsAppend("md-codeblock", " md-cb-fence");
    assert "md-codeblock md-cb-fence" == "md-codeblock" + " md-cb-fence";
  }

  lemma EscapeFence()
    ensures Escape(FENCE) == FENCE
  {
    assert FENCE == "`" + ("`" + "`");
    assert Escape("`") == "`" + Escape("") by { assert "`"[1..] == ""; }
    EscapeAppend("`", "`");
    EscapeAppend("`", "`" + "`");
  }

  lemma CodeLineDisplays(line: string)
    ensures Displays(CodeLine(line), None, Escape(line))
  {
    if line == "" {
      PlainShowsItself("", None);
    } else {
      EscapeHtmlIsEscape(line);
      EscapeIsClean(line);
      PlainShowsItself(Escape(line), None);
      FenceClasses();
      SpanDisplays("md-codeblock", EscapeHtml(line), None, Escape(line));
    }
  }

  /** What the lines show, entry by entry: code and fences themselves. */
  function ShownLines(lines: seq<string>, fenced: bool): (shown: seq<string>)
    ensures |shown| == |lines|
  {
    if lines == [] then []
    else
      var line, more := lines[0], lines[1..];
      if fenced then [Escape(line)] + ShownLines(more, !ClosesFence(line))
      else if OpensFence(line) then [Escape(line)] + ShownLines(more, true)
      else [ShownLine(line)] + ShownLines(more, false)
  }

  ghost predicate EntriesDisplay(out: seq<string>, shown: seq<string>) {
    |out| == |shown| && forall k :: 0 <= k < |out| ==> Displays(out[k], None, shown[k])
  }

  /** Reading a gives text, whatever comes after it. */
  ghost predicate ReadsAs(a: string, text: string) {
    forall more :: ReadHtml(a + more) == text + ReadHtml(more)
  }

  ghost predicate EntriesRead(out: seq<string>, shown: seq<string>) {
    |out| == |shown| && forall k :: 0 <= k < |out| ==> ReadsAs(out[k], shown[k])
  }

  lemma {:induction false} LinesDisplay(lines: seq<string>, ctx: Option<Context>, fenced: bool)
    ensures EntriesDisplay(DecorateLines(lines, ctx, fenced), ShownLines(lines, fenced))
  {
    if lines != [] {
      hide Displays, DecorateLines, ShownLines;
      var next := FirstLineDisplays(lines, ctx, fenced);
      LinesDisplay(lines[1..], ctx, next);
      var out, shown := DecorateLines(lines, ctx, fenced), ShownLines(lines, fenced);
      forall k | 0 < k < |out| ensures Displays(out[k], None, shown[k]) {
        assert out[k] == out[1..][k - 1] && shown[k] == shown[1..][k - 1];
      }
    }
  }

  lemma FirstLineDisplays(lines: seq<string>, ctx: Option<Context>, fenced: bool) returns (next: bool)
    requires lines != []
    ensures var out, shown := DecorateLines(lines, ctx, fenced), ShownLines(lines, fenced);
      && out != [] && shown != [] && Displays(out[0], None, shown[0])
      && out[1..] == DecorateLines(lines[1..], ctx, next) && shown[1..] == ShownLines(lines[1..], next)
  {
    hide Displays, DecorateLine, FenceLine, CodeLine, OpensFence, ClosesFence, ShownLine, Escape;
    var line := lines[0];
    next := if fenced then !ClosesFence(line) else OpensFence(line);
    if if fenced then ClosesFence(line) else OpensFence(line) {
      if fenced { ClosingLine(line); } else { OpeningLine(line); }
      FenceLineDisplays(line);
    } else if fenced {
      CodeLineDisplays(line);
    } else {
      LineShows(line, ctx);
    }
  }

  lemma {:induction false} JoinedReads(out: seq<string>, shown: seq<string>)
    requires EntriesRead(out, shown) && |shown| >= 1
    ensures ReadHtml(Join(out, "<br>")) == Join(shown, "\n")
  {
    hide ReadHtml;
    assert ReadsAs(out[0], shown[0]);
    if |shown| == 1 {
      NothingRead();
      assert ReadHtml(out[0] + "") == shown[0] + "";
      assert out[0] + "" == out[0] && shown[0] + "" == shown[0];
    } else {
      JoinedReads(out[1..], shown[1..]);
      var rest := Join(out[1..], "<br>");
      assert Join(out, "<br>") == out[0] + ("<br>" + rest);
      assert ReadHtml(out[0] + ("<br>" + rest)) == shown[0] + ReadHtml("<br>" + rest);
      ReadsBreak(rest);
      Associative(shown[0], "\n", Join(shown[1..], "\n"));
    }
  }

  lemma DisplayedReads(a: string, text: string)
    requires Displays(a, None, text)
    ensures ReadsAs(a, text)
  {
    forall more ensures ReadHtml(a + more) == text + ReadHtml(more) {
      ReadsShown(a, more);
    }
  }

  /** Text without an opening angle bracket reads as itself, NULs included. */
  lemma {:induction false} UntaggedReads(a: string, more: string)
    requires '<' !in a
    ensures ReadHtml(a + more) == a + ReadHtml(more)
  {
    if a == "" {
      assert a + more == more;
    } else {
      assert a[0] in a && (a + more)[0] == a[0] && (a + more)[1..] == a[1..] + more;
      UntaggedReads(a[1..], more);
      assert a == [a[0]] + a[1..];
      Associative([a[0]], a[1..], ReadHtml(more));
    }
  }

  lemma NothingRead()
    ensures ReadHtml("") == ""
  {}

  lemma DecoratedLinesRead(lines: seq<string>, ctx: Option<Context>)
    ensures EntriesRead(DecorateLines(lines, ctx, false), ShownLines(lines, false))
  {
    hide Displays, ReadsAs, DecorateLines, ShownLines;
    LinesDisplay(lines, ctx, false);
    var out, shown := DecorateLines(lines, ctx, false), ShownLines(lines, false);
    forall k | 0 <= k < |out| ensures ReadsAs(out[k], shown[k]) {
      DisplayedReads(out[k], shown[k]);
    }
  }

  function EscapedLines(lines: seq<string>): (shown: seq<string>)
    ensures |shown| == |lines| && forall k :: 0 <= k < |shown| ==> shown[k] == Escape(lines[k])
  {
    seq(|lines|, k requires 0 <= k < |lines| => Escape(lines[k]))
  }

  lemma PlainLinesRead(lines: seq<string>)
    ensures EntriesRead(PlainLines(lines), EscapedLines(lines))
  {
    hide Escape, EscapeHtml, ReadHtml;
    forall k | 0 <= k < |lines| ensures ReadsAs(PlainLines(lines)[k], EscapedLines(lines)[k]) {
      EscapeHtmlIsEscape(lines[k]);
      EscapeIsClean(lines[k]);
      forall more ensures ReadHtml(Escape(lines[k]) + more) == Escape(lines[k]) + ReadHtml(more) {
        UntaggedReads(Escape(lines[k]), more);
      }
    }
  }

  // ----- Un-escaping what is shown -----

  lemma {:induction false} UnescapeFront(a: string, more: string)
    ensures Unescape(Escape(a) + more) == a + Unescape(more)
  {
    if a == "" {
      assert "" + more == more && "" + Unescape(more) == Unescape(more);
    } else {
      UnescapeFront(a[1..], more);
      UnescapeEntity(a[0], Escape(a[1..]) + more);
      Associative(EscapeChar(a[0]), Escape(a[1..]), more);
      Associative([a[0]], a[1..], Unescape(more));
      assert a == [a[0]] + a[1..];
    }
  }

  lemma NulBeyond(c: char, more: string, i: nat)
    requires i < |EscapeChar(c) + more| && (EscapeChar(c) + more)[i] == '\0' && !(c == '\0' && i == 0)
    ensures i >= |EscapeChar(c)|
  {
    BacktickEscapes(c);
    var e := EscapeChar(c);
    assert forall k :: 0 <= k < |e| ==> e[k] in e && (e + more)[k] == e[k];
  }

  /** A NUL of the escaped text is a NUL of the text, and what is before it its escape. */
  lemma {:induction false} NulOfEscape(s: string, i: nat) returns (j: nat)
    requires i < |Escape(s)| && Escape(s)[i] == '\0'
    ensures j < |s| && s[j] == '\0' && Escape(s)[..i] == Escape(s[..j])
  {
    if s[0] == '\0' && i == 0 {
      j := 0;
      assert s[..0] == "";
    } else {
      NulBeyond(s[0], Escape(s[1..]), i);
      var e := EscapeChar(s[0]);
      var more := NulOfEscape(s[1..], i - |e|);
      j := more + 1;
      assert Escape(s)[..i] == e + Escape(s[1..])[..i - |e|];
      assert s[..j][0] == s[0] && s[..j][1..] == s[1..][..more];
    }
  }

  /** A line that goes wrong is not read back as it was, whatever follows. */
  lemma WrongIsRead(shown: string, line: string, i: nat, more: string, rest: string)
    requires WrongAt(shown, Escape(line), i)
    ensures Unescape(shown + more) != line + rest
  {
    hide Escape;
    var j := NulOfEscape(line, i);
    var y := shown[i..];
    assert shown == shown[..i] + y && shown[..i] == Escape(line[..j]);
    Associative(Escape(line[..j]), y, more);
    UnescapeFront(line[..j], y + more);
    NotAnEntity(y + more);
    assert (y + more)[0] == shown[i] != '\0';
    assert Unescape(y + more)[0] == shown[i];
    assert Unescape(shown + more)[j] == shown[i] && (line + rest)[j] == line[j] == '\0';
  }

  /** Some line that is decorated outside a code block forges a reference. */
  predicate ForgedLines(lines: seq<string>, fenced: bool) {
    lines != [] &&
    var line, more := lines[0], lines[1..];
    if fenced then ForgedLines(more, !ClosesFence(line))
    else if OpensFence(line) then ForgedLines(more, true)
    else Forged(line) || ForgedLines(more, false)
  }

  /** What the lines show is the lines, exactly when none forges a reference. */
  lemma {:induction false} ShownLinesRead(lines: seq<string>, fenced: bool)
    requires lines != []
    ensures Unescape(Join(ShownLines(lines, fenced), "\n")) == Join(lines, "\n") <==> !ForgedLines(lines, fenced)
    decreases |lines|, 0
  {
    hide ShownLine, Escape, Unescape, Forged, OpensFence, ClosesFence;
    var line, more := lines[0], lines[1..];
    var next := if fenced then !ClosesFence(line) else OpensFence(line);
    var first := ShownLines(lines, fenced)[0];
    var rest := ShownLines(more, next);
    var tail, source := JoinTail(rest), JoinTail(more);
    assert ShownLines(lines, fenced) == [first] + rest;
    JoinFirst(first, rest);
    JoinFirst(line, more);
    assert lines == [line] + more;
    LineReads(line);
    if !fenced && !OpensFence(line) && Forged(line) {
      var i :| WrongAt(first, Escape(line), i);
      WrongIsRead(first, line, i, tail, source);
    } else {
      UnescapeFront(line, tail);
      SamePrefix(line, Unescape(tail), source);
      TailReads(more, next);
    }
  }

  /** What follows the first line. */
  function JoinTail(lines: seq<string>): string {
    if lines == [] then "" else "\n" + Join(lines, "\n")
  }

  lemma JoinFirst(line: string, more: seq<string>)
    ensures Join([line] + more, "\n") == line + JoinTail(more)
  {
    assert ([line] + more)[1..] == more && line + "" == line;
    if more != [] { Associative(line, "\n", Join(more, "\n")); }
  }

  lemma {:induction false} TailReads(lines: seq<string>, fenced: bool)
    ensures Unescape(JoinTail(ShownLines(lines, fenced))) == JoinTail(lines) <==> !ForgedLines(lines, fenced)
    decreases |lines|, 1
  {
    hide Escape, Unescape, ShownLine, Forged, OpensFence, ClosesFence;
    if lines == [] {
      UnescapeNothing();
    } else {
      ShownLinesRead(lines, fenced);
      var shown := Join(ShownLines(lines, fenced), "\n");
      EscapeNewline();
      UnescapeFront("\n", shown);
      SamePrefix("\n", Unescape(shown), Join(lines, "\n"));
    }
  }

  lemma UnescapeNothing()
    ensures Unescape("") == ""
  {}

  lemma EscapeNewline()
    ensures Escape("\n") == "\n"
  {
    assert "\n"[1..] == "";
    assert "\n" + "" == "\n";
  }

  /** Fidelity, exactly: for every text and every context, reading the decorated HTML back
      gives the text itself, character for character, if and only if markup is off or no line
      outside the code blocks has, outside its code spans, a NUL, digits and then a NUL or a
      code span. In particular for every text without a NUL. */
  lemma DecorateIsFaithful(text: string, markup: bool, ctx: Option<Context>)
    ensures SourceOf(DecorateText(text, markup, ctx)) == text <==> !(markup && ForgedLines(SplitLines(text), false))
    ensures '\0' !in text ==> !ForgedLines(SplitLines(text), false)
  {
    hide DecorateLines, PlainLines, ReadHtml, Escape, EscapeHtml, Unescape, Join, EntriesRead, ShownLines, ForgedLines;
    var lines := SplitLines(text);
    JoinUndoesSplit(text);
    if '\0' !in text { NulFreeLines(lines, false); }
    if text == "" {
      NothingRead();
      UnescapeNothing();
      NulFreeLines(lines, false);
    } else if markup {
      DecoratedLinesRead(lines, ctx);
      JoinedReads(DecorateLines(lines, ctx, false), ShownLines(lines, false));
      ShownLinesRead(lines, false);
    } else {
      PlainLinesRead(lines);
      JoinedReads(PlainLines(lines), EscapedLines(lines));
      EscapedLinesRead(lines);
    }
  }

  lemma {:induction false} NulFreeLines(lines: seq<string>, fenced: bool)
    requires forall l <- lines :: '\0' !in l
    ensures !ForgedLines(lines, fenced)
  {
    hide Forged, OpensFence, ClosesFence;
    if lines != [] {
      assert lines[0] in lines;
      NothingForged(lines[0]);
      NulFreeLines(lines[1..], if fenced then !ClosesFence(lines[0]) else OpensFence(lines[0]));
    }
  }

  lemma {:induction false} EscapedLinesRead(lines: seq<string>)
    requires lines != []
    ensures Unescape(Join(EscapedLines(lines), "\n")) == Join(lines, "\n")
  {
    hide Escape, Unescape;
    var line, more := lines[0], lines[1..];
    assert lines == [line] + more && EscapedLines(lines) == [Escape(line)] + EscapedLines(more);
    JoinFirst(line, more);
    JoinFirst(Escape(line), EscapedLines(more));
    UnescapeFront(line, JoinTail(EscapedLines(more)));
    if more == [] {
      UnescapeNothing();
    } else {
      EscapedLinesRead(more);
      EscapeNewline();
      UnescapeFront("\n", Join(EscapedLines(more), "\n"));
    }
  }

  // ----- Why the NULs matter -----

  lemma {:induction false} NoMarkerNoMatch(rule: Rule, s: string, start: bool)
    requires IsRule(rule) && forall c <- s :: c !in MARKERS
    ensures ReplaceAll(rule, s, start) == s
  {
    hide Find;
    if Find(rule, s, start).Found? {
      MatchHasMarker(rule, s, start);
    } else if s != "" {
      NoMarkerNoMatch(rule, s[1..], false);
      assert s == [s[0]] + s[1..];
    }
  }

  lemma MatchHasMarker(rule: Rule, s: string, start: bool)
    requires IsRule(rule) && Find(rule, s, start).Found?
    ensures exists c <- s :: c in MARKERS
  {
    hide Find;
    FindIsSound(rule, s, start);
    var m := Find(rule, s, start);
    MarkersNonEmpty(m.op);
    assert m.op[0] in m.op;
    assert s[..|m.Matched()|][|m.pre|] == m.op[0];
    assert m.op[0] in s;
  }

  /** The family that breaks it: any line that is a NUL, digits and a NUL is taken for a code
      span that was never there, and shows the word undefined instead. */
  lemma ForgedReference(digits: string)
    requires digits != "" && forall c <- digits :: IsDigit(c)
    ensures DecorateLine("\0" + digits + "\0", None) == "undefined"
  {
    hide Restore, ReplaceAll, PullCode, EscapeHtml, Escape;
    var s := "\0" + digits + "\0";
    assert forall c <- s :: c == '\0' || IsDigit(c);
    assert forall i :: 0 <= i < |s| ==> s[i] in s;
    EscapeHtmlIsEscape(s);
    NothingEscapes(s);
    NothingPulled(s, 0);
    NoMarkerNoMatch(Bold, s, true);
    NoMarkerNoMatch(Italic('*'), s, true);
    NoMarkerNoMatch(Italic('_'), s, true);
    NoMarkerNoMatch(Double('~', "md-del"), s, true);
    NoMarkerNoMatch(Double('|', "md-spoiler"), s, true);
    assert CodeHtmls([]) == [];
    ForgedIsUndefined(digits);
  }
}
