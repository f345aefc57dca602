/** What `decorate` makes of a text, line by line and written out: fences, code, and the rest. */
module DecoratedText {
  import opened Basics
  import opened CodeSpans
  import opened Decorate
  import opened Html
  import opened Markup
  import opened OneToken
  import opened Passes
  import opened Rules
  import opened Scan

  /** A fence, with its backticks dimmed and what follows them tinted. */
  function FenceSpan(after: string): string {
    Span("md-codeblock md-cb-fence", Dimmed("```") + (if after == "" then "" else Span("md-cb-lang", Escape(after))))
  }

  /** A line of code; an empty one stays empty. */
  function CodeSpan(line: string): string {
    if line == "" then "" else Span("md-codeblock", Escape(line))
  }

  function CodeSpanLines(code: seq<string>): (spans: seq<string>)
    ensures |spans| == |code| && forall k :: 0 <= k < |code| ==> spans[k] == CodeSpan(code[k])
  {
    seq(|code|, k requires 0 <= k < |code| => CodeSpan(code[k]))
  }

  /** Nothing in these lines closes a fence. */
  ghost predicate NoneCloses(code: seq<string>) {
    forall i, blanks :: 0 <= i < |code| && IsBlank(blanks) ==> code[i] != "```" + blanks
  }

  lemma FenceSpanIs(after: string)
    ensures StartsWith("```" + after, FENCE) && FenceLine("```" + after) == FenceSpan(after)
  {
    hide Escape, EscapeHtml;
    var line := "```" + after;
    assert line[3..] == after;
    EscapeHtmlIsEscape(after);
    DimmedIs("```");
    SpanIs("md-cb-lang", Escape(after));
    Associative(Open("md-cb-lang"), Escape(after), CLOSE);
    var inner := Mk(FENCE) + (if after == "" then "" else Open("md-cb-lang") + EscapeHtml(after) + CLOSE);
    SpanIs("md-codeblock md-cb-fence", inner);
    Associative(Open("md-codeblock md-cb-fence"), inner, CLOSE);
  }

  lemma CodeSpanIs(line: string)
    ensures CodeLine(line) == CodeSpan(line)
  {
    hide Escape, EscapeHtml;
    EscapeHtmlIsEscape(line);
    SpanIs("md-codeblock", Escape(line));
    Associative(Open("md-codeblock"), Escape(line), CLOSE);
  }

  lemma StillNone(code: seq<string>)
    requires code != [] && NoneCloses(code)
    ensures NoneCloses(code[1..]) && forall blanks :: IsBlank(blanks) ==> code[0] != "```" + blanks
  {
    forall i, blanks | 0 <= i < |code| - 1 && IsBlank(blanks) ensures code[1..][i] != "```" + blanks {
      assert code[1..][i] == code[i + 1];
    }
  }

  /** Inside a fence, up to its closing line or the end. */
  lemma {:induction false} DecoratesCodeLines(code: seq<string>, rest: seq<string>, ctx: Option<Context>)
    requires NoneCloses(code)
    ensures DecorateLines(code + rest, ctx, true) == CodeSpanLines(code) + DecorateLines(rest, ctx, true)
  {
    if code == [] {
      assert code + rest == rest && CodeSpanLines(code) == [];
      assert [] + DecorateLines(rest, ctx, true) == DecorateLines(rest, ctx, true);
    } else {
      hide CodeSpan, ClosesFence, NoneCloses, DecorateLines, CodeSpanLines;
      StillNone(code);
      var all := code + rest;
      assert all[0] == code[0] && all[1..] == code[1..] + rest;
      Closes(code[0]);
      CodeFirst(all, ctx);
      DecoratesCodeLines(code[1..], rest, ctx);
      SpansFirst(code);
      Associative([CodeSpan(code[0])], CodeSpanLines(code[1..]), DecorateLines(rest, ctx, true));
    }
  }

  lemma CodeFirst(lines: seq<string>, ctx: Option<Context>)
    requires lines != [] && !ClosesFence(lines[0])
    ensures DecorateLines(lines, ctx, true) == [CodeSpan(lines[0])] + DecorateLines(lines[1..], ctx, true)
  {
    CodeSpanIs(lines[0]);
  }

  lemma SpansFirst(code: seq<string>)
    requires code != []
    ensures CodeSpanLines(code) == [CodeSpan(code[0])] + CodeSpanLines(code[1..])
  {}

  /** A code block: three backticks and a language, lines none of which is three backticks and
      blanks, and such a line. All of it is code, as it stands; what follows starts afresh. */
  lemma DecoratesFence(lang: string, blanks: string, code: seq<string>, closing: string, rest: seq<string>,
                       ctx: Option<Context>)
    requires IsLang(lang) && IsBlank(blanks) && IsBlank(closing) && NoneCloses(code)
    ensures DecorateLines(["```" + lang + blanks] + (code + (["```" + closing] + rest)), ctx, false)
         == [FenceSpan(lang + blanks)]
            + (CodeSpanLines(code) + ([FenceSpan(closing)] + DecorateLines(rest, ctx, false)))
  {
    hide FenceLine, FenceSpan, OpensFence, ClosesFence, CodeLine, DecorateLine, NoneCloses;
    var opening, after := "```" + lang + blanks, code + (["```" + closing] + rest);
    Opens(lang, blanks);
    assert opening == "```" + (lang + blanks);
    FenceSpanIs(lang + blanks);
    assert ([opening] + after)[1..] == after;
    DecoratesCodeLines(code, ["```" + closing] + rest, ctx);
    Closes("```" + closing);
    FenceSpanIs(closing);
    assert (["```" + closing] + rest)[1..] == rest;
  }

  /** Without such a line it goes on to the end of the text. */
  lemma DecoratesOpenFence(lang: string, blanks: string, code: seq<string>, ctx: Option<Context>)
    requires IsLang(lang) && IsBlank(blanks) && NoneCloses(code)
    ensures DecorateLines(["```" + lang + blanks] + code, ctx, false)
         == [FenceSpan(lang + blanks)] + CodeSpanLines(code)
  {
    hide FenceLine, FenceSpan, OpensFence, ClosesFence, CodeLine, DecorateLine, NoneCloses;
    var opening := "```" + lang + blanks;
    Opens(lang, blanks);
    assert opening == "```" + (lang + blanks);
    FenceSpanIs(lang + blanks);
    assert ([opening] + code)[1..] == code;
    DecoratesCodeLines(code, [], ctx);
    assert code + [] == code && DecorateLines([], ctx, true) == [];
    assert CodeSpanLines(code) + [] == CodeSpanLines(code);
  }

  /** Any other line is decorated by itself. */
  lemma DecoratesLine(line: string, rest: seq<string>, ctx: Option<Context>)
    requires forall lang, blanks :: IsLang(lang) && IsBlank(blanks) ==> line != "```" + lang + blanks
    ensures DecorateLines([line] + rest, ctx, false) == [DecorateLine(line, ctx)] + DecorateLines(rest, ctx, false)
  {
    hide OpensFence, DecorateLine;
    if OpensFence(line) { OpensOnly(line); }
    assert ([line] + rest)[1..] == rest;
  }

  /** The lines come out in their order, a line break between two; without markup each is only
      escaped. */
  lemma DecoratesText(lines: seq<string>, ctx: Option<Context>)
    requires lines != [] && forall l <- lines :: '\n' !in l
    ensures Join(lines, "\n") != "" ==>
      && DecorateText(Join(lines, "\n"), true, ctx) == Join(DecorateLines(lines, ctx, false), "<br>")
      && DecorateText(Join(lines, "\n"), false, ctx) == Join(EscapedLines(lines), "<br>")
    ensures DecorateText("", true, ctx) == DecorateText("", false, ctx) == ""
  {
    hide DecorateLines, EscapeHtml, Escape;
    SplitUndoesJoin(lines);
    forall k | 0 <= k < |lines| ensures PlainLines(lines)[k] == EscapedLines(lines)[k] {
      EscapeHtmlIsEscape(lines[k]);
    }
    assert PlainLines(lines) == EscapedLines(lines);
  }

  /** A text of one line with one token amid quiet text. */
  lemma DecoratesOneToken(rule: Rule, pre: string, body: string, post: string, ctx: Option<Context>)
    requires IsRun(rule, ctx) && Quiet(pre) && Quiet(post) && Lone(rule, body)
    requires Free(rule, pre) && IsWhole(rule, body, post)
    ensures DecorateText(pre + (Token(rule, body) + post), true, ctx)
         == Escape(pre) + Becomes(rule, Escape(body)) + Escape(post)
  {
    hide Token, Becomes, Escape, Quiet, Lone, IsWhole, Free, DecorateLine, DecorateLines;
    var line := pre + (Token(rule, body) + post);
    DecoratesToken(rule, pre, body, post, ctx);
    TokenIsLong(rule, body);
    OneLine(rule, pre, body, post);
    DecoratesText([line], ctx);
    forall lang, blanks ensures line != "```" + lang + blanks {
      assert ("```" + lang + blanks)[0] == '`';
    }
    DecoratesLine(line, [], ctx);
    assert [line] + [] == [line] && DecorateLines([], ctx, false) == [] by { NoLinesLeft(ctx); }
    assert [DecorateLine(line, ctx)] + [] == [DecorateLine(line, ctx)];
  }

  lemma NoLinesLeft(ctx: Option<Context>)
    ensures DecorateLines([], ctx, false) == []
  {}

  lemma OneLine(rule: Rule, pre: string, body: string, post: string)
    requires IsRule(rule) && Quiet(pre) && Quiet(post) && Lone(rule, body)
    ensures var line := pre + (Token(rule, body) + post); '\n' !in line && line[0] != '`'
  {
    hide Token, IsBody, Quiet;
    var t := Token(rule, body);
    TokenOnOneLine(rule, body);
    QuietOnOneLine(pre);
    QuietOnOneLine(post);
    assert (pre + (t + post))[0] == if pre == "" then t[0] else pre[0];
  }

  lemma QuietOnOneLine(s: string)
    requires Quiet(s)
    ensures '\n' !in s && (s != "" ==> s[0] != '`')
  {
    if s != "" { assert s[0] in s; }
  }

  lemma TokenOnOneLine(rule: Rule, body: string)
    requires IsRule(rule) && Lone(rule, body)
    ensures '\n' !in Token(rule, body) && Token(rule, body) != "" && Token(rule, body)[0] != '`'
  {
    if !(rule.Bold? || rule.Italic? || rule.Double?) {
      if '\n' in body {
        NameEscapes(rule, body);
        Classes('\n');
      }
    }
  }
}
