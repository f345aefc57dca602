/** A line with one token amid plain text, all the way through `decorate`: exactly that token
    becomes its span, and everything else is only escaped. */
module OneToken {
  import opened Basics
  import opened CodeSpans
  import opened Decorate
  import opened Html
  import opened Markup
  import opened Passes
  import opened Rules
  import opened Scan

  /** Text no pass has anything to do in. */
  predicate Quiet(s: string) {
    forall c <- s :: c !in {'*', '_', '~', '|', '@', '#', ':', '`', '\0', '\n'}
  }

  /** The body of a token that no other rule has anything to do in: quiet text between emphasis
      markers, a name with at most one underscore. */
  predicate Lone(rule: Rule, body: string) {
    && IsBody(rule, body)
    && if rule.Bold? || rule.Italic? || rule.Double? then Quiet(body)
       else forall i, j :: 0 <= i < j < |body| ==> !(body[i] == '_' && body[j] == '_')
  }

  /** The pass is run: emphasis always, names only against a list of them. */
  predicate IsRun(rule: Rule, ctx: Option<Context>) {
    match rule
    case Bold => true
    case Italic(mark) => mark == '*' || mark == '_'
    case Double(mark, cls) => (mark == '~' && cls == "md-del") || (mark == '|' && cls == "md-spoiler")
    case Mention(usernames, me) => ctx.Some? && ctx.value.usernames == Some(usernames) && ctx.value.me == me
    case Channel(names) => ctx.Some? && ctx.value.channels == Some(names)
    case Emoji(names) => ctx.Some? && ctx.value.emojis == Some(names)
  }

  // ----- Which passes leave a text alone -----

  function MarkOf(rule: Rule): char {
    match rule
    case Bold => '*'
    case Italic(mark) => mark
    case Double(mark, _) => mark
    case Mention(_, _) => '@'
    case Channel(_) => '#'
    case Emoji(_) => ':'
  }

  /** Every number sign is that of an escaped apostrophe. */
  predicate HashOk(s: string) {
    forall i :: 0 <= i < |s| && s[i] == '#' ==> i + 1 < |s| && s[i + 1] == '3'
  }

  /** No marker in s but those, no backtick and no NUL. */
  predicate Only(s: string, marks: set<char>) {
    && (forall c <- s :: c in {'*', '_', '~', '|', '@', ':', '`', '\0'} ==> c in marks)
    && ('#' in marks || HashOk(s))
  }

  lemma OnlyAppend(a: string, b: string, marks: set<char>)
    requires Only(a, marks) && Only(b, marks)
    ensures Only(a + b, marks)
  {
    forall i | 0 <= i < |a + b| && (a + b)[i] == '#' && '#' !in marks
      ensures i + 1 < |a + b| && (a + b)[i + 1] == '3'
    {
      if i < |a| { assert a[i] == '#'; } else { assert b[i - |a|] == '#'; }
    }
  }

  /** What stands at a place: the marker, and behind it what it asks for. */
  lemma PlaceStarts(rule: Rule, s: string, i: nat, body: string)
    requires Place(rule, s, i, body)
    ensures i + 1 < |s| && s[i] == MarkOf(rule)
    ensures rule.Channel? ==> s[i + 1] != '3'
    ensures rule.Bold? ==> s[i + 1] == '*'
    ensures rule.Italic? ==> s[i + 1] != MarkOf(rule) && (i > 0 ==> s[i - 1] != MarkOf(rule))
    ensures rule.Italic? ==> exists j :: i < j < |s| && s[j] == MarkOf(rule)
  {
    var t := Token(rule, body);
    assert t[..1] <= s[i..] && s[i] == s[i..][0] == t[0] && s[i + 1] == s[i..][1] == t[1];
    if rule.Channel? { Runs(body[0]); }
    if rule.Italic? {
      assert body[0] in body;
      assert s[i + |t| - 1] == s[i..][|t| - 1] == t[|t| - 1];
    }
  }

  lemma AbsentLeaves(rule: Rule, s: string, marks: set<char>)
    requires IsRule(rule) && Only(s, marks) && MarkOf(rule) !in marks
    ensures ReplaceAll(rule, s, true) == s
  {
    hide Place;
    forall i: nat, body ensures !Place(rule, s, i, body) {
      if Place(rule, s, i, body) { PlaceStarts(rule, s, i, body); }
    }
    PassLeaves(rule, s);
  }

  predicate AtMostOnce(s: string, c: char) {
    forall i, j :: 0 <= i < j < |s| ==> s[i] != c || s[j] != c
  }

  /** c comes only right before or right behind another one. */
  predicate Paired(s: string, c: char) {
    forall i :: 0 <= i < |s| && s[i] == c ==> HasTwin(s, i, c)
  }

  predicate HasTwin(s: string, i: nat, c: char)
    requires i < |s|
  {
    (i > 0 && s[i - 1] == c) || (i + 1 < |s| && s[i + 1] == c)
  }

  /** An italic pass does nothing where its marker comes only once, or only in pairs. */
  lemma ItalicLeaves(mark: char, s: string)
    requires IsRule(Italic(mark)) && (AtMostOnce(s, mark) || Paired(s, mark))
    ensures ReplaceAll(Italic(mark), s, true) == s
  {
    hide Place, AtMostOnce, Paired, IsRule, ReplaceAll;
    forall i: nat, body ensures !Place(Italic(mark), s, i, body) {
      if Place(Italic(mark), s, i, body) { NoItalicPlace(mark, s, i, body); }
    }
    PassLeaves(Italic(mark), s);
  }

  lemma NoItalicPlace(mark: char, s: string, i: nat, body: string)
    requires Place(Italic(mark), s, i, body)
    ensures !AtMostOnce(s, mark) && !Paired(s, mark)
  {
    hide Place;
    PlaceStarts(Italic(mark), s, i, body);
    assert !HasTwin(s, i, mark);
  }

  /** c never stands right behind another one. */
  predicate Single(s: string, c: char) {
    forall i :: 0 < i < |s| ==> s[i - 1] != c || s[i] != c
  }

  lemma NoBoldPlace(s: string, i: nat, body: string)
    requires Place(Bold, s, i, body)
    ensures !Single(s, '*')
  {
    hide Place;
    PlaceStarts(Bold, s, i, body);
    assert s[i + 1 - 1] == '*' && s[i + 1] == '*';
  }

  /** The bold pass does nothing where no star stands next to another. */
  lemma BoldLeaves(s: string)
    requires Single(s, '*')
    ensures ReplaceAll(Bold, s, true) == s
  {
    hide Place, ReplaceAll, Single;
    forall i: nat, body ensures !Place(Bold, s, i, body) {
      if Place(Bold, s, i, body) { NoBoldPlace(s, i, body); }
    }
    PassLeaves(Bold, s);
  }

  // ----- The line before and after its own pass -----

  function Marks(rule: Rule): set<char> {
    match rule
    case Mention(_, _) => {'@', '_'}
    case Channel(_) => {'#', '_'}
    case Emoji(_) => {':', '_'}
    case _ => {MarkOf(rule)}
  }

  /** Quiet text has no marker once escaped, but the number sign of an apostrophe. */
  lemma {:induction false} QuietEscapes(s: string, marks: set<char>)
    requires Quiet(s)
    ensures Only(Escape(s), marks) && '`' !in Escape(s) && '\0' !in Escape(s) && '\n' !in Escape(s)
  {
    if s != "" {
      assert s[0] in s && forall c <- s[1..] :: c in s;
      QuietEscapes(s[1..], marks);
      CharEscapes(s[0], marks);
      OnlyAppend(EscapeChar(s[0]), Escape(s[1..]), marks);
    }
  }

  lemma CharEscapes(c: char, marks: set<char>)
    requires c !in {'*', '_', '~', '|', '@', '#', ':', '`', '\0', '\n'}
    ensures var e := EscapeChar(c); Only(e, marks) && '`' !in e && '\0' !in e && '\n' !in e
  {}

  /** No marker at all, and nothing the line scanner looks at. */
  predicate Bare(s: string) {
    forall i :: 0 <= i < |s| ==> s[i] !in MARKERS && s[i] != '`' && s[i] != '\0' && s[i] != '\n'
  }

  lemma BareIsOnly(s: string, marks: set<char>)
    requires Bare(s)
    ensures Only(s, marks)
  {}

  /** The markers of a token are the rule's own. */
  lemma MarkerOnly(rule: Rule, op: string)
    requires op == [MarkOf(rule)] || op == [MarkOf(rule), MarkOf(rule)]
    ensures Only(op, Marks(rule))
  {}

  lemma SpanOnly(cls: string, inner: string, marks: set<char>)
    requires Bare(cls) && Only(inner, marks)
    ensures Only(Span(cls, inner), marks)
  {
    var front := "<span class=\"" + cls + "\">";
    BareTags(cls);
    hide Bare, Only;
    BareIsOnly(front, marks);
    BareIsOnly("</span>", marks);
    OnlyAppend(front, inner, marks);
    OnlyAppend(front + inner, "</span>", marks);
  }

  lemma BareTags(cls: string)
    requires Bare(cls)
    ensures Bare("<span class=\"" + cls + "\">") && Bare("</span>")
  {
    assert Bare("<span class=\"") && Bare("\">");
  }

  lemma BareEmphasis()
    ensures Bare("md-strong") && Bare("md-em") && Bare("md-del") && Bare("md-spoiler") && Bare("md-mk")
  {}

  lemma BareTints()
    ensures Bare("md-channel") && Bare("md-emoji") && Bare("md-mention") && Bare("md-mention md-mention-me")
  {
    assert "md-mention md-mention-me" == "md-mention" + " md-mention-me";
    BareHalves();
    BareAppend("md-mention", " md-mention-me");
  }

  lemma BareHalves()
    ensures Bare("md-mention") && Bare(" md-mention-me") && Bare("md-channel") && Bare("md-emoji")
  {}

  lemma BareAppend(a: string, b: string)
    requires Bare(a) && Bare(b)
    ensures Bare(a + b)
  {}

  lemma EmphasizedOnly(rule: Rule, cls: string, op: string, body: string)
    requires Bare(cls) && Only(body, Marks(rule)) && (op == [MarkOf(rule)] || op == [MarkOf(rule), MarkOf(rule)])
    ensures Only(Emphasized(cls, op, body), Marks(rule))
  {
    hide Only, Bare;
    BareEmphasis();
    MarkerOnly(rule, op);
    SpanOnly("md-mk", op, Marks(rule));
    assert Dimmed(op) == Span("md-mk", op) by { DimmedIsSpan(op); }
    OnlyAppend(Dimmed(op), body, Marks(rule));
    OnlyAppend(Dimmed(op) + body, Dimmed(op), Marks(rule));
    SpanOnly(cls, Dimmed(op) + body + Dimmed(op), Marks(rule));
  }

  lemma DimmedIsSpan(op: string)
    ensures Dimmed(op) == Span("md-mk", op)
  {
    assert "<span class=\"" + "md-mk" + "\">" == "<span class=\"md-mk\">";
  }

  /** Before its pass and after it, the token has no marker but its own. */
  lemma TokenOnly(rule: Rule, body: string)
    requires IsRule(rule) && Only(body, Marks(rule))
    ensures Only(Token(rule, body), Marks(rule)) && Only(Becomes(rule, body), Marks(rule))
  {
    hide Only, Bare, Span, Emphasized;
    BareEmphasis();
    BareTints();
    var marks := Marks(rule);
    match rule
    case Bold =>
      MarkerOnly(rule, "**");
      OnlyAppend("**", body, marks);
      OnlyAppend("**" + body, "**", marks);
      EmphasizedOnly(rule, "md-strong", "**", body);
    case Italic(mark) =>
      MarkerOnly(rule, [mark]);
      OnlyAppend([mark], body, marks);
      OnlyAppend([mark] + body, [mark], marks);
      EmphasizedOnly(rule, "md-em", [mark], body);
    case Double(mark, _) =>
      MarkerOnly(rule, [mark, mark]);
      OnlyAppend([mark, mark], body, marks);
      OnlyAppend([mark, mark] + body, [mark, mark], marks);
      EmphasizedOnly(rule, if mark == '~' then "md-del" else "md-spoiler", [mark, mark], body);
    case Mention(_, _) =>
      MarkerOnly(rule, "@");
      OnlyAppend("@", body, marks);
      SpanOnly("md-mention", "@" + body, marks);
      SpanOnly("md-mention md-mention-me", "@" + body, marks);
    case Channel(_) =>
      MarkerOnly(rule, "#");
      OnlyAppend("#", body, marks);
      SpanOnly("md-channel", "#" + body, marks);
    case Emoji(_) =>
      MarkerOnly(rule, ":");
      OnlyAppend(":", body, marks);
      OnlyAppend(":" + body, ":", marks);
      SpanOnly("md-emoji", ":" + body + ":", marks);
  }

  /** The eight passes, when all but the rule's own leave the line alone. */
  lemma Passed(rule: Rule, line: string, out: string, ctx: Option<Context>)
    requires IsRule(rule) && IsRun(rule, ctx) && ReplaceAll(rule, line, true) == out
    requires Only(line, Marks(rule)) && Only(out, Marks(rule))
    requires rule.Bold? ==> Paired(out, '*')
    requires rule == Italic('*') ==> Single(line, '*')
    requires rule.Mention? || rule.Channel? || rule.Emoji? ==> AtMostOnce(line, '_')
    ensures Annotate(Emphasize(line), ctx) == out
  {
    hide ReplaceAll, Only, Paired, Single, AtMostOnce;
    var marks := Marks(rule);
    // Bold, then the two italic passes.
    if rule.Bold? {
      ItalicLeaves('*', out);
      AbsentLeaves(Italic('_'), out, marks);
    } else if rule == Italic('*') {
      BoldLeaves(line);
      AbsentLeaves(Italic('_'), out, marks);
    } else {
      AbsentLeaves(Bold, line, marks);
      AbsentLeaves(Italic('*'), line, marks);
      if !rule.Italic? {
        if rule.Double? { AbsentLeaves(Italic('_'), line, marks); } else { ItalicLeaves('_', line); }
      }
    }
    // The double ones.
    var mid := if rule.Bold? || rule.Italic? then out else line;
    if rule != Double('~', "md-del") { AbsentLeaves(Double('~', "md-del"), mid, marks); }
    var late := if rule == Double('~', "md-del") then out else mid;
    if rule != Double('|', "md-spoiler") { AbsentLeaves(Double('|', "md-spoiler"), late, marks); }
    Annotated(rule, line, out, ctx);
  }

  lemma Annotated(rule: Rule, line: string, out: string, ctx: Option<Context>)
    requires IsRule(rule) && IsRun(rule, ctx) && ReplaceAll(rule, line, true) == out
    requires Only(line, Marks(rule)) && Only(out, Marks(rule))
    ensures Annotate(if rule.Bold? || rule.Italic? || rule.Double? then out else line, ctx) == out
  {
    hide ReplaceAll, Only;
    if ctx.Some? {
      var marks := Marks(rule);
      var before := if rule.Channel? || rule.Emoji? then line else out;
      if ctx.value.usernames.Some? && !rule.Mention? {
        AbsentLeaves(Mention(ctx.value.usernames.value, ctx.value.me), before, marks);
      }
      var between := if rule.Emoji? then line else out;
      if ctx.value.channels.Some? && !rule.Channel? {
        AbsentLeaves(Channel(ctx.value.channels.value), between, marks);
      }
      if ctx.value.emojis.Some? && !rule.Emoji? {
        AbsentLeaves(Emoji(ctx.value.emojis.value), out, marks);
      }
    }
  }

  // ----- The token in its line -----

  lemma NameEscapes(rule: Rule, body: string)
    requires (rule.Mention? || rule.Channel? || rule.Emoji?) && IsBody(rule, body)
    ensures Escape(body) == body && Only(body, {'_'})
  {
    hide IsNameChar, IsChannelChar, IsEmojiChar;
    forall i | 0 <= i < |body| ensures IsNameChar(body[i]) || IsChannelChar(body[i]) || IsEmojiChar(body[i]) {
      assert body[i] in body;
      Classes(body[i]);
    }
    NamesAreTame(body);
    NothingEscapes(body);
  }

  lemma NamesAreTame(s: string)
    requires forall i :: 0 <= i < |s| ==> IsNameChar(s[i]) || IsChannelChar(s[i]) || IsEmojiChar(s[i])
    ensures Only(s, {'_'}) && forall i :: 0 <= i < |s| ==> s[i] !in {'&', '<', '>', '"', '\''}
  {}

  /** The body once escaped is still one, with no marker the rule does not have itself. */
  lemma BodyEscapes(rule: Rule, body: string)
    requires IsRule(rule) && Lone(rule, body)
    ensures IsBody(rule, Escape(body)) && Only(Escape(body), Marks(rule))
    ensures rule.Bold? || rule.Italic? || rule.Double? ==> Only(Escape(body), {})
    ensures !(rule.Bold? || rule.Italic? || rule.Double?) ==> Escape(body) == body
  {
    if rule.Bold? || rule.Italic? || rule.Double? {
      QuietEscapes(body, {});
      EscapesSomething(body);
      StillBody(rule, Escape(body));
    } else {
      NameEscapes(rule, body);
    }
  }

  lemma EscapesSomething(s: string)
    requires s != ""
    ensures Escape(s) != ""
  {}

  lemma StillBody(rule: Rule, b: string)
    requires IsRule(rule) && (rule.Bold? || rule.Italic? || rule.Double?)
    requires b != "" && Only(b, {}) && '\n' !in b
    ensures IsBody(rule, b) && Only(b, Marks(rule))
  {
    assert forall i :: 0 <= i < |b| ==> b[i] in b;
  }

  lemma TokenEscapes(rule: Rule, body: string)
    requires IsRule(rule)
    ensures Escape(Token(rule, body)) == Token(rule, Escape(body))
  {
    match rule
    case Bold => AroundEscapes("**", body, "**");
    case Italic(mark) => AroundEscapes([mark], body, [mark]);
    case Double(mark, _) => AroundEscapes([mark, mark], body, [mark, mark]);
    case Mention(_, _) =>
      AroundEscapes("@", body, "");
      assert "@" + body + "" == "@" + body && "@" + Escape(body) + "" == "@" + Escape(body);
    case Channel(_) =>
      AroundEscapes("#", body, "");
      assert "#" + body + "" == "#" + body && "#" + Escape(body) + "" == "#" + Escape(body);
    case Emoji(_) => AroundEscapes(":", body, ":");
  }

  lemma AroundEscapes(op: string, body: string, cl: string)
    requires forall i :: 0 <= i < |op| ==> op[i] in {'*', '_', '~', '|', '@', '#', ':'}
    requires forall i :: 0 <= i < |cl| ==> cl[i] in {'*', '_', '~', '|', '@', '#', ':'}
    ensures Escape(op + body + cl) == op + Escape(body) + cl
  {
    NothingEscapes(op);
    NothingEscapes(cl);
    EscapeAppend(op + body, cl);
    EscapeAppend(op, body);
  }

  /** What is in front of the token, as the pass sees it. */
  predicate Free(rule: Rule, before: string) {
    before == "" || MayPrecede(rule, before[|before| - 1])
  }

  lemma FreeEscapes(rule: Rule, pre: string)
    requires IsRule(rule) && Quiet(pre) && Free(rule, pre)
    ensures Free(rule, Escape(pre))
  {
    hide Escape, MayPrecede;
    if pre == "" {
      EmptyEscapes();
    } else {
      assert pre[|pre| - 1] in pre;
      LastOfEscape(pre);
      LastOfChar(rule, pre[|pre| - 1]);
    }
  }

  lemma LastOfEscape(s: string)
    requires s != ""
    ensures EscapeChar(s[|s| - 1]) != ""
    ensures Escape(s) != "" && Escape(s)[|Escape(s)| - 1] == EscapeChar(s[|s| - 1])[|EscapeChar(s[|s| - 1])| - 1]
  {
    var init, c := s[..|s| - 1], s[|s| - 1];
    assert s == init + [c] && [c][1..] == "";
    EscapeAppend(init, [c]);
    assert Escape([c]) == EscapeChar(c) + "";
  }

  lemma LastOfChar(rule: Rule, c: char)
    requires IsRule(rule) && MayPrecede(rule, c) && c !in {'*', '_', '~', '|', '@', '#', ':'}
    ensures var e := EscapeChar(c); e != "" && MayPrecede(rule, e[|e| - 1])
  {
    Classes(';');
  }

  lemma FirstOfEscape(s: string)
    requires s != ""
    ensures Escape(s) != "" && (Escape(s)[0] == s[0] || Escape(s)[0] == '&')
  {
    var e := EscapeChar(s[0]);
    assert Escape(s)[0] == e[0];
  }

  lemma WholeEscapes(rule: Rule, body: string, post: string)
    requires IsWhole(rule, body, post)
    ensures IsWhole(rule, body, Escape(post))
  {
    hide Escape;
    if post == "" {
      EmptyEscapes();
    } else {
      FirstOfEscape(post);
      Classes('&');
    }
  }

  lemma EmptyEscapes()
    ensures Escape("") == ""
  {}

  /** Its own pass finds the token and nothing else. */
  lemma OwnPass(rule: Rule, a: string, b: string, c: string)
    requires IsRule(rule) && IsBody(rule, b) && IsWhole(rule, b, c) && Free(rule, a)
    requires Only(a, {}) && Only(c, {})
    ensures ReplaceAll(rule, a + (Token(rule, b) + c), true) == a + Becomes(rule, b) + c
  {
    hide ReplaceAll, IsBody, IsWhole, Becomes;
    var t := Token(rule, b);
    var s := a + (t + c);
    assert s[|a|..] == t + c;
    assert Place(rule, s, |a|, b);
    forall i: nat, other | i < |a| || i >= |a| + |t| ensures !Place(rule, s, i, other) {
      if Place(rule, s, i, other) { NotOutside(rule, a, t, c, i, other); }
    }
    hide Place, Token;
    PassWrapsOnly(rule, a, b, c);
  }

  /** There is no place in text without markers. */
  lemma NotOutside(rule: Rule, a: string, t: string, c: string, i: nat, other: string)
    requires IsRule(rule) && Place(rule, a + (t + c), i, other) && Only(a, {}) && Only(c, {})
    ensures |a| <= i < |a| + |t|
  {
    hide Place, Only;
    var s := a + (t + c);
    PlaceStarts(rule, s, i, other);
    MarklessText(rule, a);
    MarklessText(rule, c);
    assert forall k :: |a| + |t| <= k < |s| ==> s[k] == c[k - |a| - |t|];
  }

  lemma MarklessText(rule: Rule, a: string)
    requires IsRule(rule) && Only(a, {})
    ensures forall i :: 0 <= i < |a| && a[i] == MarkOf(rule) ==> rule.Channel? && i + 1 < |a| && a[i + 1] == '3'
  {
    assert forall i :: 0 <= i < |a| ==> a[i] in a;
  }

  // ----- The line as a whole -----

  predicate Lacks(s: string, c: char) {
    forall i :: 0 <= i < |s| ==> s[i] != c
  }

  lemma PairedAppend(x: string, y: string)
    requires Paired(x, '*') && Paired(y, '*')
    ensures Paired(x + y, '*')
  {
    var s := x + y;
    forall i | 0 <= i < |s| && s[i] == '*' ensures HasTwin(s, i, '*') {
      if i < |x| { assert HasTwin(x, i, '*'); } else { assert HasTwin(y, i - |x|, '*'); }
    }
  }

  lemma StarsSingle(x: string, y: string, z: string)
    requires Lacks(x, '*') && Lacks(y, '*') && Lacks(z, '*') && y != ""
    ensures Single(x + ("*" + y + "*" + z), '*')
  {}

  lemma UnderscoresFew(x: string, y: string, z: string)
    requires Lacks(x, '_') && Lacks(z, '_') && AtMostOnce(y, '_')
    ensures AtMostOnce(x + y + z, '_')
  {}

  lemma BoldPaired(a: string, b: string, c: string)
    requires Only(a, {}) && Only(b, {}) && Only(c, {})
    ensures Paired(a + Becomes(Bold, b) + c, '*')
  {
    hide Paired, Only;
    LacksMarks(a, '*');
    LacksMarks(b, '*');
    LacksMarks(c, '*');
    var d, front := Dimmed("**"), "<span class=\"md-strong\">";
    TagsPaired();
    PairedAppend("<span class=\"md-mk\">", "**");
    PairedAppend("<span class=\"md-mk\">" + "**", "</span>");
    PairedAppend(d, b);
    PairedAppend(d + b, d);
    PairedAppend(front, d + b + d);
    PairedAppend(front + (d + b + d), "</span>");
    assert Becomes(Bold, b) == front + (d + b + d) + "</span>";
    PairedAppend(a, Becomes(Bold, b));
    PairedAppend(a + Becomes(Bold, b), c);
  }

  lemma TagsPaired()
    ensures Paired("<span class=\"md-mk\">", '*') && Paired("<span class=\"md-strong\">", '*')
    ensures Paired("**", '*') && Paired("</span>", '*')
  {}

  lemma LacksMarks(s: string, c: char)
    requires Only(s, {}) && c in {'*', '_'}
    ensures Lacks(s, c) && (c == '*' ==> Paired(s, c))
  {
    assert forall i :: 0 <= i < |s| ==> s[i] in s;
  }

  lemma NameOnce(rule: Rule, a: string, b: string, c: string)
    requires (rule.Mention? || rule.Channel? || rule.Emoji?) && AtMostOnce(b, '_')
    requires Only(a, {}) && Only(c, {})
    ensures AtMostOnce(a + (Token(rule, b) + c), '_')
  {
    LacksMarks(a, '_');
    LacksMarks(c, '_');
    var cl := if rule.Emoji? then ":" else "";
    UnderscoresFew(a + [MarkOf(rule)], b, cl + c);
    assert a + (Token(rule, b) + c) == (a + [MarkOf(rule)]) + b + (cl + c);
  }

  /** The eight passes on the escaped line. */
  lemma PassesOnLine(rule: Rule, a: string, b: string, c: string, ctx: Option<Context>)
    requires IsRule(rule) && IsRun(rule, ctx) && Free(rule, a)
    requires IsBody(rule, b) && IsWhole(rule, b, c) && Only(a, {}) && Only(c, {}) && Only(b, Marks(rule))
    requires if rule.Bold? || rule.Italic? || rule.Double? then Only(b, {}) else AtMostOnce(b, '_')
    ensures var line, out := a + (Token(rule, b) + c), a + Becomes(rule, b) + c;
      Annotate(Emphasize(line), ctx) == out && Only(line, Marks(rule)) && Only(out, Marks(rule))
  {
    hide ReplaceAll, Only, Emphasize, Annotate, Token, Becomes, IsWhole, Free;
    var marks := Marks(rule);
    var line, out := a + (Token(rule, b) + c), a + Becomes(rule, b) + c;
    OwnPass(rule, a, b, c);
    Weaker(a, marks);
    Weaker(c, marks);
    TokenOnly(rule, b);
    OnlyAppend(Token(rule, b), c, marks);
    OnlyAppend(a, Token(rule, b) + c, marks);
    OnlyAppend(a, Becomes(rule, b), marks);
    OnlyAppend(a + Becomes(rule, b), c, marks);
    if rule.Bold? { BoldPaired(a, b, c); }
    if rule == Italic('*') { ItalicSingle(a, b, c); }
    if rule.Mention? || rule.Channel? || rule.Emoji? { NameOnce(rule, a, b, c); }
    Passed(rule, line, out, ctx);
  }

  lemma Weaker(s: string, marks: set<char>)
    requires Only(s, {})
    ensures Only(s, marks)
  {}

  lemma ItalicSingle(a: string, b: string, c: string)
    requires Only(a, {}) && Only(b, {}) && Only(c, {}) && b != ""
    ensures Single(a + (Token(Italic('*'), b) + c), '*')
  {
    LacksMarks(a, '*');
    LacksMarks(b, '*');
    LacksMarks(c, '*');
    StarsSingle(a, b, c);
  }

  lemma {:induction false} RestoresNothing(s: string, tokens: seq<string>)
    requires '\0' !in s
    ensures Restore(s, tokens) == s
  {
    if s != "" {
      assert s[0] in s && forall c <- s[1..] :: c in s;
      RestoresNothing(s[1..], tokens);
      assert s == [s[0]] + s[1..];
    }
  }

  /** One token amid quiet text: `decorateLine` escapes the text, turns the token into its span,
      and does nothing else. */
  lemma DecoratesToken(rule: Rule, pre: string, body: string, post: string, ctx: Option<Context>)
    requires IsRun(rule, ctx) && Quiet(pre) && Quiet(post) && Lone(rule, body)
    requires Free(rule, pre) && IsWhole(rule, body, post)
    ensures DecorateLine(pre + (Token(rule, body) + post), ctx)
         == Escape(pre) + Becomes(rule, Escape(body)) + Escape(post)
  {
    hide Escape, EscapeHtml, PullCode, Restore, Emphasize, Annotate, Token, Becomes, Only, IsBody, IsWhole, Quiet;
    var line := pre + (Token(rule, body) + post);
    var a, b, c := Escape(pre), Escape(body), Escape(post);
    EscapeHtmlIsEscape(line);
    EscapeAppend(pre, Token(rule, body) + post);
    EscapeAppend(Token(rule, body), post);
    TokenEscapes(rule, body);
    QuietEscapes(pre, {});
    QuietEscapes(post, {});
    BodyEscapes(rule, body);
    FreeEscapes(rule, pre);
    BodyWhole(rule, body, post);
    if !(rule.Bold? || rule.Italic? || rule.Double?) { LoneOnce(rule, body); }
    PassesOnLine(rule, a, b, c, ctx);
    NoReferences(a + (Token(rule, b) + c), Marks(rule));
    NoReferences(a + Becomes(rule, b) + c, Marks(rule));
    NothingPulled(a + (Token(rule, b) + c), 0);
    RestoresNothing(a + Becomes(rule, b) + c, CodeHtmls([]));
  }

  lemma NoReferences(s: string, marks: set<char>)
    requires Only(s, marks) && '`' !in marks && '\0' !in marks
    ensures '`' !in s && '\0' !in s
  {}

  lemma BodyWhole(rule: Rule, body: string, post: string)
    requires IsRule(rule) && Lone(rule, body) && IsWhole(rule, body, post)
    ensures IsWhole(rule, Escape(body), Escape(post))
  {
    WholeEscapes(rule, body, post);
    BodyEscapes(rule, body);
    hide Escape, Only, IsBody;
  }

  lemma LoneOnce(rule: Rule, body: string)
    requires IsRule(rule) && Lone(rule, body) && !(rule.Bold? || rule.Italic? || rule.Double?)
    ensures AtMostOnce(Escape(body), '_')
  {
    BodyEscapes(rule, body);
    hide Escape, IsBody;
  }

  /** Text without any place for a pass that is run, without backtick and NUL, is only escaped. */
  lemma DecoratesPlain(line: string, ctx: Option<Context>)
    requires '`' !in line && '\0' !in line
    requires forall rule, i: nat, body :: IsRun(rule, ctx) ==> !Place(rule, Escape(line), i, body)
    ensures DecorateLine(line, ctx) == Escape(line)
  {
    hide Escape, EscapeHtml, PullCode, Restore, ReplaceAll, Place;
    var s := Escape(line);
    EscapeHtmlIsEscape(line);
    ClearEscapes(line);
    NothingPulled(s, 0);
    PassLeaves(Bold, s);
    PassLeaves(Italic('*'), s);
    PassLeaves(Italic('_'), s);
    PassLeaves(Double('~', "md-del"), s);
    PassLeaves(Double('|', "md-spoiler"), s);
    if ctx.Some? {
      var known := ctx.value;
      if known.usernames.Some? { PassLeaves(Mention(known.usernames.value, known.me), s); }
      if known.channels.Some? { PassLeaves(Channel(known.channels.value), s); }
      if known.emojis.Some? { PassLeaves(Emoji(known.emojis.value), s); }
    }
    RestoresNothing(s, CodeHtmls([]));
  }

  lemma {:induction false} ClearEscapes(s: string)
    requires '`' !in s && '\0' !in s
    ensures '`' !in Escape(s) && '\0' !in Escape(s)
  {
    if s != "" {
      assert s[0] in s && forall c <- s[1..] :: c in s;
      ClearEscapes(s[1..]);
      ClearChar(s[0]);
    }
  }

  lemma ClearChar(c: char)
    requires c != '`' && c != '\0'
    ensures '`' !in EscapeChar(c) && '\0' !in EscapeChar(c)
  {}

  /** A code span amid quiet text: the span holds its text as it is, whatever markers, names or
      references to spans stand in it. */
  lemma DecoratesCode(pre: string, inner: string, post: string, ctx: Option<Context>)
    requires Quiet(pre) && Quiet(post) && '`' !in inner
    ensures DecorateLine(pre + ("`" + (inner + ("`" + post))), ctx)
         == Escape(pre) + Span("md-code", Dimmed("`") + Escape(inner) + Dimmed("`")) + Escape(post)
  {
    hide Escape, EscapeHtml, PullCode, Restore, Emphasize, Annotate, Only, Quiet;
    var line := pre + ("`" + (inner + ("`" + post)));
    var a, b, c := Escape(pre), Escape(inner), Escape(post);
    EscapeHtmlIsEscape(line);
    EscapeAppend(pre, "`" + (inner + ("`" + post)));
    EscapeAppend("`", inner + ("`" + post));
    EscapeAppend(inner, "`" + post);
    EscapeAppend("`", post);
    NothingEscapes("`");
    QuietEscapes(pre, {'\0'});
    QuietEscapes(post, {'\0'});
    BacktickStays(inner);
    PullsSpan(a, b, c);
    var pulled := a + ("\0" + "0" + "\0" + c);
    ReferenceOnly();
    OnlyAppend("\0" + "0" + "\0", c, {'\0'});
    OnlyAppend(a, "\0" + "0" + "\0" + c, {'\0'});
    NothingApplies(pulled, {'\0'}, ctx);
    assert CodeHtmls([b]) == [CodeHtml(b)];
    RestoresSpan(a, c, [CodeHtml(b)]);
    CodeIsSpan(b);
  }

  lemma {:induction false} BacktickStays(s: string)
    requires '`' !in s
    ensures '`' !in Escape(s)
  {
    if s != "" {
      assert s[0] in s && forall c <- s[1..] :: c in s;
      BacktickStays(s[1..]);
      BacktickChar(s[0]);
      hide EscapeChar;
    }
  }

  lemma BacktickChar(c: char)
    requires c != '`'
    ensures '`' !in EscapeChar(c)
  {}

  lemma ReferenceOnly()
    ensures Only("\0" + "0" + "\0", {'\0'})
  {}

  lemma CodeIsSpan(b: string)
    ensures CodeHtml(b) == Span("md-code", Dimmed("`") + b + Dimmed("`"))
  {
    DimmedIs("`");
    SpanIs("md-code", Dimmed("`") + b + Dimmed("`"));
    Associative(Open("md-code"), Mk("`") + b + Mk("`"), CLOSE);
  }

  /** No pass has anything to do in text whose markers are not theirs. */
  lemma NothingApplies(s: string, marks: set<char>, ctx: Option<Context>)
    requires Only(s, marks) && marks !! {'*', '_', '~', '|', '@', '#', ':'}
    ensures Annotate(Emphasize(s), ctx) == s
  {
    hide ReplaceAll, Only;
    AbsentLeaves(Bold, s, marks);
    AbsentLeaves(Italic('*'), s, marks);
    AbsentLeaves(Italic('_'), s, marks);
    AbsentLeaves(Double('~', "md-del"), s, marks);
    AbsentLeaves(Double('|', "md-spoiler"), s, marks);
    if ctx.Some? {
      var known := ctx.value;
      if known.usernames.Some? { AbsentLeaves(Mention(known.usernames.value, known.me), s, marks); }
      if known.channels.Some? { AbsentLeaves(Channel(known.channels.value), s, marks); }
      if known.emojis.Some? { AbsentLeaves(Emoji(known.emojis.value), s, marks); }
    }
  }

  lemma {:induction false} PullsSpan(a: string, b: string, c: string)
    requires Only(a, {'\0'}) && '`' !in b && '`' !in c
    ensures PullCode(a + ("`" + (b + ("`" + c))), 0) == Pulled(a + ("\0" + "0" + "\0" + c), [b])
    decreases |a|
  {
    hide Only;
    var s := a + ("`" + (b + ("`" + c)));
    if a == "" {
      assert s == "`" + (b + ("`" + c));
      PullsFront(b, c);
      assert a + ("\0" + "0" + "\0" + c) == "\0" + "0" + "\0" + c;
    } else {
      FirstIsPlain(a);
      assert s[0] == a[0] && s[1..] == a[1..] + ("`" + (b + ("`" + c)));
      PullsSpan(a[1..], b, c);
      assert a == [a[0]] + a[1..];
      Associative([a[0]], a[1..], "\0" + "0" + "\0" + c);
    }
  }

  lemma PullsFront(b: string, c: string)
    requires '`' !in b && '`' !in c
    ensures PullCode("`" + (b + ("`" + c)), 0) == Pulled("\0" + "0" + "\0" + c, [b])
  {
    var s := "`" + (b + ("`" + c));
    assert forall i :: 1 <= i < 1 + |b| ==> s[i] == b[i - 1] && b[i - 1] in b;
    RunEndAt(s, 1, 1 + |b|, {'`'});
    assert s[1..1 + |b|] == b && s[1 + |b| + 1..] == c;
    NothingPulled(c, 1);
    FirstNumber();
    assert [b] + [] == [b];
  }

  lemma FirstIsPlain(a: string)
    requires a != "" && Only(a, {'\0'})
    ensures a[0] != '`' && Only(a[1..], {'\0'})
  {
    assert a[0] in a && forall c <- a[1..] :: c in a;
    forall i | 0 <= i < |a[1..]| && a[1..][i] == '#' ensures i + 1 < |a[1..]| && a[1..][i + 1] == '3' {
      assert a[i + 1] == '#';
    }
  }

  lemma FirstNumber()
    ensures Decimal(0) == "0"
  {}

  lemma {:induction false} RestoresSpan(a: string, c: string, tokens: seq<string>)
    requires '\0' !in a && '\0' !in c && |tokens| == 1
    ensures Restore(a + ("\0" + "0" + "\0" + c), tokens) == a + tokens[0] + c
    decreases |a|
  {
    var s := a + ("\0" + "0" + "\0" + c);
    if a == "" {
      assert s == "\0" + "0" + "\0" + c;
      assert s[1] == '0' && s[2] == '\0';
      DigitsEndAt(s, 1, 2);
      assert s[1..2] == "0" && s[3..] == c;
      assert ValueFrom(0, "0") == ValueFrom(0, "") == 0 by { assert "0"[1..] == ""; }
      RestoresNothing(c, tokens);
    } else {
      assert a[0] in a && forall x <- a[1..] :: x in a;
      assert s[0] == a[0] && s[1..] == a[1..] + ("\0" + "0" + "\0" + c);
      RestoresSpan(a[1..], c, tokens);
      assert a == [a[0]] + a[1..];
    }
  }
}
