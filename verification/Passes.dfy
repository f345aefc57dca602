/** What each replacement pass does, told from the text alone: where a token stands, and the span
    it becomes. */
module Passes {
  import opened Basics
  import opened Html
  import opened Markup
  import opened Rules
  import opened Scan

  // ----- Tokens -----

  const NAME_CHARS := CAPITALS + LETTERS + DIGITS + "_"
  const CHANNEL_CHARS := LETTERS + DIGITS + "_-"
  const EMOJI_CHARS := "+" + LETTERS + DIGITS + "_"

  /** A body with its markers around it, or in front of it. */
  function Token(rule: Rule, body: string): string {
    match rule
    case Bold => "**" + body + "**"
    case Italic(mark) => [mark] + body + [mark]
    case Double(mark, _) => [mark, mark] + body + [mark, mark]
    case Mention(_, _) => "@" + body
    case Channel(_) => "#" + body
    case Emoji(_) => ":" + body + ":"
  }

  /** What may stand between them. In a bold run a star may, but neither two of them nor one at
      the end; a name has 2 to 32 characters, that of a channel 1 to 32 and a letter first. */
  predicate IsBody(rule: Rule, body: string) {
    match rule
    case Bold => body != "" && forall i :: 0 <= i < |body| && body[i] == '*' ==> i + 1 < |body| && body[i + 1] != '*'
    case Italic(mark) => body != "" && mark !in body && '\n' !in body
    case Double(mark, _) => body != "" && mark !in body
    case Mention(_, _) => 2 <= |body| <= 32 && forall c <- body :: c in NAME_CHARS
    case Channel(_) => 1 <= |body| <= 32 && body[0] in LETTERS && forall c <- body :: c in CHANNEL_CHARS
    case Emoji(_) => 2 <= |body| <= 32 && forall c <- body :: c in EMOJI_CHARS
  }

  function Span(cls: string, inner: string): string {
    "<span class=\"" + cls + "\">" + inner + "</span>"
  }

  function Dimmed(marker: string): string {
    "<span class=\"md-mk\">" + marker + "</span>"
  }

  function Emphasized(cls: string, marker: string, body: string): string {
    Span(cls, Dimmed(marker) + body + Dimmed(marker))
  }

  /** What the token turns into: its own text in a span of the class, markers dimmed, or just
      tinted; names that are not known stay as they are. */
  function Becomes(rule: Rule, body: string): string {
    match rule
    case Bold => Emphasized("md-strong", "**", body)
    case Italic(mark) => Emphasized("md-em", [mark], body)
    case Double(mark, _) => Emphasized(if mark == '~' then "md-del" else "md-spoiler", [mark, mark], body)
    case Mention(usernames, me) =>
      if ToLower(body) !in usernames then "@" + body
      else if me != "" && me == ToLower(body) then Span("md-mention md-mention-me", "@" + body)
      else Span("md-mention", "@" + body)
    case Channel(names) => if body in names then Span("md-channel", "#" + body) else "#" + body
    case Emoji(names) => if body in names then Span("md-emoji", ":" + body + ":") else ":" + body + ":"
  }

  /** A name goes on as far as it can. */
  predicate IsWhole(rule: Rule, body: string, rest: string) {
    match rule
    case Mention(_, _) => |body| == 32 || rest == "" || rest[0] !in NAME_CHARS
    case Channel(_) => |body| == 32 || rest == "" || rest[0] !in CHANNEL_CHARS
    case _ => true
  }

  /** What may stand in front of a token: anything but its own marker for an italic one, for a
      mention or a channel nothing a name or a path could end with. */
  predicate MayPrecede(rule: Rule, c: char) {
    match rule
    case Italic(mark) => c != mark
    case Mention(_, _) => c !in NAME_CHARS && c != '/'
    case Channel(_) => c !in NAME_CHARS && c != '/'
    case _ => true
  }

  predicate AsksForBoundary(rule: Rule) {
    rule.Italic? || rule.Mention? || rule.Channel?
  }

  // ----- The matcher and the tokens -----

  lemma Classes(c: char)
    ensures IsNameChar(c) <==> c in NAME_CHARS
    ensures IsChannelChar(c) <==> c in CHANNEL_CHARS
    ensures IsEmojiChar(c) <==> c in EMOJI_CHARS
  {
    Runs(c);
  }

  lemma {:induction false} BoldEndAt(s: string, k: nat, e: nat)
    requires 2 <= k <= e && 2 < e && e + 1 < |s| && s[e] == '*' && s[e + 1] == '*'
    requires forall i :: k <= i < e && s[i] == '*' ==> s[i + 1] != '*'
    ensures BoldEnd(s, k) == e
    decreases e - k
  {
    if k < e { BoldEndAt(s, k + 1, e); }
  }

  /** Where BoldEnd finds an end, nothing before it is two stars. */
  lemma {:induction false} BoldEndFirst(s: string, k: nat)
    requires 2 <= k <= |s| && BoldEnd(s, k) < |s|
    ensures forall i :: k <= i < BoldEnd(s, k) && s[i] == '*' ==> s[i + 1] != '*'
    decreases |s| - k
  {
    if !(s[k] == '*' && k + 1 < |s| && s[k + 1] == '*') { BoldEndFirst(s, k + 1); }
  }

  lemma Parted(op: string, body: string, cl: string, rest: string)
    ensures var s := op + body + cl + rest;
      && s[..|op|] == op && s[|op|..|op| + |body|] == body
      && s[|op| + |body|..|op| + |body| + |cl|] == cl && s[|op| + |body| + |cl|..] == rest
  {}

  // A token at the front is matched, whole.

  lemma BoldFound(body: string, rest: string)
    requires IsBody(Bold, body)
    ensures TokenAt(Bold, Token(Bold, body) + rest) == Found("", "**", body, "**", Emphasis("md-strong"))
  {
    var s, n := Token(Bold, body) + rest, |body|;
    assert forall i :: 0 <= i < n ==> s[i + 2] == body[i];
    BoldEndAt(s, 2, 2 + n);
    assert s[2..2 + n] == body;
  }

  lemma ItalicFound(mark: char, body: string, rest: string)
    requires IsBody(Italic(mark), body)
    ensures TokenAt(Italic(mark), Token(Italic(mark), body) + rest)
            == Found("", [mark], body, [mark], Emphasis("md-em"))
  {
    var s, n := Token(Italic(mark), body) + rest, |body|;
    assert forall i :: 1 <= i < 1 + n ==> s[i] == body[i - 1];
    RunEndAt(s, 1, 1 + n, {mark, '\n'});
    assert s[1..1 + n] == body;
  }

  lemma DoubleFound(mark: char, cls: string, body: string, rest: string)
    requires IsBody(Double(mark, cls), body)
    ensures TokenAt(Double(mark, cls), Token(Double(mark, cls), body) + rest)
         == Found("", [mark, mark], body, [mark, mark], Emphasis(cls))
  {
    var s, n := Token(Double(mark, cls), body) + rest, |body|;
    assert forall i :: 2 <= i < 2 + n ==> s[i] == body[i - 2];
    RunEndAt(s, 2, 2 + n, {mark});
    assert s[2..2 + n] == body;
  }

  lemma MentionFound(usernames: set<string>, me: string, body: string, rest: string)
    requires var rule := Mention(usernames, me); IsBody(rule, body) && IsWhole(rule, body, rest)
    ensures var rule := Mention(usernames, me);
      TokenAt(rule, Token(rule, body) + rest) == Found("", "@", body, "",
        if ToLower(body) !in usernames then Untouched
        else if me != "" && me == ToLower(body) then Tint("md-mention md-mention-me") else Tint("md-mention"))
  {
    var s, n := Token(Mention(usernames, me), body) + rest, |body|;
    assert s == "@" + body + rest;
    forall i | 1 <= i < 1 + n ensures IsNameChar(s[i]) {
      assert s[i] == body[i - 1] && body[i - 1] in body;
      Classes(s[i]);
    }
    if rest != "" { Classes(rest[0]); }
    ClassEndAt(s, 1, 32, IsNameChar, 1 + n);
    assert s[1..1 + n] == body;
  }

  lemma ChannelBody(body: string)
    requires body != "" && body[0] in LETTERS && forall c <- body :: c in CHANNEL_CHARS
    ensures 'a' <= body[0] <= 'z' && forall i :: 0 <= i < |body| ==> IsChannelChar(body[i])
  {
    hide IsChannelChar;
    Classes(body[0]);
    forall i | 0 <= i < |body| ensures IsChannelChar(body[i]) {
      Classes(body[i]);
    }
  }

  lemma ChannelStops(names: set<string>, body: string, rest: string)
    requires IsWhole(Channel(names), body, rest)
    ensures |body| == 32 || rest == "" || !IsChannelChar(rest[0])
  {
    if rest != "" { Classes(rest[0]); }
  }

  lemma ChannelFound(names: set<string>, body: string, rest: string)
    requires var rule := Channel(names); IsBody(rule, body) && IsWhole(rule, body, rest)
    ensures var rule := Channel(names);
      TokenAt(rule, Token(rule, body) + rest)
      == Found("", "#", body, "", if body in names then Tint("md-channel") else Untouched)
  {
    ChannelBody(body);
    ChannelStops(names, body, rest);
    ChannelEnds(body, rest);
    hide IsChannelChar, IsBody, IsWhole, ClassEnd;
    var s, n := "#" + body + rest, |body|;
    assert s[1..1 + n] == body && s[1] == body[0];
  }

  lemma ChannelEnds(body: string, rest: string)
    requires 1 <= |body| <= 32 && forall i :: 0 <= i < |body| ==> IsChannelChar(body[i])
    requires |body| == 32 || rest == "" || !IsChannelChar(rest[0])
    ensures ClassEnd("#" + body + rest, 2, 31, IsChannelChar) == 1 + |body|
  {
    hide IsChannelChar;
    var s, n := "#" + body + rest, |body|;
    assert forall i :: 2 <= i < 1 + n ==> s[i] == body[i - 1];
    ClassEndAt(s, 2, 31, IsChannelChar, 1 + n);
  }

  lemma EmojiFound(names: set<string>, body: string, rest: string)
    requires IsBody(Emoji(names), body)
    ensures TokenAt(Emoji(names), Token(Emoji(names), body) + rest)
         == Found("", ":", body, ":", if body in names then Tint("md-emoji") else Untouched)
  {
    var s, n := Token(Emoji(names), body) + rest, |body|;
    assert s == ":" + body + ":" + rest;
    forall i | 1 <= i < 1 + n ensures IsEmojiChar(s[i]) {
      assert s[i] == body[i - 1] && body[i - 1] in body;
      Classes(s[i]);
    }
    assert !IsEmojiChar(s[1 + n]);
    ClassEndAt(s, 1, 32, IsEmojiChar, 1 + n);
    assert s[1..1 + n] == body;
  }

  lemma SpanIs(cls: string, inner: string)
    ensures Open(cls) + (inner + CLOSE) == Span(cls, inner)
  {
    assert Open(cls) == "<span class=\"" + cls + "\">";
    Associative("<span class=\"" + cls + "\">", inner, "</span>");
  }

  lemma DimmedIs(marker: string)
    ensures Mk(marker) == Dimmed(marker)
  {
    assert Open("md-mk") == "<span class=\"md-mk\">";
  }

  lemma EmphasisRendered(pre: string, marker: string, body: string, cls: string)
    ensures Render(Found(pre, marker, body, marker, Emphasis(cls))) == pre + Emphasized(cls, marker, body)
  {
    DimmedIs(marker);
    hide Mk, Dimmed, Span, Open;
    var m := Dimmed(marker);
    SpanIs(cls, m + body + m);
    Associative(m, body, m);
    Associative(m, body + m, CLOSE);
    Associative(body, m, CLOSE);
  }

  lemma TintRendered(pre: string, op: string, body: string, cl: string, cls: string)
    ensures Render(Found(pre, op, body, cl, Tint(cls))) == pre + Span(cls, op + body + cl)
  {
    hide Span, Open;
    SpanIs(cls, op + body + cl);
    Associative(op, body, cl);
    Associative(op, body + cl, CLOSE);
  }

  /** ... and rendered as said, behind whatever boundary it was found. */
  lemma TokenFound(rule: Rule, body: string, rest: string, pre: string)
    requires IsRule(rule) && IsBody(rule, body) && IsWhole(rule, body, rest)
    ensures var m := TokenAt(rule, Token(rule, body) + rest);
      && m.Found? && m.pre == "" && m.(pre := pre).Matched() == pre + Token(rule, body)
      && Render(m.(pre := pre)) == pre + Becomes(rule, body)
  {
    hide TokenAt, IsBody, IsWhole, Span, Emphasized;
    match rule
    case Bold =>
      BoldFound(body, rest);
      EmphasisRendered(pre, "**", body, "md-strong");
    case Italic(mark) =>
      ItalicFound(mark, body, rest);
      EmphasisRendered(pre, [mark], body, "md-em");
    case Double(mark, cls) =>
      DoubleFound(mark, cls, body, rest);
      EmphasisRendered(pre, [mark, mark], body, cls);
    case Mention(usernames, me) =>
      MentionFound(usernames, me, body, rest);
      NamedRendered(pre, "@", body, "", TokenAt(rule, Token(rule, body) + rest).style);
    case Channel(names) =>
      ChannelFound(names, body, rest);
      NamedRendered(pre, "#", body, "", TokenAt(rule, Token(rule, body) + rest).style);
    case Emoji(names) =>
      EmojiFound(names, body, rest);
      NamedRendered(pre, ":", body, ":", TokenAt(rule, Token(rule, body) + rest).style);
  }

  lemma NamedRendered(pre: string, op: string, body: string, cl: string, style: Style)
    requires !style.Emphasis?
    ensures Render(Found(pre, op, body, cl, style)) ==
      pre + (if style.Tint? then Span(style.cls, op + body + cl) else op + body + cl)
    ensures cl == "" ==> op + body + cl == op + body
  {
    if style.Tint? {
      TintRendered(pre, op, body, cl, style.cls);
    } else {
      Associative(op, body, cl);
    }
  }

  lemma {:induction false} ClassEndReaches(s: string, k: nat, limit: nat, allowed: char -> bool, e: nat)
    requires k <= e <= |s| && e - k <= limit && forall i :: k <= i < e ==> allowed(s[i])
    ensures ClassEnd(s, k, limit, allowed) >= e
    decreases e - k
  {
    if k < e { ClassEndReaches(s, k + 1, limit - 1, allowed, e); }
  }

  lemma MentionMet(usernames: set<string>, me: string, body: string, rest: string)
    requires IsBody(Mention(usernames, me), body)
    ensures TokenAt(Mention(usernames, me), "@" + body + rest).Found?
  {
    var s, n := "@" + body + rest, |body|;
    forall i | 1 <= i < 1 + n ensures IsNameChar(s[i]) {
      assert s[i] == body[i - 1] && body[i - 1] in body;
      Classes(s[i]);
    }
    ClassEndReaches(s, 1, 32, IsNameChar, 1 + n);
  }

  /** Where a token starts, something is matched. */
  lemma TokenMet(rule: Rule, body: string, rest: string)
    requires IsRule(rule) && IsBody(rule, body)
    ensures TokenAt(rule, Token(rule, body) + rest).Found?
  {
    hide TokenAt;
    match rule
    case Mention(usernames, me) =>
      hide IsBody;
      MentionMet(usernames, me, body, rest);
    case Channel(names) =>
      Runs(body[0]);
      ChannelMet(names, "#" + body + rest);
    case _ =>
      hide IsBody;
      TokenFound(rule, body, rest, "");
  }

  lemma ChannelMet(names: set<string>, s: string)
    requires |s| >= 2 && s[0] == '#' && 'a' <= s[1] <= 'z'
    ensures TokenAt(Channel(names), s).Found?
  {}

  // What is matched is a token.

  lemma BoldIsToken(s: string)
    requires TokenAt(Bold, s).Found?
    ensures var body := TokenAt(Bold, s).body; IsBody(Bold, body) && Token(Bold, body) <= s
  {
    var body, e := TokenAt(Bold, s).body, BoldEnd(s, 2);
    BoldEndFirst(s, 2);
    assert s[..e + 2] == "**" + body + "**";
    forall i | 0 <= i < |body| && body[i] == '*' ensures i + 1 < |body| && body[i + 1] != '*' {
      assert s[i + 2] == '*' && s[i + 3] != '*';
    }
  }

  lemma MarkedIsToken(rule: Rule, s: string)
    requires (rule.Italic? || rule.Double?) && TokenAt(rule, s).Found?
    ensures var body := TokenAt(rule, s).body; IsBody(rule, body) && Token(rule, body) <= s
  {
    var body := TokenAt(rule, s).body;
    match rule
    case Italic(mark) => assert s[..|body| + 2] == [mark] + body + [mark];
    case Double(mark, _) => assert s[..|body| + 4] == [mark, mark] + body + [mark, mark];
  }

  lemma MentionIsToken(usernames: set<string>, me: string, s: string)
    requires TokenAt(Mention(usernames, me), s).Found?
    ensures var rule := Mention(usernames, me);
      var body := TokenAt(rule, s).body;
      IsBody(rule, body) && Token(rule, body) <= s
  {
    var body := TokenAt(Mention(usernames, me), s).body;
    assert s[..|body| + 1] == "@" + body;
    forall c | c in body ensures c in NAME_CHARS {
      var i :| 0 <= i < |body| && body[i] == c;
      assert c == s[i + 1];
      Classes(c);
    }
  }

  lemma ChannelIsToken(names: set<string>, s: string)
    requires TokenAt(Channel(names), s).Found?
    ensures var body := TokenAt(Channel(names), s).body;
      IsBody(Channel(names), body) && Token(Channel(names), body) <= s
  {
    var body := TokenAt(Channel(names), s).body;
    assert s[..|body| + 1] == "#" + body && body[0] == s[1];
    forall c | c in body ensures c in CHANNEL_CHARS {
      var i :| 0 <= i < |body| && body[i] == c;
      assert c == s[i + 1];
      Classes(c);
    }
    Runs(body[0]);
  }

  lemma EmojiIsToken(names: set<string>, s: string)
    requires TokenAt(Emoji(names), s).Found?
    ensures var body := TokenAt(Emoji(names), s).body;
      IsBody(Emoji(names), body) && Token(Emoji(names), body) <= s
  {
    var body := TokenAt(Emoji(names), s).body;
    assert s[..|body| + 2] == ":" + body + ":";
    forall c | c in body ensures c in EMOJI_CHARS {
      var i :| 0 <= i < |body| && body[i] == c;
      assert c == s[i + 1];
      Classes(c);
    }
  }

  lemma TokenSome(rule: Rule, s: string)
    requires IsRule(rule) && TokenAt(rule, s).Found?
    ensures exists body :: IsBody(rule, body) && Token(rule, body) <= s
  {
    hide TokenAt, IsBody, Token;
    match rule
    case Bold => BoldIsToken(s);
    case Italic(_) => MarkedIsToken(rule, s);
    case Double(_, _) => MarkedIsToken(rule, s);
    case Mention(usernames, me) => MentionIsToken(usernames, me, s);
    case Channel(names) => ChannelIsToken(names, s);
    case Emoji(names) => EmojiIsToken(names, s);
  }

  // ----- Places -----

  /** A token with that body stands at i. `start` says that nothing of the text came before s;
      a boundary is never taken from what a match before has used up. */
  ghost predicate PlaceIn(rule: Rule, s: string, start: bool, i: nat, body: string) {
    && IsBody(rule, body)
    && i <= |s| && Token(rule, body) <= s[i..]
    && (if i == 0 then start || !AsksForBoundary(rule) else MayPrecede(rule, s[i - 1]))
  }

  ghost predicate Place(rule: Rule, s: string, i: nat, body: string) {
    PlaceIn(rule, s, true, i, body)
  }

  lemma Boundaries(rule: Rule, c: char)
    ensures NeedsBoundary(rule) <==> AsksForBoundary(rule)
    ensures NeedsBoundary(rule) ==> (IsBoundary(rule, c) <==> MayPrecede(rule, c))
    ensures !NeedsBoundary(rule) ==> MayPrecede(rule, c)
  {
    Classes(c);
  }

  lemma Ahead(rule: Rule, s: string, body: string)
    requires IsRule(rule) && IsBody(rule, body) && Token(rule, body) <= s
    ensures TokenAt(rule, s).Found?
  {
    hide TokenAt, IsBody, Token;
    var t := Token(rule, body);
    assert s == t + s[|t|..];
    TokenMet(rule, body, s[|t|..]);
  }

  lemma AtFront(rule: Rule, s: string, start: bool)
    requires IsRule(rule) && TokenAt(rule, s).Found? && (start || !AsksForBoundary(rule))
    ensures exists body :: PlaceIn(rule, s, start, 0, body)
  {
    hide TokenAt, IsBody, Token;
    TokenSome(rule, s);
    var body :| IsBody(rule, body) && Token(rule, body) <= s;
    assert s[0..] == s;
    assert PlaceIn(rule, s, start, 0, body);
  }

  /** Nothing is matched without a place at the front or, behind a boundary, right after. */
  lemma FindSome(rule: Rule, s: string, start: bool)
    requires IsRule(rule) && Find(rule, s, start).Found?
    ensures (exists body :: PlaceIn(rule, s, start, 0, body))
            || (AsksForBoundary(rule) && exists body :: PlaceIn(rule, s, start, 1, body))
  {
    hide TokenAt, IsBody, Token;
    if s != "" { Boundaries(rule, s[0]); }
    if TokenAt(rule, s).Found? && (start || !AsksForBoundary(rule)) {
      AtFront(rule, s, start);
    } else {
      TokenSome(rule, s[1..]);
      var body :| IsBody(rule, body) && Token(rule, body) <= s[1..];
      assert PlaceIn(rule, s, start, 1, body);
    }
  }

  /** A token at the front, or right behind a boundary with none at the front. */
  lemma FindsToken(rule: Rule, pre: string, body: string, rest: string, start: bool)
    requires IsRule(rule) && IsBody(rule, body) && IsWhole(rule, body, rest)
    requires if pre == "" then start || !AsksForBoundary(rule)
             else |pre| == 1 && AsksForBoundary(rule) && MayPrecede(rule, pre[0])
                  && (start ==> TokenAt(rule, pre + (Token(rule, body) + rest)).NoMatch?)
    ensures var m := Find(rule, pre + (Token(rule, body) + rest), start);
      m.Found? && m.Matched() == pre + Token(rule, body) && Render(m) == pre + Becomes(rule, body)
  {
    hide TokenAt, IsBody, Token, Becomes, IsWhole, Render;
    var t := Token(rule, body) + rest;
    TokenFound(rule, body, rest, pre);
    if pre == "" {
      assert pre + t == t;
      NoPre(TokenAt(rule, t));
    } else {
      assert (pre + t)[0] == pre[0] && (pre + t)[1..] == t && [pre[0]] == pre;
      Boundaries(rule, pre[0]);
    }
    if t != "" { Boundaries(rule, t[0]); }
  }

  lemma NoPre(m: Match)
    requires m.Found? && m.pre == ""
    ensures m.(pre := "") == m
  {}

  // ----- The passes -----

  lemma FindNone(rule: Rule, s: string, start: bool)
    requires IsRule(rule)
    requires forall body :: !PlaceIn(rule, s, start, 0, body)
    requires AsksForBoundary(rule) ==> forall body :: !PlaceIn(rule, s, start, 1, body)
    ensures Find(rule, s, start).NoMatch?
  {
    hide Find, PlaceIn;
    if Find(rule, s, start).Found? { FindSome(rule, s, start); }
  }

  /** Text in which no token stands is left as it is. */
  lemma {:induction false} LeavesRest(rule: Rule, s: string, start: bool)
    requires IsRule(rule) && forall i: nat, body :: !PlaceIn(rule, s, start, i, body)
    ensures ReplaceAll(rule, s, start) == s
    decreases |s|
  {
    hide Find, PlaceIn;
    FindNone(rule, s, start);
    if s != "" {
      forall i: nat, body ensures !PlaceIn(rule, s[1..], false, i, body) {
        Further(rule, s, start, i, body);
      }
      LeavesRest(rule, s[1..], false);
      assert s == [s[0]] + s[1..];
    }
  }

  /** A place of the rest is a place of the whole, one further. */
  lemma Further(rule: Rule, s: string, start: bool, i: nat, body: string)
    requires s != ""
    ensures PlaceIn(rule, s[1..], false, i, body) ==> PlaceIn(rule, s, start, i + 1, body)
    ensures PlaceIn(rule, s, start, i + 1, body) && (i > 0 || !AsksForBoundary(rule)) ==>
              PlaceIn(rule, s[1..], false, i, body)
  {
    hide IsBody, Token;
    if i < |s| { assert s[1..][i..] == s[i + 1..]; }
  }

  lemma TokenIsLong(rule: Rule, body: string)
    ensures |Token(rule, body)| > 0
  {}

  lemma WrapsHere(rule: Rule, pre: string, body: string, post: string, start: bool)
    requires IsRule(rule) && IsWhole(rule, body, post)
    requires pre == "" || (|pre| == 1 && AsksForBoundary(rule))
    requires PlaceIn(rule, pre + (Token(rule, body) + post), start, |pre|, body)
    requires pre != "" ==> forall b :: !PlaceIn(rule, pre + (Token(rule, body) + post), start, 0, b)
    ensures ReplaceAll(rule, pre + (Token(rule, body) + post), start)
         == pre + Becomes(rule, body) + ReplaceAll(rule, post, false)
  {
    hide Find, Token, Becomes, IsBody, IsWhole, Render, TokenAt;
    var s := pre + (Token(rule, body) + post);
    TokenIsLong(rule, body);
    if pre != "" && start && TokenAt(rule, s).Found? { AtFront(rule, s, start); }
    FindsToken(rule, pre, body, post, start);
    assert s[|pre + Token(rule, body)|..] == post;
  }

  lemma Skips(rule: Rule, s: string, start: bool)
    requires IsRule(rule) && s != ""
    requires forall body :: !PlaceIn(rule, s, start, 0, body)
    requires AsksForBoundary(rule) ==> forall body :: !PlaceIn(rule, s, start, 1, body)
    ensures ReplaceAll(rule, s, start) == [s[0]] + ReplaceAll(rule, s[1..], false)
  {
    hide Find, PlaceIn;
    FindNone(rule, s, start);
  }

  /** The first token of the text becomes what it should; then the pass goes on behind it. */
  lemma {:induction false} WrapsFirst(rule: Rule, pre: string, body: string, post: string, start: bool)
    requires IsRule(rule) && IsWhole(rule, body, post)
    requires PlaceIn(rule, pre + (Token(rule, body) + post), start, |pre|, body)
    requires forall i: nat, b :: i < |pre| ==> !PlaceIn(rule, pre + (Token(rule, body) + post), start, i, b)
    ensures ReplaceAll(rule, pre + (Token(rule, body) + post), start)
         == pre + Becomes(rule, body) + ReplaceAll(rule, post, false)
    decreases |pre|
  {
    hide Token, Becomes, IsBody, IsWhole, PlaceIn, ReplaceAll;
    if pre == "" || (|pre| == 1 && AsksForBoundary(rule)) {
      WrapsHere(rule, pre, body, post, start);
    } else {
      var t := Token(rule, body) + post;
      var s := pre + t;
      Skips(rule, s, start);
      assert s[1..] == pre[1..] + t && [s[0]] == [pre[0]];
      Further(rule, s, start, |pre| - 1, body);
      forall i: nat, b | i < |pre| - 1 ensures !PlaceIn(rule, s[1..], false, i, b) {
        Further(rule, s, start, i, b);
      }
      WrapsFirst(rule, pre[1..], body, post, false);
      assert pre == [pre[0]] + pre[1..];
      Associative([pre[0]], pre[1..], Becomes(rule, body));
      Associative([pre[0]], pre[1..] + Becomes(rule, body), ReplaceAll(rule, post, false));
    }
  }

  /** A pass leaves text alone in which no token of its rule stands. */
  lemma PassLeaves(rule: Rule, s: string)
    requires IsRule(rule) && forall i: nat, body :: !Place(rule, s, i, body)
    ensures ReplaceAll(rule, s, true) == s
  {
    hide PlaceIn;
    forall i: nat, body ensures !PlaceIn(rule, s, true, i, body) {
      assert !Place(rule, s, i, body);
    }
    LeavesRest(rule, s, true);
  }

  /** Otherwise the first one becomes the span of its rule, with its own text in it, and the pass
      goes on behind it. */
  lemma PassWraps(rule: Rule, pre: string, body: string, post: string)
    requires IsRule(rule) && IsWhole(rule, body, post)
    requires Place(rule, pre + (Token(rule, body) + post), |pre|, body)
    requires forall i: nat, b :: i < |pre| ==> !Place(rule, pre + (Token(rule, body) + post), i, b)
    ensures ReplaceAll(rule, pre + (Token(rule, body) + post), true)
         == pre + Becomes(rule, body) + ReplaceAll(rule, post, false)
  {
    hide PlaceIn, Token, Becomes;
    var s := pre + (Token(rule, body) + post);
    forall i: nat, b | i < |pre| ensures !PlaceIn(rule, s, true, i, b) {
      assert !Place(rule, s, i, b);
    }
    WrapsFirst(rule, pre, body, post, true);
  }

  /** With no other token behind it the text around it stays as it was. */
  lemma PassWrapsOnly(rule: Rule, pre: string, body: string, post: string)
    requires IsRule(rule) && IsWhole(rule, body, post)
    requires Place(rule, pre + (Token(rule, body) + post), |pre|, body)
    requires forall i: nat, b :: (i < |pre| || i >= |pre| + |Token(rule, body)|) ==>
               !Place(rule, pre + (Token(rule, body) + post), i, b)
    ensures ReplaceAll(rule, pre + (Token(rule, body) + post), true) == pre + Becomes(rule, body) + post
  {
    hide Becomes, Token, Place, PlaceIn, IsWhole, ReplaceAll;
    TokenIsLong(rule, body);
    var s, n := pre + (Token(rule, body) + post), |pre| + |Token(rule, body)|;
    PassWraps(rule, pre, body, post);
    assert s[n..] == post;
    forall i: nat, b ensures !PlaceIn(rule, post, false, i, b) {
      if PlaceIn(rule, post, false, i, b) { PlaceBehind(rule, s, n, i, b); }
    }
    LeavesRest(rule, post, false);
  }

  lemma PlaceBehind(rule: Rule, s: string, n: nat, i: nat, b: string)
    requires 0 < n <= |s| && PlaceIn(rule, s[n..], false, i, b)
    ensures Place(rule, s, n + i, b)
  {
    hide Token, IsBody;
    assert s[n..][i..] == s[n + i..];
    assert i > 0 ==> s[n..][i - 1] == s[n + i - 1];
    Boundaries(rule, s[n + i - 1]);
  }
}
