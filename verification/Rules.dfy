/** The replacement passes of web/static/composer-richtext.js:38-80. Each regular expression
    is a matcher; none of them needs backtracking, because what ends a body cannot be in it. */
module Rules {
  import opened Html
  import opened Markup
  import opened Scan

  /** One pass. Italic runs once for `*` and once for `_`, Double for `~~` and for `||`. */
  datatype Rule =
    | Bold
    | Italic(mark: char)
    | Double(mark: char, cls: string)
    | Mention(usernames: set<string>, me: string)
    | Channel(names: set<string>)
    | Emoji(names: set<string>)

  /** The passes the code runs are those with one of its own markers and classes. */
  predicate IsRule(rule: Rule) {
    && (rule.Italic? ==> rule.mark == '*' || rule.mark == '_')
    && (rule.Double? ==> (rule.mark == '~' && rule.cls == "md-del") || (rule.mark == '|' && rule.cls == "md-spoiler"))
  }

  datatype Style = Emphasis(cls: string) | Tint(cls: string) | Untouched

  /** A match: what precedes the token, the token in three parts, and what becomes of it. */
  datatype Match = NoMatch | Found(pre: string, op: string, body: string, cl: string, style: Style) {
    function Matched(): string
      requires Found?
    {
      pre + (op + (body + cl))
    }
  }

  /** Where the closing `**` of a bold run is: the first after at least one item, an item
      being a lone `*` or anything else; |s| when there is none. */
  function BoldEnd(s: string, k: nat): (e: nat)
    requires 2 <= k <= |s|
    ensures k <= e <= |s|
    ensures e < |s| ==> e > 2 && e + 1 < |s| && s[e] == '*' && s[e + 1] == '*'
    decreases |s| - k
  {
    if k == |s| then k
    else if s[k] == '*' && k + 1 < |s| && s[k + 1] == '*' then (if k > 2 then k else |s|)
    else BoldEnd(s, k + 1)
  }

  predicate IsNameChar(c: char) {
    'A' <= c <= 'Z' || 'a' <= c <= 'z' || '0' <= c <= '9' || c == '_'
  }

  predicate IsChannelChar(c: char) {
    'a' <= c <= 'z' || '0' <= c <= '9' || c == '_' || c == '-'
  }

  predicate IsEmojiChar(c: char) {
    c == '+' || 'a' <= c <= 'z' || '0' <= c <= '9' || c == '_'
  }

  /** A token that starts right here. */
  function TokenAt(rule: Rule, s: string): Match {
    match rule
    case Bold =>
      if |s| >= 2 && s[0] == '*' && s[1] == '*' && BoldEnd(s, 2) < |s|
      then Found("", "**", s[2..BoldEnd(s, 2)], "**", Emphasis("md-strong")) else NoMatch
    case Italic(mark) =>
      if |s| >= 1 && s[0] == mark then
        var e := RunEnd(s, 1, {mark, '\n'});
        if e > 1 && e < |s| && s[e] == mark then Found("", [mark], s[1..e], [mark], Emphasis("md-em")) else NoMatch
      else NoMatch
    case Double(mark, cls) =>
      if |s| >= 2 && s[0] == mark && s[1] == mark then
        var e := RunEnd(s, 2, {mark});
        if e > 2 && e + 1 < |s| && s[e + 1] == mark
        then Found("", [mark, mark], s[2..e], [mark, mark], Emphasis(cls)) else NoMatch
      else NoMatch
    case Mention(usernames, me) =>
      if |s| >= 1 && s[0] == '@' && ClassEnd(s, 1, 32, IsNameChar) >= 3 then
        var name := s[1..ClassEnd(s, 1, 32, IsNameChar)];
        var lower := ToLower(name);
        Found("", "@", name, "",
              if lower !in usernames then Untouched
              else if me != "" && lower == me then Tint("md-mention md-mention-me") else Tint("md-mention"))
      else NoMatch
    case Channel(names) =>
      if |s| >= 2 && s[0] == '#' && 'a' <= s[1] <= 'z' then
        var name := s[1..ClassEnd(s, 2, 31, IsChannelChar)];
        Found("", "#", name, "", if name in names then Tint("md-channel") else Untouched)
      else NoMatch
    case Emoji(names) =>
      if |s| >= 1 && s[0] == ':' then
        var e := ClassEnd(s, 1, 32, IsEmojiChar);
        if e >= 3 && e < |s| && s[e] == ':'
        then Found("", ":", s[1..e], ":", if s[1..e] in names then Tint("md-emoji") else Untouched) else NoMatch
      else NoMatch
  }

  predicate NeedsBoundary(rule: Rule) {
    rule.Italic? || rule.Mention? || rule.Channel?
  }

  /** The character class in front of the token, when it is not at the very start. */
  predicate IsBoundary(rule: Rule, c: char) {
    match rule
    case Italic(mark) => c != mark
    case _ => !IsNameChar(c) && c != '/'
  }

  /** The match at the front of s; `start` says that s is the whole subject. */
  function Find(rule: Rule, s: string, start: bool): Match {
    if !NeedsBoundary(rule) || (start && TokenAt(rule, s).Found?) then TokenAt(rule, s)
    else if |s| > 0 && IsBoundary(rule, s[0]) && TokenAt(rule, s[1..]).Found?
    then TokenAt(rule, s[1..]).(pre := [s[0]])
    else NoMatch
  }

  function Render(m: Match): string
    requires m.Found?
  {
    match m.style
    case Emphasis(cls) => m.pre + (Open(cls) + (Mk(m.op) + (m.body + (Mk(m.cl) + CLOSE))))
    case Tint(cls) => m.pre + (Open(cls) + (m.op + ((m.body + m.cl) + CLOSE)))
    case Untouched => m.Matched()
  }

  /** `s.replace(re, …)` with the global flag: matches from left to right, never overlapping. */
  function ReplaceAll(rule: Rule, s: string, start: bool): string
    decreases |s|
  {
    var m := Find(rule, s, start);
    if m.Found? && 0 < |m.Matched()| <= |s| then Render(m) + ReplaceAll(rule, s[|m.Matched()|..], false)
    else if s == "" then ""
    else [s[0]] + ReplaceAll(rule, s[1..], false)
  }

  // ----- Every pass keeps the text -----

  /** What a match is made of. */
  predicate IsSound(m: Match, s: string) {
    m.Found? ==>
      && StartsWith(s, m.Matched())
      && AllMarkers(m.op)
      && (m.style.Emphasis? ==> AllMarkers(m.cl) && TagChars(m.style.cls))
      && (m.style.Tint? ==> Plain(m.body + m.cl) && TagChars(m.style.cls))
  }

  lemma ClassNames()
    ensures TagChars("md-strong") && TagChars("md-em") && TagChars("md-del") && TagChars("md-spoiler")
  {}

  lemma TintClassNames()
    ensures TagChars("md-mention") && TagChars("md-channel") && TagChars("md-emoji")
    ensures TagChars("md-mention md-mention-me")
  {
    assert "md-mention md-mention-me" == "md-mention" + " md-mention-me";
    TagCharsAppend("md-mention", " md-mention-me");
  }

  lemma EmphasisTokenIsSound(rule: Rule, s: string)
    requires IsRule(rule) && (rule.Bold? || rule.Italic? || rule.Double?)
    ensures IsSound(TokenAt(rule, s), s)
  {
    ClassNames();
    hide TagChars;
    var m := TokenAt(rule, s);
    if m.Found? {
      match rule
      case Bold => assert s[..2 + |m.body| + 2] == "**" + (m.body + "**");
      case Italic(mark) => assert s[..1 + |m.body| + 1] == [mark] + (m.body + [mark]);
      case Double(mark, cls) => assert s[..2 + |m.body| + 2] == [mark, mark] + (m.body + [mark, mark]);
    }
  }

  lemma TintTokenIsSound(rule: Rule, s: string)
    requires rule.Mention? || rule.Channel? || rule.Emoji?
    ensures IsSound(TokenAt(rule, s), s)
  {
    hide TagChars, ToLower, Plain, AllMarkers;
    var m := TokenAt(rule, s);
    if m.Found? {
      var n := 1 + |m.body| + |m.cl|;
      TokenIsPrefix(rule, s);
      TintClassNames();
      OneMarker(m.op);
      NamesArePlain(m.body + m.cl);
    }
  }

  lemma TokenIsPrefix(rule: Rule, s: string)
    requires (rule.Mention? || rule.Channel? || rule.Emoji?) && TokenAt(rule, s).Found?
    ensures var m := TokenAt(rule, s); StartsWith(s, "" + (m.op + (m.body + m.cl)))
  {
    hide ToLower;
    var m := TokenAt(rule, s);
    var t := m.op + (m.body + m.cl);
    assert s[..|t|] == t;
  }

  lemma OneMarker(op: string)
    requires op == "@" || op == "#" || op == ":"
    ensures AllMarkers(op)
  {}

  lemma NamesArePlain(s: string)
    requires forall i :: 0 <= i < |s| ==> IsNameChar(s[i]) || IsChannelChar(s[i]) || IsEmojiChar(s[i]) || s[i] == ':'
    ensures Plain(s)
  {}

  lemma FindIsSound(rule: Rule, s: string, start: bool)
    requires IsRule(rule)
    ensures IsSound(Find(rule, s, start), s)
    ensures Find(rule, s, start).Found? ==> 0 < |Find(rule, s, start).Matched()| <= |s|
  {
    hide TokenAt, AllMarkers, Plain, TagChars, IsBoundary, IsSound, StartsWith;
    TokenIsSound(rule, s);
    var m := Find(rule, s, start);
    if m.Found? {
      if m == TokenAt(rule, s) {
        SoundMatches(m, s);
      } else {
        TokenIsSound(rule, s[1..]);
        TokenHasNoPre(rule, s[1..]);
        WithPre(TokenAt(rule, s[1..]), s);
        SoundMatches(m, s);
      }
    } else {
      NoMatchIsSound(m, s);
    }
  }

  lemma TokenIsSound(rule: Rule, s: string)
    requires IsRule(rule)
    ensures IsSound(TokenAt(rule, s), s)
  {
    hide TokenAt, IsSound;
    if rule.Bold? || rule.Italic? || rule.Double? {
      EmphasisTokenIsSound(rule, s);
    } else {
      TintTokenIsSound(rule, s);
    }
  }

  lemma NoMatchIsSound(m: Match, s: string)
    requires m.NoMatch?
    ensures IsSound(m, s)
  {}

  lemma SoundMatches(m: Match, s: string)
    requires m.Found? && IsSound(m, s)
    ensures 0 < |m.Matched()| <= |s|
  {
    MarkersNonEmpty(m.op);
  }

  lemma WithPre(token: Match, s: string)
    requires s != "" && token.Found? && token.pre == "" && IsSound(token, s[1..])
    ensures IsSound(token.(pre := [s[0]]), s)
  {
    hide AllMarkers, Plain, TagChars;
    var t := token.op + (token.body + token.cl);
    assert token.Matched() == "" + t == t;
    assert s[1..][..|t|] == t;
    assert s[..1 + |t|] == [s[0]] + t;
  }

  lemma MarkersNonEmpty(s: string)
    requires AllMarkers(s)
    ensures s != ""
  {}

  lemma TokenHasNoPre(rule: Rule, s: string)
    requires TokenAt(rule, s).Found?
    ensures TokenAt(rule, s).pre == ""
  {}

  lemma RenderKeeps(m: Match, s: string, mode: Mode, refs: Refs)
    requires m.Found? && IsSound(m, s)
    requires After(m.Matched(), mode, refs) != Bad
    ensures After(Render(m), mode, refs) == After(m.Matched(), mode, refs)
    ensures Shown(Render(m), mode, refs) == Shown(m.Matched(), mode, refs)
  {
    hide After, Shown, AllMarkers, TagChars, Plain;
    match m.style
    case Emphasis(cls) => EmphasisKeeps(m.pre, m.op, m.body, m.cl, cls, mode, refs);
    case Tint(cls) => TintKeeps(m.pre, m.op, m.body + m.cl, cls, mode, refs);
    case Untouched =>
  }

  /** A whole pass, from any scanner state that does not go wrong: same end, same text shown.
      This does not depend on which tokens the matcher picks, only on what a match is. */
  lemma {:induction false} PassKeeps(rule: Rule, s: string, start: bool, mode: Mode, refs: Refs)
    requires IsRule(rule) && After(s, mode, refs) != Bad
    ensures After(ReplaceAll(rule, s, start), mode, refs) == After(s, mode, refs)
    ensures Shown(ReplaceAll(rule, s, start), mode, refs) == Shown(s, mode, refs)
    decreases |s|
  {
    hide Find, Render, After, Shown, IsSound;
    FindIsSound(rule, s, start);
    var m := Find(rule, s, start);
    if m.Found? {
      var t := m.Matched();
      var rest := s[|t|..];
      SoundStarts(m, s);
      assert s == t + rest;
      NotBadBefore(t, rest, mode, refs);
      RenderKeeps(m, s, mode, refs);
      PassKeeps(rule, rest, false, After(t, mode, refs), refs);
      ScanAppend(t, rest, mode, refs);
      ScanAppend(Render(m), ReplaceAll(rule, rest, false), mode, refs);
    } else if s != "" {
      var c, rest := s[..1], s[1..];
      assert s == c + rest && c == [s[0]];
      NotBadBefore(c, rest, mode, refs);
      PassKeeps(rule, rest, false, After(c, mode, refs), refs);
      ScanAppend(c, rest, mode, refs);
      ScanAppend(c, ReplaceAll(rule, rest, false), mode, refs);
    }
  }

  lemma SoundStarts(m: Match, s: string)
    requires m.Found? && IsSound(m, s)
    ensures |m.Matched()| <= |s| && s[..|m.Matched()|] == m.Matched()
  {}
}
