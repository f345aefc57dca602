/** Scanning a line: runs of characters, white space, and code fences. */
module Scan {
  import opened Basics
  import opened Html

  function RunEnd(s: string, k: nat, stops: set<char>): (e: nat)
    requires k <= |s|
    ensures k <= e <= |s|
    ensures forall i :: k <= i < e ==> s[i] !in stops
    ensures e < |s| ==> s[e] in stops
    decreases |s| - k
  {
    if k == |s| || s[k] in stops then k else RunEnd(s, k + 1, stops)
  }

  lemma {:induction false} RunEndAt(s: string, k: nat, e: nat, stops: set<char>)
    requires k <= e <= |s| && (e < |s| ==> s[e] in stops)
    requires forall i :: k <= i < e ==> s[i] !in stops
    ensures RunEnd(s, k, stops) == e
    decreases e - k
  {
    if k < e {
      RunEndAt(s, k + 1, e, stops);
    }
  }

  function ClassEnd(s: string, k: nat, limit: nat, allowed: char -> bool): (e: nat)
    requires k <= |s|
    ensures k <= e <= |s| && e - k <= limit
    ensures forall i :: k <= i < e ==> allowed(s[i])
    decreases limit
  {
    if limit == 0 || k == |s| || !allowed(s[k]) then k else ClassEnd(s, k + 1, limit - 1, allowed)
  }

  lemma {:induction false} ClassEndAt(s: string, k: nat, limit: nat, allowed: char -> bool, e: nat)
    requires k <= e <= |s| && e - k <= limit && forall i :: k <= i < e ==> allowed(s[i])
    requires e - k == limit || e == |s| || !allowed(s[e])
    ensures ClassEnd(s, k, limit, allowed) == e
    decreases e - k
  {
    if k < e { ClassEndAt(s, k + 1, limit - 1, allowed, e); }
  }

  const FENCE := "```"

  /** `\s` of a JavaScript regular expression. */
  predicate IsSpace(c: char) {
    || c == '\t' || c == '\n' || c == '\U{B}' || c == '\U{C}' || c == '\r' || c == ' '
    || c == '\U{A0}' || c == '\U{1680}' || ('\U{2000}' <= c <= '\U{200A}')
    || c == '\U{2028}' || c == '\U{2029}' || c == '\U{202F}' || c == '\U{205F}' || c == '\U{3000}' || c == '\U{FEFF}'
  }

  predicate IsLangChar(c: char) {
    'a' <= c <= 'z' || 'A' <= c <= 'Z' || '0' <= c <= '9' || c == '+' || c == '_' || c == '-'
  }

  function ToLower(s: string): string {
    seq(|s|, i requires 0 <= i < |s| => if 'A' <= s[i] <= 'Z' then (s[i] as int + 32) as char else s[i])
  }

  predicate AllSpace(s: string) {
    forall i :: 0 <= i < |s| ==> IsSpace(s[i])
  }

  /** FENCE_OPEN_RE: backticks, a language hint, blanks. */
  predicate OpensFence(line: string) {
    StartsWith(line, FENCE) && AllSpace(line[ClassEnd(line, 3, |line|, IsLangChar)..])
  }

  /** FENCE_CLOSE_RE: backticks and blanks only. */
  predicate ClosesFence(line: string) {
    StartsWith(line, FENCE) && AllSpace(line[3..])
  }

  // ----- The character classes, written out -----

  const LANG_CHARS := LETTERS + CAPITALS + DIGITS + "+_-"

  /** White space and line ends as ECMAScript defines them, by code point. */
  const BLANKS: seq<nat> := [
    0x09, 0x0a, 0x0b, 0x0c, 0x0d, 0x20, 0xa0, 0x1680,
    0x2000, 0x2001, 0x2002, 0x2003, 0x2004, 0x2005, 0x2006, 0x2007, 0x2008, 0x2009, 0x200a,
    0x2028, 0x2029, 0x202f, 0x205f, 0x3000, 0xfeff]

  /** Names are compared in small letters. */
  lemma LowerCases(a: string, b: string)
    ensures ToLower(a + b) == ToLower(a) + ToLower(b)
    ensures forall k :: 0 <= k < 26 ==> ToLower([CAPITALS[k]]) == [LETTERS[k]]
    ensures forall c :: c !in CAPITALS ==> ToLower([c]) == [c]
  {
    forall k | 0 <= k < 26 ensures ToLower([CAPITALS[k]]) == [LETTERS[k]] {
      Lowered(k);
    }
    forall c | c !in CAPITALS ensures ToLower([c]) == [c] {
      Runs(c);
    }
  }

  lemma Lowered(k: nat)
    requires k < 26
    ensures ToLower([CAPITALS[k]]) == [LETTERS[k]]
  {
    LettersAre();
    CapitalsAre();
  }

  lemma BlanksAre(c: char)
    ensures IsSpace(c) <==> c as nat in BLANKS
  {
    var n := c as nat;
    if IsSpace(c) {
      assert BLANKS[0] == 0x09 && BLANKS[1] == 0x0a && BLANKS[2] == 0x0b && BLANKS[3] == 0x0c && BLANKS[4] == 0x0d;
      assert BLANKS[5] == 0x20 && BLANKS[6] == 0xa0 && BLANKS[7] == 0x1680 && BLANKS[19] == 0x2028;
      assert BLANKS[20] == 0x2029 && BLANKS[21] == 0x202f && BLANKS[22] == 0x205f && BLANKS[23] == 0x3000;
      assert BLANKS[24] == 0xfeff;
      assert forall k :: 8 <= k < 19 ==> BLANKS[k] == 0x2000 + k - 8;
      if 0x2000 <= n <= 0x200a { assert BLANKS[n - 0x2000 + 8] == n; }
    }
  }

  lemma LangCharsAre(c: char)
    ensures IsLangChar(c) <==> c in LANG_CHARS
  {
    Runs(c);
  }

  // ----- Fences, written out -----

  predicate IsLang(s: string) {
    forall c <- s :: c in LANG_CHARS
  }

  predicate IsBlank(s: string) {
    forall i :: 0 <= i < |s| ==> s[i] as nat in BLANKS
  }

  lemma BlankIsSpace(s: string)
    ensures IsBlank(s) <==> AllSpace(s)
  {
    forall i | 0 <= i < |s| ensures s[i] as nat in BLANKS <==> IsSpace(s[i]) {
      BlanksAre(s[i]);
    }
  }

  /** A line of three backticks, a language and blanks opens a fence, and the language is found. */
  lemma Opens(lang: string, blanks: string)
    requires IsLang(lang) && IsBlank(blanks)
    ensures var line := "```" + lang + blanks; OpensFence(line) && ClassEnd(line, 3, |line|, IsLangChar) == 3 + |lang|
  {
    var line := "```" + lang + blanks;
    BlankIsSpace(blanks);
    forall i | 3 <= i < 3 + |lang| ensures IsLangChar(line[i]) {
      assert line[i] == lang[i - 3] && lang[i - 3] in lang;
      LangCharsAre(line[i]);
    }
    if blanks != "" {
      assert IsSpace(blanks[0]) && line[3 + |lang|] == blanks[0];
      SpaceIsNoLang(blanks[0]);
    }
    ClassEndAt(line, 3, |line|, IsLangChar, 3 + |lang|);
    assert line[3 + |lang|..] == blanks && line[..3] == "```";
  }

  lemma SpaceIsNoLang(c: char)
    requires IsSpace(c)
    ensures !IsLangChar(c)
  {}

  /** No other line does. */
  lemma OpensOnly(line: string)
    requires OpensFence(line)
    ensures exists lang, blanks :: IsLang(lang) && IsBlank(blanks) && line == "```" + lang + blanks
  {
    var e := ClassEnd(line, 3, |line|, IsLangChar);
    var lang, blanks := line[3..e], line[e..];
    BlankIsSpace(blanks);
    forall c | c in lang ensures c in LANG_CHARS {
      var i :| 0 <= i < |lang| && lang[i] == c;
      assert line[i + 3] == c;
      LangCharsAre(c);
    }
    assert line == "```" + lang + blanks;
  }

  /** Three backticks and blanks close it, and nothing else does. */
  lemma Closes(line: string)
    ensures ClosesFence(line) <==> exists blanks :: IsBlank(blanks) && line == "```" + blanks
  {
    if ClosesFence(line) {
      BlankIsSpace(line[3..]);
      assert line == "```" + line[3..];
    }
    forall blanks | IsBlank(blanks) && line == "```" + blanks ensures ClosesFence(line) {
      BlankIsSpace(blanks);
      assert line[3..] == blanks;
    }
  }
}
