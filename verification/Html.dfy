/** Escaping (`escapeHtml` of web/static/format.js), line splitting, and how decorated HTML
    reads back as text. */
module Html {
  import opened Basics

  function ReplaceChar(s: string, c: char, r: string): string {
    if s == "" then "" else (if s[0] == c then r else [s[0]]) + ReplaceChar(s[1..], c, r)
  }

  /** `escapeHtml`: five replacements, one after the other. */
  function EscapeHtml(s: string): string {
    ReplaceChar(ReplaceChar(ReplaceChar(ReplaceChar(ReplaceChar(s,
      '&', "&amp;"), '<', "&lt;"), '>', "&gt;"), '"', "&quot;"), '\'', "&#39;")
  }

  function EscapeChar(c: char): string {
    if c == '&' then "&amp;"
    else if c == '<' then "&lt;"
    else if c == '>' then "&gt;"
    else if c == '"' then "&quot;"
    else if c == '\'' then "&#39;"
    else [c]
  }

  /** The same, character by character. */
  function Escape(s: string): string {
    if s == "" then "" else EscapeChar(s[0]) + Escape(s[1..])
  }

  lemma {:induction false} ReplaceAppend(a: string, b: string, c: char, r: string)
    ensures ReplaceChar(a + b, c, r) == ReplaceChar(a, c, r) + ReplaceChar(b, c, r)
  {
    if a == "" {
      assert a + b == b;
    } else {
      assert (a + b)[0] == a[0] && (a + b)[1..] == a[1..] + b;
      ReplaceAppend(a[1..], b, c, r);
      Associative(if a[0] == c then r else [a[0]], ReplaceChar(a[1..], c, r), ReplaceChar(b, c, r));
    }
  }

  lemma EscapeHtmlAppend(a: string, b: string)
    ensures EscapeHtml(a + b) == EscapeHtml(a) + EscapeHtml(b)
  {
    hide ReplaceChar;
    var a1, b1 := ReplaceChar(a, '&', "&amp;"), ReplaceChar(b, '&', "&amp;");
    ReplaceAppend(a, b, '&', "&amp;");
    var a2, b2 := ReplaceChar(a1, '<', "&lt;"), ReplaceChar(b1, '<', "&lt;");
    ReplaceAppend(a1, b1, '<', "&lt;");
    var a3, b3 := ReplaceChar(a2, '>', "&gt;"), ReplaceChar(b2, '>', "&gt;");
    ReplaceAppend(a2, b2, '>', "&gt;");
    var a4, b4 := ReplaceChar(a3, '"', "&quot;"), ReplaceChar(b3, '"', "&quot;");
    ReplaceAppend(a3, b3, '"', "&quot;");
    ReplaceAppend(a4, b4, '\'', "&#39;");
  }

  lemma {:induction false} ReplaceAbsent(s: string, c: char, r: string)
    requires c !in s
    ensures ReplaceChar(s, c, r) == s
  {
    if s != "" {
      ReplaceAbsent(s[1..], c, r);
      assert s == [s[0]] + s[1..];
    }
  }

  lemma ReplaceOne(c: char, d: char, r: string)
    ensures ReplaceChar([c], d, r) == if c == d then r else [c]
  {
    assert [c][1..] == "";
    assert r + "" == r;
  }

  lemma EscapeHtmlOne(c: char)
    ensures EscapeHtml([c]) == EscapeChar(c)
  {
    hide ReplaceChar;
    ReplaceOne(c, '&', "&amp;");
    if c == '&' {
      ReplaceAbsent("&amp;", '<', "&lt;");
      ReplaceAbsent("&amp;", '>', "&gt;");
      ReplaceAbsent("&amp;", '"', "&quot;");
      ReplaceAbsent("&amp;", '\'', "&#39;");
    } else {
      ReplaceOne(c, '<', "&lt;");
      if c == '<' {
        ReplaceAbsent("&lt;", '>', "&gt;");
        ReplaceAbsent("&lt;", '"', "&quot;");
        ReplaceAbsent("&lt;", '\'', "&#39;");
      } else {
        ReplaceOne(c, '>', "&gt;");
        if c == '>' {
          ReplaceAbsent("&gt;", '"', "&quot;");
          ReplaceAbsent("&gt;", '\'', "&#39;");
        } else {
          ReplaceOne(c, '"', "&quot;");
          if c == '"' {
            ReplaceAbsent("&quot;", '\'', "&#39;");
          } else {
            ReplaceOne(c, '\'', "&#39;");
          }
        }
      }
    }
  }

  /** The five passes do not disturb one another: `&` goes first, so no entity is escaped. */
  lemma {:induction false} EscapeHtmlIsEscape(s: string)
    ensures EscapeHtml(s) == Escape(s)
  {
    if s != "" {
      hide EscapeHtml;
      EscapeHtmlIsEscape(s[1..]);
      EscapeHtmlAppend([s[0]], s[1..]);
      EscapeHtmlOne(s[0]);
      assert s == [s[0]] + s[1..];
    }
  }

  lemma {:induction false} EscapeAppend(a: string, b: string)
    ensures Escape(a + b) == Escape(a) + Escape(b)
  {
    if a == "" {
      assert a + b == b;
    } else {
      assert (a + b)[0] == a[0] && (a + b)[1..] == a[1..] + b;
      EscapeAppend(a[1..], b);
      Associative(EscapeChar(a[0]), Escape(a[1..]), Escape(b));
    }
  }

  lemma {:induction false} NothingEscapes(s: string)
    requires forall i :: 0 <= i < |s| ==> s[i] !in {'&', '<', '>', '"', '\''}
    ensures Escape(s) == s
  {
    if s != "" {
      NothingEscapes(s[1..]);
      assert s == [s[0]] + s[1..];
    }
  }

  /** Escaped text holds no angle brackets, and a NUL only where the text had one. */
  lemma {:induction false} EscapeIsClean(s: string)
    ensures '<' !in Escape(s) && '>' !in Escape(s)
    ensures '\0' !in s ==> '\0' !in Escape(s)
    ensures '\n' !in s ==> '\n' !in Escape(s)
  {
    if s != "" {
      hide EscapeChar;
      EscapeIsClean(s[1..]);
      EscapeCharIsClean(s[0]);
      assert s[0] in s;
    }
  }

  lemma EscapeCharIsClean(c: char)
    ensures '<' !in EscapeChar(c) && '>' !in EscapeChar(c)
    ensures c != '\0' ==> '\0' !in EscapeChar(c)
    ensures c != '\n' ==> '\n' !in EscapeChar(c)
  {}

  predicate StartsWith(s: string, p: string) {
    |p| <= |s| && s[..|p|] == p
  }

  /** Decode the five entities. */
  function Unescape(s: string): string
    decreases |s|
  {
    if s == "" then ""
    else if StartsWith(s, "&amp;") then "&" + Unescape(s[5..])
    else if StartsWith(s, "&lt;") then "<" + Unescape(s[4..])
    else if StartsWith(s, "&gt;") then ">" + Unescape(s[4..])
    else if StartsWith(s, "&quot;") then "\"" + Unescape(s[6..])
    else if StartsWith(s, "&#39;") then "'" + Unescape(s[5..])
    else [s[0]] + Unescape(s[1..])
  }

  lemma {:induction false} UnescapeUndoesEscape(s: string)
    ensures Unescape(Escape(s)) == s
  {
    if s != "" {
      UnescapeUndoesEscape(s[1..]);
      var e, more := EscapeChar(s[0]), Escape(s[1..]);
      UnescapeEntity(s[0], more);
      assert s == [s[0]] + s[1..];
    }
  }

  lemma StartsSame(s: string, p: string, k: nat)
    requires StartsWith(s, p) && k < |p|
    ensures s[k] == p[k]
  {
    assert s[..|p|][k] == s[k];
  }

  lemma StartsWithOwn(p: string, more: string)
    ensures StartsWith(p + more, p) && (p + more)[|p|..] == more
  {}

  lemma UnescapeEntity(c: char, more: string)
    ensures Unescape(EscapeChar(c) + more) == [c] + Unescape(more)
  {
    hide StartsWith;
    var e := EscapeChar(c);
    var s := e + more;
    StartsWithOwn(e, more);
    assert s[0] == e[0];
    if c == '<' || c == '>' || c == '"' || c == '\'' {
      assert s[1] == e[1];
      if StartsWith(s, "&amp;") { StartsSame(s, "&amp;", 1); assert false; }
      if c != '<' && StartsWith(s, "&lt;") { StartsSame(s, "&lt;", 1); assert false; }
      if c != '<' && c != '>' && StartsWith(s, "&gt;") { StartsSame(s, "&gt;", 1); assert false; }
      if c == '\'' && StartsWith(s, "&quot;") { StartsSame(s, "&quot;", 1); assert false; }
    } else if c != '&' {
      NotAnEntity(s);
      assert s[1..] == more;
    }
  }

  lemma NotAnEntity(s: string)
    requires s != "" && s[0] != '&'
    ensures !StartsWith(s, "&amp;") && !StartsWith(s, "&lt;") && !StartsWith(s, "&gt;")
    ensures !StartsWith(s, "&quot;") && !StartsWith(s, "&#39;")
  {
    if StartsWith(s, "&amp;") { StartsSame(s, "&amp;", 0); }
    if StartsWith(s, "&lt;") { StartsSame(s, "&lt;", 0); }
    if StartsWith(s, "&gt;") { StartsSame(s, "&gt;", 0); }
    if StartsWith(s, "&quot;") { StartsSame(s, "&quot;", 0); }
    if StartsWith(s, "&#39;") { StartsSame(s, "&#39;", 0); }
  }

  // ----- Lines -----

  function SplitLines(text: string): (lines: seq<string>)
    ensures |lines| >= 1
  {
    if text == "" then [""]
    else
      var more := SplitLines(text[1..]);
      if text[0] == '\n' then [""] + more else [[text[0]] + more[0]] + more[1..]
  }

  function Join(lines: seq<string>, sep: string): string {
    if lines == [] then "" else if |lines| == 1 then lines[0] else lines[0] + sep + Join(lines[1..], sep)
  }

  lemma JoinAfterChar(c: char, lines: seq<string>)
    requires lines != []
    ensures Join([[c] + lines[0]] + lines[1..], "\n") == [c] + Join(lines, "\n")
  {
    var longer := [[c] + lines[0]] + lines[1..];
    assert longer[1..] == lines[1..];
    if |lines| > 1 {
      Associative([c], lines[0], "\n" + Join(lines[1..], "\n"));
      Associative([c] + lines[0], "\n", Join(lines[1..], "\n"));
      Associative(lines[0], "\n", Join(lines[1..], "\n"));
    }
  }

  lemma {:induction false} JoinUndoesSplit(text: string)
    ensures Join(SplitLines(text), "\n") == text
    ensures forall l <- SplitLines(text) :: '\n' !in l && forall c <- l :: c in text
  {
    if text != "" {
      JoinUndoesSplit(text[1..]);
      var more := SplitLines(text[1..]);
      var lines := SplitLines(text);
      assert text == [text[0]] + text[1..];
      if text[0] == '\n' {
        assert lines == [""] + more && lines[1..] == more;
        assert Join(lines, "\n") == "" + "\n" + Join(more, "\n");
      } else {
        assert lines == [[text[0]] + more[0]] + more[1..] && lines[1..] == more[1..];
        JoinAfterChar(text[0], more);
        forall l | l in lines ensures '\n' !in l && forall c <- l :: c in text {
          assert l == [text[0]] + more[0] || l in more;
        }
      }
    }
  }

  lemma {:induction false} SplitAppend(a: string, b: string)
    requires '\n' !in a
    ensures SplitLines(a + "\n" + b) == [a] + SplitLines(b)
  {
    if a == "" {
      assert a + "\n" + b == "\n" + b;
      assert ("\n" + b)[1..] == b;
    } else {
      var s := a + "\n" + b;
      assert a[0] in a && s[0] == a[0] && s[1..] == a[1..] + "\n" + b;
      assert forall c <- a[1..] :: c in a;
      SplitAppend(a[1..], b);
      assert a == [a[0]] + a[1..];
      assert ([a[1..]] + SplitLines(b))[1..] == SplitLines(b);
    }
  }

  lemma {:induction false} SplitOneLine(a: string)
    requires '\n' !in a
    ensures SplitLines(a) == [a]
  {
    if a != "" {
      assert a[0] in a && forall c <- a[1..] :: c in a;
      SplitOneLine(a[1..]);
      assert a == [a[0]] + a[1..];
      assert [a[1..]][1..] == [];
    }
  }

  lemma {:induction false} SplitUndoesJoin(lines: seq<string>)
    requires lines != [] && forall l <- lines :: '\n' !in l
    ensures SplitLines(Join(lines, "\n")) == lines
  {
    assert lines[0] in lines;
    if |lines| == 1 {
      SplitOneLine(lines[0]);
    } else {
      assert forall l <- lines[1..] :: l in lines;
      SplitUndoesJoin(lines[1..]);
      SplitAppend(lines[0], Join(lines[1..], "\n"));
      assert lines == [lines[0]] + lines[1..];
    }
  }
}
