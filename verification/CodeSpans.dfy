/** Code spans in web/static/composer-richtext.js: set aside as NUL, number, NUL while the
    other passes run, put back afterwards, and what happens to text that looks like that. */
module CodeSpans {
  import opened Basics
  import opened Html
  import opened Markup
  import opened Scan

  // ----- Code spans, set aside while the passes run -----

  datatype Pulled = Pulled(text: string, inners: seq<string>)

  /** A backtick with another one after it. */
  predicate OpensCode(s: string) {
    s != "" && s[0] == '`' && RunEnd(s, 1, {'`'}) < |s|
  }

  /** Replace each `…` span, numbering from n, by a reference; keep what was inside. */
  function PullCode(s: string, n: nat): Pulled
    decreases |s|
  {
    if s == "" then Pulled("", [])
    else if OpensCode(s) then
      var e := RunEnd(s, 1, {'`'});
      var more := PullCode(s[e + 1..], n + 1);
      Pulled(("\0" + Decimal(n) + "\0") + more.text, [s[1..e]] + more.inners)
    else
      var more := PullCode(s[1..], n);
      Pulled([s[0]] + more.text, more.inners)
  }

  function CodeHtml(inner: string): string {
    Open("md-code") + (Mk("`") + inner + Mk("`")) + CLOSE
  }

  function CodeText(inner: string): string {
    "`" + inner + "`"
  }

  function CodeHtmls(inners: seq<string>): (r: seq<string>)
    ensures |r| == |inners| && forall k :: 0 <= k < |r| ==> r[k] == CodeHtml(inners[k])
  {
    seq(|inners|, k requires 0 <= k < |inners| => CodeHtml(inners[k]))
  }

  function CodeTexts(inners: seq<string>): (r: seq<string>)
    ensures |r| == |inners| && forall k :: 0 <= k < |r| ==> r[k] == CodeText(inners[k])
  {
    seq(|inners|, k requires 0 <= k < |inners| => CodeText(inners[k]))
  }

  function DigitsEnd(s: string, k: nat): (e: nat)
    requires k <= |s|
    ensures k <= e <= |s|
    ensures forall i :: k <= i < e ==> IsDigit(s[i])
    ensures e < |s| ==> !IsDigit(s[e])
    decreases |s| - k
  {
    if k == |s| || !IsDigit(s[k]) then k else DigitsEnd(s, k + 1)
  }

  /** Put the code spans back. */
  function Restore(s: string, tokens: seq<string>): string
    decreases |s|
  {
    if s == "" then ""
    else if s[0] == '\0' && 1 < DigitsEnd(s, 1) < |s| && s[DigitsEnd(s, 1)] == '\0' then
      var e := DigitsEnd(s, 1);
      Lookup(tokens, ValueFrom(0, s[1..e])) + Restore(s[e + 1..], tokens)
    else [s[0]] + Restore(s[1..], tokens)
  }

  // ----- When a reference is forged -----

  /** A NUL, digits, and a NUL or a code span, which is set aside behind a NUL: the digits
      would be taken for a reference. */
  predicate ForgedAt(s: string) {
    && s != "" && s[0] == '\0'
    && var e := DigitsEnd(s, 1);
       1 < e < |s| && (s[e] == '\0' || OpensCode(s[e..]))
  }

  /** That happens somewhere outside the code spans. */
  predicate Forged(s: string)
    decreases |s|
  {
    if s == "" then false
    else if OpensCode(s) then Forged(s[RunEnd(s, 1, {'`'}) + 1..])
    else ForgedAt(s) || Forged(s[1..])
  }

  lemma {:induction false} NothingForged(s: string)
    requires '\0' !in s
    ensures !Forged(s)
    decreases |s|
  {
    if s != "" {
      assert s[0] in s;
      NothingForged(if OpensCode(s) then s[RunEnd(s, 1, {'`'}) + 1..] else s[1..]);
    }
  }

  // ----- What a line shows, before it is decorated -----

  /** refs holds the text of the spans pulled from number n on. */
  ghost predicate Stands(refs: seq<string>, n: nat, inners: seq<string>) {
    |refs| >= n + |inners| && forall k :: 0 <= k < |inners| ==> refs[n + k] == CodeText(inners[k])
  }

  lemma {:induction false} DigitsHeld(s: string, held: string, refs: Refs)
    ensures After(s, Ref(held), refs) == After(s[DigitsEnd(s, 0)..], Ref(held + s[..DigitsEnd(s, 0)]), refs)
    ensures Shown(s, Ref(held), refs) == Shown(s[DigitsEnd(s, 0)..], Ref(held + s[..DigitsEnd(s, 0)]), refs)
    decreases |s|
  {
    hide After, Shown, DigitsEnd;
    if s == "" || !IsDigit(s[0]) {
      NoDigits(s, held);
    } else {
      var e := DigitsEnd(s[1..], 0);
      FirstDigit(s);
      DigitHeld(s, held, refs);
      DigitsHeld(s[1..], held + [s[0]], refs);
      Associative(held, [s[0]], s[1..][..e]);
    }
  }

  lemma NoDigits(s: string, held: string)
    requires s == "" || !IsDigit(s[0])
    ensures DigitsEnd(s, 0) == 0 && s[..0] == "" && s[0..] == s && held + s[..0] == held
  {}

  lemma FirstDigit(s: string)
    requires s != "" && IsDigit(s[0])
    ensures var e := DigitsEnd(s[1..], 0);
      DigitsEnd(s, 0) == e + 1 && s[..e + 1] == [s[0]] + s[1..][..e] && s[e + 1..] == s[1..][e..]
  {
    DigitsEndShift(s, 1);
  }

  lemma DigitHeld(s: string, held: string, refs: Refs)
    requires s != "" && IsDigit(s[0])
    ensures After(s, Ref(held), refs) == After(s[1..], Ref(held + [s[0]]), refs)
    ensures Shown(s, Ref(held), refs) == Shown(s[1..], Ref(held + [s[0]]), refs)
  {
    assert Shown(s, Ref(held), refs) == "" + Shown(s[1..], Ref(held + [s[0]]), refs);
  }

  lemma {:induction false} DigitsEndShift(s: string, k: nat)
    requires 1 <= k <= |s|
    ensures DigitsEnd(s, k) == DigitsEnd(s[1..], k - 1) + 1
    decreases |s| - k
  {
    if k < |s| && IsDigit(s[k]) {
      DigitsEndShift(s, k + 1);
    }
  }

  lemma NulStarts(s: string, refs: seq<string>)
    requires s != "" && s[0] == '\0'
    ensures After(s, Text, Some(refs)) == After(s[1..], Ref("\0"), Some(refs))
    ensures Shown(s, Text, Some(refs)) == Shown(s[1..], Ref("\0"), Some(refs))
  {
    assert "" + Shown(s[1..], Ref("\0"), Some(refs)) == Shown(s[1..], Ref("\0"), Some(refs));
  }

  /** A NUL and the digits behind it are held back. */
  lemma NulHolds(s: string, refs: seq<string>)
    requires s != "" && s[0] == '\0'
    ensures var e := DigitsEnd(s, 1);
      && After(s, Text, Some(refs)) == After(s[e..], Ref(s[..e]), Some(refs))
      && Shown(s, Text, Some(refs)) == Shown(s[e..], Ref(s[..e]), Some(refs))
  {
    var e := DigitsEnd(s, 1);
    NulStarts(s, refs);
    hide After, Shown;
    DigitsEndShift(s, 1);
    DigitsHeld(s[1..], "\0", Some(refs));
    assert s[1..][e - 1..] == s[e..] && "\0" + s[1..][..e - 1] == s[..e];
  }

  /** The two ways on from there: let go as text, or completed to a reference. */
  lemma NulGoesOn(s: string, refs: seq<string>)
    requires s != "" && s[0] == '\0'
    ensures var e := DigitsEnd(s, 1);
      if 1 < e < |s| && s[e] == '\0' then
        && After(s, Text, Some(refs)) == After(s[e + 1..], Text, Some(refs))
        && Shown(s, Text, Some(refs)) == Lookup(refs, ValueFrom(0, s[1..e])) + Shown(s[e + 1..], Text, Some(refs))
      else
        && Reads(s, Text, Some(refs)) == s[..e] + Reads(s[e..], Text, Some(refs))
        && (InText(After(s, Text, Some(refs))) <==> InText(After(s[e..], Text, Some(refs))))
  {
    var e := DigitsEnd(s, 1);
    NulHolds(s, refs);
    if 1 < e < |s| && s[e] == '\0' {
      assert s[..e][1..] == s[1..e] && s[e..][1..] == s[e + 1..];
    } else if e < |s| {
      LetsGo(s[e..], Ref(s[..e]), Some(refs));
      Associative(s[..e], Shown(s[e..], Text, Some(refs)), Held(After(s[e..], Text, Some(refs))));
    } else {
      assert s[e..] == "" && s[..e] == s;
      assert Reads("", Text, Some(refs)) == "" && s + "" == s;
    }
  }

  lemma {:induction false} DigitsEndAt(s: string, k: nat, e: nat)
    requires k <= e <= |s| && (e < |s| ==> !IsDigit(s[e]))
    requires forall i :: k <= i < e ==> IsDigit(s[i])
    ensures DigitsEnd(s, k) == e
    decreases e - k
  {
    if k < e {
      DigitsEndAt(s, k + 1, e);
    }
  }

  /** Scanning one more plain character. */
  lemma CharReads(c: char, s: string, refs: Refs)
    requires c != '<' && c != '>' && !(c == '\0' && refs.Some?)
    ensures Reads([c] + s, Text, refs) == [c] + Reads(s, Text, refs)
    ensures After([c] + s, Text, refs) == After(s, Text, refs)
  {
    assert ([c] + s)[1..] == s;
    Associative([c], Shown(s, Text, refs), Held(After(s, Text, refs)));
  }

  lemma {:induction false} DecimalHeld(n: nat)
    ensures forall i :: 0 <= i < |Decimal(n)| ==> IsDigit(Decimal(n)[i])
    ensures |Decimal(n)| > 0 && ValueFrom(0, Decimal(n)) == n
  {
    if n >= 10 {
      DecimalHeld(n / 10);
    }
    ValueSnoc(0, if n < 10 then "" else Decimal(n / 10), '0' + (n % 10) as char);
  }

  lemma {:induction false} ValueSnoc(n: nat, s: string, c: char)
    ensures ValueFrom(n, s + [c]) == ValueFrom(n, s) * 10 + DigitValue(c)
    decreases |s|
  {
    if s == "" {
      assert s + [c] == [c] && [c][1..] == "";
    } else {
      assert (s + [c])[0] == s[0] && (s + [c])[1..] == s[1..] + [c];
      ValueSnoc(n * 10 + DigitValue(s[0]), s[1..], c);
    }
  }

  /** A genuine reference shows what it stands for. */
  lemma RefReads(n: nat, more: string, refs: seq<string>)
    ensures var s := "\0" + Decimal(n) + "\0" + more;
      && Reads(s, Text, Some(refs)) == Lookup(refs, n) + Reads(more, Text, Some(refs))
      && After(s, Text, Some(refs)) == After(more, Text, Some(refs))
  {
    hide Decimal, After, Shown;
    DecimalHeld(n);
    var d := Decimal(n);
    var s := "\0" + d + "\0" + more;
    var e := |d| + 1;
    assert s[e] == '\0' && s[1..e] == d && s[e + 1..] == more;
    assert forall i :: 1 <= i < e ==> s[i] == d[i - 1];
    DigitsEndAt(s, 1, e);
    NulGoesOn(s, refs);
    Associative(Lookup(refs, n), Shown(more, Text, Some(refs)), Held(After(more, Text, Some(refs))));
  }

  /** How far one step of pulling goes: a code span, a NUL with its digits, or a character. */
  function PullStep(s: string): (k: nat)
    requires s != ""
    ensures 0 < k <= |s|
  {
    if OpensCode(s) then RunEnd(s, 1, {'`'}) + 1 else if s[0] == '\0' then DigitsEnd(s, 1) else 1
  }

  function NumberAfter(s: string, n: nat): nat
    requires s != ""
  {
    if OpensCode(s) then n + 1 else n
  }

  lemma {:induction false} DigitsPulled(s: string, n: nat, k: nat)
    requires k <= |s| && forall i :: 0 <= i < k ==> s[i] != '`'
    ensures PullCode(s, n) == Pulled(s[..k] + PullCode(s[k..], n).text, PullCode(s[k..], n).inners)
    ensures (forall i :: 0 <= i < k ==> IsDigit(s[i])) ==> (Forged(s) <==> Forged(s[k..]))
  {
    if k == 0 {
      assert s[0..] == s && s[..0] + PullCode(s, n).text == PullCode(s, n).text;
    } else {
      DigitsPulled(s[1..], n, k - 1);
      assert s[1..][k - 1..] == s[k..];
      assert [s[0]] + s[1..][..k - 1] == s[..k];
      Associative([s[0]], s[1..][..k - 1], PullCode(s[k..], n).text);
    }
  }

  /** One step of pulling: what it shows, unless it forges a reference, is what was there. */
  lemma StepReads(s: string, n: nat, refs: seq<string>)
    requires s != "" && '<' !in s && '>' !in s && Stands(refs, n, PullCode(s, n).inners)
    ensures var k, m := PullStep(s), NumberAfter(s, n);
      && Stands(refs, m, PullCode(s[k..], m).inners)
      && (Forged(s) <==> ForgedAt(s) || Forged(s[k..]))
      && (!ForgedAt(s) ==>
            Reads(PullCode(s, n).text, Text, Some(refs)) == s[..k] + Reads(PullCode(s[k..], m).text, Text, Some(refs)))
  {
    hide Reads, Decimal, Lookup;
    var k, m := PullStep(s), NumberAfter(s, n);
    var rest := PullCode(s[k..], m).text;
    if OpensCode(s) {
      CodeStepReads(s, n, refs);
    } else if s[0] == '\0' {
      NulStepReads(s, n, refs);
    } else {
      CharReads(s[0], rest, Some(refs));
      assert s[..1] == [s[0]];
    }
  }

  lemma StandsStep(refs: seq<string>, n: nat, inner: string, inners: seq<string>)
    requires Stands(refs, n, [inner] + inners)
    ensures Stands(refs, n + 1, inners) && Lookup(refs, n) == CodeText(inner)
  {
    hide CodeText;
    assert refs[n + 0] == CodeText(([inner] + inners)[0]);
    forall i | 0 <= i < |inners| ensures refs[n + 1 + i] == CodeText(inners[i]) {
      assert refs[n + (i + 1)] == CodeText(([inner] + inners)[i + 1]);
    }
  }

  lemma SpanText(s: string)
    requires OpensCode(s)
    ensures s[..PullStep(s)] == CodeText(s[1..PullStep(s) - 1])
  {}

  lemma CodeStepReads(s: string, n: nat, refs: seq<string>)
    requires OpensCode(s) && Stands(refs, n, PullCode(s, n).inners)
    ensures var k := PullStep(s);
      && Stands(refs, n + 1, PullCode(s[k..], n + 1).inners)
      && Reads(PullCode(s, n).text, Text, Some(refs)) == s[..k] + Reads(PullCode(s[k..], n + 1).text, Text, Some(refs))
  {
    hide Reads, Decimal, CodeText, Stands, RunEnd;
    var k := PullStep(s);
    var more := PullCode(s[k..], n + 1);
    var inners := PullCode(s, n).inners;
    assert inners == [s[1..k - 1]] + more.inners;
    StandsStep(refs, n, s[1..k - 1], more.inners);
    RefReads(n, more.text, refs);
    SpanText(s);
  }

  lemma NulPulled(s: string, n: nat)
    requires s != "" && s[0] == '\0'
    ensures var k := PullStep(s);
      && PullCode(s, n) == Pulled(s[..k] + PullCode(s[k..], n).text, PullCode(s[k..], n).inners)
      && (Forged(s) <==> ForgedAt(s) || Forged(s[k..]))
  {
    hide ForgedAt;
    var k := PullStep(s);
    DigitsPulled(s, n, k);
    DigitsPulled(s[1..], n, k - 1);
    assert s[1..][k - 1..] == s[k..];
  }

  /** What pulling leaves of a NUL and its digits, and what comes next. */
  lemma NulPulledEnds(s: string, n: nat)
    requires s != "" && s[0] == '\0'
    ensures var k, rest := PullStep(s), PullCode(s[PullStep(s)..], n).text;
      && DigitsEnd(s[..k] + rest, 1) == k && (s[..k] + rest)[..k] == s[..k] && (s[..k] + rest)[k..] == rest
      && (ForgedAt(s) <==> 1 < k && rest != "" && rest[0] == '\0')
  {
    hide PullCode, OpensCode;
    var k, rest := PullStep(s), PullCode(s[PullStep(s)..], n).text;
    NulOpensNothing(s);
    var t := s[..k] + rest;
    PulledFront(s[k..], n);
    assert forall i :: 0 <= i < k ==> t[i] == s[i];
    assert rest != "" ==> t[k] == rest[0] && s[k..][0] == s[k];
    OnlyBackticksOpen(s[k..]);
    DigitsEndAt(t, 1, k);
  }

  lemma NulOpensNothing(s: string)
    requires s != "" && s[0] == '\0'
    ensures !OpensCode(s) && PullStep(s) == DigitsEnd(s, 1)
  {}

  lemma OnlyBackticksOpen(s: string)
    ensures OpensCode(s) ==> s != "" && s[0] == '`'
  {}

  lemma NulStepReads(s: string, n: nat, refs: seq<string>)
    requires s != "" && s[0] == '\0' && Stands(refs, n, PullCode(s, n).inners)
    ensures var k := PullStep(s);
      && Stands(refs, n, PullCode(s[k..], n).inners)
      && (Forged(s) <==> ForgedAt(s) || Forged(s[k..]))
      && (!ForgedAt(s) ==>
            Reads(PullCode(s, n).text, Text, Some(refs)) == s[..k] + Reads(PullCode(s[k..], n).text, Text, Some(refs)))
      && (ForgedAt(s) ==> exists v, y ::
            Reads(PullCode(s, n).text, Text, Some(refs)) == Lookup(refs, v) + y)
  {
    hide Reads, Lookup, PullCode, Forged, ForgedAt, PullStep, DigitsEnd, After, Shown, Stands;
    var k := PullStep(s);
    NulPulled(s, n);
    NulPulledEnds(s, n);
    var t := s[..k] + PullCode(s[k..], n).text;
    assert t[0] == s[..k][0] == s[0];
    assert k < |t| ==> t[k] == t[k..][0];
    NulGoesOn(t, refs);
    if ForgedAt(s) {
      ReadsCompleted(t, k, refs);
    }
  }

  lemma ReadsCompleted(t: string, k: nat, refs: seq<string>)
    requires 1 < k < |t|
    requires After(t, Text, Some(refs)) == After(t[k + 1..], Text, Some(refs))
    requires Shown(t, Text, Some(refs)) == Lookup(refs, ValueFrom(0, t[1..k])) + Shown(t[k + 1..], Text, Some(refs))
    ensures exists v, y :: Reads(t, Text, Some(refs)) == Lookup(refs, v) + y
  {
    hide Lookup;
    var v := ValueFrom(0, t[1..k]);
    Associative(Lookup(refs, v), Shown(t[k + 1..], Text, Some(refs)), Held(After(t[k + 1..], Text, Some(refs))));
    assert Reads(t, Text, Some(refs)) == Lookup(refs, v) + Reads(t[k + 1..], Text, Some(refs));
  }

  /** Pulled text starts with what the text starts with, or with a NUL for a code span. */
  lemma PulledFront(s: string, n: nat)
    ensures PullCode(s, n).text == "" <==> s == ""
    ensures s != "" ==> PullCode(s, n).text[0] == if OpensCode(s) then '\0' else s[0]
  {}

  /** What `text` shows goes wrong at a NUL of s, and is right up to there. */
  ghost predicate WrongAt(shown: string, s: string, i: nat) {
    && i < |s| && s[i] == '\0'
    && |shown| > i && shown[..i] == s[..i] && (shown[i] == '`' || shown[i] == 'u')
  }

  /** A text shows itself, or goes wrong where the first reference is forged. */
  lemma {:induction false} PullReads(s: string, n: nat, refs: seq<string>)
    requires '<' !in s && '>' !in s && Stands(refs, n, PullCode(s, n).inners)
    requires forall k :: 0 <= k < |refs| ==> refs[k] != "" && refs[k][0] == '`'
    ensures var shown := Reads(PullCode(s, n).text, Text, Some(refs));
      if Forged(s) then exists i :: WrongAt(shown, s, i) else shown == s
    decreases |s|
  {
    hide Reads, PullCode, Forged, ForgedAt, PullStep, NumberAfter;
    if s == "" {
      NothingPulledOrForged(n, refs);
    } else {
      var shown := Reads(PullCode(s, n).text, Text, Some(refs));
      StepReads(s, n, refs);
      var k, m := PullStep(s), NumberAfter(s, n);
      if ForgedAt(s) {
        ForgedShows(s, n, refs);
        assert WrongAt(shown, s, 0);
      } else {
        assert forall c :: c in s[k..] ==> c in s;
        PullReads(s[k..], m, refs);
        assert s == s[..k] + s[k..];
        var more := Reads(PullCode(s[k..], m).text, Text, Some(refs));
        if Forged(s[k..]) {
          var i :| WrongAt(more, s[k..], i);
          WrongLater(s, k, more, i);
        }
      }
    }
  }

  lemma NothingPulledOrForged(n: nat, refs: seq<string>)
    ensures Reads(PullCode("", n).text, Text, Some(refs)) == "" && !Forged("")
  {}

  lemma WrongLater(s: string, k: nat, more: string, i: nat)
    requires k <= |s| && WrongAt(more, s[k..], i)
    ensures WrongAt(s[..k] + more, s, k + i)
  {
    var shown := s[..k] + more;
    assert s[k..][i] == s[k + i] && shown[k + i] == more[i];
    assert shown[..k + i] == s[..k] + more[..i] == s[..k] + s[k..][..i] == s[..k + i];
  }

  lemma ForgedShows(s: string, n: nat, refs: seq<string>)
    requires ForgedAt(s) && Stands(refs, n, PullCode(s, n).inners)
    requires forall k :: 0 <= k < |refs| ==> refs[k] != "" && refs[k][0] == '`'
    ensures var shown := Reads(PullCode(s, n).text, Text, Some(refs));
      shown != "" && (shown[0] == '`' || shown[0] == 'u') && s[0] == '\0'
  {
    hide Reads;
    NulStepReads(s, n, refs);
    var v, y :| Reads(PullCode(s, n).text, Text, Some(refs)) == Lookup(refs, v) + y;
  }

  // ----- Escaping neither forges nor hides a reference -----

  lemma {:induction false} CleanForgesNothing(a: string, b: string)
    requires '\0' !in a && '`' !in a
    ensures Forged(a + b) <==> Forged(b)
  {
    if a == "" {
      assert a + b == b;
    } else {
      assert (a + b)[0] == a[0] && a[0] in a && (a + b)[1..] == a[1..] + b;
      CleanForgesNothing(a[1..], b);
    }
  }

  lemma {:induction false} BackticksEscape(s: string)
    ensures '`' in Escape(s) <==> '`' in s
  {
    if s != "" {
      BackticksEscape(s[1..]);
      assert s == [s[0]] + s[1..];
      assert '`' in EscapeChar(s[0]) <==> s[0] == '`' by { BacktickEscapes(s[0]); }
    }
  }

  lemma BacktickEscapes(c: char)
    ensures '`' in EscapeChar(c) <==> c == '`'
    ensures c != '\0' ==> '\0' !in EscapeChar(c)
  {
    if c == '`' { assert EscapeChar(c)[0] == '`'; }
  }

  /** A code span escapes to a code span. */
  lemma SpanEscapes(inner: string, more: string)
    requires '`' !in inner
    ensures var s, t := "`" + inner + "`" + more, Escape("`" + inner + "`" + more);
      && OpensCode(t) && t[RunEnd(t, 1, {'`'}) + 1..] == Escape(more)
  {
    hide Escape, RunEnd;
    var s, e := "`" + inner + "`" + more, Escape(inner);
    EscapeAppend("`" + inner + "`", more);
    EscapeAppend("`" + inner, "`");
    EscapeAppend("`", inner);
    BacktickAlone();
    BackticksEscape(inner);
    SpanEnds(e, Escape(more));
  }

  lemma SpanEnds(inner: string, more: string)
    requires '`' !in inner
    ensures var t := "`" + inner + "`" + more;
      OpensCode(t) && t[RunEnd(t, 1, {'`'}) + 1..] == more
  {
    var t := "`" + inner + "`" + more;
    assert forall i :: 1 <= i < 1 + |inner| ==> t[i] == inner[i - 1] && t[i] in inner;
    RunEndAt(t, 1, 1 + |inner|, {'`'});
  }

  /** Nothing else does. */
  lemma OtherStaysOther(s: string)
    requires s != "" && !OpensCode(s)
    ensures !OpensCode(Escape(s))
  {
    EscapeFront(s);
    if s[0] == '`' {
      assert forall i :: 1 <= i < |s| ==> s[1..][i - 1] == s[i];
      assert '`' !in s[1..];
      BackticksEscape(s[1..]);
      var t := Escape(s);
      assert t == ['`'] + Escape(s[1..]);
      assert forall i :: 1 <= i < |t| ==> t[i] == Escape(s[1..])[i - 1] && t[i] in Escape(s[1..]);
      RunEndAt(t, 1, |t|, {'`'});
    }
  }

  lemma CodeEscapes(s: string)
    ensures OpensCode(Escape(s)) <==> OpensCode(s)
    ensures OpensCode(s) ==>
      Escape(s)[RunEnd(Escape(s), 1, {'`'}) + 1..] == Escape(s[RunEnd(s, 1, {'`'}) + 1..])
  {
    hide Escape;
    if OpensCode(s) {
      var e := RunEnd(s, 1, {'`'});
      assert s == "`" + s[1..e] + "`" + s[e + 1..];
      SpanEscapes(s[1..e], s[e + 1..]);
    } else if s != "" {
      OtherStaysOther(s);
    } else {
      EscapeEmpty();
    }
  }

  lemma EscapeEmpty()
    ensures Escape("") == ""
  {}

  lemma BacktickAlone()
    ensures Escape("`") == "`"
  {
    assert "`"[1..] == "" && "`" + "" == "`";
  }

  lemma EscapeFront(s: string)
    requires s != ""
    ensures Escape(s) != "" && (Escape(s)[0] == '`' <==> s[0] == '`') && (Escape(s)[0] == '\0' <==> s[0] == '\0')
    ensures IsDigit(Escape(s)[0]) <==> IsDigit(s[0])
  {}

  lemma {:induction false} DigitsEscape(s: string, k: nat)
    requires k <= |s| && forall i :: 0 <= i < k ==> s[i] == '\0' || IsDigit(s[i])
    ensures Escape(s) == s[..k] + Escape(s[k..])
  {
    if k == 0 {
      assert s[0..] == s && s[..0] + Escape(s) == Escape(s);
    } else {
      DigitsEscape(s[1..], k - 1);
      assert s[1..][k - 1..] == s[k..] && [s[0]] + s[1..][..k - 1] == s[..k];
      Associative([s[0]], s[1..][..k - 1], Escape(s[k..]));
    }
  }

  lemma ForgedAtEscapes(s: string)
    ensures ForgedAt(Escape(s)) <==> ForgedAt(s)
  {
    if s != "" {
      EscapeFront(s);
      if s[0] == '\0' {
        var e := DigitsEnd(s, 1);
        DigitsEscape(s, e);
        var t := Escape(s);
        assert forall i :: 1 <= i < e ==> t[i] == s[i];
        if e < |s| {
          EscapeFront(s[e..]);
          assert t[e] == Escape(s[e..])[0];
        } else {
          assert s[e..] == "";
        }
        DigitsEndAt(t, 1, e);
        assert t[e..] == Escape(s[e..]);
        CodeEscapes(s[e..]);
      }
    }
  }

  lemma {:induction false} ForgedEscapes(s: string)
    ensures Forged(Escape(s)) <==> Forged(s)
    decreases |s|
  {
    hide ForgedAt;
    if s != "" {
      EscapeFront(s);
      CodeEscapes(s);
      ForgedAtEscapes(s);
      if OpensCode(s) {
        ForgedEscapes(s[RunEnd(s, 1, {'`'}) + 1..]);
      } else {
        hide OpensCode;
        ForgedEscapes(s[1..]);
        OtherEscapes(s);
      }
    }
  }

  lemma PlainChar(c: char)
    requires c == '\0' || c == '`'
    ensures EscapeChar(c) == [c]
  {}

  lemma ForgedNeedsNul(s: string)
    requires s != "" && s[0] != '\0'
    ensures !ForgedAt(s)
  {}

  /** Behind a character that opens no code span. */
  lemma OtherEscapes(s: string)
    requires s != "" && !OpensCode(s) && !OpensCode(Escape(s))
    ensures Forged(Escape(s)) <==> ForgedAt(Escape(s)) || Forged(Escape(s[1..]))
  {
    hide OpensCode, ForgedAt, EscapeChar;
    var c, more := s[0], Escape(s[1..]);
    if c == '\0' || c == '`' {
      PlainChar(c);
      assert Escape(s)[1..] == more;
    } else {
      BacktickEscapes(c);
      CleanForgesNothing(EscapeChar(c), more);
      EscapeFront(s);
      ForgedNeedsNul(Escape(s));
    }
  }

  // ----- Putting the spans back -----

  lemma {:induction false} NoTagIsText(s: string, m: Mode, refs: Refs)
    requires '<' !in s && '>' !in s && InText(m)
    ensures InText(After(s, m, refs))
  {
    if s != "" {
      assert s[0] in s;
      NoTagIsText(s[1..], Step(m, s[0], refs), refs);
    }
  }

  predicate HasNoTag(s: string) {
    '<' !in s && '>' !in s
  }

  lemma {:induction false} PulledHasNoTag(s: string, n: nat)
    requires HasNoTag(s)
    ensures HasNoTag(PullCode(s, n).text) && forall x <- PullCode(s, n).inners :: HasNoTag(x)
    decreases |s|
  {
    hide HasNoTag;
    if s == "" {
      NoTagHere();
    } else if OpensCode(s) {
      var e := RunEnd(s, 1, {'`'});
      NoTagWithin(s, 1, e);
      NoTagWithin(s, e + 1, |s|);
      assert s[e + 1..|s|] == s[e + 1..];
      PulledHasNoTag(s[e + 1..], n + 1);
      ReferenceHasNoTag(n);
      hide Decimal;
      NoTagAppend("\0" + Decimal(n) + "\0", PullCode(s[e + 1..], n + 1).text);
    } else {
      NoTagWithin(s, 0, 1);
      NoTagWithin(s, 1, |s|);
      assert s[1..|s|] == s[1..] && s[0..1] == [s[0]];
      PulledHasNoTag(s[1..], n);
      NoTagAppend([s[0]], PullCode(s[1..], n).text);
    }
  }

  lemma NoTagHere()
    ensures HasNoTag("")
  {}

  lemma NoTagWithin(s: string, i: nat, j: nat)
    requires HasNoTag(s) && i <= j <= |s|
    ensures HasNoTag(s[i..j])
  {}

  lemma NoTagAppend(a: string, b: string)
    requires HasNoTag(a) && HasNoTag(b)
    ensures HasNoTag(a + b)
  {}

  lemma ReferenceHasNoTag(n: nat)
    ensures HasNoTag("\0" + Decimal(n) + "\0")
  {
    DecimalHeld(n);
    hide Decimal;
    assert forall c :: c in Decimal(n) ==> IsDigit(c);
  }

  /** Putting HTML back for each reference, genuine or forged: the result, read with NULs as
      plain characters, shows what the scanner that follows references says. */
  lemma {:induction false} RestoreKeeps(s: string, m: Mode, refs: seq<string>, tokens: seq<string>)
    requires (m == Text || m.Tag?) && InText(After(s, m, Some(refs)))
    requires |tokens| == |refs| && forall k :: 0 <= k < |refs| ==> Displays(tokens[k], None, refs[k])
    ensures After(Restore(s, tokens), m, None) == Text
    ensures Shown(Restore(s, tokens), m, None) == Reads(s, m, Some(refs))
    decreases |s|
  {
    if s != "" {
      hide Displays;
      if m == Text && s[0] == '\0' {
        hide Restore, After, Shown, Reads;
        var e := DigitsEnd(s, 1);
        NulGoesOn(s, refs);
        RestoreAtNul(s, tokens);
        if 1 < e < |s| && s[e] == '\0' {
          var v := ValueFrom(0, s[1..e]);
          RestoreKeeps(s[e + 1..], Text, refs, tokens);
          LookupDisplays(refs, tokens, v);
          DisplaysThen(Lookup(tokens, v), Lookup(refs, v), Restore(s[e + 1..], tokens));
          ReadsAfter(s, Lookup(refs, v), s[e + 1..], Some(refs));
        } else {
          RestoreKeeps(s[e..], Text, refs, tokens);
          NulIsLiteral(s, e);
          PlainShowsItself(s[..e], None);
          DisplaysThen(s[..e], s[..e], Restore(s[e..], tokens));
        }
      } else {
        hide After, Shown, Step, Shows;
        var c, rest := s[0], s[1..];
        var next := Step(m, c, Some(refs));
        assert s == [c] + rest;
        OneStep(c, rest, m, Some(refs));
        BadStays(rest, Some(refs));
        CharStep(c, m, refs);
        RestoreKeeps(rest, next, refs, tokens);
        OneStep(c, Restore(rest, tokens), m, None);
        Associative(Shows(m, c, Some(refs)), Shown(rest, next, Some(refs)), Held(After(s, m, Some(refs))));
      }
    }
  }

  lemma ReadsAfter(s: string, front: string, rest: string, refs: Refs)
    requires After(s, Text, refs) == After(rest, Text, refs) && Shown(s, Text, refs) == front + Shown(rest, Text, refs)
    ensures Reads(s, Text, refs) == front + Reads(rest, Text, refs)
  {
    hide After, Shown;
    Associative(front, Shown(rest, Text, refs), Held(After(rest, Text, refs)));
  }

  lemma NulIsLiteral(s: string, e: nat)
    requires s != "" && s[0] == '\0' && e == DigitsEnd(s, 1)
    ensures Literal(s[..e], None)
  {}

  lemma LookupDisplays(refs: seq<string>, tokens: seq<string>, v: nat)
    requires |tokens| == |refs| && forall k :: 0 <= k < |refs| ==> Displays(tokens[k], None, refs[k])
    ensures Displays(Lookup(tokens, v), None, Lookup(refs, v))
  {
    hide Displays;
    PlainShowsItself("undefined", None);
  }

  lemma DisplaysThen(a: string, text: string, b: string)
    requires Displays(a, None, text)
    ensures After(a + b, Text, None) == After(b, Text, None)
    ensures Shown(a + b, Text, None) == text + Shown(b, Text, None)
  {
    ScanAppend(a, b, Text, None);
  }

  /** What Restore does at a NUL: a reference, or text up to where the digits end. */
  lemma RestoreAtNul(s: string, tokens: seq<string>)
    requires s != "" && s[0] == '\0'
    ensures var e := DigitsEnd(s, 1);
      Restore(s, tokens) ==
        if 1 < e < |s| && s[e] == '\0' then Lookup(tokens, ValueFrom(0, s[1..e])) + Restore(s[e + 1..], tokens)
        else s[..e] + Restore(s[e..], tokens)
  {
    var e := DigitsEnd(s, 1);
    if !(1 < e < |s| && s[e] == '\0') {
      RestoreDigits(s[1..], e - 1, tokens);
      assert s[1..][e - 1..] == s[e..] && [s[0]] + s[1..][..e - 1] == s[..e];
      Associative([s[0]], s[1..][..e - 1], Restore(s[e..], tokens));
    }
  }

  lemma {:induction false} RestoreDigits(s: string, k: nat, tokens: seq<string>)
    requires k <= |s| && forall i :: 0 <= i < k ==> IsDigit(s[i])
    ensures Restore(s, tokens) == s[..k] + Restore(s[k..], tokens)
  {
    if k == 0 {
      assert s[0..] == s && s[..0] + Restore(s, tokens) == Restore(s, tokens);
    } else {
      RestoreDigits(s[1..], k - 1, tokens);
      assert s[1..][k - 1..] == s[k..] && [s[0]] + s[1..][..k - 1] == s[..k];
      Associative([s[0]], s[1..][..k - 1], Restore(s[k..], tokens));
    }
  }

  lemma OneStep(c: char, rest: string, m: Mode, refs: Refs)
    ensures After([c] + rest, m, refs) == After(rest, Step(m, c, refs), refs)
    ensures Shown([c] + rest, m, refs) == Shows(m, c, refs) + Shown(rest, Step(m, c, refs), refs)
  {
    assert ([c] + rest)[1..] == rest;
  }

  /** Any other character is copied, and neither scanner looks at the references for it. */
  lemma CharStep(c: char, m: Mode, refs: seq<string>)
    requires (m == Text || m.Tag?) && !(m == Text && c == '\0') && Step(m, c, Some(refs)) != Bad
    ensures var next := Step(m, c, Some(refs)); next == Text || next.Tag?
    ensures Step(m, c, None) == Step(m, c, Some(refs)) && Shows(m, c, None) == Shows(m, c, Some(refs)) && c != '\0'
  {}

  lemma CodeDisplays(inner: string)
    requires Literal(inner, None)
    ensures Displays(CodeHtml(inner), None, CodeText(inner))
  {
    hide Displays;
    MkDisplays("`", None);
    PlainShowsItself(inner, None);
    DisplaysAppend(Mk("`"), inner, None, "`", inner);
    DisplaysAppend(Mk("`") + inner, Mk("`"), None, "`" + inner, "`");
    assert TagChars("md-code");
    SpanDisplays("md-code", Mk("`") + inner + Mk("`"), None, CodeText(inner));
  }

  lemma CodesDisplay(inners: seq<string>)
    requires forall x <- inners :: Literal(x, None)
    ensures |CodeHtmls(inners)| == |CodeTexts(inners)| == |inners|
    ensures forall k :: 0 <= k < |inners| ==> Displays(CodeHtmls(inners)[k], None, CodeTexts(inners)[k])
  {
    hide CodeHtml, CodeText, Displays, Literal;
    forall k | 0 <= k < |inners| ensures Displays(CodeHtmls(inners)[k], None, CodeTexts(inners)[k]) {
      assert inners[k] in inners;
      CodeDisplays(inners[k]);
    }
  }

  lemma {:induction false} NothingPulled(s: string, n: nat)
    requires '`' !in s
    ensures PullCode(s, n) == Pulled(s, [])
  {
    if s != "" {
      assert s[0] in s;
      NothingPulled(s[1..], n);
      assert s == [s[0]] + s[1..];
    }
  }

  lemma ForgedIsUndefined(digits: string)
    requires digits != "" && forall c <- digits :: IsDigit(c)
    ensures Restore("\0" + digits + "\0", []) == "undefined"
  {
    var s := "\0" + digits + "\0";
    assert forall i :: 1 <= i <= |digits| ==> s[i] == digits[i - 1] && s[i] in digits;
    var e := |digits| + 1;
    assert s[e] == '\0' && s[e + 1..] == "";
    DigitsEndAt(s, 1, e);
    assert Restore(s, []) == "undefined" + "";
  }
}
