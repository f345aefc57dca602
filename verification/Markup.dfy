/** Decorated text: plain characters, `<span …>` and `</span>` tags around them, and
    references NUL digits NUL to text that was set aside. A scanner that follows it. */
module Markup {
  import opened Basics

  /** What the references stand for; None when a NUL is a character like any other. */
  type Refs = Option<seq<string>>

  /** Where the scanner is: in text, in a tag, or behind a NUL and digits that may turn out to
      be a reference and are held back until then. */
  datatype Mode = Text | Tag(first: bool) | Ref(held: string) | Bad

  /** Characters that start or end a marker; no tag contains one. */
  const MARKERS := {'*', '_', '~', '|', '@', '#', ':'}

  predicate IsDigit(c: char) {
    '0' <= c <= '9'
  }

  function DigitValue(c: char): nat {
    if IsDigit(c) then c as int - '0' as int else 0
  }

  /** The value of a run of digits, continuing from n. */
  function ValueFrom(n: nat, digits: string): nat
    decreases |digits|
  {
    if digits == "" then n else ValueFrom(n * 10 + DigitValue(digits[0]), digits[1..])
  }

  /** `tokens[+i]`; a missing entry turns into the word undefined. */
  function Lookup(tokens: seq<string>, n: nat): string {
    if n < |tokens| then tokens[n] else "undefined"
  }

  function TextStep(c: char, refs: Refs): Mode {
    if c == '<' then Tag(true) else if c == '>' then Bad else if c == '\0' && refs.Some? then Ref("\0") else Text
  }

  function TextShows(c: char, refs: Refs): string {
    if c == '<' || (c == '\0' && refs.Some?) then "" else [c]
  }

  /** A second NUL behind at least one digit completes a reference. */
  predicate Completes(held: string, c: char, refs: Refs) {
    c == '\0' && |held| > 1 && refs.Some?
  }

  function Step(m: Mode, c: char, refs: Refs): Mode {
    match m
    case Text => TextStep(c, refs)
    case Tag(first) =>
      if first && c != 's' && c != '/' then Bad
      else if c == '>' then Text
      else if c in MARKERS || c == '<' || c == '\0' then Bad
      else Tag(false)
    case Ref(held) =>
      if IsDigit(c) then Ref(held + [c]) else if Completes(held, c, refs) then Text else TextStep(c, refs)
    case Bad => Bad
  }

  /** The text the character c contributes: itself with what was held back, nothing, or what
      it completes a reference to. */
  function Shows(m: Mode, c: char, refs: Refs): string {
    match m
    case Text => TextShows(c, refs)
    case Ref(held) =>
      if IsDigit(c) then ""
      else if Completes(held, c, refs) then Lookup(refs.value, ValueFrom(0, held[1..]))
      else held + TextShows(c, refs)
    case _ => ""
  }

  function After(s: string, m: Mode, refs: Refs): Mode {
    if s == "" then m else After(s[1..], Step(m, s[0], refs), refs)
  }

  /** The text s shows, read from mode m. */
  function Shown(s: string, m: Mode, refs: Refs): string {
    if s == "" then "" else Shows(m, s[0], refs) + Shown(s[1..], Step(m, s[0], refs), refs)
  }

  /** What is still held back. */
  function Held(m: Mode): string {
    if m.Ref? then m.held else ""
  }

  /** The scanner is outside any tag. */
  predicate InText(m: Mode) {
    m.Text? || m.Ref?
  }

  /** Everything s shows in the end, what was held back included. */
  function Reads(s: string, m: Mode, refs: Refs): string {
    Shown(s, m, refs) + Held(After(s, m, refs))
  }

  /** s is well-formed decorated text, and shows exactly `text`. */
  predicate Displays(s: string, refs: Refs, text: string) {
    After(s, Text, refs) == Text && Shown(s, Text, refs) == text
  }

  lemma {:induction false} ScanAppend(a: string, b: string, m: Mode, refs: Refs)
    ensures After(a + b, m, refs) == After(b, After(a, m, refs), refs)
    ensures Shown(a + b, m, refs) == Shown(a, m, refs) + Shown(b, After(a, m, refs), refs)
  {
    if a == "" {
      assert a + b == b;
    } else {
      hide Step, Shows;
      assert (a + b)[0] == a[0] && (a + b)[1..] == a[1..] + b;
      var next := Step(m, a[0], refs);
      ScanAppend(a[1..], b, next, refs);
      Associative(Shows(m, a[0], refs), Shown(a[1..], next, refs), Shown(b, After(a, m, refs), refs));
    }
  }

  lemma {:induction false} BadStays(s: string, refs: Refs)
    ensures After(s, Bad, refs) == Bad
  {
    if s != "" {
      BadStays(s[1..], refs);
    }
  }

  /** No tag, no reference. */
  predicate Plain(s: string) {
    '<' !in s && '>' !in s && '\0' !in s
  }

  /** No angle bracket, and no NUL where it would mean something. */
  predicate Literal(s: string, refs: Refs) {
    '<' !in s && '>' !in s && (refs.Some? ==> '\0' !in s)
  }

  lemma {:induction false} PlainShowsItself(s: string, refs: Refs)
    requires Literal(s, refs)
    ensures Displays(s, refs, s)
  {
    if s != "" {
      assert s[0] in s;
      PlainShowsItself(s[1..], refs);
      assert s == [s[0]] + s[1..];
    }
  }

  /** Characters allowed inside a tag after its first. */
  predicate TagChars(s: string) {
    forall i :: 0 <= i < |s| ==> s[i] !in MARKERS && s[i] != '<' && s[i] != '>' && s[i] != '\0'
  }

  lemma {:induction false} InTagStays(s: string, refs: Refs)
    requires TagChars(s)
    ensures After(s, Tag(false), refs) == Tag(false) && Shown(s, Tag(false), refs) == ""
  {
    if s != "" {
      InTagStays(s[1..], refs);
    }
  }

  function Open(cls: string): string {
    "<s" + ("pan class=\"" + cls + "\"") + ">"
  }

  const CLOSE := "</span>"

  /** `mk`: a marker kept visible, but dimmed. */
  function Mk(s: string): string {
    Open("md-mk") + s + CLOSE
  }

  lemma TagCharsAppend(a: string, b: string)
    requires TagChars(a) && TagChars(b)
    ensures TagChars(a + b)
  {}

  /** The two characters that open a tag, and the one that ends it. */
  lemma TagEnds(c: char, refs: Refs)
    requires c == 's' || c == '/'
    ensures After(['<', c], Text, refs) == Tag(false) && Shown(['<', c], Text, refs) == ""
    ensures After(">", Tag(false), refs) == Text && Shown(">", Tag(false), refs) == ""
  {
    var s := ['<', c];
    assert s[1..] == [c] && [c][1..] == "";
    assert After([c], Tag(true), refs) == Tag(false);
    assert Shown([c], Tag(true), refs) == "" + "";
  }

  lemma TagShowsNothing(c: char, inner: string, refs: Refs)
    requires (c == 's' || c == '/') && TagChars(inner)
    ensures Displays(['<', c] + inner + ">", refs, "")
  {
    hide After, Shown, TagChars;
    TagEnds(c, refs);
    InTagStays(inner, refs);
    ScanAppend(['<', c] + inner, ">", Text, refs);
    ScanAppend(['<', c], inner, Text, refs);
  }

  lemma OpenShowsNothing(cls: string, refs: Refs)
    requires TagChars(cls)
    ensures Displays(Open(cls), refs, "")
  {
    hide Displays;
    var inner := "pan class=\"" + cls + "\"";
    TagCharsAppend("pan class=\"", cls);
    TagCharsAppend("pan class=\"" + cls, "\"");
    TagShowsNothing('s', inner, refs);
  }

  lemma CloseShowsNothing(refs: Refs)
    ensures Displays(CLOSE, refs, "")
  {
    hide Displays;
    assert CLOSE == ['<', '/'] + "span" + ">";
    TagShowsNothing('/', "span", refs);
  }

  lemma DisplaysAppend(a: string, b: string, refs: Refs, x: string, y: string)
    requires Displays(a, refs, x) && Displays(b, refs, y)
    ensures Displays(a + b, refs, x + y)
  {
    ScanAppend(a, b, Text, refs);
  }

  /** Text in a span. */
  lemma SpanDisplays(cls: string, s: string, refs: Refs, text: string)
    requires TagChars(cls) && Displays(s, refs, text)
    ensures Displays(Open(cls) + s + CLOSE, refs, text)
  {
    hide Displays;
    OpenShowsNothing(cls, refs);
    CloseShowsNothing(refs);
    DisplaysAppend(Open(cls), s, refs, "", text);
    DisplaysAppend(Open(cls) + s, CLOSE, refs, "" + text, "");
    assert "" + text + "" == text;
  }

  lemma MkDisplays(s: string, refs: Refs)
    requires Plain(s)
    ensures Displays(Mk(s), refs, s)
  {
    hide Displays;
    PlainShowsItself(s, refs);
    assert TagChars("md-mk");
    SpanDisplays("md-mk", s, refs, s);
  }

  predicate AllMarkers(s: string) {
    s != "" && forall c <- s :: c in MARKERS
  }

  /** In front of anything but a digit, what was held back is let go as it is; in front of a
      NUL, if there are no digits yet. */
  lemma LetsGo(s: string, m: Mode, refs: Refs)
    requires s != "" && InText(m) && !IsDigit(s[0]) && !Completes(Held(m), s[0], refs)
    ensures After(s, m, refs) == After(s, Text, refs)
    ensures Shown(s, m, refs) == Held(m) + Shown(s, Text, refs)
  {
    if m.Ref? {
      Associative(m.held, TextShows(s[0], refs), Shown(s[1..], TextStep(s[0], refs), refs));
    }
  }

  /** A marker can only stand in text. */
  lemma MarkerMeansText(s: string, m: Mode, refs: Refs)
    requires AllMarkers(s) && After(s, m, refs) != Bad
    ensures InText(m) && After(s, m, refs) == Text && Shown(s, m, refs) == Held(m) + s
    ensures Displays(s, refs, s)
  {
    assert s[0] in s && s[0] in MARKERS;
    BadStays(s[1..], refs);
    MarkersPlain(s);
    PlainShowsItself(s, refs);
    LetsGo(s, m, refs);
  }

  /** Text that opens with a tag. */
  lemma TagLetsGo(s: string, m: Mode, refs: Refs, text: string)
    requires s != "" && s[0] == '<' && InText(m) && Displays(s, refs, text)
    ensures After(s, m, refs) == Text && Shown(s, m, refs) == Held(m) + text
  {
    LetsGo(s, m, refs);
  }

  lemma NotBadBefore(a: string, b: string, m: Mode, refs: Refs)
    requires After(a + b, m, refs) != Bad
    ensures After(a, m, refs) != Bad
    ensures After(b, After(a, m, refs), refs) != Bad
  {
    ScanAppend(a, b, m, refs);
    BadStays(b, refs);
  }

  /** Wrapping `op body cl` in spans, each marker dimmed, changes neither where the scanner
      ends up nor what is shown, wherever it starts from and whatever the body holds. */
  lemma EmphasisKeeps(pre: string, op: string, body: string, cl: string, cls: string, m: Mode, refs: Refs)
    requires AllMarkers(op) && AllMarkers(cl) && TagChars(cls)
    requires After(pre + (op + (body + cl)), m, refs) != Bad
    ensures var out := pre + (Open(cls) + (Mk(op) + (body + (Mk(cl) + CLOSE))));
      && After(out, m, refs) == After(pre + (op + (body + cl)), m, refs) == Text
      && Shown(out, m, refs) == Shown(pre + (op + (body + cl)), m, refs)
  {
    hide After, Shown, Open, Mk, AllMarkers, TagChars;
    var rest := op + (body + cl);
    NotBadBefore(pre, rest, m, refs);
    var m1 := After(pre, m, refs);
    NotBadBefore(op, body + cl, m1, refs);
    MarkerMeansText(op, m1, refs);
    NotBadBefore(body, cl, Text, refs);
    var m2 := After(body, Text, refs);
    MarkerMeansText(cl, m2, refs);
    // The original.
    ScanAppend(pre, rest, m, refs);
    ScanAppend(op, body + cl, m1, refs);
    ScanAppend(body, cl, Text, refs);
    // The wrapped form.
    OpenAnywhere(cls, m1, refs);
    MkAnywhere(op, Text, refs);
    MkAnywhere(cl, m2, refs);
    CloseShowsNothing(refs);
    var tail := Mk(cl) + CLOSE;
    ScanAppend(Mk(cl), CLOSE, m2, refs);
    ScanAppend(body, tail, Text, refs);
    ScanAppend(Mk(op), body + tail, Text, refs);
    ScanAppend(Open(cls), Mk(op) + (body + tail), m1, refs);
    ScanAppend(pre, Open(cls) + (Mk(op) + (body + tail)), m, refs);
    SameShown(Held(m1), op, Shown(body, Text, refs), Held(m2), cl);
  }

  lemma SameShown(held1: string, op: string, body: string, held2: string, cl: string)
    ensures (held1 + op) + (body + (held2 + cl)) == held1 + (("" + op) + (body + ((held2 + cl) + "")))
  {
    assert "" + op == op && (held2 + cl) + "" == held2 + cl;
    Associative(held1, op, body + (held2 + cl));
  }

  lemma OpenAnywhere(cls: string, m: Mode, refs: Refs)
    requires TagChars(cls) && InText(m)
    ensures After(Open(cls), m, refs) == Text && Shown(Open(cls), m, refs) == Held(m)
  {
    hide Displays, After, Shown;
    OpenShowsNothing(cls, refs);
    TagLetsGo(Open(cls), m, refs, "");
    assert Held(m) + "" == Held(m);
  }

  lemma MkAnywhere(s: string, m: Mode, refs: Refs)
    requires AllMarkers(s) && InText(m)
    ensures After(Mk(s), m, refs) == Text && Shown(Mk(s), m, refs) == Held(m) + s
  {
    hide Displays, After, Shown;
    MarkersPlain(s);
    MkDisplays(s, refs);
    TagLetsGo(Mk(s), m, refs, s);
  }

  lemma MarkersPlain(s: string)
    requires AllMarkers(s)
    ensures Plain(s)
  {}

  /** Tinting a plain token that starts with a marker. */
  lemma TintKeeps(pre: string, op: string, body: string, cls: string, m: Mode, refs: Refs)
    requires AllMarkers(op) && Plain(body) && TagChars(cls)
    requires After(pre + (op + body), m, refs) != Bad
    ensures var out := pre + (Open(cls) + (op + (body + CLOSE)));
      && After(out, m, refs) == After(pre + (op + body), m, refs) == Text
      && Shown(out, m, refs) == Shown(pre + (op + body), m, refs)
  {
    hide After, Shown, Open, AllMarkers, TagChars;
    NotBadBefore(pre, op + body, m, refs);
    var m1 := After(pre, m, refs);
    NotBadBefore(op, body, m1, refs);
    MarkerMeansText(op, m1, refs);
    PlainShowsItself(body, refs);
    ScanAppend(pre, op + body, m, refs);
    ScanAppend(op, body, m1, refs);
    OpenAnywhere(cls, m1, refs);
    CloseShowsNothing(refs);
    ScanAppend(body, CLOSE, Text, refs);
    ScanAppend(op, body + CLOSE, Text, refs);
    ScanAppend(Open(cls), op + (body + CLOSE), m1, refs);
    ScanAppend(pre, Open(cls) + (op + (body + CLOSE)), m, refs);
    assert body + "" == body;
    Associative(Held(m1), op, body);
  }
}
