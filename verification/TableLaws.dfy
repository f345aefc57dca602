/** Tables read back: cells written as a row, with their pipes escaped, are the cells the renderer
    finds, exactly when no backslash runs into a separator; and what becomes of them. */
module TableLaws {
  import opened Basics
  import opened Html
  import opened Scan
  import opened Tables

  // ----- Trimming -----

  predicate NoBlankEnds(s: string) {
    s == "" || (s[0] as nat !in BLANKS && s[|s| - 1] as nat !in BLANKS)
  }

  lemma {:induction false} TrimsFront(a: string, s: string)
    requires AllSpace(a) && (s == "" || !IsSpace(s[0]))
    ensures TrimFront(a + s) == s
  {
    if a == "" {
      assert a + s == s;
    } else {
      assert (a + s)[1..] == a[1..] + s;
      TrimsFront(a[1..], s);
    }
  }

  lemma {:induction false} TrimsBack(s: string, b: string)
    requires AllSpace(b) && (s == "" || !IsSpace(s[|s| - 1]))
    ensures TrimBack(s + b) == s
  {
    if b == "" {
      assert s + b == s;
    } else {
      assert (s + b)[..|s + b| - 1] == s + b[..|b| - 1];
      TrimsBack(s, b[..|b| - 1]);
    }
  }

  lemma {:induction false} TrimsAll(a: string)
    requires AllSpace(a)
    ensures TrimFront(a) == ""
  {
    if a != "" { TrimsAll(a[1..]); }
  }

  /** Blanks go from both ends and nothing else does. */
  lemma TrimIs(a: string, s: string, b: string)
    requires IsBlank(a) && IsBlank(b) && NoBlankEnds(s)
    ensures Trim(a + s + b) == s
  {
    hide BLANKS;
    BlankIsSpace(a);
    BlankIsSpace(b);
    if s == "" {
      assert AllSpace(a + s + b);
      TrimsAll(a + s + b);
    } else {
      BlanksAre(s[0]);
      BlanksAre(s[|s| - 1]);
      Associative(a, s, b);
      TrimsFront(a, s + b);
      TrimsBack(s, b);
    }
  }

  lemma {:induction false} FrontParts(s: string)
    ensures |TrimFront(s)| <= |s| && s == s[..|s| - |TrimFront(s)|] + TrimFront(s)
    ensures AllSpace(s[..|s| - |TrimFront(s)|])
    ensures TrimFront(s) == "" || !IsSpace(TrimFront(s)[0])
  {
    if s != "" && IsSpace(s[0]) {
      FrontParts(s[1..]);
      var n := |s| - |TrimFront(s)|;
      assert s[..n] == [s[0]] + s[1..][..n - 1];
    }
  }

  lemma {:induction false} BackParts(s: string)
    ensures |TrimBack(s)| <= |s| && s == TrimBack(s) + s[|TrimBack(s)|..] && AllSpace(s[|TrimBack(s)|..])
    ensures TrimBack(s) == "" || !IsSpace(TrimBack(s)[|TrimBack(s)| - 1])
  {
    if s != "" && IsSpace(s[|s| - 1]) {
      BackParts(s[..|s| - 1]);
      var n := |TrimBack(s)|;
      assert s[n..] == s[..|s| - 1][n..] + [s[|s| - 1]];
    }
  }

  /** Every string is its trimmed part between blanks. */
  lemma TrimParts(s: string) returns (a: string, b: string)
    ensures IsBlank(a) && IsBlank(b) && NoBlankEnds(Trim(s)) && s == a + Trim(s) + b
  {
    hide BLANKS;
    var t := TrimFront(s);
    FrontParts(s);
    BackParts(t);
    a, b := s[..|s| - |t|], t[|TrimBack(t)|..];
    BlankIsSpace(a);
    BlankIsSpace(b);
    Associative(a, Trim(s), b);
    if Trim(s) != "" {
      BlanksAre(Trim(s)[0]);
      BlanksAre(Trim(s)[|Trim(s)| - 1]);
    }
  }

  // ----- A row and its cells -----

  /** A cell as it is written: with a backslash in front of each pipe. */
  function Piped(cell: string): string {
    if cell == "" then "" else (if cell[0] == '|' then "\\|" else [cell[0]]) + Piped(cell[1..])
  }

  function RowOf(cells: seq<string>): string
    requires cells != []
  {
    if |cells| == 1 then Piped(cells[0]) else Piped(cells[0]) + ("|" + RowOf(cells[1..]))
  }

  /** A row with or without the pipes outside. */
  function LineOf(lead: bool, cells: seq<string>, trail: bool): string
    requires cells != []
  {
    (if lead then "|" else "") + (RowOf(cells) + (if trail then "|" else ""))
  }

  /** No cell that has a pipe behind it ends in a backslash. */
  predicate NoneRunsOn(cells: seq<string>, trail: bool) {
    forall i :: 0 <= i < |cells| && (trail || i < |cells| - 1) ==> !EndsIn(cells[i], '\\')
  }

  lemma {:induction false} CellReads(cell: string, rest: string, cur: string)
    requires rest == "" || rest[0] != '|' || !EndsIn(cell, '\\')
    ensures CellsFrom(Piped(cell) + rest, cur) == CellsFrom(rest, cur + cell)
    decreases |cell|
  {
    if cell == "" {
      assert Piped(cell) + rest == rest && cur + cell == cur;
    } else {
      assert cur + [cell[0]] + cell[1..] == cur + cell;
      CellReads(cell[1..], rest, cur + [cell[0]]);
      PipedStarts(cell[1..]);
      hide EndsIn;
      CharReads(cell[0], Piped(cell[1..]) + rest, cur);
      Associative(if cell[0] == '|' then "\\|" else [cell[0]], Piped(cell[1..]), rest);
    }
  }

  lemma CharReads(c: char, more: string, cur: string)
    requires c == '\\' ==> more == "" || more[0] != '|'
    ensures CellsFrom((if c == '|' then "\\|" else [c]) + more, cur) == CellsFrom(more, cur + [c])
  {
    if c == '|' {
      assert ("\\|" + more)[2..] == more;
    } else {
      assert ([c] + more)[1..] == more;
    }
  }

  lemma {:induction false} PipedAppend(a: string, b: string)
    ensures Piped(a + b) == Piped(a) + Piped(b)
  {
    if a == "" {
      assert a + b == b;
    } else {
      assert (a + b)[1..] == a[1..] + b;
      PipedAppend(a[1..], b);
      Associative(if a[0] == '|' then "\\|" else [a[0]], Piped(a[1..]), Piped(b));
    }
  }

  /** A cell as written starts with no pipe, and ends as the cell does. */
  lemma PipedStarts(cell: string)
    ensures cell == "" <==> Piped(cell) == ""
    ensures cell != "" ==> Piped(cell)[0] == if cell[0] == '|' then '\\' else cell[0]
  {}

  lemma {:induction false} PipedEnds(cell: string)
    ensures forall c :: EndsIn(Piped(cell), c) <==> EndsIn(cell, c)
    ensures EndsIn(cell, '|') ==> EndsIn(Piped(cell)[..|Piped(cell)| - 1], '\\')
  {
    if cell != "" {
      var q, c := cell[..|cell| - 1], cell[|cell| - 1];
      assert cell == q + [c];
      PipedAppend(q, [c]);
      assert Piped([c]) == if c == '|' then "\\|" else [c];
    }
  }

  lemma {:induction false} RowReads(cells: seq<string>, cur: string)
    requires cells != [] && NoneRunsOn(cells, false)
    ensures CellsFrom(RowOf(cells), cur) == [cur + cells[0]] + cells[1..]
  {
    if |cells| == 1 {
      CellReads(cells[0], "", cur);
      assert Piped(cells[0]) + "" == Piped(cells[0]);
    } else {
      var rest := RowOf(cells[1..]);
      assert forall i :: 0 <= i < |cells| - 1 ==> cells[1..][i] == cells[i + 1];
      CellReads(cells[0], "|" + rest, cur);
      assert ("|" + rest)[1..] == rest;
      RowReads(cells[1..], "");
      assert "" + cells[1] == cells[1];
      assert [cells[1]] + cells[1..][1..] == cells[1..];
    }
  }

  /** A backslash that runs into the separator makes two cells one. */
  lemma {:induction false} RowMerges(cells: seq<string>, cur: string)
    requires cells != []
    ensures |CellsFrom(RowOf(cells), cur)| <= |cells|
    ensures !NoneRunsOn(cells, false) ==> |CellsFrom(RowOf(cells), cur)| < |cells|
  {
    if |cells| == 1 {
      CellReads(cells[0], "", cur);
      assert Piped(cells[0]) + "" == Piped(cells[0]);
    } else {
      var rest, c := RowOf(cells[1..]), cells[0];
      assert forall i :: 0 <= i < |cells| - 1 ==> cells[1..][i] == cells[i + 1];
      if EndsIn(c, '\\') {
        MergedCell(c, rest, cur);
        RowMerges(cells[1..], cur + c[..|c| - 1] + "|");
      } else {
        CellReads(c, "|" + rest, cur);
        assert ("|" + rest)[1..] == rest;
        RowMerges(cells[1..], "");
      }
    }
  }

  lemma MergedCell(c: string, rest: string, cur: string)
    requires EndsIn(c, '\\')
    ensures CellsFrom(Piped(c) + ("|" + rest), cur) == CellsFrom(rest, cur + c[..|c| - 1] + "|")
  {
    var q := c[..|c| - 1];
    assert c == q + "\\";
    PipedAppend(q, "\\");
    assert Piped("\\") == "\\";
    var after := "\\|" + rest;
    assert Piped(c) + ("|" + rest) == Piped(q) + after;
    CellReads(q, after, cur);
    assert after[2..] == rest;
  }

  lemma {:induction false} RowEnds(cells: seq<string>)
    requires cells != []
    ensures var row, last := RowOf(cells), cells[|cells| - 1];
      && (last != "" ==> row != "" && row[|row| - 1] == last[|last| - 1])
      && (EndsIn(row, '\\') <==> EndsIn(last, '\\'))
      && (EndsIn(last, '|') ==> EndsIn(row[..|row| - 1], '\\'))
  {
    hide Piped;
    var row, last := RowOf(cells), cells[|cells| - 1];
    PipedStarts(last);
    PipedEnds(last);
    if |cells| == 1 {
      if last != "" { assert EndsIn(Piped(last), last[|last| - 1]); }
    } else {
      var rest, front := RowOf(cells[1..]), Piped(cells[0]) + "|";
      RowEnds(cells[1..]);
      assert row == front + rest;
      if EndsIn(last, '|') { assert row[..|row| - 1] == front + rest[..|rest| - 1]; }
    }
  }

  lemma RowStarts(cells: seq<string>)
    requires cells != [] && cells[0] != ""
    ensures RowOf(cells) != "" && RowOf(cells)[0] == if cells[0][0] == '|' then '\\' else cells[0][0]
  {
    PipedStarts(cells[0]);
    hide Piped;
  }

  predicate IsWritten(lead: bool, cells: seq<string>, trail: bool) {
    && cells != []
    && (lead || (cells[0] != "" && cells[0][0] as nat !in BLANKS))
    && (trail || (cells[|cells| - 1] != "" && cells[|cells| - 1][|cells[|cells| - 1]| - 1] as nat !in BLANKS))
  }

  lemma LineEnds(lead: bool, cells: seq<string>, trail: bool)
    requires IsWritten(lead, cells, trail)
    ensures LineOf(lead, cells, trail) != "" && NoBlankEnds(LineOf(lead, cells, trail))
  {
    hide BLANKS, RowOf;
    BlanksAre('|');
    BlanksAre('\\');
    RowEnds(cells);
    if !lead { RowStarts(cells); }
  }

  /** The outer pipes go, but for one at the end that the last cell runs into. */
  lemma OuterDropped(lead: bool, cells: seq<string>, trail: bool)
    requires IsWritten(lead, cells, trail)
    ensures DropOuter(LineOf(lead, cells, trail))
         == RowOf(cells) + (if trail && EndsIn(cells[|cells| - 1], '\\') then "|" else "")
  {
    hide RowOf;
    var row, line := RowOf(cells), LineOf(lead, cells, trail);
    RowEnds(cells);
    if !lead { RowStarts(cells); }
    var t := row + (if trail then "|" else "");
    assert line == (if lead then "|" else "") + t;
    assert (if line != "" && line[0] == '|' then line[1..] else line) == t;
    if trail { assert t[..|t| - 1] == row; } else { assert t == row; }
    assert row + "" == row;
  }

  lemma OneDiffers(cells: seq<string>, n: nat, q: string)
    requires n < |cells| && cells[n] == q + "\\"
    ensures TrimAll(cells[n := q + "|"]) != TrimAll(cells)
  {
    hide Trim;
    TrimKeepsEnd(q, '|');
    TrimKeepsEnd(q, '\\');
    assert TrimAll(cells[n := q + "|"])[n] == Trim(q + "|");
  }

  lemma AllRead(cells: seq<string>)
    requires cells != [] && NoneRunsOn(cells, false)
    ensures CellsFrom(RowOf(cells), "") == cells
  {
    hide CellsFrom, RowOf, NoneRunsOn;
    RowReads(cells, "");
    assert [cells[0]] + cells[1..] == cells && "" + cells[0] == cells[0];
  }

  /** A pipe that the last cell runs into becomes a part of it. */
  lemma LastMerges(cells: seq<string>)
    requires cells != [] && EndsIn(cells[|cells| - 1], '\\')
    ensures TrimAll(CellsFrom(RowOf(cells) + "|", "")) != TrimAll(cells)
  {
    var n := |cells| - 1;
    var q := cells[n][..|cells[n]| - 1];
    var merged := cells[n := q + "|"];
    assert cells[n] == q + "\\";
    hide CellsFrom, RowOf, NoneRunsOn, TrimAll;
    RowWithPipe(cells);
    if NoneRunsOn(merged, false) {
      AllRead(merged);
      OneDiffers(cells, n, q);
    } else {
      RowMerges(merged, "");
    }
  }

  lemma {:induction false} FrontKeepsEnd(s: string)
    requires s != "" && !IsSpace(s[|s| - 1])
    ensures TrimFront(s) != "" && TrimFront(s)[|TrimFront(s)| - 1] == s[|s| - 1]
  {
    if IsSpace(s[0]) { FrontKeepsEnd(s[1..]); }
  }

  lemma TrimKeepsEnd(q: string, c: char)
    requires c == '|' || c == '\\'
    ensures EndsIn(Trim(q + [c]), c)
  {
    FrontKeepsEnd(q + [c]);
  }

  lemma {:induction false} RowWithPipe(cells: seq<string>)
    requires cells != [] && EndsIn(cells[|cells| - 1], '\\')
    ensures var n := |cells| - 1;
      RowOf(cells) + "|" == RowOf(cells[n := cells[n][..|cells[n]| - 1] + "|"])
  {
    var n := |cells| - 1;
    var q := cells[n][..|cells[n]| - 1];
    var merged := cells[n := q + "|"];
    if n == 0 {
      assert cells[0] == q + "\\";
      PipedAppend(q, "\\");
      PipedAppend(q, "|");
      assert Piped("\\") == "\\" && Piped("|") == "\\|";
    } else {
      RowWithPipe(cells[1..]);
      assert cells[1..][n - 1 := q + "|"] == merged[1..];
      Associative(Piped(cells[0]) + "|", RowOf(cells[1..]), "|");
    }
  }

  /** Cells written as a row, outer pipes or not, blanks around it or not, read back as they are,
      each trimmed, if and only if no cell with a pipe behind it ends in a backslash. A row
      without an outer pipe begins, or ends, with a cell that is not blank there. */
  lemma CellsReadBack(lead: bool, cells: seq<string>, trail: bool, front: string, back: string)
    requires IsWritten(lead, cells, trail) && IsBlank(front) && IsBlank(back)
    ensures CellsOf(front + LineOf(lead, cells, trail) + back) == TrimAll(cells) <==> NoneRunsOn(cells, trail)
  {
    hide RowOf, LineOf, NoBlankEnds, IsBlank, Trim, DropOuter, CellsFrom;
    LineEnds(lead, cells, trail);
    TrimIs(front, LineOf(lead, cells, trail), back);
    OuterDropped(lead, cells, trail);
    var row, n := RowOf(cells), |cells| - 1;
    assert row + "" == row;
    if trail && EndsIn(cells[n], '\\') {
      LastMerges(cells);
    } else if NoneRunsOn(cells, false) {
      AllRead(cells);
    } else {
      RowMerges(cells, "");
    }
  }

  // ----- Through the escape -----

  function EscapeAll(cells: seq<string>): (r: seq<string>)
    ensures |r| == |cells| && forall i :: 0 <= i < |cells| ==> r[i] == Escape(cells[i])
  {
    if cells == [] then [] else [Escape(cells[0])] + EscapeAll(cells[1..])
  }

  lemma OneEscapes(c: char)
    ensures Escape([c]) == EscapeChar(c)
    ensures c as nat in BLANKS ==> EscapeChar(c) == [c]
    ensures EscapeChar(c) != "" && (EscapeChar(c)[0] as nat in BLANKS <==> c as nat in BLANKS)
    ensures EscapeChar(c)[|EscapeChar(c)| - 1] as nat in BLANKS <==> c as nat in BLANKS
    ensures EndsIn(EscapeChar(c), '\\') <==> c == '\\'
    ensures '|' in EscapeChar(c) <==> c == '|'
  {
    assert [c][1..] == "" && EscapeChar(c) + "" == EscapeChar(c);
    hide BLANKS;
    BlanksAre(c);
    BlanksAre('&');
    BlanksAre(';');
  }

  lemma {:induction false} EscapedEnds(s: string)
    ensures s != "" <==> Escape(s) != ""
    ensures s != "" ==> (Escape(s)[0] as nat in BLANKS <==> s[0] as nat in BLANKS)
    ensures s != "" ==> (Escape(s)[|Escape(s)| - 1] as nat in BLANKS <==> s[|s| - 1] as nat in BLANKS)
    ensures EndsIn(Escape(s), '\\') <==> EndsIn(s, '\\')
  {
    hide BLANKS;
    if s != "" {
      var n := |s| - 1;
      OneEscapes(s[0]);
      OneEscapes(s[n]);
      EscapeAppend(s[..n], [s[n]]);
      assert s == s[..n] + [s[n]];
    }
  }

  lemma {:induction false} BlankEscapes(s: string)
    requires IsBlank(s)
    ensures Escape(s) == s
  {
    hide BLANKS;
    if s != "" {
      OneEscapes(s[0]);
      BlankEscapes(s[1..]);
      assert s == [s[0]] + s[1..];
    }
  }

  lemma TrimEscapes(s: string)
    ensures Trim(Escape(s)) == Escape(Trim(s))
  {
    hide BLANKS, Trim, Escape;
    var a, b := TrimParts(s);
    var t := Trim(s);
    EscapeAppend(a + t, b);
    EscapeAppend(a, t);
    BlankEscapes(a);
    BlankEscapes(b);
    EscapedEnds(t);
    TrimIs(a, Escape(t), b);
  }

  lemma {:induction false} NothingPiped(s: string)
    requires '|' !in s
    ensures Piped(s) == s
  {
    if s != "" {
      NothingPiped(s[1..]);
      assert s == [s[0]] + s[1..];
    }
  }

  lemma {:induction false} PipedEscapes(s: string)
    ensures Escape(Piped(s)) == Piped(Escape(s))
  {
    if s != "" {
      hide BLANKS, EscapeChar;
      var c := s[0];
      var first := if c == '|' then "\\|" else [c];
      EscapeAppend(first, Piped(s[1..]));
      PipedAppend(EscapeChar(c), Escape(s[1..]));
      PipedEscapes(s[1..]);
      CharPipedEscapes(c);
    }
  }

  lemma CharPipedEscapes(c: char)
    ensures Escape(if c == '|' then "\\|" else [c]) == Piped(EscapeChar(c))
  {
    hide BLANKS;
    OneEscapes(c);
    if c == '|' {
      NothingEscapes("\\|");
    } else {
      NothingPiped(EscapeChar(c));
    }
  }

  lemma {:induction false} RowEscapes(cells: seq<string>)
    requires cells != []
    ensures Escape(RowOf(cells)) == RowOf(EscapeAll(cells))
  {
    hide Escape, Piped;
    PipedEscapes(cells[0]);
    if |cells| > 1 {
      RowEscapes(cells[1..]);
      EscapeAppend(Piped(cells[0]), "|" + RowOf(cells[1..]));
      EscapeAppend("|", RowOf(cells[1..]));
      NothingEscapes("|");
    }
  }

  lemma LineEscapes(lead: bool, cells: seq<string>, trail: bool, front: string, back: string)
    requires cells != [] && IsBlank(front) && IsBlank(back)
    ensures Escape(front + LineOf(lead, cells, trail) + back) == front + LineOf(lead, EscapeAll(cells), trail) + back
  {
    hide Escape, EscapeAll, RowOf, BLANKS;
    var l, t := if lead then "|" else "", if trail then "|" else "";
    NothingEscapes("|");
    NothingEscapes("");
    BlankEscapes(front);
    BlankEscapes(back);
    RowEscapes(cells);
    EscapeAppend(front + LineOf(lead, cells, trail), back);
    EscapeAppend(front, LineOf(lead, cells, trail));
    EscapeAppend(l, RowOf(cells) + t);
    EscapeAppend(RowOf(cells), t);
  }

  lemma AllEscape(lead: bool, cells: seq<string>, trail: bool)
    requires IsWritten(lead, cells, trail)
    ensures IsWritten(lead, EscapeAll(cells), trail)
    ensures NoneRunsOn(EscapeAll(cells), trail) <==> NoneRunsOn(cells, trail)
  {
    hide BLANKS, Escape, EndsIn;
    var escaped := EscapeAll(cells);
    forall i | 0 <= i < |cells| ensures EndsIn(escaped[i], '\\') <==> EndsIn(cells[i], '\\') {
      EscapedEnds(cells[i]);
    }
    EscapedEnds(cells[0]);
    EscapedEnds(cells[|cells| - 1]);
  }

  lemma TrimAllEscapes(cells: seq<string>)
    ensures TrimAll(EscapeAll(cells)) == EscapeAll(TrimAll(cells))
  {
    hide Trim, Escape;
    forall i | 0 <= i < |cells| ensures TrimAll(EscapeAll(cells))[i] == EscapeAll(TrimAll(cells))[i] {
      TrimEscapes(cells[i]);
    }
  }

  /** The renderer splits the escaped line, and finds the escaped cells under the same condition. */
  lemma EscapedCellsReadBack(lead: bool, cells: seq<string>, trail: bool, front: string, back: string)
    requires IsWritten(lead, cells, trail) && IsBlank(front) && IsBlank(back)
    ensures CellsOf(Escape(front + LineOf(lead, cells, trail) + back)) == EscapeAll(TrimAll(cells))
       <==> NoneRunsOn(cells, trail)
  {
    assert cells != [];
    hide BLANKS, IsBlank, IsWritten, NoneRunsOn, LineOf, CellsOf, Escape, EscapeAll, TrimAll;
    AllEscape(lead, cells, trail);
    LineEscapes(lead, cells, trail, front, back);
    CellsReadBack(lead, EscapeAll(cells), trail, front, back);
    TrimAllEscapes(cells);
  }

  // ----- Alignment -----

  /** Dashes, with a colon on the left, on the right, on both sides or on neither. */
  lemma AlignIs(a: string, left: bool, dashes: string, right: bool, b: string)
    requires IsBlank(a) && IsBlank(b) && dashes != "" && forall c <- dashes :: c == '-'
    ensures CellAlign(a + ((if left then ":" else "") + dashes + (if right then ":" else "")) + b)
         == if left && right then "center" else if right then "right" else if left then "left" else ""
  {
    hide BLANKS, Trim;
    BlanksAre(':');
    BlanksAre('-');
    assert dashes[0] in dashes && dashes[|dashes| - 1] in dashes;
    TrimIs(a, (if left then ":" else "") + dashes + (if right then ":" else ""), b);
  }

  // ----- The HTML -----

  function Tagged(tag: string, inner: string): string {
    "<" + tag + ">" + inner + "</" + tag + ">"
  }

  function Style(align: string): string {
    if align == "" then "" else " style=\"text-align:" + align + "\""
  }

  /** The i-th of something, or nothing when there are not that many. */
  function At(s: seq<string>, i: nat): string {
    if i < |s| then s[i] else ""
  }

  /** n cells, whatever the length of the row: each with its column's alignment. */
  function Cells(cell: string -> string, tag: string, aligns: seq<string>, row: seq<string>, n: nat): string {
    if n == 0 then ""
    else
      Cells(cell, tag, aligns, row, n - 1)
      + ("<" + tag + Style(At(aligns, n - 1)) + ">" + cell(At(row, n - 1)) + "</" + tag + ">")
  }

  function Rows(cell: string -> string, aligns: seq<string>, body: seq<seq<string>>, n: nat): string {
    if body == [] then ""
    else
      Rows(cell, aligns, body[..|body| - 1], n)
      + Tagged("tr", Cells(cell, "td", aligns, body[|body| - 1], n))
  }

  /** A header row, and a body if there are more rows; every row as wide as the header. */
  function Table(cell: string -> string, header: seq<string>, aligns: seq<string>, body: seq<seq<string>>): string {
    "<table class=\"md-table\">"
    + Tagged("thead", Tagged("tr", Cells(cell, "th", aligns, header, |header|)))
    + (if body == [] then "" else Tagged("tbody", Rows(cell, aligns, body, |header|)))
    + "</table>"
  }

  lemma {:induction false} RowIs(
    cell: string -> string, tag: string, aligns: seq<string>, row: seq<string>, i: nat, n: nat)
    requires i <= n
    ensures Cells(cell, tag, aligns, row, i) + RowHtml(cell, tag, aligns, row, i, n) == Cells(cell, tag, aligns, row, n)
    decreases n - i
  {
    var done := Cells(cell, tag, aligns, row, i);
    if i == n {
      assert done + "" == done;
    } else {
      RowIs(cell, tag, aligns, row, i + 1, n);
      CellIs(cell, tag, aligns, row, i);
      hide CellHtml;
      Associative(done, CellHtml(cell, tag, aligns, row, i), RowHtml(cell, tag, aligns, row, i + 1, n));
    }
  }

  lemma CellIs(cell: string -> string, tag: string, aligns: seq<string>, row: seq<string>, i: nat)
    ensures Cells(cell, tag, aligns, row, i + 1)
         == Cells(cell, tag, aligns, row, i) + CellHtml(cell, tag, aligns, row, i)
  {}

  lemma TaggedIs(inner: string)
    ensures Tagged("tr", inner) == "<tr>" + inner + "</tr>"
    ensures Tagged("thead", inner) == "<thead>" + inner + "</thead>"
    ensures Tagged("tbody", inner) == "<tbody>" + inner + "</tbody>"
  {
    assert "<" + "tr" + ">" == "<tr>" && "</" + "tr" + ">" == "</tr>";
    assert "<" + "thead" + ">" == "<thead>" && "</" + "thead" + ">" == "</thead>";
    assert "<" + "tbody" + ">" == "<tbody>" && "</" + "tbody" + ">" == "</tbody>";
  }

  lemma BodyStarts(cell: string -> string, aligns: seq<string>, body: seq<seq<string>>, n: nat)
    requires body != []
    ensures BodyHtml(cell, aligns, body, n)
         == Tagged("tr", Cells(cell, "td", aligns, body[0], n)) + BodyHtml(cell, aligns, body[1..], n)
  {
    RowIs(cell, "td", aligns, body[0], 0, n);
    var row := Cells(cell, "td", aligns, body[0], n);
    assert "" + RowHtml(cell, "td", aligns, body[0], 0, n) == RowHtml(cell, "td", aligns, body[0], 0, n);
    hide Cells, RowHtml;
    TaggedIs(row);
  }

  lemma RowsEnd(cell: string -> string, aligns: seq<string>, done: seq<seq<string>>, row: seq<string>, n: nat)
    ensures Rows(cell, aligns, done + [row], n)
         == Rows(cell, aligns, done, n) + Tagged("tr", Cells(cell, "td", aligns, row, n))
  {
    hide Cells, Tagged;
    assert (done + [row])[..|done|] == done;
  }

  lemma OneRowMore(cell: string -> string, aligns: seq<string>, done: seq<seq<string>>,
                   more: seq<seq<string>>, n: nat)
    requires more != []
    ensures Rows(cell, aligns, done, n) + BodyHtml(cell, aligns, more, n)
         == Rows(cell, aligns, done + [more[0]], n) + BodyHtml(cell, aligns, more[1..], n)
  {
    BodyStarts(cell, aligns, more, n);
    RowsEnd(cell, aligns, done, more[0], n);
    hide Cells, Tagged, Rows, BodyHtml;
    Associative(Rows(cell, aligns, done, n), Tagged("tr", Cells(cell, "td", aligns, more[0], n)),
                BodyHtml(cell, aligns, more[1..], n));
  }

  lemma {:induction false} BodyIs(cell: string -> string, aligns: seq<string>, done: seq<seq<string>>,
                                  more: seq<seq<string>>, n: nat)
    ensures Rows(cell, aligns, done, n) + BodyHtml(cell, aligns, more, n) == Rows(cell, aligns, done + more, n)
    decreases |more|
  {
    if more == [] {
      assert done + more == done;
      hide Rows;
      assert Rows(cell, aligns, done, n) + "" == Rows(cell, aligns, done, n);
    } else {
      hide Rows, BodyHtml;
      OneRowMore(cell, aligns, done, more, n);
      BodyIs(cell, aligns, done + [more[0]], more[1..], n);
      Associative(done, [more[0]], more[1..]);
      assert [more[0]] + more[1..] == more;
    }
  }

  lemma HeadIs(cells: string)
    ensures "<table class=\"md-table\"><thead><tr>" + cells + "</tr></thead>"
         == "<table class=\"md-table\">" + Tagged("thead", Tagged("tr", cells))
  {
    var table := "<table class=\"md-table\">";
    TaggedIs(cells);
    TaggedIs("<tr>" + cells + "</tr>");
    assert table + "<thead>" + "<tr>" == "<table class=\"md-table\"><thead><tr>";
    assert "</tr>" + "</thead>" == "</tr></thead>";
    hide Tagged;
  }

  lemma TableIs(cell: string -> string, header: seq<string>, aligns: seq<string>, body: seq<seq<string>>)
    ensures TableHtml(cell, header, aligns, body) == Table(cell, header, aligns, body)
  {
    var n := |header|;
    var cells := RowHtml(cell, "th", aligns, header, 0, n);
    RowIs(cell, "th", aligns, header, 0, n);
    assert "" + cells == cells;
    BodyIs(cell, aligns, [], body, n);
    assert [] + body == body;
    var rows := BodyHtml(cell, aligns, body, n);
    assert "" + rows == rows;
    hide Cells, RowHtml, BodyHtml, Rows, Tagged;
    HeadIs(cells);
    TaggedIs(rows);
  }
}
