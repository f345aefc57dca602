/** A table written out cell by cell, all the way through `renderBlocks`: it shows these cells, in
    these places and so aligned. */
module WrittenTables {
  import opened Basics
  import opened BlockForms
  import opened BlockLaws
  import opened Blocks
  import opened Html
  import opened Scan
  import opened Tables
  import T = TableLaws

  /** The cells of a row, with the outer pipes or without, amid blanks. */
  datatype Row = Row(front: string, lead: bool, cells: seq<string>, trail: bool, back: string)

  predicate IsRowText(r: Row) {
    IsBlank(r.front) && IsBlank(r.back) && T.IsWritten(r.lead, r.cells, r.trail) && T.NoneRunsOn(r.cells, r.trail)
  }

  function Text(r: Row): string
    requires IsRowText(r)
  {
    r.front + T.LineOf(r.lead, r.cells, r.trail) + r.back
  }

  /** What the inline renderer gets of a row: each cell trimmed and escaped. */
  function Shown(r: Row): seq<string> {
    T.EscapeAll(TrimAll(r.cells))
  }

  predicate AreRows(rows: seq<Row>) {
    forall i :: 0 <= i < |rows| ==> IsRowText(rows[i])
  }

  function Texts(rows: seq<Row>): (t: seq<string>)
    requires AreRows(rows)
    ensures |t| == |rows| && forall i :: 0 <= i < |rows| ==> t[i] == Text(rows[i])
  {
    if rows == [] then [] else [Text(rows[0])] + Texts(rows[1..])
  }

  function ShownAll(rows: seq<Row>): (t: seq<seq<string>>)
    ensures |t| == |rows| && forall i :: 0 <= i < |rows| ==> t[i] == Shown(rows[i])
  {
    if rows == [] then [] else [Shown(rows[0])] + ShownAll(rows[1..])
  }

  lemma RowShown(r: Row)
    requires IsRowText(r)
    ensures CellsOf(Escape(Text(r))) == Shown(r)
  {
    hide CellsOf, Escape, TrimAll, T.LineOf;
    T.EscapedCellsReadBack(r.lead, r.cells, r.trail, r.front, r.back);
  }

  lemma RowsShown(rows: seq<Row>)
    requires AreRows(rows)
    ensures CellsOfEach(Texts(rows)) == ShownAll(rows)
  {
    hide CellsOf, Escape, Shown, Text, IsRowText;
    forall i | 0 <= i < |rows| ensures CellsOfEach(Texts(rows))[i] == ShownAll(rows)[i] {
      RowShown(rows[i]);
    }
  }

  // ----- The delimiter row -----

  /** A pipe in front of each cell of dashes and one at the end. */
  function DelimiterText(specs: seq<Cell>): string
    requires specs != []
  {
    "|" + (specs[0].before + CellsText(specs, "|"))
  }

  /** Colons on both sides centre a column, one on the right or on the left puts it there. */
  function AlignOf(c: Cell): string {
    if c.left && c.right then "center" else if c.right then "right" else if c.left then "left" else ""
  }

  function AlignsOf(specs: seq<Cell>): (t: seq<string>)
    ensures |t| == |specs| && forall i :: 0 <= i < |specs| ==> t[i] == AlignOf(specs[i])
  {
    if specs == [] then [] else [AlignOf(specs[0])] + AlignsOf(specs[1..])
  }

  function SpecTexts(specs: seq<Cell>): (t: seq<string>)
    ensures |t| == |specs| && forall i :: 0 <= i < |specs| ==> t[i] == specs[i].before + CellCore(specs[i])
  {
    if specs == [] then [] else [specs[0].before + CellCore(specs[0])] + SpecTexts(specs[1..])
  }

  lemma SpecIsPlain(c: Cell)
    requires IsCell(c)
    ensures var s := c.before + CellCore(c);
      s != "" && forall i :: 0 <= i < |s| ==> s[i] !in {'|', '\\', '&', '<', '>', '"', '\''}
  {
    var s := c.before + CellCore(c);
    hide BLANKS;
    forall i | 0 <= i < |s| ensures s[i] !in {'|', '\\', '&', '<', '>', '"', '\''} {
      BlanksAre(s[i]);
    }
  }

  lemma {:induction false} SpecsRow(specs: seq<Cell>)
    requires specs != [] && AllCells(specs)
    ensures T.RowOf(SpecTexts(specs)) + "|" == specs[0].before + CellsText(specs, "|")
  {
    var c := specs[0];
    SpecIsPlain(c);
    T.NothingPiped(c.before + CellCore(c));
    hide IsCell, CellCore, T.Piped;
    if |specs| > 1 {
      SpecsRow(specs[1..]);
      var rest := T.RowOf(SpecTexts(specs[1..]));
      Associative(c.before + CellCore(c), "|" + rest, "|");
      Associative("|", rest, "|");
      Associative(c.before, CellCore(c), "|" + (specs[1].before + CellsText(specs[1..], "|")));
    } else {
      Associative(c.before, CellCore(c), "|");
    }
  }

  lemma {:induction false} DelimiterIsPlain(specs: seq<Cell>)
    requires specs != [] && AllCells(specs)
    ensures forall i :: 0 <= i < |CellsText(specs, "|")| ==>
      CellsText(specs, "|")[i] !in {'&', '<', '>', '"', '\''}
  {
    SpecIsPlain(specs[0]);
    PlainParts(specs[0].before, CellCore(specs[0]));
    hide IsCell, CellCore;
    if |specs| > 1 {
      SpecIsPlain(specs[1]);
      PlainParts(specs[1].before, CellCore(specs[1]));
      DelimiterIsPlain(specs[1..]);
    }
  }

  predicate IsPlainText(s: string) {
    forall i :: 0 <= i < |s| ==> s[i] !in {'&', '<', '>', '"', '\''}
  }

  lemma PlainParts(a: string, b: string)
    requires IsPlainText(a + b)
    ensures IsPlainText(a) && IsPlainText(b)
  {
    forall i | 0 <= i < |a| ensures a[i] !in {'&', '<', '>', '"', '\''} { assert (a + b)[i] == a[i]; }
    forall i | 0 <= i < |b| ensures b[i] !in {'&', '<', '>', '"', '\''} { assert (a + b)[|a| + i] == b[i]; }
  }

  /** A delimiter row so written is one, also escaped, and aligns as it says. */
  lemma DelimiterAligns(specs: seq<Cell>)
    requires specs != [] && AllCells(specs)
    ensures IsDelimiterRow(Escape(DelimiterText(specs)))
    ensures Aligns(CellsOf(Escape(DelimiterText(specs)))) == AlignsOf(specs)
  {
    var line := DelimiterText(specs);
    DelimiterIsPlain(specs);
    SpecIsPlain(specs[0]);
    PlainParts(specs[0].before, CellCore(specs[0]));
    NothingEscapes(line);
    hide IsCell, CellCore, CellsText, Escape;
    assert IsRow(line, "|", specs, "|");
    SpecsRead(specs);
    SpecsAlign(specs);
  }

  lemma SpecsEnd(specs: seq<Cell>)
    requires specs != [] && AllCells(specs)
    ensures T.IsWritten(true, SpecTexts(specs), true) && T.NoneRunsOn(SpecTexts(specs), true)
  {
    var texts := SpecTexts(specs);
    hide CellCore;
    forall i | 0 <= i < |texts| ensures !EndsIn(texts[i], '\\') {
      assert IsCell(specs[i]);
      SpecIsPlain(specs[i]);
    }
  }

  lemma DelimiterIsLine(specs: seq<Cell>)
    requires specs != [] && AllCells(specs)
    ensures T.LineOf(true, SpecTexts(specs), true) == DelimiterText(specs)
  {
    SpecsRow(specs);
    hide IsCell, CellCore, CellsText, T.RowOf;
  }

  lemma LineReads(cells: seq<string>, line: string)
    requires T.IsWritten(true, cells, true) && T.NoneRunsOn(cells, true) && line == T.LineOf(true, cells, true)
    ensures CellsOf(line) == TrimAll(cells)
  {
    hide T.IsWritten, T.NoneRunsOn, T.LineOf, CellsOf, TrimAll;
    T.CellsReadBack(true, cells, true, "", "");
    assert "" + line + "" == line;
  }

  lemma SpecsRead(specs: seq<Cell>)
    requires specs != [] && AllCells(specs)
    ensures CellsOf(DelimiterText(specs)) == TrimAll(SpecTexts(specs))
  {
    hide T.IsWritten, T.NoneRunsOn, T.LineOf, CellsOf, TrimAll, DelimiterText, SpecTexts, AllCells;
    SpecsEnd(specs);
    DelimiterIsLine(specs);
    LineReads(SpecTexts(specs), DelimiterText(specs));
  }

  lemma {:induction false} SpecsAlign(specs: seq<Cell>)
    requires AllCells(specs)
    ensures Aligns(TrimAll(SpecTexts(specs))) == AlignsOf(specs)
  {
    hide Trim, CellAlign, CellCore;
    if specs != [] {
      SpecAligns(specs[0]);
      SpecsAlign(specs[1..]);
    }
  }

  lemma SpecAligns(c: Cell)
    requires IsCell(c)
    ensures CellAlign(Trim(c.before + CellCore(c))) == AlignOf(c)
  {
    hide BLANKS, Trim, CellAlign;
    var dashes := Dashes(c.dashes);
    BlanksAre(':');
    BlanksAre('-');
    Associative(c.before, CellFront(c), c.after);
    T.TrimIs(c.before, CellFront(c), c.after);
    assert "" + CellFront(c) + "" == CellFront(c);
    T.AlignIs("", c.left, dashes, c.right, "");
  }

  // ----- The whole table -----

  /** Rows written from their cells, over and under a delimiter row: one table of these cells in
      their order, header cells and body cells, each column aligned as its delimiter says. */
  lemma WrittenTable(f: Formatter, header: Row, specs: seq<Cell>, body: seq<Row>, rest: seq<string>)
    requires IsRowText(header) && AreRows(body) && specs != [] && AllCells(specs)
    requires '|' in Text(header) && OpensNoFence(Text(header)) && OpensNoQuote(Text(header))
    requires (forall i :: 0 <= i < |body| ==> IsBodyRow(Text(body[i]))) && (rest == [] || !IsBodyRow(rest[0]))
    ensures BlockHtmls(f, [Text(header), DelimiterText(specs)] + (Texts(body) + rest))
         == [T.Table(f.inline, Shown(header), AlignsOf(specs), ShownAll(body))] + BlockHtmls(f, rest)
  {
    hide IsBodyRow, OpensNoFence, OpensNoQuote, Shown, DelimiterText, T.Table, CellsOf, Escape, Aligns, AlignsOf;
    hide BlockHtmls, Text, IsRowText;
    RowShown(header);
    RowsShown(body);
    DelimiterAligns(specs);
    TableBlock(f, Text(header), DelimiterText(specs), Texts(body), rest);
  }
}
