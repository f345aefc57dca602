/** The tables of web/static/format.js: a row split into its cells, alignments, and the HTML. */
module Tables {
  import opened Basics
  import opened Html
  import opened Scan

  // ----- Rows and cells -----

  function TrimFront(s: string): string {
    if s != "" && IsSpace(s[0]) then TrimFront(s[1..]) else s
  }

  function TrimBack(s: string): string {
    if s != "" && IsSpace(s[|s| - 1]) then TrimBack(s[..|s| - 1]) else s
  }

  /** `trim()`. */
  function Trim(s: string): string {
    TrimBack(TrimFront(s))
  }

  predicate EndsIn(s: string, c: char) {
    s != "" && s[|s| - 1] == c
  }

  /** Without the outer pipes; the one at the end stays if it is escaped. */
  function DropOuter(s: string): string {
    var t := if s != "" && s[0] == '|' then s[1..] else s;
    if EndsIn(t, '|') && !EndsIn(t[..|t| - 1], '\\') then t[..|t| - 1] else t
  }

  /** The cells of s when `cur` is what was read of the first one. */
  function CellsFrom(s: string, cur: string): (cells: seq<string>)
    ensures cells != []
    decreases |s|
  {
    if s == "" then [cur]
    else if |s| > 1 && s[0] == '\\' && s[1] == '|' then CellsFrom(s[2..], cur + "|")
    else if s[0] == '|' then [cur] + CellsFrom(s[1..], "")
    else CellsFrom(s[1..], cur + [s[0]])
  }

  function TrimAll(cells: seq<string>): (r: seq<string>)
    ensures |r| == |cells|
    ensures forall i :: 0 <= i < |cells| ==> r[i] == Trim(cells[i])
  {
    if cells == [] then [] else [Trim(cells[0])] + TrimAll(cells[1..])
  }

  function CellsOf(line: string): seq<string> {
    TrimAll(CellsFrom(DropOuter(Trim(line)), ""))
  }

  /** `splitRow`. */
  method SplitRow(line: string) returns (cells: seq<string>)
    ensures cells == CellsOf(line)
  {
    var s := Trim(line);
    if s != "" && s[0] == '|' { s := s[1..]; }
    if EndsIn(s, '|') && !EndsIn(s[..|s| - 1], '\\') { s := s[..|s| - 1]; }
    assert s == DropOuter(Trim(line));
    var found: seq<string>, cur, i := [], "", 0;
    assert s[0..] == s;
    while i < |s|
      invariant 0 <= i <= |s|
      invariant CellsFrom(s, "") == found + CellsFrom(s[i..], cur)
    {
      ghost var rest := s[i..];
      if s[i] == '\\' && i + 1 < |s| && s[i + 1] == '|' {
        assert rest[2..] == s[i + 2..];
        cur := cur + "|";
        i := i + 2;
        continue;
      }
      assert rest[1..] == s[i + 1..];
      if s[i] == '|' {
        Associative(found, [cur], CellsFrom(s[i + 1..], ""));
        found, cur := found + [cur], "";
      } else {
        cur := cur + [s[i]];
      }
      i := i + 1;
    }
    cells := TrimAll(found + [cur]);
  }

  // ----- The table -----

  /** `cellAlign`. */
  function CellAlign(spec: string): string {
    var s := Trim(spec);
    var left, right := s != "" && s[0] == ':', EndsIn(s, ':');
    if left && right then "center" else if right then "right" else if left then "left" else ""
  }

  function Aligns(specs: seq<string>): seq<string> {
    if specs == [] then [] else [CellAlign(specs[0])] + Aligns(specs[1..])
  }

  function CellHtml(cell: string -> string, tag: string, aligns: seq<string>, row: seq<string>, i: nat): string {
    var attr := if i < |aligns| && aligns[i] != "" then " style=\"text-align:" + aligns[i] + "\"" else "";
    "<" + tag + attr + ">" + cell(if i < |row| then row[i] else "") + "</" + tag + ">"
  }

  /** Cells i to n of a row. */
  function RowHtml(cell: string -> string, tag: string, aligns: seq<string>, row: seq<string>, i: nat, n: nat): string
    requires i <= n
    decreases n - i
  {
    if i == n then "" else CellHtml(cell, tag, aligns, row, i) + RowHtml(cell, tag, aligns, row, i + 1, n)
  }

  function BodyHtml(cell: string -> string, aligns: seq<string>, body: seq<seq<string>>, n: nat): string {
    if body == [] then ""
    else "<tr>" + RowHtml(cell, "td", aligns, body[0], 0, n) + "</tr>" + BodyHtml(cell, aligns, body[1..], n)
  }

  function TableHtml(cell: string -> string, header: seq<string>, aligns: seq<string>, body: seq<seq<string>>): string {
    "<table class=\"md-table\"><thead><tr>" + RowHtml(cell, "th", aligns, header, 0, |header|) + "</tr></thead>"
    + (if body == [] then "" else "<tbody>" + BodyHtml(cell, aligns, body, |header|) + "</tbody>")
    + "</table>"
  }

  /** The cells of one row, behind what is there already. */
  method AppendRow(out: string, cell: string -> string, tag: string, aligns: seq<string>, row: seq<string>, n: nat)
    returns (r: string)
    ensures r == out + RowHtml(cell, tag, aligns, row, 0, n)
  {
    hide CellHtml;
    r := out;
    for i := 0 to n
      invariant out + RowHtml(cell, tag, aligns, row, 0, n) == r + RowHtml(cell, tag, aligns, row, i, n)
    {
      Associative(r, CellHtml(cell, tag, aligns, row, i), RowHtml(cell, tag, aligns, row, i + 1, n));
      r := r + CellHtml(cell, tag, aligns, row, i);
    }
    assert r + "" == r;
  }

  /** One body row, behind what is there already. */
  method AppendBodyRow(out: string, cell: string -> string, aligns: seq<string>, row: seq<string>, n: nat)
    returns (r: string)
    ensures r == out + ("<tr>" + RowHtml(cell, "td", aligns, row, 0, n) + "</tr>")
  {
    hide RowHtml;
    r := AppendRow(out + "<tr>", cell, "td", aligns, row, n);
    r := r + "</tr>";
  }

  lemma OneRowMore(out: string, cell: string -> string, aligns: seq<string>, body: seq<seq<string>>, n: nat)
    requires body != []
    ensures out + BodyHtml(cell, aligns, body, n)
         == out + ("<tr>" + RowHtml(cell, "td", aligns, body[0], 0, n) + "</tr>") + BodyHtml(cell, aligns, body[1..], n)
  {
    hide RowHtml;
    Associative(out, "<tr>" + RowHtml(cell, "td", aligns, body[0], 0, n) + "</tr>",
                BodyHtml(cell, aligns, body[1..], n));
  }

  /** `renderTable`. */
  method RenderTable(cell: string -> string, header: seq<string>, aligns: seq<string>, body: seq<seq<string>>)
    returns (out: string)
    ensures out == TableHtml(cell, header, aligns, body)
  {
    hide RowHtml, BodyHtml;
    var n := |header|;
    out := AppendRow("<table class=\"md-table\"><thead><tr>", cell, "th", aligns, header, n);
    out := out + "</tr></thead>";
    ghost var head, rows := out, BodyHtml(cell, aligns, body, n);
    if |body| > 0 {
      out := out + "<tbody>";
      ghost var start := out;
      assert body[0..] == body;
      for i := 0 to |body|
        invariant start + rows == out + BodyHtml(cell, aligns, body[i..], n)
      {
        OneRowMore(out, cell, aligns, body[i..], n);
        assert body[i..][1..] == body[i + 1..];
        out := AppendBodyRow(out, cell, aligns, body[i], n);
      }
      NoRowsMore(out, cell, aligns, n);
      Associative(head, "<tbody>", rows);
      out := out + "</tbody>";
    }
    out := out + "</table>";
  }

  lemma NoRowsMore(out: string, cell: string -> string, aligns: seq<string>, n: nat)
    ensures out + BodyHtml(cell, aligns, [], n) == out
  {}
}
