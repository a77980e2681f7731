/** The flat table editor: a grid of cells edited by pure reducers (update a cell, insert
    or delete a row or a column), written out as a GFM pipe table by a hand-written
    serialiser and read back by a small pipe-table parser. */
module TableEditor {
  import opened Wrappers
  import opened Strings
  import opened JsArrays

  datatype Align = AlignLeft | AlignCenter | AlignRight

  /** One grid cell; `align` is absent unless set. */
  datatype Cell = Cell(content: string, isHeader: bool, align: Option<Align>)

  datatype TableData = TableData(rows: seq<seq<Cell>>)

  datatype RowSide = Above | Below

  datatype ColSide = Left | Right

  /** Every row has the same number of cells. */
  predicate Rectangular(d: TableData) {
    forall i :: 0 <= i < |d.rows| ==> |d.rows[i]| == |d.rows[0]|
  }

  /** The grid a new editor starts with when it is given none: a header row `列 1`, `列 2`,
      `列 3` over two rows of empty cells, no alignment anywhere. */
  function DefaultData(): TableData {
    var h := [Cell("列 1", true, None), Cell("列 2", true, None), Cell("列 3", true, None)];
    var e := [Cell("", false, None), Cell("", false, None), Cell("", false, None)];
    TableData([h, e, e])
  }

  lemma {:induction false} DefaultDataShape()
    ensures var d := DefaultData();
      |d.rows| == 3 && Rectangular(d) && |d.rows[0]| == 3
      && (forall j :: 0 <= j < 3 ==> d.rows[0][j] == Cell("列 " + IntToString(j + 1), true, None))
      && (forall i, j :: 1 <= i < 3 && 0 <= j < 3 ==> d.rows[i][j] == Cell("", false, None))
  {
    assert IntToString(1) == "1" && IntToString(2) == "2" && IntToString(3) == "3";
  }

  // ---------------------------------------------------------------------------
  // Reducers

  /** `updateCell`: the cell at (`rowIndex`, `colIndex`) takes the new content. */
  function CellUpdated(d: TableData, rowIndex: int, colIndex: int, content: string): TableData {
    TableData(seq(|d.rows|, i requires 0 <= i < |d.rows| =>
      seq(|d.rows[i]|, j requires 0 <= j < |d.rows[i]| =>
        if i == rowIndex && j == colIndex then d.rows[i][j].(content := content) else d.rows[i][j])))
  }

  /** Only the content of the addressed cell changes; its `isHeader` and `align` stay, and
      every other cell, and the shape of the grid, are as before. An address outside the
      grid changes nothing. */
  lemma {:induction false} CellUpdatedEffect(d: TableData, rowIndex: int, colIndex: int, content: string)
    ensures var r := CellUpdated(d, rowIndex, colIndex, content);
      |r.rows| == |d.rows|
      && (forall i :: 0 <= i < |d.rows| ==> |r.rows[i]| == |d.rows[i]|)
      && (forall i, j :: 0 <= i < |d.rows| && 0 <= j < |d.rows[i]| ==>
            r.rows[i][j] == if i == rowIndex && j == colIndex then Cell(content, d.rows[i][j].isHeader, d.rows[i][j].align) else d.rows[i][j])
      && (!(0 <= rowIndex < |d.rows| && 0 <= colIndex < |d.rows[rowIndex]|) ==> r == d)
  {
    var r := CellUpdated(d, rowIndex, colIndex, content);
    if !(0 <= rowIndex < |d.rows| && 0 <= colIndex < |d.rows[rowIndex]|) {
      forall i | 0 <= i < |d.rows| ensures r.rows[i] == d.rows[i] {
      }
    }
  }

  /** `rows[0]?.length || 0`. */
  function ColumnCount(d: TableData): nat {
    if |d.rows| == 0 then 0 else |d.rows[0]|
  }

  /** The row `insertRow` adds: one empty, non-header cell per first-row cell, each with
      the alignment of the first-row cell above it. */
  function BlankRow(d: TableData): (row: seq<Cell>)
    ensures |row| == ColumnCount(d)
    ensures forall j :: 0 <= j < |row| ==> row[j] == Cell("", false, d.rows[0][j].align)
  {
    seq(ColumnCount(d), j requires 0 <= j < ColumnCount(d) => Cell("", false, d.rows[0][j].align))
  }

  /** Where `insertRow(rowIndex, position)` splices. */
  function RowInsertIndex(rowIndex: int, side: RowSide): int {
    if side == Above then rowIndex else rowIndex + 1
  }

  /** `insertRow`: the blank row spliced into a copy of the rows. */
  function RowInserted(d: TableData, rowIndex: int, side: RowSide): TableData {
    TableData(InsertAt(d.rows, RowInsertIndex(rowIndex, side), BlankRow(d)))
  }

  /** For a position within the grid, the blank row lands at `rowIndex` ('above') or
      `rowIndex + 1` ('below') and the other rows keep their contents and order. */
  lemma {:induction false} RowInsertedEffect(d: TableData, rowIndex: int, side: RowSide)
    requires 0 <= RowInsertIndex(rowIndex, side) <= |d.rows|
    ensures var r := RowInserted(d, rowIndex, side); var k := RowInsertIndex(rowIndex, side);
      |r.rows| == |d.rows| + 1
      && r.rows[k] == BlankRow(d)
      && r.rows[..k] == d.rows[..k]
      && r.rows[k + 1..] == d.rows[k..]
  {
  }

  /** A rectangular grid stays rectangular when a row is inserted. */
  lemma {:induction false} RowInsertedRectangular(d: TableData, rowIndex: int, side: RowSide)
    requires |d.rows| > 0 && Rectangular(d)
    ensures Rectangular(RowInserted(d, rowIndex, side))
  {
    var r := RowInserted(d, rowIndex, side);
    var k := SpliceStart(RowInsertIndex(rowIndex, side), |d.rows|);
    assert |r.rows[0]| == |d.rows[0]| by {
      if k == 0 {
        assert r.rows[0] == BlankRow(d);
      }
    }
  }

  /** Where `insertColumn(colIndex, position)` splices. */
  function ColumnInsertIndex(colIndex: int, side: ColSide): int {
    if side == Left then colIndex else colIndex + 1
  }

  /** The cell `insertColumn` adds to row `rowIndex`: the header `列 {insertIndex + 1}` in
      the first row, an empty non-header cell elsewhere. */
  function NewColumnCell(rowIndex: int, insertIndex: int): Cell {
    Cell(if rowIndex == 0 then "列 " + IntToString(insertIndex + 1) else "", rowIndex == 0, None)
  }

  /** `insertColumn`: the new cell spliced into a copy of every row. */
  function ColumnInserted(d: TableData, colIndex: int, side: ColSide): TableData {
    var k := ColumnInsertIndex(colIndex, side);
    TableData(seq(|d.rows|, i requires 0 <= i < |d.rows| => InsertAt(d.rows[i], k, NewColumnCell(i, k))))
  }

  /** The row count stays; every row gains exactly one cell, placed where `splice` puts it
      (at the insert index when that lies within the row), with the other cells in order. */
  lemma {:induction false} ColumnInsertedEffect(d: TableData, colIndex: int, side: ColSide)
    ensures var r := ColumnInserted(d, colIndex, side); var k := ColumnInsertIndex(colIndex, side);
      |r.rows| == |d.rows|
      && forall i :: 0 <= i < |d.rows| ==>
           var p := SpliceStart(k, |d.rows[i]|);
           |r.rows[i]| == |d.rows[i]| + 1
           && r.rows[i][p] == NewColumnCell(i, k)
           && r.rows[i][..p] == d.rows[i][..p]
           && r.rows[i][p + 1..] == d.rows[i][p..]
  {
  }

  /** A rectangular grid stays rectangular when a column is inserted. */
  lemma {:induction false} ColumnInsertedRectangular(d: TableData, colIndex: int, side: ColSide)
    requires Rectangular(d)
    ensures Rectangular(ColumnInserted(d, colIndex, side))
  {
  }

  /** `deleteRow`: keeps the last remaining row; otherwise filters out the row at `rowIndex`. */
  function RowDeleted(d: TableData, rowIndex: int): TableData {
    if |d.rows| <= 1 then d else TableData(FilterIndex(d.rows, rowIndex))
  }

  /** With at most one row nothing changes; otherwise exactly the row at `rowIndex` is
      removed (the first row included) and an index outside the grid changes nothing. */
  lemma {:induction false} RowDeletedEffect(d: TableData, rowIndex: int)
    ensures var r := RowDeleted(d, rowIndex);
      (|d.rows| <= 1 ==> r == d)
      && (|d.rows| > 1 && 0 <= rowIndex < |d.rows| ==> r.rows == d.rows[..rowIndex] + d.rows[rowIndex + 1..])
      && (!(0 <= rowIndex < |d.rows|) ==> r == d)
      && (|d.rows| >= 1 ==> |r.rows| >= 1)
  {
  }

  /** A rectangular grid stays rectangular when a row is deleted. */
  lemma {:induction false} RowDeletedRectangular(d: TableData, rowIndex: int)
    requires Rectangular(d)
    ensures Rectangular(RowDeleted(d, rowIndex))
  {
    RowDeletedEffect(d, rowIndex);
  }

  /** `deleteColumn`: keeps a first row of at most one cell; otherwise filters the cell at
      `colIndex` out of every row. With no rows at all the guard does not hold (`undefined
      <= 1` is false), and mapping over no rows changes nothing. */
  function ColumnDeleted(d: TableData, colIndex: int): TableData {
    if |d.rows| > 0 && |d.rows[0]| <= 1 then d
    else TableData(Map(d.rows, (row: seq<Cell>) => FilterIndex(row, colIndex)))
  }

  /** With a first row of at most one cell nothing changes; otherwise every row loses its
      cell at `colIndex` when it has one and is untouched when it has not; the row count
      never changes and a first row of two or more cells keeps at least one. */
  lemma {:induction false} ColumnDeletedEffect(d: TableData, colIndex: int)
    ensures var r := ColumnDeleted(d, colIndex);
      |r.rows| == |d.rows|
      && (|d.rows| > 0 && |d.rows[0]| <= 1 ==> r == d)
      && (ColumnCount(d) > 1 ==> forall i :: 0 <= i < |d.rows| ==>
            r.rows[i] == if 0 <= colIndex < |d.rows[i]| then d.rows[i][..colIndex] + d.rows[i][colIndex + 1..] else d.rows[i])
      && (ColumnCount(d) >= 1 ==> ColumnCount(r) >= 1)
  {
  }

  /** A rectangular grid stays rectangular when a column is deleted. */
  lemma {:induction false} ColumnDeletedRectangular(d: TableData, colIndex: int)
    requires Rectangular(d)
    ensures Rectangular(ColumnDeleted(d, colIndex))
  {
    ColumnDeletedEffect(d, colIndex);
  }

  // ---------------------------------------------------------------------------
  // Serialising: `toMarkdown`

  /** A cell as the serialiser writes it: its content with one space on each side. */
  function Padded(c: Cell): string {
    " " + c.content + " "
  }

  /** `|${row.map(cell => ` ${cell.content} `).join('|')}|`. */
  function RowLine(row: seq<Cell>): string {
    "|" + Join(Map(row, Padded), "|") + "|"
  }

  /** `|${Array(colCount).fill(' --- ').join('|')}|`. */
  function SeparatorLine(colCount: nat): string {
    "|" + Join(seq(colCount, _ => " --- "), "|") + "|"
  }

  /** Each line followed by a newline. */
  function Unlines(ls: seq<string>): string {
    if ls == [] then "" else ls[0] + "\n" + Unlines(ls[1..])
  }

  lemma {:induction false} UnlinesSnoc(ls: seq<string>, l: string)
    ensures Unlines(ls + [l]) == Unlines(ls) + l + "\n"
  {
    if ls == [] {
      assert [l][1..] == [];
    } else {
      assert (ls + [l])[1..] == ls[1..] + [l];
      UnlinesSnoc(ls[1..], l);
    }
  }

  lemma {:induction false} UnlinesJoin(ls: seq<string>)
    requires ls != []
    ensures Unlines(ls) == Join(ls, "\n") + "\n"
  {
    if |ls| > 1 {
      UnlinesJoin(ls[1..]);
    }
  }

  /** The lines of the table: the first row, the separator as wide as the first row, then
      every other row. */
  function MarkdownLines(rows: seq<seq<Cell>>): (ls: seq<string>)
    requires |rows| >= 1
    ensures |ls| == |rows| + 1
  {
    [RowLine(rows[0]), SeparatorLine(|rows[0]|)] + Map(rows[1..], RowLine)
  }

  /** What `toMarkdown` yields: nothing for no rows; otherwise a blank line, the table
      lines, and a blank line. */
  function Markdown(d: TableData): string {
    if |d.rows| == 0 then "" else "\n" + Unlines(MarkdownLines(d.rows)) + "\n"
  }

  /** `toMarkdown`: a `forEach` over the rows appending each row line, and the separator
      line right after the first. */
  method ToMarkdown(d: TableData) returns (markdown: string)
    ensures markdown == Markdown(d)
  {
    if |d.rows| == 0 {
      return "";
    }
    markdown := "\n";
    var colCount := |d.rows[0]|;
    var rowIndex := 0;
    while rowIndex < |d.rows|
      invariant 0 <= rowIndex <= |d.rows|
      invariant rowIndex == 0 ==> markdown == "\n"
      invariant rowIndex > 0 ==> markdown == "\n" + Unlines(MarkdownLines(d.rows[..rowIndex]))
    {
      var row := d.rows[rowIndex];
      markdown := markdown + RowLine(row) + "\n";
      if rowIndex == 0 {
        markdown := markdown + SeparatorLine(colCount) + "\n";
        MarkdownFirst(d.rows);
      } else {
        MarkdownSnoc(d.rows, rowIndex);
      }
      rowIndex := rowIndex + 1;
    }
    assert d.rows[..rowIndex] == d.rows;
    markdown := markdown + "\n";
  }

  /** The first row's line and the separator are the lines of the first row alone. */
  lemma {:induction false} MarkdownFirst(rows: seq<seq<Cell>>)
    requires |rows| >= 1
    ensures "\n" + Unlines(MarkdownLines(rows[..1])) == "\n" + RowLine(rows[0]) + "\n" + SeparatorLine(|rows[0]|) + "\n"
  {
    var first := [RowLine(rows[0]), SeparatorLine(|rows[0]|)];
    assert rows[..1][1..] == [];
    assert MarkdownLines(rows[..1]) == first;
    assert Unlines(first) == RowLine(rows[0]) + "\n" + (SeparatorLine(|rows[0]|) + "\n" + Unlines([]));
  }

  /** Every later row appends its own line. */
  lemma {:induction false} MarkdownSnoc(rows: seq<seq<Cell>>, n: nat)
    requires 1 <= n < |rows|
    ensures "\n" + Unlines(MarkdownLines(rows[..n + 1])) == "\n" + Unlines(MarkdownLines(rows[..n])) + RowLine(rows[n]) + "\n"
  {
    var before := rows[..n];
    var after := rows[..n + 1];
    assert after == before + [rows[n]];
    assert after[1..] == before[1..] + [rows[n]];
    MapSnoc(before[1..], rows[n], RowLine);
    assert MarkdownLines(after) == MarkdownLines(before) + [RowLine(rows[n])];
    UnlinesSnoc(MarkdownLines(before), RowLine(rows[n]));
  }

  /** No rows serialise to the empty string; otherwise the output is a blank line, the
      table lines joined by newlines, a newline and a blank line. */
  lemma {:induction false} MarkdownShape(d: TableData)
    ensures |d.rows| == 0 ==> Markdown(d) == ""
    ensures |d.rows| > 0 ==> Markdown(d) == "\n" + Join(MarkdownLines(d.rows), "\n") + "\n\n"
  {
    if |d.rows| > 0 {
      UnlinesJoin(MarkdownLines(d.rows));
    }
  }

  // ---------------------------------------------------------------------------
  // Parsing: `parseMarkdownTable`

  /** `lines.filter(line => line.trim())`: the lines that are not all white space. */
  function NonBlank(ls: seq<string>): (r: seq<string>)
    ensures |r| <= |ls|
    ensures forall l <- r :: l in ls && Trim(l) != ""
  {
    if ls == [] then [] else (if Trim(ls[0]) != "" then [ls[0]] else []) + NonBlank(ls[1..])
  }

  /** `.replace(/^\|/, '').replace(/\|$/, '')`: at most one `|` off each end. */
  function StripPipes(s: string): string {
    var a := if |s| > 0 && s[0] == '|' then s[1..] else s;
    if |a| > 0 && a[|a| - 1] == '|' then a[..|a| - 1] else a
  }

  /** A parsed cell: the piece trimmed, a header exactly on the first line, no alignment. */
  function ParsedCell(piece: string, header: bool): Cell {
    Cell(Trim(piece), header, None)
  }

  /** The cells of the line at `index`. */
  function ParseLine(line: string, index: nat): (cells: seq<Cell>)
    ensures |cells| >= 1
  {
    var pieces := Split(StripPipes(Trim(line)), '|');
    seq(|pieces|, j requires 0 <= j < |pieces| => ParsedCell(pieces[j], index == 0))
  }

  /** The delimiter row is skipped: the second line, when it contains `---`. */
  predicate SkipsDelimiter(ls: seq<string>) {
    |ls| >= 2 && Contains(ls[1], "---")
  }

  /** What the `forEach` pushes for the lines from `index` on: each line turned into an
      entry by `parse`, except the second line when `skipSecond` holds. */
  function PushedFrom<T>(ls: seq<string>, index: nat, skipSecond: bool, parse: (string, nat) -> T): seq<T>
    requires index <= |ls|
    decreases |ls| - index
  {
    if index == |ls| then []
    else (if index == 1 && skipSecond then [] else [parse(ls[index], index)]) + PushedFrom(ls, index + 1, skipSecond, parse)
  }

  /** The rows the `forEach` pushes for the lines from `index` on. */
  function RowsFrom(ls: seq<string>, index: nat): seq<seq<Cell>>
    requires index <= |ls|
  {
    PushedFrom(ls, index, SkipsDelimiter(ls), ParseLine)
  }

  /** The non-blank lines of the trimmed input. */
  function Lines(markdown: string): seq<string> {
    NonBlank(Split(Trim(markdown), '\n'))
  }

  /** What `parseMarkdownTable` yields: `null` for fewer than two non-blank lines, else
      the rows of every line but a skipped delimiter row. */
  function ParsedTable(markdown: string): Option<TableData> {
    var ls := Lines(markdown);
    if |ls| < 2 then None else Some(TableData(RowsFrom(ls, 0)))
  }

  /** `parseMarkdownTable`: the line filter, then the `forEach` over the lines. */
  method ParseMarkdownTable(markdown: string) returns (r: Option<TableData>)
    ensures r == ParsedTable(markdown)
  {
    var lines := NonBlank(Split(Trim(markdown), '\n'));
    if |lines| < 2 {
      return None;
    }
    var rows := PushRows(lines, ParseLine);
    r := Some(TableData(rows));
  }

  /** The `forEach` of `parseMarkdownTable`, with the callback's cell parsing as `parse`:
      pushes the entry of every line except a delimiter row in second place. */
  method PushRows<T>(lines: seq<string>, parse: (string, nat) -> T) returns (rows: seq<T>)
    ensures rows == PushedFrom(lines, 0, SkipsDelimiter(lines), parse)
  {
    rows := [];
    var index := 0;
    while index < |lines|
      invariant 0 <= index <= |lines|
      invariant rows + PushedFrom(lines, index, SkipsDelimiter(lines), parse) == PushedFrom(lines, 0, SkipsDelimiter(lines), parse)
    {
      ghost var prev := rows;
      if !(index == 1 && Contains(lines[index], "---")) {
        var cells := parse(lines[index], index);
        rows := rows + [cells];
      }
      PushedFromStep(lines, index, parse, prev, rows);
      index := index + 1;
    }
  }

  /** One turn of the `forEach` keeps what has been pushed a prefix of the whole. */
  lemma {:induction false} PushedFromStep<T>(ls: seq<string>, index: nat, parse: (string, nat) -> T, prev: seq<T>, next: seq<T>)
    requires index < |ls|
    requires prev + PushedFrom(ls, index, SkipsDelimiter(ls), parse) == PushedFrom(ls, 0, SkipsDelimiter(ls), parse)
    requires next == if index == 1 && Contains(ls[index], "---") then prev else prev + [parse(ls[index], index)]
    ensures next + PushedFrom(ls, index + 1, SkipsDelimiter(ls), parse) == PushedFrom(ls, 0, SkipsDelimiter(ls), parse)
  {
    var skip := SkipsDelimiter(ls);
    assert (index == 1 && Contains(ls[index], "---")) == (index == 1 && skip);
    PushedFromUnfold(ls, index, skip, parse, prev);
  }

  lemma {:induction false} PushedFromUnfold<T>(ls: seq<string>, index: nat, skip: bool, parse: (string, nat) -> T, acc: seq<T>)
    requires index < |ls|
    ensures acc + PushedFrom(ls, index, skip, parse)
      == (if index == 1 && skip then acc else acc + [parse(ls[index], index)]) + PushedFrom(ls, index + 1, skip, parse)
  {
  }

  /** From the third line on, every line gives exactly its own entry. */
  lemma {:induction false} PushedFromTail<T>(ls: seq<string>, index: nat, skip: bool, parse: (string, nat) -> T)
    requires 2 <= index <= |ls|
    ensures |PushedFrom(ls, index, skip, parse)| == |ls| - index
    ensures forall i :: 0 <= i < |ls| - index ==> PushedFrom(ls, index, skip, parse)[i] == parse(ls[index + i], index + i)
    decreases |ls| - index
  {
    if index < |ls| {
      PushedFromTail(ls, index + 1, skip, parse);
    }
  }

  /** The first line gives an entry, the second one unless it is skipped, then the rest. */
  lemma {:induction false} PushedFromStart<T>(ls: seq<string>, skip: bool, parse: (string, nat) -> T)
    requires |ls| >= 2
    ensures PushedFrom(ls, 0, skip, parse)
      == [parse(ls[0], 0)] + ((if skip then [] else [parse(ls[1], 1)]) + PushedFrom(ls, 2, skip, parse))
  {
    assert PushedFrom(ls, 1, skip, parse) == (if skip then [] else [parse(ls[1], 1)]) + PushedFrom(ls, 2, skip, parse);
  }

  /** One entry per line, less a skipped delimiter row. */
  lemma {:induction false} PushedFromLength<T>(ls: seq<string>, skip: bool, parse: (string, nat) -> T)
    requires |ls| >= 2
    ensures |PushedFrom(ls, 0, skip, parse)| == |ls| - (if skip then 1 else 0)
  {
    PushedFromStart(ls, skip, parse);
    PushedFromTail(ls, 2, skip, parse);
  }

  /** The line entry `i` comes from: past the first, one further on when the second line
      was skipped. */
  function Source(skip: bool, i: nat): nat {
    if i == 0 then 0 else if skip then i + 1 else i
  }

  /** The `i`-th entry is made from its source line. */
  lemma {:induction false} PushedFromAt<T>(ls: seq<string>, skip: bool, parse: (string, nat) -> T, i: nat)
    requires |ls| >= 2 && i < |ls| - (if skip then 1 else 0)
    ensures i < |PushedFrom(ls, 0, skip, parse)|
    ensures Source(skip, i) < |ls| && PushedFrom(ls, 0, skip, parse)[i] == parse(ls[Source(skip, i)], Source(skip, i))
  {
    assert PushedFrom(ls, 0, skip, parse) == [parse(ls[0], 0)] + PushedFrom(ls, 1, skip, parse);
    PushedFromLength(ls, skip, parse);
    if i > 0 {
      PushedFromAtSecond(ls, skip, parse, i - 1);
    }
  }

  /** Past the first line, the `k`-th entry comes from line `k + 1`, or `k + 2` when the
      second line was skipped. */
  lemma {:induction false} PushedFromAtSecond<T>(ls: seq<string>, skip: bool, parse: (string, nat) -> T, k: nat)
    requires |ls| >= 2 && k < |ls| - 1 - (if skip then 1 else 0)
    ensures var n := if skip then k + 2 else k + 1;
      k < |PushedFrom(ls, 1, skip, parse)| && n < |ls| && PushedFrom(ls, 1, skip, parse)[k] == parse(ls[n], n)
  {
    var second: seq<T> := if skip then [] else [parse(ls[1], 1)];
    var rest := PushedFrom(ls, 2, skip, parse);
    assert PushedFrom(ls, 1, skip, parse) == second + rest;
    PushedFromTail(ls, 2, skip, parse);
    if k >= |second| {
      assert (second + rest)[k] == rest[k - |second|];
    }
  }

  /** The line the `i`-th parsed row comes from. */
  function SourceLine(ls: seq<string>, i: nat): nat {
    Source(SkipsDelimiter(ls), i)
  }

  /** A parse succeeds exactly when there are two or more non-blank lines. Then every line
      gives one row, except a second line containing `---`, which gives none, and each
      row is the parse of its own line. */
  lemma {:induction false} ParsedTableShape(markdown: string)
    ensures var ls := Lines(markdown); var r := ParsedTable(markdown);
      (r.None? <==> |ls| < 2)
      && (r.Some? ==>
        |r.value.rows| == |ls| - (if SkipsDelimiter(ls) then 1 else 0)
        && forall i :: 0 <= i < |r.value.rows| ==>
             SourceLine(ls, i) < |ls| && r.value.rows[i] == ParseLine(ls[SourceLine(ls, i)], SourceLine(ls, i)))
  {
    var ls := Lines(markdown);
    if |ls| >= 2 {
      RowsFromLength(ls);
      forall i | 0 <= i < |RowsFrom(ls, 0)|
        ensures SourceLine(ls, i) < |ls| && RowsFrom(ls, 0)[i] == ParseLine(ls[SourceLine(ls, i)], SourceLine(ls, i))
      {
        RowsFromAt(ls, i);
      }
    }
  }

  /** In a parsed table the cells of the first row, and only those, are header cells,
      none is aligned and every content is trimmed. */
  lemma {:induction false} ParsedTableCells(markdown: string)
    requires ParsedTable(markdown).Some?
    ensures var rows := ParsedTable(markdown).value.rows;
      forall i, j :: 0 <= i < |rows| && 0 <= j < |rows[i]| ==>
        (rows[i][j].isHeader <==> i == 0) && rows[i][j].align == None && Trim(rows[i][j].content) == rows[i][j].content
  {
    var ls := Lines(markdown);
    var rows: seq<seq<Cell>> := RowsFrom(ls, 0);
    RowsFromLength(ls);
    forall i: int | 0 <= i < |rows|
      ensures forall j: int :: 0 <= j < |rows[i]| ==>
        (rows[i][j].isHeader <==> i == 0) && rows[i][j].align == None && Trim(rows[i][j].content) == rows[i][j].content
    {
      RowsFromAt(ls, i);
      ParseLineCells(ls[SourceLine(ls, i)], SourceLine(ls, i));
    }
  }

  lemma {:induction false} RowsFromLength(ls: seq<string>)
    requires |ls| >= 2
    ensures |RowsFrom(ls, 0)| == |ls| - (if SkipsDelimiter(ls) then 1 else 0)
  {
    PushedFromLength(ls, SkipsDelimiter(ls), ParseLine);
  }

  /** The `i`-th parsed row is the parse of its source line. */
  lemma {:induction false} RowsFromAt(ls: seq<string>, i: nat)
    requires |ls| >= 2 && i < |RowsFrom(ls, 0)|
    ensures SourceLine(ls, i) < |ls| && RowsFrom(ls, 0)[i] == ParseLine(ls[SourceLine(ls, i)], SourceLine(ls, i))
  {
    PushedFromLength(ls, SkipsDelimiter(ls), ParseLine);
    PushedFromAt(ls, SkipsDelimiter(ls), ParseLine, i);
  }

  /** Every parsed cell of the line at `index` is trimmed, unaligned, and a header cell
      exactly when `index` is 0. */
  lemma {:induction false} ParseLineCells(line: string, index: nat)
    ensures forall j :: 0 <= j < |ParseLine(line, index)| ==>
      var c := ParseLine(line, index)[j];
      (c.isHeader <==> index == 0) && c.align == None && Trim(c.content) == c.content
  {
    forall j | 0 <= j < |ParseLine(line, index)|
      ensures var c := ParseLine(line, index)[j];
        (c.isHeader <==> index == 0) && c.align == None && Trim(c.content) == c.content
    {
      ParseLineCell(line, index, j);
    }
  }

  lemma {:induction false} ParseLineCell(line: string, index: nat, j: nat)
    requires j < |ParseLine(line, index)|
    ensures var c := ParseLine(line, index)[j];
      (c.isHeader <==> index == 0) && c.align == None && Trim(c.content) == c.content
  {
    var pieces := Split(StripPipes(Trim(line)), '|');
    assert ParseLine(line, index)[j] == ParsedCell(pieces[j], index == 0);
    TrimIdempotent(pieces[j]);
  }

  // ---------------------------------------------------------------------------
  // Round trip

  /** The contents the serialiser can write and the parser read back: no `|`, no newline. */
  predicate Writable(d: TableData) {
    forall i, j :: 0 <= i < |d.rows| && 0 <= j < |d.rows[i]| ==>
      '|' !in d.rows[i][j].content && '\n' !in d.rows[i][j].content
  }

  lemma {:induction false} JoinFree(parts: seq<string>, sep: string, c: char)
    requires c !in sep
    requires forall i :: 0 <= i < |parts| ==> c !in parts[i]
    ensures c !in Join(parts, sep)
  {
    JoinNotIn(parts, sep, c);
  }

  /** A row line is trimmed already, sheds exactly its outer pipes, and splits back into
      the padded cells; so it parses to the row's cells with trimmed contents. */
  lemma {:induction false} ParseRowLine(row: seq<Cell>, index: nat)
    requires |row| >= 1
    requires forall j :: 0 <= j < |row| ==> '|' !in row[j].content
    ensures |ParseLine(RowLine(row), index)| == |row|
    ensures forall j :: 0 <= j < |row| ==> ParseLine(RowLine(row), index)[j] == Cell(Trim(row[j].content), index == 0, None)
  {
    var padded := Map(row, Padded);
    var inner := Join(padded, "|");
    var line := RowLine(row);
    assert line == "|" + inner + "|";
    assert Trim(line) == line by {
      assert line[0] == '|' && line[|line| - 1] == '|';
    }
    assert StripPipes(line) == inner by {
      assert line[1..] == inner + "|";
    }
    forall j | 0 <= j < |padded| ensures '|' !in padded[j] {
      assert padded[j] == " " + row[j].content + " ";
    }
    SplitJoin(padded, '|');
    forall j | 0 <= j < |row| ensures ParseLine(line, index)[j] == Cell(Trim(row[j].content), index == 0, None) {
      TrimPadded(row[j].content);
    }
  }

  lemma {:induction false} SeparatorHasDashes(n: nat)
    requires n >= 1
    ensures Contains(SeparatorLine(n), "---")
    ensures '\n' !in SeparatorLine(n)
    ensures SeparatorLine(n)[0] == '|'
  {
    var parts := seq(n, _ => " --- ");
    var s := SeparatorLine(n);
    JoinEnds(parts, "|");
    assert s[1..4] == " --" ;
    assert s[2..5] == "---";
    ContainsAt(s, 2, "---");
    JoinFree(parts, "|", '\n');
  }

  /** The lines of a serialised table, as the parser sees them. */
  lemma {:induction false} LinesOfMarkdown(d: TableData)
    requires |d.rows| >= 1 && Writable(d)
    requires forall i :: 0 <= i < |d.rows| ==> |d.rows[i]| >= 1
    ensures Lines(Markdown(d)) == MarkdownLines(d.rows)
  {
    var ls := MarkdownLines(d.rows);
    forall i | 0 <= i < |ls| ensures '\n' !in ls[i] && |ls[i]| > 0 && ls[i][0] == '|' && ls[i][|ls[i]| - 1] == '|' {
      MarkdownLineShape(d, i);
    }
    var j := Join(ls, "\n");
    JoinEnds(ls, "\n");
    MarkdownShape(d);
    assert Markdown(d) == "\n" + j + "\n\n";
    TrimSurrounded("\n", j, "\n\n");
    SplitJoin(ls, '\n');
    NonBlankKeeps(ls);
  }

  /** Every table line is a single line framed by pipes. */
  lemma {:induction false} MarkdownLineShape(d: TableData, i: nat)
    requires |d.rows| >= 1 && Writable(d)
    requires forall i :: 0 <= i < |d.rows| ==> |d.rows[i]| >= 1
    requires i < |d.rows| + 1
    ensures var l := MarkdownLines(d.rows)[i];
      '\n' !in l && |l| > 0 && l[0] == '|' && l[|l| - 1] == '|'
  {
    var ls := MarkdownLines(d.rows);
    if i == 1 {
      SeparatorHasDashes(|d.rows[0]|);
    } else {
      var row := if i == 0 then d.rows[0] else d.rows[i - 1];
      assert ls[i] == RowLine(row);
      var padded := Map(row, Padded);
      forall j | 0 <= j < |padded| ensures '\n' !in padded[j] {
        assert padded[j] == " " + row[j].content + " ";
      }
      JoinFree(padded, "|", '\n');
    }
  }

  /** A line beginning with a character that is not white space is not blank. */
  lemma {:induction false} NotBlank(l: string)
    requires |l| > 0 && !IsJsSpace(l[0])
    ensures Trim(l) != ""
  {
    assert !AllSpace(l);
  }

  /** Every line begins with a character that is not white space. */
  predicate StartNonSpace(ls: seq<string>) {
    forall i :: 0 <= i < |ls| ==> |ls[i]| > 0 && !IsJsSpace(ls[i][0])
  }

  lemma {:induction false} NonBlankKeeps(ls: seq<string>)
    requires StartNonSpace(ls)
    ensures NonBlank(ls) == ls
  {
    if ls != [] {
      StartNonSpaceTail(ls);
      NotBlank(ls[0]);
      NonBlankCons(ls);
      NonBlankKeeps(ls[1..]);
      ConsTail(ls);
    }
  }

  lemma {:induction false} StartNonSpaceTail(ls: seq<string>)
    requires ls != [] && StartNonSpace(ls)
    ensures |ls[0]| > 0 && !IsJsSpace(ls[0][0]) && StartNonSpace(ls[1..])
  {
    var rest := ls[1..];
    forall i | 0 <= i < |rest| ensures |rest[i]| > 0 && !IsJsSpace(rest[i][0]) {
      assert rest[i] == ls[i + 1];
    }
  }

  lemma {:induction false} ConsTail<T>(s: seq<T>)
    requires s != []
    ensures [s[0]] + s[1..] == s
  {
  }

  lemma {:induction false} NonBlankCons(ls: seq<string>)
    requires ls != [] && Trim(ls[0]) != ""
    ensures NonBlank(ls) == [ls[0]] + NonBlank(ls[1..])
  {
  }

  /** Parsing a serialised grid reads its table lines. */
  lemma {:induction false} ParsedMarkdown(d: TableData)
    requires |d.rows| >= 1 && Writable(d)
    requires forall i :: 0 <= i < |d.rows| ==> |d.rows[i]| >= 1
    ensures ParsedTable(Markdown(d)) == Some(TableData(RowsFrom(MarkdownLines(d.rows), 0)))
  {
    LinesOfMarkdown(d);
  }

  /** The table lines of a grid parse to its rows: the delimiter row is skipped and every
      row line gives the row's cells, trimmed, with the first row as the header. */
  lemma {:induction false} ReadBackRows(d: TableData)
    requires |d.rows| >= 1 && Writable(d)
    requires forall i :: 0 <= i < |d.rows| ==> |d.rows[i]| >= 1
    ensures var rows := RowsFrom(MarkdownLines(d.rows), 0);
      |rows| == |d.rows|
      && (forall i :: 0 <= i < |d.rows| ==> |rows[i]| == |d.rows[i]|)
      && (forall i, j :: 0 <= i < |d.rows| && 0 <= j < |d.rows[i]| ==>
            rows[i][j] == Cell(Trim(d.rows[i][j].content), i == 0, None))
  {
    var ls := MarkdownLines(d.rows);
    SeparatorHasDashes(|d.rows[0]|);
    RowsFromLength(ls);
    forall i | 0 <= i < |d.rows|
      ensures |RowsFrom(ls, 0)[i]| == |d.rows[i]|
      ensures forall j :: 0 <= j < |d.rows[i]| ==> RowsFrom(ls, 0)[i][j] == Cell(Trim(d.rows[i][j].content), i == 0, None)
    {
      ReadBackRow(d, i);
    }
  }

  lemma {:induction false} ReadBackRow(d: TableData, i: nat)
    requires |d.rows| >= 1 && Writable(d)
    requires forall i :: 0 <= i < |d.rows| ==> |d.rows[i]| >= 1
    requires i < |d.rows|
    ensures var rows := RowsFrom(MarkdownLines(d.rows), 0);
      i < |rows| && |rows[i]| == |d.rows[i]|
      && forall j :: 0 <= j < |d.rows[i]| ==> rows[i][j] == Cell(Trim(d.rows[i][j].content), i == 0, None)
  {
    var ls := MarkdownLines(d.rows);
    LineOfRow(d, i);
    RowsFromLength(ls);
    RowsFromAt(ls, i);
    ParseRowLine(d.rows[i], SourceLine(ls, i));
  }

  /** Row `i` of a grid is written on the line the parser reads row `i` from. */
  lemma {:induction false} LineOfRow(d: TableData, i: nat)
    requires |d.rows| >= 1 && |d.rows[0]| >= 1 && i < |d.rows|
    ensures var ls := MarkdownLines(d.rows);
      SkipsDelimiter(ls) && SourceLine(ls, i) < |ls| && ls[SourceLine(ls, i)] == RowLine(d.rows[i])
  {
    var ls := MarkdownLines(d.rows);
    SeparatorHasDashes(|d.rows[0]|);
    assert SkipsDelimiter(ls);
    if i > 0 {
      assert ls[i + 1] == Map(d.rows[1..], RowLine)[i - 1];
    }
  }

  /** Serialising then parsing a grid whose rows all have cells and whose contents hold
      no `|` and no newline gives the grid back in shape, each content trimmed, the first
      row as the only header row and no alignment. */
  lemma {:induction false} RoundTrip(d: TableData)
    requires |d.rows| >= 1 && Writable(d)
    requires forall i :: 0 <= i < |d.rows| ==> |d.rows[i]| >= 1
    ensures var r := ParsedTable(Markdown(d));
      r.Some? && |r.value.rows| == |d.rows|
      && (forall i :: 0 <= i < |d.rows| ==> |r.value.rows[i]| == |d.rows[i]|)
      && (forall i, j :: 0 <= i < |d.rows| && 0 <= j < |d.rows[i]| ==>
            r.value.rows[i][j] == Cell(Trim(d.rows[i][j].content), i == 0, None))
  {
    ParsedMarkdown(d);
    ReadBackRows(d);
  }

  /** A grid in the form the parser produces (trimmed contents, the first row as the only
      header row, no alignment) is given back exactly. */
  lemma {:induction false} RoundTripExact(d: TableData)
    requires |d.rows| >= 1 && Writable(d)
    requires forall i :: 0 <= i < |d.rows| ==> |d.rows[i]| >= 1
    requires forall i, j :: 0 <= i < |d.rows| && 0 <= j < |d.rows[i]| ==>
      d.rows[i][j] == Cell(Trim(d.rows[i][j].content), i == 0, None)
    ensures ParsedTable(Markdown(d)) == Some(d)
  {
    ParsedMarkdown(d);
    ReadBackExact(d);
  }

  lemma {:induction false} ReadBackExact(d: TableData)
    requires |d.rows| >= 1 && Writable(d)
    requires forall i :: 0 <= i < |d.rows| ==> |d.rows[i]| >= 1
    requires forall i, j :: 0 <= i < |d.rows| && 0 <= j < |d.rows[i]| ==>
      d.rows[i][j] == Cell(Trim(d.rows[i][j].content), i == 0, None)
    ensures RowsFrom(MarkdownLines(d.rows), 0) == d.rows
  {
    var rows := RowsFrom(MarkdownLines(d.rows), 0);
    RowsFromLength(MarkdownLines(d.rows));
    SeparatorHasDashes(|d.rows[0]|);
    forall i | 0 <= i < |d.rows| ensures rows[i] == d.rows[i] {
      ReadBackExactRow(d, i);
    }
  }

  lemma {:induction false} ReadBackExactRow(d: TableData, i: nat)
    requires |d.rows| >= 1 && Writable(d)
    requires forall i :: 0 <= i < |d.rows| ==> |d.rows[i]| >= 1
    requires forall i, j :: 0 <= i < |d.rows| && 0 <= j < |d.rows[i]| ==>
      d.rows[i][j] == Cell(Trim(d.rows[i][j].content), i == 0, None)
    requires i < |d.rows|
    ensures var rows := RowsFrom(MarkdownLines(d.rows), 0);
      i < |rows| && rows[i] == d.rows[i]
  {
    ReadBackRow(d, i);
    var rows := RowsFrom(MarkdownLines(d.rows), 0);
    assert forall j :: 0 <= j < |d.rows[i]| ==> rows[i][j] == d.rows[i][j];
  }

  // ---------------------------------------------------------------------------
  // The component's state

  /** A selected cell's position. */
  datatype Position = Position(row: int, col: int)

  /** The state of one editor: the grid, the selected cell and which row or column menu
      is open. */
  class Editor {
    var data: TableData
    var selectedCell: Option<Position>
    var showRowMenu: Option<int>
    var showColMenu: Option<int>

    /** The grid given, or the default 3×3 grid; nothing selected, no menu open. */
    constructor (initialData: Option<TableData>)
      ensures data == (if initialData.Some? then initialData.value else DefaultData())
      ensures selectedCell == None && showRowMenu == None && showColMenu == None
    {
      data := if initialData.Some? then initialData.value else DefaultData();
      selectedCell := None;
      showRowMenu := None;
      showColMenu := None;
    }

    /** What `onChange` is told after every change of the grid. */
    function Output(): string
      reads this
    {
      Markdown(data)
    }

    method UpdateCell(rowIndex: int, colIndex: int, content: string)
      modifies this
      ensures data == CellUpdated(old(data), rowIndex, colIndex, content)
      ensures selectedCell == old(selectedCell) && showRowMenu == old(showRowMenu) && showColMenu == old(showColMenu)
    {
      data := CellUpdated(data, rowIndex, colIndex, content);
    }

    /** Inserts a row and closes the row menu. */
    method InsertRow(rowIndex: int, side: RowSide)
      modifies this
      ensures data == RowInserted(old(data), rowIndex, side)
      ensures showRowMenu == None
      ensures selectedCell == old(selectedCell) && showColMenu == old(showColMenu)
    {
      data := RowInserted(data, rowIndex, side);
      showRowMenu := None;
    }

    /** Inserts a column and closes the column menu. */
    method InsertColumn(colIndex: int, side: ColSide)
      modifies this
      ensures data == ColumnInserted(old(data), colIndex, side)
      ensures showColMenu == None
      ensures selectedCell == old(selectedCell) && showRowMenu == old(showRowMenu)
    {
      data := ColumnInserted(data, colIndex, side);
      showColMenu := None;
    }

    /** Deletes a row (keeping the last one) and closes the row menu. */
    method DeleteRow(rowIndex: int)
      modifies this
      ensures data == RowDeleted(old(data), rowIndex)
      ensures |old(data.rows)| >= 1 ==> |data.rows| >= 1
      ensures showRowMenu == None
      ensures selectedCell == old(selectedCell) && showColMenu == old(showColMenu)
    {
      data := RowDeleted(data, rowIndex);
      showRowMenu := None;
    }

    /** Deletes a column (keeping the last one) and closes the column menu. */
    method DeleteColumn(colIndex: int)
      modifies this
      ensures data == ColumnDeleted(old(data), colIndex)
      ensures ColumnCount(old(data)) >= 1 ==> ColumnCount(data) >= 1
      ensures showColMenu == None
      ensures selectedCell == old(selectedCell) && showRowMenu == old(showRowMenu)
    {
      ColumnDeletedEffect(data, colIndex);
      data := ColumnDeleted(data, colIndex);
      showColMenu := None;
    }

    /** The corner button: a row above the first, then a column left of the first, each
        update applied to the grid the previous one left. */
    method CornerButton()
      modifies this
      ensures data == ColumnInserted(RowInserted(old(data), 0, Above), 0, Left)
      ensures showRowMenu == None && showColMenu == None && selectedCell == old(selectedCell)
    {
      InsertRow(0, Above);
      InsertColumn(0, Left);
    }

    /** A click on a cell selects it. */
    method SelectCell(row: int, col: int)
      modifies this
      ensures selectedCell == Some(Position(row, col))
      ensures data == old(data) && showRowMenu == old(showRowMenu) && showColMenu == old(showColMenu)
    {
      selectedCell := Some(Position(row, col));
    }

    /** A row's action button opens its menu. */
    method OpenRowMenu(rowIndex: int)
      modifies this
      ensures showRowMenu == Some(rowIndex)
      ensures data == old(data) && selectedCell == old(selectedCell) && showColMenu == old(showColMenu)
    {
      showRowMenu := Some(rowIndex);
    }

    /** A column's action button opens its menu. */
    method OpenColMenu(colIndex: int)
      modifies this
      ensures showColMenu == Some(colIndex)
      ensures data == old(data) && selectedCell == old(selectedCell) && showRowMenu == old(showRowMenu)
    {
      showColMenu := Some(colIndex);
    }

    /** A mouse press outside the editor closes both menus and clears the selection. */
    method ClickOutside()
      modifies this
      ensures showRowMenu == None && showColMenu == None && selectedCell == None
      ensures data == old(data)
    {
      showRowMenu := None;
      showColMenu := None;
      selectedCell := None;
    }
  }
}
