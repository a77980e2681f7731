/** The markdown table structure editor over an mdast tree (`root` → … → `table` →
    `tableRow` → `tableCell` → inline nodes). Tables are found in pre-order, read as
    header and data-row text, edited row- or column-wise, built from literal text,
    and put back into the tree by their ordinal position. */
module TableAst {
  import opened Wrappers
  import opened Strings
  import opened JsArrays

  /** The `type` of an mdast node, as far as this code tells node types apart. */
  datatype Kind = Root | Table | TableRow | TableCell | Text | Other(name: string)

  /** An mdast node: its type, its `value` (the literal text of a `text` node), and
      its children in document order (none for a leaf). */
  datatype Node = Node(kind: Kind, value: string, children: seq<Node>)

  // ---------------------------------------------------------------------------
  // Pre-order traversal

  /** Every node of the tree rooted at `n`, in pre-order depth-first order. */
  function Preorder(n: Node): (r: seq<Node>)
    ensures |r| >= 1 && r[0] == n
    decreases n, 1
  {
    [n] + PreorderList(n.children)
  }

  function PreorderList(ns: seq<Node>): seq<Node>
    decreases ns, 0
  {
    if ns == [] then [] else Preorder(ns[0]) + PreorderList(ns[1..])
  }

  lemma {:induction false} PreorderListAppend(a: seq<Node>, b: seq<Node>)
    ensures PreorderList(a + b) == PreorderList(a) + PreorderList(b)
  {
    if a == [] {
      assert a + b == b;
    } else {
      assert (a + b)[0] == a[0] && (a + b)[1..] == a[1..] + b;
      PreorderListAppend(a[1..], b);
    }
  }

  /** The table nodes of `s`, in the order of `s`. */
  function TablesIn(s: seq<Node>): (r: seq<Node>)
    ensures forall t <- r :: t.kind == Table
    ensures |r| <= |s|
  {
    if s == [] then [] else (if s[0].kind == Table then [s[0]] else []) + TablesIn(s[1..])
  }

  lemma {:induction false} TablesInAppend(a: seq<Node>, b: seq<Node>)
    ensures TablesIn(a + b) == TablesIn(a) + TablesIn(b)
  {
    if a == [] {
      assert a + b == b;
    } else {
      assert (a + b)[0] == a[0] && (a + b)[1..] == a[1..] + b;
      TablesInAppend(a[1..], b);
      var h := if a[0].kind == Table then [a[0]] else [];
      assert TablesIn(a + b) == h + TablesIn(a[1..] + b);
      assert h + (TablesIn(a[1..]) + TablesIn(b)) == (h + TablesIn(a[1..])) + TablesIn(b);
    }
  }

  /** The tables of a tree: exactly its nodes of type `table`, in pre-order. */
  function Tables(n: Node): seq<Node> {
    TablesIn(Preorder(n))
  }

  function TablesOfList(ns: seq<Node>): seq<Node> {
    TablesIn(PreorderList(ns))
  }

  lemma {:induction false} TablesOfNode(n: Node)
    ensures Tables(n) == (if n.kind == Table then [n] else []) + TablesOfList(n.children)
  {
    TablesInAppend([n], PreorderList(n.children));
  }

  lemma {:induction false} TablesOfCons(ns: seq<Node>)
    requires ns != []
    ensures TablesOfList(ns) == Tables(ns[0]) + TablesOfList(ns[1..])
  {
    TablesInAppend(Preorder(ns[0]), PreorderList(ns[1..]));
  }

  lemma {:induction false} PreorderListSnoc(ns: seq<Node>, i: nat)
    requires i < |ns|
    ensures PreorderList(ns[..i + 1]) == PreorderList(ns[..i]) + Preorder(ns[i])
  {
    assert ns[..i + 1] == ns[..i] + [ns[i]];
    PreorderListAppend(ns[..i], [ns[i]]);
    assert [ns[i]][1..] == [];
  }

  lemma {:induction false} TablesOfPrefix(ns: seq<Node>, i: nat)
    requires i < |ns|
    ensures TablesOfList(ns[..i + 1]) == TablesOfList(ns[..i]) + Tables(ns[i])
  {
    PreorderListSnoc(ns, i);
    TablesInAppend(PreorderList(ns[..i]), Preorder(ns[i]));
  }

  /** `findTables`: a traversal that pushes every table it meets before descending
      into the node's children, tables included. */
  method FindTables(ast: Node) returns (tables: seq<Node>)
    ensures tables == Tables(ast)
    ensures forall t <- tables :: t.kind == Table
  {
    tables := CollectTables(ast, []);
  }

  /** The inner `traverse` of `findTables`, with the accumulator made explicit. */
  method CollectTables(node: Node, acc: seq<Node>) returns (r: seq<Node>)
    ensures r == acc + Tables(node)
    decreases node
  {
    r := acc;
    if node.kind == Table {
      r := r + [node];
    }
    var i := 0;
    while i < |node.children|
      invariant 0 <= i <= |node.children|
      invariant r == acc + (if node.kind == Table then [node] else []) + TablesOfList(node.children[..i])
    {
      r := CollectTables(node.children[i], r);
      TablesOfPrefix(node.children, i);
      AppendBoth(acc + (if node.kind == Table then [node] else []), TablesOfList(node.children[..i]),
        Tables(node.children[i]), TablesOfList(node.children[..i + 1]));
      i := i + 1;
    }
    assert node.children[..i] == node.children;
    TablesOfNode(node);
    AppendBoth(acc, if node.kind == Table then [node] else [], TablesOfList(node.children), Tables(node));
  }

  // ---------------------------------------------------------------------------
  // Cell text

  /** The values of the `text` nodes of `s`, in the order of `s`; other kinds of
      node contribute nothing. */
  function TextValues(s: seq<Node>): (r: seq<string>)
    ensures |r| <= |s|
  {
    if s == [] then [] else (if s[0].kind == Text then [s[0].value] else []) + TextValues(s[1..])
  }

  lemma {:induction false} TextValuesAppend(a: seq<Node>, b: seq<Node>)
    ensures TextValues(a + b) == TextValues(a) + TextValues(b)
  {
    if a == [] {
      assert a + b == b;
    } else {
      assert (a + b)[0] == a[0] && (a + b)[1..] == a[1..] + b;
      TextValuesAppend(a[1..], b);
      var h := if a[0].kind == Text then [a[0].value] else [];
      assert TextValues(a + b) == h + TextValues(a[1..] + b);
      assert h + (TextValues(a[1..]) + TextValues(b)) == (h + TextValues(a[1..])) + TextValues(b);
    }
  }

  lemma {:induction false} TextValuesOfNode(n: Node)
    ensures TextValues(Preorder(n)) == (if n.kind == Text then [n.value] else []) + TextValues(PreorderList(n.children))
  {
    TextValuesAppend([n], PreorderList(n.children));
    assert [n][1..] == [];
  }

  /** Appending the pieces `a` and `b` one after the other appends their concatenation. */
  lemma {:induction false} AppendBoth<T>(p: seq<T>, a: seq<T>, b: seq<T>, c: seq<T>)
    requires c == a + b
    ensures (p + a) + b == p + c
  {
  }

  /** What `getCellText` yields: the concatenated values of every `text` node below
      the cell, in pre-order, trimmed. */
  function CellText(cell: Node): string {
    Trim(Join(TextValues(PreorderList(cell.children)), ""))
  }

  /** `getCellText`: `extractText` pushes the value of each `text` node it meets into
      `texts`, then the pieces are joined and trimmed. */
  method GetCellText(cell: Node) returns (text: string)
    ensures text == CellText(cell)
  {
    var texts: seq<string> := [];
    var i := 0;
    while i < |cell.children|
      invariant 0 <= i <= |cell.children|
      invariant texts == TextValues(PreorderList(cell.children[..i]))
    {
      texts := ExtractText(cell.children[i], texts);
      PreorderListSnoc(cell.children, i);
      TextValuesAppend(PreorderList(cell.children[..i]), Preorder(cell.children[i]));
      i := i + 1;
    }
    assert cell.children[..i] == cell.children;
    text := Trim(Join(texts, ""));
  }

  /** The inner `extractText` of `getCellText`, with the accumulator made explicit. */
  method ExtractText(node: Node, acc: seq<string>) returns (r: seq<string>)
    ensures r == acc + TextValues(Preorder(node))
    decreases node
  {
    r := acc;
    if node.kind == Text {
      r := r + [node.value];
    }
    var i := 0;
    while i < |node.children|
      invariant 0 <= i <= |node.children|
      invariant r == acc + (if node.kind == Text then [node.value] else []) + TextValues(PreorderList(node.children[..i]))
    {
      r := ExtractText(node.children[i], r);
      PreorderListSnoc(node.children, i);
      TextValuesAppend(PreorderList(node.children[..i]), Preorder(node.children[i]));
      AppendBoth(acc + (if node.kind == Text then [node.value] else []), TextValues(PreorderList(node.children[..i])),
        TextValues(Preorder(node.children[i])), TextValues(PreorderList(node.children[..i + 1])));
      i := i + 1;
    }
    assert node.children[..i] == node.children;
    TextValuesOfNode(node);
    AppendBoth(acc, if node.kind == Text then [node.value] else [], TextValues(PreorderList(node.children)), TextValues(Preorder(node)));
  }

  /** The text of every cell of a row, in order. */
  function RowTexts(row: Node): (r: seq<string>)
    ensures |r| == |row.children|
  {
    Map(row.children, CellText)
  }

  /** `getTableHeaders`: the text of each cell of the first row; `[]` for a table with no rows. */
  function GetTableHeaders(table: Node): (h: seq<string>)
    ensures |h| == if |table.children| == 0 then 0 else |table.children[0].children|
  {
    if |table.children| == 0 then [] else RowTexts(table.children[0])
  }

  /** `getTableRows`: the text of every row after the first, row by row. */
  function GetTableRows(table: Node): (rows: seq<seq<string>>)
    ensures |rows| == if |table.children| <= 1 then 0 else |table.children| - 1
    ensures forall i :: 0 <= i < |rows| ==> |rows[i]| == |table.children[i + 1].children|
  {
    if |table.children| <= 1 then [] else Map(table.children[1..], RowTexts)
  }

  // ---------------------------------------------------------------------------
  // Building cells, rows and tables

  /** `createCell`: a cell holding one `text` node, or no child at all for `''`. */
  function CreateCell(text: string): (c: Node)
    ensures c.kind == TableCell
    ensures c.children == [] <==> text == ""
  {
    Node(TableCell, "", if text != "" then [Node(Text, text, [])] else [])
  }

  /** `createRow`: one created cell per string, in order. */
  function CreateRow(cells: seq<string>): (r: Node)
    ensures r.kind == TableRow && |r.children| == |cells|
  {
    Node(TableRow, "", Map(cells, CreateCell))
  }

  /** `trim` applied to every entry. */
  function TrimAll(ss: seq<string>): (r: seq<string>)
    ensures |r| == |ss|
  {
    Map(ss, Trim)
  }

  /** A created cell reads back as its text, trimmed. */
  lemma {:induction false} CellTextOfCreateCell(text: string)
    ensures CellText(CreateCell(text)) == Trim(text)
  {
    var c := CreateCell(text);
    if text == "" {
      assert PreorderList(c.children) == [];
    } else {
      var t := Node(Text, text, []);
      assert c.children == [t];
      assert PreorderList([t]) == Preorder(t) + PreorderList([]);
      assert Preorder(t) == [t] + PreorderList([]);
      assert TextValues([t]) == [text] + TextValues([]);
    }
  }

  /** A created row reads back as its texts, each trimmed. */
  lemma {:induction false} RowTextsOfCreateRow(cells: seq<string>)
    ensures RowTexts(CreateRow(cells)) == TrimAll(cells)
  {
    forall j | 0 <= j < |cells| ensures RowTexts(CreateRow(cells))[j] == TrimAll(cells)[j] {
      CellTextOfCreateCell(cells[j]);
    }
  }

  /** `createTable`: the header row followed by one row per data row. */
  function CreateTable(headers: seq<string>, rows: seq<seq<string>>): (t: Node)
    ensures t.kind == Table && |t.children| == |rows| + 1
  {
    Node(Table, "", [CreateRow(headers)] + Map(rows, CreateRow))
  }

  /** Reading back a created table gives its headers and rows, every entry trimmed. */
  lemma {:induction false} CreateTableReadBack(headers: seq<string>, rows: seq<seq<string>>)
    ensures GetTableHeaders(CreateTable(headers, rows)) == TrimAll(headers)
    ensures GetTableRows(CreateTable(headers, rows)) == Map(rows, TrimAll)
  {
    var t := CreateTable(headers, rows);
    RowTextsOfCreateRow(headers);
    forall i | 0 <= i < |rows| ensures GetTableRows(t)[i] == TrimAll(rows[i]) {
      assert t.children[1..][i] == CreateRow(rows[i]);
      RowTextsOfCreateRow(rows[i]);
    }
  }

  // ---------------------------------------------------------------------------
  // Row edits

  /** The row `insertRow` creates: the given cells, or as many empty cells as the
      header has when `cells` is omitted. */
  function NewRow(table: Node, cells: Option<seq<string>>): (r: Node)
    ensures r.kind == TableRow
    ensures cells.None? ==> |r.children| == |GetTableHeaders(table)|
  {
    CreateRow(if cells.Some? then cells.value else seq(|GetTableHeaders(table)|, _ => ""))
  }

  /** `insertRow(table, rowIndex, cells)`: splices the new row in at `rowIndex + 1`,
      `rowIndex` counting data rows only. */
  function InsertRow(table: Node, rowIndex: int, cells: Option<seq<string>>): (r: Node)
    ensures r.kind == table.kind && r.value == table.value
    ensures |r.children| == |table.children| + 1
  {
    table.(children := InsertAt(table.children, rowIndex + 1, NewRow(table, cells)))
  }

  /** With a header row and `0 <= rowIndex <=` the number of data rows, the new row
      lands at `children[rowIndex + 1]` and every other row keeps its place in order. */
  lemma {:induction false} InsertRowPlacement(table: Node, rowIndex: int, cells: Option<seq<string>>)
    requires 0 <= rowIndex < |table.children|
    ensures var r := InsertRow(table, rowIndex, cells);
      r.children[rowIndex + 1] == NewRow(table, cells)
      && r.children[..rowIndex + 1] == table.children[..rowIndex + 1]
      && r.children[rowIndex + 2..] == table.children[rowIndex + 1..]
  {
  }

  /** Read back, `insertRow` keeps the header and puts the new row's text among the data
      rows at `rowIndex`: the given cells trimmed, or all-empty cells as wide as the header. */
  lemma {:induction false} InsertRowReadBack(table: Node, rowIndex: int, cells: Option<seq<string>>)
    requires 0 <= rowIndex < |table.children|
    ensures var r := InsertRow(table, rowIndex, cells);
      var rows := GetTableRows(table);
      GetTableHeaders(r) == GetTableHeaders(table)
      && GetTableRows(r) == InsertAt(rows, rowIndex, RowTexts(NewRow(table, cells)))
    ensures RowTexts(NewRow(table, cells)) ==
      if cells.Some? then TrimAll(cells.value) else seq(|GetTableHeaders(table)|, _ => "")
  {
    RowSplicedTexts(table, rowIndex, NewRow(table, cells));
    if cells.Some? {
      RowTextsOfCreateRow(cells.value);
    } else {
      var blanks := seq(|GetTableHeaders(table)|, _ => "");
      RowTextsOfCreateRow(blanks);
      assert TrimAll(blanks) == blanks;
    }
  }

  /** Splicing a row in after the header keeps the header and splices its text into
      the data rows. */
  lemma {:induction false} RowSplicedTexts(table: Node, rowIndex: int, newRow: Node)
    requires 0 <= rowIndex < |table.children|
    ensures var r := table.(children := InsertAt(table.children, rowIndex + 1, newRow));
      GetTableHeaders(r) == GetTableHeaders(table)
      && GetTableRows(r) == InsertAt(GetTableRows(table), rowIndex, RowTexts(newRow))
  {
    InsertAtTail(table.children, rowIndex, newRow);
    MapInsertAt(table.children[1..], rowIndex, newRow, RowTexts);
  }

  /** `deleteRow(table, rowIndex)`: removes `children[rowIndex + 1]` when it exists. */
  function DeleteRow(table: Node, rowIndex: int): (r: Node)
    ensures r.kind == table.kind && r.value == table.value
  {
    var d := rowIndex + 1;
    if d < |table.children| then table.(children := RemoveAt(table.children, d)) else table
  }

  /** For `rowIndex >= 0`, `deleteRow` removes exactly data row `rowIndex` when there is
      one and otherwise changes nothing; the header row is never removed. */
  lemma {:induction false} DeleteRowEffect(table: Node, rowIndex: int)
    requires rowIndex >= 0
    ensures var r := DeleteRow(table, rowIndex);
      if rowIndex + 1 < |table.children| then
        r.children == table.children[..rowIndex + 1] + table.children[rowIndex + 2..]
        && r.children[0] == table.children[0]
        && GetTableHeaders(r) == GetTableHeaders(table)
        && GetTableRows(r) == GetTableRows(table)[..rowIndex] + GetTableRows(table)[rowIndex + 1..]
      else r == table
  {
    var r := DeleteRow(table, rowIndex);
    if rowIndex + 1 < |table.children| {
      var rows := GetTableRows(table);
      var expected := rows[..rowIndex] + rows[rowIndex + 1..];
      assert |GetTableRows(r)| == |expected|;
      forall i | 0 <= i < |expected| ensures GetTableRows(r)[i] == expected[i] {
        if i < rowIndex {
          assert r.children[i + 1] == table.children[i + 1];
        } else {
          assert r.children[i + 1] == table.children[i + 2];
        }
      }
    }
  }

  // ---------------------------------------------------------------------------
  // Column edits

  /** The header text `insertColumn` uses: the given text unless it is absent or
      empty, else the generated label `列 {colIndex + 1}`. */
  function HeaderLabel(colIndex: int, headerText: Option<string>): (name: string)
    ensures name != ""
    ensures headerText.Some? && headerText.value != "" ==> name == headerText.value
  {
    if headerText.Some? && headerText.value != "" then headerText.value
    else "列 " + IntToString(colIndex + 1)
  }

  /** The table `insertColumn` leaves: the header row gains a cell with the label at
      `colIndex`, every other row an empty cell there (both by `splice`). */
  function ColumnInserted(table: Node, colIndex: int, headerText: Option<string>): Node {
    if |table.children| == 0 then table
    else table.(children := [WithCell(table.children[0], colIndex, CreateCell(HeaderLabel(colIndex, headerText)))]
      + Map(table.children[1..], (row: Node) => WithCell(row, colIndex, CreateCell(""))))
  }

  /** Row `k` of `insertColumn`'s result: the header row gains the label cell, every
      other row an empty cell. */
  lemma {:induction false} ColumnInsertedRow(table: Node, colIndex: int, headerText: Option<string>, k: nat)
    requires k < |table.children|
    ensures var r := ColumnInserted(table, colIndex, headerText);
      |r.children| == |table.children|
      && r.children[k] == WithCell(table.children[k], colIndex,
           if k == 0 then CreateCell(HeaderLabel(colIndex, headerText)) else CreateCell(""))
  {
    var r := ColumnInserted(table, colIndex, headerText);
    var data := Map(table.children[1..], (row: Node) => WithCell(row, colIndex, CreateCell("")));
    assert r.children == [WithCell(table.children[0], colIndex, CreateCell(HeaderLabel(colIndex, headerText)))] + data;
    if k > 0 {
      assert r.children[k] == data[k - 1];
      assert table.children[1..][k - 1] == table.children[k];
    }
  }

  /** A row with `cell` spliced into its cells at `at`. */
  function WithCell(row: Node, at: int, cell: Node): (r: Node)
    ensures r.kind == row.kind && r.value == row.value
  {
    row.(children := InsertAt(row.children, at, cell))
  }

  /** `insertColumn(table, colIndex, headerText)`: the header cell first, then a `for`
      loop over the data rows. */
  method InsertColumn(table: Node, colIndex: int, headerText: Option<string>) returns (r: Node)
    ensures r == ColumnInserted(table, colIndex, headerText)
  {
    ghost var spec := ColumnInserted(table, colIndex, headerText);
    var rows := table.children;
    if |rows| > 0 {
      var headerRow := rows[0];
      var newHeaderCell := CreateCell(HeaderLabel(colIndex, headerText));
      rows := rows[0 := headerRow.(children := InsertAt(headerRow.children, colIndex, newHeaderCell))];
      var i := 1;
      while i < |rows|
        invariant 1 <= i <= |rows| == |table.children|
        invariant forall j :: 0 <= j < i ==> rows[j] == spec.children[j]
        invariant forall j :: i <= j < |rows| ==> rows[j] == table.children[j]
      {
        var row := rows[i];
        var newCell := CreateCell("");
        ColumnInsertedRow(table, colIndex, headerText, i);
        rows := rows[i := row.(children := InsertAt(row.children, colIndex, newCell))];
        i := i + 1;
      }
    }
    r := table.(children := rows);
  }

  /** `insertColumn` keeps the row count; for a position inside a row, the row gains its
      new cell exactly there (the label in the header row, an empty cell elsewhere) and its
      other cells keep their order. */
  lemma {:induction false} InsertColumnShape(table: Node, colIndex: int, headerText: Option<string>, i: nat)
    requires i < |table.children| && 0 <= colIndex <= |table.children[i].children|
    ensures var r := ColumnInserted(table, colIndex, headerText);
      var old_cells := table.children[i].children;
      |r.children| == |table.children|
      && r.children[i].children[colIndex] == (if i == 0 then CreateCell(HeaderLabel(colIndex, headerText)) else CreateCell(""))
      && r.children[i].children[..colIndex] == old_cells[..colIndex]
      && r.children[i].children[colIndex + 1..] == old_cells[colIndex..]
  {
    var r := ColumnInserted(table, colIndex, headerText);
    var cell := if i == 0 then CreateCell(HeaderLabel(colIndex, headerText)) else CreateCell("");
    ColumnInsertedRow(table, colIndex, headerText, i);
    InsertAtParts(table.children[i].children, colIndex, cell);
  }

  /** What a row's texts become when a cell is spliced in. */
  lemma {:induction false} RowTextsInsertAt(row: Node, at: int, cell: Node)
    ensures RowTexts(row.(children := InsertAt(row.children, at, cell))) == InsertAt(RowTexts(row), at, CellText(cell))
  {
    MapInsertAt(row.children, at, cell, CellText);
  }

  /** The data rows of `insertColumn`'s result read back as the old data rows, each with
      an empty text spliced in at `colIndex`. */
  lemma {:induction false} InsertColumnDataRows(table: Node, colIndex: int, headerText: Option<string>, i: nat)
    requires i < |GetTableRows(table)|
    ensures var r := ColumnInserted(table, colIndex, headerText);
      i < |GetTableRows(r)| && GetTableRows(r)[i] == InsertAt(GetTableRows(table)[i], colIndex, "")
  {
    var r := ColumnInserted(table, colIndex, headerText);
    var row := table.children[i + 1];
    ColumnInsertedRow(table, colIndex, headerText, i + 1);
    assert GetTableRows(r)[i] == RowTexts(r.children[i + 1]) by {
      assert r.children[1..][i] == r.children[i + 1];
    }
    assert GetTableRows(table)[i] == RowTexts(row) by {
      assert table.children[1..][i] == row;
    }
    RowTextsInsertAt(row, colIndex, CreateCell(""));
    CellTextOfCreateCell("");
  }

  /** Read back, `insertColumn` puts the trimmed label into the headers and an empty text
      into every data row, at the same `splice` position, and keeps the number of rows. */
  lemma {:induction false} InsertColumnReadBack(table: Node, colIndex: int, headerText: Option<string>)
    ensures var r := ColumnInserted(table, colIndex, headerText);
      var rows := GetTableRows(table);
      (|table.children| > 0 ==>
        GetTableHeaders(r) == InsertAt(GetTableHeaders(table), colIndex, Trim(HeaderLabel(colIndex, headerText))))
      && |GetTableRows(r)| == |rows|
      && forall i :: 0 <= i < |rows| ==> GetTableRows(r)[i] == InsertAt(rows[i], colIndex, "")
  {
    var r := ColumnInserted(table, colIndex, headerText);
    if |table.children| > 0 {
      RowTextsInsertAt(table.children[0], colIndex, CreateCell(HeaderLabel(colIndex, headerText)));
      CellTextOfCreateCell(HeaderLabel(colIndex, headerText));
    }
    forall i | 0 <= i < |GetTableRows(table)|
      ensures GetTableRows(r)[i] == InsertAt(GetTableRows(table)[i], colIndex, "")
    {
      InsertColumnDataRows(table, colIndex, headerText, i);
    }
  }

  /** `table.children[0]?.children.length || 0`. */
  function HeaderWidth(table: Node): nat {
    if |table.children| == 0 then 0 else |table.children[0].children|
  }

  /** The cells of a row after the `deleteColumn` loop body: `splice(colIndex, 1)` when
      `colIndex < row.children.length`. */
  function CellsWithoutColumn(cells: seq<Node>, colIndex: int): seq<Node> {
    if colIndex < |cells| then RemoveAt(cells, colIndex) else cells
  }

  /** The table `deleteColumn` leaves: unchanged when the header has at most one cell,
      else every row without its cell at `colIndex`. */
  function ColumnDeleted(table: Node, colIndex: int): Node {
    if HeaderWidth(table) <= 1 then table
    else table.(children := Map(table.children, (row: Node) => row.(children := CellsWithoutColumn(row.children, colIndex))))
  }

  /** `deleteColumn(table, colIndex)`: the width guard, then a loop over every row. */
  method DeleteColumn(table: Node, colIndex: int) returns (r: Node)
    ensures r == ColumnDeleted(table, colIndex)
  {
    var colCount := if |table.children| > 0 then |table.children[0].children| else 0;
    if colCount <= 1 {
      return table;
    }
    ghost var spec := ColumnDeleted(table, colIndex);
    var rows := table.children;
    var i := 0;
    while i < |rows|
      invariant 0 <= i <= |rows| == |table.children|
      invariant forall j :: 0 <= j < i ==> rows[j] == spec.children[j]
      invariant forall j :: i <= j < |rows| ==> rows[j] == table.children[j]
    {
      var row := rows[i];
      if colIndex < |row.children| {
        rows := rows[i := row.(children := RemoveAt(row.children, colIndex))];
      }
      i := i + 1;
    }
    r := table.(children := rows);
  }

  /** For `colIndex >= 0`: with at most one header cell nothing changes; otherwise the row
      count stays, every row with more than `colIndex` cells loses exactly that cell, and
      shorter rows are untouched. */
  lemma {:induction false} DeleteColumnEffect(table: Node, colIndex: int)
    requires colIndex >= 0
    ensures var r := ColumnDeleted(table, colIndex);
      (HeaderWidth(table) <= 1 ==> r == table)
      && |r.children| == |table.children|
      && (HeaderWidth(table) > 1 ==> forall i :: 0 <= i < |table.children| ==>
            var cells := table.children[i].children;
            r.children[i].children == if colIndex < |cells| then cells[..colIndex] + cells[colIndex + 1..] else cells)
  {
  }

  /** What a row's texts become when one of its cells is spliced out. */
  lemma {:induction false} RowTextsRemoveAt(row: Node, at: int)
    ensures RowTexts(row.(children := RemoveAt(row.children, at))) == RemoveAt(RowTexts(row), at)
  {
    MapRemoveAt(row.children, at, CellText);
  }

  /** Read back, `deleteColumn` (past its guard) drops the entry at `colIndex` from the
      headers and from every data row long enough to have one. */
  lemma {:induction false} DeleteColumnReadBack(table: Node, colIndex: int)
    requires HeaderWidth(table) > 1
    ensures var r := ColumnDeleted(table, colIndex);
      var rows := GetTableRows(table);
      GetTableHeaders(r) == RemoveAt(GetTableHeaders(table), colIndex)
      && GetTableRows(r) == Map(rows, cells => if colIndex < |cells| then RemoveAt(cells, colIndex) else cells)
  {
    var r := ColumnDeleted(table, colIndex);
    RowTextsRemoveAt(table.children[0], colIndex);
    var rows := GetTableRows(table);
    forall i | 0 <= i < |rows| ensures GetTableRows(r)[i] == (if colIndex < |rows[i]| then RemoveAt(rows[i], colIndex) else rows[i]) {
      if colIndex < |rows[i]| {
        RowTextsRemoveAt(table.children[i + 1], colIndex);
      }
    }
  }

  // ---------------------------------------------------------------------------
  // Putting a table back into the tree

  /** The tree with its `k`-th table in pre-order replaced by `nt`; the replaced table's
      own subtree is not searched further. */
  function Replace(n: Node, k: nat, nt: Node): Node
    decreases n, 1
  {
    if n.kind == Table && k == 0 then nt
    else n.(children := ReplaceInList(n.children, if n.kind == Table then k - 1 else k, nt))
  }

  function ReplaceInList(ns: seq<Node>, k: nat, nt: Node): seq<Node>
    decreases ns, 0
  {
    if ns == [] then []
    else
      var c := |Tables(ns[0])|;
      if k < c then [Replace(ns[0], k, nt)] + ns[1..]
      else [ns[0]] + ReplaceInList(ns[1..], k - c, nt)
  }

  /** `updateTableInAst(ast, tableIndex, newTable)`: unchanged when the index is out of
      range, else the table found at that index is replaced by `newTable`. */
  function UpdateTableInAst(ast: Node, tableIndex: int, newTable: Node): (r: Node)
    ensures !(0 <= tableIndex < |Tables(ast)|) ==> r == ast
  {
    if 0 <= tableIndex < |Tables(ast)| then Replace(ast, tableIndex, newTable) else ast
  }

  /** No table lies inside another table (true of GFM tables, whose cells hold inline
      content only). */
  predicate NoNestedTables(n: Node)
    decreases n
  {
    if n.kind == Table then TablesOfList(n.children) == []
    else forall i :: 0 <= i < |n.children| ==> NoNestedTables(n.children[i])
  }

  lemma {:induction false} ReplaceTables(n: Node, k: nat, nt: Node)
    requires NoNestedTables(n) && k < |Tables(n)|
    ensures Tables(Replace(n, k, nt)) == Tables(n)[..k] + Tables(nt) + Tables(n)[k + 1..]
    decreases n, 1
  {
    TablesOfNode(n);
    if n.kind == Table {
      assert Tables(n) == [n];
    } else {
      var r := Replace(n, k, nt);
      TablesOfNode(r);
      ReplaceInListTables(n.children, k, nt);
    }
  }

  lemma {:induction false} ReplaceInListTables(ns: seq<Node>, k: nat, nt: Node)
    requires forall i :: 0 <= i < |ns| ==> NoNestedTables(ns[i])
    requires k < |TablesOfList(ns)|
    ensures TablesOfList(ReplaceInList(ns, k, nt)) == TablesOfList(ns)[..k] + Tables(nt) + TablesOfList(ns)[k + 1..]
    decreases ns, 0
  {
    assert ns != [];
    TablesOfCons(ns);
    var t0 := Tables(ns[0]);
    var rest := TablesOfList(ns[1..]);
    var r := ReplaceInList(ns, k, nt);
    assert r != [];
    TablesOfCons(r);
    if k < |t0| {
      assert r[0] == Replace(ns[0], k, nt) && r[1..] == ns[1..];
      ReplaceTables(ns[0], k, nt);
      SpliceIntoLeft(t0, rest, k, Tables(nt));
    } else {
      assert r[0] == ns[0] && r[1..] == ReplaceInList(ns[1..], k - |t0|, nt);
      ReplaceInListTables(ns[1..], k - |t0|, nt);
      SpliceIntoRight(t0, rest, k, Tables(nt));
    }
  }

  lemma {:induction false} SpliceIntoLeft<T>(a: seq<T>, b: seq<T>, k: nat, x: seq<T>)
    requires k < |a|
    ensures (a + b)[..k] + x + (a + b)[k + 1..] == (a[..k] + x + a[k + 1..]) + b
  {
    assert (a + b)[..k] == a[..k];
    assert (a + b)[k + 1..] == a[k + 1..] + b;
  }

  lemma {:induction false} SpliceIntoRight<T>(a: seq<T>, b: seq<T>, k: nat, x: seq<T>)
    requires |a| <= k < |a| + |b|
    ensures (a + b)[..k] + x + (a + b)[k + 1..] == a + (b[..k - |a|] + x + b[k - |a| + 1..])
  {
    assert (a + b)[..k] == a + b[..k - |a|];
    assert (a + b)[k + 1..] == b[k - |a| + 1..];
  }

  /** In a tree without nested tables, substituting a table `nt` (itself without nested
      tables) at index `k` changes the table list at entry `k` only: every other table,
      before or after it, is found again unchanged at its index. */
  lemma {:induction false} UpdateTableInAstTables(ast: Node, k: int, nt: Node)
    requires NoNestedTables(ast) && 0 <= k < |Tables(ast)|
    requires nt.kind == Table && Tables(nt) == [nt]
    ensures Tables(UpdateTableInAst(ast, k, nt)) == Tables(ast)[k := nt]
    ensures forall j :: 0 <= j < |Tables(ast)| && j != k ==> Tables(UpdateTableInAst(ast, k, nt))[j] == Tables(ast)[j]
  {
    ReplaceTables(ast, k, nt);
  }

  /** The tree with every table (and everything inside it) cut down to a bare table node:
      the non-table structure of a document. */
  function Skeleton(n: Node): Node
    decreases n, 1
  {
    if n.kind == Table then Node(Table, "", []) else n.(children := SkeletonList(n.children))
  }

  function SkeletonList(ns: seq<Node>): seq<Node>
    decreases ns, 0
  {
    if ns == [] then [] else [Skeleton(ns[0])] + SkeletonList(ns[1..])
  }

  lemma {:induction false} ReplaceSkeleton(n: Node, k: nat, nt: Node)
    requires nt.kind == Table
    ensures Skeleton(Replace(n, k, nt)) == Skeleton(n)
    decreases n, 1
  {
    if n.kind != Table {
      ReplaceInListSkeleton(n.children, k, nt);
    }
  }

  lemma {:induction false} ReplaceInListSkeleton(ns: seq<Node>, k: nat, nt: Node)
    requires nt.kind == Table
    ensures SkeletonList(ReplaceInList(ns, k, nt)) == SkeletonList(ns)
    decreases ns, 0
  {
    if ns != [] {
      var r := ReplaceInList(ns, k, nt);
      if k < |Tables(ns[0])| {
        ReplaceSkeleton(ns[0], k, nt);
        assert r[1..] == ns[1..];
      } else {
        ReplaceInListSkeleton(ns[1..], k - |Tables(ns[0])|, nt);
      }
    }
  }

  /** Substituting a table leaves all non-table structure of the document as it was. */
  lemma {:induction false} UpdateTableInAstSkeleton(ast: Node, k: int, nt: Node)
    requires nt.kind == Table
    ensures Skeleton(UpdateTableInAst(ast, k, nt)) == Skeleton(ast)
  {
    if 0 <= k < |Tables(ast)| {
      ReplaceSkeleton(ast, k, nt);
    }
  }
}
