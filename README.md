# typex table editor and surrounding cores, in Dafny

typex is a Markdown editor: a React front end running in a Tauri shell with a Rust back end. This project models its markdown
table structure editor in both forms:

- the table operations over an mdast tree (`root` → … → `table` → `tableRow` →
  `tableCell` → inline `text`): finding tables in pre-order, reading header and data
  text, building cells, rows and tables, inserting and deleting rows and columns, and
  putting an edited table back into the tree by its ordinal position;
- the flat grid editor (`TableData`, rows of cells): the reducers behind its buttons,
  its hand-written GitHub Flavored Markdown pipe-table serialiser (`toMarkdown`), and
  the parser for the same subset of section 4.10 of the GFM specification
  (`parseMarkdownTable`), with the serialise/parse round trip proved.

It also models the smaller cores around the editor:

- the application shell: the backend-to-sidebar file tree conversion, the file name
  shown in the title, and the saved/modified state machine of the open file;
- the backend's recursive directory listing with its directories-first,
  case-insensitive, stable sort;
- the two table-insertion dialogs and their size clamp (rows 1..20, columns 1..10);
- the two variants of the gpui heading component: a loose ATX heading after section 4.2
  of CommonMark.

Modules, one per source file plus shared helpers:

| module | file | models |
|---|---|---|
| `Wrappers` | wrappers.dfy | `Option`, `Result` |
| `Strings` | strings.dfy | JavaScript `trim`, `split`, `join`, `includes`, `${n}` |
| `JsArrays` | js_arrays.dfy | `splice`, `filter` by index, `map` |
| `TableAst` | table_ast.dfy | src/utils/tableAst.ts |
| `TableEditor` | table_editor.dfy | src/components/TableEditor.tsx |
| `App` | app.dfy | src/App.tsx |
| `DirectoryListing` | directory_listing.dfy | src-tauri/src/lib.rs |
| `TableSize` | table_size.dfy | the clamp shared by both dialogs |
| `SlashToolbar` | slash_toolbar.dfy | src/components/SlashToolbar.tsx |
| `TableInserter` | table_inserter.dfy | src/components/TableInserter.tsx |
| `Heading` | heading.dfy | src/components/heading.rs |
| `HeadingBold` | heading_bold.dfy | components/heading/heading.rs |

Each operation takes the same form as in the source:

- Traversals that push into an accumulator (`findTables`, `getCellText`) are methods.
  So are loops over rows (`insertColumn`, `deleteColumn`), the string-building
  `forEach` of `toMarkdown`, the row-pushing `forEach` of `parseMarkdownTable` and the
  entry loop of `read_directory_sync`. Each is proved equal to a specification
  function, and the properties are lemmas about that function.
- Components with state (the grid editor, the application, the two dialogs) are
  classes whose methods update their fields.
- Pure expressions are functions.

## Model

| member | source | states |
|---|---|---|
| TableAst.Tables | src/utils/tableAst.ts:35-49 | what `findTables` returns, the `table` nodes of the pre-order walk; its promises are stated by `FindTables` and `TablesOfNode` |
| TableAst.FindTables | src/utils/tableAst.ts:35-49 | the result is exactly the tree's nodes of type `table`, in pre-order, including tables inside tables |
| TableAst.CollectTables | src/utils/tableAst.ts:38-45 | the traversal appends to its accumulator the `table` nodes of the subtree in pre-order, descending into every node, tables included |
| TableAst.TablesOfNode | src/utils/tableAst.ts:39-44 | a node's tables are the node itself, if it is a table, followed by the tables of its children in order |
| TableAst.CellText | src/utils/tableAst.ts:74-87 | what `getCellText` returns; its promises are stated by `GetCellText` and `CellTextOfCreateCell` |
| TableAst.GetCellText | src/utils/tableAst.ts:74-87 | the cell text is the trimmed concatenation of the values of every `text` node below the cell, in pre-order |
| TableAst.ExtractText | src/utils/tableAst.ts:77-84 | the traversal appends the values of the subtree's `text` nodes in pre-order, and nodes of other kinds give nothing |
| TableAst.TextValuesAppend | src/utils/tableAst.ts:77-85 | the text values of two node sequences, one after the other, are those of the first followed by those of the second |
| TableAst.GetTableHeaders | src/utils/tableAst.ts:54-58 | no headers for a table with no rows; otherwise one text per cell of the first row |
| TableAst.GetTableRows | src/utils/tableAst.ts:63-69 | no rows for a table of at most one row; otherwise one entry per row after the first (rows − 1), each with one text per cell |
| TableAst.CreateCell | src/utils/tableAst.ts:92-97 | a `tableCell` that has no children exactly when the text is empty |
| TableAst.CreateRow | src/utils/tableAst.ts:102-107 | a `tableRow` with one cell per string |
| TableAst.CellTextOfCreateCell | src/utils/tableAst.ts:74-97 | a created cell reads back as its text trimmed, the empty text included |
| TableAst.RowTextsOfCreateRow | src/utils/tableAst.ts:102-107 | a created row reads back as its strings, each trimmed |
| TableAst.CreateTable | src/utils/tableAst.ts:177-187 | a `table` with the header row followed by one row per data row |
| TableAst.CreateTableReadBack | src/utils/tableAst.ts:177-187 | a created table reads back as its headers and data rows, every entry trimmed |
| TableAst.NewRow | src/utils/tableAst.ts:113-114 | the inserted row is a `tableRow`, with as many (empty) cells as there are headers when no cells are given |
| TableAst.InsertRow | src/utils/tableAst.ts:112-121 | the row count grows by exactly one, whatever the index, and the table's type is kept |
| TableAst.InsertRowPlacement | src/utils/tableAst.ts:112-121 | for 0 ≤ rowIndex ≤ the number of data rows, the new row is `children[rowIndex + 1]`, the rows before it are unchanged, and the rows after it are the old ones in order |
| TableAst.InsertRowReadBack | src/utils/tableAst.ts:112-121 | read back, the headers are unchanged and the data rows are the old ones with the new row's texts (the given cells trimmed, or one empty text per header) inserted at `rowIndex` |
| TableAst.DeleteRow | src/utils/tableAst.ts:126-133 | the table's type is kept |
| TableAst.DeleteRowEffect | src/utils/tableAst.ts:126-133 | for rowIndex ≥ 0: when `children[rowIndex + 1]` exists, exactly that row goes, the header row and headers remain, and data row `rowIndex` is dropped; otherwise nothing changes |
| TableAst.HeaderLabel | src/utils/tableAst.ts:142 | the header text is never empty; it is the given text unless that is absent or empty, in which case it is `列 {colIndex + 1}` |
| TableAst.ColumnInserted | src/utils/tableAst.ts:138-154 | what `insertColumn` returns; its promises are stated by `ColumnInsertedRow`, `InsertColumnShape`, `InsertColumnDataRows` and `InsertColumnReadBack` |
| TableAst.InsertColumn | src/utils/tableAst.ts:138-154 | the header-cell splice and then the loop over the data rows are proved equal to `ColumnInserted` |
| TableAst.ColumnInsertedRow | src/utils/tableAst.ts:138-151 | the row count is kept; the header row gains the label cell at `colIndex` and every other row an empty cell there |
| TableAst.InsertColumnShape | src/utils/tableAst.ts:138-154 | the row count is unchanged; for a position within a row, the row gains the header cell (row 0) or an empty cell at that position, and keeps its other cells in order |
| TableAst.InsertColumnDataRows | src/utils/tableAst.ts:146-151 | every data row reads back as the old one with an empty text spliced in at `colIndex` |
| TableAst.InsertColumnReadBack | src/utils/tableAst.ts:138-154 | read back, the headers gain the trimmed label at `colIndex` (splice semantics) and every data row gains an empty text there; the row count stays |
| TableAst.ColumnDeleted | src/utils/tableAst.ts:159-172 | what `deleteColumn` returns; its promises are stated by `DeleteColumnEffect` and `DeleteColumnReadBack` |
| TableAst.DeleteColumn | src/utils/tableAst.ts:159-172 | the width guard and then the loop over every row are proved equal to `ColumnDeleted` |
| TableAst.DeleteColumnEffect | src/utils/tableAst.ts:159-172 | with at most one header cell the table is unchanged; otherwise every row with more than `colIndex` cells loses exactly that cell and shorter rows are untouched; the row count stays |
| TableAst.DeleteColumnReadBack | src/utils/tableAst.ts:159-172 | past the guard, the headers lose the entry at `colIndex` and so does every data row that has one |
| TableAst.UpdateTableInAst | src/utils/tableAst.ts:203-220 | an index outside the range of the tree's tables returns the tree unchanged |
| TableAst.Replace | src/utils/tableAst.ts:208-216 | `replaceTable`, the rebuild that swaps the old table for the new one; its promises are stated by `ReplaceTables` and `UpdateTableInAstSkeleton` |
| TableAst.ReplaceInList | src/utils/tableAst.ts:213 | `node.children.map(replaceTable)`, the same rebuild over a list of children; stated with `Replace` by `ReplaceTables` |
| TableAst.ReplaceTables | src/utils/tableAst.ts:208-216 | replacing the k-th table (no table inside another) makes the tables of the result those before k, the tables of the new table, then those after k |
| TableAst.UpdateTableInAstTables | src/utils/tableAst.ts:203-220 | with an index in range, `findTables` of the result is that of the input with entry k replaced by the new table, and every other entry is unchanged |
| TableAst.UpdateTableInAstSkeleton | src/utils/tableAst.ts:203-220 | all structure outside the tables (node types, values, children) is unchanged |
| TableEditor.DefaultData | src/components/TableEditor.tsx:29-51 | the grid a new editor starts with; its promises are stated by `DefaultDataShape` |
| TableEditor.DefaultDataShape | src/components/TableEditor.tsx:29-51 | the default grid is 3×3 and rectangular, with header cells `列 1`..`列 3`, then two rows of empty non-header cells |
| TableEditor.CellUpdated | src/components/TableEditor.tsx:102-111 | what `updateCell` makes of the grid; its promises are stated by `CellUpdatedEffect` |
| TableEditor.CellUpdatedEffect | src/components/TableEditor.tsx:102-111 | the shape is kept; only the addressed cell's content changes, its `isHeader` and `align` are kept, and an address outside the grid changes nothing |
| TableEditor.BlankRow | src/components/TableEditor.tsx:116-123 | the new row has one empty non-header cell per first-row cell, and each cell copies that column's header alignment |
| TableEditor.RowInserted | src/components/TableEditor.tsx:114-132 | what `insertRow` makes of the grid; its promises are stated by `RowInsertedEffect` and `RowInsertedRectangular` |
| TableEditor.RowInsertedEffect | src/components/TableEditor.tsx:114-132 | for a position within the grid, the blank row lands at `rowIndex` ('above') or `rowIndex + 1` ('below'), and the other rows keep their contents and order |
| TableEditor.RowInsertedRectangular | src/components/TableEditor.tsx:114-132 | inserting a row keeps a rectangular grid rectangular |
| TableEditor.ColumnInserted | src/components/TableEditor.tsx:135-151 | what `insertColumn` makes of the grid; its promises are stated by `ColumnInsertedEffect` and `ColumnInsertedRectangular` |
| TableEditor.ColumnInsertedEffect | src/components/TableEditor.tsx:135-151 | the row count stays; every row gains one cell where `splice` puts it: the header `列 {insertIndex + 1}` in row 0, an empty non-header cell elsewhere; the other cells keep their order |
| TableEditor.ColumnInsertedRectangular | src/components/TableEditor.tsx:135-151 | inserting a column keeps a rectangular grid rectangular |
| TableEditor.RowDeleted | src/components/TableEditor.tsx:154-161 | what `deleteRow` makes of the grid; its promises are stated by `RowDeletedEffect` and `RowDeletedRectangular` |
| TableEditor.RowDeletedEffect | src/components/TableEditor.tsx:154-161 | with at most one row nothing changes; otherwise exactly the row at `rowIndex` goes (row 0 included); an index outside the grid changes nothing; at least one row always remains |
| TableEditor.RowDeletedRectangular | src/components/TableEditor.tsx:154-161 | deleting a row keeps a rectangular grid rectangular |
| TableEditor.ColumnDeleted | src/components/TableEditor.tsx:164-171 | what `deleteColumn` makes of the grid; its promises are stated by `ColumnDeletedEffect` and `ColumnDeletedRectangular` |
| TableEditor.ColumnDeletedEffect | src/components/TableEditor.tsx:164-171 | with a first row of at most one cell nothing changes; otherwise every row loses its cell at `colIndex` when it has one; the row count stays and at least one column remains |
| TableEditor.ColumnDeletedRectangular | src/components/TableEditor.tsx:164-171 | deleting a column keeps a rectangular grid rectangular |
| TableEditor.Markdown | src/components/TableEditor.tsx:59-78 | what `toMarkdown` returns; its promises are stated by `ToMarkdown`, `MarkdownShape` and `RoundTrip` |
| TableEditor.ToMarkdown | src/components/TableEditor.tsx:59-78 | the `forEach` that builds the string is proved equal to `Markdown` |
| TableEditor.MarkdownShape | src/components/TableEditor.tsx:59-78 | no rows give `''`; otherwise the output is a newline, then the row lines joined by newlines with the separator as wide as the first row after row 0, then two newlines |
| TableEditor.NonBlank | src/components/TableEditor.tsx:345 | the kept lines are lines of the input that do not trim to empty |
| TableEditor.ParseLine | src/components/TableEditor.tsx:354-362 | every line parses to at least one cell |
| TableEditor.ParsedTable | src/components/TableEditor.tsx:344-368 | what `parseMarkdownTable` returns; its promises are stated by `ParseMarkdownTable`, `ParsedTableShape` and `ParsedTableCells` |
| TableEditor.ParseMarkdownTable | src/components/TableEditor.tsx:344-368 | the line filter, the `null` case and the `forEach` are proved equal to `ParsedTable` |
| TableEditor.PushRows | src/components/TableEditor.tsx:350-365 | the loop pushes one entry per line, skipping line 1 when it contains `---` |
| TableEditor.ParsedTableShape | src/components/TableEditor.tsx:344-368 | `null` exactly when there are fewer than two non-blank lines; otherwise one row per line, less line 1 when it contains `---`, and each row is the parse of its own line |
| TableEditor.ParsedTableCells | src/components/TableEditor.tsx:350-365 | in a parsed table, exactly the cells of the first row are headers, no cell has an alignment, and every content is trimmed |
| TableEditor.ParseLineCells | src/components/TableEditor.tsx:354-362 | each cell of a line is trimmed, unaligned, and a header exactly when the line is the first |
| TableEditor.ParseRowLine | src/components/TableEditor.tsx:65-66 | a row line whose contents hold no `|` parses back to one cell per cell, each with its content trimmed |
| TableEditor.LinesOfMarkdown | src/components/TableEditor.tsx:59-78 | the non-blank lines the parser sees in serialised output are exactly the row lines and the separator |
| TableEditor.ParsedMarkdown | src/components/TableEditor.tsx:344-368 | parsing serialised output always succeeds and reads the table's lines |
| TableEditor.ReadBackRows | src/components/TableEditor.tsx:350-365 | the table's lines parse to one row per grid row (the separator skipped), with one cell per cell, content trimmed, header exactly in row 0 |
| TableEditor.RoundTrip | src/components/TableEditor.tsx:59-78 | for a grid with at least one row, no empty row and no `|` or newline in any content, parsing the serialisation gives the same shape, every content trimmed, headers exactly in row 0, and no alignment |
| TableEditor.RoundTripExact | src/components/TableEditor.tsx:344-368 | a grid already in the parser's form (trimmed, header row 0 only, unaligned) parses back from its serialisation as itself |
| TableEditor.Editor.constructor | src/components/TableEditor.tsx:29-55 | the grid given, else the default grid; no selected cell, no menu open |
| TableEditor.Editor.UpdateCell | src/components/TableEditor.tsx:102-111 | the grid becomes `CellUpdated` of the old one; selection and menus unchanged |
| TableEditor.Editor.InsertRow | src/components/TableEditor.tsx:114-132 | the grid becomes `RowInserted` of the old one and the row menu closes |
| TableEditor.Editor.InsertColumn | src/components/TableEditor.tsx:135-151 | the grid becomes `ColumnInserted` of the old one and the column menu closes |
| TableEditor.Editor.DeleteRow | src/components/TableEditor.tsx:154-161 | the grid becomes `RowDeleted` of the old one, a grid with rows keeps one, and the row menu closes |
| TableEditor.Editor.DeleteColumn | src/components/TableEditor.tsx:164-171 | the grid becomes `ColumnDeleted` of the old one, a grid with columns keeps one, and the column menu closes |
| TableEditor.Editor.CornerButton | src/components/TableEditor.tsx:205-214 | a row is inserted above the first and then a column left of the first, both updates applied in turn; both menus close |
| TableEditor.Editor.SelectCell | src/components/TableEditor.tsx:297 | the clicked cell becomes the selection; nothing else changes |
| TableEditor.Editor.OpenRowMenu | src/components/TableEditor.tsx:235 | the row's menu opens; nothing else changes |
| TableEditor.Editor.OpenColMenu | src/components/TableEditor.tsx:222 | the column's menu opens; nothing else changes |
| TableEditor.Editor.ClickOutside | src/components/TableEditor.tsx:88-99 | both menus close and the selection clears; the grid is unchanged |
| App.ConvertFileNode | src/App.tsx:15-22 | `name` and `path` are kept, `is_directory` becomes `isDirectory`, and children are present exactly when they were, with the same count |
| App.ConvertFileNodes | src/App.tsx:20 | the children are converted one for one |
| App.ConvertFileNodesAt | src/App.tsx:20 | the i-th converted child is the conversion of the i-th child, so order is kept |
| App.ConvertFileNodeLossless | src/App.tsx:15-22 | converting back gives the original tree: no name, path, kind, child or absence of children is lost |
| App.ConvertFileNodeOnto | src/App.tsx:15-22 | every sidebar tree is the conversion of a backend tree |
| App.GetFileName | src/App.tsx:111-114 | no path or an empty path gives `''` |
| App.GetFileNameSegment | src/App.tsx:113 | for a path not ending in `/`, the name is its last `/`-separated segment: non-empty, free of `/`, and preceded by `/` or the start |
| App.GetFileNameWithoutSlash | src/App.tsx:113 | a non-empty path with no `/` is its own name |
| App.GetFileNameTrailingSlash | src/App.tsx:113 | a path ending in `/` falls back to its last `\`-separated piece, the whole path when it has no `\` |
| App.GetFileNameWindowsPath | src/App.tsx:113 | as written, `C:\docs\a.md` is shown whole |
| App.FileName | src/App.tsx:111-114 | the corrected name: no path gives `''` |
| App.FileNameSegment | src/App.tsx:111-114 | the corrected name is the suffix after the last separator of either kind |
| App.FileNameWindowsPath | src/App.tsx:111-114 | with the correction, `C:\docs\a.md` shows `a.md` |
| App.FileNameAgrees | src/App.tsx:111-114 | on POSIX paths not ending in `/` the corrected name is the name shown now |
| App.AppState.constructor | src/App.tsx:25-30 | no files, no open file, empty contents, not modified, editor key 0 |
| App.AppState.HandleContentChange | src/App.tsx:106-109 | the contents become the edited text and the modified flag says whether it differs from the saved text |
| App.AppState.HandleSave | src/App.tsx:42-63 | with no file, or a failed write, nothing changes; after a successful write the saved text is the current one and the flag is cleared |
| App.AppState.HandleFileSelect | src/App.tsx:81-104 | a confirmed save runs first when modified; after a successful read the file, contents and saved text are the new ones, the flag is clear and the editor key grows by exactly one; a failed read leaves all but the save's effect unchanged |
| App.AppState.HandleOpenFolder | src/App.tsx:65-79 | the modified flag stays consistent; with a folder chosen and `read_directory` answering with a listing (a `DirectoryListing.ReadDirectory` result, same node type), the files become the converted listing; no choice, an empty path or an error changes nothing |
| App.OpenedFolderDirectoriesFirst | src/App.tsx:65-79 | in the tree an opened folder shows (the converted `read_directory` answer), no file comes before a directory |
| DirectoryListing.CompareStringsEqual | src-tauri/src/lib.rs:55 | `str::cmp` is Equal exactly on equal strings |
| DirectoryListing.CompareStringsFlip | src-tauri/src/lib.rs:55 | swapping the strings flips the ordering |
| DirectoryListing.CompareStringsTransitive | src-tauri/src/lib.rs:55 | "not after" is transitive on strings |
| DirectoryListing.Compare | src-tauri/src/lib.rs:51-57 | the `sort_by` comparator; its promises are stated by `CompareEqual`, `CompareFlip`, `CompareTransitive` and `ByKindThenNameIsTotalPreorder` |
| DirectoryListing.CompareEqual | src-tauri/src/lib.rs:51-57 | two nodes tie exactly when they are of the same kind with the same lowercased name |
| DirectoryListing.CompareFlip | src-tauri/src/lib.rs:52-55 | a directory comes before a file and a file after a directory; swapping nodes flips the answer |
| DirectoryListing.CompareTransitive | src-tauri/src/lib.rs:51-57 | the comparator's "not after" is transitive |
| DirectoryListing.ByKindThenNameIsTotalPreorder | src-tauri/src/lib.rs:51-57 | the comparator is a total preorder, as `sort_by` requires |
| DirectoryListing.Insert | src-tauri/src/lib.rs:51-57 | one insertion step adds exactly the element |
| DirectoryListing.SortBy | src-tauri/src/lib.rs:51-57 | the sort is a permutation of its input |
| DirectoryListing.InsertSorted | src-tauri/src/lib.rs:51-57 | inserting into a sorted list keeps it sorted |
| DirectoryListing.SortBySorted | src-tauri/src/lib.rs:51-57 | the sort yields a sorted permutation of its input |
| DirectoryListing.SortByStable | src-tauri/src/lib.rs:51-57 | the sort is stable: the elements of any one key keep their relative order |
| DirectoryListing.SortedDirectoriesFirst | src-tauri/src/lib.rs:51-57 | in the sorted listing every directory comes before every file, and within a kind the lowercased names ascend |
| DirectoryListing.NodeOf | src-tauri/src/lib.rs:28-45 | the node has the entry's name and path, is a directory exactly when the metadata says so, and has children exactly when it is a directory: the nodes of its own listing, or none when that listing fails |
| DirectoryListing.Collect | src-tauri/src/lib.rs:25-48 | when no entry fails, there is one node per entry |
| DirectoryListing.CollectAppend | src-tauri/src/lib.rs:25-48 | collecting two runs of entries in turn stops at the first run's error, then at the second's, else concatenates their nodes |
| DirectoryListing.CollectFails | src-tauri/src/lib.rs:25-27 | collection fails exactly when some entry or its metadata fails, and reports the first such error |
| DirectoryListing.CollectNodes | src-tauri/src/lib.rs:25-48 | a successful collection has the node of each entry, in listing order |
| DirectoryListing.ReadDirectory | src-tauri/src/lib.rs:21-60 | what `read_directory_sync` returns; its promises are stated by `ReadDirectorySync`, `ReadDirectoryErr` and `ReadDirectoryOk` |
| DirectoryListing.ReadDirectorySync | src-tauri/src/lib.rs:21-60 | the loop over the entries, with recursion into directories and the final sort, is proved equal to `ReadDirectory` |
| DirectoryListing.EntryNodes | src-tauri/src/lib.rs:32-47 | one node per entry, each the node of its entry |
| DirectoryListing.ReadDirectoryErr | src-tauri/src/lib.rs:21-27 | a read fails exactly when the directory cannot be read or some entry or metadata fails; it reports that directory's error or the first entry's |
| DirectoryListing.ReadDirectoryOk | src-tauri/src/lib.rs:21-60 | a successful read is a sorted, stable permutation of the entries' nodes in which exactly the directories carry children |
| SlashToolbar.Toolbar.constructor | src/components/SlashToolbar.tsx:13-15 | a 3 by 3 table with the item selected |
| SlashToolbar.Toolbar.OpenChanged | src/components/SlashToolbar.tsx:18-25 | opening resets to 3 by 3 and selected; closing changes nothing |
| SlashToolbar.Toolbar.RowsChanged | src/components/SlashToolbar.tsx:50-53 | the rows become 1 for NaN and the parsed value otherwise, 0 and negatives included |
| SlashToolbar.Toolbar.ColsChanged | src/components/SlashToolbar.tsx:55-58 | the columns become 1 for NaN and the parsed value otherwise |
| SlashToolbar.Toolbar.Hover | src/components/SlashToolbar.tsx:78 | the pointer selects the item |
| SlashToolbar.Toolbar.HandleInsert | src/components/SlashToolbar.tsx:44-48 | the table asked for has rows in 1..20 and columns in 1..10, and values already in range pass unchanged |
| SlashToolbar.Toolbar.KeyDown | src/components/SlashToolbar.tsx:28-38 | while closed nothing happens; while open, Escape closes and Enter inserts, both suppressing the default; other keys do nothing |
| SlashToolbar.AdjustedPosition | src/components/SlashToolbar.tsx:61-64 | each coordinate is the smaller of the requested one and the window size less 280 (x) or 80 (y) |
| TableInserter.ParsedOrOne | src/components/TableInserter.tsx:52 | `parseInt(v) \|\| 1`: NaN and 0 become 1, any other number is kept |
| TableInserter.ParsedOrOneClampsAlike | src/components/TableInserter.tsx:64 | after the clamp, this dialog's input rule and the toolbar's give the same size |
| TableInserter.Inserter.constructor | src/components/TableInserter.tsx:11-12 | a 3 by 3 table |
| TableInserter.Inserter.OpenChanged | src/components/TableInserter.tsx:15-21 | opening resets to 3 by 3; closing changes nothing |
| TableInserter.Inserter.RowsChanged | src/components/TableInserter.tsx:52 | the rows become `parseInt(v) \|\| 1` |
| TableInserter.Inserter.ColsChanged | src/components/TableInserter.tsx:64 | the columns become `parseInt(v) \|\| 1` |
| TableInserter.Inserter.HandleSubmit | src/components/TableInserter.tsx:23-28 | first an insert of rows in 1..20 and columns in 1..10 (values already in range pass unchanged), then a close |
| TableInserter.Inserter.HandleKeyDown | src/components/TableInserter.tsx:30-36 | Enter submits, Escape closes, other keys do nothing |
| TableSize.Clamp | src/components/TableInserter.tsx:24-25 | the result lies in 1..hi, equals the value when that is in range, is 1 below it and hi above it |
| TableSize.ClampIdempotentMonotone | src/components/SlashToolbar.tsx:45-46 | clamping twice is clamping once, and the clamp keeps the order of its inputs |
| Heading.LeadingHashes | src/components/heading.rs:14 | the count is the length of the leading run of `#` |
| Heading.FromU8 | src/components/heading.rs:13-24 | the level `from_u8` picks; its promises are stated by `FromU8Level` and `FromU8Monotone` |
| Heading.FromU8Level | src/components/heading.rs:13-24 | the level is min(6, max(1, number of leading `#`)); no mark gives One, six or more give Six |
| Heading.FromU8Monotone | src/components/heading.rs:13-24 | more leading marks never give a lower level |
| Heading.New | src/components/heading.rs:34-38 | the text is stored unchanged and the level is read from it |
| Heading.TrimStart | src/components/heading.rs:42 | `trim_start` leaves a suffix that does not begin with white space, and keeps an input that does not begin with it |
| Heading.StrippedText | src/components/heading.rs:42 | the shown text is a suffix of the input that does not begin with white space |
| Heading.StrippedTextFrom | src/components/heading.rs:42 | the shown text is the input from its first character after the marks and the white space that follows them |
| Heading.StrippedTextKeepsLaterHashes | src/components/heading.rs:42 | only the first run of marks goes: `# #x` shows `#x` |
| Heading.Render | src/components/heading.rs:41-51 | every level shows the stripped text, and only level Six is italic |
| Heading.RenderSizes | src/components/heading.rs:43-50 | One to Five get 3xl, 2xl, xl, lg, base; Six gets base in italics |
| Heading.RenderMonotone | src/components/heading.rs:13-50 | a heading with more marks is never rendered larger |
| HeadingBold.Render | components/heading/heading.rs:41-51 | One to Five show the stripped text in bold; Six shows the stored text as it is, not bold, at base size |
| HeadingBold.RenderAgrees | components/heading/heading.rs:42-49 | One to Five have the sizes and text of the other variant; at Six the two agree exactly when stripping changes nothing |
| HeadingBold.SixShowsMarks | components/heading/heading.rs:13-49 | a heading made from six or more marks shows them, not bold |
| Strings.Trim | src/utils/tableAst.ts:86 | `trim` leaves no white space at either end, is empty exactly for white-space-only input, and keeps input with no white space at its ends |
| Strings.TrimIdempotent | src/components/TableEditor.tsx:360 | trimming twice is trimming once |
| Strings.TrimPadded | src/components/TableEditor.tsx:66 | the one-space padding the serialiser adds is removed again by `trim` |
| Strings.Split | src/components/TableEditor.tsx:345 | `split` gives at least one piece, no piece contains the separator, and joining the pieces gives the input back |
| Strings.Join | src/components/TableEditor.tsx:66 | `join`: a single part is joined to itself; begins with the first part and ends with the last (`JoinEnds`), and splitting undoes it (`SplitJoin`) |
| Strings.SplitJoin | src/components/TableEditor.tsx:358 | splitting what was joined from separator-free pieces gives the pieces back |
| Strings.LastPiece | src/App.tsx:113 | the text after the last separator is a separator-free suffix preceded by a separator or the start, and it is the whole string when there is no separator |
| Strings.LastPieceUnique | src/App.tsx:113 | only one suffix has those properties |
| Strings.LastPieceOfSplit | src/App.tsx:113 | the last piece of `split(sep)` is a separator-free suffix after a separator or the start, and is the whole string exactly when there is one piece |
| Strings.LastPieceIsPop | src/App.tsx:113 | `split(sep).pop()` is that last piece |
| Strings.Contains | src/components/TableEditor.tsx:352 | `includes`; its promise is stated by `ContainsAt` |
| Strings.ContainsAt | src/components/TableEditor.tsx:352 | `includes` holds when the substring occurs at some position |
| Strings.NatToStringValue | src/components/TableEditor.tsx:140 | the decimal digits written for a column number denote that number |
| Strings.IntToString | src/utils/tableAst.ts:142 | `${n}` is non-empty and begins with a minus sign exactly for negative numbers |
| JsArrays.InsertAt | src/utils/tableAst.ts:118 | `splice(start, 0, x)` adds one element: `x` at the clamped start and the others in order around it |
| JsArrays.RemoveAt | src/utils/tableAst.ts:167 | `splice(start, 1)` removes the element at the clamped start when there is one, else leaves the array unchanged |
| JsArrays.FilterIndex | src/components/TableEditor.tsx:157 | filtering out index i removes exactly that element when it exists, else changes nothing |
| JsArrays.MapInsertAt | src/utils/tableAst.ts:118 | mapping after a splice insertion is the splice insertion of the mapped element |
| JsArrays.MapRemoveAt | src/utils/tableAst.ts:165-169 | mapping after a splice removal is the splice removal from the mapped array |

## Left out

- `parseMarkdown`, `stringifyMarkdown` and `tableToMarkdown` (src/utils/tableAst.ts:15-30, 192-198) call unified/remark, a library this model does not contain; the tree operations take and return the tree directly.
- The mdast `align` array of a table and node positions are not modelled: a node is its type, its literal value and its children.
- The in-place mutation of `table.children` and `row.children` by `splice`, and the reassignment of `node.children` in `updateTableInAst`, are modelled on values: each operation returns the updated table or tree. Aliasing between a table handed in and one still in the tree is therefore not captured.
- `updateTableInAst` finds the table to replace by object identity (`===`); the model uses its position in pre-order instead. The two agree when no table object appears at two places in the tree.
- TableAst.ReplaceTables, TableAst.UpdateTableInAstTables: proved for trees in which no table lies inside another (`NoNestedTables`), as GFM tables never do. The new table itself must also contain no other table.
- TableAst.InsertRowPlacement, TableAst.InsertRowReadBack: stated for 0 ≤ rowIndex ≤ the number of data rows; `TableAst.InsertRow` itself models every index, with `splice`'s clamping of negative and too-large starts.
- TableAst.DeleteRowEffect: stated for rowIndex ≥ 0; for a negative index `deleteRow` can remove the header row or splice from the end, which `TableAst.DeleteRow` models but no lemma describes.
- TableAst.DeleteColumnEffect: stated for colIndex ≥ 0; `TableAst.DeleteColumn` models negative indices, where `splice` counts from the end.
- TableEditor.RowInsertedEffect: stated for an insert position within the grid; `TableEditor.RowInserted` models every position through the clamping of `splice`.
- All JSX rendering, the CSS, the pixel offsets of the action buttons and menus, the read-only variant's view, and the `setTimeout` focus of both dialogs are not modelled.
- The document `mousedown` and `keydown` listeners, and their registration and removal, are not modelled. Their handlers are methods, and whether a click lies inside the editor is decided by the caller.
- `onChange` is not a separate event: `TableEditor.Editor.Output` is the markdown it would be told after each change of the grid.
- React's batching of state updates, stale closures, and the refs that mirror the application state are not modelled; every handler sees the current state. Updates made through functional `setData` are applied in call order, as React does.
- In src/App.tsx, the Tauri calls (`invoke`, the folder dialog `open`), `confirm` and `alert` become parameters: whether the write succeeds, the user's answer, the text read or its failure, and the folder and listing returned. `async`/`await` ordering and the console logging are not modelled.
- In src-tauri/src/lib.rs, the file system is an abstract listing value (a directory's entries and their errors, each directory holding its own listing). `tokio::spawn_blocking`, the `read_directory` command wrapper, the menus, the event emission and `greet` are not modelled.
- Rust's Unicode `to_lowercase` is a parameter `lower: string -> string`; the sort order is proved for any such function.
- Rust's `sort_by` is modelled as a stable insertion sort. A sorted, stable permutation is unique, so every stable sort gives the same result.
- JavaScript strings are sequences of UTF-16 code units; the model's strings are sequences of Unicode code points. No modelled result depends on the difference: `trim`, `split` and `includes` on ASCII separators and `join` treat a surrogate pair as two units that are never separators. A lone surrogate cannot be represented.
- The JSON encoding of the listing across the `invoke` boundary is not modelled: `App.RustFileNode` is the backend's own `DirectoryListing.FileNode`, so what `HandleOpenFolder` receives is a `ReadDirectory` result.
- JavaScript numbers are unbounded integers: `parseInt` is a parameter that yields an integer or NaN (`None`), and floating point, infinities and large-number precision are not modelled.
- src/components/MarkdownEditor.tsx (the Vditor wrapper), src/components/DirectoryTree.tsx (tree view), src/components/text.rs (comrak-to-gpui rendering) and src/main.rs (demo window) are not part of this model.
- The gpui element tree is reduced to the size, the italic or bold flag, and the text shown; other styling calls are not modelled.

## Findings

| source | as written | input that shows it | evidently intended | confidence | as-written member | corrected member |
|---|---|---|---|---|---|---|
| src/App.tsx:113 | the `\` fallback runs only when the last `/`-separated piece is empty, so a Windows path with no `/` is shown whole | `C:\docs\a.md` gives `C:\docs\a.md` | the last segment after either separator, `a.md` | medium, not executed | App.GetFileNameWindowsPath | App.FileName |
