/** The slash toolbar: a popup offering a table whose row and column counts the user
    types in; Enter inserts the (clamped) table and Escape closes the popup. */
module SlashToolbar {
  import opened Wrappers
  import opened TableSize

  /** The keys the document listener tells apart. */
  datatype Key = Escape | Enter | OtherKey

  /** What the toolbar asks of its owner. */
  datatype Effect = Close | InsertTable(rows: int, cols: int)

  /** The popup's position on screen. */
  datatype Point = Point(x: int, y: int)

  /** The component's state; the open flag and the callbacks are its owner's. */
  class Toolbar {
    var rows: int
    var cols: int
    var selected: bool

    /** The initial state: a 3 by 3 table, with the table item selected. */
    constructor()
      ensures rows == 3 && cols == 3 && selected
    {
      rows := 3;
      cols := 3;
      selected := true;
    }

    /** The effect run when the open flag changes: opening resets the state. */
    method OpenChanged(isOpen: bool)
      modifies this
      ensures isOpen ==> rows == 3 && cols == 3 && selected
      ensures !isOpen ==> rows == old(rows) && cols == old(cols) && selected == old(selected)
    {
      if isOpen {
        rows := 3;
        cols := 3;
        selected := true;
      }
    }

    /** The rows input: `parsed` is what `parseInt` makes of the text, `None` for NaN;
        NaN stores 1, any number (0 and negatives too) is stored as it is. */
    method RowsChanged(parsed: Option<int>)
      modifies this
      ensures rows == (if parsed.None? then 1 else parsed.value)
      ensures cols == old(cols) && selected == old(selected)
    {
      rows := if parsed.None? then 1 else parsed.value;
    }

    /** The columns input, stored like the rows input. */
    method ColsChanged(parsed: Option<int>)
      modifies this
      ensures cols == (if parsed.None? then 1 else parsed.value)
      ensures rows == old(rows) && selected == old(selected)
    {
      cols := if parsed.None? then 1 else parsed.value;
    }

    /** The pointer entering the table item selects it. */
    method Hover()
      modifies this
      ensures selected && rows == old(rows) && cols == old(cols)
    {
      selected := true;
    }

    /** `handleInsert`: the owner is asked for a table of the clamped size; values
        already in range reach it unchanged. */
    method HandleInsert() returns (e: Effect)
      ensures e.InsertTable? && 1 <= e.rows <= MaxRows && 1 <= e.cols <= MaxCols
      ensures 1 <= rows <= MaxRows ==> e.rows == rows
      ensures 1 <= cols <= MaxCols ==> e.cols == cols
      ensures e == InsertTable(ClampRows(rows), ClampCols(cols))
    {
      var validRows := Max(1, Min(20, rows));
      var validCols := Max(1, Min(10, cols));
      e := InsertTable(validRows, validCols);
    }

    /** The document key listener: nothing happens while the popup is closed; when it
        is open, Escape closes it and Enter inserts, each suppressing the default. */
    method KeyDown(isOpen: bool, key: Key) returns (preventDefault: bool, effects: seq<Effect>)
      ensures !isOpen ==> !preventDefault && effects == []
      ensures isOpen && key == Escape ==> preventDefault && effects == [Close]
      ensures isOpen && key == Enter ==> preventDefault && effects == [InsertTable(ClampRows(rows), ClampCols(cols))]
      ensures key == OtherKey ==> !preventDefault && effects == []
    {
      if !isOpen {
        return false, [];
      }
      if key == Escape {
        return true, [Close];
      } else if key == Enter {
        var e := HandleInsert();
        return true, [e];
      }
      return false, [];
    }
  }

  /** `adjustedPosition`: the requested point, pulled left and up so the popup
      (280 by 80) stays inside the window. */
  function AdjustedPosition(p: Point, innerWidth: int, innerHeight: int): (r: Point)
    ensures r.x <= p.x && r.x <= innerWidth - 280 && (r.x == p.x || r.x == innerWidth - 280)
    ensures r.y <= p.y && r.y <= innerHeight - 80 && (r.y == p.y || r.y == innerHeight - 80)
  {
    Point(Min(p.x, innerWidth - 280), Min(p.y, innerHeight - 80))
  }

  /** A point that already leaves room for the popup is kept. */
  lemma {:induction false} AdjustedPositionFits(p: Point, innerWidth: int, innerHeight: int)
    requires p.x + 280 <= innerWidth && p.y + 80 <= innerHeight
    ensures AdjustedPosition(p, innerWidth, innerHeight) == p
  {
  }
}
