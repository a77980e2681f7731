/** The table-insertion dialog: two number inputs, a submit that inserts the clamped
    table and closes the dialog, Enter to submit and Escape to close. */
module TableInserter {
  import opened Wrappers
  import opened TableSize

  /** The keys the inputs tell apart. */
  datatype Key = Escape | Enter | OtherKey

  /** What the dialog asks of its owner, in order. */
  datatype Effect = Insert(rows: int, cols: int) | Close

  /** `parseInt(v) || 1`: `parsed` is what `parseInt` makes of the text, `None` for
      NaN; NaN and 0 are falsy and become 1, any other number is kept. */
  function ParsedOrOne(parsed: Option<int>): (n: int)
    ensures n != 0
    ensures parsed.Some? && parsed.value != 0 ==> n == parsed.value
    ensures parsed.None? || parsed.value == 0 ==> n == 1
  {
    if parsed.Some? && parsed.value != 0 then parsed.value else 1
  }

  /** Storing `parseInt(v) || 1` here, or only replacing NaN by 1 as the slash toolbar
      does, makes no difference once the clamp is applied. */
  lemma {:induction false} ParsedOrOneClampsAlike(parsed: Option<int>)
    ensures ClampRows(ParsedOrOne(parsed)) == ClampRows(if parsed.None? then 1 else parsed.value)
    ensures ClampCols(ParsedOrOne(parsed)) == ClampCols(if parsed.None? then 1 else parsed.value)
  {
  }

  /** The dialog's state; the open flag and the callbacks are its owner's. */
  class Inserter {
    var rows: int
    var cols: int

    /** The initial state: a 3 by 3 table. */
    constructor()
      ensures rows == 3 && cols == 3
    {
      rows := 3;
      cols := 3;
    }

    /** The effect run when the open flag changes: opening resets to 3 by 3. */
    method OpenChanged(isOpen: bool)
      modifies this
      ensures isOpen ==> rows == 3 && cols == 3
      ensures !isOpen ==> rows == old(rows) && cols == old(cols)
    {
      if isOpen {
        rows := 3;
        cols := 3;
      }
    }

    /** The rows input. */
    method RowsChanged(parsed: Option<int>)
      modifies this
      ensures rows == ParsedOrOne(parsed) && cols == old(cols)
    {
      rows := ParsedOrOne(parsed);
    }

    /** The columns input. */
    method ColsChanged(parsed: Option<int>)
      modifies this
      ensures cols == ParsedOrOne(parsed) && rows == old(rows)
    {
      cols := ParsedOrOne(parsed);
    }

    /** `handleSubmit`: insert a table of the clamped size, then close; values already
        in range reach the owner unchanged. */
    method HandleSubmit() returns (effects: seq<Effect>)
      ensures |effects| == 2 && effects[0].Insert? && effects[1] == Close
      ensures 1 <= effects[0].rows <= MaxRows && 1 <= effects[0].cols <= MaxCols
      ensures 1 <= rows <= MaxRows ==> effects[0].rows == rows
      ensures 1 <= cols <= MaxCols ==> effects[0].cols == cols
      ensures effects[0] == Insert(ClampRows(rows), ClampCols(cols))
    {
      var validRows := Max(1, Min(20, rows));
      var validCols := Max(1, Min(10, cols));
      effects := [Insert(validRows, validCols), Close];
    }

    /** Enter submits, Escape closes, any other key does nothing. */
    method HandleKeyDown(key: Key) returns (effects: seq<Effect>)
      ensures key == Enter ==> effects == [Insert(ClampRows(rows), ClampCols(cols)), Close]
      ensures key == Escape ==> effects == [Close]
      ensures key == OtherKey ==> effects == []
    {
      if key == Enter {
        effects := HandleSubmit();
      } else if key == Escape {
        effects := [Close];
      } else {
        effects := [];
      }
    }
  }
}
