/** The size clamp both table-insertion dialogs apply before inserting: rows into
    1..20 and columns into 1..10, as `Math.max(1, Math.min(hi, v))`. */
module TableSize {

  const MaxRows: int := 20
  const MaxCols: int := 10

  function Min(a: int, b: int): int { if a <= b then a else b }

  function Max(a: int, b: int): int { if a >= b then a else b }

  /** `Math.max(1, Math.min(hi, v))`. */
  function Clamp(v: int, hi: int): (r: int)
    requires 1 <= hi
    ensures 1 <= r <= hi
    ensures 1 <= v <= hi ==> r == v
    ensures v < 1 ==> r == 1
    ensures v > hi ==> r == hi
  {
    Max(1, Min(hi, v))
  }

  function ClampRows(v: int): (r: int)
    ensures 1 <= r <= MaxRows
    ensures 1 <= v <= MaxRows ==> r == v
  {
    Clamp(v, MaxRows)
  }

  function ClampCols(v: int): (r: int)
    ensures 1 <= r <= MaxCols
    ensures 1 <= v <= MaxCols ==> r == v
  {
    Clamp(v, MaxCols)
  }

  /** Clamping twice is clamping once, and the clamp keeps the order of its inputs. */
  lemma {:induction false} ClampIdempotentMonotone(v: int, w: int, hi: int)
    requires 1 <= hi
    ensures Clamp(Clamp(v, hi), hi) == Clamp(v, hi)
    ensures v <= w ==> Clamp(v, hi) <= Clamp(w, hi)
  {
  }
}
