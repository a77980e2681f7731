/** The JavaScript array operations the table code uses, with their exact index
    semantics: `splice` clamps its start into the array and counts a negative
    start back from the end; `filter` by index drops at most one element. */
module JsArrays {

  /** The position `a.splice(start, …)` acts on, for an array of length `len`. */
  function SpliceStart(start: int, len: nat): (k: nat)
    ensures k <= len
    ensures 0 <= start <= len ==> k == start
  {
    if start < 0 then (if len + start < 0 then 0 else len + start)
    else if start > len then len
    else start
  }

  /** The array after `a.splice(start, 0, x)`. */
  function InsertAt<T>(a: seq<T>, start: int, x: T): (r: seq<T>)
    ensures |r| == |a| + 1
    ensures var k := SpliceStart(start, |a|);
      forall j :: 0 <= j < |r| ==> r[j] == if j < k then a[j] else if j == k then x else a[j - 1]
  {
    var k := SpliceStart(start, |a|);
    a[..k] + [x] + a[k..]
  }

  /** The array after `a.splice(start, 1)`: one element fewer when the clamped start
      is inside the array, otherwise the same array. */
  function RemoveAt<T>(a: seq<T>, start: int): (r: seq<T>)
    ensures var k := SpliceStart(start, |a|);
      if k < |a| then |r| == |a| - 1 && forall j :: 0 <= j < |r| ==> r[j] == if j < k then a[j] else a[j + 1]
      else r == a
  {
    var k := SpliceStart(start, |a|);
    if k < |a| then a[..k] + a[k + 1..] else a
  }

  /** Inserting at a position inside the array puts `x` there, keeps what comes before
      and shifts what comes after by one. */
  lemma {:induction false} InsertAtParts<T>(a: seq<T>, k: int, x: T)
    requires 0 <= k <= |a|
    ensures k < |InsertAt(a, k, x)| && InsertAt(a, k, x)[k] == x
    ensures InsertAt(a, k, x)[..k] == a[..k] && InsertAt(a, k, x)[k + 1..] == a[k..]
  {
    assert InsertAt(a, k, x) == a[..k] + [x] + a[k..];
  }

  /** Inserting at `i + 1` past a first element is inserting at `i` into the rest. */
  lemma {:induction false} InsertAtTail<T>(a: seq<T>, i: int, x: T)
    requires 0 <= i < |a|
    ensures InsertAt(a, i + 1, x)[0] == a[0]
    ensures InsertAt(a, i + 1, x)[1..] == InsertAt(a[1..], i, x)
  {
  }

  /** `a.filter((_, idx) => idx !== i)`, element by element. */
  function FilterIndex<T>(a: seq<T>, i: int): (r: seq<T>)
    ensures 0 <= i < |a| ==> r == a[..i] + a[i + 1..]
    ensures !(0 <= i < |a|) ==> r == a
  {
    if a == [] then []
    else
      var rest := FilterIndex(a[1..], i - 1);
      assert a == [a[0]] + a[1..];
      assert 0 < i < |a| ==> a[1..][..i - 1] + a[1..][i..] == a[1..i] + a[i + 1..];
      (if i == 0 then [] else [a[0]]) + rest
  }

  /** `a.map(f)`. */
  function Map<A, B>(a: seq<A>, f: A -> B): (r: seq<B>)
    ensures |r| == |a| && forall j :: 0 <= j < |a| ==> r[j] == f(a[j])
  {
    seq(|a|, j requires 0 <= j < |a| => f(a[j]))
  }

  /** Mapping after a `splice` insertion is the `splice` insertion of the mapped value. */
  lemma {:induction false} MapInsertAt<A, B>(a: seq<A>, start: int, x: A, f: A -> B)
    ensures Map(InsertAt(a, start, x), f) == InsertAt(Map(a, f), start, f(x))
  {
  }

  /** Mapping after a `splice` removal is the `splice` removal of the mapped array. */
  lemma {:induction false} MapRemoveAt<A, B>(a: seq<A>, start: int, f: A -> B)
    ensures Map(RemoveAt(a, start), f) == RemoveAt(Map(a, f), start)
  {
  }

  /** Mapping an array with one more element at the end appends its image. */
  lemma {:induction false} MapSnoc<A, B>(a: seq<A>, x: A, f: A -> B)
    ensures Map(a + [x], f) == Map(a, f) + [f(x)]
  {
  }
}
