/** The backend's directory listing: every entry of a directory becomes a node, a
    sub-directory is read recursively (an unreadable one gets no children), and the
    entries are sorted directories first, then by lower-cased name. The file system is
    given as data: what reading a directory, an entry and its metadata reports. */
module DirectoryListing {
  import opened Wrappers

  /** A listing node; a directory carries its children, a file carries none. */
  datatype FileNode = FileNode(name: string, path: string, is_directory: bool, children: Children)

  datatype Children = NoChildren | Children(nodes: seq<FileNode>)

  /** What reading a directory reports: an error, or its entries in the order given. */
  datatype Listing = ReadDirFailed(error: string) | Listing(entries: seq<Entry>)

  /** One entry: an error, or its file name, full path and metadata. */
  datatype Entry = EntryFailed(error: string) | Entry(name: string, path: string, metadata: Metadata)

  /** An entry's metadata: an error, a file, or a directory with what reading it reports. */
  datatype Metadata = MetadataFailed(error: string) | File | Dir(contents: Listing)

  // ---------------------------------------------------------------------------
  // The order

  datatype Ordering = Less | Equal | Greater

  function Flip(o: Ordering): Ordering {
    match o
    case Less => Greater
    case Equal => Equal
    case Greater => Less
  }

  /** `str::cmp`: lexicographic by code point (the order of the UTF-8 bytes). */
  function CompareStrings(a: string, b: string): Ordering {
    if a == [] then (if b == [] then Equal else Less)
    else if b == [] then Greater
    else if a[0] < b[0] then Less
    else if a[0] > b[0] then Greater
    else CompareStrings(a[1..], b[1..])
  }

  lemma {:induction false} CompareStringsEqual(a: string, b: string)
    ensures CompareStrings(a, b) == Equal <==> a == b
  {
    if a != [] && b != [] && a[0] == b[0] {
      CompareStringsEqual(a[1..], b[1..]);
      assert a == [a[0]] + a[1..] && b == [b[0]] + b[1..];
    }
  }

  lemma {:induction false} CompareStringsFlip(a: string, b: string)
    ensures CompareStrings(b, a) == Flip(CompareStrings(a, b))
  {
    if a != [] && b != [] && a[0] == b[0] {
      CompareStringsFlip(a[1..], b[1..]);
    }
  }

  lemma {:induction false} CompareStringsTransitive(a: string, b: string, c: string)
    requires CompareStrings(a, b) != Greater && CompareStrings(b, c) != Greater
    ensures CompareStrings(a, c) != Greater
  {
    if a != [] && b != [] && c != [] && a[0] == b[0] && b[0] == c[0] {
      CompareStringsTransitive(a[1..], b[1..], c[1..]);
    }
  }

  /** The `sort_by` comparator: a directory before a file, a file after a directory, and
      otherwise the lower-cased names compared; `lower` is `to_lowercase`. */
  function Compare(a: FileNode, b: FileNode, lower: string -> string): Ordering {
    match (a.is_directory, b.is_directory)
    case (true, false) => Less
    case (false, true) => Greater
    case _ => CompareStrings(lower(a.name), lower(b.name))
  }

  /** Two nodes compare equal exactly when they are of the same kind with the same
      lower-cased name. */
  lemma {:induction false} CompareEqual(a: FileNode, b: FileNode, lower: string -> string)
    ensures Compare(a, b, lower) == Equal <==> a.is_directory == b.is_directory && lower(a.name) == lower(b.name)
  {
    CompareStringsEqual(lower(a.name), lower(b.name));
  }

  /** Swapping the arguments flips the answer. */
  lemma {:induction false} CompareFlip(a: FileNode, b: FileNode, lower: string -> string)
    ensures Compare(b, a, lower) == Flip(Compare(a, b, lower))
  {
    CompareStringsFlip(lower(a.name), lower(b.name));
  }

  /** "Not after" is transitive. */
  lemma {:induction false} CompareTransitive(a: FileNode, b: FileNode, c: FileNode, lower: string -> string)
    requires Compare(a, b, lower) != Greater && Compare(b, c, lower) != Greater
    ensures Compare(a, c, lower) != Greater
  {
    if a.is_directory == b.is_directory == c.is_directory {
      CompareStringsTransitive(lower(a.name), lower(b.name), lower(c.name));
    }
  }

  // ---------------------------------------------------------------------------
  // The stable sort

  /** What `sort_by` expects of its comparator: swapping the arguments flips the
      answer, and "not after" is transitive. */
  ghost predicate TotalPreorder<T(!new)>(cmp: (T, T) -> Ordering) {
    (forall a, b :: cmp(b, a) == Flip(cmp(a, b)))
    && (forall a, b, c :: cmp(a, b) != Greater && cmp(b, c) != Greater ==> cmp(a, c) != Greater)
  }

  /** The comparator the listing is sorted with. */
  function ByKindThenName(lower: string -> string): (FileNode, FileNode) -> Ordering {
    (a: FileNode, b: FileNode) => Compare(a, b, lower)
  }

  /** The listing's comparator is one `sort_by` can use. */
  lemma {:induction false} ByKindThenNameIsTotalPreorder(lower: string -> string)
    ensures TotalPreorder(ByKindThenName(lower))
  {
    var cmp := ByKindThenName(lower);
    forall a, b ensures cmp(b, a) == Flip(cmp(a, b)) {
      CompareFlip(a, b, lower);
    }
    forall a, b, c | cmp(a, b) != Greater && cmp(b, c) != Greater ensures cmp(a, c) != Greater {
      CompareTransitive(a, b, c, lower);
    }
  }

  /** No element comes after a later one. */
  ghost predicate Sorted<T>(s: seq<T>, cmp: (T, T) -> Ordering) {
    forall i, j :: 0 <= i < j < |s| ==> cmp(s[i], s[j]) != Greater
  }

  /** `x` placed after every element that does not come after it. */
  function Insert<T>(x: T, s: seq<T>, cmp: (T, T) -> Ordering): (r: seq<T>)
    ensures multiset(r) == multiset(s) + multiset{x}
  {
    if s == [] then [x]
    else if cmp(s[0], x) == Greater then [x] + s
    else
      assert s == [s[0]] + s[1..];
      [s[0]] + Insert(x, s[1..], cmp)
  }

  /** `sort_by`: a stable sort, here by inserting each element in turn. */
  function SortBy<T>(s: seq<T>, cmp: (T, T) -> Ordering): (r: seq<T>)
    ensures multiset(r) == multiset(s)
  {
    if s == [] then []
    else
      assert s == s[..|s| - 1] + [s[|s| - 1]];
      Insert(s[|s| - 1], SortBy(s[..|s| - 1], cmp), cmp)
  }

  /** Every element of `t` is in `s` when `t` is `s` with `x` added. */
  lemma {:induction false} MemberOfInsert<T>(x: T, s: seq<T>, cmp: (T, T) -> Ordering, j: int)
    requires 0 <= j < |Insert(x, s, cmp)|
    ensures Insert(x, s, cmp)[j] == x || exists k :: 0 <= k < |s| && s[k] == Insert(x, s, cmp)[j]
  {
    var t := Insert(x, s, cmp);
    assert t[j] in multiset(t);
    if t[j] != x {
      assert t[j] in multiset(s);
      assert t[j] in s;
    }
  }

  lemma {:induction false} InsertSorted<T(!new)>(x: T, s: seq<T>, cmp: (T, T) -> Ordering)
    requires TotalPreorder(cmp)
    requires Sorted(s, cmp)
    ensures Sorted(Insert(x, s, cmp), cmp)
  {
    if s == [] {
    } else if cmp(s[0], x) == Greater {
      var r := [x] + s;
      assert cmp(x, s[0]) == Flip(cmp(s[0], x));
      forall i, j | 0 <= i < j < |r| ensures cmp(r[i], r[j]) != Greater {
        if i > 0 {
          assert r[i] == s[i - 1] && r[j] == s[j - 1];
        } else if j > 1 {
          assert cmp(s[0], s[j - 1]) != Greater;
        }
      }
    } else {
      var t := Insert(x, s[1..], cmp);
      InsertSorted(x, s[1..], cmp);
      forall j | 0 <= j < |t| ensures cmp(s[0], t[j]) != Greater {
        MemberOfInsert(x, s[1..], cmp, j);
        if t[j] != x {
          var k :| 0 <= k < |s[1..]| && s[1..][k] == t[j];
          assert s[k + 1] == t[j];
        }
      }
      var r := [s[0]] + t;
      forall i, j | 0 <= i < j < |r| ensures cmp(r[i], r[j]) != Greater {
        if i > 0 {
          assert r[i] == t[i - 1] && r[j] == t[j - 1];
        } else {
          assert r[j] == t[j - 1];
        }
      }
    }
  }

  /** The sort yields a sorted permutation of its input. */
  lemma {:induction false} SortBySorted<T(!new)>(s: seq<T>, cmp: (T, T) -> Ordering)
    requires TotalPreorder(cmp)
    ensures Sorted(SortBy(s, cmp), cmp)
    ensures multiset(SortBy(s, cmp)) == multiset(s)
  {
    if s != [] {
      SortBySorted(s[..|s| - 1], cmp);
      InsertSorted(s[|s| - 1], SortBy(s[..|s| - 1], cmp), cmp);
    }
  }

  /** The elements of `s` that compare equal to `x`, in the order of `s`. */
  function SameKey<T>(s: seq<T>, x: T, cmp: (T, T) -> Ordering): (r: seq<T>)
    ensures |r| <= |s|
  {
    if s == [] then [] else (if cmp(s[0], x) == Equal then [s[0]] else []) + SameKey(s[1..], x, cmp)
  }

  lemma {:induction false} SameKeyAppend<T>(a: seq<T>, b: seq<T>, x: T, cmp: (T, T) -> Ordering)
    ensures SameKey(a + b, x, cmp) == SameKey(a, x, cmp) + SameKey(b, x, cmp)
  {
    if a == [] {
      assert a + b == b;
    } else {
      assert (a + b)[0] == a[0] && (a + b)[1..] == a[1..] + b;
      SameKeyAppend(a[1..], b, x, cmp);
      var h := if cmp(a[0], x) == Equal then [a[0]] else [];
      assert h + (SameKey(a[1..], x, cmp) + SameKey(b, x, cmp)) == (h + SameKey(a[1..], x, cmp)) + SameKey(b, x, cmp);
    }
  }

  /** Nothing in a list whose every element comes after `y` has the key of `y`. */
  lemma {:induction false} SameKeyAfter<T(!new)>(t: seq<T>, y: T, x: T, cmp: (T, T) -> Ordering)
    requires TotalPreorder(cmp)
    requires forall j :: 0 <= j < |t| ==> cmp(t[j], y) == Greater
    requires cmp(y, x) == Equal
    ensures SameKey(t, x, cmp) == []
  {
    if t != [] {
      assert cmp(x, y) == Flip(cmp(y, x));
      SameKeyAfter(t[1..], y, x, cmp);
    }
  }

  /** When the first element of a sorted list comes after `y`, all of them do. */
  lemma {:induction false} AllAfter<T(!new)>(y: T, t: seq<T>, cmp: (T, T) -> Ordering)
    requires TotalPreorder(cmp)
    requires Sorted(t, cmp)
    requires t != [] && cmp(t[0], y) == Greater
    ensures forall j :: 0 <= j < |t| ==> cmp(t[j], y) == Greater
  {
    forall j | 0 < j < |t| ensures cmp(t[j], y) == Greater {
      assert cmp(y, t[j]) == Flip(cmp(t[j], y));
      assert cmp(t[0], t[j]) != Greater;
    }
  }

  /** Inserting `y` into a sorted list puts it after every element of the same key. */
  lemma {:induction false} InsertSameKey<T(!new)>(y: T, t: seq<T>, x: T, cmp: (T, T) -> Ordering)
    requires TotalPreorder(cmp)
    requires Sorted(t, cmp)
    ensures SameKey(Insert(y, t, cmp), x, cmp)
      == SameKey(t, x, cmp) + (if cmp(y, x) == Equal then [y] else [])
  {
    if t == [] {
      assert [y][1..] == [];
    } else if cmp(t[0], y) == Greater {
      InsertSameKeyFront(y, t, x, cmp);
    } else {
      var rest := Insert(y, t[1..], cmp);
      InsertSameKey(y, t[1..], x, cmp);
      assert Insert(y, t, cmp) == [t[0]] + rest;
      InsertSameKeyBehind(t[0], rest, t[1..], y, x, cmp);
      assert t == [t[0]] + t[1..];
    }
  }

  /** The key's run of `[h] + rest`, when that of `rest` is the run of `u` and then
      maybe `y`. */
  lemma {:induction false} InsertSameKeyBehind<T>(h: T, rest: seq<T>, u: seq<T>, y: T, x: T, cmp: (T, T) -> Ordering)
    requires SameKey(rest, x, cmp) == SameKey(u, x, cmp) + (if cmp(y, x) == Equal then [y] else [])
    ensures SameKey([h] + rest, x, cmp) == SameKey([h] + u, x, cmp) + (if cmp(y, x) == Equal then [y] else [])
  {
    var k: seq<T> := if cmp(h, x) == Equal then [h] else [];
    var e: seq<T> := if cmp(y, x) == Equal then [y] else [];
    assert ([h] + rest)[1..] == rest;
    assert ([h] + u)[1..] == u;
    assert SameKey([h] + rest, x, cmp) == k + SameKey(rest, x, cmp);
    assert SameKey([h] + u, x, cmp) == k + SameKey(u, x, cmp);
    assert k + (SameKey(u, x, cmp) + e) == (k + SameKey(u, x, cmp)) + e;
  }

  lemma {:induction false} InsertSameKeyFront<T(!new)>(y: T, t: seq<T>, x: T, cmp: (T, T) -> Ordering)
    requires TotalPreorder(cmp)
    requires Sorted(t, cmp)
    requires t != [] && cmp(t[0], y) == Greater
    ensures SameKey([y] + t, x, cmp) == SameKey(t, x, cmp) + (if cmp(y, x) == Equal then [y] else [])
  {
    assert ([y] + t)[1..] == t;
    if cmp(y, x) == Equal {
      AllAfter(y, t, cmp);
      SameKeyAfter(t, y, x, cmp);
    }
  }

  /** Sorting one more element adds it, or nothing, at the end of its key's run. */
  lemma {:induction false} StableStep<T(!new)>(s: seq<T>, x: T, cmp: (T, T) -> Ordering)
    requires TotalPreorder(cmp)
    requires s != []
    ensures SameKey(SortBy(s, cmp), x, cmp)
      == SameKey(SortBy(s[..|s| - 1], cmp), x, cmp) + (if cmp(s[|s| - 1], x) == Equal then [s[|s| - 1]] else [])
  {
    SortBySorted(s[..|s| - 1], cmp);
    InsertSameKey(s[|s| - 1], SortBy(s[..|s| - 1], cmp), x, cmp);
  }

  /** The sort is stable: the elements of any one key keep their relative order. */
  lemma {:induction false} SortByStable<T(!new)>(s: seq<T>, x: T, cmp: (T, T) -> Ordering)
    requires TotalPreorder(cmp)
    ensures SameKey(SortBy(s, cmp), x, cmp) == SameKey(s, x, cmp)
  {
    if s != [] {
      var init := s[..|s| - 1];
      StableStep(s, x, cmp);
      SortByStable(init, x, cmp);
      SameKeySnoc(init, s[|s| - 1], x, cmp);
      SplitLast(s);
    }
  }

  lemma {:induction false} SplitLast<T>(s: seq<T>)
    requires s != []
    ensures s == s[..|s| - 1] + [s[|s| - 1]]
  {
  }

  lemma {:induction false} SameKeySnoc<T>(init: seq<T>, last: T, x: T, cmp: (T, T) -> Ordering)
    ensures SameKey(init + [last], x, cmp) == SameKey(init, x, cmp) + (if cmp(last, x) == Equal then [last] else [])
  {
    var e: seq<T> := if cmp(last, x) == Equal then [last] else [];
    SameKeyAppend(init, [last], x, cmp);
    assert [last][1..] == [];
    assert SameKey([last], x, cmp) == e + [];
  }

  /** In a listing sorted by kind then name every directory comes before every file,
      and nodes of one kind are in order of their lower-cased names. */
  lemma {:induction false} SortedDirectoriesFirst(s: seq<FileNode>, lower: string -> string)
    requires Sorted(s, ByKindThenName(lower))
    ensures forall i, j :: 0 <= i < j < |s| && !s[i].is_directory ==> !s[j].is_directory
    ensures forall i, j :: 0 <= i < j < |s| && s[i].is_directory == s[j].is_directory ==>
      CompareStrings(lower(s[i].name), lower(s[j].name)) != Greater
  {
    forall i, j | 0 <= i < j < |s| ensures !s[i].is_directory ==> !s[j].is_directory {
      assert ByKindThenName(lower)(s[i], s[j]) != Greater;
    }
    forall i, j | 0 <= i < j < |s| && s[i].is_directory == s[j].is_directory
      ensures CompareStrings(lower(s[i].name), lower(s[j].name)) != Greater
    {
      assert ByKindThenName(lower)(s[i], s[j]) != Greater;
    }
  }

  // ---------------------------------------------------------------------------
  // Reading a directory

  /** What an entry reports as an error, if anything: its own error or its metadata's. */
  function Failure(e: Entry): Option<string> {
    if e.EntryFailed? then Some(e.error)
    else if e.metadata.MetadataFailed? then Some(e.metadata.error)
    else None
  }

  /** The node of an entry that reads: a file with no children, or a directory with the
      nodes of its contents, or with no nodes when they cannot be read. */
  function NodeOf(e: Entry, lower: string -> string): (n: FileNode)
    requires Failure(e).None?
    ensures n.name == e.name && n.path == e.path && n.is_directory == e.metadata.Dir?
    ensures n.is_directory <==> n.children.Children?
    ensures e.metadata.Dir? && ReadDirectory(e.metadata.contents, lower).Err? ==> n.children.nodes == []
    ensures e.metadata.Dir? && ReadDirectory(e.metadata.contents, lower).Ok? ==>
      n.children.nodes == ReadDirectory(e.metadata.contents, lower).value
    decreases e, 0
  {
    if e.metadata.Dir? then
      var sub := ReadDirectory(e.metadata.contents, lower);
      FileNode(e.name, e.path, true, Children(if sub.Ok? then sub.value else []))
    else FileNode(e.name, e.path, false, NoChildren)
  }

  /** The nodes of the entries in listing order, or the error of the first entry that
      fails. */
  function Collect(es: seq<Entry>, lower: string -> string): (r: Result<seq<FileNode>, string>)
    ensures r.Ok? ==> |r.value| == |es|
    decreases es, 1
  {
    if es == [] then Ok([])
    else if Failure(es[0]).Some? then Err(Failure(es[0]).value)
    else
      var rest := Collect(es[1..], lower);
      if rest.Err? then rest else Ok([NodeOf(es[0], lower)] + rest.value)
  }

  /** What `read_directory_sync` returns for a directory. */
  function ReadDirectory(l: Listing, lower: string -> string): Result<seq<FileNode>, string>
    decreases l, 2
  {
    if l.ReadDirFailed? then Err(l.error)
    else
      var c := Collect(l.entries, lower);
      if c.Err? then Err(c.error) else Ok(SortBy(c.value, ByKindThenName(lower)))
  }

  lemma {:induction false} CollectAppend(a: seq<Entry>, b: seq<Entry>, lower: string -> string)
    ensures Collect(a + b, lower) ==
      if Collect(a, lower).Err? then Collect(a, lower)
      else if Collect(b, lower).Err? then Collect(b, lower)
      else Ok(Collect(a, lower).value + Collect(b, lower).value)
  {
    if a == [] {
      assert a + b == b;
      assert Collect(a, lower) == Ok([]);
      if Collect(b, lower).Ok? {
        assert [] + Collect(b, lower).value == Collect(b, lower).value;
      }
    } else {
      assert (a + b)[0] == a[0] && (a + b)[1..] == a[1..] + b;
      CollectAppend(a[1..], b, lower);
      if Failure(a[0]).None? && Collect(a[1..], lower).Ok? && Collect(b, lower).Ok? {
        var n := NodeOf(a[0], lower);
        assert [n] + (Collect(a[1..], lower).value + Collect(b, lower).value)
          == ([n] + Collect(a[1..], lower).value) + Collect(b, lower).value;
      }
    }
  }

  /** `read_directory_sync`: the entries in turn, aborting on the first error, a
      recursive read for each directory, and the sort at the end. */
  method ReadDirectorySync(listing: Listing, lower: string -> string) returns (r: Result<seq<FileNode>, string>)
    ensures r == ReadDirectory(listing, lower)
    decreases listing
  {
    if listing.ReadDirFailed? {
      return Err(listing.error);
    }
    var dir := listing.entries;
    var entries: seq<FileNode> := [];
    var i := 0;
    while i < |dir|
      invariant 0 <= i <= |dir|
      invariant Collect(dir[..i], lower) == Ok(entries)
    {
      var entry := dir[i];
      assert dir[..i + 1] == dir[..i] + [entry];
      assert dir == dir[..i + 1] + dir[i + 1..];
      CollectAppend(dir[..i], [entry], lower);
      assert [entry][1..] == [];
      CollectAppend(dir[..i + 1], dir[i + 1..], lower);
      if entry.EntryFailed? {
        return Err(entry.error);
      }
      if entry.metadata.MetadataFailed? {
        return Err(entry.metadata.error);
      }
      var isDirectory := entry.metadata.Dir?;
      var node := FileNode(entry.name, entry.path, isDirectory, NoChildren);
      if isDirectory {
        assert entry in dir;
        var sub := ReadDirectorySync(entry.metadata.contents, lower);
        match sub
        case Ok(children) => node := node.(children := Children(children));
        case Err(_) => node := node.(children := Children([]));
      }
      assert node == NodeOf(entry, lower);
      assert Collect([entry][1..], lower) == Ok([]);
      assert Collect([entry], lower) == Ok([node] + []);
      assert [node] + [] == [node];
      assert Collect(dir[..i] + [entry], lower) == Ok(entries + [node]);
      assert Collect(dir[..i + 1], lower) == Ok(entries + [node]);
      entries := entries + [node];
      i := i + 1;
    }
    assert dir[..i] == dir;
    entries := SortBy(entries, ByKindThenName(lower));
    r := Ok(entries);
  }

  /** A directory that cannot be read, or an entry or metadata that fails, makes the whole
      read fail with the first such error; when nothing fails the read succeeds. */
  lemma {:induction false} CollectFails(es: seq<Entry>, lower: string -> string)
    ensures Collect(es, lower).Err? <==> exists i :: 0 <= i < |es| && Failure(es[i]).Some?
    ensures Collect(es, lower).Err? ==>
      exists i :: 0 <= i < |es| && Failure(es[i]) == Some(Collect(es, lower).error)
        && forall j :: 0 <= j < i ==> Failure(es[j]).None?
    decreases es
  {
    if es != [] {
      CollectFails(es[1..], lower);
      if Failure(es[0]).None? && Collect(es[1..], lower).Err? {
        var i :| 0 <= i < |es[1..]| && Failure(es[1..][i]) == Some(Collect(es[1..], lower).error)
          && forall j :: 0 <= j < i ==> Failure(es[1..][j]).None?;
        assert Failure(es[i + 1]) == Some(Collect(es, lower).error);
        assert forall j :: 1 <= j < i + 1 ==> es[j] == es[1..][j - 1];
      }
      if exists i :: 0 <= i < |es| && Failure(es[i]).Some? {
        var i :| 0 <= i < |es| && Failure(es[i]).Some?;
        if i > 0 {
          assert Failure(es[1..][i - 1]).Some?;
        }
      }
    }
  }

  lemma {:induction false} CollectNodes(es: seq<Entry>, lower: string -> string)
    requires Collect(es, lower).Ok?
    ensures forall i :: 0 <= i < |es| ==> Failure(es[i]).None? && Collect(es, lower).value[i] == NodeOf(es[i], lower)
    decreases es
  {
    if es != [] {
      CollectNodes(es[1..], lower);
      forall i | 1 <= i < |es| ensures es[i] == es[1..][i - 1] {
      }
    }
  }

  /** The nodes of entries none of which fails, in listing order. */
  function EntryNodes(es: seq<Entry>, lower: string -> string): (r: seq<FileNode>)
    requires forall i :: 0 <= i < |es| ==> Failure(es[i]).None?
    ensures |r| == |es| && forall i :: 0 <= i < |es| ==> r[i] == NodeOf(es[i], lower)
  {
    seq(|es|, i requires 0 <= i < |es| => NodeOf(es[i], lower))
  }

  /** A read fails exactly when the directory cannot be read or one of its entries fails,
      and then with the error of the first failure. */
  lemma {:induction false} ReadDirectoryErr(l: Listing, lower: string -> string)
    ensures ReadDirectory(l, lower).Err? <==>
      l.ReadDirFailed? || exists i :: 0 <= i < |l.entries| && Failure(l.entries[i]).Some?
    ensures l.ReadDirFailed? ==> ReadDirectory(l, lower) == Err(l.error)
    ensures l.Listing? && ReadDirectory(l, lower).Err? ==>
      exists i :: 0 <= i < |l.entries| && Failure(l.entries[i]) == Some(ReadDirectory(l, lower).error)
        && forall j :: 0 <= j < i ==> Failure(l.entries[j]).None?
  {
    if l.Listing? {
      CollectFails(l.entries, lower);
    }
  }

  /** A successful read yields the node of every entry (a file with no children, a
      directory with children), sorted directories first and then by lower-cased name,
      with nodes of the same kind and lower-cased name in listing order. */
  lemma {:induction false} ReadDirectoryOk(l: Listing, lower: string -> string)
    requires ReadDirectory(l, lower).Ok?
    ensures l.Listing? && forall i :: 0 <= i < |l.entries| ==> Failure(l.entries[i]).None?
    ensures var r := ReadDirectory(l, lower).value;
      var nodes := EntryNodes(l.entries, lower);
      var cmp := ByKindThenName(lower);
      multiset(r) == multiset(nodes)
      && Sorted(r, cmp)
      && (forall x :: SameKey(r, x, cmp) == SameKey(nodes, x, cmp))
      && (forall k :: 0 <= k < |r| ==> (r[k].is_directory <==> r[k].children.Children?))
  {
    var cmp := ByKindThenName(lower);
    var c := Collect(l.entries, lower).value;
    CollectNodes(l.entries, lower);
    assert c == EntryNodes(l.entries, lower);
    ByKindThenNameIsTotalPreorder(lower);
    SortBySorted(c, cmp);
    forall x ensures SameKey(SortBy(c, cmp), x, cmp) == SameKey(c, x, cmp) {
      SortByStable(c, x, cmp);
    }
    var r := SortBy(c, cmp);
    forall k | 0 <= k < |r| ensures r[k].is_directory <==> r[k].children.Children? {
      assert r[k] in multiset(c);
    }
  }
}
