/** The application shell: directory listings arriving from the backend are converted
    into the tree the sidebar shows, the open file's name is derived from its path, and
    the open file, its edited and saved contents and the modified flag move through
    the open, edit and save handlers. File reads and writes are given as their outcome. */
module App {
  import opened Wrappers
  import opened Strings
  import DirectoryListing

  /** A listing entry as the backend serialises it: the node its directory listing
      builds, whose `children` is optional. */
  type RustFileNode = DirectoryListing.FileNode

  /** A listing entry as the sidebar takes it; `children` is optional. */
  datatype FileNode = FileNode(name: string, path: string, isDirectory: bool, children: Children)

  datatype Children = NoChildren | Children(nodes: seq<FileNode>)

  /** `convertFileNode`: renames `is_directory` and converts the children, if any, one by one. */
  function ConvertFileNode(n: RustFileNode): (r: FileNode)
    ensures r.name == n.name && r.path == n.path && r.isDirectory == n.is_directory
    ensures r.children.Children? <==> n.children.Children?
    ensures n.children.Children? ==> |r.children.nodes| == |n.children.nodes|
    decreases n, 1
  {
    FileNode(n.name, n.path, n.is_directory,
      if n.children.Children? then Children(ConvertFileNodes(n.children.nodes)) else NoChildren)
  }

  /** `children.map(convertFileNode)`. */
  function ConvertFileNodes(ns: seq<RustFileNode>): (r: seq<FileNode>)
    ensures |r| == |ns|
    decreases ns, 0
  {
    if ns == [] then [] else [ConvertFileNode(ns[0])] + ConvertFileNodes(ns[1..])
  }

  /** The conversion backwards, field for field. */
  function ToRustFileNode(n: FileNode): RustFileNode
    decreases n, 1
  {
    DirectoryListing.FileNode(n.name, n.path, n.isDirectory,
      if n.children.Children? then DirectoryListing.Children(ToRustFileNodes(n.children.nodes)) else DirectoryListing.NoChildren)
  }

  function ToRustFileNodes(ns: seq<FileNode>): seq<RustFileNode>
    decreases ns, 0
  {
    if ns == [] then [] else [ToRustFileNode(ns[0])] + ToRustFileNodes(ns[1..])
  }

  /** The conversion loses nothing: the whole tree, every name, path, kind and child in
      its order, can be recovered from what it yields. */
  lemma {:induction false} ConvertFileNodeLossless(n: RustFileNode)
    ensures ToRustFileNode(ConvertFileNode(n)) == n
    decreases n, 1
  {
    if n.children.Children? {
      ConvertFileNodesLossless(n.children.nodes);
    }
  }

  lemma {:induction false} ConvertFileNodesLossless(ns: seq<RustFileNode>)
    ensures ToRustFileNodes(ConvertFileNodes(ns)) == ns
    decreases ns, 0
  {
    if ns != [] {
      ConvertFileNodeLossless(ns[0]);
      ConvertFileNodesLossless(ns[1..]);
      assert ConvertFileNodes(ns)[1..] == ConvertFileNodes(ns[1..]);
    }
  }

  /** Every sidebar tree is the conversion of some backend tree. */
  lemma {:induction false} ConvertFileNodeOnto(n: FileNode)
    ensures ConvertFileNode(ToRustFileNode(n)) == n
    decreases n, 1
  {
    if n.children.Children? {
      ConvertFileNodesOnto(n.children.nodes);
    }
  }

  lemma {:induction false} ConvertFileNodesOnto(ns: seq<FileNode>)
    ensures ConvertFileNodes(ToRustFileNodes(ns)) == ns
    decreases ns, 0
  {
    if ns != [] {
      ConvertFileNodeOnto(ns[0]);
      ConvertFileNodesOnto(ns[1..]);
      assert ToRustFileNodes(ns)[1..] == ToRustFileNodes(ns[1..]);
    }
  }

  /** The `i`-th converted child is the conversion of the `i`-th child. */
  lemma {:induction false} ConvertFileNodesAt(ns: seq<RustFileNode>, i: nat)
    requires i < |ns|
    ensures ConvertFileNodes(ns)[i] == ConvertFileNode(ns[i])
    decreases i
  {
    if i > 0 {
      ConvertFileNodesAt(ns[1..], i - 1);
    }
  }

  /** The tree an opened folder shows keeps its listing's order: no file comes before a
      directory. */
  lemma {:induction false} OpenedFolderDirectoriesFirst(l: DirectoryListing.Listing, lower: string -> string, i: nat, j: nat)
    requires DirectoryListing.ReadDirectory(l, lower).Ok?
    requires i < j < |DirectoryListing.ReadDirectory(l, lower).value|
    ensures var t := ConvertFileNodes(DirectoryListing.ReadDirectory(l, lower).value);
      t[j].isDirectory ==> t[i].isDirectory
  {
    var r := DirectoryListing.ReadDirectory(l, lower).value;
    DirectoryListing.ReadDirectoryOk(l, lower);
    ConvertFileNodesAt(r, i);
    ConvertFileNodesAt(r, j);
    assert DirectoryListing.ByKindThenName(lower)(r[i], r[j]) != DirectoryListing.Greater;
  }

  // ---------------------------------------------------------------------------
  // File names

  /** `getFileName`: `''` for no path or an empty one; otherwise the piece after the last
      `/` (`split('/').pop()`, see `LastPieceIsPop`), or when that is empty the piece
      after the last `\`, or `''`. */
  function GetFileName(path: Option<string>): (name: string)
    ensures path.None? || path.value == "" ==> name == ""
  {
    if path.None? || path.value == "" then ""
    else
      var p := path.value;
      if LastPiece(p, '/') != "" then LastPiece(p, '/')
      else if LastPiece(p, '\\') != "" then LastPiece(p, '\\')
      else ""
  }

  /** For a path not ending in `/`, the name is its last `/`-separated segment: a suffix
      of the path with no `/`, either the whole path or preceded by a `/`. */
  lemma {:induction false} GetFileNameSegment(p: string)
    requires p != "" && p[|p| - 1] != '/'
    ensures var name := GetFileName(Some(p));
      name != "" && |name| <= |p| && name == p[|p| - |name|..] && '/' !in name
      && (|name| == |p| || p[|p| - |name| - 1] == '/')
  {
    LastPieceNonEmpty(p, '/');
    GetFileNameSlashPiece(p);
  }

  /** A path whose last `/` piece is not empty is named by that piece. */
  lemma {:induction false} GetFileNameSlashPiece(p: string)
    requires p != "" && LastPiece(p, '/') != ""
    ensures GetFileName(Some(p)) == LastPiece(p, '/')
  {
  }

  /** A non-empty path without any `/` is its own name. */
  lemma {:induction false} GetFileNameWithoutSlash(p: string)
    requires p != "" && '/' !in p
    ensures GetFileName(Some(p)) == p
  {
  }

  /** A path ending in `/` falls back to its last `\`-separated piece, which for a path
      without `\` is the whole path. */
  lemma {:induction false} GetFileNameTrailingSlash(p: string)
    requires p != "" && p[|p| - 1] == '/'
    ensures var name := GetFileName(Some(p));
      |name| <= |p| && name == p[|p| - |name|..] && '\\' !in name
      && ('\\' !in p ==> name == p)
  {
    assert LastPiece(p, '/') == "";
    GetFileNameBackslashPiece(p);
  }

  /** A path whose last `/` piece is empty is named by its last `\` piece. */
  lemma {:induction false} GetFileNameBackslashPiece(p: string)
    requires p != "" && LastPiece(p, '/') == ""
    ensures GetFileName(Some(p)) == LastPiece(p, '\\')
  {
  }

  /** As written, a Windows path (separated by `\`, with no `/`) is shown whole: the
      `\` fallback is reached only when the `/` piece is empty. */
  lemma {:induction false} GetFileNameWindowsPath()
    ensures GetFileName(Some("C:\\docs\\a.md")) == "C:\\docs\\a.md"
  {
    GetFileNameWithoutSlash("C:\\docs\\a.md");
  }

  /** The file name taken after the last separator of either kind. */
  function FileName(path: Option<string>): (name: string)
    ensures path.None? ==> name == ""
  {
    if path.None? then "" else LastPiece(LastPiece(path.value, '/'), '\\')
  }

  /** The name is a suffix of the path holding neither separator, and it is the whole
      path or follows a separator. */
  lemma {:induction false} FileNameSegment(p: string)
    ensures var name := FileName(Some(p));
      |name| <= |p| && name == p[|p| - |name|..] && '/' !in name && '\\' !in name
      && (|name| == |p| || p[|p| - |name| - 1] == '/' || p[|p| - |name| - 1] == '\\')
  {
    SuffixOfSuffix(p, LastPiece(p, '/'), FileName(Some(p)));
  }

  /** A suffix of a suffix is a suffix, holds no character its outer suffix lacks, and
      when shorter is preceded by the character that precedes it in the outer one. */
  lemma {:induction false} SuffixOfSuffix(p: string, a: string, b: string)
    requires |a| <= |p| && a == p[|p| - |a|..]
    requires |b| <= |a| && b == a[|a| - |b|..]
    ensures |b| <= |p| && b == p[|p| - |b|..]
    ensures forall c :: c !in a ==> c !in b
    ensures |b| < |a| ==> p[|p| - |b| - 1] == a[|a| - |b| - 1]
  {
    forall c | c in b ensures c in a {
      var k :| 0 <= k < |b| && b[k] == c;
      assert a[|a| - |b| + k] == c;
    }
  }

  /** With the corrected rule a Windows path shows its last segment. */
  lemma {:induction false} FileNameWindowsPath()
    ensures FileName(Some("C:\\docs\\a.md")) == "a.md"
  {
    var p := "C:\\docs\\a.md";
    GetFileNameWindowsPath();
    assert LastPiece(p, '/') == p;
    assert p[|p| - 4..] == "a.md" && p[|p| - 5] == '\\';
    LastPieceUnique(p, '\\', "a.md");
  }

  /** On a POSIX path not ending in `/`, the corrected name agrees with the one shown. */
  lemma {:induction false} FileNameAgrees(p: string)
    requires p != "" && p[|p| - 1] != '/' && '\\' !in p
    ensures FileName(Some(p)) == GetFileName(Some(p))
  {
    var a := LastPiece(p, '/');
    assert '\\' !in a by {
      forall k | 0 <= k < |a| ensures a[k] != '\\' {
        assert a[k] == p[|p| - |a| + k];
      }
    }
  }

  // ---------------------------------------------------------------------------
  // The application's state

  class AppState {
    var files: seq<FileNode>
    var currentFile: Option<string>
    var currentContent: string
    var originalContent: string
    var isModified: bool
    var editorKey: int

    /** The modified flag says exactly whether the edited contents differ from the
        contents last read or saved. */
    predicate Valid()
      reads this
    {
      isModified <==> currentContent != originalContent
    }

    /** No files, no open file, empty contents, not modified, editor generation 0. */
    constructor ()
      ensures Valid()
      ensures files == [] && currentFile == None && currentContent == "" && originalContent == ""
      ensures !isModified && editorKey == 0
    {
      files := [];
      currentFile := None;
      currentContent := "";
      originalContent := "";
      isModified := false;
      editorKey := 0;
    }

    /** `handleContentChange`: the edited contents and whether they differ from the saved. */
    method HandleContentChange(content: string)
      modifies this
      ensures Valid()
      ensures currentContent == content && isModified == (content != originalContent)
      ensures originalContent == old(originalContent) && currentFile == old(currentFile)
      ensures files == old(files) && editorKey == old(editorKey)
    {
      currentContent := content;
      isModified := content != originalContent;
    }

    /** `handleSave`, given whether the write succeeds: with no file (or an empty path)
        nothing happens; a successful write makes the edited contents the saved ones; a
        failed write changes nothing. */
    method HandleSave(writeSucceeds: bool)
      requires Valid()
      modifies this
      ensures Valid()
      ensures if (currentFile.Some? && currentFile.value != "") && writeSucceeds
        then originalContent == old(currentContent) && !isModified
        else originalContent == old(originalContent) && isModified == old(isModified)
      ensures currentContent == old(currentContent) && currentFile == old(currentFile)
      ensures files == old(files) && editorKey == old(editorKey)
    {
      var file := currentFile;
      var content := currentContent;
      if file.None? || file.value == "" {
        return;
      }
      if writeSucceeds {
        originalContent := content;
        isModified := false;
      }
    }

    /** `handleFileSelect(path)`, given the user's answer to the save prompt, whether that
        save's write succeeds, and what reading the file yields: unsaved changes are saved
        first when the user agrees; a successful read opens the file fresh in a new editor
        generation; a failed read leaves the state as the save step left it. */
    method HandleFileSelect(path: string, confirmSave: bool, writeSucceeds: bool, read: Option<string>)
      requires Valid()
      modifies this
      ensures Valid()
      ensures read.Some? ==>
        currentFile == Some(path) && currentContent == read.value && originalContent == read.value
        && !isModified && editorKey == old(editorKey) + 1
      ensures read.None? ==>
        currentFile == old(currentFile) && currentContent == old(currentContent) && editorKey == old(editorKey)
        && (if old(isModified) && confirmSave && old(currentFile).Some? && old(currentFile).value != "" && writeSucceeds
            then originalContent == old(currentContent) && !isModified
            else originalContent == old(originalContent) && isModified == old(isModified))
      ensures files == old(files)
    {
      if isModified {
        if confirmSave {
          HandleSave(writeSucceeds);
        }
      }
      if read.Some? {
        var content := read.value;
        currentFile := Some(path);
        currentContent := content;
        originalContent := content;
        isModified := false;
        editorKey := editorKey + 1;
      }
    }

    /** `handleOpenFolder`, given the folder the dialog returns and what the backend's
        `read_directory` answers for it (`DirectoryListing.ReadDirectory` of that folder):
        a listing of a chosen folder replaces the file tree; no choice, an empty path or a
        failed listing changes nothing. */
    method HandleOpenFolder(selected: Option<string>, listing: Result<seq<RustFileNode>, string>)
      requires Valid()
      modifies this
      ensures Valid()
      ensures if selected.Some? && selected.value != "" && listing.Ok?
        then files == ConvertFileNodes(listing.value) else files == old(files)
      ensures currentFile == old(currentFile) && currentContent == old(currentContent)
      ensures originalContent == old(originalContent) && isModified == old(isModified) && editorKey == old(editorKey)
    {
      if selected.Some? && selected.value != "" {
        if listing.Ok? {
          files := ConvertFileNodes(listing.value);
        }
      }
    }
  }
}
