/**
  The abstract view of the VFS tree: every node keyed by its path of segments
  from the root, with its kind and content. `Add` is what one `_add_node`
  call does to that view and `Walk` is its loop from segment `i`;
  `ChangeDirectory` is the state machine of `cd` over the working-directory
  path.
 */
module TreeSpec {
  import opened Wrappers
  import opened Paths

  /** A node's position: the segments from the root (the root is `[]`). */
  type Path = seq<string>

  /** `VFSNode.type`: `"dir"` or `"file"`. */
  datatype Kind = Dir | File

  /** What a node holds besides its children: `content` is `None` for directories. */
  datatype Entry = Entry(kind: Kind, content: Option<string>)

  const DirEntry: Entry := Entry(Dir, None)

  function FileEntry(data: string): Entry { Entry(File, Some(data)) }

  /** The whole tree: the entry of every node, keyed by its path. */
  type Tree = map<Path, Entry>

  /** The tree `init_default` builds: the directory `/` alone. */
  function Empty(): Tree { map[[] := DirEntry] }

  /** Every segment of the path is a proper node name. */
  predicate ProperPath(p: Path)
  {
    forall k :: 0 <= k < |p| ==> IsSegment(p[k])
  }

  /** The parent's path. */
  function Parent(p: Path): Path
    requires p != []
  {
    p[..|p| - 1]
  }

  /**
    A tree as the VFS keeps it: the root is a directory, every node's parent
    is present (so every node is reachable from the root) and every name is a
    proper segment.
   */
  predicate WellFormed(t: Tree)
  {
    && [] in t && t[[]] == DirEntry
    && (forall p | p in t :: ProperPath(p))
    && (forall p | p in t && p != [] :: Parent(p) in t)
  }

  /**
    The node created for the last segment when it is absent: `None` when the
    file content cannot be decoded (Base64 and UTF-8 decoding is the
    `decode` parameter). Any type other than `"file"` makes a directory.
   */
  function Leaf(nodeType: string, content: string, decode: string -> Option<string>): Option<Entry>
  {
    if nodeType == "file" then
      if content == "" then Some(FileEntry(""))
      else match decode(content)
        case None => None
        case Some(data) => Some(FileEntry(data))
    else Some(DirEntry)
  }

  /**
    The loop of `_add_node` from segment `i` on: an absent segment before the
    last becomes a directory, an absent last segment becomes `leaf`, a present
    one is left as it is and walked into. The flag is false when the leaf was
    needed and could not be decoded; the intermediate directories stay.
   */
  function Walk(t: Tree, parts: Path, i: nat, leaf: Option<Entry>): (Tree, bool)
    requires i <= |parts|
    decreases |parts| - i
  {
    if i == |parts| then (t, true)
    else if parts[..i + 1] in t then Walk(t, parts, i + 1, leaf)
    else if i == |parts| - 1 then
      if leaf.Some? then (t[parts := leaf.value], true) else (t, false)
    else Walk(t[parts[..i + 1] := DirEntry], parts, i + 1, leaf)
  }

  /** One `_add_node(path, nodeType, content)` on the abstract tree. */
  function Add(t: Tree, path: string, nodeType: string, content: string, decode: string -> Option<string>): (Tree, bool)
  {
    Walk(t, Segments(path), 0, Leaf(nodeType, content, decode))
  }

  /** First wins: a node that exists keeps its entry; nothing is removed. */
  lemma {:induction false} WalkKeepsExisting(t: Tree, parts: Path, i: nat, leaf: Option<Entry>)
    requires i <= |parts|
    ensures forall p | p in t :: p in Walk(t, parts, i, leaf).0 && Walk(t, parts, i, leaf).0[p] == t[p]
    decreases |parts| - i
  {
    if i < |parts| {
      if parts[..i + 1] in t {
        WalkKeepsExisting(t, parts, i + 1, leaf);
      } else if i < |parts| - 1 {
        WalkKeepsExisting(t[parts[..i + 1] := DirEntry], parts, i + 1, leaf);
      } else {
        assert parts[..i + 1] == parts;
      }
    }
  }

  /** Nothing else changes: every new node is a prefix of the walked path, longer than `i`. */
  lemma {:induction false} WalkOnlyAlongPath(t: Tree, parts: Path, i: nat, leaf: Option<Entry>)
    requires i <= |parts|
    ensures forall p | p in Walk(t, parts, i, leaf).0 && p !in t :: i < |p| <= |parts| && p == parts[..|p|]
    decreases |parts| - i
  {
    if i < |parts| {
      if parts[..i + 1] in t {
        WalkOnlyAlongPath(t, parts, i + 1, leaf);
      } else if i < |parts| - 1 {
        WalkOnlyAlongPath(t[parts[..i + 1] := DirEntry], parts, i + 1, leaf);
      } else {
        assert parts[..|parts|] == parts;
      }
    }
  }

  /**
    Implicit directories: after the walk every proper prefix past `i` exists,
    and the ones that were absent are directories, whether or not the leaf
    could be decoded.
   */
  lemma {:induction false} WalkCreatesParents(t: Tree, parts: Path, i: nat, leaf: Option<Entry>)
    requires i <= |parts|
    ensures forall j | i < j < |parts| :: parts[..j] in Walk(t, parts, i, leaf).0
    ensures forall j | i < j < |parts| && parts[..j] !in t :: Walk(t, parts, i, leaf).0[parts[..j]] == DirEntry
    decreases |parts| - i
  {
    if i < |parts| {
      var q := parts[..i + 1];
      if q in t {
        WalkCreatesParents(t, parts, i + 1, leaf);
        WalkKeepsExisting(t, parts, i + 1, leaf);
      } else if i < |parts| - 1 {
        var t' := t[q := DirEntry];
        WalkCreatesParents(t', parts, i + 1, leaf);
        WalkKeepsExisting(t', parts, i + 1, leaf);
        forall j | i < j < |parts| && parts[..j] !in t
          ensures parts[..j] in Walk(t, parts, i, leaf).0 && Walk(t, parts, i, leaf).0[parts[..j]] == DirEntry
        {
          if j > i + 1 {
            assert |parts[..j]| != |q|;
          }
        }
      }
    }
  }

  /**
    The last segment: the walk fails exactly when that node is absent and the
    leaf could not be decoded; otherwise the node exists, and if it was absent
    it is the requested leaf.
   */
  lemma {:induction false} WalkCreatesLeaf(t: Tree, parts: Path, i: nat, leaf: Option<Entry>)
    requires i < |parts|
    ensures !Walk(t, parts, i, leaf).1 <==> parts !in t && leaf.None?
    ensures Walk(t, parts, i, leaf).1 ==> parts in Walk(t, parts, i, leaf).0
    ensures parts !in t && leaf.Some? ==> Walk(t, parts, i, leaf).0[parts] == leaf.value
    decreases |parts| - i
  {
    assert parts[..|parts|] == parts;
    var q := parts[..i + 1];
    if i < |parts| - 1 {
      assert |q| < |parts|;
      if q in t {
        WalkCreatesLeaf(t, parts, i + 1, leaf);
      } else {
        WalkCreatesLeaf(t[q := DirEntry], parts, i + 1, leaf);
      }
    }
  }

  /** An empty or all-slash path leaves the tree as it is. */
  lemma NoSegmentsNoChange(t: Tree, path: string, nodeType: string, content: string, decode: string -> Option<string>)
    requires forall k :: 0 <= k < |path| ==> path[k] == Slash
    ensures Add(t, path, nodeType, content, decode) == (t, true)
  {
    AllSlashesHaveNoSegments(path);
  }

  /** Paths that differ only in extra slashes add the same nodes. */
  lemma AddIgnoresExtraSlashes(t: Tree, x: string, y: string, nodeType: string, content: string, decode: string -> Option<string>)
    ensures Add(t, [Slash] + x + [Slash], nodeType, content, decode) == Add(t, x, nodeType, content, decode)
    ensures Add(t, x + [Slash, Slash] + y, nodeType, content, decode) == Add(t, x + [Slash] + y, nodeType, content, decode)
  {
    SegmentsIgnoreExtraSlashes(x, y);
    SegmentsIgnoreExtraSlashes([Slash] + x, y);
  }

  /**
    Intermediate segments are not checked for kind: a row `a/b` after a file
    row `a` hangs the directory `b` under the file node, which stays as it was.
   */
  lemma ChildUnderFile(decode: string -> Option<string>)
    ensures var t := Add(Empty()[["a"] := FileEntry("x")], "a/b", "dir", "", decode).0;
      && ["a"] in t && t[["a"]] == FileEntry("x")
      && ["a", "b"] in t && t[["a", "b"]] == DirEntry
  {
    var parts := ["a", "b"];
    SegmentsOfJoin(parts);
    assert Join(parts, Slash) == "a/b";
    assert parts[..1] == ["a"] && parts[..2] == parts;
  }

  /** A walk along proper segments keeps the tree well formed. */
  lemma {:induction false} WalkKeepsWellFormed(t: Tree, parts: Path, i: nat, leaf: Option<Entry>)
    requires i <= |parts| && WellFormed(t) && ProperPath(parts)
    requires parts[..i] in t
    ensures WellFormed(Walk(t, parts, i, leaf).0)
    decreases |parts| - i
  {
    if i < |parts| {
      var q := parts[..i + 1];
      assert Parent(q) == parts[..i];
      assert ProperPath(q) by {
        forall k | 0 <= k < |q| ensures IsSegment(q[k]) {
          assert q[k] == parts[k];
        }
      }
      if q in t {
        WalkKeepsWellFormed(t, parts, i + 1, leaf);
      } else if i < |parts| - 1 {
        WalkKeepsWellFormed(t[q := DirEntry], parts, i + 1, leaf);
      } else {
        assert q == parts;
      }
    }
  }

  /** The result of a `cd`, in place of the messages the source prints. */
  datatype CdResult = ToRoot | Stayed | NotFound | NotADirectory | Entered

  /**
    `cd(name)` from the working directory `cwd`: `/` goes to the root, `..`
    stays, a missing or non-directory child is an error that stays, any
    other child is entered. The working directory stays a directory of the
    tree.
   */
  function ChangeDirectory(t: Tree, cwd: Path, name: string): (r: (Path, CdResult))
    ensures WellFormed(t) && cwd in t && t[cwd].kind == Dir ==> r.0 in t && t[r.0].kind == Dir
    ensures r.1 == ToRoot <==> name == "/"
    ensures r.1 == Stayed <==> name == ".."
    ensures r.1 == NotFound <==> name != "/" && name != ".." && cwd + [name] !in t
    ensures r.1 == NotADirectory <==> name != "/" && name != ".." && cwd + [name] in t && t[cwd + [name]].kind != Dir
    ensures r.0 == match r.1
      case ToRoot => []
      case Entered => cwd + [name]
      case _ => cwd
  {
    if name == "/" then ([], ToRoot)
    else if name == ".." then (cwd, Stayed)
    else if cwd + [name] !in t then (cwd, NotFound)
    else if t[cwd + [name]].kind != Dir then (cwd, NotADirectory)
    else (cwd + [name], Entered)
  }
}
