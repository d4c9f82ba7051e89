/**
  The in-memory virtual file system of `main.py`: `VfsNode` objects whose
  `children` dictionaries are filled in place, and the `Vfs` object with its
  two fields `root` and `cwd`.

  The ghost map `nodes` gives every node of the tree by its path from `root`;
  `Valid()` ties it to the `children` dictionaries, and `Entries()` is the
  abstract tree of `TreeSpec` that the operations are specified against.
  `cwd` is a reference into the tree; `cwdPath` is its path. Nodes are never
  replaced, so the reference and the path keep agreeing while nodes are added.
 */
module FileSystem {
  import opened Wrappers
  import opened Paths
  import opened StringOrder
  import opened TreeSpec
  import opened Snapshot

  /** `VFSNode`: a name, a type, a content (`None` for directories) and the children by name. */
  class VfsNode {
    const name: string
    const kind: Kind
    const content: Option<string>
    var children: map<string, VfsNode>

    constructor (name: string, kind: Kind, content: Option<string>)
      ensures this.name == name && this.kind == kind && this.content == content
      ensures children == map[]
    {
      this.name := name;
      this.kind := kind;
      this.content := content;
      children := map[];
    }
  }

  /** `VFS`: the tree under `root` and the working directory `cwd`. */
  class Vfs {
    var root: VfsNode
    var cwd: VfsNode
    ghost var nodes: map<Path, VfsNode>
    ghost var cwdPath: Path
    ghost var Repr: set<VfsNode>

    /**
      The nodes form a tree under `root`: a node's path names the child
      entries that lead to it and no node is reached by two paths (children
      are owned by one parent, a file node included). `cwd` is a directory of
      this tree.
     */
    ghost predicate Valid()
      reads this, Repr
    {
      && Repr == nodes.Values
      && [] in nodes && nodes[[]] == root
      && root.name == "/" && root.kind == Dir && root.content == None
      && (forall p | p in nodes :: ProperPath(p) && (nodes[p].kind == Dir <==> nodes[p].content == None))
      && (forall p :: LinkedAt(p))
      && (forall p, k :: ClosedAt(p, k))
      && (forall p, q | p in nodes && q in nodes && nodes[p] == nodes[q] :: p == q)
      && cwdPath in nodes && nodes[cwdPath] == cwd && cwd.kind == Dir
    }

    /** The node at `p` is its parent's child under its own name. */
    ghost predicate LinkedAt(p: Path)
      reads this`nodes, nodes.Values
    {
      p in nodes && p != [] ==>
        && Parent(p) in nodes
        && nodes[p].name == p[|p| - 1]
        && p[|p| - 1] in nodes[Parent(p)].children
        && nodes[Parent(p)].children[p[|p| - 1]] == nodes[p]
    }

    /** Every child of the node at `p` is a node of the tree. */
    ghost predicate ClosedAt(p: Path, k: string)
      reads this`nodes, nodes.Values
    {
      p in nodes && k in nodes[p].children ==> p + [k] in nodes
    }

    /** In a valid tree, `k` is a child of the node at `p` exactly when `p + [k]` is a node. */
    lemma ChildIsNode(p: Path, k: string)
      requires Valid() && p in nodes
      ensures k in nodes[p].children <==> p + [k] in nodes
      ensures p + [k] in nodes ==> nodes[p].children[k] == nodes[p + [k]]
    {
      assert ClosedAt(p, k);
      if p + [k] in nodes {
        assert LinkedAt(p + [k]);
        assert Parent(p + [k]) == p;
      }
    }

    /** The abstract tree: every node's kind and content, keyed by its path. */
    ghost function Entries(): Tree
      reads this`nodes
    {
      map p | p in nodes :: Entry(nodes[p].kind, nodes[p].content)
    }

    /** Whatever the operations did, the abstract tree is well formed and `cwd` is a directory in it. */
    lemma ValidIsWellFormed()
      requires Valid()
      ensures WellFormed(Entries())
      ensures cwdPath in Entries() && Entries()[cwdPath].kind == Dir
    {
      forall p | p in Entries() && p != [] ensures Parent(p) in Entries() {
        assert LinkedAt(p);
      }
    }

    /** `__init__`: the empty tree. */
    constructor ()
      ensures Valid() && fresh(Repr)
      ensures root.children == map[] && cwd == root
      ensures Entries() == Empty() && cwdPath == []
    {
      var r := new VfsNode("/", Dir, None);
      root, cwd := r, r;
      nodes, cwdPath, Repr := map[[] := r], [], {r};
      new;
      SingletonValues<Path, VfsNode>([], r);
    }

    /** `init_default`: a fresh root directory `/` without children, and `cwd` on it. */
    method InitDefault()
      modifies this
      ensures Valid() && fresh(Repr)
      ensures fresh(root) && root.children == map[] && cwd == root
      ensures Entries() == Empty() && cwdPath == []
    {
      var r := new VfsNode("/", Dir, None);
      root, cwd := r, r;
      nodes, cwdPath, Repr := map[[] := r], [], {r};
      SingletonValues<Path, VfsNode>([], r);
    }

    /**
      `_add_node`: walks the segments of `path` from the root, creating each
      missing intermediate segment as a directory and a missing last segment
      with the requested type. Existing nodes are kept and walked into,
      whatever their type. `ok` is false when the content of a new file does
      not decode; the directories created before that stay. `root`, `cwd`
      and every existing node keep their place.
     */
    method AddNode(path: string, nodeType: string, content: string, decode: string -> Option<string>)
      returns (ok: bool)
      requires Valid()
      modifies this`nodes, this`Repr, Repr
      ensures Valid() && fresh(Repr - old(Repr))
      ensures (Entries(), ok) == Add(old(Entries()), path, nodeType, content, decode)
      ensures forall p | p in old(nodes) :: p in nodes && nodes[p] == old(nodes[p])
    {
      var parts := Segments(path);
      ghost var leaf := Leaf(nodeType, content, decode);
      var current := root;
      var i := 0;
      assert parts[..0] == [];
      while i < |parts|
        invariant 0 <= i <= |parts|
        invariant Valid() && fresh(Repr - old(Repr))
        invariant parts[..i] in nodes && nodes[parts[..i]] == current
        invariant forall p | p in old(nodes) :: p in nodes && nodes[p] == old(nodes[p])
        invariant Walk(Entries(), parts, i, leaf) == Add(old(Entries()), path, nodeType, content, decode)
      {
        var next, stepOk := Step(current, parts, i, parts[i], i == |parts| - 1, nodeType, content, decode);
        if !stepOk {
          return false;
        }
        current := next;
        i := i + 1;
      }
      ok := true;
    }

    /**
      One round of the loop of `_add_node`: the segment `part` below the node
      at `parts[..i]` is walked into, and created first if it is absent (as
      the leaf when it is the last segment, as a directory otherwise). `ok`
      is false when the leaf is a file whose content does not decode; nothing
      changes then.
     */
    method Step(current: VfsNode, ghost parts: Path, ghost i: nat, part: string, isLast: bool,
                nodeType: string, content: string, decode: string -> Option<string>)
      returns (next: VfsNode, ok: bool)
      requires Valid() && ProperPath(parts)
      requires i < |parts| && part == parts[i] && isLast == (i == |parts| - 1)
      requires parts[..i] in nodes && nodes[parts[..i]] == current
      modifies this`nodes, this`Repr, current
      ensures Valid() && fresh(Repr - old(Repr))
      ensures forall p | p in old(nodes) :: p in nodes && nodes[p] == old(nodes[p])
      ensures ok ==> parts[..i + 1] in nodes && nodes[parts[..i + 1]] == next
      ensures ok ==>
        Walk(Entries(), parts, i + 1, Leaf(nodeType, content, decode)) == Walk(old(Entries()), parts, i, Leaf(nodeType, content, decode))
      ensures !ok ==> Walk(old(Entries()), parts, i, Leaf(nodeType, content, decode)) == (Entries(), false)
      ensures !ok ==> isLast && parts !in old(nodes) && nodes == old(nodes) && Repr == old(Repr)
      ensures ok && parts[..i + 1] in old(nodes) ==> nodes == old(nodes) && Repr == old(Repr)
      ensures ok && parts[..i + 1] !in old(nodes) ==>
        && nodes == old(nodes)[parts[..i + 1] := next]
        && Some(Entries()[parts[..i + 1]]) == (if isLast then Leaf(nodeType, content, decode) else Some(DirEntry))
    {
      ghost var here := parts[..i];
      ghost var q := parts[..i + 1];
      assert q == here + [part];
      ChildIsNode(here, part);
      if part in current.children {
        next, ok := current.children[part], true;
        return;
      }
      var kind, data := Dir, None;
      if isLast && nodeType == "file" {
        var decoded := if content != "" then decode(content) else Some("");
        if decoded.None? {
          assert q == parts;
          return current, false;
        }
        kind, data := File, decoded;
      }
      assert isLast ==> q == parts;
      next := new VfsNode(part, kind, data);
      Attach(current, here, part, next);
      ok := true;
    }

    /** One insertion of `_add_node`: the new node `child` becomes `parent`'s child `part`. */
    method Attach(parent: VfsNode, ghost here: Path, part: string, child: VfsNode)
      requires Valid()
      requires here in nodes && nodes[here] == parent
      requires IsSegment(part) && part !in parent.children
      requires child.name == part && child.children == map[] && child !in Repr
      requires child.kind == Dir <==> child.content == None
      modifies this`nodes, this`Repr, parent
      ensures Valid()
      ensures Repr == old(Repr) + {child}
      ensures here + [part] !in old(nodes)
      ensures nodes == old(nodes)[here + [part] := child]
      ensures Entries() == old(Entries())[here + [part] := Entry(child.kind, child.content)]
    {
      ghost var q := here + [part];
      ChildIsNode(here, part);
      parent.children := parent.children[part := child];
      nodes := nodes[q := child];
      Repr := Repr + {child};
      UpdateValues(old(nodes), q, child);
      assert Parent(q) == here;
      forall p ensures LinkedAt(p) {
        if p in nodes && p != [] && p != q {
          assert old(LinkedAt(p));
          if Parent(p) == here {
            assert p == here + [p[|p| - 1]];
          }
        }
      }
      forall p, k ensures ClosedAt(p, k) {
        if p in nodes && p != q {
          assert old(ClosedAt(p, k));
        }
      }
      assert ProperPath(q) by {
        assert here in old(nodes);
        forall k | 0 <= k < |q| ensures IsSegment(q[k]) {
          if k < |here| {
            assert q[k] == here[k];
          }
        }
      }
      assert Entries() == old(Entries())[q := Entry(child.kind, child.content)];
    }

    /**
      `ls`: the names of `cwd`'s children, each once, in ascending order of
      Python's string comparison.
     */
    method Ls() returns (names: seq<string>)
      requires Valid()
      ensures StrictlySorted(names)
      ensures forall k :: k in names <==> k in cwd.children
      ensures forall k :: k in names <==> cwdPath + [k] in Entries()
    {
      var rest := cwd.children.Keys;
      names := [];
      while rest != {}
        invariant rest <= cwd.children.Keys
        invariant StrictlySorted(names)
        invariant forall k :: k in names <==> k in cwd.children && k !in rest
        decreases rest
      {
        var k :| k in rest;
        names := InsertSorted(names, k);
        rest := rest - {k};
      }
      forall k ensures k in cwd.children <==> cwdPath + [k] in Entries() {
        ChildIsNode(cwdPath, k);
      }
    }

    /**
      `cd`: `/` goes back to the root, `..` does nothing, a name that is not
      a child of `cwd` or is a file leaves `cwd` as it is, and any other name
      enters that child.
     */
    method Cd(path: string) returns (r: CdResult)
      requires Valid()
      modifies this`cwd, this`cwdPath
      ensures Valid()
      ensures (cwdPath, r) == ChangeDirectory(Entries(), old(cwdPath), path)
      ensures r == ToRoot ==> cwd == root
      ensures r == Entered ==> path in old(cwd.children) && cwd == old(cwd.children[path])
      ensures r != ToRoot && r != Entered ==> cwd == old(cwd)
    {
      if path == "/" {
        cwd, cwdPath := root, [];
        return ToRoot;
      }
      if path == ".." {
        return Stayed;
      }
      ChildIsNode(cwdPath, path);
      if path !in cwd.children {
        return NotFound;
      }
      var node := cwd.children[path];
      if node.kind != Dir {
        return NotADirectory;
      }
      cwd, cwdPath := node, cwdPath + [path];
      return Entered;
    }

    /**
      `load_from_csv` once the text `raw` is read: the delimiter comes from
      the first line and `parse` (the CSV reader) splits the text with it. A
      wrong header fails before anything changes; otherwise the tree is reset
      and the rows are applied in order until the first error, which leaves
      the rows before it applied.
     */
    method LoadFromCsv(raw: string, parse: (string, char) -> Table, decode: string -> Option<string>)
      returns (r: Outcome<LoadError>)
      requires Valid()
      modifies this, Repr
      ensures Valid()
      ensures raw == "" ==> r == Fail(EmptySource)
      ensures raw != "" && parse(raw, Delimiter(raw)).fieldnames != Header ==> r == Fail(BadHeader)
      ensures r == Fail(EmptySource) || r == Fail(BadHeader) ==> unchanged(this) && unchanged(Repr)
      ensures raw != "" && parse(raw, Delimiter(raw)).fieldnames == Header ==>
        && fresh(root) && cwd == root && cwdPath == []
        && (Entries(), r) == Run(Empty(), parse(raw, Delimiter(raw)).rows, decode)
    {
      if raw == "" {
        return Fail(EmptySource);
      }
      var delimiter := Delimiter(raw);
      var table := parse(raw, delimiter);
      if table.fieldnames != Header {
        return Fail(BadHeader);
      }
      InitDefault();
      ghost var newRoot := root;
      var rows := table.rows;
      var i := 0;
      assert rows[0..] == rows;
      while i < |rows|
        invariant 0 <= i <= |rows|
        invariant Valid() && fresh(Repr)
        invariant root == newRoot && cwd == root && cwdPath == []
        invariant Run(Entries(), rows[i..], decode) == Run(Empty(), rows, decode)
      {
        var row := rows[i];
        assert rows[i..][0] == row && rows[i..][1..] == rows[i + 1..];
        if row.nodeType != "dir" && row.nodeType != "file" {
          return Fail(UnknownType(row.nodeType));
        }
        var ok := AddNode(row.path, row.nodeType, row.content, decode);
        if !ok {
          return Fail(BadContent(row.path));
        }
        i := i + 1;
      }
      r := Pass;
    }
  }

  /** The values of a one-entry map. */
  lemma SingletonValues<K, V>(k: K, v: V)
    ensures map[k := v].Values == {v}
  {
    var m := map[k := v];
    assert m[k] == v;
    forall w | w in m.Values ensures w == v {
      var j :| j in m && m[j] == w;
    }
  }

  /** Adding a new key adds its value to the values. */
  lemma UpdateValues<K, V>(m: map<K, V>, k: K, v: V)
    requires k !in m
    ensures m[k := v].Values == m.Values + {v}
  {
    var m' := m[k := v];
    assert m'[k] == v;
    forall w | w in m.Values ensures w in m'.Values {
      var j :| j in m && m[j] == w;
      assert m'[j] == w;
    }
    forall w | w in m'.Values ensures w in m.Values + {v} {
      var j :| j in m' && m'[j] == w;
      if j != k {
        assert m[j] == w;
      }
    }
  }
}
