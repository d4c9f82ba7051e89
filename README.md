# Virtual file system: a verified Dafny model of `main.py`

This is a model of the in-memory virtual file system in `main.py`. A snapshot of
`(path, type, content)` rows builds a tree of `VFSNode` objects under a root
directory `/`. Each row's path is split on `/`, and missing intermediate
directories are created on the way down. A `VFS` object holds `root` and the
working directory `cwd`. `ls` lists `cwd`'s children in sorted order, `cd` moves
`cwd` one level down or back to the root, and `init_default` resets the tree.

## Layout

- `wrappers.dfy` (`Wrappers`): `Option` and `Outcome`.
- `paths.dfy` (`Paths`): Python's `str.split("/")` together with its inverse
  `Join`, and the segment list `[p for p in path.split("/") if p]`.
- `order.dfy` (`StringOrder`): Python's `<` on strings (code-point
  lexicographic), and insertion into a strictly sorted list.
- `tree.dfy` (`TreeSpec`): the abstract tree. This is a map from a node's
  path (its segment list from the root) to its kind and content. `Add` is one
  `_add_node` call on that view and `Walk` is its loop from segment `i`.
  `ChangeDirectory` is the `cd` state machine.
- `snapshot.dfy` (`Snapshot`): the delimiter rule, the exact header, the
  row-type check, and `Run`, the row loop of `load_from_csv` on the abstract tree.
- `vfs.dfy` (`FileSystem`): the classes `VfsNode` (constant `name`, `kind`
  and `content`, and a mutable `children` map) and `Vfs` (fields `root` and
  `cwd`). There are methods for `__init__`, `init_default`, `_add_node`, `ls`,
  `cd` and the validation and row loop of `load_from_csv`.

`Vfs` keeps a ghost map `nodes` from each path to the node found there. It also
keeps a ghost `cwdPath`, the path of `cwd`. `Valid()` states the following. The
root is at path `[]` and is a directory named `/` without content. Every path
is made of proper segments. A node is a directory exactly when its content is
`None`. The `children` maps and `nodes` agree in both directions. No node can
be reached by two paths. `cwd` is the directory at `cwdPath`. `Entries()`
projects the heap onto the abstract tree. `AddNode`, `LoadFromCsv` and `Cd` are
specified against `Add`/`Walk`, `Run` and `ChangeDirectory`. `InitDefault` and
the constructor are specified against `Empty()`, and `Attach` against a one-entry
map update. Nodes are never replaced. So the `cwd`
reference and the path `cwdPath` keep naming the same node while `_add_node`
inserts new ones.

In these places the model follows what the code does:

- The load is not all-or-nothing. `load_from_csv` resets the tree before the
  row loop. A row of unknown type, or file content that does not decode,
  therefore leaves the rows before it applied (`Snapshot.LoadIsNotAtomic`,
  `Snapshot.BadRowKeepsEarlierRows`, `Snapshot.BadContentKeepsEarlierRows`).
  A decode failure also leaves the directories that the failing row's own walk
  created (`Snapshot.BadContentKeepsEarlierRows` with `TreeSpec.WalkCreatesParents`).
- A path that is already present keeps its first node. A later row never
  overwrites it, even one of a different kind, and this is not an error
  (`TreeSpec.WalkKeepsExisting`, `Snapshot.RunKeepsExisting`).
- Intermediate segments are not checked for kind. A row `a/b` that follows a
  file row `a` hangs `b` under the file node. So file nodes may have children
  (`TreeSpec.ChildUnderFile`).
- In `_add_node` itself, any type other than `"file"` makes a directory.
  Only `load_from_csv` rejects types other than `"dir"` and `"file"`.

Collaborators outside the model are parameters:

- The Base64 and UTF-8 decoding of file content is `decode: string -> Option<string>`.
  `None` stands for a decoding error.
- The CSV reader is `parse: (string, char) -> Table`. It gives the field names
  and the rows of a text split with a delimiter.
- Printing by `ls` and `cd` becomes return values: the list of names, and a
  `CdResult` (`ToRoot`, `Stayed`, `NotFound`, `NotADirectory`, `Entered`).
- Exceptions become `Outcome<LoadError>` (`EmptySource`, `BadHeader`,
  `UnknownType`, `BadContent`).

## Model

| member | source | states |
|---|---|---|
| `Paths.Split` | main.py:51 | `path.split("/")`; no contract of its own; stated by `SplitHasNoSep`, `JoinSplit`, `SplitJoin` and `SegmentsAppend` |
| `Paths.Segments` | main.py:51 | every segment of a path is non-empty and contains no `/` |
| `Paths.NonEmpty` | main.py:51 | the filter keeps only non-empty pieces, and keeps all of them |
| `Paths.SplitHasNoSep` | main.py:51 | no piece of `split("/")` contains the separator |
| `Paths.JoinSplit` | main.py:51 | joining the pieces of a split with the separator gives back the path |
| `Paths.SplitJoin` | main.py:51 | splitting separator-free pieces joined by the separator gives back the pieces |
| `Paths.SegmentsAppend` | main.py:51 | a `/` splits a path into the segments of the two sides |
| `Paths.SegmentsIgnoreExtraSlashes` | main.py:51 | leading, trailing and doubled slashes do not change the segment list |
| `Paths.AllSlashesHaveNoSegments` | main.py:51 | an empty or all-slash path has no segments |
| `Paths.SegmentsOfJoin` | main.py:51 | proper segments joined by single slashes split back into themselves |
| `Paths.SlashVariantsAgree` | main.py:51 | `/a//b/` and `a/b` both give the segments `a`, `b` |
| `StringOrder.Less` | main.py:67 | Python's `<` on `str`, the order `sorted` uses; no contract of its own; stated by `LessIrreflexive`, `LessTransitive` and `LessTotal` |
| `StringOrder.LessIrreflexive` | main.py:67 | no name sorts before itself |
| `StringOrder.LessTransitive` | main.py:67 | the string order `sorted` uses is transitive |
| `StringOrder.LessTotal` | main.py:67 | any two distinct names are ordered one way or the other |
| `StringOrder.InsertSorted` | main.py:67 | inserting a new name into a strictly sorted list keeps it strictly sorted, adds exactly that name and grows it by one |
| `TreeSpec.Empty` | main.py:20 | the tree of a fresh root `/`; no contract of its own; stated by `Vfs.constructor` and `Vfs.InitDefault` |
| `TreeSpec.Leaf` | main.py:56-61 | the node made for an absent last segment; no contract of its own; stated by `WalkCreatesLeaf` and `ImplicitDirectories` |
| `TreeSpec.Walk` | main.py:54-64 | the loop of `_add_node` from segment `i`; no contract of its own; stated by `WalkKeepsExisting`, `WalkOnlyAlongPath`, `WalkCreatesParents`, `WalkCreatesLeaf` and `WalkKeepsWellFormed` |
| `TreeSpec.Add` | main.py:50-64 | one `_add_node` call; no contract of its own; stated by `NoSegmentsNoChange`, `AddIgnoresExtraSlashes`, `ChildUnderFile` and `Vfs.AddNode` |
| `TreeSpec.WalkKeepsExisting` | main.py:54-64 | first wins: every node already present keeps its kind and content, and nothing is removed |
| `TreeSpec.WalkOnlyAlongPath` | main.py:50-64 | every new node is a prefix of the walked segment list, so no node off the path is added |
| `TreeSpec.WalkCreatesParents` | main.py:62-64 | every proper prefix of the path exists afterwards, and the ones that were absent are directories, even when the leaf fails to decode |
| `TreeSpec.WalkCreatesLeaf` | main.py:55-61 | the add fails exactly when the last segment is absent and its content does not decode; otherwise the last segment exists, and if it was absent it now has the requested kind and decoded content |
| `TreeSpec.NoSegmentsNoChange` | main.py:51-54 | an empty or all-slash path leaves the tree unchanged and succeeds |
| `TreeSpec.AddIgnoresExtraSlashes` | main.py:51-64 | paths differing only in extra slashes add the same nodes |
| `TreeSpec.WalkKeepsWellFormed` | main.py:50-64 | adding along proper segments keeps the root a directory, keeps every node's parent present and keeps names proper |
| `TreeSpec.ChildUnderFile` | main.py:54-64 | a row `a/b` after the file row `a` keeps the file `a` as it was and adds the directory `a/b` under it |
| `TreeSpec.ChangeDirectory` | main.py:70-87 | `/` returns to the root; `..` stays; a missing child or a child that is not a directory stays, with the matching error; otherwise the child is entered; the working directory stays a directory of the tree |
| `Snapshot.FirstLine` | main.py:32 | the first line is the longest prefix of the text without a `splitlines` line break |
| `Snapshot.Delimiter` | main.py:32 | `;` when the first line holds one, `,` otherwise; no contract of its own; stated by `DelimiterIgnoresLaterLines` |
| `Snapshot.Header` | main.py:35 | the only accepted field names, `path`, `type`, `content` in that order; stated by `Vfs.LoadFromCsv` |
| `Snapshot.KnownType` | main.py:45 | the accepted row types `dir` and `file`; stated by `BadRowKeepsEarlierRows` and `Vfs.LoadFromCsv` |
| `Snapshot.Run` | main.py:40-48 | the row loop; no contract of its own; stated by `RunAppend`, `BadRowKeepsEarlierRows`, `BadContentKeepsEarlierRows`, `RunKeepsExisting`, `RunKeepsWellFormed` and `Vfs.LoadFromCsv` |
| `Snapshot.DelimiterIgnoresLaterLines` | main.py:32 | the delimiter is `;` exactly when the first line holds a `;`, and `,` otherwise, whatever follows the first line break |
| `Snapshot.RunAppend` | main.py:40-48 | rows are applied in order: running `a + b` is running `a`, then `b` on its result if `a` passed |
| `Snapshot.BadRowKeepsEarlierRows` | main.py:38-48 | a row of unknown type fails with that type, and the tree keeps what the rows before it built |
| `Snapshot.BadContentKeepsEarlierRows` | main.py:38-48 | a file row whose content does not decode fails with `BadContent` for its path, and the tree is what the earlier rows built plus that row's partial walk, including its new directories |
| `Snapshot.RunKeepsExisting` | main.py:40-48 | across all rows, a node present before the loop keeps its entry (first wins for duplicate paths) |
| `Snapshot.RunKeepsWellFormed` | main.py:40-48 | the row loop keeps the tree well formed, whatever the rows |
| `Snapshot.LoadIsNotAtomic` | main.py:38-46 | a bad second row fails the load with the first row's directory still in place |
| `Snapshot.ImplicitDirectories` | main.py:48-64 | the single row `a/b/c.txt,file,SGk=` creates directories `a` and `a/b` and the file `a/b/c.txt` with content `Hi` |
| `FileSystem.VfsNode.constructor` | main.py:9-13 | a new node has the given name, type and content, and no children |
| `FileSystem.Vfs.constructor` | main.py:16-17 | a new VFS holds the empty tree with `cwd` on the root |
| `FileSystem.Vfs.ValidIsWellFormed` | main.py:15-21 | in every valid state the tree is well formed and `cwd` is a directory reachable from the root |
| `FileSystem.Vfs.InitDefault` | main.py:19-21 | after the reset, `root` is a fresh directory `/` with no children, `cwd` is `root` and the tree is the empty tree, whatever the state before (so two resets give the state of one) |
| `FileSystem.Vfs.AddNode` | main.py:50-64 | the new tree and the success flag are those of `Walk` on the old tree; `root` and `cwd` are untouched; every existing node keeps its path |
| `FileSystem.Vfs.Step` | main.py:54-64 | one round of the walk: a present segment is entered with `nodes` unchanged; an absent one adds exactly one node at its path, the leaf entry for the last segment and a directory otherwise, and is entered; failure happens only at an absent last segment and changes nothing; the remaining walk equals the old one |
| `FileSystem.Vfs.Attach` | main.py:59-63 | inserting a new child into its parent's `children` adds exactly that node at its path and keeps the tree valid |
| `FileSystem.Vfs.Ls` | main.py:66-68 | the result is strictly sorted (so each name appears once) and holds exactly the names of `cwd`'s children |
| `FileSystem.Vfs.Cd` | main.py:70-87 | `cwd` and its path move as `ChangeDirectory` says: back to `root` on `/`, into the named child when it is a directory, and nowhere otherwise |
| `FileSystem.Vfs.LoadFromCsv` | main.py:31-48 | an empty text or a header other than `path,type,content` fails with nothing changed; otherwise the tree is reset and the rows are applied as `Run` says, stopping at the first bad row |

## Left out

- `main()` (argument parsing, the command loop and command dispatch) is I/O glue.
- The existence check and the file read with BOM handling (`utf-8-sig`) are file I/O.
  `FileSystem.Vfs.LoadFromCsv` receives the text that was read.
- `csv.DictReader` is a library parser, so it is the `parse` parameter. Rows
  always carry three string fields. The reader's `None` for a short row and
  its extra-field handling are not modelled.
- `base64.b64decode` and `.decode("utf-8")` are library calls, so they are the
  `decode` parameter.
- The printing in `ls` and `cd` is replaced by return values.
- That a `;`-delimited snapshot reads the same as its `,`-delimited twin depends
  on the CSV reader. It is not modelled. Only the delimiter choice is.
- `FileSystem.Vfs.Ls`: Python's `sorted` is modelled by inserting the keys one
  by one into a strictly sorted list. The model fixes the result, not the
  algorithm.
