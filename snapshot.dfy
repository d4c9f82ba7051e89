/**
  The snapshot rules of `load_from_csv`: the delimiter taken from the first
  line, the exact header, and the rows applied in order on a fresh tree, each
  row's type checked before it is added. `Run` is the abstract effect of the
  row loop.
 */
module Snapshot {
  import opened Wrappers
  import opened Paths
  import opened TreeSpec

  /** The characters at which Python's `str.splitlines` ends a line. */
  predicate IsLineBreak(c: char)
  {
    c in ['\n', '\r', '\U{000B}', '\U{000C}', '\U{001C}', '\U{001D}', '\U{001E}', '\U{0085}', '\U{2028}', '\U{2029}']
  }

  /** `raw.splitlines()[0]` for a non-empty text: everything before the first line break. */
  function FirstLine(raw: string): (r: string)
    ensures r <= raw
    ensures forall k :: 0 <= k < |r| ==> !IsLineBreak(r[k])
    ensures |r| < |raw| ==> IsLineBreak(raw[|r|])
    decreases |raw|
  {
    if raw == [] || IsLineBreak(raw[0]) then [] else [raw[0]] + FirstLine(raw[1..])
  }

  /** The field delimiter: `;` when the first line has one, `,` otherwise. */
  function Delimiter(raw: string): (d: char)
  {
    if ';' in FirstLine(raw) then ';' else ','
  }

  /** Only the first line decides the delimiter: later lines may hold anything. */
  lemma {:induction false} DelimiterIgnoresLaterLines(line: string, brk: char, rest: string)
    requires forall k :: 0 <= k < |line| ==> !IsLineBreak(line[k])
    requires IsLineBreak(brk)
    ensures FirstLine(line + [brk] + rest) == line
    ensures Delimiter(line + [brk] + rest) == (if ';' in line then ';' else ',')
    decreases |line|
  {
    if line != [] {
      assert (line + [brk] + rest)[1..] == line[1..] + [brk] + rest;
      DelimiterIgnoresLaterLines(line[1..], brk, rest);
      assert [line[0]] + line[1..] == line;
    }
  }

  /** The only header `load_from_csv` accepts, field for field and in order. */
  const Header: seq<string> := ["path", "type", "content"]

  /** One row of the snapshot, fields as the CSV reader gives them. */
  datatype Row = Row(path: string, nodeType: string, content: string)

  /** What the CSV reader yields for a text and a delimiter: the field names and the rows. */
  datatype Table = Table(fieldnames: seq<string>, rows: seq<Row>)

  /** The errors `load_from_csv` raises once the file is read. */
  datatype LoadError =
    | EmptySource                  // `raw.splitlines()[0]` on an empty text
    | BadHeader                    // the field names are not exactly `Header`
    | UnknownType(nodeType: string) // a row whose type is neither "dir" nor "file"
    | BadContent(path: string)     // file content that does not decode

  /** The row types `load_from_csv` accepts. */
  predicate KnownType(nodeType: string)
  {
    nodeType == "dir" || nodeType == "file"
  }

  /**
    The row loop of `load_from_csv` on the tree `t`: each row's type is
    checked, then the row is added; the first error stops the loop and keeps
    what the earlier rows (and the failing row's walk) added.
   */
  function Run(t: Tree, rows: seq<Row>, decode: string -> Option<string>): (Tree, Outcome<LoadError>)
    decreases |rows|
  {
    if rows == [] then (t, Pass)
    else if !KnownType(rows[0].nodeType) then (t, Fail(UnknownType(rows[0].nodeType)))
    else
      var (t', ok) := Add(t, rows[0].path, rows[0].nodeType, rows[0].content, decode);
      if !ok then (t', Fail(BadContent(rows[0].path)))
      else Run(t', rows[1..], decode)
  }

  /** Rows are applied in order: running `a + b` is running `a`, then `b` if `a` passed. */
  lemma {:induction false} RunAppend(t: Tree, a: seq<Row>, b: seq<Row>, decode: string -> Option<string>)
    ensures Run(t, a + b, decode) ==
      if Run(t, a, decode).1.Pass? then Run(Run(t, a, decode).0, b, decode) else Run(t, a, decode)
    decreases |a|
  {
    if a == [] {
      assert a + b == b;
    } else {
      assert (a + b)[0] == a[0];
      assert (a + b)[1..] == a[1..] + b;
      if KnownType(a[0].nodeType) {
        var (t', ok) := Add(t, a[0].path, a[0].nodeType, a[0].content, decode);
        if ok {
          RunAppend(t', a[1..], b, decode);
        }
      }
    }
  }

  /** A row of unknown type stops the load there, and the rows before it stay applied. */
  lemma BadRowKeepsEarlierRows(t: Tree, rows: seq<Row>, k: nat, decode: string -> Option<string>)
    requires k < |rows| && !KnownType(rows[k].nodeType)
    requires Run(t, rows[..k], decode).1 == Pass
    ensures Run(t, rows, decode) == (Run(t, rows[..k], decode).0, Fail(UnknownType(rows[k].nodeType)))
  {
    assert rows == rows[..k] + rows[k..];
    RunAppend(t, rows[..k], rows[k..], decode);
  }

  /**
    A file row whose content does not decode stops the load there: the rows
    before it stay applied, and so do the directories its own walk created.
   */
  lemma BadContentKeepsEarlierRows(t: Tree, rows: seq<Row>, k: nat, decode: string -> Option<string>)
    requires k < |rows| && KnownType(rows[k].nodeType)
    requires Run(t, rows[..k], decode).1 == Pass
    requires !Add(Run(t, rows[..k], decode).0, rows[k].path, rows[k].nodeType, rows[k].content, decode).1
    ensures Run(t, rows, decode)
      == (Add(Run(t, rows[..k], decode).0, rows[k].path, rows[k].nodeType, rows[k].content, decode).0,
          Fail(BadContent(rows[k].path)))
  {
    assert rows == rows[..k] + rows[k..];
    RunAppend(t, rows[..k], rows[k..], decode);
    assert rows[k..][0] == rows[k];
  }

  /** First wins across rows: a node present before the loop keeps its entry. */
  lemma {:induction false} RunKeepsExisting(t: Tree, rows: seq<Row>, decode: string -> Option<string>)
    ensures forall p | p in t :: p in Run(t, rows, decode).0 && Run(t, rows, decode).0[p] == t[p]
    decreases |rows|
  {
    if rows != [] && KnownType(rows[0].nodeType) {
      var leaf := Leaf(rows[0].nodeType, rows[0].content, decode);
      var parts := Segments(rows[0].path);
      WalkKeepsExisting(t, parts, 0, leaf);
      var (t', ok) := Walk(t, parts, 0, leaf);
      if ok {
        RunKeepsExisting(t', rows[1..], decode);
      }
    }
  }

  /** Rows never break the shape of the tree: the loop keeps it well formed. */
  lemma {:induction false} RunKeepsWellFormed(t: Tree, rows: seq<Row>, decode: string -> Option<string>)
    requires WellFormed(t)
    ensures WellFormed(Run(t, rows, decode).0)
    decreases |rows|
  {
    if rows != [] && KnownType(rows[0].nodeType) {
      var leaf := Leaf(rows[0].nodeType, rows[0].content, decode);
      var parts := Segments(rows[0].path);
      assert parts[..0] == [];
      WalkKeepsWellFormed(t, parts, 0, leaf);
      var (t', ok) := Walk(t, parts, 0, leaf);
      if ok {
        RunKeepsWellFormed(t', rows[1..], decode);
      }
    }
  }

  /**
    The load is not all-or-nothing: a bad type in the second row leaves the
    directory of the first row in place.
   */
  lemma LoadIsNotAtomic(decode: string -> Option<string>)
    ensures Run(Empty(), [Row("docs", "dir", ""), Row("x", "link", "")], decode)
      == (Empty()[["docs"] := DirEntry], Fail(UnknownType("link")))
  {
    var rows := [Row("docs", "dir", ""), Row("x", "link", "")];
    SegmentsOfJoin(["docs"]);
    assert Segments("docs") == ["docs"];
    assert ["docs"][..1] == ["docs"];
    assert rows[1..] == [Row("x", "link", "")];
  }

  /**
    Implicit directories: the single row `a/b/c.txt,file,SGk=` makes `a` and
    `a/b` directories and `a/b/c.txt` a file holding the decoded text.
   */
  lemma ImplicitDirectories(decode: string -> Option<string>)
    requires decode("SGk=") == Some("Hi")
    ensures var t := Run(Empty(), [Row("a/b/c.txt", "file", "SGk=")], decode).0;
      && ["a"] in t && t[["a"]] == DirEntry
      && ["a", "b"] in t && t[["a", "b"]] == DirEntry
      && ["a", "b", "c.txt"] in t && t[["a", "b", "c.txt"]] == FileEntry("Hi")
  {
    var parts := ["a", "b", "c.txt"];
    SegmentsOfJoin(parts);
    assert Join(parts, Slash) == "a/b/c.txt";
    var leaf := Leaf("file", "SGk=", decode);
    assert leaf == Some(FileEntry("Hi"));
    assert parts[..1] == ["a"] && parts[..2] == ["a", "b"] && parts[..3] == parts;
    WalkCreatesParents(Empty(), parts, 0, leaf);
    WalkCreatesLeaf(Empty(), parts, 0, leaf);
    var w := Walk(Empty(), parts, 0, leaf).0;
    assert parts[..1] in w && parts[..2] in w;
    var rows := [Row("a/b/c.txt", "file", "SGk=")];
    assert rows[1..] == [];
  }
}
