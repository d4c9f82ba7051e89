/**
  Path handling of `_add_node`: a slash path is split on `/` (Python's
  `str.split("/")`) and the empty pieces are dropped, giving the list of
  segments the walk follows from the root.
 */
module Paths {

  /** The character that separates path segments. */
  const Slash: char := '/'

  /**
    Scans `s`, with `cur` the piece read so far: a separator ends the current
    piece, any other character extends it, and the end of the text ends the
    last piece.
   */
  function SplitFrom(s: string, sep: char, cur: string): (r: seq<string>)
    ensures |r| >= 1
    decreases |s|
  {
    if s == [] then [cur]
    else if s[0] == sep then [cur] + SplitFrom(s[1..], sep, [])
    else SplitFrom(s[1..], sep, cur + [s[0]])
  }

  /** Python's `s.split(sep)`: the pieces between separators, always at least one. */
  function Split(s: string, sep: char): (r: seq<string>)
    ensures |r| >= 1
  {
    SplitFrom(s, sep, [])
  }

  /** Python's `sep.join(pieces)`, the inverse of `Split`. */
  function Join(pieces: seq<string>, sep: char): string
    requires |pieces| >= 1
    decreases |pieces|
  {
    if |pieces| == 1 then pieces[0] else pieces[0] + [sep] + Join(pieces[1..], sep)
  }

  /** No piece contains the separator. */
  predicate NoSep(pieces: seq<string>, sep: char)
  {
    forall k :: 0 <= k < |pieces| ==> sep !in pieces[k]
  }

  lemma {:induction false} SplitFromHasNoSep(s: string, sep: char, cur: string)
    requires sep !in cur
    ensures NoSep(SplitFrom(s, sep, cur), sep)
    decreases |s|
  {
    if s != [] {
      if s[0] == sep {
        SplitFromHasNoSep(s[1..], sep, []);
      } else {
        SplitFromHasNoSep(s[1..], sep, cur + [s[0]]);
      }
    }
  }

  /** The pieces of a split never contain the separator. */
  lemma SplitHasNoSep(s: string, sep: char)
    ensures NoSep(Split(s, sep), sep)
  {
    SplitFromHasNoSep(s, sep, []);
  }

  lemma {:induction false} JoinSplitFrom(s: string, sep: char, cur: string)
    ensures Join(SplitFrom(s, sep, cur), sep) == cur + s
    decreases |s|
  {
    if s == [] {
      assert cur + s == cur;
    } else if s[0] == sep {
      var rest := SplitFrom(s[1..], sep, []);
      JoinSplitFrom(s[1..], sep, []);
      assert ([cur] + rest)[1..] == rest;
      assert [] + s[1..] == s[1..];
      assert cur + s == cur + [sep] + s[1..];
    } else {
      JoinSplitFrom(s[1..], sep, cur + [s[0]]);
      assert cur + s == cur + [s[0]] + s[1..];
    }
  }

  /** Joining the pieces of a split gives back the original string. */
  lemma JoinSplit(s: string, sep: char)
    ensures Join(Split(s, sep), sep) == s
  {
    JoinSplitFrom(s, sep, []);
    assert [] + s == s;
  }

  lemma {:induction false} SplitFromAppend(x: string, y: string, sep: char, cur: string)
    ensures SplitFrom(x + [sep] + y, sep, cur) == SplitFrom(x, sep, cur) + SplitFrom(y, sep, [])
    decreases |x|
  {
    var s := x + [sep] + y;
    if x == [] {
      assert s[0] == sep && s[1..] == y;
    } else {
      assert s[0] == x[0] && s[1..] == x[1..] + [sep] + y;
      if x[0] == sep {
        SplitFromAppend(x[1..], y, sep, []);
        var rx, ry := SplitFrom(x[1..], sep, []), SplitFrom(y, sep, []);
        assert [cur] + (rx + ry) == ([cur] + rx) + ry;
      } else {
        SplitFromAppend(x[1..], y, sep, cur + [x[0]]);
      }
    }
  }

  /** Splitting at a separator splits both sides independently. */
  lemma SplitAppend(x: string, y: string, sep: char)
    ensures Split(x + [sep] + y, sep) == Split(x, sep) + Split(y, sep)
  {
    SplitFromAppend(x, y, sep, []);
  }

  lemma {:induction false} SplitFromNoSep(s: string, sep: char, cur: string)
    requires sep !in s
    ensures SplitFrom(s, sep, cur) == [cur + s]
    decreases |s|
  {
    if s == [] {
      assert cur + s == cur;
    } else {
      assert s[0] in s;
      SplitFromNoSep(s[1..], sep, cur + [s[0]]);
      assert cur + [s[0]] + s[1..] == cur + s;
    }
  }

  /** A string without the separator is a single piece. */
  lemma SplitNoSep(s: string, sep: char)
    requires sep !in s
    ensures Split(s, sep) == [s]
  {
    SplitFromNoSep(s, sep, []);
    assert [] + s == s;
  }

  /** Splitting separator-free pieces joined by the separator gives the pieces back. */
  lemma {:induction false} SplitJoin(pieces: seq<string>, sep: char)
    requires |pieces| >= 1 && NoSep(pieces, sep)
    ensures Split(Join(pieces, sep), sep) == pieces
    decreases |pieces|
  {
    SplitNoSep(pieces[0], sep);
    if |pieces| > 1 {
      assert NoSep(pieces[1..], sep);
      SplitJoin(pieces[1..], sep);
      SplitAppend(pieces[0], Join(pieces[1..], sep), sep);
      assert [pieces[0]] + pieces[1..] == pieces;
    }
  }

  /** The list comprehension `[p for p in pieces if p]`. */
  function NonEmpty(pieces: seq<string>): (r: seq<string>)
    ensures forall k :: 0 <= k < |r| ==> r[k] != ""
    ensures forall p :: p in r <==> p in pieces && p != ""
    decreases |pieces|
  {
    if pieces == [] then []
    else if pieces[0] == "" then NonEmpty(pieces[1..])
    else [pieces[0]] + NonEmpty(pieces[1..])
  }

  /** Filtering distributes over concatenation. */
  lemma {:induction false} NonEmptyAppend(a: seq<string>, b: seq<string>)
    ensures NonEmpty(a + b) == NonEmpty(a) + NonEmpty(b)
    decreases |a|
  {
    if a == [] {
      assert a + b == b;
    } else {
      assert (a + b)[0] == a[0];
      assert (a + b)[1..] == a[1..] + b;
      NonEmptyAppend(a[1..], b);
    }
  }

  /** A proper segment: non-empty and free of slashes. */
  predicate IsSegment(s: string)
  {
    s != "" && Slash !in s
  }

  /** The segment list `_add_node` walks: `[p for p in path.split("/") if p]`. */
  function Segments(path: string): (r: seq<string>)
    ensures forall k :: 0 <= k < |r| ==> IsSegment(r[k])
  {
    var pieces := Split(path, Slash);
    SplitHasNoSep(path, Slash);
    var r := NonEmpty(pieces);
    assert forall k :: 0 <= k < |r| ==> r[k] in pieces;
    r
  }

  /** A slash splits a path into the segments of either side. */
  lemma SegmentsAppend(x: string, y: string)
    ensures Segments(x + [Slash] + y) == Segments(x) + Segments(y)
  {
    SplitAppend(x, y, Slash);
    NonEmptyAppend(Split(x, Slash), Split(y, Slash));
  }

  /** Leading, trailing and repeated slashes do not change the segment list. */
  lemma SegmentsIgnoreExtraSlashes(x: string, y: string)
    ensures Segments([Slash] + x) == Segments(x)
    ensures Segments(x + [Slash]) == Segments(x)
    ensures Segments(x + [Slash, Slash] + y) == Segments(x + [Slash] + y)
  {
    SegmentsAppend([], x);
    assert [] + [Slash] + x == [Slash] + x;
    SegmentsAppend(x, []);
    assert x + [Slash] + [] == x + [Slash];
    SegmentsAppend(x, [Slash] + y);
    assert x + [Slash] + ([Slash] + y) == x + [Slash, Slash] + y;
    SegmentsAppend([], y);
    assert [] + [Slash] + y == [Slash] + y;
    SegmentsAppend(x, y);
  }

  /** A path made only of slashes (or the empty path) has no segments. */
  lemma {:induction false} AllSlashesHaveNoSegments(path: string)
    requires forall k :: 0 <= k < |path| ==> path[k] == Slash
    ensures Segments(path) == []
    decreases |path|
  {
    if path == [] {
      assert Split(path, Slash) == [""];
      assert [""][1..] == [];
    } else {
      assert forall k :: 0 <= k < |path[1..]| ==> path[1..][k] == path[k + 1];
      AllSlashesHaveNoSegments(path[1..]);
      SegmentsIgnoreExtraSlashes(path[1..], []);
      assert path[0] == Slash;
      assert [Slash] + path[1..] == path;
    }
  }

  /** A path whose segments are joined by single slashes splits back into them. */
  lemma SegmentsOfJoin(segs: seq<string>)
    requires |segs| >= 1
    requires forall k :: 0 <= k < |segs| ==> IsSegment(segs[k])
    ensures Segments(Join(segs, Slash)) == segs
  {
    assert NoSep(segs, Slash);
    SplitJoin(segs, Slash);
    NonEmptyOfNonEmpty(segs);
  }

  lemma {:induction false} NonEmptyOfNonEmpty(pieces: seq<string>)
    requires forall k :: 0 <= k < |pieces| ==> pieces[k] != ""
    ensures NonEmpty(pieces) == pieces
    decreases |pieces|
  {
    if pieces != [] {
      NonEmptyOfNonEmpty(pieces[1..]);
      assert [pieces[0]] + pieces[1..] == pieces;
    }
  }

  /** `/a//b/` and `a/b` name the same node. */
  lemma SlashVariantsAgree()
    ensures Segments("/a//b/") == Segments("a/b") == ["a", "b"]
  {
    DoubledSlashExample();
    assert Segments("a//b/") == Segments("a//b") by {
      SegmentsIgnoreExtraSlashes("a//b", []);
      assert "a//b" + [Slash] == "a//b/";
    }
    assert Segments("/a//b/") == Segments("a//b/") by {
      SegmentsIgnoreExtraSlashes("a//b/", []);
      assert [Slash] + "a//b/" == "/a//b/";
    }
  }

  /** `a//b` and `a/b` both have the segments `a`, `b`. */
  lemma DoubledSlashExample()
    ensures Segments("a//b") == Segments("a/b") == ["a", "b"]
  {
    assert Segments("a/b") == ["a", "b"] by {
      SegmentsOfJoin(["a", "b"]);
      assert Join(["a", "b"], Slash) == "a/b";
    }
    SegmentsIgnoreExtraSlashes("a", "b");
    assert "a" + [Slash, Slash] + "b" == "a//b";
    assert "a" + [Slash] + "b" == "a/b";
  }
}
