/** Dotted hierarchical paths (`a.b.c`) and the label taken from their last segment. */
module Paths {

  /** `strings.Split(s, ".")`: the pieces between the dots, left to right.
      There is always at least one piece, and no piece holds a dot. */
  function Split(s: string): (parts: seq<string>)
    ensures |parts| >= 1
    ensures forall k :: 0 <= k < |parts| ==> '.' !in parts[k]
    ensures '.' !in s ==> parts == [s]
    ensures '.' in s ==> |parts| > 1
  {
    if s == [] then [[]]
    else
      var rest := Split(s[1..]);
      assert s == [s[0]] + s[1..];
      if s[0] == '.' then [[]] + rest
      else [[s[0]] + rest[0]] + rest[1..]
  }

  /** `strings.Join(parts, ".")`, the inverse of Split. */
  function Join(parts: seq<string>): string
    requires |parts| >= 1
  {
    if |parts| == 1 then parts[0] else parts[0] + "." + Join(parts[1..])
  }

  /** There is one more piece than there are dots. */
  lemma {:induction false} SplitCount(s: string)
    ensures |Split(s)| == multiset(s)['.'] + 1
  {
    if s != [] {
      SplitCount(s[1..]);
      assert s == [s[0]] + s[1..];
      assert multiset(s) == multiset([s[0]]) + multiset(s[1..]);
    }
  }

  /** Joining the pieces again gives back the original path. */
  lemma {:induction false} JoinSplit(s: string)
    ensures Join(Split(s)) == s
  {
    if s != [] {
      JoinSplit(s[1..]);
      var rest := Split(s[1..]);
      assert s == [s[0]] + s[1..];
      if s[0] == '.' {
        var parts := [[]] + rest;
        assert Split(s) == parts && parts[1..] == rest;
        assert Join(parts) == [] + "." + Join(rest);
      } else if |rest| == 1 {
        assert Split(s) == [[s[0]] + rest[0]];
      } else {
        var parts := [[s[0]] + rest[0]] + rest[1..];
        assert Split(s) == parts && parts[1..] == rest[1..];
        assert Join(rest) == rest[0] + "." + Join(rest[1..]);
        assert Join(parts) == [s[0]] + rest[0] + "." + Join(rest[1..]);
      }
    }
  }

  /** A dot-free first piece followed by a dot splits off as one piece. */
  lemma {:induction false} SplitAfterPiece(a: string, b: string)
    requires '.' !in a
    ensures Split(a + "." + b) == [a] + Split(b)
  {
    if a == [] {
      assert (a + "." + b)[1..] == b;
    } else {
      SplitAfterPiece(a[1..], b);
      assert (a + "." + b)[1..] == a[1..] + "." + b;
      assert [a[0]] + a[1..] == a;
    }
  }

  /** Splitting a join of dot-free pieces gives back the pieces. */
  lemma {:induction false} SplitJoin(parts: seq<string>)
    requires |parts| >= 1
    requires forall k :: 0 <= k < |parts| ==> '.' !in parts[k]
    ensures Split(Join(parts)) == parts
  {
    if |parts| > 1 {
      SplitJoin(parts[1..]);
      SplitAfterPiece(parts[0], Join(parts[1..]));
    }
  }

  /** The last piece of a split is a suffix of the path; when it is shorter than
      the path, the character just before it is a dot. */
  lemma {:induction false} LastPieceIsSuffix(s: string)
    ensures var parts := Split(s); var r := parts[|parts| - 1];
      |r| <= |s| && s[|s| - |r|..] == r && (|r| < |s| ==> s[|s| - |r| - 1] == '.')
  {
    if s != [] {
      LastPieceIsSuffix(s[1..]);
      var rest := Split(s[1..]);
      var r := rest[|rest| - 1];
      if s[0] != '.' && |rest| == 1 {
        assert '.' !in s[1..];
      }
    }
  }

  /** The label of a dotted path: the text after its last dot, or the whole
      path when it has none. */
  function LastSegment(path: string): string
  {
    if path == [] || path[|path| - 1] == '.' then []
    else LastSegment(path[..|path| - 1]) + [path[|path| - 1]]
  }

  /** The label is the longest suffix of the path that holds no dot: it has no
      dot, it ends the path, and when it is shorter than the path the character
      just before it is a dot. */
  lemma {:induction false} LastSegmentIsDotFreeTail(path: string)
    ensures var r := LastSegment(path);
      && '.' !in r
      && |r| <= |path| && path[|path| - |r|..] == r
      && (|r| < |path| ==> path[|path| - |r| - 1] == '.')
  {
    if path == [] || path[|path| - 1] == '.' {
      assert LastSegment(path) == [];
    } else {
      var n := |path| - 1;
      var init, c := path[..n], path[n];
      LastSegmentIsDotFreeTail(init);
      var r := LastSegment(init);
      assert LastSegment(path) == r + [c];
      assert path == init + [c];
      assert path[n - |r|..] == init[n - |r|..] + [c];
      if |r| < n {
        assert path[n - |r| - 1] == init[n - |r| - 1];
      }
    }
  }

  /** Only one suffix of a path is dot-free and either the whole path or
      preceded by a dot. */
  lemma DotFreeTailIsUnique(path: string, r1: string, r2: string)
    requires '.' !in r1 && |r1| <= |path| && path[|path| - |r1|..] == r1
    requires |r1| < |path| ==> path[|path| - |r1| - 1] == '.'
    requires '.' !in r2 && |r2| <= |path| && path[|path| - |r2|..] == r2
    requires |r2| < |path| ==> path[|path| - |r2| - 1] == '.'
    ensures r1 == r2
  {
  }

  /** The label is the element the source reads at `parts[len(parts)-1]` after
      `strings.Split(path, ".")`; that index always exists. */
  lemma {:induction false} LastSegmentIsLastPiece(path: string)
    ensures var parts := Split(path); |parts| >= 1 && parts[|parts| - 1] == LastSegment(path)
  {
    var parts := Split(path);
    var piece := parts[|parts| - 1];
    LastPieceIsSuffix(path);
    LastSegmentIsDotFreeTail(path);
    assert '.' !in piece;
    DotFreeTailIsUnique(path, piece, LastSegment(path));
  }

  /** A path without a dot is its own label. */
  lemma UndottedIsItsOwnLabel(path: string)
    requires '.' !in path
    ensures LastSegment(path) == path
  {
    LastSegmentIsDotFreeTail(path);
  }

  /** Whatever precedes the last dot, the label is what follows it. */
  lemma LabelAfterLastDot(prefix: string, name: string)
    requires '.' !in name
    ensures LastSegment(prefix + "." + name) == name
  {
    var path := prefix + "." + name;
    LastSegmentIsDotFreeTail(path);
    assert path[|prefix|] == '.';
  }

  /** Two distinct paths can share a label; the walker must then let the later one win. */
  lemma LabelsCollide()
    ensures LastSegment("a.b.cpu") == LastSegment("x.y.cpu") == "cpu"
  {
    assert "a.b" + "." + "cpu" == "a.b.cpu";
    assert "x.y" + "." + "cpu" == "x.y.cpu";
    LabelAfterLastDot("a.b", "cpu");
    LabelAfterLastDot("x.y", "cpu");
  }
}
