/**
 * Path strings of the metadata tree: segments joined by a separator
 * character (root first), and the inverse split that the path parser
 * applies to such a string.
 */
module Paths {

  /** The segments joined by `sep`: ["root", "sg"] with '.' is "root.sg". */
  function Join(segments: seq<string>, sep: char): string
    requires |segments| >= 1
    decreases |segments|
  {
    if |segments| == 1 then segments[0]
    else segments[0] + [sep] + Join(segments[1..], sep)
  }

  /** Cuts `path` at every occurrence of `sep`. */
  function Split(path: string, sep: char): (segments: seq<string>)
    ensures |segments| >= 1
    ensures sep !in path ==> segments == [path]
    decreases |path|
  {
    if |path| == 0 then [""]
    else
      var rest := Split(path[1..], sep);
      if path[0] == sep then [""] + rest
      else
        assert sep !in path ==> [path[0]] + path[1..] == path;
        [[path[0]] + rest[0]] + rest[1..]
  }

  /** A separator-free prefix followed by the separator splits off as one segment. */
  lemma {:induction false} SplitAfterSegment(x: string, sep: char, y: string)
    requires sep !in x
    ensures Split(x + [sep] + y, sep) == [x] + Split(y, sep)
    decreases |x|
  {
    var s := x + [sep] + y;
    if x == [] {
      assert s[0] == sep && s[1..] == y;
    } else {
      assert s[0] == x[0] && s[1..] == x[1..] + [sep] + y;
      SplitAfterSegment(x[1..], sep, y);
      assert [x[0]] + x[1..] == x;
    }
  }

  /** Splitting a joined path gives the segments back when none holds the separator. */
  lemma {:induction false} SplitJoin(segments: seq<string>, sep: char)
    requires |segments| >= 1
    requires forall i :: 0 <= i < |segments| ==> sep !in segments[i]
    ensures Split(Join(segments, sep), sep) == segments
    decreases |segments|
  {
    if |segments| > 1 {
      SplitAfterSegment(segments[0], sep, Join(segments[1..], sep));
      SplitJoin(segments[1..], sep);
      assert [segments[0]] + segments[1..] == segments;
    }
  }
}
