/**
 * The line format that a node's serializeTo writes, and the stack-based
 * reconstruction that the format is designed for.
 *
 * Every node writes one line `type,name,childCount`, after the lines of its
 * whole subtree (post-order).  A reader can rebuild the tree in one pass:
 * a line with count k pops the k most recently completed subtrees and
 * pushes the node built from them.
 */
module Encoding {
  import opened Wrappers

  /** One written line: the node-type tag, the node's own name and its child count. */
  datatype Line = Line(tag: int, name: string, childCount: nat)

  /** A tree with its children in the order they were written. */
  datatype Tree = Tree(tag: int, name: string, kids: seq<Tree>)

  /** Post-order encoding: the lines of every child subtree, then the node's own line. */
  function Encode(t: Tree): (lines: seq<Line>)
    ensures |lines| >= 1 && lines[|lines| - 1] == Line(t.tag, t.name, |t.kids|)
    decreases t, 1
  {
    EncodeAll(t.kids) + [Line(t.tag, t.name, |t.kids|)]
  }

  /** The encodings of several subtrees, one block after another. */
  function EncodeAll(ts: seq<Tree>): seq<Line>
    decreases ts, 0
  {
    if ts == [] then [] else Encode(ts[0]) + EncodeAll(ts[1..])
  }

  /**
   * Reads `lines` in order over a stack of completed subtrees; None when a
   * line asks for more children than the stack holds.
   */
  function Rebuild(lines: seq<Line>, stack: seq<Tree>): Option<seq<Tree>>
    decreases |lines|
  {
    if lines == [] then Some(stack)
    else if lines[0].childCount > |stack| then None
    else Rebuild(lines[1..], Reduce(stack, lines[0]))
  }

  /** One line read: its node adopts the top `childCount` subtrees of the stack. */
  function Reduce(stack: seq<Tree>, l: Line): seq<Tree>
    requires l.childCount <= |stack|
  {
    var cut := |stack| - l.childCount;
    stack[..cut] + [Tree(l.tag, l.name, stack[cut..])]
  }

  /** The whole reconstruction: it must end with exactly one tree, the root. */
  function Decode(lines: seq<Line>): Option<Tree>
  {
    match Rebuild(lines, [])
    case None => None
    case Some(s) => if |s| == 1 then Some(s[0]) else None
  }

  lemma {:induction false} EncodeAllAppend(a: seq<Tree>, b: seq<Tree>)
    ensures EncodeAll(a + b) == EncodeAll(a) + EncodeAll(b)
    decreases |a|
  {
    if a != [] {
      assert (a + b)[0] == a[0] && (a + b)[1..] == a[1..] + b;
      EncodeAllAppend(a[1..], b);
    } else {
      assert a + b == b;
    }
  }

  /** Reading a subtree's encoding pushes exactly that subtree. */
  lemma {:induction false} RebuildEncode(t: Tree, rest: seq<Line>, stack: seq<Tree>)
    ensures Rebuild(Encode(t) + rest, stack) == Rebuild(rest, stack + [t])
    decreases t, 1
  {
    var line := Line(t.tag, t.name, |t.kids|);
    assert Encode(t) + rest == EncodeAll(t.kids) + ([line] + rest);
    RebuildEncodeAll(t.kids, [line] + rest, stack);
    var s := stack + t.kids;
    assert ([line] + rest)[1..] == rest;
    assert s[..|stack|] == stack && s[|stack|..] == t.kids;
    assert Reduce(s, line) == stack + [t];
  }

  /** Reading several encoded subtrees pushes them all, in order. */
  lemma {:induction false} RebuildEncodeAll(ts: seq<Tree>, rest: seq<Line>, stack: seq<Tree>)
    ensures Rebuild(EncodeAll(ts) + rest, stack) == Rebuild(rest, stack + ts)
    decreases ts, 0
  {
    if ts == [] {
      assert stack + ts == stack;
      assert EncodeAll(ts) + rest == rest;
    } else {
      assert EncodeAll(ts) + rest == Encode(ts[0]) + (EncodeAll(ts[1..]) + rest);
      RebuildEncode(ts[0], EncodeAll(ts[1..]) + rest, stack);
      RebuildEncodeAll(ts[1..], rest, stack + [ts[0]]);
      assert stack + [ts[0]] + ts[1..] == stack + ts;
    }
  }

  /** A node built over `right` encodes as `right`'s lines followed by its own line. */
  lemma ReduceEncodesAt(left: seq<Tree>, right: seq<Tree>, l: Line)
    requires l.childCount == |right|
    ensures EncodeAll(left + [Tree(l.tag, l.name, right)]) == EncodeAll(left + right) + [l]
  {
    var node := Tree(l.tag, l.name, right);
    EncodeAllAppend(left, [node]);
    EncodeAllAppend(left, right);
    assert EncodeAll([node]) == Encode(node);
    AppendAssoc(EncodeAll(left), EncodeAll(right), [l]);
  }

  /** Reducing by a line appends exactly that line to the stack's encoding. */
  lemma ReduceEncodes(stack: seq<Tree>, l: Line)
    requires l.childCount <= |stack|
    ensures EncodeAll(Reduce(stack, l)) == EncodeAll(stack) + [l]
  {
    var cut := |stack| - l.childCount;
    ReduceEncodesAt(stack[..cut], stack[cut..], l);
    assert stack[..cut] + stack[cut..] == stack;
  }

  lemma AppendAssoc(a: seq<Line>, b: seq<Line>, c: seq<Line>)
    ensures (a + b) + c == a + (b + c)
  {
  }

  /** Whatever the reader builds re-encodes to what it read, after what the stack already held. */
  lemma {:induction false} RebuildSound(lines: seq<Line>, stack: seq<Tree>, result: seq<Tree>)
    requires Rebuild(lines, stack) == Some(result)
    ensures EncodeAll(result) == EncodeAll(stack) + lines
    decreases |lines|
  {
    if lines == [] {
      assert EncodeAll(stack) + lines == EncodeAll(stack);
    } else {
      RebuildSound(lines[1..], Reduce(stack, lines[0]), result);
      ReduceEncodes(stack, lines[0]);
      assert lines == [lines[0]] + lines[1..];
      AppendAssoc(EncodeAll(stack), [lines[0]], lines[1..]);
    }
  }

  /** Decoding an encoding gives the tree back. */
  lemma DecodeOfEncode(t: Tree)
    ensures Decode(Encode(t)) == Some(t)
  {
    RebuildEncode(t, [], []);
    assert Encode(t) + [] == Encode(t);
    assert [] + [t] == [t];
    assert Rebuild([], [t]) == Some([t]);
  }

  /** A successful decoding came from the encoding of its result. */
  lemma EncodeOfDecode(lines: seq<Line>, t: Tree)
    requires Decode(lines) == Some(t)
    ensures lines == Encode(t)
  {
    var s := Rebuild(lines, []).value;
    RebuildSound(lines, [], s);
    assert s == [t];
    assert EncodeAll([t]) == Encode(t);
    assert EncodeAll([]) + lines == lines;
  }

  /**
   * Round trip in both directions: decoding succeeds with `t` exactly when
   * the lines are the encoding of `t`.
   */
  lemma DecodeEncode(lines: seq<Line>, t: Tree)
    ensures Decode(lines) == Some(t) <==> lines == Encode(t)
  {
    if lines == Encode(t) {
      DecodeOfEncode(t);
    }
    if Decode(lines) == Some(t) {
      EncodeOfDecode(lines, t);
    }
  }
}
