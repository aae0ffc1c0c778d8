/**
 * Small concrete trees built with the node operations, each stating the
 * outcome the node's documented behaviour promises for it.
 */
module Scenarios {
  import opened Wrappers
  import opened Paths
  import opened Encoding
  import opened MNodes

  /** Two children added under one name: the first one stays. */
  method FirstWriterWins() returns (first: MNode, second: MNode, found: MNode?)
    ensures first != second && found == first
  {
    var root := new MNode(null, "root");
    first := new MNode(root, "a");
    second := new MNode(root, "a");
    root.AddChild("a", first);
    root.AddChild("a", second);
    found := root.GetChild("a");
  }

  /**
   * An alias for a child succeeds, succeeds again for the same child, is
   * refused for another node, and still resolves to the first child.
   */
  method AliasConflict() returns (ok1: bool, ok2: bool, ok3: bool, child: MNode, found: MNode?)
    ensures ok1 && ok2 && !ok3 && found == child
  {
    var root := new MNode(null, "root");
    child := new MNode(root, "s1");
    var other := new MNode(root, "s2");
    root.AddChild("s1", child);
    root.AddChild("s2", other);
    ok1 := root.AddAlias("temperature", child);
    ok2 := root.AddAlias("temperature", child);
    ok3 := root.AddAlias("temperature", other);
    found := root.GetChild("temperature");
  }

  /**
   * The cached full path survives a rename: the second GetFullPath still
   * answers the old path while a fresh ancestor walk gives the new one.
   */
  method StaleFullPath() returns (before: string, after: string, walked: string)
    ensures before == "root.sg1" && after == "root.sg1" && walked == "root.sg2"
  {
    var root := new MNode(null, "root");
    var sg := new MNode(root, "sg1");
    root.AddChild("sg1", sg);
    var pool := new PathPool();
    RootDotSg();
    ChildPath(root, sg);
    before := sg.GetFullPath(pool, '.', [sg, root]);
    sg.SetName("sg2");
    after := sg.GetFullPath(pool, '.', [sg, root]);
    ChildPath(root, sg);
    walked := sg.ConcatFullPath('.', [sg, root]);
  }

  /** The path of a child of the root "root" is "root", the separator and its name. */
  lemma ChildPath(root: MNode, sg: MNode)
    requires root.parent == null && root.name == "root" && sg.parent == root
    ensures AncestorChain(sg, [sg, root])
    ensures Join(PathNames([sg, root]), '.') == "root" + "." + sg.name
  {
  }

  /** The two expected paths spelled out, so that the scenario need not join string literals itself. */
  lemma RootDotSg()
    ensures "root" + "." + "sg1" == "root.sg1"
    ensures "root" + "." + "sg2" == "root.sg2"
  {
  }

  lemma EncodeOnlyChild(t: Tree, k: Tree)
    requires t.kids == [k]
    ensures Encode(t) == Encode(k) + [Line(t.tag, t.name, 1)]
  {
    assert EncodeAll([k]) == Encode(k) + EncodeAll([]);
  }

  /** The chain root, sg1, d1, s1 as a tree of the written format. */
  function ChainTree(tag: int): Tree
  {
    Tree(tag, "root", [Tree(tag, "sg1", [Tree(tag, "d1", [Tree(tag, "s1", [])])])])
  }

  /** The post-order lines of the chain: the deepest node first, the root last. */
  lemma ChainLines(tag: int)
    ensures Encode(ChainTree(tag))
         == [Line(tag, "s1", 0), Line(tag, "d1", 1), Line(tag, "sg1", 1), Line(tag, "root", 1)]
  {
    var t3 := Tree(tag, "s1", []);
    var t2 := Tree(tag, "d1", [t3]);
    var t1 := Tree(tag, "sg1", [t2]);
    assert Encode(t3) == [Line(tag, "s1", 0)];
    EncodeOnlyChild(t2, t3);
    EncodeOnlyChild(t1, t2);
    EncodeOnlyChild(ChainTree(tag), t1);
  }

  /** root, sg1, d1, s1: each node the only child of the one before, s1 without children. */
  ghost predicate IsChain(root: MNode, sg: MNode, d: MNode, s: MNode)
    reads root, sg, d, s
  {
    && root.parent == null && root.name == "root" && root.GetChildren() == map["sg1" := sg]
    && sg.parent == root && sg.name == "sg1" && sg.GetChildren() == map["d1" := d]
    && d.parent == sg && d.name == "d1" && d.GetChildren() == map["s1" := s]
    && s.parent == d && s.name == "s1" && s.GetChildren() == map[]
  }

  method BuildChain() returns (root: MNode, sg: MNode, d: MNode, s: MNode)
    ensures IsChain(root, sg, d, s)
  {
    root := new MNode(null, "root");
    sg := new MNode(root, "sg1");
    d := new MNode(sg, "d1");
    s := new MNode(d, "s1");
    root.AddChild("sg1", sg);
    sg.AddChild("d1", d);
    d.AddChild("s1", s);
  }

  /** The partial path of s1 lists the chain from the root down. */
  method ChainPartialPath(root: MNode, sg: MNode, d: MNode, s: MNode) returns (segments: seq<string>)
    requires IsChain(root, sg, d, s)
    ensures segments == ["root", "sg1", "d1", "s1"]
  {
    assert AncestorChain(s, [s, d, sg, root]);
    segments := s.GetPartialPath([s, d, sg, root]);
  }

  /** The chain lies in its own four nodes and is four levels high. */
  lemma ChainBounded(root: MNode, sg: MNode, d: MNode, s: MNode)
    requires IsChain(root, sg, d, s)
    ensures Bounded(root, {root, sg, d, s}, 4)
  {
    var repr := {root, sg, d, s};
    assert Bounded(s, repr, 1);
    assert Bounded(d, repr, 2);
    assert Bounded(sg, repr, 3);
  }

  /** A written tree of the chain can only be the chain's own tree. */
  lemma ChainDepicted(root: MNode, sg: MNode, d: MNode, s: MNode, t: Tree, tag: int)
    requires IsChain(root, sg, d, s) && Depicts(root, t, tag, {root, sg, d, s}, 4)
    ensures t == ChainTree(tag)
  {
    var repr := {root, sg, d, s};
    DepictsSingleChild(root, "sg1", t, tag, repr, 4);
    var t1 := t.kids[0];
    DepictsSingleChild(sg, "d1", t1, tag, repr, 3);
    var t2 := t1.kids[0];
    DepictsSingleChild(d, "s1", t2, tag, repr, 2);
    DepictsNoChildren(s, t2.kids[0], tag, repr, 1);
    var t3 := Tree(tag, "s1", []);
    assert t2.kids == [t3];
    assert t1.kids == [t2];
    assert t.kids == [t1];
  }

  /**
   * The tree root, sg1, d1, s1: the partial path of s1, the leaf count of
   * the base nodes and the four lines written, deepest node first, which
   * read back as the tree.
   */
  method SerializeChain(tag: int) returns (segments: seq<string>, leaves: int, out: seq<Line>)
    ensures segments == ["root", "sg1", "d1", "s1"]
    ensures leaves == 0
    ensures out == [Line(tag, "s1", 0), Line(tag, "d1", 1), Line(tag, "sg1", 1), Line(tag, "root", 1)]
    ensures Decode(out) == Some(ChainTree(tag))
  {
    var root, sg, d, s := BuildChain();
    segments := ChainPartialPath(root, sg, d, s);
    ChainBounded(root, sg, d, s);
    leaves := root.GetLeafCount({root, sg, d, s}, 4);
    ghost var t;
    out, t := root.SerializeTo([], tag, {root, sg, d, s}, 4);
    ChainDepicted(root, sg, d, s, t, tag);
    ChainLines(tag);
    assert [] + Encode(t) == Encode(t);
    DecodeOfEncode(t);
  }
}
