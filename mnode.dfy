/**
 * One node of the metadata tree (the time-series namespace): its name,
 * its parent link, two lazily allocated child maps (primary children and
 * aliases), its cached full path, leaf accounting and post-order
 * serialization.
 *
 * A Java `null` map or cache is `None`.  The walks up the parent links are
 * given the ancestor chain as a ghost argument, the recursions down the
 * children a ghost footprint `repr` and a height bound `h`: the tree shape
 * is kept by the callers (no cycles), and these arguments are how a caller
 * states that it holds.
 */
module MNodes {
  import opened Wrappers
  import opened Paths
  import opened Encoding

  /**
   * putIfAbsent: the map with `key` bound to `value` unless `key` is already
   * bound, in which case the earlier binding is kept.
   */
  function PutIfAbsent(m: map<string, MNode>, key: string, value: MNode): (r: map<string, MNode>)
    ensures r.Keys == m.Keys + {key}
    ensures forall k :: k in m ==> r[k] == m[k]
    ensures key !in m ==> r[key] == value
    ensures key in m ==> r == m
  {
    if key in m then m else m[key := value]
  }

  /** The process-wide pool that maps a path string to its one shared copy. */
  class PathPool {
    var cache: map<string, string>

    /** Every entry is a path mapped to itself (the only entries MNode adds). */
    ghost predicate Interned()
      reads this
    {
      forall p :: p in cache ==> cache[p] == p
    }

    constructor ()
      ensures cache == map[] && Interned()
    {
      cache := map[];
    }
  }

  class MNode {
    var name: string
    var parent: MNode?
    /** From root to this node; set by the first GetFullPath. */
    var fullPath: Option<string>
    /** Allocated on the first AddChild. */
    var children: Option<map<string, MNode>>
    /** Allocated on the first AddAlias. */
    var aliasChildren: Option<map<string, MNode>>

    constructor (parent: MNode?, name: string)
      ensures this.parent == parent && this.name == name
      ensures fullPath == None && children == None && aliasChildren == None
    {
      this.parent := parent;
      this.name := name;
      fullPath := None;
      children := None;
      aliasChildren := None;
    }

    /** The primary children; an unallocated map reads as the empty map. */
    function GetChildren(): (m: map<string, MNode>)
      reads this
      ensures children.None? ==> m == map[]
      ensures children.Some? ==> m == children.value
    {
      if children.None? then map[] else children.value
    }

    /** The alias map; an unallocated map reads as the empty map. */
    function AliasMap(): map<string, MNode>
      reads this
    {
      if aliasChildren.None? then map[] else aliasChildren.value
    }

    /** Whether `name` resolves through the primary children or the aliases. */
    predicate HasChild(name: string): (b: bool)
      reads this
      ensures b <==> name in GetChildren() || name in AliasMap()
    {
      (children.Some? && name in children.value) || (aliasChildren.Some? && name in aliasChildren.value)
    }

    /**
     * The child under `name`: a primary child shadows an alias of the same
     * name; null when neither map has it.
     */
    function GetChild(name: string): (c: MNode?)
      reads this
      ensures c != null <==> HasChild(name)
      ensures name in GetChildren() ==> c == GetChildren()[name]
      ensures name !in GetChildren() && name in AliasMap() ==> c == AliasMap()[name]
    {
      var child := if children.Some? && name in children.value then children.value[name] else null;
      if child != null then child
      else if aliasChildren.Some? && name in aliasChildren.value then aliasChildren.value[name]
      else null
    }

    /**
     * Allocates the child map if needed, then inserts if absent: the first
     * child added under a name stays, a later one is dropped.
     */
    method AddChild(name: string, child: MNode)
      modifies this`children
      ensures children == Some(PutIfAbsent(old(GetChildren()), name, child))
      ensures GetChild(name) == if name in old(GetChildren()) then old(GetChildren()[name]) else child
    {
      if children.None? {
        children := Some(map[]);
      }
      children := Some(PutIfAbsent(children.value, name, child));
    }

    /** Removes `name` from the primary children; nothing happens if it is absent or the map was never allocated. */
    method DeleteChild(name: string)
      modifies this`children
      ensures children.Some? == old(children.Some?)
      ensures GetChildren() == old(GetChildren()) - {name}
    {
      if children.Some? {
        children := Some(children.value - {name});
      }
    }

    /** Removes `alias` from the aliases; nothing happens if it is absent or the map was never allocated. */
    method DeleteAliasChild(alias: string)
      modifies this`aliasChildren
      ensures aliasChildren.Some? == old(aliasChildren.Some?)
      ensures AliasMap() == old(AliasMap()) - {alias}
    {
      if aliasChildren.Some? {
        aliasChildren := Some(aliasChildren.value - {alias});
      }
    }

    /**
     * Allocates the alias map if needed and registers `alias` if absent.
     * Succeeds when the alias now names `child`: newly, or because it already
     * did; an alias already naming another node is kept and reported.
     */
    method AddAlias(alias: string, child: MNode) returns (ok: bool)
      modifies this`aliasChildren
      ensures aliasChildren == Some(PutIfAbsent(old(AliasMap()), alias, child))
      ensures ok <==> alias !in old(AliasMap()) || old(AliasMap()[alias]) == child
    {
      if aliasChildren.None? {
        aliasChildren := Some(map[]);
      }
      aliasChildren := Some(PutIfAbsent(aliasChildren.value, alias, child));
      ok := aliasChildren.value[alias] == child;
    }

    method SetParent(parent: MNode?)
      modifies this`parent
      ensures this.parent == parent
    {
      this.parent := parent;
    }

    method SetName(name: string)
      modifies this`name
      ensures this.name == name
    {
      this.name := name;
    }

    method SetChildren(children: Option<map<string, MNode>>)
      modifies this`children
      ensures this.children == children
    {
      this.children := children;
    }

    /** The ancestor walk that builds the full path: names from root to this node, separated by `sep`. */
    method ConcatFullPath(sep: char, ghost chain: seq<MNode>) returns (path: string)
      requires AncestorChain(this, chain)
      ensures path == Join(PathNames(chain), sep)
      ensures (forall i :: 0 <= i < |chain| ==> sep !in chain[i].name) ==> Split(path, sep) == PathNames(chain)
    {
      var builder := name;
      var curr := this;
      ghost var i := 0;
      while curr.parent != null
        invariant 0 <= i < |chain| && curr == chain[i]
        invariant builder == Join(PathNames(chain[..i + 1]), sep)
        decreases |chain| - i
      {
        curr := curr.parent;
        i := i + 1;
        assert chain[..i + 1][..i] == chain[..i];
        builder := curr.name + [sep] + builder;
      }
      ChainEnd(this, chain, i);
      assert chain[..i + 1] == chain;
      path := builder;
      if forall i :: 0 <= i < |chain| ==> sep !in chain[i].name {
        SplitJoin(PathNames(chain), sep);
      }
    }

    /**
     * The full path, computed by the ancestor walk on the first call and
     * then interned and cached; later calls return the cache, which nothing
     * clears.
     */
    method GetFullPath(pool: PathPool, sep: char, ghost chain: seq<MNode>) returns (path: string)
      requires pool.Interned()
      requires fullPath.None? ==> AncestorChain(this, chain)
      modifies this`fullPath, pool
      ensures pool.Interned()
      ensures fullPath == Some(path)
      ensures old(fullPath).Some? ==> path == old(fullPath.value) && pool.cache == old(pool.cache)
      ensures old(fullPath).None? ==> path == old(Join(PathNames(chain), sep)) && pool.cache == old(pool.cache)[path := path]
    {
      if fullPath.None? {
        var p := ConcatFullPath(sep, chain);
        if p in pool.cache {
          p := pool.cache[p];
        } else {
          pool.cache := pool.cache[p := p];
        }
        fullPath := Some(p);
      }
      path := fullPath.value;
    }

    /** The names on the ancestor walk as a sequence, root first and this node last. */
    method GetPartialPath(ghost chain: seq<MNode>) returns (segments: seq<string>)
      requires AncestorChain(this, chain)
      ensures segments == PathNames(chain)
      ensures |segments| == |chain| && segments[0] == chain[|chain| - 1].name && segments[|segments| - 1] == name
    {
      segments := [name];
      var temp := this;
      ghost var i := 0;
      while temp.parent != null
        invariant 0 <= i < |chain| && temp == chain[i]
        invariant segments == PathNames(chain[..i + 1])
        decreases |chain| - i
      {
        temp := temp.parent;
        i := i + 1;
        assert chain[..i + 1][..i] == chain[..i];
        segments := [temp.name] + segments;
      }
      ChainEnd(this, chain, i);
      assert chain[..i + 1] == chain;
    }

    /** The sum of the children's leaf counts, 0 when the child map was never allocated. */
    method GetLeafCount(ghost repr: set<MNode>, ghost h: nat) returns (count: int)
      requires Bounded(this, repr, h)
      ensures count == LeafCount(this, repr, h)
      ensures count == 0
      decreases h
    {
      if children.None? {
        LeafCountZero(this, repr, h);
        return 0;
      }
      var m := children.value;
      assert m == GetChildren();
      var leafCount := 0;
      var rest := m.Keys;
      while rest != {}
        invariant rest <= m.Keys
        invariant leafCount + LeafSum(m, rest, repr, h - 1) == LeafSum(m, m.Keys, repr, h - 1)
        decreases |rest|
      {
        var k :| k in rest;
        var c := m[k].GetLeafCount(repr, h - 1);
        LeafSumPick(m, rest, k, repr, h - 1);
        leafCount := leafCount + c;
        rest := rest - {k};
      }
      count := leafCount;
      LeafCountZero(this, repr, h);
    }

    /**
     * Writes this subtree after `bw`: every child's block (children taken in
     * the map's unspecified order), then this node's own line.  The ghost
     * result `t` is the tree as written, children in the order taken.
     */
    method SerializeTo(bw: seq<Line>, tag: int, ghost repr: set<MNode>, ghost h: nat) returns (out: seq<Line>, ghost t: Tree)
      requires Bounded(this, repr, h)
      ensures Depicts(this, t, tag, repr, h) && out == bw + Encode(t)
      ensures |out| > |bw| && out[..|bw|] == bw
      ensures out[|out| - 1] == Line(tag, name, |GetChildren()|)
      decreases h, 1
    {
      ghost var kids;
      out, kids := SerializeChildren(bw, tag, repr, h);
      var count := if children.None? then 0 else |children.value|;
      t := Tree(tag, name, kids);
      assert count == |kids|;
      assert Encode(t) == EncodeAll(kids) + [Line(tag, name, count)];
      AppendAssoc(bw, EncodeAll(kids), [Line(tag, name, count)]);
      out := out + [Line(tag, name, count)];
    }

    /** Writes the block of every primary child, in the map's unspecified order. */
    method SerializeChildren(bw: seq<Line>, tag: int, ghost repr: set<MNode>, ghost h: nat) returns (out: seq<Line>, ghost kids: seq<Tree>)
      requires Bounded(this, repr, h)
      ensures DepictsKids(GetChildren(), kids, tag, repr, h - 1) && out == bw + EncodeAll(kids)
      ensures |out| >= |bw| && out[..|bw|] == bw
      ensures children.None? ==> out == bw
      decreases h, 0
    {
      var m := GetChildren();
      if children.None? {
        assert Enumerates([], m.Keys) && DepictsInOrder(m, [], [], tag, repr, h - 1);
        assert bw + EncodeAll([]) == bw;
        return bw, [];
      }
      var order := EntryOrder(m);
      out, kids := bw, [];
      var i := 0;
      while i < |order|
        invariant 0 <= i <= |order|
        invariant DepictsInOrder(m, order[..i], kids, tag, repr, h - 1)
        invariant out == bw + EncodeAll(kids)
      {
        assert order[i] in m;
        assert order[..i + 1] == order[..i] + [order[i]];
        var next;
        ghost var t;
        next, t := m[order[i]].SerializeTo(out, tag, repr, h - 1);
        ChildWritten(m, order[..i], kids, order[i], t, bw, out, tag, repr, h - 1);
        out, i, kids := next, i + 1, kids + [t];
      }
      assert order[..i] == order;
      EnumerationLength(order, m.Keys);
    }
  }

  /**
   * Some listing of the map's keys, each exactly once: the iteration order
   * of a concurrent hash map, which nothing specifies further.
   */
  method EntryOrder(m: map<string, MNode>) returns (order: seq<string>)
    ensures Enumerates(order, m.Keys)
  {
    order := [];
    var rest := m.Keys;
    while rest != {}
      invariant rest <= m.Keys
      invariant forall k :: k in order ==> k in m.Keys
      invariant forall k :: k in m.Keys ==> (k in order <==> k !in rest)
      invariant forall i, j :: 0 <= i < j < |order| ==> order[i] != order[j]
      decreases |rest|
    {
      var k :| k in rest;
      order, rest := order + [k], rest - {k};
    }
  }

  /**
   * `chain` is the ancestor walk from `n`: `n` first, each next element the
   * previous one's parent, and the last one the root (no parent).
   */
  ghost predicate AncestorChain(n: MNode, chain: seq<MNode>)
    reads chain
  {
    && |chain| >= 1
    && chain[0] == n
    && (forall i :: 0 <= i < |chain| - 1 ==> chain[i].parent == chain[i + 1])
    && chain[|chain| - 1].parent == null
  }

  /** The names along an ancestor chain, reversed so that the root comes first. */
  function PathNames(chain: seq<MNode>): (names: seq<string>)
    reads chain
    ensures |names| == |chain|
    ensures forall i :: 0 <= i < |chain| ==> names[i] == chain[|chain| - 1 - i].name
  {
    if chain == [] then [] else [chain[|chain| - 1].name] + PathNames(chain[..|chain| - 1])
  }

  /** Only the last element of an ancestor chain has no parent. */
  lemma ChainEnd(n: MNode, chain: seq<MNode>, i: int)
    requires AncestorChain(n, chain) && 0 <= i < |chain|
    ensures chain[i].parent == null <==> i == |chain| - 1
  {
    if i < |chain| - 1 {
      assert chain[i].parent == chain[i + 1];
    }
  }

  /** The parent links determine the ancestor chain: there is only one. */
  lemma {:induction false} AncestorChainUnique(n: MNode, a: seq<MNode>, b: seq<MNode>)
    requires AncestorChain(n, a) && AncestorChain(n, b)
    ensures a == b
  {
    var i := 0;
    while i < |a| - 1 && i < |b| - 1
      invariant 0 <= i < |a| && i < |b| && a[..i + 1] == b[..i + 1]
      decreases |a| - i
    {
      assert a[i + 1] == a[i].parent == b[i].parent == b[i + 1];
      assert a[..i + 2] == a[..i + 1] + [a[i + 1]];
      assert b[..i + 2] == b[..i + 1] + [b[i + 1]];
      i := i + 1;
    }
    assert a[i] == b[i];
    ChainEnd(n, a, i);
    ChainEnd(n, b, i);
    assert a == a[..i + 1] && b == b[..i + 1];
  }

  /**
   * The subtree under `n` lies in `repr` and has height at most `h`: the
   * walk down the children ends.
   */
  ghost predicate Bounded(n: MNode, repr: set<MNode>, h: nat)
    reads repr
    decreases h
  {
    && n in repr
    && h > 0
    && forall k :: k in n.GetChildren() ==> n.GetChildren()[k] in repr && Bounded(n.GetChildren()[k], repr, h - 1)
  }

  /** The base node's leaf count: the sum over its child entries. */
  ghost function LeafCount(n: MNode, repr: set<MNode>, h: nat): int
    requires Bounded(n, repr, h)
    reads repr
    decreases h, 0, 0
  {
    if n.children.None? then 0
    else LeafSum(n.GetChildren(), n.GetChildren().Keys, repr, h - 1)
  }

  /** The leaf counts of the children under the keys `ks`, added up. */
  ghost function LeafSum(m: map<string, MNode>, ks: set<string>, repr: set<MNode>, h: nat): int
    requires ks <= m.Keys
    requires forall k :: k in ks ==> Bounded(m[k], repr, h)
    reads repr
    decreases h, 1, |ks|
  {
    if ks == {} then 0
    else
      var k :| k in ks;
      LeafCount(m[k], repr, h) + LeafSum(m, ks - {k}, repr, h)
  }

  /** The sum does not depend on which key is taken first. */
  lemma {:induction false} LeafSumPick(m: map<string, MNode>, ks: set<string>, k: string, repr: set<MNode>, h: nat)
    requires ks <= m.Keys && k in ks
    requires forall j :: j in ks ==> Bounded(m[j], repr, h)
    ensures LeafSum(m, ks, repr, h) == LeafCount(m[k], repr, h) + LeafSum(m, ks - {k}, repr, h)
    decreases |ks|
  {
    var j :| j in ks && LeafSum(m, ks, repr, h) == LeafCount(m[j], repr, h) + LeafSum(m, ks - {j}, repr, h);
    if j != k {
      LeafSumPick(m, ks - {j}, k, repr, h);
      LeafSumPick(m, ks - {k}, j, repr, h);
      assert ks - {j} - {k} == ks - {k} - {j};
    }
  }

  /**
   * A subtree made only of base nodes has no leaves: the base class counts
   * nothing itself, so every sum is a sum of zeros.
   */
  lemma {:induction false} LeafCountZero(n: MNode, repr: set<MNode>, h: nat)
    requires Bounded(n, repr, h)
    ensures LeafCount(n, repr, h) == 0
    decreases h, 0, 0
  {
    if n.children.Some? {
      LeafSumZero(n.GetChildren(), n.GetChildren().Keys, repr, h - 1);
    }
  }

  lemma {:induction false} LeafSumZero(m: map<string, MNode>, ks: set<string>, repr: set<MNode>, h: nat)
    requires ks <= m.Keys
    requires forall k :: k in ks ==> Bounded(m[k], repr, h)
    ensures LeafSum(m, ks, repr, h) == 0
    decreases h, 1, |ks|
  {
    if ks != {} {
      var k :| k in ks && LeafSum(m, ks, repr, h) == LeafCount(m[k], repr, h) + LeafSum(m, ks - {k}, repr, h);
      LeafCountZero(m[k], repr, h);
      LeafSumZero(m, ks - {k}, repr, h);
    }
  }

  /** `ks` lists every key of `keys` exactly once. */
  ghost predicate Enumerates(ks: seq<string>, keys: set<string>)
  {
    && (forall i, j :: 0 <= i < j < |ks| ==> ks[i] != ks[j])
    && (forall k :: k in ks <==> k in keys)
  }

  lemma {:induction false} EnumerationLength(ks: seq<string>, keys: set<string>)
    requires Enumerates(ks, keys)
    ensures |ks| == |keys|
    decreases |ks|
  {
    if ks != [] {
      assert ks[0] in keys;
      forall k ensures k in ks[1..] <==> k in keys - {ks[0]} {
        if k in ks[1..] {
          var i :| 1 <= i < |ks| && ks[i] == k;
          assert ks[0] != ks[i];
        }
        if k in keys - {ks[0]} {
          var i :| 0 <= i < |ks| && ks[i] == k;
          assert i != 0;
          assert ks[1..][i - 1] == k;
        }
      }
      EnumerationLength(ks[1..], keys - {ks[0]});
    } else {
      assert forall k :: k !in keys;
      assert keys == {};
    }
  }

  /**
   * `t` is a tree that the serialization of `n` may write: the node's tag
   * and name, and its children in some order that takes every child entry
   * once.
   */
  ghost predicate Depicts(n: MNode, t: Tree, tag: int, repr: set<MNode>, h: nat)
    reads repr
    decreases h, 0
  {
    && n in repr
    && h > 0
    && t.tag == tag
    && t.name == n.name
    && DepictsKids(n.GetChildren(), t.kids, tag, repr, h - 1)
  }

  /** `kids` depict the children of `m`, one per key, in the order of some listing of the keys. */
  ghost predicate DepictsKids(m: map<string, MNode>, kids: seq<Tree>, tag: int, repr: set<MNode>, h: nat)
    reads repr
    decreases h, 2
  {
    && |kids| == |m|
    && exists ks :: Enumerates(ks, m.Keys) && DepictsInOrder(m, ks, kids, tag, repr, h)
  }

  /** `kids[j]` depicts the child under the key `ks[j]`, for every j. */
  ghost predicate DepictsInOrder(m: map<string, MNode>, ks: seq<string>, kids: seq<Tree>, tag: int, repr: set<MNode>, h: nat)
    reads repr
    decreases h, 1
  {
    && |ks| == |kids|
    && forall j :: 0 <= j < |ks| ==> ks[j] in m && Depicts(m[ks[j]], kids[j], tag, repr, h)
  }

  /** One more child block written: the listing and the output grow together. */
  lemma ChildWritten(m: map<string, MNode>, ks: seq<string>, kids: seq<Tree>, k: string, t: Tree,
                     bw: seq<Line>, out: seq<Line>, tag: int, repr: set<MNode>, h: nat)
    requires DepictsInOrder(m, ks, kids, tag, repr, h) && out == bw + EncodeAll(kids)
    requires k in m && Depicts(m[k], t, tag, repr, h)
    ensures DepictsInOrder(m, ks + [k], kids + [t], tag, repr, h)
    ensures out + Encode(t) == bw + EncodeAll(kids + [t])
  {
    var ks', kids' := ks + [k], kids + [t];
    forall j | 0 <= j < |ks'|
      ensures ks'[j] in m && Depicts(m[ks'[j]], kids'[j], tag, repr, h)
    {
      if j < |ks| {
        assert ks'[j] == ks[j] && kids'[j] == kids[j];
      }
    }
    EncodeAllAppend(kids, [t]);
    assert EncodeAll([t]) == Encode(t);
    AppendAssoc(bw, EncodeAll(kids), Encode(t));
  }

  /** The lines of the subtree under `n`, as a multiset: independent of any child order. */
  ghost function LinesOf(n: MNode, tag: int, repr: set<MNode>, h: nat): multiset<Line>
    requires Bounded(n, repr, h)
    reads repr
    decreases h, 0, 0
  {
    var m := n.GetChildren();
    LinesSum(m, m.Keys, tag, repr, h - 1) + multiset{Line(tag, n.name, |m|)}
  }

  ghost function LinesSum(m: map<string, MNode>, ks: set<string>, tag: int, repr: set<MNode>, h: nat): multiset<Line>
    requires ks <= m.Keys
    requires forall k :: k in ks ==> Bounded(m[k], repr, h)
    reads repr
    decreases h, 1, |ks|
  {
    if ks == {} then multiset{}
    else
      var k :| k in ks;
      LinesOf(m[k], tag, repr, h) + LinesSum(m, ks - {k}, tag, repr, h)
  }

  lemma {:induction false} LinesSumPick(m: map<string, MNode>, ks: set<string>, k: string, tag: int, repr: set<MNode>, h: nat)
    requires ks <= m.Keys && k in ks
    requires forall j :: j in ks ==> Bounded(m[j], repr, h)
    ensures LinesSum(m, ks, tag, repr, h) == LinesOf(m[k], tag, repr, h) + LinesSum(m, ks - {k}, tag, repr, h)
    decreases |ks|
  {
    var j :| j in ks && LinesSum(m, ks, tag, repr, h) == LinesOf(m[j], tag, repr, h) + LinesSum(m, ks - {j}, tag, repr, h);
    if j != k {
      LinesSumPick(m, ks - {j}, k, tag, repr, h);
      LinesSumPick(m, ks - {k}, j, tag, repr, h);
      assert ks - {j} - {k} == ks - {k} - {j};
    }
  }

  /**
   * Whatever child order the serialization took, it wrote exactly the lines
   * of the subtree: one per node entry, each with its name and child count.
   */
  lemma {:induction false} SerializedLines(n: MNode, t: Tree, tag: int, repr: set<MNode>, h: nat)
    requires Bounded(n, repr, h) && Depicts(n, t, tag, repr, h)
    ensures multiset(Encode(t)) == LinesOf(n, tag, repr, h)
    decreases h, 0
  {
    var m := n.GetChildren();
    var ks :| Enumerates(ks, m.Keys) && DepictsInOrder(m, ks, t.kids, tag, repr, h - 1);
    assert KeySet(ks) == m.Keys;
    KidsLines(m, ks, t.kids, tag, repr, h - 1);
    EnumerationLength(ks, m.Keys);
  }

  lemma {:induction false} KidsLines(m: map<string, MNode>, ks: seq<string>, kids: seq<Tree>, tag: int, repr: set<MNode>, h: nat)
    requires forall i, j :: 0 <= i < j < |ks| ==> ks[i] != ks[j]
    requires forall i :: 0 <= i < |ks| ==> ks[i] in m && Bounded(m[ks[i]], repr, h)
    requires DepictsInOrder(m, ks, kids, tag, repr, h)
    ensures multiset(EncodeAll(kids)) == LinesSum(m, KeySet(ks), tag, repr, h)
    decreases h, 1, |ks|
  {
    if ks == [] {
      assert KeySet(ks) == {};
    } else {
      var s := KeySet(ks);
      assert KeySet(ks[1..]) == s - {ks[0]} by {
        forall k ensures k in KeySet(ks[1..]) <==> k in s - {ks[0]} {
          if k in s - {ks[0]} {
            var i :| 0 <= i < |ks| && ks[i] == k;
            assert ks[1..][i - 1] == k;
          }
        }
      }
      SerializedLines(m[ks[0]], kids[0], tag, repr, h);
      KidsLines(m, ks[1..], kids[1..], tag, repr, h);
      LinesSumPick(m, s, ks[0], tag, repr, h);
      assert EncodeAll(kids) == Encode(kids[0]) + EncodeAll(kids[1..]);
    }
  }

  /**
   * What one serializeTo call wrote after `bw` reads back, by the stack
   * reconstruction, as exactly the tree it depicts, and holds one line per
   * node of the subtree whatever the child order was.
   */
  lemma SerializedRoundTrip(n: MNode, t: Tree, bw: seq<Line>, out: seq<Line>, tag: int, repr: set<MNode>, h: nat)
    requires Bounded(n, repr, h) && Depicts(n, t, tag, repr, h) && out == bw + Encode(t)
    ensures Decode(out[|bw|..]) == Some(t)
    ensures multiset(out[|bw|..]) == LinesOf(n, tag, repr, h)
  {
    assert out[|bw|..] == Encode(t);
    DecodeOfEncode(t);
    SerializedLines(n, t, tag, repr, h);
  }

  /** A node whose child map is empty or unallocated is written as a tree without kids. */
  lemma DepictsNoChildren(n: MNode, t: Tree, tag: int, repr: set<MNode>, h: nat)
    requires n.GetChildren() == map[] && Depicts(n, t, tag, repr, h)
    ensures t == Tree(tag, n.name, [])
  {
  }

  /** A node with exactly one child entry is written with that child's tree as its only kid. */
  lemma DepictsSingleChild(n: MNode, k: string, t: Tree, tag: int, repr: set<MNode>, h: nat)
    requires n.GetChildren().Keys == {k} && Depicts(n, t, tag, repr, h)
    ensures |t.kids| == 1 && Depicts(n.GetChildren()[k], t.kids[0], tag, repr, h - 1)
  {
    var m := n.GetChildren();
    var ks :| Enumerates(ks, m.Keys) && DepictsInOrder(m, ks, t.kids, tag, repr, h - 1);
    assert |m| == |m.Keys| == 1;
    assert ks[0] in ks;
  }

  /** The keys listed in `ks`. */
  ghost function KeySet(ks: seq<string>): set<string>
  {
    set k | k in ks
  }
}
