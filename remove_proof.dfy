/**
 * The repairs of remove as the C++ code calls them from the page that
 * underflowed, each proved to keep the structural invariant and the
 * contents, together with what they do to page sizes.
 */
module RemoveProof {
  import opened Wrappers
  import opened Nodes
  import opened Shape
  import opened Rebalance
  import opened PairFacts
  import opened ShiftProof
  import opened MergeProof

  /** borrowFromRightLeaf / borrowFromRightInternal, called on children[i] of p. */
  function BorrowFromRight<V>(nodes: Arena<V>, p: nat, i: nat): (a: Arena<V>)
    requires PairReady(nodes, p, i) && |nodes[nodes[p].children[i + 1]].keys| >= 2
    ensures a.Keys == nodes.Keys
    ensures a[nodes[p].children[i]].Size() == nodes[nodes[p].children[i]].Size() + 1 && a[nodes[p].children[i + 1]].Size() == nodes[nodes[p].children[i + 1]].Size() - 1
    ensures a[p].Size() == nodes[p].Size()
    ensures nodes[nodes[p].children[i]].kind == Leaf ==> a[p].keys[i] == a[nodes[p].children[i + 1]].keys[0]
    ensures nodes[nodes[p].children[i]].kind != Leaf ==> a[p].keys[i] == nodes[nodes[p].children[i + 1]].keys[0]
  {
    if nodes[nodes[p].children[i]].kind == Leaf then ShiftLeftLeaf(nodes, p, i) else ShiftLeftRouter(nodes, p, i)
  }

  /** borrowFromLeftLeaf / borrowFromLeftInternal, called on children[i + 1] of p. */
  function BorrowFromLeft<V>(nodes: Arena<V>, p: nat, i: nat): (a: Arena<V>)
    requires PairReady(nodes, p, i) && |nodes[nodes[p].children[i]].keys| >= 1
    ensures a.Keys == nodes.Keys
    ensures a[nodes[p].children[i + 1]].Size() == nodes[nodes[p].children[i + 1]].Size() + 1 && a[nodes[p].children[i]].Size() == nodes[nodes[p].children[i]].Size() - 1
    ensures a[p].Size() == nodes[p].Size()
    ensures a[p].keys[i] == nodes[nodes[p].children[i]].keys[nodes[nodes[p].children[i]].Size() - 1]
  {
    if nodes[nodes[p].children[i]].kind == Leaf then ShiftRightLeaf(nodes, p, i) else ShiftRightRouter(nodes, p, i)
  }

  /**
   * mergeWithRightLeaf / mergeWithRightInternal called on children[i], and
   * mergeWithLeftLeaf / mergeWithLeftInternal called on children[i + 1]:
   * children[i] survives either way.
   */
  function MergePair<V>(nodes: Arena<V>, p: nat, i: nat): (a: Arena<V>)
    requires PairReady(nodes, p, i)
    ensures a.Keys == nodes.Keys - {nodes[p].children[i + 1]}
    ensures a[nodes[p].children[i]].Size() == nodes[nodes[p].children[i]].Size() + nodes[nodes[p].children[i + 1]].Size() + (if nodes[nodes[p].children[i]].kind == Leaf then 0 else 1)
    ensures a[p].Size() == nodes[p].Size() - 1
  {
    if nodes[nodes[p].children[i]].kind == Leaf then MergeLeaves(nodes, p, i) else MergeRouters(nodes, p, i)
  }

  /** Page x gains exactly one key and no other page gains any. */
  ghost predicate GrowsByOne<V>(nodes: Arena<V>, a: Arena<V>, x: nat)
  {
    && a.Keys == nodes.Keys && x in nodes
    && a[x].Size() == nodes[x].Size() + 1
    && forall id | id in a && id != x :: a[id].Size() <= nodes[id].Size()
  }

  lemma BorrowFromRightSizes<V>(nodes: Arena<V>, p: nat, i: nat)
    requires PairReady(nodes, p, i) && |nodes[nodes[p].children[i + 1]].keys| >= 2
    ensures GrowsByOne(nodes, BorrowFromRight(nodes, p, i), nodes[p].children[i])
  {
    var a := BorrowFromRight(nodes, p, i);
    var l, r := nodes[p].children[i], nodes[p].children[i + 1];
    forall id | id in a && id != l ensures a[id].Size() <= nodes[id].Size() {
      if id != r && id != p { assert a[id].keys == nodes[id].keys; }
    }
  }

  lemma BorrowFromLeftSizes<V>(nodes: Arena<V>, p: nat, i: nat)
    requires PairReady(nodes, p, i) && |nodes[nodes[p].children[i]].keys| >= 1
    ensures GrowsByOne(nodes, BorrowFromLeft(nodes, p, i), nodes[p].children[i + 1])
  {
    var a := BorrowFromLeft(nodes, p, i);
    var l, r := nodes[p].children[i], nodes[p].children[i + 1];
    forall id | id in a && id != r ensures a[id].Size() <= nodes[id].Size() {
      if id != l && id != p { assert a[id].keys == nodes[id].keys; }
    }
  }

  /**
   * A merge leaves the survivor with the keys of both pages, plus the
   * separator between routers; the parent loses one key, no page grows.
   */
  lemma MergePairSizes<V>(nodes: Arena<V>, p: nat, i: nat)
    requires PairReady(nodes, p, i)
    ensures var a := MergePair(nodes, p, i);
      var l, r := nodes[p].children[i], nodes[p].children[i + 1];
      && l in a
      && a[l].Size() == nodes[l].Size() + nodes[r].Size() + (if nodes[l].kind == Leaf then 0 else 1)
      && (forall id | id in a && id != l :: a[id].Size() <= nodes[id].Size())
  {
    var a := MergePair(nodes, p, i);
    var l := nodes[p].children[i];
    forall id | id in a && id != l ensures a[id].Size() <= nodes[id].Size() {
      if id != p { assert a[id].keys == nodes[id].keys; }
    }
  }

  /** borrowFromRight keeps the invariant and the contents; only the borrowing page grows. */
  lemma BorrowFromRightWf<V>(nodes: Arena<V>, levels: seq<seq<nat>>, level: map<nat, nat>, root: nat, depth: int,
                             p: nat, i: nat)
    requires Wf(nodes, levels, level, root, depth)
    requires p in nodes && nodes[p].kind != Leaf && i + 1 < |nodes[p].children|
    requires nodes[p].children[i + 1] in nodes && |nodes[nodes[p].children[i + 1]].keys| >= 2
    ensures PairReady(nodes, p, i)
    ensures Wf(BorrowFromRight(nodes, p, i), levels, level, root, depth)
    ensures LeavesOk(nodes, levels[0]) && LeavesOk(BorrowFromRight(nodes, p, i), levels[0])
    ensures LeafEntries(BorrowFromRight(nodes, p, i), levels[0]) == LeafEntries(nodes, levels[0])
    ensures GrowsByOne(nodes, BorrowFromRight(nodes, p, i), nodes[p].children[i])
  {
    var jp, s := WfPairReady(nodes, levels, level, root, depth, p, i);
    if nodes[nodes[p].children[i]].kind == Leaf {
      ShiftLeftLeafFacts(nodes, p, i);
    } else {
      ShiftLeftRouterFacts(nodes, p, i);
    }
    ShiftWf(nodes, levels, level, root, depth, p, i, BorrowFromRight(nodes, p, i));
    BorrowFromRightSizes(nodes, p, i);
  }

  /** borrowFromLeft keeps the invariant and the contents; only the borrowing page grows. */
  lemma BorrowFromLeftWf<V>(nodes: Arena<V>, levels: seq<seq<nat>>, level: map<nat, nat>, root: nat, depth: int,
                            p: nat, i: nat)
    requires Wf(nodes, levels, level, root, depth)
    requires p in nodes && nodes[p].kind != Leaf && i + 1 < |nodes[p].children|
    requires nodes[p].children[i] in nodes && |nodes[nodes[p].children[i]].keys| >= 1
    ensures PairReady(nodes, p, i)
    ensures Wf(BorrowFromLeft(nodes, p, i), levels, level, root, depth)
    ensures LeavesOk(nodes, levels[0]) && LeavesOk(BorrowFromLeft(nodes, p, i), levels[0])
    ensures LeafEntries(BorrowFromLeft(nodes, p, i), levels[0]) == LeafEntries(nodes, levels[0])
    ensures GrowsByOne(nodes, BorrowFromLeft(nodes, p, i), nodes[p].children[i + 1])
  {
    var jp, s := WfPairReady(nodes, levels, level, root, depth, p, i);
    if nodes[nodes[p].children[i]].kind == Leaf {
      ShiftRightLeafFacts(nodes, p, i);
    } else {
      ShiftRightRouterFacts(nodes, p, i);
    }
    ShiftWf(nodes, levels, level, root, depth, p, i, BorrowFromLeft(nodes, p, i));
    BorrowFromLeftSizes(nodes, p, i);
  }

  /**
   * A merge keeps the invariant once the right page leaves its level, and
   * keeps the contents; the two pages were siblings on one level.
   */
  lemma MergePairWf<V>(nodes: Arena<V>, levels: seq<seq<nat>>, level: map<nat, nat>, root: nat, depth: int,
                       p: nat, i: nat)
    requires Wf(nodes, levels, level, root, depth)
    requires p in nodes && nodes[p].kind != Leaf && i + 1 < |nodes[p].children|
    ensures PairReady(nodes, p, i)
    ensures var l, r := nodes[p].children[i], nodes[p].children[i + 1];
      && l in level && r in level && level[l] == level[r] && l != r
      && r in level && level[r] < |levels| && r in levels[level[r]]
      && Wf(MergePair(nodes, p, i), DropPage(levels, level, r), level - {r}, root, depth)
      && LeavesOk(nodes, levels[0]) && LeavesOk(MergePair(nodes, p, i), DropPage(levels, level, r)[0])
      && LeafEntries(MergePair(nodes, p, i), DropPage(levels, level, r)[0]) == LeafEntries(nodes, levels[0])
  {
    var jp, s := WfPairReady(nodes, levels, level, root, depth, p, i);
    if nodes[nodes[p].children[i]].kind == Leaf {
      MergeLeavesFacts(nodes, p, i);
    } else {
      MergeRoutersFacts(nodes, p, i);
    }
    MergeWf(nodes, levels, level, root, depth, p, i, MergePair(nodes, p, i));
  }

  /** A page of kind Root is the root of a tree of two levels or more. */
  lemma RootKind<V>(nodes: Arena<V>, levels: seq<seq<nat>>, level: map<nat, nat>, root: nat, depth: int, id: nat)
    requires Wf(nodes, levels, level, root, depth) && id in nodes
    ensures nodes[id].kind == Root <==> id == root && depth > 1
    ensures nodes[id].kind == Internal ==> id != root
  {
    WfRoot(nodes, levels, level, root, depth);
    assert PageOk(nodes[id], level[id], id == root);
  }

  /** A root that is a leaf is the only leaf: it has no chain neighbours. */
  lemma RootLeafAlone<V>(nodes: Arena<V>, levels: seq<seq<nat>>, level: map<nat, nat>, root: nat, depth: int)
    requires Wf(nodes, levels, level, root, depth) && root in nodes && nodes[root].kind == Leaf
    ensures nodes[root].next == None && nodes[root].prev == None
  {
    WfRoot(nodes, levels, level, root, depth);
    assert PageOk(nodes[root], level[root], true);
    assert levels[0] == [root];
    assert ChainLink(nodes, levels[0], 0);
  }
  /**
   * The chain neighbours of leaf c that share its parent are its neighbours
   * among the parent's children, and the parent is a router.
   */
  ghost predicate LeafSiblingsAgree<V>(nodes: Arena<V>, c: nat)
    requires c in nodes
  {
    var X := nodes[c];
    && (X.next.Some? ==> X.next.value in nodes)
    && (X.prev.Some? ==> X.prev.value in nodes)
    && ((X.next.Some? && X.next.value in nodes && nodes[X.next.value].parent == X.parent) ||
        (X.prev.Some? && X.prev.value in nodes && nodes[X.prev.value].parent == X.parent) ==>
          && X.parent.Some? && X.parent.value in nodes && nodes[X.parent.value].kind != Leaf
          && c in nodes[X.parent.value].children)
    && (X.parent.Some? && X.parent.value in nodes && c in nodes[X.parent.value].children ==>
          var ch := nodes[X.parent.value].children;
          var i := IndexOfChild(ch, c);
          && (X.next.Some? && X.next.value in nodes && nodes[X.next.value].parent == X.parent ==>
                i + 1 < |ch| && ch[i + 1] == X.next.value)
          && (X.prev.Some? && X.prev.value in nodes && nodes[X.prev.value].parent == X.parent ==>
                i > 0 && ch[i - 1] == X.prev.value))
  }

  /** The leaf branch of remove may look for siblings along the chain. */
  lemma LeafSiblings<V>(nodes: Arena<V>, levels: seq<seq<nat>>, level: map<nat, nat>, root: nat, depth: int, c: nat)
    requires Wf(nodes, levels, level, root, depth) && c in nodes && nodes[c].kind == Leaf
    ensures LeafSiblingsAgree(nodes, c)
  {
    if c == root {
      RootLeafAlone(nodes, levels, level, root, depth);
    } else {
      WfRoot(nodes, levels, level, root, depth);
      assert PageOk(nodes[c], level[c], false);
      var p := ChainSibling(nodes, levels, level, root, depth, c);
      var q := WfParent(nodes, levels, level, root, depth, c);
      assert PageOk(nodes[p], level[p], p == root);
      LeafLinksIn(nodes, levels, level, root, depth, c);
    }
  }

  /** A leaf's chain links point into the arena. */
  lemma LeafLinksIn<V>(nodes: Arena<V>, levels: seq<seq<nat>>, level: map<nat, nat>, root: nat, depth: int, c: nat)
    requires Wf(nodes, levels, level, root, depth) && c in nodes && nodes[c].kind == Leaf
    ensures nodes[c].next.Some? ==> nodes[c].next.value in nodes
    ensures nodes[c].prev.Some? ==> nodes[c].prev.value in nodes
  {
    assert PageOk(nodes[c], level[c], c == root);
    assert c in levels[level[c]];
    var j := IndexOfChild(levels[0], c);
    assert ChainLink(nodes, levels[0], j);
  }
}
