/**
 * The search order at the level of the tree's operations: Node::set and
 * removeFromLeaf keep it, a split hands it on to the two halves, and with it
 * find sees exactly the entries the leaves hold.
 */
module SearchOrder {
  import opened Wrappers
  import opened Nodes
  import opened Shape
  import opened Split
  import opened SplitProof
  import opened Descent
  import opened LeafUpdate
  import opened Fences
  import opened SplitFences

  /** Node::set on the leaf findLeaf reaches keeps the search order: the key belongs to that leaf's range. */
  lemma PutFenced<V>(nodes: Arena<V>, levels: seq<seq<nat>>, level: map<nat, nat>, root: nat, depth: int,
                     fence: map<nat, Fence>, leaf: nat, key: int, val: V)
    requires Wf(nodes, levels, level, root, depth) && Fenced(nodes, fence, root)
    requires root in nodes ==> leaf == Descend(nodes, levels, level, root, depth, root, key)
    ensures leaf in nodes && |nodes[leaf].vals| == |nodes[leaf].keys|
    ensures Fenced(nodes[leaf := SetInLeaf(nodes[leaf], key, val)], fence, root)
  {
    WfRoot(nodes, levels, level, root, depth);
    var X := nodes[leaf];
    DescendWithin(nodes, levels, level, root, depth, fence, root, key);
    assert PageFenced(nodes, fence, leaf);
    SetInLeafSorted(X, key, val);
    var L := SetInLeaf(X, key, val);
    if key !in X.keys {
      InsertAtMembers(X.keys, KeyInsertIndex(X.keys, key), key);
    }
    LeafFenced(nodes, fence, root, leaf, L);
  }

  /** removeFromLeaf keeps the search order: the leaf keeps sorted keys it already had. */
  lemma DropFenced<V>(nodes: Arena<V>, fence: map<nat, Fence>, root: nat, x: nat, key: int)
    requires Fenced(nodes, fence, root) && ParentsOk(nodes)
    requires x in nodes && nodes[x].kind == Leaf && |nodes[x].vals| == |nodes[x].keys|
    ensures Fenced(nodes[x := RemoveFromLeaf(nodes[x], key)], fence, root)
  {
    var X := nodes[x];
    assert PageFenced(nodes, fence, x);
    RemoveFromLeafSorted(X, key);
    if key in X.keys {
      RemoveAtMembers(X.keys, FindKey(X.keys, key));
    }
    LeafFenced(nodes, fence, root, x, RemoveFromLeaf(X, key));
  }

  /**
   * splitNode on a page of a well-formed tree keeps the search order: the
   * halves split the page's range at the middle key, which the parent (or
   * the new root) receives.
   */
  lemma SplitPageFenced<V>(nodes: Arena<V>, levels: seq<seq<nat>>, level: map<nat, nat>, root: nat, depth: int,
                           fence: map<nat, Fence>, x: nat, n: nat, r: nat)
    requires SplitPre(nodes, levels, level, root, depth, x, n, r) && Fenced(nodes, fence, root)
    requires |nodes[x].keys| >= 2
    ensures SplitReady(nodes, x)
    ensures var res := SplitNode(nodes, x, n, r);
      var up := res.1.Some?;
      Fenced(res.0, SplitFence(fence, nodes[x].keys, x, n, r, up), if up then r else root)
  {
    SplitStep(nodes, levels, level, root, depth, x, n, r);
    SplitFacts(nodes, x, n, r);
    WfRoot(nodes, levels, level, root, depth);
    if x != root {
      var p := WfParent(nodes, levels, level, root, depth, x);
      var _, _ := WfChildren(nodes, levels, level, root, depth, p);
      StepOk(nodes, levels, level, root, depth, p, 0);
    }
    SplitFenced(nodes, fence, root, SplitNode(nodes, x, n, r).0, x, n, r);
  }

  /**
   * Every entry of the leaves is what find returns for its key: the leaf
   * holding it is the one the descent reaches, and there the key sits once.
   */
  lemma EntryFound<V>(nodes: Arena<V>, levels: seq<seq<nat>>, level: map<nat, nat>, root: nat, depth: int,
                      fence: map<nat, Fence>, k: int, v: V)
    requires Wf(nodes, levels, level, root, depth) && AllFenced(nodes, fence)
    requires LeavesOk(nodes, levels[0]) && (k, v) in LeafEntries(nodes, levels[0])
    ensures root in nodes
    ensures var y := Descend(nodes, levels, level, root, depth, root, k);
      var i := FindKey(nodes[y].keys, k);
      i != -1 && nodes[y].vals[i] == v
  {
    var x, j := LeafEntryFrom(nodes, levels[0], (k, v));
    var t :| 0 <= t < |levels[0]| && levels[0][t] == x;
    StepOk(nodes, levels, level, root, depth, x, 0);
    LeafRoutes(nodes, levels, level, root, depth, fence, x, k);
    assert PageFenced(nodes, fence, x);
    var i := FindKey(nodes[x].keys, k);
    assert i == j;
  }

  /**
   * Once removeFromLeaf has taken the key out of the leaf that held it, no
   * leaf holds it: any other leaf holding it would be the one the descent
   * reaches, which is that leaf.
   */
  lemma DropGone<V>(nodes: Arena<V>, levels: seq<seq<nat>>, level: map<nat, nat>, root: nat, depth: int,
                    fence: map<nat, Fence>, x: nat, key: int)
    requires Wf(nodes, levels, level, root, depth) && AllFenced(nodes, fence)
    requires x in nodes && nodes[x].kind == Leaf && |nodes[x].vals| == |nodes[x].keys| && key in nodes[x].keys
    requires var a := nodes[x := RemoveFromLeaf(nodes[x], key)]; LeavesOk(a, levels[0])
    ensures forall e | e in LeafEntries(nodes[x := RemoveFromLeaf(nodes[x], key)], levels[0]) :: e.0 != key
  {
    var a := nodes[x := RemoveFromLeaf(nodes[x], key)];
    assert PageFenced(nodes, fence, x);
    RemoveFromLeafSorted(nodes[x], key);
    forall e | e in LeafEntries(a, levels[0]) ensures e.0 != key {
      if e.0 == key {
        var y, j := LeafEntryFrom(a, levels[0], e);
        var t :| 0 <= t < |levels[0]| && levels[0][t] == y;
        StepOk(nodes, levels, level, root, depth, y, 0);
        assert y != x && nodes[y].keys[j] == key;
        LeafRoutes(nodes, levels, level, root, depth, fence, y, key);
        LeafRoutes(nodes, levels, level, root, depth, fence, x, key);
        assert false;
      }
    }
  }
}
