/**
 * The first step of the recursive remove: the key leaves the current page.
 * At a leaf the pair goes (removeFromLeaf); at a router the separator equal
 * to the key is replaced by the first key of the leftmost leaf of the
 * subtree to its right (removeFromInternal), so the router keeps its size.
 */
module Removal {
  import opened Wrappers
  import opened Nodes
  import opened Shape
  import opened Descent
  import opened LeafUpdate

  /**
   * removeFromLeaf on a leaf of a well-formed tree keeps it well formed; the
   * tree loses exactly the entry of the key when the leaf holds it.
   */
  lemma RemoveWf<V>(nodes: Arena<V>, levels: seq<seq<nat>>, level: map<nat, nat>, root: nat, depth: int,
                    leaf: nat, key: int) returns (q: nat)
    requires Wf(nodes, levels, level, root, depth) && leaf in nodes && nodes[leaf].kind == Leaf
    requires |nodes[leaf].vals| == |nodes[leaf].keys|
    ensures var a := nodes[leaf := RemoveFromLeaf(nodes[leaf], key)];
      && Wf(a, levels, level, root, depth)
      && LeavesOk(nodes, levels[0]) && LeavesOk(a, levels[0])
      && var C0 := LeafEntries(nodes, levels[0]);
         var C := LeafEntries(a, levels[0]);
      && (key in nodes[leaf].keys ==> q < |C0| && C0[q].0 == key && C == RemoveAt(C0, q))
      && (key !in nodes[leaf].keys ==> C == C0)
  {
    var X := nodes[leaf];
    var L := RemoveFromLeaf(X, key);
    LeafRewriteWf(nodes, levels, level, root, depth, leaf, L);
    var j := IndexOfChild(levels[0], leaf);
    var A := LeafEntries(nodes, levels[0][..j]);
    var B := LeafEntries(nodes, levels[0][j + 1..]);
    var E := Entries(X.keys, X.vals);
    if key in X.keys {
      var index := FindKey(X.keys, key);
      RemoveAtConcat(A, E, B, index);
      assert LeafEntries(nodes, levels[0])[|A| + index] == E[index];
      q := |A| + index;
    } else {
      q := 0;
    }
  }

  /** The leaf reached from page id by always following the first child. */
  function Leftmost<V>(nodes: Arena<V>, ghost levels: seq<seq<nat>>, ghost level: map<nat, nat>, ghost root: nat,
                       ghost depth: int, id: nat): (r: nat)
    requires Wf(nodes, levels, level, root, depth) && id in nodes
    ensures r in nodes && nodes[r].kind == Leaf && r in levels[0]
    decreases level[id]
  {
    StepOk(nodes, levels, level, root, depth, id, 0);
    if nodes[id].kind == Leaf then id
    else Leftmost(nodes, levels, level, root, depth, nodes[id].children[0])
  }

  /**
   * From the first page of any level, the leftmost descent ends at the first
   * leaf of the chain; in particular from the root.
   */
  lemma {:induction false} LeftmostFirst<V>(nodes: Arena<V>, levels: seq<seq<nat>>, level: map<nat, nat>,
                                            root: nat, depth: int, h: nat)
    requires Wf(nodes, levels, level, root, depth) && h < |levels| && levels[h] != []
    ensures levels[0] != [] && levels[h][0] in nodes
    ensures Leftmost(nodes, levels, level, root, depth, levels[h][0]) == levels[0][0]
    decreases h
  {
    var id := levels[h][0];
    StepOk(nodes, levels, level, root, depth, id, 0);
    if h > 0 {
      assert PageOk(nodes[id], level[id], id == root);
      assert LevelLinked(nodes, levels, h - 1);
      KidsAt(nodes, levels[h], 0);
      assert levels[h][..0] == [];
      assert levels[h - 1][0] == nodes[id].children[0];
      LeftmostFirst(nodes, levels, level, root, depth, h - 1);
    }
  }

  /** X' may replace router X: only the keys differ, and there are as many of them. */
  ghost predicate RouterRewrite<V>(X: Node<V>, X': Node<V>)
  {
    && X'.kind == X.kind && X'.children == X.children && X'.vals == X.vals
    && X'.parent == X.parent && X'.prev == X.prev && X'.next == X.next
    && |X'.keys| == |X.keys|
  }

  /**
   * removeFromInternal: when the router holds the key at index i, that
   * separator becomes the first key of the leftmost leaf under child i + 1;
   * the router is left as it is when the key is absent or that leaf is empty.
   */
  function RemoveFromRouter<V>(nodes: Arena<V>, ghost levels: seq<seq<nat>>, ghost level: map<nat, nat>,
                               ghost root: nat, ghost depth: int, id: nat, key: int): (r: Node<V>)
    requires Wf(nodes, levels, level, root, depth) && id in nodes && nodes[id].kind != Leaf
    ensures RouterRewrite(nodes[id], r)
    ensures key !in nodes[id].keys ==> r == nodes[id]
    ensures key in nodes[id].keys ==>
      var i := FindKey(nodes[id].keys, key);
      && i + 1 < |nodes[id].children|
      && (forall k | 0 <= k < |r.keys| && k != i :: r.keys[k] == nodes[id].keys[k])
      && var leaf := Leftmost(nodes, levels, level, root, depth, nodes[id].children[i + 1]);
      && (if nodes[leaf].keys == [] then r.keys[i] == key else r.keys[i] == nodes[leaf].keys[0])
  {
    var n := nodes[id];
    var i := FindKey(n.keys, key);
    if i == -1 then n
    else
      StepOk(nodes, levels, level, root, depth, id, i + 1);
      var leaf := Leftmost(nodes, levels, level, root, depth, n.children[i + 1]);
      if nodes[leaf].keys == [] then n
      else n.(keys := n.keys[i := nodes[leaf].keys[0]])
  }

  /**
   * Rewriting the keys of a router keeps the invariant and the contents: the
   * router has the same children and links, and holds no entries.
   */
  lemma RouterRewriteWf<V>(nodes: Arena<V>, levels: seq<seq<nat>>, level: map<nat, nat>, root: nat, depth: int,
                           x: nat, X': Node<V>)
    requires Wf(nodes, levels, level, root, depth) && x in nodes && nodes[x].kind != Leaf
    requires RouterRewrite(nodes[x], X')
    ensures Wf(nodes[x := X'], levels, level, root, depth)
    ensures LeavesOk(nodes, levels[0]) && LeavesOk(nodes[x := X'], levels[0])
    ensures LeafEntries(nodes[x := X'], levels[0]) == LeafEntries(nodes, levels[0])
  {
    var a := nodes[x := X'];
    LeafRewriteLinked(nodes, levels, level, root, depth, x, X');
    forall id | id in a && id in level ensures PageOk(a[id], level[id], id == root) {
      assert PageOk(nodes[id], level[id], id == root);
    }
    forall p, k | p in a && 0 <= k < |a[p].children| ensures a[p].children[k] in a && a[a[p].children[k]].parent == Some(p) {
      assert a[p].children == nodes[p].children;
    }
    forall k | 0 <= k < |levels[0]| ensures ChainLink(a, levels[0], k) {
      assert ChainLink(nodes, levels[0], k);
    }
    LeavesOkFromWf(nodes, levels, level, root, depth);
    assert PageOk(nodes[x], level[x], x == root);
    forall k | 0 <= k < |levels[0]| ensures levels[0][k] != x && a[levels[0][k]] == nodes[levels[0][k]] {
      assert level[levels[0][k]] == 0;
      assert PageOk(nodes[levels[0][k]], 0, levels[0][k] == root);
    }
    LeafEntriesFrame(nodes, a, levels[0]);
  }
}
