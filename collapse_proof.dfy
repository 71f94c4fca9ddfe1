/**
 * An emptied root collapses into its only child: the tree loses its top
 * level, keeps its invariant one level lower, and keeps its contents.
 */
module CollapseProof {
  import opened Wrappers
  import opened Nodes
  import opened Shape
  import opened Rebalance

  /** The root is a router with no keys, hence with one child c. */
  lemma CollapseReady<V>(nodes: Arena<V>, levels: seq<seq<nat>>, level: map<nat, nat>, root: nat, depth: int)
    returns (c: nat)
    requires Wf(nodes, levels, level, root, depth) && depth > 1
    requires root in nodes && nodes[root].keys == []
    ensures nodes[root].children == [c] && c in nodes && c != root
    ensures level[c] == depth - 2 && nodes[c].parent == Some(root)
    ensures levels[depth - 2] == [c]
  {
    WfRoot(nodes, levels, level, root, depth);
    assert PageOk(nodes[root], level[root], true);
    c := nodes[root].children[0];
    assert nodes[c].parent == Some(root);
    assert LevelLinked(nodes, levels, depth - 2);
    assert [root][..0] == [];
    assert Kids(nodes, [root]) == nodes[root].children;
  }

  lemma CollapseLayered<V>(nodes: Arena<V>, a: Arena<V>, levels: seq<seq<nat>>, level: map<nat, nat>,
                           root: nat, depth: int, c: nat)
    requires Layered(nodes, levels, level, root, depth) && depth > 1 && levels[depth - 2] == [c]
    requires root in nodes && a.Keys == nodes.Keys - {root}
    ensures Layered(a, levels[..depth - 1], level - {root}, c, depth - 1)
  {
    var ls := levels[..depth - 1];
    var lv := level - {root};
    assert levels[depth - 1] == [root];
    forall id | id in lv ensures lv[id] < depth - 1 && id in ls[lv[id]] {
      assert id in levels[level[id]];
    }
    forall t, k | 0 <= t < |ls| && 0 <= k < |ls[t]| ensures ls[t][k] in a && ls[t][k] in lv && lv[ls[t][k]] == t {
      assert ls[t][k] == levels[t][k];
      assert level[root] == depth - 1 by {
        assert levels[depth - 1][0] == root;
      }
    }
    forall t | 0 <= t < |ls| ensures Distinct(ls[t]) {
      assert ls[t] == levels[t];
    }
  }

  /** Every page below the root keeps its children, keys and links; only c loses its parent and may change kind. */
  lemma CollapseFrame<V>(nodes: Arena<V>, root: nat, depth: int, c: nat, id: nat)
    requires root in nodes && nodes[root].children == [c] && c in nodes && c != root
    requires id in nodes && id != root
    ensures var a := Collapse(nodes, root, depth);
      && id in a && a[id].children == nodes[id].children && a[id].keys == nodes[id].keys
      && a[id].vals == nodes[id].vals && a[id].prev == nodes[id].prev && a[id].next == nodes[id].next
      && (id != c ==> a[id] == nodes[id])
  {
  }

  lemma CollapseLinked<V>(nodes: Arena<V>, levels: seq<seq<nat>>, level: map<nat, nat>, root: nat, depth: int, c: nat)
    requires Wf(nodes, levels, level, root, depth) && depth > 1
    requires root in nodes && nodes[root].children == [c] && c in nodes && c != root && level[root] == depth - 1
    requires Layered(Collapse(nodes, root, depth), levels[..depth - 1], level - {root}, c, depth - 1)
    ensures Linked(Collapse(nodes, root, depth), levels[..depth - 1])
  {
    var a := Collapse(nodes, root, depth);
    var ls := levels[..depth - 1];
    forall t | 0 <= t < |ls| - 1 ensures LevelLinked(a, ls, t) {
      assert LevelLinked(nodes, levels, t);
      var U := levels[t + 1];
      assert ls[t + 1] == U && ls[t] == levels[t];
      forall k | 0 <= k < |U| ensures U[k] in a && a[U[k]].children == nodes[U[k]].children {
        assert level[U[k]] == t + 1;
        CollapseFrame(nodes, root, depth, c, U[k]);
      }
      KidsFrame(nodes, a, U);
    }
  }

  lemma CollapsePages<V>(nodes: Arena<V>, levels: seq<seq<nat>>, level: map<nat, nat>, root: nat, depth: int, c: nat)
    requires Wf(nodes, levels, level, root, depth) && depth > 1
    requires root in nodes && nodes[root].children == [c] && c in nodes && c != root && level[c] == depth - 2
    ensures PagesOk(Collapse(nodes, root, depth), level - {root}, c)
  {
    var a := Collapse(nodes, root, depth);
    forall id | id in a && id in level - {root} ensures PageOk(a[id], level[id], id == c) {
      assert PageOk(nodes[id], level[id], id == root);
      CollapseFrame(nodes, root, depth, c, id);
    }
  }

  lemma CollapseParents<V>(nodes: Arena<V>, root: nat, depth: int, c: nat)
    requires ParentsOk(nodes)
    requires root in nodes && nodes[root].children == [c] && c in nodes && c != root && nodes[root].parent == None
    ensures ParentsOk(Collapse(nodes, root, depth))
  {
    var a := Collapse(nodes, root, depth);
    forall q, k | q in a && 0 <= k < |a[q].children| ensures a[q].children[k] in a && a[a[q].children[k]].parent == Some(q) {
      CollapseFrame(nodes, root, depth, c, q);
      var x := nodes[q].children[k];
      assert nodes[x].parent == Some(q);
      assert nodes[c].parent == Some(root) by {
        assert nodes[root].children[0] == c;
      }
      CollapseFrame(nodes, root, depth, c, x);
    }
  }

  lemma CollapseLeaves<V>(nodes: Arena<V>, levels: seq<seq<nat>>, level: map<nat, nat>, root: nat, depth: int, c: nat)
    requires Wf(nodes, levels, level, root, depth) && depth > 1
    requires root in nodes && nodes[root].children == [c] && c in nodes && c != root && level[root] == depth - 1
    ensures LeavesOk(nodes, levels[0])
    ensures ChainOk(Collapse(nodes, root, depth), levels[0])
    ensures LeavesOk(Collapse(nodes, root, depth), levels[0])
    ensures LeafEntries(Collapse(nodes, root, depth), levels[0]) == LeafEntries(nodes, levels[0])
  {
    var a := Collapse(nodes, root, depth);
    var L0 := levels[0];
    LeavesOkFromWf(nodes, levels, level, root, depth);
    forall k | 0 <= k < |L0| ensures L0[k] != root {
      assert level[L0[k]] == 0;
    }
    forall k | 0 <= k < |L0| ensures ChainLink(a, L0, k) {
      assert ChainLink(nodes, L0, k);
      CollapseFrame(nodes, root, depth, c, L0[k]);
    }
    forall k | 0 <= k < |L0| ensures L0[k] in a && a[L0[k]].keys == nodes[L0[k]].keys && a[L0[k]].vals == nodes[L0[k]].vals {
      CollapseFrame(nodes, root, depth, c, L0[k]);
    }
    LeafEntriesFrame(nodes, a, L0);
  }

  /**
   * Collapsing an empty root keeps the invariant with the top level removed,
   * its child as the new root and the depth one less, and keeps the contents.
   */
  lemma CollapseWf<V>(nodes: Arena<V>, levels: seq<seq<nat>>, level: map<nat, nat>, root: nat, depth: int)
    returns (c: nat)
    requires Wf(nodes, levels, level, root, depth) && depth > 1
    requires root in nodes && nodes[root].keys == []
    ensures nodes[root].children == [c] && c in nodes && c != root
    ensures Wf(Collapse(nodes, root, depth), levels[..depth - 1], level - {root}, c, depth - 1)
    ensures LeavesOk(nodes, levels[0]) && LeavesOk(Collapse(nodes, root, depth), levels[..depth - 1][0])
    ensures LeafEntries(Collapse(nodes, root, depth), levels[..depth - 1][0]) == LeafEntries(nodes, levels[0])
  {
    c := CollapseReady(nodes, levels, level, root, depth);
    WfRoot(nodes, levels, level, root, depth);
    var a := Collapse(nodes, root, depth);
    CollapseLayered(nodes, a, levels, level, root, depth, c);
    CollapseLinked(nodes, levels, level, root, depth, c);
    CollapsePages(nodes, levels, level, root, depth, c);
    CollapseParents(nodes, root, depth, c);
    CollapseLeaves(nodes, levels, level, root, depth, c);
    assert levels[..depth - 1][0] == levels[0];
  }
}
