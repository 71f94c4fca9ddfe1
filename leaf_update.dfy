/**
 * Rewriting the keys and values of one leaf in place (Node::set and
 * removeFromLeaf) keeps the structural invariant, and changes the tree's
 * contents only inside that leaf's stretch of the leaf chain.
 */
module LeafUpdate {
  import opened Wrappers
  import opened Nodes
  import opened Shape

  /** X' may replace leaf X: only keys and values differ, and they stay parallel. */
  ghost predicate LeafRewrite<V>(X: Node<V>, X': Node<V>)
  {
    && X'.kind == X.kind && X'.children == X.children
    && X'.parent == X.parent && X'.prev == X.prev && X'.next == X.next
    && |X'.vals| == |X'.keys|
  }

  lemma LeafRewriteShape<V>(nodes: Arena<V>, levels: seq<seq<nat>>, level: map<nat, nat>, root: nat, depth: int,
                            x: nat, X': Node<V>)
    requires Wf(nodes, levels, level, root, depth) && x in nodes && nodes[x].kind == Leaf
    requires LeafRewrite(nodes[x], X')
    ensures Layered(nodes[x := X'], levels, level, root, depth)
    ensures PagesOk(nodes[x := X'], level, root)
    ensures ParentsOk(nodes[x := X'])
    ensures ChainOk(nodes[x := X'], levels[0])
  {
    var a := nodes[x := X'];
    assert PageOk(nodes[x], level[x], x == root);
    forall id | id in a && id in level ensures PageOk(a[id], level[id], id == root) {
      assert PageOk(nodes[id], level[id], id == root);
    }
    forall p, k | p in a && 0 <= k < |a[p].children| ensures a[p].children[k] in a && a[a[p].children[k]].parent == Some(p) {
      assert a[p].children == nodes[p].children;
    }
    forall i | 0 <= i < |levels[0]| ensures ChainLink(a, levels[0], i) {
      assert ChainLink(nodes, levels[0], i);
    }
  }

  lemma LeafRewriteLinked<V>(nodes: Arena<V>, levels: seq<seq<nat>>, level: map<nat, nat>, root: nat, depth: int,
                             x: nat, X': Node<V>)
    requires Layered(nodes, levels, level, root, depth) && Linked(nodes, levels) && x in nodes
    requires X'.children == nodes[x].children
    ensures forall l | 0 <= l < |levels| :: AllIn(nodes[x := X'], levels[l])
    ensures Linked(nodes[x := X'], levels)
  {
    var a := nodes[x := X'];
    forall l | 0 <= l < |levels| - 1 ensures LevelLinked(a, levels, l) {
      assert LevelLinked(nodes, levels, l);
      KidsFrame(nodes, a, levels[l + 1]);
    }
  }

  /** The contents split around the leaf at position j of the chain. */
  lemma LeafEntriesAt<V>(nodes: Arena<V>, L: seq<nat>, j: nat)
    requires LeavesOk(nodes, L) && j < |L|
    ensures LeavesOk(nodes, L[..j]) && LeavesOk(nodes, L[j + 1..])
    ensures LeafEntries(nodes, L) ==
      LeafEntries(nodes, L[..j]) + Entries(nodes[L[j]].keys, nodes[L[j]].vals) + LeafEntries(nodes, L[j + 1..])
  {
    assert L == L[..j] + [L[j]] + L[j + 1..];
    assert LeavesOk(nodes, L[..j]) by {
      forall i | 0 <= i < j ensures L[..j][i] == L[i] { }
    }
    var R := L[j + 1..];
    assert LeavesOk(nodes, R) by {
      forall i | 0 <= i < |R| ensures R[i] == L[j + 1 + i] { }
    }
    LeafEntriesOne(nodes, L[j]);
    LeafEntriesAppend(nodes, L[..j], [L[j]]);
    LeafEntriesAppend(nodes, L[..j] + [L[j]], L[j + 1..]);
  }

  /** Replacing the entries of one leaf of a chain without repetitions. */
  lemma LeafRewriteEntries<V>(nodes: Arena<V>, L: seq<nat>, x: nat, X': Node<V>)
    requires LeavesOk(nodes, L) && Distinct(L) && x in L && |X'.vals| == |X'.keys|
    ensures LeavesOk(nodes[x := X'], L)
    ensures var j := IndexOfChild(L, x);
      && LeavesOk(nodes, L[..j]) && LeavesOk(nodes, L[j + 1..])
      && LeafEntries(nodes, L) ==
           LeafEntries(nodes, L[..j]) + Entries(nodes[x].keys, nodes[x].vals) + LeafEntries(nodes, L[j + 1..])
      && LeafEntries(nodes[x := X'], L) ==
           LeafEntries(nodes, L[..j]) + Entries(X'.keys, X'.vals) + LeafEntries(nodes, L[j + 1..])
  {
    var a := nodes[x := X'];
    var j := IndexOfChild(L, x);
    assert LeavesOk(a, L) by {
      forall i | 0 <= i < |L| ensures L[i] in a && |a[L[i]].vals| == |a[L[i]].keys| { }
    }
    LeafEntriesAt(nodes, L, j);
    LeafEntriesAt(a, L, j);
    var A, R := L[..j], L[j + 1..];
    forall i | 0 <= i < |A| ensures A[i] != x && a[A[i]] == nodes[A[i]] {
      assert A[i] == L[i];
    }
    forall i | 0 <= i < |R| ensures R[i] != x && a[R[i]] == nodes[R[i]] {
      assert R[i] == L[j + 1 + i];
    }
    LeafEntriesFrame(nodes, a, A);
    LeafEntriesFrame(nodes, a, R);
  }

  /**
   * A rewrite of leaf x keeps the invariant; the contents before and after
   * differ only in the stretch that x contributes.
   */
  lemma LeafRewriteWf<V>(nodes: Arena<V>, levels: seq<seq<nat>>, level: map<nat, nat>, root: nat, depth: int,
                         x: nat, X': Node<V>)
    requires Wf(nodes, levels, level, root, depth) && x in nodes && nodes[x].kind == Leaf
    requires LeafRewrite(nodes[x], X')
    ensures Wf(nodes[x := X'], levels, level, root, depth)
    ensures x in levels[0] && LeavesOk(nodes, levels[0]) && LeavesOk(nodes[x := X'], levels[0])
    ensures var L := levels[0]; var j := IndexOfChild(L, x);
      && LeavesOk(nodes, L[..j]) && LeavesOk(nodes, L[j + 1..])
      && LeafEntries(nodes, L) ==
           LeafEntries(nodes, L[..j]) + Entries(nodes[x].keys, nodes[x].vals) + LeafEntries(nodes, L[j + 1..])
      && LeafEntries(nodes[x := X'], L) ==
           LeafEntries(nodes, L[..j]) + Entries(X'.keys, X'.vals) + LeafEntries(nodes, L[j + 1..])
  {
    LeafRewriteShape(nodes, levels, level, root, depth, x, X');
    LeafRewriteLinked(nodes, levels, level, root, depth, x, X');
    LeavesOkFromWf(nodes, levels, level, root, depth);
    assert PageOk(nodes[x], level[x], x == root);
    assert x in levels[level[x]];
    assert Distinct(levels[0]);
    LeafRewriteEntries(nodes, levels[0], x, X');
  }

  /** Every entry of a leaf on the chain is among the chain's entries. */
  lemma LeafEntryIn<V>(nodes: Arena<V>, L: seq<nat>, x: nat, i: nat)
    requires LeavesOk(nodes, L) && x in L && i < |nodes[x].keys|
    ensures |nodes[x].vals| == |nodes[x].keys|
    ensures (nodes[x].keys[i], nodes[x].vals[i]) in LeafEntries(nodes, L)
  {
    var j := IndexOfChild(L, x);
    LeafEntriesAt(nodes, L, j);
    var A := LeafEntries(nodes, L[..j]);
    var E := Entries(nodes[x].keys, nodes[x].vals);
    assert LeafEntries(nodes, L)[|A| + i] == E[i];
  }

  /** Conversely, every entry of the chain is the entry of some leaf on it. */
  lemma {:induction false} LeafEntryFrom<V>(nodes: Arena<V>, L: seq<nat>, e: (int, V)) returns (x: nat, i: nat)
    requires LeavesOk(nodes, L) && e in LeafEntries(nodes, L)
    ensures x in L && x in nodes && i < |nodes[x].keys| && |nodes[x].vals| == |nodes[x].keys|
    ensures e == (nodes[x].keys[i], nodes[x].vals[i])
    decreases |L|
  {
    var init := L[..|L| - 1];
    assert LeavesOk(nodes, init) by {
      forall t | 0 <= t < |init| ensures init[t] == L[t] { }
    }
    var last := L[|L| - 1];
    var E := Entries(nodes[last].keys, nodes[last].vals);
    if e in LeafEntries(nodes, init) {
      x, i := LeafEntryFrom(nodes, init, e);
      var t :| 0 <= t < |init| && init[t] == x;
      assert L[t] == x;
    } else {
      assert e in E;
      x := last;
      i :| 0 <= i < |E| && E[i] == e;
    }
  }

  /** Overwriting inside the middle part of a concatenation. */
  lemma UpdateConcat<T>(a: seq<T>, b: seq<T>, c: seq<T>, k: nat, v: T)
    requires k < |b|
    ensures (a + b + c)[|a| + k := v] == a + b[k := v] + c
  {
  }
}
