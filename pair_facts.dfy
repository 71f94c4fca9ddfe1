/**
 * Facts about two sibling pages under one parent that the proofs of the
 * borrow and merge operations share: where the pair sits on its level, how
 * the leaf chain's neighbours relate to the parent's children, and how Kids
 * and LeafEntries split around the pair.
 */
module PairFacts {
  import opened Wrappers
  import opened Nodes
  import opened Shape
  import opened Rebalance

  /** Position of the pair: p is page jp of its level, and its children start at s on the level below. */
  ghost predicate PairSpot<V>(nodes: Arena<V>, levels: seq<seq<nat>>, level: map<nat, nat>, p: nat, i: nat,
                              jp: nat, s: nat)
    requires p in nodes && p in level && level[p] > 0 && level[p] < |levels|
    requires AllIn(nodes, levels[level[p]])
  {
    var lp := level[p];
    var ch := nodes[p].children;
    && i + 1 < |ch|
    && jp < |levels[lp]| && levels[lp][jp] == p
    && s == |Kids(nodes, levels[lp][..jp])|
    && s + |ch| <= |levels[lp - 1]|
    && levels[lp - 1][s + i] == ch[i] && levels[lp - 1][s + i + 1] == ch[i + 1]
  }

  /** The invariant provides what the pair operations rely on, and locates the pair. */
  lemma WfPairReady<V>(nodes: Arena<V>, levels: seq<seq<nat>>, level: map<nat, nat>, root: nat, depth: int,
                       p: nat, i: nat) returns (jp: nat, s: nat)
    requires Wf(nodes, levels, level, root, depth)
    requires p in nodes && nodes[p].kind != Leaf && i + 1 < |nodes[p].children|
    ensures PairReady(nodes, p, i)
    ensures level[p] > 0 && AllIn(nodes, levels[level[p]])
    ensures PairSpot(nodes, levels, level, p, i, jp, s)
    ensures level[nodes[p].children[i]] == level[p] - 1 && level[nodes[p].children[i + 1]] == level[p] - 1
    ensures nodes[nodes[p].children[i]].kind == Leaf <==> level[p] == 1
    ensures Distinct(nodes[p].children)
  {
    assert PageOk(nodes[p], level[p], p == root);
    jp, s := WfChildren(nodes, levels, level, root, depth, p);
    var P := nodes[p];
    var l, r := P.children[i], P.children[i + 1];
    assert levels[level[p] - 1][s + i] == l;
    assert levels[level[p] - 1][s + i + 1] == r;
    WfRoot(nodes, levels, level, root, depth);
    assert PageOk(nodes[l], level[l], l == root);
    assert PageOk(nodes[r], level[r], r == root);
    if level[p] == 1 {
      PairLeaves(nodes, levels, level, root, depth, p, i, s);
    } else {
      PairRouter(nodes, levels, level, root, depth, p, l);
      PairRouter(nodes, levels, level, root, depth, p, r);
    }
  }

  lemma PairLeaves<V>(nodes: Arena<V>, levels: seq<seq<nat>>, level: map<nat, nat>, root: nat, depth: int,
                      p: nat, i: nat, s: nat)
    requires Wf(nodes, levels, level, root, depth)
    requires p in nodes && level[p] == 1 && i + 1 < |nodes[p].children|
    requires s + i + 1 < |levels[0]|
    requires levels[0][s + i] == nodes[p].children[i] && levels[0][s + i + 1] == nodes[p].children[i + 1]
    ensures var l, r := nodes[p].children[i], nodes[p].children[i + 1];
      && nodes[l].next == Some(r) && nodes[r].prev == Some(l)
      && (nodes[r].next.Some? ==> Outside(nodes, nodes[r].next.value, p, l, r))
  {
    var L0 := levels[0];
    ChainLinkAt(nodes, L0, s + i);
    ChainLinkAt(nodes, L0, s + i + 1);
    if s + i + 2 < |L0| {
      assert level[L0[s + i + 2]] == 0;
    }
  }

  lemma PairRouter<V>(nodes: Arena<V>, levels: seq<seq<nat>>, level: map<nat, nat>, root: nat, depth: int,
                      p: nat, x: nat)
    requires Wf(nodes, levels, level, root, depth)
    requires p in nodes && x in nodes && level[x] > 0 && level[x] + 1 == level[p]
    ensures Distinct(nodes[x].children)
    ensures forall k | 0 <= k < |nodes[x].children| ::
      var c := nodes[x].children[k];
      c in nodes && level[c] + 2 == level[p] && nodes[c].parent == Some(x)
  {
    var jj, s := WfChildren(nodes, levels, level, root, depth, x);
  }

  /**
   * The leaf chain and the parent agree on siblings: a leaf's chain
   * neighbour shares its parent exactly when the parent holds a child on
   * that side, and then it is that child.
   */
  lemma ChainSibling<V>(nodes: Arena<V>, levels: seq<seq<nat>>, level: map<nat, nat>, root: nat, depth: int,
                        c: nat) returns (p: nat)
    requires Wf(nodes, levels, level, root, depth)
    requires c in nodes && level[c] == 0 && c != root
    ensures nodes[c].parent == Some(p) && p in nodes && c in nodes[p].children
    ensures var X := nodes[c]; var ch := nodes[p].children; var i := IndexOfChild(ch, c);
      && ((X.next.Some? && X.next.value in nodes && nodes[X.next.value].parent == Some(p)) <==> i + 1 < |ch|)
      && (i + 1 < |ch| ==> X.next == Some(ch[i + 1]))
      && ((X.prev.Some? && X.prev.value in nodes && nodes[X.prev.value].parent == Some(p)) <==> i > 0)
      && (i > 0 ==> X.prev == Some(ch[i - 1]))
  {
    var jp, s, i;
    p, jp, s, i := LocateLeaf(nodes, levels, level, root, depth, c);
    NeighbourSiblings(nodes, levels[0], levels[1], jp, s, i);
  }

  /** Where leaf c sits: child i of p, which is page jp of level 1, and page s + i of the chain. */
  lemma LocateLeaf<V>(nodes: Arena<V>, levels: seq<seq<nat>>, level: map<nat, nat>, root: nat, depth: int,
                      c: nat) returns (p: nat, jp: nat, s: nat, i: nat)
    requires Wf(nodes, levels, level, root, depth)
    requires c in nodes && level[c] == 0 && c != root
    ensures nodes[c].parent == Some(p) && p in nodes && c in nodes[p].children
    ensures |levels| >= 2 && jp < |levels[1]| && levels[1][jp] == p && i == IndexOfChild(nodes[p].children, c)
    ensures SiblingView(nodes, levels[0], levels[1], jp, s, i) && levels[0][s + i] == c
  {
    p := WfParent(nodes, levels, level, root, depth, c);
    jp, s := LeafParentSpot(nodes, levels, level, root, depth, p);
    i := IndexOfChild(nodes[p].children, c);
    ViewFrom(nodes, levels[0], levels[1], jp, s, i);
  }

  /** WfChildren for a page on level 1, stated on levels[0] and levels[1]. */
  lemma LeafParentSpot<V>(nodes: Arena<V>, levels: seq<seq<nat>>, level: map<nat, nat>, root: nat, depth: int,
                          p: nat) returns (jp: nat, s: nat)
    requires Wf(nodes, levels, level, root, depth)
    requires p in nodes && level[p] == 1
    ensures |levels| >= 2 && AllIn(nodes, levels[1]) && Distinct(levels[1]) && ParentsOk(nodes)
    ensures levels[0] == Kids(nodes, levels[1]) && ChainOk(nodes, levels[0])
    ensures jp < |levels[1]| && levels[1][jp] == p && s == |Kids(nodes, levels[1][..jp])|
    ensures s + |nodes[p].children| <= |levels[0]| && levels[0][s..s + |nodes[p].children|] == nodes[p].children
  {
    jp, s := WfChildren(nodes, levels, level, root, depth, p);
    assert LevelLinked(nodes, levels, 0);
  }

  lemma ViewFrom<V>(nodes: Arena<V>, L0: seq<nat>, U: seq<nat>, jp: nat, s: nat, i: nat)
    requires AllIn(nodes, U) && Distinct(U) && ParentsOk(nodes) && jp < |U|
    requires L0 == Kids(nodes, U) && ChainOk(nodes, L0) && s == |Kids(nodes, U[..jp])|
    requires var ch := nodes[U[jp]].children; s + |ch| <= |L0| && L0[s..s + |ch|] == ch && i < |ch|
    ensures SiblingView(nodes, L0, U, jp, s, i) && L0[s + i] == nodes[U[jp]].children[i]
  {
    assert L0[s + i] == nodes[U[jp]].children[i];
    ChainLinkAt(nodes, L0, s + i);
  }

  /** Leaf s + i of the chain L0 is child i of U[jp], and the chain links it to its neighbours in L0. */
  ghost predicate SiblingView<V>(nodes: Arena<V>, L0: seq<nat>, U: seq<nat>, jp: nat, s: nat, i: nat)
  {
    && AllIn(nodes, U) && Distinct(U) && ParentsOk(nodes) && jp < |U|
    && L0 == Kids(nodes, U) && s == |Kids(nodes, U[..jp])|
    && var ch := nodes[U[jp]].children;
    && s + |ch| <= |L0| && L0[s..s + |ch|] == ch && i < |ch|
    && L0[s + i] in nodes
    && nodes[L0[s + i]].next == (if s + i + 1 < |L0| then Some(L0[s + i + 1]) else None)
    && nodes[L0[s + i]].prev == (if s + i > 0 then Some(L0[s + i - 1]) else None)
  }

  lemma NeighbourSiblings<V>(nodes: Arena<V>, L0: seq<nat>, U: seq<nat>, jp: nat, s: nat, i: nat)
    requires SiblingView(nodes, L0, U, jp, s, i)
    ensures var p := U[jp]; var X := nodes[L0[s + i]]; var ch := nodes[p].children;
      && ((X.next.Some? && X.next.value in nodes && nodes[X.next.value].parent == Some(p)) <==> i + 1 < |ch|)
      && (i + 1 < |ch| ==> X.next == Some(ch[i + 1]))
      && ((X.prev.Some? && X.prev.value in nodes && nodes[X.prev.value].parent == Some(p)) <==> i > 0)
      && (i > 0 ==> X.prev == Some(ch[i - 1]))
  {
    var ch := nodes[U[jp]].children;
    if i + 1 < |ch| {
      assert L0[s + i + 1] == ch[i + 1];
    } else if s + i + 1 < |L0| {
      NextOutside(nodes, U, jp, L0[s + i + 1]);
    }
    if i > 0 {
      assert L0[s + i - 1] == ch[i - 1];
    } else if s > 0 {
      PrevOutside(nodes, U, jp, L0[s - 1]);
    }
  }

  /** The page listed right after the children of U[jp] hangs under another page. */
  lemma NextOutside<V>(nodes: Arena<V>, U: seq<nat>, jp: nat, m: nat)
    requires AllIn(nodes, U) && Distinct(U) && ParentsOk(nodes) && jp < |U|
    requires var e := |Kids(nodes, U[..jp])| + |nodes[U[jp]].children|;
      e < |Kids(nodes, U)| && Kids(nodes, U)[e] == m
    ensures m in nodes && nodes[m].parent != Some(U[jp])
  {
    KidsAt(nodes, U, jp);
    var rest := U[jp + 1..];
    assert m == Kids(nodes, rest)[0];
    var t := KidsMember(nodes, rest, m);
    assert rest[t] == U[jp + 1 + t];
  }

  /** The page listed right before the children of U[jp] hangs under another page. */
  lemma PrevOutside<V>(nodes: Arena<V>, U: seq<nat>, jp: nat, m: nat)
    requires AllIn(nodes, U) && Distinct(U) && ParentsOk(nodes) && jp < |U|
    requires var s := |Kids(nodes, U[..jp])|; 0 < s <= |Kids(nodes, U)| && Kids(nodes, U)[s - 1] == m
    ensures m in nodes && nodes[m].parent != Some(U[jp])
  {
    KidsAt(nodes, U, jp);
    var init := U[..jp];
    assert m == Kids(nodes, init)[|Kids(nodes, init)| - 1];
    var t := KidsMember(nodes, init, m);
    assert init[t] == U[t];
  }

  // ---------------------------------------------------------------------
  // Splitting Kids and LeafEntries around a pair

  lemma KidsPair<V>(nodes: Arena<V>, U: seq<nat>, j: nat)
    requires AllIn(nodes, U) && j + 1 < |U|
    ensures AllIn(nodes, U[..j]) && AllIn(nodes, U[j + 2..])
    ensures Kids(nodes, U) ==
      Kids(nodes, U[..j]) + (nodes[U[j]].children + nodes[U[j + 1]].children) + Kids(nodes, U[j + 2..])
  {
    assert U == U[..j] + [U[j], U[j + 1]] + U[j + 2..];
    KidsAppend(nodes, U[..j], [U[j], U[j + 1]]);
    KidsAppend(nodes, U[..j] + [U[j], U[j + 1]], U[j + 2..]);
    KidsAppend(nodes, [U[j]], [U[j + 1]]);
    assert [U[j], U[j + 1]] == [U[j]] + [U[j + 1]];
    KidsOne(nodes, U[j]);
    KidsOne(nodes, U[j + 1]);
  }

  lemma LeafEntriesPair<V>(nodes: Arena<V>, U: seq<nat>, j: nat)
    requires LeavesOk(nodes, U) && j + 1 < |U|
    ensures LeavesOk(nodes, U[..j]) && LeavesOk(nodes, U[j + 2..])
    ensures var x, y := nodes[U[j]], nodes[U[j + 1]];
      LeafEntries(nodes, U) ==
        LeafEntries(nodes, U[..j]) + (Entries(x.keys, x.vals) + Entries(y.keys, y.vals)) + LeafEntries(nodes, U[j + 2..])
  {
    assert LeavesOk(nodes, U[..j]) by {
      forall k | 0 <= k < j ensures U[..j][k] == U[k] { }
    }
    var R := U[j + 2..];
    assert LeavesOk(nodes, R) by {
      forall k | 0 <= k < |R| ensures R[k] == U[j + 2 + k] { }
    }
    var two := [U[j], U[j + 1]];
    assert U == U[..j] + two + U[j + 2..];
    assert two == [U[j]] + [U[j + 1]];
    LeafEntriesOne(nodes, U[j]);
    LeafEntriesOne(nodes, U[j + 1]);
    LeafEntriesAppend(nodes, [U[j]], [U[j + 1]]);
    LeafEntriesAppend(nodes, U[..j], two);
    LeafEntriesAppend(nodes, U[..j] + two, U[j + 2..]);
  }

  // ---------------------------------------------------------------------
  // Page-by-page descriptions of an outcome

  /** A page keeps its kind, its parent and its place in the leaf chain. */
  ghost predicate SameLinks<V>(m: Node<V>, m': Node<V>)
  {
    m'.kind == m.kind && m'.parent == m.parent && m'.prev == m.prev && m'.next == m.next
  }

  /** The local shape of a leaf or of a router. */
  ghost predicate PairShape<V>(m: Node<V>)
  {
    if m.kind == Leaf then m.children == [] && |m.vals| == |m.keys| else |m.children| == |m.keys| + 1
  }

  /**
   * A page outside the pair: everything stays, except that the parent may
   * get new keys (of the same number) and that a child of the pair may now
   * hang under the other page of the pair.
   */
  ghost predicate Kept<V>(m: Node<V>, m': Node<V>, isParent: bool, l: nat, r: nat)
  {
    && m'.kind == m.kind && m'.children == m.children && m'.vals == m.vals
    && m'.prev == m.prev && m'.next == m.next
    && |m'.keys| == |m.keys| && (!isParent ==> m'.keys == m.keys)
    && (m'.parent == m.parent || (m'.parent.Some? && (m.parent == Some(l) || m.parent == Some(r))))
  }
}
