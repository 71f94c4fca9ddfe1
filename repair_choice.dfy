/**
 * Which repair remove(key, curr) applies to curr once the key is gone, as
 * BTree.cpp chooses it: nothing while curr holds at least minCapacity keys;
 * an empty root router collapses into its child; any other page borrows
 * from its right sibling, else from its left one, else merges with the
 * right one, else with the left one. A router finds its siblings among its
 * parent's children, a leaf along the leaf chain, and either way a sibling
 * must share curr's parent.
 */
module RepairChoice {
  import opened Wrappers
  import opened Nodes
  import opened Shape
  import opened Rebalance
  import opened RemoveProof

  /**
   * A repair. The pair operations name the siblings through their parent p:
   * the left page is children[i] and the right page children[i + 1].
   */
  datatype Fix =
    | NoRepair
    | RootCollapse
    | FromRight(p: nat, i: nat)   // children[i] (curr) borrows from children[i + 1]
    | FromLeft(p: nat, i: nat)    // children[i + 1] (curr) borrows from children[i]
    | WithRight(p: nat, i: nat)   // children[i] (curr) absorbs children[i + 1]
    | WithLeft(p: nat, i: nat)    // children[i] absorbs children[i + 1] (curr) and goes on as curr

  /** Page q exists and hangs under p: the `q->parent == parent` test. */
  ghost predicate Under<V>(nodes: Arena<V>, q: nat, p: nat)
  {
    q in nodes && nodes[q].parent == Some(p)
  }

  /**
   * The order of preference, given curr's position i under p and the
   * siblings `next` and `prev` that passed the parent test.
   */
  ghost function Choose<V>(nodes: Arena<V>, p: nat, i: nat, next: Option<nat>, prev: Option<nat>, min: int): (f: Fix)
    requires next.Some? ==> next.value in nodes
    requires prev.Some? ==> prev.value in nodes
    ensures f != NoRepair <==> next.Some? || (prev.Some? && i > 0)
    ensures !f.RootCollapse? && (f != NoRepair ==> f.p == p)
    ensures (f.FromRight? || f.WithRight?) ==> f.i == i && next.Some?
    ensures (f.FromLeft? || f.WithLeft?) ==> f.i + 1 == i && prev.Some?
    ensures f.FromRight? ==> nodes[next.value].Size() > min
    ensures f.FromLeft? ==> nodes[prev.value].Size() > min
    ensures !f.FromRight? ==> !(next.Some? && nodes[next.value].Size() > min)
    ensures f.WithLeft? ==> next.None? && nodes[prev.value].Size() <= min
  {
    if next.Some? && nodes[next.value].Size() > min then FromRight(p, i)
    else if prev.Some? && i > 0 && nodes[prev.value].Size() > min then FromLeft(p, i - 1)
    else if next.Some? then WithRight(p, i)
    else if prev.Some? && i > 0 then WithLeft(p, i - 1)
    else NoRepair
  }

  /** The Internal case: the siblings are curr's neighbours among its parent's children. */
  ghost function RouterFix<V>(nodes: Arena<V>, curr: nat, min: int): (f: Fix)
    ensures !f.RootCollapse?
    ensures f != NoRepair ==>
      && curr in nodes && nodes[curr].parent == Some(f.p) && f.p in nodes && f.i + 1 < |nodes[f.p].children|
      && ((f.FromRight? || f.WithRight?) ==> nodes[f.p].children[f.i] == curr)
      && ((f.FromLeft? || f.WithLeft?) ==> nodes[f.p].children[f.i + 1] == curr)
  {
    if curr !in nodes || nodes[curr].parent.None? then NoRepair
    else
      var p := nodes[curr].parent.value;
      if p !in nodes || curr !in nodes[p].children then NoRepair
      else
        var ch := nodes[p].children;
        var i := IndexOfChild(ch, curr);
        var next := if i + 1 < |ch| && Under(nodes, ch[i + 1], p) then Some(ch[i + 1]) else None;
        var prev := if i > 0 && Under(nodes, ch[i - 1], p) then Some(ch[i - 1]) else None;
        Choose(nodes, p, i, next, prev, min)
  }

  /** The Leaf case: the siblings are curr's neighbours along the leaf chain. */
  ghost function LeafFix<V>(nodes: Arena<V>, curr: nat, min: int): (f: Fix)
    ensures !f.RootCollapse?
    ensures f != NoRepair ==> curr in nodes && nodes[curr].parent == Some(f.p) && f.p in nodes && curr in nodes[f.p].children
  {
    if curr !in nodes || nodes[curr].parent.None? then NoRepair
    else
      var X := nodes[curr];
      var p := X.parent.value;
      if p !in nodes || curr !in nodes[p].children then NoRepair
      else
        var i := IndexOfChild(nodes[p].children, curr);
        var next := if X.next.Some? && Under(nodes, X.next.value, p) then X.next else None;
        var prev := if X.prev.Some? && Under(nodes, X.prev.value, p) then X.prev else None;
        Choose(nodes, p, i, next, prev, min)
  }

  /** The repair of curr, with minCapacity `min`. */
  ghost function RepairFix<V>(nodes: Arena<V>, curr: nat, min: int): (f: Fix)
    ensures f != NoRepair ==> curr in nodes && nodes[curr].Size() < min
    ensures f.RootCollapse? <==> curr in nodes && nodes[curr].Size() < min && nodes[curr].kind == Root && nodes[curr].Size() == 0 && nodes[curr].children != []
    ensures f != NoRepair && !f.RootCollapse? ==> nodes[curr].kind != Root && nodes[curr].parent == Some(f.p)
  {
    if curr !in nodes || nodes[curr].Size() >= min then NoRepair
    else if nodes[curr].kind == Root then
      (if nodes[curr].Size() == 0 && nodes[curr].children != [] then RootCollapse else NoRepair)
    else if nodes[curr].kind == Internal then RouterFix(nodes, curr, min)
    else LeafFix(nodes, curr, min)
  }

  /** Arena a is nodes after repair f; a collapse drops the root rt of a tree of the given depth. */
  ghost predicate Repaired<V>(nodes: Arena<V>, a: Arena<V>, f: Fix, rt: nat, depth: int)
  {
    match f
    case NoRepair => a == nodes
    case RootCollapse =>
      && rt in nodes && nodes[rt].children != [] && nodes[rt].children[0] in nodes && nodes[rt].children[0] != rt
      && a == Collapse(nodes, rt, depth)
    case FromRight(p, i) =>
      PairReady(nodes, p, i) && |nodes[nodes[p].children[i + 1]].keys| >= 2 && a == BorrowFromRight(nodes, p, i)
    case FromLeft(p, i) =>
      PairReady(nodes, p, i) && |nodes[nodes[p].children[i]].keys| >= 1 && a == BorrowFromLeft(nodes, p, i)
    case WithRight(p, i) => PairReady(nodes, p, i) && a == MergePair(nodes, p, i)
    case WithLeft(p, i) => PairReady(nodes, p, i) && a == MergePair(nodes, p, i)
  }

  /** A borrow from a right sibling above the minimum is the FromRight repair. */
  lemma BorrowsFromRight<V>(nodes: Arena<V>, p: nat, i: nat, min: int, rt: nat, depth: int)
    requires PairReady(nodes, p, i) && min >= 1 && nodes[nodes[p].children[i + 1]].Size() > min
    ensures Repaired(nodes, BorrowFromRight(nodes, p, i), FromRight(p, i), rt, depth)
  {
  }

  /** A borrow from a left sibling above the minimum is the FromLeft repair. */
  lemma BorrowsFromLeft<V>(nodes: Arena<V>, p: nat, i: nat, min: int, rt: nat, depth: int)
    requires PairReady(nodes, p, i) && min >= 1 && nodes[nodes[p].children[i]].Size() > min
    ensures Repaired(nodes, BorrowFromLeft(nodes, p, i), FromLeft(p, i), rt, depth)
  {
  }

  /** Sibling q exists, hangs under `parent` and has more than min keys: curr can borrow from it. */
  ghost predicate Lends<V>(nodes: Arena<V>, q: Option<nat>, parent: Option<nat>, min: int)
  {
    q.Some? && q.value in nodes && nodes[q.value].parent == parent && nodes[q.value].Size() > min
  }

  /**
   * For a router c at position i under p, with neighbours next and prev
   * among p's children: the borrow RouterFix picks, or that it picks none.
   */
  lemma RouterChoice<V>(nodes: Arena<V>, c: nat, min: int, p: nat, i: nat, next: Option<nat>, prev: Option<nat>)
    requires c in nodes && nodes[c].parent == Some(p) && p in nodes && c in nodes[p].children
    requires i == IndexOfChild(nodes[p].children, c)
    requires next == (if i + 1 < |nodes[p].children| then Some(nodes[p].children[i + 1]) else None)
    requires prev == (if i > 0 then Some(nodes[p].children[i - 1]) else None)
    requires (next.Some? ==> next.value in nodes) && (prev.Some? ==> prev.value in nodes)
    ensures Lends(nodes, next, Some(p), min) ==> RouterFix(nodes, c, min) == FromRight(p, i)
    ensures !Lends(nodes, next, Some(p), min) && Lends(nodes, prev, Some(p), min) ==>
      RouterFix(nodes, c, min) == FromLeft(p, i - 1)
    ensures !Lends(nodes, next, Some(p), min) && !Lends(nodes, prev, Some(p), min) ==>
      !RouterFix(nodes, c, min).FromRight? && !RouterFix(nodes, c, min).FromLeft?
  {
  }

  /** A router, child j + 1 of p, whose right neighbour does not lend, with a lending left neighbour under p: it borrows from it. */
  lemma RouterFromLeft<V>(nodes: Arena<V>, c: nat, min: int, p: nat, j: nat)
    requires c in nodes && nodes[c].parent == Some(p) && p in nodes && c in nodes[p].children
    requires j + 1 == IndexOfChild(nodes[p].children, c)
    requires !RouterFix(nodes, c, min).FromRight?
    requires Under(nodes, nodes[p].children[j], p) && nodes[nodes[p].children[j]].Size() > min
    ensures RouterFix(nodes, c, min) == FromLeft(p, j)
  {
  }

  /** A router, child i of p, whose neighbours under p do not lend: it merges or stays. */
  lemma RouterNoLender<V>(nodes: Arena<V>, c: nat, min: int, p: nat, i: nat)
    requires c in nodes && nodes[c].parent == Some(p) && p in nodes && c in nodes[p].children
    requires i == IndexOfChild(nodes[p].children, c)
    requires !RouterFix(nodes, c, min).FromRight?
    requires !(i > 0 && Under(nodes, nodes[p].children[i - 1], p) && nodes[nodes[p].children[i - 1]].Size() > min)
    ensures !RouterFix(nodes, c, min).FromLeft?
  {
  }

  /** A router, child j + 1 of p, that can only merge left or stay, with its left neighbour under p: it merges left. */
  lemma RouterWithLeft<V>(nodes: Arena<V>, c: nat, min: int, p: nat, j: nat)
    requires c in nodes && nodes[c].parent == Some(p) && p in nodes && c in nodes[p].children
    requires j + 1 == IndexOfChild(nodes[p].children, c)
    requires RouterFix(nodes, c, min).WithLeft? || RouterFix(nodes, c, min) == NoRepair
    requires Under(nodes, nodes[p].children[j], p)
    ensures RouterFix(nodes, c, min) == WithLeft(p, j)
  {
  }

  /** A router, child i of p, with no left neighbour under p that it may merge with, is left as it is. */
  lemma RouterAlone<V>(nodes: Arena<V>, c: nat, min: int, p: nat, i: nat)
    requires c in nodes && nodes[c].parent == Some(p) && p in nodes && c in nodes[p].children
    requires i == IndexOfChild(nodes[p].children, c)
    requires RouterFix(nodes, c, min).WithLeft? || RouterFix(nodes, c, min) == NoRepair
    requires !(i > 0 && Under(nodes, nodes[p].children[i - 1], p) && nodes[nodes[p].children[i - 1]].Size() <= min)
    ensures RouterFix(nodes, c, min) == NoRepair
  {
  }

  /** The leaf c, under p at position i, with its chain neighbours. */
  ghost predicate LeafAt<V>(nodes: Arena<V>, c: nat, p: nat, i: nat)
  {
    && c in nodes && nodes[c].parent == Some(p) && p in nodes && c in nodes[p].children
    && i == IndexOfChild(nodes[p].children, c)
    && (nodes[c].next.Some? ==> nodes[c].next.value in nodes)
    && (nodes[c].prev.Some? ==> nodes[c].prev.value in nodes)
  }

  /** The right chain neighbour under the same parent, with keys to spare: the leaf borrows from it. */
  lemma LeafFromRight<V>(nodes: Arena<V>, c: nat, min: int, p: nat, i: nat)
    requires LeafAt(nodes, c, p, i) && nodes[c].next.Some?
    requires nodes[nodes[c].next.value].parent == Some(p) && nodes[nodes[c].next.value].Size() > min
    ensures LeafFix(nodes, c, min) == FromRight(p, i)
  {
  }

  /** Otherwise the left chain neighbour under the same parent, with keys to spare: the leaf, child j + 1, borrows from it. */
  lemma LeafFromLeft<V>(nodes: Arena<V>, c: nat, min: int, p: nat, j: nat)
    requires LeafAt(nodes, c, p, j + 1) && !Lends(nodes, nodes[c].next, Some(p), min)
    requires nodes[c].prev.Some? && nodes[nodes[c].prev.value].parent == Some(p) && nodes[nodes[c].prev.value].Size() > min
    ensures LeafFix(nodes, c, min) == FromLeft(p, j)
  {
    var i := IndexOfChild(nodes[p].children, c);
    assert i > 0 && i - 1 == j;
  }

  /** No neighbour to borrow from, but a right one under the same parent: the leaf absorbs it. */
  lemma LeafWithRight<V>(nodes: Arena<V>, c: nat, min: int, p: nat, i: nat)
    requires LeafAt(nodes, c, p, i)
    requires !Lends(nodes, nodes[c].next, Some(p), min) && !Lends(nodes, nodes[c].prev, Some(p), min)
    requires nodes[c].next.Some? && nodes[nodes[c].next.value].parent == Some(p)
    ensures LeafFix(nodes, c, min) == WithRight(p, i)
  {
  }

  /** No right neighbour under the same parent, but a left one: it absorbs the leaf, child j + 1. */
  lemma LeafWithLeft<V>(nodes: Arena<V>, c: nat, min: int, p: nat, j: nat)
    requires LeafAt(nodes, c, p, j + 1)
    requires !Lends(nodes, nodes[c].next, Some(p), min) && !Lends(nodes, nodes[c].prev, Some(p), min)
    requires !(nodes[c].next.Some? && nodes[nodes[c].next.value].parent == Some(p))
    requires nodes[c].prev.Some? && nodes[nodes[c].prev.value].parent == Some(p)
    ensures LeafFix(nodes, c, min) == WithLeft(p, j)
  {
    var i := IndexOfChild(nodes[p].children, c);
    assert i > 0 && i - 1 == j;
  }

  /** No chain neighbour under the same parent: the leaf is left as it is. */
  lemma LeafAlone<V>(nodes: Arena<V>, c: nat, min: int)
    requires c in nodes
    requires !(nodes[c].next.Some? && nodes[c].next.value in nodes && nodes[nodes[c].next.value].parent == nodes[c].parent)
    requires !(nodes[c].prev.Some? && nodes[c].prev.value in nodes && nodes[nodes[c].prev.value].parent == nodes[c].parent)
    ensures LeafFix(nodes, c, min) == NoRepair
  {
  }

  /** Repair f took nodes to a, and x is the page that survived it. */
  ghost predicate Applied<V>(nodes: Arena<V>, a: Arena<V>, f: Fix, curr: nat, x: nat, rt: nat, depth: int)
  {
    Repaired(nodes, a, f, rt, depth) && x == Survivor(nodes, f, curr)
  }

  /** The page the walk goes on from: the left sibling after it absorbed curr, curr otherwise. */
  ghost function Survivor<V>(nodes: Arena<V>, f: Fix, curr: nat): (s: nat)
    ensures !f.WithLeft? ==> s == curr
    ensures f.WithLeft? && f.p in nodes && f.i + 1 < |nodes[f.p].children| ==> s == nodes[f.p].children[f.i]
  {
    if f.WithLeft? && f.p in nodes && f.i < |nodes[f.p].children| then nodes[f.p].children[f.i] else curr
  }
}
