/**
 * The lower occupancy bound of the tree. Every page but the root holds at
 * least Low(deg) = ceil(deg / 2) - 1 keys, and a root router at least one
 * key once Low(deg) is positive. set splits a page only when it holds deg
 * keys or more, so both halves keep the bound. remove repairs a page that
 * fell below minCapacity = deg / 2 >= Low(deg) keys with a borrow, which
 * leaves every page at its bound, or with a merge, which leaves only the
 * parent one key short, and the walk goes on with that parent.
 */
module Occupancy {
  import opened Wrappers
  import opened Nodes
  import opened Split
  import opened SplitProof
  import opened Shape
  import opened Descent
  import opened Rebalance
  import opened PairFacts
  import opened RemoveProof
  import opened RepairChoice

  /** The fewest keys a page other than the root keeps. */
  function Low(deg: int): int
  {
    (deg + 1) / 2 - 1
  }

  /** The fewest keys of a page: Low(deg) below the root, one for a root router (when Low(deg) >= 1), none for a root leaf. */
  function Floor(deg: int, isRoot: bool, depth: int): int
  {
    if !isRoot then Low(deg) else if depth > 1 && Low(deg) >= 1 then 1 else 0
  }

  /** Every page holds at least its floor. */
  ghost predicate Balanced<V>(nodes: Arena<V>, root: nat, depth: int, deg: int)
  {
    forall id | id in nodes :: nodes[id].Size() >= Floor(deg, id == root, depth)
  }

  /** Every page holds at least its floor, except that page c may be one key short. */
  ghost predicate BalancedBut<V>(nodes: Arena<V>, root: nat, depth: int, deg: int, c: nat)
  {
    forall id | id in nodes :: nodes[id].Size() + (if id == c then 1 else 0) >= Floor(deg, id == root, depth)
  }

  /** A page's floor never exceeds minCapacity. */
  lemma FloorBelowMin(deg: int, isRoot: bool, depth: int)
    requires deg >= 2
    ensures 0 <= deg / 2 - Low(deg) <= 1
    ensures Floor(deg, isRoot, depth) <= deg / 2
  {
  }

  /** A balanced tree is balanced with any page allowed to be short. */
  lemma BalancedLoose<V>(nodes: Arena<V>, root: nat, depth: int, deg: int, c: nat)
    requires Balanced(nodes, root, depth, deg)
    ensures BalancedBut(nodes, root, depth, deg, c)
  {
  }

  /** Once the page allowed to be short holds its floor, the tree is balanced. */
  lemma BalancedTight<V>(nodes: Arena<V>, root: nat, depth: int, deg: int, c: nat)
    requires BalancedBut(nodes, root, depth, deg, c)
    requires c in nodes ==> nodes[c].Size() >= Floor(deg, c == root, depth)
    ensures Balanced(nodes, root, depth, deg)
  {
    forall id | id in nodes ensures nodes[id].Size() >= Floor(deg, id == root, depth) {
      if id != c {
        assert nodes[id].Size() + (if id == c then 1 else 0) >= Floor(deg, id == root, depth);
      }
    }
  }

  /** No floor exceeds Low(deg): a page with Low(deg) keys is never short, wherever it sits. */
  lemma FloorAtMostLow(deg: int, isRoot: bool, depth: int)
    requires deg >= 2
    ensures Floor(deg, isRoot, depth) <= Low(deg) && (isRoot ==> Floor(deg, isRoot, depth) <= 1)
  {
  }

  /** A page that grows keeps the tree balanced, or balanced but for c. */
  lemma GrownBalanced<V>(nodes: Arena<V>, root: nat, depth: int, deg: int, c: nat, X: Node<V>)
    requires c in nodes && X.Size() >= nodes[c].Size()
    ensures Balanced(nodes, root, depth, deg) ==> Balanced(nodes[c := X], root, depth, deg)
    ensures BalancedBut(nodes, root, depth, deg, c) ==> BalancedBut(nodes[c := X], root, depth, deg, c)
  {
  }

  /** A page that loses at most one key leaves the tree balanced but for that page. */
  lemma ShrunkBalanced<V>(nodes: Arena<V>, root: nat, depth: int, deg: int, c: nat, X: Node<V>)
    requires c in nodes && X.Size() + 1 >= nodes[c].Size()
    ensures Balanced(nodes, root, depth, deg) ==> BalancedBut(nodes[c := X], root, depth, deg, c)
  {
  }

  /**
   * A split of page x holding deg keys or more: x keeps the lower half and
   * the fresh sibling sib the upper half less the separator, both at least
   * Low(deg) keys; the parent gains a key, a fresh root holds one.
   */
  lemma SplitBalanced<V>(prior: Arena<V>, a: Arena<V>, root: nat, depth: int, root': nat, depth': int, deg: int,
                         x: nat, sib: nat, newRoot: Option<nat>)
    requires SplitResized(prior, a, x, sib, newRoot)
    requires deg >= 2 && Balanced(prior, root, depth, deg) && prior[x].Size() >= deg
    requires newRoot.None? ==> root' == root && depth' == depth
    requires newRoot.Some? ==> root' == newRoot.value && x == root
    ensures Balanced(a, root', depth', deg)
  {
    forall id | id in a ensures a[id].Size() >= Floor(deg, id == root', depth') {
      FloorAtMostLow(deg, id == root', depth');
      if id != x && id != sib && !(newRoot.Some? && id == newRoot.value) {
        assert prior[id].Size() >= Floor(deg, id == root, depth);
        FloorAtMostLow(deg, id == root, depth);
      }
    }
  }

  /** splitNode on a page of deg keys or more keeps the tree balanced; a split of the root adds a level. */
  lemma SplitNodeBalanced<V>(nodes: Arena<V>, root: nat, depth: int, deg: int, x: nat, n: nat, r: nat)
    requires deg >= 2 && SplitReady(nodes, x) && n !in nodes && r !in nodes && n != r
    requires nodes[x].Size() >= deg && (nodes[x].parent.None? <==> x == root)
    ensures var up := nodes[x].parent.None?;
      Balanced(nodes, root, depth, deg) ==>
        Balanced(SplitNode(nodes, x, n, r).0, if up then r else root, if up then depth + 1 else depth, deg)
  {
    var up := nodes[x].parent.None?;
    SplitNodeSizes(nodes, x, n, r);
    var res := SplitNode(nodes, x, n, r);
    if Balanced(nodes, root, depth, deg) {
      SplitBalanced(nodes, res.0, root, depth, if up then r else root, if up then depth + 1 else depth, deg, x, n, res.1);
    }
  }

  // ---------------------------------------------------------------------
  // How the pair operations move keys between pages

  /** Page gain took one key from page lose; every other page kept its size. */
  ghost predicate Moved<V>(nodes: Arena<V>, a: Arena<V>, gain: nat, lose: nat)
  {
    && a.Keys == nodes.Keys && gain in nodes && lose in nodes && gain != lose
    && a[gain].Size() == nodes[gain].Size() + 1 && a[lose].Size() == nodes[lose].Size() - 1
    && forall id | id in a && id != gain && id != lose :: a[id].Size() == nodes[id].Size()
  }

  /** Page l absorbed page r, which left the arena; the parent p lost one key; every other page kept its size. */
  ghost predicate Joined<V>(nodes: Arena<V>, a: Arena<V>, p: nat, l: nat, r: nat)
  {
    && a.Keys == nodes.Keys - {r} && p in nodes && l in nodes && r in nodes && p != l && p != r && l != r
    && a[l].Size() >= nodes[l].Size() + nodes[r].Size() && a[l].parent == Some(p)
    && a[p].Size() == nodes[p].Size() - 1
    && forall id | id in a && id != l && id != p :: a[id].Size() == nodes[id].Size()
  }

  /** borrowFromRight moves exactly one key from children[i + 1] to children[i]. */
  lemma BorrowFromRightMoved<V>(nodes: Arena<V>, p: nat, i: nat)
    requires PairReady(nodes, p, i) && |nodes[nodes[p].children[i + 1]].keys| >= 2
    ensures Moved(nodes, BorrowFromRight(nodes, p, i), nodes[p].children[i], nodes[p].children[i + 1])
  {
    var a := BorrowFromRight(nodes, p, i);
    var l, r := nodes[p].children[i], nodes[p].children[i + 1];
    forall id | id in a && id != l && id != r ensures a[id].Size() == nodes[id].Size() {
      if id != p { assert a[id].keys == nodes[id].keys; }
    }
  }

  /** borrowFromLeft moves exactly one key from children[i] to children[i + 1]. */
  lemma BorrowFromLeftMoved<V>(nodes: Arena<V>, p: nat, i: nat)
    requires PairReady(nodes, p, i) && |nodes[nodes[p].children[i]].keys| >= 1
    ensures Moved(nodes, BorrowFromLeft(nodes, p, i), nodes[p].children[i + 1], nodes[p].children[i])
  {
    var a := BorrowFromLeft(nodes, p, i);
    var l, r := nodes[p].children[i], nodes[p].children[i + 1];
    forall id | id in a && id != l && id != r ensures a[id].Size() == nodes[id].Size() {
      if id != p { assert a[id].keys == nodes[id].keys; }
    }
  }

  /** A merge joins children[i + 1] into children[i] and takes one key from the parent. */
  lemma MergePairJoined<V>(nodes: Arena<V>, p: nat, i: nat)
    requires PairReady(nodes, p, i)
    ensures Joined(nodes, MergePair(nodes, p, i), p, nodes[p].children[i], nodes[p].children[i + 1])
  {
    var a := MergePair(nodes, p, i);
    var l := nodes[p].children[i];
    forall id | id in a && id != l && id != p ensures a[id].Size() == nodes[id].Size() {
      assert a[id].keys == nodes[id].keys;
    }
  }

  // ---------------------------------------------------------------------
  // Each repair against the bound

  /** A borrow by the short page from a sibling above minCapacity leaves every page at its floor. */
  lemma BorrowBalanced<V>(nodes: Arena<V>, a: Arena<V>, root: nat, depth: int, deg: int, gain: nat, lose: nat)
    requires deg >= 2 && BalancedBut(nodes, root, depth, deg, gain) && Moved(nodes, a, gain, lose)
    requires gain != root && lose != root && nodes[lose].Size() > deg / 2
    ensures Balanced(a, root, depth, deg)
  {
    forall id | id in a ensures a[id].Size() >= Floor(deg, id == root, depth) {
      assert nodes[id].Size() + (if id == gain then 1 else 0) >= Floor(deg, id == root, depth);
    }
  }

  /**
   * A merge of the short page c with a sibling: the survivor holds both
   * pages' keys, at least Low(deg) of them, and only the parent may now be
   * one key short.
   */
  lemma MergeBalanced<V>(nodes: Arena<V>, a: Arena<V>, root: nat, depth: int, deg: int, c: nat, p: nat, l: nat, r: nat)
    requires BalancedBut(nodes, root, depth, deg, c) && Joined(nodes, a, p, l, r)
    requires (c == l || c == r) && l != root && r != root
    ensures BalancedBut(a, root, depth, deg, p)
  {
    forall id | id in a ensures a[id].Size() + (if id == p then 1 else 0) >= Floor(deg, id == root, depth) {
      assert nodes[id].Size() + (if id == c then 1 else 0) >= Floor(deg, id == root, depth);
      if id == l {
        assert nodes[r].Size() + (if r == c then 1 else 0) >= Floor(deg, r == root, depth);
      }
    }
  }

  /** The collapse of an empty root: its first child, a page that held Low(deg) keys, becomes the root. */
  lemma CollapseBalanced<V>(nodes: Arena<V>, root: nat, depth: int, deg: int)
    requires root in nodes && nodes[root].children != [] && nodes[root].children[0] in nodes
    requires nodes[root].children[0] != root
    requires BalancedBut(nodes, root, depth, deg, root)
    ensures Balanced(Collapse(nodes, root, depth), nodes[root].children[0], depth - 1, deg)
  {
    var a, c := Collapse(nodes, root, depth), nodes[root].children[0];
    forall id | id in a ensures a[id].Size() >= Floor(deg, id == c, depth - 1) {
      assert a[id].keys == nodes[id].keys;
      assert nodes[id].Size() + (if id == root then 1 else 0) >= Floor(deg, id == root, depth);
    }
  }

  // ---------------------------------------------------------------------
  // Which pages a repair touches

  /**
   * The pair a repair works on: curr is the left page of a borrow from the
   * right or a merge with the right, and the right page otherwise; a
   * sibling that lends has more than min keys.
   */
  lemma FixSpot<V>(nodes: Arena<V>, curr: nat, min: int)
    requires curr in nodes && (nodes[curr].kind == Leaf ==> LeafSiblingsAgree(nodes, curr))
    ensures var f := RepairFix(nodes, curr, min);
      (f.FromRight? || f.FromLeft? || f.WithRight? || f.WithLeft?) ==>
        && f.p in nodes && f.i + 1 < |nodes[f.p].children|
        && ((f.FromRight? || f.WithRight?) ==> nodes[f.p].children[f.i] == curr)
        && ((f.FromLeft? || f.WithLeft?) ==> nodes[f.p].children[f.i + 1] == curr)
        && (f.FromRight? ==> nodes[nodes[f.p].children[f.i + 1]].Size() > min)
        && (f.FromLeft? ==> nodes[nodes[f.p].children[f.i]].Size() > min)
  {
  }

  /**
   * A page below minCapacity, other than the root, with a sibling under its
   * parent (among the parent's children for a router, along the chain for a
   * leaf) is repaired.
   */
  lemma SiblingFix<V>(nodes: Arena<V>, curr: nat, min: int, p: nat)
    requires curr in nodes && nodes[curr].Size() < min && nodes[curr].kind != Root
    requires nodes[curr].parent == Some(p) && p in nodes && curr in nodes[p].children
    requires nodes[curr].kind == Leaf ==>
      var X := nodes[curr];
      || (X.next.Some? && Under(nodes, X.next.value, p))
      || (X.prev.Some? && Under(nodes, X.prev.value, p) && IndexOfChild(nodes[p].children, curr) > 0)
    requires nodes[curr].kind == Internal ==>
      var ch := nodes[p].children; var i := IndexOfChild(ch, curr);
      (i + 1 < |ch| && Under(nodes, ch[i + 1], p)) || (i > 0 && Under(nodes, ch[i - 1], p))
    ensures RepairFix(nodes, curr, min) != NoRepair
  {
  }

  /** A page that is not the root hangs under a parent with at least two children once Low(deg) >= 1. */
  lemma ParentWide<V>(nodes: Arena<V>, levels: seq<seq<nat>>, level: map<nat, nat>, root: nat, depth: int,
                      deg: int, curr: nat) returns (p: nat)
    requires Wf(nodes, levels, level, root, depth) && curr in nodes && curr != root && Low(deg) >= 1
    requires BalancedBut(nodes, root, depth, deg, curr)
    ensures nodes[curr].parent == Some(p) && p in nodes && curr in nodes[p].children
    ensures nodes[p].kind != Leaf && |nodes[p].children| >= 2
  {
    WfRoot(nodes, levels, level, root, depth);
    p := WfParent(nodes, levels, level, root, depth, curr);
    assert nodes[p].Size() + (if p == curr then 1 else 0) >= Floor(deg, p == root, depth);
    assert PageOk(nodes[p], level[p], p == root);
  }

  /** A router with a parent of two children or more has a neighbour under that parent. */
  lemma RouterNeighbour<V>(nodes: Arena<V>, levels: seq<seq<nat>>, level: map<nat, nat>, root: nat, depth: int,
                           curr: nat, p: nat)
    requires Wf(nodes, levels, level, root, depth) && p in nodes && nodes[p].kind != Leaf
    requires curr in nodes[p].children && |nodes[p].children| >= 2
    ensures var ch := nodes[p].children; var i := IndexOfChild(ch, curr);
      (i + 1 < |ch| && Under(nodes, ch[i + 1], p)) || (i > 0 && Under(nodes, ch[i - 1], p))
  {
    var ch := nodes[p].children;
    var i := IndexOfChild(ch, curr);
    if i + 1 < |ch| {
      var _, _ := WfPairReady(nodes, levels, level, root, depth, p, i);
    } else {
      var _, _ := WfPairReady(nodes, levels, level, root, depth, p, i - 1);
    }
  }

  /** A leaf with a parent of two children or more has a chain neighbour under that parent. */
  lemma LeafNeighbour<V>(nodes: Arena<V>, levels: seq<seq<nat>>, level: map<nat, nat>, root: nat, depth: int,
                         curr: nat, p: nat)
    requires Wf(nodes, levels, level, root, depth) && curr in nodes && level[curr] == 0 && curr != root
    requires nodes[curr].parent == Some(p) && p in nodes && |nodes[p].children| >= 2
    ensures curr in nodes[p].children
    ensures var X := nodes[curr];
      || (X.next.Some? && Under(nodes, X.next.value, p))
      || (X.prev.Some? && Under(nodes, X.prev.value, p) && IndexOfChild(nodes[p].children, curr) > 0)
  {
    var p' := ChainSibling(nodes, levels, level, root, depth, curr);
  }

  /** A short page other than the root, when Low(deg) >= 1, has a sibling under its parent, so the repair acts. */
  lemma SettledBelow<V>(nodes: Arena<V>, levels: seq<seq<nat>>, level: map<nat, nat>, root: nat, depth: int,
                        deg: int, curr: nat)
    requires Wf(nodes, levels, level, root, depth) && curr in nodes && curr != root && Low(deg) >= 1
    requires BalancedBut(nodes, root, depth, deg, curr) && nodes[curr].Size() < deg / 2
    ensures RepairFix(nodes, curr, deg / 2) != NoRepair
  {
    var p := ParentWide(nodes, levels, level, root, depth, deg, curr);
    RootKind(nodes, levels, level, root, depth, curr);
    StepOk(nodes, levels, level, root, depth, curr, 0);
    if nodes[curr].kind == Leaf {
      LeafNeighbour(nodes, levels, level, root, depth, curr, p);
    } else {
      RouterNeighbour(nodes, levels, level, root, depth, curr, p);
    }
    SiblingFix(nodes, curr, deg / 2, p);
  }

  /**
   * A page below minCapacity that the repair leaves alone is the root, or
   * has no sibling under its parent. The latter cannot happen once
   * Low(deg) >= 1: the parent then holds a key, so it has two children.
   */
  lemma Settled<V>(nodes: Arena<V>, levels: seq<seq<nat>>, level: map<nat, nat>, root: nat, depth: int,
                   deg: int, curr: nat)
    requires Wf(nodes, levels, level, root, depth) && deg >= 2 && curr in nodes
    requires BalancedBut(nodes, root, depth, deg, curr)
    ensures RepairFix(nodes, curr, deg / 2) == NoRepair ==> nodes[curr].Size() >= Floor(deg, curr == root, depth)
  {
    FloorBelowMin(deg, curr == root, depth);
    if nodes[curr].Size() >= deg / 2 || Low(deg) <= 0 {
    } else if curr == root {
      WfRoot(nodes, levels, level, root, depth);
      RootKind(nodes, levels, level, root, depth, curr);
      assert PageOk(nodes[curr], level[curr], true);
    } else {
      SettledBelow(nodes, levels, level, root, depth, deg, curr);
    }
  }

  /** What a repair leaves of the bound: nothing short, or only the parent after a merge. */
  ghost predicate Rebalanced<V>(nodes: Arena<V>, a: Arena<V>, f: Fix, curr: nat, root: nat, depth: int, deg: int)
  {
    match f
    case RootCollapse =>
      root in nodes && nodes[root].children != [] && Balanced(a, nodes[root].children[0], depth - 1, deg)
    case WithRight(p, _) =>
      Survivor(nodes, f, curr) in a && a[Survivor(nodes, f, curr)].parent == Some(p) && BalancedBut(a, root, depth, deg, p)
    case WithLeft(p, _) =>
      Survivor(nodes, f, curr) in a && a[Survivor(nodes, f, curr)].parent == Some(p) && BalancedBut(a, root, depth, deg, p)
    case _ => Balanced(a, root, depth, deg)
  }

  /** A borrow from the right sibling leaves the tree balanced. */
  lemma FromRightRebalanced<V>(nodes: Arena<V>, root: nat, deg: int, depth: int, p: nat, i: nat, a: Arena<V>)
    requires deg >= 2 && root in nodes && nodes[root].parent == None && PairReady(nodes, p, i)
    requires BalancedBut(nodes, root, depth, deg, nodes[p].children[i])
    requires Repaired(nodes, a, FromRight(p, i), root, depth) && nodes[nodes[p].children[i + 1]].Size() > deg / 2
    ensures Balanced(a, root, depth, deg)
  {
    BorrowFromRightMoved(nodes, p, i);
    BorrowBalanced(nodes, a, root, depth, deg, nodes[p].children[i], nodes[p].children[i + 1]);
  }

  /** A borrow from the left sibling leaves the tree balanced. */
  lemma FromLeftRebalanced<V>(nodes: Arena<V>, root: nat, deg: int, depth: int, p: nat, i: nat, a: Arena<V>)
    requires deg >= 2 && root in nodes && nodes[root].parent == None && PairReady(nodes, p, i)
    requires BalancedBut(nodes, root, depth, deg, nodes[p].children[i + 1])
    requires Repaired(nodes, a, FromLeft(p, i), root, depth) && nodes[nodes[p].children[i]].Size() > deg / 2
    ensures Balanced(a, root, depth, deg)
  {
    BorrowFromLeftMoved(nodes, p, i);
    BorrowBalanced(nodes, a, root, depth, deg, nodes[p].children[i + 1], nodes[p].children[i]);
  }

  /** A merge repair leaves only the parent, of which the survivor is a child, possibly short. */
  lemma MergeRebalanced<V>(nodes: Arena<V>, root: nat, deg: int, depth: int, curr: nat, f: Fix, a: Arena<V>)
    requires curr in nodes && root in nodes && nodes[root].parent == None
    requires BalancedBut(nodes, root, depth, deg, curr) && (f.WithRight? || f.WithLeft?) && Repaired(nodes, a, f, root, depth)
    requires f.p in nodes && f.i + 1 < |nodes[f.p].children|
    requires f.WithRight? ==> nodes[f.p].children[f.i] == curr
    requires f.WithLeft? ==> nodes[f.p].children[f.i + 1] == curr
    ensures Rebalanced(nodes, a, f, curr, root, depth, deg)
  {
    var l, r := nodes[f.p].children[f.i], nodes[f.p].children[f.i + 1];
    MergePairJoined(nodes, f.p, f.i);
    MergeBalanced(nodes, a, root, depth, deg, curr, f.p, l, r);
    assert Survivor(nodes, f, curr) == l;
  }

  /** The repair of a page that may be one key short, given the facts of the tree it relies on. */
  lemma RepairRebalanced<V>(nodes: Arena<V>, root: nat, depth: int, deg: int, curr: nat, a: Arena<V>)
    requires deg >= 2 && curr in nodes && root in nodes && nodes[root].parent == None
    requires nodes[curr].kind == Leaf ==> LeafSiblingsAgree(nodes, curr)
    requires nodes[curr].kind == Root ==> curr == root
    requires RepairFix(nodes, curr, deg / 2) == NoRepair ==> nodes[curr].Size() >= Floor(deg, curr == root, depth)
    requires BalancedBut(nodes, root, depth, deg, curr)
    requires Repaired(nodes, a, RepairFix(nodes, curr, deg / 2), root, depth)
    ensures Rebalanced(nodes, a, RepairFix(nodes, curr, deg / 2), curr, root, depth, deg)
  {
    var f := RepairFix(nodes, curr, deg / 2);
    FixSpot(nodes, curr, deg / 2);
    if f == NoRepair {
      BalancedTight(nodes, root, depth, deg, curr);
    } else if f == RootCollapse {
      CollapseBalanced(nodes, root, depth, deg);
    } else if f.FromRight? {
      FromRightRebalanced(nodes, root, deg, depth, f.p, f.i, a);
    } else if f.FromLeft? {
      FromLeftRebalanced(nodes, root, deg, depth, f.p, f.i, a);
    } else {
      MergeRebalanced(nodes, root, deg, depth, curr, f, a);
    }
  }

  /**
   * The repair remove applies to a page that may be one key short leaves
   * the tree balanced, or, after a merge, leaves only the survivor's parent
   * one key short.
   */
  lemma RepairBalanced<V>(nodes: Arena<V>, levels: seq<seq<nat>>, level: map<nat, nat>, root: nat, depth: int,
                          deg: int, curr: nat, a: Arena<V>)
    requires Wf(nodes, levels, level, root, depth) && deg >= 2 && curr in nodes
    requires BalancedBut(nodes, root, depth, deg, curr)
    requires Repaired(nodes, a, RepairFix(nodes, curr, deg / 2), root, depth)
    ensures Rebalanced(nodes, a, RepairFix(nodes, curr, deg / 2), curr, root, depth, deg)
  {
    WfRoot(nodes, levels, level, root, depth);
    if nodes[curr].kind == Leaf {
      LeafSiblings(nodes, levels, level, root, depth, curr);
    }
    RootKind(nodes, levels, level, root, depth, curr);
    Settled(nodes, levels, level, root, depth, deg, curr);
    RepairRebalanced(nodes, root, depth, deg, curr, a);
  }
  /**
   * What remove(key, curr) may assume of the tree it works on: balanced, or,
   * at a router, balanced but for that router, which lost a key to a merge
   * below it.
   */
  ghost predicate Carried<V>(nodes: Arena<V>, root: nat, depth: int, deg: int, curr: nat)
  {
    Balanced(nodes, root, depth, deg) || (curr in nodes && nodes[curr].kind != Leaf && BalancedBut(nodes, root, depth, deg, curr))
  }

  /**
   * One step of remove's upward walk: once curr has been repaired, the tree
   * is balanced where the walk ends, and what the walk may assume holds at
   * the page it goes on with.
   */
  lemma RepairCarried<V>(nodes: Arena<V>, levels: seq<seq<nat>>, level: map<nat, nat>, root: nat, depth: int,
                         deg: int, curr: nat, a: Arena<V>, root': nat, depth': int, up: Option<nat>)
    requires Wf(nodes, levels, level, root, depth) && deg >= 2 && curr in nodes
    requires BalancedBut(nodes, root, depth, deg, curr)
    requires Repaired(nodes, a, RepairFix(nodes, curr, deg / 2), root, depth)
    requires RepairFix(nodes, curr, deg / 2).RootCollapse? ==>
      up == None && curr == root && depth' == depth - 1 && root' == nodes[curr].children[0]
    requires !RepairFix(nodes, curr, deg / 2).RootCollapse? ==>
      && root' == root && depth' == depth
      && var s := Survivor(nodes, RepairFix(nodes, curr, deg / 2), curr); s in a && up == a[s].parent
    requires up.Some? ==> up.value in a && a[up.value].kind != Leaf
    ensures up.None? ==> Balanced(a, root', depth', deg)
    ensures up.Some? ==> Carried(a, root', depth', deg, up.value)
  {
    RepairBalanced(nodes, levels, level, root, depth, deg, curr, a);
  }
}
