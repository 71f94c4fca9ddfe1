/**
 * Merging keeps the structural invariant and the contents: the right page
 * leaves its level, the left page takes over its children (or its pairs),
 * and the parent loses one separator and one child.
 */
module MergeProof {
  import opened Wrappers
  import opened Nodes
  import opened Shape
  import opened Rebalance
  import opened PairFacts

  /** The levels without page x. */
  ghost function DropPage(levels: seq<seq<nat>>, level: map<nat, nat>, x: nat): (ls: seq<seq<nat>>)
    requires x in level && level[x] < |levels| && x in levels[level[x]]
    ensures |ls| == |levels|
  {
    levels[level[x] := RemoveAt(levels[level[x]], IndexOfChild(levels[level[x]], x))]
  }

  /** The page whose prev link a merge of leaves redirects to the left page (the left page itself if none). */
  ghost function Follower<V>(nodes: Arena<V>, p: nat, i: nat): nat
    requires PairReady(nodes, p, i)
  {
    var l := nodes[p].children[i];
    var R := nodes[nodes[p].children[i + 1]];
    if nodes[l].kind == Leaf && R.next.Some? then R.next.value else l
  }

  /** What a merge of children i and i + 1 of p changes, page by page. */
  ghost predicate Merged<V>(nodes: Arena<V>, a: Arena<V>, p: nat, i: nat)
    requires PairReady(nodes, p, i)
  {
    var P := nodes[p];
    var l := P.children[i];
    var r := P.children[i + 1];
    var L := nodes[l];
    var R := nodes[r];
    var leaf := L.kind == Leaf;
    var m := Follower(nodes, p, i);
    && a.Keys == nodes.Keys - {r}
    && a[l].kind == L.kind && a[l].parent == L.parent && a[l].prev == L.prev
    && a[l].next == (if leaf then R.next else L.next)
    && a[l].children == L.children + R.children
    && PairShape(a[l])
    && (forall k | 0 <= k < |a[l].children| :: a[l].children[k] in a && a[a[l].children[k]].parent == Some(l))
    && (leaf ==> Entries(a[l].keys, a[l].vals) == Entries(L.keys, L.vals) + Entries(R.keys, R.vals))
    && SameLinks(P, a[p]) && a[p].vals == P.vals
    && a[p].children == RemoveAt(P.children, i + 1) && |a[p].keys| + 1 == |P.keys|
    && (m != l ==> a[m] == nodes[m].(prev := Some(l)))
    && (forall id | id in a && id != l && id != p && id != m :: Kept(nodes[id], a[id], false, r, r))
  }

  // ---------------------------------------------------------------------
  // The two merges are merges

  lemma MergeLeavesFacts<V>(nodes: Arena<V>, p: nat, i: nat)
    requires PairReady(nodes, p, i) && nodes[nodes[p].children[i]].kind == Leaf
    ensures Merged(nodes, MergeLeaves(nodes, p, i), p, i)
  {
    var P := nodes[p];
    var l, r := P.children[i], P.children[i + 1];
    var L, R := nodes[l], nodes[r];
    EntriesAppend(L.keys, L.vals, R.keys, R.vals);
    var L' := L.(keys := L.keys + R.keys, vals := L.vals + R.vals, next := R.next);
    var P' := P.(keys := RemoveAt(P.keys, i), children := RemoveAt(P.children, i + 1));
    var b := (nodes - {r})[l := L'][p := P'];
    var a := MergeLeaves(nodes, p, i);
    var m := Follower(nodes, p, i);
    if R.next.Some? {
      assert a == b[m := nodes[m].(prev := Some(l))];
      assert a[l] == L' && a[p] == P';
    } else {
      assert a == b;
    }
    forall id | id in a && id != l && id != p && id != m ensures Kept(nodes[id], a[id], false, r, r) {
      assert a[id] == nodes[id];
    }
  }

  lemma MergeRoutersFacts<V>(nodes: Arena<V>, p: nat, i: nat)
    requires PairReady(nodes, p, i) && nodes[nodes[p].children[i]].kind != Leaf
    ensures Merged(nodes, MergeRouters(nodes, p, i), p, i)
  {
    var P := nodes[p];
    var l, r := P.children[i], P.children[i + 1];
    var L, R := nodes[l], nodes[r];
    var a := MergeRouters(nodes, p, i);
    var L' := L.(keys := L.keys + [P.keys[i]] + R.keys, children := L.children + R.children);
    var P' := P.(keys := RemoveAt(P.keys, i), children := RemoveAt(P.children, i + 1));
    assert a[l] == L' && a[p] == P';
    forall k | 0 <= k < |a[l].children| ensures a[l].children[k] in a && a[a[l].children[k]].parent == Some(l) {
      if k < |L.children| {
        var c := L.children[k];
        assert Outside(nodes, c, p, l, r) && nodes[c].parent == Some(l);
      } else {
        var c := R.children[k - |L.children|];
        assert Outside(nodes, c, p, l, r);
      }
    }
    forall id | id in a && id != l && id != p ensures Kept(nodes[id], a[id], false, r, r) {
      if id in R.children {
        var k :| 0 <= k < |R.children| && R.children[k] == id;
        assert nodes[id].parent == Some(r);
      }
    }
  }

  // ---------------------------------------------------------------------
  // A merge keeps the invariant

  /** The pages other than l and p after a merge: only a prev link or a parent may change. */
  lemma MergeOther<V>(nodes: Arena<V>, a: Arena<V>, p: nat, i: nat, id: nat)
    requires PairReady(nodes, p, i) && Merged(nodes, a, p, i)
    requires id in a && id != nodes[p].children[i] && id != p
    ensures id in nodes && id != nodes[p].children[i + 1]
    ensures a[id].children == nodes[id].children && a[id].keys == nodes[id].keys && a[id].vals == nodes[id].vals
    ensures a[id].kind == nodes[id].kind && a[id].next == nodes[id].next
    ensures a[id].parent == nodes[id].parent || (a[id].parent.Some? && nodes[id].parent == Some(nodes[p].children[i + 1]))
    ensures a[id].prev == nodes[id].prev || id == Follower(nodes, p, i)
  {
    var l, r := nodes[p].children[i], nodes[p].children[i + 1];
    if id != Follower(nodes, p, i) {
      assert Kept(nodes[id], a[id], false, r, r);
    }
  }

  lemma MergeLayered<V>(nodes: Arena<V>, a: Arena<V>, levels: seq<seq<nat>>, level: map<nat, nat>,
                        root: nat, depth: int, r: nat)
    requires Layered(nodes, levels, level, root, depth) && r in nodes && r != root
    requires a.Keys == nodes.Keys - {r}
    ensures r in level && level[r] < |levels| && r in levels[level[r]]
    ensures Layered(a, DropPage(levels, level, r), level - {r}, root, depth)
  {
    var lx := level[r];
    var U := levels[lx];
    var j := IndexOfChild(U, r);
    var ls := DropPage(levels, level, r);
    RemoveAtMembers(U, j);
    DistinctRemove(U, j);
    var lv := level - {r};
    forall id | id in lv ensures lv[id] < depth && id in ls[lv[id]] {
      assert id in levels[level[id]];
    }
    forall t, k | 0 <= t < |ls| && 0 <= k < |ls[t]| ensures ls[t][k] in a && ls[t][k] in lv && lv[ls[t][k]] == t {
      if t == lx {
        assert ls[t][k] in U;
        var k' :| 0 <= k' < |U| && U[k'] == ls[t][k];
      } else {
        assert ls[t][k] == levels[t][k];
        assert ls[t][k] != r;
      }
    }
  }

  lemma RemoveSecond<T>(U: seq<T>, j: nat)
    requires j + 1 < |U|
    ensures RemoveAt(U, j + 1) == U[..j] + [U[j]] + U[j + 2..]
  {
    assert U[..j + 1] == U[..j] + [U[j]];
  }

  /** Kids of the level holding the pair, after the right page left it. */
  lemma KidsMergeBelow<V>(nodes: Arena<V>, a: Arena<V>, U: seq<nat>, j: nat, p: nat, i: nat)
    requires PairReady(nodes, p, i) && Merged(nodes, a, p, i)
    requires AllIn(nodes, U) && Distinct(U) && j + 1 < |U| && p !in U
    requires U[j] == nodes[p].children[i] && U[j + 1] == nodes[p].children[i + 1]
    ensures AllIn(a, RemoveAt(U, j + 1)) && Kids(a, RemoveAt(U, j + 1)) == Kids(nodes, U)
  {
    var l := U[j];
    KidsPair(nodes, U, j);
    var A, B := U[..j], U[j + 2..];
    RemoveSecond(U, j);
    forall k | 0 <= k < |A| ensures A[k] in a && a[A[k]].children == nodes[A[k]].children {
      assert A[k] == U[k];
      MergeOther(nodes, a, p, i, A[k]);
    }
    forall k | 0 <= k < |B| ensures B[k] in a && a[B[k]].children == nodes[B[k]].children {
      assert B[k] == U[j + 2 + k];
      MergeOther(nodes, a, p, i, B[k]);
    }
    KidsFrame(nodes, a, A);
    KidsFrame(nodes, a, B);
    KidsOne(a, l);
    KidsAppend(a, A, [l]);
    KidsAppend(a, A + [l], B);
  }

  /** Kids of the parent's level: the parent lost the right page from its children. */
  lemma KidsMergeAbove<V>(nodes: Arena<V>, a: Arena<V>, W: seq<nat>, jp: nat, p: nat, i: nat)
    requires PairReady(nodes, p, i) && Merged(nodes, a, p, i)
    requires AllIn(nodes, W) && Distinct(W) && jp < |W| && W[jp] == p
    requires nodes[p].children[i] !in W && nodes[p].children[i + 1] !in W
    ensures AllIn(a, W)
    ensures |Kids(nodes, W[..jp])| + i + 1 < |Kids(nodes, W)|
    ensures Kids(a, W) == RemoveAt(Kids(nodes, W), |Kids(nodes, W[..jp])| + i + 1)
  {
    KidsMergeBeside(nodes, a, W, jp, p, i);
    KidsAt(nodes, W, jp);
    KidsAt(a, W, jp);
    var X, Y, ch := Kids(nodes, W[..jp]), Kids(nodes, W[jp + 1..]), nodes[p].children;
    assert Kids(nodes, W) == X + ch + Y;
    assert Kids(a, W) == X + RemoveAt(ch, i + 1) + Y;
    RemoveAtConcat(X, ch, Y, i + 1);
  }

  /** The pages of the parent's level on either side of the parent keep their children. */
  lemma KidsMergeBeside<V>(nodes: Arena<V>, a: Arena<V>, W: seq<nat>, jp: nat, p: nat, i: nat)
    requires PairReady(nodes, p, i) && Merged(nodes, a, p, i)
    requires AllIn(nodes, W) && Distinct(W) && jp < |W| && W[jp] == p
    requires nodes[p].children[i] !in W && nodes[p].children[i + 1] !in W
    ensures AllIn(a, W) && AllIn(a, W[..jp]) && AllIn(a, W[jp + 1..])
    ensures Kids(a, W[..jp]) == Kids(nodes, W[..jp]) && Kids(a, W[jp + 1..]) == Kids(nodes, W[jp + 1..])
  {
    var A, B := W[..jp], W[jp + 1..];
    forall k | 0 <= k < |W| ensures W[k] in a { }
    forall k | 0 <= k < |A| ensures a[A[k]].children == nodes[A[k]].children {
      assert A[k] == W[k] && W[k] != p;
      MergeOther(nodes, a, p, i, A[k]);
    }
    forall k | 0 <= k < |B| ensures a[B[k]].children == nodes[B[k]].children {
      assert B[k] == W[jp + 1 + k] && W[jp + 1 + k] != p;
      MergeOther(nodes, a, p, i, B[k]);
    }
    KidsFrame(nodes, a, A);
    KidsFrame(nodes, a, B);
  }

  /** Kids of a level away from the pair and its parent. */
  lemma KidsMergeAway<V>(nodes: Arena<V>, a: Arena<V>, U: seq<nat>, p: nat, i: nat)
    requires PairReady(nodes, p, i) && Merged(nodes, a, p, i)
    requires AllIn(nodes, U)
    requires forall k | 0 <= k < |U| :: U[k] != p && U[k] != nodes[p].children[i] && U[k] != nodes[p].children[i + 1]
    ensures AllIn(a, U) && Kids(a, U) == Kids(nodes, U)
  {
    forall k | 0 <= k < |U| ensures U[k] in a && a[U[k]].children == nodes[U[k]].children {
      MergeOther(nodes, a, p, i, U[k]);
    }
    KidsFrame(nodes, a, U);
  }

  lemma MergePages<V>(nodes: Arena<V>, a: Arena<V>, level: map<nat, nat>, root: nat, p: nat, i: nat)
    requires PagesOk(nodes, level, root) && level.Keys == nodes.Keys
    requires PairReady(nodes, p, i) && Merged(nodes, a, p, i)
    ensures PagesOk(a, level - {nodes[p].children[i + 1]}, root)
  {
    var l, r := nodes[p].children[i], nodes[p].children[i + 1];
    forall id | id in a && id in level - {r} ensures PageOk(a[id], level[id], id == root) {
      assert PageOk(nodes[id], level[id], id == root);
      if id != l && id != p {
        MergeOther(nodes, a, p, i, id);
      }
    }
  }

  lemma MergeParents<V>(nodes: Arena<V>, a: Arena<V>, p: nat, i: nat)
    requires PairReady(nodes, p, i) && Merged(nodes, a, p, i)
    requires ParentsOk(nodes) && Distinct(nodes[p].children)
    ensures ParentsOk(a)
  {
    var P := nodes[p];
    var l, r := P.children[i], P.children[i + 1];
    RemoveAtMembers(P.children, i + 1);
    DistinctRemove(P.children, i + 1);
    forall q, k | q in a && 0 <= k < |a[q].children| ensures a[q].children[k] in a && a[a[q].children[k]].parent == Some(q) {
      if q == p {
        var c := a[p].children[k];
        assert c in P.children && c != r;
        var k' :| 0 <= k' < |P.children| && P.children[k'] == c;
        assert nodes[c].parent == Some(p);
        if c != l && c != p {
          MergeOther(nodes, a, p, i, c);
        }
      } else if q != l {
        MergeOther(nodes, a, p, i, q);
        var c := nodes[q].children[k];
        assert nodes[c].parent == Some(q);
        if c != l && c != p {
          MergeOther(nodes, a, p, i, c);
        }
      }
    }
  }

  /** The leaf chain without the right leaf, after a merge of leaves. */
  lemma MergeChainLeaf<V>(nodes: Arena<V>, a: Arena<V>, L0: seq<nat>, p: nat, i: nat, j: nat)
    requires PairReady(nodes, p, i) && Merged(nodes, a, p, i) && nodes[nodes[p].children[i]].kind == Leaf
    requires ChainOk(nodes, L0) && Distinct(L0) && j + 1 < |L0| && p !in L0
    requires L0[j] == nodes[p].children[i] && L0[j + 1] == nodes[p].children[i + 1]
    ensures ChainOk(a, RemoveAt(L0, j + 1))
  {
    var l, r := L0[j], L0[j + 1];
    var L1 := RemoveAt(L0, j + 1);
    var m := Follower(nodes, p, i);
    ChainLinkAt(nodes, L0, j);
    ChainLinkAt(nodes, L0, j + 1);
    assert m != l ==> j + 2 < |L0| && m == L0[j + 2];
    forall k | 0 <= k < |L1| ensures ChainLink(a, L1, k) {
      if k < j {
        ChainLinkAt(nodes, L0, k);
        assert L0[k] != m;
        MergeOther(nodes, a, p, i, L0[k]);
      } else if k > j {
        ChainLinkAt(nodes, L0, k + 1);
        if k > j + 1 {
          assert L0[k + 1] != m;
        }
        MergeOther(nodes, a, p, i, L0[k + 1]);
      }
    }
  }

  /** A merge of routers leaves the leaf chain as it was. */
  lemma MergeChainAway<V>(nodes: Arena<V>, a: Arena<V>, L0: seq<nat>, p: nat, i: nat)
    requires PairReady(nodes, p, i) && Merged(nodes, a, p, i) && nodes[nodes[p].children[i]].kind != Leaf
    requires ChainOk(nodes, L0)
    requires forall k | 0 <= k < |L0| :: L0[k] != p && L0[k] != nodes[p].children[i] && L0[k] != nodes[p].children[i + 1]
    ensures ChainOk(a, L0)
  {
    forall k | 0 <= k < |L0| ensures ChainLink(a, L0, k) {
      ChainLinkAt(nodes, L0, k);
      MergeOther(nodes, a, p, i, L0[k]);
    }
  }

  /** Leaves other than the pair and its parent keep their pairs. */
  lemma MergeEntriesAway<V>(nodes: Arena<V>, a: Arena<V>, A: seq<nat>, p: nat, i: nat)
    requires PairReady(nodes, p, i) && Merged(nodes, a, p, i)
    requires LeavesOk(nodes, A)
    requires forall k | 0 <= k < |A| :: A[k] != p && A[k] != nodes[p].children[i] && A[k] != nodes[p].children[i + 1]
    ensures LeavesOk(a, A) && LeafEntries(a, A) == LeafEntries(nodes, A)
  {
    forall k | 0 <= k < |A| ensures A[k] in a && a[A[k]].keys == nodes[A[k]].keys && a[A[k]].vals == nodes[A[k]].vals {
      MergeOther(nodes, a, p, i, A[k]);
    }
    LeafEntriesFrame(nodes, a, A);
  }

  /** The pairs of the chain without the right leaf are the pairs before the merge. */
  lemma MergeLeafEntries<V>(nodes: Arena<V>, a: Arena<V>, L0: seq<nat>, p: nat, i: nat, j: nat)
    requires PairReady(nodes, p, i) && Merged(nodes, a, p, i) && nodes[nodes[p].children[i]].kind == Leaf
    requires LeavesOk(nodes, L0) && Distinct(L0) && j + 1 < |L0| && p !in L0
    requires L0[j] == nodes[p].children[i] && L0[j + 1] == nodes[p].children[i + 1]
    ensures LeavesOk(a, RemoveAt(L0, j + 1))
    ensures LeafEntries(a, RemoveAt(L0, j + 1)) == LeafEntries(nodes, L0)
  {
    var l, r := L0[j], L0[j + 1];
    LeafEntriesPair(nodes, L0, j);
    RemoveSecond(L0, j);
    var A, B := L0[..j], L0[j + 2..];
    forall k | 0 <= k < |A| ensures A[k] != p && A[k] != l && A[k] != r {
      assert A[k] == L0[k];
    }
    forall k | 0 <= k < |B| ensures B[k] != p && B[k] != l && B[k] != r {
      assert B[k] == L0[j + 2 + k];
    }
    MergeEntriesAway(nodes, a, A, p, i);
    MergeEntriesAway(nodes, a, B, p, i);
    LeafEntriesOne(a, l);
    LeafEntriesAppend(a, A, [l]);
    LeafEntriesAppend(a, A + [l], B);
  }

  lemma MergeLinked<V>(nodes: Arena<V>, a: Arena<V>, levels: seq<seq<nat>>, level: map<nat, nat>,
                       root: nat, depth: int, p: nat, i: nat, jp: nat, s: nat)
    requires Layered(nodes, levels, level, root, depth) && Linked(nodes, levels)
    requires PairReady(nodes, p, i) && Merged(nodes, a, p, i)
    requires p in nodes && level[p] > 0 && AllIn(nodes, levels[level[p]])
    requires PairSpot(nodes, levels, level, p, i, jp, s)
    requires level[nodes[p].children[i]] == level[p] - 1 && level[nodes[p].children[i + 1]] == level[p] - 1
    requires nodes[p].children[i + 1] in level && nodes[p].children[i + 1] in levels[level[nodes[p].children[i + 1]]]
    requires var ls := DropPage(levels, level, nodes[p].children[i + 1]); forall t | 0 <= t < |ls| :: AllIn(a, ls[t])
    ensures Linked(a, DropPage(levels, level, nodes[p].children[i + 1]))
  {
    var r := nodes[p].children[i + 1];
    var h := level[p];
    MergeNear(nodes, a, levels, level, root, depth, p, i, jp, s, h);
    MergeKidsFar(nodes, a, levels, level, root, depth, p, i);
    LinkedAfter(nodes, a, levels, h - 1, RemoveAt(levels[h - 1], s + i + 1), DropPage(levels, level, r));
  }

  /** The two levels a merge touches, the pair's level h - 1 and the parent's level h. */
  lemma MergeNear<V>(nodes: Arena<V>, a: Arena<V>, levels: seq<seq<nat>>, level: map<nat, nat>,
                     root: nat, depth: int, p: nat, i: nat, jp: nat, s: nat, h: nat)
    requires Layered(nodes, levels, level, root, depth) && Linked(nodes, levels)
    requires PairReady(nodes, p, i) && Merged(nodes, a, p, i)
    requires p in nodes && h == level[p] && h > 0 && AllIn(nodes, levels[level[p]])
    requires PairSpot(nodes, levels, level, p, i, jp, s)
    requires level[nodes[p].children[i]] == level[p] - 1 && level[nodes[p].children[i + 1]] == level[p] - 1
    ensures h < |levels| && s + i + 1 < |levels[h - 1]|
    ensures DropPage(levels, level, nodes[p].children[i + 1]) == levels[h - 1 := RemoveAt(levels[h - 1], s + i + 1)]
    ensures h - 1 > 0 ==>
      && AllIn(a, RemoveAt(levels[h - 1], s + i + 1))
      && Kids(a, RemoveAt(levels[h - 1], s + i + 1)) == Kids(nodes, levels[h - 1])
    ensures AllIn(a, levels[h]) && Kids(a, levels[h]) == RemoveAt(levels[h - 1], s + i + 1)
  {
    var l, r := nodes[p].children[i], nodes[p].children[i + 1];
    SpotFacts(nodes, levels, level, p, i, jp, s, h);
    KidsOfLevel(nodes, levels, h);
    LevelApart(nodes, levels, level, root, depth, h - 1, p);
    LevelApart(nodes, levels, level, root, depth, h, l);
    LevelApart(nodes, levels, level, root, depth, h, r);
    DistinctLevel(nodes, levels, level, root, depth, h - 1);
    DistinctLevel(nodes, levels, level, root, depth, h);
    var U, W := levels[h - 1], levels[h];
    KidsMergeNear(nodes, a, U, W, jp, s, p, i);
    DropPageAt(levels, level, r, h, s, i);
  }

  /** Dropping page x, found at position s + i + 1 of level h - 1. */
  lemma DropPageAt(levels: seq<seq<nat>>, level: map<nat, nat>, x: nat, h: nat, s: nat, i: nat)
    requires x in level && 0 < h < |levels| && level[x] == h - 1 && Distinct(levels[h - 1])
    requires s + i + 1 < |levels[h - 1]| && levels[h - 1][s + i + 1] == x
    ensures DropPage(levels, level, x) == levels[h - 1 := RemoveAt(levels[h - 1], s + i + 1)]
  {
    IndexOfChildDistinct(levels[h - 1], s + i + 1);
  }

  /** What PairSpot says, on the parent's level h and the pair's level h - 1. */
  lemma SpotFacts<V>(nodes: Arena<V>, levels: seq<seq<nat>>, level: map<nat, nat>, p: nat, i: nat, jp: nat, s: nat, h: nat)
    requires p in nodes && p in level && h == level[p] && h > 0 && h < |levels|
    requires AllIn(nodes, levels[level[p]])
    requires PairSpot(nodes, levels, level, p, i, jp, s)
    ensures jp < |levels[h]| && levels[h][jp] == p && s == |Kids(nodes, levels[h][..jp])|
    ensures i + 1 < |nodes[p].children| && s + i + 1 < |levels[h - 1]|
    ensures levels[h - 1][s + i] == nodes[p].children[i] && levels[h - 1][s + i + 1] == nodes[p].children[i + 1]
  {
  }

  /** Level h - 1 lists the children of level h. */
  lemma KidsOfLevel<V>(nodes: Arena<V>, levels: seq<seq<nat>>, h: nat)
    requires forall t | 0 <= t < |levels| :: AllIn(nodes, levels[t])
    requires Linked(nodes, levels) && 0 < h < |levels|
    ensures AllIn(nodes, levels[h]) && levels[h - 1] == Kids(nodes, levels[h])
  {
    assert LevelLinked(nodes, levels, h - 1);
  }

  /** A page whose level is not h is not on level h. */
  lemma LevelApart<V>(nodes: Arena<V>, levels: seq<seq<nat>>, level: map<nat, nat>, root: nat, depth: int, h: nat, x: nat)
    requires Layered(nodes, levels, level, root, depth) && h < |levels| && x in level && level[x] != h
    ensures x !in levels[h]
  {
  }

  lemma DistinctLevel<V>(nodes: Arena<V>, levels: seq<seq<nat>>, level: map<nat, nat>, root: nat, depth: int, h: nat)
    requires Layered(nodes, levels, level, root, depth) && h < |levels|
    ensures Distinct(levels[h]) && AllIn(nodes, levels[h])
  {
  }

  /** The children of the pair's level U and of the parent's level W after a merge. */
  lemma KidsMergeNear<V>(nodes: Arena<V>, a: Arena<V>, U: seq<nat>, W: seq<nat>, jp: nat, s: nat, p: nat, i: nat)
    requires PairReady(nodes, p, i) && Merged(nodes, a, p, i)
    requires AllIn(nodes, U) && AllIn(nodes, W) && Distinct(U) && Distinct(W) && U == Kids(nodes, W)
    requires jp < |W| && W[jp] == p && s == |Kids(nodes, W[..jp])|
    requires s + i + 1 < |U| && U[s + i] == nodes[p].children[i] && U[s + i + 1] == nodes[p].children[i + 1]
    requires p !in U && nodes[p].children[i] !in W && nodes[p].children[i + 1] !in W
    ensures AllIn(a, RemoveAt(U, s + i + 1)) && Kids(a, RemoveAt(U, s + i + 1)) == Kids(nodes, U)
    ensures AllIn(a, W) && Kids(a, W) == RemoveAt(U, s + i + 1)
  {
    KidsMergeBelow(nodes, a, U, s + i, p, i);
    KidsMergeAbove(nodes, a, W, jp, p, i);
  }

  /** The children of the other levels are unchanged by a merge. */
  lemma MergeKidsFar<V>(nodes: Arena<V>, a: Arena<V>, levels: seq<seq<nat>>, level: map<nat, nat>,
                        root: nat, depth: int, p: nat, i: nat)
    requires Layered(nodes, levels, level, root, depth)
    requires PairReady(nodes, p, i) && Merged(nodes, a, p, i)
    requires p in nodes && level[p] > 0
    requires level[nodes[p].children[i]] == level[p] - 1 && level[nodes[p].children[i + 1]] == level[p] - 1
    ensures forall u | 1 <= u < |levels| && u != level[p] - 1 && u != level[p] ::
      AllIn(a, levels[u]) && Kids(a, levels[u]) == Kids(nodes, levels[u])
  {
    var l, r := nodes[p].children[i], nodes[p].children[i + 1];
    forall u | 1 <= u < |levels| && u != level[p] - 1 && u != level[p]
      ensures AllIn(a, levels[u]) && Kids(a, levels[u]) == Kids(nodes, levels[u])
    {
      var Y := levels[u];
      forall k | 0 <= k < |Y| ensures Y[k] != p && Y[k] != l && Y[k] != r {
        assert level[Y[k]] == u;
      }
      assert AllIn(nodes, Y);
      KidsMergeAway(nodes, a, Y, p, i);
    }
  }

  /** Linked after level lx is replaced by X, from what each level's pages have as children. */
  lemma LinkedAfter<V>(nodes: Arena<V>, a: Arena<V>, levels: seq<seq<nat>>, lx: nat, X: seq<nat>, ls: seq<seq<nat>>)
    requires lx + 1 < |levels| && ls == levels[lx := X]
    requires forall t | 0 <= t < |levels| :: AllIn(nodes, levels[t])
    requires forall t | 0 <= t < |ls| :: AllIn(a, ls[t])
    requires Linked(nodes, levels)
    requires lx > 0 ==> AllIn(a, X) && Kids(a, X) == Kids(nodes, levels[lx])
    requires AllIn(a, levels[lx + 1]) && Kids(a, levels[lx + 1]) == X
    requires forall u | 1 <= u < |levels| && u != lx && u != lx + 1 ::
      AllIn(a, levels[u]) && Kids(a, levels[u]) == Kids(nodes, levels[u])
    ensures Linked(a, ls)
  {
    forall t | 0 <= t < |ls| - 1 ensures LevelLinked(a, ls, t) {
      assert LevelLinked(nodes, levels, t);
    }
  }

  /**
   * A merge of siblings keeps the invariant once the right page is dropped
   * from its level, and leaves the contents of the tree as they were.
   */
  lemma MergeWf<V>(nodes: Arena<V>, levels: seq<seq<nat>>, level: map<nat, nat>, root: nat, depth: int,
                   p: nat, i: nat, a: Arena<V>)
    requires Wf(nodes, levels, level, root, depth)
    requires p in nodes && nodes[p].kind != Leaf && i + 1 < |nodes[p].children|
    requires PairReady(nodes, p, i) && Merged(nodes, a, p, i)
    ensures var r := nodes[p].children[i + 1];
      && r in level && level[r] < |levels| && r in levels[level[r]]
      && Wf(a, DropPage(levels, level, r), level - {r}, root, depth)
      && LeavesOk(nodes, levels[0]) && LeavesOk(a, DropPage(levels, level, r)[0])
      && LeafEntries(a, DropPage(levels, level, r)[0]) == LeafEntries(nodes, levels[0])
  {
    var jp, s := WfPairReady(nodes, levels, level, root, depth, p, i);
    var r := nodes[p].children[i + 1];
    WfRoot(nodes, levels, level, root, depth);
    MergeLayered(nodes, a, levels, level, root, depth, r);
    MergeLinked(nodes, a, levels, level, root, depth, p, i, jp, s);
    MergePages(nodes, a, level, root, p, i);
    MergeParents(nodes, a, p, i);
    LeavesOkFromWf(nodes, levels, level, root, depth);
    MergeLevelZero(nodes, levels, level, root, depth, p, i, a, jp, s);
  }

  /** The leaf chain and the pairs of the tree after a merge. */
  lemma MergeLevelZero<V>(nodes: Arena<V>, levels: seq<seq<nat>>, level: map<nat, nat>, root: nat, depth: int,
                          p: nat, i: nat, a: Arena<V>, jp: nat, s: nat)
    requires Wf(nodes, levels, level, root, depth) && LeavesOk(nodes, levels[0])
    requires PairReady(nodes, p, i) && Merged(nodes, a, p, i)
    requires p in nodes && level[p] > 0 && AllIn(nodes, levels[level[p]])
    requires PairSpot(nodes, levels, level, p, i, jp, s)
    requires level[nodes[p].children[i]] == level[p] - 1 && level[nodes[p].children[i + 1]] == level[p] - 1
    requires nodes[nodes[p].children[i]].kind == Leaf <==> level[p] == 1
    ensures var ls := DropPage(levels, level, nodes[p].children[i + 1]);
      && ChainOk(a, ls[0]) && LeavesOk(a, ls[0]) && LeafEntries(a, ls[0]) == LeafEntries(nodes, levels[0])
  {
    var L0 := levels[0];
    var l, r := nodes[p].children[i], nodes[p].children[i + 1];
    var ls := DropPage(levels, level, r);
    assert Distinct(L0);
    forall k | 0 <= k < |L0| ensures L0[k] != p {
      assert level[L0[k]] == 0;
    }
    if level[p] == 1 {
      assert L0 == levels[level[p] - 1];
      IndexOfChildDistinct(L0, s + i + 1);
      assert ls[0] == RemoveAt(L0, s + i + 1);
      MergeChainLeaf(nodes, a, L0, p, i, s + i);
      MergeLeafEntries(nodes, a, L0, p, i, s + i);
    } else {
      forall k | 0 <= k < |L0| ensures L0[k] != p && L0[k] != l && L0[k] != r {
        assert level[L0[k]] == 0;
      }
      assert ls[0] == L0;
      MergeChainAway(nodes, a, L0, p, i);
      MergeEntriesAway(nodes, a, L0, p, i);
    }
  }
}
