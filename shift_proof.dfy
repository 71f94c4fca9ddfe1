/**
 * Borrowing keeps the structural invariant and the contents: the two
 * siblings keep their places on their level, their children taken together
 * stay the same sequence, and so do their pairs for leaves.
 */
module ShiftProof {
  import opened Wrappers
  import opened Nodes
  import opened Shape
  import opened Rebalance
  import opened PairFacts

  /** What a borrow between children i and i + 1 of p changes, page by page. */
  ghost predicate Shifted<V>(nodes: Arena<V>, a: Arena<V>, p: nat, i: nat)
    requires PairReady(nodes, p, i)
  {
    var l := nodes[p].children[i];
    var r := nodes[p].children[i + 1];
    && a.Keys == nodes.Keys
    && SameLinks(nodes[l], a[l]) && SameLinks(nodes[r], a[r])
    && PairShape(a[l]) && PairShape(a[r])
    && a[l].children + a[r].children == nodes[l].children + nodes[r].children
    && (forall k | 0 <= k < |a[l].children| :: a[l].children[k] in a && a[a[l].children[k]].parent == Some(l))
    && (forall k | 0 <= k < |a[r].children| :: a[r].children[k] in a && a[a[r].children[k]].parent == Some(r))
    && (nodes[l].kind == Leaf ==>
          Entries(a[l].keys, a[l].vals) + Entries(a[r].keys, a[r].vals) ==
          Entries(nodes[l].keys, nodes[l].vals) + Entries(nodes[r].keys, nodes[r].vals))
    && (forall id | id in a && id != l && id != r :: Kept(nodes[id], a[id], id == p, l, r))
  }

  // ---------------------------------------------------------------------
  // The four borrows are shifts

  lemma EntriesCons<V>(keys: seq<int>, vals: seq<V>)
    requires |vals| == |keys| >= 1
    ensures Entries(keys, vals) == Entries([keys[0]], [vals[0]]) + Entries(keys[1..], vals[1..])
  {
    assert keys == [keys[0]] + keys[1..] && vals == [vals[0]] + vals[1..];
    EntriesAppend([keys[0]], [vals[0]], keys[1..], vals[1..]);
  }

  lemma EntriesSnoc<V>(keys: seq<int>, vals: seq<V>)
    requires |vals| == |keys| >= 1
    ensures var k := |keys| - 1;
      Entries(keys, vals) == Entries(keys[..k], vals[..k]) + Entries([keys[k]], [vals[k]])
  {
    var k := |keys| - 1;
    assert keys == keys[..k] + [keys[k]] && vals == vals[..k] + [vals[k]];
    EntriesAppend(keys[..k], vals[..k], [keys[k]], [vals[k]]);
  }

  lemma ShiftLeftLeafFacts<V>(nodes: Arena<V>, p: nat, i: nat)
    requires PairReady(nodes, p, i) && nodes[nodes[p].children[i]].kind == Leaf
    requires |nodes[nodes[p].children[i + 1]].keys| >= 2
    ensures Shifted(nodes, ShiftLeftLeaf(nodes, p, i), p, i)
  {
    var l, r := nodes[p].children[i], nodes[p].children[i + 1];
    var L, R := nodes[l], nodes[r];
    var L', R' := L.(keys := L.keys + [R.keys[0]], vals := L.vals + [R.vals[0]]), R.(keys := R.keys[1..], vals := R.vals[1..]);
    MoveFirstEntry(L.keys, L.vals, R.keys, R.vals);
    var ks := nodes[p].keys[i := R.keys[1]];
    assert ShiftLeftLeaf(nodes, p, i) == nodes[l := L'][r := R'][p := nodes[p].(keys := ks)];
    LeafShifted(nodes, p, i, L', R', ks);
  }

  lemma ShiftRightLeafFacts<V>(nodes: Arena<V>, p: nat, i: nat)
    requires PairReady(nodes, p, i) && nodes[nodes[p].children[i]].kind == Leaf
    requires |nodes[nodes[p].children[i]].keys| >= 1
    ensures Shifted(nodes, ShiftRightLeaf(nodes, p, i), p, i)
  {
    var l, r := nodes[p].children[i], nodes[p].children[i + 1];
    var L, R := nodes[l], nodes[r];
    var k := |L.keys| - 1;
    var L', R' := L.(keys := L.keys[..k], vals := L.vals[..k]), R.(keys := [L.keys[k]] + R.keys, vals := [L.vals[k]] + R.vals);
    MoveLastEntry(L.keys, L.vals, R.keys, R.vals);
    var ks := nodes[p].keys[i := L.keys[k]];
    assert ShiftRightLeaf(nodes, p, i) == nodes[l := L'][r := R'][p := nodes[p].(keys := ks)];
    LeafShifted(nodes, p, i, L', R', ks);
  }

  /** Moving the first pair of the right leaf to the end of the left one keeps the pairs in order. */
  lemma MoveFirstEntry<V>(lk: seq<int>, lv: seq<V>, rk: seq<int>, rv: seq<V>)
    requires |lv| == |lk| && |rv| == |rk| >= 1
    ensures Entries(lk + [rk[0]], lv + [rv[0]]) + Entries(rk[1..], rv[1..]) == Entries(lk, lv) + Entries(rk, rv)
  {
    EntriesAppend(lk, lv, [rk[0]], [rv[0]]);
    EntriesCons(rk, rv);
  }

  /** Moving the last pair of the left leaf to the front of the right one keeps the pairs in order. */
  lemma MoveLastEntry<V>(lk: seq<int>, lv: seq<V>, rk: seq<int>, rv: seq<V>)
    requires |lv| == |lk| >= 1 && |rv| == |rk|
    ensures var k := |lk| - 1;
      Entries(lk[..k], lv[..k]) + Entries([lk[k]] + rk, [lv[k]] + rv) == Entries(lk, lv) + Entries(rk, rv)
  {
    var k := |lk| - 1;
    EntriesAppend([lk[k]], [lv[k]], rk, rv);
    EntriesSnoc(lk, lv);
  }

  /** A rewrite of two sibling leaves that keeps their pairs, taken together, is a shift. */
  lemma LeafShifted<V>(nodes: Arena<V>, p: nat, i: nat, L': Node<V>, R': Node<V>, ks: seq<int>)
    requires PairReady(nodes, p, i) && nodes[nodes[p].children[i]].kind == Leaf
    requires var L, R := nodes[nodes[p].children[i]], nodes[nodes[p].children[i + 1]];
      && SameLinks(L, L') && SameLinks(R, R') && L'.children == [] && R'.children == []
      && |L'.vals| == |L'.keys| && |R'.vals| == |R'.keys| && |ks| == |nodes[p].keys|
      && Entries(L'.keys, L'.vals) + Entries(R'.keys, R'.vals) == Entries(L.keys, L.vals) + Entries(R.keys, R.vals)
    ensures var l, r := nodes[p].children[i], nodes[p].children[i + 1];
      Shifted(nodes, nodes[l := L'][r := R'][p := nodes[p].(keys := ks)], p, i)
  {
    var l, r := nodes[p].children[i], nodes[p].children[i + 1];
    var a := nodes[l := L'][r := R'][p := nodes[p].(keys := ks)];
    assert a[l] == L' && a[r] == R';
    forall id | id in a && id != l && id != r ensures Kept(nodes[id], a[id], id == p, l, r) {
      if id != p { assert a[id] == nodes[id]; }
    }
  }

  lemma ShiftLeftRouterFacts<V>(nodes: Arena<V>, p: nat, i: nat)
    requires PairReady(nodes, p, i) && nodes[nodes[p].children[i]].kind != Leaf
    requires |nodes[nodes[p].children[i + 1]].keys| >= 1
    ensures Shifted(nodes, ShiftLeftRouter(nodes, p, i), p, i)
  {
    var l, r := nodes[p].children[i], nodes[p].children[i + 1];
    var L, R := nodes[l], nodes[r];
    var c := R.children[0];
    var a := ShiftLeftRouter(nodes, p, i);
    assert R.children == [c] + R.children[1..];
    assert Outside(nodes, c, p, l, r) && nodes[c].parent == Some(r);
    forall k | 0 <= k < |a[l].children| ensures a[l].children[k] in a && a[a[l].children[k]].parent == Some(l) {
      if k < |L.children| {
        assert Outside(nodes, L.children[k], p, l, r) && nodes[L.children[k]].parent == Some(l);
      }
    }
    forall k | 0 <= k < |a[r].children| ensures a[r].children[k] in a && a[a[r].children[k]].parent == Some(r) {
      assert a[r].children[k] == R.children[k + 1];
      assert Outside(nodes, R.children[k + 1], p, l, r) && nodes[R.children[k + 1]].parent == Some(r);
    }
  }

  lemma ShiftRightRouterFacts<V>(nodes: Arena<V>, p: nat, i: nat)
    requires PairReady(nodes, p, i) && nodes[nodes[p].children[i]].kind != Leaf
    requires |nodes[nodes[p].children[i]].keys| >= 1
    ensures Shifted(nodes, ShiftRightRouter(nodes, p, i), p, i)
  {
    var l, r := nodes[p].children[i], nodes[p].children[i + 1];
    var L, R := nodes[l], nodes[r];
    var k := |L.keys| - 1;
    var c := L.children[k + 1];
    var a := ShiftRightRouter(nodes, p, i);
    assert L.children == L.children[..k + 1] + [c];
    assert Outside(nodes, c, p, l, r) && nodes[c].parent == Some(l);
    forall t | 0 <= t < |a[r].children| ensures a[r].children[t] in a && a[a[r].children[t]].parent == Some(r) {
      if t > 0 {
        assert a[r].children[t] == R.children[t - 1];
        assert Outside(nodes, R.children[t - 1], p, l, r) && nodes[R.children[t - 1]].parent == Some(r);
      }
    }
    forall t | 0 <= t < |a[l].children| ensures a[l].children[t] in a && a[a[l].children[t]].parent == Some(l) {
      assert a[l].children[t] == L.children[t];
      assert Outside(nodes, L.children[t], p, l, r) && nodes[L.children[t]].parent == Some(l);
    }
  }

  // ---------------------------------------------------------------------
  // A shift keeps the invariant

  lemma SameKeysLayered<V>(nodes: Arena<V>, a: Arena<V>, levels: seq<seq<nat>>, level: map<nat, nat>,
                           root: nat, depth: int)
    requires Layered(nodes, levels, level, root, depth) && a.Keys == nodes.Keys
    ensures Layered(a, levels, level, root, depth)
  {
  }

  /** Kids of a level where the pair sits at positions j and j + 1. */
  lemma KidsPairSwap<V>(nodes: Arena<V>, a: Arena<V>, U: seq<nat>, j: nat, p: nat, i: nat)
    requires PairReady(nodes, p, i) && Shifted(nodes, a, p, i)
    requires AllIn(nodes, U) && Distinct(U) && j + 1 < |U|
    requires U[j] == nodes[p].children[i] && U[j + 1] == nodes[p].children[i + 1]
    ensures AllIn(a, U) && Kids(a, U) == Kids(nodes, U)
  {
    var l, r := U[j], U[j + 1];
    KidsPair(nodes, U, j);
    KidsPair(a, U, j);
    var A, B := U[..j], U[j + 2..];
    forall k | 0 <= k < |A| ensures a[A[k]].children == nodes[A[k]].children {
      assert A[k] == U[k] && U[k] != l && U[k] != r;
      assert Kept(nodes[A[k]], a[A[k]], A[k] == p, l, r);
    }
    forall k | 0 <= k < |B| ensures a[B[k]].children == nodes[B[k]].children {
      assert B[k] == U[j + 2 + k] && U[j + 2 + k] != l && U[j + 2 + k] != r;
      assert Kept(nodes[B[k]], a[B[k]], B[k] == p, l, r);
    }
    KidsFrame(nodes, a, A);
    KidsFrame(nodes, a, B);
  }

  /** Kids of a level without the pair. */
  lemma KidsAway<V>(nodes: Arena<V>, a: Arena<V>, U: seq<nat>, p: nat, i: nat)
    requires PairReady(nodes, p, i) && Shifted(nodes, a, p, i)
    requires AllIn(nodes, U)
    requires forall k | 0 <= k < |U| :: U[k] != nodes[p].children[i] && U[k] != nodes[p].children[i + 1]
    ensures AllIn(a, U) && Kids(a, U) == Kids(nodes, U)
  {
    var l, r := nodes[p].children[i], nodes[p].children[i + 1];
    forall k | 0 <= k < |U| ensures a[U[k]].children == nodes[U[k]].children {
      assert Kept(nodes[U[k]], a[U[k]], U[k] == p, l, r);
    }
    KidsFrame(nodes, a, U);
  }

  lemma ShiftLinked<V>(nodes: Arena<V>, a: Arena<V>, levels: seq<seq<nat>>, level: map<nat, nat>,
                       root: nat, depth: int, p: nat, i: nat, jp: nat, s: nat)
    requires Layered(nodes, levels, level, root, depth) && Linked(nodes, levels) && Layered(a, levels, level, root, depth)
    requires PairReady(nodes, p, i) && Shifted(nodes, a, p, i)
    requires p in nodes && level[p] > 0 && AllIn(nodes, levels[level[p]])
    requires PairSpot(nodes, levels, level, p, i, jp, s)
    requires level[nodes[p].children[i]] == level[p] - 1
    ensures Linked(a, levels)
  {
    var l, r := nodes[p].children[i], nodes[p].children[i + 1];
    var lx := level[p] - 1;
    forall t | 0 <= t < |levels| - 1 ensures LevelLinked(a, levels, t) {
      assert LevelLinked(nodes, levels, t);
      var U := levels[t + 1];
      if t + 1 == lx {
        assert U == levels[level[p] - 1];
        assert Distinct(U);
        KidsPairSwap(nodes, a, U, s + i, p, i);
      } else {
        forall k | 0 <= k < |U| ensures U[k] != l && U[k] != r {
          assert level[U[k]] == t + 1;
        }
        KidsAway(nodes, a, U, p, i);
      }
    }
  }

  lemma ShiftPages<V>(nodes: Arena<V>, a: Arena<V>, level: map<nat, nat>, root: nat, p: nat, i: nat)
    requires PagesOk(nodes, level, root) && level.Keys == nodes.Keys
    requires PairReady(nodes, p, i) && Shifted(nodes, a, p, i)
    ensures PagesOk(a, level, root)
  {
    var l, r := nodes[p].children[i], nodes[p].children[i + 1];
    forall id | id in a && id in level ensures PageOk(a[id], level[id], id == root) {
      assert PageOk(nodes[id], level[id], id == root);
      if id != l && id != r {
        assert Kept(nodes[id], a[id], id == p, l, r);
      }
    }
  }

  lemma ShiftParents<V>(nodes: Arena<V>, a: Arena<V>, p: nat, i: nat)
    requires ParentsOk(nodes)
    requires PairReady(nodes, p, i) && Shifted(nodes, a, p, i)
    ensures ParentsOk(a)
  {
    var l, r := nodes[p].children[i], nodes[p].children[i + 1];
    forall q, k | q in a && 0 <= k < |a[q].children| ensures a[q].children[k] in a && a[a[q].children[k]].parent == Some(q) {
      if q != l && q != r {
        assert Kept(nodes[q], a[q], q == p, l, r);
        var c := nodes[q].children[k];
        assert nodes[c].parent == Some(q);
        if c != l && c != r {
          assert Kept(nodes[c], a[c], c == p, l, r);
        }
      }
    }
  }

  lemma ShiftChain<V>(nodes: Arena<V>, a: Arena<V>, L: seq<nat>, p: nat, i: nat)
    requires ChainOk(nodes, L)
    requires PairReady(nodes, p, i) && Shifted(nodes, a, p, i)
    ensures ChainOk(a, L)
  {
    var l, r := nodes[p].children[i], nodes[p].children[i + 1];
    forall k | 0 <= k < |L| ensures ChainLink(a, L, k) {
      ChainLinkAt(nodes, L, k);
      if L[k] != l && L[k] != r {
        assert Kept(nodes[L[k]], a[L[k]], L[k] == p, l, r);
      }
    }
  }

  /** Leaves away from the pair and its parent keep their pairs. */
  lemma EntriesAway<V>(nodes: Arena<V>, a: Arena<V>, A: seq<nat>, p: nat, i: nat)
    requires PairReady(nodes, p, i) && Shifted(nodes, a, p, i)
    requires LeavesOk(nodes, A)
    requires forall k | 0 <= k < |A| :: A[k] != p && A[k] != nodes[p].children[i] && A[k] != nodes[p].children[i + 1]
    ensures LeavesOk(a, A) && LeafEntries(a, A) == LeafEntries(nodes, A)
  {
    var l, r := nodes[p].children[i], nodes[p].children[i + 1];
    forall k | 0 <= k < |A| ensures A[k] in a && a[A[k]].keys == nodes[A[k]].keys && a[A[k]].vals == nodes[A[k]].vals {
      assert Kept(nodes[A[k]], a[A[k]], A[k] == p, l, r);
    }
    LeafEntriesFrame(nodes, a, A);
  }

  lemma ShiftLeafEntries<V>(nodes: Arena<V>, a: Arena<V>, L0: seq<nat>, p: nat, i: nat, j: nat)
    requires PairReady(nodes, p, i) && Shifted(nodes, a, p, i) && nodes[nodes[p].children[i]].kind == Leaf
    requires LeavesOk(nodes, L0) && Distinct(L0) && j + 1 < |L0| && p !in L0
    requires L0[j] == nodes[p].children[i] && L0[j + 1] == nodes[p].children[i + 1]
    ensures LeavesOk(a, L0) && LeafEntries(a, L0) == LeafEntries(nodes, L0)
  {
    var l, r := L0[j], L0[j + 1];
    LeafEntriesPair(nodes, L0, j);
    var A, B := L0[..j], L0[j + 2..];
    forall k | 0 <= k < |A| ensures A[k] != p && A[k] != l && A[k] != r {
      assert A[k] == L0[k];
    }
    forall k | 0 <= k < |B| ensures B[k] != p && B[k] != l && B[k] != r {
      assert B[k] == L0[j + 2 + k];
    }
    EntriesAway(nodes, a, A, p, i);
    EntriesAway(nodes, a, B, p, i);
    assert LeavesOk(a, L0) by {
      forall k | 0 <= k < |L0| ensures L0[k] in a && |a[L0[k]].vals| == |a[L0[k]].keys| {
        if L0[k] != l && L0[k] != r {
          assert Kept(nodes[L0[k]], a[L0[k]], L0[k] == p, l, r);
        }
      }
    }
    LeafEntriesPair(a, L0, j);
  }

  /**
   * A borrow between siblings keeps the invariant, with the same levels,
   * and leaves the contents of the tree as they were.
   */
  lemma ShiftWf<V>(nodes: Arena<V>, levels: seq<seq<nat>>, level: map<nat, nat>, root: nat, depth: int,
                   p: nat, i: nat, a: Arena<V>)
    requires Wf(nodes, levels, level, root, depth)
    requires p in nodes && nodes[p].kind != Leaf && i + 1 < |nodes[p].children|
    requires PairReady(nodes, p, i) && Shifted(nodes, a, p, i)
    ensures Wf(a, levels, level, root, depth)
    ensures LeavesOk(nodes, levels[0]) && LeavesOk(a, levels[0])
    ensures LeafEntries(a, levels[0]) == LeafEntries(nodes, levels[0])
  {
    var jp, s := WfPairReady(nodes, levels, level, root, depth, p, i);
    SameKeysLayered(nodes, a, levels, level, root, depth);
    ShiftLinked(nodes, a, levels, level, root, depth, p, i, jp, s);
    ShiftPages(nodes, a, level, root, p, i);
    ShiftParents(nodes, a, p, i);
    ShiftChain(nodes, a, levels[0], p, i);
    LeavesOkFromWf(nodes, levels, level, root, depth);
    ShiftEntries(nodes, levels, level, root, depth, p, i, a, jp, s);
  }

  lemma ShiftEntries<V>(nodes: Arena<V>, levels: seq<seq<nat>>, level: map<nat, nat>, root: nat, depth: int,
                        p: nat, i: nat, a: Arena<V>, jp: nat, s: nat)
    requires Wf(nodes, levels, level, root, depth) && LeavesOk(nodes, levels[0])
    requires PairReady(nodes, p, i) && Shifted(nodes, a, p, i)
    requires p in nodes && level[p] > 0 && AllIn(nodes, levels[level[p]])
    requires PairSpot(nodes, levels, level, p, i, jp, s)
    requires level[nodes[p].children[i]] == level[p] - 1
    requires nodes[nodes[p].children[i]].kind == Leaf <==> level[p] == 1
    ensures LeavesOk(a, levels[0]) && LeafEntries(a, levels[0]) == LeafEntries(nodes, levels[0])
  {
    var L0 := levels[0];
    var l, r := nodes[p].children[i], nodes[p].children[i + 1];
    assert Distinct(L0);
    forall k | 0 <= k < |L0| ensures L0[k] != p {
      assert level[L0[k]] == 0;
    }
    if level[p] == 1 {
      assert L0 == levels[level[p] - 1];
      assert s + i + 1 < |L0| && L0[s + i] == l && L0[s + i + 1] == r;
      ShiftLeafEntries(nodes, a, L0, p, i, s + i);
    } else {
      forall k | 0 <= k < |L0| ensures L0[k] != p && L0[k] != l && L0[k] != r {
        assert level[L0[k]] == 0;
      }
      EntriesAway(nodes, a, L0, p, i);
    }
  }
}
