/**
 * The key order of the leaf chain. The ranges of the pages of one level,
 * read left to right, follow each other: each ends where the next begins
 * or earlier. So the leaves' entries, read along the chain, have strictly
 * increasing keys.
 */
module KeyOrder {
  import opened Wrappers
  import opened Nodes
  import opened Shape
  import opened Fences

  /** Range f ends no later than range g begins. */
  predicate Before(f: Fence, g: Fence)
  {
    f.hi.Some? && g.lo.Some? && f.hi.value <= g.lo.value
  }

  /** The range of the page at position t of `ids` comes before that of the page after it. */
  ghost predicate StepInOrder(fence: map<nat, Fence>, ids: seq<nat>, t: nat)
    requires t + 1 < |ids|
  {
    ids[t] in fence && ids[t + 1] in fence && Before(fence[ids[t]], fence[ids[t + 1]])
  }

  /** The ranges of the pages `ids` come one after another, left to right. */
  ghost predicate RangesInOrder(fence: map<nat, Fence>, ids: seq<nat>)
  {
    && (forall t | 0 <= t < |ids| :: ids[t] in fence)
    && forall t | 0 <= t < |ids| - 1 :: StepInOrder(fence, ids, t)
  }

  /** The keys of a sequence of entries strictly increase. */
  ghost predicate Ascending<V>(s: seq<(int, V)>)
  {
    forall i, j | 0 <= i < j < |s| :: s[i].0 < s[j].0
  }

  /** Two stretches in range order make one, when the last range of the first comes before the first of the second. */
  lemma RangesConcat(fence: map<nat, Fence>, A: seq<nat>, B: seq<nat>)
    requires RangesInOrder(fence, A) && RangesInOrder(fence, B)
    requires A != [] && B != [] ==> StepInOrder(fence, A + B, |A| - 1)
    ensures RangesInOrder(fence, A + B)
  {
    var C := A + B;
    forall t | 0 <= t < |C| - 1 ensures StepInOrder(fence, C, t) {
      if t + 1 < |A| {
        assert StepInOrder(fence, A, t);
      } else if t >= |A| {
        assert StepInOrder(fence, B, t - |A|);
      }
    }
  }

  /** A router's children, read left to right, own ranges in order, from its lower bound to its upper one. */
  lemma ChildRanges<V>(nodes: Arena<V>, fence: map<nat, Fence>, w: nat)
    requires AllFenced(nodes, fence) && w in nodes && nodes[w].kind != Leaf
    requires |nodes[w].children| == |nodes[w].keys| + 1
    ensures RangesInOrder(fence, nodes[w].children)
    ensures fence[nodes[w].children[0]].lo == fence[w].lo
    ensures fence[nodes[w].children[|nodes[w].children| - 1]].hi == fence[w].hi
  {
    assert PageFenced(nodes, fence, w);
    var ch := nodes[w].children;
    forall t | 0 <= t < |ch| - 1 ensures StepInOrder(fence, ch, t) {
      assert fence[ch[t]] == Slot(nodes[w].keys, fence[w], t);
      assert fence[ch[t + 1]] == Slot(nodes[w].keys, fence[w], t + 1);
    }
    assert fence[ch[|ch| - 1]] == Slot(nodes[w].keys, fence[w], |ch| - 1);
  }

  /**
   * The children of routers whose ranges are in order own ranges in order,
   * and they span from the first router's lower bound to the last one's
   * upper bound.
   */
  lemma {:induction false} KidsRanges<V>(nodes: Arena<V>, fence: map<nat, Fence>, W: seq<nat>)
    requires AllFenced(nodes, fence) && AllIn(nodes, W) && RangesInOrder(fence, W)
    requires forall k | 0 <= k < |W| :: nodes[W[k]].kind != Leaf && |nodes[W[k]].children| == |nodes[W[k]].keys| + 1
    ensures RangesInOrder(fence, Kids(nodes, W))
    ensures W != [] ==> Kids(nodes, W) != [] && fence[Kids(nodes, W)[|Kids(nodes, W)| - 1]].hi == fence[W[|W| - 1]].hi
    decreases |W|
  {
    if W != [] {
      var W', w := W[..|W| - 1], W[|W| - 1];
      assert RangesInOrder(fence, W') by {
        forall t | 0 <= t < |W'| - 1 ensures StepInOrder(fence, W', t) {
          assert StepInOrder(fence, W, t);
        }
      }
      KidsRanges(nodes, fence, W');
      ChildRanges(nodes, fence, w);
      var K, ch := Kids(nodes, W'), nodes[w].children;
      assert Kids(nodes, W) == K + ch;
      if K != [] {
        assert W' != [];
        assert StepInOrder(fence, W, |W'| - 1);
        assert (K + ch)[|K| - 1] == K[|K| - 1] && (K + ch)[|K|] == ch[0];
      }
      RangesConcat(fence, K, ch);
      assert (K + ch)[|K + ch| - 1] == ch[|ch| - 1];
    }
  }

  /** Every level of a fenced tree, read left to right, owns ranges in order. */
  lemma {:induction false} LevelRanges<V>(nodes: Arena<V>, levels: seq<seq<nat>>, level: map<nat, nat>, root: nat,
                                          depth: int, fence: map<nat, Fence>, l: nat)
    requires Wf(nodes, levels, level, root, depth) && AllFenced(nodes, fence) && l < depth
    ensures RangesInOrder(fence, levels[l])
    decreases depth - l
  {
    if l == depth - 1 {
      WfRoot(nodes, levels, level, root, depth);
      assert levels[l] == [root];
    } else {
      var U := levels[l + 1];
      LevelRanges(nodes, levels, level, root, depth, fence, l + 1);
      forall k | 0 <= k < |U| ensures nodes[U[k]].kind != Leaf && |nodes[U[k]].children| == |nodes[U[k]].keys| + 1 {
        assert PageOk(nodes[U[k]], level[U[k]], U[k] == root);
      }
      assert LevelLinked(nodes, levels, l);
      KidsRanges(nodes, fence, U);
    }
  }

  /** The entries of one fenced leaf: ascending, and below the leaf's upper bound. */
  lemma LeafAscending<V>(nodes: Arena<V>, fence: map<nat, Fence>, x: nat)
    requires AllFenced(nodes, fence) && x in nodes && |nodes[x].vals| == |nodes[x].keys|
    ensures Ascending(Entries(nodes[x].keys, nodes[x].vals))
    ensures forall e | e in Entries(nodes[x].keys, nodes[x].vals) :: Within(e.0, fence[x])
  {
    assert PageFenced(nodes, fence, x);
  }

  /** Two ascending stretches, every key of the first below every key of the second. */
  lemma AscendingConcat<V>(A: seq<(int, V)>, B: seq<(int, V)>, h: int)
    requires Ascending(A) && Ascending(B)
    requires forall e | e in A :: e.0 < h
    requires forall e | e in B :: h <= e.0
    ensures Ascending(A + B)
  {
    var C := A + B;
    forall i, j | 0 <= i < j < |C| ensures C[i].0 < C[j].0 {
      if j < |A| {
        assert C[i] == A[i] && C[j] == A[j];
      } else if i >= |A| {
        assert C[i] == B[i - |A|] && C[j] == B[j - |A|];
      } else {
        assert C[i] == A[i] && C[j] == B[j - |A|];
      }
    }
  }

  /**
   * The entries of leaves whose ranges are in order, read left to right,
   * are ascending and lie below the last leaf's upper bound.
   */
  lemma {:induction false} ChainAscending<V>(nodes: Arena<V>, fence: map<nat, Fence>, L: seq<nat>)
    requires AllFenced(nodes, fence) && LeavesOk(nodes, L) && RangesInOrder(fence, L)
    ensures Ascending(LeafEntries(nodes, L))
    ensures L != [] ==> forall e | e in LeafEntries(nodes, L) :: fence[L[|L| - 1]].hi.None? || e.0 < fence[L[|L| - 1]].hi.value
    decreases |L|
  {
    if L != [] {
      var init, x := L[..|L| - 1], L[|L| - 1];
      assert LeavesOk(nodes, init) by {
        forall t | 0 <= t < |init| ensures init[t] == L[t] { }
      }
      assert RangesInOrder(fence, init) by {
        forall t | 0 <= t < |init| - 1 ensures StepInOrder(fence, init, t) {
          assert StepInOrder(fence, L, t);
        }
      }
      ChainAscending(nodes, fence, init);
      LeafAscending(nodes, fence, x);
      var A, E := LeafEntries(nodes, init), Entries(nodes[x].keys, nodes[x].vals);
      assert LeafEntries(nodes, L) == A + E;
      assert PageFenced(nodes, fence, x);
      if init == [] {
        assert A == [];
        assert A + E == E;
      } else {
        assert StepInOrder(fence, L, |init| - 1);
        var h := fence[init[|init| - 1]].hi.value;
        AscendingConcat(A, E, h);
      }
    }
  }

  /** The tree's entries, read along the leaf chain, have strictly increasing keys. */
  lemma LeavesAscending<V>(nodes: Arena<V>, levels: seq<seq<nat>>, level: map<nat, nat>, root: nat, depth: int,
                           fence: map<nat, Fence>)
    requires Wf(nodes, levels, level, root, depth) && AllFenced(nodes, fence)
    ensures LeavesOk(nodes, levels[0])
    ensures Ascending(LeafEntries(nodes, levels[0]))
  {
    LeavesOkFromWf(nodes, levels, level, root, depth);
    LevelRanges(nodes, levels, level, root, depth, fence, 0);
    ChainAscending(nodes, fence, levels[0]);
  }
}
