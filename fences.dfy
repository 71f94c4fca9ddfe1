/**
 * The search order of the tree. Every page owns a range of keys, its fence:
 * the root owns all keys, and child t of a router owns the part of the
 * router's range between separators t - 1 and t. A page's keys are sorted
 * and lie in its own range, so the descent of findLeaf, which picks child
 * keyInsertIndex(key) at every router, stays inside the ranges that hold
 * the key and ends at the only leaf that may hold it.
 */
module Fences {
  import opened Wrappers
  import opened Nodes
  import opened Shape
  import opened Descent

  /** The keys k with lo <= k < hi; a missing bound is no bound. */
  datatype Fence = Fence(lo: Option<int>, hi: Option<int>)

  const Everything: Fence := Fence(None, None)

  predicate Within(k: int, f: Fence)
  {
    (f.lo.None? || f.lo.value <= k) && (f.hi.None? || k < f.hi.value)
  }

  /** The range holds at least one key. */
  predicate Open(f: Fence)
  {
    f.lo.None? || f.hi.None? || f.lo.value < f.hi.value
  }

  /** k lies strictly inside f: above its lower bound and below its upper one. */
  predicate Strictly(k: int, f: Fence)
  {
    (f.lo.None? || f.lo.value < k) && (f.hi.None? || k < f.hi.value)
  }

  /** The range of child t of a router whose keys are `keys` and whose range is f. */
  function Slot(keys: seq<int>, f: Fence, t: nat): (r: Fence)
    requires t <= |keys|
    ensures t > 0 ==> r.lo == Some(keys[t - 1])
    ensures t < |keys| ==> r.hi == Some(keys[t])
  {
    Fence(if t == 0 then f.lo else Some(keys[t - 1]), if t == |keys| then f.hi else Some(keys[t]))
  }

  /** Page n, owning range F, is sorted, inside F, and hands each child exactly its slot. */
  ghost predicate Fits<V>(n: Node<V>, F: Fence, fence: map<nat, Fence>)
  {
    && Open(F) && Sorted(n.keys)
    && (forall j | 0 <= j < |n.keys| :: Within(n.keys[j], F))
    && (n.kind != Leaf ==>
          forall t | 0 <= t < |n.children| && t <= |n.keys| ::
            n.children[t] in fence && fence[n.children[t]] == Slot(n.keys, F, t))
  }

  ghost predicate PageFenced<V>(nodes: Arena<V>, fence: map<nat, Fence>, id: nat)
    requires id in nodes
  {
    id in fence && Fits(nodes[id], fence[id], fence)
  }

  ghost predicate AllFenced<V>(nodes: Arena<V>, fence: map<nat, Fence>)
  {
    && nodes.Keys <= fence.Keys
    && forall id | id in nodes :: PageFenced(nodes, fence, id)
  }

  /** The search-order invariant: the root owns every key and every page is fenced. */
  ghost predicate Fenced<V>(nodes: Arena<V>, fence: map<nat, Fence>, root: nat)
  {
    root in fence && fence[root] == Everything && AllFenced(nodes, fence)
  }

  // ---------------------------------------------------------------------
  // Slots

  /** A key in a child's slot is in the router's range. */
  lemma SlotWithin(keys: seq<int>, f: Fence, t: nat, k: int)
    requires t <= |keys| && forall j | 0 <= j < |keys| :: Within(keys[j], f)
    requires Within(k, Slot(keys, f, t))
    ensures Within(k, f)
  {
    if t > 0 {
      assert Within(keys[t - 1], f);
    }
    if t < |keys| {
      assert Within(keys[t], f);
    }
  }

  /** On sorted keys, the slot that holds k is the one keyInsertIndex picks. */
  lemma SlotIndex(keys: seq<int>, f: Fence, t: nat, k: int)
    requires Sorted(keys) && t <= |keys| && Within(k, Slot(keys, f, t))
    ensures KeyInsertIndex(keys, k) == t
  {
    KeyInsertIndexUnique(keys, k, t);
  }

  /** Conversely, the slot keyInsertIndex picks holds every key of the range that reaches it. */
  lemma IndexSlot(keys: seq<int>, f: Fence, k: int)
    requires Within(k, f)
    ensures Within(k, Slot(keys, f, KeyInsertIndex(keys, k)))
  {
  }

  /** A router's first key lies above its lower bound: its first child's range is open. */
  lemma FirstSeparatorAbove<V>(nodes: Arena<V>, fence: map<nat, Fence>, x: nat)
    requires AllFenced(nodes, fence) && x in nodes && nodes[x].kind != Leaf
    requires |nodes[x].keys| >= 1 && |nodes[x].children| == |nodes[x].keys| + 1 && nodes[x].children[0] in nodes
    ensures fence[x].lo.Some? ==> fence[x].lo.value < nodes[x].keys[0]
  {
    assert PageFenced(nodes, fence, x);
    assert PageFenced(nodes, fence, nodes[x].children[0]);
  }

  // ---------------------------------------------------------------------
  // The descent follows the fences

  /** A key in a page's range stays in range all the way down to the leaf the descent reaches. */
  lemma {:induction false} DescendWithin<V>(nodes: Arena<V>, levels: seq<seq<nat>>, level: map<nat, nat>,
                                            root: nat, depth: int, fence: map<nat, Fence>, id: nat, k: int)
    requires Wf(nodes, levels, level, root, depth) && AllFenced(nodes, fence)
    requires id in nodes && Within(k, fence[id])
    ensures Within(k, fence[Descend(nodes, levels, level, root, depth, id, k)])
    decreases level[id]
  {
    var n := nodes[id];
    var t := KeyInsertIndex(n.keys, k);
    StepOk(nodes, levels, level, root, depth, id, t);
    if n.kind != Leaf {
      assert PageOk(n, level[id], id == root);
      assert PageFenced(nodes, fence, id);
      IndexSlot(n.keys, fence[id], k);
      DescendWithin(nodes, levels, level, root, depth, fence, n.children[t], k);
    }
  }

  /**
   * The descent from the root passes through every page whose range holds
   * the key: from there on it is the same descent.
   */
  lemma {:induction false} RoutesFrom<V>(nodes: Arena<V>, levels: seq<seq<nat>>, level: map<nat, nat>,
                                         root: nat, depth: int, fence: map<nat, Fence>, z: nat, k: int)
    requires Wf(nodes, levels, level, root, depth) && AllFenced(nodes, fence)
    requires z in nodes && Within(k, fence[z])
    ensures root in nodes
    ensures Descend(nodes, levels, level, root, depth, root, k) == Descend(nodes, levels, level, root, depth, z, k)
    decreases depth - level[z]
  {
    WfRoot(nodes, levels, level, root, depth);
    if z != root {
      var p := WfParent(nodes, levels, level, root, depth, z);
      var P := nodes[p];
      StepOk(nodes, levels, level, root, depth, p, 0);
      assert PageOk(P, level[p], p == root);
      assert PageFenced(nodes, fence, p);
      var t := IndexOfChild(P.children, z);
      assert fence[z] == Slot(P.keys, fence[p], t);
      SlotWithin(P.keys, fence[p], t, k);
      SlotIndex(P.keys, fence[p], t, k);
      RoutesFrom(nodes, levels, level, root, depth, fence, p, k);
    }
  }

  /** The only leaf that can hold a key is the one the descent from the root reaches. */
  lemma LeafRoutes<V>(nodes: Arena<V>, levels: seq<seq<nat>>, level: map<nat, nat>,
                      root: nat, depth: int, fence: map<nat, Fence>, y: nat, k: int)
    requires Wf(nodes, levels, level, root, depth) && AllFenced(nodes, fence)
    requires y in nodes && nodes[y].kind == Leaf && k in nodes[y].keys
    ensures root in nodes && Descend(nodes, levels, level, root, depth, root, k) == y
  {
    assert PageFenced(nodes, fence, y);
    var j :| 0 <= j < |nodes[y].keys| && nodes[y].keys[j] == k;
    RoutesFrom(nodes, levels, level, root, depth, fence, y, k);
  }

  // ---------------------------------------------------------------------
  // Rewriting some pages

  /**
   * A rewrite keeps every page fenced when the pages it touches (`changed`)
   * are fenced afterwards and the pages whose range moved (`moved`) hang
   * under touched pages: an untouched page keeps its keys, its children and
   * its range, and so do its children.
   */
  lemma FencedFrame<V>(nodes: Arena<V>, fence: map<nat, Fence>, a: Arena<V>, fence': map<nat, Fence>,
                       changed: set<nat>, moved: set<nat>)
    requires AllFenced(nodes, fence) && ParentsOk(nodes)
    requires forall m | m in moved && m in nodes :: nodes[m].parent.None? || nodes[m].parent.value in changed
    requires forall id | id in nodes && id !in moved :: id in fence' && fence'[id] == fence[id]
    requires forall id | id in a && id !in changed ::
      id in nodes && id !in moved && a[id].kind == nodes[id].kind
      && a[id].keys == nodes[id].keys && a[id].children == nodes[id].children
    requires forall id | id in a && id in changed :: PageFenced(a, fence', id)
    ensures AllFenced(a, fence')
  {
    forall id | id in a ensures PageFenced(a, fence', id) {
      if id !in changed {
        assert PageFenced(nodes, fence, id);
        var n := nodes[id];
        forall t | 0 <= t < |n.children| && t <= |n.keys| && n.kind != Leaf
          ensures n.children[t] in fence' && fence'[n.children[t]] == fence[n.children[t]]
        {
          assert nodes[n.children[t]].parent == Some(id);
        }
      }
    }
  }

  /** FencedFrame for a rewrite that touches pages x, n and top and moves the ranges of x and n (n may be gone). */
  lemma FrameThree<V>(nodes: Arena<V>, fence: map<nat, Fence>, a: Arena<V>, f: map<nat, Fence>, x: nat, n: nat, top: nat)
    requires AllFenced(nodes, fence) && ParentsOk(nodes)
    requires x in nodes ==> nodes[x].parent.None? || nodes[x].parent.value == top
    requires n in nodes ==> nodes[n].parent.None? || nodes[n].parent.value == top
    requires forall id | id in nodes && id != x && id != n :: id in f && f[id] == fence[id]
    requires forall id | id in a && id != x && id != n && id != top ::
      id in nodes && a[id].kind == nodes[id].kind && a[id].keys == nodes[id].keys && a[id].children == nodes[id].children
    requires x in a && PageFenced(a, f, x) && (n in a ==> PageFenced(a, f, n)) && top in a && PageFenced(a, f, top)
    ensures AllFenced(a, f)
  {
    FencedFrame(nodes, fence, a, f, {x, n, top}, {x, n});
  }

  /**
   * Rewriting the keys of a leaf keeps the search order when they stay
   * sorted and every key is an old one or one from the leaf's range.
   */
  lemma LeafFenced<V>(nodes: Arena<V>, fence: map<nat, Fence>, root: nat, x: nat, X': Node<V>)
    requires Fenced(nodes, fence, root) && ParentsOk(nodes) && x in nodes && nodes[x].kind == Leaf
    requires X'.kind == Leaf && Sorted(X'.keys)
    requires forall k | k in X'.keys :: k in nodes[x].keys || Within(k, fence[x])
    ensures Fenced(nodes[x := X'], fence, root)
  {
    assert PageFenced(nodes, fence, x);
    var a := nodes[x := X'];
    forall j | 0 <= j < |X'.keys| ensures Within(X'.keys[j], fence[x]) {
      if X'.keys[j] in nodes[x].keys {
        var u :| 0 <= u < |nodes[x].keys| && nodes[x].keys[u] == X'.keys[j];
      }
    }
    assert PageFenced(a, fence, x);
    FencedFrame(nodes, fence, a, fence, {x}, {});
  }
}
