/**
 * The tree object of BTree.cpp: the fixed degree, the current depth and the
 * root, with the pages kept in an arena. The page layout (levels, level) is
 * ghost bookkeeping that the structural invariant is stated over.
 */
module BPlusTree {
  import opened Wrappers
  import opened Nodes
  import opened Shape
  import opened Split
  import opened SplitProof
  import opened Descent
  import opened LeafUpdate
  import opened Rebalance
  import opened MergeProof
  import opened CollapseProof
  import opened Removal
  import opened RemoveProof
  import opened Fences
  import opened SplitFences
  import opened PairFences
  import opened RouterFences
  import opened SearchOrder
  import opened PairFacts
  import opened KeyOrder
  import opened RepairChoice
  import opened Occupancy

  /** One empty leaf standing alone is a well-formed tree of depth 1 with no entries. */
  lemma SingleLeafWf<V>(nodes: Arena<V>, id: nat)
    requires nodes == map[id := EmptyLeaf()]
    ensures Wf(nodes, [[id]], map[id := 0], id, 1)
    ensures LeavesOk(nodes, [id]) && LeafEntries(nodes, [id]) == []
  {
    assert PageOk(nodes[id], 0, true);
    LeafEntriesOne(nodes, id);
  }

  /** Every page index in use is below `next`, so `next` and above are free. */
  ghost predicate IdsBelow<V>(nodes: Arena<V>, next: nat)
  {
    forall id | id in nodes :: id < next
  }

  /** The pages a split creates are the two next free indices. */
  lemma IdsBelowSplit<V>(nodes: Arena<V>, a: Arena<V>, n: nat, r: nat)
    requires IdsBelow(nodes, n) && r == n + 1 && a.Keys <= nodes.Keys + {n, r}
    ensures IdsBelow(a, n + 2)
  {
  }

  /**
   * Node::set on a leaf of a well-formed tree keeps it well formed; the
   * tree's entries change by one overwrite or by one insertion.
   */
  lemma UpsertWf<V>(nodes: Arena<V>, levels: seq<seq<nat>>, level: map<nat, nat>, root: nat, depth: int,
                    leaf: nat, key: int, val: V) returns (q: nat)
    requires Wf(nodes, levels, level, root, depth) && leaf in nodes && nodes[leaf].kind == Leaf
    requires |nodes[leaf].vals| == |nodes[leaf].keys|
    ensures var a := nodes[leaf := SetInLeaf(nodes[leaf], key, val)];
      && Wf(a, levels, level, root, depth)
      && LeavesOk(nodes, levels[0]) && LeavesOk(a, levels[0])
      && Upserted(LeafEntries(nodes, levels[0]), LeafEntries(a, levels[0]), key, val, q, key in nodes[leaf].keys)
  {
    var X := nodes[leaf];
    LeafRewriteWf(nodes, levels, level, root, depth, leaf, SetInLeaf(X, key, val));
    var j := IndexOfChild(levels[0], leaf);
    q := UpsertConcat(LeafEntries(nodes, levels[0][..j]), LeafEntries(nodes, levels[0][j + 1..]), X, key, val);
  }

  /** Node::set inside a stretch of entries: the stretch's key is overwritten in place, or inserted in order. */
  lemma UpsertConcat<V>(A: seq<(int, V)>, B: seq<(int, V)>, X: Node<V>, key: int, val: V) returns (q: nat)
    requires |X.vals| == |X.keys|
    ensures var L := SetInLeaf(X, key, val);
      Upserted(A + Entries(X.keys, X.vals) + B, A + Entries(L.keys, L.vals) + B, key, val, q, key in X.keys)
  {
    var E := Entries(X.keys, X.vals);
    var C0 := A + E + B;
    var L := SetInLeaf(X, key, val);
    var index := FindKey(X.keys, key);
    if index != -1 {
      UpdateConcat(A, E, B, index, (key, val));
      assert C0[|A| + index] == E[index];
      assert A + Entries(L.keys, L.vals) + B == C0[|A| + index := (key, val)];
      q := |A| + index;
    } else {
      var ki := KeyInsertIndex(X.keys, key);
      InsertAtConcat(A, E, B, ki, (key, val));
      assert A + Entries(L.keys, L.vals) + B == InsertAt(C0, |A| + ki, (key, val));
      InsertAtMembers(C0, |A| + ki, (key, val));
      q := |A| + ki;
    }
  }

  /** The leaf entries after Node::set: one overwrite of the key's entry, or one insertion. */
  ghost predicate Upserted<V>(C0: seq<(int, V)>, C: seq<(int, V)>, key: int, val: V, q: nat, present: bool)
  {
    && (key, val) in C
    && (present ==> q < |C0| && C0[q].0 == key && C == C0[q := (key, val)])
    && (!present ==> q <= |C0| && C == InsertAt(C0, q, (key, val)))
  }

  /** Node::set on the leaf findLeaf reaches keeps the invariant and the search order. */
  lemma PutStep<V>(nodes: Arena<V>, levels: seq<seq<nat>>, level: map<nat, nat>, root: nat, depth: int,
                   fence: map<nat, Fence>, leaf: nat, key: int, val: V) returns (q: nat)
    requires Wf(nodes, levels, level, root, depth) && Fenced(nodes, fence, root)
    requires leaf in nodes && nodes[leaf].kind == Leaf
    requires root in nodes ==> leaf == Descend(nodes, levels, level, root, depth, root, key)
    ensures |nodes[leaf].vals| == |nodes[leaf].keys|
    ensures var a := nodes[leaf := SetInLeaf(nodes[leaf], key, val)];
      && Wf(a, levels, level, root, depth) && Fenced(a, fence, root)
      && LeavesOk(nodes, levels[0]) && LeavesOk(a, levels[0])
      && Upserted(LeafEntries(nodes, levels[0]), LeafEntries(a, levels[0]), key, val, q, key in nodes[leaf].keys)
  {
    StepOk(nodes, levels, level, root, depth, leaf, 0);
    q := UpsertWf(nodes, levels, level, root, depth, leaf, key, val);
    PutFenced(nodes, levels, level, root, depth, fence, leaf, key, val);
  }

  /**
   * The leaf entries after removeFromLeaf: the key's entry is gone when the
   * leaf held the key, and then no entry with that key is left; otherwise
   * nothing changed.
   */
  ghost predicate Dropped<V>(C0: seq<(int, V)>, C: seq<(int, V)>, key: int, q: nat, present: bool)
  {
    && (present ==> q < |C0| && C0[q].0 == key && C == RemoveAt(C0, q) && forall e | e in C :: e.0 != key)
    && (!present ==> C == C0)
  }

  /** After an upsert every entry under another key is an entry before it, and conversely. */
  lemma UpsertedOthers<V>(C0: seq<(int, V)>, C: seq<(int, V)>, key: int, val: V, q: nat, present: bool)
    requires Upserted(C0, C, key, val, q, present)
    ensures forall e: (int, V) | e.0 != key :: e in C <==> e in C0
  {
    if present {
      forall e: (int, V) | e.0 != key ensures e in C <==> e in C0 {
        if e in C0 {
          var j :| 0 <= j < |C0| && C0[j] == e;
          assert C[j] == e;
        }
      }
    } else {
      InsertAtMembers(C0, q, (key, val));
    }
  }

  /**
   * C is C0 with entry e inserted at the one place that keeps the keys in
   * order: after every smaller key and before every larger one.
   */
  ghost predicate InsertedInOrder<V>(C0: seq<(int, V)>, C: seq<(int, V)>, e: (int, V))
  {
    exists q | 0 <= q <= |C0| ::
      && C == InsertAt(C0, q, e)
      && (forall i | 0 <= i < q :: C0[i].0 < e.0)
      && (forall i | q <= i < |C0| :: e.0 < C0[i].0)
  }

  /** An insertion whose result has ascending keys is an insertion in order. */
  lemma InsertionPlace<V>(C0: seq<(int, V)>, C: seq<(int, V)>, q: nat, e: (int, V))
    requires q <= |C0| && C == InsertAt(C0, q, e)
    requires forall i, j | 0 <= i < j < |C| :: C[i].0 < C[j].0
    ensures InsertedInOrder(C0, C, e)
  {
    forall i | 0 <= i < q ensures C0[i].0 < e.0 {
      assert C[i] == C0[i] && C[q] == e;
    }
    forall i | q <= i < |C0| ensures e.0 < C0[i].0 {
      assert C[i + 1] == C0[i] && C[q] == e;
    }
  }

  /** After a removal every entry under another key is an entry before it, and conversely. */
  lemma DroppedOthers<V>(C0: seq<(int, V)>, C: seq<(int, V)>, key: int, q: nat)
    requires q < |C0| && C0[q].0 == key && C == RemoveAt(C0, q)
    ensures forall e: (int, V) | e.0 != key :: e in C <==> e in C0
  {
    RemoveAtMembers(C0, q);
  }

  /** removeFromLeaf keeps the invariant and the search order. */
  lemma DropStep<V>(nodes: Arena<V>, levels: seq<seq<nat>>, level: map<nat, nat>, root: nat, depth: int,
                    fence: map<nat, Fence>, x: nat, key: int) returns (q: nat)
    requires Wf(nodes, levels, level, root, depth) && Fenced(nodes, fence, root)
    requires x in nodes && nodes[x].kind == Leaf
    ensures |nodes[x].vals| == |nodes[x].keys|
    ensures var a := nodes[x := RemoveFromLeaf(nodes[x], key)];
      && Wf(a, levels, level, root, depth) && Fenced(a, fence, root)
      && LeavesOk(nodes, levels[0]) && LeavesOk(a, levels[0])
      && Dropped(LeafEntries(nodes, levels[0]), LeafEntries(a, levels[0]), key, q, key in nodes[x].keys)
  {
    StepOk(nodes, levels, level, root, depth, x, 0);
    q := RemoveWf(nodes, levels, level, root, depth, x, key);
    DropFenced(nodes, fence, root, x, key);
    if key in nodes[x].keys {
      DropGone(nodes, levels, level, root, depth, fence, x, key);
    }
  }

  /** removeFromInternal keeps the invariant, and the search order with the ranges moved to the new separator. */
  lemma RouterStep<V>(nodes: Arena<V>, levels: seq<seq<nat>>, level: map<nat, nat>, root: nat, depth: int,
                      fence: map<nat, Fence>, x: nat, key: int)
    requires Wf(nodes, levels, level, root, depth) && Fenced(nodes, fence, root)
    requires x in nodes && nodes[x].kind != Leaf
    ensures var a := nodes[x := RemoveFromRouter(nodes, levels, level, root, depth, x, key)];
      && Wf(a, levels, level, root, depth) && Fenced(a, RouterFence(nodes, levels, level, root, depth, fence, x, key), root)
      && LeavesOk(nodes, levels[0]) && LeavesOk(a, levels[0])
      && LeafEntries(a, levels[0]) == LeafEntries(nodes, levels[0])
      && forall id | id in a :: a[id].Size() <= nodes[id].Size()
  {
    RouterRewriteWf(nodes, levels, level, root, depth, x, RemoveFromRouter(nodes, levels, level, root, depth, x, key));
    RouterRemoveFenced(nodes, levels, level, root, depth, fence, x, key);
  }

  /**
   * A split of a page holding exactly `deg` keys leaves every page below
   * `deg` keys, except the parent, which gained one.
   */
  lemma BoundedAfterSplit<V>(prior: Arena<V>, a: Arena<V>, deg: int, x: nat, sib: nat, newRoot: Option<nat>)
    requires deg >= 2 && x in prior && prior[x].Size() <= deg
    requires forall id | id in prior && id != x :: prior[id].Size() < deg
    requires SplitResized(prior, a, x, sib, newRoot)
    ensures forall id | id in a && Some(id) != a[x].parent :: a[id].Size() < deg
  {
    forall id | id in a && Some(id) != a[x].parent ensures a[id].Size() < deg {
      if id != x && id != sib && id in prior {
        assert prior[id].Size() < deg;
      }
    }
  }

  /**
   * What the split cascade keeps while it walks up from the leaf that grew:
   * if the pages were below `deg` keys, all but the current page still are
   * and it holds at most `deg`; if the tree was balanced, it still is.
   */
  ghost predicate CascadeKept<V>(nodes: Arena<V>, root: nat, depth: int, deg: int, curr: Option<nat>, bounded: bool,
                                 balanced: bool)
  {
    && (bounded ==>
          && curr.Some? && curr.value in nodes && nodes[curr.value].Size() <= deg
          && forall id | id in nodes && Some(id) != curr :: nodes[id].Size() < deg)
    && (balanced ==> Balanced(nodes, root, depth, deg))
  }

  /** One split of the cascade keeps what the cascade keeps, with the parent of x as the current page. */
  lemma CascadeStep<V>(prior: Arena<V>, a: Arena<V>, r0: nat, d0: int, root: nat, depth: int, deg: int,
                       x: nat, sib: nat, newRoot: Option<nat>, bounded: bool, balanced: bool)
    requires SplitResized(prior, a, x, sib, newRoot)
    requires deg >= 2 && prior[x].Size() >= deg
    requires CascadeKept(prior, r0, d0, deg, Some(x), bounded, balanced)
    requires newRoot.None? ==> root == r0 && depth == d0
    requires newRoot.Some? ==> root == newRoot.value && x == r0
    ensures CascadeKept(a, root, depth, deg, a[x].parent, bounded, balanced)
  {
    if bounded {
      BoundedAfterSplit(prior, a, deg, x, sib, newRoot);
    }
    if balanced {
      SplitBalanced(prior, a, r0, d0, root, depth, deg, x, sib, newRoot);
    }
  }

  /**
   * Node::set on one leaf of a tree whose pages hold fewer than `deg` keys:
   * an overwrite keeps the bound, an insertion leaves at most `deg` keys in
   * that leaf and the other pages as they were.
   */
  lemma PutBounded<V>(prior: Arena<V>, a: Arena<V>, deg: int, leaf: nat, key: int, val: V)
    requires Bounded(prior, deg) && leaf in prior && |prior[leaf].vals| == |prior[leaf].keys|
    requires a == prior[leaf := SetInLeaf(prior[leaf], key, val)]
    ensures key in prior[leaf].keys ==> Bounded(a, deg)
    ensures key !in prior[leaf].keys ==>
      && a[leaf].Size() <= deg && forall id | id in a && id != leaf :: a[id].Size() < deg
  {
    assert prior[leaf].Size() < deg;
  }

  /** A borrow keeps every page below `deg` keys when the borrowing page had room for one more. */
  lemma BoundedAfterBorrow<V>(prior: Arena<V>, a: Arena<V>, deg: int, x: nat)
    requires Bounded(prior, deg) && GrowsByOne(prior, a, x) && prior[x].Size() + 1 < deg
    ensures Bounded(a, deg)
  {
  }

  /** A merge keeps every page below `deg` keys when the surviving page stays below it. */
  lemma BoundedAfterMerge<V>(prior: Arena<V>, a: Arena<V>, deg: int, l: nat)
    requires Bounded(prior, deg) && a.Keys <= prior.Keys && l in a && a[l].Size() < deg
    requires forall id | id in a && id != l :: a[id].Size() <= prior[id].Size()
    ensures Bounded(a, deg)
  {
  }

  /** A router below the root hangs under a router that lists it among its children. */
  lemma RouterUnder<V>(nodes: Arena<V>, levels: seq<seq<nat>>, level: map<nat, nat>, root: nat, depth: int, c: nat)
    returns (p: nat)
    requires Wf(nodes, levels, level, root, depth) && c in nodes && nodes[c].kind == Internal
    ensures nodes[c].parent == Some(p) && p in nodes && nodes[p].kind != Leaf && c in nodes[p].children
  {
    RootKind(nodes, levels, level, root, depth, c);
    p := WfParent(nodes, levels, level, root, depth, c);
    StepOk(nodes, levels, level, root, depth, p, 0);
  }

  class BTree<V> {
    const deg: int
    var depth: int
    var root: nat
    var nodes: Arena<V>
    /** Page indices below this one are taken; the next allocation uses it. */
    var nextId: nat
    ghost var levels: seq<seq<nat>>
    ghost var level: map<nat, nat>
    /** The range of keys each page answers for: the search order findLeaf relies on. */
    ghost var fence: map<nat, Fence>

    ghost predicate Valid()
      reads this
    {
      && deg >= 2
      && Wf(nodes, levels, level, root, depth)
      && IdsBelow(nodes, nextId)
      && Fenced(nodes, fence, root)
    }

    /** The (key, value) pairs of the tree: the leaves' entries left to right. */
    ghost function Contents(): seq<(int, V)>
      reads this
      requires Valid()
    {
      LeavesOkFromWf(nodes, levels, level, root, depth);
      LeafEntries(nodes, levels[0])
    }

    /** The leaf that findLeaf reaches for `key`. */
    ghost function LeafFor(key: int): nat
      reads this
      requires Valid()
    {
      WfRoot(nodes, levels, level, root, depth);
      Descend(nodes, levels, level, root, depth, root, key)
    }

    /** A new tree is one empty leaf, which is the root; depth is 1. */
    constructor (degree: int)
      requires degree >= 2
      ensures Valid() && deg == degree
      ensures depth == 1 && root in nodes && nodes[root].kind == Leaf && nodes[root].Size() == 0
      ensures Contents() == [] && forall k :: Find(k) == None
      ensures Bounded(nodes, deg) && Balanced(nodes, root, depth, deg)
    {
      deg := degree;
      depth := 1;
      root := 0;
      nodes := map[0 := EmptyLeaf()];
      nextId := 1;
      levels := [[0]];
      level := map[0 := 0];
      fence := map[0 := Everything];
      new;
      SingleLeafWf(nodes, 0);
      assert PageFenced(nodes, fence, 0);
    }

    /** findLeaf: descend from the root through keyInsertIndex until a leaf is reached. */
    method FindLeaf(key: int) returns (leaf: nat, ghost steps: nat)
      requires Valid()
      ensures leaf in nodes && nodes[leaf].kind == Leaf && leaf in levels[0]
      ensures leaf == LeafFor(key)
      ensures steps == depth - 1
    {
      WfRoot(nodes, levels, level, root, depth);
      leaf := root;
      steps := 0;
      while nodes[leaf].kind != Leaf
        invariant leaf in nodes
        invariant Descend(nodes, levels, level, root, depth, leaf, key) == LeafFor(key)
        invariant steps + level[leaf] == depth - 1
        decreases level[leaf]
      {
        StepOk(nodes, levels, level, root, depth, leaf, KeyInsertIndex(nodes[leaf].keys, key));
        leaf := nodes[leaf].children[KeyInsertIndex(nodes[leaf].keys, key)];
        steps := steps + 1;
      }
      StepOk(nodes, levels, level, root, depth, leaf, 0);
    }

    /** find: the value stored under `key` in the leaf findLeaf reaches, if any. */
    function Find(key: int): (r: Option<V>)
      reads this
      requires Valid()
      ensures r.Some? <==> key in nodes[LeafFor(key)].keys
      ensures r.Some? ==> (key, r.value) in Contents()
    {
      WfRoot(nodes, levels, level, root, depth);
      var leaf := Descend(nodes, levels, level, root, depth, root, key);
      var i := FindKey(nodes[leaf].keys, key);
      if i == -1 then None
      else
        LeavesOkFromWf(nodes, levels, level, root, depth);
        LeafEntryIn(nodes, levels[0], leaf, i);
        Some(nodes[leaf].vals[i])
    }

    /** find returns v for k exactly when (k, v) is one of the tree's entries. */
    lemma FindMeansIn(k: int, v: V)
      requires Valid()
      ensures Find(k) == Some(v) <==> (k, v) in Contents()
    {
      if (k, v) in Contents() {
        EntryFound(nodes, levels, level, root, depth, fence, k, v);
      }
    }

    /** The tree's entries, read along the leaf chain, have strictly increasing keys. */
    lemma ContentsInOrder()
      requires Valid()
      ensures forall i, j | 0 <= i < j < |Contents()| :: Contents()[i].0 < Contents()[j].0
    {
      LeavesAscending(nodes, levels, level, root, depth, fence);
    }

    /**
     * When the entries under keys other than `key` are what they were, so is
     * what find returns for those keys.
     */
    twostate lemma FindKept(key: int)
      requires old(Valid()) && Valid()
      requires forall e: (int, V) | e.0 != key :: e in Contents() <==> e in old(Contents())
      ensures forall k | k != key :: Find(k) == old(Find(k))
    {
      forall k | k != key ensures Find(k) == old(Find(k)) {
        if Find(k).Some? {
          var w := Find(k).value;
          assert (k, w) in old(Contents());
          LeavesOkFromWf(old(nodes), old(levels), old(level), old(root), old(depth));
          EntryFound(old(nodes), old(levels), old(level), old(root), old(depth), old(fence), k, w);
        }
        if old(Find(k)).Some? {
          var w := old(Find(k)).value;
          assert (k, w) in Contents();
          FindMeansIn(k, w);
        }
      }
    }

    /** empty: the root holds no keys; for a single-leaf tree that means no entries at all. */
    function Empty(): (r: bool)
      reads this
      requires Valid()
      ensures root in nodes && (r <==> nodes[root].Size() == 0)
      ensures depth == 1 ==> (r <==> Contents() == [])
    {
      WfRoot(nodes, levels, level, root, depth);
      if depth == 1 then
        LeavesOkFromWf(nodes, levels, level, root, depth);
        LeafEntriesOne(nodes, root);
        nodes[root].Size() == 0
      else
        nodes[root].Size() == 0
    }

    /**
     * set: upsert `key` in the leaf findLeaf reaches. An existing key only has
     * its value overwritten. A new key is inserted in order, then every page
     * that reached `deg` keys is split, walking up through the parents; a
     * split of the root makes the fresh page r the root and adds a level.
     */
    method Set(key: int, val: V)
      requires Valid()
      modifies this
      ensures Valid()
      ensures (key, val) in Contents()
      ensures old(key in nodes[LeafFor(key)].keys) ==>
        && root == old(root) && depth == old(depth) && nodes.Keys == old(nodes.Keys)
        && exists q | 0 <= q < |old(Contents())| ::
             old(Contents())[q].0 == key && Contents() == old(Contents())[q := (key, val)]
      ensures old(key !in nodes[LeafFor(key)].keys) ==> InsertedInOrder(old(Contents()), Contents(), (key, val))
      ensures depth == old(depth) ==> root == old(root)
      ensures depth != old(depth) ==> depth == old(depth) + 1 && root in nodes && nodes[root].Size() == 1
      ensures old(nodes.Keys) <= nodes.Keys
      ensures old(Bounded(nodes, deg)) ==> Bounded(nodes, deg)
      ensures old(Balanced(nodes, root, depth, deg)) ==> Balanced(nodes, root, depth, deg)
      ensures Find(key) == Some(val)
      ensures forall k | k != key :: Find(k) == old(Find(k))
    {
      var leaf, steps := FindLeaf(key);
      ghost var prior := nodes;
      var added, q := PutInLeaf(leaf, key, val);
      if Bounded(prior, deg) {
        PutBounded(prior, nodes, deg, leaf, key, val);
      }
      GrownBalanced(prior, root, depth, deg, leaf, nodes[leaf]);
      if added {
        SplitUpward(leaf);
      }
      UpsertedOthers(old(Contents()), Contents(), key, val, q, !added);
      if added {
        ContentsInOrder();
        InsertionPlace(old(Contents()), Contents(), q, (key, val));
      }
      FindKept(key);
      FindMeansIn(key, val);
    }

    /**
     * The leaf part of set: Node::set on `leaf`, the leaf findLeaf reached.
     * `added` tells whether the key was new, in which case the leaf grew by one.
     */
    method PutInLeaf(leaf: nat, key: int, val: V) returns (added: bool, ghost q: nat)
      requires Valid() && leaf == LeafFor(key)
      modifies this
      ensures Valid()
      ensures root == old(root) && depth == old(depth) && nextId == old(nextId) && nodes.Keys == old(nodes.Keys)
      ensures added <==> old(key !in nodes[leaf].keys)
      ensures Upserted(old(Contents()), Contents(), key, val, q, !added)
      ensures leaf in old(nodes) && |old(nodes[leaf].vals)| == |old(nodes[leaf].keys)|
      ensures nodes == old(nodes)[leaf := SetInLeaf(old(nodes[leaf]), key, val)]
    {
      StepOk(nodes, levels, level, root, depth, leaf, 0);
      var index := FindKey(nodes[leaf].keys, key);
      q := PutStep(nodes, levels, level, root, depth, fence, leaf, key, val);
      added := index == -1;
      nodes := nodes[leaf := SetInLeaf(nodes[leaf], key, val)];
    }

    /**
     * The split cascade of set, starting at the leaf that just grew: while the
     * current page holds `deg` keys or more it is split and its parent becomes
     * the current page.
     */
    method SplitUpward(leaf: nat)
      requires Valid() && leaf in nodes
      modifies this
      ensures Valid() && Contents() == old(Contents())
      ensures old(nodes.Keys) <= nodes.Keys
      ensures depth == old(depth) ==> root == old(root)
      ensures depth != old(depth) ==> depth == old(depth) + 1 && root in nodes && nodes[root].Size() == 1
      ensures old(nodes[leaf].Size()) <= deg && old(forall id | id in nodes && id != leaf :: nodes[id].Size() < deg) ==>
        Bounded(nodes, deg)
      ensures old(Balanced(nodes, root, depth, deg)) ==> Balanced(nodes, root, depth, deg)
    {
      ghost var balanced := Balanced(nodes, root, depth, deg);
      ghost var bounded := nodes[leaf].Size() <= deg && forall id | id in nodes && id != leaf :: nodes[id].Size() < deg;
      var curr: Option<nat> := Some(leaf);
      while curr.Some? && nodes[curr.value].Size() >= deg
        invariant Valid() && Contents() == old(Contents())
        invariant curr.Some? ==> curr.value in nodes
        invariant old(nodes.Keys) <= nodes.Keys
        invariant depth == old(depth) ==> root == old(root)
        invariant depth != old(depth) ==>
          depth == old(depth) + 1 && curr == Some(root) && root in nodes && nodes[root].Size() == 1
        invariant CascadeKept(nodes, root, depth, deg, curr, bounded, balanced)
        decreases if curr.None? then 0 else (depth - level[curr.value]) * 2 + (if nodes[curr.value].Size() >= deg then 1 else 0)
      {
        var x := curr.value;
        ghost var prior, sib, r0, d0 := nodes, nextId, root, depth;
        WfRoot(nodes, levels, level, root, depth);
        var newRoot := SplitPage(x);
        curr := nodes[x].parent;
        CascadeStep(prior, nodes, r0, d0, root, depth, deg, x, sib, newRoot, bounded, balanced);
      }
    }

    /**
     * splitNode on page x, with the root and depth bookkeeping of set: a split
     * of the root returns the fresh root page, which the tree adopts.
     */
    method SplitPage(x: nat) returns (newRoot: Option<nat>)
      requires Valid() && x in nodes && nodes[x].Size() >= deg
      modifies this
      ensures Valid() && Contents() == old(Contents())
      ensures newRoot.Some? <==> old(x == root)
      ensures newRoot.None? ==> root == old(root) && depth == old(depth)
      ensures newRoot.Some? ==> root == newRoot.value && depth == old(depth) + 1
      ensures SplitResized(old(nodes), nodes, x, old(nextId), newRoot)
      ensures nodes[x].parent.value in nodes && level[nodes[x].parent.value] == old(level[x]) + 1
    {
      var n := nextId;
      var r := nextId + 1;
      SplitStep(nodes, levels, level, root, depth, x, n, r);
      SplitNodeSizes(nodes, x, n, r);
      SplitPageFenced(nodes, levels, level, root, depth, fence, x, n, r);
      var res := SplitNode(nodes, x, n, r);
      newRoot := res.1;
      var up := newRoot.Some?;
      IdsBelowSplit(nodes, res.0, n, r);
      Commit(res.0, LevelsAfterSplit(levels, level, root, x, n, r), SplitLevel(level, level[x], n, r, depth, up),
             SplitFence(fence, nodes[x].keys, x, n, r, up), nextId + 2, if up then depth + 1 else depth, if up then r else root);
    }

    /**
     * remove: when the leaf findLeaf reaches holds the key, the key's entry
     * leaves the tree and underflows are repaired upward; otherwise nothing
     * changes.
     */
    method Remove(key: int)
      requires Valid()
      modifies this
      ensures Valid()
      ensures old(key in nodes[LeafFor(key)].keys) ==>
        exists q | 0 <= q < |old(Contents())| ::
          old(Contents())[q].0 == key && Contents() == RemoveAt(old(Contents()), q)
      ensures old(key !in nodes[LeafFor(key)].keys) ==> unchanged(this)
      ensures old(Bounded(nodes, deg)) && deg % 2 == 1 ==> Bounded(nodes, deg)
      ensures old(Balanced(nodes, root, depth, deg)) ==> Balanced(nodes, root, depth, deg)
      ensures Find(key) == None
      ensures forall k | k != key :: Find(k) == old(Find(k))
    {
      var leaf, steps := FindLeaf(key);
      var index := FindKey(nodes[leaf].keys, key);
      if index != -1 {
        ghost var q := RemoveFrom(key, leaf);
        DroppedOthers(old(Contents()), Contents(), key, q);
        FindKept(key);
        if Find(key).Some? {
          FindMeansIn(key, Find(key).value);
        }
      }
    }

    /**
     * The recursive remove(key, curr): take the key out of curr, repair curr
     * if it fell below deg / 2 keys, then go on with the parent of the page
     * that survived. A collapse of the root ends the walk.
     */
    method RemoveFrom(key: int, curr: nat) returns (ghost q: nat)
      requires Valid() && curr in nodes
      modifies this
      ensures Valid()
      ensures Dropped(old(Contents()), Contents(), key, q, old(nodes[curr].kind == Leaf && key in nodes[curr].keys))
      ensures old(Bounded(nodes, deg)) && deg % 2 == 1 ==> Bounded(nodes, deg)
      ensures old(Carried(nodes, root, depth, deg, curr)) ==> Balanced(nodes, root, depth, deg)
      decreases depth - level[curr]
    {
      ghost var b := Carried(nodes, root, depth, deg, curr);
      q := RemoveKey(key, curr);
      ghost var n1, lv1, l1, r1, d1 := nodes, levels, level, root, depth;
      var up := Repair(curr);
      if b {
        RepairCarried(n1, lv1, l1, r1, d1, deg, curr, nodes, root, depth, up);
      }
      if up.Some? {
        ghost var _ := RemoveFrom(key, up.value);
      }
    }

    /** removeFromLeaf at a leaf, removeFromInternal at a router. */
    method RemoveKey(key: int, curr: nat) returns (ghost q: nat)
      requires Valid() && curr in nodes
      modifies this
      ensures Valid()
      ensures levels == old(levels) && level == old(level) && depth == old(depth) && root == old(root)
      ensures nodes.Keys == old(nodes.Keys)
      ensures forall id | id in nodes :: nodes[id].Size() <= old(nodes)[id].Size()
      ensures Dropped(old(Contents()), Contents(), key, q, old(nodes[curr].kind == Leaf && key in nodes[curr].keys))
      ensures old(Carried(nodes, root, depth, deg, curr)) ==> BalancedBut(nodes, root, depth, deg, curr)
    {
      if nodes[curr].kind == Leaf {
        q := RemoveFromLeafPage(key, curr);
      } else {
        if Balanced(nodes, root, depth, deg) {
          BalancedLoose(nodes, root, depth, deg, curr);
        }
        RemoveFromRouterPage(key, curr);
        q := 0;
      }
    }

    /** removeFromLeaf: the leaf drops the key and its value, if it holds them. */
    method RemoveFromLeafPage(key: int, curr: nat) returns (ghost q: nat)
      requires Valid() && curr in nodes && nodes[curr].kind == Leaf
      modifies this
      ensures Valid()
      ensures levels == old(levels) && level == old(level) && depth == old(depth) && root == old(root)
      ensures nodes.Keys == old(nodes.Keys)
      ensures forall id | id in nodes :: nodes[id].Size() <= old(nodes)[id].Size()
      ensures Dropped(old(Contents()), Contents(), key, q, old(key in nodes[curr].keys))
      ensures old(Balanced(nodes, root, depth, deg)) ==> BalancedBut(nodes, root, depth, deg, curr)
    {
      q := DropStep(nodes, levels, level, root, depth, fence, curr, key);
      ShrunkBalanced(nodes, root, depth, deg, curr, RemoveFromLeaf(nodes[curr], key));
      nodes := nodes[curr := RemoveFromLeaf(nodes[curr], key)];
    }

    /**
     * removeFromInternal: a separator equal to the key is replaced by the
     * first key of the leftmost leaf to its right; the entries stay.
     */
    method RemoveFromRouterPage(key: int, curr: nat)
      requires Valid() && curr in nodes && nodes[curr].kind != Leaf
      modifies this
      ensures Valid() && Contents() == old(Contents())
      ensures levels == old(levels) && level == old(level) && depth == old(depth) && root == old(root)
      ensures nodes.Keys == old(nodes.Keys)
      ensures forall id | id in nodes :: nodes[id].Size() <= old(nodes)[id].Size()
      ensures old(BalancedBut(nodes, root, depth, deg, curr)) ==> BalancedBut(nodes, root, depth, deg, curr)
    {
      RouterStep(nodes, levels, level, root, depth, fence, curr, key);
      GrownBalanced(nodes, root, depth, deg, curr, RemoveFromRouter(nodes, levels, level, root, depth, curr, key));
      fence := RouterFence(nodes, levels, level, root, depth, fence, curr, key);
      nodes := nodes[curr := RemoveFromRouter(nodes, levels, level, root, depth, curr, key)];
    }

    /**
     * The underflow repair of curr. The result is the page to go on with:
     * the parent of the page that survived, one level above curr, or None at
     * the root and after a collapse.
     */
    method Repair(curr: nat) returns (up: Option<nat>)
      requires Valid() && curr in nodes
      modifies this
      ensures Valid() && Contents() == old(Contents())
      ensures up.Some? ==>
        && up.value in nodes && up.value in level && nodes[up.value].kind != Leaf
        && depth == old(depth) && level[up.value] == old(level[curr]) + 1
      ensures old(Bounded(nodes, deg)) && deg % 2 == 1 ==> Bounded(nodes, deg)
      ensures Repaired(old(nodes), nodes, RepairFix(old(nodes), curr, deg / 2), old(root), old(depth))
      ensures RepairFix(old(nodes), curr, deg / 2).RootCollapse? ==>
        up == None && curr == old(root) && depth == old(depth) - 1 && root == old(nodes[curr].children[0])
      ensures !RepairFix(old(nodes), curr, deg / 2).RootCollapse? ==>
        && root == old(root) && depth == old(depth)
        && var s := Survivor(old(nodes), RepairFix(old(nodes), curr, deg / 2), curr); s in nodes && up == nodes[s].parent
    {
      var minCapacity := deg / 2;
      var x := curr;
      if nodes[curr].Size() < minCapacity {
        RootKind(nodes, levels, level, root, depth, curr);
        if nodes[curr].kind == Root {
          if nodes[curr].Size() == 0 && nodes[curr].children != [] {
            CollapseRoot();
            return None;
          }
        } else if nodes[curr].kind == Internal {
          x := RepairRouter(curr, minCapacity);
        } else {
          x := RepairLeaf(curr, minCapacity);
        }
      }
      up := nodes[x].parent;
      if up.Some? {
        WfRoot(nodes, levels, level, root, depth);
        var p := WfParent(nodes, levels, level, root, depth, x);
        StepOk(nodes, levels, level, root, depth, p, 0);
      }
    }

    /**
     * The Internal branch: the siblings are the neighbours of curr among its
     * parent's children. Borrow from the right, else from the left, else
     * merge with the right, else with the left, which then survives.
     */
    method RepairRouter(curr: nat, minCapacity: int) returns (x: nat)
      requires Valid() && curr in nodes && nodes[curr].kind == Internal
      requires minCapacity == deg / 2 && nodes[curr].Size() < minCapacity
      modifies this
      ensures Valid() && Contents() == old(Contents()) && depth == old(depth) && root == old(root)
      ensures x in nodes && x in level && level[x] == old(level[curr])
      ensures old(Bounded(nodes, deg)) && deg % 2 == 1 ==> Bounded(nodes, deg)
      ensures Applied(old(nodes), nodes, RouterFix(old(nodes), curr, minCapacity), curr, x, old(root), old(depth))
    {
      RootKind(nodes, levels, level, root, depth, curr);
      var p0 := WfParent(nodes, levels, level, root, depth, curr);
      StepOk(nodes, levels, level, root, depth, p0, 0);
      var p := nodes[curr].parent.value;
      var idx := IndexOfChild(nodes[p].children, curr);
      var next: Option<nat> := if idx + 1 < |nodes[p].children| then Some(nodes[p].children[idx + 1]) else None;
      var prev: Option<nat> := if idx > 0 then Some(nodes[p].children[idx - 1]) else None;
      x := curr;
      RouterChoice(nodes, curr, minCapacity, p, idx, next, prev);
      if next.Some? && nodes[next.value].parent == Some(p) && nodes[next.value].Size() > minCapacity {
        BorrowRight(p, idx);
      } else {
        x := RepairRouterLeft(curr, minCapacity);
      }
    }

    /** RepairRouter once the right neighbour cannot lend: borrow from the left one, else merge (MergeRouter). */
    method RepairRouterLeft(curr: nat, minCapacity: int) returns (x: nat)
      requires Valid() && curr in nodes && nodes[curr].kind == Internal
      requires minCapacity == deg / 2 && nodes[curr].Size() < minCapacity
      requires !RouterFix(nodes, curr, minCapacity).FromRight?
      modifies this
      ensures Valid() && Contents() == old(Contents()) && depth == old(depth) && root == old(root)
      ensures x in nodes && x in level && level[x] == old(level[curr])
      ensures old(Bounded(nodes, deg)) && deg % 2 == 1 ==> Bounded(nodes, deg)
      ensures Applied(old(nodes), nodes, RouterFix(old(nodes), curr, minCapacity), curr, x, old(root), old(depth))
    {
      ghost var p0 := RouterUnder(nodes, levels, level, root, depth, curr);
      var p := nodes[curr].parent.value;
      var idx := IndexOfChild(nodes[p].children, curr);
      var prev: Option<nat> := if idx > 0 then Some(nodes[p].children[idx - 1]) else None;
      x := curr;
      if prev.Some? && nodes[prev.value].parent == Some(p) && nodes[prev.value].Size() > minCapacity {
        var j := idx - 1;
        RouterFromLeft(nodes, curr, minCapacity, p, j);
        ghost var prior := nodes;
        BorrowLeft(p, j);
        assert Applied(prior, nodes, FromLeft(p, j), curr, x, root, depth);
      } else {
        RouterNoLender(nodes, curr, minCapacity, p, idx);
        x := MergeRouter(curr, minCapacity);
      }
    }

    /** The last two branches of RepairRouter: merge with the right sibling, else with the left one. */
    method MergeRouter(curr: nat, minCapacity: int) returns (x: nat)
      requires Valid() && curr in nodes && nodes[curr].kind == Internal
      requires minCapacity == deg / 2 && nodes[curr].Size() < minCapacity
      requires !RouterFix(nodes, curr, minCapacity).FromRight? && !RouterFix(nodes, curr, minCapacity).FromLeft?
      modifies this
      ensures Valid() && Contents() == old(Contents()) && depth == old(depth) && root == old(root)
      ensures x in nodes && x in level && level[x] == old(level[curr])
      ensures old(Bounded(nodes, deg)) && deg % 2 == 1 ==> Bounded(nodes, deg)
      ensures Applied(old(nodes), nodes, RouterFix(old(nodes), curr, minCapacity), curr, x, old(root), old(depth))
    {
      ghost var p0 := RouterUnder(nodes, levels, level, root, depth, curr);
      var p := nodes[curr].parent.value;
      var idx := IndexOfChild(nodes[p].children, curr);
      var next: Option<nat> := if idx + 1 < |nodes[p].children| then Some(nodes[p].children[idx + 1]) else None;
      if next.Some? && nodes[next.value].parent == Some(p) && nodes[next.value].Size() <= minCapacity {
        ghost var f, prior := RouterFix(nodes, curr, minCapacity), nodes;
        assert f == WithRight(p, idx) && nodes[p].children[idx] == curr;
        MergeAt(p, idx);
        assert Repaired(prior, nodes, f, root, depth);
        x := curr;
      } else {
        x := MergeRouterLeft(curr, minCapacity);
      }
    }

    /** The last branch of RepairRouter: merge with the left sibling, which survives as the current page. */
    method MergeRouterLeft(curr: nat, minCapacity: int) returns (x: nat)
      requires Valid() && curr in nodes && nodes[curr].kind == Internal
      requires minCapacity == deg / 2 && nodes[curr].Size() < minCapacity
      requires RouterFix(nodes, curr, minCapacity).WithLeft? || RouterFix(nodes, curr, minCapacity) == NoRepair
      modifies this
      ensures Valid() && Contents() == old(Contents()) && depth == old(depth) && root == old(root)
      ensures x in nodes && x in level && level[x] == old(level[curr])
      ensures old(Bounded(nodes, deg)) && deg % 2 == 1 ==> Bounded(nodes, deg)
      ensures Applied(old(nodes), nodes, RouterFix(old(nodes), curr, minCapacity), curr, x, old(root), old(depth))
    {
      ghost var p0 := RouterUnder(nodes, levels, level, root, depth, curr);
      var p := nodes[curr].parent.value;
      var idx := IndexOfChild(nodes[p].children, curr);
      var prev: Option<nat> := if idx > 0 then Some(nodes[p].children[idx - 1]) else None;
      x := curr;
      if prev.Some? && nodes[prev.value].parent == Some(p) && nodes[prev.value].Size() <= minCapacity {
        var j := idx - 1;
        RouterWithLeft(nodes, curr, minCapacity, p, j);
        ghost var prior := nodes;
        assert Survivor(nodes, WithLeft(p, j), curr) == prev.value;
        MergeAt(p, j);
        x := prev.value;
        assert Applied(prior, nodes, WithLeft(p, j), curr, x, root, depth);
      } else {
        RouterAlone(nodes, curr, minCapacity, p, idx);
      }
    }

    /**
     * The Leaf branch: the siblings are the chain neighbours that share
     * curr's parent; same order of preference as for routers.
     */
    method RepairLeaf(curr: nat, minCapacity: int) returns (x: nat)
      requires Valid() && curr in nodes && nodes[curr].kind == Leaf
      requires minCapacity == deg / 2 && nodes[curr].Size() < minCapacity
      modifies this
      ensures Valid() && Contents() == old(Contents()) && depth == old(depth) && root == old(root)
      ensures x in nodes && x in level && level[x] == old(level[curr])
      ensures old(Bounded(nodes, deg)) && deg % 2 == 1 ==> Bounded(nodes, deg)
      ensures Applied(old(nodes), nodes, LeafFix(old(nodes), curr, minCapacity), curr, x, old(root), old(depth))
    {
      LeafSiblings(nodes, levels, level, root, depth, curr);
      var parent := nodes[curr].parent;
      var next := nodes[curr].next;
      var prev := nodes[curr].prev;
      x := curr;
      if next.Some? && nodes[next.value].parent == parent && nodes[next.value].Size() > minCapacity {
        var p := parent.value;
        var i := IndexOfChild(nodes[p].children, curr);
        assert nodes[p].children[i] == curr && nodes[p].children[i + 1] == next.value;
        LeafFromRight(nodes, curr, minCapacity, p, i);
        ghost var prior := nodes;
        BorrowRight(p, i);
        assert Applied(prior, nodes, FromRight(p, i), curr, x, root, depth);
      } else {
        x := RepairLeafLeft(curr, minCapacity);
      }
    }

    /** RepairLeaf once the right chain neighbour cannot lend: borrow from the left one, else merge (MergeLeaf). */
    method RepairLeafLeft(curr: nat, minCapacity: int) returns (x: nat)
      requires Valid() && curr in nodes && nodes[curr].kind == Leaf
      requires minCapacity == deg / 2 && nodes[curr].Size() < minCapacity
      requires !Lends(nodes, nodes[curr].next, nodes[curr].parent, minCapacity)
      modifies this
      ensures Valid() && Contents() == old(Contents()) && depth == old(depth) && root == old(root)
      ensures x in nodes && x in level && level[x] == old(level[curr])
      ensures old(Bounded(nodes, deg)) && deg % 2 == 1 ==> Bounded(nodes, deg)
      ensures Applied(old(nodes), nodes, LeafFix(old(nodes), curr, minCapacity), curr, x, old(root), old(depth))
    {
      LeafSiblings(nodes, levels, level, root, depth, curr);
      var parent := nodes[curr].parent;
      var prev := nodes[curr].prev;
      x := curr;
      if prev.Some? && nodes[prev.value].parent == parent && nodes[prev.value].Size() > minCapacity {
        var p := parent.value;
        var i := IndexOfChild(nodes[p].children, curr) - 1;
        assert nodes[p].children[i] == prev.value && nodes[p].children[i + 1] == curr;
        LeafFromLeft(nodes, curr, minCapacity, p, i);
        ghost var prior := nodes;
        BorrowLeft(p, i);
        assert Applied(prior, nodes, FromLeft(p, i), curr, x, root, depth);
      } else {
        x := MergeLeaf(curr, minCapacity);
      }
    }

    /** The last two branches of RepairLeaf: merge with the right chain neighbour, else with the left one (MergeLeafLeft). */
    method MergeLeaf(curr: nat, minCapacity: int) returns (x: nat)
      requires Valid() && curr in nodes && nodes[curr].kind == Leaf
      requires minCapacity == deg / 2 && nodes[curr].Size() < minCapacity
      requires !Lends(nodes, nodes[curr].next, nodes[curr].parent, minCapacity)
      requires !Lends(nodes, nodes[curr].prev, nodes[curr].parent, minCapacity)
      modifies this
      ensures Valid() && Contents() == old(Contents()) && depth == old(depth) && root == old(root)
      ensures x in nodes && x in level && level[x] == old(level[curr])
      ensures old(Bounded(nodes, deg)) && deg % 2 == 1 ==> Bounded(nodes, deg)
      ensures Applied(old(nodes), nodes, LeafFix(old(nodes), curr, minCapacity), curr, x, old(root), old(depth))
    {
      LeafSiblings(nodes, levels, level, root, depth, curr);
      var parent := nodes[curr].parent;
      var next := nodes[curr].next;
      var prev := nodes[curr].prev;
      x := curr;
      ghost var prior := nodes;
      if next.Some? && nodes[next.value].parent == parent && nodes[next.value].Size() <= minCapacity {
        var p := parent.value;
        var i := IndexOfChild(nodes[p].children, curr);
        assert nodes[p].children[i] == curr && nodes[p].children[i + 1] == next.value;
        LeafWithRight(nodes, curr, minCapacity, p, i);
        MergeAt(p, i);
        assert Repaired(prior, nodes, WithRight(p, i), root, depth);
      } else {
        x := MergeLeafLeft(curr, minCapacity);
      }
    }

    /** The last branch of RepairLeaf: no right chain neighbour under the same parent; merge into the left one. */
    method MergeLeafLeft(curr: nat, minCapacity: int) returns (x: nat)
      requires Valid() && curr in nodes && nodes[curr].kind == Leaf
      requires minCapacity == deg / 2 && nodes[curr].Size() < minCapacity
      requires !(nodes[curr].next.Some? && nodes[curr].next.value in nodes && nodes[nodes[curr].next.value].parent == nodes[curr].parent)
      requires !Lends(nodes, nodes[curr].prev, nodes[curr].parent, minCapacity)
      modifies this
      ensures Valid() && Contents() == old(Contents()) && depth == old(depth) && root == old(root)
      ensures x in nodes && x in level && level[x] == old(level[curr])
      ensures old(Bounded(nodes, deg)) && deg % 2 == 1 ==> Bounded(nodes, deg)
      ensures Applied(old(nodes), nodes, LeafFix(old(nodes), curr, minCapacity), curr, x, old(root), old(depth))
    {
      LeafSiblings(nodes, levels, level, root, depth, curr);
      var parent := nodes[curr].parent;
      var prev := nodes[curr].prev;
      x := curr;
      ghost var prior := nodes;
      if prev.Some? && nodes[prev.value].parent == parent && nodes[prev.value].Size() <= minCapacity {
        var p := parent.value;
        var i := IndexOfChild(nodes[p].children, curr) - 1;
        assert nodes[p].children[i] == prev.value && nodes[p].children[i + 1] == curr;
        LeafWithLeft(nodes, curr, minCapacity, p, i);
        assert Survivor(nodes, WithLeft(p, i), curr) == prev.value;
        MergeAt(p, i);
        assert Repaired(prior, nodes, WithLeft(p, i), root, depth);
        x := prev.value;
      } else {
        LeafAlone(nodes, curr, minCapacity);
      }
    }

    /** Child i of p borrows from child i + 1 (borrowFromRight), which has keys to spare. */
    method BorrowRight(p: nat, i: nat)
      requires Valid() && p in nodes && nodes[p].kind != Leaf && i + 1 < |nodes[p].children|
      requires nodes[p].children[i + 1] in nodes && nodes[nodes[p].children[i + 1]].Size() > deg / 2
      modifies this
      ensures Valid() && Contents() == old(Contents())
      ensures levels == old(levels) && level == old(level) && depth == old(depth) && root == old(root)
      ensures GrowsByOne(old(nodes), nodes, old(nodes[p].children[i]))
      ensures Repaired(old(nodes), nodes, FromRight(p, i), old(root), old(depth))
      ensures old(Bounded(nodes, deg)) && old(nodes[nodes[p].children[i]].Size()) < deg / 2 ==> Bounded(nodes, deg)
    {
      BorrowFromRightWf(nodes, levels, level, root, depth, p, i);
      ghost var _, _ := WfPairReady(nodes, levels, level, root, depth, p, i);
      WfRoot(nodes, levels, level, root, depth);
      BorrowFromRightFenced(nodes, fence, root, p, i);
      ghost var prior := nodes;
      var a := BorrowFromRight(nodes, p, i);
      BorrowsFromRight(prior, p, i, deg / 2, root, depth);
      Commit(a, levels, level, Resep(fence, nodes[p].children[i], nodes[p].children[i + 1], a[p].keys[i]),
             nextId, depth, root);
      if Bounded(prior, deg) && prior[prior[p].children[i]].Size() < deg / 2 {
        BoundedAfterBorrow(prior, nodes, deg, prior[p].children[i]);
      }
    }

    /** Child i + 1 of p borrows from child i (borrowFromLeft), which has keys to spare. */
    method BorrowLeft(p: nat, i: nat)
      requires Valid() && p in nodes && nodes[p].kind != Leaf && i + 1 < |nodes[p].children|
      requires nodes[p].children[i] in nodes && nodes[nodes[p].children[i]].Size() > deg / 2
      modifies this
      ensures Valid() && Contents() == old(Contents())
      ensures levels == old(levels) && level == old(level) && depth == old(depth) && root == old(root)
      ensures GrowsByOne(old(nodes), nodes, old(nodes[p].children[i + 1]))
      ensures Repaired(old(nodes), nodes, FromLeft(p, i), old(root), old(depth))
      ensures old(Bounded(nodes, deg)) && old(nodes[nodes[p].children[i + 1]].Size()) < deg / 2 ==> Bounded(nodes, deg)
    {
      BorrowFromLeftWf(nodes, levels, level, root, depth, p, i);
      ghost var _, _ := WfPairReady(nodes, levels, level, root, depth, p, i);
      WfRoot(nodes, levels, level, root, depth);
      BorrowFromLeftFenced(nodes, fence, root, p, i);
      ghost var prior := nodes;
      var a := BorrowFromLeft(nodes, p, i);
      BorrowsFromLeft(prior, p, i, deg / 2, root, depth);
      Commit(a, levels, level, Resep(fence, nodes[p].children[i], nodes[p].children[i + 1], a[p].keys[i]),
             nextId, depth, root);
      if Bounded(prior, deg) && prior[prior[p].children[i + 1]].Size() < deg / 2 {
        BoundedAfterBorrow(prior, nodes, deg, prior[p].children[i + 1]);
      }
    }

    /** Children i and i + 1 of p merge into child i (mergeWithRight on i, mergeWithLeft on i + 1). */
    method MergeAt(p: nat, i: nat)
      requires Valid() && p in nodes && nodes[p].kind != Leaf && i + 1 < |nodes[p].children|
      modifies this
      ensures Valid() && Contents() == old(Contents()) && depth == old(depth) && root == old(root)
      ensures old(PairReady(nodes, p, i)) && nodes == MergePair(old(nodes), p, i)
      ensures nodes.Keys == old(nodes.Keys) - {old(nodes[p].children[i + 1])}
      ensures old(nodes[p].children[i]) in nodes && old(nodes[p].children[i]) in level
      ensures level[old(nodes[p].children[i])] == old(level[nodes[p].children[i]])
      ensures level[old(nodes[p].children[i])] == old(level[nodes[p].children[i + 1]])
      ensures nodes[old(nodes[p].children[i])].Size() ==
        old(nodes[nodes[p].children[i]].Size() + nodes[nodes[p].children[i + 1]].Size()) +
        (if old(nodes[nodes[p].children[i]].kind) == Leaf then 0 else 1)
      ensures forall id | id in nodes && id != old(nodes[p].children[i]) :: nodes[id].Size() <= old(nodes)[id].Size()
      ensures (old(Bounded(nodes, deg)) && deg % 2 == 1 &&
               old(nodes[nodes[p].children[i]].Size() + nodes[nodes[p].children[i + 1]].Size()) < 2 * (deg / 2)) ==>
              Bounded(nodes, deg)
    {
      MergePairWf(nodes, levels, level, root, depth, p, i);
      MergePairSizes(nodes, p, i);
      ghost var _, _ := WfPairReady(nodes, levels, level, root, depth, p, i);
      WfRoot(nodes, levels, level, root, depth);
      MergePairFenced(nodes, fence, root, p, i);
      ghost var prior := nodes;
      var l, r := nodes[p].children[i], nodes[p].children[i + 1];
      Commit(MergePair(nodes, p, i), DropPage(levels, level, r), level - {r}, Join(fence, l, r), nextId, depth, root);
      if Bounded(prior, deg) && deg % 2 == 1 && prior[l].Size() + prior[r].Size() < 2 * (deg / 2) {
        assert nodes[l].Size() < deg;
        BoundedAfterMerge(prior, nodes, deg, l);
      }
    }

    /**
     * An empty root router is dropped; its only child becomes the root and
     * the tree loses a level.
     */
    method CollapseRoot()
      requires Valid() && root in nodes && nodes[root].kind == Root && nodes[root].keys == []
      modifies this
      ensures Valid() && Contents() == old(Contents())
      ensures depth == old(depth) - 1 && root == old(nodes[root].children[0])
      ensures Repaired(old(nodes), nodes, RootCollapse, old(root), old(depth))
      ensures nodes.Keys == old(nodes.Keys) - {old(root)}
      ensures forall id | id in nodes :: nodes[id].Size() == old(nodes)[id].Size()
    {
      RootKind(nodes, levels, level, root, depth, root);
      ghost var c := CollapseWf(nodes, levels, level, root, depth);
      CollapseFenced(nodes, levels, level, root, depth, fence);
      Commit(Collapse(nodes, root, depth), levels[..depth - 1], level - {root}, fence, nextId, depth - 1,
             nodes[root].children[0]);
    }

    /** Installs a new state of the tree in one step. */
    method Commit(nodes': Arena<V>, ghost levels': seq<seq<nat>>, ghost level': map<nat, nat>,
                  ghost fence': map<nat, Fence>, nextId': nat, depth': int, root': nat)
      modifies this
      ensures nodes == nodes' && levels == levels' && level == level' && fence == fence' && nextId == nextId'
      ensures depth == depth' && root == root'
    {
      nodes, levels, level, fence, nextId, depth, root := nodes', levels', level', fence', nextId', depth', root';
    }
  }
}
