/**
 * The arena of pages and the structural invariant of the tree.
 *
 * Pages live in `nodes`, indexed by `nat`. Two ghost views describe the
 * shape: `levels[l]` lists the pages at height `l` from left to right
 * (height 0 holds the leaves, height depth-1 holds only the root) and
 * `level` maps every page to its height.
 */
module Shape {
  import opened Wrappers
  import opened Nodes

  type Arena<V> = map<nat, Node<V>>

  ghost predicate AllIn<V>(nodes: Arena<V>, ids: seq<nat>)
  {
    forall i | 0 <= i < |ids| :: ids[i] in nodes
  }

  /** The children of the pages `ids`, concatenated left to right. */
  ghost function Kids<V>(nodes: Arena<V>, ids: seq<nat>): seq<nat>
    requires AllIn(nodes, ids)
  {
    if ids == [] then [] else Kids(nodes, ids[..|ids| - 1]) + nodes[ids[|ids| - 1]].children
  }

  lemma {:induction false} KidsAppend<V>(nodes: Arena<V>, a: seq<nat>, b: seq<nat>)
    requires AllIn(nodes, a) && AllIn(nodes, b)
    ensures AllIn(nodes, a + b)
    ensures Kids(nodes, a + b) == Kids(nodes, a) + Kids(nodes, b)
    decreases |b|
  {
    if b == [] {
      assert a + b == a;
    } else {
      var b', x := b[..|b| - 1], b[|b| - 1];
      assert AllIn(nodes, a + b) by {
        forall i | 0 <= i < |a + b| ensures (a + b)[i] in nodes {
          if i < |a| { assert (a + b)[i] == a[i]; } else { assert (a + b)[i] == b[i - |a|]; }
        }
      }
      assert (a + b)[..|a + b| - 1] == a + b' && (a + b)[|a + b| - 1] == x;
      KidsAppend(nodes, a, b');
      assert Kids(nodes, a + b) == Kids(nodes, a + b') + nodes[x].children;
      assert Kids(nodes, b) == Kids(nodes, b') + nodes[x].children;
    }
  }

  lemma KidsOne<V>(nodes: Arena<V>, x: nat)
    requires x in nodes
    ensures AllIn(nodes, [x]) && Kids(nodes, [x]) == nodes[x].children
  {
    assert [x][..0] == [];
  }

  /** Kids(ids) split around the page at position j. */
  lemma KidsAt<V>(nodes: Arena<V>, ids: seq<nat>, j: nat)
    requires AllIn(nodes, ids) && j < |ids|
    ensures Kids(nodes, ids) == Kids(nodes, ids[..j]) + nodes[ids[j]].children + Kids(nodes, ids[j + 1..])
  {
    assert ids == ids[..j] + [ids[j]] + ids[j + 1..];
    KidsAppend(nodes, ids[..j] + [ids[j]], ids[j + 1..]);
    KidsAppend(nodes, ids[..j], [ids[j]]);
    KidsOne(nodes, ids[j]);
  }

  /** Kids only looks at the children of the pages listed. */
  lemma {:induction false} KidsFrame<V>(nodes: Arena<V>, nodes': Arena<V>, ids: seq<nat>)
    requires AllIn(nodes, ids) && AllIn(nodes', ids)
    requires forall i | 0 <= i < |ids| :: nodes'[ids[i]].children == nodes[ids[i]].children
    ensures Kids(nodes', ids) == Kids(nodes, ids)
    decreases |ids|
  {
    if ids != [] {
      KidsFrame(nodes, nodes', ids[..|ids| - 1]);
    }
  }

  /** Every page listed by Kids is the child of one of the pages. */
  lemma {:induction false} KidsMember<V>(nodes: Arena<V>, ids: seq<nat>, c: nat) returns (j: nat)
    requires AllIn(nodes, ids) && c in Kids(nodes, ids)
    ensures j < |ids| && c in nodes[ids[j]].children
    decreases |ids|
  {
    var init := ids[..|ids| - 1];
    if c in nodes[ids[|ids| - 1]].children {
      j := |ids| - 1;
    } else {
      j := KidsMember(nodes, init, c);
    }
  }

  /** Every child of a listed page is listed by Kids. */
  lemma KidsContains<V>(nodes: Arena<V>, ids: seq<nat>, j: nat, k: nat)
    requires AllIn(nodes, ids) && j < |ids| && k < |nodes[ids[j]].children|
    ensures |Kids(nodes, ids[..j])| + k < |Kids(nodes, ids)|
    ensures Kids(nodes, ids)[|Kids(nodes, ids[..j])| + k] == nodes[ids[j]].children[k]
  {
    KidsAt(nodes, ids, j);
  }

  // ---------------------------------------------------------------------
  // Leaf contents in chain order

  ghost predicate LeavesOk<V>(nodes: Arena<V>, ids: seq<nat>)
  {
    forall i | 0 <= i < |ids| :: ids[i] in nodes && |nodes[ids[i]].vals| == |nodes[ids[i]].keys|
  }

  /** The (key, value) pairs of the leaves `ids`, concatenated left to right. */
  ghost function LeafEntries<V>(nodes: Arena<V>, ids: seq<nat>): seq<(int, V)>
    requires LeavesOk(nodes, ids)
  {
    if ids == [] then []
    else
      var x := nodes[ids[|ids| - 1]];
      LeafEntries(nodes, ids[..|ids| - 1]) + Entries(x.keys, x.vals)
  }

  lemma {:induction false} LeafEntriesAppend<V>(nodes: Arena<V>, a: seq<nat>, b: seq<nat>)
    requires LeavesOk(nodes, a) && LeavesOk(nodes, b)
    ensures LeavesOk(nodes, a + b)
    ensures LeafEntries(nodes, a + b) == LeafEntries(nodes, a) + LeafEntries(nodes, b)
    decreases |b|
  {
    if b == [] {
      assert a + b == a;
    } else {
      var b' := b[..|b| - 1];
      var last := b[|b| - 1];
      var ab := a + b;
      assert ab[..|ab| - 1] == a + b';
      assert ab[|ab| - 1] == last;
      LeafEntriesAppend(nodes, a, b');
      var E := Entries(nodes[last].keys, nodes[last].vals);
      assert LeafEntries(nodes, ab) == LeafEntries(nodes, a + b') + E;
      assert LeafEntries(nodes, b) == LeafEntries(nodes, b') + E;
    }
  }

  lemma LeafEntriesOne<V>(nodes: Arena<V>, x: nat)
    requires x in nodes && |nodes[x].vals| == |nodes[x].keys|
    ensures LeavesOk(nodes, [x])
    ensures LeafEntries(nodes, [x]) == Entries(nodes[x].keys, nodes[x].vals)
  {
    assert [x][..0] == [];
  }

  lemma {:induction false} LeafEntriesFrame<V>(nodes: Arena<V>, nodes': Arena<V>, ids: seq<nat>)
    requires LeavesOk(nodes, ids) && AllIn(nodes', ids)
    requires forall i | 0 <= i < |ids| ::
      nodes'[ids[i]].keys == nodes[ids[i]].keys && nodes'[ids[i]].vals == nodes[ids[i]].vals
    ensures LeavesOk(nodes', ids)
    ensures LeafEntries(nodes', ids) == LeafEntries(nodes, ids)
    decreases |ids|
  {
    if ids != [] {
      LeafEntriesFrame(nodes, nodes', ids[..|ids| - 1]);
    }
  }

  // ---------------------------------------------------------------------
  // The structural invariant

  /** Heights: every page sits on exactly one level, the root alone on top. */
  ghost predicate Layered<V>(nodes: Arena<V>, levels: seq<seq<nat>>, level: map<nat, nat>, root: nat, depth: int)
  {
    && depth >= 1 && |levels| == depth && levels[depth - 1] == [root]
    && level.Keys == nodes.Keys
    && (forall id | id in level :: level[id] < depth && id in levels[level[id]])
    && (forall l, i | 0 <= l < |levels| && 0 <= i < |levels[l]| ::
          levels[l][i] in nodes && levels[l][i] in level && level[levels[l][i]] == l)
    && (forall l | 0 <= l < |levels| :: Distinct(levels[l]))
  }

  /** The pages of every level are in the arena. */
  lemma LayeredAllIn<V>(nodes: Arena<V>, levels: seq<seq<nat>>, level: map<nat, nat>, root: nat, depth: int)
    requires Layered(nodes, levels, level, root, depth)
    ensures forall l | 0 <= l < |levels| :: AllIn(nodes, levels[l])
  {
  }

  /** Each level is exactly the children of the level above, in order. */
  ghost predicate Linked<V>(nodes: Arena<V>, levels: seq<seq<nat>>)
    requires forall l | 0 <= l < |levels| :: AllIn(nodes, levels[l])
  {
    forall l | 0 <= l < |levels| - 1 :: LevelLinked(nodes, levels, l)
  }

  /** Level l is the children of level l + 1; stated apart so that it unfolds only on demand. */
  ghost predicate LevelLinked<V>(nodes: Arena<V>, levels: seq<seq<nat>>, l: nat)
    requires l + 1 < |levels| && AllIn(nodes, levels[l + 1])
  {
    levels[l] == Kids(nodes, levels[l + 1])
  }

  /** What one page looks like, given its height and whether it is the root. */
  ghost predicate PageOk<V>(n: Node<V>, height: nat, isRoot: bool)
  {
    && (n.parent.None? <==> isRoot)
    && if height == 0 then
         n.kind == Leaf && n.children == [] && |n.vals| == |n.keys|
       else
         n.kind == (if isRoot then Root else Internal) && |n.children| == |n.keys| + 1
  }

  ghost predicate PagesOk<V>(nodes: Arena<V>, level: map<nat, nat>, root: nat)
  {
    forall id | id in nodes && id in level :: PageOk(nodes[id], level[id], id == root)
  }

  /** Every child points back at the page that holds it. */
  ghost predicate ParentsOk<V>(nodes: Arena<V>)
  {
    forall p, j | p in nodes && 0 <= j < |nodes[p].children| ::
      nodes[p].children[j] in nodes && nodes[nodes[p].children[j]].parent == Some(p)
  }

  /** The prev/next chain runs through the leaves left to right. */
  ghost predicate ChainOk<V>(nodes: Arena<V>, leaves: seq<nat>)
  {
    forall i | 0 <= i < |leaves| :: ChainLink(nodes, leaves, i)
  }

  /** Leaf i of the chain points at its neighbours; the chain invariant is stated through it so that it unfolds only on demand. */
  ghost predicate ChainLink<V>(nodes: Arena<V>, leaves: seq<nat>, i: nat)
    requires i < |leaves|
  {
      && leaves[i] in nodes
      && nodes[leaves[i]].next == (if i + 1 < |leaves| then Some(leaves[i + 1]) else None)
      && nodes[leaves[i]].prev == (if i > 0 then Some(leaves[i - 1]) else None)
  }

  /** The links of leaf k of a well-linked chain. */
  lemma ChainLinkAt<V>(nodes: Arena<V>, L: seq<nat>, k: nat)
    requires ChainOk(nodes, L) && k < |L|
    ensures L[k] in nodes
    ensures nodes[L[k]].next == (if k + 1 < |L| then Some(L[k + 1]) else None)
    ensures nodes[L[k]].prev == (if k > 0 then Some(L[k - 1]) else None)
  {
    assert ChainLink(nodes, L, k);
  }

  ghost predicate Wf<V>(nodes: Arena<V>, levels: seq<seq<nat>>, level: map<nat, nat>, root: nat, depth: int)
  {
    && Layered(nodes, levels, level, root, depth)
    && Linked(nodes, levels)
    && PagesOk(nodes, level, root)
    && ParentsOk(nodes)
    && ChainOk(nodes, levels[0])
  }

  /** No page holds `deg` keys or more. */
  ghost predicate Bounded<V>(nodes: Arena<V>, deg: int)
  {
    forall id | id in nodes :: nodes[id].Size() < deg
  }

  // ---------------------------------------------------------------------
  // Consequences of the invariant

  lemma WfRoot<V>(nodes: Arena<V>, levels: seq<seq<nat>>, level: map<nat, nat>, root: nat, depth: int)
    requires Wf(nodes, levels, level, root, depth)
    ensures root in nodes && level[root] == depth - 1 && nodes[root].parent == None
    ensures forall id | id in nodes && id != root :: level[id] < depth - 1
  {
    assert levels[depth - 1][0] == root;
    forall id | id in nodes && id != root ensures level[id] < depth - 1 {
      assert id in levels[level[id]];
    }
  }

  lemma LeavesOkFromWf<V>(nodes: Arena<V>, levels: seq<seq<nat>>, level: map<nat, nat>, root: nat, depth: int)
    requires Wf(nodes, levels, level, root, depth)
    ensures LeavesOk(nodes, levels[0])
  {
    forall i | 0 <= i < |levels[0]| ensures |nodes[levels[0][i]].vals| == |nodes[levels[0][i]].keys| {
      assert PageOk(nodes[levels[0][i]], level[levels[0][i]], levels[0][i] == root);
    }
  }

  /** A page's children form one contiguous, ordered stretch of the level below. */
  lemma ChildrenSlice<V>(nodes: Arena<V>, above: seq<nat>, below: seq<nat>, j: nat)
    returns (s: nat)
    requires AllIn(nodes, above) && j < |above| && below == Kids(nodes, above)
    ensures s == |Kids(nodes, above[..j])|
    ensures s + |nodes[above[j]].children| <= |below|
    ensures below[s..s + |nodes[above[j]].children|] == nodes[above[j]].children
  {
    KidsAt(nodes, above, j);
    s := |Kids(nodes, above[..j])|;
  }

  lemma SliceDistinct(below: seq<nat>, s: nat, cs: seq<nat>)
    requires Distinct(below) && s + |cs| <= |below| && below[s..s + |cs|] == cs
    ensures Distinct(cs)
  {
    forall a, b | 0 <= a < b < |cs| ensures cs[a] != cs[b] {
      assert below[s + a] == cs[a] && below[s + b] == cs[b];
    }
  }

  lemma ChildLevels<V>(nodes: Arena<V>, levels: seq<seq<nat>>, level: map<nat, nat>, root: nat, depth: int, l: nat, s: nat, cs: seq<nat>)
    requires Layered(nodes, levels, level, root, depth)
    requires l < |levels| && s + |cs| <= |levels[l]| && levels[l][s..s + |cs|] == cs
    ensures forall k | 0 <= k < |cs| :: cs[k] in nodes && level[cs[k]] == l
  {
    forall k | 0 <= k < |cs| ensures cs[k] in nodes && level[cs[k]] == l {
      assert levels[l][s + k] == cs[k];
    }
  }

  /** The children of a page sit one level lower and are listed in order there. */
  lemma WfChildren<V>(nodes: Arena<V>, levels: seq<seq<nat>>, level: map<nat, nat>, root: nat, depth: int, p: nat)
    returns (j: nat, s: nat)
    requires Layered(nodes, levels, level, root, depth) && Linked(nodes, levels)
    requires p in nodes && level[p] > 0
    ensures j < |levels[level[p]]| && levels[level[p]][j] == p
    ensures s + |nodes[p].children| <= |levels[level[p] - 1]|
    ensures levels[level[p] - 1][s..s + |nodes[p].children|] == nodes[p].children
    ensures s == |Kids(nodes, levels[level[p]][..j])|
    ensures forall k | 0 <= k < |nodes[p].children| ::
      nodes[p].children[k] in nodes && level[nodes[p].children[k]] == level[p] - 1
    ensures Distinct(nodes[p].children)
  {
    var l := level[p];
    assert l < depth && p in levels[l];
    assert LevelLinked(nodes, levels, l - 1);
    j :| 0 <= j < |levels[l]| && levels[l][j] == p;
    s := ChildrenSlice(nodes, levels[l], levels[l - 1], j);
    var cs := nodes[p].children;
    SliceDistinct(levels[l - 1], s, cs);
    ChildLevels(nodes, levels, level, root, depth, l - 1, s, cs);
  }

  /** A page other than the root hangs under a parent one level up. */
  lemma WfParent<V>(nodes: Arena<V>, levels: seq<seq<nat>>, level: map<nat, nat>, root: nat, depth: int, c: nat)
    returns (p: nat)
    requires Wf(nodes, levels, level, root, depth)
    requires c in nodes && c != root
    ensures nodes[c].parent == Some(p)
    ensures p in nodes && level[p] == level[c] + 1 && c in nodes[p].children
  {
    WfRoot(nodes, levels, level, root, depth);
    var l := level[c];
    assert c in levels[l];
    assert LevelLinked(nodes, levels, l);
    var j := KidsMember(nodes, levels[l + 1], c);
    p := levels[l + 1][j];
    var k :| 0 <= k < |nodes[p].children| && nodes[p].children[k] == c;
  }
}
