/**
 * The underflow repairs of remove: borrowing one entry between two sibling
 * pages, merging two siblings, and collapsing an empty root into its only
 * child. Siblings are named through their parent p: the left page is
 * children[i] of p and the right page is children[i + 1]. The C++ code calls
 * them from the page that underflowed; borrowFromRight and mergeWithRight on
 * children[i] and borrowFromLeft and mergeWithLeft on children[i + 1] are the
 * same pair operations.
 */
module Rebalance {
  import opened Wrappers
  import opened Nodes
  import opened Shape
  import opened Split

  /** A page that is not one of the three pages a pair operation rewrites. */
  ghost predicate Outside<V>(nodes: Arena<V>, c: nat, p: nat, l: nat, r: nat)
  {
    c in nodes && c != p && c != l && c != r
  }

  /** What the pair operations on children i and i + 1 of p rely on; the invariant provides it (WfPairReady). */
  ghost predicate PairReady<V>(nodes: Arena<V>, p: nat, i: nat)
  {
    && p in nodes
    && var P := nodes[p];
    && i + 1 < |P.children| && |P.children| == |P.keys| + 1
    && var l := P.children[i];
    && var r := P.children[i + 1];
    && l in nodes && r in nodes && l != r && l != p && r != p
    && var L := nodes[l];
    && var R := nodes[r];
    && L.kind == R.kind && L.kind != Root
    && L.parent == Some(p) && R.parent == Some(p)
    && (L.kind == Leaf ==>
          && L.children == [] && R.children == []
          && |L.vals| == |L.keys| && |R.vals| == |R.keys|
          && L.next == Some(r) && R.prev == Some(l)
          && (R.next.Some? ==> Outside(nodes, R.next.value, p, l, r)))
    && (L.kind != Leaf ==>
          && |L.children| == |L.keys| + 1 && |R.children| == |R.keys| + 1
          && Distinct(L.children) && Distinct(R.children)
          && (forall k | 0 <= k < |L.children| ::
                Outside(nodes, L.children[k], p, l, r) && nodes[L.children[k]].parent == Some(l))
          && (forall k | 0 <= k < |R.children| ::
                Outside(nodes, R.children[k], p, l, r) && nodes[R.children[k]].parent == Some(r)))
  }

  // ---------------------------------------------------------------------
  // Borrowing

  /**
   * borrowFromRightLeaf: the left leaf takes the first pair of its right
   * sibling, and the separator becomes the right leaf's new first key.
   */
  function ShiftLeftLeaf<V>(nodes: Arena<V>, p: nat, i: nat): (a: Arena<V>)
    requires PairReady(nodes, p, i) && nodes[nodes[p].children[i]].kind == Leaf
    requires |nodes[nodes[p].children[i + 1]].keys| >= 2
    ensures a.Keys == nodes.Keys
    ensures a[nodes[p].children[i]].Size() == nodes[nodes[p].children[i]].Size() + 1 && a[nodes[p].children[i + 1]].Size() == nodes[nodes[p].children[i + 1]].Size() - 1
    ensures a[p].Size() == nodes[p].Size()
    ensures a[nodes[p].children[i]].keys[nodes[nodes[p].children[i]].Size()] == nodes[nodes[p].children[i + 1]].keys[0] && a[p].keys[i] == a[nodes[p].children[i + 1]].keys[0]
  {
    var P := nodes[p];
    var l := P.children[i];
    var r := P.children[i + 1];
    var L := nodes[l];
    var R := nodes[r];
    nodes[l := L.(keys := L.keys + [R.keys[0]], vals := L.vals + [R.vals[0]])]
         [r := R.(keys := R.keys[1..], vals := R.vals[1..])]
         [p := P.(keys := P.keys[i := R.keys[1]])]
  }

  /**
   * borrowFromLeftLeaf: the right leaf takes the last pair of its left
   * sibling, and that key becomes the separator.
   */
  function ShiftRightLeaf<V>(nodes: Arena<V>, p: nat, i: nat): (a: Arena<V>)
    requires PairReady(nodes, p, i) && nodes[nodes[p].children[i]].kind == Leaf
    requires |nodes[nodes[p].children[i]].keys| >= 1
    ensures a.Keys == nodes.Keys
    ensures a[nodes[p].children[i + 1]].Size() == nodes[nodes[p].children[i + 1]].Size() + 1 && a[nodes[p].children[i]].Size() == nodes[nodes[p].children[i]].Size() - 1
    ensures a[p].Size() == nodes[p].Size()
    ensures a[nodes[p].children[i + 1]].keys[0] == nodes[nodes[p].children[i]].keys[nodes[nodes[p].children[i]].Size() - 1] && a[p].keys[i] == a[nodes[p].children[i + 1]].keys[0]
  {
    var P := nodes[p];
    var l := P.children[i];
    var r := P.children[i + 1];
    var L := nodes[l];
    var R := nodes[r];
    var k := |L.keys| - 1;
    nodes[r := R.(keys := [L.keys[k]] + R.keys, vals := [L.vals[k]] + R.vals)]
         [l := L.(keys := L.keys[..k], vals := L.vals[..k])]
         [p := P.(keys := P.keys[i := L.keys[k]])]
  }

  /**
   * borrowFromRightInternal: the left router takes the separator and the
   * first child of its right sibling; the right sibling's first key moves
   * up to become the separator.
   */
  function ShiftLeftRouter<V>(nodes: Arena<V>, p: nat, i: nat): (a: Arena<V>)
    requires PairReady(nodes, p, i) && nodes[nodes[p].children[i]].kind != Leaf
    requires |nodes[nodes[p].children[i + 1]].keys| >= 1
    ensures a.Keys == nodes.Keys
    ensures a[nodes[p].children[i]].Size() == nodes[nodes[p].children[i]].Size() + 1 && a[nodes[p].children[i + 1]].Size() == nodes[nodes[p].children[i + 1]].Size() - 1
    ensures a[p].Size() == nodes[p].Size()
    ensures a[nodes[p].children[i]].keys[nodes[nodes[p].children[i]].Size()] == nodes[p].keys[i] && a[p].keys[i] == nodes[nodes[p].children[i + 1]].keys[0]
    ensures |a[nodes[p].children[i]].children| == |nodes[nodes[p].children[i]].children| + 1
    ensures a[nodes[p].children[i]].children[nodes[nodes[p].children[i]].Size() + 1] == nodes[nodes[p].children[i + 1]].children[0]
    ensures a[nodes[nodes[p].children[i + 1]].children[0]].parent == Some(nodes[p].children[i])
  {
    var P := nodes[p];
    var l := P.children[i];
    var r := P.children[i + 1];
    var L := nodes[l];
    var R := nodes[r];
    var c := R.children[0];
    nodes[c := nodes[c].(parent := Some(l))]
         [l := L.(keys := L.keys + [P.keys[i]], children := L.children + [c])]
         [r := R.(keys := R.keys[1..], children := R.children[1..])]
         [p := P.(keys := P.keys[i := R.keys[0]])]
  }

  /**
   * borrowFromLeftInternal: the right router takes the separator and the
   * last child of its left sibling; the left sibling's last key moves up to
   * become the separator.
   */
  function ShiftRightRouter<V>(nodes: Arena<V>, p: nat, i: nat): (a: Arena<V>)
    requires PairReady(nodes, p, i) && nodes[nodes[p].children[i]].kind != Leaf
    requires |nodes[nodes[p].children[i]].keys| >= 1
    ensures a.Keys == nodes.Keys
    ensures a[nodes[p].children[i + 1]].Size() == nodes[nodes[p].children[i + 1]].Size() + 1 && a[nodes[p].children[i]].Size() == nodes[nodes[p].children[i]].Size() - 1
    ensures a[p].Size() == nodes[p].Size()
    ensures a[nodes[p].children[i + 1]].keys[0] == nodes[p].keys[i] && a[p].keys[i] == nodes[nodes[p].children[i]].keys[nodes[nodes[p].children[i]].Size() - 1]
    ensures |a[nodes[p].children[i + 1]].children| == |nodes[nodes[p].children[i + 1]].children| + 1
    ensures a[nodes[p].children[i + 1]].children[0] == nodes[nodes[p].children[i]].children[nodes[nodes[p].children[i]].Size()]
    ensures a[nodes[nodes[p].children[i]].children[nodes[nodes[p].children[i]].Size()]].parent == Some(nodes[p].children[i + 1])
  {
    var P := nodes[p];
    var l := P.children[i];
    var r := P.children[i + 1];
    var L := nodes[l];
    var R := nodes[r];
    var k := |L.keys| - 1;
    var c := L.children[k + 1];
    nodes[c := nodes[c].(parent := Some(r))]
         [r := R.(keys := [P.keys[i]] + R.keys, children := [c] + R.children)]
         [l := L.(keys := L.keys[..k], children := L.children[..k + 1])]
         [p := P.(keys := P.keys[i := L.keys[k]])]
  }

  // ---------------------------------------------------------------------
  // Merging

  /**
   * mergeWithRightLeaf / mergeWithLeftLeaf: the left leaf absorbs the pairs
   * of the right one, which leaves the leaf chain, the parent and the arena;
   * the parent drops the separator between them.
   */
  function MergeLeaves<V>(nodes: Arena<V>, p: nat, i: nat): (a: Arena<V>)
    requires PairReady(nodes, p, i) && nodes[nodes[p].children[i]].kind == Leaf
    ensures a.Keys == nodes.Keys - {nodes[p].children[i + 1]}
    ensures a[nodes[p].children[i]].Size() == nodes[nodes[p].children[i]].Size() + nodes[nodes[p].children[i + 1]].Size() && a[nodes[p].children[i]].next == nodes[nodes[p].children[i + 1]].next
    ensures a[p].Size() == nodes[p].Size() - 1
  {
    var P := nodes[p];
    var l := P.children[i];
    var r := P.children[i + 1];
    var L := nodes[l];
    var R := nodes[r];
    var a := (nodes - {r})
               [l := L.(keys := L.keys + R.keys, vals := L.vals + R.vals, next := R.next)]
               [p := P.(keys := RemoveAt(P.keys, i), children := RemoveAt(P.children, i + 1))];
    if R.next.Some? then a[R.next.value := nodes[R.next.value].(prev := Some(l))] else a
  }

  /**
   * mergeWithRightInternal / mergeWithLeftInternal: the left router absorbs
   * the separator and the keys and children of the right one, whose children
   * are re-parented; the right router leaves the parent and the arena.
   */
  function MergeRouters<V>(nodes: Arena<V>, p: nat, i: nat): (a: Arena<V>)
    requires PairReady(nodes, p, i) && nodes[nodes[p].children[i]].kind != Leaf
    ensures a.Keys == nodes.Keys - {nodes[p].children[i + 1]}
    ensures a[nodes[p].children[i]].Size() == nodes[nodes[p].children[i]].Size() + nodes[nodes[p].children[i + 1]].Size() + 1
    ensures |a[nodes[p].children[i]].children| == |nodes[nodes[p].children[i]].children| + |nodes[nodes[p].children[i + 1]].children|
    ensures a[p].Size() == nodes[p].Size() - 1
  {
    var P := nodes[p];
    var l := P.children[i];
    var r := P.children[i + 1];
    var L := nodes[l];
    var R := nodes[r];
    (Reparent(nodes, R.children, l) - {r})
      [l := L.(keys := L.keys + [P.keys[i]] + R.keys, children := L.children + R.children)]
      [p := P.(keys := RemoveAt(P.keys, i), children := RemoveAt(P.children, i + 1))]
  }

  // ---------------------------------------------------------------------
  // Root collapse

  /**
   * An empty root with a child is dropped; its first child becomes the root,
   * with no parent, and is a Root page unless the tree is down to one level.
   */
  function Collapse<V>(nodes: Arena<V>, rt: nat, depth: int): (a: Arena<V>)
    requires rt in nodes && nodes[rt].children != [] && nodes[rt].children[0] in nodes
    requires nodes[rt].children[0] != rt
    ensures a.Keys == nodes.Keys - {rt}
    ensures a[nodes[rt].children[0]].parent == None
    ensures a[nodes[rt].children[0]].Size() == nodes[nodes[rt].children[0]].Size()
  {
    var c := nodes[rt].children[0];
    (nodes - {rt})[c := nodes[c].(parent := None, kind := if depth - 1 > 1 then Root else Leaf)]
  }
}
