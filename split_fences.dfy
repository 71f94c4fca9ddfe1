/**
 * A split keeps the search order: page x keeps the part of its range below
 * the separator, the new page n takes the rest, and the parent (or the new
 * root) hands them exactly those slots.
 */
module SplitFences {
  import opened Wrappers
  import opened Nodes
  import opened Shape
  import opened Split
  import opened Fences

  /** The ranges after splitting page x, whose keys are `keys`. */
  function SplitFence(fence: map<nat, Fence>, keys: seq<int>, x: nat, n: nat, r: nat, up: bool): (f: map<nat, Fence>)
    requires x in fence && |keys| >= 1 && x != n && x != r && n != r
    ensures x in f && n in f && f[x].hi == Some(keys[|keys| / 2]) && f[n].lo == Some(keys[|keys| / 2])
    ensures f[x].lo == fence[x].lo && f[n].hi == fence[x].hi
    ensures up ==> r in f && f[r] == Everything
    ensures forall id | id in fence && id != x && id != n && (up ==> id != r) :: id in f && f[id] == fence[id]
  {
    var F := fence[x];
    var sep := keys[|keys| / 2];
    var f := fence[x := Fence(F.lo, Some(sep))][n := Fence(Some(sep), F.hi)];
    if up then f[r := Everything] else f
  }

  /** The left half Y of page X keeps the lower part of X's range F. */
  lemma SplitLeftFits<V>(X: Node<V>, F: Fence, fence: map<nat, Fence>, f: map<nat, Fence>, Y: Node<V>)
    requires Fits(X, F, fence) && |X.keys| >= 2
    requires X.kind != Leaf ==>
      |X.children| == |X.keys| + 1 && forall c | c in X.children :: c in f && c in fence && f[c] == fence[c]
    requires Y.keys == X.keys[..|X.keys| / 2] && (Y.kind == Leaf <==> X.kind == Leaf)
    requires Y.kind != Leaf ==> Y.children == X.children[..|X.keys| / 2 + 1]
    ensures Fits(Y, Fence(F.lo, Some(X.keys[|X.keys| / 2])), f)
  {
    var mid := |X.keys| / 2;
    var G := Fence(F.lo, Some(X.keys[mid]));
    assert Within(X.keys[0], F) && X.keys[0] < X.keys[mid];
    forall j | 0 <= j < |Y.keys| ensures Within(Y.keys[j], G) {
      assert Within(X.keys[j], F) && X.keys[j] < X.keys[mid];
    }
    if X.kind != Leaf {
      forall t | 0 <= t < |Y.children| && t <= |Y.keys|
        ensures Y.children[t] in f && f[Y.children[t]] == Slot(Y.keys, G, t)
      {
        assert Y.children[t] == X.children[t];
      }
    }
  }

  /** The right half Y of page X takes the upper part of X's range F. */
  lemma SplitRightFits<V>(X: Node<V>, F: Fence, fence: map<nat, Fence>, f: map<nat, Fence>, Y: Node<V>)
    requires Fits(X, F, fence) && |X.keys| >= 2
    requires X.kind != Leaf ==>
      |X.children| == |X.keys| + 1 && forall c | c in X.children :: c in f && c in fence && f[c] == fence[c]
    requires (Y.kind == Leaf <==> X.kind == Leaf)
    requires Y.kind == Leaf ==> Y.keys == X.keys[|X.keys| / 2..]
    requires Y.kind != Leaf ==>
      Y.keys == X.keys[|X.keys| / 2 + 1..] && Y.children == X.children[|X.keys| / 2 + 1..]
    ensures Fits(Y, Fence(Some(X.keys[|X.keys| / 2]), F.hi), f)
  {
    var mid := |X.keys| / 2;
    var G := Fence(Some(X.keys[mid]), F.hi);
    assert Within(X.keys[mid], F);
    if X.kind == Leaf {
      forall j | 0 <= j < |Y.keys| ensures Within(Y.keys[j], G) {
        assert Within(X.keys[mid + j], F);
      }
    } else {
      forall j | 0 <= j < |Y.keys| ensures Within(Y.keys[j], G) {
        assert Within(X.keys[mid + 1 + j], F) && X.keys[mid] < X.keys[mid + 1 + j];
      }
      forall t | 0 <= t < |Y.children| && t <= |Y.keys|
        ensures Y.children[t] in f && f[Y.children[t]] == Slot(Y.keys, G, t)
      {
        assert Y.children[t] == X.children[mid + 1 + t];
      }
    }
  }

  /** Inserting a key between its neighbours keeps keys sorted. */
  lemma InsertSorted(keys: seq<int>, i: nat, k: int)
    requires Sorted(keys) && i <= |keys|
    requires i > 0 ==> keys[i - 1] < k
    requires i < |keys| ==> k < keys[i]
    ensures Sorted(InsertAt(keys, i, k))
  {
    var K := InsertAt(keys, i, k);
    forall u, v | 0 <= u < v < |K| ensures K[u] < K[v] {
      if u < i && v > i {
        assert keys[u] <= keys[i - 1];
      }
      if u == i && v > i {
        assert keys[i] <= keys[v - 1];
      }
    }
  }

  /** After the insertion, the children of P other than x and n keep their slots. */
  lemma InsertSlots(keys: seq<int>, children: seq<nat>, fp: Fence, fence: map<nat, Fence>, f: map<nat, Fence>,
                    i: nat, x: nat, n: nat, sep: int)
    requires |children| == |keys| + 1 && Distinct(children) && i < |children| && children[i] == x
    requires forall t | 0 <= t < |children| :: children[t] in fence && fence[children[t]] == Slot(keys, fp, t)
    requires forall c | c in children && c != x :: c in f && f[c] == fence[c]
    ensures var K := InsertAt(keys, i, sep);
      var C := InsertAt(children, i + 1, n);
      forall t | 0 <= t < |C| && t != i && t != i + 1 :: C[t] in f && f[C[t]] == Slot(K, fp, t)
  {
    var K := InsertAt(keys, i, sep);
    var C := InsertAt(children, i + 1, n);
    forall t | 0 <= t < |C| && t != i && t != i + 1 ensures C[t] in f && f[C[t]] == Slot(K, fp, t) {
      var t' := if t < i then t else t - 1;
      assert C[t] == children[t'];
      assert children[t'] != x;
    }
  }

  /** The parent P takes separator sep where x sat and hands x and n the two halves of x's slot. */
  lemma SplitParentFits<V>(P: Node<V>, fp: Fence, fence: map<nat, Fence>, f: map<nat, Fence>,
                           i: nat, x: nat, n: nat, sep: int, Y: Node<V>)
    requires Fits(P, fp, fence) && P.kind != Leaf && |P.children| == |P.keys| + 1 && Distinct(P.children)
    requires i < |P.children| && P.children[i] == x && n !in P.children
    requires Within(sep, fence[x]) && (fence[x].lo.Some? ==> fence[x].lo.value < sep)
    requires x in f && f[x] == Fence(fence[x].lo, Some(sep))
    requires n in f && f[n] == Fence(Some(sep), fence[x].hi)
    requires forall c | c in P.children && c != x :: c in f && f[c] == fence[c]
    requires Y.kind == P.kind && Y.keys == InsertAt(P.keys, i, sep) && Y.children == InsertAt(P.children, i + 1, n)
    ensures Fits(Y, fp, f)
  {
    var F := fence[x];
    assert F == Slot(P.keys, fp, i);
    SlotWithin(P.keys, fp, i, sep);
    InsertSorted(P.keys, i, sep);
    InsertSlots(P.keys, P.children, fp, fence, f, i, x, n, sep);
    var K := Y.keys;
    forall j | 0 <= j < |K| ensures Within(K[j], fp) {
      if j != i {
        assert K[j] == P.keys[if j < i then j else j - 1];
      }
    }
  }

  /** A new root holding sep alone hands x the keys below it and n the rest. */
  lemma SplitRootFits<V>(f: map<nat, Fence>, x: nat, n: nat, sep: int, Y: Node<V>)
    requires x in f && f[x] == Fence(None, Some(sep)) && n in f && f[n] == Fence(Some(sep), None)
    requires Y.kind != Leaf && Y.keys == [sep] && Y.children == [x, n]
    ensures Fits(Y, Everything, f)
  {
  }

  /** Y and Z are the left and right halves of page X as splitNode makes them. */
  ghost predicate Halves<V>(X: Node<V>, Y: Node<V>, Z: Node<V>)
    requires |X.keys| >= 1 && (X.kind != Leaf ==> |X.children| == |X.keys| + 1)
  {
    var mid := |X.keys| / 2;
    && Y.keys == X.keys[..mid] && (Y.kind == Leaf <==> X.kind == Leaf)
    && (Y.kind != Leaf ==> Y.children == X.children[..mid + 1])
    && (Z.kind == Leaf <==> X.kind == Leaf)
    && (Z.kind == Leaf ==> Z.keys == X.keys[mid..])
    && (Z.kind != Leaf ==> Z.keys == X.keys[mid + 1..] && Z.children == X.children[mid + 1..])
  }

  /** What a split does to the keys and children of the pages it rewrites. */
  lemma SplitShapes<V>(nodes: Arena<V>, a: Arena<V>, x: nat, n: nat, r: nat)
    requires SplitReady(nodes, x) && n !in nodes && r !in nodes && n != r
    requires SplitOutcome(nodes, a, x, n, r)
    ensures x in a && n in a && Halves(nodes[x], a[x], a[n])
    ensures nodes[x].parent.None? ==>
      && r in a && a[r].kind != Leaf && a[r].keys == [nodes[x].keys[|nodes[x].keys| / 2]] && a[r].children == [x, n]
    ensures nodes[x].parent.Some? ==>
      var p := nodes[x].parent.value;
      var P := nodes[p];
      && p in a && a[p].kind == P.kind
      && a[p].keys == InsertAt(P.keys, IndexOfChild(P.children, x), nodes[x].keys[|nodes[x].keys| / 2])
      && a[p].children == InsertAt(P.children, IndexOfChild(P.children, x) + 1, n)
  {
  }

  /** The two halves of a split are fenced with the ranges of SplitFence. */
  lemma SplitHalvesFenced<V>(nodes: Arena<V>, fence: map<nat, Fence>, a: Arena<V>, x: nat, n: nat, r: nat, up: bool)
    requires AllFenced(nodes, fence)
    requires SplitReady(nodes, x) && n !in nodes && r !in nodes && n != r && |nodes[x].keys| >= 2
    requires x in a && n in a && Halves(nodes[x], a[x], a[n])
    ensures var f := SplitFence(fence, nodes[x].keys, x, n, r, up);
      PageFenced(a, f, x) && PageFenced(a, f, n)
  {
    var X := nodes[x];
    var f := SplitFence(fence, X.keys, x, n, r, up);
    assert PageFenced(nodes, fence, x);
    var F := fence[x];
    if X.kind != Leaf {
      forall c | c in X.children ensures c in f && c in fence && f[c] == fence[c] {
        var k :| 0 <= k < |X.children| && X.children[k] == c;
      }
    }
    SplitLeftFits(X, F, fence, f, a[x]);
    SplitRightFits(X, F, fence, f, a[n]);
  }

  /** The page above a split, the parent or the new root, is fenced with the ranges of SplitFence. */
  lemma SplitTopFenced<V>(nodes: Arena<V>, fence: map<nat, Fence>, a: Arena<V>, x: nat, n: nat, r: nat)
    requires AllFenced(nodes, fence) && ParentsOk(nodes)
    requires SplitReady(nodes, x) && n !in nodes && r !in nodes && n != r && |nodes[x].keys| >= 2
    requires nodes[x].parent.None? ==>
      && fence[x] == Everything
      && r in a && a[r].kind != Leaf && a[r].keys == [nodes[x].keys[|nodes[x].keys| / 2]] && a[r].children == [x, n]
    requires nodes[x].parent.Some? ==>
      var p := nodes[x].parent.value;
      var P := nodes[p];
      && P.kind != Leaf && Distinct(P.children)
      && p in a && a[p].kind == P.kind
      && a[p].keys == InsertAt(P.keys, IndexOfChild(P.children, x), nodes[x].keys[|nodes[x].keys| / 2])
      && a[p].children == InsertAt(P.children, IndexOfChild(P.children, x) + 1, n)
    ensures var up := nodes[x].parent.None?;
      var f := SplitFence(fence, nodes[x].keys, x, n, r, up);
      && (up ==> PageFenced(a, f, r))
      && (!up ==> PageFenced(a, f, nodes[x].parent.value))
  {
    var X := nodes[x];
    var up := X.parent.None?;
    var f := SplitFence(fence, X.keys, x, n, r, up);
    var sep := X.keys[|X.keys| / 2];
    if up {
      SplitRootFits(f, x, n, sep, a[r]);
    } else {
      var p := X.parent.value;
      var P := nodes[p];
      assert PageFenced(nodes, fence, p) && PageFenced(nodes, fence, x);
      var F := fence[x];
      forall c | c in P.children && c != x ensures c in f && f[c] == fence[c] {
        var k :| 0 <= k < |P.children| && P.children[k] == c;
      }
      assert Within(X.keys[0], F) && X.keys[0] < sep && Within(sep, F);
      SplitParentFits(P, fence[p], fence, f, IndexOfChild(P.children, x), x, n, sep, a[p]);
    }
  }

  /** Every other page keeps its kind, keys and children. */
  lemma SplitUntouched<V>(nodes: Arena<V>, a: Arena<V>, x: nat, n: nat, r: nat, top: nat)
    requires SplitReady(nodes, x) && n !in nodes && r !in nodes && n != r
    requires SplitOutcome(nodes, a, x, n, r)
    requires top == if nodes[x].parent.None? then r else nodes[x].parent.value
    ensures forall id | id in a && id != x && id != n && id != top ::
      id in nodes && a[id].kind == nodes[id].kind && a[id].keys == nodes[id].keys && a[id].children == nodes[id].children
  {
    var X := nodes[x];
    var mid := |X.keys| / 2;
    var moved := if X.kind == Leaf then [] else X.children[mid + 1..];
    var m := if X.kind == Leaf then X.next else None;
    forall id | id in a && id != x && id != n && id != top
      ensures id in nodes && a[id].kind == nodes[id].kind && a[id].keys == nodes[id].keys
        && a[id].children == nodes[id].children
    {
      if id in moved {
        assert a[id] == nodes[id].(parent := Some(n));
      } else if Some(id) == m {
        assert a[id] == nodes[id].(prev := Some(n));
      } else {
        assert a[id] == nodes[id];
      }
    }
  }

  /**
   * splitNode keeps the search order: with the ranges of SplitFence, every
   * page of the new arena is fenced and the root still owns every key.
   */
  lemma SplitFenced<V>(nodes: Arena<V>, fence: map<nat, Fence>, root: nat, a: Arena<V>, x: nat, n: nat, r: nat)
    requires Fenced(nodes, fence, root) && ParentsOk(nodes) && root in nodes
    requires SplitReady(nodes, x) && n !in nodes && r !in nodes && n != r
    requires |nodes[x].keys| >= 2 && SplitOutcome(nodes, a, x, n, r)
    requires nodes[x].parent.None? <==> x == root
    requires nodes[x].parent.Some? ==>
      nodes[nodes[x].parent.value].kind != Leaf && Distinct(nodes[nodes[x].parent.value].children)
    ensures var up := nodes[x].parent.None?;
      Fenced(a, SplitFence(fence, nodes[x].keys, x, n, r, up), if up then r else root)
  {
    var X := nodes[x];
    var up := X.parent.None?;
    var f := SplitFence(fence, X.keys, x, n, r, up);
    var top: nat := if up then r else X.parent.value;
    SplitShapes(nodes, a, x, n, r);
    SplitHalvesFenced(nodes, fence, a, x, n, r, up);
    SplitTopFenced(nodes, fence, a, x, n, r);
    SplitUntouched(nodes, a, x, n, r, top);
    FrameThree(nodes, fence, a, f, x, n, top);
  }
}
