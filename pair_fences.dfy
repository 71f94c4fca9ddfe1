/**
 * The repairs of remove keep the search order. A borrow moves the separator
 * between the two siblings, so the left one's range now ends and the right
 * one's range now starts at the new separator; a merge gives the surviving
 * page the union of both ranges; a collapse hands the root's range, all
 * keys, to its only child, which already owned it.
 */
module PairFences {
  import opened Wrappers
  import opened Nodes
  import opened Shape
  import opened Rebalance
  import opened Fences
  import opened RemoveProof
  import opened CollapseProof

  /** The ranges after the separator between siblings l and r became s. */
  function Resep(fence: map<nat, Fence>, l: nat, r: nat, s: int): (f: map<nat, Fence>)
    requires l in fence && r in fence && l != r
    ensures l in f && f[l] == Fence(fence[l].lo, Some(s)) && r in f && f[r] == Fence(Some(s), fence[r].hi)
    ensures forall id | id in fence && id != l && id != r :: id in f && f[id] == fence[id]
  {
    fence[l := Fence(fence[l].lo, Some(s))][r := Fence(Some(s), fence[r].hi)]
  }

  /** The ranges after sibling l absorbed sibling r. */
  function Join(fence: map<nat, Fence>, l: nat, r: nat): (f: map<nat, Fence>)
    requires l in fence && r in fence
    ensures l in f && f[l] == Fence(fence[l].lo, fence[r].hi)
    ensures forall id | id in fence && id != l :: id in f && f[id] == fence[id]
  {
    fence[l := Fence(fence[l].lo, fence[r].hi)]
  }

  // ---------------------------------------------------------------------
  // The parent

  /** The parent P, with separator i replaced by s, hands its two pages the ranges of Resep. */
  lemma ResepParentFits<V>(P: Node<V>, fp: Fence, fence: map<nat, Fence>, f: map<nat, Fence>, i: nat, s: int, Y: Node<V>)
    requires Fits(P, fp, fence) && P.kind != Leaf && |P.children| == |P.keys| + 1 && Distinct(P.children)
    requires i + 1 < |P.children|
    requires var l, r := P.children[i], P.children[i + 1];
      && l in fence && r in fence && Strictly(s, Fence(fence[l].lo, fence[r].hi))
      && l in f && f[l] == Fence(fence[l].lo, Some(s)) && r in f && f[r] == Fence(Some(s), fence[r].hi)
    requires forall t | 0 <= t < |P.children| && t != i && t != i + 1 ::
      P.children[t] in f && f[P.children[t]] == fence[P.children[t]]
    requires Y.kind == P.kind && Y.keys == P.keys[i := s] && Y.children == P.children
    ensures Fits(Y, fp, f)
  {
    var l, r := P.children[i], P.children[i + 1];
    assert fence[l] == Slot(P.keys, fp, i) && fence[r] == Slot(P.keys, fp, i + 1);
    var K := Y.keys;
    forall u, v | 0 <= u < v < |K| ensures K[u] < K[v] {
      if u < i && v == i {
        assert P.keys[u] <= P.keys[i - 1];
      }
      if u == i && v > i {
        assert P.keys[i + 1] <= P.keys[v];
      }
    }
    assert Within(s, fp) by {
      if i > 0 {
        assert Within(P.keys[i - 1], fp);
      }
      if i + 1 < |P.keys| {
        assert Within(P.keys[i + 1], fp);
      }
    }
    assert forall j | 0 <= j < |K| && j != i :: K[j] == P.keys[j];
  }

  /** Dropping a key keeps the keys sorted and inside the range. */
  lemma RemoveAtFits(keys: seq<int>, F: Fence, i: nat)
    requires Sorted(keys) && i < |keys| && forall j | 0 <= j < |keys| :: Within(keys[j], F)
    ensures Sorted(RemoveAt(keys, i)) && forall j | 0 <= j < |RemoveAt(keys, i)| :: Within(RemoveAt(keys, i)[j], F)
  {
    var K := RemoveAt(keys, i);
    forall u, v | 0 <= u < v < |K| ensures K[u] < K[v] {
      var u', v' := if u < i then u else u + 1, if v < i then v else v + 1;
      assert K[u] == keys[u'] && K[v] == keys[v'] && u' < v';
    }
    forall j | 0 <= j < |K| ensures Within(K[j], F) {
      assert K[j] == keys[if j < i then j else j + 1];
    }
  }

  /** The parent P, with separator i and child i + 1 dropped, hands the survivor the range of Join. */
  lemma JoinParentFits<V>(P: Node<V>, fp: Fence, fence: map<nat, Fence>, f: map<nat, Fence>, i: nat, Y: Node<V>)
    requires Fits(P, fp, fence) && P.kind != Leaf && |P.children| == |P.keys| + 1 && Distinct(P.children)
    requires i + 1 < |P.children|
    requires var l, r := P.children[i], P.children[i + 1];
      l in fence && r in fence && l in f && f[l] == Fence(fence[l].lo, fence[r].hi)
    requires forall t | 0 <= t < |P.children| && t != i && t != i + 1 ::
      P.children[t] in f && f[P.children[t]] == fence[P.children[t]]
    requires Y.kind == P.kind && Y.keys == RemoveAt(P.keys, i) && Y.children == RemoveAt(P.children, i + 1)
    ensures Fits(Y, fp, f)
  {
    RemoveAtFits(P.keys, fp, i);
    var K := Y.keys;
    var C := Y.children;
    forall t | 0 <= t < |C| && t <= |K| ensures C[t] in f && f[C[t]] == Slot(K, fp, t) {
      if t > i {
        assert C[t] == P.children[t + 1];
        assert fence[C[t]] == Slot(P.keys, fp, t + 1);
        assert K[t - 1] == P.keys[t];
        assert t < |K| ==> K[t] == P.keys[t + 1];
      } else if t < i {
        assert C[t] == P.children[t];
        assert fence[C[t]] == Slot(P.keys, fp, t);
      } else {
        assert fence[P.children[i]] == Slot(P.keys, fp, i) && fence[P.children[i + 1]] == Slot(P.keys, fp, i + 1);
      }
    }
  }

  // ---------------------------------------------------------------------
  // The siblings: L owns Fl, R owns Fr, and sep separates them

  /** borrowFromRightLeaf: L takes R's first key, and R's second key becomes the separator. */
  lemma ShiftLeftLeafFits<V>(L: Node<V>, R: Node<V>, Fl: Fence, Fr: Fence, sep: int, fence: map<nat, Fence>,
                             f: map<nat, Fence>, L': Node<V>, R': Node<V>)
    requires Fits(L, Fl, fence) && Fits(R, Fr, fence) && Fl.hi == Some(sep) && Fr.lo == Some(sep)
    requires |R.keys| >= 2
    requires L'.kind == Leaf && L'.keys == L.keys + [R.keys[0]] && R'.kind == Leaf && R'.keys == R.keys[1..]
    ensures Strictly(R.keys[1], Fence(Fl.lo, Fr.hi))
    ensures Fits(L', Fence(Fl.lo, Some(R.keys[1])), f) && Fits(R', Fence(Some(R.keys[1]), Fr.hi), f)
  {
    assert Within(R.keys[0], Fr) && Within(R.keys[1], Fr);
    forall j | 0 <= j < |L'.keys| ensures Within(L'.keys[j], Fence(Fl.lo, Some(R.keys[1]))) && L'.keys[j] <= R.keys[0] {
      if j < |L.keys| {
        assert Within(L.keys[j], Fl);
      }
    }
    forall u, v | 0 <= u < v < |L'.keys| ensures L'.keys[u] < L'.keys[v] {
      if v == |L.keys| {
        assert Within(L.keys[u], Fl);
      }
    }
    forall j | 0 <= j < |R'.keys| ensures Within(R'.keys[j], Fence(Some(R.keys[1]), Fr.hi)) {
      assert Within(R.keys[j + 1], Fr);
    }
  }

  /** borrowFromLeftLeaf: R takes L's last key, which becomes the separator. */
  lemma ShiftRightLeafFits<V>(L: Node<V>, R: Node<V>, Fl: Fence, Fr: Fence, sep: int, fence: map<nat, Fence>,
                              f: map<nat, Fence>, L': Node<V>, R': Node<V>)
    requires Fits(L, Fl, fence) && Fits(R, Fr, fence) && Fl.hi == Some(sep) && Fr.lo == Some(sep)
    requires |L.keys| >= 2
    requires var k := |L.keys| - 1;
      L'.kind == Leaf && L'.keys == L.keys[..k] && R'.kind == Leaf && R'.keys == [L.keys[k]] + R.keys
    ensures Strictly(L.keys[|L.keys| - 1], Fence(Fl.lo, Fr.hi))
    ensures var s := L.keys[|L.keys| - 1];
      Fits(L', Fence(Fl.lo, Some(s)), f) && Fits(R', Fence(Some(s), Fr.hi), f)
  {
    var k := |L.keys| - 1;
    var s := L.keys[k];
    assert Within(L.keys[0], Fl) && Within(s, Fl) && L.keys[0] < s;
    forall j | 0 <= j < |L'.keys| ensures Within(L'.keys[j], Fence(Fl.lo, Some(s))) {
      assert Within(L.keys[j], Fl);
    }
    forall j | 0 <= j < |R'.keys| ensures Within(R'.keys[j], Fence(Some(s), Fr.hi)) && s <= R'.keys[j] {
      if j > 0 {
        assert Within(R.keys[j - 1], Fr);
      }
    }
    forall u, v | 0 <= u < v < |R'.keys| ensures R'.keys[u] < R'.keys[v] {
      if u == 0 {
        assert Within(R.keys[v - 1], Fr);
      }
    }
  }

  /** borrowFromRightInternal: L takes sep and R's first child; R's first key becomes the separator. */
  lemma ShiftLeftRouterFits<V>(L: Node<V>, R: Node<V>, Fl: Fence, Fr: Fence, sep: int, fence: map<nat, Fence>,
                               f: map<nat, Fence>, L': Node<V>, R': Node<V>)
    requires Fits(L, Fl, fence) && Fits(R, Fr, fence) && Fl.hi == Some(sep) && Fr.lo == Some(sep)
    requires L.kind != Leaf && R.kind != Leaf && |L.children| == |L.keys| + 1 && |R.children| == |R.keys| + 1
    requires |R.keys| >= 1 && sep < R.keys[0]
    requires forall c | c in L.children || c in R.children :: c in f && c in fence && f[c] == fence[c]
    requires L'.kind != Leaf && L'.keys == L.keys + [sep] && L'.children == L.children + [R.children[0]]
    requires R'.kind != Leaf && R'.keys == R.keys[1..] && R'.children == R.children[1..]
    ensures Strictly(R.keys[0], Fence(Fl.lo, Fr.hi))
    ensures Fits(L', Fence(Fl.lo, Some(R.keys[0])), f) && Fits(R', Fence(Some(R.keys[0]), Fr.hi), f)
  {
    var s := R.keys[0];
    var G := Fence(Fl.lo, Some(s));
    var H := Fence(Some(s), Fr.hi);
    assert Within(s, Fr);
    forall j | 0 <= j < |L'.keys| ensures Within(L'.keys[j], G) && L'.keys[j] <= sep {
      if j < |L.keys| {
        assert Within(L.keys[j], Fl);
      }
    }
    forall u, v | 0 <= u < v < |L'.keys| ensures L'.keys[u] < L'.keys[v] {
      if v == |L.keys| {
        assert Within(L.keys[u], Fl);
      }
    }
    forall t | 0 <= t < |L'.children| && t <= |L'.keys| ensures L'.children[t] in f && f[L'.children[t]] == Slot(L'.keys, G, t) {
      if t <= |L.keys| {
        assert L'.children[t] == L.children[t];
        assert fence[L.children[t]] == Slot(L.keys, Fl, t);
      } else {
        assert L'.children[t] == R.children[0];
        assert fence[R.children[0]] == Slot(R.keys, Fr, 0);
      }
    }
    forall j | 0 <= j < |R'.keys| ensures Within(R'.keys[j], H) {
      assert Within(R.keys[j + 1], Fr);
    }
    forall t | 0 <= t < |R'.children| && t <= |R'.keys| ensures R'.children[t] in f && f[R'.children[t]] == Slot(R'.keys, H, t) {
      assert R'.children[t] == R.children[t + 1];
      assert fence[R.children[t + 1]] == Slot(R.keys, Fr, t + 1);
    }
  }

  /** borrowFromLeftInternal: R takes sep and L's last child; L's last key becomes the separator. */
  lemma ShiftRightRouterFits<V>(L: Node<V>, R: Node<V>, Fl: Fence, Fr: Fence, sep: int, fence: map<nat, Fence>,
                                f: map<nat, Fence>, L': Node<V>, R': Node<V>)
    requires Fits(L, Fl, fence) && Fits(R, Fr, fence) && Fl.hi == Some(sep) && Fr.lo == Some(sep)
    requires L.kind != Leaf && R.kind != Leaf && |L.children| == |L.keys| + 1 && |R.children| == |R.keys| + 1
    requires |L.keys| >= 1 && (Fl.lo.Some? ==> Fl.lo.value < L.keys[0]) && (|R.keys| >= 1 ==> sep < R.keys[0])
    requires forall c | c in L.children || c in R.children :: c in f && c in fence && f[c] == fence[c]
    requires var k := |L.keys| - 1;
      && L'.kind != Leaf && L'.keys == L.keys[..k] && L'.children == L.children[..k + 1]
      && R'.kind != Leaf && R'.keys == [sep] + R.keys && R'.children == [L.children[k + 1]] + R.children
    ensures Strictly(L.keys[|L.keys| - 1], Fence(Fl.lo, Fr.hi))
    ensures var s := L.keys[|L.keys| - 1];
      Fits(L', Fence(Fl.lo, Some(s)), f) && Fits(R', Fence(Some(s), Fr.hi), f)
  {
    var k := |L.keys| - 1;
    var s := L.keys[k];
    var G := Fence(Fl.lo, Some(s));
    var H := Fence(Some(s), Fr.hi);
    assert Within(s, Fl) && L.keys[0] <= s;
    forall j | 0 <= j < |L'.keys| ensures Within(L'.keys[j], G) {
      assert Within(L.keys[j], Fl);
    }
    forall t | 0 <= t < |L'.children| && t <= |L'.keys| ensures L'.children[t] in f && f[L'.children[t]] == Slot(L'.keys, G, t) {
      assert L'.children[t] == L.children[t];
      assert fence[L.children[t]] == Slot(L.keys, Fl, t);
    }
    forall j | 0 <= j < |R'.keys| ensures Within(R'.keys[j], H) && sep <= R'.keys[j] {
      if j > 0 {
        assert Within(R.keys[j - 1], Fr);
      }
    }
    forall u, v | 0 <= u < v < |R'.keys| ensures R'.keys[u] < R'.keys[v] {
      if u == 0 {
        assert R.keys[0] <= R.keys[v - 1];
      }
    }
    forall t | 0 <= t < |R'.children| && t <= |R'.keys| ensures R'.children[t] in f && f[R'.children[t]] == Slot(R'.keys, H, t) {
      if t == 0 {
        assert fence[L.children[k + 1]] == Slot(L.keys, Fl, k + 1);
      } else {
        assert R'.children[t] == R.children[t - 1];
        assert fence[R.children[t - 1]] == Slot(R.keys, Fr, t - 1);
      }
    }
  }

  /** mergeWithRightLeaf: L takes all of R's keys and both ranges. */
  lemma MergeLeavesFits<V>(L: Node<V>, R: Node<V>, Fl: Fence, Fr: Fence, sep: int, fence: map<nat, Fence>,
                           f: map<nat, Fence>, L': Node<V>)
    requires Fits(L, Fl, fence) && Fits(R, Fr, fence) && Fl.hi == Some(sep) && Fr.lo == Some(sep)
    requires L'.kind == Leaf && L'.keys == L.keys + R.keys
    ensures Fits(L', Fence(Fl.lo, Fr.hi), f)
  {
    var G := Fence(Fl.lo, Fr.hi);
    forall j | 0 <= j < |L'.keys| ensures Within(L'.keys[j], G) && (j < |L.keys| <==> L'.keys[j] < sep) {
      if j < |L.keys| {
        assert Within(L.keys[j], Fl);
      } else {
        assert Within(R.keys[j - |L.keys|], Fr);
      }
    }
  }

  /** mergeWithRightInternal: L takes sep, then R's keys and children, and both ranges. */
  lemma MergeRoutersFits<V>(L: Node<V>, R: Node<V>, Fl: Fence, Fr: Fence, sep: int, fence: map<nat, Fence>,
                            f: map<nat, Fence>, L': Node<V>)
    requires Fits(L, Fl, fence) && Fits(R, Fr, fence) && Fl.hi == Some(sep) && Fr.lo == Some(sep)
    requires L.kind != Leaf && R.kind != Leaf && |L.children| == |L.keys| + 1 && |R.children| == |R.keys| + 1
    requires |R.keys| >= 1 ==> sep < R.keys[0]
    requires forall c | c in L.children || c in R.children :: c in f && c in fence && f[c] == fence[c]
    requires L'.kind != Leaf && L'.keys == L.keys + [sep] + R.keys && L'.children == L.children + R.children
    ensures Fits(L', Fence(Fl.lo, Fr.hi), f)
  {
    var G := Fence(Fl.lo, Fr.hi);
    var n := |L.keys|;
    var K := L'.keys;
    forall j | 0 <= j < |K| ensures Within(K[j], G) && (j < n ==> K[j] < sep) && (j > n ==> K[j] > sep) {
      if j < n {
        assert Within(L.keys[j], Fl);
      } else if j > n {
        assert Within(R.keys[j - n - 1], Fr) && R.keys[0] <= R.keys[j - n - 1];
      }
    }
    forall u, v | 0 <= u < v < |K| ensures K[u] < K[v] {
      if v < n {
        assert K[u] == L.keys[u] && K[v] == L.keys[v];
      } else if u > n {
        assert K[u] == R.keys[u - n - 1] && K[v] == R.keys[v - n - 1];
      }
    }
    forall t | 0 <= t < |L'.children| && t <= |K| ensures L'.children[t] in f && f[L'.children[t]] == Slot(K, G, t) {
      if t <= n {
        assert L'.children[t] == L.children[t];
        assert fence[L.children[t]] == Slot(L.keys, Fl, t);
      } else {
        assert L'.children[t] == R.children[t - n - 1];
        assert fence[R.children[t - n - 1]] == Slot(R.keys, Fr, t - n - 1);
      }
    }
  }

  // ---------------------------------------------------------------------
  // The arena

  /** The two siblings own the ranges on either side of their separator. */
  lemma PairRanges<V>(nodes: Arena<V>, fence: map<nat, Fence>, p: nat, i: nat)
    requires AllFenced(nodes, fence) && PairReady(nodes, p, i) && nodes[p].kind != Leaf
    ensures var P := nodes[p];
      && P.children[i] in fence && fence[P.children[i]].hi == Some(P.keys[i])
      && P.children[i + 1] in fence && fence[P.children[i + 1]].lo == Some(P.keys[i])
      && Fits(nodes[P.children[i]], fence[P.children[i]], fence)
      && Fits(nodes[P.children[i + 1]], fence[P.children[i + 1]], fence)
  {
    var P := nodes[p];
    assert PageFenced(nodes, fence, p);
    assert PageFenced(nodes, fence, P.children[i]) && PageFenced(nodes, fence, P.children[i + 1]);
  }

  /** The pages of a pair's subtrees are in the arena, below neither sibling's own range change. */
  lemma ChildrenKept<V>(nodes: Arena<V>, fence: map<nat, Fence>, f: map<nat, Fence>, p: nat, i: nat)
    requires AllFenced(nodes, fence) && PairReady(nodes, p, i)
    requires forall id | id in fence && id != nodes[p].children[i] && id != nodes[p].children[i + 1] :: id in f && f[id] == fence[id]
    ensures var L, R := nodes[nodes[p].children[i]], nodes[nodes[p].children[i + 1]];
      forall c | c in L.children || c in R.children :: c in f && c in fence && f[c] == fence[c]
  {
    var l, r := nodes[p].children[i], nodes[p].children[i + 1];
    forall c | c in nodes[l].children || c in nodes[r].children ensures c in f && c in fence && f[c] == fence[c] {
      if c in nodes[l].children {
        var k :| 0 <= k < |nodes[l].children| && nodes[l].children[k] == c;
        assert Outside(nodes, c, p, l, r);
      } else {
        var k :| 0 <= k < |nodes[r].children| && nodes[r].children[k] == c;
        assert Outside(nodes, c, p, l, r);
      }
    }
  }

  /** The parent's other children keep their ranges. */
  lemma OthersKept<V>(nodes: Arena<V>, fence: map<nat, Fence>, f: map<nat, Fence>, p: nat, i: nat)
    requires AllFenced(nodes, fence) && PairReady(nodes, p, i) && nodes[p].kind != Leaf && Distinct(nodes[p].children)
    requires forall id | id in fence && id != nodes[p].children[i] && id != nodes[p].children[i + 1] :: id in f && f[id] == fence[id]
    ensures var C := nodes[p].children;
      forall t | 0 <= t < |C| && t != i && t != i + 1 :: C[t] in f && f[C[t]] == fence[C[t]]
  {
    assert PageFenced(nodes, fence, p);
  }

  lemma ShiftLeftLeafFenced<V>(nodes: Arena<V>, fence: map<nat, Fence>, p: nat, i: nat)
    requires AllFenced(nodes, fence) && ParentsOk(nodes) && PairReady(nodes, p, i) && Distinct(nodes[p].children)
    requires nodes[p].kind != Leaf && nodes[nodes[p].children[i]].kind == Leaf && |nodes[nodes[p].children[i + 1]].keys| >= 2
    ensures var l, r := nodes[p].children[i], nodes[p].children[i + 1];
      AllFenced(ShiftLeftLeaf(nodes, p, i), Resep(fence, l, r, nodes[r].keys[1]))
  {
    var P := nodes[p];
    var l, r := P.children[i], P.children[i + 1];
    var L, R := nodes[l], nodes[r];
    var s := R.keys[1];
    var f := Resep(fence, l, r, s);
    var L', R' := L.(keys := L.keys + [R.keys[0]], vals := L.vals + [R.vals[0]]), R.(keys := R.keys[1..], vals := R.vals[1..]);
    var P' := P.(keys := P.keys[i := s]);
    var a := ShiftLeftLeaf(nodes, p, i);
    assert a == nodes[l := L'][r := R'][p := P'];
    PairRanges(nodes, fence, p, i);
    ShiftLeftLeafFits(L, R, fence[l], fence[r], P.keys[i], fence, f, L', R');
    assert PageFenced(nodes, fence, p);
    OthersKept(nodes, fence, f, p, i);
    ResepParentFits(P, fence[p], fence, f, i, s, P');
    FrameThree(nodes, fence, a, f, l, r, p);
  }

  lemma ShiftRightLeafFenced<V>(nodes: Arena<V>, fence: map<nat, Fence>, p: nat, i: nat)
    requires AllFenced(nodes, fence) && ParentsOk(nodes) && PairReady(nodes, p, i) && Distinct(nodes[p].children)
    requires nodes[p].kind != Leaf && nodes[nodes[p].children[i]].kind == Leaf && |nodes[nodes[p].children[i]].keys| >= 2
    ensures var l, r := nodes[p].children[i], nodes[p].children[i + 1];
      AllFenced(ShiftRightLeaf(nodes, p, i), Resep(fence, l, r, nodes[l].keys[|nodes[l].keys| - 1]))
  {
    var P := nodes[p];
    var l, r := P.children[i], P.children[i + 1];
    var L, R := nodes[l], nodes[r];
    var k := |L.keys| - 1;
    var s := L.keys[k];
    var f := Resep(fence, l, r, s);
    var L', R' := L.(keys := L.keys[..k], vals := L.vals[..k]), R.(keys := [L.keys[k]] + R.keys, vals := [L.vals[k]] + R.vals);
    var P' := P.(keys := P.keys[i := s]);
    var a := ShiftRightLeaf(nodes, p, i);
    assert a == nodes[l := L'][r := R'][p := P'];
    PairRanges(nodes, fence, p, i);
    ShiftRightLeafFits(L, R, fence[l], fence[r], P.keys[i], fence, f, L', R');
    assert PageFenced(nodes, fence, p);
    OthersKept(nodes, fence, f, p, i);
    ResepParentFits(P, fence[p], fence, f, i, s, P');
    FrameThree(nodes, fence, a, f, l, r, p);
  }

  /** A router shift rewrites l, r and p, and only re-parents c otherwise. */
  lemma RouterShiftFrame<V>(nodes: Arena<V>, a: Arena<V>, p: nat, l: nat, r: nat, c: nat)
    requires c in nodes && a.Keys == nodes.Keys
    requires forall id | id in a && id != l && id != r && id != p && id != c :: a[id] == nodes[id]
    requires c != l && c != r && c != p ==> a[c] == nodes[c].(parent := a[c].parent)
    ensures forall id | id in a && id != l && id != r && id != p ::
      id in nodes && a[id].kind == nodes[id].kind && a[id].keys == nodes[id].keys && a[id].children == nodes[id].children
  {
  }

  lemma ShiftLeftRouterFenced<V>(nodes: Arena<V>, fence: map<nat, Fence>, p: nat, i: nat)
    requires AllFenced(nodes, fence) && ParentsOk(nodes) && PairReady(nodes, p, i) && Distinct(nodes[p].children)
    requires nodes[p].kind != Leaf && nodes[nodes[p].children[i]].kind != Leaf && |nodes[nodes[p].children[i + 1]].keys| >= 1
    ensures var l, r := nodes[p].children[i], nodes[p].children[i + 1];
      AllFenced(ShiftLeftRouter(nodes, p, i), Resep(fence, l, r, nodes[r].keys[0]))
  {
    var P := nodes[p];
    var l, r := P.children[i], P.children[i + 1];
    var L, R := nodes[l], nodes[r];
    var s := R.keys[0];
    var c := R.children[0];
    var f := Resep(fence, l, r, s);
    var L' := L.(keys := L.keys + [P.keys[i]], children := L.children + [c]);
    var R' := R.(keys := R.keys[1..], children := R.children[1..]);
    var P' := P.(keys := P.keys[i := s]);
    var a := ShiftLeftRouter(nodes, p, i);
    assert Outside(nodes, c, p, l, r);
    RouterShiftFrame(nodes, a, p, l, r, c);
    assert a[l] == L' && a[r] == R' && a[p] == P';
    PairRanges(nodes, fence, p, i);
    FirstSeparatorAbove(nodes, fence, r);
    ChildrenKept(nodes, fence, f, p, i);
    ShiftLeftRouterFits(L, R, fence[l], fence[r], P.keys[i], fence, f, L', R');
    assert PageFenced(nodes, fence, p);
    OthersKept(nodes, fence, f, p, i);
    ResepParentFits(P, fence[p], fence, f, i, s, P');
    FrameThree(nodes, fence, a, f, l, r, p);
  }

  lemma ShiftRightRouterFenced<V>(nodes: Arena<V>, fence: map<nat, Fence>, p: nat, i: nat)
    requires AllFenced(nodes, fence) && ParentsOk(nodes) && PairReady(nodes, p, i) && Distinct(nodes[p].children)
    requires nodes[p].kind != Leaf && nodes[nodes[p].children[i]].kind != Leaf && |nodes[nodes[p].children[i]].keys| >= 1
    ensures var l, r := nodes[p].children[i], nodes[p].children[i + 1];
      AllFenced(ShiftRightRouter(nodes, p, i), Resep(fence, l, r, nodes[l].keys[|nodes[l].keys| - 1]))
  {
    var P := nodes[p];
    var l, r := P.children[i], P.children[i + 1];
    var L, R := nodes[l], nodes[r];
    var k := |L.keys| - 1;
    var s := L.keys[k];
    var c := L.children[k + 1];
    var f := Resep(fence, l, r, s);
    var R' := R.(keys := [P.keys[i]] + R.keys, children := [c] + R.children);
    var L' := L.(keys := L.keys[..k], children := L.children[..k + 1]);
    var P' := P.(keys := P.keys[i := s]);
    ShiftRightRouterPages(nodes, fence, p, i, L', R', P');
    var a := ShiftRightRouter(nodes, p, i);
    assert Outside(nodes, c, p, l, r);
    RouterShiftFrame(nodes, a, p, l, r, c);
    assert a[l] == L' && a[r] == R' && a[p] == P';
    FrameThree(nodes, fence, a, f, l, r, p);
  }

  /** The three pages borrowFromLeftInternal rewrites fit their new ranges. */
  lemma ShiftRightRouterPages<V>(nodes: Arena<V>, fence: map<nat, Fence>, p: nat, i: nat, L': Node<V>, R': Node<V>, P': Node<V>)
    requires AllFenced(nodes, fence) && ParentsOk(nodes) && PairReady(nodes, p, i) && Distinct(nodes[p].children)
    requires nodes[p].kind != Leaf && nodes[nodes[p].children[i]].kind != Leaf && |nodes[nodes[p].children[i]].keys| >= 1
    requires var P := nodes[p]; var L, R := nodes[P.children[i]], nodes[P.children[i + 1]]; var k := |L.keys| - 1;
      && R' == R.(keys := [P.keys[i]] + R.keys, children := [L.children[k + 1]] + R.children)
      && L' == L.(keys := L.keys[..k], children := L.children[..k + 1])
      && P' == P.(keys := P.keys[i := L.keys[k]])
    ensures var P := nodes[p]; var l, r := P.children[i], P.children[i + 1];
      var f := Resep(fence, l, r, nodes[l].keys[|nodes[l].keys| - 1]);
      Fits(L', f[l], f) && Fits(R', f[r], f) && p in f && Fits(P', f[p], f)
  {
    var P := nodes[p];
    var l, r := P.children[i], P.children[i + 1];
    var L, R := nodes[l], nodes[r];
    var s := L.keys[|L.keys| - 1];
    var f := Resep(fence, l, r, s);
    PairRanges(nodes, fence, p, i);
    FirstSeparatorAbove(nodes, fence, l);
    assert Outside(nodes, R.children[0], p, l, r);
    if |R.keys| >= 1 {
      FirstSeparatorAbove(nodes, fence, r);
    }
    ChildrenKept(nodes, fence, f, p, i);
    ShiftRightRouterFits(L, R, fence[l], fence[r], P.keys[i], fence, f, L', R');
    assert PageFenced(nodes, fence, p);
    OthersKept(nodes, fence, f, p, i);
    ResepParentFits(P, fence[p], fence, f, i, s, P');
  }

  lemma MergeLeavesFenced<V>(nodes: Arena<V>, fence: map<nat, Fence>, p: nat, i: nat)
    requires AllFenced(nodes, fence) && ParentsOk(nodes) && PairReady(nodes, p, i) && Distinct(nodes[p].children)
    requires nodes[p].kind != Leaf && nodes[nodes[p].children[i]].kind == Leaf
    ensures AllFenced(MergeLeaves(nodes, p, i), Join(fence, nodes[p].children[i], nodes[p].children[i + 1]))
  {
    var P := nodes[p];
    var l, r := P.children[i], P.children[i + 1];
    var L, R := nodes[l], nodes[r];
    var f := Join(fence, l, r);
    var L' := L.(keys := L.keys + R.keys, vals := L.vals + R.vals, next := R.next);
    var P' := P.(keys := RemoveAt(P.keys, i), children := RemoveAt(P.children, i + 1));
    var b := (nodes - {r})[l := L'][p := P'];
    var a := MergeLeaves(nodes, p, i);
    if R.next.Some? {
      var m := R.next.value;
      assert Outside(nodes, m, p, l, r);
      assert a == b[m := nodes[m].(prev := Some(l))];
    } else {
      assert a == b;
    }
    assert a[l] == L' && a[p] == P';
    PairRanges(nodes, fence, p, i);
    MergeLeavesFits(L, R, fence[l], fence[r], P.keys[i], fence, f, L');
    assert PageFenced(nodes, fence, p);
    OthersKept(nodes, fence, f, p, i);
    JoinParentFits(P, fence[p], fence, f, i, P');
    FrameThree(nodes, fence, a, f, l, r, p);
  }

  lemma MergeRoutersFenced<V>(nodes: Arena<V>, fence: map<nat, Fence>, p: nat, i: nat)
    requires AllFenced(nodes, fence) && ParentsOk(nodes) && PairReady(nodes, p, i) && Distinct(nodes[p].children)
    requires nodes[p].kind != Leaf && nodes[nodes[p].children[i]].kind != Leaf
    ensures AllFenced(MergeRouters(nodes, p, i), Join(fence, nodes[p].children[i], nodes[p].children[i + 1]))
  {
    var P := nodes[p];
    var l, r := P.children[i], P.children[i + 1];
    var L, R := nodes[l], nodes[r];
    var f := Join(fence, l, r);
    var L' := L.(keys := L.keys + [P.keys[i]] + R.keys, children := L.children + R.children);
    var P' := P.(keys := RemoveAt(P.keys, i), children := RemoveAt(P.children, i + 1));
    var a := MergeRouters(nodes, p, i);
    assert a[l] == L' && a[p] == P';
    forall id | id in a && id != l && id != r && id != p
      ensures id in nodes && a[id].kind == nodes[id].kind && a[id].keys == nodes[id].keys && a[id].children == nodes[id].children
    {
    }
    PairRanges(nodes, fence, p, i);
    assert Outside(nodes, R.children[0], p, l, r);
    if |R.keys| >= 1 {
      FirstSeparatorAbove(nodes, fence, r);
    }
    ChildrenKept(nodes, fence, f, p, i);
    MergeRoutersFits(L, R, fence[l], fence[r], P.keys[i], fence, f, L');
    assert PageFenced(nodes, fence, p);
    OthersKept(nodes, fence, f, p, i);
    JoinParentFits(P, fence[p], fence, f, i, P');
    FrameThree(nodes, fence, a, f, l, r, p);
  }

  // ---------------------------------------------------------------------
  // The repairs as remove calls them

  /**
   * borrowFromRight keeps the search order: the left sibling's range now
   * ends, and the right sibling's begins, at the new separator.
   */
  lemma BorrowFromRightFenced<V>(nodes: Arena<V>, fence: map<nat, Fence>, root: nat, p: nat, i: nat)
    requires Fenced(nodes, fence, root) && ParentsOk(nodes) && root in nodes && nodes[root].parent.None?
    requires PairReady(nodes, p, i) && Distinct(nodes[p].children) && nodes[p].kind != Leaf
    requires |nodes[nodes[p].children[i + 1]].keys| >= 2
    ensures var a := BorrowFromRight(nodes, p, i);
      && p in a && i < |a[p].keys|
      && Fenced(a, Resep(fence, nodes[p].children[i], nodes[p].children[i + 1], a[p].keys[i]), root)
  {
    var l, r := nodes[p].children[i], nodes[p].children[i + 1];
    if nodes[l].kind == Leaf {
      ShiftLeftLeafFenced(nodes, fence, p, i);
    } else {
      ShiftLeftRouterFenced(nodes, fence, p, i);
    }
  }

  /** borrowFromLeft keeps the search order, in the same way. */
  lemma BorrowFromLeftFenced<V>(nodes: Arena<V>, fence: map<nat, Fence>, root: nat, p: nat, i: nat)
    requires Fenced(nodes, fence, root) && ParentsOk(nodes) && root in nodes && nodes[root].parent.None?
    requires PairReady(nodes, p, i) && Distinct(nodes[p].children) && nodes[p].kind != Leaf
    requires |nodes[nodes[p].children[i]].keys| >= 2
    ensures var a := BorrowFromLeft(nodes, p, i);
      && p in a && i < |a[p].keys|
      && Fenced(a, Resep(fence, nodes[p].children[i], nodes[p].children[i + 1], a[p].keys[i]), root)
  {
    var l, r := nodes[p].children[i], nodes[p].children[i + 1];
    if nodes[l].kind == Leaf {
      ShiftRightLeafFenced(nodes, fence, p, i);
    } else {
      ShiftRightRouterFenced(nodes, fence, p, i);
    }
  }

  /** A merge keeps the search order: the surviving page owns both ranges. */
  lemma MergePairFenced<V>(nodes: Arena<V>, fence: map<nat, Fence>, root: nat, p: nat, i: nat)
    requires Fenced(nodes, fence, root) && ParentsOk(nodes) && root in nodes && nodes[root].parent.None?
    requires PairReady(nodes, p, i) && Distinct(nodes[p].children) && nodes[p].kind != Leaf
    ensures Fenced(MergePair(nodes, p, i), Join(fence, nodes[p].children[i], nodes[p].children[i + 1]), root)
  {
    var l := nodes[p].children[i];
    if nodes[l].kind == Leaf {
      MergeLeavesFenced(nodes, fence, p, i);
    } else {
      MergeRoutersFenced(nodes, fence, p, i);
    }
  }

  /** Collapsing an empty root keeps every range: its only child already owned all keys. */
  lemma CollapseFenced<V>(nodes: Arena<V>, levels: seq<seq<nat>>, level: map<nat, nat>, root: nat, depth: int,
                          fence: map<nat, Fence>)
    requires Wf(nodes, levels, level, root, depth) && Fenced(nodes, fence, root) && depth > 1
    requires root in nodes && nodes[root].keys == []
    ensures nodes[root].children != [] && Fenced(Collapse(nodes, root, depth), fence, nodes[root].children[0])
  {
    var c := CollapseReady(nodes, levels, level, root, depth);
    WfRoot(nodes, levels, level, root, depth);
    assert PageOk(nodes[c], level[c], c == root);
    assert PageFenced(nodes, fence, root);
    assert fence[c] == Slot([], Everything, 0);
    var a := Collapse(nodes, root, depth);
    assert PageFenced(nodes, fence, c);
    FencedFrame(nodes, fence, a, fence, {c}, {});
  }
}
