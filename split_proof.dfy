/**
 * splitNode keeps the structural invariant: the fresh page joins its level
 * right after the page it came from, a new root adds a level on top, and the
 * leaf chain and the leaf contents come out as before, with the new page
 * threaded in.
 */
module SplitProof {
  import opened Wrappers
  import opened Nodes
  import opened Shape
  import opened Split

  /** The levels after splitting the page at position j of level lx. */
  ghost function SplitLevels(levels: seq<seq<nat>>, lx: nat, j: nat, n: nat, r: nat, up: bool): (ls: seq<seq<nat>>)
    requires lx < |levels| && j < |levels[lx]|
    ensures |ls| == |levels| + (if up then 1 else 0)
  {
    var ins := levels[lx := InsertAt(levels[lx], j + 1, n)];
    if up then ins + [[r]] else ins
  }

  ghost function SplitLevel(level: map<nat, nat>, lx: nat, n: nat, r: nat, depth: nat, up: bool): map<nat, nat>
  {
    if up then level[n := lx][r := depth] else level[n := lx]
  }

  /** The invariant provides what splitNode relies on. */
  lemma WfSplitReady<V>(nodes: Arena<V>, levels: seq<seq<nat>>, level: map<nat, nat>, root: nat, depth: int, x: nat)
    requires Wf(nodes, levels, level, root, depth)
    requires x in nodes && |nodes[x].keys| >= 1
    ensures SplitReady(nodes, x)
    ensures nodes[x].parent.None? <==> x == root
    ensures nodes[x].kind == Leaf <==> level[x] == 0
  {
    assert PageOk(nodes[x], level[x], x == root);
    if x != root {
      ReadyParent(nodes, levels, level, root, depth, x);
    }
    if level[x] == 0 {
      ReadyLeaf(nodes, levels, level, root, depth, x);
    } else {
      ReadyRouter(nodes, levels, level, root, depth, x);
    }
  }

  lemma ReadyParent<V>(nodes: Arena<V>, levels: seq<seq<nat>>, level: map<nat, nat>, root: nat, depth: int, x: nat)
    requires Wf(nodes, levels, level, root, depth)
    requires x in nodes && x != root
    ensures var X := nodes[x];
      && X.parent.Some? && X.parent.value in nodes && X.parent.value != x
      && level[X.parent.value] == level[x] + 1
      && x in nodes[X.parent.value].children
      && |nodes[X.parent.value].children| == |nodes[X.parent.value].keys| + 1
  {
    var p := WfParent(nodes, levels, level, root, depth, x);
    assert PageOk(nodes[p], level[p], p == root);
  }

  lemma ReadyLeaf<V>(nodes: Arena<V>, levels: seq<seq<nat>>, level: map<nat, nat>, root: nat, depth: int, x: nat)
    requires Wf(nodes, levels, level, root, depth)
    requires x in nodes && level[x] == 0
    ensures var X := nodes[x];
      X.next.Some? ==> X.next.value in nodes && X.next.value != x && Some(X.next.value) != X.parent
  {
    assert x in levels[0];
    var i :| 0 <= i < |levels[0]| && levels[0][i] == x;
    ChainLinkAt(nodes, levels[0], i);
    if i + 1 < |levels[0]| {
      var m := levels[0][i + 1];
      assert level[m] == 0 && m != x;
      if x != root {
        ReadyParent(nodes, levels, level, root, depth, x);
      }
    }
  }

  lemma ReadyRouter<V>(nodes: Arena<V>, levels: seq<seq<nat>>, level: map<nat, nat>, root: nat, depth: int, x: nat)
    requires Wf(nodes, levels, level, root, depth)
    requires x in nodes && level[x] > 0
    ensures var X := nodes[x];
      forall k | 0 <= k < |X.children| :: X.children[k] in nodes && X.children[k] != x && Some(X.children[k]) != X.parent
  {
    var jj, s := WfChildren(nodes, levels, level, root, depth, x);
    if x != root {
      ReadyParent(nodes, levels, level, root, depth, x);
    } else {
      WfRoot(nodes, levels, level, root, depth);
    }
  }

  /** After a split every page keeps its parent, except the pages moved to n and the old root. */
  lemma SplitParents<V>(nodes: Arena<V>, a: Arena<V>, x: nat, n: nat, r: nat, c: nat)
    requires SplitReady(nodes, x) && n !in nodes && r !in nodes && n != r
    requires SplitOutcome(nodes, a, x, n, r)
    requires c in nodes && c != x
    requires nodes[x].kind != Leaf ==> c !in nodes[x].children[|nodes[x].keys| / 2 + 1..]
    ensures c in a && a[c].parent == nodes[c].parent
  {
    var X := nodes[x];
    var mid := |X.keys| / 2;
    if X.parent == Some(c) {
    } else if X.kind == Leaf && X.next == Some(c) {
    }
  }

  /** Where the split page sits: position j of level lx, and whether it is the root. */
  ghost predicate SplitSpot<V>(nodes: Arena<V>, levels: seq<seq<nat>>, level: map<nat, nat>,
                               root: nat, depth: int, x: nat, n: nat, r: nat, lx: nat, j: nat, up: bool)
  {
    && Layered(nodes, levels, level, root, depth)
    && x in nodes && lx == level[x] && j < |levels[lx]| && levels[lx][j] == x
    && n !in nodes && r !in nodes && n != r
    && (up <==> x == root)
    && (!up ==> lx < depth - 1)
  }

  lemma LayeredAfterSplit<V>(nodes: Arena<V>, a: Arena<V>, levels: seq<seq<nat>>, level: map<nat, nat>,
                             root: nat, depth: int, x: nat, n: nat, r: nat, lx: nat, j: nat, up: bool)
    requires SplitSpot(nodes, levels, level, root, depth, x, n, r, lx, j, up)
    requires a.Keys == nodes.Keys + {n} + (if up then {r} else {})
    ensures Layered(a, SplitLevels(levels, lx, j, n, r, up), SplitLevel(level, lx, n, r, depth, up),
                    if up then r else root, if up then depth + 1 else depth)
  {
    LayeredTop(nodes, a, levels, level, root, depth, x, n, r, lx, j, up);
    LayeredLevelOf(nodes, a, levels, level, root, depth, x, n, r, lx, j, up);
    LayeredMembers(nodes, a, levels, level, root, depth, x, n, r, lx, j, up);
    LayeredDistinct(nodes, levels, level, root, depth, x, n, r, lx, j, up);
  }

  lemma LayeredTop<V>(nodes: Arena<V>, a: Arena<V>, levels: seq<seq<nat>>, level: map<nat, nat>,
                      root: nat, depth: int, x: nat, n: nat, r: nat, lx: nat, j: nat, up: bool)
    requires SplitSpot(nodes, levels, level, root, depth, x, n, r, lx, j, up)
    requires a.Keys == nodes.Keys + {n} + (if up then {r} else {})
    ensures var ls := SplitLevels(levels, lx, j, n, r, up);
      var depth' := if up then depth + 1 else depth;
      && |ls| == depth' && ls[depth' - 1] == [if up then r else root]
      && SplitLevel(level, lx, n, r, depth, up).Keys == a.Keys
  {
    if up {
      assert levels[depth - 1] == [root];
      assert x in levels[depth - 1];
    }
  }

  lemma LayeredLevelOf<V>(nodes: Arena<V>, a: Arena<V>, levels: seq<seq<nat>>, level: map<nat, nat>,
                          root: nat, depth: int, x: nat, n: nat, r: nat, lx: nat, j: nat, up: bool)
    requires SplitSpot(nodes, levels, level, root, depth, x, n, r, lx, j, up)
    ensures var ls := SplitLevels(levels, lx, j, n, r, up);
      var lv := SplitLevel(level, lx, n, r, depth, up);
      forall id | id in lv :: lv[id] < |ls| && id in ls[lv[id]]
  {
    var ls := SplitLevels(levels, lx, j, n, r, up);
    var lv := SplitLevel(level, lx, n, r, depth, up);
    InsertAtMembers(levels[lx], j + 1, n);
    forall id | id in lv ensures lv[id] < |ls| && id in ls[lv[id]] {
      if id == n {
      } else if up && id == r {
      } else {
        assert id in levels[level[id]];
      }
    }
  }

  lemma LayeredMembers<V>(nodes: Arena<V>, a: Arena<V>, levels: seq<seq<nat>>, level: map<nat, nat>,
                          root: nat, depth: int, x: nat, n: nat, r: nat, lx: nat, j: nat, up: bool)
    requires SplitSpot(nodes, levels, level, root, depth, x, n, r, lx, j, up)
    requires a.Keys == nodes.Keys + {n} + (if up then {r} else {})
    ensures var ls := SplitLevels(levels, lx, j, n, r, up);
      var lv := SplitLevel(level, lx, n, r, depth, up);
      forall l, i | 0 <= l < |ls| && 0 <= i < |ls[l]| :: ls[l][i] in a && ls[l][i] in lv && lv[ls[l][i]] == l
  {
    var ls := SplitLevels(levels, lx, j, n, r, up);
    var lv := SplitLevel(level, lx, n, r, depth, up);
    var ins := InsertAt(levels[lx], j + 1, n);
    forall l, i | 0 <= l < |ls| && 0 <= i < |ls[l]| ensures ls[l][i] in a && ls[l][i] in lv && lv[ls[l][i]] == l {
      if up && l == depth {
        assert ls[l] == [r];
      } else if l == lx {
        assert ls[l] == ins;
        if i <= j {
          assert ins[i] == levels[lx][i];
        } else if i > j + 1 {
          assert ins[i] == levels[lx][i - 1];
        }
      } else {
        assert ls[l][i] == levels[l][i];
      }
    }
  }

  lemma LayeredDistinct<V>(nodes: Arena<V>, levels: seq<seq<nat>>, level: map<nat, nat>,
                           root: nat, depth: int, x: nat, n: nat, r: nat, lx: nat, j: nat, up: bool)
    requires SplitSpot(nodes, levels, level, root, depth, x, n, r, lx, j, up)
    ensures var ls := SplitLevels(levels, lx, j, n, r, up);
      forall l | 0 <= l < |ls| :: Distinct(ls[l])
  {
    var ls := SplitLevels(levels, lx, j, n, r, up);
    assert n !in levels[lx];
    DistinctInsert(levels[lx], j + 1, n);
    forall l | 0 <= l < |ls| ensures Distinct(ls[l]) {
      if up && l == depth {
        assert ls[l] == [r];
      } else if l != lx {
        assert ls[l] == levels[l];
      }
    }
  }

  /** Kids of the pages whose children the split did not touch. */
  lemma KidsUntouched<V>(nodes: Arena<V>, a: Arena<V>, levels: seq<seq<nat>>, level: map<nat, nat>,
                         root: nat, depth: int, l: nat, x: nat, p: Option<nat>)
    requires Layered(nodes, levels, level, root, depth) && l < |levels|
    requires x in nodes && level[x] != l
    requires p.Some? ==> p.value in nodes && level[p.value] != l
    requires forall id | id in nodes && id != x && Some(id) != p :: id in a && a[id].children == nodes[id].children
    ensures AllIn(a, levels[l]) && Kids(a, levels[l]) == Kids(nodes, levels[l])
  {
    forall i | 0 <= i < |levels[l]| ensures levels[l][i] != x && Some(levels[l][i]) != p {
    }
    KidsFrame(nodes, a, levels[l]);
  }

  /** Only x and its parent get new keys, values or children in a split. */
  lemma SplitFrame<V>(nodes: Arena<V>, a: Arena<V>, x: nat, n: nat, r: nat)
    requires SplitReady(nodes, x) && n !in nodes && r !in nodes && n != r
    requires SplitOutcome(nodes, a, x, n, r)
    ensures forall id | id in nodes && id != x && Some(id) != nodes[x].parent ::
      && id in a && a[id].children == nodes[id].children
      && a[id].keys == nodes[id].keys && a[id].vals == nodes[id].vals && a[id].kind == nodes[id].kind
  {
    var X := nodes[x];
    var mid := |X.keys| / 2;
    var moved := if X.kind == Leaf then [] else X.children[mid + 1..];
    forall id | id in nodes && id != x && Some(id) != X.parent
      ensures && id in a && a[id].children == nodes[id].children
              && a[id].keys == nodes[id].keys && a[id].vals == nodes[id].vals && a[id].kind == nodes[id].kind
    {
      if id in moved {
      } else if X.kind == Leaf && X.next == Some(id) {
      }
    }
  }

  /** Kids after page n is placed right after x and takes over the tail of x's children. */
  lemma KidsSplice<V>(nodes: Arena<V>, a: Arena<V>, L: seq<nat>, j: nat, x: nat, n: nat)
    requires AllIn(nodes, L) && j < |L| && L[j] == x
    requires forall i | 0 <= i < |L| && i != j :: L[i] in a && a[L[i]].children == nodes[L[i]].children
    requires x in a && n in a && a[x].children + a[n].children == nodes[x].children
    ensures AllIn(a, InsertAt(L, j + 1, n)) && Kids(a, InsertAt(L, j + 1, n)) == Kids(nodes, L)
  {
    var lf := L[..j];
    var rt := L[j + 1..];
    assert L[..j + 1] == lf + [x];
    assert InsertAt(L, j + 1, n) == lf + [x, n] + rt;
    forall i | 0 <= i < |lf| ensures lf[i] in a && a[lf[i]].children == nodes[lf[i]].children {
      assert lf[i] == L[i];
    }
    forall i | 0 <= i < |rt| ensures rt[i] in a && a[rt[i]].children == nodes[rt[i]].children {
      assert rt[i] == L[j + 1 + i];
    }
    KidsFrame(nodes, a, lf);
    KidsFrame(nodes, a, rt);
    KidsOne(a, x);
    KidsOne(a, n);
    KidsAppend(a, [x], [n]);
    assert [x] + [n] == [x, n];
    KidsAppend(a, lf, [x, n]);
    KidsAppend(a, lf + [x, n], rt);
    KidsAt(nodes, L, j);
  }

  /** Kids after page p receives n as its child right after position i. */
  lemma KidsGrow<V>(nodes: Arena<V>, a: Arena<V>, U: seq<nat>, jp: nat, i: nat, n: nat)
    requires AllIn(nodes, U) && jp < |U|
    requires forall k | 0 <= k < |U| && k != jp :: U[k] in a && a[U[k]].children == nodes[U[k]].children
    requires U[jp] in a && i < |nodes[U[jp]].children|
    requires a[U[jp]].children == InsertAt(nodes[U[jp]].children, i + 1, n)
    ensures AllIn(a, U) && AllIn(nodes, U[..jp])
    ensures |Kids(nodes, U[..jp])| + i < |Kids(nodes, U)|
    ensures Kids(a, U) == InsertAt(Kids(nodes, U), |Kids(nodes, U[..jp])| + i + 1, n)
  {
    var p := U[jp];
    var A := U[..jp];
    var B := U[jp + 1..];
    KidsAt(nodes, U, jp);
    InsertAtConcat(Kids(nodes, A), nodes[p].children, Kids(nodes, B), i + 1, n);
    assert U == A + [p] + B;
    forall k | 0 <= k < |A| ensures A[k] in a && a[A[k]].children == nodes[A[k]].children {
      assert A[k] == U[k];
    }
    forall k | 0 <= k < |B| ensures B[k] in a && a[B[k]].children == nodes[B[k]].children {
      assert B[k] == U[jp + 1 + k];
    }
    KidsFrame(nodes, a, A);
    KidsFrame(nodes, a, B);
    KidsOne(a, p);
    KidsAppend(a, A, [p]);
    KidsAppend(a, A + [p], B);
  }

  /** The level below x: the children of x and n together are the children x had. */
  lemma LinkedBelow<V>(nodes: Arena<V>, a: Arena<V>, levels: seq<seq<nat>>, level: map<nat, nat>,
                       root: nat, depth: int, x: nat, n: nat, r: nat, lx: nat, j: nat, up: bool, l: nat)
    requires SplitSpot(nodes, levels, level, root, depth, x, n, r, lx, j, up)
    requires Linked(nodes, levels)
    requires l + 1 == lx && x in a && n in a && a[x].children + a[n].children == nodes[x].children
    requires forall id | id in nodes && id != x && Some(id) != nodes[x].parent ::
      id in a && a[id].children == nodes[id].children
    requires nodes[x].parent.Some? ==> nodes[x].parent.value in nodes && level[nodes[x].parent.value] == lx + 1
    ensures var ls := SplitLevels(levels, lx, j, n, r, up);
      AllIn(a, ls[l + 1]) && LevelLinked(a, ls, l)
  {
    var L := levels[lx];
    forall i | 0 <= i < |L| && i != j ensures L[i] in a && a[L[i]].children == nodes[L[i]].children {
      assert L[i] != x && level[L[i]] == lx;
    }
    KidsSplice(nodes, a, L, j, x, n);
    assert LevelLinked(nodes, levels, l);
  }

  /**
   * The level of x under an existing parent p (at position jp of the level
   * U above): n follows x among the parent's children.
   */
  lemma LinkedAtParent<V>(nodes: Arena<V>, a: Arena<V>, U: seq<nat>, jp: nat, L: seq<nat>, j: nat, x: nat, n: nat)
    requires AllIn(nodes, U) && jp < |U| && L == Kids(nodes, U) && Distinct(L) && j < |L| && L[j] == x
    requires U[jp] in a && x in nodes[U[jp]].children
    requires var P := nodes[U[jp]];
      a[U[jp]].children == InsertAt(P.children, IndexOfChild(P.children, x) + 1, n)
    requires forall k | 0 <= k < |U| && k != jp :: U[k] in a && a[U[k]].children == nodes[U[k]].children
    ensures AllIn(a, U) && InsertAt(L, j + 1, n) == Kids(a, U)
  {
    var P := nodes[U[jp]];
    var i := IndexOfChild(P.children, x);
    KidsGrow(nodes, a, U, jp, i, n);
    KidsContains(nodes, U, jp, i);
    assert L[|Kids(nodes, U[..jp])| + i] == x;
  }

  /** A root split: the new root's children are x and n, the whole level below it. */
  lemma LinkedAtRoot<V>(nodes: Arena<V>, a: Arena<V>, levels: seq<seq<nat>>, level: map<nat, nat>,
                        root: nat, depth: int, x: nat, n: nat, r: nat, lx: nat, j: nat)
    requires SplitSpot(nodes, levels, level, root, depth, x, n, r, lx, j, true)
    requires r in a && a[r].children == [x, n]
    ensures var ls := SplitLevels(levels, lx, j, n, r, true);
      AllIn(a, ls[lx + 1]) && LevelLinked(a, ls, lx)
  {
    assert levels[depth - 1] == [root];
    assert x in levels[depth - 1];
    KidsOne(a, r);
  }

  /** Levels away from the split keep their children. */
  lemma LinkedElsewhere<V>(nodes: Arena<V>, a: Arena<V>, levels: seq<seq<nat>>, level: map<nat, nat>,
                           root: nat, depth: int, x: nat, n: nat, r: nat, lx: nat, j: nat, up: bool, l: nat)
    requires SplitSpot(nodes, levels, level, root, depth, x, n, r, lx, j, up)
    requires Linked(nodes, levels)
    requires l + 1 < |SplitLevels(levels, lx, j, n, r, up)| && l != lx && l + 1 != lx
    requires nodes[x].parent.Some? ==> nodes[x].parent.value in nodes && level[nodes[x].parent.value] == lx + 1
    requires forall id | id in nodes && id != x && Some(id) != nodes[x].parent ::
      id in a && a[id].children == nodes[id].children
    ensures var ls := SplitLevels(levels, lx, j, n, r, up);
      AllIn(a, ls[l + 1]) && LevelLinked(a, ls, l)
  {
    if up {
      assert levels[depth - 1] == [root];
      assert x in levels[depth - 1];
    }
    assert LevelLinked(nodes, levels, l);
    KidsUntouched(nodes, a, levels, level, root, depth, l + 1, x, nodes[x].parent);
  }

  // ---------------------------------------------------------------------
  // Pages after a split

  /** x and n: both halves look like pages of x's height. */
  lemma PageOkHalves<V>(nodes: Arena<V>, a: Arena<V>, x: nat, n: nat, r: nat, lx: nat, root': nat)
    requires SplitReady(nodes, x) && n !in nodes && r !in nodes && n != r
    requires SplitOutcome(nodes, a, x, n, r)
    requires PageOk(nodes[x], lx, nodes[x].parent.None?)
    requires x != root' && n != root'
    ensures PageOk(a[x], lx, false) && PageOk(a[n], lx, false)
  {
  }

  /** The parent that received the separator keeps the shape of a router. */
  lemma PageOkParent<V>(nodes: Arena<V>, a: Arena<V>, x: nat, n: nat, r: nat, lp: nat, isRoot: bool)
    requires SplitReady(nodes, x) && n !in nodes && r !in nodes && n != r
    requires SplitOutcome(nodes, a, x, n, r)
    requires nodes[x].parent.Some? && PageOk(nodes[nodes[x].parent.value], lp, isRoot) && lp > 0
    ensures PageOk(a[nodes[x].parent.value], lp, isRoot)
  {
  }

  /** A re-parented child keeps its shape; it is not the root either before or after. */
  lemma PageOkMoved<V>(nodes: Arena<V>, a: Arena<V>, x: nat, n: nat, r: nat, c: nat, lc: nat)
    requires SplitReady(nodes, x) && n !in nodes && r !in nodes && n != r
    requires SplitOutcome(nodes, a, x, n, r)
    requires nodes[x].kind != Leaf && c in nodes[x].children[|nodes[x].keys| / 2 + 1..]
    requires PageOk(nodes[c], lc, false)
    ensures PageOk(a[c], lc, false)
  {
  }

  /** Two versions of a page that PageOk cannot tell apart. */
  ghost predicate SameShape<V>(m: Node<V>, m': Node<V>)
  {
    && m'.kind == m.kind && m'.children == m.children && m'.keys == m.keys && m'.vals == m.vals
    && (m'.parent.None? <==> m.parent.None?)
  }

  /** Pages other than x and its parent keep their shape in a split. */
  lemma SplitShapeFrame<V>(nodes: Arena<V>, a: Arena<V>, x: nat, n: nat, r: nat)
    requires SplitReady(nodes, x) && n !in nodes && r !in nodes && n != r
    requires SplitOutcome(nodes, a, x, n, r) && ParentsOk(nodes)
    ensures forall id | id in nodes && id != x && Some(id) != nodes[x].parent ::
      id in a && SameShape(nodes[id], a[id])
  {
    var X := nodes[x];
    var mid := |X.keys| / 2;
    var moved := if X.kind == Leaf then [] else X.children[mid + 1..];
    forall id | id in nodes && id != x && Some(id) != X.parent ensures id in a && SameShape(nodes[id], a[id]) {
      if id in moved {
        var k :| mid + 1 <= k < |X.children| && X.children[k] == id;
        assert nodes[id].parent == Some(x);
      } else if X.kind == Leaf && X.next == Some(id) {
      }
    }
  }

  lemma PagesOkAfterSplit<V>(nodes: Arena<V>, a: Arena<V>, level: map<nat, nat>, root: nat,
                             x: nat, n: nat, px: Option<nat>, lv: map<nat, nat>, root': nat)
    requires PagesOk(nodes, level, root) && level.Keys == nodes.Keys
    requires lv.Keys == a.Keys && nodes.Keys <= a.Keys
    requires forall id | id in a && id != n && id != root' :: id in nodes
    requires root in nodes && forall id | id in nodes :: lv[id] == level[id]
    requires root' != root ==> root' !in nodes && x == root
    requires forall id | id in nodes && id != x && Some(id) != px :: id in a && SameShape(nodes[id], a[id])
    requires n in a && x in a && PageOk(a[x], lv[x], x == root') && PageOk(a[n], lv[n], n == root')
    requires px.Some? ==> px.value in nodes && px.value != x && PageOk(a[px.value], level[px.value], px.value == root)
    requires root' != root ==> root' in a && PageOk(a[root'], lv[root'], true)
    ensures PagesOk(a, lv, root')
  {
    forall id | id in a && id in lv ensures PageOk(a[id], lv[id], id == root') {
      if id == x || id == n || (id == root' && root' != root) {
      } else if Some(id) == px {
      } else {
        assert PageOk(nodes[id], level[id], id == root);
      }
    }
  }

  // ---------------------------------------------------------------------
  // Parent pointers after a split

  lemma ParentsAtX<V>(nodes: Arena<V>, a: Arena<V>, x: nat, n: nat, r: nat)
    requires SplitReady(nodes, x) && n !in nodes && r !in nodes && n != r
    requires SplitOutcome(nodes, a, x, n, r) && ParentsOk(nodes) && Distinct(nodes[x].children)
    ensures x in a && forall k | 0 <= k < |a[x].children| :: a[x].children[k] in a && a[a[x].children[k]].parent == Some(x)
  {
    var X := nodes[x];
    var mid := |X.keys| / 2;
    forall k | 0 <= k < |a[x].children| ensures a[x].children[k] in a && a[a[x].children[k]].parent == Some(x) {
      var c := X.children[k];
      assert a[x].children[k] == c;
      assert c !in X.children[mid + 1..] by {
        forall k' | mid + 1 <= k' < |X.children| ensures X.children[k'] != c {
        }
      }
      SplitParents(nodes, a, x, n, r, c);
    }
  }

  lemma ParentsAtN<V>(nodes: Arena<V>, a: Arena<V>, x: nat, n: nat, r: nat)
    requires SplitReady(nodes, x) && n !in nodes && r !in nodes && n != r
    requires SplitOutcome(nodes, a, x, n, r)
    ensures n in a && forall k | 0 <= k < |a[n].children| :: a[n].children[k] in a && a[a[n].children[k]].parent == Some(n)
  {
    var X := nodes[x];
    var mid := |X.keys| / 2;
    forall k | 0 <= k < |a[n].children| ensures a[n].children[k] in a && a[a[n].children[k]].parent == Some(n) {
      assert a[n].children[k] == X.children[mid + 1 + k];
    }
  }

  lemma ParentsAtP<V>(nodes: Arena<V>, a: Arena<V>, x: nat, n: nat, r: nat)
    requires SplitReady(nodes, x) && n !in nodes && r !in nodes && n != r
    requires SplitOutcome(nodes, a, x, n, r) && ParentsOk(nodes)
    requires nodes[x].parent.Some?
    ensures var p := nodes[x].parent.value;
      p in a && forall k | 0 <= k < |a[p].children| :: a[p].children[k] in a && a[a[p].children[k]].parent == Some(p)
  {
    var X := nodes[x];
    var mid := |X.keys| / 2;
    var p := X.parent.value;
    var P := nodes[p];
    var i := IndexOfChild(P.children, x);
    forall k | 0 <= k < |a[p].children| ensures a[p].children[k] in a && a[a[p].children[k]].parent == Some(p) {
      var c := a[p].children[k];
      if k == i + 1 {
      } else {
        var k' := if k <= i then k else k - 1;
        assert c == P.children[k'];
        if c != x {
          assert nodes[c].parent == Some(p);
          SplitParents(nodes, a, x, n, r, c);
        }
      }
    }
  }

  lemma ParentsElsewhere<V>(nodes: Arena<V>, a: Arena<V>, x: nat, n: nat, r: nat, q: nat)
    requires SplitReady(nodes, x) && n !in nodes && r !in nodes && n != r
    requires SplitOutcome(nodes, a, x, n, r) && ParentsOk(nodes)
    requires q in nodes && q != x && Some(q) != nodes[x].parent
    ensures q in a && forall k | 0 <= k < |a[q].children| :: a[q].children[k] in a && a[a[q].children[k]].parent == Some(q)
  {
    var X := nodes[x];
    var mid := |X.keys| / 2;
    SplitFrame(nodes, a, x, n, r);
    forall k | 0 <= k < |a[q].children| ensures a[q].children[k] in a && a[a[q].children[k]].parent == Some(q) {
      var c := nodes[q].children[k];
      assert nodes[c].parent == Some(q);
      SplitParents(nodes, a, x, n, r, c);
    }
  }

  lemma ParentsOkAfterSplit<V>(nodes: Arena<V>, a: Arena<V>, x: nat, n: nat, r: nat)
    requires SplitReady(nodes, x) && n !in nodes && r !in nodes && n != r
    requires SplitOutcome(nodes, a, x, n, r) && ParentsOk(nodes) && Distinct(nodes[x].children)
    ensures ParentsOk(a)
  {
    var X := nodes[x];
    ParentsAtX(nodes, a, x, n, r);
    ParentsAtN(nodes, a, x, n, r);
    if X.parent.Some? {
      ParentsAtP(nodes, a, x, n, r);
    } else {
      assert a[r].children == [x, n];
    }
    forall q, k | q in a && 0 <= k < |a[q].children| ensures a[q].children[k] in a && a[a[q].children[k]].parent == Some(q) {
      if q == x || q == n || Some(q) == X.parent {
      } else if X.parent.None? && q == r {
      } else {
        ParentsElsewhere(nodes, a, x, n, r, q);
      }
    }
  }

  // ---------------------------------------------------------------------
  // The leaf chain and the contents after a split

  /** Pages away from x, its parent and its chain successor keep their chain links. */
  lemma SplitLinksFrame<V>(nodes: Arena<V>, a: Arena<V>, x: nat, n: nat, r: nat, id: nat)
    requires SplitReady(nodes, x) && n !in nodes && r !in nodes && n != r
    requires SplitOutcome(nodes, a, x, n, r)
    requires id in nodes && id != x && Some(id) != nodes[x].parent
    requires nodes[x].kind == Leaf ==> Some(id) != nodes[x].next
    ensures id in a && a[id].next == nodes[id].next && a[id].prev == nodes[id].prev
  {
    var X := nodes[x];
    var mid := |X.keys| / 2;
    if X.kind != Leaf && id in X.children[mid + 1..] {
    }
  }

  lemma ChainAfterLeafSplit<V>(nodes: Arena<V>, a: Arena<V>, L: seq<nat>, j: nat, x: nat, n: nat, r: nat)
    requires SplitReady(nodes, x) && n !in nodes && r !in nodes && n != r
    requires SplitOutcome(nodes, a, x, n, r) && nodes[x].kind == Leaf
    requires ChainOk(nodes, L) && Distinct(L) && j < |L| && L[j] == x
    requires forall i | 0 <= i < |L| :: Some(L[i]) != nodes[x].parent
    ensures ChainOk(a, InsertAt(L, j + 1, n))
  {
    var L' := InsertAt(L, j + 1, n);
    var X := nodes[x];
    ChainLinkAt(nodes, L, j);
    forall i | 0 <= i < |L'| ensures ChainLink(a, L', i) {
      if i < j {
        assert L[i] != x && (j + 1 < |L| ==> L[i] != L[j + 1]);
        ChainLinkAt(nodes, L, i);
        SplitLinksFrame(nodes, a, x, n, r, L[i]);
        assert L'[i + 1] == L[i + 1];
      } else if i == j {
      } else if i == j + 1 {
      } else if i == j + 2 {
        assert L'[i] == L[j + 1];
        ChainLinkAt(nodes, L, j + 1);
      } else {
        assert L'[i] == L[i - 1] && L[i - 1] != x && L[i - 1] != L[j + 1];
        ChainLinkAt(nodes, L, i - 1);
        SplitLinksFrame(nodes, a, x, n, r, L[i - 1]);
      }
    }
  }

  lemma ChainAfterRouterSplit<V>(nodes: Arena<V>, a: Arena<V>, L: seq<nat>, x: nat, n: nat, r: nat)
    requires SplitReady(nodes, x) && n !in nodes && r !in nodes && n != r
    requires SplitOutcome(nodes, a, x, n, r) && nodes[x].kind != Leaf
    requires ChainOk(nodes, L)
    requires forall i | 0 <= i < |L| :: L[i] != x && Some(L[i]) != nodes[x].parent
    ensures ChainOk(a, L)
  {
    forall i | 0 <= i < |L| ensures ChainLink(a, L, i) {
      ChainLinkAt(nodes, L, i);
      SplitLinksFrame(nodes, a, x, n, r, L[i]);
    }
  }

  /** LeafEntries after leaf n is placed right after x and takes over the tail of x's pairs. */
  lemma LeafEntriesSplice<V>(nodes: Arena<V>, a: Arena<V>, L: seq<nat>, j: nat, x: nat, n: nat)
    requires LeavesOk(nodes, L) && j < |L| && L[j] == x
    requires forall i | 0 <= i < |L| && i != j :: L[i] in a && a[L[i]].keys == nodes[L[i]].keys && a[L[i]].vals == nodes[L[i]].vals
    requires x in a && n in a && |a[x].vals| == |a[x].keys| && |a[n].vals| == |a[n].keys|
    requires Entries(a[x].keys, a[x].vals) + Entries(a[n].keys, a[n].vals) == Entries(nodes[x].keys, nodes[x].vals)
    ensures LeavesOk(a, InsertAt(L, j + 1, n))
    ensures LeafEntries(a, InsertAt(L, j + 1, n)) == LeafEntries(nodes, L)
  {
    var lf := L[..j];
    var rt := L[j + 1..];
    assert L == lf + [x] + rt;
    assert L[..j + 1] == lf + [x];
    assert InsertAt(L, j + 1, n) == lf + [x, n] + rt;
    forall i | 0 <= i < |lf| ensures lf[i] in a && a[lf[i]].keys == nodes[lf[i]].keys && a[lf[i]].vals == nodes[lf[i]].vals {
      assert lf[i] == L[i];
    }
    forall i | 0 <= i < |rt| ensures rt[i] in a && a[rt[i]].keys == nodes[rt[i]].keys && a[rt[i]].vals == nodes[rt[i]].vals {
      assert rt[i] == L[j + 1 + i];
    }
    assert LeavesOk(nodes, lf) && LeavesOk(nodes, rt) by {
      forall i | 0 <= i < |lf| ensures lf[i] == L[i] { }
      forall i | 0 <= i < |rt| ensures rt[i] == L[j + 1 + i] { }
    }
    LeafEntriesFrame(nodes, a, lf);
    LeafEntriesFrame(nodes, a, rt);
    LeafEntriesOne(a, x);
    LeafEntriesOne(a, n);
    LeafEntriesAppend(a, [x], [n]);
    assert [x] + [n] == [x, n];
    LeafEntriesAppend(a, lf, [x, n]);
    LeafEntriesAppend(a, lf + [x, n], rt);
    LeafEntriesOne(nodes, x);
    LeafEntriesAppend(nodes, lf, [x]);
    LeafEntriesAppend(nodes, lf + [x], rt);
  }

  lemma EntriesAfterLeafSplit<V>(nodes: Arena<V>, a: Arena<V>, L: seq<nat>, j: nat, x: nat, n: nat, r: nat)
    requires SplitReady(nodes, x) && n !in nodes && r !in nodes && n != r
    requires SplitOutcome(nodes, a, x, n, r) && nodes[x].kind == Leaf
    requires LeavesOk(nodes, L) && Distinct(L) && j < |L| && L[j] == x
    requires forall i | 0 <= i < |L| :: Some(L[i]) != nodes[x].parent
    ensures LeavesOk(a, InsertAt(L, j + 1, n))
    ensures LeafEntries(a, InsertAt(L, j + 1, n)) == LeafEntries(nodes, L)
  {
    var X := nodes[x];
    var mid := |X.keys| / 2;
    SplitFrame(nodes, a, x, n, r);
    forall i | 0 <= i < |L| && i != j
      ensures L[i] in a && a[L[i]].keys == nodes[L[i]].keys && a[L[i]].vals == nodes[L[i]].vals
    {
      assert L[i] != x;
    }
    assert a[x].keys == X.keys[..mid] && a[x].vals == X.vals[..mid];
    assert a[n].keys == X.keys[mid..] && a[n].vals == X.vals[mid..];
    EntriesHalves(X.keys, X.vals, mid);
    LeafEntriesSplice(nodes, a, L, j, x, n);
  }

  lemma EntriesHalves<V>(keys: seq<int>, vals: seq<V>, mid: nat)
    requires |vals| == |keys| && mid <= |keys|
    ensures Entries(keys[..mid], vals[..mid]) + Entries(keys[mid..], vals[mid..]) == Entries(keys, vals)
  {
    EntriesAppend(keys[..mid], vals[..mid], keys[mid..], vals[mid..]);
    assert keys[..mid] + keys[mid..] == keys;
    assert vals[..mid] + vals[mid..] == vals;
  }

  lemma EntriesAfterRouterSplit<V>(nodes: Arena<V>, a: Arena<V>, L: seq<nat>, x: nat, n: nat, r: nat)
    requires SplitReady(nodes, x) && n !in nodes && r !in nodes && n != r
    requires SplitOutcome(nodes, a, x, n, r)
    requires LeavesOk(nodes, L)
    requires forall i | 0 <= i < |L| :: L[i] != x && Some(L[i]) != nodes[x].parent
    ensures LeavesOk(a, L) && LeafEntries(a, L) == LeafEntries(nodes, L)
  {
    SplitFrame(nodes, a, x, n, r);
    LeafEntriesFrame(nodes, a, L);
  }

  // ---------------------------------------------------------------------
  // The whole invariant after a split

  lemma LinkedAfterSplit<V>(nodes: Arena<V>, a: Arena<V>, levels: seq<seq<nat>>, level: map<nat, nat>,
                            root: nat, depth: int, x: nat, n: nat, r: nat, lx: nat, j: nat, up: bool)
    requires SplitSpot(nodes, levels, level, root, depth, x, n, r, lx, j, up) && Linked(nodes, levels)
    requires up <==> nodes[x].parent.None?
    requires !up ==> var p := nodes[x].parent.value; p in nodes && level[p] == lx + 1
    requires forall id | id in nodes && id != x && Some(id) != nodes[x].parent ::
      id in a && a[id].children == nodes[id].children
    requires x in a && n in a && (lx >= 1 ==> a[x].children + a[n].children == nodes[x].children)
    requires up ==> r in a && a[r].children == [x, n]
    requires !up ==> var p := nodes[x].parent.value; var P := nodes[p];
      p in a && x in P.children && a[p].children == InsertAt(P.children, IndexOfChild(P.children, x) + 1, n)
    requires Layered(a, SplitLevels(levels, lx, j, n, r, up), SplitLevel(level, lx, n, r, depth, up),
                     if up then r else root, if up then depth + 1 else depth)
    ensures Linked(a, SplitLevels(levels, lx, j, n, r, up))
  {
    var ls := SplitLevels(levels, lx, j, n, r, up);
    LayeredAllIn(a, ls, SplitLevel(level, lx, n, r, depth, up), if up then r else root, if up then depth + 1 else depth);
    forall l | 0 <= l < |ls| - 1 ensures LevelLinked(a, ls, l) {
      LinkedAfterSplitAt(nodes, a, levels, level, root, depth, x, n, r, lx, j, up, l);
    }
  }

  lemma LinkedAfterSplitAt<V>(nodes: Arena<V>, a: Arena<V>, levels: seq<seq<nat>>, level: map<nat, nat>,
                              root: nat, depth: int, x: nat, n: nat, r: nat, lx: nat, j: nat, up: bool, l: nat)
    requires SplitSpot(nodes, levels, level, root, depth, x, n, r, lx, j, up) && Linked(nodes, levels)
    requires up <==> nodes[x].parent.None?
    requires !up ==> var p := nodes[x].parent.value; p in nodes && level[p] == lx + 1
    requires forall id | id in nodes && id != x && Some(id) != nodes[x].parent ::
      id in a && a[id].children == nodes[id].children
    requires x in a && n in a && (lx >= 1 ==> a[x].children + a[n].children == nodes[x].children)
    requires up ==> r in a && a[r].children == [x, n]
    requires !up ==> var p := nodes[x].parent.value; var P := nodes[p];
      p in a && x in P.children && a[p].children == InsertAt(P.children, IndexOfChild(P.children, x) + 1, n)
    requires Layered(a, SplitLevels(levels, lx, j, n, r, up), SplitLevel(level, lx, n, r, depth, up),
                     if up then r else root, if up then depth + 1 else depth)
    requires l + 1 < |SplitLevels(levels, lx, j, n, r, up)|
    ensures AllIn(a, SplitLevels(levels, lx, j, n, r, up)[l + 1]) && LevelLinked(a, SplitLevels(levels, lx, j, n, r, up), l)
  {
    var ls := SplitLevels(levels, lx, j, n, r, up);
    if l + 1 == lx {
      LinkedBelow(nodes, a, levels, level, root, depth, x, n, r, lx, j, up, l);
    } else if l == lx && up {
      LinkedAtRoot(nodes, a, levels, level, root, depth, x, n, r, lx, j);
    } else if l == lx {
      LinkedParentLevel(nodes, a, levels, level, root, depth, x, n, r, lx, j);
    } else {
      LinkedElsewhere(nodes, a, levels, level, root, depth, x, n, r, lx, j, up, l);
    }
  }

  lemma LinkedParentLevel<V>(nodes: Arena<V>, a: Arena<V>, levels: seq<seq<nat>>, level: map<nat, nat>,
                             root: nat, depth: int, x: nat, n: nat, r: nat, lx: nat, j: nat)
    requires SplitSpot(nodes, levels, level, root, depth, x, n, r, lx, j, false) && Linked(nodes, levels)
    requires nodes[x].parent.Some?
    requires var p := nodes[x].parent.value; p in nodes && level[p] == lx + 1
    requires forall id | id in nodes && id != x && Some(id) != nodes[x].parent ::
      id in a && a[id].children == nodes[id].children
    requires var p := nodes[x].parent.value; var P := nodes[p];
      p in a && x in P.children && a[p].children == InsertAt(P.children, IndexOfChild(P.children, x) + 1, n)
    ensures var ls := SplitLevels(levels, lx, j, n, r, false);
      AllIn(a, ls[lx + 1]) && LevelLinked(a, ls, lx)
  {
    var p := nodes[x].parent.value;
    var U := levels[lx + 1];
    assert p in U;
    var jp :| 0 <= jp < |U| && U[jp] == p;
    forall k | 0 <= k < |U| && k != jp ensures U[k] in a && a[U[k]].children == nodes[U[k]].children {
      assert U[k] != p && level[U[k]] == lx + 1;
    }
    assert LevelLinked(nodes, levels, lx);
    LinkedAtParent(nodes, a, U, jp, levels[lx], j, x, n);
  }

  lemma LeavesAfterSplit<V>(nodes: Arena<V>, a: Arena<V>, levels: seq<seq<nat>>, level: map<nat, nat>,
                            root: nat, depth: int, x: nat, n: nat, r: nat, lx: nat, j: nat, up: bool)
    requires SplitSpot(nodes, levels, level, root, depth, x, n, r, lx, j, up)
    requires ChainOk(nodes, levels[0]) && LeavesOk(nodes, levels[0])
    requires SplitReady(nodes, x) && SplitOutcome(nodes, a, x, n, r)
    requires nodes[x].kind == Leaf <==> lx == 0
    requires nodes[x].parent.Some? ==> var p := nodes[x].parent.value; p in nodes && level[p] == lx + 1
    ensures var ls := SplitLevels(levels, lx, j, n, r, up);
      && ChainOk(a, ls[0]) && LeavesOk(a, ls[0])
      && LeafEntries(a, ls[0]) == LeafEntries(nodes, levels[0])
  {
    var L := levels[0];
    forall i | 0 <= i < |L| ensures level[L[i]] == 0 && Some(L[i]) != nodes[x].parent {
    }
    if lx == 0 {
      ChainAfterLeafSplit(nodes, a, L, j, x, n, r);
      EntriesAfterLeafSplit(nodes, a, L, j, x, n, r);
    } else {
      ChainAfterRouterSplit(nodes, a, L, x, n, r);
      EntriesAfterRouterSplit(nodes, a, L, x, n, r);
    }
  }

  /** How the sizes move in a split: x keeps the lower half, n gets the rest, the parent one more key. */
  lemma SplitSizes<V>(nodes: Arena<V>, a: Arena<V>, x: nat, n: nat, r: nat)
    requires SplitReady(nodes, x) && n !in nodes && r !in nodes && n != r
    requires SplitOutcome(nodes, a, x, n, r)
    ensures x in a && a[x].Size() == nodes[x].Size() / 2
    ensures n in a && a[n].Size() == nodes[x].Size() - nodes[x].Size() / 2 - (if nodes[x].kind == Leaf then 0 else 1)
    ensures nodes[x].parent.Some? ==> var p := nodes[x].parent.value;
      p in a && a[p].Size() == nodes[p].Size() + 1
    ensures nodes[x].parent.None? ==> r in a && a[r].Size() == 1
    ensures forall id | id in nodes && id != x && Some(id) != nodes[x].parent :: id in a && a[id].Size() == nodes[id].Size()
  {
    SplitFrame(nodes, a, x, n, r);
  }

  /**
   * How a split of x into x and the fresh sibling sib changed the page
   * sizes: x keeps the lower half of its keys; sib the upper half, less the
   * separator for a router; x's parent, or the fresh root newRoot, holds
   * one key more; no other page changes size.
   */
  ghost predicate SplitResized<V>(prior: Arena<V>, a: Arena<V>, x: nat, sib: nat, newRoot: Option<nat>)
  {
    && x in prior && x in a && sib in a && a[x].parent.Some?
    && a.Keys == prior.Keys + {sib} + (if newRoot.Some? then {newRoot.value} else {})
    && a[x].Size() == prior[x].Size() / 2
    && a[sib].Size() == prior[x].Size() - prior[x].Size() / 2 - (if prior[x].kind == Leaf then 0 else 1)
    && (newRoot.None? ==>
          && a[x].parent == prior[x].parent && a[x].parent.value in prior
          && a[a[x].parent.value].Size() == prior[a[x].parent.value].Size() + 1)
    && (newRoot.Some? ==> a[x].parent == newRoot && newRoot.value in a && a[newRoot.value].Size() == 1)
    && forall id | id in prior && id != x && Some(id) != a[x].parent :: id in a && a[id].Size() == prior[id].Size()
  }

  /** The same size facts, read off splitNode itself; x ends up under its old parent or under r. */
  lemma SplitNodeSizes<V>(nodes: Arena<V>, x: nat, n: nat, r: nat)
    requires SplitReady(nodes, x) && n !in nodes && r !in nodes && n != r
    ensures SplitResized(nodes, SplitNode(nodes, x, n, r).0, x, n, SplitNode(nodes, x, n, r).1)
    ensures SplitNode(nodes, x, n, r).0[x].parent == (if nodes[x].parent.None? then Some(r) else nodes[x].parent)
  {
    SplitFacts(nodes, x, n, r);
    SplitSizes(nodes, SplitNode(nodes, x, n, r).0, x, n, r);
  }

  /** A split of page x into fresh pages n (and r for a new root) of a well-formed tree. */
  ghost predicate SplitPre<V>(nodes: Arena<V>, levels: seq<seq<nat>>, level: map<nat, nat>, root: nat, depth: int,
                              x: nat, n: nat, r: nat)
  {
    && Wf(nodes, levels, level, root, depth)
    && x in nodes && |nodes[x].keys| >= 1 && n !in nodes && r !in nodes && n != r
  }

  /** The levels once x has been split: n right after x, and [r] on top for a root split. */
  ghost function LevelsAfterSplit(levels: seq<seq<nat>>, level: map<nat, nat>, root: nat, x: nat, n: nat, r: nat): seq<seq<nat>>
    requires x in level && level[x] < |levels| && x in levels[level[x]]
  {
    SplitLevels(levels, level[x], IndexOfChild(levels[level[x]], x), n, r, x == root)
  }

  /** The facts about x that every part of the split proof uses. */
  ghost predicate SplitBasics<V>(nodes: Arena<V>, levels: seq<seq<nat>>, level: map<nat, nat>, root: nat, depth: int,
                                 x: nat, n: nat, r: nat)
  {
    && Layered(nodes, levels, level, root, depth) && root in nodes
    && SplitReady(nodes, x) && n !in nodes && r !in nodes && n != r
    && (nodes[x].parent.None? <==> x == root)
    && (nodes[x].kind == Leaf <==> level[x] == 0)
    && x in levels[level[x]]
    && (x != root ==> var p := nodes[x].parent.value; p in nodes && level[p] == level[x] + 1 && level[x] < depth - 1)
  }

  lemma SplitPreFacts<V>(nodes: Arena<V>, levels: seq<seq<nat>>, level: map<nat, nat>, root: nat, depth: int,
                         x: nat, n: nat, r: nat)
    requires SplitPre(nodes, levels, level, root, depth, x, n, r)
    ensures SplitBasics(nodes, levels, level, root, depth, x, n, r)
    ensures LeavesOk(nodes, levels[0])
    ensures nodes[x].kind != Leaf ==> Distinct(nodes[x].children)
  {
    WfSplitReady(nodes, levels, level, root, depth, x);
    LeavesOkFromWf(nodes, levels, level, root, depth);
    WfRoot(nodes, levels, level, root, depth);
    assert x in levels[level[x]];
    if x != root {
      ReadyParent(nodes, levels, level, root, depth, x);
    }
    if level[x] >= 1 {
      var jj, s := WfChildren(nodes, levels, level, root, depth, x);
    }
  }

  lemma SplitBasicsFacts<V>(nodes: Arena<V>, levels: seq<seq<nat>>, level: map<nat, nat>, root: nat, depth: int,
                            x: nat, n: nat, r: nat)
    requires SplitBasics(nodes, levels, level, root, depth, x, n, r)
    ensures x in level && level[x] < |levels|
    ensures var lx := level[x]; var j := IndexOfChild(levels[lx], x);
      SplitSpot(nodes, levels, level, root, depth, x, n, r, lx, j, x == root)
  {
  }

  lemma SplitWfLayered<V>(nodes: Arena<V>, a: Arena<V>, levels: seq<seq<nat>>, level: map<nat, nat>, root: nat, depth: int,
                          x: nat, n: nat, r: nat)
    requires SplitBasics(nodes, levels, level, root, depth, x, n, r) && SplitOutcome(nodes, a, x, n, r)
    ensures x in level && level[x] < |levels| && x in levels[level[x]]
    ensures Layered(a, LevelsAfterSplit(levels, level, root, x, n, r),
                    SplitLevel(level, level[x], n, r, depth, x == root),
                    if x == root then r else root, if x == root then depth + 1 else depth)
  {
    SplitBasicsFacts(nodes, levels, level, root, depth, x, n, r);
    var lx := level[x];
    LayeredAfterSplit(nodes, a, levels, level, root, depth, x, n, r, lx, IndexOfChild(levels[lx], x), x == root);
  }

  /** What the level-by-level argument needs from the outcome of the split. */
  lemma LinkedInputs<V>(nodes: Arena<V>, a: Arena<V>, x: nat, n: nat, r: nat)
    requires SplitReady(nodes, x) && n !in nodes && r !in nodes && n != r
    requires SplitOutcome(nodes, a, x, n, r)
    ensures x in a && n in a && (nodes[x].kind != Leaf ==> a[x].children + a[n].children == nodes[x].children)
    ensures nodes[x].parent.None? ==> r in a && a[r].children == [x, n]
    ensures nodes[x].parent.Some? ==> var p := nodes[x].parent.value; var P := nodes[p];
      p in a && x in P.children && a[p].children == InsertAt(P.children, IndexOfChild(P.children, x) + 1, n)
  {
    HalvesChildren(nodes, a, x, n, r);
  }

  lemma HalvesChildren<V>(nodes: Arena<V>, a: Arena<V>, x: nat, n: nat, r: nat)
    requires SplitReady(nodes, x) && n !in nodes && r !in nodes && n != r
    requires SplitOutcome(nodes, a, x, n, r)
    ensures x in a && n in a && (nodes[x].kind != Leaf ==> a[x].children + a[n].children == nodes[x].children)
  {
    var X := nodes[x];
    var mid := |X.keys| / 2;
    if X.kind != Leaf {
      assert a[x].children == X.children[..mid + 1] && a[n].children == X.children[mid + 1..];
      HalvesJoin(X.children, mid + 1, a[x].children, a[n].children);
    }
  }

  /** The two halves of a sequence, cut at k, make it up again. */
  lemma HalvesJoin(s: seq<nat>, k: nat, A: seq<nat>, B: seq<nat>)
    requires k <= |s| && A == s[..k] && B == s[k..]
    ensures A + B == s
  {
  }

  lemma SplitWfLinked<V>(nodes: Arena<V>, a: Arena<V>, levels: seq<seq<nat>>, level: map<nat, nat>, root: nat, depth: int,
                         x: nat, n: nat, r: nat)
    requires SplitBasics(nodes, levels, level, root, depth, x, n, r) && SplitOutcome(nodes, a, x, n, r)
    requires Linked(nodes, levels)
    ensures x in level && level[x] < |levels| && x in levels[level[x]]
    ensures var ls := LevelsAfterSplit(levels, level, root, x, n, r);
      (forall l | 0 <= l < |ls| :: AllIn(a, ls[l])) && Linked(a, ls)
  {
    SplitBasicsFacts(nodes, levels, level, root, depth, x, n, r);
    SplitWfLayered(nodes, a, levels, level, root, depth, x, n, r);
    LinkedInputs(nodes, a, x, n, r);
    SplitFrame(nodes, a, x, n, r);
    var lx := level[x];
    LinkedAfterSplit(nodes, a, levels, level, root, depth, x, n, r, lx, IndexOfChild(levels[lx], x), x == root);
  }

  lemma PagesInputs<V>(nodes: Arena<V>, a: Arena<V>, level: map<nat, nat>, root: nat, depth: nat,
                       lx: nat, n: nat, r: nat, up: bool)
    requires level.Keys == nodes.Keys && n !in nodes && r !in nodes && n != r
    requires a.Keys == nodes.Keys + {n} + (if up then {r} else {})
    ensures var lv := SplitLevel(level, lx, n, r, depth, up);
      var root' := if up then r else root;
      && lv.Keys == a.Keys && nodes.Keys <= a.Keys
      && (forall id | id in a && id != n && id != root' :: id in nodes)
      && (forall id | id in nodes :: lv[id] == level[id])
  {
  }

  lemma SplitWfPages<V>(nodes: Arena<V>, a: Arena<V>, levels: seq<seq<nat>>, level: map<nat, nat>, root: nat, depth: int,
                        x: nat, n: nat, r: nat)
    requires SplitBasics(nodes, levels, level, root, depth, x, n, r) && SplitOutcome(nodes, a, x, n, r)
    requires PagesOk(nodes, level, root) && ParentsOk(nodes)
    ensures x in level
    ensures PagesOk(a, SplitLevel(level, level[x], n, r, depth, x == root), if x == root then r else root)
  {
    var X := nodes[x];
    var lx := level[x];
    var up := x == root;
    var root' := if up then r else root;
    assert PageOk(X, lx, up);
    PageOkHalves(nodes, a, x, n, r, lx, root');
    if !up {
      var p := X.parent.value;
      assert PageOk(nodes[p], level[p], p == root);
      PageOkParent(nodes, a, x, n, r, level[p], p == root);
    }
    SplitShapeFrame(nodes, a, x, n, r);
    PagesInputs(nodes, a, level, root, depth, lx, n, r, up);
    PagesOkAfterSplit(nodes, a, level, root, x, n, X.parent, SplitLevel(level, lx, n, r, depth, up), root');
  }

  lemma SplitWfLeaves<V>(nodes: Arena<V>, a: Arena<V>, levels: seq<seq<nat>>, level: map<nat, nat>, root: nat, depth: int,
                         x: nat, n: nat, r: nat)
    requires SplitBasics(nodes, levels, level, root, depth, x, n, r) && SplitOutcome(nodes, a, x, n, r)
    requires ChainOk(nodes, levels[0]) && LeavesOk(nodes, levels[0])
    ensures x in level && level[x] < |levels| && x in levels[level[x]]
    ensures var ls := LevelsAfterSplit(levels, level, root, x, n, r);
      && ChainOk(a, ls[0]) && LeavesOk(a, ls[0])
      && LeafEntries(a, ls[0]) == LeafEntries(nodes, levels[0])
  {
    SplitBasicsFacts(nodes, levels, level, root, depth, x, n, r);
    var lx := level[x];
    LeavesAfterSplit(nodes, a, levels, level, root, depth, x, n, r, lx, IndexOfChild(levels[lx], x), x == root);
  }

  /**
   * splitNode preserves the structural invariant and the contents. The page n
   * joins x's level right after x; when x was the root, r becomes the new
   * root one level higher.
   */
  lemma SplitWf<V>(nodes: Arena<V>, levels: seq<seq<nat>>, level: map<nat, nat>, root: nat, depth: int,
                   x: nat, n: nat, r: nat)
    requires SplitPre(nodes, levels, level, root, depth, x, n, r)
    ensures SplitReady(nodes, x) && (nodes[x].parent.None? <==> x == root)
    ensures x in level && level[x] < |levels| && x in levels[level[x]]
    ensures var ls := LevelsAfterSplit(levels, level, root, x, n, r);
      var a := SplitNode(nodes, x, n, r).0;
      && Wf(a, ls, SplitLevel(level, level[x], n, r, depth, x == root),
            if x == root then r else root, if x == root then depth + 1 else depth)
      && LeavesOk(a, ls[0]) && LeavesOk(nodes, levels[0])
      && LeafEntries(a, ls[0]) == LeafEntries(nodes, levels[0])
  {
    SplitPreFacts(nodes, levels, level, root, depth, x, n, r);
    SplitFacts(nodes, x, n, r);
    var a := SplitNode(nodes, x, n, r).0;
    SplitWfLayered(nodes, a, levels, level, root, depth, x, n, r);
    SplitWfLinked(nodes, a, levels, level, root, depth, x, n, r);
    SplitWfPages(nodes, a, levels, level, root, depth, x, n, r);
    ParentsOkAfterSplit(nodes, a, x, n, r);
    SplitWfLeaves(nodes, a, levels, level, root, depth, x, n, r);
  }

  /**
   * One step of the split cascade, packaged for the tree object: the new
   * layout (ls, lv) is returned without its definition, together with every
   * fact the caller needs about the split arena.
   */
  lemma SplitStep<V>(nodes: Arena<V>, levels: seq<seq<nat>>, level: map<nat, nat>, root: nat, depth: int,
                     x: nat, n: nat, r: nat)
    requires SplitPre(nodes, levels, level, root, depth, x, n, r)
    ensures SplitReady(nodes, x) && (nodes[x].parent.None? <==> x == root)
    ensures x in level && level[x] < |levels| && x in levels[level[x]] && depth >= 1
    ensures x == root ==> level[x] == depth - 1
    ensures var a := SplitNode(nodes, x, n, r).0;
      var up := SplitNode(nodes, x, n, r).1.Some?;
      var ls := LevelsAfterSplit(levels, level, root, x, n, r);
      var lv := SplitLevel(level, level[x], n, r, depth, up);
      && Wf(a, ls, lv, if up then r else root, if up then depth + 1 else depth)
      && LeavesOk(a, ls[0]) && LeavesOk(nodes, levels[0])
      && LeafEntries(a, ls[0]) == LeafEntries(nodes, levels[0])
      && x in a && a[x].parent.Some? && a[x].parent.value in a && lv[a[x].parent.value] == level[x] + 1
      && (!up ==> a[x].parent == nodes[x].parent)
  {
    SplitWf(nodes, levels, level, root, depth, x, n, r);
    SplitNodeSizes(nodes, x, n, r);
    WfRoot(nodes, levels, level, root, depth);
    if x != root {
      ReadyParent(nodes, levels, level, root, depth, x);
    }
  }
}
