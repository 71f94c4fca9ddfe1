/**
 * removeFromInternal keeps the search order. When a router's separator s
 * (the key being removed) is replaced by m, the first key of the leftmost
 * leaf right of it, the ranges that started at s now start at m: those of
 * the pages on the way from the separator's right child down its first
 * children. The ranges that ended at s now end at m: those of the pages on
 * the way from its left child down its last children. Every other range
 * stays as it was.
 */
module RouterFences {
  import opened Wrappers
  import opened Nodes
  import opened Shape
  import opened Descent
  import opened Fences
  import opened Removal

  /** The pages from id down its first children to a leaf. */
  ghost function LeftSpine<V>(nodes: Arena<V>, levels: seq<seq<nat>>, level: map<nat, nat>, root: nat, depth: int,
                              id: nat): set<nat>
    requires Wf(nodes, levels, level, root, depth) && id in nodes
    decreases level[id]
  {
    StepOk(nodes, levels, level, root, depth, id, 0);
    if nodes[id].kind == Leaf then {id}
    else {id} + LeftSpine(nodes, levels, level, root, depth, nodes[id].children[0])
  }

  /** The pages from id down its last children to a leaf. */
  ghost function RightSpine<V>(nodes: Arena<V>, levels: seq<seq<nat>>, level: map<nat, nat>, root: nat, depth: int,
                               id: nat): set<nat>
    requires Wf(nodes, levels, level, root, depth) && id in nodes
    decreases level[id]
  {
    StepOk(nodes, levels, level, root, depth, id, |nodes[id].keys|);
    if nodes[id].kind == Leaf then {id}
    else {id} + RightSpine(nodes, levels, level, root, depth, nodes[id].children[|nodes[id].keys|])
  }

  /**
   * Every page of the left spine of y shares y's lower bound and, when the
   * leftmost leaf's range holds k, holds k in its range too.
   */
  lemma {:induction false} LeftSpineFacts<V>(nodes: Arena<V>, levels: seq<seq<nat>>, level: map<nat, nat>, root: nat,
                                             depth: int, fence: map<nat, Fence>, y: nat, k: int)
    requires Wf(nodes, levels, level, root, depth) && AllFenced(nodes, fence) && y in nodes
    requires Within(k, fence[Leftmost(nodes, levels, level, root, depth, y)])
    ensures y in LeftSpine(nodes, levels, level, root, depth, y)
    ensures var S := LeftSpine(nodes, levels, level, root, depth, y);
      forall z | z in S ::
        && z in nodes && z in fence && fence[z].lo == fence[y].lo && Within(k, fence[z])
        && (z == y || (nodes[z].parent.Some? && nodes[z].parent.value in S))
        && (nodes[z].kind == Leaf ==> z == Leftmost(nodes, levels, level, root, depth, y))
        && (nodes[z].kind != Leaf ==> |nodes[z].children| == |nodes[z].keys| + 1 && nodes[z].children[0] in S)
    decreases level[y]
  {
    StepOk(nodes, levels, level, root, depth, y, 0);
    assert PageOk(nodes[y], level[y], y == root);
    assert PageFenced(nodes, fence, y);
    if nodes[y].kind != Leaf {
      var c := nodes[y].children[0];
      LeftSpineFacts(nodes, levels, level, root, depth, fence, c, k);
      assert fence[c] == Slot(nodes[y].keys, fence[y], 0);
      SlotWithin(nodes[y].keys, fence[y], 0, k);
      assert nodes[c].parent == Some(y);
    }
  }

  /** Every page of the right spine of y shares y's upper bound. */
  lemma {:induction false} RightSpineFacts<V>(nodes: Arena<V>, levels: seq<seq<nat>>, level: map<nat, nat>, root: nat,
                                              depth: int, fence: map<nat, Fence>, y: nat)
    requires Wf(nodes, levels, level, root, depth) && AllFenced(nodes, fence) && y in nodes
    ensures y in RightSpine(nodes, levels, level, root, depth, y)
    ensures var T := RightSpine(nodes, levels, level, root, depth, y);
      forall z | z in T ::
        && z in nodes && z in fence && fence[z].hi == fence[y].hi
        && (z == y || (nodes[z].parent.Some? && nodes[z].parent.value in T))
        && (nodes[z].kind != Leaf ==> |nodes[z].children| == |nodes[z].keys| + 1 && nodes[z].children[|nodes[z].keys|] in T)
    decreases level[y]
  {
    var n := |nodes[y].keys|;
    StepOk(nodes, levels, level, root, depth, y, n);
    assert PageOk(nodes[y], level[y], y == root);
    assert PageFenced(nodes, fence, y);
    if nodes[y].kind != Leaf {
      var c := nodes[y].children[n];
      RightSpineFacts(nodes, levels, level, root, depth, fence, c);
      assert fence[c] == Slot(nodes[y].keys, fence[y], n);
      assert nodes[c].parent == Some(y);
    }
  }

  /** The ranges after the pages of S start at m and the pages of T end at m. */
  ghost function Rerange(fence: map<nat, Fence>, S: set<nat>, T: set<nat>, m: int): (f: map<nat, Fence>)
    ensures f.Keys == fence.Keys
    ensures forall id | id in fence && id !in S && id !in T :: f[id] == fence[id]
  {
    map id | id in fence ::
      if id in S then Fence(Some(m), fence[id].hi)
      else if id in T then Fence(fence[id].lo, Some(m))
      else fence[id]
  }

  /** Every range that neither starts nor ends at s stays as it was. */
  ghost predicate KeepsOthers(fence: map<nat, Fence>, f: map<nat, Fence>, s: int)
  {
    forall c | c in fence && fence[c].lo != Some(s) && fence[c].hi != Some(s) :: c in f && f[c] == fence[c]
  }

  /** A page of the left spine, whose range starts at s, still fits when its range starts at m. */
  lemma LowerFits<V>(Y: Node<V>, F: Fence, fence: map<nat, Fence>, f: map<nat, Fence>, s: int, m: int)
    requires Fits(Y, F, fence) && F.lo == Some(s) && s <= m && Within(m, F) && KeepsOthers(fence, f, s)
    requires Y.kind == Leaf ==> |Y.keys| >= 1 && Y.keys[0] == m
    requires Y.kind != Leaf ==>
      && |Y.children| == |Y.keys| + 1
      && var c := Y.children[0];
      && c in fence && Within(m, fence[c]) && c in f && f[c] == Fence(Some(m), fence[c].hi)
    ensures Fits(Y, Fence(Some(m), F.hi), f)
  {
    var G := Fence(Some(m), F.hi);
    var K := Y.keys;
    if Y.kind != Leaf && |K| >= 1 {
      assert fence[Y.children[0]] == Slot(K, F, 0);
    }
    forall j | 0 <= j < |K| ensures Within(K[j], G) && (m < K[j] || (Y.kind == Leaf && m <= K[j])) {
      assert Within(K[j], F) && K[0] <= K[j];
    }
    if Y.kind != Leaf {
      forall t | 0 <= t < |Y.children| && t <= |K| ensures Y.children[t] in f && f[Y.children[t]] == Slot(K, G, t) {
        assert fence[Y.children[t]] == Slot(K, F, t);
        if t > 0 {
          assert K[0] <= K[t - 1];
          if t < |K| {
            assert K[t - 1] < K[t];
          }
        }
      }
    }
  }

  /** A page of the right spine, whose range ends at s, still fits when its range ends at m. */
  lemma UpperFits<V>(Y: Node<V>, F: Fence, fence: map<nat, Fence>, f: map<nat, Fence>, s: int, m: int)
    requires Fits(Y, F, fence) && F.hi == Some(s) && s <= m && KeepsOthers(fence, f, s)
    requires Y.kind != Leaf ==>
      && |Y.children| == |Y.keys| + 1
      && var c := Y.children[|Y.keys|];
      && c in fence && c in f && f[c] == Fence(fence[c].lo, Some(m))
    ensures Fits(Y, Fence(F.lo, Some(m)), f)
  {
    var G := Fence(F.lo, Some(m));
    var K := Y.keys;
    forall j | 0 <= j < |K| ensures Within(K[j], G) && K[j] < s {
      assert Within(K[j], F);
    }
    if Y.kind != Leaf {
      forall t | 0 <= t < |Y.children| && t <= |K| ensures Y.children[t] in f && f[Y.children[t]] == Slot(K, G, t) {
        assert fence[Y.children[t]] == Slot(K, F, t);
      }
    }
  }

  /** The router, with separator i (which is s) replaced by m, fits the new ranges of its children. */
  lemma RouterFits<V>(X: Node<V>, F: Fence, fence: map<nat, Fence>, f: map<nat, Fence>, i: nat, s: int, m: int, X': Node<V>)
    requires Fits(X, F, fence) && X.kind != Leaf && |X.children| == |X.keys| + 1
    requires i < |X.keys| && X.keys[i] == s && s <= m && (F.lo.Some? ==> F.lo.value < X.keys[0])
    requires KeepsOthers(fence, f, s)
    requires var l, r := X.children[i], X.children[i + 1];
      && l in fence && l in f && f[l] == Fence(fence[l].lo, Some(m))
      && r in fence && Within(m, fence[r]) && r in f && f[r] == Fence(Some(m), fence[r].hi)
    requires X'.kind == X.kind && X'.children == X.children && X'.keys == X.keys[i := m]
    ensures Fits(X', F, f)
  {
    var K := X.keys;
    var K' := X'.keys;
    var r := X.children[i + 1];
    assert fence[r] == Slot(K, F, i + 1);
    assert Within(s, F) && Within(K[0], F);
    forall u, v | 0 <= u < v < |K'| ensures K'[u] < K'[v] {
      if u == i {
        assert K[i + 1] <= K[v];
      } else if v == i {
        assert K[u] < K[i];
      }
    }
    forall j | 0 <= j < |K'| ensures Within(K'[j], F) {
      if j == i && i + 1 < |K| {
        assert Within(K[i + 1], F);
      }
    }
    forall t | 0 <= t < |X'.children| && t <= |K'| ensures X'.children[t] in f && f[X'.children[t]] == Slot(K', F, t) {
      assert fence[X.children[t]] == Slot(K, F, t);
      if t < i {
        assert K[t] < K[i];
        if t > 0 {
          assert K[t - 1] < K[i];
        }
      } else if t > i + 1 {
        assert K[i] < K[t - 1];
        if t < |K| {
          assert K[i] < K[t];
        }
      }
    }
  }

  /**
   * The ranges after removeFromInternal on router x: unchanged when the key
   * is not a separator of x or the leaf that would supply the new separator
   * is empty, otherwise moved from s to m along the two spines.
   */
  ghost function RouterFence<V>(nodes: Arena<V>, levels: seq<seq<nat>>, level: map<nat, nat>, root: nat, depth: int,
                                fence: map<nat, Fence>, x: nat, key: int): map<nat, Fence>
    requires Wf(nodes, levels, level, root, depth) && x in nodes && nodes[x].kind != Leaf
  {
    var X := nodes[x];
    var i := FindKey(X.keys, key);
    if i == -1 then fence
    else
      StepOk(nodes, levels, level, root, depth, x, i);
      StepOk(nodes, levels, level, root, depth, x, i + 1);
      var w := Leftmost(nodes, levels, level, root, depth, X.children[i + 1]);
      if nodes[w].keys == [] then fence
      else
        Rerange(fence, LeftSpine(nodes, levels, level, root, depth, X.children[i + 1]),
                RightSpine(nodes, levels, level, root, depth, X.children[i]), nodes[w].keys[0])
  }

  /** The two spines below separator s of router x: all of S starts at s, all of T ends at s. */
  ghost predicate Spines<V>(nodes: Arena<V>, fence: map<nat, Fence>, x: nat, i: nat, S: set<nat>, T: set<nat>, s: int)
  {
    && x in nodes && nodes[x].kind != Leaf && |nodes[x].children| == |nodes[x].keys| + 1
    && i < |nodes[x].keys| && nodes[x].keys[i] == s
    && nodes[x].children[i] in T && nodes[x].children[i + 1] in S
    && (forall z | z in S :: z in nodes && z in fence && fence[z].lo == Some(s))
    && (forall z | z in T :: z in nodes && z in fence && fence[z].hi == Some(s))
  }

  /** No open range both starts and ends at s, and x's own range holds s strictly inside. */
  lemma SpinesApart<V>(nodes: Arena<V>, fence: map<nat, Fence>, x: nat, i: nat, S: set<nat>, T: set<nat>, s: int)
    requires AllFenced(nodes, fence) && Spines(nodes, fence, x, i, S, T, s) && nodes[x].children[0] in nodes
    ensures S !! T && x !in S && x !in T
    ensures fence[x].lo != Some(s) && fence[x].hi != Some(s)
  {
    forall z | z in S ensures z !in T {
      assert PageFenced(nodes, fence, z);
    }
    assert PageFenced(nodes, fence, x);
    assert Within(nodes[x].keys[i], fence[x]) && nodes[x].keys[0] <= s;
    assert PageFenced(nodes, fence, nodes[x].children[0]);
  }

  /** The pages of both spines fit their new ranges. */
  lemma SpinePagesFit<V>(nodes: Arena<V>, fence: map<nat, Fence>, x: nat, i: nat, S: set<nat>, T: set<nat>,
                         s: int, m: int, w: nat, f: map<nat, Fence>)
    requires AllFenced(nodes, fence) && S !! T && s <= m && f == Rerange(fence, S, T, m)
    requires Spines(nodes, fence, x, i, S, T, s) && SpineShapes(nodes, fence, x, i, S, T, m, w)
    requires w in nodes && |nodes[w].keys| >= 1 && nodes[w].keys[0] == m
    ensures KeepsOthers(fence, f, s)
    ensures forall z | z in S + T :: z in f && Fits(nodes[z], f[z], f)
  {
    forall z | z in S ensures z in f && Fits(nodes[z], f[z], f) {
      assert PageFenced(nodes, fence, z);
      LowerFits(nodes[z], fence[z], fence, f, s, m);
    }
    forall z | z in T ensures z in f && Fits(nodes[z], f[z], f) {
      assert PageFenced(nodes, fence, z);
      UpperFits(nodes[z], fence[z], fence, f, s, m);
    }
  }

  /** The spine shapes LeftSpineFacts and RightSpineFacts provide. */
  ghost predicate SpineShapes<V>(nodes: Arena<V>, fence: map<nat, Fence>, x: nat, i: nat, S: set<nat>, T: set<nat>, m: int, w: nat)
    requires x in nodes && i + 1 < |nodes[x].children|
  {
    && (forall z | z in S ::
          && z in nodes && z in fence && Within(m, fence[z]) && (nodes[z].kind == Leaf ==> z == w)
          && (z == nodes[x].children[i + 1] || (nodes[z].parent.Some? && nodes[z].parent.value in S))
          && (nodes[z].kind != Leaf ==> |nodes[z].children| == |nodes[z].keys| + 1 && nodes[z].children[0] in S))
    && (forall z | z in T ::
          && z in nodes
          && (z == nodes[x].children[i] || (nodes[z].parent.Some? && nodes[z].parent.value in T))
          && (nodes[z].kind != Leaf ==> |nodes[z].children| == |nodes[z].keys| + 1 && nodes[z].children[|nodes[z].keys|] in T))
  }

  /** Moving the spines' bound from s to m, and separator i of x with it, keeps the search order. */
  lemma RerangeFenced<V>(nodes: Arena<V>, fence: map<nat, Fence>, root: nat, x: nat, i: nat, S: set<nat>, T: set<nat>,
                         s: int, m: int, w: nat, X': Node<V>)
    requires Fenced(nodes, fence, root) && ParentsOk(nodes) && Spines(nodes, fence, x, i, S, T, s)
    requires nodes[x].children[0] in nodes && SpineShapes(nodes, fence, x, i, S, T, m, w)
    requires w in nodes && |nodes[w].keys| >= 1 && nodes[w].keys[0] == m && s <= m
    requires X'.kind == nodes[x].kind && X'.children == nodes[x].children && X'.keys == nodes[x].keys[i := m]
    ensures Fenced(nodes[x := X'], Rerange(fence, S, T, m), root)
  {
    var f := Rerange(fence, S, T, m);
    SpinesApart(nodes, fence, x, i, S, T, s);
    SpinePagesFit(nodes, fence, x, i, S, T, s, m, w, f);
    SpineParents(nodes, fence, x, i, S, T, m, w);
    RouterPage(nodes, fence, x, i, S, T, s, m, X');
    assert root !in S && root !in T;
    SpineFrame(nodes, fence, f, x, X', S + T);
  }

  /** The spine pages hang below x. */
  lemma SpineParents<V>(nodes: Arena<V>, fence: map<nat, Fence>, x: nat, i: nat, S: set<nat>, T: set<nat>, m: int, w: nat)
    requires ParentsOk(nodes) && x in nodes && i + 1 < |nodes[x].children| && SpineShapes(nodes, fence, x, i, S, T, m, w)
    ensures forall z | z in S + T ::
      z in nodes && nodes[z].parent.Some? && (nodes[z].parent.value == x || nodes[z].parent.value in S + T)
  {
    var l, r := nodes[x].children[i], nodes[x].children[i + 1];
    assert nodes[r].parent == Some(x) && nodes[l].parent == Some(x);
  }

  /** Router x, with separator i replaced by m, fits the spines' new ranges. */
  lemma RouterPage<V>(nodes: Arena<V>, fence: map<nat, Fence>, x: nat, i: nat, S: set<nat>, T: set<nat>,
                      s: int, m: int, X': Node<V>)
    requires AllFenced(nodes, fence) && Spines(nodes, fence, x, i, S, T, s) && nodes[x].children[0] in nodes
    requires S !! T && x !in S + T && KeepsOthers(fence, Rerange(fence, S, T, m), s) && s <= m
    requires Within(m, fence[nodes[x].children[i + 1]])
    requires X'.kind == nodes[x].kind && X'.children == nodes[x].children && X'.keys == nodes[x].keys[i := m]
    ensures var f := Rerange(fence, S, T, m); x in f && Fits(X', f[x], f)
  {
    var f := Rerange(fence, S, T, m);
    FirstSeparatorAbove(nodes, fence, x);
    assert PageFenced(nodes, fence, x);
    RouterFits(nodes[x], fence[x], fence, f, i, s, m, X');
  }

  /** FencedFrame for a rewrite of router x that moves the ranges of the pages of U, which hang below x. */
  lemma SpineFrame<V>(nodes: Arena<V>, fence: map<nat, Fence>, f: map<nat, Fence>, x: nat, X': Node<V>, U: set<nat>)
    requires AllFenced(nodes, fence) && ParentsOk(nodes) && x in nodes && x !in U
    requires X'.kind == nodes[x].kind && X'.children == nodes[x].children && x in f && Fits(X', f[x], f)
    requires forall z | z in U :: z in nodes && nodes[z].parent.Some? && (nodes[z].parent.value == x || nodes[z].parent.value in U)
    requires forall z | z in U :: z in f && Fits(nodes[z], f[z], f)
    requires forall id | id in nodes && id !in U :: id in f && f[id] == fence[id]
    ensures AllFenced(nodes[x := X'], f)
  {
    var a := nodes[x := X'];
    forall z | z in U ensures PageFenced(a, f, z) {
      assert a[z] == nodes[z];
    }
    FencedFrame(nodes, fence, a, f, {x} + U, U);
  }

  /** The spines below separator i of router x, whose right child's leftmost leaf w is not empty. */
  lemma SpineSetup<V>(nodes: Arena<V>, levels: seq<seq<nat>>, level: map<nat, nat>, root: nat, depth: int,
                      fence: map<nat, Fence>, x: nat, i: nat)
    requires Wf(nodes, levels, level, root, depth) && AllFenced(nodes, fence) && x in nodes && nodes[x].kind != Leaf
    requires i < |nodes[x].keys|
    ensures |nodes[x].children| == |nodes[x].keys| + 1 && nodes[x].children[0] in nodes
    ensures nodes[x].children[i] in nodes && nodes[x].children[i + 1] in nodes
    ensures var l, r := nodes[x].children[i], nodes[x].children[i + 1];
      var w := Leftmost(nodes, levels, level, root, depth, r);
      var S, T := LeftSpine(nodes, levels, level, root, depth, r), RightSpine(nodes, levels, level, root, depth, l);
      nodes[w].keys != [] ==>
        && Spines(nodes, fence, x, i, S, T, nodes[x].keys[i])
        && SpineShapes(nodes, fence, x, i, S, T, nodes[w].keys[0], w)
        && nodes[x].keys[i] <= nodes[w].keys[0]
  {
    StepOk(nodes, levels, level, root, depth, x, i);
    StepOk(nodes, levels, level, root, depth, x, i + 1);
    StepOk(nodes, levels, level, root, depth, x, 0);
    var X := nodes[x];
    var l, r := X.children[i], X.children[i + 1];
    var w := Leftmost(nodes, levels, level, root, depth, r);
    if nodes[w].keys != [] {
      var m := nodes[w].keys[0];
      assert PageFenced(nodes, fence, w);
      assert PageFenced(nodes, fence, x);
      assert fence[l] == Slot(X.keys, fence[x], i) && fence[r] == Slot(X.keys, fence[x], i + 1);
      LeftSpineFacts(nodes, levels, level, root, depth, fence, r, m);
      RightSpineFacts(nodes, levels, level, root, depth, fence, l);
    }
  }

  /** When removeFromInternal leaves router x as it is, it leaves every range as it is. */
  lemma RouterKept<V>(nodes: Arena<V>, levels: seq<seq<nat>>, level: map<nat, nat>, root: nat, depth: int,
                      fence: map<nat, Fence>, x: nat, key: int)
    requires Wf(nodes, levels, level, root, depth) && x in nodes && nodes[x].kind != Leaf
    requires var i := FindKey(nodes[x].keys, key);
      i == -1 || (i + 1 < |nodes[x].children| && nodes[x].children[i + 1] in nodes &&
                  nodes[Leftmost(nodes, levels, level, root, depth, nodes[x].children[i + 1])].keys == [])
    ensures RemoveFromRouter(nodes, levels, level, root, depth, x, key) == nodes[x]
    ensures RouterFence(nodes, levels, level, root, depth, fence, x, key) == fence
  {
  }

  /** Otherwise separator i becomes m, the first key of leaf w, and the spines' ranges move to m. */
  lemma RouterMoved<V>(nodes: Arena<V>, levels: seq<seq<nat>>, level: map<nat, nat>, root: nat, depth: int,
                       fence: map<nat, Fence>, x: nat, key: int, i: nat, w: nat)
    requires Wf(nodes, levels, level, root, depth) && x in nodes && nodes[x].kind != Leaf
    requires i == FindKey(nodes[x].keys, key) && i + 1 < |nodes[x].children|
    requires nodes[x].children[i] in nodes && nodes[x].children[i + 1] in nodes
    requires w == Leftmost(nodes, levels, level, root, depth, nodes[x].children[i + 1]) && nodes[w].keys != []
    ensures var X' := RemoveFromRouter(nodes, levels, level, root, depth, x, key);
      X'.kind == nodes[x].kind && X'.children == nodes[x].children && X'.keys == nodes[x].keys[i := nodes[w].keys[0]]
    ensures RouterFence(nodes, levels, level, root, depth, fence, x, key) ==
      Rerange(fence, LeftSpine(nodes, levels, level, root, depth, nodes[x].children[i + 1]),
              RightSpine(nodes, levels, level, root, depth, nodes[x].children[i]), nodes[w].keys[0])
  {
    var X' := RemoveFromRouter(nodes, levels, level, root, depth, x, key);
    assert X'.keys == nodes[x].keys[i := nodes[w].keys[0]];
  }

  /** removeFromInternal keeps the search order, with the ranges of RouterFence. */
  lemma RouterRemoveFenced<V>(nodes: Arena<V>, levels: seq<seq<nat>>, level: map<nat, nat>, root: nat, depth: int,
                              fence: map<nat, Fence>, x: nat, key: int)
    requires Wf(nodes, levels, level, root, depth) && Fenced(nodes, fence, root) && x in nodes && nodes[x].kind != Leaf
    ensures Fenced(nodes[x := RemoveFromRouter(nodes, levels, level, root, depth, x, key)],
                   RouterFence(nodes, levels, level, root, depth, fence, x, key), root)
  {
    var X := nodes[x];
    var i := FindKey(X.keys, key);
    if i == -1 {
      RouterKept(nodes, levels, level, root, depth, fence, x, key);
      assert nodes[x := X] == nodes;
    } else {
      SpineSetup(nodes, levels, level, root, depth, fence, x, i);
      var w := Leftmost(nodes, levels, level, root, depth, X.children[i + 1]);
      if nodes[w].keys == [] {
        RouterKept(nodes, levels, level, root, depth, fence, x, key);
        assert nodes[x := X] == nodes;
      } else {
        RouterMoved(nodes, levels, level, root, depth, fence, x, key, i, w);
        var S := LeftSpine(nodes, levels, level, root, depth, X.children[i + 1]);
        var T := RightSpine(nodes, levels, level, root, depth, X.children[i]);
        RerangeFenced(nodes, fence, root, x, i, S, T, X.keys[i], nodes[w].keys[0], w,
                      RemoveFromRouter(nodes, levels, level, root, depth, x, key));
      }
    }
  }
}
