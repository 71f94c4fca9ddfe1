/**
 * splitNode: an overflowing page is cut in two and the separator moves up,
 * either into the existing parent or into a brand-new root.
 */
module Split {
  import opened Wrappers
  import opened Nodes
  import opened Shape

  /** What splitNode relies on locally; the structural invariant provides it (WfSplitReady). */
  ghost predicate SplitReady<V>(nodes: Arena<V>, x: nat)
  {
    && x in nodes
    && var X := nodes[x];
    && |X.keys| >= 1
    && (X.kind == Leaf ==>
          && X.children == [] && |X.vals| == |X.keys|
          && (X.next.Some? ==> X.next.value in nodes && X.next.value != x && Some(X.next.value) != X.parent))
    && (X.kind != Leaf ==>
          && |X.children| == |X.keys| + 1
          && (forall k | 0 <= k < |X.children| ::
                X.children[k] in nodes && X.children[k] != x && Some(X.children[k]) != X.parent))
    && (X.parent.Some? ==>
          && X.parent.value in nodes && X.parent.value != x
          && x in nodes[X.parent.value].children
          && |nodes[X.parent.value].children| == |nodes[X.parent.value].keys| + 1)
  }

  /** The same arena with the pages `moved` re-parented to `n`. */
  function Reparent<V>(nodes: Arena<V>, moved: seq<nat>, n: nat): (r: Arena<V>)
    ensures r.Keys == nodes.Keys
    ensures forall id | id in nodes && id in moved :: r[id] == nodes[id].(parent := Some(n))
    ensures forall id | id in nodes && id !in moved :: r[id] == nodes[id]
  {
    map id | id in nodes :: if id in moved then nodes[id].(parent := Some(n)) else nodes[id]
  }

  /** The halves of page x: x keeps the left part, the fresh page n gets the right part. */
  function Divide<V>(nodes: Arena<V>, x: nat, n: nat): (a: Arena<V>)
    requires SplitReady(nodes, x) && n !in nodes
    ensures a.Keys == nodes.Keys + {n}
  {
    var X := nodes[x];
    var mid := |X.keys| / 2;
    if X.kind == Leaf then
      var a := nodes[x := X.(keys := X.keys[..mid], vals := X.vals[..mid], next := Some(n))]
                    [n := Node(Leaf, X.keys[mid..], X.vals[mid..], [], X.parent, Some(x), X.next)];
      if X.next.Some? then a[X.next.value := a[X.next.value].(prev := Some(n))] else a
    else
      Reparent(nodes, X.children[mid + 1..], n)
        [x := X.(keys := X.keys[..mid], children := X.children[..mid + 1])]
        [n := Node(Internal, X.keys[mid + 1..], [], X.children[mid + 1..], X.parent, None, None)]
  }

  /**
   * splitNode on page x: the left half stays in x, the right half goes to the
   * fresh page n. A leaf copies its middle key up and threads n into the leaf
   * chain; a router hands its middle key up and re-parents the children it
   * gives away. Without a parent, the fresh page r becomes the new root and is
   * returned.
   */
  function SplitNode<V>(nodes: Arena<V>, x: nat, n: nat, r: nat): (res: (Arena<V>, Option<nat>))
    requires SplitReady(nodes, x) && n !in nodes && r !in nodes && n != r
    ensures res.1.Some? <==> nodes[x].parent.None?
    ensures res.1.Some? ==> res.1.value == r
    ensures res.0.Keys == nodes.Keys + {n} + (if res.1.Some? then {r} else {})
  {
    var X := nodes[x];
    var sep := X.keys[|X.keys| / 2];
    var divided := Divide(nodes, x, n);
    match X.parent
    case Some(p) =>
      var P := divided[p];
      assert x in P.children;
      var i := IndexOfChild(P.children, x);
      (divided[p := P.(keys := InsertAt(P.keys, i, sep), children := InsertAt(P.children, i + 1, n))], None)
    case None =>
      var X' := divided[x];
      (divided[x := X'.(parent := Some(r), kind := if X.kind == Leaf then Leaf else Internal)]
              [n := divided[n].(parent := Some(r))]
              [r := Node(Root, [sep], [], [x, n], None, None, None)], Some(r))
  }

  // ---------------------------------------------------------------------
  // What a split changes, page by page

  ghost predicate SplitOutcome<V>(nodes: Arena<V>, a: Arena<V>, x: nat, n: nat, r: nat)
    requires SplitReady(nodes, x)
  {
    var X := nodes[x];
    var mid := |X.keys| / 2;
    var leaf := X.kind == Leaf;
    var moved := if leaf then [] else X.children[mid + 1..];
    var up := X.parent.None?;
    var par := if up then Some(r) else X.parent;
    var m := if leaf then X.next else None;
    && a.Keys == nodes.Keys + {n} + (if up then {r} else {})
    && a[x] == X.(keys := X.keys[..mid],
                  vals := if leaf then X.vals[..mid] else X.vals,
                  children := if leaf then [] else X.children[..mid + 1],
                  next := if leaf then Some(n) else X.next,
                  parent := par,
                  kind := if up && !leaf then Internal else X.kind)
    && a[n] == Node(if leaf then Leaf else Internal,
                    if leaf then X.keys[mid..] else X.keys[mid + 1..],
                    if leaf then X.vals[mid..] else [],
                    moved, par,
                    if leaf then Some(x) else None,
                    if leaf then X.next else None)
    && (!up ==>
          var p := X.parent.value;
          var P := nodes[p];
          var i := IndexOfChild(P.children, x);
          a[p] == P.(keys := InsertAt(P.keys, i, X.keys[mid]), children := InsertAt(P.children, i + 1, n)))
    && (up ==> a[r] == Node(Root, [X.keys[mid]], [], [x, n], None, None, None))
    && (forall c | c in moved :: a[c] == nodes[c].(parent := Some(n)))
    && (m.Some? ==> a[m.value] == nodes[m.value].(prev := Some(n)))
    && (forall id | id in nodes && id != x && Some(id) != X.parent && id !in moved && Some(id) != m ::
          a[id] == nodes[id])
  }

  ghost predicate DivideOutcome<V>(nodes: Arena<V>, a: Arena<V>, x: nat, n: nat)
    requires SplitReady(nodes, x)
  {
      var X := nodes[x];
      var mid := |X.keys| / 2;
      var leaf := X.kind == Leaf;
      var moved := if leaf then [] else X.children[mid + 1..];
      var m := if leaf then X.next else None;
      && a.Keys == nodes.Keys + {n}
      && a[x] == X.(keys := X.keys[..mid],
                    vals := if leaf then X.vals[..mid] else X.vals,
                    children := if leaf then [] else X.children[..mid + 1],
                    next := if leaf then Some(n) else X.next)
      && a[n] == Node(if leaf then Leaf else Internal,
                      if leaf then X.keys[mid..] else X.keys[mid + 1..],
                      if leaf then X.vals[mid..] else [],
                      moved, X.parent,
                      if leaf then Some(x) else None,
                      if leaf then X.next else None)
      && (forall c | c in moved :: a[c] == nodes[c].(parent := Some(n)))
      && (m.Some? ==> a[m.value] == nodes[m.value].(prev := Some(n)))
      && (forall id | id in nodes && id != x && id !in moved && Some(id) != m :: a[id] == nodes[id])
  }

  lemma DivideFacts<V>(nodes: Arena<V>, x: nat, n: nat)
    requires SplitReady(nodes, x) && n !in nodes
    ensures DivideOutcome(nodes, Divide(nodes, x, n), x, n)
  {
    var X := nodes[x];
    var mid := |X.keys| / 2;
    if X.kind != Leaf {
      forall c | c in X.children[mid + 1..] ensures c in nodes && c != x {
        var k :| mid + 1 <= k < |X.children| && X.children[k] == c;
      }
    }
  }

  lemma SplitFacts<V>(nodes: Arena<V>, x: nat, n: nat, r: nat)
    requires SplitReady(nodes, x) && n !in nodes && r !in nodes && n != r
    ensures SplitOutcome(nodes, SplitNode(nodes, x, n, r).0, x, n, r)
  {
    DivideFacts(nodes, x, n);
    var X := nodes[x];
    var mid := |X.keys| / 2;
    var moved := if X.kind == Leaf then [] else X.children[mid + 1..];
    forall c | c in moved ensures c in nodes && c != x && Some(c) != X.parent {
      var k :| mid + 1 <= k < |X.children| && X.children[k] == c;
    }
    if X.parent.Some? {
      SplitFactsChild(nodes, x, n, r);
    } else {
      SplitFactsRoot(nodes, x, n, r);
    }
  }

  lemma SplitFactsChild<V>(nodes: Arena<V>, x: nat, n: nat, r: nat)
    requires SplitReady(nodes, x) && n !in nodes && r !in nodes && n != r
    requires nodes[x].parent.Some?
    requires var X := nodes[x]; var mid := |X.keys| / 2;
      forall c | c in (if X.kind == Leaf then [] else X.children[mid + 1..]) :: c in nodes && c != x && Some(c) != X.parent
    requires DivideOutcome(nodes, Divide(nodes, x, n), x, n)
    ensures SplitOutcome(nodes, SplitNode(nodes, x, n, r).0, x, n, r)
  {
    var X := nodes[x];
    var mid := |X.keys| / 2;
    var d := Divide(nodes, x, n);
    var p := X.parent.value;
    assert d[p] == nodes[p];
    var P := nodes[p];
    var i := IndexOfChild(P.children, x);
    var a := SplitNode(nodes, x, n, r).0;
    assert a == d[p := P.(keys := InsertAt(P.keys, i, X.keys[mid]), children := InsertAt(P.children, i + 1, n))];
  }

  lemma SplitFactsRoot<V>(nodes: Arena<V>, x: nat, n: nat, r: nat)
    requires SplitReady(nodes, x) && n !in nodes && r !in nodes && n != r
    requires nodes[x].parent.None?
    requires DivideOutcome(nodes, Divide(nodes, x, n), x, n)
    ensures SplitOutcome(nodes, SplitNode(nodes, x, n, r).0, x, n, r)
  {
    var X := nodes[x];
    var mid := |X.keys| / 2;
    var d := Divide(nodes, x, n);
    var a := SplitNode(nodes, x, n, r).0;
    assert a == d[x := d[x].(parent := Some(r), kind := if X.kind == Leaf then Leaf else Internal)]
                 [n := d[n].(parent := Some(r))]
                 [r := Node(Root, [X.keys[mid]], [], [x, n], None, None, None)];
  }
}
