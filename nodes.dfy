/**
 * One page of the B+-tree and the operations that work on a single page.
 *
 * A page is a value here; the tree keeps its pages in an arena (see Shape)
 * and names them by index, so `children`, `parent`, `prev` and `next` are
 * indices into that arena rather than pointers.
 */
module Nodes {
  import opened Wrappers

  /** NODE_LEAF, NODE_INTERNAL and NODE_ROOT of the C++ code. */
  datatype Kind = Leaf | Internal | Root

  datatype Node<V> = Node(
    kind: Kind,
    keys: seq<int>,
    vals: seq<V>,          // leaves only, parallel to keys
    children: seq<nat>,    // routers only, one more than keys
    parent: Option<nat>,
    prev: Option<nat>,     // leaf chain
    next: Option<nat>)
  {
    /** The C++ `size` member: the number of keys held. */
    function Size(): nat { |keys| }
  }

  /** A freshly allocated page as the BTree constructor sets it up. */
  function EmptyLeaf<V>(): (n: Node<V>)
    ensures n.kind == Leaf && n.Size() == 0 && |n.vals| == 0 && n.children == []
    ensures n.parent == None && n.prev == None && n.next == None
  {
    Node(Leaf, [], [], [], None, None, None)
  }

  predicate Sorted(s: seq<int>)
  {
    forall i, j | 0 <= i < j < |s| :: s[i] < s[j]
  }

  // ---------------------------------------------------------------------
  // Sequence helpers

  function InsertAt<T>(s: seq<T>, i: nat, x: T): (r: seq<T>)
    requires i <= |s|
    ensures |r| == |s| + 1 && r[i] == x
    ensures forall j | 0 <= j < i :: r[j] == s[j]
    ensures forall j | i < j < |r| :: r[j] == s[j - 1]
  {
    s[..i] + [x] + s[i..]
  }

  function RemoveAt<T>(s: seq<T>, i: nat): (r: seq<T>)
    requires i < |s|
    ensures |r| == |s| - 1
    ensures forall j | 0 <= j < i :: r[j] == s[j]
    ensures forall j | i <= j < |r| :: r[j] == s[j + 1]
  {
    s[..i] + s[i + 1..]
  }

  lemma InsertAtMembers<T>(s: seq<T>, i: nat, x: T)
    requires i <= |s|
    ensures forall y :: y in InsertAt(s, i, x) <==> y == x || y in s
  {
    assert InsertAt(s, i, x) == s[..i] + [x] + s[i..];
    assert s == s[..i] + s[i..];
  }

  lemma RemoveAtMembers<T>(s: seq<T>, i: nat)
    requires i < |s|
    ensures forall y :: y in RemoveAt(s, i) ==> y in s
    ensures forall y :: y in s && y != s[i] ==> y in RemoveAt(s, i)
  {
    assert s == s[..i] + [s[i]] + s[i + 1..];
  }

  /** Inserting inside the middle part of a concatenation. */
  lemma InsertAtConcat<T>(a: seq<T>, b: seq<T>, c: seq<T>, k: nat, x: T)
    requires k <= |b|
    ensures InsertAt(a + b + c, |a| + k, x) == a + InsertAt(b, k, x) + c
  {
    assert (a + b + c)[..|a| + k] == a + b[..k];
    assert (a + b + c)[|a| + k..] == b[k..] + c;
  }

  /** Removing inside the middle part of a concatenation. */
  lemma RemoveAtConcat<T>(a: seq<T>, b: seq<T>, c: seq<T>, k: nat)
    requires k < |b|
    ensures RemoveAt(a + b + c, |a| + k) == a + RemoveAt(b, k) + c
  {
    assert (a + b + c)[..|a| + k] == a + b[..k];
    assert (a + b + c)[|a| + k + 1..] == b[k + 1..] + c;
  }

  // ---------------------------------------------------------------------
  // Searching inside one page

  /**
   * keyInsertIndex: the lowest index whose key is greater than `key`, or the
   * number of keys when there is none. At a router it picks the child to
   * descend into; at a leaf it is where a new key goes.
   */
  function KeyInsertIndex(keys: seq<int>, key: int): (i: nat)
    ensures i <= |keys|
    ensures forall j | 0 <= j < i :: keys[j] <= key
    ensures i < |keys| ==> key < keys[i]
  {
    if keys == [] || key < keys[0] then 0
    else 1 + KeyInsertIndex(keys[1..], key)
  }

  /** On sorted keys the index above is the only one with that property. */
  lemma KeyInsertIndexUnique(keys: seq<int>, key: int, i: nat)
    requires Sorted(keys) && i <= |keys|
    requires i > 0 ==> keys[i - 1] <= key
    requires i < |keys| ==> key < keys[i]
    ensures KeyInsertIndex(keys, key) == i
  {
  }

  /** findKey: the index of `key` among the keys, -1 when it is absent. */
  function FindKey(keys: seq<int>, key: int): (r: int)
    ensures -1 <= r < |keys|
    ensures r == -1 <==> key !in keys
    ensures r >= 0 ==> keys[r] == key && forall j | 0 <= j < r :: keys[j] != key
  {
    if keys == [] then -1
    else if keys[0] == key then 0
    else
      var r := FindKey(keys[1..], key);
      if r == -1 then -1 else r + 1
  }

  /** A sequence of page indices without repetitions. */
  predicate Distinct(s: seq<nat>)
  {
    forall i, j | 0 <= i < j < |s| :: s[i] != s[j]
  }

  lemma DistinctInsert(s: seq<nat>, i: nat, x: nat)
    requires Distinct(s) && i <= |s| && x !in s
    ensures Distinct(InsertAt(s, i, x))
  {
    var r := InsertAt(s, i, x);
    forall a, b | 0 <= a < b < |r| ensures r[a] != r[b] {
      if a == i { assert r[b] == s[b - 1]; }
      else if b == i { assert r[a] == s[a]; }
    }
  }

  lemma DistinctRemove(s: seq<nat>, i: nat)
    requires Distinct(s) && i < |s|
    ensures Distinct(RemoveAt(s, i))
    ensures s[i] !in RemoveAt(s, i)
  {
    var r := RemoveAt(s, i);
    forall a, b | 0 <= a < b < |r| ensures r[a] != r[b] {
      var a' := if a < i then a else a + 1;
      var b' := if b < i then b else b + 1;
      assert r[a] == s[a'] && r[b] == s[b'];
    }
    forall a | 0 <= a < |r| ensures r[a] != s[i] {
      var a' := if a < i then a else a + 1;
      assert r[a] == s[a'];
    }
  }

  /** indexOfChild: the position of a child among a router's children. */
  function IndexOfChild(children: seq<nat>, c: nat): (i: nat)
    requires c in children
    ensures i < |children| && children[i] == c
    ensures forall j | 0 <= j < i :: children[j] != c
  {
    if children[0] == c then 0 else 1 + IndexOfChild(children[1..], c)
  }

  /** Among distinct children the position found is the only one. */
  lemma IndexOfChildDistinct(children: seq<nat>, j: nat)
    requires Distinct(children) && j < |children|
    ensures IndexOfChild(children, children[j]) == j
  {
  }

  // ---------------------------------------------------------------------
  // Leaf contents

  /** The (key, value) pairs a leaf holds, in order. */
  function Entries<V>(keys: seq<int>, vals: seq<V>): (e: seq<(int, V)>)
    requires |vals| == |keys|
    ensures |e| == |keys|
    ensures forall i | 0 <= i < |e| :: e[i] == (keys[i], vals[i])
  {
    seq(|keys|, i requires 0 <= i < |keys| => (keys[i], vals[i]))
  }

  lemma EntriesAppend<V>(k1: seq<int>, v1: seq<V>, k2: seq<int>, v2: seq<V>)
    requires |v1| == |k1| && |v2| == |k2|
    ensures Entries(k1 + k2, v1 + v2) == Entries(k1, v1) + Entries(k2, v2)
  {
  }

  lemma EntriesSlice<V>(keys: seq<int>, vals: seq<V>, a: nat, b: nat)
    requires |vals| == |keys| && a <= b <= |keys|
    ensures Entries(keys[a..b], vals[a..b]) == Entries(keys, vals)[a..b]
  {
  }

  /**
   * Node::set on a leaf: overwrite the value of a key that is present,
   * otherwise insert the pair at the key's sorted position.
   */
  function SetInLeaf<V>(n: Node<V>, key: int, val: V): (r: Node<V>)
    requires |n.vals| == |n.keys|
    ensures |r.vals| == |r.keys|
    ensures r.kind == n.kind && r.children == n.children
    ensures r.parent == n.parent && r.prev == n.prev && r.next == n.next
    ensures key in n.keys ==>
      var i := FindKey(n.keys, key);
      r.keys == n.keys && Entries(r.keys, r.vals) == Entries(n.keys, n.vals)[i := (key, val)]
    ensures key !in n.keys ==>
      var i := KeyInsertIndex(n.keys, key);
      r.keys == InsertAt(n.keys, i, key) &&
      Entries(r.keys, r.vals) == InsertAt(Entries(n.keys, n.vals), i, (key, val))
  {
    var f := FindKey(n.keys, key);
    if f != -1 then
      n.(vals := n.vals[f := val])
    else
      var i := KeyInsertIndex(n.keys, key);
      n.(keys := InsertAt(n.keys, i, key), vals := InsertAt(n.vals, i, val))
  }

  /** Inserting at KeyInsertIndex keeps a sorted key sequence sorted. */
  lemma SetInLeafSorted<V>(n: Node<V>, key: int, val: V)
    requires |n.vals| == |n.keys| && Sorted(n.keys)
    ensures Sorted(SetInLeaf(n, key, val).keys)
    ensures key in SetInLeaf(n, key, val).keys
  {
    if key !in n.keys {
      var i := KeyInsertIndex(n.keys, key);
      var r := InsertAt(n.keys, i, key);
      forall a, b | 0 <= a < b < |r| ensures r[a] < r[b] {
        if b < i {
        } else if b == i {
          assert r[a] == n.keys[a] && n.keys[a] <= key && n.keys[a] != key;
        } else if a < i {
          assert n.keys[a] <= key && n.keys[a] != key;
          assert key < n.keys[i] && n.keys[i] <= n.keys[b - 1];
        } else if a == i {
          assert key < n.keys[i] && n.keys[i] <= n.keys[b - 1];
        } else {
        }
      }
    }
  }

  /** removeFromLeaf: drop a key and its value, if present. */
  function RemoveFromLeaf<V>(n: Node<V>, key: int): (r: Node<V>)
    requires |n.vals| == |n.keys|
    ensures |r.vals| == |r.keys|
    ensures r.kind == n.kind && r.children == n.children
    ensures r.parent == n.parent && r.prev == n.prev && r.next == n.next
    ensures key !in n.keys ==> r == n
    ensures key in n.keys ==>
      var i := FindKey(n.keys, key);
      r.keys == RemoveAt(n.keys, i) &&
      Entries(r.keys, r.vals) == RemoveAt(Entries(n.keys, n.vals), i)
  {
    var f := FindKey(n.keys, key);
    if f == -1 then n
    else n.(keys := RemoveAt(n.keys, f), vals := RemoveAt(n.vals, f))
  }

  /** Removing one key from sorted keys keeps them sorted, and that key is gone. */
  lemma RemoveAtSorted(s: seq<int>, i: nat)
    requires Sorted(s) && i < |s|
    ensures Sorted(RemoveAt(s, i)) && s[i] !in RemoveAt(s, i)
  {
    var r := RemoveAt(s, i);
    forall a, b | 0 <= a < b < |r| ensures r[a] < r[b] {
      var a' := if a < i then a else a + 1;
      var b' := if b < i then b else b + 1;
      assert r[a] == s[a'] && r[b] == s[b'];
    }
    forall a | 0 <= a < |r| ensures r[a] != s[i] {
      var a' := if a < i then a else a + 1;
      assert r[a] == s[a'];
    }
  }

  /** On sorted keys, removal takes out every occurrence of the key. */
  lemma RemoveFromLeafSorted<V>(n: Node<V>, key: int)
    requires |n.vals| == |n.keys| && Sorted(n.keys)
    ensures Sorted(RemoveFromLeaf(n, key).keys)
    ensures key !in RemoveFromLeaf(n, key).keys
    ensures forall k | k in n.keys && k != key :: k in RemoveFromLeaf(n, key).keys
  {
    if key in n.keys {
      var f := FindKey(n.keys, key);
      RemoveAtSorted(n.keys, f);
      RemoveAtMembers(n.keys, f);
    }
  }
}
