/**
 * The descent of findLeaf: from a page, follow the child that keyInsertIndex
 * picks until a leaf is reached.
 */
module Descent {
  import opened Wrappers
  import opened Nodes
  import opened Shape

  /** A page is a leaf exactly when it sits on the bottom level; its chosen child sits one level lower. */
  lemma StepOk<V>(nodes: Arena<V>, levels: seq<seq<nat>>, level: map<nat, nat>, root: nat, depth: int, id: nat, k: nat)
    requires Wf(nodes, levels, level, root, depth) && id in nodes
    ensures nodes[id].kind == Leaf <==> level[id] == 0
    ensures nodes[id].kind == Leaf ==> |nodes[id].vals| == |nodes[id].keys| && id in levels[0]
    ensures nodes[id].kind != Leaf && k <= |nodes[id].keys| ==>
      && k < |nodes[id].children| && nodes[id].children[k] in nodes
      && level[nodes[id].children[k]] == level[id] - 1
  {
    assert PageOk(nodes[id], level[id], id == root);
    assert id in levels[level[id]];
    if nodes[id].kind != Leaf && k <= |nodes[id].keys| {
      var j, s := WfChildren(nodes, levels, level, root, depth, id);
    }
  }

  /**
   * The leaf findLeaf reaches from page `id`: at every router it follows
   * children[keyInsertIndex(key)].
   */
  function Descend<V>(nodes: Arena<V>, ghost levels: seq<seq<nat>>, ghost level: map<nat, nat>, ghost root: nat,
                      ghost depth: int, id: nat, key: int): (r: nat)
    requires Wf(nodes, levels, level, root, depth) && id in nodes
    ensures r in nodes && nodes[r].kind == Leaf && r in levels[0]
    ensures |nodes[r].vals| == |nodes[r].keys|
    decreases level[id]
  {
    var n := nodes[id];
    StepOk(nodes, levels, level, root, depth, id, KeyInsertIndex(n.keys, key));
    if n.kind == Leaf then id
    else Descend(nodes, levels, level, root, depth, n.children[KeyInsertIndex(n.keys, key)], key)
  }

  /** The number of routers the descent passes through: one per level above the leaves. */
  ghost function Steps<V>(nodes: Arena<V>, levels: seq<seq<nat>>, level: map<nat, nat>, root: nat,
                          depth: int, id: nat, key: int): nat
    requires Wf(nodes, levels, level, root, depth) && id in nodes
    decreases level[id]
  {
    var n := nodes[id];
    StepOk(nodes, levels, level, root, depth, id, KeyInsertIndex(n.keys, key));
    if n.kind == Leaf then 0
    else 1 + Steps(nodes, levels, level, root, depth, n.children[KeyInsertIndex(n.keys, key)], key)
  }

  /** From the root the descent takes exactly depth - 1 steps. */
  lemma {:induction false} StepsFromLevel<V>(nodes: Arena<V>, levels: seq<seq<nat>>, level: map<nat, nat>, root: nat,
                                             depth: int, id: nat, key: int)
    requires Wf(nodes, levels, level, root, depth) && id in nodes
    ensures Steps(nodes, levels, level, root, depth, id, key) == level[id]
    decreases level[id]
  {
    var n := nodes[id];
    StepOk(nodes, levels, level, root, depth, id, KeyInsertIndex(n.keys, key));
    if n.kind != Leaf {
      StepsFromLevel(nodes, levels, level, root, depth, n.children[KeyInsertIndex(n.keys, key)], key);
    }
  }
}
