/** Interning: types and constants are kept once each and known by number, so that two of
them are the same exactly when their numbers are. */
module Interning {

  /** What is interned: something with parts that have been interned before it. */
  datatype Node<L(==)> = Node(head: L, parts: seq<nat>)

  /** What a number stands for, written out in full. */
  datatype Tree<L(==)> = Tree(head: L, parts: seq<Tree<L>>)

  ghost predicate IsArena<L>(nodes: seq<Node<L>>) {
    && (forall i :: 0 <= i < |nodes| ==> PartsBefore(nodes[i], i))
    && forall i, j :: 0 <= i < j < |nodes| ==> nodes[i] != nodes[j]
  }

  predicate PartsBefore<L(==)>(n: Node<L>, i: nat) {
    forall k :: 0 <= k < |n.parts| ==> n.parts[k] < i
  }

  ghost function Written<L>(nodes: seq<Node<L>>, id: nat): Tree<L>
    requires IsArena(nodes) && id < |nodes|
    decreases id, 1
  {
    Tree(nodes[id].head, WrittenParts(nodes, id))
  }

  ghost function WrittenParts<L>(nodes: seq<Node<L>>, id: nat): (r: seq<Tree<L>>)
    requires IsArena(nodes) && id < |nodes|
    ensures |r| == |nodes[id].parts|
    decreases id, 0
  {
    assert PartsBefore(nodes[id], id);
    seq(|nodes[id].parts|, k requires 0 <= k < |nodes[id].parts| => Written(nodes, nodes[id].parts[k]))
  }

  /** Numbers are the same exactly when what they stand for is. */
  lemma {:induction false} SameNumberSameTree<L>(nodes: seq<Node<L>>, a: nat, b: nat)
    requires IsArena(nodes) && a < |nodes| && b < |nodes|
    ensures Written(nodes, a) == Written(nodes, b) <==> a == b
    decreases a
  {
    assert PartsBefore(nodes[a], a) && PartsBefore(nodes[b], b);
    if Written(nodes, a) == Written(nodes, b) {
      assert WrittenParts(nodes, a) == WrittenParts(nodes, b);
      forall k | 0 <= k < |nodes[a].parts| ensures nodes[a].parts[k] == nodes[b].parts[k] {
        assert WrittenParts(nodes, a)[k] == WrittenParts(nodes, b)[k];
        SameNumberSameTree(nodes, nodes[a].parts[k], nodes[b].parts[k]);
      }
      assert nodes[a].parts == nodes[b].parts;
      assert nodes[a] == nodes[b];
    }
  }

  /** Interning more changes nothing that was interned. */
  lemma {:induction false} MoreKeepsTrees<L>(nodes: seq<Node<L>>, more: seq<Node<L>>, id: nat)
    requires IsArena(nodes) && IsArena(more) && nodes <= more && id < |nodes|
    ensures Written(more, id) == Written(nodes, id)
    decreases id
  {
    assert PartsBefore(nodes[id], id) && nodes[id] == more[id];
    forall k | 0 <= k < |nodes[id].parts| ensures WrittenParts(more, id)[k] == WrittenParts(nodes, id)[k] {
      MoreKeepsTrees(nodes, more, nodes[id].parts[k]);
    }
    assert WrittenParts(more, id) == WrittenParts(nodes, id);
  }

  class Context<L(==)> {
    var nodes: seq<Node<L>>
    var ids: map<Node<L>, nat>

    constructor ()
      ensures Valid() && nodes == []
    {
      nodes, ids := [], map[];
    }

    ghost predicate Valid()
      reads this
    {
      && IsArena(nodes)
      && (forall i :: 0 <= i < |nodes| ==> nodes[i] in ids && ids[nodes[i]] == i)
      && forall n :: n in ids ==> ids[n] < |nodes| && nodes[ids[n]] == n
    }

    method Intern(n: Node<L>) returns (id: nat)
      requires Valid() && PartsBefore(n, |nodes|)
      modifies this
      ensures Valid() && id < |nodes| && nodes[id] == n
      ensures nodes == if n in old(nodes) then old(nodes) else old(nodes) + [n]
    {
      if n in ids {
        assert nodes[ids[n]] in nodes;
        return ids[n];
      }
      id := |nodes|;
      nodes, ids := nodes + [n], ids[n := id];
    }

    /** Interning something part by part gives a number that stands for it, and the same
    number however often it is done. */
    method InternTree(t: Tree<L>) returns (id: nat)
      requires Valid()
      modifies this
      ensures Valid() && old(nodes) <= nodes && id < |nodes| && Written(nodes, id) == t
      decreases t
    {
      var parts: seq<nat> := [];
      for i := 0 to |t.parts|
        invariant Valid() && old(nodes) <= nodes && |parts| == i
        invariant forall k :: 0 <= k < i ==> parts[k] < |nodes| && Written(nodes, parts[k]) == t.parts[k]
      {
        ghost var before := nodes;
        var part := InternTree(t.parts[i]);
        forall k | 0 <= k < i ensures Written(nodes, parts[k]) == t.parts[k] {
          MoreKeepsTrees(before, nodes, parts[k]);
        }
        parts := parts + [part];
      }
      ghost var before := nodes;
      id := Intern(Node(t.head, parts));
      forall k | 0 <= k < |parts| ensures WrittenParts(nodes, id)[k] == t.parts[k] {
        MoreKeepsTrees(before, nodes, parts[k]);
      }
      assert WrittenParts(nodes, id) == t.parts;
    }
  }
}
