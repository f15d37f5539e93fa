/** Freeing a receipt set while iterating over it (protocol.c). */
module Receipts {
  import opened Nodes
  import opened Trees
  import opened Links
  import opened Walks
  import opened Iterators

  /** `ch_free`: afterwards nothing is known about the memory of `t`. */
  method Free<K>(t: Node<K>)
    modifies t
  {
    modify t;
  }

  ghost function NodeSeq<K>(s: seq<Cell<K>>): seq<Node<K>> {
    if s == [] then [] else [s[0].node] + NodeSeq(s[1..])
  }

  lemma {:induction false} NodeSeqAt<K>(s: seq<Cell<K>>)
    ensures |NodeSeq(s)| == |s| && forall i :: 0 <= i < |s| ==> NodeSeq(s)[i] == s[i].node
  {
    if s != [] {
      NodeSeqAt(s[1..]);
    }
  }

  lemma {:induction false} NodeSeqConcat<K>(a: seq<Cell<K>>, b: seq<Cell<K>>)
    ensures NodeSeq(a + b) == NodeSeq(a) + NodeSeq(b)
  {
    if a == [] {
      assert a + b == b;
    } else {
      assert (a + b)[1..] == a[1..] + b;
      NodeSeqConcat(a[1..], b);
    }
  }

  /** In each of the three orders every node of the tree comes once. */
  lemma EachOnce<K>(order: int, t: Tree<K>)
    requires 0 <= order <= 2 && Distinct(t)
    ensures var s := NodeSeq(Walk(order, Everything, t));
            && (set n | n in s) == NodeSet(t)
            && (forall i, j :: 0 <= i < j < |s| ==> s[i] != s[j])
    ensures forall c :: c in Walk(order, Everything, t) ==> c.node in NodeSet(t)
  {
    hide Walk;
    var p := Walk(order, Everything, t);
    WalkOnce(order, t);
    NodeSeqAt(p);
    forall n | n in NodeSet(t) ensures n in NodeSeq(p) {
      var c :| c in p && c.node == n;
      var i :| 0 <= i < |p| && p[i] == c;
      assert NodeSeq(p)[i] == n;
    }
    forall n | n in NodeSeq(p) ensures n in NodeSet(t) {
      var i :| 0 <= i < |p| && NodeSeq(p)[i] == n;
      assert p[i] in p;
    }
  }

  /** One turn of the freeing loop: free the current element, then move on. */
  method FreeAndAdvance<K>(it: Iterator<K>, t: Node<K>, ghost s: seq<Cell<K>>) returns (elem: Node?<K>)
    requires it.order == 2 && s != [] && it.At(s) && t == it.currentelem
    modifies t, it, it.pass, it.path
    ensures it.order == 2 && it.At(s[1..]) && elem == it.currentelem
    ensures LiveAll(it.stack) <= old(LiveAll(it.stack))
  {
    it.CurrentIsDone(s);
    assert allocated(LiveAll(it.stack));
    Free(t);
    elem := it.Next(s);
  }

  /** The iterator survives that each element it yields is freed before it moves on:
      every element is freed, in postorder. */
  method FreeReceipts<K>(receipts: Node?<K>, ghost shape: Tree<K>) returns (freed: seq<Node<K>>)
    requires Represents(receipts, shape) && Distinct(shape) && Height(shape) <= MAX_TREE_DEEP
    modifies NodeSet(shape)
    ensures freed == NodeSeq(Postorder(shape))
    ensures (set n | n in freed) == NodeSet(shape)
    ensures forall i, j :: 0 <= i < j < |freed| ==> freed[i] != freed[j]
  {
    WalkIsPostorder(shape);
    hide Iterator.At, Walk, Postorder, NodeSeq, Distinct, Height, Linked;
    EachOnce(2, shape);
    assert allocated(NodeSet(shape));
    var it := new Iterator(receipts, 2, Everything, shape);
    freed := FreeFrom(it, Postorder(shape), NodeSet(shape));
  }

  /** The loop of `FreeReceipts`. */
  method FreeFrom<K>(it: Iterator<K>, ghost s: seq<Cell<K>>, ghost nodes: set<Node<K>>) returns (freed: seq<Node<K>>)
    requires it.order == 2 && it.At(s) && forall c :: c in s ==> c.node in nodes
    modifies nodes, it, it.pass, it.path
    ensures freed == NodeSeq(s)
  {
    hide Iterator.Valid, Iterator.Remaining;
    ghost var rest := s;
    var t := it.currentelem;
    freed := [];
    while t != null
      invariant it.order == 2 && it.At(rest) && t == it.currentelem
      invariant forall c :: c in rest ==> c.node in nodes
      invariant freed + NodeSeq(rest) == NodeSeq(s)
      decreases |rest|
    {
      freed := freed + [t];
      t := FreeAndAdvance(it, t, rest);
      rest := rest[1..];
    }
  }
}
