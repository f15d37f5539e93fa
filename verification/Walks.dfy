/** What the tree walks owe: the three orders, the filtered walk, and the explicit stack's remaining work. */
module Walks {
  import opened Nodes
  import opened Trees
  import opened Search

  // ---------- the three orders ----------

  ghost function Preorder<K>(t: Tree<K>): seq<Cell<K>> {
    match t
    case Leaf => []
    case Bin(l, c, _, r) => [c] + Preorder(l) + Preorder(r)
  }

  ghost function Postorder<K>(t: Tree<K>): seq<Cell<K>> {
    match t
    case Leaf => []
    case Bin(l, c, _, r) => Postorder(l) + Postorder(r) + [c]
  }

  /** An iterator visits every element, or those equal to `e`. */
  datatype Filter<!K> = Everything | EqualTo(sub: Comparator<K>, e: Entry<K>)

  ghost function Look<K>(f: Filter<K>, t: Tree<K>): Tree<K> {
    match f
    case Everything => t
    case EqualTo(sub, e) => Focus(sub, e, t)
  }

  lemma LookWithin<K>(f: Filter<K>, t: Tree<K>)
    ensures NodeSet(Look(f, t)) <= NodeSet(t)
    ensures Height(Look(f, t)) <= Height(t) && Size(Look(f, t)) <= Size(t)
    ensures Distinct(t) ==> Distinct(Look(f, t))
  {
    match f
    case Everything =>
    case EqualTo(sub, e) => FocusWithin(sub, e, t);
  }

  /** The order number is the pass after which a node is due: 0, 1 or 2 of its subtrees are done. */
  ghost function Due<K>(order: int, pass: int, c: Cell<K>): seq<Cell<K>> {
    if order == pass then [c] else []
  }

  /** The walk in the given order, which looks for the filter's topmost element in every subtree first. */
  ghost function Walk<K>(order: int, f: Filter<K>, t: Tree<K>): seq<Cell<K>>
    decreases Height(t)
  {
    var u := Look(f, t);
    LookWithin(f, t);
    if u.Leaf? then []
    else
      Due(order, 0, u.cell)
      + (Walk(order, f, u.left) + (Due(order, 1, u.cell) + (Walk(order, f, u.right) + Due(order, 2, u.cell))))
  }

  lemma {:induction false} WalkIsPreorder<K>(t: Tree<K>)
    ensures Walk(0, Everything, t) == Preorder(t)
  {
    if t.Bin? {
      WalkIsPreorder(t.left);
      WalkIsPreorder(t.right);
    }
  }

  lemma {:induction false} WalkIsInorder<K>(t: Tree<K>)
    ensures Walk(1, Everything, t) == Inorder(t)
  {
    if t.Bin? {
      WalkIsInorder(t.left);
      WalkIsInorder(t.right);
    }
  }

  lemma {:induction false} WalkIsPostorder<K>(t: Tree<K>)
    ensures Walk(2, Everything, t) == Postorder(t)
  {
    if t.Bin? {
      WalkIsPostorder(t.left);
      WalkIsPostorder(t.right);
    }
  }

  lemma DueNodes<K>(order: int, pass: int, c: Cell<K>)
    ensures NodesOf(Due(order, pass, c)) == (if order == pass then {c.node} else {})
              && DistinctNodes(Due(order, pass, c))
  {
    assert c in [c];
  }

  /** In each of the three orders a walk names every node of the tree, and none twice. */
  lemma {:induction false} WalkOnce<K>(order: int, t: Tree<K>)
    requires 0 <= order <= 2 && Distinct(t)
    ensures NodesOf(Walk(order, Everything, t)) == NodeSet(t) && DistinctNodes(Walk(order, Everything, t))
    decreases t
  {
    if t.Bin? {
      WalkOnce(order, t.left);
      WalkOnce(order, t.right);
      OnceAround(order, Walk(order, Everything, t.left), t.cell, Walk(order, Everything, t.right));
    }
  }

  lemma OnceAround<K>(order: int, l: seq<Cell<K>>, c: Cell<K>, r: seq<Cell<K>>)
    requires 0 <= order <= 2 && DistinctNodes(l) && DistinctNodes(r)
    requires c.node !in NodesOf(l) && c.node !in NodesOf(r) && NodesOf(l) !! NodesOf(r)
    ensures var s := Due(order, 0, c) + (l + (Due(order, 1, c) + (r + Due(order, 2, c))));
            NodesOf(s) == NodesOf(l) + {c.node} + NodesOf(r) && DistinctNodes(s)
  {
    var d0, d1, d2 := Due(order, 0, c), Due(order, 1, c), Due(order, 2, c);
    DueNodes(order, 0, c);
    DueNodes(order, 1, c);
    DueNodes(order, 2, c);
    hide Due, NodesOf, DistinctNodes;
    AppendNodes(r, d2);
    AppendNodes(d1, r + d2);
    AppendNodes(l, d1 + (r + d2));
    AppendNodes(d0, l + (d1 + (r + d2)));
  }

  lemma InorderWalkUnfold<K>(f: Filter<K>, t: Tree<K>)
    ensures var u := Look(f, t);
            Walk(1, f, t) == if u.Leaf? then [] else Walk(1, f, u.left) + [u.cell] + Walk(1, f, u.right)
  {
    var u := Look(f, t);
    if u.Bin? {
      Flatten(Walk(1, f, u.left), u.cell, Walk(1, f, u.right));
    }
  }

  lemma Flatten<T>(l: seq<T>, c: T, r: seq<T>)
    ensures [] + (l + ([c] + (r + []))) == l + [c] + r
  {
  }

  lemma EqualsOfFocus<K>(sub: Comparator<K>, e: Entry<K>, t: Tree<K>)
    requires Follows(sub, e, Inorder(t))
    ensures var u := Focus(sub, e, t);
            && (u.Leaf? ==> Equals(sub, e, Inorder(t)) == [])
            && (u.Bin? ==>
                  && Follows(sub, e, Inorder(u.left)) && Follows(sub, e, Inorder(u.right))
                  && Equals(sub, e, Inorder(t)) == Equals(sub, e, Inorder(u.left)) + [u.cell] +
                     Equals(sub, e, Inorder(u.right)))
  {
    var u := Focus(sub, e, t);
    FocusKeepsEquals(sub, e, t);
    if u.Bin? {
      FollowsAround(sub, e, Inorder(u.left), u.cell, Inorder(u.right));
      EqualsAround(sub, e, Inorder(u.left), u.cell, Inorder(u.right));
    }
  }

  /** The filtered in-order walk visits exactly the equal elements, in order,
      although it jumps to the topmost equal element of every subtree. */
  lemma {:induction false} FilteredWalk<K>(sub: Comparator<K>, e: Entry<K>, t: Tree<K>)
    requires Follows(sub, e, Inorder(t))
    ensures Walk(1, EqualTo(sub, e), t) == Equals(sub, e, Inorder(t))
    decreases Height(t)
  {
    var u := Focus(sub, e, t);
    InorderWalkUnfold(EqualTo(sub, e), t);
    EqualsOfFocus(sub, e, t);
    LookWithin(EqualTo(sub, e), t);
    if u.Bin? {
      FilteredWalk(sub, e, u.left);
      FilteredWalk(sub, e, u.right);
    }
  }

  // ---------- the explicit stack ----------

  /** The path to the current node, topmost first: each node with its subtree and how many passes it had. */
  datatype Stack<K> = Empty | Push(tree: Tree<K>, pass: int, below: Stack<K>)

  ghost function Depth<K>(s: Stack<K>): nat {
    if s.Empty? then 0 else 1 + Depth(s.below)
  }

  ghost function NextChild<K>(t: Tree<K>, pass: int): Tree<K>
    requires t.Bin?
  {
    if pass == 0 then t.left else t.right
  }

  /** The nodes a frame will still read. */
  ghost function Live<K>(t: Tree<K>, pass: int): set<Node<K>>
    requires t.Bin?
  {
    if pass == 0 then NodeSet(t) else if pass == 1 then {t.cell.node} + NodeSet(t.right) else {}
  }

  ghost function LiveAll<K>(s: Stack<K>): set<Node<K>> {
    if s.Empty? || s.tree.Leaf? then {} else Live(s.tree, s.pass) + LiveAll(s.below)
  }

  /** Each frame lies in a part of the frame below that that frame is done with, and fits the stack. */
  ghost predicate Nested<K>(s: Stack<K>) {
    s.Push? ==>
      && s.tree.Bin? && 0 <= s.pass <= 2 && Distinct(s.tree)
      && Height(s.tree) + Depth(s.below) <= MAX_TREE_DEEP
      && NodeSet(s.tree) !! LiveAll(s.below)
      && Nested(s.below)
  }

  /** One round of the loop: up when both passes are done, else down on the next side if there is anything. */
  ghost function Advance<K>(f: Filter<K>, s: Stack<K>): Stack<K>
    requires s.Push? && Nested(s)
  {
    if s.pass >= 2 then s.below
    else
      var u := Look(f, NextChild(s.tree, s.pass));
      var top := Push(s.tree, s.pass + 1, s.below);
      if u.Leaf? then top else Push(u, 0, top)
  }

  lemma AdvanceNested<K>(f: Filter<K>, s: Stack<K>)
    requires s.Push? && Nested(s)
    ensures Nested(Advance(f, s)) && LiveAll(Advance(f, s)) <= LiveAll(s)
    ensures Depth(Advance(f, s)) <= MAX_TREE_DEEP
  {
    if s.pass < 2 {
      var child := NextChild(s.tree, s.pass);
      LookWithin(f, child);
      var u := Look(f, child);
      var top := Push(s.tree, s.pass + 1, s.below);
      assert NodeSet(child) <= NodeSet(s.tree);
      assert Live(s.tree, s.pass + 1) <= Live(s.tree, s.pass);
      assert NodeSet(child) <= Live(s.tree, s.pass);
      assert NodeSet(child) !! Live(s.tree, s.pass + 1);
    }
  }

  /** What a frame still owes when control comes back to it, and after that. */
  ghost function Leave<K>(order: int, f: Filter<K>, t: Tree<K>, pass: int): seq<Cell<K>>
    requires t.Bin?
  {
    if pass == 0 then
      Walk(order, f, t.left) + (Due(order, 1, t.cell) + (Walk(order, f, t.right) + Due(order, 2, t.cell)))
    else if pass == 1 then Walk(order, f, t.right) + Due(order, 2, t.cell)
    else []
  }

  ghost function Upward<K>(order: int, f: Filter<K>, s: Stack<K>): seq<Cell<K>> {
    if s.Empty? || s.tree.Leaf? then []
    else Due(order, s.pass, s.tree.cell) + (Leave(order, f, s.tree, s.pass) + Upward(order, f, s.below))
  }

  /** What is still to come once the top frame has been visited for its pass. */
  ghost function Pending<K>(order: int, f: Filter<K>, s: Stack<K>): seq<Cell<K>> {
    if s.Empty? || s.tree.Leaf? then []
    else Leave(order, f, s.tree, s.pass) + Upward(order, f, s.below)
  }

  ghost function Top<K>(order: int, s: Stack<K>): seq<Cell<K>> {
    if s.Empty? || s.tree.Leaf? then [] else Due(order, s.pass, s.tree.cell)
  }

  lemma UpwardIsTopThenPending<K>(order: int, f: Filter<K>, s: Stack<K>)
    ensures Upward(order, f, s) == Top(order, s) + Pending(order, f, s)
  {
  }

  lemma WalkIsUpward<K>(order: int, f: Filter<K>, t: Tree<K>, below: Stack<K>)
    ensures Walk(order, f, t) + Upward(order, f, below) ==
            (var u := Look(f, t); if u.Leaf? then Upward(order, f, below) else Upward(order, f, Push(u, 0, below)))
  {
    var u := Look(f, t);
    if u.Bin? {
      Associative(Due(order, 0, u.cell), Leave(order, f, u, 0), Upward(order, f, below));
    }
  }

  lemma Associative<T>(a: seq<T>, b: seq<T>, c: seq<T>)
    ensures (a + b) + c == a + (b + c)
  {
  }

  /** Going down: what the frame owed is the walk of the next child and what the frame owes after it. */
  lemma PendingDown<K>(order: int, f: Filter<K>, t: Tree<K>, pass: int, below: Stack<K>)
    requires t.Bin? && 0 <= pass < 2
    ensures Pending(order, f, Push(t, pass, below)) ==
            Walk(order, f, NextChild(t, pass)) + Upward(order, f, Push(t, pass + 1, below))
  {
    hide Walk, Due;
    var w, due := Walk(order, f, NextChild(t, pass)), Due(order, pass + 1, t.cell);
    var rest, up := Leave(order, f, t, pass + 1), Upward(order, f, below);
    assert Leave(order, f, t, pass) == w + (due + rest);
    hide Leave;
    Associative(w, due + rest, up);
    Associative(due, rest, up);
  }

  /** A round visits the new top if it is due, and loses nothing. */
  lemma AdvancePending<K>(order: int, f: Filter<K>, s: Stack<K>)
    requires s.Push? && Nested(s)
    ensures Pending(order, f, s) == Top(order, Advance(f, s)) + Pending(order, f, Advance(f, s))
  {
    assert s.tree.Bin? && 0 <= s.pass <= 2;
    hide Walk, Due, Look, Nested, LiveAll, Live, NodeSet, Pending, Top, Upward, Leave;
    UpwardIsTopThenPending(order, f, Advance(f, s));
    if s.pass >= 2 {
      PendingUp(order, f, s);
    } else {
      PendingDown(order, f, s.tree, s.pass, s.below);
      WalkIsUpward(order, f, NextChild(s.tree, s.pass), Push(s.tree, s.pass + 1, s.below));
    }
  }

  lemma PendingUp<K>(order: int, f: Filter<K>, s: Stack<K>)
    requires s.Push? && s.tree.Bin? && s.pass >= 2
    ensures Pending(order, f, s) == Upward(order, f, s.below)
  {
    hide Upward;
    assert [] + Upward(order, f, s.below) == Upward(order, f, s.below);
  }

  /** A bound on the rounds still to run. */
  ghost function Work<K>(s: Stack<K>): nat {
    if s.Empty? || s.tree.Leaf? then 0
    else
      (if s.pass <= 0 then 3 * Size(s.tree) else if s.pass == 1 then 3 * Size(s.tree.right) + 2 else 1) + Work(s.below)
  }

  lemma AdvanceWork<K>(f: Filter<K>, s: Stack<K>)
    requires s.Push? && Nested(s)
    ensures Work(Advance(f, s)) < Work(s)
  {
    if s.pass < 2 {
      LookWithin(f, NextChild(s.tree, s.pass));
    }
  }
}
