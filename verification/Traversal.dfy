/** The second, non-recursive traversal of sglib: it saves right children and runs a command on each node. */
module Traversals {
  import opened Nodes
  import opened Trees
  import opened Links
  import opened Walks
  import opened Receipts

  /** The path above the current subtree. A node is `entered` once its right subtree was begun:
      its saved right child is then NULL and its pass 1. */
  datatype Trail<K> = Done | Above(tree: Tree<K>, entered: bool, below: Trail<K>)

  ghost function Length<K>(s: Trail<K>): nat {
    if s.Done? then 0 else 1 + Length(s.below)
  }

  /** The nodes still to be read: only right subtrees not yet begun. */
  ghost function Unread<K>(s: Trail<K>): set<Node<K>> {
    if s.Done? || s.tree.Leaf? then {}
    else (if s.entered then {} else NodeSet(s.tree.right)) + Unread(s.below)
  }

  ghost predicate Climbable<K>(s: Trail<K>) {
    s.Above? ==>
      && s.tree.Bin? && Distinct(s.tree) && Height(s.tree) + Length(s.below) < MAX_TREE_DEEP
      && NodeSet(s.tree) !! Unread(s.below) && Climbable(s.below)
  }

  ghost predicate Waiting<K>(s: Trail<K>)
    reads Unread(s)
  {
    s.Above? && s.tree.Bin? ==> (!s.entered ==> Linked(s.tree.right)) && Waiting(s.below)
  }

  ghost function Saved<K>(s: Trail<K>): Node?<K>
    requires s.Above? && s.tree.Bin?
  {
    if s.entered then null else Root(s.tree.right)
  }

  ghost predicate Kept<K>(s: Trail<K>, path: seq<Node?<K>>, right: seq<Node?<K>>, pass: seq<int>) {
    s.Above? ==>
      && var k := Length(s) - 1;
      && k < |path| && k < |right| && k < |pass| && s.tree.Bin?
      && path[k] == s.tree.cell.node && right[k] == Saved(s) && pass[k] == (if s.entered then 1 else 0)
      && Kept(s.below, path, right, pass)
  }

  lemma {:induction false} KeptSame<K>(s: Trail<K>, path: seq<Node?<K>>, right: seq<Node?<K>>, pass: seq<int>,
                                       path': seq<Node?<K>>, right': seq<Node?<K>>, pass': seq<int>)
    requires Kept(s, path, right, pass)
    requires |path| == |path'| && |right| == |right'| && |pass| == |pass'|
    requires Length(s) <= |path| && Length(s) <= |right| && Length(s) <= |pass|
    requires forall i :: 0 <= i < Length(s) ==> path'[i] == path[i] && right'[i] == right[i] && pass'[i] == pass[i]
    ensures Kept(s, path', right', pass')
  {
    if s.Above? {
      KeptSame(s.below, path, right, pass, path', right', pass');
    }
  }

  /** What the path still owes. */
  ghost function Owed<K>(order: int, s: Trail<K>): seq<Cell<K>> {
    if s.Done? || s.tree.Leaf? then []
    else if s.entered then Due(order, 2, s.tree.cell) + Owed(order, s.below)
    else
      Due(order, 1, s.tree.cell)
      + (Walk(order, Everything, s.tree.right) + (Due(order, 2, s.tree.cell) + Owed(order, s.below)))
  }

  /** What a visit of the top node on the way up yields: in-order before its right subtree,
      in postorder after it or when there is none. */
  ghost function Yield<K>(order: int, s: Trail<K>): seq<Cell<K>>
    requires s.Above? && s.tree.Bin?
  {
    if s.entered then Due(order, 2, s.tree.cell)
    else if s.tree.right.Leaf? then Due(order, 1, s.tree.cell) + Due(order, 2, s.tree.cell)
    else Due(order, 1, s.tree.cell)
  }

  lemma OwedEnter<K>(order: int, t: Tree<K>, s: Trail<K>)
    requires t.Bin?
    ensures Walk(order, Everything, t) + Owed(order, s) ==
            Due(order, 0, t.cell) + (Walk(order, Everything, t.left) + Owed(order, Above(t, false, s)))
  {
    var l, r := Walk(order, Everything, t.left), Walk(order, Everything, t.right);
    var d0, d1, d2 := Due(order, 0, t.cell), Due(order, 1, t.cell), Due(order, 2, t.cell);
    Regroup(d0, l, d1, r, d2, Owed(order, s));
  }

  lemma Regroup<T>(a: seq<T>, b: seq<T>, c: seq<T>, d: seq<T>, e: seq<T>, f: seq<T>)
    ensures (a + (b + (c + (d + e)))) + f == a + (b + (c + (d + (e + f))))
  {
  }

  /** The right subtree to traverse next, and the path above it. */
  ghost function Lower<K>(s: Trail<K>): Tree<K>
    requires s.Above? && s.tree.Bin?
  {
    if s.entered then Leaf else s.tree.right
  }

  ghost function Higher<K>(s: Trail<K>): Trail<K>
    requires s.Above? && s.tree.Bin?
  {
    if s.entered || s.tree.right.Leaf? then s.below else Above(s.tree, true, s.below)
  }

  lemma OwedUp<K>(order: int, s: Trail<K>)
    requires s.Above? && s.tree.Bin?
    ensures Walk(order, Everything, Leaf) + Owed(order, s) ==
            Yield(order, s) + (Walk(order, Everything, Lower(s)) + Owed(order, Higher(s)))
  {
    var w, up := Walk(order, Everything, s.tree.right), Owed(order, s.below);
    EmptyWalk<K>(order);
    assert s.tree.right.Leaf? ==> w == [];
    hide Walk, Due;
    Skip(Owed(order, s));
    Skip(up);
    Shift(Due(order, 1, s.tree.cell), Due(order, 2, s.tree.cell), up);
  }

  lemma EmptyWalk<K>(order: int)
    ensures Walk<K>(order, Everything, Leaf) == []
  {
  }

  lemma Skip<T>(a: seq<T>)
    ensures [] + a == a
  {
  }

  lemma Shift<T>(a: seq<T>, b: seq<T>, c: seq<T>)
    ensures a + ([] + (b + c)) == (a + b) + ([] + c)
  {
  }

  // ---------- nesting ----------

  lemma ClimbHead<K>(s: Trail<K>)
    requires s.Above? && Climbable(s)
    ensures s.tree.Bin? && Distinct(s.tree) && Climbable(s.below) && Length(s) < MAX_TREE_DEEP
    ensures s.tree.cell.node !in Unread(s) && s.tree.cell.node !in Unread(s.below)
    ensures Unread(s.below) <= Unread(s)
  {
  }

  /** Going down to the left child: the node is saved and will not be read again. */
  lemma ClimbEnter<K>(t: Tree<K>, s: Trail<K>)
    requires t.Bin? && Distinct(t) && Climbable(s) && NodeSet(t) !! Unread(s)
    requires Height(t) + Length(s) < MAX_TREE_DEEP
    ensures var s' := Above(t, false, s);
            && Climbable(s') && Distinct(t.left) && NodeSet(t.left) !! Unread(s')
            && Height(t.left) + Length(s') < MAX_TREE_DEEP
            && t.cell.node !in NodeSet(t.left) + Unread(s') && t.cell.node in NodeSet(t)
            && NodeSet(t.left) + Unread(s') <= NodeSet(t) + Unread(s)
  {
  }

  /** Going down to the saved right child. */
  lemma ClimbReenter<K>(s: Trail<K>)
    requires s.Above? && Climbable(s) && !s.entered
    ensures var s' := Above(s.tree, true, s.below);
            var r := s.tree.right;
            && Climbable(s') && Distinct(r) && NodeSet(r) !! Unread(s')
            && Height(r) + Length(s') < MAX_TREE_DEEP
            && s.tree.cell.node !in NodeSet(r) && NodeSet(r) + Unread(s') <= Unread(s)
  {
  }

  ghost function TrailNodes<K>(s: Trail<K>): set<Node<K>> {
    if s.Done? || s.tree.Leaf? then {} else {s.tree.cell.node} + TrailNodes(s.below)
  }

  /** A bound on the steps still to take. */
  ghost function Steps<K>(s: Trail<K>): nat {
    if s.Done? || s.tree.Leaf? then 0
    else (if s.entered then 1 else 3 * Size(s.tree.right) + 2) + Steps(s.below)
  }

  lemma StepsUp<K>(s: Trail<K>)
    requires s.Above? && s.tree.Bin?
    ensures 3 * Size(Lower(s)) + Steps(Higher(s)) < Steps(s)
    ensures TrailNodes(Higher(s)) <= TrailNodes(s)
  {
  }

  lemma LeftChild<K>(n: Node<K>, t: Tree<K>)
    requires Represents(n, t)
    ensures t.Bin? && n == t.cell.node && n.right == Root(t.right) && Represents(n.left, t.left)
  {
  }

  /** The local variables of the traversal macro. */
  class Traversal<K> {
    const path: array<Node?<K>>
    const right: array<Node?<K>>
    const pass: array<int>
    const order: int
    var pathi: int
    var cn: Node?<K>
    var visited: seq<Node<K>>
    ghost var here: Tree<K>
    ghost var trail: Trail<K>

    ghost predicate Valid()
      reads this, path, right, pass, NodeSet(here), Unread(trail)
    {
      && path.Length == MAX_TREE_DEEP && right.Length == MAX_TREE_DEEP && pass.Length == MAX_TREE_DEEP
      && right != path && 0 <= order <= 2
      && (pathi == Length(trail) || (trail.Done? && here.Leaf?))
      && Represents(cn, here) && Distinct(here)
      && Climbable(trail) && NodeSet(here) !! Unread(trail) && Height(here) + Length(trail) < MAX_TREE_DEEP
      && Kept(trail, path[..], right[..], pass[..]) && Waiting(trail)
    }

    ghost function Live(): set<Node<K>>
      reads this
    {
      NodeSet(here) + Unread(trail)
    }

    /** The cells whose command has not run yet. */
    ghost function ToDo(): seq<Cell<K>>
      reads this
    {
      Walk(order, Everything, here) + Owed(order, trail)
    }

    constructor (tree: Node?<K>, order: int, ghost shape: Tree<K>)
      requires 0 <= order <= 2 && Represents(tree, shape) && Distinct(shape) && Height(shape) < MAX_TREE_DEEP
      ensures Valid() && ToDo() == Walk(order, Everything, shape) && visited == [] && this.order == order
      ensures here == shape && trail.Done? && fresh(path) && fresh(right) && fresh(pass)
    {
      path := new Node?<K>[MAX_TREE_DEEP](_ => null);
      right := new Node?<K>[MAX_TREE_DEEP](_ => null);
      pass := new int[MAX_TREE_DEEP](_ => 0);
      this.order, pathi, cn, visited := order, 0, tree, [];
      here, trail := shape, Done;
      new;
      assert Walk(order, Everything, shape) + [] == Walk(order, Everything, shape);
      assert allocated(NodeSet(shape));
    }

    /** Runs the command: it may destroy the element. */
    method Command(n: Node<K>, destroy: bool)
      requires Valid() && n !in Live()
      modifies this`visited, if destroy then {n} else {}
      ensures Valid() && visited == old(visited) + [n]
    {
      assert allocated(Live());
      visited := visited + [n];
      if destroy {
        Free(n);
      }
    }

    /** One step of the push-down loop. */
    method Enter(destroy: bool)
      requires Valid() && cn != null
      modifies this`pathi, this`cn, this`visited, this`here, this`trail, path, right, pass
      modifies if destroy then Live() else {}
      ensures Valid() && here == old(here).left && trail == Above(old(here), false, old(trail))
      ensures visited == old(visited) + NodeSeq(Due(order, 0, old(here).cell))
      ensures Live() <= old(Live()) && old(ToDo()) == Due(order, 0, old(here).cell) + ToDo()
    {
      var n: Node<K> := cn;
      SaveNode();
      if order == 0 {
        Command(n, destroy);
      }
    }

    method SaveNode()
      requires Valid() && cn != null
      modifies this`pathi, this`cn, this`here, this`trail, path, right, pass
      ensures Valid() && here == old(here).left && trail == Above(old(here), false, old(trail))
      ensures Live() <= old(Live()) && old(cn) !in Live()
      ensures old(ToDo()) == Due(order, 0, old(here).cell) + ToDo()
    {
      hide Climbable, Waiting, Kept, Unread, Walk, Due, Owed, Linked, NodeSet, Distinct, Height;
      ghost var t, s := here, trail;
      assert allocated(Live());
      LeftChild(cn, t);
      ClimbEnter(t, s);
      OwedEnter(order, t, s);
      WaitingEnter(t, s);
      KeptEnter(t, s, path[..], right[..], pass[..]);
      path[pathi] := cn;
      right[pathi] := cn.right;
      pass[pathi] := 0;
      cn := cn.left;
      pathi := pathi + 1;
      assert pathi < MAX_TREE_DEEP;
      here, trail := t.left, Above(t, false, s);
    }

    /** One step of the do-while loop and, when it is the last, the statements after the loop. */
    method Up(destroy: bool) returns (more: bool)
      requires Valid() && cn == null && trail.Above?
      modifies this`pathi, this`cn, this`visited, this`here, this`trail, path, right, pass
      modifies if destroy then Live() + {trail.tree.cell.node} else {}
      ensures Valid() && here == Lower(old(trail)) && trail == Higher(old(trail))
      ensures more <==> here.Leaf? && trail.Above?
      ensures visited == old(visited) + NodeSeq(Yield(order, old(trail)))
      ensures Live() <= old(Live()) && old(ToDo()) == Yield(order, old(trail)) + ToDo()
    {
      hide Climbable, Waiting, Unread, Walk, Owed;
      ghost var s := trail;
      var k := pathi - 1;
      ClimbHead(s);
      if (order == 1 && pass[k] == 0) || (order == 2 && (pass[k] == 1 || right[k] == null)) {
        Command(path[k], destroy);
      }
      assert visited == old(visited) + NodeSeq(Yield(order, s));
      more := Climb();
    }

    /** The bookkeeping of the whole run: what was visited and what is to do is the whole walk,
        and nothing outside `nodes` is involved. */
    ghost predicate OnCourse(nodes: set<Node<K>>, walk: seq<Node<K>>)
      reads this, path, right, pass, NodeSet(here), Unread(trail)
    {
      Valid() && Live() + TrailNodes(trail) <= nodes && visited + NodeSeq(ToDo()) == walk
    }

    ghost function Bound(): nat
      reads this
    {
      3 * Size(here) + Steps(trail)
    }

    method EnterOnCourse(destroy: bool, ghost nodes: set<Node<K>>, ghost walk: seq<Node<K>>)
      requires OnCourse(nodes, walk) && cn != null
      modifies this, path, right, pass, if destroy then nodes else {}
      ensures OnCourse(nodes, walk) && Bound() < old(Bound()) && trail.Above?
    {
      hide Climbable, Waiting, Kept, Unread, Walk, Due, Owed, Distinct, Height, Linked, NodeSeq;
      ghost var t := here;
      ghost var due := Due(order, 0, t.cell);
      EnterFacts(t);
      Enter(destroy);
      NodeSeqConcat(due, ToDo());
    }

    lemma EnterFacts(t: Tree<K>)
      requires t.Bin?
      ensures t.cell.node in NodeSet(t) && Size(t) == Size(t.left) + Size(t.right) + 1
    {
    }

    method UpOnCourse(destroy: bool, ghost nodes: set<Node<K>>, ghost walk: seq<Node<K>>) returns (more: bool)
      requires OnCourse(nodes, walk) && cn == null && trail.Above?
      modifies this, path, right, pass, if destroy then nodes else {}
      ensures OnCourse(nodes, walk) && Bound() < old(Bound())
      ensures more <==> cn == null && trail.Above?
    {
      hide Climbable, Waiting, Kept, Unread, Walk, Due, Owed, Distinct, Height, Linked, NodeSeq, Lower, Higher;
      ClimbHead(trail);
      StepsUp(trail);
      ghost var due := Yield(order, trail);
      more := Up(destroy);
      NodeSeqConcat(due, ToDo());
    }

    /** The loops of the macro. */
    method Run(destroy: bool, ghost nodes: set<Node<K>>, ghost walk: seq<Node<K>>)
      requires OnCourse(nodes, walk) && trail.Done?
      modifies this, path, right, pass, if destroy then nodes else {}
      ensures visited == walk
    {
      hide OnCourse, Bound;
      while cn != null
        invariant OnCourse(nodes, walk) && (cn == null ==> trail.Done?)
        decreases Bound()
      {
        PushDown(destroy, nodes, walk);
        GoUp(destroy, nodes, walk);
      }
      Finish(nodes, walk);
    }

    method PushDown(destroy: bool, ghost nodes: set<Node<K>>, ghost walk: seq<Node<K>>)
      requires OnCourse(nodes, walk) && cn != null
      modifies this, path, right, pass, if destroy then nodes else {}
      ensures OnCourse(nodes, walk) && cn == null && trail.Above? && Bound() < old(Bound())
    {
      hide OnCourse, Bound;
      while cn != null
        invariant OnCourse(nodes, walk) && (cn == null ==> trail.Above?)
        invariant Bound() < old(Bound()) || (cn != null && Bound() == old(Bound()))
        decreases Bound()
      {
        EnterOnCourse(destroy, nodes, walk);
      }
    }

    method GoUp(destroy: bool, ghost nodes: set<Node<K>>, ghost walk: seq<Node<K>>)
      requires OnCourse(nodes, walk) && cn == null && trail.Above?
      modifies this, path, right, pass, if destroy then nodes else {}
      ensures OnCourse(nodes, walk) && (cn == null ==> trail.Done?) && Bound() < old(Bound())
    {
      hide OnCourse, Bound;
      var more := UpOnCourse(destroy, nodes, walk);
      while more
        invariant OnCourse(nodes, walk) && Bound() < old(Bound())
        invariant more <==> cn == null && trail.Above?
        decreases Bound()
      {
        more := UpOnCourse(destroy, nodes, walk);
      }
    }

    lemma Finish(nodes: set<Node<K>>, walk: seq<Node<K>>)
      requires OnCourse(nodes, walk) && cn == null && trail.Done?
      ensures visited == walk
    {
    }

    method Climb() returns (more: bool)
      requires Valid() && cn == null && trail.Above?
      modifies this`pathi, this`cn, this`here, this`trail, path, right, pass
      ensures Valid() && here == Lower(old(trail)) && trail == Higher(old(trail))
      ensures more <==> here.Leaf? && trail.Above?
      ensures Live() <= old(Live()) && old(ToDo()) == Yield(order, old(trail)) + ToDo()
    {
      hide Climbable, Waiting, Unread, Walk, Due, Owed, Kept, Linked, Distinct, Height;
      ghost var s := trail;
      KeptHead(s, path[..], right[..], pass[..]);
      ClimbUp(s);
      WaitingUp(s);
      OwedUp(order, s);
      KeptUp(s, path[..], right[..], pass[..]);
      assert allocated(Live());
      pathi := pathi - 1;
      pass[pathi] := pass[pathi] + 1;
      more := pathi > 0 && right[pathi] == null;
      if !more {
        cn := right[pathi];
        right[pathi] := null;
        pathi := pathi + 1;
      }
      here, trail := Lower(s), Higher(s);
    }
  }

  lemma KeptHead<K>(s: Trail<K>, path: seq<Node?<K>>, right: seq<Node?<K>>, pass: seq<int>)
    requires s.Above? && Kept(s, path, right, pass)
    ensures var k := Length(s) - 1;
            && s.tree.Bin? && k < |path| && k < |right| && k < |pass| && right[k] == Saved(s)
            && (right[k] == null <==> Lower(s).Leaf?)
            && (s.below.Above? ==> k > 0)
  {
  }

  lemma WaitingUp<K>(s: Trail<K>)
    requires s.Above? && s.tree.Bin? && Waiting(s)
    ensures Waiting(Higher(s)) && Linked(Lower(s))
  {
  }

  lemma ClimbUp<K>(s: Trail<K>)
    requires s.Above? && Climbable(s)
    ensures s.tree.Bin? && Climbable(Higher(s)) && Distinct(Lower(s)) && NodeSet(Lower(s)) !! Unread(Higher(s))
    ensures Height(Lower(s)) + Length(Higher(s)) < MAX_TREE_DEEP && Length(s) < MAX_TREE_DEEP
    ensures NodeSet(Lower(s)) + Unread(Higher(s)) <= Unread(s)
  {
    ClimbHead(s);
    if !s.entered {
      ClimbReenter(s);
    }
  }

  lemma KeptUp<K>(s: Trail<K>, path: seq<Node?<K>>, right: seq<Node?<K>>, pass: seq<int>)
    requires s.Above? && Kept(s, path, right, pass)
    ensures var k := Length(s) - 1;
            && s.tree.Bin? && k < |pass| && k < |right|
            && (Lower(s).Leaf? ==> Kept(Higher(s), path, right, pass[k := pass[k] + 1]))
            && Kept(Higher(s), path, right[k := null], pass[k := pass[k] + 1])
  {
    var k := Length(s) - 1;
    KeptSame(s.below, path, right, pass, path, right, pass[k := pass[k] + 1]);
    KeptSame(s.below, path, right, pass, path, right[k := null], pass[k := pass[k] + 1]);
  }

  lemma WaitingEnter<K>(t: Tree<K>, s: Trail<K>)
    requires t.Bin? && Linked(t) && Waiting(s)
    ensures Waiting(Above(t, false, s)) && Linked(t.left) && t.cell.node.left == Root(t.left)
              && t.cell.node.right == Root(t.right)
  {
  }

  lemma KeptEnter<K>(t: Tree<K>, s: Trail<K>, path: seq<Node?<K>>, right: seq<Node?<K>>, pass: seq<int>)
    requires t.Bin? && Kept(s, path, right, pass)
    requires Length(s) < |path| && Length(s) < |right| && Length(s) < |pass|
    ensures Kept(Above(t, false, s), path[Length(s) := t.cell.node], right[Length(s) := Root(t.right)],
                 pass[Length(s) := 0])
  {
    KeptSame(s, path, right, pass, path[Length(s) := t.cell.node], right[Length(s) := Root(t.right)],
             pass[Length(s) := 0]);
  }

  /** Runs the command once on each node in the given order. With `destroy` the command ruins
      the node it is given, so the traversal cannot depend on a node after its command. */
  method MapOnElements<K>(tree: Node?<K>, order: int, destroy: bool, ghost shape: Tree<K>)
    returns (visited: seq<Node<K>>)
    requires 0 <= order <= 2 && Represents(tree, shape) && Distinct(shape) && Height(shape) < MAX_TREE_DEEP
    modifies if destroy then NodeSet(shape) else {}
    ensures visited == NodeSeq(Walk(order, Everything, shape))
    ensures (set n | n in visited) == NodeSet(shape)
    ensures forall i, j :: 0 <= i < j < |visited| ==> visited[i] != visited[j]
  {
    EachOnce(order, shape);
    hide Walk, NodeSeq;
    assert allocated(NodeSet(shape));
    var w := new Traversal(tree, order, shape);
    w.Run(destroy, NodeSet(shape), NodeSeq(Walk(order, Everything, shape)));
    visited := w.visited;
  }

  /** `sglib_len` counts the nodes. */
  method Len<K>(tree: Node?<K>, ghost shape: Tree<K>) returns (n: nat)
    requires Represents(tree, shape) && Distinct(shape) && Height(shape) < MAX_TREE_DEEP
    ensures n == Size(shape)
  {
    var visited := MapOnElements(tree, 1, false, shape);
    WalkIsInorder(shape);
    NodeSeqAt(Inorder(shape));
    NodeSetIsInorder(shape);
    n := |visited|;
  }
}
