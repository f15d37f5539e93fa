/** The tree iterator with an explicit stack, and freeing the elements it yields. */
module Iterators {
  import opened Nodes
  import opened Trees
  import opened Links
  import opened Search
  import opened Walks
  import RbTree

  /** The fields a frame's node and the subtrees it will still enter must keep. */
  ghost predicate FrameIntact<K>(t: Tree<K>, pass: int)
    requires t.Bin?
    reads Live(t, pass)
  {
    var n := t.cell.node;
    && (pass == 0 ==> n.left == Root(t.left) && Linked(t.left))
    && (pass == 0 || pass == 1 ==> n.right == Root(t.right) && Linked(t.right))
  }

  ghost predicate Intact<K>(s: Stack<K>)
    reads LiveAll(s)
  {
    s.Push? && s.tree.Bin? ==> FrameIntact(s.tree, s.pass) && Intact(s.below)
  }

  /** The arrays hold the stack, its top at the highest index in use. */
  ghost predicate Stored<K>(s: Stack<K>, path: seq<Node?<K>>, pass: seq<int>) {
    s.Push? ==>
      && Depth(s) <= |path| && Depth(s) <= |pass| && s.tree.Bin?
      && path[Depth(s) - 1] == s.tree.cell.node && pass[Depth(s) - 1] == s.pass
      && Stored(s.below, path, pass)
  }

  lemma {:induction false} StoredSame<K>(s: Stack<K>, path: seq<Node?<K>>, pass: seq<int>, path': seq<Node?<K>>,
                                         pass': seq<int>)
    requires Stored(s, path, pass)
    requires Depth(s) <= |path'| && Depth(s) <= |pass'|
    requires forall i :: 0 <= i < Depth(s) && i < |path| && i < |pass| ==> path'[i] == path[i] && pass'[i] == pass[i]
    ensures Stored(s, path', pass')
  {
    if s.Push? {
      StoredSame(s.below, path, pass, path', pass');
    }
  }

  /** Going down needs only nodes that are still live. */
  lemma IntactAdvance<K>(f: Filter<K>, s: Stack<K>)
    requires s.Push? && s.pass < 2 && Nested(s) && Intact(s)
    ensures Represents(s.tree.cell.node.Child(if s.pass == 0 then Left else Right), NextChild(s.tree, s.pass))
    ensures Intact(Advance(f, s))
  {
    var child := NextChild(s.tree, s.pass);
    match f
    case Everything =>
    case EqualTo(sub, e) => FocusLinked(sub, e, child);
  }

  lemma FocusLinked<K>(sub: Comparator<K>, e: Entry<K>, t: Tree<K>)
    requires Linked(t)
    ensures Linked(Focus(sub, e, t))
  {
    if t.Bin? {
      FocusLinked(sub, e, t.left);
      FocusLinked(sub, e, t.right);
    }
  }

  lemma StoredHead<K>(s: Stack<K>, path: seq<Node?<K>>, pass: seq<int>)
    requires s.Push? && Stored(s, path, pass)
    ensures s.tree.Bin? && Depth(s) <= |path| && Depth(s) <= |pass|
    ensures path[Depth(s) - 1] == s.tree.cell.node && pass[Depth(s) - 1] == s.pass
  {
  }

  /** Popping a finished frame keeps everything below it. */
  lemma Finished<K>(f: Filter<K>, s: Stack<K>, path: seq<Node?<K>>, pass: seq<int>)
    requires s.Push? && s.pass >= 2 && Nested(s) && Stored(s, path, pass) && Intact(s)
    ensures Advance(f, s) == s.below && Depth(s) == Depth(s.below) + 1
    ensures Nested(s.below) && Stored(s.below, path, pass) && Intact(s.below)
    ensures LiveAll(s.below) <= LiveAll(s)
  {
  }

  lemma StoredOne<K>(u: Tree<K>, path: seq<Node?<K>>, pass: seq<int>)
    requires u.Bin? && 0 < |path| && 0 < |pass| && path[0] == u.cell.node && pass[0] == 0
    ensures Stored(Push(u, 0, Empty), path, pass)
  {
  }

  lemma EmptyIsIntact<K>(path: seq<Node?<K>>, pass: seq<int>)
    ensures var s: Stack<K> := Empty; Intact(s) && Nested(s) && Stored(s, path, pass) && LiveAll(s) == {}
  {
  }

  lemma IntactOne<K>(u: Tree<K>)
    requires u.Bin? && Linked(u)
    ensures Intact(Push(u, 0, Empty))
  {
  }

  /** The first frame is nested and owes the whole walk. */
  lemma StartStack<K>(order: int, f: Filter<K>, shape: Tree<K>)
    requires Distinct(shape) && Height(shape) <= MAX_TREE_DEEP
    ensures var u := Look(f, shape);
            && NodeSet(u) <= NodeSet(shape)
            && (u.Leaf? ==> Walk(order, f, shape) == [])
            && (u.Bin? ==>
                  && Nested(Push(u, 0, Empty)) && LiveAll(Push(u, 0, Empty)) == NodeSet(u)
                  && Walk(order, f, shape) == Top(order, Push(u, 0, Empty)) + Pending(order, f, Push(u, 0, Empty)))
  {
    LookWithin(f, shape);
    WalkIsUpward(order, f, shape, Empty);
    assert Walk(order, f, shape) + [] == Walk(order, f, shape);
  }

  lemma NestedHead<K>(s: Stack<K>)
    requires s.Push? && Nested(s)
    ensures s.tree.Bin? && 0 <= s.pass <= 2 && Nested(s.below)
  {
  }

  lemma StoredTop<K>(s: Stack<K>, path: seq<Node?<K>>, pass: seq<int>, p: int)
    requires s.Push? && Stored(s, path, pass)
    ensures Stored(Push(s.tree, p, s.below), path, pass[Depth(s) - 1 := p])
  {
    StoredSame(s.below, path, pass, path, pass[Depth(s) - 1 := p]);
  }

  lemma StoredPush<K>(u: Tree<K>, s: Stack<K>, path: seq<Node?<K>>, pass: seq<int>)
    requires u.Bin? && Stored(s, path, pass) && Depth(s) < |path| && Depth(s) < |pass|
    ensures Stored(Push(u, 0, s), path[Depth(s) := u.cell.node], pass[Depth(s) := 0])
  {
    StoredSame(s, path, pass, path[Depth(s) := u.cell.node], pass[Depth(s) := 0]);
  }

  lemma StoredAdvance<K>(f: Filter<K>, s: Stack<K>, path: seq<Node?<K>>, pass: seq<int>)
    requires s.Push? && s.pass < 2 && Nested(s) && Stored(s, path, pass)
    requires |path| == MAX_TREE_DEEP && |pass| == MAX_TREE_DEEP
    ensures var r, d := Root(Look(f, NextChild(s.tree, s.pass))), Depth(s);
            && (r == null ==> Depth(Advance(f, s)) == d && Stored(Advance(f, s), path, pass[d - 1 := pass[d - 1] + 1]))
            && (r != null ==>
                  && Depth(Advance(f, s)) == d + 1 <= MAX_TREE_DEEP
                  && Stored(Advance(f, s), path[d := r], pass[d - 1 := pass[d - 1] + 1][d := 0]))
  {
    AdvanceDepth(f, s);
    hide Nested, LiveAll, Live, Walks.Look;
    var u := Look(f, NextChild(s.tree, s.pass));
    var d := Depth(s);
    var top := Push(s.tree, s.pass + 1, s.below);
    StoredTop(s, path, pass, s.pass + 1);
    if u.Bin? {
      StoredPush(u, top, path, pass[d - 1 := s.pass + 1]);
    }
  }

  lemma AdvanceDepth<K>(f: Filter<K>, s: Stack<K>)
    requires s.Push? && s.pass < 2 && Nested(s)
    ensures Depth(Advance(f, s)) <= MAX_TREE_DEEP
  {
    AdvanceNested(f, s);
  }

  class Iterator<K> {
    var currentelem: Node?<K>
    const pass: array<int>
    const path: array<Node?<K>>
    var pathi: int
    var order: int
    var filter: Filter<K>
    ghost var stack: Stack<K>

    ghost predicate Valid()
      reads this, pass, path, LiveAll(stack)
    {
      && pass.Length == MAX_TREE_DEEP && path.Length == MAX_TREE_DEEP
      && 0 <= order <= 2 && pathi == Depth(stack)
      && Nested(stack) && Stored(stack, path[..], pass[..]) && Intact(stack)
    }

    /** What the next calls will return. */
    ghost function Remaining(): seq<Cell<K>>
      reads this
    {
      Pending(order, filter, stack)
    }

    /** The iterator stands at the start of `s`: its first cell is current, the others are to come.
        In postorder the current node is one the iterator will not read again. */
    ghost predicate At(s: seq<Cell<K>>)
      reads this, pass, path, LiveAll(stack)
    {
      && Valid()
      && currentelem == (if s == [] then null else s[0].node)
      && Remaining() == (if s == [] then [] else s[1..])
      && (order == 2 && s != [] ==> s[0].node !in LiveAll(stack))
    }

    /** `sglib__it_init`: with a filter, start at the topmost element it accepts. */
    constructor (tree: Node?<K>, order: int, filter: Filter<K>, ghost shape: Tree<K>)
      requires 0 <= order <= 2
      requires Represents(tree, shape) && Distinct(shape) && Height(shape) <= MAX_TREE_DEEP
      ensures At(Walk(order, filter, shape)) && this.order == order && this.filter == filter
      ensures LiveAll(stack) <= NodeSet(shape) && fresh(pass) && fresh(path)
    {
      this.order, this.filter := order, filter;
      pass := new int[MAX_TREE_DEEP](_ => 0);
      path := new Node?<K>[MAX_TREE_DEEP](_ => null);
      currentelem, pathi, stack := null, 0, Empty;
      new;
      assert allocated(NodeSet(shape));
      var t := tree;
      if filter.EqualTo? {
        t := RbTree.FindMember(filter.sub, tree, filter.e, shape);
      }
      Start(t, shape);
    }

    method Start(t: Node?<K>, ghost shape: Tree<K>)
      requires pass.Length == MAX_TREE_DEEP && path.Length == MAX_TREE_DEEP && 0 <= order <= 2
      requires Represents(t, Look(filter, shape)) && Distinct(shape) && Height(shape) <= MAX_TREE_DEEP
      modifies this, pass, path
      ensures order == old(order) && filter == old(filter)
      ensures At(Walk(order, filter, shape)) && LiveAll(stack) <= NodeSet(shape)
    {
      hide Nested, Intact, Stored, Walks.Look, Live, Walk, NodeSet, Distinct, Height, Linked;
      ghost var u := Look(filter, shape);
      StartStack(order, filter, shape);
      assert allocated(NodeSet(shape));
      currentelem := null;
      if t == null {
        pathi := 0;
        stack := Empty;
        EmptyIsIntact(path[..], pass[..]);
        Standing([]);
      } else {
        pathi := 1;
        pass[0] := 0;
        path[0] := t;
        stack := Push(u, 0, Empty);
        StoredOne(u, path[..], pass[..]);
        if order == 0 {
          currentelem := t;
          IntactOne(u);
        } else {
          IntactOne(u);
          ComputeCurrentElem();
        }
        Standing(Walk(order, filter, shape));
      }
    }

    /** Standing at the stack's top is standing at the start of what is to come. */
    lemma Standing(s: seq<Cell<K>>)
      requires Valid() && currentelem == Visited(order, stack) && (currentelem == null ==> stack.Empty?)
      requires s == Top(order, stack) + Remaining()
      ensures At(s)
    {
    }

    /** `sglib_it_next`: the following cell, or null for good once all were returned. */
    method Next(ghost s: seq<Cell<K>>) returns (elem: Node?<K>)
      requires At(s)
      modifies this, pass, path
      ensures At(if s == [] then [] else s[1..]) && elem == currentelem
      ensures order == old(order) && filter == old(filter) && LiveAll(stack) <= old(LiveAll(stack))
    {
      ComputeCurrentElem();
      elem := currentelem;
      Standing(if s == [] then [] else s[1..]);
    }

    /** In postorder the current element is one the iterator is done with. */
    lemma CurrentIsDone(s: seq<Cell<K>>)
      requires At(s) && order == 2 && s != []
      ensures currentelem == s[0].node && currentelem !in LiveAll(stack)
    {
    }

    method ComputeCurrentElem()
      requires Valid()
      modifies this, pass, path
      ensures Valid() && order == old(order) && filter == old(filter)
      ensures LiveAll(stack) <= old(LiveAll(stack))
      ensures old(Remaining()) == Top(order, stack) + Remaining()
      ensures currentelem == Visited(order, stack) && (currentelem == null ==> stack.Empty?)
    {
      currentelem := null;
      ghost var owed := Remaining();
      while pathi > 0 && currentelem == null
        invariant Valid() && order == old(order) && filter == old(filter)
        invariant LiveAll(stack) <= old(LiveAll(stack))
        invariant currentelem == null ==> Remaining() == owed
        invariant currentelem != null ==>
                    currentelem == Visited(order, stack) && owed == Top(order, stack) + Remaining()
        decreases Work(stack)
      {
        AdvanceNested(filter, stack);
        AdvancePending(order, filter, stack);
        AdvanceWork(filter, stack);
        Round();
      }
    }

    /** Down on the next side, to the topmost element the filter accepts there. */
    method Descend()
      requires Valid() && pathi > 0 && pass[pathi - 1] < 2
      modifies this`pathi, this`stack, pass, path
      ensures Valid() && stack == Advance(filter, old(stack))
    {
      hide Nested, Intact, Stored, Advance, LiveAll, Live, Walks.Look;
      var i := pathi - 1;
      StoredHead(stack, path[..], pass[..]);
      NestedHead(stack);
      ghost var next := Advance(filter, stack);
      AdvanceNested(filter, stack);
      IntactAdvance(filter, stack);
      StoredAdvance(filter, stack, path[..], pass[..]);
      assert allocated(LiveAll(next));
      var s := NextElement(i);
      PushElement(i, s);
      stack := next;
    }

    /** The writes of one descent. */
    method PushElement(i: int, s: Node?<K>)
      requires pass.Length == path.Length && 0 <= i == pathi - 1 < pass.Length
      requires s != null ==> pathi < path.Length
      modifies this`pathi, pass, path
      ensures pathi == if s == null then old(pathi) else old(pathi) + 1
      ensures path[..] == if s == null then old(path[..]) else old(path[..])[i + 1 := s]
      ensures pass[..] == (if s == null then old(pass[..])[i := old(pass[i]) + 1]
                           else old(pass[..])[i := old(pass[i]) + 1][i + 1 := 0])
    {
      if s != null {
        path[i + 1] := s;
        pass[i + 1] := 0;
        pathi := pathi + 1;
      }
      pass[i] := pass[i] + 1;
    }

    method NextElement(i: int) returns (s: Node?<K>)
      requires Valid() && i == pathi - 1 >= 0 && pass[i] < 2
      ensures Represents(s, Look(filter, NextChild(stack.tree, stack.pass)))
    {
      IntactAdvance(filter, stack);
      s := if pass[i] == 0 then path[i].left else path[i].right;
      if filter.EqualTo? {
        assert allocated(LiveAll(stack));
        s := RbTree.FindMember(filter.sub, s, filter.e, NextChild(stack.tree, stack.pass));
      }
    }

    /** One round of the loop. */
    method Round()
      requires Valid() && pathi > 0 && currentelem == null
      modifies this`pathi, this`stack, this`currentelem, pass, path
      ensures Valid() && stack == Advance(filter, old(stack)) && currentelem == Visited(order, stack)
    {
      hide Nested, Stored, Advance, Walks.Look;
      var i := pathi - 1;
      StoredHead(stack, path[..], pass[..]);
      if pass[i] >= 2 {
        Finished(filter, stack, path[..], pass[..]);
        pathi := pathi - 1;
        stack := stack.below;
      } else {
        Descend();
      }
      Visit();
    }

    method Visit()
      requires Valid() && currentelem == null
      modifies this`currentelem
      ensures Valid() && currentelem == Visited(order, stack)
    {
      if pathi > 0 && order == pass[pathi - 1] {
        currentelem := path[pathi - 1];
      }
    }
  }

  /** The element a stack's top makes current. */
  ghost function Visited<K>(order: int, s: Stack<K>): Node?<K> {
    if Top(order, s) == [] then null else s.tree.cell.node
  }
}
