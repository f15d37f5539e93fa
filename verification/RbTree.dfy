/** The red-black tree of sglib: methods that relink nodes in place. */
module RbTree {
  import opened Orders
  import opened Nodes
  import opened Trees
  import opened Links
  import opened Search
  import Dictionary

  predicate IsRed<K>(t: Node?<K>)
    reads t
  {
    t != null && t.red
  }

  method FixInsertionDiscrepancy<K>(side: Side, tree: Node<K>, ghost shape: Tree<K>) returns (root: Node<K>)
    requires Represents(tree, shape) && Distinct(shape)
    requires shape.Child(side).Bin?
    modifies NodeSet(shape)`left, NodeSet(shape)`right, NodeSet(shape)`red
    ensures Represents(root, FixInsertion(side, shape))
  {
    root := tree;
    var far := side.Other();
    ghost var near, rest := shape.Child(side), shape.Child(far);
    Unfold(side, shape);
    Unfold(side, near);
    var tl := tree.Child(side);
    if IsRed(tree.Child(far)) {
      if tl.red {
        if IsRed(tl.Child(side)) || IsRed(tl.Child(far)) {
          FlipColors(side, tree, shape);
        }
      }
    } else {
      if tl.red {
        if IsRed(tl.Child(side)) {
          root := Rotate(side, tree, false, true, shape);
        } else if IsRed(tl.Child(far)) {
          root := RotateTwice(side, tree, tl.red, false, true, shape);
        }
      }
    }
  }

  /** Both children become black, the node red. */
  method FlipColors<K>(side: Side, tree: Node<K>, ghost shape: Tree<K>)
    requires Represents(tree, shape) && Distinct(shape)
    requires shape.Child(side).Bin? && shape.Child(side.Other()).Bin?
    modifies NodeSet(shape)`red
    ensures var far := side.Other();
            Represents(tree, Join(side, shape.Child(side).Paint(false), shape.cell, true,
                                  shape.Child(far).Paint(false)))
  {
    ghost var near, rest := shape.Child(side), shape.Child(side.Other());
    Unfold(side, shape);
    Separate(side, shape);
    PaintNode(tree.Child(side), false, near, {rest});
    PaintNode(tree.Child(side.Other()), false, rest, {near.Paint(false)});
    SetRed(tree, true, {near.Paint(false), rest.Paint(false)});
    Fold(side, near.Paint(false), shape.cell, true, rest.Paint(false));
  }

  method FixDeletionDiscrepancy<K>(side: Side, tree: Node<K>, ghost shape: Tree<K>)
    returns (root: Node<K>, decreased: bool)
    requires Represents(tree, shape) && Distinct(shape) && Deficient(side, shape)
    modifies NodeSet(shape)`left, NodeSet(shape)`right, NodeSet(shape)`red
    ensures Represents(root, FixDeletion(side, shape).0) && decreased == FixDeletion(side, shape).1
  {
    root, decreased := tree, false;
    ghost var near := shape.Child(side);
    Unfold(side, shape);
    var b := tree.Child(side);
    if b == null {
      assert false;
    } else if b.red {
      root := RepairRedSibling(side, tree, shape);
    } else {
      Unfold(side, near);
      var bl, br := b.Child(side), b.Child(side.Other());
      if !IsRed(bl) && !IsRed(br) {
        decreased := !tree.red;
        SinkRed(side, tree, false, shape);
      } else if IsRed(bl) && !IsRed(br) {
        root := RotateAndBlacken(side, tree, shape);
      } else {
        assert IsRed(br);
        root := RotateTwice(side, tree, false, tree.red, false, shape);
      }
    }
  }

  /** The black sibling turns red and the node takes the color `red`. */
  method SinkRed<K>(side: Side, tree: Node<K>, red: bool, ghost shape: Tree<K>)
    requires Represents(tree, shape) && Distinct(shape) && shape.Child(side).Bin?
    modifies NodeSet(shape)`red
    ensures Represents(tree, Join(side, shape.Child(side).Paint(true), shape.cell, red, shape.Child(side.Other())))
  {
    ghost var near, far := shape.Child(side), shape.Child(side.Other());
    Unfold(side, shape);
    Separate(side, shape);
    PaintNode(tree.Child(side), true, near, {far});
    SetRed(tree, red, {near.Paint(true), far});
    Fold(side, near.Paint(true), shape.cell, red, far);
  }

  /** A single rotation that hands the root's color up and blackens both of its children. */
  method RotateAndBlacken<K>(side: Side, tree: Node<K>, ghost shape: Tree<K>) returns (root: Node<K>)
    requires Represents(tree, shape) && Distinct(shape) && shape.Child(side).Bin?
    requires shape.Child(side).Child(side).Bin?
    modifies NodeSet(shape)`left, NodeSet(shape)`right, NodeSet(shape)`red
    ensures var near, far := shape.Child(side), side.Other();
            Represents(root, Join(side, near.Child(side).Paint(false), near.cell, shape.red,
                                  Join(side, near.Child(far), shape.cell, false, shape.Child(far))))
  {
    ghost var near, z := shape.Child(side), shape.Child(side.Other());
    ghost var x, y := near.Child(side), near.Child(side.Other());
    Open(side, shape);
    Separate(side, near);
    Separate(side, shape);
    root := tree.Child(side);
    var bl := root.Child(side);
    PaintNode(bl, false, x, {y, z});
    Relink(side, tree, root, tree.red, false, {x.Paint(false), y, z});
    Fold(side, y, shape.cell, false, z);
    Fold(side, x.Paint(false), near.cell, shape.red, Join(side, y, shape.cell, false, z));
  }

  /** The red-sibling half of the deletion fix; it always restores the black height. */
  method RepairRedSibling<K>(side: Side, tree: Node<K>, ghost shape: Tree<K>) returns (root: Node<K>)
    requires Represents(tree, shape) && Distinct(shape) && Deficient(side, shape)
    requires shape.Child(side).IsRed()
    modifies NodeSet(shape)`left, NodeSet(shape)`right, NodeSet(shape)`red
    ensures Represents(root, FixRedSibling(side, shape))
  {
    root := tree;
    var far := side.Other();
    ghost var near := shape.Child(side);
    RedSiblingChildren(side, shape);
    Unfold(side, shape);
    Unfold(side, near);
    Unfold(side, near.Child(far));
    var b := tree.Child(side);
    var c := b.Child(far);
    if c == null {
      assert false;
    } else {
      assert !c.red;
      var cl, cr := c.Child(side), c.Child(far);
      if !IsRed(cl) && !IsRed(cr) {
        root := RotateAndRedden(side, tree, shape);
      } else if IsRed(cr) {
        root := RotateThrice(side, tree, shape);
      } else {
        assert IsRed(cl);
        root := RotateTwiceAndBlacken(side, tree, shape);
      }
    }
  }

  /** A single rotation around the red sibling; its inner black child turns red. */
  method RotateAndRedden<K>(side: Side, tree: Node<K>, ghost shape: Tree<K>) returns (root: Node<K>)
    requires Represents(tree, shape) && Distinct(shape) && shape.Child(side).Bin?
    requires shape.Child(side).Child(side.Other()).Bin?
    modifies NodeSet(shape)`left, NodeSet(shape)`right, NodeSet(shape)`red
    ensures var near, far := shape.Child(side), side.Other();
            Represents(root, Join(side, near.Child(side), near.cell, false,
                                  Join(side, near.Child(far).Paint(true), shape.cell, shape.red, shape.Child(far))))
  {
    ghost var near, z := shape.Child(side), shape.Child(side.Other());
    ghost var x, y := near.Child(side), near.Child(side.Other());
    Open(side, shape);
    Separate(side, near);
    Separate(side, shape);
    Unfold(side, shape);
    root := tree.Child(side);
    var c := root.Child(side.Other());
    PaintNode(c, true, y, {x, z});
    Relink(side, tree, root, false, tree.red, {x, y.Paint(true), z});
    Fold(side, y.Paint(true), shape.cell, shape.red, z);
    Fold(side, x, near.cell, false, Join(side, y.Paint(true), shape.cell, shape.red, z));
  }

  /** A double rotation that keeps the colors of the rotated nodes and blackens the inner child's near child. */
  method RotateTwiceAndBlacken<K>(side: Side, tree: Node<K>, ghost shape: Tree<K>) returns (root: Node<K>)
    requires Represents(tree, shape) && Distinct(shape) && shape.Child(side).Bin?
    requires shape.Child(side).red && shape.Child(side).Child(side.Other()).Bin?
    requires shape.Child(side).Child(side.Other()).Child(side).Bin?
    modifies NodeSet(shape)`left, NodeSet(shape)`right, NodeSet(shape)`red
    ensures var near, far := shape.Child(side), side.Other();
            var mid := near.Child(far);
            Represents(root, Join(side,
                                  Join(side, near.Child(side), near.cell, true, mid.Child(side).Paint(false)),
                                  mid.cell, mid.red,
                                  Join(side, mid.Child(far), shape.cell, shape.red, shape.Child(far))))
  {
    var far := side.Other();
    ghost var near, z := shape.Child(side), shape.Child(far);
    ghost var x, mid := near.Child(side), near.Child(far);
    ghost var m, n := mid.Child(side), mid.Child(far);
    OpenTwice(side, shape);
    Unfold(side, shape);
    Unfold(side, near);
    Unfold(side, mid);
    Separate(side, shape);
    Separate(side, near);
    Separate(side, mid);
    var b := tree.Child(side);
    root := b.Child(far);
    var cl := root.Child(side);
    PaintNode(cl, false, m, {x, n, z});
    RelinkTwice(side, tree, b, root, b.red, root.red, tree.red, {x, m.Paint(false), n, z});
    Fold(side, x, near.cell, true, m.Paint(false));
    Fold(side, n, shape.cell, shape.red, z);
    Fold(side, Join(side, x, near.cell, true, m.Paint(false)), mid.cell, mid.red,
         Join(side, n, shape.cell, shape.red, z));
  }

  /** `&t->left = r` after a recursive call: the node hangs `sub` in place of its `side` child. */
  method Hang<K>(side: Side, t: Node<K>, r: Node?<K>, ghost shape: Tree<K>, ghost sub: Tree<K>)
    requires shape.Bin? && t == shape.cell.node && t.key == shape.cell.key && t.red == shape.red
    requires t.Child(side.Other()) == Root(shape.Child(side.Other())) && Linked(shape.Child(side.Other()))
    requires Represents(r, sub)
    requires t !in NodeSet(sub) && t !in NodeSet(shape.Child(side.Other()))
    modifies t`left, t`right
    ensures Represents(t, Join(side, sub, shape.cell, shape.red, shape.Child(side.Other())))
  {
    SetChild(t, side, r, {sub, shape.Child(side.Other())});
    Fold(side, sub, shape.cell, shape.red, shape.Child(side.Other()));
  }

  ghost predicate Fresh<K>(e: Cell<K>, shape: Tree<K>) {
    forall c :: c in Inorder(shape) ==> c.node.addr != e.node.addr
  }

  lemma FreshNode<K>(e: Cell<K>, shape: Tree<K>)
    requires Fresh(e, shape)
    ensures e.node !in NodeSet(shape)
  {
    NodeSetIsInorder(shape);
  }

  lemma ChildOrder<K>(side: Side, cmp: Comparator<K>, shape: Tree<K>, e: Cell<K>)
    requires shape.Bin? && Sorted(cmp, Inorder(shape)) && Fresh(e, shape)
    ensures Sorted(cmp, Inorder(shape.Child(side))) && Fresh(e, shape.Child(side))
  {
    SortedAround(cmp, Inorder(shape.left), shape.cell, Inorder(shape.right));
  }

  /** What adding on one side leaves for the levels above. */
  lemma AddBelow<K>(side: Side, shape: Tree<K>, sub: Tree<K>, n: Node<K>)
    requires Distinct(shape) && shape.Bin? && n !in NodeSet(shape)
    requires Distinct(sub) && NodeSet(sub) == NodeSet(shape.Child(side)) + {n}
    ensures var whole := Join(side, sub, shape.cell, shape.red, shape.Child(side.Other()));
            && sub.Bin? && shape.cell.node !in NodeSet(sub) && Distinct(whole)
            && NodeSet(whole) == NodeSet(shape) + {n}
  {
    assert n in NodeSet(sub);
  }

  method AddRecursive<K(!new)>(cmp: Comparator<K>, tree: Node?<K>, elem: Node<K>, ghost shape: Tree<K>)
    returns (root: Node<K>)
    requires IsComparator(cmp) && Represents(tree, shape) && Distinct(shape) && Sorted(cmp, Inorder(shape))
    requires Fresh(Cell(elem, elem.key), shape) && elem.left == null && elem.right == null
    modifies (NodeSet(shape) + {elem})`left, (NodeSet(shape) + {elem})`right, (NodeSet(shape) + {elem})`red
    ensures Represents(root, AddRec(cmp, shape, Cell(elem, elem.key)))
    decreases shape, 1
  {
    if tree == null {
      elem.red := true;
      root := elem;
    } else {
      Unfold(Left, shape);
      var c := cmp(Entry(elem.key, elem.addr), Entry(tree.key, tree.addr));
      if c < 0 || (c == 0 && elem.addr < tree.addr) {
        root := AddOnSide(Left, cmp, tree, elem, shape);
      } else {
        root := AddOnSide(Right, cmp, tree, elem, shape);
      }
    }
  }

  /** The body shared by the two branches of the recursion. */
  method AddOnSide<K(!new)>(side: Side, cmp: Comparator<K>, tree: Node<K>, elem: Node<K>, ghost shape: Tree<K>)
    returns (root: Node<K>)
    requires IsComparator(cmp) && Represents(tree, shape) && Distinct(shape) && Sorted(cmp, Inorder(shape))
    requires Fresh(Cell(elem, elem.key), shape) && elem.left == null && elem.right == null
    modifies (NodeSet(shape) + {elem})`left, (NodeSet(shape) + {elem})`right, (NodeSet(shape) + {elem})`red
    ensures var sub := AddRec(cmp, shape.Child(side), Cell(elem, elem.key));
            var whole := Join(side, sub, shape.cell, shape.red, shape.Child(side.Other()));
            && sub.Bin? && Distinct(whole) && NodeSet(whole) == NodeSet(shape) + {elem}
            && Represents(root, if shape.red then whole else FixInsertion(side, whole))
    decreases shape, 0
  {
    ghost var e := Cell(elem, elem.key);
    ghost var part, other := shape.Child(side), shape.Child(side.Other());
    ghost var sub := AddRec(cmp, part, e);
    Unfold(side, shape);
    Separate(side, shape);
    ChildOrder(side, cmp, shape, e);
    FreshNode(e, shape);
    AddRecNodes(cmp, part, e);
    AddBelow(side, shape, sub, elem);
    assert allocated(NodeSet(other));
    var r := AddRecursive(cmp, tree.Child(side), elem, part);
    Hang(side, tree, r, shape, sub);
    root := tree;
    if !tree.red {
      root := FixInsertionDiscrepancy(side, tree, Join(side, sub, shape.cell, shape.red, other));
    }
  }

  // ---------- deletion ----------

  lemma LinkedKeys<K>(shape: Tree<K>, c: Cell<K>)
    requires Linked(shape) && c in Inorder(shape)
    ensures c.node.key == c.key && c.node in NodeSet(shape)
  {
    if c != shape.cell {
      if c in Inorder(shape.left) {
        LinkedKeys(shape.left, c);
      } else {
        LinkedKeys(shape.right, c);
      }
    }
  }

  /** What deleting on one side leaves for the levels above. */
  lemma DeleteBelow<K>(side: Side, shape: Tree<K>, c: Cell<K>, sub: Tree<K>)
    requires Distinct(shape) && shape.Bin?
    requires c.node !in NodeSet(sub) && c.node !in NodeSet(shape.Child(side.Other()))
    requires Distinct(sub) && NodeSet(sub) <= NodeSet(shape.Child(side))
    ensures var whole := Join(side, sub, c, shape.red, shape.Child(side.Other()));
            && Distinct(whole) && NodeSet(whole) <= NodeSet(shape) + {c.node}
  {
  }

  method DeleteRightmostLeaf<K>(tree: Node<K>, ghost shape: Tree<K>)
    returns (root: Node?<K>, leaf: Node<K>, decreased: bool)
    requires Represents(tree, shape) && Distinct(shape) && RedBlack(shape)
    modifies NodeSet(shape)`left, NodeSet(shape)`right, NodeSet(shape)`red
    ensures var (u, c, d) := DeleteRightmost(shape);
            Represents(root, u) && leaf == c.node && leaf.key == c.key && decreased == d
    decreases shape
  {
    decreased := false;
    Unfold(Right, shape);
    Separate(Right, shape);
    if tree.right == null {
      leaf := tree;
      if tree.left != null {
        decreased := !tree.red && !tree.left.red;
        PaintNode(tree.left, false, shape.left, {});
        root := tree.left;
      } else {
        root := null;
        decreased := !tree.red;
      }
    } else {
      ghost var sub := DeleteRightmost(shape.right).0;
      DeleteRightmostNodes(shape.right);
      DeleteBelow(Right, shape, shape.cell, sub);
      DeleteRightmostBalance(shape.right);
      SettleBalance(Left, shape, shape.cell, sub, DeleteRightmost(shape.right).2);
      assert allocated(NodeSet(shape.left));
      var r, last, below := DeleteRightmostLeaf(tree.right, shape.right);
      leaf := last;
      Hang(Right, tree, r, shape, sub);
      root := tree;
      if below {
        root, decreased := FixDeletionDiscrepancy(Left, tree, Bin(shape.left, shape.cell, shape.red, sub));
      }
    }
  }

  method DeleteRecursive<K(!new)>(cmp: Comparator<K>, tree: Node?<K>, elem: Node<K>, ghost shape: Tree<K>)
    returns (root: Node?<K>, decreased: bool)
    requires IsComparator(cmp) && Represents(tree, shape) && Distinct(shape) && RedBlack(shape)
    requires Sorted(cmp, Inorder(shape)) && Cell(elem, elem.key) in Inorder(shape)
    modifies NodeSet(shape)`left, NodeSet(shape)`right, NodeSet(shape)`red
    ensures var (u, d) := DeleteRec(cmp, shape, Cell(elem, elem.key));
            Represents(root, u) && decreased == d
    decreases shape, 1
  {
    ghost var e := Cell(elem, elem.key);
    if tree == null {
      root, decreased := null, false;
      assert false;
    } else {
      Unfold(Left, shape);
      SortedAround(cmp, Inorder(shape.left), shape.cell, Inorder(shape.right));
      RemoveAround(cmp, Inorder(shape.left), shape.cell, Inorder(shape.right), e);
      LessTotal(cmp, e.AsEntry(), shape.cell.AsEntry());
      var c := cmp(Entry(elem.key, elem.addr), Entry(tree.key, tree.addr));
      if c < 0 || (c == 0 && elem.addr < tree.addr) {
        root, decreased := DeleteOnSide(Left, cmp, tree, elem, shape);
      } else if c > 0 || (c == 0 && elem.addr > tree.addr) {
        root, decreased := DeleteOnSide(Right, cmp, tree, elem, shape);
      } else {
        assert elem == tree;
        root, decreased := DeleteFound(tree, shape);
      }
    }
  }

  /** The body shared by the two recursive branches. */
  method DeleteOnSide<K(!new)>(side: Side, cmp: Comparator<K>, tree: Node<K>, elem: Node<K>, ghost shape: Tree<K>)
    returns (root: Node<K>, decreased: bool)
    requires IsComparator(cmp) && Represents(tree, shape) && Distinct(shape) && RedBlack(shape)
    requires Sorted(cmp, Inorder(shape.Child(side))) && Cell(elem, elem.key) in Inorder(shape.Child(side))
    modifies NodeSet(shape)`left, NodeSet(shape)`right, NodeSet(shape)`red
    ensures var (sub, d) := DeleteRec(cmp, shape.Child(side), Cell(elem, elem.key));
            var whole := Join(side, sub, shape.cell, shape.red, shape.Child(side.Other()));
            var (u, e) := Settle(side.Other(), whole, d);
            Represents(root, u) && decreased == e
    decreases shape, 0
  {
    ghost var part, other := shape.Child(side), shape.Child(side.Other());
    ghost var e := Cell(elem, elem.key);
    ghost var (sub, d) := DeleteRec(cmp, part, e);
    Unfold(side, shape);
    Separate(side, shape);
    ChildBalance(side, shape);
    DeleteRecNodes(cmp, part, e);
    DeleteBelow(side, shape, shape.cell, sub);
    DeleteRecBalance(cmp, part, e);
    SettleBalance(side.Other(), shape, shape.cell, sub, d);
    assert allocated(NodeSet(other));
    var r, below := DeleteRecursive(cmp, tree.Child(side), elem, part);
    Hang(side, tree, r, shape, sub);
    root, decreased := tree, false;
    if below {
      root, decreased := FixDeletionDiscrepancy(side.Other(), tree, Join(side, sub, shape.cell, shape.red, other));
    }
  }

  /** The element to delete is the root of this subtree. */
  method DeleteFound<K>(tree: Node<K>, ghost shape: Tree<K>) returns (root: Node?<K>, decreased: bool)
    requires Represents(tree, shape) && Distinct(shape) && RedBlack(shape)
    modifies NodeSet(shape)`left, NodeSet(shape)`right, NodeSet(shape)`red
    ensures var (u, d) := DeleteRoot(shape);
            Represents(root, u) && decreased == d
  {
    decreased := false;
    Unfold(Left, shape);
    Separate(Left, shape);
    if tree.left == null {
      if tree.right == null {
        root := null;
        decreased := !tree.red;
      } else {
        decreased := !tree.red && !tree.right.red;
        PaintNode(tree.right, false, shape.right, {});
        root := tree.right;
      }
    } else {
      ghost var (sub, last, d) := DeleteRightmost(shape.left);
      DeleteRightmostNodes(shape.left);
      DeleteRightmostBalance(shape.left);
      DeleteBelow(Left, shape, last, sub);
      SettleBalance(Right, shape, last, sub, d);
      assert allocated(NodeSet(shape.right));
      var l, theLeaf, below := DeleteRightmostLeaf(tree.left, shape.left);
      TakePlace(theLeaf, tree, l, last, shape.red, sub, shape.right);
      root := theLeaf;
      if below {
        root, decreased := FixDeletionDiscrepancy(Right, theLeaf, Bin(sub, last, shape.red, shape.right));
      }
    }
  }

  /** `leaf` takes over the links and the color of `t`, whose left subtree is now `l`. */
  method TakePlace<K>(leaf: Node<K>, t: Node<K>, l: Node?<K>, ghost c: Cell<K>, ghost red: bool,
                      ghost sub: Tree<K>, ghost other: Tree<K>)
    requires leaf == c.node && leaf.key == c.key && t.red == red && t != leaf
    requires Represents(l, sub) && Represents(t.right, other)
    requires Apart(leaf, {sub, other}) && Apart(t, {sub, other})
    modifies {leaf, t}`left, {leaf, t}`right, leaf`red
    ensures Represents(leaf, Bin(sub, c, red, other))
  {
    SetChild(t, Left, l, {sub, other});
    SetChild(leaf, Left, t.left, {sub, other});
    SetChild(leaf, Right, t.right, {sub, other});
    SetRed(leaf, t.red, {sub, other});
    Fold(Left, sub, c, red, other);
  }

  // ---------- whole operations ----------

  /** The pointer `tree` is a tree as the library keeps it between calls. */
  ghost predicate Holds<K>(cmp: Comparator<K>, tree: Node?<K>, shape: Tree<K>)
    reads NodeSet(shape)
  {
    Represents(tree, shape) && Valid(cmp, shape)
  }

  method Add<K(!new)>(cmp: Comparator<K>, tree: Node?<K>, elem: Node<K>, ghost shape: Tree<K>)
    returns (root: Node<K>, ghost shape': Tree<K>)
    requires IsComparator(cmp) && Holds(cmp, tree, shape) && Fresh(Cell(elem, elem.key), shape)
    modifies (NodeSet(shape) + {elem})`left, (NodeSet(shape) + {elem})`right, (NodeSet(shape) + {elem})`red
    ensures Holds(cmp, root, shape') && shape' == Trees.Add(cmp, shape, Cell(elem, elem.key))
    ensures Inorder(shape') == Insert(cmp, Inorder(shape), Cell(elem, elem.key))
    ensures NodeSet(shape') == NodeSet(shape) + {elem}
  {
    ghost var e := Cell(elem, elem.key);
    ghost var grown := AddRec(cmp, shape, e);
    FreshNode(e, shape);
    AddCorrect(cmp, shape, e);
    AddRecNodes(cmp, shape, e);
    assert allocated(NodeSet(shape));
    elem.left, elem.right := null, null;
    root := AddRecursive(cmp, tree, elem, shape);
    PaintNode(root, false, grown, {});
    shape' := Trees.Add(cmp, shape, e);
  }

  method Delete<K(!new)>(cmp: Comparator<K>, tree: Node?<K>, elem: Node<K>, ghost shape: Tree<K>)
    returns (root: Node?<K>, ghost shape': Tree<K>)
    requires IsComparator(cmp) && Holds(cmp, tree, shape) && Cell(elem, elem.key) in Inorder(shape)
    modifies NodeSet(shape)`left, NodeSet(shape)`right, NodeSet(shape)`red
    ensures Holds(cmp, root, shape') && shape' == Trees.Delete(cmp, shape, Cell(elem, elem.key))
    ensures Inorder(shape') == Remove(Inorder(shape), Cell(elem, elem.key))
    ensures NodeSet(shape') == NodeSet(shape) - {elem}
  {
    ghost var e := Cell(elem, elem.key);
    ghost var shrunk := DeleteRec(cmp, shape, e).0;
    DeleteCorrect(cmp, shape, e);
    DeleteRecNodes(cmp, shape, e);
    var decreased;
    root, decreased := DeleteRecursive(cmp, tree, elem, shape);
    if root != null {
      PaintNode(root, false, shrunk, {});
    }
    shape' := Trees.Delete(cmp, shape, e);
  }

  /** The topmost element equal to `elem`, or null if there is none. */
  method FindMember<K>(sub: Comparator<K>, t: Node?<K>, elem: Entry<K>, ghost shape: Tree<K>) returns (s: Node?<K>)
    requires Represents(t, shape)
    ensures Represents(s, Focus(sub, elem, shape))
    ensures Follows(sub, elem, Inorder(shape)) ==>
              && (s != null ==> Cell(s, s.key) in Inorder(shape) && sub(elem, Entry(s.key, s.addr)) == 0)
              && (s == null ==> forall c :: c in Inorder(shape) ==> sub(elem, c.AsEntry()) != 0)
  {
    s := t;
    ghost var rest := shape;
    while s != null
      invariant Represents(s, rest) && Focus(sub, elem, rest) == Focus(sub, elem, shape)
      decreases rest
    {
      var c := sub(elem, Entry(s.key, s.addr));
      if c < 0 {
        s := s.left;
        rest := rest.left;
      } else if c > 0 {
        s := s.right;
        rest := rest.right;
      } else {
        break;
      }
    }
    if Follows(sub, elem, Inorder(shape)) {
      FocusDecides(sub, elem, shape);
    }
  }

  /** Whether `elem` itself is linked into the tree. */
  method IsMember<K(!new)>(cmp: Comparator<K>, t: Node?<K>, elem: Node<K>, ghost shape: Tree<K>) returns (found: bool)
    requires IsComparator(cmp) && Holds(cmp, t, shape)
    requires forall n :: n in NodeSet(shape) && n.addr == elem.addr ==> n == elem
    ensures found <==> elem in NodeSet(shape)
  {
    var s := t;
    ghost var rest := shape;
    while s != null
      invariant Represents(s, rest) && Sorted(cmp, Inorder(rest)) && NodeSet(rest) <= NodeSet(shape)
      invariant elem in NodeSet(shape) <==> elem in NodeSet(rest)
      decreases rest
    {
      MemberSide(cmp, rest, elem);
      var c := cmp(Entry(elem.key, elem.addr), Entry(s.key, s.addr));
      if c < 0 || (c == 0 && elem.addr < s.addr) {
        s := s.left;
        rest := rest.left;
      } else if c > 0 || (c == 0 && elem.addr > s.addr) {
        s := s.right;
        rest := rest.right;
      } else {
        assert s == elem;
        return true;
      }
    }
    return false;
  }

  /** One step of `IsMember`. */
  lemma MemberSide<K(!new)>(cmp: Comparator<K>, shape: Tree<K>, elem: Node<K>)
    requires IsComparator(cmp) && shape.Bin? && Linked(shape) && Sorted(cmp, Inorder(shape))
    ensures Sorted(cmp, Inorder(shape.left)) && Sorted(cmp, Inorder(shape.right))
    ensures var e := Entry(elem.key, elem.addr);
            var r := shape.cell.AsEntry();
            && (elem in NodeSet(shape.left) ==> Less(cmp, e, r)) && (elem in NodeSet(shape.right) ==> Less(cmp, r, e))
            && !(Less(cmp, e, r) && Less(cmp, r, e)) && !Less(cmp, r, r)
            && (Less(cmp, r, e) <==> cmp(e, r) > 0 || (cmp(e, r) == 0 && e.addr > r.addr))
  {
    var l, r := Inorder(shape.left), Inorder(shape.right);
    SortedAround(cmp, l, shape.cell, r);
    LessTotal(cmp, Entry(elem.key, elem.addr), shape.cell.AsEntry());
    LessTotal(cmp, shape.cell.AsEntry(), shape.cell.AsEntry());
    NodeSetIsInorder(shape.left);
    NodeSetIsInorder(shape.right);
    if elem in NodeSet(shape.left) {
      var c :| c in l && c.node == elem;
      LinkedKeys(shape.left, c);
    }
    if elem in NodeSet(shape.right) {
      var c :| c in r && c.node == elem;
      LinkedKeys(shape.right, c);
    }
  }

  method DeleteIfMember<K(!new)>(cmp: Comparator<K>, tree: Node?<K>, elem: Entry<K>, ghost shape: Tree<K>)
    returns (root: Node?<K>, memb: Node?<K>, ghost shape': Tree<K>)
    requires IsComparator(cmp) && Holds(cmp, tree, shape)
    modifies NodeSet(shape)`left, NodeSet(shape)`right, NodeSet(shape)`red
    ensures Holds(cmp, root, shape') && shape' == Dictionary.DeleteIfMember(cmp, shape, elem)
    ensures memb == Root(Focus(cmp, elem, shape))
    ensures memb != null ==>
              && Cell(memb, memb.key) in Inorder(shape) && cmp(elem, Entry(memb.key, memb.addr)) == 0
              && Inorder(shape') == Remove(Inorder(shape), Cell(memb, memb.key))
              && NodeSet(shape') == NodeSet(shape) - {memb}
    ensures memb == null ==>
              root == tree && shape' == shape && forall c :: c in Inorder(shape) ==> cmp(elem, c.AsEntry()) != 0
  {
    SortedFollows(cmp, elem, Inorder(shape));
    assert allocated(NodeSet(shape));
    memb := FindMember(cmp, tree, elem, shape);
    root, shape' := tree, shape;
    if memb != null {
      root, shape' := Delete(cmp, tree, memb, shape);
    }
  }

  method AddIfNotMember<K(!new)>(cmp: Comparator<K>, tree: Node?<K>, elem: Node<K>, ghost shape: Tree<K>)
    returns (root: Node<K>, memb: Node?<K>, ghost shape': Tree<K>)
    requires IsComparator(cmp) && Holds(cmp, tree, shape)
    requires forall c :: c in Inorder(shape) && c.node.addr == elem.addr ==> c.node == elem
    modifies (NodeSet(shape) + {elem})`left, (NodeSet(shape) + {elem})`right, (NodeSet(shape) + {elem})`red
    ensures Holds(cmp, root, shape') && shape' == Dictionary.AddIfNotMember(cmp, shape, Cell(elem, elem.key))
    ensures memb == Root(Focus(cmp, Entry(elem.key, elem.addr), shape))
    ensures memb != null ==> root == tree && shape' == shape
    ensures memb == null ==> Inorder(shape') == Insert(cmp, Inorder(shape), Cell(elem, elem.key))
  {
    var e := Entry(elem.key, elem.addr);
    SortedFollows(cmp, e, Inorder(shape));
    assert allocated(NodeSet(shape));
    memb := FindMember(cmp, tree, e, shape);
    if memb == null {
      forall c | c in Inorder(shape) ensures c.node.addr != elem.addr {
        LinkedKeys(shape, c);
        LessTotal(cmp, e, e);
      }
      root, shape' := Add(cmp, tree, elem, shape);
    } else {
      root, shape' := tree, shape;
    }
  }
}
