/** The shape of a red-black tree as a value, and what sglib's rebalancing does to it. */
module Trees {
  import opened Orders
  import opened Nodes

  datatype Tree<K> = Leaf | Bin(left: Tree<K>, cell: Cell<K>, red: bool, right: Tree<K>) {
    ghost function Child(side: Side): Tree<K>
      requires Bin?
    {
      if side.Left? then left else right
    }

    ghost predicate IsRed() { Bin? && red }

    ghost function Paint(c: bool): Tree<K> {
      if Leaf? then Leaf else Bin(left, cell, c, right)
    }
  }

  /** A node whose `side` child is `near` and whose other child is `far`. */
  ghost function Join<K>(side: Side, near: Tree<K>, c: Cell<K>, red: bool, far: Tree<K>): Tree<K> {
    if side.Left? then Bin(near, c, red, far) else Bin(far, c, red, near)
  }

  // ---------- walks ----------

  ghost function Inorder<K>(t: Tree<K>): seq<Cell<K>> {
    match t
    case Leaf => []
    case Bin(l, c, _, r) => Inorder(l) + [c] + Inorder(r)
  }

  ghost function NodeSet<K>(t: Tree<K>): set<Node<K>> {
    match t
    case Leaf => {}
    case Bin(l, c, _, r) => NodeSet(l) + {c.node} + NodeSet(r)
  }

  ghost predicate Distinct<K>(t: Tree<K>) {
    match t
    case Leaf => true
    case Bin(l, c, _, r) =>
      && c.node !in NodeSet(l) && c.node !in NodeSet(r) && NodeSet(l) !! NodeSet(r)
      && Distinct(l) && Distinct(r)
  }

  ghost function Size<K>(t: Tree<K>): nat {
    match t
    case Leaf => 0
    case Bin(l, _, _, r) => Size(l) + 1 + Size(r)
  }

  // ---------- red-black invariants ----------

  ghost function BlackHeight<K>(t: Tree<K>): nat {
    match t
    case Leaf => 0
    case Bin(l, _, red, _) => BlackHeight(l) + (if red then 0 else 1)
  }

  ghost predicate Balanced<K>(t: Tree<K>) {
    match t
    case Leaf => true
    case Bin(l, _, _, r) => BlackHeight(l) == BlackHeight(r) && Balanced(l) && Balanced(r)
  }

  ghost predicate NoRedRed<K>(t: Tree<K>) {
    match t
    case Leaf => true
    case Bin(l, _, red, r) => (red ==> !l.IsRed() && !r.IsRed()) && NoRedRed(l) && NoRedRed(r)
  }

  ghost predicate RedBlack<K>(t: Tree<K>) { Balanced(t) && NoRedRed(t) }

  /** The whole invariant of a tree between two calls. */
  ghost predicate Valid<K>(cmp: Comparator<K>, t: Tree<K>) {
    RedBlack(t) && !t.IsRed() && Sorted(cmp, Inorder(t)) && Distinct(t)
  }

  // ---------- insertion ----------

  ghost function FixInsertion<K>(side: Side, t: Tree<K>): Tree<K>
    requires t.Bin?
  {
    var tl, tr := t.Child(side), t.Child(side.Other());
    if tr.IsRed() then
      if tl.IsRed() && (tl.left.IsRed() || tl.right.IsRed())
      then Join(side, tl.Paint(false), t.cell, true, tr.Paint(false))
      else t
    else if tl.IsRed() && tl.Child(side).IsRed() then
      Join(side, tl.Child(side), tl.cell, false, Join(side, tl.Child(side.Other()), t.cell, true, tr))
    else if tl.IsRed() && tl.Child(side.Other()).IsRed() then
      var c := tl.Child(side.Other());
      Join(side,
           Join(side, tl.Child(side), tl.cell, true, c.Child(side)),
           c.cell, false,
           Join(side, c.Child(side.Other()), t.cell, true, tr))
    else t
  }

  ghost function AddRec<K>(cmp: Comparator<K>, t: Tree<K>, e: Cell<K>): Tree<K> {
    match t
    case Leaf => Bin(Leaf, e, true, Leaf)
    case Bin(l, c, red, r) =>
      if Less(cmp, e.AsEntry(), c.AsEntry()) then
        var u := Bin(AddRec(cmp, l, e), c, red, r);
        if red then u else FixInsertion(Left, u)
      else
        var u := Bin(l, c, red, AddRec(cmp, r, e));
        if red then u else FixInsertion(Right, u)
  }

  ghost function Add<K>(cmp: Comparator<K>, t: Tree<K>, e: Cell<K>): Tree<K> {
    AddRec(cmp, t, e).Paint(false)
  }

  // ---------- deletion ----------

  /** `side` holds the sibling, its other side the subtree that lost a black level.
      The flag says whether the whole tree lost one. */
  ghost function FixDeletion<K>(side: Side, t: Tree<K>): (Tree<K>, bool)
    requires t.Bin?
  {
    var b, ar := t.Child(side), t.Child(side.Other());
    if b.Leaf? then (t.Paint(false), false)
    else if b.red then (FixRedSibling(side, t), false)
    else
      var bl, br := b.Child(side), b.Child(side.Other());
      if !bl.IsRed() && !br.IsRed() then
        (Join(side, b.Paint(true), t.cell, false, ar), !t.red)
      else if bl.IsRed() && !br.IsRed() then
        (Join(side, bl.Paint(false), b.cell, t.red, Join(side, br, t.cell, false, ar)), false)
      else
        (Join(side,
              Join(side, bl, b.cell, false, br.Child(side)),
              br.cell, t.red,
              Join(side, br.Child(side.Other()), t.cell, false, ar)), false)
  }

  ghost function FixRedSibling<K>(side: Side, t: Tree<K>): Tree<K>
    requires t.Bin? && t.Child(side).Bin?
  {
    var b, ar := t.Child(side), t.Child(side.Other());
    var bl, c := b.Child(side), b.Child(side.Other());
    if c.Leaf? then Join(side, bl, b.cell, false, Join(side, c, t.cell, t.red, ar))
    else
      var cl, cr := c.Child(side), c.Child(side.Other());
      if !cl.IsRed() && !cr.IsRed() then
        Join(side, bl, b.cell, false, Join(side, c.Paint(true), t.cell, t.red, ar))
      else if cr.IsRed() then
        Join(side,
             Join(side, bl, b.cell, true, Join(side, cl, c.cell, c.red, cr.Child(side))),
             cr.cell, false,
             Join(side, cr.Child(side.Other()), t.cell, t.red, ar))
      else
        Join(side,
             Join(side, bl, b.cell, true, cl.Paint(false)),
             c.cell, c.red,
             Join(side, cr, t.cell, t.red, ar))
  }

  /** The tree without its rightmost node, that node, and whether the black height dropped. */
  ghost function DeleteRightmost<K>(t: Tree<K>): (Tree<K>, Cell<K>, bool)
    requires t.Bin?
  {
    if t.right.Leaf? then
      if t.left.Bin? then (t.left.Paint(false), t.cell, !t.red && !t.left.red)
      else (Leaf, t.cell, !t.red)
    else
      var (r, leaf, decreased) := DeleteRightmost(t.right);
      var u := Bin(t.left, t.cell, t.red, r);
      if decreased then (FixDeletion(Left, u).0, leaf, FixDeletion(Left, u).1) else (u, leaf, false)
  }

  ghost function DeleteRec<K>(cmp: Comparator<K>, t: Tree<K>, e: Cell<K>): (Tree<K>, bool) {
    match t
    case Leaf => (Leaf, false)
    case Bin(l, c, red, r) =>
      if Less(cmp, e.AsEntry(), c.AsEntry()) then
        var (u, decreased) := DeleteRec(cmp, l, e);
        Settle(Right, Bin(u, c, red, r), decreased)
      else if Less(cmp, c.AsEntry(), e.AsEntry()) then
        var (u, decreased) := DeleteRec(cmp, r, e);
        Settle(Left, Bin(l, c, red, u), decreased)
      else DeleteRoot(t)
  }

  ghost function DeleteRoot<K>(t: Tree<K>): (Tree<K>, bool)
    requires t.Bin?
  {
    if t.left.Leaf? then
      if t.right.Leaf? then (Leaf, !t.red)
      else (t.right.Paint(false), !t.red && !t.right.red)
    else
      var (l, leaf, decreased) := DeleteRightmost(t.left);
      Settle(Right, Bin(l, leaf, t.red, t.right), decreased)
  }

  ghost function Settle<K>(side: Side, t: Tree<K>, decreased: bool): (Tree<K>, bool)
    requires t.Bin?
  {
    if decreased then FixDeletion(side, t) else (t, false)
  }

  ghost function Delete<K>(cmp: Comparator<K>, t: Tree<K>, e: Cell<K>): Tree<K> {
    DeleteRec(cmp, t, e).0.Paint(false)
  }

  // ---------- nodes and order are what the in-order sequence says ----------

  lemma {:induction false} NodeSetIsInorder<K>(t: Tree<K>)
    ensures NodeSet(t) == NodesOf(Inorder(t))
    ensures Distinct(t) <==> DistinctNodes(Inorder(t))
    ensures Size(t) == |Inorder(t)|
  {
    if t.Bin? {
      NodeSetIsInorder(t.left);
      NodeSetIsInorder(t.right);
      ConcatNodes(Inorder(t.left), t.cell, Inorder(t.right));
    }
  }

  // ---------- rebalancing keeps the order ----------

  /** The in-order sequence around `m`, seen from `side`. */
  ghost function Order<T>(side: Side, near: seq<T>, m: T, far: seq<T>): seq<T> {
    if side.Left? then near + [m] + far else far + [m] + near
  }

  lemma InorderJoin<K>(side: Side, near: Tree<K>, c: Cell<K>, red: bool, far: Tree<K>)
    ensures Inorder(Join(side, near, c, red, far)) == Order(side, Inorder(near), c, Inorder(far))
  {
  }

  lemma Rotation<T>(side: Side, X: seq<T>, b: T, Y: seq<T>, a: T, Z: seq<T>)
    ensures Order(side, Order(side, X, b, Y), a, Z) == Order(side, X, b, Order(side, Y, a, Z))
  {
    assert (X + [b] + Y) + [a] + Z == X + [b] + (Y + [a] + Z);
    assert Z + [a] + (Y + [b] + X) == (Z + [a] + Y) + [b] + X;
  }

  lemma DoubleRotation<T>(side: Side, X: seq<T>, b: T, M: seq<T>, c: T, N: seq<T>, a: T, Z: seq<T>)
    ensures Order(side, Order(side, X, b, Order(side, M, c, N)), a, Z) ==
            Order(side, Order(side, X, b, M), c, Order(side, N, a, Z))
  {
    Rotation(side, X, b, M, c, N);
    Rotation(side, Order(side, X, b, M), c, N, a, Z);
  }

  lemma FixInsertionInorder<K>(side: Side, t: Tree<K>)
    requires t.Bin?
    ensures Inorder(FixInsertion(side, t)) == Inorder(t)
  {
    var tl, tr := t.Child(side), t.Child(side.Other());
    if tl.Bin? && !tr.IsRed() {
      var x, c := tl.Child(side), tl.Child(side.Other());
      if x.IsRed() {
        Rotation(side, Inorder(x), tl.cell, Inorder(c), t.cell, Inorder(tr));
      } else if c.IsRed() {
        DoubleRotation(side, Inorder(x), tl.cell, Inorder(c.Child(side)), c.cell, Inorder(c.Child(side.Other())),
                       t.cell, Inorder(tr));
      }
    }
  }

  lemma FixDeletionInorder<K>(side: Side, t: Tree<K>)
    requires t.Bin?
    ensures Inorder(FixDeletion(side, t).0) == Inorder(t)
  {
    var b, ar := t.Child(side), t.Child(side.Other());
    if b.Bin? {
      if b.red {
        FixRedSiblingInorder(side, t);
      } else {
        var bl, br := b.Child(side), b.Child(side.Other());
        if bl.IsRed() && !br.IsRed() {
          Rotation(side, Inorder(bl), b.cell, Inorder(br), t.cell, Inorder(ar));
        } else if br.IsRed() {
          DoubleRotation(side, Inorder(bl), b.cell, Inorder(br.Child(side)), br.cell, Inorder(br.Child(side.Other())),
                         t.cell, Inorder(ar));
        }
      }
    }
  }

  lemma FixRedSiblingInorder<K>(side: Side, t: Tree<K>)
    requires t.Bin? && t.Child(side).IsRed()
    ensures Inorder(FixRedSibling(side, t)) == Inorder(t)
  {
    var b, ar := t.Child(side), t.Child(side.Other());
    var bl, c := b.Child(side), b.Child(side.Other());
    if c.Leaf? || (!c.left.IsRed() && !c.right.IsRed()) {
      assert Inorder(c.Paint(true)) == Inorder(c);
      Rotation(side, Inorder(bl), b.cell, Inorder(c), t.cell, Inorder(ar));
    } else {
      var cl, cr := c.Child(side), c.Child(side.Other());
      if cr.IsRed() {
        var dl, dr := Inorder(cr.Child(side)), Inorder(cr.Child(side.Other()));
        assert Inorder(c) == Order(side, Inorder(cl), c.cell, Order(side, dl, cr.cell, dr));
        InorderJoin(side, cl, c.cell, c.red, cr.Child(side));
        Rotation(side, Inorder(cl), c.cell, dl, cr.cell, dr);
        DoubleRotation(side, Inorder(bl), b.cell, Order(side, Inorder(cl), c.cell, dl), cr.cell, dr, t.cell,
                       Inorder(ar));
      } else {
        assert Inorder(cl.Paint(false)) == Inorder(cl);
        DoubleRotation(side, Inorder(bl), b.cell, Inorder(cl), c.cell, Inorder(cr), t.cell, Inorder(ar));
      }
    }
  }

  // ---------- insertion keeps the balance ----------

  lemma JoinBalance<K>(side: Side, near: Tree<K>, c: Cell<K>, red: bool, far: Tree<K>)
    ensures var t := Join(side, near, c, red, far);
            && (NoRedRed(t) <==> (red ==> !near.IsRed() && !far.IsRed()) && NoRedRed(near) && NoRedRed(far))
            && (Balanced(t) <==> BlackHeight(near) == BlackHeight(far) && Balanced(near) && Balanced(far))
            && (Balanced(t) ==> BlackHeight(t) == BlackHeight(near) + (if red then 0 else 1))
  {
  }

  lemma ChildBalance<K>(side: Side, t: Tree<K>)
    requires t.Bin?
    ensures t == Join(side, t.Child(side), t.cell, t.red, t.Child(side.Other()))
    ensures NoRedRed(t) ==> NoRedRed(t.Child(side)) && NoRedRed(t.Child(side.Other()))
    ensures NoRedRed(t) && t.red ==> !t.Child(side).IsRed() && !t.Child(side.Other()).IsRed()
    ensures Balanced(t) ==>
              && Balanced(t.Child(side)) && Balanced(t.Child(side.Other()))
              && BlackHeight(t.Child(side)) == BlackHeight(t.Child(side.Other()))
              && BlackHeight(t) == BlackHeight(t.Child(side)) + (if t.red then 0 else 1)
  {
  }

  /** Red-black except that a red root may have one red child. */
  ghost predicate NearlyRedBlack<K>(t: Tree<K>) {
    && Balanced(t)
    && (t.Bin? ==> NoRedRed(t.left) && NoRedRed(t.right) && !(t.red && t.left.IsRed() && t.right.IsRed()))
  }

  lemma FixInsertionBalance<K>(side: Side, t: Tree<K>)
    requires t.Bin? && !t.red && Balanced(t)
    requires NearlyRedBlack(t.Child(side)) && (!t.Child(side).IsRed() ==> NoRedRed(t.Child(side)))
    requires NoRedRed(t.Child(side.Other()))
    ensures RedBlack(FixInsertion(side, t)) && BlackHeight(FixInsertion(side, t)) == BlackHeight(t)
  {
    var tl, tr := t.Child(side), t.Child(side.Other());
    ChildBalance(side, t);
    if tl.IsRed() {
      ChildBalance(side, tl);
      var x, c := tl.Child(side), tl.Child(side.Other());
      if tr.IsRed() {
        JoinBalance(side, tl.Paint(false), t.cell, true, tr.Paint(false));
      } else if x.IsRed() {
        JoinBalance(side, c, t.cell, true, tr);
        JoinBalance(side, x, tl.cell, false, Join(side, c, t.cell, true, tr));
      } else if c.IsRed() {
        ChildBalance(side, c);
        var m, n := c.Child(side), c.Child(side.Other());
        JoinBalance(side, x, tl.cell, true, m);
        JoinBalance(side, n, t.cell, true, tr);
        JoinBalance(side, Join(side, x, tl.cell, true, m), c.cell, false, Join(side, n, t.cell, true, tr));
      }
    }
  }

  /** The recursion's contract: the black height never changes, and a red-red pair
      appears at most at a root that was red before. */
  lemma {:induction false} AddRecBalance<K>(cmp: Comparator<K>, t: Tree<K>, e: Cell<K>)
    requires RedBlack(t)
    ensures var u := AddRec(cmp, t, e);
            && NearlyRedBlack(u) && BlackHeight(u) == BlackHeight(t)
            && (t.IsRed() ==> u.IsRed())
            && (!t.IsRed() ==> NoRedRed(u))
  {
    if t.Bin? {
      if Less(cmp, e.AsEntry(), t.cell.AsEntry()) {
        AddRecBalance(cmp, t.left, e);
        if !t.red {
          FixInsertionBalance(Left, Bin(AddRec(cmp, t.left, e), t.cell, t.red, t.right));
        }
      } else {
        AddRecBalance(cmp, t.right, e);
        if !t.red {
          FixInsertionBalance(Right, Bin(t.left, t.cell, t.red, AddRec(cmp, t.right, e)));
        }
      }
    }
  }

  lemma {:induction false} AddRecInorder<K(!new)>(cmp: Comparator<K>, t: Tree<K>, e: Cell<K>)
    requires IsComparator(cmp) && Sorted(cmp, Inorder(t))
    requires forall c :: c in Inorder(t) ==> c.node.addr != e.node.addr
    ensures Inorder(AddRec(cmp, t, e)) == Insert(cmp, Inorder(t), e)
  {
    if t.Bin? {
      var l, r := Inorder(t.left), Inorder(t.right);
      SortedAround(cmp, l, t.cell, r);
      LessTotal(cmp, e.AsEntry(), t.cell.AsEntry());
      if Less(cmp, e.AsEntry(), t.cell.AsEntry()) {
        AddRecInorder(cmp, t.left, e);
        InsertBefore(cmp, l, t.cell, r, e);
        FixInsertionInorder(Left, Bin(AddRec(cmp, t.left, e), t.cell, t.red, t.right));
      } else {
        AddRecInorder(cmp, t.right, e);
        InsertAfter(cmp, l, t.cell, r, e);
        FixInsertionInorder(Right, Bin(t.left, t.cell, t.red, AddRec(cmp, t.right, e)));
      }
    }
  }

  lemma InsertAfter<K(!new)>(cmp: Comparator<K>, a: seq<Cell<K>>, x: Cell<K>, b: seq<Cell<K>>, e: Cell<K>)
    requires IsComparator(cmp) && AllBelow(cmp, a, x.AsEntry()) && Less(cmp, x.AsEntry(), e.AsEntry())
    ensures Insert(cmp, a + [x] + b, e) == a + [x] + Insert(cmp, b, e)
  {
    forall i | 0 <= i < |a| ensures Less(cmp, a[i].AsEntry(), e.AsEntry()) {
      LessTransitive(cmp, a[i].AsEntry(), x.AsEntry(), e.AsEntry());
    }
    InsertAfterAllBelow(cmp, a + [x], b, e);
  }

  // ---------- deletion keeps the balance ----------

  /** `side` is one black level higher than the other side; the rest is in order. */
  ghost predicate Deficient<K>(side: Side, t: Tree<K>) {
    && t.Bin?
    && var b, a := t.Child(side), t.Child(side.Other());
    && RedBlack(b) && RedBlack(a) && BlackHeight(b) == BlackHeight(a) + 1 && (t.red ==> !b.IsRed())
  }

  lemma FixDeletionBalance<K>(side: Side, t: Tree<K>)
    requires Deficient(side, t)
    ensures var (u, decreased) := FixDeletion(side, t);
            && RedBlack(u)
            && BlackHeight(u) + (if decreased then 1 else 0) == BlackHeight(t.Child(side)) + (if t.red then 0 else 1)
            && (!t.red ==> !u.IsRed())
  {
    var b, ar := t.Child(side), t.Child(side.Other());
    ChildBalance(side, b);
    if b.red {
      FixRedSiblingBalance(side, t);
    } else {
      var bl, br := b.Child(side), b.Child(side.Other());
      if !bl.IsRed() && !br.IsRed() {
        JoinBalance(side, b.Paint(true), t.cell, false, ar);
      } else if bl.IsRed() && !br.IsRed() {
        JoinBalance(side, br, t.cell, false, ar);
        JoinBalance(side, bl.Paint(false), b.cell, t.red, Join(side, br, t.cell, false, ar));
      } else {
        ChildBalance(side, br);
        var m, n := br.Child(side), br.Child(side.Other());
        JoinBalance(side, bl, b.cell, false, m);
        JoinBalance(side, n, t.cell, false, ar);
        JoinBalance(side, Join(side, bl, b.cell, false, m), br.cell, t.red, Join(side, n, t.cell, false, ar));
      }
    }
  }

  /** With a red sibling the black height is always restored and the root becomes black. */
  lemma FixRedSiblingBalance<K>(side: Side, t: Tree<K>)
    requires Deficient(side, t) && t.Child(side).IsRed()
    ensures t.Child(side).Child(side.Other()).Bin?
    ensures var u := FixRedSibling(side, t);
            RedBlack(u) && BlackHeight(u) == BlackHeight(t.Child(side)) + 1 && !u.IsRed()
  {
    var b, ar := t.Child(side), t.Child(side.Other());
    ChildBalance(side, b);
    var bl, c := b.Child(side), b.Child(side.Other());
    ChildBalance(side, c);
    var cl, cr := c.Child(side), c.Child(side.Other());
    if !cl.IsRed() && !cr.IsRed() {
      JoinBalance(side, c.Paint(true), t.cell, t.red, ar);
      JoinBalance(side, bl, b.cell, false, Join(side, c.Paint(true), t.cell, t.red, ar));
    } else if cr.IsRed() {
      ChildBalance(side, cr);
      var m, n := cr.Child(side), cr.Child(side.Other());
      var lower := Join(side, cl, c.cell, c.red, m);
      JoinBalance(side, cl, c.cell, c.red, m);
      JoinBalance(side, bl, b.cell, true, lower);
      JoinBalance(side, n, t.cell, t.red, ar);
      JoinBalance(side, Join(side, bl, b.cell, true, lower), cr.cell, false, Join(side, n, t.cell, t.red, ar));
    } else {
      JoinBalance(side, bl, b.cell, true, cl.Paint(false));
      JoinBalance(side, cr, t.cell, t.red, ar);
      JoinBalance(side, Join(side, bl, b.cell, true, cl.Paint(false)), c.cell, c.red,
                  Join(side, cr, t.cell, t.red, ar));
    }
  }

  /** Under a red sibling there are two black nodes, so the fix's asserts hold. */
  lemma RedSiblingChildren<K>(side: Side, t: Tree<K>)
    requires Deficient(side, t) && t.Child(side).IsRed()
    ensures var near, far := t.Child(side).Child(side), t.Child(side).Child(side.Other());
            near.Bin? && !near.red && far.Bin? && !far.red && !t.red
  {
    ChildBalance(side, t.Child(side));
  }

  /** What removing one node owes the levels above: the flag accounts for the black height,
      and a black root stays black. */
  ghost predicate Shrunk<K>(t: Tree<K>, u: Tree<K>, decreased: bool) {
    && RedBlack(u)
    && BlackHeight(u) + (if decreased then 1 else 0) == BlackHeight(t)
    && (!t.IsRed() ==> !u.IsRed())
  }

  lemma SettleBalance<K>(side: Side, t: Tree<K>, c: Cell<K>, u: Tree<K>, decreased: bool)
    requires t.Bin? && RedBlack(t) && Shrunk(t.Child(side.Other()), u, decreased)
    ensures var v := Join(side, t.Child(side), c, t.red, u);
            && (decreased ==> Deficient(side, v))
            && Shrunk(t, Settle(side, v, decreased).0, Settle(side, v, decreased).1)
  {
    ChildBalance(side, t);
    var v := Join(side, t.Child(side), c, t.red, u);
    JoinBalance(side, t.Child(side), c, t.red, u);
    assert v.Child(side) == t.Child(side) && v.Child(side.Other()) == u;
    if decreased {
      FixDeletionBalance(side, v);
    }
  }

  lemma {:induction false} DeleteRightmostBalance<K>(t: Tree<K>)
    requires t.Bin? && RedBlack(t)
    ensures Shrunk(t, DeleteRightmost(t).0, DeleteRightmost(t).2)
  {
    if t.right.Bin? {
      DeleteRightmostBalance(t.right);
      var (r, leaf, decreased) := DeleteRightmost(t.right);
      SettleBalance(Left, t, t.cell, r, decreased);
    } else if t.left.Bin? {
      OnlyChildIsRedLeaf(t.left);
    }
  }

  /** A subtree of black height zero is empty or a single red node. */
  lemma OnlyChildIsRedLeaf<K>(t: Tree<K>)
    requires RedBlack(t) && t.Bin? && BlackHeight(t) == 0
    ensures t.red && t.left.Leaf? && t.right.Leaf?
  {
  }

  /** The recursion's contract for every subtree on the way down. */
  lemma {:induction false} DeleteRecBalance<K>(cmp: Comparator<K>, t: Tree<K>, e: Cell<K>)
    requires RedBlack(t)
    ensures Shrunk(t, DeleteRec(cmp, t, e).0, DeleteRec(cmp, t, e).1)
  {
    if t.Bin? {
      if Less(cmp, e.AsEntry(), t.cell.AsEntry()) {
        DeleteRecBalance(cmp, t.left, e);
        var (u, decreased) := DeleteRec(cmp, t.left, e);
        SettleBalance(Right, t, t.cell, u, decreased);
      } else if Less(cmp, t.cell.AsEntry(), e.AsEntry()) {
        DeleteRecBalance(cmp, t.right, e);
        var (u, decreased) := DeleteRec(cmp, t.right, e);
        SettleBalance(Left, t, t.cell, u, decreased);
      } else if t.left.Bin? {
        DeleteRightmostBalance(t.left);
        var (l, leaf, decreased) := DeleteRightmost(t.left);
        SettleBalance(Right, t, leaf, l, decreased);
      } else if t.right.Bin? {
        OnlyChildIsRedLeaf(t.right);
      }
    }
  }

  // ---------- deletion removes exactly one cell ----------

  lemma SettleInorder<K>(side: Side, t: Tree<K>, decreased: bool)
    requires t.Bin?
    ensures Inorder(Settle(side, t, decreased).0) == Inorder(t)
  {
    FixDeletionInorder(side, t);
  }

  lemma {:induction false} DeleteRightmostInorder<K>(t: Tree<K>)
    requires t.Bin?
    ensures Inorder(t) == Inorder(DeleteRightmost(t).0) + [DeleteRightmost(t).1]
  {
    if t.right.Bin? {
      DeleteRightmostInorder(t.right);
      var (r, leaf, decreased) := DeleteRightmost(t.right);
      SettleInorder(Left, Bin(t.left, t.cell, t.red, r), decreased);
    }
  }

  lemma DeleteRootInorder<K>(t: Tree<K>)
    requires t.Bin?
    ensures Inorder(DeleteRoot(t).0) == Inorder(t.left) + Inorder(t.right)
  {
    if t.left.Bin? {
      DeleteRightmostInorder(t.left);
      var (u, leaf, decreased) := DeleteRightmost(t.left);
      SettleInorder(Right, Bin(u, leaf, t.red, t.right), decreased);
    }
  }

  lemma {:induction false} DeleteRecInorder<K(!new)>(cmp: Comparator<K>, t: Tree<K>, e: Cell<K>)
    requires IsComparator(cmp) && Sorted(cmp, Inorder(t)) && e in Inorder(t)
    ensures Inorder(DeleteRec(cmp, t, e).0) == Remove(Inorder(t), e)
  {
    var l, r := Inorder(t.left), Inorder(t.right);
    SortedAround(cmp, l, t.cell, r);
    RemoveAround(cmp, l, t.cell, r, e);
    if Less(cmp, e.AsEntry(), t.cell.AsEntry()) {
      DeleteRecInorder(cmp, t.left, e);
      var (u, decreased) := DeleteRec(cmp, t.left, e);
      SettleInorder(Right, Bin(u, t.cell, t.red, t.right), decreased);
    } else if Less(cmp, t.cell.AsEntry(), e.AsEntry()) {
      DeleteRecInorder(cmp, t.right, e);
      var (u, decreased) := DeleteRec(cmp, t.right, e);
      SettleInorder(Left, Bin(t.left, t.cell, t.red, u), decreased);
    } else {
      DeleteRootInorder(t);
    }
  }

  // ---------- whole operations ----------

  lemma AddRecNodes<K(!new)>(cmp: Comparator<K>, t: Tree<K>, e: Cell<K>)
    requires IsComparator(cmp) && Sorted(cmp, Inorder(t)) && Distinct(t)
    requires forall c :: c in Inorder(t) ==> c.node.addr != e.node.addr
    ensures NodeSet(AddRec(cmp, t, e)) == NodeSet(t) + {e.node}
    ensures Distinct(AddRec(cmp, t, e))
  {
    var u := AddRec(cmp, t, e);
    AddRecInorder(cmp, t, e);
    NodeSetIsInorder(t);
    NodeSetIsInorder(u);
    InsertNodes(cmp, Inorder(t), e);
  }

  /** `s` with `e` put at place `k`. */
  ghost function PutAt<T>(s: seq<T>, k: nat, e: T): seq<T>
    requires k <= |s|
  {
    s[..k] + [e] + s[k..]
  }

  lemma PutAround<T>(l: seq<T>, c: T, r: seq<T>, e: T, k: nat)
    ensures k <= |l| ==> PutAt(l, k, e) + [c] + r == PutAt(l + [c] + r, k, e)
    ensures k <= |r| ==> l + [c] + PutAt(r, k, e) == PutAt(l + [c] + r, |l| + 1 + k, e)
  {
    var s := l + [c] + r;
    if k <= |l| {
      assert s[..k] == l[..k] && s[k..] == l[k..] + [c] + r;
    }
    if k <= |r| {
      assert s[..|l| + 1 + k] == l + [c] + r[..k] && s[|l| + 1 + k..] == r[k..];
    }
  }

  /** Even in a tree that is not in order the new cell comes in somewhere, and the others keep theirs. */
  lemma {:induction false} AddRecSomewhere<K>(cmp: Comparator<K>, t: Tree<K>, e: Cell<K>) returns (k: nat)
    ensures k <= |Inorder(t)| && Inorder(AddRec(cmp, t, e)) == PutAt(Inorder(t), k, e)
  {
    hide PutAt, FixInsertion;
    if t.Leaf? {
      k := 0;
      PutInEmpty(e);
    } else {
      var l, r := Inorder(t.left), Inorder(t.right);
      if Less(cmp, e.AsEntry(), t.cell.AsEntry()) {
        k := AddRecSomewhere(cmp, t.left, e);
        FixInsertionInorder(Left, Bin(AddRec(cmp, t.left, e), t.cell, t.red, t.right));
        PutAround(l, t.cell, r, e, k);
      } else {
        k := AddRecSomewhere(cmp, t.right, e);
        FixInsertionInorder(Right, Bin(t.left, t.cell, t.red, AddRec(cmp, t.right, e)));
        PutAround(l, t.cell, r, e, k);
        k := |l| + 1 + k;
      }
    }
  }

  lemma PutInEmpty<T>(e: T)
    ensures PutAt([], 0, e) == [e]
  {
  }

  /** Adding adds the node to the set of nodes, whatever the tree, and keeps them distinct exactly if
      they were and the node was not in. */
  lemma AddNodes<K>(cmp: Comparator<K>, t: Tree<K>, e: Cell<K>)
    ensures NodeSet(Add(cmp, t, e)) == NodeSet(t) + {e.node}
    ensures Distinct(Add(cmp, t, e)) <==> Distinct(t) && e.node !in NodeSet(t)
  {
    hide AddRec, NodesOf, DistinctNodes, NodeSet, Distinct;
    var s := Inorder(t);
    var k := AddRecSomewhere(cmp, t, e);
    NodeSetIsInorder(t);
    NodeSetIsInorder(AddRec(cmp, t, e));
    PaintKeeps(AddRec(cmp, t, e), false);
    ConcatNodes(s[..k], e, s[k..]);
    AppendNodes(s[..k], s[k..]);
    assert s == s[..k] + s[k..];
  }

  lemma DeleteRecNodes<K(!new)>(cmp: Comparator<K>, t: Tree<K>, e: Cell<K>)
    requires IsComparator(cmp) && Sorted(cmp, Inorder(t)) && Distinct(t) && e in Inorder(t)
    ensures NodeSet(DeleteRec(cmp, t, e).0) == NodeSet(t) - {e.node}
    ensures Distinct(DeleteRec(cmp, t, e).0)
  {
    var u := DeleteRec(cmp, t, e).0;
    DeleteRecInorder(cmp, t, e);
    NodeSetIsInorder(t);
    NodeSetIsInorder(u);
    RemoveNodes(Inorder(t), e);
  }

  lemma DeleteRightmostNodes<K>(t: Tree<K>)
    requires t.Bin? && Distinct(t)
    ensures var (u, leaf, _) := DeleteRightmost(t);
            && NodeSet(t) == NodeSet(u) + {leaf.node} && leaf.node !in NodeSet(u) && Distinct(u)
            && leaf in Inorder(t)
  {
    var (u, leaf, _) := DeleteRightmost(t);
    DeleteRightmostInorder(t);
    NodeSetIsInorder(t);
    NodeSetIsInorder(u);
    AppendNodes(Inorder(u), [leaf]);
    assert NodesOf([leaf]) == {leaf.node} by { assert leaf in [leaf]; }
    assert leaf == Inorder(t)[|Inorder(u)|];
  }

  lemma PaintKeeps<K>(t: Tree<K>, c: bool)
    ensures Inorder(t.Paint(c)) == Inorder(t) && NodeSet(t.Paint(c)) == NodeSet(t)
    ensures Distinct(t.Paint(c)) == Distinct(t)
    ensures Balanced(t) ==> Balanced(t.Paint(c))
  {
  }

  /** Adding a node with an address of its own to a valid tree gives a valid tree:
      the old cells with the new one at its place. */
  lemma AddCorrect<K(!new)>(cmp: Comparator<K>, t: Tree<K>, e: Cell<K>)
    requires IsComparator(cmp) && Valid(cmp, t)
    requires forall c :: c in Inorder(t) ==> c.node.addr != e.node.addr
    ensures Valid(cmp, Add(cmp, t, e))
    ensures Inorder(Add(cmp, t, e)) == Insert(cmp, Inorder(t), e)
    ensures NodeSet(Add(cmp, t, e)) == NodeSet(t) + {e.node}
  {
    AddRecBalance(cmp, t, e);
    AddRecInorder(cmp, t, e);
    AddRecNodes(cmp, t, e);
    InsertSorted(cmp, Inorder(t), e);
    PaintKeeps(AddRec(cmp, t, e), false);
  }

  /** Deleting a member of a valid tree gives a valid tree: the old cells without that one. */
  lemma DeleteCorrect<K(!new)>(cmp: Comparator<K>, t: Tree<K>, e: Cell<K>)
    requires IsComparator(cmp) && Valid(cmp, t) && e in Inorder(t)
    ensures Valid(cmp, Delete(cmp, t, e))
    ensures Inorder(Delete(cmp, t, e)) == Remove(Inorder(t), e)
    ensures NodeSet(Delete(cmp, t, e)) == NodeSet(t) - {e.node}
  {
    DeleteRecBalance(cmp, t, e);
    DeleteRecInorder(cmp, t, e);
    DeleteRecNodes(cmp, t, e);
    RemoveSorted(cmp, Inorder(t), e);
    PaintKeeps(DeleteRec(cmp, t, e).0, false);
  }

  // ---------- height ----------

  ghost function Height<K>(t: Tree<K>): nat {
    match t
    case Leaf => 0
    case Bin(l, _, _, r) => 1 + if Height(l) < Height(r) then Height(r) else Height(l)
  }

  lemma {:induction false} HeightAtMostTwiceBlack<K>(t: Tree<K>)
    requires RedBlack(t)
    ensures Height(t) <= 2 * BlackHeight(t) + (if t.IsRed() then 1 else 0)
  {
    if t.Bin? {
      HeightAtMostTwiceBlack(t.left);
      HeightAtMostTwiceBlack(t.right);
    }
  }

  lemma {:induction false} SizeAtLeastBlack<K>(t: Tree<K>)
    requires Balanced(t)
    ensures Pow2(BlackHeight(t)) <= Size(t) + 1
  {
    if t.Bin? {
      SizeAtLeastBlack(t.left);
      SizeAtLeastBlack(t.right);
    }
  }

  /** A tree with a black root and n nodes is at most 2 * log2(n + 1) high. */
  lemma HeightLogarithmic<K>(t: Tree<K>)
    requires RedBlack(t) && !t.IsRed()
    ensures Pow2((Height(t) + 1) / 2) <= Size(t) + 1
  {
    HeightAtMostTwiceBlack(t);
    SizeAtLeastBlack(t);
    Pow2Monotone((Height(t) + 1) / 2, BlackHeight(t));
  }

  /** SGLIB_MAX_TREE_DEEP. */
  const MAX_TREE_DEEP: nat := 128

  /** Every tree that fits a 64-bit address space stays within the walks' fixed stacks:
      they need a slot less than their size for the deepest path. */
  lemma StacksSuffice<K>(t: Tree<K>)
    requires RedBlack(t) && !t.IsRed() && Size(t) + 1 < 0x1_0000_0000_0000_0000
    ensures Height(t) < MAX_TREE_DEEP - 1
  {
    HeightLogarithmic(t);
    Pow2Of64();
    if Height(t) >= 127 {
      Pow2Monotone(64, (Height(t) + 1) / 2);
    }
  }
}
