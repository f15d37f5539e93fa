/** Linked nodes and the tree shapes they stand for; the relinking steps all rebalancing is made of. */
module Links {
  import opened Nodes
  import opened Trees

  ghost function Root<K>(shape: Tree<K>): Node?<K> {
    if shape.Leaf? then null else shape.cell.node
  }

  /** Every node of `shape` carries the key, the color and the links `shape` gives it. */
  ghost predicate Linked<K>(shape: Tree<K>)
    reads NodeSet(shape)
  {
    shape.Bin? ==>
      && var n := shape.cell.node;
      && n.key == shape.cell.key && n.red == shape.red
      && n.left == Root(shape.left) && n.right == Root(shape.right)
      && Linked(shape.left) && Linked(shape.right)
  }

  /** The pointer `t` is the root of nodes linked as `shape`. */
  ghost predicate Represents<K>(t: Node?<K>, shape: Tree<K>)
    reads NodeSet(shape)
  {
    t == Root(shape) && Linked(shape)
  }

  /** The subtree of `shape` at the node `n`. */
  ghost function Place<K>(shape: Tree<K>, n: Node<K>): Tree<K>
    requires n in NodeSet(shape)
  {
    if shape.cell.node == n then shape
    else if n in NodeSet(shape.left) then Place(shape.left, n) else Place(shape.right, n)
  }

  /** What a linked tree says of the fields of one of its nodes. */
  lemma {:induction false} FieldsAtPlace<K>(shape: Tree<K>, n: Node<K>)
    requires Linked(shape) && n in NodeSet(shape)
    ensures var t := Place(shape, n);
            t.Bin? && n.key == t.cell.key && n.red == t.red && n.left == Root(t.left) && n.right == Root(t.right)
  {
    if shape.cell.node != n {
      FieldsAtPlace(if n in NodeSet(shape.left) then shape.left else shape.right, n);
    }
  }

  // The subtrees a relinking step hangs elsewhere but does not look into.

  ghost predicate AllLinked<K>(rest: set<Tree<K>>)
    reads set s, n | s in rest && n in NodeSet(s) :: n
  {
    forall s :: s in rest ==> Linked(s)
  }

  ghost predicate Apart<K>(n: Node<K>, rest: set<Tree<K>>) {
    forall s :: s in rest ==> n !in NodeSet(s)
  }

  method SetChild<K>(n: Node<K>, side: Side, c: Node?<K>, ghost rest: set<Tree<K>>)
    requires AllLinked(rest) && Apart(n, rest)
    modifies n`left, n`right
    ensures n.left == if side.Left? then c else old(n.left)
    ensures n.right == if side.Left? then old(n.right) else c
    ensures AllLinked(rest)
  {
    if side.Left? {
      n.left := c;
    } else {
      n.right := c;
    }
  }

  method SetRed<K>(n: Node<K>, red: bool, ghost rest: set<Tree<K>>)
    requires AllLinked(rest) && Apart(n, rest)
    modifies n`red
    ensures n.red == red && AllLinked(rest)
  {
    n.red := red;
  }

  /** Colors the root of a represented tree. */
  method PaintNode<K>(n: Node<K>, red: bool, ghost shape: Tree<K>, ghost rest: set<Tree<K>>)
    requires Represents(n, shape) && Distinct(shape) && AllLinked(rest) && Apart(n, rest)
    modifies n`red
    ensures Represents(n, shape.Paint(red)) && AllLinked(rest)
  {
    SetRed(n, red, rest + {shape.left, shape.right});
  }

  /** The pointer moves of a single rotation and its colors. */
  method Relink<K>(side: Side, a: Node<K>, b: Node<K>, bRed: bool, aRed: bool, ghost rest: set<Tree<K>>)
    requires a != b && a.Child(side) == b
    requires AllLinked(rest) && Apart(a, rest) && Apart(b, rest)
    modifies {a, b}`left, {a, b}`right, {a, b}`red
    ensures a.red == aRed && b.red == bRed
    ensures b.Child(side) == old(b.Child(side)) && b.Child(side.Other()) == a
    ensures a.Child(side) == old(b.Child(side.Other())) && a.Child(side.Other()) == old(a.Child(side.Other()))
    ensures AllLinked(rest)
  {
    SetChild(a, side, b.Child(side.Other()), rest);
    SetChild(b, side.Other(), a, rest);
    SetRed(a, aRed, rest);
    SetRed(b, bRed, rest);
  }

  /** The pointer moves of a double rotation and its colors. */
  method RelinkTwice<K>(side: Side, a: Node<K>, b: Node<K>, c: Node<K>, bRed: bool, cRed: bool, aRed: bool,
                        ghost rest: set<Tree<K>>)
    requires a != b && b != c && c != a
    requires a.Child(side) == b && b.Child(side.Other()) == c
    requires AllLinked(rest) && Apart(a, rest) && Apart(b, rest) && Apart(c, rest)
    modifies {a, b, c}`left, {a, b, c}`right, {a, b, c}`red
    ensures a.red == aRed && b.red == bRed && c.red == cRed
    ensures c.Child(side) == b && c.Child(side.Other()) == a
    ensures b.Child(side) == old(b.Child(side)) && b.Child(side.Other()) == old(c.Child(side))
    ensures a.Child(side) == old(c.Child(side.Other())) && a.Child(side.Other()) == old(a.Child(side.Other()))
    ensures AllLinked(rest)
  {
    var far := side.Other();
    SetChild(b, far, c.Child(side), rest);
    SetChild(a, side, c.Child(far), rest);
    SetChild(c, side, b, rest);
    SetChild(c, far, a, rest);
    SetRed(b, bRed, rest);
    SetRed(c, cRed, rest);
    SetRed(a, aRed, rest);
  }

  // ---------- between a shape and its parts ----------

  lemma Unfold<K>(side: Side, shape: Tree<K>)
    requires Linked(shape) && shape.Bin?
    ensures var n, near, far := shape.cell.node, shape.Child(side), shape.Child(side.Other());
            && n.key == shape.cell.key && n.red == shape.red
            && n.Child(side) == Root(near) && n.Child(side.Other()) == Root(far)
            && Linked(near) && Linked(far)
  {
  }

  lemma Separate<K>(side: Side, shape: Tree<K>)
    requires Distinct(shape) && shape.Bin?
    ensures var n, near, far := shape.cell.node, shape.Child(side), shape.Child(side.Other());
            && Distinct(near) && Distinct(far) && NodeSet(near) !! NodeSet(far)
            && n !in NodeSet(near) && n !in NodeSet(far) && n in NodeSet(shape)
            && NodeSet(near) <= NodeSet(shape) && NodeSet(far) <= NodeSet(shape)
  {
  }

  lemma Fold<K>(side: Side, near: Tree<K>, c: Cell<K>, red: bool, far: Tree<K>)
    requires c.node.key == c.key && c.node.red == red
    requires c.node.Child(side) == Root(near) && c.node.Child(side.Other()) == Root(far)
    requires Linked(near) && Linked(far)
    ensures Represents(c.node, Join(side, near, c, red, far))
  {
  }

  lemma Open<K>(side: Side, shape: Tree<K>)
    requires Linked(shape) && Distinct(shape) && shape.Bin? && shape.Child(side).Bin?
    ensures var near, z := shape.Child(side), shape.Child(side.Other());
            var x, y := near.Child(side), near.Child(side.Other());
            var a, b := shape.cell.node, near.cell.node;
            && a != b && a in NodeSet(shape) && b in NodeSet(shape)
            && a.key == shape.cell.key && b.key == near.cell.key
            && a.Child(side) == b && a.Child(side.Other()) == Root(z)
            && b.Child(side) == Root(x) && b.Child(side.Other()) == Root(y)
            && AllLinked({x, y, z}) && Apart(a, {x, y, z}) && Apart(b, {x, y, z})
  {
    Unfold(side, shape);
    Unfold(side, shape.Child(side));
    ApartOnce(side, shape);
  }

  lemma ApartOnce<K>(side: Side, shape: Tree<K>)
    requires Distinct(shape) && shape.Bin? && shape.Child(side).Bin?
    ensures var near, z := shape.Child(side), shape.Child(side.Other());
            var rest := {near.Child(side), near.Child(side.Other()), z};
            Apart(shape.cell.node, rest) && Apart(near.cell.node, rest)
  {
  }

  lemma OpenTwice<K>(side: Side, shape: Tree<K>)
    requires Linked(shape) && Distinct(shape) && shape.Bin? && shape.Child(side).Bin?
    requires shape.Child(side).Child(side.Other()).Bin?
    ensures var near, z := shape.Child(side), shape.Child(side.Other());
            var x, mid := near.Child(side), near.Child(side.Other());
            var m, n := mid.Child(side), mid.Child(side.Other());
            var a, b, c := shape.cell.node, near.cell.node, mid.cell.node;
            && a != b && b != c && c != a
            && a in NodeSet(shape) && b in NodeSet(shape) && c in NodeSet(shape)
            && a.key == shape.cell.key && b.key == near.cell.key && c.key == mid.cell.key
            && a.Child(side) == b && a.Child(side.Other()) == Root(z)
            && b.Child(side) == Root(x) && b.Child(side.Other()) == c
            && c.Child(side) == Root(m) && c.Child(side.Other()) == Root(n)
            && AllLinked({x, m, n, z})
            && Apart(a, {x, m, n, z}) && Apart(b, {x, m, n, z}) && Apart(c, {x, m, n, z})
  {
    var near := shape.Child(side);
    Unfold(side, shape);
    Unfold(side, near);
    Unfold(side, near.Child(side.Other()));
    ApartUpper(side, shape);
    ApartMiddle(side, shape);
    ApartLower(side, shape);
  }

  lemma ApartUpper<K>(side: Side, shape: Tree<K>)
    requires Distinct(shape) && shape.Bin? && shape.Child(side).Bin?
    requires shape.Child(side).Child(side.Other()).Bin?
    ensures var near := shape.Child(side);
            var mid := near.Child(side.Other());
            var a := shape.cell.node;
            && a != near.cell.node && a != mid.cell.node
            && Apart(a, {near.Child(side), mid.Child(side), mid.Child(side.Other()), shape.Child(side.Other())})
  {
  }

  lemma ApartMiddle<K>(side: Side, shape: Tree<K>)
    requires Distinct(shape) && shape.Bin? && shape.Child(side).Bin?
    requires shape.Child(side).Child(side.Other()).Bin?
    ensures var near := shape.Child(side);
            var mid := near.Child(side.Other());
            var b := near.cell.node;
            && b != mid.cell.node
            && Apart(b, {near.Child(side), mid.Child(side), mid.Child(side.Other()), shape.Child(side.Other())})
  {
    Separate(side, shape);
  }

  lemma ApartLower<K>(side: Side, shape: Tree<K>)
    requires Distinct(shape) && shape.Bin? && shape.Child(side).Bin?
    requires shape.Child(side).Child(side.Other()).Bin?
    ensures var near := shape.Child(side);
            var mid := near.Child(side.Other());
            var c := mid.cell.node;
            && c in NodeSet(shape)
            && Apart(c, {near.Child(side), mid.Child(side), mid.Child(side.Other()), shape.Child(side.Other())})
  {
    var near := shape.Child(side);
    Separate(side, shape);
    Separate(side, near);
    assert near.Child(side.Other()).cell.node in NodeSet(near.Child(side.Other()));
  }

  // ---------- rotations of represented trees ----------

  /** `b`, the `side` child of `a`, takes the place of `a`; the trees in `aside` stay as they are. */
  method Rotate<K>(side: Side, a: Node<K>, bRed: bool, aRed: bool, ghost shape: Tree<K>,
                   ghost aside: set<Tree<K>> := {})
    returns (b: Node<K>)
    requires Represents(a, shape) && Distinct(shape) && shape.Child(side).Bin?
    requires AllLinked(aside) && forall s :: s in aside ==> NodeSet(s) !! NodeSet(shape)
    modifies NodeSet(shape)`left, NodeSet(shape)`right, NodeSet(shape)`red
    ensures var near, far := shape.Child(side), side.Other();
            Represents(b, Join(side, near.Child(side), near.cell, bRed,
                               Join(side, near.Child(far), shape.cell, aRed, shape.Child(far))))
    ensures AllLinked(aside)
  {
    ghost var near, z := shape.Child(side), shape.Child(side.Other());
    ghost var x, y := near.Child(side), near.Child(side.Other());
    Open(side, shape);
    b := a.Child(side);
    Relink(side, a, b, bRed, aRed, aside + {x, y, z});
    Fold(side, y, shape.cell, aRed, z);
    Fold(side, x, near.cell, bRed, Join(side, y, shape.cell, aRed, z));
  }

  /** `c`, the far child of `a`'s `side` child `b`, takes the place of `a`, between `b` and `a`. */
  method RotateTwice<K>(side: Side, a: Node<K>, bRed: bool, cRed: bool, aRed: bool, ghost shape: Tree<K>)
    returns (c: Node<K>)
    requires Represents(a, shape) && Distinct(shape) && shape.Child(side).Bin?
    requires shape.Child(side).Child(side.Other()).Bin?
    modifies NodeSet(shape)`left, NodeSet(shape)`right, NodeSet(shape)`red
    ensures var far := side.Other();
            var near := shape.Child(side);
            var mid := near.Child(far);
            Represents(c, Join(side,
                               Join(side, near.Child(side), near.cell, bRed, mid.Child(side)),
                               mid.cell, cRed,
                               Join(side, mid.Child(far), shape.cell, aRed, shape.Child(far))))
  {
    var far := side.Other();
    ghost var near, z := shape.Child(side), shape.Child(far);
    ghost var x, mid := near.Child(side), near.Child(far);
    ghost var m, n := mid.Child(side), mid.Child(far);
    OpenTwice(side, shape);
    var b := a.Child(side);
    c := b.Child(far);
    RelinkTwice(side, a, b, c, bRed, cRed, aRed, {x, m, n, z});
    Fold(side, x, near.cell, bRed, m);
    Fold(side, n, shape.cell, aRed, z);
    Fold(side, Join(side, x, near.cell, bRed, m), mid.cell, cRed, Join(side, n, shape.cell, aRed, z));
  }

  /** The inner child c's far child d rises to the root, over the sibling and the old root. */
  method RotateThrice<K>(side: Side, tree: Node<K>, ghost shape: Tree<K>) returns (root: Node<K>)
    requires Represents(tree, shape) && Distinct(shape) && shape.Child(side).Bin?
    requires shape.Child(side).red && shape.Child(side).Child(side.Other()).Bin?
    requires shape.Child(side).Child(side.Other()).Child(side.Other()).Bin?
    modifies NodeSet(shape)`left, NodeSet(shape)`right, NodeSet(shape)`red
    ensures var near, far := shape.Child(side), side.Other();
            var mid := near.Child(far);
            var low := mid.Child(far);
            Represents(root, Join(side,
                                  Join(side, near.Child(side), near.cell, true,
                                       Join(side, mid.Child(side), mid.cell, mid.red, low.Child(side))),
                                  low.cell, false,
                                  Join(side, low.Child(far), shape.cell, shape.red, shape.Child(far))))
  {
    var far := side.Other();
    ghost var near, z := shape.Child(side), shape.Child(far);
    ghost var x, mid := near.Child(side), near.Child(far);
    ghost var m, low := mid.Child(side), mid.Child(far);
    ghost var dl, dr := low.Child(side), low.Child(far);
    OpenThrice(side, shape);
    var b := tree.Child(side);
    var c := b.Child(far);
    var d := c.Child(far);
    RelinkThrice(side, tree, b, c, d, {x, m, dl, dr, z});
    root := d;
    Fold(side, m, mid.cell, mid.red, dl);
    Fold(side, x, near.cell, true, Join(side, m, mid.cell, mid.red, dl));
    Fold(side, dr, shape.cell, shape.red, z);
    Fold(side, Join(side, x, near.cell, true, Join(side, m, mid.cell, mid.red, dl)), low.cell, false,
         Join(side, dr, shape.cell, shape.red, z));
  }

  /** The pointer moves that put d between b and a, and what d held under c and a. */
  method RelinkThrice<K>(side: Side, a: Node<K>, b: Node<K>, c: Node<K>, d: Node<K>, ghost rest: set<Tree<K>>)
    requires a != b && b != c && c != a && d != a && d != b && d != c
    requires AllLinked(rest) && Apart(a, rest) && Apart(b, rest) && Apart(c, rest) && Apart(d, rest)
    modifies {a, b, c, d}`left, {a, b, c, d}`right, d`red
    ensures !d.red
    ensures d.Child(side) == b && d.Child(side.Other()) == a
    ensures b.Child(side) == old(b.Child(side)) && b.Child(side.Other()) == old(b.Child(side.Other()))
    ensures c.Child(side) == old(c.Child(side)) && c.Child(side.Other()) == old(d.Child(side))
    ensures a.Child(side) == old(d.Child(side.Other())) && a.Child(side.Other()) == old(a.Child(side.Other()))
    ensures AllLinked(rest)
  {
    var far := side.Other();
    var dl, dr := d.Child(side), d.Child(far);
    SetRed(d, false, rest);
    SetChild(d, side, b, rest);
    SetChild(c, far, dl, rest);
    SetChild(d, far, a, rest);
    SetChild(a, side, dr, rest);
  }

  lemma OpenThrice<K>(side: Side, shape: Tree<K>)
    requires Linked(shape) && Distinct(shape) && shape.Bin? && shape.Child(side).Bin?
    requires shape.Child(side).Child(side.Other()).Bin?
    requires shape.Child(side).Child(side.Other()).Child(side.Other()).Bin?
    ensures var near, z := shape.Child(side), shape.Child(side.Other());
            var x, mid := near.Child(side), near.Child(side.Other());
            var m, low := mid.Child(side), mid.Child(side.Other());
            var dl, dr := low.Child(side), low.Child(side.Other());
            var a, b, c, d := shape.cell.node, near.cell.node, mid.cell.node, low.cell.node;
            var rest := {x, m, dl, dr, z};
            && a != b && b != c && c != a && d != a && d != b && d != c
            && {a, b, c, d} <= NodeSet(shape)
            && a.key == shape.cell.key && b.key == near.cell.key && c.key == mid.cell.key && d.key == low.cell.key
            && a.red == shape.red && b.red == near.red && c.red == mid.red
            && a.Child(side) == b && a.Child(side.Other()) == Root(z)
            && b.Child(side) == Root(x) && b.Child(side.Other()) == c
            && c.Child(side) == Root(m) && c.Child(side.Other()) == d
            && d.Child(side) == Root(dl) && d.Child(side.Other()) == Root(dr)
            && AllLinked(rest) && Apart(a, rest) && Apart(b, rest) && Apart(c, rest) && Apart(d, rest)
  {
    var near, z := shape.Child(side), shape.Child(side.Other());
    var x, mid := near.Child(side), near.Child(side.Other());
    var m, low := mid.Child(side), mid.Child(side.Other());
    OpenTwice(side, shape);
    Unfold(side, shape);
    Unfold(side, near);
    Unfold(side, mid);
    Unfold(side, low);
    ApartRefine(shape.cell.node, side, x, m, low, z);
    ApartRefine(near.cell.node, side, x, m, low, z);
    ApartRefine(mid.cell.node, side, x, m, low, z);
    ApartDeepest(side, shape);
  }

  lemma ApartRefine<K>(n: Node<K>, side: Side, x: Tree<K>, m: Tree<K>, low: Tree<K>, z: Tree<K>)
    requires low.Bin? && Apart(n, {x, m, low, z})
    ensures n != low.cell.node && Apart(n, {x, m, low.Child(side), low.Child(side.Other()), z})
  {
    assert n !in NodeSet(low);
  }

  lemma ApartDeepest<K>(side: Side, shape: Tree<K>)
    requires Distinct(shape) && shape.Bin? && shape.Child(side).Bin?
    requires shape.Child(side).Child(side.Other()).Bin?
    requires shape.Child(side).Child(side.Other()).Child(side.Other()).Bin?
    ensures var near, z := shape.Child(side), shape.Child(side.Other());
            var x, mid := near.Child(side), near.Child(side.Other());
            var m, low := mid.Child(side), mid.Child(side.Other());
            var d := low.cell.node;
            && d in NodeSet(shape)
            && Apart(d, {x, m, low.Child(side), low.Child(side.Other()), z})
  {
    var near := shape.Child(side);
    var mid := near.Child(side.Other());
    var low := mid.Child(side.Other());
    Separate(side, shape);
    Separate(side, near);
    Separate(side, mid);
    Separate(side, low);
    assert low.cell.node in NodeSet(low) && low.cell.node in NodeSet(mid) && low.cell.node in NodeSet(near);
  }
}
