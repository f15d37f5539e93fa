/** The library's own consistency check of a red-black tree, and what it does and does not establish. */
module Consistency {
  import opened Nodes
  import opened Trees
  import opened Links

  /** No child is on the wrong side of its own parent. */
  ghost predicate LocallyOrdered<K>(cmp: Comparator<K>, t: Tree<K>) {
    t.Bin? ==>
      && (t.left.Bin? ==> cmp(t.left.cell.AsEntry(), t.cell.AsEntry()) <= 0)
      && (t.right.Bin? ==> cmp(t.cell.AsEntry(), t.right.cell.AsEntry()) <= 0)
      && LocallyOrdered(cmp, t.left) && LocallyOrdered(cmp, t.right)
  }

  ghost predicate Sane<K>(cmp: Comparator<K>, t: Tree<K>) {
    LocallyOrdered(cmp, t) && RedBlack(t)
  }

  /** One subtree: `deep` is the number of black nodes above, `pathDeep` the number found on the first path,
      negative before that. The outcome is whether every assertion held, and the new `pathDeep`. */
  method CheckRecursively<K>(cmp: Comparator<K>, t: Node?<K>, pathDeep0: int, deep: nat, ghost shape: Tree<K>)
    returns (ok: bool, pathDeep: int)
    requires Represents(t, shape)
    ensures ok <==> Sane(cmp, shape) && (pathDeep0 < 0 || pathDeep0 == deep + BlackHeight(shape))
    ensures ok ==> pathDeep == deep + BlackHeight(shape)
    decreases shape
  {
    if t == null {
      pathDeep := if pathDeep0 < 0 then deep else pathDeep0;
      return pathDeep == deep, pathDeep;
    }
    pathDeep := pathDeep0;
    assert allocated(NodeSet(shape.left)) && allocated(NodeSet(shape.right));
    assert Represents(t.left, shape.left) && Represents(t.right, shape.right);
    ok := Locally(cmp, t, shape);
    if ok {
      ok, pathDeep := CheckRecursively(cmp, t.left, pathDeep, if t.red then deep else deep + 1, shape.left);
      if ok {
        ok, pathDeep := CheckRecursively(cmp, t.right, pathDeep, if t.red then deep else deep + 1, shape.right);
      }
    }
  }

  /** The assertions about a node and its children. */
  method Locally<K>(cmp: Comparator<K>, t: Node<K>, ghost shape: Tree<K>) returns (ok: bool)
    requires Represents(t, shape)
    ensures ok <==> && (shape.left.Bin? ==> cmp(shape.left.cell.AsEntry(), shape.cell.AsEntry()) <= 0)
                    && (shape.right.Bin? ==> cmp(shape.cell.AsEntry(), shape.right.cell.AsEntry()) <= 0)
                    && (shape.red ==> !shape.left.IsRed() && !shape.right.IsRed())
  {
    assert Represents(t.left, shape.left) && Represents(t.right, shape.right);
    var here := Entry(t.key, t.addr);
    ok := true;
    if t.left != null {
      ok := cmp(Entry(t.left.key, t.left.addr), here) <= 0 && !(t.red && t.left.red);
    }
    if ok && t.right != null {
      ok := cmp(here, Entry(t.right.key, t.right.addr)) <= 0 && !(t.red && t.right.red);
    }
  }

  /** `sglib___consistency_check` accepts exactly the red-black trees with a black root in which no child
      is on the wrong side of its parent. */
  method ConsistencyCheck<K>(cmp: Comparator<K>, t: Node?<K>, ghost shape: Tree<K>) returns (ok: bool)
    requires Represents(t, shape)
    ensures ok <==> Sane(cmp, shape) && !shape.IsRed()
  {
    ok := t == null || !t.red;
    if ok {
      var deep;
      ok, deep := CheckRecursively(cmp, t, -1, 0, shape);
    }
  }

  /** It accepts every valid tree. */
  lemma ValidIsSane<K>(cmp: Comparator<K>, t: Tree<K>)
    requires Valid(cmp, t)
    ensures Sane(cmp, t) && !t.IsRed()
  {
    SortedLocally(cmp, t);
  }

  lemma {:induction false} SortedLocally<K>(cmp: Comparator<K>, t: Tree<K>)
    requires Sorted(cmp, Inorder(t))
    ensures LocallyOrdered(cmp, t)
  {
    if t.Bin? {
      var l, r := Inorder(t.left), Inorder(t.right);
      var s := Inorder(t);
      assert s == l + [t.cell] + r && s[|l|] == t.cell;
      assert forall i :: 0 <= i < |l| ==> s[i] == l[i];
      assert forall i :: 0 <= i < |r| ==> s[|l| + 1 + i] == r[i];
      SortedLocally(cmp, t.left);
      SortedLocally(cmp, t.right);
      if t.left.Bin? {
        var k := |Inorder(t.left.left)|;
        assert l[k] == t.left.cell && Less(cmp, s[k].AsEntry(), s[|l|].AsEntry());
      }
      if t.right.Bin? {
        var k := |Inorder(t.right.left)|;
        assert r[k] == t.right.cell && Less(cmp, s[|l|].AsEntry(), s[|l| + 1 + k].AsEntry());
      }
    }
  }

  /** It accepts trees that are not valid, too: an element may be on the wrong side of an ancestor. */
  lemma SaneNeedNotBeSorted<K>(cmp: Comparator<K>, a: Cell<K>, b: Cell<K>, c: Cell<K>, d: Cell<K>)
    requires cmp(a.AsEntry(), b.AsEntry()) <= 0 && cmp(b.AsEntry(), d.AsEntry()) <= 0
               && cmp(a.AsEntry(), c.AsEntry()) <= 0
    requires cmp(c.AsEntry(), b.AsEntry()) > 0
    ensures var t := Bin(Bin(Leaf, a, false, Bin(Leaf, c, true, Leaf)), b, false, Bin(Leaf, d, false, Leaf));
            Sane(cmp, t) && !t.IsRed() && !Valid(cmp, t)
  {
    var none: Tree<K> := Leaf;
    var inner, high := Bin(none, c, true, none), Bin(none, d, false, none);
    var low := Bin(none, a, false, inner);
    var t := Bin(low, b, false, high);
    assert Sane(cmp, none) && BlackHeight(none) == 0 && Inorder(none) == [];
    assert Sane(cmp, inner) && BlackHeight(inner) == 0 && Inorder(inner) == [c];
    assert Sane(cmp, low) && BlackHeight(low) == 1 && Inorder(low) == [a, c];
    assert Sane(cmp, high) && BlackHeight(high) == 1 && Inorder(high) == [d];
    assert Inorder(t)[1] == c && Inorder(t)[2] == b;
  }
}
