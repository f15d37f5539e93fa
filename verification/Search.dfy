/** Looking an element up in a tree's shape, by any comparator that follows the tree's order. */
module Search {
  import opened Orders
  import opened Nodes
  import opened Trees

  /** Along `s` the sign of `sub(e, ·)` only falls: greater, then equal, then less. */
  ghost predicate Follows<K>(sub: Comparator<K>, e: Entry<K>, s: seq<Cell<K>>) {
    forall i, j :: 0 <= i < j < |s| ==>
      && (sub(e, s[i].AsEntry()) < 0 ==> sub(e, s[j].AsEntry()) < 0)
      && (sub(e, s[j].AsEntry()) > 0 ==> sub(e, s[i].AsEntry()) > 0)
  }

  /** The subtree whose root is the topmost element equal to `e`. */
  ghost function Focus<K>(sub: Comparator<K>, e: Entry<K>, t: Tree<K>): Tree<K> {
    if t.Leaf? then Leaf
    else if sub(e, t.cell.AsEntry()) < 0 then Focus(sub, e, t.left)
    else if sub(e, t.cell.AsEntry()) > 0 then Focus(sub, e, t.right)
    else t
  }

  /** The elements of `s` equal to `e`, in order. */
  ghost function Equals<K>(sub: Comparator<K>, e: Entry<K>, s: seq<Cell<K>>): seq<Cell<K>> {
    if s == [] then []
    else (if sub(e, s[0].AsEntry()) == 0 then [s[0]] else []) + Equals(sub, e, s[1..])
  }

  lemma {:induction false} EqualsConcat<K>(sub: Comparator<K>, e: Entry<K>, a: seq<Cell<K>>, b: seq<Cell<K>>)
    ensures Equals(sub, e, a + b) == Equals(sub, e, a) + Equals(sub, e, b)
  {
    if a == [] {
      assert a + b == b;
    } else {
      assert (a + b)[1..] == a[1..] + b;
      EqualsConcat(sub, e, a[1..], b);
    }
  }

  lemma EqualsAround<K>(sub: Comparator<K>, e: Entry<K>, l: seq<Cell<K>>, c: Cell<K>, r: seq<Cell<K>>)
    ensures Equals(sub, e, l + [c] + r) ==
            Equals(sub, e, l) + (if sub(e, c.AsEntry()) == 0 then [c] else []) + Equals(sub, e, r)
  {
    EqualsConcat(sub, e, l + [c], r);
    EqualsConcat(sub, e, l, [c]);
  }

  lemma {:induction false} EqualsNone<K>(sub: Comparator<K>, e: Entry<K>, s: seq<Cell<K>>)
    requires forall i :: 0 <= i < |s| ==> sub(e, s[i].AsEntry()) != 0
    ensures Equals(sub, e, s) == []
  {
    if s != [] {
      EqualsNone(sub, e, s[1..]);
    }
  }

  lemma {:induction false} EqualsMembers<K>(sub: Comparator<K>, e: Entry<K>, s: seq<Cell<K>>)
    ensures forall c :: c in Equals(sub, e, s) <==> c in s && sub(e, c.AsEntry()) == 0
  {
    if s != [] {
      EqualsMembers(sub, e, s[1..]);
      assert forall c :: c in s <==> c == s[0] || c in s[1..];
    }
  }

  lemma FollowsAround<K>(sub: Comparator<K>, e: Entry<K>, l: seq<Cell<K>>, c: Cell<K>, r: seq<Cell<K>>)
    requires Follows(sub, e, l + [c] + r)
    ensures Follows(sub, e, l) && Follows(sub, e, r)
    ensures sub(e, c.AsEntry()) < 0 ==> forall i :: 0 <= i < |r| ==> sub(e, r[i].AsEntry()) < 0
    ensures sub(e, c.AsEntry()) > 0 ==> forall i :: 0 <= i < |l| ==> sub(e, l[i].AsEntry()) > 0
  {
    var s := l + [c] + r;
    assert s[|l|] == c;
    assert forall i :: 0 <= i < |l| ==> s[i] == l[i];
    assert forall i {:trigger r[i]} :: 0 <= i < |r| ==> s[|l| + 1 + i] == r[i];
  }

  /** Jumping to the topmost equal element loses no equal element. */
  lemma {:induction false} FocusKeepsEquals<K>(sub: Comparator<K>, e: Entry<K>, t: Tree<K>)
    requires Follows(sub, e, Inorder(t))
    ensures Equals(sub, e, Inorder(Focus(sub, e, t))) == Equals(sub, e, Inorder(t))
    ensures Follows(sub, e, Inorder(Focus(sub, e, t)))
    ensures Focus(sub, e, t).Bin? ==> sub(e, Focus(sub, e, t).cell.AsEntry()) == 0
  {
    if t.Bin? {
      var l, r := Inorder(t.left), Inorder(t.right);
      FollowsAround(sub, e, l, t.cell, r);
      EqualsAround(sub, e, l, t.cell, r);
      if sub(e, t.cell.AsEntry()) < 0 {
        EqualsNone(sub, e, r);
        FocusKeepsEquals(sub, e, t.left);
      } else if sub(e, t.cell.AsEntry()) > 0 {
        EqualsNone(sub, e, l);
        FocusKeepsEquals(sub, e, t.right);
      }
    }
  }

  /** A search succeeds exactly when some element of the tree is equal to `e`, and returns such an element. */
  lemma FocusDecides<K>(sub: Comparator<K>, e: Entry<K>, t: Tree<K>)
    requires Follows(sub, e, Inorder(t))
    ensures Focus(sub, e, t).Bin? ==>
              Focus(sub, e, t).cell in Inorder(t) && sub(e, Focus(sub, e, t).cell.AsEntry()) == 0
    ensures Focus(sub, e, t).Leaf? ==> forall c :: c in Inorder(t) ==> sub(e, c.AsEntry()) != 0
  {
    FocusKeepsEquals(sub, e, t);
    FocusWithin(sub, e, t);
    if Focus(sub, e, t).Leaf? {
      NoEquals(sub, e, Inorder(t));
    }
  }

  lemma {:induction false} NoEquals<K>(sub: Comparator<K>, e: Entry<K>, s: seq<Cell<K>>)
    requires Equals(sub, e, s) == []
    ensures forall c :: c in s ==> sub(e, c.AsEntry()) != 0
  {
    EqualsMembers(sub, e, s);
  }

  lemma {:induction false} FocusWithin<K>(sub: Comparator<K>, e: Entry<K>, t: Tree<K>)
    ensures NodeSet(Focus(sub, e, t)) <= NodeSet(t)
    ensures Focus(sub, e, t).Bin? ==> Focus(sub, e, t).cell in Inorder(t)
    ensures Height(Focus(sub, e, t)) <= Height(t) && Size(Focus(sub, e, t)) <= Size(t)
    ensures Distinct(t) ==> Distinct(Focus(sub, e, t))
  {
    if t.Bin? {
      FocusWithin(sub, e, t.left);
      FocusWithin(sub, e, t.right);
    }
  }

  /** The tree's own comparator follows its order. */
  lemma SortedFollows<K(!new)>(cmp: Comparator<K>, e: Entry<K>, s: seq<Cell<K>>)
    requires IsComparator(cmp) && Sorted(cmp, s)
    ensures Follows(cmp, e, s)
  {
    forall i, j | 0 <= i < j < |s|
      ensures cmp(e, s[i].AsEntry()) < 0 ==> cmp(e, s[j].AsEntry()) < 0
      ensures cmp(e, s[j].AsEntry()) > 0 ==> cmp(e, s[i].AsEntry()) > 0
    {
      var x, y := s[i].AsEntry(), s[j].AsEntry();
      assert Less(cmp, x, y) && cmp(x, y) <= 0;
      assert cmp(y, e) <= 0 ==> cmp(x, e) <= 0;
      assert cmp(e, x) <= 0 ==> cmp(e, y) <= 0;
    }
  }
}
