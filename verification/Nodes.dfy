/** Intrusive tree nodes, the order on them, and ordered sequences of them. */
module Nodes {
  import opened Orders

  /** Which link field plays the part of the macro parameter `leftt`. */
  datatype Side = Left | Right {
    function Other(): Side { if Left? then Right else Left }
  }

  /** A structure holding the link fields an sglib tree uses.
      `addr` is the node's machine address: sglib breaks comparator ties by it. */
  class Node<K> {
    const addr: int
    var key: K
    var left: Node?<K>
    var right: Node?<K>
    var red: bool

    constructor (addr: int, key: K)
      ensures this.addr == addr && this.key == key
      ensures left == null && right == null && !red
    {
      this.addr, this.key := addr, key;
      left, right, red := null, null, false;
    }

    function Child(side: Side): Node?<K>
      reads this
    {
      if side.Left? then left else right
    }
  }

  /** What a comparator may look at: the key and the address. */
  datatype Entry<K> = Entry(key: K, addr: int)

  /** A node together with the key it carries. */
  datatype Cell<K> = Cell(node: Node<K>, key: K) {
    function AsEntry(): Entry<K> { Entry(key, node.addr) }
  }

  type Comparator<!K> = (Entry<K>, Entry<K>) -> int

  /** The order of the tree: the comparator, then the address. */
  predicate Less<K>(cmp: Comparator<K>, x: Entry<K>, y: Entry<K>) {
    cmp(x, y) < 0 || (cmp(x, y) == 0 && x.addr < y.addr)
  }

  ghost predicate Sorted<K>(cmp: Comparator<K>, s: seq<Cell<K>>) {
    forall i, j :: 0 <= i < j < |s| ==> Less(cmp, s[i].AsEntry(), s[j].AsEntry())
  }

  ghost predicate AllBelow<K>(cmp: Comparator<K>, s: seq<Cell<K>>, x: Entry<K>) {
    forall i :: 0 <= i < |s| ==> Less(cmp, s[i].AsEntry(), x)
  }

  ghost predicate AllAbove<K>(cmp: Comparator<K>, x: Entry<K>, s: seq<Cell<K>>) {
    forall i :: 0 <= i < |s| ==> Less(cmp, x, s[i].AsEntry())
  }

  /** `s` with `e` put before the first element that is greater. */
  ghost function Insert<K>(cmp: Comparator<K>, s: seq<Cell<K>>, e: Cell<K>): seq<Cell<K>> {
    if s == [] || Less(cmp, e.AsEntry(), s[0].AsEntry()) then [e] + s
    else [s[0]] + Insert(cmp, s[1..], e)
  }

  /** `s` without the first occurrence of `e`. */
  ghost function Remove<T>(s: seq<T>, e: T): seq<T> {
    if s == [] then [] else if s[0] == e then s[1..] else [s[0]] + Remove(s[1..], e)
  }

  ghost function NodesOf<K>(s: seq<Cell<K>>): set<Node<K>> {
    set c | c in s :: c.node
  }

  ghost predicate DistinctNodes<K>(s: seq<Cell<K>>) {
    forall i, j :: 0 <= i < j < |s| ==> s[i].node != s[j].node
  }

  // ---------- the order ----------

  lemma LessTransitive<K(!new)>(cmp: Comparator<K>, x: Entry<K>, y: Entry<K>, z: Entry<K>)
    requires IsComparator(cmp) && Less(cmp, x, y) && Less(cmp, y, z)
    ensures Less(cmp, x, z)
  {
    assert cmp(x, z) <= 0;
    if cmp(x, z) == 0 {
      assert cmp(z, x) == 0;
      assert cmp(y, x) <= 0 && cmp(z, y) <= 0;
    }
  }

  /** Two entries with different addresses are ordered one way or the other, and never both ways. */
  lemma LessTotal<K(!new)>(cmp: Comparator<K>, x: Entry<K>, y: Entry<K>)
    requires IsComparator(cmp)
    ensures !(Less(cmp, x, y) && Less(cmp, y, x))
    ensures x.addr != y.addr ==> Less(cmp, x, y) || Less(cmp, y, x)
    ensures !Less(cmp, x, y) && !Less(cmp, y, x) <==> cmp(x, y) == 0 && x.addr == y.addr
  {
    assert cmp(x, y) < 0 <==> cmp(y, x) > 0;
    assert cmp(y, x) < 0 <==> cmp(x, y) > 0;
  }

  lemma SortedAround<K>(cmp: Comparator<K>, a: seq<Cell<K>>, x: Cell<K>, b: seq<Cell<K>>)
    ensures Sorted(cmp, a + [x] + b) ==>
              Sorted(cmp, a) && Sorted(cmp, b) && AllBelow(cmp, a, x.AsEntry()) && AllAbove(cmp, x.AsEntry(), b)
  {
    var s := a + [x] + b;
    if Sorted(cmp, s) {
      assert s[|a|] == x;
      assert forall i :: 0 <= i < |a| ==> s[i] == a[i];
      assert forall i {:trigger b[i]} :: 0 <= i < |b| ==> s[|a| + 1 + i] == b[i];
    }
  }

  lemma {:induction false} InsertAfterAllBelow<K(!new)>(
      cmp: Comparator<K>, a: seq<Cell<K>>, b: seq<Cell<K>>, e: Cell<K>)
    requires IsComparator(cmp) && AllBelow(cmp, a, e.AsEntry())
    ensures Insert(cmp, a + b, e) == a + Insert(cmp, b, e)
  {
    if a == [] {
      assert a + b == b;
    } else {
      LessTotal(cmp, a[0].AsEntry(), e.AsEntry());
      assert (a + b)[1..] == a[1..] + b;
      InsertAfterAllBelow(cmp, a[1..], b, e);
    }
  }

  lemma {:induction false} InsertBefore<K>(cmp: Comparator<K>, a: seq<Cell<K>>, x: Cell<K>, b: seq<Cell<K>>, e: Cell<K>)
    requires Less(cmp, e.AsEntry(), x.AsEntry())
    ensures Insert(cmp, a + [x] + b, e) == Insert(cmp, a, e) + [x] + b
  {
    var s := a + [x] + b;
    if a == [] {
      assert s == [x] + b;
    } else {
      assert s[1..] == a[1..] + [x] + b;
      InsertBefore(cmp, a[1..], x, b, e);
    }
  }

  /** Insertion splits the sequence at one position. */
  lemma {:induction false} InsertAt<K>(cmp: Comparator<K>, s: seq<Cell<K>>, e: Cell<K>) returns (p: nat)
    ensures p <= |s| && Insert(cmp, s, e) == s[..p] + [e] + s[p..]
  {
    if s == [] || Less(cmp, e.AsEntry(), s[0].AsEntry()) {
      p := 0;
    } else {
      var q := InsertAt(cmp, s[1..], e);
      p := q + 1;
    }
  }

  lemma InsertMembers<K>(cmp: Comparator<K>, s: seq<Cell<K>>, e: Cell<K>)
    ensures multiset(Insert(cmp, s, e)) == multiset(s) + multiset{e}
    ensures forall c :: c in Insert(cmp, s, e) ==> c in s || c == e
    ensures (set c | c in Insert(cmp, s, e)) == (set c | c in s) + {e}
  {
    var p := InsertAt(cmp, s, e);
    assert s == s[..p] + s[p..];
  }

  /** Insertion keeps a sequence sorted: `e` goes to its only possible place. */
  lemma {:induction false} InsertSorted<K(!new)>(cmp: Comparator<K>, s: seq<Cell<K>>, e: Cell<K>)
    requires IsComparator(cmp) && Sorted(cmp, s)
    requires forall i :: 0 <= i < |s| ==> s[i].node.addr != e.node.addr
    ensures Sorted(cmp, Insert(cmp, s, e))
  {
    if s == [] {
    } else if Less(cmp, e.AsEntry(), s[0].AsEntry()) {
      forall i | 1 <= i < |s| ensures Less(cmp, e.AsEntry(), s[i].AsEntry()) {
        LessTransitive(cmp, e.AsEntry(), s[0].AsEntry(), s[i].AsEntry());
      }
    } else {
      LessTotal(cmp, s[0].AsEntry(), e.AsEntry());
      var rest := Insert(cmp, s[1..], e);
      InsertSorted(cmp, s[1..], e);
      InsertMembers(cmp, s[1..], e);
      forall i | 0 <= i < |rest| ensures Less(cmp, s[0].AsEntry(), rest[i].AsEntry()) {
        assert rest[i] in rest;
        if rest[i] != e {
          var j :| 0 <= j < |s[1..]| && s[1..][j] == rest[i];
          assert s[j + 1] == rest[i];
        }
      }
    }
  }

  lemma {:induction false} RemoveLeft<T>(a: seq<T>, b: seq<T>, e: T)
    requires e in a
    ensures Remove(a + b, e) == Remove(a, e) + b
  {
    assert (a + b)[1..] == a[1..] + b;
    if a[0] != e {
      RemoveLeft(a[1..], b, e);
    }
  }

  lemma {:induction false} RemoveRight<T>(a: seq<T>, b: seq<T>, e: T)
    requires e !in a
    ensures Remove(a + b, e) == a + Remove(b, e)
  {
    if a == [] {
      assert a + b == b;
    } else {
      assert (a + b)[1..] == a[1..] + b;
      RemoveRight(a[1..], b, e);
    }
  }

  /** Removal drops one position, which holds `e`, and keeps the others in place. */
  lemma {:induction false} RemoveAt<T>(s: seq<T>, e: T) returns (p: nat)
    requires e in s
    ensures p < |s| && s[p] == e
    ensures Remove(s, e) == s[..p] + s[p + 1..]
  {
    if s[0] == e {
      p := 0;
    } else {
      var q := RemoveAt(s[1..], e);
      p := q + 1;
      assert s[..p] + s[p + 1..] == [s[0]] + (s[1..][..q] + s[1..][q + 1..]);
    }
  }

  /** Removal of a member leaves a sorted sequence with exactly that member gone. */
  lemma RemoveSorted<K>(cmp: Comparator<K>, s: seq<Cell<K>>, e: Cell<K>)
    requires Sorted(cmp, s) && e in s
    ensures Sorted(cmp, Remove(s, e))
    ensures multiset(Remove(s, e)) == multiset(s) - multiset{e}
  {
    var p := RemoveAt(s, e);
    assert s == s[..p] + [e] + s[p + 1..];
  }

  /** The search path: a member lies on the side its order says, a member neither less nor
      greater than `c` is `c`, and removing it leaves the other parts alone. */
  lemma RemoveAround<K(!new)>(cmp: Comparator<K>, l: seq<Cell<K>>, c: Cell<K>, r: seq<Cell<K>>, e: Cell<K>)
    requires IsComparator(cmp) && AllBelow(cmp, l, c.AsEntry()) && AllAbove(cmp, c.AsEntry(), r)
    requires e in l + [c] + r
    ensures Less(cmp, e.AsEntry(), c.AsEntry()) ==> e in l
    ensures Less(cmp, c.AsEntry(), e.AsEntry()) ==> e in r
    ensures !Less(cmp, e.AsEntry(), c.AsEntry()) && !Less(cmp, c.AsEntry(), e.AsEntry()) ==> e == c
    ensures Remove(l + [c] + r, e) ==
            if Less(cmp, e.AsEntry(), c.AsEntry()) then Remove(l, e) + [c] + r
            else if Less(cmp, c.AsEntry(), e.AsEntry()) then l + [c] + Remove(r, e)
            else l + r
  {
    LessTotal(cmp, e.AsEntry(), c.AsEntry());
    LessTotal(cmp, c.AsEntry(), c.AsEntry());
    assert l + [c] + r == l + ([c] + r);
    if e in l {
      RemoveLeft(l, [c] + r, e);
    } else if e == c {
      RemoveRight(l, [c] + r, e);
    } else {
      RemoveRight(l + [c], r, e);
    }
  }

  // ---------- the nodes of a sequence ----------

  lemma ConcatNodes<K>(a: seq<Cell<K>>, c: Cell<K>, b: seq<Cell<K>>)
    ensures NodesOf(a + [c] + b) == NodesOf(a) + {c.node} + NodesOf(b)
    ensures DistinctNodes(a + [c] + b) <==>
              && DistinctNodes(a) && DistinctNodes(b) && c.node !in NodesOf(a) && c.node !in NodesOf(b)
              && NodesOf(a) !! NodesOf(b)
  {
    AppendNodes(a, [c]);
    AppendNodes(a + [c], b);
    assert NodesOf([c]) == {c.node} by { assert c in [c]; }
  }

  lemma AppendNodes<K>(a: seq<Cell<K>>, b: seq<Cell<K>>)
    ensures NodesOf(a + b) == NodesOf(a) + NodesOf(b)
    ensures DistinctNodes(a + b) <==> DistinctNodes(a) && DistinctNodes(b) && NodesOf(a) !! NodesOf(b)
  {
    var s := a + b;
    assert forall c :: c in s <==> c in a || c in b;
    if DistinctNodes(s) {
      forall i, j | 0 <= i < j < |a| ensures a[i].node != a[j].node {
        assert s[i].node != s[j].node;
      }
      forall i, j | 0 <= i < |a| && 0 <= j < |b| ensures a[i].node != b[j].node {
        assert s[i].node != s[|a| + j].node;
      }
      forall i, j | 0 <= i < j < |b| ensures b[i].node != b[j].node {
        assert s[|a| + i].node != s[|a| + j].node;
      }
    }
    if DistinctNodes(a) && DistinctNodes(b) && NodesOf(a) !! NodesOf(b) {
      forall i, j | 0 <= i < j < |s| ensures s[i].node != s[j].node {
        if j < |a| {
          assert s[i] == a[i] && s[j] == a[j];
        } else if i < |a| {
          assert s[i] in a && s[j] in b;
          assert s[i].node in NodesOf(a) && s[j].node in NodesOf(b);
        } else {
          assert s[i] == b[i - |a|] && s[j] == b[j - |a|];
        }
      }
    }
  }

  lemma InsertNodes<K>(cmp: Comparator<K>, s: seq<Cell<K>>, e: Cell<K>)
    ensures NodesOf(Insert(cmp, s, e)) == NodesOf(s) + {e.node}
    ensures DistinctNodes(s) && e.node !in NodesOf(s) ==> DistinctNodes(Insert(cmp, s, e))
  {
    var p := InsertAt(cmp, s, e);
    assert s == s[..p] + s[p..];
    AppendNodes(s[..p], s[p..]);
    ConcatNodes(s[..p], e, s[p..]);
  }

  lemma RemoveNodes<K>(s: seq<Cell<K>>, e: Cell<K>)
    requires DistinctNodes(s) && e in s
    ensures NodesOf(Remove(s, e)) == NodesOf(s) - {e.node}
    ensures DistinctNodes(Remove(s, e))
  {
    var p := RemoveAt(s, e);
    assert s == s[..p] + [e] + s[p + 1..];
    ConcatNodes(s[..p], e, s[p + 1..]);
    AppendNodes(s[..p], s[p + 1..]);
  }
}
