/** The heap sort of sglib. */
module HeapSorts {
  import opened Orders
  import opened Exchanges

  function Parent(c: int): int { (c - 1) / 2 }

  /** Below `max`, every place whose parent is from `lo` on and is not `hole` is at most its parent. */
  ghost predicate HeapBut<T>(cmp: (T, T) -> int, s: seq<T>, lo: int, max: int, hole: int) {
    forall c :: 1 <= c < max <= |s| && lo <= Parent(c) && Parent(c) != hole ==> cmp(s[Parent(c)], s[c]) >= 0
  }

  /** The children of `hole` are at most its parent, if that is from `lo` on. */
  ghost predicate Bridged<T>(cmp: (T, T) -> int, s: seq<T>, lo: int, max: int, hole: int) {
    1 <= hole < |s| && lo <= Parent(hole) ==>
      forall c :: 1 <= c < max <= |s| && Parent(c) == hole ==> cmp(s[Parent(hole)], s[c]) >= 0
  }

  ghost predicate Heap<T>(cmp: (T, T) -> int, s: seq<T>, lo: int, max: int) {
    HeapBut(cmp, s, lo, max, -1)
  }

  /** `x` is at least as great as the children of `i`. */
  ghost predicate Dominates<T>(cmp: (T, T) -> int, s: seq<T>, max: int, x: T, i: int) {
    forall c :: 1 <= c < max <= |s| && Parent(c) == i ==> cmp(x, s[c]) >= 0
  }

  /** The greatest of a place and its children below `max`. */
  method Greatest<T(!new)>(a: array<T>, cmp: (T, T) -> int, i: int, max: int) returns (m: int)
    requires IsComparator(cmp) && 0 <= i && max <= a.Length
    ensures m == i || (Parent(m) == i && i < m < max && cmp(a[i], a[m]) < 0)
    ensures i < max ==> Dominates(cmp, a[..], max, a[m], i)
  {
    m := i;
    var l := 2 * i + 1;
    var r := l + 1;
    if l < max {
      if cmp(a[m], a[l]) < 0 {
        m := l;
      }
      if r < max {
        if cmp(a[m], a[r]) < 0 {
          m := r;
        }
      }
    }
    assert forall c :: 1 <= c && Parent(c) == i ==> c == l || c == r;
  }

  lemma SiftStep<T(!new)>(cmp: (T, T) -> int, s: seq<T>, lo: int, max: int, i: int, m: int)
    requires IsComparator(cmp) && 0 <= lo <= i < m < max <= |s| && Parent(m) == i && cmp(s[i], s[m]) < 0
    requires HeapBut(cmp, s, lo, max, i) && Bridged(cmp, s, lo, max, i) && Dominates(cmp, s, max, s[m], i)
    ensures HeapBut(cmp, Swapped(s, i, m), lo, max, m) && Bridged(cmp, Swapped(s, i, m), lo, max, m)
  {
    var s' := Swapped(s, i, m);
    forall c | 1 <= c < max && lo <= Parent(c) && Parent(c) != m ensures cmp(s'[Parent(c)], s'[c]) >= 0 {
      if Parent(c) == i {
        assert c == m || s'[c] == s[c];
      } else if c == i {
        assert cmp(s[Parent(i)], s[m]) >= 0;
      }
    }
  }

  /** Sinks the element at `ind` to its place in the heap. */
  method HeapDown<T(!new), U>(a: array<T>, b: array<U>, cmp: (T, T) -> int, ind: int, max: int)
    returns (ghost p: seq<int>)
    requires IsComparator(cmp) && 0 <= ind <= max <= a.Length == b.Length && a as object != b
    requires HeapBut(cmp, a[..], ind, max, ind)
    modifies a, b
    ensures BothShuffled(a[..], old(a[..]), b[..], old(b[..]), p, 0, max)
    ensures Heap(cmp, a[..], ind, max)
  {
    p := Identity(a.Length);
    var m := ind;
    var again := true;
    while again
      invariant ind <= m <= max
      invariant BothShuffled(a[..], old(a[..]), b[..], old(b[..]), p, 0, max)
      invariant if again then HeapBut(cmp, a[..], ind, max, m) && Bridged(cmp, a[..], ind, max, m)
                else Heap(cmp, a[..], ind, max)
      decreases again, max - m
    {
      var i := m;
      m := Greatest(a, cmp, i, max);
      if m != i {
        SiftStep(cmp, a[..], ind, max, i, m);
        p := ExchangeWithin(a, b, i, m, old(a[..]), old(b[..]), p, 0, max);
      }
      again := m != i;
    }
  }

  lemma {:induction false} RootIsGreatest<T(!new)>(cmp: (T, T) -> int, s: seq<T>, max: int, x: int)
    requires IsComparator(cmp) && Heap(cmp, s, 0, max) && 0 <= x < max <= |s|
    ensures cmp(s[0], s[x]) >= 0
    decreases x
  {
    if x > 0 {
      RootIsGreatest(cmp, s, max, Parent(x));
      assert cmp(s[Parent(x)], s[x]) >= 0;
    }
  }

  /** The places from `k` on are in order, and nothing before `k` is greater than any of them. */
  ghost predicate SortedFrom<T>(cmp: (T, T) -> int, s: seq<T>, k: int) {
    forall x, y :: 0 <= x < y < |s| && k <= y ==> cmp(s[x], s[y]) <= 0
  }

  /** Exchanging the root with the last place of the heap makes that place final. */
  lemma RootToEnd<T(!new)>(cmp: (T, T) -> int, s: seq<T>, k: int)
    requires IsComparator(cmp) && 0 <= k < |s| && Heap(cmp, s, 0, k + 1) && SortedFrom(cmp, s, k + 1)
    ensures SortedFrom(cmp, Swapped(s, 0, k), k) && HeapBut(cmp, Swapped(s, 0, k), 0, k, 0)
  {
    var s' := Swapped(s, 0, k);
    forall x, y | 0 <= x < y < |s| && k <= y ensures cmp(s'[x], s'[y]) <= 0 {
      if y == k {
        RootIsGreatest(cmp, s, k + 1, if x == 0 then k else x);
      }
    }
    forall c | 1 <= c < k && Parent(c) != 0 ensures cmp(s'[Parent(c)], s'[c]) >= 0 {
      assert cmp(s[Parent(c)], s[c]) >= 0;
    }
  }

  /** Sinking inside the heap keeps the final places. */
  lemma ShuffledSortedFrom<T>(cmp: (T, T) -> int, s: seq<T>, s0: seq<T>, p: seq<int>, k: int)
    requires 0 <= k <= |s| && SortedFrom(cmp, s0, k) && Shuffled(s, s0, p, 0, k)
    ensures SortedFrom(cmp, s, k)
  {
    forall x, y | 0 <= x < y < |s| && k <= y ensures cmp(s[x], s[y]) <= 0 {
      if x < k {
        ShuffledStays(s, s0, p, 0, k, x);
      }
    }
  }

  /** Sorts `a` and rearranges the companion `b` alike. */
  method HeapSort<T(!new), U>(a: array<T>, b: array<U>, cmp: (T, T) -> int) returns (ghost p: seq<int>)
    requires IsComparator(cmp) && a as object != b && a.Length == b.Length
    modifies a, b
    ensures Ascending(cmp, a[..])
    ensures Rearranged(a[..], old(a[..]), p) && Rearranged(b[..], old(b[..]), p)
  {
    var max := a.Length;
    p := Identity(max);
    IdentityPermutes(a[..]);
    IdentityPermutes(b[..]);
    var k := max / 2;
    while k >= 0
      invariant -1 <= k <= max / 2
      invariant Heap(cmp, a[..], k + 1, max)
      invariant Rearranged(a[..], old(a[..]), p) && Rearranged(b[..], old(b[..]), p)
    {
      p := Sink(a, b, cmp, k, max, old(a[..]), old(b[..]), p);
      k := k - 1;
    }
    k := max - 1;
    while k >= 0
      invariant -1 <= k < max
      invariant Heap(cmp, a[..], 0, k + 1) && SortedFrom(cmp, a[..], k + 1)
      invariant Rearranged(a[..], old(a[..]), p) && Rearranged(b[..], old(b[..]), p)
    {
      p := TakeRoot(a, b, cmp, k, old(a[..]), old(b[..]), p);
      k := k - 1;
    }
  }

  /** The body of the first loop. */
  method Sink<T(!new), U>(a: array<T>, b: array<U>, cmp: (T, T) -> int, k: int, max: int,
                          ghost s0: seq<T>, ghost t0: seq<U>, ghost p0: seq<int>)
    returns (ghost p: seq<int>)
    requires IsComparator(cmp) && 0 <= k <= max == a.Length == b.Length && a as object != b
    requires Heap(cmp, a[..], k + 1, max) && Rearranged(a[..], s0, p0) && Rearranged(b[..], t0, p0)
    modifies a, b
    ensures Heap(cmp, a[..], k, max) && Rearranged(a[..], s0, p) && Rearranged(b[..], t0, p)
  {
    ghost var s1, t1 := a[..], b[..];
    var q := HeapDown(a, b, cmp, k, max);
    RearrangedTwice(a[..], s1, s0, q, p0);
    RearrangedTwice(b[..], t1, t0, q, p0);
    p := Compose(p0, q);
  }

  /** The body of the second loop. */
  method TakeRoot<T(!new), U>(a: array<T>, b: array<U>, cmp: (T, T) -> int, k: int,
                              ghost s0: seq<T>, ghost t0: seq<U>, ghost p0: seq<int>)
    returns (ghost p: seq<int>)
    requires IsComparator(cmp) && 0 <= k < a.Length == b.Length && a as object != b
    requires Heap(cmp, a[..], 0, k + 1) && SortedFrom(cmp, a[..], k + 1)
    requires Rearranged(a[..], s0, p0) && Rearranged(b[..], t0, p0)
    modifies a, b
    ensures Heap(cmp, a[..], 0, k) && SortedFrom(cmp, a[..], k)
    ensures Rearranged(a[..], s0, p) && Rearranged(b[..], t0, p)
  {
    RootToEnd(cmp, a[..], k);
    SwapRearranges(a[..], s0, p0, 0, k);
    SwapRearranges(b[..], t0, p0, 0, k);
    Exchange(a, b, 0, k);
    ghost var s1, t1, p1 := a[..], b[..], Swapped(p0, 0, k);
    var q := HeapDown(a, b, cmp, 0, k);
    ShuffledSortedFrom(cmp, a[..], s1, q, k);
    RearrangedTwice(a[..], s1, s0, q, p1);
    RearrangedTwice(b[..], t1, t0, q, p1);
    p := Compose(p1, q);
  }
}
