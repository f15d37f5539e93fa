/** The bottom-up merge sort of sglib, which relinks list nodes. */
module ListSorts {
  import opened Orders

  class ListNode<K> {
    const key: K
    var next: ListNode?<K>

    constructor (key: K)
      ensures this.key == key && next == null
    {
      this.key := key;
      next := null;
    }
  }

  // ---------- what a merge and a pass make of the sequence of nodes ----------

  ghost predicate SortedRun<K>(cmp: (K, K) -> int, s: seq<ListNode<K>>) {
    forall i, j :: 0 <= i < j < |s| ==> cmp(s[i].key, s[j].key) <= 0
  }

  ghost function Merged<K>(cmp: (K, K) -> int, a: seq<ListNode<K>>, b: seq<ListNode<K>>): seq<ListNode<K>>
    decreases |a| + |b|
  {
    if a == [] then b
    else if b == [] then a
    else if cmp(a[0].key, b[0].key) < 0 then [a[0]] + Merged(cmp, a[1..], b)
    else [b[0]] + Merged(cmp, a, b[1..])
  }

  ghost function Min(x: int, y: int): int { if x < y then x else y }

  /** Merges runs of length `n` two by two; a last part shorter than a run stays as it is. */
  ghost function Passed<K>(cmp: (K, K) -> int, s: seq<ListNode<K>>, n: nat): seq<ListNode<K>>
    requires n > 0
    decreases |s|
  {
    if |s| < n then s
    else
      var m := Min(2 * n, |s|);
      Merged(cmp, s[..n], s[n..m]) + Passed(cmp, s[m..], n)
  }

  lemma {:induction false} MergedElements<K>(cmp: (K, K) -> int, a: seq<ListNode<K>>, b: seq<ListNode<K>>)
    ensures multiset(Merged(cmp, a, b)) == multiset(a) + multiset(b)
    ensures |Merged(cmp, a, b)| == |a| + |b|
    decreases |a| + |b|
  {
    if a != [] && b != [] {
      if cmp(a[0].key, b[0].key) < 0 {
        MergedElements(cmp, a[1..], b);
        HeadFirst(a);
        HeadFirst([a[0]] + Merged(cmp, a[1..], b));
      } else {
        MergedElements(cmp, a, b[1..]);
        HeadFirst(b);
        HeadFirst([b[0]] + Merged(cmp, a, b[1..]));
      }
    }
  }

  lemma HeadFirst<T>(s: seq<T>)
    requires s != []
    ensures multiset(s) == multiset{s[0]} + multiset(s[1..])
  {
    assert s == [s[0]] + s[1..];
  }

  lemma {:induction false} PassedElements<K>(cmp: (K, K) -> int, s: seq<ListNode<K>>, n: nat)
    requires n > 0
    ensures multiset(Passed(cmp, s, n)) == multiset(s) && |Passed(cmp, s, n)| == |s|
    decreases |s|
  {
    if |s| >= n {
      var m := Min(2 * n, |s|);
      MergedElements(cmp, s[..n], s[n..m]);
      PassedElements(cmp, s[m..], n);
      assert s == s[..n] + s[n..m] + s[m..];
    }
  }

  lemma {:induction false} MergedSorted<K(!new)>(cmp: (K, K) -> int, a: seq<ListNode<K>>, b: seq<ListNode<K>>)
    requires IsComparator(cmp) && SortedRun(cmp, a) && SortedRun(cmp, b)
    ensures SortedRun(cmp, Merged(cmp, a, b))
    decreases |a| + |b|
  {
    if a != [] && b != [] {
      if cmp(a[0].key, b[0].key) < 0 {
        MergedSorted(cmp, a[1..], b);
        HeadBelow(cmp, a[0], a[1..], b);
      } else {
        MergedSorted(cmp, a, b[1..]);
        HeadBelow(cmp, b[0], a, b[1..]);
      }
    }
  }

  /** An element at most all of `a` and the first of `b` is at most everything merged from them. */
  lemma HeadBelow<K(!new)>(cmp: (K, K) -> int, x: ListNode<K>, a: seq<ListNode<K>>, b: seq<ListNode<K>>)
    requires forall i :: 0 <= i < |a| ==> cmp(x.key, a[i].key) <= 0
    requires forall i :: 0 <= i < |b| ==> cmp(x.key, b[i].key) <= 0
    requires SortedRun(cmp, Merged(cmp, a, b))
    ensures SortedRun(cmp, [x] + Merged(cmp, a, b))
  {
    var m := Merged(cmp, a, b);
    MergedElements(cmp, a, b);
    forall i | 0 <= i < |m| ensures cmp(x.key, m[i].key) <= 0 {
      assert m[i] in multiset(m);
      assert m[i] in a || m[i] in b;
    }
  }

  /** Consecutive runs of length `n` are sorted. */
  ghost predicate Runs<K>(cmp: (K, K) -> int, s: seq<ListNode<K>>, n: nat)
    requires n > 0
    decreases |s|
  {
    if |s| <= n then SortedRun(cmp, s) else SortedRun(cmp, s[..n]) && Runs(cmp, s[n..], n)
  }

  /** A pass doubles the length of the sorted runs. */
  lemma {:induction false} PassDoublesRuns<K(!new)>(cmp: (K, K) -> int, s: seq<ListNode<K>>, n: nat)
    requires IsComparator(cmp) && n > 0 && Runs(cmp, s, n)
    ensures Runs(cmp, Passed(cmp, s, n), 2 * n)
    decreases |s|
  {
    if |s| >= n {
      var m := Min(2 * n, |s|);
      var a, b, rest := s[..n], s[n..m], s[m..];
      RunsSplit(cmp, s, n);
      MergedSorted(cmp, a, b);
      MergedElements(cmp, a, b);
      PassDoublesRuns(cmp, rest, n);
      PassedElements(cmp, rest, n);
      var merged, tail := Merged(cmp, a, b), Passed(cmp, rest, n);
      if rest == [] {
        assert merged + tail == merged;
      } else {
        assert (merged + tail)[..2 * n] == merged;
        assert (merged + tail)[2 * n..] == tail;
      }
    }
  }

  lemma RunsSplit<K>(cmp: (K, K) -> int, s: seq<ListNode<K>>, n: nat)
    requires n > 0 && Runs(cmp, s, n) && |s| >= n
    ensures var m := Min(2 * n, |s|);
            SortedRun(cmp, s[..n]) && SortedRun(cmp, s[n..m]) && Runs(cmp, s[m..], n)
  {
    var m := Min(2 * n, |s|);
    if |s| == n {
      assert s[..n] == s;
    } else {
      var t := s[n..];
      if |t| <= n {
        assert s[n..m] == t;
      } else {
        assert s[n..m] == t[..n] && s[m..] == t[n..];
      }
    }
  }

  /** Passes over runs of doubling length until one pass finds less than one run. */
  ghost function Sorting<K>(cmp: (K, K) -> int, s: seq<ListNode<K>>, n: nat): seq<ListNode<K>>
    requires n > 0
    decreases |s| - n
  {
    if |s| < n then Passed(cmp, s, n)
    else
      PassedElements(cmp, s, n);
      Sorting(cmp, Passed(cmp, s, n), 2 * n)
  }

  /** The whole sort: exactly the same nodes, in comparator order. */
  lemma {:induction false} SortingSorts<K(!new)>(cmp: (K, K) -> int, s: seq<ListNode<K>>, n: nat)
    requires IsComparator(cmp) && n > 0 && Runs(cmp, s, n)
    ensures SortedRun(cmp, Sorting(cmp, s, n)) && multiset(Sorting(cmp, s, n)) == multiset(s)
    decreases |s| - n
  {
    if |s| >= n {
      PassedElements(cmp, s, n);
      PassDoublesRuns(cmp, s, n);
      SortingSorts(cmp, Passed(cmp, s, n), 2 * n);
    }
  }

  lemma {:induction false} RunsOfOne<K>(cmp: (K, K) -> int, s: seq<ListNode<K>>)
    ensures Runs(cmp, s, 1)
    decreases |s|
  {
    if |s| > 1 {
      RunsOfOne(cmp, s[1..]);
    }
  }

  // ---------- linked nodes ----------

  ghost predicate NoDup<K>(s: seq<ListNode<K>>) {
    forall i, j :: 0 <= i < j < |s| ==> s[i] != s[j]
  }

  ghost function Head<K>(s: seq<ListNode<K>>): ListNode?<K> {
    if s == [] then null else s[0]
  }

  /** Each node points to the following one, the last to nothing. */
  ghost predicate Chain<K>(s: seq<ListNode<K>>)
    reads s
  {
    forall i {:trigger s[i]} :: 0 <= i < |s| ==> s[i].next == if i + 1 < |s| then s[i + 1] else null
  }

  ghost predicate IsList<K>(head: ListNode?<K>, s: seq<ListNode<K>>)
    reads s
  {
    head == Head(s) && Chain(s) && NoDup(s)
  }

  ghost predicate Disjoint<K>(s: seq<ListNode<K>>, t: seq<ListNode<K>>) {
    forall x :: x in s ==> x !in t
  }

  /** The result so far: `last` is its last node, whose link is the `*_restail_` still to be written;
      while there is no result, `r` itself is. */
  ghost predicate Result<K>(r: ListNode?<K>, last: ListNode?<K>, s: seq<ListNode<K>>)
    reads s
  {
    && NoDup(s)
    && (forall i :: 0 <= i < |s| - 1 ==> s[i].next == s[i + 1])
    && if s == [] then last == null else r == s[0] && last == s[|s| - 1]
  }

  /** `for(i = 1, t = a; i < n && t != NULL; i++, t = t->next)` */
  method Walk<K>(a: ListNode?<K>, n: nat, ghost s: seq<ListNode<K>>) returns (t: ListNode?<K>)
    requires n > 0 && IsList(a, s)
    ensures t == if n <= |s| then s[n - 1] else null
  {
    t := a;
    var i := 1;
    while i < n && t != null
      invariant 1 <= i <= n
      invariant t == if i <= |s| then s[i - 1] else null
    {
      assert t == s[i - 1];
      assert s[i - 1].next == if i < |s| then s[i] else null;
      i := i + 1;
      t := t.next;
    }
  }

  /** Ends the list at its node number `n`; `rest` is what followed. */
  method CutAfter<K>(t: ListNode<K>, n: nat, ghost s: seq<ListNode<K>>) returns (rest: ListNode?<K>)
    requires 0 < n <= |s| && IsList(Head(s), s) && t == s[n - 1]
    modifies t
    ensures IsList(Head(s[..n]), s[..n]) && IsList(rest, s[n..]) && Disjoint(s[..n], s[n..])
  {
    ghost var low, high := s[..n], s[n..];
    Halves(s, n);
    assert allocated(high);
    EndOfChain(s, n - 1);
    rest := t.next;
    t.next := null;
    assert Chain(high);
    forall i | 0 <= i < |low| ensures low[i].next == if i + 1 < |low| then low[i + 1] else null {
      assert low[i] == s[i];
      assert i + 1 < |low| ==> s[i] != t;
    }
  }

  /** A list in two, before the cut. */
  lemma Halves<K>(s: seq<ListNode<K>>, n: nat)
    requires 0 < n <= |s| && Chain(s) && NoDup(s)
    ensures var low, high := s[..n], s[n..];
            && NoDup(low) && NoDup(high) && Disjoint(low, high) && Chain(high) && s[n - 1] !in high
            && (forall i {:trigger s[i]} :: 0 <= i < n - 1 ==> s[i] != s[n - 1] && s[i].next == s[i + 1])
  {
    var high := s[n..];
    forall i, j | 0 <= i < j < |high| ensures high[i] != high[j] {
      assert s[n + i] != s[n + j];
    }
    forall i | 0 <= i < |high| ensures high[i].next == if i + 1 < |high| then high[i + 1] else null {
      var k := n + i;
      assert high[i] == s[k] && s[k].next == if k + 1 < |s| then s[k + 1] else null;
    }
  }

  /** `*_restail_ = x;  _restail_ = &(x->next)` */
  method Take<K>(r0: ListNode?<K>, last0: ListNode?<K>, x: ListNode<K>, ghost s: seq<ListNode<K>>)
    returns (r: ListNode<K>)
    requires Result(r0, last0, s) && x !in s
    modifies if last0 != null then {last0} else {}
    ensures Result(r, x, s + [x])
  {
    if last0 == null {
      r := x;
    } else {
      last0.next := x;
      r := r0;
    }
  }

  /** What a pass still holds: the result, two runs, and the rest of the list, all apart. */
  ghost predicate Parts<K>(res: seq<ListNode<K>>, a: seq<ListNode<K>>, b: seq<ListNode<K>>, todo: seq<ListNode<K>>) {
    && Disjoint(res, a) && Disjoint(res, b) && Disjoint(res, todo)
    && Disjoint(a, b) && Disjoint(a, todo) && Disjoint(b, todo)
  }

  ghost predicate Merging<K>(r: ListNode?<K>, last: ListNode?<K>, a: ListNode?<K>, b: ListNode?<K>,
                             res: seq<ListNode<K>>, as_: seq<ListNode<K>>, bs: seq<ListNode<K>>, todo: seq<ListNode<K>>)
    reads res, as_, bs, todo
  {
    Result(r, last, res) && IsList(a, as_) && IsList(b, bs) && Chain(todo) && NoDup(todo) && Parts(res, as_, bs, todo)
  }

  /** One step of the merge: the front of `a` goes to the end of the result. */
  method TakeFront<K>(r0: ListNode?<K>, last0: ListNode?<K>, a0: ListNode<K>, ghost b: ListNode?<K>,
                      ghost res: seq<ListNode<K>>, ghost as_: seq<ListNode<K>>, ghost bs: seq<ListNode<K>>,
                      ghost todo: seq<ListNode<K>>)
    returns (r: ListNode<K>, a: ListNode?<K>)
    requires Merging(r0, last0, a0, b, res, as_, bs, todo)
    modifies res
    ensures Merging(r, a0, a, b, res + [a0], as_[1..], bs, todo)
  {
    ListTail(a0, as_);
    PartsTail(res, as_, bs, todo);
    assert last0 != null ==> last0 in res;
    hide Parts, Result, NoDup;
    a := a0.next;
    r := Take(r0, last0, a0, res);
  }

  lemma PartsTail<K>(res: seq<ListNode<K>>, a: seq<ListNode<K>>, b: seq<ListNode<K>>, todo: seq<ListNode<K>>)
    requires Parts(res, a, b, todo) && a != [] && NoDup(a)
    ensures Parts(res + [a[0]], a[1..], b, todo) && a[0] !in res
    ensures Disjoint(res, a[1..]) && Disjoint(res, b) && Disjoint(res, todo)
  {
    assert a[0] in a;
  }

  lemma ListTail<K>(a: ListNode?<K>, s: seq<ListNode<K>>)
    requires a != null && IsList(a, s)
    ensures s != [] && a == s[0] && IsList(a.next, s[1..]) && a !in s[1..]
  {
    var rest := s[1..];
    forall i | 0 <= i < |rest| ensures rest[i].next == if i + 1 < |rest| then rest[i + 1] else null {
      assert rest[i] == s[i + 1];
    }
  }

  /** `*_restail_ = x`: the rest of the list follows the result. */
  method AppendRest<K>(r0: ListNode?<K>, last: ListNode?<K>, x: ListNode?<K>, ghost res: seq<ListNode<K>>,
                       ghost xs: seq<ListNode<K>>)
    returns (r: ListNode?<K>)
    requires Result(r0, last, res) && IsList(x, xs) && Disjoint(res, xs)
    modifies if last != null then {last} else {}
    ensures IsList(r, res + xs)
  {
    if last == null {
      assert res + xs == xs;
      r := x;
    } else {
      NoDupConcat(res, xs);
      assert last in res;
      last.next := x;
      r := r0;
      ChainConcat(res, x, xs);
    }
  }

  lemma NoDupConcat<K>(s: seq<ListNode<K>>, t: seq<ListNode<K>>)
    requires NoDup(s) && NoDup(t) && Disjoint(s, t)
    ensures NoDup(s + t)
  {
    var u := s + t;
    forall i, j | 0 <= i < j < |u| ensures u[i] != u[j] {
      if i < |s| <= j {
        assert u[i] in s && u[j] in t;
      } else if i < |s| {
        assert u[i] == s[i] && u[j] == s[j];
      } else {
        assert u[i] == t[i - |s|] && u[j] == t[j - |s|];
      }
    }
  }

  lemma ChainConcat<K>(s: seq<ListNode<K>>, x: ListNode?<K>, t: seq<ListNode<K>>)
    requires s != [] && Chain(t) && x == Head(t) && s[|s| - 1].next == x
    requires forall i :: 0 <= i < |s| - 1 ==> s[i].next == s[i + 1]
    ensures Chain(s + t)
  {
    var u := s + t;
    forall i | 0 <= i < |u| ensures u[i].next == if i + 1 < |u| then u[i + 1] else null {
      if i >= |s| {
        var k := i - |s|;
        assert u[i] == t[k] && t[k].next == if k + 1 < |t| then t[k + 1] else null;
      }
    }
  }

  lemma EndOfChain<K>(s: seq<ListNode<K>>, i: int)
    requires Chain(s) && 0 <= i < |s|
    ensures s[i].next == null <==> i == |s| - 1
    ensures i < |s| - 1 ==> s[i].next == s[i + 1]
  {
  }

  /** `while(*_restail_ != NULL) _restail_ = &((*_restail_)->next)` */
  method ToEnd<K>(r: ListNode?<K>, last0: ListNode?<K>, ghost s: seq<ListNode<K>>, ghost k0: nat)
    returns (last: ListNode?<K>)
    requires IsList(r, s) && k0 <= |s| && last0 == Upto(s, k0)
    ensures Result(r, last, s)
  {
    last := last0;
    ghost var k := k0;
    ListIsResult(r, s);
    var next := if last == null then r else last.next;
    FollowingIsNext(r, s, k);
    while next != null
      invariant k <= |s| && last == Upto(s, k) && next == (if k < |s| then s[k] else null)
      decreases |s| - k
    {
      last := next;
      k := k + 1;
      next := last.next;
      FollowingIsNext(r, s, k);
    }
  }

  lemma FollowingIsNext<K>(r: ListNode?<K>, s: seq<ListNode<K>>, k: nat)
    requires IsList(r, s) && k <= |s|
    ensures (if k == 0 then r else s[k - 1].next) == if k < |s| then s[k] else null
  {
    if k > 0 {
      EndOfChain(s, k - 1);
    }
  }

  /** The node before place `k`. */
  ghost function Upto<K>(s: seq<ListNode<K>>, k: int): ListNode?<K>
    requires 0 <= k <= |s|
  {
    if k == 0 then null else s[k - 1]
  }

  lemma ListIsResult<K>(r: ListNode?<K>, s: seq<ListNode<K>>)
    requires IsList(r, s)
    ensures Result(r, Upto(s, |s|), s)
  {
    forall i | 0 <= i < |s| - 1 ensures s[i].next == s[i + 1] {
      EndOfChain(s, i);
    }
  }

  lemma MergingSwap<K>(r: ListNode?<K>, last: ListNode?<K>, a: ListNode?<K>, b: ListNode?<K>,
                       res: seq<ListNode<K>>, as_: seq<ListNode<K>>, bs: seq<ListNode<K>>, todo: seq<ListNode<K>>)
    requires Merging(r, last, a, b, res, as_, bs, todo)
    ensures Merging(r, last, b, a, res, bs, as_, todo)
  {
  }

  /** Nodes of `s` are among those of the other three. */
  ghost predicate Within<K>(s: seq<ListNode<K>>, all: set<ListNode<K>>) {
    forall x :: x in s ==> x in all
  }

  /** Merges two runs onto the end of the result. */
  method Merge<K>(cmp: (K, K) -> int, r0: ListNode?<K>, last0: ListNode?<K>, a0: ListNode?<K>, b0: ListNode?<K>,
                  ghost res: seq<ListNode<K>>, ghost as_: seq<ListNode<K>>, ghost bs: seq<ListNode<K>>,
                  ghost todo: seq<ListNode<K>>,
                  ghost all: set<ListNode<K>>)
    returns (r: ListNode?<K>, last: ListNode?<K>)
    requires Merging(r0, last0, a0, b0, res, as_, bs, todo)
    requires Within(res, all) && Within(as_, all) && Within(bs, all) && forall x :: x in todo ==> x !in all
    modifies all
    ensures Result(r, last, res + Merged(cmp, as_, bs)) && IsList(r, res + Merged(cmp, as_, bs))
    ensures Chain(todo)
  {
    hide Merging, Merged;
    r, last := r0, last0;
    var a, b := a0, b0;
    ghost var done, x, y := res, as_, bs;
    while a != null && b != null
      invariant Merging(r, last, a, b, done, x, y, todo)
      invariant Within(done, all) && Within(x, all) && Within(y, all)
      invariant done + Merged(cmp, x, y) == res + Merged(cmp, as_, bs)
      decreases |x| + |y|
    {
      Fronts(r, last, a, b, done, x, y, todo);
      MergedStep(cmp, done, x, y);
      if cmp(a.key, b.key) < 0 {
        var front: ListNode<K> := a;
        r, a := TakeFront(r, last, front, b, done, x, y, todo);
        last := front;
        done, x := done + [front], x[1..];
      } else {
        var front: ListNode<K> := b;
        MergingSwap(r, last, a, b, done, x, y, todo);
        r, b := TakeFront(r, last, front, a, done, y, x, todo);
        last := front;
        done, y := done + [front], y[1..];
        MergingSwap(r, last, b, a, done, y, x, todo);
      }
    }
    r, last := AppendRun(cmp, r, last, a, b, done, x, y, todo, all);
  }

  lemma Fronts<K>(r: ListNode?<K>, last: ListNode?<K>, a: ListNode?<K>, b: ListNode?<K>,
                  res: seq<ListNode<K>>, as_: seq<ListNode<K>>, bs: seq<ListNode<K>>, todo: seq<ListNode<K>>)
    requires Merging(r, last, a, b, res, as_, bs, todo)
    ensures a == Head(as_) && b == Head(bs)
  {
  }

  lemma MergedStep<K>(cmp: (K, K) -> int, done: seq<ListNode<K>>, x: seq<ListNode<K>>, y: seq<ListNode<K>>)
    requires x != [] && y != []
    ensures done + Merged(cmp, x, y) ==
            if cmp(x[0].key, y[0].key) < 0 then (done + [x[0]]) + Merged(cmp, x[1..], y)
            else (done + [y[0]]) + Merged(cmp, x, y[1..])
  {
  }

  /** After the merging loop: one run is used up, the other follows the result. */
  method AppendRun<K>(cmp: (K, K) -> int, r0: ListNode?<K>, last0: ListNode?<K>, a: ListNode?<K>, b: ListNode?<K>,
                      ghost done: seq<ListNode<K>>, ghost x: seq<ListNode<K>>, ghost y: seq<ListNode<K>>,
                      ghost todo: seq<ListNode<K>>,
                      ghost all: set<ListNode<K>>)
    returns (r: ListNode?<K>, last: ListNode?<K>)
    requires Merging(r0, last0, a, b, done, x, y, todo) && (a == null || b == null)
    requires Within(done, all) && forall x :: x in todo ==> x !in all
    modifies all
    ensures Result(r, last, done + Merged(cmp, x, y)) && IsList(r, done + Merged(cmp, x, y))
    ensures Chain(todo)
  {
    ghost var rest := Merged(cmp, x, y);
    var next := if a != null then a else b;
    LeftOver(cmp, r0, last0, a, b, done, x, y, todo);
    assert allocated(todo);
    hide Merging, Merged, Parts, NoDup;
    r := AppendRest(r0, last0, next, done, rest);
    last := ToEnd(r, last0, done + rest, |done|);
  }

  /** What is merged from two runs one of which is used up. */
  lemma LeftOver<K>(cmp: (K, K) -> int, r: ListNode?<K>, last: ListNode?<K>, a: ListNode?<K>, b: ListNode?<K>,
                    done: seq<ListNode<K>>, x: seq<ListNode<K>>, y: seq<ListNode<K>>, todo: seq<ListNode<K>>)
    requires Merging(r, last, a, b, done, x, y, todo) && (a == null || b == null)
    ensures var rest := Merged(cmp, x, y);
            && rest == (if a != null then x else y) && Result(r, last, done) && Disjoint(done, rest) && Chain(todo)
            && IsList(if a != null then a else b, rest) && last == (if done == [] then null else done[|done| - 1])
    ensures last != null ==> last in done
  {
    Fronts(r, last, a, b, done, x, y, todo);
  }

  /** Cuts the second run off what follows the first; `todo` is what is left. The first run
      and the result stay as they are. */
  method CutSecond<K>(b: ListNode?<K>, n: nat, ghost s: seq<ListNode<K>>,
                      ghost low: seq<ListNode<K>>, ghost r: ListNode?<K>, ghost last: ListNode?<K>,
                      ghost res: seq<ListNode<K>>)
    returns (todo: ListNode?<K>)
    requires n > 0 && IsList(b, s) && Chain(low) && Result(r, last, res) && Disjoint(low, s) && Disjoint(res, s)
    modifies s
    ensures var m := Min(n, |s|);
            IsList(b, s[..m]) && IsList(todo, s[m..]) && Chain(low) && Result(r, last, res)
  {
    assert allocated(s) && allocated(low) && allocated(res);
    var t := Walk(b, n, s);
    if t == null {
      assert s[..|s|] == s;
      todo := null;
    } else {
      assert t in s;
      hide Chain, Result, NoDup;
      todo := CutAfter(t, n, s);
    }
  }

  lemma DisjointParts<K>(res: seq<ListNode<K>>, s: seq<ListNode<K>>, n: nat, m: nat)
    requires Disjoint(res, s) && NoDup(s) && n <= m <= |s|
    ensures Parts(res, s[..n], s[n..m], s[m..]) && NoDup(s[..n]) && NoDup(s[n..m]) && NoDup(s[m..])
  {
    forall x | x in s[..n] ensures x !in s[n..m] && x !in s[m..] {
      var i :| 0 <= i < n && s[i] == x;
    }
    forall x | x in s[n..m] ensures x !in s[m..] {
      var i :| n <= i < m && s[i] == x;
    }
    forall i, j | 0 <= i < j < m - n ensures s[n..m][i] != s[n..m][j] {
      assert s[n + i] != s[n + j];
    }
    forall i, j | 0 <= i < j < |s| - m ensures s[m..][i] != s[m..][j] {
      assert s[m + i] != s[m + j];
    }
  }

  /** The list is taken apart into a run of length `n`, a following run, and the rest. */
  method TakeRuns<K>(a: ListNode<K>, t: ListNode<K>, n: nat, r: ListNode?<K>, last: ListNode?<K>,
                     ghost res: seq<ListNode<K>>, ghost s: seq<ListNode<K>>)
    returns (b: ListNode?<K>, todo: ListNode?<K>)
    requires 0 < n <= |s| && IsList(a, s) && t == s[n - 1] && Result(r, last, res) && Disjoint(res, s)
    modifies s
    ensures var m := Min(2 * n, |s|);
            Merging(r, last, a, b, res, s[..n], s[n..m], s[m..]) && IsList(todo, s[m..])
  {
    ghost var m := Min(2 * n, |s|);
    ghost var low, high := s[..n], s[n..];
    DisjointParts(res, s, n, m);
    DisjointHalves(res, s, n);
    ghost var mid, rest := s[n..m], s[m..];
    SliceAgain(s, n);
    assert allocated(res) && t in s;
    hide NoDup, Parts, Result, Disjoint, IsList, Merging;
    b := CutFirst(a, t, n, s, r, last, res);
    ListIsChain(a, low);
    todo := CutSecond(b, n, high, low, r, last, res);
    Assembled(r, last, a, b, todo, res, low, mid, rest);
  }

  lemma SliceAgain<T>(s: seq<T>, n: nat)
    requires n <= |s|
    ensures var m, high := Min(2 * n, |s|), s[n..];
            var k := Min(n, |high|);
            n <= m && high[..k] == s[n..m] && high[k..] == s[m..]
  {
  }

  lemma ListIsChain<K>(a: ListNode?<K>, s: seq<ListNode<K>>)
    requires IsList(a, s)
    ensures Chain(s) && a == Head(s) && NoDup(s)
  {
  }

  lemma Assembled<K>(r: ListNode?<K>, last: ListNode?<K>, a: ListNode<K>, b: ListNode?<K>, todo: ListNode?<K>,
                     res: seq<ListNode<K>>, low: seq<ListNode<K>>, mid: seq<ListNode<K>>, rest: seq<ListNode<K>>)
    requires Result(r, last, res) && Chain(low) && a == Head(low) && NoDup(low) && IsList(b, mid) && IsList(todo, rest)
    requires Parts(res, low, mid, rest)
    ensures Merging(r, last, a, b, res, low, mid, rest)
  {
  }

  /** Cuts the first run off; the result stays as it is. */
  method CutFirst<K>(a: ListNode<K>, t: ListNode<K>, n: nat, ghost s: seq<ListNode<K>>,
                     ghost r: ListNode?<K>, ghost last: ListNode?<K>, ghost res: seq<ListNode<K>>)
    returns (b: ListNode?<K>)
    requires 0 < n <= |s| && IsList(a, s) && t == s[n - 1] && Result(r, last, res) && Disjoint(res, s)
    modifies t
    ensures IsList(a, s[..n]) && IsList(b, s[n..]) && Result(r, last, res)
  {
    assert t in s && allocated(res);
    b := CutAfter(t, n, s);
  }

  lemma DisjointHalves<K>(res: seq<ListNode<K>>, s: seq<ListNode<K>>, n: nat)
    requires Disjoint(res, s) && NoDup(s) && n <= |s|
    ensures Disjoint(res, s[n..]) && Disjoint(s[..n], s[n..]) && forall x :: x in s[n..] ==> x in s
  {
  }

  /** What the passes know between two merges. */
  ghost predicate Passing<K>(r: ListNode?<K>, last: ListNode?<K>, todo: ListNode?<K>,
                             res: seq<ListNode<K>>, rest: seq<ListNode<K>>, all: set<ListNode<K>>)
    reads res, rest
  {
    && Result(r, last, res) && (if res == [] then r == null else IsList(r, res))
    && IsList(todo, rest) && Disjoint(res, rest) && Within(res, all) && Within(rest, all)
  }

  /** Merges the first two runs of what is left onto the result. */
  method MergeRuns<K>(cmp: (K, K) -> int, n: nat, t: ListNode<K>, r0: ListNode?<K>, last0: ListNode?<K>,
                      todo0: ListNode<K>,
                      ghost res: seq<ListNode<K>>, ghost s: seq<ListNode<K>>, ghost all: set<ListNode<K>>)
    returns (r: ListNode?<K>, last: ListNode?<K>, todo: ListNode?<K>)
    requires 0 < n <= |s| && t == s[n - 1] && Passing(r0, last0, todo0, res, s, all)
    modifies all
    ensures var m := Min(2 * n, |s|);
            Passing(r, last, todo, res + Merged(cmp, s[..n], s[n..m]), s[m..], all)
  {
    ghost var m := Min(2 * n, |s|);
    ghost var low, mid, rest := s[..n], s[n..m], s[m..];
    ghost var own := RunSets(cmp, n, res, s, all);
    assert allocated(own);
    hide Parts, Merging, Chain, NoDup, Result, Within, Disjoint, Merged;
    var b;
    b, todo := TakeRuns(todo0, t, n, r0, last0, res, s);
    ListIsChain(todo, rest);
    r, last := Merge(cmp, r0, last0, todo0, b, res, low, mid, rest, own);
    ChainIsList(todo, rest);
  }

  lemma ChainIsList<K>(a: ListNode?<K>, s: seq<ListNode<K>>)
    requires Chain(s) && a == Head(s) && NoDup(s)
    ensures IsList(a, s)
  {
  }

  /** The nodes a merge may touch, and what it leaves alone. */
  lemma RunSets<K>(cmp: (K, K) -> int, n: nat, res: seq<ListNode<K>>, s: seq<ListNode<K>>, all: set<ListNode<K>>)
    returns (own: set<ListNode<K>>)
    requires 0 < n <= |s| && NoDup(s) && Disjoint(res, s) && Within(res, all) && Within(s, all)
    ensures var m := Min(2 * n, |s|);
            var low, mid, rest := s[..n], s[n..m], s[m..];
            var merged := Merged(cmp, low, mid);
            && own <= all && Within(res, own) && Within(low, own) && Within(mid, own)
            && (forall x :: x in rest ==> x !in own)
            && res + merged != [] && Disjoint(res + merged, rest) && Within(res + merged, all) && Within(rest, all)
            && (forall x :: x in s ==> x in all)
  {
    var m := Min(2 * n, |s|);
    var low, mid, rest := s[..n], s[n..m], s[m..];
    var merged := Merged(cmp, low, mid);
    DisjointParts(res, s, n, m);
    MergedNodes(cmp, low, mid);
    MergedElements(cmp, low, mid);
    hide Merged, NoDup, Chain, Result;
    own := (set x | x in res) + (set x | x in low) + (set x | x in mid);
    assert forall x :: x in low || x in mid || x in rest ==> x in s;
    assert forall x :: x in res + merged ==> x in res || x in merged;
  }

  lemma MergedNodes<K>(cmp: (K, K) -> int, a: seq<ListNode<K>>, b: seq<ListNode<K>>)
    ensures forall x :: x in Merged(cmp, a, b) ==> x in a || x in b
  {
    MergedElements(cmp, a, b);
    forall x | x in Merged(cmp, a, b) ensures x in a || x in b {
      assert x in multiset(Merged(cmp, a, b));
    }
  }

  /** One pass over runs of length `n`. */
  method Pass<K>(cmp: (K, K) -> int, list: ListNode?<K>, n: nat, ghost s: seq<ListNode<K>>, ghost all: set<ListNode<K>>)
    returns (r: ListNode?<K>, contFlag: bool)
    requires n > 0 && IsList(list, s) && Within(s, all)
    modifies all
    ensures IsList(r, Passed(cmp, s, n)) && (contFlag <==> |s| >= n)
  {
    hide Passing, IsList, Within, Merged;
    var todo := list;
    r, contFlag := null, false;
    var last: ListNode?<K> := null;
    ghost var res: seq<ListNode<K>>, rest := [], s;
    StartPassing(list, s, all);
    while todo != null
      invariant Passing(r, last, todo, res, rest, all)
      invariant res + Passed(cmp, rest, n) == Passed(cmp, s, n)
      invariant if contFlag then |s| >= n else rest == s && res == []
      decreases |rest|
    {
      WhilePassing(r, last, todo, res, rest, all);
      var t := Walk(todo, n, rest);
      if t == null {
        r := AppendRest(r, last, todo, res, rest);
        return;
      }
      ghost var m := Min(2 * n, |rest|);
      ghost var merged := Merged(cmp, rest[..n], rest[n..m]);
      assert res + (merged + Passed(cmp, rest[m..], n)) == (res + merged) + Passed(cmp, rest[m..], n);
      r, last, todo := MergeRuns(cmp, n, t, r, last, todo, res, rest, all);
      res, rest := res + merged, rest[m..];
      contFlag := true;
    }
    DonePassing(r, last, res, rest, all);
    assert res + [] == res;
  }

  lemma StartPassing<K>(list: ListNode?<K>, s: seq<ListNode<K>>, all: set<ListNode<K>>)
    requires IsList(list, s) && Within(s, all)
    ensures Passing(null, null, list, [], s, all)
  {
  }

  lemma WhilePassing<K>(r: ListNode?<K>, last: ListNode?<K>, todo: ListNode<K>, res: seq<ListNode<K>>,
                        rest: seq<ListNode<K>>,
                        all: set<ListNode<K>>)
    requires Passing(r, last, todo, res, rest, all)
    ensures IsList(todo, rest) && rest != [] && Result(r, last, res) && Disjoint(res, rest)
    ensures last != null ==> last in all
  {
  }

  lemma DonePassing<K>(r: ListNode?<K>, last: ListNode?<K>, res: seq<ListNode<K>>, rest: seq<ListNode<K>>,
                       all: set<ListNode<K>>)
    requires Passing(r, last, null, res, rest, all)
    ensures rest == [] && IsList(r, res)
  {
  }

  /** Sorts any list: the result links exactly the nodes of the argument, in comparator order. */
  method ListSort<K(!new)>(cmp: (K, K) -> int, list: ListNode?<K>, ghost s: seq<ListNode<K>>)
    returns (r: ListNode?<K>, ghost sorted: seq<ListNode<K>>)
    requires IsComparator(cmp) && IsList(list, s)
    modifies s
    ensures IsList(r, sorted) && SortedRun(cmp, sorted) && multiset(sorted) == multiset(s)
  {
    hide IsList, Within, Passed, Sorting, SortedRun, Runs;
    ghost var all := set x | x in s;
    RunsOfOne(cmp, s);
    SortingSorts(cmp, s, 1);
    AllWithin(s);
    r, sorted := list, s;
    var n := 1;
    var contFlag := true;
    while contFlag
      invariant n > 0 && IsList(r, sorted) && Within(sorted, all)
      invariant if contFlag then Sorting(cmp, sorted, n) == Sorting(cmp, s, 1) else sorted == Sorting(cmp, s, 1)
      decreases contFlag, |sorted| - n
    {
      SortingStep(cmp, sorted, n, all);
      ghost var next := Passed(cmp, sorted, n);
      r, contFlag := Pass(cmp, r, n, sorted, all);
      sorted := next;
      n := n + n;
    }
  }

  lemma AllWithin<K>(s: seq<ListNode<K>>)
    ensures Within(s, set x | x in s)
  {
  }

  lemma SortingStep<K>(cmp: (K, K) -> int, s: seq<ListNode<K>>, n: nat, all: set<ListNode<K>>)
    requires n > 0 && Within(s, all)
    ensures |Passed(cmp, s, n)| == |s| && Within(Passed(cmp, s, n), all)
    ensures Sorting(cmp, s, n) == if |s| < n then Passed(cmp, s, n) else Sorting(cmp, Passed(cmp, s, n), 2 * n)
  {
    hide Passed;
    PassedElements(cmp, s, n);
    forall x | x in Passed(cmp, s, n) ensures x in s {
      assert x in multiset(Passed(cmp, s, n));
    }
  }
}
