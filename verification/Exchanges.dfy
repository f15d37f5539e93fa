/** The element exchanger: the only way the array sorts write, so that companion arrays move along. */
module Exchanges {

  ghost function Swapped<T>(s: seq<T>, i: int, j: int): seq<T>
    requires 0 <= i < |s| && 0 <= j < |s|
  {
    s[i := s[j]][j := s[i]]
  }

  /** `p` lists every index below `n` exactly once. */
  ghost predicate Permutation(p: seq<int>, n: int) {
    && |p| == n
    && (forall i :: 0 <= i < n ==> 0 <= p[i] < n)
    && (forall i, j :: 0 <= i < j < n ==> p[i] != p[j])
  }

  /** `s` is `s0` rearranged: place `i` holds what was at `p[i]`. */
  ghost predicate Rearranged<T>(s: seq<T>, s0: seq<T>, p: seq<int>) {
    && |s| == |s0| && Permutation(p, |s|)
    && forall i :: 0 <= i < |s| ==> s[i] == s0[p[i]]
  }

  ghost predicate FixedOutside(p: seq<int>, lo: int, hi: int) {
    forall i :: 0 <= i < |p| && !(lo <= i < hi) ==> p[i] == i
  }

  ghost function Identity(n: nat): seq<int> {
    seq(n, i => i)
  }

  lemma IdentityPermutes<T>(s: seq<T>)
    ensures Rearranged(s, s, Identity(|s|)) && FixedOutside(Identity(|s|), 0, 0)
  {
  }

  lemma SwapRearranges<T>(s: seq<T>, s0: seq<T>, p: seq<int>, i: int, j: int)
    requires Rearranged(s, s0, p) && 0 <= i < |s| && 0 <= j < |s|
    ensures Rearranged(Swapped(s, i, j), s0, Swapped(p, i, j))
  {
  }

  ghost function Compose(p: seq<int>, q: seq<int>): seq<int>
    requires |p| == |q| && forall i :: 0 <= i < |q| ==> 0 <= q[i] < |p|
  {
    seq(|q|, i requires 0 <= i < |q| => p[q[i]])
  }

  lemma RearrangedTwice<T>(s: seq<T>, s1: seq<T>, s0: seq<T>, q: seq<int>, p: seq<int>)
    requires Rearranged(s, s1, q) && Rearranged(s1, s0, p)
    ensures Rearranged(s, s0, Compose(p, q))
  {
    var c := Compose(p, q);
    forall i, j | 0 <= i < j < |s| ensures c[i] != c[j] {
      assert q[i] != q[j];
    }
  }

  /** A rearrangement keeps the elements and how often each occurs. */
  lemma {:induction false} RearrangedSameElements<T>(s: seq<T>, s0: seq<T>, p: seq<int>)
    requires Rearranged(s, s0, p)
    ensures multiset(s) == multiset(s0)
    decreases |s|
  {
    if s != [] {
      var n := |s| - 1;
      var k := p[n];
      var q := seq(n, i requires 0 <= i < n => if p[i] > k then p[i] - 1 else p[i]);
      assert s[n] == s0[k];
      WithoutLast(s, s0, p, q);
      hide Rearranged;
      RearrangedSameElements(s[..n], s0[..k] + s0[k + 1..], q);
      OneOut(s, n);
      assert s[n + 1..] == [] && s[..n] + [] == s[..n];
      OneOut(s0, k);
    }
  }

  /** The elements are the one at `k` and the others. */
  lemma OneOut<T>(s: seq<T>, k: int)
    requires 0 <= k < |s|
    ensures multiset(s) == multiset(s[..k] + s[k + 1..]) + multiset{s[k]}
  {
    assert s == s[..k] + [s[k]] + s[k + 1..];
  }

  /** Dropping the last place and what it took. */
  lemma WithoutLast<T>(s: seq<T>, s0: seq<T>, p: seq<int>, q: seq<int>)
    requires Rearranged(s, s0, p) && s != []
    requires |q| == |s| - 1 && forall i :: 0 <= i < |q| ==> q[i] == if p[i] > p[|q|] then p[i] - 1 else p[i]
    ensures var k := p[|q|];
            Rearranged(s[..|q|], s0[..k] + s0[k + 1..], q)
  {
    var k := p[|q|];
    forall i | 0 <= i < |q| ensures p[i] != k && 0 <= q[i] < |q| {
      assert p[i] != p[|q|];
    }
    forall i, j | 0 <= i < j < |q| ensures q[i] != q[j] {
      assert p[i] != p[j];
    }
  }

  method Exchange<T, U>(a: array<T>, b: array<U>, i: int, j: int)
    requires 0 <= i < a.Length && 0 <= j < a.Length == b.Length && a as object != b
    modifies a, b
    ensures a[..] == Swapped(old(a[..]), i, j) && b[..] == Swapped(old(b[..]), i, j)
  {
    var t := a[i];
    a[i] := a[j];
    a[j] := t;
    var u := b[i];
    b[i] := b[j];
    b[j] := u;
  }

  /** A rearrangement of `s0` inside [lo, hi). */
  ghost predicate Shuffled<T>(s: seq<T>, s0: seq<T>, p: seq<int>, lo: int, hi: int) {
    Rearranged(s, s0, p) && FixedOutside(p, lo, hi)
  }

  lemma ShuffledSwap<T>(s: seq<T>, s0: seq<T>, p: seq<int>, lo: int, hi: int, i: int, j: int)
    requires Shuffled(s, s0, p, lo, hi) && 0 <= lo <= i < hi <= |s| && lo <= j < hi
    ensures Shuffled(Swapped(s, i, j), s0, Swapped(p, i, j), lo, hi)
  {
    SwapRearranges(s, s0, p, i, j);
  }

  /** A shuffle inside [lo, hi) takes its elements from there. */
  lemma ShuffledStays<T>(s: seq<T>, s0: seq<T>, p: seq<int>, lo: int, hi: int, x: int)
    requires Shuffled(s, s0, p, lo, hi) && 0 <= lo <= x < hi <= |s|
    ensures lo <= p[x] < hi
  {
    var y := p[x];
    assert 0 <= y < |s|;
    assert p[y] == y || lo <= y < hi;
  }

  /** The exchanges of both arrays so far stay inside [start, end). */
  ghost predicate BothShuffled<T, U>(s: seq<T>, s0: seq<T>, t: seq<U>, t0: seq<U>, p: seq<int>, lo: int, hi: int) {
    Shuffled(s, s0, p, lo, hi) && Shuffled(t, t0, p, lo, hi)
  }

  method ExchangeWithin<T, U>(a: array<T>, b: array<U>, i: int, j: int, ghost s0: seq<T>, ghost t0: seq<U>,
                              ghost p0: seq<int>, ghost lo: int, ghost hi: int)
    returns (ghost p: seq<int>)
    requires 0 <= lo <= i < hi <= a.Length == b.Length && lo <= j < hi && a as object != b
    requires BothShuffled(a[..], s0, b[..], t0, p0, lo, hi)
    modifies a, b
    ensures a[..] == Swapped(old(a[..]), i, j)
    ensures BothShuffled(a[..], s0, b[..], t0, p, lo, hi)
  {
    ShuffledSwap(a[..], s0, p0, lo, hi, i, j);
    ShuffledSwap(b[..], t0, p0, lo, hi, i, j);
    Exchange(a, b, i, j);
    p := Swapped(p0, i, j);
  }
}
