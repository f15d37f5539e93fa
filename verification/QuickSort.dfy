/** The in-place quicksort with an explicit stack of 64 segments. */
module QuickSorts {
  import opened Orders
  import opened Exchanges

  const STACK_SIZE: nat := 64

  // ---------- one partition ----------

  /** Everything in [lo, hi) is at most, at least, `x`. */
  ghost predicate AtMost<T>(cmp: (T, T) -> int, s: seq<T>, lo: int, hi: int, x: T) {
    forall k :: 0 <= lo <= k < hi <= |s| ==> cmp(s[k], x) <= 0
  }

  ghost predicate AtLeast<T>(cmp: (T, T) -> int, s: seq<T>, lo: int, hi: int, x: T) {
    forall k :: 0 <= lo <= k < hi <= |s| ==> cmp(s[k], x) >= 0
  }

  /** `for(; i <= j && comparator(a[i], a[p]) <= 0; i++)` */
  method SkipSmaller<T>(a: array<T>, cmp: (T, T) -> int, pivot: int, from: int, j: int) returns (i: int)
    requires 0 <= pivot < from <= j < a.Length
    ensures from <= i <= j + 1
    ensures AtMost(cmp, a[..], from, i, a[pivot])
    ensures i <= j ==> cmp(a[i], a[pivot]) > 0
  {
    i := from;
    while i <= j && cmp(a[i], a[pivot]) <= 0
      invariant from <= i <= j + 1
      invariant AtMost(cmp, a[..], from, i, a[pivot])
    {
      i := i + 1;
    }
  }

  /** `for(; i <= j && comparator(a[j], a[p]) >= 0; j--)` */
  method SkipLarger<T>(a: array<T>, cmp: (T, T) -> int, pivot: int, i: int, from: int) returns (j: int)
    requires 0 <= pivot < i <= from < a.Length
    ensures i - 1 <= j <= from
    ensures AtLeast(cmp, a[..], j + 1, from + 1, a[pivot])
    ensures i <= j ==> cmp(a[j], a[pivot]) < 0
  {
    j := from;
    while i <= j && cmp(a[j], a[pivot]) >= 0
      invariant i - 1 <= j <= from
      invariant AtLeast(cmp, a[..], j + 1, from + 1, a[pivot])
    {
      j := j - 1;
    }
  }

  /** Exchanging the pivot with the last smaller element puts it between the smaller and the larger ones. */
  lemma PivotPlaced<T>(cmp: (T, T) -> int, s: seq<T>, start: int, j: int, end: int)
    requires 0 <= start <= j < end <= |s|
    requires AtMost(cmp, s, start + 1, j + 1, s[start]) && AtLeast(cmp, s, j + 1, end, s[start])
    ensures var s' := Swapped(s, j, start);
            AtMost(cmp, s', start, j, s'[j]) && AtLeast(cmp, s', j + 1, end, s'[j])
  {
  }

  /** Places i and j of a partition under way, or the final place of the pivot when they meet. */
  ghost predicate Splitting<T>(cmp: (T, T) -> int, s: seq<T>, start: int, end: int, i: int, j: int) {
    && 0 <= start <= i <= j < end <= |s|
    && if i < j then start < i && AtMost(cmp, s, start + 1, i, s[start]) && AtLeast(cmp, s, j + 1, end, s[start])
       else AtMost(cmp, s, start, i, s[i]) && AtLeast(cmp, s, i + 1, end, s[i])
  }

  /** One pass of the partition loop. It may move neither index, but then the next pass does. */
  method PartitionPass<T, U>(a: array<T>, b: array<U>, cmp: (T, T) -> int, start: int, end: int, i0: int, j0: int,
                             ghost s0: seq<T>, ghost t0: seq<U>, ghost p0: seq<int>)
    returns (i: int, j: int, ghost p: seq<int>)
    requires a.Length == b.Length && a as object != b
    requires i0 < j0 && Splitting(cmp, a[..], start, end, i0, j0)
    requires BothShuffled(a[..], s0, b[..], t0, p0, start, end)
    modifies a, b
    ensures Splitting(cmp, a[..], start, end, i, j)
    ensures BothShuffled(a[..], s0, b[..], t0, p, start, end)
    ensures j - i < j0 - i0 || (i == i0 && j == j0 && old(cmp(a[i0], a[start])) > 0 && cmp(a[i], a[start]) <= 0)
  {
    hide Shuffled, FixedOutside, Rearranged;
    var pivot := start;
    j := j0;
    p := p0;
    i := SkipSmaller(a, cmp, pivot, i0, j);
    if i > j {
      PivotPlaced(cmp, a[..], start, j, end);
      p := ExchangeWithin(a, b, j, pivot, s0, t0, p, start, end);
      i := j;
    } else {
      j := SkipLarger(a, cmp, pivot, i, j);
      if i > j {
        PivotPlaced(cmp, a[..], start, j, end);
        p := ExchangeWithin(a, b, j, pivot, s0, t0, p, start, end);
        i := j;
      } else if i < j {
        p := ExchangeWithin(a, b, i, j, s0, t0, p, start, end);
        if i + 2 < j {
          i := i + 1;
          j := j - 1;
        } else if i + 1 < j {
          i := i + 1;
        }
      }
    }
  }

  /** Splits [start, end) around its first element: afterwards `i` holds it. */
  method Partition<T, U>(a: array<T>, b: array<U>, cmp: (T, T) -> int, start: int, end: int)
    returns (i: int, ghost p: seq<int>)
    requires 0 <= start && start + 2 < end <= a.Length == b.Length && a as object != b
    modifies a, b
    ensures BothShuffled(a[..], old(a[..]), b[..], old(b[..]), p, start, end)
    ensures Splitting(cmp, a[..], start, end, i, i)
  {
    var j := end - 1;
    i := start + 1;
    p := Identity(a.Length);
    while i < j
      invariant Splitting(cmp, a[..], start, end, i, j)
      invariant BothShuffled(a[..], old(a[..]), b[..], old(b[..]), p, start, end)
      decreases j - i, if i < j && cmp(a[i], a[start]) > 0 then 1 else 0
    {
      i, j, p := PartitionPass(a, b, cmp, start, end, i, j, old(a[..]), old(b[..]), p);
    }
  }

  // ---------- the segments still to sort ----------

  datatype Seg = Seg(lo: int, hi: int) {
    predicate Has(x: int) { lo <= x < hi }
    function Size(): int { hi - lo }
  }

  /** Every place has a zone: the number of the pending segment it lies in, or one of its own.
      Two places are in order unless they lie in the same pending segment. */
  ghost predicate Zoned<T>(cmp: (T, T) -> int, s: seq<T>, zone: seq<int>, segs: seq<Seg>) {
    && |zone| == |s|
    && (forall k :: 0 <= k < |segs| ==> 0 <= segs[k].lo <= segs[k].hi <= |s|)
    && (forall x :: 0 <= x < |s| ==> zone[x] < |segs| && (zone[x] < 0 ==> zone[x] == -x - 1))
    && (forall k, x :: 0 <= k < |segs| && 0 <= x < |s| ==> (segs[k].Has(x) <==> zone[x] == k))
    && (forall x, y :: 0 <= x < y < |s| ==> cmp(s[x], s[y]) <= 0 || zone[x] == zone[y])
  }

  lemma NothingPending<T>(cmp: (T, T) -> int, s: seq<T>, zone: seq<int>)
    requires Zoned(cmp, s, zone, [])
    ensures Ascending(cmp, s)
  {
    forall x, y | 0 <= x < y < |s| ensures cmp(s[x], s[y]) <= 0 {
      assert zone[x] == -x - 1 && zone[y] == -y - 1;
    }
  }

  /** What replaces a segment [lo, hi) that was split at `i`: its two sides, larger first,
      without a side of at most one element. */
  ghost predicate Sides(rest: seq<Seg>, lo: int, hi: int, i: int) {
    var left, right := Seg(lo, i), Seg(i + 1, hi);
    || rest == [left, right]
    || rest == [right, left]
    || (rest == [left] && right.Size() <= 1)
    || (rest == [right] && left.Size() <= 1)
  }

  ghost function NewZone(zone: seq<int>, m: int, rest: seq<Seg>, lo: int, hi: int): seq<int> {
    seq(|zone|, x requires 0 <= x < |zone| =>
      if !(lo <= x < hi) then zone[x]
      else if |rest| > 0 && rest[0].Has(x) then m
      else if |rest| > 1 && rest[1].Has(x) then m + 1
      else -x - 1)
  }

  lemma SplitZones<T(!new)>(cmp: (T, T) -> int, s: seq<T>, s0: seq<T>, p: seq<int>, zone: seq<int>,
                            segs: seq<Seg>, i: int, rest: seq<Seg>)
    requires IsComparator(cmp) && segs != [] && Zoned(cmp, s0, zone, segs)
    requires var seg := segs[|segs| - 1];
             && Shuffled(s, s0, p, seg.lo, seg.hi) && Splitting(cmp, s, seg.lo, seg.hi, i, i)
             && Sides(rest, seg.lo, seg.hi, i)
    ensures var seg, m := segs[|segs| - 1], |segs| - 1;
            Zoned(cmp, s, NewZone(zone, m, rest, seg.lo, seg.hi), segs[..m] + rest)
  {
    var seg, m := segs[|segs| - 1], |segs| - 1;
    var z := NewZone(zone, m, rest, seg.lo, seg.hi);
    var segs' := segs[..m] + rest;
    assert rest[0] == segs'[m] && (|rest| > 1 ==> rest[1] == segs'[m + 1]);
    forall k, x | 0 <= k < |segs'| && 0 <= x < |s| ensures segs'[k].Has(x) <==> z[x] == k {
      if k < m {
        assert segs'[k] == segs[k];
        assert segs[k].Has(x) <==> zone[x] == k;
        assert segs[m].Has(x) <==> zone[x] == m;
      }
    }
    forall x, y | 0 <= x < y < |s| ensures cmp(s[x], s[y]) <= 0 || z[x] == z[y] {
      SplitPair(cmp, s, s0, p, zone, segs, i, rest, x, y);
    }
  }

  lemma SplitPair<T(!new)>(cmp: (T, T) -> int, s: seq<T>, s0: seq<T>, p: seq<int>, zone: seq<int>,
                           segs: seq<Seg>, i: int, rest: seq<Seg>, x: int, y: int)
    requires IsComparator(cmp) && segs != [] && Zoned(cmp, s0, zone, segs)
    requires var seg := segs[|segs| - 1];
             && Shuffled(s, s0, p, seg.lo, seg.hi) && Splitting(cmp, s, seg.lo, seg.hi, i, i)
             && Sides(rest, seg.lo, seg.hi, i)
    requires 0 <= x < y < |s|
    ensures var seg, m := segs[|segs| - 1], |segs| - 1;
            var z := NewZone(zone, m, rest, seg.lo, seg.hi);
            cmp(s[x], s[y]) <= 0 || z[x] == z[y]
  {
    var seg, m := segs[|segs| - 1], |segs| - 1;
    assert segs[m].Has(x) <==> zone[x] == m;
    assert segs[m].Has(y) <==> zone[y] == m;
    if seg.Has(x) {
      ShuffledStays(s, s0, p, seg.lo, seg.hi, x);
      assert segs[m].Has(p[x]) <==> zone[p[x]] == m;
    }
    if seg.Has(y) {
      ShuffledStays(s, s0, p, seg.lo, seg.hi, y);
      assert segs[m].Has(p[y]) <==> zone[p[y]] == m;
    }
    if seg.Has(x) && seg.Has(y) {
      if x <= i <= y {
        assert cmp(s[x], s[i]) <= 0 || x == i;
        assert cmp(s[y], s[i]) >= 0 || y == i;
        assert cmp(s[i], s[y]) <= 0 || y == i;
      }
    } else {
      assert s[x] == s0[p[x]] && s[y] == s0[p[y]];
      assert p[x] < p[y];
    }
  }

  // ---------- the explicit stack ----------

  /** The segment at slot k has at most n / 2^k elements. */
  ghost predicate Halving(segs: seq<Seg>, n: int) {
    forall k :: 0 <= k < |segs| ==> segs[k].Size() * Pow2(k) <= n
  }

  lemma HalvingSplit(segs: seq<Seg>, n: int, i: int, rest: seq<Seg>)
    requires segs != [] && Halving(segs, n)
    requires var seg := segs[|segs| - 1]; seg.lo <= i < seg.hi && Sides(rest, seg.lo, seg.hi, i)
    requires |rest| == 2 ==> rest[1].Size() <= rest[0].Size()
    ensures Halving(segs[..|segs| - 1] + rest, n)
  {
    var m := |segs| - 1;
    var seg, segs' := segs[m], segs[..m] + rest;
    forall k | 0 <= k < |segs'| ensures segs'[k].Size() * Pow2(k) <= n {
      if k < m {
        assert segs'[k] == segs[k];
      } else if k == m {
        assert segs'[k].Size() <= seg.Size();
        Scale(segs'[k].Size(), seg.Size(), Pow2(m));
      } else {
        assert 2 * segs'[k].Size() <= seg.Size();
        Scale(2 * segs'[k].Size(), seg.Size(), Pow2(m));
        assert segs'[k].Size() * Pow2(k) == 2 * segs'[k].Size() * Pow2(m);
      }
    }
  }

  lemma Scale(x: int, y: int, z: int)
    requires x <= y && 0 <= z
    ensures x * z <= y * z
  {
  }

  /** A segment that is split leaves room for one more on the stack. */
  lemma RoomToPush(segs: seq<Seg>, n: int)
    requires segs != [] && Halving(segs, n) && segs[|segs| - 1].Size() > 2 && n <= 0x1_0000_0000_0000_0000
    ensures |segs| < STACK_SIZE
  {
    var m := |segs| - 1;
    if m >= 63 {
      Pow2Monotone(63, m);
      Pow2Of64();
      assert Pow2(64) == 2 * Pow2(63);
      Scale(3, segs[m].Size(), Pow2(m));
    }
  }

  ghost function Weight(segs: seq<Seg>): int {
    if segs == [] then 0 else Weight(segs[..|segs| - 1]) + 2 * segs[|segs| - 1].Size() + 1
  }

  lemma WeightPush(segs: seq<Seg>, seg: Seg)
    ensures Weight(segs + [seg]) == Weight(segs) + 2 * seg.Size() + 1
  {
    assert (segs + [seg])[..|segs|] == segs;
  }

  lemma {:induction false} WeightNonNegative(segs: seq<Seg>)
    requires forall k :: 0 <= k < |segs| ==> segs[k].lo <= segs[k].hi
    ensures Weight(segs) >= 0
  {
    if segs != [] {
      WeightNonNegative(segs[..|segs| - 1]);
    }
  }

  /** Everything known between two splits: the arrays are rearranged, only pending segments are
      out of order, and their sizes halve from slot to slot. */
  ghost predicate Progress<T, U>(cmp: (T, T) -> int, s: seq<T>, s0: seq<T>, t: seq<U>, t0: seq<U>,
                                 p: seq<int>, zone: seq<int>, segs: seq<Seg>) {
    Rearranged(s, s0, p) && Rearranged(t, t0, p) && Zoned(cmp, s, zone, segs) && Halving(segs, |s|)
  }

  ghost predicate OnStack(startStack: array<int>, endStack: array<int>, segs: seq<Seg>)
    reads startStack, endStack
  {
    && startStack.Length == STACK_SIZE && endStack.Length == STACK_SIZE && |segs| <= STACK_SIZE
    && forall k :: 0 <= k < |segs| ==> startStack[k] == segs[k].lo && endStack[k] == segs[k].hi
  }

  lemma SameLengths<T, U>(cmp: (T, T) -> int, s: seq<T>, s0: seq<T>, t: seq<U>, t0: seq<U>,
                          p: seq<int>, zone: seq<int>, segs: seq<Seg>)
    requires Progress(cmp, s, s0, t, t0, p, zone, segs) && segs != []
    ensures |s| == |t| == |s0| == |t0| == |p|
    ensures 0 <= segs[|segs| - 1].lo <= segs[|segs| - 1].hi <= |s|
  {
  }

  lemma ProgressSplit<T(!new), U>(cmp: (T, T) -> int, s: seq<T>, s1: seq<T>, s0: seq<T>, t: seq<U>, t1: seq<U>,
                                  t0: seq<U>,
                                  q: seq<int>, p: seq<int>, zone: seq<int>, segs: seq<Seg>, i: int, rest: seq<Seg>)
    returns (p': seq<int>)
    requires IsComparator(cmp) && segs != [] && Progress(cmp, s1, s0, t1, t0, p, zone, segs)
    requires var seg := segs[|segs| - 1];
             && BothShuffled(s, s1, t, t1, q, seg.lo, seg.hi) && Splitting(cmp, s, seg.lo, seg.hi, i, i)
             && Sides(rest, seg.lo, seg.hi, i)
    requires |rest| == 2 ==> rest[1].Size() <= rest[0].Size()
    ensures var seg, m := segs[|segs| - 1], |segs| - 1;
            Progress(cmp, s, s0, t, t0, p', NewZone(zone, m, rest, seg.lo, seg.hi), segs[..m] + rest)
  {
    p' := Compose(p, q);
    RearrangedTwice(s, s1, s0, q, p);
    RearrangedTwice(t, t1, t0, q, p);
    SplitZones(cmp, s, s1, q, zone, segs, i, rest);
    HalvingSplit(segs, |s|, i, rest);
  }

  /** Pushes the larger side if both need sorting; the other one becomes current. */
  method Choose(startStack: array<int>, endStack: array<int>, stacki0: int, start0: int, end0: int, i: int,
                ghost segs0: seq<Seg>)
    returns (stacki: int, start: int, end: int, ghost segs: seq<Seg>, ghost rest: seq<Seg>)
    requires startStack != endStack && OnStack(startStack, endStack, segs0) && stacki0 == |segs0| < STACK_SIZE
    requires start0 <= i < end0
    modifies startStack, endStack
    ensures OnStack(startStack, endStack, segs) && stacki == |segs|
    ensures segs + [Seg(start, end)] == segs0 + rest && Sides(rest, start0, end0, i)
    ensures |rest| == 2 ==> rest[1].Size() <= rest[0].Size()
    ensures Weight(segs + [Seg(start, end)]) < Weight(segs0 + [Seg(start0, end0)])
  {
    stacki, start, end, segs := stacki0, start0, end0, segs0;
    var j := i;
    if i - start > 1 && end - j > 1 {
      if i - start < end - j - 1 {
        startStack[stacki] := j + 1;
        endStack[stacki] := end;
        stacki := stacki + 1;
        segs := segs + [Seg(j + 1, end)];
        end := i;
      } else {
        startStack[stacki] := start;
        endStack[stacki] := i;
        stacki := stacki + 1;
        segs := segs + [Seg(start, i)];
        start := j + 1;
      }
      rest := [segs[|segs| - 1], Seg(start, end)];
      WeightPush(segs0, segs[|segs| - 1]);
    } else {
      if i - start > 1 {
        end := i;
      } else {
        start := j + 1;
      }
      rest := [Seg(start, end)];
    }
    WeightPush(segs0, Seg(start0, end0));
    WeightPush(segs, Seg(start, end));
  }

  /** One round of the inner loop: partition the current segment and go on with one side. */
  method Split<T(!new), U>(a: array<T>, b: array<U>, cmp: (T, T) -> int, startStack: array<int>, endStack: array<int>,
                           stacki0: int, start0: int, end0: int,
                           ghost s0: seq<T>, ghost t0: seq<U>, ghost p0: seq<int>, ghost zone0: seq<int>,
                           ghost segs0: seq<Seg>)
    returns (stacki: int, start: int, end: int, ghost p: seq<int>, ghost zone: seq<int>, ghost segs: seq<Seg>)
    requires IsComparator(cmp) && a as object != b && startStack != endStack && a.Length <= 0x1_0000_0000_0000_0000
    requires {a as object, b} !! {startStack as object, endStack}
    requires Progress(cmp, a[..], s0, b[..], t0, p0, zone0, segs0 + [Seg(start0, end0)]) && end0 - start0 > 2
    requires OnStack(startStack, endStack, segs0) && stacki0 == |segs0|
    modifies a, b, startStack, endStack
    ensures Progress(cmp, a[..], s0, b[..], t0, p, zone, segs + [Seg(start, end)])
    ensures OnStack(startStack, endStack, segs) && stacki == |segs|
    ensures Weight(segs + [Seg(start, end)]) < Weight(segs0 + [Seg(start0, end0)])
  {
    hide Rearranged, Shuffled, Halving, Sides, Weight;
    ghost var all := segs0 + [Seg(start0, end0)];
    assert all[|all| - 1] == Seg(start0, end0) && all[..|all| - 1] == segs0;
    ghost var s1, t1 := a[..], b[..];
    RoomToPush(all, a.Length);
    SameLengths(cmp, s1, s0, t1, t0, p0, zone0, all);
    var i, q := Partition(a, b, cmp, start0, end0);
    ghost var rest;
    stacki, start, end, segs, rest := Choose(startStack, endStack, stacki0, start0, end0, i, segs0);
    p := ProgressSplit(cmp, a[..], s1, s0, b[..], t1, t0, q, p0, zone0, all, i, rest);
    zone := NewZone(zone0, |all| - 1, rest, start0, end0);
  }

  /** A segment of at most two elements in order is pending no more. */
  lemma CloseZone<T>(cmp: (T, T) -> int, s: seq<T>, zone: seq<int>, segs: seq<Seg>) returns (zone': seq<int>)
    requires segs != [] && Zoned(cmp, s, zone, segs)
    requires var seg := segs[|segs| - 1];
             seg.Size() <= 2 && (seg.Size() == 2 ==> cmp(s[seg.lo], s[seg.lo + 1]) <= 0)
    ensures Zoned(cmp, s, zone', segs[..|segs| - 1])
  {
    var m := |segs| - 1;
    zone' := seq(|zone|, x requires 0 <= x < |zone| => if segs[m].Has(x) then -x - 1 else zone[x]);
    forall x | 0 <= x < |s| ensures segs[m].Has(x) <==> zone[x] == m {
    }
  }

  /** Exchanging two elements of the last pending segment keeps everything else in order. */
  lemma ExchangeZone<T>(cmp: (T, T) -> int, s: seq<T>, zone: seq<int>, segs: seq<Seg>, i: int, j: int)
    requires segs != [] && Zoned(cmp, s, zone, segs)
    requires segs[|segs| - 1].Has(i) && segs[|segs| - 1].Has(j)
    ensures Zoned(cmp, Swapped(s, i, j), zone, segs)
  {
    var m, s' := |segs| - 1, Swapped(s, i, j);
    assert segs[m].Has(i) <==> zone[i] == m;
    assert segs[m].Has(j) <==> zone[j] == m;
    forall x, y | 0 <= x < y < |s| ensures cmp(s'[x], s'[y]) <= 0 || zone[x] == zone[y] {
      var u := if x == i then j else if x == j then i else x;
      var v := if y == i then j else if y == j then i else y;
      assert s'[x] == s[u] && s'[y] == s[v] && zone[u] == zone[x] && zone[v] == zone[y];
      assert segs[m].Has(x) <==> zone[x] == m;
      assert segs[m].Has(y) <==> zone[y] == m;
      if u != v && zone[x] != zone[y] {
        assert u < v;
      }
    }
  }

  /** The last step for a segment: put its two elements in order. */
  method Finish<T(!new), U>(a: array<T>, b: array<U>, cmp: (T, T) -> int, start: int, end: int,
                            ghost s0: seq<T>, ghost t0: seq<U>, ghost p0: seq<int>, ghost zone0: seq<int>,
                            ghost segs: seq<Seg>)
    returns (ghost p: seq<int>, ghost zone: seq<int>)
    requires IsComparator(cmp) && a as object != b && end - start <= 2
    requires Progress(cmp, a[..], s0, b[..], t0, p0, zone0, segs + [Seg(start, end)])
    modifies a, b
    ensures Progress(cmp, a[..], s0, b[..], t0, p, zone, segs)
  {
    hide Halving, Zoned;
    ghost var all := segs + [Seg(start, end)];
    assert all[|all| - 1] == Seg(start, end) && all[..|all| - 1] == segs;
    SameLengths(cmp, a[..], s0, b[..], t0, p0, zone0, all);
    HalvingPop(all, a.Length);
    p := p0;
    if end - start == 2 {
      if cmp(a[start], a[end - 1]) > 0 {
        SwapRearranges(a[..], s0, p0, start, end - 1);
        SwapRearranges(b[..], t0, p0, start, end - 1);
        ExchangeZone(cmp, a[..], zone0, all, start, end - 1);
        Exchange(a, b, start, end - 1);
        p := Swapped(p0, start, end - 1);
      }
    }
    zone := CloseZone(cmp, a[..], zone0, all);
  }

  lemma HalvingPop(segs: seq<Seg>, n: int)
    requires segs != [] && Halving(segs, n)
    ensures Halving(segs[..|segs| - 1], n)
  {
  }

  /** Sorts `a` and rearranges the companion `b` alike, for every length an index can have;
      the segment stacks never overflow. */
  method QuickSort<T(!new), U>(a: array<T>, b: array<U>, cmp: (T, T) -> int) returns (ghost p: seq<int>)
    requires IsComparator(cmp) && a as object != b && a.Length == b.Length <= 0x1_0000_0000_0000_0000
    modifies a, b
    ensures Ascending(cmp, a[..])
    ensures Rearranged(a[..], old(a[..]), p) && Rearranged(b[..], old(b[..]), p)
  {
    hide Progress, Weight, Ascending, Rearranged, Identity;
    var startStack, endStack := new int[STACK_SIZE], new int[STACK_SIZE];
    startStack[0] := 0;
    endStack[0] := a.Length;
    var stacki := 1;
    ghost var segs := [Seg(0, a.Length)];
    ghost var zone := seq(a.Length, x => 0);
    p := Identity(a.Length);
    AllPending(cmp, a[..], b[..]);
    while stacki > 0
      invariant Progress(cmp, a[..], old(a[..]), b[..], old(b[..]), p, zone, segs)
      invariant OnStack(startStack, endStack, segs) && stacki == |segs|
      decreases Weight(segs)
    {
      ghost var all := segs;
      WeightBounded(cmp, a[..], old(a[..]), b[..], old(b[..]), p, zone, segs);
      stacki := stacki - 1;
      var start, end := startStack[stacki], endStack[stacki];
      segs := segs[..stacki];
      assert all == segs + [Seg(start, end)];
      stacki, p, zone, segs := SortSegment(a, b, cmp, startStack, endStack, stacki, start, end,
                                           old(a[..]), old(b[..]), p, zone, segs);
    }
    AllInOrder(cmp, a[..], old(a[..]), b[..], old(b[..]), p, zone);
  }

  /** Works on one segment until it is in order, pushing the larger sides of its splits. */
  method SortSegment<T(!new), U>(a: array<T>, b: array<U>, cmp: (T, T) -> int, startStack: array<int>,
                                 endStack: array<int>,
                                 stacki0: int, start0: int, end0: int,
                                 ghost s0: seq<T>, ghost t0: seq<U>, ghost p0: seq<int>, ghost zone0: seq<int>,
                                 ghost segs0: seq<Seg>)
    returns (stacki: int, ghost p: seq<int>, ghost zone: seq<int>, ghost segs: seq<Seg>)
    requires IsComparator(cmp) && a as object != b && startStack != endStack && a.Length <= 0x1_0000_0000_0000_0000
    requires {a as object, b} !! {startStack as object, endStack}
    requires Progress(cmp, a[..], s0, b[..], t0, p0, zone0, segs0 + [Seg(start0, end0)])
    requires OnStack(startStack, endStack, segs0) && stacki0 == |segs0|
    modifies a, b, startStack, endStack
    ensures Progress(cmp, a[..], s0, b[..], t0, p, zone, segs)
    ensures OnStack(startStack, endStack, segs) && stacki == |segs|
    ensures Weight(segs) < Weight(segs0 + [Seg(start0, end0)])
  {
    hide Progress, Weight, OnStack;
    var start, end := start0, end0;
    stacki, p, zone, segs := stacki0, p0, zone0, segs0;
    while end - start > 2
      invariant Progress(cmp, a[..], s0, b[..], t0, p, zone, segs + [Seg(start, end)])
      invariant OnStack(startStack, endStack, segs) && stacki == |segs|
      invariant Weight(segs + [Seg(start, end)]) <= Weight(segs0 + [Seg(start0, end0)])
      decreases Weight(segs + [Seg(start, end)])
    {
      WeightBounded(cmp, a[..], s0, b[..], t0, p, zone, segs + [Seg(start, end)]);
      stacki, start, end, p, zone, segs :=
        Split(a, b, cmp, startStack, endStack, stacki, start, end, s0, t0, p, zone, segs);
    }
    SameLengths(cmp, a[..], s0, b[..], t0, p, zone, segs + [Seg(start, end)]);
    WeightPush(segs, Seg(start, end));
    p, zone := Finish(a, b, cmp, start, end, s0, t0, p, zone, segs);
  }

  lemma AllPending<T, U>(cmp: (T, T) -> int, s: seq<T>, t: seq<U>)
    requires |s| == |t|
    ensures Progress(cmp, s, s, t, t, Identity(|s|), seq(|s|, x => 0), [Seg(0, |s|)])
  {
    IdentityPermutes(s);
    IdentityPermutes(t);
    assert Pow2(0) == 1;
  }

  lemma AllInOrder<T, U>(cmp: (T, T) -> int, s: seq<T>, s0: seq<T>, t: seq<U>, t0: seq<U>, p: seq<int>, zone: seq<int>)
    requires Progress(cmp, s, s0, t, t0, p, zone, [])
    ensures Ascending(cmp, s) && Rearranged(s, s0, p) && Rearranged(t, t0, p)
  {
    NothingPending(cmp, s, zone);
  }

  lemma WeightBounded<T, U>(cmp: (T, T) -> int, s: seq<T>, s0: seq<T>, t: seq<U>, t0: seq<U>,
                            p: seq<int>, zone: seq<int>, segs: seq<Seg>)
    requires Progress(cmp, s, s0, t, t0, p, zone, segs)
    ensures Weight(segs) >= 0
  {
    WeightNonNegative(segs);
  }
}
