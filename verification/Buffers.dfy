/** The pool of preallocated handler buffers, a bitmap allocator (buffer.h, util.h). */
module Buffers {

  // ---------- bits ----------

  /** The bit of handler `id`: the most significant one stands for handler 0. */
  predicate FreeBit(x: bv32, id: bv8)
    requires id < 32
  {
    (x >> (31 - id)) & 1 == 1
  }

  const BVAL: seq<bv32> := [0, 1, 2, 2, 3, 3, 3, 3, 4, 4, 4, 4, 4, 4, 4, 4]

  /** The number of the most significant bit set, counted from 1; 0 if there is none. */
  method Msb32(x0: bv32) returns (r: bv32)
    ensures IsMsb(x0, r)
  {
    var x := x0;
    r := 0;
    if x & 0xFFFF0000 != 0 {
      r := r + 16;
      x := x >> 16;
    }
    if x & 0x0000FF00 != 0 {
      r := r + 8;
      x := x >> 8;
    }
    if x & 0x000000F0 != 0 {
      r := r + 4;
      x := x >> 4;
    }
    NibbleTable(x);
    r := r + BVAL[x as int];
  }

  /** The table holds the answer for four bits. */
  lemma NibbleTable(x: bv32)
    requires x < 16
    ensures x as int < 16
    ensures BVAL[x as int] == if x == 0 then 0 else if x == 1 then 1 else if x < 4 then 2 else if x < 8 then 3 else 4
  {
  }

  lemma ClearBit(x: bv32, id: bv8, j: bv8)
    requires id < 32 && j < 32
    ensures FreeBit(x & !Mask(id), j) <==> j != id && FreeBit(x, j)
  {
  }

  lemma SetBit(x: bv32, id: bv8, j: bv8)
    requires id < 32 && j < 32
    ensures FreeBit(x | Mask(id), j) <==> j == id || FreeBit(x, j)
  {
  }

  /** The handler of the bit that is the `r`-th, counted from 1 at the least significant end. */
  function HandlerOf(r: bv32): (id: bv8)
    requires 1 <= r <= 32
    ensures id < 32 && id as int == 32 - r as int
  {
    (32 - r) as bv8
  }

  /** The most significant bit set belongs to the free handler with the lowest number. */
  lemma MsbIsLowestFree(x: bv32, r: bv32, j: bv8)
    requires 1 <= r <= 32 && x >> (r - 1) == 1 && j < 32
    ensures FreeBit(x, HandlerOf(r)) && (j < HandlerOf(r) ==> !FreeBit(x, j))
  {
  }

  /** The same bit, counted from either end. */
  lemma SameMask(r: bv32)
    requires 1 <= r <= 32
    ensures Mask(HandlerOf(r)) == 1 << (r - 1)
  {
  }

  /** What `ch_bf_return` sets and `ch_bf_reserve` clears. */
  function Mask(id: bv8): bv32
    requires id < 32
  {
    1 << (31 - id)
  }

  function Byte(i: int): bv8
    requires 0 <= i < 32
  {
    i as bv8
  }

  lemma ByteRoundTrip(i: int)
    requires 0 <= i < 32
    ensures Byte(i) < 32 && Byte(i) as int == i
  {
  }

  lemma IndexRoundTrip(id: bv8)
    requires id < 32
    ensures id as int < 32 && Byte(id as int) == id
  {
  }

  lemma SmallerByte(i: bv8, j: bv8)
    requires i as int < j as int
    ensures i < j
  {
  }

  /** The bit of the handler at index `i`. */
  predicate FreeAt(x: bv32, i: int)
    requires 0 <= i < 32
  {
    ByteRoundTrip(i);
    FreeBit(x, Byte(i))
  }

  // ---------- how many are used ----------

  ghost function Count(used: seq<bool>): nat {
    if used == [] then 0 else (if used[0] then 1 else 0) + Count(used[1..])
  }

  lemma {:induction false} CountBound(used: seq<bool>)
    ensures Count(used) <= |used|
    ensures Count(used) < |used| <==> exists i :: 0 <= i < |used| && !used[i]
  {
    if used != [] {
      CountBound(used[1..]);
      if Count(used[1..]) < |used[1..]| {
        var i :| 0 <= i < |used[1..]| && !used[1..][i];
        assert !used[i + 1];
      }
      if i :| 0 <= i < |used| && !used[i] {
        assert i > 0 ==> !used[1..][i - 1];
      }
    }
  }

  lemma {:induction false} CountUpdate(used: seq<bool>, i: int, u: bool)
    requires 0 <= i < |used| && used[i] != u
    ensures Count(used[i := u]) == if u then Count(used) + 1 else Count(used) - 1
  {
    if i > 0 {
      CountUpdate(used[1..], i - 1, u);
      assert used[i := u][1..] == used[1..][i - 1 := u];
    } else {
      assert used[i := u][1..] == used[1..];
    }
  }

  lemma {:induction false} CountNone(used: seq<bool>)
    requires forall i :: 0 <= i < |used| ==> !used[i]
    ensures Count(used) == 0
  {
    if used != [] {
      CountNone(used[1..]);
    }
  }

  // ---------- the pool ----------

  class Handler {
    const id: bv8
    var used: bool

    constructor (id: bv8)
      ensures this.id == id && !used
    {
      this.id := id;
      used := false;
    }
  }

  /** The bitmap agrees with the used flags: a handler's bit is set exactly when it is free,
      and the bits of handlers the pool does not have are clear. */
  ghost predicate Agrees(free: bv32, used: seq<bool>) {
    && |used| <= 32
    && (forall i :: 0 <= i < |used| ==> (FreeAt(free, i) <==> !used[i]))
    && (forall i :: |used| <= i < 32 ==> !FreeAt(free, i))
  }

  /** What the search returns: the place of the most significant bit set. */
  predicate IsMsb(x: bv32, r: bv32) {
    && (x == 0 ==> r == 0)
    && (x != 0 ==> 1 <= r <= 32 && x >> (r - 1) == 1)
  }

  lemma NotZero(x: bv32, id: bv8)
    requires id < 32 && FreeBit(x, id)
    ensures x != 0
  {
  }

  lemma FoundOne(x: bv32, i: int, r: bv32)
    requires 0 <= i < 32 && FreeAt(x, i) && IsMsb(x, r)
    ensures 1 <= r <= 32 && x >> (r - 1) == 1
  {
    hide FreeBit;
    ByteRoundTrip(i);
    NotZero(x, Byte(i));
  }

  lemma LowestAt(x: bv32, r: bv32, j: int)
    requires 1 <= r <= 32 && x >> (r - 1) == 1 && 0 <= j < 32
    ensures HandlerOf(r) as int < 32 && FreeAt(x, HandlerOf(r) as int)
    ensures j < HandlerOf(r) as int ==> !FreeAt(x, j)
  {
    hide FreeBit, HandlerOf;
    var id := HandlerOf(r);
    IndexRoundTrip(id);
    ByteRoundTrip(j);
    MsbIsLowestFree(x, r, Byte(j));
    if j < id as int {
      SmallerByte(Byte(j), id);
    }
  }

  /** In a pool with a free handler the search finds the first one. */
  lemma FirstFree(free: bv32, used: seq<bool>, r: bv32)
    requires Agrees(free, used) && Count(used) < |used| && IsMsb(free, r)
    ensures 1 <= r <= 32 && FirstUnused(used, HandlerOf(r) as int)
  {
    hide FreeAt, HandlerOf, IsMsb;
    CountBound(used);
    var i :| 0 <= i < |used| && !used[i];
    assert FreeAt(free, i);
    FoundOne(free, i, r);
    var k := HandlerOf(r) as int;
    LowestAt(free, r, 0);
    forall j | 0 <= j < k ensures j < 32 && !FreeAt(free, j) {
      LowestAt(free, r, j);
    }
  }

  predicate FirstUnused(used: seq<bool>, k: int) {
    0 <= k < |used| && !used[k] && forall j :: 0 <= j < k ==> used[j]
  }

  lemma ClearAt(free: bv32, id: bv8, i: int)
    requires id < 32 && 0 <= i < 32
    ensures FreeAt(free & !Mask(id), i) <==> i != id as int && FreeAt(free, i)
  {
    hide FreeBit, Mask;
    ByteRoundTrip(i);
    IndexRoundTrip(id);
    ClearBit(free, id, Byte(i));
  }

  lemma SetAt(free: bv32, id: bv8, i: int)
    requires id < 32 && 0 <= i < 32
    ensures FreeAt(free | Mask(id), i) <==> i == id as int || FreeAt(free, i)
  {
    hide FreeBit, Mask;
    ByteRoundTrip(i);
    IndexRoundTrip(id);
    SetBit(free, id, Byte(i));
  }

  lemma ReserveAgrees(free: bv32, used: seq<bool>, id: bv8)
    requires Agrees(free, used) && id < 32 && id as int < |used|
    ensures Agrees(free & !Mask(id), used[id as int := true])
  {
    hide FreeAt, Mask;
    var free', used' := free & !Mask(id), used[id as int := true];
    forall i | 0 <= i < 32 ensures FreeAt(free', i) <==> i < |used| && !used'[i] {
      ClearAt(free, id, i);
    }
  }

  lemma ReturnAgrees(free: bv32, used: seq<bool>, id: bv8)
    requires Agrees(free, used) && id < 32 && id as int < |used|
    ensures Agrees(free | Mask(id), used[id as int := false])
  {
    hide FreeAt, Mask;
    var free', used' := free | Mask(id), used[id as int := false];
    forall i | 0 <= i < 32 ensures FreeAt(free', i) <==> i < |used| && !used'[i] {
      SetAt(free, id, i);
    }
  }

  lemma InitAgrees(max: bv8, used: seq<bool>)
    requires 1 <= max <= 32 && |used| == max as int && forall i :: 0 <= i < |used| ==> !used[i]
    ensures Agrees(0xFFFFFFFF << (32 - max), used)
  {
    var free: bv32 := 0xFFFFFFFF << (32 - max);
    assert max as int <= 32;
    forall i | 0 <= i < 32 ensures FreeAt(free, i) <==> i < max as int {
      ByteRoundTrip(i);
      ShiftedOnes(max, Byte(i));
      if i < max as int {
        SmallerByte(Byte(i), max);
      }
    }
  }

  lemma ShiftedOnes(max: bv8, id: bv8)
    requires 1 <= max <= 32 && id < 32
    ensures FreeBit(0xFFFFFFFF << (32 - max), id) <==> id < max
    ensures id < max ==> id as int < max as int
  {
  }

  class Pool {
    const maxBuffers: bv8
    const handlers: array<Handler>
    var usedBuffers: int
    var freeBuffers: bv32

    /** Which handlers are out. */
    ghost function Out(): seq<bool>
      reads this, handlers, handlers[..]
    {
      seq(handlers.Length, i requires 0 <= i < handlers.Length reads handlers, handlers[..] => handlers[i].used)
    }

    ghost predicate Valid()
      reads this, handlers, handlers[..]
    {
      && maxBuffers <= 32 && handlers.Length == maxBuffers as int
      && (forall i :: 0 <= i < handlers.Length ==> handlers[i].id == Byte(i))
      && usedBuffers == Count(Out()) && (maxBuffers > 0 ==> Agrees(freeBuffers, Out()))
    }

    /** `ch_bf_init`. With no handlers at all the shift is by the full width of the word, and `undefined`
        is whatever that gives. */
    constructor (max: bv8, undefined: bv32)
      requires max <= 32
      ensures Valid() && maxBuffers == max && forall i :: 0 <= i < handlers.Length ==> !Out()[i]
    {
      maxBuffers := max;
      usedBuffers := 0;
      freeBuffers := if max > 0 then 0xFFFFFFFF << (32 - max) else undefined;
      var first := new Handler(0);
      var all := new Handler[max as int](_ => first);
      assert max as int <= 32;
      var i := 0;
      while i < max as int
        invariant 0 <= i <= max as int
        invariant forall k :: 0 <= k < i ==> all[k].id == Byte(k) && !all[k].used
      {
        all[i] := new Handler(i as bv8);
        i := i + 1;
      }
      handlers := all;
      new;
      CountNone(Out());
      if max > 0 {
        InitAgrees(max, Out());
      }
    }

    /** The lowest-numbered free handler, or null exactly when all are out. */
    method Reserve() returns (h: Handler?)
      requires Valid()
      modifies this, handlers[..]
      ensures Valid()
      ensures h == null <==> forall i :: 0 <= i < |old(Out())| ==> old(Out())[i]
      ensures h == null ==> Out() == old(Out())
      ensures h != null ==>
                exists k :: 0 <= k < handlers.Length && h == handlers[k] && FirstUnused(old(Out()), k)
                            && Out() == old(Out())[k := true]
    {
      hide Agrees, Count, IsMsb, HandlerOf, Mask;
      h := null;
      CountBound(Out());
      if usedBuffers < maxBuffers as int {
        var free := Msb32(freeBuffers);
        FirstFree(freeBuffers, Out(), free);
        SameMask(free);
        h := Take(free);
      }
    }

    /** Hands out the handler whose bit is the `free`-th. */
    method Take(free: bv32) returns (h: Handler)
      requires Valid() && 1 <= free <= 32 && FirstUnused(Out(), HandlerOf(free) as int)
      modifies this, handlers[..]
      ensures Valid() && h == handlers[HandlerOf(free) as int]
      ensures Out() == old(Out())[HandlerOf(free) as int := true]
    {
      hide Agrees, Count, IsMsb, HandlerOf, Mask;
      ghost var id, out := HandlerOf(free), Out();
      ReserveAgrees(freeBuffers, out, id);
      CountUpdate(out, id as int, true);
      SameMask(free);
      OneHandler(id as int);
      usedBuffers := usedBuffers + 1;
      freeBuffers := freeBuffers & !(1 << (free - 1));
      h := handlers[32 - free as int];
      assert !h.used;
      h.used := true;
      assert Out() == out[id as int := true];
    }

    lemma OneHandler(k: int)
      requires 0 <= k < handlers.Length <= 32 && forall i :: 0 <= i < handlers.Length ==> handlers[i].id == Byte(i)
      ensures forall i :: 0 <= i < handlers.Length && handlers[i] == handlers[k] ==> i == k
    {
      forall i | 0 <= i < handlers.Length && handlers[i] == handlers[k] ensures i == k {
        ByteRoundTrip(i);
        ByteRoundTrip(k);
      }
    }

    /** Takes a handler back that is out; the source asserts that it is. */
    method Return(h: Handler)
      requires Valid() && h in handlers[..] && h.used
      modifies this, h
      ensures Valid() && h.id as int < handlers.Length && h == handlers[h.id as int]
      ensures Out() == old(Out())[h.id as int := false]
    {
      hide Agrees, Count, Mask;
      ghost var k :| 0 <= k < handlers.Length && handlers[k] == h;
      ByteRoundTrip(k);
      OneHandler(k);
      ghost var out := Out();
      CountUpdate(out, k, false);
      ReturnAgrees(freeBuffers, out, h.id);
      h.used := false;
      usedBuffers := usedBuffers - 1;
      freeBuffers := freeBuffers | Mask(h.id);
      assert Out() == out[k := false];
    }
  }
}
