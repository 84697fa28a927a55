/** The heap's entry points as functions on block lists, and what holds over every run of them. */
module HeapLaws {
  import opened Bytes
  import opened Bits
  import opened BlockList

  /** The list an entry point leaves and the pointer it returns. */
  datatype Outcome = Outcome(blocks: seq<Block>, ptr: nat)

  function Initial(lo: nat, hi: nat): seq<Block>
    requires lo + HEADER <= hi
  {
    [Block(lo, hi - lo - HEADER, true)]
  }

  // ---- Entry points ----

  function Malloc(bs: seq<Block>, n: nat): Outcome {
    if n == 0 then Outcome(bs, 0) else
    var k := FirstFit(bs, Align16(n), 0);
    if k == |bs| then Outcome(bs, 0) else Outcome(Take(bs, k, Align16(n)), bs[k].Payload())
  }

  function MallocAligned(bs: seq<Block>, n: nat, a: nat): Outcome
    requires a >= 1
  {
    if n == 0 then Outcome(bs, 0)
    else if a <= 16 then Malloc(bs, n) else
    var k := FirstAligned(bs, Align16(n), a, 0);
    if k == |bs| then Outcome(bs, 0)
    else Outcome(TakeAligned(bs, k, Align16(n), a), bs[k].Payload() + Padding(bs[k], a))
  }

  function Free(bs: seq<Block>, p: nat): seq<Block> {
    var k := IndexOf(bs, p, 0);
    if k == |bs| || bs[k].free then bs else Release(bs, k)
  }

  /** kcalloc's overflow test, on the wrapped 64-bit product. */
  predicate DividesBack(count: nat, n: nat) {
    count == 0 || (count * n % U64) / count == n
  }

  function Calloc(bs: seq<Block>, count: nat, n: nat): Outcome {
    if DividesBack(count, n) then Malloc(bs, count * n % U64) else Outcome(bs, 0)
  }

  ghost predicate LiveAt(bs: seq<Block>, p: nat) {
    exists i :: 0 <= i < |bs| && bs[i].Payload() == p && !bs[i].free
  }

  ghost function Realloc(bs: seq<Block>, p: nat, n: nat): Outcome
    requires p == 0 || LiveAt(bs, p)
  {
    if p == 0 then Malloc(bs, n)
    else if n == 0 then Outcome(Free(bs, p), 0) else
    var i := IndexOf(bs, p, 0);
    if bs[i].size >= n then Outcome(bs, p)
    else if i + 1 < |bs| && bs[i + 1].free && bs[i].size + HEADER + bs[i + 1].size >= n then
      Outcome(Grow(bs, i, Align16(n)), p)
    else
      var m := Malloc(bs, n);
      if m.ptr == 0 then m else Outcome(Free(m.blocks, p), m.ptr)
  }

  // ---- Overflow test ----

  /** kcalloc accepts a request exactly when the true product fits in 64 bits. */
  lemma DividesBackIsExact(count: nat, n: nat)
    requires count < U64 && n < U64
    ensures DividesBack(count, n) <==> count * n < U64
  {
    var t := count * n % U64;
    if count == 0 {
      assert count * n == 0;
    } else if count * n < U64 {
      UniqueRemainder(count * n, count, n, 0);
    } else {
      WrappedQuotientDiffers(t, count, n);
    }
  }

  lemma WrappedQuotientDiffers(t: nat, count: nat, n: nat)
    requires count > 0 && t < count * n
    ensures t / count != n
  {
    assert t == (t / count) * count + t % count;
    assert n * count == count * n;
  }

  // ---- Effect on the live blocks ----

  /** Block b is live at p with room for n bytes. */
  ghost predicate Serves(b: Block, p: nat, n: nat) {
    !b.free && b.Payload() == p && b.size >= n
  }

  /** A stretch free of live blocks ends at x: the heap's end, or the start of a live block. */
  ghost predicate Closes(bs: seq<Block>, hi: nat, x: nat) {
    x == hi || exists b :: b in bs && !b.free && b.addr == x
  }

  /** The block is the request in whole grains; only where the rest of the stretch behind it would be too short for a
      header and one grain does it take that rest too. */
  ghost predicate Snug(bs: seq<Block>, hi: nat, b: Block, n: nat) {
    b.size == Align16(n) || (Align16(n) < b.size < Align16(n) + MIN_SPLIT && Closes(bs, hi, b.End()))
  }

  /** Block b is new and live at p, has room for n bytes, and no more than that takes. */
  ghost predicate Served(bs: seq<Block>, hi: nat, b: Block, p: nat, n: nat) {
    Serves(b, p, n) && Snug(bs, hi, b, n) && b !in Live(bs)
  }

  /** A call that allocates adds one such block to the live ones; one that returns 0 changes nothing. */
  ghost predicate Allocates(bs: seq<Block>, hi: nat, out: Outcome, n: nat) {
    if out.ptr == 0 then out.blocks == bs
    else exists b :: Served(bs, hi, b, out.ptr, n) && Live(out.blocks) == Live(bs) + {b}
  }

  lemma MallocEffect(bs: seq<Block>, lo: nat, hi: nat, n: nat)
    requires Sound(bs, lo, hi)
    ensures var out := Malloc(bs, n); Sound(out.blocks, lo, hi) && Allocates(bs, hi, out, n)
    ensures Malloc(bs, n).ptr % 16 == 0
  {
    hide Coalesced, Tiled, Take, Live, Closes;
    if n > 0 {
      var k := FirstFit(bs, Align16(n), 0);
      if k < |bs| {
        TakeSound(bs, lo, hi, k, Align16(n));
        FreeCloses(bs, lo, hi, k);
        var out := Malloc(bs, n);
        var b := out.blocks[k];
        FreshBlock(bs, lo, hi, k, b);
        assert Served(bs, hi, b, out.ptr, n) && Live(out.blocks) == Live(bs) + {b};
      }
    }
  }

  /** The stretches free of live blocks end where the free blocks do. */
  lemma FreeCloses(bs: seq<Block>, lo: nat, hi: nat, k: nat)
    requires Sound(bs, lo, hi) && k < |bs| && bs[k].free
    ensures Closes(bs, hi, bs[k].End())
  {
    if k + 1 < |bs| {
      assert Abuts(bs, k) && !BothFree(bs, k);
      assert bs[k + 1] in bs;
    }
  }

  /** A live block carved out of a free one was not live before. */
  lemma FreshBlock(bs: seq<Block>, lo: nat, hi: nat, k: nat, b: Block)
    requires Tiled(bs, lo, hi) && k < |bs| && bs[k].free
    requires !b.free && bs[k].addr <= b.addr && b.End() <= bs[k].End()
    ensures b !in Live(bs)
  {
    Ordered(bs, lo, hi);
  }

  lemma AlignedEffect(bs: seq<Block>, lo: nat, hi: nat, n: nat, a: nat)
    requires Sound(bs, lo, hi) && IsPow2(a)
    ensures var out := MallocAligned(bs, n, a);
            Sound(out.blocks, lo, hi) && Allocates(bs, hi, out, n) && out.ptr % a == 0
  {
    hide Sound, Live, Served, TakeAligned, IsPow2, Ceil, FitsAligned, Take;
    Pow2Positive(a);
    if n > 0 {
      if a <= 16 {
        MallocEffect(bs, lo, hi, n);
        DividesSixteen(Malloc(bs, n).ptr, a);
      } else {
        var k := FirstAligned(bs, Align16(n), a, 0);
        if k < |bs| {
          AlignedTakeEffect(bs, lo, hi, n, a, k);
        } else {
          assert 0 % a == 0;
        }
      }
    } else {
      assert 0 % a == 0;
    }
  }

  lemma AlignedTakeEffect(bs: seq<Block>, lo: nat, hi: nat, n: nat, a: nat, k: nat)
    requires Sound(bs, lo, hi) && 0 < n && IsPow2(a) && 16 < a
    requires k < |bs| && FitsAligned(bs[k], Align16(n), a)
    ensures var t, p := TakeAligned(bs, k, Align16(n), a), bs[k].Payload() + Padding(bs[k], a);
            Sound(t, lo, hi) && Allocates(bs, hi, Outcome(t, p), n)
  {
    TakeAlignedSound(bs, lo, hi, k, Align16(n), a);
    var t := TakeAligned(bs, k, Align16(n), a);
    var b := t[AlignedIndex(bs, k, a)];
    FreshBlock(bs, lo, hi, k, b);
    FreeCloses(bs, lo, hi, k);
    assert Served(bs, hi, b, bs[k].Payload() + Padding(bs[k], a), n) && Live(t) == Live(bs) + {b};
  }

  lemma DividesSixteen(x: nat, a: nat)
    requires IsPow2(a) && a <= 16 && x % 16 == 0
    ensures x % a == 0
  {
    var k: nat :| a == Pow2(k);
    assert Pow2(4) == 16 && Pow2(5) == 32;
    if k > 4 {
      Pow2Monotone(5, k);
    }
    SmallerPow2Divides(x, k, 4);
  }

  /** Where kfree looks for a header: pointer arithmetic wraps below zero. */
  function HeaderAddress(p: nat): nat {
    if p >= HEADER then p - HEADER else p + U64 - HEADER
  }

  /** What kfree can tell apart: null, an address whose header would lie outside the heap, a payload of the list.
      Behind any other address it would trust whatever bytes stand there. */
  ghost predicate Freeable(bs: seq<Block>, lo: nat, hi: nat, p: nat) {
    p == 0 || !(lo <= HeaderAddress(p) < hi) || exists i :: 0 <= i < |bs| && bs[i].Payload() == p
  }

  lemma LiveFreeable(bs: seq<Block>, lo: nat, hi: nat, b: Block)
    requires b in bs
    ensures Freeable(bs, lo, hi, b.Payload())
  {
    var i :| 0 <= i < |bs| && bs[i] == b;
    assert bs[i].Payload() == b.Payload();
  }

  /** The live blocks but the one at p. */
  ghost function LiveBut(bs: seq<Block>, p: nat): set<Block> {
    set b | b in Live(bs) && b.Payload() != p
  }

  /** kfree removes the live block at its argument; null, foreign and free pointers change nothing. */
  lemma FreeEffect(bs: seq<Block>, lo: nat, hi: nat, p: nat)
    requires Sound(bs, lo, hi) && Freeable(bs, lo, hi, p)
    ensures Sound(Free(bs, p), lo, hi)
    ensures Live(Free(bs, p)) == LiveBut(bs, p)
    ensures !LiveAt(bs, p) ==> Free(bs, p) == bs
  {
    var k := IndexOf(bs, p, 0);
    if k < |bs| {
      forall i | 0 <= i < |bs| && bs[i].Payload() == p
        ensures i == k
      {
        IndexOfAt(bs, lo, hi, i);
      }
      if !bs[k].free {
        ReleaseSound(bs, lo, hi, k);
      }
    }
  }

  lemma LiveIndex(bs: seq<Block>, lo: nat, hi: nat, p: nat)
    requires Tiled(bs, lo, hi) && LiveAt(bs, p)
    ensures IndexOf(bs, p, 0) < |bs| && !bs[IndexOf(bs, p, 0)].free
  {
    var i :| 0 <= i < |bs| && bs[i].Payload() == p && !bs[i].free;
    IndexOfAt(bs, lo, hi, i);
  }

  /** The block at p gives way to one that serves n bytes at the pointer returned, and takes no more than that takes;
      every other live block stays. */
  ghost predicate Exchanges(bs: seq<Block>, hi: nat, out: Outcome, p: nat, n: nat) {
    exists b :: Serves(b, out.ptr, n) && Snug(bs, hi, b, n) && Live(out.blocks) == LiveBut(bs, p) + {b}
  }

  /** The live block at p has n bytes as it is. */
  ghost predicate Suffices(bs: seq<Block>, p: nat, n: nat) {
    exists b :: b in bs && Serves(b, p, n)
  }

  /** krealloc keeps, grows, moves or drops the one block at p; failure changes nothing. */
  lemma ReallocEffect(bs: seq<Block>, lo: nat, hi: nat, p: nat, n: nat)
    requires Sound(bs, lo, hi) && p != 0 && LiveAt(bs, p)
    ensures var out := Realloc(bs, p, n);
            && Sound(out.blocks, lo, hi)
            && (n == 0 ==> out.ptr == 0 && Live(out.blocks) == LiveBut(bs, p))
            && (n > 0 && out.ptr == 0 ==> out.blocks == bs)
            && (n > 0 && Suffices(bs, p, n) ==> out == Outcome(bs, p))
            && (out.ptr != 0 && !Suffices(bs, p, n) ==> Exchanges(bs, hi, out, p, n))
  {
    hide Sized, Coalesced, Tiled, Grow, Malloc, Free, Live, LiveBut, Exchanges, Allocates, Suffices;
    LiveIndex(bs, lo, hi, p);
    var i := IndexOf(bs, p, 0);
    LiveFreeable(bs, lo, hi, bs[i]);
    FreeEffect(bs, lo, hi, p);
    SufficesIs(bs, lo, hi, i, n);
    if n > 0 && bs[i].size < n {
      if i + 1 < |bs| && bs[i + 1].free && bs[i].size + HEADER + bs[i + 1].size >= n {
        GrowEffect(bs, lo, hi, i, n);
      } else {
        MallocEffect(bs, lo, hi, n);
        if Malloc(bs, n).ptr != 0 {
          MoveEffect(bs, lo, hi, i, n);
        } else {
          NothingServed(bs, hi, n);
        }
      }
    }
  }

  lemma SufficesIs(bs: seq<Block>, lo: nat, hi: nat, i: nat, n: nat)
    requires Tiled(bs, lo, hi) && i < |bs| && !bs[i].free
    ensures Suffices(bs, bs[i].Payload(), n) <==> bs[i].size >= n
  {
    if bs[i].size >= n {
      assert bs[i] in bs && Serves(bs[i], bs[i].Payload(), n);
    }
    forall b | b in bs && Serves(b, bs[i].Payload(), n)
      ensures b == bs[i]
    {
      SamePlace(bs, lo, hi, b, bs[i]);
    }
  }

  lemma NothingServed(bs: seq<Block>, hi: nat, n: nat)
    requires Malloc(bs, n).ptr == 0 && Allocates(bs, hi, Malloc(bs, n), n)
    ensures Malloc(bs, n).blocks == bs
  {
  }

  lemma GrowEffect(bs: seq<Block>, lo: nat, hi: nat, i: nat, n: nat)
    requires Sound(bs, lo, hi) && 0 < n && i + 1 < |bs| && !bs[i].free && bs[i + 1].free
    requires bs[i].size + HEADER + bs[i + 1].size >= n
    ensures var g := Grow(bs, i, Align16(n));
            var p := bs[i].Payload();
            && Sound(g, lo, hi)
            && Exchanges(bs, hi, Outcome(g, p), p, n)
  {
    hide Closes, Grow;
    GrowReaches(bs, lo, hi, i, n);
    GrowSound(bs, lo, hi, i, Align16(n));
    FreeCloses(bs, lo, hi, i + 1);
    OnlyAt(bs, lo, hi, i);
    var g := Grow(bs, i, Align16(n));
    assert Serves(g[i], bs[i].Payload(), n) && Snug(bs, hi, g[i], n);
    assert Live(g) == LiveBut(bs, bs[i].Payload()) + {g[i]};
  }

  lemma MoveEffect(bs: seq<Block>, lo: nat, hi: nat, i: nat, n: nat)
    requires Sound(bs, lo, hi) && i < |bs| && !bs[i].free
    requires Malloc(bs, n).ptr != 0
    ensures var m := Malloc(bs, n);
            var p := bs[i].Payload();
            && m.ptr != p && Sound(Free(m.blocks, p), lo, hi)
            && Exchanges(bs, hi, Outcome(Free(m.blocks, p), m.ptr), p, n)
  {
    hide Sized, Coalesced, Tiled, Malloc, Free, Freeable, Snug;
    var m := Malloc(bs, n);
    var p := bs[i].Payload();
    MallocEffect(bs, lo, hi, n);
    var b :| Served(bs, hi, b, m.ptr, n) && Live(m.blocks) == Live(bs) + {b};
    assert b in Live(m.blocks) && bs[i] in Live(m.blocks);
    LiveFreeable(m.blocks, lo, hi, bs[i]);
    FreeEffect(m.blocks, lo, hi, p);
    SamePlace(m.blocks, lo, hi, b, bs[i]);
    assert b.Payload() != p;
    assert Live(Free(m.blocks, p)) == LiveBut(bs, p) + {b};
  }

  /** A live payload address belongs to one block. */
  lemma OnlyAt(bs: seq<Block>, lo: nat, hi: nat, i: nat)
    requires Tiled(bs, lo, hi) && i < |bs| && !bs[i].free
    ensures Live(bs) == LiveBut(bs, bs[i].Payload()) + {bs[i]}
  {
    forall c | c in Live(bs) && c.Payload() == bs[i].Payload()
      ensures c == bs[i]
    {
      SamePlace(bs, lo, hi, c, bs[i]);
    }
  }

  lemma SamePlace(bs: seq<Block>, lo: nat, hi: nat, b: Block, c: Block)
    requires Tiled(bs, lo, hi) && b in bs && c in bs
    ensures b == c || b.End() <= c.addr || c.End() <= b.addr
  {
    Ordered(bs, lo, hi);
  }

  /** Sizes are multiples of 16, so room for n bytes is room for n rounded up. */
  lemma GrowReaches(bs: seq<Block>, lo: nat, hi: nat, i: nat, n: nat)
    requires Sized(bs) && i + 1 < |bs| && 0 < n
    requires bs[i].size + HEADER + bs[i + 1].size >= n
    ensures bs[i].size + HEADER + bs[i + 1].size >= Align16(n)
  {
    var p, q, r := bs[i].size / 16, bs[i + 1].size / 16, Align16(n) / 16;
    assert bs[i].size == 16 * p && bs[i + 1].size == 16 * q && Align16(n) == 16 * r;
  }

  // ---- Completeness ----

  /** len bytes at a lie inside the heap and touch no live block. */
  ghost predicate Vacant(bs: seq<Block>, lo: nat, hi: nat, a: nat, len: nat) {
    && lo <= a && a + len <= hi
    && forall b | b in bs && !b.free :: b.End() <= a || a + len <= b.addr
  }

  /** A region free of live blocks lies inside one free block. */
  lemma VacantInOneBlock(bs: seq<Block>, lo: nat, hi: nat, a: nat, len: nat) returns (k: nat)
    requires Sound(bs, lo, hi) && Vacant(bs, lo, hi, a, len) && len > 0
    ensures k < |bs| && bs[k].free && bs[k].addr <= a && a + len <= bs[k].End()
  {
    Ordered(bs, lo, hi);
    k := 0;
    while a >= bs[k].End()
      invariant k < |bs| && bs[k].addr <= a
      decreases |bs| - k
    {
      assert k + 1 < |bs|;
      assert Abuts(bs, k);
      k := k + 1;
    }
    assert bs[k] in bs;
    if k + 1 < |bs| {
      assert Abuts(bs, k) && !BothFree(bs, k);
      assert bs[k + 1] in bs;
    }
  }

  lemma FreeIsVacant(bs: seq<Block>, lo: nat, hi: nat, k: nat, len: nat)
    requires Tiled(bs, lo, hi) && k < |bs| && bs[k].free && len <= HEADER + bs[k].size
    ensures Vacant(bs, lo, hi, bs[k].addr, len)
  {
    Ordered(bs, lo, hi);
  }

  /** A header and n bytes, rounded, fit at a. */
  ghost predicate Room(bs: seq<Block>, lo: nat, hi: nat, n: nat, a: nat) {
    Vacant(bs, lo, hi, a, HEADER + Align16(n))
  }

  /** kmalloc returns 0 exactly for size 0, and when no region of the heap that touches no live block can hold header
      and payload. */
  lemma MallocComplete(bs: seq<Block>, lo: nat, hi: nat, n: nat)
    requires Sound(bs, lo, hi)
    ensures Malloc(bs, n).ptr == 0 <==> n == 0 || !exists a :: Room(bs, lo, hi, n, a)
  {
    var k := FirstFit(bs, Align16(n), 0);
    if k < |bs| {
      FreeIsVacant(bs, lo, hi, k, HEADER + Align16(n));
      assert Room(bs, lo, hi, n, bs[k].addr);
    }
    forall a | Room(bs, lo, hi, n, a)
      ensures k < |bs|
    {
      var j := VacantInOneBlock(bs, lo, hi, a, HEADER + Align16(n));
    }
  }

  /** Otherwise it takes the lowest such region. */
  lemma MallocLowest(bs: seq<Block>, lo: nat, hi: nat, n: nat, a: nat)
    requires Sound(bs, lo, hi) && 0 < n && Room(bs, lo, hi, n, a)
    ensures HEADER <= Malloc(bs, n).ptr <= a + HEADER && Room(bs, lo, hi, n, Malloc(bs, n).ptr - HEADER)
  {
    hide Sized, Coalesced, Vacant;
    var j := VacantInOneBlock(bs, lo, hi, a, HEADER + Align16(n));
    var k := FirstFit(bs, Align16(n), 0);
    if k < j {
      InOrder(bs, lo, hi, k, j);
    }
    FreeIsVacant(bs, lo, hi, k, HEADER + Align16(n));
  }

  // ---- When krealloc stays ----

  /** n bytes from p lie inside the heap and touch no live block but the one at p. */
  ghost predicate MayExtend(bs: seq<Block>, hi: nat, p: nat, n: nat) {
    p + n <= hi && forall b | b in bs && !b.free && b.Payload() != p :: b.End() <= p || p + n <= b.addr
  }

  lemma ExtendsInto(bs: seq<Block>, lo: nat, hi: nat, i: nat, n: nat)
    requires Sound(bs, lo, hi) && i < |bs| && !bs[i].free && 0 < n
    ensures MayExtend(bs, hi, bs[i].Payload(), n)
            <==> bs[i].size >= n
                 || (i + 1 < |bs| && bs[i + 1].free && bs[i].size + HEADER + bs[i + 1].size >= n)
  {
    Ordered(bs, lo, hi);
    if i + 1 < |bs| {
      assert Abuts(bs, i) && bs[i + 1] in bs;
      if bs[i + 1].free && i + 2 < |bs| {
        assert Abuts(bs, i + 1) && !BothFree(bs, i + 1) && bs[i + 2] in bs;
      }
    }
  }

  /** krealloc keeps the pointer exactly when the bytes asked for are free behind it, up to the next live block; else it
      returns what kmalloc would, 0 exactly when no vacant region has room. */
  lemma ReallocComplete(bs: seq<Block>, lo: nat, hi: nat, p: nat, n: nat)
    requires Sound(bs, lo, hi) && p != 0 && LiveAt(bs, p) && 0 < n
    ensures Realloc(bs, p, n).ptr == p <==> MayExtend(bs, hi, p, n)
    ensures !MayExtend(bs, hi, p, n) ==>
              && Realloc(bs, p, n).ptr == Malloc(bs, n).ptr
              && (Realloc(bs, p, n).ptr == 0 <==> !exists a :: Room(bs, lo, hi, n, a))
  {
    hide Sized, Coalesced, Tiled, Grow, Malloc, Free, MayExtend, Room;
    LiveIndex(bs, lo, hi, p);
    var i := IndexOf(bs, p, 0);
    ExtendsInto(bs, lo, hi, i, n);
    MallocComplete(bs, lo, hi, n);
    if Malloc(bs, n).ptr != 0 {
      MoveEffect(bs, lo, hi, i, n);
    }
  }

  /** On null krealloc is kmalloc. */
  lemma ReallocNull(bs: seq<Block>, lo: nat, hi: nat, n: nat)
    requires Sound(bs, lo, hi)
    ensures var out := Realloc(bs, 0, n);
            && Sound(out.blocks, lo, hi) && Allocates(bs, hi, out, n)
            && (out.ptr == 0 <==> n == 0 || !exists a :: Room(bs, lo, hi, n, a))
            && forall a: nat | n > 0 && Room(bs, lo, hi, n, a) :: out.ptr <= a + HEADER
  {
    MallocEffect(bs, lo, hi, n);
    MallocComplete(bs, lo, hi, n);
    forall a: nat | n > 0 && Room(bs, lo, hi, n, a)
      ensures Malloc(bs, n).ptr <= a + HEADER
    {
      MallocLowest(bs, lo, hi, n, a);
    }
  }

  /** kcalloc allocates the true product, when it fits in 64 bits and a vacant region has room for it. */
  lemma CallocEffect(bs: seq<Block>, lo: nat, hi: nat, count: nat, n: nat)
    requires Sound(bs, lo, hi) && count < U64 && n < U64
    ensures var out := Calloc(bs, count, n);
            && Sound(out.blocks, lo, hi) && Allocates(bs, hi, out, count * n)
            && (out.ptr == 0 <==>
                  count * n == 0 || count * n >= U64 || !exists a :: Room(bs, lo, hi, count * n, a))
  {
    DividesBackIsExact(count, n);
    var total := count * n;
    if total < U64 {
      SmallRemainder(total);
      MallocEffect(bs, lo, hi, total);
      MallocComplete(bs, lo, hi, total);
    }
  }

  lemma SmallRemainder(x: nat)
    requires x < U64
    ensures x % U64 == x
  {
  }

  /** A stretch free of live blocks begins at x: the heap's start, or the end of a live block. */
  ghost predicate Begins(bs: seq<Block>, lo: nat, x: nat) {
    x == lo || exists b :: b in bs && !b.free && b.End() == x
  }

  /** At the first aligned address behind a header at x there is room, and in front of it room for nothing or for a
      whole block. */
  ghost predicate AlignedRoom(bs: seq<Block>, lo: nat, hi: nat, n: nat, a: nat, x: nat)
    requires a >= 1
  {
    var p := Ceil(x + HEADER, a);
    Begins(bs, lo, x) && Vacant(bs, lo, hi, x, p + Align16(n) - x) && (p == x + HEADER || p >= x + HEADER + MIN_SPLIT)
  }

  /** The stretches free of live blocks begin where the free blocks do. */
  lemma BeginsAtFree(bs: seq<Block>, lo: nat, hi: nat, x: nat, len: nat) returns (k: nat)
    requires Sound(bs, lo, hi) && Begins(bs, lo, x) && Vacant(bs, lo, hi, x, len) && len > 0
    ensures k < |bs| && bs[k].free && bs[k].addr == x && x + len <= bs[k].End()
  {
    Ordered(bs, lo, hi);
    k := VacantInOneBlock(bs, lo, hi, x, len);
    if x != lo {
      var b :| b in bs && !b.free && b.End() == x;
      SamePlace(bs, lo, hi, b, bs[k]);
    }
  }

  lemma FreeBegins(bs: seq<Block>, lo: nat, hi: nat, k: nat)
    requires Sound(bs, lo, hi) && k < |bs| && bs[k].free
    ensures Begins(bs, lo, bs[k].addr)
  {
    if k > 0 {
      assert Abuts(bs, k - 1) && !BothFree(bs, k - 1);
      assert bs[k - 1] in bs;
    }
  }

  lemma FitsIsRoom(bs: seq<Block>, lo: nat, hi: nat, n: nat, a: nat, k: nat)
    requires Sound(bs, lo, hi) && a >= 1 && k < |bs| && FitsAligned(bs[k], Align16(n), a)
    ensures AlignedRoom(bs, lo, hi, n, a, bs[k].addr)
  {
    FreeBegins(bs, lo, hi, k);
    FreeIsVacant(bs, lo, hi, k, Ceil(bs[k].Payload(), a) + Align16(n) - bs[k].addr);
  }

  /** At alignments up to 16 every free block fits as it stands. */
  lemma SmallAlignment(bs: seq<Block>, n: nat, a: nat)
    requires Sized(bs) && IsPow2(a) && a <= 16
    ensures 1 <= a && FirstFit(bs, n, 0) == FirstAligned(bs, n, a, 0)
    ensures forall k | 0 <= k < |bs| :: Padding(bs[k], a) == 0
  {
    Pow2Positive(a);
    forall k | 0 <= k < |bs|
      ensures Padding(bs[k], a) == 0
    {
      DividesSixteen(bs[k].Payload(), a);
      CeilOfMultiple(bs[k].Payload(), a);
    }
    var i, j := FirstFit(bs, n, 0), FirstAligned(bs, n, a, 0);
    assert i < |bs| ==> FitsAligned(bs[i], n, a);
    assert i <= j && j <= i;
  }

  lemma CeilOfMultiple(x: nat, a: nat)
    requires a >= 1 && x % a == 0
    ensures Ceil(x, a) == x
  {
    var q := x / a;
    assert x == q * a;
    UniqueRemainder(x + a - 1, a, q, a - 1);
    CeilIs(x, a);
  }

  /** The block kmalloc_aligned chooses, and the pointer. */
  lemma AlignedChoice(bs: seq<Block>, lo: nat, hi: nat, n: nat, a: nat) returns (k: nat)
    requires Sound(bs, lo, hi) && 0 < n && IsPow2(a)
    ensures 1 <= a && k == FirstAligned(bs, Align16(n), a, 0)
    ensures MallocAligned(bs, n, a).ptr == if k == |bs| then 0 else Ceil(bs[k].Payload(), a)
  {
    hide Tiled, Coalesced, Take, TakeAligned, Ceil, IsPow2, Align16;
    Pow2Positive(a);
    k := FirstAligned(bs, Align16(n), a, 0);
    if a <= 16 {
      SmallAlignment(bs, Align16(n), a);
    }
  }

  /** kmalloc_aligned returns 0 exactly for size 0, and when no stretch free of live blocks has room at its first
      aligned address. */
  lemma AlignedComplete(bs: seq<Block>, lo: nat, hi: nat, n: nat, a: nat)
    requires Sound(bs, lo, hi) && IsPow2(a)
    ensures 1 <= a
    ensures MallocAligned(bs, n, a).ptr == 0 <==> n == 0 || !exists x :: AlignedRoom(bs, lo, hi, n, a, x)
  {
    hide MallocAligned, Ceil, IsPow2, Align16, Begins, Vacant, Tiled, Sized, Coalesced;
    Pow2Positive(a);
    if n == 0 {
      NothingAsked(bs, a);
    } else {
      var k := AlignedChoice(bs, lo, hi, n, a);
      if k < |bs| {
        FitsIsRoom(bs, lo, hi, n, a, k);
      }
      forall x: nat | AlignedRoom(bs, lo, hi, n, a, x)
        ensures k < |bs|
      {
        var j := BeginsAtFree(bs, lo, hi, x, Ceil(x + HEADER, a) + Align16(n) - x);
        assert FitsAligned(bs[j], Align16(n), a);
      }
    }
  }

  lemma NothingAsked(bs: seq<Block>, a: nat)
    requires a >= 1
    ensures MallocAligned(bs, 0, a) == Outcome(bs, 0)
  {
  }

  /** Otherwise the pointer is such an address, and the lowest. */
  lemma AlignedLowest(bs: seq<Block>, lo: nat, hi: nat, n: nat, a: nat, x: nat)
    requires Sound(bs, lo, hi) && 0 < n && IsPow2(a) && a >= 1 && AlignedRoom(bs, lo, hi, n, a, x)
    ensures var p := MallocAligned(bs, n, a).ptr;
            && 0 < p <= Ceil(x + HEADER, a)
            && exists y: nat :: AlignedRoom(bs, lo, hi, n, a, y) && p == Ceil(y + HEADER, a)
  {
    hide Sized, Coalesced, Vacant, Begins, Ceil, IsPow2, Align16, MallocAligned;
    var j := BeginsAtFree(bs, lo, hi, x, Ceil(x + HEADER, a) + Align16(n) - x);
    assert FitsAligned(bs[j], Align16(n), a);
    var k := AlignedChoice(bs, lo, hi, n, a);
    if k < j {
      InOrder(bs, lo, hi, k, j);
    }
    FitsIsRoom(bs, lo, hi, n, a, k);
    assert AlignedRoom(bs, lo, hi, n, a, bs[k].addr) && bs[k].Payload() == bs[k].addr + HEADER;
  }

  /** It tries one address per free block: when the heap starts on an odd multiple of 16, a wholly free heap of any
      size has nothing for it at alignment 32. */
  lemma AlignedMisses(lo: nat, hi: nat, n: nat)
    requires lo + MIN_SPLIT <= hi && lo % 32 == 16
    ensures MallocAligned(Initial(lo, hi), n, 32).ptr == 0
  {
    if n > 0 {
      var bs := Initial(lo, hi);
      assert Ceil(bs[0].Payload(), 32) == bs[0].Payload() + 16;
      assert FirstAligned(bs, Align16(n), 32, 0) == FirstAligned(bs, Align16(n), 32, 1);
    }
  }

  /** A request of the last fifteen sizes wraps to 0: whatever free block answers is too small, and a block that can be
      split leaves a live block without payload, against the invariant. */
  lemma WrappedRequest(bs: seq<Block>, lo: nat, hi: nat, n: nat)
    requires Sound(bs, lo, hi) && hi < U64 - 16 < n < U64
    ensures RoundUp(n, 16) == 0
    ensures var k := FirstFit(bs, 0, 0);
            k < |bs| ==> && k < |Take(bs, k, 0)| && Take(bs, k, 0)[k].size < n
                         && (bs[k].size >= MIN_SPLIT ==> !Sound(Take(bs, k, 0), lo, hi))
  {
    MaskAligns16(n);
    Ordered(bs, lo, hi);
  }

  // ---- Accounting ----

  ghost function Total(bs: seq<Block>, free: bool): nat {
    if bs == [] then 0
    else Total(bs[..|bs| - 1], free) + if bs[|bs| - 1].free == free then bs[|bs| - 1].size else 0
  }

  /** Free bytes, live bytes and headers add up to the heap. */
  lemma {:induction false} Conservation(bs: seq<Block>, lo: nat, hi: nat)
    requires Tiled(bs, lo, hi)
    ensures Total(bs, true) + Total(bs, false) + HEADER * |bs| == hi - lo
  {
    if |bs| > 1 {
      var front, last := bs[..|bs| - 1], bs[|bs| - 1];
      assert Abuts(bs, |front| - 1);
      forall i | 0 <= i < |front| - 1
        ensures Abuts(front, i)
      {
        assert Abuts(bs, i);
      }
      Conservation(front, lo, last.addr);
    } else {
      assert bs[..0] == [];
    }
  }

  /** n addresses from p on. */
  ghost function Range(p: nat, n: nat): (r: set<nat>)
    ensures |r| == n && forall x: nat :: x in r <==> p <= x < p + n
  {
    if n == 0 then {} else Range(p, n - 1) + {p + n - 1}
  }

  /** The addresses in payloads of free blocks, or of live ones. */
  ghost function PayloadBytes(bs: seq<Block>, free: bool): set<nat> {
    set b, x | b in bs && b.free == free && x in Range(b.Payload(), b.size) :: x
  }

  lemma PayloadSnoc(front: seq<Block>, last: Block, free: bool)
    ensures PayloadBytes(front + [last], free)
            == PayloadBytes(front, free) + if last.free == free then Range(last.Payload(), last.size) else {}
  {
    hide Range;
    var bs := front + [last];
    assert forall b :: b in bs <==> b in front || b == last;
  }

  /** The total counts the bytes: kget_free_memory gives the number of addresses in free payloads. */
  lemma {:induction false} TotalCounts(bs: seq<Block>, lo: nat, hi: nat, free: bool)
    requires Tiled(bs, lo, hi)
    ensures Total(bs, free) == |PayloadBytes(bs, free)|
    ensures forall x | x in PayloadBytes(bs, free) :: x < hi
  {
    hide PayloadBytes, Range;
    var front, last := bs[..|bs| - 1], bs[|bs| - 1];
    var own := if last.free == free then Range(last.Payload(), last.size) else {};
    assert bs == front + [last];
    PayloadSnoc(front, last, free);
    if |bs| > 1 {
      assert Abuts(bs, |front| - 1);
      forall i | 0 <= i < |front| - 1
        ensures Abuts(front, i)
      {
        assert Abuts(bs, i);
      }
      TotalCounts(front, lo, last.addr, free);
      assert PayloadBytes(front, free) !! own;
    } else {
      NoPayload(free);
    }
  }

  lemma NoPayload(free: bool)
    ensures PayloadBytes([], free) == {}
  {
  }

  // ---- Restoration ----

  lemma InitialSound(lo: nat, hi: nat)
    requires lo + MIN_SPLIT <= hi && lo % 16 == 0 && hi % 16 == 0
    ensures Sound(Initial(lo, hi), lo, hi) && Live(Initial(lo, hi)) == {}
  {
  }

  /** kmalloc, then kfree of the result, gives back the very same block list. */
  lemma MallocThenFree(bs: seq<Block>, lo: nat, hi: nat, n: nat)
    requires Sound(bs, lo, hi) && Malloc(bs, n).ptr != 0
    ensures Free(Malloc(bs, n).blocks, Malloc(bs, n).ptr) == bs
  {
    MallocEffect(bs, lo, hi, n);
    AllocationUndone(bs, lo, hi, Malloc(bs, n), n);
  }

  /** Likewise for kmalloc_aligned, although it may split twice. */
  lemma AlignedThenFree(bs: seq<Block>, lo: nat, hi: nat, n: nat, a: nat)
    requires Sound(bs, lo, hi) && IsPow2(a)
    requires MallocAligned(bs, n, a).ptr != 0
    ensures Free(MallocAligned(bs, n, a).blocks, MallocAligned(bs, n, a).ptr) == bs
  {
    AlignedEffect(bs, lo, hi, n, a);
    AllocationUndone(bs, lo, hi, MallocAligned(bs, n, a), n);
  }

  lemma AllocationUndone(bs: seq<Block>, lo: nat, hi: nat, out: Outcome, n: nat)
    requires Sound(bs, lo, hi) && Sound(out.blocks, lo, hi) && out.ptr != 0 && Allocates(bs, hi, out, n)
    ensures Free(out.blocks, out.ptr) == bs
  {
    hide Sized, Coalesced, Tiled, Free, Freeable;
    var b :| Served(bs, hi, b, out.ptr, n) && Live(out.blocks) == Live(bs) + {b};
    LiveFreeable(out.blocks, lo, hi, b);
    FreeEffect(out.blocks, lo, hi, out.ptr);
    forall c | c in Live(bs)
      ensures c.Payload() != out.ptr
    {
      assert c in Live(out.blocks) && b in Live(out.blocks);
      SamePlace(out.blocks, lo, hi, b, c);
    }
    assert Live(Free(out.blocks, out.ptr)) == Live(bs);
    Canonical(Free(out.blocks, out.ptr), bs, lo, hi);
  }

  // ---- Runs ----

  datatype HeapCall =
    | KMalloc(n: nat)
    | KMallocAligned(n: nat, a: nat)
    | KCalloc(count: nat, n: nat)
    | KRealloc(p: nat, n: nat)
    | KFree(p: nat)

  /** The calls the heap's contract covers: sizes short of wrapping, powers of two, and the pointers kfree and krealloc
      can tell apart. */
  ghost predicate Legal(bs: seq<Block>, lo: nat, hi: nat, call: HeapCall) {
    match call
    case KMalloc(n) => n <= U64 - 16
    case KMallocAligned(n, a) => IsPow2(a) && hi + a <= U64 && n + a <= U64 - 16
    case KCalloc(count, n) => DividesBack(count, n) ==> count * n % U64 <= U64 - 16
    case KRealloc(p, n) => n <= U64 - 16 && (p == 0 || LiveAt(bs, p))
    case KFree(p) => Freeable(bs, lo, hi, p)
  }

  ghost function Step(bs: seq<Block>, lo: nat, hi: nat, call: HeapCall): seq<Block>
    requires Sound(bs, lo, hi) && Legal(bs, lo, hi, call)
  {
    match call
    case KMalloc(n) => Malloc(bs, n).blocks
    case KMallocAligned(n, a) => MallocAligned(bs, n, a).blocks
    case KCalloc(count, n) => Calloc(bs, count, n).blocks
    case KRealloc(p, n) => Realloc(bs, p, n).blocks
    case KFree(p) => Free(bs, p)
  }

  lemma StepSound(bs: seq<Block>, lo: nat, hi: nat, call: HeapCall)
    requires Sound(bs, lo, hi) && Legal(bs, lo, hi, call)
    ensures Sound(Step(bs, lo, hi, call), lo, hi)
  {
    match call
    case KMalloc(n) => MallocEffect(bs, lo, hi, n);
    case KMallocAligned(n, a) =>
      AlignedEffect(bs, lo, hi, n, a);
    case KCalloc(count, n) =>
      if DividesBack(count, n) {
        MallocEffect(bs, lo, hi, count * n % U64);
      }
    case KRealloc(p, n) =>
      if p == 0 {
        MallocEffect(bs, lo, hi, n);
      } else {
        ReallocEffect(bs, lo, hi, p, n);
      }
    case KFree(p) => FreeEffect(bs, lo, hi, p);
  }

  /** A run of legal calls from bs to final. */
  ghost predicate HeapRun(bs: seq<Block>, lo: nat, hi: nat, calls: seq<HeapCall>, final: seq<Block>)
    requires Sound(bs, lo, hi)
    decreases |calls|
  {
    if calls == [] then final == bs else
    && Legal(bs, lo, hi, calls[0])
    && (StepSound(bs, lo, hi, calls[0]); HeapRun(Step(bs, lo, hi, calls[0]), lo, hi, calls[1..], final))
  }

  /** The invariant holds after every run. */
  lemma {:induction false} RunSound(bs: seq<Block>, lo: nat, hi: nat, calls: seq<HeapCall>, final: seq<Block>)
    requires Sound(bs, lo, hi) && HeapRun(bs, lo, hi, calls, final)
    ensures Sound(final, lo, hi)
    decreases |calls|
  {
    if calls != [] {
      StepSound(bs, lo, hi, calls[0]);
      RunSound(Step(bs, lo, hi, calls[0]), lo, hi, calls[1..], final);
    }
  }

  /** Whatever was called in between, coming back to the same live blocks restores the list; with none left it is
      the single block init_heap built. */
  lemma RunRestores(bs: seq<Block>, lo: nat, hi: nat, calls: seq<HeapCall>, final: seq<Block>)
    requires Sound(bs, lo, hi) && HeapRun(bs, lo, hi, calls, final)
    requires lo % 16 == 0 && hi % 16 == 0 && lo + MIN_SPLIT <= hi
    ensures Live(final) == Live(bs) ==> final == bs
    ensures Live(final) == {} <==> final == Initial(lo, hi)
  {
    RunSound(bs, lo, hi, calls, final);
    InitialSound(lo, hi);
    if Live(final) == Live(bs) {
      Canonical(final, bs, lo, hi);
    }
    if Live(final) == {} {
      Canonical(final, Initial(lo, hi), lo, hi);
    }
  }
}
