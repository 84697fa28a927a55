/** The kernel heap as a value: the list of blocks between heap_start and heap_end, what each entry point does
    to it, and the laws of those operations. Addresses are absolute. */
module BlockList {
  import opened Bytes
  import opened Bits

  const HEADER: nat := 32     // sizeof(header_t)
  const MIN_SPLIT: nat := 48  // sizeof(header_t) + 16

  datatype Block = Block(addr: nat, size: nat, free: bool) {
    function Payload(): nat {
      addr + HEADER
    }

    function End(): nat {
      addr + HEADER + size
    }
  }

  // ---- Shape ----

  ghost predicate Abuts(bs: seq<Block>, i: nat)
    requires i + 1 < |bs|
  {
    bs[i].End() == bs[i + 1].addr
  }

  ghost predicate BothFree(bs: seq<Block>, i: nat)
    requires i + 1 < |bs|
  {
    bs[i].free && bs[i + 1].free
  }

  /** Consecutive blocks abut, the first starts at lo and the last ends at hi. */
  ghost predicate Tiled(bs: seq<Block>, lo: nat, hi: nat) {
    && bs != []
    && bs[0].addr == lo
    && bs[|bs| - 1].End() == hi
    && forall i {:trigger Abuts(bs, i)} | 0 <= i < |bs| - 1 :: Abuts(bs, i)
  }

  ghost predicate Sized(bs: seq<Block>) {
    forall i | 0 <= i < |bs| :: bs[i].addr % 16 == 0 && bs[i].size % 16 == 0 && bs[i].size >= 16
  }

  /** No two neighbours are both free. */
  ghost predicate Coalesced(bs: seq<Block>) {
    forall i {:trigger BothFree(bs, i)} | 0 <= i < |bs| - 1 :: !BothFree(bs, i)
  }

  ghost predicate Shaped(bs: seq<Block>, lo: nat, hi: nat): (ok: bool)
    ensures ok ==> bs != [] && bs[0].addr == lo
  {
    Tiled(bs, lo, hi) && Sized(bs)
  }

  /** The heap invariant. */
  ghost predicate Sound(bs: seq<Block>, lo: nat, hi: nat) {
    Shaped(bs, lo, hi) && Coalesced(bs)
  }

  lemma {:induction false} InOrder(bs: seq<Block>, lo: nat, hi: nat, i: nat, j: nat)
    requires Tiled(bs, lo, hi) && i < j < |bs|
    ensures bs[i].End() <= bs[j].addr
  {
    if i + 1 < j {
      InOrder(bs, lo, hi, i, j - 1);
      assert Abuts(bs, j - 1);
    } else {
      assert Abuts(bs, i);
    }
  }

  lemma Ordered(bs: seq<Block>, lo: nat, hi: nat)
    requires Tiled(bs, lo, hi)
    ensures forall i, j | 0 <= i < j < |bs| :: bs[i].End() <= bs[j].addr
    ensures forall i | 0 <= i < |bs| :: lo <= bs[i].addr && bs[i].End() <= hi
  {
    forall i, j | 0 <= i < j < |bs|
      ensures bs[i].End() <= bs[j].addr
    {
      InOrder(bs, lo, hi, i, j);
    }
    forall i | 0 <= i < |bs|
      ensures lo <= bs[i].addr && bs[i].End() <= hi
    {
      if 0 < i { InOrder(bs, lo, hi, 0, i); }
      if i < |bs| - 1 { InOrder(bs, lo, hi, i, |bs| - 1); }
    }
  }

  // ---- Operations ----

  function Replace(bs: seq<Block>, i: nat, j: nat, seg: seq<Block>): seq<Block>
    requires i <= j <= |bs|
  {
    bs[..i] + seg + bs[j..]
  }

  /** split_block */
  function Split(bs: seq<Block>, i: nat, n: nat): seq<Block>
    requires i < |bs|
  {
    var b := bs[i];
    if b.size >= n + MIN_SPLIT then
      Replace(bs, i, i + 1, [b.(size := n), Block(b.addr + HEADER + n, b.size - n - HEADER, true)])
    else bs
  }

  /** Carve a live block of at least n bytes out of block i. */
  function Take(bs: seq<Block>, i: nat, n: nat): seq<Block>
    requires i < |bs|
  {
    var s := Split(bs, i, n);
    s[i := s[i].(free := false)]
  }

  /** Block i swallows its right neighbour. */
  function Merge(bs: seq<Block>, i: nat): seq<Block>
    requires i + 1 < |bs|
  {
    Replace(bs, i, i + 2, [bs[i].(size := bs[i].size + HEADER + bs[i + 1].size)])
  }

  /** coalesce */
  function Coalesce(bs: seq<Block>, i: nat): seq<Block>
    requires i < |bs|
  {
    if !bs[i].free then bs else
    var right := if i + 1 < |bs| && bs[i + 1].free then Merge(bs, i) else bs;
    if 0 < i && right[i - 1].free then Merge(right, i - 1) else right
  }

  function Release(bs: seq<Block>, i: nat): seq<Block>
    requires i < |bs|
  {
    Coalesce(bs[i := bs[i].(free := true)], i)
  }

  /** Least index at or after i of a free block of at least n bytes, or |bs|. */
  function FirstFit(bs: seq<Block>, n: nat, i: nat): (k: nat)
    requires i <= |bs|
    ensures i <= k <= |bs|
    ensures forall j | i <= j < k :: !(bs[j].free && bs[j].size >= n)
    ensures k < |bs| ==> bs[k].free && bs[k].size >= n
    decreases |bs| - i
  {
    if i == |bs| || (bs[i].free && bs[i].size >= n) then i else FirstFit(bs, n, i + 1)
  }

  /** Index of the block whose payload starts at p, or |bs|. */
  function IndexOf(bs: seq<Block>, p: nat, i: nat): (k: nat)
    requires i <= |bs|
    ensures i <= k <= |bs|
    ensures forall j | i <= j < k :: bs[j].Payload() != p
    ensures k < |bs| ==> bs[k].Payload() == p
    decreases |bs| - i
  {
    if i == |bs| || bs[i].Payload() == p then i else IndexOf(bs, p, i + 1)
  }

  lemma IndexOfAt(bs: seq<Block>, lo: nat, hi: nat, k: nat)
    requires Tiled(bs, lo, hi) && k < |bs|
    ensures IndexOf(bs, bs[k].Payload(), 0) == k
  {
    Ordered(bs, lo, hi);
  }

  /** A request in whole 16-byte grains. */
  function Align16(n: nat): (r: nat)
    ensures n <= r < n + 16 && r % 16 == 0
  {
    (n + 15) / 16 * 16
  }

  /** The mask in align16 computes it, except for the fifteen largest requests, which wrap to 0. */
  lemma MaskAligns16(n: nat)
    requires n < U64
    ensures RoundUp(n, 16) == if n <= U64 - 16 then Align16(n) else 0
  {
    assert Pow2(4) == 16;
    RoundUpIsCeil(n, 16);
  }

  // ---- Replacing a segment keeps the shape ----

  lemma SizedReplace(bs: seq<Block>, i: nat, j: nat, seg: seq<Block>)
    requires Sized(bs) && Sized(seg) && i <= j <= |bs|
    ensures Sized(Replace(bs, i, j, seg))
  {
  }

  lemma ShapedReplace(bs: seq<Block>, i: nat, j: nat, seg: seq<Block>, lo: nat, hi: nat)
    requires Shaped(bs, lo, hi) && i < j <= |bs|
    requires Shaped(seg, bs[i].addr, bs[j - 1].End())
    ensures Shaped(Replace(bs, i, j, seg), lo, hi)
  {
    hide Sized;
    var r := Replace(bs, i, j, seg);
    var d := i + |seg|;
    forall k | 0 <= k < |r|
      ensures r[k] == if k < i then bs[k] else if k < d then seg[k - i] else bs[k - d + j]
    {
    }
    SizedReplace(bs, i, j, seg);
    forall k | 0 <= k < |r| - 1
      ensures Abuts(r, k)
    {
      if k + 1 < i {
        assert Abuts(bs, k);
      } else if k + 1 == i {
        assert Abuts(bs, k);
      } else if k + 1 < d {
        assert Abuts(seg, k - i);
      } else if k + 1 == d {
        assert Abuts(bs, j - 1);
      } else {
        assert Abuts(bs, k - d + j);
      }
    }
  }

  lemma SplitShaped(bs: seq<Block>, lo: nat, hi: nat, i: nat, n: nat)
    requires Shaped(bs, lo, hi) && i < |bs| && 16 <= n && n % 16 == 0
    ensures Shaped(Split(bs, i, n), lo, hi)
  {
    var b := bs[i];
    if b.size >= n + MIN_SPLIT {
      var x, y := b.(size := n), Block(b.addr + HEADER + n, b.size - n - HEADER, true);
      assert Shaped([x, y], b.addr, b.End()) by {
        TwoShaped(x, y, b);
      }
      ShapedReplace(bs, i, i + 1, [x, y], lo, hi);
      assert Split(bs, i, n) == Replace(bs, i, i + 1, [x, y]);
    }
  }

  /** Cutting block b in two at a 16-byte boundary. */
  lemma TwoShaped(x: Block, y: Block, b: Block)
    requires b.addr % 16 == 0 && b.size % 16 == 0
    requires x.addr == b.addr && y.addr == x.End() && y.End() == b.End()
    requires x.size % 16 == 0 && x.size >= 16 && y.size >= 16
    ensures Shaped([x, y], b.addr, b.End())
  {
    assert y.addr % 16 == 0 && y.size % 16 == 0 by {
      var p, q, r := b.addr / 16, b.size / 16, x.size / 16;
      assert b.addr == 16 * p && b.size == 16 * q && x.size == 16 * r;
      assert y.addr == 16 * (p + 2 + r) && y.size == 16 * (q - r - 2);
    }
  }

  lemma MergeShaped(bs: seq<Block>, lo: nat, hi: nat, i: nat)
    requires Shaped(bs, lo, hi) && i + 1 < |bs|
    ensures Shaped(Merge(bs, i), lo, hi)
  {
    var m := bs[i].(size := bs[i].size + HEADER + bs[i + 1].size);
    assert Abuts(bs, i);
    MergedShaped(bs, lo, hi, i, i + 2, m);
    ShapedReplace(bs, i, i + 2, [m], lo, hi);
  }

  lemma FlagShaped(bs: seq<Block>, lo: nat, hi: nat, i: nat, free: bool)
    requires Shaped(bs, lo, hi) && i < |bs|
    ensures Shaped(bs[i := bs[i].(free := free)], lo, hi)
  {
    var r := bs[i := bs[i].(free := free)];
    assert forall k | 0 <= k < |r| :: r[k].addr == bs[k].addr && r[k].size == bs[k].size;
    assert forall k | 0 <= k < |r| - 1 :: Abuts(bs, k) && Abuts(r, k);
  }

  // ---- Live blocks ----

  ghost function Live(bs: seq<Block>): set<Block> {
    set b | b in bs && !b.free
  }

  lemma LiveReplace(bs: seq<Block>, i: nat, j: nat, seg: seq<Block>)
    requires i <= j <= |bs|
    ensures Live(Replace(bs, i, j, seg)) == Live(bs[..i]) + Live(seg) + Live(bs[j..])
    ensures Live(bs) == Live(bs[..i]) + Live(bs[i..j]) + Live(bs[j..])
  {
    assert bs == bs[..i] + bs[i..j] + bs[j..];
  }

  // ---- The free list is canonical ----

  /** The invariant leaves no choice: two heaps with the same live blocks have the same block list. */
  lemma Canonical(xs: seq<Block>, ys: seq<Block>, lo: nat, hi: nat)
    requires Sound(xs, lo, hi) && Sound(ys, lo, hi) && Live(xs) == Live(ys)
    ensures xs == ys
  {
    var m := if |xs| < |ys| then |xs| else |ys|;
    SamePrefix(xs, ys, lo, hi, m);
    assert xs[..m] == ys[..m];
    assert xs[m - 1] == ys[m - 1];
    if m < |ys| {
      assert Abuts(ys, m - 1);
      Ordered(ys, lo, hi);
    }
    if m < |xs| {
      assert Abuts(xs, m - 1);
      Ordered(xs, lo, hi);
    }
  }

  lemma {:induction false} SamePrefix(xs: seq<Block>, ys: seq<Block>, lo: nat, hi: nat, k: nat)
    requires Sound(xs, lo, hi) && Sound(ys, lo, hi) && Live(xs) == Live(ys)
    requires k <= |xs| && k <= |ys|
    ensures xs[..k] == ys[..k]
  {
    if k > 0 {
      SamePrefix(xs, ys, lo, hi, k - 1);
      var i := k - 1;
      assert xs[i].addr == ys[i].addr by {
        if i > 0 {
          assert xs[i - 1] == xs[..i][i - 1] == ys[..i][i - 1] == ys[i - 1];
          assert Abuts(xs, i - 1) && Abuts(ys, i - 1);
        }
      }
      NotShorter(xs, ys, lo, hi, i);
      NotShorter(ys, xs, lo, hi, i);
      assert xs[i] == ys[i];
      assert xs[..k] == xs[..i] + [xs[i]] && ys[..k] == ys[..i] + [ys[i]];
    }
  }

  /** One half of the comparison at equal addresses: a live block is the other list's block, a free one reaches as far. */
  lemma NotShorter(xs: seq<Block>, ys: seq<Block>, lo: nat, hi: nat, i: nat)
    requires Sound(xs, lo, hi) && Sound(ys, lo, hi) && Live(xs) == Live(ys)
    requires i < |xs| && i < |ys| && xs[i].addr == ys[i].addr
    ensures !xs[i].free ==> xs[i] == ys[i]
    ensures xs[i].free && ys[i].free ==> xs[i].size >= ys[i].size
  {
    Ordered(xs, lo, hi);
    Ordered(ys, lo, hi);
    if !xs[i].free {
      assert xs[i] in Live(ys);
    } else if i + 1 < |xs| {
      assert Abuts(xs, i) && !BothFree(xs, i);
      assert xs[i + 1] in Live(ys);
      assert exists k :: 0 <= k < |ys| && ys[k] == xs[i + 1];
    }
  }

  // ---- Allocation ----

  /** What a successful allocation does to the list: one more live block, inside what was free. */
  lemma TakeSound(bs: seq<Block>, lo: nat, hi: nat, i: nat, n: nat)
    requires Sound(bs, lo, hi) && i < |bs| && bs[i].free && bs[i].size >= n && 16 <= n && n % 16 == 0
    ensures Sound(Take(bs, i, n), lo, hi)
    ensures i < |Take(bs, i, n)|
    ensures var b := Take(bs, i, n)[i];
            && b.addr == bs[i].addr && !b.free && n <= b.size < n + MIN_SPLIT && b.End() <= bs[i].End()
            && (b.size == n || b.End() == bs[i].End())
            && Live(Take(bs, i, n)) == Live(bs) + {b}
  {
    var s, t := Split(bs, i, n), Take(bs, i, n);
    SplitShaped(bs, lo, hi, i, n);
    FlagShaped(s, lo, hi, i, false);
    var seg := if bs[i].size >= n + MIN_SPLIT then [t[i], t[i + 1]] else [t[i]];
    assert t == Replace(bs, i, i + 1, seg);
    assert Coalesced(seg);
    FreeStandsAlone(bs, i);
    CoalescedReplace(bs, i, i + 1, seg);
    LiveSwap(bs, i, seg, t[i]);
  }

  /** Only the segment put in the place of a free block bears on the live blocks. */
  lemma LiveSwap(bs: seq<Block>, i: nat, seg: seq<Block>, b: Block)
    requires i < |bs| && bs[i].free
    requires !b.free && b in seg && forall c | c in seg :: c == b || c.free
    ensures Live(Replace(bs, i, i + 1, seg)) == Live(bs) + {b}
  {
    LiveReplace(bs, i, i + 1, seg);
    assert bs[i..i + 1] == [bs[i]];
    assert Live(seg) == {b};
  }

  /** Bytes to skip from block b's payload to the next multiple of a. */
  function Padding(b: Block, a: nat): (p: nat)
    requires a >= 1
    ensures p < a && (b.Payload() + p) % a == 0
  {
    Ceil(b.Payload(), a) - b.Payload()
  }

  /** kmalloc_aligned's test: aligned as it stands, or room in front for a block of its own. */
  predicate FitsAligned(b: Block, n: nat, a: nat)
    requires a >= 1
  {
    b.free && b.size >= n + Padding(b, a) && (Padding(b, a) == 0 || Padding(b, a) >= MIN_SPLIT)
  }

  function FirstAligned(bs: seq<Block>, n: nat, a: nat, i: nat): (k: nat)
    requires i <= |bs| && a >= 1
    ensures i <= k <= |bs|
    ensures forall j | i <= j < k :: !FitsAligned(bs[j], n, a)
    ensures k < |bs| ==> FitsAligned(bs[k], n, a)
    decreases |bs| - i
  {
    if i == |bs| || FitsAligned(bs[i], n, a) then i else FirstAligned(bs, n, a, i + 1)
  }

  /** The block in front of the aligned payload becomes a free block of its own. */
  function CutFront(bs: seq<Block>, i: nat, pad: nat): seq<Block>
    requires i < |bs| && MIN_SPLIT <= pad <= bs[i].size
  {
    Replace(bs, i, i + 1, [bs[i].(size := pad - HEADER), Block(bs[i].addr + pad, bs[i].size - pad, true)])
  }

  function TakeAligned(bs: seq<Block>, i: nat, n: nat, a: nat): seq<Block>
    requires i < |bs| && a >= 1 && FitsAligned(bs[i], n, a)
  {
    var pad := Padding(bs[i], a);
    if pad == 0 then Take(bs, i, n) else Take(CutFront(bs, i, pad), i + 1, n)
  }

  function AlignedIndex(bs: seq<Block>, i: nat, a: nat): nat
    requires i < |bs| && a >= 1
  {
    if Padding(bs[i], a) == 0 then i else i + 1
  }

  lemma PaddingSixteen(b: Block, a: nat)
    requires IsPow2(a) && 16 <= a && b.addr % 16 == 0
    ensures Padding(b, a) % 16 == 0
  {
    var p := Padding(b, a);
    SixteenDivides(b.Payload() + p, a);
    Cancel16(b.addr, p);
  }

  lemma Cancel16(x: nat, p: nat)
    requires x % 16 == 0 && (x + HEADER + p) % 16 == 0
    ensures p % 16 == 0
  {
  }

  lemma SixteenDivides(x: nat, a: nat)
    requires IsPow2(a) && 16 <= a && x % a == 0
    ensures x % 16 == 0
  {
    var k: nat :| a == Pow2(k);
    assert Pow2(3) == 8 && Pow2(4) == 16;
    if k < 4 {
      Pow2Monotone(k, 3);
    }
    SmallerPow2Divides(x, 4, k);
  }

  lemma TakeAlignedSound(bs: seq<Block>, lo: nat, hi: nat, i: nat, n: nat, a: nat)
    requires Sound(bs, lo, hi) && i < |bs| && 16 <= n && n % 16 == 0
    requires IsPow2(a) && 16 <= a && FitsAligned(bs[i], n, a)
    ensures Sound(TakeAligned(bs, i, n, a), lo, hi)
    ensures AlignedIndex(bs, i, a) < |TakeAligned(bs, i, n, a)|
    ensures var b := TakeAligned(bs, i, n, a)[AlignedIndex(bs, i, a)];
            && b.Payload() == bs[i].Payload() + Padding(bs[i], a)
            && !b.free && n <= b.size < n + MIN_SPLIT && b.End() <= bs[i].End()
            && (b.size == n || b.End() == bs[i].End())
            && Live(TakeAligned(bs, i, n, a)) == Live(bs) + {b}
  {
    var pad := Padding(bs[i], a);
    PaddingSixteen(bs[i], a);
    if pad == 0 {
      TakeSound(bs, lo, hi, i, n);
    } else {
      CutThenTake(bs, lo, hi, i, n, pad);
    }
  }

  lemma SizedAt(bs: seq<Block>, i: nat)
    requires Sized(bs) && i < |bs|
    ensures bs[i].addr % 16 == 0 && bs[i].size % 16 == 0 && bs[i].size >= 16
  {
  }

  /** The double split: the front half stays free, which the live block in between makes harmless. */
  lemma CutThenTake(bs: seq<Block>, lo: nat, hi: nat, i: nat, n: nat, pad: nat)
    requires Sound(bs, lo, hi) && i < |bs| && bs[i].free && 16 <= n && n % 16 == 0
    requires MIN_SPLIT <= pad && pad % 16 == 0 && bs[i].size >= n + pad
    ensures var t := Take(CutFront(bs, i, pad), i + 1, n);
            && Sound(t, lo, hi) && i + 1 < |t|
            && t[i + 1].addr == bs[i].addr + pad && !t[i + 1].free && n <= t[i + 1].size < n + MIN_SPLIT
            && t[i + 1].End() <= bs[i].End() && (t[i + 1].size == n || t[i + 1].End() == bs[i].End())
            && Live(t) == Live(bs) + {t[i + 1]}
  {
    hide Tiled, Sized, Coalesced, Live;
    var t, seg := Take(CutFront(bs, i, pad), i + 1, n), CutSegment(bs[i], n, pad);
    CutThenTakeIs(bs, i, n, pad);
    SizedAt(bs, i);
    CutSegmentShaped(bs[i], n, pad);
    ShapedReplace(bs, i, i + 1, seg, lo, hi);
    LiveSwap(bs, i, seg, seg[1]);
    FreeStandsAlone(bs, i);
    CoalescedReplace(bs, i, i + 1, seg);
  }

  /** What stands in the place of free block b after both splits. */
  function CutSegment(b: Block, n: nat, pad: nat): seq<Block>
    requires MIN_SPLIT <= pad && b.size >= n + pad
  {
    var front, rest := b.(size := pad - HEADER), b.size - pad;
    if rest >= n + MIN_SPLIT then
      [front, Block(b.addr + pad, n, false), Block(b.addr + pad + HEADER + n, rest - n - HEADER, true)]
    else
      [front, Block(b.addr + pad, rest, false)]
  }

  lemma CutThenTakeIs(bs: seq<Block>, i: nat, n: nat, pad: nat)
    requires i < |bs| && bs[i].free && MIN_SPLIT <= pad && bs[i].size >= n + pad
    ensures Take(CutFront(bs, i, pad), i + 1, n) == Replace(bs, i, i + 1, CutSegment(bs[i], n, pad))
  {
  }

  lemma CutSegmentShaped(b: Block, n: nat, pad: nat)
    requires b.free && MIN_SPLIT <= pad && b.size >= n + pad && n >= 16
    requires b.addr % 16 == 0 && b.size % 16 == 0 && n % 16 == 0 && pad % 16 == 0
    ensures Shaped(CutSegment(b, n, pad), b.addr, b.End()) && Coalesced(CutSegment(b, n, pad))
  {
    var front, back := b.(size := pad - HEADER), Block(b.addr + pad, b.size - pad, true);
    TwoShaped(front, back, b);
    if back.size >= n + MIN_SPLIT {
      TwoShaped(Block(back.addr, n, false), Block(back.addr + HEADER + n, back.size - n - HEADER, true), back);
    }
  }

  /** The neighbours of a free block are live. */
  lemma FreeStandsAlone(bs: seq<Block>, i: nat)
    requires Coalesced(bs) && i < |bs|
    ensures 0 < i && bs[i].free ==> !bs[i - 1].free
    ensures i + 1 < |bs| && bs[i].free ==> !bs[i + 1].free
  {
    if 0 < i { assert !BothFree(bs, i - 1); }
    if i + 1 < |bs| { assert !BothFree(bs, i); }
  }

  /** The list stays coalesced when the new segment is, and no free end of it meets a free neighbour. */
  lemma CoalescedReplace(bs: seq<Block>, i: nat, j: nat, seg: seq<Block>)
    requires Coalesced(bs) && i < j <= |bs| && seg != [] && Coalesced(seg)
    requires 0 < i ==> !(bs[i - 1].free && seg[0].free)
    requires j < |bs| ==> !(seg[|seg| - 1].free && bs[j].free)
    ensures Coalesced(Replace(bs, i, j, seg))
  {
    var r := Replace(bs, i, j, seg);
    var d := i + |seg|;
    forall k | 0 <= k < |r| - 1
      ensures !BothFree(r, k)
    {
      if k + 1 < i {
        assert !BothFree(bs, k);
      } else if k + 1 == i {
        assert r[k] == bs[i - 1] && r[k + 1] == seg[0];
      } else if k + 1 < d {
        assert !BothFree(seg, k - i);
      } else if k + 1 == d {
        assert r[k] == seg[|seg| - 1] && r[k + 1] == bs[j];
      } else {
        assert !BothFree(bs, k - d + j);
      }
    }
  }

  // ---- Release ----

  /** Freeing a live block keeps the invariant: both neighbours are absorbed when free. */
  lemma ReleaseSound(bs: seq<Block>, lo: nat, hi: nat, i: nat)
    requires Sound(bs, lo, hi) && i < |bs| && !bs[i].free
    ensures Sound(Release(bs, i), lo, hi)
    ensures Live(Release(bs, i)) == Live(bs) - {bs[i]}
  {
    hide Sized, Coalesced, Release, Live;
    var l := if 0 < i && bs[i - 1].free then i - 1 else i;
    var r := if i + 1 < |bs| && bs[i + 1].free then i + 2 else i + 1;
    if l < i { assert Abuts(bs, l); }
    if i + 1 < r { assert Abuts(bs, i); }
    var m := Block(bs[l].addr, bs[r - 1].End() - bs[l].addr - HEADER, true);
    if l < i { FreeStandsAlone(bs, l); }
    if i + 1 < r { FreeStandsAlone(bs, i + 1); }
    ReleaseIs(bs, lo, hi, i, l, r, m);
    ReleaseSpan(bs, lo, hi, i, l, r, m);
  }

  lemma ReleaseSpan(bs: seq<Block>, lo: nat, hi: nat, i: nat, l: nat, r: nat, m: Block)
    requires Sound(bs, lo, hi) && l <= i < r <= |bs| && i - 1 <= l && r <= i + 2 && !bs[i].free
    requires forall k | l <= k < r && k != i :: bs[k].free
    requires 0 < l ==> !bs[l - 1].free
    requires r < |bs| ==> !bs[r].free
    requires m.free && m.addr == bs[l].addr && m.End() == bs[r - 1].End()
    ensures Sound(Replace(bs, l, r, [m]), lo, hi)
    ensures Live(Replace(bs, l, r, [m])) == Live(bs) - {bs[i]}
  {
    MergedShaped(bs, lo, hi, l, r, m);
    ShapedReplace(bs, l, r, [m], lo, hi);
    CoalescedReplace(bs, l, r, [m]);
    LiveExchange(bs, lo, hi, l, r, i, [m]);
  }

  /** Replacing live block i and free neighbours of it exchanges one live block for those of the segment. */
  lemma LiveExchange(bs: seq<Block>, lo: nat, hi: nat, l: nat, r: nat, i: nat, seg: seq<Block>)
    requires Tiled(bs, lo, hi) && l <= i < r <= |bs| && !bs[i].free
    requires forall k | l <= k < r && k != i :: bs[k].free
    ensures Live(Replace(bs, l, r, seg)) == Live(bs) - {bs[i]} + Live(seg)
  {
    LiveReplace(bs, l, r, seg);
    assert Live(bs[l..r]) == {bs[i]} by {
      assert bs[l..r][i - l] == bs[i];
    }
    Once(bs, lo, hi, l, r, i);
  }

  lemma Once(bs: seq<Block>, lo: nat, hi: nat, l: nat, r: nat, i: nat)
    requires Tiled(bs, lo, hi) && l <= i < r <= |bs|
    ensures bs[i] !in bs[..l] && bs[i] !in bs[r..]
  {
    Ordered(bs, lo, hi);
  }

  lemma ReleaseIs(bs: seq<Block>, lo: nat, hi: nat, i: nat, l: nat, r: nat, m: Block)
    requires Sound(bs, lo, hi) && i < |bs| && !bs[i].free
    requires l == if 0 < i && bs[i - 1].free then i - 1 else i
    requires r == if i + 1 < |bs| && bs[i + 1].free then i + 2 else i + 1
    requires m.addr == bs[l].addr && m.End() == bs[r - 1].End() && m.free
    ensures Release(bs, i) == Replace(bs, l, r, [m])
  {
    hide Sized, Coalesced;
    var x := bs[i].(free := true);
    var fs := bs[i := x];
    if i + 1 < r { assert Abuts(bs, i); }
    var right := Block(bs[i].addr, bs[r - 1].End() - bs[i].addr - HEADER, true);
    var rs := Replace(bs, i, r, [right]);
    if i + 1 < r {
      assert Abuts(bs, i);
      assert Merge(fs, i) == rs;
    } else {
      assert fs == rs;
    }
    if l < i {
      assert Abuts(bs, l);
      MergeReplaced(bs, i, r, right, m);
    }
  }

  lemma MergeReplaced(bs: seq<Block>, i: nat, r: nat, x: Block, m: Block)
    requires 0 < i < r <= |bs|
    requires bs[i - 1].End() == x.addr && m == Block(bs[i - 1].addr, x.End() - bs[i - 1].addr - HEADER, bs[i - 1].free)
    ensures Merge(Replace(bs, i, r, [x]), i - 1) == Replace(bs, i - 1, r, [m])
  {
  }

  /** One, two or three neighbours span a legal block. */
  lemma MergedShaped(bs: seq<Block>, lo: nat, hi: nat, l: nat, r: nat, m: Block)
    requires Shaped(bs, lo, hi) && l < r <= |bs| && r <= l + 3
    requires m.addr == bs[l].addr && m.End() == bs[r - 1].End()
    ensures Shaped([m], bs[l].addr, bs[r - 1].End())
  {
    var x := bs[l];
    if l + 1 < r {
      var y := bs[l + 1];
      assert Abuts(bs, l);
      Sum16(x.size, y.size);
      if l + 2 < r {
        assert Abuts(bs, l + 1);
        Sum16(x.size + HEADER + y.size, bs[l + 2].size);
      }
    }
  }

  lemma Sum16(p: nat, q: nat)
    requires p % 16 == 0 && q % 16 == 0
    ensures (p + HEADER + q) % 16 == 0
  {
  }

  // ---- Growth in place ----

  /** krealloc's in-place path: swallow the free right neighbour, give back the excess. */
  function Grow(bs: seq<Block>, i: nat, n: nat): seq<Block>
    requires i + 1 < |bs|
  {
    Split(Merge(bs, i), i, n)
  }

  lemma GrowSound(bs: seq<Block>, lo: nat, hi: nat, i: nat, n: nat)
    requires Sound(bs, lo, hi) && i + 1 < |bs| && !bs[i].free && bs[i + 1].free
    requires 16 <= n && n % 16 == 0 && bs[i].size + HEADER + bs[i + 1].size >= n
    ensures Sound(Grow(bs, i, n), lo, hi) && i < |Grow(bs, i, n)|
    ensures var b := Grow(bs, i, n)[i];
            && b.addr == bs[i].addr && !b.free && n <= b.size < n + MIN_SPLIT && b.End() <= bs[i + 1].End()
            && (b.size == n || b.End() == bs[i + 1].End())
            && Live(Grow(bs, i, n)) == Live(bs) - {bs[i]} + {b}
  {
    hide Sized, Live;
    var g := Grow(bs, i, n);
    MergeShaped(bs, lo, hi, i);
    SplitShaped(Merge(bs, i), lo, hi, i, n);
    assert Abuts(bs, i);
    var whole := bs[i].size + HEADER + bs[i + 1].size;
    var seg := if whole >= n + MIN_SPLIT then [g[i], g[i + 1]] else [g[i]];
    assert g == Replace(bs, i, i + 2, seg);
    assert Coalesced(seg);
    FreeStandsAlone(bs, i + 1);
    CoalescedReplace(bs, i, i + 2, seg);
    LiveExchange(bs, lo, hi, i, i + 2, i, seg);
    LiveHead(seg);
  }

  lemma LiveHead(seg: seq<Block>)
    requires seg != [] && !seg[0].free && forall k | 1 <= k < |seg| :: seg[k].free
    ensures Live(seg) == {seg[0]}
  {
  }
}
