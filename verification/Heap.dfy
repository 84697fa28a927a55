/** The kernel heap of memory.c: an intrusive doubly linked list of headers kept, byte for byte, in memory. */
module Heap {
  import opened Bytes
  import opened Bits
  import opened BlockList
  import opened HeapLaws
  import opened MemoryOps

  const HEAP_MAGIC: nat := 0x48454150

  /** header_t */
  datatype Header = Header(magic: nat, isFree: nat, size: nat, next: nat, prev: nat)

  function HeaderAt(m: seq<byte>, a: nat): Header
    requires a + HEADER <= |m|
  {
    Header(Load(m, a, 4), Load(m, a + 4, 4), Load(m, a + 8, 8), Load(m, a + 16, 8), Load(m, a + 24, 8))
  }

  lemma HeaderFrame(m: seq<byte>, m': seq<byte>, a: nat)
    requires a + HEADER <= |m| && a + HEADER <= |m'|
    requires forall x | a <= x < a + HEADER :: m[x] == m'[x]
    ensures HeaderAt(m, a) == HeaderAt(m', a)
  {
    LoadFrame(m, m', a, 4);
    LoadFrame(m, m', a + 4, 4);
    LoadFrame(m, m', a + 8, 8);
    LoadFrame(m, m', a + 16, 8);
    LoadFrame(m, m', a + 24, 8);
  }

  /** A header stands at a exactly when the 32 bytes there are its five fields. */
  lemma HeaderCodec(m: seq<byte>, a: nat, h: Header)
    requires a + 32 <= |m| && h.magic < U32 && h.isFree < U32 && h.size < U64 && h.next < U64 && h.prev < U64
    ensures HeaderAt(m, a) == h <==>
              && m[a..a + 4] == ToLE(h.magic, 4) && m[a + 4..a + 8] == ToLE(h.isFree, 4)
              && m[a + 8..a + 16] == ToLE(h.size, 8) && m[a + 16..a + 24] == ToLE(h.next, 8)
              && m[a + 24..a + 32] == ToLE(h.prev, 8)
  {
    hide Load, ToLE;
    SpanWords();
    FieldIs(m, a, 4, h.magic);
    FieldIs(m, a + 4, 4, h.isFree);
    FieldIs(m, a + 8, 8, h.size);
    FieldIs(m, a + 16, 8, h.next);
    FieldIs(m, a + 24, 8, h.prev);
  }

  /** The header that block i of the list must have in memory. */
  ghost function Expected(bs: seq<Block>, i: nat): Header
    requires i < |bs|
  {
    Header(HEAP_MAGIC, if bs[i].free then 1 else 0, bs[i].size,
           if i + 1 < |bs| then bs[i + 1].addr else 0, if i > 0 then bs[i - 1].addr else 0)
  }

  /** Memory m holds the list bs: every header is in place, and next and prev are inverse. */
  ghost predicate Holds(m: seq<byte>, bs: seq<Block>) {
    forall i {:trigger Expected(bs, i)} | 0 <= i < |bs| ::
      bs[i].Payload() <= |m| && HeaderAt(m, bs[i].addr) == Expected(bs, i)
  }

  /** Address x is in no header of the list. */
  ghost predicate Clear(bs: seq<Block>, x: nat) {
    forall i | 0 <= i < |bs| :: x < bs[i].addr || bs[i].Payload() <= x
  }

  /** Between the two states only header bytes changed. */
  ghost predicate HeadersOnly(m: seq<byte>, m': seq<byte>, bs: seq<Block>, bs': seq<Block>): (ok: bool)
    ensures ok ==> |m| == |m'|
  {
    |m| == |m'| && forall x | 0 <= x < |m| && Clear(bs, x) && Clear(bs', x) :: m[x] == m'[x]
  }

  ghost predicate SameBytes(m: seq<byte>, m': seq<byte>, p: nat, n: nat) {
    p + n <= |m| == |m'| && forall x | p <= x < p + n :: m[x] == m'[x]
  }

  /** Nothing outside the heap changed, nor any payload of the given blocks. */
  ghost predicate Spares(m: seq<byte>, m': seq<byte>, kept: set<Block>, lo: nat, hi: nat) {
    && |m| == |m'|
    && (forall x | 0 <= x < |m| && !(lo <= x < hi) :: m[x] == m'[x])
    && forall b | b in kept :: SameBytes(m, m', b.Payload(), b.size)
  }

  /** A payload byte, or one outside the heap, is in no header. */
  lemma PayloadClear(bs: seq<Block>, lo: nat, hi: nat, k: nat, x: nat)
    requires Tiled(bs, lo, hi) && k < |bs| && bs[k].Payload() <= x < bs[k].End()
    ensures Clear(bs, x)
  {
    Ordered(bs, lo, hi);
  }

  lemma OutsideClear(bs: seq<Block>, lo: nat, hi: nat, x: nat)
    requires Tiled(bs, lo, hi) && !(lo <= x < hi)
    ensures Clear(bs, x)
  {
    Ordered(bs, lo, hi);
  }

  /** Header-only changes spare the blocks that both lists have. */
  lemma HeadersOnlySpares(m: seq<byte>, m': seq<byte>, bs: seq<Block>, bs': seq<Block>, kept: set<Block>, lo: nat, hi: nat)
    requires Shaped(bs, lo, hi) && Shaped(bs', lo, hi) && hi <= |m| && HeadersOnly(m, m', bs, bs')
    requires forall b | b in kept :: b in bs && b in bs'
    ensures Spares(m, m', kept, lo, hi)
  {
    forall x | 0 <= x < |m| && !(lo <= x < hi)
      ensures m[x] == m'[x]
    {
      OutsideClear(bs, lo, hi, x);
      OutsideClear(bs', lo, hi, x);
    }
    forall b | b in kept
      ensures SameBytes(m, m', b.Payload(), b.size)
    {
      var k :| 0 <= k < |bs| && bs[k] == b;
      var k' :| 0 <= k' < |bs'| && bs'[k'] == b;
      Ordered(bs, lo, hi);
      forall x | b.Payload() <= x < b.End()
        ensures m[x] == m'[x]
      {
        PayloadClear(bs, lo, hi, k, x);
        PayloadClear(bs', lo, hi, k', x);
      }
    }
  }

  lemma ExpectedReplace(bs: seq<Block>, i: nat, j: nat, seg: seq<Block>, k: nat)
    requires i < j <= |bs| && seg != [] && seg[0].addr == bs[i].addr && k < |bs|
    ensures k < i ==> Expected(Replace(bs, i, j, seg), k) == Expected(bs, k)
    ensures j <= k ==> Expected(Replace(bs, i, j, seg), k - j + i + |seg|)
                       == if k == j then Expected(bs, k).(prev := seg[|seg| - 1].addr) else Expected(bs, k)
  {
  }

  /** Writes confined to the replaced blocks and the next header leave the new list in memory. */
  lemma HoldsReplace(m: seq<byte>, m': seq<byte>, bs: seq<Block>, i: nat, j: nat, seg: seq<Block>, lo: nat, hi: nat)
    requires Tiled(bs, lo, hi) && hi <= |m| == |m'| && Holds(m, bs)
    requires i < j <= |bs| && Tiled(seg, bs[i].addr, bs[j - 1].End())
    requires forall x | 0 <= x < |m| && !(bs[i].addr <= x < bs[j - 1].End())
                        && !(j < |bs| && bs[j].addr <= x < bs[j].Payload()) :: m[x] == m'[x]
    requires j < |bs| ==> bs[j].Payload() <= |m|
                          && HeaderAt(m', bs[j].addr) == HeaderAt(m, bs[j].addr).(prev := seg[|seg| - 1].addr)
    requires forall k | 0 <= k < |seg| ::
               seg[k].Payload() <= |m| && HeaderAt(m', seg[k].addr) == Expected(Replace(bs, i, j, seg), i + k)
    ensures Holds(m', Replace(bs, i, j, seg))
  {
    hide HeaderAt, Expected;
    var r := Replace(bs, i, j, seg);
    var d := i + |seg|;
    Ordered(bs, lo, hi);
    forall q | 0 <= q < |r|
      ensures r[q].Payload() <= |m'| && HeaderAt(m', r[q].addr) == Expected(r, q)
    {
      if q < i {
        HeaderFrame(m, m', bs[q].addr);
        ExpectedReplace(bs, i, j, seg, q);
      } else if q < d {
        assert r[q] == seg[q - i];
      } else {
        var k := q - d + j;
        ExpectedReplace(bs, i, j, seg, k);
        if k > j {
          HeaderFrame(m, m', bs[k].addr);
        }
      }
    }
  }

  /** Writes inside one payload leave the list in memory. */
  lemma HoldsPayloadWrite(m: seq<byte>, m': seq<byte>, bs: seq<Block>, lo: nat, hi: nat, k: nat)
    requires Shaped(bs, lo, hi) && hi <= |m| == |m'| && Holds(m, bs) && k < |bs|
    requires forall x | 0 <= x < |m| && !(bs[k].Payload() <= x < bs[k].End()) :: m[x] == m'[x]
    ensures Holds(m', bs)
  {
    hide HeaderAt, Expected;
    Ordered(bs, lo, hi);
    forall i | 0 <= i < |bs|
      ensures HeaderAt(m', bs[i].addr) == Expected(bs, i)
    {
      HeaderFrame(m, m', bs[i].addr);
    }
  }

  /** Only the header at a was written. */
  ghost predicate WroteHeader(m: seq<byte>, m': seq<byte>, a: nat) {
    |m| == |m'| && forall x | 0 <= x < |m| && !(a <= x < a + HEADER) :: m[x] == m'[x]
  }

  lemma OtherHeader(m: seq<byte>, m': seq<byte>, a: nat, b: nat)
    requires WroteHeader(m, m', a) && b + HEADER <= |m| && (b + HEADER <= a || a + HEADER <= b)
    ensures HeaderAt(m', b) == HeaderAt(m, b)
  {
    HeaderFrame(m, m', b);
  }

  /** What the list in memory says about block i and its right neighbour. */
  lemma Neighbours(m: seq<byte>, bs: seq<Block>, lo: nat, hi: nat, i: nat)
    requires Shaped(bs, lo, hi) && hi <= |m| && Holds(m, bs) && i < |bs|
    ensures lo <= bs[i].addr && bs[i].End() <= hi
    ensures HeaderAt(m, bs[i].addr) == Expected(bs, i) && Expected(bs, i).size == bs[i].size
    ensures i + 1 < |bs| ==> HeaderAt(m, bs[i].addr).next == bs[i + 1].addr == bs[i].End() && bs[i + 1].End() <= hi
    ensures i + 1 == |bs| ==> HeaderAt(m, bs[i].addr).next == 0 && bs[i].End() == hi
  {
    hide HeaderAt;
    Ordered(bs, lo, hi);
    assert Expected(bs, i).size == bs[i].size;
    if i + 1 < |bs| {
      assert Abuts(bs, i);
    }
  }

  /** Only the headers at a, b and c were written; a c of 0 stands for none. */
  ghost predicate WroteThree(m: seq<byte>, m': seq<byte>, a: nat, b: nat, c: nat) {
    |m| == |m'| && forall x | 0 <= x < |m| && !(a <= x < a + HEADER) && !(b <= x < b + HEADER)
                              && !(c != 0 && c <= x < c + HEADER) :: m[x] == m'[x]
  }

  /** Replacing bs[i..j] by seg: from the headers written to the list in memory. */
  lemma Relinked(m: seq<byte>, m': seq<byte>, bs: seq<Block>, i: nat, j: nat, seg: seq<Block>, lo: nat, hi: nat, next: nat)
    requires Shaped(bs, lo, hi) && hi <= |m| && Holds(m, bs) && i < j <= |bs|
    requires Shaped(seg, bs[i].addr, bs[j - 1].End())
    requires next == if j < |bs| then bs[j].addr else 0
    requires WroteThree(m, m', bs[i].addr, seg[|seg| - 1].addr, next)
    requires j < |bs| ==> next + HEADER <= |m| && HeaderAt(m', next) == HeaderAt(m, next).(prev := seg[|seg| - 1].addr)
    requires forall k | 0 <= k < |seg| ::
               seg[k].Payload() <= |m| == |m'| && HeaderAt(m', seg[k].addr) == Expected(Replace(bs, i, j, seg), i + k)
    ensures Shaped(Replace(bs, i, j, seg), lo, hi) && Holds(m', Replace(bs, i, j, seg))
    ensures HeadersOnly(m, m', bs, Replace(bs, i, j, seg))
  {
    hide HeaderAt, Expected, Sized, WroteThree, HeadersOnly, Holds;
    var last := seg[|seg| - 1];
    assert bs[j - 1].End() <= hi by { Ordered(bs, lo, hi); }
    RelinkedSpan(m, m', bs, i, j, seg, lo, hi, next);
    RelinkedHeaders(m, m', bs, i, j, seg, next);
    ShapedReplace(bs, i, j, seg, lo, hi);
    HoldsReplace(m, m', bs, i, j, seg, lo, hi);
  }

  lemma RelinkedSpan(m: seq<byte>, m': seq<byte>, bs: seq<Block>, i: nat, j: nat, seg: seq<Block>, lo: nat, hi: nat,
                     next: nat)
    requires Tiled(bs, lo, hi) && i < j <= |bs| && Tiled(seg, bs[i].addr, bs[j - 1].End())
    requires next == if j < |bs| then bs[j].addr else 0
    requires WroteThree(m, m', bs[i].addr, seg[|seg| - 1].addr, next)
    ensures |m| == |m'| && forall x | 0 <= x < |m| && !(bs[i].addr <= x < bs[j - 1].End())
                                     && !(j < |bs| && bs[j].addr <= x < bs[j].Payload()) :: m[x] == m'[x]
  {
    Ordered(seg, bs[i].addr, bs[j - 1].End());
    Ordered(bs, lo, hi);
    assert bs[i].Payload() <= bs[j - 1].End();
  }

  lemma RelinkedHeaders(m: seq<byte>, m': seq<byte>, bs: seq<Block>, i: nat, j: nat, seg: seq<Block>, next: nat)
    requires i < j <= |bs| && seg != [] && next == if j < |bs| then bs[j].addr else 0
    requires WroteThree(m, m', bs[i].addr, seg[|seg| - 1].addr, next)
    ensures HeadersOnly(m, m', bs, Replace(bs, i, j, seg))
  {
    var bs' := Replace(bs, i, j, seg);
    forall x | 0 <= x < |m| && Clear(bs, x) && Clear(bs', x)
      ensures m[x] == m'[x]
    {
      assert x < bs[i].addr || bs[i].Payload() <= x;
      assert bs'[i + |seg| - 1] == seg[|seg| - 1];
      if j < |bs| { assert x < bs[j].addr || bs[j].Payload() <= x; }
    }
  }

  lemma CutShaped(bs: seq<Block>, lo: nat, hi: nat, i: nat, seg: seq<Block>)
    requires Shaped(bs, lo, hi) && i < |bs| && |seg| == 2
    requires seg[0].addr == bs[i].addr && seg[0].End() == seg[1].addr && seg[1].End() == bs[i].End()
    requires 16 <= seg[0].size && seg[0].size % 16 == 0 && 16 <= seg[1].size
    ensures Shaped(seg, bs[i].addr, bs[i].End())
  {
    TwoShaped(seg[0], seg[1], bs[i]);
    assert seg == [seg[0], seg[1]];
  }

  lemma InsertedHolds(m: seq<byte>, m': seq<byte>, bs: seq<Block>, i: nat, seg: seq<Block>, lo: nat, hi: nat)
    requires Shaped(bs, lo, hi) && hi <= |m| == |m'| && Holds(m, bs) && i < |bs|
    requires |seg| == 2 && Shaped(seg, bs[i].addr, bs[i].End()) && seg[0].free == bs[i].free && seg[1].free
    requires bs[i].Payload() <= |m| && seg[1].Payload() <= |m|
    requires var h, y := HeaderAt(m, bs[i].addr), seg[1].addr;
             && HeaderAt(m', bs[i].addr) == h.(size := seg[0].size, next := y)
             && HeaderAt(m', y) == Header(HEAP_MAGIC, 1, seg[1].size, h.next, bs[i].addr)
             && (h.next != 0 ==> h.next + HEADER <= |m| && HeaderAt(m', h.next) == HeaderAt(m, h.next).(prev := y))
             && WroteThree(m, m', bs[i].addr, y, h.next)
    ensures Shaped(Replace(bs, i, i + 1, seg), lo, hi) && Holds(m', Replace(bs, i, i + 1, seg))
    ensures HeadersOnly(m, m', bs, Replace(bs, i, i + 1, seg))
  {
    hide HeaderAt, Holds, Sized, Tiled, WroteThree, HeadersOnly;
    var r, h := Replace(bs, i, i + 1, seg), HeaderAt(m, bs[i].addr);
    Neighbours(m, bs, lo, hi, i);
    assert Expected(r, i) == Expected(bs, i).(size := seg[0].size, next := seg[1].addr);
    assert Expected(r, i + 1) == Header(HEAP_MAGIC, 1, seg[1].size, h.next, bs[i].addr);
    Relinked(m, m', bs, i, i + 1, seg, lo, hi, h.next);
  }

  lemma MergedHolds(m: seq<byte>, m': seq<byte>, bs: seq<Block>, i: nat, lo: nat, hi: nat)
    requires Shaped(bs, lo, hi) && hi <= |m| == |m'| && Holds(m, bs) && i + 1 < |bs|
    requires bs[i].Payload() <= |m| && bs[i + 1].Payload() <= |m|
    requires var h, r := HeaderAt(m, bs[i].addr), HeaderAt(m, bs[i + 1].addr);
             && HeaderAt(m', bs[i].addr) == h.(size := bs[i].size + HEADER + bs[i + 1].size, next := r.next)
             && (r.next != 0 ==> r.next + HEADER <= |m|
                                 && HeaderAt(m', r.next) == HeaderAt(m, r.next).(prev := bs[i].addr))
             && WroteThree(m, m', bs[i].addr, bs[i].addr, r.next)
    ensures Shaped(Merge(bs, i), lo, hi) && Holds(m', Merge(bs, i)) && HeadersOnly(m, m', bs, bs)
  {
    hide HeaderAt, Holds, Sized, HeadersOnly;
    var seg := [bs[i].(size := bs[i].size + HEADER + bs[i + 1].size)];
    var next := HeaderAt(m, bs[i + 1].addr).next;
    Neighbours(m, bs, lo, hi, i);
    Neighbours(m, bs, lo, hi, i + 1);
    assert Abuts(bs, i);
    MergedShaped(bs, lo, hi, i, i + 2, seg[0]);
    assert Expected(Merge(bs, i), i) == Expected(bs, i).(size := seg[0].size, next := next);
    Relinked(m, m', bs, i, i + 2, seg, lo, hi, next);
    MergeWritesOldHeaders(m, m', bs, i, next);
  }

  lemma MergeWritesOldHeaders(m: seq<byte>, m': seq<byte>, bs: seq<Block>, i: nat, next: nat)
    requires i + 1 < |bs| && next == if i + 2 < |bs| then bs[i + 2].addr else 0
    requires WroteThree(m, m', bs[i].addr, bs[i].addr, next)
    ensures HeadersOnly(m, m', bs, bs)
  {
    forall x | 0 <= x < |m| && Clear(bs, x)
      ensures m[x] == m'[x]
    {
      assert x < bs[i].addr || bs[i].Payload() <= x;
      if i + 2 < |bs| { assert x < bs[i + 2].addr || bs[i + 2].Payload() <= x; }
    }
  }

  lemma FlaggedHolds(m: seq<byte>, m': seq<byte>, bs: seq<Block>, i: nat, free: bool, lo: nat, hi: nat)
    requires Shaped(bs, lo, hi) && hi <= |m| == |m'| && Holds(m, bs) && i < |bs| && bs[i].Payload() <= |m|
    requires HeaderAt(m', bs[i].addr) == HeaderAt(m, bs[i].addr).(isFree := if free then 1 else 0)
    requires WroteHeader(m, m', bs[i].addr)
    ensures var bs' := bs[i := bs[i].(free := free)];
            Shaped(bs', lo, hi) && Holds(m', bs') && HeadersOnly(m, m', bs, bs)
  {
    hide HeaderAt, Sized;
    var bs' := bs[i := bs[i].(free := free)];
    FlagShaped(bs, lo, hi, i, free);
    Ordered(bs, lo, hi);
    forall k | 0 <= k < |bs'|
      ensures HeaderAt(m', bs'[k].addr) == Expected(bs', k)
    {
      assert HeaderAt(m, bs[k].addr) == Expected(bs, k);
      if k != i {
        OtherHeader(m, m', bs[i].addr, bs[k].addr);
      }
    }
  }

  /** Coalescing and flagging write no header that the list did not have. */
  lemma ClearShrinks(bs: seq<Block>, i: nat, x: nat)
    requires i + 1 < |bs| && Clear(bs, x)
    ensures Clear(Merge(bs, i), x)
  {
    var r := Merge(bs, i);
    forall k | 0 <= k < |r|
      ensures x < r[k].addr || r[k].Payload() <= x
    {
      assert r[k].addr == bs[if k <= i then k else k + 1].addr;
    }
  }

  lemma MergeTwice(m: seq<byte>, m1: seq<byte>, m': seq<byte>, bs: seq<Block>, i: nat)
    requires i + 1 < |bs| && HeadersOnly(m, m1, bs, bs) && HeadersOnly(m1, m', Merge(bs, i), Merge(bs, i))
    ensures HeadersOnly(m, m', bs, bs)
  {
    forall x | 0 <= x < |m| && Clear(bs, x)
      ensures m[x] == m'[x]
    {
      ClearShrinks(bs, i, x);
    }
  }

  lemma HeadersOnlyRefl(m: seq<byte>, bs: seq<Block>)
    ensures HeadersOnly(m, m, bs, bs)
  {
  }

  lemma HeadersOnlyTrans(m: seq<byte>, m1: seq<byte>, m': seq<byte>, bs: seq<Block>)
    requires HeadersOnly(m, m1, bs, bs) && HeadersOnly(m1, m', bs, bs)
    ensures HeadersOnly(m, m', bs, bs)
  {
  }

  lemma MergeHead(bs: seq<Block>, i: nat)
    requires i + 1 < |bs|
    ensures |Merge(bs, i)| == |bs| - 1 && Merge(bs, i)[i].addr == bs[i].addr
    ensures Merge(bs, i)[i].free == bs[i].free
    ensures forall k | 0 <= k < i :: Merge(bs, i)[k] == bs[k]
  {
  }

  lemma FlagThen(m: seq<byte>, m1: seq<byte>, m': seq<byte>, bs: seq<Block>, i: nat, free: bool)
    requires i < |bs| && HeadersOnly(m, m1, bs, bs)
    requires var fs := bs[i := bs[i].(free := free)]; HeadersOnly(m1, m', fs, fs)
    ensures HeadersOnly(m, m', bs, bs)
  {
    forall x | 0 <= x < |m| && Clear(bs, x)
      ensures m[x] == m'[x]
    {
      assert Clear(bs[i := bs[i].(free := free)], x);
    }
  }

  lemma SparesTwice(m: seq<byte>, m1: seq<byte>, m': seq<byte>, kept: set<Block>, lo: nat, hi: nat)
    requires Spares(m, m1, kept, lo, hi) && Spares(m1, m', kept, lo, hi)
    ensures Spares(m, m', kept, lo, hi)
  {
    forall b | b in kept
      ensures SameBytes(m, m', b.Payload(), b.size)
    {
      assert SameBytes(m, m1, b.Payload(), b.size) && SameBytes(m1, m', b.Payload(), b.size);
    }
  }

  /** Splitting a free block spares every live one. */
  lemma LiveSurvivesReplace(bs: seq<Block>, i: nat, seg: seq<Block>, b: Block)
    requires i < |bs| && b in bs && b != bs[i]
    ensures b in Replace(bs, i, i + 1, seg)
  {
    var k :| 0 <= k < |bs| && bs[k] == b;
    var r := Replace(bs, i, i + 1, seg);
    assert r[if k < i then k else k - 1 + |seg|] == b;
  }

  lemma LiveSurvivesTake(bs: seq<Block>, i: nat, n: nat, b: Block)
    requires i < |bs| && b in bs && b != bs[i]
    ensures b in Split(bs, i, n) && b in Take(bs, i, n)
  {
    var s := Split(bs, i, n);
    if bs[i].size >= n + MIN_SPLIT {
      LiveSurvivesReplace(bs, i, [s[i], s[i + 1]], b);
    }
    var k :| 0 <= k < |s| && s[k] == b;
    if k == i {
      var j :| 0 <= j < |bs| && bs[j] == b;
      assert s[if j < i then j else j - 1 + (|s| - |bs| + 1)] == b;
      assert Take(bs, i, n)[if j < i then j else j - 1 + (|s| - |bs| + 1)] == b;
    } else {
      assert Take(bs, i, n)[k] == b;
    }
  }

  /** Where kmalloc's loop stands: nothing before block i fits. */
  ghost predicate Scanned(bs: seq<Block>, n: nat, i: nat) {
    i <= |bs| && FirstFit(bs, n, 0) == FirstFit(bs, n, i)
  }

  lemma InitialHolds(m: seq<byte>, lo: nat, hi: nat)
    requires lo + MIN_SPLIT <= hi <= |m|
    requires HeaderAt(m, lo) == Header(HEAP_MAGIC, 1, hi - lo - HEADER, 0, 0)
    ensures Holds(m, Initial(lo, hi))
  {
    assert Expected(Initial(lo, hi), 0) == HeaderAt(m, lo);
  }

  lemma InitialSparesAll(m: seq<byte>, m': seq<byte>, lo: nat, hi: nat)
    requires lo + HEADER <= hi <= |m| && WroteHeader(m, m', lo)
    ensures Spares(m, m', {}, lo, hi)
  {
  }

  ghost function Elements(bs: seq<Block>): set<Block> {
    set b | b in bs
  }

  ghost function Others(bs: seq<Block>, i: nat): set<Block>
    requires i < |bs|
  {
    set b | b in bs && b != bs[i]
  }

  /** The two header-only steps of an allocation from block i spare every other block. */
  lemma TakeSpares(m: seq<byte>, m1: seq<byte>, m': seq<byte>, bs: seq<Block>, i: nat, n: nat, lo: nat, hi: nat)
    requires Shaped(bs, lo, hi) && hi <= |m| && i < |bs| && 16 <= n && n % 16 == 0
    requires HeadersOnly(m, m1, bs, Split(bs, i, n)) && HeadersOnly(m1, m', Split(bs, i, n), Split(bs, i, n))
    ensures Spares(m, m', Others(bs, i), lo, hi)
  {
    hide HeadersOnly, Sized, Split, Take, Spares;
    var s, kept := Split(bs, i, n), Others(bs, i);
    SplitShaped(bs, lo, hi, i, n);
    forall b | b in kept
      ensures b in s
    {
      LiveSurvivesTake(bs, i, n, b);
    }
    HeadersOnlySpares(m, m1, bs, s, kept, lo, hi);
    HeadersOnlySpares(m1, m', s, s, kept, lo, hi);
    SparesTwice(m, m1, m', kept, lo, hi);
  }

  lemma SplitHead(bs: seq<Block>, i: nat, n: nat)
    requires i < |bs|
    ensures i < |Split(bs, i, n)| && Split(bs, i, n)[i].addr == bs[i].addr
  {
  }

  lemma SparesFewer(m: seq<byte>, m': seq<byte>, kept: set<Block>, fewer: set<Block>, lo: nat, hi: nat)
    requires Spares(m, m', kept, lo, hi) && fewer <= kept
    ensures Spares(m, m', fewer, lo, hi)
  {
  }

  lemma SparesRefl(m: seq<byte>, bs: seq<Block>, kept: set<Block>, lo: nat, hi: nat)
    requires Tiled(bs, lo, hi) && hi <= |m| && forall b | b in kept :: b in bs
    ensures Spares(m, m, kept, lo, hi)
  {
    Ordered(bs, lo, hi);
  }

  lemma LiveAreOthers(bs: seq<Block>, i: nat)
    requires i < |bs| && bs[i].free
    ensures Live(bs) <= Others(bs, i)
  {
  }

  /** Null and addresses outside the heap are no payload, so freeing them leaves the list alone. */
  lemma NotAPayload(bs: seq<Block>, lo: nat, hi: nat, ptr: nat)
    requires bs != [] ==> Sound(bs, lo, hi)
    ensures bs == [] || ptr < HEADER || !(lo <= ptr - HEADER < hi) ==> Free(bs, ptr) == bs
    ensures forall k | 0 <= k < |bs| && bs[k].Payload() == ptr :: IndexOf(bs, ptr, 0) == k
    ensures IndexOf(bs, ptr, 0) < |bs| && bs[IndexOf(bs, ptr, 0)].free ==> Free(bs, ptr) == bs
    ensures IndexOf(bs, ptr, 0) < |bs| && !bs[IndexOf(bs, ptr, 0)].free
            ==> Free(bs, ptr) == Release(bs, IndexOf(bs, ptr, 0))
  {
    if bs != [] {
      Ordered(bs, lo, hi);
    }
  }

  lemma SparesAll(m: seq<byte>, bs: seq<Block>, lo: nat, hi: nat)
    requires bs != [] ==> Sound(bs, lo, hi) && hi <= |m|
    ensures Spares(m, m, Elements(bs), lo, hi)
  {
    if bs != [] {
      SparesRefl(m, bs, Elements(bs), lo, hi);
    }
  }

  /** krealloc's in-place path: the block's old bytes and every other block survive the merge and the split. */
  lemma GrowSpares(m: seq<byte>, m1: seq<byte>, m': seq<byte>, bs: seq<Block>, i: nat, n: nat, lo: nat, hi: nat)
    requires Sound(bs, lo, hi) && hi <= |m| && i + 1 < |bs| && !bs[i].free && bs[i + 1].free
    requires 16 <= n && n % 16 == 0 && bs[i].size <= n <= bs[i].size + HEADER + bs[i + 1].size
    requires HeadersOnly(m, m1, bs, bs) && HeadersOnly(m1, m', Merge(bs, i), Grow(bs, i, n))
    ensures Spares(m, m', Live(bs), lo, hi)
  {
    hide HeadersOnly, Sized, Coalesced, Spares;
    var g, w := Merge(bs, i), Grow(bs, i, n);
    MergeShaped(bs, lo, hi, i);
    SplitShaped(g, lo, hi, i, n);
    var rest := set b | b in Live(bs) && b != bs[i];
    forall b | b in rest
      ensures b in g && b in w
    {
      var k :| 0 <= k < |bs| && bs[k] == b;
      assert k != i + 1;
      NotAtSameAddress(bs, lo, hi, i, k);
      assert g[if k < i then k else k - 1] == b;
      LiveSurvivesTake(g, i, n, b);
    }
    HeadersOnlySpares(m, m1, bs, bs, Live(bs), lo, hi);
    HeadersOnlySpares(m1, m', g, w, rest, lo, hi);
    SparesFewer(m, m1, Live(bs), rest, lo, hi);
    SparesTwice(m, m1, m', rest, lo, hi);
    GrownKeeps(m1, m', g, w, i, bs[i], lo, hi);
    SparesOneMore(m, m1, m', bs, i, rest, lo, hi);
  }

  lemma NotAtSameAddress(bs: seq<Block>, lo: nat, hi: nat, i: nat, k: nat)
    requires Tiled(bs, lo, hi) && i < |bs| && k < |bs| && i != k
    ensures bs[i].addr != bs[k].addr
  {
    Ordered(bs, lo, hi);
  }

  lemma GrownKeeps(m1: seq<byte>, m': seq<byte>, g: seq<Block>, w: seq<Block>, i: nat, b: Block, lo: nat, hi: nat)
    requires Tiled(g, lo, hi) && Tiled(w, lo, hi) && hi <= |m1| && HeadersOnly(m1, m', g, w)
    requires i < |g| && i < |w| && g[i].addr == w[i].addr == b.addr && b.size <= g[i].size && b.size <= w[i].size
    ensures SameBytes(m1, m', b.Payload(), b.size)
  {
    Ordered(g, lo, hi);
    forall x | b.Payload() <= x < b.End()
      ensures m1[x] == m'[x]
    {
      PayloadClear(g, lo, hi, i, x);
      PayloadClear(w, lo, hi, i, x);
    }
  }

  lemma SparesOneMore(m: seq<byte>, m1: seq<byte>, m': seq<byte>, bs: seq<Block>, i: nat, rest: set<Block>, lo: nat, hi: nat)
    requires i < |bs| && rest == (set b | b in Live(bs) && b != bs[i])
    requires Spares(m, m', rest, lo, hi) && Spares(m, m1, Live(bs), lo, hi) && !bs[i].free
    requires SameBytes(m1, m', bs[i].Payload(), bs[i].size)
    ensures Spares(m, m', Live(bs), lo, hi)
  {
    assert bs[i] in Live(bs);
    assert SameBytes(m, m1, bs[i].Payload(), bs[i].size);
  }

  /** Bytes written inside live block k leave list and other blocks alone. */
  lemma PayloadWriteSpares(m: seq<byte>, m': seq<byte>, bs: seq<Block>, k: nat, lo: nat, hi: nat)
    requires Shaped(bs, lo, hi) && hi <= |m| == |m'| && k < |bs|
    requires forall x | 0 <= x < |m| && !(bs[k].Payload() <= x < bs[k].End()) :: m[x] == m'[x]
    ensures Spares(m, m', Others(bs, k), lo, hi)
  {
    Ordered(bs, lo, hi);
  }

  lemma AlignedCuts(bs: seq<Block>, lo: nat, hi: nat, i: nat, n: nat, a: nat)
    requires Sound(bs, lo, hi) && i < |bs| && 16 <= n && n % 16 == 0 && IsPow2(a) && 16 < a && FitsAligned(bs[i], n, a)
    ensures Sound(TakeAligned(bs, i, n, a), lo, hi)
    ensures bs[i].size % 16 == 0 && Padding(bs[i], a) % 16 == 0
    ensures Padding(bs[i], a) >= MIN_SPLIT ==> (Padding(bs[i], a) - HEADER) % 16 == 0
  {
    hide TakeAligned, Padding, FitsAligned, Coalesced, Tiled, IsPow2, Live;
    TakeAlignedSound(bs, lo, hi, i, n, a);
    PaddingSixteen(bs[i], a);
    if Padding(bs[i], a) >= MIN_SPLIT {
      Minus16(Padding(bs[i], a));
    }
  }

  lemma Minus16(x: nat)
    requires x % 16 == 0 && x >= HEADER
    ensures (x - HEADER) % 16 == 0
  {
  }

  lemma CutSpares(m: seq<byte>, m': seq<byte>, bs: seq<Block>, i: nat, pad: nat, lo: nat, hi: nat)
    requires Shaped(bs, lo, hi) && hi <= |m| && i < |bs| && bs[i].free && MIN_SPLIT <= pad <= bs[i].size
    requires Shaped(CutFront(bs, i, pad), lo, hi) && HeadersOnly(m, m', bs, CutFront(bs, i, pad))
    ensures Spares(m, m', Live(bs), lo, hi)
  {
    hide Shaped, HeadersOnly, Spares;
    var c := CutFront(bs, i, pad);
    forall b | b in Live(bs)
      ensures b in c
    {
      LiveSurvivesReplace(bs, i, [c[i], c[i + 1]], b);
    }
    HeadersOnlySpares(m, m', bs, c, Live(bs), lo, hi);
  }

  lemma CutKeepsLive(bs: seq<Block>, i: nat, pad: nat, cs: seq<Block>, k: nat)
    requires i < |bs| && bs[i].free
    requires if MIN_SPLIT <= pad then pad <= bs[i].size && cs == CutFront(bs, i, pad) && k == i + 1 else cs == bs && k == i
    ensures k < |cs| && Live(bs) <= Others(cs, k)
  {
    forall b | b in Live(bs)
      ensures b in cs && b != cs[k]
    {
      if MIN_SPLIT <= pad {
        LiveSurvivesReplace(bs, i, [cs[i], cs[i + 1]], b);
      }
    }
  }

  lemma SparesOfLive(m: seq<byte>, bs: seq<Block>, lo: nat, hi: nat)
    requires Shaped(bs, lo, hi) && hi <= |m|
    ensures Spares(m, m, Live(bs), lo, hi)
  {
    SparesRefl(m, bs, Live(bs), lo, hi);
  }

  lemma LiveInElements(bs: seq<Block>)
    ensures Live(bs) <= Elements(bs)
  {
  }

  lemma SparesLive(m: seq<byte>, bs: seq<Block>, lo: nat, hi: nat)
    requires bs != [] ==> Sound(bs, lo, hi) && hi <= |m|
    ensures Spares(m, m, Live(bs), lo, hi)
  {
    SparesAll(m, bs, lo, hi);
  }

  lemma SoundLiveIndex(bs: seq<Block>, lo: nat, hi: nat, p: nat)
    requires Shaped(bs, lo, hi) && LiveAt(bs, p)
    ensures IndexOf(bs, p, 0) < |bs| && !bs[IndexOf(bs, p, 0)].free && bs[IndexOf(bs, p, 0)] in Live(bs)
    ensures bs[IndexOf(bs, p, 0)].Payload() == p
  {
    LiveIndex(bs, lo, hi, p);
  }

  lemma GrowWithin(bs: seq<Block>, lo: nat, hi: nat, i: nat, n: nat)
    requires Sound(bs, lo, hi) && i + 1 < |bs| && !bs[i].free && bs[i + 1].free
    requires bs[i].size < n <= bs[i].size + HEADER + bs[i + 1].size
    ensures 16 <= Align16(n) && bs[i].size <= Align16(n) <= bs[i].size + HEADER + bs[i + 1].size
    ensures Sound(Grow(bs, i, Align16(n)), lo, hi)
  {
    hide Sized, Tiled, Coalesced, Grow, Live;
    GrowReaches(bs, lo, hi, i, n);
    SixteenAtLeast(n);
    GrowSound(bs, lo, hi, i, Align16(n));
  }

  lemma SixteenAtLeast(n: nat)
    requires n > 0
    ensures Align16(n) >= 16
  {
  }

  lemma KeptBytes(m: seq<byte>, m': seq<byte>, bs: seq<Block>, i: nat, kept: set<Block>, lo: nat, hi: nat)
    requires i < |bs| && bs[i] in kept && Spares(m, m', kept, lo, hi)
    ensures SameBytes(m, m', bs[i].Payload(), bs[i].size)
  {
  }

  lemma LiveBytes(m: seq<byte>, m': seq<byte>, bs: seq<Block>, i: nat, lo: nat, hi: nat)
    requires i < |bs| && !bs[i].free && Spares(m, m', Live(bs), lo, hi)
    ensures SameBytes(m, m', bs[i].Payload(), bs[i].size)
  {
    assert bs[i] in Live(bs);
  }

  /** The n bytes at src in m are the n bytes at dest in m'. */
  ghost predicate Arrived(m: seq<byte>, src: nat, m': seq<byte>, dest: nat, n: nat) {
    src + n <= |m| && dest + n <= |m'| && m'[dest..dest + n] == m[src..src + n]
  }

  lemma ArrivedSame(m: seq<byte>, m': seq<byte>, p: nat, n: nat)
    requires SameBytes(m, m', p, n)
    ensures Arrived(m, p, m', p, n)
  {
  }

  /** The source was still as before when it was copied, and the copy still is where it arrived. */
  lemma ArrivedBetween(m: seq<byte>, m1: seq<byte>, src: nat, m2: seq<byte>, m': seq<byte>, dest: nat, n: nat, w: nat)
    requires SameBytes(m, m1, src, n) && Arrived(m1, src, m2, dest, n) && SameBytes(m2, m', dest, w) && n <= w
    ensures Arrived(m, src, m', dest, n)
  {
    assert m[src..src + n] == m1[src..src + n];
    assert m'[dest..dest + n] == m2[dest..dest + n];
  }

  /** Block i of the old list, live, is block j of the new one, and not the block just served. */
  lemma MovedIndex(bs: seq<Block>, ms: seq<Block>, i: nat, k: nat) returns (j: nat)
    requires i < |bs| && !bs[i].free && k < |ms| && Live(bs) <= Others(ms, k)
    ensures j < |ms| && ms[j] == bs[i] && j != k
    ensures Live(bs) <= Elements(ms)
  {
    assert bs[i] in Live(bs);
    assert bs[i] in Others(ms, k);
    j :| 0 <= j < |ms| && ms[j] == bs[i];
  }

  lemma TwoBlocks(bs: seq<Block>, lo: nat, hi: nat, j: nat, k: nat)
    requires Shaped(bs, lo, hi) && j < |bs| && k < |bs| && j != k
    ensures bs[j].End() <= bs[k].addr || bs[k].End() <= bs[j].addr
  {
    Ordered(bs, lo, hi);
  }

  class Heap {
    const mem: array<byte>    // physical memory; a pointer is an index into it
    const kernelEnd: nat      // address of the linker symbol kernel_end
    const heapSize: nat       // HEAP_SIZE
    var heapStart: nat
    var heapEnd: nat
    var heapHead: nat
    ghost var blocks: seq<Block>

    ghost const lo: nat       // where heap_start and heap_end go on first use
    ghost const hi: nat
    ghost const grains: nat   // lo and heapSize in units of 16 bytes
    ghost const sizeGrains: nat

    /** lo is kernel_end rounded up to 16. */
    ghost predicate Fits() {
      && 0 < kernelEnd <= lo < kernelEnd + 16 && lo == 16 * grains
      && MIN_SPLIT <= heapSize == 16 * sizeGrains
      && hi == lo + heapSize <= mem.Length <= U64 - 16
    }

    /** The list is in memory and tiles the heap; neighbours may both be free between two steps. */
    ghost predicate Consistent()
      reads this, mem
    {
      && heapStart == heapHead == lo && heapEnd == hi
      && Shaped(blocks, lo, hi)
      && Holds(mem[..], blocks)
    }

    ghost predicate Valid()
      reads this, mem
    {
      && Fits()
      && if heapHead == 0 then heapStart == heapEnd == 0 && blocks == []
         else Consistent() && Coalesced(blocks)
    }

    /** The block list as the next call finds it: init_heap runs on first use. */
    ghost function Boot(): seq<Block>
      requires Fits()
      reads this
    {
      if heapHead == 0 then Initial(lo, hi) else blocks
    }

    constructor (memory: array<byte>, kernelEnd: nat, heapSize: nat)
      requires 0 < kernelEnd && MIN_SPLIT <= heapSize && heapSize % 16 == 0
      requires Align16(kernelEnd) + heapSize <= memory.Length <= U64 - 16
      ensures Valid() && heapHead == 0 && mem == memory && this.kernelEnd == kernelEnd && this.heapSize == heapSize
    {
      mem := memory;
      this.kernelEnd := kernelEnd;
      this.heapSize := heapSize;
      lo := Align16(kernelEnd);
      hi := Align16(kernelEnd) + heapSize;
      grains := Align16(kernelEnd) / 16;
      sizeGrains := heapSize / 16;
      heapStart, heapEnd, heapHead := 0, 0, 0;
      blocks := [];
    }

    function HeaderOf(a: nat): Header
      requires a + HEADER <= mem.Length
      reads mem
    {
      HeaderAt(mem[..], a)
    }

    // ---- Header fields ----

    method SetFree(a: nat, v: nat)
      requires a + HEADER <= mem.Length && v < U32
      modifies mem
      ensures HeaderOf(a) == old(HeaderOf(a)).(isFree := v)
      ensures WroteHeader(old(mem[..]), mem[..], a)
    {
      ghost var m := mem[..];
      SpanWords();
      Store(mem, a + 4, 4, v);
      LoadFrame(m, mem[..], a, 4);
      LoadFrame(m, mem[..], a + 8, 8);
      LoadFrame(m, mem[..], a + 16, 8);
      LoadFrame(m, mem[..], a + 24, 8);
    }

    method SetSize(a: nat, v: nat)
      requires a + HEADER <= mem.Length && v < U64
      modifies mem
      ensures HeaderOf(a) == old(HeaderOf(a)).(size := v)
      ensures WroteHeader(old(mem[..]), mem[..], a)
    {
      ghost var m := mem[..];
      SpanWords();
      Store(mem, a + 8, 8, v);
      LoadFrame(m, mem[..], a, 4);
      LoadFrame(m, mem[..], a + 4, 4);
      LoadFrame(m, mem[..], a + 16, 8);
      LoadFrame(m, mem[..], a + 24, 8);
    }

    method SetNext(a: nat, v: nat)
      requires a + HEADER <= mem.Length && v < U64
      modifies mem
      ensures HeaderOf(a) == old(HeaderOf(a)).(next := v)
      ensures WroteHeader(old(mem[..]), mem[..], a)
    {
      ghost var m := mem[..];
      SpanWords();
      Store(mem, a + 16, 8, v);
      LoadFrame(m, mem[..], a, 4);
      LoadFrame(m, mem[..], a + 4, 4);
      LoadFrame(m, mem[..], a + 8, 8);
      LoadFrame(m, mem[..], a + 24, 8);
    }

    method SetPrev(a: nat, v: nat)
      requires a + HEADER <= mem.Length && v < U64
      modifies mem
      ensures HeaderOf(a) == old(HeaderOf(a)).(prev := v)
      ensures WroteHeader(old(mem[..]), mem[..], a)
    {
      ghost var m := mem[..];
      SpanWords();
      Store(mem, a + 24, 8, v);
      LoadFrame(m, mem[..], a, 4);
      LoadFrame(m, mem[..], a + 4, 4);
      LoadFrame(m, mem[..], a + 8, 8);
      LoadFrame(m, mem[..], a + 16, 8);
    }

    method SetMagic(a: nat, v: nat)
      requires a + HEADER <= mem.Length && v < U32
      modifies mem
      ensures HeaderOf(a) == old(HeaderOf(a)).(magic := v)
      ensures WroteHeader(old(mem[..]), mem[..], a)
    {
      ghost var m := mem[..];
      SpanWords();
      Store(mem, a, 4, v);
      LoadFrame(m, mem[..], a + 4, 4);
      LoadFrame(m, mem[..], a + 8, 8);
      LoadFrame(m, mem[..], a + 16, 8);
      LoadFrame(m, mem[..], a + 24, 8);
    }

    /** The field-by-field initialisation of a header. */
    method SetHeader(a: nat, h: Header)
      requires a + HEADER <= mem.Length && h.magic < U32 && h.isFree < U32
      requires h.size < U64 && h.next < U64 && h.prev < U64
      modifies mem
      ensures HeaderOf(a) == h
      ensures WroteHeader(old(mem[..]), mem[..], a)
    {
      hide HeaderAt;
      SetMagic(a, h.magic);
      SetSize(a, h.size);
      SetFree(a, h.isFree);
      SetNext(a, h.next);
      SetPrev(a, h.prev);
    }

    // ---- List surgery ----

    /** The stores of split_block, which are also those of kmalloc_aligned's front cut. */
    method LinkNew(current: nat, newBlock: nat, newSize: nat, keep: nat)
      requires 0 < current && current + HEADER <= newBlock && newBlock + HEADER <= mem.Length < U64
      requires newSize < U64 && keep < U64
      requires var next := HeaderOf(current).next; next != 0 ==> newBlock + HEADER <= next && next + HEADER <= mem.Length
      modifies mem
      ensures var next := old(HeaderOf(current).next);
              && HeaderOf(current) == old(HeaderOf(current)).(size := keep, next := newBlock)
              && HeaderOf(newBlock) == Header(HEAP_MAGIC, 1, newSize, next, current)
              && (next != 0 ==> HeaderOf(next) == old(HeaderOf(next)).(prev := newBlock))
              && WroteThree(old(mem[..]), mem[..], current, newBlock, next)
    {
      hide HeaderAt;
      ghost var m := mem[..];
      var next := HeaderOf(current).next;
      SetHeader(newBlock, Header(HEAP_MAGIC, 1, newSize, next, current));
      OtherHeader(m, mem[..], newBlock, current);
      if next != 0 {
        OtherHeader(m, mem[..], newBlock, next);
        ghost var m1 := mem[..];
        SetPrev(next, newBlock);
        OtherHeader(m1, mem[..], next, newBlock);
        OtherHeader(m1, mem[..], next, current);
      }
      ghost var m2 := mem[..];
      SetSize(current, keep);
      OtherHeader(m2, mem[..], current, newBlock);
      if next != 0 { OtherHeader(m2, mem[..], current, next); }
      ghost var m3 := mem[..];
      SetNext(current, newBlock);
      OtherHeader(m3, mem[..], current, newBlock);
      if next != 0 { OtherHeader(m3, mem[..], current, next); }
    }

    /** Write a free header inside block i, after keep payload bytes, and link it in. */
    method InsertHeader(current: nat, newBlock: nat, newSize: nat, keep: nat, ghost i: nat)
      requires Fits() && Consistent() && i < |blocks| && current == blocks[i].addr
      requires newBlock == current + HEADER + keep && newSize + keep + HEADER == blocks[i].size
      requires 16 <= keep && keep % 16 == 0 && 16 <= newSize
      modifies mem, this`blocks
      ensures Consistent()
      ensures blocks == Replace(old(blocks), i, i + 1, [old(blocks)[i].(size := keep), Block(newBlock, newSize, true)])
      ensures HeadersOnly(old(mem[..]), mem[..], old(blocks), blocks)
    {
      hide HeaderAt, Expected, Shaped, Holds, HeadersOnly, WroteThree, Replace;
      ghost var bs, m := blocks, mem[..];
      ghost var seg := [bs[i].(size := keep), Block(newBlock, newSize, true)];
      Neighbours(m, bs, lo, hi, i);
      CutShaped(bs, lo, hi, i, seg);
      blocks := Replace(bs, i, i + 1, seg);
      LinkNew(current, newBlock, newSize, keep);
      InsertedHolds(m, mem[..], bs, i, seg, lo, hi);
    }

    /** split_block */
    method SplitBlock(current: nat, size: nat, ghost i: nat)
      requires Fits() && Consistent() && i < |blocks| && current == blocks[i].addr && 16 <= size && size % 16 == 0
      modifies mem, this`blocks
      ensures Consistent() && blocks == Split(old(blocks), i, size)
      ensures HeadersOnly(old(mem[..]), mem[..], old(blocks), blocks)
    {
      hide HeaderAt, Shaped, Holds, Align16, Expected;
      Neighbours(mem[..], blocks, lo, hi, i);
      var h := HeaderOf(current);
      if h.size >= size + MIN_SPLIT {
        InsertHeader(current, current + HEADER + size, h.size - size - HEADER, size, i);
      }
    }

    /** Block i takes over its right neighbour: the unlinking that coalesce and krealloc share. */
    method Absorb(left: nat, ghost i: nat)
      requires Fits() && Consistent() && i + 1 < |blocks| && left == blocks[i].addr
      modifies mem, this`blocks
      ensures Consistent() && blocks == Merge(old(blocks), i)
      ensures HeadersOnly(old(mem[..]), mem[..], old(blocks), old(blocks))
    {
      hide HeaderAt, Expected, Shaped, Holds, HeadersOnly, Merge;
      ghost var bs, m := blocks, mem[..];
      Neighbours(m, bs, lo, hi, i);
      Neighbours(m, bs, lo, hi, i + 1);
      var right := HeaderOf(left).next;
      var next := HeaderOf(right).next;
      SetSize(left, HeaderOf(left).size + HEADER + HeaderOf(right).size);
      OtherHeader(m, mem[..], left, right);
      ghost var m1 := mem[..];
      SetNext(left, next);
      if next != 0 {
        OtherHeader(m, mem[..], left, next);
        ghost var m2 := mem[..];
        SetPrev(next, left);
        OtherHeader(m2, mem[..], next, left);
      }
      blocks := Merge(bs, i);
      MergedHolds(m, mem[..], bs, i, lo, hi);
    }

    method SetFlag(a: nat, free: bool, ghost i: nat)
      requires Fits() && Consistent() && i < |blocks| && a == blocks[i].addr
      modifies mem, this`blocks
      ensures Consistent() && blocks == old(blocks)[i := old(blocks)[i].(free := free)]
      ensures HeadersOnly(old(mem[..]), mem[..], old(blocks), old(blocks))
    {
      hide HeaderAt, Expected, Shaped, Holds, HeadersOnly, WroteHeader;
      ghost var bs, m := blocks, mem[..];
      Neighbours(m, bs, lo, hi, i);
      SetFree(a, if free then 1 else 0);
      blocks := bs[i := bs[i].(free := free)];
      FlaggedHolds(m, mem[..], bs, i, free, lo, hi);
    }

    /** coalesce, on a block of the list */
    method CoalesceBlock(block: nat, ghost i: nat) returns (b: nat)
      requires Fits() && Consistent() && i < |blocks| && block == blocks[i].addr
      modifies mem, this`blocks
      ensures Consistent() && blocks == Coalesce(old(blocks), i)
      ensures HeadersOnly(old(mem[..]), mem[..], old(blocks), old(blocks))
      ensures var bs := old(blocks);
              b == bs[if bs[i].free && 0 < i && bs[i - 1].free then i - 1 else i].addr
    {
      hide HeaderAt, Shaped, Holds, HeadersOnly, Merge;
      ghost var bs, m := blocks, mem[..];
      Neighbours(m, bs, lo, hi, i);
      if block == 0 || HeaderOf(block).isFree == 0 {
        HeadersOnlyRefl(m, bs);
        return block;
      }
      var next := HeaderOf(block).next;
      if i + 1 < |bs| { Neighbours(m, bs, lo, hi, i + 1); }
      if next != 0 && HeaderOf(next).isFree != 0 && HeaderOf(next).magic == HEAP_MAGIC {
        Absorb(block, i);
        MergeHead(bs, i);
      } else {
        HeadersOnlyRefl(m, bs);
      }
      ghost var right, m1 := blocks, mem[..];
      Neighbours(m1, right, lo, hi, i);
      var prev := HeaderOf(block).prev;
      if i > 0 { Neighbours(m1, right, lo, hi, i - 1); }
      if prev != 0 && HeaderOf(prev).isFree != 0 && HeaderOf(prev).magic == HEAP_MAGIC {
        Absorb(prev, i - 1);
        if right != bs { MergeTwice(m, m1, mem[..], bs, i); } else { HeadersOnlyTrans(m, m1, mem[..], bs); }
        MergeHead(right, i - 1);
        return prev;
      }
      return block;
    }

    // ---- Entry points ----

    method InitHeap()
      requires Valid() && heapHead == 0
      modifies this, mem
      ensures Valid() && heapHead != 0 && blocks == Initial(lo, hi)
      ensures Spares(old(mem[..]), mem[..], {}, lo, hi)
    {
      hide HeaderAt, RoundUp, Shaped, Holds, Coalesced, Spares;
      ghost var m := mem[..];
      RoundsTo(kernelEnd, lo, grains);
      RoundsTo(heapSize, heapSize, sizeGrains);
      InitialReady(lo, hi, heapSize);
      heapStart := kernelEnd;
      heapStart := RoundUp(heapStart, 16);
      heapEnd := heapStart + heapSize;
      heapHead := heapStart;
      SetHeader(heapHead, Header(HEAP_MAGIC, 1, heapSize - HEADER, 0, 0));
      InitialSparesAll(m, mem[..], lo, hi);
      blocks := Initial(lo, hi);
      InitialHolds(mem[..], lo, hi);
    }

    static lemma InitialReady(lo: nat, hi: nat, size: nat)
      requires hi == lo + size && MIN_SPLIT <= size && lo % 16 == 0 && size % 16 == 0
      ensures Shaped(Initial(lo, hi), lo, hi) && Coalesced(Initial(lo, hi))
    {
      InitialSound(lo, hi);
    }

    static lemma RoundsTo(x: nat, r: nat, g: nat)
      requires x <= r < x + 16 && r == 16 * g && x <= U64 - 16
      ensures RoundUp(x, 16) == r && r % 16 == 0
    {
      hide RoundUp;
      MaskAligns16(x);
      UniqueRemainder(x + 15, 16, g, x + 15 - r);
      UniqueRemainder(r, 16, g, 0);
    }

    /** Split block i and mark it used. */
    method TakeBlock(current: nat, n: nat, ghost i: nat)
      requires Fits() && Consistent() && i < |blocks| && current == blocks[i].addr && 16 <= n && n % 16 == 0
      modifies mem, this`blocks
      ensures Consistent() && blocks == Take(old(blocks), i, n)
      ensures Spares(old(mem[..]), mem[..], Others(old(blocks), i), lo, hi)
    {
      hide HeaderAt, Expected, Shaped, Holds, HeadersOnly, Spares, Split, Others;
      ghost var bs, m := blocks, mem[..];
      SplitHead(bs, i, n);
      SplitBlock(current, n, i);
      ghost var m1 := mem[..];
      SetFlag(current, false, i);
      TakeSpares(m, m1, mem[..], bs, i, n, lo, hi);
    }

    method KMalloc(size: nat) returns (ptr: nat)
      requires Valid() && size <= U64 - 16
      modifies this, mem
      ensures Valid() && heapHead != 0
      ensures Outcome(blocks, ptr) == Malloc(old(Boot()), size)
      ensures Spares(old(mem[..]), mem[..], Live(old(Boot())), lo, hi)
    {
      hide HeaderAt, Shaped, Holds, HeadersOnly, Spares, Take, Live, Coalesced;
      ghost var m0 := mem[..];
      BootHeap();
      if size == 0 {
        return 0;
      }
      MaskAligns16(size);
      var n := RoundUp(size, 16);
      var current := heapHead;
      ghost var bs, m1, i := blocks, mem[..], 0;
      while current != 0
        invariant Consistent() && Coalesced(blocks) && blocks == bs && mem[..] == m1
        invariant Scanned(bs, n, i) && current == if i < |bs| then bs[i].addr else 0
        decreases |bs| - i
      {
        Neighbours(m1, bs, lo, hi, i);
        var h := HeaderOf(current);
        if h.magic != HEAP_MAGIC {
          assert false;
        }
        if h.isFree != 0 && h.size >= n {
          TakeBlock(current, n, i);
          LiveAreOthers(bs, i);
          SparesFewer(m1, mem[..], Others(bs, i), Live(bs), lo, hi);
          SparesTwice(m0, m1, mem[..], Live(bs), lo, hi);
          TakeSound(bs, lo, hi, i, n);
          return current + HEADER;
        }
        current := h.next;
        i := i + 1;
      }
      if i < |bs| { Neighbours(m1, bs, lo, hi, i); }
      return 0;
    }

    /** The lazy initialisation at the head of kmalloc and kmalloc_aligned. */
    method BootHeap()
      requires Valid()
      modifies this, mem
      ensures Valid() && heapHead != 0 && blocks == old(Boot())
      ensures Spares(old(mem[..]), mem[..], Live(blocks), lo, hi)
    {
      hide HeaderAt, Holds, Spares;
      if heapHead == 0 {
        InitHeap();
        assert Live(blocks) == {};
      } else {
        SparesRefl(mem[..], blocks, Live(blocks), lo, hi);
      }
    }

    method KFree(ptr: nat)
      requires Valid() && (heapHead == 0 || Freeable(blocks, lo, hi, ptr))
      modifies mem, this`blocks
      ensures Valid() && blocks == Free(old(blocks), ptr)
      ensures Spares(old(mem[..]), mem[..], Elements(old(blocks)), lo, hi)
    {
      hide HeaderAt, Shaped, Holds, HeadersOnly, Spares, Coalesced, Free, Coalesce;
      ghost var bs, m := blocks, mem[..];
      ghost var kept := Elements(bs);
      NotAPayload(bs, lo, hi, ptr);
      SparesAll(m, bs, lo, hi);
      if ptr == 0 {
        return;
      }
      if heapStart == 0 || heapEnd == 0 {
        return;
      }
      var header := HeaderAddress(ptr);
      if header < heapStart || header >= heapEnd {
        return;
      }
      ghost var k := IndexOf(bs, ptr, 0);
      Neighbours(m, bs, lo, hi, k);
      if HeaderOf(header).magic != HEAP_MAGIC {
        assert false;
      }
      if HeaderOf(header).isFree != 0 {
        return;
      }
      SetFlag(header, true, k);
      ghost var fs, m1 := blocks, mem[..];
      var merged := CoalesceBlock(header, k);
      FlagThen(m, m1, mem[..], bs, k, true);
      HeadersOnlySpares(m, mem[..], bs, bs, kept, lo, hi);
      ReleaseSound(bs, lo, hi, k);
    }

    method KGetFreeMemory() returns (freeMem: nat)
      requires Valid()
      ensures freeMem == Total(blocks, true)
      ensures heapHead != 0 ==> freeMem == |PayloadBytes(blocks, true)|
      ensures heapHead != 0 ==> freeMem + Total(blocks, false) + HEADER * |blocks| == heapSize
    {
      hide HeaderAt, Shaped, Holds;
      freeMem := 0;
      var current := heapHead;
      ghost var bs, m, i := blocks, mem[..], 0;
      if heapHead != 0 { SoundConserves(bs, lo, hi); }
      while current != 0
        invariant heapHead != 0 ==> Fits() && Consistent() && mem[..] == m
        invariant i <= |bs| && current == if i < |bs| then bs[i].addr else 0
        invariant freeMem == Total(bs[..i], true)
        decreases |bs| - i
      {
        Neighbours(m, bs, lo, hi, i);
        assert bs[..i + 1][..i] == bs[..i];
        if HeaderOf(current).isFree != 0 {
          freeMem := freeMem + HeaderOf(current).size;
        }
        current := HeaderOf(current).next;
        i := i + 1;
      }
      if i < |bs| { Neighbours(m, bs, lo, hi, i); }
      assert bs[..|bs|] == bs;
    }

    static lemma SoundConserves(bs: seq<Block>, lo: nat, hi: nat)
      requires Shaped(bs, lo, hi)
      ensures Total(bs, true) + Total(bs, false) + HEADER * |bs| == hi - lo
      ensures Total(bs, true) == |PayloadBytes(bs, true)|
    {
      Conservation(bs, lo, hi);
      TotalCounts(bs, lo, hi, true);
    }

    method KMallocAligned(size: nat, align: nat) returns (ptr: nat)
      requires Valid() && IsPow2(align) && hi + align <= U64 && size + align <= U64 - 16
      modifies this, mem
      ensures Valid() && heapHead != 0
      ensures Outcome(blocks, ptr) == MallocAligned(old(Boot()), size, align)
      ensures Spares(old(mem[..]), mem[..], Live(old(Boot())), lo, hi)
    {
      hide HeaderAt, Shaped, Holds, HeadersOnly, Spares, Take, TakeAligned, Live, Coalesced, IsPow2, Padding, RoundUp,
           Align16, Ceil;
      ghost var m0 := mem[..];
      BootHeap();
      if size == 0 {
        return 0;
      }
      if align <= 16 {
        ghost var m1, bs1 := mem[..], blocks;
        ptr := KMalloc(size);
        SparesTwice(m0, m1, mem[..], Live(bs1), lo, hi);
        return ptr;
      }
      MaskAligns16(size);
      var n := RoundUp(size, 16);
      var current := heapHead;
      ghost var bs, m1, i := blocks, mem[..], 0;
      while current != 0
        invariant Consistent() && Coalesced(blocks) && blocks == bs && mem[..] == m1
        invariant i <= |bs| && current == if i < |bs| then bs[i].addr else 0
        invariant FirstAligned(bs, n, align, 0) == FirstAligned(bs, n, align, i)
        decreases |bs| - i
      {
        Neighbours(m1, bs, lo, hi, i);
        var h := HeaderOf(current);
        if h.isFree != 0 {
          var dataStart := current + HEADER;
          PaddingIs(bs[i], align);
          var alignedStart := RoundUp(dataStart, align);
          var padding := alignedStart - dataStart;
          if h.size >= n + padding {
            if padding == 0 || padding >= MIN_SPLIT {
              ptr := CutAligned(current, padding, n, align, i);
              SparesTwice(m0, m1, mem[..], Live(bs), lo, hi);
              return;
            }
          }
        }
        current := h.next;
        i := i + 1;
      }
      if i < |bs| { Neighbours(m1, bs, lo, hi, i); }
      return 0;
    }

    static lemma PaddingIs(b: Block, a: nat)
      requires IsPow2(a) && b.Payload() + a - 1 < U64
      ensures a >= 1 && RoundUp(b.Payload(), a) == b.Payload() + Padding(b, a)
    {
      RoundUpIsCeil(b.Payload(), a);
    }

    /** kmalloc_aligned's double split, once it has chosen block i. */
    method CutAligned(block: nat, padding: nat, n: nat, ghost align: nat, ghost i: nat) returns (ptr: nat)
      requires Fits() && Consistent() && Coalesced(blocks) && i < |blocks| && block == blocks[i].addr
      requires IsPow2(align) && 16 < align && 16 <= n && n % 16 == 0
      requires FitsAligned(blocks[i], n, align) && padding == Padding(blocks[i], align)
      modifies mem, this`blocks
      ensures Consistent() && Coalesced(blocks)
      ensures blocks == TakeAligned(old(blocks), i, n, align) && ptr == old(blocks)[i].Payload() + padding
      ensures Spares(old(mem[..]), mem[..], Live(old(blocks)), lo, hi)
    {
      hide HeaderAt, Expected, Shaped, Holds, HeadersOnly, Spares, Take, Live, Coalesced, IsPow2, Padding;
      ghost var bs, m := blocks, mem[..];
      Neighbours(m, bs, lo, hi, i);
      AlignedCuts(bs, lo, hi, i, n, align);
      var current := block;
      ghost var k := i;
      if padding >= MIN_SPLIT {
        InsertHeader(current, current + padding, HeaderOf(current).size - padding, padding - HEADER, i);
        CutSpares(m, mem[..], bs, i, padding, lo, hi);
        current := current + padding;
        k := i + 1;
      } else {
        LiveAreOthers(bs, i);
        SparesOfLive(m, bs, lo, hi);
      }
      ghost var cs, m1 := blocks, mem[..];
      TakeBlock(current, n, k);
      CutKeepsLive(bs, i, padding, cs, k);
      SparesFewer(m1, mem[..], Others(cs, k), Live(bs), lo, hi);
      SparesTwice(m, m1, mem[..], Live(bs), lo, hi);
      ptr := current + HEADER;
    }

    method KCalloc(count: nat, size: nat) returns (ptr: nat)
      requires Valid() && count < U64 && size < U64
      requires count * size >= U64 || count * size <= U64 - 16
      modifies this, mem
      ensures Valid()
      ensures count * size >= U64 ==> ptr == 0 && blocks == old(blocks) && mem[..] == old(mem[..])
      ensures count * size < U64 ==> Outcome(blocks, ptr) == Calloc(old(Boot()), count, size)
      ensures ptr != 0 ==> forall x | ptr <= x < ptr + count * size :: x < mem.Length && mem[x] == 0
      ensures Spares(old(mem[..]), mem[..], Live(old(blocks)), lo, hi)
    {
      hide HeaderAt, Shaped, Holds, Spares, Live, Coalesced, Malloc, DividesBack;
      ghost var m0, bs0 := mem[..], blocks;
      CallocTest(count, size);
      SparesLive(m0, bs0, lo, hi);
      var total := count * size % U64;
      if count != 0 && total / count != size {
        return 0;
      }
      ghost var bs := Boot();
      BootLive(bs0, lo, hi);
      ptr := KMalloc(total);
      ghost var m1 := mem[..];
      SparesFewer(m0, m1, Live(bs), Live(bs0), lo, hi);
      if ptr != 0 {
        ghost var k := ServedAt(bs, blocks, ptr, total);
        Neighbours(m1, blocks, lo, hi, k);
        MemSet(mem, ptr, 0, total);
        HoldsPayloadWrite(m1, mem[..], blocks, lo, hi, k);
        PayloadWriteSpares(m1, mem[..], blocks, k, lo, hi);
        SparesFewer(m1, mem[..], Others(blocks, k), Live(bs0), lo, hi);
        SparesTwice(m0, m1, mem[..], Live(bs0), lo, hi);
      }
    }

    lemma CallocTest(count: nat, size: nat)
      requires count < U64 && size < U64
      ensures DividesBack(count, size) <==> count * size < U64
      ensures count != 0 && (count * size % U64) / count != size <==> count * size >= U64
      ensures count * size < U64 ==> count * size % U64 == count * size
    {
      DividesBackIsExact(count, size);
    }

    /** Before the first call there is nothing live. */
    lemma BootLive(bs: seq<Block>, lo: nat, hi: nat)
      requires Valid() && bs == blocks && lo == this.lo && hi == this.hi
      ensures Live(bs) <= Live(Boot()) && Sound(Boot(), lo, hi)
    {
      BootSound();
    }

    lemma BootSound()
      requires Valid()
      ensures Sound(Boot(), lo, hi)
      ensures heapHead == 0 ==> Live(Boot()) == {}
    {
      if heapHead == 0 {
        assert lo % 16 == 0 && heapSize % 16 == 0;
        InitialSound(lo, hi);
      }
    }

    /** Where the block that kmalloc served sits in the new list. */
    lemma ServedAt(bs: seq<Block>, bs': seq<Block>, ptr: nat, n: nat) returns (k: nat)
      requires Sound(bs, lo, hi) && ptr != 0 && Outcome(bs', ptr) == Malloc(bs, n)
      ensures k < |bs'| && bs'[k].Payload() == ptr && !bs'[k].free && bs'[k].size >= n
      ensures Live(bs) <= Others(bs', k)
      ensures Sound(bs', lo, hi)
    {
      hide Malloc, Sized, Coalesced, Tiled;
      MallocEffect(bs, lo, hi, n);
      var b :| Served(bs, hi, b, ptr, n) && Live(bs') == Live(bs) + {b};
      assert b in bs';
      k :| 0 <= k < |bs'| && bs'[k] == b;
    }

    method KRealloc(ptr: nat, size: nat) returns (newPtr: nat)
      requires Valid() && size <= U64 - 16 && (ptr == 0 || LiveAt(blocks, ptr))
      modifies this, mem
      ensures Valid()
      ensures Outcome(blocks, newPtr) == Realloc(old(if ptr == 0 then Boot() else blocks), ptr, size)
      ensures Spares(old(mem[..]), mem[..], Live(old(blocks)), lo, hi)
      ensures ptr != 0 && newPtr != 0 ==>
                var oldSize := old(blocks)[IndexOf(old(blocks), ptr, 0)].size;
                Arrived(old(mem[..]), ptr, mem[..], newPtr, oldSize)
    {
      hide HeaderAt, Shaped, Holds, HeadersOnly, Spares, Live, Coalesced, Malloc, Grow, Free, RoundUp, Align16,
           SameBytes, Arrived;
      ghost var bs, m := blocks, mem[..];
      if ptr == 0 {
        BootLive(bs, lo, hi);
        ghost var booted := Boot();
        newPtr := KMalloc(size);
        SparesFewer(m, mem[..], Live(booted), Live(bs), lo, hi);
        return;
      }
      ghost var i := IndexOf(bs, ptr, 0);
      SoundLiveIndex(bs, lo, hi, ptr);
      Neighbours(m, bs, lo, hi, i);
      SparesOfLive(m, bs, lo, hi);
      if size == 0 {
        KFree(ptr);
        LiveInElements(bs);
        SparesFewer(m, mem[..], Elements(bs), Live(bs), lo, hi);
        return 0;
      }
      var header := ptr - HEADER;
      if HeaderOf(header).magic != HEAP_MAGIC {
        assert false;
      }
      LiveBytes(m, mem[..], bs, i, lo, hi);
      ArrivedSame(m, mem[..], ptr, bs[i].size);
      if HeaderOf(header).size >= size {
        return ptr;
      }
      var next := HeaderOf(header).next;
      if i + 1 < |bs| { Neighbours(m, bs, lo, hi, i + 1); }
      if next != 0 && HeaderOf(next).isFree != 0
         && HeaderOf(header).size + HEADER + HeaderOf(next).size >= size {
        GrowInPlace(header, size, i);
        LiveBytes(m, mem[..], bs, i, lo, hi);
        ArrivedSame(m, mem[..], ptr, bs[i].size);
        return ptr;
      }
      newPtr := MoveBlock(header, ptr, size, i);
    }

    /** krealloc's second choice: take over the free right neighbour, give back the excess. */
    method GrowInPlace(header: nat, size: nat, ghost i: nat)
      requires Valid() && heapHead != 0 && size <= U64 - 16 && i + 1 < |blocks| && header == blocks[i].addr
      requires !blocks[i].free && blocks[i + 1].free
      requires blocks[i].size < size <= blocks[i].size + HEADER + blocks[i + 1].size
      modifies mem, this`blocks
      ensures Valid() && blocks == Grow(old(blocks), i, Align16(size))
      ensures Spares(old(mem[..]), mem[..], Live(old(blocks)), lo, hi)
    {
      hide HeaderAt, Shaped, Holds, HeadersOnly, Spares, Live, Coalesced, Split;
      ghost var bs, m := blocks, mem[..];
      Absorb(header, i);
      ghost var m1 := mem[..];
      MergeHead(bs, i);
      MaskAligns16(size);
      GrowWithin(bs, lo, hi, i, size);
      SplitBlock(header, RoundUp(size, 16), i);
      GrowSpares(m, m1, mem[..], bs, i, Align16(size), lo, hi);
    }

    /** krealloc's last resort: allocate, copy, free. */
    method MoveBlock(header: nat, ptr: nat, size: nat, ghost i: nat) returns (newPtr: nat)
      requires Valid() && 0 < size <= U64 - 16 && i < |blocks| && !blocks[i].free && blocks[i].size <= size
      requires blocks[i].addr == header && blocks[i].Payload() == ptr
      modifies this, mem
      ensures Valid()
      ensures var out := Malloc(old(blocks), size);
              newPtr == out.ptr && blocks == if newPtr == 0 then out.blocks else Free(out.blocks, ptr)
      ensures Spares(old(mem[..]), mem[..], Live(old(blocks)), lo, hi)
      ensures var n := old(blocks)[i].size;
              newPtr != 0 ==> Arrived(old(mem[..]), ptr, mem[..], newPtr, n)
    {
      hide HeaderAt, Shaped, Holds, HeadersOnly, Spares, Live, Coalesced, Malloc, Free, SameBytes, Others, Arrived;
      ghost var bs, m := blocks, mem[..];
      newPtr := KMalloc(size);
      if newPtr != 0 {
        CopyAndFree(header, ptr, newPtr, size, bs, m, i);
      }
    }

    /** krealloc's memcpy and kfree, once kmalloc has served the new block. */
    method CopyAndFree(header: nat, ptr: nat, newPtr: nat, ghost size: nat, ghost bs: seq<Block>, ghost m: seq<byte>,
                       ghost i: nat)
      requires Valid() && heapHead != 0 && Sound(bs, lo, hi)
      requires newPtr != 0 && Outcome(blocks, newPtr) == Malloc(bs, size)
      requires i < |bs| && !bs[i].free && bs[i].size <= size && bs[i].addr == header && bs[i].Payload() == ptr
      requires Spares(m, mem[..], Live(bs), lo, hi)
      modifies mem, this`blocks
      ensures Valid() && blocks == Free(old(blocks), ptr) && Spares(m, mem[..], Live(bs), lo, hi)
      ensures Arrived(m, ptr, mem[..], newPtr, bs[i].size)
    {
      hide HeaderAt, Shaped, Holds, HeadersOnly, Spares, Live, Coalesced, Malloc, Free, SameBytes, Others, Arrived;
      ghost var ms, m1 := blocks, mem[..];
      ghost var k := ServedAt(bs, ms, newPtr, size);
      ghost var j := MovedIndex(bs, ms, i, k);
      Neighbours(m1, ms, lo, hi, j);
      CopyPayload(newPtr, ptr, HeaderOf(header).size, j, k);
      ghost var m2 := mem[..];
      SparesFewer(m1, m2, Others(ms, k), Live(bs), lo, hi);
      SparesTwice(m, m1, m2, Live(bs), lo, hi);
      KFree(ptr);
      SparesFewer(m2, mem[..], Elements(ms), Live(bs), lo, hi);
      SparesTwice(m, m2, mem[..], Live(bs), lo, hi);
      LiveBytes(m, m1, bs, i, lo, hi);
      KeptBytes(m2, mem[..], ms, k, Elements(ms), lo, hi);
      ArrivedBetween(m, m1, ptr, m2, mem[..], newPtr, bs[i].size, ms[k].size);
    }

    /** memcpy from the whole payload of block j into that of block k. */
    method CopyPayload(dest: nat, src: nat, n: nat, ghost j: nat, ghost k: nat)
      requires Valid() && heapHead != 0 && j < |blocks| && k < |blocks| && j != k
      requires blocks[j].Payload() == src && blocks[k].Payload() == dest
      requires n == blocks[j].size <= blocks[k].size
      modifies mem
      ensures Valid() && Spares(old(mem[..]), mem[..], Others(blocks, k), lo, hi)
      ensures Arrived(old(mem[..]), src, mem[..], dest, n)
    {
      hide HeaderAt, Shaped, Holds, Spares, Coalesced;
      ghost var m := mem[..];
      Neighbours(m, blocks, lo, hi, k);
      Neighbours(m, blocks, lo, hi, j);
      TwoBlocks(blocks, lo, hi, j, k);
      MemCpy(mem, dest, src, n);
      HoldsPayloadWrite(m, mem[..], blocks, lo, hi, k);
      PayloadWriteSpares(m, mem[..], blocks, k, lo, hi);
    }

    // ---- A caller's own stores ----

    function Word(p: nat): nat
      requires p + 4 <= mem.Length
      reads mem
    {
      Load(mem[..], p, 4)
    }

    /** The owner of live block k stores a word in its payload. */
    method PutWord(p: nat, v: nat, ghost k: nat)
      requires Valid() && heapHead != 0 && v < U32
      requires k < |blocks| && !blocks[k].free && blocks[k].Payload() <= p && p + 4 <= blocks[k].End()
      modifies mem
      ensures Valid() && p + 4 <= mem.Length && Word(p) == v
      ensures forall x | 0 <= x < mem.Length && !(p <= x < p + 4) :: mem[x] == old(mem[x])
      ensures Spares(old(mem[..]), mem[..], Others(blocks, k), lo, hi)
    {
      hide HeaderAt, Shaped, Holds, Spares, Others, Coalesced;
      ghost var m := mem[..];
      Neighbours(m, blocks, lo, hi, k);
      SpanWords();
      Store(mem, p, 4, v);
      HoldsPayloadWrite(m, mem[..], blocks, lo, hi, k);
      PayloadWriteSpares(m, mem[..], blocks, k, lo, hi);
    }
  }
}
