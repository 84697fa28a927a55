/** Counting blocks and table slots: what the free and the owned ones add up to, and what keeps the sum. */
module Accounting {
  import opened Bytes
  import opened Layout
  import opened Volume
  import opened VolumeOps

  ghost function FreeCount(fat: seq<nat>, n: nat): nat
    requires n <= |fat|
  {
    if n == 0 then 0 else FreeCount(fat, n - 1) + if fat[n - 1] == FREE then 1 else 0
  }

  /** The blocks an entry owes its chain. */
  function Charge(e: Entry): nat {
    if IsFile(e) then Need(e.size) else 0
  }

  /** Blocks owed to the first k entries. */
  ghost function Charged(t: seq<Entry>, k: nat): nat
    requires k <= |t|
  {
    if k == 0 then 0 else Charged(t, k - 1) + Charge(t[k - 1])
  }

  /** The blocks that files have or could get. */
  ghost function Usable(v: Vol): nat
    requires |v.data| <= |v.fat|
  {
    FreeCount(v.fat, |v.data|) + Charged(v.table, |v.table|)
  }

  ghost function LiveCount(t: seq<Entry>, k: nat): nat
    requires k <= |t|
  {
    if k == 0 then 0 else LiveCount(t, k - 1) + if IsLive(t[k - 1]) then 1 else 0
  }

  // ---- Blocks as sets ----

  ghost function FreeSet(fat: seq<nat>, n: nat): set<nat>
    requires n <= |fat|
  {
    set b: nat | 0 <= b < n && fat[b] == FREE
  }

  ghost function BlockSet(c: seq<nat>): set<nat> {
    set b | b in c
  }

  ghost function OwnedSet(v: Vol, k: nat): set<nat>
    requires |v.data| <= |v.fat| && k <= |v.table|
  {
    if k == 0 then {}
    else OwnedSet(v, k - 1) + if IsFile(v.table[k - 1]) then BlockSet(Blocks(v, k - 1)) else {}
  }

  lemma {:induction false} OwnedSetMember(v: Vol, k: nat, b: nat)
    requires |v.data| <= |v.fat| && k <= |v.table|
    ensures b in OwnedSet(v, k) <==> exists i :: 0 <= i < k && IsFile(v.table[i]) && b in Blocks(v, i)
  {
    hide Blocks;
    if k > 0 {
      OwnedSetMember(v, k - 1, b);
    }
  }

  lemma {:induction false} FreeSetSize(fat: seq<nat>, n: nat)
    requires n <= |fat|
    ensures |FreeSet(fat, n)| == FreeCount(fat, n)
  {
    if n > 0 {
      FreeSetSize(fat, n - 1);
      assert FreeSet(fat, n) == FreeSet(fat, n - 1) + if fat[n - 1] == FREE then {n - 1} else {};
    }
  }

  lemma {:induction false} AscendingSetSize(c: seq<nat>)
    requires Ascends(c)
    ensures |BlockSet(c)| == |c|
  {
    if c != [] {
      var front, last := c[..|c| - 1], c[|c| - 1];
      assert forall k | 0 <= k < |front| :: front[k] == c[k] < last;
      AscendingSetSize(front);
      assert c == front + [last];
      assert BlockSet(c) == BlockSet(front) + {last};
    }
  }

  lemma NoCharge(e: Entry)
    requires !IsFile(e)
    ensures Charge(e) == 0
  {
  }

  lemma {:induction false} OwnedSetSize(v: Vol, k: nat)
    requires FilesOk(v) && k <= |v.table|
    ensures |OwnedSet(v, k)| == Charged(v.table, k)
  {
    hide Need, Blocks, FilesOk, BlockSet, Charge;
    if k > 0 {
      OwnedSetSize(v, k - 1);
      var i := k - 1;
      if IsFile(v.table[i]) {
        FileSetSize(v, i);
        OwnedApart(v, i);
        ApartSize(OwnedSet(v, i), BlockSet(Blocks(v, i)));
      } else {
        NoCharge(v.table[i]);
      }
    }
  }

  lemma ApartSize(s: set<nat>, t: set<nat>)
    requires s !! t
    ensures |s + t| == |s| + |t|
  {
  }

  lemma OwnedApart(v: Vol, i: nat)
    requires FilesOk(v) && i < |v.table| && IsFile(v.table[i])
    ensures OwnedSet(v, i) !! BlockSet(Blocks(v, i))
  {
    hide Blocks, OwnedSet, Owns;
    forall b | b in OwnedSet(v, i)
      ensures b !in BlockSet(Blocks(v, i))
    {
      OwnedSetMember(v, i, b);
      var j :| 0 <= j < i && IsFile(v.table[j]) && b in Blocks(v, j);
      assert !Share(v, j, i);
    }
  }

  lemma FileSetSize(v: Vol, i: nat)
    requires FilesOk(v) && i < |v.table| && IsFile(v.table[i])
    ensures |BlockSet(Blocks(v, i))| == Charge(v.table[i])
  {
    hide Need, Blocks;
    assert Owns(v, i);
    ChainShape(v.fat, |v.data|, Blocks(v, i));
    AscendingSetSize(Blocks(v, i));
  }

  ghost function Below(n: nat): (r: set<nat>)
    ensures |r| == n && forall b: nat :: b in r <==> b < n
  {
    if n == 0 then {} else Below(n - 1) + {n - 1}
  }

  lemma SmallerSet(s: set<nat>, t: set<nat>)
    requires s <= t
    ensures |s| <= |t| && (|s| == |t| <==> s == t)
  {
    var rest := t - s;
    assert t == s + rest;
    assert |t| == |s| + |rest|;
  }

  lemma OwnedSetIs(v: Vol, b: nat)
    requires FilesOk(v)
    ensures b in OwnedSet(v, |v.table|) <==> Owned(v, b)
    ensures Owned(v, b) ==> b < |v.data| && v.fat[b] != FREE
  {
    hide Blocks, FilesOk;
    OwnedSetMember(v, |v.table|, b);
    if Owned(v, b) {
      var i :| 0 <= i < |v.table| && IsFile(v.table[i]) && b in Blocks(v, i);
      OwnedInUse(v, i, b);
    }
  }

  /** Free blocks and the blocks the files need add up to the data area, exactly when no block in use lacks an owner. */
  lemma BlocksConserved(v: Vol)
    requires Sane(v)
    ensures |v.data| <= |v.fat| && Usable(v) <= |v.data|
    ensures Usable(v) == |v.data| <==> NoLeak(v)
  {
    hide TableOk, Acyclic, FilesOk, OwnedSet, Owned, FreeCount, Charged;
    var n := |v.data|;
    var free, owned := FreeSet(v.fat, n), OwnedSet(v, |v.table|);
    FreeSetSize(v.fat, n);
    OwnedSetSize(v, |v.table|);
    forall b: nat
      ensures b in owned <==> Owned(v, b)
      ensures b in owned ==> b < n && b !in free
    {
      OwnedSetIs(v, b);
    }
    assert free !! owned;
    SmallerSet(free + owned, Below(n));
    if free + owned == Below(n) {
      forall b | 0 <= b < n && v.fat[b] != FREE
        ensures Owned(v, b)
      {
        assert b in Below(n);
      }
    } else {
      var b: nat :| b in Below(n) && b !in free + owned;
      assert v.fat[b] != FREE && !Owned(v, b);
    }
  }

  // ---- What the operations do to the sums ----

  lemma {:induction false} ChargedUpdate(t: seq<Entry>, i: nat, e: Entry, k: nat)
    requires i < |t| && k <= |t|
    ensures Charged(t[i := e], k) == if i < k then Charged(t, k) - Charge(t[i]) + Charge(e) else Charged(t, k)
  {
    hide Charge;
    if k > 0 {
      ChargedUpdate(t, i, e, k - 1);
    }
  }

  /** Freeing the blocks of c, all in use, frees that many. */
  lemma FreedCount(fat: seq<nat>, n: nat, c: seq<nat>)
    requires n <= |fat| && Ascends(c) && forall b | b in c :: b < n && fat[b] != FREE
    ensures FreeCount(FreeAll(fat, c), n) == FreeCount(fat, n) + |c|
  {
    var w := FreeAll(fat, c);
    FreeSetSize(fat, n);
    FreeSetSize(w, n);
    AscendingSetSize(c);
    assert FreeSet(w, n) == FreeSet(fat, n) + BlockSet(c);
  }

  /** Taking the blocks of c, all free, takes that many. */
  lemma TakenCount(fat: seq<nat>, w: seq<nat>, n: nat, c: seq<nat>)
    requires n <= |fat| && n <= |w| && Ascends(c) && forall b | b in c :: b < n && fat[b] == FREE && w[b] != FREE
    requires forall b | 0 <= b < n && b !in c :: w[b] == fat[b]
    ensures FreeCount(w, n) + |c| == FreeCount(fat, n)
  {
    FreeSetSize(fat, n);
    FreeSetSize(w, n);
    AscendingSetSize(c);
    assert FreeSet(fat, n) == FreeSet(w, n) + BlockSet(c);
  }

  lemma DeletedUsable(v: Vol, f: nat)
    requires Sane(v) && f < |v.table| && IsFile(v.table[f])
    ensures Usable(Deleted(v, f)) == Usable(v)
  {
    hide Need, Chain, TableOk, Acyclic, Blocks;
    assert Owns(v, f);
    ChainShape(v.fat, |v.data|, Blocks(v, f));
    FreedCount(v.fat, |v.data|, Blocks(v, f));
    ChargedUpdate(v.table, f, v.table[f].(status := 0), |v.table|);
  }

  lemma CreatedUsable(v: Vol, slot: nat, dir: nat, name: seq<byte>, bytes: seq<byte>)
    requires |v.data| <= |v.fat| && slot < |v.table| && v.table[slot].status == 0
    requires |name| <= 29 && HasRoom(v, |bytes|)
    ensures Usable(Created(v, slot, dir, name, bytes)) == Usable(v)
  {
    hide Need, Chunk, Fill, FreeFrom, FreeCount, Charged;
    var w, c := Created(v, slot, dir, name, bytes), FreshBlocks(v, |bytes|);
    FilledTaken(v, c, bytes);
    TakenCount(v.fat, w.fat, |v.data|, c);
    ChargedUpdate(v.table, slot, w.table[slot], |v.table|);
  }

  lemma FilledTaken(v: Vol, c: seq<nat>, bytes: seq<byte>)
    requires |v.data| <= |v.fat| && Ascends(c) && InRange(c, |v.data|)
    ensures var w := Fill(v, c, bytes, |c|);
            && (forall b | b in c :: b < |v.data| && w.fat[b] != FREE)
            && forall b | 0 <= b < |v.data| && b !in c :: w.fat[b] == v.fat[b]
  {
    hide Chunk, Fill;
    var w := Fill(v, c, bytes, |c|);
    FillEffect(v, c, bytes, |c|);
    assert c[..|c|] == c;
    forall b | b in c
      ensures b < |v.data| && w.fat[b] != FREE
    {
      var k :| 0 <= k < |c| && c[k] == b;
      assert w.fat[b] == NextOf(c, k);
    }
  }

  lemma MadeDirUsable(v: Vol, slot: nat, dir: nat, name: seq<byte>)
    requires |v.data| <= |v.fat| && slot < |v.table| && v.table[slot].status == 0
    requires |name| <= 29 && |v.table[slot].name| == NAME
    ensures Usable(MadeDir(v, slot, dir, name)) == Usable(v)
  {
    ChargedUpdate(v.table, slot, DirEntry(v.table[slot], name, dir), |v.table|);
  }

  // ---- The invariant after each operation ----

  /** No leak begins while sanity and the sum are kept. */
  lemma StillNoLeak(v: Vol, w: Vol)
    requires Inv(v) && Sane(w) && |w.data| == |v.data| && Usable(w) == Usable(v)
    ensures Inv(w)
  {
    BlocksConserved(v);
    BlocksConserved(w);
  }

  lemma DeletedInv(v: Vol, f: nat)
    requires Inv(v) && f < |v.table| && IsFile(v.table[f])
    ensures Inv(Deleted(v, f))
  {
    DeletedSane(v, f);
    DeletedUsable(v, f);
    StillNoLeak(v, Deleted(v, f));
  }

  lemma CreatedInv(v: Vol, slot: nat, dir: nat, name: seq<byte>, bytes: seq<byte>)
    requires Inv(v) && slot < |v.table| && v.table[slot].status == 0 && HasRoom(v, |bytes|)
    requires GoodName(name) && dir < |v.table| && IsDir(v.table[dir]) && Find(v.table, dir, name, 0) == |v.table|
    ensures Inv(Created(v, slot, dir, name, bytes))
  {
    CreatedSane(v, slot, dir, name, bytes);
    CreatedUsable(v, slot, dir, name, bytes);
    StillNoLeak(v, Created(v, slot, dir, name, bytes));
  }

  lemma MadeDirInv(v: Vol, slot: nat, dir: nat, name: seq<byte>)
    requires Inv(v) && slot < |v.table| && v.table[slot].status == 0
    requires GoodName(name) && dir < |v.table| && IsDir(v.table[dir]) && Find(v.table, dir, name, 0) == |v.table|
    ensures |v.table[slot].name| == NAME
    ensures Inv(MadeDir(v, slot, dir, name))
  {
    MadeDirSane(v, slot, dir, name);
    MadeDirUsable(v, slot, dir, name);
    StillNoLeak(v, MadeDir(v, slot, dir, name));
  }

  // ---- Room ----

  /** A file fits exactly when the free blocks suffice. */
  lemma RoomIsCount(v: Vol, size: nat)
    requires |v.data| <= |v.fat|
    ensures HasRoom(v, size) <==> Need(size) <= FreeCount(v.fat, |v.data|)
  {
    hide Need, FreeFrom;
    var n, c := |v.data|, FreshBlocks(v, size);
    FreeSetSize(v.fat, n);
    AscendingSetSize(c);
    SmallerSet(BlockSet(c), FreeSet(v.fat, n));
    if |c| < Need(size) {
      assert FreeSet(v.fat, n) == BlockSet(c);
    }
  }

  lemma {:induction false} LiveCountFull(t: seq<Entry>, k: nat)
    requires k <= |t|
    ensures LiveCount(t, k) <= k && (LiveCount(t, k) == k <==> forall i | 0 <= i < k :: IsLive(t[i]))
  {
    if k > 0 {
      LiveCountFull(t, k - 1);
    }
  }

  /** A slot is free exactly when fewer entries are live than there are slots. */
  lemma SlotIsCount(t: seq<Entry>)
    requires TableOk(t)
    ensures FreeSlot(t, 0) < |t| <==> LiveCount(t, |t|) < |t|
  {
    LiveCountFull(t, |t|);
    var s := FreeSlot(t, 0);
    if s == |t| {
      forall i | 0 <= i < |t|
        ensures IsLive(t[i])
      {
        assert EntryOk(t, i);
      }
    }
  }
}
