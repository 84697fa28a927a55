/** What the operations mean for a reader: lookups, crash states, block accounting. */
module VolumeLaws {
  import opened Bytes
  import opened Text
  import opened Layout
  import opened Volume
  import opened VolumeOps
  import opened Accounting

  // ---- Contents ----

  /** What a file written with these bytes reads back as. */
  function Stored(bytes: seq<byte>): seq<byte> {
    if |bytes| <= SECTOR * Need(|bytes|) then bytes else bytes[..SECTOR * Need(|bytes|)]
  }

  /** count is max(1, ceil(size / 512)). */
  predicate BlocksFor(size: nat, count: nat) {
    (size == 0 ==> count == 1) && (size > 0 ==> 512 * count - 512 < size <= 512 * count)
  }

  /** The code's block count is that, up to 2^32 - 512 bytes; above, the sum wraps and the count is 1. */
  lemma NeedIs(size: nat, count: nat)
    requires size < U32
    ensures size <= U32 - 512 ==> (count == Need(size) <==> BlocksFor(size, count))
    ensures size > U32 - 512 ==> Need(size) == 1
  {
  }

  /** A 32-bit size reads back in full exactly up to 2^32 - 512: above it the block count wraps to one block, and the
      first 512 bytes are what reads back. */
  lemma StoredInFull(bytes: seq<byte>)
    requires |bytes| < U32
    ensures Stored(bytes) == bytes <==> |bytes| <= U32 - 512
    ensures |bytes| > U32 - 512 ==> Stored(bytes) == bytes[..512]
  {
  }

  /** A file of a sane volume has exactly the blocks its size asks for. */
  lemma FileBlocks(v: Vol, i: nat)
    requires Sane(v) && i < |v.table| && IsFile(v.table[i]) && v.table[i].size <= U32 - 512
    ensures BlocksFor(v.table[i].size, |Blocks(v, i)|)
  {
    hide TableOk, Acyclic, Chain, Need;
    assert Owns(v, i);
    NeedIs(v.table[i].size, |Blocks(v, i)|);
  }

  /** So has a file just created; behind its bytes the last block is zero. */
  lemma CreatedBlocks(v: Vol, slot: nat, dir: nat, name: seq<byte>, bytes: seq<byte>)
    requires |v.data| <= |v.fat| && |v.data| <= EOF && slot < |v.table| && |name| <= 29 && HasRoom(v, |bytes|)
    requires |bytes| <= U32 - 512
    ensures var w := Created(v, slot, dir, name, bytes);
            var c := Blocks(w, slot);
            && BlocksFor(|bytes|, |c|)
            && forall x | |bytes| <= x < 512 * |c| :: c[x / 512] < |w.data| && w.data[c[x / 512]][x % 512] == 0
  {
    hide Need, Chain, FreeFrom, Fill, NextOf, Chunk;
    var w, c := Created(v, slot, dir, name, bytes), FreshBlocks(v, |bytes|);
    CreatedOwns(v, slot, dir, name, bytes);
    FillEffect(v, c, bytes, |c|);
    NeedIs(|bytes|, |c|);
    forall x | |bytes| <= x < 512 * |c|
      ensures c[x / 512] < |w.data| && w.data[c[x / 512]][x % 512] == 0
    {
      ChunkZero(bytes, x);
      assert w.data[c[x / 512]] == Chunk(bytes, x / 512);
    }
  }

  lemma ChunkZero(bytes: seq<byte>, x: nat)
    requires |bytes| <= x
    ensures Chunk(bytes, x / 512)[x % 512] == 0
  {
    assert 512 * (x / 512) + x % 512 == x;
  }

  lemma CreatedContent(v: Vol, slot: nat, dir: nat, name: seq<byte>, bytes: seq<byte>)
    requires |v.data| <= |v.fat| && |v.data| <= EOF && slot < |v.table| && |name| <= 29 && HasRoom(v, |bytes|)
    ensures Content(Created(v, slot, dir, name, bytes), slot) == Stored(bytes)
  {
    hide Need, Chain, FreeFrom, Chunk, Fill, NextOf;
    var w, c := Created(v, slot, dir, name, bytes), FreshBlocks(v, |bytes|);
    CreatedOwns(v, slot, dir, name, bytes);
    FillEffect(v, c, bytes, |c|);
    var s := Content(w, slot);
    assert |s| == |Stored(bytes)|;
    forall x | 0 <= x < |s|
      ensures s[x] == Stored(bytes)[x]
    {
      ChunkByte(bytes, x);
      assert w.data[c[x / SECTOR]] == Chunk(bytes, x / SECTOR);
    }
  }

  lemma ChunkByte(bytes: seq<byte>, x: nat)
    requires x < |bytes|
    ensures Chunk(bytes, x / SECTOR)[x % SECTOR] == bytes[x]
  {
    assert SECTOR * (x / SECTOR) + x % SECTOR == x;
  }

  /** A file whose blocks and their bytes are untouched reads as before. */
  lemma ContentKept(v: Vol, w: Vol, i: nat)
    requires |v.data| <= |v.fat| && |w.data| <= |w.fat| && |w.data| == |v.data|
    requires i < |v.table| && i < |w.table| && w.table[i].size == v.table[i].size
    requires Blocks(w, i) == Blocks(v, i)
    requires forall b | b in Blocks(v, i) && b < |v.data| :: w.data[b] == v.data[b]
    ensures Content(w, i) == Content(v, i)
  {
    hide Chain;
    BlocksInRange(v, i);
    var s, t := Content(v, i), Content(w, i);
    var c := Blocks(v, i);
    assert |s| == |t|;
    forall x | 0 <= x < |s|
      ensures s[x] == t[x]
    {
      assert c[x / SECTOR] in c;
    }
  }

  // ---- Lookups after each operation ----

  lemma FindNone(t: seq<Entry>, dir: nat, name: seq<byte>)
    requires forall k | 0 <= k < |t| :: !Matches(t[k], dir, name)
    ensures Find(t, dir, name, 0) == |t|
  {
  }

  /** A table that differs in one slot finds the same entries under every key that slot holds in neither. */
  lemma FindElsewhere(t: seq<Entry>, t': seq<Entry>, slot: nat, dir: nat, name: seq<byte>)
    requires |t'| == |t| && forall i | 0 <= i < |t| && i != slot :: t'[i] == t[i]
    requires slot < |t| ==> !Matches(t[slot], dir, name) && !Matches(t'[slot], dir, name)
    ensures Find(t', dir, name, 0) == Find(t, dir, name, 0)
  {
    assert forall k | 0 <= k < |t| :: Matches(t'[k], dir, name) <==> Matches(t[k], dir, name);
    var r, r' := Find(t, dir, name, 0), Find(t', dir, name, 0);
    assert r <= r' && r' <= r;
  }

  /** The new name reads back as what was stored; every other name is as before. */
  lemma CreatedLookup(v: Vol, slot: nat, dir: nat, name: seq<byte>, bytes: seq<byte>, d: nat, n: seq<byte>)
    requires Sane(v) && slot < |v.table| && v.table[slot].status == 0 && HasRoom(v, |bytes|)
    requires GoodName(name) && dir < |v.table| && IsDir(v.table[dir]) && Find(v.table, dir, name, 0) == |v.table|
    ensures Sane(Created(v, slot, dir, name, bytes))
    ensures Lookup(Created(v, slot, dir, name, bytes), d, n)
            == if d == dir && n == name then Some(FileNode(Stored(bytes))) else Lookup(v, d, n)
  {
    hide Sane, Blocks, Content, HasRoom, Stored, Created, FileEntry, NameOf;
    var w := Created(v, slot, dir, name, bytes);
    CreatedSane(v, slot, dir, name, bytes);
    CreatedTable(v, slot, dir, name, bytes);
    CreatedEntry(v, slot, dir, name, bytes);
    if d == dir && n == name {
      FindUnique(w.table, d, n, slot);
      CreatedContent(v, slot, dir, name, bytes);
    } else {
      FindElsewhere(v.table, w.table, slot, d, n);
      var i := Find(v.table, d, n, 0);
      if i < |v.table| {
        TwoKinds(v.table, i);
        if IsFile(v.table[i]) {
          CreatedKeeps(v, slot, dir, name, bytes, i);
          ContentKept(v, w, i);
        }
      }
    }
  }

  lemma CreatedEntry(v: Vol, slot: nat, dir: nat, name: seq<byte>, bytes: seq<byte>)
    requires |v.data| <= |v.fat| && slot < |v.table| && GoodName(name) && HasRoom(v, |bytes|)
    ensures var e := Created(v, slot, dir, name, bytes).table[slot];
            && IsFile(e) && e.parent == dir && NameOf(e) == name
            && e.size == |bytes| && e.reserved == v.table[slot].reserved
            && forall k | |name| <= k < 30 :: k < |e.name| && e.name[k] == 0
  {
    PaddedName(name);
  }

  /** mkdir's entry has no size and no blocks, and keeps what strcpy and the field stores pass over. */
  lemma MadeDirEntry(v: Vol, slot: nat, dir: nat, name: seq<byte>)
    requires slot < |v.table| && GoodName(name) && |v.table[slot].name| == NAME
    ensures var was, e := v.table[slot], MadeDir(v, slot, dir, name).table[slot];
            && IsDir(e) && e.parent == dir && NameOf(e) == name && e.size == 0 && e.start == 0
            && e.reserved == was.reserved && forall k | |name| < k < 30 :: k < |e.name| && e.name[k] == was.name[k]
  {
    DirName(v.table[slot], name, dir);
  }

  lemma TwoKinds(t: seq<Entry>, i: nat)
    requires TableOk(t) && i < |t| && IsLive(t[i])
    ensures IsFile(t[i]) || IsDir(t[i])
  {
    assert EntryOk(t, i);
  }

  /** The deleted name is gone; every other name is as before. */
  lemma DeletedLookup(v: Vol, f: nat, d: nat, n: seq<byte>)
    requires Sane(v) && f < |v.table| && IsFile(v.table[f])
    ensures Sane(Deleted(v, f))
    ensures Lookup(Deleted(v, f), d, n)
            == if d == v.table[f].parent && n == NameOf(v.table[f]) then None else Lookup(v, d, n)
  {
    hide TableOk, Acyclic, Blocks, Content, NameOf;
    var w := Deleted(v, f);
    DeletedSane(v, f);
    if d == v.table[f].parent && n == NameOf(v.table[f]) {
      NoTwin(v.table, w.table, f);
      FindNone(w.table, d, n);
    } else {
      FindElsewhere(v.table, w.table, f, d, n);
      var i := Find(v.table, d, n, 0);
      if i < |v.table| {
        TwoKinds(v.table, i);
        if IsFile(v.table[i]) {
          DeletedKeeps(v, f, i);
          ContentKept(v, w, i);
        }
      }
    }
  }

  lemma NoTwin(t: seq<Entry>, t': seq<Entry>, f: nat)
    requires TableOk(t) && f < |t| && IsLive(t[f]) && t' == ClearStatus(t, f)
    ensures forall k | 0 <= k < |t'| :: !Matches(t'[k], t[f].parent, NameOf(t[f]))
  {
    forall k | 0 <= k < |t'| && k != f
      ensures !Matches(t'[k], t[f].parent, NameOf(t[f]))
    {
      assert !SameKey(t[k], t[f]);
    }
  }

  lemma MadeDirLookup(v: Vol, slot: nat, dir: nat, name: seq<byte>, d: nat, n: seq<byte>)
    requires Sane(v) && slot < |v.table| && v.table[slot].status == 0
    requires GoodName(name) && dir < |v.table| && IsDir(v.table[dir]) && Find(v.table, dir, name, 0) == |v.table|
    ensures |v.table[slot].name| == NAME && Sane(MadeDir(v, slot, dir, name))
    ensures Lookup(MadeDir(v, slot, dir, name), d, n)
            == if d == dir && n == name then Some(DirNode(slot)) else Lookup(v, d, n)
  {
    hide TableOk, Acyclic, Content;
    MadeDirSane(v, slot, dir, name);
    var w := MadeDir(v, slot, dir, name);
    DirName(v.table[slot], name, dir);
    if d == dir && n == name {
      FindUnique(w.table, d, n, slot);
    } else {
      FindElsewhere(v.table, w.table, slot, d, n);
      var i := Find(v.table, d, n, 0);
      if i < |v.table| {
        ContentKept(v, w, i);
      }
    }
  }

  // ---- write_file and delete_file ----

  /** The volume a call leaves and the code it returns. */
  datatype Answer = Answer(vol: Vol, code: int)

  /** write_file on a slash-free name; granted tells whether kmalloc found room for the block list. */
  function WriteFile(v: Vol, cwd: nat, name: seq<byte>, bytes: seq<byte>, granted: bool): Answer
    requires |v.data| <= |v.fat| && |name| <= 29
  {
    var f, s := Find(v.table, cwd, name, 0), FreeSlot(v.table, 0);
    if f < |v.table| then
      var u := v.(fat := FreeAll(v.fat, Blocks(v, f)));
      if granted && HasRoom(u, |bytes|) then Answer(Created(u, f, cwd, name, bytes), 0) else Answer(u, -1)
    else if s < |v.table| && granted && HasRoom(v, |bytes|) then Answer(Created(v, s, cwd, name, bytes), 0)
    else Answer(v, -1)
  }

  function MkDir(v: Vol, cwd: nat, name: seq<byte>): Answer
    requires |name| <= 29 && forall i | 0 <= i < |v.table| :: |v.table[i].name| == NAME
  {
    var f, s := Find(v.table, cwd, name, 0), FreeSlot(v.table, 0);
    if f == |v.table| && s < |v.table| then Answer(MadeDir(v, s, cwd, name), 0) else Answer(v, -1)
  }

  /** What file writes and deletes ask of their target: a directory's start block 0 heads no chain. */
  ghost predicate NoDirThere(v: Vol, cwd: nat, name: seq<byte>) {
    var f := Find(v.table, cwd, name, 0);
    f < |v.table| ==> !IsDir(v.table[f])
  }

  ghost predicate ValidCwd(v: Vol, cwd: nat) {
    cwd < |v.table| && IsDir(v.table[cwd])
  }

  /** Overwriting is deleting, then creating in the same slot. */
  lemma OverwriteIs(v: Vol, f: nat, cwd: nat, name: seq<byte>, bytes: seq<byte>)
    requires |v.data| <= |v.fat| && f < |v.table| && |name| <= 29
    ensures var u := v.(fat := FreeAll(v.fat, Blocks(v, f)));
            && FreshBlocks(u, |bytes|) == FreshBlocks(Deleted(v, f), |bytes|)
            && (HasRoom(u, |bytes|) <==> HasRoom(Deleted(v, f), |bytes|))
            && (HasRoom(u, |bytes|) ==>
                  Created(u, f, cwd, name, bytes) == Created(Deleted(v, f), f, cwd, name, bytes))
  {
    var u, w := v.(fat := FreeAll(v.fat, Blocks(v, f))), Deleted(v, f);
    if HasRoom(u, |bytes|) {
      var c := FreshBlocks(u, |bytes|);
      FillTable(u, w, c, bytes, |c|);
      assert v.table[f := FileEntry(v.table[f], name, |bytes|, c[0], cwd)]
          == w.table[f := FileEntry(w.table[f], name, |bytes|, c[0], cwd)];
    }
  }

  lemma {:induction false} FillTable(u: Vol, w: Vol, c: seq<nat>, bytes: seq<byte>, k: nat)
    requires u.fat == w.fat && u.data == w.data && k <= |c| && InRange(c, |u.data|) && |u.data| <= |u.fat|
    ensures Fill(u, c, bytes, k).fat == Fill(w, c, bytes, k).fat
    ensures Fill(u, c, bytes, k).data == Fill(w, c, bytes, k).data
  {
    hide Chunk, NextOf;
    if k > 0 {
      FillTable(u, w, c, bytes, k - 1);
    }
  }

  /** A call that returns 0 stores the bytes under the name and changes no other name. */
  lemma WriteMeaning(v: Vol, cwd: nat, name: seq<byte>, bytes: seq<byte>, granted: bool, d: nat, n: seq<byte>)
    requires Sane(v) && ValidCwd(v, cwd) && GoodName(name) && NoDirThere(v, cwd, name)
    requires WriteFile(v, cwd, name, bytes, granted).code == 0
    ensures var w := WriteFile(v, cwd, name, bytes, granted).vol;
            && Sane(w) && ValidCwd(w, cwd)
            && Lookup(w, d, n) == if d == cwd && n == name then Some(FileNode(Stored(bytes))) else Lookup(v, d, n)
  {
    hide TableOk, Acyclic, FilesOk, Blocks, FreeAll, Created, Stored, HasRoom, Lookup, FreshBlocks;
    var f := Find(v.table, cwd, name, 0);
    if f < |v.table| {
      TwoKinds(v.table, f);
      OverwriteIs(v, f, cwd, name, bytes);
      DeletedLookup(v, f, cwd, name);
      DeletedLookup(v, f, d, n);
      NoTwin(v.table, Deleted(v, f).table, f);
      FindNone(Deleted(v, f).table, cwd, name);
      CreatedLookup(Deleted(v, f), f, cwd, name, bytes, d, n);
      CreatedTable(Deleted(v, f), f, cwd, name, bytes);
    } else {
      var s := FreeSlot(v.table, 0);
      CreatedLookup(v, s, cwd, name, bytes, d, n);
      CreatedTable(v, s, cwd, name, bytes);
    }
  }

  lemma CreatedTable(v: Vol, slot: nat, dir: nat, name: seq<byte>, bytes: seq<byte>)
    requires |v.data| <= |v.fat| && slot < |v.table| && |name| <= 29 && HasRoom(v, |bytes|)
    ensures var w := Created(v, slot, dir, name, bytes);
            && |w.table| == |v.table| && |w.data| == |v.data|
            && forall i | 0 <= i < |v.table| && i != slot :: w.table[i] == v.table[i]
  {
  }

  /** A call that returns 0 leaves as many blocks to files as there were. */
  lemma WriteUsable(v: Vol, cwd: nat, name: seq<byte>, bytes: seq<byte>, granted: bool)
    requires Sane(v) && |name| <= 29 && NoDirThere(v, cwd, name)
    requires WriteFile(v, cwd, name, bytes, granted).code == 0
    ensures |v.data| <= |v.fat|
    ensures var w := WriteFile(v, cwd, name, bytes, granted).vol;
            |w.data| == |v.data| <= |w.fat| && |w.table| == |v.table| && Usable(w) == Usable(v)
  {
    hide TableOk, Acyclic, Usable, HasRoom, Created, Deleted, FreshBlocks;
    var f, s := Find(v.table, cwd, name, 0), FreeSlot(v.table, 0);
    CreatedSizes(v, s, cwd, name, bytes);
    if f < |v.table| {
      TwoKinds(v.table, f);
      OverwriteIs(v, f, cwd, name, bytes);
      DeletedUsable(v, f);
      DeletedSizes(v, f);
      CreatedSizes(Deleted(v, f), f, cwd, name, bytes);
      CreatedUsable(Deleted(v, f), f, cwd, name, bytes);
    } else {
      CreatedUsable(v, s, cwd, name, bytes);
    }
  }

  /** The reply of write_file, in numbers: up to 2^32 - 512 bytes go in exactly when memory was granted, a slot is free
      for a new name, and a block at least is free and the free blocks, with those of the file overwritten, hold them. */
  lemma WriteReply(v: Vol, cwd: nat, name: seq<byte>, bytes: seq<byte>, granted: bool)
    requires Sane(v) && ValidCwd(v, cwd) && GoodName(name) && NoDirThere(v, cwd, name) && |bytes| <= U32 - 512
    ensures var f := Find(v.table, cwd, name, 0);
            var room := FreeCount(v.fat, |v.data|) + if f < |v.table| then |Blocks(v, f)| else 0;
            WriteFile(v, cwd, name, bytes, granted).code
            == if granted && (f < |v.table| || FreeSlot(v.table, 0) < |v.table|) && 1 <= room && |bytes| <= 512 * room
               then 0 else -1
  {
    hide TableOk, Acyclic, HasRoom, Created, FreeCount, Need, Chain;
    var f := Find(v.table, cwd, name, 0);
    NeedIs(|bytes|, Need(|bytes|));
    if f < |v.table| {
      TwoKinds(v.table, f);
      assert Owns(v, f);
      ChainShape(v.fat, |v.data|, Blocks(v, f));
      FreedCount(v.fat, |v.data|, Blocks(v, f));
      RoomIsCount(v.(fat := FreeAll(v.fat, Blocks(v, f))), |bytes|);
    } else {
      RoomIsCount(v, |bytes|);
    }
  }

  /** A call that fails changes nothing, but that an overwrite has freed the old blocks by then. */
  lemma FailedWrite(v: Vol, cwd: nat, name: seq<byte>, bytes: seq<byte>, granted: bool)
    requires |v.data| <= |v.fat| && |name| <= 29 && WriteFile(v, cwd, name, bytes, granted).code != 0
    ensures var w, f := WriteFile(v, cwd, name, bytes, granted).vol, Find(v.table, cwd, name, 0);
            && w.table == v.table && w.data == v.data && |w.fat| == |v.fat|
            && forall b | 0 <= b < |v.fat| :: w.fat[b] == if f < |v.table| && b in Blocks(v, f) then 0 else v.fat[b]
  {
    hide Blocks;
  }

  lemma DeletedSizes(v: Vol, f: nat)
    requires |v.data| <= |v.fat| && f < |v.table|
    ensures var w := Deleted(v, f);
            && |w.data| == |v.data| && |w.fat| == |v.fat| && |w.table| == |v.table| && w.table[f].status == 0
  {
  }

  lemma CreatedSizes(v: Vol, slot: nat, dir: nat, name: seq<byte>, bytes: seq<byte>)
    requires |v.data| <= |v.fat|
    ensures slot < |v.table| && |name| <= 29 && HasRoom(v, |bytes|) ==>
              var w := Created(v, slot, dir, name, bytes);
              |w.data| == |v.data| && |w.fat| == |v.fat| && |w.table| == |v.table|
  {
  }

  /** The invariant survives exactly when the call succeeds or creates: a failed overwrite leaves a file without
      its blocks. */
  lemma WriteKeepsInv(v: Vol, cwd: nat, name: seq<byte>, bytes: seq<byte>, granted: bool)
    requires Sane(v) && ValidCwd(v, cwd) && GoodName(name) && NoDirThere(v, cwd, name)
    ensures var out, f := WriteFile(v, cwd, name, bytes, granted), Find(v.table, cwd, name, 0);
            var fits := f == |v.table| || (granted && HasRoom(Deleted(v, f), |bytes|));
            && (Sane(out.vol) <==> fits)
            && (Inv(v) ==> (Inv(out.vol) <==> fits))
  {
    hide TableOk, Acyclic, Lookup, HasRoom, Created, Stored, NoLeak, Usable;
    var out, f := WriteFile(v, cwd, name, bytes, granted), Find(v.table, cwd, name, 0);
    if out.code == 0 {
      WriteMeaning(v, cwd, name, bytes, granted, cwd, name);
      WriteUsable(v, cwd, name, bytes, granted);
      if Inv(v) {
        StillNoLeak(v, out.vol);
      }
    }
    if f < |v.table| {
      OverwriteIs(v, f, cwd, name, bytes);
      if !(granted && HasRoom(Deleted(v, f), |bytes|)) {
        TwoKinds(v.table, f);
        FreedFileBroken(v, f);
      }
    }
  }

  lemma FreedFileBroken(v: Vol, f: nat)
    requires FilesOk(v) && f < |v.table| && IsFile(v.table[f])
    ensures !FilesOk(v.(fat := FreeAll(v.fat, Blocks(v, f))))
  {
    var u := v.(fat := FreeAll(v.fat, Blocks(v, f)));
    assert Owns(v, f);
    var b := v.table[f].start;
    assert b in Blocks(v, f);
    assert u.fat[b] == FREE;
    assert !LinkOk(u.fat, |u.data|, Blocks(u, f), 0);
    assert !Owns(u, f);
  }

  lemma MkDirMeaning(v: Vol, cwd: nat, name: seq<byte>, d: nat, n: seq<byte>)
    requires Sane(v) && ValidCwd(v, cwd) && GoodName(name)
    ensures forall i | 0 <= i < |v.table| :: |v.table[i].name| == NAME
    ensures var out, s := MkDir(v, cwd, name), FreeSlot(v.table, 0);
            && Sane(out.vol) && ValidCwd(out.vol, cwd)
            && out.code == (if Lookup(v, cwd, name) == None && s < |v.table| then 0 else -1)
            && Lookup(out.vol, d, n)
               == if out.code == 0 && d == cwd && n == name then Some(DirNode(s)) else Lookup(v, d, n)
  {
    hide FilesOk, Blocks, Content, Acyclic;
    forall i | 0 <= i < |v.table|
      ensures |v.table[i].name| == NAME
    {
      assert EntryOk(v.table, i);
    }
    var out, s := MkDir(v, cwd, name), FreeSlot(v.table, 0);
    if out.code == 0 {
      MadeDirLookup(v, s, cwd, name, d, n);
    }
  }

  // ---- Why the target must be a file ----

  /** One round of free_block_chain's loop: free the block, go to what its map entry said. */
  function WalkRound(fat: seq<nat>, block: nat): (seq<nat>, nat) {
    if block < |fat| then (fat[block := FREE], fat[block]) else (fat, block)
  }

  function WalkRounds(fat: seq<nat>, block: nat, k: nat): (seq<nat>, nat)
    decreases k
  {
    if k == 0 then (fat, block) else
    var r := WalkRounds(fat, block, k - 1);
    WalkRound(r.0, r.1)
  }

  /** A directory's start block is 0. When block 0 is free, the walk from it never gets anywhere. */
  lemma {:induction false} WalkFromFreeBlockStays(fat: seq<nat>, k: nat)
    requires |fat| > 0 && fat[0] == FREE
    ensures WalkRounds(fat, 0, k) == (fat, 0)
  {
    if k > 0 {
      WalkFromFreeBlockStays(fat, k - 1);
      assert fat[0 := FREE] == fat;
    }
  }

  /** From the first block of a chain the walk frees it, one block a round, and ends at the marker. */
  lemma {:induction false} WalkFreesChain(fat: seq<nat>, n: nat, c: seq<nat>, k: nat)
    requires n <= |fat| && IsChain(fat, n, c) && k <= |c|
    ensures WalkRounds(fat, c[0], k) == (FreeAll(fat, c[..k]), if k < |c| then c[k] else EOF)
  {
    ChainShape(fat, n, c);
    if k > 0 {
      WalkFreesChain(fat, n, c, k - 1);
      assert LinkOk(fat, n, c, k - 1);
      assert c[..k] == c[..k - 1] + [c[k - 1]];
      assert c[k - 1] !in c[..k - 1];
      assert FreeAll(fat, c[..k]) == FreeAll(fat, c[..k - 1])[c[k - 1] := FREE];
    } else {
      assert FreeAll(fat, c[..0]) == fat;
    }
  }

  /** When block 0 is in use, the walk from a directory's start block takes the chain of the file that owns it. */
  lemma WalkRobsOwner(v: Vol, g: nat) returns (f: nat)
    requires Inv(v) && g < |v.table| && IsDir(v.table[g]) && 0 < |v.data| && v.fat[0] != FREE
    ensures f < |v.table| && f != g && IsFile(v.table[f]) && v.table[f].start == v.table[g].start == 0
    ensures Blocks(v, f) == Chain(v.fat, |v.data|, 0)
    ensures WalkRounds(v.fat, v.table[g].start, |Blocks(v, f)|) == (FreeAll(v.fat, Blocks(v, f)), EOF)
  {
    assert EntryOk(v.table, g);
    assert Owned(v, 0);
    f :| 0 <= f < |v.table| && IsFile(v.table[f]) && 0 in Blocks(v, f);
    assert Owns(v, f);
    var c := Blocks(v, f);
    ChainShape(v.fat, |v.data|, c);
    assert c[0] == 0;
    WalkFreesChain(v.fat, |v.data|, c, |c|);
    assert c[..|c|] == c;
  }

  /** So on a directory free_block_chain returns exactly when block 0 is in use. */
  lemma DirectoryWalkEnds(v: Vol, g: nat)
    requires Inv(v) && g < |v.table| && IsDir(v.table[g]) && 0 < |v.data|
    ensures v.table[g].start == 0
    ensures (exists k :: WalkRounds(v.fat, 0, k).1 == EOF) <==> v.fat[0] != FREE
  {
    assert EntryOk(v.table, g);
    if v.fat[0] == FREE {
      forall k: nat
        ensures WalkRounds(v.fat, 0, k).1 != EOF
      {
        WalkFromFreeBlockStays(v.fat, k);
      }
    } else {
      var f := WalkRobsOwner(v, g);
    }
  }

  /** delete_file on a directory while block 0 is in use: the call returns, and a file is left without its blocks. */
  lemma DeleteDirectoryBreaks(v: Vol, g: nat)
    requires Inv(v) && g < |v.table| && IsDir(v.table[g]) && 0 < |v.data| && v.fat[0] != FREE
    ensures exists f, k ::
              && 0 <= f < |v.table| && IsFile(v.table[f]) && WalkRounds(v.fat, v.table[g].start, k).1 == EOF
              && |v.data| <= |WalkRounds(v.fat, v.table[g].start, k).0|
              && !Owns(Vol(ClearStatus(v.table, g), WalkRounds(v.fat, v.table[g].start, k).0, v.data), f)
  {
    hide TableOk, Acyclic, NoLeak, Chain, IsChain, WalkRounds, Blocks;
    var f := WalkRobsOwner(v, g);
    var w := Vol(ClearStatus(v.table, g), FreeAll(v.fat, Blocks(v, f)), v.data);
    RobbedOwner(v, w, f);
    assert WalkRounds(v.fat, v.table[g].start, |Blocks(v, f)|).0 == w.fat;
  }

  lemma RobbedOwner(v: Vol, w: Vol, f: nat)
    requires FilesOk(v) && f < |v.table| && IsFile(v.table[f])
    requires |w.table| == |v.table| && w.table[f] == v.table[f] && |w.data| == |v.data|
    requires w.fat == FreeAll(v.fat, Blocks(v, f))
    ensures !Owns(w, f)
  {
    assert Owns(v, f);
    var b := v.table[f].start;
    assert b in Blocks(v, f) && w.fat[b] == FREE;
    assert Blocks(w, f)[0] == b;
    assert !LinkOk(w.fat, |w.data|, Blocks(w, f), 0);
  }

  /** write_file over a directory while block 0 is in use: when room is left, the new file takes the robbed file's
      first block for its own; when none is, the robbed file is left without its blocks. */
  lemma OverwriteDirectoryBreaks(v: Vol, g: nat, name: seq<byte>, bytes: seq<byte>)
    requires Inv(v) && g < |v.table| && IsDir(v.table[g]) && 0 < |v.data| && v.fat[0] != FREE
    requires |name| <= 29
    ensures exists k, f :: WalkRounds(v.fat, v.table[g].start, k).1 == EOF
              && var u := v.(fat := WalkRounds(v.fat, v.table[g].start, k).0);
                 && |v.data| <= |u.fat| && 0 <= f < |v.table| && f != g && IsFile(v.table[f]) && !Owns(u, f)
                 && (HasRoom(u, |bytes|) ==> Share(Created(u, g, v.table[g].parent, name, bytes), g, f))
  {
    hide TableOk, Acyclic, NoLeak, Chain, IsChain, WalkRounds, Blocks, Created, HasRoom;
    var f := WalkRobsOwner(v, g);
    var c := Blocks(v, f);
    var u := v.(fat := FreeAll(v.fat, c));
    RobbedOwner(v, u, f);
    if HasRoom(u, |bytes|) {
      RobbedFirst(v, u, f, g, name, bytes);
    }
    assert WalkRounds(v.fat, v.table[g].start, |c|).0 == u.fat;
  }

  lemma ChainStarts(fat: seq<nat>, n: nat, b: nat)
    requires b < n <= |fat|
    ensures b in Chain(fat, n, b)
  {
    assert Chain(fat, n, b)[0] == b;
  }

  /** The robbed file's first block, block 0, is the first one the new file takes. */
  lemma RobbedFirst(v: Vol, u: Vol, f: nat, g: nat, name: seq<byte>, bytes: seq<byte>)
    requires FilesOk(v) && f < |v.table| && g < |v.table| && f != g && IsFile(v.table[f]) && |name| <= 29
    requires v.table[f].start == 0 && 0 < |v.data| && u == v.(fat := FreeAll(v.fat, Blocks(v, f))) && HasRoom(u, |bytes|)
    ensures Share(Created(u, g, v.table[g].parent, name, bytes), g, f)
  {
    hide Chain, IsChain, Need, FreeFrom;
    assert Owns(v, f);
    var w, c := Created(u, g, v.table[g].parent, name, bytes), FreshBlocks(u, |bytes|);
    CreatedOwns(u, g, v.table[g].parent, name, bytes);
    assert 0 in Blocks(v, f) by { assert Blocks(v, f)[0] == 0; }
    assert u.fat[0] == FREE;
    assert c[0] in c;
    assert 0 in c;
    assert w.table[f] == v.table[f];
    ChainStarts(w.fat, |w.data|, 0);
  }

  // ---- Crash states ----

  /** Block b holds data of no file but f; f == |table| stands for none. */
  predicate Spent(v: Vol, f: nat, b: nat)
    requires b < |v.data| <= |v.fat|
  {
    v.fat[b] == FREE || (f < |v.table| && b in Blocks(v, f))
  }

  /** w differs from v only in free blocks, in the blocks of file f, and in entry f, which keeps its key or dies. */
  ghost predicate Confined(v: Vol, w: Vol, f: nat) {
    && |w.table| == |v.table| && |w.fat| == |v.fat| && |w.data| == |v.data| <= |v.fat|
    && (forall i {:trigger w.table[i]} | 0 <= i < |v.table| && i != f :: w.table[i] == v.table[i])
    && (f < |v.table| ==> w.table[f].status == 0 || SameKey(w.table[f], v.table[f]))
    && forall b {:trigger v.fat[b]} | 0 <= b < |v.data| && !Spent(v, f, b) :: w.fat[b] == v.fat[b] && w.data[b] == v.data[b]
  }

  /** Any number of completed rounds of write_file's loop, and any number followed by a lone data write. */
  lemma RoundsConfined(v: Vol, blocks: seq<nat>, bytes: seq<byte>, k: nat)
    requires |v.data| <= |v.fat| && k <= |blocks| && Ascends(blocks) && InRange(blocks, |v.data|)
    requires forall j | 0 <= j < |blocks| :: v.fat[blocks[j]] == FREE
    ensures var w := Fill(v, blocks, bytes, k);
            && Confined(v, w, |v.table|)
            && (k < |blocks| ==> Confined(v, w.(data := w.data[blocks[k] := Chunk(bytes, k)]), |v.table|))
  {
    hide Chunk, NextOf, Fill;
    FillEffect(v, blocks, bytes, k);
    forall b | 0 <= b < |v.data| && v.fat[b] != FREE
      ensures b !in blocks
    {
    }
  }

  /** Any part of file f's chain freed. */
  lemma FreeingConfined(v: Vol, f: nat, c: seq<nat>)
    requires |v.data| <= |v.fat| && f < |v.table| && IsLive(v.table[f])
    requires forall b | b in c :: b in Blocks(v, f)
    ensures Confined(v, v.(fat := FreeAll(v.fat, c)), f)
  {
  }

  /** What a create touches after file f's chain was freed is confined to f as well. */
  lemma RefilledConfined(v: Vol, w: Vol, f: nat)
    requires |v.data| <= |v.fat| && f < |v.table| && IsLive(v.table[f])
    requires Confined(v.(fat := FreeAll(v.fat, Blocks(v, f))), w, |v.table|)
    ensures Confined(v, w, f)
  {
    hide Blocks;
    var u := v.(fat := FreeAll(v.fat, Blocks(v, f)));
    forall b | 0 <= b < |v.data| && !Spent(v, f, b)
      ensures w.fat[b] == v.fat[b] && w.data[b] == v.data[b]
    {
      assert u.fat[b] == v.fat[b];
    }
  }

  /** Publication changes entry f alone. */
  lemma PublishedConfined(v: Vol, w: Vol, f: nat, e: Entry)
    requires Confined(v, w, f) && f < |v.table| && (e.status == 0 || SameKey(e, v.table[f]))
    ensures Confined(v, w.(table := w.table[f := e]), f)
  {
    hide Spent, SameKey;
    var x := w.(table := w.table[f := e]);
    forall i | 0 <= i < |v.table| && i != f
      ensures x.table[i] == v.table[i]
    {
      assert w.table[i] == v.table[i];
    }
    forall b | 0 <= b < |v.data| && !Spent(v, f, b)
      ensures x.fat[b] == v.fat[b] && x.data[b] == v.data[b]
    {
      assert w.fat[b] == v.fat[b];
    }
  }

  /** The finished delete, and the finished overwrite. */
  lemma DeletedConfined(v: Vol, f: nat)
    requires |v.data| <= |v.fat| && f < |v.table| && IsLive(v.table[f])
    ensures Confined(v, Deleted(v, f), f)
  {
    var u := v.(fat := FreeAll(v.fat, Blocks(v, f)));
    FreeingConfined(v, f, Blocks(v, f));
    PublishedConfined(v, u, f, v.table[f].(status := 0));
  }

  lemma OverwriteConfined(v: Vol, f: nat, dir: nat, name: seq<byte>, bytes: seq<byte>)
    requires |v.data| <= |v.fat| && f < |v.table| && IsLive(v.table[f]) && GoodName(name)
    requires v.table[f].parent == dir && NameOf(v.table[f]) == name
    requires HasRoom(v.(fat := FreeAll(v.fat, Blocks(v, f))), |bytes|)
    ensures Confined(v, Created(v.(fat := FreeAll(v.fat, Blocks(v, f))), f, dir, name, bytes), f)
  {
    hide Need, FreeFrom, Blocks, Confined, Fill;
    var u := v.(fat := FreeAll(v.fat, Blocks(v, f)));
    var c := FreshBlocks(u, |bytes|);
    RoundsConfined(u, c, bytes, |c|);
    RefilledConfined(v, Fill(u, c, bytes, |c|), f);
    PaddedName(name);
    PublishedConfined(v, Fill(u, c, bytes, |c|), f, FileEntry(u.table[f], name, |bytes|, c[0], dir));
  }

  /** A disk caught at any of those states reads as before under every key but file f's. */
  lemma ConfinedReadsSame(v: Vol, w: Vol, f: nat, d: nat, n: seq<byte>)
    requires Sane(v) && Confined(v, w, f)
    requires f < |v.table| ==> IsFile(v.table[f]) && !Matches(v.table[f], d, n)
    ensures Lookup(w, d, n) == Lookup(v, d, n)
  {
    hide TableOk, Acyclic, Content, Chain, Blocks;
    FindElsewhere(v.table, w.table, f, d, n);
    var i := Find(v.table, d, n, 0);
    if i < |v.table| {
      TwoKinds(v.table, i);
      if IsFile(v.table[i]) {
        ConfinedFile(v, w, f, i);
      }
    }
  }

  lemma ConfinedFile(v: Vol, w: Vol, f: nat, i: nat)
    requires Sane(v) && Confined(v, w, f) && (f < |v.table| ==> IsFile(v.table[f]))
    requires i < |v.table| && i != f && IsFile(v.table[i])
    ensures Owns(w, i) && Blocks(w, i) == Blocks(v, i) && Content(w, i) == Content(v, i)
  {
    hide TableOk, Acyclic, Content, Chain, Blocks, Owns;
    forall b | b in Blocks(v, i)
      ensures b < |v.data| && !Spent(v, f, b)
    {
      OwnedInUse(v, i, b);
      assert f < |v.table| ==> !Share(v, i, f);
    }
    FileKept(v, w, i);
    ContentKept(v, w, i);
  }

  /** Caught before a create publishes, the volume is sane, with the same table and the same files: the blocks linked
      so far have no owner, nothing else is amiss. */
  lemma UnpublishedSane(v: Vol, w: Vol)
    requires Sane(v) && Confined(v, w, |v.table|)
    ensures Sane(w) && w.table == v.table
    ensures forall i | 0 <= i < |v.table| && IsFile(v.table[i]) :: Content(w, i) == Content(v, i)
  {
    hide TableOk, Acyclic, Content, Blocks, Owns;
    assert w.table == v.table;
    forall i | 0 <= i < |v.table| && IsFile(v.table[i])
      ensures Owns(w, i) && Content(w, i) == Content(v, i) && Blocks(w, i) == Blocks(v, i)
    {
      ConfinedFile(v, w, |v.table|, i);
    }
    forall i, j | 0 <= i < |v.table| && 0 <= j < |v.table| && i != j && IsFile(v.table[i]) && IsFile(v.table[j])
      ensures !Share(w, i, j)
    {
      assert !Share(v, i, j);
    }
  }

  // ---- Undoing a create ----

  /** Creating a file and deleting it again restores the block map and every lookup. */
  lemma CreateThenDelete(v: Vol, slot: nat, dir: nat, name: seq<byte>, bytes: seq<byte>, d: nat, n: seq<byte>)
    requires Sane(v) && slot < |v.table| && v.table[slot].status == 0 && HasRoom(v, |bytes|)
    requires GoodName(name) && dir < |v.table| && IsDir(v.table[dir]) && Find(v.table, dir, name, 0) == |v.table|
    ensures var w := Deleted(Created(v, slot, dir, name, bytes), slot);
            && w.fat == v.fat && Sane(w) && (Inv(v) ==> Inv(w)) && Lookup(w, d, n) == Lookup(v, d, n)
  {
    hide TableOk, Acyclic, FilesOk, Lookup, Stored, HasRoom, Fill, FreeFrom, NoLeak, Usable;
    var u := Created(v, slot, dir, name, bytes);
    CreatedLookup(v, slot, dir, name, bytes, d, n);
    PaddedName(name);
    DeletedLookup(u, slot, d, n);
    LookupNone(v, dir, name);
    CreatedReleased(v, slot, dir, name, bytes);
    if Inv(v) {
      CreatedInv(v, slot, dir, name, bytes);
      DeletedInv(u, slot);
    }
  }

  lemma LookupNone(v: Vol, dir: nat, name: seq<byte>)
    requires |v.data| <= |v.fat| && Find(v.table, dir, name, 0) == |v.table|
    ensures Lookup(v, dir, name) == None
  {
  }

  lemma CreatedReleased(v: Vol, slot: nat, dir: nat, name: seq<byte>, bytes: seq<byte>)
    requires FilesOk(v) && slot < |v.table| && |name| <= 29 && HasRoom(v, |bytes|)
    ensures Deleted(Created(v, slot, dir, name, bytes), slot).fat == v.fat
  {
    hide Chain, Fill, FreeFrom;
    var u, c := Created(v, slot, dir, name, bytes), FreshBlocks(v, |bytes|);
    CreatedOwns(v, slot, dir, name, bytes);
    FillEffect(v, c, bytes, |c|);
    assert c[..|c|] == c;
    forall b | 0 <= b < |v.fat|
      ensures FreeAll(u.fat, c)[b] == v.fat[b]
    {
      if b in c {
        var k :| 0 <= k < |c| && c[k] == b;
      }
    }
  }
}
