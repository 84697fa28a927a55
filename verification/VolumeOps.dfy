/** What creating, overwriting, deleting and mkdir do to a volume, and that they keep the invariant. */
module VolumeOps {
  import opened Bytes
  import opened Text
  import opened Layout
  import opened Volume

  // ---- Operations ----

  /** free_block_chain: the blocks of c become free. */
  function FreeAll(fat: seq<nat>, c: seq<nat>): seq<nat> {
    seq(|fat|, b requires 0 <= b < |fat| => if b in c then FREE else fat[b])
  }

  function ClearStatus(t: seq<Entry>, i: nat): seq<Entry>
    requires i < |t|
  {
    t[i := t[i].(status := 0)]
  }

  /** Delete file f. */
  function Deleted(v: Vol, f: nat): Vol
    requires |v.data| <= |v.fat| && f < |v.table|
  {
    Vol(ClearStatus(v.table, f), FreeAll(v.fat, Blocks(v, f)), v.data)
  }

  /** Part i of the file's bytes, zero-padded to a block. */
  function Chunk(bytes: seq<byte>, i: nat): Sector {
    seq(SECTOR, x requires 0 <= x < SECTOR => if SECTOR * i + x < |bytes| then bytes[SECTOR * i + x] else 0)
  }

  function NextOf(blocks: seq<nat>, i: nat): nat
    requires i < |blocks|
  {
    if i + 1 < |blocks| then blocks[i + 1] else EOF
  }

  /** One round of write_file's loop: the data block, then its map entry. */
  function PutBlock(v: Vol, blocks: seq<nat>, bytes: seq<byte>, i: nat): Vol
    requires i < |blocks| && blocks[i] < |v.data| <= |v.fat|
  {
    v.(data := v.data[blocks[i] := Chunk(bytes, i)], fat := v.fat[blocks[i] := NextOf(blocks, i)])
  }

  ghost predicate InRange(blocks: seq<nat>, n: nat) {
    forall k | 0 <= k < |blocks| :: blocks[k] < n
  }

  /** The first k rounds. */
  function Fill(v: Vol, blocks: seq<nat>, bytes: seq<byte>, k: nat): (w: Vol)
    requires k <= |blocks| && InRange(blocks, |v.data|) && |v.data| <= |v.fat|
    ensures w.table == v.table && |w.data| == |v.data| && |w.fat| == |v.fat|
  {
    if k == 0 then v else PutBlock(Fill(v, blocks, bytes, k - 1), blocks, bytes, k - 1)
  }

  /** A name in its 30-byte field. */
  function Padded(name: seq<byte>): seq<byte>
    requires |name| <= 29
  {
    name + seq(NAME - |name|, _ => 0)
  }

  function FileEntry(prior: Entry, name: seq<byte>, size: nat, start: nat, parent: nat): Entry
    requires |name| <= 29
  {
    Entry(1, TYPE_FILE, Padded(name), size, start, parent, prior.reserved)
  }

  /** mkdir's entry: strcpy leaves what follows the terminator as it was. */
  function DirEntry(prior: Entry, name: seq<byte>, parent: nat): Entry
    requires |name| <= 29 && |prior.name| == NAME
  {
    Entry(1, TYPE_DIR, name + [0] + prior.name[|name| + 1..], 0, 0, parent, prior.reserved)
  }

  /** The free blocks a file of these bytes would take. */
  function FreshBlocks(v: Vol, size: nat): seq<nat>
    requires |v.data| <= |v.fat|
  {
    FreeFrom(v.fat, |v.data|, 0, Need(size))
  }

  predicate HasRoom(v: Vol, size: nat)
    requires |v.data| <= |v.fat|
  {
    |FreshBlocks(v, size)| == Need(size)
  }

  /** Store the bytes in free blocks, then publish the entry in this slot. */
  function Created(v: Vol, slot: nat, dir: nat, name: seq<byte>, bytes: seq<byte>): Vol
    requires |v.data| <= |v.fat| && slot < |v.table| && |name| <= 29 && HasRoom(v, |bytes|)
  {
    var blocks := FreshBlocks(v, |bytes|);
    var w := Fill(v, blocks, bytes, |blocks|);
    w.(table := v.table[slot := FileEntry(v.table[slot], name, |bytes|, blocks[0], dir)])
  }

  function MadeDir(v: Vol, slot: nat, dir: nat, name: seq<byte>): Vol
    requires slot < |v.table| && |name| <= 29 && |v.table[slot].name| == NAME
  {
    v.(table := v.table[slot := DirEntry(v.table[slot], name, dir)])
  }

  // ---- Names ----

  lemma PaddedName(name: seq<byte>)
    requires |name| <= 29 && 0 !in name
    ensures |Padded(name)| == NAME && 0 in Padded(name) && CStr(Padded(name)) == name
  {
    assert Padded(name)[|name|] == 0;
    CStrIs(Padded(name), name);
  }

  lemma DirName(prior: Entry, name: seq<byte>, parent: nat)
    requires |name| <= 29 && 0 !in name && |prior.name| == NAME
    ensures var e := DirEntry(prior, name, parent); |e.name| == NAME && 0 in e.name && NameOf(e) == name
  {
    var e := DirEntry(prior, name, parent);
    assert e.name[|name|] == 0;
    CStrIs(e.name, name);
  }

  // ---- The table ----

  /** Nothing lives in a free slot, so nothing has it as a parent. */
  lemma InsertTable(t: seq<Entry>, slot: nat, e: Entry)
    requires TableOk(t) && Acyclic(t) && slot < |t| && t[slot].status == 0
    requires e.status == 1 && e.kind <= 1 && (IsDir(e) ==> e.size == 0 && e.start == 0)
    requires |e.name| == NAME && 0 in e.name && GoodName(NameOf(e))
    requires e.parent < |t| && IsDir(t[e.parent]) && Find(t, e.parent, NameOf(e), 0) == |t|
    ensures TableOk(t[slot := e]) && Acyclic(t[slot := e])
  {
    var t' := t[slot := e];
    forall i | 0 <= i < |t'|
      ensures EntryOk(t', i)
    {
      assert EntryOk(t, i);
    }
    forall i, j | 0 <= i < |t'| && 0 <= j < |t'| && i != j
      ensures !SameKey(t'[i], t'[j])
    {
      if i != slot && j != slot {
        assert !SameKey(t[i], t[j]);
      } else {
        var k := if i == slot then j else i;
        assert !Matches(t[k], e.parent, NameOf(e));
      }
    }
    var depth :| Ranked(t, depth);
    var depth' := depth[slot := depth[e.parent] + 1];
    forall i | 0 <= i < |t'|
      ensures RankOk(t', depth', i)
    {
      assert RankOk(t, depth, i) && EntryOk(t, i);
    }
    assert Ranked(t', depth');
  }

  /** Clearing a file's status removes no parent. */
  lemma ClearTable(t: seq<Entry>, f: nat)
    requires TableOk(t) && Acyclic(t) && f < |t| && IsFile(t[f])
    ensures TableOk(ClearStatus(t, f)) && Acyclic(ClearStatus(t, f))
  {
    var t' := ClearStatus(t, f);
    forall i | 0 <= i < |t'|
      ensures EntryOk(t', i)
    {
      assert EntryOk(t, i);
    }
    forall i, j | 0 <= i < |t'| && 0 <= j < |t'| && i != j
      ensures !SameKey(t'[i], t'[j])
    {
      assert !SameKey(t[i], t[j]);
    }
    var depth :| Ranked(t, depth);
    forall i | 0 <= i < |t'|
      ensures RankOk(t', depth, i)
    {
      assert RankOk(t, depth, i);
    }
    assert Ranked(t', depth);
  }

  // ---- Deleting ----

  /** A file none of whose blocks or entry changed keeps its chain. */
  lemma FileKept(v: Vol, w: Vol, i: nat)
    requires FilesOk(v) && i < |v.table| && IsFile(v.table[i])
    requires |w.data| == |v.data| && |w.fat| == |v.fat| && i < |w.table| && w.table[i] == v.table[i]
    requires forall b | b in Blocks(v, i) && b < |v.data| :: w.fat[b] == v.fat[b]
    ensures Owns(w, i) && Blocks(w, i) == Blocks(v, i)
  {
    assert Owns(v, i);
    ChainKept(v.fat, w.fat, |v.data|, Blocks(v, i));
  }

  lemma OwnedInUse(v: Vol, i: nat, b: nat)
    requires FilesOk(v) && i < |v.table| && IsFile(v.table[i]) && b in Blocks(v, i)
    ensures b < |v.data| && v.fat[b] != FREE
  {
    assert Owns(v, i);
    ChainShape(v.fat, |v.data|, Blocks(v, i));
  }

  lemma DeletedKeeps(v: Vol, f: nat, i: nat)
    requires Sane(v) && f < |v.table| && IsFile(v.table[f]) && i < |v.table| && i != f && IsFile(v.table[i])
    ensures Owns(Deleted(v, f), i) && Blocks(Deleted(v, f), i) == Blocks(v, i)
  {
    assert !Share(v, i, f);
    FileKept(v, Deleted(v, f), i);
  }

  /** Deleting a file frees exactly its blocks and leaves the others theirs. */
  lemma DeletedSane(v: Vol, f: nat)
    requires Sane(v) && f < |v.table| && IsFile(v.table[f])
    ensures Sane(Deleted(v, f))
  {
    hide TableOk, Acyclic, Owns, Blocks;
    var w := Deleted(v, f);
    ClearTable(v.table, f);
    forall i | 0 <= i < |w.table| && IsFile(w.table[i])
      ensures Owns(w, i)
    {
      DeletedKeeps(v, f, i);
    }
    forall i, j | 0 <= i < |w.table| && 0 <= j < |w.table| && i != j && IsFile(w.table[i]) && IsFile(w.table[j])
      ensures !Share(w, i, j)
    {
      DeletedKeeps(v, f, i);
      DeletedKeeps(v, f, j);
      assert !Share(v, i, j);
    }
  }

  // ---- Creating ----

  ghost predicate Distinct(c: seq<nat>) {
    forall j, k | 0 <= j < k < |c| :: c[j] != c[k]
  }

  /** After k rounds: the first k blocks are written and linked, everything else is as before. */
  lemma {:induction false} FillEffect(v: Vol, blocks: seq<nat>, bytes: seq<byte>, k: nat)
    requires k <= |blocks| && InRange(blocks, |v.data|) && |v.data| <= |v.fat| && Distinct(blocks)
    ensures var w := Fill(v, blocks, bytes, k);
            && (forall j | 0 <= j < k :: w.data[blocks[j]] == Chunk(bytes, j) && w.fat[blocks[j]] == NextOf(blocks, j))
            && (forall b | 0 <= b < |v.fat| && b !in blocks[..k] :: w.fat[b] == v.fat[b])
            && (forall b | 0 <= b < |v.data| && b !in blocks[..k] :: w.data[b] == v.data[b])
  {
    hide Chunk, NextOf;
    if k > 0 {
      FillEffect(v, blocks, bytes, k - 1);
      var u, c := Fill(v, blocks, bytes, k - 1), blocks[k - 1];
      assert Fill(v, blocks, bytes, k) == PutBlock(u, blocks, bytes, k - 1);
      assert blocks[..k] == blocks[..k - 1] + [c];
      forall b | 0 <= b < |v.data| && b !in blocks[..k]
        ensures Fill(v, blocks, bytes, k).data[b] == v.data[b]
      {
        assert b != c && b !in blocks[..k - 1];
      }
    }
  }

  /** The new file's chain is the list of blocks taken. */
  lemma CreatedOwns(v: Vol, slot: nat, dir: nat, name: seq<byte>, bytes: seq<byte>)
    requires |v.data| <= |v.fat| && |v.data| <= EOF && slot < |v.table| && |name| <= 29 && HasRoom(v, |bytes|)
    ensures var w := Created(v, slot, dir, name, bytes);
            Owns(w, slot) && Blocks(w, slot) == FreshBlocks(v, |bytes|)
  {
    var w, c := Created(v, slot, dir, name, bytes), FreshBlocks(v, |bytes|);
    FillEffect(v, c, bytes, |c|);
    forall k | 0 <= k < |c|
      ensures LinkOk(w.fat, |w.data|, c, k)
    {
      assert w.fat[c[k]] == NextOf(c, k);
    }
    ChainUnique(w.fat, |w.data|, c);
  }

  lemma CreatedKeeps(v: Vol, slot: nat, dir: nat, name: seq<byte>, bytes: seq<byte>, i: nat)
    requires Sane(v) && slot < |v.table| && |name| <= 29 && HasRoom(v, |bytes|)
    requires i < |v.table| && i != slot && IsFile(v.table[i])
    ensures var w := Created(v, slot, dir, name, bytes);
            && Owns(w, i) && Blocks(w, i) == Blocks(v, i)
            && forall b | b in Blocks(v, i) :: b < |v.data| && b !in FreshBlocks(v, |bytes|) && w.data[b] == v.data[b]
  {
    hide Chain, Need, FreeFrom, Fill, Chunk, NextOf, TableOk, Acyclic;
    var w, c := Created(v, slot, dir, name, bytes), FreshBlocks(v, |bytes|);
    FillEffect(v, c, bytes, |c|);
    assert c[..|c|] == c;
    forall b | b in Blocks(v, i)
      ensures b < |v.data| && b !in c && v.fat[b] != FREE
    {
      OwnedInUse(v, i, b);
    }
    FileKept(v, w, i);
  }

  /** Creating a file in a free slot keeps the invariant. */
  lemma CreatedSane(v: Vol, slot: nat, dir: nat, name: seq<byte>, bytes: seq<byte>)
    requires Sane(v) && slot < |v.table| && v.table[slot].status == 0 && HasRoom(v, |bytes|)
    requires GoodName(name) && dir < |v.table| && IsDir(v.table[dir]) && Find(v.table, dir, name, 0) == |v.table|
    ensures Sane(Created(v, slot, dir, name, bytes))
  {
    hide TableOk, Acyclic, Owns, Blocks, HasRoom;
    var w := Created(v, slot, dir, name, bytes);
    PaddedName(name);
    InsertTable(v.table, slot, w.table[slot]);
    CreatedOwns(v, slot, dir, name, bytes);
    forall i | 0 <= i < |w.table| && IsFile(w.table[i])
      ensures Owns(w, i)
    {
      if i != slot { CreatedKeeps(v, slot, dir, name, bytes, i); }
    }
    forall i, j | 0 <= i < |w.table| && 0 <= j < |w.table| && i != j && IsFile(w.table[i]) && IsFile(w.table[j])
      ensures !Share(w, i, j)
    {
      if i != slot { CreatedKeeps(v, slot, dir, name, bytes, i); }
      if j != slot { CreatedKeeps(v, slot, dir, name, bytes, j); }
      if i != slot && j != slot { assert !Share(v, i, j); }
    }
  }

  // ---- mkdir ----

  lemma MadeDirSane(v: Vol, slot: nat, dir: nat, name: seq<byte>)
    requires Sane(v) && slot < |v.table| && v.table[slot].status == 0
    requires GoodName(name) && dir < |v.table| && IsDir(v.table[dir]) && Find(v.table, dir, name, 0) == |v.table|
    ensures |v.table[slot].name| == NAME
    ensures Sane(MadeDir(v, slot, dir, name))
  {
    assert EntryOk(v.table, slot);
    var w := MadeDir(v, slot, dir, name);
    DirName(v.table[slot], name, dir);
    InsertTable(v.table, slot, w.table[slot]);
    MadeDirFiles(v, w, slot);
  }

  /** A change to an entry that is no file, before and after, leaves the files alone. */
  lemma MadeDirFiles(v: Vol, w: Vol, slot: nat)
    requires FilesOk(v) && w.fat == v.fat && w.data == v.data && |w.table| == |v.table| && slot < |v.table|
    requires !IsFile(v.table[slot]) && !IsFile(w.table[slot])
    requires forall i | 0 <= i < |v.table| && i != slot :: w.table[i] == v.table[i]
    ensures FilesOk(w)
  {
    hide IsChain, Need;
    forall i | 0 <= i < |v.table| && i != slot
      ensures Blocks(w, i) == Blocks(v, i)
    {
    }
    forall i | 0 <= i < |w.table| && IsFile(w.table[i])
      ensures Owns(w, i)
    {
      assert Owns(v, i);
    }
    forall i, j | 0 <= i < |w.table| && 0 <= j < |w.table| && i != j && IsFile(w.table[i]) && IsFile(w.table[j])
      ensures !Share(w, i, j)
    {
      assert !Share(v, i, j);
    }
  }
}
