/** The file system of chainfs.c: one disk, one scratch buffer that every helper overwrites, and the kernel heap. */
module ChainFS {
  import opened Bytes
  import opened Text
  import opened Layout
  import opened Volume
  import opened VolumeOps
  import opened Accounting
  import opened VolumeLaws
  import opened Paths
  import opened DiskView
  import KernelHeap = Heap
  import BlockList
  import HeapLaws
  import opened Runs
  import opened CrashStates
  import opened Formatting

  // ---- The scratch buffer ----

  /** Bytes outside [p, p + w) are as before. */
  ghost predicate Elsewhere(s: seq<byte>, s': seq<byte>, p: nat, w: nat) {
    |s| == |s'| && forall x | 0 <= x < |s| && !(p <= x < p + w) :: s[x] == s'[x]
  }

  lemma OtherEntry(s: seq<byte>, s': seq<byte>, p: nat, w: nat, o: nat, k: nat)
    requires |s| == SECTOR && Elsewhere(s, s', p, w) && o < PER_BLOCK && k < PER_BLOCK && k != o
    requires ENTRY * o <= p && p + w <= ENTRY * o + ENTRY
    ensures EntryAt(s', k) == EntryAt(s, k)
  {
    EntryFrame(s, s', k);
  }

  /** Changes confined to entry o leave the others of the sector. */
  lemma OnlyEntry(s: seq<byte>, s': seq<byte>, o: nat)
    requires |s| == SECTOR && o < PER_BLOCK && Elsewhere(s, s', ENTRY * o, ENTRY)
    ensures forall k | 0 <= k < PER_BLOCK && k != o :: EntryAt(s', k) == EntryAt(s, k)
  {
    forall k | 0 <= k < PER_BLOCK && k != o
      ensures EntryAt(s', k) == EntryAt(s, k)
    {
      OtherEntry(s, s', ENTRY * o, ENTRY, o, k);
    }
  }

  lemma OnlyWord(s: seq<byte>, s': seq<byte>, i: nat, w: nat)
    requires |s| == SECTOR && i < WORDS && Elsewhere(s, s', 4 * i, 4) && WordAt(s', i) == w
    ensures forall k | 0 <= k < WORDS :: WordAt(s', k) == if k == i then w else WordAt(s, k)
  {
    forall k | 0 <= k < WORDS && k != i
      ensures WordAt(s', k) == WordAt(s, k)
    {
      LoadFrame(s, s', 4 * k, 4);
    }
  }

  /** The last three words of an entry. */
  method PutNumbers(buf: array<byte>, o: nat, size: nat, start: nat, parent: nat)
    requires buf.Length == SECTOR && o < PER_BLOCK && size < U32 && start < U32 && parent < U32
    modifies buf
    ensures Load(buf[..], ENTRY * o + 32, 4) == size && Load(buf[..], ENTRY * o + 36, 4) == start
    ensures Load(buf[..], ENTRY * o + 40, 4) == parent
    ensures Elsewhere(old(buf[..]), buf[..], ENTRY * o + 32, 12)
  {
    var p := ENTRY * o;
    SpanWords();
    Store(buf, p + 32, 4, size);
    ghost var s1 := buf[..];
    Store(buf, p + 36, 4, start);
    LoadFrame(s1, buf[..], p + 32, 4);
    ghost var s2 := buf[..];
    Store(buf, p + 40, 4, parent);
    LoadFrame(s2, buf[..], p + 32, 4);
    LoadFrame(s2, buf[..], p + 36, 4);
  }

  /** The entry's name field has room for 29 characters. */
  function CutName(name: seq<byte>): seq<byte> {
    if |name| <= 29 then name else name[..29]
  }

  /** Status, type and name of a file entry. */
  method PutFileName(buf: array<byte>, o: nat, name: seq<byte>)
    requires buf.Length == SECTOR && o < PER_BLOCK && 0 !in name
    modifies buf
    ensures buf[ENTRY * o] == 1 && buf[ENTRY * o + 1] == TYPE_FILE
    ensures buf[..][ENTRY * o + 2..ENTRY * o + 32] == Padded(CutName(name))
    ensures Elsewhere(old(buf[..]), buf[..], ENTRY * o, 32)
  {
    ghost var s0, cut := buf[..], CutName(name);
    var p := ENTRY * o;
    buf[p] := 1;
    buf[p + 1] := TYPE_FILE;
    for i := 0 to NAME
      invariant buf[p] == 1 && buf[p + 1] == TYPE_FILE
      invariant forall x | 0 <= x < SECTOR && !(p <= x < p + 2 + i) :: buf[x] == s0[x]
      invariant forall x | p + 2 <= x < p + 2 + i :: buf[x] == 0
    {
      buf[p + 2 + i] := 0;
    }
    var nameLen := TerminatedLength(name);
    if nameLen > 29 {
      nameLen := 29;
    }
    for i := 0 to nameLen
      invariant buf[p] == 1 && buf[p + 1] == TYPE_FILE
      invariant forall x | 0 <= x < SECTOR && !(p <= x < p + 32) :: buf[x] == s0[x]
      invariant forall x | p + 2 <= x < p + 32 :: buf[x] == if x < p + 2 + i then cut[x - (p + 2)] else 0
    {
      buf[p + 2 + i] := name[i];
    }
    forall x | 0 <= x < NAME
      ensures buf[..][p + 2..p + 32][x] == Padded(cut)[x]
    {
      assert buf[..][p + 2..p + 32][x] == buf[p + 2 + x];
    }
  }

  /** write_file's entry: every field but the reserved bytes. */
  method PutFileEntry(buf: array<byte>, o: nat, name: seq<byte>, size: nat, start: nat, parent: nat)
    requires buf.Length == SECTOR && o < PER_BLOCK && 0 !in name
    requires size < U32 && start < U32 && parent < U32
    modifies buf
    ensures EntryAt(buf[..], o) == FileEntry(old(EntryAt(buf[..], o)), CutName(name), size, start, parent)
    ensures Elsewhere(old(buf[..]), buf[..], ENTRY * o, ENTRY)
  {
    hide Padded, CutName, Load;
    var p := ENTRY * o;
    ghost var s0 := buf[..];
    PutFileName(buf, o, name);
    ghost var s1 := buf[..];
    PutNumbers(buf, o, size, start, parent);
    assert buf[..][p + 2..p + 32] == s1[p + 2..p + 32];
    assert buf[..][p + 44..p + 60] == s0[p + 44..p + 60];
  }

  /** strlen of a string held with its terminator */
  method TerminatedLength(name: seq<byte>) returns (n: nat)
    requires 0 !in name
    ensures n == |name|
  {
    CStrIs(name + [0], name);
    n := StrLen(name + [0]);
  }

  /** strchr of a string held with its terminator: is there a slash? */
  method HasSlash(path: seq<byte>) returns (r: bool)
    requires 0 !in path
    ensures r <==> SLASH in path
  {
    CStrIs(path + [0], path);
    var k := StrChr(path + [0], SLASH);
    r := k < |path + [0]|;
  }

  /** strcmp of a name field with a name */
  method SameName(field: seq<byte>, name: seq<byte>) returns (same: bool)
    requires 0 in field && 0 !in name
    ensures same <==> CStr(field) == name
  {
    CStrIs(name + [0], name);
    var c := StrCmp(field, name + [0]);
    same := c == 0;
  }

  lemma ClearedEntry(s: seq<byte>, s': seq<byte>, o: nat)
    requires |s| == SECTOR && o < PER_BLOCK && Elsewhere(s, s', ENTRY * o, 1) && s'[ENTRY * o] == 0
    ensures EntryAt(s', o) == EntryAt(s, o).(status := 0)
  {
    var p := ENTRY * o;
    LoadFrame(s, s', p + 32, 4);
    LoadFrame(s, s', p + 36, 4);
    LoadFrame(s, s', p + 40, 4);
    assert s[p + 2..p + 32] == s'[p + 2..p + 32] && s[p + 44..p + 60] == s'[p + 44..p + 60];
  }

  /** mkdir's entry: strcpy of the name, then the numbers. */
  method PutDirEntry(buf: array<byte>, o: nat, name: seq<byte>, parent: nat)
    requires buf.Length == SECTOR && o < PER_BLOCK && 0 !in name && |name| <= 29 && parent < U32
    modifies buf
    ensures EntryAt(buf[..], o) == DirEntry(old(EntryAt(buf[..], o)), name, parent)
    ensures Elsewhere(old(buf[..]), buf[..], ENTRY * o, ENTRY)
  {
    hide Load, CStr, PlacedAt;
    var p := ENTRY * o;
    ghost var s0 := buf[..];
    buf[p] := 1;
    buf[p + 1] := TYPE_DIR;
    CStrIs(name + [0], name);
    ghost var was := buf[..];
    StrCpy(buf, p + 2, name + [0]);
    ghost var s1 := buf[..];
    DirNameField(was, s1, p + 2, name);
    assert was[p + 2..p + 32] == s0[p + 2..p + 32];
    PutNumbers(buf, o, 0, 0, parent);
    assert buf[..][p + 2..p + 32] == s1[p + 2..p + 32];
    assert buf[..][p + 44..p + 60] == s0[p + 44..p + 60];
  }

  /** strcpy leaves the bytes after the terminator. */
  lemma DirNameField(s0: seq<byte>, s1: seq<byte>, p: nat, name: seq<byte>)
    requires |name| <= 29 && p + NAME <= |s0| && PlacedAt(s1, s0, p, name)
    ensures |s1| == |s0| && forall x | 0 <= x < |s0| && !(p <= x < p + NAME) :: s1[x] == s0[x]
    ensures s1[p..p + NAME] == name + [0] + s0[p..p + NAME][|name| + 1..]
  {
    var field := s1[p..p + NAME];
    forall x | 0 <= x < NAME
      ensures field[x] == (name + [0] + s0[p..p + NAME][|name| + 1..])[x]
    {
      if x < |name| {
        assert s1[p..p + |name|][x] == s1[p + x];
      }
    }
  }

  ghost function WordIn(m: seq<byte>, list: nat, j: nat): nat
    requires list + 4 * j + 4 <= |m|
  {
    Load(m, list + 4 * j, 4)
  }

  ghost predicate ListedIn(m: seq<byte>, list: nat, blocks: seq<nat>) {
    blocks == []
    || (list + 4 * |blocks| <= |m| && forall j | 0 <= j < |blocks| :: WordIn(m, list, j) == blocks[j])
  }

  /** Where find_free_blocks's loop stands: done is what the blocks below i contribute. */
  ghost predicate FoundBelow(fat: seq<nat>, n: nat, i: nat, count: nat, done: seq<nat>)
    requires i <= n <= |fat|
  {
    |done| <= count && FreeFrom(fat, n, 0, count) == done + FreeFrom(fat, n, i, count - |done|)
  }

  lemma FoundNone(fat: seq<nat>, n: nat, count: nat)
    requires n <= |fat|
    ensures FoundBelow(fat, n, 0, count, [])
  {
    assert [] + FreeFrom(fat, n, 0, count) == FreeFrom(fat, n, 0, count);
  }

  lemma FreeStep(fat: seq<nat>, n: nat, i: nat, count: nat)
    requires i < n <= |fat| && count > 0
    ensures FreeFrom(fat, n, i, count)
            == if fat[i] == FREE then [i] + FreeFrom(fat, n, i + 1, count - 1) else FreeFrom(fat, n, i + 1, count)
  {
  }

  lemma FoundStep(fat: seq<nat>, n: nat, i: nat, count: nat, done: seq<nat>)
    requires i < n <= |fat| && |done| < count && FoundBelow(fat, n, i, count, done)
    ensures FoundBelow(fat, n, i + 1, count, if fat[i] == FREE then done + [i] else done)
  {
    hide FreeFrom, LowestFree, Ascends;
    FreeStep(fat, n, i, count - |done|);
    if fat[i] == FREE {
      Regroup(done, i, FreeFrom(fat, n, i + 1, count - |done| - 1));
    }
  }

  lemma FoundAll(fat: seq<nat>, n: nat, i: nat, count: nat, done: seq<nat>)
    requires i <= n <= |fat| && FoundBelow(fat, n, i, count, done) && (i == n || |done| == count)
    ensures FreeFrom(fat, n, 0, count) == done
  {
    assert done + [] == done;
  }

  lemma Regroup<T>(done: seq<T>, i: T, rest: seq<T>)
    ensures done + ([i] + rest) == done + [i] + rest
  {
  }

  /** kmalloc has room for the block list of a file of this size. */
  ghost predicate Granted(bs: seq<BlockList.Block>, size: nat) {
    HeapLaws.Malloc(bs, 4 * Need(size)).ptr != 0
  }

  /** In numbers: exactly when some region clear of live blocks holds a header and four bytes a block. */
  lemma GrantedIs(bs: seq<BlockList.Block>, lo: nat, hi: nat, size: nat, count: nat)
    requires BlockList.Sound(bs, lo, hi) && size <= U32 - 512 && BlocksFor(size, count)
    ensures Granted(bs, size) <==> exists a :: HeapLaws.Room(bs, lo, hi, 4 * count, a)
  {
    NeedIs(size, count);
    HeapLaws.MallocComplete(bs, lo, hi, 4 * count);
  }

  lemma NothingTaken(bs: seq<BlockList.Block>, lo: nat, hi: nat, n: nat)
    requires BlockList.Sound(bs, lo, hi) && HeapLaws.Malloc(bs, n).ptr == 0
    ensures HeapLaws.Malloc(bs, n).blocks == bs
  {
    HeapLaws.MallocEffect(bs, lo, hi, n);
  }

  lemma ReturnsHome(bs: seq<BlockList.Block>, ms: seq<BlockList.Block>, lo: nat, hi: nat, ptr: nat, n: nat)
    requires BlockList.Sound(bs, lo, hi) && ptr != 0 && HeapLaws.Outcome(ms, ptr) == HeapLaws.Malloc(bs, n)
    requires n <= U64 - 16
    ensures HeapLaws.Free(ms, ptr) == bs && BlockList.Live(bs) <= KernelHeap.Elements(ms)
  {
    HeapLaws.MallocThenFree(bs, lo, hi, n);
    HeapLaws.MallocEffect(bs, lo, hi, n);
  }

  lemma FreshAre(v: Vol, size: nat)
    requires |v.data| <= |v.fat|
    ensures var c := FreshBlocks(v, size);
            && Ascends(c) && InRange(c, |v.data|) && forall j | 0 <= j < |c| :: v.fat[c[j]] == FREE
  {
  }

  // ---- Listing ----

  /** The live entries of a directory, from index i on. */
  function Listing(t: seq<Entry>, dir: nat, i: nat): seq<Entry>
    requires i <= |t|
    decreases |t| - i
  {
    if i == |t| then []
    else (if t[i].status == 1 && t[i].parent == dir then [t[i]] else []) + Listing(t, dir, i + 1)
  }

  lemma ListStep(t: seq<Entry>, dir: nat, i: nat)
    requires i < |t|
    ensures Listing(t, dir, i) == if t[i].status == 1 && t[i].parent == dir then [t[i]] + Listing(t, dir, i + 1)
                                  else Listing(t, dir, i + 1)
  {
  }

  /** The listing is the directory's live entries, each once, in table order. */
  lemma {:induction false} ListingOrder(t: seq<Entry>, dir: nat, i: nat) returns (ks: seq<nat>)
    requires i <= |t|
    ensures Ascends(ks) && |ks| == |Listing(t, dir, i)|
    ensures forall j | 0 <= j < |ks| :: i <= ks[j] < |t| && Listing(t, dir, i)[j] == t[ks[j]]
    ensures forall k | i <= k < |t| :: k in ks <==> IsLive(t[k]) && t[k].parent == dir
    decreases |t| - i
  {
    hide Listing;
    if i == |t| {
      ListEnd(t, dir);
      ks := [];
    } else {
      ListStep(t, dir, i);
      ks := ListingOrder(t, dir, i + 1);
      if IsLive(t[i]) && t[i].parent == dir {
        ks := [i] + ks;
      }
    }
  }

  lemma ListEnd(t: seq<Entry>, dir: nat)
    ensures Listing(t, dir, |t|) == []
  {
  }

  ghost predicate ListedAs(t: seq<Entry>, dir: nat, e: Entry, k: nat)
    requires k < |t|
  {
    t[k] == e && e.status == 1 && e.parent == dir
  }

  lemma {:induction false} ListingHas(t: seq<Entry>, dir: nat, i: nat, e: Entry)
    requires i <= |t|
    ensures e in Listing(t, dir, i) <==> exists k :: i <= k < |t| && ListedAs(t, dir, e, k)
    decreases |t| - i
  {
    hide Listing;
    if i < |t| {
      ListStep(t, dir, i);
      ListingHas(t, dir, i + 1, e);
      assert e in Listing(t, dir, i) <==> ListedAs(t, dir, e, i) || e in Listing(t, dir, i + 1);
    } else {
      ListEnd(t, dir);
    }
  }

  /** The first count places of a hold the listing of the entries before k, or of as many as fit. */
  ghost predicate ListedUpTo(a: seq<Entry>, count: nat, max: nat, t: seq<Entry>, dir: nat, k: nat)
    requires k <= |t|
  {
    && count <= max && count <= |a| && a[..count] <= Listing(t, dir, 0)
    && (count == max || Listing(t, dir, 0) == a[..count] + Listing(t, dir, k))
  }

  lemma ListedFirst(a: seq<Entry>, max: nat, t: seq<Entry>, dir: nat)
    ensures ListedUpTo(a, 0, max, t, dir, 0)
  {
    assert a[..0] + Listing(t, dir, 0) == Listing(t, dir, 0);
  }

  lemma ListedStep(a: seq<Entry>, a': seq<Entry>, count: nat, max: nat, t: seq<Entry>, dir: nat, k: nat)
    requires k < |t| && count < max <= |a| && ListedUpTo(a, count, max, t, dir, k)
    requires var hit := t[k].status == 1 && t[k].parent == dir; a' == if hit then a[count := t[k]] else a
    ensures ListedUpTo(a', if t[k].status == 1 && t[k].parent == dir then count + 1 else count, max, t, dir, k + 1)
  {
    hide Listing;
    ListStep(t, dir, k);
    if t[k].status == 1 && t[k].parent == dir {
      Regroup(a[..count], t[k], Listing(t, dir, k + 1));
      assert a'[..count + 1] == a[..count] + [t[k]];
    }
  }

  /** A full array stays full. */
  lemma ListedFull(a: seq<Entry>, max: nat, t: seq<Entry>, dir: nat, k: nat, k': nat)
    requires k <= |t| && k' <= |t| && ListedUpTo(a, max, max, t, dir, k)
    ensures ListedUpTo(a, max, max, t, dir, k')
  {
  }

  lemma ListedAll(a: seq<Entry>, count: nat, max: nat, t: seq<Entry>, dir: nat, k: nat)
    requires k <= |t| && ListedUpTo(a, count, max, t, dir, k) && (k == |t| || count == max)
    ensures var all := Listing(t, dir, 0);
            count == (if |all| <= max then |all| else max) && count <= |a| && a[..count] == all[..count]
  {
    hide Listing;
    ListEnd(t, dir);
    assert a[..count] + [] == a[..count];
  }

  /** A name is listed exactly when it can be looked up. */
  lemma ListingMeaning(v: Vol, dir: nat, name: seq<byte>)
    requires |v.data| <= |v.fat|
    ensures (exists e :: e in Listing(v.table, dir, 0) && NameOf(e) == name) <==> Lookup(v, dir, name) != None
  {
    hide Content, CStr, Listing;
    var t, f := v.table, Find(v.table, dir, name, 0);
    if f < |t| {
      assert ListedAs(t, dir, t[f], f);
      ListingHas(t, dir, 0, t[f]);
    }
    forall e | e in Listing(t, dir, 0) && NameOf(e) == name
      ensures f < |t|
    {
      ListingHas(t, dir, 0, e);
      var k :| 0 <= k < |t| && ListedAs(t, dir, e, k);
      assert Matches(t[k], dir, name);
    }
  }

  /** The first n bytes are those of the content, the others as before. */
  ghost predicate Filled(now: seq<byte>, before: seq<byte>, content: seq<byte>, n: nat) {
    && |now| == |before| && n <= |now| && n <= |content|
    && forall x | 0 <= x < |now| :: now[x] == if x < n then content[x] else before[x]
  }

  class FileSystem {
    const disk: array<Sector>
    const buf: array<byte>         // sector_buffer
    const heap: KernelHeap.Heap
    var sb: Superblock             // g_chainfs.superblock
    var dataAreaStart: nat
    var cwd: nat                   // current_dir_block
    ghost var writes: seq<seq<Sector>>   // the disk after each sector write so far

    constructor (disk: array<Sector>, heap: KernelHeap.Heap)
      ensures this.disk == disk && this.heap == heap && fresh(buf) && buf.Length == SECTOR && writes == []
    {
      this.disk := disk;
      this.heap := heap;
      buf := new byte[SECTOR];
      sb := Superblock(0, 0, 0, 0, 0, 0);
      dataAreaStart, cwd := 0, 0;
      writes := [];
    }

    /** The superblock in memory describes the disk. */
    ghost predicate Mounted()
      reads this, disk
    {
      && buf.Length == SECTOR
      && GeometryOk(sb, disk.Length)
      && dataAreaStart == DataStart(sb)
      && BootSectorOk(disk[0], sb)
    }

    /** The volume on the disk. */
    ghost function V(): Vol
      requires Mounted()
      reads this, disk
    {
      VolOf(disk[..], sb)
    }

    ghost predicate Ready()
      reads this, disk
    {
      Mounted() && Sane(V()) && ValidCwd(V(), cwd)
    }

    // ---- Sectors ----

    /** pata_read_sector */
    method ReadSector(lba: nat)
      requires lba < disk.Length && buf.Length == SECTOR
      modifies buf
      ensures buf[..] == disk[lba]
    {
      var s := disk[lba];
      forall i | 0 <= i < SECTOR {
        buf[i] := s[i];
      }
    }

    /** pata_write_sector: one atomic, flushed write */
    method WriteSector(lba: nat)
      requires lba < disk.Length && buf.Length == SECTOR
      modifies disk, this`writes
      ensures disk[..] == old(disk[..])[lba := buf[..]]
      ensures writes == old(writes) + [disk[..]]
    {
      disk[lba] := buf[..];
      writes := writes + [disk[..]];
    }

    // ---- Table scans ----

    /** find_in_directory */
    method FindInDirectory(dir: nat, name: seq<byte>) returns (found: bool, entry: Entry, block: nat, offset: nat)
      requires Mounted() && TableOk(V().table) && 0 !in name
      modifies buf
      ensures var i := Find(V().table, dir, name, 0);
              && (found <==> i < |V().table|)
              && (found ==> 1 <= block < 1 + sb.tableBlocks && offset < PER_BLOCK
                            && i == PER_BLOCK * (block - 1) + offset && entry == V().table[i])
    {
      hide EntryAt, Find, VolOf, TableOf, FatOf, TableOk, CStr, BootSectorOk, SuperblockAt;
      ghost var t := V().table;
      found, entry, offset := false, EntryAt(buf[..], 0), 0;
      block := 1;
      while block < 1 + sb.tableBlocks
        invariant 1 <= block <= 1 + sb.tableBlocks
        invariant Find(t, dir, name, 0) == Find(t, dir, name, PER_BLOCK * (block - 1))
      {
        ReadSector(block);
        var i := 0;
        while i < PER_BLOCK
          invariant 0 <= i <= PER_BLOCK && buf[..] == disk[block]
          invariant Find(t, dir, name, 0) == Find(t, dir, name, PER_BLOCK * (block - 1) + i)
        {
          EntryInTable(disk[..], sb, block, i);
          var e := EntryAt(buf[..], i);
          FindStep(t, dir, name, PER_BLOCK * (block - 1) + i);
          if e.status == 1 && e.parent == dir {
            var same := SameName(e.name, name);
            if same {
              return true, e, block, i;
            }
          }
          i := i + 1;
        }
        block := block + 1;
      }
    }

    static lemma FindStep(t: seq<Entry>, dir: nat, name: seq<byte>, i: nat)
      requires TableOk(t) && i < |t|
      ensures Find(t, dir, name, i) == if Matches(t[i], dir, name) then i else Find(t, dir, name, i + 1)
      ensures t[i].status == 1 ==> 0 in t[i].name
    {
      assert EntryOk(t, i);
    }

    /** find_free_file_entry; -2 says that nothing is mounted. */
    method FindFreeFileEntry() returns (code: int, block: nat, offset: nat)
      requires sb.magic == MAGIC ==> Mounted()
      modifies buf
      ensures sb.magic != MAGIC ==> code == -2 && buf[..] == old(buf[..])
      ensures sb.magic == MAGIC ==>
                var s := FreeSlot(V().table, 0);
                && code == (if s < |V().table| then 0 else -1)
                && (code == 0 ==> 1 <= block < 1 + sb.tableBlocks && offset < PER_BLOCK
                                  && s == PER_BLOCK * (block - 1) + offset)
    {
      hide EntryAt, VolOf, FreeSlot, SuperblockAt, BootSectorOk;
      if sb.magic != MAGIC {
        return -2, 0, 0;
      }
      ghost var t := V().table;
      block, offset := 1, 0;
      while block < 1 + sb.tableBlocks
        invariant 1 <= block <= 1 + sb.tableBlocks
        invariant FreeSlot(t, 0) == FreeSlot(t, PER_BLOCK * (block - 1))
      {
        ReadSector(block);
        var i := 0;
        while i < PER_BLOCK
          invariant 0 <= i <= PER_BLOCK && buf[..] == disk[block]
          invariant FreeSlot(t, 0) == FreeSlot(t, PER_BLOCK * (block - 1) + i)
        {
          EntryInTable(disk[..], sb, block, i);
          SlotStep(t, PER_BLOCK * (block - 1) + i);
          if EntryAt(buf[..], i).status == 0 {
            return 0, block, i;
          }
          i := i + 1;
        }
        block := block + 1;
      }
      return -1, 0, 0;
    }

    static lemma SlotStep(t: seq<Entry>, i: nat)
      requires i < |t|
      ensures FreeSlot(t, i) == if t[i].status == 0 then i else FreeSlot(t, i + 1)
    {
    }

    // ---- The block map ----

    /** read_block_map_entry */
    method ReadMapEntry(index: nat) returns (ok: bool, next: nat)
      requires Mounted()
      modifies buf
      ensures ok <==> index < |V().fat|
      ensures ok ==> next == V().fat[index] && next < U32
    {
      hide EntryAt, WordAt;
      var mapBlock, mapOffset := index / WORDS, index % WORDS;
      if mapBlock >= sb.mapBlocks {
        return false, 0;
      }
      WordInFat(disk[..], sb, index);
      ReadSector(1 + sb.tableBlocks + mapBlock);
      return true, WordAt(buf[..], mapOffset);
    }

    /** write_block_map_entry */
    method WriteMapEntry(index: nat, next: nat) returns (ok: bool)
      requires Mounted() && next < U32
      modifies buf, disk, this`writes
      ensures Mounted() && (ok <==> index < |old(V().fat)|)
      ensures ok ==> V() == old(V()).(fat := old(V()).fat[index := next]) && writes == old(writes) + [disk[..]]
      ensures !ok ==> V() == old(V()) && writes == old(writes)
    {
      hide EntryAt, VolOf;
      ghost var d := disk[..];
      var mapBlock, mapOffset := index / WORDS, index % WORDS;
      if mapBlock >= sb.mapBlocks {
        return false;
      }
      WordInFat(d, sb, index);
      var sector := 1 + sb.tableBlocks + mapBlock;
      ReadSector(sector);
      SpanWords();
      Store(buf, 4 * mapOffset, 4, next);
      OnlyWord(d[sector], buf[..], mapOffset, next);
      FatWrite(d, sb, index, buf[..], next);
      WriteSector(sector);
      return true;
    }

    /** find_free_blocks; the block list lies in the heap, in the payload of block k. */
    method FindFreeBlocks(count: nat, list: nat, ghost k: nat) returns (code: int)
      requires Mounted() && ListFits(list, count, k) && heap.mem != buf
      modifies buf, heap.mem
      ensures var free := FreeFrom(V().fat, |V().data|, 0, count);
              && (code == 0 || code == -1) && (code == 0 <==> |free| == count)
              && (code == 0 ==> Listed(list, free))
      ensures ListFits(list, count, k)
      ensures KernelHeap.Spares(old(heap.mem[..]), heap.mem[..], KernelHeap.Others(heap.blocks, k), heap.lo, heap.hi)
    {
      hide EntryAt, WordAt, BootSectorOk, SuperblockAt, VolOf, TableOf, FatOf, FreeFrom, FoundBelow, Listed, ListFits,
           KernelHeap.Spares, KernelHeap.Others, KernelHeap.Holds, BlockList.Shaped, BlockList.Coalesced;
      ghost var v, n, m0 := V(), |V().data|, heap.mem[..];
      ghost var done: seq<nat> := [];
      var found := 0;
      var total := sb.blockCount - dataAreaStart;
      OthersUntouched(list, count, k);
      ghost var kept := KernelHeap.Others(heap.blocks, k);
      ListedNone(list);
      FoundNone(v.fat, n, count);
      var i := 0;
      while i < total && found < count
        invariant i <= total && found == |done| <= count && ListFits(list, count, k)
        invariant KernelHeap.Spares(m0, heap.mem[..], kept, heap.lo, heap.hi)
        invariant Listed(list, done) && FoundBelow(v.fat, n, i, count, done)
      {
        ghost var m1 := heap.mem[..];
        FoundStep(v.fat, n, i, count, done);
        found, done := ExamineBlock(i, found, count, list, k, done);
        KernelHeap.SparesTwice(m0, m1, heap.mem[..], kept, heap.lo, heap.hi);
        i := i + 1;
      }
      FoundAll(v.fat, n, i, count, done);
      code := if found == count then 0 else -1;
    }

    /** The loop's body: list block i if its map entry says it is free. */
    method ExamineBlock(i: nat, found: nat, count: nat, list: nat, ghost k: nat, ghost done: seq<nat>)
      returns (found': nat, ghost done': seq<nat>)
      requires Mounted() && i < |V().data| && found == |done| < count && heap.mem != buf
      requires ListFits(list, count, k) && Listed(list, done)
      modifies buf, heap.mem
      ensures ListFits(list, count, k) && Listed(list, done') && found' == |done'| <= count
      ensures i < |V().fat| && done' == if V().fat[i] == FREE then done + [i] else done
      ensures KernelHeap.Spares(old(heap.mem[..]), heap.mem[..], KernelHeap.Others(heap.blocks, k), heap.lo, heap.hi)
    {
      hide EntryAt, WordAt, BootSectorOk, SuperblockAt, VolOf, TableOf, FatOf, Listed, ListFits,
           KernelHeap.Spares, KernelHeap.Others, KernelHeap.Holds, BlockList.Shaped, BlockList.Coalesced;
      OthersUntouched(list, count, k);
      found', done' := found, done;
      var ok, next := ReadMapEntry(i);
      if ok {
        if next == FREE {
          RecordBlock(list, found, i, count, k, done);
          found', done' := found + 1, done + [i];
        }
      }
    }

    /** blocks[found] = i */
    method RecordBlock(list: nat, found: nat, i: nat, ghost count: nat, ghost k: nat, ghost done: seq<nat>)
      requires ListFits(list, count, k) && found == |done| < count && i < U32 && Listed(list, done)
      modifies heap.mem
      ensures ListFits(list, count, k) && Listed(list, done + [i])
      ensures KernelHeap.Spares(old(heap.mem[..]), heap.mem[..], KernelHeap.Others(heap.blocks, k), heap.lo, heap.hi)
    {
      hide KernelHeap.Spares, KernelHeap.Others, KernelHeap.Holds, BlockList.Shaped, BlockList.Coalesced;
      ghost var m := heap.mem[..];
      heap.PutWord(list + 4 * found, i, k);
      ListedMore(m, list, done, i);
    }

    /** Block k of the heap is live and holds count words at list. */
    ghost predicate ListFits(list: nat, count: nat, k: nat)
      reads heap, heap.mem
    {
      && heap.Valid() && heap.heapHead != 0
      && k < |heap.blocks| && !heap.blocks[k].free
      && heap.blocks[k].Payload() == list && 4 * count <= heap.blocks[k].size
    }

    /** The heap holds these block numbers as an array of words. */
    ghost predicate Listed(list: nat, blocks: seq<nat>)
      reads heap, heap.mem
    {
      ListedIn(heap.mem[..], list, blocks)
    }

    lemma OthersUntouched(list: nat, count: nat, k: nat)
      requires ListFits(list, count, k)
      ensures k < |heap.blocks|
      ensures KernelHeap.Spares(heap.mem[..], heap.mem[..], KernelHeap.Others(heap.blocks, k), heap.lo, heap.hi)
    {
      KernelHeap.SparesRefl(heap.mem[..], heap.blocks, KernelHeap.Others(heap.blocks, k), heap.lo, heap.hi);
    }

    lemma ListedNone(list: nat)
      ensures Listed(list, [])
    {
    }

    lemma ListedMore(m: seq<byte>, list: nat, blocks: seq<nat>, b: nat)
      requires ListedIn(m, list, blocks) && list + 4 * |blocks| + 4 <= |m| == heap.mem.Length
      requires forall x | 0 <= x < |m| && !(list + 4 * |blocks| <= x < list + 4 * |blocks| + 4) :: heap.mem[x] == m[x]
      requires heap.Word(list + 4 * |blocks|) == b
      ensures Listed(list, blocks + [b])
    {
      forall j | 0 <= j < |blocks|
        ensures WordIn(heap.mem[..], list, j) == blocks[j]
      {
        assert WordIn(m, list, j) == blocks[j];
        LoadFrame(m, heap.mem[..], list + 4 * j, 4);
      }
      assert WordIn(heap.mem[..], list, |blocks|) == b;
    }

    // ---- Freeing ----

    /** free_block_chain, on the chain of file f; every sector write on the way touches nothing but that file. */
    method FreeBlockChain(start: nat, ghost f: nat)
      requires Mounted() && f < |V().table| && IsLive(V().table[f]) && V().table[f].start == start < |V().data|
      requires IsChain(V().fat, |V().data|, Blocks(V(), f))
      modifies buf, disk, this`writes
      ensures Mounted() && V() == old(V()).(fat := FreeAll(old(V()).fat, Blocks(old(V()), f)))
      ensures old(writes) <= writes
      ensures QuietLog(writes, |old(writes)|, |writes|, sb, disk.Length, old(V()), f)
    {
      hide EntryAt, WordAt, VolOf, Chain, IsChain, FreeAll, QuietLog, Confined, BootSectorOk;
      ghost var v, n, w0 := V(), |V().data|, |writes|;
      ghost var c, k := Blocks(v, f), 0;
      ChainShape(v.fat, n, c);
      ChainHead(v, f);
      FreePart(v.fat, c, 0);
      QuietNone(writes, sb, disk.Length, v, f);
      var current := start;
      while current != EOF
        invariant Mounted() && k <= |c| && current == if k < |c| then c[k] else EOF
        invariant V() == v.(fat := FreeAll(v.fat, c[..k]))
        invariant old(writes) <= writes && QuietLog(writes, w0, |writes|, sb, disk.Length, v, f)
        decreases |c| - k
      {
        ChainStep(v.fat, n, c, k);
        FreePart(v.fat, c, k);
        var ok, next := ReadMapEntry(current);
        if !ok {
          assert false;
        }
        ghost var ws := writes;
        var _ := WriteMapEntry(current, FREE);
        FreeingConfined(v, f, c[..k + 1]);
        QuietMore(ws, w0, sb, disk.Length, v, f, disk[..]);
        current := next;
        k := k + 1;
      }
      ChainEnd(v.fat, n, c, k);
      assert c[..|c|] == c;
    }

    static lemma ChainHead(v: Vol, f: nat)
      requires |v.data| <= |v.fat| && f < |v.table| && v.table[f].start < |v.data|
      ensures Blocks(v, f) != [] && Blocks(v, f)[0] == v.table[f].start
    {
    }

    static lemma ChainStep(fat: seq<nat>, n: nat, c: seq<nat>, k: nat)
      requires n <= |fat| && n <= EOF && IsChain(fat, n, c) && k <= |c|
      ensures k < |c| ==> c[k] < n && fat[c[k]] == if k + 1 < |c| then c[k + 1] else EOF
    {
      if k < |c| { assert LinkOk(fat, n, c, k); }
    }

    static lemma ChainEnd(fat: seq<nat>, n: nat, c: seq<nat>, k: nat)
      requires n <= |fat| && n <= EOF && IsChain(fat, n, c) && k <= |c| && (k < |c| ==> c[k] == EOF)
      ensures k == |c|
    {
      ChainStep(fat, n, c, k);
    }

    static lemma FreePart(fat: seq<nat>, c: seq<nat>, k: nat)
      requires k <= |c| && Ascends(c)
      ensures FreeAll(fat, []) == fat && |FreeAll(fat, c[..k])| == |fat|
      ensures k < |c| && c[k] < |fat| ==>
                && FreeAll(fat, c[..k])[c[k]] == fat[c[k]]
                && FreeAll(fat, c[..k + 1]) == FreeAll(fat, c[..k])[c[k] := FREE]
    {
      if k < |c| && c[k] < |fat| {
        assert c[..k + 1] == c[..k] + [c[k]];
        assert c[k] !in c[..k];
      }
    }

    // ---- Writing ----

    /** Zero the buffer, then copy up to 512 bytes of the data into it. */
    method LoadChunk(data: seq<byte>, i: nat, offset: nat, toCopy: nat)
      requires buf.Length == SECTOR && offset == SECTOR * i && offset + toCopy <= |data| && toCopy <= SECTOR
      requires toCopy == SECTOR || offset + toCopy == |data|
      modifies buf
      ensures buf[..] == Chunk(data, i)
    {
      for j := 0 to SECTOR
        invariant forall x | 0 <= x < j :: buf[x] == 0
      {
        buf[j] := 0;
      }
      for j := 0 to toCopy
        invariant forall x | 0 <= x < SECTOR :: buf[x] == if x < j then data[offset + x] else 0
      {
        buf[j] := data[offset + j];
      }
    }

    /** The loop that writes data blocks and links them, in the order they were listed. */
    method StoreBlocks(data: seq<byte>, list: nat, need: nat, ghost blocks: seq<nat>)
      requires Mounted() && heap.mem != buf && |data| < U32 && need == |blocks| == Need(|data|)
      requires Listed(list, blocks) && Ascends(blocks) && InRange(blocks, |V().data|)
      requires forall j | 0 <= j < |blocks| :: V().fat[blocks[j]] == FREE
      modifies buf, disk, this`writes
      ensures Mounted() && V() == Fill(old(V()), blocks, data, |blocks|)
      ensures old(writes) <= writes
      ensures QuietLog(writes, |old(writes)|, |writes|, sb, disk.Length, old(V()), |old(V()).table|)
    {
      hide EntryAt, WordAt, VolOf, Chunk, NextOf, Confined, Fill, PutBlock, QuietLog, BootSectorOk, SuperblockAt, Listed;
      ghost var v, w0 := V(), |writes|;
      ghost var none := |v.table|;
      QuietNone(writes, sb, disk.Length, v, none);
      FillZero(v, blocks, data);
      var remaining, dataOffset, i := |data|, 0, 0;
      while i < need
        invariant 0 <= i <= need && Mounted() && V() == Fill(v, blocks, data, i)
        invariant dataOffset == (if SECTOR * i <= |data| then SECTOR * i else |data|) && remaining == |data| - dataOffset
        invariant old(writes) <= writes && QuietLog(writes, w0, |writes|, sb, disk.Length, v, none)
      {
        BeforeLast(|data|, i);
        var toCopy := if remaining > SECTOR then SECTOR else remaining;
        LoadChunk(data, i, dataOffset, toCopy);
        StoreBlock(data, list, need, i, blocks, v, w0);
        remaining := remaining - toCopy;
        dataOffset := dataOffset + toCopy;
        i := i + 1;
      }
    }

    /** One round, once the chunk is in the scratch buffer: the data block, then its map entry. */
    method StoreBlock(data: seq<byte>, list: nat, need: nat, i: nat, ghost blocks: seq<nat>, ghost v: Vol, ghost w0: nat)
      requires Mounted() && heap.mem != buf && i < need == |blocks| && buf[..] == Chunk(data, i)
      requires Listed(list, blocks) && Ascends(blocks) && |v.data| <= |v.fat| && InRange(blocks, |v.data|)
      requires forall j | 0 <= j < |blocks| :: v.fat[blocks[j]] == FREE
      requires V() == Fill(v, blocks, data, i) && QuietLog(writes, w0, |writes|, sb, disk.Length, v, |v.table|)
      modifies buf, disk, this`writes
      ensures Mounted() && V() == Fill(v, blocks, data, i + 1) && old(writes) <= writes
      ensures QuietLog(writes, w0, |writes|, sb, disk.Length, v, |v.table|)
    {
      hide EntryAt, WordAt, VolOf, Chunk, NextOf, Confined, Fill, PutBlock, QuietLog, BootSectorOk, SuperblockAt, Listed;
      ghost var none := |v.table|;
      RoundsConfined(v, blocks, data, i);
      RoundsConfined(v, blocks, data, i + 1);
      FillStep(v, blocks, data, i);
      ListedAt(list, blocks, i);
      if i + 1 < need { ListedAt(list, blocks, i + 1); }
      NextIs(blocks, i);
      ghost var ws := writes;
      DataWrite(disk[..], sb, blocks[i], buf[..]);
      WriteSector(dataAreaStart + heap.Word(list + 4 * i));
      QuietMore(ws, w0, sb, disk.Length, v, none, disk[..]);
      var next := if i + 1 < need then heap.Word(list + 4 * (i + 1)) else EOF;
      ghost var ws1 := writes;
      var _ := WriteMapEntry(heap.Word(list + 4 * i), next);
      QuietMore(ws1, w0, sb, disk.Length, v, none, disk[..]);
    }

    lemma ListedAt(list: nat, blocks: seq<nat>, j: nat)
      requires Listed(list, blocks) && j < |blocks|
      ensures list + 4 * j + 4 <= heap.mem.Length && heap.Word(list + 4 * j) == blocks[j]
    {
      assert WordIn(heap.mem[..], list, j) == blocks[j];
    }

    static lemma FillZero(v: Vol, blocks: seq<nat>, data: seq<byte>)
      requires InRange(blocks, |v.data|) && |v.data| <= |v.fat|
      ensures Fill(v, blocks, data, 0) == v
    {
    }

    /** One round is a data write, then a map write. */
    static lemma FillStep(v: Vol, blocks: seq<nat>, data: seq<byte>, i: nat)
      requires InRange(blocks, |v.data|) && |v.data| <= |v.fat| && i < |blocks|
      ensures blocks[i] < |v.data|
      ensures var w := Fill(v, blocks, data, i);
              Fill(v, blocks, data, i + 1)
              == w.(data := w.data[blocks[i] := Chunk(data, i)], fat := w.fat[blocks[i] := NextOf(blocks, i)])
    {
    }

    static lemma NextIs(blocks: seq<nat>, i: nat)
      requires i < |blocks|
      ensures NextOf(blocks, i) == if i + 1 < |blocks| then blocks[i + 1] else EOF
    {
    }

    /** Every block but the last is full. */
    static lemma BeforeLast(size: nat, i: nat)
      requires i < Need(size) && size < U32
      ensures SECTOR * i <= size && (i + 1 < Need(size) ==> SECTOR * (i + 1) <= size)
      ensures SECTOR * i + SECTOR >= size || i + 1 < Need(size) || size > U32 - 512
    {
    }

    /** Read, modify and write the table sector of an entry. */
    method PublishFile(block: nat, offset: nat, name: seq<byte>, size: nat, start: nat)
      requires Mounted() && 1 <= block < 1 + sb.tableBlocks && offset < PER_BLOCK && cwd < U32
      requires 0 !in name && |name| <= 29 && size < U32 && start < U32
      modifies buf, disk, this`writes
      ensures Mounted() && writes == old(writes) + [disk[..]]
      ensures var i, v := PER_BLOCK * (block - 1) + offset, old(V());
              i < |v.table| && V() == v.(table := v.table[i := FileEntry(v.table[i], name, size, start, cwd)])
    {
      hide EntryAt, WordAt, VolOf, FileEntry, Elsewhere;
      ghost var d := disk[..];
      ReadSector(block);
      EntryInTable(d, sb, block, offset);
      PutFileEntry(buf, offset, name, size, start, cwd);
      OnlyEntry(d[block], buf[..], offset);
      TableWrite(d, sb, block, buf[..], offset, EntryAt(buf[..], offset));
      WriteSector(block);
    }

    /** What a call may do to the heap: the block list comes back as it was, and no live payload changes. */
    twostate predicate HeapIntact()
      reads heap, heap.mem
    {
      && old(heap.Valid()) && heap.Valid() && heap.Boot() == old(heap.Boot())
      && KernelHeap.Spares(old(heap.mem[..]), heap.mem[..], BlockList.Live(old(heap.blocks)), heap.lo, heap.hi)
    }

    /** write_file from the size computation on: the file takes the given table slot. */
    method PlaceFile(block: nat, offset: nat, name: seq<byte>, data: seq<byte>) returns (code: int)
      requires Mounted() && 1 <= block < 1 + sb.tableBlocks && offset < PER_BLOCK && cwd < U32
      requires 0 !in name && |name| <= 29 && |data| < U32
      requires heap.Valid() && heap.mem != buf
      modifies buf, disk, this`writes, heap, heap.mem
      ensures Mounted() && HeapIntact() && old(writes) <= writes
      ensures var v, slot := old(V()), PER_BLOCK * (block - 1) + offset;
              && slot < |v.table| && |v.data| <= |v.fat|
              && if Granted(old(heap.Boot()), |data|) && HasRoom(v, |data|) then
                   && code == 0 && V() == Created(v, slot, cwd, name, data)
                   && |old(writes)| < |writes| && writes[|writes| - 1] == disk[..]
                   && QuietLog(writes, |old(writes)|, |writes| - 1, sb, disk.Length, v, |v.table|)
                 else code == -1 && disk[..] == old(disk[..]) && writes == old(writes)
    {
      hide EntryAt, WordAt, VolOf, BootSectorOk, SuperblockAt, Fill, Created, HasRoom, QuietLog, FileEntry,
           KernelHeap.Spares, KernelHeap.Others, BlockList.Live, KernelHeap.Holds, BlockList.Shaped, BlockList.Coalesced,
           HeapLaws.Malloc, HeapLaws.Free, Listed, FreeFrom;
      ghost var v, bs, m0 := V(), heap.Boot(), heap.mem[..];
      heap.BootLive(heap.blocks, heap.lo, heap.hi);
      var need := (|data| + 511) % U32 / SECTOR;
      if need == 0 {
        need := 1;
      }
      var list := heap.KMalloc(4 * need);
      ghost var ms, m1 := heap.blocks, heap.mem[..];
      KernelHeap.SparesFewer(m0, m1, BlockList.Live(bs), BlockList.Live(old(heap.blocks)), heap.lo, heap.hi);
      if list == 0 {
        NothingTaken(bs, heap.lo, heap.hi, 4 * need);
        return -1;
      }
      ghost var k := heap.ServedAt(bs, ms, list, 4 * need);
      code := StoreFile(block, offset, name, data, need, list, k);
      ghost var m2 := heap.mem[..];
      KernelHeap.SparesFewer(m1, m2, KernelHeap.Others(ms, k), BlockList.Live(old(heap.blocks)), heap.lo, heap.hi);
      KernelHeap.SparesTwice(m0, m1, m2, BlockList.Live(old(heap.blocks)), heap.lo, heap.hi);
      ReturnsHome(bs, ms, heap.lo, heap.hi, list, 4 * need);
      heap.KFree(list);
      KernelHeap.SparesFewer(m2, heap.mem[..], KernelHeap.Elements(ms), BlockList.Live(old(heap.blocks)), heap.lo, heap.hi);
      KernelHeap.SparesTwice(m0, m2, heap.mem[..], BlockList.Live(old(heap.blocks)), heap.lo, heap.hi);
    }

    /** What happens between kmalloc and kfree: list free blocks, store, publish. */
    method StoreFile(block: nat, offset: nat, name: seq<byte>, data: seq<byte>, need: nat, list: nat, ghost k: nat)
      returns (code: int)
      requires Mounted() && 1 <= block < 1 + sb.tableBlocks && offset < PER_BLOCK && cwd < U32
      requires 0 !in name && |name| <= 29 && |data| < U32 && need == Need(|data|)
      requires ListFits(list, need, k) && heap.mem != buf
      modifies buf, disk, this`writes, heap.mem
      ensures Mounted() && ListFits(list, need, k) && old(writes) <= writes
      ensures KernelHeap.Spares(old(heap.mem[..]), heap.mem[..], KernelHeap.Others(heap.blocks, k), heap.lo, heap.hi)
      ensures var v, slot := old(V()), PER_BLOCK * (block - 1) + offset;
              && slot < |v.table| && |v.data| <= |v.fat|
              && if HasRoom(v, |data|) then
                   && code == 0 && V() == Created(v, slot, cwd, name, data)
                   && |old(writes)| < |writes| && writes[|writes| - 1] == disk[..]
                   && QuietLog(writes, |old(writes)|, |writes| - 1, sb, disk.Length, v, |v.table|)
                 else code == -1 && disk[..] == old(disk[..]) && writes == old(writes)
    {
      hide EntryAt, WordAt, VolOf, Fill, QuietLog, FileEntry, KernelHeap.Spares, KernelHeap.Others, ListFits, Listed, FreeFrom;
      ghost var v := V();
      EntryInTable(disk[..], sb, block, offset);
      code := FindFreeBlocks(need, list, k);
      if code == 0 {
        ghost var blocks := FreshBlocks(v, |data|);
        FreshAre(v, |data|);
        StoreBlocks(data, list, need, blocks);
        ListedAt(list, blocks, 0);
        ghost var ws := writes;
        PublishFile(block, offset, name, |data|, heap.Word(list));
        QuietGrows(ws, |old(writes)|, |ws|, sb, disk.Length, v, |v.table|, disk[..]);
      }
    }

    // ---- Paths ----

    /** split_path */
    method SplitPath(path: seq<byte>) returns (components: seq<seq<byte>>)
      ensures components == Components(path)
    {
      hide Parts, Keep;
      components := [];
      var len, start := |path|, 0;
      if len > 0 && path[0] == SLASH {
        start := 1;
        LeadingSlash(path);
      }
      assert path[0..] == path;
      var i := start;
      while i <= len && |components| < MAX_PARTS
        invariant start <= i <= len + 1
        invariant start <= len ==> i <= len && SLASH !in path[start..i]
                                   && Components(path) == First(components + Keep(Parts(path[start..])), MAX_PARTS)
        invariant start > len ==> Components(path) == First(components, MAX_PARTS)
        invariant |components| <= MAX_PARTS
      {
        if i == len || path[i] == SLASH {
          var compLen := i - start;
          NextPart(path, start, i);
          if compLen > 0 && compLen < 31 {
            components := components + [path[start..i]];
          }
          start := i + 1;
        }
        i := i + 1;
      }
    }

    static lemma LeadingSlash(path: seq<byte>)
      requires path != [] && path[0] == SLASH
      ensures Components(path) == First(Keep(Parts(path[1..])), MAX_PARTS)
    {
      hide Keep;
      var none: seq<byte> := [];
      PartsAfter(none, path[1..]);
      assert path == none + [SLASH] + path[1..];
      assert ([none] + Parts(path[1..]))[1..] == Parts(path[1..]);
      KeepOne(none, Parts(path[1..]));
    }

    static lemma KeepOne(c: seq<byte>, rest: seq<seq<byte>>)
      ensures Keep([c] + rest) == (if 0 < |c| < 31 then [c] else []) + Keep(rest)
    {
      assert ([c] + rest)[1..] == rest;
    }

    /** The piece that ends at position i, at a slash or at the end. */
    static lemma NextPart(path: seq<byte>, start: nat, i: nat)
      requires start <= i <= |path| && SLASH !in path[start..i] && (i < |path| ==> path[i] == SLASH)
      ensures var c := path[start..i];
              && (i < |path| ==> Keep(Parts(path[start..]))
                                 == (if 0 < |c| < 31 then [c] else []) + Keep(Parts(path[i + 1..])))
              && (i == |path| ==> Keep(Parts(path[start..])) == if 0 < |c| < 31 then [c] else [])
    {
      hide Keep, Parts;
      var c := path[start..i];
      if i < |path| {
        assert path[start..] == c + [SLASH] + path[i + 1..];
        PartsAfter(c, path[i + 1..]);
        KeepOne(c, Parts(path[i + 1..]));
      } else {
        assert path[start..] == c;
        PartsAfter(c, []);
        KeepOne(c, []);
        KeepNone();
        assert [c] + [] == [c];
      }
    }

    static lemma KeepNone()
      ensures Keep([]) == []
    {
    }

    /** What path lookup hands back for a target. */
    ghost predicate Hit(target: Option<Target>, found: bool, entry: Entry, block: nat, offset: nat)
      requires Mounted()
      reads this, disk
    {
      match target
      case None => !found
      case Some(Slot(i)) =>
        && found && i < |V().table| && entry == V().table[i]
        && 1 <= block < 1 + sb.tableBlocks && offset < PER_BLOCK && i == PER_BLOCK * (block - 1) + offset
      case Some(BootSector) => found && block == 0 && offset == 0 && entry == EntryAt(disk[0], 0)
    }

    /** resolve_path */
    method ResolvePath(path: seq<byte>) returns (found: bool, entry: Entry, block: nat, offset: nat)
      requires Mounted() && TableOk(V().table) && 0 !in path
      modifies buf
      ensures Hit(Resolve(V().table, cwd, path), found, entry, block, offset)
    {
      hide EntryAt, VolOf, Walk, Find, Components, TableOk, SuperblockAt;
      ghost var t := V().table;
      var components := SplitPath(path);
      ComponentsClean(path);
      var currentDir: nat := if path != [] && path[0] == SLASH then sb.rootDir else cwd;
      if |components| == 0 && path != [] && path[0] == SLASH {
        ReadSector(sb.rootDir);
        return true, EntryAt(buf[..], 0), sb.rootDir, 0;
      }
      found, entry, block, offset := false, EntryAt(buf[..], 0), 0, 0;
      ghost var start := currentDir;
      WalkStop(t, start, components);
      assert components[0..] == components;
      var i := 0;
      while i < |components|
        invariant 0 <= i <= |components| && Walk(t, start, components) == Walk(t, currentDir, components[i..])
        invariant i == |components| ==> Walk(t, start, components) == None
        invariant !found
      {
        WalkStep(t, currentDir, components[i..]);
        assert components[i..][1..] == components[i + 1..];
        assert 0 !in components[i];
        found, entry, block, offset := FindInDirectory(currentDir, components[i]);
        if !found {
          return;
        }
        if i == |components| - 1 {
          return;
        }
        if entry.kind != TYPE_DIR {
          return false, entry, block, offset;
        }
        currentDir := (block - 1) * PER_BLOCK + offset;
        found := false;
        i := i + 1;
      }
    }

    static lemma WalkStop(t: seq<Entry>, dir: nat, cs: seq<seq<byte>>)
      ensures cs == [] ==> Walk(t, dir, cs) == None
    {
    }

    static lemma WalkStep(t: seq<Entry>, dir: nat, cs: seq<seq<byte>>)
      requires cs != []
      ensures var f := Find(t, dir, cs[0], 0);
              && f <= |t|
              && Walk(t, dir, cs) == if f == |t| then None
                                     else if |cs| == 1 then Some(f)
                                     else if t[f].kind != TYPE_DIR then None
                                     else Walk(t, f, cs[1..])
    {
    }

    static lemma ComponentsClean(path: seq<byte>)
      requires 0 !in path
      ensures forall k | 0 <= k < |Components(path)| :: 0 !in Components(path)[k]
    {
      PartsClean(path);
      KeepClean(Parts(path));
    }

    static lemma {:induction false} PartsClean(path: seq<byte>)
      requires 0 !in path
      ensures forall k | 0 <= k < |Parts(path)| :: 0 !in Parts(path)[k]
      decreases |path|
    {
      var k := SlashAt(path);
      if k < |path| {
        PartsClean(path[k + 1..]);
      }
    }

    static lemma {:induction false} KeepClean(cs: seq<seq<byte>>)
      requires forall k | 0 <= k < |cs| :: 0 !in cs[k]
      ensures forall k | 0 <= k < |Keep(cs)| :: 0 !in Keep(cs)[k]
    {
      if cs != [] {
        KeepClean(cs[1..]);
      }
    }

    /** find_file */
    method FindFileEntry(path: seq<byte>) returns (found: bool, entry: Entry, block: nat, offset: nat)
      requires Mounted() && TableOk(V().table) && 0 !in path
      modifies buf
      ensures Hit(FindFile(V().table, cwd, path), found, entry, block, offset)
    {
      hide EntryAt, VolOf, Resolve, Find, TableOk, SuperblockAt;
      var slash := HasSlash(path);
      if slash {
        found, entry, block, offset := ResolvePath(path);
      } else {
        found, entry, block, offset := FindInDirectory(cwd, path);
      }
    }

    // ---- The calls ----

    /** write_file, on a name without a slash. A create is published by its last sector write; an overwrite touches
        nothing but its own file from the first write to the last. */
    method WriteNamed(name: seq<byte>, data: seq<byte>) returns (code: int)
      requires Ready() && heap.Valid() && heap.mem != buf
      requires GoodName(name) && |data| < U32 && NoDirThere(V(), cwd, name)
      modifies buf, disk, this`writes, heap, heap.mem
      ensures Mounted() && HeapIntact() && old(writes) <= writes
      ensures var v, f := old(V()), Find(old(V()).table, cwd, name, 0);
              && |v.data| <= |v.fat|
              && Answer(V(), code) == WriteFile(v, cwd, name, data, Granted(old(heap.Boot()), |data|))
              && (f == |v.table| && code != 0 ==> disk[..] == old(disk[..]) && writes == old(writes))
              && (f == |v.table| && code == 0 ==> |old(writes)| < |writes| && writes[|writes| - 1] == disk[..])
              && QuietLog(writes, |old(writes)|, if f == |v.table| && code == 0 then |writes| - 1 else |writes|, sb,
                          disk.Length, v, f)
              && (Ready() <==> f == |v.table| || code == 0)
    {
      hide EntryAt, VolOf, Created, HasRoom, Granted, QuietLog, Sane, ValidCwd, Find, FreeAll, Blocks, Confined,
           KernelHeap.Spares, KernelHeap.Holds, BlockList.Shaped, BlockList.Coalesced, BlockList.Live, BootSectorOk,
           SuperblockAt;
      ghost var v, booted := V(), heap.Boot();
      CwdSmall(v, cwd);
      var found, entry, block, offset := FindFileEntry(name);
      var slash := HasSlash(name);
      if found {
        code := Overwrite(entry.start, block, offset, name, data);
      } else {
        code, block, offset := FindFreeFileEntry();
        if code != 0 {
          if code == -2 {
            assert false;
          }
          SameHeap();
          QuietNone(writes, sb, disk.Length, v, |v.table|);
          StillReady(v, name, data, code, Granted(booted, |data|));
          return -1;
        }
        code := PlaceFile(block, offset, name, data);
        if code != 0 {
          QuietNone(writes, sb, disk.Length, v, |v.table|);
        }
      }
      StillReady(v, name, data, code, Granted(booted, |data|));
    }

    /** write_file's steps for a name that exists. */
    method Overwrite(start: nat, block: nat, offset: nat, name: seq<byte>, data: seq<byte>) returns (code: int)
      requires Ready() && heap.Valid() && heap.mem != buf && 1 <= block < 1 + sb.tableBlocks && offset < PER_BLOCK
      requires GoodName(name) && |data| < U32 && NoDirThere(V(), cwd, name)
      requires Find(V().table, cwd, name, 0) == PER_BLOCK * (block - 1) + offset < |V().table|
      requires start == V().table[PER_BLOCK * (block - 1) + offset].start
      modifies buf, disk, this`writes, heap, heap.mem
      ensures Mounted() && HeapIntact() && old(writes) <= writes
      ensures var v, f := old(V()), PER_BLOCK * (block - 1) + offset;
              var u := v.(fat := FreeAll(v.fat, Blocks(v, f)));
              && (if Granted(old(heap.Boot()), |data|) && HasRoom(u, |data|) then
                    code == 0 && V() == Created(u, f, cwd, name, data)
                  else code == -1 && V() == u)
              && QuietLog(writes, |old(writes)|, |writes|, sb, disk.Length, v, f)
    {
      hide EntryAt, VolOf, Created, HasRoom, Granted, QuietLog, Sane, ValidCwd, FreeAll, Blocks, Confined,
           KernelHeap.Spares, KernelHeap.Holds, BlockList.Shaped, BlockList.Coalesced, BlockList.Live, BootSectorOk,
           SuperblockAt;
      ghost var v, f := V(), PER_BLOCK * (block - 1) + offset;
      CwdSmall(v, cwd);
      FileChain(v, f, cwd, name);
      FreeBlockChain(start, f);
      ghost var ws1 := writes;
      code := PlaceFile(block, offset, name, data);
      Overwritten(v, f, name, data, code, ws1, |old(writes)|);
    }

    /** The volume after write_file is sane, and the file system ready for the next call, unless an overwrite failed. */
    lemma StillReady(v: Vol, name: seq<byte>, data: seq<byte>, code: int, granted: bool)
      requires Mounted() && Sane(v) && ValidCwd(v, cwd) && GoodName(name) && NoDirThere(v, cwd, name)
      requires |v.data| <= |v.fat| && Answer(V(), code) == WriteFile(v, cwd, name, data, granted)
      ensures Ready() <==> Find(v.table, cwd, name, 0) == |v.table| || code == 0
    {
      hide Sane, HasRoom, Deleted, Created, VolOf, FreeAll, ValidCwd;
      WriteKeepsInv(v, cwd, name, data, granted);
      var f := Find(v.table, cwd, name, 0);
      if f < |v.table| {
        OverwriteIs(v, f, cwd, name, data);
      }
      if code == 0 {
        WriteMeaning(v, cwd, name, data, granted, cwd, name);
      }
    }

    /** The log of an overwrite: freeing, then storing, then the entry. */
    lemma Overwritten(v: Vol, f: nat, name: seq<byte>, data: seq<byte>, code: int, ws1: seq<seq<Sector>>, from: nat)
      requires Mounted() && |v.data| <= |v.fat| && f < |v.table| && IsLive(v.table[f]) && GoodName(name)
      requires v.table[f].parent == cwd && NameOf(v.table[f]) == name
      requires QuietLog(ws1, from, |ws1|, sb, disk.Length, v, f) && ws1 <= writes
      requires var u := v.(fat := FreeAll(v.fat, Blocks(v, f)));
               if code == 0 then
                 && HasRoom(u, |data|) && V() == Created(u, f, cwd, name, data)
                 && |ws1| < |writes| && writes[|writes| - 1] == disk[..]
                 && QuietLog(writes, |ws1|, |writes| - 1, sb, disk.Length, u, |u.table|)
               else writes == ws1
      ensures QuietLog(writes, from, |writes|, sb, disk.Length, v, f)
    {
      hide VolOf, Blocks, FreeAll, Created, HasRoom, Confined, BootSectorOk;
      if code == 0 {
        var last := |writes| - 1;
        QuietOverwrite(ws1, writes, from, last, sb, disk.Length, v, f);
        OverwriteConfined(v, f, cwd, name, data);
        assert Snapshot(writes[last], sb, disk.Length, v, f);
      }
    }

    lemma CwdSmall(v: Vol, cwd: nat)
      requires Sane(v) && ValidCwd(v, cwd)
      ensures cwd < U32
    {
    }

    /** The file found under the name has a chain to free. */
    lemma FileChain(v: Vol, f: nat, cwd: nat, name: seq<byte>)
      requires Sane(v) && NoDirThere(v, cwd, name) && f < |v.table| && Find(v.table, cwd, name, 0) == f
      ensures |v.data| <= |v.fat| && v.table[f].start < |v.data|
      ensures Blocks(v, f) == Chain(v.fat, |v.data|, v.table[f].start) && IsChain(v.fat, |v.data|, Blocks(v, f))
    {
      TwoKinds(v.table, f);
      assert Owns(v, f);
    }

    lemma SameHeap()
      requires heap.Valid()
      ensures KernelHeap.Spares(heap.mem[..], heap.mem[..], BlockList.Live(heap.blocks), heap.lo, heap.hi)
    {
      KernelHeap.SparesLive(heap.mem[..], heap.blocks, heap.lo, heap.hi);
    }

    /** Read, modify and write a table sector: the entry's status becomes 0. */
    method ClearEntry(block: nat, offset: nat)
      requires Mounted() && 1 <= block < 1 + sb.tableBlocks && offset < PER_BLOCK
      modifies buf, disk, this`writes
      ensures Mounted() && writes == old(writes) + [disk[..]]
      ensures var i, v := PER_BLOCK * (block - 1) + offset, old(V());
              i < |v.table| && V() == v.(table := ClearStatus(v.table, i))
    {
      hide EntryAt, WordAt, VolOf, BootSectorOk;
      ghost var d := disk[..];
      ReadSector(block);
      EntryInTable(d, sb, block, offset);
      buf[ENTRY * offset] := 0;
      ClearedEntry(d[block], buf[..], offset);
      OnlyEntry(d[block], buf[..], offset);
      TableWrite(d, sb, block, buf[..], offset, EntryAt(buf[..], offset));
      WriteSector(block);
    }

    /** delete_file; every sector write touches nothing but the file deleted. */
    method DeleteFile(path: seq<byte>) returns (code: int)
      requires Ready() && 0 !in path && Allowed(State(V(), cwd), DeleteCall(path))
      modifies buf, disk, this`writes
      ensures Ready() && old(writes) <= writes
      ensures Reply(State(V(), cwd), code) == Exec(State(old(V()), cwd), DeleteCall(path))
      ensures match FindFile(old(V()).table, cwd, path)
              case Some(Slot(f)) => QuietLog(writes, |old(writes)|, |writes|, sb, disk.Length, old(V()), f)
              case _ => disk[..] == old(disk[..]) && writes == old(writes)
    {
      hide EntryAt, VolOf, Sane, ValidCwd, FindFile, Blocks, FreeAll, BootSectorOk, SuperblockAt, QuietLog, Confined;
      ghost var v := V();
      var found, entry, block, offset := FindFileEntry(path);
      if !found {
        return -1;
      }
      ghost var f := PER_BLOCK * (block - 1) + offset;
      LiveFileChain(v, f);
      FreeBlockChain(entry.start, f);
      ghost var ws := writes;
      ClearEntry(block, offset);
      DeletedConfined(v, f);
      QuietMore(ws, |old(writes)|, sb, disk.Length, v, f, disk[..]);
      DeletedSane(v, f);
      DeletedDirs(v, f, cwd);
      return 0;
    }

    lemma LiveFileChain(v: Vol, f: nat)
      requires Sane(v) && f < |v.table| && IsFile(v.table[f])
      ensures |v.data| <= |v.fat| && v.table[f].start < |v.data|
      ensures Blocks(v, f) == Chain(v.fat, |v.data|, v.table[f].start) && IsChain(v.fat, |v.data|, Blocks(v, f))
    {
      assert Owns(v, f);
    }

    /** mkdir, on a name without a slash */
    method MkDirNamed(name: seq<byte>) returns (code: int)
      requires Ready() && Allowed(State(V(), cwd), MkDirCall(name))
      modifies buf, disk, this`writes
      ensures Ready()
      ensures Reply(State(V(), cwd), code) == Exec(State(old(V()), cwd), MkDirCall(name))
      ensures code == 0 ==> writes == old(writes) + [disk[..]]
      ensures code != 0 ==> disk[..] == old(disk[..]) && writes == old(writes)
    {
      hide EntryAt, WordAt, VolOf, Sane, ValidCwd, Find, DirEntry, Elsewhere, BootSectorOk, SuperblockAt;
      ghost var v, d := V(), disk[..];
      CwdSmall(v, cwd);
      NamesFit(v, cwd, name);
      var found, entry, block, offset := FindInDirectory(cwd, name);
      if found {
        return -1;
      }
      var slotCode;
      slotCode, block, offset := FindFreeFileEntry();
      if slotCode != 0 {
        return -1;
      }
      ReadSector(block);
      EntryInTable(d, sb, block, offset);
      PutDirEntry(buf, offset, name, cwd);
      OnlyEntry(d[block], buf[..], offset);
      TableWrite(d, sb, block, buf[..], offset, EntryAt(buf[..], offset));
      WriteSector(block);
      return 0;
    }

    lemma NamesFit(v: Vol, cwd: nat, name: seq<byte>)
      requires Sane(v) && ValidCwd(v, cwd) && GoodName(name)
      ensures 0 !in name && |name| <= 29 && forall i | 0 <= i < |v.table| :: |v.table[i].name| == NAME
      ensures Sane(MkDir(v, cwd, name).vol) && ValidCwd(MkDir(v, cwd, name).vol, cwd)
    {
      MkDirMeaning(v, cwd, name, 0, []);
    }

    /** chdir */
    method ChangeDir(path: seq<byte>) returns (code: int)
      requires Ready() && 0 !in path
      modifies buf, this`cwd
      ensures Ready()
      ensures Reply(State(V(), cwd), code) == Exec(State(old(V()), old(cwd)), ChDirCall(path))
      ensures Resolve(old(V()).table, old(cwd), path) == Some(BootSector) ==> code == -1
    {
      hide EntryAt, VolOf, TableOk, Acyclic, FilesOk, SuperblockAt;
      assert EntryAt(disk[0], 0).kind != TYPE_DIR by {
        BootIsNoDirectory(disk[0], sb);
      }
      var found, entry, block, offset := ResolvePath(path);
      if !found {
        return -1;
      }
      TargetLive(V().table, cwd, path);
      if entry.kind != TYPE_DIR {
        return -1;
      }
      cwd := (block - 1) * PER_BLOCK + offset;
      return 0;
    }

    static lemma TargetLive(t: seq<Entry>, cwd: nat, path: seq<byte>)
      ensures match Resolve(t, cwd, path)
              case Some(Slot(i)) => i < |t| && IsLive(t[i])
              case _ => true
      ensures match FindFile(t, cwd, path)
              case Some(Slot(i)) => i < |t| && IsLive(t[i])
              case _ => true
    {
    }

    // ---- Reading ----

    /** read_file */
    method ReadFile(path: seq<byte>, buffer: array<byte>, bufferSize: nat) returns (code: int, bytesRead: nat)
      requires Ready() && 0 !in path && buffer != buf && bufferSize <= buffer.Length
      modifies buf, buffer
      ensures |V().data| <= |V().fat|
      ensures match FindFile(V().table, cwd, path)
              case None => code == -1 && bytesRead == 0 && buffer[..] == old(buffer[..])
              case Some(BootSector) => code == 0 && bytesRead == 0 && buffer[..] == old(buffer[..])
              case Some(Slot(i)) =>
                && code == 0 && i < |V().table|
                && if IsDir(V().table[i]) then bytesRead == 0 && buffer[..] == old(buffer[..])
                   else var c := Content(V(), i);
                     && bytesRead == (if |c| <= bufferSize then |c| else bufferSize)
                     && Filled(buffer[..], old(buffer[..]), c, bytesRead)
    {
      hide EntryAt, VolOf, TableOk, Acyclic, FilesOk, FindFile, Content, BootSectorOk, SuperblockAt, Blocks, Filled;
      ghost var v, before := V(), buffer[..];
      var found, entry, block, offset := FindFileEntry(path);
      TargetLive(v.table, cwd, path);
      bytesRead := 0;
      if !found {
        return -1, 0;
      }
      ghost var target := FindFile(v.table, cwd, path);
      TargetSize(v, target, disk[0], sb);
      ghost var i := match target case Some(Slot(index)) => index case _ => 0;
      if i < |v.table| { FilledNone(before, Content(v, i)); }
      bytesRead := CopyChain(entry.size, entry.start, buffer, bufferSize, i);
      return 0, bytesRead;
    }

    /** Directories, and sector 0 read as an entry, have size 0; files own their chain. */
    lemma TargetSize(v: Vol, target: Option<Target>, boot: Sector, sb: Superblock)
      requires Sane(v) && BootSectorOk(boot, sb)
      ensures |v.data| <= |v.fat|
      ensures match target
              case Some(Slot(i)) => i < |v.table| && IsLive(v.table[i]) ==>
                                      || (IsFile(v.table[i]) && Owns(v, i) && |Content(v, i)| <= v.table[i].size)
                                      || (IsDir(v.table[i]) && v.table[i].size == 0)
              case Some(BootSector) => EntryAt(boot, 0).size == 0
              case None => true
    {
      match target {
        case Some(Slot(i)) =>
          if i < |v.table| && IsLive(v.table[i]) {
            TwoKinds(v.table, i);
            assert EntryOk(v.table, i);
            if IsFile(v.table[i]) { assert Owns(v, i); }
          }
        case _ =>
      }
    }

    /** read_file's loop: block by block along the chain, until size or buffer is used up. */
    method CopyChain(size: nat, start: nat, buffer: array<byte>, bufferSize: nat, ghost i: nat) returns (copied: nat)
      requires Mounted() && buffer != buf && bufferSize <= buffer.Length && |V().data| <= |V().fat|
      requires size == 0 || (i < |V().table| && size == V().table[i].size && start == V().table[i].start && Owns(V(), i))
      modifies buf, buffer
      ensures size == 0 ==> copied == 0 && buffer[..] == old(buffer[..])
      ensures size > 0 ==> var c := Content(V(), i);
                           && copied == (if |c| <= bufferSize then |c| else bufferSize)
                           && Filled(buffer[..], old(buffer[..]), c, copied)
    {
      hide EntryAt, WordAt, VolOf, Content, IsChain, Chain, Need, BootSectorOk, SuperblockAt, Filled, Blocks;
      ghost var v, before := V(), buffer[..];
      copied := 0;
      if size == 0 {
        return;
      }
      ghost var c, content, k := Blocks(v, i), Content(v, i), 0;
      ContentSize(v, i);
      ChainStep(v.fat, |v.data|, c, 0);
      FilledNone(before, content);
      var remaining, current := size, start;
      while remaining > 0 && current != EOF && copied < bufferSize
        invariant copied + remaining == size && copied <= bufferSize && copied <= |content|
        invariant remaining > 0 && copied < bufferSize ==>
                    copied == SECTOR * k && k <= |c| && current == if k < |c| then c[k] else EOF
        invariant Filled(buffer[..], before, content, copied)
        decreases remaining
      {
        ChainStep(v.fat, |v.data|, c, k);
        var toCopy := remaining;
        if toCopy > SECTOR {
          toCopy := SECTOR;
        }
        if copied + toCopy > bufferSize {
          toCopy := bufferSize - copied;
        }
        CopyBlock(current, copied, toCopy, buffer, before, i, k);
        copied := copied + toCopy;
        remaining := remaining - toCopy;
        if remaining > 0 {
          var ok, next := ReadMapEntry(current);
          if !ok {
            assert false;
          }
          current := next;
        }
        k := k + 1;
      }
      if remaining > 0 && copied < bufferSize {
        ChainEnd(v.fat, |v.data|, c, k);
      }
    }

    /** One block of the file: sector into the scratch buffer, bytes on to the caller's. */
    method CopyBlock(block: nat, at: nat, n: nat, buffer: array<byte>, ghost before: seq<byte>, ghost i: nat,
                     ghost k: nat)
      requires Mounted() && buffer != buf && |V().data| <= |V().fat| && i < |V().table|
      requires k < |Blocks(V(), i)| && Blocks(V(), i)[k] == block < |V().data| && at == SECTOR * k && n <= SECTOR
      requires at + n <= |Content(V(), i)| && at + n <= buffer.Length && Filled(buffer[..], before, Content(V(), i), at)
      modifies buf, buffer
      ensures Filled(buffer[..], before, Content(V(), i), at + n)
    {
      hide EntryAt, WordAt, VolOf, Content, Chain, Need, BootSectorOk, SuperblockAt, Blocks;
      ghost var v, content := V(), Content(V(), i);
      BlockOnDisk(disk[..], sb, block);
      ReadSector(dataAreaStart + block);
      CopyOut(buffer, at, n);
      forall x | at <= x < at + n
        ensures buffer[x] == content[x]
      {
        ContentByte(v, i, x, k, x - at);
      }
    }

    static lemma FilledNone(before: seq<byte>, content: seq<byte>)
      ensures Filled(before, before, content, 0)
    {
    }

    /** The inner loop: bytes of the scratch buffer, to the caller's. */
    method CopyOut(buffer: array<byte>, at: nat, n: nat)
      requires buf.Length == SECTOR && buffer != buf && n <= SECTOR && at + n <= buffer.Length
      modifies buffer
      ensures forall x | 0 <= x < buffer.Length :: buffer[x] == if at <= x < at + n then buf[x - at] else old(buffer[x])
    {
      for j := 0 to n
        invariant forall x | 0 <= x < buffer.Length :: buffer[x] == if at <= x < at + j then buf[x - at] else old(buffer[x])
      {
        buffer[at + j] := buf[j];
      }
    }

    static lemma ContentSize(v: Vol, i: nat)
      requires |v.data| <= |v.fat| && i < |v.table| && Owns(v, i)
      ensures |Content(v, i)| == if v.table[i].size < SECTOR * |Blocks(v, i)| then v.table[i].size
                                 else SECTOR * |Blocks(v, i)|
      ensures IsChain(v.fat, |v.data|, Blocks(v, i)) && Blocks(v, i) != [] && Blocks(v, i)[0] == v.table[i].start
    {
    }

    static lemma ContentByte(v: Vol, i: nat, x: nat, k: nat, j: nat)
      requires |v.data| <= |v.fat| && i < |v.table| && x < |Content(v, i)| && x == SECTOR * k + j && j < SECTOR
      requires k < |Blocks(v, i)| && Blocks(v, i)[k] < |v.data|
      ensures Content(v, i)[x] == v.data[Blocks(v, i)[k]][j]
    {
      hide Blocks;
      assert x / SECTOR == k && x % SECTOR == j;
    }

    static lemma BlockOnDisk(d: seq<Sector>, sb: Superblock, b: nat)
      requires GeometryOk(sb, |d|) && b < |VolOf(d, sb).data|
      ensures DataStart(sb) + b < |d| && d[DataStart(sb) + b] == VolOf(d, sb).data[b]
    {
    }

    // ---- The current path ----

    /** read_entry_by_index */
    method ReadEntryByIndex(index: nat) returns (ok: bool, entry: Entry)
      requires Mounted() && (index < sb.totalFiles ==> index < |V().table|)
      modifies buf
      ensures ok <==> index < sb.totalFiles
      ensures ok ==> entry == V().table[index]
    {
      hide EntryAt, WordAt, VolOf;
      if index >= sb.totalFiles {
        return false, EntryAt(seq(SECTOR, _ => 0), 0);
      }
      var b, o := 1 + index / PER_BLOCK, index % PER_BLOCK;
      EntryInTable(disk[..], sb, b, o);
      ReadSector(b);
      return true, EntryAt(buf[..], o);
    }

    /** get_current_path; the climb ends at the root because the parent links are acyclic. */
    method GetCurrentPath(buffer: array<byte>, bufferSize: nat, ghost depth: seq<nat>) returns (ok: bool)
      requires Ready() && Ranked(V().table, depth) && bufferSize <= buffer.Length && buffer != buf
      requires |CurrentPath(V().table, depth, cwd, sb.totalFiles)| < MAX_PATH
      modifies buf, buffer
      ensures var p := CurrentPath(V().table, depth, cwd, sb.totalFiles);
              && (ok <==> |p| < bufferSize)
              && (ok ==> PlacedAt(buffer[..], old(buffer[..]), 0, p))
              && (!ok ==> buffer[..] == old(buffer[..]))
    {
      hide EntryAt, VolOf, TableOk, Acyclic, FilesOk, BootSectorOk, SuperblockAt, Ranked, CStr, UpPath;
      ghost var t, total := V().table, sb.totalFiles;
      RootUpPath(t, depth, total);
      if cwd == sb.rootDir {
        if bufferSize >= 2 {
          buffer[0] := SLASH;
          buffer[1] := 0;
          return true;
        }
        return false;
      }
      var tempPath := new byte[MAX_PATH];
      tempPath[0] := 0;
      CStrIs(tempPath[..], []);
      ClimbToRoot(tempPath, depth);
      var len := StrLen(tempPath[..]);
      if len == 0 {
        CStrIs([SLASH, 0], [SLASH]);
        StrCpy(tempPath, 0, [SLASH, 0]);
        CStrIs(tempPath[..], [SLASH]);
      }
      len := StrLen(tempPath[..]);
      if len < bufferSize {
        StrCpy(buffer, 0, tempPath[..]);
        return true;
      }
      return false;
    }

    /** The loop: names are put in front until the root, or an index that is refused. */
    method ClimbToRoot(tempPath: array<byte>, ghost depth: seq<nat>)
      requires Ready() && Ranked(V().table, depth) && tempPath != buf && tempPath.Length == MAX_PATH
      requires 0 in tempPath[..] && CStr(tempPath[..]) == []
      requires |UpPath(V().table, depth, cwd, sb.totalFiles)| < MAX_PATH
      modifies buf, tempPath
      ensures 0 in tempPath[..] && CStr(tempPath[..]) == UpPath(V().table, depth, cwd, sb.totalFiles)
    {
      hide EntryAt, VolOf, TableOk, Acyclic, FilesOk, BootSectorOk, SuperblockAt, Ranked, CStr, UpPath;
      ghost var t, total := V().table, sb.totalFiles;
      ghost var all := UpPath(t, depth, cwd, total);
      RootUpPath(t, depth, total);
      assert all == all + CStr(tempPath[..]);
      var current: nat := cwd;
      while current != sb.rootDir && current != EOF
        invariant current < |t| && IsLive(t[current]) && 0 in tempPath[..]
        invariant all == UpPath(t, depth, current, total) + CStr(tempPath[..])
        decreases RankIn(depth, current)
      {
        Climb(t, depth, current, total);
        var ok, entry := ReadEntryByIndex(current);
        if !ok {
          break;
        }
        Join(UpPath(t, depth, t[current].parent, total), [SLASH], NameOf(t[current]), CStr(tempPath[..]));
        Prepend(tempPath, entry.name);
        current := entry.parent;
      }
      StopClimb(t, depth, current, total);
      assert [] + CStr(tempPath[..]) == CStr(tempPath[..]);
    }

    /** One step of the climb: temp_path = "/" + name + temp_path, by way of a second buffer. */
    static method Prepend(tempPath: array<byte>, name: seq<byte>)
      requires tempPath.Length == MAX_PATH && 0 in tempPath[..] && 0 in name
      requires 1 + |CStr(name)| + |CStr(tempPath[..])| < MAX_PATH
      modifies tempPath
      ensures 0 in tempPath[..] && CStr(tempPath[..]) == [SLASH] + CStr(name) + CStr(old(tempPath[..]))
    {
      hide CStr;
      ghost var was, s := CStr(tempPath[..]), CStr(name);
      var newName := new byte[MAX_PATH];
      newName[0] := SLASH;
      StrCpy(newName, 1, name);
      Slashed(newName[..], s);
      StrCat(newName, tempPath[..]);
      StrCpy(tempPath, 0, newName[..]);
      assert tempPath[|[SLASH] + s + was|] == 0;
      CStrIs(tempPath[..], [SLASH] + s + was);
    }

    static lemma Slashed(a: seq<byte>, s: seq<byte>)
      requires 1 + |s| < |a| && a[0] == SLASH && a[1..1 + |s|] == s && a[1 + |s|] == 0 && 0 !in s
      ensures 0 in a && CStr(a) == [SLASH] + s
    {
      assert a[..1 + |s|] == [SLASH] + s;
      CStrIs(a, [SLASH] + s);
    }

    static ghost function RankIn(depth: seq<nat>, i: nat): nat {
      if i < |depth| then depth[i] else 0
    }

    static lemma RootUpPath(t: seq<Entry>, depth: seq<nat>, total: nat)
      requires TableOk(t) && Ranked(t, depth)
      ensures 0 < |t| < U32 && IsLive(t[0]) && UpPath(t, depth, 0, total) == []
    {
    }

    static lemma Climb(t: seq<Entry>, depth: seq<nat>, i: nat, total: nat)
      requires TableOk(t) && Ranked(t, depth) && 0 < i < |t| && IsLive(t[i])
      ensures t[i].parent < |t| && IsLive(t[t[i].parent])
      ensures RankIn(depth, t[i].parent) < RankIn(depth, i) && 0 in t[i].name && t[i].parent < EOF
      ensures UpPath(t, depth, i, total)
              == if i >= total then [] else UpPath(t, depth, t[i].parent, total) + [SLASH] + NameOf(t[i])
    {
      assert EntryOk(t, i) && RankOk(t, depth, i);
    }

    static lemma StopClimb(t: seq<Entry>, depth: seq<nat>, i: nat, total: nat)
      requires TableOk(t) && Ranked(t, depth) && i < |t| && IsLive(t[i]) && (i == 0 || i == EOF || i >= total)
      ensures UpPath(t, depth, i, total) == []
    {
    }

    static lemma Join(up: seq<byte>, slash: seq<byte>, name: seq<byte>, tail: seq<byte>)
      ensures up + slash + name + tail == up + (slash + name + tail)
    {
    }

    // ---- Listing ----

    /** list_dir("") */
    method ListDir(files: array<Entry>, maxFiles: nat) returns (count: nat)
      requires Ready() && maxFiles <= files.Length && files as object != buf && files as object != disk
      modifies buf, files
      ensures var all := Listing(V().table, cwd, 0);
              && count == (if |all| <= maxFiles then |all| else maxFiles)
              && files[..count] == all[..count]
    {
      hide EntryAt, VolOf, TableOk, Acyclic, FilesOk, BootSectorOk, SuperblockAt, Listing, ListedUpTo;
      ghost var t := V().table;
      count := 0;
      ListedFirst(files[..], maxFiles, t, cwd);
      var block := 1;
      while block < 1 + sb.tableBlocks && count < maxFiles
        invariant 1 <= block <= 1 + sb.tableBlocks && count <= maxFiles
        invariant ListedUpTo(files[..], count, maxFiles, t, cwd, PER_BLOCK * (block - 1))
      {
        count := ListSector(block, files, maxFiles, count);
        block := block + 1;
      }
      ListedAll(files[..], count, maxFiles, t, cwd, PER_BLOCK * (block - 1));
    }

    /** The inner loop over one table sector. */
    method ListSector(block: nat, files: array<Entry>, maxFiles: nat, from: nat) returns (count: nat)
      requires Mounted() && maxFiles <= files.Length && files as object != buf && files as object != disk
      requires 1 <= block < 1 + sb.tableBlocks && from < maxFiles
      requires ListedUpTo(files[..], from, maxFiles, V().table, cwd, PER_BLOCK * (block - 1))
      modifies buf, files
      ensures count <= maxFiles && ListedUpTo(files[..], count, maxFiles, V().table, cwd, PER_BLOCK * block)
    {
      hide EntryAt, VolOf, BootSectorOk, SuperblockAt, Listing, ListedUpTo;
      ghost var t := V().table;
      count := from;
      ReadSector(block);
      var i := 0;
      while i < PER_BLOCK && count < maxFiles
        invariant 0 <= i <= PER_BLOCK && count <= maxFiles && buf[..] == disk[block]
        invariant ListedUpTo(files[..], count, maxFiles, t, cwd, PER_BLOCK * (block - 1) + i)
      {
        EntryInTable(disk[..], sb, block, i);
        ghost var k, before, was := PER_BLOCK * (block - 1) + i, files[..], count;
        var e := EntryAt(buf[..], i);
        if e.status == 1 && e.parent == cwd {
          files[count] := e;
          count := count + 1;
        }
        ListedStep(before, files[..], was, maxFiles, t, cwd, k);
        i := i + 1;
      }
      if count == maxFiles {
        ListedFull(files[..], maxFiles, t, cwd, PER_BLOCK * (block - 1) + i, PER_BLOCK * block);
      }
    }

    // ---- Formatting and mounting ----

    method ZeroBuffer()
      requires buf.Length == SECTOR
      modifies buf
      ensures buf[..] == ZeroSector()
    {
      for i := 0 to SECTOR
        invariant forall x | 0 <= x < i :: buf[x] == 0
      {
        buf[i] := 0;
      }
    }

    /** The superblock structure, stored over a zeroed buffer. */
    method PutSuperblock(s: Superblock)
      requires buf.Length == SECTOR && buf[..] == ZeroSector()
      requires s.magic < U32 && s.blockCount < U32 && s.tableBlocks < U32 && s.mapBlocks < U32
      requires s.totalFiles < U32 && s.rootDir < U32
      modifies buf
      ensures BootSectorOk(buf[..], s)
    {
      hide Load;
      SpanWords();
      ZeroParts(0);
      ghost var b0 := buf[..];
      Store(buf, 0, 4, s.magic);
      ghost var b1 := buf[..];
      Store(buf, 4, 4, s.blockCount);
      LoadFrame(b1, buf[..], 0, 4);
      ghost var b2 := buf[..];
      Store(buf, 8, 4, s.tableBlocks);
      LoadFrame(b2, buf[..], 0, 4);
      LoadFrame(b2, buf[..], 4, 4);
      ghost var b3 := buf[..];
      Store(buf, 12, 4, s.mapBlocks);
      LoadFrame(b3, buf[..], 0, 4);
      LoadFrame(b3, buf[..], 4, 4);
      LoadFrame(b3, buf[..], 8, 4);
      ghost var b4 := buf[..];
      Store(buf, 16, 4, s.totalFiles);
      LoadFrame(b4, buf[..], 0, 4);
      LoadFrame(b4, buf[..], 4, 4);
      LoadFrame(b4, buf[..], 8, 4);
      LoadFrame(b4, buf[..], 12, 4);
      ghost var b5 := buf[..];
      Store(buf, 20, 4, s.rootDir);
      LoadFrame(b5, buf[..], 0, 4);
      LoadFrame(b5, buf[..], 4, 4);
      LoadFrame(b5, buf[..], 8, 4);
      LoadFrame(b5, buf[..], 12, 4);
      LoadFrame(b5, buf[..], 16, 4);
      LoadFrame(b0, buf[..], 32, 4);
    }

    /** The root directory's entry, stored over a zeroed buffer. */
    method PutRoot()
      requires buf.Length == SECTOR && buf[..] == ZeroSector()
      modifies buf
      ensures EntryAt(buf[..], 0) == RootEntry()
      ensures forall k | 1 <= k < PER_BLOCK :: EntryAt(buf[..], k) == BlankEntry()
    {
      hide Load;
      ghost var z := buf[..];
      buf[0] := 1;
      buf[1] := TYPE_DIR;
      buf[2] := SLASH;
      buf[3] := 0;
      ghost var s1 := buf[..];
      PutNumbers(buf, 0, 0, 0, EOF);
      assert buf[..][2..32] == s1[2..32] == [SLASH] + seq(NAME - 1, _ => 0);
      assert buf[..][44..60] == z[44..60] == seq(16, _ => 0);
      OnlyEntry(z, buf[..], 0);
      forall k | 1 <= k < PER_BLOCK
        ensures EntryAt(buf[..], k) == BlankEntry()
      {
        ZeroParts(k);
      }
    }

    /** chainfs_init: mount what is on the disk, at the root. */
    method Init() returns (code: int)
      requires buf.Length == SECTOR && 0 < disk.Length
      modifies buf, this`sb, this`dataAreaStart, this`cwd
      ensures var s := SuperblockAt(disk[0]);
              && code == (if s.magic == MAGIC then 0 else -1)
              && (code == 0 ==> sb == s && dataAreaStart == (1 + s.tableBlocks + s.mapBlocks) % U32 && cwd == s.rootDir)
              && (code != 0 ==> sb == old(sb) && dataAreaStart == old(dataAreaStart) && cwd == old(cwd))
      ensures var s := SuperblockAt(disk[0]);
              BootSectorOk(disk[0], s) && GeometryOk(s, disk.Length) ==>
                code == 0 && Mounted() && cwd == 0 && V() == VolOf(disk[..], s) && (Sane(V()) ==> Ready())
      ensures old(Mounted()) ==> code == 0 && Mounted() && sb == old(sb) && V() == old(V())
    {
      hide WordAt, EntryAt, VolOf, Acyclic, FilesOk;
      ReadSector(0);
      var s := SuperblockAt(buf[..]);
      if s.magic != MAGIC {
        return -1;
      }
      sb := s;
      dataAreaStart := (1 + sb.tableBlocks + sb.mapBlocks) % U32;
      cwd := sb.rootDir;
      return 0;
    }

    /** chainfs_format */
    method Format(totalBlocks: nat, maxFiles: nat) returns (code: int)
      requires buf.Length == SECTOR && Formattable(totalBlocks, maxFiles) && totalBlocks <= disk.Length
      modifies this, disk, buf
      ensures code == 0 && Mounted() && sb == FormatSuperblock(totalBlocks, maxFiles) && cwd == 0
      ensures BlankVolume(V(), PER_BLOCK * TableBlocks(maxFiles))
      ensures V().data == old(disk[..])[DataStart(sb)..totalBlocks]
      ensures Ready() && Inv(V()) && Implements(V(), RootTree())
      ensures LimitsOf(V()) == Limits(PER_BLOCK * TableBlocks(maxFiles), |V().data|)
    {
      hide Usable, NoLeak, EntryAt, WordAt, VolOf, BlankVolume, BootSectorOk, Sane, Implements, SuperblockAt, ZeroSector,
           RootEntry, BlankEntry, Formattable, TableBlocks, MapBlocks;
      ghost var d0: seq<Sector> := disk[..];
      FormatGeometry(totalBlocks, maxFiles, disk.Length);
      FormatSizes(totalBlocks, maxFiles);
      var fileTableBlocks := (maxFiles + PER_BLOCK - 1) / PER_BLOCK;
      var dataBlocks := totalBlocks - 1 - fileTableBlocks;
      var blockMapBlocks := (dataBlocks + WORDS - 1) / WORDS;
      var s := Superblock(MAGIC, totalBlocks, fileTableBlocks, blockMapBlocks, maxFiles, 0);
      ZeroBuffer();
      PutSuperblock(s);
      WriteSector(0);
      ghost var boot: Sector := disk[0];
      ZeroBuffer();
      PutRoot();
      ghost var root: Sector := buf[..];
      WriteSector(1);
      ghost var d1: seq<Sector> := disk[..];
      assert d1 == d0[0 := boot][1 := root];
      ZeroBuffer();
      WriteZeroes(2, 1 + fileTableBlocks);
      ghost var d2: seq<Sector> := disk[..];
      FillMapBuffer();
      WriteZeroes(1 + fileTableBlocks, 1 + fileTableBlocks + blockMapBlocks);
      ZonesWritten(d0, d1, d2, disk[..], s, boot, root);
      FreshDisk(disk[..], d0, s, boot, root);
      BootMagic(boot, s);
      code := Init();
      BlankGood(V(), PER_BLOCK * fileTableBlocks);
    }

    /** Every map word of the buffer becomes FREE, which leaves a zeroed buffer as it is. */
    method FillMapBuffer()
      requires buf.Length == SECTOR && buf[..] == ZeroSector()
      modifies buf
      ensures buf[..] == ZeroSector()
    {
      for i := 0 to WORDS
        invariant buf[..] == ZeroSector()
      {
        buf[4 * i], buf[4 * i + 1], buf[4 * i + 2], buf[4 * i + 3] := FREE, FREE, FREE, FREE;
        assert buf[..] == ZeroSector();
      }
    }

    /** One of format's two loops: sectors from..to get the zeroed buffer. */
    method WriteZeroes(from: nat, to: nat)
      requires buf.Length == SECTOR && buf[..] == ZeroSector() && from <= to <= disk.Length
      modifies disk, this`writes
      ensures forall q | 0 <= q < disk.Length ::
                disk[..][q] == if from <= q < to then ZeroSector() else old(disk[..])[q]
    {
      hide ZeroSector;
      var block := from;
      while block < to
        invariant from <= block <= to && buf[..] == ZeroSector()
        invariant forall q | 0 <= q < disk.Length :: disk[q] == if from <= q < block then ZeroSector() else old(disk[q])
      {
        ghost var d := disk[..];
        WriteSector(block);
        assert forall q | 0 <= q < disk.Length :: disk[..][q] == if q == block then buf[..] else d[q];
        block := block + 1;
      }
    }
  }
}
