/** What a caller of the file system can count on: a session of calls is a run of the map, and a power cut in the middle
    of a create ends in a session on the same map. */
module Sessions {
  import opened Bytes
  import opened Layout
  import opened Volume
  import opened VolumeOps
  import opened Accounting
  import opened VolumeLaws
  import opened DiskView
  import opened Runs
  import opened CrashStates
  import opened Formatting
  import opened ChainFS
  import KernelHeap = Heap
  import BlockList

  /** The heap's part in a call: kmalloc grants write_file's block list exactly when it has room for it. */
  ghost predicate HeapSays(bs: seq<BlockList.Block>, c: Call) {
    match c
    case WriteCall(_, bytes, granted) => |bytes| < U32 && granted == Granted(bs, |bytes|)
    case DeleteCall(path) => 0 !in path
    case MkDirCall(_) => true
    case ChDirCall(path) => 0 !in path
  }

  /** Calls that keep to the contract, each in the state the ones before it leave. */
  ghost predicate Session(s: State, bs: seq<BlockList.Block>, calls: seq<Call>)
    decreases |calls|
  {
    calls == []
    || (Allowed(s, calls[0]) && HeapSays(bs, calls[0]) && Session(Exec(s, calls[0]).state, bs, calls[1..]))
  }

  /** One call, as the shell issues it. */
  method Perform(fs: FileSystem, c: Call) returns (code: int)
    requires fs.Ready() && fs.heap.Valid() && fs.heap.mem != fs.buf
    requires Allowed(State(fs.V(), fs.cwd), c) && HeapSays(fs.heap.Boot(), c)
    modifies fs, fs.buf, fs.disk, fs.heap, fs.heap.mem
    ensures fs.Ready() && fs.heap.Valid() && fs.heap.Boot() == old(fs.heap.Boot())
    ensures Reply(State(fs.V(), fs.cwd), code) == Exec(State(old(fs.V()), old(fs.cwd)), c)
  {
    hide Sane, ValidCwd, VolOf, GeometryOk, BootSectorOk, WriteFile, MkDir, Delete, ChDir, HasRoom, Deleted, QuietLog,
         Granted, KernelHeap.Spares, KernelHeap.Holds, BlockList.Shaped, BlockList.Coalesced, BlockList.Live;
    match c {
    case WriteCall(name, bytes, _) =>
      WriteRepliesZero(State(fs.V(), fs.cwd), c);
      code := fs.WriteNamed(name, bytes);
    case DeleteCall(path) => code := fs.DeleteFile(path);
    case MkDirCall(name) => code := fs.MkDirNamed(name);
    case ChDirCall(path) => code := fs.ChangeDir(path);
    }
  }

  /** An overwrite within the contract has room. */
  lemma WriteRepliesZero(s: State, c: Call)
    requires c.WriteCall? && Allowed(s, c)
    ensures Find(s.vol.table, s.cwd, c.name, 0) < |s.vol.table| ==> Exec(s, c).code == 0
  {
    hide Sane, HasRoom, Deleted, Created;
    var f := Find(s.vol.table, s.cwd, c.name, 0);
    if f < |s.vol.table| {
      OverwriteIs(s.vol, f, s.cwd, c.name, c.bytes);
    }
  }

  /** A session on the file system is a run of the state machine, reply by reply, and leaves the heap as it was. */
  method Play(fs: FileSystem, calls: seq<Call>) returns (codes: seq<int>)
    requires fs.Ready() && fs.heap.Valid() && fs.heap.mem != fs.buf
    requires Session(State(fs.V(), fs.cwd), fs.heap.Boot(), calls)
    modifies fs, fs.buf, fs.disk, fs.heap, fs.heap.mem
    ensures fs.Ready() && fs.heap.Valid() && fs.heap.Boot() == old(fs.heap.Boot())
    ensures Run(State(old(fs.V()), old(fs.cwd)), calls, codes, State(fs.V(), fs.cwd))
    decreases |calls|
  {
    hide Sane, ValidCwd, VolOf, GeometryOk, BootSectorOk, Exec, Allowed, HeapSays,
         KernelHeap.Spares, KernelHeap.Holds, BlockList.Shaped, BlockList.Coalesced, BlockList.Live;
    if calls == [] {
      return [];
    }
    var code := Perform(fs, calls[0]);
    var rest := Play(fs, calls[1..]);
    codes := [code] + rest;
    assert codes[1..] == rest;
  }

  /** So a session is a run of the map, with the replies the map determines; at its end the disk holds what the map
      says, and no block is lost that was not lost before. */
  method PlayOnMap(fs: FileSystem, calls: seq<Call>, ghost m: Tree) returns (codes: seq<int>, ghost m': Tree)
    requires fs.Ready() && fs.heap.Valid() && fs.heap.mem != fs.buf && Implements(fs.V(), m)
    requires Session(State(fs.V(), fs.cwd), fs.heap.Boot(), calls)
    modifies fs, fs.buf, fs.disk, fs.heap, fs.heap.mem
    ensures fs.Ready() && fs.heap.Valid() && fs.heap.Boot() == old(fs.heap.Boot())
    ensures Implements(fs.V(), m')
    ensures TreeRun(m, old(fs.cwd), old(LimitsOf(fs.V())), calls, codes, m', fs.cwd)
    ensures old(Inv(fs.V())) ==> Inv(fs.V())
  {
    hide Sane, NoLeak, ValidCwd, VolOf, GeometryOk, BootSectorOk, Run, TreeRun, Session, Implements, Usable,
         KernelHeap.Spares, KernelHeap.Holds, BlockList.Shaped, BlockList.Coalesced, BlockList.Live;
    ghost var s := State(fs.V(), fs.cwd);
    codes := Play(fs, calls);
    m' := RunRefines(s, m, calls, codes, State(fs.V(), fs.cwd));
    if Inv(s.vol) {
      RunKeepsInv(s, calls, codes, State(fs.V(), fs.cwd));
    }
  }

  /** A volume chainfs_format can leave. */
  ghost predicate Formatted(v: Vol, totalBlocks: nat, maxFiles: nat)
    requires Formattable(totalBlocks, maxFiles)
  {
    && BlankVolume(v, PER_BLOCK * TableBlocks(maxFiles))
    && |v.data| == totalBlocks - DataStart(FormatSuperblock(totalBlocks, maxFiles)) <= |v.fat|
  }

  /** From format on: a session's replies are those of the map that starts with the root alone and is bounded by the
      table's slots and the data area. */
  method FormatAndPlay(fs: FileSystem, totalBlocks: nat, maxFiles: nat, calls: seq<Call>)
    returns (codes: seq<int>, ghost m: Tree)
    requires Formattable(totalBlocks, maxFiles) && fs.buf.Length == SECTOR && totalBlocks <= fs.disk.Length
    requires fs.heap.Valid() && fs.heap.mem != fs.buf
    requires forall v | Formatted(v, totalBlocks, maxFiles) :: Session(State(v, 0), fs.heap.Boot(), calls)
    modifies fs, fs.buf, fs.disk, fs.heap, fs.heap.mem
    ensures fs.Ready() && Inv(fs.V()) && Implements(fs.V(), m)
    ensures var blocks := totalBlocks - DataStart(FormatSuperblock(totalBlocks, maxFiles));
            TreeRun(RootTree(), 0, Limits(PER_BLOCK * TableBlocks(maxFiles), blocks), calls, codes, m, fs.cwd)
  {
    hide Sane, NoLeak, ValidCwd, VolOf, BootSectorOk, Run, TreeRun, Session, Implements, Usable, BlankVolume,
         Formattable, TableBlocks, MapBlocks, KernelHeap.Spares, KernelHeap.Holds, BlockList.Shaped, BlockList.Coalesced,
         BlockList.Live;
    var code := fs.Format(totalBlocks, maxFiles);
    assert Formatted(fs.V(), totalBlocks, maxFiles);
    codes, m := PlayOnMap(fs, calls, RootTree());
  }

  /** chainfs_init on a disk image. */
  method Mount(image: seq<Sector>, heap: KernelHeap.Heap, ghost sb: Superblock) returns (fs: FileSystem)
    requires GeometryOk(sb, |image|) && BootSectorOk(image[0], sb) && Sane(VolOf(image, sb))
    ensures fresh(fs) && fresh(fs.disk) && fresh(fs.buf) && fs.heap == heap
    ensures fs.Ready() && fs.cwd == 0 && fs.V() == VolOf(image, sb)
  {
    hide Sane, VolOf, EntryAt, WordAt;
    var disk := new Sector[|image|](i requires 0 <= i < |image| => image[i]);
    assert disk[..] == image;
    fs := new FileSystem(disk, heap);
    var code := fs.Init();
  }

  /** A power cut during a create, before its last sector write: mounted from whatever disk it left, a session runs on
      the map as it was before the call. */
  method PowerCut(ws: seq<seq<Sector>>, q: nat, heap: KernelHeap.Heap, calls: seq<Call>,
                  ghost from: nat, ghost to: nat, ghost sb: Superblock, ghost sectors: nat, ghost v: Vol, ghost m: Tree)
    returns (fs: FileSystem, codes: seq<int>, ghost m': Tree)
    requires Sane(v) && Implements(v, m)
    requires QuietLog(ws, from, to, sb, sectors, v, |v.table|) && from <= q < to
    requires heap.Valid() && GeometryOk(sb, |ws[q]|) && Session(State(VolOf(ws[q], sb), 0), heap.Boot(), calls)
    modifies heap, heap.mem
    ensures fs.Ready() && Implements(fs.V(), m')
    ensures |VolOf(ws[q], sb).data| <= |VolOf(ws[q], sb).fat|
    ensures TreeRun(m, 0, LimitsOf(VolOf(ws[q], sb)), calls, codes, m', fs.cwd)
  {
    hide Sane, ValidCwd, VolOf, GeometryOk, BootSectorOk, TreeRun, Session, Implements, Usable, Snapshot,
         KernelHeap.Spares, KernelHeap.Holds, BlockList.Shaped, BlockList.Coalesced, BlockList.Live;
    CrashKeepsMap(ws, from, to, sb, sectors, v, q, m);
    fs := Mount(ws[q], heap, sb);
    codes, m' := PlayOnMap(fs, calls, m);
  }
}
