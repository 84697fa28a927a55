/** What chainfs_format makes of a disk, and what every run from there keeps. */
module Formatting {
  import opened Bytes
  import opened Text
  import opened Layout
  import opened Volume
  import opened VolumeOps
  import opened Accounting
  import opened VolumeLaws
  import opened DiskView
  import opened Runs

  function TableBlocks(maxFiles: nat): nat {
    (maxFiles + PER_BLOCK - 1) / PER_BLOCK
  }

  function MapBlocks(totalBlocks: nat, tableBlocks: nat): nat
    requires 1 + tableBlocks <= totalBlocks
  {
    (totalBlocks - 1 - tableBlocks + WORDS - 1) / WORDS
  }

  /** Room for at least the three header zones. */
  ghost predicate Formattable(totalBlocks: nat, maxFiles: nat) {
    && 1 <= maxFiles <= U32 - 8 && totalBlocks < U32
    && 1 + TableBlocks(maxFiles) <= totalBlocks
    && 1 + TableBlocks(maxFiles) + MapBlocks(totalBlocks, TableBlocks(maxFiles)) <= totalBlocks
  }

  ghost function FormatSuperblock(totalBlocks: nat, maxFiles: nat): Superblock
    requires Formattable(totalBlocks, maxFiles)
  {
    var m := TableBlocks(maxFiles);
    Superblock(MAGIC, totalBlocks, m, MapBlocks(totalBlocks, m), maxFiles, 0)
  }

  /** The zones fit, the table has room for maxFiles entries, and the map, although sized before its own blocks are
      taken off, covers the data area: its sectors are as few as hold a word for every sector behind the table. */
  lemma FormatGeometry(totalBlocks: nat, maxFiles: nat, sectors: nat)
    requires Formattable(totalBlocks, maxFiles) && totalBlocks <= sectors
    ensures var sb := FormatSuperblock(totalBlocks, maxFiles);
            && GeometryOk(sb, sectors) && sb.blockCount == totalBlocks && sb.totalFiles == maxFiles
            && maxFiles <= 8 * sb.tableBlocks < maxFiles + 8
            && totalBlocks - 1 - sb.tableBlocks <= 128 * sb.mapBlocks < totalBlocks - 1 - sb.tableBlocks + 128
  {
  }

  lemma FormatSizes(totalBlocks: nat, maxFiles: nat)
    requires Formattable(totalBlocks, maxFiles)
    ensures var m := (maxFiles + PER_BLOCK - 1) / PER_BLOCK;
            && 1 <= m && 1 + m <= totalBlocks < U32 && maxFiles < U32
            && var n := (totalBlocks - 1 - m + WORDS - 1) / WORDS;
               n < U32 && FormatSuperblock(totalBlocks, maxFiles) == Superblock(MAGIC, totalBlocks, m, n, maxFiles, 0)
    ensures TableBlocks(maxFiles) == (maxFiles + PER_BLOCK - 1) / PER_BLOCK
  {
  }

  function ZeroSector(): Sector {
    seq(SECTOR, _ => 0)
  }

  function BlankEntry(): Entry {
    Entry(0, 0, seq(NAME, _ => 0), 0, 0, 0, seq(16, _ => 0))
  }

  function RootEntry(): Entry {
    Entry(1, TYPE_DIR, [SLASH] + seq(NAME - 1, _ => 0), 0, 0, EOF, seq(16, _ => 0))
  }

  lemma {:induction false} ZeroWord(s: seq<byte>)
    requires forall x | 0 <= x < |s| :: s[x] == 0
    ensures FromLE(s) == 0
  {
    if s != [] {
      ZeroWord(s[1..]);
    }
  }

  lemma ZeroParts(k: nat)
    requires k < PER_BLOCK
    ensures EntryAt(ZeroSector(), k) == BlankEntry()
  {
    var z, p := ZeroSector(), ENTRY * k;
    ZeroWord(z[p + 32..p + 36]);
    ZeroWord(z[p + 36..p + 40]);
    ZeroWord(z[p + 40..p + 44]);
    assert z[p + 2..p + 32] == seq(NAME, _ => 0) && z[p + 44..p + 60] == seq(16, _ => 0);
  }

  lemma ZeroWords(k: nat)
    requires k < WORDS
    ensures WordAt(ZeroSector(), k) == FREE
  {
    ZeroWord(ZeroSector()[4 * k..4 * k + 4]);
  }

  /** A freshly formatted volume: the root, no other entry, every block free. */
  ghost predicate BlankVolume(v: Vol, entries: nat) {
    && |v.table| == entries > 0 && v.table[0] == RootEntry()
    && (forall i | 1 <= i < entries :: v.table[i] == BlankEntry())
    && forall b | 0 <= b < |v.fat| :: v.fat[b] == FREE
  }

  lemma FreshDisk(d: seq<Sector>, d0: seq<Sector>, sb: Superblock, boot: Sector, root: Sector)
    requires GeometryOk(sb, |d|) && |d0| == |d|
    requires EntryAt(root, 0) == RootEntry() && forall k | 1 <= k < PER_BLOCK :: EntryAt(root, k) == BlankEntry()
    requires forall q | 0 <= q < |d| ::
               d[q] == if q == 0 then boot else if q == 1 then root else if q < DataStart(sb) then ZeroSector() else d0[q]
    ensures BlankVolume(VolOf(d, sb), PER_BLOCK * sb.tableBlocks)
    ensures VolOf(d, sb).data == d0[DataStart(sb)..sb.blockCount]
  {
    hide EntryAt, WordAt, ZeroSector, RootEntry, BlankEntry;
    var v := VolOf(d, sb);
    forall i | 0 <= i < |v.table|
      ensures v.table[i] == if i == 0 then RootEntry() else BlankEntry()
    {
      ZeroParts(i % PER_BLOCK);
      assert d[1 + i / PER_BLOCK] == if i < PER_BLOCK then root else ZeroSector();
    }
    forall b | 0 <= b < |v.fat|
      ensures v.fat[b] == FREE
    {
      ZeroWords(b % WORDS);
      var q := 1 + sb.tableBlocks + b / WORDS;
      assert d[q] == ZeroSector();
    }
  }

  /** Superblock, root sector, cleared table and cleared map, one after the other. */
  lemma ZonesWritten(d0: seq<Sector>, d1: seq<Sector>, d2: seq<Sector>, d: seq<Sector>, sb: Superblock, boot: Sector,
                     root: Sector)
    requires |d0| == |d1| == |d2| == |d| && 2 <= |d| && d1 == d0[0 := boot][1 := root] && 1 <= sb.tableBlocks
    requires forall q | 0 <= q < |d| :: d2[q] == if 2 <= q < 1 + sb.tableBlocks then ZeroSector() else d1[q]
    requires forall q | 0 <= q < |d| :: d[q] == if 1 + sb.tableBlocks <= q < DataStart(sb) then ZeroSector() else d2[q]
    ensures forall q | 0 <= q < |d| ::
              d[q] == if q == 0 then boot else if q == 1 then root else if q < DataStart(sb) then ZeroSector() else d0[q]
  {
    hide ZeroSector;
  }

  lemma BootMagic(boot: Sector, sb: Superblock)
    requires BootSectorOk(boot, sb)
    ensures SuperblockAt(boot) == sb
  {
  }

  /** The blank volume is a good start: nothing in it, the invariant holds. */
  lemma BlankGood(v: Vol, entries: nat)
    requires BlankVolume(v, entries) && entries <= EOF && |v.data| <= |v.fat| && |v.data| <= EOF
    ensures Inv(v) && Good(State(v, 0)) && Implements(v, RootTree())
    ensures LimitsOf(v) == Limits(entries, |v.data|)
  {
    var t := v.table;
    RootName();
    forall i | 0 <= i < |t|
      ensures EntryOk(t, i)
    {
    }
    var depth := seq(|t|, _ => 0);
    forall i | 0 <= i < |t|
      ensures RankOk(t, depth, i)
    {
    }
    assert Ranked(t, depth);
    forall dir, name
      ensures Lookup(v, dir, name) == TreeAt(RootTree(), dir, name)
    {
      BlankLookup(v, entries, dir, name);
    }
    BlocksConserved(v);
  }

  lemma RootName()
    ensures NameOf(RootEntry()) == [SLASH] && 0 in RootEntry().name
  {
    assert RootEntry().name[1] == 0;
    CStrIs(RootEntry().name, [SLASH]);
  }

  /** The map of a blank volume: the root, under the parent number that no directory has. */
  function RootTree(): Tree {
    map[(EOF, [SLASH]) := DirNode(0)]
  }

  lemma BlankLookup(v: Vol, entries: nat, dir: nat, name: seq<byte>)
    requires BlankVolume(v, entries) && |v.data| <= |v.fat|
    ensures Lookup(v, dir, name) == TreeAt(RootTree(), dir, name)
  {
    hide CStr, Content;
    RootName();
  }

  /** From a blank volume on, every run of allowed calls is a run of the map that starts with the root alone, within the
      limits of the format; the invariant holds at its end, and no block is lost. */
  lemma RunFromFormat(v: Vol, entries: nat, calls: seq<Call>, codes: seq<int>, final: State) returns (m: Tree)
    requires BlankVolume(v, entries) && entries <= EOF && |v.data| <= |v.fat| && |v.data| <= EOF
    requires Run(State(v, 0), calls, codes, final)
    ensures Inv(final.vol) && Good(final) && |final.vol.data| == |v.data| <= |final.vol.fat|
    ensures Implements(final.vol, m)
    ensures TreeRun(RootTree(), 0, Limits(entries, |v.data|), calls, codes, m, final.cwd)
    ensures FreeCount(final.vol.fat, |v.data|) + Charged(final.vol.table, |final.vol.table|) == |v.data|
  {
    hide Inv, Sane, Implements, Run, TreeRun, BlankVolume;
    BlankGood(v, entries);
    m := RunRefines(State(v, 0), RootTree(), calls, codes, final);
    RunKeepsInv(State(v, 0), calls, codes, final);
  }
}
