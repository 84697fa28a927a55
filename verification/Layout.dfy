/** What a 512-byte sector means: file entries, block-map words, the superblock. */
module Layout {
  import opened Bytes
  import opened Text

  const SECTOR: nat := 512           // CHAINFS_BLOCK_SIZE
  const ENTRY: nat := 60             // sizeof(chainfs_file_entry_t), packed
  const PER_BLOCK: nat := 8          // SECTOR / ENTRY
  const WORDS: nat := 128            // SECTOR / sizeof(u32)
  const NAME: nat := 30
  const EOF: nat := 0xFFFF_FFFF      // CHAINFS_EOF_MARKER
  const FREE: nat := 0               // CHAINFS_FREE_BLOCK
  const TYPE_FILE: byte := 0
  const TYPE_DIR: byte := 1
  const MAGIC: nat := 0xCAFE_BABE
  const MAX_PATH: nat := 256         // CHAINFS_MAX_PATH

  type Sector = s: seq<byte> | |s| == 512 witness seq(512, _ => 0)

  /** chainfs_file_entry_t */
  datatype Entry = Entry(status: byte, kind: byte, name: seq<byte>, size: nat, start: nat, parent: nat,
                         reserved: seq<byte>)

  /** Entry i of a table sector. */
  function EntryAt(s: seq<byte>, i: nat): Entry
    requires ENTRY * i + ENTRY <= |s|
  {
    var p := ENTRY * i;
    Entry(s[p], s[p + 1], s[p + 2..p + 32], Load(s, p + 32, 4), Load(s, p + 36, 4), Load(s, p + 40, 4), s[p + 44..p + 60])
  }

  /** Word i of a block-map sector. */
  function WordAt(s: seq<byte>, i: nat): nat
    requires 4 * i + 4 <= |s|
  {
    Load(s, 4 * i, 4)
  }

  lemma EntryFrame(s: seq<byte>, s': seq<byte>, i: nat)
    requires ENTRY * i + ENTRY <= |s| && |s'| == |s|
    requires forall x | ENTRY * i <= x < ENTRY * i + ENTRY :: s[x] == s'[x]
    ensures EntryAt(s, i) == EntryAt(s', i)
  {
    var p := ENTRY * i;
    LoadFrame(s, s', p + 32, 4);
    LoadFrame(s, s', p + 36, 4);
    LoadFrame(s, s', p + 40, 4);
    assert s[p + 2..p + 32] == s'[p + 2..p + 32] && s[p + 44..p + 60] == s'[p + 44..p + 60];
  }

  lemma WordBound(s: seq<byte>, i: nat)
    requires 4 * i + 4 <= |s|
    ensures WordAt(s, i) < U32
  {
    FromLEBound(s[4 * i..4 * i + 4]);
    SpanWords();
  }

  /** chainfs_superblock_t, without its padding */
  datatype Superblock = Superblock(magic: nat, blockCount: nat, tableBlocks: nat, mapBlocks: nat, totalFiles: nat,
                                   rootDir: nat)

  function SuperblockAt(s: seq<byte>): Superblock
    requires |s| == SECTOR
  {
    Superblock(WordAt(s, 0), WordAt(s, 1), WordAt(s, 2), WordAt(s, 3), WordAt(s, 4), WordAt(s, 5))
  }

  /** The 60 bytes of an entry, field after field. */
  function Encoded(e: Entry): seq<byte> {
    [e.status, e.kind] + e.name + ToLE(e.size, 4) + ToLE(e.start, 4) + ToLE(e.parent, 4) + e.reserved
  }

  /** Entry i of a sector reads as e exactly when bytes 60 * i to 60 * i + 60 are e's. */
  lemma EntryCodec(s: Sector, i: nat, e: Entry)
    requires i < 8 && |e.name| == 30 && |e.reserved| == 16 && e.size < U32 && e.start < U32 && e.parent < U32
    ensures EntryAt(s, i) == e <==> s[60 * i..60 * i + 60] == Encoded(e)
  {
    hide Load, ToLE;
    var p := 60 * i;
    var f := s[p..p + 60];
    SpanWords();
    FieldIs(s, p + 32, 4, e.size);
    FieldIs(s, p + 36, 4, e.start);
    FieldIs(s, p + 40, 4, e.parent);
    SliceOfSlice(s, p, 60, 2, 32);
    SliceOfSlice(s, p, 60, 32, 36);
    SliceOfSlice(s, p, 60, 36, 40);
    SliceOfSlice(s, p, 60, 40, 44);
    SliceOfSlice(s, p, 60, 44, 60);
    CutSixty(f);
    if f == Encoded(e) {
      SplitEntry(f, e);
    }
  }

  lemma SliceOfSlice(s: seq<byte>, p: nat, n: nat, i: nat, j: nat)
    requires i <= j <= n && p + n <= |s|
    ensures s[p..p + n][i..j] == s[p + i..p + j]
  {
    var a, b := s[p..p + n][i..j], s[p + i..p + j];
    forall k | 0 <= k < j - i
      ensures a[k] == b[k]
    {
    }
    assert |a| == |b|;
    assert a == b;
  }

  lemma CutSixty(f: seq<byte>)
    requires |f| == 60
    ensures f == [f[0], f[1]] + f[2..32] + f[32..36] + f[36..40] + f[40..44] + f[44..60]
  {
    assert [f[0], f[1]] + f[2..32] == f[..32];
    assert f[..32] + f[32..36] == f[..36];
    assert f[..36] + f[36..40] == f[..40];
    assert f[..40] + f[40..44] == f[..44];
    assert f[..44] + f[44..60] == f;
  }

  lemma SplitEntry(f: seq<byte>, e: Entry)
    requires f == Encoded(e) && |e.name| == 30 && |e.reserved| == 16
    ensures |f| == 60 && f[0] == e.status && f[1] == e.kind && f[2..32] == e.name
    ensures f[32..36] == ToLE(e.size, 4) && f[36..40] == ToLE(e.start, 4) && f[40..44] == ToLE(e.parent, 4)
    ensures f[44..60] == e.reserved
  {
    hide ToLE;
  }

  /** Sector 0 reads as this superblock exactly when its first 24 bytes are the six words, one after the other. */
  lemma SuperblockCodec(s: Sector, sb: Superblock)
    requires sb.magic < U32 && sb.blockCount < U32 && sb.tableBlocks < U32 && sb.mapBlocks < U32
    requires sb.totalFiles < U32 && sb.rootDir < U32
    ensures SuperblockAt(s) == sb <==>
              && s[0..4] == ToLE(sb.magic, 4) && s[4..8] == ToLE(sb.blockCount, 4) && s[8..12] == ToLE(sb.tableBlocks, 4)
              && s[12..16] == ToLE(sb.mapBlocks, 4) && s[16..20] == ToLE(sb.totalFiles, 4)
              && s[20..24] == ToLE(sb.rootDir, 4)
  {
    hide Load, ToLE;
    SpanWords();
    FieldIs(s, 0, 4, sb.magic);
    FieldIs(s, 4, 4, sb.blockCount);
    FieldIs(s, 8, 4, sb.tableBlocks);
    FieldIs(s, 12, 4, sb.mapBlocks);
    FieldIs(s, 16, 4, sb.totalFiles);
    FieldIs(s, 20, 4, sb.rootDir);
  }

  function NameOf(e: Entry): seq<byte> {
    CStr(e.name)
  }

  predicate IsLive(e: Entry) {
    e.status == 1
  }

  predicate IsFile(e: Entry) {
    e.status == 1 && e.kind == TYPE_FILE
  }

  predicate IsDir(e: Entry) {
    e.status == 1 && e.kind == TYPE_DIR
  }

  /** Sector 0 holds this superblock, and its padding reads as an entry of size 0. */
  ghost predicate BootSectorOk(s: Sector, sb: Superblock) {
    SuperblockAt(s) == sb && EntryAt(s, 0).size == 0
  }

  /** Sector 0 read as an entry is no directory: its type byte is the magic's second byte, 0xBA. */
  lemma BootIsNoDirectory(s: Sector, sb: Superblock)
    requires BootSectorOk(s, sb) && sb.magic == MAGIC
    ensures EntryAt(s, 0).kind == 0xBA
  {
    FourBytes(s[0], s[1], s[2], s[3]);
    assert s[0..4] == [s[0], s[1], s[2], s[3]];
  }

  lemma FourBytes(p: byte, q: byte, r: byte, t: byte)
    ensures FromLE([p, q, r, t]) == p + 256 * (q + 256 * (r + 256 * t))
    ensures FromLE([p, q, r, t]) == MAGIC ==> q == 0xBA
  {
    var m := [p, q, r, t];
    assert m[1..] == [q, r, t] && [q, r, t][1..] == [r, t] && [r, t][1..] == [t] && [t][1..] == [];
    assert FromLE([t]) == t;
    assert FromLE([r, t]) == r + 256 * t;
    assert FromLE([q, r, t]) == q + 256 * (r + 256 * t);
  }
}
