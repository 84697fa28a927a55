/** The disk's zones: how sectors make up the volume, and what one sector write changes in it. */
module DiskView {
  import opened Bytes
  import opened Layout
  import opened Volume

  function DataStart(sb: Superblock): nat {
    1 + sb.tableBlocks + sb.mapBlocks
  }

  /** The zones fit the disk, and the map covers every data block. */
  ghost predicate GeometryOk(sb: Superblock, sectors: nat) {
    && sb.magic == MAGIC && sb.rootDir == 0
    && 1 <= sb.tableBlocks && PER_BLOCK * sb.tableBlocks <= EOF
    && DataStart(sb) <= sb.blockCount <= sectors && sb.blockCount < U32
    && sb.blockCount - DataStart(sb) <= WORDS * sb.mapBlocks
    && sb.totalFiles < U32
  }

  function TableOf(d: seq<Sector>, blocks: nat): seq<Entry>
    requires 1 + blocks <= |d|
  {
    seq(PER_BLOCK * blocks, i requires 0 <= i < PER_BLOCK * blocks => EntryAt(d[1 + i / PER_BLOCK], i % PER_BLOCK))
  }

  function FatOf(d: seq<Sector>, first: nat, blocks: nat): seq<nat>
    requires first + blocks <= |d|
  {
    seq(WORDS * blocks, b requires 0 <= b < WORDS * blocks => WordAt(d[first + b / WORDS], b % WORDS))
  }

  function VolOf(d: seq<Sector>, sb: Superblock): (v: Vol)
    requires GeometryOk(sb, |d|)
    ensures |v.table| == PER_BLOCK * sb.tableBlocks && |v.fat| == WORDS * sb.mapBlocks
    ensures |v.data| == sb.blockCount - DataStart(sb) <= |v.fat| && |v.data| < EOF
  {
    Vol(TableOf(d, sb.tableBlocks), FatOf(d, 1 + sb.tableBlocks, sb.mapBlocks), d[DataStart(sb)..sb.blockCount])
  }

  /** Where each part of the volume lies: behind sector 0 the table, eight entries a sector, then the map, 128 words a
      sector, then the data. */
  lemma ZonesAre(d: seq<Sector>, sb: Superblock, q: nat)
    requires GeometryOk(sb, |d|)
    ensures var v := VolOf(d, sb);
            && |v.table| == 8 * sb.tableBlocks && |v.fat| == 128 * sb.mapBlocks
            && |v.data| == sb.blockCount - (1 + sb.tableBlocks + sb.mapBlocks)
            && (q < |v.table| ==> v.table[q] == EntryAt(d[1 + q / 8], q % 8))
            && (q < |v.fat| ==> v.fat[q] == WordAt(d[1 + sb.tableBlocks + q / 128], q % 128))
            && (q < |v.data| ==> v.data[q] == d[1 + sb.tableBlocks + sb.mapBlocks + q])
  {
    hide EntryAt, WordAt;
  }

  lemma EntryInTable(d: seq<Sector>, sb: Superblock, lba: nat, i: nat)
    requires GeometryOk(sb, |d|) && 1 <= lba < 1 + sb.tableBlocks && i < PER_BLOCK
    ensures PER_BLOCK * (lba - 1) + i < |VolOf(d, sb).table|
    ensures VolOf(d, sb).table[PER_BLOCK * (lba - 1) + i] == EntryAt(d[lba], i)
  {
    hide EntryAt, WordAt;
    var k := PER_BLOCK * (lba - 1) + i;
    assert k / PER_BLOCK == lba - 1 && k % PER_BLOCK == i;
  }

  lemma WordInFat(d: seq<Sector>, sb: Superblock, b: nat)
    requires GeometryOk(sb, |d|) && b < WORDS * sb.mapBlocks
    ensures 1 + sb.tableBlocks + b / WORDS < DataStart(sb) <= |d|
    ensures VolOf(d, sb).fat[b] == WordAt(d[1 + sb.tableBlocks + b / WORDS], b % WORDS)
    ensures VolOf(d, sb).fat[b] < U32
  {
    hide EntryAt;
    WordBound(d[1 + sb.tableBlocks + b / WORDS], b % WORDS);
  }

  /** A table sector rewritten in one entry changes that entry of the table and nothing else. */
  lemma TableWrite(d: seq<Sector>, sb: Superblock, lba: nat, s: Sector, i: nat, e: Entry)
    requires GeometryOk(sb, |d|) && 1 <= lba < 1 + sb.tableBlocks && i < PER_BLOCK
    requires forall k | 0 <= k < PER_BLOCK :: EntryAt(s, k) == if k == i then e else EntryAt(d[lba], k)
    ensures PER_BLOCK * (lba - 1) + i < |VolOf(d, sb).table|
    ensures VolOf(d[lba := s], sb) == VolOf(d, sb).(table := VolOf(d, sb).table[PER_BLOCK * (lba - 1) + i := e])
  {
    hide EntryAt, WordAt;
    var d', k := d[lba := s], PER_BLOCK * (lba - 1) + i;
    var t, t' := TableOf(d, sb.tableBlocks), TableOf(d', sb.tableBlocks);
    forall q | 0 <= q < |t|
      ensures t'[q] == t[k := e][q]
    {
      assert q == PER_BLOCK * (q / PER_BLOCK) + q % PER_BLOCK;
    }
    assert t' == t[k := e];
    assert FatOf(d', 1 + sb.tableBlocks, sb.mapBlocks) == FatOf(d, 1 + sb.tableBlocks, sb.mapBlocks);
    assert d'[DataStart(sb)..sb.blockCount] == d[DataStart(sb)..sb.blockCount];
  }

  lemma SameWord(q: nat, b: nat)
    ensures q == b <==> q / WORDS == b / WORDS && q % WORDS == b % WORDS
    ensures 0 <= q / WORDS && 0 <= q % WORDS < WORDS
  {
    assert q == WORDS * (q / WORDS) + q % WORDS && b == WORDS * (b / WORDS) + b % WORDS;
  }

  /** A map sector rewritten in one word changes that map entry and nothing else. */
  lemma FatWrite(d: seq<Sector>, sb: Superblock, b: nat, s: Sector, w: nat)
    requires GeometryOk(sb, |d|) && b < WORDS * sb.mapBlocks
    requires 1 + sb.tableBlocks + b / WORDS < |d|
    requires forall k | 0 <= k < WORDS ::
               WordAt(s, k) == if k == b % WORDS then w else WordAt(d[1 + sb.tableBlocks + b / WORDS], k)
    ensures b < |VolOf(d, sb).fat|
    ensures VolOf(d[1 + sb.tableBlocks + b / WORDS := s], sb) == VolOf(d, sb).(fat := VolOf(d, sb).fat[b := w])
  {
    hide EntryAt, WordAt;
    var first := 1 + sb.tableBlocks;
    var d' := d[first + b / WORDS := s];
    var f, f' := FatOf(d, first, sb.mapBlocks), FatOf(d', first, sb.mapBlocks);
    forall q | 0 <= q < |f|
      ensures f'[q] == f[b := w][q]
    {
      SameWord(q, b);
    }
    assert f' == f[b := w];
    assert TableOf(d', sb.tableBlocks) == TableOf(d, sb.tableBlocks);
    assert d'[DataStart(sb)..sb.blockCount] == d[DataStart(sb)..sb.blockCount];
  }

  /** A data sector written changes that block and nothing else. */
  lemma DataWrite(d: seq<Sector>, sb: Superblock, b: nat, s: Sector)
    requires GeometryOk(sb, |d|) && DataStart(sb) + b < sb.blockCount
    ensures b < |VolOf(d, sb).data|
    ensures VolOf(d[DataStart(sb) + b := s], sb) == VolOf(d, sb).(data := VolOf(d, sb).data[b := s])
  {
    hide EntryAt, WordAt;
    var d' := d[DataStart(sb) + b := s];
    assert TableOf(d', sb.tableBlocks) == TableOf(d, sb.tableBlocks);
    assert FatOf(d', 1 + sb.tableBlocks, sb.mapBlocks) == FatOf(d, 1 + sb.tableBlocks, sb.mapBlocks);
    assert d'[DataStart(sb)..sb.blockCount] == d[DataStart(sb)..sb.blockCount][b := s];
  }
}
