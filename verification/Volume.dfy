/** A ChainFS volume as a value - file table, block map, data blocks - and its invariant. */
module Volume {
  import opened Bytes
  import opened Text
  import opened Layout

  datatype Option<+T> = None | Some(value: T)

  datatype Vol = Vol(table: seq<Entry>, fat: seq<nat>, data: seq<Sector>)

  // ---- Chains in the block map ----

  /** Link k of chain c is in the map, and leads upward. */
  ghost predicate LinkOk(fat: seq<nat>, n: nat, c: seq<nat>, k: nat)
    requires n <= |fat| && k < |c|
  {
    && c[k] < n
    && fat[c[k]] == (if k + 1 < |c| then c[k + 1] else EOF)
    && (k + 1 < |c| ==> c[k] < c[k + 1])
  }

  /** c lists the blocks of one chain, in order, up to the EOF marker. */
  ghost predicate IsChain(fat: seq<nat>, n: nat, c: seq<nat>)
    requires n <= |fat|
  {
    c != [] && forall k {:trigger LinkOk(fat, n, c, k)} | 0 <= k < |c| :: LinkOk(fat, n, c, k)
  }

  /** The chain from block b, read off the map. Stops at the first link that does not lead upward. */
  function Chain(fat: seq<nat>, n: nat, b: nat): (c: seq<nat>)
    requires b < n <= |fat|
    ensures c != [] && c[0] == b
    decreases n - b
  {
    if b < fat[b] < n then [b] + Chain(fat, n, fat[b]) else [b]
  }

  ghost predicate Ascends(c: seq<nat>) {
    forall j, k | 0 <= j < k < |c| :: c[j] < c[k]
  }

  lemma {:induction false} LinksClimb(fat: seq<nat>, n: nat, c: seq<nat>, j: nat, k: nat)
    requires n <= |fat| && IsChain(fat, n, c) && j < k < |c|
    ensures c[j] < c[k]
  {
    assert LinkOk(fat, n, c, k - 1);
    if j < k - 1 {
      LinksClimb(fat, n, c, j, k - 1);
    }
  }

  lemma ChainShape(fat: seq<nat>, n: nat, c: seq<nat>)
    requires n <= |fat| && IsChain(fat, n, c)
    ensures Ascends(c) && forall b | b in c :: b < n && fat[b] != FREE
  {
    forall j, k | 0 <= j < k < |c|
      ensures c[j] < c[k]
    {
      LinksClimb(fat, n, c, j, k);
    }
    forall b | b in c
      ensures b < n && fat[b] != FREE
    {
      var k :| 0 <= k < |c| && c[k] == b;
      assert LinkOk(fat, n, c, k);
    }
  }

  lemma TailChain(fat: seq<nat>, n: nat, c: seq<nat>)
    requires n <= |fat| && IsChain(fat, n, c) && |c| > 1
    ensures IsChain(fat, n, c[1..]) && c[0] < c[1] < n && fat[c[0]] == c[1]
  {
    assert LinkOk(fat, n, c, 0) && LinkOk(fat, n, c, 1);
    forall k | 0 <= k < |c| - 1
      ensures LinkOk(fat, n, c[1..], k)
    {
      assert LinkOk(fat, n, c, k + 1);
    }
  }

  /** A chain is determined by its first block. */
  lemma {:induction false} ChainUnique(fat: seq<nat>, n: nat, c: seq<nat>)
    requires n <= |fat| && n <= EOF && IsChain(fat, n, c)
    ensures c[0] < n && Chain(fat, n, c[0]) == c
    decreases |c|
  {
    assert LinkOk(fat, n, c, 0);
    if |c| > 1 {
      TailChain(fat, n, c);
      ChainUnique(fat, n, c[1..]);
    }
  }

  /** A chain depends on its own map entries only. */
  lemma ChainKept(fat: seq<nat>, fat': seq<nat>, n: nat, c: seq<nat>)
    requires n <= |fat| && n <= |fat'| && n <= EOF && IsChain(fat, n, c)
    requires forall b | b in c && b < n :: fat'[b] == fat[b]
    ensures IsChain(fat', n, c) && c[0] < n && Chain(fat', n, c[0]) == c
  {
    forall k | 0 <= k < |c|
      ensures LinkOk(fat', n, c, k)
    {
      assert LinkOk(fat, n, c, k) && c[k] in c;
    }
    ChainUnique(fat', n, c);
  }

  // ---- Free blocks ----

  /** r lists free blocks from i on; the others, if any, are higher, and then r has as many as asked for. */
  ghost predicate LowestFree(fat: seq<nat>, n: nat, i: nat, count: nat, r: seq<nat>)
    requires n <= |fat|
  {
    && (forall k | 0 <= k < |r| :: i <= r[k] < n && fat[r[k]] == FREE)
    && forall b | i <= b < n && fat[b] == FREE && b !in r :: |r| == count && forall c | c in r :: c < b
  }

  /** The lowest free blocks at or above i, at most count of them. */
  function FreeFrom(fat: seq<nat>, n: nat, i: nat, count: nat): (r: seq<nat>)
    requires i <= n <= |fat|
    ensures |r| <= count && Ascends(r) && LowestFree(fat, n, i, count, r)
    decreases n - i
  {
    if i == n || count == 0 then []
    else if fat[i] == FREE then [i] + FreeFrom(fat, n, i + 1, count - 1)
    else FreeFrom(fat, n, i + 1, count)
  }

  // ---- File table ----

  predicate Matches(e: Entry, dir: nat, name: seq<byte>) {
    e.status == 1 && e.parent == dir && NameOf(e) == name
  }

  /** Index of the first entry at or after i for this directory and name, or |t|. */
  function Find(t: seq<Entry>, dir: nat, name: seq<byte>, i: nat): (r: nat)
    requires i <= |t|
    ensures i <= r <= |t|
    ensures forall k | i <= k < r :: !Matches(t[k], dir, name)
    ensures r < |t| ==> Matches(t[r], dir, name)
    decreases |t| - i
  {
    if i == |t| || Matches(t[i], dir, name) then i else Find(t, dir, name, i + 1)
  }

  /** Index of the first unused entry at or after i, or |t|. */
  function FreeSlot(t: seq<Entry>, i: nat): (r: nat)
    requires i <= |t|
    ensures i <= r <= |t|
    ensures forall k | i <= k < r :: t[k].status != 0
    ensures r < |t| ==> t[r].status == 0
    decreases |t| - i
  {
    if i == |t| || t[i].status == 0 then i else FreeSlot(t, i + 1)
  }

  ghost predicate GoodName(name: seq<byte>) {
    1 <= |name| <= 29 && 0 !in name && SLASH !in name
  }

  ghost predicate EntryOk(t: seq<Entry>, i: nat)
    requires i < |t|
  {
    var e := t[i];
    && e.status <= 1 && |e.name| == NAME
    && (IsLive(e) ==> e.kind <= 1 && 0 in e.name && (IsDir(e) ==> e.size == 0 && e.start == 0))
    && (IsLive(e) && i > 0 ==> e.parent < |t| && IsDir(t[e.parent]) && GoodName(NameOf(e)))
  }

  ghost predicate SameKey(e: Entry, f: Entry) {
    IsLive(e) && IsLive(f) && e.parent == f.parent && NameOf(e) == NameOf(f)
  }

  /** Entry 0 is the root; parents are live directories; no directory holds a name twice. */
  ghost predicate TableOk(t: seq<Entry>) {
    && 0 < |t| <= EOF
    && IsDir(t[0]) && t[0].parent == EOF
    && (forall i {:trigger EntryOk(t, i)} | 0 <= i < |t| :: EntryOk(t, i))
    && forall i, j {:trigger SameKey(t[i], t[j])} | 0 <= i < |t| && 0 <= j < |t| && i != j :: !SameKey(t[i], t[j])
  }

  ghost predicate RankOk(t: seq<Entry>, depth: seq<nat>, i: nat)
    requires i < |t| == |depth|
  {
    IsLive(t[i]) && i > 0 ==> t[i].parent < |t| && depth[i] == depth[t[i].parent] + 1
  }

  /** depth is the distance to the root along parent links. */
  ghost predicate Ranked(t: seq<Entry>, depth: seq<nat>): (ok: bool)
    ensures ok ==> |depth| == |t| > 0 && depth[0] == 0
  {
    |depth| == |t| && 0 < |t| && depth[0] == 0
    && forall i {:trigger RankOk(t, depth, i)} | 0 <= i < |t| :: RankOk(t, depth, i)
  }

  /** Parent links are acyclic. */
  ghost predicate Acyclic(t: seq<Entry>) {
    exists depth :: Ranked(t, depth)
  }

  // ---- Ownership of blocks ----

  /** Blocks for a file of the given size, in the code's 32-bit arithmetic. */
  function Need(size: nat): (n: nat)
    ensures n >= 1
  {
    var q := (size + 511) % U32 / 512;
    if q == 0 then 1 else q
  }

  ghost predicate Owns(v: Vol, i: nat)
    requires |v.data| <= |v.fat| && i < |v.table|
  {
    var e := v.table[i];
    && e.start < |v.data|
    && IsChain(v.fat, |v.data|, Blocks(v, i))
    && |Blocks(v, i)| == Need(e.size)
  }

  /** The blocks of file i. */
  function Blocks(v: Vol, i: nat): seq<nat>
    requires |v.data| <= |v.fat| && i < |v.table|
  {
    if v.table[i].start < |v.data| then Chain(v.fat, |v.data|, v.table[i].start) else []
  }

  ghost predicate Share(v: Vol, i: nat, j: nat)
    requires |v.data| <= |v.fat| && i < |v.table| && j < |v.table|
  {
    exists b :: b in Blocks(v, i) && b in Blocks(v, j)
  }

  ghost predicate Owned(v: Vol, b: nat)
    requires |v.data| <= |v.fat|
  {
    exists i :: 0 <= i < |v.table| && IsFile(v.table[i]) && b in Blocks(v, i)
  }

  /** Every file owns a full chain, and no two share a block. */
  ghost predicate FilesOk(v: Vol): (ok: bool)
    ensures ok ==> |v.data| <= |v.fat| && |v.data| <= EOF
  {
    && |v.data| <= |v.fat| && |v.data| <= EOF
    && (forall i {:trigger Owns(v, i)} | 0 <= i < |v.table| && IsFile(v.table[i]) :: Owns(v, i))
    && forall i, j {:trigger Share(v, i, j)} | 0 <= i < |v.table| && 0 <= j < |v.table| && i != j
         && IsFile(v.table[i]) && IsFile(v.table[j]) :: !Share(v, i, j)
  }

  /** Every block in use has an owner. */
  ghost predicate NoLeak(v: Vol)
    requires |v.data| <= |v.fat|
  {
    forall b {:trigger Owned(v, b)} | 0 <= b < |v.data| && v.fat[b] != FREE :: Owned(v, b)
  }

  /** What every volume keeps, one left by a crash included: owned blocks are in use, but not only they need be. */
  ghost predicate Sane(v: Vol): (ok: bool)
    ensures ok ==> TableOk(v.table) && FilesOk(v)
  {
    TableOk(v.table) && Acyclic(v.table) && FilesOk(v)
  }

  /** The invariant of every reachable volume. */
  ghost predicate Inv(v: Vol) {
    Sane(v) && NoLeak(v)
  }

  // ---- Meaning ----

  datatype Node = DirNode(id: nat) | FileNode(bytes: seq<byte>)

  /** The bytes of file i: its blocks one after the other, cut at its size. */
  function Content(v: Vol, i: nat): (s: seq<byte>)
    requires |v.data| <= |v.fat| && i < |v.table|
  {
    BlocksInRange(v, i);
    var c := Blocks(v, i);
    var n := if v.table[i].size < SECTOR * |c| then v.table[i].size else SECTOR * |c|;
    seq(n, x requires 0 <= x < n => v.data[c[x / SECTOR]][x % SECTOR])
  }

  lemma ChainInRange(fat: seq<nat>, n: nat, b: nat)
    requires b < n <= |fat|
    ensures forall k | 0 <= k < |Chain(fat, n, b)| :: Chain(fat, n, b)[k] < n
    decreases n - b
  {
  }

  lemma BlocksInRange(v: Vol, i: nat)
    requires |v.data| <= |v.fat| && i < |v.table|
    ensures forall k | 0 <= k < |Blocks(v, i)| :: Blocks(v, i)[k] < |v.data|
  {
    if v.table[i].start < |v.data| {
      ChainInRange(v.fat, |v.data|, v.table[i].start);
    }
  }

  /** What a directory holds under a name. */
  function Lookup(v: Vol, dir: nat, name: seq<byte>): Option<Node>
    requires |v.data| <= |v.fat|
  {
    var i := Find(v.table, dir, name, 0);
    if i == |v.table| then None
    else if v.table[i].kind == TYPE_DIR then Some(DirNode(i))
    else Some(FileNode(Content(v, i)))
  }

  lemma FindUnique(t: seq<Entry>, dir: nat, name: seq<byte>, i: nat)
    requires TableOk(t) && i < |t| && Matches(t[i], dir, name)
    ensures Find(t, dir, name, 0) == i
  {
    var r := Find(t, dir, name, 0);
    if r != i {
      assert r < |t|;
      assert SameKey(t[r], t[i]);
    }
  }
}
