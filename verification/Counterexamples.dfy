/** Where the file system does not do what its documentation leads one to expect: for each property with a condition, a
    failing input that the code can receive. All of them start from a formatted volume. */
module Counterexamples {
  import opened Bytes
  import opened Text
  import opened Layout
  import opened Volume
  import opened VolumeOps
  import opened Accounting
  import opened VolumeLaws
  import opened Paths
  import opened DiskView
  import opened Runs
  import opened Formatting

  /** A blank volume of this many table entries and data blocks. */
  ghost predicate Blank(v: Vol, entries: nat, blocks: nat) {
    BlankVolume(v, entries) && entries <= EOF && |v.data| == blocks <= |v.fat| && blocks <= EOF
  }

  /** Formatting four sectors for one file makes such a volume of eight entries and one data block. */
  lemma FourSectors()
    ensures Formattable(4, 1)
    ensures var sb := FormatSuperblock(4, 1);
            PER_BLOCK * sb.tableBlocks == 8 && sb.blockCount - DataStart(sb) == 1 && sb.totalFiles == 1
  {
  }

  /** There are such volumes of every size. */
  lemma SomeBlank(entries: nat, blocks: nat) returns (v: Vol)
    requires 1 <= entries <= EOF && blocks <= EOF
    ensures Blank(v, entries, blocks)
  {
    v := Vol([RootEntry()] + seq(entries - 1, _ => BlankEntry()), seq(blocks, _ => FREE), seq(blocks, _ => ZeroSector()));
  }

  function Letter(): seq<byte> {
    [100]
  }

  lemma LetterGood()
    ensures GoodName(Letter())
  {
  }

  lemma StartOf(v: Vol, entries: nat, blocks: nat)
    requires Blank(v, entries, blocks)
    ensures Inv(v) && Good(State(v, 0)) && Implements(v, RootTree()) && LimitsOf(v) == Limits(entries, blocks)
  {
    BlankGood(v, entries);
  }

  lemma RootUsed()
    ensures Used(RootTree()) == 0 && |RootTree()| == 1
  {
    var m, k := RootTree(), (EOF, [SLASH]);
    UsedWithout(m, k);
    assert m - {k} == map[];
  }

  // ---- An overwrite that runs out of room ----

  /** The map after one byte was written under the letter. */
  function OneByte(): Tree {
    RootTree()[(0, Letter()) := FileNode([7])]
  }

  lemma FirstWrite(v: Vol)
    requires Blank(v, 8, 1)
    ensures |v.data| <= |v.fat|
    ensures var out := WriteFile(v, 0, Letter(), [7], true);
            && out.code == 0 && Inv(out.vol) && ValidCwd(out.vol, 0) && |out.vol.data| <= |out.vol.fat|
            && Implements(out.vol, OneByte()) && Usable(out.vol) == 1
  {
    hide Sane, NoLeak, HasRoom, Lookup, Created, Deleted, Usable, Implements, Find, Used, Blank, Letter, Stored, ValidCwd;
    var s, m, c := State(v, 0), RootTree(), WriteCall(Letter(), [7], true);
    StartOf(v, 8, 1);
    LetterGood();
    RootUsed();
    LetterNew();
    AllowedIs(s, m, c);
    WriteCode(s, m, c);
    WriteRefines(s, m, c);
    WriteKeepsInv(v, 0, Letter(), [7], true);
    StoredInFull([7]);
  }

  lemma LetterNew()
    ensures (0, Letter()) !in RootTree()
    ensures RootTree() - {(0, Letter())} == RootTree() && OneByte() - {(0, Letter())} == RootTree()
  {
  }

  /** On one data block, write a byte, then write 513 over it: the second call fails, and the file is left without its
      block. */
  lemma OverwriteLosesFile(v: Vol)
    requires Blank(v, 8, 1)
    ensures |v.data| <= |v.fat|
    ensures var first := WriteFile(v, 0, Letter(), [7], true);
            && first.code == 0 && Inv(first.vol) && |first.vol.data| <= |first.vol.fat|
            && Lookup(first.vol, 0, Letter()) == Some(FileNode([7]))
            && var second := WriteFile(first.vol, 0, Letter(), seq(513, _ => 7), true);
               second.code == -1 && !Sane(second.vol)
  {
    hide Sane, NoLeak, Lookup, Usable, Used, WriteFile, Letter, ValidCwd;
    FirstWrite(v);
    LetterGood();
    var first := WriteFile(v, 0, Letter(), [7], true).vol;
    LetterNew();
    RootUsed();
    assert Lookup(first, 0, Letter()) == TreeAt(OneByte(), 0, Letter());
    SecondFails(first, OneByte(), 0, Letter(), seq(513, _ => 7));
  }

  /** Overwriting with more blocks than the rest of the map leaves fails and breaks the volume. */
  lemma SecondFails(v: Vol, m: Tree, dir: nat, name: seq<byte>, bytes: seq<byte>)
    requires Sane(v) && Implements(v, m) && ValidCwd(v, dir) && GoodName(name)
    requires (dir, name) in m && m[(dir, name)].FileNode?
    requires |v.data| <= |v.fat| && Used(m - {(dir, name)}) + Need(|bytes|) > Usable(v)
    ensures WriteFile(v, dir, name, bytes, true).code == -1 && !Sane(WriteFile(v, dir, name, bytes, true).vol)
  {
    hide Sane, HasRoom, Created, Deleted, Usable, Implements, Used, Content, Need;
    var f := Find(v.table, dir, name, 0);
    KeyFound(v, m, dir, name);
    LiveKinds(v, f);
    OverwriteRoom(v, m, f, |bytes|);
    WriteKeepsInv(v, dir, name, bytes, true);
    OverwriteIs(v, f, dir, name, bytes);
  }

  // ---- Paths that do not lead back ----

  /** A chain of n directories of the same name, each in the one before, and no other entry. */
  ghost predicate Nested(t: seq<Entry>, n: nat): (ok: bool)
    ensures ok ==> n < |t| && TableOk(t)
  {
    && n < |t| && TableOk(t)
    && (forall i | 1 <= i <= n :: IsDir(t[i]) && t[i].parent == i - 1 && NameOf(t[i]) == Letter())
    && forall i | n < i < |t| :: t[i].status == 0
  }

  /** mkdir and chdir, n times over. */
  function Dig(n: nat): seq<Call> {
    if n == 0 then [] else Dig(n - 1) + [MkDirCall(Letter()), ChDirCall(Letter())]
  }

  function Zeros(n: nat): seq<int> {
    seq(n, _ => 0)
  }

  lemma {:induction false} RunThen(s: State, calls: seq<Call>, codes: seq<int>, mid: State, more: seq<Call>,
                                   codes': seq<int>, final: State)
    requires Run(s, calls, codes, mid) && Run(mid, more, codes', final)
    ensures Run(s, calls + more, codes + codes', final)
    decreases |calls|
  {
    hide Allowed, Exec;
    if calls == [] {
      assert [] + more == more && [] + codes' == codes';
    } else {
      RunThen(Exec(s, calls[0]).state, calls[1..], codes[1..], mid, more, codes', final);
      assert (calls + more)[1..] == calls[1..] + more && (codes + codes')[1..] == codes[1..] + codes';
    }
  }

  /** In a chain of n, mkdir takes the next slot. */
  lemma NestedMkDir(v: Vol, n: nat)
    requires Sane(v) && Nested(v.table, n) && n + 1 < |v.table|
    ensures ValidCwd(v, n) && GoodName(Letter()) && forall i | 0 <= i < |v.table| :: |v.table[i].name| == NAME
    ensures var out := MkDir(v, n, Letter());
            && out.code == 0 && Sane(out.vol) && Nested(out.vol.table, n + 1) && |out.vol.table| == |v.table|
  {
    hide Acyclic, FilesOk, Letter, Lookup, CStr;
    var t := v.table;
    LetterGood();
    assert ValidCwd(v, n);
    MkDirMeaning(v, n, Letter(), 0, []);
    forall i | 0 <= i < |t|
      ensures !Matches(t[i], n, Letter())
    {
      assert i == 0 || i <= n || t[i].status == 0;
    }
    FindNone(t, n, Letter());
    forall i | 0 <= i <= n
      ensures t[i].status == 1
    {
    }
    var s := FreeSlot(t, 0);
    assert t[n + 1].status == 0;
    assert s == n + 1;
    DirName(t[s], Letter(), n);
  }

  lemma NestedChDir(v: Vol, n: nat)
    requires Sane(v) && Nested(v.table, n + 1)
    ensures ChDir(State(v, n), Letter()) == Reply(State(v, n + 1), 0)
  {
    hide Acyclic, FilesOk;
    assert IsDir(v.table[n + 1]) && v.table[n + 1].parent == n;
    FindUnique(v.table, n, Letter(), n + 1);
    OneComponent();
  }

  lemma OneComponent()
    ensures Components(Letter()) == [Letter()] && !Absolute(Letter()) && SLASH !in Letter()
  {
    PartsAfter(Letter(), []);
    KeepGood([Letter()]);
  }

  lemma TwoCalls(s: State, c: Call, d: Call, final: State)
    requires Allowed(s, c) && Exec(s, c).code == 0 && Allowed(Exec(s, c).state, d)
    requires Exec(Exec(s, c).state, d) == Reply(final, 0)
    ensures Run(s, [c, d], [0, 0], final)
  {
    hide Allowed, Exec;
    assert Run(final, [], [], final);
    assert [d][1..] == [] && [0][1..] == [];
    assert Run(Exec(s, c).state, [d], [0], final);
    assert [c, d][1..] == [d] && [0, 0][1..] == [0];
  }

  /** Digging n levels succeeds wherever the table has room for n directories. */
  lemma {:induction false} DigRuns(v: Vol, entries: nat, blocks: nat, n: nat) returns (w: Vol)
    requires Blank(v, entries, blocks) && n < entries
    ensures Run(State(v, 0), Dig(n), Zeros(2 * n), State(w, n))
    ensures Sane(w) && Nested(w.table, n) && |w.table| == entries
  {
    hide Sane, Letter, MkDir, ChDir, Blank, Nested, Run, ValidCwd;
    if n == 0 {
      w := v;
      BlankNested(v, entries, blocks);
      NoCalls(State(v, 0));
    } else {
      var u := DigRuns(v, entries, blocks, n - 1);
      NestedMkDir(u, n - 1);
      w := MkDir(u, n - 1, Letter()).vol;
      NestedChDir(w, n - 1);
      var s0, s2 := State(u, n - 1), State(w, n);
      var mk, ch := MkDirCall(Letter()), ChDirCall(Letter());
      MkDirMeaning(u, n - 1, Letter(), 0, []);
      TwoCalls(s0, mk, ch, s2);
      RunThen(State(v, 0), Dig(n - 1), Zeros(2 * n - 2), s0, [mk, ch], [0, 0], s2);
      assert Zeros(2 * n) == Zeros(2 * n - 2) + [0, 0];
    }
  }

  lemma NoCalls(s: State)
    ensures Run(s, Dig(0), Zeros(0), s)
  {
  }

  lemma BlankNested(v: Vol, entries: nat, blocks: nat)
    requires Blank(v, entries, blocks)
    ensures Sane(v) && Nested(v.table, 0) && |v.table| == entries && ValidCwd(v, 0)
  {
    StartOf(v, entries, blocks);
  }

  lemma {:induction false} NestedDepth(t: seq<Entry>, n: nat, depth: seq<nat>, i: nat)
    requires Nested(t, n) && Ranked(t, depth) && i <= n
    ensures IsDir(t[i]) && depth[i] == i
  {
    if i > 0 {
      NestedDepth(t, n, depth, i - 1);
      assert RankOk(t, depth, i);
    }
  }

  /** Seventeen levels down, the path printed does not lead to the current directory: split_path drops the last name. */
  lemma SeventeenDeep(v: Vol, blocks: nat, total: nat) returns (w: Vol, depth: seq<nat>)
    requires Blank(v, 24, blocks)
    ensures Run(State(v, 0), Dig(17), Zeros(34), State(w, 17))
    ensures TableOk(w.table) && Ranked(w.table, depth) && |w.table| == 24 && IsDir(w.table[17])
    ensures Resolve(w.table, 17, CurrentPath(w.table, depth, 17, total)) != Some(Slot(17))
  {
    hide Nested, Acyclic, FilesOk, Run, Resolve, CurrentPath;
    w := DigRuns(v, 24, blocks, 17);
    depth := SomeDepth(w.table);
    NestedDepth(w.table, 17, depth, 17);
    PathRoundTrip(w.table, depth, 17, total);
  }

  lemma SomeDepth(t: seq<Entry>) returns (depth: seq<nat>)
    requires Acyclic(t)
    ensures Ranked(t, depth)
  {
    depth :| Ranked(t, depth);
  }

  /** On a volume formatted for one file, whose table has eight slots all the same, mkdir and chdir succeed, and the path
      printed in the new directory is that of the root, which resolves to sector 0. */
  lemma SlotBeyondTotal(v: Vol, blocks: nat) returns (w: Vol, depth: seq<nat>)
    requires Blank(v, 8, blocks)
    ensures Run(State(v, 0), Dig(1), Zeros(2), State(w, 1))
    ensures TableOk(w.table) && Ranked(w.table, depth) && |w.table| == 8 && IsDir(w.table[1])
    ensures CurrentPath(w.table, depth, 1, FormatSuperblock(4, 1).totalFiles) == [SLASH]
    ensures Resolve(w.table, 1, [SLASH]) == Some(BootSector)
  {
    hide Nested, Acyclic, FilesOk, Run, Components;
    w := DigRuns(v, 8, blocks, 1);
    depth := SomeDepth(w.table);
    NestedDepth(w.table, 1, depth, 1);
    FourSectors();
    BareSlash();
  }
}
