/** The file system as a state machine, the map from (directory, name) to contents that it implements, and the
    proof that every run of it does. */
module Runs {
  import opened Bytes
  import opened Text
  import opened Layout
  import opened Volume
  import opened VolumeOps
  import opened Accounting
  import opened VolumeLaws
  import opened Paths

  datatype State = State(vol: Vol, cwd: nat)

  datatype Call =
    | WriteCall(name: seq<byte>, bytes: seq<byte>, granted: bool)
    | DeleteCall(path: seq<byte>)
    | MkDirCall(name: seq<byte>)
    | ChDirCall(path: seq<byte>)

  datatype Reply = Reply(state: State, code: int)

  ghost predicate Good(s: State) {
    Sane(s.vol) && ValidCwd(s.vol, s.cwd)
  }

  // ---- One call ----

  function Delete(s: State, path: seq<byte>): Reply
    requires |s.vol.data| <= |s.vol.fat|
  {
    match FindFile(s.vol.table, s.cwd, path)
    case Some(Slot(i)) =>
      if i < |s.vol.table| then Reply(s.(vol := Deleted(s.vol, i)), 0) else Reply(s, -1)
    case _ => Reply(s, -1)
  }

  function ChDir(s: State, path: seq<byte>): Reply {
    match Resolve(s.vol.table, s.cwd, path)
    case Some(Slot(i)) =>
      if i < |s.vol.table| && IsDir(s.vol.table[i]) then Reply(s.(cwd := i), 0) else Reply(s, -1)
    case _ => Reply(s, -1)
  }

  /** What the contract asks: good names; write and delete aim at files, and no overwrite runs out of room. */
  ghost predicate Allowed(s: State, c: Call) {
    Good(s) &&
    match c
    case WriteCall(name, bytes, granted) =>
      && GoodName(name) && NoDirThere(s.vol, s.cwd, name)
      && var f := Find(s.vol.table, s.cwd, name, 0);
         f < |s.vol.table| ==> granted && HasRoom(Deleted(s.vol, f), |bytes|)
    case DeleteCall(path) =>
      (match FindFile(s.vol.table, s.cwd, path)
       case Some(Slot(i)) => i < |s.vol.table| && IsFile(s.vol.table[i])
       case Some(BootSector) => false
       case None => true)
    case MkDirCall(name) => GoodName(name)
    case ChDirCall(path) => true
  }

  ghost function Exec(s: State, c: Call): Reply
    requires Allowed(s, c)
  {
    match c
    case WriteCall(name, bytes, granted) =>
      var out := WriteFile(s.vol, s.cwd, name, bytes, granted); Reply(s.(vol := out.vol), out.code)
    case DeleteCall(path) => Delete(s, path)
    case MkDirCall(name) =>
      MkDirMeaning(s.vol, s.cwd, name, 0, []);
      var out := MkDir(s.vol, s.cwd, name); Reply(s.(vol := out.vol), out.code)
    case ChDirCall(path) => ChDir(s, path)
  }

  // ---- The simple meaning ----

  type Key = (nat, seq<byte>)
  type Tree = map<Key, Node>

  function TreeAt(m: Tree, dir: nat, name: seq<byte>): Option<Node> {
    if (dir, name) in m then Some(m[(dir, name)]) else None
  }

  /** The volume implements the map. */
  ghost predicate Implements(v: Vol, m: Tree)
    requires |v.data| <= |v.fat|
  {
    forall dir, name :: Lookup(v, dir, name) == TreeAt(m, dir, name)
  }

  /** Follow names through the map; the last one need not be a directory. */
  function TreeWalk(m: Tree, dir: nat, cs: seq<seq<byte>>): Option<Key>
    decreases |cs|
  {
    if cs == [] then None
    else if |cs| == 1 then (if (dir, cs[0]) in m then Some((dir, cs[0])) else None)
    else match TreeAt(m, dir, cs[0])
      case Some(DirNode(id)) => TreeWalk(m, id, cs[1..])
      case _ => None
  }

  /** The key a path leads to, read in the map alone. */
  function TreeFind(m: Tree, cwd: nat, path: seq<byte>): Option<Key> {
    if SLASH !in path then TreeWalk(m, cwd, [path])
    else TreeWalk(m, if Absolute(path) then 0 else cwd, Components(path))
  }

  /** What bounds the map: table slots, the root's included, and blocks for contents. */
  datatype Limits = Limits(slots: nat, blocks: nat)

  ghost function LimitsOf(v: Vol): Limits
    requires |v.data| <= |v.fat|
  {
    Limits(|v.table|, Usable(v))
  }

  ghost predicate SameLimits(v: Vol, w: Vol)
    requires |v.data| <= |v.fat| && |w.data| <= |w.fat|
  {
    |w.data| == |v.data| && LimitsOf(w) == LimitsOf(v)
  }

  function Cost(n: Node): nat {
    match n
    case DirNode(_) => 0
    case FileNode(bytes) => Need(|bytes|)
  }

  /** Blocks the map's contents take. */
  ghost function Used(m: Tree): nat
    decreases |m|
  {
    if m == map[] then 0 else
    var k :| k in m;
    Used(m - {k}) + Cost(m[k])
  }

  /** Whether a path leads to a directory. */
  predicate LeadsToDir(m: Tree, cwd: nat, path: seq<byte>) {
    match TreeWalk(m, if Absolute(path) then 0 else cwd, Components(path))
    case Some(k) => k in m && m[k].DirNode?
    case None => false
  }

  /** The reply the map gives to a call. */
  ghost function CodeOf(m: Tree, cwd: nat, c: Call, lim: Limits): int {
    var ok :=
      match c
      case WriteCall(name, bytes, granted) =>
        var others := m - {(cwd, name)};
        granted && |others| < lim.slots && Used(others) + Need(|bytes|) <= lim.blocks
      case DeleteCall(path) => TreeFind(m, cwd, path).Some?
      case MkDirCall(name) => (cwd, name) !in m && |m| < lim.slots
      case ChDirCall(path) => LeadsToDir(m, cwd, path);
    if ok then 0 else -1
  }

  /** What the contract asks, read off the map. */
  ghost predicate Permitted(m: Tree, cwd: nat, c: Call, lim: Limits) {
    match c
    case WriteCall(name, bytes, granted) =>
      GoodName(name) &&
      (match TreeAt(m, cwd, name)
       case None => true
       case Some(DirNode(_)) => false
       case Some(FileNode(_)) => CodeOf(m, cwd, c, lim) == 0)
    case DeleteCall(path) =>
      (match TreeFind(m, cwd, path)
       case Some(k) => k in m && m[k].FileNode?
       case None => !(SLASH in path && Absolute(path) && Components(path) == []))
    case MkDirCall(name) => GoodName(name)
    case ChDirCall(path) => true
  }

  /** What each call does to map and current directory, given its reply. A successful mkdir picks the directory's
      number. */
  function Meaning(m: Tree, cwd: nat, c: Call, code: int, id: nat): (Tree, nat) {
    if code != 0 then (m, cwd) else
    match c
    case WriteCall(name, bytes, granted) => (m[(cwd, name) := FileNode(Stored(bytes))], cwd)
    case DeleteCall(path) =>
      (match TreeFind(m, cwd, path)
       case Some(k) => (m - {k}, cwd)
       case None => (m, cwd))
    case MkDirCall(name) => (m[(cwd, name) := DirNode(id)], cwd)
    case ChDirCall(path) =>
      (match TreeWalk(m, if Absolute(path) then 0 else cwd, Components(path))
       case Some(k) => (m, if k in m && m[k].DirNode? then m[k].id else cwd)
       case None => (m, cwd))
  }

  // ---- Paths in table and map ----

  ghost predicate Leads(v: Vol, i: nat, k: Key) {
    i < |v.table| && IsLive(v.table[i]) && v.table[i].parent == k.0 && NameOf(v.table[i]) == k.1
  }

  /** The walk over table entries and the walk over the map take the same steps. */
  lemma {:induction false} WalksAgree(v: Vol, m: Tree, dir: nat, cs: seq<seq<byte>>)
    requires Sane(v) && Implements(v, m)
    ensures match TreeWalk(m, dir, cs)
            case None => Walk(v.table, dir, cs) == None
            case Some(k) => k in m && Walk(v.table, dir, cs).Some? && Leads(v, Walk(v.table, dir, cs).value, k)
    decreases |cs|
  {
    hide Content, TableOk, Acyclic, FilesOk, Blocks;
    if cs != [] {
      var f := Find(v.table, dir, cs[0], 0);
      assert Lookup(v, dir, cs[0]) == TreeAt(m, dir, cs[0]);
      if |cs| > 1 && f < |v.table| && v.table[f].kind == TYPE_DIR {
        WalksAgree(v, m, f, cs[1..]);
      }
    }
  }

  lemma PathsAgree(v: Vol, m: Tree, cwd: nat, path: seq<byte>)
    requires Sane(v) && Implements(v, m)
    ensures match TreeFind(m, cwd, path)
            case None => FindFile(v.table, cwd, path) == None || FindFile(v.table, cwd, path) == Some(BootSector)
            case Some(k) => k in m && FindFile(v.table, cwd, path).Some? && FindFile(v.table, cwd, path).value.Slot?
                            && Leads(v, FindFile(v.table, cwd, path).value.index, k)
  {
    hide Sane, Implements, TreeWalk, Walk, Components;
    if SLASH !in path {
      WalksAgree(v, m, cwd, [path]);
      WalkOne(v.table, m, cwd, path);
    } else {
      var dir, cs := if Absolute(path) then 0 else cwd, Components(path);
      WalksAgree(v, m, dir, cs);
      if cs == [] {
        WalkNothing(m, dir);
      }
    }
  }

  lemma WalkOne(t: seq<Entry>, m: Tree, dir: nat, name: seq<byte>)
    ensures Walk(t, dir, [name]) == if Find(t, dir, name, 0) < |t| then Some(Find(t, dir, name, 0)) else None
  {
  }

  lemma WalkNothing(m: Tree, dir: nat)
    ensures TreeWalk(m, dir, []) == None
  {
  }

  /** An entry and the map's node under its key are the same thing. */
  lemma NodeOf(v: Vol, m: Tree, i: nat, k: Key)
    requires Sane(v) && Implements(v, m) && Leads(v, i, k)
    ensures |v.data| <= |v.fat|
    ensures k in m && m[k] == if v.table[i].kind == TYPE_DIR then DirNode(i) else FileNode(Content(v, i))
  {
    FindUnique(v.table, k.0, k.1, i);
    assert Lookup(v, k.0, k.1) == TreeAt(m, k.0, k.1);
  }

  /** What a read through any path returns is what the map holds under the key the path leads to. */
  lemma ReadMeaning(v: Vol, m: Tree, cwd: nat, path: seq<byte>, i: nat)
    requires Sane(v) && Implements(v, m) && i < |v.table|
    requires FindFile(v.table, cwd, path) == Some(Slot(i)) && IsFile(v.table[i])
    ensures |v.data| <= |v.fat|
    ensures TreeFind(m, cwd, path).Some? && TreeFind(m, cwd, path).value in m
    ensures m[TreeFind(m, cwd, path).value] == FileNode(Content(v, i))
  {
    PathsAgree(v, m, cwd, path);
    NodeOf(v, m, i, TreeFind(m, cwd, path).value);
  }

  // ---- Counting in table and map ----

  lemma {:induction false} UsedWithout(m: Tree, k: Key)
    requires k in m
    ensures Used(m) == Used(m - {k}) + Cost(m[k])
    decreases |m|
  {
    var j :| j in m && Used(m) == Used(m - {j}) + Cost(m[j]);
    if j != k {
      UsedWithout(m - {j}, k);
      UsedWithout(m - {k}, j);
      assert m - {j} - {k} == m - {k} - {j};
    }
  }

  /** The key and the node of entry i. */
  function KeyOf(e: Entry): Key {
    (e.parent, NameOf(e))
  }

  function NodeAt(v: Vol, i: nat): Node
    requires |v.data| <= |v.fat| && i < |v.table|
  {
    if v.table[i].kind == TYPE_DIR then DirNode(i) else FileNode(Content(v, i))
  }

  /** The map of the first k entries. */
  ghost function TreeOf(v: Vol, k: nat): Tree
    requires |v.data| <= |v.fat| && k <= |v.table|
  {
    if k == 0 then map[]
    else if IsLive(v.table[k - 1]) then TreeOf(v, k - 1)[KeyOf(v.table[k - 1]) := NodeAt(v, k - 1)]
    else TreeOf(v, k - 1)
  }

  lemma {:induction false} TreeOfHas(v: Vol, k: nat, key: Key)
    requires Sane(v) && k <= |v.table|
    ensures key in TreeOf(v, k)
            <==> exists i :: 0 <= i < k && IsLive(v.table[i]) && KeyOf(v.table[i]) == key
    ensures forall i | 0 <= i < k && IsLive(v.table[i]) && KeyOf(v.table[i]) == key :: TreeOf(v, k)[key] == NodeAt(v, i)
  {
    hide Acyclic, FilesOk, NodeAt, NameOf;
    if k > 0 {
      TreeOfHas(v, k - 1, key);
      forall i | 0 <= i < k - 1 && IsLive(v.table[i]) && IsLive(v.table[k - 1])
        ensures KeyOf(v.table[i]) != KeyOf(v.table[k - 1])
      {
        assert !SameKey(v.table[i], v.table[k - 1]);
      }
    }
  }

  /** The map a volume implements is the one its entries spell. */
  lemma TreeIs(v: Vol, m: Tree)
    requires Sane(v) && Implements(v, m)
    ensures m == TreeOf(v, |v.table|)
  {
    hide Acyclic, FilesOk, NodeAt, TreeOf, Content;
    var t := TreeOf(v, |v.table|);
    forall key: Key
      ensures key in m <==> key in t
      ensures key in t ==> m[key] == t[key]
    {
      TreeOfHas(v, |v.table|, key);
      var i := Find(v.table, key.0, key.1, 0);
      assert Lookup(v, key.0, key.1) == TreeAt(m, key.0, key.1);
      LookupIs(v, key);
    }
  }

  lemma LookupIs(v: Vol, key: Key)
    requires |v.data| <= |v.fat|
    ensures var i := Find(v.table, key.0, key.1, 0);
            && i <= |v.table|
            && Lookup(v, key.0, key.1) == (if i == |v.table| then None else Some(NodeAt(v, i)))
            && (i < |v.table| ==> IsLive(v.table[i]) && KeyOf(v.table[i]) == key)
            && forall k | 0 <= k < i && IsLive(v.table[k]) :: KeyOf(v.table[k]) != key
  {
    hide Content;
    var i := Find(v.table, key.0, key.1, 0);
    forall k | 0 <= k < i && IsLive(v.table[k])
      ensures KeyOf(v.table[k]) != key
    {
      assert !Matches(v.table[k], key.0, key.1);
    }
  }

  /** Every sane volume implements a map. */
  lemma TreeOfImplements(v: Vol)
    requires Sane(v)
    ensures |v.data| <= |v.fat| && Implements(v, TreeOf(v, |v.table|))
  {
    hide Sane, NodeAt, TreeOf, Lookup;
    forall dir, name
      ensures Lookup(v, dir, name) == TreeAt(TreeOf(v, |v.table|), dir, name)
    {
      TreeOfHas(v, |v.table|, (dir, name));
      LookupIs(v, (dir, name));
    }
  }

  lemma ChargeIsCost(v: Vol, i: nat)
    requires Sane(v) && i < |v.table| && IsLive(v.table[i])
    ensures Charge(v.table[i]) == Cost(NodeAt(v, i))
  {
    hide Acyclic, Chain;
    TwoKinds(v.table, i);
    if IsFile(v.table[i]) {
      assert Owns(v, i);
    }
  }

  /** Keys are as many as live entries, and contents cost what the entries are charged. */
  lemma {:induction false} TreeOfCounts(v: Vol, k: nat)
    requires Sane(v) && k <= |v.table|
    ensures |TreeOf(v, k)| == LiveCount(v.table, k) && Used(TreeOf(v, k)) == Charged(v.table, k)
  {
    hide Sane, NodeAt, KeyOf, Cost, Charge;
    if k > 0 {
      TreeOfCounts(v, k - 1);
      var before, i := TreeOf(v, k - 1), k - 1;
      if IsLive(v.table[i]) {
        var key := KeyOf(v.table[i]);
        NewKey(v, i);
        ChargeIsCost(v, i);
        var m := before[key := NodeAt(v, i)];
        assert m - {key} == before;
        UsedWithout(m, key);
      } else {
        NoCharge(v.table[i]);
      }
    }
  }

  lemma NewKey(v: Vol, i: nat)
    requires Sane(v) && i < |v.table| && IsLive(v.table[i])
    ensures KeyOf(v.table[i]) !in TreeOf(v, i)
  {
    hide NodeAt, Acyclic, FilesOk, TreeOf;
    TreeOfHas(v, i, KeyOf(v.table[i]));
    forall j | 0 <= j < i && IsLive(v.table[j])
      ensures KeyOf(v.table[j]) != KeyOf(v.table[i])
    {
      assert !SameKey(v.table[j], v.table[i]);
    }
  }

  /** What the map says about slots and blocks is what the volume has. */
  lemma CountsAgree(v: Vol, m: Tree)
    requires Sane(v) && Implements(v, m)
    ensures |m| < |v.table| <==> FreeSlot(v.table, 0) < |v.table|
    ensures Used(m) + FreeCount(v.fat, |v.data|) == Usable(v)
  {
    hide TreeOf, Used, Implements;
    TreeIs(v, m);
    TreeOfCounts(v, |v.table|);
    SlotIsCount(v.table);
  }

  // ---- One call refines the map ----

  lemma DeletedImplements(v: Vol, m: Tree, f: nat)
    requires Sane(v) && Implements(v, m) && f < |v.table| && IsFile(v.table[f])
    ensures Sane(Deleted(v, f)) && SameLimits(v, Deleted(v, f))
    ensures Implements(Deleted(v, f), m - {KeyOf(v.table[f])})
  {
    hide Sane, Lookup, Deleted, NameOf, Usable;
    DeletedLookup(v, f, 0, []);
    DeletedUsable(v, f);
    DeletedSizes(v, f);
    forall dir, name
      ensures Lookup(Deleted(v, f), dir, name) == TreeAt(m - {KeyOf(v.table[f])}, dir, name)
    {
      DeletedLookup(v, f, dir, name);
    }
  }

  lemma KeyFound(v: Vol, m: Tree, dir: nat, name: seq<byte>)
    requires Sane(v) && Implements(v, m)
    ensures var f := Find(v.table, dir, name, 0);
            && |v.data| <= |v.fat| && ((dir, name) in m <==> f < |v.table|)
            && (f < |v.table| ==> KeyOf(v.table[f]) == (dir, name) && m[(dir, name)] == NodeAt(v, f))
  {
    hide Content, TableOk, Acyclic, FilesOk;
    assert Lookup(v, dir, name) == TreeAt(m, dir, name);
  }

  /** Whether an overwrite has room can be read off the map. */
  lemma OverwriteRoom(v: Vol, m: Tree, f: nat, size: nat)
    requires Sane(v) && Implements(v, m) && f < |v.table| && IsFile(v.table[f])
    ensures Sane(Deleted(v, f))
    ensures var others := m - {KeyOf(v.table[f])};
            && |others| < |v.table|
            && (HasRoom(Deleted(v, f), size) <==> Used(others) + Need(size) <= Usable(v))
  {
    hide Sane, Implements, HasRoom, Used, Usable, Deleted, Need, KeyOf;
    var w, others := Deleted(v, f), m - {KeyOf(v.table[f])};
    DeletedImplements(v, m, f);
    DeletedSizes(v, f);
    CountsAgree(w, others);
    RoomIsCount(w, size);
  }

  /** The map gives write_file's reply. */
  lemma WriteCode(s: State, m: Tree, c: Call)
    requires c.WriteCall? && Allowed(s, c) && Implements(s.vol, m)
    ensures Exec(s, c).code == CodeOf(m, s.cwd, c, LimitsOf(s.vol))
  {
    hide Sane, Implements, HasRoom, Deleted, Created, KeyOf, Usable, Used, Need, ValidCwd, NodeAt;
    var v, key := s.vol, (s.cwd, c.name);
    var f := Find(v.table, s.cwd, c.name, 0);
    KeyFound(v, m, s.cwd, c.name);
    if f < |v.table| {
      FileThere(v, s.cwd, c.name);
      OverwriteIs(v, f, s.cwd, c.name, c.bytes);
      OverwriteRoom(v, m, f, |c.bytes|);
    } else {
      assert m - {key} == m;
      CountsAgree(v, m);
      RoomIsCount(v, |c.bytes|);
    }
  }

  lemma FileThere(v: Vol, cwd: nat, name: seq<byte>)
    requires Sane(v) && NoDirThere(v, cwd, name) && Find(v.table, cwd, name, 0) < |v.table|
    ensures IsFile(v.table[Find(v.table, cwd, name, 0)])
  {
    TwoKinds(v.table, Find(v.table, cwd, name, 0));
  }

  lemma WriteRefines(s: State, m: Tree, c: Call)
    requires c.WriteCall? && Allowed(s, c) && Implements(s.vol, m)
    ensures var r := Exec(s, c);
            && Good(r.state) && r.state.cwd == s.cwd && SameLimits(s.vol, r.state.vol)
            && Implements(r.state.vol, Meaning(m, s.cwd, c, r.code, 0).0)
  {
    hide Sane, Lookup, Stored, HasRoom, Deleted, WriteFile, ValidCwd, Usable;
    var out := WriteFile(s.vol, s.cwd, c.name, c.bytes, c.granted);
    if out.code == 0 {
      WriteMeaning(s.vol, s.cwd, c.name, c.bytes, c.granted, s.cwd, c.name);
      WriteUsable(s.vol, s.cwd, c.name, c.bytes, c.granted);
      forall dir, name
        ensures Lookup(out.vol, dir, name) == TreeAt(Meaning(m, s.cwd, c, 0, 0).0, dir, name)
      {
        WriteMeaning(s.vol, s.cwd, c.name, c.bytes, c.granted, dir, name);
      }
    } else {
      WriteFailed(s.vol, s.cwd, c.name, c.bytes, c.granted);
    }
  }

  lemma WriteFailed(v: Vol, cwd: nat, name: seq<byte>, bytes: seq<byte>, granted: bool)
    requires |v.data| <= |v.fat| && |name| <= 29 && WriteFile(v, cwd, name, bytes, granted).code != 0
    requires var f := Find(v.table, cwd, name, 0); f < |v.table| ==> granted && HasRoom(Deleted(v, f), |bytes|)
    ensures WriteFile(v, cwd, name, bytes, granted).vol == v
  {
    var f := Find(v.table, cwd, name, 0);
    if f < |v.table| {
      OverwriteIs(v, f, cwd, name, bytes);
    }
  }

  lemma DeleteRefines(s: State, m: Tree, c: Call)
    requires c.DeleteCall? && Allowed(s, c) && Implements(s.vol, m)
    ensures var r := Exec(s, c);
            && Good(r.state) && r.state.cwd == s.cwd && SameLimits(s.vol, r.state.vol)
            && r.code == CodeOf(m, s.cwd, c, LimitsOf(s.vol))
            && Implements(r.state.vol, Meaning(m, s.cwd, c, r.code, 0).0)
  {
    hide Sane, Implements, FindFile, TreeFind, Deleted, NameOf, Usable;
    PathsAgree(s.vol, m, s.cwd, c.path);
    var r := Delete(s, c.path);
    if r.code == 0 {
      var i := FindFile(s.vol.table, s.cwd, c.path).value.index;
      DeletedImplements(s.vol, m, i);
      DeletedDirs(s.vol, i, s.cwd);
    }
  }

  lemma DeletedDirs(v: Vol, f: nat, cwd: nat)
    requires |v.data| <= |v.fat| && f < |v.table| && IsFile(v.table[f]) && ValidCwd(v, cwd)
    ensures ValidCwd(Deleted(v, f), cwd)
  {
  }

  lemma MkDirRefines(s: State, m: Tree, c: Call)
    requires c.MkDirCall? && Allowed(s, c) && Implements(s.vol, m)
    ensures var r, id := Exec(s, c), FreeSlot(s.vol.table, 0);
            && Good(r.state) && r.state.cwd == s.cwd && SameLimits(s.vol, r.state.vol)
            && r.code == CodeOf(m, s.cwd, c, LimitsOf(s.vol))
            && Implements(r.state.vol, Meaning(m, s.cwd, c, r.code, id).0)
            && (r.code == 0 ==> NewId(m, id))
  {
    hide Sane, Lookup, MkDir, Usable, Used;
    var r, id := Exec(s, c), FreeSlot(s.vol.table, 0);
    MkDirMeaning(s.vol, s.cwd, c.name, 0, []);
    MkDirUsable(s.vol, s.cwd, c.name);
    CountsAgree(s.vol, m);
    assert Lookup(s.vol, s.cwd, c.name) == TreeAt(m, s.cwd, c.name);
    forall dir, name
      ensures Lookup(r.state.vol, dir, name) == TreeAt(Meaning(m, s.cwd, c, r.code, id).0, dir, name)
    {
      MkDirMeaning(s.vol, s.cwd, c.name, dir, name);
    }
    if r.code == 0 {
      FreshId(s.vol, m);
    }
  }

  lemma MkDirUsable(v: Vol, cwd: nat, name: seq<byte>)
    requires |v.data| <= |v.fat| && |name| <= 29 && forall i | 0 <= i < |v.table| :: |v.table[i].name| == NAME
    ensures var w := MkDir(v, cwd, name).vol;
            && |w.data| <= |w.fat| && |w.data| == |v.data| && |w.table| == |v.table| && Usable(w) == Usable(v)
  {
    hide Usable;
    if MkDir(v, cwd, name).code == 0 {
      MadeDirUsable(v, FreeSlot(v.table, 0), cwd, name);
    }
  }

  /** No directory of the map, nor the root, has this number. */
  ghost predicate NewId(m: Tree, id: nat) {
    id != 0 && forall k | k in m :: m[k] != DirNode(id)
  }

  lemma FreshId(v: Vol, m: Tree)
    requires Sane(v) && Implements(v, m) && FreeSlot(v.table, 0) < |v.table|
    ensures NewId(m, FreeSlot(v.table, 0))
  {
    hide Content;
    forall k | k in m
      ensures m[k] != DirNode(FreeSlot(v.table, 0))
    {
      assert Lookup(v, k.0, k.1) == TreeAt(m, k.0, k.1);
    }
  }

  lemma ChDirRefines(s: State, m: Tree, c: Call)
    requires c.ChDirCall? && Allowed(s, c) && Implements(s.vol, m)
    ensures var r := Exec(s, c);
            && Good(r.state) && r.state.vol == s.vol && |s.vol.data| <= |s.vol.fat|
            && r.code == CodeOf(m, s.cwd, c, LimitsOf(s.vol))
            && Meaning(m, s.cwd, c, r.code, 0) == (m, r.state.cwd)
  {
    hide Sane, Lookup, Walk, TreeWalk, Implements, Usable;
    var dir, cs := if Absolute(c.path) then 0 else s.cwd, Components(c.path);
    WalksAgree(s.vol, m, dir, cs);
    if cs == [] {
      WalkNothing(m, dir);
    }
    if Walk(s.vol.table, dir, cs).Some? {
      NodeOf(s.vol, m, Walk(s.vol.table, dir, cs).value, TreeWalk(m, dir, cs).value);
    }
  }

  // ---- Runs ----

  /** A run of allowed calls, with the reply code of each. */
  ghost predicate Run(s: State, calls: seq<Call>, codes: seq<int>, final: State)
    decreases |calls|
  {
    if calls == [] then codes == [] && final == s
    else Allowed(s, calls[0]) && codes != [] && codes[0] == Exec(s, calls[0]).code
         && Run(Exec(s, calls[0]).state, calls[1..], codes[1..], final)
  }

  /** The same run in the map, which determines every reply; each successful mkdir picks a number no directory has. */
  ghost predicate TreeRun(m: Tree, cwd: nat, lim: Limits, calls: seq<Call>, codes: seq<int>, m': Tree, cwd': nat)
    decreases |calls|
  {
    if calls == [] then codes == [] && m' == m && cwd' == cwd
    else codes != [] && exists id :: TreeStep(m, cwd, lim, calls, codes, m', cwd', id)
  }

  ghost predicate TreeStep(m: Tree, cwd: nat, lim: Limits, calls: seq<Call>, codes: seq<int>, m': Tree, cwd': nat, id: nat)
    requires calls != [] && codes != []
    decreases |calls|, 0
  {
    && Permitted(m, cwd, calls[0], lim)
    && codes[0] == CodeOf(m, cwd, calls[0], lim)
    && (calls[0].MkDirCall? && codes[0] == 0 ==> NewId(m, id))
    && var next := Meaning(m, cwd, calls[0], codes[0], id);
       TreeRun(next.0, next.1, lim, calls[1..], codes[1..], m', cwd')
  }

  lemma WriteAllowedIs(s: State, m: Tree, c: Call)
    requires c.WriteCall? && Good(s) && Implements(s.vol, m)
    ensures |s.vol.data| <= |s.vol.fat|
    ensures Allowed(s, c) <==> Permitted(m, s.cwd, c, LimitsOf(s.vol))
  {
    hide Sane, ValidCwd, Implements, HasRoom, Deleted, Used, Usable, Need, Content;
    var f := Find(s.vol.table, s.cwd, c.name, 0);
    KeyFound(s.vol, m, s.cwd, c.name);
    if f < |s.vol.table| {
      LiveKinds(s.vol, f);
      if IsFile(s.vol.table[f]) {
        OverwriteRoom(s.vol, m, f, |c.bytes|);
      }
    }
  }

  lemma DeleteAllowedIs(s: State, m: Tree, c: Call)
    requires c.DeleteCall? && Good(s) && Implements(s.vol, m)
    ensures |s.vol.data| <= |s.vol.fat|
    ensures Allowed(s, c) <==> Permitted(m, s.cwd, c, LimitsOf(s.vol))
  {
    hide Sane, ValidCwd, Implements, TreeFind, FindFile, Components, Content, LimitsOf;
    PathsAgree(s.vol, m, s.cwd, c.path);
    BootTarget(s.vol.table, s.cwd, c.path);
    if TreeFind(m, s.cwd, c.path).Some? {
      var i := FindFile(s.vol.table, s.cwd, c.path).value.index;
      NodeOf(s.vol, m, i, TreeFind(m, s.cwd, c.path).value);
      LiveKinds(s.vol, i);
    }
  }

  /** What the contract asks of a call can be read off the map. */
  lemma AllowedIs(s: State, m: Tree, c: Call)
    requires Good(s) && Implements(s.vol, m)
    ensures |s.vol.data| <= |s.vol.fat|
    ensures Allowed(s, c) <==> Permitted(m, s.cwd, c, LimitsOf(s.vol))
  {
    hide Sane, ValidCwd, Implements, LimitsOf, TreeFind, FindFile, GoodName;
    match c
    case WriteCall(_, _, _) => WriteAllowedIs(s, m, c);
    case DeleteCall(_) => DeleteAllowedIs(s, m, c);
    case MkDirCall(_) =>
    case ChDirCall(_) =>
  }

  lemma LiveKinds(v: Vol, i: nat)
    requires Sane(v) && i < |v.table| && IsLive(v.table[i])
    ensures IsFile(v.table[i]) || IsDir(v.table[i])
  {
    TwoKinds(v.table, i);
  }

  lemma BootTarget(t: seq<Entry>, cwd: nat, path: seq<byte>)
    ensures FindFile(t, cwd, path) == Some(BootSector) <==> SLASH in path && Absolute(path) && Components(path) == []
  {
    hide Components, Walk;
  }

  lemma StepRefines(s: State, m: Tree, c: Call) returns (id: nat)
    requires Allowed(s, c) && Implements(s.vol, m)
    ensures var r := Exec(s, c);
            && Good(r.state) && SameLimits(s.vol, r.state.vol)
            && r.code == CodeOf(m, s.cwd, c, LimitsOf(s.vol))
            && (c.MkDirCall? && r.code == 0 ==> NewId(m, id))
            && Implements(r.state.vol, Meaning(m, s.cwd, c, r.code, id).0)
            && r.state.cwd == Meaning(m, s.cwd, c, r.code, id).1
  {
    hide Sane, Implements, Lookup, TreeFind, TreeWalk, WriteFile, Delete, MkDir, ChDir, CodeOf, LimitsOf;
    id := FreeSlot(s.vol.table, 0);
    match c
    case WriteCall(_, _, _) => WriteRefines(s, m, c); WriteCode(s, m, c);
    case DeleteCall(_) => DeleteRefines(s, m, c);
    case MkDirCall(_) => MkDirRefines(s, m, c);
    case ChDirCall(_) => ChDirRefines(s, m, c);
  }

  /** Every run of the file system is a run of the map, whose replies are the ones given, and keeps the volume sane and
      as much of it usable. */
  lemma {:induction false} RunRefines(s: State, m: Tree, calls: seq<Call>, codes: seq<int>, final: State) returns (m': Tree)
    requires Good(s) && Implements(s.vol, m) && Run(s, calls, codes, final)
    ensures |s.vol.data| <= |s.vol.fat|
    ensures Good(final) && Implements(final.vol, m') && SameLimits(s.vol, final.vol)
    ensures TreeRun(m, s.cwd, LimitsOf(s.vol), calls, codes, m', final.cwd)
    decreases |calls|
  {
    hide Sane, Implements, Exec, Meaning, Allowed, NewId, LimitsOf, CodeOf, Permitted;
    if calls == [] {
      m' := m;
    } else {
      var id := StepRefines(s, m, calls[0]);
      AllowedIs(s, m, calls[0]);
      var r := Exec(s, calls[0]);
      var next := Meaning(m, s.cwd, calls[0], r.code, id);
      m' := RunRefines(r.state, next.0, calls[1..], codes[1..], final);
      assert TreeStep(m, s.cwd, LimitsOf(s.vol), calls, codes, m', final.cwd, id);
    }
  }

  /** Over any run the full invariant survives: no block leaks. */
  lemma RunKeepsInv(s: State, calls: seq<Call>, codes: seq<int>, final: State)
    requires Inv(s.vol) && Good(s) && Run(s, calls, codes, final)
    ensures Inv(final.vol)
  {
    hide Sane, Implements, Run, NoLeak, Usable, TreeRun;
    TreeOfImplements(s.vol);
    var _ := RunRefines(s, TreeOf(s.vol, |s.vol.table|), calls, codes, final);
    StillNoLeak(s.vol, final.vol);
  }

  // ---- The last write wins ----

  /** Call c succeeds and changes what key k holds. */
  ghost predicate Hits(s: State, c: Call, k: Key)
    requires Allowed(s, c)
  {
    Exec(s, c).code == 0 &&
    match c
    case WriteCall(name, _, _) => k == (s.cwd, name)
    case DeleteCall(path) =>
      (match FindFile(s.vol.table, s.cwd, path)
       case Some(Slot(i)) => Leads(s.vol, i, k)
       case _ => false)
    case MkDirCall(name) => k == (s.cwd, name)
    case ChDirCall(_) => false
  }

  ghost predicate LeftAlone(s: State, calls: seq<Call>, k: Key)
    decreases |calls|
  {
    calls == [] || (Allowed(s, calls[0]) && !Hits(s, calls[0], k) && LeftAlone(Exec(s, calls[0]).state, calls[1..], k))
  }

  /** A call that does not hit a key leaves what it holds. */
  lemma MissKeeps(s: State, c: Call, k: Key)
    requires Allowed(s, c) && !Hits(s, c, k)
    ensures Good(Exec(s, c).state) && |s.vol.data| <= |s.vol.fat|
    ensures |Exec(s, c).state.vol.data| <= |Exec(s, c).state.vol.fat|
    ensures Lookup(Exec(s, c).state.vol, k.0, k.1) == Lookup(s.vol, k.0, k.1)
  {
    hide Sane, Lookup, MkDir, WriteFile, Deleted, HasRoom, FindFile, Resolve;
    match c {
    case WriteCall(name, bytes, granted) =>
      if Exec(s, c).code == 0 {
        WriteMeaning(s.vol, s.cwd, name, bytes, granted, k.0, k.1);
      } else {
        WriteFailed(s.vol, s.cwd, name, bytes, granted);
      }
    case DeleteCall(path) =>
      if Exec(s, c).code == 0 {
        var i := FindFile(s.vol.table, s.cwd, path).value.index;
        DeletedLookup(s.vol, i, k.0, k.1);
        DeletedDirs(s.vol, i, s.cwd);
      }
    case MkDirCall(name) => MkDirMeaning(s.vol, s.cwd, name, k.0, k.1);
    case ChDirCall(_) =>
    }
  }

  lemma {:induction false} RunKeeps(s: State, calls: seq<Call>, codes: seq<int>, final: State, k: Key)
    requires Good(s) && Run(s, calls, codes, final) && LeftAlone(s, calls, k)
    ensures Good(final) && |s.vol.data| <= |s.vol.fat| && |final.vol.data| <= |final.vol.fat|
    ensures Lookup(final.vol, k.0, k.1) == Lookup(s.vol, k.0, k.1)
    decreases |calls|
  {
    hide Sane, Lookup, Exec, Allowed, Hits;
    if calls != [] {
      MissKeeps(s, calls[0], k);
      RunKeeps(Exec(s, calls[0]).state, calls[1..], codes[1..], final, k);
    }
  }

  /** A successful write, then any run that leaves its key alone: the key still reads as the bytes written. */
  lemma LastWriteReads(s: State, c: Call, calls: seq<Call>, codes: seq<int>, final: State)
    requires c.WriteCall? && Allowed(s, c) && Exec(s, c).code == 0
    requires Run(Exec(s, c).state, calls, codes, final) && LeftAlone(Exec(s, c).state, calls, (s.cwd, c.name))
    ensures |final.vol.data| <= |final.vol.fat|
    ensures Lookup(final.vol, s.cwd, c.name) == Some(FileNode(Stored(c.bytes)))
  {
    hide Sane, Lookup, Run, LeftAlone, Stored, HasRoom, WriteFile;
    WriteMeaning(s.vol, s.cwd, c.name, c.bytes, c.granted, s.cwd, c.name);
    RunKeeps(Exec(s, c).state, calls, codes, final, (s.cwd, c.name));
  }
}
