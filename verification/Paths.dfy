/** Paths: splitting, walking down the table, and the path string of a directory. */
module Paths {
  import opened Bytes
  import opened Text
  import opened Layout
  import opened Volume

  const MAX_PARTS: nat := 16

  // ---- Splitting ----

  /** Position of the first slash, or the length. */
  function SlashAt(p: seq<byte>): (k: nat)
    ensures k <= |p| && SLASH !in p[..k] && (k < |p| ==> p[k] == SLASH)
  {
    if p == [] || p[0] == SLASH then 0 else 1 + SlashAt(p[1..])
  }

  /** The pieces between slashes. */
  function Parts(p: seq<byte>): seq<seq<byte>>
    decreases |p|
  {
    var k := SlashAt(p);
    if k == |p| then [p] else [p[..k]] + Parts(p[k + 1..])
  }

  /** Empty pieces and pieces of 31 characters or more are dropped. */
  function Keep(cs: seq<seq<byte>>): seq<seq<byte>> {
    if cs == [] then [] else (if 0 < |cs[0]| < 31 then [cs[0]] else []) + Keep(cs[1..])
  }

  function First(cs: seq<seq<byte>>, n: nat): seq<seq<byte>> {
    if |cs| <= n then cs else cs[..n]
  }

  /** split_path */
  function Components(path: seq<byte>): seq<seq<byte>> {
    First(Keep(Parts(path)), MAX_PARTS)
  }

  // ---- Resolving ----

  predicate Absolute(path: seq<byte>) {
    path != [] && path[0] == SLASH
  }

  function Walk(t: seq<Entry>, dir: nat, cs: seq<seq<byte>>): (r: Option<nat>)
    ensures r.Some? ==> r.value < |t| && IsLive(t[r.value])
    decreases |cs|
  {
    if cs == [] then None else
    var f := Find(t, dir, cs[0], 0);
    if f == |t| then None
    else if |cs| == 1 then Some(f)
    else if t[f].kind != TYPE_DIR then None
    else Walk(t, f, cs[1..])
  }

  /** Where a path leads: a table slot, or sector 0, which the code reads as the entry of a path without parts. */
  datatype Target = Slot(index: nat) | BootSector

  function Resolve(t: seq<Entry>, cwd: nat, path: seq<byte>): Option<Target> {
    var cs := Components(path);
    if cs == [] && Absolute(path) then Some(BootSector)
    else match Walk(t, if Absolute(path) then 0 else cwd, cs)
      case Some(i) => Some(Slot(i))
      case None => None
  }

  /** find_file: a name without a slash is looked up as it stands. */
  function FindFile(t: seq<Entry>, cwd: nat, path: seq<byte>): Option<Target> {
    if SLASH in path then Resolve(t, cwd, path)
    else if Find(t, cwd, path, 0) < |t| then Some(Slot(Find(t, cwd, path, 0))) else None
  }

  // ---- The path of a directory ----

  /** Names from the root down to entry i. */
  ghost function Trail(t: seq<Entry>, depth: seq<nat>, i: nat): seq<seq<byte>>
    requires TableOk(t) && Ranked(t, depth) && i < |t| && IsLive(t[i])
    decreases depth[i]
  {
    if i == 0 then [] else
    assert EntryOk(t, i) && RankOk(t, depth, i);
    Trail(t, depth, t[i].parent) + [NameOf(t[i])]
  }

  /** Every entry from i up to the root has an index below total_files. */
  ghost predicate AllBelow(t: seq<Entry>, depth: seq<nat>, i: nat, total: nat)
    requires TableOk(t) && Ranked(t, depth) && i < |t| && IsLive(t[i])
    decreases depth[i]
  {
    i == 0 || (assert EntryOk(t, i) && RankOk(t, depth, i); i < total && AllBelow(t, depth, t[i].parent, total))
  }

  /** get_current_path's climb: it stops at an index that read_entry_by_index refuses. */
  ghost function UpPath(t: seq<Entry>, depth: seq<nat>, i: nat, total: nat): seq<byte>
    requires TableOk(t) && Ranked(t, depth) && i < |t| && IsLive(t[i])
    decreases depth[i]
  {
    if i == 0 || i >= total then [] else
    assert EntryOk(t, i) && RankOk(t, depth, i);
    UpPath(t, depth, t[i].parent, total) + [SLASH] + NameOf(t[i])
  }

  ghost function CurrentPath(t: seq<Entry>, depth: seq<nat>, cwd: nat, total: nat): seq<byte>
    requires TableOk(t) && Ranked(t, depth) && cwd < |t| && IsLive(t[cwd])
  {
    var p := UpPath(t, depth, cwd, total);
    if p == [] then [SLASH] else p
  }

  function Render(names: seq<seq<byte>>): seq<byte> {
    if names == [] then [] else [SLASH] + names[0] + Render(names[1..])
  }

  /** The names on the climb. */
  ghost function CutTrail(t: seq<Entry>, depth: seq<nat>, i: nat, total: nat): seq<seq<byte>>
    requires TableOk(t) && Ranked(t, depth) && i < |t| && IsLive(t[i])
    decreases depth[i]
  {
    if i == 0 || i >= total then [] else
    assert EntryOk(t, i) && RankOk(t, depth, i);
    CutTrail(t, depth, t[i].parent, total) + [NameOf(t[i])]
  }

  // ---- Joining, then splitting ----

  ghost predicate AllGood(names: seq<seq<byte>>) {
    forall k | 0 <= k < |names| :: GoodName(names[k])
  }

  lemma {:induction false} RenderSnoc(names: seq<seq<byte>>, n: seq<byte>)
    ensures Render(names + [n]) == Render(names) + [SLASH] + n
  {
    if names == [] {
      assert [n][1..] == [];
    } else {
      RenderSnoc(names[1..], n);
      assert (names + [n])[1..] == names[1..] + [n];
    }
  }

  lemma SlashIs(p: seq<byte>, k: nat)
    requires k <= |p| && SLASH !in p[..k] && (k < |p| ==> p[k] == SLASH)
    ensures SlashAt(p) == k
  {
    var j := SlashAt(p);
    assert forall i | 0 <= i < k :: p[..k][i] == p[i];
    assert forall i | 0 <= i < j :: p[..j][i] == p[i];
  }

  lemma PartsAfter(n: seq<byte>, rest: seq<byte>)
    requires SLASH !in n
    ensures Parts(n) == [n]
    ensures Parts(n + [SLASH] + rest) == [n] + Parts(rest)
  {
    var p := n + [SLASH] + rest;
    assert n[..|n|] == n && p[..|n|] == n && p[|n| + 1..] == rest;
    SlashIs(n, |n|);
    SlashIs(p, |n|);
  }

  lemma {:induction false} PartsOfJoined(names: seq<seq<byte>>)
    requires names != [] && AllGood(names)
    ensures Parts(names[0] + Render(names[1..])) == names
    decreases |names|
  {
    hide Parts;
    var n, rest := names[0], names[1..];
    assert GoodName(n);
    if rest == [] {
      PartsAfter(n, []);
      assert n + Render(rest) == n;
    } else {
      PartsOfJoined(rest);
      PartsAfter(n, rest[0] + Render(rest[1..]));
      assert n + Render(rest) == n + [SLASH] + (rest[0] + Render(rest[1..]));
    }
  }

  lemma {:induction false} KeepGood(names: seq<seq<byte>>)
    requires AllGood(names)
    ensures Keep(names) == names
  {
    if names != [] {
      assert GoodName(names[0]);
      KeepGood(names[1..]);
    }
  }

  /** split_path undoes the join, up to its sixteen components. */
  lemma SplitOfJoin(names: seq<seq<byte>>)
    requires AllGood(names) && names != []
    ensures Components(Render(names)) == First(names, MAX_PARTS)
  {
    var p := Render(names);
    var none: seq<byte> := [];
    PartsAfter(none, names[0] + Render(names[1..]));
    assert p == none + [SLASH] + (names[0] + Render(names[1..]));
    PartsOfJoined(names);
    assert Parts(p) == [[]] + names;
    KeepGood(names);
    assert Keep([[]] + names) == Keep(names) by { assert ([[]] + names)[1..] == names; }
  }

  // ---- Climbing, then walking ----

  lemma {:induction false} UpPathIs(t: seq<Entry>, depth: seq<nat>, i: nat, total: nat)
    requires TableOk(t) && Ranked(t, depth) && i < |t| && IsLive(t[i])
    ensures UpPath(t, depth, i, total) == Render(CutTrail(t, depth, i, total))
    ensures AllGood(CutTrail(t, depth, i, total))
    decreases depth[i]
  {
    if i != 0 && i < total {
      assert EntryOk(t, i) && RankOk(t, depth, i);
      UpPathIs(t, depth, t[i].parent, total);
      RenderSnoc(CutTrail(t, depth, t[i].parent, total), NameOf(t[i]));
    }
  }

  lemma {:induction false} TrailLength(t: seq<Entry>, depth: seq<nat>, i: nat, total: nat)
    requires TableOk(t) && Ranked(t, depth) && i < |t| && IsLive(t[i])
    ensures |Trail(t, depth, i)| == depth[i]
    ensures if AllBelow(t, depth, i, total) then CutTrail(t, depth, i, total) == Trail(t, depth, i)
            else |CutTrail(t, depth, i, total)| < depth[i]
    decreases depth[i]
  {
    if i != 0 {
      assert EntryOk(t, i) && RankOk(t, depth, i);
      TrailLength(t, depth, t[i].parent, total);
    }
  }

  /** One more component is one more search. */
  lemma {:induction false} WalkOn(t: seq<Entry>, dir: nat, cs: seq<seq<byte>>, n: seq<byte>)
    requires cs != []
    ensures Walk(t, dir, cs + [n])
            == match Walk(t, dir, cs)
               case None => None
               case Some(p) => if t[p].kind == TYPE_DIR then Walk(t, p, [n]) else None
    decreases |cs|
  {
    var f := Find(t, dir, cs[0], 0);
    assert (cs + [n])[1..] == cs[1..] + [n];
    if |cs| > 1 {
      if f < |t| && t[f].kind == TYPE_DIR {
        WalkOn(t, f, cs[1..], n);
      }
    } else {
      assert cs[1..] + [n] == [n];
    }
  }

  lemma WalkSingle(t: seq<Entry>, dir: nat, n: seq<byte>, i: nat)
    requires TableOk(t)
    ensures Walk(t, dir, [n]) == Some(i) <==> i < |t| && Matches(t[i], dir, n)
  {
    if i < |t| && Matches(t[i], dir, n) {
      FindUnique(t, dir, n, i);
    }
  }

  /** Walking the names of an entry from the root arrives at it. */
  lemma {:induction false} WalkTrail(t: seq<Entry>, depth: seq<nat>, i: nat)
    requires TableOk(t) && Ranked(t, depth) && 0 < i < |t| && IsLive(t[i])
    ensures Walk(t, 0, Trail(t, depth, i)) == Some(i)
    decreases depth[i]
  {
    assert EntryOk(t, i) && RankOk(t, depth, i);
    var p := t[i].parent;
    FindUnique(t, p, NameOf(t[i]), i);
    if p == 0 {
      assert Trail(t, depth, i) == [NameOf(t[i])];
    } else {
      WalkTrail(t, depth, p);
      WalkOn(t, 0, Trail(t, depth, p), NameOf(t[i]));
      WalkSingle(t, p, NameOf(t[i]), i);
    }
  }

  /** Each component goes one level down. */
  lemma {:induction false} WalkDepth(t: seq<Entry>, depth: seq<nat>, dir: nat, cs: seq<seq<byte>>)
    requires TableOk(t) && Ranked(t, depth) && dir < |t| && Walk(t, dir, cs).Some?
    ensures depth[Walk(t, dir, cs).value] == depth[dir] + |cs|
    decreases |cs|
  {
    var f := Find(t, dir, cs[0], 0);
    assert RankOk(t, depth, f);
    if |cs| > 1 {
      WalkDepth(t, depth, f, cs[1..]);
    }
  }

  /** The path of a directory resolves to it exactly when it is at most sixteen deep and no index on the way up is
      beyond total_files. */
  lemma PathRoundTrip(t: seq<Entry>, depth: seq<nat>, cwd: nat, total: nat)
    requires TableOk(t) && Ranked(t, depth) && 0 < cwd < |t| && IsDir(t[cwd])
    ensures Resolve(t, cwd, CurrentPath(t, depth, cwd, total)) == Some(Slot(cwd))
            <==> depth[cwd] <= MAX_PARTS && AllBelow(t, depth, cwd, total)
  {
    hide TableOk, Ranked, Walk, Components, Keep, Parts;
    var names, path := CutTrail(t, depth, cwd, total), CurrentPath(t, depth, cwd, total);
    UpPathIs(t, depth, cwd, total);
    TrailLength(t, depth, cwd, total);
    WalkTrail(t, depth, cwd);
    if names == [] {
      BareSlash();
      DeepEnough(t, depth, cwd);
    } else {
      SplitOfJoin(names);
      var cs := First(names, MAX_PARTS);
      if Walk(t, 0, cs).Some? {
        WalkDepth(t, depth, 0, cs);
      }
      if depth[cwd] <= MAX_PARTS && AllBelow(t, depth, cwd, total) {
        assert cs == Trail(t, depth, cwd);
      }
    }
  }

  lemma DeepEnough(t: seq<Entry>, depth: seq<nat>, i: nat)
    requires TableOk(t) && Ranked(t, depth) && 0 < i < |t| && IsLive(t[i])
    ensures depth[i] > 0
  {
    assert RankOk(t, depth, i);
  }

  lemma BareSlash()
    ensures Components([SLASH]) == []
  {
    var none: seq<byte> := [];
    PartsAfter(none, none);
    assert none + [SLASH] + none == [SLASH];
    var one, two := [none], [none, none];
    assert one[1..] == [] && two[1..] == one;
    assert Keep(one) == Keep(one[1..]) && Keep(two) == Keep(two[1..]);
  }

  /** Depth is a property of the table. */
  lemma {:induction false} DepthUnique(t: seq<Entry>, depth: seq<nat>, depth': seq<nat>, i: nat)
    requires TableOk(t) && Ranked(t, depth) && Ranked(t, depth') && i < |t| && IsLive(t[i])
    ensures depth[i] == depth'[i]
    decreases depth[i]
  {
    if i > 0 {
      assert RankOk(t, depth, i) && RankOk(t, depth', i) && EntryOk(t, i);
      DepthUnique(t, depth, depth', t[i].parent);
    }
  }

  // ---- Where paths lead, told from the entry upward ----

  /** Climbing from entry i, the names met, last to first, are these, and the climb arrives at dir; every entry on the
      way but i is a directory. */
  ghost predicate Descends(t: seq<Entry>, dir: nat, names: seq<seq<byte>>, i: nat)
    decreases |names|
  {
    if names == [] then i == dir else
    var front := names[..|names| - 1];
    && i < |t| && IsLive(t[i]) && NameOf(t[i]) == names[|names| - 1]
    && (front != [] ==> t[i].parent < |t| && IsDir(t[t[i].parent]))
    && Descends(t, dir, front, t[i].parent)
  }

  /** The walk down finds an entry exactly when climbing from it meets the names. */
  lemma {:induction false} WalkIs(t: seq<Entry>, dir: nat, cs: seq<seq<byte>>, i: nat)
    requires TableOk(t) && cs != []
    ensures Walk(t, dir, cs) == Some(i) <==> Descends(t, dir, cs, i)
    decreases |cs|
  {
    hide Walk, TableOk;
    var front, n := cs[..|cs| - 1], cs[|cs| - 1];
    assert cs == front + [n];
    if front == [] {
      assert cs == [n];
      WalkSingle(t, dir, n, i);
      assert Descends(t, dir, [], dir);
    } else {
      WalkOn(t, dir, front, n);
      if Walk(t, dir, front).Some? {
        var p := Walk(t, dir, front).value;
        WalkIs(t, dir, front, p);
        WalkSingle(t, p, n, i);
      }
      if i < |t| {
        WalkIs(t, dir, front, t[i].parent);
      }
    }
  }

  /** resolve_path, for every path: with a slash in front from the root, without from the current directory, to the
      entry that lies below it by the path's components. */
  lemma ResolveIs(t: seq<Entry>, cwd: nat, path: seq<byte>, i: nat)
    requires TableOk(t)
    ensures path != [] && path[0] == SLASH ==>
              (Resolve(t, cwd, path) == Some(Slot(i)) <==>
                 Components(path) != [] && Descends(t, 0, Components(path), i))
    ensures path == [] || path[0] != SLASH ==>
              (Resolve(t, cwd, path) == Some(Slot(i)) <==>
                 Components(path) != [] && Descends(t, cwd, Components(path), i))
    ensures Resolve(t, cwd, path) == Some(BootSector) <==> path != [] && path[0] == SLASH && Components(path) == []
  {
    hide TableOk, Components, Descends;
    var cs := Components(path);
    if cs != [] {
      WalkIs(t, 0, cs, i);
      WalkIs(t, cwd, cs, i);
    }
  }

  /** find_file: a name without a slash is an entry of the current directory, other paths are resolved. */
  lemma FindFileIs(t: seq<Entry>, cwd: nat, path: seq<byte>, i: nat)
    requires TableOk(t)
    ensures SLASH !in path ==>
              (FindFile(t, cwd, path) == Some(Slot(i)) <==> i < |t| && Matches(t[i], cwd, path))
              && FindFile(t, cwd, path) != Some(BootSector)
    ensures SLASH in path ==> FindFile(t, cwd, path) == Resolve(t, cwd, path)
  {
    hide TableOk, Resolve;
    WalkSingle(t, cwd, path, i);
  }

  // ---- Components of any path ----

  ghost predicate SlashFree(pieces: seq<seq<byte>>) {
    forall k | 0 <= k < |pieces| :: SLASH !in pieces[k]
  }

  /** Pieces with one slash between each two. */
  function Joined(pieces: seq<seq<byte>>): seq<byte>
    requires pieces != []
  {
    pieces[0] + Render(pieces[1..])
  }

  lemma {:induction false} PartsOfPieces(pieces: seq<seq<byte>>)
    requires pieces != [] && SlashFree(pieces)
    ensures Parts(Joined(pieces)) == pieces
    decreases |pieces|
  {
    hide Parts;
    var n, rest := pieces[0], pieces[1..];
    if rest == [] {
      PartsAfter(n, []);
      assert n + Render(rest) == n;
    } else {
      PartsOfPieces(rest);
      PartsAfter(n, Joined(rest));
      assert Joined(pieces) == n + [SLASH] + Joined(rest);
    }
  }

  /** Every path is its pieces, joined. */
  lemma {:induction false} JoinedParts(path: seq<byte>)
    ensures Parts(path) != [] && SlashFree(Parts(path)) && Joined(Parts(path)) == path
    decreases |path|
  {
    hide Parts, Joined;
    var k := SlashAt(path);
    PartsStep(path);
    if k < |path| {
      var rest := path[k + 1..];
      JoinedParts(rest);
      JoinedStep(path[..k], Parts(rest));
      assert path == path[..k] + [SLASH] + rest;
    } else {
      JoinedOne(path);
    }
  }

  lemma PartsStep(path: seq<byte>)
    ensures var k := SlashAt(path);
            Parts(path) == if k == |path| then [path] else [path[..k]] + Parts(path[k + 1..])
  {
    hide SlashAt;
  }

  lemma JoinedStep(n: seq<byte>, pieces: seq<seq<byte>>)
    requires pieces != []
    ensures Joined([n] + pieces) == n + [SLASH] + Joined(pieces)
  {
    assert ([n] + pieces)[1..] == pieces;
  }

  lemma JoinedOne(n: seq<byte>)
    ensures Joined([n]) == n
  {
    assert [n][1..] == [] && Render([]) == [];
  }

  /** Of the pieces, those of 1 to 30 characters are kept, in order. */
  lemma {:induction false} KeepIs(a: seq<seq<byte>>, b: seq<seq<byte>>, c: seq<byte>)
    ensures Keep(a + b) == Keep(a) + Keep(b)
    ensures Keep([c]) == if 1 <= |c| <= 30 then [c] else []
  {
    assert [c][1..] == [] && Keep([]) == [];
    if a == [] {
      assert a + b == b;
    } else {
      KeepIs(a[1..], b, c);
      assert (a + b)[1..] == a[1..] + b;
    }
  }

  /** split_path on any path: of its pieces, the first sixteen of those kept. */
  lemma ComponentsOfPieces(pieces: seq<seq<byte>>)
    requires pieces != [] && SlashFree(pieces)
    ensures var kept := Keep(pieces); Components(Joined(pieces)) == if |kept| <= 16 then kept else kept[..16]
  {
    PartsOfPieces(pieces);
  }

  /** Good names joined without a slash in front lead down from the current directory, with one in front from the root,
      whatever the current directory; sixteen levels, no more. */
  lemma NamesLead(t: seq<Entry>, cwd: nat, names: seq<seq<byte>>, i: nat)
    requires TableOk(t) && AllGood(names) && 1 <= |names| <= 16
    ensures FindFile(t, cwd, Joined(names)) == Some(Slot(i)) <==> Descends(t, cwd, names, i)
    ensures Resolve(t, cwd, Joined(names)) == Some(Slot(i)) <==> Descends(t, cwd, names, i)
    ensures Resolve(t, cwd, [SLASH] + Joined(names)) == Some(Slot(i)) <==> Descends(t, 0, names, i)
  {
    hide TableOk, Resolve, FindFile, Components, Descends;
    var path, rooted := Joined(names), [SLASH] + Joined(names);
    GoodPieces(names);
    KeepGood(names);
    ComponentsOfPieces(names);
    SplitOfJoin(names);
    assert rooted == Render(names);
    ResolveIs(t, cwd, path, i);
    ResolveIs(t, cwd, rooted, i);
    FindFileIs(t, cwd, path, i);
    if SLASH !in path {
      OneName(t, cwd, names, i);
    }
  }

  lemma GoodPieces(names: seq<seq<byte>>)
    requires AllGood(names) && names != []
    ensures SlashFree(names) && Joined(names) != [] && Joined(names)[0] != SLASH
  {
    assert GoodName(names[0]);
    assert Joined(names)[0] == names[0][0] && names[0][0] in names[0];
    forall k | 0 <= k < |names|
      ensures SLASH !in names[k]
    {
      assert GoodName(names[k]);
    }
  }

  lemma SlashBetween(names: seq<seq<byte>>)
    requires names != []
    ensures |names| > 1 ==> SLASH in Joined(names)
  {
    if |names| > 1 {
      assert Joined(names)[|names[0]|] == SLASH;
    }
  }

  lemma OneName(t: seq<Entry>, cwd: nat, names: seq<seq<byte>>, i: nat)
    requires names != [] && SLASH !in Joined(names)
    ensures Descends(t, cwd, names, i) <==> i < |t| && Matches(t[i], cwd, Joined(names))
  {
    SlashBetween(names);
    assert names == [names[0]] && Joined(names) == names[0] + [];
    assert names[..0] == [];
    assert Descends(t, cwd, [], cwd);
  }

  // ---- The printed path ----

  /** In the root it is "/". */
  lemma RootPath(t: seq<Entry>, depth: seq<nat>, total: nat)
    requires TableOk(t) && Ranked(t, depth)
    ensures CurrentPath(t, depth, 0, total) == [SLASH]
  {
  }

  /** The climb collects the names between the current directory and the entry where it stops: the root, or one whose
      index is refused. */
  lemma {:induction false} ClimbStops(t: seq<Entry>, depth: seq<nat>, i: nat, total: nat) returns (top: nat)
    requires TableOk(t) && Ranked(t, depth) && i < |t| && IsLive(t[i])
    ensures Descends(t, top, CutTrail(t, depth, i, total), i)
    ensures top == 0 || top >= total
    ensures AllBelow(t, depth, i, total) ==> top == 0
    decreases depth[i]
  {
    if i == 0 || i >= total {
      top := i;
    } else {
      assert EntryOk(t, i) && RankOk(t, depth, i);
      var p := t[i].parent;
      top := ClimbStops(t, depth, p, total);
      var names := CutTrail(t, depth, p, total);
      assert (names + [NameOf(t[i])])[..|names|] == names;
    }
  }

  /** Elsewhere its pieces are nothing, then exactly those names: a slash before each, and no other. */
  lemma PathPieces(t: seq<Entry>, depth: seq<nat>, cwd: nat, total: nat) returns (names: seq<seq<byte>>, top: nat)
    requires TableOk(t) && Ranked(t, depth) && 0 < cwd < |t| && IsLive(t[cwd])
    ensures Descends(t, top, names, cwd) && (top == 0 || top >= total)
    ensures AllBelow(t, depth, cwd, total) ==> top == 0
    ensures if names == [] then CurrentPath(t, depth, cwd, total) == [SLASH]
            else Parts(CurrentPath(t, depth, cwd, total)) == [[]] + names
  {
    hide TableOk, Ranked, Parts, Descends, AllBelow, CutTrail, UpPath, Render, AllGood;
    names := CutTrail(t, depth, cwd, total);
    top := ClimbStops(t, depth, cwd, total);
    UpPathIs(t, depth, cwd, total);
    RenderedPieces(names);
  }

  lemma RenderedPieces(names: seq<seq<byte>>)
    requires AllGood(names)
    ensures if names == [] then Render(names) == [] else Render(names) != [] && Parts(Render(names)) == [[]] + names
  {
    hide Parts;
    if names != [] {
      GoodPieces(names);
      var pieces := [[]] + names;
      assert pieces[1..] == names;
      forall k | 0 <= k < |pieces|
        ensures SLASH !in pieces[k]
      {
        assert k > 0 ==> pieces[k] == names[k - 1];
      }
      PartsOfPieces(pieces);
      assert Joined(pieces) == Render(names);
    }
  }
}
