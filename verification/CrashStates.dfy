/** The disks a power cut can leave behind, and what they read as once mounted again. */
module CrashStates {
  import opened Bytes
  import opened Layout
  import opened Volume
  import opened VolumeOps
  import opened Accounting
  import opened VolumeLaws
  import opened DiskView
  import opened Paths
  import opened Runs

  /** A disk that mounts with superblock sb, on which at most file f has been touched; f == |table| stands for none. */
  ghost predicate Snapshot(d: seq<Sector>, sb: Superblock, sectors: nat, v: Vol, f: nat)
    requires GeometryOk(sb, sectors)
  {
    |d| == sectors && BootSectorOk(d[0], sb) && Confined(v, VolOf(d, sb), f)
  }

  /** Each of the disks ws[from..to] is such a snapshot. */
  ghost predicate QuietLog(ws: seq<seq<Sector>>, from: nat, to: nat, sb: Superblock, sectors: nat, v: Vol, f: nat) {
    && GeometryOk(sb, sectors)
    && from <= to <= |ws|
    && forall q | from <= q < to :: Snapshot(ws[q], sb, sectors, v, f)
  }

  lemma QuietNone(ws: seq<seq<Sector>>, sb: Superblock, sectors: nat, v: Vol, f: nat)
    requires GeometryOk(sb, sectors)
    ensures QuietLog(ws, |ws|, |ws|, sb, sectors, v, f)
  {
  }

  lemma QuietMore(ws: seq<seq<Sector>>, from: nat, sb: Superblock, sectors: nat, v: Vol, f: nat, d: seq<Sector>)
    requires QuietLog(ws, from, |ws|, sb, sectors, v, f) && Snapshot(d, sb, sectors, v, f)
    ensures QuietLog(ws + [d], from, |ws| + 1, sb, sectors, v, f)
  {
    hide Snapshot, GeometryOk;
  }

  lemma QuietGrows(ws: seq<seq<Sector>>, from: nat, to: nat, sb: Superblock, sectors: nat, v: Vol, f: nat, d: seq<Sector>)
    requires QuietLog(ws, from, to, sb, sectors, v, f)
    ensures QuietLog(ws + [d], from, to, sb, sectors, v, f)
  {
    hide Snapshot, GeometryOk;
  }

  /** An overwrite's log: first the old chain goes, then the new blocks come. */
  lemma QuietOverwrite(ws1: seq<seq<Sector>>, ws: seq<seq<Sector>>, from: nat, to: nat, sb: Superblock, sectors: nat,
                       v: Vol, f: nat)
    requires |v.data| <= |v.fat| && f < |v.table| && IsLive(v.table[f])
    requires ws1 <= ws && QuietLog(ws1, from, |ws1|, sb, sectors, v, f)
    requires QuietLog(ws, |ws1|, to, sb, sectors, v.(fat := FreeAll(v.fat, Blocks(v, f))), |v.table|)
    ensures QuietLog(ws, from, to, sb, sectors, v, f)
  {
    hide VolOf, Confined, GeometryOk, BootSectorOk, Blocks;
    var u := v.(fat := FreeAll(v.fat, Blocks(v, f)));
    forall q | from <= q < to
      ensures Snapshot(ws[q], sb, sectors, v, f)
    {
      if q < |ws1| {
        assert ws[q] == ws1[q] && Snapshot(ws1[q], sb, sectors, v, f);
      } else {
        assert Snapshot(ws[q], sb, sectors, u, |v.table|);
        RefilledConfined(v, VolOf(ws[q], sb), f);
      }
    }
  }

  // ---- A create ----

  /** Whichever snapshot before publication a crash leaves, the disk mounts, and the volume on it has the old table, the
      old contents and the old lookups; it is sane, though blocks linked so far have no owner. */
  lemma CrashReadsSame(ws: seq<seq<Sector>>, from: nat, to: nat, sb: Superblock, sectors: nat, v: Vol, q: nat)
    requires Sane(v) && QuietLog(ws, from, to, sb, sectors, v, |v.table|) && from <= q < to
    ensures GeometryOk(sb, |ws[q]|) && BootSectorOk(ws[q][0], sb)
    ensures var w := VolOf(ws[q], sb);
            && Sane(w) && |w.data| <= |w.fat| && |v.data| <= |v.fat|
            && (forall cwd, path :: FindFile(w.table, cwd, path) == FindFile(v.table, cwd, path))
            && (forall i | 0 <= i < |v.table| && IsFile(v.table[i]) ::
                  i < |w.table| && w.table[i] == v.table[i] && Content(w, i) == Content(v, i))
            && forall dir, name :: Lookup(w, dir, name) == Lookup(v, dir, name)
  {
    hide Lookup, VolOf, Sane, Confined, GeometryOk, BootSectorOk, FindFile, Content;
    assert Snapshot(ws[q], sb, sectors, v, |v.table|);
    var w := VolOf(ws[q], sb);
    UnpublishedSane(v, w);
    forall dir, name
      ensures Lookup(w, dir, name) == Lookup(v, dir, name)
    {
      ConfinedReadsSame(v, w, |v.table|, dir, name);
    }
  }

  /** Mounted at such a snapshot, the file system stands for the map it stood for before the call. */
  lemma CrashKeepsMap(ws: seq<seq<Sector>>, from: nat, to: nat, sb: Superblock, sectors: nat, v: Vol, q: nat, m: Tree)
    requires Sane(v) && Implements(v, m)
    requires QuietLog(ws, from, to, sb, sectors, v, |v.table|) && from <= q < to
    ensures GeometryOk(sb, |ws[q]|) && BootSectorOk(ws[q][0], sb)
    ensures Good(State(VolOf(ws[q], sb), 0)) && |VolOf(ws[q], sb).data| <= |VolOf(ws[q], sb).fat|
    ensures Implements(VolOf(ws[q], sb), m)
  {
    hide Lookup, VolOf, Snapshot, GeometryOk, BootSectorOk, FindFile, Content, Acyclic, FilesOk;
    CrashReadsSame(ws, from, to, sb, sectors, v, q);
    forall dir, name
      ensures Lookup(VolOf(ws[q], sb), dir, name) == TreeAt(m, dir, name)
    {
      assert Lookup(v, dir, name) == TreeAt(m, dir, name);
    }
  }

  /** And every run from there is a run of that map: the blocks a crash leaked are missing from the limits, nothing
      else is lost. */
  lemma RunAfterCrash(ws: seq<seq<Sector>>, from: nat, to: nat, sb: Superblock, sectors: nat, v: Vol, q: nat, m: Tree,
                      calls: seq<Call>, codes: seq<int>, final: State) returns (m': Tree)
    requires Sane(v) && Implements(v, m)
    requires QuietLog(ws, from, to, sb, sectors, v, |v.table|) && from <= q < to
    requires GeometryOk(sb, |ws[q]|) && Run(State(VolOf(ws[q], sb), 0), calls, codes, final)
    ensures |VolOf(ws[q], sb).data| <= |VolOf(ws[q], sb).fat|
    ensures Good(final) && |final.vol.data| <= |final.vol.fat| && Implements(final.vol, m')
    ensures TreeRun(m, 0, LimitsOf(VolOf(ws[q], sb)), calls, codes, m', final.cwd)
  {
    hide VolOf, Snapshot, GeometryOk, Sane, Implements, Run, TreeRun, Usable, ValidCwd;
    CrashKeepsMap(ws, from, to, sb, sectors, v, q, m);
    m' := RunRefines(State(VolOf(ws[q], sb), 0), m, calls, codes, final);
  }

  // ---- An overwrite or a delete ----

  /** Whichever snapshot a crash leaves, the disk mounts, and every key but the file's own reads as before. */
  lemma CrashReadsOthers(ws: seq<seq<Sector>>, from: nat, to: nat, sb: Superblock, sectors: nat, v: Vol, f: nat, q: nat,
                         dir: nat, name: seq<byte>)
    requires Sane(v) && QuietLog(ws, from, to, sb, sectors, v, f) && from <= q < to
    requires f < |v.table| && IsFile(v.table[f]) && !Matches(v.table[f], dir, name)
    ensures GeometryOk(sb, |ws[q]|) && BootSectorOk(ws[q][0], sb)
    ensures |VolOf(ws[q], sb).data| <= |VolOf(ws[q], sb).fat| && |v.data| <= |v.fat|
    ensures Lookup(VolOf(ws[q], sb), dir, name) == Lookup(v, dir, name)
  {
    hide Lookup, VolOf, Sane, GeometryOk, BootSectorOk;
    assert Snapshot(ws[q], sb, sectors, v, f);
    ConfinedReadsSame(v, VolOf(ws[q], sb), f, dir, name);
  }
}
