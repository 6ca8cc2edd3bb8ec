/** What the next run makes of a file: dropping every tree whose scan never finished. */
module Recovery {
  import opened Tables
  import opened TableLaws
  import opened Shadow
  import opened Catalog

  ghost function Orphans(t: Tables): set<int> {
    set s | s in t.scan && t.scan[s].status == InProgress :: t.scan[s].sourceId
  }

  ghost function Recovered(t: Tables): Tables { Without(t, Orphans(t)) }

  /** Recovery leaves no scan in progress, and is done. */
  lemma RecoveryIsComplete(t: Tables)
    requires Wf(t)
    ensures Orphans(Recovered(t)) == {} && Wf(Recovered(t))
    ensures forall s <- Recovered(t).scan :: Recovered(t).scan[s].status != InProgress
    ensures Recovered(Recovered(t)) == Recovered(t)
  {
    var r := Recovered(t);
    WithoutKeepsWf(t, Orphans(t));
    assert forall s <- t.scan :: t.scan[s].status == InProgress ==> t.scan[s].sourceId in Orphans(t);
    assert forall s <- r.scan :: r.scan[s].status != InProgress;
    NothingToRecover(r);
  }

  /** A source stays exactly when none of its scans is in progress; with it stay all of its rows, and nothing else. */
  lemma RecoveredRows(t: Tables)
    requires Wf(t)
    ensures var r := Recovered(t);
            && (forall s <- t.source :: s in r.source <==> forall k <- t.scan :: t.scan[k].sourceId == s ==> t.scan[k].status != InProgress)
            && (forall e <- t.entry :: e in r.entry <==> t.entry[e].sourceId in r.source)
            && (forall c <- t.container :: c in r.container <==> t.container[c].entryId in r.entry)
            && (forall k <- t.checksum :: k in r.checksum <==> k.entryId in r.entry)
            && (forall f <- t.fts :: f in r.fts <==> f in r.entry)
            && (forall s <- t.scan :: s in r.scan <==> t.scan[s].sourceId in r.source)
            && SomeRows(r, t)
  {
    WithoutRows(t, Orphans(t));
    forall s <- t.source
      ensures s in Orphans(t) <==> exists k <- t.scan :: t.scan[k].sourceId == s && t.scan[k].status == InProgress
    {
    }
    hide Without, Orphans;
  }

  lemma NothingToRecover(t: Tables)
    requires References(t) && Orphans(t) == {}
    ensures Recovered(t) == t
  {
    WithoutNothing(t, {});
  }

  lemma OrphansOfTheRest(d: Tables, ss: set<int>)
    ensures Orphans(Without(d, ss)) == Orphans(d) - ss
  {
    var b := Without(d, ss);
    forall o | o in Orphans(d) - ss
      ensures o in Orphans(b)
    {
      var s :| s in d.scan && d.scan[s].status == InProgress && d.scan[s].sourceId == o;
      assert s in b.scan && b.scan[s] == d.scan[s];
    }
    forall o | o in Orphans(b)
      ensures o in Orphans(d) - ss
    {
      var s :| s in b.scan && b.scan[s].status == InProgress && b.scan[s].sourceId == o;
      assert s in d.scan && d.scan[s] == b.scan[s];
    }
  }

  /** The sources of ss that recovery will not remove: no scan row marks them as unfinished. */
  ghost function Leftover(d: Tables, ss: set<int>): set<int> {
    set s | s in ss && s in d.source && s !in Orphans(d)
  }

  /** Recovery keeps what it would keep without ss, and the leftovers of ss. */
  lemma RecoveredSources(d: Tables, ss: set<int>)
    requires Wf(d)
    ensures var r, all := Recovered(Without(d, ss)).source, Recovered(d).source;
            && all.Keys == r.Keys + Leftover(d, ss) && r.Keys !! Leftover(d, ss)
            && (forall s <- r :: all[s] == r[s])
            && (forall s <- Leftover(d, ss) :: all[s] == d.source[s])
  {
    OrphansOfTheRest(d, ss);
    assert Recovered(d).source == d.source - Orphans(d);
    assert Recovered(Without(d, ss)).source == d.source - ss - (Orphans(d) - ss);
    hide Orphans, Wf;
  }

  /** Recovery leaves nothing of ss exactly when no leftover is there, whatever else it finds. */
  lemma RecoveryRestoresAllIff(d: Tables, ss: set<int>)
    requires Wf(d)
    ensures Recovered(d) == Recovered(Without(d, ss)) <==> Leftover(d, ss) == {}
  {
    OrphansOfTheRest(d, ss);
    RecoveredSources(d, ss);
    if Leftover(d, ss) == {} {
      WithoutTwice(d, ss, Orphans(d) - ss);
      WfHasReferences(d);
      assert forall s <- d.source :: s in Orphans(d) <==> s in ss + (Orphans(d) - ss) by {
        forall s <- d.source ensures s in Orphans(d) <==> s in ss + (Orphans(d) - ss) {
          assert s !in Leftover(d, ss);
        }
      }
      WithoutIrrelevant(d, Orphans(d), ss + (Orphans(d) - ss));
    }
    hide Orphans, Wf, Without;
  }

  /** A file that holds the tables b and rows of one more source is recovered to what b is
      recovered to exactly when that source is absent or has a scan row in progress. */
  lemma RecoveryRestoresIff(d: Tables, sid: int)
    requires Wf(d)
    ensures var b := Without(d, {sid});
            Recovered(d) == Recovered(b) <==> sid !in d.source || sid in Orphans(d)
  {
    RecoveryRestoresAllIff(d, {sid});
    assert sid in Leftover(d, {sid}) <==> sid in d.source && sid !in Orphans(d);
    assert Leftover(d, {sid}) <= {sid};
  }

  lemma ShadowIsOrphan(t: Tables, w: Window)
    requires IsShadow(t, w)
    ensures Orphans(t) == Orphans(w.base) + {w.sid}
    ensures w.sid !in w.base.source
  {
    OrphansOfTheRest(t, {w.sid});
    assert t.scan[w.scanId].sourceId == w.sid;
    assert w.sid in Orphans(t);
  }

  /** Killed at any moment of its window, a scan leaves no trace behind the next recovery. */
  lemma KilledScanIsUndone(t: Tables, w: Window)
    requires IsShadow(t, w)
    ensures Recovered(t) == Recovered(w.base)
    ensures Orphans(w.base) == {} ==> Recovered(t) == w.base
  {
    ShadowIsOrphan(t, w);
    RecoveryRestoresIff(t, w.sid);
    if Orphans(w.base) == {} {
      WithoutKeepsWf(t, {w.sid});
      NothingToRecover(w.base);
    }
  }

  // ---------------------------------------------------------------- the switch

  /** What the switch transaction commits: the old tree, if any, is gone and the scan row is closed. */
  function Switched(t: Tables, w: Window, olds: set<int>, status: ScanStatus): Tables {
    CloseScan(Without(t, olds), w.scanId, status)
  }

  lemma SwitchKeepsTheRest(t: Tables, w: Window, olds: set<int>, status: ScanStatus)
    requires IsShadow(t, w) && w.sid !in olds
    ensures Wf(Switched(t, w, olds, status)) && Wf(Without(t, olds))
    ensures Without(Switched(t, w, olds, status), {w.sid}) == Without(w.base, olds)
    ensures Without(t, olds).scan[w.scanId] == ScanRow(w.sid, InProgress)
  {
    var r := Without(t, olds);
    WithoutKeepsWf(t, olds);
    assert w.scanId in r.scan && r.scan[w.scanId] == t.scan[w.scanId];
    CloseScanKeeps(r, w.scanId, status);
    WithoutTwice(t, olds, {w.sid});
    WithoutTwice(t, {w.sid}, olds);
    assert olds + {w.sid} == {w.sid} + olds;
  }

  /** Which trees a switch leaves unfinished: those that were, and the new one if it was not closed. */
  lemma OrphansAfterSwitch(t: Tables, w: Window, olds: set<int>, status: ScanStatus)
    requires IsShadow(t, w) && w.sid !in olds
    ensures var d := Switched(t, w, olds, status);
            Orphans(d) == Orphans(Without(w.base, olds)) + (if status == InProgress then {w.sid} else {})
    ensures w.sid in Switched(t, w, olds, status).source && w.sid !in Without(w.base, olds).source
    ensures Switched(t, w, olds, status).source[w.sid] == w.row
  {
    var d := Switched(t, w, olds, status);
    SwitchKeepsTheRest(t, w, olds, status);
    OrphansOfTheRest(d, {w.sid});
    assert d.scan[w.scanId].sourceId == w.sid && d.scan[w.scanId].status == status;
    assert forall s <- d.scan :: d.scan[s].sourceId == w.sid ==> s == w.scanId;
    assert w.sid in Orphans(d) <==> status == InProgress;
    hide Wf, Without;
  }

  /** The new tree outlives the next recovery exactly when its scan row was closed: a switch whose
      finish failed commits the removal of the old tree and loses the new one at the next start. */
  lemma SwitchSurvivesIff(t: Tables, w: Window, olds: set<int>, status: ScanStatus)
    requires IsShadow(t, w) && w.sid !in olds
    ensures var d := Switched(t, w, olds, status);
            && (w.sid in Recovered(d).source <==> status != InProgress)
            && (status == InProgress ==> Recovered(d) == Recovered(Without(w.base, olds)))
            && (status != InProgress && Orphans(w.base) == {} ==> Recovered(d) == d)
  {
    var d := Switched(t, w, olds, status);
    SwitchKeepsTheRest(t, w, olds, status);
    OrphansAfterSwitch(t, w, olds, status);
    OrphansOfTheRest(w.base, olds);
    OrphansOfTheRest(d, {w.sid});
    RecoveryRestoresIff(d, w.sid);
    WfHasReferences(d);
    if status != InProgress {
      assert w.sid !in Orphans(Without(w.base, olds));
      if Orphans(w.base) == {} {
        NothingToRecover(d);
      }
    }
    hide Wf, IsShadow, Switched;
  }

  // ---------------------------------------------------------------- one source for every path

  /** A path without trailing separators is its own trimmed form. */
  predicate Clean(path: string) { Trim(path) == path }

  ghost predicate UniquePaths(t: Tables) {
    forall a <- t.source, b <- t.source :: t.source[a].path == t.source[b].path ==> a == b
  }

  ghost predicate FreeAt(t: Tables, path: string) {
    forall s <- t.source :: t.source[s].path != path
  }

  /** A catalog that recovery makes sound, with one source for every path. */
  ghost predicate Settled(t: Tables) {
    Wf(t) && UniquePaths(Recovered(t))
  }

  /** What the lookup may have found at a path: some match, or nothing if there is none. */
  ghost predicate Found(b: Tables, path: string, olds: set<int>) {
    || (olds == {} && forall s <- b.source :: !Matches(b.source[s], path))
    || (exists s <- b.source :: olds == {s} && Matches(b.source[s], path))
  }

  /** No leftover of ss lies where another source lies that recovery keeps. */
  ghost predicate Uncrowded(d: Tables, ss: set<int>) {
    forall a <- Leftover(d, ss), c <- Recovered(d).source :: Recovered(d).source[c].path == d.source[a].path ==> a == c
  }

  /** With one source for every path but for ss, the leftovers of ss decide. */
  lemma UniqueIff(d: Tables, ss: set<int>)
    requires Wf(d)
    ensures UniquePaths(Recovered(d)) <==> UniquePaths(Recovered(Without(d, ss))) && Uncrowded(d, ss)
  {
    RecoveredSources(d, ss);
    hide Recovered, Leftover, Without, Wf;
  }

  /** For a single source: it is gone, or unfinished, or alone at its path. */
  lemma OneMoreIsUniqueIff(d: Tables, sid: int, path: string)
    requires Wf(d) && (sid in d.source ==> d.source[sid].path == path)
    ensures var r := Recovered(Without(d, {sid}));
            UniquePaths(Recovered(d)) <==> UniquePaths(r) && (sid !in d.source || sid in Orphans(d) || FreeAt(r, path))
  {
    UniqueIff(d, {sid});
    RecoveredSources(d, {sid});
    assert sid in Leftover(d, {sid}) <==> sid in d.source && sid !in Orphans(d);
    assert forall a <- Leftover(d, {sid}) :: a == sid;
    hide Recovered, Leftover, Without, Wf, Orphans;
  }

  /** After a switch: a failed finish adds nothing to be found twice; a closed tree has to find its path
      free of every finished source but the one it replaced. */
  lemma SwitchIsUniqueIff(t: Tables, w: Window, olds: set<int>, status: ScanStatus)
    requires IsShadow(t, w) && w.sid !in olds
    ensures var d, r := Switched(t, w, olds, status), Recovered(Without(w.base, olds));
            UniquePaths(Recovered(d)) <==> UniquePaths(r) && (status == InProgress || FreeAt(r, w.row.path))
  {
    var d := Switched(t, w, olds, status);
    SwitchKeepsTheRest(t, w, olds, status);
    OrphansAfterSwitch(t, w, olds, status);
    OrphansOfTheRest(d, {w.sid});
    OneMoreIsUniqueIff(d, w.sid, w.row.path);
    hide Wf, IsShadow, Switched, Recovered, Without;
  }

  /** What is left at a path without the replaced sources: nothing exactly when each finished source
      at the path is among them. */
  lemma PathIsFreeIff(b: Tables, path: string, olds: set<int>)
    requires Wf(b)
    ensures FreeAt(Recovered(Without(b, olds)), path) <==>
            forall s <- Recovered(b).source :: Recovered(b).source[s].path == path ==> s in olds
    ensures UniquePaths(Recovered(b)) ==> UniquePaths(Recovered(Without(b, olds)))
  {
    RecoveredSources(b, olds);
    assert forall s <- Leftover(b, olds) :: s in olds;
    assert forall s <- Recovered(Without(b, olds)).source :: s !in olds;
    hide Recovered, Leftover, Without, Wf;
  }

  /** A lookup by a path without trailing separators finds the finished source that lies there, as long
      as no unfinished one lies there too. */
  lemma LookupClearsThePath(b: Tables, path: string, olds: set<int>)
    requires Wf(b) && Clean(path) && Found(b, path, olds) && UniquePaths(Recovered(b))
    requires forall o <- b.source :: b.source[o].path == path ==> o !in Orphans(b)
    ensures forall s <- Recovered(b).source :: Recovered(b).source[s].path == path ==> s in olds
  {
    assert Recovered(b).source == b.source - Orphans(b);
    hide Wf, Recovered, Orphans;
  }
}
