/** What a catalog's owner may conclude from the shape of a run. */
module Guarantees {
  import opened Tables
  import opened TableLaws
  import opened Connection
  import opened Catalog
  import opened Shadow
  import opened ScanTree
  import opened Recovery
  import opened Removals
  import opened ScanRun

  // ---------------------------------------------------------------- before the switch

  /** A moment between recovery and switch: the tables recovery left, and whatever there is of the new source. */
  ghost predicate BesideNew(d: Tables, w: Window) {
    && Wf(d) && Without(d, {w.sid}) == w.base
    && (w.sid in d.source ==> d.source[w.sid] == w.row)
  }

  lemma ShadowIsBeside(t: Tables, w: Window)
    requires IsShadow(t, w)
    ensures BesideNew(t, w)
  {
  }

  lemma CutShadowIsBeside(d: Tables, t: Tables, w: Window)
    requires IsShadow(t, w) && IsCut(d, t, {w.sid})
    ensures BesideNew(d, w)
  {
    CutKeeps(d, t, {w.sid});
    hide IsCut, Wf, Without;
  }

  lemma LoneSourceIsBeside(b: Tables, sid: int, row: SourceRow, scanId: int)
    requires Wf(b) && IsNextId(b.source.Keys, sid)
    ensures BesideNew(InsertSource(b, sid, row), Window(b, sid, row, scanId))
  {
    InsertSourceKeeps(b, sid, row);
  }

  lemma BeforeTheSwitch(trace: seq<Tables>, n0: nat, p: Tables, run: Run, i: nat)
    requires Wf(p) && RunShape(trace, n0, p, run) && run.from <= i < run.switchAt
    ensures BesideNew(trace[i], run.w)
  {
    hide Wf, Without, IsShadow, IsCut, PrefixOf, IsNextId, Orphans, BesideNew;
    BaseIsCut(trace, n0, p, run);
    if i < run.opens {
      LoneSourceIsBeside(run.base, run.w.sid, run.w.row, run.w.scanId);
    } else if i < run.dropped {
      ShadowIsBeside(trace[i], run.w);
    } else {
      CutShadowIsBeside(trace[i], trace[run.dropped - 1], run.w);
    }
  }

  /** Up to the source row the file holds what recovery has cut so far. */
  lemma BaseIsCut(trace: seq<Tables>, n0: nat, p: Tables, run: Run)
    requires Wf(p) && RunShape(trace, n0, p, run)
    ensures Wf(run.base)
    ensures forall i | n0 - 1 <= i < run.from :: IsCut(trace[i], p, Orphans(p))
  {
    NothingCut(p, Orphans(p));
    hide Wf, IsShadow, IsCut, PrefixOf, IsNextId, Orphans, EndShape;
    assert forall i | n0 <= i < run.from :: IsCut(trace[i], p, Orphans(p));
    CutIsSound(run.base, p, Orphans(p));
  }

  /** Until the switch, and at every moment a kill may choose, all sources but the new one hold
      exactly the rows they held after recovery; the next recovery makes that exact unless it finds
      a new source that no scan row marks as unfinished. */
  lemma OldRowsStayUntilTheSwitch(trace: seq<Tables>, n0: nat, p: Tables, run: Run, i: nat)
    requires Wf(p) && RunShape(trace, n0, p, run) && run.from <= i < run.switchAt
    ensures Wf(trace[i]) && Without(trace[i], {run.w.sid}) == run.base
    ensures Recovered(trace[i]) == Recovered(run.base) <==>
            run.w.sid !in trace[i].source || run.w.sid in Orphans(trace[i])
    ensures run.opens <= i < run.dropped ==> Recovered(trace[i]) == Recovered(run.base)
  {
    BeforeTheSwitch(trace, n0, p, run, i);
    RecoveryRestoresIff(trace[i], run.w.sid);
    hide Wf, Recovered, Without, IsShadow, IsCut;
    if run.opens <= i < run.dropped {
      KilledScanIsUndone(trace[i], run.w);
    }
  }

  /** While recovery is at it, every other source keeps its rows, however far the removals got. */
  lemma OtherRowsStayInRecovery(trace: seq<Tables>, n0: nat, p: Tables, run: Run, i: nat)
    requires Wf(p) && RunShape(trace, n0, p, run) && n0 - 1 <= i < run.from
    ensures Wf(trace[i]) && Without(trace[i], Orphans(p)) == Recovered(p)
  {
    BaseIsCut(trace, n0, p, run);
    CutKeeps(trace[i], p, Orphans(p));
  }

  /** A tree whose scan is still open and whose removal was interrupted is marked for the next recovery, or
      gone, exactly when the removal did not stop after five deletes. */
  lemma UnfinishedIsMarkedIff(t: Tables, w: Window, d: Depths)
    requires IsShadow(t, w) && Cuts(d, {w.sid})
    ensures var r := Cut(t, d);
            (w.sid !in r.source || w.sid in Orphans(r)) <==> !(w.sid in d && d[w.sid] == 5)
  {
    ShadowIsOrphan(t, w);
    LeftoverOfCut(t, d, {w.sid});
    assert w.sid in Leftover(Cut(t, d), {w.sid}) <==> w.sid in Cut(t, d).source && w.sid !in Orphans(Cut(t, d));
    hide Cut, Orphans, Leftover, Wf;
  }

  // ---------------------------------------------------------------- the switch

  /** The switch is one commit: it removes exactly the replaced tree, keeps every other source, and
      the new tree outlives the next recovery exactly when its scan row was closed. */
  lemma SwitchIsOneCommit(trace: seq<Tables>, n0: nat, p: Tables, run: Run)
    requires RunShape(trace, n0, p, run) && run.ending.Atomic?
    ensures var d := trace[run.switchAt];
            && run.switchAt == |trace| - 1
            && Wf(d)
            && Without(d, {run.w.sid}) == Without(run.base, run.olds)
            && (run.w.sid in Recovered(d).source <==> run.ending.status != InProgress)
  {
    hide Wf, Without, IsShadow, IsCut, PrefixOf, Switched, Recovered, Orphans;
    var t := trace[run.switchAt - 1];
    assert IsShadow(t, run.w);
    SwitchKeepsTheRest(t, run.w, run.olds, run.ending.status);
    SwitchSurvivesIff(t, run.w, run.olds, run.ending.status);
  }

  /** A first scan that is cancelled keeps its whole batches, and nothing of the batch it was in: what was
      written first, and no entry without the index row it got. It outlives the next recovery. */
  lemma CancelledScanKeepsWholeBatches(trace: seq<Tables>, n0: nat, p: Tables, run: Run)
    requires RunShape(trace, n0, p, run) && WholeBatches(trace, run) && run.ending.Atomic? && !run.filled
    ensures var d, sid := trace[run.switchAt], run.w.sid;
            && run.ending.status == Cancelled && run.olds == {} && Without(d, {sid}) == run.base
            && |Physical(d, sid)| % 1000 == 0
            && PrefixOf(d, run.tree) && IndexedTogether(d, run.tree)
            && sid in Recovered(d).source
  {
    hide Wf, Without, IsShadow, IsCut, Orphans, Recovered, PrefixOf, IndexedTogether, Physical, Switched;
    ClosedFirstScan(trace[run.switchAt - 1], run.w, run.tree);
  }

  lemma ClosedFirstScan(t: Tables, w: Window, tree: Tables)
    requires IsShadow(t, w)
    ensures var d := Switched(t, w, {}, Cancelled);
            && Without(d, {w.sid}) == w.base && w.sid in Recovered(d).source
            && Physical(d, w.sid) == Physical(t, w.sid)
            && (PrefixOf(t, tree) ==> PrefixOf(d, tree))
            && (IndexedTogether(t, tree) ==> IndexedTogether(d, tree))
  {
    SwitchKeepsTheRest(t, w, {}, Cancelled);
    SwitchSurvivesIff(t, w, {}, Cancelled);
    WithoutKeepsWf(t, {w.sid});
    WithoutNothing(w.base, {});
    WithoutNone(t, w);
    SameTree(t, w, tree);
    hide Wf, Without, Recovered, PrefixOf, IndexedTogether, Physical, Switched;
  }

  lemma SameTree(t: Tables, w: Window, tree: Tables)
    requires Without(t, {}) == t
    ensures var d := Switched(t, w, {}, Cancelled);
            && Physical(d, w.sid) == Physical(t, w.sid)
            && (PrefixOf(t, tree) ==> PrefixOf(d, tree))
            && (IndexedTogether(t, tree) ==> IndexedTogether(d, tree))
  {
    SwitchedIs(t, w, {}, Cancelled);
    hide Without, Switched;
  }

  // ---------------------------------------------------------------- every state of a run

  /** A moment of a switch without a transaction keeps third sources as they were. */
  lemma UnguardedKeeps(r: Tables, t: Tables, w: Window, olds: set<int>)
    requires IsShadow(t, w) && IsUnguarded(r, t, w, olds)
    ensures Wf(r) && Without(r, {w.sid} + olds) == Without(w.base, olds)
    ensures forall s <- r.source :: if s == w.sid then r.source[s] == w.row else s in w.base.source && r.source[s] == w.base.source[s]
  {
    hide Wf, Without, IsCut, CloseScan, Agrees, IsShadow;
    var both := {w.sid} + olds;
    var status: ScanStatus :| IsCut(r, CloseScan(t, w.scanId, status), both);
    ClosedIsWf(t, w, status);
    CutKeeps(r, CloseScan(t, w.scanId, status), both);
    ClosedWithout(t, w, olds, status);
  }

  lemma ClosedWithout(t: Tables, w: Window, olds: set<int>, status: ScanStatus)
    requires IsShadow(t, w)
    ensures Without(CloseScan(t, w.scanId, status), {w.sid} + olds) == Without(w.base, olds)
    ensures forall s <- CloseScan(t, w.scanId, status).source ::
              if s == w.sid then t.source[s] == w.row else s in w.base.source && t.source[s] == w.base.source[s]
    ensures CloseScan(t, w.scanId, status).source == t.source
  {
    var both, c := {w.sid} + olds, CloseScan(t, w.scanId, status);
    assert ScansWithout(c.scan, both) == ScansWithout(t.scan, both);
    WithoutTwice(t, {w.sid}, olds);
    assert t.source - {w.sid} == w.base.source;
    hide Wf;
  }

  /** No kill, at any moment of any run, leaves a broken catalog: references hold, parents come first,
      and every index row belongs to a live entry and carries its name. */
  lemma EveryStateIsWellFormed(trace: seq<Tables>, n0: nat, p: Tables, run: Run, i: nat)
    requires Wf(p) && RunShape(trace, n0, p, run) && n0 <= i < |trace|
    ensures Wf(trace[i])
  {
    hide Wf, Without, IsShadow, IsCut, IsUnguarded, PrefixOf, Switched, Orphans, Recovered;
    if i < run.from {
      OtherRowsStayInRecovery(trace, n0, p, run, i);
    } else if i < run.switchAt {
      BeforeTheSwitch(trace, n0, p, run, i);
    } else if run.ending.Atomic? {
      SwitchIsOneCommit(trace, n0, p, run);
    } else {
      UnguardedKeeps(trace[i], trace[run.dropped - 1], run.w, run.olds);
    }
  }

  /** And an index row carries its entry's path and its source's name, in every state of every run in which
      all reads for index rows went through, whatever else failed. */
  lemma EveryIndexRowAgrees(before: State, after: State, path: string, run: Run, i: nat)
    requires IsRun(before, after, path, run) && Agrees(before.durable) && after.misreads == before.misreads
    requires |before.trace| <= i < |after.trace|
    ensures Agrees(after.trace[i])
  {
    hide RunShape, Agrees, Looked, Undisturbed;
  }

  // ---------------------------------------------------------------- where the promise stops

  /** A kill between the source row and the scan row leaves a source that no recovery removes. */
  lemma SourceWithoutScanStays(b: Tables, sid: int, row: SourceRow)
    requires Wf(b) && IsNextId(b.source.Keys, sid) && Orphans(b) == {}
    ensures var d := InsertSource(b, sid, row);
            Recovered(d) == d && sid in d.source
  {
    InsertSourceKeeps(b, sid, row);
    NothingToRecover(InsertSource(b, sid, row));
  }

  /** A switch whose BEGIN fails runs unguarded: its deletes of the old tree commit, its own commit is
      refused, and the clean-up then drops the new tree as well. Both are gone. */
  lemma UnguardedSwitchLosesBoth(t: Tables, w: Window, previous: int, status: ScanStatus)
    requires IsShadow(t, w) && previous in w.base.source && previous != w.sid
    ensures var last := AfterDeletes(CloseScan(AfterDeletes(t, previous, 6), w.scanId, status), w.sid, 6);
            last == Without(w.base, {previous}) && previous !in last.source && w.sid !in last.source
  {
    SixDeletesRemoveTheTree(t, previous);
    SwitchKeepsTheRest(t, w, {previous}, status);
    SixDeletesRemoveTheTree(Switched(t, w, {previous}, status), w.sid);
  }

  /** At every moment of an unguarded switch: which of its two trees the next recovery keeps, and that
      every third source keeps what it had. */
  lemma UnguardedSwitchKeepsIff(trace: seq<Tables>, n0: nat, p: Tables, run: Run, i: nat, s: int)
    requires RunShape(trace, n0, p, run) && run.ending.Unprotected? && run.switchAt <= i < |trace|
    requires s in {run.w.sid} + run.olds
    ensures s in Recovered(trace[i]).source <==> s in trace[i].source && s !in Orphans(trace[i])
    ensures Without(trace[i], {run.w.sid} + run.olds) == Without(run.base, run.olds)
  {
    hide IsShadow, IsUnguarded, Orphans, Without, IsCut, PrefixOf;
    assert IsShadow(trace[run.dropped - 1], run.w) && IsUnguarded(trace[i], trace[run.dropped - 1], run.w, run.olds);
    UnguardedKeeps(trace[i], trace[run.dropped - 1], run.w, run.olds);
    RecoveredKeys(trace[i]);
  }

  lemma RecoveredKeys(d: Tables)
    ensures Recovered(d).source == d.source - Orphans(d)
  {
  }

  /** The lookup trims the path it is given and not the stored one. Two paths of the same place meet
      exactly when they are equal or the stored one has no trailing separator. */
  lemma LookupFindsSamePlaceIff(row: SourceRow, path: string)
    requires Trim(row.path) == Trim(path)
    ensures Matches(row, path) <==> row.path == path || Clean(row.path)
  {
  }

  lemma LookupMissesTrailingSeparator()
    ensures Trim("/media/") == Trim("/media") && !Matches(SourceRow("media", "/media/"), "/media")
  {
    assert "/media/"[..6] == "/media";
    assert "/media/"[6] == '/';
  }
}
