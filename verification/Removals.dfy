/** Trees of which any number of the six deletes has run, each as far as its removal got: what removals that
    fail or are killed on the way leave, and what the next recovery makes of it. */
module Removals {
  import opened Tables
  import opened TableLaws
  import opened Recovery

  /** How many deletes of a source's tree have run. */
  type Depths = map<int, nat>

  ghost function Past(d: Depths, k: nat): set<int> {
    set s | s in d && d[s] >= k
  }

  /** The tables with each tree removed down to its depth. */
  ghost function Cut(t: Tables, d: Depths): Tables {
    Tables(t.source - Past(d, 6), EntriesWithout(t.entry, Past(d, 4)), ContainersWithout(t.container, t.entry, Past(d, 2)),
           ChecksumsWithout(t.checksum, t.entry, Past(d, 1)), ScansWithout(t.scan, Past(d, 5)), FtsWithout(t.fts, t.entry, Past(d, 3)))
  }

  ghost predicate Cuts(d: Depths, ss: set<int>) {
    d.Keys <= ss && forall s <- d :: d[s] <= 6
  }

  /** Nothing but trees of ss has been cut. */
  ghost predicate IsCut(r: Tables, t: Tables, ss: set<int>) {
    exists d: Depths :: Cuts(d, ss) && r == Cut(t, d)
  }

  /** Every state of a stretch is one. */
  ghost predicate AreCuts(trace: seq<Tables>, from: nat, to: nat, t: Tables, ss: set<int>) {
    forall i | from <= i < to && i < |trace| :: IsCut(trace[i], t, ss)
  }

  lemma Nested(d: Depths, j: nat, k: nat)
    requires j <= k
    ensures Past(d, k) <= Past(d, j)
  {
  }

  lemma NothingCut(t: Tables, ss: set<int>)
    ensures IsCut(t, t, ss)
  {
    var d: Depths := map[];
    var none: set<int> := {};
    assert forall k :: Past(d, k) == none;
    assert t.source - none == t.source;
    assert EntriesWithout(t.entry, none) == t.entry;
    assert forall e :: !OwnedBy(t.entry, none, e);
    assert ContainersWithout(t.container, t.entry, none) == t.container;
    assert ChecksumsWithout(t.checksum, t.entry, none) == t.checksum;
    assert ScansWithout(t.scan, none) == t.scan;
    assert FtsWithout(t.fts, t.entry, none) == t.fts;
    assert Cuts(d, ss) && t == Cut(t, d);
  }

  // ---------------------------------------------------------------- cutting deeper

  ghost function Deeper(d: Depths, sid: int, n: nat): Depths {
    d[sid := if sid in d && d[sid] > n then d[sid] else n]
  }

  lemma PastDeeper(d: Depths, sid: int, n: nat, k: nat)
    requires k >= 1
    ensures Past(Deeper(d, sid, n), k) == if n >= k then Past(d, k) + {sid} else Past(d, k)
  {
  }

  /** Rows that go with their entries, when those may have gone for some of the same sources. */
  lemma OwnedThen(entry: Entries, gone: set<int>, a: set<int>, b: set<int>, e: int)
    requires gone <= a
    ensures OwnedBy(entry, a + b, e) <==> OwnedBy(entry, a, e) || OwnedBy(EntriesWithout(entry, gone), b, e)
  {
  }

  lemma DependentsThen(t: Tables, gone: set<int>, a: set<int>, b: set<int>)
    requires gone <= a
    ensures ContainersWithout(ContainersWithout(t.container, t.entry, a), EntriesWithout(t.entry, gone), b)
            == ContainersWithout(t.container, t.entry, a + b)
    ensures ChecksumsWithout(ChecksumsWithout(t.checksum, t.entry, a), EntriesWithout(t.entry, gone), b)
            == ChecksumsWithout(t.checksum, t.entry, a + b)
    ensures FtsWithout(FtsWithout(t.fts, t.entry, a), EntriesWithout(t.entry, gone), b) == FtsWithout(t.fts, t.entry, a + b)
  {
    assert forall e :: OwnedBy(t.entry, a + b, e) <==> OwnedBy(t.entry, a, e) || OwnedBy(EntriesWithout(t.entry, gone), b, e) by {
      forall e { OwnedThen(t.entry, gone, a, b, e); }
    }
    hide OwnedBy, EntriesWithout;
  }

  lemma EntriesThen(entry: Entries, scan: map<int, ScanRow>, source: map<int, SourceRow>, a: set<int>, b: set<int>)
    ensures EntriesWithout(EntriesWithout(entry, a), b) == EntriesWithout(entry, a + b)
    ensures ScansWithout(ScansWithout(scan, a), b) == ScansWithout(scan, a + b)
    ensures source - a - b == source - (a + b)
  {
  }

  /** What is removed of one source from tables that are already cut, table by table. */
  lemma WithoutOfCut(t: Tables, d: Depths, b: set<int>)
    ensures Without(Cut(t, d), b) ==
            Tables(t.source - (Past(d, 6) + b), EntriesWithout(t.entry, Past(d, 4) + b),
                   ContainersWithout(t.container, t.entry, Past(d, 2) + b), ChecksumsWithout(t.checksum, t.entry, Past(d, 1) + b),
                   ScansWithout(t.scan, Past(d, 5) + b), FtsWithout(t.fts, t.entry, Past(d, 3) + b))
  {
    EntriesThen(t.entry, t.scan, t.source, Past(d, 4), b);
    EntriesThen(t.entry, t.scan, t.source, Past(d, 5), b);
    EntriesThen(t.entry, t.scan, t.source, Past(d, 6), b);
    Nested(d, 1, 4);
    Nested(d, 2, 4);
    Nested(d, 3, 4);
    DependentsThen(t, Past(d, 4), Past(d, 1), b);
    DependentsThen(t, Past(d, 4), Past(d, 2), b);
    DependentsThen(t, Past(d, 4), Past(d, 3), b);
    hide OwnedBy, EntriesWithout, ContainersWithout, ChecksumsWithout, FtsWithout, ScansWithout, Past;
  }

  /** Further deletes of a tree, whatever has already run, cut exactly that tree deeper, and starting over
      changes nothing. */
  lemma CutDeeper(t: Tables, d: Depths, sid: int, n: nat)
    requires n <= 6
    ensures AfterDeletes(Cut(t, d), sid, n) == Cut(t, Deeper(d, sid, n))
  {
    AfterDeletesByTable(Cut(t, d), sid, n);
    WithoutOfCut(t, d, {sid});
    PastDeeper(d, sid, n, 1);
    PastDeeper(d, sid, n, 2);
    PastDeeper(d, sid, n, 3);
    PastDeeper(d, sid, n, 4);
    PastDeeper(d, sid, n, 5);
    PastDeeper(d, sid, n, 6);
    hide Past, Deeper, Without, AfterDeletes, EntriesWithout, ContainersWithout, ChecksumsWithout, FtsWithout, ScansWithout;
  }

  lemma DeletesCut(r: Tables, t: Tables, sid: int, n: nat, ss: set<int>)
    requires IsCut(r, t, ss) && sid in ss && n <= 6
    ensures IsCut(AfterDeletes(r, sid, n), t, ss)
  {
    var d: Depths :| Cuts(d, ss) && r == Cut(t, d);
    CutDeeper(t, d, sid, n);
    assert Cuts(Deeper(d, sid, n), ss);
    hide Cut, AfterDeletes;
  }

  lemma CloseOfScans(scan: map<int, ScanRow>, ss: set<int>, scanId: int, row: ScanRow)
    requires scanId in scan && row.sourceId == scan[scanId].sourceId
    ensures ScansWithout(scan[scanId := row], ss) ==
            if scanId in ScansWithout(scan, ss) then ScansWithout(scan, ss)[scanId := row] else ScansWithout(scan, ss)
  {
  }

  /** Closing a scan and cutting trees do not interfere. */
  lemma CloseOfCut(t: Tables, d: Depths, scanId: int, status: ScanStatus)
    ensures CloseScan(Cut(t, d), scanId, status) == Cut(CloseScan(t, scanId, status), d)
  {
    if scanId in t.scan {
      CloseOfScans(t.scan, Past(d, 5), scanId, t.scan[scanId].(status := status));
    }
    hide Past, ScansWithout, EntriesWithout, ContainersWithout, ChecksumsWithout, FtsWithout;
    ScansWithoutIs(t.scan, Past(d, 5), scanId);
  }

  lemma ScansWithoutIs(scan: map<int, ScanRow>, ss: set<int>, s: int)
    ensures s in ScansWithout(scan, ss) ==> s in scan && ScansWithout(scan, ss)[s] == scan[s]
  {
  }

  lemma ClosedIsCut(r: Tables, t: Tables, scanId: int, status: ScanStatus, ss: set<int>)
    requires IsCut(r, t, ss)
    ensures IsCut(CloseScan(r, scanId, status), CloseScan(t, scanId, status), ss)
  {
    var d: Depths :| Cuts(d, ss) && r == Cut(t, d);
    CloseOfCut(t, d, scanId, status);
    hide Cut, CloseScan;
  }

  // ---------------------------------------------------------------- what a cut keeps

  /** However far each removal got, the catalog is sound, the other sources have lost nothing, and an index
      that agreed goes on agreeing. */
  lemma CutKeeps(r: Tables, t: Tables, ss: set<int>)
    requires Wf(t) && IsCut(r, t, ss)
    ensures Wf(r) && Without(r, ss) == Without(t, ss)
    ensures forall s <- r.source :: s in t.source && r.source[s] == t.source[s]
    ensures Agrees(t) ==> Agrees(r)
  {
    var d: Depths :| Cuts(d, ss) && r == Cut(t, d);
    CutIsWf(t, d);
    CutKeepsOthers(t, d, ss);
    if Agrees(t) {
      FewerKeepAgreement(t, r);
    }
  }

  lemma CutIsWf(t: Tables, d: Depths)
    requires Wf(t)
    ensures Wf(Cut(t, d))
  {
    Nested(d, 1, 4);
    Nested(d, 2, 4);
    Nested(d, 3, 4);
    Nested(d, 4, 6);
    Nested(d, 5, 6);
    EntriesWithoutKeepsParents(t.entry, Past(d, 4));
    hide Past;
    assert References(Cut(t, d));
  }

  lemma CutKeepsOthers(t: Tables, d: Depths, ss: set<int>)
    requires Cuts(d, ss)
    ensures Without(Cut(t, d), ss) == Without(t, ss)
  {
    WithoutOfCut(t, d, ss);
    forall k: nat
      ensures Past(d, k) + ss == ss
    {
    }
    hide Past, EntriesWithout, ContainersWithout, ChecksumsWithout, FtsWithout, ScansWithout;
  }

  // ---------------------------------------------------------------- what the next recovery makes of it

  lemma OrphansOfCut(t: Tables, d: Depths)
    ensures Orphans(Cut(t, d)) == Orphans(t) - Past(d, 5)
  {
    var r := Cut(t, d);
    hide Past;
    forall o | o in Orphans(t) - Past(d, 5)
      ensures o in Orphans(r)
    {
      var s :| s in t.scan && t.scan[s].status == InProgress && t.scan[s].sourceId == o;
      assert s in r.scan && r.scan[s] == t.scan[s];
    }
    forall o | o in Orphans(r)
      ensures o in Orphans(t) - Past(d, 5)
    {
      var s :| s in r.scan && r.scan[s].status == InProgress && r.scan[s].sourceId == o;
      assert s in t.scan && t.scan[s] == r.scan[s];
    }
  }

  ghost function AtFive(d: Depths): set<int> {
    set s | s in d && d[s] == 5
  }

  /** Of unfinished trees that were cut, recovery passes over exactly those whose removal stopped after five
      of the six deletes. */
  lemma LeftoverOfCut(t: Tables, d: Depths, ss: set<int>)
    requires Wf(t) && Cuts(d, ss) && ss <= Orphans(t)
    ensures Leftover(Cut(t, d), ss) == AtFive(d)
  {
    OrphansOfCut(t, d);
    OrphansAreSources(t);
    hide Orphans;
  }

  lemma OrphansAreSources(t: Tables)
    requires Wf(t)
    ensures Orphans(t) <= t.source.Keys
  {
  }

  /** So a later recovery finishes interrupted removals exactly when none of them stopped there. */
  lemma InterruptedRemovalsAreFinishedIff(t: Tables, d: Depths, ss: set<int>)
    requires Wf(t) && Cuts(d, ss) && ss <= Orphans(t)
    ensures Recovered(Cut(t, d)) == Recovered(t) <==> forall s <- d :: d[s] != 5
  {
    LeftoverOfCut(t, d, ss);
    CutIsWf(t, d);
    CutKeepsOthers(t, d, ss);
    RecoveryRestoresAllIff(Cut(t, d), ss);
    RecoveryRestoresAllIff(t, ss);
    assert Leftover(t, ss) == {};
    hide Cut, Recovered, Orphans, Without, Wf;
  }
}
