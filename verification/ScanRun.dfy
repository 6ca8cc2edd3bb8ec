/** A whole run: recovery, the shadow tree, the switch, and the clean-up after a failure. */
module ScanRun {
  import opened Results
  import opened Tables
  import opened TableLaws
  import opened Connection
  import opened Catalog
  import opened Shadow
  import opened ScanTree
  import opened Recovery
  import opened Removals

  /** What every step of a run keeps: the states so far stay, and the index goes on agreeing. */
  ghost predicate Continues(c: State, d: State) {
    && Consistent(d)
    && c.faults <= d.faults
    && |c.trace| <= |d.trace|
    && d.trace[..|c.trace|] == c.trace
    && KeepsAgreement(c, d)
  }

  lemma ContinuesTwice(a: State, b: State, c: State)
    requires Continues(a, b) && Continues(b, c)
    ensures Continues(a, c)
  {
    AgreementTwice(a, b, c);
    assert c.trace[..|b.trace|][..|a.trace|] == c.trace[..|a.trace|];
    hide Agrees;
  }

  lemma ContinuesSelf(c: State)
    requires Consistent(c)
    ensures Continues(c, c)
  {
    hide Agrees;
  }

  lemma ExecutedContinues(c: State, d: State, next: Tables, ok: bool)
    requires Consistent(c) && Executed(c, d, next, ok) && (Agrees(c.work) ==> Agrees(next))
    ensures Continues(c, d)
  {
    hide Agrees, References;
  }

  lemma CutsOn(a: seq<Tables>, b: seq<Tables>, from: nat, t: Tables, ss: set<int>)
    requires from <= |a| <= |b| && b[..|a|] == a
    requires AreCuts(a, from, |a|, t, ss) && AreCuts(b, |a|, |b|, t, ss)
    ensures AreCuts(b, from, |b|, t, ss)
  {
    hide IsCut;
    forall i | from <= i < |b|
      ensures IsCut(b[i], t, ss)
    {
      if i < |a| {
        assert b[i] == b[..|a|][i];
      }
    }
  }

  // ---------------------------------------------------------------- removing a tree on a connection

  /** RemoveTree, seen from tables t of which some trees are being removed. */
  method RemoveFrom(db: Database, sid: int, ghost t: Tables, ghost ss: set<int>) returns (ok: bool)
    requires db.Valid() && Wf(t) && sid in ss && IsCut(db.work, t, ss)
    modifies db
    ensures db.inTxn == old(db.inTxn) && Continues(old(db.Now()), db.Now())
    ensures IsCut(db.work, t, ss)
    ensures if db.inTxn then db.durable == old(db.durable) && db.trace == old(db.trace)
            else AreCuts(db.trace, |old(db.trace)|, |db.trace|, t, ss)
    ensures ok ==> db.work == Without(old(db.work), {sid})
    ensures !ok ==> db.faults > old(db.faults)
  {
    hide Wf, Without, IsCut, AfterDeletes, Agrees;
    ghost var c := db.Now();
    ghost var r := db.work;
    CutIsSound(r, t, ss);
    ghost var n;
    ok, n := RemoveTree(db, sid);
    DeletesCut(r, t, sid, n, ss);
    SixDeletesRemoveTheTree(r, sid);
    if Agrees(r) {
      DeletesAgree(r, sid, n);
    }
    if !db.inTxn {
      TracedCuts(db.trace, |c.trace|, r, t, sid, n, ss);
      TracedAgree(db.trace, |c.trace|, r, sid, n);
      LastIsDurable(c, db.Now());
    }
  }

  lemma CutIsSound(r: Tables, t: Tables, ss: set<int>)
    requires Wf(t) && IsCut(r, t, ss)
    ensures Wf(r)
  {
    CutKeeps(r, t, ss);
  }

  lemma DeletesAgree(t: Tables, sid: int, n: nat)
    requires Agrees(t) && n <= 6
    ensures Agrees(AfterDeletes(t, sid, n))
  {
    DeletesKeepAgreement(t, sid, n);
  }

  lemma TracedCuts(trace: seq<Tables>, start: nat, r: Tables, t: Tables, sid: int, n: nat, ss: set<int>)
    requires Traced(trace, start, r, sid, n) && n <= 6 && IsCut(r, t, ss) && sid in ss
    ensures AreCuts(trace, start, |trace|, t, ss)
  {
    hide IsCut, AfterDeletes;
    forall i | start <= i < |trace|
      ensures IsCut(trace[i], t, ss)
    {
      DeletesCut(r, t, sid, i + 1 - start, ss);
    }
  }

  lemma TracedAgree(trace: seq<Tables>, start: nat, r: Tables, sid: int, n: nat)
    requires Traced(trace, start, r, sid, n) && n <= 6
    ensures Agrees(r) ==> forall i | start <= i < |trace| :: Agrees(trace[i])
  {
    hide AfterDeletes, Agrees;
    forall i | start <= i < |trace| && Agrees(r)
      ensures Agrees(trace[i])
    {
      DeletesAgree(r, sid, i + 1 - start);
    }
  }

  lemma LastIsDurable(c: State, d: State)
    requires Consistent(c) && Consistent(d) && |c.trace| <= |d.trace| && d.trace[..|c.trace|] == c.trace
    ensures if |d.trace| == |c.trace| then d.durable == c.durable else d.durable == d.trace[|d.trace| - 1]
  {
    assert |d.trace| == |c.trace| ==> d.trace == c.trace;
  }

  /** Drop a shadow tree in its own transaction. When its BEGIN fails outside a transaction the
      deletes commit one by one; inside one, left open by a failed COMMIT or ROLLBACK, nothing does. It leaves a
      transaction open only when something failed and the ROLLBACK then failed too. */
  method DropShadow(db: Database, sid: int, ghost t: Tables, ghost ss: set<int>) returns (ok: bool)
    requires db.Valid() && Wf(t) && sid in ss && IsCut(db.work, t, ss)
    modifies db
    ensures Continues(old(db.Now()), db.Now())
    ensures if old(db.inTxn) then db.trace == old(db.trace) else AreCuts(db.trace, |old(db.trace)|, |db.trace|, t, ss)
    ensures ok ==> !old(db.inTxn) && !db.inTxn && db.trace == old(db.trace) + [Without(old(db.durable), {sid})]
    ensures !ok ==> old(db.inTxn) || db.faults > old(db.faults)
    ensures db.inTxn && !old(db.inTxn) ==> db.faults >= old(db.faults) + 2
  {
    hide Wf, Without, IsCut, Agrees;
    ghost var c := db.Now();
    var txn := new Transaction(db);
    ghost var c1 := db.Now();
    ok := RemoveFrom(db, sid, t, ss);
    ghost var c2 := db.Now();
    CutIsSound(db.work, t, ss);
    if ok {
      WfHasReferences(db.work);
      ok := txn.Commit();
    }
    txn.Close();
    LastIsDurable(c, db.Now());
    LastIsDurable(c, c2);
  }

  // ---------------------------------------------------------------- recovery

  /** The source of every scan in progress, in the order the cursor gives them; a cursor that fails while
      stepping ends the list. */
  method OrphanList(db: Database) returns (orphans: seq<int>)
    requires db.Valid()
    modifies db`faults
    ensures db.Valid() && db.faults >= old(db.faults)
    ensures forall o <- orphans :: o in Orphans(db.work)
    ensures db.faults == old(db.faults) ==> forall o <- Orphans(db.work) :: o in orphans
  {
    orphans := [];
    var t := db.work;
    var rest := t.scan.Keys;
    while rest != {}
      invariant db.Valid() && db.work == t && db.faults == old(db.faults)
      invariant rest <= t.scan.Keys
      invariant forall o <- orphans :: o in Orphans(t)
      invariant forall s <- t.scan :: t.scan[s].status == InProgress ==> s in rest || t.scan[s].sourceId in orphans
      decreases rest
    {
      var stepped := db.Read();
      if !stepped {
        return;
      }
      NonEmpty(rest);
      var s :| s in rest;
      if t.scan[s].status == InProgress {
        orphans := orphans + [t.scan[s].sourceId];
      }
      rest := rest - {s};
    }
  }

  /** One transaction for the whole cleanup. A tree whose removal fails is left as far as the removal got, for
      a later run, and the cleanup commits all the same. prepared: the query for the trees was. */
  method RecoverOrphanedScans(db: Database) returns (ok: bool, ghost prepared: bool)
    requires db.Valid() && !db.inTxn && Wf(db.durable)
    modifies db
    ensures Continues(old(db.Now()), db.Now())
    ensures AreCuts(db.trace, |old(db.trace)|, |db.trace|, old(db.durable), Orphans(old(db.durable)))
    ensures IsCut(db.durable, old(db.durable), Orphans(old(db.durable))) && Wf(db.work)
    ensures db.inTxn ==> db.faults >= old(db.faults) + 2
    ensures if prepared then !ok ==> db.faults > old(db.faults) else !ok && db.trace == old(db.trace) && db.faults == old(db.faults) + 1
    ensures db.faults == old(db.faults) ==> ok && db.durable == Recovered(old(db.durable))
    ensures db.faults == old(db.faults) ==>
      db.trace == old(db.trace) || db.trace == old(db.trace) + [Recovered(old(db.durable))]
  {
    hide Wf, Without, Orphans, IsCut, Recovered, Agrees;
    ghost var t := db.durable;
    ghost var c := db.Now();
    NothingCut(t, Orphans(t));
    var asked := db.Read();
    prepared := asked;
    if !asked {
      return false, false;
    }
    var orphans := OrphanList(db);
    if orphans == [] {
      if db.faults == c.faults {
        NoOrphans(t, orphans);
      }
      return true, true;
    }
    ghost var c1 := db.Now();
    var txn := new Transaction(db);
    ghost var c2 := db.Now();
    RemoveOrphans(db, orphans, t);
    ghost var c3 := db.Now();
    CutIsSound(db.work, t, Orphans(t));
    WfHasReferences(db.work);
    ok := txn.Commit();
    txn.Close();
    LastIsDurable(c, db.Now());
    LastIsDurable(c, c3);
    if !c3.inTxn {
      CutIsSound(db.work, t, Orphans(t));
    }
  }

  /** Removes the trees one after the other; a removal that fails is only logged. */
  method RemoveOrphans(db: Database, orphans: seq<int>, ghost t: Tables)
    requires db.Valid() && Wf(t) && db.work == t == db.durable && forall o <- orphans :: o in Orphans(t)
    modifies db
    ensures Continues(old(db.Now()), db.Now()) && db.inTxn == old(db.inTxn)
    ensures IsCut(db.work, t, Orphans(t))
    ensures if db.inTxn then db.durable == t && db.trace == old(db.trace)
            else AreCuts(db.trace, |old(db.trace)|, |db.trace|, t, Orphans(t))
    ensures db.faults == old(db.faults) && (forall o <- Orphans(t) :: o in orphans) ==> db.work == Recovered(t)
  {
    hide Wf, Without, Orphans, IsCut, Recovered, Agrees, Continues;
    ghost var ss := Orphans(t);
    ghost var start := db.Now();
    WithoutAll(t);
    NothingCut(t, ss);
    ContinuesSelf(start);
    ghost var done: set<int> := {};
    for i := 0 to |orphans|
      invariant db.Valid() && Continues(start, db.Now()) && db.inTxn == start.inTxn
      invariant start.faults <= db.faults && |start.trace| <= |db.trace| && db.trace[..|start.trace|] == start.trace
      invariant IsCut(db.work, t, ss)
      invariant if db.inTxn then db.durable == t && db.trace == start.trace
                else AreCuts(db.trace, |start.trace|, |db.trace|, t, ss)
      invariant done <= ss && forall k | 0 <= k < i :: orphans[k] in done || db.faults > start.faults
      invariant db.faults == start.faults ==> db.work == Without(t, done)
    {
      ghost var c := db.Now();
      assert orphans[i] in orphans;
      var removed := RemoveFrom(db, orphans[i], t, ss);
      ContinuesTwice(start, c, db.Now());
      ContinuesMeans(start, db.Now());
      ContinuesMeans(c, db.Now());
      if !db.inTxn {
        CutsOn(c.trace, db.trace, |start.trace|, t, ss);
      }
      if removed {
        WithoutTwice(t, done, {orphans[i]});
        done := done + {orphans[i]};
      }
    }
    if db.faults == start.faults && forall o <- ss :: o in orphans {
      AllDone(orphans, done, ss);
    }
  }

  lemma ContinuesMeans(c: State, d: State)
    requires Continues(c, d)
    ensures Consistent(d) && c.faults <= d.faults && |c.trace| <= |d.trace| && d.trace[..|c.trace|] == c.trace
  {
  }

  lemma WithoutAll(t: Tables)
    requires Wf(t)
    ensures Without(t, {}) == t && Recovered(t) == Without(t, Orphans(t))
  {
    WithoutNothing(t, {});
    hide Without, Orphans;
  }

  lemma NoOrphans(t: Tables, orphans: seq<int>)
    requires Wf(t) && orphans == [] && forall o <- Orphans(t) :: o in orphans
    ensures Recovered(t) == t
  {
    assert forall o :: o !in Orphans(t) by { forall o ensures o !in Orphans(t) { assert o !in orphans; } }
    NothingToRecover(t);
  }

  lemma AllDone(orphans: seq<int>, done: set<int>, os: set<int>)
    requires done <= os && forall o <- os :: o in orphans
    requires forall k | 0 <= k < |orphans| :: orphans[k] in done
    ensures done == os
  {
    forall o <- os ensures o in done { assert o in orphans; }
  }

  // ---------------------------------------------------------------- the switch

  /** How a run ended: without touching the old tree; by one commit that removed it and set the
      scan row to a status (InProgress when finish failed); or, when the switch's BEGIN failed
      outside a transaction, by deletes that committed one by one. */
  datatype Ending = NotSwitched | Atomic(status: ScanStatus) | Unprotected

  /** A moment of a switch without a transaction: both trees as far as their removals got, and the scan row
      closed or still open. */
  ghost predicate IsUnguarded(r: Tables, t: Tables, w: Window, olds: set<int>) {
    exists status: ScanStatus :: IsCut(r, CloseScan(t, w.scanId, status), {w.sid} + olds)
  }

  ghost predicate AreUnguarded(trace: seq<Tables>, from: nat, t: Tables, w: Window, olds: set<int>) {
    forall i | from <= i < |trace| :: IsUnguarded(trace[i], t, w, olds)
  }

  /** What follows the last state of the scan: the shadow's removal, the switch, or the unguarded switch. */
  ghost predicate EndsAs(before: seq<Tables>, after: seq<Tables>, w: Window, olds: set<int>, ending: Ending)
    requires before != []
  {
    && |before| <= |after| && after[..|before|] == before
    && match ending
       case NotSwitched => AreCuts(after, |before|, |after|, before[|before| - 1], {w.sid})
       case Atomic(status) => after == before + [Switched(before[|before| - 1], w, olds, status)]
       case Unprotected => AreUnguarded(after, |before|, before[|before| - 1], w, olds)
  }

  lemma CutsAreUnguarded(trace: seq<Tables>, from: nat, t: Tables, w: Window, olds: set<int>, status: ScanStatus)
    requires AreCuts(trace, from, |trace|, CloseScan(t, w.scanId, status), {w.sid} + olds)
    ensures AreUnguarded(trace, from, t, w, olds)
  {
    hide IsCut, CloseScan;
  }

  lemma UnguardedOn(a: seq<Tables>, b: seq<Tables>, from: nat, t: Tables, w: Window, olds: set<int>)
    requires from <= |a| <= |b| && b[..|a|] == a
    requires AreUnguarded(a, from, t, w, olds) && AreUnguarded(b, |a|, t, w, olds)
    ensures AreUnguarded(b, from, t, w, olds)
  {
    hide IsUnguarded;
    SamePrefix(a, b);
  }

  lemma SamePrefix(a: seq<Tables>, b: seq<Tables>)
    requires |a| <= |b| && b[..|a|] == a
    ensures forall i | 0 <= i < |a| :: b[i] == a[i]
  {
    forall i | 0 <= i < |a| ensures b[i] == a[i] { assert b[..|a|][i] == a[i]; }
  }

  /** Closing an open scan as InProgress is not closing it. */
  lemma NotClosed(t: Tables, w: Window)
    requires IsShadow(t, w)
    ensures CloseScan(t, w.scanId, InProgress) == t && Wf(t)
  {
    assert t.scan[w.scanId := t.scan[w.scanId]] == t.scan;
  }

  lemma ClosedIsWf(t: Tables, w: Window, status: ScanStatus)
    requires IsShadow(t, w)
    ensures var r := CloseScan(t, w.scanId, status);
            Wf(r) && References(r) && (Agrees(t) ==> Agrees(r))
  {
    ClosingKeeps(t, w.scanId, status);
  }

  lemma ClosingKeeps(t: Tables, scanId: int, status: ScanStatus)
    requires Wf(t)
    ensures var r := CloseScan(t, scanId, status);
            Wf(r) && References(r) && (Agrees(t) ==> Agrees(r))
  {
    if scanId in t.scan {
      CloseScanKeeps(t, scanId, status);
    }
    if Agrees(t) {
      OtherRowsKeepAgreement(t, CloseScan(t, scanId, status));
    }
  }

  lemma SwitchedIs(t: Tables, w: Window, olds: set<int>, status: ScanStatus)
    ensures Switched(t, w, olds, status) == CloseScan(Without(t, olds), w.scanId, status)
  {
  }

  lemma WithoutNone(t: Tables, w: Window)
    requires IsShadow(t, w)
    ensures Without(t, {}) == t
  {
    WithoutNothing(t, {});
  }

  /** Drop the old tree and close the scan in one small transaction; on any error drop the shadow, in one commit
      when that error was the only one and not the BEGIN's. */
  method Switch(db: Database, cancel: CancellationManager, previous: int, replaced: bool, sid: int, scanId: int, ghost w: Window)
    returns (ok: bool, ghost ending: Ending)
    requires db.Valid() && IsShadow(db.work, w) && IsShadow(db.durable, w)
    requires sid == w.sid && scanId == w.scanId && previous != sid
    modifies db, cancel
    ensures Continues(old(db.Now()), db.Now())
    ensures EndsAs(old(db.trace), db.trace, w, if replaced then {previous} else {}, ending)
    ensures ok <==> ending.Atomic?
    ensures ok ==> !old(db.inTxn) && !db.inTxn
    ensures !ok && !old(db.inTxn) ==> db.faults > old(db.faults)
    ensures !ok && !old(db.inTxn) && db.faults == old(db.faults) + 1 && !ending.Unprotected? ==>
              !db.inTxn && db.trace == old(db.trace) + [Without(old(db.durable), {w.sid})]
    ensures db.faults == old(db.faults) && ok ==> ending.status in {Completed, Cancelled}
    ensures ok && ending.status != InProgress ==> ending.status == (if cancel.cancelled then Cancelled else Completed)
    ensures old(cancel.cancelled) ==> cancel.cancelled
  {
    hide Wf, Without, IsShadow, Switched, IsCut, Agrees, CloseScan, Continues, IsUnguarded;
    ghost var olds := if replaced then {previous} else {};
    ghost var both := {w.sid} + olds;
    ghost var c := db.Now();
    var txn := new Transaction(db);
    ghost var bare := !db.inTxn;
    ghost var c0 := db.Now();
    BeganContinues(c, c0);
    ghost var status;
    ok, status := SwitchInside(db, txn, cancel, previous, replaced, sid, scanId, w);
    ghost var c1 := db.Now();
    ContinuesTwice(c, c0, c1);
    ContinuesMeans(c0, c1);
    txn.Close();
    ghost var c2 := db.Now();
    ClosedContinues(c, c1, c2);
    ContinuesMeans(c, c2);
    if ok {
      ending := Atomic(status);
      return;
    }
    ending := if bare then Unprotected else NotSwitched;
    ghost var t := if !bare && !c2.inTxn then c2.durable else CloseScan(c.work, w.scanId, status);
    ghost var ss := if !bare && !c2.inTxn then {w.sid} else both;
    NothingCut(c2.durable, {w.sid});
    NotClosed(c.durable, w);
    ClosedIsWf(c.work, w, status);
    LastIsDurable(c, c2);
    var _ := DropShadow(db, sid, t, ss);
    ContinuesTwice(c, c2, db.Now());
    ContinuesMeans(c2, db.Now());
    ContinuesMeans(c, db.Now());
    if bare {
      CutsAreUnguarded(db.trace, |c2.trace|, c.work, w, olds, status);
      UnguardedOn(c2.trace, db.trace, |c.trace|, c.work, w, olds);
    }
  }

  lemma BeganContinues(c: State, d: State)
    requires Consistent(c) && Consistent(d) && c.faults <= d.faults && c.misreads == d.misreads
    requires c.work == d.work && c.durable == d.durable && c.trace == d.trace
    ensures Continues(c, d)
  {
    hide Agrees;
  }

  /** A guard going out of scope: the work stays or is what the file holds. */
  lemma ClosedContinues(a: State, c: State, d: State)
    requires Continues(a, c) && Consistent(d) && c.faults <= d.faults && c.misreads == d.misreads
    requires c.durable == d.durable && c.trace == d.trace && (d.work == c.work || d.work == d.durable)
    ensures Continues(a, d)
  {
    hide Agrees;
  }

  /** The scope of the guard. When the guard is inactive the final commit is refused, whatever ran before it. */
  method SwitchInside(db: Database, txn: Transaction, cancel: CancellationManager, previous: int, replaced: bool,
                      sid: int, scanId: int, ghost w: Window)
    returns (ok: bool, ghost status: ScanStatus)
    requires db.Valid() && txn.db == db && IsShadow(db.work, w)
    requires sid == w.sid && scanId == w.scanId && previous != sid
    requires !txn.committed && (txn.active ==> db.inTxn && db.work == db.durable)
    modifies db, cancel, txn
    ensures Continues(old(db.Now()), db.Now())
    ensures var olds := if replaced then {previous} else {};
            && (ok ==> old(txn.active) && !db.inTxn && txn.committed
                       && db.trace == old(db.trace) + [Switched(old(db.work), w, olds, status)])
            && (!ok ==> db.inTxn == old(db.inTxn) && txn.active == old(txn.active) && !txn.committed
                        && IsCut(db.work, CloseScan(old(db.work), w.scanId, status), {w.sid} + olds)
                        && if db.inTxn then db.durable == old(db.durable) && db.trace == old(db.trace)
                           else AreUnguarded(db.trace, |old(db.trace)|, old(db.work), w, olds))
    ensures !ok && old(txn.active) ==> db.faults > old(db.faults)
    ensures ok && db.faults == old(db.faults) ==> status in {Completed, Cancelled}
    ensures ok && status != InProgress ==> status == (if cancel.cancelled then Cancelled else Completed)
    ensures old(cancel.cancelled) ==> cancel.cancelled
  {
    hide Wf, Without, IsShadow, Switched, IsCut, Agrees, CloseScan, Continues, IsUnguarded;
    ghost var olds := if replaced then {previous} else {};
    ghost var both := {w.sid} + olds;
    ghost var t := db.work;
    ghost var c0 := db.Now();
    NotClosed(t, w);
    NothingCut(t, both);
    WithoutNone(t, w);
    ContinuesSelf(c0);
    ok, status := true, InProgress;
    if replaced {
      ok := RemoveFrom(db, previous, t, both);
    }
    ghost var c := db.Now();
    ContinuesMeans(c0, c);
    if !c.inTxn {
      CutsAreUnguarded(c.trace, |c0.trace|, t, w, olds, InProgress);
    }
    if ok {
      ok, status := CloseInside(db, txn, cancel, scanId, t, w, olds);
      ContinuesTwice(c0, c, db.Now());
      ContinuesMeans(c, db.Now());
      if !ok && !db.inTxn {
        UnguardedOn(c.trace, db.trace, |c0.trace|, t, w, olds);
      }
    }
  }

  /** The old tree is gone: close the scan, a failure of which is only logged, and commit. */
  method CloseInside(db: Database, txn: Transaction, cancel: CancellationManager, scanId: int,
                     ghost t: Tables, ghost w: Window, ghost olds: set<int>)
    returns (ok: bool, ghost status: ScanStatus)
    requires db.Valid() && txn.db == db && IsShadow(t, w) && w.sid !in olds && scanId == w.scanId
    requires db.work == Without(t, olds) && IsCut(db.work, t, {w.sid} + olds)
    requires !txn.committed && (txn.active ==> db.inTxn)
    modifies db, cancel, txn
    ensures Continues(old(db.Now()), db.Now())
    ensures ok ==> old(txn.active) && !db.inTxn && txn.committed && db.trace == old(db.trace) + [Switched(t, w, olds, status)]
    ensures !ok ==> db.inTxn == old(db.inTxn) && txn.active == old(txn.active) && !txn.committed
                    && IsCut(db.work, CloseScan(t, w.scanId, status), {w.sid} + olds)
                    && if db.inTxn then db.durable == old(db.durable) && db.trace == old(db.trace)
                       else AreUnguarded(db.trace, |old(db.trace)|, t, w, olds)
    ensures !ok && old(txn.active) ==> db.faults > old(db.faults)
    ensures ok && db.faults == old(db.faults) ==> status in {Completed, Cancelled}
    ensures ok && status != InProgress ==> status == (if cancel.cancelled then Cancelled else Completed)
    ensures old(cancel.cancelled) ==> cancel.cancelled
  {
    hide Wf, Without, IsShadow, Switched, IsCut, Agrees, CloseScan, References;
    ghost var both := {w.sid} + olds;
    ghost var c := db.Now();
    ghost var r := db.work;
    NotClosed(t, w);
    CutIsSound(r, t, both);
    var cancelled := cancel.IsCancelled();
    var final := if cancelled then Cancelled else Completed;
    ClosingKeeps(r, scanId, final);
    ClosedIsCut(r, t, scanId, final, both);
    ClosedIsCut(r, t, scanId, InProgress, both);
    SwitchKeepsTheRest(t, w, olds, InProgress);
    SwitchedIs(t, w, olds, final);
    StillOpen(t, w, olds);
    var finished := FinishScan(db, scanId, final);
    ghost var c1 := db.Now();
    status := if finished then final else InProgress;
    WfHasReferences(r);
    ok := txn.Commit();
    if !ok && !db.inTxn {
      ghost var next := CloseScan(t, w.scanId, status);
      assert AreCuts(db.trace, |c.trace|, |db.trace|, next, both);
      CutsAreUnguarded(db.trace, |c.trace|, t, w, olds, status);
    }
  }

  lemma StillOpen(t: Tables, w: Window, olds: set<int>)
    requires IsShadow(t, w) && w.sid !in olds
    ensures Switched(t, w, olds, InProgress) == Without(t, olds)
  {
    SwitchKeepsTheRest(t, w, olds, InProgress);
    var r := Without(t, olds);
    assert r.scan[w.scanId := r.scan[w.scanId]] == r.scan;
  }

  // ---------------------------------------------------------------- a run

  /** What the path is when the run looks at it. */
  datatype Target = DirectoryAt(nodes: seq<FsNode>) | FileAt(node: FsNode) | NothingAt

  /** A run as the file saw it. Up to from, recovery; at from, the source row; from opens, the open scan; up
      to scanned, what the scan phase commits; from dropped, the shadow's removal; from switchAt, the switch.
      answered: the lookup went through. filled: the scan phase was neither cancelled nor failed. gone: nothing
      was at the path any more when it began. */
  datatype Run = Run(
    base: Tables, w: Window, olds: set<int>, tree: Tables,
    from: nat, opens: nat, scanned: nat, dropped: nat, switchAt: nat, ending: Ending,
    answered: bool, filled: bool, gone: bool)

  /** Recovery cuts trees of unfinished scans, each as far as its removal gets; then comes the source row;
      then shadows of the tables before; then a switch, or cuts of the last shadow. */
  ghost predicate RunShape(trace: seq<Tables>, n0: nat, p: Tables, run: Run) {
    && 1 <= n0 <= run.from <= run.opens <= run.scanned <= run.dropped <= run.switchAt <= |trace|
    && StartShape(trace, n0, p, run)
    && (forall i | run.opens <= i < run.dropped :: IsShadow(trace[i], run.w))
    && (forall i | run.opens <= i < run.scanned :: PrefixOf(trace[i], run.tree))
    && EndShape(trace, run)
  }

  ghost predicate StartShape(trace: seq<Tables>, n0: nat, p: Tables, run: Run)
    requires 1 <= n0 <= run.from <= run.opens <= |trace|
  {
    && trace[n0 - 1] == p
    && trace[run.from - 1] == run.base == run.w.base
    && run.w.sid !in run.base.source && run.olds <= run.base.source.Keys
    && AreCuts(trace, n0, run.from, p, Orphans(p))
    && run.opens <= run.from + 1
    && (run.from < run.opens ==>
          IsNextId(run.base.source.Keys, run.w.sid) && trace[run.from] == InsertSource(run.base, run.w.sid, run.w.row))
  }

  ghost predicate EndShape(trace: seq<Tables>, run: Run)
    requires run.opens <= run.dropped <= run.switchAt <= |trace|
  {
    match run.ending
    case NotSwitched =>
      && run.switchAt == |trace|
      && (run.dropped < |trace| ==>
            run.opens < run.dropped && AreCuts(trace, run.dropped, |trace|, trace[run.dropped - 1], {run.w.sid}))
    case Atomic(status) =>
      && run.opens < run.switchAt == run.dropped == |trace| - 1
      && trace[run.switchAt] == Switched(trace[run.switchAt - 1], run.w, run.olds, status)
      && (!run.filled ==> status == Cancelled && run.olds == {} && run.scanned == run.dropped)
    case Unprotected =>
      && run.filled && run.opens < run.switchAt == run.dropped
      && AreUnguarded(trace, run.dropped, trace[run.dropped - 1], run.w, run.olds)
  }

  /** The single file of a file source: an entry without an index row, and the rows of the image it may be. */
  method ScanFileEntry(sc: Scanner, node: FsNode, options: Options, sid: int, ghost w: Window, ghost from: nat, ghost f0: nat)
    returns (r: Result<int>)
    requires Writing(sc.db.Now(), w, from, f0) && sid == w.sid && node.name != ""
    modifies sc, sc.db
    ensures Writing(sc.db.Now(), w, from, f0) && Grew(old(sc.db.Now()), sc.db.Now()) && sc.db.inTxn == old(sc.db.inTxn)
    ensures sc.lostBegin == old(sc.lostBegin)
    ensures r.Ok? ==> r.value !in old(sc.db.work.entry) && r.value in sc.db.work.entry && r.value !in sc.db.work.fts
                      && IsFileRow(sc.db.work.entry[r.value], sid, node)
    ensures r.Ok? && sc.db.faults == f0 ==> FileListed(sc.db.work, sid, node, options)
    ensures r.Ok? && sc.db.faults == f0 ==> sc.Counts() == Plus(old(sc.Counts()), Totals(0, 1, 0, One(Unexpanded(node, options))))
    ensures r.Err? ==> r.code == 1 && sc.db.faults > f0
  {
    hide IsShadow, PrefixOf, IndexedTogether, Wf, References, Physical, FullyIndexed, Agrees, ContentDone, Grew, Writing, Holds, Unread;
    var db := sc.db;
    ghost var c := db.Now();
    WritingReferences(c, w, from, f0);
    r := InsertFile(db, EntryRow(sid, 0, node.name, File, if node.metadata.Readable? then |node.content| else -1, false), w, from, f0);
    if r.Ok? {
      ghost var c1 := db.Now();
      GrewFaults(c, c1);
      NewIsUnread(c.work, c1.work, r.value);
      sc.ScanContent(r.value, node, options, false, w, from, f0);
      KeepsEntry(c1, db.Now(), w, f0, r.value);
      KeepsTreeMeans(c1, db.Now(), w, f0);
      GrewTwice(c, c1, db.Now());
    }
  }

  lemma KeepsTreeMeans(c: State, d: State, w: Window, f0: nat)
    requires KeepsTree(c, d, w, f0)
    ensures Grew(c, d) && d.inTxn == c.inTxn && forall f <- d.work.fts :: f in c.work.fts || f !in c.work.entry
  {
    hide Grew;
  }

  /** A root entry without an index row. */
  method InsertFile(db: Database, row: EntryRow, ghost w: Window, ghost from: nat, ghost f0: nat) returns (r: Result<int>)
    requires Writing(db.Now(), w, from, f0) && row.sourceId == w.sid && row.parentId == 0 && row.name != ""
    modifies db
    ensures Writing(db.Now(), w, from, f0) && Grew(old(db.Now()), db.Now()) && db.inTxn == old(db.inTxn)
    ensures r.Ok? ==> r.value !in old(db.work.entry) && r.value in db.work.entry && r.value !in db.work.fts && db.work.entry[r.value] == row
    ensures db.work.checksum == old(db.work.checksum)
    ensures r.Err? ==> r.code == 1 && db.faults > f0
  {
    hide IsShadow, PrefixOf, IndexedTogether, Wf, References, FitsUnder, Physical, FullyIndexed, Agrees;
    ghost var c := db.Now();
    ShadowIsWf(c.work, w);
    RootFits(c.work, row);
    ghost var id;
    r, id := InsertEntryRow(db, row);
    NewEntry(c.work, w, id, row);
    NewEntryComesLast(c.work, w.sid, id, row);
    PrefixOfSelf(c.work);
    ReferencesOf(InsertEntry(c.work, id, row), w);
    if Agrees(c.work) {
      EntryAgrees(c.work, id, row);
    }
    StatementKeepsWriting(c, db.Now(), w, from, f0, InsertEntry(c.work, id, row), r.Ok?);
  }

  /** The row of a file that is a source by itself: its length, or -1 when that cannot be read. */
  ghost predicate IsFileRow(row: EntryRow, sid: int, node: FsNode) {
    && row.sourceId == sid && row.parentId == 0 && row.name == node.name && row.kind == File && !row.isVirtual
    && row.size == if node.metadata.Readable? then |node.content| else -1
  }

  lemma EntryAgrees(t: Tables, id: int, row: EntryRow)
    requires Agrees(t) && IsNextId(t.entry.Keys, id) && FitsUnder(t, row)
    ensures Agrees(InsertEntry(t, id, row))
  {
    NewEntryKeepsAgreement(t, id, row);
  }

  /** A file source's entry, its chosen digests, and the rows of the image it may be. */
  ghost predicate FileListed(t: Tables, sid: int, node: FsNode, options: Options) {
    exists e <- t.entry :: IsFileRow(t.entry[e], sid, node) && Holds(t, sid, e, node, options)
  }

  lemma RootFits(t: Tables, row: EntryRow)
    requires row.sourceId in t.source && row.name != "" && row.parentId == 0
    ensures FitsUnder(t, row)
  {
  }

  /** The directory tree, entry for entry with its digests and images, every entry indexed. */
  ghost predicate Catalogued(t: Tables, sid: int, nodes: seq<FsNode>, options: Options) {
    Listed(t, sid, 0, nodes, options, true) && |Physical(t, sid)| == Tally(nodes, options).entries && FullyIndexed(t, sid)
  }

  /** The new tree is all there: a directory's listing, or a file's entry. */
  ghost predicate TreeDone(t: Tables, sid: int, target: Target, options: Options) {
    && (target.DirectoryAt? ==> Catalogued(t, sid, target.nodes, options))
    && (target.FileAt? ==> FileListed(t, sid, target.node, options))
  }

  /** A summary without errors says that every node is an entry, whatever else failed. */
  ghost predicate NothingMissing(sc: Scanner, run: Run, target: Target, options: Options)
    reads sc, sc.db
  {
    run.filled && run.ending.Atomic? && sc.errors == 0 && target.DirectoryAt? ==>
      Listed(sc.db.durable, run.w.sid, 0, target.nodes, options, false)
  }

  /** What the summary says of it; a single file is no part of a listing, and not counted when it does not open. */
  function Summary(target: Target, options: Options): Totals {
    match target
    case DirectoryAt(nodes) => Tally(nodes, options)
    case FileAt(node) => Totals(0, 1, 0, One(Unexpanded(node, options)))
    case NothingAt => Totals(0, 0, 0, 0)
  }

  /** The scan phase. Code 0 is a cancellation. The path may be gone since it was checked. */
  method FillTree(sc: Scanner, target: Target, options: Options, sid: int, ghost w: Window, ghost from: nat, ghost f0: nat)
    returns (r: Result<int>, ghost gone: bool)
    requires sc.Between(w, from, f0) && sid == w.sid && (target.FileAt? ==> target.node.name != "")
    requires sc.Counts() == Totals(0, 0, 0, 0)
    modifies sc, sc.db, sc.cancel
    ensures sc.lostBegin <==> !sc.db.inTxn
    ensures Writing(sc.db.Now(), w, from, f0) && Grew(old(sc.db.Now()), sc.db.Now())
    ensures r.Err? ==> if r.code == 0 then sc.cancel.cancelled && !gone else r.code == 1 && (gone || sc.db.faults > f0)
    ensures gone ==> r.Err?
    ensures r.Ok? && sc.errors == 0 && target.DirectoryAt? ==> Listed(sc.db.work, sid, 0, target.nodes, options, false)
    ensures r.Ok? && sc.db.faults == f0 ==>
              TreeDone(sc.db.work, sid, target, options) && sc.Counts() == Summary(target, options)
    ensures target.DirectoryAt? && sc.db.faults == f0 ==> |sc.db.trace| == from + 1 + |Physical(sc.db.work, sid)| / 1000
  {
    hide Writing, Grew, FullyIndexed, Physical, Listed, FileListed, Tally, Plus, IsFileRow;
    GrewSelf(sc.db.Now());
    PlusFromNothing(Summary(target, options));
    gone := false;
    if * {
      return Err(1), true;
    }
    match target
    case DirectoryAt(nodes) =>
      r := sc.ScanDirectory(sid, 0, nodes, options, w, from, f0);
    case FileAt(node) =>
      r := ScanFileEntry(sc, node, options, sid, w, from, f0);
    case NothingAt =>
      r, gone := Err(1), true;
  }

  lemma PlusFromNothing(a: Totals)
    ensures Plus(Totals(0, 0, 0, 0), a) == a
  {
  }

  /** The part of a run's shape that is settled once the scan row is durable. */
  ghost predicate HeadShape(trace: seq<Tables>, n0: nat, p: Tables, run: Run) {
    && 1 <= n0 <= run.from <= run.opens < |trace|
    && StartShape(trace, n0, p, run)
  }

  lemma HeadStays(a: seq<Tables>, b: seq<Tables>, n0: nat, p: Tables, run: Run)
    requires HeadShape(a, n0, p, run) && |a| <= |b| && b[..|a|] == a
    ensures HeadShape(b, n0, p, run)
  {
    hide IsCut, Orphans;
    SamePrefix(a, b);
  }

  /** The ghosts of a run after its scan phase left the file in states scan, and the rest added the others. */
  ghost function Ended(run: Run, tree: Tables, scanned: nat, dropped: nat, switchAt: nat, ending: Ending, filled: bool, gone: bool): Run {
    run.(tree := tree, scanned := scanned, dropped := dropped, switchAt := switchAt, ending := ending, filled := filled, gone := gone)
  }

  /** Everything up to mid is a shadow; a switch or a clean-up follows. */
  lemma Assemble(scan: seq<Tables>, mid: seq<Tables>, trace: seq<Tables>, n0: nat, p: Tables, run: Run, tree: Tables,
                 ending: Ending, filled: bool, gone: bool)
    requires HeadShape(scan, n0, p, run)
    requires forall i | run.opens <= i < |scan| :: PrefixOf(scan[i], tree)
    requires |scan| <= |mid| && mid[..|scan|] == scan
    requires forall i | run.opens <= i < |mid| :: IsShadow(mid[i], run.w)
    requires EndsAs(mid, trace, run.w, run.olds, ending)
    requires !filled ==> mid == scan && !ending.Unprotected? && (ending.Atomic? ==> ending.status == Cancelled && run.olds == {})
    ensures RunShape(trace, n0, p, Ended(run, tree, |scan|, |mid|, if ending.NotSwitched? then |trace| else |mid|, ending, filled, gone))
  {
    hide IsCut, IsUnguarded, IsShadow, PrefixOf, Switched, StartShape;
    HeadStays(scan, mid, n0, p, run);
    HeadStays(mid, trace, n0, p, run);
    var r := Ended(run, tree, |scan|, |mid|, if ending.NotSwitched? then |trace| else |mid|, ending, filled, gone);
    SameStart(trace, n0, p, run, r);
    SamePrefix(mid, trace);
    SamePrefix(scan, mid);
  }

  lemma SameStart(trace: seq<Tables>, n0: nat, p: Tables, run: Run, r: Run)
    requires 1 <= n0 <= run.from <= run.opens <= |trace| && StartShape(trace, n0, p, run)
    requires r.from == run.from && r.opens == run.opens && r.base == run.base && r.w == run.w && r.olds == run.olds
    ensures StartShape(trace, n0, p, r)
  {
    hide IsCut, Orphans;
  }

  lemma WritingShadows(c: State, w: Window, from: nat, f0: nat)
    requires Writing(c, w, from, f0)
    ensures from < |c.trace| && Consistent(c) && f0 <= c.faults
    ensures IsShadow(c.work, w) && IsShadow(c.durable, w)
    ensures forall i | from <= i < |c.trace| :: IsShadow(c.trace[i], w) && PrefixOf(c.trace[i], c.work)
  {
    hide IsShadow, PrefixOf;
    assert c.durable == c.trace[|c.trace| - 1];
  }

  /** The scan failed or was cancelled: undo the tail, then keep a cancelled first scan or drop the shadow. */
  method AbandonScan(sc: Scanner, code: int, replaced: bool, sid: int, scanId: int, ghost w: Window, ghost opens: nat, ghost f0: nat)
    returns (r: Result<int>, ghost ending: Ending)
    requires Writing(sc.db.Now(), w, opens, f0) && sid == w.sid && scanId == w.scanId
    modifies sc.db
    ensures Continues(old(sc.db.Now()), sc.db.Now())
    ensures EndsAs(old(sc.db.trace), sc.db.trace, w, {}, ending) && !ending.Unprotected?
    ensures ending.Atomic? ==> ending.status == Cancelled && !replaced
    ensures r == if code == 0 && !replaced then Ok(sid) else Err(code)
    ensures ending.Atomic? ==> r.Ok?
    ensures r.Ok? && sc.db.faults == f0 ==> ending.Atomic?
    ensures r.Err? && sc.db.faults == f0 ==>
              ending.NotSwitched? && sc.db.durable == w.base && |sc.db.trace| == |old(sc.db.trace)| + 1
  {
    hide IsShadow, Wf, Without, Writing, IsCut, Agrees, Continues, CloseScan, Switched, References;
    var db := sc.db;
    ghost var c := db.Now();
    WritingShadows(c, w, opens, f0);
    WritingInTxn(c, w, opens, f0);
    NotClosed(c.work, w);
    NotClosed(c.durable, w);
    ContinuesSelf(c);
    var _ := db.Rollback();
    ghost var c1 := db.Now();
    ghost var t := db.work;
    ClosedContinues(c, c, c1);
    ShadowRemoved(c.durable, w);
    if code == 0 && !replaced {
      ending := CloseCancelled(db, scanId, w);
      ContinuesTwice(c, c1, db.Now());
      ContinuesMeans(c1, db.Now());
      return Ok(sid), ending;
    }
    NothingCut(t, {sid});
    var ok := DropShadow(db, sid, t, {sid});
    ContinuesTwice(c, c1, db.Now());
    ContinuesMeans(c1, db.Now());
    return Err(code), NotSwitched;
  }

  /** Keep what a cancelled first scan has committed: close its scan row. A failure is only logged. */
  method CloseCancelled(db: Database, scanId: int, ghost w: Window) returns (ghost ending: Ending)
    requires db.Valid() && IsShadow(db.work, w) && IsShadow(db.durable, w) && scanId == w.scanId
    modifies db
    ensures Continues(old(db.Now()), db.Now())
    ensures EndsAs(old(db.trace), db.trace, w, {}, ending) && (ending.NotSwitched? || ending == Atomic(Cancelled))
    ensures db.faults == old(db.faults) && !old(db.inTxn) ==> ending.Atomic?
  {
    hide IsShadow, Wf, Without, IsCut, Agrees, CloseScan, Switched, References;
    ghost var c := db.Now();
    ClosedIsWf(db.work, w, Cancelled);
    WithoutNone(db.durable, w);
    SwitchedIs(db.durable, w, {}, Cancelled);
    var ok := FinishScan(db, scanId, Cancelled);
    ending := if ok && !db.inTxn then Atomic(Cancelled) else NotSwitched;
    ExecutedContinues(c, db.Now(), CloseScan(c.work, scanId, Cancelled), ok);
  }

  lemma ShadowRemoved(t: Tables, w: Window)
    requires IsShadow(t, w)
    ensures Without(t, {w.sid}) == w.base
  {
  }

  lemma WritingInTxn(c: State, w: Window, from: nat, f0: nat)
    requires Writing(c, w, from, f0)
    ensures c.faults == f0 ==> c.inTxn
  {
  }

  /** The source row and the scan row, each in its own implicit transaction, then BEGIN. */
  method OpenScanRows(sc: Scanner, row: SourceRow) returns (r: Result<int>, scanId: int, ghost run: Run)
    requires sc.db.Valid() && Wf(sc.db.durable) && Wf(sc.db.work) && sc.batchCounter == 0 && !sc.lostBegin
    modifies sc.db
    ensures Continues(old(sc.db.Now()), sc.db.Now())
    ensures run.w.row == row && run.base == run.w.base == old(sc.db.durable) && run.from == |old(sc.db.trace)|
    ensures r.Err? ==> r.code == 1 && (sc.db.faults > old(sc.db.faults) || old(sc.db.inTxn))
    ensures old(sc.db.inTxn) ==> r.Err? && sc.db.trace == old(sc.db.trace)
    ensures !old(sc.db.inTxn) ==>
              && IsNextId(run.base.source.Keys, run.w.sid) && run.w.sid !in run.base.source && run.w.sid >= 1
              && |sc.db.trace| <= run.from + 2
              && (|sc.db.trace| > run.from ==> sc.db.trace[run.from] == InsertSource(run.base, run.w.sid, row))
              && (|sc.db.trace| == run.from + 2 ==> IsShadow(sc.db.durable, run.w))
    ensures r.Ok? ==>
              && r.value == run.w.sid
              && scanId == run.w.scanId
              && sc.db.faults == old(sc.db.faults)
              && sc.Between(run.w, run.from + 1, old(sc.db.faults))
              && |sc.db.trace| == run.from + 2
  {
    hide Wf, Without, IsShadow, References, Physical, FullyIndexed, PrefixOf, IndexedTogether, Agrees;
    var db := sc.db;
    ghost var c := db.Now();
    ghost var t := db.work;
    ghost var base := db.durable;
    ghost var n := |db.trace|;
    scanId := 0;
    ghost var sid;
    r, sid := InsertSourceRow(db, row);
    run := Run(base, Window(base, sid, row, 0), {}, t, n, n + 1, n, n, n, NotSwitched, false, false, false);
    SourceRowAlone(t, sid, row);
    ghost var c1 := db.Now();
    ExecutedContinues(c, c1, InsertSource(t, sid, row), r.Ok?);
    if r.Err? {
      return;
    }
    ghost var id;
    var ok;
    ok, scanId, id := OpenScanRow(sc, r.value, row, t);
    run := run.(w := Window(base, sid, row, id));
    ContinuesTwice(c, c1, db.Now());
    if !ok {
      r := Err(1);
    }
  }

  lemma SourceRowAlone(t: Tables, sid: int, row: SourceRow)
    requires Wf(t) && IsNextId(t.source.Keys, sid)
    ensures sid !in t.source && sid >= 1
    ensures var s := InsertSource(t, sid, row);
            Wf(s) && References(s) && (Agrees(t) ==> Agrees(s))
  {
    InsertSourceKeeps(t, sid, row);
    if Agrees(t) {
      OtherRowsKeepAgreement(t, InsertSource(t, sid, row));
    }
  }

  method OpenScanRow(sc: Scanner, sid: int, row: SourceRow, ghost t: Tables) returns (ok: bool, scanId: int, ghost id: int)
    requires sc.db.Valid() && Wf(t) && IsNextId(t.source.Keys, sid) && sc.db.work == InsertSource(t, sid, row)
    requires sc.batchCounter == 0 && !sc.lostBegin
    modifies sc.db
    ensures Continues(old(sc.db.Now()), sc.db.Now())
    ensures var w := Window(t, sid, row, id);
            var d := InsertScan(InsertSource(t, sid, row), id, ScanRow(sid, InProgress));
            && IsShadow(d, w)
            && (sc.db.trace == old(sc.db.trace) || (!old(sc.db.inTxn) && sc.db.trace == old(sc.db.trace) + [d]))
            && (ok ==> scanId == id && !old(sc.db.inTxn) && sc.db.faults == old(sc.db.faults)
                       && sc.db.trace == old(sc.db.trace) + [d]
                       && sc.Between(w, |old(sc.db.trace)|, sc.db.faults))
    ensures !ok ==> sc.db.faults > old(sc.db.faults) || old(sc.db.inTxn)
  {
    hide Wf, Without, IsShadow, References, PrefixOf, IndexedTogether, Physical, FullyIndexed, Agrees;
    var db := sc.db;
    ghost var c := db.Now();
    SourceRowAlone(t, sid, row);
    var opening;
    opening, id := InsertScanRow(db, ScanRow(sid, InProgress));
    ghost var d := InsertScan(InsertSource(t, sid, row), id, ScanRow(sid, InProgress));
    WindowOpens(t, sid, row, id);
    WindowIsEmpty(t, sid, row, id);
    AgreesStill(InsertSource(t, sid, row), d, Window(t, sid, row, id));
    ReferencesOf(d, Window(t, sid, row, id));
    PrefixOfSelf(d);
    ExecutedContinues(c, db.Now(), d, opening.Ok?);
    ok, scanId := opening.Ok?, 0;
    if opening.Ok? {
      scanId := opening.value;
      ok := db.Begin();
    }
  }

  /** Without a fault, a run either closes its tree or leaves the tables as recovery made them, by one commit. */
  ghost predicate NoFaultEnds(c: State, f0: nat, r: Result<int>, run: Run) {
    c.faults == f0 ==>
      && (r.Ok? ==> run.ending.Atomic? && run.ending.status != InProgress)
      && (r.Err? ==> run.ending.NotSwitched? && c.durable == run.base)
      && |c.trace| <= run.dropped + 1
  }

  lemma SwitchedStays(t: Tables, w: Window, olds: set<int>, status: ScanStatus)
    requires w.sid !in olds
    ensures SourceStays(t, Switched(t, w, olds, status), w.sid)
  {
  }

  lemma CataloguedSurvives(t: Tables, w: Window, olds: set<int>, status: ScanStatus, nodes: seq<FsNode>, options: Options)
    requires Catalogued(t, w.sid, nodes, options) && w.sid !in olds
    ensures Catalogued(Switched(t, w, olds, status), w.sid, nodes, options)
  {
    var d := Switched(t, w, olds, status);
    SwitchedStays(t, w, olds, status);
    ListedStays(t, d, w.sid, 0, nodes, options, true);
    hide Listed;
    assert d.entry == EntriesWithout(t.entry, olds);
    assert Physical(d, w.sid) == Physical(t, w.sid);
    forall e <- d.entry | d.entry[e].sourceId == w.sid
      ensures e in d.fts
    {
      assert e in t.fts && !OwnedBy(t.entry, olds, e);
    }
  }

  lemma ListedSurvives(t: Tables, w: Window, olds: set<int>, status: ScanStatus, nodes: seq<FsNode>, options: Options)
    requires Listed(t, w.sid, 0, nodes, options, false) && w.sid !in olds
    ensures Listed(Switched(t, w, olds, status), w.sid, 0, nodes, options, false)
  {
    SwitchedStays(t, w, olds, status);
    hide Switched, Listed;
    ListedStays(t, Switched(t, w, olds, status), w.sid, 0, nodes, options, false);
  }

  lemma FileSurvives(t: Tables, w: Window, olds: set<int>, status: ScanStatus, node: FsNode, options: Options)
    requires FileListed(t, w.sid, node, options) && w.sid !in olds
    ensures FileListed(Switched(t, w, olds, status), w.sid, node, options)
  {
    var d := Switched(t, w, olds, status);
    SwitchedStays(t, w, olds, status);
    hide Holds;
    var e :| e in t.entry && IsFileRow(t.entry[e], w.sid, node) && Holds(t, w.sid, e, node, options);
    HoldsStays(t, d, w.sid, e, node, options);
    StaysEntries(t, d, w.sid);
  }

  /** What a kill during the scan phase leaves: whole batches, no entry parted from its index row. */
  ghost predicate WholeBatches(trace: seq<Tables>, run: Run) {
    forall i | run.opens <= i < run.scanned && i < |trace| ::
      |Physical(trace[i], run.w.sid)| % 1000 == 0 && IndexedTogether(trace[i], run.tree)
  }

  /** And without a fault: one commit for every thousand entries, and every entry has its index row. */
  ghost predicate Steady(trace: seq<Tables>, run: Run) {
    forall i | run.opens <= i < run.scanned && i < |trace| ::
      FullyIndexed(trace[i], run.w.sid) && |Physical(trace[i], run.w.sid)| == 1000 * (i - run.opens)
  }

  lemma WritingBatches(c: State, trace: seq<Tables>, run: Run, f0: nat)
    requires Writing(c, run.w, run.opens, f0) && c.work == run.tree
    requires |c.trace| <= |trace| && trace[..|c.trace|] == c.trace && run.scanned == |c.trace|
    ensures c.inTxn ==> WholeBatches(trace, run)
    ensures c.faults == f0 ==> c.inTxn && Steady(trace, run)
  {
    hide IsShadow, PrefixOf, IndexedTogether, FullyIndexed, Physical;
    forall i | run.opens <= i < run.scanned
      ensures trace[i] == c.trace[i]
    {
      assert trace[..|c.trace|][i] == c.trace[i];
    }
  }

  lemma SameOlds(before: seq<Tables>, after: seq<Tables>, w: Window, olds: set<int>, ending: Ending)
    requires before != [] && EndsAs(before, after, w, {}, ending) && !ending.Unprotected?
    requires ending.Atomic? ==> olds == {}
    ensures EndsAs(before, after, w, olds, ending)
  {
  }

  lemma GrewContinues(c: State, d: State, w: Window, from: nat, f0: nat)
    requires Grew(c, d) && Writing(d, w, from, f0)
    ensures Continues(c, d)
  {
  }

  lemma EndsContinues(before: seq<Tables>, after: seq<Tables>, w: Window, olds: set<int>, ending: Ending)
    requires before != [] && EndsAs(before, after, w, olds, ending)
    ensures |before| <= |after| && after[..|before|] == before
    ensures ending.Atomic? ==> |after| == |before| + 1 && after[|after| - 1] == Switched(before[|before| - 1], w, olds, ending.status)
  {
  }

  lemma TreeSurvives(t: Tables, w: Window, olds: set<int>, status: ScanStatus, target: Target, options: Options)
    requires TreeDone(t, w.sid, target, options) && w.sid !in olds
    ensures TreeDone(Switched(t, w, olds, status), w.sid, target, options)
  {
    hide Catalogued, FileListed, Switched;
    match target
    case DirectoryAt(nodes) =>
      CataloguedSurvives(t, w, olds, status, nodes, options);
    case FileAt(node) => FileSurvives(t, w, olds, status, node, options);
    case NothingAt =>
  }

  /** A run answers with its source, or with an error, of which code 0 is kept for scans that were cancelled. */
  predicate IsAnswer(r: Result<int>, sid: int, cancelled: bool) {
    match r
    case Ok(value) => value == sid
    case Err(code) => if code == 0 then cancelled else code == 1
  }

  /** From the open scan to the end: fill the tree, commit, switch, or clean up. */
  method RunScan(sc: Scanner, target: Target, options: Options, replaced: bool, previous: int, sid: int, scanId: int,
                 ghost n0: nat, ghost p: Tables, ghost run0: Run)
    returns (r: Result<int>, ghost run: Run)
    requires sc.Between(run0.w, run0.opens, sc.db.faults) && sc.Counts() == Totals(0, 0, 0, 0)
    requires HeadShape(sc.db.trace, n0, p, run0) && run0.base == run0.w.base && !sc.lostBegin
    requires sid == run0.w.sid && scanId == run0.w.scanId && previous != sid
    requires run0.olds == (if replaced then {previous} else {})
    requires target.FileAt? ==> target.node.name != ""
    modifies sc, sc.db, sc.cancel
    ensures Continues(old(sc.db.Now()), sc.db.Now())
    ensures RunShape(sc.db.trace, n0, p, run)
    ensures SameHead(run, run0)
    ensures NoFaultEnds(sc.db.Now(), old(sc.db.faults), r, run)
    ensures sc.db.faults == old(sc.db.faults) && run.ending == Atomic(Completed) ==>
              run.filled && TreeDone(sc.db.durable, sid, target, options) && sc.Counts() == Summary(target, options)
    ensures NothingMissing(sc, run, target, options)
    ensures ClosedAsItWent(run, sc.cancel.cancelled) && IsAnswer(r, sid, sc.cancel.cancelled)
    ensures sc.db.faults == old(sc.db.faults) ==> EndsWell(r, run, sc.cancel.cancelled)
    ensures sc.lostBegin ==> sc.db.faults > old(sc.db.faults)
    ensures !sc.lostBegin ==> WholeBatches(sc.db.trace, run)
    ensures sc.db.faults == old(sc.db.faults) ==> Steady(sc.db.trace, run) && AllButTheLastBatch(run, target)
  {
    hide IsShadow, Wf, Without, Writing, PrefixOf, Physical, Grew, Continues, TreeDone, Concluded, Listed;
    hide RunShape, HeadShape, Switched, WholeBatches, Steady, Agrees, References, EndsWell, NoFaultEnds;
    var db := sc.db;
    ghost var f0 := db.faults;
    ghost var c0 := db.Now();
    ghost var w := run0.w;
    ghost var gone;
    var filled;
    filled, gone := FillTree(sc, target, options, sid, w, run0.opens, f0);
    ghost var c1 := db.Now();
    WritingInTxn(c1, w, run0.opens, f0);
    GrewContinues(c0, c1, w, run0.opens, f0);
    ghost var ending, mid;
    r, ending, mid := EndScan(sc, filled, replaced, previous, sid, scanId, w, run0.opens, f0);
    ghost var x := Closing(filled, r, mid, ending);
    run := Whole(run0, c1, db.Now(), x, gone);
    WholeShape(c0, c1, db.Now(), n0, p, run0, x, gone, sc.cancel.cancelled, f0);
    WholeEnds(c1, db.Now(), run0, x, gone, sc.cancel.cancelled, f0);
    ShadowOlds(c0.trace, n0, p, run0);
    if target.DirectoryAt? && filled.Ok? && ending.Atomic? && sc.errors == 0 {
      ListedSurvives(c1.work, w, run0.olds, ending.status, target.nodes, options);
    }
    if db.faults == f0 && ending == Atomic(Completed) {
      TreeSurvives(c1.work, w, run0.olds, Completed, target, options);
    }
  }

  /** What the scan phase came to, what the run answers, the states up to the last shadow, and the ending. */
  datatype Closing = Closing(filled: Result<int>, r: Result<int>, mid: seq<Tables>, ending: Ending)

  /** A scan phase that failed or was cancelled is followed by the clean-up, with the error passed on, unless it was
      a cancelled first scan; one that went through by the switch, which decides the answer. */
  ghost predicate Concluded(c: State, d: State, w: Window, opens: nat, olds: set<int>, x: Closing, cancelled: bool, f0: nat) {
    && Continues(c, d)
    && |c.trace| <= |x.mid| && x.mid[..|c.trace|] == c.trace && x.mid != []
    && (forall i | opens <= i < |x.mid| :: IsShadow(x.mid[i], w))
    && EndsAs(x.mid, d.trace, w, olds, x.ending)
    && (x.filled.Err? ==>
          && x.r == (if x.filled.code == 0 && olds == {} then Ok(w.sid) else Err(x.filled.code))
          && x.mid == c.trace && !x.ending.Unprotected? && (x.ending.Atomic? ==> x.ending.status == Cancelled && olds == {}))
    && (x.filled.Ok? ==> x.r == if x.ending.Atomic? then Ok(w.sid) else Err(1))
    && (x.filled.Ok? && x.ending.Atomic? ==> x.mid[|x.mid| - 1] == c.work)
    && (x.ending.Atomic? ==> x.r.Ok?)
    && (x.ending.Atomic? && x.ending.status != InProgress ==> x.ending.status == (if cancelled then Cancelled else Completed))
    && (d.faults == f0 ==>
          && (x.r.Ok? ==> x.ending.Atomic? && x.ending.status != InProgress)
          && (x.r.Err? ==> x.ending.NotSwitched? && d.durable == w.base && |d.trace| == |x.mid| + 1)
          && (x.filled.Ok? ==> x.r.Ok?))
  }

  /** The run as its parts make it. */
  ghost function Whole(run0: Run, c: State, d: State, x: Closing, gone: bool): Run {
    Ended(run0, c.work, |c.trace|, |x.mid|, if x.ending.NotSwitched? then |d.trace| else |x.mid|, x.ending, x.filled.Ok?, gone)
  }

  lemma WholeShape(c0: State, c: State, d: State, n0: nat, p: Tables, run0: Run, x: Closing, gone: bool, cancelled: bool, f0: nat)
    requires HeadShape(c0.trace, n0, p, run0) && Continues(c0, c) && Writing(c, run0.w, run0.opens, f0)
    requires Concluded(c, d, run0.w, run0.opens, run0.olds, x, cancelled, f0)
    ensures RunShape(d.trace, n0, p, Whole(run0, c, d, x, gone)) && Continues(c0, d)
    ensures c.inTxn ==> WholeBatches(d.trace, Whole(run0, c, d, x, gone))
    ensures d.faults == f0 ==> Steady(d.trace, Whole(run0, c, d, x, gone))
  {
    hide IsShadow, PrefixOf, Writing, HeadShape, RunShape, EndsAs, Switched, Continues, WholeBatches, Steady;
    WritingShadows(c, run0.w, run0.opens, f0);
    ContinuesMeans(c0, c);
    ContinuesMeans(c, d);
    ContinuesTwice(c0, c, d);
    HeadStays(c0.trace, c.trace, n0, p, run0);
    EndsContinues(x.mid, d.trace, run0.w, run0.olds, x.ending);
    Assemble(c.trace, x.mid, d.trace, n0, p, run0, c.work, x.ending, x.filled.Ok?, gone);
    WritingBatches(c, d.trace, Whole(run0, c, d, x, gone), f0);
  }

  lemma WholeEnds(c: State, d: State, run0: Run, x: Closing, gone: bool, cancelled: bool, f0: nat)
    requires Concluded(c, d, run0.w, run0.opens, run0.olds, x, cancelled, f0) && run0.base == run0.w.base && f0 <= c.faults
    requires x.filled.Err? ==> if x.filled.code == 0 then cancelled && !gone else x.filled.code == 1 && (gone || c.faults > f0)
    ensures var run := Whole(run0, c, d, x, gone);
            && NoFaultEnds(d, f0, x.r, run) && ClosedAsItWent(run, cancelled) && IsAnswer(x.r, run0.w.sid, cancelled)
            && (d.faults == f0 ==> EndsWell(x.r, run, cancelled))
            && c.faults <= d.faults
            && (d.faults == f0 && run.ending == Atomic(Completed) ==> run.filled)
            && (run.filled && run.ending.Atomic? ==> d.durable == Switched(c.work, run0.w, run0.olds, run.ending.status))
  {
    hide IsShadow, EndsAs, Switched, Continues;
    ContinuesMeans(c, d);
    EndsContinues(x.mid, d.trace, run0.w, run0.olds, x.ending);
  }

  /** What follows the scan phase: the final commit and the switch, or the clean-up. */
  method EndScan(sc: Scanner, filled: Result<int>, replaced: bool, previous: int, sid: int, scanId: int,
                 ghost w: Window, ghost opens: nat, ghost f0: nat)
    returns (r: Result<int>, ghost ending: Ending, ghost mid: seq<Tables>)
    requires Writing(sc.db.Now(), w, opens, f0) && sid == w.sid && scanId == w.scanId && previous != sid
    requires filled.Err? && filled.code == 0 ==> sc.cancel.cancelled
    modifies sc.db, sc.cancel
    ensures old(sc.cancel.cancelled) ==> sc.cancel.cancelled
    ensures Concluded(old(sc.db.Now()), sc.db.Now(), w, opens, if replaced then {previous} else {},
                      Closing(filled, r, mid, ending), sc.cancel.cancelled, f0)
  {
    hide IsShadow, Wf, Without, Writing, PrefixOf, EndsAs, Switched, Continues;
    ghost var c := sc.db.Now();
    WritingShadows(c, w, opens, f0);
    mid := c.trace;
    if filled.Err? {
      r, ending := AbandonScan(sc, filled.code, replaced, sid, scanId, w, opens, f0);
      SameOlds(mid, sc.db.trace, w, if replaced then {previous} else {}, ending);
    } else {
      var ok;
      ok, ending, mid := CommitAndSwitch(sc, replaced, previous, sid, scanId, w, opens, f0);
      r := if ok then Ok(sid) else Err(1);
    }
  }

  /** Fewer than a thousand entries were waiting for their commit when the scan phase ended. */
  ghost predicate AllButTheLastBatch(run: Run, target: Target) {
    target.DirectoryAt? && run.opens < run.scanned ==> run.scanned == run.opens + 1 + |Physical(run.tree, run.w.sid)| / 1000
  }

  /** A scan row that was closed says whether the run was cancelled. */
  ghost predicate ClosedAsItWent(run: Run, cancelled: bool) {
    run.ending.Atomic? && run.ending.status != InProgress ==> run.ending.status == (if cancelled then Cancelled else Completed)
  }

  /** Without a fault there are two ways to an error: a cancelled scan that was to replace another, and nothing
      at the path any more. Not cancelled and with something at the path, the run completes. */
  ghost predicate EndsWell(r: Result<int>, run: Run, cancelled: bool) {
    && (r.Err? ==> if r.code == 0 then cancelled && run.olds != {} else run.gone)
    && (!cancelled && !run.gone ==> r == Ok(run.w.sid) && run.ending == Atomic(Completed))
  }

  /** All but what the scan phase and the end of the run decide. */
  ghost predicate SameHead(run: Run, run0: Run) {
    run.base == run0.base && run.w == run0.w && run.olds == run0.olds && run.from == run0.from && run.answered == run0.answered
  }

  lemma ShadowOlds(trace: seq<Tables>, n0: nat, p: Tables, run: Run)
    requires HeadShape(trace, n0, p, run)
    ensures run.w.sid !in run.olds
  {
  }

  /** The final commit, whose failure is only logged, and the switch. */
  method CommitAndSwitch(sc: Scanner, replaced: bool, previous: int, sid: int, scanId: int, ghost w: Window, ghost opens: nat, ghost f0: nat)
    returns (ok: bool, ghost ending: Ending, ghost mid: seq<Tables>)
    requires Writing(sc.db.Now(), w, opens, f0) && sid == w.sid && scanId == w.scanId && previous != sid
    modifies sc.db, sc.cancel
    ensures Continues(old(sc.db.Now()), sc.db.Now())
    ensures |old(sc.db.trace)| <= |mid| && mid[..|old(sc.db.trace)|] == old(sc.db.trace)
    ensures forall i | opens <= i < |mid| :: IsShadow(mid[i], w)
    ensures EndsAs(mid, sc.db.trace, w, if replaced then {previous} else {}, ending)
    ensures ok ==> ending.Atomic?
    ensures !ok ==> sc.db.faults > f0
    ensures ok ==> mid != [] && mid[|mid| - 1] == old(sc.db.work)
    ensures sc.db.faults == f0 && ok ==> ending.status != InProgress
    ensures ok && ending.status != InProgress ==> ending.status == (if sc.cancel.cancelled then Cancelled else Completed)
    ensures ok <==> ending.Atomic?
    ensures old(sc.cancel.cancelled) ==> sc.cancel.cancelled
  {
    hide IsShadow, Wf, Without, Writing, PrefixOf, Switched, EndsAs, Agrees;
    var db := sc.db;
    ghost var c1 := db.Now();
    WritingShadows(c1, w, opens, f0);
    WritingInTxn(c1, w, opens, f0);
    ReferencesOf(c1.work, w);
    var committed := db.Commit();
    mid := db.trace;
    ghost var c2 := db.Now();
    ok, ending := Switch(db, sc.cancel, previous, replaced, sid, scanId, w);
    EndsContinues(mid, db.trace, w, if replaced then {previous} else {}, ending);
    ContinuesTwice(c1, c2, db.Now());
  }

  // ---------------------------------------------------------------- runs that end before the scan

  ghost function Early(c: State, row: SourceRow): Run {
    var n := |c.trace|;
    Run(c.durable, Window(c.durable, 0, row, 0), {}, c.work, n, n, n, n, n, NotSwitched, false, false, false)
  }

  lemma EarlyShape(start: State, c: State, row: SourceRow)
    requires Consistent(start) && Consistent(c) && Wf(c.durable)
    requires |start.trace| <= |c.trace| && c.trace[..|start.trace|] == start.trace
    requires AreCuts(c.trace, |start.trace|, |c.trace|, start.durable, Orphans(start.durable))
    ensures RunShape(c.trace, |start.trace|, start.durable, Early(c, row))
  {
    PositiveSources(c.durable);
    StartState(start, c);
    hide Wf, Orphans, AreCuts, Consistent, IsShadow, PrefixOf;
  }

  lemma StartState(start: State, c: State)
    requires Consistent(start) && Consistent(c)
    requires |start.trace| <= |c.trace| && c.trace[..|start.trace|] == start.trace
    ensures 1 <= |start.trace| && c.trace[|start.trace| - 1] == start.durable
    ensures c.trace[|c.trace| - 1] == c.durable
  {
    SamePrefix(start.trace, c.trace);
  }

  /** Nothing was scanned. */
  lemma NoBatches(trace: seq<Tables>, run: Run)
    requires run.opens == run.scanned
    ensures WholeBatches(trace, run) && Steady(trace, run)
  {
  }

  ghost function Opening(c2: State, run0: Run): Run {
    var n, opens := |c2.trace|, if run0.from < |c2.trace| then run0.from + 1 else run0.from;
    run0.(tree := c2.work, opens := opens, scanned := opens, dropped := n, switchAt := n, ending := NotSwitched)
  }

  lemma OpeningShape(start: State, c1: State, c2: State, run0: Run)
    requires Consistent(start) && Consistent(c1) && Consistent(c2)
    requires |start.trace| <= |c1.trace| <= |c2.trace| && c2.trace[..|c1.trace|] == c1.trace && c1.trace[..|start.trace|] == start.trace
    requires AreCuts(c1.trace, |start.trace|, |c1.trace|, start.durable, Orphans(start.durable))
    requires run0.base == run0.w.base == c1.durable && run0.from == |c1.trace|
    requires IsNextId(run0.base.source.Keys, run0.w.sid) && run0.w.sid !in run0.base.source
    requires run0.olds <= run0.base.source.Keys
    requires |c2.trace| <= run0.from + 2
    requires |c2.trace| > run0.from ==> c2.trace[run0.from] == InsertSource(run0.base, run0.w.sid, run0.w.row)
    requires |c2.trace| == run0.from + 2 ==> IsShadow(c2.durable, run0.w)
    ensures RunShape(c2.trace, |start.trace|, start.durable, Opening(c2, run0))
  {
    hide IsCut, IsShadow, PrefixOf, Orphans, IsNextId;
    SamePrefix(c1.trace, c2.trace);
    SamePrefix(start.trace, c1.trace);
  }

  lemma OpenHead(start: State, c1: State, c2: State, run0: Run)
    requires Consistent(start) && Consistent(c1) && Consistent(c2)
    requires |start.trace| <= |c1.trace| <= |c2.trace| && c2.trace[..|c1.trace|] == c1.trace && c1.trace[..|start.trace|] == start.trace
    requires AreCuts(c1.trace, |start.trace|, |c1.trace|, start.durable, Orphans(start.durable))
    requires run0.base == run0.w.base == c1.durable && run0.from == |c1.trace| && run0.opens == run0.from + 1
    requires IsNextId(run0.base.source.Keys, run0.w.sid) && run0.w.sid !in run0.base.source
    requires |c2.trace| == run0.from + 2 && run0.olds <= run0.base.source.Keys
    requires c2.trace[run0.from] == InsertSource(run0.base, run0.w.sid, run0.w.row)
    ensures HeadShape(c2.trace, |start.trace|, start.durable, run0)
  {
    hide IsCut, Orphans, IsNextId;
    SamePrefix(c1.trace, c2.trace);
    SamePrefix(start.trace, c1.trace);
  }

  lemma PositiveSources(t: Tables)
    requires Wf(t)
    ensures forall s <- t.source :: s >= 1
  {
  }

  // ---------------------------------------------------------------- the run

  /** What the lookup answered for a path; 0 is no match. One that failed answers 0 whatever is there. */
  ghost predicate Answers(t: Tables, path: string, found: int, answered: bool) {
    if found == 0 then answered ==> forall s <- t.source :: !Matches(t.source[s], path)
    else answered && found in t.source && Matches(t.source[found], path)
  }

  /** The sources to replace: what the lookup found, and none after one that failed. */
  ghost predicate Looked(base: Tables, path: string, run: Run) {
    if run.answered then Found(base, path, run.olds) else run.olds == {}
  }

  /** What a run promises when it goes through without a fault. */
  ghost predicate Promised(sc: Scanner, r: Result<int>, run: Run, target: Target, options: Options, before: Tables)
    reads sc, sc.db, sc.cancel
  {
    && EndsWell(r, run.(gone := run.gone || target.NothingAt?), sc.cancel.cancelled)
    && (r.Ok? ==> run.ending.Atomic? && run.ending.status != InProgress)
    && (r.Err? ==> run.ending.NotSwitched? && sc.db.durable == before)
    && (run.ending == Atomic(Completed) ==>
          run.filled && TreeDone(sc.db.durable, run.w.sid, target, options) && sc.Counts() == Summary(target, options))
    && Steady(sc.db.trace, run) && AllButTheLastBatch(run, target)
  }

  /** A run in which nothing failed: recovery is at most one commit, that of all its removals, and so is the
      removal of a shadow, which leaves the tables as recovered. */
  ghost predicate Undisturbed(trace: seq<Tables>, n0: nat, p: Tables, run: Run) {
    && (|trace| == n0 || run.base == Recovered(p))
    && run.from <= n0 + 1
    && |trace| <= run.dropped + 1
    && match run.ending
       case NotSwitched => trace != [] && trace[|trace| - 1] == run.base
       case Atomic(status) => run.answered && status != InProgress
       case Unprotected => false
  }

  /** All that can be said of a run by its file. */
  ghost predicate IsRun(before: State, after: State, path: string, run: Run) {
    && Consistent(before) && !before.inTxn && Wf(before.durable)
    && Continues(before, after)
    && RunShape(after.trace, |before.trace|, before.durable, run)
    && run.w.row.path == path
    && Looked(run.base, path, run)
    && (after.faults == before.faults ==> Undisturbed(after.trace, |before.trace|, before.durable, run))
  }

  /** From the lookup on: the rows of the new source, the scan, the switch. */
  method ReplaceSource(sc: Scanner, row: SourceRow, target: Target, options: Options, found: int, ghost answered: bool, ghost start: State)
    returns (r: Result<int>, ghost run: Run)
    requires sc.db.Valid() && Wf(sc.db.durable) && Wf(sc.db.work) && Answers(sc.db.work, row.path, found, answered)
    requires Consistent(start) && Continues(start, sc.db.Now())
    requires AreCuts(sc.db.trace, |start.trace|, |sc.db.trace|, start.durable, Orphans(start.durable))
    requires sc.Counts() == Totals(0, 0, 0, 0) && !sc.lostBegin
    requires target.FileAt? ==> target.node.name != ""
    modifies sc, sc.db, sc.cancel
    ensures Continues(old(sc.db.Now()), sc.db.Now())
    ensures RunShape(sc.db.trace, |start.trace|, start.durable, run)
    ensures run.w.row == row && run.base == old(sc.db.durable) && run.from == |old(sc.db.trace)|
    ensures Looked(run.base, row.path, run) && (run.ending.NotSwitched? || run.answered == answered)
    ensures sc.db.faults == old(sc.db.faults) && !old(sc.db.inTxn) ==>
              Promised(sc, r, run, target, options, run.base) && |sc.db.trace| <= run.dropped + 1
    ensures NothingMissing(sc, run, target, options)
    ensures ClosedAsItWent(run, sc.cancel.cancelled) && IsAnswer(r, run.w.sid, sc.cancel.cancelled)
    ensures sc.lostBegin ==> sc.db.faults > old(sc.db.faults)
    ensures !sc.lostBegin ==> WholeBatches(sc.db.trace, run)
  {
    hide IsShadow, Wf, Without, RunShape, HeadShape, WholeBatches, Steady, Writing, Continues, TreeDone, Listed;
    hide AreCuts, Orphans, Found, Answers;
    ghost var c1 := sc.db.Now();
    ContinuesMeans(start, c1);
    var replaced := found > 0;
    var previous := if replaced then found else 0;
    var opening, scanId;
    ghost var run0;
    opening, scanId, run0 := OpenScanRows(sc, row);
    run0 := run0.(answered := answered, olds := if replaced then {previous} else {}, opens := run0.from + 1);
    ghost var c2 := sc.db.Now();
    ContinuesMeans(c1, c2);
    if !c1.inTxn {
      FoundIs(c1.durable, row.path, found, answered, replaced);
    }
    if opening.Err? {
      if c1.inTxn {
        run := Early(c2, row);
        StillDurable(c1, c2);
        EarlyShape(start, c2, row);
      } else {
        run := Opening(c2, run0);
        OpeningShape(start, c1, c2, run0);
      }
      NoBatches(sc.db.trace, run);
      return Err(1), run;
    }
    OpenHead(start, c1, c2, run0);
    r, run := RunScan(sc, target, options, replaced, previous, opening.value, scanId, |start.trace|, start.durable, run0);
    ContinuesTwice(c1, c2, sc.db.Now());
  }

  lemma StillDurable(c: State, d: State)
    requires Consistent(c) && Consistent(d) && c.trace == d.trace
    ensures c.durable == d.durable
  {
  }

  lemma FoundIs(b: Tables, path: string, found: int, answered: bool, replaced: bool)
    requires Wf(b) && replaced == (found > 0) && Answers(b, path, found, answered)
    ensures var olds := if replaced then {found} else {};
            && (if answered then Found(b, path, olds) else olds == {})
            && olds <= b.source.Keys
  {
  }

  /** scan_source. Every state the file passes through, whatever fails and wherever the process dies, is one
      of run's shape; a fault-free run ends with the new tree or with the tables as recovery left them. */
  method ScanSource(sc: Scanner, path: string, name: string, target: Target, options: Options)
    returns (r: Result<int>, ghost run: Run)
    requires sc.db.Valid() && !sc.db.inTxn && Wf(sc.db.durable)
    requires target.FileAt? ==> target.node.name != ""
    modifies sc, sc.db, sc.cancel
    ensures IsRun(old(sc.db.Now()), sc.db.Now(), path, run) && run.w.row == SourceRow(name, path)
    ensures sc.db.faults == old(sc.db.faults) ==>
              var before := if target.NothingAt? then old(sc.db.durable) else Recovered(old(sc.db.durable));
              run.base == before && Promised(sc, r, run, target, options, before)
    ensures NothingMissing(sc, run, target, options)
    ensures ClosedAsItWent(run, sc.cancel.cancelled) && IsAnswer(r, run.w.sid, sc.cancel.cancelled)
    ensures sc.lostBegin ==> sc.db.faults > old(sc.db.faults)
    ensures !sc.lostBegin ==> WholeBatches(sc.db.trace, run)
  {
    hide Wf, RunShape, WholeBatches, Steady, Recovered, AreCuts, IsCut, Looked, TreeDone, Continues, IsRun, Orphans, Listed;
    var db := sc.db;
    ghost var start := db.Now();
    var row := SourceRow(name, path);
    sc.batchCounter, sc.filesScanned, sc.dirsScanned, sc.errors := 0, 0, 0, 0;
    sc.lostBegin := false;
    NoCutsYet(start);
    ContinuesSelf(start);
    run := Early(start, row);
    EarlyRun(start, start, row);
    if target.NothingAt? {
      return Err(1), run;
    }
    var recovered;
    ghost var prepared;
    recovered, prepared := RecoverOrphanedScans(db);
    ghost var c1 := db.Now();
    ContinuesMeans(start, c1);
    CutIsSound(c1.durable, start.durable, Orphans(start.durable));
    assert forall s <- db.work.source :: s >= 1 by { PositiveSources(db.work); }
    ghost var answered;
    var found;
    found, answered := FindByPath(db, path);
    ghost var c2 := db.Now();
    BeganContinues(c1, c2);
    ContinuesTwice(start, c1, c2);
    if found.Err? {
      run := Early(c2, row);
      EarlyRun(start, c2, row);
      return Err(1), run;
    }
    r, run := ReplaceSource(sc, row, target, options, found.value, answered, start);
    ContinuesTwice(start, c2, db.Now());
    ContinuesMeans(c2, db.Now());
    LateRun(start, db.Now(), path, run, r.Ok?);
  }

  lemma EarlyRun(start: State, c: State, row: SourceRow)
    requires Consistent(start) && !start.inTxn && Wf(start.durable) && Continues(start, c) && Wf(c.durable)
    requires AreCuts(c.trace, |start.trace|, |c.trace|, start.durable, Orphans(start.durable))
    requires c.faults == start.faults ==> c.trace == start.trace
    ensures IsRun(start, c, row.path, Early(c, row))
    ensures WholeBatches(c.trace, Early(c, row)) && Steady(c.trace, Early(c, row))
  {
    ContinuesMeans(start, c);
    EarlyShape(start, c, row);
    NoBatches(c.trace, Early(c, row));
    hide Wf, Continues, RunShape, AreCuts, Orphans, WholeBatches, Steady, Recovered;
  }

  lemma LateRun(start: State, d: State, path: string, run: Run, ok: bool)
    requires Consistent(start) && !start.inTxn && Wf(start.durable) && Continues(start, d)
    requires RunShape(d.trace, |start.trace|, start.durable, run) && run.w.row.path == path && Looked(run.base, path, run)
    requires d.faults == start.faults ==>
               && run.base == Recovered(start.durable) && run.from <= |start.trace| + 1 && |d.trace| <= run.dropped + 1
               && (if ok then run.ending.Atomic? && run.ending.status != InProgress && run.answered
                   else run.ending.NotSwitched? && d.durable == run.base)
    ensures IsRun(start, d, path, run)
  {
    if d.faults == start.faults {
      NothingFailed(start, d, run, ok);
    }
    hide Wf, Continues, RunShape, Recovered, Looked, Undisturbed, Consistent;
  }

  lemma NothingFailed(start: State, d: State, run: Run, ok: bool)
    requires Continues(start, d)
    requires run.base == Recovered(start.durable) && run.from <= |start.trace| + 1 && |d.trace| <= run.dropped + 1
    requires if ok then run.ending.Atomic? && run.ending.status != InProgress && run.answered
             else run.ending.NotSwitched? && d.durable == run.base
    ensures Undisturbed(d.trace, |start.trace|, start.durable, run)
  {
    hide KeepsAgreement, Recovered;
  }

  lemma NoCutsYet(c: State)
    ensures AreCuts(c.trace, |c.trace|, |c.trace|, c.durable, Orphans(c.durable))
  {
  }
}
