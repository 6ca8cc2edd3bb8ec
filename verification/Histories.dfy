/** Sequences of runs, each ended or killed at any moment: what every next recovery makes of the file,
    and exactly when each path keeps to one source. */
module Histories {
  import opened Tables
  import opened TableLaws
  import opened Connection
  import opened Catalog
  import opened Shadow
  import opened ScanTree
  import opened Recovery
  import opened Removals
  import opened ScanRun
  import opened Guarantees

  /** A run on a file, and the state it left: the last one, or the one a kill fell on. */
  datatype Step = Step(before: State, after: State, path: string, run: Run, at: nat)

  ghost predicate IsStep(p: Tables, step: Step, d: Tables) {
    && step.before.durable == p
    && IsRun(step.before, step.after, step.path, step.run)
    && |step.before.trace| - 1 <= step.at < |step.after.trace|
    && d == step.after.trace[step.at]
  }

  // ---------------------------------------------------------------- what holds of every state

  /** What IsRun says of the states alone. */
  lemma StepShape(p: Tables, step: Step, d: Tables)
    requires IsStep(p, step, d)
    ensures Wf(p) && RunShape(step.after.trace, |step.before.trace|, p, step.run)
    ensures step.after.trace[|step.before.trace| - 1] == p
    ensures step.run.w.row.path == step.path
    ensures 1 <= |step.before.trace| <= step.run.from <= step.run.opens <= step.run.dropped <= step.run.switchAt <= |step.after.trace|
  {
    hide Wf, IsShadow, IsCut, PrefixOf, EndShape, AreCuts, IsNextId, Orphans, KeepsAgreement, Looked, Undisturbed;
  }

  /** Every state of every run is well-formed. */
  lemma StepKeepsWf(p: Tables, step: Step, d: Tables)
    requires IsStep(p, step, d)
    ensures Wf(d)
  {
    hide Wf, RunShape, IsRun;
    StepShape(p, step, d);
    if step.at >= |step.before.trace| {
      EveryStateIsWellFormed(step.after.trace, |step.before.trace|, p, step.run, step.at);
    }
  }

  /** And its index agrees, as long as no read for an index row failed. */
  lemma StepKeepsAgreement(p: Tables, step: Step, d: Tables)
    requires IsStep(p, step, d) && Agrees(p) && step.after.misreads == step.before.misreads
    ensures Agrees(d)
  {
    hide Wf, RunShape, IsRun, Agrees;
    StepShape(p, step, d);
    if step.at >= |step.before.trace| {
      EveryIndexRowAgrees(step.before, step.after, step.path, step.run, step.at);
    }
  }

  /** Recovery, wherever it got to, leaves the other sources as they will be. */
  ghost predicate PartlyRecovered(p: Tables, d: Tables) {
    Wf(p) && Wf(d) && Without(d, Orphans(p)) == Recovered(p)
  }

  lemma BaseIsPartlyRecovered(trace: seq<Tables>, n0: nat, p: Tables, run: Run)
    requires Wf(p) && RunShape(trace, n0, p, run)
    ensures PartlyRecovered(p, run.base)
    ensures forall i | n0 - 1 <= i < run.from :: PartlyRecovered(p, trace[i])
  {
    hide Wf, Without, IsShadow, IsCut, PrefixOf, EndShape, AreCuts, Orphans, Recovered, IsNextId;
    forall i | n0 - 1 <= i < run.from
      ensures PartlyRecovered(p, trace[i])
    {
      OtherRowsStayInRecovery(trace, n0, p, run, i);
    }
  }

  // ---------------------------------------------------------------- one source for every path

  /** The exact condition on what a run leaves. While it recovers: no half-removed tree without its scan row
      lies at another source's path. Before the switch: that holds of the tables it started from, and
      the new source is absent, or marked as unfinished, or alone at its path. After the switch: the
      same without the replaced source, and the scan row stayed open or the path is free. */
  ghost predicate KeepsApart(p: Tables, step: Step)
    requires |step.before.trace| - 1 <= step.at < |step.after.trace|
  {
    var run, d := step.run, step.after.trace[step.at];
    var sid, path, rest := run.w.sid, run.w.row.path, Without(run.base, run.olds);
    if step.at < run.from then Uncrowded(d, Orphans(p))
    else if step.at < run.switchAt then
      && Uncrowded(run.base, Orphans(p))
      && (sid !in d.source || sid in Orphans(d) || FreeAt(Recovered(run.base), path))
    else
      && Uncrowded(rest, Orphans(p))
      && if run.ending.Atomic? then run.ending.status == InProgress || FreeAt(Recovered(rest), path)
         else Uncrowded(d, {sid} + run.olds)
  }

  /** A run that finds one source for every path leaves it so exactly under that condition. */
  lemma StepKeepsSettledIff(p: Tables, step: Step, d: Tables)
    requires Settled(p) && IsStep(p, step, d)
    ensures Settled(d) <==> KeepsApart(p, step)
  {
    hide Wf, Without, IsRun, RunShape, Recovered, Orphans, Uncrowded, FreeAt, UniquePaths;
    StepKeepsWf(p, step, d);
    StepShape(p, step, d);
    var trace, n0, run := step.after.trace, |step.before.trace|, step.run;
    BaseIsPartlyRecovered(trace, n0, p, run);
    if step.at < run.from {
      WhileRecovering(p, d);
    } else if step.at < run.switchAt {
      WhileRecovering(p, run.base);
      BeforeTheSwitch(trace, n0, p, run, step.at);
      OneMoreIsUniqueIff(d, run.w.sid, run.w.row.path);
      BaseOfWindow(trace, n0, p, run);
    } else {
      WhileRecoveringWithout(p, run.base, run.olds);
      LastShadow(trace, n0, p, run, step.at);
      if run.ending.Atomic? {
        SwitchIsUniqueIff(trace[run.switchAt - 1], run.w, run.olds, run.ending.status);
      } else {
        UnguardedKeeps(d, trace[run.dropped - 1], run.w, run.olds);
        UniqueIff(d, {run.w.sid} + run.olds);
      }
    }
  }

  lemma BaseOfWindow(trace: seq<Tables>, n0: nat, p: Tables, run: Run)
    requires RunShape(trace, n0, p, run)
    ensures run.w.base == run.base && run.w.sid !in run.base.source && run.olds <= run.base.source.Keys
  {
  }

  /** Whatever follows the scan starts from its last shadow. */
  lemma LastShadow(trace: seq<Tables>, n0: nat, p: Tables, run: Run, i: nat)
    requires RunShape(trace, n0, p, run) && run.switchAt <= i < |trace|
    ensures 0 < run.dropped == run.switchAt && IsShadow(trace[run.dropped - 1], run.w)
    ensures run.w.base == run.base && run.w.sid !in run.olds
    ensures match run.ending
            case NotSwitched => false
            case Atomic(status) => i == run.switchAt && trace[i] == Switched(trace[run.switchAt - 1], run.w, run.olds, status)
            case Unprotected => IsUnguarded(trace[i], trace[run.dropped - 1], run.w, run.olds)
  {
    hide IsShadow, IsUnguarded, IsCut, PrefixOf, Switched;
  }

  /** The source is there and no scan row marks it as unfinished. */
  ghost predicate Unmarked(d: Tables, s: int) { s in d.source && s !in Orphans(d) }

  /** The condition spelled out for a switch whose BEGIN failed: each of its two trees that is there unmarked
      has a path of its own. */
  lemma UnguardedIsUniqueIff(trace: seq<Tables>, n0: nat, p: Tables, run: Run, i: nat, o: int)
    requires RunShape(trace, n0, p, run) && run.ending.Unprotected? && run.switchAt <= i < |trace| && run.olds == {o}
    ensures o in run.base.source
    ensures var d, r := trace[i], Recovered(Without(run.base, run.olds));
            var path, oldPath := run.w.row.path, run.base.source[o].path;
            UniquePaths(Recovered(d)) <==>
              && UniquePaths(r)
              && (Unmarked(d, run.w.sid) ==> FreeAt(r, path))
              && (Unmarked(d, o) ==> FreeAt(r, oldPath))
              && !(Unmarked(d, run.w.sid) && Unmarked(d, o) && path == oldPath)
  {
    hide RunShape, Recovered, Orphans, Without, Leftover, Uncrowded, FreeAt, UniquePaths, Wf, IsShadow, IsUnguarded;
    var d, sid := trace[i], run.w.sid;
    var ss := {sid, o};
    LastShadow(trace, n0, p, run, i);
    BaseOfWindow(trace, n0, p, run);
    assert {sid} + run.olds == ss && o in run.base.source;
    UnguardedKeeps(d, trace[run.dropped - 1], run.w, run.olds);
    UniqueIff(d, ss);
    RecoveredSources(d, ss);
    LeftoverOfTwo(d, sid, o);
    CrowdsIff(d, sid, o, run.w.row.path, run.base.source[o].path);
  }

  lemma LeftoverOfTwo(d: Tables, a: int, b: int)
    ensures forall s :: s in Leftover(d, {a, b}) <==> (s == a || s == b) && Unmarked(d, s)
  {
  }

  lemma CrowdsIff(d: Tables, a: int, b: int, pathA: string, pathB: string)
    requires Wf(d) && a != b
    requires (a in d.source ==> d.source[a].path == pathA) && (b in d.source ==> d.source[b].path == pathB)
    ensures var r := Recovered(Without(d, {a, b}));
            Uncrowded(d, {a, b}) <==>
              && (Unmarked(d, a) ==> FreeAt(r, pathA))
              && (Unmarked(d, b) ==> FreeAt(r, pathB))
              && !(Unmarked(d, a) && Unmarked(d, b) && pathA == pathB)
  {
    RecoveredSources(d, {a, b});
    LeftoverOfTwo(d, a, b);
    hide Wf, Recovered, Orphans, Without, Leftover;
  }

  lemma WhileRecovering(p: Tables, d: Tables)
    requires Settled(p) && PartlyRecovered(p, d)
    ensures UniquePaths(Recovered(d)) <==> Uncrowded(d, Orphans(p))
  {
    UniqueIff(d, Orphans(p));
    RecoveryIsComplete(p);
    hide Wf, Recovered, Without, Orphans;
  }

  lemma WhileRecoveringWithout(p: Tables, b: Tables, olds: set<int>)
    requires Settled(p) && PartlyRecovered(p, b)
    ensures UniquePaths(Recovered(Without(b, olds))) <==> Uncrowded(Without(b, olds), Orphans(p))
  {
    var os := Orphans(p);
    WithoutKeepsWf(b, olds);
    UniqueIff(Without(b, olds), os);
    WithoutTwice(b, olds, os);
    WithoutTwice(b, os, olds);
    assert olds + os == os + olds;
    RecoveryIsComplete(p);
    PathIsFreeIff(Recovered(p), "", olds);
    hide Wf, Recovered, Without, Orphans;
  }

  // ---------------------------------------------------------------- histories

  /** The file before and after each run. */
  ghost predicate History(files: seq<Tables>, steps: seq<Step>) {
    && |files| == |steps| + 1
    && forall i | 0 <= i < |steps| :: IsStep(files[i], steps[i], files[i + 1])
  }

  /** However many runs complete, fail, are cancelled or are killed, and whatever fails in them: the
      next recovery, if nothing fails in it, leaves a sound catalog without any scan in progress. */
  lemma {:induction false} AnyHistoryIsRecoverable(files: seq<Tables>, steps: seq<Step>)
    requires History(files, steps) && Wf(files[0])
    ensures var last := Recovered(files[|steps|]); Wf(last) && Orphans(last) == {}
    decreases |steps|
  {
    hide Wf, IsRun, Recovered, Orphans;
    if |steps| == 0 {
      RecoveryIsComplete(files[0]);
    } else {
      assert IsStep(files[0], steps[0], files[1]);
      StepKeepsWf(files[0], steps[0], files[1]);
      LaterHistory(files, steps);
      AnyHistoryIsRecoverable(files[1..], steps[1..]);
    }
  }

  /** And one source for every path: all along a history exactly when every run keeps to the condition. */
  lemma {:induction false} HistoryStaysSettledIff(files: seq<Tables>, steps: seq<Step>)
    requires History(files, steps) && Settled(files[0])
    ensures (forall i | 0 <= i < |files| :: Settled(files[i])) <==>
            (forall i | 0 <= i < |steps| :: IsStep(files[i], steps[i], files[i + 1]) && KeepsApart(files[i], steps[i]))
    decreases |steps|
  {
    hide Settled, KeepsApart, IsRun;
    if |steps| > 0 {
      assert IsStep(files[0], steps[0], files[1]);
      StepKeepsSettledIff(files[0], steps[0], files[1]);
      LaterHistory(files, steps);
      var fs, ss := files[1..], steps[1..];
      assert forall i | 1 <= i < |files| :: files[i] == fs[i - 1];
      assert forall i | 1 <= i < |steps| :: steps[i] == ss[i - 1];
      if Settled(files[1]) {
        HistoryStaysSettledIff(fs, ss);
      }
    }
  }

  lemma LaterHistory(files: seq<Tables>, steps: seq<Step>)
    requires History(files, steps) && |steps| > 0
    ensures History(files[1..], steps[1..])
  {
    hide IsStep;
    forall i | 0 <= i < |steps[1..]|
      ensures IsStep(files[1..][i], steps[1..][i], files[1..][i + 1])
    {
      assert IsStep(files[i + 1], steps[i + 1], files[i + 1 + 1]);
    }
  }

  // ---------------------------------------------------------------- runs in which nothing fails

  /** Between the source row and the scan row. */
  ghost predicate AtLoneSource(step: Step) {
    step.run.from <= step.at < step.run.opens
  }

  /** A run in which nothing fails, ended or killed at any moment, leaves one source for every path exactly in
      these cases: killed between its two rows, when no finished source lies at its path; switched, when every
      finished source there is the one it replaced; and always otherwise. */
  lemma UndisturbedRunKeepsSettledIff(p: Tables, step: Step, d: Tables)
    requires Settled(p) && IsStep(p, step, d) && step.after.faults == step.before.faults
    ensures Settled(d) <==>
            if AtLoneSource(step) then FreeAt(Recovered(p), step.path)
            else step.at >= step.run.switchAt ==>
              forall s <- Recovered(p).source :: Recovered(p).source[s].path == step.path ==> s in step.run.olds
  {
    hide Wf, IsRun, RunShape, Without, Recovered, Orphans, UniquePaths, FreeAt, Found, PrefixOf, IsShadow;
    StepKeepsSettledIff(p, step, d);
    StepShape(p, step, d);
    StepEnds(p, step, d);
    var trace, n0, run := step.after.trace, |step.before.trace|, step.run;
    if step.at < run.from {
      RecoveredOrNot(p, trace, n0, run, step.at);
    } else {
      RecoveryIsComplete(p);
      NoLeftover(p);
      if step.at >= run.switchAt {
        LastShadow(trace, n0, p, run, step.at);
        NoLeftoverWithout(run.base, run.olds, Orphans(p));
        PathIsFreeIff(run.base, step.path, run.olds);
      } else {
        OneTree(trace, n0, p, run, step.at);
      }
    }
  }

  /** By a path without trailing separators, a run in which nothing fails keeps one source for every path
      unless it is killed between its two rows. */
  lemma UndisturbedRunKeepsSettled(p: Tables, step: Step, d: Tables)
    requires Settled(p) && IsStep(p, step, d) && step.after.faults == step.before.faults
    requires Clean(step.path) && !AtLoneSource(step)
    ensures Settled(d)
  {
    hide Wf, IsRun, RunShape, Without, Recovered, Orphans, UniquePaths, FreeAt, Found, PrefixOf, IsShadow;
    UndisturbedRunKeepsSettledIff(p, step, d);
    StepShape(p, step, d);
    StepEnds(p, step, d);
    var run := step.run;
    if step.at >= run.switchAt {
      LastShadow(step.after.trace, |step.before.trace|, p, run, step.at);
      RecoveryIsComplete(p);
      LookupClearsThePath(run.base, step.path, run.olds);
    }
  }

  lemma StepEnds(p: Tables, step: Step, d: Tables)
    requires IsStep(p, step, d) && step.after.faults == step.before.faults
    ensures Undisturbed(step.after.trace, |step.before.trace|, p, step.run)
    ensures Looked(step.run.base, step.path, step.run)
  {
    hide Wf, RunShape, Continues, Undisturbed, Looked;
  }

  /** Up to the source row the file holds the tables of before or those of after recovery. */
  lemma RecoveredOrNot(p: Tables, trace: seq<Tables>, n0: nat, run: Run, i: nat)
    requires Wf(p) && RunShape(trace, n0, p, run) && Undisturbed(trace, n0, p, run) && n0 - 1 <= i < run.from
    ensures trace[i] == p || trace[i] == Recovered(p)
    ensures Leftover(trace[i], Orphans(p)) == {}
  {
    NoLeftover(p);
    hide Wf, Without, Recovered, Orphans, IsCut, IsShadow, PrefixOf, EndShape, IsNextId;
  }

  lemma NoLeftover(p: Tables)
    ensures Leftover(p, Orphans(p)) == {} && Leftover(Recovered(p), Orphans(p)) == {}
  {
    RecoveredKeys(p);
    hide Orphans, Recovered;
  }

  lemma NoLeftoverWithout(b: Tables, olds: set<int>, ss: set<int>)
    requires Leftover(b, ss) == {}
    ensures Leftover(Without(b, olds), ss) == {}
  {
    OrphansOfTheRest(b, olds);
    assert Leftover(Without(b, olds), ss) <= Leftover(b, ss);
  }

  /** From the source row to the switch: alone and unmarked between the two rows, then marked, then gone. */
  lemma OneTree(trace: seq<Tables>, n0: nat, p: Tables, run: Run, i: nat)
    requires Wf(p) && RunShape(trace, n0, p, run) && Undisturbed(trace, n0, p, run) && run.from <= i < run.switchAt
    ensures var d := trace[i]; (run.w.sid !in d.source || run.w.sid in Orphans(d)) <==> !(run.from <= i < run.opens)
  {
    hide Wf, Without, Recovered, Orphans, IsCut, IsShadow, PrefixOf, IsNextId;
    if i < run.opens {
      BaseIsPartlyRecovered(trace, n0, p, run);
      LoneSourceIsUnmarked(run.base, run.w.sid, run.w.row);
    } else if i < run.dropped {
      ShadowIsOrphan(trace[i], run.w);
    } else {
      assert trace[i] == run.base;
    }
  }

  lemma LoneSourceIsUnmarked(b: Tables, sid: int, row: SourceRow)
    requires Wf(b) && sid !in b.source
    ensures Unmarked(InsertSource(b, sid, row), sid)
  {
    assert forall s <- b.scan :: b.scan[s].sourceId in b.source;
  }

  // ---------------------------------------------------------------- runs in which something fails

  /** No removal of these trees stopped after five of the six deletes. */
  ghost predicate NoneAtFive(r: Tables, t: Tables, ss: set<int>) {
    exists d: Depths :: Cuts(d, ss) && r == Cut(t, d) && AtFive(d) == {}
  }

  /** What keeps a run harmless whatever fails in it: no removal that the file was left with stopped after five
      deletes; the run did not end between its two rows; and a switch went through under its guard, and left its
      scan row open or came after a lookup that was answered, by a clean path, with no unfinished tree there. */
  ghost predicate Harmless(p: Tables, step: Step)
    requires step.at < |step.after.trace|
  {
    var run, trace := step.run, step.after.trace;
    var d := trace[step.at];
    if step.at < run.from then NoneAtFive(d, p, Orphans(p))
    else
      && NoneAtFive(run.base, p, Orphans(p))
      && if step.at < run.switchAt then
           && !AtLoneSource(step)
           && (0 < run.dropped <= step.at ==> NoneAtFive(d, trace[run.dropped - 1], {run.w.sid}))
         else
           && run.ending.Atomic?
           && (run.ending.status == InProgress
               || (run.answered && Clean(step.path)
                   && forall o <- run.base.source :: run.base.source[o].path == step.path ==> o !in Orphans(run.base)))
  }

  lemma NoneAtFiveLeavesNothing(r: Tables, t: Tables, ss: set<int>)
    requires Wf(t) && ss <= Orphans(t) && NoneAtFive(r, t, ss)
    ensures Leftover(r, ss) == {}
  {
    var d: Depths :| Cuts(d, ss) && r == Cut(t, d) && AtFive(d) == {};
    LeftoverOfCut(t, d, ss);
  }

  /** Interrupted recoveries and drops, failed finishes and commits, cancellations and kills: such a run keeps
      one source for every path. */
  lemma HarmlessRunKeepsSettled(p: Tables, step: Step, d: Tables)
    requires Settled(p) && IsStep(p, step, d) && Harmless(p, step)
    ensures KeepsApart(p, step) && Settled(d)
  {
    hide Wf, IsRun, RunShape, Without, Recovered, Orphans, UniquePaths, FreeAt, Found, PrefixOf, IsShadow, NoneAtFive;
    StepKeepsSettledIff(p, step, d);
    StepShape(p, step, d);
    var trace, n0, run := step.after.trace, |step.before.trace|, step.run;
    NoneAtFiveLeavesNothing(if step.at < run.from then d else run.base, p, Orphans(p));
    if run.switchAt <= step.at {
      LastShadow(trace, n0, p, run, step.at);
      NoLeftoverWithout(run.base, run.olds, Orphans(p));
      if run.ending.status != InProgress {
        AnsweredFinds(p, step, d);
        BaseIsPartlyRecovered(trace, n0, p, run);
        WhileRecovering(p, run.base);
        PathIsFreeIff(run.base, step.path, run.olds);
        LookupClearsThePath(run.base, step.path, run.olds);
      }
    } else if run.from <= step.at {
      DropIsMarked(trace, n0, p, run, step.at);
    }
  }

  lemma AnsweredFinds(p: Tables, step: Step, d: Tables)
    requires IsStep(p, step, d) && step.run.answered
    ensures Found(step.run.base, step.path, step.run.olds)
  {
    hide Wf, RunShape, Continues, Undisturbed, Found;
  }

  lemma DropIsMarked(trace: seq<Tables>, n0: nat, p: Tables, run: Run, i: nat)
    requires RunShape(trace, n0, p, run) && run.from <= run.opens <= i < run.switchAt
    requires 0 < run.dropped <= i ==> NoneAtFive(trace[i], trace[run.dropped - 1], {run.w.sid})
    ensures run.w.sid !in trace[i].source || run.w.sid in Orphans(trace[i])
  {
    hide IsCut, IsShadow, PrefixOf, NoneAtFive, Orphans, IsNextId, StartShape;
    if i < run.dropped {
      ShadowIsOrphan(trace[i], run.w);
    } else {
      ShadowIsOrphan(trace[run.dropped - 1], run.w);
      ShadowIsWf(trace[run.dropped - 1], run.w);
      NoneAtFiveLeavesNothing(trace[i], trace[run.dropped - 1], {run.w.sid});
      assert run.w.sid !in Leftover(trace[i], {run.w.sid});
    }
  }

  /** Nothing failed and the run was not killed between its two rows, or what failed was harmless. */
  ghost predicate Sheltered(p: Tables, step: Step)
    requires step.at < |step.after.trace|
  {
    || (step.after.faults == step.before.faults && Clean(step.path) && !AtLoneSource(step))
    || Harmless(p, step)
  }

  /** However many such runs follow one another, every path keeps to one source all along. */
  lemma {:induction false} ShelteredHistoryStaysSettled(files: seq<Tables>, steps: seq<Step>)
    requires History(files, steps) && Settled(files[0])
    requires forall i | 0 <= i < |steps| :: IsStep(files[i], steps[i], files[i + 1]) && Sheltered(files[i], steps[i])
    ensures forall i | 0 <= i < |files| :: Settled(files[i])
    decreases |steps|
  {
    hide Settled, IsRun, Harmless;
    if |steps| > 0 {
      assert IsStep(files[0], steps[0], files[1]) && Sheltered(files[0], steps[0]);
      if Harmless(files[0], steps[0]) {
        HarmlessRunKeepsSettled(files[0], steps[0], files[1]);
      } else {
        UndisturbedRunKeepsSettled(files[0], steps[0], files[1]);
      }
      LaterHistory(files, steps);
      var fs, ss := files[1..], steps[1..];
      assert forall i | 1 <= i < |files| :: files[i] == fs[i - 1];
      forall i | 0 <= i < |ss|
        ensures IsStep(fs[i], ss[i], fs[i + 1]) && Sheltered(fs[i], ss[i])
      {
        assert IsStep(files[i + 1], steps[i + 1], files[i + 1 + 1]) && Sheltered(files[i + 1], steps[i + 1]);
      }
      ShelteredHistoryStaysSettled(fs, ss);
    }
  }

  // ---------------------------------------------------------------- where the promise stops

  /** A source row without a scan row keeps its path from being unique exactly when a finished source
      lies there: its own predecessor, in a replacing scan. */
  lemma LoneSourceCrowdsIff(b: Tables, sid: int, row: SourceRow)
    requires Wf(b) && IsNextId(b.source.Keys, sid) && UniquePaths(Recovered(b))
    ensures UniquePaths(Recovered(InsertSource(b, sid, row))) <==> FreeAt(Recovered(b), row.path)
  {
    var d := InsertSource(b, sid, row);
    InsertSourceKeeps(b, sid, row);
    OneMoreIsUniqueIff(d, sid, row.path);
    LoneSourceIsUnmarked(b, sid, row);
    hide Recovered, Wf, FreeAt, UniquePaths;
  }

  /** A completed switch leaves one source at the path exactly when the lookup had found the finished source
      there, if there is one. Errors of recovery are only logged, so it may find an unfinished one instead; and
      a lookup that fails while stepping finds none, whatever is there. */
  lemma CompletedSwitchIsAloneIff(t: Tables, w: Window, olds: set<int>)
    requires IsShadow(t, w) && w.sid !in olds && Wf(w.base) && UniquePaths(Recovered(w.base))
    ensures UniquePaths(Recovered(Switched(t, w, olds, Completed))) <==>
            forall s <- Recovered(w.base).source :: Recovered(w.base).source[s].path == w.row.path ==> s in olds
  {
    SwitchIsUniqueIff(t, w, olds, Completed);
    PathIsFreeIff(w.base, w.row.path, olds);
    hide Wf, IsShadow, Switched, Recovered, Without, FreeAt, UniquePaths;
  }

  /** A completed run that writes nothing more than its own two rows, with some failures before them. */
  ghost function ShortRun(p: Tables, w: Window, olds: set<int>, answered: bool, faults: nat): Step {
    var s := InsertSource(p, w.sid, w.row);
    var t := InsertScan(s, w.scanId, ScanRow(w.sid, InProgress));
    var d := Switched(t, w, olds, Completed);
    Step(State(p, p, false, [p], 0, 0), State(d, d, false, [p, s, t, d], faults, 0), w.row.path,
         Run(p, w, olds, t, 1, 2, 3, 3, 3, Atomic(Completed), answered, true, false), 3)
  }

  ghost predicate CanRun(p: Tables, w: Window, olds: set<int>, answered: bool) {
    && Wf(p) && w.base == p && IsNextId(p.source.Keys, w.sid) && IsNextId(p.scan.Keys, w.scanId)
    && olds <= p.source.Keys && (if answered then Found(p, w.row.path, olds) else olds == {})
  }

  lemma ShortRunIsStep(p: Tables, w: Window, olds: set<int>, answered: bool, faults: nat)
    requires CanRun(p, w, olds, answered) && faults > 0
    ensures var step := ShortRun(p, w, olds, answered, faults); IsStep(p, step, step.after.durable)
  {
    hide Wf, Without, IsShadow, IsCut, PrefixOf, Switched, InsertSource, InsertScan, Orphans, IsNextId, Found, Agrees;
    var step := ShortRun(p, w, olds, answered, faults);
    var trace, run := step.after.trace, step.run;
    WindowOpens(p, w.sid, w.row, w.scanId);
    PrefixOfSelf(trace[2]);
    assert RunShape(trace, 1, p, run);
    if Agrees(p) {
      ShortRunAgrees(p, w, olds, answered);
    }
    assert Continues(step.before, step.after);
  }

  lemma ShortRunAgrees(p: Tables, w: Window, olds: set<int>, answered: bool)
    requires CanRun(p, w, olds, answered) && Agrees(p)
    ensures var s := InsertSource(p, w.sid, w.row);
            var t := InsertScan(s, w.scanId, ScanRow(w.sid, InProgress));
            Agrees(s) && Agrees(t) && Agrees(Switched(t, w, olds, Completed))
  {
    hide Wf, Without, IsShadow, Agrees, CloseScan, Found;
    var s := InsertSource(p, w.sid, w.row);
    var t := InsertScan(s, w.scanId, ScanRow(w.sid, InProgress));
    WindowOpens(p, w.sid, w.row, w.scanId);
    SourceRowAlone(p, w.sid, w.row);
    AgreesStill(s, t, w);
    WithoutKeepsAgreement(t, olds);
    WithoutKeepsWf(t, olds);
    ShadowIsWf(t, w);
    ClosingKeeps(Without(t, olds), w.scanId, Completed);
  }

  /** Whichever way it came to replace too little, such a run leaves more than one source at its path exactly
      when a finished source lies there that it did not replace. */
  lemma ShortRunIsAloneIff(p: Tables, w: Window, olds: set<int>, answered: bool, faults: nat)
    requires CanRun(p, w, olds, answered) && faults > 0 && Settled(p)
    ensures var step := ShortRun(p, w, olds, answered, faults);
            && IsStep(p, step, step.after.durable)
            && (Settled(step.after.durable) <==> KeepsApart(p, step))
            && (Settled(step.after.durable) <==>
                  forall s <- Recovered(p).source :: Recovered(p).source[s].path == w.row.path ==> s in olds)
  {
    hide Wf, Without, IsShadow, Switched, InsertSource, InsertScan, IsRun, KeepsApart, Recovered, UniquePaths, Found;
    var step := ShortRun(p, w, olds, answered, faults);
    ShortRunIsStep(p, w, olds, answered, faults);
    StepKeepsSettledIff(p, step, step.after.durable);
    StepKeepsWf(p, step, step.after.durable);
    WindowOpens(p, w.sid, w.row, w.scanId);
    CompletedSwitchIsAloneIff(step.run.tree, w, olds);
  }

  /** A catalog with a finished and an unfinished tree of one path. */
  ghost function TwoOfOnePath(): Tables {
    Tables(map[1 := SourceRow("m", "/m"), 2 := SourceRow("m", "/m")], map[], map[], map[],
           map[1 := ScanRow(1, Completed), 2 := ScanRow(2, InProgress)], map[])
  }

  lemma TwoOfOnePathIsSound()
    ensures Wf(TwoOfOnePath()) && Orphans(TwoOfOnePath()) == {2}
    ensures IsNextId(TwoOfOnePath().source.Keys, 3) && IsNextId(TwoOfOnePath().scan.Keys, 3)
  {
    var p := TwoOfOnePath();
    assert p.scan[2].sourceId == 2 && 2 in Orphans(p);
  }

  lemma TwoOfOnePathIsSettled()
    ensures Settled(TwoOfOnePath()) && Recovered(TwoOfOnePath()).source == map[1 := SourceRow("m", "/m")]
    ensures Found(TwoOfOnePath(), "/m", {2})
  {
    var p := TwoOfOnePath();
    TwoOfOnePathIsSound();
    assert Recovered(p).source == p.source - {2} == map[1 := SourceRow("m", "/m")];
    assert 2 in p.source && p.source[2].path == "/m";
    hide Wf, Orphans, Recovered;
  }

  /** When its recovery fails and the lookup returns the unfinished tree, a run on that path completes and
      leaves two finished sources there. */
  lemma FailedRecoveryLeavesTwo()
    ensures exists step: Step :: var p, d := TwoOfOnePath(), step.after.durable;
              IsStep(p, step, d) && step.run.answered && Settled(p) && !KeepsApart(p, step) && !Settled(d)
  {
    hide Wf, IsRun, Recovered, KeepsApart, Settled, Found, TwoOfOnePath;
    var w := Window(TwoOfOnePath(), 3, SourceRow("m", "/m"), 3);
    TwoOfOnePathIsSound();
    TwoOfOnePathIsSettled();
    TwoIsASource();
    ShortRunIsAloneIff(TwoOfOnePath(), w, {2}, true, 1);
    var step := ShortRun(TwoOfOnePath(), w, {2}, true, 1);
    assert 1 in Recovered(TwoOfOnePath()).source;
    assert IsStep(TwoOfOnePath(), step, step.after.durable);
  }

  lemma TwoIsASource()
    ensures {2} <= TwoOfOnePath().source.Keys
  {
  }

  /** A catalog with one finished tree. */
  ghost function OneFinished(): Tables {
    Tables(map[1 := SourceRow("m", "/m")], map[], map[], map[], map[1 := ScanRow(1, Completed)], map[])
  }

  lemma OneFinishedIsSettled()
    ensures Wf(OneFinished()) && Settled(OneFinished()) && Recovered(OneFinished()).source == map[1 := SourceRow("m", "/m")]
    ensures IsNextId(OneFinished().source.Keys, 2) && IsNextId(OneFinished().scan.Keys, 2)
  {
    var p := OneFinished();
    assert Orphans(p) == {};
    NothingToRecover(p);
  }

  /** When the lookup fails while stepping, a run on the path of a finished tree takes it for a first scan,
      completes and leaves two finished sources there. */
  lemma MissedLookupLeavesTwo()
    ensures exists step: Step :: var p, d := OneFinished(), step.after.durable;
              IsStep(p, step, d) && !step.run.answered && Settled(p) && !KeepsApart(p, step) && !Settled(d)
  {
    hide Wf, IsRun, Recovered, KeepsApart, Settled, Found, OneFinished;
    var w := Window(OneFinished(), 2, SourceRow("m", "/m"), 2);
    OneFinishedIsSettled();
    ShortRunIsAloneIff(OneFinished(), w, {}, false, 1);
    var step := ShortRun(OneFinished(), w, {}, false, 1);
    assert 1 in Recovered(OneFinished()).source;
    assert IsStep(OneFinished(), step, step.after.durable);
  }
}
