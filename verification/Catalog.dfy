/** The managers: the statements each operation sends, and what the tables are afterwards. */
module Catalog {
  import opened Results
  import opened Tables
  import opened Connection
  import TableLaws

  // ---------------------------------------------------------------- row ids

  lemma NonEmpty(s: set<int>)
    requires s != {}
    ensures exists k :: k in s
  {
    if forall k :: k !in s {
      assert false;
    }
  }

  /** max(rowid) + 1. */
  method NextId(keys: set<int>) returns (id: int)
    requires forall k <- keys :: k >= 1
    ensures IsNextId(keys, id)
  {
    var largest := 0;
    var rest := keys;
    while rest != {}
      invariant rest <= keys && largest >= 0
      invariant forall k <- keys :: k <= largest || k in rest
      invariant largest == 0 || largest in keys
      decreases rest
    {
      NonEmpty(rest);
      var k :| k in rest;
      if k > largest {
        largest := k;
      }
      rest := rest - {k};
    }
    id := largest + 1;
  }

  // ---------------------------------------------------------------- paths

  predicate IsSeparator(c: char) { c == '/' || c == '\\' }

  /** A path without its trailing separators, but never empty. */
  function Trim(path: string): (r: string)
    ensures r <= path && (path != "" ==> r != "")
    ensures |r| > 1 ==> r[|r| - 1] !in "/\\"
    ensures forall i | |r| <= i < |path| :: path[i] in "/\\"
  {
    if |path| > 1 && IsSeparator(path[|path| - 1]) then Trim(path[..|path| - 1]) else path
  }

  /** The rows SourceManager's lookup accepts for a path. */
  predicate Matches(row: SourceRow, path: string) {
    row.path == path || row.path == Trim(path)
  }

  /** The lookup has no ORDER BY: any matching source may come first. 0 is no match, and also what a lookup
      that fails while stepping comes to. */
  method FindByPath(db: Database, path: string) returns (r: Result<int>, ghost answered: bool)
    requires db.Valid() && forall s <- db.work.source :: s >= 1
    modifies db`faults
    ensures db.Valid() && (if answered then db.faults == old(db.faults) else db.faults > old(db.faults))
    ensures answered ==> r.Ok?
    ensures r.Ok? && r.value != 0 ==> answered && r.value in db.work.source && Matches(db.work.source[r.value], path)
    ensures answered && r.value == 0 ==> forall s <- db.work.source :: !Matches(db.work.source[s], path)
    ensures r.Err? ==> r.code == 1
  {
    var trimmed := path;
    while |trimmed| > 1 && IsSeparator(trimmed[|trimmed| - 1])
      invariant Trim(trimmed) == Trim(path)
      decreases |trimmed|
    {
      trimmed := trimmed[..|trimmed| - 1];
    }
    var prepared := db.Read();
    if !prepared {
      return Err(1), false;
    }
    var stepped := db.Read();
    if !stepped {
      return Ok(0), false;
    }
    answered := true;
    if s :| s in db.work.source && (db.work.source[s].path == path || db.work.source[s].path == trimmed) {
      return Ok(s), true;
    }
    r := Ok(0);
  }

  /** How far the walk from an entry to its root came: a query for a row on the way may fail while stepping,
      which ends the walk, or fail to be prepared, which gives it up. */
  datatype WalkUp = Ended(names: nat) | GivenUp

  /** The last names of an entry's path. */
  ghost function TailOf(entry: Entries, e: int, names: nat): string
    decreases names
  {
    if names == 0 || e !in entry then ""
    else if entry[e].parentId == 0 then entry[e].name
    else Join(TailOf(entry, entry[e].parentId, names - 1), entry[e].name)
  }

  /** The number of names in an entry's path. */
  ghost function Depth(entry: Entries, e: int): nat
    requires ParentsEarlier(entry)
    decreases if e in entry then e else 0
  {
    if e !in entry then 0 else if entry[e].parentId == 0 then 1 else Depth(entry, entry[e].parentId) + 1
  }

  /** The parts are the names from an entry up to, but without, another one on its way to the root. */
  ghost predicate Collected(entry: Entries, id: int, parts: seq<string>, current: int)
    requires ParentsEarlier(entry)
  {
    && JoinUp(PathOf(entry, current), parts) == PathOf(entry, id)
    && forall m: nat :: JoinUp(TailOf(entry, current, m), parts) == TailOf(entry, id, |parts| + m)
  }

  lemma OneUp(entry: Entries, id: int, parts: seq<string>, current: int)
    requires ParentsEarlier(entry) && current in entry && Collected(entry, id, parts, current)
    ensures Collected(entry, id, parts + [entry[current].name], entry[current].parentId)
  {
    var p, up := parts + [entry[current].name], entry[current].parentId;
    assert p[..|p| - 1] == parts;
    assert PathOf(entry, current) == Join(PathOf(entry, up), entry[current].name);
    forall m: nat
      ensures JoinUp(TailOf(entry, up, m), p) == TailOf(entry, id, |p| + m)
    {
      assert TailOf(entry, current, m + 1) == Join(TailOf(entry, up, m), entry[current].name);
    }
  }

  /** The walk from an entry up to its root collects the names; joining them in reverse is its path, or the
      end of it when the walk ended early. */
  method BuildPath(db: Database, id: int) returns (r: Result<string>, ghost walk: WalkUp)
    requires db.Valid() && ParentsEarlier(db.work.entry)
    modifies db`faults
    ensures db.Valid() && db.faults >= old(db.faults)
    ensures db.faults == old(db.faults) ==> r == Ok(PathOf(db.work.entry, id))
    ensures match walk
            case Ended(n) => r == Ok(TailOf(db.work.entry, id, n))
            case GivenUp => r == Err(1)
  {
    hide Collected, ParentsEarlier, PathOf, TailOf, JoinUp;
    var entry := db.work.entry;
    var parts: seq<string> := [];
    var current := id;
    NothingCollected(entry, id);
    while current != 0
      invariant db.Valid() && db.work.entry == entry && db.faults == old(db.faults)
      invariant Collected(entry, id, parts, current)
      decreases if current in entry then current else 0
    {
      var prepared := db.Read();
      if !prepared {
        return Err(1), GivenUp;
      }
      var stepped := db.Read();
      if !stepped || current !in entry {
        break;
      }
      OneUp(entry, id, parts, current);
      ParentIsEarlier(entry, current);
      parts := parts + [entry[current].name];
      current := entry[current].parentId;
    }
    walk := Ended(|parts|);
    CollectedAll(entry, id, parts, current);
    var path := JoinParts(parts);
    r := Ok(path);
  }

  lemma NothingCollected(entry: Entries, id: int)
    requires ParentsEarlier(entry)
    ensures Collected(entry, id, [], id)
  {
  }

  lemma ParentIsEarlier(entry: Entries, e: int)
    requires ParentsEarlier(entry) && e in entry
    ensures e >= 1 && 0 !in entry
    ensures var up := entry[e].parentId; if up in entry then 0 <= up < e else up == 0
  {
  }

  lemma CollectedAll(entry: Entries, id: int, parts: seq<string>, current: int)
    requires ParentsEarlier(entry) && Collected(entry, id, parts, current)
    ensures JoinUp("", parts) == TailOf(entry, id, |parts|)
    ensures current !in entry || current == 0 ==> JoinUp("", parts) == PathOf(entry, id)
  {
    assert TailOf(entry, current, 0) == "";
  }

  method JoinParts(parts: seq<string>) returns (path: string)
    ensures path == JoinUp("", parts)
  {
    path := "";
    var i := |parts|;
    assert parts[..i] == parts;
    while i > 0
      invariant 0 <= i <= |parts|
      invariant JoinUp(path, parts[..i]) == JoinUp("", parts)
    {
      i := i - 1;
      assert parts[..i + 1][..i] == parts[..i];
      if path != "" {
        path := path + "/";
      }
      path := path + parts[i];
    }
  }

  /** Parts collected bottom-up, joined below a prefix. */
  ghost function JoinUp(prefix: string, parts: seq<string>): string
    decreases |parts|
  {
    if parts == [] then prefix else JoinUp(Join(prefix, parts[|parts| - 1]), parts[..|parts| - 1])
  }

  // ---------------------------------------------------------------- removal

  /** The six DELETEs in order, stopping at the first that fails; n of them ran. */
  method RemoveTree(db: Database, sid: int) returns (ok: bool, ghost n: nat)
    requires db.Valid() && Wf(db.work)
    modifies db
    ensures db.Valid() && db.inTxn == old(db.inTxn) && db.faults >= old(db.faults) && db.misreads == old(db.misreads)
    ensures n <= 6 && (ok <==> n == 6)
    ensures !ok ==> db.faults > old(db.faults)
    ensures db.work == AfterDeletes(old(db.work), sid, n)
    ensures db.inTxn ==> db.durable == old(db.durable) && db.trace == old(db.trace)
    ensures !db.inTxn ==> Traced(db.trace, |old(db.trace)|, old(db.work), sid, n)
                          && db.trace[..|old(db.trace)|] == old(db.trace)
  {
    hide AfterDeletes, DeleteStatement, References, Wf, Traced;
    n := 0;
    ghost var t := db.work;
    ghost var start := |db.trace|;
    NoDeletes(t, sid, db.trace);
    ok := db.DeferForeignKeys();
    if !ok {
      return;
    }
    var k := 0;
    while k < 6
      invariant 0 <= k <= 6 && n == k
      invariant db.Valid() && db.inTxn == old(db.inTxn) && db.faults == old(db.faults) && db.misreads == old(db.misreads)
      invariant db.work == AfterDeletes(t, sid, k)
      invariant db.inTxn ==> db.durable == old(db.durable) && db.trace == old(db.trace)
      invariant !db.inTxn ==> start <= |db.trace| && db.trace[..start] == old(db.trace) && Traced(db.trace, start, t, sid, k)
    {
      OneMoreDelete(t, sid, k);
      OneMoreTraced(db.trace, start, t, sid, k);
      ok := db.Exec(DeleteStatement(db.work, sid, k));
      if !ok {
        return;
      }
      k := k + 1;
      n := k;
    }
    ok := true;
  }

  /** Outside a transaction each delete is a state of the file. */
  ghost predicate Traced(trace: seq<Tables>, start: nat, t: Tables, sid: int, n: nat) {
    && |trace| == start + n
    && forall i | start <= i < |trace| :: trace[i] == AfterDeletes(t, sid, i + 1 - start)
  }

  lemma OneMoreTraced(trace: seq<Tables>, start: nat, t: Tables, sid: int, k: nat)
    ensures Traced(trace, start, t, sid, k) ==>
              Traced(trace + [AfterDeletes(t, sid, k + 1)], start, t, sid, k + 1)
              && (trace + [AfterDeletes(t, sid, k + 1)])[..start] == trace[..start]
  {
    hide AfterDeletes;
  }

  lemma NoDeletes(t: Tables, sid: int, trace: seq<Tables>)
    ensures AfterDeletes(t, sid, 0) == t && Traced(trace, |trace|, t, sid, 0)
  {
  }

  lemma OneMoreDelete(t: Tables, sid: int, k: nat)
    requires Wf(t) && k < 6
    ensures AfterDeletes(t, sid, k + 1) == DeleteStatement(AfterDeletes(t, sid, k), sid, k)
    ensures References(AfterDeletes(t, sid, k + 1))
  {
    TableLaws.DeletesTouchOneTree(t, sid, k + 1, {sid});
    hide DeleteStatement, References;
    WfHasReferences(AfterDeletes(t, sid, k + 1));
  }

  lemma WfHasReferences(t: Tables)
    requires Wf(t)
    ensures References(t)
  {
  }

  // ---------------------------------------------------------------- inserts and updates

  method InsertSourceRow(db: Database, row: SourceRow) returns (r: Result<int>, ghost id: int)
    requires db.Valid() && Wf(db.work)
    modifies db
    ensures IsNextId(old(db.work.source.Keys), id)
    ensures Executed(old(db.Now()), db.Now(), InsertSource(old(db.work), id, row), r.Ok?)
    ensures r.Ok? ==> r.value == id
    ensures r.Err? ==> r.code == 1
  {
    var next := NextId(db.work.source.Keys);
    id := next;
    var ok := db.Exec(InsertSource(db.work, next, row));
    r := if ok then Ok(next) else Err(1);
  }

  method InsertScanRow(db: Database, row: ScanRow) returns (r: Result<int>, ghost id: int)
    requires db.Valid() && Wf(db.work)
    modifies db
    ensures IsNextId(old(db.work.scan.Keys), id)
    ensures Executed(old(db.Now()), db.Now(), InsertScan(old(db.work), id, row), r.Ok?)
    ensures r.Ok? ==> r.value == id
    ensures r.Err? ==> r.code == 1
  {
    var next := NextId(db.work.scan.Keys);
    id := next;
    var ok := db.Exec(InsertScan(db.work, next, row));
    r := if ok then Ok(next) else Err(1);
  }

  method InsertEntryRow(db: Database, row: EntryRow) returns (r: Result<int>, ghost id: int)
    requires db.Valid() && Wf(db.work)
    modifies db
    ensures IsNextId(old(db.work.entry.Keys), id)
    ensures Executed(old(db.Now()), db.Now(), InsertEntry(old(db.work), id, row), r.Ok?)
    ensures r.Ok? ==> r.value == id
    ensures r.Err? ==> r.code == 1
  {
    var next := NextId(db.work.entry.Keys);
    id := next;
    var ok := db.Exec(InsertEntry(db.work, next, row));
    r := if ok then Ok(next) else Err(1);
  }

  method InsertContainerRow(db: Database, entryId: int) returns (r: Result<int>, ghost id: int)
    requires db.Valid() && Wf(db.work)
    modifies db
    ensures IsNextId(old(db.work.container.Keys), id)
    ensures Executed(old(db.Now()), db.Now(), InsertContainer(old(db.work), id, ContainerRow(entryId)), r.Ok?)
    ensures r.Ok? ==> r.value == id
    ensures r.Err? ==> r.code == 1
  {
    var next := NextId(db.work.container.Keys);
    id := next;
    var ok := db.Exec(InsertContainer(db.work, next, ContainerRow(entryId)));
    r := if ok then Ok(next) else Err(1);
  }

  /** The index row that comes of its reads: the path as far as the walk came, or else the bare name, and no
      source name when that cannot be read. */
  ghost function RowOf(t: Tables, e: int, walk: WalkUp, named: bool): FtsRow
    requires e in t.entry && t.entry[e].sourceId in t.source
  {
    FtsRow(t.entry[e].name,
           if walk.GivenUp? then t.entry[e].name else TailOf(t.entry, e, walk.names),
           if named then t.source[t.entry[e].sourceId].name else "")
  }

  /** What is read for an entry's index row. */
  method ReadIndexRow(db: Database, e: int) returns (row: FtsRow, ghost walk: WalkUp, ghost named: bool)
    requires db.Valid() && Wf(db.work) && e in db.work.entry
    modifies db`faults, db`misreads
    ensures db.Valid() && row == RowOf(db.work, e, walk, named)
    ensures old(db.misreads) <= db.misreads && db.misreads - old(db.misreads) <= db.faults - old(db.faults)
    ensures db.misreads == old(db.misreads) ==> row == AgreedRow(db.work, e) && db.faults == old(db.faults)
    ensures db.misreads == old(db.misreads) ==>
              var source := db.work.source[db.work.entry[e].sourceId];
              row.name == db.work.entry[e].name && row.path == PathOf(db.work.entry, e) && row.sourceName == source.name
  {
    var found;
    found, walk := BuildPath(db, e);
    var entry := db.work.entry[e];
    var path := if found.Ok? then found.value else entry.name;
    var read := db.Read();
    named := read;
    row := FtsRow(entry.name, path, if read then db.work.source[entry.sourceId].name else "");
    if db.faults > old(db.faults) {
      db.misreads := db.misreads + 1;
    }
  }

  lemma {:induction false} TailIsShorter(entry: Entries, e: int, names: nat)
    requires ParentsEarlier(entry) && forall k <- entry :: entry[k].name != ""
    requires e in entry
    ensures PathOf(entry, e) != ""
    ensures if names >= Depth(entry, e) then TailOf(entry, e, names) == PathOf(entry, e)
            else |TailOf(entry, e, names)| < |PathOf(entry, e)|
    decreases e
  {
    if entry[e].parentId != 0 {
      TailIsShorter(entry, entry[e].parentId, if names == 0 then 0 else names - 1);
    }
  }

  /** The row is the one the entry should have exactly when the walk reached the root, or was given up at once
      on an entry that is a root, and the source's name was read or is empty. */
  lemma RowAgreesIff(t: Tables, e: int, walk: WalkUp, named: bool)
    requires Wf(t) && e in t.entry
    ensures RowOf(t, e, walk, named) == AgreedRow(t, e) <==>
            && (if walk.GivenUp? then t.entry[e].parentId == 0 else walk.names >= Depth(t.entry, e))
            && (named || t.source[t.entry[e].sourceId].name == "")
  {
    TailIsShorter(t.entry, e, if walk.GivenUp? then 0 else walk.names);
    if t.entry[e].parentId != 0 {
      TailIsShorter(t.entry, t.entry[e].parentId, 0);
    }
  }

  method IndexEntry(db: Database, e: int, row: FtsRow) returns (ok: bool)
    requires db.Valid()
    modifies db
    ensures Executed(old(db.Now()), db.Now(), InsertFts(old(db.work), e, row), ok)
  {
    ok := db.Exec(InsertFts(db.work, e, row));
  }

  method StoreChecksum(db: Database, key: ChecksumKey, digest: seq<bv8>) returns (ok: bool)
    requires db.Valid()
    modifies db
    ensures Executed(old(db.Now()), db.Now(), PutChecksum(old(db.work), key, digest), ok)
  {
    ok := db.Exec(PutChecksum(db.work, key, digest));
  }

  method FinishScan(db: Database, scanId: int, status: ScanStatus) returns (ok: bool)
    requires db.Valid()
    modifies db
    ensures Executed(old(db.Now()), db.Now(), CloseScan(old(db.work), scanId, status), ok)
  {
    ok := db.Exec(CloseScan(db.work, scanId, status));
  }
}
