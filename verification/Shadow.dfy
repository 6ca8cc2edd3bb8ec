/** The tables while a scan writes its new tree: the tables before it, plus rows of one
    new source whose scan row is still in progress. */
module Shadow {
  import opened Tables
  import opened TableLaws

  /** A scan in flight: the tables it started from, its source and its scan row. */
  datatype Window = Window(base: Tables, sid: int, row: SourceRow, scanId: int)

  ghost predicate OpenScan(t: Tables, sid: int, scanId: int) {
    && scanId in t.scan
    && t.scan[scanId] == ScanRow(sid, InProgress)
    && forall s <- t.scan :: t.scan[s].sourceId == sid ==> s == scanId
  }

  ghost predicate IsShadow(t: Tables, w: Window) {
    && Wf(t)
    && Without(t, {w.sid}) == w.base
    && w.sid in t.source
    && t.source[w.sid] == w.row
    && OpenScan(t, w.sid, w.scanId)
  }

  // ---------------------------------------------------------------- write order

  /** The entries of d are the entries of t up to some row id: what was inserted first. */
  ghost predicate PrefixOf(d: Tables, t: Tables) {
    && (forall e <- d.entry :: e in t.entry && t.entry[e] == d.entry[e])
    && (forall e <- t.entry, k <- d.entry :: e !in d.entry ==> k < e)
  }

  /** An entry of d has its index row in d if it ever gets one. */
  ghost predicate IndexedTogether(d: Tables, t: Tables) {
    forall f <- t.fts :: f in d.entry ==> f in d.fts && d.fts[f] == t.fts[f]
  }

  ghost function Physical(t: Tables, sid: int): set<int> {
    set e | e in t.entry && t.entry[e].sourceId == sid && !t.entry[e].isVirtual
  }

  ghost predicate FullyIndexed(t: Tables, sid: int) {
    forall e <- t.entry :: t.entry[e].sourceId == sid ==> e in t.fts
  }

  lemma PrefixOfSelf(t: Tables)
    ensures PrefixOf(t, t) && IndexedTogether(t, t)
  {
  }

  // ---------------------------------------------------------------- one write

  lemma NewEntry(t: Tables, w: Window, id: int, row: EntryRow)
    requires IsShadow(t, w) && IsNextId(t.entry.Keys, id)
    requires row.sourceId == w.sid && FitsUnder(t, row)
    ensures id !in t.entry && id !in t.fts
    ensures IsShadow(InsertEntry(t, id, row), w)
  {
    InsertEntryKeeps(t, id, row);
    hide Wf, Without;
  }

  lemma NewEntryComesLast(t: Tables, sid: int, id: int, row: EntryRow)
    requires IsNextId(t.entry.Keys, id) && row.sourceId == sid
    ensures forall d :: PrefixOf(d, t) ==> PrefixOf(d, InsertEntry(t, id, row)) && id !in d.entry
    ensures forall d :: IndexedTogether(d, t) ==> IndexedTogether(d, InsertEntry(t, id, row))
    ensures Physical(InsertEntry(t, id, row), sid) == Physical(t, sid) + (if row.isVirtual then {} else {id})
  {
  }

  lemma NewIndexRow(t: Tables, w: Window, e: int, row: FtsRow)
    requires IsShadow(t, w) && e in t.entry && t.entry[e].sourceId == w.sid && e !in t.fts && row.name == t.entry[e].name
    ensures IsShadow(InsertFts(t, e, row), w)
    ensures forall d :: IndexedTogether(d, t) && e !in d.entry ==> IndexedTogether(d, InsertFts(t, e, row))
  {
    InsertFtsKeeps(t, e, row);
    hide Wf, Without;
  }

  lemma NewContainer(t: Tables, w: Window, id: int, e: int)
    requires IsShadow(t, w) && e in t.entry && t.entry[e].sourceId == w.sid && IsNextId(t.container.Keys, id)
    ensures IsShadow(InsertContainer(t, id, ContainerRow(e)), w)
  {
    InsertContainerKeeps(t, id, e);
    hide Wf, Without;
  }

  lemma NewChecksum(t: Tables, w: Window, key: ChecksumKey, digest: seq<bv8>)
    requires IsShadow(t, w) && key.entryId in t.entry && t.entry[key.entryId].sourceId == w.sid
    ensures IsShadow(PutChecksum(t, key, digest), w)
  {
    PutChecksumKeeps(t, key, digest);
    hide Wf, Without;
  }

  /** The source row and the scan row open the window. */
  lemma WindowOpens(t: Tables, sid: int, row: SourceRow, scanId: int)
    requires Wf(t) && IsNextId(t.source.Keys, sid)
    requires IsNextId(t.scan.Keys, scanId)
    ensures sid !in t.source
    ensures var s := InsertSource(t, sid, row);
            && Wf(s) && Without(s, {sid}) == t
            && IsShadow(InsertScan(s, scanId, ScanRow(sid, InProgress)), Window(t, sid, row, scanId))
  {
    InsertSourceKeeps(t, sid, row);
    InsertScanKeeps(InsertSource(t, sid, row), scanId, ScanRow(sid, InProgress));
    assert forall s <- t.scan :: t.scan[s].sourceId != sid;
    hide Wf, Without, Physical, FullyIndexed;
  }

  /** Nothing is in it yet. */
  lemma WindowIsEmpty(t: Tables, sid: int, row: SourceRow, scanId: int)
    requires Wf(t) && sid !in t.source
    ensures var d := InsertScan(InsertSource(t, sid, row), scanId, ScanRow(sid, InProgress));
            Physical(d, sid) == {} && FullyIndexed(d, sid)
  {
    assert forall e <- t.entry :: t.entry[e].sourceId != sid;
    hide Wf;
  }
}
