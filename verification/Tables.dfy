/** The catalog's tables as values: rows, the schema's keys and references,
    the six deletes of a source tree, and the path of an entry. */
module Tables {

  datatype EntryType = File | Directory | Symlink | Other
  datatype ScanStatus = InProgress | Completed | Cancelled | Failed
  datatype Algorithm = Sha256 | Md5 | Crc32

  // Columns that no decision depends on (times, modes, JSON options) are left out.
  datatype SourceRow = SourceRow(name: string, path: string)
  datatype EntryRow = EntryRow(sourceId: int, parentId: int, name: string, kind: EntryType, size: int, isVirtual: bool)
  datatype ContainerRow = ContainerRow(entryId: int)
  datatype ScanRow = ScanRow(sourceId: int, status: ScanStatus)
  datatype FtsRow = FtsRow(name: string, path: string, sourceName: string)
  datatype ChecksumKey = ChecksumKey(entryId: int, algorithm: Algorithm)

  type Entries = map<int, EntryRow>
  type Checksums = map<ChecksumKey, seq<bv8>>

  datatype Tables = Tables(
    source: map<int, SourceRow>,
    entry: Entries,
    container: map<int, ContainerRow>,
    checksum: Checksums,
    scan: map<int, ScanRow>,
    fts: map<int, FtsRow>)

  /** The rowid SQLite gives to a new row of an INTEGER PRIMARY KEY table: one more than the largest. */
  ghost predicate IsNextId(keys: set<int>, id: int) {
    && id >= 1
    && (forall k <- keys :: k < id)
    && (id == 1 || id - 1 in keys)
  }

  // ---------------------------------------------------------------- references

  predicate EntryRefs(source: map<int, SourceRow>, entry: Entries) {
    forall e <- entry ::
      && entry[e].sourceId in source
      && (entry[e].parentId == 0 || entry[e].parentId in entry)
  }

  /** Every FOREIGN KEY of the schema points at a live row. */
  predicate References(t: Tables) {
    && EntryRefs(t.source, t.entry)
    && (forall c <- t.container :: t.container[c].entryId in t.entry)
    && (forall k <- t.checksum :: k.entryId in t.entry)
    && (forall s <- t.scan :: t.scan[s].sourceId in t.source)
  }

  // ---------------------------------------------------------------- the path of an entry

  /** A parent is an earlier row of the same source, so following parents ends. */
  ghost predicate ParentsEarlier(entry: Entries) {
    forall e <- entry ::
      && e >= 1
      && (entry[e].parentId == 0 ||
          (entry[e].parentId in entry && entry[e].parentId < e
           && entry[entry[e].parentId].sourceId == entry[e].sourceId))
  }

  /** Join two path parts; a separator goes in only after a non-empty prefix. */
  function Join(prefix: string, name: string): string {
    (if prefix == "" then "" else prefix + "/") + name
  }

  /** The path of an entry, read from its root down. */
  ghost function PathOf(entry: Entries, e: int): string
    requires ParentsEarlier(entry)
    decreases if e in entry then e else 0
  {
    if e !in entry then ""
    else if entry[e].parentId == 0 then entry[e].name
    else Join(PathOf(entry, entry[e].parentId), entry[e].name)
  }

  // ---------------------------------------------------------------- the catalog invariant

  /** An index row belongs to a live entry and carries its name. */
  ghost predicate IndexPoints(t: Tables) {
    forall f <- t.fts :: f in t.entry && t.fts[f].name == t.entry[f].name
  }

  /** The row the index should hold for an entry: its name, its path and its source's name. */
  ghost function AgreedRow(t: Tables, e: int): FtsRow
    requires ParentsEarlier(t.entry) && EntryRefs(t.source, t.entry) && e in t.entry
  {
    FtsRow(t.entry[e].name, PathOf(t.entry, e), t.source[t.entry[e].sourceId].name)
  }

  /** Every index row is the one its entry should have. */
  ghost predicate IndexAgrees(t: Tables)
    requires ParentsEarlier(t.entry) && EntryRefs(t.source, t.entry)
  {
    forall f <- t.fts :: f in t.entry && t.fts[f] == AgreedRow(t, f)
  }

  ghost predicate Wf(t: Tables) {
    && References(t)
    && ParentsEarlier(t.entry)
    && IndexPoints(t)
    && (forall s <- t.source :: s >= 1)
    && (forall s <- t.scan :: s >= 1)
    && (forall c <- t.container :: c >= 1)
    && (forall e <- t.entry :: t.entry[e].name != "")
  }

  /** A sound catalog with a faithful index. */
  ghost predicate Agrees(t: Tables) { Wf(t) && IndexAgrees(t) }

  // ---------------------------------------------------------------- removing source trees

  predicate OwnedBy(entry: Entries, ss: set<int>, e: int) {
    e in entry && entry[e].sourceId in ss
  }

  function EntriesWithout(entry: Entries, ss: set<int>): Entries {
    entry - set e | e in entry && entry[e].sourceId in ss
  }
  function ContainersWithout(container: map<int, ContainerRow>, entry: Entries, ss: set<int>): map<int, ContainerRow> {
    container - set c | c in container && OwnedBy(entry, ss, container[c].entryId)
  }
  function ChecksumsWithout(checksum: Checksums, entry: Entries, ss: set<int>): Checksums {
    checksum - set k | k in checksum && OwnedBy(entry, ss, k.entryId)
  }
  function FtsWithout(fts: map<int, FtsRow>, entry: Entries, ss: set<int>): map<int, FtsRow> {
    fts - set f | f in fts && OwnedBy(entry, ss, f)
  }
  function ScansWithout(scan: map<int, ScanRow>, ss: set<int>): map<int, ScanRow> {
    scan - set s | s in scan && scan[s].sourceId in ss
  }

  /** The tables without any row that belongs to a source in ss: what the rows of the others are. */
  function Without(t: Tables, ss: set<int>): Tables {
    Tables(t.source - ss, EntriesWithout(t.entry, ss), ContainersWithout(t.container, t.entry, ss),
           ChecksumsWithout(t.checksum, t.entry, ss), ScansWithout(t.scan, ss), FtsWithout(t.fts, t.entry, ss))
  }

  /** The k-th DELETE of a source tree's removal. */
  function DeleteStatement(t: Tables, sid: int, k: nat): Tables {
    match k
    case 0 => t.(checksum := ChecksumsWithout(t.checksum, t.entry, {sid}))
    case 1 => t.(container := ContainersWithout(t.container, t.entry, {sid}))
    case 2 => t.(fts := FtsWithout(t.fts, t.entry, {sid}))
    case 3 => t.(entry := EntriesWithout(t.entry, {sid}))
    case 4 => t.(scan := ScansWithout(t.scan, {sid}))
    case 5 => t.(source := t.source - {sid})
    case _ => t
  }

  /** The tables after the first n of the six DELETEs. */
  ghost function AfterDeletes(t: Tables, sid: int, n: nat): Tables {
    if n == 0 then t else DeleteStatement(AfterDeletes(t, sid, n - 1), sid, n - 1)
  }

  // ---------------------------------------------------------------- inserts and updates

  function InsertSource(t: Tables, id: int, row: SourceRow): Tables { t.(source := t.source[id := row]) }
  function InsertScan(t: Tables, id: int, row: ScanRow): Tables { t.(scan := t.scan[id := row]) }
  function InsertEntry(t: Tables, id: int, row: EntryRow): Tables { t.(entry := t.entry[id := row]) }
  function InsertFts(t: Tables, rowid: int, row: FtsRow): Tables { t.(fts := t.fts[rowid := row]) }
  function InsertContainer(t: Tables, id: int, row: ContainerRow): Tables { t.(container := t.container[id := row]) }

  /** INSERT OR REPLACE: one digest per entry and algorithm. */
  function PutChecksum(t: Tables, key: ChecksumKey, digest: seq<bv8>): Tables { t.(checksum := t.checksum[key := digest]) }

  /** UPDATE scan SET status ... WHERE id: no row, no change. */
  function CloseScan(t: Tables, id: int, status: ScanStatus): Tables {
    if id in t.scan then t.(scan := t.scan[id := t.scan[id].(status := status)]) else t
  }
}
