/** What the table operations keep: the algebra of removal, and the catalog
    invariant under every insert, every prefix of a tree's removal and a removal. */
module TableLaws {
  import opened Tables

  // ---------------------------------------------------------------- paths depend on ancestors only

  lemma {:induction false} PathOfSubset(small: Entries, big: Entries, e: int)
    requires ParentsEarlier(small) && ParentsEarlier(big)
    requires forall k <- small :: k in big && big[k] == small[k]
    requires e in small
    ensures PathOf(small, e) == PathOf(big, e)
    decreases e
  {
    if small[e].parentId != 0 {
      PathOfSubset(small, big, small[e].parentId);
    }
  }

  // ---------------------------------------------------------------- removal

  lemma EntriesWithoutKeepsParents(entry: Entries, ss: set<int>)
    requires ParentsEarlier(entry)
    ensures ParentsEarlier(EntriesWithout(entry, ss))
  {
    var rest := EntriesWithout(entry, ss);
    forall e <- rest
      ensures e >= 1
      ensures rest[e].parentId == 0 ||
              (rest[e].parentId in rest && rest[e].parentId < e
               && rest[rest[e].parentId].sourceId == rest[e].sourceId)
    {
      assert e in entry && rest[e] == entry[e];
    }
  }

  /** Removing source trees keeps the invariant: nothing is left dangling. */
  lemma WithoutKeepsWf(t: Tables, ss: set<int>)
    requires Wf(t)
    ensures Wf(Without(t, ss))
  {
    EntriesWithoutKeepsParents(t.entry, ss);
    assert References(Without(t, ss));
  }

  /** And what is left of the index still agrees. */
  lemma WithoutKeepsAgreement(t: Tables, ss: set<int>)
    requires Agrees(t)
    ensures Agrees(Without(t, ss))
  {
    WithoutKeepsWf(t, ss);
    FewerKeepAgreement(t, Without(t, ss));
  }

  /** Rows that stay agree as long as their entries and sources stay. */
  lemma FewerKeepAgreement(t: Tables, r: Tables)
    requires Agrees(t) && Wf(r)
    requires forall f <- r.fts :: f in t.fts && r.fts[f] == t.fts[f]
    requires forall e <- r.entry :: e in t.entry && r.entry[e] == t.entry[e]
    requires forall s <- r.source :: s in t.source && r.source[s] == t.source[s]
    ensures Agrees(r)
  {
    forall f <- r.fts ensures r.fts[f] == AgreedRow(r, f) {
      PathOfSubset(r.entry, t.entry, f);
    }
  }

  lemma OwnedByEither(entry: Entries, a: set<int>, b: set<int>, e: int)
    ensures OwnedBy(entry, a + b, e) <==> OwnedBy(entry, a, e) || OwnedBy(EntriesWithout(entry, a), b, e)
  {
  }

  /** Removing one set of trees and then another removes both. */
  lemma WithoutTwice(t: Tables, a: set<int>, b: set<int>)
    ensures Without(Without(t, a), b) == Without(t, a + b)
  {
    assert t.source - a - b == t.source - (a + b);
    assert EntriesWithout(EntriesWithout(t.entry, a), b) == EntriesWithout(t.entry, a + b);
    assert ScansWithout(ScansWithout(t.scan, a), b) == ScansWithout(t.scan, a + b);
    DependentsTwice(t, a, b);
  }

  lemma DependentsTwice(t: Tables, a: set<int>, b: set<int>)
    ensures ContainersWithout(ContainersWithout(t.container, t.entry, a), EntriesWithout(t.entry, a), b) == ContainersWithout(t.container, t.entry, a + b)
    ensures ChecksumsWithout(ChecksumsWithout(t.checksum, t.entry, a), EntriesWithout(t.entry, a), b) == ChecksumsWithout(t.checksum, t.entry, a + b)
    ensures FtsWithout(FtsWithout(t.fts, t.entry, a), EntriesWithout(t.entry, a), b) == FtsWithout(t.fts, t.entry, a + b)
  {
    var r := Without(t, a);
    assert forall e :: OwnedBy(t.entry, a + b, e) <==> OwnedBy(t.entry, a, e) || OwnedBy(r.entry, b, e) by {
      forall e { OwnedByEither(t.entry, a, b, e); }
    }
    hide OwnedBy, EntriesWithout;
  }

  /** Only the sources that exist matter. */
  lemma WithoutIrrelevant(t: Tables, a: set<int>, b: set<int>)
    requires References(t)
    requires forall s <- t.source :: s in a <==> s in b
    ensures Without(t, a) == Without(t, b)
  {
    assert forall s <- t.source - a :: s in t.source && s in t.source - b;
    assert forall s <- t.source - b :: s in t.source && s in t.source - a;
    assert t.source - a == t.source - b;
    assert forall e <- t.entry :: t.entry[e].sourceId in a <==> t.entry[e].sourceId in b;
    assert EntriesWithout(t.entry, a) == EntriesWithout(t.entry, b);
    assert forall s <- t.scan :: t.scan[s].sourceId in a <==> t.scan[s].sourceId in b;
    assert ScansWithout(t.scan, a) == ScansWithout(t.scan, b);
    assert forall e :: OwnedBy(t.entry, a, e) <==> OwnedBy(t.entry, b, e);
    assert ContainersWithout(t.container, t.entry, a) == ContainersWithout(t.container, t.entry, b);
    assert ChecksumsWithout(t.checksum, t.entry, a) == ChecksumsWithout(t.checksum, t.entry, b);
    assert FtsWithout(t.fts, t.entry, a) == FtsWithout(t.fts, t.entry, b);
  }

  lemma WithoutNothing(t: Tables, ss: set<int>)
    requires References(t) && ss !! t.source.Keys
    ensures Without(t, ss) == t
  {
    WithoutIrrelevant(t, ss, {});
    assert t.source - {} == t.source;
    assert EntriesWithout(t.entry, {}) == t.entry;
    assert forall c <- t.container :: !OwnedBy(t.entry, {}, t.container[c].entryId);
    assert ContainersWithout(t.container, t.entry, {}) == t.container;
    assert ChecksumsWithout(t.checksum, t.entry, {}) == t.checksum;
    assert ScansWithout(t.scan, {}) == t.scan;
    assert FtsWithout(t.fts, t.entry, {}) == t.fts;
  }

  // ---------------------------------------------------------------- the six deletes

  /** The tables after n deletes, table by table. */
  lemma {:induction false} AfterDeletesByTable(t: Tables, sid: int, n: nat)
    requires n <= 6
    ensures AfterDeletes(t, sid, n) ==
            var r := Without(t, {sid});
            Tables(if n >= 6 then r.source else t.source,
                   if n >= 4 then r.entry else t.entry,
                   if n >= 2 then r.container else t.container,
                   if n >= 1 then r.checksum else t.checksum,
                   if n >= 5 then r.scan else t.scan,
                   if n >= 3 then r.fts else t.fts)
  {
    if n > 0 {
      AfterDeletesByTable(t, sid, n - 1);
    }
  }

  /** The six deletes together remove exactly the rows of the tree: no other source loses a row. */
  lemma SixDeletesRemoveTheTree(t: Tables, sid: int)
    ensures AfterDeletes(t, sid, 6) == Without(t, {sid})
  {
    AfterDeletesByTable(t, sid, 6);
  }

  /** However far the removal got, the invariant holds and only rows of that tree are gone. */
  lemma DeletesTouchOneTree(t: Tables, sid: int, n: nat, ss: set<int>)
    requires Wf(t) && n <= 6 && sid in ss
    ensures Wf(AfterDeletes(t, sid, n))
    ensures Without(AfterDeletes(t, sid, n), ss) == Without(t, ss)
  {
    AfterDeletesByTable(t, sid, n);
    var d := AfterDeletes(t, sid, n);
    var r := Without(t, {sid});
    WithoutKeepsWf(t, {sid});
    assert d.entry == t.entry || d.entry == r.entry;
    assert References(d);
    assert IndexPoints(d) by {
      forall f <- d.fts ensures f in d.entry {
        if n >= 4 {
          assert f in r.fts;
        }
      }
    }
    SameRest(t, sid, n, ss);
  }

  lemma DeletesKeepAgreement(t: Tables, sid: int, n: nat)
    requires Agrees(t) && n <= 6
    ensures Agrees(AfterDeletes(t, sid, n))
  {
    DeletesTouchOneTree(t, sid, n, {sid});
    AfterDeletesByTable(t, sid, n);
    FewerKeepAgreement(t, AfterDeletes(t, sid, n));
  }

  lemma SameRest(t: Tables, sid: int, n: nat, ss: set<int>)
    requires n <= 6 && sid in ss
    ensures Without(AfterDeletes(t, sid, n), ss) == Without(t, ss)
  {
    AfterDeletesByTable(t, sid, n);
    assert t.source - {sid} - ss == t.source - ss;
    assert EntriesWithout(EntriesWithout(t.entry, {sid}), ss) == EntriesWithout(t.entry, ss);
    assert ScansWithout(ScansWithout(t.scan, {sid}), ss) == ScansWithout(t.scan, ss);
    DependentsTwice(t, {sid}, ss);
    assert {sid} + ss == ss;
    DependentsOfTheSameEntries(t, sid, ss);
  }

  lemma DependentsOfTheSameEntries(t: Tables, sid: int, ss: set<int>)
    requires sid in ss
    ensures ContainersWithout(ContainersWithout(t.container, t.entry, {sid}), t.entry, ss) == ContainersWithout(t.container, t.entry, ss)
    ensures ChecksumsWithout(ChecksumsWithout(t.checksum, t.entry, {sid}), t.entry, ss) == ChecksumsWithout(t.checksum, t.entry, ss)
    ensures FtsWithout(FtsWithout(t.fts, t.entry, {sid}), t.entry, ss) == FtsWithout(t.fts, t.entry, ss)
  {
    assert forall e :: OwnedBy(t.entry, {sid}, e) ==> OwnedBy(t.entry, ss, e);
    hide OwnedBy;
  }

  // ---------------------------------------------------------------- inserts

  /** A child goes under an entry of its own source; row id 0 stands for NULL. */
  ghost predicate FitsUnder(t: Tables, row: EntryRow) {
    && row.sourceId in t.source
    && row.name != ""
    && (row.parentId == 0 ||
        (row.parentId in t.entry && t.entry[row.parentId].sourceId == row.sourceId))
  }

  lemma InsertEntryKeeps(t: Tables, id: int, row: EntryRow)
    requires Wf(t) && IsNextId(t.entry.Keys, id) && FitsUnder(t, row)
    ensures id !in t.entry && id !in t.fts
    ensures Wf(InsertEntry(t, id, row))
    ensures Without(InsertEntry(t, id, row), {row.sourceId}) == Without(t, {row.sourceId})
  {
    var r := InsertEntry(t, id, row);
    assert id !in t.entry && id !in t.fts;
    assert EntriesWithout(r.entry, {row.sourceId}) == EntriesWithout(t.entry, {row.sourceId});
    NewEntryOwnsNothingYet(t, id, row);
    NewEntryKeepsWf(t, id, row);
    hide *;
  }

  lemma NewEntryKeepsWf(t: Tables, id: int, row: EntryRow)
    requires Wf(t) && IsNextId(t.entry.Keys, id) && FitsUnder(t, row)
    ensures Wf(InsertEntry(t, id, row))
  {
    var r := InsertEntry(t, id, row);
    assert ParentsEarlier(r.entry);
    assert References(r);
  }

  lemma NewEntryKeepsAgreement(t: Tables, id: int, row: EntryRow)
    requires Agrees(t) && IsNextId(t.entry.Keys, id) && FitsUnder(t, row)
    ensures Agrees(InsertEntry(t, id, row))
  {
    var r := InsertEntry(t, id, row);
    NewEntryKeepsWf(t, id, row);
    forall f <- r.fts ensures r.fts[f] == AgreedRow(r, f) {
      PathOfSubset(t.entry, r.entry, f);
    }
  }

  /** Whatever else is added, the index goes on agreeing. */
  lemma OtherRowsKeepAgreement(t: Tables, r: Tables)
    requires Agrees(t) && Wf(r) && r.fts == t.fts && r.entry == t.entry
    requires forall s <- t.source :: s in r.source && r.source[s] == t.source[s]
    ensures Agrees(r)
  {
    assert forall f <- t.entry :: AgreedRow(r, f) == AgreedRow(t, f);
    hide Wf;
  }

  lemma NewEntryOwnsNothingYet(t: Tables, id: int, row: EntryRow)
    requires Wf(t) && id !in t.entry
    ensures var r, ss := InsertEntry(t, id, row), {row.sourceId};
            && ContainersWithout(r.container, r.entry, ss) == ContainersWithout(t.container, t.entry, ss)
            && ChecksumsWithout(r.checksum, r.entry, ss) == ChecksumsWithout(t.checksum, t.entry, ss)
            && FtsWithout(r.fts, r.entry, ss) == FtsWithout(t.fts, t.entry, ss)
  {
    var r, ss := InsertEntry(t, id, row), {row.sourceId};
    assert forall e <- t.entry :: OwnedBy(r.entry, ss, e) <==> OwnedBy(t.entry, ss, e);
    assert forall c <- t.container :: OwnedBy(r.entry, ss, t.container[c].entryId) <==> OwnedBy(t.entry, ss, t.container[c].entryId);
    assert forall k <- t.checksum :: OwnedBy(r.entry, ss, k.entryId) <==> OwnedBy(t.entry, ss, k.entryId);
    assert forall f <- t.fts :: OwnedBy(r.entry, ss, f) <==> OwnedBy(t.entry, ss, f);
    hide OwnedBy;
  }

  lemma InsertFtsKeeps(t: Tables, e: int, row: FtsRow)
    requires Wf(t) && e in t.entry && row.name == t.entry[e].name
    ensures Wf(InsertFts(t, e, row))
    ensures Without(InsertFts(t, e, row), {t.entry[e].sourceId}) == Without(t, {t.entry[e].sourceId})
  {
    var r, ss := InsertFts(t, e, row), {t.entry[e].sourceId};
    assert OwnedBy(t.entry, ss, e);
    assert FtsWithout(r.fts, r.entry, ss) == FtsWithout(t.fts, t.entry, ss);
  }

  /** The index goes on agreeing exactly when the new row is the one it should hold. */
  lemma NewIndexRowAgreesIff(t: Tables, e: int, row: FtsRow)
    requires Agrees(t) && e in t.entry && row.name == t.entry[e].name
    ensures Agrees(InsertFts(t, e, row)) <==> row == AgreedRow(t, e)
  {
    InsertFtsKeeps(t, e, row);
    var r := InsertFts(t, e, row);
    assert r.fts[e] == row && AgreedRow(r, e) == AgreedRow(t, e);
    assert forall f <- t.entry :: AgreedRow(r, f) == AgreedRow(t, f);
    hide Wf;
  }

  lemma InsertContainerKeeps(t: Tables, id: int, e: int)
    requires Wf(t) && e in t.entry && IsNextId(t.container.Keys, id)
    ensures Wf(InsertContainer(t, id, ContainerRow(e)))
    ensures Without(InsertContainer(t, id, ContainerRow(e)), {t.entry[e].sourceId}) == Without(t, {t.entry[e].sourceId})
  {
    var r, ss := InsertContainer(t, id, ContainerRow(e)), {t.entry[e].sourceId};
    assert OwnedBy(t.entry, ss, r.container[id].entryId);
    assert ContainersWithout(r.container, r.entry, ss) == ContainersWithout(t.container, t.entry, ss);
  }

  lemma PutChecksumKeeps(t: Tables, key: ChecksumKey, digest: seq<bv8>)
    requires Wf(t) && key.entryId in t.entry
    ensures Wf(PutChecksum(t, key, digest))
    ensures Without(PutChecksum(t, key, digest), {t.entry[key.entryId].sourceId}) == Without(t, {t.entry[key.entryId].sourceId})
  {
    var r, ss := PutChecksum(t, key, digest), {t.entry[key.entryId].sourceId};
    assert OwnedBy(t.entry, ss, key.entryId);
    assert ChecksumsWithout(r.checksum, r.entry, ss) == ChecksumsWithout(t.checksum, t.entry, ss);
  }

  lemma InsertSourceKeeps(t: Tables, id: int, row: SourceRow)
    requires Wf(t) && IsNextId(t.source.Keys, id)
    ensures id !in t.source
    ensures Wf(InsertSource(t, id, row))
    ensures Without(InsertSource(t, id, row), {id}) == t
  {
    var r := InsertSource(t, id, row);
    assert id !in t.source;
    WithoutNothing(t, {id});
    assert r.source - {id} == t.source;
  }

  lemma InsertScanKeeps(t: Tables, id: int, row: ScanRow)
    requires Wf(t) && row.sourceId in t.source && IsNextId(t.scan.Keys, id)
    ensures Wf(InsertScan(t, id, row))
    ensures Without(InsertScan(t, id, row), {row.sourceId}) == Without(t, {row.sourceId})
  {
    var r := InsertScan(t, id, row);
    assert ScansWithout(r.scan, {row.sourceId}) == ScansWithout(t.scan, {row.sourceId});
  }

  lemma CloseScanKeeps(t: Tables, id: int, status: ScanStatus)
    requires Wf(t) && id in t.scan
    ensures Wf(CloseScan(t, id, status))
    ensures Without(CloseScan(t, id, status), {t.scan[id].sourceId}) == Without(t, {t.scan[id].sourceId})
  {
    var r := CloseScan(t, id, status);
    var ss := {t.scan[id].sourceId};
    assert ScansWithout(r.scan, ss) == ScansWithout(t.scan, ss);
  }

  // ---------------------------------------------------------------- which rows go

  /** Table by table: the rows of the sources named go, by their source or by the entry they belong to, and no
      others; what stays is unchanged. */
  lemma WithoutRows(t: Tables, ss: set<int>)
    ensures var r := Without(t, ss);
            && (forall s :: s in r.source <==> s in t.source && s !in ss)
            && (forall e :: e in r.entry <==> e in t.entry && t.entry[e].sourceId !in ss)
            && (forall c :: c in r.container <==> c in t.container && !BelongsTo(t, ss, t.container[c].entryId))
            && (forall k :: k in r.checksum <==> k in t.checksum && !BelongsTo(t, ss, k.entryId))
            && (forall f :: f in r.fts <==> f in t.fts && !BelongsTo(t, ss, f))
            && (forall s :: s in r.scan <==> s in t.scan && t.scan[s].sourceId !in ss)
    ensures SomeRows(Without(t, ss), t)
  {
  }

  ghost predicate BelongsTo(t: Tables, ss: set<int>, e: int) {
    e in t.entry && t.entry[e].sourceId in ss
  }

  /** Some of the rows, as they are. */
  ghost predicate SomeRows(r: Tables, t: Tables) {
    && (forall s <- r.source :: s in t.source && r.source[s] == t.source[s])
    && (forall e <- r.entry :: e in t.entry && r.entry[e] == t.entry[e])
    && (forall c <- r.container :: c in t.container && r.container[c] == t.container[c])
    && (forall k <- r.checksum :: k in t.checksum && r.checksum[k] == t.checksum[k])
    && (forall f <- r.fts :: f in t.fts && r.fts[f] == t.fts[f])
    && (forall s <- r.scan :: s in t.scan && r.scan[s] == t.scan[s])
  }

  // ---------------------------------------------------------------- what a path says

  /** The names from the root down to an entry. */
  ghost function NamesDown(entry: Entries, e: int): seq<string>
    requires ParentsEarlier(entry)
    decreases if e in entry then e else 0
  {
    if e !in entry then []
    else if entry[e].parentId == 0 then [entry[e].name]
    else NamesDown(entry, entry[e].parentId) + [entry[e].name]
  }

  /** The pieces of a text between its slashes. */
  ghost function Pieces(text: string): (pieces: seq<string>)
    ensures pieces != []
  {
    if text == "" then [""]
    else
      var rest := Pieces(text[1..]);
      if text[0] == '/' then [""] + rest else [[text[0]] + rest[0]] + rest[1..]
  }

  /** A path says all the names and nothing else: cut at the slashes, it gives them back from the root down. */
  lemma {:induction false} PathSaysTheNames(entry: Entries, e: int)
    requires ParentsEarlier(entry) && e in entry
    requires forall x <- entry :: entry[x].name != "" && '/' !in entry[x].name
    ensures PathOf(entry, e) != "" && Pieces(PathOf(entry, e)) == NamesDown(entry, e)
    decreases e
  {
    var name, up := entry[e].name, entry[e].parentId;
    if up == 0 {
      PlainPiece(name);
    } else {
      PathSaysTheNames(entry, up);
      OneMorePiece(PathOf(entry, up), name);
    }
  }

  lemma {:induction false} PlainPiece(name: string)
    requires '/' !in name
    ensures Pieces(name) == [name]
  {
    if name != "" {
      PlainPiece(name[1..]);
      assert [name[0]] + name[1..] == name;
    }
  }

  lemma {:induction false} OneMorePiece(text: string, name: string)
    requires '/' !in name
    ensures Pieces(text + "/" + name) == Pieces(text) + [name]
  {
    var whole := text + "/" + name;
    if text == "" {
      assert whole[0] == '/' && whole[1..] == name;
      PlainPiece(name);
    } else {
      assert whole[0] == text[0] && whole[1..] == text[1..] + "/" + name;
      OneMorePiece(text[1..], name);
    }
  }
}
