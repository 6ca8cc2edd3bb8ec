/** Rebuilding the full-text index of an older catalog: the recursive query that walks the tree from its
    roots, against the walk from an entry up to its root. */
module FtsRebuild {
  import opened Tables
  import opened Catalog

  /** A row of the recursive query's result. */
  datatype PathRow = PathRow(id: int, path: string)

  /** The path the query builds: the root's name, then always a separator before the next name. */
  ghost function QueryPath(entry: Entries, e: int): string
    requires ParentsEarlier(entry) && e in entry
    decreases e
  {
    if entry[e].parentId == 0 then entry[e].name
    else QueryPath(entry, entry[e].parentId) + "/" + entry[e].name
  }

  ghost function RootOf(entry: Entries, e: int): (r: int)
    requires ParentsEarlier(entry) && e in entry
    ensures r in entry && entry[r].parentId == 0
    decreases e
  {
    if entry[e].parentId == 0 then e else RootOf(entry, entry[e].parentId)
  }

  /** The two walks agree on an entry exactly when it is a root or its root has a name: below a
      nameless root the query starts with a separator and the upward walk does not. */
  lemma {:induction false} WalksAgreeIff(entry: Entries, e: int)
    requires ParentsEarlier(entry) && e in entry
    ensures QueryPath(entry, e) == PathOf(entry, e) <==> entry[e].parentId == 0 || entry[RootOf(entry, e)].name != ""
    ensures entry[RootOf(entry, e)].name != "" ==> PathOf(entry, e) != ""
    ensures entry[RootOf(entry, e)].name == "" && entry[e].parentId != 0 ==> |PathOf(entry, e)| < |QueryPath(entry, e)|
    decreases e
  {
    if entry[e].parentId != 0 {
      WalksAgreeIff(entry, entry[e].parentId);
    }
  }

  /** The entries whose parent is p, in whatever order the join delivers them. */
  method ChildrenOf(entry: Entries, p: int) returns (ids: seq<int>)
    ensures forall i :: i in ids <==> i in entry && entry[i].parentId == p
    ensures forall i, j | 0 <= i < j < |ids| :: ids[i] != ids[j]
  {
    ids := [];
    var rest := entry.Keys;
    while rest != {}
      invariant rest <= entry.Keys
      invariant forall i :: i in ids <==> i in entry && i !in rest && entry[i].parentId == p
      invariant forall i, j | 0 <= i < j < |ids| :: ids[i] != ids[j]
      decreases rest
    {
      NonEmpty(rest);
      var k :| k in rest;
      if entry[k].parentId == p {
        ids := ids + [k];
      }
      rest := rest - {k};
    }
  }

  /** The query's second column for some children: their parent's path and a separator before the name. */
  method Rows(entry: Entries, ghost p: int, prefix: string, children: seq<int>) returns (next: seq<PathRow>)
    requires forall c :: c in children <==> c in entry && entry[c].parentId == p
    requires forall i, j | 0 <= i < j < |children| :: children[i] != children[j]
    ensures AreChildren(entry, p, prefix, children, next)
  {
    next := [];
    for i := 0 to |children|
      invariant |next| == i
      invariant forall k | 0 <= k < i :: children[k] in entry && next[k] == PathRow(children[k], prefix + entry[children[k]].name)
    {
      var c := children[i];
      assert c in children;
      assert c in entry;
      next := next + [PathRow(c, prefix + entry[c].name)];
    }
  }

  ghost function Ids(rows: seq<PathRow>): set<int> {
    set i | 0 <= i < |rows| :: rows[i].id
  }

  ghost predicate Distinct(rows: seq<PathRow>) {
    forall i, j | 0 <= i < j < |rows| :: rows[i].id != rows[j].id
  }

  ghost predicate RightPaths(entry: Entries, rows: seq<PathRow>)
    requires ParentsEarlier(entry)
  {
    forall i | 0 <= i < |rows| :: rows[i].id in entry && rows[i].path == QueryPath(entry, rows[i].id)
  }

  /** Every root is reached, and every child of a finished row. */
  ghost predicate Reached(entry: Entries, finished: set<int>, seen: set<int>) {
    forall e <- entry :: entry[e].parentId == 0 || entry[e].parentId in finished ==> e in seen
  }

  /** No row comes before its parent is finished. */
  ghost predicate Derived(entry: Entries, finished: set<int>, rows: seq<PathRow>) {
    forall i | 0 <= i < |rows| :: rows[i].id in entry && (entry[rows[i].id].parentId == 0 || entry[rows[i].id].parentId in finished)
  }

  lemma {:induction false} AllReached(entry: Entries, finished: set<int>, e: int)
    requires ParentsEarlier(entry) && Reached(entry, finished, finished) && e in entry
    ensures e in finished
    decreases e
  {
    if entry[e].parentId != 0 {
      AllReached(entry, finished, entry[e].parentId);
    }
  }

  /** The rows of a parent's children. */
  ghost predicate AreChildren(entry: Entries, p: int, prefix: string, children: seq<int>, next: seq<PathRow>) {
    && (forall c :: c in children <==> c in entry && entry[c].parentId == p)
    && (forall i, j | 0 <= i < j < |children| :: children[i] != children[j])
    && |next| == |children|
    && (forall i | 0 <= i < |next| :: children[i] in entry && next[i] == PathRow(children[i], prefix + entry[children[i]].name))
  }

  lemma ChildIds(entry: Entries, p: int, prefix: string, children: seq<int>, next: seq<PathRow>)
    requires AreChildren(entry, p, prefix, children, next)
    ensures Distinct(next)
    ensures forall c :: c in Ids(next) <==> c in entry && entry[c].parentId == p
  {
    forall c | c in entry && entry[c].parentId == p
      ensures c in Ids(next)
    {
      assert c in children;
      var i :| 0 <= i < |children| && children[i] == c;
      assert next[i].id == c;
    }
  }

  lemma StartOfQueue(entry: Entries, roots: seq<int>, queue: seq<PathRow>)
    requires ParentsEarlier(entry) && AreChildren(entry, 0, "", roots, queue)
    ensures Distinct(queue) && RightPaths(entry, queue)
    ensures Reached(entry, {}, Ids(queue)) && Derived(entry, {}, queue)
  {
    ChildIds(entry, 0, "", roots, queue);
    forall i | 0 <= i < |queue|
      ensures entry[queue[i].id].parentId == 0 && queue[i].path == QueryPath(entry, queue[i].id)
    {
      assert roots[i] in roots;
    }
  }

  lemma IdsOfConcat(a: seq<PathRow>, b: seq<PathRow>)
    ensures Ids(a + b) == Ids(a) + Ids(b)
  {
    forall k | k in Ids(a)
      ensures k in Ids(a + b)
    {
      var i :| 0 <= i < |a| && a[i].id == k;
      assert (a + b)[i].id == k;
    }
    forall k | k in Ids(b)
      ensures k in Ids(a + b)
    {
      var i :| 0 <= i < |b| && b[i].id == k;
      assert (a + b)[|a| + i].id == k;
    }
  }

  lemma QueueStep(entry: Entries, rows: seq<PathRow>, queue: seq<PathRow>, children: seq<int>, next: seq<PathRow>)
    requires ParentsEarlier(entry) && queue != []
    requires Distinct(rows + queue) && RightPaths(entry, rows + queue)
    requires Reached(entry, Ids(rows), Ids(rows + queue)) && Derived(entry, Ids(rows), rows + queue)
    requires AreChildren(entry, queue[0].id, queue[0].path + "/", children, next)
    ensures var rows', queue' := rows + [queue[0]], queue[1..] + next;
            && Distinct(rows' + queue') && RightPaths(entry, rows' + queue')
            && Reached(entry, Ids(rows'), Ids(rows' + queue')) && Derived(entry, Ids(rows'), rows' + queue')
    ensures queue[0].id in entry && queue[0].id !in Ids(rows)
    ensures Ids(rows + [queue[0]]) == Ids(rows) + {queue[0].id}
  {
    var row := queue[0];
    var rows' := rows + [row];
    var before := rows + queue;
    assert rows' + (queue[1..] + next) == before + next;
    assert before[|rows|] == row;
    forall i | 0 <= i < |rows|
      ensures rows[i].id != row.id
    {
      assert before[i] == rows[i];
    }
    ChildIds(entry, row.id, row.path + "/", children, next);
    IdsOfConcat(before, next);
    IdsOfConcat(rows, [row]);
    assert Ids([row]) == {row.id} by { assert [row][0].id in Ids([row]); }
    forall i, j | 0 <= i < |before| && 0 <= j < |next|
      ensures before[i].id != next[j].id
    {
      assert next[j].id in Ids(next);
      assert entry[before[i].id].parentId == 0 || entry[before[i].id].parentId in Ids(rows);
    }
    forall j | 0 <= j < |next|
      ensures next[j].path == QueryPath(entry, next[j].id)
    {
      assert next[j].id in Ids(next);
    }
  }

  /** WITH RECURSIVE ... UNION ALL: take a row from the queue, emit it, queue its children. */
  method EntryPaths(entry: Entries) returns (rows: seq<PathRow>)
    requires ParentsEarlier(entry)
    ensures Distinct(rows) && Ids(rows) == entry.Keys && RightPaths(entry, rows)
  {
    rows := [];
    var roots := ChildrenOf(entry, 0);
    var queue := Rows(entry, 0, "", roots);
    StartOfQueue(entry, roots, queue);
    assert [] + queue == queue && Ids(rows) == {};
    while queue != []
      invariant Distinct(rows + queue) && RightPaths(entry, rows + queue)
      invariant Reached(entry, Ids(rows), Ids(rows + queue)) && Derived(entry, Ids(rows), rows + queue)
      decreases entry.Keys - Ids(rows)
    {
      var row := queue[0];
      var children := ChildrenOf(entry, row.id);
      var next := Rows(entry, row.id, row.path + "/", children);
      QueueStep(entry, rows, queue, children, next);
      rows := rows + [row];
      queue := queue[1..] + next;
    }
    assert rows + queue == rows;
    forall e <- entry ensures e in Ids(rows) {
      AllReached(entry, Ids(rows), e);
    }
    assert Ids(rows) <= entry.Keys;
  }

  // ---------------------------------------------------------------- the new index

  /** The index holds for every entry the row of the upward walk, and nothing else. */
  ghost predicate FullIndex(t: Tables, fts: map<int, FtsRow>)
    requires Wf(t)
  {
    fts.Keys == t.entry.Keys && forall e <- t.entry :: fts[e] == AgreedRow(t, e)
  }

  /** Drop the old index and insert one row for each row of the query joined with its entry and source. */
  method RebuildIndex(t: Tables) returns (fts: map<int, FtsRow>)
    requires Wf(t.(fts := map[]))
    ensures FullIndex(t.(fts := map[]), fts)
  {
    hide Ids, Distinct, RightPaths, PathOf, QueryPath;
    var rows := EntryPaths(t.entry);
    fts := map[];
    NoIds();
    assert rows[..0] == [];
    for i := 0 to |rows|
      invariant fts.Keys == Ids(rows[..i])
      invariant forall e <- fts :: e in t.entry && fts[e] == AgreedRow(t, e)
    {
      IdsOfNext(rows, i);
      PathsAreRight(t.entry, rows, i);
      var e := rows[i].id;
      fts := fts[e := FtsRow(t.entry[e].name, rows[i].path, t.source[t.entry[e].sourceId].name)];
    }
    assert rows[..|rows|] == rows;
  }

  lemma NoIds()
    ensures Ids([]) == {}
  {
  }

  lemma IdsOfNext(rows: seq<PathRow>, i: nat)
    requires i < |rows|
    ensures Ids(rows[..i + 1]) == Ids(rows[..i]) + {rows[i].id}
  {
    assert rows[..i + 1] == rows[..i] + [rows[i]];
    IdsOfConcat(rows[..i], [rows[i]]);
    assert [rows[i]][0].id in Ids([rows[i]]);
  }

  lemma PathsAreRight(entry: Entries, rows: seq<PathRow>, i: nat)
    requires ParentsEarlier(entry) && RightPaths(entry, rows) && i < |rows|
    requires forall k <- entry :: entry[k].name != ""
    ensures rows[i].id in entry && rows[i].path == PathOf(entry, rows[i].id)
  {
    NamedRoots(entry, rows[i].id);
  }

  lemma NamedRoots(entry: Entries, e: int)
    requires ParentsEarlier(entry) && e in entry && forall k <- entry :: entry[k].name != ""
    ensures QueryPath(entry, e) == PathOf(entry, e)
  {
    WalksAgreeIff(entry, e);
  }

  /** Such an index is the one complete index that agrees with the entries: what a scan in which every index
      row was read and written would have left. */
  lemma RebuiltIndexAgrees(t: Tables, fts: map<int, FtsRow>)
    requires Wf(t.(fts := map[]))
    ensures FullIndex(t.(fts := map[]), fts) <==> fts.Keys == t.entry.Keys && Agrees(t.(fts := fts))
  {
    var r := t.(fts := fts);
    assert forall e <- t.entry :: AgreedRow(t.(fts := map[]), e) == AgreedRow(r, e);
  }
}
