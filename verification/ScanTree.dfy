/** Writing one source's tree: the directory walk, its batches, its index rows,
    checksums and containers, and what every commit of it leaves in the file. */
module ScanTree {
  import opened Results
  import opened Tables
  import opened TableLaws
  import opened Connection
  import opened Catalog
  import opened Shadow
  import FileHash

  const BATCH_SIZE: nat := 1000

  /** How far a node's metadata can be read: completely, without the size, only what kind of node it is, or not
      even that. */
  datatype Metadata = Readable | NoSize | NoStatus | Unseen

  /** A directory entry as the file system delivers it. A file that does not open cannot be hashed. A node is an
      image when a container provider is found for it, by its extension or by probing its content; the provider
      writes its plan and then succeeds, or gives up. */
  datatype FsNode = FsNode(name: string, kind: EntryType, metadata: Metadata, content: seq<bv8>, opens: bool, isImage: bool,
                           plan: seq<VirtualStep>, expands: bool, children: seq<FsNode>)

  /** What a provider writes for an image, step by step: an entry below one it wrote before
      (number 0 is the image itself), or a nested container at one of them. Any provider's
      output is such a sequence. */
  datatype VirtualStep = AddVirtual(under: nat, name: string, kind: EntryType, size: int) | Nested(at: nat)

  datatype Options = Options(computeChecksum: bool, algorithms: seq<Algorithm>, maxContainerDepth: int)

  /** Set by a signal handler: it may turn on at any step and never turns off. */
  class CancellationManager {
    var cancelled: bool

    method IsCancelled() returns (b: bool)
      modifies this
      ensures b == cancelled && (old(cancelled) ==> cancelled)
    {
      if * {
        cancelled := true;
      }
      b := cancelled;
    }
  }

  // ---------------------------------------------------------------- what the file may hold

  /** Every state since the scan row became durable is a shadow of the tables before, in write order. */
  ghost predicate ShadowTrace(trace: seq<Tables>, from: nat, w: Window, t: Tables) {
    forall i | from <= i < |trace| :: IsShadow(trace[i], w) && PrefixOf(trace[i], t)
  }

  /** Commits fall on whole batches and never part an entry from its index row. */
  ghost predicate BatchTrace(trace: seq<Tables>, from: nat, w: Window, t: Tables) {
    forall i | from <= i < |trace| :: |Physical(trace[i], w.sid)| % 1000 == 0 && IndexedTogether(trace[i], t)
  }

  /** And without a fault, one commit for every thousand physical entries, each indexed. */
  ghost predicate SteadyTrace(trace: seq<Tables>, from: nat, w: Window) {
    forall i | from <= i < |trace| :: FullyIndexed(trace[i], w.sid) && |Physical(trace[i], w.sid)| == 1000 * (i - from)
  }

  /** f0 counts the faults before the scan. A BEGIN that fails between batches leaves the scan
      writing without a transaction; until then commits are batches. */
  ghost predicate Writing(c: State, w: Window, from: nat, f0: nat) {
    && Consistent(c)
    && from < |c.trace|
    && IsShadow(c.work, w)
    && ShadowTrace(c.trace, from, w, c.work)
    && (c.inTxn ==> BatchTrace(c.trace, from, w, c.work))
    && f0 <= c.faults
    && (c.faults == f0 ==> c.inTxn && SteadyTrace(c.trace, from, w))
  }

  /** One statement inside the window. */
  lemma StatementKeepsWriting(c: State, d: State, w: Window, from: nat, f0: nat, next: Tables, ok: bool)
    requires Writing(c, w, from, f0) && Executed(c, d, next, ok)
    requires IsShadow(next, w) && PrefixOf(c.work, next)
    requires forall t :: PrefixOf(t, c.work) ==> PrefixOf(t, next)
    requires c.inTxn ==>
      forall i | from <= i < |c.trace| :: IndexedTogether(c.trace[i], c.work) ==> IndexedTogether(c.trace[i], next)
    ensures Writing(d, w, from, f0)
    ensures (Agrees(c.work) ==> Agrees(next)) ==> Grew(c, d)
  {
    PrefixOfSelf(next);
    PrefixOfSelf(c.work);
    hide IsShadow, PrefixOf, IndexedTogether, FullyIndexed, Physical, References, Agrees;
  }

  /** The index of every state goes on agreeing with its entries as long as no read for an index row fails. */
  ghost predicate KeepsAgreement(c: State, d: State) {
    && c.misreads <= d.misreads && d.misreads - c.misreads <= d.faults - c.faults
    && (d.misreads == c.misreads && Agrees(c.work) && Agrees(c.durable) ==>
          && Agrees(d.work) && Agrees(d.durable)
          && forall i | |c.trace| <= i < |d.trace| :: Agrees(d.trace[i]))
  }

  /** Nothing that was there has changed: the trace went on and the tree grew. */
  ghost predicate Grew(c: State, d: State) {
    && c.faults <= d.faults
    && |c.trace| <= |d.trace|
    && d.trace[..|c.trace|] == c.trace
    && PrefixOf(c.work, d.work)
    && KeepsAgreement(c, d)
  }

  lemma AgreementTwice(a: State, b: State, c: State)
    requires KeepsAgreement(a, b) && KeepsAgreement(b, c)
    requires |a.trace| <= |b.trace| <= |c.trace| && c.trace[..|b.trace|] == b.trace
    ensures KeepsAgreement(a, c)
  {
    hide Agrees;
    forall i | |a.trace| <= i < |c.trace| && c.misreads == a.misreads && Agrees(a.work) && Agrees(a.durable)
      ensures Agrees(c.trace[i])
    {
      if i < |b.trace| {
        assert c.trace[i] == c.trace[..|b.trace|][i];
      }
    }
  }

  lemma GrewTwice(a: State, b: State, c: State)
    requires Grew(a, b) && Grew(b, c)
    ensures Grew(a, c)
  {
    AgreementTwice(a, b, c);
    hide Agrees;
    PrefixOfTwice(a.work, b.work, c.work);
    assert c.trace[..|b.trace|][..|a.trace|] == c.trace[..|a.trace|];
  }

  lemma PrefixOfTwice(a: Tables, b: Tables, c: Tables)
    requires PrefixOf(a, b) && PrefixOf(b, c)
    ensures PrefixOf(a, c)
  {
    forall e <- c.entry, k <- a.entry | e !in a.entry
      ensures k < e
    {
      assert k in b.entry;
    }
  }

  // ---------------------------------------------------------------- the directory tree

  /** Nameless nodes are passed over, and so are those of which nothing can be read. */
  predicate Seen(node: FsNode) { node.name != "" && !node.metadata.Unseen? }

  /** What the summary of a scan reports: entries, files, directories, errors. */
  datatype Totals = Totals(entries: nat, files: nat, dirs: nat, errors: nat)

  function Plus(a: Totals, b: Totals): Totals {
    Totals(a.entries + b.entries, a.files + b.files, a.dirs + b.dirs, a.errors + b.errors)
  }

  function One(b: bool): nat { if b then 1 else 0 }

  /** The files of which a digest was asked for and that do not open. */
  predicate Unhashed(node: FsNode, options: Options) {
    options.computeChecksum && options.algorithms != [] && !node.opens
  }

  predicate Unexpanded(node: FsNode, options: Options) {
    node.isImage && options.maxContainerDepth >= 1 && !node.expands
  }

  /** What a listing comes to when no statement fails. */
  function Tally(nodes: seq<FsNode>, options: Options): Totals
    decreases nodes
  {
    if nodes == [] then Totals(0, 0, 0, 0) else Plus(NodeTally(nodes[0], options), Tally(nodes[1..], options))
  }

  function NodeTally(node: FsNode, options: Options): Totals
    decreases node
  {
    if !Seen(node) then Totals(0, 0, 0, One(node.name != ""))
    else if node.kind.Directory? then Plus(Totals(1, 0, 1, 0), Tally(node.children, options))
    else if node.kind.File? then Totals(1, 1, 0, One(Unhashed(node, options)) + One(Unexpanded(node, options)))
    else Totals(1, 0, 0, 0)
  }

  lemma PlusNothing(a: Totals, options: Options)
    ensures Plus(a, Tally([], options)) == a
  {
  }

  lemma PlusTwice(a: Totals, b: Totals, c: Totals)
    ensures Plus(Plus(a, b), c) == Plus(a, Plus(b, c))
  {
  }

  lemma TallyOfNext(nodes: seq<FsNode>, options: Options, i: nat)
    requires i < |nodes|
    ensures Tally(nodes[..i + 1], options) == Plus(Tally(nodes[..i], options), NodeTally(nodes[i], options))
    decreases i
  {
    hide NodeTally;
    if i > 0 {
      TallyOfNext(nodes[1..], options, i - 1);
      assert nodes[..i][1..] == nodes[1..][..i - 1];
      assert nodes[..i + 1][1..] == nodes[1..][..i];
    } else {
      assert nodes[..1][1..] == [];
    }
  }

  /** All nodes of a tree, each before what lies below it; below what is no directory or not seen lies nothing. */
  ghost function Flat(nodes: seq<FsNode>): seq<FsNode>
    decreases nodes
  {
    if nodes == [] then []
    else [nodes[0]] + (if nodes[0].kind.Directory? && Seen(nodes[0]) then Flat(nodes[0].children) else []) + Flat(nodes[1..])
  }

  /** What a node may be counted as. */
  datatype Column = Entries | Files | Directories | Unreadable | NotHashed | NotExpanded

  ghost predicate Belongs(n: FsNode, c: Column, o: Options) {
    n.name != "" &&
    match c
    case Entries => n.metadata != Unseen
    case Files => n.metadata != Unseen && n.kind == File
    case Directories => n.metadata != Unseen && n.kind == Directory
    case Unreadable => n.metadata == Unseen
    case NotHashed => n.metadata != Unseen && n.kind == File && o.computeChecksum && o.algorithms != [] && !n.opens
    case NotExpanded => n.metadata != Unseen && n.kind == File && n.isImage && o.maxContainerDepth >= 1 && !n.expands
  }

  ghost function Count(nodes: seq<FsNode>, c: Column, o: Options): nat {
    if nodes == [] then 0 else (if Belongs(nodes[0], c, o) then 1 else 0) + Count(nodes[1..], c, o)
  }

  lemma {:induction false} CountConcat(a: seq<FsNode>, b: seq<FsNode>, c: Column, o: Options)
    ensures Count(a + b, c, o) == Count(a, c, o) + Count(b, c, o)
  {
    hide Belongs;
    if a == [] {
      assert a + b == b;
    } else {
      assert (a + b)[0] == a[0] && (a + b)[1..] == a[1..] + b;
      CountConcat(a[1..], b, c, o);
    }
  }

  /** The totals of a tree are counts of its nodes: those with a name and something to read of them are entries; those
      with a name and nothing to read of them are errors, and so are files that should be hashed and do not open, and
      images that should be expanded and are given up. */
  lemma {:induction false} TallyCounts(nodes: seq<FsNode>, o: Options)
    ensures var all, t := Flat(nodes), Tally(nodes, o);
            && t.entries == Count(all, Entries, o) && t.files == Count(all, Files, o) && t.dirs == Count(all, Directories, o)
            && t.errors == Count(all, Unreadable, o) + Count(all, NotHashed, o) + Count(all, NotExpanded, o)
    decreases nodes
  {
    hide Count, Flat, Tally, NodeTally, Belongs, Seen;
    FlatIs(nodes, o);
    if nodes != [] {
      var n, rest := nodes[0], nodes[1..];
      var inside := n.kind.Directory? && Seen(n);
      var below := if inside then n.children else [];
      if inside {
        TallyCounts(n.children, o);
      } else {
        NoneCounted(o);
        FlatIs(below, o);
      }
      TallyCounts(rest, o);
      NodeCounts(n, below, o);
      FamilyCount(n, Flat(below), Flat(rest), Entries, o);
      FamilyCount(n, Flat(below), Flat(rest), Files, o);
      FamilyCount(n, Flat(below), Flat(rest), Directories, o);
      FamilyCount(n, Flat(below), Flat(rest), Unreadable, o);
      FamilyCount(n, Flat(below), Flat(rest), NotHashed, o);
      FamilyCount(n, Flat(below), Flat(rest), NotExpanded, o);
    } else {
      NoneCounted(o);
    }
  }

  lemma FlatIs(nodes: seq<FsNode>, o: Options)
    ensures if nodes == [] then Flat(nodes) == [] && Tally(nodes, o) == Totals(0, 0, 0, 0)
            else
              var below := if nodes[0].kind.Directory? && Seen(nodes[0]) then nodes[0].children else [];
              && Flat(nodes) == [nodes[0]] + Flat(below) + Flat(nodes[1..])
              && Tally(nodes, o) == Plus(NodeTally(nodes[0], o), Tally(nodes[1..], o))
  {
    hide NodeTally, Seen, Plus;
  }

  lemma NoneCounted(o: Options)
    ensures forall c: Column :: Count([], c, o) == 0
  {
  }

  ghost function Weight(n: FsNode, c: Column, o: Options): nat { if Belongs(n, c, o) then 1 else 0 }

  lemma NodeCounts(n: FsNode, below: seq<FsNode>, o: Options)
    requires below == if n.kind.Directory? && Seen(n) then n.children else []
    ensures var t, d := NodeTally(n, o), Tally(below, o);
            && t.entries == Weight(n, Entries, o) + d.entries && t.files == Weight(n, Files, o) + d.files
            && t.dirs == Weight(n, Directories, o) + d.dirs
            && t.errors == Weight(n, Unreadable, o) + Weight(n, NotHashed, o) + Weight(n, NotExpanded, o) + d.errors
  {
    NothingBelow(o);
    hide Tally;
    if !Seen(n) {
    } else if n.kind.Directory? {
    } else if n.kind.File? {
    }
  }

  lemma NothingBelow(o: Options)
    ensures Tally([], o) == Totals(0, 0, 0, 0)
  {
  }

  lemma FamilyCount(n: FsNode, below: seq<FsNode>, rest: seq<FsNode>, c: Column, o: Options)
    ensures Count([n] + below + rest, c, o) == Weight(n, c, o) + Count(below, c, o) + Count(rest, c, o)
  {
    hide Belongs;
    CountConcat([n] + below, rest, c, o);
    CountConcat([n], below, c, o);
    assert [n][1..] == [];
    assert Count([n], c, o) == (if Belongs(n, c, o) then 1 else 0) + Count([], c, o);
  }

  // ---------------------------------------------------------------- what a plan leaves in the tables

  /** The rows so far, the ids of what was written, and the next ids. */
  datatype Progress = Progress(entry: Entries, container: map<int, ContainerRow>, written: seq<int>,
                               nextEntry: int, nextContainer: int)

  ghost predicate IdsAreNext(p: Progress) {
    IsNextId(p.entry.Keys, p.nextEntry) && IsNextId(p.container.Keys, p.nextContainer)
  }

  /** One step of a plan, when nothing fails. */
  ghost function StepDone(p: Progress, sid: int, step: VirtualStep): Progress {
    match step
    case AddVirtual(under, name, kind, size) =>
      if under < |p.written| && name != "" then
        p.(entry := p.entry[p.nextEntry := EntryRow(sid, p.written[under], name, kind, size, true)],
           written := p.written + [p.nextEntry], nextEntry := p.nextEntry + 1)
      else p
    case Nested(at) =>
      if at < |p.written| then
        p.(container := p.container[p.nextContainer := ContainerRow(p.written[at])], nextContainer := p.nextContainer + 1)
      else p
  }

  ghost function PlanDone(p: Progress, sid: int, plan: seq<VirtualStep>): Progress {
    if plan == [] then p else StepDone(PlanDone(p, sid, plan[..|plan| - 1]), sid, plan[|plan| - 1])
  }

  /** Where a plan starts: at an image's entry. */
  ghost predicate StartsAt(p: Progress, t: Tables, e: int) {
    p.entry == t.entry && p.container == t.container && p.written == [e] && IdsAreNext(p)
  }

  ghost predicate HasRowsOf(t: Tables, p: Progress) {
    t.entry == p.entry && t.container == p.container
  }

  /** The image's own registration, then what its provider writes when expansion is on. */
  function ImageSteps(plan: seq<VirtualStep>, expand: bool): seq<VirtualStep> {
    [Nested(0)] + (if expand then plan else [])
  }

  /** What the steps so far have added: rows of the source, and containers at what the plan wrote. */
  ghost predicate Added(start: Progress, p: Progress, sid: int) {
    && IdsAreNext(p)
    && (forall k <- p.entry :: k in start.entry || p.entry[k].sourceId == sid)
    && (forall k <- start.entry :: k in p.entry)
    && (forall o <- p.written :: o in start.written || (o in p.entry && o !in start.entry))
    && (forall c <- p.container :: c in start.container || p.container[c].entryId in p.written)
  }

  lemma StepAdds(start: Progress, p: Progress, sid: int, step: VirtualStep)
    requires Added(start, p, sid)
    ensures Added(start, StepDone(p, sid, step), sid)
  {
  }

  lemma {:induction false} PlanAdds(start: Progress, sid: int, steps: seq<VirtualStep>)
    requires IdsAreNext(start)
    ensures Added(start, PlanDone(start, sid, steps), sid)
    decreases |steps|
  {
    hide StepDone;
    if steps != [] {
      hide Added;
      PlanAdds(start, sid, steps[..|steps| - 1]);
      StepAdds(start, PlanDone(start, sid, steps[..|steps| - 1]), sid, steps[|steps| - 1]);
    }
  }

  // ---------------------------------------------------------------- what is there for a listing

  /** Of the entry's content, the digests of these algorithms and no others. */
  ghost predicate HasDigests(t: Tables, e: int, algorithms: seq<Algorithm>, content: seq<bv8>) {
    forall a: Algorithm ::
      && (ChecksumKey(e, a) in t.checksum <==> a in algorithms)
      && (a in algorithms ==> t.checksum[ChecksumKey(e, a)] == FileHash.DigestOf(a, content))
  }

  function Chosen(node: FsNode, options: Options): seq<Algorithm> {
    if options.computeChecksum && node.opens then options.algorithms else []
  }

  /** The rows added between two points of a plan are in the tables. */
  ghost predicate HasAdded(t: Tables, start: Progress, p: Progress) {
    && (forall k <- p.entry :: k in start.entry || (k in t.entry && t.entry[k] == p.entry[k]))
    && (forall c <- p.container :: c in start.container || (c in t.container && t.container[c] == p.container[c]))
  }

  /** The rows of a plan for the image at e, under consecutive ids. */
  ghost predicate HasImage(t: Tables, sid: int, e: int, steps: seq<VirtualStep>) {
    exists start: Progress ::
      start.written == [e] && IdsAreNext(start) && HasAdded(t, start, PlanDone(start, sid, steps))
  }

  /** A file's chosen digests, and the rows of the image it may be. */
  ghost predicate Holds(t: Tables, sid: int, e: int, node: FsNode, options: Options) {
    && HasDigests(t, e, Chosen(node, options), node.content)
    && (node.isImage ==> HasImage(t, sid, e, ImageSteps(node.plan, options.maxContainerDepth >= 1)))
  }

  /** Every node that is seen is an entry under its parent, its children under it, and with its content behind it. */
  ghost predicate Listed(t: Tables, sid: int, parent: int, nodes: seq<FsNode>, options: Options, content: bool)
    decreases nodes
  {
    forall i | 0 <= i < |nodes| && nodes[i].name != "" && !nodes[i].metadata.Unseen? ::
      ListedNode(t, sid, parent, nodes[i], options, content)
  }

  /** A file's row carries its length; only metadata that cannot be read leaves 0 there, or -1 for the size alone. */
  ghost predicate IsRowOf(row: EntryRow, sid: int, parent: int, node: FsNode) {
    && row.sourceId == sid && row.parentId == parent && row.name == node.name && row.kind == node.kind && !row.isVirtual
    && (!node.kind.File? ==> row.size == 0)
    && (node.kind.File? ==> row.size == match node.metadata case Readable => |node.content| case NoSize => -1 case NoStatus => 0 case Unseen => 0)
  }

  ghost predicate ListedNode(t: Tables, sid: int, parent: int, node: FsNode, options: Options, content: bool)
    decreases node
  {
    exists e :: e in t.entry && IsRowOf(t.entry[e], sid, parent, node)
                && (node.kind.File? && content ==> Holds(t, sid, e, node, options))
                && (node.kind.Directory? ==> Listed(t, sid, e, node.children, options, content))
  }

  /** The rows of a source that a listing speaks of are still there. */
  ghost predicate SourceStays(a: Tables, b: Tables, sid: int) {
    && (forall e <- a.entry :: a.entry[e].sourceId == sid ==> e in b.entry && b.entry[e] == a.entry[e])
    && (forall k <- a.checksum :: OwnedBy(a.entry, {sid}, k.entryId) ==> k in b.checksum && b.checksum[k] == a.checksum[k])
    && (forall k <- b.checksum :: OwnedBy(a.entry, {sid}, k.entryId) ==> k in a.checksum)
    && (forall c <- a.container :: OwnedBy(a.entry, {sid}, a.container[c].entryId) ==>
          c in b.container && b.container[c] == a.container[c])
  }

  lemma HoldsStays(a: Tables, b: Tables, sid: int, e: int, node: FsNode, options: Options)
    requires SourceStays(a, b, sid) && e in a.entry && a.entry[e].sourceId == sid
    requires Holds(a, sid, e, node, options)
    ensures Holds(b, sid, e, node, options)
  {
    assert OwnedBy(a.entry, {sid}, e);
    if node.isImage {
      ImageStays(a, b, sid, e, ImageSteps(node.plan, options.maxContainerDepth >= 1));
    }
  }

  lemma ImageStays(a: Tables, b: Tables, sid: int, e: int, steps: seq<VirtualStep>)
    requires SourceStays(a, b, sid) && e in a.entry && a.entry[e].sourceId == sid && HasImage(a, sid, e, steps)
    ensures HasImage(b, sid, e, steps)
  {
    var start: Progress :| start.written == [e] && IdsAreNext(start) && HasAdded(a, start, PlanDone(start, sid, steps));
    AddedStays(a, b, sid, e, start, steps);
  }

  lemma AddedStays(a: Tables, b: Tables, sid: int, e: int, start: Progress, steps: seq<VirtualStep>)
    requires SourceStays(a, b, sid) && e in a.entry && a.entry[e].sourceId == sid
    requires start.written == [e] && IdsAreNext(start) && HasAdded(a, start, PlanDone(start, sid, steps))
    ensures HasAdded(b, start, PlanDone(start, sid, steps))
  {
    PlanAdds(start, sid, steps);
    var p := PlanDone(start, sid, steps);
    hide PlanDone, IdsAreNext;
    forall c <- p.container | c !in start.container
      ensures c in b.container && b.container[c] == p.container[c]
    {
      var o := p.container[c].entryId;
      assert o in p.written;
      assert OwnedBy(a.entry, {sid}, o);
    }
  }

  /** A listing stays listed as long as the rows of its source stay. */
  lemma {:induction false} ListedStays(a: Tables, b: Tables, sid: int, parent: int, nodes: seq<FsNode>, options: Options, content: bool)
    requires SourceStays(a, b, sid)
    requires Listed(a, sid, parent, nodes, options, content)
    ensures Listed(b, sid, parent, nodes, options, content)
    decreases nodes
  {
    hide Holds, SourceStays;
    StaysEntries(a, b, sid);
    forall i | 0 <= i < |nodes| && Seen(nodes[i])
      ensures ListedNode(b, sid, parent, nodes[i], options, content)
    {
      assert ListedNode(a, sid, parent, nodes[i], options, content);
      var e :| e in a.entry && IsRowOf(a.entry[e], sid, parent, nodes[i])
               && (nodes[i].kind.File? && content ==> Holds(a, sid, e, nodes[i], options))
               && (nodes[i].kind.Directory? ==> Listed(a, sid, e, nodes[i].children, options, content));
      if nodes[i].kind.Directory? {
        ListedStays(a, b, sid, e, nodes[i].children, options, content);
      } else if nodes[i].kind.File? && content {
        HoldsStays(a, b, sid, e, nodes[i], options);
      }
    }
  }

  lemma StaysEntries(a: Tables, b: Tables, sid: int)
    requires SourceStays(a, b, sid)
    ensures forall e <- a.entry :: a.entry[e].sourceId == sid ==> e in b.entry && b.entry[e] == a.entry[e]
  {
  }

  /** No digest has changed but those of some entries, no container has gone, and no entry that was there has got
      further digests. */
  ghost predicate KeepsContent(a: Tables, b: Tables, but: set<int>) {
    && (forall k <- a.checksum :: k.entryId in but || (k in b.checksum && b.checksum[k] == a.checksum[k]))
    && (forall k <- b.checksum :: k.entryId in but || k in a.checksum || k.entryId !in a.entry)
    && (forall c <- a.container :: c in b.container && b.container[c] == a.container[c])
  }

  /** An entry just written has no digest yet. */
  ghost predicate Unread(t: Tables, e: int) {
    forall k <- t.checksum :: k.entryId != e
  }

  lemma KeepsContentSelf(a: Tables, but: set<int>)
    ensures KeepsContent(a, a, but)
  {
  }

  lemma ContentUnchanged(a: Tables, b: Tables)
    requires b.checksum == a.checksum && b.container == a.container
    ensures KeepsContent(a, b, {})
  {
  }

  lemma KeepsContentTwice(a: Tables, b: Tables, c: Tables, but: set<int>)
    requires KeepsContent(a, b, but) && KeepsContent(b, c, but) && a.entry.Keys <= b.entry.Keys
    ensures KeepsContent(a, c, but)
  {
  }

  lemma GrewStays(c: State, d: State, sid: int)
    requires Grew(c, d) && KeepsContent(c.work, d.work, {})
    ensures SourceStays(c.work, d.work, sid)
  {
    hide KeepsAgreement;
  }

  /** What is done behind a new entry leaves the others alone. */
  lemma BehindNew(a: Tables, b: Tables, c: Tables, e: int)
    requires References(a) && e !in a.entry && KeepsContent(b, c, {e}) && a.entry.Keys <= b.entry.Keys
    requires b.checksum == a.checksum && b.container == a.container
    ensures KeepsContent(a, c, {})
  {
  }

  // ---------------------------------------------------------------- one entry

  /** An entry row and its index row: the scanner's insert, and a provider's add_entry.
      A failed index write leaves the entry unindexed. */
  method AddEntry(db: Database, row: EntryRow, ghost w: Window, ghost from: nat, ghost f0: nat) returns (r: Result<int>)
    requires Writing(db.Now(), w, from, f0) && row.sourceId == w.sid && FitsUnder(db.work, row)
    modifies db
    ensures db.inTxn ==> db.trace == old(db.trace)
    ensures Writing(db.Now(), w, from, f0) && Grew(old(db.Now()), db.Now()) && db.inTxn == old(db.inTxn)
    ensures r.Ok? ==> r.value !in old(db.work.entry) && db.work.entry == old(db.work.entry)[r.value := row]
    ensures r.Ok? ==> Physical(db.work, w.sid) == old(Physical(db.work, w.sid)) + (if row.isVirtual then {} else {r.value})
    ensures r.Ok? ==> IsNextId(old(db.work.entry.Keys), r.value) && db.work.fts.Keys <= old(db.work.fts.Keys) + {r.value}
    ensures r.Err? ==> db.work == old(db.work) && db.faults > old(db.faults)
    ensures db.work.container == old(db.work.container) && db.work.checksum == old(db.work.checksum)
    ensures db.faults == f0 && old(FullyIndexed(db.work, w.sid)) ==> FullyIndexed(db.work, w.sid)
  {
    hide IsShadow, PrefixOf, IndexedTogether, Wf, References, FitsUnder;
    ShadowIsWf(db.work, w);
    ghost var t := db.work;
    ghost var id;
    r, id := InsertEntryRow(db, row);
    NewEntry(t, w, id, row);
    NewEntryComesLast(t, w.sid, id, row);
    PrefixOfSelf(t);
    ReferencesOf(InsertEntry(t, id, row), w);
    if Agrees(t) {
      NewEntryKeepsAgreement(t, id, row);
    }
    StatementKeepsWriting(old(db.Now()), db.Now(), w, from, f0, InsertEntry(t, id, row), r.Ok?);
    if r.Ok? {
      ghost var c := db.Now();
      IndexNew(db, r.value, w, from, f0);
      GrewTwice(old(db.Now()), c, db.Now());
    }
  }

  /** Index the entry just inserted; its row id is in no committed state of the transaction. */
  method IndexNew(db: Database, e: int, ghost w: Window, ghost from: nat, ghost f0: nat)
    requires Writing(db.Now(), w, from, f0)
    requires e in db.work.entry && db.work.entry[e].sourceId == w.sid && e !in db.work.fts
    requires db.inTxn ==> forall i | from <= i < |db.trace| :: e !in db.trace[i].entry
    modifies db
    ensures db.inTxn ==> db.trace == old(db.trace)
    ensures Writing(db.Now(), w, from, f0) && Grew(old(db.Now()), db.Now()) && db.inTxn == old(db.inTxn)
    ensures db.work.entry == old(db.work.entry)
    ensures db.faults == f0 ==> db.work.fts.Keys == old(db.work.fts.Keys) + {e}
    ensures old(db.work.fts.Keys) <= db.work.fts.Keys <= old(db.work.fts.Keys) + {e}
    ensures db.work.container == old(db.work.container) && db.work.checksum == old(db.work.checksum)
    ensures db.faults >= old(db.faults)
  {
    hide IsShadow, PrefixOf, IndexedTogether, Wf, References, Agrees, AgreedRow, RowOf;
    ghost var t := db.work;
    ghost var c := db.Now();
    ShadowIsWf(t, w);
    ghost var walk, named;
    var row;
    row, walk, named := ReadIndexRow(db, e);
    ghost var c1 := db.Now();
    ReadKeepsWriting(c, c1, w, from, f0);
    ghost var next := InsertFts(t, e, row);
    RowKeepsName(t, e, walk, named);
    var ok := IndexEntry(db, e, row);
    NewIndexRow(t, w, e, row);
    ReferencesOf(next, w);
    EntriesUnchanged(t, next);
    if c1.misreads == c.misreads && Agrees(t) {
      RightRowAgrees(t, e, row);
    }
    StatementKeepsWriting(c1, db.Now(), w, from, f0, next, ok);
    IndexedGrew(c, c1, db.Now(), next, ok);
  }

  /** A read leaves all as it is, but for the count of what failed. */
  lemma ReadKeepsWriting(c: State, d: State, w: Window, from: nat, f0: nat)
    requires Writing(c, w, from, f0) && d == c.(faults := d.faults, misreads := d.misreads) && d.faults >= c.faults
    ensures Writing(d, w, from, f0)
  {
    hide IsShadow, ShadowTrace, BatchTrace, SteadyTrace;
  }

  lemma RightRowAgrees(t: Tables, e: int, row: FtsRow)
    requires Agrees(t) && e in t.entry && row.name == t.entry[e].name && row == AgreedRow(t, e)
    ensures Agrees(InsertFts(t, e, row))
  {
    NewIndexRowAgreesIff(t, e, row);
  }

  lemma RowKeepsName(t: Tables, e: int, walk: WalkUp, named: bool)
    requires e in t.entry && t.entry[e].sourceId in t.source
    ensures RowOf(t, e, walk, named).name == t.entry[e].name
  {
  }

  /** An index row written after its reads: only a read that failed may spoil the agreement. */
  lemma IndexedGrew(c: State, c1: State, d: State, next: Tables, ok: bool)
    requires Executed(c1, d, next, ok) && c1.work == c.work && c1.durable == c.durable && c1.trace == c.trace && c1.inTxn == c.inTxn
    requires c.misreads <= c1.misreads && c1.misreads - c.misreads <= c1.faults - c.faults
    requires PrefixOf(c.work, next) && (c1.misreads == c.misreads && Agrees(c.work) ==> Agrees(next))
    ensures Grew(c, d)
  {
    PrefixOfSelf(c.work);
    hide PrefixOf, Agrees, References;
  }

  lemma ShadowIsWf(t: Tables, w: Window)
    requires IsShadow(t, w)
    ensures Wf(t)
    ensures w.sid in t.source
  {
  }

  lemma ReferencesOf(t: Tables, w: Window)
    requires IsShadow(t, w)
    ensures References(t)
  {
  }

  lemma EntriesUnchanged(t: Tables, r: Tables)
    requires t.entry == r.entry
    ensures PrefixOf(t, r)
    ensures forall d :: PrefixOf(d, t) ==> PrefixOf(d, r)
    ensures forall sid :: Physical(r, sid) == Physical(t, sid)
  {
  }

  // ---------------------------------------------------------------- commits between batches

  method Checkpoint(db: Database, ghost w: Window, ghost from: nat, ghost f0: nat) returns (ok: bool)
    requires Writing(db.Now(), w, from, f0)
    requires |Physical(db.work, w.sid)| % 1000 == 0
    requires db.faults == f0 ==> FullyIndexed(db.work, w.sid) && |Physical(db.work, w.sid)| == 1000 * (|db.trace| - from)
    modifies db
    ensures Writing(db.Now(), w, from, f0) && Grew(old(db.Now()), db.Now()) && db.work == old(db.work)
    ensures ok ==> |db.trace| == |old(db.trace)| + 1
    ensures !ok ==> db.faults > f0
    ensures ok ==> db.inTxn
    ensures old(db.inTxn) && !db.inTxn ==> !ok && db.faults > old(db.faults)
    ensures !old(db.inTxn) ==> !db.inTxn
  {
    hide IsShadow, PrefixOf, IndexedTogether, FullyIndexed, Physical, References;
    PrefixOfSelf(db.work);
    ReferencesOf(db.work, w);
    ok := db.Commit();
    if ok {
      ok := db.Begin();
    }
  }

  // ---------------------------------------------------------------- checksums and containers

  /** Read the file once per engine; store each digest. A digest that cannot be stored is only logged. */
  method ComputeChecksums(db: Database, e: int, content: seq<bv8>, opens: bool, algorithms: seq<Algorithm>,
                          ghost w: Window, ghost from: nat, ghost f0: nat) returns (ok: bool)
    requires Writing(db.Now(), w, from, f0) && e in db.work.entry && db.work.entry[e].sourceId == w.sid
    requires Unread(db.work, e)
    modifies db
    ensures db.inTxn ==> db.trace == old(db.trace)
    ensures Writing(db.Now(), w, from, f0) && Grew(old(db.Now()), db.Now())
    ensures db.work.entry == old(db.work.entry) && db.work.fts == old(db.work.fts)
    ensures db.work.container == old(db.work.container) && db.inTxn == old(db.inTxn)
    ensures KeepsContent(old(db.work), db.work, {e})
    ensures ok <==> algorithms == [] || opens
    ensures !opens ==> db.work.checksum == old(db.work.checksum)
    ensures opens && db.faults == f0 ==> HasDigests(db.work, e, algorithms, content)
  {
    hide IsShadow, PrefixOf, IndexedTogether, FullyIndexed, Physical, References, FileHash.DigestOf, Grew, Writing, KeepsContent;
    ghost var c := db.Now();
    GrewSelf(c);
    KeepsContentSelf(c.work, {e});
    if algorithms == [] {
      return true;
    }
    if !opens {
      return false;
    }
    WritingIsConsistent(c, w, from, f0);
    for i := 0 to |algorithms|
      invariant Writing(db.Now(), w, from, f0) && Grew(c, db.Now())
      invariant db.work.entry == c.work.entry && db.work.fts == c.work.fts
      invariant db.work.container == c.work.container && db.inTxn == c.inTxn && (db.inTxn ==> db.trace == c.trace)
      invariant KeepsContent(c.work, db.work, {e}) && f0 <= db.faults
      invariant db.faults == f0 ==> HasDigests(db.work, e, algorithms[..i], content)
    {
      ghost var t := db.work;
      PutOne(db, ChecksumKey(e, algorithms[i]), content, w, from, f0, c);
      KeepsContentTwice(c.work, t, db.work, {e});
      assert algorithms[..i + 1] == algorithms[..i] + [algorithms[i]];
    }
    assert algorithms[..|algorithms|] == algorithms;
    ok := true;
  }

  method PutOne(db: Database, key: ChecksumKey, content: seq<bv8>,
                ghost w: Window, ghost from: nat, ghost f0: nat, ghost start: State)
    requires Writing(db.Now(), w, from, f0) && Grew(start, db.Now())
    requires key.entryId in db.work.entry && db.work.entry[key.entryId].sourceId == w.sid
    modifies db
    ensures db.inTxn ==> db.trace == old(db.trace)
    ensures Writing(db.Now(), w, from, f0) && Grew(start, db.Now())
    ensures db.work.entry == old(db.work.entry) && db.work.fts == old(db.work.fts)
    ensures db.work.container == old(db.work.container) && db.inTxn == old(db.inTxn)
    ensures db.faults >= old(db.faults) && KeepsContent(old(db.work), db.work, {key.entryId})
    ensures db.faults == f0 ==> db.work.checksum == old(db.work.checksum)[key := FileHash.DigestOf(key.algorithm, content)]
  {
    hide IsShadow, PrefixOf, IndexedTogether, FullyIndexed, Physical, References, FileHash.DigestOf, Writing, Grew, Executed, KeepsContent, Agrees;
    assert Consistent(db.Now()) by { WritingIsConsistent(db.Now(), w, from, f0); }
    ghost var t := db.work;
    ghost var c := db.Now();
    var digest := FileHash.HashFile(key.algorithm, content);
    var ok := StoreChecksum(db, key, digest);
    ghost var next := PutChecksum(t, key, digest);
    WritingIsConsistent(c, w, from, f0);
    NewChecksum(t, w, key, digest);
    ReferencesOf(next, w);
    EntriesUnchanged(t, next);
    StatementKeepsWriting(c, db.Now(), w, from, f0, next, ok) by {
      IndexUnchanged(t, next);
    }
    AgreesStill(t, next, w);
    GrewTwice(start, c, db.Now());
    ExecutedMeans(c, db.Now(), next, ok);
    DigestKeeps(t, key, digest);
    KeepsContentSelf(t, {key.entryId});
  }

  lemma DigestKeeps(t: Tables, key: ChecksumKey, digest: seq<bv8>)
    ensures KeepsContent(t, PutChecksum(t, key, digest), {key.entryId})
  {
  }

  lemma WritingIsConsistent(c: State, w: Window, from: nat, f0: nat)
    requires Writing(c, w, from, f0)
    ensures Consistent(c) && IsShadow(c.work, w) && f0 <= c.faults && (c.faults == f0 ==> c.inTxn)
  {
  }

  lemma IndexUnchanged(t: Tables, r: Tables)
    requires t.fts == r.fts
    ensures forall d :: IndexedTogether(d, t) ==> IndexedTogether(d, r)
  {
  }

  lemma NextIsNew(keys: set<int>, id: int)
    requires IsNextId(keys, id)
    ensures id !in keys
  {
  }

  lemma AgreesStill(t: Tables, r: Tables, w: Window)
    requires IsShadow(r, w) && r.fts == t.fts && r.entry == t.entry && r.source == t.source
    ensures Agrees(t) ==> Agrees(r)
  {
    if Agrees(t) {
      OtherRowsKeepAgreement(t, r);
    }
  }

  lemma ExecutedMeans(c: State, d: State, next: Tables, ok: bool)
    requires Executed(c, d, next, ok) && References(next)
    ensures d.work == (if ok then next else c.work) && d.inTxn == c.inTxn
    ensures d.faults >= c.faults && (!ok ==> d.faults > c.faults)
  {
  }

  method RegisterContainer(db: Database, e: int, ghost w: Window, ghost from: nat, ghost f0: nat)
    returns (ok: bool, ghost id: int)
    requires Writing(db.Now(), w, from, f0) && e in db.work.entry && db.work.entry[e].sourceId == w.sid
    modifies db
    ensures db.inTxn ==> db.trace == old(db.trace)
    ensures Writing(db.Now(), w, from, f0) && Grew(old(db.Now()), db.Now()) && db.inTxn == old(db.inTxn)
    ensures db.work.entry == old(db.work.entry) && db.work.fts == old(db.work.fts) && db.work.checksum == old(db.work.checksum)
    ensures IsNextId(old(db.work.container.Keys), id)
    ensures db.work.container == if ok then old(db.work.container)[id := ContainerRow(e)] else old(db.work.container)
    ensures id !in old(db.work.container) && KeepsContent(old(db.work), db.work, {})
    ensures !ok ==> db.faults > old(db.faults)
  {
    hide IsShadow, PrefixOf, IndexedTogether, FullyIndexed, Physical, References, Wf, Writing, Grew, Executed;
    WritingIsConsistent(db.Now(), w, from, f0);
    ShadowIsWf(db.work, w);
    ghost var c := db.Now();
    var r;
    r, id := InsertContainerRow(db, e);
    ghost var next := InsertContainer(c.work, id, ContainerRow(e));
    NextIsNew(c.work.container.Keys, id);
    NewContainer(c.work, w, id, e);
    ReferencesOf(next, w);
    EntriesUnchanged(c.work, next);
    IndexUnchanged(c.work, next);
    AgreesStill(c.work, next, w);
    StatementKeepsWriting(c, db.Now(), w, from, f0, next, r.Ok?);
    ExecutedMeans(c, db.Now(), next, r.Ok?);
    ok := r.Ok?;
  }

  /** What every step inside the window keeps for the rest of the scan: no entry that was there gets an
      index row late, and the transaction is open or not as before. */
  ghost predicate KeepsTree(c: State, d: State, w: Window, f0: nat) {
    && Grew(c, d)
    && d.inTxn == c.inTxn
    && (c.inTxn ==> d.trace == c.trace)
    && Physical(d.work, w.sid) == Physical(c.work, w.sid)
    && (d.faults == f0 && FullyIndexed(c.work, w.sid) ==> FullyIndexed(d.work, w.sid))
    && (forall f <- d.work.fts :: f in c.work.fts || f !in c.work.entry)
  }

  /** Register the image and, when expansion is on, let its provider write below it. Without faults the
      tables hold exactly the rows of these steps. */
  method ExpandContainer(db: Database, e: int, plan: seq<VirtualStep>, expand: bool, expands: bool, ghost start: Progress,
                         ghost w: Window, ghost from: nat, ghost f0: nat) returns (ok: bool)
    requires Writing(db.Now(), w, from, f0) && e in db.work.entry && db.work.entry[e].sourceId == w.sid
    requires StartsAt(start, db.work, e)
    modifies db
    ensures Writing(db.Now(), w, from, f0) && KeepsTree(old(db.Now()), db.Now(), w, f0)
    ensures db.work.checksum == old(db.work.checksum) && KeepsContent(old(db.work), db.work, {})
    ensures !ok ==> expand && !expands && db.work.container != old(db.work.container)
    ensures db.faults == old(db.faults) ==> ok == (!expand || expands)
    ensures db.faults == old(db.faults) ==> HasRowsOf(db.work, PlanDone(start, w.sid, ImageSteps(plan, expand)))
  {
    hide IsShadow, PrefixOf, IndexedTogether, References, Wf, Writing, PlanDone, StepDone, Agrees, KeepsContent;
    ghost var c := db.Now();
    PrefixOfSelf(db.work);
    ghost var id;
    var registered;
    registered, id := RegisterContainer(db, e, w, from, f0);
    ghost var c1 := db.Now();
    FirstStep(start, w.sid, plan, id);
    ok := true;
    if !registered || !expand {
      return;
    }
    CarryOut(db, e, plan, StepDone(start, w.sid, Nested(0)), w, from, f0);
    WritingIsConsistent(c1, w, from, f0);
    KeepsTreeTwice(c, c1, db.Now(), w, f0);
    KeepsTreeFaults(c1, db.Now(), w, f0);
    KeepsContentTwice(c.work, c1.work, db.work, {});
    StillThere(c1.work, db.work, id);
    ok := expands;
  }

  /** The provider's steps, one after the other. */
  method CarryOut(db: Database, e: int, plan: seq<VirtualStep>, ghost p0: Progress, ghost w: Window, ghost from: nat, ghost f0: nat)
    requires Writing(db.Now(), w, from, f0) && e in db.work.entry && db.work.entry[e].sourceId == w.sid
    modifies db
    ensures Writing(db.Now(), w, from, f0) && KeepsTree(old(db.Now()), db.Now(), w, f0)
    ensures db.work.checksum == old(db.work.checksum) && KeepsContent(old(db.work), db.work, {})
    ensures db.faults == old(db.faults) && IdsAreNext(p0) && p0.written == [e] && HasRowsOf(old(db.work), p0) ==>
              HasRowsOf(db.work, PlanDone(p0, w.sid, plan))
  {
    hide IsShadow, PrefixOf, IndexedTogether, References, Wf, Writing, PlanDone, IsNextId, Agrees;
    PrefixOfSelf(db.work);
    ghost var start := db.Now();
    ghost var follows := IdsAreNext(p0) && p0.written == [e] && HasRowsOf(db.work, p0);
    ghost var p := p0;
    NoSteps(p0, w.sid, plan);
    var written: seq<int> := [e];
    for i := 0 to |plan|
      invariant Writing(db.Now(), w, from, f0) && KeepsTree(start, db.Now(), w, f0)
      invariant forall k <- written :: k in db.work.entry && db.work.entry[k].sourceId == w.sid
      invariant db.work.checksum == start.work.checksum && db.faults >= start.faults
      invariant KeepsContent(start.work, db.work, {})
      invariant db.faults == start.faults && follows ==>
                  IdsAreNext(p) && p == PlanDone(p0, w.sid, plan[..i]) && HasRowsOf(db.work, p) && written == p.written
    {
      hide Grew, FullyIndexed, Physical, KeepsTree, IdsAreNext, StepDone, KeepsContent;
      ghost var c := db.Now();
      var added := OneStep(db, written, plan[i], p, w, from, f0);
      KeepsTreeEntries(start, c, w, f0);
      KeepsContentTwice(start.work, c.work, db.work, {});
      WritingIsConsistent(c, w, from, f0);
      KeepsTreeTwice(start, c, db.Now(), w, f0);
      KeepsTreeFaults(c, db.Now(), w, f0);
      OneMoreStep(p0, w.sid, plan, i);
      p := StepDone(p, w.sid, plan[i]);
      if added != 0 {
        written := written + [added];
      }
    }
    assert plan[..|plan|] == plan;
  }

  lemma StillThere(a: Tables, b: Tables, id: int)
    requires KeepsContent(a, b, {})
    ensures id in a.container ==> id in b.container
  {
  }

  lemma NoSteps(p: Progress, sid: int, plan: seq<VirtualStep>)
    ensures PlanDone(p, sid, []) == p && plan[..0] == []
  {
  }

  lemma OneMoreStep(p: Progress, sid: int, plan: seq<VirtualStep>, i: nat)
    requires i < |plan|
    ensures PlanDone(p, sid, plan[..i + 1]) == StepDone(PlanDone(p, sid, plan[..i]), sid, plan[i])
  {
    assert plan[..i + 1][..i] == plan[..i];
  }

  /** The image's registration first, with or without the steps behind it. */
  lemma FirstStep(p: Progress, sid: int, plan: seq<VirtualStep>, id: int)
    requires IdsAreNext(p) && IsNextId(p.container.Keys, id) && |p.written| == 1
    ensures var q := StepDone(p, sid, Nested(0));
            && id == p.nextContainer && IdsAreNext(q) && q.written == p.written
            && q.entry == p.entry && q.container == p.container[id := ContainerRow(p.written[0])]
            && PlanDone(p, sid, ImageSteps(plan, false)) == q
            && PlanDone(p, sid, ImageSteps(plan, true)) == PlanDone(q, sid, plan)
  {
    StepsBehind(p, sid, Nested(0), plan);
    StepsBehind(p, sid, Nested(0), []);
    assert [Nested(0)] + [] == [Nested(0)];
  }

  lemma {:induction false} StepsBehind(p: Progress, sid: int, first: VirtualStep, rest: seq<VirtualStep>)
    ensures PlanDone(p, sid, [first] + rest) == PlanDone(StepDone(p, sid, first), sid, rest)
    decreases |rest|
  {
    hide StepDone;
    var all := [first] + rest;
    if rest == [] {
      assert all[..0] == [];
    } else {
      assert all[..|all| - 1] == [first] + rest[..|rest| - 1];
      StepsBehind(p, sid, first, rest[..|rest| - 1]);
    }
  }

  lemma KeepsTreeFaults(c: State, d: State, w: Window, f0: nat)
    requires KeepsTree(c, d, w, f0)
    ensures c.faults <= d.faults
    ensures d.inTxn == c.inTxn && (c.inTxn ==> d.trace == c.trace)
  {
  }

  lemma KeepsTreeEntries(c: State, d: State, w: Window, f0: nat)
    requires KeepsTree(c, d, w, f0)
    ensures c.work.entry.Keys <= d.work.entry.Keys
  {
    EntriesGrew(c, d);
    hide Grew, FullyIndexed, Physical;
  }

  lemma NextIdExists(keys: set<int>)
    requires forall k <- keys :: k >= 1
    ensures exists id :: IsNextId(keys, id)
    decreases keys
  {
    if keys == {} {
      assert IsNextId(keys, 1);
    } else {
      NonEmpty(keys);
      var k :| k in keys;
      NextIdExists(keys - {k});
      var id :| IsNextId(keys - {k}, id);
      assert forall j <- keys :: j == k || j in keys - {k};
      assert IsNextId(keys, if k < id then id else k + 1);
    }
  }

  lemma PlanStarts(t: Tables, e: int)
    requires Wf(t)
    ensures exists p :: StartsAt(p, t, e)
  {
    NextIdExists(t.entry.Keys);
    NextIdExists(t.container.Keys);
    var a :| IsNextId(t.entry.Keys, a);
    var b :| IsNextId(t.container.Keys, b);
    assert StartsAt(Progress(t.entry, t.container, [e], a, b), t, e);
  }

  lemma KeepsTreeTwice(a: State, b: State, c: State, w: Window, f0: nat)
    requires KeepsTree(a, b, w, f0) && KeepsTree(b, c, w, f0) && f0 <= b.faults
    ensures KeepsTree(a, c, w, f0)
  {
    GrewTwice(a, b, c);
    GrewFaults(b, c);
    hide Grew, Physical, FullyIndexed;
  }

  /** A provider's step; 0 when it wrote no entry. Without a fault it wrote exactly what the step says. */
  method OneStep(db: Database, written: seq<int>, step: VirtualStep, ghost p: Progress,
                 ghost w: Window, ghost from: nat, ghost f0: nat)
    returns (id: int)
    requires Writing(db.Now(), w, from, f0)
    requires forall k <- written :: k in db.work.entry && db.work.entry[k].sourceId == w.sid
    modifies db
    ensures Writing(db.Now(), w, from, f0) && KeepsTree(old(db.Now()), db.Now(), w, f0)
    ensures forall k <- written :: k in db.work.entry && db.work.entry[k].sourceId == w.sid
    ensures id != 0 ==> id in db.work.entry && db.work.entry[id].sourceId == w.sid
    ensures db.work.checksum == old(db.work.checksum) && KeepsContent(old(db.work), db.work, {})
    ensures db.faults == old(db.faults) && IdsAreNext(p)
            && p.entry == old(db.work.entry) && p.container == old(db.work.container) && p.written == written ==>
              var q := StepDone(p, w.sid, step);
              && IdsAreNext(q) && db.work.entry == q.entry && db.work.container == q.container
              && q.written == (if id != 0 then written + [id] else written)
  {
    hide IsShadow, PrefixOf, IndexedTogether, References, Wf, Writing;
    PrefixOfSelf(db.work);
    id := 0;
    match step
    case AddVirtual(under, name, kind, size) =>
      if under < |written| && name != "" {
        SourceIsLive(db.Now(), w, from, f0);
        var parent := written[under];
        assert parent in written;
        assert parent in db.work.entry;
        var row := EntryRow(db.work.entry[parent].sourceId, parent, name, kind, size, true);
        var r := AddEntry(db, row, w, from, f0);
        if r.Ok? {
          id := r.value;
        }
      }
    case Nested(at) =>
      if at < |written| {
        assert written[at] in written;
        ghost var row;
        var ok;
        ok, row := RegisterContainer(db, written[at], w, from, f0);
      }
  }

  lemma SourceIsLive(c: State, w: Window, from: nat, f0: nat)
    requires Writing(c, w, from, f0)
    ensures w.sid in c.work.source
  {
  }

  // ---------------------------------------------------------------- the directory walk

  datatype Inserted = New(id: int) | NotInserted | BatchFailed

  class Scanner {
    const db: Database
    const cancel: CancellationManager
    var batchCounter: nat
    var filesScanned: nat
    var dirsScanned: nat
    var errors: nat
    /** Set when a BEGIN between two batches fails: from then on statements commit one by one. */
    ghost var lostBegin: bool

    function Counts(): Totals
      reads this
    {
      Totals(batchCounter, filesScanned, dirsScanned, errors)
    }

    constructor (db: Database, cancel: CancellationManager)
      ensures this.db == db && this.cancel == cancel && Counts() == Totals(0, 0, 0, 0) && !lostBegin
    {
      this.db, this.cancel := db, cancel;
      batchCounter, filesScanned, dirsScanned, errors := 0, 0, 0, 0;
      lostBegin := false;
    }

    /** The state inside a directory scan, when so many batches should have been committed. */
    ghost predicate Counting(w: Window, from: nat, f0: nat, batches: nat)
      reads this, db
    {
      && Writing(db.Now(), w, from, f0)
      && batchCounter == |Physical(db.work, w.sid)|
      && (lostBegin <==> !db.inTxn)
      && (db.faults == f0 ==> FullyIndexed(db.work, w.sid) && |db.trace| == from + 1 + batches)
    }

    /** The state between two entries: every whole batch is committed. */
    ghost predicate Between(w: Window, from: nat, f0: nat)
      reads this, db
    {
      Counting(w, from, f0, batchCounter / 1000)
    }

    ghost predicate IsParent(t: Tables, sid: int, parent: int) {
      parent == 0 || (parent in t.entry && t.entry[parent].sourceId == sid)
    }

    /** Scan a listing below a parent. Code 0 is a cancellation; every other error is an SQL failure. When no error
        was counted every node is an entry, whatever else failed; without failures the whole listing is in the
        tables and the totals are what it comes to. */
    method ScanDirectory(sid: int, parent: int, nodes: seq<FsNode>, options: Options, ghost w: Window, ghost from: nat, ghost f0: nat)
      returns (r: Result<int>)
      requires Between(w, from, f0) && sid == w.sid && IsParent(db.work, sid, parent)
      modifies this, db, cancel
      ensures Between(w, from, f0) && Grew(old(db.Now()), db.Now())
      ensures errors >= old(errors) && KeepsContent(old(db.work), db.work, {})
      ensures r.Err? ==> if r.code == 0 then cancel.cancelled else r.code == 1 && db.faults > f0
      ensures r.Ok? ==> r.value == parent
      ensures r.Ok? && errors == old(errors) ==> Listed(db.work, sid, parent, nodes, options, false)
      ensures r.Ok? && db.faults == f0 ==>
        Listed(db.work, sid, parent, nodes, options, true) && Counts() == Plus(old(Counts()), Tally(nodes, options))
      decreases nodes, 3
    {
      hide Writing, Grew, FullyIndexed, Physical, Tally, NodeTally, Plus, ListedNode, KeepsContent, SourceStays, IsShadow;
      GrewSelf(db.Now());
      PlusNothing(Counts(), options);
      assert nodes[..0] == [];
      assert KeepsContent(db.work, db.work, {}) by { KeepsContentSelf(db.work, {}); }
      var stop := cancel.IsCancelled();
      if stop {
        return Err(0);
      }
      for i := 0 to |nodes|
        invariant Between(w, from, f0) && Grew(old(db.Now()), db.Now()) && IsParent(db.work, sid, parent)
        invariant errors >= old(errors) && KeepsContent(old(db.work), db.work, {})
        invariant errors == old(errors) ==> Listed(db.work, sid, parent, nodes[..i], options, false)
        invariant db.faults == f0 ==> Listed(db.work, sid, parent, nodes[..i], options, true)
        invariant db.faults == f0 ==> Counts() == Plus(old(Counts()), Tally(nodes[..i], options))
      {
        ghost var c := db.Now();
        r := ScanNode(sid, parent, nodes[i], options, w, from, f0);
        GrewTwice(old(db.Now()), c, db.Now());
        EntriesGrew(old(db.Now()), c);
        KeepsContentTwice(old(db.work), c.work, db.work, {});
        if r.Err? {
          return;
        }
        EntriesGrew(c, db.Now());
        GrewFaults(c, db.Now());
        WritingIsConsistent(c, w, from, f0);
        TallyOfNext(nodes, options, i);
        PlusTwice(old(Counts()), Tally(nodes[..i], options), NodeTally(nodes[i], options));
        GrewStays(c, db.Now(), sid);
        if errors == old(errors) {
          OneMoreListed(c.work, db.work, sid, parent, nodes, i, options, false);
        }
        if db.faults == f0 {
          OneMoreListed(c.work, db.work, sid, parent, nodes, i, options, true);
        }
      }
      assert nodes[..|nodes|] == nodes;
      r := Ok(parent);
    }

    method ScanNode(sid: int, parent: int, node: FsNode, options: Options, ghost w: Window, ghost from: nat, ghost f0: nat)
      returns (r: Result<int>)
      requires Between(w, from, f0) && sid == w.sid && IsParent(db.work, sid, parent)
      modifies this, db, cancel
      ensures Between(w, from, f0) && Grew(old(db.Now()), db.Now())
      ensures errors >= old(errors) && KeepsContent(old(db.work), db.work, {})
      ensures r.Err? ==> if r.code == 0 then cancel.cancelled else r.code == 1 && db.faults > f0
      ensures r.Ok? && errors == old(errors) && Seen(node) ==> ListedNode(db.work, sid, parent, node, options, false)
      ensures r.Ok? && db.faults == f0 && Seen(node) ==> ListedNode(db.work, sid, parent, node, options, true)
      ensures r.Ok? && db.faults == f0 ==> Counts() == Plus(old(Counts()), NodeTally(node, options))
      decreases node, 2
    {
      hide Writing, Grew, FullyIndexed, Physical, Tally, Listed, Holds, KeepsContent;
      GrewSelf(db.Now());
      KeepsContentSelf(db.work, {});
      var stop := cancel.IsCancelled();
      if stop {
        return Err(0);
      }
      if node.name == "" {
        return Ok(0);
      }
      if node.metadata.Unseen? {
        errors := errors + 1;
        return Ok(0);
      }
      var size: int := 0;
      if !node.metadata.NoStatus? && node.kind.File? {
        size := if node.metadata.NoSize? then -1 else |node.content|;
      }
      r := WriteNode(sid, parent, node, size, options, w, from, f0);
    }

    /** A node's entry, and what lies below it. */
    method WriteNode(sid: int, parent: int, node: FsNode, size: int, options: Options, ghost w: Window, ghost from: nat, ghost f0: nat)
      returns (r: Result<int>)
      requires Between(w, from, f0) && sid == w.sid && IsParent(db.work, sid, parent) && Seen(node)
      requires IsRowOf(EntryRow(sid, parent, node.name, node.kind, size, false), sid, parent, node)
      modifies this, db, cancel
      ensures Between(w, from, f0) && Grew(old(db.Now()), db.Now())
      ensures errors >= old(errors) && KeepsContent(old(db.work), db.work, {})
      ensures r.Err? ==> if r.code == 0 then cancel.cancelled else r.code == 1 && db.faults > f0
      ensures r.Ok? && errors == old(errors) ==> ListedNode(db.work, sid, parent, node, options, false)
      ensures r.Ok? && db.faults == f0 ==>
        ListedNode(db.work, sid, parent, node, options, true) && Counts() == Plus(old(Counts()), NodeTally(node, options))
      decreases node, 1
    {
      hide Writing, Grew, FullyIndexed, Physical, Tally, Listed, Holds, References, KeepsContent, Unread, IsShadow;
      ghost var c0 := db.Now();
      WritingReferences(c0, w, from, f0);
      var inserted := InsertPhysical(EntryRow(sid, parent, node.name, node.kind, size, false), w, from, f0);
      ghost var c := db.Now();
      ContentUnchanged(c0.work, c.work);
      EntriesGrew(c0, c);
      GrewFaults(c0, c);
      WritingIsConsistent(c0, w, from, f0);
      if inserted.BatchFailed? {
        return Err(1);
      }
      if inserted.NotInserted? {
        errors := errors + 1;
        return Ok(0);
      }
      NewIsUnread(c0.work, c.work, inserted.id);
      r := Descend(inserted.id, node, options, w, from, f0);
      EntriesGrew(c, db.Now());
      GrewTwice(c0, c, db.Now());
      GrewFaults(c, db.Now());
      BehindNew(c0.work, c.work, db.work, inserted.id);
      assert IsRowOf(db.work.entry[inserted.id], sid, parent, node);
    }

    /** Below an entry just written: a directory's own listing, or a file's digests and containers. An SQL failure
        in a directory below is counted and the walk goes on. */
    method Descend(e: int, node: FsNode, options: Options, ghost w: Window, ghost from: nat, ghost f0: nat) returns (r: Result<int>)
      requires Between(w, from, f0) && e in db.work.entry && db.work.entry[e].sourceId == w.sid && Unread(db.work, e)
      modifies this, db, cancel
      ensures Between(w, from, f0) && Grew(old(db.Now()), db.Now())
      ensures errors >= old(errors) && KeepsContent(old(db.work), db.work, {e})
      ensures r.Err? ==> r.code == 0 && cancel.cancelled
      ensures r.Ok? && errors == old(errors) && node.kind.Directory? ==> Listed(db.work, w.sid, e, node.children, options, false)
      ensures r.Ok? && db.faults == f0 ==>
        && (node.kind.File? ==> Holds(db.work, w.sid, e, node, options))
        && (node.kind.Directory? ==> Listed(db.work, w.sid, e, node.children, options, true))
        && (Seen(node) ==> Plus(Counts(), Totals(1, 0, 0, 0)) == Plus(old(Counts()), NodeTally(node, options)))
      decreases node, 0
    {
      hide Writing, Grew, FullyIndexed, Physical, Tally, Listed, Holds, KeepsTree, KeepsContent, ContentDone, IsShadow;
      ghost var c := db.Now();
      GrewSelf(c);
      KeepsContentSelf(c.work, {e});
      r := Ok(0);
      if node.kind.Directory? {
        dirsScanned := dirsScanned + 1;
        var sub := ScanDirectory(db.work.entry[e].sourceId, e, node.children, options, w, from, f0);
        if sub.Err? && sub.code == 0 {
          r := sub;
        } else if sub.Err? {
          errors := errors + 1;  // swallowed: the walk goes on
        }
        KeepsMoreContent(c.work, db.work, e);
      } else if node.kind.File? {
        WritingIsConsistent(c, w, from, f0);
        ScanContent(e, node, options, true, w, from, f0);
        KeepsTreeIs(c, db.Now(), w, f0);
        GrewFaults(c, db.Now());
      }
    }

    /** A physical entry, and a commit after every thousandth. */
    method InsertPhysical(row: EntryRow, ghost w: Window, ghost from: nat, ghost f0: nat) returns (r: Inserted)
      requires Between(w, from, f0) && IsParent(db.work, row.sourceId, row.parentId)
      requires row.sourceId == w.sid && row.name != "" && !row.isVirtual
      modifies this`batchCounter, this`lostBegin, db
      ensures Between(w, from, f0) && Grew(old(db.Now()), db.Now())
      ensures r.New? ==> r.id !in old(db.work.entry) && r.id in db.work.entry && db.work.entry[r.id] == row
                         && batchCounter == old(batchCounter) + 1
      ensures db.work.checksum == old(db.work.checksum) && db.work.container == old(db.work.container)
      ensures !r.New? ==> db.faults > f0
      ensures old(lostBegin) ==> lostBegin
      ensures lostBegin && !old(lostBegin) ==> r.BatchFailed? && !db.inTxn && db.faults > old(db.faults)
    {
      hide Writing, Grew, FullyIndexed, Physical;
      ghost var c := db.Now();
      r := CountPhysical(row, w, from, f0);
      ghost var c1 := db.Now();
      if r.New? && batchCounter % BATCH_SIZE == 0 {
        WritingIsConsistent(c1, w, from, f0);
        var ok := Checkpoint(db, w, from, f0);
        GrewTwice(c, c1, db.Now());
        GrewFaults(c, c1);
        GrewFaults(c1, db.Now());
        if !db.inTxn {
          lostBegin := true;
        }
        if !ok {
          r := BatchFailed;
        }
      }
    }

    method CountPhysical(row: EntryRow, ghost w: Window, ghost from: nat, ghost f0: nat) returns (r: Inserted)
      requires Between(w, from, f0) && IsParent(db.work, row.sourceId, row.parentId)
      requires row.sourceId == w.sid && row.name != "" && !row.isVirtual
      modifies this`batchCounter, db
      ensures Counting(w, from, f0, old(batchCounter) / 1000) && Grew(old(db.Now()), db.Now()) && !r.BatchFailed?
      ensures r.NotInserted? ==> batchCounter == old(batchCounter) && db.faults > f0
      ensures r.New? ==> r.id !in old(db.work.entry) && r.id in db.work.entry && db.work.entry[r.id] == row
                         && batchCounter == old(batchCounter) + 1
      ensures db.work.checksum == old(db.work.checksum) && db.work.container == old(db.work.container)
      ensures db.inTxn == old(db.inTxn) && (db.inTxn ==> db.trace == old(db.trace))
    {
      hide Writing, Grew, FullyIndexed, Physical, IsNextId, IsShadow;
      SourceIsLive(db.Now(), w, from, f0);
      ghost var c := db.Now();
      WritingIsConsistent(c, w, from, f0);
      var inserted := AddEntry(db, row, w, from, f0);
      if inserted.Err? {
        return NotInserted;
      }
      GrewFaults(c, db.Now());
      NewPhysical(c.work, db.work, w.sid, inserted.value);
      batchCounter := batchCounter + 1;
      r := New(inserted.value);
    }

    /** What follows a file's entry: its digests, then its containers. Only a directory scan counts a file
        that could not be hashed. */
    method ScanContent(e: int, node: FsNode, options: Options, inDirectory: bool, ghost w: Window, ghost from: nat, ghost f0: nat)
      requires Writing(db.Now(), w, from, f0) && e in db.work.entry && db.work.entry[e].sourceId == w.sid && Unread(db.work, e)
      modifies this`filesScanned, this`errors, db
      ensures Writing(db.Now(), w, from, f0) && KeepsTree(old(db.Now()), db.Now(), w, f0)
      ensures errors >= old(errors) && KeepsContent(old(db.work), db.work, {e}) && filesScanned == old(filesScanned) + 1
      ensures db.faults == f0 ==> Holds(db.work, w.sid, e, node, options)
      ensures db.faults == f0 ==> ContentDone(old(db.work), db.work, e, w.sid, node, options)
      ensures db.faults == f0 ==>
        errors == old(errors) + One(inDirectory && Unhashed(node, options)) + One(Unexpanded(node, options))
    {
      hide Writing, KeepsTree, HasDigests, HasImage, ContentDone, IsShadow;
      ghost var c := db.Now();
      WritingIsConsistent(c, w, from, f0);
      filesScanned := filesScanned + 1;
      HashContent(e, node, options, inDirectory, w, from, f0);
      ghost var c1 := db.Now();
      KeepsTreeFaults(c, c1, w, f0);
      KeepsEntry(c, c1, w, f0, e);
      ExpandImage(e, node, options, w, from, f0);
      KeepsTreeTwice(c, c1, db.Now(), w, f0);
      KeepsTreeFaults(c1, db.Now(), w, f0);
      SameContent(c.work, c1.work, db.work, e, w.sid, node, options);
      if db.faults == f0 && node.isImage {
        ContentHolds(c.work, db.work, e, w.sid, node, options);
      }
    }

    /** A file's digests, when asked for; one that cannot be read is counted in a directory scan only. */
    method HashContent(e: int, node: FsNode, options: Options, inDirectory: bool, ghost w: Window, ghost from: nat, ghost f0: nat)
      requires Writing(db.Now(), w, from, f0) && e in db.work.entry && db.work.entry[e].sourceId == w.sid && Unread(db.work, e)
      modifies this`errors, db
      ensures Writing(db.Now(), w, from, f0) && KeepsTree(old(db.Now()), db.Now(), w, f0)
      ensures KeepsContent(old(db.work), db.work, {e})
      ensures db.work.entry == old(db.work.entry) && db.work.container == old(db.work.container)
      ensures Chosen(node, options) == [] ==> db.work.checksum == old(db.work.checksum)
      ensures db.faults == f0 ==> HasDigests(db.work, e, Chosen(node, options), node.content)
      ensures errors == old(errors) + One(inDirectory && Unhashed(node, options))
    {
      hide Writing, Grew, FullyIndexed, Physical, KeepsTree, KeepsContent, HasDigests, IsShadow, Unread, Chosen, Consistent;
      ghost var c := db.Now();
      GrewSelf(c);
      KeepsContentSelf(c.work, {e});
      SameTree(c, c, w, f0);
      WritingIsConsistent(c, w, from, f0);
      NoDigests(c.work, e, node.content);
      ChosenIs(node, options);
      if options.computeChecksum && options.algorithms != [] {
        var ok := ComputeChecksums(db, e, node.content, node.opens, options.algorithms, w, from, f0);
        SameTree(c, db.Now(), w, f0);
        GrewFaults(c, db.Now());
        SameDigests(c.work, db.work, e, node.content);
        if !ok && inDirectory {
          errors := errors + 1;
        }
      }
    }

    /** A file's container, if a provider is found for it. */
    method ExpandImage(e: int, node: FsNode, options: Options, ghost w: Window, ghost from: nat, ghost f0: nat)
      requires Writing(db.Now(), w, from, f0) && e in db.work.entry && db.work.entry[e].sourceId == w.sid
      modifies this`errors, db
      ensures Writing(db.Now(), w, from, f0) && KeepsTree(old(db.Now()), db.Now(), w, f0)
      ensures db.work.checksum == old(db.work.checksum) && KeepsContent(old(db.work), db.work, {})
      ensures old(errors) <= errors <= old(errors) + One(Unexpanded(node, options))
      ensures db.faults == old(db.faults) ==> errors == old(errors) + One(Unexpanded(node, options))
      ensures errors > old(errors) ==> db.work.container != old(db.work.container)
      ensures db.faults == old(db.faults) ==> ContentDone(old(db.work), db.work, e, w.sid, node, options)
    {
      hide Writing, Grew, FullyIndexed, Physical, PlanDone, StartsAt;
      ghost var c := db.Now();
      GrewSelf(c);
      WritingIsConsistent(c, w, from, f0);
      ShadowIsWf(c.work, w);
      PlanStarts(c.work, e);
      ghost var start :| StartsAt(start, c.work, e);
      if node.isImage {
        var ok := ExpandContainer(db, e, node.plan, options.maxContainerDepth >= 1, node.expands, start, w, from, f0);
        if !ok {
          errors := errors + 1;
        }
      }
    }
  }

  lemma SameTree(c: State, d: State, w: Window, f0: nat)
    requires Grew(c, d) && d.inTxn == c.inTxn && (c.inTxn ==> d.trace == c.trace) && d.work.entry == c.work.entry && d.work.fts == c.work.fts
    ensures KeepsTree(c, d, w, f0)
  {
    SameEntries(c.work, d.work, w.sid);
    hide Grew, Physical, FullyIndexed;
  }

  lemma KeepsTreeIs(c: State, d: State, w: Window, f0: nat)
    requires KeepsTree(c, d, w, f0)
    ensures Grew(c, d) && d.inTxn == c.inTxn && (c.inTxn ==> d.trace == c.trace)
    ensures Physical(d.work, w.sid) == Physical(c.work, w.sid)
    ensures d.faults == f0 && FullyIndexed(c.work, w.sid) ==> FullyIndexed(d.work, w.sid)
  {
    hide Grew, Physical, FullyIndexed;
  }

  lemma KeepsMoreContent(a: Tables, b: Tables, e: int)
    requires KeepsContent(a, b, {})
    ensures KeepsContent(a, b, {e})
  {
  }

  lemma ChosenIs(node: FsNode, options: Options)
    ensures options.computeChecksum && options.algorithms != [] ==> Chosen(node, options) == if node.opens then options.algorithms else []
    ensures !options.computeChecksum || options.algorithms == [] ==> Chosen(node, options) == []
  {
  }

  lemma NoDigests(t: Tables, e: int, content: seq<bv8>)
    requires Unread(t, e)
    ensures HasDigests(t, e, [], content)
  {
  }

  lemma SameDigests(t: Tables, r: Tables, e: int, content: seq<bv8>)
    requires HasDigests(t, e, [], content)
    ensures r.checksum == t.checksum ==> HasDigests(r, e, [], content)
  {
  }

  lemma NewIsUnread(a: Tables, b: Tables, e: int)
    requires References(a) && e !in a.entry && b.checksum == a.checksum
    ensures Unread(b, e)
  {
  }

  /** One more node behind those that were listed already. */
  lemma OneMoreListed(a: Tables, b: Tables, sid: int, parent: int, nodes: seq<FsNode>, i: nat, options: Options, content: bool)
    requires i < |nodes| && SourceStays(a, b, sid) && Listed(a, sid, parent, nodes[..i], options, content)
    requires Seen(nodes[i]) ==> ListedNode(b, sid, parent, nodes[i], options, content)
    ensures Listed(b, sid, parent, nodes[..i + 1], options, content)
  {
    hide SourceStays, ListedNode;
    ListedStays(a, b, sid, parent, nodes[..i], options, content);
    assert forall k | 0 <= k < i :: nodes[..i][k] == nodes[k];
  }

  lemma ContentHolds(a: Tables, b: Tables, e: int, sid: int, node: FsNode, options: Options)
    requires ContentDone(a, b, e, sid, node, options) && node.isImage
    ensures HasImage(b, sid, e, ImageSteps(node.plan, options.maxContainerDepth >= 1))
  {
    hide PlanDone, IdsAreNext;
  }

  lemma WritingReferences(c: State, w: Window, from: nat, f0: nat)
    requires Writing(c, w, from, f0)
    ensures References(c.work)
  {
  }

  lemma KeepsEntry(c: State, d: State, w: Window, f0: nat, e: int)
    requires KeepsTree(c, d, w, f0) && e in c.work.entry
    ensures e in d.work.entry && d.work.entry[e] == c.work.entry[e]
  {
  }

  lemma SameContent(a: Tables, b: Tables, c: Tables, e: int, sid: int, node: FsNode, options: Options)
    requires a.entry == b.entry && a.container == b.container
    ensures ContentDone(b, c, e, sid, node, options) ==> ContentDone(a, c, e, sid, node, options)
    ensures b.checksum == c.checksum && HasDigests(b, e, Chosen(node, options), node.content) ==>
              HasDigests(c, e, Chosen(node, options), node.content)
  {
    if ContentDone(b, c, e, sid, node, options) && node.isImage {
      var start :| StartsAt(start, b, e)
                   && HasRowsOf(c, PlanDone(start, sid, ImageSteps(node.plan, options.maxContainerDepth >= 1)));
      assert StartsAt(start, a, e);
    }
  }

  /** Behind a file's entry: the rows of the image it holds, or none. */
  ghost predicate ContentDone(before: Tables, after: Tables, e: int, sid: int, node: FsNode, options: Options) {
    if node.isImage then
      exists start :: StartsAt(start, before, e)
                      && HasRowsOf(after, PlanDone(start, sid, ImageSteps(node.plan, options.maxContainerDepth >= 1)))
    else after.entry == before.entry && after.container == before.container
  }

  lemma GrewFaults(c: State, d: State)
    requires Grew(c, d)
    ensures c.faults <= d.faults
  {
  }

  lemma GrewSelf(c: State)
    ensures Grew(c, c)
  {
    PrefixOfSelf(c.work);
  }

  lemma EntriesGrew(c: State, d: State)
    requires Grew(c, d)
    ensures forall e <- c.work.entry :: e in d.work.entry && d.work.entry[e] == c.work.entry[e]
    ensures c.work.entry.Keys <= d.work.entry.Keys
  {
  }

  lemma SameEntries(t: Tables, r: Tables, sid: int)
    requires t.entry == r.entry && t.fts == r.fts
    ensures Physical(r, sid) == Physical(t, sid)
    ensures FullyIndexed(r, sid) <==> FullyIndexed(t, sid)
  {
  }

  lemma NewPhysical(t: Tables, r: Tables, sid: int, e: int)
    requires e !in t.entry && Physical(r, sid) == Physical(t, sid) + {e}
    ensures |Physical(r, sid)| == |Physical(t, sid)| + 1
  {
    assert e !in Physical(t, sid);
  }
}
