/** Expanding an image is one of the plans that the scanner carries out for a provider. */
module ProviderPlan {

  import opened Results
  import opened Walk
  import opened Expansion
  import opened ScanTree
  import Tables

  // ---------------------------------------------------------------- ids in write order

  ghost function AddedIn(writes: seq<Write>): nat {
    if writes == [] then 0 else (if writes[0].Added? then 1 else 0) + AddedIn(writes[1..])
  }

  /** The image's own entry, or one written since. */
  ghost predicate Known(id: int, root: int, first: int, next: int) {
    id == root || first <= id < next
  }

  /** Entries take consecutive ids, below an entry that is there already; nested images are registered
      at entries that are there already. */
  ghost predicate InOrder(writes: seq<Write>, root: int, first: int, next: int)
    decreases |writes|
  {
    writes != [] ==>
      match writes[0]
      case Added(id, parent, _, e) =>
        id == next && Known(parent, root, first, next) && e.name != "" && InOrder(writes[1..], root, first, next + 1)
      case Registered(id, _, _) => Known(id, root, first, next) && InOrder(writes[1..], root, first, next)
  }

  lemma {:induction false} InOrderConcat(a: seq<Write>, b: seq<Write>, root: int, first: int, next: int)
    requires InOrder(a, root, first, next) && InOrder(b, root, first, next + AddedIn(a))
    ensures InOrder(a + b, root, first, next) && AddedIn(a + b) == AddedIn(a) + AddedIn(b)
    decreases |a|
  {
    hide Known;
    if a == [] {
      assert a + b == b;
    } else {
      assert (a + b)[0] == a[0] && (a + b)[1..] == a[1..] + b;
      InOrderConcat(a[1..], b, root, first, if a[0].Added? then next + 1 else next);
    }
  }

  ghost predicate AllNamed(slots: seq<Slot>) {
    forall k | 0 <= k < |slots| :: slots[k].entry.name != ""
  }

  ghost predicate AllKnown(ids: seq<int>, root: int, first: int, next: int) {
    forall k | 0 <= k < |ids| :: Known(ids[k], root, first, next)
  }

  lemma {:induction false} UnfoldIsNamed(tree: Tree, entries: seq<Entry>, parent: int, first: nat, depth: nat)
    requires depth <= MAX_DIR_DEPTH
    ensures AllNamed(Unfold(tree, entries, parent, first, depth))
    decreases MAX_DIR_DEPTH - depth, |entries|
  {
    hide Listing, ResolvePlaceholder;
    if entries != [] {
      var e := Admit(tree, entries[0]);
      if e.None? {
        UnfoldIsNamed(tree, entries[1..], parent, first, depth);
      } else {
        var below := Below(tree, e.value, first, depth);
        if below != [] {
          UnfoldIsNamed(tree, Listing(tree, e.value, depth).value, first, first + 1, depth + 1);
        }
        UnfoldIsNamed(tree, entries[1..], parent, first + 1 + |below|, depth);
      }
    }
  }

  lemma CutIsNamed(world: World, tree: Tree)
    ensures AllNamed(Cut(world, tree))
  {
    UnfoldIsNamed(tree, tree.root, -1, 0, 1);
    KeptIsTheCut(world.limits, Unfold(tree, tree.root, -1, 0, 1), 0, 0);
  }

  lemma {:induction false} EmitInOrder(world: World, box: Box, slots: seq<Slot>, ids: seq<int>, total: int, next: int, root: int, first: int)
    requires Known(box.id, root, first, next) && AllKnown(ids, root, first, next) && AllNamed(slots) && first <= next
    ensures var out := Emit(world, box, slots, ids, total, next);
            InOrder(out.writes, root, first, next) && out.next == next + AddedIn(out.writes)
    decreases Room(world, box.depth), 2, |slots|
  {
    hide EmitOne, InOrder, AddedIn, Known;
    if slots == [] {
      NothingInOrder(root, first, next);
    } else {
      StillKnown(box.id, ids, next, root, first, next + 1);
      var head := EmitOne(world, box, slots[0], ids, total, next);
      var rest := Emit(world, box, slots[1..], head.ids, total + slots[0].entry.size, head.next);
      OneInOrder(world, box, slots[0], ids, total, next, root, first);
      StillKnown(box.id, head.ids, next + 1, root, first, head.next);
      EmitInOrder(world, box, slots[1..], head.ids, total + slots[0].entry.size, head.next, root, first);
      InOrderConcat(head.writes, rest.writes, root, first, next);
    }
  }

  /** What is known stays known, and so is the id just given. */
  lemma StillKnown(id: int, ids: seq<int>, next: int, root: int, first: int, later: int)
    requires Known(id, root, first, next) && AllKnown(ids, root, first, next) && first <= next <= later
    ensures Known(id, root, first, later) && AllKnown(ids, root, first, later)
    ensures next < later ==> AllKnown(ids + [next], root, first, later)
  {
  }

  lemma NothingInOrder(root: int, first: int, next: int)
    ensures InOrder([], root, first, next) && AddedIn([]) == 0
  {
  }

  lemma {:induction false} OneInOrder(world: World, box: Box, slot: Slot, ids: seq<int>, total: int, next: int, root: int, first: int)
    requires Known(box.id, root, first, next) && AllKnown(ids, root, first, next) && slot.entry.name != "" && first <= next
    ensures var out := EmitOne(world, box, slot, ids, total, next);
            InOrder(out.writes, root, first, next) && out.next == next + AddedIn(out.writes)
    decreases Room(world, box.depth), 1
  {
    var add := Added(next, IdOf(box, ids, slot.parent), box.id, slot.entry);
    var nested := if TooBig(world.limits, total + slot.entry.size) then Output([], [], next + 1)
                  else EmitNested(world, box, slot.entry, next);
    var image := Inside(world, box, slot.entry);
    if !TooBig(world.limits, total + slot.entry.size) && image.Some? {
      OpenedInOrder(world, image.value, next, box.depth + 1, next + 1, root, first);
    } else {
      NothingInOrder(root, first, next + 1);
    }
    assert EmitOne(world, box, slot, ids, total, next).writes == [add] + nested.writes;
    assert ([add] + nested.writes)[1..] == nested.writes;
  }

  lemma {:induction false} OpenedInOrder(world: World, image: int, id: int, depth: int, next: int, root: int, first: int)
    requires depth <= MaxDepth(world) && Known(id, root, first, next) && first <= next
    ensures var out := EmitOpened(world, image, id, depth, next);
            InOrder(out.writes, root, first, next) && out.next == next + AddedIn(out.writes)
    decreases Room(world, depth), 4
  {
    NothingInOrder(root, first, next);
    var tree := Opened(world, image);
    var out := EmitOpened(world, image, id, depth, next);
    if tree.Some? {
      CutIsNamed(world, tree.value);
      EmitInOrder(world, Box(id, tree.value, depth), Cut(world, tree.value), [], 0, next, root, first);
    }
    assert out.writes == [Registered(id, depth, image)] + out.writes[1..];
  }

  // ---------------------------------------------------------------- the plan

  /** What the scanner has written for a plan so far: the image's entry and n more. */
  ghost function WrittenSoFar(root: int, first: int, n: nat): seq<int> {
    [root] + seq(n, i => first + i)
  }

  function Position(id: int, first: int): nat {
    if id < first then 0 else id - first + 1
  }

  function KindOf(e: Entry): Tables.EntryType {
    if e.isSymlink then Tables.Symlink else if e.isDirectory then Tables.Directory else Tables.File
  }

  function StepFor(w: Write, first: int): VirtualStep {
    match w
    case Added(_, parent, _, e) => AddVirtual(Position(parent, first), e.name, KindOf(e), e.size)
    case Registered(id, _, _) => Nested(Position(id, first))
  }

  /** Carried out when these entries are written, the step writes what the write says. */
  ghost predicate StandsFor(step: VirtualStep, w: Write, written: seq<int>) {
    match w
    case Added(_, parent, _, e) =>
      && step.AddVirtual? && step.under < |written| && written[step.under] == parent
      && step.name == e.name != "" && step.kind == KindOf(e) && step.size == e.size
    case Registered(id, _, _) => step.Nested? && step.at < |written| && written[step.at] == id
  }

  lemma {:induction false} InOrderStandsFor(writes: seq<Write>, root: int, first: int, done: nat, k: nat)
    requires InOrder(writes, root, first, first + done) && root < first && k < |writes|
    ensures StandsFor(StepFor(writes[k], first), writes[k], WrittenSoFar(root, first, done + AddedIn(writes[..k])))
    decreases k
  {
    if k > 0 {
      assert writes[..k][0] == writes[0] && writes[..k][1..] == writes[1..][..k - 1];
      InOrderStandsFor(writes[1..], root, first, if writes[0].Added? then done + 1 else done, k - 1);
    }
  }

  /** Whatever an image contains, its expansion is a plan of the kind the scanner carries out: every step
      names an entry that is there when its turn comes. */
  lemma ExpansionIsAPlan(world: World, image: int, id: int, current: int, next: int, k: nat)
    requires Opened(world, image).Some? && id < next
    requires k < |Expand(world, Box(id, Opened(world, image).value, ContainerDepth(current)), next).writes|
    ensures var writes := Expand(world, Box(id, Opened(world, image).value, ContainerDepth(current)), next).writes;
            StandsFor(StepFor(writes[k], next), writes[k], WrittenSoFar(id, next, AddedIn(writes[..k])))
  {
    var box := Box(id, Opened(world, image).value, ContainerDepth(current));
    CutIsNamed(world, box.tree);
    EmitInOrder(world, box, Cut(world, box.tree), [], 0, next, id, next);
    InOrderStandsFor(Expand(world, box, next).writes, id, next, 0, k);
  }

  // ---------------------------------------------------------------- the plan carried out

  ghost function PlanOf(writes: seq<Write>, first: int): (plan: seq<VirtualStep>)
    ensures |plan| == |writes| && forall k | 0 <= k < |plan| :: plan[k] == StepFor(writes[k], first)
  {
    if writes == [] then [] else PlanOf(writes[..|writes| - 1], first) + [StepFor(writes[|writes| - 1], first)]
  }

  ghost function RowOf(sid: int, w: Write): Tables.EntryRow
    requires w.Added?
  {
    Tables.EntryRow(sid, w.parent, w.entry.name, KindOf(w.entry), w.entry.size, true)
  }

  /** The entry table with a row for every entry written. */
  ghost function RowsOf(entry: Tables.Entries, sid: int, writes: seq<Write>): Tables.Entries {
    if writes == [] then entry
    else
      var before, w := RowsOf(entry, sid, writes[..|writes| - 1]), writes[|writes| - 1];
      if w.Added? then before[w.id := RowOf(sid, w)] else before
  }

  lemma {:induction false} AddedInNext(writes: seq<Write>, k: nat)
    requires k < |writes|
    ensures AddedIn(writes[..k + 1]) == AddedIn(writes[..k]) + (if writes[k].Added? then 1 else 0)
    decreases k
  {
    assert writes[..k + 1][0] == writes[0] && writes[..k + 1][1..] == writes[1..][..k];
    if k > 0 {
      assert writes[..k][0] == writes[0] && writes[..k][1..] == writes[1..][..k - 1];
      AddedInNext(writes[1..], k - 1);
    }
  }

  lemma {:induction false} InOrderId(writes: seq<Write>, root: int, first: int, next: int, k: nat)
    requires InOrder(writes, root, first, next) && k < |writes| && writes[k].Added?
    ensures writes[k].id == next + AddedIn(writes[..k])
    decreases k
  {
    if k > 0 {
      assert writes[..k][0] == writes[0] && writes[..k][1..] == writes[1..][..k - 1];
      InOrderId(writes[1..], root, first, if writes[0].Added? then next + 1 else next, k - 1);
    }
  }

  ghost predicate Carried(q: Progress, entry: Tables.Entries, sid: int, writes: seq<Write>, root: int, first: int) {
    && q.entry == RowsOf(entry, sid, writes)
    && q.written == WrittenSoFar(root, first, AddedIn(writes))
    && q.nextEntry == first + AddedIn(writes)
  }

  lemma {:induction false} PlanIsCarriedOut(p: Progress, sid: int, writes: seq<Write>, root: int, first: int, k: nat)
    requires InOrder(writes, root, first, first) && root < first && k <= |writes|
    requires p.written == [root] && p.nextEntry == first
    ensures Carried(PlanDone(p, sid, PlanOf(writes, first)[..k]), p.entry, sid, writes[..k], root, first)
    decreases k
  {
    hide PlanDone, InOrder, RowsOf, AddedIn, StandsFor, Carried, StepFor, PlanOf, WrittenSoFar;
    var plan := PlanOf(writes, first);
    if k == 0 {
      NothingCarried(p, sid, root, first);
      assert plan[..0] == [] && writes[..0] == [];
    } else {
      var w := writes[k - 1];
      PlanIsCarriedOut(p, sid, writes, root, first, k - 1);
      InOrderStandsFor(writes, root, first, 0, k - 1);
      AddedInNext(writes, k - 1);
      if w.Added? {
        InOrderId(writes, root, first, first, k - 1);
      }
      OneMoreStep(p, sid, plan, k - 1);
      assert writes[..k - 1] + [w] == writes[..k];
      OneCarried(PlanDone(p, sid, plan[..k - 1]), p.entry, sid, writes[..k - 1], w, root, first);
    }
  }

  lemma NothingCarried(p: Progress, sid: int, root: int, first: int)
    requires p.written == [root] && p.nextEntry == first
    ensures Carried(PlanDone(p, sid, []), p.entry, sid, [], root, first)
  {
    assert WrittenSoFar(root, first, 0) == [root];
  }

  lemma OneCarried(q: Progress, entry: Tables.Entries, sid: int, done: seq<Write>, w: Write, root: int, first: int)
    requires Carried(q, entry, sid, done, root, first)
    requires StandsFor(StepFor(w, first), w, WrittenSoFar(root, first, AddedIn(done)))
    requires w.Added? ==> w.id == first + AddedIn(done)
    requires AddedIn(done + [w]) == AddedIn(done) + (if w.Added? then 1 else 0)
    ensures Carried(StepDone(q, sid, StepFor(w, first)), entry, sid, done + [w], root, first)
  {
    hide AddedIn, Position;
    assert (done + [w])[..|done|] == done;
    assert w.Added? ==> WrittenSoFar(root, first, AddedIn(done)) + [w.id] == WrittenSoFar(root, first, AddedIn(done) + 1);
  }

  lemma {:induction false} PlanInTwo(p: Progress, sid: int, step: VirtualStep, plan: seq<VirtualStep>)
    ensures PlanDone(p, sid, [step] + plan) == PlanDone(StepDone(p, sid, step), sid, plan)
    decreases |plan|
  {
    hide StepDone;
    if plan == [] {
      assert [step] + plan == [step] && [step][..0] == [];
      assert PlanDone(p, sid, []) == p;
    } else {
      var n := |plan| - 1;
      assert ([step] + plan)[..n + 1] == [step] + plan[..n] && ([step] + plan)[n + 1] == plan[n];
      PlanInTwo(p, sid, step, plan[..n]);
    }
  }

  lemma {:induction false} RowsAreThere(entry: Tables.Entries, sid: int, writes: seq<Write>, root: int, first: int, k: nat)
    requires InOrder(writes, root, first, first) && k <= |writes| && forall e <- entry :: e < first
    ensures var r := RowsOf(entry, sid, writes[..k]);
            && (forall e :: e in r <==> e in entry || first <= e < first + AddedIn(writes[..k]))
            && (forall e <- entry :: r[e] == entry[e])
            && (forall i | 0 <= i < k && writes[i].Added? :: writes[i].id in r && r[writes[i].id] == RowOf(sid, writes[i]))
    decreases k
  {
    if k > 0 {
      RowsAreThere(entry, sid, writes, root, first, k - 1);
      AddedInNext(writes, k - 1);
      assert writes[..k][..k - 1] == writes[..k - 1] && writes[..k][k - 1] == writes[k - 1];
      forall i | 0 <= i < k && writes[i].Added? ensures i == k - 1 || writes[i].id != first + AddedIn(writes[..k - 1]) {
        InOrderId(writes, root, first, first, i);
        if i < k - 1 {
          AddedGrows(writes, i, k - 1);
        }
      }
      if writes[k - 1].Added? {
        InOrderId(writes, root, first, first, k - 1);
      }
    }
  }

  lemma {:induction false} AddedGrows(writes: seq<Write>, i: nat, k: nat)
    requires i < k <= |writes| && writes[i].Added?
    ensures AddedIn(writes[..i]) < AddedIn(writes[..k])
    decreases k
  {
    AddedInNext(writes, k - 1);
    if i < k - 1 {
      AddedGrows(writes, i, k - 1);
    }
  }

  /** When an image is expanded without a fault, its rows are exactly those the walk wrote: one for every
      entry of each container's cut, under its parent; nothing else in the entry table changes. */
  lemma ExpansionFillsTheTable(world: World, image: int, e: int, current: int, start: Progress, t: Tables.Tables, sid: int)
    requires Opened(world, image).Some? && StartsAt(start, t, e) && e in t.entry
    ensures var writes := Expand(world, Box(e, Opened(world, image).value, ContainerDepth(current)), start.nextEntry).writes;
            var rows := PlanDone(start, sid, ImageSteps(PlanOf(writes, start.nextEntry), true)).entry;
            && (forall k :: k in rows <==> k in t.entry || start.nextEntry <= k < start.nextEntry + AddedIn(writes))
            && (forall k <- t.entry :: rows[k] == t.entry[k])
            && (forall i | 0 <= i < |writes| && writes[i].Added? ::
                  var w := writes[i];
                  && w.id in rows
                  && rows[w.id] == Tables.EntryRow(sid, w.parent, w.entry.name,
                       if w.entry.isSymlink then Tables.Symlink else if w.entry.isDirectory then Tables.Directory else Tables.File,
                       w.entry.size, true))
  {
    hide PlanDone, InOrder, AddedIn, RowsOf, PlanOf, Cut, Emit;
    var box, first := Box(e, Opened(world, image).value, ContainerDepth(current)), start.nextEntry;
    var writes := Expand(world, box, first).writes;
    var plan := PlanOf(writes, first);
    CutIsNamed(world, box.tree);
    EmitInOrder(world, box, Cut(world, box.tree), [], 0, first, e, first);
    PlanInTwo(start, sid, Nested(0), plan);
    PlanIsCarriedOut(StepDone(start, sid, Nested(0)), sid, writes, e, first, |writes|);
    assert plan[..|writes|] == plan && writes[..|writes|] == writes;
    RowsAreThere(t.entry, sid, writes, e, first, |writes|);
  }
}
