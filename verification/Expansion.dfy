/** Writing an image's entries and the images inside it, as deep as containers may nest. */
module Expansion {

  import opened Results
  import opened Walk

  /** What expansion writes, in order: virtual entries, each through the writer of one container, and
      registrations of the nested images that are expanded next. */
  datatype Write =
    | Added(id: int, parent: int, container: int, entry: Entry)
    | Registered(id: int, depth: int, image: int)

  /** The container being walked: its entry's id, what it holds and how deep it is nested. */
  datatype Box = Box(id: int, tree: Tree, depth: int)

  /** Writes, the ids given to the walked container's own entries, and the next free id. */
  datatype Output = Output(writes: seq<Write>, ids: seq<int>, next: int)

  function MaxDepth(world: World): int { if world.limits.maxDepth > 0 then world.limits.maxDepth else 1 }

  function Room(world: World, depth: int): nat {
    if depth < MaxDepth(world) then MaxDepth(world) - depth else 0
  }

  function ContainerDepth(current: int): int { if current > 0 then current else 1 }

  function IdOf(box: Box, ids: seq<int>, slot: int): int {
    if 0 <= slot < |ids| then ids[slot] else box.id
  }

  /** A file that is extracted and expanded: it is named like an image, nesting may go deeper, and it
      can be read out of the image it lies in. */
  function Inside(world: World, box: Box, e: Entry): Option<int> {
    if LooksLikeImage(e) && box.depth < MaxDepth(world) && Place(e.extent, e.size) in box.tree.images
    then Some(box.tree.images[Place(e.extent, e.size)]) else None
  }

  // ---------------------------------------------------------------- the specification

  /** What writing slots adds, when the slots before them got ids and hold total bytes. */
  ghost function Emit(world: World, box: Box, slots: seq<Slot>, ids: seq<int>, total: int, next: int): (out: Output)
    ensures out.next >= next + |slots| && |out.ids| == |ids| + |slots| && ids <= out.ids
    decreases Room(world, box.depth), 2, |slots|
  {
    if slots == [] then Output([], ids, next)
    else
      var head := EmitOne(world, box, slots[0], ids, total, next);
      Join(head, Emit(world, box, slots[1..], head.ids, total + slots[0].entry.size, head.next))
  }

  /** One entry, and behind it the image it may hold; an entry that overflows is not looked into. */
  ghost function EmitOne(world: World, box: Box, slot: Slot, ids: seq<int>, total: int, next: int): (out: Output)
    ensures out.next >= next + 1 && out.ids == ids + [next]
    decreases Room(world, box.depth), 1
  {
    var nested := if TooBig(world.limits, total + slot.entry.size) then Output([], [], next + 1)
                  else EmitNested(world, box, slot.entry, next);
    Output([Added(next, IdOf(box, ids, slot.parent), box.id, slot.entry)] + nested.writes, ids + [next], nested.next)
  }

  function Join(first: Output, second: Output): Output {
    Output(first.writes + second.writes, second.ids, second.next)
  }

  ghost function EmitNested(world: World, box: Box, e: Entry, id: int): (out: Output)
    ensures out.next >= id + 1
    decreases Room(world, box.depth), 0
  {
    var image := Inside(world, box, e);
    if image.None? then Output([], [], id + 1) else EmitOpened(world, image.value, id, box.depth + 1, id + 1)
  }

  ghost function EmitOpened(world: World, image: int, id: int, depth: int, next: int): (out: Output)
    requires depth <= MaxDepth(world)
    ensures out.next >= next
    decreases Room(world, depth), 4
  {
    var inner := match Opened(world, image)
      case None => Output([], [], next)
      case Some(tree) => Expand(world, Box(id, tree, depth), next);
    inner.(writes := [Registered(id, depth, image)] + inner.writes)
  }

  /** A whole container: its unfolding, cut by its own limits. */
  ghost function Expand(world: World, box: Box, next: int): (out: Output)
    ensures out.next >= next
    decreases Room(world, box.depth), 3
  {
    Emit(world, box, Cut(world, box.tree), [], 0, next)
  }

  ghost function Cut(world: World, tree: Tree): seq<Slot> {
    Kept(world.limits, Unfold(tree, tree.root, -1, 0, 1), 0, 0)
  }

  lemma {:induction false} EmitConcat(world: World, box: Box, a: seq<Slot>, b: seq<Slot>, ids: seq<int>, total: int, next: int)
    ensures var first := Emit(world, box, a, ids, total, next);
            Emit(world, box, a + b, ids, total, next) ==
            Join(first, Emit(world, box, b, first.ids, total + Total(a), first.next))
    decreases |a|
  {
    hide EmitOne, Join;
    if a == [] {
      assert Join(Output([], ids, next), Emit(world, box, b, ids, total, next)) == Emit(world, box, b, ids, total, next) by {
        JoinNothing(Emit(world, box, b, ids, total, next), ids, next);
      }
      assert a + b == b;
    } else {
      assert (a + b)[0] == a[0] && (a + b)[1..] == a[1..] + b;
      var head := EmitOne(world, box, a[0], ids, total, next);
      var mid := Emit(world, box, a[1..], head.ids, total + a[0].entry.size, head.next);
      var last := Emit(world, box, b, mid.ids, total + Total(a), mid.next);
      EmitConcat(world, box, a[1..], b, head.ids, total + a[0].entry.size, head.next);
      assert Emit(world, box, a + b, ids, total, next) == Join(head, Join(mid, last));
      JoinAssociates(head, mid, last);
      assert Emit(world, box, a, ids, total, next) == Join(head, mid);
    }
  }

  lemma JoinNothing(out: Output, ids: seq<int>, next: int)
    ensures Join(Output([], ids, next), out) == out
  {
  }

  lemma JoinAssociates(a: Output, b: Output, c: Output)
    ensures Join(a, Join(b, c)) == Join(Join(a, b), c) && Join(a, b).ids == b.ids && Join(a, b).next == b.next
  {
    assert a.writes + (b.writes + c.writes) == (a.writes + b.writes) + c.writes;
  }

  lemma Nothing(world: World, box: Box, ids: seq<int>, total: int, next: int)
    ensures Emit(world, box, [], ids, total, next) == Output([], ids, next) && Total([]) == 0
    ensures Kept(world.limits, [], |ids|, total) == []
  {
  }

  lemma NothingKept(limits: Limits, slots: seq<Slot>, count: int, total: int)
    requires Full(limits, count, total)
    ensures Kept(limits, slots, count, total) == [] && Total([]) == 0
  {
  }

  lemma UnfoldStep(tree: Tree, entries: seq<Entry>, i: nat, parent: int, first: nat, depth: nat)
    requires i < |entries| && depth <= MAX_DIR_DEPTH
    ensures var e := Admit(tree, entries[i]);
            var chunk := if e.Some? then [Slot(parent, e.value)] + Below(tree, e.value, first, depth) else [];
            Unfold(tree, entries[i..], parent, first, depth)
            == chunk + Unfold(tree, entries[i + 1..], parent, first + |chunk|, depth)
  {
    hide Admit, Below;
    assert entries[i..][1..] == entries[i + 1..];
  }

  lemma UnfoldEnd(tree: Tree, entries: seq<Entry>, parent: int, first: nat, depth: nat)
    requires depth <= MAX_DIR_DEPTH
    ensures Unfold(tree, entries[|entries|..], parent, first, depth) == []
  {
  }

  /** An entry that may still be written, then what lies below it. */
  lemma EntryThenBelow(world: World, box: Box, one: Slot, below: seq<Slot>, ids: seq<int>, total: int, next: int)
    requires !Full(world.limits, |ids|, total)
    ensures var kept := Kept(world.limits, below, |ids| + 1, total + one.entry.size);
            var first := EmitOne(world, box, one, ids, total, next);
            && Kept(world.limits, [one] + below, |ids|, total) == [one] + kept
            && Emit(world, box, [one] + kept, ids, total, next)
               == Join(first, Emit(world, box, kept, first.ids, total + one.entry.size, first.next))
            && Total([one] + kept) == one.entry.size + Total(kept)
  {
    hide EmitOne;
    var kept := Kept(world.limits, below, |ids| + 1, total + one.entry.size);
    assert ([one] + below)[1..] == below;
    assert ([one] + kept)[1..] == kept;
  }

  /** No later entry can be kept. */
  predicate Full(limits: Limits, count: int, total: int) {
    TooMany(limits, count) || TooBig(limits, total)
  }

  /** Done slots that all fit, a chunk and the rest: what is kept, written and counted adds up. */
  lemma Adding(world: World, box: Box, done: seq<Slot>, chunk: seq<Slot>, after: seq<Slot>, ids: seq<int>, total: int, next: int)
    requires Kept(world.limits, done, |ids|, total) == done
    ensures var kept := Kept(world.limits, chunk, |ids| + |done|, total + Total(done));
            var first := Emit(world, box, done, ids, total, next);
            && Kept(world.limits, done + chunk, |ids|, total) == done + kept
            && Emit(world, box, done + kept, ids, total, next)
               == Join(first, Emit(world, box, kept, first.ids, total + Total(done), first.next))
            && Total(done + kept) == Total(done) + Total(kept)
            && (Full(world.limits, |ids| + |done| + |kept|, total + Total(done) + Total(kept)) || |kept| < |chunk| ==>
                  Kept(world.limits, done + chunk + after, |ids|, total) == done + kept)
  {
    hide Emit;
    var kept := Kept(world.limits, chunk, |ids| + |done|, total + Total(done));
    KeptConcat(world.limits, done, chunk, |ids|, total);
    KeptConcat(world.limits, done + chunk, after, |ids|, total);
    EmitConcat(world, box, done, kept, ids, total, next);
    TotalConcat(done, kept);
    TotalConcat(done, chunk);
    KeptIsTheCut(world.limits, chunk, |ids| + |done|, total + Total(done));
    if |kept| < |chunk| {
      assert |done + kept| < |done + chunk|;
    } else {
      assert kept == chunk;
    }
  }

  // ---------------------------------------------------------------- the walk

  /** The counters and the flag that the recursive walk updates by reference. */
  class WalkState {
    var count: int
    var total: int
    var hit: bool
    ghost var ids: seq<int>

    constructor ()
      ensures count == 0 && total == 0 && !hit && ids == []
    {
      count, total, hit := 0, 0, false;
      ids := [];
    }
  }

  /** The catalogue side: virtual entries get consecutive ids. */
  class VirtualTree {
    var log: seq<Write>
    var nextId: int

    constructor (next: int)
      ensures log == [] && nextId == next
    {
      log, nextId := [], next;
    }

    method AddEntry(parent: int, container: int, e: Entry) returns (id: int)
      modifies this
      ensures id == old(nextId) && nextId == id + 1
      ensures log == old(log) + [Added(id, parent, container, e)]
    {
      id := nextId;
      log := log + [Added(id, parent, container, e)];
      nextId := nextId + 1;
    }

    method Register(id: int, depth: int, image: int)
      modifies this`log
      ensures log == old(log) + [Registered(id, depth, image)]
    {
      log := log + [Registered(id, depth, image)];
    }
  }

  class Provider {
    const world: World

    constructor (world: World)
      ensures this.world == world
    {
      this.world := world;
    }

    /** The walk as far as done, started when ids, total and next were current. */
    ghost predicate Wrote(box: Box, done: seq<Slot>, ids: seq<int>, total: int, next: int, before: seq<Write>,
                          state: WalkState, out: VirtualTree)
      reads state, out
    {
      var emitted := Emit(world, box, done, ids, total, next);
      && out.log == before + emitted.writes
      && out.nextId == emitted.next
      && state.ids == emitted.ids
      && state.count == |state.ids|
      && state.total == total + Total(done)
    }

    /** What one call owes for the slots it was to write: those kept are written, and the flag is raised
        when a limit is reached, but not while everything fits. */
    ghost predicate WroteKept(box: Box, slots: seq<Slot>, ids: seq<int>, total: int, next: int, before: seq<Write>,
                              state: WalkState, out: VirtualTree)
      reads state, out
    {
      var kept := Kept(world.limits, slots, |ids|, total);
      && Wrote(box, kept, ids, total, next, before, state, out)
      && (state.hit ==> Full(world.limits, state.count, state.total))
      && (!state.hit ==> kept == slots && !TooBig(world.limits, state.total))
    }

    /** One listing: what is written below parentId is its unfolding, cut where a limit is reached. */
    method WalkDirectory(box: Box, entries: seq<Entry>, parentId: int, depth: nat, state: WalkState, out: VirtualTree,
                         ghost parent: int)
      requires 1 <= depth <= MAX_DIR_DEPTH
      requires 1 <= box.depth && !state.hit && state.count == |state.ids| && !TooBig(world.limits, state.total)
      requires parentId == IdOf(box, state.ids, parent) && parent < |state.ids|
      modifies state, out
      ensures WroteKept(box, Unfold(box.tree, entries, parent, old(state.count), depth),
                        old(state.ids), old(state.total), old(out.nextId), old(out.log), state, out)
      decreases Room(world, box.depth), 1, MAX_DIR_DEPTH - depth, 1
    {
      hide Emit, EmitOne, Expand, Kept, Unfold, Below, Admit, TooMany, TooBig, Total;
      ghost var ids, total, next, before := state.ids, state.total, out.nextId, out.log;
      ghost var slots := Unfold(box.tree, entries, parent, state.count, depth);
      ghost var done: seq<Slot> := [];
      Nothing(world, box, ids, total, next);
      var i := 0;
      while i < |entries| && !state.hit
        invariant 0 <= i <= |entries|
        invariant Wrote(box, done, ids, total, next, before, state, out)
        invariant state.hit ==> Full(world.limits, state.count, state.total)
        invariant state.hit ==> done == Kept(world.limits, slots, |ids|, total)
        invariant !state.hit ==> slots == done + Unfold(box.tree, entries[i..], parent, state.count, depth)
        invariant !state.hit ==> !TooBig(world.limits, state.total) && Kept(world.limits, done, |ids|, total) == done
      {
        UnfoldStep(box.tree, entries, i, parent, state.count, depth);
        var e := Admit(box.tree, entries[i]);
        ghost var chunk := if e.Some? then [Slot(parent, e.value)] + Below(box.tree, e.value, state.count, depth) else [];
        ghost var after := Unfold(box.tree, entries[i + 1..], parent, state.count + |chunk|, depth);
        assert slots == done + chunk + after;
        Adding(world, box, done, chunk, after, ids, total, next);
        if TooMany(world.limits, state.count) {
          NothingKept(world.limits, chunk, state.count, state.total);
          state.hit := true;
        } else if e.Some? {
          done := done + Kept(world.limits, chunk, state.count, state.total);
          WriteEntry(box, e.value, parentId, depth, state, out, parent);
        }
        i := i + 1;
      }
      if !state.hit {
        UnfoldEnd(box.tree, entries, parent, state.count, depth);
        assert done == slots;
      }
    }

    /** One entry and everything below it. */
    method WriteEntry(box: Box, e: Entry, parentId: int, depth: nat, state: WalkState, out: VirtualTree, ghost parent: int)
      requires 1 <= depth <= MAX_DIR_DEPTH
      requires 1 <= box.depth && !state.hit && state.count == |state.ids| && !Full(world.limits, state.count, state.total)
      requires parentId == IdOf(box, state.ids, parent) && parent < |state.ids|
      modifies state, out
      ensures WroteKept(box, [Slot(parent, e)] + Below(box.tree, e, old(state.count), depth),
                        old(state.ids), old(state.total), old(out.nextId), old(out.log), state, out)
      decreases Room(world, box.depth), 1, MAX_DIR_DEPTH - depth, 0
    {
      hide Unfold, Emit, Expand, Kept, Total, TooMany, TooBig;
      ghost var ids, total, next := state.ids, state.total, out.nextId;
      ghost var one, at := Slot(parent, e), state.count;
      ghost var below := Below(box.tree, e, at, depth);
      EntryThenBelow(world, box, one, below, ids, total, next);
      Nothing(world, box, ids + [next], total + e.size, EmitOne(world, box, one, ids, total, next).next);
      var id := out.AddEntry(parentId, box.id, e);
      state.ids := state.ids + [id];
      state.count := state.count + 1;
      state.total := state.total + e.size;
      if TooBig(world.limits, state.total) {
        NothingKept(world.limits, below, at + 1, state.total);
        state.hit := true;
      } else if e.isDirectory {
        if depth < MAX_DIR_DEPTH {
          var children := Listing(box.tree, e, depth);
          if children.Some? {
            WalkDirectory(box, children.value, id, depth + 1, state, out, at);
          }
        }
      } else {
        var image := Inside(world, box, e);
        if image.Some? {
          ExpandNested(image.value, id, box.depth + 1, out);
        }
      }
    }

    /** Registers an extracted image and expands it, if it opens. */
    method ExpandNested(image: int, id: int, depth: int, out: VirtualTree)
      requires depth <= MaxDepth(world) && 1 < depth
      modifies out
      ensures out.log == old(out.log) + EmitOpened(world, image, id, depth, old(out.nextId)).writes
      ensures out.nextId == EmitOpened(world, image, id, depth, old(out.nextId)).next
      decreases Room(world, depth), 3
    {
      out.Register(id, depth, image);
      var tree := Opened(world, image);
      if tree.Some? {
        ScanTree(tree.value, id, depth, out);
      }
    }

    /** Walks one opened image with counters and limits of its own. */
    method ScanTree(tree: Tree, id: int, currentDepth: int, out: VirtualTree)
      modifies out
      ensures var written := Expand(world, Box(id, tree, ContainerDepth(currentDepth)), old(out.nextId));
              out.log == old(out.log) + written.writes && out.nextId == written.next
      decreases Room(world, ContainerDepth(currentDepth)), 2
    {
      var state := new WalkState();
      WalkDirectory(Box(id, tree, ContainerDepth(currentDepth)), tree.root, id, 1, state, out, -1);
    }

    /** Expands a container image of the catalogue. */
    method Scan(image: int, id: int, currentDepth: int, out: VirtualTree) returns (ok: bool)
      modifies out
      ensures ok <==> image in world.discs && (world.discs[image].udf.Some? || world.discs[image].iso.Some?)
      ensures !ok ==> out.log == old(out.log) && out.nextId == old(out.nextId)
      ensures ok ==> var disc := world.discs[image];
                     var tree := if disc.udf.Some? then disc.udf.value else disc.iso.value;
                     var written := Expand(world, Box(id, tree, if currentDepth > 0 then currentDepth else 1), old(out.nextId));
                     out.log == old(out.log) + written.writes && out.nextId == written.next
    {
      var tree := Opened(world, image);
      ok := tree.Some?;
      if ok {
        ScanTree(tree.value, id, currentDepth, out);
      }
    }
  }
}
