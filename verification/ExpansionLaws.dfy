/** What holds of a whole expansion, however the images refer to each other. */
module ExpansionLaws {

  import opened Results
  import opened Walk
  import opened Expansion

  // ---------------------------------------------------------------- one container among many

  /** An entry written through a container's writer, and how deep which image was registered right behind it. */
  datatype Own = Own(id: int, parent: int, entry: Entry, nested: Option<(int, int)>)

  ghost function Behind(rest: seq<Write>, id: int): Option<(int, int)> {
    if rest != [] && rest[0].Registered? && rest[0].id == id then Some((rest[0].depth, rest[0].image)) else None
  }

  /** What was written through one container's writer, in order. */
  ghost function OwnOf(writes: seq<Write>, container: int): seq<Own> {
    if writes == [] then []
    else
      var w := writes[0];
      (if w.Added? && w.container == container then [Own(w.id, w.parent, w.entry, Behind(writes[1..], w.id))] else [])
      + OwnOf(writes[1..], container)
  }

  ghost predicate StartsWithEntry(writes: seq<Write>) { writes == [] || writes[0].Added? }

  lemma {:induction false} OwnOfConcat(a: seq<Write>, b: seq<Write>, container: int)
    requires StartsWithEntry(b)
    ensures OwnOf(a + b, container) == OwnOf(a, container) + OwnOf(b, container)
  {
    if a == [] {
      assert a + b == b;
    } else {
      assert (a + b)[0] == a[0] && (a + b)[1..] == a[1..] + b;
      OwnOfConcat(a[1..], b, container);
      assert Behind(a[1..] + b, a[0].id) == Behind(a[1..], a[0].id);
      OwnStep(a + b, container);
      OwnStep(a, container);
      hide OwnOf;
    }
  }

  lemma OwnStep(writes: seq<Write>, container: int)
    requires writes != []
    ensures OwnOf(writes, container) ==
            (if writes[0].Added? && writes[0].container == container
             then [Own(writes[0].id, writes[0].parent, writes[0].entry, Behind(writes[1..], writes[0].id))] else [])
            + OwnOf(writes[1..], container)
  {
  }

  lemma {:induction false} NoneOf(writes: seq<Write>, container: int)
    requires forall w <- writes :: w.Added? ==> w.container != container
    ensures OwnOf(writes, container) == []
  {
    if writes != [] {
      NoneOf(writes[1..], container);
    }
  }

  // ---------------------------------------------------------------- what a container should hold

  /** A file whose name ends in .iso, in capitals or not. */
  predicate EndsInIso(name: string) {
    var n := |name|;
    n >= 4 && name[n - 4] == '.' && name[n - 3] in "iI" && name[n - 2] in "sS" && name[n - 1] in "oO"
  }

  /** Exactly these names are taken for images. */
  lemma LooksLikeImageIff(e: Entry)
    ensures LooksLikeImage(e) <==> !e.isDirectory && !e.isSymlink && EndsInIso(e.name)
  {
    hide EndsInIso, Extension, LowerAll;
    if EndsInIso(e.name) {
      IsoIsTheExtension(e.name);
    }
    if Extension(e.name).Some? && LowerAll(Extension(e.name).value) == "iso" {
      EndsInItsExtension(e.name);
    }
  }

  lemma IsoIsTheExtension(name: string)
    requires EndsInIso(name)
    ensures Extension(name).Some? && LowerAll(Extension(name).value) == "iso"
  {
    var n := |name|;
    ExtensionIs(name, n - 4);
    IsoLetters(name[n - 3..]);
    hide Extension, LowerAll;
  }

  lemma EndsInItsExtension(name: string)
    requires Extension(name).Some? && LowerAll(Extension(name).value) == "iso"
    ensures EndsInIso(name)
  {
    hide Extension, LowerAll;
    var x, n := Extension(name).value, |name|;
    IsoLetters(x);
    var end := name[n - 4..];
    assert end == "." + x;
    assert name[n - 4] == end[0] && name[n - 3] == end[1] && name[n - 2] == end[2] && name[n - 1] == end[3];
  }

  lemma {:induction false} ExtensionIs(name: string, dot: nat)
    requires dot < |name| && name[dot] == '.' && '.' !in name[dot + 1..]
    ensures Extension(name) == Some(name[dot + 1..])
    decreases dot
  {
    if dot > 0 {
      assert name[1..][dot..] == name[dot + 1..];
      ExtensionIs(name[1..], dot - 1);
    }
  }

  lemma IsoLetters(x: string)
    ensures LowerAll(x) == "iso" <==> |x| == 3 && x[0] in "iI" && x[1] in "sS" && x[2] in "oO"
  {
    hide LowerAll, Lower;
    if |x| == 3 {
      IsLetter(x[0], 'i', 'I');
      IsLetter(x[1], 's', 'S');
      IsLetter(x[2], 'o', 'O');
      var r := LowerAll(x);
      assert r == [r[0], r[1], r[2]];
    }
  }

  lemma IsLetter(c: char, low: char, high: char)
    requires 'a' <= low <= 'z' && high as int + 32 == low as int
    ensures Lower(c) == low <==> c == low || c == high
  {
  }

  /** The image that should be registered behind an entry: a file named like one that can be read out of its image,
      as long as containers may nest deeper and the entry has not overflowed the size limit. */
  ghost function NestedImage(world: World, tree: Tree, depth: int, e: Entry, total: int): Option<(int, int)> {
    if !e.isDirectory && !e.isSymlink && EndsInIso(e.name)
       && depth < (if world.limits.maxDepth > 0 then world.limits.maxDepth else 1)
       && !(world.limits.maxVirtualSize > 0 && total > world.limits.maxVirtualSize)
       && Place(e.extent, e.size) in tree.images
    then Some((depth + 1, tree.images[Place(e.extent, e.size)])) else None
  }

  /** The entries are those of the slots, each under the entry of the slot it hangs from or under the container, and
      behind each the image it holds. */
  ghost predicate Fills(world: World, tree: Tree, depth: int, container: int, own: seq<Own>, slots: seq<Slot>) {
    |own| == |slots| && forall j | 0 <= j < |own| :: FillsAt(world, tree, depth, container, own, slots, j)
  }

  ghost predicate FillsAt(world: World, tree: Tree, depth: int, container: int, own: seq<Own>, slots: seq<Slot>, j: nat)
    requires j < |own| == |slots|
  {
    && own[j].entry == slots[j].entry
    && (slots[j].parent < 0 ==> own[j].parent == container)
    && (0 <= slots[j].parent < |own| ==> own[j].parent == own[slots[j].parent].id)
    && own[j].nested == NestedImage(world, tree, depth, slots[j].entry, Total(slots[..j + 1]))
  }

  /** Everything written by a container: ids are fresh, parents come earlier, each entry goes through
      the container's writer or through one registered here, and nothing is nested too deep. */
  ghost predicate Fresh(world: World, box: Box, out: Output, next: int) {
    forall w <- out.writes ::
      && next <= w.id < out.next
      && (w.Added? ==> (w.container == box.id || next <= w.container < out.next) && (w.parent == box.id || w.parent < w.id))
      && (w.Registered? ==> box.depth < w.depth <= (if world.limits.maxDepth > 0 then world.limits.maxDepth else 1))
  }

  /** Each registered image contributed exactly its own cut, or nothing if it does not open. */
  ghost predicate EachIsItsCut(world: World, out: Output) {
    forall w <- out.writes :: w.Registered? ==> IsItsCut(world, OwnOf(out.writes, w.id), w.image, w.id, w.depth)
  }

  ghost predicate IsItsCut(world: World, own: seq<Own>, image: int, container: int, depth: int) {
    match Opened(world, image)
    case None => own == []
    case Some(tree) => Fills(world, tree, depth, container, own, Cut(world, tree))
  }

  // ---------------------------------------------------------------- fresh ids, bounded nesting

  lemma {:induction false} EmitIsFresh(world: World, box: Box, slots: seq<Slot>, ids: seq<int>, total: int, next: int)
    requires box.id < next && forall id <- ids :: id < next
    ensures Fresh(world, box, Emit(world, box, slots, ids, total, next), next)
    decreases Room(world, box.depth), 2, |slots|
  {
    hide EmitOne;
    if slots != [] {
      var head := EmitOne(world, box, slots[0], ids, total, next);
      OneIsFresh(world, box, slots[0], ids, total, next);
      EmitIsFresh(world, box, slots[1..], head.ids, total + slots[0].entry.size, head.next);
    }
  }

  lemma {:induction false} OneIsFresh(world: World, box: Box, slot: Slot, ids: seq<int>, total: int, next: int)
    requires box.id < next && forall id <- ids :: id < next
    ensures Fresh(world, box, EmitOne(world, box, slot, ids, total, next), next)
    decreases Room(world, box.depth), 1
  {
    hide LooksLikeImage;
    var head := EmitOne(world, box, slot, ids, total, next);
    var add := Added(next, IdOf(box, ids, slot.parent), box.id, slot.entry);
    var nested := if TooBig(world.limits, total + slot.entry.size) then Output([], [], next + 1)
                  else EmitNested(world, box, slot.entry, next);
    assert head == Output([add] + nested.writes, ids + [next], nested.next);
    assert add.parent == box.id || add.parent in ids;
    var image := Inside(world, box, slot.entry);
    if !TooBig(world.limits, total + slot.entry.size) && image.Some? {
      OpenedIsFresh(world, image.value, next, box.depth + 1, next + 1);
      assert nested.writes == [nested.writes[0]] + nested.writes[1..];
    } else {
      assert nested.writes == [];
    }
  }

  lemma {:induction false} OpenedIsFresh(world: World, image: int, id: int, depth: int, next: int)
    requires depth <= MaxDepth(world) && next == id + 1
    ensures var out := EmitOpened(world, image, id, depth, next);
            && out.writes != [] && out.writes[0] == Registered(id, depth, image)
            && forall w <- out.writes[1..] ::
                 && next <= w.id < out.next
                 && (w.Added? ==> id <= w.container < out.next && w.parent < w.id)
                 && (w.Registered? ==> depth < w.depth <= MaxDepth(world))
    decreases Room(world, depth), 4
  {
    var tree := Opened(world, image);
    if tree.Some? {
      EmitIsFresh(world, Box(id, tree.value, depth), Cut(world, tree.value), [], 0, next);
    }
  }

  // ---------------------------------------------------------------- each container is its own cut

  /** A slot hangs from one before it, when so many came before these. */
  ghost predicate HangsBack(slots: seq<Slot>, before: nat) {
    forall j | 0 <= j < |slots| :: slots[j].parent < before + j
  }

  /** What is written for slots when the ones before them got ids and hold total bytes. */
  ghost predicate Follows(world: World, box: Box, own: seq<Own>, slots: seq<Slot>, ids: seq<int>, total: int) {
    |own| == |slots| <= |ids| && forall j | 0 <= j < |own| :: FollowsAt(world, box, own, slots, ids, total, j)
  }

  ghost predicate FollowsAt(world: World, box: Box, own: seq<Own>, slots: seq<Slot>, ids: seq<int>, total: int, j: nat)
    requires j < |own| == |slots| <= |ids|
  {
    && own[j].entry == slots[j].entry && own[j].parent == IdOf(box, ids, slots[j].parent)
    && own[j].id == ids[|ids| - |own| + j]
    && own[j].nested == NestedImage(world, box.tree, box.depth, slots[j].entry, total + Total(slots[..j + 1]))
  }

  lemma {:induction false} EmitIsTheCut(world: World, box: Box, slots: seq<Slot>, ids: seq<int>, total: int, next: int)
    requires box.id < next && HangsBack(slots, |ids|) && forall id <- ids :: id < next
    ensures var out := Emit(world, box, slots, ids, total, next);
            && Follows(world, box, OwnOf(out.writes, box.id), slots, out.ids, total)
            && EachIsItsCut(world, out) && StartsWithEntry(out.writes)
    decreases Room(world, box.depth), 2, |slots|
  {
    hide EmitOne, Fresh, IsItsCut, Follows, NestedImage, EachIsItsCut, HangsBack;
    var out := Emit(world, box, slots, ids, total, next);
    if slots == [] {
      NothingFollows(world, box, out, total);
    } else {
      var head := EmitOne(world, box, slots[0], ids, total, next);
      var size := slots[0].entry.size;
      var rest := Emit(world, box, slots[1..], head.ids, total + size, head.next);
      BackAfter(slots, |ids|);
      OneIsTheCut(world, box, slots[0], ids, total, next);
      EmitIsTheCut(world, box, slots[1..], head.ids, total + size, head.next);
      EmitIsFresh(world, box, slots[1..], head.ids, total + size, head.next);
      OneIsFresh(world, box, slots[0], ids, total, next);
      CutsJoin(world, box, head, rest, next);
      OneFollows(world, box, slots, ids, total, next, OwnOf(rest.writes, box.id), rest.ids);
    }
  }

  lemma NothingFollows(world: World, box: Box, out: Output, total: int)
    requires out.writes == []
    ensures Follows(world, box, OwnOf(out.writes, box.id), [], out.ids, total) && EachIsItsCut(world, out)
  {
  }

  lemma BackAfter(slots: seq<Slot>, before: nat)
    requires HangsBack(slots, before) && slots != []
    ensures HangsBack(slots[1..], before + 1) && slots[0].parent < before
  {
  }

  /** What one entry leaves of its own. */
  ghost function OwnOne(world: World, box: Box, slot: Slot, ids: seq<int>, total: int, next: int): Own {
    Own(next, IdOf(box, ids, slot.parent), slot.entry, NestedImage(world, box.tree, box.depth, slot.entry, total + slot.entry.size))
  }

  lemma OneFollows(world: World, box: Box, slots: seq<Slot>, ids: seq<int>, total: int, next: int, own: seq<Own>, all: seq<int>)
    requires slots != [] && slots[0].parent < |ids| && ids + [next] <= all && |all| == |ids| + |slots|
    requires Follows(world, box, own, slots[1..], all, total + slots[0].entry.size)
    ensures Follows(world, box, [OwnOne(world, box, slots[0], ids, total, next)] + own, slots, all, total)
  {
    hide NestedImage, FollowsAt, IdOf;
    var one := OwnOne(world, box, slots[0], ids, total, next);
    FirstFollows(world, box, slots, ids, total, next, own, all);
    forall j | 0 <= j < |slots|
      ensures FollowsAt(world, box, [one] + own, slots, all, total, j)
    {
      if j > 0 {
        assert FollowsAt(world, box, own, slots[1..], all, total + slots[0].entry.size, j - 1);
        LaterFollows(world, box, slots, total, one, own, all, j);
      }
    }
  }

  lemma FirstFollows(world: World, box: Box, slots: seq<Slot>, ids: seq<int>, total: int, next: int, own: seq<Own>, all: seq<int>)
    requires slots != [] && slots[0].parent < |ids| && ids + [next] <= all && |all| == |ids| + |slots| && |own| == |slots| - 1
    ensures FollowsAt(world, box, [OwnOne(world, box, slots[0], ids, total, next)] + own, slots, all, total, 0)
  {
    hide NestedImage;
    assert Total(slots[..1]) == slots[0].entry.size by { assert slots[..1][1..] == []; }
    assert IdOf(box, all, slots[0].parent) == IdOf(box, ids, slots[0].parent);
    assert all[|ids|] == next;
  }

  lemma LaterFollows(world: World, box: Box, slots: seq<Slot>, total: int, one: Own, own: seq<Own>, all: seq<int>, j: nat)
    requires 0 < j < |slots| == |own| + 1 <= |all|
    requires FollowsAt(world, box, own, slots[1..], all, total + slots[0].entry.size, j - 1)
    ensures FollowsAt(world, box, [one] + own, slots, all, total, j)
  {
    hide NestedImage, IdOf;
    assert ([one] + own)[j] == own[j - 1] && slots[1..][j - 1] == slots[j];
    assert slots[..j + 1][1..] == slots[1..][..j];
  }

  lemma CutsJoin(world: World, box: Box, first: Output, second: Output, next: int)
    requires box.id < next <= first.next && StartsWithEntry(second.writes)
    requires Fresh(world, box, first, next) && Fresh(world, box, second, first.next)
    requires EachIsItsCut(world, first) && EachIsItsCut(world, second)
    ensures EachIsItsCut(world, Join(first, second))
    ensures OwnOf(Join(first, second).writes, box.id) == OwnOf(first.writes, box.id) + OwnOf(second.writes, box.id)
  {
    hide OwnOf, IsItsCut;
    OwnOfConcat(first.writes, second.writes, box.id);
    forall w <- Join(first, second).writes | w.Registered?
      ensures IsItsCut(world, OwnOf(Join(first, second).writes, w.id), w.image, w.id, w.depth)
    {
      OwnOfConcat(first.writes, second.writes, w.id);
      assert w in first.writes || w in second.writes;
      if w in first.writes {
        NoneOf(second.writes, w.id);
        assert OwnOf(first.writes, w.id) + [] == OwnOf(first.writes, w.id);
      } else {
        assert [] + OwnOf(second.writes, w.id) == OwnOf(second.writes, w.id);
        NoneOf(first.writes, w.id);
      }
    }
  }

  lemma {:induction false} OneIsTheCut(world: World, box: Box, slot: Slot, ids: seq<int>, total: int, next: int)
    requires box.id < next && forall id <- ids :: id < next
    ensures var out := EmitOne(world, box, slot, ids, total, next);
            && OwnOf(out.writes, box.id) == [OwnOne(world, box, slot, ids, total, next)]
            && EachIsItsCut(world, out) && StartsWithEntry(out.writes) && out.writes != []
    decreases Room(world, box.depth), 1
  {
    hide LooksLikeImage, EndsInIso, OwnOf, IsItsCut;
    var add := Added(next, IdOf(box, ids, slot.parent), box.id, slot.entry);
    LooksLikeImageIff(slot.entry);
    if !TooBig(world.limits, total + slot.entry.size) && Inside(world, box, slot.entry).Some? {
      var image := Inside(world, box, slot.entry).value;
      OpenedIsFresh(world, image, next, box.depth + 1, next + 1);
      OpenedIsTheCut(world, image, next, box.depth + 1, next + 1);
      WithImage(world, box, add, image, EmitOpened(world, image, next, box.depth + 1, next + 1));
    } else {
      assert EmitOne(world, box, slot, ids, total, next).writes == [add];
      Alone(add);
    }
  }

  lemma WithImage(world: World, box: Box, add: Write, image: int, nested: Output)
    requires add.Added? && add.container == box.id < add.id && EachIsItsCut(world, nested)
    requires nested.writes != [] && nested.writes[0] == Registered(add.id, box.depth + 1, image)
    requires forall w <- nested.writes[1..] :: add.id < w.id && (w.Added? ==> add.id <= w.container)
    ensures OwnOf([add] + nested.writes, box.id) == [Own(add.id, add.parent, add.entry, Some((box.depth + 1, image)))]
    ensures EachIsItsCut(world, Output([add] + nested.writes, [], 0))
  {
    hide OwnOf, IsItsCut;
    assert nested.writes == [nested.writes[0]] + nested.writes[1..];
    NoneOf(nested.writes, box.id);
    assert ([add] + nested.writes)[1..] == nested.writes;
    OwnStep([add] + nested.writes, box.id);
    AddedBefore(world, add, nested);
  }

  lemma Alone(add: Write)
    requires add.Added?
    ensures OwnOf([add], add.container) == [Own(add.id, add.parent, add.entry, None)]
  {
    assert [add][1..] == [];
    OwnStep([add], add.container);
  }

  lemma AddedBefore(world: World, add: Write, nested: Output)
    requires add.Added? && EachIsItsCut(world, nested)
    requires forall w <- nested.writes :: w.Registered? ==> w.id != add.container
    ensures forall w <- [add] + nested.writes :: w.Registered? ==>
              IsItsCut(world, OwnOf([add] + nested.writes, w.id), w.image, w.id, w.depth)
  {
    hide OwnOf, IsItsCut;
    forall w <- [add] + nested.writes | w.Registered?
      ensures IsItsCut(world, OwnOf([add] + nested.writes, w.id), w.image, w.id, w.depth)
    {
      assert w in nested.writes;
      OwnStep([add] + nested.writes, w.id);
      assert ([add] + nested.writes)[1..] == nested.writes;
      assert [] + OwnOf(nested.writes, w.id) == OwnOf(nested.writes, w.id);
    }
  }

  lemma {:induction false} OpenedIsTheCut(world: World, image: int, id: int, depth: int, next: int)
    requires depth <= MaxDepth(world) && next == id + 1
    ensures EachIsItsCut(world, EmitOpened(world, image, id, depth, next))
    decreases Room(world, depth), 4
  {
    var tree := Opened(world, image);
    var registered := Registered(id, depth, image);
    if tree.Some? {
      var box := Box(id, tree.value, depth);
      var inner := Expand(world, box, next);
      ExpandIsTheCut(world, box, next);
      assert EmitOpened(world, image, id, depth, next).writes == [registered] + inner.writes;
      RegisteredBefore(world, registered, inner);
    } else {
      assert EmitOpened(world, image, id, depth, next).writes == [registered];
      assert [registered][1..] == [];
      OwnStep([registered], id);
    }
  }

  lemma RegisteredBefore(world: World, r: Write, inner: Output)
    requires r.Registered? && EachIsItsCut(world, inner) && IsItsCut(world, OwnOf(inner.writes, r.id), r.image, r.id, r.depth)
    ensures forall w <- [r] + inner.writes :: w.Registered? ==>
              IsItsCut(world, OwnOf([r] + inner.writes, w.id), w.image, w.id, w.depth)
  {
    hide OwnOf, IsItsCut;
    forall w <- [r] + inner.writes | w.Registered?
      ensures IsItsCut(world, OwnOf([r] + inner.writes, w.id), w.image, w.id, w.depth)
    {
      OwnStep([r] + inner.writes, w.id);
      assert ([r] + inner.writes)[1..] == inner.writes;
      assert [] + OwnOf(inner.writes, w.id) == OwnOf(inner.writes, w.id);
    }
  }

  lemma {:induction false} ExpandIsTheCut(world: World, box: Box, next: int)
    requires box.id < next
    ensures var out := Expand(world, box, next);
            && Fills(world, box.tree, box.depth, box.id, OwnOf(out.writes, box.id), Cut(world, box.tree))
            && EachIsItsCut(world, out)
    decreases Room(world, box.depth), 3
  {
    hide EachIsItsCut, NestedImage, OwnOf, Cut, Emit, Fills, Follows, HangsBack;
    CutHangsBack(world, box.tree);
    EmitIsTheCut(world, box, Cut(world, box.tree), [], 0, next);
    FollowsFills(world, box, OwnOf(Expand(world, box, next).writes, box.id), Cut(world, box.tree), Expand(world, box, next).ids);
  }

  lemma FollowsFills(world: World, box: Box, own: seq<Own>, slots: seq<Slot>, ids: seq<int>)
    requires Follows(world, box, own, slots, ids, 0) && HangsBack(slots, 0) && |ids| == |slots|
    ensures Fills(world, box.tree, box.depth, box.id, own, slots)
  {
    hide FollowsAt, FillsAt;
    forall j | 0 <= j < |own|
      ensures FillsAt(world, box.tree, box.depth, box.id, own, slots, j)
    {
      assert FollowsAt(world, box, own, slots, ids, 0, j);
      var p := slots[j].parent;
      if p >= 0 {
        assert FollowsAt(world, box, own, slots, ids, 0, p);
      }
      FollowsFillsAt(world, box, own, slots, ids, 0, j);
    }
  }

  lemma FollowsFillsAt(world: World, box: Box, own: seq<Own>, slots: seq<Slot>, ids: seq<int>, total: int, j: nat)
    requires j < |own| == |slots| == |ids| && total == 0 && slots[j].parent < j
    requires FollowsAt(world, box, own, slots, ids, total, j)
    requires slots[j].parent >= 0 ==> FollowsAt(world, box, own, slots, ids, total, slots[j].parent)
    ensures FillsAt(world, box.tree, box.depth, box.id, own, slots, j)
  {
    hide NestedImage, Total;
  }

  lemma CutHangsBack(world: World, tree: Tree)
    ensures HangsBack(Cut(world, tree), 0)
  {
    var slots := Unfold(tree, tree.root, -1, 0, 1);
    UnfoldHangs(tree, tree.root, -1, 0, 1);
    KeptIsTheCut(world.limits, slots, 0, 0);
    hide Unfold, Kept;
    forall j | 0 <= j < |Cut(world, tree)| ensures Cut(world, tree)[j].parent < 0 + j {
      assert Cut(world, tree)[j] == slots[j];
    }
  }

  /** However images contain each other: each container that is expanded gets exactly its own unfolding,
      cut by its own limits, every entry under the one it hangs from and every image it holds behind its entry;
      nothing is nested deeper than allowed, ids are never reused, and every parent was written before its child. */
  lemma EveryContainerIsItsCut(world: World, image: int, id: int, current: int, next: int)
    requires Opened(world, image).Some? && id < next
    ensures var tree, depth := Opened(world, image).value, if current > 0 then current else 1;
            var out := Expand(world, Box(id, tree, ContainerDepth(current)), next);
            && Fills(world, tree, depth, id, OwnOf(out.writes, id), Cut(world, tree))
            && EachIsItsCut(world, out)
            && Fresh(world, Box(id, tree, depth), out, next)
  {
    var box := Box(id, Opened(world, image).value, ContainerDepth(current));
    hide Fills, EachIsItsCut, Fresh, Cut;
    ExpandIsTheCut(world, box, next);
    EmitIsFresh(world, box, Cut(world, box.tree), [], 0, next);
  }

  // ---------------------------------------------------------------- the unfolding is a tree

  /** Every slot hangs from the listing's own parent or from a directory earlier in the unfolding. */
  ghost predicate Hangs(slots: seq<Slot>, parent: int, first: nat) {
    forall k | 0 <= k < |slots| && slots[k].parent != parent ::
      first <= slots[k].parent < first + k && slots[slots[k].parent - first].entry.isDirectory
  }

  lemma {:induction false} UnfoldHangs(tree: Tree, entries: seq<Entry>, parent: int, first: nat, depth: nat)
    requires depth <= MAX_DIR_DEPTH
    ensures Hangs(Unfold(tree, entries, parent, first, depth), parent, first)
    decreases MAX_DIR_DEPTH - depth, |entries|
  {
    hide Admit, Listing;
    if entries != [] {
      var e := Admit(tree, entries[0]);
      if e.None? {
        UnfoldHangs(tree, entries[1..], parent, first, depth);
      } else {
        var below := Below(tree, e.value, first, depth);
        if below != [] {
          UnfoldHangs(tree, Listing(tree, e.value, depth).value, first, first + 1, depth + 1);
        }
        UnfoldHangs(tree, entries[1..], parent, first + 1 + |below|, depth);
        HangsJoin(Slot(parent, e.value), below, Unfold(tree, entries[1..], parent, first + 1 + |below|, depth), parent, first);
      }
    }
  }

  lemma HangsJoin(one: Slot, below: seq<Slot>, rest: seq<Slot>, parent: int, first: nat)
    requires one.parent == parent && (below != [] ==> one.entry.isDirectory)
    requires Hangs(below, first, first + 1) && Hangs(rest, parent, first + 1 + |below|)
    ensures Hangs([one] + below + rest, parent, first)
  {
    var all := [one] + below + rest;
    forall k | 0 <= k < |all| && all[k].parent != parent
      ensures first <= all[k].parent < first + k && all[all[k].parent - first].entry.isDirectory
    {
      if 1 <= k <= |below| {
        assert all[k] == below[k - 1];
      } else if k > |below| {
        assert all[k] == rest[k - 1 - |below|];
      }
    }
  }
}
