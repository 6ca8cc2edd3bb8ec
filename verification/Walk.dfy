/** Expanding a disc image: a bounded walk over a directory graph that may be cyclic, with nested
    images, against a pure unfolding that is cut and then written out. */
module Walk {

  import opened Results

  const MAX_DIR_DEPTH: nat := 256

  // ---------------------------------------------------------------- images

  /** A directory entry of an image. A placeholder stands for a directory that Rock Ridge moved. */
  datatype Entry = Entry(name: string, isDirectory: bool, isSymlink: bool, placeholder: nat, size: int, extent: int)

  /** Where a directory or a file lies; what the reader and the extractor are asked for. */
  datatype Place = Place(extent: int, size: int)

  /** A readable tree: its root listing, the listing behind every directory that can be read (any
      entry may point at any of them, its own directory included), the relocation directory, the sizes
      in UDF file entries, and the images inside it that can be extracted. */
  datatype Tree = Tree(
    isUdf: bool, root: seq<Entry>, directories: map<Place, seq<Entry>>,
    relocation: Option<seq<Entry>>, fileSizes: map<int, int>, images: map<Place, int>)

  /** What an image file can be opened as. UDF is tried first, then ISO 9660. */
  datatype Disc = Disc(udf: Option<Tree>, iso: Option<Tree>)

  datatype Limits = Limits(maxEntries: int, maxVirtualSize: int, maxDepth: int)

  /** Every image that may turn up, by number: an image may even contain itself. */
  datatype World = World(discs: map<int, Disc>, limits: Limits)

  function Opened(world: World, image: int): Option<Tree> {
    if image !in world.discs then None
    else if world.discs[image].udf.Some? then world.discs[image].udf
    else world.discs[image].iso
  }

  // ---------------------------------------------------------------- which entries are written

  predicate ValidName(name: string) {
    name != "" && forall c <- name :: c >= ' '
  }

  /** The first directory of that name. */
  function Named(dirs: seq<Entry>, name: string): (r: Option<Entry>)
    ensures r.Some? ==> r.value in dirs && r.value.name == name
    ensures r.None? ==> forall d <- dirs :: d.name != name
  {
    if dirs == [] then None else if dirs[0].name == name then Some(dirs[0]) else Named(dirs[1..], name)
  }

  function Digit(n: nat): string
    requires n < 10
  {
    ["0123456789"[n]]
  }

  /** A moved directory is found by its digit, or else by its position. */
  function ResolvePlaceholder(tree: Tree, placeholder: nat): (r: Option<Entry>)
    ensures r.Some? ==> tree.relocation.Some? && r.value in tree.relocation.value
    ensures tree.relocation.Some? && placeholder < 10 && (exists d <- tree.relocation.value :: d.name == Digit(placeholder)) ==>
              r.Some? && r.value.name == ["0123456789"[placeholder]]
    ensures tree.relocation.Some? && (placeholder >= 10 || forall d <- tree.relocation.value :: d.name != Digit(placeholder)) ==>
              r == if 2 <= placeholder && placeholder - 2 < |tree.relocation.value| then Some(tree.relocation.value[placeholder - 2]) else None
  {
    if tree.relocation.None? then None
    else
      var dirs := tree.relocation.value;
      var byName := if placeholder < 10 then Named(dirs, Digit(placeholder)) else None;
      if byName.Some? then byName
      else if 2 <= placeholder && placeholder - 2 < |dirs| then Some(dirs[placeholder - 2])
      else None
  }

  /** The entry that is written for a record, if any: placeholders resolved, bad names skipped, and
      the size of a UDF file taken from its own file entry. */
  function Admit(tree: Tree, orig: Entry): (r: Option<Entry>)
    ensures r.Some? ==> r.value.name != "" && forall c <- r.value.name :: c as int >= 0x20
    ensures orig.placeholder == 0 || tree.isUdf ==>
              && (r.Some? <==> orig.name != "" && forall c <- orig.name :: c as int >= 0x20)
              && (r.Some? ==> r.value == orig.(size := r.value.size))
              && (r.Some? ==> r.value.size == if tree.isUdf && !orig.isDirectory && orig.extent in tree.fileSizes
                                                 && tree.fileSizes[orig.extent] > 0
                                              then tree.fileSizes[orig.extent] else orig.size)
    ensures orig.placeholder != 0 && !tree.isUdf ==>
              var moved := ResolvePlaceholder(tree, orig.placeholder);
              r == if moved.Some? && ValidName(moved.value.name) then moved else None
  {
    var e := if orig.placeholder != 0 && !tree.isUdf then ResolvePlaceholder(tree, orig.placeholder) else Some(orig);
    if e.None? || !ValidName(e.value.name) then None
    else if tree.isUdf && !e.value.isDirectory && e.value.extent in tree.fileSizes && tree.fileSizes[e.value.extent] > 0
    then Some(e.value.(size := tree.fileSizes[e.value.extent]))
    else e
  }

  /** The UDF reader refuses directories nested deeper than 64. */
  function Listing(tree: Tree, e: Entry, depth: nat): Option<seq<Entry>> {
    if tree.isUdf && depth > 64 then None
    else if Place(e.extent, e.size) in tree.directories then Some(tree.directories[Place(e.extent, e.size)])
    else None
  }

  function Lower(c: char): char { if 'A' <= c <= 'Z' then (c as int + 32) as char else c }

  function LowerAll(s: string): (r: string)
    ensures |r| == |s| && forall i | 0 <= i < |s| :: r[i] == Lower(s[i])
  {
    if s == "" then "" else [Lower(s[0])] + LowerAll(s[1..])
  }

  /** The part after the last dot, if there is one. */
  function Extension(name: string): (r: Option<string>)
    ensures r.Some? <==> '.' in name
    ensures r.Some? ==> '.' !in r.value && |r.value| < |name| && name[|name| - |r.value| - 1..] == "." + r.value
  {
    if name == "" then None
    else if Extension(name[1..]).Some? then Extension(name[1..])
    else if name[0] == '.' then Some(name[1..]) else None
  }

  predicate LooksLikeImage(e: Entry) {
    !e.isDirectory && !e.isSymlink && Extension(e.name).Some? && LowerAll(Extension(e.name).value) == "iso"
  }

  // ---------------------------------------------------------------- the unfolding

  /** An entry of the unfolding: the position of its parent's slot, -1 below the container itself. */
  datatype Slot = Slot(parent: int, entry: Entry)

  /** The preorder of everything below a listing, as deep as directories may nest. The first slot has
      position first. */
  ghost function Unfold(tree: Tree, entries: seq<Entry>, parent: int, first: nat, depth: nat): seq<Slot>
    requires depth <= MAX_DIR_DEPTH
    decreases MAX_DIR_DEPTH - depth, |entries|
  {
    if entries == [] then []
    else
      var e := Admit(tree, entries[0]);
      if e.None? then Unfold(tree, entries[1..], parent, first, depth)
      else
        var below := Below(tree, e.value, first, depth);
        [Slot(parent, e.value)] + below + Unfold(tree, entries[1..], parent, first + 1 + |below|, depth)
  }

  ghost function Below(tree: Tree, e: Entry, at: nat, depth: nat): seq<Slot>
    requires depth <= MAX_DIR_DEPTH
    decreases MAX_DIR_DEPTH - depth, 0
  {
    if e.isDirectory && depth < MAX_DIR_DEPTH && Listing(tree, e, depth).Some?
    then Unfold(tree, Listing(tree, e, depth).value, at, at + 1, depth + 1)
    else []
  }

  // ---------------------------------------------------------------- the cut

  predicate TooMany(limits: Limits, count: int) { limits.maxEntries > 0 && count >= limits.maxEntries }
  predicate TooBig(limits: Limits, total: int) { limits.maxVirtualSize > 0 && total > limits.maxVirtualSize }

  ghost function Total(slots: seq<Slot>): int {
    if slots == [] then 0 else slots[0].entry.size + Total(slots[1..])
  }

  /** What is kept of the slots to come when count entries of total size are already kept. */
  ghost function Kept(limits: Limits, slots: seq<Slot>, count: int, total: int): seq<Slot>
    decreases |slots|
  {
    if slots == [] || TooMany(limits, count) || TooBig(limits, total) then []
    else [slots[0]] + Kept(limits, slots[1..], count + 1, total + slots[0].entry.size)
  }

  /** Where all of a fits, b goes on; where a is cut, nothing of b is kept. */
  lemma KeptConcat(limits: Limits, a: seq<Slot>, b: seq<Slot>, count: int, total: int)
    ensures Kept(limits, a + b, count, total) ==
            Kept(limits, a, count, total)
            + (if |Kept(limits, a, count, total)| == |a| then Kept(limits, b, count + |a|, total + Total(a)) else [])
  {
    if |Kept(limits, a, count, total)| == |a| {
      KeptAllOf(limits, a, b, count, total);
    } else {
      CutInside(limits, a, b, count, total);
    }
  }

  lemma {:induction false} KeptAllOf(limits: Limits, a: seq<Slot>, b: seq<Slot>, count: int, total: int)
    requires |Kept(limits, a, count, total)| == |a|
    ensures Kept(limits, a + b, count, total) == Kept(limits, a, count, total) + Kept(limits, b, count + |a|, total + Total(a))
    decreases |a|
  {
    hide TooMany, TooBig;
    if a == [] {
      assert a + b == b;
    } else {
      assert (a + b)[0] == a[0] && (a + b)[1..] == a[1..] + b;
      KeptAllOf(limits, a[1..], b, count + 1, total + a[0].entry.size);
    }
  }

  lemma {:induction false} CutInside(limits: Limits, a: seq<Slot>, b: seq<Slot>, count: int, total: int)
    requires |Kept(limits, a, count, total)| != |a|
    ensures Kept(limits, a + b, count, total) == Kept(limits, a, count, total)
    decreases |a|
  {
    hide TooMany, TooBig;
    if Kept(limits, a, count, total) != [] {
      assert (a + b)[0] == a[0] && (a + b)[1..] == a[1..] + b;
      CutInside(limits, a[1..], b, count + 1, total + a[0].entry.size);
    }
  }

  lemma {:induction false} TotalConcat(a: seq<Slot>, b: seq<Slot>)
    ensures Total(a + b) == Total(a) + Total(b)
  {
    if a == [] {
      assert a + b == b;
    } else {
      assert (a + b)[0] == a[0] && (a + b)[1..] == a[1..] + b;
      TotalConcat(a[1..], b);
    }
  }

  /** The kept slots are a prefix, and it ends only at the end of the unfolding, at the entry limit, or
      just after the entry that overflows the size limit. */
  lemma {:induction false} KeptIsTheCut(limits: Limits, slots: seq<Slot>, count: int, total: int)
    ensures var kept := Kept(limits, slots, count, total);
            && kept <= slots
            && (|kept| < |slots| ==>
                  || (limits.maxEntries > 0 && count + |kept| >= limits.maxEntries)
                  || (limits.maxVirtualSize > 0 && total + Total(kept) > limits.maxVirtualSize))
    decreases |slots|
  {
    if Kept(limits, slots, count, total) != [] {
      KeptIsTheCut(limits, slots[1..], count + 1, total + slots[0].entry.size);
    }
  }

  /** Before the end of the kept slots no limit is reached. */
  lemma {:induction false} NoLimitBefore(limits: Limits, slots: seq<Slot>, count: int, total: int, k: nat)
    requires k < |Kept(limits, slots, count, total)| <= |slots|
    ensures !(limits.maxEntries > 0 && count + k >= limits.maxEntries)
    ensures !(limits.maxVirtualSize > 0 && total + Total(slots[..k]) > limits.maxVirtualSize)
    decreases |slots|
  {
    if k > 0 {
      KeptIsTheCut(limits, slots[1..], count + 1, total + slots[0].entry.size);
      NoLimitBefore(limits, slots[1..], count + 1, total + slots[0].entry.size, k - 1);
      assert slots[..k][1..] == slots[1..][..k - 1];
    }
  }
}
