/** The unfolding of an image said slot by slot: which listing hangs from which slot, and in what order. */
module UnfoldLaws {

  import opened Results
  import opened Walk
  import opened ExpansionLaws

  /** The entries hanging from a position, in order. */
  ghost function ChildrenOf(slots: seq<Slot>, at: int): seq<Entry> {
    if slots == [] then []
    else (if slots[0].parent == at then [slots[0].entry] else []) + ChildrenOf(slots[1..], at)
  }

  /** What is written of a listing. */
  ghost function Admitted(tree: Tree, entries: seq<Entry>): seq<Entry> {
    if entries == [] then []
    else (if Admit(tree, entries[0]).Some? then [Admit(tree, entries[0]).value] else []) + Admitted(tree, entries[1..])
  }

  /** How many directories of the unfolding lie above a slot. */
  ghost function Above(slots: seq<Slot>, first: int, k: nat): nat
    requires k < |slots|
    decreases k
  {
    if first <= slots[k].parent < first + k then Above(slots, first, slots[k].parent - first) + 1 else 0
  }

  /** What should hang from an entry that lies so many directories deep: its listing, if it is a directory whose
      listing can be read, at most 255 levels down and in UDF at most 64. */
  ghost function Contents(tree: Tree, e: Entry, depth: int): seq<Entry> {
    var place := Place(e.extent, e.size);
    if e.isDirectory && depth < 256 && (tree.isUdf ==> depth <= 64) && place in tree.directories
    then Admitted(tree, tree.directories[place]) else []
  }

  ghost predicate HoldsContents(tree: Tree, slots: seq<Slot>, first: int, depth: nat) {
    forall k | 0 <= k < |slots| :: Right(tree, slots, first, depth, k)
  }

  ghost predicate Right(tree: Tree, slots: seq<Slot>, first: int, depth: nat, k: nat)
    requires k < |slots|
  {
    ChildrenOf(slots, first + k) == Contents(tree, slots[k].entry, depth + Above(slots, first, k))
  }

  // ---------------------------------------------------------------- an entry, what is below it, and the rest

  lemma {:induction false} ChildrenConcat(a: seq<Slot>, b: seq<Slot>, at: int)
    ensures ChildrenOf(a + b, at) == ChildrenOf(a, at) + ChildrenOf(b, at)
  {
    if a == [] {
      assert a + b == b;
    } else {
      assert (a + b)[0] == a[0] && (a + b)[1..] == a[1..] + b;
      ChildrenConcat(a[1..], b, at);
      ChildrenStep(a + b, at);
      ChildrenStep(a, at);
      hide ChildrenOf;
    }
  }

  lemma ChildrenStep(slots: seq<Slot>, at: int)
    requires slots != []
    ensures ChildrenOf(slots, at) == (if slots[0].parent == at then [slots[0].entry] else []) + ChildrenOf(slots[1..], at)
  {
  }

  lemma {:induction false} NoChildren(slots: seq<Slot>, at: int)
    requires forall s <- slots :: s.parent != at
    ensures ChildrenOf(slots, at) == []
  {
    if slots != [] {
      assert slots[0] in slots;
      NoChildren(slots[1..], at);
    }
  }

  /** A slot at first under parent, its subtree behind it, and the later siblings. */
  ghost predicate Family(one: Slot, below: seq<Slot>, rest: seq<Slot>, parent: int, first: nat) {
    && one.parent == parent < first
    && Hangs(below, first, first + 1) && Hangs(rest, parent, first + 1 + |below|)
  }

  lemma ParentsOf(slots: seq<Slot>, parent: int, first: nat)
    requires Hangs(slots, parent, first)
    ensures forall s <- slots :: s.parent == parent || first <= s.parent < first + |slots|
  {
    forall s <- slots ensures s.parent == parent || first <= s.parent < first + |slots| {
      var k :| 0 <= k < |slots| && slots[k] == s;
    }
  }

  lemma ChildrenOfFamily(one: Slot, below: seq<Slot>, rest: seq<Slot>, parent: int, first: nat)
    requires Family(one, below, rest, parent, first)
    ensures var all, next := [one] + below + rest, first + 1 + |below|;
            && ChildrenOf(all, parent) == [one.entry] + ChildrenOf(rest, parent)
            && ChildrenOf(all, first) == ChildrenOf(below, first)
            && (forall j | first < j < next :: ChildrenOf(all, j) == ChildrenOf(below, j))
            && (forall j | next <= j :: ChildrenOf(all, j) == ChildrenOf(rest, j))
  {
    var next := first + 1 + |below|;
    ParentsOf(below, first, first + 1);
    ParentsOf(rest, parent, next);
    forall j
      ensures ChildrenOf([one] + below + rest, j) == ChildrenOf([one], j) + ChildrenOf(below, j) + ChildrenOf(rest, j)
      ensures ChildrenOf([one], j) == if j == parent then [one.entry] else []
      ensures (j < first || next <= j ==> ChildrenOf(below, j) == []) && (j != parent && j < next ==> ChildrenOf(rest, j) == [])
    {
      ChildrenConcat([one], below, j);
      ChildrenConcat([one] + below, rest, j);
      assert [one][1..] == [];
      if j < first || next <= j {
        NoChildren(below, j);
      }
      if j != parent && j < next {
        NoChildren(rest, j);
      }
    }
    hide Hangs;
  }

  lemma {:induction false} AboveBelow(one: Slot, below: seq<Slot>, rest: seq<Slot>, parent: int, first: nat, j: nat)
    requires Family(one, below, rest, parent, first) && j < |below|
    ensures Above([one] + below + rest, first, 1 + j) == Above(below, first + 1, j) + 1
    decreases j
  {
    var all := [one] + below + rest;
    assert all[1 + j] == below[j] && all[0] == one;
    if below[j].parent != first {
      AboveBelow(one, below, rest, parent, first, below[j].parent - (first + 1));
    } else {
      assert Above(all, first, 0) == 0;
    }
  }

  lemma {:induction false} AboveRest(one: Slot, below: seq<Slot>, rest: seq<Slot>, parent: int, first: nat, j: nat)
    requires Family(one, below, rest, parent, first) && j < |rest|
    ensures Above([one] + below + rest, first, 1 + |below| + j) == Above(rest, first + 1 + |below|, j)
    decreases j
  {
    assert ([one] + below + rest)[1 + |below| + j] == rest[j];
    if rest[j].parent != parent {
      AboveRest(one, below, rest, parent, first, rest[j].parent - (first + 1 + |below|));
    }
  }

  lemma FamilyHolds(tree: Tree, one: Slot, below: seq<Slot>, rest: seq<Slot>, parent: int, first: nat, depth: nat)
    requires Family(one, below, rest, parent, first)
    requires ChildrenOf(below, first) == Contents(tree, one.entry, depth)
    requires HoldsContents(tree, below, first + 1, depth + 1) && HoldsContents(tree, rest, first + 1 + |below|, depth)
    ensures HoldsContents(tree, [one] + below + rest, first, depth)
  {
    hide Contents, ChildrenOf, Above, Family, Right;
    var all := [one] + below + rest;
    forall k | 0 <= k < |all|
      ensures Right(tree, all, first, depth, k)
    {
      if k == 0 {
        RightFirst(tree, one, below, rest, parent, first, depth);
      } else if k <= |below| {
        RightBelow(tree, one, below, rest, parent, first, depth, k - 1);
      } else {
        RightRest(tree, one, below, rest, parent, first, depth, k - 1 - |below|);
      }
    }
  }

  lemma RightFirst(tree: Tree, one: Slot, below: seq<Slot>, rest: seq<Slot>, parent: int, first: nat, depth: nat)
    requires Family(one, below, rest, parent, first) && ChildrenOf(below, first) == Contents(tree, one.entry, depth)
    ensures Right(tree, [one] + below + rest, first, depth, 0)
  {
    ChildrenOfFamily(one, below, rest, parent, first);
    assert Above([one] + below + rest, first, 0) == 0;
    hide Contents, ChildrenOf;
  }

  lemma RightBelow(tree: Tree, one: Slot, below: seq<Slot>, rest: seq<Slot>, parent: int, first: nat, depth: nat, j: nat)
    requires Family(one, below, rest, parent, first) && j < |below| && Right(tree, below, first + 1, depth + 1, j)
    ensures Right(tree, [one] + below + rest, first, depth, 1 + j)
  {
    hide Contents, ChildrenOf, Above, Family;
    ChildrenOfFamily(one, below, rest, parent, first);
    AboveBelow(one, below, rest, parent, first, j);
    assert ([one] + below + rest)[1 + j] == below[j];
    assert first + (1 + j) == first + 1 + j;
  }

  lemma RightRest(tree: Tree, one: Slot, below: seq<Slot>, rest: seq<Slot>, parent: int, first: nat, depth: nat, j: nat)
    requires Family(one, below, rest, parent, first) && j < |rest| && Right(tree, rest, first + 1 + |below|, depth, j)
    ensures Right(tree, [one] + below + rest, first, depth, 1 + |below| + j)
  {
    hide Contents, ChildrenOf, Above, Family;
    ChildrenOfFamily(one, below, rest, parent, first);
    AboveRest(one, below, rest, parent, first, j);
    assert ([one] + below + rest)[1 + |below| + j] == rest[j];
    assert first + (1 + |below| + j) == first + 1 + |below| + j;
  }

  // ---------------------------------------------------------------- every directory's listing is there

  lemma {:induction false} UnfoldHoldsContents(tree: Tree, entries: seq<Entry>, parent: int, first: nat, depth: nat)
    requires 1 <= depth <= 256 && parent < first
    ensures var slots := Unfold(tree, entries, parent, first, depth);
            ChildrenOf(slots, parent) == Admitted(tree, entries) && HoldsContents(tree, slots, first, depth)
    decreases 256 - depth, |entries|
  {
    hide Admit, Contents, HoldsContents, Hangs;
    if entries == [] {
      assert HoldsContents(tree, [], first, depth) by { NothingHolds(tree, first, depth); }
    } else {
      var e := Admit(tree, entries[0]);
      if e.None? {
        UnfoldHoldsContents(tree, entries[1..], parent, first, depth);
      } else {
        var one, below := Slot(parent, e.value), Below(tree, e.value, first, depth);
        var rest := Unfold(tree, entries[1..], parent, first + 1 + |below|, depth);
        BelowHoldsContents(tree, e.value, first, depth);
        UnfoldHoldsContents(tree, entries[1..], parent, first + 1 + |below|, depth);
        UnfoldHangs(tree, entries[1..], parent, first + 1 + |below|, depth);
        ChildrenOfFamily(one, below, rest, parent, first);
        FamilyHolds(tree, one, below, rest, parent, first, depth);
      }
    }
  }

  lemma {:induction false} BelowHoldsContents(tree: Tree, e: Entry, at: nat, depth: nat)
    requires 1 <= depth <= 256
    ensures var below := Below(tree, e, at, depth);
            && ChildrenOf(below, at) == Contents(tree, e, depth) && HoldsContents(tree, below, at + 1, depth + 1)
            && Hangs(below, at, at + 1)
    decreases 256 - depth, 0
  {
    hide Admit, HoldsContents, Hangs, Admitted;
    NothingHolds(tree, at + 1, depth + 1);
    if e.isDirectory && depth < 256 && (tree.isUdf ==> depth <= 64) && Place(e.extent, e.size) in tree.directories {
      UnfoldHoldsContents(tree, tree.directories[Place(e.extent, e.size)], at, at + 1, depth + 1);
      UnfoldHangs(tree, tree.directories[Place(e.extent, e.size)], at, at + 1, depth + 1);
    }
  }

  lemma NothingHolds(tree: Tree, first: nat, depth: nat)
    ensures HoldsContents(tree, [], first, depth) && forall parent :: Hangs([], parent, first)
  {
  }

  /** From the container hang exactly the admitted entries of the root's listing; and from every slot, as deep
      as its chain of parents makes it, exactly those of its own listing, if it is a directory within the bounds
      whose listing can be read, and nothing otherwise. */
  lemma EveryListingIsUnfolded(tree: Tree)
    ensures var slots := Unfold(tree, tree.root, -1, 0, 1);
            && ChildrenOf(slots, -1) == Admitted(tree, tree.root)
            && (forall k | 0 <= k < |slots| ::
                  ChildrenOf(slots, k) == Contents(tree, slots[k].entry, 1 + Above(slots, 0, k)))
  {
    hide Unfold, Contents, ChildrenOf, Above, HoldsContents;
    UnfoldHoldsContents(tree, tree.root, -1, 0, 1);
    AllRight(tree, Unfold(tree, tree.root, -1, 0, 1));
  }

  lemma AllRight(tree: Tree, slots: seq<Slot>)
    requires HoldsContents(tree, slots, 0, 1)
    ensures forall k | 0 <= k < |slots| :: ChildrenOf(slots, k) == Contents(tree, slots[k].entry, 1 + Above(slots, 0, k))
  {
    hide Contents, ChildrenOf, Above, Right;
    forall k | 0 <= k < |slots|
      ensures ChildrenOf(slots, k) == Contents(tree, slots[k].entry, 1 + Above(slots, 0, k))
    {
      assert Right(tree, slots, 0, 1, k);
      RightMeans(tree, slots, 0, 1, k, k);
    }
  }

  lemma RightMeans(tree: Tree, slots: seq<Slot>, first: int, depth: nat, k: nat, at: int)
    requires k < |slots| && Right(tree, slots, first, depth, k) && at == first + k
    ensures ChildrenOf(slots, at) == Contents(tree, slots[k].entry, depth + Above(slots, first, k))
  {
    hide Contents, ChildrenOf, Above;
  }

  // ---------------------------------------------------------------- in preorder

  /** The position is a slot's own, or that of one above it. */
  ghost predicate OnPath(slots: seq<Slot>, first: int, k: nat, at: int)
    requires k < |slots|
    decreases k
  {
    || at == first + k || at == slots[k].parent
    || (first <= slots[k].parent < first + k && OnPath(slots, first, slots[k].parent - first, at))
  }

  /** Each slot hangs from the one before it or from one above that: subtrees are not broken up. */
  ghost predicate Preordered(slots: seq<Slot>, first: int) {
    forall k | 0 < k < |slots| :: Follows(slots, first, k)
  }

  ghost predicate Follows(slots: seq<Slot>, first: int, k: nat)
    requires 0 < k < |slots|
  {
    OnPath(slots, first, k - 1, slots[k].parent)
  }

  lemma {:induction false} PathReachesTop(slots: seq<Slot>, parent: int, first: nat, k: nat)
    requires Hangs(slots, parent, first) && k < |slots|
    ensures OnPath(slots, first, k, parent)
    decreases k
  {
    if slots[k].parent != parent {
      PathReachesTop(slots, parent, first, slots[k].parent - first);
    }
  }

  lemma {:induction false} PathBelow(one: Slot, below: seq<Slot>, rest: seq<Slot>, parent: int, first: nat, j: nat, at: int)
    requires Family(one, below, rest, parent, first) && j < |below| && OnPath(below, first + 1, j, at)
    ensures OnPath([one] + below + rest, first, 1 + j, at)
    decreases j
  {
    assert ([one] + below + rest)[1 + j] == below[j];
    if at != first + 1 + j && at != below[j].parent {
      PathBelow(one, below, rest, parent, first, below[j].parent - (first + 1), at);
    }
  }

  lemma {:induction false} PathRest(one: Slot, below: seq<Slot>, rest: seq<Slot>, parent: int, first: nat, j: nat, at: int)
    requires Family(one, below, rest, parent, first) && j < |rest| && OnPath(rest, first + 1 + |below|, j, at)
    ensures OnPath([one] + below + rest, first, 1 + |below| + j, at)
    decreases j
  {
    assert ([one] + below + rest)[1 + |below| + j] == rest[j];
    if at != first + 1 + |below| + j && at != rest[j].parent {
      PathRest(one, below, rest, parent, first, rest[j].parent - (first + 1 + |below|), at);
    }
  }

  lemma FamilyIsPreordered(one: Slot, below: seq<Slot>, rest: seq<Slot>, parent: int, first: nat)
    requires Family(one, below, rest, parent, first) && (below != [] ==> one.entry.isDirectory)
    requires Preordered(below, first + 1) && Preordered(rest, first + 1 + |below|)
    ensures Preordered([one] + below + rest, first)
  {
    hide Follows, Family, Hangs;
    var all := [one] + below + rest;
    forall k | 0 < k < |all|
      ensures Follows(all, first, k)
    {
      if k <= |below| {
        FollowsBelow(one, below, rest, parent, first, k - 1);
      } else {
        FollowsRest(one, below, rest, parent, first, k - 1 - |below|);
      }
    }
  }

  lemma FollowsBelow(one: Slot, below: seq<Slot>, rest: seq<Slot>, parent: int, first: nat, j: nat)
    requires Family(one, below, rest, parent, first) && j < |below| && (j > 0 ==> Follows(below, first + 1, j))
    ensures Follows([one] + below + rest, first, 1 + j)
  {
    hide OnPath;
    var all := [one] + below + rest;
    assert all[1 + j] == below[j];
    if j == 0 {
      OwnPath(all, first, 0);
    } else {
      PathBelow(one, below, rest, parent, first, j - 1, below[j].parent);
    }
  }

  lemma FollowsRest(one: Slot, below: seq<Slot>, rest: seq<Slot>, parent: int, first: nat, j: nat)
    requires Family(one, below, rest, parent, first) && j < |rest| && (below != [] ==> one.entry.isDirectory)
    requires j > 0 ==> Follows(rest, first + 1 + |below|, j)
    ensures Follows([one] + below + rest, first, 1 + |below| + j)
  {
    hide OnPath;
    var all := [one] + below + rest;
    assert all[1 + |below| + j] == rest[j];
    if j == 0 {
      HangsJoin(one, below, rest, parent, first);
      hide Hangs;
      PathReachesTop(all, parent, first, |below|);
    } else {
      PathRest(one, below, rest, parent, first, j - 1, rest[j].parent);
    }
  }

  lemma OwnPath(slots: seq<Slot>, first: int, k: nat)
    requires k < |slots|
    ensures OnPath(slots, first, k, first + k)
  {
  }

  /** What lies below an entry comes right behind it. */
  lemma {:induction false} UnfoldIsPreordered(tree: Tree, entries: seq<Entry>, parent: int, first: nat, depth: nat)
    requires depth <= 256 && parent < first
    ensures Preordered(Unfold(tree, entries, parent, first, depth), first)
    decreases 256 - depth, |entries|
  {
    hide Admit, Listing, OnPath, Preordered, Hangs;
    if entries == [] {
      NothingPreordered(first);
    } else {
      var e := Admit(tree, entries[0]);
      if e.None? {
        UnfoldIsPreordered(tree, entries[1..], parent, first, depth);
      } else {
        var below := Below(tree, e.value, first, depth);
        NothingPreordered(first + 1);
        NothingHolds(tree, first + 1, depth);
        if below != [] {
          UnfoldIsPreordered(tree, Listing(tree, e.value, depth).value, first, first + 1, depth + 1);
          UnfoldHangs(tree, Listing(tree, e.value, depth).value, first, first + 1, depth + 1);
        }
        UnfoldIsPreordered(tree, entries[1..], parent, first + 1 + |below|, depth);
        UnfoldHangs(tree, entries[1..], parent, first + 1 + |below|, depth);
        FamilyIsPreordered(Slot(parent, e.value), below, Unfold(tree, entries[1..], parent, first + 1 + |below|, depth), parent, first);
      }
    }
  }

  lemma NothingPreordered(first: int)
    ensures Preordered([], first)
  {
  }
}
