/** Radix page tables without their bit layout: a heap of tables whose slots are
    empty, lead to a table one level down, or end the walk. Both architectures'
    managers (kernel/x64/vmm.c, kernel/i386/vmm.c) work on such a heap; several
    root tables may share what hangs under their slots. */
module Forest {
  import opened Wrappers
  import Pmm

  datatype Slot = Absent | Next(page: nat) | Leaf(word: nat)

  /** Where a table stands: a root, or the indices that lead to it from a root
      together with the first table on that way. */
  datatype Tag = Root | Below(prefix: seq<nat>, top: nat)
  datatype Table = Table(tag: Tag, slots: seq<Slot>)
  datatype Heap = Heap(levels: nat, width: nat, tables: map<nat, Table>, free: set<nat>)

  /** The entry that ends a walk and how many levels were left below it. */
  datatype Hit = Hit(word: nat, below: nat)

  function Position(tag: Tag): seq<nat> {
    match tag
    case Root => []
    case Below(prefix, _) => prefix
  }

  function ChildTag(tag: Tag, i: nat, page: nat): Tag {
    match tag
    case Root => Below([i], page)
    case Below(prefix, top) => Below(prefix + [i], top)
  }

  function SlotAt(f: Heap, page: nat, i: nat): Slot {
    if page in f.tables && i < |f.tables[page].slots| then f.tables[page].slots[i] else Absent
  }

  function Depth(f: Heap, page: nat): nat
    requires page in f.tables
  {
    |Position(f.tables[page].tag)|
  }

  /** A slot leads only to a table that stands exactly one step further. */
  ghost predicate SlotValid(f: Heap, page: nat, i: nat)
    requires page in f.tables
  {
    match SlotAt(f, page, i)
    case Next(q) =>
      && Depth(f, page) + 1 < f.levels
      && q in f.tables
      && f.tables[q].tag == ChildTag(f.tables[page].tag, i, q)
    case _ => true
  }

  ghost predicate HeapValid(f: Heap) {
    && f.levels >= 2
    && f.free !! f.tables.Keys
    && 0 !in f.free && 0 !in f.tables
    && (forall p :: p in f.tables ==>
         && |f.tables[p].slots| == f.width
         && Depth(f, p) < f.levels
         && (f.tables[p].tag.Below? ==> f.tables[p].tag.prefix != []))
    && (forall p, i :: p in f.tables && 0 <= i < f.width ==> SlotValid(f, p, i))
  }

  ghost predicate IsRoot(f: Heap, page: nat) {
    page in f.tables && f.tables[page].tag == Root
  }

  /** path holds one index for every level from the table on. */
  ghost predicate PathFrom(f: Heap, page: nat, path: seq<nat>) {
    && page in f.tables
    && path != []
    && Depth(f, page) + |path| == f.levels
    && forall k :: 0 <= k < |path| ==> path[k] < f.width
  }

  function Walk(f: Heap, page: nat, path: seq<nat>): Option<Hit>
    decreases |path|
  {
    if path == [] then None
    else
      match SlotAt(f, page, path[0])
      case Absent => None
      case Leaf(word) => Some(Hit(word, |path| - 1))
      case Next(q) => Walk(f, q, path[1..])
  }

  /** No slot above the last level ends the walk early, as a large page would. */
  predicate NoLarge(f: Heap, page: nat, path: seq<nat>)
    decreases |path|
  {
    |path| <= 1 ||
    match SlotAt(f, page, path[0])
    case Absent => true
    case Leaf(_) => false
    case Next(q) => NoLarge(f, q, path[1..])
  }

  // ---------- the operations ----------

  function SetSlot(f: Heap, page: nat, i: nat, slot: Slot): Heap
    requires page in f.tables && i < |f.tables[page].slots|
  {
    f.(tables := f.tables[page := f.tables[page].(slots := f.tables[page].slots[i := slot])])
  }

  function EmptySlots(n: nat): (s: seq<Slot>)
    ensures |s| == n && forall i :: 0 <= i < n ==> s[i] == Absent
  {
    seq(n, _ => Absent)
  }

  /** Turns a free page into a table. */
  function NewTable(f: Heap, q: nat, table: Table): Heap {
    f.(tables := f.tables[q := table], free := f.free - {q})
  }

  /** The table a cleared page makes under slot i of page. */
  function BlankChild(f: Heap, page: nat, i: nat, q: nat): Table
    requires page in f.tables
  {
    Table(ChildTag(f.tables[page].tag, i, q), EmptySlots(f.width))
  }

  /** Hangs a free page, cleared, under an empty slot. */
  function AddChild(f: Heap, page: nat, i: nat, q: nat): Heap
    requires page in f.tables && i < |f.tables[page].slots| && page != q
  {
    SetSlot(NewTable(f, q, BlankChild(f, page, i, q)), page, i, Next(q))
  }

  /** next_table with create: follows slot i, first filling it from the allocator; None is a panic. */
  ghost function Extend(f: Heap, page: nat, i: nat): Option<(Heap, nat)>
    requires page in f.tables && i < |f.tables[page].slots| && page !in f.free
  {
    match SlotAt(f, page, i)
    case Next(q) => Some((f, q))
    case _ =>
      if f.free == {} then None
      else var q := Pmm.Lowest(f.free); Some((AddChild(f, page, i, q), q))
  }

  lemma ExtendLeadsOn(f: Heap, page: nat, i: nat)
    requires HeapValid(f) && page in f.tables && i < f.width && !SlotAt(f, page, i).Leaf?
    ensures match Extend(f, page, i)
      case None => true
      case Some((g, q)) => page in g.tables && Depth(g, page) == Depth(f, page) && SlotAt(g, page, i) == Next(q)
  {
  }

  /** page_table with create: the last-level table of a path. */
  ghost function Grow(f: Heap, page: nat, path: seq<nat>): Option<(Heap, nat)>
    decreases |path|
  {
    if |path| <= 1 then Some((f, page))
    else if !(page in f.tables && path[0] < |f.tables[page].slots| && page !in f.free) then None
    else
      match Extend(f, page, path[0])
      case None => None
      case Some((g, q)) => Grow(g, q, path[1..])
  }

  ghost function Map(f: Heap, root: nat, path: seq<nat>, word: nat): Option<Heap>
    requires path != []
  {
    match Grow(f, root, path)
    case None => None
    case Some((g, t)) =>
      if t in g.tables && path[|path| - 1] < |g.tables[t].slots|
      then Some(SetSlot(g, t, path[|path| - 1], Leaf(word)))
      else None
  }

  /** page_table without create. */
  function Find(f: Heap, page: nat, path: seq<nat>): Option<nat>
    decreases |path|
  {
    if |path| <= 1 then Some(page)
    else
      match SlotAt(f, page, path[0])
      case Next(q) => Find(f, q, path[1..])
      case _ => None
  }

  function Unmap(f: Heap, root: nat, path: seq<nat>): Heap
    requires path != []
  {
    match Find(f, root, path)
    case None => f
    case Some(t) =>
      if t in f.tables && path[|path| - 1] < |f.tables[t].slots|
      then SetSlot(f, t, path[|path| - 1], Absent)
      else f
  }

  // ---------- what a change of one slot can touch ----------

  /** The walk from page along path goes through slot i of table p. */
  predicate Reaches(f: Heap, page: nat, path: seq<nat>, p: nat, i: nat)
    decreases |path|
  {
    path != [] &&
    ((page == p && path[0] == i) ||
     match SlotAt(f, page, path[0])
     case Next(q) => Reaches(f, q, path[1..], p, i)
     case _ => false)
  }

  lemma {:induction false} ReachesBelow(f: Heap, page: nat, path: seq<nat>, p: nat, i: nat)
    requires HeapValid(f) && PathFrom(f, page, path) && p in f.tables && Depth(f, p) == f.levels - 1
    requires Reaches(f, page, path, p, i)
    ensures Position(f.tables[p].tag) + [i] == Position(f.tables[page].tag) + path
    ensures f.tables[page].tag.Below? ==> f.tables[p].tag.Below? && f.tables[p].tag.top == f.tables[page].tag.top
    ensures f.tables[page].tag.Root? ==> f.tables[p].tag.Below? && SlotAt(f, page, path[0]) == Next(f.tables[p].tag.top)
    decreases |path|
  {
    assert SlotValid(f, page, path[0]);
    if page == p && path[0] == i {
      assert |path| == 1;
    } else {
      var q := SlotAt(f, page, path[0]).page;
      assert |path| > 1;
      ReachesBelow(f, q, path[1..], p, i);
      assert Position(f.tables[q].tag) + path[1..] == Position(f.tables[page].tag) + path;
    }
  }

  /** Setting a last-level slot changes exactly the walks through it. */
  lemma {:induction false} WalkAfterSet(f: Heap, page: nat, path: seq<nat>, p: nat, i: nat, slot: Slot)
    requires HeapValid(f) && PathFrom(f, page, path)
    requires p in f.tables && i < f.width && Depth(f, p) == f.levels - 1 && !slot.Next?
    ensures Walk(SetSlot(f, p, i, slot), page, path) ==
      if !Reaches(f, page, path, p, i) then Walk(f, page, path)
      else match slot case Leaf(word) => Some(Hit(word, 0)) case _ => None
    decreases |path|
  {
    assert SlotValid(f, page, path[0]);
    var g := SetSlot(f, p, i, slot);
    if page == p && path[0] == i {
      assert |path| == 1;
    } else {
      assert SlotAt(g, page, path[0]) == SlotAt(f, page, path[0]);
      match SlotAt(f, page, path[0])
      case Next(q) => WalkAfterSet(f, q, path[1..], p, i, slot);
      case _ =>
    }
  }

  lemma SetLeafValid(f: Heap, p: nat, i: nat, slot: Slot)
    requires HeapValid(f) && p in f.tables && i < f.width && !slot.Next?
    ensures HeapValid(SetSlot(f, p, i, slot))
  {
    var g := SetSlot(f, p, i, slot);
    forall x, k | x in g.tables && 0 <= k < g.width
      ensures SlotValid(g, x, k)
    {
      assert SlotValid(f, x, k);
    }
  }

  /** A new table fits when its slots do; nothing needs to lead to it yet. */
  lemma NewTableValid(f: Heap, q: nat, table: Table)
    requires HeapValid(f) && q in f.free && |table.slots| == f.width
    requires |Position(table.tag)| < f.levels && (table.tag.Below? ==> table.tag.prefix != [])
    requires forall i :: 0 <= i < f.width ==> !table.slots[i].Next?
    ensures HeapValid(NewTable(f, q, table))
  {
    var g := NewTable(f, q, table);
    forall x, k | x in g.tables && 0 <= k < g.width
      ensures SlotValid(g, x, k)
    {
      if x != q { assert SlotValid(f, x, k); }
    }
  }

  lemma LinkValid(f: Heap, page: nat, i: nat, q: nat)
    requires HeapValid(f) && page in f.tables && q in f.tables && i < f.width && Depth(f, page) + 1 < f.levels
    requires f.tables[q].tag == ChildTag(f.tables[page].tag, i, q)
    ensures HeapValid(SetSlot(f, page, i, Next(q)))
  {
    var g := SetSlot(f, page, i, Next(q));
    forall x, k | x in g.tables && 0 <= k < g.width
      ensures SlotValid(g, x, k)
    {
      assert SlotValid(f, x, k);
    }
  }

  lemma AddChildValid(f: Heap, page: nat, i: nat, q: nat)
    requires HeapValid(f) && page in f.tables && i < f.width && q in f.free
    requires Depth(f, page) + 1 < f.levels
    ensures HeapValid(NewTable(f, q, BlankChild(f, page, i, q))) && HeapValid(AddChild(f, page, i, q))
  {
    NewTableValid(f, q, BlankChild(f, page, i, q));
    LinkValid(NewTable(f, q, BlankChild(f, page, i, q)), page, i, q);
  }

  /** A cleared table adds no translation. */
  lemma {:induction false} WalkAfterAddChild(f: Heap, page: nat, i: nat, q: nat, x: nat, path: seq<nat>)
    requires HeapValid(f) && page in f.tables && i < f.width && q in f.free
    requires SlotAt(f, page, i) == Absent && x in f.tables
    ensures Walk(AddChild(f, page, i, q), x, path) == Walk(f, x, path)
    decreases |path|
  {
    var g := AddChild(f, page, i, q);
    if path != [] {
      if x == page && path[0] == i {
        if |path| > 1 { assert SlotAt(g, q, path[1]) == Absent; }
      } else {
        assert SlotAt(g, x, path[0]) == SlotAt(f, x, path[0]);
        match SlotAt(f, x, path[0])
        case Next(y) =>
          assert SlotValid(f, x, path[0]);
          WalkAfterAddChild(f, page, i, q, y, path[1..]);
        case _ =>
      }
    }
  }

  // ---------- growing a path ----------

  /** What every step of Grow keeps of f. */
  ghost predicate Kept(f: Heap, g: Heap) {
    && g.levels == f.levels && g.width == f.width
    && g.free <= f.free
    && (forall x :: x in f.tables ==> x in g.tables && g.tables[x].tag == f.tables[x].tag)
    && (forall x, i :: x in f.tables && SlotAt(f, x, i) != Absent ==> SlotAt(g, x, i) == SlotAt(f, x, i))
  }

  /** Of the roots, only slot i of page may change: from empty to a table new in g. */
  ghost predicate RootsKept(f: Heap, g: Heap, page: nat, i: nat) {
    forall x, k :: IsRoot(f, x) && 0 <= k < f.width ==>
      || SlotAt(g, x, k) == SlotAt(f, x, k)
      || (x == page && k == i && SlotAt(f, x, k) == Absent &&
          SlotAt(g, x, k).Next? && SlotAt(g, x, k).page !in f.tables)
  }

  lemma ExtendSpec(f: Heap, page: nat, path: seq<nat>)
    requires HeapValid(f) && PathFrom(f, page, path) && NoLarge(f, page, path) && |path| > 1
    requires Extend(f, page, path[0]).Some?
    ensures var (h, q) := Extend(f, page, path[0]).value;
      && HeapValid(h) && Kept(f, h) && RootsKept(f, h, page, path[0])
      && SlotAt(h, page, path[0]) == Next(q)
      && PathFrom(h, q, path[1..]) && NoLarge(h, q, path[1..]) && !IsRoot(h, q)
  {
    if SlotAt(f, page, path[0]) == Absent {
      hide AddChild, Kept, RootsKept, IsRoot, SlotValid, NoLarge;
      AddChildSpec(f, page, path, Pmm.Lowest(f.free));
    } else {
      hide AddChild;
      assert SlotValid(f, page, path[0]);
    }
  }

  lemma AddChildSpec(f: Heap, page: nat, path: seq<nat>, q: nat)
    requires HeapValid(f) && PathFrom(f, page, path) && |path| > 1 && SlotAt(f, page, path[0]) == Absent && q in f.free
    ensures var h := AddChild(f, page, path[0], q);
      && HeapValid(h) && Kept(f, h) && RootsKept(f, h, page, path[0])
      && SlotAt(h, page, path[0]) == Next(q)
      && PathFrom(h, q, path[1..]) && NoLarge(h, q, path[1..]) && !IsRoot(h, q)
  {
    hide HeapValid, NoLarge, Kept, RootsKept;
    HeapFacts(f, page, q);
    AddChildKept(f, page, path[0], q);
    var h := AddChild(f, page, path[0], q);
    AddChildValid(f, page, path[0], q);
    NoLargeUnderBlank(h, q, path[1..]);
  }

  lemma AddChildKept(f: Heap, page: nat, i: nat, q: nat)
    requires HeapValid(f) && page in f.tables && i < f.width && q in f.free && SlotAt(f, page, i) == Absent
    requires i < |f.tables[page].slots| && page != q
    ensures Kept(f, AddChild(f, page, i, q)) && RootsKept(f, AddChild(f, page, i, q), page, i)
  {
  }

  lemma HeapFacts(f: Heap, page: nat, q: nat)
    requires HeapValid(f) && page in f.tables && q in f.free
    ensures q !in f.tables && q != page && Depth(f, page) < f.levels
    ensures forall p :: p in f.tables ==> |f.tables[p].slots| == f.width
  {
  }

  /** next_table for either value of create; page 0 stands for NULL. */
  ghost function Follow(f: Heap, page: nat, i: nat, create: bool): Option<(Heap, nat)>
    requires page in f.tables && i < |f.tables[page].slots| && page !in f.free
  {
    if create then Extend(f, page, i)
    else Some((f, match SlotAt(f, page, i) case Next(q) => q case _ => 0))
  }

  /** page_table for either value of create. */
  ghost function Descend(f: Heap, page: nat, path: seq<nat>, create: bool): Option<(Heap, nat)> {
    if create then Grow(f, page, path)
    else Some((f, match Find(f, page, path) case Some(t) => t case None => 0))
  }

  /** What one step of a descent needs, and what it leaves for the next. */
  lemma StepDown(f: Heap, page: nat, path: seq<nat>, create: bool)
    requires HeapValid(f) && PathFrom(f, page, path) && NoLarge(f, page, path) && |path| > 1
    ensures page in f.tables && page !in f.free && path[0] < |f.tables[page].slots| && path[0] < f.width
    ensures Depth(f, page) + 1 < f.levels && !SlotAt(f, page, path[0]).Leaf?
    ensures match Follow(f, page, path[0], create)
      case None => Descend(f, page, path, create) == None
      case Some((h, q)) =>
        if q == 0 then Descend(f, page, path, create) == Some((h, 0))
        else PathFrom(h, q, path[1..]) && NoLarge(h, q, path[1..]) &&
             Descend(f, page, path, create) == Descend(h, q, path[1..], create)
  {
    assert SlotValid(f, page, path[0]);
    if Extend(f, page, path[0]).Some? { ExtendSpec(f, page, path); }
  }

  lemma DescentEnds(f: Heap, page: nat, path: seq<nat>, create: bool)
    requires |path| <= 1
    ensures Descend(f, page, path, create) == Some((f, page))
  {
  }

  lemma KeptTwice(f: Heap, h: Heap, g: Heap, page: nat, i: nat, q: nat, k: nat)
    requires HeapValid(f) && Kept(f, h) && Kept(h, g)
    requires RootsKept(f, h, page, i) && RootsKept(h, g, q, k) && !IsRoot(h, q)
    ensures Kept(f, g) && RootsKept(f, g, page, i)
  {
    forall x, n | IsRoot(f, x) && 0 <= n < f.width
      ensures SlotAt(g, x, n) == SlotAt(h, x, n)
    {
      assert IsRoot(h, x);
    }
  }

  lemma {:induction false} GrowSpec(f: Heap, page: nat, path: seq<nat>)
    requires HeapValid(f) && PathFrom(f, page, path) && NoLarge(f, page, path)
    ensures Grow(f, page, path).Some? ==>
      var (g, t) := Grow(f, page, path).value;
      && HeapValid(g) && Kept(f, g) && RootsKept(f, g, page, path[0])
      && t in g.tables && Depth(g, t) == g.levels - 1
      && Reaches(g, page, path, t, path[|path| - 1])
    decreases |path|
  {
    hide HeapValid, NoLarge, Kept, RootsKept, Extend;
    if |path| == 1 {
      GrowNothing(f, page, path);
    } else if Grow(f, page, path).Some? {
      PathStarts(f, page, path);
      ExtendSpec(f, page, path);
      var (h, q) := Extend(f, page, path[0]).value;
      GrowSpec(h, q, path[1..]);
      var (g, t) := Grow(f, page, path).value;
      KeptTwice(f, h, g, page, path[0], q, path[1]);
      SlotKept(h, g, page, path[0]);
    }
  }

  lemma GrowNothing(f: Heap, page: nat, path: seq<nat>)
    requires HeapValid(f) && PathFrom(f, page, path) && |path| == 1
    ensures Grow(f, page, path) == Some((f, page)) && Kept(f, f) && RootsKept(f, f, page, path[0])
  {
  }

  lemma PathStarts(f: Heap, page: nat, path: seq<nat>)
    requires HeapValid(f) && PathFrom(f, page, path)
    ensures page in f.tables && path[0] < |f.tables[page].slots| && page !in f.free
  {
  }

  lemma SlotKept(h: Heap, g: Heap, page: nat, i: nat)
    requires Kept(h, g) && page in h.tables && SlotAt(h, page, i).Next?
    ensures SlotAt(g, page, i) == SlotAt(h, page, i)
  {
  }

  lemma NoLargeUnderBlank(f: Heap, page: nat, path: seq<nat>)
    requires forall i :: SlotAt(f, page, i) == Absent
    ensures NoLarge(f, page, path)
  {
  }

  lemma {:induction false} GrowKeepsWalks(f: Heap, page: nat, path: seq<nat>, x: nat, other: seq<nat>)
    requires HeapValid(f) && PathFrom(f, page, path) && NoLarge(f, page, path) && x in f.tables
    requires Grow(f, page, path).Some?
    ensures Walk(Grow(f, page, path).value.0, x, other) == Walk(f, x, other)
    decreases |path|
  {
    if |path| > 1 {
      ExtendSpec(f, page, path);
      var (h, q) := Extend(f, page, path[0]).value;
      if SlotAt(f, page, path[0]) == Absent {
        WalkAfterAddChild(f, page, path[0], q, x, other);
      }
      GrowKeepsWalks(h, q, path[1..], x, other);
    }
  }

  // ---------- one map or unmap, seen through any root ----------

  /** Roots x and y lead slot i to the same table. */
  predicate Shared(f: Heap, x: nat, y: nat, i: nat) {
    SlotAt(f, x, i).Next? && SlotAt(f, x, i) == SlotAt(f, y, i)
  }

  /** A change made through root at path shows at other through x. */
  predicate Targets(f: Heap, x: nat, other: seq<nat>, root: nat, path: seq<nat>) {
    path != [] && other == path && (x == root || Shared(f, x, root, path[0]))
  }

  /** Of all roots, those that share the first table reach a last-level slot, at one path only. */
  lemma ReachesExactly(f: Heap, root: nat, path: seq<nat>, x: nat, other: seq<nat>, t: nat)
    requires HeapValid(f) && IsRoot(f, root) && IsRoot(f, x) && PathFrom(f, root, path) && PathFrom(f, x, other)
    requires t in f.tables && Depth(f, t) == f.levels - 1 && Reaches(f, root, path, t, path[|path| - 1])
    ensures Reaches(f, x, other, t, path[|path| - 1]) <==> Targets(f, x, other, root, path)
  {
    var i := path[|path| - 1];
    ReachesBelow(f, root, path, t, i);
    if Reaches(f, x, other, t, i) {
      ReachesBelow(f, x, other, t, i);
      assert [] + other == other && [] + path == path;
    }
  }

  lemma MapSpec(f: Heap, root: nat, path: seq<nat>, word: nat)
    requires HeapValid(f) && IsRoot(f, root) && PathFrom(f, root, path) && NoLarge(f, root, path)
    requires Map(f, root, path, word).Some?
    ensures var g := Map(f, root, path, word).value; HeapValid(g) && RootsStay(f, g, root, path[0])
  {
    GrowSpec(f, root, path);
    var (g, t) := Grow(f, root, path).value;
    SetLeafValid(g, t, path[|path| - 1], Leaf(word));
  }

  /** A map is a descent that creates tables, then one write in the table it ends at. */
  lemma MapParts(f: Heap, root: nat, path: seq<nat>, word: nat)
    requires HeapValid(f) && PathFrom(f, root, path) && NoLarge(f, root, path)
    ensures match Descend(f, root, path, true)
      case None => Map(f, root, path, word) == None
      case Some((g, t)) =>
        && t in g.tables && Depth(g, t) == f.levels - 1 && path[|path| - 1] < |g.tables[t].slots| && t != 0
        && Map(f, root, path, word) == Some(SetSlot(g, t, path[|path| - 1], Leaf(word)))
        && HeapValid(SetSlot(g, t, path[|path| - 1], Leaf(word)))
  {
    GrowSpec(f, root, path);
    if Grow(f, root, path).Some? {
      var (g, t) := Grow(f, root, path).value;
      SetLeafValid(g, t, path[|path| - 1], Leaf(word));
    }
  }

  lemma UnmapParts(f: Heap, root: nat, path: seq<nat>)
    requires HeapValid(f) && PathFrom(f, root, path) && NoLarge(f, root, path)
    ensures match Descend(f, root, path, false)
      case None => false
      case Some((g, t)) =>
        g == f &&
        if t == 0 then Unmap(f, root, path) == f
        else t in f.tables && Depth(f, t) == f.levels - 1 && path[|path| - 1] < |f.tables[t].slots| &&
             Unmap(f, root, path) == SetSlot(f, t, path[|path| - 1], Absent) &&
             HeapValid(SetSlot(f, t, path[|path| - 1], Absent))
  {
    FindSpec(f, root, path);
    match Find(f, root, path)
    case Some(t) => SetLeafValid(f, t, path[|path| - 1], Absent);
    case None =>
  }

  /** What any operation through slot i of root leaves of the roots. */
  ghost predicate RootsStay(f: Heap, g: Heap, root: nat, i: nat) {
    && g.levels == f.levels && g.width == f.width && g.free <= f.free
    && (forall x :: IsRoot(f, x) ==> IsRoot(g, x))
    && (forall x :: x in f.tables ==> x in g.tables)
    && RootsKept(f, g, root, i)
  }

  /** The mapped address now ends at word through every root that shares its
      first table; every other walk ends as before. */
  lemma MapTranslates(f: Heap, root: nat, path: seq<nat>, word: nat, x: nat, other: seq<nat>)
    requires HeapValid(f) && IsRoot(f, root) && PathFrom(f, root, path) && NoLarge(f, root, path)
    requires Map(f, root, path, word).Some?
    requires IsRoot(f, x) && PathFrom(f, x, other)
    ensures Walk(Map(f, root, path, word).value, x, other) ==
      if Targets(f, x, other, root, path) then Some(Hit(word, 0)) else Walk(f, x, other)
  {
    GrowSpec(f, root, path);
    GrowKeepsWalks(f, root, path, x, other);
    var (g, t) := Grow(f, root, path).value;
    WalkAfterSet(g, x, other, t, path[|path| - 1], Leaf(word));
    ReachesExactly(g, root, path, x, other, t);
    assert SlotValid(f, x, path[0]);
    assert Targets(g, x, other, root, path) <==> Targets(f, x, other, root, path);
  }

  lemma {:induction false} FindSpec(f: Heap, page: nat, path: seq<nat>)
    requires HeapValid(f) && PathFrom(f, page, path) && NoLarge(f, page, path)
    ensures match Find(f, page, path)
      case None => Walk(f, page, path) == None
      case Some(t) => t in f.tables && Depth(f, t) == f.levels - 1 && Reaches(f, page, path, t, path[|path| - 1])
    decreases |path|
  {
    assert SlotValid(f, page, path[0]);
    if |path| > 1 {
      match SlotAt(f, page, path[0])
      case Next(q) => FindSpec(f, q, path[1..]);
      case _ =>
    }
  }

  lemma UnmapSpec(f: Heap, root: nat, path: seq<nat>)
    requires HeapValid(f) && IsRoot(f, root) && PathFrom(f, root, path) && NoLarge(f, root, path)
    ensures var g := Unmap(f, root, path); HeapValid(g) && RootsStay(f, g, root, path[0])
  {
    FindSpec(f, root, path);
    match Find(f, root, path)
    case Some(t) => SetLeafValid(f, t, path[|path| - 1], Absent);
    case None =>
  }

  /** The unmapped address has no translation through any root that shares its
      first table; every other walk ends as before. */
  lemma UnmapTranslates(f: Heap, root: nat, path: seq<nat>, x: nat, other: seq<nat>)
    requires HeapValid(f) && IsRoot(f, root) && PathFrom(f, root, path) && NoLarge(f, root, path)
    requires IsRoot(f, x) && PathFrom(f, x, other)
    ensures Walk(Unmap(f, root, path), x, other) ==
      if Targets(f, x, other, root, path) then None else Walk(f, x, other)
  {
    FindSpec(f, root, path);
    match Find(f, root, path)
    case Some(t) =>
      WalkAfterSet(f, x, other, t, path[|path| - 1], Absent);
      ReachesExactly(f, root, path, x, other, t);
    case None =>
  }

  lemma {:induction false} NoLargeIsShortHit(f: Heap, page: nat, path: seq<nat>)
    ensures NoLarge(f, page, path) <==> !(Walk(f, page, path).Some? && Walk(f, page, path).value.below > 0)
    decreases |path|
  {
    if path != [] {
      match SlotAt(f, page, path[0])
      case Next(q) => NoLargeIsShortHit(f, q, path[1..]);
      case _ =>
    }
  }

  // ---------- runs ----------

  datatype Op = MapOp(root: nat, path: seq<nat>, word: nat) | UnmapOp(root: nat, path: seq<nat>)

  /** The operation names a root and a full path that no large page cuts short. */
  ghost predicate Fits(f: Heap, op: Op) {
    IsRoot(f, op.root) && PathFrom(f, op.root, op.path) && NoLarge(f, op.root, op.path)
  }

  ghost function Apply(f: Heap, op: Op): Option<Heap> {
    if op.path == [] then None
    else
    match op
    case MapOp(root, path, word) => Map(f, root, path, word)
    case UnmapOp(root, path) => Some(Unmap(f, root, path))
  }

  /** The heap after all operations, or None when the allocator ran out. */
  ghost function Run(f: Heap, ops: seq<Op>): Option<Heap> {
    if ops == [] then Some(f)
    else
      match Run(f, ops[..|ops| - 1])
      case None => None
      case Some(g) => Apply(g, ops[|ops| - 1])
  }

  /** The flat meaning of a run: the last operation that targets an address decides it. */
  function LastWrite(f: Heap, ops: seq<Op>, x: nat, other: seq<nat>): Option<Hit> {
    if ops == [] then Walk(f, x, other)
    else
      var op := ops[|ops| - 1];
      if !Targets(f, x, other, op.root, op.path) then LastWrite(f, ops[..|ops| - 1], x, other)
      else if op.MapOp? then Some(Hit(op.word, 0))
      else None
  }

  lemma {:induction false} LastWriteShort(f: Heap, ops: seq<Op>, x: nat, other: seq<nat>)
    requires NoLarge(f, x, other)
    ensures LastWrite(f, ops, x, other).Some? ==> LastWrite(f, ops, x, other).value.below == 0
  {
    if ops == [] { NoLargeIsShortHit(f, x, other); } else { LastWriteShort(f, ops[..|ops| - 1], x, other); }
  }

  /** Which roots share a slot never changes while only maps and unmaps run. */
  lemma SharingStays(f: Heap, g: Heap, root: nat, i: nat, x: nat, y: nat, k: nat)
    requires HeapValid(f) && RootsStay(f, g, root, i) && IsRoot(f, x) && IsRoot(f, y) && x != y && k < f.width
    ensures Shared(g, x, y, k) <==> Shared(f, x, y, k)
  {
    assert SlotValid(f, x, k) && SlotValid(f, y, k);
  }

  /** A run keeps the heap valid and its roots' sharing. */
  ghost predicate RunKeeps(f: Heap, g: Heap) {
    && HeapValid(g) && g.levels == f.levels && g.width == f.width && g.free <= f.free
    && (forall x :: IsRoot(f, x) ==> IsRoot(g, x))
    && (forall x, y, k :: IsRoot(f, x) && IsRoot(f, y) && x != y && 0 <= k < f.width ==>
          (Shared(g, x, y, k) <==> Shared(f, x, y, k)))
  }

  /** Over every run of maps and unmaps through any roots, every root translates
      every address as the flat meaning says. */
  lemma {:induction false} RunIsLastWrite(f: Heap, ops: seq<Op>, x: nat, other: seq<nat>)
    requires HeapValid(f) && (forall op :: op in ops ==> Fits(f, op)) && Run(f, ops).Some?
    requires IsRoot(f, x) && PathFrom(f, x, other)
    ensures RunKeeps(f, Run(f, ops).value)
    ensures Walk(Run(f, ops).value, x, other) == LastWrite(f, ops, x, other)
  {
    if ops != [] {
      var before, op := ops[..|ops| - 1], ops[|ops| - 1];
      assert forall o :: o in before ==> o in ops;
      assert op in ops;
      RunIsLastWrite(f, before, x, other);
      RunIsLastWrite(f, before, op.root, op.path);
      var g := Run(f, before).value;
      LastWriteShort(f, before, op.root, op.path);
      NoLargeIsShortHit(g, op.root, op.path);
      ApplySpec(g, op, x, other);
      var h := Apply(g, op).value;
      forall x, y, k | IsRoot(f, x) && IsRoot(f, y) && x != y && 0 <= k < f.width
        ensures Shared(h, x, y, k) <==> Shared(f, x, y, k)
      {
        SharingStays(g, h, op.root, op.path[0], x, y, k);
      }
    }
  }

  lemma ApplySpec(f: Heap, op: Op, x: nat, other: seq<nat>)
    requires HeapValid(f) && Fits(f, op) && Apply(f, op).Some? && IsRoot(f, x) && PathFrom(f, x, other)
    ensures var g := Apply(f, op).value;
      && HeapValid(g) && RootsStay(f, g, op.root, op.path[0])
      && Walk(g, x, other) ==
           if !Targets(f, x, other, op.root, op.path) then Walk(f, x, other)
           else if op.MapOp? then Some(Hit(op.word, 0))
           else None
  {
    match op
    case MapOp(root, path, word) =>
      MapSpec(f, root, path, word);
      MapTranslates(f, root, path, word, x, other);
    case UnmapOp(root, path) =>
      UnmapSpec(f, root, path);
      UnmapTranslates(f, root, path, x, other);
  }

  // ---------- pages that come and go ----------

  /** Clients that take free pages or give some back do not touch the tables. */
  lemma {:induction false} WithFree(f: Heap, free: set<nat>, x: nat, path: seq<nat>)
    requires HeapValid(f)
    ensures Walk(f.(free := free), x, path) == Walk(f, x, path)
    ensures 0 !in free && free !! f.tables.Keys ==> HeapValid(f.(free := free))
    decreases |path|
  {
    var g := f.(free := free);
    forall p, i | p in g.tables && 0 <= i < g.width
      ensures SlotValid(g, p, i)
    {
      assert SlotValid(f, p, i);
    }
    if path != [] && SlotAt(f, x, path[0]).Next? {
      WithFree(f, free, SlotAt(f, x, path[0]).page, path[1..]);
    }
  }

  // ---------- new address spaces ----------

  /** Fills root from origin's slots. */
  function CopyRoot(f: Heap, origin: nat, root: nat): Heap
    requires origin in f.tables && root in f.tables
  {
    f.(tables := f.tables[root := f.tables[root].(slots := f.tables[origin].slots)])
  }

  function AddRoot(f: Heap, q: nat): Heap {
    NewTable(f, q, Table(Root, EmptySlots(f.width)))
  }

  /** vmm_create_address_space: a cleared page that then takes the origin's top-level entries. */
  ghost function CreateSpace(f: Heap, origin: nat): Option<(Heap, nat)>
    requires origin in f.tables
  {
    if f.free == {} then None
    else var q := Pmm.Lowest(f.free); Some((CopyRoot(AddRoot(f, q), origin, q), q))
  }

  lemma AddRootSpec(f: Heap, q: nat)
    requires HeapValid(f) && q in f.free
    ensures HeapValid(AddRoot(f, q)) && IsRoot(AddRoot(f, q), q)
  {
    NewTableValid(f, q, Table(Root, EmptySlots(f.width)));
  }

  /** Nothing leads to a new table yet, so no walk changes. */
  lemma {:induction false} WalkAfterNewTable(f: Heap, q: nat, table: Table, x: nat, path: seq<nat>)
    requires HeapValid(f) && q in f.free && x in f.tables
    ensures Walk(NewTable(f, q, table), x, path) == Walk(f, x, path)
    decreases |path|
  {
    if path != [] && SlotAt(f, x, path[0]).Next? {
      assert SlotValid(f, x, path[0]);
      WalkAfterNewTable(f, q, table, SlotAt(f, x, path[0]).page, path[1..]);
    }
  }

  lemma CopyRootValid(f: Heap, origin: nat, root: nat)
    requires HeapValid(f) && IsRoot(f, origin) && IsRoot(f, root)
    ensures HeapValid(CopyRoot(f, origin, root))
  {
    var g := CopyRoot(f, origin, root);
    forall x, k | x in g.tables && 0 <= k < g.width
      ensures SlotValid(g, x, k)
    {
      assert SlotValid(f, if x == root then origin else x, k);
    }
  }

  /** No table below a root leads back to a root, so only root's own walks change. */
  lemma {:induction false} WalkAfterCopyRoot(f: Heap, origin: nat, root: nat, x: nat, path: seq<nat>)
    requires HeapValid(f) && IsRoot(f, origin) && IsRoot(f, root) && x in f.tables
    ensures Walk(CopyRoot(f, origin, root), x, path) == Walk(f, if x == root then origin else x, path)
    decreases |path|
  {
    var y := if x == root then origin else x;
    if path != [] && SlotAt(f, y, path[0]).Next? {
      assert SlotValid(f, y, path[0]);
      WalkAfterCopyRoot(f, origin, root, SlotAt(f, y, path[0]).page, path[1..]);
    }
  }

  /** A created space translates like its origin, and every older root as before. */
  lemma CreateSpaceTranslates(f: Heap, origin: nat, x: nat, path: seq<nat>)
    requires HeapValid(f) && IsRoot(f, origin) && CreateSpace(f, origin).Some? && x in f.tables
    ensures var (g, q) := CreateSpace(f, origin).value;
      && HeapValid(g) && IsRoot(g, q) && q !in f.tables
      && Walk(g, q, path) == Walk(f, origin, path)
      && Walk(g, x, path) == Walk(f, x, path)
      && g.tables[q].slots == g.tables[origin].slots
  {
    var q := Pmm.Lowest(f.free);
    var h := AddRoot(f, q);
    AddRootSpec(f, q);
    CopyRootValid(h, origin, q);
    WalkAfterNewTable(f, q, Table(Root, EmptySlots(f.width)), origin, path);
    WalkAfterNewTable(f, q, Table(Root, EmptySlots(f.width)), x, path);
    WalkAfterCopyRoot(h, origin, q, q, path);
    WalkAfterCopyRoot(h, origin, q, x, path);
  }

  /** Two roots with a common slot agree under it after any run, whoever made the changes. */
  lemma SharedSlotAgrees(f: Heap, ops: seq<Op>, x: nat, y: nat, path: seq<nat>)
    requires HeapValid(f) && (forall op :: op in ops ==> Fits(f, op)) && Run(f, ops).Some?
    requires IsRoot(f, x) && IsRoot(f, y) && PathFrom(f, x, path) && Shared(f, x, y, path[0])
    ensures Walk(Run(f, ops).value, x, path) == Walk(Run(f, ops).value, y, path)
  {
    RunIsLastWrite(f, ops, x, path);
    if x != y {
      assert Shared(Run(f, ops).value, x, y, path[0]);
    }
  }

  /** Under a slot that x shares with no root in use, a run through the others changes nothing for x. */
  lemma {:induction false} PrivateSlotStays(f: Heap, ops: seq<Op>, x: nat, path: seq<nat>)
    requires HeapValid(f) && (forall op :: op in ops ==> Fits(f, op)) && Run(f, ops).Some?
    requires IsRoot(f, x) && PathFrom(f, x, path)
    requires forall op :: op in ops ==> op.root != x && !Shared(f, x, op.root, path[0])
    ensures Walk(Run(f, ops).value, x, path) == Walk(f, x, path)
  {
    RunIsLastWrite(f, ops, x, path);
    OthersWriteNothing(f, ops, x, path);
  }

  lemma {:induction false} OthersWriteNothing(f: Heap, ops: seq<Op>, x: nat, path: seq<nat>)
    requires path != [] && forall op :: op in ops ==> op.root != x && !Shared(f, x, op.root, path[0])
    ensures LastWrite(f, ops, x, path) == Walk(f, x, path)
  {
    if ops != [] {
      assert ops[|ops| - 1] in ops;
      OthersWriteNothing(f, ops[..|ops| - 1], x, path);
    }
  }

  // ---------- the deep clone ----------

  /** One turn of the i386 clone loop: slot i of dst gets its own copy of src's table. */
  ghost function CloneSlot(f: Heap, src: nat, dst: nat, i: nat): Option<Heap>
    requires dst in f.tables && i < |f.tables[dst].slots| && dst !in f.free
  {
    match SlotAt(f, src, i)
    case Next(s) =>
      if f.free == {} || s !in f.tables then None
      else
        var q := Pmm.Lowest(f.free);
        Some(SetSlot(NewTable(f, q, Table(Below([i], q), f.tables[s].slots)), dst, i, Next(q)))
    case _ => Some(f)
  }

  /** The clone after its first n turns. */
  ghost function CloneSlots(f: Heap, src: nat, dst: nat, n: nat): Option<Heap> {
    if n == 0 then Some(f)
    else
      match CloneSlots(f, src, dst, n - 1)
      case None => None
      case Some(g) =>
        if dst in g.tables && n - 1 < |g.tables[dst].slots| && dst !in g.free then CloneSlot(g, src, dst, n - 1)
        else None
  }

  lemma {:induction false} CloneSlotsStop(f: Heap, src: nat, dst: nat, n: nat, m: nat)
    requires n <= m && CloneSlots(f, src, dst, n) == None
    ensures CloneSlots(f, src, dst, m) == None
  {
    if n < m { CloneSlotsStop(f, src, dst, n, m - 1); }
  }

  ghost predicate CloneReady(f: Heap, src: nat, dst: nat) {
    HeapValid(f) && f.levels == 2 && IsRoot(f, src) && IsRoot(f, dst)
  }

  lemma CloneSlotValid(f: Heap, src: nat, dst: nat, i: nat)
    requires CloneReady(f, src, dst) && i < f.width && CloneSlot(f, src, dst, i).Some?
    ensures var g := CloneSlot(f, src, dst, i).value;
      && CloneReady(g, src, dst) && g.width == f.width
      && (forall t :: t in f.tables ==> t in g.tables)
      && (forall y, k: nat :: y in f.tables && (y != dst || k != i) ==> SlotAt(g, y, k) == SlotAt(f, y, k))
      && (SlotAt(f, src, i).Next? ==> SlotAt(g, dst, i).Next? && SlotAt(g, dst, i).page !in f.tables)
      && (!SlotAt(f, src, i).Next? ==> g == f)
  {
    assert SlotValid(f, src, i);
    var g := CloneSlot(f, src, dst, i).value;
    if SlotAt(f, src, i).Next? {
      var s := SlotAt(f, src, i).page;
      forall y, k | y in g.tables && 0 <= k < g.width
        ensures SlotValid(g, y, k)
      {
        if y in f.tables { assert SlotValid(f, y, k); } else { assert SlotValid(f, s, k); }
      }
    }
  }

  lemma CloneSlotWalks(f: Heap, src: nat, dst: nat, i: nat, x: nat, path: seq<nat>)
    requires CloneReady(f, src, dst) && i < f.width && CloneSlot(f, src, dst, i).Some?
    requires IsRoot(f, x) && |path| == 2
    ensures var g := CloneSlot(f, src, dst, i).value;
      && IsRoot(g, x)
      && Walk(g, x, path) ==
           Walk(f, if x == dst && path[0] == i && SlotAt(f, src, i).Next? then src else x, path)
  {
    assert SlotValid(f, src, i) && SlotValid(f, x, path[0]);
    if SlotAt(f, src, i).Next? {
      var s := SlotAt(f, src, i).page;
      var last := path[1..];
      assert |last| == 1;
      var y := if (x != dst || path[0] != i) && SlotAt(f, x, path[0]).Next? then SlotAt(f, x, path[0]).page else s;
      assert y in f.tables && y != dst && SlotValid(f, y, last[0]);
    }
  }

  /** After the clone's turns every slot they took over leads to a table made for it;
      all other slots are as before. */
  lemma {:induction false} CloneSlotsKeep(f: Heap, src: nat, dst: nat, n: nat)
    requires CloneReady(f, src, dst) && n <= f.width && CloneSlots(f, src, dst, n).Some?
    ensures var g := CloneSlots(f, src, dst, n).value;
      && CloneReady(g, src, dst) && g.width == f.width
      && (forall t :: t in f.tables ==> t in g.tables)
      && (forall x :: IsRoot(f, x) ==> IsRoot(g, x))
      && (forall y, k: nat :: y in f.tables && (y != dst || k >= n) ==> SlotAt(g, y, k) == SlotAt(f, y, k))
      && (forall k :: 0 <= k < n && SlotAt(f, src, k).Next? ==>
            SlotAt(g, dst, k).Next? && SlotAt(g, dst, k).page !in f.tables)
      && (forall k :: 0 <= k < n && !SlotAt(f, src, k).Next? ==> SlotAt(g, dst, k) == SlotAt(f, dst, k))
  {
    hide HeapValid, CloneSlot;
    if n > 0 {
      CloneSlotsKeep(f, src, dst, n - 1);
      NextSlot(CloneSlots(f, src, dst, n - 1).value, dst, n - 1);
      var h := CloneSlots(f, src, dst, n - 1).value;
      forall x | IsRoot(h, x)
        ensures IsRoot(CloneSlot(h, src, dst, n - 1).value, x)
      {
        CloneSlotWalks(h, src, dst, n - 1, x, [0, 0]);
      }
      CloneSlotValid(h, src, dst, n - 1);
    }
  }

  lemma NextSlot(f: Heap, dst: nat, i: nat)
    requires HeapValid(f) && dst in f.tables && i < f.width
    ensures i < |f.tables[dst].slots| && dst !in f.free
  {
  }

  /** dst then walks like src under those slots, and all other walks are as before. */
  lemma {:induction false} CloneSlotsTranslate(f: Heap, src: nat, dst: nat, n: nat, x: nat, path: seq<nat>)
    requires CloneReady(f, src, dst) && n <= f.width && CloneSlots(f, src, dst, n).Some?
    requires IsRoot(f, x) && |path| == 2
    ensures Walk(CloneSlots(f, src, dst, n).value, x, path) ==
      Walk(f, if x == dst && path[0] < n && SlotAt(f, src, path[0]).Next? then src else x, path)
  {
    if n > 0 {
      CloneSlotsKeep(f, src, dst, n - 1);
      CloneSlotsTranslate(f, src, dst, n - 1, x, path);
      CloneSlotsTranslate(f, src, dst, n - 1, src, path);
      CloneSlotWalks(CloneSlots(f, src, dst, n - 1).value, src, dst, n - 1, x, path);
    }
  }

  /** A directory whose entries are a subset of the source's becomes its equal, shares
      nothing with it, and a later run through one never changes the other. */
  lemma CloneIsIndependent(f: Heap, src: nat, dst: nat, ops: seq<Op>, path: seq<nat>)
    requires CloneReady(f, src, dst) && src != dst && CloneSlots(f, src, dst, f.width).Some? && PathFrom(f, src, path)
    requires forall k :: 0 <= k < f.width && SlotAt(f, dst, k) != Absent ==> SlotAt(f, src, k).Next?
    requires forall k :: 0 <= k < f.width ==> !SlotAt(f, src, k).Leaf?
    ensures var g := CloneSlots(f, src, dst, f.width).value;
      && Walk(g, dst, path) == Walk(f, src, path) && Walk(g, src, path) == Walk(f, src, path)
      && ((forall op :: op in ops ==> Fits(g, op)) && Run(g, ops).Some? ==>
            && ((forall op :: op in ops ==> op.root == src) ==>
              Walk(Run(g, ops).value, dst, path) == Walk(f, src, path))
            && ((forall op :: op in ops ==> op.root == dst) ==>
              Walk(Run(g, ops).value, src, path) == Walk(f, src, path)))
  {
    CloneSlotsKeep(f, src, dst, f.width);
    CloneSlotsTranslate(f, src, dst, f.width, src, path);
    CloneSlotsTranslate(f, src, dst, f.width, dst, path);
    var g := CloneSlots(f, src, dst, f.width).value;
    assert SlotValid(f, src, path[0]);
    assert !Shared(g, src, dst, path[0]) && !Shared(g, dst, src, path[0]);
    if (forall op :: op in ops ==> Fits(g, op)) && Run(g, ops).Some? {
      if forall op :: op in ops ==> op.root == src { PrivateSlotStays(g, ops, dst, path); }
      if forall op :: op in ops ==> op.root == dst { PrivateSlotStays(g, ops, src, path); }
    }
  }
}
