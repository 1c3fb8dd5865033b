/** The two-level manager, with the processor it runs on: once paging is on, every access it makes
    to a table is itself translated by the directory in use (kernel/i386/vmm.c; Intel SDM
    volume 3A, section 4.3). */
module VmmI386 {
  import opened Wrappers
  import opened Bits
  import opened Forest
  import opened Supply
  import opened TablesI386
  import Pmm

  // ---------- the processor ----------

  /** The translation of an address by the processor; None is a page fault. */
  function Mmu(mem: seq<U32>, cr3: nat, virt: U32): Option<nat> {
    var pde := Word(mem, cr3, virt / 0x40_0000);
    if And(pde, PRESENT) == 0 then None
    else
      var pte := Word(mem, And(pde, ADDRESS), And(virt / 0x1000, 0x3FF));
      if And(pte, PRESENT) == 0 then None else Some(And(pte, ADDRESS) + virt % 0x1000)
  }

  lemma MmuIsWalk(h: Heap, mem: seq<U32>, free: set<nat>, c: nat, virt: U32)
    requires Describes(h, mem, free) && IsRoot(h, c)
    ensures Mmu(mem, 4096 * c, virt) ==
      match Walk(h, c, PathOf(virt)) case None => None case Some(hit) => Some(And(hit.word, ADDRESS) + virt % 0x1000)
  {
    hide And;
    var path := PathOf(virt);
    EntryLeadsOn(h, mem, free, c, path[0]);
    assert path[1..] == [path[1]];
    if SlotAt(h, c, path[0]).Next? {
      var q := SlotAt(h, c, path[0]).page;
      assert Agrees(h, mem, q, path[1]) && SlotValid(h, q, path[1]);
      assert Walk(h, q, path[1..]) ==
        if SlotAt(h, q, path[1]).Leaf? then Some(Hit(SlotAt(h, q, path[1]).word, 0)) else None;
    }
  }

  /** Page p of the window is mapped to itself through root c. */
  ghost predicate AtItself(h: Heap, c: nat, p: nat) {
    p < Pmm.MAX_PAGES &&
    match Walk(h, c, PathOf(4096 * p))
    case None => false
    case Some(hit) => And(hit.word, ADDRESS) == 4096 * p
  }

  ghost predicate InWindow(h: Heap) {
    forall p :: p in Pages(h) ==> p < Pmm.MAX_PAGES
  }

  /** Every page that is a table or may become one is reached at its own physical address. */
  ghost predicate Reachable(h: Heap, c: nat) {
    forall p :: p in Pages(h) ==> AtItself(h, c, p)
  }

  /** A directory the code can run on. */
  ghost predicate InUse(h: Heap, cr3: U32) {
    RootAddress(h, cr3) && Reachable(h, cr3 / 4096)
  }

  lemma SamePage(p: nat, i: nat)
    requires p < Pmm.MAX_PAGES && i < 1024
    ensures PathOf(4096 * p + 4 * i) == PathOf(4096 * p) && (4096 * p + 4 * i) % 0x1000 == 4 * i
  {
    hide PathOf;
    PathIsPageNumber(4096 * p + 4 * i, 4096 * p);
  }

  /** The processor then translates the address of each word of such a page to itself. */
  lemma NoFault(h: Heap, mem: seq<U32>, free: set<nat>, cr3: U32, p: nat, i: nat)
    requires Describes(h, mem, free) && InUse(h, cr3) && p in Pages(h) && p < Pmm.MAX_PAGES && i < 1024
    ensures Mmu(mem, cr3, 4096 * p + 4 * i) == Some(4096 * p + 4 * i)
  {
    hide Describes, Mmu, And, PathOf;
    MmuIsWalk(h, mem, free, cr3 / 4096, 4096 * p + 4 * i);
    SamePage(p, i);
    assert AtItself(h, cr3 / 4096, p);
  }

  /** Memory changed in page q only. */
  ghost predicate Beside(before: seq<U32>, after: seq<U32>, q: nat) {
    && |before| == |after| == 0x40_0000
    && forall k :: 0 <= k < |after| && !(1024 * q <= k < 1024 * q + 1024) ==> after[k] == before[k]
  }

  /** What a free page holds does not matter. */
  lemma FreeWordsDiffer(h: Heap, before: seq<U32>, after: seq<U32>, free: set<nat>, q: nat)
    requires Describes(h, before, free) && q in free && Beside(before, after, q)
    ensures Describes(h, after, free)
  {
    hide Decode, SlotValid, HeapValid, And;
    FreeIsNoTable(h, before, free, q);
    forall x, i | x in h.tables && 0 <= i < 1024
      ensures Agrees(h, after, x, i)
    {
      assert Agrees(h, before, x, i);
      assert after[1024 * x + i] == before[1024 * x + i];
    }
  }

  lemma FreeIsNoTable(h: Heap, mem: seq<U32>, free: set<nat>, q: nat)
    requires Describes(h, mem, free) && q in free
    ensures q !in h.tables && q in Pages(h)
  {
  }

  /** A new table that nothing leads to yet may be forgotten again. */
  lemma WithoutTable(h: Heap, mem: seq<U32>, free: set<nat>, q: nat, table: Table)
    requires HeapValid(h) && h.levels == 2 && h.width == 1024 && h.free == free + {q} && q !in free
    requires Describes(NewTable(h, q, table), mem, free)
    ensures Describes(h, mem, free + {q})
  {
    hide Decode, SlotValid, HeapValid, And;
    FreePage(h, q);
    var g := NewTable(h, q, table);
    forall x | x in h.tables
      ensures x < Pmm.MAX_PAGES
    {
      assert x in g.tables;
    }
    forall x, i | x in h.tables && 0 <= i < 1024
      ensures Agrees(h, mem, x, i)
    {
      assert Agrees(g, mem, x, i);
    }
  }

  lemma FreePage(h: Heap, q: nat)
    requires HeapValid(h) && q in h.free
    ensures q !in h.tables
  {
  }

  // ---------- which changes keep the tables in reach ----------

  /** The change does not concern a page the code needs, seen through c, or maps it to itself. */
  ghost predicate Harmless(h: Heap, c: nat, root: nat, virt: U32, target: Option<U32>) {
    var p := virt / 4096;
    p in Pages(h) && (c == root || Shared(h, c, root, PathOf(virt)[0])) ==>
      target.Some? && And(target.value, ADDRESS) == 4096 * p
  }

  lemma PageOfPath(virt: U32, p: nat)
    requires p < Pmm.MAX_PAGES
    ensures PathOf(4096 * p) == PathOf(virt) <==> p == virt / 4096
  {
    PathIsPageNumber(4096 * p, virt);
  }

  /** A map leaves every needed page in reach exactly when it is harmless. */
  lemma ReachableAfterMap(h: Heap, c: nat, root: nat, virt: U32, phys: U32, flags: U32)
    requires HeapValid(h) && h.levels == 2 && h.width == 1024 && IsRoot(h, c) && IsRoot(h, root)
    requires Reachable(h, c) && NoLarge(h, root, PathOf(virt)) && And(flags, ADDRESS) == 0
    requires Map(h, root, PathOf(virt), PageEntry(phys, flags)).Some?
    ensures var g := Map(h, root, PathOf(virt), PageEntry(phys, flags)).value;
      Pages(g) == Pages(h) && (Reachable(g, c) <==> Harmless(h, c, root, virt, Some(phys)))
  {
    hide HeapValid, Walk, Map, NoLarge, And, PageEntry, PathOf;
    var path, entry := PathOf(virt), PageEntry(phys, flags);
    var g := Map(h, root, path, entry).value;
    MapNeeds(h, root, path, entry);
    PageEntryDecodes(phys, flags);
    forall p | p in Pages(h)
      ensures AtItself(g, c, p) <==>
        (p == virt / 4096 && (c == root || Shared(h, c, root, path[0])) ==> And(phys, ADDRESS) == 4096 * p)
    {
      assert AtItself(h, c, p);
      PageOfPath(virt, p);
      MapTranslates(h, root, path, entry, c, PathOf(4096 * p));
    }
  }

  lemma ReachableAfterUnmap(h: Heap, c: nat, root: nat, virt: U32)
    requires HeapValid(h) && h.levels == 2 && h.width == 1024 && IsRoot(h, c) && IsRoot(h, root)
    requires Reachable(h, c) && NoLarge(h, root, PathOf(virt))
    ensures var g := Unmap(h, root, PathOf(virt));
      Pages(g) == Pages(h) && (Reachable(g, c) <==> Harmless(h, c, root, virt, None))
  {
    hide HeapValid, Walk, Unmap, NoLarge, And, PathOf;
    var path := PathOf(virt);
    var g := Unmap(h, root, path);
    UnmapNeeds(h, root, path);
    forall p | p in Pages(h)
      ensures AtItself(g, c, p) <==> !(p == virt / 4096 && (c == root || Shared(h, c, root, path[0])))
    {
      assert AtItself(h, c, p);
      PageOfPath(virt, p);
      UnmapTranslates(h, root, path, c, PathOf(4096 * p));
    }
  }

  /** Roots that hold the same entries reach the same pages. */
  lemma SameWalksReach(h: Heap, x: nat, g: Heap, y: nat)
    requires Reachable(h, x) && Pages(g) == Pages(h)
    requires forall p :: p in Pages(h) && p < Pmm.MAX_PAGES ==>
      Walk(g, y, PathOf(4096 * p)) == Walk(h, x, PathOf(4096 * p))
    ensures Reachable(g, y)
  {
    hide Walk, PathOf, And;
    forall p | p in Pages(g)
      ensures AtItself(g, y, p)
    {
      assert AtItself(h, x, p);
    }
  }

  lemma ReachableAfterNewTable(h: Heap, c: nat, q: nat, table: Table)
    requires HeapValid(h) && c in h.tables && q in h.free && Reachable(h, c)
    ensures Reachable(NewTable(h, q, table), c)
  {
    hide HeapValid, Walk, And, PathOf;
    var g := NewTable(h, q, table);
    forall p | p in Pages(h) && p < Pmm.MAX_PAGES
      ensures Walk(g, c, PathOf(4096 * p)) == Walk(h, c, PathOf(4096 * p))
    {
      WalkAfterNewTable(h, q, table, c, PathOf(4096 * p));
    }
    SameWalksReach(h, c, g, c);
  }

  lemma ReachableAfterAddChild(h: Heap, c: nat, page: nat, i: nat, q: nat)
    requires HeapValid(h) && c in h.tables && page in h.tables && i < h.width && q in h.free && Reachable(h, c)
    requires SlotAt(h, page, i) == Absent && page != q && i < |h.tables[page].slots|
    ensures Reachable(AddChild(h, page, i, q), c)
  {
    hide HeapValid, Walk, And, PathOf;
    var g := AddChild(h, page, i, q);
    forall p | p in Pages(h) && p < Pmm.MAX_PAGES
      ensures Walk(g, c, PathOf(4096 * p)) == Walk(h, c, PathOf(4096 * p))
    {
      WalkAfterAddChild(h, page, i, q, c, PathOf(4096 * p));
    }
    SameWalksReach(h, c, g, c);
  }

  lemma ReachableAfterCopy(h: Heap, c: nat, origin: nat, root: nat)
    requires HeapValid(h) && IsRoot(h, c) && IsRoot(h, origin) && IsRoot(h, root)
    requires Reachable(h, if c == root then origin else c)
    ensures Reachable(CopyRoot(h, origin, root), c)
  {
    hide HeapValid, Walk, And, PathOf;
    var g, x := CopyRoot(h, origin, root), if c == root then origin else c;
    forall p | p in Pages(h) && p < Pmm.MAX_PAGES
      ensures Walk(g, c, PathOf(4096 * p)) == Walk(h, x, PathOf(4096 * p))
    {
      WalkAfterCopyRoot(h, origin, root, c, PathOf(4096 * p));
    }
    SameWalksReach(h, x, g, c);
  }

  /** The entry of src that a turn of the clone takes over reaches every needed page under it. */
  ghost predicate TurnKeeps(h: Heap, src: nat, i: nat) {
    forall p :: p in Pages(h) && p / 1024 == i && SlotAt(h, src, i).Next? ==> AtItself(h, src, p)
  }

  /** So do the first n entries of src. */
  ghost predicate TakesOver(h: Heap, src: nat, n: nat) {
    forall p :: p in Pages(h) && p / 1024 < n && SlotAt(h, src, p / 1024).Next? ==> AtItself(h, src, p)
  }

  lemma EntryOfPage(p: nat)
    requires p < Pmm.MAX_PAGES
    ensures PathOf(4096 * p)[0] == p / 1024
  {
  }

  /** A turn of the clone leaves every needed page in reach through another directory, and through
      the destination exactly when the entry taken over reaches those under it. */
  lemma ReachableAfterCloneSlot(h: Heap, src: nat, dst: nat, i: nat, c: nat)
    requires CloneReady(h, src, dst) && i < h.width && h.width == 1024
    requires CloneSlot(h, src, dst, i).Some? && IsRoot(h, c) && Reachable(h, c)
    ensures Reachable(CloneSlot(h, src, dst, i).value, c) <==> (c == dst ==> TurnKeeps(h, src, i))
  {
    hide Walk, And, PathOf, HeapValid, CloneSlot;
    CloneSlotNeeds(h, src, dst, i);
    var g := CloneSlot(h, src, dst, i).value;
    forall p | p in Pages(h)
      ensures AtItself(g, c, p) <==> (c == dst && p / 1024 == i && SlotAt(h, src, i).Next? ==> AtItself(h, src, p))
    {
      assert AtItself(h, c, p);
      EntryOfPage(p);
      CloneSlotWalks(h, src, dst, i, c, PathOf(4096 * p));
    }
  }

  /** The same of the whole clone. */
  lemma ReachableAfterClone(h: Heap, src: nat, dst: nat, n: nat, c: nat)
    requires CloneReady(h, src, dst) && n <= h.width && h.width == 1024
    requires CloneSlots(h, src, dst, n).Some? && IsRoot(h, c) && Reachable(h, c)
    ensures Reachable(CloneSlots(h, src, dst, n).value, c) <==> (c == dst ==> TakesOver(h, src, n))
  {
    hide Walk, And, PathOf, HeapValid, CloneSlots;
    CloneNeeds(h, src, dst, n);
    var g := CloneSlots(h, src, dst, n).value;
    forall p | p in Pages(h)
      ensures AtItself(g, c, p) <==>
        (c == dst && p / 1024 < n && SlotAt(h, src, p / 1024).Next? ==> AtItself(h, src, p))
    {
      assert AtItself(h, c, p);
      EntryOfPage(p);
      CloneSlotsTranslate(h, src, dst, n, c, PathOf(4096 * p));
    }
  }

  /** Earlier turns change nothing for later ones. */
  lemma TurnStillKeeps(h: Heap, src: nat, dst: nat, i: nat)
    requires CloneReady(h, src, dst) && i < h.width && h.width == 1024 && CloneSlots(h, src, dst, i).Some?
    ensures TakesOver(h, src, 1024) ==> TurnKeeps(CloneSlots(h, src, dst, i).value, src, i)
  {
    hide Walk, And, PathOf, HeapValid, CloneSlots;
    CloneNeeds(h, src, dst, i);
    CloneSlotsKeep(h, src, dst, i);
    var g := CloneSlots(h, src, dst, i).value;
    forall p | TakesOver(h, src, 1024) && p in Pages(g) && p / 1024 == i && SlotAt(g, src, i).Next?
      ensures AtItself(g, src, p)
    {
      assert AtItself(h, src, p);
      EntryOfPage(p);
      CloneSlotsTranslate(h, src, dst, i, src, PathOf(4096 * p));
    }
  }

  // ---------- the manager ----------

  class Manager {
    const mem: array<U32>
    const pmm: Pmm.Allocator
    var kernelPd: U32
    /** CR3 and the paging bit of CR0. */
    var currentPd: U32
    var paging: bool
    ghost var heap: Heap

    /** The words of memory stand for the heap. */
    ghost predicate Described()
      reads this, mem, pmm.bitmap
    {
      && pmm.Valid() && mem as object != pmm.bitmap as object
      && Describes(heap, mem[..], pmm.Free())
    }

    /** And, once paging is on, every table the code may touch is in reach. */
    ghost predicate Valid()
      reads this, mem, pmm.bitmap
    {
      Described() && (paging ==> InUse(heap, currentPd))
    }

    /** Before init_paging: no table anywhere, and paging off. */
    constructor (mem: array<U32>, pmm: Pmm.Allocator)
      requires pmm.Valid() && mem as object != pmm.bitmap as object && mem.Length == 0x40_0000 && 0 !in pmm.Free()
      ensures Valid() && this.mem == mem && this.pmm == pmm && heap == Heap(2, 1024, map[], pmm.Free()) && !paging
    {
      this.mem, this.pmm, this.kernelPd, this.currentPd, this.paging := mem, pmm, 0, 0, false;
      this.heap := Heap(2, 1024, map[], pmm.Free());
    }

    // ---------- memory accesses ----------

    /** The word of physical memory an access to an address reaches; it must not fault. */
    function Cell(address: U32): nat
      requires mem.Length == 0x40_0000 && (paging ==> Mmu(mem[..], currentPd, address).Some?)
      reads this, mem
    {
      (if paging then Mmu(mem[..], currentPd, address).value else address) / 4
    }

    /** With the tables in reach an access to one is an access to its physical page. */
    lemma Straight(f: Heap, free: set<nat>, p: nat, i: nat)
      requires Describes(f, mem[..], free) && (paging ==> InUse(f, currentPd))
      requires p in Pages(f) && p < Pmm.MAX_PAGES && i < 1024
      ensures mem.Length == 0x40_0000 && (paging ==> Mmu(mem[..], currentPd, 4096 * p + 4 * i).Some?)
      ensures Cell(4096 * p + 4 * i) == 1024 * p + i
    {
      hide Mmu, InUse, Describes;
      SizeOfMemory(f, free);
      if paging { NoFault(f, mem[..], free, currentPd, p, i); }
    }

    lemma SizeOfMemory(f: Heap, free: set<nat>)
      requires Describes(f, mem[..], free)
      ensures mem.Length == 0x40_0000
    {
    }

    /** The same while a free page is being filled. */
    lemma StraightBeside(f: Heap, before: seq<U32>, free: set<nat>, q: nat, p: nat, i: nat)
      requires Describes(f, before, free) && q in free && mem.Length == 0x40_0000 && Beside(before, mem[..], q)
      requires (paging ==> InUse(f, currentPd)) && p in Pages(f) && p < Pmm.MAX_PAGES && i < 1024
      ensures paging ==> Mmu(mem[..], currentPd, 4096 * p + 4 * i).Some?
      ensures Cell(4096 * p + 4 * i) == 1024 * p + i
    {
      hide Mmu, InUse, Describes, Beside;
      FreeWordsDiffer(f, before, mem[..], free, q);
      Straight(f, free, p, i);
    }

    method ClearPage(page: U32, ghost q: nat, ghost f: Heap, ghost free: set<nat>)
      requires page == 4096 * q && q < Pmm.MAX_PAGES && mem.Length == 0x40_0000
      requires Describes(f, mem[..], free) && q in free && (paging ==> InUse(f, currentPd))
      modifies mem
      ensures PageSet(old(mem[..]), mem[..], q, Zeros())
    {
      hide Describes, InUse, Mmu, Cell;
      ghost var before := mem[..];
      FreeIsNoTable(f, before, free, q);
      var i := 0;
      while i < 1024
        invariant 0 <= i <= 1024
        invariant forall k :: 0 <= k < mem.Length ==>
          mem[k] == if 1024 * q <= k < 1024 * q + i then 0 else before[k]
      {
        StraightBeside(f, before, free, q, q, i);
        mem[Cell(page + 4 * i)] := 0;
        i := i + 1;
      }
    }

    /** Writes one entry whose slot is known to fit the heap. */
    method WriteEntry(table: U32, index: nat, entry: U32, ghost t: nat)
      requires Valid() && table == 4096 * t && t in heap.tables && index < 1024
      requires And(entry, PRESENT) == 0 ==> entry == 0
      requires Decode(Depth(heap, t), entry).Next? ==> And(entry, 7) == 7
      requires HeapValid(SetSlot(heap, t, index, Decode(Depth(heap, t), entry)))
      modifies this`heap, mem
      ensures Described() && heap == SetSlot(old(heap), t, index, Decode(Depth(old(heap), t), entry))
    {
      hide Decode, HeapValid, And, Mmu, Cell, InUse;
      ghost var before := mem[..];
      TableInWindow(t);
      Straight(heap, pmm.Free(), t, index);
      DescribesSetSlot(heap, before, pmm.Free(), t, index, entry);
      mem[Cell(table + 4 * index)] := entry;
      assert mem[..] == before[1024 * t + index := entry];
      heap := SetSlot(heap, t, index, Decode(Depth(heap, t), entry));
    }

    /** Takes a page from the allocator, clears it, and gives it the tag of its future place. */
    method FreshTable(ghost tag: Tag) returns (page: Option<U32>)
      requires Valid() && |Position(tag)| < 2 && (tag.Below? ==> tag.prefix != [])
      modifies this`heap, mem, pmm.bitmap
      ensures old(heap.free) == {} ==> page == None
      ensures old(heap.free) != {} ==>
        var q := Pmm.Lowest(old(heap.free));
        && Valid() && q < Pmm.MAX_PAGES && page == Some(4096 * q)
        && heap == NewTable(old(heap), q, Table(tag, EmptySlots(1024)))
    {
      hide HeapValid, And, Mmu, InUse, Reachable;
      ghost var f, before, free := heap, mem[..], pmm.Free();
      page := pmm.Alloc();
      if page == None {
        return;
      }
      ghost var q, table := Pmm.Lowest(free), Table(tag, EmptySlots(1024));
      ZerosAreEmpty(|Position(tag)|);
      NewTableValid(f, q, table);
      ClearPage(page.value, q, f, free);
      DescribesPage(f, before, free, q, table, Zeros(), mem[..], free - {q}, NewTable(f, q, table));
      heap := NewTable(f, q, table);
      if paging { StillInUse(f, currentPd, q, table); }
    }

    /** The table of an address; with create, an absent directory entry first gets a cleared page.
        None is a panic, Some(0) is NULL; ghost t is the table's page. */
    method GetPageTable(pd: U32, virt: U32, create: bool, ghost p: nat) returns (table: Option<U32>, ghost t: nat)
      requires Valid() && pd == 4096 * p && IsRoot(heap, p)
      modifies this`heap, mem, pmm.bitmap
      ensures table.Some? ==> Valid() && table.value == 4096 * t
      ensures Descend(old(heap), p, PathOf(virt), create) == if table == None then None else Some((heap, t))
      ensures !create ==> mem[..] == old(mem[..]) && pmm.Free() == old(pmm.Free())
    {
      hide HeapValid, And, Mmu, Cell, InUse, Reachable, AddChild, Descend, SlotValid, NoLarge;
      ghost var f, path := heap, PathOf(virt);
      var index := virt / 0x40_0000;
      EntryLeadsOn(heap, mem[..], pmm.Free(), p, index);
      NoLargeHere(heap, p, path);
      StepDown(heap, p, path, create);
      Straight(heap, pmm.Free(), p, index);
      assert index == path[0];
      t := 0;
      if And(mem[Cell(pd + 4 * index)], PRESENT) == 0 {
        if !create {
          return Some(0), 0;
        }
        var ok := FillEntry(pd, index, p);
        if !ok {
          return None, 0;
        }
        ExtendLeadsOn(f, p, index);
        EntryLeadsOn(heap, mem[..], pmm.Free(), p, index);
        Straight(heap, pmm.Free(), p, index);
      }
      t := SlotAt(heap, p, index).page;
      DescentEnds(heap, t, path[1..], create);
      return Some(And(mem[Cell(pd + 4 * index)], ADDRESS)), t;
    }

    /** Gives an absent directory entry a cleared page, unless there is none left. */
    method FillEntry(pd: U32, index: nat, ghost p: nat) returns (ok: bool)
      requires Valid() && pd == 4096 * p && IsRoot(heap, p) && index < 1024 && SlotAt(heap, p, index) == Absent
      modifies this`heap, mem, pmm.bitmap
      ensures ok ==> Valid()
      ensures match Extend(old(heap), p, index)
        case None => !ok
        case Some((g, q)) => ok && heap == g
      ensures ok ==> IsRoot(heap, p)
    {
      hide And, Or, Decode, TableEntry, HeapValid, Describes, InUse, Reachable, Mmu;
      ghost var f := heap;
      ghost var q := if f.free == {} then 0 else Pmm.Lowest(f.free);
      HeapShape();
      var page := FreshTable(ChildTag(Root, index, q));
      if page == None {
        return false;
      }
      AddChildValid(f, p, index, q);
      TableEntryDecodes(q);
      WriteEntry(pd, index, TableEntry(page.value), p);
      if paging { ChildInUse(f, currentPd, p, index, q); }
      return true;
    }

    lemma HeapShape()
      requires Described()
      ensures heap.levels == 2 && heap.width == 1024 && HeapValid(heap) && heap.free == pmm.Free()
    {
    }

    /** vmm_map_page; false is a panic, and comes exactly when a table is missing and no page free.
        Afterwards the code can go on exactly when the call was harmless to its own tables. */
    method MapPage(pd: U32, virt: U32, phys: U32, flags: U32) returns (ok: bool)
      requires Valid() && RootAddress(heap, pd) && And(flags, ADDRESS) == 0
      modifies this`heap, mem, pmm.bitmap
      ensures ok <==> |old(heap.free)| >= Missing(old(heap), pd / 4096, PathOf(virt))
      ensures match Map(old(heap), pd / 4096, PathOf(virt), PageEntry(phys, flags))
        case None => !ok
        case Some(g) => ok && heap == g
      ensures ok ==> Described()
      ensures ok ==> var e := EntryAt(mem[..], pd, virt);
        And(e, ADDRESS) == And(phys, ADDRESS) && And(e, FLAGS) == Or(And(flags, FLAGS), PRESENT)
      ensures ok ==> Rights(mem[..], pd, virt) == Or(And(flags, 7), 1)
      ensures ok ==> (Valid() <==> (paging ==> Harmless(old(heap), currentPd / 4096, pd / 4096, virt, Some(phys))))
    {
      hide And, Or, Decode, Descend, Map, HeapValid, Describes, Reachable, Harmless, PageEntry, NoLarge, Missing, Mmu,
           Cell, PathOf, EntryAt, Rights;
      ghost var f, p, path := heap, pd / 4096, PathOf(virt);
      HeapShape();
      DirectoryPath(f, mem[..], pmm.Free(), p, virt);
      MapEffects(f, p, virt, phys, flags);
      if paging { MapReaches(f, currentPd / 4096, p, virt, phys, flags); }
      var table, t := GetPageTable(pd, virt, true, p);
      if table == None {
        return false;
      }
      WriteEntry(table.value, And(virt / 0x1000, 0x3FF), PageEntry(phys, flags), t);
      MappedInMemory(f, p, virt, phys, flags, heap, mem[..], pmm.Free());
      return true;
    }

    method UnmapPage(pd: U32, virt: U32)
      requires Valid() && RootAddress(heap, pd)
      modifies this`heap, mem, pmm.bitmap
      ensures Described() && heap == Unmap(old(heap), pd / 4096, PathOf(virt))
      ensures Valid() <==> (paging ==> Harmless(old(heap), currentPd / 4096, pd / 4096, virt, None))
    {
      hide And, Or, Decode, Descend, Unmap, HeapValid, Describes, Reachable, Harmless, NoLarge, Mmu, Cell;
      ghost var f, p, path := heap, pd / 4096, PathOf(virt);
      HeapShape();
      DirectoryPath(f, mem[..], pmm.Free(), p, virt);
      UnmapParts(f, p, path);
      ZeroIsAbsent();
      UnmapSpec(f, p, path);
      if paging { ReachableAfterUnmap(f, currentPd / 4096, p, virt); }
      var table, t := GetPageTable(pd, virt, false, p);
      if table == None || table.value == 0 {
        return;
      }
      WriteEntry(table.value, And(virt / 0x1000, 0x3FF), 0, t);
    }

    /** vmm_get_phys_addr as the running kernel computes it. */
    method GetPhysAddr(pd: U32, virt: U32) returns (phys: U32)
      requires Valid() && RootAddress(heap, pd)
      modifies this`heap, mem, pmm.bitmap
      ensures Valid() && heap == old(heap) && mem[..] == old(mem[..])
      ensures phys == PhysAddr(mem[..], pd, virt)
    {
      hide And, Or, Decode, HeapValid, Describes, Reachable, NoLarge, Mmu, Cell, InUse;
      ghost var f, p, path := heap, pd / 4096, PathOf(virt);
      HeapShape();
      DirectoryPath(f, mem[..], pmm.Free(), p, virt);
      UnmapParts(f, p, path);
      LookupParts(f, mem[..], pmm.Free(), p, virt);
      var table, t := GetPageTable(pd, virt, false, p);
      if table.value == 0 {
        return 0;
      }
      var index := And(virt / 0x1000, 0x3FF);
      TableInWindow(t);
      Straight(heap, pmm.Free(), t, index);
      return And(mem[Cell(table.value + 4 * index)], ADDRESS);
    }

    lemma TableInWindow(t: nat)
      requires Described() && t in heap.tables
      ensures t < Pmm.MAX_PAGES && t in Pages(heap) && |heap.tables[t].slots| == 1024
    {
    }

    /** init_paging: a fresh directory that maps every page below 16 MB to itself with all rights,
        and nothing above; it panics exactly when fewer than five pages are free. From then on
        every access is translated. */
    method InitPaging() returns (ok: bool)
      requires Valid() && heap.tables == map[] && !paging
      modifies this, mem, pmm.bitmap
      ensures ok <==> |old(heap.free)| >= 5
      ensures ok ==> Valid() && paging && currentPd == kernelPd
      ensures ok ==> RootAddress(heap, kernelPd) && Identity(heap, kernelPd / 4096, 0x1000)
      ensures ok ==> forall v: U32 :: v < 0x100_0000 ==>
        EntryAt(mem[..], kernelPd, v) == v - v % 0x1000 + 7 && Rights(mem[..], kernelPd, v) == 7
      ensures ok ==> Pages(heap) == old(Pages(heap))
    {
      hide Started, PathOf, And, Or, Describes, Map, PageEntry, HeapValid, Reachable, NoLarge, Missing, IsRoot,
           Identity, Pages, InUse, InWindow, Mmu, Harmless, SetSlot, EntryAt, Rights;
      ghost var all := heap;
      HeapShape();
      var directory := FreshTable(Root);
      if directory == None {
        return false;
      }
      kernelPd := directory.value;
      ghost var r := kernelPd / 4096;
      StartEmpty(all, r);
      var address := 0;
      ghost var n := 0;
      AllRights();
      while address < 0x100_0000
        invariant address == 0x1000 * n && n <= 0x1000
        invariant Valid() && !paging && kernelPd == 4096 * r && Started(heap, r, n, all)
        decreases 0x1000 - n
      {
        HeapShape();
        StartNext(heap, mem[..], pmm.Free(), r, n, all);
        ok := MapPage(kernelPd, address, address, Or(Or(PRESENT, WRITE), USER));
        if !ok {
          return;
        }
        address, n := address + 0x1000, n + 1;
      }
      FreeInWindow();
      StartDone(heap, kernelPd, all);
      IdentityInMemory(heap, mem[..], pmm.Free(), kernelPd);
      currentPd := kernelPd;
      paging := true;
      return true;
    }

    lemma FreeInWindow()
      requires Described()
      ensures InWindow(heap)
    {
    }

    /** vmm_switch_to; the code can go on exactly when the new directory keeps its tables in reach. */
    method SwitchTo(pd: U32)
      requires Valid() && RootAddress(heap, pd)
      modifies this`currentPd
      ensures currentPd == pd && Described()
      ensures Valid() <==> (paging ==> Reachable(heap, pd / 4096))
    {
      currentPd := pd;
    }

    /** vmm_create_address_space: a cleared directory filled from the kernel's; None is a panic.
        The new directory reaches the tables whenever the kernel's does. */
    method CreateAddressSpace() returns (pd: Option<U32>)
      requires Valid() && RootAddress(heap, kernelPd)
      modifies this`heap, mem, pmm.bitmap
      ensures pd == None <==> old(heap.free) == {}
      ensures pd.Some? ==> Valid()
      ensures match CreateSpace(old(heap), kernelPd / 4096)
        case None => pd == None
        case Some((g, q)) => pd == Some(4096 * q) && heap == g
      ensures pd.Some? && Reachable(old(heap), kernelPd / 4096) ==> Reachable(heap, pd.value / 4096)
    {
      hide HeapValid, And, Mmu, Reachable, Describes, Cell, PageWords, Walk;
      ghost var f, k, free := heap, kernelPd / 4096, pmm.Free();
      HeapShape();
      pd := FreshTable(Root);
      if pd == None {
        return;
      }
      ghost var q, before := Pmm.Lowest(f.free), mem[..];
      ghost var added := heap;
      HeapShape();
      CreateFits(f, before, free, k, q);
      CopyDirectory(kernelPd, pd.value, k, q, f, free);
      DescribesCopyRoot(added, before, pmm.Free(), k, q, mem[..]);
      heap := CopyRoot(added, k, q);
      CreatedReaches(f, k, q, if paging then currentPd / 4096 else k);
    }

    method CopyDirectory(from: U32, to: U32, ghost p: nat, ghost q: nat, ghost f: Heap, ghost free: set<nat>)
      requires mem.Length == 0x40_0000 && from == 4096 * p && to == 4096 * q && p != q
      requires p < Pmm.MAX_PAGES && q < Pmm.MAX_PAGES
      requires Describes(f, mem[..], free) && p in f.tables && q in free && (paging ==> InUse(f, currentPd))
      modifies mem
      ensures PageSet(old(mem[..]), mem[..], q, PageWords(old(mem[..]), p))
    {
      hide Describes, InUse, Mmu, Cell, PageWords;
      ghost var before := mem[..];
      ghost var words := PageWords(before, p);
      WordsOfPage(before, p);
      FreeIsNoTable(f, before, free, q);
      var i := 0;
      while i < 1024
        invariant 0 <= i <= 1024
        invariant forall k :: 0 <= k < 1024 * q ==> mem[k] == before[k]
        invariant forall k :: 1024 * q <= k < 1024 * q + i ==> mem[k] == words[k - 1024 * q]
        invariant forall k :: 1024 * q + i <= k < mem.Length ==> mem[k] == before[k]
      {
        StraightBeside(f, before, free, q, q, i);
        StraightBeside(f, before, free, q, p, i);
        assert mem[1024 * p + i] == words[i];
        mem[Cell(to + 4 * i)] := mem[Cell(from + 4 * i)];
        i := i + 1;
      }
    }

    /** The inner loop of the clone rebuilds each present entry from its address and flags and
        clears the others; the copy is exact because an absent entry is zero. */
    method CloneEntries(from: U32, to: U32, ghost p: nat, ghost q: nat, ghost f: Heap, ghost free: set<nat>)
      requires mem.Length == 0x40_0000 && from == 4096 * p && to == 4096 * q && p != q
      requires p < Pmm.MAX_PAGES && q < Pmm.MAX_PAGES
      requires Describes(f, mem[..], free) && p in f.tables && q in free && (paging ==> InUse(f, currentPd))
      requires forall k :: 1024 * p <= k < 1024 * p + 1024 && And(mem[k], PRESENT) == 0 ==> mem[k] == 0
      modifies mem
      ensures PageSet(old(mem[..]), mem[..], q, PageWords(old(mem[..]), p))
    {
      hide Describes, InUse, Mmu, Cell, PageWords, And, Or;
      ghost var before := mem[..];
      ghost var words := PageWords(before, p);
      WordsOfPage(before, p);
      FreeIsNoTable(f, before, free, q);
      var j := 0;
      while j < 1024
        invariant 0 <= j <= 1024
        invariant forall k :: 0 <= k < 1024 * q ==> mem[k] == before[k]
        invariant forall k :: 1024 * q <= k < 1024 * q + j ==> mem[k] == words[k - 1024 * q]
        invariant forall k :: 1024 * q + j <= k < mem.Length ==> mem[k] == before[k]
      {
        ghost var word := words[j];
        StraightBeside(f, before, free, q, q, j);
        StraightBeside(f, before, free, q, p, j);
        assert mem[1024 * p + j] == word && (And(word, PRESENT) == 0 ==> word == 0);
        SplitEntry(word);
        if And(mem[Cell(from + 4 * j)], PRESENT) != 0 {
          var phys := And(mem[Cell(from + 4 * j)], ADDRESS);
          var flags := And(mem[Cell(from + 4 * j)], FLAGS);
          mem[Cell(to + 4 * j)] := Or(phys, flags);
        } else {
          mem[Cell(to + 4 * j)] := 0;
        }
        assert mem[1024 * q + j] == word;
        j := j + 1;
      }
    }

    /** One turn of the clone: a present directory entry gets a fresh table with the same words.
        Into the directory in use, the code can go on exactly when that table reaches its own. */
    method CloneTable(src: U32, dst: U32, i: nat, ghost s: nat, ghost d: nat) returns (ok: bool)
      requires Valid() && src == 4096 * s && dst == 4096 * d && CloneReady(heap, s, d) && i < 1024
      modifies this`heap, mem, pmm.bitmap
      ensures ok ==> Described()
      ensures ok ==> (Valid() <==> (paging && currentPd == dst ==> TurnKeeps(old(heap), s, i)))
      ensures match CloneSlot(old(heap), s, d, i)
        case None => !ok
        case Some(g) => ok && heap == g
    {
      hide And, Or, Decode, HeapValid, SlotValid, Mmu, Cell, Reachable, TurnKeeps;
      EntryLeadsOn(heap, mem[..], pmm.Free(), s, i);
      Straight(heap, pmm.Free(), s, i);
      if And(mem[Cell(src + 4 * i)], PRESENT) == 0 {
        AbsentKeeps(heap, s, i);
        return true;
      }
      var srcEntry := mem[Cell(src + 4 * i)];
      ghost var f, before, free := heap, mem[..], pmm.Free();
      ghost var t := SlotAt(f, s, i).page;
      var page := pmm.Alloc();
      if page == None {
        return false;
      }
      ghost var q := Pmm.Lowest(free);
      ghost var table := Table(Below([i], q), f.tables[t].slots);
      CloneTableFits(f, before, free, s, d, i, t, q);
      CloneEntryDecodes(q, srcEntry);
      FreePage(f, q);
      CloneEntries(And(srcEntry, ADDRESS), page.value, t, q, f, free);
      DescribesPage(f, before, free, q, table, PageWords(before, t), mem[..], free - {q}, NewTable(f, q, table));
      heap := NewTable(f, q, table);
      if paging { StillInUse(f, currentPd, q, table); }
      assert Depth(heap, d) == 0;
      WriteEntry(dst, i, CloneEntry(page.value, srcEntry), d);
      if paging { ClonedInUse(f, currentPd, s, d, i); }
      return true;
    }

    /** A client's own pmm_alloc: the frame is no longer among those the tables may grow into. */
    method TakeFrame() returns (frame: Option<U32>)
      requires Valid()
      modifies this`heap, pmm.bitmap
      ensures frame == None <==> old(heap.free) == {}
      ensures frame.Some? ==>
        var p := Pmm.Lowest(old(heap.free));
        && Valid() && frame == Some(4096 * p) && p < Pmm.MAX_PAGES
        && heap == old(heap).(free := old(heap).free - {p})
    {
      hide HeapValid, InUse;
      ghost var f := heap;
      HeapShape();
      frame := pmm.Alloc();
      if frame == None {
        return;
      }
      ghost var left := f.free - {Pmm.Lowest(f.free)};
      FreeDiffers(f, mem[..], f.free, left);
      FewerInUse(f, currentPd, left);
      heap := f.(free := left);
    }

    lemma ZeroIsNeverFree()
      requires Described()
      ensures 0 !in heap.free && heap.free !! heap.tables.Keys
    {
    }

    /** A client gives a frame back; once paging is on it must be in reach, since it may become a table. */
    method GiveFrame(frame: U32, ghost p: nat)
      requires Valid() && frame == 4096 * p && 0 < p < Pmm.MAX_PAGES && p !in heap.tables
      requires paging ==> AtItself(heap, currentPd / 4096, p)
      modifies this`heap, pmm.bitmap
      ensures Valid() && heap == old(heap).(free := old(heap).free + {p})
    {
      hide HeapValid, InUse, AtItself;
      ghost var f := heap;
      HeapShape();
      ZeroIsNeverFree();
      pmm.FreePage(frame);
      FreeDiffers(f, mem[..], f.free, f.free + {p});
      if paging { MoreInUse(f, currentPd, p); }
      heap := f.(free := f.free + {p});
    }

    /** vmm_clone_address_space: every table present in the source is copied for the destination;
        false is a panic, and comes exactly when fewer pages are free than the source has tables.
        Into the directory in use, the tables taken over must reach the code's own. */
    method CloneAddressSpace(src: U32, dst: U32) returns (ok: bool)
      requires Valid() && RootAddress(heap, src) && RootAddress(heap, dst)
      requires paging && currentPd == dst ==> TakesOver(heap, src / 4096, 1024)
      modifies this`heap, mem, pmm.bitmap
      ensures ok <==> |old(heap.free)| >= Present(old(heap), src / 4096, 1024)
      ensures ok ==> Valid()
      ensures match CloneSlots(old(heap), src / 4096, dst / 4096, 1024)
        case None => !ok
        case Some(g) => ok && heap == g
    {
      hide And, HeapValid, Mmu, Cell, Reachable, Describes, CloneSlots, CloneSlot, Present, TakesOver, TurnKeeps,
           IsRoot, Pages, SlotAt, InUse, AtItself;
      ghost var f, s, d := heap, src / 4096, dst / 4096;
      HeapShape();
      CloneStart(f, s, d);
      CloneNeeds(f, s, d, 1024);
      var i := 0;
      while i < 1024
        invariant 0 <= i <= 1024
        invariant Valid() && CloneReady(f, s, d) && CloneSlots(f, s, d, i) == Some(heap)
        invariant CloneReady(heap, s, d) && heap.width == 1024
      {
        TurnStillKeeps(f, s, d, i);
        CloneNext(f, s, d, i);
        ok := CloneTable(src, dst, i, s, d);
        if !ok {
          CloneSlotsStop(f, s, d, i + 1, 1024);
          return;
        }
        CloneStill(f, s, d, i + 1, heap);
        i := i + 1;
      }
      return true;
    }
  }

  lemma FreeDiffers(h: Heap, mem: seq<U32>, free: set<nat>, left: set<nat>)
    requires Describes(h, mem, free) && 0 !in left && left !! h.tables.Keys
    ensures Describes(h.(free := left), mem, left)
  {
    hide HeapValid, Decode, And;
    WithFree(h, left, 0, []);
    var g := h.(free := left);
    forall x, i | x in g.tables && 0 <= i < 1024
      ensures Agrees(g, mem, x, i)
    {
      assert Agrees(h, mem, x, i);
    }
  }

  lemma FewerInUse(h: Heap, cr3: U32, left: set<nat>)
    requires HeapValid(h) && left <= h.free
    ensures InUse(h, cr3) ==> InUse(h.(free := left), cr3)
    ensures 0 !in left && left !! h.tables.Keys
  {
    hide Walk, PathOf, And;
    var c, g := cr3 / 4096, h.(free := left);
    forall p | p in Pages(g) && Reachable(h, c)
      ensures AtItself(g, c, p)
    {
      assert AtItself(h, c, p);
      WithFree(h, left, c, PathOf(4096 * p));
    }
  }

  lemma MoreInUse(h: Heap, cr3: U32, page: nat)
    requires HeapValid(h) && InUse(h, cr3) && AtItself(h, cr3 / 4096, page)
    ensures InUse(h.(free := h.free + {page}), cr3)
  {
    hide Walk, PathOf, And;
    var c, g := cr3 / 4096, h.(free := h.free + {page});
    forall p | p in Pages(g)
      ensures AtItself(g, c, p)
    {
      assert p in Pages(h) || p == page;
      assert AtItself(h, c, p);
      WithFree(h, h.free + {page}, c, PathOf(4096 * p));
    }
  }

  /** Where init_paging stands after n pages: what is mapped, and what that took of all pages. */
  ghost predicate Started(h: Heap, r: nat, n: nat, all: Heap) {
    && IsRoot(h, r) && Identity(h, r, n) && Tabled(h, r, n)
    && |h.free| + 1 + (n + 1023) / 1024 == |all.free| && Pages(h) == Pages(all)
  }

  lemma StartEmpty(all: Heap, r: nat)
    requires HeapValid(all) && r in all.free
    ensures Started(NewTable(all, r, Table(Root, EmptySlots(1024))), r, 0, all)
  {
    IdentityStart(NewTable(all, r, Table(Root, EmptySlots(1024))), r);
  }

  lemma StartNext(h: Heap, mem: seq<U32>, free: set<nat>, r: nat, n: nat, all: Heap)
    requires Describes(h, mem, free) && Started(h, r, n, all) && n < 0x1000
    ensures IsRoot(h, r) && (|h.free| < Missing(h, r, PathOf(0x1000 * n)) ==> |all.free| < 5)
    ensures Map(h, r, PathOf(0x1000 * n), PageEntry(0x1000 * n, 7)).Some? ==>
      Started(Map(h, r, PathOf(0x1000 * n), PageEntry(0x1000 * n, 7)).value, r, n + 1, all)
  {
    hide Identity, Tabled, PathOf, PageEntry, Map, NoLarge, HeapValid, Missing, Pages, Describes, IsRoot;
    IdentityStep(h, mem, free, r, n);
    DirectoryPath(h, mem, free, r, 0x1000 * n);
    Shape(h, mem, free);
    MapNeeds(h, r, PathOf(0x1000 * n), PageEntry(0x1000 * n, 7));
    FourMegabytes(n);
  }

  lemma Shape(h: Heap, mem: seq<U32>, free: set<nat>)
    requires Describes(h, mem, free)
    ensures h.levels == 2 && h.width == 1024 && HeapValid(h)
  {
  }

  lemma FourMegabytes(n: nat)
    requires n < 0x1000
    ensures (n + 1 + 1023) / 1024 == (n + 1023) / 1024 + if n % 1024 == 0 then 1 else 0
    ensures n % 1024 == 0 ==> (n + 1023) / 1024 < 4
  {
  }

  lemma StartDone(h: Heap, cr3: U32, all: Heap)
    requires cr3 % 4096 == 0 && Started(h, cr3 / 4096, 0x1000, all) && InWindow(h)
    ensures |all.free| >= 5 && Pages(h) == Pages(all)
    ensures RootAddress(h, cr3) && Identity(h, cr3 / 4096, 0x1000) && InUse(h, cr3)
  {
    IdentityReaches(h, cr3 / 4096);
  }

  lemma ZerosAreEmpty(depth: nat)
    ensures SlotsOf(Zeros(), depth, EmptySlots(1024))
  {
  }

  lemma ZeroIsAbsent()
    ensures Decode(1, 0) == Absent && And(0, PRESENT) == 0
  {
  }

  lemma StillInUse(f: Heap, cr3: U32, q: nat, table: Table)
    requires HeapValid(f) && InUse(f, cr3) && q in f.free
    ensures InUse(NewTable(f, q, table), cr3)
  {
    hide HeapValid, Reachable;
    FreePage(f, q);
    ReachableAfterNewTable(f, cr3 / 4096, q, table);
  }

  lemma ChildInUse(f: Heap, cr3: U32, page: nat, i: nat, q: nat)
    requires HeapValid(f) && InUse(f, cr3) && q in f.free && page in f.tables && page != q
    requires i < f.width && i < |f.tables[page].slots| && SlotAt(f, page, i) == Absent
    ensures InUse(AddChild(f, page, i, q), cr3)
  {
    hide HeapValid, Reachable;
    FreePage(f, q);
    ReachableAfterAddChild(f, cr3 / 4096, page, i, q);
  }

  lemma ClonedInUse(f: Heap, cr3: U32, s: nat, d: nat, i: nat)
    requires CloneReady(f, s, d) && f.width == 1024 && i < 1024 && CloneSlot(f, s, d, i).Some?
    requires InUse(f, cr3)
    ensures InUse(CloneSlot(f, s, d, i).value, cr3) <==> (cr3 == 4096 * d ==> TurnKeeps(f, s, i))
  {
    hide HeapValid, Reachable, Walk, CloneSlot, TurnKeeps;
    ReachableAfterCloneSlot(f, s, d, i, cr3 / 4096);
    CloneSlotWalks(f, s, d, i, cr3 / 4096, [0, 0]);
  }

  lemma AbsentKeeps(f: Heap, s: nat, i: nat)
    ensures !SlotAt(f, s, i).Next? ==> TurnKeeps(f, s, i)
  {
  }

  lemma CloneStart(f: Heap, s: nat, d: nat)
    ensures CloneSlots(f, s, d, 0) == Some(f)
  {
  }

  lemma CloneStill(f: Heap, s: nat, d: nat, n: nat, g: Heap)
    requires CloneReady(f, s, d) && f.width == 1024 && n <= 1024 && CloneSlots(f, s, d, n) == Some(g)
    ensures CloneReady(g, s, d) && g.width == 1024
  {
    CloneSlotsKeep(f, s, d, n);
  }

  lemma CloneNext(f: Heap, s: nat, d: nat, i: nat)
    requires CloneSlots(f, s, d, i).Some? && CloneReady(CloneSlots(f, s, d, i).value, s, d)
    requires CloneSlots(f, s, d, i).value.width == 1024 && i < 1024
    ensures var g := CloneSlots(f, s, d, i).value;
      && d in g.tables && i < |g.tables[d].slots| && d !in g.free
      && CloneSlots(f, s, d, i + 1) == CloneSlot(g, s, d, i)
  {
  }

  /** A directory path meets no large page. */
  lemma DirectoryPath(h: Heap, mem: seq<U32>, free: set<nat>, p: nat, virt: U32)
    requires Describes(h, mem, free) && IsRoot(h, p)
    ensures NoLarge(h, p, PathOf(virt)) && PathFrom(h, p, PathOf(virt))
    ensures PathOf(virt)[1] == And(virt / 0x1000, 0x3FF)
  {
    EntryLeadsOn(h, mem, free, p, PathOf(virt)[0]);
    NoLargeHere(h, p, PathOf(virt));
  }

  /** A map as the method performs it: a descent, then one present entry in the table it ends at. */
  lemma MapEffects(f: Heap, p: nat, virt: U32, phys: U32, flags: U32)
    requires HeapValid(f) && f.levels == 2 && f.width == 1024 && IsRoot(f, p) && NoLarge(f, p, PathOf(virt))
    requires And(flags, ADDRESS) == 0
    ensures var path, entry := PathOf(virt), PageEntry(phys, flags);
      && entry < 0x1_0000_0000 && And(entry, PRESENT) != 0 && Decode(1, entry) == Leaf(entry)
      && (Map(f, p, path, entry) == None <==> |f.free| < Missing(f, p, path))
      && match Descend(f, p, path, true)
         case None => Map(f, p, path, entry) == None
         case Some((g, t)) =>
           && t in g.tables && Depth(g, t) == 1 && t != 0 && path[1] < |g.tables[t].slots|
           && Map(f, p, path, entry) == Some(SetSlot(g, t, path[1], Leaf(entry)))
           && HeapValid(SetSlot(g, t, path[1], Leaf(entry)))
  {
    hide HeapValid, NoLarge, Map, Descend, Missing, PageEntry, Decode, And;
    MapParts(f, p, PathOf(virt), PageEntry(phys, flags));
    MapNeeds(f, p, PathOf(virt), PageEntry(phys, flags));
    PageEntryDecodes(phys, flags);
  }

  /** What the words of memory then hold for the address: phys and every flag, and the rights they
      give. */
  lemma MappedInMemory(f: Heap, p: nat, virt: U32, phys: U32, flags: U32, g: Heap, mem: seq<U32>, free: set<nat>)
    requires HeapValid(f) && f.levels == 2 && f.width == 1024 && IsRoot(f, p) && NoLarge(f, p, PathOf(virt))
    requires And(flags, ADDRESS) == 0 && Map(f, p, PathOf(virt), PageEntry(phys, flags)) == Some(g)
    requires Describes(g, mem, free)
    ensures var e := EntryAt(mem, 4096 * p, virt);
      And(e, ADDRESS) == And(phys, ADDRESS) && And(e, FLAGS) == Or(And(flags, FLAGS), PRESENT)
    ensures Rights(mem, 4096 * p, virt) == Or(And(flags, 7), 1)
  {
    hide HeapValid, NoLarge, Map, PageEntry, And, Or, EntryAt, Rights, PathOf, Walk;
    var entry := PageEntry(phys, flags);
    MapSpec(f, p, PathOf(virt), entry);
    WholePath(f, p, virt);
    MapTranslates(f, p, PathOf(virt), entry, p, PathOf(virt));
    EntryAtIsWalk(g, mem, free, p, virt);
    RightsAreEntry(g, mem, free, p, virt);
    PageEntryDecodes(phys, flags);
    PageEntryFlags(phys, flags);
  }

  lemma WholePath(f: Heap, p: nat, virt: U32)
    requires f.levels == 2 && f.width == 1024 && IsRoot(f, p)
    ensures PathFrom(f, p, PathOf(virt)) && PathOf(virt) != []
  {
  }

  lemma MapReaches(f: Heap, c: nat, p: nat, virt: U32, phys: U32, flags: U32)
    requires HeapValid(f) && f.levels == 2 && f.width == 1024 && IsRoot(f, c) && IsRoot(f, p)
    requires Reachable(f, c) && NoLarge(f, p, PathOf(virt)) && And(flags, ADDRESS) == 0
    ensures Map(f, p, PathOf(virt), PageEntry(phys, flags)).Some? ==>
      var g := Map(f, p, PathOf(virt), PageEntry(phys, flags)).value;
      IsRoot(g, c) && (Reachable(g, c) <==> Harmless(f, c, p, virt, Some(phys)))
  {
    hide HeapValid, NoLarge, Map, PageEntry, Reachable, Harmless;
    if Map(f, p, PathOf(virt), PageEntry(phys, flags)).Some? {
      MapSpec(f, p, PathOf(virt), PageEntry(phys, flags));
      ReachableAfterMap(f, c, p, virt, phys, flags);
    }
  }

  /** The lookup over memory is a read in the table that a descent without create finds. */
  lemma LookupParts(h: Heap, mem: seq<U32>, free: set<nat>, p: nat, virt: U32)
    requires Describes(h, mem, free) && IsRoot(h, p)
    ensures match Descend(h, p, PathOf(virt), false)
      case None => false
      case Some((g, t)) =>
        if t == 0 then PhysAddr(mem, 4096 * p, virt) == 0
        else && t in h.tables && t < Pmm.MAX_PAGES && And(virt / 0x1000, 0x3FF) < 1024
             && PhysAddr(mem, 4096 * p, virt) == And(mem[1024 * t + And(virt / 0x1000, 0x3FF)], ADDRESS)
  {
    hide And, HeapValid;
    var path := PathOf(virt);
    EntryLeadsOn(h, mem, free, p, path[0]);
    assert And(0, ADDRESS) == 0 && And(virt / 0x1000, 0x3FF) == path[1];
    match SlotAt(h, p, path[0])
    case Next(q) => assert Find(h, q, path[1..]) == Some(q);
    case Absent => assert Find(h, p, path) == None;
    case Leaf(_) =>
  }

  lemma IdentityReaches(h: Heap, r: nat)
    requires Identity(h, r, 0x1000) && InWindow(h)
    ensures Reachable(h, r)
  {
    hide And, PathOf, Walk, Identity;
    forall p | p in Pages(h)
      ensures AtItself(h, r, p)
    {
      IdentityOfPage(h, r, p);
      SplitParts(p, 7);
    }
  }

  lemma IdentityOfPage(h: Heap, r: nat, p: nat)
    requires Identity(h, r, 0x1000) && p < Pmm.MAX_PAGES
    ensures Walk(h, r, PathOf(4096 * p)) == Some(Hit(4096 * p + 7, 0))
  {
    hide PathOf, Walk;
    var v: U32 := 4096 * p;
    assert v - v % 0x1000 == v;
  }

  lemma IdentityInMemory(h: Heap, mem: seq<U32>, free: set<nat>, cr3: U32)
    requires Describes(h, mem, free) && RootAddress(h, cr3) && Identity(h, cr3 / 4096, 0x1000)
    ensures forall v: U32 :: v < 0x100_0000 ==>
      EntryAt(mem, cr3, v) == v - v % 0x1000 + 7 && Rights(mem, cr3, v) == 7
  {
    hide HeapValid, And, EntryAt, Rights, PathOf, Walk;
    forall v: U32 | v < 0x100_0000
      ensures EntryAt(mem, cr3, v) == v - v % 0x1000 + 7 && Rights(mem, cr3, v) == 7
    {
      EntryAtIsWalk(h, mem, free, cr3 / 4096, v);
      RightsAreEntry(h, mem, free, cr3 / 4096, v);
      AndSeven(v - v % 0x1000 + 7);
      SevenLeft(v);
    }
  }

  lemma SevenLeft(v: nat)
    ensures (v - v % 0x1000 + 7) % 8 == 7
  {
  }

  /** Before the copy the new root's page may hold anything, for the old heap. */
  lemma CreateFits(f: Heap, mem: seq<U32>, free: set<nat>, k: nat, q: nat)
    requires HeapValid(f) && f.levels == 2 && f.width == 1024 && f.free == free && IsRoot(f, k)
    requires q in free && Describes(AddRoot(f, q), mem, free - {q})
    ensures Describes(f, mem, free) && k != q && k < Pmm.MAX_PAGES
    ensures IsRoot(AddRoot(f, q), k) && IsRoot(AddRoot(f, q), q) && EmptySlots(f.width) == EmptySlots(1024)
  {
    WithoutTable(f, mem, free - {q}, q, Table(Root, EmptySlots(1024)));
    assert free - {q} + {q} == free;
  }

  /** A created root reaches what its origin does, and older roots what they did. */
  lemma CreatedReaches(f: Heap, k: nat, q: nat, c: nat)
    requires HeapValid(f) && IsRoot(f, k) && IsRoot(f, c) && q in f.free
    ensures var g := CopyRoot(AddRoot(f, q), k, q);
      && IsRoot(g, c) && (Reachable(f, c) ==> Reachable(g, c)) && (Reachable(f, k) ==> Reachable(g, q))
  {
    hide HeapValid, Reachable;
    FreePage(f, q);
    AddRootSpec(f, q);
    var h := AddRoot(f, q);
    if Reachable(f, c) {
      ReachableAfterNewTable(f, c, q, Table(Root, EmptySlots(f.width)));
      ReachableAfterCopy(h, c, k, q);
    }
    if Reachable(f, k) {
      ReachableAfterNewTable(f, k, q, Table(Root, EmptySlots(f.width)));
      ReachableAfterCopy(h, q, k, q);
    }
  }

  lemma WordsOfPage(mem: seq<U32>, p: nat)
    requires |mem| == 0x40_0000 && p < Pmm.MAX_PAGES
    ensures forall i :: 0 <= i < 1024 ==> PageWords(mem, p)[i] == mem[1024 * p + i]
  {
  }
}
