/** What the four-level manager means for addresses: any run of its calls acts as
    writes to one flat table of pages per root. */
module TranslationX64 {
  import opened Wrappers
  import opened Bits
  import opened Forest
  import opened Supply
  import opened Calls
  import opened VmmX64
  import Pmm

  /** A change made through root at virt shows at v through x: the same page, and
      either the same root or a top-level entry that both roots hold. */
  ghost predicate Seen(h: Heap, x: nat, v: U64, root: nat, virt: U64) {
    PageNumber(v) == PageNumber(virt) && (x == root || Shared(h, x, root, PathOf(virt)[0]))
  }

  lemma SeenIsTargets(h: Heap, x: nat, v: U64, root: nat, virt: U64)
    ensures Seen(h, x, v, root, virt) <==> Targets(h, x, PathOf(v), root, PathOf(virt))
  {
    PathIsPageNumber(v, virt);
  }

  // ---------- calls and their flat meaning ----------

  function ToOp(call: Call<U64>): Op {
    match call
    case MapCall(root, virt, phys, flags) => MapOp(root, PathOf(virt), PageEntry(phys, flags))
    case UnmapCall(root, virt) => UnmapOp(root, PathOf(virt))
  }

  function ToOps(calls: seq<Call<U64>>): (ops: seq<Op>)
    ensures |ops| == |calls|
  {
    Each(ToOp, calls)
  }

  /** The caller names a root, keeps flags off the address bits, and stays away from large pages. */
  ghost predicate Proper(h: Heap, call: Call<U64>) {
    && IsRoot(h, call.root) && NoLarge(h, call.root, PathOf(call.virt))
    && (call.MapCall? ==> And(call.flags, ADDRESS) == 0)
  }

  /** The address the flat table gives: the last call seen at v decides, and before any
      call the initial memory does. */
  ghost function FlatAddress(h: Heap, mem: seq<U64>, calls: seq<Call<U64>>, x: nat, v: U64): nat {
    if calls == [] then PhysAddr(mem, 4096 * x, v)
    else
      var call := calls[|calls| - 1];
      if !Seen(h, x, v, call.root, call.virt) then FlatAddress(h, mem, calls[..|calls| - 1], x, v)
      else if call.MapCall? then 4096 * (call.phys / 4096 % 0x100_0000_0000) + v % 4096
      else 0
  }

  /** The entry the flat table holds, flags included. */
  ghost function FlatEntry(h: Heap, mem: seq<U64>, calls: seq<Call<U64>>, x: nat, v: U64): nat {
    if calls == [] then LeafAt(mem, 4096 * x, PathOf(v))
    else
      var call := calls[|calls| - 1];
      if !Seen(h, x, v, call.root, call.virt) then FlatEntry(h, mem, calls[..|calls| - 1], x, v)
      else if call.MapCall? then
        4096 * (call.phys / 4096 % 0x100_0000_0000) + (call.flags - call.flags % 2 + 1)
      else 0
  }

  /** The page of an entry joined with the offset in the page. */
  lemma PageOffset(phys: U64, v: U64)
    ensures Or(And(phys, ADDRESS), And(v, 0xFFF)) == 4096 * (phys / 4096 % 0x100_0000_0000) + v % 4096
  {
    hide And, Or;
    var n, r := phys / 4096 % 0x100_0000_0000, v % 4096;
    PageIs(phys);
    AndLow12(v);
    AndPage(r, n);
    NothingAbove(n);
    AndSymmetric(r, 4096 * n);
    OrDisjoint(4096 * n, r);
  }

  lemma NothingAbove(n: nat)
    ensures And(0, n) == 0
  {
  }

  lemma {:induction false} FlatIsLastWrite(h: Heap, mem: seq<U64>, free: set<nat>, calls: seq<Call<U64>>, x: nat,
                                           v: U64)
    requires Describes(h, mem, free) && IsRoot(h, x) && forall c :: c in calls ==> Proper(h, c)
    ensures FlatAddress(h, mem, calls, x, v) == Physical(LastWrite(h, ToOps(calls), x, PathOf(v)), v)
  {
    hide HeapValid, PhysAddr, PathOf, And, Or, Seen, Targets, PageEntry, Walk;
    if calls == [] {
      PhysAddrIsWalk(h, mem, free, x, v);
    } else {
      var before, call := calls[..|calls| - 1], calls[|calls| - 1];
      assert call in calls && forall c :: c in before ==> c in calls;
      FlatIsLastWrite(h, mem, free, before, x, v);
      EachPrefix(ToOp, calls, |calls| - 1);
      assert ToOps(calls)[|calls| - 1] == ToOp(call);
      SeenIsTargets(h, x, v, call.root, call.virt);
      if call.MapCall? {
        PageEntryDecodes(call.phys, call.flags);
        PageOffset(call.phys, v);
      }
    }
  }

  lemma {:induction false} FlatEntryIsLastWrite(h: Heap, mem: seq<U64>, free: set<nat>, calls: seq<Call<U64>>, x: nat,
                                                v: U64)
    requires Describes(h, mem, free) && IsRoot(h, x) && forall c :: c in calls ==> Proper(h, c)
    ensures FlatEntry(h, mem, calls, x, v) ==
      match LastWrite(h, ToOps(calls), x, PathOf(v)) case None => 0 case Some(Hit(e, _)) => e
  {
    hide HeapValid, LeafAt, PathOf, And, Or, Seen, Targets, PageEntry, Walk;
    if calls == [] {
      FourLevels(h, mem, free);
      WholePath(h, x, v);
      LeafIsWalk(h, mem, free, x, PathOf(v));
    } else {
      var before, call := calls[..|calls| - 1], calls[|calls| - 1];
      assert call in calls && forall c :: c in before ==> c in calls;
      FlatEntryIsLastWrite(h, mem, free, before, x, v);
      EachPrefix(ToOp, calls, |calls| - 1);
      assert ToOps(calls)[|calls| - 1] == ToOp(call);
      SeenIsTargets(h, x, v, call.root, call.virt);
      if call.MapCall? { PageEntryIs(call.phys, call.flags); }
    }
  }

  lemma ProperFits(h: Heap, mem: seq<U64>, free: set<nat>, calls: seq<Call<U64>>)
    requires Describes(h, mem, free) && forall c :: c in calls ==> Proper(h, c)
    ensures forall op :: op in ToOps(calls) ==> Fits(h, op)
  {
    var ops := ToOps(calls);
    forall op | op in ops
      ensures Fits(h, op)
    {
      var call := EachIn(ToOp, calls, op);
    }
  }

  /** Over every run of maps and unmaps, through any roots, the walk over memory and the
      flat table give the same address for every virtual address. */
  lemma RunTranslates(h: Heap, mem: seq<U64>, free: set<nat>, calls: seq<Call<U64>>,
                      g: Heap, after: seq<U64>, left: set<nat>, x: nat, v: U64)
    requires Describes(h, mem, free) && IsRoot(h, x) && forall c :: c in calls ==> Proper(h, c)
    requires Run(h, ToOps(calls)) == Some(g) && Describes(g, after, left)
    ensures IsRoot(g, x)
    ensures PhysAddr(after, 4096 * x, v) == FlatAddress(h, mem, calls, x, v)
  {
    ProperFits(h, mem, free, calls);
    RunIsLastWrite(h, ToOps(calls), x, PathOf(v));
    FlatIsLastWrite(h, mem, free, calls, x, v);
    PhysAddrIsWalk(g, after, left, x, v);
  }

  /** The entry that ends the walk and the rights over all levels are the flat table's too: every
      map keeps its flags, and no level takes a right away. */
  lemma RunEntries(h: Heap, mem: seq<U64>, free: set<nat>, calls: seq<Call<U64>>,
                   g: Heap, after: seq<U64>, left: set<nat>, x: nat, v: U64)
    requires Describes(h, mem, free) && IsRoot(h, x) && forall c :: c in calls ==> Proper(h, c)
    requires Run(h, ToOps(calls)) == Some(g) && Describes(g, after, left)
    ensures LeafAt(after, 4096 * x, PathOf(v)) == FlatEntry(h, mem, calls, x, v)
    ensures Rights(after, 4096 * x, PathOf(v)) == And(FlatEntry(h, mem, calls, x, v), 7)
  {
    hide And, HeapValid, LeafAt, Rights, FlatEntry, NoLarge, Seen;
    ProperFits(h, mem, free, calls);
    RunIsLastWrite(h, ToOps(calls), x, PathOf(v));
    FlatEntryIsLastWrite(h, mem, free, calls, x, v);
    FourLevels(g, after, left);
    WholePath(g, x, v);
    LeafIsWalk(g, after, left, x, PathOf(v));
  }

  /** One map: the page now lies at phys, through every root that sees the change, and
      every other address keeps its translation. */
  lemma MapPageTranslates(h: Heap, mem: seq<U64>, free: set<nat>, root: nat, virt: U64, phys: U64, flags: U64,
                          g: Heap, after: seq<U64>, left: set<nat>, x: nat, v: U64)
    requires Describes(h, mem, free) && IsRoot(h, root) && NoLarge(h, root, PathOf(virt)) && And(flags, ADDRESS) == 0
    requires Map(h, root, PathOf(virt), PageEntry(phys, flags)) == Some(g) && Describes(g, after, left) && IsRoot(h, x)
    ensures PhysAddr(after, 4096 * x, v) ==
      if Seen(h, x, v, root, virt) then 4096 * (phys / 4096 % 0x100_0000_0000) + v % 4096
      else PhysAddr(mem, 4096 * x, v)
  {
    PageOffset(phys, v);
    MapSpec(h, root, PathOf(virt), PageEntry(phys, flags));
    MapTranslates(h, root, PathOf(virt), PageEntry(phys, flags), x, PathOf(v));
    PageEntryDecodes(phys, flags);
    SeenIsTargets(h, x, v, root, virt);
    PhysAddrIsWalk(h, mem, free, x, v);
    PhysAddrIsWalk(g, after, left, x, v);
  }

  /** One unmap: the page has no translation left, every other address keeps its own. */
  lemma UnmapPageTranslates(h: Heap, mem: seq<U64>, free: set<nat>, root: nat, virt: U64,
                            after: seq<U64>, left: set<nat>, x: nat, v: U64)
    requires Describes(h, mem, free) && IsRoot(h, root) && NoLarge(h, root, PathOf(virt))
    requires Describes(Unmap(h, root, PathOf(virt)), after, left) && IsRoot(h, x)
    ensures PhysAddr(after, 4096 * x, v) ==
      if Seen(h, x, v, root, virt) then 0 else PhysAddr(mem, 4096 * x, v)
  {
    UnmapSpec(h, root, PathOf(virt));
    UnmapTranslates(h, root, PathOf(virt), x, PathOf(v));
    SeenIsTargets(h, x, v, root, virt);
    PhysAddrIsWalk(h, mem, free, x, v);
    PhysAddrIsWalk(Unmap(h, root, PathOf(virt)), after, left, x, v);
  }

  /** A created space translates every address as the kernel's, older roots as before. */
  lemma CreatedSpaceTranslates(h: Heap, mem: seq<U64>, free: set<nat>, origin: nat,
                               g: Heap, q: nat, after: seq<U64>, left: set<nat>, x: nat, v: U64)
    requires Describes(h, mem, free) && IsRoot(h, origin) && IsRoot(h, x)
    requires CreateSpace(h, origin) == Some((g, q)) && Describes(g, after, left)
    ensures PhysAddr(after, 4096 * q, v) == PhysAddr(mem, 4096 * origin, v)
    ensures PhysAddr(after, 4096 * x, v) == PhysAddr(mem, 4096 * x, v)
  {
    CreateSpaceTranslates(h, origin, origin, PathOf(v));
    CreateSpaceTranslates(h, origin, x, PathOf(v));
    PhysAddrIsWalk(h, mem, free, origin, v);
    PhysAddrIsWalk(h, mem, free, x, v);
    PhysAddrIsWalk(g, after, left, q, v);
    PhysAddrIsWalk(g, after, left, x, v);
  }

  /** After a clone the destination translates as the source did, every other root as before. */
  lemma ClonedSpaceTranslates(h: Heap, mem: seq<U64>, free: set<nat>, source: nat, destination: nat,
                              after: seq<U64>, left: set<nat>, x: nat, v: U64)
    requires Describes(h, mem, free) && IsRoot(h, source) && IsRoot(h, destination) && IsRoot(h, x)
    requires Describes(CopyRoot(h, source, destination), after, left)
    ensures PhysAddr(after, 4096 * x, v) == PhysAddr(mem, 4096 * (if x == destination then source else x), v)
  {
    WalkAfterCopyRoot(h, source, destination, x, PathOf(v));
    PhysAddrIsWalk(h, mem, free, if x == destination then source else x, v);
    PhysAddrIsWalk(CopyRoot(h, source, destination), after, left, x, v);
  }

  /** Two roots with equal top levels, as after create or clone: whatever runs later, they
      agree under a top-level entry present at the start, and under an absent one a run
      through one root leaves the other's addresses unmapped. */
  lemma TwinRootsAfterRun(h: Heap, mem: seq<U64>, free: set<nat>, calls: seq<Call<U64>>,
                          g: Heap, after: seq<U64>, left: set<nat>, x: nat, y: nat, v: U64)
    requires Describes(h, mem, free) && IsRoot(h, x) && IsRoot(h, y) && x != y
    requires h.tables[x].slots == h.tables[y].slots
    requires forall c :: c in calls ==> Proper(h, c)
    requires Run(h, ToOps(calls)) == Some(g) && Describes(g, after, left)
    ensures And(Word(mem, 4096 * x, PathOf(v)[0]), PRESENT) != 0 ==>
      PhysAddr(after, 4096 * x, v) == PhysAddr(after, 4096 * y, v)
    ensures And(Word(mem, 4096 * x, PathOf(v)[0]), PRESENT) == 0 && (forall c :: c in calls ==> c.root == y) ==>
      PhysAddr(after, 4096 * x, v) == 0
  {
    RunTranslates(h, mem, free, calls, g, after, left, x, v);
    RunTranslates(h, mem, free, calls, g, after, left, y, v);
    TwinsStart(h, mem, free, x, y, v);
    hide *;
    TwinsFlat(h, mem, calls, x, y, v);
  }

  lemma TwinsStart(h: Heap, mem: seq<U64>, free: set<nat>, x: nat, y: nat, v: U64)
    requires Describes(h, mem, free) && IsRoot(h, x) && IsRoot(h, y) && h.tables[x].slots == h.tables[y].slots
    ensures PhysAddr(mem, 4096 * x, v) == PhysAddr(mem, 4096 * y, v)
    ensures And(Word(mem, 4096 * x, PathOf(v)[0]), PRESENT) != 0 <==> Shared(h, x, y, PathOf(v)[0])
    ensures And(Word(mem, 4096 * x, PathOf(v)[0]), PRESENT) == 0 ==> PhysAddr(mem, 4096 * x, v) == 0
  {
    PhysAddrIsWalk(h, mem, free, x, v);
    PhysAddrIsWalk(h, mem, free, y, v);
    EntryLeadsOn(h, mem, free, x, PathOf(v)[0]) by {
      var i := PathOf(v)[0];
      assert Agrees(h, mem, x, i);
    }
    hide And, Or, PathOf, Physical, PhysAddr, HeapValid;
  }

  lemma TwinsFlat(h: Heap, mem: seq<U64>, calls: seq<Call<U64>>, x: nat, y: nat, v: U64)
    requires PhysAddr(mem, 4096 * x, v) == PhysAddr(mem, 4096 * y, v)
    ensures Shared(h, x, y, PathOf(v)[0]) ==> FlatAddress(h, mem, calls, x, v) == FlatAddress(h, mem, calls, y, v)
    ensures !Shared(h, x, y, PathOf(v)[0]) && x != y && (forall c :: c in calls ==> c.root == y) ==>
      FlatAddress(h, mem, calls, x, v) == PhysAddr(mem, 4096 * x, v)
  {
    if calls != [] {
      var call := calls[|calls| - 1];
      assert call in calls;
      TwinsFlat(h, mem, calls[..|calls| - 1], x, y, v);
      PathIsPageNumber(v, call.virt);
    }
  }

  // ---------- large pages ----------

  /** No run of proper calls touches an address that a 2 MB leaf translates. */
  lemma {:induction false} LargeStays(h: Heap, ops: seq<Op>, x: nat, path: seq<nat>)
    requires HeapValid(h) && IsRoot(h, x) && PathFrom(h, x, path) && !NoLarge(h, x, path)
    requires forall op :: op in ops ==> Fits(h, op)
    ensures LastWrite(h, ops, x, path) == Walk(h, x, path)
  {
    if ops != [] {
      var op := ops[|ops| - 1];
      assert op in ops && forall o :: o in ops[..|ops| - 1] ==> o in ops;
      LargeStays(h, ops[..|ops| - 1], x, path);
      if Targets(h, x, path, op.root, op.path) { SameBelow(h, x, op.root, path); }
    }
  }

  lemma SameBelow(h: Heap, x: nat, root: nat, path: seq<nat>)
    requires path != [] && (x == root || Shared(h, x, root, path[0]))
    ensures NoLarge(h, x, path) <==> NoLarge(h, root, path)
  {
  }

  lemma LargeRunTranslates(h: Heap, mem: seq<U64>, free: set<nat>, calls: seq<Call<U64>>,
                           g: Heap, after: seq<U64>, left: set<nat>, x: nat, v: U64)
    requires Describes(h, mem, free) && IsRoot(h, x) && forall c :: c in calls ==> Proper(h, c)
    requires Run(h, ToOps(calls)) == Some(g) && Describes(g, after, left)
    requires !NoLarge(h, x, PathOf(v))
    ensures PhysAddr(after, 4096 * x, v) == PhysAddr(mem, 4096 * x, v)
  {
    ProperFits(h, mem, free, calls);
    RunIsLastWrite(h, ToOps(calls), x, PathOf(v));
    LargeStays(h, ToOps(calls), x, PathOf(v));
    PhysAddrIsWalk(h, mem, free, x, v);
    PhysAddrIsWalk(g, after, left, x, v);
  }

  // ---------- running the calls ----------

  method PerformOne(m: Manager, call: Call<U64>) returns (ok: bool)
    requires m.Valid() && Proper(m.heap, call)
    modifies m`heap, m.mem, m.pmm.bitmap
    ensures ok ==> m.Valid()
    ensures Apply(old(m.heap), ToOp(call)) == if ok then Some(m.heap) else None
  {
    hide Map, Unmap, PathOf, PageEntry, And, HeapValid, Missing, NoLarge;
    RootsInWindow(m, call.root);
    match call
    case MapCall(root, virt, phys, flags) =>
      ok := m.MapPage(4096 * root, virt, phys, flags);
    case UnmapCall(root, virt) =>
      m.UnmapPage(4096 * root, virt);
      ok := true;
  }

  lemma RootsInWindow(m: Manager, root: nat)
    requires m.Valid() && IsRoot(m.heap, root)
    ensures root < Pmm.MAX_PAGES && 4096 * root / 4096 == root && RootAddress(m.heap, 4096 * root)
  {
  }

  /** A client that makes any list of calls ends in the memory their flat meaning describes; three
      free pages for each map are enough. */
  method Perform(m: Manager, calls: seq<Call<U64>>) returns (ok: bool)
    requires m.Valid() && forall c :: c in calls ==> Proper(m.heap, c)
    modifies m`heap, m.mem, m.pmm.bitmap
    ensures Demand(ToOps(calls), 3) <= |old(m.heap.free)| ==> ok
    ensures ok ==> m.Valid() && Run(old(m.heap), ToOps(calls)) == Some(m.heap)
    ensures ok ==> forall x: nat, v: U64 :: IsRoot(old(m.heap), x) ==>
      FlatAddress(old(m.heap), old(m.mem[..]), calls, x, v) == PhysAddr(m.mem[..], 4096 * x, v)
  {
    hide Describes, HeapValid, Fits, Run, Apply, ToOps, ToOp, Proper, RunKeeps, FlatAddress, PhysAddr;
    ghost var h, mem, free, ops := m.heap, m.mem[..], m.pmm.Free(), ToOps(calls);
    CallsFit(h, mem, free, calls);
    var k := 0;
    while k < |calls|
      invariant 0 <= k <= |calls|
      invariant m.Valid() && Run(h, ops[..k]) == Some(m.heap)
      decreases |calls| - k
    {
      NextCall(h, mem, free, calls, k);
      ok := PerformOne(m, calls[k]);
      if !ok {
        RunFails(h, ops, k);
        return;
      }
      k := k + 1;
    }
    assert ops[..k] == ops;
    forall x: nat, v: U64 | IsRoot(h, x)
      ensures FlatAddress(h, mem, calls, x, v) == PhysAddr(m.mem[..], 4096 * x, v)
    {
      RunTranslates(h, mem, free, calls, m.heap, m.mem[..], m.pmm.Free(), x, v);
    }
    return true;
  }

  lemma CallsFit(h: Heap, mem: seq<U64>, free: set<nat>, calls: seq<Call<U64>>)
    requires Describes(h, mem, free) && forall c :: c in calls ==> Proper(h, c)
    ensures Demand(ToOps(calls), 3) <= |h.free| ==> Run(h, ToOps(calls)).Some?
    ensures |ToOps(calls)| == |calls| && Run(h, ToOps(calls)[..0]) == Some(h)
  {
    hide HeapValid, Fits;
    ProperFits(h, mem, free, calls);
    RunNeeds(h, ToOps(calls), 3) by { Shaped(h, mem, free); }
    assert ToOps(calls)[..0] == [];
  }

  lemma Shaped(h: Heap, mem: seq<U64>, free: set<nat>)
    requires Describes(h, mem, free)
    ensures h.levels == 4 && h.width == 512 && HeapValid(h)
  {
  }

  /** Whatever calls ran before, the next one is still proper. */
  lemma NextCall(h: Heap, mem: seq<U64>, free: set<nat>, calls: seq<Call<U64>>, k: nat)
    requires Describes(h, mem, free) && (forall call :: call in calls ==> Proper(h, call)) && k < |calls|
    requires Run(h, ToOps(calls)[..k]).Some?
    ensures var g := Run(h, ToOps(calls)[..k]).value;
      Proper(g, calls[k]) && Run(h, ToOps(calls)[..k + 1]) == Apply(g, ToOp(calls[k]))
  {
    hide HeapValid, NoLarge;
    var ops := ToOps(calls);
    ProperFits(h, mem, free, calls);
    Shaped(h, mem, free);
    RunPrefix(h, ops, k);
    assert calls[k] in calls && ops[k] == ToOp(calls[k]);
  }
}
