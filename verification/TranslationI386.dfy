/** What the two-level manager means for addresses: entries with their flags, over any
    run of its calls, after the identity map, and after a deep clone. */
module TranslationI386 {
  import opened Wrappers
  import opened Bits
  import opened Forest
  import opened Supply
  import opened Calls
  import opened TablesI386
  import opened VmmI386
  import Pmm

  /** A change made through root at virt shows at v through x: the same page, and
      either the same root or a directory entry that both roots hold. */
  ghost predicate Seen(h: Heap, x: nat, v: U32, root: nat, virt: U32) {
    v / 0x1000 == virt / 0x1000 && (x == root || Shared(h, x, root, PathOf(virt)[0]))
  }

  function ToOp(call: Call<U32>): Op {
    match call
    case MapCall(root, virt, phys, flags) => MapOp(root, PathOf(virt), PageEntry(phys, flags))
    case UnmapCall(root, virt) => UnmapOp(root, PathOf(virt))
  }

  function ToOps(calls: seq<Call<U32>>): (ops: seq<Op>)
    ensures |ops| == |calls|
  {
    Each(ToOp, calls)
  }

  ghost predicate Proper(h: Heap, call: Call<U32>) {
    IsRoot(h, call.root) && (call.MapCall? ==> And(call.flags, ADDRESS) == 0)
  }

  /** The entry the flat table holds: the last call seen at v decides, and before any call
      the initial memory does. */
  ghost function FlatEntry(h: Heap, mem: seq<U32>, calls: seq<Call<U32>>, x: nat, v: U32): nat {
    if calls == [] then EntryAt(mem, 4096 * x, v)
    else
      var call := calls[|calls| - 1];
      if !Seen(h, x, v, call.root, call.virt) then FlatEntry(h, mem, calls[..|calls| - 1], x, v)
      else if call.MapCall? then call.phys - call.phys % 0x1000 + (call.flags - call.flags % 2 + 1)
      else 0
  }

  lemma {:induction false} FlatIsLastWrite(h: Heap, mem: seq<U32>, free: set<nat>, calls: seq<Call<U32>>, x: nat,
                                           v: U32)
    requires Describes(h, mem, free) && IsRoot(h, x) && forall c :: c in calls ==> Proper(h, c)
    ensures FlatEntry(h, mem, calls, x, v) == EntryOf(LastWrite(h, ToOps(calls), x, PathOf(v)))
  {
    if calls == [] {
      EntryAtIsWalk(h, mem, free, x, v);
    } else {
      var before, call := calls[..|calls| - 1], calls[|calls| - 1];
      assert call in calls && forall c :: c in before ==> c in calls;
      FlatIsLastWrite(h, mem, free, before, x, v);
      EachPrefix(ToOp, calls, |calls| - 1);
      assert ToOps(calls)[|calls| - 1] == ToOp(call);
      PathIsPageNumber(v, call.virt);
      if call.MapCall? { PageEntryIs(call.phys, call.flags); }
    }
  }

  lemma ProperFits(h: Heap, mem: seq<U32>, free: set<nat>, calls: seq<Call<U32>>)
    requires Describes(h, mem, free) && forall c :: c in calls ==> Proper(h, c)
    ensures forall op :: op in ToOps(calls) ==> Fits(h, op)
  {
    var ops := ToOps(calls);
    forall op | op in ops
      ensures Fits(h, op)
    {
      var call := EachIn(ToOp, calls, op);
      EntryLeadsOn(h, mem, free, op.root, op.path[0]);
      NoLargeHere(h, op.root, op.path);
    }
  }

  /** Over every run of maps and unmaps, through any directories, the lookup over memory
      finds the flat table's entry for every virtual address, flags included. */
  lemma RunTranslates(h: Heap, mem: seq<U32>, free: set<nat>, calls: seq<Call<U32>>,
                      g: Heap, after: seq<U32>, left: set<nat>, x: nat, v: U32)
    requires Describes(h, mem, free) && IsRoot(h, x) && forall c :: c in calls ==> Proper(h, c)
    requires Run(h, ToOps(calls)) == Some(g) && Describes(g, after, left)
    ensures IsRoot(g, x)
    ensures EntryAt(after, 4096 * x, v) == FlatEntry(h, mem, calls, x, v)
    ensures Rights(after, 4096 * x, v) == And(FlatEntry(h, mem, calls, x, v), 7)
  {
    ProperFits(h, mem, free, calls);
    RunIsLastWrite(h, ToOps(calls), x, PathOf(v));
    RightsAreEntry(g, after, left, x, v);
    FlatIsLastWrite(h, mem, free, calls, x, v);
    EntryAtIsWalk(g, after, left, x, v);
  }

  /** What a mapped page translates to, that its entry keeps every flag, and that it is never
      mistaken for "none". */
  lemma MappedEntry(phys: U32, flags: U32)
    requires And(flags, ADDRESS) == 0
    ensures And(PageEntry(phys, flags), ADDRESS) == And(phys, ADDRESS)
    ensures And(PageEntry(phys, flags), PRESENT) != 0
    ensures And(PageEntry(phys, flags), FLAGS) == Or(And(flags, FLAGS), PRESENT)
  {
    PageEntryFlags(phys, flags);
    PageEntryDecodes(phys, flags);
  }

  /** A created space holds the kernel's entry for every address, older roots keep theirs. */
  lemma CreatedSpaceTranslates(h: Heap, mem: seq<U32>, free: set<nat>, origin: nat,
                               g: Heap, q: nat, after: seq<U32>, left: set<nat>, x: nat, v: U32)
    requires Describes(h, mem, free) && IsRoot(h, origin) && IsRoot(h, x)
    requires CreateSpace(h, origin) == Some((g, q)) && Describes(g, after, left)
    ensures EntryAt(after, 4096 * q, v) == EntryAt(mem, 4096 * origin, v)
    ensures EntryAt(after, 4096 * x, v) == EntryAt(mem, 4096 * x, v)
    ensures forall i :: 0 <= i < 1024 && SlotAt(h, origin, i) != Absent ==> Shared(g, q, origin, i)
    ensures forall i :: 0 <= i < 1024 && SlotAt(h, origin, i) == Absent ==> !Shared(g, q, origin, i)
  {
    CreateSpaceTranslates(h, origin, origin, PathOf(v));
    CreateSpaceTranslates(h, origin, x, PathOf(v));
    EntryAtIsWalk(h, mem, free, origin, v);
    EntryAtIsWalk(h, mem, free, x, v);
    EntryAtIsWalk(g, after, left, q, v);
    EntryAtIsWalk(g, after, left, x, v);
    forall i | 0 <= i < 1024
      ensures SlotAt(h, origin, i) != Absent <==> Shared(g, q, origin, i)
    {
      EntryLeadsOn(h, mem, free, origin, i);
    }
  }

  /** Directories that share an entry hold the same table entries under it after any run. */
  lemma SharedEntryAgrees(h: Heap, mem: seq<U32>, free: set<nat>, calls: seq<Call<U32>>,
                          g: Heap, after: seq<U32>, left: set<nat>, x: nat, y: nat, v: U32)
    requires Describes(h, mem, free) && IsRoot(h, x) && IsRoot(h, y) && Shared(h, x, y, PathOf(v)[0])
    requires forall c :: c in calls ==> Proper(h, c)
    requires Run(h, ToOps(calls)) == Some(g) && Describes(g, after, left)
    ensures EntryAt(after, 4096 * x, v) == EntryAt(after, 4096 * y, v)
  {
    RunTranslates(h, mem, free, calls, g, after, left, x, v);
    RunTranslates(h, mem, free, calls, g, after, left, y, v);
    ProperFits(h, mem, free, calls);
    SharedSlotAgrees(h, ToOps(calls), x, y, PathOf(v));
    EntryAtIsWalk(g, after, left, x, v);
    EntryAtIsWalk(g, after, left, y, v);
  }

  /** After the clone into a directory whose entries are a subset of the source's, both hold the
      source's old entry for every address, and a later run through one leaves the other alone. */
  lemma CloneTranslates(h: Heap, mem: seq<U32>, free: set<nat>, src: nat, dst: nat,
                        g: Heap, cloned: seq<U32>, left: set<nat>, v: U32)
    requires Describes(h, mem, free) && CloneReady(h, src, dst) && CloneSlots(h, src, dst, 1024) == Some(g)
    requires Describes(g, cloned, left)
    requires forall i :: 0 <= i < 1024 && SlotAt(h, dst, i) != Absent ==> SlotAt(h, src, i) != Absent
    ensures EntryAt(cloned, 4096 * dst, v) == EntryAt(mem, 4096 * src, v)
    ensures EntryAt(cloned, 4096 * src, v) == EntryAt(mem, 4096 * src, v)
  {
    hide HeapValid, CloneSlots, EntryAt;
    CloneNeedsSubset(h, mem, free, src, dst);
    CloneSlotsTranslate(h, src, dst, 1024, src, PathOf(v));
    CloneSlotsTranslate(h, src, dst, 1024, dst, PathOf(v));
    CloneSlotsKeep(h, src, dst, 1024);
    EntryAtIsWalk(h, mem, free, src, v);
    EntryAtIsWalk(g, cloned, left, src, v);
    EntryAtIsWalk(g, cloned, left, dst, v);
  }

  lemma CloneNeedsSubset(h: Heap, mem: seq<U32>, free: set<nat>, src: nat, dst: nat)
    requires Describes(h, mem, free) && IsRoot(h, src) && IsRoot(h, dst)
    requires forall i :: 0 <= i < 1024 && SlotAt(h, dst, i) != Absent ==> SlotAt(h, src, i) != Absent
    ensures forall i :: 0 <= i < 1024 ==> !SlotAt(h, src, i).Leaf?
    ensures forall i :: 0 <= i < 1024 && SlotAt(h, dst, i) != Absent ==> SlotAt(h, src, i).Next?
  {
    forall i | 0 <= i < 1024
      ensures !SlotAt(h, src, i).Leaf?
    {
      EntryLeadsOn(h, mem, free, src, i);
    }
  }

  lemma CallsThrough(calls: seq<Call<U32>>, g: Heap, root: nat)
    ensures (forall c :: c in calls ==> Proper(g, c) && c.root == root) ==>
      (forall c :: c in calls ==> Proper(g, c)) && forall op :: op in ToOps(calls) ==> op.root == root
  {
    var ops := ToOps(calls);
    forall op | op in ops && forall c :: c in calls ==> c.root == root
      ensures op.root == root
    {
      var call := EachIn(ToOp, calls, op);
    }
  }

  lemma CloneRunsApart(h: Heap, mem: seq<U32>, free: set<nat>, src: nat, dst: nat,
                       g: Heap, cloned: seq<U32>, left: set<nat>, calls: seq<Call<U32>>, changed: nat, other: nat,
                       e: Heap, after: seq<U32>, rest: set<nat>, v: U32)
    requires Describes(h, mem, free) && CloneReady(h, src, dst) && src != dst
    requires CloneSlots(h, src, dst, 1024) == Some(g) && Describes(g, cloned, left)
    requires forall i :: 0 <= i < 1024 && SlotAt(h, dst, i) != Absent ==> SlotAt(h, src, i) != Absent
    requires (changed, other) == (src, dst) || (changed, other) == (dst, src)
    requires forall c :: c in calls ==> Proper(g, c) && c.root == changed
    requires Run(g, ToOps(calls)) == Some(e) && Describes(e, after, rest)
    ensures EntryAt(after, 4096 * other, v) == EntryAt(mem, 4096 * src, v)
  {
    hide HeapValid, Walk, EntryAt, Run, CloneSlots, Fits, ToOps, Proper;
    CloneNeedsSubset(h, mem, free, src, dst);
    CloneSlotsKeep(h, src, dst, 1024);
    CallsThrough(calls, g, changed);
    ProperFits(g, cloned, left, calls);
    var ops := ToOps(calls);
    CloneIsIndependent(h, src, dst, ops, PathOf(v));
    RunIsLastWrite(g, ops, other, PathOf(v));
    EntryAtIsWalk(h, mem, free, src, v);
    EntryAtIsWalk(e, after, rest, other, v);
  }

  /** After init_paging every address below 16 MB translates to its own page and nothing above is
      mapped; so a page the allocator can return, or one in use as a table, is reached at its
      own physical address. */
  lemma IdentityTranslates(h: Heap, mem: seq<U32>, free: set<nat>, r: nat, v: U32)
    requires Describes(h, mem, free) && IsRoot(h, r) && Identity(h, r, 0x1000)
    ensures PhysAddr(mem, 4096 * r, v) == if v < 0x100_0000 then v - v % 4096 else 0
    ensures v >= 0x100_0000 ==> EntryAt(mem, 4096 * r, v) == 0
    ensures forall p :: (p in h.tables || p in free) && p < Pmm.MAX_PAGES ==>
      PhysAddr(mem, 4096 * r, 4096 * p) == 4096 * p
  {
    hide Describes, Identity, PhysAddr, EntryAt, IsRoot, And;
    IdentityAt(h, mem, free, r, v);
    forall p | p < Pmm.MAX_PAGES && (p in h.tables || p in free)
      ensures PhysAddr(mem, 4096 * r, 4096 * p) == 4096 * p
    {
      IdentityAt(h, mem, free, r, 4096 * p);
    }
  }

  lemma IdentityAt(h: Heap, mem: seq<U32>, free: set<nat>, r: nat, v: U32)
    requires Describes(h, mem, free) && IsRoot(h, r) && Identity(h, r, 0x1000)
    ensures v < 0x100_0000 ==> PhysAddr(mem, 4096 * r, v) == v - v % 4096
    ensures v >= 0x100_0000 ==> EntryAt(mem, 4096 * r, v) == 0 && PhysAddr(mem, 4096 * r, v) == 0
  {
    hide And, Or, HeapValid, Walk, PathOf, PageEntry, Agrees, EntryAt;
    EntryAtIsWalk(h, mem, free, r, v);
    AllRights();
    assert Walk(h, r, PathOf(v)) == if v / 0x1000 < 0x1000 then Some(Hit(v - v % 0x1000 + 7, 0)) else None;
    SplitParts(v / 4096, 7);
    Below20Bits(0);
  }

  // ---------- which runs keep the tables in reach ----------

  /** The last call of a run that shows at v through x. */
  ghost function LastSeen(h: Heap, calls: seq<Call<U32>>, x: nat, v: U32): Option<Call<U32>> {
    if calls == [] then None
    else
      var call := calls[|calls| - 1];
      if Seen(h, x, v, call.root, call.virt) then Some(call) else LastSeen(h, calls[..|calls| - 1], x, v)
  }

  lemma {:induction false} FlatIsLastSeen(h: Heap, mem: seq<U32>, calls: seq<Call<U32>>, x: nat, v: U32)
    ensures FlatEntry(h, mem, calls, x, v) ==
      match LastSeen(h, calls, x, v)
      case None => EntryAt(mem, 4096 * x, v)
      case Some(MapCall(_, _, phys, flags)) => phys - phys % 0x1000 + (flags - flags % 2 + 1)
      case Some(UnmapCall(_, _)) => 0
  {
    if calls != [] { FlatIsLastSeen(h, mem, calls[..|calls| - 1], x, v); }
  }

  lemma {:induction false} LastSeenProper(h: Heap, calls: seq<Call<U32>>, x: nat, v: U32)
    requires forall c :: c in calls ==> Proper(h, c)
    ensures LastSeen(h, calls, x, v).Some? ==> LastSeen(h, calls, x, v).value in calls
  {
    if calls != [] {
      assert forall c :: c in calls[..|calls| - 1] ==> c in calls;
      LastSeenProper(h, calls[..|calls| - 1], x, v);
    }
  }

  /** The processor reaches page p at its own address through root x. */
  predicate Reached(mem: seq<U32>, x: nat, p: nat)
    requires p < Pmm.MAX_PAGES
  {
    Mmu(mem, 4096 * x, 4096 * p) == Some(4096 * p)
  }

  /** That is what the entry says; an entry that is not present is zero. */
  lemma ReachedIsEntry(h: Heap, mem: seq<U32>, free: set<nat>, x: nat, p: nat)
    requires Describes(h, mem, free) && IsRoot(h, x) && p < Pmm.MAX_PAGES
    ensures var e := EntryAt(mem, 4096 * x, 4096 * p);
      Reached(mem, x, p) <==> e != 0 && And(e, ADDRESS) == 4096 * p
    ensures Reached(mem, x, p) <==> AtItself(h, x, p)
  {
    hide And, HeapValid, PathOf, Mmu, EntryAt;
    MmuIsWalk(h, mem, free, x, 4096 * p);
    EntryAtIsWalk(h, mem, free, x, 4096 * p);
    FoundIsPresent(h, mem, free, x, 4096 * p);
  }

  lemma FoundIsPresent(h: Heap, mem: seq<U32>, free: set<nat>, x: nat, v: U32)
    requires Describes(h, mem, free) && IsRoot(h, x)
    ensures Walk(h, x, PathOf(v)).Some? ==> Walk(h, x, PathOf(v)).value.word != 0
  {
    hide HeapValid;
    var path := PathOf(v);
    EntryLeadsOn(h, mem, free, x, path[0]);
    if SlotAt(h, x, path[0]).Next? {
      var q := SlotAt(h, x, path[0]).page;
      assert path[1..] == [path[1]] && Agrees(h, mem, q, path[1]);
      assert And(0, PRESENT) == 0;
    }
  }

  /** After any run a page of the window is reached at its own address exactly when the last call
      seen there, if any, maps it to itself. */
  lemma ReachedAfterRun(h: Heap, mem: seq<U32>, free: set<nat>, calls: seq<Call<U32>>,
                        g: Heap, after: seq<U32>, left: set<nat>, x: nat, p: nat)
    requires Describes(h, mem, free) && IsRoot(h, x) && (forall c :: c in calls ==> Proper(h, c)) && p < Pmm.MAX_PAGES
    requires Run(h, ToOps(calls)) == Some(g) && Describes(g, after, left)
    ensures IsRoot(g, x)
    ensures Reached(after, x, p) <==>
      match LastSeen(h, calls, x, 4096 * p)
      case None => Reached(mem, x, p)
      case Some(MapCall(_, _, phys, _)) => And(phys, ADDRESS) == 4096 * p
      case Some(UnmapCall(_, _)) => false
  {
    hide Reached, Describes, Run, ToOps, Proper, IsRoot, Seen, FlatEntry, PageEntry, And, EntryAt;
    RunTranslates(h, mem, free, calls, g, after, left, x, 4096 * p);
    FlatIsLastSeen(h, mem, calls, x, 4096 * p);
    ReachedIsEntry(h, mem, free, x, p);
    ReachedIsEntry(g, after, left, x, p);
    LastSeenProper(h, calls, x, 4096 * p);
    match LastSeen(h, calls, x, 4096 * p)
    case Some(MapCall(root, virt, phys, flags)) => MappedByProper(h, MapCall(root, virt, phys, flags));
    case _ =>
  }

  lemma MappedByProper(h: Heap, call: Call<U32>)
    requires Proper(h, call) && call.MapCall?
    ensures var e := call.phys - call.phys % 0x1000 + (call.flags - call.flags % 2 + 1);
      e != 0 && And(e, ADDRESS) == And(call.phys, ADDRESS)
  {
    PageEntryIs(call.phys, call.flags);
    MappedEntry(call.phys, call.flags);
    assert And(0, PRESENT) == 0;
  }

  /** So a directory that unmaps its own page, or maps another frame there, can no longer be
      used: after init_paging one such call is enough. */
  lemma OwnPageLost(h: Heap, mem: seq<U32>, free: set<nat>, r: nat, call: Call<U32>,
                    g: Heap, after: seq<U32>, left: set<nat>)
    requires Describes(h, mem, free) && IsRoot(h, r) && Identity(h, r, 0x1000) && Proper(h, call)
    requires call == UnmapCall(r, 4096 * r) ||
      (call.MapCall? && call.root == r && call.virt == 4096 * r && And(call.phys, ADDRESS) != 4096 * r)
    requires Apply(h, ToOp(call)) == Some(g) && Describes(g, after, left)
    ensures Proper(h, UnmapCall(r, 4096 * r)) && Reached(mem, r, r) && !Reached(after, r, r) && !Reachable(g, r)
  {
    hide HeapValid, Reached, Walk, And, PageEntry;
    var calls := [call];
    assert calls[..0] == [];
    EachPrefix(ToOp, calls, 0);
    assert ToOps(calls)[..0] == [] && ToOps(calls)[0] == ToOp(call);
    assert Run(h, ToOps(calls)[..0]) == Some(h);
    ReachedAfterRun(h, mem, free, calls, g, after, left, r, r);
    IdentityTranslates(h, mem, free, r, 4096 * r);
    ReachedIsEntry(h, mem, free, r, r);
    ReachedIsEntry(g, after, left, r, r);
    RootIsPage(g, after, left, r);
  }

  lemma RootIsPage(h: Heap, mem: seq<U32>, free: set<nat>, r: nat)
    requires Describes(h, mem, free) && IsRoot(h, r)
    ensures 0 < r < Pmm.MAX_PAGES && r in Pages(h)
  {
  }

  /** A call leaves the tables in reach through c. */
  ghost predicate HarmlessCall(h: Heap, c: nat, call: Call<U32>) {
    Harmless(h, c, call.root, call.virt, if call.MapCall? then Some(call.phys) else None)
  }

  /** A call at a page that is no table and can become none is harmless, and so is one that maps a
      page to itself. */
  lemma AwayIsHarmless(h: Heap, c: nat, call: Call<U32>)
    requires call.virt / 4096 in Pages(h) ==> call.MapCall? && And(call.phys, ADDRESS) == 4096 * (call.virt / 4096)
    ensures HarmlessCall(h, c, call)
  {
  }

  /** So is every call above the window. */
  lemma HighIsHarmless(h: Heap, c: nat, call: Call<U32>)
    requires Reachable(h, c) && call.virt >= 0x100_0000
    ensures HarmlessCall(h, c, call)
  {
    forall p | p in Pages(h)
      ensures p < Pmm.MAX_PAGES
    {
      assert AtItself(h, c, p);
    }
  }

  lemma HarmlessStays(h: Heap, g: Heap, c: nat, call: Call<U32>)
    requires HeapValid(h) && h.width == 1024 && IsRoot(h, c) && IsRoot(h, call.root) && RunKeeps(h, g) &&
      Pages(g) == Pages(h)
    ensures HarmlessCall(g, c, call) <==> HarmlessCall(h, c, call)
  {
  }

  lemma ReachableAfterCall(h: Heap, mem: seq<U32>, free: set<nat>, c: nat, call: Call<U32>)
    requires HeapValid(h) && h.levels == 2 && h.width == 1024 && IsRoot(h, c) && Reachable(h, c)
    requires Fits(h, ToOp(call)) && (call.MapCall? ==> And(call.flags, ADDRESS) == 0)
    requires Apply(h, ToOp(call)).Some?
    ensures Reachable(Apply(h, ToOp(call)).value, c) <==> HarmlessCall(h, c, call)
  {
    hide HeapValid, Reachable, NoLarge, Harmless;
    match call
    case MapCall(root, virt, phys, flags) => ReachableAfterMap(h, c, root, virt, phys, flags);
    case UnmapCall(root, virt) => ReachableAfterUnmap(h, c, root, virt);
  }

  /** The heap after the first k calls. */
  ghost predicate ReachableAfter(h: Heap, calls: seq<Call<U32>>, k: nat, c: nat)
    requires k <= |calls|
  {
    Run(h, ToOps(calls)[..k]).Some? && Reachable(Run(h, ToOps(calls)[..k]).value, c)
  }

  /** A run keeps the tables in reach at every moment exactly when each of its calls is harmless,
      which can be told before the run. */
  lemma {:induction false} ReachableThroughout(h: Heap, mem: seq<U32>, free: set<nat>, calls: seq<Call<U32>>, n: nat,
                                               c: nat)
    requires Describes(h, mem, free) && IsRoot(h, c) && Reachable(h, c)
    requires forall call :: call in calls ==> Proper(h, call)
    requires n <= |calls| && Run(h, ToOps(calls)).Some?
    ensures (forall k :: 0 <= k <= n ==> ReachableAfter(h, calls, k, c)) <==>
      (forall i :: 0 <= i < n ==> HarmlessCall(h, c, calls[i]))
  {
    hide Reachable, Describes, ToOps, HarmlessCall, Proper, ReachableAfter;
    if n == 0 {
      ReachableAtStart(h, calls, c);
    } else {
      ReachableThroughout(h, mem, free, calls, n - 1, c);
      if forall k :: 0 <= k <= n - 1 ==> ReachableAfter(h, calls, k, c) {
        assert ReachableAfter(h, calls, n - 1, c);
        ReachableNext(h, mem, free, calls, n - 1, c);
      }
    }
  }

  lemma ReachableAtStart(h: Heap, calls: seq<Call<U32>>, c: nat)
    ensures ReachableAfter(h, calls, 0, c) <==> Reachable(h, c)
  {
    assert ToOps(calls)[..0] == [];
  }

  lemma ReachableNext(h: Heap, mem: seq<U32>, free: set<nat>, calls: seq<Call<U32>>, k: nat, c: nat)
    requires Describes(h, mem, free) && IsRoot(h, c) && forall call :: call in calls ==> Proper(h, call)
    requires k < |calls| && Run(h, ToOps(calls)).Some? && ReachableAfter(h, calls, k, c)
    ensures ReachableAfter(h, calls, k + 1, c) <==> HarmlessCall(h, c, calls[k])
  {
    hide Reachable, HarmlessCall, HeapValid;
    var ops := ToOps(calls);
    ProperFits(h, mem, free, calls);
    RunBefore(h, ops, k);
    RunBefore(h, ops, k + 1);
    RunPrefix(h, ops, k);
    assert calls[k] in calls && ops[k] in ops;
    assert forall op :: op in ops[..k] ==> op in ops;
    var g := Run(h, ops[..k]).value;
    RunIsLastWrite(h, ops[..k], c, PathOf(0));
    RunNeeds(h, ops[..k], 1);
    ReachableAfterCall(g, mem, free, c, calls[k]);
    HarmlessStays(h, g, c, calls[k]);
  }

  /** A root that holds the same entries for the window reaches the same pages, now and after any run. */
  lemma KernelEntriesReach(h: Heap, mem: seq<U32>, free: set<nat>, calls: seq<Call<U32>>,
                           g: Heap, after: seq<U32>, left: set<nat>, k: nat, x: nat, p: nat)
    requires Describes(h, mem, free) && IsRoot(h, k) && IsRoot(h, x) && forall i :: 0 <= i < 4 ==> Shared(h, x, k, i)
    requires forall c :: c in calls ==> Proper(h, c)
    requires Run(h, ToOps(calls)) == Some(g) && Describes(g, after, left) && p < Pmm.MAX_PAGES
    ensures Reached(after, x, p) <==> Reached(after, k, p)
  {
    hide HeapValid, And, Mmu, EntryAt;
    assert PathOf(4096 * p)[0] == p / 1024;
    SharedEntryAgrees(h, mem, free, calls, g, after, left, x, k, 4096 * p);
    RunTranslates(h, mem, free, calls, g, after, left, x, 4096 * p);
    RunTranslates(h, mem, free, calls, g, after, left, k, 4096 * p);
    ReachedIsEntry(g, after, left, x, p);
    ReachedIsEntry(g, after, left, k, p);
  }

  /** Everything a harmless run leaves as a table, created ones included, is reached at its own
      address, through the directory in use and every root with its entries for the window. */
  lemma TablesStayReached(h: Heap, mem: seq<U32>, free: set<nat>, calls: seq<Call<U32>>,
                          g: Heap, after: seq<U32>, left: set<nat>, c: nat, x: nat, p: nat)
    requires Describes(h, mem, free) && IsRoot(h, c) && IsRoot(h, x) && Reachable(h, c)
    requires x == c || forall i :: 0 <= i < 4 ==> Shared(h, x, c, i)
    requires forall call :: call in calls ==> Proper(h, call) && HarmlessCall(h, c, call)
    requires Run(h, ToOps(calls)) == Some(g) && Describes(g, after, left) && p in g.tables
    ensures p < Pmm.MAX_PAGES && Reached(after, x, p)
  {
    hide HeapValid, Reached, HarmlessCall, Reachable, Proper;
    assert forall i :: 0 <= i < |calls| ==> calls[i] in calls;
    ReachableThroughout(h, mem, free, calls, |calls|, c);
    EachPrefix(ToOp, calls, |calls|);
    assert calls[..|calls|] == calls && ReachableAfter(h, calls, |calls|, c);
    AllAtThemselves(g, c, p);
    RunTranslates(h, mem, free, calls, g, after, left, c, 0);
    ReachedIsEntry(g, after, left, c, p);
    if x != c { KernelEntriesReach(h, mem, free, calls, g, after, left, c, x, p); }
  }

  lemma AllAtThemselves(h: Heap, c: nat, p: nat)
    requires Reachable(h, c) && p in Pages(h)
    ensures AtItself(h, c, p)
  {
  }

  // ---------- running the calls ----------

  method PerformOne(m: Manager, call: Call<U32>) returns (ok: bool)
    requires m.Valid() && Proper(m.heap, call) && (m.paging ==> HarmlessCall(m.heap, m.currentPd / 4096, call))
    modifies m`heap, m.mem, m.pmm.bitmap
    ensures ok ==> m.Valid()
    ensures Apply(old(m.heap), ToOp(call)) == if ok then Some(m.heap) else None
  {
    hide Harmless, InUse, Map, Unmap, PathOf, PageEntry, And, HeapValid, Missing;
    RootsInWindow(m, call.root);
    match call
    case MapCall(root, virt, phys, flags) =>
      ok := m.MapPage(4096 * root, virt, phys, flags);
    case UnmapCall(root, virt) =>
      m.UnmapPage(4096 * root, virt);
      ok := true;
  }

  lemma RootsInWindow(m: Manager, root: nat)
    requires m.Valid() && IsRoot(m.heap, root)
    ensures root < Pmm.MAX_PAGES && 4096 * root / 4096 == root && RootAddress(m.heap, 4096 * root)
  {
  }

  lemma DirectoryInUse(m: Manager)
    requires m.Valid() && m.paging
    ensures IsRoot(m.heap, m.currentPd / 4096)
  {
  }

  /** A client that makes any list of calls ends in the memory their flat meaning describes, with
      paging off or, if the calls are harmless to the code's own tables, with paging on; one free
      page for each map is enough. */
  method Perform(m: Manager, calls: seq<Call<U32>>) returns (ok: bool)
    requires m.Valid() && forall c :: c in calls ==> Proper(m.heap, c)
    requires m.paging ==> forall c :: c in calls ==> HarmlessCall(m.heap, m.currentPd / 4096, c)
    modifies m`heap, m.mem, m.pmm.bitmap
    ensures Demand(ToOps(calls), 1) <= |old(m.heap.free)| ==> ok
    ensures ok ==> m.Valid() && Run(old(m.heap), ToOps(calls)) == Some(m.heap)
    ensures ok ==> forall x: nat, v: U32 :: IsRoot(old(m.heap), x) ==>
      FlatEntry(old(m.heap), old(m.mem[..]), calls, x, v) == EntryAt(m.mem[..], 4096 * x, v)
  {
    hide Describes, HeapValid, Fits, Run, Apply, ToOps, ToOp, Proper, HarmlessCall, InUse, RunKeeps, FlatEntry, EntryAt;
    ghost var h, mem, free, ops := m.heap, m.mem[..], m.pmm.Free(), ToOps(calls);
    CallsFit(h, mem, free, calls);
    if m.paging { DirectoryInUse(m); }
    var k := 0;
    while k < |calls|
      invariant 0 <= k <= |calls|
      invariant m.Valid() && Run(h, ops[..k]) == Some(m.heap)
      decreases |calls| - k
    {
      NextCall(h, mem, free, calls, k, m.currentPd / 4096, m.paging);
      ok := PerformOne(m, calls[k]);
      if !ok {
        RunFails(h, ops, k);
        return;
      }
      k := k + 1;
    }
    assert ops[..k] == ops;
    forall x: nat, v: U32 | IsRoot(h, x)
      ensures FlatEntry(h, mem, calls, x, v) == EntryAt(m.mem[..], 4096 * x, v)
    {
      RunTranslates(h, mem, free, calls, m.heap, m.mem[..], m.pmm.Free(), x, v);
    }
    return true;
  }

  lemma CallsFit(h: Heap, mem: seq<U32>, free: set<nat>, calls: seq<Call<U32>>)
    requires Describes(h, mem, free) && forall c :: c in calls ==> Proper(h, c)
    ensures Demand(ToOps(calls), 1) <= |h.free| ==> Run(h, ToOps(calls)).Some?
    ensures |ToOps(calls)| == |calls| && Run(h, ToOps(calls)[..0]) == Some(h)
  {
    hide HeapValid, Fits;
    ProperFits(h, mem, free, calls);
    RunNeeds(h, ToOps(calls), 1) by { Shaped(h, mem, free); }
    assert ToOps(calls)[..0] == [];
  }

  lemma Shaped(h: Heap, mem: seq<U32>, free: set<nat>)
    requires Describes(h, mem, free)
    ensures h.levels == 2 && h.width == 1024 && HeapValid(h)
  {
  }

  /** Whatever calls ran before, the next one is still proper, and as harmless as it was. */
  lemma NextCall(h: Heap, mem: seq<U32>, free: set<nat>, calls: seq<Call<U32>>, k: nat, c: nat, paging: bool)
    requires Describes(h, mem, free) && (forall call :: call in calls ==> Proper(h, call)) && k < |calls|
    requires Run(h, ToOps(calls)[..k]).Some? && (paging ==> IsRoot(h, c))
    ensures var g := Run(h, ToOps(calls)[..k]).value;
      && Proper(g, calls[k]) && (paging && HarmlessCall(h, c, calls[k]) ==> HarmlessCall(g, c, calls[k]))
      && Run(h, ToOps(calls)[..k + 1]) == Apply(g, ToOp(calls[k]))
      && (paging ==> IsRoot(g, c))
  {
    hide HeapValid, HarmlessCall, Fits;
    var ops := ToOps(calls);
    ProperFits(h, mem, free, calls);
    Shaped(h, mem, free);
    RunPrefix(h, ops, k);
    assert calls[k] in calls && ops[k] in ops && forall op :: op in ops[..k] ==> op in ops;
    RunNeeds(h, ops[..k], 1);
    RunIsLastWrite(h, ops[..k], calls[k].root, PathOf(0));
    if paging { HarmlessStays(h, Run(h, ops[..k]).value, c, calls[k]); }
  }
}
