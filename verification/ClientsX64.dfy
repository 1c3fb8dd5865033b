/** Clients of the four-level manager: any mixture of maps, unmaps, new and cloned spaces and
    frames taken from and given back to the allocator (kernel/x64/vmm.c, kernel/mm/pmm.c). */
module ClientsX64 {
  import opened Wrappers
  import opened Bits
  import opened Forest
  import opened Histories
  import opened Calls
  import opened VmmX64
  import opened TranslationX64
  import Pmm

  /** The kernel's directory is the origin of new spaces. */
  function ToDeed(kernel: nat, r: Request<U64>): Deed {
    match r
    case Change(call) => Write(ToOp(call))
    case NewSpace => Create(kernel)
    case CloneSpace(source, target) => Copy(source, target)
    case Switch(_) => Stay
    case TakeFrame => Take
    case GiveFrame(page) => Give(page)
  }

  function ToDeeds(kernel: nat, rs: seq<Request<U64>>): (ds: seq<Deed>)
    ensures |ds| == |rs| && forall k :: 0 <= k < |rs| ==> ds[k] == ToDeed(kernel, rs[k])
  {
    seq(|rs|, k requires 0 <= k < |rs| => ToDeed(kernel, rs[k]))
  }

  /** The client names roots, gives back what is no table, and stays away from large pages. */
  ghost predicate Granted(h: Heap, kernel: nat, r: Request<U64>) {
    match r
    case Change(call) => Proper(h, call)
    case NewSpace => IsRoot(h, kernel)
    case CloneSpace(source, target) => IsRoot(h, source) && IsRoot(h, target)
    case Switch(root) => IsRoot(h, root)
    case TakeFrame => true
    case GiveFrame(page) => 0 < page < Pmm.MAX_PAGES && page !in h.tables
  }

  /** Every request is granted when its turn comes. */
  ghost predicate AllGranted(h: Heap, kernel: nat, rs: seq<Request<U64>>)
    decreases rs
  {
    rs == [] ||
    (&& Granted(h, kernel, rs[0])
     && (HeapValid(h) && Allowed(h, ToDeed(kernel, rs[0])) ==>
           match Do(h, ToDeed(kernel, rs[0]))
           case None => true
           case Some(g) => AllGranted(g, kernel, rs[1..])))
  }

  lemma GrantedIsAllowed(m: Manager, r: Request<U64>)
    requires m.Valid() && Granted(m.heap, m.kernelPd / 4096, r)
    ensures HeapValid(m.heap) && Allowed(m.heap, ToDeed(m.kernelPd / 4096, r))
  {
  }

  method Serve(m: Manager, r: Request<U64>) returns (ok: bool)
    requires m.Valid() && m.kernelPd % 4096 == 0 && Granted(m.heap, m.kernelPd / 4096, r)
    modifies m`heap, m.mem, m.pmm.bitmap
    ensures HeapValid(old(m.heap)) && Allowed(old(m.heap), ToDeed(m.kernelPd / 4096, r))
    ensures Do(old(m.heap), ToDeed(m.kernelPd / 4096, r)) == if ok then Some(m.heap) else None
    ensures ok ==> m.Valid()
  {
    hide HeapValid, Map, Unmap, CreateSpace, Fits, PathFrom, NoLarge;
    GrantedIsAllowed(m, r);
    match r
    case Change(call) =>
      ok := PerformOne(m, call);
    case NewSpace =>
      var root := m.CreateAddressSpace();
      ok := root.Some?;
    case CloneSpace(source, target) =>
      RootsInWindow(m, source);
      RootsInWindow(m, target);
      m.CloneAddressSpace(4096 * source, 4096 * target);
      ok := true;
    case Switch(_) =>
      ok := true;
    case TakeFrame =>
      var frame := m.TakeFrame();
      ok := frame.Some?;
    case GiveFrame(page) =>
      m.GiveFrame(4096 * page, page);
      ok := true;
  }

  /** After any requests, whoever made them, every root that exists then translates every address as
      the flat meaning of the history says; false is a panic. */
  method ServeAll(m: Manager, rs: seq<Request<U64>>) returns (ok: bool, ghost heaps: seq<Heap>)
    requires m.Valid() && m.kernelPd % 4096 == 0 && AllGranted(m.heap, m.kernelPd / 4096, rs)
    modifies m`heap, m.mem, m.pmm.bitmap
    ensures ok ==> m.Valid() && History(heaps, ToDeeds(m.kernelPd / 4096, rs))
    ensures ok ==> heaps[0] == old(m.heap) && heaps[|rs|] == m.heap
    ensures ok ==> forall x: nat, v: U64 :: IsRoot(m.heap, x) ==>
      PhysAddr(m.mem[..], 4096 * x, v) ==
        Physical(Meaning(heaps, ToDeeds(m.kernelPd / 4096, rs), |rs|, x, PathOf(v)), v)
  {
    hide HeapValid, Describes, Granted, Allowed, Do, History, Meaning, ToDeed;
    ghost var kernel, start := m.kernelPd / 4096, m.heap;
    heaps := [m.heap];
    HistoryStarts(m);
    var k := 0;
    while k < |rs|
      invariant 0 <= k <= |rs| && m.Valid() && AllGranted(m.heap, kernel, rs[k..])
      invariant History(heaps, ToDeeds(kernel, rs[..k])) && |heaps| == k + 1 && heaps[0] == start && heaps[k] == m.heap
      decreases |rs| - k
    {
      var r := rs[k];
      assert rs[k..][0] == r && rs[k..][1..] == rs[k + 1..];
      ok := Serve(m, r);
      if !ok {
        return;
      }
      HistoryGrows(heaps, ToDeeds(kernel, rs[..k]), ToDeed(kernel, r), m.heap);
      assert ToDeeds(kernel, rs[..k + 1]) == ToDeeds(kernel, rs[..k]) + [ToDeed(kernel, r)];
      heaps, k := heaps + [m.heap], k + 1;
    }
    assert rs[..k] == rs;
    forall x: nat, v: U64 | IsRoot(m.heap, x)
      ensures PhysAddr(m.mem[..], 4096 * x, v) ==
        Physical(Meaning(heaps, ToDeeds(m.kernelPd / 4096, rs), |rs|, x, PathOf(v)), v)
    {
      PhysAddrIsWalk(m.heap, m.mem[..], m.pmm.Free(), x, v);
      FullAtStart(m, heaps, ToDeeds(kernel, rs), PathOf(v));
      HistoryTranslates(heaps, ToDeeds(kernel, rs), |rs|, x, PathOf(v));
    }
    return true, heaps;
  }

  lemma HistoryStarts(m: Manager)
    requires m.Valid()
    ensures History([m.heap], ToDeeds(m.kernelPd / 4096, []))
  {
  }

  lemma FullAtStart(m: Manager, heaps: seq<Heap>, deeds: seq<Deed>, path: seq<nat>)
    requires m.Valid() && History(heaps, deeds) && heaps[|deeds|] == m.heap
    requires |path| == 4 && forall k :: 0 <= k < |path| ==> path[k] < 512
    ensures FullPath(heaps[0], path)
  {
    ShapeStays(heaps, deeds, |deeds|);
  }
}
