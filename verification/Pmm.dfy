/** The physical page allocator: one bit per 4 KB page, packed eight to a byte,
    a set bit meaning "in use" (kernel/mm/pmm.c). */
module Pmm {
  import opened Wrappers
  import opened Bits

  const MAX_PAGES: nat := 4096

  /** The least element of a set of pages. */
  ghost function Lowest(s: set<nat>): (p: nat)
    requires s != {}
    ensures p in s && forall q :: q in s ==> p <= q
  {
    var x :| x in s;
    if s == {x} then x
    else
      var rest := s - {x};
      assert forall q :: q in s ==> q == x || q in rest;
      var y := Lowest(rest);
      if x < y then x else y
  }

  // ---------- the packed bitmap ----------

  predicate Marked(bitmap: seq<Byte>, i: nat)
    requires i / 8 < |bitmap|
  {
    Bit(bitmap[i / 8], i % 8)
  }

  ghost function Unmarked(bitmap: seq<Byte>): set<nat>
    requires |bitmap| == MAX_PAGES / 8
  {
    set i | 0 <= i < MAX_PAGES && !Marked(bitmap, i)
  }

  lemma FreeInWindow(bitmap: seq<Byte>)
    requires |bitmap| == MAX_PAGES / 8
    ensures forall p :: p in Unmarked(bitmap) ==> p < MAX_PAGES
  {
  }

  /** BIT_SET sets its own bit and no other. */
  lemma SetOneBit(bitmap: seq<Byte>, i: nat, byte: Byte)
    requires |bitmap| == MAX_PAGES / 8 && i < MAX_PAGES
    requires byte == Or(bitmap[i / 8], Pow2(i % 8))
    ensures Unmarked(bitmap[i / 8 := byte]) == Unmarked(bitmap) - {i}
  {
    forall j: nat | j < MAX_PAGES
      ensures Marked(bitmap[i / 8 := byte], j) <==> Marked(bitmap, j) || j == i
    {
      BitOfOr(bitmap[i / 8], Pow2(i % 8), j % 8);
      BitOfPow2(i % 8, j % 8);
    }
  }

  /** Masking with the complement of one bit clears that bit and no other. */
  lemma ClearOneBit(bitmap: seq<Byte>, i: nat, byte: Byte)
    requires |bitmap| == MAX_PAGES / 8 && i < MAX_PAGES
    requires Pow2(i % 8) < 0x100 && byte == And(bitmap[i / 8], 0xFF - Pow2(i % 8))
    ensures Unmarked(bitmap[i / 8 := byte]) == Unmarked(bitmap) + {i}
  {
    forall j: nat | j < MAX_PAGES
      ensures Marked(bitmap[i / 8 := byte], j) <==> Marked(bitmap, j) && j != i
    {
      ClearedBit(bitmap[i / 8], i % 8, j % 8);
    }
  }

  lemma ClearedBit(byte: Byte, i: nat, j: nat)
    requires i < 8 && j < 8 && Pow2(i) < 0x100
    ensures Bit(And(byte, 0xFF - Pow2(i)), j) <==> Bit(byte, j) && j != i
  {
    hide Bit, And;
    assert Pow2(8) == 0x100;
    BitOfAnd(byte, 0xFF - Pow2(i), j);
    BitOfNot(Pow2(i), 8, j);
    BitOfPow2(i, j);
  }

  // ---------- the boot memory map ----------

  /** A parsed Multiboot memory-map entry; kind 1 is available memory. */
  datatype Range = Range(base: U64, length: U64, kind: U32)
  datatype Module = Module(start: U32, end: U32)
  /** What the loader passed: a map or a module list whose flag bit is clear is empty here. */
  datatype BootInfo = BootInfo(ranges: seq<Range>, modules: seq<Module>)

  /** Pages of an available range; both ends are rounded down and the end is a 64-bit sum. */
  predicate InRange(r: Range, page: nat) {
    r.kind == 1 && r.base / 4096 <= page < (r.base + r.length) % 0x1_0000_0000_0000_0000 / 4096
  }

  /** Pages of a module, the end rounded up with a 32-bit sum. */
  predicate InModule(m: Module, page: nat) {
    m.start / 4096 <= page < (m.end + 4095) % 0x1_0000_0000 / 4096
  }

  predicate InSomeRange(rs: seq<Range>, page: nat) {
    exists k :: 0 <= k < |rs| && InRange(rs[k], page)
  }

  predicate InSomeModule(ms: seq<Module>, page: nat) {
    exists k :: 0 <= k < |ms| && InModule(ms[k], page)
  }

  /** Pages kept from clients: the low 1 MB, the kernel image, the modules. */
  predicate Reserved(info: BootInfo, kernelEnd: nat, page: nat) {
    page < 0x100 || 0x100 <= page < (kernelEnd + 4095) / 4096 || InSomeModule(info.modules, page)
  }

  ghost function FreeAtBoot(info: BootInfo, kernelEnd: nat): set<nat> {
    set i | 0 <= i < MAX_PAGES && InSomeRange(info.ranges, i) && !Reserved(info, kernelEnd, i)
  }

  // ---------- the same in bytes ----------

  /** Modules whose end still rounds up in 32 bits. */
  predicate EndsInWord(m: Module) { m.end + 4095 < 0x1_0000_0000 }

  /** The byte at address a belongs to the low 1 MB, the kernel image or a module. */
  predicate Owned(info: BootInfo, kernelEnd: nat, a: nat) {
    a < 0x10_0000 || 0x10_0000 <= a < kernelEnd
    || exists m :: m in info.modules && EndsInWord(m) && m.start <= a < m.end
  }

  /** An available range ends behind the page's last byte and begins at or before that byte. */
  predicate Offered(info: BootInfo, page: nat) {
    exists r :: r in info.ranges && r.kind == 1 && r.base <= 4096 * page + 4095
                && 4096 * page + 4096 <= (r.base + r.length) % 0x1_0000_0000_0000_0000
  }

  /** The page of a byte that has an owner is not free at boot. */
  lemma FreeHoldsNothing(info: BootInfo, kernelEnd: nat, a: nat)
    requires Owned(info, kernelEnd, a)
    ensures a / 4096 !in FreeAtBoot(info, kernelEnd)
  {
    if a >= 0x10_0000 && a >= kernelEnd {
      var m :| m in info.modules && EndsInWord(m) && m.start <= a < m.end;
      var k :| 0 <= k < |info.modules| && info.modules[k] == m;
      assert InModule(info.modules[k], a / 4096);
    }
  }

  /** Every offered page without such a byte is: all that may be given away is. */
  lemma FreeAtBootInBytes(info: BootInfo, kernelEnd: nat, page: nat)
    requires forall m :: m in info.modules ==> m.start < m.end
    ensures page in FreeAtBoot(info, kernelEnd) <==>
      page < 4096 && Offered(info, page) && forall a: nat :: a / 4096 == page ==> !Owned(info, kernelEnd, a)
  {
    OfferedIsInRange(info, page);
    if page in FreeAtBoot(info, kernelEnd) {
      forall a: nat | a / 4096 == page
        ensures !Owned(info, kernelEnd, a)
      {
        if Owned(info, kernelEnd, a) { FreeHoldsNothing(info, kernelEnd, a); }
      }
    } else if page < 4096 && Offered(info, page) {
      var a := ReservedByte(info, kernelEnd, page);
    }
  }

  lemma OfferedIsInRange(info: BootInfo, page: nat)
    ensures Offered(info, page) <==> InSomeRange(info.ranges, page)
  {
    if Offered(info, page) {
      var r :| r in info.ranges && r.kind == 1 && r.base <= 4096 * page + 4095
               && 4096 * page + 4096 <= (r.base + r.length) % 0x1_0000_0000_0000_0000;
      var k :| 0 <= k < |info.ranges| && info.ranges[k] == r;
      assert InRange(info.ranges[k], page);
    }
    if InSomeRange(info.ranges, page) {
      var k :| 0 <= k < |info.ranges| && InRange(info.ranges[k], page);
      assert info.ranges[k] in info.ranges;
    }
  }

  /** A reserved page holds a byte that has an owner. */
  lemma ReservedByte(info: BootInfo, kernelEnd: nat, page: nat) returns (a: nat)
    requires Reserved(info, kernelEnd, page) && forall m :: m in info.modules ==> m.start < m.end
    ensures a / 4096 == page && Owned(info, kernelEnd, a)
  {
    if page < 0x100 || page < (kernelEnd + 4095) / 4096 {
      a := 4096 * page;
    } else {
      var k :| 0 <= k < |info.modules| && InModule(info.modules[k], page);
      var m := info.modules[k];
      assert m in info.modules && EndsInWord(m);
      a := if m.start <= 4096 * page then 4096 * page else m.start;
    }
  }

  /** All of a module is reserved exactly when its end rounds up without wrapping. */
  lemma ModuleIsReserved(m: Module)
    requires m.start < m.end
    ensures (forall a: nat :: m.start <= a < m.end ==> InModule(m, a / 4096)) <==> EndsInWord(m)
  {
    if !EndsInWord(m) {
      assert m.start <= m.start < m.end && !InModule(m, m.start / 4096);
    }
  }

  /** A module without bytes reserves nothing, or the page it would begin inside of. */
  lemma EmptyModule(m: Module, page: nat)
    requires m.start >= m.end
    ensures InModule(m, page) <==> EndsInWord(m) && page == m.start / 4096 && 4096 * page < m.end
  {
  }

  /** The loop over a range frees only available memory exactly when the range begins on a page
      border or frees nothing. */
  lemma RangeIsAvailable(r: Range)
    requires r.kind == 1 && r.base + r.length < 0x1_0000_0000_0000_0000
    ensures (forall page: nat :: InRange(r, page) ==> r.base <= 4096 * page && 4096 * page + 4096 <= r.base + r.length)
       <==> r.base % 4096 == 0 || r.base / 4096 == (r.base + r.length) / 4096
  {
    if r.base / 4096 < (r.base + r.length) / 4096 {
      assert InRange(r, r.base / 4096);
    }
  }

  /** Half a page of something else is given away with a range that begins at 0x20_0800. */
  lemma PartialPage()
    ensures var info := BootInfo([Range(0x20_0800, 0x2000, 1)], []);
      0x200 in FreeAtBoot(info, 0x18_0000) && forall r :: r in info.ranges ==> 4096 * 0x200 < r.base
  {
    var info := BootInfo([Range(0x20_0800, 0x2000, 1)], []);
    assert InRange(info.ranges[0], 0x200);
  }

  // ---------- runs of pages ----------

  predicate RunAt(free: set<nat>, start: nat, count: nat) {
    forall j :: start <= j < start + count ==> j in free
  }

  /** start begins the lowest run of count free pages. */
  ghost predicate FirstRun(free: set<nat>, start: nat, count: nat) {
    RunAt(free, start, count) && forall s: nat :: s < start ==> !RunAt(free, s, count)
  }

  predicate Within(lo: nat, j: nat, hi: nat) {
    lo <= j < hi
  }

  /** The pages lo, ..., hi - 1. */
  function Span(lo: nat, hi: nat): set<nat> {
    set j | 0 <= j < hi && Within(lo, j, hi)
  }

  class Allocator {
    const bitmap: array<Byte>

    ghost predicate Valid() {
      bitmap.Length == MAX_PAGES / 8
    }

    ghost function Free(): set<nat>
      requires Valid()
      reads bitmap
    {
      Unmarked(bitmap[..])
    }

    /** The allocator over a freshly booted machine. */
    constructor (info: BootInfo, kernelEnd: U32)
      requires kernelEnd + 4095 < 0x1_0000_0000
      ensures Valid() && fresh(bitmap)
      ensures Free() == FreeAtBoot(info, kernelEnd)
    {
      bitmap := new Byte[512];
      new;
      Init(info, kernelEnd);
    }

    method Test(i: nat) returns (used: bool)
      requires Valid() && i < MAX_PAGES
      ensures used == (i !in Free())
    {
      AndPow2(bitmap[i / 8], i % 8);
      used := And(bitmap[i / 8], Pow2(i % 8)) != 0;
    }

    method Mark(i: nat)
      requires Valid() && i < MAX_PAGES
      modifies bitmap
      ensures Free() == old(Free()) - {i}
    {
      assert Pow2(8) == 0x100;
      Pow2Below(i % 8, 8);
      OrBelow(bitmap[i / 8], Pow2(i % 8), 8);
      ghost var before := bitmap[..];
      bitmap[i / 8] := Or(bitmap[i / 8], Pow2(i % 8));
      SetOneBit(before, i, bitmap[i / 8]);
      assert bitmap[..] == before[i / 8 := bitmap[i / 8]];
    }

    method Unmark(i: nat)
      requires Valid() && i < MAX_PAGES
      modifies bitmap
      ensures Free() == old(Free()) + {i}
    {
      assert Pow2(8) == 0x100;
      Pow2Below(i % 8, 8);
      ghost var before := bitmap[..];
      bitmap[i / 8] := And(bitmap[i / 8], 0xFF - Pow2(i % 8));
      ClearOneBit(before, i, bitmap[i / 8]);
      assert bitmap[..] == before[i / 8 := bitmap[i / 8]];
    }

    method MarkFrom(lo: nat, hi: nat)
      requires Valid()
      modifies bitmap
      ensures Free() == old(Free()) - Span(lo, hi)
    {
      var i := lo;
      while i < hi && i < MAX_PAGES
        invariant lo <= i && (i <= hi || i == lo)
        invariant Free() == old(Free()) - Span(lo, i)
      {
        Mark(i);
        i := i + 1;
      }
    }

    method UnmarkFrom(lo: nat, hi: nat)
      requires Valid()
      modifies bitmap
      ensures Free() == old(Free()) + (Span(lo, hi) * Span(0, MAX_PAGES))
    {
      var i := lo;
      while i < hi && i < MAX_PAGES
        invariant lo <= i && (i <= hi || i == lo)
        invariant Free() == old(Free()) + (Span(lo, i) * Span(0, MAX_PAGES))
      {
        Unmark(i);
        i := i + 1;
      }
    }

    /** A page is free after boot exactly when some available range holds it and nothing reserves it. */
    method Init(info: BootInfo, kernelEnd: U32)
      requires Valid() && kernelEnd + 4095 < 0x1_0000_0000
      modifies bitmap
      ensures Free() == FreeAtBoot(info, kernelEnd)
    {
      MarkAll();
      var k := 0;
      while k < |info.ranges|
        invariant k <= |info.ranges|
        invariant Free() == set i | 0 <= i < MAX_PAGES && InSomeRange(info.ranges[..k], i)
      {
        var r := info.ranges[k];
        if r.kind == 1 {
          UnmarkFrom(r.base / 4096, (r.base + r.length) % 0x1_0000_0000_0000_0000 / 4096);
        }
        SomeRangeStep(info.ranges, k);
        k := k + 1;
      }
      assert info.ranges[..k] == info.ranges;
      MarkFrom(0, 0x100);
      MarkFrom(0x10_0000 / 4096, (kernelEnd + 4095) / 4096);
      ghost var kept := Free();
      k := 0;
      while k < |info.modules|
        invariant k <= |info.modules|
        invariant Free() == set i | i in kept && !InSomeModule(info.modules[..k], i)
      {
        var m := info.modules[k];
        MarkFrom(m.start / 4096, (m.end + 4095) % 0x1_0000_0000 / 4096);
        SomeModuleStep(info.modules, k);
        k := k + 1;
      }
      assert info.modules[..k] == info.modules;
    }

    method MarkAll()
      requires Valid()
      modifies bitmap
      ensures Free() == {}
    {
      var i := 0;
      while i < MAX_PAGES / 8
        invariant i <= MAX_PAGES / 8
        invariant forall j :: 0 <= j < i ==> bitmap[j] == 0xFF
      {
        bitmap[i] := 0xFF;
        i := i + 1;
      }
      forall j: nat | j < MAX_PAGES
        ensures Marked(bitmap[..], j)
      {
        assert Pow2(8) == 0x100;
        NoBits(j % 8);
        BitOfNot(0, 8, j % 8);
      }
    }

    /** pmm_alloc: the lowest free page, or a panic when there is none. */
    method Alloc() returns (address: Option<nat>)
      requires Valid()
      modifies bitmap
      ensures old(Free()) == {} ==> address == None && Free() == {}
      ensures old(Free()) != {} ==>
        address == Some(4096 * Lowest(old(Free()))) && Free() == old(Free()) - {Lowest(old(Free()))}
    {
      var i := 0;
      while i < MAX_PAGES
        invariant i <= MAX_PAGES && Free() == old(Free())
        invariant forall j :: j in Free() ==> i <= j
      {
        var used := Test(i);
        if !used {
          Mark(i);
          assert i == Lowest(old(Free()));
          return Some(i * 4096);
        }
        i := i + 1;
      }
      return None;
    }

    /** pmm_free: the page number is the address shifted down and cut to 32 bits. */
    method FreePage(address: U64)
      requires Valid()
      modifies bitmap
      ensures var page := address / 4096 % 0x1_0000_0000;
        Free() == if page < MAX_PAGES then old(Free()) + {page} else old(Free())
    {
      var page := address / 4096 % 0x1_0000_0000;
      if page < MAX_PAGES {
        Unmark(page);
      }
    }

    /** pmm_alloc_pages: takes the lowest run of count free pages, and panics only when there is none. */
    method AllocPages(count: int) returns (address: Option<nat>)
      requires Valid()
      modifies bitmap
      ensures address.Some? ==>
        count >= 1 &&
        exists start :: address == Some(4096 * start) && FirstRun(old(Free()), start, count) &&
                        Free() == old(Free()) - Span(start, start + count)
      ensures address == None ==>
        Free() == old(Free()) && (count >= 1 ==> forall s: nat :: !RunAt(old(Free()), s, count))
    {
      hide Unmarked, Marked, Span;
      var start := -1;
      var found := 0;
      var i := 0;
      while i < MAX_PAGES
        invariant 0 <= i <= MAX_PAGES && Free() == old(Free())
        invariant start == -1 ==> found == 0 && (i > 0 ==> i - 1 !in Free())
        invariant start != -1 ==> 0 <= start < i && found == i - start && RunAt(Free(), start, found)
        invariant start > 0 ==> start - 1 !in Free()
        invariant count >= 1 ==> found < count
        invariant count >= 1 ==> forall s: nat :: s + count <= i ==> !RunAt(Free(), s, count)
      {
        var used := Test(i);
        if !used {
          if start == -1 {
            start := i;
          }
          found := found + 1;
          if found == count {
            assert FirstRun(old(Free()), start, count);
            MarkFrom(start, start + count);
            return Some(start * 4096);
          }
          if i + 1 >= count >= 1 { assert i + 1 - count <= start - 1 < i + 1; }
        } else {
          start := -1;
          found := 0;
          if i + 1 >= count >= 1 { assert i + 1 - count <= i < i + 1; }
        }
        i := i + 1;
      }
      FreeInWindow(bitmap[..]);
      forall s: nat | count >= 1
        ensures !RunAt(old(Free()), s, count)
      {
        if s + count > i { assert s + count - 1 !in Free(); }
      }
      return None;
    }
  }

  lemma SomeRangeStep(rs: seq<Range>, k: nat)
    requires k < |rs|
    ensures forall i: nat :: InSomeRange(rs[..k + 1], i) <==> InSomeRange(rs[..k], i) || InRange(rs[k], i)
  {
    assert forall j :: 0 <= j < k ==> rs[..k + 1][j] == rs[..k][j];
    assert rs[..k + 1][k] == rs[k];
  }

  lemma SomeModuleStep(ms: seq<Module>, k: nat)
    requires k < |ms|
    ensures forall i: nat :: InSomeModule(ms[..k + 1], i) <==> InSomeModule(ms[..k], i) || InModule(ms[k], i)
  {
    assert forall j :: 0 <= j < k ==> ms[..k + 1][j] == ms[..k][j];
    assert ms[..k + 1][k] == ms[k];
  }

  // ---------- clients of the allocator ----------

  /** The three calls a client makes; GiveBack names a page number. */
  datatype Call = TakePage | TakeRun(count: int) | GiveBack(page: nat)
  datatype Pool = Pool(free: set<nat>, held: set<nat>)

  /** The pages a call hands to its client, or None when it panics. */
  ghost function Grant(free: set<nat>, call: Call): Option<set<nat>> {
    match call
    case TakePage => if free == {} then None else Some({Lowest(free)})
    case TakeRun(count) =>
      if count >= 1 && exists s: nat :: FirstRun(free, s, count)
      then var s: nat :| FirstRun(free, s, count); Some(Span(s, s + count))
      else None
    case GiveBack(_) => Some({})
  }

  ghost function Serve(pool: Pool, call: Call): Option<Pool> {
    match Grant(pool.free, call)
    case None => None
    case Some(pages) =>
      if call.GiveBack? then Some(Pool(pool.free + {call.page}, pool.held - {call.page}))
      else Some(Pool(pool.free - pages, pool.held + pages))
  }

  /** A run without a panic whose clients give back only pages they hold. */
  ghost predicate Run(pools: seq<Pool>, calls: seq<Call>) {
    && |pools| == |calls| + 1
    && forall i :: 0 <= i < |calls| ==>
         && (calls[i].GiveBack? ==> calls[i].page in pools[i].held)
         && Serve(pools[i], calls[i]) == Some(pools[i + 1])
  }

  lemma GrantsAreFree(free: set<nat>, call: Call)
    ensures Grant(free, call).Some? ==> Grant(free, call).value <= free
  {
    if call.TakeRun? && Grant(free, call).Some? {
      var s: nat :| FirstRun(free, s, call.count) && Grant(free, call).value == Span(s, s + call.count);
    }
  }

  /** Free and held pages stay disjoint and together constant through a run. */
  lemma {:induction false} RunConserves(pools: seq<Pool>, calls: seq<Call>, i: nat)
    requires Run(pools, calls) && i <= |calls|
    requires pools[0].free !! pools[0].held
    ensures pools[i].free !! pools[i].held
    ensures pools[i].free + pools[i].held == pools[0].free + pools[0].held
  {
    if i > 0 {
      RunConserves(pools, calls, i - 1);
      GrantsAreFree(pools[i - 1].free, calls[i - 1]);
    }
  }

  /** From boot, a client is handed only pages of offered ranges that nobody holds and in which no
      byte belongs to the low 1 MB, the kernel image or a module. */
  lemma GrantsAreExclusive(info: BootInfo, kernelEnd: nat, pools: seq<Pool>, calls: seq<Call>, i: nat)
    requires Run(pools, calls) && i < |calls|
    requires pools[0] == Pool(FreeAtBoot(info, kernelEnd), {})
    ensures Grant(pools[i].free, calls[i]).Some?
    ensures forall p :: p in Grant(pools[i].free, calls[i]).value ==>
      p !in pools[i].held && Offered(info, p) && forall a: nat :: Owned(info, kernelEnd, a) ==> a / 4096 != p
    ensures |pools[i].free| + |pools[i].held| == |FreeAtBoot(info, kernelEnd)|
  {
    hide FreeAtBoot, Grant, Owned, Offered;
    FreeAtBootUnowned(info, kernelEnd);
    RunConserves(pools, calls, i);
    GrantsAreFree(pools[i].free, calls[i]);
    assert Serve(pools[i], calls[i]) == Some(pools[i + 1]);
    assert pools[i].free + pools[i].held == FreeAtBoot(info, kernelEnd);
    DisjointSizes(pools[i].free, pools[i].held);
  }

  lemma FirstRunUnique(free: set<nat>, s: nat, t: nat, count: nat)
    requires FirstRun(free, s, count) && FirstRun(free, t, count)
    ensures s == t
  {
  }

  lemma GrantsRun(free: set<nat>, start: nat, count: nat)
    requires count >= 1 && FirstRun(free, start, count)
    ensures Grant(free, TakeRun(count)) == Some(Span(start, start + count))
  {
    var s: nat :| FirstRun(free, s, count) && Grant(free, TakeRun(count)) == Some(Span(s, s + count));
    FirstRunUnique(free, s, start, count);
  }

  /** The allocator serves a call exactly as the pool of its free pages and the held ones does. */
  method PerformOne(a: Allocator, held: set<nat>, call: Call) returns (ok: bool, left: set<nat>)
    requires a.Valid() && (call.GiveBack? ==> call.page in held && call.page < MAX_PAGES)
    modifies a.bitmap
    ensures a.Valid()
    ensures Serve(Pool(old(a.Free()), held), call) == if ok then Some(Pool(a.Free(), left)) else None
    ensures !ok ==> a.Free() == old(a.Free())
  {
    hide RunAt, Unmarked;
    ghost var free := a.Free();
    match call
    case TakePage =>
      var address := a.Alloc();
      if address == None {
        return false, held;
      }
      return true, held + {address.value / 4096};
    case TakeRun(count) =>
      var address := a.AllocPages(count);
      if address == None {
        return false, held;
      }
      var start := address.value / 4096;
      GrantsRun(free, start, count);
      return true, held + Span(start, start + count);
    case GiveBack(page) =>
      a.FreePage(4096 * page);
      return true, held - {page};
  }

  /** From boot on, any list of calls makes such a run, up to the first panic or the first page
      given back that is not held. */
  method Perform(info: BootInfo, kernelEnd: U32, calls: seq<Call>)
    returns (a: Allocator, n: nat, ghost pools: seq<Pool>)
    requires kernelEnd + 4095 < 0x1_0000_0000
    ensures n <= |calls| && Run(pools, calls[..n])
    ensures pools[0] == Pool(FreeAtBoot(info, kernelEnd), {})
    ensures a.Valid() && pools[n].free == a.Free()
    ensures n < |calls| ==>
      Serve(pools[n], calls[n]) == None || (calls[n].GiveBack? && calls[n].page !in pools[n].held)
  {
    hide FreeAtBoot, Serve;
    a := new Allocator(info, kernelEnd);
    var held: set<nat> := {};
    n, pools := 0, [Pool(a.Free(), held)];
    BootInWindow(info, kernelEnd);
    while n < |calls|
      invariant 0 <= n <= |calls| && a.Valid() && fresh(a.bitmap) && Run(pools, calls[..n])
      invariant pools[0] == Pool(FreeAtBoot(info, kernelEnd), {}) && pools[n] == Pool(a.Free(), held)
    {
      RunConserves(pools, calls[..n], n);
      if calls[n].GiveBack? && calls[n].page !in held {
        return;
      }
      assert forall p :: p in held ==> p in pools[n].free + pools[n].held;
      var ok, left := PerformOne(a, held, calls[n]);
      if !ok {
        return;
      }
      RunGrows(pools, calls, n, Pool(a.Free(), left));
      held, pools, n := left, pools + [Pool(a.Free(), left)], n + 1;
    }
  }

  lemma RunGrows(pools: seq<Pool>, calls: seq<Call>, n: nat, next: Pool)
    requires n < |calls| && Run(pools, calls[..n]) && Serve(pools[n], calls[n]) == Some(next)
    requires calls[n].GiveBack? ==> calls[n].page in pools[n].held
    ensures Run(pools + [next], calls[..n + 1])
  {
    hide Serve;
  }

  lemma BootInWindow(info: BootInfo, kernelEnd: nat)
    ensures forall p :: p in FreeAtBoot(info, kernelEnd) ==> p < MAX_PAGES
  {
  }

  lemma FreeAtBootUnowned(info: BootInfo, kernelEnd: nat)
    ensures forall p :: p in FreeAtBoot(info, kernelEnd) ==>
      Offered(info, p) && forall a: nat :: Owned(info, kernelEnd, a) ==> a / 4096 != p
  {
    forall p | p in FreeAtBoot(info, kernelEnd)
      ensures Offered(info, p) && forall a: nat :: Owned(info, kernelEnd, a) ==> a / 4096 != p
    {
      OfferedIsInRange(info, p);
      forall a: nat | Owned(info, kernelEnd, a)
        ensures a / 4096 != p
      {
        FreeHoldsNothing(info, kernelEnd, a);
      }
    }
  }

  lemma DisjointSizes(a: set<nat>, b: set<nat>)
    requires a !! b
    ensures |a + b| == |a| + |b|
  {
  }
}
