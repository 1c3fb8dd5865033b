/** The tables the 64-bit boot code builds before it turns paging on (kernel/x64/boot.s). */
module BootX64 {
  import opened Wrappers
  import opened Bits
  import opened Forest
  import opened Histories
  import opened Calls
  import opened VmmX64
  import opened TranslationX64
  import Pmm

  /** An entry that maps 2 MB to themselves with all rights. */
  function LargeEntry(i: nat): nat {
    Or(0x20_0000 * i, 0x87)
  }

  function LinkEntry(page: U64): nat {
    Or(page, 0x07)
  }

  /** Three tables in a row, the last one full of 2 MB leaves. */
  ghost function BootHeap(a: nat, b: nat, c: nat, free: set<nat>): Heap {
    Heap(4, 512,
         map[a := Table(Root, EmptySlots(512)[0 := Next(b)]),
             b := Table(Below([0], b), EmptySlots(512)[0 := Next(c)]),
             c := Table(Below([0, 0], b), seq(512, i requires i >= 0 => Leaf(LargeEntry(i))))],
         free)
  }

  ghost predicate Placed(a: nat, b: nat, c: nat, free: set<nat>) {
    && 0 < a < Pmm.MAX_PAGES && 0 < b < Pmm.MAX_PAGES && 0 < c < Pmm.MAX_PAGES
    && a != b && a != c && b != c
    && free !! {0, a, b, c}
  }

  lemma BootBits()
    ensures And(0x07, PRESENT) == 1 && And(0x07, PAGE_SIZE_BIT) == 0 && And(0x07, ADDRESS) == 0
    ensures And(0x87, PRESENT) == 1 && And(0x87, PAGE_SIZE_BIT) == 0x80
  {
  }

  lemma LinkEntryDecodes(p: nat, depth: nat)
    requires p < Pmm.MAX_PAGES && depth < 3
    ensures LinkEntry(4096 * p) < 0x1_0000_0000_0000_0000 && Decode(depth, LinkEntry(4096 * p)) == Next(p)
    ensures And(LinkEntry(4096 * p), 7) == 7
  {
    hide And, Or;
    var a := 4096 * p;
    OrWord(a, 7);
    AddressBits(p);
    FlagBits(p);
    BootBits();
    OrZero(1);
    OrZero(0);
    OrZero(a);
    AndOverOr(a, 7, ADDRESS);
    AndOverOr(a, 7, PRESENT);
    AndOverOr(a, 7, PAGE_SIZE_BIT);
    AndOverOr(a, 7, 7);
    NoRights(p);
    AndSeven(7);
    OrZero(7);
  }

  lemma LargeParts(x: nat, a: nat)
    requires a == x / 0x20_0000
    ensures 0 <= x / 4096 - 512 * a < 512
  {
  }

  /** A mask that starts at bit 21. */
  lemma AndLarge(x: nat, a: nat, m: nat)
    requires a == x / 0x20_0000
    ensures And(x, 0x20_0000 * m) == 0x20_0000 * And(a, m)
  {
    hide And;
    LargeParts(x, a);
    var s := x / 4096 - 512 * a;
    var r1 := s / 64;
    var r0 := s - 64 * r1;
    AndPage(x, 512 * m);
    AndHigh6(8 * a + r1, r0, 8 * m);
    AndHigh3(a, r1, m);
  }

  lemma LargeEntryDecodes(i: nat)
    requires i < 512
    ensures LargeEntry(i) < 0x1_0000_0000_0000_0000 && Decode(2, LargeEntry(i)) == Leaf(LargeEntry(i))
    ensures And(LargeEntry(i), LARGE_ADDRESS) == 0x20_0000 * i
  {
    hide And, Or;
    var x := 0x20_0000 * i;
    OrWord(x, 0x87);
    BootBits();
    OrZero(1);
    OrZero(0x80);
    OrZero(x);
    FlagBits(512 * i);
    AndOverOr(x, 0x87, PRESENT);
    AndOverOr(x, 0x87, PAGE_SIZE_BIT);
    AndOverOr(x, 0x87, LARGE_ADDRESS);
    LargeBits(i);
  }

  /** The entry as a number: 2 MB at their own address, present, writable, for users, and large. */
  lemma LargeEntryIs(i: nat)
    requires i < 512
    ensures LargeEntry(i) == 0x20_0000 * i + 0x87 && And(LargeEntry(i), 7) == 7
  {
    hide And, Or;
    AndLarge(0x87, 0, i);
    AndZero(i);
    AndSymmetric(0x87, 0x20_0000 * i);
    OrDisjoint(0x20_0000 * i, 0x87);
    AndSeven(0x20_0000 * i + 0x87);
    SevenLeft(i);
  }

  lemma SevenLeft(i: nat)
    ensures (0x20_0000 * i + 0x87) % 8 == 7
  {
  }

  lemma LargeBits(i: nat)
    requires i < 512
    ensures And(0x20_0000 * i, LARGE_ADDRESS) == 0x20_0000 * i && And(0x87, LARGE_ADDRESS) == 0
  {
    hide And;
    Below31Bits(i);
    AndLarge(0x20_0000 * i, i, 0x7FFF_FFFF);
    AndLarge(0x87, 0, 0x7FFF_FFFF);
  }

  lemma Below31Bits(i: nat)
    requires i < 512
    ensures And(i, 0x7FFF_FFFF) == i && And(0, 0x7FFF_FFFF) == 0 && 0x20_0000 * i / 0x20_0000 == i
  {
    Pow2Values();
    assert Pow2(31) == 0x8000_0000 by { assert Pow2(32) == 2 * Pow2(31); }
    AndFull(i, 31);
  }

  /** The 2 MB page base joined with the offset. */
  lemma LargeOffset(i: nat, v: nat)
    ensures Or(0x20_0000 * i, And(v, 0x1F_FFFF)) == 0x20_0000 * i + v % 0x20_0000
  {
    hide And, Or;
    Low21Bits(v);
    var r := v % 0x20_0000;
    AndLarge(r, 0, i);
    AndZero(i);
    AndSymmetric(r, 0x20_0000 * i);
    OrDisjoint(0x20_0000 * i, r);
  }

  lemma Low21Bits(v: nat)
    ensures And(v, 0x1F_FFFF) == v % 0x20_0000
  {
    hide And;
    AndNineBits(v, 0xFFF);
    AndLow12(v / 0x200);
    JoinLow(v);
  }

  lemma JoinLow(v: nat)
    ensures 0x200 * (v / 0x200 % 0x1000) + v % 0x200 == v % 0x20_0000
  {
  }

  lemma AndZero(i: nat)
    ensures And(0, i) == 0
  {
  }

  /** The boot heap is a heap the manager accepts. */
  lemma BootHeapValid(a: nat, b: nat, c: nat, free: set<nat>)
    requires Placed(a, b, c, free)
    ensures HeapValid(BootHeap(a, b, c, free))
  {
    hide LargeEntry;
    var h := BootHeap(a, b, c, free);
    forall p, i | p in h.tables && 0 <= i < 512
      ensures SlotValid(h, p, i)
    {
    }
  }

  /** The words of the three tables. */
  ghost predicate BootWords(mem: seq<U64>, a: nat, b: nat, c: nat) {
    && |mem| == 0x20_0000 && a < Pmm.MAX_PAGES && b < Pmm.MAX_PAGES && c < Pmm.MAX_PAGES
    && (forall i :: 512 * a <= i < 512 * a + 512 ==> mem[i] == if i == 512 * a then LinkEntry(4096 * b) else 0)
    && (forall i :: 512 * b <= i < 512 * b + 512 ==> mem[i] == if i == 512 * b then LinkEntry(4096 * c) else 0)
    && (forall i :: 512 * c <= i < 512 * c + 512 ==> mem[i] == LargeEntry(i - 512 * c))
  }

  lemma BootWordsAt(mem: seq<U64>, a: nat, b: nat, c: nat, i: nat)
    requires BootWords(mem, a, b, c) && i < 512
    ensures |mem| == 0x20_0000
    ensures mem[512 * a + i] == if i == 0 then LinkEntry(4096 * b) else 0
    ensures mem[512 * b + i] == if i == 0 then LinkEntry(4096 * c) else 0
    ensures mem[512 * c + i] == LargeEntry(i)
  {
  }

  lemma BootDescribes(mem: seq<U64>, a: nat, b: nat, c: nat, free: set<nat>)
    requires Placed(a, b, c, free) && BootWords(mem, a, b, c)
    ensures Describes(BootHeap(a, b, c, free), mem, free)
  {
    hide LargeEntry, LinkEntry, BootWords, HeapValid;
    var h := BootHeap(a, b, c, free);
    BootHeapValid(a, b, c, free);
    LinkEntryDecodes(b, 0);
    LinkEntryDecodes(c, 1);
    BootWordsAt(mem, a, b, c, 0);
    forall p, i | p in h.tables && 0 <= i < 512
      ensures Agrees(h, mem, p, i)
    {
      BootWordsAt(mem, a, b, c, i);
      LargeEntryDecodes(i);
    }
  }

  /** setup_page_tables; the three tables lie in cleared memory. */
  method SetupPageTables(mem: array<U64>, pml4: U32, pdpt: U32, pd: U32, ghost a: nat, ghost b: nat, ghost c: nat,
                         ghost free: set<nat>)
    requires mem.Length == 0x20_0000 && Placed(a, b, c, free) && pml4 == 4096 * a && pdpt == 4096 * b && pd == 4096 * c
    requires forall i :: 512 * a <= i < 512 * a + 512 ==> mem[i] == 0
    requires forall i :: 512 * b <= i < 512 * b + 512 ==> mem[i] == 0
    modifies mem
    ensures Describes(BootHeap(a, b, c, free), mem[..], free)
    ensures forall i :: 0 <= i < mem.Length && i / 512 !in {a, b, c} ==> mem[i] == old(mem[i])
  {
    hide LargeEntry, LinkEntry, Describes, BootHeap, Decode;
    LinkEntryDecodes(b, 0);
    LinkEntryDecodes(c, 1);
    mem[pml4 / 8] := LinkEntry(pdpt);
    mem[pdpt / 8] := LinkEntry(pd);
    ghost var linked := mem[..];
    var i := 0;
    while i < 512
      invariant 0 <= i <= 512
      invariant forall k :: 512 * c <= k < 512 * c + i ==> mem[k] == LargeEntry(k - 512 * c)
      invariant forall k :: 0 <= k < mem.Length && !(512 * c <= k < 512 * c + 512) ==> mem[k] == linked[k]
    {
      LargeEntryDecodes(i);
      mem[pd / 8 + i] := LargeEntry(i);
      i := i + 1;
    }
    BootDescribes(mem[..], a, b, c, free);
  }

  /** The boot tables map the first gigabyte to itself with all rights, and nothing else. */
  lemma BootTranslates(mem: seq<U64>, a: nat, b: nat, c: nat, free: set<nat>, v: U64)
    requires Placed(a, b, c, free) && Describes(BootHeap(a, b, c, free), mem, free)
    ensures PhysAddr(mem, 4096 * a, v) == if PageNumber(v) < 0x4_0000 then v % 0x4000_0000 else 0
    ensures Rights(mem, 4096 * a, PathOf(v)) == if PageNumber(v) < 0x4_0000 then 7 else 0
  {
    hide Describes, PhysAddr, PathOf, BootHeap, Walk, And, Or, LargeEntry, PageNumber, LeafAt, Rights;
    RootIsBoot(a, b, c, free);
    FourLevels(BootHeap(a, b, c, free), mem, free);
    WholePath(BootHeap(a, b, c, free), a, v);
    LeafIsWalk(BootHeap(a, b, c, free), mem, free, a, PathOf(v));
    LargeEntryIs(PathOf(v)[2]);
    NoneLeft();
    PhysAddrIsWalk(BootHeap(a, b, c, free), mem, free, a, v);
    BootWalk(a, b, c, free, PathOf(v));
    BootAddress(v);
  }

  lemma RootIsBoot(a: nat, b: nat, c: nat, free: set<nat>)
    ensures Placed(a, b, c, free) ==> IsRoot(BootHeap(a, b, c, free), a)
  {
  }

  lemma BootWalk(a: nat, b: nat, c: nat, free: set<nat>, p: seq<nat>)
    requires Placed(a, b, c, free) && |p| == 4 && p[0] < 512 && p[1] < 512 && p[2] < 512
    ensures Walk(BootHeap(a, b, c, free), a, p) ==
      if p[0] == 0 && p[1] == 0 then Some(Hit(LargeEntry(p[2]), 1)) else None
  {
    hide LargeEntry;
    var h := BootHeap(a, b, c, free);
    var q, r := p[1..], p[1..][1..];
    assert q[0] == p[1] && r[0] == p[2];
    assert Walk(h, c, r) == Some(Hit(LargeEntry(p[2]), 1));
    assert Walk(h, b, q) == if p[1] == 0 then Walk(h, c, r) else None;
  }

  lemma BootAddress(v: U64)
    ensures var p := PathOf(v);
      && (p[0] == 0 && p[1] == 0 <==> PageNumber(v) < 0x4_0000)
      && Physical(Some(Hit(LargeEntry(p[2]), 1)), v) == 0x20_0000 * p[2] + v % 0x20_0000
      && (p[0] == 0 && p[1] == 0 ==> 0x20_0000 * p[2] + v % 0x20_0000 == v % 0x4000_0000)
  {
    hide LargeEntry, And, Or;
    var p := PathOf(v);
    PathDigits(v);
    LargeEntryDecodes(p[2]);
    LargeOffset(p[2], v);
    AndLow9(v / 0x20_0000);
  }

  // ---------- the identity map lasts ----------

  /** A run of proper calls on the boot tables keeps every address of the first gigabyte on itself. */
  lemma BootRunTranslates(mem: seq<U64>, a: nat, b: nat, c: nat, free: set<nat>, calls: seq<Call<U64>>,
                          g: Heap, after: seq<U64>, left: set<nat>, v: U64)
    requires Placed(a, b, c, free) && Describes(BootHeap(a, b, c, free), mem, free)
    requires forall call :: call in calls ==> Proper(BootHeap(a, b, c, free), call)
    requires Run(BootHeap(a, b, c, free), ToOps(calls)) == Some(g) && Describes(g, after, left)
    requires PageNumber(v) < 0x4_0000
    ensures PhysAddr(after, 4096 * a, v) == v % 0x4000_0000
  {
    hide Describes, PhysAddr, PathOf, BootHeap, Walk, And, Or, LargeEntry, PageNumber, Proper, Run, ToOps, NoLarge;
    RootIsBoot(a, b, c, free);
    BootTranslates(mem, a, b, c, free, v);
    BootWalk(a, b, c, free, PathOf(v));
    BootAddress(v);
    NoLargeIsShortHit(BootHeap(a, b, c, free), a, PathOf(v));
    LargeRunTranslates(BootHeap(a, b, c, free), mem, free, calls, g, after, left, a, v);
  }

  /** Whatever is mapped, created, cloned, taken or given back after boot: through every root the
      first gigabyte ends in the boot code's leaves. */
  lemma {:induction false} BootHistoryWalks(heaps: seq<Heap>, deeds: seq<Deed>, n: nat, a: nat, b: nat, c: nat,
                                            free: set<nat>, x: nat, path: seq<nat>)
    requires Placed(a, b, c, free) && History(heaps, deeds) && heaps[0] == BootHeap(a, b, c, free) && n <= |deeds|
    requires IsRoot(heaps[n], x) && FullPath(heaps[0], path) && path[0] == 0 && path[1] == 0
    ensures Walk(heaps[n], x, path) == Some(Hit(LargeEntry(path[2]), 1))
  {
    hide LargeEntry, Walk, NoLarge, HeapValid, Do;
    if n == 0 {
      RootOfBoot(a, b, c, free, x);
      BootWalk(a, b, c, free, path);
    } else {
      var f, d := heaps[n - 1], deeds[n - 1];
      ShapeStays(heaps, deeds, n - 1);
      DeedTranslates(f, d, heaps[n], x, path);
      BootHistoryWalks(heaps, deeds, n - 1, a, b, c, free, Origin(f, d, x, path), path);
      if d.Write? && Targets(f, x, path, d.op.root, d.op.path) {
        BootHistoryWalks(heaps, deeds, n - 1, a, b, c, free, d.op.root, path);
        NoLargeIsShortHit(f, d.op.root, path);
      }
    }
  }

  lemma RootOfBoot(a: nat, b: nat, c: nat, free: set<nat>, x: nat)
    requires IsRoot(BootHeap(a, b, c, free), x)
    ensures x == a && BootHeap(a, b, c, free).levels == 4 && BootHeap(a, b, c, free).width == 512
  {
  }

  lemma BootHistoryTranslates(heaps: seq<Heap>, deeds: seq<Deed>, a: nat, b: nat, c: nat, free: set<nat>,
                              mem: seq<U64>, left: set<nat>, x: nat, v: U64)
    requires Placed(a, b, c, free) && History(heaps, deeds) && heaps[0] == BootHeap(a, b, c, free)
    requires Describes(heaps[|deeds|], mem, left) && IsRoot(heaps[|deeds|], x) && PageNumber(v) < 0x4_0000
    ensures PhysAddr(mem, 4096 * x, v) == v % 0x4000_0000 && Rights(mem, 4096 * x, PathOf(v)) == 7
  {
    hide LargeEntry, And, Or, Walk, PhysAddr, PathOf, PageNumber, HeapValid, Agrees, LeafAt, Rights;
    FourLevels(heaps[|deeds|], mem, left);
    WholePath(heaps[|deeds|], x, v);
    LeafIsWalk(heaps[|deeds|], mem, left, x, PathOf(v));
    LargeEntryIs(PathOf(v)[2]);
    PhysAddrIsWalk(heaps[|deeds|], mem, left, x, v);
    BootAddress(v);
    BootHistoryWalks(heaps, deeds, |deeds|, a, b, c, free, x, PathOf(v));
  }

  /** So every page of the allocator's window, tables among them, is reached at its own address
      through every root: the code never loses its tables. */
  lemma BootWindowReached(heaps: seq<Heap>, deeds: seq<Deed>, a: nat, b: nat, c: nat, free: set<nat>,
                          mem: seq<U64>, left: set<nat>, x: nat, p: nat)
    requires Placed(a, b, c, free) && History(heaps, deeds) && heaps[0] == BootHeap(a, b, c, free)
    requires Describes(heaps[|deeds|], mem, left) && IsRoot(heaps[|deeds|], x)
    requires p in heaps[|deeds|].tables || p < Pmm.MAX_PAGES
    ensures p < Pmm.MAX_PAGES && PhysAddr(mem, 4096 * x, 4096 * p) == 4096 * p
  {
    hide PhysAddr, PageNumber, History, HeapValid, Agrees;
    PageOfTable(p);
    BootHistoryTranslates(heaps, deeds, a, b, c, free, mem, left, x, 4096 * p);
  }

  lemma PageOfTable(p: nat)
    requires p < Pmm.MAX_PAGES
    ensures PageNumber(4096 * p) < 0x4_0000
  {
  }
}
