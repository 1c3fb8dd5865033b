/** Four-level paging: tables of 512 64-bit words in physical memory
    (kernel/x64/vmm.c; Intel SDM volume 3A, section 4.5). */
module VmmX64 {
  import opened Wrappers
  import opened Bits
  import opened Forest
  import opened Supply
  import Pmm

  const PRESENT: U64 := 1
  const WRITE: U64 := 2
  const USER: U64 := 4
  const PAGE_SIZE_BIT: U64 := 0x80
  const ADDRESS: U64 := 0x000F_FFFF_FFFF_F000
  const LARGE_ADDRESS: U64 := 0x000F_FFFF_FFE0_0000

  // ---------- one entry ----------

  /** What the walks make of a word in a table of the given depth. */
  function Decode(depth: nat, entry: U64): Slot {
    if And(entry, PRESENT) == 0 then Absent
    else if depth == 3 || (depth == 2 && And(entry, PAGE_SIZE_BIT) != 0) then Leaf(entry)
    else Next(And(entry, ADDRESS) / 4096)
  }

  /** The entry next_table writes for a fresh table. */
  function TableEntry(page: U64): nat {
    Or(Or(Or(page, PRESENT), WRITE), USER)
  }

  /** The entry vmm_map_page writes. */
  function PageEntry(phys: U64, flags: U64): nat {
    Or(Or(And(phys, ADDRESS), flags), PRESENT)
  }

  lemma OrWord(a: U64, b: U64)
    ensures Or(a, b) < 0x1_0000_0000_0000_0000
  {
    Pow2Values();
    OrBelow(a, b, 64);
  }

  lemma AndOrs(a: nat, b: nat, c: nat, m: nat)
    ensures And(Or(Or(a, b), c), m) == Or(Or(And(a, m), And(b, m)), And(c, m))
  {
    AndOverOr(Or(a, b), c, m);
    AndOverOr(a, b, m);
  }

  lemma Below40Bits(p: nat)
    requires p < 0x100_0000_0000
    ensures And(p, 0xFF_FFFF_FFFF) == p && 4096 * p / 4096 == p
  {
    Pow2Values();
    AndFull(p, 40);
  }

  lemma AddressBits(p: nat)
    requires p < 0x100_0000_0000
    ensures And(4096 * p, ADDRESS) == 4096 * p
  {
    hide And;
    Below40Bits(p);
    AndPage(4096 * p, 0xFF_FFFF_FFFF);
  }

  lemma AddressAligned(entry: U64)
    ensures And(entry, ADDRESS) % 4096 == 0
  {
    hide And;
    AndPage(entry, 0xFF_FFFF_FFFF);
  }

  lemma FlagBits(p: nat)
    ensures And(4096 * p, PRESENT) == 0 && And(4096 * p, PAGE_SIZE_BIT) == 0
  {
    hide And;
    AndDigit(2048 * p, 0, 0, 1);
    AndNothing(2048 * p);
    AndHigh6(64 * p, 0, 2);
    AndDigit(32 * p, 0, 1, 0);
    AndDigit(16 * p, 0, 0, 1);
    AndNothing(16 * p);
  }

  lemma TableEntryDecodes(p: nat, depth: nat)
    requires p < Pmm.MAX_PAGES && depth < 3
    ensures TableEntry(4096 * p) < 0x1_0000_0000_0000_0000
    ensures Decode(depth, TableEntry(4096 * p)) == Next(p)
    ensures And(TableEntry(4096 * p), ADDRESS) == 4096 * p && And(TableEntry(4096 * p), 7) == 7
  {
    hide And, Or;
    var a := 4096 * p;
    OrWord(a, 1);
    OrWord(Or(a, 1), 2);
    OrWord(Or(Or(a, 1), 2), 4);
    AddressBits(p);
    FlagBits(p);
    RightsBits();
    OrZero(a);
    OrZero(1);
    OrZero(0);
    AndOrs(Or(a, 1), 2, 4, ADDRESS);
    AndOverOr(a, 1, ADDRESS);
    AndOrs(Or(a, 1), 2, 4, PRESENT);
    AndOverOr(a, 1, PRESENT);
    AndOrs(Or(a, 1), 2, 4, PAGE_SIZE_BIT);
    AndOverOr(a, 1, PAGE_SIZE_BIT);
    AndOrs(Or(a, 1), 2, 4, 7);
    AndOverOr(a, 1, 7);
    NoRights(p);
    AllRights();
  }

  lemma NoRights(p: nat)
    ensures And(4096 * p, 7) == 0
  {
    hide And;
    AndSeven(4096 * p);
  }

  lemma AllRights()
    ensures And(1, 7) == 1 && And(2, 7) == 2 && And(4, 7) == 4 && Or(Or(Or(0, 1), 2), 4) == 7
  {
  }

  lemma RightsBits()
    ensures And(1, ADDRESS) == 0 && And(2, ADDRESS) == 0 && And(4, ADDRESS) == 0
    ensures And(1, PRESENT) == 1 && And(2, PRESENT) == 0 && And(4, PRESENT) == 0
    ensures And(1, PAGE_SIZE_BIT) == 0 && And(2, PAGE_SIZE_BIT) == 0 && And(4, PAGE_SIZE_BIT) == 0
  {
  }

  lemma OrZero(x: nat)
    ensures Or(x, 0) == x && Or(0, x) == x
  {
  }

  lemma PageEntryDecodes(phys: U64, flags: U64)
    requires And(flags, ADDRESS) == 0
    ensures PageEntry(phys, flags) < 0x1_0000_0000_0000_0000
    ensures Decode(3, PageEntry(phys, flags)) == Leaf(PageEntry(phys, flags))
    ensures And(PageEntry(phys, flags), ADDRESS) == And(phys, ADDRESS)
  {
    var a := And(phys, ADDRESS);
    OrWord(a, flags);
    OrWord(Or(a, flags), 1);
    AndOrs(a, flags, 1, ADDRESS);
    AndTwice(phys, ADDRESS);
    AndOverOr(Or(a, flags), 1, PRESENT);
  }

  /** The entry a map writes, as a number: the page of phys, cut to 40 bits, and flags with the
      present bit set. */
  lemma PageEntryIs(phys: U64, flags: U64)
    requires And(flags, ADDRESS) == 0
    ensures PageEntry(phys, flags) == 4096 * (phys / 4096 % 0x100_0000_0000) + (flags - flags % 2 + 1)
  {
    hide And, Or;
    PageIs(phys);
    AndOutside(phys, flags, ADDRESS);
    OrDisjoint(And(phys, ADDRESS), flags);
    OrOne(And(phys, ADDRESS) + flags);
    EvenPage(phys / 4096 % 0x100_0000_0000, flags);
  }

  lemma PageIs(phys: U64)
    ensures And(phys, ADDRESS) == 4096 * (phys / 4096 % 0x100_0000_0000)
  {
    hide And;
    AndPage(phys, 0xFF_FFFF_FFFF);
    AndLow40(phys / 4096);
  }

  lemma EvenPage(n: nat, f: nat)
    ensures (4096 * n + f) % 2 == f % 2
  {
  }

  /** The rights of a mapped page are those of the call. */
  lemma PageEntryRights(phys: U64, flags: U64)
    requires And(flags, ADDRESS) == 0
    ensures And(PageEntry(phys, flags), 7) == Or(And(flags, 7), 1)
  {
    hide And, Or;
    var a := And(phys, ADDRESS);
    PageIs(phys);
    NoRights(phys / 4096 % 0x100_0000_0000);
    AndOrs(a, flags, 1, 7);
    AllRights();
    OrZero(And(flags, 7));
  }

  // ---------- addresses ----------

  /** The four table indices of a virtual address: nine bits each, from bit 39 down to bit 12. */
  function PathOf(virt: U64): (path: seq<nat>)
    ensures |path| == 4 && forall k :: 0 <= k < 4 ==> path[k] < 512
  {
    [And(virt / 0x80_0000_0000, 0x1FF), And(virt / 0x4000_0000, 0x1FF),
     And(virt / 0x20_0000, 0x1FF), And(virt / 0x1000, 0x1FF)]
  }

  /** Bits 12 to 47, the page an address lies in. */
  function PageNumber(virt: U64): nat {
    And(virt / 0x1000, 0xF_FFFF_FFFF)
  }

  lemma ShiftsNest(v: nat)
    ensures v / 0x20_0000 == v / 0x1000 / 512
    ensures v / 0x4000_0000 == v / 0x20_0000 / 512
    ensures v / 0x80_0000_0000 == v / 0x4000_0000 / 512
  {
  }

  lemma PathDigits(v: U64)
    ensures var p := PathOf(v);
      PageNumber(v) == 0x800_0000 * p[0] + 0x4_0000 * p[1] + 0x200 * p[2] + p[3]
  {
    hide And;
    ShiftsNest(v);
    AndNineBits(v / 0x1000, 0x7FF_FFFF);
    AndNineBits(v / 0x20_0000, 0x3_FFFF);
    AndNineBits(v / 0x4000_0000, 0x1FF);
    AndLow9(v / 0x20_0000);
    AndLow9(v / 0x4000_0000);
    AndLow9(v / 0x1000);
  }

  lemma PathIsPageNumber(v: U64, w: U64)
    ensures PathOf(v) == PathOf(w) <==> PageNumber(v) == PageNumber(w)
  {
    PathDigits(v);
    PathDigits(w);
    hide PathOf, PageNumber;
    var p, q := PathOf(v), PathOf(w);
    assert p == [p[0], p[1], p[2], p[3]] && q == [q[0], q[1], q[2], q[3]];
  }

  /** The address vmm_get_phys_addr builds from the entry that ends a walk; 0 is "not mapped". */
  function Physical(hit: Option<Hit>, virt: U64): nat {
    match hit
    case None => 0
    case Some(Hit(entry, below)) =>
      if below == 0 then Or(And(entry, ADDRESS), And(virt, 0xFFF))
      else Or(And(entry, LARGE_ADDRESS), And(virt, 0x1F_FFFF))
  }

  // ---------- memory ----------

  /** Word i of every table page decodes to slot i of that table, with all rights if it leads to
      another table, and no table page is free. */
  ghost predicate Describes(h: Heap, mem: seq<U64>, free: set<nat>) {
    && |mem| == 0x20_0000
    && HeapValid(h) && h.levels == 4 && h.width == 512 && h.free == free
    && (forall p :: p in h.tables ==> p < Pmm.MAX_PAGES)
    && (forall p, i :: p in h.tables && 0 <= i < 512 ==> Agrees(h, mem, p, i))
  }

  ghost predicate Agrees(h: Heap, mem: seq<U64>, p: nat, i: nat)
    requires p in h.tables && p < Pmm.MAX_PAGES && i < 512 && |mem| == 0x20_0000
  {
    && SlotAt(h, p, i) == Decode(Depth(h, p), mem[512 * p + i])
    && (SlotAt(h, p, i).Next? ==> And(mem[512 * p + i], 7) == 7)
  }

  /** An address of a root table. */
  ghost predicate RootAddress(h: Heap, pd: U64) {
    pd % 4096 == 0 && IsRoot(h, pd / 4096)
  }

  /** The words of page q changed to the given ones, no other word did. */
  ghost predicate PageSet(before: seq<U64>, after: seq<U64>, q: nat, words: seq<U64>) {
    && |before| == |after| == 0x20_0000 && q < Pmm.MAX_PAGES && |words| == 512
    && forall k :: 0 <= k < |after| ==>
         after[k] == if 512 * q <= k < 512 * q + 512 then words[k - 512 * q] else before[k]
  }

  lemma PageSetAt(before: seq<U64>, after: seq<U64>, q: nat, words: seq<U64>, k: nat)
    requires PageSet(before, after, q, words) && k < 0x20_0000
    ensures after[k] == if 512 * q <= k < 512 * q + 512 then words[k - 512 * q] else before[k]
  {
  }

  function Zeros(): (words: seq<U64>)
    ensures |words| == 512 && forall i :: 0 <= i < 512 ==> words[i] == 0
  {
    seq(512, _ => 0)
  }

  /** The words of page p. */
  function PageWords(mem: seq<U64>, p: nat): (words: seq<U64>)
    requires |mem| == 0x20_0000 && p < Pmm.MAX_PAGES
    ensures |words| == 512
  {
    mem[512 * p..512 * p + 512]
  }

  /** Filling a page and giving it that meaning in the heap keeps the description. */
  lemma DescribesPage(h: Heap, mem: seq<U64>, free: set<nat>, q: nat, table: Table,
                          words: seq<U64>, after: seq<U64>, left: set<nat>, g: Heap)
    requires Describes(h, mem, free) && q < Pmm.MAX_PAGES && PageSet(mem, after, q, words)
    requires |table.slots| == 512 &&
      forall i :: 0 <= i < 512 ==>
        table.slots[i] == Decode(|Position(table.tag)|, words[i]) && (table.slots[i].Next? ==> And(words[i], 7) == 7)
    requires g == h.(tables := h.tables[q := table], free := left) && HeapValid(g)
    ensures Describes(g, after, left)
  {
    hide Decode, SlotValid, HeapValid;
    forall x, i | x in g.tables && 0 <= i < 512
      ensures Agrees(g, after, x, i)
    {
      PageSetAt(mem, after, q, words, 512 * x + i);
      if x != q {
        assert Agrees(h, mem, x, i);
      }
    }
  }

  /** Writing one entry sets just that slot. */
  lemma DescribesSetSlot(h: Heap, mem: seq<U64>, free: set<nat>, p: nat, i: nat, entry: U64)
    requires Describes(h, mem, free) && p in h.tables && i < 512
    requires HeapValid(SetSlot(h, p, i, Decode(Depth(h, p), entry)))
    requires Decode(Depth(h, p), entry).Next? ==> And(entry, 7) == 7
    ensures Describes(SetSlot(h, p, i, Decode(Depth(h, p), entry)), mem[512 * p + i := entry], free)
  {
    var g, after := SetSlot(h, p, i, Decode(Depth(h, p), entry)), mem[512 * p + i := entry];
    assert |h.tables[p].slots| == 512;
    hide Decode, SlotValid, HeapValid;
    forall x, k | x in g.tables && 0 <= k < 512
      ensures Agrees(g, after, x, k)
    {
      assert Agrees(h, mem, x, k);
    }
  }

  /** Taking over another root's words takes over its slots. */
  lemma DescribesCopyRoot(h: Heap, mem: seq<U64>, free: set<nat>, p: nat, q: nat, after: seq<U64>)
    requires Describes(h, mem, free) && IsRoot(h, p) && IsRoot(h, q) && PageSet(mem, after, q, PageWords(mem, p))
    ensures Describes(CopyRoot(h, p, q), after, free)
  {
    CopyRootValid(h, p, q);
    var words := PageWords(mem, p);
    forall i | 0 <= i < 512
      ensures h.tables[p].slots[i] == Decode(0, words[i]) && (h.tables[p].slots[i].Next? ==> And(words[i], 7) == 7)
    {
      assert Agrees(h, mem, p, i);
    }
    DescribesPage(h, mem, free, q, h.tables[q].(slots := h.tables[p].slots), words, after, free, CopyRoot(h, p, q));
  }

  /** The present bit of an entry above the last level tells whether it leads on, and its
      address bits tell where. */
  lemma EntryLeadsOn(h: Heap, mem: seq<U64>, free: set<nat>, p: nat, i: nat)
    requires Describes(h, mem, free) && p in h.tables && i < 512
    requires Depth(h, p) < 3 && !SlotAt(h, p, i).Leaf?
    ensures match SlotAt(h, p, i)
      case Next(q) => And(mem[512 * p + i], PRESENT) != 0 && And(mem[512 * p + i], ADDRESS) == 4096 * q &&
                      q > 0 && q in h.tables && q < Pmm.MAX_PAGES
      case _ => And(mem[512 * p + i], PRESENT) == 0
  {
    assert Agrees(h, mem, p, i);
    assert SlotValid(h, p, i);
    AddressAligned(mem[512 * p + i]);
  }

  /** One level of the walk, on the words: an entry that is absent, ends the walk or leads on. */
  lemma WalkStep(h: Heap, mem: seq<U64>, free: set<nat>, p: nat, path: seq<nat>)
    requires Describes(h, mem, free) && PathFrom(h, p, path)
    ensures p < Pmm.MAX_PAGES && path[0] < 512
    ensures var entry := mem[512 * p + path[0]];
      if And(entry, PRESENT) == 0 then Walk(h, p, path) == None
      else if Depth(h, p) == 3 || (Depth(h, p) == 2 && And(entry, PAGE_SIZE_BIT) != 0)
        then Walk(h, p, path) == Some(Hit(entry, |path| - 1))
      else
        var q := And(entry, ADDRESS) / 4096;
        && And(entry, ADDRESS) == 4096 * q && PathFrom(h, q, path[1..]) && And(entry, 7) == 7
        && Walk(h, p, path) == Walk(h, q, path[1..])
  {
    assert Agrees(h, mem, p, path[0]);
    assert SlotValid(h, p, path[0]);
    AddressAligned(mem[512 * p + path[0]]);
  }

  lemma WordsOfPage(mem: seq<U64>, p: nat)
    requires |mem| == 0x20_0000 && p < Pmm.MAX_PAGES
    ensures forall i :: 0 <= i < 512 ==> PageWords(mem, p)[i] == mem[512 * p + i]
  {
  }

  lemma FreeDiffers(h: Heap, mem: seq<U64>, free: set<nat>, left: set<nat>)
    requires Describes(h, mem, free) && 0 !in left && left !! h.tables.Keys
    ensures Describes(h.(free := left), mem, left)
  {
    hide HeapValid, Decode, And;
    WithFree(h, left, 0, []);
    var g := h.(free := left);
    forall x, i | x in g.tables && 0 <= i < 512
      ensures Agrees(g, mem, x, i)
    {
      assert Agrees(h, mem, x, i);
    }
  }

  /** Word i of the table at an address; memory above the window reads as 0. */
  function Word(mem: seq<U64>, table: nat, i: nat): U64 {
    if table / 8 + i < |mem| then mem[table / 8 + i] else 0
  }

  // vmm_get_phys_addr over the words of memory, from the last level up.

  function PtAddress(mem: seq<U64>, table: nat, virt: U64): nat {
    var pte := Word(mem, table, And(virt / 0x1000, 0x1FF));
    if And(pte, PRESENT) == 0 then 0 else Or(And(pte, ADDRESS), And(virt, 0xFFF))
  }

  function PdAddress(mem: seq<U64>, table: nat, virt: U64): nat {
    var pde := Word(mem, table, And(virt / 0x20_0000, 0x1FF));
    if And(pde, PRESENT) == 0 then 0
    else if And(pde, PAGE_SIZE_BIT) != 0 then Or(And(pde, LARGE_ADDRESS), And(virt, 0x1F_FFFF))
    else PtAddress(mem, And(pde, ADDRESS), virt)
  }

  function PdptAddress(mem: seq<U64>, table: nat, virt: U64): nat {
    var pdpte := Word(mem, table, And(virt / 0x4000_0000, 0x1FF));
    if And(pdpte, PRESENT) == 0 then 0 else PdAddress(mem, And(pdpte, ADDRESS), virt)
  }

  function PhysAddr(mem: seq<U64>, root: nat, virt: U64): nat {
    var pml4e := Word(mem, root, And(virt / 0x80_0000_0000, 0x1FF));
    if And(pml4e, PRESENT) == 0 then 0 else PdptAddress(mem, And(pml4e, ADDRESS), virt)
  }

  lemma WordAt(mem: seq<U64>, p: nat, i: nat)
    requires |mem| == 0x20_0000 && p < Pmm.MAX_PAGES && i < 512
    ensures Word(mem, 4096 * p, i) == mem[512 * p + i]
  {
  }

  lemma PtAddressIsWalk(h: Heap, mem: seq<U64>, free: set<nat>, p: nat, virt: U64)
    requires Describes(h, mem, free) && PathFrom(h, p, PathOf(virt)[3..])
    ensures PtAddress(mem, 4096 * p, virt) == Physical(Walk(h, p, PathOf(virt)[3..]), virt)
  {
    hide And, Or, HeapValid, Walk, Word, Agrees;
    WalkStep(h, mem, free, p, PathOf(virt)[3..]);
    WordAt(mem, p, PathOf(virt)[3]);
  }

  lemma PdAddressIsWalk(h: Heap, mem: seq<U64>, free: set<nat>, p: nat, virt: U64)
    requires Describes(h, mem, free) && PathFrom(h, p, PathOf(virt)[2..])
    ensures PdAddress(mem, 4096 * p, virt) == Physical(Walk(h, p, PathOf(virt)[2..]), virt)
  {
    hide And, Or, HeapValid, PtAddress, Walk, Word, Agrees;
    var path := PathOf(virt)[2..];
    WalkStep(h, mem, free, p, path);
    WordAt(mem, p, path[0]);
    var pde := mem[512 * p + path[0]];
    if And(pde, PRESENT) != 0 && And(pde, PAGE_SIZE_BIT) == 0 {
      assert path[1..] == PathOf(virt)[3..];
      PtAddressIsWalk(h, mem, free, And(pde, ADDRESS) / 4096, virt);
    }
  }

  lemma PdptAddressIsWalk(h: Heap, mem: seq<U64>, free: set<nat>, p: nat, virt: U64)
    requires Describes(h, mem, free) && PathFrom(h, p, PathOf(virt)[1..])
    ensures PdptAddress(mem, 4096 * p, virt) == Physical(Walk(h, p, PathOf(virt)[1..]), virt)
  {
    hide And, Or, HeapValid, PdAddress, Walk, Word, Agrees;
    var path := PathOf(virt)[1..];
    WalkStep(h, mem, free, p, path);
    WordAt(mem, p, path[0]);
    var pdpte := mem[512 * p + path[0]];
    if And(pdpte, PRESENT) != 0 {
      assert path[1..] == PathOf(virt)[2..];
      PdAddressIsWalk(h, mem, free, And(pdpte, ADDRESS) / 4096, virt);
    }
  }

  /** The chain of reads computes the address the walk finds, and never leaves the window. */
  lemma PhysAddrIsWalk(h: Heap, mem: seq<U64>, free: set<nat>, p: nat, virt: U64)
    requires Describes(h, mem, free) && IsRoot(h, p)
    ensures PhysAddr(mem, 4096 * p, virt) == Physical(Walk(h, p, PathOf(virt)), virt)
  {
    hide And, Or, HeapValid, PdptAddress, Walk, Word, Agrees;
    var path := PathOf(virt);
    WalkStep(h, mem, free, p, path);
    WordAt(mem, p, path[0]);
    var pml4e := mem[512 * p + path[0]];
    if And(pml4e, PRESENT) != 0 {
      PdptAddressIsWalk(h, mem, free, And(pml4e, ADDRESS) / 4096, virt);
    }
  }

  // ---------- rights ----------

  /** The entry that ends a walk over the words, 0 when there is none. */
  function LeafAt(mem: seq<U64>, table: nat, path: seq<nat>): U64
    decreases |path|
  {
    if path == [] then 0
    else
      var entry := Word(mem, table, path[0]);
      if And(entry, PRESENT) == 0 then 0
      else if |path| == 1 || (|path| == 2 && And(entry, PAGE_SIZE_BIT) != 0) then entry
      else LeafAt(mem, And(entry, ADDRESS), path[1..])
  }

  /** What the processor allows there: the present, write and user bits that all levels have. */
  function Rights(mem: seq<U64>, table: nat, path: seq<nat>): nat
    decreases |path|
  {
    if path == [] then 0
    else
      var entry := Word(mem, table, path[0]);
      if And(entry, PRESENT) == 0 then 0
      else if |path| == 1 || (|path| == 2 && And(entry, PAGE_SIZE_BIT) != 0) then And(entry, 7)
      else And(And(entry, 7), Rights(mem, And(entry, ADDRESS), path[1..]))
  }

  /** The entries that lead on take no right away, so the one that ends the walk decides. */
  lemma {:induction false} LeafIsWalk(h: Heap, mem: seq<U64>, free: set<nat>, p: nat, path: seq<nat>)
    requires Describes(h, mem, free) && PathFrom(h, p, path)
    ensures LeafAt(mem, 4096 * p, path) == match Walk(h, p, path) case None => 0 case Some(Hit(e, _)) => e
    ensures Rights(mem, 4096 * p, path) == And(LeafAt(mem, 4096 * p, path), 7)
    decreases |path|
  {
    hide And, HeapValid, Walk, Word, Agrees, SlotValid;
    FourLevels(h, mem, free);
    WalkStep(h, mem, free, p, path);
    WordAt(mem, p, path[0]);
    var entry := mem[512 * p + path[0]];
    NoneLeft();
    if And(entry, PRESENT) != 0 && |path| > 1 && !(|path| == 2 && And(entry, PAGE_SIZE_BIT) != 0) {
      LeafIsWalk(h, mem, free, And(entry, ADDRESS) / 4096, path[1..]);
      RightsMeet(LeafAt(mem, And(entry, ADDRESS), path[1..]));
    }
  }

  lemma FourLevels(h: Heap, mem: seq<U64>, free: set<nat>)
    requires Describes(h, mem, free)
    ensures h.levels == 4 && h.width == 512 && HeapValid(h)
  {
  }

  lemma NoneLeft()
    ensures And(0, 7) == 0
  {
  }

  lemma RightsMeet(e: nat)
    ensures And(7, And(e, 7)) == And(e, 7)
  {
    hide And;
    AndTwice(e, 7);
    AndSymmetric(7, And(e, 7));
  }

  /** What a map does to the heap: a descent that fails or ends at a table, whose slot it sets. */
  lemma MapEffects(f: Heap, p: nat, virt: U64, phys: U64, flags: U64)
    requires HeapValid(f) && f.levels == 4 && f.width == 512 && IsRoot(f, p) && NoLarge(f, p, PathOf(virt))
    requires And(flags, ADDRESS) == 0
    ensures PathOf(virt)[3] == And(virt / 0x1000, 0x1FF) < 512
    ensures var path, entry := PathOf(virt), PageEntry(phys, flags);
      && entry < 0x1_0000_0000_0000_0000 && Decode(3, entry) == Leaf(entry)
      && (Map(f, p, path, entry) == None <==> |f.free| < Missing(f, p, path))
      && match Descend(f, p, path, true)
         case None => Map(f, p, path, entry) == None
         case Some((g, t)) =>
           && t in g.tables && Depth(g, t) == 3 && t != 0 && path[3] < |g.tables[t].slots|
           && Map(f, p, path, entry) == Some(SetSlot(g, t, path[3], Leaf(entry)))
           && HeapValid(SetSlot(g, t, path[3], Leaf(entry)))
  {
    hide HeapValid, NoLarge, Map, Descend, Missing, PageEntry, Decode, And;
    MapParts(f, p, PathOf(virt), PageEntry(phys, flags));
    MapNeeds(f, p, PathOf(virt), PageEntry(phys, flags));
    PageEntryDecodes(phys, flags);
  }

  /** After a map the entry in memory is the page of phys with every flag of the call, and the
      rights over all levels are those the call asked for. */
  lemma MappedInMemory(f: Heap, p: nat, virt: U64, phys: U64, flags: U64, g: Heap, mem: seq<U64>, free: set<nat>)
    requires HeapValid(f) && f.levels == 4 && f.width == 512 && IsRoot(f, p) && NoLarge(f, p, PathOf(virt))
    requires And(flags, ADDRESS) == 0 && Map(f, p, PathOf(virt), PageEntry(phys, flags)) == Some(g)
    requires Describes(g, mem, free)
    ensures LeafAt(mem, 4096 * p, PathOf(virt)) == 4096 * (phys / 4096 % 0x100_0000_0000) + (flags - flags % 2 + 1)
    ensures Rights(mem, 4096 * p, PathOf(virt)) == Or(And(flags, 7), 1)
  {
    hide HeapValid, NoLarge, Map, PageEntry, And, Or, LeafAt, Rights, PathOf, Walk;
    var entry := PageEntry(phys, flags);
    MapSpec(f, p, PathOf(virt), entry);
    WholePath(f, p, virt);
    WholePath(g, p, virt);
    MapTranslates(f, p, PathOf(virt), entry, p, PathOf(virt));
    LeafIsWalk(g, mem, free, p, PathOf(virt));
    PageEntryIs(phys, flags);
    PageEntryRights(phys, flags);
  }

  lemma WholePath(f: Heap, p: nat, virt: U64)
    requires f.levels == 4 && f.width == 512
    ensures IsRoot(f, p) ==> PathFrom(f, p, PathOf(virt)) && PathOf(virt) != []
  {
  }

  // ---------- the manager ----------

  class Manager {
    /** Physical memory up to 16 MB, the window of the allocator. */
    const mem: array<U64>
    const pmm: Pmm.Allocator
    var kernelPd: U64
    ghost var heap: Heap

    ghost predicate Valid()
      reads this, mem, pmm.bitmap
    {
      && pmm.Valid() && mem as object != pmm.bitmap as object
      && Describes(heap, mem[..], pmm.Free())
    }

    /** init_paging takes over the tables the boot code built. */
    constructor (mem: array<U64>, pmm: Pmm.Allocator, cr3: U64, ghost heap: Heap)
      requires pmm.Valid() && mem as object != pmm.bitmap as object
      requires Describes(heap, mem[..], pmm.Free())
      ensures Valid() && this.mem == mem && this.pmm == pmm && this.heap == heap && kernelPd == cr3
    {
      this.mem, this.pmm, this.kernelPd, this.heap := mem, pmm, cr3, heap;
    }

    method ClearPage(page: U64, ghost q: nat)
      requires page == 4096 * q && q < Pmm.MAX_PAGES && mem.Length == 0x20_0000
      modifies mem
      ensures PageSet(old(mem[..]), mem[..], q, Zeros())
    {
      var i := 0;
      while i < 512
        invariant i <= 512
        invariant forall k :: 0 <= k < mem.Length ==>
          mem[k] == if 512 * q <= k < 512 * q + i then 0 else old(mem[k])
      {
        mem[page / 8 + i] := 0;
        i := i + 1;
      }
    }

    /** Writes one entry whose slot is known to fit the heap. */
    method WriteEntry(table: U64, index: nat, entry: U64, ghost t: nat)
      requires Valid() && table == 4096 * t && t in heap.tables && index < 512
      requires HeapValid(SetSlot(heap, t, index, Decode(Depth(heap, t), entry)))
      requires Decode(Depth(heap, t), entry).Next? ==> And(entry, 7) == 7
      modifies this`heap, mem
      ensures Valid() && heap == SetSlot(old(heap), t, index, Decode(Depth(old(heap), t), entry))
    {
      ghost var before := mem[..];
      DescribesSetSlot(heap, before, pmm.Free(), t, index, entry);
      hide Decode, HeapValid;
      mem[table / 8 + index] := entry;
      assert mem[..] == before[512 * t + index := entry];
      heap := SetSlot(heap, t, index, Decode(Depth(heap, t), entry));
    }

    /** Takes a page from the allocator, clears it, and gives it the tag of its future place. */
    method FreshTable(ghost tag: Tag) returns (page: Option<U64>)
      requires Valid() && |Position(tag)| < 4 && (tag.Below? ==> tag.prefix != [])
      modifies this`heap, mem, pmm.bitmap
      ensures old(heap.free) == {} ==> page == None
      ensures old(heap.free) != {} ==>
        var q := Pmm.Lowest(old(heap.free));
        && Valid() && q < Pmm.MAX_PAGES && page == Some(4096 * q)
        && heap == NewTable(old(heap), q, Table(tag, EmptySlots(512)))
    {
      ghost var before, free := mem[..], pmm.Free();
      page := pmm.Alloc();
      if page == None {
        return;
      }
      ghost var q, table := Pmm.Lowest(free), Table(tag, EmptySlots(512));
      assert Decode(|Position(tag)|, 0) == Absent;
      NewTableValid(heap, q, table);
      hide Decode, HeapValid;
      ClearPage(page.value, q);
      DescribesPage(heap, before, free, q, table, Zeros(), mem[..], free - {q}, NewTable(heap, q, table));
      heap := NewTable(heap, q, table);
    }

    /** Gives an absent entry a cleared page, unless there is none left. */
    method FillEntry(table: U64, index: nat, ghost p: nat) returns (ok: bool)
      requires Valid() && table == 4096 * p && p in heap.tables && index < 512
      requires Depth(heap, p) < 3 && SlotAt(heap, p, index) == Absent
      modifies this`heap, mem, pmm.bitmap
      ensures ok ==> Valid()
      ensures match Extend(old(heap), p, index)
        case None => !ok
        case Some((g, q)) => ok && heap == g
    {
      ghost var f := heap;
      ghost var q := if f.free == {} then 0 else Pmm.Lowest(f.free);
      var page := FreshTable(ChildTag(heap.tables[p].tag, index, q));
      if page == None {
        return false;
      }
      AddChildValid(f, p, index, q);
      TableEntryDecodes(q, Depth(f, p));
      hide And, Or, Decode, TableEntry, HeapValid, Describes;
      WriteEntry(table, index, TableEntry(page.value), p);
      return true;
    }

    /** Follows one entry; with create, an absent entry first gets a cleared page.
        None is a panic, Some(0) is NULL. Ghost p is the table's page, q the next one's,
        and rest the indices still to come. */
    method NextTable(table: U64, index: nat, create: bool, ghost p: nat, ghost rest: seq<nat>)
      returns (next: Option<U64>, ghost q: nat)
      requires Valid() && table == 4096 * p && rest != []
      requires PathFrom(heap, p, [index] + rest) && NoLarge(heap, p, [index] + rest)
      modifies this`heap, mem, pmm.bitmap
      ensures next.Some? ==> Valid() && next.value == 4096 * q
      ensures next.Some? && q != 0 ==> PathFrom(heap, q, rest) && NoLarge(heap, q, rest)
      ensures Descend(old(heap), p, [index] + rest, create) ==
        if next == None then None
        else if q == 0 then Some((heap, 0))
        else Descend(heap, q, rest, create)
    {
      StepDown(heap, p, [index] + rest, create);
      assert ([index] + rest)[1..] == rest && table / 8 == 512 * p;
      EntryLeadsOn(heap, mem[..], pmm.Free(), p, index);
      hide Decode, HeapValid, AddChild, And, Descend, PathFrom, NoLarge, SlotValid;
      q := 0;
      if And(mem[table / 8 + index], PRESENT) == 0 {
        if !create {
          return Some(0), 0;
        }
        var ok := FillEntry(table, index, p);
        if !ok {
          return None, 0;
        }
        ExtendLeadsOn(old(heap), p, index);
        EntryLeadsOn(heap, mem[..], pmm.Free(), p, index);
      }
      next := Some(And(mem[table / 8 + index], ADDRESS));
      q := SlotAt(heap, p, index).page;
    }

    /** Walks three levels down to the last-level table of an address. */
    method PageTable(root: U64, virt: U64, create: bool) returns (table: Option<U64>, ghost t: nat)
      requires Valid() && RootAddress(heap, root) && NoLarge(heap, root / 4096, PathOf(virt))
      modifies this`heap, mem, pmm.bitmap
      ensures table.Some? ==> Valid() && table.value == 4096 * t
      ensures Descend(old(heap), root / 4096, PathOf(virt), create) ==
        if table == None then None else Some((heap, t))
    {
      var pml4Index := And(virt / 0x80_0000_0000, 0x1FF);
      var pdptIndex := And(virt / 0x4000_0000, 0x1FF);
      var pdIndex := And(virt / 0x20_0000, 0x1FF);
      ghost var last := [And(virt / 0x1000, 0x1FF)];
      ghost var lower := [pdIndex] + last;
      ghost var low := [pdptIndex] + lower;
      assert PathOf(virt) == [pml4Index] + low;
      assert PathFrom(heap, root / 4096, [pml4Index] + low) && root % 4096 == 0;
      hide *;
      table, t := NextTable(root, pml4Index, create, root / 4096, low);
      if table.Some? && table.value != 0 {
        table, t := NextTable(table.value, pdptIndex, create, t, lower);
        if table.Some? && table.value != 0 {
          table, t := NextTable(table.value, pdIndex, create, t, last);
          DescentEnds(heap, t, last, create);
        }
      }
    }

    /** vmm_map_page; false is a panic, and comes exactly when fewer pages are free than tables are
        missing on the path. */
    method MapPage(root: U64, virt: U64, phys: U64, flags: U64) returns (ok: bool)
      requires Valid() && RootAddress(heap, root) && NoLarge(heap, root / 4096, PathOf(virt))
      requires And(flags, ADDRESS) == 0
      modifies this`heap, mem, pmm.bitmap
      ensures ok <==> |old(heap.free)| >= Missing(old(heap), root / 4096, PathOf(virt))
      ensures ok ==> Valid()
      ensures match Map(old(heap), root / 4096, PathOf(virt), PageEntry(phys, flags))
        case None => !ok
        case Some(g) => ok && heap == g
      ensures ok ==>
        LeafAt(mem[..], root, PathOf(virt)) == 4096 * (phys / 4096 % 0x100_0000_0000) + (flags - flags % 2 + 1)
      ensures ok ==> Rights(mem[..], root, PathOf(virt)) == Or(And(flags, 7), 1)
    {
      hide And, Or, Decode, NoLarge, PathOf, Describes, Descend, Map, HeapValid, Missing, LeafAt, Rights, PageEntry;
      ghost var f, path := heap, PathOf(virt);
      FourLevels(f, mem[..], pmm.Free());
      MapEffects(f, root / 4096, virt, phys, flags);
      var table, t := PageTable(root, virt, true);
      if table == None {
        return false;
      }
      if table.value == 0 {
        return true;
      }
      var index := And(virt / 0x1000, 0x1FF);
      WriteEntry(table.value, index, PageEntry(phys, flags), t);
      MappedInMemory(f, root / 4096, virt, phys, flags, heap, mem[..], pmm.Free());
      return true;
    }

    method UnmapPage(root: U64, virt: U64)
      requires Valid() && RootAddress(heap, root) && NoLarge(heap, root / 4096, PathOf(virt))
      modifies this`heap, mem, pmm.bitmap
      ensures Valid() && heap == Unmap(old(heap), root / 4096, PathOf(virt))
    {
      ghost var path := PathOf(virt);
      UnmapParts(heap, root / 4096, path);
      assert Decode(3, 0) == Absent && path[|path| - 1] == And(virt / 0x1000, 0x1FF);
      assert heap.levels == 4;
      hide And, Or, Decode, NoLarge, PathOf, Describes, Descend, Unmap, HeapValid;
      var table, t := PageTable(root, virt, false);
      if table == None || table.value == 0 {
        return;
      }
      var index := And(virt / 0x1000, 0x1FF);
      WriteEntry(table.value, index, 0, t);
    }

    /** vmm_create_address_space: a cleared page filled from the kernel's top level; None is a panic. */
    method CreateAddressSpace() returns (root: Option<U64>)
      requires Valid() && RootAddress(heap, kernelPd)
      modifies this`heap, mem, pmm.bitmap
      ensures root.Some? ==> Valid()
      ensures match CreateSpace(old(heap), kernelPd / 4096)
        case None => root == None
        case Some((g, q)) => root == Some(4096 * q) && heap == g
    {
      ghost var f, k := heap, kernelPd / 4096;
      root := FreshTable(Root);
      if root == None {
        return;
      }
      ghost var q := Pmm.Lowest(f.free);
      ghost var before := mem[..];
      CopyTable(kernelPd, root.value, k, q);
      DescribesCopyRoot(heap, before, pmm.Free(), k, q, mem[..]);
      heap := CopyRoot(heap, k, q);
    }

    /** A client's own pmm_alloc: the frame is no longer among those the tables may grow into. */
    method TakeFrame() returns (frame: Option<U64>)
      requires Valid()
      modifies this`heap, pmm.bitmap
      ensures frame == None <==> old(heap.free) == {}
      ensures frame.Some? ==>
        var p := Pmm.Lowest(old(heap.free));
        && Valid() && frame == Some(4096 * p) && p < Pmm.MAX_PAGES
        && heap == old(heap).(free := old(heap).free - {p})
    {
      ghost var f := heap;
      frame := pmm.Alloc();
      if frame == None {
        return;
      }
      ghost var left := f.free - {Pmm.Lowest(f.free)};
      FreeDiffers(f, mem[..], f.free, left);
      heap := f.(free := left);
    }

    /** A client gives a frame back. */
    method GiveFrame(frame: U64, ghost p: nat)
      requires Valid() && frame == 4096 * p && 0 < p < Pmm.MAX_PAGES && p !in heap.tables
      modifies this`heap, pmm.bitmap
      ensures Valid() && heap == old(heap).(free := old(heap).free + {p})
    {
      ghost var f := heap;
      pmm.FreePage(frame);
      FreeDiffers(f, mem[..], f.free, f.free + {p});
      heap := f.(free := f.free + {p});
    }

    /** vmm_clone_address_space: the destination takes over the source's top level. */
    method CloneAddressSpace(source: U64, destination: U64)
      requires Valid() && RootAddress(heap, source) && RootAddress(heap, destination)
      modifies this`heap, mem
      ensures Valid() && heap == CopyRoot(old(heap), source / 4096, destination / 4096)
    {
      ghost var before, p, q := mem[..], source / 4096, destination / 4096;
      CopyTable(source, destination, p, q);
      DescribesCopyRoot(heap, before, pmm.Free(), p, q, mem[..]);
      heap := CopyRoot(heap, p, q);
    }

    /** The loop that copies 512 entries in place. */
    method CopyTable(from: U64, to: U64, ghost p: nat, ghost q: nat)
      requires mem.Length == 0x20_0000 && from == 4096 * p && to == 4096 * q
      requires p < Pmm.MAX_PAGES && q < Pmm.MAX_PAGES
      modifies mem
      ensures PageSet(old(mem[..]), mem[..], q, PageWords(old(mem[..]), p))
    {
      hide PageWords;
      ghost var before := mem[..];
      ghost var words := PageWords(before, p);
      WordsOfPage(before, p);
      var i := 0;
      while i < 512
        invariant i <= 512
        invariant forall k :: 0 <= k < 512 * q ==> mem[k] == before[k]
        invariant forall k :: 512 * q <= k < 512 * q + i ==> mem[k] == words[k - 512 * q]
        invariant forall k :: 512 * q + i <= k < mem.Length ==> mem[k] == before[k]
      {
        assert mem[512 * p + i] == words[i];
        mem[to / 8 + i] := mem[from / 8 + i];
        i := i + 1;
      }
    }
  }
}
