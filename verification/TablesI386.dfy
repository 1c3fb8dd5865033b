/** The words of two-level paging: a directory and tables of 1024 32-bit entries in physical
    memory, and what they stand for (kernel/i386/vmm.c; Intel SDM volume 3A, section 4.3). */
module TablesI386 {
  import opened Wrappers
  import opened Bits
  import opened Forest
  import opened Supply
  import Pmm

  const PRESENT: U32 := 1
  const WRITE: U32 := 2
  const USER: U32 := 4
  const ADDRESS: U32 := 0xFFFF_F000
  const FLAGS: U32 := 0xFFF

  // ---------- one entry ----------

  function Decode(depth: nat, entry: U32): Slot {
    if And(entry, PRESENT) == 0 then Absent
    else if depth == 1 then Leaf(entry)
    else Next(And(entry, ADDRESS) / 4096)
  }

  function TableEntry(page: U32): nat {
    Or(Or(Or(page, PRESENT), WRITE), USER)
  }

  function PageEntry(phys: U32, flags: U32): nat {
    Or(Or(And(phys, ADDRESS), flags), PRESENT)
  }

  /** The directory entry of a cloned table: its page with the flags of the original entry. */
  function CloneEntry(page: U32, entry: U32): nat {
    Or(page, And(entry, FLAGS))
  }

  lemma OrWord(a: U32, b: U32)
    ensures Or(a, b) < 0x1_0000_0000
  {
    Pow2Values();
    OrBelow(a, b, 32);
  }

  lemma AndOrs(a: nat, b: nat, c: nat, m: nat)
    ensures And(Or(Or(a, b), c), m) == Or(Or(And(a, m), And(b, m)), And(c, m))
  {
    AndOverOr(Or(a, b), c, m);
    AndOverOr(a, b, m);
  }

  lemma PageParts(n: nat, r: nat)
    requires r < 4096
    ensures (4096 * n + r) / 4096 == n && r / 4096 == 0
  {
  }

  lemma Below20Bits(n: nat)
    requires n < 0x10_0000
    ensures And(n, 0xF_FFFF) == n && And(0, 0xF_FFFF) == 0 && And(0, n) == 0
  {
    Pow2Values();
    AndFull(n, 20);
  }

  lemma AddressBits(p: nat)
    requires p < 0x10_0000
    ensures And(4096 * p, ADDRESS) == 4096 * p && And(4096 * p, PRESENT) == 0
  {
    hide And;
    Below20Bits(p);
    PageParts(p, 0);
    AndPage(4096 * p, 0xF_FFFF);
    AndDigit(2048 * p, 0, 0, 1);
    AndNothing(2048 * p);
  }

  lemma AddressAligned(entry: U32)
    ensures And(entry, ADDRESS) % 4096 == 0
  {
    hide And;
    AndPage(entry, 0xF_FFFF);
  }

  lemma TableEntryDecodes(p: nat)
    requires p < Pmm.MAX_PAGES
    ensures TableEntry(4096 * p) < 0x1_0000_0000 && And(TableEntry(4096 * p), PRESENT) != 0
    ensures And(TableEntry(4096 * p), 7) == 7
    ensures Decode(0, TableEntry(4096 * p)) == Next(p)
  {
    hide And, Or;
    RightsBits();
    RightsJoin(4096 * p);
    var a := 4096 * p;
    OrWord(a, 1);
    OrWord(Or(a, 1), 2);
    OrWord(Or(Or(a, 1), 2), 4);
    AddressBits(p);
    AndOrs(Or(a, 1), 2, 4, ADDRESS);
    AndOverOr(a, 1, ADDRESS);
    AndOrs(Or(a, 1), 2, 4, PRESENT);
    AndOverOr(a, 1, PRESENT);
    AndOrs(Or(a, 1), 2, 4, 7);
    AndOverOr(a, 1, 7);
    PageHasNoRights(p);
  }

  lemma RightsBits()
    ensures And(1, ADDRESS) == 0 && And(2, ADDRESS) == 0 && And(4, ADDRESS) == 0
    ensures And(1, PRESENT) == 1 && And(2, PRESENT) == 0 && And(4, PRESENT) == 0
    ensures And(1, 7) == 1 && And(2, 7) == 2 && And(4, 7) == 4
  {
  }

  lemma RightsJoin(x: nat)
    ensures Or(Or(Or(0, 1), 2), 4) == 7 && Or(Or(Or(0, 1), 0), 0) == 1 && Or(Or(Or(x, 0), 0), 0) == x
  {
  }

  lemma PageHasNoRights(p: nat)
    ensures And(4096 * p, 7) == 0
  {
    AndSeven(4096 * p);
  }

  lemma PageEntryDecodes(phys: U32, flags: U32)
    requires And(flags, ADDRESS) == 0
    ensures PageEntry(phys, flags) < 0x1_0000_0000
    ensures Decode(1, PageEntry(phys, flags)) == Leaf(PageEntry(phys, flags))
    ensures And(PageEntry(phys, flags), ADDRESS) == And(phys, ADDRESS) && And(PageEntry(phys, flags), PRESENT) != 0
  {
    var a := And(phys, ADDRESS);
    OrWord(a, flags);
    OrWord(Or(a, flags), 1);
    AndOrs(a, flags, 1, ADDRESS);
    AndTwice(phys, ADDRESS);
    AndOverOr(Or(a, flags), 1, PRESENT);
  }

  /** The entry a map writes, as a number: the page of phys, and flags with the present bit set. */
  lemma PageEntryIs(phys: U32, flags: U32)
    requires And(flags, ADDRESS) == 0
    ensures flags < 0x1000 && PageEntry(phys, flags) == phys - phys % 0x1000 + (flags - flags % 2 + 1)
  {
    hide And, Or;
    FlagsAreLow(flags);
    var n := phys / 4096;
    PageIs(phys);
    SplitParts(n, flags);
    OrOne(4096 * n + flags);
    EvenBase(n, flags);
  }

  /** Every flag of the call is in the entry, and the present bit. */
  lemma PageEntryFlags(phys: U32, flags: U32)
    requires And(flags, ADDRESS) == 0
    ensures And(PageEntry(phys, flags), FLAGS) == Or(And(flags, FLAGS), PRESENT)
    ensures And(PageEntry(phys, flags), 7) == Or(And(flags, 7), 1)
  {
    hide And, Or;
    FlagsAreLow(flags);
    PageEntryIs(phys, flags);
    AndLow12(PageEntry(phys, flags));
    AndLow12(flags);
    OrOne(And(flags, FLAGS));
    AndSeven(PageEntry(phys, flags));
    AndSeven(flags);
    OrOne(And(flags, 7));
    LowParts(phys, flags);
  }

  lemma LowParts(phys: nat, flags: nat)
    requires flags < 0x1000
    ensures (phys - phys % 0x1000 + (flags - flags % 2 + 1)) % 0x1000 == flags - flags % 2 + 1
    ensures (phys - phys % 0x1000 + (flags - flags % 2 + 1)) % 8 == flags % 8 - flags % 8 % 2 + 1
  {
    var f := flags - flags % 2 + 1;
    assert phys - phys % 0x1000 == 0x1000 * (phys / 0x1000);
    LowOf(phys / 0x1000, f);
    LowBit(flags);
  }

  lemma LowOf(n: nat, f: nat)
    requires f < 0x1000
    ensures (0x1000 * n + f) % 0x1000 == f && (0x1000 * n + f) % 8 == f % 8
  {
    assert 0x1000 * n + f == 8 * (0x200 * n + f / 8) + f % 8;
  }

  lemma LowBit(flags: nat)
    ensures flags < 0x1000 ==> flags - flags % 2 + 1 < 0x1000
    ensures (flags - flags % 2 + 1) % 8 == flags % 8 - flags % 8 % 2 + 1
  {
  }

  lemma EvenBase(n: nat, f: nat)
    ensures (4096 * n + f) % 2 == f % 2
  {
  }

  lemma PageIs(phys: U32)
    ensures And(phys, ADDRESS) == 4096 * (phys / 4096) == phys - phys % 0x1000 && phys / 4096 < 0x10_0000
  {
    hide And;
    AndPage(phys, 0xF_FFFF);
    Below20Bits(phys / 4096);
  }

  lemma FlagsAreLow(flags: U32)
    requires And(flags, ADDRESS) == 0
    ensures flags < 0x1000
  {
    hide And;
    PageIs(flags);
  }

  lemma SplitParts(n: nat, r: nat)
    requires n < 0x10_0000 && r < 4096
    ensures And(4096 * n + r, ADDRESS) == 4096 * n && And(r, ADDRESS) == 0
    ensures Or(4096 * n, r) == 4096 * n + r
  {
    hide And, Or;
    Below20Bits(n);
    PageParts(n, r);
    AndPage(4096 * n + r, 0xF_FFFF);
    AndPage(r, 0xF_FFFF);
    AndPage(r, n);
    AndSymmetric(4096 * n, r);
    OrDisjoint(4096 * n, r);
  }

  /** An address part and a flag part make up the whole word. */
  lemma SplitEntry(entry: U32)
    ensures Or(And(entry, ADDRESS), And(entry, FLAGS)) == entry
    ensures And(And(entry, FLAGS), ADDRESS) == 0 && And(And(entry, FLAGS), PRESENT) == And(entry, PRESENT)
  {
    hide And, Or;
    SplitParts(entry / 4096, entry % 4096);
    AndLow12(entry);
    FlagsKeepPresent(entry / 2, entry % 2);
  }

  lemma FlagsKeepPresent(a: nat, b: nat)
    requires b < 2
    ensures And(And(2 * a + b, FLAGS), PRESENT) == And(2 * a + b, PRESENT)
  {
    hide And;
    AndDigit(a, b, 0x7FF, 1);
    AndDigit(And(a, 0x7FF), b, 0, 1);
    AndDigit(a, b, 0, 1);
    AndNothing(a);
    AndNothing(And(a, 0x7FF));
  }

  lemma AndZero(m: nat)
    ensures And(0, m) == 0
  {
  }

  /** The copy's page and all twelve flag bits of the source's entry. */
  lemma CloneEntryIs(p: nat, entry: U32)
    requires p < Pmm.MAX_PAGES
    ensures CloneEntry(4096 * p, entry) == 4096 * p + entry % 4096
  {
    hide And, Or;
    AndLow12(entry);
    SplitParts(p, entry % 4096);
  }

  lemma CloneEntryDecodes(p: nat, entry: U32)
    requires p < Pmm.MAX_PAGES && And(entry, PRESENT) != 0
    ensures CloneEntry(4096 * p, entry) < 0x1_0000_0000 && And(CloneEntry(4096 * p, entry), PRESENT) != 0
    ensures CloneEntry(4096 * p, entry) == 4096 * p + entry % 4096
    ensures And(CloneEntry(4096 * p, entry), 7) == And(entry, 7)
    ensures Decode(0, CloneEntry(4096 * p, entry)) == Next(p)
  {
    CloneEntryIs(p, entry);
    SplitEntry(entry);
    AddressBits(p);
    OrWord(4096 * p, And(entry, FLAGS));
    AndOverOr(4096 * p, And(entry, FLAGS), ADDRESS);
    AndOverOr(4096 * p, And(entry, FLAGS), PRESENT);
    AndOverOr(4096 * p, And(entry, FLAGS), 7);
    PageHasNoRights(p);
    FlagsKeepRights(entry);
  }

  lemma FlagsKeepRights(entry: nat)
    ensures And(And(entry, FLAGS), 7) == And(entry, 7)
  {
    hide And;
    AndLow12(entry);
    AndSeven(entry);
    AndSeven(entry % 0x1000);
    ModEight(entry);
  }

  lemma ModEight(x: nat)
    ensures x % 0x1000 % 8 == x % 8
  {
  }

  // ---------- addresses ----------

  function PathOf(virt: U32): (path: seq<nat>)
    ensures |path| == 2 && forall k :: 0 <= k < 2 ==> path[k] < 1024
  {
    [virt / 0x40_0000, And(virt / 0x1000, 0x3FF)]
  }

  lemma PathIsPageNumber(v: U32, w: U32)
    ensures PathOf(v) == PathOf(w) <==> v / 0x1000 == w / 0x1000
  {
    AndLow10(v / 0x1000);
    AndLow10(w / 0x1000);
    hide And;
    assert v / 0x40_0000 == v / 0x1000 / 1024 && w / 0x40_0000 == w / 0x1000 / 1024;
  }

  /** The entry that stands for an address, flags and all; 0 when there is none. */
  function EntryOf(hit: Option<Hit>): nat {
    match hit
    case None => 0
    case Some(Hit(entry, _)) => entry
  }

  // ---------- memory ----------

  /** Word i of every table page decodes to slot i of that table, an entry that is not present is
      zero, one that leads on gives all rights, and no table page is free. */
  ghost predicate Describes(h: Heap, mem: seq<U32>, free: set<nat>) {
    && |mem| == 0x40_0000
    && HeapValid(h) && h.levels == 2 && h.width == 1024 && h.free == free
    && (forall p :: p in h.tables ==> p < Pmm.MAX_PAGES)
    && (forall p, i :: p in h.tables && 0 <= i < 1024 ==> Agrees(h, mem, p, i))
  }

  ghost predicate Agrees(h: Heap, mem: seq<U32>, p: nat, i: nat)
    requires p in h.tables && p < Pmm.MAX_PAGES && i < 1024 && |mem| == 0x40_0000
  {
    var entry := mem[1024 * p + i];
    && SlotAt(h, p, i) == Decode(Depth(h, p), entry) && (And(entry, PRESENT) == 0 ==> entry == 0)
    && (SlotAt(h, p, i).Next? ==> And(entry, 7) == 7)
  }

  ghost predicate RootAddress(h: Heap, pd: U32) {
    pd % 4096 == 0 && IsRoot(h, pd / 4096)
  }

  /** The words of page q changed to the given ones, no other word did. */
  ghost predicate PageSet(before: seq<U32>, after: seq<U32>, q: nat, words: seq<U32>) {
    && |before| == |after| == 0x40_0000 && q < Pmm.MAX_PAGES && |words| == 1024
    && forall k :: 0 <= k < |after| ==>
         after[k] == if 1024 * q <= k < 1024 * q + 1024 then words[k - 1024 * q] else before[k]
  }

  lemma PageSetAt(before: seq<U32>, after: seq<U32>, q: nat, words: seq<U32>, k: nat)
    requires PageSet(before, after, q, words) && k < 0x40_0000
    ensures after[k] == if 1024 * q <= k < 1024 * q + 1024 then words[k - 1024 * q] else before[k]
  {
  }

  /** The words a fresh table starts with stand for its slots. */
  ghost predicate SlotsOf(words: seq<U32>, depth: nat, slots: seq<Slot>) {
    && |words| == |slots| == 1024
    && forall i :: 0 <= i < 1024 ==>
         && slots[i] == Decode(depth, words[i]) && (And(words[i], PRESENT) == 0 ==> words[i] == 0)
         && (slots[i].Next? ==> And(words[i], 7) == 7)
  }

  function Zeros(): (words: seq<U32>)
    ensures |words| == 1024 && forall i :: 0 <= i < 1024 ==> words[i] == 0
  {
    seq(1024, _ => 0)
  }

  /** Filling a page and giving it that meaning in the heap keeps the description. */
  lemma DescribesPage(h: Heap, mem: seq<U32>, free: set<nat>, q: nat, table: Table,
                      words: seq<U32>, after: seq<U32>, left: set<nat>, g: Heap)
    requires Describes(h, mem, free) && q < Pmm.MAX_PAGES && PageSet(mem, after, q, words)
    requires SlotsOf(words, |Position(table.tag)|, table.slots)
    requires g == h.(tables := h.tables[q := table], free := left) && HeapValid(g)
    ensures Describes(g, after, left)
  {
    hide Decode, SlotValid, HeapValid, And;
    forall x, i | x in g.tables && 0 <= i < 1024
      ensures Agrees(g, after, x, i)
    {
      PageSetAt(mem, after, q, words, 1024 * x + i);
      if x != q {
        assert Agrees(h, mem, x, i);
      }
    }
  }

  /** Writing one entry sets just that slot. */
  lemma DescribesSetSlot(h: Heap, mem: seq<U32>, free: set<nat>, p: nat, i: nat, entry: U32)
    requires Describes(h, mem, free) && p in h.tables && i < 1024
    requires (And(entry, PRESENT) == 0 ==> entry == 0) && (Decode(Depth(h, p), entry).Next? ==> And(entry, 7) == 7)
    requires HeapValid(SetSlot(h, p, i, Decode(Depth(h, p), entry)))
    ensures Describes(SetSlot(h, p, i, Decode(Depth(h, p), entry)), mem[1024 * p + i := entry], free)
  {
    var g, after := SetSlot(h, p, i, Decode(Depth(h, p), entry)), mem[1024 * p + i := entry];
    assert |h.tables[p].slots| == 1024;
    hide Decode, SlotValid, HeapValid, And;
    forall x, k | x in g.tables && 0 <= k < 1024
      ensures Agrees(g, after, x, k)
    {
      assert Agrees(h, mem, x, k);
    }
  }

  /** The words of page p. */
  function PageWords(mem: seq<U32>, p: nat): (words: seq<U32>)
    requires |mem| == 0x40_0000 && p < Pmm.MAX_PAGES
    ensures |words| == 1024
  {
    mem[1024 * p..1024 * p + 1024]
  }

  lemma PageWordsFit(h: Heap, mem: seq<U32>, free: set<nat>, p: nat)
    requires Describes(h, mem, free) && p in h.tables
    ensures SlotsOf(PageWords(mem, p), Depth(h, p), h.tables[p].slots)
    ensures forall k :: 1024 * p <= k < 1024 * p + 1024 && And(mem[k], PRESENT) == 0 ==> mem[k] == 0
  {
    forall i | 0 <= i < 1024
      ensures PageWords(mem, p)[i] == mem[1024 * p + i] && Agrees(h, mem, p, i)
    {
    }
    forall k | 1024 * p <= k < 1024 * p + 1024
      ensures And(mem[k], PRESENT) == 0 ==> mem[k] == 0
    {
      assert Agrees(h, mem, p, k - 1024 * p);
    }
  }

  /** Taking over another root's words takes over its slots. */
  lemma DescribesCopyRoot(h: Heap, mem: seq<U32>, free: set<nat>, p: nat, q: nat, after: seq<U32>)
    requires Describes(h, mem, free) && IsRoot(h, p) && IsRoot(h, q) && PageSet(mem, after, q, PageWords(mem, p))
    ensures Describes(CopyRoot(h, p, q), after, free)
  {
    CopyRootValid(h, p, q);
    PageWordsFit(h, mem, free, p);
    DescribesPage(h, mem, free, q, h.tables[q].(slots := h.tables[p].slots), PageWords(mem, p), after, free,
                  CopyRoot(h, p, q));
  }

  /** A copied table has its place ready: the heap accepts it, and the directory entry after it. */
  lemma CloneTableFits(h: Heap, mem: seq<U32>, free: set<nat>, s: nat, d: nat, i: nat, t: nat, q: nat)
    requires Describes(h, mem, free) && CloneReady(h, s, d) && i < 1024 && SlotAt(h, s, i) == Next(t) && q in free
    ensures t in h.tables && t != q && SlotsOf(PageWords(mem, t), 1, h.tables[t].slots)
    ensures forall k :: 1024 * t <= k < 1024 * t + 1024 && And(mem[k], PRESENT) == 0 ==> mem[k] == 0
    ensures var g := NewTable(h, q, Table(Below([i], q), h.tables[t].slots));
      HeapValid(g) && HeapValid(SetSlot(g, d, i, Next(q)))
  {
    assert SlotValid(h, s, i);
    PageWordsFit(h, mem, free, t);
    forall k | 0 <= k < 1024
      ensures !h.tables[t].slots[k].Next?
    {
      assert SlotValid(h, t, k);
    }
    var table := Table(Below([i], q), h.tables[t].slots);
    NewTableValid(h, q, table);
    LinkValid(NewTable(h, q, table), d, i, q);
  }

  // ---------- the identity map of init_paging ----------

  /** The first n pages map to themselves, present, writable and for users; no other address is mapped. */
  ghost predicate Identity(h: Heap, r: nat, n: nat) {
    forall v: U32 :: Walk(h, r, PathOf(v)) ==
      if v / 0x1000 < n then Some(Hit(v - v % 0x1000 + 7, 0)) else None
  }

  lemma AllRights()
    ensures Or(Or(PRESENT, WRITE), USER) == 7 && And(7, ADDRESS) == 0
  {
  }

  /** The directory has a table for each 4 MB begun by the first n pages. */
  ghost predicate Tabled(h: Heap, r: nat, n: nat) {
    forall i :: 0 <= i < 1024 ==> (SlotAt(h, r, i).Next? <==> i < (n + 1023) / 1024)
  }

  lemma IdentityStart(h: Heap, r: nat)
    requires r in h.tables && forall i :: SlotAt(h, r, i) == Absent
    ensures Identity(h, r, 0) && Tabled(h, r, 0)
  {
  }

  lemma PageEntryOfPage(v: U32, n: nat)
    requires v / 0x1000 == n && n < 0x10_0000
    ensures PageEntry(0x1000 * n, 7) == v - v % 0x1000 + 7
  {
    hide And, Or;
    AllRights();
    PageEntryIs(0x1000 * n, 7);
  }

  /** Mapping page n to itself extends the identity map, and takes a page for every 1024th one. */
  lemma IdentityStep(h: Heap, mem: seq<U32>, free: set<nat>, r: nat, n: nat)
    requires Describes(h, mem, free) && IsRoot(h, r) && n < 0x1000 && Identity(h, r, n) && Tabled(h, r, n)
    ensures NoLarge(h, r, PathOf(0x1000 * n)) && Missing(h, r, PathOf(0x1000 * n)) == if n % 1024 == 0 then 1 else 0
    ensures Map(h, r, PathOf(0x1000 * n), PageEntry(0x1000 * n, 7)).Some? ==>
      var g := Map(h, r, PathOf(0x1000 * n), PageEntry(0x1000 * n, 7)).value;
      IsRoot(g, r) && Identity(g, r, n + 1) && Tabled(g, r, n + 1)
  {
    hide Identity, Tabled, PageEntry;
    var path, entry := PathOf(0x1000 * n), PageEntry(0x1000 * n, 7);
    NoLargeHere(h, r, path) by { EntryLeadsOn(h, mem, free, r, path[0]); }
    MissingHere(h, r, n);
    if Map(h, r, path, entry).Some? {
      MapSpec(h, r, path, entry);
      IdentityGrows(h, r, n, path, entry);
      TabledGrows(h, r, n, path, entry);
    }
  }

  lemma MissingHere(h: Heap, r: nat, n: nat)
    requires n < 0x1000 && Tabled(h, r, n)
    ensures PathOf(0x1000 * n)[0] == n / 1024
    ensures Missing(h, r, PathOf(0x1000 * n)) == if n % 1024 == 0 then 1 else 0
  {
  }

  lemma IdentityGrows(h: Heap, r: nat, n: nat, path: seq<nat>, entry: nat)
    requires HeapValid(h) && h.levels == 2 && h.width == 1024 && IsRoot(h, r) && n < 0x1000 && Identity(h, r, n)
    requires path == PathOf(0x1000 * n) && entry == PageEntry(0x1000 * n, 7)
    requires NoLarge(h, r, path) && Map(h, r, path, entry).Some?
    ensures Identity(Map(h, r, path, entry).value, r, n + 1)
  {
    hide PageEntry, Map, NoLarge, HeapValid, PathOf;
    var g := Map(h, r, path, entry).value;
    forall v: U32
      ensures Walk(g, r, PathOf(v)) == if v / 0x1000 < n + 1 then Some(Hit(v - v % 0x1000 + 7, 0)) else None
    {
      MapTranslates(h, r, path, entry, r, PathOf(v));
      PathIsPageNumber(v, 0x1000 * n);
      if v / 0x1000 == n { PageEntryOfPage(v, n); }
    }
  }

  lemma TabledGrows(h: Heap, r: nat, n: nat, path: seq<nat>, entry: nat)
    requires HeapValid(h) && h.levels == 2 && h.width == 1024 && IsRoot(h, r) && n < 0x1000 && Tabled(h, r, n)
    requires PathFrom(h, r, path) && path[0] == n / 1024
    requires NoLarge(h, r, path) && Map(h, r, path, entry).Some?
    ensures Tabled(Map(h, r, path, entry).value, r, n + 1)
  {
    hide Map, NoLarge, HeapValid;
    MapSpec(h, r, path, entry);
    MapTranslates(h, r, path, entry, r, path);
    var g := Map(h, r, path, entry).value;
    assert SlotAt(g, r, path[0]).Next?;
    forall i | 0 <= i < 1024
      ensures SlotAt(g, r, i).Next? <==> i < (n + 1 + 1023) / 1024
    {
      if i != path[0] { assert SlotAt(g, r, i) == SlotAt(h, r, i); }
    }
  }

  /** The present bit of a directory entry tells whether it leads on, and its address bits where. */
  lemma EntryLeadsOn(h: Heap, mem: seq<U32>, free: set<nat>, p: nat, i: nat)
    requires Describes(h, mem, free) && IsRoot(h, p) && i < 1024
    ensures match SlotAt(h, p, i)
      case Next(q) => And(mem[1024 * p + i], PRESENT) != 0 && And(mem[1024 * p + i], ADDRESS) == 4096 * q &&
                      And(mem[1024 * p + i], 7) == 7 && q > 0 && q in h.tables && q < Pmm.MAX_PAGES && Depth(h, q) == 1
      case Absent => mem[1024 * p + i] == 0
      case Leaf(_) => false
  {
    assert Agrees(h, mem, p, i);
    assert SlotValid(h, p, i);
    AddressAligned(mem[1024 * p + i]);
  }

  /** A directory entry never ends a walk. */
  lemma NoLargeHere(h: Heap, p: nat, path: seq<nat>)
    requires |path| == 2 && !SlotAt(h, p, path[0]).Leaf?
    ensures NoLarge(h, p, path)
  {
  }

  // vmm_get_phys_addr over the words of memory; words above the window read as 0.

  function Word(mem: seq<U32>, table: nat, i: nat): U32 {
    if table / 4 + i < |mem| then mem[table / 4 + i] else 0
  }

  /** The table entry of an address; its present bit is never tested. */
  function EntryAt(mem: seq<U32>, root: nat, virt: U32): U32 {
    var pde := Word(mem, root, virt / 0x40_0000);
    if And(pde, PRESENT) == 0 then 0
    else Word(mem, And(pde, ADDRESS), And(virt / 0x1000, 0x3FF))
  }

  function PhysAddr(mem: seq<U32>, root: nat, virt: U32): nat {
    And(EntryAt(mem, root, virt), ADDRESS)
  }

  /** The reads find the walk's entry, because an entry that is not present is zero. */
  lemma EntryAtIsWalk(h: Heap, mem: seq<U32>, free: set<nat>, p: nat, virt: U32)
    requires Describes(h, mem, free) && IsRoot(h, p)
    ensures EntryAt(mem, 4096 * p, virt) == EntryOf(Walk(h, p, PathOf(virt)))
  {
    var path := PathOf(virt);
    EntryLeadsOn(h, mem, free, p, path[0]);
    assert path[1..] == [path[1]];
    if SlotAt(h, p, path[0]).Next? {
      var q := SlotAt(h, p, path[0]).page;
      assert Agrees(h, mem, q, path[1]);
      assert Walk(h, q, path[1..]) ==
        if SlotAt(h, q, path[1]).Leaf? then Some(Hit(SlotAt(h, q, path[1]).word, 0)) else None by {
        assert SlotValid(h, q, path[1]);
      }
    }
  }

  // ---------- rights ----------

  /** What the processor allows at an address: the present, write and user bits of both levels. */
  function Rights(mem: seq<U32>, root: nat, virt: U32): nat {
    var pde := Word(mem, root, virt / 0x40_0000);
    if And(pde, PRESENT) == 0 then 0
    else
      var pte := Word(mem, And(pde, ADDRESS), And(virt / 0x1000, 0x3FF));
      if And(pte, PRESENT) == 0 then 0 else And(And(pde, 7), And(pte, 7))
  }

  lemma RightsMeet(e: nat)
    ensures And(7, And(e, 7)) == And(e, 7) && And(0, 7) == 0
  {
    hide And;
    AndTwice(e, 7);
    AndSymmetric(7, And(e, 7));
    AndZeroSeven();
  }

  lemma AndZeroSeven()
    ensures And(0, 7) == 0
  {
  }

  /** Directory entries never take a right away, so the table entry decides. */
  lemma RightsAreEntry(h: Heap, mem: seq<U32>, free: set<nat>, p: nat, virt: U32)
    requires Describes(h, mem, free) && IsRoot(h, p)
    ensures Rights(mem, 4096 * p, virt) == And(EntryAt(mem, 4096 * p, virt), 7)
  {
    hide And, HeapValid;
    var path := PathOf(virt);
    RightsMeet(EntryAt(mem, 4096 * p, virt));
    EntryLeadsOn(h, mem, free, p, path[0]);
    PresentIsOdd(0);
    if SlotAt(h, p, path[0]).Next? {
      var q := SlotAt(h, p, path[0]).page;
      assert Agrees(h, mem, q, path[1]);
    }
  }

  lemma PresentIsOdd(e: nat)
    ensures And(e, PRESENT) == e % 2
  {
    AndOneBit(e);
  }
}
