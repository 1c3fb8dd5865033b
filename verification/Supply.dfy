/** How many free pages the operations on a heap need, and that they fail only for want of them
    (kernel/x64/vmm.c, kernel/i386/vmm.c, kernel/mm/pmm.c). */
module Supply {
  import opened Wrappers
  import opened Forest
  import Pmm

  /** Pages that are tables or may become tables. */
  function Pages(f: Heap): set<nat> {
    f.tables.Keys + f.free
  }

  /** The tables of a path that do not exist yet. */
  function Missing(f: Heap, page: nat, path: seq<nat>): (n: nat)
    ensures n <= if path == [] then 0 else |path| - 1
    decreases |path|
  {
    if |path| <= 1 then 0
    else
      match SlotAt(f, page, path[0])
      case Next(q) => Missing(f, q, path[1..])
      case _ => |path| - 1
  }

  lemma MissingUnderBlank(f: Heap, page: nat, path: seq<nat>)
    requires path != [] && forall i :: SlotAt(f, page, i) == Absent
    ensures Missing(f, page, path) == |path| - 1
  {
  }

  /** Filling an entry takes the lowest free page, and the cleared table lacks all the rest of a path. */
  lemma ExtendTakes(f: Heap, page: nat, path: seq<nat>)
    requires HeapValid(f) && PathFrom(f, page, path) && NoLarge(f, page, path) && |path| > 1
    requires SlotAt(f, page, path[0]) == Absent
    ensures Extend(f, page, path[0]) == None <==> f.free == {}
    ensures Extend(f, page, path[0]).Some? ==>
      var (h, q) := Extend(f, page, path[0]).value;
      |h.free| == |f.free| - 1 && Pages(h) == Pages(f) && Missing(h, q, path[1..]) == |path| - 2
  {
    hide HeapValid, NoLarge, Missing;
    Descends(f, page, path);
    if f.free != {} {
      var q := Pmm.Lowest(f.free);
      BlankTable(f, page, path[0], q);
      MissingUnderBlank(AddChild(f, page, path[0], q), q, path[1..]);
    }
  }

  lemma BlankTable(f: Heap, page: nat, i: nat, q: nat)
    requires HeapValid(f) && page in f.tables && i < |f.tables[page].slots| && q in f.free
    ensures page != q && page !in f.free
    ensures var h := AddChild(f, page, i, q);
      && h.free == f.free - {q} && h.tables.Keys == f.tables.Keys + {q}
      && forall k :: SlotAt(h, q, k) == Absent
  {
  }

  /** A descent that creates tables fails exactly when fewer pages are free than tables are
      missing; otherwise it takes one page for each. */
  lemma {:induction false} GrowNeeds(f: Heap, page: nat, path: seq<nat>)
    requires HeapValid(f) && PathFrom(f, page, path) && NoLarge(f, page, path)
    ensures Grow(f, page, path) == None <==> |f.free| < Missing(f, page, path)
    ensures Grow(f, page, path).Some? ==>
      var g := Grow(f, page, path).value.0;
      |g.free| == |f.free| - Missing(f, page, path) && Pages(g) == Pages(f)
    decreases |path|
  {
    if |path| > 1 {
      hide HeapValid, NoLarge, AddChild, SlotValid, Missing, Pages;
      MissingStep(f, page, path);
      Descends(f, page, path);
      if SlotAt(f, page, path[0]) == Absent { ExtendTakes(f, page, path); }
      if Extend(f, page, path[0]).Some? {
        ExtendSpec(f, page, path);
        var (h, q) := Extend(f, page, path[0]).value;
        GrowNeeds(h, q, path[1..]);
      }
    }
  }

  lemma MissingStep(f: Heap, page: nat, path: seq<nat>)
    requires |path| > 1
    ensures Missing(f, page, path) ==
      match SlotAt(f, page, path[0]) case Next(q) => Missing(f, q, path[1..]) case _ => |path| - 1
  {
  }

  lemma Descends(f: Heap, page: nat, path: seq<nat>)
    requires HeapValid(f) && PathFrom(f, page, path) && NoLarge(f, page, path) && |path| > 1
    ensures page in f.tables && page !in f.free && path[0] < |f.tables[page].slots| && !SlotAt(f, page, path[0]).Leaf?
  {
  }

  /** A map panics exactly when fewer pages are free than tables are missing on its path. */
  lemma MapNeeds(f: Heap, root: nat, path: seq<nat>, word: nat)
    requires HeapValid(f) && PathFrom(f, root, path) && NoLarge(f, root, path)
    ensures Map(f, root, path, word) == None <==> |f.free| < Missing(f, root, path)
    ensures Map(f, root, path, word).Some? ==>
      var g := Map(f, root, path, word).value;
      |g.free| == |f.free| - Missing(f, root, path) && Pages(g) == Pages(f)
  {
    GrowNeeds(f, root, path);
    GrowSpec(f, root, path);
  }

  lemma UnmapNeeds(f: Heap, root: nat, path: seq<nat>)
    requires path != []
    ensures Unmap(f, root, path).free == f.free && Pages(Unmap(f, root, path)) == Pages(f)
  {
  }

  // ---------- runs ----------

  /** The pages a list of operations can take when a map takes at most the given number. */
  function Demand(ops: seq<Op>, each: nat): nat {
    if ops == [] then 0
    else Demand(ops[..|ops| - 1], each) + if ops[|ops| - 1].MapOp? then each else 0
  }

  /** A run keeps the pages it works with, and with a page for every table below the root for each
      of its maps it does not panic. */
  lemma {:induction false} RunNeeds(f: Heap, ops: seq<Op>, each: nat)
    requires HeapValid(f) && (forall op :: op in ops ==> Fits(f, op)) && f.levels - 1 <= each
    ensures Demand(ops, each) <= |f.free| ==> Run(f, ops).Some?
    ensures Run(f, ops).Some? ==>
      Pages(Run(f, ops).value) == Pages(f) && |Run(f, ops).value.free| + Demand(ops, each) >= |f.free|
  {
    hide HeapValid, NoLarge, Map, Unmap, Pages, Missing;
    if ops != [] {
      var before, op := ops[..|ops| - 1], ops[|ops| - 1];
      assert op in ops && forall o :: o in before ==> o in ops;
      RunNeeds(f, before, each);
      if Run(f, before).Some? {
        var g := Run(f, before).value;
        FitsAfter(f, before, op);
        match op
        case MapOp(root, path, word) => MapNeeds(g, root, path, word);
        case UnmapOp(root, path) => UnmapNeeds(g, root, path);
      }
    }
  }

  lemma FitsAfter(f: Heap, ops: seq<Op>, op: Op)
    requires HeapValid(f) && (forall o :: o in ops ==> Fits(f, o)) && Fits(f, op) && Run(f, ops).Some?
    ensures HeapValid(Run(f, ops).value) && Fits(Run(f, ops).value, op) && Run(f, ops).value.levels == f.levels
  {
    RunIsLastWrite(f, ops, op.root, op.path);
    LastWriteShort(f, ops, op.root, op.path);
    NoLargeIsShortHit(Run(f, ops).value, op.root, op.path);
  }

  /** Whatever ran before, the next operation still fits, and continues the run. */
  lemma RunPrefix(f: Heap, ops: seq<Op>, k: nat)
    requires HeapValid(f) && (forall op :: op in ops ==> Fits(f, op)) && k < |ops| && Run(f, ops[..k]).Some?
    ensures var g := Run(f, ops[..k]).value;
      HeapValid(g) && Fits(g, ops[k]) && Run(f, ops[..k + 1]) == Apply(g, ops[k])
  {
    assert ops[..k + 1][..k] == ops[..k] && ops[k] in ops;
    assert forall o :: o in ops[..k] ==> o in ops;
    FitsAfter(f, ops[..k], ops[k]);
  }

  /** A run without a panic had none earlier. */
  lemma {:induction false} RunBefore(f: Heap, ops: seq<Op>, k: nat)
    requires k <= |ops| && Run(f, ops).Some?
    ensures Run(f, ops[..k]).Some?
  {
    if k < |ops| {
      var before := ops[..|ops| - 1];
      assert before[..k] == ops[..k];
      RunBefore(f, before, k);
    } else {
      assert ops[..k] == ops;
    }
  }

  lemma RunFails(f: Heap, ops: seq<Op>, k: nat)
    requires k < |ops| && Run(f, ops[..k + 1]) == None
    ensures Run(f, ops) == None
  {
    if Run(f, ops).Some? { RunBefore(f, ops, k + 1); }
  }

  // ---------- the deep clone ----------

  /** Entries of src below n that lead to a table. */
  function Present(f: Heap, src: nat, n: nat): nat {
    if n == 0 then 0 else Present(f, src, n - 1) + if SlotAt(f, src, n - 1).Next? then 1 else 0
  }

  /** The clone panics exactly when fewer pages are free than the source has tables. */
  lemma {:induction false} CloneNeeds(f: Heap, src: nat, dst: nat, n: nat)
    requires CloneReady(f, src, dst) && n <= f.width
    ensures CloneSlots(f, src, dst, n) == None <==> |f.free| < Present(f, src, n)
    ensures CloneSlots(f, src, dst, n).Some? ==>
      var g := CloneSlots(f, src, dst, n).value;
      |g.free| == |f.free| - Present(f, src, n) && Pages(g) == Pages(f)
  {
    if n > 0 {
      CloneNeeds(f, src, dst, n - 1);
      if CloneSlots(f, src, dst, n - 1).Some? {
        CloneSlotsKeep(f, src, dst, n - 1);
        CloneSlotNeeds(CloneSlots(f, src, dst, n - 1).value, src, dst, n - 1);
      }
    }
  }

  lemma CloneSlotNeeds(f: Heap, src: nat, dst: nat, i: nat)
    requires CloneReady(f, src, dst) && i < f.width
    ensures dst in f.tables && i < |f.tables[dst].slots| && dst !in f.free
    ensures CloneSlot(f, src, dst, i) == None <==> SlotAt(f, src, i).Next? && f.free == {}
    ensures CloneSlot(f, src, dst, i).Some? ==>
      var g := CloneSlot(f, src, dst, i).value;
      |g.free| == |f.free| - (if SlotAt(f, src, i).Next? then 1 else 0) && Pages(g) == Pages(f)
  {
    assert SlotValid(f, src, i);
  }

  // ---------- new roots ----------

  lemma CreateNeeds(f: Heap, origin: nat)
    requires HeapValid(f) && origin in f.tables
    ensures CreateSpace(f, origin) == None <==> f.free == {}
    ensures CreateSpace(f, origin).Some? ==>
      var (g, q) := CreateSpace(f, origin).value;
      |g.free| == |f.free| - 1 && Pages(g) == Pages(f)
  {
  }
}
