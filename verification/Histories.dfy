/** Runs of everything that touches page tables: maps, unmaps, new address spaces, both kinds of
    clone, and clients that take pages from the allocator and give them back
    (kernel/x64/vmm.c, kernel/i386/vmm.c, kernel/mm/pmm.c). */
module Histories {
  import opened Wrappers
  import opened Forest
  import Pmm

  datatype Deed =
    | Write(op: Op)
    | Create(origin: nat)
    | Copy(source: nat, target: nat)
    | Clone(source: nat, target: nat)
    | Take
    | Give(page: nat)
    | Stay

  /** The deed names roots, and a client gives back a page that is no table. */
  ghost predicate Allowed(f: Heap, d: Deed) {
    match d
    case Write(op) => Fits(f, op)
    case Create(origin) => IsRoot(f, origin)
    case Copy(source, target) => IsRoot(f, source) && IsRoot(f, target)
    case Clone(source, target) => CloneReady(f, source, target)
    case Take => true
    case Stay => true
    case Give(page) => page != 0 && page !in f.tables
  }

  /** None is a panic. */
  ghost function Do(f: Heap, d: Deed): Option<Heap>
    requires HeapValid(f) && Allowed(f, d)
  {
    match d
    case Write(op) => Apply(f, op)
    case Create(origin) => (match CreateSpace(f, origin) case None => None case Some((g, _)) => Some(g))
    case Copy(source, target) => Some(CopyRoot(f, source, target))
    case Clone(source, target) => CloneSlots(f, source, target, f.width)
    case Take => if f.free == {} then None else Some(f.(free := f.free - {Pmm.Lowest(f.free)}))
    case Give(page) => Some(f.(free := f.free + {page}))
    case Stay => Some(f)
  }

  /** heaps[i + 1] follows heaps[i] by deeds[i], without a panic. */
  ghost predicate History(heaps: seq<Heap>, deeds: seq<Deed>) {
    && |heaps| == |deeds| + 1
    && (forall i :: 0 <= i <= |deeds| ==> HeapValid(heaps[i]))
    && forall i :: 0 <= i < |deeds| ==> Allowed(heaps[i], deeds[i]) && Do(heaps[i], deeds[i]) == Some(heaps[i + 1])
  }

  /** Through which root of heap f an address of root x was reached before the deed. */
  ghost function Origin(f: Heap, d: Deed, x: nat, path: seq<nat>): nat
    requires path != []
  {
    match d
    case Create(origin) => if x in f.tables then x else origin
    case Copy(source, target) => if x == target then source else x
    case Clone(source, target) => if x == target && SlotAt(f, source, path[0]).Next? then source else x
    case _ => x
  }

  /** The flat meaning of a history after its first n deeds: the last write that targets the address
      decides, where a created or cloned root takes over the meaning of its source. */
  ghost function Meaning(heaps: seq<Heap>, deeds: seq<Deed>, n: nat, x: nat, path: seq<nat>): Option<Hit>
    requires |heaps| == |deeds| + 1 && n <= |deeds| && path != []
  {
    if n == 0 then Walk(heaps[0], x, path)
    else
      var f, d := heaps[n - 1], deeds[n - 1];
      if d.Write? && Targets(f, x, path, d.op.root, d.op.path) then
        if d.op.MapOp? then Some(Hit(d.op.word, 0)) else None
      else
        Meaning(heaps, deeds, n - 1, Origin(f, d, x, path), path)
  }

  ghost predicate FullPath(f: Heap, path: seq<nat>) {
    |path| == f.levels && forall k :: 0 <= k < |path| ==> path[k] < f.width
  }

  /** One deed: the heap stays valid, old roots stay roots, and every root's walks are those of the
      root it comes from, save for what a write targets. */
  lemma DeedTranslates(f: Heap, d: Deed, g: Heap, x: nat, path: seq<nat>)
    requires HeapValid(f) && Allowed(f, d) && Do(f, d) == Some(g) && IsRoot(g, x) && FullPath(f, path)
    ensures HeapValid(g) && g.levels == f.levels && g.width == f.width
    ensures IsRoot(f, Origin(f, d, x, path))
    ensures Walk(g, x, path) ==
      if d.Write? && Targets(f, x, path, d.op.root, d.op.path) then
        (if d.op.MapOp? then Some(Hit(d.op.word, 0)) else None)
      else Walk(f, Origin(f, d, x, path), path)
  {
    hide HeapValid, Walk, NoLarge, CloneSlots, CreateSpace;
    FreeFacts(f);
    match d
    case Write(op) =>
      WriteMakesNoRoot(f, op, x);
      ApplySpec(f, op, x, path);
    case Create(origin) =>
      CreatedRoot(f, origin, x);
      CreateSpaceTranslates(f, origin, Origin(f, d, x, path), path);
      CreateSpaceTranslates(f, origin, origin, path);
    case Copy(source, target) =>
      CopyRootValid(f, source, target);
      WalkAfterCopyRoot(f, source, target, x, path);
    case Clone(source, target) =>
      CloneMakesNoRoot(f, source, target, f.width, x);
      CloneSlotsKeep(f, source, target, f.width);
      CloneSlotsTranslate(f, source, target, f.width, x, path);
    case Take =>
      WithFree(f, f.free - {Pmm.Lowest(f.free)}, x, path);
    case Give(page) =>
      WithFree(f, f.free + {page}, x, path);
    case Stay =>
  }

  lemma FreeFacts(f: Heap)
    requires HeapValid(f)
    ensures f.levels >= 2 && 0 !in f.free && f.free !! f.tables.Keys
  {
  }

  lemma CreatedRoot(f: Heap, origin: nat, x: nat)
    requires HeapValid(f) && IsRoot(f, origin) && CreateSpace(f, origin).Some? &&
      IsRoot(CreateSpace(f, origin).value.0, x)
    ensures var (g, q) := CreateSpace(f, origin).value;
      g.levels == f.levels && g.width == f.width && q !in f.tables && if x in f.tables then IsRoot(f, x) else x == q
  {
  }

  /** Maps add tables below the roots only. */
  lemma WriteMakesNoRoot(f: Heap, op: Op, x: nat)
    requires HeapValid(f) && Fits(f, op) && Apply(f, op).Some? && IsRoot(Apply(f, op).value, x)
    ensures IsRoot(f, x) && PathFrom(f, x, op.path)
  {
    match op
    case MapOp(root, path, word) => GrowMakesNoRoot(f, root, path, x);
    case UnmapOp(root, path) =>
  }

  lemma {:induction false} GrowMakesNoRoot(f: Heap, page: nat, path: seq<nat>, x: nat)
    requires HeapValid(f) && PathFrom(f, page, path) && NoLarge(f, page, path)
    requires Grow(f, page, path).Some? && IsRoot(Grow(f, page, path).value.0, x)
    ensures IsRoot(f, x)
    decreases |path|
  {
    if |path| > 1 {
      ExtendSpec(f, page, path);
      var (h, q) := Extend(f, page, path[0]).value;
      GrowMakesNoRoot(h, q, path[1..], x);
    }
  }

  lemma {:induction false} CloneMakesNoRoot(f: Heap, src: nat, dst: nat, n: nat, x: nat)
    requires CloneReady(f, src, dst) && n <= f.width && CloneSlots(f, src, dst, n).Some?
    requires IsRoot(CloneSlots(f, src, dst, n).value, x)
    ensures IsRoot(f, x)
  {
    hide HeapValid, CloneSlot;
    if n > 0 {
      CloneSlotsKeep(f, src, dst, n - 1);
      TurnMakesNoRoot(CloneSlots(f, src, dst, n - 1).value, src, dst, n - 1, x);
      CloneMakesNoRoot(f, src, dst, n - 1, x);
    }
  }

  lemma TurnMakesNoRoot(f: Heap, src: nat, dst: nat, i: nat, x: nat)
    requires dst in f.tables && i < |f.tables[dst].slots| && dst !in f.free
    requires CloneSlot(f, src, dst, i).Some? && IsRoot(CloneSlot(f, src, dst, i).value, x)
    ensures IsRoot(f, x)
  {
  }

  lemma {:induction false} ShapeStays(heaps: seq<Heap>, deeds: seq<Deed>, n: nat)
    requires History(heaps, deeds) && n <= |deeds|
    ensures heaps[n].levels == heaps[0].levels && heaps[n].width == heaps[0].width
  {
    if n > 0 {
      ShapeStays(heaps, deeds, n - 1);
      DeedKeepsShape(heaps[n - 1], deeds[n - 1], heaps[n]);
    }
  }

  lemma DeedKeepsShape(f: Heap, d: Deed, g: Heap)
    requires HeapValid(f) && Allowed(f, d) && Do(f, d) == Some(g)
    ensures HeapValid(g) && g.levels == f.levels && g.width == f.width
    ensures forall x :: IsRoot(f, x) ==> IsRoot(g, x)
  {
    match d
    case Write(op) =>
      ApplySpec(f, op, op.root, op.path);
    case Create(origin) =>
      CreateSpaceTranslates(f, origin, origin, []);
    case Copy(source, target) =>
      CopyRootValid(f, source, target);
    case Clone(source, target) =>
      CloneSlotsKeep(f, source, target, f.width);
    case Take =>
      WithFree(f, f.free - {Pmm.Lowest(f.free)}, 0, []);
    case Give(page) =>
      WithFree(f, f.free + {page}, 0, []);
    case Stay =>
  }

  /** After any history every root, old or created, walks as the flat meaning says. */
  lemma {:induction false} HistoryTranslates(heaps: seq<Heap>, deeds: seq<Deed>, n: nat, x: nat, path: seq<nat>)
    requires History(heaps, deeds) && n <= |deeds| && IsRoot(heaps[n], x) && FullPath(heaps[0], path)
    ensures Walk(heaps[n], x, path) == Meaning(heaps, deeds, n, x, path)
  {
    hide Walk, HeapValid, Allowed, Do;
    if n > 0 {
      var f, d := heaps[n - 1], deeds[n - 1];
      FreeFacts(heaps[0]);
      ShapeStays(heaps, deeds, n - 1);
      DeedTranslates(f, d, heaps[n], x, path);
      HistoryTranslates(heaps, deeds, n - 1, Origin(f, d, x, path), path);
    }
  }

  lemma HistoryGrows(heaps: seq<Heap>, deeds: seq<Deed>, d: Deed, next: Heap)
    requires History(heaps, deeds) && Allowed(heaps[|deeds|], d) && Do(heaps[|deeds|], d) == Some(next)
    ensures History(heaps + [next], deeds + [d])
  {
    hide Do, Allowed, HeapValid;
    DeedKeepsShape(heaps[|deeds|], d, next);
  }
}
