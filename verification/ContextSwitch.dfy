/** The machine under the scheduler: kernel stacks, the interrupt stub's pushes and pops, and
    the TSS stack pointer (kernel/core/scheduler.c, kernel/x64/irq.s, kernel/i386/irq.s).
    Every step of the machine is a step of module Scheduler. */
module ContextSwitch {
  import opened Wrappers
  import opened Bits
  import opened Scheduler

  datatype Arch = X64 | I386

  /** A stack address: kernel stack of a task, or block 10, the boot stack; offsets count words. */
  datatype Pointer = Pointer(block: nat, offset: nat)

  const BOOT: nat := 10

  /** Words of a 4096-byte kernel stack. */
  function StackWords(arch: Arch): nat { if arch.X64? then 512 else 1024 }

  /** General registers pushed by the stub: fifteen pushes, or the eight of pusha. */
  function Registers(arch: Arch): nat { if arch.X64? then 15 else 8 }

  /** popa skips the stack pointer that pusha pushed in fifth place. */
  predicate Restored(arch: Arch, i: nat) { arch.I386? ==> i != 4 }

  /** A full frame: the five words the processor pushes on entry from user mode, and the registers. */
  function FrameWords(arch: Arch): nat { Registers(arch) + 5 }

  /** Privilege level 3 in the code selector. */
  predicate UserMode(c: Context) { c.cs % 4 == 3 }

  predicate WellFormed(arch: Arch, c: Context) {
    && |c.gp| == Registers(arch)
    && (arch.I386? ==> c.gp[4] == 0)
  }

  /** The selectors, flags and zero registers of a task that has not run yet. */
  function StartContext(arch: Arch, entry: Word, userTop: Word): Context {
    Context(seq(Registers(arch), _ => 0), entry, 0x1B, 0x202, userTop, 0x23)
  }

  /** Of the flags register the interrupt flag (bit 9) and the constant bit 1 alone: interrupts are
      on and no privilege is given. */
  ghost predicate InterruptsOn(flags: nat) {
    forall b: nat :: Bit(flags, b) <==> b == 9 || b == 1
  }

  /** What a task that has not run yet holds: user code and stack segments of the global table at
      privilege level 3, its flags, and zero registers. */
  ghost predicate FreshUser(arch: Arch, c: Context, entry: Word, userTop: Word) {
    && c.cs / 8 == 3 && c.cs % 8 == 3 && c.ss / 8 == 4 && c.ss % 8 == 3
    && InterruptsOn(c.flags)
    && c.ip == entry && c.sp == userTop
    && |c.gp| == (if arch.X64? then 15 else 8) && forall r :: 0 <= r < |c.gp| ==> c.gp[r] == 0
  }

  /** The flags word task_create_user pushes. */
  lemma StartFlags()
    ensures InterruptsOn(0x202)
  {
    assert Pow2(1) == 2 && Pow2(9) == 0x200 && Or(2, 0x200) == 0x202;
    forall b: nat
      ensures Bit(0x202, b) <==> b == 9 || b == 1
    {
      BitOfOr(Pow2(1), Pow2(9), b);
      BitOfPow2(1, b);
      BitOfPow2(9, b);
    }
  }

  lemma StartsFresh(arch: Arch, entry: Word, userTop: Word)
    ensures FreshUser(arch, StartContext(arch, entry, userTop), entry, userTop)
  {
    hide InterruptsOn;
    StartFlags();
  }

  lemma StepCreates(s: State, start: Context)
    requires StateValid(s)
    ensures Step(s, Create(start)) ==
      if s.count >= MAX_TASKS then s
      else s.(count := s.count + 1, active := s.active[s.count := true], saved := s.saved[s.count := start])
  {
  }

  lemma StartIsWellFormed(arch: Arch, entry: Word, userTop: Word)
    ensures WellFormed(arch, StartContext(arch, entry, userTop)) && UserMode(StartContext(arch, entry, userTop))
  {
  }

  class Machine {
    const arch: Arch
    /** Address of the tasks array; a task's user stack ends 8208 bytes into its 8224-byte record. */
    const base: nat
    const mem: array2<Word>
    const taskSp: array<Pointer>
    const taskPid: array<nat>
    const taskActive: array<bool>
    var taskCount: nat
    var currentTask: int
    var tss0: Pointer
    /** The processor outside the kernel: the running task, or kmain's idle loop. */
    var cpu: Context
    const bootSp: Pointer
    ghost var saved: seq<Context>

    /** An interrupt pushes stack selector and pointer too, except from i386 kernel mode. */
    predicate FullReturn(c: Context) { arch.X64? || UserMode(c) }

    function ReturnWords(c: Context): nat { if FullReturn(c) then 5 else 3 }

    /** The frame that ends at offset top of a block holds a context. */
    ghost predicate HoldsFrame(block: nat, top: nat, c: Context)
      reads mem
    {
      var low := top - ReturnWords(c);
      && block < mem.Length0 && FrameWords(arch) <= top <= mem.Length1 && |c.gp| == Registers(arch)
      && (FullReturn(c) ==> mem[block, low + 4] == c.ss && mem[block, low + 3] == c.sp)
      && mem[block, low + 2] == c.flags && mem[block, low + 1] == c.cs && mem[block, low] == c.ip
      && forall i :: 0 <= i < Registers(arch) && Restored(arch, i) ==> mem[block, low - 1 - i] == c.gp[i]
    }

    ghost predicate Shape() {
      && mem.Length0 == 11 && mem.Length1 == 4096
      && taskSp.Length == taskPid.Length == taskActive.Length == MAX_TASKS
      && bootSp == Pointer(BOOT, 4096)
      && taskSp as object != taskPid as object && taskSp as object != taskActive as object
      && taskPid as object != taskActive as object
    }

    /** The scheduler state this machine stands for. */
    ghost function Abs(): State
      reads this, taskActive
      requires Shape()
    {
      State(taskCount, currentTask, taskActive[..], saved, cpu)
    }

    /** Every active task that is not running waits exactly one full frame below the top of its
        own kernel stack, and that frame holds its context; the next interrupt of the running
        task lands on its own stack. */
    ghost predicate Valid()
      reads this, mem, taskSp, taskActive
    {
      && Shape() && StateValid(Abs())
      && WellFormed(arch, cpu) && (UserMode(cpu) <==> currentTask >= 0)
      && (currentTask >= 0 ==> tss0 == Pointer(currentTask, StackWords(arch)))
      && forall k :: 0 <= k < MAX_TASKS && taskActive[k] && k != currentTask ==> Suspended(k)
    }

    ghost predicate Suspended(k: nat)
      requires Shape() && k < MAX_TASKS && |saved| == MAX_TASKS
      reads this, mem, taskSp
    {
      && taskSp[k] == Pointer(k, StackWords(arch) - FrameWords(arch))
      && HoldsFrame(k, StackWords(arch), saved[k])
      && WellFormed(arch, saved[k]) && UserMode(saved[k])
    }

    // ---------- scheduler_init and task_create_user ----------

    constructor (arch: Arch, base: nat, boot: Context)
      requires WellFormed(arch, boot) && !UserMode(boot)
      ensures Valid() && fresh(mem) && fresh(taskSp) && fresh(taskPid) && fresh(taskActive)
      ensures this.arch == arch && this.base == base
      ensures taskCount == 0 && currentTask == -1 && cpu == boot
    {
      this.arch, this.base, this.cpu := arch, base, boot;
      mem := new Word[11, 4096];
      taskSp := new Pointer[10](_ => Pointer(0, 0));
      taskPid := new nat[10](_ => 0);
      taskActive := new bool[10](_ => false);
      taskCount, currentTask := 0, -1;
      tss0 := Pointer(BOOT, 4096);
      bootSp := Pointer(BOOT, 4096);
      saved := seq(10, _ => boot);
    }

    // ---------- the interrupt stub ----------

    /** The pushes of an interrupt below offset top of a stack: the processor's return words, which
        from i386 kernel mode are three, and the stub's registers. */
    method Push(b: nat, top: nat) returns (o: nat)
      requires Shape() && WellFormed(arch, cpu) && b < mem.Length0 && FrameWords(arch) <= top <= mem.Length1
      modifies mem
      ensures o == top - ReturnWords(cpu) - Registers(arch) && HoldsFrame(b, top, cpu)
      ensures forall c, j :: 0 <= c < mem.Length0 && 0 <= j < mem.Length1 && (c != b || j >= top) ==>
        mem[c, j] == old(mem[c, j])
    {
      hide UserMode, StackWords;
      o := top;
      if FullReturn(cpu) {
        o := o - 1; mem[b, o] := cpu.ss;
        o := o - 1; mem[b, o] := cpu.sp;
      }
      o := o - 1; mem[b, o] := cpu.flags;
      o := o - 1; mem[b, o] := cpu.cs;
      o := o - 1; mem[b, o] := cpu.ip;
      ghost var low := o;
      var i := 0;
      while i < Registers(arch)
        invariant 0 <= i <= Registers(arch) && o == low - i
        invariant FullReturn(cpu) ==> mem[b, low + 4] == cpu.ss && mem[b, low + 3] == cpu.sp
        invariant mem[b, low + 2] == cpu.flags && mem[b, low + 1] == cpu.cs && mem[b, low] == cpu.ip
        invariant forall j :: 0 <= j < i && Restored(arch, j) ==> mem[b, low - 1 - j] == cpu.gp[j]
        invariant forall c, j :: 0 <= c < mem.Length0 && 0 <= j < mem.Length1 && (c != b || j >= top) ==>
          mem[c, j] == old(mem[c, j])
      {
        o := o - 1;
        mem[b, o] := if Restored(arch, i) then cpu.gp[i] else o;
        i := i + 1;
      }
    }

    /** Interrupt entry: the processor switches to the stack the TSS names (or stays on the boot
        stack) before the pushes. */
    method Enter() returns (sp: Pointer)
      requires Valid()
      modifies mem
      ensures var top := if currentTask >= 0 then tss0 else bootSp;
        && top.offset >= FrameWords(arch)
        && sp == Pointer(top.block, top.offset - ReturnWords(cpu) - Registers(arch))
        && HoldsFrame(top.block, top.offset, cpu)
        && top.offset - sp.offset == if arch.X64? then 20 else if UserMode(cpu) then 13 else 11
      ensures forall b, i :: 0 <= b < mem.Length0 && 0 <= i < mem.Length1 && b != sp.block ==>
        mem[b, i] == old(mem[b, i])
    {
      var top := bootSp;
      if UserMode(cpu) {
        top := tss0;
      }
      var o := Push(top.block, top.offset);
      return Pointer(top.block, o);
    }

    /** The C code under the stub uses the stack below its pointer freely. */
    method Scribble(sp: Pointer, noise: nat -> Word)
      requires sp.block < mem.Length0 && sp.offset <= mem.Length1
      modifies mem
      ensures forall b, i :: 0 <= b < mem.Length0 && 0 <= i < mem.Length1 && !(b == sp.block && i < sp.offset) ==>
        mem[b, i] == old(mem[b, i])
    {
      forall i | 0 <= i < sp.offset {
        mem[sp.block, i] := noise(i);
      }
    }

    /** Interrupt return: pops the registers in reverse order and then the return words. */
    method Leave(sp: Pointer, ghost top: nat, ghost c: Context)
      requires Shape() && |c.gp| == Registers(arch)
      requires WellFormed(arch, c) && HoldsFrame(sp.block, top, c)
      requires sp.offset == top - ReturnWords(c) - Registers(arch)
      requires !FullReturn(c) ==> c.sp == cpu.sp && c.ss == cpu.ss
      modifies this`cpu
      ensures cpu == c
    {
      var b, o := sp.block, sp.offset;
      ghost var low := top - ReturnWords(c);
      var gp: seq<Word> := [];
      var i := Registers(arch);
      while i > 0
        invariant 0 <= i <= Registers(arch) && o == low - i && |gp| == Registers(arch) - i
        invariant gp == c.gp[i..]
      {
        i := i - 1;
        var w := if Restored(arch, i) then mem[b, o] else 0;
        assert o == low - 1 - i && w == c.gp[i];
        gp := [w] + gp;
        o := o + 1;
      }
      var ip, cs, flags := mem[b, o], mem[b, o + 1], mem[b, o + 2];
      var usp, ss := cpu.sp, cpu.ss;
      if arch.X64? || cs % 4 == 3 {
        usp, ss := mem[b, o + 3], mem[b, o + 4];
      }
      cpu := Context(gp, ip, cs, flags, usp, ss);
    }

    // ---------- schedule ----------

    /** The search loop of schedule: the next active task round the slots in use, or -1. */
    method FindNext() returns (n: int)
      requires Shape() && StateValid(Abs()) && taskCount > 0
      ensures match FirstFrom(taskActive[..], currentTask, 1) case None => n == -1 case Some(m) => n == m
    {
      hide FirstFrom, NoneSeen;
      ghost var c, active := currentTask, taskActive[..];
      ScanStarts(active, c, taskCount);
      n := currentTask;
      var i := 0;
      while i < taskCount
        invariant 0 <= i <= taskCount
        invariant n == if c + i < taskCount then c + i else c + i - taskCount
        invariant NoneSeen(active, c, taskCount, i)
      {
        ScanFinds(active, c, taskCount, i);
        WrapAround(n + 1, taskCount);
        n := (n + 1) % taskCount;
        if taskActive[n] {
          return;
        }
        i := i + 1;
      }
      ScanEnds(active, c, taskCount);
      return -1;
    }

    method Schedule(sp: Pointer) returns (next: Pointer)
      requires Shape() && StateValid(Abs())
      modifies this`currentTask, this`tss0, taskSp
      ensures forall k :: 0 <= k < MAX_TASKS && k != old(currentTask) ==> taskSp[k] == old(taskSp[k])
      ensures old(currentTask) >= 0 ==> taskSp[old(currentTask)] == sp
      ensures match FirstFrom(taskActive[..], old(currentTask), 1)
        case None => next == sp && currentTask == old(currentTask) && tss0 == old(tss0)
        case Some(n) => next == taskSp[n] && currentTask == n && tss0 == Pointer(n, StackWords(arch))
    {
      FirstFromNearest(taskActive[..], currentTask, 1);
      if taskCount == 0 {
        return sp;
      }
      if currentTask != -1 {
        taskSp[currentTask] := sp;
      }
      var n := FindNext();
      if n == -1 {
        return sp;
      }
      currentTask := n;
      tss0 := Pointer(currentTask, StackWords(arch));
      return taskSp[currentTask];
    }

    // ---------- the steps of the machine ----------

    /** The running task computes: any user-mode register contents may follow. */
    method UserStep(next: Context)
      requires Valid() && currentTask >= 0 && WellFormed(arch, next) && UserMode(next)
      modifies this`cpu
      ensures Valid() && Abs() == Step(old(Abs()), User(next))
    {
      cpu := next;
    }

    /** Enters the kernel and lets its code run: the interrupted context stays in its frame. */
    method EnterKernel(noise: nat -> Word) returns (sp: Pointer)
      requires Valid()
      modifies mem
      ensures Valid() && Entered(sp)
    {
      sp := Enter();
      Scribble(sp, noise);
    }

    /** The frame just above sp holds the interrupted context. */
    ghost predicate Entered(sp: Pointer)
      requires Shape()
      reads this, mem
    {
      var top := if currentTask >= 0 then tss0 else bootSp;
      && top.offset >= FrameWords(arch)
      && sp == Pointer(top.block, top.offset - ReturnWords(cpu) - Registers(arch))
      && HoldsFrame(top.block, top.offset, cpu)
    }

    /** schedule and the return from the interrupt that pushed the frame at sp. */
    method SwitchFrom(sp: Pointer)
      requires Valid() && Entered(sp)
      requires currentTask >= 0 && taskActive[currentTask] ==> saved[currentTask] == cpu
      modifies this`cpu, this`currentTask, this`tss0, taskSp
      ensures Valid() && Abs() == Dispatch(old(Abs()))
    {
      ghost var s := Abs();
      FirstFromNearest(taskActive[..], currentTask, 1);
      var next := Schedule(sp);
      ghost var top := if currentTask >= 0 then StackWords(arch) else bootSp.offset;
      Leave(next, top, Dispatch(s).cpu);
    }

    /** The same from inside a system call, for a task that is no longer active: int 32 pushes a
        second frame, d words below the first, for the kernel code that runs then. If another task
        is active it is resumed and both frames are forgotten; else the second frame is popped, the
        kernel code goes on, and the system call returns through the first. */
    method SwitchFromInside(sp: Pointer, d: nat, inside: Context, noise: nat -> Word, after: nat -> Word)
      requires Valid() && Entered(sp) && currentTask >= 0 && !taskActive[currentTask]
      requires d + 2 * FrameWords(arch) <= StackWords(arch) && WellFormed(arch, inside) && !UserMode(inside)
      modifies this`cpu, this`currentTask, this`tss0, mem, taskSp
      ensures Valid() && Abs() == Dispatch(old(Abs()))
    {
      hide HoldsFrame, FirstFrom;
      ghost var s, outer := Abs(), cpu;
      FirstFromNearest(taskActive[..], currentTask, 1);
      var inner := PushNested(sp, d, inside, noise, outer);
      var next := Schedule(inner);
      if next == inner {
        PopNested(inner, sp, d, inside, after, outer);
        next := sp;
      }
      Leave(next, StackWords(arch), Dispatch(s).cpu);
    }

    /** Every active task but the current one is suspended. */
    ghost predicate OthersWait()
      requires Shape()
      reads this, mem, taskSp, taskActive
    {
      |saved| == MAX_TASKS &&
      forall k :: 0 <= k < MAX_TASKS && taskActive[k] && k != currentTask ==> Suspended(k)
    }

    /** The frame of the current task's entry, at the top of its stack. */
    ghost predicate FirstFrame(sp: Pointer, outer: Context)
      requires Shape()
      reads mem
    {
      && sp.block < mem.Length0 && sp.offset == StackWords(arch) - FrameWords(arch) && FullReturn(outer)
      && HoldsFrame(sp.block, StackWords(arch), outer)
    }

    /** The second frame, and what the kernel's C code writes below it. */
    method PushNested(sp: Pointer, d: nat, inside: Context, noise: nat -> Word, ghost outer: Context)
      returns (inner: Pointer)
      requires Shape() && WellFormed(arch, inside) && sp.block < mem.Length0
      requires d + FrameWords(arch) <= sp.offset <= mem.Length1
      requires OthersWait() && sp.block == currentTask && FirstFrame(sp, outer)
      modifies this`cpu, mem
      ensures cpu == inside && HoldsFrame(sp.block, sp.offset - d, inside)
      ensures inner == Pointer(sp.block, sp.offset - d - ReturnWords(inside) - Registers(arch))
      ensures OthersWait() && FirstFrame(sp, outer)
    {
      hide HoldsFrame;
      inner := PushInside(sp, d, inside, outer);
      ScribbleUnder(inner, sp, d, inside, noise, outer);
    }

    method PushInside(sp: Pointer, d: nat, inside: Context, ghost outer: Context) returns (inner: Pointer)
      requires Shape() && WellFormed(arch, inside) && sp.block < mem.Length0
      requires d + FrameWords(arch) <= sp.offset <= mem.Length1
      requires OthersWait() && sp.block == currentTask && FirstFrame(sp, outer)
      modifies this`cpu, mem
      ensures cpu == inside && HoldsFrame(sp.block, sp.offset - d, inside)
      ensures inner == Pointer(sp.block, sp.offset - d - ReturnWords(inside) - Registers(arch))
      ensures OthersWait() && FirstFrame(sp, outer)
    {
      cpu := inside;
      var o := Push(sp.block, sp.offset - d);
      inner := Pointer(sp.block, o);
    }

    method ScribbleUnder(inner: Pointer, sp: Pointer, d: nat, inside: Context, noise: nat -> Word, ghost outer: Context)
      requires Shape() && sp.block < mem.Length0 && d <= sp.offset <= mem.Length1
      requires HoldsFrame(sp.block, sp.offset - d, inside)
      requires inner == Pointer(sp.block, sp.offset - d - ReturnWords(inside) - Registers(arch))
      requires OthersWait() && sp.block == currentTask && FirstFrame(sp, outer)
      modifies mem
      ensures HoldsFrame(sp.block, sp.offset - d, inside) && OthersWait() && FirstFrame(sp, outer)
    {
      Scribble(inner, noise);
    }

    /** The return to the kernel code, which then uses the stack below the first frame. */
    method PopNested(inner: Pointer, sp: Pointer, d: nat, inside: Context, noise: nat -> Word, ghost outer: Context)
      requires Shape() && WellFormed(arch, inside) && sp.block < mem.Length0 && d <= sp.offset <= mem.Length1
      requires HoldsFrame(sp.block, sp.offset - d, inside) && cpu == inside
      requires inner == Pointer(sp.block, sp.offset - d - ReturnWords(inside) - Registers(arch))
      requires OthersWait() && sp.block == currentTask && FirstFrame(sp, outer)
      modifies this`cpu, mem
      ensures cpu == inside && OthersWait() && FirstFrame(sp, outer)
    {
      Leave(inner, sp.offset - d, inside);
      Scribble(sp, noise);
    }

    /** irq0: the interrupt saves the running task, schedule picks the next, the return resumes it. */
    method TimerInterrupt(noise: nat -> Word)
      requires Valid()
      modifies this`cpu, this`currentTask, this`tss0, this`saved, mem, taskSp
      ensures Valid() && Abs() == Step(old(Abs()), Timer)
    {
      var sp := EnterKernel(noise);
      if currentTask >= 0 {
        saved := saved[currentTask := cpu];
      }
      SwitchFrom(sp);
    }

    /** The exit system call: int 0x80 enters the kernel, task_exit clears the flag and raises
        interrupt 32. */
    method ExitSyscall(d: nat, inside: Context, noise: nat -> Word)
      requires Valid() && currentTask >= 0 && d + 2 * FrameWords(arch) <= StackWords(arch)
      requires WellFormed(arch, inside) && !UserMode(inside)
      modifies this`cpu, this`currentTask, this`tss0, mem, taskSp, taskActive
      ensures Valid() && Abs() == Step(old(Abs()), Exit)
    {
      var sp := EnterKernel(noise);
      taskActive[currentTask] := false;
      assert taskActive[..] == old(taskActive[..])[currentTask := false];
      SwitchFromInside(sp, d, inside, noise, noise);
    }

    /** task_create_user: fills the next slot's stack so that its first dispatch starts the task. */
    method TaskCreateUser(entry: Word)
      requires Valid()
      modifies this`taskCount, this`saved, mem, taskSp, taskPid, taskActive
      ensures Valid()
      ensures Abs() == Step(old(Abs()), Create(StartContext(arch, entry, base + 8224 * old(taskCount) + 8208)))
      ensures old(taskCount) < 10 ==> taskCount == old(taskCount) + 1 && taskActive[old(taskCount)]
      ensures old(taskCount) < 10 ==> taskPid[old(taskCount)] == old(taskCount) + 1
      ensures old(taskCount) < 10 ==> StartFrame(old(taskCount), entry)
      ensures old(taskCount) < 10 ==> FreshUser(arch, saved[old(taskCount)], entry, UserTop(old(taskCount)))
      ensures old(taskCount) >= 10 ==> Abs() == old(Abs())
    {
      hide FreshUser, StartContext, Step, StackWords, FirstFrom;
      StepCreates(Abs(), StartContext(arch, entry, base + 8224 * taskCount + 8208));
      if taskCount >= MAX_TASKS {
        return;
      }
      var k := taskCount;
      StartIsWellFormed(arch, entry, base + 8224 * k + 8208);
      StartsFresh(arch, entry, UserTop(k));
      taskPid[k] := k + 1;
      taskActive[k] := true;
      assert taskActive[..] == old(taskActive[..])[k := true];
      var sp := BuildFrame(k, entry);
      taskSp[k] := sp;
      taskCount := taskCount + 1;
      saved := saved[k := StartContext(arch, entry, base + 8224 * k + 8208)];
    }

    /** The end of a task's user stack: 8208 bytes into its record of the tasks array. */
    function UserTop(k: nat): nat { base + 8224 * k + 8208 }

    /** The last words of a task's 4096-byte kernel stack as the first interrupt return pops them:
        zero registers, entry point, code segment, flags, user stack pointer and stack segment. */
    ghost predicate StartFrame(k: nat, entry: Word)
      requires Shape() && k < MAX_TASKS
      reads mem
    {
      var end := if arch.X64? then 512 else 1024;
      && InterruptsOn(mem[k, end - 3])
      && mem[k, end - 1] / 8 == 4 && mem[k, end - 1] % 8 == 3
      && mem[k, end - 2] == UserTop(k)
      && mem[k, end - 4] / 8 == 3 && mem[k, end - 4] % 8 == 3
      && mem[k, end - 5] == entry
      && forall j :: end - 5 - (if arch.X64? then 15 else 8) <= j < end - 5 ==> mem[k, j] == 0
    }

    /** The pushes of task_create_user: the frame a first interrupt return will pop. */
    method BuildFrame(k: nat, entry: Word) returns (sp: Pointer)
      requires Shape() && k < MAX_TASKS
      modifies mem
      ensures sp == Pointer(k, StackWords(arch) - FrameWords(arch))
      ensures sp.offset == if arch.X64? then 512 - 20 else 1024 - 13
      ensures HoldsFrame(k, StackWords(arch), StartContext(arch, entry, base + 8224 * k + 8208))
      ensures StartFrame(k, entry)
      ensures forall b, j :: 0 <= b < mem.Length0 && 0 <= j < mem.Length1 && b != k ==> mem[b, j] == old(mem[b, j])
    {
      hide InterruptsOn;
      StartFlags();
      ghost var top := StackWords(arch);
      var o := StackWords(arch);
      o := o - 1; mem[k, o] := 0x23;
      o := o - 1; mem[k, o] := base + 8224 * k + 8208;
      o := o - 1; mem[k, o] := 0x202;
      o := o - 1; mem[k, o] := 0x1B;
      o := o - 1; mem[k, o] := entry;
      var i := 0;
      while i < Registers(arch)
        invariant 0 <= i <= Registers(arch) && o == top - 5 - i
        invariant mem[k, top - 1] == 0x23 && mem[k, top - 2] == base + 8224 * k + 8208
        invariant mem[k, top - 3] == 0x202 && mem[k, top - 4] == 0x1B && mem[k, top - 5] == entry
        invariant forall j :: o <= j < top - 5 ==> mem[k, j] == 0
        invariant forall b, j :: 0 <= b < mem.Length0 && 0 <= j < mem.Length1 && b != k ==> mem[b, j] == old(mem[b, j])
      {
        o := o - 1;
        mem[k, o] := 0;
        i := i + 1;
      }
      return Pointer(k, o);
    }
  }

  // ---------- runs of the machine ----------

  /** What happens to the machine next; inside is the kernel code an exit interrupts, noise is what
      the kernel's C code leaves on its stack. */
  datatype Command =
    | Tick(noise: nat -> Word)
    | ExitCall(depth: nat, inside: Context, noise: nat -> Word)
    | NewTask(entry: Word)
    | Compute(next: Context)

  ghost predicate Possible(arch: Arch, c: Command) {
    match c
    case ExitCall(depth, inside, _) =>
      depth + 2 * FrameWords(arch) <= StackWords(arch) && WellFormed(arch, inside) && !UserMode(inside)
    case Compute(next) => WellFormed(arch, next) && UserMode(next)
    case _ => true
  }

  /** Nobody computes or exits while kmain's idle loop runs. */
  predicate Happens(s: State, c: Command) {
    s.current >= 0 || c.Tick? || c.NewTask?
  }

  /** The scheduler's event for a command; the n-th task starts on the n-th stacks. */
  function EventOf(arch: Arch, base: nat, s: State, c: Command): (e: Event)
    ensures Happens(s, c) ==> Enabled(s, e)
    ensures Schedules(e) <==> c.Tick? || c.ExitCall?
  {
    match c
    case Tick(_) => Timer
    case ExitCall(_, _, _) => Exit
    case NewTask(entry) => Create(StartContext(arch, entry, base + 8224 * s.count + 8208))
    case Compute(next) => User(next)
  }

  /** The events of a list of commands, one for each that can happen, in order. */
  function EventsOf(arch: Arch, base: nat, s: State, commands: seq<Command>): seq<Event>
    requires StateValid(s)
    decreases commands
  {
    if commands == [] then []
    else if !Happens(s, commands[0]) then EventsOf(arch, base, s, commands[1..])
    else
      var e := EventOf(arch, base, s, commands[0]);
      StepValid(s, e);
      [e] + EventsOf(arch, base, Step(s, e), commands[1..])
  }

  /** The state after them. */
  function StateAfter(arch: Arch, base: nat, s: State, commands: seq<Command>): (t: State)
    requires StateValid(s)
    ensures StateValid(t)
    decreases commands
  {
    if commands == [] then s
    else if !Happens(s, commands[0]) then StateAfter(arch, base, s, commands[1..])
    else
      var e := EventOf(arch, base, s, commands[0]);
      StepValid(s, e);
      StateAfter(arch, base, Step(s, e), commands[1..])
  }

  lemma {:induction false} EventsAppend(arch: Arch, base: nat, s: State, commands: seq<Command>, c: Command)
    requires StateValid(s)
    ensures var t := StateAfter(arch, base, s, commands);
      && EventsOf(arch, base, s, commands + [c]) ==
           EventsOf(arch, base, s, commands) + (if Happens(t, c) then [EventOf(arch, base, t, c)] else [])
      && StateAfter(arch, base, s, commands + [c]) ==
           if Happens(t, c) then Step(t, EventOf(arch, base, t, c)) else t
    decreases commands
  {
    hide Step;
    var all := commands + [c];
    if commands == [] {
      assert all == [c] && all[1..] == [];
      if Happens(s, c) { StepValid(s, EventOf(arch, base, s, c)); }
    } else {
      assert all[0] == commands[0] && all[1..] == commands[1..] + [c];
      if Happens(s, commands[0]) {
        var e := EventOf(arch, base, s, commands[0]);
        StepValid(s, e);
        EventsAppend(arch, base, Step(s, e), commands[1..], c);
      } else {
        EventsAppend(arch, base, s, commands[1..], c);
      }
    }
  }

  method PerformOne(m: Machine, c: Command)
    requires m.Valid() && Possible(m.arch, c) && Happens(m.Abs(), c)
    modifies m, m.mem, m.taskSp, m.taskPid, m.taskActive
    ensures m.Valid() && m.Abs() == Step(old(m.Abs()), EventOf(m.arch, m.base, old(m.Abs()), c))
  {
    match c
    case Tick(noise) =>
      m.TimerInterrupt(noise);
    case ExitCall(depth, inside, noise) =>
      m.ExitSyscall(depth, inside, noise);
    case NewTask(entry) =>
      m.TaskCreateUser(entry);
    case Compute(next) =>
      m.UserStep(next);
  }

  /** A list of commands takes the machine through the run of the scheduler that its events make,
      so every law of such runs holds of the machine. */
  method Perform(m: Machine, commands: seq<Command>) returns (ghost states: seq<State>, ghost events: seq<Event>)
    requires m.Valid() && forall c :: c in commands ==> Possible(m.arch, c)
    modifies m, m.mem, m.taskSp, m.taskPid, m.taskActive
    ensures m.Valid() && Run(states, events)
    ensures events == EventsOf(m.arch, m.base, old(m.Abs()), commands)
    ensures states[0] == old(m.Abs()) && states[|events|] == m.Abs()
  {
    ghost var start := m.Abs();
    states, events := [start], [];
    var k := 0;
    while k < |commands|
      invariant 0 <= k <= |commands| && m.Valid() && Run(states, events)
      invariant events == EventsOf(m.arch, m.base, start, commands[..k])
      invariant m.Abs() == StateAfter(m.arch, m.base, start, commands[..k])
      invariant states[0] == start && states[|events|] == m.Abs()
    {
      hide Step, Machine.Valid, Enabled, Possible, EventsOf, StateAfter, StateValid, Happens, EventOf, Machine.Abs;
      var c := commands[k];
      EventsAppend(m.arch, m.base, start, commands[..k], c);
      assert commands[..k + 1] == commands[..k] + [c];
      IdleOrNot(m, c);
      if m.currentTask >= 0 || c.Tick? || c.NewTask? {
        ghost var e := EventOf(m.arch, m.base, m.Abs(), c);
        PerformOne(m, c);
        RunGrows(states, events, e, m.Abs());
        states, events := states + [m.Abs()], events + [e];
      }
      k := k + 1;
    }
    assert commands[..k] == commands;
  }

  lemma IdleOrNot(m: Machine, c: Command)
    requires m.Shape()
    ensures Happens(m.Abs(), c) <==> m.currentTask >= 0 || c.Tick? || c.NewTask?
    ensures m.Abs().current == m.currentTask
  {
  }

  // ---------- the laws of the machine ----------

  /** Scheduling commands among a list. */
  function Ticks(commands: seq<Command>): nat {
    if commands == [] then 0
    else (if commands[0].Tick? || commands[0].ExitCall? then 1 else 0) + Ticks(commands[1..])
  }

  lemma {:induction false} CallsShift(e: Event, events: seq<Event>, n: nat)
    requires n <= |events|
    ensures Calls([e] + events, n + 1) == (if Schedules(e) then 1 else 0) + Calls(events, n)
  {
    if n > 0 {
      var all := [e] + events;
      assert all[n] == events[n - 1];
      CallsShift(e, events, n - 1);
    }
  }

  /** A task once runs for good: the machine never returns to the idle loop. */
  lemma NeverIdleAgain(s: State, e: Event)
    requires StateValid(s) && Enabled(s, e) && s.current >= 0
    ensures Step(s, e).current >= 0
  {
    hide FirstFrom;
  }

  /** While a task runs every command happens, so each tick and each exit is a call of schedule. */
  lemma {:induction false} TicksAreCalls(arch: Arch, base: nat, s: State, commands: seq<Command>)
    requires StateValid(s) && s.current >= 0
    ensures var events := EventsOf(arch, base, s, commands);
      |events| == |commands| && Calls(events, |events|) == Ticks(commands)
    decreases commands
  {
    if commands != [] {
      var e := EventOf(arch, base, s, commands[0]);
      StepValid(s, e);
      NeverIdleAgain(s, e);
      TicksAreCalls(arch, base, Step(s, e), commands[1..]);
      CallsShift(e, EventsOf(arch, base, Step(s, e), commands[1..]), |commands| - 1);
    }
  }

  /** The ticks and exits of a list that happen when it starts in the idle loop: those from the
      first tick on. */
  function TicksOnceRunning(commands: seq<Command>): nat {
    if commands == [] then 0
    else if commands[0].Tick? then Ticks(commands)
    else TicksOnceRunning(commands[1..])
  }

  /** With an active task the first tick sets the machine going; what is skipped before it is no
      call of schedule. */
  lemma {:induction false} TicksFromIdle(arch: Arch, base: nat, s: State, commands: seq<Command>, k: nat)
    requires StateValid(s) && s.current < 0 && k < MAX_TASKS && s.active[k]
    ensures var events := EventsOf(arch, base, s, commands);
      Calls(events, |events|) == TicksOnceRunning(commands)
    decreases commands
  {
    hide Step, FirstFrom;
    if commands != [] {
      var c, rest := commands[0], commands[1..];
      var e := EventOf(arch, base, s, c);
      if c.Tick? {
        StepValid(s, Timer);
        StepKeepsActives(s, k);
        SelectsNearest(s, Timer, k);
        TicksAreCalls(arch, base, Step(s, Timer), rest);
        var events := EventsOf(arch, base, Step(s, Timer), rest);
        CallsShift(Timer, events, |events|);
      } else if c.NewTask? {
        StepValid(s, e);
        CreateStaysIdle(s, e, k);
        TicksFromIdle(arch, base, Step(s, e), rest, k);
        var events := EventsOf(arch, base, Step(s, e), rest);
        CallsShift(e, events, |events|);
      } else {
        TicksFromIdle(arch, base, s, rest, k);
      }
    }
  }

  lemma StepKeepsActives(s: State, k: nat)
    requires StateValid(s) && k < MAX_TASKS
    ensures Step(s, Timer).active == s.active
  {
  }

  lemma CreateStaysIdle(s: State, e: Event, k: nat)
    requires StateValid(s) && e.Create? && k < MAX_TASKS && s.active[k]
    ensures var t := Step(s, e); t.current == s.current && |t.active| == MAX_TASKS && t.active[k]
  {
  }

  /** Bounded waiting on the machine: within any commands with ten ticks or exits among them, counted
      from the first tick if the idle loop runs, every active task gets to run. */
  method PerformRounds(m: Machine, commands: seq<Command>, k: nat)
    returns (ghost states: seq<State>, ghost events: seq<Event>, ghost j: nat)
    requires m.Valid() && forall c :: c in commands ==> Possible(m.arch, c)
    requires k < MAX_TASKS && m.taskActive[k] && m.currentTask != k
    requires (if m.currentTask < 0 then TicksOnceRunning(commands) else Ticks(commands)) >= 10
    modifies m, m.mem, m.taskSp, m.taskPid, m.taskActive
    ensures m.Valid() && Run(states, events)
    ensures events == EventsOf(m.arch, m.base, old(m.Abs()), commands)
    ensures states[0] == old(m.Abs()) && states[|events|] == m.Abs()
    ensures 0 < j <= |events| && states[j].current == k
  {
    ghost var s := m.Abs();
    states, events := Perform(m, commands);
    if s.current < 0 {
      TicksFromIdle(m.arch, m.base, s, commands, k);
    } else {
      TicksAreCalls(m.arch, m.base, s, commands);
    }
    j := SelectedWithinTen(states, events, k, 0, |events|);
  }

  /** Context fidelity on the machine: a task that is interrupted and next runs when the commands
      are done has the registers, instruction pointer, flags and stack it was interrupted with. */
  method PerformResume(m: Machine, commands: seq<Command>, k: nat)
    returns (ghost states: seq<State>, ghost events: seq<Event>)
    requires m.Valid() && forall c :: c in commands ==> Possible(m.arch, c)
    requires m.currentTask == k && commands != [] && commands[0].Tick?
    modifies m, m.mem, m.taskSp, m.taskPid, m.taskActive
    ensures m.Valid() && Run(states, events) && |events| == |commands|
    ensures events == EventsOf(m.arch, m.base, old(m.Abs()), commands)
    ensures states[0] == old(m.Abs()) && states[|events|] == m.Abs()
    ensures m.currentTask == k && (forall i :: 0 < i < |events| ==> states[i].current != k) ==> m.cpu == old(m.cpu)
  {
    ghost var s := m.Abs();
    states, events := Perform(m, commands);
    TicksAreCalls(m.arch, m.base, s, commands);
    assert events[0] == Timer;
    if m.currentTask == k && forall i :: 0 < i < |events| ==> states[i].current != k {
      ResumesAsInterrupted(states, events, k, 0, |events| - 1);
    }
  }

  /** A created task starts at its entry point with zero registers, in user mode with interrupts
      on and no privileged flag, at the top of its own user stack. */
  lemma StartsAtEntry(arch: Arch, base: nat, states: seq<State>, events: seq<Event>, commands: seq<Command>, k: nat,
                      i: nat, j: nat)
    returns (entry: Word)
    requires Run(states, events) && events == EventsOf(arch, base, states[0], commands)
    requires i < j < |events| && NotRunning(states, k, i + 1, j)
    requires events[i].Create? && states[i].count == k < MAX_TASKS && states[j + 1].current == k
    ensures NewTask(entry) in commands && FreshUser(arch, states[j + 1].cpu, entry, base + 8224 * k + 8208)
  {
    hide Step, FreshUser;
    StartsAsCreated(states, events, k, i, j);
    entry := EntryOfCreate(arch, base, states, events, commands, i);
    StartsFresh(arch, entry, base + 8224 * k + 8208);
  }

  lemma {:induction false} EntryOfCreate(arch: Arch, base: nat, states: seq<State>, events: seq<Event>,
                                         commands: seq<Command>, i: nat)
    returns (entry: Word)
    requires Run(states, events) && events == EventsOf(arch, base, states[0], commands)
    requires i < |events| && events[i].Create?
    ensures NewTask(entry) in commands
    ensures events[i].start == StartContext(arch, entry, base + 8224 * states[i].count + 8208)
    decreases commands
  {
    hide Step, StartContext;
    var rest := commands[1..];
    if !Happens(states[0], commands[0]) {
      entry := EntryOfCreate(arch, base, states, events, rest, i);
    } else if i == 0 {
      entry := commands[0].entry;
    } else {
      RunTail(states, events);
      RunStep(states, events, 0, 1);
      assert events == [events[0]] + events[1..];
      entry := EntryOfCreate(arch, base, states[1..], events[1..], rest, i - 1);
    }
  }

  lemma RunTail(states: seq<State>, events: seq<Event>)
    requires Run(states, events) && events != []
    ensures Run(states[1..], events[1..])
  {
    hide Step, StateValid;
  }
}
