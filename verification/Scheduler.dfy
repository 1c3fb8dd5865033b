/** Round-robin scheduling without the machine: which task a call of schedule selects and
    which register contents it resumes (kernel/core/scheduler.c). */
module Scheduler {
  import opened Wrappers

  type Word = nat

  const MAX_TASKS: nat := 10

  /** What an interrupt saves and its return restores. */
  datatype Context = Context(gp: seq<Word>, ip: Word, cs: Word, flags: Word, sp: Word, ss: Word)

  /** current is -1 until the first task is dispatched; saved holds, for each task that is not
      running, what it resumes with. */
  datatype State = State(count: nat, current: int, active: seq<bool>, saved: seq<Context>, cpu: Context)

  ghost predicate StateValid(s: State) {
    && s.count <= MAX_TASKS && -1 <= s.current < s.count
    && |s.active| == |s.saved| == MAX_TASKS
    && forall k :: 0 <= k < MAX_TASKS && s.active[k] ==> k < s.count
  }

  /** The task d places after c on the circle of ten slots; c is -1 before the first dispatch. */
  function At(c: int, d: nat): (k: nat)
    requires -1 <= c < MAX_TASKS && 1 <= d <= MAX_TASKS
    ensures k < MAX_TASKS
  {
    if c + d < MAX_TASKS then c + d else c + d - MAX_TASKS
  }

  /** How many places after c slot k comes; a full turn from a slot to itself. */
  function Dist(c: int, k: nat): (d: int)
    requires -1 <= c < MAX_TASKS && k < MAX_TASKS
    ensures 1 <= d <= MAX_TASKS && At(c, d) == k
  {
    if c < k then k - c else k - c + MAX_TASKS
  }

  /** The first active slot at least d places after c. */
  function FirstFrom(active: seq<bool>, c: int, d: nat): Option<nat>
    requires |active| == MAX_TASKS && -1 <= c < MAX_TASKS && 1 <= d
    decreases MAX_TASKS + 1 - d
  {
    if d > MAX_TASKS then None
    else if active[At(c, d)] then Some(At(c, d))
    else FirstFrom(active, c, d + 1)
  }

  // ---------- the steps ----------

  function Dispatch(s: State): State
    requires StateValid(s)
  {
    match FirstFrom(s.active, s.current, 1)
    case None => s
    case Some(n) => s.(current := n, cpu := s.saved[n])
  }

  /** A timer interrupt saves the running task and dispatches the next. */
  function TimerStep(s: State): State
    requires StateValid(s)
  {
    Dispatch(if s.current < 0 then s else s.(saved := s.saved[s.current := s.cpu]))
  }

  /** An exit deactivates the running task and dispatches the next. */
  function ExitStep(s: State): State
    requires StateValid(s) && s.current >= 0
  {
    Dispatch(s.(active := s.active[s.current := false]))
  }

  /** A creation fills the next slot, unless all ten have been used. */
  function CreateStep(s: State, start: Context): State
    requires StateValid(s)
  {
    if s.count >= MAX_TASKS then s
    else s.(count := s.count + 1, active := s.active[s.count := true], saved := s.saved[s.count := start])
  }

  /** What may happen between two moments of user execution. */
  datatype Event = Timer | Exit | Create(start: Context) | User(cpu: Context)

  predicate Enabled(s: State, e: Event) {
    (e.Exit? || e.User?) ==> s.current >= 0
  }

  function Step(s: State, e: Event): State
    requires StateValid(s) && Enabled(s, e)
  {
    match e
    case Timer => TimerStep(s)
    case Exit => ExitStep(s)
    case Create(start) => CreateStep(s, start)
    case User(cpu) => s.(cpu := cpu)
  }

  predicate Schedules(e: Event) {
    e.Timer? || e.Exit?
  }

  /** states[i + 1] follows states[i] by events[i]; StepValid keeps every state valid. */
  ghost predicate Run(states: seq<State>, events: seq<Event>) {
    && |states| == |events| + 1
    && (forall i :: 0 <= i <= |events| ==> StateValid(states[i]))
    && forall i :: 0 <= i < |events| ==> Enabled(states[i], events[i]) && states[i + 1] == Step(states[i], events[i])
  }

  lemma RunGrows(states: seq<State>, events: seq<Event>, e: Event, next: State)
    requires Run(states, events) && Enabled(states[|events|], e) && next == Step(states[|events|], e)
    ensures Run(states + [next], events + [e])
  {
    StepValid(states[|events|], e);
  }

  // ---------- selection ----------

  /** The selected task is active, no active task comes before it, and none is selected only
      when none is active. */
  lemma {:induction false} FirstFromNearest(active: seq<bool>, c: int, d: nat)
    requires |active| == MAX_TASKS && -1 <= c < MAX_TASKS && 1 <= d
    ensures match FirstFrom(active, c, d)
      case None => forall k :: 0 <= k < MAX_TASKS && active[k] ==> Dist(c, k) < d
      case Some(n) => n < MAX_TASKS && active[n] && Dist(c, n) >= d &&
                      forall k :: 0 <= k < MAX_TASKS && active[k] ==> Dist(c, k) < d || Dist(c, n) <= Dist(c, k)
    decreases MAX_TASKS + 1 - d
  {
    if d <= MAX_TASKS && !active[At(c, d)] {
      FirstFromNearest(active, c, d + 1);
    }
  }

  /** A nearest active task is the selected one. */
  lemma NearestIsFirst(active: seq<bool>, c: int, n: nat)
    requires |active| == MAX_TASKS && -1 <= c < MAX_TASKS && n < MAX_TASKS && active[n]
    requires forall k :: 0 <= k < MAX_TASKS && active[k] ==> Dist(c, n) <= Dist(c, k)
    ensures FirstFrom(active, c, 1) == Some(n)
  {
    FirstFromNearest(active, c, 1);
  }

  /** Slots that come up to i places after c when only count of them are in use. */
  ghost predicate Visited(c: int, count: nat, i: nat, k: nat) {
    k < count && (c < k <= c + i || k <= c + i - count)
  }

  /** No slot the scan has come to is active. */
  ghost predicate NoneSeen(active: seq<bool>, c: int, count: nat, i: nat)
    requires |active| == MAX_TASKS
  {
    forall k :: 0 <= k < MAX_TASKS && active[k] ==> k < count && !Visited(c, count, i, k)
  }

  /** Scanning round the slots in use finds what the circle of ten finds. */
  lemma ScanFinds(active: seq<bool>, c: int, count: nat, i: nat)
    requires |active| == MAX_TASKS && -1 <= c < count <= MAX_TASKS && i < count && NoneSeen(active, c, count, i)
    ensures var n := if c + i + 1 < count then c + i + 1 else c + i + 1 - count;
      && (active[n] ==> FirstFrom(active, c, 1) == Some(n))
      && (!active[n] ==> NoneSeen(active, c, count, i + 1))
  {
    var n := if c + i + 1 < count then c + i + 1 else c + i + 1 - count;
    if active[n] { NearestIsFirst(active, c, n); }
  }

  lemma ScanStarts(active: seq<bool>, c: int, count: nat)
    requires |active| == MAX_TASKS && c < count && forall k :: count <= k < MAX_TASKS ==> !active[k]
    ensures NoneSeen(active, c, count, 0)
  {
  }

  lemma WrapAround(n: nat, count: nat)
    requires n <= count && count > 0
    ensures n % count == if n == count then 0 else n
  {
  }

  lemma ScanEnds(active: seq<bool>, c: int, count: nat)
    requires |active| == MAX_TASKS && -1 <= c < count <= MAX_TASKS && NoneSeen(active, c, count, count)
    ensures FirstFrom(active, c, 1) == None
  {
    FirstFromNearest(active, c, 1);
  }

  lemma StepValid(s: State, e: Event)
    requires StateValid(s) && Enabled(s, e)
    ensures StateValid(Step(s, e))
    ensures Step(s, e).count >= s.count
  {
    FirstFromNearest(s.active, s.current, 1);
    if e.Exit? { FirstFromNearest(s.active[s.current := false], s.current, 1); }
  }

  /** If any task is active after a scheduling step, the running one is; it comes no later on
      the circle than any other active task. */
  lemma SelectsNearest(s: State, e: Event, k: nat)
    requires StateValid(s) && Enabled(s, e) && Schedules(e) && k < MAX_TASKS
    requires StateValid(Step(s, e)) && Step(s, e).active[k]
    ensures var t := Step(s, e);
      t.current >= 0 && t.active[t.current] && Dist(s.current, t.current) <= Dist(s.current, k)
  {
    FirstFromNearest(Step(s, e).active, s.current, 1);
  }

  /** Who is active after a step: those who were, less the running task that exits, and the task
      created while fewer than ten were. */
  lemma ActiveAfter(s: State, e: Event, k: nat)
    requires StateValid(s) && Enabled(s, e) && k < 10 && |Step(s, e).active| == 10
    ensures Step(s, e).active[k] <==>
      (s.active[k] && !(e.Exit? && s.current == k)) || (e.Create? && s.count == k)
    ensures Step(s, e).count == s.count + if e.Create? && s.count < 10 then 1 else 0
  {
  }

  /** When no task is left, the context that was interrupted goes on; so it does when the exited
      task was the last one, and in the idle loop before the first. */
  lemma NobodyLeft(s: State, e: Event)
    requires StateValid(s) && Enabled(s, e) && Schedules(e)
    requires forall k :: 0 <= k < |Step(s, e).active| ==> !Step(s, e).active[k]
    ensures Step(s, e).current == s.current && Step(s, e).cpu == s.cpu
  {
    FirstFromNearest(Step(s, e).active, s.current, 1);
  }

  /** A task that exited stays out of the schedule for good. */
  lemma {:induction false} ExitIsForever(states: seq<State>, events: seq<Event>, k: nat, i: nat, j: nat)
    requires Run(states, events) && i <= j <= |events|
    requires k < states[i].count && !states[i].active[k]
    ensures k < states[j].count && !states[j].active[k]
  {
    if i < j {
      var m := j - 1;
      ExitIsForever(states, events, k, i, m);
      assert states[j] == Step(states[m], events[m]);
    }
  }

  // ---------- bounded waiting ----------

  /** Scheduling steps among the first n events. */
  function Calls(events: seq<Event>, n: nat): nat
    requires n <= |events|
  {
    if n == 0 then 0 else Calls(events, n - 1) + (if Schedules(events[n - 1]) then 1 else 0)
  }

  /** k stays active and is not selected from state i to state j. */
  ghost predicate Waits(states: seq<State>, events: seq<Event>, k: nat, i: nat, j: nat)
    requires |states| == |events| + 1 && i <= j <= |events|
  {
    && k < MAX_TASKS
    && (forall m :: i <= m <= j ==> k < |states[m].active| && states[m].active[k])
    && (forall m :: i <= m < j && Schedules(events[m]) ==> states[m + 1].current != k)
  }

  /** Going on from a slot n before k leaves exactly the rest of the way. */
  lemma NearerStep(c: int, n: nat, k: nat)
    requires -1 <= c < MAX_TASKS && n < MAX_TASKS && k < MAX_TASKS && n != k
    requires Dist(c, n) <= Dist(c, k)
    ensures Dist(n, k) == Dist(c, k) - Dist(c, n)
  {
  }

  /** Every call while k waits brings the selection nearer to k. */
  lemma {:induction false} WaitingGetsNearer(states: seq<State>, events: seq<Event>, k: nat, i: nat, j: nat)
    requires Run(states, events) && i <= j <= |events| && Waits(states, events, k, i, j)
    ensures Dist(states[j].current, k) + (Calls(events, j) - Calls(events, i)) <= Dist(states[i].current, k)
  {
    hide Dist, Step, FirstFrom;
    if i < j {
      var m := j - 1;
      WaitingGetsNearer(states, events, k, i, m);
      RunStep(states, events, m, j);
      WaitStep(states, events, k, i, m, j);
      CallsStep(events, m, j);
      StepGetsNearer(states[m], events[m], states[j], k);
    }
  }

  lemma WaitStep(states: seq<State>, events: seq<Event>, k: nat, i: nat, m: nat, j: nat)
    requires |states| == |events| + 1 && i <= m < j <= |events| && j == m + 1 && Waits(states, events, k, i, j)
    ensures k < MAX_TASKS && k < |states[j].active| && states[j].active[k]
    ensures Schedules(events[m]) ==> states[j].current != k
  {
  }

  lemma CallsStep(events: seq<Event>, m: nat, j: nat)
    requires m < j <= |events| && j == m + 1
    ensures Calls(events, j) == Calls(events, m) + if Schedules(events[m]) then 1 else 0
  {
  }

  lemma StepGetsNearer(s: State, e: Event, t: State, k: nat)
    requires StateValid(s) && StateValid(t) && Enabled(s, e) && t == Step(s, e) && k < MAX_TASKS && t.active[k]
    requires Schedules(e) ==> t.current != k
    ensures Dist(t.current, k) + (if Schedules(e) then 1 else 0) <= Dist(s.current, k)
  {
    if Schedules(e) {
      SelectsNearest(s, e, k);
      NearerStep(s.current, t.current, k);
    }
  }

  /** A task that stays active is selected within ten calls of schedule, and while it waits no
      other task is selected twice, whoever exits or is created meanwhile. */
  lemma BoundedWaiting(states: seq<State>, events: seq<Event>, k: nat, i: nat, j: nat)
    requires Run(states, events) && i <= j <= |events| && Waits(states, events, k, i, j)
    ensures Calls(events, j) - Calls(events, i) < 10
    ensures forall m, n :: i <= m < n < j && Schedules(events[m]) && Schedules(events[n]) ==>
      states[m + 1].current != states[n + 1].current
  {
    WaitingGetsNearer(states, events, k, i, j);
    forall m, n | i <= m < n < j && Schedules(events[m]) && Schedules(events[n])
      ensures states[m + 1].current != states[n + 1].current
    {
      SelectionsDiffer(states, events, k, m, n);
    }
  }

  lemma SelectionsDiffer(states: seq<State>, events: seq<Event>, k: nat, m: nat, n: nat)
    requires Run(states, events) && m < n < |events| && Waits(states, events, k, m, n + 1) && Schedules(events[n])
    ensures states[m + 1].current != states[n + 1].current
  {
    hide Run, Step, FirstFrom, Dist;
    WaitingGetsNearer(states, events, k, m + 1, n + 1);
    CallsGrow(events, m + 1, n);
    assert Calls(events, n + 1) == Calls(events, n) + 1;
  }

  lemma {:induction false} CallsGrow(events: seq<Event>, i: nat, j: nat)
    requires i <= j <= |events|
    ensures Calls(events, i) <= Calls(events, j)
  {
    if i < j { CallsGrow(events, i, j - 1); }
  }

  /** k is not the running task from state i to state j. */
  ghost predicate NotRunning(states: seq<State>, k: nat, i: nat, j: nat)
    requires i <= j < |states|
  {
    forall m :: i <= m <= j ==> states[m].current != k
  }

  /** Only the running task can exit. */
  lemma {:induction false} StaysActive(states: seq<State>, events: seq<Event>, k: nat, i: nat, j: nat)
    requires Run(states, events) && i <= j <= |events| && k < MAX_TASKS
    requires states[i].active[k] && NotRunning(states, k, i, j)
    ensures forall m :: i <= m <= j ==> states[m].active[k]
  {
    if i < j {
      var m := j - 1;
      StaysActive(states, events, k, i, m);
      StepKeepsActive(states[m], events[m], states[j], k) by { RunStep(states, events, m, j); }
    }
  }

  lemma RunStep(states: seq<State>, events: seq<Event>, m: nat, j: nat)
    requires Run(states, events) && m < |events| && j == m + 1
    ensures StateValid(states[m]) && Enabled(states[m], events[m]) && states[j] == Step(states[m], events[m])
  {
  }

  lemma StepKeepsActive(s: State, e: Event, t: State, k: nat)
    requires StateValid(s) && Enabled(s, e) && t == Step(s, e) && k < MAX_TASKS && s.active[k] && s.current != k
    ensures |t.active| == MAX_TASKS && t.active[k]
  {
  }

  /** The first moment of the run at which task k runs, or none. */
  lemma {:induction false} FirstRuns(states: seq<State>, k: nat, i: nat, j: nat) returns (m: nat)
    requires i <= j < |states|
    ensures i <= m <= j + 1
    ensures m <= j ==> states[m].current == k
    ensures m > i ==> NotRunning(states, k, i, m - 1)
    decreases j - i
  {
    if i == j {
      m := if states[j].current == k then j else j + 1;
    } else {
      m := FirstRuns(states, k, i, j - 1);
      if m == j && states[j].current != k { m := j + 1; }
    }
  }

  /** Ten calls of schedule select every active task, whatever else happens. */
  lemma SelectedWithinTen(states: seq<State>, events: seq<Event>, k: nat, i: nat, j: nat) returns (m: nat)
    requires Run(states, events) && i <= j <= |events| && k < MAX_TASKS
    requires states[i].active[k] && states[i].current != k
    requires Calls(events, j) - Calls(events, i) >= 10
    ensures i < m <= j && states[m].current == k
  {
    m := FirstRuns(states, k, i, j);
    if m > j {
      StaysActive(states, events, k, i, j);
      BoundedWaiting(states, events, k, i, j) by { NeverSelected(states, events, k, i, j); }
    }
  }

  lemma NeverSelected(states: seq<State>, events: seq<Event>, k: nat, i: nat, j: nat)
    requires |states| == |events| + 1 && i <= j <= |events| && k < MAX_TASKS && NotRunning(states, k, i, j)
    requires forall m :: i <= m <= j ==> k < |states[m].active| && states[m].active[k]
    ensures Waits(states, events, k, i, j)
  {
  }

  // ---------- contexts over a run ----------

  /** While a task is not running, what it resumes with does not change. */
  lemma {:induction false} SavedStays(states: seq<State>, events: seq<Event>, k: nat, i: nat, j: nat)
    requires Run(states, events) && i <= j <= |events| && k < states[i].count && NotRunning(states, k, i, j)
    ensures k < states[j].count <= MAX_TASKS && states[j].saved[k] == states[i].saved[k]
  {
    if i < j {
      var m := j - 1;
      SavedStays(states, events, k, i, m);
      RunStep(states, events, m, j);
      StepKeepsSaved(states[m], events[m], states[j], k);
    }
  }

  lemma StepKeepsSaved(s: State, e: Event, t: State, k: nat)
    requires StateValid(s) && Enabled(s, e) && t == Step(s, e) && k < s.count && s.current != k
    ensures k < t.count <= MAX_TASKS && |t.saved| == MAX_TASKS && t.saved[k] == s.saved[k]
  {
    StepValid(s, e);
  }

  /** A task interrupted at step i and running again after step j, at once or after others ran,
      resumes with exactly the context it was interrupted with. */
  lemma ResumesAsInterrupted(states: seq<State>, events: seq<Event>, k: nat, i: nat, j: nat)
    requires Run(states, events) && i <= j < |events| && (i < j ==> NotRunning(states, k, i + 1, j))
    requires states[i].current == k && events[i].Timer?
    requires states[j + 1].current == k
    ensures states[j + 1].cpu == states[i].cpu
  {
    RunStep(states, events, i, i + 1);
    TimerSaves(states[i]);
    if i < j {
      SavedStays(states, events, k, i + 1, j);
      RunStep(states, events, j, j + 1);
      DispatchLoads(states[j], events[j], k);
    }
  }

  /** A timer interrupt saves the running task's context, and leaves it when it selects it again. */
  lemma TimerSaves(s: State)
    requires StateValid(s) && s.current >= 0
    ensures var t := TimerStep(s);
      t.saved[s.current] == s.cpu && t.count == s.count && (t.current == s.current ==> t.cpu == s.cpu)
  {
  }

  /** A task created at step i and first running after step j starts with its initial context. */
  lemma StartsAsCreated(states: seq<State>, events: seq<Event>, k: nat, i: nat, j: nat)
    requires Run(states, events) && i < j < |events| && NotRunning(states, k, i + 1, j)
    requires events[i].Create? && states[i].count == k < MAX_TASKS
    requires states[j + 1].current == k
    ensures states[j + 1].cpu == events[i].start
  {
    RunStep(states, events, i, i + 1);
    SavedStays(states, events, k, i + 1, j);
    RunStep(states, events, j, j + 1);
    DispatchLoads(states[j], events[j], k);
  }

  lemma DispatchLoads(s: State, e: Event, k: nat)
    requires StateValid(s) && Enabled(s, e) && k < MAX_TASKS
    requires s.current != k && Step(s, e).current == k
    ensures Step(s, e).cpu == s.saved[k]
  {
  }
}
