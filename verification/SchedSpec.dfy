/**
 The round-robin scheduler of kernal/sched.c as a state machine: a growing table of at most
 eight tasks, one of them current, and the callee-saved registers of the processor.
 */
module SchedSpec {
  import opened Memory

  const MAX_TASKS: nat := 8

  /** The registers context_switch saves and loads. */
  datatype Regs = Regs(ra: u64, sp: u64, s0: u64, s1: u64, s2: u64, s3: u64, s4: u64, s5: u64,
                       s6: u64, s7: u64, s8: u64, s9: u64, s10: u64, s11: u64)

  datatype TaskState = Unused | Running | Ready | Blocked

  datatype Task = Task(pid: int, state: TaskState, context: Regs)

  /** stacks: the address of the last stack byte of each slot, which is fixed. */
  datatype State = State(tasks: seq<Task>, current: int, num: int, cpu: Regs, stacks: seq<u64>)

  /** What can happen: the current task computes, creates a task, yields, or exits. */
  datatype Event = Compute(regs: Regs) | Create(entry: u64) | Yield | Exit

  function InitialContext(entry: u64, stack: u64): Regs {
    Regs(entry, stack, 0, 0, 0, 0, 0, 0, 0, 0, 0, 0, 0, 0)
  }

  ghost predicate Valid(s: State) {
    && |s.tasks| == |s.stacks| == MAX_TASKS && 0 <= s.num <= MAX_TASKS
    && 0 <= s.current && (s.current < s.num || s.num == s.current == 0)
    && (forall i :: 0 <= i < MAX_TASKS ==> s.tasks[i].pid == i)
    && (forall i :: s.num <= i < MAX_TASKS ==> s.tasks[i].state == Unused)
    && (forall i :: 0 <= i < MAX_TASKS && s.tasks[i].state == Running ==> i == s.current)
  }

  /** The table as sched_init clears it: every slot unused, with its own pid. */
  function Cleared(stacks: seq<u64>, cpu: Regs): (s: State)
    requires |stacks| == MAX_TASKS
  {
    var zero := Regs(0, 0, 0, 0, 0, 0, 0, 0, 0, 0, 0, 0, 0, 0);
    State(seq(MAX_TASKS, i => Task(i, Unused, zero)), 0, 0, cpu, stacks)
  }

  /** (i + 1) % n for a position of the ring */
  function Succ(i: int, n: int): int { if i + 1 == n then 0 else i + 1 }

  /** Steps from c forward to t on a ring of n positions. */
  function Distance(c: int, t: int, n: int): int { if c <= t then t - c else t - c + n }

  /** First READY task from position i on, or the current task. */
  function Scan(s: State, i: int): (r: int)
    requires Valid(s) && 0 <= i < s.num
    ensures 0 <= r < s.num && (r == s.current || s.tasks[r].state == Ready)
    decreases Distance(i, s.current, s.num)
  {
    if i == s.current || s.tasks[i].state == Ready then i else Scan(s, Succ(i, s.num))
  }

  /** The scan passes over no READY task: whatever it skips is nearer to the start and not READY. */
  lemma {:induction false} ScanIsFirst(s: State, i: int, j: int)
    requires Valid(s) && 0 <= i < s.num && 0 <= j < s.num
    requires Distance(i, j, s.num) < Distance(i, Scan(s, i), s.num)
    ensures s.tasks[j].state != Ready && j != s.current
    decreases Distance(i, s.current, s.num)
  {
    if i != j {
      ScanIsFirst(s, Succ(i, s.num), j);
    }
  }

  function CreateTask(s: State, entry: u64): (State, int)
    requires Valid(s)
  {
    if s.num >= MAX_TASKS then (s, -1) else
      var task := Task(s.num, Ready, InitialContext(entry, s.stacks[s.num]));
      (s.(tasks := s.tasks[s.num := task], num := s.num + 1), s.num)
  }

  function Preempted(t: Task, cpu: Regs): Task {
    t.(state := if t.state == Running then Ready else t.state, context := cpu)
  }

  function Schedule(s: State): State
    requires Valid(s)
  {
    if s.num <= 1 then s else
      var next := Scan(s, Succ(s.current, s.num));
      if next == s.current then s else
        s.(tasks := s.tasks[s.current := Preempted(s.tasks[s.current], s.cpu)]
                           [next := s.tasks[next].(state := Running)],
           current := next, cpu := s.tasks[next].context)
  }

  function ExitCurrent(s: State): State
    requires Valid(s)
  {
    var t := s.tasks[s.current].(state := Unused);
    Schedule(s.(tasks := s.tasks[s.current := t]))
  }

  function Step(s: State, e: Event): State
    requires Valid(s)
  {
    match e
    case Compute(regs) => s.(cpu := regs)
    case Create(entry) => CreateTask(s, entry).0
    case Yield => Schedule(s)
    case Exit => ExitCurrent(s)
  }

  lemma StepKeepsValid(s: State, e: Event)
    requires Valid(s)
    ensures Valid(Step(s, e)) && s.num <= Step(s, e).num && Step(s, e).stacks == s.stacks
  {
  }

  ghost function Run(s: State, events: seq<Event>): (r: State)
    requires Valid(s)
    ensures Valid(r) && s.num <= r.num && r.stacks == s.stacks
    decreases |events|
  {
    StepKeepsValid(s, if events == [] then Yield else events[0]);
    if events == [] then s else Run(Step(s, events[0]), events[1..])
  }

  lemma {:induction false} RunStep(s: State, events: seq<Event>, k: nat)
    requires Valid(s) && k < |events|
    ensures Run(s, events[..k + 1]) == Step(Run(s, events[..k]), events[k])
    decreases k
  {
    StepKeepsValid(s, events[0]);
    if k == 0 {
      assert events[..1][1..] == [];
    } else {
      assert events[..k + 1][1..] == events[1..][..k] && events[..k][1..] == events[1..][..k - 1];
      RunStep(Step(s, events[0]), events[1..], k - 1);
    }
  }

  // ---------------------------------------------------------------- bounded waiting

  predicate Schedules(e: Event) { e.Yield? || e.Exit? }

  function Schedulings(events: seq<Event>): nat {
    if events == [] then 0 else (if Schedules(events[0]) then 1 else 0) + Schedulings(events[1..])
  }

  /** An upper bound on the calls of schedule until task t runs: its ring distance, and room for tasks still to come. */
  function Wait(s: State, t: int): int {
    Distance(s.current, t, s.num) + (MAX_TASKS - s.num)
  }

  lemma WaitShrinks(s: State, e: Event, t: int)
    requires Valid(s) && 0 <= t < s.num && t != s.current && s.tasks[t].state == Ready
    ensures Step(s, e).current == t || (t < Step(s, e).num && Step(s, e).tasks[t].state == Ready)
    ensures Wait(Step(s, e), t) <= Wait(s, t) - (if Schedules(e) then 1 else 0)
    ensures !Schedules(e) ==> Step(s, e).current == s.current
  {
    if Schedules(e) {
      var u := if e.Yield? then s else s.(tasks := s.tasks[s.current := s.tasks[s.current].(state := Unused)]);
      var i := Succ(s.current, s.num);
      if Distance(i, t, s.num) < Distance(i, Scan(u, i), s.num) {
        ScanIsFirst(u, i, t);
      }
    }
  }

  /** A READY task gets the processor before schedule has been called more often than Wait says. */
  lemma {:induction false} RunsWithin(s: State, events: seq<Event>, t: int)
    requires Valid(s) && 0 <= t < s.num && t != s.current && s.tasks[t].state == Ready
    requires Schedulings(events) >= Wait(s, t)
    ensures exists k :: 0 < k <= |events| && Run(s, events[..k]).current == t
    decreases |events|
  {
    assert Wait(s, t) > 0;
    if events != [] {
      var s' := Step(s, events[0]);
      StepKeepsValid(s, events[0]);
      WaitShrinks(s, events[0], t);
      if s'.current == t {
        RunStep(s, events, 0);
        assert Run(s, events[..1]).current == t;
      } else {
        RunsWithin(s', events[1..], t);
        var k :| 0 < k <= |events| - 1 && Run(s', events[1..][..k]).current == t;
        assert events[..k + 1][1..] == events[1..][..k];
        assert Run(s, events[..k + 1]).current == t;
      }
    }
  }

  /** Seven calls of schedule are always enough, whatever is created or exits in between. */
  lemma SevenSchedulingsSuffice(s: State, events: seq<Event>, t: int)
    requires Valid(s) && 0 <= t < s.num && t != s.current && s.tasks[t].state == Ready
    requires Schedulings(events) >= MAX_TASKS - 1
    ensures exists k :: 0 < k <= |events| && Run(s, events[..k]).current == t
  {
    RunsWithin(s, events, t);
  }

  /** schedule goes to the first READY task after the current one in ring order, if there is any. */
  lemma PicksNextReady(s: State)
    requires Valid(s) && s.num > 1
    ensures var r := Schedule(s).current;
      && (r == s.current ==> forall j :: 0 <= j < s.num && j != s.current ==> s.tasks[j].state != Ready)
      && (r != s.current ==> s.tasks[r].state == Ready && Schedule(s).tasks[r].state == Running)
      && (r != s.current ==> forall j ::
            0 <= j < s.num && 0 < Distance(s.current, j, s.num) < Distance(s.current, r, s.num) ==>
              s.tasks[j].state != Ready)
  {
    var i := Succ(s.current, s.num);
    var r := Scan(s, i);
    forall j | 0 <= j < s.num && Distance(i, j, s.num) < Distance(i, r, s.num)
      ensures s.tasks[j].state != Ready
    {
      ScanIsFirst(s, i, j);
    }
  }

  // ---------------------------------------------------------------- tasks that are gone

  /** A task that exited and was switched away from never runs again. */
  lemma {:induction false} ExitedNeverRuns(s: State, events: seq<Event>, t: int)
    requires Valid(s) && 0 <= t < s.num && t != s.current && s.tasks[t].state == Unused
    ensures Run(s, events).current != t && Run(s, events).tasks[t].state == Unused
    decreases |events|
  {
    if events != [] {
      StepKeepsValid(s, events[0]);
      ExitedNeverRuns(Step(s, events[0]), events[1..], t);
    }
  }

  // ---------------------------------------------------------------- register contexts

  /** While task t is not current nobody touches its saved context. */
  lemma StepKeepsContext(s: State, e: Event, t: int)
    requires Valid(s) && 0 <= t < s.num && t != s.current
    ensures Step(s, e).tasks[t].context == s.tasks[t].context
    ensures Step(s, e).current == t ==> Step(s, e).cpu == s.tasks[t].context
  {
  }

  lemma SwitchingSaves(s: State, e: Event)
    requires Valid(s) && Step(s, e).current != s.current
    ensures s.current < Step(s, e).num && Step(s, e).tasks[s.current].context == s.cpu
  {
  }

  lemma CreatingPrepares(s: State, entry: u64)
    requires Valid(s) && s.num < MAX_TASKS
    ensures var r := Step(s, Create(entry));
      s.num < r.num && r.current == s.current && r.tasks[s.num].context == InitialContext(entry, s.stacks[s.num])
  {
  }

  lemma {:induction false} ContextKept(s: State, events: seq<Event>, t: int, i: nat, j: nat)
    requires Valid(s) && i <= j <= |events| && 0 <= t < Run(s, events[..i]).num
    requires forall k :: i <= k < j ==> Run(s, events[..k]).current != t
    ensures i < j && Run(s, events[..j]).current == t ==>
      Run(s, events[..j]).cpu == Run(s, events[..i]).tasks[t].context
    ensures Run(s, events[..j]).current != t ==>
      Run(s, events[..j]).tasks[t].context == Run(s, events[..i]).tasks[t].context
    ensures t < Run(s, events[..j]).num
    decreases j
  {
    if i < j {
      ContextKept(s, events, t, i, j - 1);
      RunStep(s, events, j - 1);
      StepKeepsContext(Run(s, events[..j - 1]), events[j - 1], t);
      StepKeepsValid(Run(s, events[..j - 1]), events[j - 1]);
    }
  }

  /**
   A task resumes with exactly the registers it had when it was switched out, whatever the
   other tasks did to them in between.
   */
  lemma ResumesAsSwitchedOut(s: State, events: seq<Event>, t: int, i: nat, j: nat)
    requires Valid(s) && i < j <= |events|
    requires Run(s, events[..i]).current == t && Run(s, events[..j]).current == t
    requires forall k :: i < k < j ==> Run(s, events[..k]).current != t
    requires i + 1 < j
    ensures Run(s, events[..j]).cpu == Run(s, events[..i]).cpu
  {
    var out := Run(s, events[..i]);
    RunStep(s, events, i);
    hide Run, Step;
    SwitchingSaves(out, events[i]);
    ContextKept(s, events, t, i + 1, j);
  }

  /** A created task starts at its entry, on its own stack, with all other registers zero. */
  lemma StartsAsCreated(s: State, events: seq<Event>, t: int, i: nat, j: nat)
    requires Valid(s) && i < j <= |events| && events[i].Create?
    requires Run(s, events[..i]).num == t < MAX_TASKS && Run(s, events[..j]).current == t
    requires forall k :: i <= k < j ==> Run(s, events[..k]).current != t
    ensures Run(s, events[..j]).cpu == InitialContext(events[i].entry, s.stacks[t])
  {
    RunStep(s, events, i);
    hide Run, Step;
    CreatingPrepares(Run(s, events[..i]), events[i].entry);
    assert i + 1 < j;
    ContextKept(s, events, t, i + 1, j);
  }

  // ---------------------------------------------------------------- what one event does to the table

  /**
   schedule changes two tasks at most: the one it leaves, which becomes READY if it was RUNNING
   and keeps its registers, and the one it goes to, whose registers are loaded.
   */
  lemma ScheduleChanges(s: State)
    requires Valid(s)
    ensures var r, old_ := Schedule(s), s.tasks[s.current];
      && r.num == s.num && r.stacks == s.stacks && |r.tasks| == MAX_TASKS
      && (r.current == s.current ==> r == s)
      && (r.current != s.current ==>
          && r.tasks[s.current].state == (if old_.state == Running then Ready else old_.state)
          && r.tasks[s.current].context == s.cpu && r.tasks[s.current].pid == s.current
          && r.tasks[r.current] == s.tasks[r.current].(state := Running) && r.cpu == s.tasks[r.current].context)
      && forall i :: 0 <= i < MAX_TASKS && i != s.current && i != r.current ==> r.tasks[i] == s.tasks[i]
  {
  }

  /** A RUNNING task that yields gets the processor back within seven further schedulings. */
  lemma YieldingTaskRunsAgain(s: State, events: seq<Event>)
    requires Valid(s) && s.tasks[s.current].state == Running
    requires Schedulings(events) >= MAX_TASKS - 1
    ensures exists k :: 0 <= k <= |events| && Valid(Step(s, Yield))
                        && Run(Step(s, Yield), events[..k]).current == s.current
  {
    var r := Step(s, Yield);
    StepKeepsValid(s, Yield);
    if r.current == s.current {
      assert Run(r, events[..0]).current == s.current;
    } else {
      ScheduleChanges(s);
      SevenSchedulingsSuffice(r, events, s.current);
    }
  }

  /** A created task is READY in the next free slot, whose number is returned; a full table is left as it is. */
  lemma CreateMakesReady(s: State, entry: u64)
    requires Valid(s)
    ensures var (r, pid) := CreateTask(s, entry);
      if s.num == 8 then r == s && pid == -1 else
        && pid == s.num && r.num == s.num + 1 && r.current == s.current && r.cpu == s.cpu && r.stacks == s.stacks
        && |r.tasks| == MAX_TASKS && r.tasks[pid].pid == pid && r.tasks[pid].state == Ready
        && r.tasks[pid].context == Regs(entry, s.stacks[pid], 0, 0, 0, 0, 0, 0, 0, 0, 0, 0, 0, 0)
        && forall i :: 0 <= i < MAX_TASKS && i != pid ==> r.tasks[i] == s.tasks[i]
  {
  }

  /** A created task runs within seven schedulings of its creation. */
  lemma CreatedTaskRuns(s: State, entry: u64, events: seq<Event>)
    requires Valid(s) && s.num < MAX_TASKS && Schedulings(events) >= MAX_TASKS - 1
    ensures exists k :: 0 <= k <= |events| && Valid(Step(s, Create(entry)))
                        && Run(Step(s, Create(entry)), events[..k]).current == s.num
  {
    var r := Step(s, Create(entry));
    StepKeepsValid(s, Create(entry));
    CreateMakesReady(s, entry);
    if r.current == s.num {
      assert Run(r, events[..0]).current == s.num;
    } else {
      SevenSchedulingsSuffice(r, events, s.num);
    }
  }

  /** Exit marks the current task UNUSED and gives the processor away if any other task is READY. */
  lemma ExitMarks(s: State)
    requires Valid(s)
    ensures var r := Step(s, Exit);
      && |r.tasks| == MAX_TASKS && r.num == s.num && r.tasks[s.current].state == Unused
      && (r.current == s.current <==> forall j :: 0 <= j < s.num && j != s.current ==> s.tasks[j].state != Ready)
      && forall i :: 0 <= i < MAX_TASKS && i != s.current && i != r.current ==> r.tasks[i] == s.tasks[i]
  {
    var u := s.(tasks := s.tasks[s.current := s.tasks[s.current].(state := Unused)]);
    ScheduleChanges(u);
    if s.num > 1 { PicksNextReady(u); }
    assert forall j :: 0 <= j < s.num && j != s.current ==> u.tasks[j] == s.tasks[j];
  }

  /** A task marked UNUSED stays so, even while no other task can take over. */
  lemma {:induction false} StaysUnused(s: State, events: seq<Event>, t: int)
    requires Valid(s) && 0 <= t < s.num && s.tasks[t].state == Unused
    ensures Run(s, events).tasks[t].state == Unused
    decreases |events|
  {
    if events != [] {
      StepKeepsValid(s, events[0]);
      StaysUnused(Step(s, events[0]), events[1..], t);
    }
  }

  /** Exit is final: at any later time at which another task is current, the task has run for the last time. */
  lemma ExitIsFinal(s: State, before: seq<Event>, after: seq<Event>)
    requires Valid(s) && s.current < s.num
    requires Valid(Step(s, Exit)) && Run(Step(s, Exit), before).current != s.current
    ensures Run(Run(Step(s, Exit), before), after).current != s.current
  {
    ExitMarks(s);
    StaysUnused(Step(s, Exit), before, s.current);
    ExitedNeverRuns(Run(Step(s, Exit), before), after, s.current);
  }
}
