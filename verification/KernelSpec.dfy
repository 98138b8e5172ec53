/**
 The system calls of kernal/syscall.c: one step relation over scheduler, message passing and
 packet pool, in which the caller is always the scheduler's current task.
 */
module KernelSpec {
  import opened Memory
  import opened Wrappers
  import SchedSpec
  import IpcSpec
  import NetDriver

  datatype State = State(sched: SchedSpec.State, ipc: IpcSpec.State, net: NetDriver.State)

  /** A system call of the current task, or something that happens to the machine in between. */
  datatype Event =
    | SendMsg(receiver: int, data: Option<seq<byte>>, size: int)
    | RecvMsg(sender: int, hasBuffer: bool, maxSize: int)
    | NetSend(len: int)
    | NetRecv(maxLen: int)
    | GetPid
    | Yield
    | CreateTask(entry: u64)
    | Exit
    | Unknown
    | Compute(regs: SchedSpec.Regs)
    | Interrupt

  ghost predicate Consistent(s: State) {
    SchedSpec.Valid(s.sched) && IpcSpec.Valid(s.ipc) && NetDriver.Consistent(s.net)
  }

  /** After boot: no task, every message and every packet free. */
  function Start(messages: nat, stacks: seq<u64>, cpu: SchedSpec.Regs): State
    requires |stacks| == SchedSpec.MAX_TASKS
  {
    State(SchedSpec.Cleared(stacks, cpu), IpcSpec.State(messages, seq(IpcSpec.MAX_TASKS, i => [])), NetDriver.START)
  }

  function SchedEvent(e: Event): Option<SchedSpec.Event> {
    match e
    case Yield => Some(SchedSpec.Yield)
    case CreateTask(entry) => Some(SchedSpec.Create(entry))
    case Exit => Some(SchedSpec.Exit)
    case Compute(regs) => Some(SchedSpec.Compute(regs))
    case _ => None
  }

  /** The message-passing call that e is when task me makes it. */
  function IpcCall(me: int, e: Event): Option<IpcSpec.Call> {
    match e
    case SendMsg(receiver, data, size) => Some(IpcSpec.Send(me, receiver, data, size))
    case RecvMsg(sender, hasBuffer, maxSize) => Some(IpcSpec.Recv(me, sender, hasBuffer, maxSize))
    case _ => None
  }

  function NetEvent(e: Event): Option<NetDriver.Event> {
    match e
    case NetRecv(_) => Some(NetDriver.SysRecv)
    case Interrupt => Some(NetDriver.Interrupt)
    case _ => None
  }

  /** Senders pass memory as long as they say. */
  predicate Callable(e: Event) {
    e.SendMsg? && e.data.Some? && e.size <= IpcSpec.MAX_MESSAGE_SIZE ==> e.size <= |e.data.value|
  }

  function Step(s: State, e: Event): State
    requires Consistent(s) && Callable(e)
  {
    var me := s.sched.current;
    State(if SchedEvent(e).Some? then SchedSpec.Step(s.sched, SchedEvent(e).value) else s.sched,
          if IpcCall(me, e).Some? then IpcSpec.Step(s.ipc, IpcCall(me, e).value).0 else s.ipc,
          if NetEvent(e).Some? then NetDriver.Step(s.net, NetEvent(e).value) else s.net)
  }

  /** What handle_syscall returns to the calling task. */
  function Result(s: State, e: Event): int
    requires Consistent(s) && Callable(e)
  {
    match e
    case SendMsg(_, _, _) => IpcSpec.Step(s.ipc, IpcCall(s.sched.current, e).value).1.ret
    case RecvMsg(_, _, _) => IpcSpec.Step(s.ipc, IpcCall(s.sched.current, e).value).1.ret
    case NetSend(len) => if len % 0x1_0000 > NetDriver.MAX_FRAME then -1 else 0
    case NetRecv(_) => if s.net.rx == [] then 0 else NetDriver.DUMMY_LENGTH
    case GetPid => s.sched.current
    case CreateTask(entry) => SchedSpec.CreateTask(s.sched, entry).1
    case Unknown => -1
    case _ => 0
  }

  /** The bytes a call stores at the front of the buffer its caller passed. */
  function Delivered(s: State, e: Event): seq<byte>
    requires Consistent(s) && Callable(e)
  {
    match e
    case RecvMsg(_, _, _) => IpcSpec.Step(s.ipc, IpcCall(s.sched.current, e).value).1.copied
    case NetRecv(maxLen) => NetDriver.SysRecvBytes(s.net, maxLen)
    case _ => []
  }

  lemma StepKeepsConsistent(s: State, e: Event)
    requires Consistent(s) && Callable(e)
    ensures Consistent(Step(s, e))
  {
  }

  ghost function Run(s: State, events: seq<Event>): (r: State)
    requires Consistent(s) && forall e :: e in events ==> Callable(e)
    ensures Consistent(r)
    decreases |events|
  {
    if events == [] then s else
      StepKeepsConsistent(s, events[0]);
      Run(Step(s, events[0]), events[1..])
  }

  // ---------------------------------------------------------------- runs of the parts inside a run of the kernel

  /** The message-passing calls of a run, each made by the task current at that moment. */
  ghost function IpcCalls(s: State, events: seq<Event>): seq<IpcSpec.Call>
    requires Consistent(s) && forall e :: e in events ==> Callable(e)
    decreases |events|
  {
    if events == [] then [] else
      StepKeepsConsistent(s, events[0]);
      var c := IpcCall(s.sched.current, events[0]);
      (if c.Some? then [c.value] else []) + IpcCalls(Step(s, events[0]), events[1..])
  }

  function SchedEvents(events: seq<Event>): seq<SchedSpec.Event> {
    if events == [] then [] else SchedEventOrNone(events[0]) + SchedEvents(events[1..])
  }

  function SchedEventOrNone(e: Event): seq<SchedSpec.Event> {
    if SchedEvent(e).Some? then [SchedEvent(e).value] else []
  }

  lemma {:induction false} IpcCallsAreCallable(s: State, events: seq<Event>)
    requires Consistent(s) && forall e :: e in events ==> Callable(e)
    ensures forall c :: c in IpcCalls(s, events) ==> IpcSpec.Callable(c)
    decreases |events|
  {
    if events != [] {
      StepKeepsConsistent(s, events[0]);
      IpcCallsAreCallable(Step(s, events[0]), events[1..]);
    }
  }

  lemma {:induction false} IpcInsideRun(s: State, events: seq<Event>)
    requires Consistent(s) && forall e :: e in events ==> Callable(e)
    ensures forall c :: c in IpcCalls(s, events) ==> IpcSpec.Callable(c)
    ensures Run(s, events).ipc == IpcSpec.Run(s.ipc, IpcCalls(s, events))
    decreases |events|
  {
    IpcCallsAreCallable(s, events);
    if events != [] {
      StepKeepsConsistent(s, events[0]);
      IpcInsideRun(Step(s, events[0]), events[1..]);
      var c := IpcCall(s.sched.current, events[0]);
      if c.Some? {
        assert IpcCalls(s, events)[1..] == IpcCalls(Step(s, events[0]), events[1..]);
      } else {
        assert IpcCalls(s, events) == IpcCalls(Step(s, events[0]), events[1..]);
      }
    }
  }

  /** Over any run of the kernel, with tasks switching, being created and exiting, messages stay FIFO. */
  lemma KernelFifo(s: State, events: seq<Event>, k: int)
    requires Consistent(s) && IpcSpec.IsTask(k) && forall e :: e in events ==> Callable(e)
    ensures forall c :: c in IpcCalls(s, events) ==> IpcSpec.Callable(c)
    ensures var calls := IpcCalls(s, events);
      IpcSpec.Fifo(s.ipc.queues[k], IpcSpec.Accepted(s.ipc, calls, k), IpcSpec.Received(s.ipc, calls, k),
                   Run(s, events).ipc.queues[k])
  {
    IpcInsideRun(s, events);
    IpcSpec.FifoDelivery(s.ipc, IpcCalls(s, events), k);
  }

  lemma {:induction false} SchedInsideRun(s: State, events: seq<Event>)
    requires Consistent(s) && forall e :: e in events ==> Callable(e)
    ensures Run(s, events).sched == SchedSpec.Run(s.sched, SchedEvents(events))
    decreases |events|
  {
    if events != [] {
      StepKeepsConsistent(s, events[0]);
      SchedInsideRun(Step(s, events[0]), events[1..]);
      var e := SchedEvent(events[0]);
      if e.Some? {
        assert SchedEvents(events)[1..] == SchedEvents(events[1..]);
      } else {
        assert SchedEvents(events) == SchedEvents(events[1..]);
      }
    }
  }

  // ---------------------------------------------------------------- scheduling over kernel events

  lemma {:induction false} SchedEventsConcat(a: seq<Event>, b: seq<Event>)
    ensures SchedEvents(a + b) == SchedEvents(a) + SchedEvents(b)
  {
    hide SchedEventOrNone;
    if a == [] {
      assert a + b == b;
    } else {
      assert (a + b)[0] == a[0] && (a + b)[1..] == a[1..] + b;
      SchedEventsConcat(a[1..], b);
      assert SchedEvents(a + b) == SchedEventOrNone(a[0]) + (SchedEvents(a[1..]) + SchedEvents(b));
    }
  }

  predicate AllCallable(events: seq<Event>) { forall e :: e in events ==> Callable(e) }

  /** The state after the first k events. */
  ghost function After(s: State, events: seq<Event>, k: nat): (r: State)
    requires Consistent(s) && AllCallable(events) && k <= |events|
    ensures Consistent(r)
  {
    Run(s, events[..k])
  }

  /** The scheduler after the first m of the events that concern it. */
  ghost function SchedAfter(s: State, events: seq<Event>, m: nat): SchedSpec.State
    requires Consistent(s) && m <= |SchedEvents(events)|
  {
    SchedSpec.Run(s.sched, SchedEvents(events)[..m])
  }

  /** How many of the first k events concern the scheduler. */
  function SchedCount(events: seq<Event>, k: nat): nat
    requires k <= |events|
  {
    |SchedEvents(events[..k])|
  }

  lemma SchedCountGrows(events: seq<Event>, j: nat, k: nat)
    requires j <= k <= |events|
    ensures SchedCount(events, j) <= SchedCount(events, k) <= |SchedEvents(events)|
    ensures SchedEvents(events[..k]) == SchedEvents(events)[..SchedCount(events, k)]
  {
    assert events[..k] == events[..j] + events[j..k] && events == events[..k] + events[k..];
    SchedEventsConcat(events[..j], events[j..k]);
    SchedEventsConcat(events[..k], events[k..]);
  }

  /** After k events of the kernel the scheduler is where its own run is after SchedCount of its events. */
  lemma SchedAt(s: State, events: seq<Event>, k: nat)
    requires Consistent(s) && k <= |events| && AllCallable(events)
    ensures SchedCount(events, k) <= |SchedEvents(events)|
    ensures After(s, events, k).sched == SchedAfter(s, events, SchedCount(events, k))
  {
    SchedCountGrows(events, k, k);
    SchedInsideRun(s, events[..k]);
  }

  /** Every point of the scheduler's run is reached by some point of the kernel's. */
  lemma {:induction false} PointOfSched(events: seq<Event>, m: nat) returns (k: nat)
    requires m <= |SchedEvents(events)|
    ensures k <= |events| && SchedCount(events, k) == m
  {
    k := 0;
    if m > 0 {
      k := PointOfSched(events[1..], if SchedEvent(events[0]).Some? then m - 1 else m);
      assert events[..k + 1][1..] == events[1..][..k];
      k := k + 1;
    }
  }

  lemma SchedIsValid(s: State, events: seq<Event>)
    requires Consistent(s)
    ensures SchedSpec.Valid(s.sched) && SchedCount(events, 0) == 0
  {
  }

  /** Seven yields or exits of any tasks are enough for a READY task to run, whatever else they call. */
  lemma ReadyTaskRuns(s: State, events: seq<Event>, t: int)
    requires Consistent(s) && AllCallable(events)
    requires 0 <= t < s.sched.num && t != s.sched.current && s.sched.tasks[t].state == SchedSpec.Ready
    requires SchedSpec.Schedulings(SchedEvents(events)) >= SchedSpec.MAX_TASKS - 1
    ensures exists k :: 0 < k <= |events| && After(s, events, k).sched.current == t
  {
    hide After, AllCallable, SchedEvents, SchedCount, Consistent, SchedSpec.Valid;
    SchedIsValid(s, events);
    var se := SchedEvents(events);
    SchedSpec.SevenSchedulingsSuffice(s.sched, se, t);
    var m: nat :| 0 < m <= |se| && SchedSpec.Run(s.sched, se[..m]).current == t;
    var k := PointOfSched(events, m);
    SchedAt(s, events, k);
    assert 0 < k <= |events| && After(s, events, k).sched.current == t;
  }

  /** A task that does not run between two points of the kernel does not run between those of the scheduler. */
  lemma AwayInSched(s: State, events: seq<Event>, t: int, i: nat, j: nat, m: nat)
    requires Consistent(s) && i <= j <= |events| && AllCallable(events)
    requires forall k :: i < k < j ==> After(s, events, k).sched.current != t
    requires SchedCount(events, i) < m < SchedCount(events, j)
    ensures m <= |SchedEvents(events)| && SchedAfter(s, events, m).current != t
  {
    SchedCountGrows(events, i, j);
    var k := PointOfSched(events, m);
    if k <= i { SchedCountGrows(events, k, i); }
    if k >= j { SchedCountGrows(events, j, k); }
    SchedAt(s, events, k);
  }

  /** Two points with another task current in between lie at least two scheduler events apart. */
  lemma ApartInSched(s: State, events: seq<Event>, t: int, i: nat, j: nat)
    requires Consistent(s) && i + 1 < j <= |events| && AllCallable(events)
    requires After(s, events, i).sched.current == t && After(s, events, j).sched.current == t
    requires After(s, events, i + 1).sched.current != t
    ensures SchedCount(events, i) + 1 < SchedCount(events, j) <= |SchedEvents(events)|
  {
    hide *;
    SchedAt(s, events, i);
    SchedAt(s, events, i + 1);
    SchedAt(s, events, j);
    SchedCountGrows(events, i, i + 1);
    SchedCountGrows(events, i + 1, j);
  }

  /** Whatever system calls were made meanwhile, a task resumes with the registers it was switched out with. */
  lemma ResumesAsSwitchedOut(s: State, events: seq<Event>, t: int, i: nat, j: nat)
    requires Consistent(s) && i + 1 < j <= |events| && AllCallable(events)
    requires After(s, events, i).sched.current == t && After(s, events, j).sched.current == t
    requires forall k :: i < k < j ==> After(s, events, k).sched.current != t
    ensures After(s, events, j).sched.cpu == After(s, events, i).sched.cpu
  {
    hide After, AllCallable, SchedEvents, SchedCount, Consistent, SchedSpec.Valid;
    SchedIsValid(s, events);
    ApartInSched(s, events, t, i, j);
    var se, a, b := SchedEvents(events), SchedCount(events, i), SchedCount(events, j);
    forall m | a < m < b ensures SchedSpec.Run(s.sched, se[..m]).current != t {
      AwayInSched(s, events, t, i, j, m);
    }
    SchedAt(s, events, i);
    SchedAt(s, events, j);
    SchedSpec.ResumesAsSwitchedOut(s.sched, se, t, a, b);
  }

  lemma OneSchedEvent(e: Event)
    ensures SchedEvents([e]) == SchedEventOrNone(e)
    ensures e.CreateTask? ==> SchedEventOrNone(e) == [SchedSpec.Create(e.entry)]
  {
    assert [e][1..] == [];
  }

  lemma CreateIsNext(events: seq<Event>, i: nat)
    requires i < |events| && events[i].CreateTask?
    ensures SchedCount(events, i) < SchedCount(events, i + 1) <= |SchedEvents(events)|
    ensures SchedEvents(events)[SchedCount(events, i)] == SchedSpec.Create(events[i].entry)
  {
    hide SchedEvents, SchedEventOrNone;
    var e := events[i];
    OneSchedEvent(e);
    SchedCountGrows(events, i, i + 1);
    assert events[..i + 1] == events[..i] + [e];
    SchedEventsConcat(events[..i], [e]);
  }

  /** A task created by a system call first runs at its entry, on its own stack. */
  lemma StartsAsCreated(s: State, events: seq<Event>, t: int, i: nat, j: nat)
    requires Consistent(s) && i < j <= |events| && AllCallable(events)
    requires events[i].CreateTask? && After(s, events, i).sched.num == t < SchedSpec.MAX_TASKS
    requires After(s, events, j).sched.current == t
    requires forall k :: i <= k < j ==> After(s, events, k).sched.current != t
    ensures After(s, events, j).sched.cpu == SchedSpec.InitialContext(events[i].entry, s.sched.stacks[t])
  {
    hide After, AllCallable, SchedEvents, SchedCount, Consistent, SchedSpec.Valid;
    SchedIsValid(s, events);
    var se, a, b := SchedEvents(events), SchedCount(events, i), SchedCount(events, j);
    SchedAt(s, events, i);
    SchedAt(s, events, j);
    CreateIsNext(events, i);
    SchedCountGrows(events, i + 1, j);
    forall m | a <= m < b ensures SchedSpec.Run(s.sched, se[..m]).current != t {
      if a < m { AwayInSched(s, events, t, i, j, m); }
    }
    SchedSpec.StartsAsCreated(s.sched, se, t, a, b);
  }

  /** A task that exited and was switched away from makes no system call ever again. */
  lemma ExitedMakesNoCalls(s: State, events: seq<Event>, t: int)
    requires Consistent(s) && 0 <= t < s.sched.num && t != s.sched.current && s.sched.tasks[t].state == SchedSpec.Unused
    requires forall e :: e in events ==> Callable(e)
    ensures forall c :: c in IpcCalls(s, events) ==> c.me != t
    decreases |events|
  {
    if events != [] {
      StepKeepsConsistent(s, events[0]);
      var e := SchedEvent(events[0]);
      if e.Some? {
        SchedSpec.ExitedNeverRuns(s.sched, [e.value], t);
        assert [e.value][1..] == [];
        SchedSpec.StepKeepsValid(s.sched, e.value);
      }
      ExitedMakesNoCalls(Step(s, events[0]), events[1..], t);
    }
  }

  /** From the call of exit on, once another task is current the caller makes no further call. */
  lemma ExitEndsCalls(s: State, events: seq<Event>)
    requires Consistent(s) && s.sched.current < s.sched.num && forall e :: e in events ==> Callable(e)
    requires Consistent(Step(s, Exit)) && Step(s, Exit).sched.current != s.sched.current
    ensures forall c :: c in IpcCalls(Step(s, Exit), events) ==> c.me != s.sched.current
  {
    SchedSpec.ExitMarks(s.sched);
    ExitedMakesNoCalls(Step(s, Exit), events, s.sched.current);
  }

  /** What each system call answers, and which parts of the kernel it leaves alone. */
  lemma Answers(s: State, e: Event)
    requires Consistent(s) && Callable(e)
    ensures var r := Step(s, e);
      && (e.GetPid? ==> r == s && Result(s, e) == s.sched.current)
      && (e.NetSend? ==> r == s && (Result(s, e) == 0 <==> e.len % 65536 <= 1514) && Result(s, e) in {0, -1})
      && (e.Unknown? ==> r == s && Result(s, e) == -1)
      && (e.Yield? || e.Exit? ==> Result(s, e) == 0)
      && (e.CreateTask? ==> Result(s, e) == if s.sched.num == 8 then -1 else s.sched.num)
      && (e.NetRecv? ==> Result(s, e) == if s.net.rx == [] then 0 else 64)
      && (!e.SendMsg? && !e.RecvMsg? ==> r.ipc == s.ipc)
      && (!e.NetRecv? && !e.Interrupt? ==> r.net == s.net)
      && (!e.Yield? && !e.CreateTask? && !e.Exit? && !e.Compute? ==> r.sched == s.sched)
  {
    hide SchedSpec.Step, NetDriver.Step, IpcSpec.Step;
  }
}
