/** handle_syscall of kernal/syscall.c, on the real scheduler, message lists and packet pool. */
module Kernel {
  import opened Memory
  import opened Wrappers
  import opened KernelSpec
  import SchedSpec
  import Sched
  import IpcSpec
  import Ipc
  import NetDriver
  import Heap
  import HeapSpec
  import HeapTheorems

  /** The arguments of a system call, with the memory its pointers lead to. */
  datatype Request =
    | SendMsgCall(receiver: int, data: array?<byte>, size: int)
    | RecvMsgCall(sender: int, buffer: array?<byte>, maxSize: int)
    | NetSendCall(len: int)
    | NetRecvCall(packet: array<byte>, maxLen: int)
    | GetPidCall
    | YieldCall
    | CreateTaskCall(entry: u64)
    | ExitCall
    | UnknownCall

  function EventOf(r: Request): Event
    reads if r.SendMsgCall? && r.data != null then {r.data} else {}
  {
    match r
    case SendMsgCall(receiver, data, size) => SendMsg(receiver, if data == null then None else Some(data[..]), size)
    case RecvMsgCall(sender, buffer, maxSize) => RecvMsg(sender, buffer != null, maxSize)
    case NetSendCall(len) => NetSend(len)
    case NetRecvCall(_, maxLen) => NetRecv(maxLen)
    case GetPidCall => GetPid
    case YieldCall => Yield
    case CreateTaskCall(entry) => CreateTask(entry)
    case ExitCall => Exit
    case UnknownCall => Unknown
  }

  /** The buffer a call may write. */
  function Target(r: Request): array?<byte> {
    match r
    case RecvMsgCall(_, buffer, _) => buffer
    case NetRecvCall(packet, _) => packet
    case _ => null
  }

  function Writes(r: Request): set<array<byte>> {
    if Target(r) == null then {} else {Target(r)}
  }

  /** The caller's memory is as large as it says. */
  predicate Backed(r: Request)
    reads if r.SendMsgCall? && r.data != null then {r.data} else {}
  {
    && Callable(EventOf(r))
    && (r.RecvMsgCall? && r.buffer != null ==> r.maxSize <= r.buffer.Length)
    && (r.NetRecvCall? ==> r.maxLen <= r.packet.Length)
  }

  class Kernel {
    const sched: Sched.Scheduler
    const ipc: Ipc.IpcSystem
    const net: NetDriver.Driver

    constructor (sched: Sched.Scheduler, ipc: Ipc.IpcSystem, net: NetDriver.Driver)
      ensures this.sched == sched && this.ipc == ipc && this.net == net
    {
      this.sched, this.ipc, this.net := sched, ipc, net;
    }

    ghost function Abstract(): State
      reads sched, ipc, net, net.rx
    {
      State(sched.model, ipc.Abstract(), net.Abstract())
    }

    ghost predicate Valid()
      reads sched, sched.parts, ipc, ipc.queues, ipc.pool, net, net.rx, net.members, net.freeList, net.rx.list
    {
      sched.Valid() && ipc.Valid() && net.Valid() && Consistent(Abstract())
    }

    twostate predicate SchedKept()
      reads sched, sched.parts
    {
      unchanged(sched) && forall o :: o in sched.parts ==> unchanged(o)
    }

    twostate predicate IpcKept()
      reads ipc, ipc.queues, ipc.pool
    {
      && unchanged(ipc) && (forall q :: q in ipc.queues ==> unchanged(q))
      && forall m :: m in ipc.pool ==> unchanged(m)
    }

    twostate predicate NetKept()
      reads net, net.rx, net.members
    {
      unchanged(net) && unchanged(net.rx) && forall p :: p in net.members ==> unchanged(p)
    }

    /** Scheduling leaves messages and packets alone. */
    twostate lemma SchedMoved(e: Event)
      requires old(Valid()) && sched.Valid() && SchedEvent(e).Some?
      requires sched.model == SchedSpec.Step(old(sched.model), SchedEvent(e).value)
      requires IpcKept() && NetKept()
      ensures Valid() && Abstract() == Step(old(Abstract()), e)
    {
      StepKeepsConsistent(old(Abstract()), e);
      hide Consistent, Sched.Scheduler.Valid, Ipc.IpcSystem.Valid, NetDriver.Driver.Valid, SchedSpec.Step;
      ipc.Frame();
      net.Frame();
    }

    /** Message passing leaves tasks and packets alone. */
    twostate lemma IpcMoved(e: Event)
      requires old(Valid()) && ipc.Valid() && ipc.pool == old(ipc.pool) && (e.SendMsg? || e.RecvMsg?)
      requires Callable(e) && IpcSpec.Callable(CallOf(e))
      requires |old(ipc.contents)| == IpcSpec.MAX_TASKS
      requires ipc.Abstract() == IpcSpec.Step(old(ipc.Abstract()), CallOf(e)).0
      requires SchedKept() && NetKept()
      ensures Valid() && Abstract() == Step(old(Abstract()), e)
    {
      StepKeepsConsistent(old(Abstract()), e);
      assert sched.Valid() && sched.currentTask == sched.model.current;
      hide Consistent, Sched.Scheduler.Valid, Ipc.IpcSystem.Valid, NetDriver.Driver.Valid, IpcSpec.Step;
      net.Frame();
    }

    /** The packet pool leaves tasks and messages alone. */
    twostate lemma NetMoved(maxLen: int)
      requires old(Valid()) && net.Valid() && net.Abstract() == NetDriver.Step(old(net.Abstract()), NetDriver.SysRecv)
      requires SchedKept() && IpcKept()
      ensures Valid() && Abstract() == Step(old(Abstract()), NetRecv(maxLen))
    {
      StepKeepsConsistent(old(Abstract()), NetRecv(maxLen));
      assert sched.Valid();
      hide Consistent, Sched.Scheduler.Valid, Ipc.IpcSystem.Valid, NetDriver.Driver.Valid, NetDriver.Step;
      ipc.Frame();
    }

    /** The call of the message system that the current task's event e is. */
    ghost function CallOf(e: Event): IpcSpec.Call
      reads sched
      requires e.SendMsg? || e.RecvMsg?
    {
      IpcCall(sched.currentTask, e).value
    }

    // What each kind of call finds when it starts.

    lemma AtScheduling(entry: u64)
      requires Valid()
      ensures sched.Valid() && forall o :: o in sched.parts ==> o is Sched.TaskSlot || o is Sched.Context
      ensures SchedEvent(Yield) == Some(SchedSpec.Yield) && SchedEvent(Exit) == Some(SchedSpec.Exit)
      ensures SchedEvent(CreateTask(entry)) == Some(SchedSpec.Create(entry))
      ensures var m := sched.model;
        && SchedSpec.Valid(m) && Consistent(Abstract())
        && SchedSpec.Step(m, SchedSpec.Yield) == SchedSpec.Schedule(m) && Result(Abstract(), Yield) == 0
        && SchedSpec.Step(m, SchedSpec.Exit) == SchedSpec.ExitCurrent(m) && Result(Abstract(), Exit) == 0
        && SchedSpec.Step(m, SchedSpec.Create(entry)) == SchedSpec.CreateTask(m, entry).0
        && Result(Abstract(), CreateTask(entry)) == SchedSpec.CreateTask(m, entry).1
    {
      hide SchedSpec.Valid, SchedSpec.Schedule, SchedSpec.CreateTask, SchedSpec.ExitCurrent;
    }

    lemma AtMessage(e: Event)
      requires Valid() && Callable(e) && (e.SendMsg? || e.RecvMsg?)
      ensures ipc.Valid() && |ipc.contents| == IpcSpec.MAX_TASKS && Consistent(Abstract())
      ensures IpcSpec.IsTask(sched.currentTask) && IpcSpec.Callable(CallOf(e)) && CallOf(e).me == sched.currentTask
      ensures var r := IpcSpec.Step(ipc.Abstract(), CallOf(e)).1;
        Result(Abstract(), e) == r.ret && (e.RecvMsg? ==> Delivered(Abstract(), e) == r.copied)
      ensures e.SendMsg? ==> CallOf(e) == IpcSpec.Send(sched.currentTask, e.receiver, e.data, e.size)
      ensures e.RecvMsg? ==> CallOf(e) == IpcSpec.Recv(sched.currentTask, e.sender, e.hasBuffer, e.maxSize)
      ensures forall o :: o in sched.parts ==> o is Sched.TaskSlot || o is Sched.Context
    {
      hide IpcSpec.Step;
    }

    lemma AtPacket(maxLen: int)
      requires Valid()
      ensures net.Valid() && Consistent(Abstract())
      ensures Result(Abstract(), NetRecv(maxLen)) == if net.Abstract().rx == [] then 0 else NetDriver.DUMMY_LENGTH
      ensures Delivered(Abstract(), NetRecv(maxLen)) == NetDriver.SysRecvBytes(net.Abstract(), maxLen)
      ensures maxLen >= 0 ==> |NetDriver.SysRecvBytes(net.Abstract(), maxLen)| <= maxLen
      ensures maxLen < 0 ==> NetDriver.SysRecvBytes(net.Abstract(), maxLen) == []
      ensures forall o :: o in sched.parts ==> o is Sched.TaskSlot || o is Sched.Context
    {
    }

    method SendCall(receiver: int, data: array?<byte>, size: int) returns (ret: int)
      requires Valid() && Callable(EventOf(SendMsgCall(receiver, data, size)))
      modifies ipc, ipc.queues, ipc.pool
      ensures Valid()
      ensures var e := old(EventOf(SendMsgCall(receiver, data, size)));
        Abstract() == Step(old(Abstract()), e) && ret == Result(old(Abstract()), e)
    {
      hide Valid, Consistent, Step, Result, Delivered, SchedEvent, IpcCall;
      hide SchedSpec.Step, IpcSpec.Step, NetDriver.Step;
      hide Sched.Scheduler.Valid, Ipc.IpcSystem.Valid, NetDriver.Driver.Valid;
      ghost var e := SendEvent(receiver, data, size);
      AtMessage(e);
      ret := ipc.SendMessage(sched.currentTask, receiver, data, size);
      IpcMoved(e);
    }

    ghost function SendEvent(receiver: int, data: array?<byte>, size: int): (e: Event)
      reads if data == null then {} else {data}
      ensures e == EventOf(SendMsgCall(receiver, data, size)) && e.SendMsg?
      ensures e.receiver == receiver && e.data == (if data == null then None else Some(data[..])) && e.size == size
    {
      SendMsg(receiver, if data == null then None else Some(data[..]), size)
    }

    method RecvCall(sender: int, buffer: array?<byte>, maxSize: int) returns (ret: int)
      requires Valid() && (buffer != null ==> maxSize <= buffer.Length)
      modifies ipc, ipc.queues, ipc.pool, buffer
      ensures Valid()
      ensures var e := RecvMsg(sender, buffer != null, maxSize);
        && Abstract() == Step(old(Abstract()), e) && ret == Result(old(Abstract()), e)
        && (buffer != null ==> var c := Delivered(old(Abstract()), e);
              |c| <= buffer.Length && buffer[..] == c + old(buffer[..])[|c|..])
    {
      ghost var e := RecvMsg(sender, buffer != null, maxSize);
      hide Valid, Consistent, Step, Result, Delivered, SchedEvent, IpcCall;
      hide SchedSpec.Step, IpcSpec.Step, NetDriver.Step;
      hide Sched.Scheduler.Valid, Ipc.IpcSystem.Valid, NetDriver.Driver.Valid;
      AtMessage(e);
      ret := ipc.RecvMessage(sched.currentTask, sender, buffer, maxSize);
      IpcMoved(e);
    }

    /** SYS_NET_RECV */
    method PacketCall(packet: array<byte>, maxLen: int) returns (ret: int)
      requires Valid() && maxLen <= packet.Length
      modifies net, net.rx, net.members, packet
      ensures Valid()
      ensures var e := NetRecv(maxLen);
        && Abstract() == Step(old(Abstract()), e) && ret == Result(old(Abstract()), e)
        && var c := Delivered(old(Abstract()), e);
          |c| <= packet.Length && packet[..] == c + old(packet[..])[|c|..]
    {
      hide Valid, Consistent, Step, Result, Delivered, SchedEvent, IpcCall;
      hide SchedSpec.Step, IpcSpec.Step, NetDriver.Step;
      hide Sched.Scheduler.Valid, Ipc.IpcSystem.Valid, NetDriver.Driver.Valid;
      AtPacket(maxLen);
      ret := net.SysNetRecv(packet, maxLen);
      NetMoved(maxLen);
    }

    method YieldNow() returns (ret: int)
      requires Valid()
      modifies sched, sched.parts
      ensures Valid()
      ensures Abstract() == Step(old(Abstract()), Yield) && ret == Result(old(Abstract()), Yield)
    {
      hide Valid, Consistent, Step, Result, Delivered, SchedEvent, IpcCall;
      hide SchedSpec.Step, IpcSpec.Step, NetDriver.Step;
      hide Sched.Scheduler.Valid, Ipc.IpcSystem.Valid, NetDriver.Driver.Valid;
      AtScheduling(0);
      sched.TaskYield();
      SchedMoved(Yield);
      ret := 0;
    }

    method CreateNow(entry: u64) returns (ret: int)
      requires Valid()
      modifies sched, sched.parts
      ensures Valid()
      ensures var e := CreateTask(entry);
        Abstract() == Step(old(Abstract()), e) && ret == Result(old(Abstract()), e)
    {
      hide Valid, Consistent, Step, Result, Delivered, SchedEvent, IpcCall;
      hide SchedSpec.Step, IpcSpec.Step, NetDriver.Step;
      hide Sched.Scheduler.Valid, Ipc.IpcSystem.Valid, NetDriver.Driver.Valid;
      AtScheduling(entry);
      ret := sched.CreateTask(entry);
      SchedMoved(CreateTask(entry));
    }

    method ExitNow() returns (ret: int)
      requires Valid()
      modifies sched, sched.parts
      ensures Valid()
      ensures Abstract() == Step(old(Abstract()), Exit) && ret == Result(old(Abstract()), Exit)
    {
      hide Valid, Consistent, Step, Result, Delivered, SchedEvent, IpcCall;
      hide SchedSpec.Step, IpcSpec.Step, NetDriver.Step;
      hide Sched.Scheduler.Valid, Ipc.IpcSystem.Valid, NetDriver.Driver.Valid;
      AtScheduling(0);
      sched.ExitTask();
      SchedMoved(Exit);
      ret := 0;
    }

    lemma CurrentIsTask()
      requires Valid()
      ensures sched.currentTask == sched.model.current && IpcSpec.IsTask(sched.currentTask)
    {
    }

    method HandleSyscall(r: Request) returns (ret: int)
      requires Valid() && Backed(r)
      modifies sched, sched.parts, ipc, ipc.queues, ipc.pool, net, net.rx, net.members, Writes(r)
      ensures Valid()
      ensures Abstract() == Step(old(Abstract()), old(EventOf(r))) && ret == Result(old(Abstract()), old(EventOf(r)))
      ensures Target(r) != null ==> var c := Delivered(old(Abstract()), old(EventOf(r)));
        |c| <= Target(r).Length && Target(r)[..] == c + old(Target(r)[..])[|c|..]
    {
      match r
      case SendMsgCall(receiver, data, size) =>
        ret := SendCall(receiver, data, size);
      case RecvMsgCall(sender, buffer, maxSize) =>
        ret := RecvCall(sender, buffer, maxSize);
      case NetSendCall(len) =>
        ret := if len % 0x1_0000 > NetDriver.MAX_FRAME then -1 else 0;
      case NetRecvCall(packet, maxLen) =>
        ret := PacketCall(packet, maxLen);
      case GetPidCall =>
        CurrentIsTask();
        ret := sched.currentTask;
      case YieldCall =>
        ret := YieldNow();
      case CreateTaskCall(entry) =>
        ret := CreateNow(entry);
      case ExitCall =>
        ret := ExitNow();
      case UnknownCall =>
        ret := -1;
    }
  }

  /** mm_init, ipc_init, the table loop of sched_init and net_init: the state every run starts from. */
  method Boot(memory: array<byte>, start: nat, end: nat, stacks: seq<u64>, cpu: Sched.Context) returns (kernel: Kernel)
    requires 0 < start && end % 8 == 0 && end <= memory.Length < 0x1_0000_0000_0000_0000
    requires 0 <= end - Heap.AlignUp(start) - HeapSpec.HEADER < 0x1_0000_0000 - HeapSpec.HEADER
    requires |stacks| == SchedSpec.MAX_TASKS
    modifies memory
    ensures fresh(kernel) && kernel.Valid()
    ensures kernel.Abstract() ==
      Start(Min(IpcSpec.MAX_MESSAGES, HeapTheorems.Capacity(Heap.AlignUp(start), end)), stacks, cpu.Value())
  {
    hide Sched.Scheduler.Valid, Ipc.IpcSystem.Valid, NetDriver.Driver.Valid, Sched.Context.Value;
    var heap, ipc := Ipc.Boot(memory, start, end);
    var net := NetDriver.Boot();
    var sched := new Sched.Scheduler(stacks, cpu);
    kernel := new Kernel(sched, ipc, net);
  }
}
