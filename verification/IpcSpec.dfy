/**
 Message passing of kernal/ipc.c seen from outside: a pool of message slots and one FIFO queue
 for each of the eight tasks, and what every run of sends and receives delivers.
 */
module IpcSpec {
  import opened Memory
  import opened Wrappers
  import SchedSpec

  const MAX_TASKS: nat := SchedSpec.MAX_TASKS
  const MAX_MESSAGE_SIZE: nat := 256
  const MAX_MESSAGES: nat := 64

  datatype Msg = Msg(sender: int, bytes: seq<byte>)

  /** free slots, and the queued messages of each task, oldest first */
  datatype State = State(free: nat, queues: seq<seq<Msg>>)

  function Total<T>(lists: seq<seq<T>>): nat {
    if lists == [] then 0 else |lists[0]| + Total(lists[1..])
  }

  lemma {:induction false} TotalUpdate<T>(lists: seq<seq<T>>, k: nat, l: seq<T>)
    requires k < |lists|
    ensures Total(lists[k := l]) == Total(lists) - |lists[k]| + |l|
  {
    var r := lists[k := l];
    if k == 0 {
      assert r[1..] == lists[1..];
    } else {
      assert r[1..] == lists[1..][k - 1 := l];
      TotalUpdate(lists[1..], k - 1, l);
    }
  }

  lemma {:induction false} TotalAtLeast<T>(lists: seq<seq<T>>, k: nat)
    requires k < |lists|
    ensures |lists[k]| <= Total(lists)
  {
    if k > 0 { TotalAtLeast(lists[1..], k - 1); }
  }

  predicate IsTask(pid: int) { 0 <= pid < MAX_TASKS }

  ghost predicate Valid(s: State) {
    && |s.queues| == MAX_TASKS
    && forall k, i :: 0 <= k < MAX_TASKS && 0 <= i < |s.queues[k]| ==> Sound(s.queues[k][i])
  }

  /** Every queued message came from a task and has 1 to 256 bytes. */
  predicate Sound(m: Msg) {
    IsTask(m.sender) && 0 < |m.bytes| <= MAX_MESSAGE_SIZE
  }

  /** The argument checks of send_message; data is the memory behind the pointer, None for null. */
  predicate WellFormedSend(receiver: int, data: Option<seq<byte>>, size: int) {
    IsTask(receiver) && 0 < size <= MAX_MESSAGE_SIZE && data.Some?
  }

  datatype Call =
    | Send(me: int, receiver: int, data: Option<seq<byte>>, size: int)
    | Recv(me: int, sender: int, hasBuffer: bool, maxSize: int)

  /** What a caller must provide: it is a task, and its data is as long as it says. */
  predicate Callable(c: Call) {
    IsTask(c.me) && (c.Send? && c.data.Some? && c.size <= MAX_MESSAGE_SIZE ==> c.size <= |c.data.value|)
  }

  /** The result of a call: returned value, sender of the message taken and bytes stored in the buffer. */
  datatype Reply = Reply(ret: int, sender: int, copied: seq<byte>)

  const FAILED: Reply := Reply(-1, -1, [])

  function Step(s: State, c: Call): (State, Reply)
    requires |s.queues| == MAX_TASKS && Callable(c)
  {
    match c
    case Send(me, receiver, data, size) =>
      if !WellFormedSend(receiver, data, size) || s.free == 0 then (s, FAILED) else
        var m := Msg(me, data.value[..size]);
        (State(s.free - 1, s.queues[receiver := s.queues[receiver] + [m]]), Reply(0, -1, []))
    case Recv(me, sender, hasBuffer, maxSize) =>
      if !hasBuffer || maxSize <= 0 || s.queues[me] == [] then (s, FAILED) else
        var m := s.queues[me][0];
        (State(s.free + 1, s.queues[me := s.queues[me][1..]]),
         Reply(|m.bytes|, m.sender, m.bytes[..Min(|m.bytes|, maxSize)]))
  }

  function Run(s: State, calls: seq<Call>): (r: State)
    requires |s.queues| == MAX_TASKS && forall c :: c in calls ==> Callable(c)
    ensures |r.queues| == MAX_TASKS
    decreases |calls|
  {
    if calls == [] then s else Run(Step(s, calls[0]).0, calls[1..])
  }

  // ---------------------------------------------------------------- what a task was sent and got

  /** The message call c adds for task k: a send to k that returned 0, with its sender and bytes. */
  function AcceptedBy(s: State, c: Call, k: int): seq<Msg>
    requires |s.queues| == MAX_TASKS && Callable(c)
  {
    if c.Send? && Step(s, c).1.ret == 0 && c.receiver == k then [Msg(c.me, c.data.value[..c.size])] else []
  }

  datatype Receipt = Receipt(reply: Reply, room: int)

  /** What task k gets from call c: the reply of a successful receive, and the buffer size given. */
  function ReceivedBy(s: State, c: Call, k: int): seq<Receipt>
    requires |s.queues| == MAX_TASKS && Callable(c)
  {
    if c.Recv? && Step(s, c).1.ret != -1 && c.me == k then [Receipt(Step(s, c).1, c.maxSize)] else []
  }

  function Accepted(s: State, calls: seq<Call>, k: int): seq<Msg>
    requires |s.queues| == MAX_TASKS && forall c :: c in calls ==> Callable(c)
    decreases |calls|
  {
    if calls == [] then [] else AcceptedBy(s, calls[0], k) + Accepted(Step(s, calls[0]).0, calls[1..], k)
  }

  function Received(s: State, calls: seq<Call>, k: int): seq<Receipt>
    requires |s.queues| == MAX_TASKS && forall c :: c in calls ==> Callable(c)
    decreases |calls|
  {
    if calls == [] then [] else ReceivedBy(s, calls[0], k) + Received(Step(s, calls[0]).0, calls[1..], k)
  }

  /** The receipt of message m: full size returned, its sender, and as many bytes as fit. */
  predicate Delivers(r: Receipt, m: Msg) {
    && r.reply.ret == |m.bytes| && r.reply.sender == m.sender
    && r.room > 0 && r.reply.copied == m.bytes[..Min(|m.bytes|, r.room)]
  }

  lemma StepKeepsValid(s: State, c: Call)
    requires Valid(s) && Callable(c)
    ensures Valid(Step(s, c).0)
    ensures Step(s, c).0.free + Total(Step(s, c).0.queues) == s.free + Total(s.queues)
  {
    match c
    case Send(me, receiver, data, size) =>
      if WellFormedSend(receiver, data, size) && s.free > 0 {
        TotalUpdate(s.queues, receiver, s.queues[receiver] + [Msg(me, data.value[..size])]);
      }
    case Recv(me, sender, hasBuffer, maxSize) =>
      if hasBuffer && maxSize > 0 && s.queues[me] != [] {
        TotalUpdate(s.queues, me, s.queues[me][1..]);
      }
  }

  /** Every run keeps each queued message sound and neither loses nor invents a slot. */
  lemma {:induction false} RunKeepsValid(s: State, calls: seq<Call>)
    requires Valid(s) && forall c :: c in calls ==> Callable(c)
    ensures Valid(Run(s, calls))
    ensures Run(s, calls).free + Total(Run(s, calls).queues) == s.free + Total(s.queues)
    decreases |calls|
  {
    if calls != [] {
      StepKeepsValid(s, calls[0]);
      RunKeepsValid(Step(s, calls[0]).0, calls[1..]);
    }
  }

  /**
   The messages got are the first ones of those waiting followed by those accepted: in order,
   each once, intact; and the rest of that sequence is left in the queue.
   */
  ghost predicate Fifo(waiting: seq<Msg>, accepted: seq<Msg>, got: seq<Receipt>, left: seq<Msg>) {
    var all := waiting + accepted;
    && |got| <= |all| && left == all[|got|..]
    && forall j :: 0 <= j < |got| ==> Delivers(got[j], all[j])
  }

  lemma FifoCompose(waiting: seq<Msg>, a1: seq<Msg>, g1: seq<Receipt>, mid: seq<Msg>,
                    a2: seq<Msg>, g2: seq<Receipt>, left: seq<Msg>)
    requires Fifo(waiting, a1, g1, mid) && Fifo(mid, a2, g2, left)
    ensures Fifo(waiting, a1 + a2, g1 + g2, left)
  {
  }

  /** One call: the queue grows at its end by what is accepted and shrinks at its front by what is received. */
  lemma StepDelivers(s: State, c: Call, k: int)
    requires Valid(s) && IsTask(k) && Callable(c)
    ensures Fifo(s.queues[k], AcceptedBy(s, c, k), ReceivedBy(s, c, k), Step(s, c).0.queues[k])
  {
  }

  /** FIFO delivery over any interleaving of sends and receives by any tasks. */
  lemma {:induction false} FifoDelivery(s: State, calls: seq<Call>, k: int)
    requires Valid(s) && IsTask(k) && forall c :: c in calls ==> Callable(c)
    ensures Fifo(s.queues[k], Accepted(s, calls, k), Received(s, calls, k), Run(s, calls).queues[k])
    decreases |calls|
  {
    if calls != [] {
      var c, rest := calls[0], calls[1..];
      var s' := Step(s, c).0;
      StepKeepsValid(s, c);
      StepDelivers(s, c, k);
      FifoDelivery(s', rest, k);
      FifoCompose(s.queues[k], AcceptedBy(s, c, k), ReceivedBy(s, c, k), s'.queues[k],
                  Accepted(s', rest, k), Received(s', rest, k), Run(s', rest).queues[k]);
    }
  }

  /** Starting with nothing queued, what a task received is a prefix of what was accepted for it. */
  lemma FifoFromEmpty(n: nat, calls: seq<Call>, k: int)
    requires IsTask(k) && forall c :: c in calls ==> Callable(c)
    ensures var s := State(n, seq(MAX_TASKS, i => []));
      Fifo([], Accepted(s, calls, k), Received(s, calls, k), Run(s, calls).queues[k])
  {
    FifoDelivery(State(n, seq(MAX_TASKS, i => [])), calls, k);
  }

  /** A send with valid arguments fails exactly when the queues hold the whole pool of n slots. */
  lemma SendFailsIffPoolQueued(s: State, c: Call, n: nat)
    requires Valid(s) && Callable(c) && s.free + Total(s.queues) == n
    requires c.Send? && WellFormedSend(c.receiver, c.data, c.size)
    ensures Step(s, c).1.ret == -1 <==> Total(s.queues) == n
  {
  }

  /** After a successful receive a send with valid arguments succeeds. */
  lemma ReceiveMakesRoom(s: State, r: Call, c: Call)
    requires Valid(s) && Callable(r) && Callable(c)
    requires r.Recv? && Step(s, r).1.ret != -1
    requires c.Send? && WellFormedSend(c.receiver, c.data, c.size)
    ensures Step(Step(s, r).0, c).1.ret == 0
  {
  }

  // ---------------------------------------------------------------- when calls succeed, and what they do then

  /** A send is accepted exactly when its arguments are in range and not all n slots are queued. */
  lemma SendSucceedsIff(s: State, c: Call, n: nat)
    requires Valid(s) && Callable(c) && c.Send? && s.free + Total(s.queues) == n
    ensures var (r, reply) := Step(s, c);
      && (reply.ret == 0 <==> 0 <= c.receiver < 8 && 0 < c.size <= 256 && c.data.Some? && Total(s.queues) < n)
      && (reply.ret == 0 ==>
          var m := Msg(c.me, c.data.value[..c.size]);
          r.free == s.free - 1 && r.queues == s.queues[c.receiver := s.queues[c.receiver] + [m]])
      && (reply.ret != 0 ==> reply.ret == -1 && r == s)
  {
  }

  /**
   A receive succeeds exactly when there is a buffer, its size is positive and a message waits,
   however small the buffer; it takes the oldest message.
   */
  lemma ReceiveSucceedsIff(s: State, c: Call)
    requires Valid(s) && Callable(c) && c.Recv?
    ensures var (r, reply) := Step(s, c);
      && (reply.ret != -1 <==> c.hasBuffer && c.maxSize > 0 && s.queues[c.me] != [])
      && (reply.ret == -1 ==> r == s && reply.copied == [])
      && (reply.ret != -1 ==>
          var m := s.queues[c.me][0];
          && reply.ret == |m.bytes| && reply.sender == m.sender
          && reply.copied == (if |m.bytes| <= c.maxSize then m.bytes else m.bytes[..c.maxSize])
          && r.free == s.free + 1 && r.queues == s.queues[c.me := s.queues[c.me][1..]])
  {
  }

  /** How often task k offers a buffer. */
  function Offers(calls: seq<Call>, k: int): nat {
    if calls == [] then 0 else
      var c := calls[0];
      (if c.Recv? && c.me == k && c.hasBuffer && c.maxSize > 0 then 1 else 0) + Offers(calls[1..], k)
  }

  /** Whatever is waiting for a task is received once the task has offered that many buffers. */
  lemma {:induction false} WaitingIsReceived(s: State, calls: seq<Call>, k: int)
    requires Valid(s) && IsTask(k) && forall c :: c in calls ==> Callable(c)
    ensures |Received(s, calls, k)| >= Min(Offers(calls, k), |s.queues[k]|)
    decreases |calls|
  {
    if calls != [] {
      var s' := Step(s, calls[0]).0;
      StepKeepsValid(s, calls[0]);
      WaitingIsReceived(s', calls[1..], k);
      StepDelivers(s, calls[0], k);
      if calls[0].Recv? { ReceiveSucceedsIff(s, calls[0]); }
    }
  }
}
