/**
 The socket table of server/net_srv.c seen from outside: 32 slots, fresh ids, and for each
 socket the bytes waiting to be read.
 */
module NetServerSpec {
  import opened Memory

  const MAX_SOCKETS: nat := 32
  const RX_SIZE: nat := 1024
  const SOCK_TCP: int := 1
  const INT_MAX: int := 0x7fff_ffff

  datatype SocketState = Closed | Listening | Connected | Bound

  datatype Address = Address(ip: u32, port: int)

  datatype Socket = Socket(id: int, owner: int, kind: int, state: SocketState, local: Address, remote: Address,
                           inUse: bool, rx: seq<byte>)

  datatype Table = Table(socks: seq<Socket>, nextId: int)

  datatype Event =
    | Allocate(pid: int, kind: int)
    | Close(id: int)
    | Bind(id: int, address: Address)
    | Listen(id: int)
    | Connect(id: int, address: Address)
    | Recv(id: int, maxLen: int)
    | Packet(bytes: seq<byte>)

  datatype Reply = Reply(ret: int, bytes: seq<byte>)

  /** First slot in use with this id, |socks| if there is none. */
  function Find(socks: seq<Socket>, id: int): (r: nat)
    ensures r <= |socks|
    ensures r < |socks| ==> socks[r].inUse && socks[r].id == id
    ensures forall i :: 0 <= i < r ==> !(socks[i].inUse && socks[i].id == id)
  {
    if socks == [] then 0
    else if socks[0].inUse && socks[0].id == id then 0
    else
      var r := 1 + Find(socks[1..], id);
      assert forall i :: 0 < i < |socks| ==> socks[i] == socks[1..][i - 1];
      r
  }

  function FindUnused(socks: seq<Socket>): (r: nat)
    ensures r <= |socks|
    ensures r < |socks| ==> !socks[r].inUse
    ensures forall i :: 0 <= i < r ==> socks[i].inUse
  {
    if socks == [] then 0
    else if !socks[0].inUse then 0
    else
      var r := 1 + FindUnused(socks[1..]);
      assert forall i :: 0 < i < |socks| ==> socks[i] == socks[1..][i - 1];
      r
  }

  /** Where a network packet goes: the first connected socket. */
  function FindConnected(socks: seq<Socket>): (r: nat)
    ensures r <= |socks|
    ensures r < |socks| ==> socks[r].inUse && socks[r].state == Connected
    ensures forall i :: 0 <= i < r ==> !(socks[i].inUse && socks[i].state == Connected)
  {
    if socks == [] then 0
    else if socks[0].inUse && socks[0].state == Connected then 0
    else
      var r := 1 + FindConnected(socks[1..]);
      assert forall i :: 0 < i < |socks| ==> socks[i] == socks[1..][i - 1];
      r
  }

  ghost predicate Valid(t: Table) {
    && |t.socks| == MAX_SOCKETS && 1 <= t.nextId
    && (forall i :: 0 <= i < MAX_SOCKETS ==> SocketOk(t.socks[i], t.nextId))
    && (forall i, j :: 0 <= i < j < MAX_SOCKETS && t.socks[i].inUse && t.socks[j].inUse ==>
        t.socks[i].id != t.socks[j].id)
  }

  /** Ids in use are below the next one, unused slots are closed, and only TCP sockets listen, connect or hold data. */
  predicate SocketOk(s: Socket, nextId: int) {
    && |s.rx| <= RX_SIZE
    && (s.inUse ==> 1 <= s.id < nextId)
    && (!s.inUse ==> s.state == Closed)
    && (s.inUse && s.kind != SOCK_TCP ==> (s.state == Closed || s.state == Bound) && s.rx == [])
  }

  /** Ids do not run out of the C int range. */
  predicate Callable(t: Table, e: Event) {
    e.Allocate? ==> t.nextId < INT_MAX
  }

  /** socket_add_rx_data takes the longest prefix that fits. */
  function Fits(s: Socket, bytes: seq<byte>): seq<byte>
    requires |s.rx| <= RX_SIZE
  {
    bytes[..Min(|bytes|, RX_SIZE - |s.rx|)]
  }

  function Update(t: Table, i: nat, s: Socket): Table
    requires i < |t.socks|
  {
    t.(socks := t.socks[i := s])
  }

  function Opened(s: Socket, id: int, pid: int, kind: int): Socket {
    s.(id := id, owner := pid, kind := kind, state := Closed, inUse := true, rx := [])
  }

  function Step(t: Table, e: Event): (Table, Reply)
    requires Valid(t)
  {
    match e
    case Allocate(pid, kind) =>
      var i := FindUnused(t.socks);
      if i == |t.socks| then (t, Reply(-1, []))
      else (Table(t.socks[i := Opened(t.socks[i], t.nextId, pid, kind)], t.nextId + 1), Reply(t.nextId, []))
    case Close(id) =>
      var i := Find(t.socks, id);
      if i == |t.socks| then (t, Reply(0, []))
      else (Update(t, i, t.socks[i].(inUse := false, state := Closed)), Reply(0, []))
    case Bind(id, address) =>
      var i := Find(t.socks, id);
      if i == |t.socks| then (t, Reply(-1, []))
      else (Update(t, i, t.socks[i].(local := address, state := Bound)), Reply(0, []))
    case Listen(id) =>
      var i := Find(t.socks, id);
      if i == |t.socks| || t.socks[i].kind != SOCK_TCP then (t, Reply(-1, []))
      else (Update(t, i, t.socks[i].(state := Listening)), Reply(0, []))
    case Connect(id, address) =>
      var i := Find(t.socks, id);
      if i == |t.socks| || t.socks[i].kind != SOCK_TCP then (t, Reply(-1, []))
      else (Update(t, i, t.socks[i].(remote := address, state := Connected)), Reply(0, []))
    case Recv(id, maxLen) =>
      var i := Find(t.socks, id);
      if i == |t.socks| then (t, Reply(-1, []))
      else if t.socks[i].rx == [] then (t, Reply(0, []))
      else
        var s := t.socks[i];
        var n := Min(|s.rx|, maxLen);
        var k := if n < 0 then 0 else n;
        (Update(t, i, s.(rx := s.rx[k..])), Reply(n, s.rx[..k]))
    case Packet(bytes) =>
      var i := FindConnected(t.socks);
      if i == |t.socks| then (t, Reply(0, []))
      else (Update(t, i, t.socks[i].(rx := t.socks[i].rx + Fits(t.socks[i], bytes))), Reply(0, []))
  }

  /** Reading from a socket that holds data. */
  lemma RecvStep(t: Table, id: int, maxLen: int)
    requires Valid(t) && Find(t.socks, id) < |t.socks| && t.socks[Find(t.socks, id)].rx != []
    ensures var i := Find(t.socks, id);
      var s, n := t.socks[i], Min(|t.socks[i].rx|, maxLen);
      var k := if n < 0 then 0 else n;
      Step(t, Recv(id, maxLen)) == (Update(t, i, s.(rx := s.rx[k..])), Reply(n, s.rx[..k]))
  {
  }

  lemma StepKeepsValid(t: Table, e: Event)
    requires Valid(t) && Callable(t, e)
    ensures Valid(Step(t, e).0) && t.nextId <= Step(t, e).0.nextId
  {
  }

  ghost predicate Legal(t: Table, events: seq<Event>)
    requires Valid(t)
    decreases |events|
  {
    events != [] ==>
      Callable(t, events[0]) && (StepKeepsValid(t, events[0]); Legal(Step(t, events[0]).0, events[1..]))
  }

  /** Every run keeps ids distinct and fresh, unused slots closed, and data with TCP sockets only. */
  ghost function Run(t: Table, events: seq<Event>): (r: Table)
    requires Valid(t) && Legal(t, events)
    ensures Valid(r) && t.nextId <= r.nextId
    decreases |events|
  {
    if events == [] then t else
      StepKeepsValid(t, events[0]);
      Run(Step(t, events[0]).0, events[1..])
  }

  predicate InUse(t: Table, id: int) { Find(t.socks, id) < |t.socks| }

  // ---------------------------------------------------------------- ids

  lemma FindIs(socks: seq<Socket>, id: int, i: nat)
    requires i <= |socks| && (i < |socks| ==> socks[i].inUse && socks[i].id == id)
    requires forall k :: 0 <= k < i ==> !(socks[k].inUse && socks[k].id == id)
    ensures Find(socks, id) == i
  {
  }

  lemma FindUnusedIs(socks: seq<Socket>, i: nat)
    requires i <= |socks| && (i < |socks| ==> !socks[i].inUse)
    requires forall k :: 0 <= k < i ==> socks[k].inUse
    ensures FindUnused(socks) == i
  {
  }

  lemma FindConnectedIs(socks: seq<Socket>, i: nat)
    requires i <= |socks| && (i < |socks| ==> socks[i].inUse && socks[i].state == Connected)
    requires forall k :: 0 <= k < i ==> !(socks[k].inUse && socks[k].state == Connected)
    ensures FindConnected(socks) == i
  {
  }

  lemma FoundAt(socks: seq<Socket>, id: int, i: nat)
    requires i < |socks| && socks[i].inUse && socks[i].id == id
    requires forall k, l :: 0 <= k < l < |socks| && socks[k].inUse && socks[l].inUse ==> socks[k].id != socks[l].id
    ensures Find(socks, id) == i
  {
  }

  /** A socket in use stays in its slot, with its id, owner and type, until it is closed. */
  lemma SlotKept(t: Table, e: Event, i: nat)
    requires Valid(t) && Callable(t, e) && i < MAX_SOCKETS && t.socks[i].inUse && e != Close(t.socks[i].id)
    ensures var s' := Step(t, e).0.socks[i];
      s'.inUse && s'.id == t.socks[i].id && s'.owner == t.socks[i].owner && s'.kind == t.socks[i].kind
    ensures Find(Step(t, e).0.socks, t.socks[i].id) == i
  {
  }

  lemma StepIds(t: Table, e: Event, id: int)
    requires Valid(t) && Callable(t, e)
    ensures InUse(Step(t, e).0, id) ==> InUse(t, id) || (e.Allocate? && id == t.nextId)
    ensures InUse(t, id) && e != Close(id) ==> InUse(Step(t, e).0, id)
    ensures InUse(t, id) && e == Close(id) ==> !InUse(Step(t, e).0, id)
    ensures InUse(t, id) ==> id < t.nextId
  {
    if InUse(t, id) && e != Close(id) {
      SlotKept(t, e, Find(t.socks, id));
    }
  }

  /** An id that was handed out and is not in use is never found again. */
  lemma {:induction false} ClosedStaysClosed(t: Table, events: seq<Event>, id: int)
    requires Valid(t) && Legal(t, events) && id < t.nextId && !InUse(t, id)
    ensures !InUse(Run(t, events), id)
    decreases |events|
  {
    if events != [] {
      StepKeepsValid(t, events[0]);
      StepIds(t, events[0], id);
      ClosedStaysClosed(Step(t, events[0]).0, events[1..], id);
    }
  }

  // ---------------------------------------------------------------- byte streams

  /** The bytes waiting in socket id. */
  function Waiting(t: Table, id: int): seq<byte>
    requires InUse(t, id)
  {
    t.socks[Find(t.socks, id)].rx
  }

  /** The part of a network packet that socket id takes in event e. */
  function AcceptedBy(t: Table, e: Event, id: int): seq<byte>
    requires Valid(t) && InUse(t, id)
  {
    var i := FindConnected(t.socks);
    if e.Packet? && i < |t.socks| && t.socks[i].id == id then Fits(t.socks[i], e.bytes) else []
  }

  /** The bytes a reader of socket id gets in event e. */
  function HandedBy(t: Table, e: Event, id: int): seq<byte>
    requires Valid(t)
  {
    if e.Recv? && e.id == id then Step(t, e).1.bytes else []
  }

  ghost predicate Open(t: Table, events: seq<Event>, id: int)
    requires Valid(t) && Legal(t, events)
  {
    InUse(t, id) && forall i :: 0 <= i < |events| ==> events[i] != Close(id)
  }

  ghost function Accepted(t: Table, events: seq<Event>, id: int): seq<byte>
    requires Valid(t) && Legal(t, events) && Open(t, events, id)
    decreases |events|
  {
    if events == [] then [] else
      StepKeepsValid(t, events[0]);
      StepIds(t, events[0], id);
      AcceptedBy(t, events[0], id) + Accepted(Step(t, events[0]).0, events[1..], id)
  }

  ghost function Handed(t: Table, events: seq<Event>, id: int): seq<byte>
    requires Valid(t) && Legal(t, events)
    decreases |events|
  {
    if events == [] then [] else
      StepKeepsValid(t, events[0]);
      HandedBy(t, events[0], id) + Handed(Step(t, events[0]).0, events[1..], id)
  }

  lemma StepStreams(t: Table, e: Event, id: int)
    requires Valid(t) && Callable(t, e) && InUse(t, id) && e != Close(id)
    ensures InUse(Step(t, e).0, id)
    ensures Waiting(t, id) + AcceptedBy(t, e, id) == HandedBy(t, e, id) + Waiting(Step(t, e).0, id)
  {
    var i := Find(t.socks, id);
    SlotKept(t, e, i);
    RxStep(t, e, i);
    hide Step, Find;
    if e.Packet? && FindConnected(t.socks) < |t.socks| && t.socks[FindConnected(t.socks)].id == id {
      FoundAt(t.socks, id, FindConnected(t.socks));
    }
  }

  /** What an event does to the bytes waiting in slot i. */
  lemma RxStep(t: Table, e: Event, i: nat)
    requires Valid(t) && Callable(t, e) && i < MAX_SOCKETS && t.socks[i].inUse
    ensures var (old_, new_) := (t.socks[i].rx, Step(t, e).0.socks[i].rx);
      if e.Recv? && e.id == t.socks[i].id then old_ == Step(t, e).1.bytes + new_
      else if e.Packet? && FindConnected(t.socks) == i then new_ == old_ + Fits(t.socks[i], e.bytes)
      else new_ == old_
  {
    if e.Recv? && e.id == t.socks[i].id {
      FoundAt(t.socks, e.id, i);
      if t.socks[i].rx != [] { RecvStep(t, e.id, e.maxLen); }
    }
  }

  /**
   As long as a socket is open, the bytes handed out followed by those still waiting are the
   bytes that were waiting followed by all bytes accepted: none lost, repeated or reordered.
   */
  lemma {:induction false} StreamIsPreserved(t: Table, events: seq<Event>, id: int)
    requires Valid(t) && Legal(t, events) && Open(t, events, id)
    ensures InUse(Run(t, events), id)
    ensures Waiting(t, id) + Accepted(t, events, id) == Handed(t, events, id) + Waiting(Run(t, events), id)
    decreases |events|
  {
    if events != [] {
      var e, rest := events[0], events[1..];
      StepKeepsValid(t, e);
      StepIds(t, e, id);
      StepStreams(t, e, id);
      var t' := Step(t, e).0;
      StreamIsPreserved(t', rest, id);
      Rebracket(Waiting(t, id), AcceptedBy(t, e, id), HandedBy(t, e, id), Waiting(t', id),
                Accepted(t', rest, id), Handed(t', rest, id), Waiting(Run(t', rest), id));
    }
  }

  lemma Rebracket(w: seq<byte>, a: seq<byte>, h: seq<byte>, w': seq<byte>, a': seq<byte>, h': seq<byte>, w'': seq<byte>)
    requires w + a == h + w' && w' + a' == h' + w''
    ensures w + (a + a') == (h + h') + w''
  {
    assert w + (a + a') == (w + a) + a';
    assert (h + w') + a' == h + (w' + a');
  }

  /** A socket starts empty under an id nobody had before, so no byte of an earlier owner reaches it. */
  lemma FreshSocketStream(t: Table, pid: int, kind: int, events: seq<Event>)
    requires Valid(t) && Callable(t, Allocate(pid, kind)) && Step(t, Allocate(pid, kind)).1.ret != -1
    requires var t' := Step(t, Allocate(pid, kind)).0;
      Valid(t') && Legal(t', events) && Open(t', events, t.nextId)
    ensures var t', id := Step(t, Allocate(pid, kind)).0, Step(t, Allocate(pid, kind)).1.ret;
      && !InUse(t, id) && InUse(Run(t', events), id)
      && Accepted(t', events, id) == Handed(t', events, id) + Waiting(Run(t', events), id)
  {
    var t' := Step(t, Allocate(pid, kind)).0;
    var i := FindUnused(t.socks);
    FoundAt(t'.socks, t.nextId, i);
    assert Waiting(t', t.nextId) == [];
    StreamIsPreserved(t', events, t.nextId);
    assert [] + Accepted(t', events, t.nextId) == Accepted(t', events, t.nextId);
  }

  // ---------------------------------------------------------------- what one request does to the table

  /** Slot i is the one socket id is in. */
  predicate IsSlot(t: Table, id: int, i: nat) {
    i < |t.socks| && t.socks[i].inUse && t.socks[i].id == id
  }

  predicate OnlySlot(t: Table, r: Table, i: nat) {
    |r.socks| == |t.socks| && forall k :: 0 <= k < |t.socks| && k != i ==> r.socks[k] == t.socks[k]
  }

  /** A new socket takes the first unused slot, closed and empty, with the next id; -1 if there is none. */
  lemma AllocateOpens(t: Table, pid: int, kind: int, i: nat)
    requires Valid(t) && i <= MAX_SOCKETS && (forall k :: 0 <= k < i ==> t.socks[k].inUse)
    requires i < MAX_SOCKETS ==> !t.socks[i].inUse
    ensures var (r, reply) := Step(t, Allocate(pid, kind));
      if i == 32 then r == t && reply.ret == -1 else
        && reply.ret == t.nextId && r.nextId == t.nextId + 1 && OnlySlot(t, r, i)
        && r.socks[i] == Socket(t.nextId, pid, kind, Closed, t.socks[i].local, t.socks[i].remote, true, [])
  {
    FindUnusedIs(t.socks, i);
  }

  /** Requests for a socket in use, in slot i. */
  lemma RequestsOnSocket(t: Table, id: int, i: nat, a: Address)
    requires Valid(t) && IsSlot(t, id, i)
    ensures var (r, reply) := Step(t, Bind(id, a));
      && reply.ret == 0 && r.nextId == t.nextId && OnlySlot(t, r, i)
      && r.socks[i] == t.socks[i].(local := a, state := Bound)
    ensures var (r, reply) := Step(t, Listen(id));
      if t.socks[i].kind != SOCK_TCP then r == t && reply.ret == -1 else
        reply.ret == 0 && r.nextId == t.nextId && OnlySlot(t, r, i) && r.socks[i] == t.socks[i].(state := Listening)
    ensures var (r, reply) := Step(t, Connect(id, a));
      if t.socks[i].kind != SOCK_TCP then r == t && reply.ret == -1 else
        reply.ret == 0 && r.nextId == t.nextId && OnlySlot(t, r, i)
        && r.socks[i] == t.socks[i].(remote := a, state := Connected)
    ensures var (r, reply) := Step(t, Close(id));
      r.nextId == t.nextId && OnlySlot(t, r, i) && r.socks[i] == t.socks[i].(inUse := false, state := Closed)
  {
    FoundAt(t.socks, id, i);
  }

  /** Requests for an id no socket in use has. */
  lemma RequestsOnNoSocket(t: Table, id: int, a: Address, n: int)
    requires Valid(t) && forall i :: 0 <= i < |t.socks| ==> !IsSlot(t, id, i)
    ensures Step(t, Close(id)).0 == t
    ensures Step(t, Bind(id, a)) == Step(t, Listen(id)) == (t, Reply(-1, []))
    ensures Step(t, Connect(id, a)) == Step(t, Recv(id, n)) == (t, Reply(-1, []))
  {
    forall k | 0 <= k < |t.socks| ensures !(t.socks[k].inUse && t.socks[k].id == id) {
      assert !IsSlot(t, id, k);
    }
    FindIs(t.socks, id, |t.socks|);
  }

  /** A packet goes to the first connected socket, as much of it as fits, and nowhere if there is none. */
  lemma PacketIsRouted(t: Table, bytes: seq<byte>, i: nat)
    requires Valid(t) && i <= MAX_SOCKETS
    requires forall k :: 0 <= k < i ==> !(t.socks[k].inUse && t.socks[k].state == Connected)
    requires i < MAX_SOCKETS ==> t.socks[i].inUse && t.socks[i].state == Connected
    ensures var r := Step(t, Packet(bytes)).0;
      if i == MAX_SOCKETS then r == t else
        && r.nextId == t.nextId && OnlySlot(t, r, i)
        && var room := 1024 - |t.socks[i].rx|;
          room >= 0 && r.socks[i] == t.socks[i].(rx := t.socks[i].rx + if |bytes| <= room then bytes else bytes[..room])
  {
    FindConnectedIs(t.socks, i);
  }

  /** Reading hands out the oldest bytes, at most n of them, and keeps the rest. */
  lemma ReadingTakes(t: Table, id: int, i: nat, n: int)
    requires Valid(t) && IsSlot(t, id, i)
    ensures var (r, reply) := Step(t, Recv(id, n));
      var rx := t.socks[i].rx;
      && r.nextId == t.nextId && OnlySlot(t, r, i)
      && (n > 0 ==> reply.bytes == (if |rx| <= n then rx else rx[..n]) && reply.ret == |reply.bytes|)
      && (n <= 0 ==> reply.bytes == [] && reply.ret == if rx == [] then 0 else n)
      && |reply.bytes| <= |rx| && r.socks[i] == t.socks[i].(rx := rx[|reply.bytes|..])
  {
    FoundAt(t.socks, id, i);
  }

  /** The whole path of a byte: connect, one packet, one read, on a table with no other connected socket. */
  lemma ConnectedSocketReads(t: Table, id: int, i: nat, a: Address, bytes: seq<byte>, n: int)
    requires Valid(t) && IsSlot(t, id, i) && t.socks[i].kind == SOCK_TCP && n > 0
    requires forall k :: 0 <= k < |t.socks| && k != i ==> !(t.socks[k].inUse && t.socks[k].state == Connected)
    ensures var t1 := Step(t, Connect(id, a)).0;
      && Valid(t1) && Valid(Step(t1, Packet(bytes)).0)
      && var reply := Step(Step(t1, Packet(bytes)).0, Recv(id, n)).1;
        var all := t.socks[i].rx + Fits(t.socks[i], bytes);
        reply.bytes == (if |all| <= n then all else all[..n]) && reply.ret == |reply.bytes|
  {
    var t1 := Step(t, Connect(id, a)).0;
    StepKeepsValid(t, Connect(id, a));
    StepKeepsValid(t1, Packet(bytes));
    RequestsOnSocket(t, id, i, a);
    hide Step;
    PacketIsRouted(t1, bytes, i);
    ReadingTakes(Step(t1, Packet(bytes)).0, id, i, n);
  }
}
