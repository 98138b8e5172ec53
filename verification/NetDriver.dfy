/**
 The packet pool of kernal/net_driver.c: 32 packets shared by a free list, a receive queue and
 whoever took a packet out of the queue.
 */
module NetDriver {
  import opened Memory

  const PACKET_POOL_SIZE: nat := 32
  const MAX_FRAME: nat := 1514
  const DUMMY_LENGTH: nat := 64

  datatype Home = InFree | InRx | Held

  class Packet {
    var data: seq<byte>      // uint8_t data[1514], inside the structure
    var length: int
    var next: Packet?
    ghost var home: Home
    ghost var arrival: nat   // number of the arrival that last used this packet

    /** A frame as the simulated interrupts make it: 64 bytes counting up. */
    ghost predicate IsDummy()
      reads this
    {
      length == DUMMY_LENGTH && |data| == MAX_FRAME && forall k :: 0 <= k < DUMMY_LENGTH ==> data[k] == k
    }

    constructor ()
      ensures |data| == MAX_FRAME && length == 0 && next == null && home == Held
    {
      data, length, next, home := seq(MAX_FRAME, i => 0), 0, null, Held;
    }
  }

  // ---------------------------------------------------------------- the pool seen from outside

  /** Packets are named by their number of arrival; taken of them have been received. */
  datatype State = State(free: nat, rx: seq<nat>, held: nat, arrived: nat, taken: nat, interrupts: nat)

  datatype Event = Interrupt | Receive | Release | SysRecv | Drain

  const START: State := State(PACKET_POOL_SIZE, [], 0, 0, 0, 0)

  function Arrive(s: State): State {
    var t := s.(interrupts := s.interrupts + 1);
    if t.interrupts % 100 == 0 && s.free > 0
    then t.(free := s.free - 1, rx := s.rx + [s.arrived], arrived := s.arrived + 1)
    else t
  }

  function Take(s: State): State {
    if s.rx == [] then s else s.(rx := s.rx[1..], held := s.held + 1, taken := s.taken + 1)
  }

  function GiveBack(s: State): State {
    if s.held == 0 then s else s.(free := s.free + 1, held := s.held - 1)
  }

  function DrainAll(s: State): (r: State)
    decreases |s.rx|
  {
    if s.rx == [] then s else DrainAll(GiveBack(Take(s)))
  }

  function Step(s: State, e: Event): State {
    match e
    case Interrupt => Arrive(s)
    case Receive => Take(s)
    case Release => GiveBack(s)
    case SysRecv => if s.rx == [] then s else GiveBack(Take(s))
    case Drain => DrainAll(s)
  }

  function Run(s: State, events: seq<Event>): State
    decreases |events|
  {
    if events == [] then s else Run(Step(s, events[0]), events[1..])
  }

  /** The bytes of every frame the simulated interrupts make. */
  function DummyFrame(): seq<byte> {
    seq(DUMMY_LENGTH, (i: nat) requires i < DUMMY_LENGTH => i as byte)
  }

  /** What SYS_NET_RECV stores in a buffer of maxLen bytes. */
  function SysRecvBytes(s: State, maxLen: int): seq<byte> {
    if s.rx == [] || maxLen <= 0 then [] else DummyFrame()[..Min(DUMMY_LENGTH, maxLen)]
  }

  /** Every packet is free, queued or held; the queue is the arrivals not yet taken, in order. */
  ghost predicate Consistent(s: State) {
    && s.free + |s.rx| + s.held == PACKET_POOL_SIZE
    && s.arrived == s.taken + |s.rx|
    && forall i :: 0 <= i < |s.rx| ==> s.rx[i] == s.taken + i
  }

  lemma {:induction false} DrainEmpties(s: State)
    requires Consistent(s)
    ensures var r := DrainAll(s);
      Consistent(r) && r == s.(free := s.free + |s.rx|, rx := [], taken := s.arrived)
    decreases |s.rx|
  {
    if s.rx != [] {
      DrainEmpties(GiveBack(Take(s)));
    }
  }

  /** Over every run the pool is partitioned and packets leave in the order they arrived. */
  lemma {:induction false} RunKeepsConsistent(s: State, events: seq<Event>)
    requires Consistent(s)
    ensures Consistent(Run(s, events))
    decreases |events|
  {
    if events != [] {
      DrainEmpties(s);
      RunKeepsConsistent(Step(s, events[0]), events[1..]);
    }
  }

  /** Draining the queue while nobody holds a packet leaves the whole pool free. */
  lemma DrainFreesAll(events: seq<Event>)
    requires Run(START, events).held == 0
    ensures Step(Run(START, events), Drain).free == 32
  {
    RunKeepsConsistent(START, events);
    DrainEmpties(Run(START, events));
  }

  /** NET_RECV frees the packet it took: the oldest one, of which it stores 0, 1, 2, ... up to 63. */
  lemma SysRecvLeaksNone(s: State, maxLen: int)
    requires Consistent(s)
    ensures var r, bytes := Step(s, SysRecv), SysRecvBytes(s, maxLen);
      && r.held == s.held && r.arrived == s.arrived && r.interrupts == s.interrupts
      && (s.rx == [] ==> r == s && bytes == [])
      && (s.rx != [] ==> r.rx == s.rx[1..] && r.free == s.free + 1 && r.taken == s.taken + 1)
      && (s.rx != [] ==> |bytes| == if maxLen <= 0 then 0 else if maxLen < 64 then maxLen else 64)
      && forall k :: 0 <= k < |bytes| ==> bytes[k] == k
  {
  }

  function Interrupts(n: nat): seq<Event> { seq(n, i => Event.Interrupt) }

  /** Between two multiples of a hundred interrupts do nothing but count. */
  lemma {:induction false} QuietInterrupts(s: State, n: nat, rest: seq<Event>)
    requires s.interrupts % 100 + n < 100
    ensures Run(s, Interrupts(n) + rest) == Run(s.(interrupts := s.interrupts + n), rest)
    decreases n
  {
    if n == 0 {
      assert Interrupts(n) + rest == rest;
    } else {
      assert (Interrupts(n) + rest)[1..] == Interrupts(n - 1) + rest;
      assert Step(s, Interrupt) == s.(interrupts := s.interrupts + 1);
      QuietInterrupts(s.(interrupts := s.interrupts + 1), n - 1, rest);
    }
  }

  lemma InterruptsConcat(m: nat, n: nat)
    ensures Interrupts(m + n) == Interrupts(m) + Interrupts(n)
  {
  }

  lemma RunInterrupt(s: State, n: nat)
    ensures Run(s, Interrupts(1 + n)) == Run(Arrive(s), Interrupts(n))
  {
    assert Interrupts(1 + n)[1..] == Interrupts(n);
  }

  /** Of any hundred interrupts in a row exactly one brings a packet, if one is free. */
  lemma HundredInterrupts(s: State)
    ensures var r, t := Run(s, Interrupts(100)), s.(interrupts := s.interrupts + 100);
      r == if s.free == 0 then t else t.(free := s.free - 1, rx := s.rx + [s.arrived], arrived := s.arrived + 1)
  {
    hide Interrupts;
    var n := 99 - s.interrupts % 100;
    InterruptsConcat(n, 1 + (99 - n));
    QuietInterrupts(s, n, Interrupts(1 + (99 - n)));
    var t := s.(interrupts := s.interrupts + n);
    RunInterrupt(t, 99 - n);
    var u := Arrive(t);
    assert Interrupts(99 - n) + [] == Interrupts(99 - n);
    QuietInterrupts(u, 99 - n, []);
  }

  // ---------------------------------------------------------------- the lists

  /** Following next from head visits exactly the packets of s, once each, and ends in null. */
  ghost predicate Linked(head: Packet?, s: seq<Packet>)
    reads s`next
  {
    && head == (if s == [] then null else s[0])
    && (forall i, j :: 0 <= i && j == i + 1 && j < |s| ==> s[i].next == s[j])
    && (s != [] ==> s[|s| - 1].next == null)
    && (forall i, j :: 0 <= i < j < |s| ==> s[i] != s[j])
  }

  lemma LinkedCons(p: Packet, head: Packet?, s: seq<Packet>)
    requires Linked(head, s) && p.next == head && p !in s
    ensures Linked(p, [p] + s)
  {
  }

  /** rx_queue_head and rx_queue_tail. */
  class RxQueue {
    var head: Packet?
    var tail: Packet?
    ghost var list: seq<Packet>
    ghost var stamps: seq<nat>      // arrival numbers of the queued packets

    constructor ()
      ensures head == tail == null && list == [] && stamps == []
    {
      head, tail, list, stamps := null, null, [], [];
    }

    /** Well linked, and every queued packet is one the simulated interrupts made. */
    ghost predicate Ok()
      reads this, list
    {
      && Linked(head, list) && |stamps| == |list|
      && tail == (if list == [] then null else list[|list| - 1])
      && forall i :: 0 <= i < |list| ==>
        list[i].home == InRx && list[i].IsDummy() && list[i].arrival == stamps[i]
    }

    twostate lemma Frame()
      requires old(Ok()) && unchanged(this)
      requires forall p :: p in list ==> unchanged(p)
      ensures Ok()
    {
      forall i | 0 <= i < |list| ensures unchanged(list[i]) {
        assert list[i] in list;
      }
    }

    method Push(pkt: Packet, ghost stamp: nat)
      requires Ok() && pkt.home == Held && pkt.IsDummy() && pkt.next == null
      modifies this, pkt`home, pkt`arrival, list`next
      ensures Ok() && list == old(list) + [pkt] && stamps == old(stamps) + [stamp]
    {
      assert pkt !in list;
      if tail == null {
        head := pkt;
        tail := pkt;
      } else {
        assert tail in list;
        tail.next := pkt;
        tail := pkt;
      }
      pkt.home, pkt.arrival := InRx, stamp;
      list, stamps := list + [pkt], stamps + [stamp];
    }

    method Pop() returns (pkt: Packet)
      requires Ok() && head != null
      modifies this, list`home
      ensures Ok() && pkt.home == Held && pkt.IsDummy()
      ensures old(list) != [] && pkt == old(list)[0] && list == old(list)[1..]
      ensures stamps == old(stamps)[1..] && pkt.arrival == old(stamps)[0]
      ensures forall p :: p in old(list) && p != pkt ==> unchanged(p)
    {
      pkt := head;
      head := pkt.next;
      if head == null {
        tail := null;
      }
      pkt.home := Held;
      list, stamps := list[1..], stamps[1..];
    }
  }

  class Driver {
    const pool: seq<Packet>               // packet_pool[]
    const rx: RxQueue
    var freePackets: Packet?
    var interruptCount: nat
    var rxPackets: u32
    var rxBytes: u32
    ghost const members: set<Packet>      // the elements of pool
    ghost var freeList: seq<Packet>
    ghost var held: set<Packet>
    ghost var arrived: nat
    ghost var taken: nat

    /** The statics before net_init: packets that are in no list. */
    constructor ()
      ensures Raw() && fresh(rx) && fresh(members)
      ensures forall i :: 0 <= i < |pool| ==> fresh(pool[i])
    {
      var ps: seq<Packet> := [];
      while |ps| < PACKET_POOL_SIZE
        invariant |ps| <= PACKET_POOL_SIZE
        invariant forall i :: 0 <= i < |ps| ==> fresh(ps[i]) && |ps[i].data| == MAX_FRAME
        invariant forall i, j :: 0 <= i < j < |ps| ==> ps[i] != ps[j]
      {
        var p := new Packet();
        ps := ps + [p];
      }
      rx := new RxQueue();
      pool, members := ps, set p | p in ps;
      freePackets, interruptCount, rxPackets, rxBytes := null, 0, 0, 0;
      freeList, held, arrived, taken := [], {}, 0, 0;
    }

    ghost predicate Raw()
      reads this, rx, members
    {
      && |pool| == PACKET_POOL_SIZE && members == (set p | p in pool)
      && (forall i, j :: 0 <= i < j < |pool| ==> pool[i] != pool[j])
      && (forall p :: p in members ==> |p.data| == MAX_FRAME)
      && rx.head == rx.tail == null && rx.list == [] && rx.stamps == []
      && held == {} && arrived == taken == interruptCount == 0
    }

    ghost function Abstract(): State
      reads this, rx
    {
      State(|freeList|, rx.stamps, |held|, arrived, taken, interruptCount)
    }

    ghost predicate FreeOk()
      reads this`freePackets, this`freeList, freeList
    {
      Linked(freePackets, freeList) && forall p :: p in freeList ==> p in members && p.home == InFree
    }

    /** Every packet of the pool is where its home says. */
    ghost predicate Placed()
      reads this`freeList, this`held, rx, members
    {
      && (forall p :: p in held ==> p in members && p.home == Held)
      && (forall p :: p in rx.list ==> p in members)
      && (forall p :: p in members ==> |p.data| == MAX_FRAME)
      && (forall p :: p in members ==>
          match p.home case InFree => p in freeList case InRx => p in rx.list case Held => p in held)
    }

    /** Free list, receive queue and held packets partition the pool. */
    ghost predicate Valid()
      reads this`freePackets, this`freeList, this`held, rx, members, freeList, rx.list
    {
      FreeOk() && rx.Ok() && Placed() && |freeList| + |rx.list| + |held| == PACKET_POOL_SIZE
    }

    /** A driver none of whose parts changed is as good as before. */
    twostate lemma Frame()
      requires old(Valid()) && unchanged(this) && unchanged(rx)
      requires forall p :: p in members ==> unchanged(p)
      ensures Valid()
    {
      forall p | p in freeList || p in rx.list ensures unchanged(p) {
        assert p in members;
      }
      hide Linked, Packet.IsDummy;
      FreeKept();
      hide FreeOk;
      rx.Frame();
      hide RxQueue.Ok;
    }

    twostate lemma FreeKept()
      requires old(FreeOk()) && freePackets == old(freePackets) && freeList == old(freeList)
      requires forall p :: p in members && old(p.home) == InFree ==> unchanged(p)
      ensures FreeOk()
    {
      forall i | 0 <= i < |freeList| ensures unchanged(freeList[i]) {
        assert freeList[i] in freeList;
      }
    }

    /** Only packet pkt moved. */
    twostate lemma PlacedKept(pkt: Packet)
      requires old(Placed()) && pkt in members && |pkt.data| == MAX_FRAME
      requires forall p :: p in members && p != pkt ==> p.home == old(p.home) && p.data == old(p.data)
      requires forall p :: p != pkt ==> (p in held <==> p in old(held))
      requires freeList == old(freeList) || freeList == [pkt] + old(freeList) || [pkt] + freeList == old(freeList)
      requires rx.list == old(rx.list) || rx.list == old(rx.list) + [pkt] || [pkt] + rx.list == old(rx.list)
      requires pkt in held <==> pkt.home == Held
      requires match pkt.home case InFree => pkt in freeList case InRx => pkt in rx.list case Held => pkt in held
      ensures Placed()
    {
      forall p | p in old(freeList) && p != pkt ensures p in freeList {
        var i :| 0 <= i < |old(freeList)| && old(freeList)[i] == p;
      }
      forall p | p in old(rx.list) && p != pkt ensures p in rx.list {
        var i :| 0 <= i < |old(rx.list)| && old(rx.list)[i] == p;
      }
    }

    lemma Members()
      requires Valid()
      ensures FreeOk() && rx.Ok() && Placed()
      ensures forall p :: p in freeList ==> p in members && p.home == InFree
      ensures forall p :: p in rx.list ==> p in members && p.home == InRx
      ensures forall p :: p in held ==> p in members && p.home == Held
      ensures forall p :: p in members ==> |p.data| == MAX_FRAME
      ensures freePackets == null <==> freeList == []
      ensures rx.head == null <==> rx.list == []
      ensures |rx.stamps| == |rx.list|
    {
    }

    lemma InPool()
      requires Valid()
      ensures forall p :: p in freeList || p in rx.list || p in held ==> p in members
    {
    }

    /** init_packet_pool: chain the whole array into the free list. */
    method InitPacketPool()
      requires Raw()
      modifies this`freePackets, this`freeList, pool`next, pool`home
      ensures Valid() && Abstract() == START
    {
      for i := 0 to PACKET_POOL_SIZE - 1
        invariant forall k :: 0 <= k < i ==> pool[k].next == pool[k + 1]
        modifies pool`next
      {
        pool[i].next := pool[i + 1];
      }
      pool[PACKET_POOL_SIZE - 1].next := null;
      freePackets := pool[0];
      freeList := pool;
      forall p | p in pool {
        p.home := InFree;
      }
    }

    /** alloc_packet */
    method AllocPacket() returns (pkt: Packet?)
      requires Valid()
      modifies this`freePackets, this`freeList, this`held, freeList`next, freeList`home
      ensures Valid()
      ensures old(freeList) == [] ==> pkt == null && freeList == [] && held == old(held)
      ensures old(freeList) != [] ==> pkt == old(freeList)[0] && freeList == old(freeList)[1..]
      ensures old(freeList) != [] ==> held == old(held) + {pkt} && pkt !in old(held) && pkt.next == null
    {
      pkt := null;
      if freePackets != null {
        var first: Packet := freePackets;
        assert first in freeList;
        hide RxQueue.Ok, Placed;
        Members();
        freePackets := first.next;
        first.next := null;
        first.home := Held;
        freeList, held := freeList[1..], held + {first};
        assert FreeOk() && [first] + freeList == old(freeList) && |held| == old(|held|) + 1;
        hide FreeOk, Linked;
        rx.Frame();
        PlacedKept(first);
        pkt := first;
      }
    }

    /** net_free_packet, for a packet its caller holds. */
    method NetFreePacket(pkt: Packet?)
      requires Valid() && (pkt == null || pkt in held)
      modifies this`freePackets, this`freeList, this`held, pkt
      ensures Valid()
      ensures pkt == null ==> freeList == old(freeList) && held == old(held)
      ensures pkt != null ==> freeList == [pkt] + old(freeList) && held == old(held) - {pkt}
      ensures pkt != null ==> pkt.data == old(pkt.data) && pkt.length == old(pkt.length)
    {
      if pkt != null {
        hide RxQueue.Ok, Placed, Linked;
        Members();
        pkt.next := freePackets;
        pkt.home := InFree;
        FreeKept();
        LinkedCons(pkt, freePackets, freeList);
        freePackets := pkt;
        freeList, held := [pkt] + freeList, held - {pkt};
        assert FreeOk() && |held| == old(|held|) - 1;
        hide FreeOk;
        rx.Frame();
        PlacedKept(pkt);
      }
    }

    method NetReceive() returns (pkt: Packet?)
      requires Valid()
      modifies rx, this`held, this`taken, rx.list`home
      ensures Valid()
      ensures old(rx.list) == [] ==> pkt == null && rx.list == [] && held == old(held)
      ensures old(rx.list) != [] ==> pkt == old(rx.list)[0] && rx.list == old(rx.list)[1..]
      ensures old(rx.list) != [] ==> held == old(held) + {pkt} && pkt !in old(held)
      ensures pkt != null ==> old(rx.stamps) != [] && pkt.IsDummy() && pkt.arrival == old(rx.stamps)[0]
      ensures Abstract() == Take(old(Abstract()))
    {
      pkt := null;
      Members();
      if rx.head != null {
        pkt := TakeFirst();
      }
    }

    method TakeFirst() returns (pkt: Packet)
      requires Valid() && rx.head != null
      modifies rx, this`held, this`taken, rx.list`home
      ensures Valid() && old(rx.list) != [] && old(rx.stamps) != []
      ensures pkt == old(rx.list)[0] && rx.list == old(rx.list)[1..] && rx.stamps == old(rx.stamps)[1..]
      ensures held == old(held) + {pkt} && pkt !in old(held) && taken == old(taken) + 1
      ensures pkt.IsDummy() && pkt.arrival == old(rx.stamps)[0]
    {
      hide *;
      Members();
      pkt := rx.Pop();
      held, taken := held + {pkt}, taken + 1;
      Taken(pkt);
    }

    /** The first packet of the receive queue went into a caller's hands. */
    twostate lemma Taken(pkt: Packet)
      requires old(Valid()) && rx.Ok() && freePackets == old(freePackets) && freeList == old(freeList)
      requires old(rx.list) != [] && pkt == old(rx.list)[0] && rx.list == old(rx.list)[1..]
      requires pkt.home == Held && pkt.data == old(pkt.data) && held == old(held) + {pkt} && pkt !in old(held)
      requires forall p :: p in members && p != pkt ==> unchanged(p)
      ensures Valid()
    {
      assert pkt in old(rx.list);
      hide RxQueue.Ok, Placed, FreeOk, Linked;
      FreeKept();
      PlacedKept(pkt);
    }

    /** net_interrupt_handler: every hundredth interrupt a 64-byte packet arrives, if one is free. */
    method NetInterruptHandler()
      requires Valid()
      modifies this, rx, members
      ensures Valid() && Abstract() == Arrive(old(Abstract())) && held == old(held)
    {
      hide Valid;
      interruptCount := interruptCount + 1;
      if interruptCount % 100 == 0 {
        SimulateArrival();
      }
    }

    /** Take a free packet, fill it and queue it; nothing if there is none. */
    method SimulateArrival()
      requires Valid()
      modifies this`freePackets, this`freeList, this`held, this`arrived, this`rxPackets, this`rxBytes, rx, members
      ensures Valid() && held == old(held) && taken == old(taken)
      ensures old(freeList) == [] ==> Abstract() == old(Abstract())
      ensures old(freeList) != [] ==>
        |freeList| == old(|freeList|) - 1 && arrived == old(arrived) + 1 && rx.stamps == old(rx.stamps) + [old(arrived)]
    {
      hide Valid;
      InPool();
      var pkt := AllocPacket();
      if pkt != null {
        InPool();
        FillAndQueue(pkt);
      }
    }

    method FillAndQueue(pkt: Packet)
      requires Valid() && pkt in held
      modifies this`held, this`arrived, this`rxPackets, this`rxBytes, rx, rx.list`next, pkt
      ensures Valid() && held == old(held) - {pkt}
      ensures rx.stamps == old(rx.stamps) + [old(arrived)] && arrived == old(arrived) + 1
    {
      hide Valid;
      Fill(pkt);
      Enqueue(pkt);
      rxPackets := (rxPackets + 1) % 0x1_0000_0000;
      rxBytes := (rxBytes + pkt.length) % 0x1_0000_0000;
    }

    /** The dummy frame: 64 bytes counting up. */
    method Fill(pkt: Packet)
      requires Valid() && pkt in held
      modifies pkt`length, pkt`data, pkt`next
      ensures Valid() && pkt.IsDummy() && pkt.next == null
    {
      hide RxQueue.Ok, Placed, FreeOk;
      Members();
      pkt.length := DUMMY_LENGTH;
      for i := 0 to DUMMY_LENGTH
        invariant |pkt.data| == MAX_FRAME && forall k :: 0 <= k < i ==> pkt.data[k] == k
        modifies pkt`data
      {
        pkt.data := pkt.data[i := i % 0x100];
      }
      pkt.next := null;
      FreeKept();
      rx.Frame();
      PlacedKept(pkt);
    }

    /** Append a filled packet in hand to the receive queue. */
    method Enqueue(pkt: Packet)
      requires Valid() && pkt in held && pkt.IsDummy() && pkt.next == null
      modifies rx, this`held, this`arrived, pkt`home, pkt`arrival, rx.list`next
      ensures Valid() && held == old(held) - {pkt} && rx.list == old(rx.list) + [pkt]
      ensures rx.stamps == old(rx.stamps) + [old(arrived)] && arrived == old(arrived) + 1
    {
      hide RxQueue.Ok, Placed, FreeOk;
      Members();
      rx.Push(pkt, arrived);
      held, arrived := held - {pkt}, arrived + 1;
      FreeKept();
      PlacedKept(pkt);
    }

    /** The SYS_NET_RECV branch of handle_syscall; it holds no packet when it returns. */
    method SysNetRecv(buffer: array<byte>, maxLen: int) returns (ret: int)
      requires Valid() && |SysRecvBytes(Abstract(), maxLen)| <= buffer.Length
      modifies this, rx, members, buffer
      ensures Valid() && held == old(held) && Abstract() == Step(old(Abstract()), SysRecv)
      ensures ret == if old(Abstract()).rx == [] then 0 else DUMMY_LENGTH
      ensures var c := SysRecvBytes(old(Abstract()), maxLen);
        |c| <= buffer.Length && buffer[..] == c + old(buffer[..])[|c|..]
    {
      hide Valid;
      Members();
      ret := 0;
      var pkt := NetReceive();
      if pkt != null {
        Members();
        ret := CopyAndFree(pkt, buffer, maxLen);
      }
    }

    method CopyAndFree(pkt: Packet, buffer: array<byte>, maxLen: int) returns (ret: int)
      requires Valid() && pkt in held && pkt.IsDummy()
      requires maxLen <= 0 || Min(DUMMY_LENGTH, maxLen) <= buffer.Length
      modifies this`freePackets, this`freeList, this`held, pkt, buffer
      ensures Valid() && held == old(held) - {pkt} && Abstract() == GiveBack(old(Abstract()))
      ensures ret == DUMMY_LENGTH
      ensures var k := if maxLen <= 0 then 0 else Min(DUMMY_LENGTH, maxLen);
        buffer[..] == DummyFrame()[..k] + old(buffer[..])[k..]
    {
      var copyLen := if pkt.length < maxLen then pkt.length else maxLen;
      CopyBytes(pkt.data, buffer, copyLen);
      assert copyLen >= 0 ==> pkt.data[..copyLen] == DummyFrame()[..copyLen];
      ret := pkt.length;
      hide RxQueue.Ok, Packet.IsDummy, Placed, FreeOk;
      NetFreePacket(pkt);
    }

    /** lwip_process_packets: take and free until the queue is empty. */
    method LwipProcessPackets()
      requires Valid()
      modifies this, rx, members
      ensures Valid() && held == old(held) && rx.list == []
      ensures Abstract() == DrainAll(old(Abstract()))
    {
      hide Valid;
      var more := true;
      while more
        invariant Valid() && held == old(held)
        invariant !more ==> rx.list == [] && rx.stamps == []
        invariant DrainAll(old(Abstract())) == DrainAll(Abstract())
        decreases |rx.list|, more
      {
        more := TakeAndFree();
      }
    }

    method TakeAndFree() returns (more: bool)
      requires Valid()
      modifies this, rx, members
      ensures Valid() && held == old(held)
      ensures more ==>
        |rx.list| < old(|rx.list|) && old(rx.stamps) != [] && Abstract() == GiveBack(Take(old(Abstract())))
      ensures !more ==> rx.list == [] && rx.stamps == [] && Abstract() == old(Abstract())
    {
      hide Valid, Packet.IsDummy;
      Members();
      var pkt := NetReceive();
      more := pkt != null;
      if more {
        InPool();
        NetFreePacket(pkt);
      }
    }
  }

  /** net_init: the whole pool is free. */
  method Boot() returns (net: Driver)
    ensures fresh(net) && fresh(net.rx) && net.Valid() && net.Abstract() == START
    ensures forall p :: p in net.members ==> fresh(p)
  {
    net := new Driver();
    net.InitPacketPool();
  }
}
