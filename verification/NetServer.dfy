/**
 The sockets of server/net_srv.c: a table of records updated in place, each with a 1024-byte
 ring buffer for received data.
 */
module NetServer {
  import opened Memory
  import opened S = NetServerSpec
  import NetDriver

  class SocketSlot {
    var sockId: int
    var ownerPid: int
    var kind: int
    var state: SocketState
    var local: Address
    var remote: Address
    const rxBuffer: array<byte>
    var rxHead: int
    var rxTail: int
    var rxCount: int
    var inUse: bool
    ghost var rx: seq<byte>

    constructor ()
      ensures RingOk() && fresh(rxBuffer)
      ensures !inUse && state == Closed && rx == []
    {
      sockId, ownerPid, kind, state := 0, 0, 0, Closed;
      local, remote := Address(0, 0), Address(0, 0);
      rxBuffer := new byte[RX_SIZE];
      rxHead, rxTail, rxCount, inUse, rx := 0, 0, 0, false, [];
    }

    /** Position of the i-th waiting byte in the ring. */
    static function At(tail: int, i: int): int { if tail + i < RX_SIZE then tail + i else tail + i - RX_SIZE }

    /** The ring holds the bytes rx, starting at the tail and wrapping around. */
    ghost predicate RingOk()
      reads this, rxBuffer
    {
      && rxBuffer.Length == RX_SIZE && 0 <= rxHead < RX_SIZE && 0 <= rxTail < RX_SIZE
      && rxCount == |rx| <= RX_SIZE && rxHead == At(rxTail, rxCount)
      && forall i :: 0 <= i < |rx| ==> rxBuffer[At(rxTail, i)] == rx[i]
    }

    ghost function Value(): Socket
      reads this
    {
      Socket(sockId, ownerPid, kind, state, local, remote, inUse, rx)
    }

    method PutByte(b: byte)
      requires RingOk() && rxCount < RX_SIZE
      modifies this`rxHead, this`rxCount, this`rx, rxBuffer
      ensures RingOk() && rx == old(rx) + [b]
    {
      rxBuffer[rxHead] := b;
      rxHead := (rxHead + 1) % RX_SIZE;
      rxCount := rxCount + 1;
      rx := rx + [b];
    }

    method GetByte() returns (b: byte)
      requires RingOk() && rxCount > 0
      modifies this`rxTail, this`rxCount, this`rx
      ensures RingOk() && old(rx) != [] && b == old(rx)[0] && rx == old(rx)[1..]
    {
      assert At(rxTail, 0) == rxTail;
      b := rxBuffer[rxTail];
      ghost var tail := rxTail;
      rxTail := (rxTail + 1) % RX_SIZE;
      rxCount := rxCount - 1;
      rx := rx[1..];
      assert forall i :: 0 <= i < |rx| ==> At(rxTail, i) == At(tail, i + 1);
    }

    /** socket_add_rx_data: bytes go in until the ring is full. */
    method AddRxData(data: array<byte>, len: int)
      requires RingOk() && 0 <= len <= data.Length && data != rxBuffer
      modifies this`rxHead, this`rxCount, this`rx, rxBuffer
      ensures RingOk() && rx == old(rx) + data[..Min(len, RX_SIZE - old(|rx|))]
    {
      var i := 0;
      while i < len && rxCount < RX_SIZE
        invariant RingOk() && 0 <= i <= len && i <= RX_SIZE - old(|rx|)
        invariant rx == old(rx) + data[..i]
        decreases len - i
      {
        PutByte(data[i]);
        i := i + 1;
      }
    }

    /** The copy loop of recv_socket_data. */
    method TakeRxData(buffer: array<byte>, n: int)
      requires RingOk() && n <= |rx| && n <= buffer.Length && buffer != rxBuffer
      modifies this`rxTail, this`rxCount, this`rx, buffer
      ensures RingOk()
      ensures n <= 0 ==> rx == old(rx) && buffer[..] == old(buffer[..])
      ensures n > 0 ==> rx == old(rx)[n..] && buffer[..] == old(rx)[..n] + old(buffer[..])[n..]
    {
      var i := 0;
      while i < n
        invariant RingOk() && 0 <= i && (n > 0 ==> i <= n) && (n <= 0 ==> i == 0)
        invariant i <= old(|rx|) && rx == old(rx)[i..]
        invariant i <= buffer.Length && buffer[..i] == old(rx)[..i] && buffer[i..] == old(buffer[..])[i..]
      {
        var b := GetByte();
        buffer[i] := b;
        i := i + 1;
      }
    }
  }

  class Server {
    const sockets: seq<SocketSlot>
    var nextSocketId: int
    ghost var table: Table

    /** net_server_init: all sockets unused and empty. */
    constructor ()
      ensures Valid() && fresh(Buffers()) && forall s :: s in sockets ==> fresh(s)
      ensures nextSocketId == 1 && forall i :: 0 <= i < MAX_SOCKETS ==> !table.socks[i].inUse
    {
      var slots: seq<SocketSlot> := [];
      while |slots| < MAX_SOCKETS
        invariant |slots| <= MAX_SOCKETS
        invariant forall s :: s in slots ==>
          fresh(s) && fresh(s.rxBuffer) && s.RingOk() && !s.inUse && s.state == Closed && s.rx == []
        invariant forall i, j :: 0 <= i < j < |slots| ==> slots[i] != slots[j] && slots[i].rxBuffer != slots[j].rxBuffer
      {
        var slot := new SocketSlot();
        slots := slots + [slot];
      }
      sockets, nextSocketId := slots, 1;
      table := Table(seq(MAX_SOCKETS, i requires 0 <= i < MAX_SOCKETS reads slots => slots[i].Value()), 1);
    }

    ghost function Buffers(): set<array<byte>> {
      set s | s in sockets :: s.rxBuffer
    }

    /** The slots and their buffers are separate, and table tells what they hold. */
    ghost predicate Ok()
      reads this, sockets, Buffers()
    {
      && |sockets| == |table.socks| == MAX_SOCKETS && table.nextId == nextSocketId
      && (forall i, j :: 0 <= i < j < MAX_SOCKETS ==>
          sockets[i] != sockets[j] && sockets[i].rxBuffer != sockets[j].rxBuffer)
      && forall i :: 0 <= i < MAX_SOCKETS ==> SlotOk(i)
    }

    ghost predicate SlotOk(i: nat)
      requires i < |sockets| && i < |table.socks|
      reads this, sockets, Buffers()
    {
      assert sockets[i] in sockets;
      sockets[i].RingOk() && sockets[i].Value() == table.socks[i]
    }

    ghost predicate Valid()
      reads this, sockets, Buffers()
    {
      Ok() && S.Valid(table)
    }

    /** Slots other than i that did not change still match the table. */
    twostate lemma OthersOk(i: nat)
      requires old(Ok()) && table == old(table) && i < MAX_SOCKETS
      requires forall k :: 0 <= k < MAX_SOCKETS && k != i ==> unchanged(sockets[k]) && unchanged(sockets[k].rxBuffer)
      ensures forall k :: 0 <= k < MAX_SOCKETS && k != i ==> SlotOk(k)
    {
      forall k | 0 <= k < MAX_SOCKETS && k != i ensures SlotOk(k) {
        assert old(SlotOk(k));
      }
    }

    method AllocateSocket(clientPid: int, kind: int) returns (ret: int)
      requires Valid() && nextSocketId < INT_MAX
      modifies this, sockets
      ensures Valid() && (table, ret) ==
        (var (t, r) := Step(old(table), Allocate(clientPid, kind)); (t, r.ret))
    {
      var i := 0;
      while i < MAX_SOCKETS && sockets[i].inUse
        invariant i <= MAX_SOCKETS && forall k :: 0 <= k < i ==> table.socks[k].inUse
      {
        assert SlotOk(i);
        i := i + 1;
      }
      assert i < MAX_SOCKETS ==> SlotOk(i);
      FindUnusedIs(table.socks, i);
      ret := -1;
      if i < MAX_SOCKETS {
        ret := Open(i, clientPid, kind);
      }
    }

    method Open(i: nat, clientPid: int, kind: int) returns (ret: int)
      requires Valid() && nextSocketId < INT_MAX && i == FindUnused(table.socks) < MAX_SOCKETS
      modifies this, sockets[i]
      ensures Valid() && (table, ret) ==
        (var (t, r) := Step(old(table), Allocate(clientPid, kind)); (t, r.ret))
    {
      assert SlotOk(i);
      var sock := sockets[i];
      sock.sockId := nextSocketId;
      nextSocketId := nextSocketId + 1;
      sock.ownerPid := clientPid;
      sock.kind := kind;
      sock.state := Closed;
      sock.inUse := true;
      sock.rxHead, sock.rxTail, sock.rxCount := 0, 0, 0;
      sock.rx := [];
      OthersOk(i);
      Record(Allocate(clientPid, kind), i);
      ret := sock.sockId;
    }

    /** find_socket: the slot in use with this id, null if there is none. */
    method FindSocket(sockId: int) returns (sock: SocketSlot?, ghost i: nat)
      requires Valid()
      ensures Valid() && i == Find(table.socks, sockId) && (i < MAX_SOCKETS ==> SlotOk(i))
      ensures var k := Find(table.socks, sockId); sock == if k < MAX_SOCKETS then sockets[k] else null
    {
      sock, i := null, 0;
      for k := 0 to MAX_SOCKETS
        invariant i == k && forall l :: 0 <= l < k ==> !(table.socks[l].inUse && table.socks[l].id == sockId)
      {
        assert SlotOk(k);
        if sockets[k].inUse && sockets[k].sockId == sockId {
          sock := sockets[k];
          break;
        }
        i := i + 1;
      }
      FindIs(table.socks, sockId, i);
    }

    /** Replay event e on the table after slot i was updated to match. */
    ghost method Record(e: Event, i: nat)
      requires |sockets| == |table.socks| == MAX_SOCKETS
      requires forall j, k :: 0 <= j < k < MAX_SOCKETS ==>
        sockets[j] != sockets[k] && sockets[j].rxBuffer != sockets[k].rxBuffer
      requires S.Valid(table) && Callable(table, e) && i < MAX_SOCKETS
      requires Step(table, e).0 == Table(table.socks[i := sockets[i].Value()], nextSocketId)
      requires sockets[i] in sockets && sockets[i].RingOk()
      requires forall k :: 0 <= k < MAX_SOCKETS && k != i ==> SlotOk(k)
      modifies this`table
      ensures Valid() && table == Step(old(table), e).0
    {
      StepKeepsValid(table, e);
      table := Step(table, e).0;
      forall k | 0 <= k < MAX_SOCKETS && k != i ensures SlotOk(k) {
        assert old(SlotOk(k));
      }
    }

    method CloseSocket(sockId: int)
      requires Valid()
      modifies this`table, sockets
      ensures Valid() && table == Step(old(table), Close(sockId)).0
    {
      ghost var i;
      var sock;
      sock, i := FindSocket(sockId);
      if sock != null {
        sock.inUse := false;
        sock.state := Closed;
        OthersOk(i);
        Record(Close(sockId), i);
      }
    }

    method BindSocket(sockId: int, ip: u32, port: int) returns (ret: int)
      requires Valid()
      modifies this`table, sockets
      ensures Valid() && (table, ret) ==
        (var (t, r) := Step(old(table), Bind(sockId, Address(ip, port))); (t, r.ret))
    {
      ghost var i;
      var sock;
      sock, i := FindSocket(sockId);
      ret := -1;
      if sock != null {
        sock.local := Address(ip, port);
        sock.state := Bound;
        OthersOk(i);
        Record(Bind(sockId, Address(ip, port)), i);
        ret := 0;
      }
    }

    method ListenSocket(sockId: int, backlog: int) returns (ret: int)
      requires Valid()
      modifies this`table, sockets
      ensures Valid() && (table, ret) == (var (t, r) := Step(old(table), Listen(sockId)); (t, r.ret))
    {
      ghost var i;
      var sock;
      sock, i := FindSocket(sockId);
      ret := -1;
      if sock != null && sock.kind == SOCK_TCP {
        sock.state := Listening;
        OthersOk(i);
        Record(Listen(sockId), i);
        ret := 0;
      }
    }

    method ConnectSocket(sockId: int, ip: u32, port: int) returns (ret: int)
      requires Valid()
      modifies this`table, sockets
      ensures Valid() && (table, ret) ==
        (var (t, r) := Step(old(table), Connect(sockId, Address(ip, port))); (t, r.ret))
    {
      ghost var i;
      var sock;
      sock, i := FindSocket(sockId);
      ret := -1;
      if sock != null && sock.kind == SOCK_TCP {
        sock.remote := Address(ip, port);
        sock.state := Connected;
        OthersOk(i);
        Record(Connect(sockId, Address(ip, port)), i);
        ret := 0;
      }
    }

    method RecvSocketData(sockId: int, buffer: array<byte>, maxLen: int) returns (ret: int)
      requires Valid() && maxLen <= buffer.Length && buffer !in Buffers()
      modifies this`table, sockets, buffer
      ensures Valid()
      ensures var (t, r) := Step(old(table), Recv(sockId, maxLen));
        && table == t && ret == r.ret
        && |r.bytes| <= buffer.Length && buffer[..] == r.bytes + old(buffer[..])[|r.bytes|..]
    {
      ghost var i;
      var sock;
      sock, i := FindSocket(sockId);
      ret := -1;
      if sock != null {
        ret := 0;
        assert sockets[i] in sockets;
        if sock.rxCount != 0 {
          RecvStep(table, sockId, maxLen);
          hide Step, S.Valid;
          var bytesToCopy := if sock.rxCount < maxLen then sock.rxCount else maxLen;
          sock.TakeRxData(buffer, bytesToCopy);
          OthersOk(i);
          Record(Recv(sockId, maxLen), i);
          ret := bytesToCopy;
        }
      }
    }

    /** The routing loop of process_network_packets: the first connected socket gets the packet. */
    method RoutePacket(packet: array<byte>, len: int)
      requires Valid() && 0 <= len <= packet.Length && packet !in Buffers()
      modifies this`table, sockets, Buffers()
      ensures Valid() && table == Step(old(table), Packet(packet[..len])).0
    {
      var i := 0;
      while i < MAX_SOCKETS && !(sockets[i].inUse && sockets[i].state == Connected)
        invariant i <= MAX_SOCKETS
        invariant forall k :: 0 <= k < i ==> !(table.socks[k].inUse && table.socks[k].state == Connected)
      {
        assert SlotOk(i);
        i := i + 1;
      }
      assert i < MAX_SOCKETS ==> SlotOk(i);
      FindConnectedIs(table.socks, i);
      if i < MAX_SOCKETS {
        assert sockets[i] in sockets;
        sockets[i].AddRxData(packet, len);
        assert forall k :: 0 <= k <= len ==> packet[..len][..k] == packet[..k];
        OthersOk(i);
        Record(Packet(packet[..len]), i);
      }
    }

    /** process_network_packets; what the driver queues always fits the 1500-byte packet buffer. */
    method ProcessNetworkPackets(driver: NetDriver.Driver)
      requires Valid() && driver.Valid()
      modifies this`table, sockets, Buffers(), driver, driver.rx, driver.members
      ensures Valid() && driver.Valid()
      ensures driver.Abstract() == NetDriver.Step(old(driver.Abstract()), NetDriver.SysRecv)
      ensures old(driver.Abstract()).rx == [] ==> table == old(table)
      ensures old(driver.Abstract()).rx != [] ==> table == Step(old(table), Packet(NetDriver.DummyFrame())).0
    {
      hide Valid, NetDriver.Driver.Valid, Step;
      var packetBuffer := new byte[1500];
      var packetLen := driver.SysNetRecv(packetBuffer, packetBuffer.Length);
      if packetLen > 0 {
        ghost var frame := NetDriver.DummyFrame();
        assert frame[..packetLen] == frame == packetBuffer[..packetLen];
        RoutePacket(packetBuffer, packetLen);
      }
    }
  }
}
