/**
 The linked lists of kernal/ipc.c: one free list and eight head/tail/count queues, relinked in
 place, over a pool of message structures taken from the kernel heap.
 */
module Ipc {
  import opened Memory
  import opened Wrappers
  import opened IpcSpec
  import HeapSpec
  import HeapTheorems
  import Heap

  // Where a message is: in the free list, in queue 0..7, or in the hands of a running call.
  const IN_FREE_LIST: int := -1
  const IN_HAND: int := 8

  /** struct message, placed at address addr of the heap. */
  class Message {
    const addr: nat
    var senderPid: int
    var receiverPid: int
    var size: int
    var data: seq<byte>       // char data[MAX_MESSAGE_SIZE], inside the structure
    var next: Message?
    ghost var home: int

    constructor (addr: nat)
      ensures this.addr == addr && |data| == MAX_MESSAGE_SIZE && home == IN_HAND
    {
      this.addr := addr;
      data := seq(MAX_MESSAGE_SIZE, i => 0);
      home := IN_HAND;
    }

    ghost predicate Holds(m: Msg)
      reads this
    {
      0 < size <= |data| == MAX_MESSAGE_SIZE && m == Msg(senderPid, data[..size])
    }
  }

  /** Following next from head visits exactly the messages of s, once each, and ends in null. */
  ghost predicate Linked(head: Message?, s: seq<Message>)
    reads s`next
  {
    && head == (if s == [] then null else s[0])
    && (forall i, j :: 0 <= i && j == i + 1 && j < |s| ==> s[i].next == s[j])
    && (s != [] ==> s[|s| - 1].next == null)
    && (forall i, j :: 0 <= i < j < |s| ==> s[i] != s[j])
  }

  lemma LinkedCons(m: Message, head: Message?, s: seq<Message>)
    requires Linked(head, s) && m.next == head && m !in s
    ensures Linked(m, [m] + s)
  {
  }

  class MsgQueue {
    var head: Message?
    var tail: Message?
    var count: int
    ghost var list: seq<Message>
    ghost var contents: seq<Msg>

    constructor ()
      ensures head == tail == null && count == 0 && list == [] && contents == []
    {
      head, tail, count := null, null, 0;
      list, contents := [], [];
    }

    /** This is the queue of task k: well linked, with the messages and the contents recorded. */
    ghost predicate Ok(k: int)
      reads this, list
    {
      && Linked(head, list)
      && tail == (if list == [] then null else list[|list| - 1])
      && count == |list| == |contents|
      && forall i :: 0 <= i < |list| ==>
        list[i].home == k && list[i].receiverPid == k && list[i].Holds(contents[i]) && Sound(contents[i])
    }

    /** A queue none of whose parts changed is as good as before. */
    twostate lemma Frame(k: int)
      requires old(Ok(k)) && unchanged(this)
      requires forall m :: m in list ==> unchanged(m)
      ensures Ok(k)
    {
      forall i | 0 <= i < |list| ensures unchanged(list[i]) {
        assert list[i] in list;
      }
    }

    /** Append a filled message that is in no list. */
    method Push(k: int, msg: Message, ghost m: Msg)
      requires Ok(k) && msg.home == IN_HAND && k != IN_HAND
      requires msg.Holds(m) && Sound(m) && msg.receiverPid == k && msg.next == null
      modifies this, msg`home, list`next
      ensures Ok(k) && list == old(list) + [msg] && contents == old(contents) + [m]
    {
      assert msg !in list;
      if head == null {
        head := msg;
        tail := msg;
      } else {
        assert tail in list;
        tail.next := msg;
        tail := msg;
      }
      count := count + 1;
      msg.home := k;
      list, contents := list + [msg], contents + [m];
    }

    /** Take the oldest message out. */
    method Pop(k: int) returns (msg: Message)
      requires Ok(k) && list != []
      modifies this, {list[0]}`home
      ensures Ok(k) && msg == old(list[0]) && list == old(list[1..])
      ensures msg.home == IN_HAND
      ensures old(contents) != [] && contents == old(contents[1..])
      ensures msg.Holds(old(contents[0])) && Sound(old(contents[0]))
    {
      msg := head;
      head := msg.next;
      if head == null {
        tail := null;
      }
      count := count - 1;
      msg.home := IN_HAND;
      list, contents := list[1..], contents[1..];
    }
  }

  /** A block of the heap in use has its payload at addr, with room for a message. */
  ghost predicate HoldsMessage(bs: seq<HeapSpec.Block>, addr: nat) {
    exists b :: b in HeapTheorems.Used(bs) && b.Payload() == addr && b.size >= HeapTheorems.MESSAGE_BYTES
  }

  predicate Apart(a: nat, b: nat) {
    a + HeapTheorems.MESSAGE_BYTES <= b || b + HeapTheorems.MESSAGE_BYTES <= a
  }

  lemma NewPayload(bs: seq<HeapSpec.Block>, lo: nat, hi: nat, p: nat)
    requires HeapSpec.WellFormed(bs, lo, hi) && p != 0 && HeapSpec.Malloc(bs, HeapTheorems.MESSAGE_BYTES).1 == p
    ensures HoldsMessage(HeapSpec.Malloc(bs, HeapTheorems.MESSAGE_BYTES).0, p)
    ensures forall a :: HoldsMessage(bs, a) ==>
      HoldsMessage(HeapSpec.Malloc(bs, HeapTheorems.MESSAGE_BYTES).0, a) && a != p
  {
    var b := HeapTheorems.MallocGives(bs, lo, hi, HeapTheorems.MESSAGE_BYTES);
  }

  lemma PayloadsApart(bs: seq<HeapSpec.Block>, lo: nat, hi: nat, a: nat, b: nat)
    requires HeapSpec.Tiles(bs, lo, hi) && HoldsMessage(bs, a) && HoldsMessage(bs, b) && a != b
    ensures Apart(a, b)
  {
    var x :| x in HeapTheorems.Used(bs) && x.Payload() == a && x.size >= HeapTheorems.MESSAGE_BYTES;
    var y :| y in HeapTheorems.Used(bs) && y.Payload() == b && y.size >= HeapTheorems.MESSAGE_BYTES;
    var i: nat :| i < |bs| && bs[i] == x;
    var j: nat :| j < |bs| && bs[j] == y;
    if i < j { HeapSpec.InOrder(bs, lo, hi, i, j); } else { HeapSpec.InOrder(bs, lo, hi, j, i); }
  }

  /** A just initialised heap. */
  ghost predicate IsFresh(heap: Heap.Mm)
    reads heap
  {
    && heap.heapHead != 0 && heap.heapStart + HeapSpec.HEADER <= heap.heapEnd
    && heap.blocks == HeapSpec.Fresh(heap.heapStart, heap.heapEnd)
  }

  /** A heap from which nothing but k messages was ever allocated. */
  ghost predicate HeapFilled(heap: Heap.Mm, k: nat)
    reads heap
  {
    heap.heapHead != 0 && HeapTheorems.Filled(heap.blocks, heap.heapStart, heap.heapEnd, k)
  }

  /** The number of messages for which a heap has room. */
  ghost function Capacity(heap: Heap.Mm): nat
    reads heap
  {
    HeapTheorems.Capacity(heap.heapStart, heap.heapEnd)
  }

  class IpcSystem {
    const queues: seq<MsgQueue>
    var freeMessages: Message?
    ghost var pool: set<Message>
    ghost var freeList: seq<Message>
    ghost var lists: seq<seq<Message>>    // the messages of each queue
    ghost var contents: seq<seq<Msg>>     // and what they hold

    /** The statics as the program starts: no message anywhere. */
    constructor ()
      ensures Valid() && pool == {} && freeList == []
      ensures contents == seq(MAX_TASKS, i => [])
      ensures forall k :: 0 <= k < |queues| ==> fresh(queues[k])
    {
      var qs: seq<MsgQueue> := [];
      while |qs| < MAX_TASKS
        invariant |qs| <= MAX_TASKS
        invariant forall k :: 0 <= k < |qs| ==>
          && fresh(qs[k]) && qs[k].head == qs[k].tail == null && qs[k].count == 0
          && qs[k].list == [] && qs[k].contents == []
        invariant forall i, j :: 0 <= i < j < |qs| ==> qs[i] != qs[j]
      {
        var q := new MsgQueue();
        qs := qs + [q];
      }
      queues := qs;
      freeMessages, pool, freeList := null, {}, [];
      lists, contents := seq(MAX_TASKS, i => []), seq(MAX_TASKS, i => []);
      new;
      TotalOfEmpty(lists);
    }

    ghost function Abstract(): State
      reads this
    {
      State(|freeList|, contents)
    }

    /** There are eight queues, all different objects. */
    ghost predicate Separate()
    {
      && |queues| == MAX_TASKS
      && (forall i, j :: 0 <= i < j < MAX_TASKS ==> queues[i] != queues[j])
    }

    ghost predicate FreeListOk()
      reads this, pool
    {
      && (forall m :: m in freeList ==> m in pool && m.home == IN_FREE_LIST)
      && Linked(freeMessages, freeList)
    }

    ghost predicate QueueOk(k: nat)
      requires k < |queues|
      reads this, queues, pool
    {
      && (forall m :: m in queues[k].list ==> m in pool) && queues[k].Ok(k)
      && |lists| == |contents| == |queues|
      && lists[k] == queues[k].list && contents[k] == queues[k].contents
    }

    /** Every message of the pool is in the list its home says. */
    ghost predicate Placed()
      reads this, pool
    {
      && |lists| == MAX_TASKS
      && forall m :: m in pool ==>
        && IN_FREE_LIST <= m.home <= IN_HAND && |m.data| == MAX_MESSAGE_SIZE
        && (m.home == IN_FREE_LIST ==> m in freeList)
        && (0 <= m.home < MAX_TASKS ==> m in lists[m.home])
    }

    /** The lists are well linked and disjoint, and with the messages in hand they make up the pool. */
    ghost predicate Invariant(hand: seq<Message>)
      reads this, queues, pool
    {
      && |queues| == MAX_TASKS && Separate()
      && (forall m :: m in hand ==> m in pool) && (forall m :: m in pool ==> (m in hand <==> m.home == IN_HAND))
      && FreeListOk() && (forall k :: 0 <= k < MAX_TASKS ==> QueueOk(k))
      && Placed()
      && |lists| == |contents| == MAX_TASKS
      && |freeList| + Total(lists) + |hand| == |pool|
    }

    ghost predicate Valid()
      reads this, queues, pool
    {
      Invariant([])
    }

    /** A system none of whose parts changed is as good as before. */
    twostate lemma Frame()
      requires old(Valid()) && unchanged(this)
      requires forall q :: q in queues ==> unchanged(q)
      requires forall m :: m in pool ==> unchanged(m)
      ensures Valid()
    {
      forall k | 0 <= k < MAX_TASKS ensures unchanged(queues[k]) {
        assert queues[k] in queues;
      }
      FreeListKept();
      OthersKept(-1);
    }

    method CountFreeMessages() returns (count: int)
      requires Valid()
      ensures count == |freeList|
    {
      count := 0;
      var current := freeMessages;
      while current != null
        invariant 0 <= count <= |freeList|
        invariant current == if count < |freeList| then freeList[count] else null
        decreases |freeList| - count
      {
        count := count + 1;
        assert current in freeList;
        current := current.next;
      }
    }

    twostate lemma OthersKept(k: int)
      requires Separate() && old(pool) <= pool
      requires |lists| == |contents| == MAX_TASKS && old(|lists|) == MAX_TASKS && old(|contents|) == MAX_TASKS
      requires forall j :: 0 <= j < MAX_TASKS && j != k ==> old(QueueOk(j)) && unchanged(queues[j])
      requires forall j :: 0 <= j < MAX_TASKS && j != k ==> lists[j] == old(lists[j]) && contents[j] == old(contents[j])
      requires forall m :: m in old(pool) && 0 <= old(m.home) < MAX_TASKS && old(m.home) != k ==> unchanged(m)
      ensures forall j :: 0 <= j < MAX_TASKS && j != k ==> QueueOk(j)
    {
      forall j | 0 <= j < MAX_TASKS && j != k ensures QueueOk(j) {
        queues[j].Frame(j);
      }
    }

    twostate lemma FreeListKept()
      requires old(FreeListOk()) && old(pool) <= pool && freeList == old(freeList) && freeMessages == old(freeMessages)
      requires forall m :: m in old(pool) && old(m.home) == IN_FREE_LIST ==> unchanged(m)
      ensures FreeListOk()
    {
      forall i | 0 <= i < |freeList| ensures unchanged(freeList[i]) {
        assert freeList[i] in freeList;
      }
    }

    lemma InvariantParts(hand: seq<Message>)
      requires Invariant(hand)
      ensures Separate() && FreeListOk() && Placed() && |lists| == |contents| == |queues| == MAX_TASKS
      ensures forall k :: 0 <= k < MAX_TASKS ==> QueueOk(k)
      ensures forall m :: m in hand ==> m in pool && m.home == IN_HAND
      ensures forall m :: m in pool && m.home == IN_HAND ==> m in hand
    {
    }

    lemma QueueFacts(k: nat)
      requires k < |queues|
      ensures QueueOk(k) ==> queues[k].Ok(k) && |queues[k].contents| == |queues[k].list|
      ensures QueueOk(k) ==> |lists| == |contents| == |queues|
      ensures QueueOk(k) ==> lists[k] == queues[k].list && contents[k] == queues[k].contents
      ensures QueueOk(k) ==> forall m :: m in queues[k].list ==> m in pool && m.home == k
      ensures (&& queues[k].Ok(k) && (forall m :: m in queues[k].list ==> m in pool)
               && |lists| == |contents| == |queues| && lists[k] == queues[k].list && contents[k] == queues[k].contents)
              ==> QueueOk(k)
      ensures Separate() ==>
        |queues| == MAX_TASKS && forall j :: 0 <= j < MAX_TASKS && j != k ==> queues[j] != queues[k]
    {
    }

    lemma HeadTellsEmpty(k: nat)
      requires Valid() && k < MAX_TASKS
      ensures queues[k].head == null <==> lists[k] == []
      ensures lists[k] == [] <==> contents[k] == []
      ensures forall m :: m in lists[k] ==> m in pool
    {
      QueueFacts(k);
    }

    lemma Members()
      requires Valid()
      ensures |lists| == |contents| == |queues| == MAX_TASKS
      ensures forall m :: m in freeList ==> m in pool
      ensures forall k, m :: 0 <= k < MAX_TASKS && m in lists[k] ==> m in pool
    {
      forall k | 0 <= k < MAX_TASKS ensures forall m :: m in lists[k] ==> m in pool {
        QueueFacts(k);
      }
    }

    /** Only message msg moved. */
    twostate lemma PlacedKept(msg: Message)
      requires old(Placed()) && old(pool) <= pool <= old(pool) + {msg} && |lists| == MAX_TASKS && msg in pool
      requires forall m :: m in old(pool) && m != msg ==> m.home == old(m.home)
      requires forall m :: m in old(freeList) && m != msg ==> m in freeList
      requires forall k :: 0 <= k < MAX_TASKS ==>
        lists[k] == old(lists[k]) || lists[k] == old(lists[k]) + [msg] || [msg] + lists[k] == old(lists[k])
      requires IN_FREE_LIST <= msg.home <= IN_HAND
      requires |msg.data| == MAX_MESSAGE_SIZE || (msg in old(pool) && msg.data == old(msg.data))
      requires forall m :: m in old(pool) && m != msg ==> m.data == old(m.data)
      requires msg.home == IN_FREE_LIST ==> msg in freeList
      requires 0 <= msg.home < MAX_TASKS ==> msg in lists[msg.home]
      ensures Placed()
    {
      forall k, m | 0 <= k < MAX_TASKS && m in old(lists[k]) && m != msg ensures m in lists[k] {
        var i :| 0 <= i < |old(lists[k])| && old(lists[k])[i] == m;
      }
    }

    /** Add a new message to the pool, in front of the free list. */
    method AddMessage(msg: Message)
      requires Valid() && msg !in pool && msg.home == IN_HAND && |msg.data| == MAX_MESSAGE_SIZE
      modifies this`freeMessages, this`freeList, this`pool, msg`next, msg`home
      ensures Valid() && pool == old(pool) + {msg}
      ensures freeList == [msg] + old(freeList)
    {
      hide MsgQueue.Ok, Message.Holds, Sound, Total, QueueOk, Placed, Linked, Separate;
      msg.next := freeMessages;
      msg.home := IN_FREE_LIST;
      FreeListKept();
      LinkedCons(msg, freeMessages, freeList);
      pool := pool + {msg};
      freeMessages := msg;
      freeList := [msg] + freeList;
      assert forall j :: 0 <= j < MAX_TASKS ==> QueueOk(j) by { OthersKept(-1); }
      assert Placed() by { PlacedKept(msg); }
    }

    /** ipc_init: empty the queues and fill the free list with up to 64 messages from the heap. */
    method IpcInit(heap: Heap.Mm)
      requires Valid() && pool == {} && heap.Valid()
      modifies this`freeMessages, this`freeList, this`pool, queues, heap`blocks, heap`totalAllocated, heap.mem
      ensures Valid() && heap.Valid()
      ensures freeList != [] || pool == {}
      ensures |pool| == |freeList| <= MAX_MESSAGES && contents == old(contents)
      ensures forall m :: m in pool ==> fresh(m) && HoldsMessage(heap.blocks, m.addr)
      ensures forall m, m' :: m in pool && m' in pool && m != m' ==> Apart(m.addr, m'.addr)
      ensures old(IsFresh(heap)) ==> |pool| == Min(64, old(Capacity(heap)))
    {
      EmptyPool();
      ResetQueues();
      FillPool(heap);
      PoolApart(heap);
    }

    /** The second loop of ipc_init. */
    method FillPool(heap: Heap.Mm)
      requires Valid() && heap.Valid() && pool == {} && freeList == []
      modifies this`freeMessages, this`freeList, this`pool, heap`blocks, heap`totalAllocated, heap.mem
      ensures Valid() && heap.Valid() && Housed(heap.blocks)
      ensures |pool| == |freeList| <= MAX_MESSAGES && forall m :: m in pool ==> fresh(m)
      ensures old(IsFresh(heap)) ==> |pool| == Min(MAX_MESSAGES, old(Capacity(heap)))
    {
      ghost var untouched, most := IsFresh(heap), Capacity(heap);
      if untouched { HeapTheorems.PackedNone(heap.heapStart, heap.heapEnd); }
      assert untouched ==> Filling(heap, 0, most);
      hide Invariant, Valid, Heap.Mm.Valid, Housed, Filling, IsFresh;
      for i := 0 to MAX_MESSAGES
        invariant Valid() && heap.Valid() && Housed(heap.blocks)
        invariant |pool| == |freeList| <= i && fresh(pool)
        invariant untouched ==> Filling(heap, i, most)
      {
        GrowPool(heap, i, most);
      }
      assert untouched ==> |pool| == Min(MAX_MESSAGES, most) by { FillingMeans(heap, MAX_MESSAGES, most); }
    }

    /** After i allocations the pool has i messages, or as many as the heap could hold. */
    ghost predicate Filling(heap: Heap.Mm, i: nat, most: nat)
      reads this`pool, heap
    {
      HeapFilled(heap, |pool|) && Capacity(heap) == most && |pool| == Min(i, most)
    }

    /** The body of the allocation loop of ipc_init. */
    method GrowPool(heap: Heap.Mm, ghost i: nat, ghost most: nat)
      requires Valid() && heap.Valid() && Housed(heap.blocks) && |pool| == |freeList| <= i
      modifies this`freeMessages, this`freeList, this`pool, heap`blocks, heap`totalAllocated, heap.mem
      ensures Valid() && heap.Valid() && Housed(heap.blocks)
      ensures |pool| == |freeList| <= i + 1 && fresh(pool - old(pool))
      ensures old(Filling(heap, i, most)) ==> Filling(heap, i + 1, most)
    {
      hide Invariant, Valid, Heap.Mm.Valid, Housed, HeapFilled, Capacity;
      ghost var added := AllocateOne(heap, |pool|);
    }

    lemma FillingMeans(heap: Heap.Mm, i: nat, most: nat)
      ensures Filling(heap, i, most) ==> |pool| == Min(i, most)
    {
    }

    lemma PoolApart(heap: Heap.Mm)
      requires heap.Valid() && Housed(heap.blocks)
      ensures forall m, m' :: m in pool && m' in pool && m != m' ==> Apart(m.addr, m'.addr)
    {
      forall m, m' | m in pool && m' in pool && m != m' ensures Apart(m.addr, m'.addr) {
        PayloadsApart(heap.blocks, heap.heapStart, heap.heapEnd, m.addr, m'.addr);
      }
    }

    /** The messages stand at different payloads in use of the heap. */
    ghost predicate Housed(bs: seq<HeapSpec.Block>)
      reads this`pool
    {
      && (forall m :: m in pool ==> HoldsMessage(bs, m.addr))
      && (forall m, m' :: m in pool && m' in pool && m != m' ==> m.addr != m'.addr)
    }

    lemma HousedGrows(before: set<Message>, bs: seq<HeapSpec.Block>, bs': seq<HeapSpec.Block>, msg: Message)
      requires forall m :: m in before ==> HoldsMessage(bs, m.addr)
      requires forall m, m' :: m in before && m' in before && m != m' ==> m.addr != m'.addr
      requires HoldsMessage(bs', msg.addr) && forall a :: HoldsMessage(bs, a) ==> HoldsMessage(bs', a) && a != msg.addr
      requires pool == before + {msg}
      ensures Housed(bs')
    {
    }

    /** A message from the heap, put in front of the free list; null if the heap is full. */
    method AllocateOne(heap: Heap.Mm, ghost k: nat) returns (ghost added: Message?)
      requires Valid() && heap.Valid() && Housed(heap.blocks)
      modifies this`freeMessages, this`freeList, this`pool, heap`blocks, heap`totalAllocated, heap.mem
      ensures Valid() && heap.Valid() && Housed(heap.blocks)
      ensures old(HeapFilled(heap, k)) ==>
        Capacity(heap) == old(Capacity(heap)) && (added != null <==> k < Capacity(heap))
      ensures old(HeapFilled(heap, k)) ==> HeapFilled(heap, if added != null then k + 1 else k)
      ensures added == null ==> pool == old(pool) && freeList == old(freeList)
      ensures added != null ==> fresh(added) && pool == old(pool) + {added} && freeList == [added] + old(freeList)
    {
      added := null;
      var p := KmallocMessage(heap, k);
      if p != 0 {
        hide Invariant, Heap.Mm.Valid, HoldsMessage, HeapFilled, Capacity;
        var msg := new Message(p);
        AddMessage(msg);
        HousedGrows(old(pool), old(heap.blocks), heap.blocks, msg);
        added := msg;
      }
    }

    static method KmallocMessage(heap: Heap.Mm, ghost k: nat) returns (p: nat)
      requires heap.Valid()
      modifies heap`blocks, heap`totalAllocated, heap.mem
      ensures heap.Valid()
      ensures p == 0 ==> heap.blocks == old(heap.blocks)
      ensures p != 0 ==> HoldsMessage(heap.blocks, p)
      ensures p != 0 ==> forall a :: HoldsMessage(old(heap.blocks), a) ==> HoldsMessage(heap.blocks, a) && a != p
      ensures old(HeapFilled(heap, k)) ==> Capacity(heap) == old(Capacity(heap)) && (p != 0 <==> k < Capacity(heap))
      ensures old(HeapFilled(heap, k)) ==> HeapFilled(heap, if p != 0 then k + 1 else k)
    {
      p := heap.Kmalloc(HeapTheorems.MESSAGE_BYTES);
      if p != 0 {
        NewPayload(old(heap.blocks), heap.heapStart, heap.heapEnd, p);
      }
      if old(HeapFilled(heap, k)) {
        HeapTheorems.FillStep(old(heap.blocks), heap.heapStart, heap.heapEnd, k);
      }
    }

    /** The first loop of ipc_init, on queues that hold no message. */
    method ResetQueues()
      requires Valid() && forall k :: 0 <= k < MAX_TASKS ==> queues[k].list == []
      modifies queues`head, queues`tail, queues`count
      ensures Valid()
    {
      forall k | 0 <= k < MAX_TASKS ensures queues[k].head == queues[k].tail == null && queues[k].count == 0 {
        assert QueueOk(k) && queues[k].Ok(k);
      }
      for i := 0 to MAX_TASKS
        invariant forall k :: 0 <= k < MAX_TASKS ==> queues[k].head == queues[k].tail == null && queues[k].count == 0
      {
        queues[i].head := null;
        queues[i].tail := null;
        queues[i].count := 0;
      }
    }

    lemma EmptyPool()
      requires Valid() && pool == {}
      ensures freeList == [] && forall k :: 0 <= k < MAX_TASKS ==> queues[k].list == []
    {
      forall k | 0 <= k < MAX_TASKS ensures queues[k].list == [] {
        QueueFacts(k);
        assert forall m :: m !in queues[k].list;
      }
      assert forall m :: m !in freeList;
    }

    /** alloc_message: take the first free message, null if there is none. */
    method AllocMessage() returns (msg: Message?)
      requires Valid()
      modifies this`freeMessages, this`freeList, freeList`next, freeList`home
      ensures old(freeList) == [] ==> msg == null && Valid() && freeList == []
      ensures old(freeList) != [] ==>
        msg == old(freeList)[0] && freeList == old(freeList)[1..] && Invariant([msg]) && msg.next == null
    {
      if freeMessages == null {
        return null;
      }
      hide MsgQueue.Ok, Message.Holds, Sound, QueueOk, Separate, Placed, Total;
      var first: Message := freeMessages;
      assert first == freeList[0] && first in freeList;
      freeMessages := first.next;
      first.next := null;
      first.home := IN_HAND;
      freeList := freeList[1..];
      assert FreeListOk();
      hide Linked, FreeListOk;
      OthersKept(-1);
      PlacedKept(first);
      msg := first;
    }

    /** free_message: wipe the header and put the message in front of the free list. */
    method FreeMessage(msg: Message?)
      requires if msg == null then Valid() else Invariant([msg])
      modifies this`freeMessages, this`freeList, msg
      ensures Valid()
      ensures msg == null ==> freeList == old(freeList)
      ensures msg != null ==>
        freeList == [msg] + old(freeList) && msg.senderPid == -1 && msg.receiverPid == -1 && msg.size == 0
    {
      if msg == null {
        return;
      }
      hide MsgQueue.Ok, Message.Holds, Sound, QueueOk, Separate, Placed, Total, Linked, FreeListOk;
      WipeAndPush(msg);
      PlacedKept(msg);
    }

    method WipeAndPush(msg: Message)
      requires Invariant([msg])
      modifies this`freeMessages, this`freeList, msg
      ensures freeList == [msg] + old(freeList) && msg.home == IN_FREE_LIST && msg.data == old(msg.data)
      ensures msg.senderPid == -1 && msg.receiverPid == -1 && msg.size == 0
      ensures FreeListOk() && (forall j :: 0 <= j < MAX_TASKS ==> QueueOk(j))
    {
      hide MsgQueue.Ok, Message.Holds, Sound, QueueOk, Separate, Placed, Total, Linked;
      msg.senderPid := -1;
      msg.receiverPid := -1;
      msg.size := 0;
      msg.next := freeMessages;
      msg.home := IN_FREE_LIST;
      FreeListKept();
      LinkedCons(msg, freeMessages, freeList);
      freeMessages := msg;
      freeList := [msg] + freeList;
      assert forall j :: 0 <= j < MAX_TASKS ==> QueueOk(j) by { OthersKept(-1); }
    }

    /** Fill a message in hand: msg->sender_pid, receiver_pid, size and the first size data bytes. */
    method Fill(msg: Message, me: int, receiver: int, data: array<byte>, size: int)
      requires Invariant([msg]) && 0 < size <= MAX_MESSAGE_SIZE && size <= data.Length
      modifies msg`senderPid, msg`receiverPid, msg`size, msg`data
      ensures Invariant([msg])
      ensures msg.receiverPid == receiver && msg.Holds(Msg(me, data[..size]))
    {
      assert |msg.data| == MAX_MESSAGE_SIZE;
      msg.senderPid := me;
      msg.receiverPid := receiver;
      msg.size := size;
      for i := 0 to size
        invariant |msg.data| == MAX_MESSAGE_SIZE && msg.data[..i] == data[..i]
        modifies msg`data
      {
        msg.data := msg.data[i := data[i]];
      }
      hide MsgQueue.Ok, Sound, QueueOk, Separate, Placed, Total, Linked, FreeListOk;
      assert forall j :: 0 <= j < MAX_TASKS ==> QueueOk(j) by { OthersKept(-1); }
      assert FreeListOk() by { FreeListKept(); }
      assert Placed() by { PlacedKept(msg); }
    }

    /** Append a filled message to the queue of task k. */
    method Enqueue(k: nat, msg: Message, ghost m: Msg)
      requires Invariant([msg]) && k < MAX_TASKS
      requires msg.Holds(m) && Sound(m) && msg.receiverPid == k && msg.next == null
      modifies msg`home, lists[k]`next, queues[k], this`lists, this`contents
      ensures Valid()
      ensures contents == old(contents)[k := old(contents)[k] + [m]]
    {
      hide Linked, MsgQueue.Ok, Message.Holds, Sound, FreeListOk, Separate, Placed, QueueOk, Total;
      TotalUpdate(lists, k, lists[k] + [msg]);
      QueueFacts(k);
      PushOn(k, msg, m);
      FreeListKept();
      PlacedKept(msg);
    }

    method PushOn(k: nat, msg: Message, ghost m: Msg)
      requires Invariant([msg]) && k < MAX_TASKS
      requires msg.Holds(m) && Sound(m) && msg.receiverPid == k && msg.next == null
      modifies msg`home, lists[k]`next, queues[k], this`lists, this`contents
      ensures lists == old(lists)[k := old(lists)[k] + [msg]]
      ensures contents == old(contents)[k := old(contents)[k] + [m]]
      ensures (forall j :: 0 <= j < MAX_TASKS ==> QueueOk(j)) && msg.home == k
    {
      hide Linked, MsgQueue.Ok, Message.Holds, Sound, FreeListOk, Separate, Placed, QueueOk, Total, Invariant;
      InvariantParts([msg]);
      QueueFacts(k);
      queues[k].Push(k, msg, m);
      lists, contents := lists[k := lists[k] + [msg]], contents[k := contents[k] + [m]];
      assert forall j :: 0 <= j < MAX_TASKS && j != k ==> QueueOk(j) by { OthersKept(k); }
      assert QueueOk(k) by {
        assert forall m :: m in queues[k].list ==> m in old(queues[k].list) || m == msg;
        QueueFacts(k);
      }
    }

    /** Take the oldest message out of the queue of task k. */
    method Dequeue(k: nat) returns (msg: Message)
      requires Valid() && k < MAX_TASKS && lists[k] != []
      modifies lists[k]`home, queues[k], this`lists, this`contents
      ensures Invariant([msg])
      ensures msg == old(lists[k][0])
      ensures old(contents[k]) != [] && contents == old(contents)[k := old(contents)[k][1..]]
      ensures msg.Holds(old(contents[k][0])) && Sound(old(contents[k][0]))
    {
      hide Linked, MsgQueue.Ok, Message.Holds, Sound, FreeListOk, Separate, Placed, QueueOk, Total;
      TotalUpdate(lists, k, lists[k][1..]);
      QueueFacts(k);
      msg := PopFrom(k);
      FreeListKept();
      PlacedKept(msg);
    }

    method PopFrom(k: nat) returns (msg: Message)
      requires Valid() && k < MAX_TASKS && lists[k] != []
      modifies lists[k]`home, queues[k], this`lists, this`contents
      ensures msg == old(lists[k][0]) && lists == old(lists)[k := old(lists)[k][1..]]
      ensures old(contents[k]) != [] && contents == old(contents)[k := old(contents)[k][1..]]
      ensures msg.Holds(old(contents[k][0])) && Sound(old(contents[k][0]))
      ensures (forall j :: 0 <= j < MAX_TASKS ==> QueueOk(j)) && msg.home == IN_HAND && msg in pool
      ensures forall m :: m in pool && m != msg ==> m.home == old(m.home)
    {
      hide Linked, MsgQueue.Ok, Message.Holds, Sound, FreeListOk, Separate, Placed, QueueOk, Total, Invariant;
      InvariantParts([]);
      QueueFacts(k);
      assert queues[k].list[0] in queues[k].list;
      msg := queues[k].Pop(k);
      lists, contents := lists[k := lists[k][1..]], contents[k := contents[k][1..]];
      assert forall j :: 0 <= j < MAX_TASKS && j != k ==> QueueOk(j) by { OthersKept(k); }
      assert QueueOk(k) by { QueueFacts(k); }
    }

    /** A call of the abstract system, as send_message and recv_message see it. */
    static function SendCall(me: int, receiver: int, data: array?<byte>, size: int): Call
      reads if data == null then {} else {data}
    {
      Send(me, receiver, if data == null then None else Some(data[..]), size)
    }

    method SendMessage(currentTask: int, receiverPid: int, data: array?<byte>, size: int) returns (ret: int)
      requires Valid() && Callable(SendCall(currentTask, receiverPid, data, size))
      modifies this, queues, pool
      ensures Valid() && pool == old(pool)
      ensures (Abstract(), ret) ==
        (var (s, r) := Step(old(Abstract()), SendCall(currentTask, receiverPid, data, size)); (s, r.ret))
    {
      hide Invariant;
      Members();
      ret := -1;
      if receiverPid < 0 || receiverPid >= MAX_TASKS {
      } else if size <= 0 {
      } else if size > MAX_MESSAGE_SIZE {
      } else if data == null {
      } else {
        var msg := AllocMessage();
        if msg != null {
          Fill(msg, currentTask, receiverPid, data, size);
          Enqueue(receiverPid, msg, Msg(currentTask, data[..size]));
          ret := 0;
        }
      }
    }

    method RecvMessage(currentTask: int, senderPid: int, buffer: array?<byte>, maxSize: int) returns (ret: int)
      requires Valid() && IsTask(currentTask)
      requires buffer != null ==> maxSize <= buffer.Length
      modifies this, queues, pool, buffer
      ensures Valid() && pool == old(pool)
      ensures var (s, r) := Step(old(Abstract()), Recv(currentTask, senderPid, buffer != null, maxSize));
        && Abstract() == s && ret == r.ret
        && (buffer != null ==> |r.copied| <= buffer.Length && buffer[..] == r.copied + old(buffer[..])[|r.copied|..])
    {
      hide Invariant;
      Members();
      HeadTellsEmpty(currentTask);
      ret := -1;
      if buffer == null {
      } else if maxSize <= 0 {
      } else if queues[currentTask].head == null {
      } else {
        ret := Deliver(currentTask, buffer, maxSize);
      }
    }

    /** recv_message once a message is there: dequeue it, copy it out and free it. */
    method Deliver(k: nat, buffer: array<byte>, maxSize: int) returns (ret: int)
      requires Valid() && k < MAX_TASKS && lists[k] != [] && 0 < maxSize <= buffer.Length
      modifies this, queues, pool, buffer
      ensures Valid() && pool == old(pool) && |freeList| == old(|freeList|) + 1
      ensures old(contents[k]) != [] && contents == old(contents)[k := old(contents)[k][1..]]
      ensures var m := old(contents[k][0]);
        && ret == |m.bytes|
        && buffer[..] == m.bytes[..Min(|m.bytes|, maxSize)] + old(buffer[..])[Min(|m.bytes|, maxSize)..]
    {
      hide Invariant;
      Members();
      var msg := Dequeue(k);
      ghost var m := old(contents[k][0]);
      assert 0 < msg.size == |m.bytes| <= |msg.data| && msg.data[..msg.size] == m.bytes && msg.size <= MAX_MESSAGE_SIZE;
      hide Message.Holds, Sound, Valid;
      if msg.size <= 0 || msg.size > MAX_MESSAGE_SIZE {
        assert false;
      }
      var copySize := if msg.size < maxSize then msg.size else maxSize;
      CopyBytes(msg.data, buffer, copySize);
      ret := msg.size;
      FreeMessage(msg);
    }

    /** The corruption check of ipc_log_queue_status: it never fires. */
    method LogQueueStatus(pid: int) returns (corrupt: bool)
      requires Valid()
      ensures !corrupt
    {
      corrupt := false;
      if pid < 0 || pid >= MAX_TASKS {
        return;
      }
      var queue := queues[pid];
      assert QueueOk(pid) && queue.Ok(pid);
      if queue.count > 0 {
        var actualCount := 0;
        var current := queue.head;
        while current != null && actualCount < queue.count + 5
          invariant 0 <= actualCount <= |queue.list|
          invariant current == if actualCount < |queue.list| then queue.list[actualCount] else null
          decreases |queue.list| - actualCount
        {
          actualCount := actualCount + 1;
          assert current in queue.list;
          current := current.next;
        }
        corrupt := actualCount != queue.count;
      }
    }

    /** The mismatch check of ipc_debug_status: it fires only for a pool of other than 64 messages. */
    method DebugStatus() returns (mismatch: bool)
      requires Valid()
      ensures mismatch <==> Total(contents) > 0 && |pool| != 64
    {
      var freeCount := CountFreeMessages();
      var usedCount := MAX_MESSAGES - freeCount;
      var totalQueued, activeQueues := 0, 0;
      for i := 0 to MAX_TASKS
        invariant totalQueued + Total(contents[i..]) == Total(contents)
        invariant activeQueues > 0 <==> totalQueued > 0
        invariant 0 <= totalQueued && 0 <= activeQueues
      {
        assert QueueOk(i) && queues[i].Ok(i) && contents[i..][1..] == contents[i + 1..];
        if queues[i].count > 0 {
          totalQueued := totalQueued + queues[i].count;
          activeQueues := activeQueues + 1;
        }
      }
      SameTotals();
      mismatch := activeQueues != 0 && totalQueued != usedCount;
    }

    /** As many messages are queued as the abstract queues say. */
    lemma SameTotals()
      requires Valid()
      ensures Total(contents) == Total(lists)
    {
      forall k | 0 <= k < MAX_TASKS ensures |contents[k]| == |lists[k]| {
        QueueFacts(k);
      }
      TotalOfLengths(contents, lists);
    }
  }

  /** mm_init, then ipc_init. */
  method Boot(memory: array<byte>, start: nat, end: nat) returns (heap: Heap.Mm, ipc: IpcSystem)
    requires 0 < start && end % 8 == 0 && end <= memory.Length < 0x1_0000_0000_0000_0000
    requires 0 <= end - Heap.AlignUp(start) - HeapSpec.HEADER < 0x1_0000_0000 - HeapSpec.HEADER
    modifies memory
    ensures heap.Valid() && fresh(ipc) && ipc.Valid() && ipc.contents == seq(MAX_TASKS, i => [])
    ensures |ipc.pool| == |ipc.freeList| == Min(MAX_MESSAGES, HeapTheorems.Capacity(Heap.AlignUp(start), end))
    ensures (forall k :: 0 <= k < |ipc.queues| ==> fresh(ipc.queues[k])) && forall m :: m in ipc.pool ==> fresh(m)
  {
    heap := new Heap.Mm(memory, start, end);
    heap.MmInit();
    ipc := new IpcSystem();
    ipc.IpcInit(heap);
  }

  /** The mismatch check does fire when the heap had room for fewer than 64 messages. */
  method WarningOnSmallHeap() returns (mismatch: bool)
    ensures mismatch
  {
    var memory := new byte[1024](_ => 0);
    var heap, ipc := Boot(memory, 8, 1024);
    mismatch := SendAndCheck(ipc);
  }

  method SendAndCheck(ipc: IpcSystem) returns (mismatch: bool)
    requires ipc.Valid() && ipc.freeList != [] && |ipc.pool| != MAX_MESSAGES
    modifies ipc, ipc.queues, ipc.pool
    ensures mismatch
  {
    ipc.Members();
    hide IpcSystem.Valid;
    var data := new byte[1](_ => 0);
    var ret := ipc.SendMessage(0, 0, data, 1);
    TotalAtLeast(ipc.contents, 0);
    mismatch := ipc.DebugStatus();
  }

  lemma {:induction false} TotalOfEmpty<T>(a: seq<seq<T>>)
    requires forall k :: 0 <= k < |a| ==> a[k] == []
    ensures Total(a) == 0
  {
    if a != [] {
      TotalOfEmpty(a[1..]);
    }
  }

  lemma {:induction false} TotalOfLengths<S, T>(a: seq<seq<S>>, b: seq<seq<T>>)
    requires |a| == |b| && forall k :: 0 <= k < |a| ==> |a[k]| == |b[k]|
    ensures Total(a) == Total(b)
  {
    if a != [] {
      assert forall k :: 0 <= k < |a| - 1 ==> |a[1..][k]| == |b[1..][k]|;
      TotalOfLengths(a[1..], b[1..]);
    }
  }
}
