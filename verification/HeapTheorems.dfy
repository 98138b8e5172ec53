/** What the block list of kernal/mm.c guarantees its callers, over single calls and whole runs. */
module HeapTheorems {
  import opened Memory
  import opened HeapSpec

  ghost function Used(bs: seq<Block>): set<Block> {
    set b | b in bs && !b.free
  }

  ghost function LivePointers(bs: seq<Block>): set<nat> {
    set b | b in bs && !b.free :: b.Payload()
  }

  // ---------------------------------------------------------------- which blocks are handed out

  /** kmalloc adds one used block and touches no other. */
  lemma PlaceUsed(bs: seq<Block>, i: nat, n: nat)
    requires i < |bs| && bs[i].free && bs[i].size >= n
    ensures Used(Place(bs, i, n)) == Used(bs) + {Handed(bs[i], n)}
  {
  }

  lemma AbsorbUsed(bs: seq<Block>, i: nat)
    requires i + 1 < |bs| && bs[i].free && bs[i + 1].free
    ensures Used(Absorb(bs, i)) == Used(bs)
  {
  }

  /** kfree takes exactly the freed block out of the used ones. */
  lemma ReleaseUsed(bs: seq<Block>, lo: nat, hi: nat, i: nat)
    requires WellFormed(bs, lo, hi) && i < |bs| && !bs[i].free
    ensures Used(Release(bs, i)) == Used(bs) - {bs[i]}
  {
    Disjoint(bs, lo, hi);
    var m := bs[i := bs[i].(free := true)];
    assert Used(m) == Used(bs) - {bs[i]} by {
      forall b | b in Used(bs) - {bs[i]} ensures b in Used(m) {
        var k :| 0 <= k < |bs| && bs[k] == b;
        assert m[k] == b;
      }
      forall b | b in Used(m) ensures b in Used(bs) && b != bs[i] {
        var k :| 0 <= k < |m| && m[k] == b;
        assert k != i;
      }
    }
    if i + 1 < |m| && m[i + 1].free {
      AbsorbUsed(m, i);
    }
    var r := ReleaseRight(bs, i);
    if i > 0 && r[i - 1].free {
      AbsorbUsed(r, i - 1);
    }
  }

  // ---------------------------------------------------------------- first fit against the address space

  /** A header and n payload bytes fit at address a without touching any used block. */
  ghost predicate Room(bs: seq<Block>, lo: nat, hi: nat, a: nat, n: nat) {
    && lo <= a && a + HEADER + n <= hi
    && forall i :: 0 <= i < |bs| && !bs[i].free ==> a + HEADER + n <= bs[i].addr || bs[i].End() <= a
  }

  /** Room anywhere means a whole free block around it: free neighbours have been merged. */
  lemma RoomIsInAFreeBlock(bs: seq<Block>, lo: nat, hi: nat, a: nat, n: nat) returns (k: nat)
    requires WellFormed(bs, lo, hi) && Room(bs, lo, hi, a, n)
    ensures k < |bs| && bs[k].free && bs[k].addr <= a && a + HEADER + n <= bs[k].End()
  {
    k := BlockAt(bs, lo, hi, a);
    assert bs[k].free;
    if k + 1 < |bs| {
      assert bs[k].End() == bs[k + 1].addr;
      assert !bs[k + 1].free;
    }
  }

  /**
   kmalloc fails only when no gap between the used blocks could hold the request, and
   otherwise places it at the lowest address where it fits.
   */
  lemma MallocTakesLowestRoom(bs: seq<Block>, lo: nat, hi: nat, size: u32)
    requires WellFormed(bs, lo, hi)
    ensures var (r, p) := Malloc(bs, size);
      var n := RoundUp(size);
      && (p == 0 <==> forall a :: !Room(bs, lo, hi, a, n))
      && (p != 0 ==> p >= HEADER && Room(bs, lo, hi, p - HEADER, n)
                     && forall a :: Room(bs, lo, hi, a, n) ==> p - HEADER <= a)
  {
    var n := RoundUp(size);
    var i := FirstFit(bs, n);
    Disjoint(bs, lo, hi);
    if i < |bs| {
      assert Room(bs, lo, hi, bs[i].addr, n) by {
        forall k | 0 <= k < |bs| && !bs[k].free
          ensures bs[i].addr + HEADER + n <= bs[k].addr || bs[k].End() <= bs[i].addr
        {
          assert k < i || i < k;
        }
      }
    }
    forall a | Room(bs, lo, hi, a, n)
      ensures i < |bs| && bs[i].addr <= a
    {
      var k := RoomIsInAFreeBlock(bs, lo, hi, a, n);
      assert i <= k;
    }
  }

  lemma FreeBlockIsApart(bs: seq<Block>, lo: nat, hi: nat, i: nat, c: Block)
    requires Tiles(bs, lo, hi) && i < |bs| && bs[i].free && c in Used(bs)
    ensures bs[i].End() <= c.addr || c.End() <= bs[i].addr
  {
    var k :| 0 <= k < |bs| && bs[k] == c;
    if k < i { InOrder(bs, lo, hi, k, i); } else { InOrder(bs, lo, hi, i, k); }
  }

  /**
   The block handed out is aligned, holds the rounded request, and overlaps no header and no
   payload that was in use; the used blocks gain exactly this one.
   */
  lemma MallocGives(bs: seq<Block>, lo: nat, hi: nat, size: u32) returns (b: Block)
    requires WellFormed(bs, lo, hi) && Malloc(bs, size).1 != 0
    ensures Used(Malloc(bs, size).0) == Used(bs) + {b} && b !in Used(bs)
    ensures b.Payload() == Malloc(bs, size).1 && b.Payload() % 8 == 0 && b.size >= RoundUp(size)
    ensures lo <= b.addr && b.End() <= hi
    ensures forall c :: c in Used(bs) ==> b.End() <= c.addr || c.End() <= b.addr
  {
    var n := RoundUp(size);
    var i := FirstFit(bs, n);
    b := Handed(bs[i], n);
    PlaceUsed(bs, i, n);
    InBounds(bs, lo, hi, i);
    hide Place, Coalesced, FirstFit;
    forall c | c in Used(bs)
      ensures b.End() <= c.addr || c.End() <= b.addr
    {
      FreeBlockIsApart(bs, lo, hi, i, c);
    }
  }

  ghost function Blocks(bs: seq<Block>): set<Block> { set b | b in bs }

  /**
   When kmalloc splits: the chosen free block f is cut to the n bytes of the rounded request if
   more than 48 bytes, a header and 32, would be left over; otherwise it is handed out whole. No
   other block is touched.
   */
  lemma MallocSplits(bs: seq<Block>, lo: nat, hi: nat, size: u32) returns (f: Block)
    requires WellFormed(bs, lo, hi) && Malloc(bs, size).1 != 0
    ensures f in bs && f.free && Malloc(bs, size).1 == f.addr + 16
    ensures var r, n := Malloc(bs, size).0, (size as int + 7) % 0x1_0000_0000 / 8 * 8;
      && n <= f.size
      && Blocks(r) == Blocks(bs) - {f} +
         if f.size > n + 48 then {Block(f.addr, n, false), Block(f.addr + 16 + n, f.size - n - 16, true)}
         else {Block(f.addr, f.size, false)}
  {
    hide FirstFit;
    var n := RoundUp(size);
    var i := FirstFit(bs, n);
    f := bs[i];
    PlaceBlocks(bs, lo, hi, i, n);
    hide Place;
  }

  lemma BlocksConcat(a: seq<Block>, m: seq<Block>, c: seq<Block>)
    ensures Blocks(a + m + c) == Blocks(a) + Blocks(m) + Blocks(c)
  {
    forall b | b in a + m + c ensures b in a || b in m || b in c {}
    forall b | b in a || b in m || b in c ensures b in a + m + c {}
  }

  /** What Place puts in the stead of block f. */
  function Parts(f: Block, n: nat): seq<Block>
    requires n <= f.size
  {
    if f.size > n + 48 then [Block(f.addr, n, false), Block(f.addr + 16 + n, f.size - n - 16, true)]
    else [Block(f.addr, f.size, false)]
  }

  lemma PlaceParts(bs: seq<Block>, i: nat, n: nat)
    requires i < |bs| && bs[i].size >= n
    ensures Place(bs, i, n) == bs[..i] + Parts(bs[i], n) + bs[i + 1..]
  {
    if !Splits(bs[i], n) { assert bs[i := Handed(bs[i], n)] == bs[..i] + [Handed(bs[i], n)] + bs[i + 1..]; }
  }

  /** Place exchanges one block for one or two. */
  lemma PlaceBlocks(bs: seq<Block>, lo: nat, hi: nat, i: nat, n: nat)
    requires Tiles(bs, lo, hi) && i < |bs| && bs[i].size >= n
    ensures Blocks(Place(bs, i, n)) == Blocks(bs) - {bs[i]} + Blocks(Parts(bs[i], n))
  {
    hide Place, Parts, Tiles;
    var f := bs[i];
    forall k | 0 <= k < |bs| && bs[k] == f ensures k == i {
      SameIndex(bs, lo, hi, k, i);
    }
    assert f !in Blocks(bs[..i]) && f !in Blocks(bs[i + 1..]);
    PlaceParts(bs, i, n);
    BlocksConcat(bs[..i], Parts(f, n), bs[i + 1..]);
    BlocksConcat(bs[..i], [f], bs[i + 1..]);
    assert bs == bs[..i] + [f] + bs[i + 1..];
  }

  /** The block returned covers the size asked for exactly when the rounding does not wrap. */
  lemma MallocCoversRequest(bs: seq<Block>, lo: nat, hi: nat, size: u32, b: Block)
    requires WellFormed(bs, lo, hi) && hi - lo < 0x1_0000_0000 && Malloc(bs, size).1 != 0
    requires b in Used(Malloc(bs, size).0) && b.Payload() == Malloc(bs, size).1
    ensures b.size >= size as int <==> size as int <= 0x1_0000_0000 - 8
  {
    hide Place;
    var n := RoundUp(size);
    var i := FirstFit(bs, n);
    var r := Malloc(bs, size).0;
    PlaceWellFormed(bs, lo, hi, i, n);
    PlaceUsed(bs, i, n);
    SameAddress(r, lo, hi, b, Handed(bs[i], n));
    var k :| 0 <= k < |r| && r[k] == b;
    InBounds(r, lo, hi, k);
    assert size as int > 0x1_0000_0000 - 8 ==> n == 0;
  }

  /** Such a request does succeed: its size wraps to 0, and the block cannot hold what was asked for. */
  lemma MallocCanFallShort(lo: nat, hi: nat) returns (b: Block)
    requires lo + HEADER <= hi && hi - lo < 0x1_0000_0000
    ensures Malloc(Fresh(lo, hi), 0xFFFF_FFFF).1 == lo + HEADER == b.Payload()
    ensures b in Used(Malloc(Fresh(lo, hi), 0xFFFF_FFFF).0) && b.size < 0xFFFF_FFFF
  {
    var f := Fresh(lo, hi)[0];
    b := Handed(f, 0);
    assert RoundUp(0xFFFF_FFFF) == 0;
    FirstFitIs(Fresh(lo, hi), 0, 0);
    assert Place(Fresh(lo, hi), 0, 0)[0] == b;
  }

  // ---------------------------------------------------------------- conservation

  function UsedBytes(bs: seq<Block>): nat {
    if bs == [] then 0 else (if bs[0].free then 0 else bs[0].size) + UsedBytes(bs[1..])
  }

  function FreeBytes(bs: seq<Block>): nat {
    if bs == [] then 0 else (if bs[0].free then bs[0].size else 0) + FreeBytes(bs[1..])
  }

  function FreeCount(bs: seq<Block>): nat {
    if bs == [] then 0 else (if bs[0].free then 1 else 0) + FreeCount(bs[1..])
  }

  /** Used bytes, free bytes and one header a block make up the heap. */
  lemma {:induction false} Conservation(bs: seq<Block>, lo: nat, hi: nat)
    requires Tiles(bs, lo, hi)
    ensures UsedBytes(bs) + FreeBytes(bs) + HEADER * |bs| == hi - lo
  {
    if |bs| == 1 {
      assert bs[1..] == [];
    } else {
      var t := bs[1..];
      assert bs[0].End() == bs[1].addr;
      assert forall k :: 0 <= k < |t| ==> t[k] == bs[k + 1];
      assert Tiles(t, bs[1].addr, hi);
      Conservation(t, bs[1].addr, hi);
    }
  }

  lemma {:induction false} UsedBytesConcat(a: seq<Block>, b: seq<Block>)
    ensures UsedBytes(a + b) == UsedBytes(a) + UsedBytes(b)
  {
    if a == [] {
      assert a + b == b;
    } else {
      assert (a + b)[1..] == a[1..] + b;
      UsedBytesConcat(a[1..], b);
    }
  }

  lemma UsedBytesSplit(bs: seq<Block>, i: nat)
    requires i < |bs|
    ensures UsedBytes(bs) == UsedBytes(bs[..i]) + (if bs[i].free then 0 else bs[i].size) + UsedBytes(bs[i + 1..])
  {
    assert bs == bs[..i] + bs[i..];
    UsedBytesConcat(bs[..i], bs[i..]);
    assert bs[i..][1..] == bs[i + 1..];
  }

  lemma PlaceUsedBytes(bs: seq<Block>, i: nat, n: nat)
    requires i < |bs| && bs[i].free && bs[i].size >= n
    ensures UsedBytes(Place(bs, i, n)) == UsedBytes(bs) + (if Splits(bs[i], n) then n else bs[i].size)
  {
    var r := Place(bs, i, n);
    UsedBytesSplit(bs, i);
    UsedBytesSplit(r, i);
    assert r[..i] == bs[..i];
    if Splits(bs[i], n) {
      UsedBytesSplit(r[i + 1..], 0);
      assert r[i + 1..][1..] == bs[i + 1..];
      assert r[i + 1..][..0] == [];
    } else {
      assert r[i + 1..] == bs[i + 1..];
    }
  }

  lemma AbsorbUsedBytes(bs: seq<Block>, i: nat)
    requires i + 1 < |bs| && bs[i].free && bs[i + 1].free
    ensures UsedBytes(Absorb(bs, i)) == UsedBytes(bs)
  {
    var r := Absorb(bs, i);
    AbsorbElements(bs, i);
    UsedBytesSplit(bs, i);
    UsedBytesSplit(bs[i + 1..], 0);
    UsedBytesSplit(r, i);
    assert bs[i + 1..][..0] == [];
    assert r[..i] == bs[..i];
    assert r[i + 1..] == bs[i + 1..][1..];
  }

  lemma ReleaseUsedBytes(bs: seq<Block>, i: nat)
    requires i < |bs| && !bs[i].free
    ensures UsedBytes(Release(bs, i)) == UsedBytes(bs) - bs[i].size
  {
    var m := bs[i := bs[i].(free := true)];
    UsedBytesSplit(bs, i);
    UsedBytesSplit(m, i);
    assert m[..i] == bs[..i] && m[i + 1..] == bs[i + 1..];
    if i + 1 < |m| && m[i + 1].free {
      AbsorbUsedBytes(m, i);
    }
    var r := ReleaseRight(bs, i);
    if i > 0 && r[i - 1].free {
      AbsorbUsedBytes(r, i - 1);
    }
  }

  // ---------------------------------------------------------------- runs

  datatype Call = Alloc(size: u32) | Free(p: nat)

  ghost predicate IsIndexOf(bs: seq<Block>, p: nat, i: nat) {
    i < |bs| && !bs[i].free && bs[i].Payload() == p
  }

  /** kfree(p) for a live p or 0; a pointer that is not live changes nothing. */
  ghost function FreeSpec(bs: seq<Block>, p: nat): seq<Block> {
    if p != 0 && exists i: nat :: IsIndexOf(bs, p, i) then
      var i: nat :| IsIndexOf(bs, p, i);
      Release(bs, i)
    else bs
  }

  /** Only one block can have a given payload address. */
  lemma FreeSpecIs(bs: seq<Block>, lo: nat, hi: nat, p: nat, i: nat)
    requires Tiles(bs, lo, hi) && IsIndexOf(bs, p, i)
    ensures FreeSpec(bs, p) == Release(bs, i)
  {
    Disjoint(bs, lo, hi);
    forall j: nat | IsIndexOf(bs, p, j) ensures i == j {
      assert !(i < j) && !(j < i);
    }
  }

  ghost function Step(bs: seq<Block>, c: Call): seq<Block> {
    match c
    case Alloc(size) => Malloc(bs, size).0
    case Free(p) => FreeSpec(bs, p)
  }

  /** The pointers a client holds after the call: returned ones that were not freed. */
  function Held(bs: seq<Block>, held: set<nat>, c: Call): set<nat> {
    match c
    case Alloc(size) => held + (if Malloc(bs, size).1 == 0 then {} else {Malloc(bs, size).1})
    case Free(p) => held - {p}
  }

  ghost function Run(bs: seq<Block>, calls: seq<Call>): seq<Block>
    decreases |calls|
  {
    if calls == [] then bs else Run(Step(bs, calls[0]), calls[1..])
  }

  ghost function HeldAfter(bs: seq<Block>, held: set<nat>, calls: seq<Call>): set<nat>
    decreases |calls|
  {
    if calls == [] then held else HeldAfter(Step(bs, calls[0]), Held(bs, held, calls[0]), calls[1..])
  }

  /** Clients free only 0 and pointers they hold. */
  ghost predicate Legal(bs: seq<Block>, held: set<nat>, calls: seq<Call>)
    decreases |calls|
  {
    calls != [] ==>
      && (calls[0].Free? ==> calls[0].p == 0 || calls[0].p in held)
      && Legal(Step(bs, calls[0]), Held(bs, held, calls[0]), calls[1..])
  }

  lemma AllocKeeps(bs: seq<Block>, lo: nat, hi: nat, size: u32)
    requires WellFormed(bs, lo, hi)
    ensures WellFormed(Malloc(bs, size).0, lo, hi)
    ensures LivePointers(Malloc(bs, size).0) == Held(bs, LivePointers(bs), Alloc(size))
  {
    var n := RoundUp(size);
    var i := FirstFit(bs, n);
    if i < |bs| {
      PlaceWellFormed(bs, lo, hi, i, n);
      PlaceUsed(bs, i, n);
      LiveFromUsed(bs);
      LiveFromUsed(Place(bs, i, n));
    }
  }

  lemma LiveWithout(bs: seq<Block>, lo: nat, hi: nat, r: seq<Block>, b: Block)
    requires Tiles(bs, lo, hi) && b in Used(bs) && Used(r) == Used(bs) - {b}
    ensures LivePointers(r) == LivePointers(bs) - {b.Payload()}
  {
    LiveFromUsed(bs);
    LiveFromUsed(r);
    forall c | c in Used(bs) && c.Payload() == b.Payload() ensures c == b {
      SameAddress(bs, lo, hi, b, c);
    }
  }

  lemma FreeKeeps(bs: seq<Block>, lo: nat, hi: nat, p: nat)
    requires WellFormed(bs, lo, hi) && (p == 0 || p in LivePointers(bs))
    ensures WellFormed(FreeSpec(bs, p), lo, hi)
    ensures LivePointers(FreeSpec(bs, p)) == LivePointers(bs) - {p}
  {
    if p in LivePointers(bs) {
      var b :| b in bs && !b.free && b.Payload() == p;
      var i: nat :| i < |bs| && bs[i] == b;
      FreeSpecIs(bs, lo, hi, p, i);
      ReleaseWellFormed(bs, lo, hi, i);
      ReleaseUsed(bs, lo, hi, i);
      LiveWithout(bs, lo, hi, Release(bs, i), b);
    }
  }

  lemma LiveFromUsed(bs: seq<Block>)
    ensures LivePointers(bs) == set b | b in Used(bs) :: b.Payload()
  {
  }

  /** Every run keeps the list well formed, and the live blocks are the pointers held. */
  lemma {:induction false} RunKeeps(bs: seq<Block>, lo: nat, hi: nat, calls: seq<Call>)
    requires WellFormed(bs, lo, hi) && Legal(bs, LivePointers(bs), calls)
    ensures WellFormed(Run(bs, calls), lo, hi)
    ensures LivePointers(Run(bs, calls)) == HeldAfter(bs, LivePointers(bs), calls)
    ensures UsedBytes(Run(bs, calls)) + FreeBytes(Run(bs, calls)) + HEADER * |Run(bs, calls)| == hi - lo
    decreases |calls|
  {
    if calls == [] {
      Conservation(bs, lo, hi);
    } else {
      match calls[0] {
        case Alloc(size) => AllocKeeps(bs, lo, hi, size);
        case Free(p) => FreeKeeps(bs, lo, hi, p);
      }
      RunKeeps(Step(bs, calls[0]), lo, hi, calls[1..]);
    }
  }

  lemma NoLiveBlockIsFresh(bs: seq<Block>, lo: nat, hi: nat)
    requires WellFormed(bs, lo, hi) && LivePointers(bs) == {}
    ensures lo + HEADER <= hi && bs == Fresh(lo, hi)
  {
    forall i | 0 <= i < |bs| ensures bs[i].free {
      var b := bs[i];
      assert b in bs && (!b.free ==> b.Payload() in LivePointers(bs));
    }
    var second := bs[if |bs| > 1 then 1 else 0];
  }

  /**
   However allocations and frees were ordered, once every pointer has been given back the heap
   is the single free block mm_init built, and no byte counts as allocated.
   */
  lemma AllFreedIsFresh(lo: nat, hi: nat, calls: seq<Call>)
    requires lo + HEADER <= hi && lo % 8 == 0 && hi % 8 == 0
    requires Legal(Fresh(lo, hi), {}, calls) && HeldAfter(Fresh(lo, hi), {}, calls) == {}
    ensures Run(Fresh(lo, hi), calls) == Fresh(lo, hi)
    ensures UsedBytes(Run(Fresh(lo, hi), calls)) == 0
  {
    var bs := Fresh(lo, hi);
    assert LivePointers(bs) == {};
    assert WellFormed(bs, lo, hi);
    RunKeeps(bs, lo, hi, calls);
    NoLiveBlockIsFresh(Run(bs, calls), lo, hi);
  }

  // ---------------------------------------------------------------- the message pool of a fresh heap

  // sizeof(struct message): three ints, 256 bytes, padding, and a pointer.
  const MESSAGE_BYTES: nat := 280
  const STRIDE: nat := HEADER + MESSAGE_BYTES

  /** k messages side by side, then one free block up to hi. */
  function Packed(lo: nat, hi: nat, k: nat): seq<Block>
    requires lo + k * STRIDE + HEADER <= hi
  {
    seq(k, (i: nat) => Block(lo + i * STRIDE, MESSAGE_BYTES, false))
    + [Block(lo + k * STRIDE, hi - (lo + k * STRIDE) - HEADER, true)]
  }

  lemma PackedNone(lo: nat, hi: nat)
    requires lo + HEADER <= hi
    ensures Packed(lo, hi, 0) == Fresh(lo, hi)
  {
  }

  /** The next message is allocated right behind the k that are there. */
  lemma PackedGrows(lo: nat, hi: nat, k: nat)
    requires lo + (k + 1) * STRIDE + HEADER + SPLIT_SLACK < hi
    ensures Malloc(Packed(lo, hi, k), MESSAGE_BYTES) == (Packed(lo, hi, k + 1), lo + k * STRIDE + HEADER)
  {
    hide FirstFit;
    var p, q := Packed(lo, hi, k), Packed(lo, hi, k + 1);
    FirstFitIs(p, MESSAGE_BYTES, k);
    PlacePacked(lo, hi, k);
  }

  lemma PlacePacked(lo: nat, hi: nat, k: nat)
    requires lo + (k + 1) * STRIDE + HEADER + SPLIT_SLACK < hi
    ensures Place(Packed(lo, hi, k), k, MESSAGE_BYTES) == Packed(lo, hi, k + 1)
  {
  }

  /** How many messages a fresh heap can hold. */
  function Capacity(lo: nat, hi: nat): nat { if lo <= hi then (hi - lo) / STRIDE else 0 }

  /** After k message allocations on a fresh heap: a free block is left behind them, or the heap is full. */
  ghost predicate Filled(bs: seq<Block>, lo: nat, hi: nat, k: nat) {
    || (lo + k * STRIDE + HEADER <= hi && bs == Packed(lo, hi, k))
    || (k == Capacity(lo, hi) && FirstFit(bs, MESSAGE_BYTES) == |bs|)
  }

  /** The next message can be allocated exactly when the heap was not yet at its capacity. */
  lemma FillStep(bs: seq<Block>, lo: nat, hi: nat, k: nat)
    requires lo + HEADER <= hi && Filled(bs, lo, hi, k)
    ensures var (r, p) := Malloc(bs, MESSAGE_BYTES);
      if k < Capacity(lo, hi) then p != 0 && Filled(r, lo, hi, k + 1) else k == Capacity(lo, hi) && p == 0 && r == bs
  {
    hide FirstFit, Place, Capacity, Malloc;
    CapacityIs(lo, hi, k);
    CapacityIs(lo, hi, k + 1);
    if k > 0 { CapacityIs(lo, hi, k - 1); }
    NoFit(bs, MESSAGE_BYTES);
    if lo + k * STRIDE + HEADER <= hi && bs == Packed(lo, hi, k) {
      if lo + (k + 1) * STRIDE + HEADER + SPLIT_SLACK < hi {
        PackedGrows(lo, hi, k);
      } else if k < Capacity(lo, hi) {
        LastFits(lo, hi, k);
      } else {
        FirstFitIs(bs, MESSAGE_BYTES, |bs|);
      }
    }
  }

  lemma NoFit(bs: seq<Block>, size: u32)
    ensures FirstFit(bs, RoundUp(size)) == |bs| ==> Malloc(bs, size) == (bs, 0)
  {
  }

  lemma CapacityIs(lo: nat, hi: nat, k: nat)
    requires lo <= hi
    ensures k < Capacity(lo, hi) <==> lo + (k + 1) * 296 <= hi
  {
  }

  /** The last message takes the rest of the heap as it is. */
  lemma LastFits(lo: nat, hi: nat, k: nat)
    requires lo + HEADER <= hi && k < Capacity(lo, hi) && hi <= lo + (k + 1) * STRIDE + HEADER + SPLIT_SLACK
    ensures lo + k * STRIDE + HEADER <= hi && k + 1 == Capacity(lo, hi)
    ensures var (r, p) := Malloc(Packed(lo, hi, k), MESSAGE_BYTES);
      p != 0 && FirstFit(r, MESSAGE_BYTES) == |r|
  {
    hide FirstFit;
    var bs := Packed(lo, hi, k);
    FirstFitIs(bs, MESSAGE_BYTES, k);
    var r := bs[k := bs[k].(free := false)];
    assert Place(bs, k, MESSAGE_BYTES) == r;
    FirstFitIs(r, MESSAGE_BYTES, |r|);
  }
}
