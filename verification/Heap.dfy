/**
 The heap of kernal/mm.c: block headers (size, free flag, next pointer) live in the same byte
 memory as the payloads, and every operation rewrites them in place.
 */
module Heap {
  import opened Memory
  import opened HeapSpec
  import opened HeapTheorems

  // Offsets in struct mem_block.
  const FREE_AT: nat := 4
  const NEXT_AT: nat := 8

  /** (a + 7) & ~7 */
  function AlignUp(a: nat): (r: nat)
    ensures a <= r < a + 8 && r % 8 == 0
  {
    (a + 7) / 8 * 8
  }

  function NextOf(bs: seq<Block>, i: nat): nat {
    if i + 1 < |bs| then bs[i + 1].addr else 0
  }

  predicate HeaderIs(m: seq<byte>, b: Block, next: nat) {
    && b.addr + HEADER <= |m|
    && Load32(m, b.addr) == b.size
    && Load32(m, b.addr + FREE_AT) == (if b.free then 1 else 0)
    && Load64(m, b.addr + NEXT_AT) == next
  }

  /** The list threaded through memory m is exactly bs. */
  ghost predicate Represents(m: seq<byte>, bs: seq<Block>) {
    forall i {:trigger NextOf(bs, i)} :: 0 <= i < |bs| ==> HeaderIs(m, bs[i], NextOf(bs, i))
  }

  ghost predicate IsHeaderByte(bs: seq<Block>, a: nat) {
    exists i :: 0 <= i < |bs| && bs[i].addr <= a < bs[i].Payload()
  }

  ghost predicate IsLiveByte(bs: seq<Block>, a: nat) {
    exists i :: 0 <= i < |bs| && !bs[i].free && bs[i].Payload() <= a < bs[i].End()
  }

  lemma LiveBytesAreNotHeaders(bs: seq<Block>, lo: nat, hi: nat, a: nat)
    requires Tiles(bs, lo, hi) && IsLiveByte(bs, a)
    ensures !IsHeaderByte(bs, a) && lo <= a < hi
  {
    Disjoint(bs, lo, hi);
    var i :| 0 <= i < |bs| && !bs[i].free && bs[i].Payload() <= a < bs[i].End();
    forall j | 0 <= j < |bs| ensures !(bs[j].addr <= a < bs[j].Payload()) {
      assert j < i || j == i || i < j;
    }
  }

  lemma LiveBytesAreApart(bs: seq<Block>, lo: nat, hi: nat, i: nat, a: nat)
    requires Tiles(bs, lo, hi) && IsLiveByte(bs, a) && i < |bs| && bs[i].free
    ensures !(bs[i].addr <= a < bs[i].End())
  {
    var k :| 0 <= k < |bs| && !bs[k].free && bs[k].Payload() <= a < bs[k].End();
    if k < i { InOrder(bs, lo, hi, k, i); } else { InOrder(bs, lo, hi, i, k); }
  }

  lemma HeaderKept(m: seq<byte>, m': seq<byte>, b: Block, next: nat)
    requires HeaderIs(m, b, next) && Agree(m, m', b.addr, b.Payload())
    ensures HeaderIs(m', b, next)
  {
  }

  lemma FreshRepresents(m: seq<byte>, lo: nat, hi: nat)
    requires lo + HEADER <= hi <= |m| && lo % 8 == 0 && hi % 8 == 0
    requires HeaderIs(m, Block(lo, hi - lo - HEADER, true), 0)
    ensures WellFormed(Fresh(lo, hi), lo, hi) && Represents(m, Fresh(lo, hi)) && UsedBytes(Fresh(lo, hi)) == 0
  {
  }

  /** The header of another block survives any change inside block i. */
  lemma HeaderElsewhere(m: seq<byte>, m': seq<byte>, bs: seq<Block>, lo: nat, hi: nat, i: nat, k: nat)
    requires Tiles(bs, lo, hi) && i < |bs| && k < |bs| && k != i && |m| == |m'|
    requires HeaderIs(m, bs[k], NextOf(bs, k))
    requires forall a :: 0 <= a < |m| && !(bs[i].addr <= a < bs[i].End()) ==> m'[a] == m[a]
    ensures HeaderIs(m', bs[k], NextOf(bs, k))
  {
    if k < i { InOrder(bs, lo, hi, k, i); } else { InOrder(bs, lo, hi, i, k); }
    HeaderKept(m, m', bs[k], NextOf(bs, k));
  }

  /** Handing out block i: only bytes of that block change. */
  lemma PlaceRepresents(m: seq<byte>, m': seq<byte>, bs: seq<Block>, lo: nat, hi: nat, i: nat, n: nat)
    requires WellFormed(bs, lo, hi) && Represents(m, bs) && hi <= |m| == |m'|
    requires i < |bs| && bs[i].free && bs[i].size >= n
    requires forall a :: 0 <= a < |m| && !(bs[i].addr <= a < bs[i].End()) ==> m'[a] == m[a]
    requires HeaderIs(m', Handed(bs[i], n), if Splits(bs[i], n) then bs[i].addr + HEADER + n else NextOf(bs, i))
    requires Splits(bs[i], n) ==>
      HeaderIs(m', Block(bs[i].addr + HEADER + n, bs[i].size - n - HEADER, true), NextOf(bs, i))
    ensures Represents(m', Place(bs, i, n))
  {
    hide Load32, Load64;
    var r := Place(bs, i, n);
    if Splits(bs[i], n) { PlaceElements(bs, i, n); }
    forall k {:trigger NextOf(r, k)} | 0 <= k < |r| ensures HeaderIs(m', r[k], NextOf(r, k)) {
      if k < i {
        assert NextOf(r, k) == NextOf(bs, k);
        HeaderElsewhere(m, m', bs, lo, hi, i, k);
      } else if k > i && !(Splits(bs[i], n) && k == i + 1) {
        var l := if Splits(bs[i], n) then k - 1 else k;
        assert NextOf(r, k) == NextOf(bs, l);
        HeaderElsewhere(m, m', bs, lo, hi, i, l);
      }
    }
  }

  /** Setting the free flag of block i. */
  lemma MarkRepresents(m: seq<byte>, m': seq<byte>, bs: seq<Block>, lo: nat, hi: nat, i: nat)
    requires Tiles(bs, lo, hi) && Represents(m, bs) && i < |bs| && |m| == |m'|
    requires bs[i].Payload() <= |m|
    requires forall a :: 0 <= a < |m| && !(bs[i].addr + FREE_AT <= a < bs[i].addr + NEXT_AT) ==> m'[a] == m[a]
    requires Load32(m', bs[i].addr + FREE_AT) == 1
    ensures Represents(m', bs[i := bs[i].(free := true)])
  {
    hide Load32, Load64;
    var r := bs[i := bs[i].(free := true)];
    forall k {:trigger NextOf(r, k)} | 0 <= k < |r| ensures HeaderIs(m', r[k], NextOf(r, k)) {
      assert NextOf(r, k) == NextOf(bs, k);
      if k != i {
        HeaderElsewhere(m, m', bs, lo, hi, i, k);
      } else {
        LoadsAgree(m, m', bs[i].addr, bs[i].addr + FREE_AT);
        LoadsAgree(m, m', bs[i].addr + NEXT_AT, bs[i].Payload());
      }
    }
  }

  /** Block i swallowing its neighbour: only the header of block i changes. */
  lemma AbsorbRepresents(m: seq<byte>, m': seq<byte>, bs: seq<Block>, lo: nat, hi: nat, i: nat)
    requires Tiles(bs, lo, hi) && Represents(m, bs) && i + 1 < |bs| && |m| == |m'|
    requires forall a :: 0 <= a < |m| && !(bs[i].addr <= a < bs[i].Payload()) ==> m'[a] == m[a]
    requires HeaderIs(m', bs[i].(size := bs[i].size + HEADER + bs[i + 1].size), NextOf(bs, i + 1))
    ensures Represents(m', Absorb(bs, i))
  {
    hide Load32, Load64;
    var r := Absorb(bs, i);
    AbsorbElements(bs, i);
    forall k {:trigger NextOf(r, k)} | 0 <= k < |r| ensures HeaderIs(m', r[k], NextOf(r, k)) {
      if k < i {
        assert NextOf(r, k) == NextOf(bs, k);
        HeaderElsewhere(m, m', bs, lo, hi, i, k);
      } else if k > i {
        assert NextOf(r, k) == NextOf(bs, k + 1);
        HeaderElsewhere(m, m', bs, lo, hi, i, k + 1);
      } else {
        assert NextOf(r, k) == NextOf(bs, k + 1);
      }
    }
  }

  /** block->free = flag, leaving size and next. */
  method SetFlag(mem: array<byte>, a: nat, flag: bool)
    requires a + HEADER <= mem.Length
    modifies mem
    ensures forall i :: 0 <= i < mem.Length && !(a + FREE_AT <= i < a + NEXT_AT) ==> mem[i] == old(mem[i])
    ensures Load32(mem[..], a) == old(Load32(mem[..], a))
    ensures Load32(mem[..], a + FREE_AT) == if flag then 1 else 0
    ensures Load64(mem[..], a + NEXT_AT) == old(Load64(mem[..], a + NEXT_AT))
  {
    Store32(mem, a + FREE_AT, if flag then 1 else 0);
    LoadsAgree(old(mem[..]), mem[..], a, a + FREE_AT);
    LoadsAgree(old(mem[..]), mem[..], a + NEXT_AT, a + HEADER);
  }

  /** block->size = size; block->next = next, leaving the flag. */
  method Relink(mem: array<byte>, a: nat, size: u32, next: u64)
    requires a + HEADER <= mem.Length
    modifies mem
    ensures forall i :: 0 <= i < mem.Length && !(a <= i < a + HEADER) ==> mem[i] == old(mem[i])
    ensures Load32(mem[..], a) == size
    ensures Load32(mem[..], a + FREE_AT) == old(Load32(mem[..], a + FREE_AT))
    ensures Load64(mem[..], a + NEXT_AT) == next
  {
    Store32(mem, a, size);
    ghost var m := mem[..];
    LoadsAgree(old(mem[..]), m, a + FREE_AT, a + NEXT_AT);
    Store64(mem, a + NEXT_AT, next);
    LoadsAgree(m, mem[..], a, a + NEXT_AT);
  }

  /** Everything but the header of b and, on a split, the new header behind n bytes is as before. */
  ghost predicate CarveKeeps(m: seq<byte>, m': seq<byte>, b: Block, n: nat) {
    && |m| == |m'|
    && (forall a :: 0 <= a < |m| && (a < b.addr || b.Payload() + n + HEADER <= a) ==> m'[a] == m[a])
    && (forall a :: 0 <= a < |m| && b.Payload() <= a < b.Payload() + n ==> m'[a] == m[a])
    && (!Splits(b, n) ==> forall a :: 0 <= a < |m| && b.Payload() <= a ==> m'[a] == m[a])
  }

  /** Bytes that may differ: only list headers of bs. */
  ghost predicate OnlyHeadersDiffer(m: seq<byte>, m': seq<byte>, bs: seq<Block>) {
    |m| == |m'| && forall a :: 0 <= a < |m| && !IsHeaderByte(bs, a) ==> m'[a] == m[a]
  }

  /** Payload bytes of every block of bs in use are the same. */
  ghost predicate PayloadsKept(m: seq<byte>, m': seq<byte>, bs: seq<Block>) {
    |m| == |m'| && forall a :: 0 <= a < |m| && IsLiveByte(bs, a) ==> m'[a] == m[a]
  }

  lemma CarveTouches(m: seq<byte>, m': seq<byte>, bs: seq<Block>, lo: nat, hi: nat, i: nat, n: nat)
    requires Tiles(bs, lo, hi) && i < |bs| && bs[i].free && bs[i].size >= n && hi <= |m|
    requires CarveKeeps(m, m', bs[i], n)
    ensures OnlyHeadersDiffer(m, m', Place(bs, i, n))
    ensures PayloadsKept(m, m', bs)
  {
    var b, r := bs[i], Place(bs, i, n);
    assert r[i].addr == b.addr && (Splits(b, n) ==> r[i + 1].addr == b.Payload() + n);
    InBounds(bs, lo, hi, i);
    forall a | 0 <= a < |m| && IsLiveByte(bs, a) ensures m'[a] == m[a] {
      LiveBytesAreApart(bs, lo, hi, i, a);
    }
  }

  /** The writes of kmalloc: split block b if worthwhile and clear its free flag. */
  method Carve(mem: array<byte>, bestFit: nat, n: u32, ghost b: Block, ghost next: nat)
    requires b.addr == bestFit && b.free && b.size >= n && b.End() <= mem.Length
    requires mem.Length < 0x1_0000_0000_0000_0000
    requires HeaderIs(mem[..], b, next)
    modifies mem
    ensures HeaderIs(mem[..], Handed(b, n), if Splits(b, n) then b.addr + HEADER + n else next)
    ensures Splits(b, n) ==> HeaderIs(mem[..], Block(b.addr + HEADER + n, b.size - n - HEADER, true), next)
    ensures CarveKeeps(old(mem[..]), mem[..], b, n)
  {
    hide Load32, Load64;
    if Load32(mem[..], bestFit) as int > n as int + HEADER + SPLIT_SLACK {
      var newBlock := bestFit + HEADER + n;
      Relink(mem, newBlock, Load32(mem[..], bestFit) - n - HEADER, Load64(mem[..], bestFit + NEXT_AT));
      SetFlag(mem, newBlock, true);
      ghost var m1 := mem[..];
      Relink(mem, bestFit, n, newBlock);
      SetFlag(mem, bestFit, false);
      HeaderKept(m1, mem[..], Block(newBlock, b.size - n - HEADER, true), next);
    } else {
      SetFlag(mem, bestFit, false);
    }
  }

  lemma HeadersOnlyKeepsPayloads(m: seq<byte>, m': seq<byte>, bs: seq<Block>, lo: nat, hi: nat)
    requires Tiles(bs, lo, hi) && OnlyHeadersDiffer(m, m', bs)
    ensures PayloadsKept(m, m', bs)
  {
    forall a | 0 <= a < |m| && IsLiveByte(bs, a) ensures m'[a] == m[a] {
      LiveBytesAreNotHeaders(bs, lo, hi, a);
    }
  }

  lemma HeadersUntouched(m: seq<byte>, m': seq<byte>, bs: seq<Block>, lo: nat, hi: nat)
    requires Tiles(bs, lo, hi) && Represents(m, bs) && |m| == |m'|
    requires forall a :: 0 <= a < |m| && IsHeaderByte(bs, a) ==> m'[a] == m[a]
    ensures Represents(m', bs)
  {
  }

  /** The list bs tiles the heap and is threaded through memory m. */
  ghost predicate Threaded(m: seq<byte>, bs: seq<Block>, lo: nat, hi: nat) {
    0 < lo && hi <= |m| < 0x1_0000_0000_0000_0000 && hi - lo < 0x1_0000_0000
    && Tiles(bs, lo, hi) && Represents(m, bs)
  }

  lemma HeaderFacts(m: seq<byte>, bs: seq<Block>, lo: nat, hi: nat, i: nat)
    requires Threaded(m, bs, lo, hi) && i < |bs|
    ensures HeaderIs(m, bs[i], NextOf(bs, i))
    ensures lo <= bs[i].addr && bs[i].End() <= hi
    ensures NextOf(bs, i) == 0 <==> i + 1 == |bs|
  {
    InBounds(bs, lo, hi, i);
    if i + 1 < |bs| { InBounds(bs, lo, hi, i + 1); }
    assert HeaderIs(m, bs[i], NextOf(bs, i));
  }

  /** a->size += b->size + 16; a->next = b->next, for list neighbours a and b. */
  method Merge(mem: array<byte>, a: nat, b: nat, ghost bs: seq<Block>, ghost lo: nat, ghost hi: nat, ghost i: nat)
    requires Threaded(mem[..], bs, lo, hi) && i + 1 < |bs| && bs[i].addr == a && bs[i + 1].addr == b
    modifies mem
    ensures Threaded(mem[..], Absorb(bs, i), lo, hi)
    ensures forall k :: 0 <= k < mem.Length && !(a <= k < a + HEADER) ==> mem[k] == old(mem[k])
    ensures a + HEADER <= mem.Length && Load32(mem[..], a + FREE_AT) == old(Load32(mem[..], a + FREE_AT))
  {
    hide Load32, Load64, Tiles, Represents, Absorb;
    HeaderFacts(mem[..], bs, lo, hi, i);
    HeaderFacts(mem[..], bs, lo, hi, i + 1);
    ghost var m0, next, merged := mem[..], NextOf(bs, i + 1), bs[i].(size := bs[i].size + HEADER + bs[i + 1].size);
    MergedFits(bs, lo, hi, i);
    var size := Load32(mem[..], a) + Load32(mem[..], b) + HEADER;
    var after := Load64(mem[..], b + NEXT_AT);
    Relink(mem, a, size, after);
    assert HeaderIs(mem[..], merged, next);
    AbsorbRepresents(m0, mem[..], bs, lo, hi, i);
  }

  lemma MergedFits(bs: seq<Block>, lo: nat, hi: nat, i: nat)
    requires Tiles(bs, lo, hi) && i + 1 < |bs|
    ensures Tiles(Absorb(bs, i), lo, hi)
    ensures bs[i].size + HEADER + bs[i + 1].size <= hi - lo - HEADER
  {
    AbsorbTiles(bs, lo, hi, i);
    AbsorbElements(bs, i);
    InBounds(Absorb(bs, i), lo, hi, i);
  }

  /** Merge the block at address a with its right neighbour if that one is free. */
  method MergeRight(mem: array<byte>, a: nat, ghost bs: seq<Block>, ghost lo: nat, ghost hi: nat, ghost i: nat)
    returns (ghost r: seq<Block>)
    requires Threaded(mem[..], bs, lo, hi) && i < |bs| && bs[i].addr == a
    modifies mem
    ensures r == if i + 1 < |bs| && bs[i + 1].free then Absorb(bs, i) else bs
    ensures Threaded(mem[..], r, lo, hi)
    ensures forall k :: 0 <= k < mem.Length && !(a <= k < a + HEADER) ==> mem[k] == old(mem[k])
    ensures a + HEADER <= mem.Length && Load32(mem[..], a + FREE_AT) == old(Load32(mem[..], a + FREE_AT))
  {
    hide Load32, Load64;
    r := bs;
    HeaderFacts(mem[..], bs, lo, hi, i);
    var next := Load64(mem[..], a + NEXT_AT);
    if next == 0 {
      return;
    }
    HeaderFacts(mem[..], bs, lo, hi, i + 1);
    if Load32(mem[..], next + FREE_AT) != 0 {
      Merge(mem, a, next, bs, lo, hi, i);
      r := Absorb(bs, i);
    }
  }

  /** Walk the list from its head to the block whose next pointer is block; 0 if there is none. */
  method FindPrevious(mem: array<byte>, head: nat, block: nat,
                      ghost bs: seq<Block>, ghost lo: nat, ghost hi: nat, ghost i: nat)
    returns (current: nat)
    requires Threaded(mem[..], bs, lo, hi) && head == lo && i < |bs| && bs[i].addr == block
    ensures current == if i > 0 then bs[i - 1].addr else 0
  {
    hide Load32, Load64;
    current := head;
    ghost var k := 0;
    HeaderFacts(mem[..], bs, lo, hi, 0);
    while current != 0 && Load64(mem[..], current + NEXT_AT) != block
      invariant k <= |bs|
      invariant if k < |bs| then current == bs[k].addr != 0 && current + HEADER <= mem.Length else current == 0
      invariant 0 < i ==> k < i
      decreases |bs| - k
    {
      HeaderFacts(mem[..], bs, lo, hi, k);
      if k + 1 < |bs| { HeaderFacts(mem[..], bs, lo, hi, k + 1); }
      current := Load64(mem[..], current + NEXT_AT);
      k := k + 1;
    }
    if current != 0 {
      HeaderFacts(mem[..], bs, lo, hi, k);
      HeaderFacts(mem[..], bs, lo, hi, i);
      SameIndex(bs, lo, hi, k + 1, i);
    }
  }

  /** The writes of kfree: mark the block free, then merge it to the right and to the left. */
  method MarkAndMerge(mem: array<byte>, head: nat, block: nat,
                      ghost bs: seq<Block>, ghost lo: nat, ghost hi: nat, ghost i: nat)
    requires Threaded(mem[..], bs, lo, hi) && head == lo && i < |bs| && bs[i].addr == block
    modifies mem
    ensures Threaded(mem[..], Release(bs, i), lo, hi)
    ensures OnlyHeadersDiffer(old(mem[..]), mem[..], bs)
    ensures block + HEADER <= mem.Length && Load32(mem[..], block + FREE_AT) != 0
  {
    hide Load32, Load64;
    MarkAndMergeRight(mem, block, bs, lo, hi, i);
    ghost var m, merged := mem[..], ReleaseRight(bs, i);
    ghost var released := MergeLeft(mem, head, block, merged, lo, hi, i);
    if i > 0 {
      assert merged[i - 1] == bs[i - 1];
      InOneHeader(m, mem[..], bs, i - 1);
    }
  }

  method MarkAndMergeRight(mem: array<byte>, block: nat,
                           ghost bs: seq<Block>, ghost lo: nat, ghost hi: nat, ghost i: nat)
    requires Threaded(mem[..], bs, lo, hi) && i < |bs| && bs[i].addr == block
    modifies mem
    ensures Threaded(mem[..], ReleaseRight(bs, i), lo, hi)
    ensures OnlyHeadersDiffer(old(mem[..]), mem[..], bs)
    ensures block + HEADER <= mem.Length && Load32(mem[..], block + FREE_AT) != 0
  {
    hide Load32, Load64;
    ghost var m := mem[..];
    HeaderFacts(m, bs, lo, hi, i);
    SetFlag(mem, block, true);
    ghost var marked := bs[i := bs[i].(free := true)];
    MarkRepresents(m, mem[..], bs, lo, hi, i);
    ghost var merged := MergeRight(mem, block, marked, lo, hi, i);
    InOneHeader(m, mem[..], bs, i);
  }

  lemma InOneHeader(m: seq<byte>, m': seq<byte>, bs: seq<Block>, i: nat)
    requires i < |bs| && |m| == |m'|
    requires forall k :: 0 <= k < |m| && !(bs[i].addr <= k < bs[i].Payload()) ==> m'[k] == m[k]
    ensures OnlyHeadersDiffer(m, m', bs)
  {
  }

  /** Merge the block at address block into its left neighbour if that one is free. */
  method MergeLeft(mem: array<byte>, head: nat, block: nat,
                   ghost bs: seq<Block>, ghost lo: nat, ghost hi: nat, ghost i: nat)
    returns (ghost r: seq<Block>)
    requires Threaded(mem[..], bs, lo, hi) && head == lo && i < |bs| && bs[i].addr == block
    modifies mem
    ensures r == if i > 0 && bs[i - 1].free then Absorb(bs, i - 1) else bs
    ensures Threaded(mem[..], r, lo, hi)
    ensures i == 0 ==> mem[..] == old(mem[..])
    ensures i > 0 ==> forall k ::
      0 <= k < mem.Length && !(bs[i - 1].addr <= k < bs[i - 1].Payload()) ==> mem[k] == old(mem[k])
    ensures block + HEADER <= mem.Length && Load32(mem[..], block + FREE_AT) == old(Load32(mem[..], block + FREE_AT))
  {
    hide Load32, Load64;
    r := bs;
    ghost var m0 := mem[..];
    HeaderFacts(m0, bs, lo, hi, i);
    var current := FindPrevious(mem, head, block, bs, lo, hi, i);
    FirstIffNoPrevious(m0, bs, lo, hi, i);
    if current == 0 {
      return;
    }
    HeaderFacts(m0, bs, lo, hi, i - 1);
    if Load32(mem[..], current + FREE_AT) == 0 {
      return;
    }
    InOrder(bs, lo, hi, i - 1, i);
    Merge(mem, current, block, bs, lo, hi, i - 1);
    r := Absorb(bs, i - 1);
    assert Agree(m0, mem[..], block, block + HEADER);
    LoadsAgree(m0, mem[..], block, block + HEADER);
  }

  lemma FirstIffNoPrevious(m: seq<byte>, bs: seq<Block>, lo: nat, hi: nat, i: nat)
    requires Threaded(m, bs, lo, hi) && i < |bs|
    ensures i > 0 ==> bs[i - 1].addr != 0
  {
    if i > 0 { InBounds(bs, lo, hi, i - 1); }
  }

  class Mm {
    const mem: array<byte>
    const linkerStart: nat   // __heap_start
    const linkerEnd: nat     // __heap_end
    var heapHead: nat
    var heapStart: nat
    var heapEnd: nat
    var totalAllocated: u32
    ghost var blocks: seq<Block>

    ghost predicate Valid()
      reads this, mem
    {
      && 0 < linkerStart && linkerEnd % 8 == 0 && linkerEnd <= mem.Length < 0x1_0000_0000_0000_0000
      && 0 <= linkerEnd - AlignUp(linkerStart) - HEADER < 0x1_0000_0000 - HEADER
      && if heapHead == 0 then blocks == [] && totalAllocated == 0 else
           && heapHead == heapStart == AlignUp(linkerStart) && heapEnd == linkerEnd
           && WellFormed(blocks, heapStart, heapEnd)
           && Represents(mem[..], blocks)
           && totalAllocated == UsedBytes(blocks)
    }

    constructor (memory: array<byte>, start: nat, end: nat)
      requires 0 < start && end % 8 == 0 && end <= memory.Length < 0x1_0000_0000_0000_0000
      requires 0 <= end - AlignUp(start) - HEADER < 0x1_0000_0000 - HEADER
      ensures Valid() && heapHead == 0
      ensures mem == memory && linkerStart == start && linkerEnd == end
    {
      mem, linkerStart, linkerEnd := memory, start, end;
      heapHead, heapStart, heapEnd, totalAllocated := 0, 0, 0, 0;
      blocks := [];
    }

    method MmInit()
      requires Valid() && heapHead == 0
      modifies this, mem
      ensures Valid() && heapHead != 0
      ensures blocks == Fresh(heapStart, heapEnd)
    {
      heapStart := linkerStart;
      heapEnd := linkerEnd;
      heapStart := AlignUp(heapStart);
      heapHead := heapStart;
      var size := heapEnd - heapStart - HEADER;
      Relink(mem, heapHead, size, 0);
      SetFlag(mem, heapHead, true);
      blocks := Fresh(heapStart, heapEnd);
      FreshRepresents(mem[..], heapStart, heapEnd);
    }

    /** First fit: the address of the first free block holding n bytes, 0 if there is none. */
    method FindFit(n: u32) returns (bestFit: nat, ghost i: nat)
      requires Valid() && heapHead != 0
      ensures i == FirstFit(blocks, n)
      ensures bestFit == var k := FirstFit(blocks, n); if k < |blocks| then blocks[k].addr else 0
    {
      hide Load32, Load64;
      var current := heapHead;
      bestFit, i := 0, 0;
      while current != 0
        invariant i <= |blocks| && bestFit == 0
        invariant if i < |blocks| then current == blocks[i].addr != 0 else current == 0
        invariant forall j :: 0 <= j < i ==> !(blocks[j].free && blocks[j].size >= n)
        decreases |blocks| - i
      {
        InBounds(blocks, heapStart, heapEnd, i);
        assert HeaderIs(mem[..], blocks[i], NextOf(blocks, i));
        if Load32(mem[..], current + FREE_AT) != 0 && Load32(mem[..], current) >= n {
          bestFit := current;
          break;
        }
        current := Load64(mem[..], current + NEXT_AT);
        i := i + 1;
        if i < |blocks| { InBounds(blocks, heapStart, heapEnd, i); }
      }
      FirstFitIs(blocks, n, i);
    }

    method Kmalloc(size: u32) returns (p: nat)
      requires Valid()
      modifies this`totalAllocated, this`blocks, mem
      ensures Valid()
      ensures heapHead == 0 ==> p == 0
      ensures heapHead != 0 ==> (blocks, p) == Malloc(old(blocks), size)
      ensures p == 0 ==> blocks == old(blocks) && mem[..] == old(mem[..]) && totalAllocated == old(totalAllocated)
      ensures OnlyHeadersDiffer(old(mem[..]), mem[..], blocks)
      ensures PayloadsKept(old(mem[..]), mem[..], old(blocks))
    {
      if heapHead == 0 {
        return 0;
      }
      var n := RoundUp(size);
      ghost var i;
      var bestFit;
      bestFit, i := FindFit(n);
      if i < |blocks| { InBounds(blocks, heapStart, heapEnd, i); }
      if bestFit == 0 {
        return 0;
      }
      p := TakeBlock(bestFit, n, i);
    }

    /** The second half of kmalloc: split the chosen block if worthwhile and hand it out. */
    method TakeBlock(bestFit: nat, n: u32, ghost i: nat) returns (p: nat)
      requires Valid() && heapHead != 0
      requires i < |blocks| && blocks[i].addr == bestFit && blocks[i].free && blocks[i].size >= n && n % 8 == 0
      modifies this`totalAllocated, this`blocks, mem
      ensures Valid()
      ensures p == bestFit + HEADER && blocks == Place(old(blocks), i, n)
      ensures OnlyHeadersDiffer(old(mem[..]), mem[..], blocks)
      ensures PayloadsKept(old(mem[..]), mem[..], old(blocks))
    {
      hide Load32, Load64;
      ghost var bs, m0 := blocks, mem[..];
      ghost var r := Place(bs, i, n);
      InBounds(bs, heapStart, heapEnd, i);
      assert HeaderIs(m0, bs[i], NextOf(bs, i));
      Carve(mem, bestFit, n, bs[i], NextOf(bs, i));
      PlaceRepresents(m0, mem[..], bs, heapStart, heapEnd, i, n);
      PlaceWellFormed(bs, heapStart, heapEnd, i, n);
      PlaceUsedBytes(bs, i, n);
      Conservation(r, heapStart, heapEnd);
      CarveTouches(m0, mem[..], bs, heapStart, heapEnd, i, n);
      totalAllocated := totalAllocated + Load32(mem[..], bestFit);
      blocks := r;
      p := bestFit + HEADER;
    }

    /**
     A pointer kfree may be given: 0, a live pointer, or one whose header is readable and is
     flagged free (a block already freed, in the list or absorbed by a neighbour).
     */
    ghost predicate Freeable(ptr: nat)
      reads this, mem
    {
      ptr == 0 || IsLive(blocks, ptr)
      || (HEADER <= ptr <= mem.Length && Load32(mem[..], ptr - HEADER + FREE_AT) != 0)
    }

    method Kfree(ptr: nat)
      requires Valid() && Freeable(ptr)
      modifies this`totalAllocated, this`blocks, mem
      ensures Valid()
      ensures blocks == FreeSpec(old(blocks), ptr)
      ensures !IsLive(blocks, ptr)
      ensures !IsLive(old(blocks), ptr) ==>
        blocks == old(blocks) && mem[..] == old(mem[..]) && totalAllocated == old(totalAllocated)
      ensures OnlyHeadersDiffer(old(mem[..]), mem[..], old(blocks))
      ensures PayloadsKept(old(mem[..]), mem[..], old(blocks))
      // A second kfree of the same pointer finds the flag set, wherever the header ended up.
      ensures ptr != 0 ==> HEADER <= ptr <= mem.Length && Load32(mem[..], ptr - HEADER + FREE_AT) != 0
      ensures Freeable(ptr)
    {
      if ptr == 0 {
        return;
      }
      ghost var i := FlagTellsLive(ptr);
      var block := ptr - HEADER;
      if Load32(mem[..], block + FREE_AT) != 0 {
        return;
      }
      FreeSpecIs(blocks, heapStart, heapEnd, ptr, i);
      ReleaseBlock(block, i);
      i := FlagTellsLive(ptr);
    }

    /** The second half of kfree: mark the block free and merge it with its neighbours. */
    method ReleaseBlock(block: nat, ghost i: nat)
      requires Valid() && i < |blocks| && blocks[i].addr == block && !blocks[i].free
      modifies this`totalAllocated, this`blocks, mem
      ensures Valid() && blocks == Release(old(blocks), i)
      ensures OnlyHeadersDiffer(old(mem[..]), mem[..], old(blocks))
      ensures PayloadsKept(old(mem[..]), mem[..], old(blocks))
      ensures block + HEADER <= mem.Length && Load32(mem[..], block + FREE_AT) != 0
    {
      hide Load32, Load64;
      ghost var bs, m0 := blocks, mem[..];
      ReleaseWellFormed(bs, heapStart, heapEnd, i);
      ReleaseUsedBytes(bs, i);
      HeaderFacts(m0, bs, heapStart, heapEnd, i);
      UsedBytesSplit(bs, i);
      totalAllocated := totalAllocated - Load32(mem[..], block);
      MarkAndMerge(mem, heapHead, block, bs, heapStart, heapEnd, i);
      blocks := Release(bs, i);
      HeadersOnlyKeepsPayloads(m0, mem[..], bs, heapStart, heapEnd);
    }

    /**
     Freeing the same pointer twice in a row meets the contract of freeing it once, whether or
     not its header survived.
     */
    method KfreeTwice(ptr: nat)
      requires Valid() && Freeable(ptr)
      modifies this`totalAllocated, this`blocks, mem
      ensures Valid() && blocks == FreeSpec(old(blocks), ptr) && totalAllocated == UsedBytes(blocks)
      ensures OnlyHeadersDiffer(old(mem[..]), mem[..], old(blocks))
      ensures PayloadsKept(old(mem[..]), mem[..], old(blocks))
    {
      Kfree(ptr);
      label once:
      assert !IsLive(blocks, ptr);
      hide *;
      Kfree(ptr);
      assert mem[..] == old@once(mem[..]) && totalAllocated == old@once(totalAllocated) && blocks == old@once(blocks);
    }

    /** A client storing into memory it was handed. */
    method ClientWrite(a: nat, v: byte)
      requires Valid() && IsLiveByte(blocks, a)
      modifies mem
      ensures Valid()
      ensures a < mem.Length && mem[..] == old(mem[..])[a := v]
    {
      LiveBytesAreNotHeaders(blocks, heapStart, heapEnd, a);
      mem[a] := v;
      HeadersUntouched(old(mem[..]), mem[..], blocks, heapStart, heapEnd);
    }

    /** The counts kernal/mm.c reports: with one header a block they add up to the whole heap. */
    method MmStats() returns (numBlocks: nat, numFreeBlocks: nat, totalFree: int)
      requires Valid() && heapHead != 0
      ensures numBlocks == |blocks| && numFreeBlocks == FreeCount(blocks)
      ensures totalAllocated as int + totalFree + HEADER * numBlocks == heapEnd - heapStart
    {
      hide Load32, Load64;
      totalFree, numBlocks, numFreeBlocks := 0, 0, 0;
      var current := heapHead;
      HeaderFacts(mem[..], blocks, heapStart, heapEnd, 0);
      while current != 0
        invariant numBlocks <= |blocks|
        invariant if numBlocks < |blocks| then current == blocks[numBlocks].addr != 0 else current == 0
        invariant totalFree + FreeBytes(blocks[numBlocks..]) == FreeBytes(blocks)
        invariant numFreeBlocks + FreeCount(blocks[numBlocks..]) == FreeCount(blocks)
        decreases |blocks| - numBlocks
      {
        HeaderFacts(mem[..], blocks, heapStart, heapEnd, numBlocks);
        assert blocks[numBlocks..][1..] == blocks[numBlocks + 1..];
        numBlocks := numBlocks + 1;
        if Load32(mem[..], current + FREE_AT) != 0 {
          numFreeBlocks := numFreeBlocks + 1;
          totalFree := totalFree + Load32(mem[..], current);
        }
        current := Load64(mem[..], current + NEXT_AT);
        if numBlocks < |blocks| { HeaderFacts(mem[..], blocks, heapStart, heapEnd, numBlocks); }
      }
      Conservation(blocks, heapStart, heapEnd);
    }

    /** The free flag in front of ptr tells whether ptr is live. */
    lemma FlagTellsLive(ptr: nat) returns (i: nat)
      requires Valid() && Freeable(ptr) && ptr != 0
      ensures HEADER <= ptr <= mem.Length
      ensures Load32(mem[..], ptr - HEADER + FREE_AT) == 0 ==> IsIndexOf(blocks, ptr, i)
      ensures Load32(mem[..], ptr - HEADER + FREE_AT) != 0 ==> !IsLive(blocks, ptr) && FreeSpec(blocks, ptr) == blocks
    {
      i := 0;
      if IsLive(blocks, ptr) {
        i :| 0 <= i < |blocks| && !blocks[i].free && blocks[i].Payload() == ptr;
        HeaderFacts(mem[..], blocks, heapStart, heapEnd, i);
      }
    }
  }
}
