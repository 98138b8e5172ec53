/**
 The heap of kernal/mm.c as a sequence of blocks in address order: what kmalloc and kfree
 do to the block list, and what holds of every list they can produce.
 */
module HeapSpec {
  import opened Memory

  const HEADER: nat := 16
  // Slack kmalloc wants to be left over, beyond the new header, before it splits a block.
  const SPLIT_SLACK: nat := 32

  datatype Block = Block(addr: nat, size: nat, free: bool) {
    function Payload(): nat { addr + HEADER }
    function End(): nat { addr + HEADER + size }
  }

  /** The blocks follow one another without gap or overlap from lo to hi, all 8-aligned. */
  ghost predicate Tiles(bs: seq<Block>, lo: nat, hi: nat) {
    && |bs| > 0 && bs[0].addr == lo && bs[|bs| - 1].End() == hi
    && (forall i, j :: 0 <= i && j == i + 1 && j < |bs| ==> bs[i].End() == bs[j].addr)
    && (forall i :: 0 <= i < |bs| ==> bs[i].addr % 8 == 0 && bs[i].size % 8 == 0)
  }

  /** No two neighbouring blocks are both free. */
  ghost predicate Coalesced(bs: seq<Block>) {
    forall i, j :: 0 <= i && j == i + 1 && j < |bs| ==> !(bs[i].free && bs[j].free)
  }

  ghost predicate WellFormed(bs: seq<Block>, lo: nat, hi: nat) {
    Tiles(bs, lo, hi) && Coalesced(bs)
  }

  /** mm_init: one free block. */
  function Fresh(lo: nat, hi: nat): seq<Block>
    requires lo + HEADER <= hi
  {
    [Block(lo, hi - lo - HEADER, true)]
  }

  // ---------------------------------------------------------------- geometry

  lemma {:induction false} InOrder(bs: seq<Block>, lo: nat, hi: nat, i: nat, j: nat)
    requires Tiles(bs, lo, hi) && i < j < |bs|
    ensures bs[i].End() <= bs[j].addr
    decreases j
  {
    if j > i + 1 {
      InOrder(bs, lo, hi, i, j - 1);
    }
    assert bs[j - 1].End() == bs[j].addr;
  }

  lemma InBounds(bs: seq<Block>, lo: nat, hi: nat, i: nat)
    requires Tiles(bs, lo, hi) && i < |bs|
    ensures lo <= bs[i].addr && bs[i].End() <= hi
  {
    if i > 0 { InOrder(bs, lo, hi, 0, i); }
    if i < |bs| - 1 { InOrder(bs, lo, hi, i, |bs| - 1); }
  }

  /** Headers and payloads of different blocks never overlap, and all lie in the heap. */
  lemma Disjoint(bs: seq<Block>, lo: nat, hi: nat)
    requires Tiles(bs, lo, hi)
    ensures forall i :: 0 <= i < |bs| ==> lo <= bs[i].addr && bs[i].End() <= hi
    ensures forall i, j :: 0 <= i < j < |bs| ==> bs[i].End() <= bs[j].addr
  {
    forall i | 0 <= i < |bs| ensures lo <= bs[i].addr && bs[i].End() <= hi {
      InBounds(bs, lo, hi, i);
    }
    forall i, j | 0 <= i < j < |bs| ensures bs[i].End() <= bs[j].addr {
      InOrder(bs, lo, hi, i, j);
    }
  }

  /** Every address of the heap lies in some block. */
  lemma {:induction false} BlockAt(bs: seq<Block>, lo: nat, hi: nat, a: nat) returns (k: nat)
    requires Tiles(bs, lo, hi) && lo <= a < hi
    ensures k < |bs| && bs[k].addr <= a < bs[k].End()
  {
    k := 0;
    while bs[k].End() <= a
      invariant k < |bs| && bs[k].addr <= a
      decreases |bs| - k
    {
      assert k + 1 < |bs|;
      assert bs[k].End() == bs[k + 1].addr;
      k := k + 1;
    }
  }

  lemma SameIndex(bs: seq<Block>, lo: nat, hi: nat, i: nat, j: nat)
    requires Tiles(bs, lo, hi) && i < |bs| && j < |bs| && bs[i].addr == bs[j].addr
    ensures i == j
  {
    if i < j {
      InOrder(bs, lo, hi, i, j);
    } else if j < i {
      InOrder(bs, lo, hi, j, i);
    }
  }

  /** A block is determined by its address. */
  lemma SameAddress(bs: seq<Block>, lo: nat, hi: nat, b: Block, c: Block)
    requires Tiles(bs, lo, hi) && b in bs && c in bs && b.addr == c.addr
    ensures b == c
  {
    var i: nat :| i < |bs| && bs[i] == b;
    var j: nat :| j < |bs| && bs[j] == c;
    SameIndex(bs, lo, hi, i, j);
  }

  // ---------------------------------------------------------------- kmalloc

  /** (size + 7) & ~7 on a 32-bit unsigned: rounds up to a multiple of 8, and wraps. */
  function RoundUp(size: u32): (r: u32)
  {
    ((size as int + 7) % 0x1_0000_0000) / 8 * 8
  }

  /** The rounding meets the request exactly when it does not wrap. */
  lemma RoundUpMeets(size: u32)
    ensures RoundUp(size) % 8 == 0
    ensures RoundUp(size) >= size <==> size as int <= 0x1_0000_0000 - 8
    ensures size as int <= 0x1_0000_0000 - 8 ==> RoundUp(size) as int < size as int + 8
    ensures size as int > 0x1_0000_0000 - 8 ==> RoundUp(size) == 0
  {
  }

  /** Position of the first free block holding n bytes, |bs| when there is none. */
  function FirstFit(bs: seq<Block>, n: nat): (r: nat)
    ensures r <= |bs|
    ensures r < |bs| ==> bs[r].free && bs[r].size >= n
    ensures forall j :: 0 <= j < r ==> !(bs[j].free && bs[j].size >= n)
  {
    if bs == [] then 0
    else if bs[0].free && bs[0].size >= n then 0
    else
      var r := 1 + FirstFit(bs[1..], n);
      assert forall j :: 0 < j < |bs| ==> bs[j] == bs[1..][j - 1];
      r
  }

  lemma FirstFitIs(bs: seq<Block>, n: nat, i: nat)
    requires i <= |bs| && (i < |bs| ==> bs[i].free && bs[i].size >= n)
    requires forall j :: 0 <= j < i ==> !(bs[j].free && bs[j].size >= n)
    ensures FirstFit(bs, n) == i
  {
  }

  predicate Splits(b: Block, n: nat) { b.size > n + HEADER + SPLIT_SLACK }

  /** What becomes of a free block handed out for n bytes: shrunk to n only if it is split. */
  function Handed(b: Block, n: nat): Block {
    Block(b.addr, if Splits(b, n) then n else b.size, false)
  }

  /** The list after block i was handed out for n bytes. */
  function Place(bs: seq<Block>, i: nat, n: nat): seq<Block>
    requires i < |bs| && bs[i].size >= n
  {
    if Splits(bs[i], n) then
      bs[..i] + [Handed(bs[i], n), Block(bs[i].addr + HEADER + n, bs[i].size - n - HEADER, true)] + bs[i + 1..]
    else
      bs[i := Handed(bs[i], n)]
  }

  /** kmalloc: new list and returned pointer, 0 for failure. */
  function Malloc(bs: seq<Block>, size: u32): (seq<Block>, nat)
  {
    var n := RoundUp(size);
    var i := FirstFit(bs, n);
    if i == |bs| then (bs, 0) else (Place(bs, i, n), bs[i].Payload())
  }

  lemma PlaceElements(bs: seq<Block>, i: nat, n: nat)
    requires i < |bs| && bs[i].size >= n && Splits(bs[i], n)
    ensures var r := Place(bs, i, n);
      && |r| == |bs| + 1
      && r[i] == Block(bs[i].addr, n, false)
      && r[i + 1] == Block(bs[i].addr + HEADER + n, bs[i].size - n - HEADER, true)
      && (forall k :: 0 <= k < i ==> r[k] == bs[k])
      && (forall k :: i + 2 <= k < |r| ==> r[k] == bs[k - 1])
  {
  }

  lemma PlaceWellFormed(bs: seq<Block>, lo: nat, hi: nat, i: nat, n: nat)
    requires WellFormed(bs, lo, hi) && i < |bs| && bs[i].free && bs[i].size >= n && n % 8 == 0
    ensures WellFormed(Place(bs, i, n), lo, hi)
  {
    if Splits(bs[i], n) { SplitWellFormed(bs, lo, hi, i, n); }
  }

  lemma SplitWellFormed(bs: seq<Block>, lo: nat, hi: nat, i: nat, n: nat)
    requires WellFormed(bs, lo, hi) && i < |bs| && bs[i].free && Splits(bs[i], n) && n % 8 == 0
    ensures WellFormed(Place(bs, i, n), lo, hi)
  {
    hide Place;
    var r := Place(bs, i, n);
    PlaceElements(bs, i, n);
    forall k, l | 0 <= k && l == k + 1 && l < |r|
      ensures r[k].End() == r[l].addr && !(r[k].free && r[l].free)
    {
      if k < i - 1 {
        assert bs[k].End() == bs[l].addr;
      } else if k > i + 1 {
        assert bs[k - 1].End() == bs[l - 1].addr;
      } else if k == i + 1 {
        assert bs[i].End() == bs[k].addr;
      }
    }
  }

  // ---------------------------------------------------------------- kfree

  predicate IsLive(bs: seq<Block>, p: nat) {
    exists i :: 0 <= i < |bs| && !bs[i].free && bs[i].Payload() == p
  }

  /** Block i swallows its right neighbour. */
  function Absorb(bs: seq<Block>, i: nat): seq<Block>
    requires i + 1 < |bs|
  {
    bs[..i] + [bs[i].(size := bs[i].size + HEADER + bs[i + 1].size)] + bs[i + 2..]
  }

  function ReleaseRight(bs: seq<Block>, i: nat): (r: seq<Block>)
    requires i < |bs|
    ensures i < |r| && r[i].addr == bs[i].addr
    ensures i > 0 ==> r[i - 1] == bs[i - 1]
  {
    var m := bs[i := bs[i].(free := true)];
    if i + 1 < |m| && m[i + 1].free then Absorb(m, i) else m
  }

  /** kfree of the used block i: mark it, then merge with the right and the left neighbour. */
  function Release(bs: seq<Block>, i: nat): seq<Block>
    requires i < |bs|
  {
    var m := ReleaseRight(bs, i);
    if i > 0 && m[i - 1].free then Absorb(m, i - 1) else m
  }

  lemma AbsorbElements(bs: seq<Block>, i: nat)
    requires i + 1 < |bs|
    ensures var r := Absorb(bs, i);
      && |r| == |bs| - 1
      && r[i] == bs[i].(size := bs[i].size + HEADER + bs[i + 1].size)
      && (forall k :: 0 <= k < i ==> r[k] == bs[k])
      && (forall k :: i + 1 <= k < |r| ==> r[k] == bs[k + 1])
  {
  }

  lemma AbsorbTiles(bs: seq<Block>, lo: nat, hi: nat, i: nat)
    requires Tiles(bs, lo, hi) && i + 1 < |bs|
    ensures Tiles(Absorb(bs, i), lo, hi)
  {
  }

  /** Where two free neighbours can still sit: only at the pair (i - 1, i). */
  ghost predicate CoalescedBut(bs: seq<Block>, i: nat) {
    forall k, l :: 0 <= k && l == k + 1 && l < |bs| && l != i ==> !(bs[k].free && bs[l].free)
  }

  lemma ReleaseRightCoalesced(bs: seq<Block>, i: nat)
    requires Coalesced(bs) && i < |bs| && !bs[i].free
    ensures CoalescedBut(ReleaseRight(bs, i), i)
  {
  }

  lemma AbsorbCoalesced(bs: seq<Block>, i: nat)
    requires i + 1 < |bs| && bs[i].free && bs[i + 1].free && CoalescedBut(bs, i + 1)
    ensures Coalesced(Absorb(bs, i))
  {
  }

  lemma ReleaseRightTiles(bs: seq<Block>, lo: nat, hi: nat, i: nat)
    requires Tiles(bs, lo, hi) && i < |bs|
    ensures Tiles(ReleaseRight(bs, i), lo, hi)
  {
    var m := bs[i := bs[i].(free := true)];
    assert Tiles(m, lo, hi);
    if i + 1 < |m| && m[i + 1].free {
      AbsorbTiles(m, lo, hi, i);
    }
  }

  lemma ReleaseWellFormed(bs: seq<Block>, lo: nat, hi: nat, i: nat)
    requires WellFormed(bs, lo, hi) && i < |bs| && !bs[i].free
    ensures WellFormed(Release(bs, i), lo, hi)
  {
    var m := ReleaseRight(bs, i);
    ReleaseRightTiles(bs, lo, hi, i);
    ReleaseRightCoalesced(bs, i);
    if i > 0 && m[i - 1].free {
      AbsorbTiles(m, lo, hi, i - 1);
      AbsorbCoalesced(m, i - 1);
    }
  }
}
