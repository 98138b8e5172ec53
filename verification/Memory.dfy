/** Byte-addressed memory with the little-endian loads and stores of the target (RV64). */
module Memory {
  type byte = x: int | 0 <= x < 0x100
  type u32 = x: int | 0 <= x < 0x1_0000_0000
  type u64 = x: int | 0 <= x < 0x1_0000_0000_0000_0000

  function Load32(m: seq<byte>, a: nat): u32
    requires a + 4 <= |m|
  {
    (m[a] as int) + 0x100 * (m[a + 1] as int) + 0x1_0000 * (m[a + 2] as int) + 0x100_0000 * (m[a + 3] as int)
  }

  function Load64(m: seq<byte>, a: nat): u64
    requires a + 8 <= |m|
  {
    (Load32(m, a) as int) + 0x1_0000_0000 * (Load32(m, a + 4) as int)
  }

  /** The two memories hold the same bytes at addresses lo, ..., hi - 1. */
  predicate Agree(m: seq<byte>, m': seq<byte>, lo: nat, hi: nat)
  {
    |m| == |m'| && hi <= |m| && forall a :: lo <= a < hi ==> m[a] == m'[a]
  }

  lemma LoadsAgree(m: seq<byte>, m': seq<byte>, lo: nat, hi: nat)
    requires Agree(m, m', lo, hi)
    ensures forall a :: lo <= a && a + 4 <= hi ==> Load32(m, a) == Load32(m', a)
    ensures forall a :: lo <= a && a + 8 <= hi ==> Load64(m, a) == Load64(m', a)
  {
  }

  /** A 32-bit value is the sum of its four bytes. */
  lemma BytesOf32(v: u32)
    ensures v == v % 0x100 + 0x100 * (v / 0x100 % 0x100)
                 + 0x1_0000 * (v / 0x1_0000 % 0x100) + 0x100_0000 * (v / 0x100_0000)
    ensures v / 0x100_0000 < 0x100
  {
    var a, b, c := v / 0x100, v / 0x1_0000, v / 0x100_0000;
    assert b == a / 0x100 && c == b / 0x100;
    assert v == 0x100 * a + v % 0x100 && a == 0x100 * b + a % 0x100 && b == 0x100 * c + b % 0x100;
  }

  method Store32(mem: array<byte>, a: nat, v: u32)
    requires a + 4 <= mem.Length
    modifies mem
    ensures Load32(mem[..], a) == v
    ensures forall i :: 0 <= i < mem.Length && !(a <= i < a + 4) ==> mem[i] == old(mem[i])
  {
    BytesOf32(v);
    mem[a] := v % 0x100;
    mem[a + 1] := v / 0x100 % 0x100;
    mem[a + 2] := v / 0x1_0000 % 0x100;
    mem[a + 3] := v / 0x100_0000;
  }

  method Store64(mem: array<byte>, a: nat, v: u64)
    requires a + 8 <= mem.Length
    modifies mem
    ensures Load64(mem[..], a) == v
    ensures forall i :: 0 <= i < mem.Length && !(a <= i < a + 8) ==> mem[i] == old(mem[i])
  {
    Store32(mem, a, v % 0x1_0000_0000);
    ghost var low := mem[..];
    Store32(mem, a + 4, v / 0x1_0000_0000);
    LoadsAgree(low, mem[..], a, a + 4);
  }

  function Min(a: int, b: int): int { if a < b then a else b }

  /** for (i = 0; i < n; i++) dst[i] = src[i], which copies nothing for a negative n. */
  method CopyBytes(src: seq<byte>, dst: array<byte>, n: int)
    requires n <= |src| && n <= dst.Length
    modifies dst
    ensures var k := if n < 0 then 0 else n; dst[..] == src[..k] + old(dst[..])[k..]
  {
    var i := 0;
    while i < n
      invariant 0 <= i && (n >= 0 ==> i <= n) && (n < 0 ==> i == 0)
      invariant i <= dst.Length && i <= |src| && dst[..i] == src[..i] && dst[i..] == old(dst[..])[i..]
    {
      dst[i] := src[i];
      i := i + 1;
    }
    assert dst[..] == dst[..i] + dst[i..];
  }
}
