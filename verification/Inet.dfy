/** inet_addr and inet_ntoa of lib/libnet/socket.c. */
module Inet {
  import opened Memory
  import opened Numerals

  const WORD: nat := 0x1_0000_0000

  /** Bitwise or of two numbers. */
  function Or(a: nat, b: nat): nat
    decreases a + b
  {
    if a == 0 && b == 0 then 0
    else 2 * Or(a / 2, b / 2) + (if a % 2 == 1 || b % 2 == 1 then 1 else 0)
  }

  /** a << k on 32 bits */
  function Shl(a: nat, k: nat): u32 { a * Pow2(k) % WORD }

  function Pow2(k: nat): (p: nat)
    ensures p > 0
  {
    if k == 0 then 1 else 2 * Pow2(k - 1)
  }

  /** (parts[0] << 24) | (parts[1] << 16) | (parts[2] << 8) | parts[3] */
  function Combine(p: seq<u32>): nat
    requires |p| == 4
  {
    Or(Or(Or(Shl(p[0], 24), Shl(p[1], 16)), Shl(p[2], 8)), p[3])
  }

  predicate IsDigit(c: char) { 0 <= Digit(c) < 10 }

  /** current_part = current_part * 10 + (*cp - '0'), on 32 bits */
  function Next(current: u32, c: char): u32 { (current * 10 + Digit(c)) % WORD }

  /** inet_addr from the middle of the string, with the parts read so far and the current one. */
  function ParseFrom(cp: string, parts: seq<u32>, current: u32): nat
    requires |parts| <= 4
  {
    if cp == "" || |parts| == 4 then (if |parts| == 3 then Combine(parts + [current]) else 0)
    else if IsDigit(cp[0]) then ParseFrom(cp[1..], parts, Next(current, cp[0]))
    else if cp[0] == '.' then ParseFrom(cp[1..], parts + [current], 0)
    else 0
  }

  /** inet_addr; ints that overflow wrap around. */
  method InetAddr(cp: string) returns (addr: nat)
    ensures addr == if IsQuad(cp) then Combine(Words(Fields(cp))) else 0
  {
    InetAddrMeans(cp);
    addr := ReadParts(cp);
  }

  /** The loop of inet_addr. */
  method ReadParts(cp: string) returns (addr: nat)
    ensures addr == ParseFrom(cp, [], 0)
  {
    addr := 0;
    var parts := new u32[4](_ => 0);
    var partCount, currentPart: u32, i := 0, 0, 0;
    hide Combine;
    while i < |cp| && partCount < 4
      invariant 0 <= i <= |cp| && 0 <= partCount <= 4
      invariant ParseFrom(cp[i..], parts[..partCount], currentPart) == ParseFrom(cp, [], 0)
    {
      assert cp[i..][1..] == cp[i + 1..];
      if '0' <= cp[i] <= '9' {
        ghost var next := Next(currentPart, cp[i]);
        currentPart := (currentPart * 10 + (cp[i] - '0') as int) % WORD;
        assert IsDigit(cp[i]) && currentPart == next;
        hide Next;
      } else if cp[i] == '.' {
        ghost var before := parts[..partCount];
        parts[partCount] := currentPart;
        assert parts[..partCount + 1] == before + [currentPart];
        partCount := partCount + 1;
        currentPart := 0;
      } else {
        return 0;
      }
      i := i + 1;
    }
    if partCount == 3 {
      ghost var before := parts[..partCount];
      parts[partCount] := currentPart;
      assert parts[..] == before + [currentPart];
      addr := Combine(parts[..]);
    }
  }

  // ---------------------------------------------------------------- inet_ntoa

  function Three(v: int): string
    requires 0 <= v < 0x100
  {
    ['0' + (v / 100) as char, '0' + (v / 10 % 10) as char, '0' + (v % 10) as char]
  }

  function Octet(addr: u32, k: nat): (v: int)
    ensures 0 <= v < 0x100
  {
    addr / Pow2(8 * k) % 0x100
  }

  function Dotted(addr: u32): string {
    Three(Octet(addr, 3)) + "." + Three(Octet(addr, 2)) + "." + Three(Octet(addr, 1)) + "." + Three(Octet(addr, 0))
  }

  lemma Powers()
    ensures Pow2(8) == 0x100 && Pow2(16) == 0x1_0000 && Pow2(24) == 0x100_0000
  {
  }

  /** Three digits of one octet. */
  method PutOctet(str: array<char>, at: nat, v: int)
    requires 0 <= v < 0x100 && at + 3 <= str.Length
    modifies str
    ensures str[..at + 3] == old(str[..at]) + Three(v)
  {
    str[at] := '0' + (v / 100) as char;
    str[at + 1] := '0' + (v / 10 % 10) as char;
    str[at + 2] := '0' + (v % 10) as char;
  }

  method PutDot(str: array<char>, at: nat)
    requires at < str.Length
    modifies str
    ensures str[..at + 1] == old(str[..at]) + "."
  {
    str[at] := '.';
  }

  /** inet_ntoa: fifteen characters and the final NUL, in the static buffer. */
  method InetNtoa(addr: u32, str: array<char>)
    requires str.Length == 16
    modifies str
    ensures str[..15] == Dotted(addr) && str[15] == '\0'
  {
    hide Three, Octet;
    PutOctet(str, 0, Octet(addr, 3));
    PutDot(str, 3);
    PutOctet(str, 4, Octet(addr, 2));
    PutDot(str, 7);
    PutOctet(str, 8, Octet(addr, 1));
    PutDot(str, 11);
    PutOctet(str, 12, Octet(addr, 0));
    str[15] := '\0';
    assert str[..15] == "" + Dotted(addr);
  }

  // ---------------------------------------------------------------- dotted strings

  /** The pieces of a string between its dots. */
  function Fields(s: string): (f: seq<string>)
    ensures |f| > 0
  {
    if s == "" then [""]
    else
      var f := Fields(s[1..]);
      if s[0] == '.' then [""] + f else [[s[0]] + f[0]] + f[1..]
  }

  predicate AllDigits(f: seq<string>) { forall i :: 0 <= i < |f| ==> DigitsOnly(f[i], 10) }

  /** Exactly three dots, and nothing but digits between them. */
  predicate IsQuad(cp: string) { |Fields(cp)| == 4 && AllDigits(Fields(cp)) }

  /** The numbers the fields stand for, on 32 bits. */
  function Words(f: seq<string>): (w: seq<u32>)
    ensures |w| == |f|
  {
    seq(|f|, i requires 0 <= i < |f| => Value(f[i], 10) % WORD)
  }

  /** The number held after the characters of s were read with current held before. */
  function Reading(s: string, current: int): int {
    if s == "" then current else Reading(s[1..], current * 10 + Digit(s[0]))
  }

  lemma {:induction false} ReadingExtends(s: string, current: int, c: char)
    ensures Reading(s + [c], current) == Reading(s, current) * 10 + Digit(c)
    decreases |s|
  {
    if s == "" {
      assert ([c])[1..] == "";
    } else {
      assert (s + [c])[1..] == s[1..] + [c];
      ReadingExtends(s[1..], current * 10 + Digit(s[0]), c);
    }
  }

  lemma {:induction false} ReadingIsValue(s: string)
    ensures Reading(s, 0) == Value(s, 10)
  {
    if s != "" {
      ReadingIsValue(s[..|s| - 1]);
      ReadingExtends(s[..|s| - 1], 0, s[|s| - 1]);
      assert s == s[..|s| - 1] + [s[|s| - 1]];
    }
  }

  /** Wrapping around on the way does not change what is read, on 32 bits. */
  lemma {:induction false} ReadingWraps(s: string, a: int, b: int, k: int)
    requires a == b + WORD * k
    ensures Reading(s, a) % WORD == Reading(s, b) % WORD
    decreases |s|
  {
    if s != "" { ReadingWraps(s[1..], a * 10 + Digit(s[0]), b * 10 + Digit(s[0]), k * 10); }
  }

  /** Words of fields whose first one was partly read already. */
  function WordsFrom(f: seq<string>, current: u32): seq<u32>
    requires |f| > 0
  {
    [Reading(f[0], current) % WORD] + Words(f[1..])
  }

  lemma WordsFromZero(f: seq<string>)
    requires |f| > 0
    ensures WordsFrom(f, 0) == Words(f)
  {
    ReadingIsValue(f[0]);
  }

  /** What inet_addr returns when these fields follow the parts, the first one being partly read. */
  function Meaning(f: seq<string>, parts: seq<u32>, current: u32): nat
    requires |f| > 0
  {
    if |parts| + |f| == 4 && AllDigits(f) then Combine(parts + WordsFrom(f, current)) else 0
  }

  lemma MeaningOfDot(f: seq<string>, parts: seq<u32>, current: u32)
    requires |f| > 0
    ensures Meaning([""] + f, parts, current) == Meaning(f, parts + [current], 0)
  {
    var g := [""] + f;
    WordsFromZero(f);
    assert g[1..] == f && forall i :: 0 <= i < |f| ==> g[i + 1] == f[i];
    hide Combine, Words;
    assert parts + [current] + WordsFrom(f, 0) == parts + WordsFrom(g, current);
  }

  lemma MeaningOfChar(c: char, f: seq<string>, parts: seq<u32>, current: u32)
    requires |f| > 0
    ensures Meaning([[c] + f[0]] + f[1..], parts, current)
         == if IsDigit(c) then Meaning(f, parts, Next(current, c)) else 0
  {
    var g := [[c] + f[0]] + f[1..];
    var next := current * 10 + Digit(c);
    assert g[1..] == f[1..] && g[0][0] == c && g[0][1..] == f[0];
    ReadingWraps(f[0], next, next % WORD, next / WORD);
    assert Reading(g[0], current) == Reading(f[0], next) && Next(current, c) == next % WORD;
    hide Combine, Words, Reading, Next, Digit;
    assert AllDigits(g) <==> IsDigit(c) && AllDigits(f) by {
      assert forall i :: 0 < i < |f| ==> g[i] == f[i];
      assert DigitsOnly(g[0], 10) <==> IsDigit(c) && DigitsOnly(f[0], 10);
    }
  }

  /** inet_addr combines the four numbers of a dotted quad, and gives 0 for every other string. */
  lemma {:induction false} ParseFromMeans(cp: string, parts: seq<u32>, current: u32)
    requires |parts| <= 4
    ensures ParseFrom(cp, parts, current) == Meaning(Fields(cp), parts, current)
    decreases |cp|
  {
    if cp == "" {
      assert Fields(cp) == [""] && WordsFrom([""], current) == [current];
    } else if |parts| < 4 {
      DotIsNoDigit();
      hide Meaning, Combine, Next, IsDigit;
      var g := Fields(cp[1..]);
      if cp[0] == '.' {
        MeaningOfDot(g, parts, current);
        ParseFromMeans(cp[1..], parts + [current], 0);
      } else {
        MeaningOfChar(cp[0], g, parts, current);
        ParseFromMeans(cp[1..], parts, Next(current, cp[0]));
      }
    }
  }

  lemma DotIsNoDigit()
    ensures !IsDigit('.')
  {
  }

  lemma {:induction false} FieldsJoin(s: string, rest: string)
    requires '.' !in s
    ensures Fields(s + "." + rest) == [s] + Fields(rest)
    decreases |s|
  {
    if s == "" {
      assert (s + "." + rest)[1..] == rest;
    } else {
      assert (s + "." + rest)[1..] == s[1..] + "." + rest;
      FieldsJoin(s[1..], rest);
      assert [s[0]] + s[1..] == s;
    }
  }

  lemma {:induction false} OneField(s: string)
    requires '.' !in s
    ensures Fields(s) == [s]
  {
    if s != "" {
      OneField(s[1..]);
      assert [s[0]] + s[1..] == s;
    }
  }

  lemma QuadFields(s0: string, s1: string, s2: string, s3: string)
    requires AllDigits([s0, s1, s2, s3])
    ensures Fields(s0 + "." + s1 + "." + s2 + "." + s3) == [s0, s1, s2, s3]
  {
    forall s | s in [s0, s1, s2, s3] ensures '.' !in s {
      assert forall c :: c in s ==> 0 <= Digit(c);
    }
    assert s0 + "." + s1 + "." + s2 + "." + s3 == s0 + "." + (s1 + "." + (s2 + "." + s3));
    FieldsJoin(s0, s1 + "." + (s2 + "." + s3));
    FieldsJoin(s1, s2 + "." + s3);
    FieldsJoin(s2, s3);
    OneField(s3);
  }

  // ---------------------------------------------------------------- or of disjoint bits

  lemma {:induction false} OrZero(b: nat)
    ensures Or(0, b) == b
  {
    if b > 0 { OrZero(b / 2); }
  }

  /** Or of a number shifted left by k bits and one of fewer than k bits is their sum. */
  lemma {:induction false} OrIsSum(a: nat, k: nat, b: nat)
    requires b < Pow2(k)
    ensures Or(a * Pow2(k), b) == a * Pow2(k) + b
    decreases k
  {
    if k == 0 {
      OrOfZero(a);
    } else {
      var h := a * Pow2(k - 1);
      assert a * Pow2(k) == 2 * h;
      OrIsSum(a, k - 1, b / 2);
      assert a * Pow2(k) / 2 == h && a * Pow2(k) % 2 == 0;
      if h == 0 && b == 0 {
        assert Or(0, 0) == 0;
      }
    }
  }

  lemma {:induction false} OrOfZero(a: nat)
    ensures Or(a, 0) == a
  {
    if a > 0 { OrOfZero(a / 2); }
  }

  /** For parts that are octets, Combine is the positional value. */
  lemma CombineOctets(p: seq<u32>)
    requires |p| == 4 && forall i :: 0 <= i < 4 ==> p[i] < 0x100
    ensures Combine(p) == p[0] * 0x100_0000 + p[1] * 0x1_0000 + p[2] * 0x100 + p[3]
  {
    Powers();
    hide Pow2, Or, Shl;
    ShlFits(p[0], 24);
    ShlFits(p[1], 16);
    ShlFits(p[2], 8);
    OrIsSum(p[0], 24, p[1] * 0x1_0000);
    var high := p[0] * 0x100 + p[1];
    OrIsSum(high, 16, p[2] * 0x100);
    OrIsSum(high * 0x100 + p[2], 8, p[3]);
  }

  lemma ShlFits(a: nat, k: nat)
    requires a * Pow2(k) < WORD
    ensures Shl(a, k) == a * Pow2(k)
  {
  }

  /** inet_addr reads every dotted quad of octets, however many digits each is written with. */
  lemma ReadsDottedQuad(s0: string, s1: string, s2: string, s3: string)
    requires AllDigits([s0, s1, s2, s3])
    requires Value(s0, 10) < 0x100 && Value(s1, 10) < 0x100 && Value(s2, 10) < 0x100 && Value(s3, 10) < 0x100
    ensures ParseFrom(s0 + "." + s1 + "." + s2 + "." + s3, [], 0)
         == Value(s0, 10) * 0x100_0000 + Value(s1, 10) * 0x1_0000 + Value(s2, 10) * 0x100 + Value(s3, 10)
  {
    QuadFields(s0, s1, s2, s3);
    QuadValue(s0 + "." + s1 + "." + s2 + "." + s3, [s0, s1, s2, s3]);
  }

  lemma QuadValue(cp: string, f: seq<string>)
    requires |f| == 4 && Fields(cp) == f && AllDigits(f) && forall i :: 0 <= i < 4 ==> Value(f[i], 10) < 0x100
    ensures ParseFrom(cp, [], 0)
         == Value(f[0], 10) * 0x100_0000 + Value(f[1], 10) * 0x1_0000 + Value(f[2], 10) * 0x100 + Value(f[3], 10)
  {
    InetAddrMeans(cp);
    hide Value, Combine, ParseFrom, Words, AllDigits, Fields;
    SmallWords(f);
    CombineOctets(Words(f));
  }

  lemma SmallWords(f: seq<string>)
    requires AllDigits(f) && forall i :: 0 <= i < |f| ==> Value(f[i], 10) < WORD
    ensures forall i :: 0 <= i < |f| ==> Words(f)[i] == Value(f[i], 10)
  {
    forall i | 0 <= i < |f| ensures Value(f[i], 10) >= 0 {
      ValueMonotone(f[i], 0);
    }
    hide Value;
  }

  lemma InetAddrMeans(cp: string)
    ensures ParseFrom(cp, [], 0) == if IsQuad(cp) then Combine(Words(Fields(cp))) else 0
  {
    ParseFromMeans(cp, [], 0);
    WordsFromZero(Fields(cp));
    assert [] + Words(Fields(cp)) == Words(Fields(cp));
  }

  lemma ThreeHasValue(v: int)
    requires 0 <= v < 0x100
    ensures DigitsOnly(Three(v), 10) && Value(Three(v), 10) == v
  {
    var s := Three(v);
    var d0, d1, d2 := v / 100, v / 10 % 10, v % 10;
    assert Digit(s[0]) == d0 && Digit(s[1]) == d1 && Digit(s[2]) == d2;
    assert s[..2] == [s[0], s[1]] && s[..2][..1] == [s[0]] && s[..2][..1][..0] == "";
    assert Value("", 10) == 0;
    assert Value(s[..2][..1], 10) == d0;
    assert Value(s[..2], 10) == d0 * 10 + d1;
  }

  /** inet_addr undoes inet_ntoa on every address. */
  lemma AddrOfNtoa(addr: u32)
    ensures ParseFrom(Dotted(addr), [], 0) == addr
  {
    Octets(addr);
    hide Octet;
    ThreeHasValue(Octet(addr, 0));
    ThreeHasValue(Octet(addr, 1));
    ThreeHasValue(Octet(addr, 2));
    ThreeHasValue(Octet(addr, 3));
    hide Three, Value, DigitsOnly;
    ReadsDottedQuad(Three(Octet(addr, 3)), Three(Octet(addr, 2)), Three(Octet(addr, 1)), Three(Octet(addr, 0)));
  }

  lemma Octets(addr: u32)
    ensures addr == Octet(addr, 3) * 0x100_0000 + Octet(addr, 2) * 0x1_0000 + Octet(addr, 1) * 0x100 + Octet(addr, 0)
  {
    Powers();
    assert Octet(addr, 0) == addr % 0x100 && Octet(addr, 1) == addr / 0x100 % 0x100;
    assert Octet(addr, 2) == addr / 0x1_0000 % 0x100 && Octet(addr, 3) == addr / 0x100_0000 % 0x100;
    hide Octet, Pow2;
    BytesOf32(addr);
  }
}
