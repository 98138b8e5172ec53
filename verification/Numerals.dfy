/** itoa and atoi of lib/libc/stdlib.c, and the itoa lib/libc/stdio.c keeps for itself. */
module Numerals {
  const INT_LIMIT: int := 0x8000_0000 // int is 32 bits

  predicate IsBase(base: int) { 2 <= base <= 36 }

  /** Entry d of the table "0123456789abcdefghijklmnopqrstuvwxyz". */
  function DigitChar(d: int): char
    requires 0 <= d < 36
  {
    if d < 10 then '0' + d as char else 'a' + (d - 10) as char
  }

  /** Position of a character in that table, -1 for any other character. */
  function Digit(c: char): int {
    if '0' <= c <= '9' then (c - '0') as int
    else if 'a' <= c <= 'z' then (c - 'a') as int + 10
    else -1
  }

  const DIGITS: string := "0123456789abcdefghijklmnopqrstuvwxyz"

  /** DigitChar reads the table, and Digit undoes it. */
  lemma DigitTable(d: nat)
    requires d < 36
    ensures |DIGITS| == 36 && DigitChar(d) == DIGITS[d] && Digit(DIGITS[d]) == d
  {
  }

  /** The digits of v, most significant first. */
  function Numeral(v: nat, base: int): (s: string)
    requires IsBase(base)
    ensures |s| > 0
    decreases v
  {
    if v < base then [DigitChar(v)] else
      QuotientShrinks(v, base);
      Numeral(v / base, base) + [DigitChar(v % base)]
  }

  lemma QuotientShrinks(v: nat, base: int)
    requires 2 <= base <= v
    ensures 0 < v / base < v && 0 <= v % base < base && v == v / base * base + v % base
  {
  }

  lemma QuotientOfSum(w: nat, base: int, d: int)
    requires 0 <= d < base
    ensures (w * base + d) / base == w && (w * base + d) % base == d
  {
    var n := w * base + d;
    assert n == n / base * base + n % base;
    var e := n / base - w;
    assert e * base == d - n % base;
    assert e >= 1 ==> e * base >= base;
    assert e <= -1 ==> e * base <= -base;
  }

  lemma Euclid(v: nat, base: int)
    requires base >= 2
    ensures v - v / base * base == v % base && 0 <= v % base < base
    ensures v / base == 0 <==> v < base
    ensures v > 0 ==> v / base < v
  {
  }

  lemma DigitCharOfDigit(c: char)
    requires 0 <= Digit(c)
    ensures Digit(c) < 36 && DigitChar(Digit(c)) == c
  {
  }

  lemma NumeralExtends(w: nat, base: int, d: int)
    requires IsBase(base) && w > 0 && 0 <= d < base
    ensures w * base + d >= base && Numeral(w * base + d, base) == Numeral(w, base) + [DigitChar(d)]
  {
    QuotientOfSum(w, base, d);
    assert w * base == base + (w - 1) * base;
    assert (w - 1) * base >= 0;
  }

  /** The text itoa produces. */
  function Text(value: int, base: int): string
    requires IsBase(base) && (value >= 0 || base == 10)
  {
    if value < 0 then "-" + Numeral(-value, base) else Numeral(value, base)
  }

  predicate DigitsOnly(s: string, base: int) {
    forall i :: 0 <= i < |s| ==> 0 <= Digit(s[i]) < base
  }

  /** A digit string without leading zeros. */
  predicate IsNumeral(s: string, base: int) {
    |s| > 0 && DigitsOnly(s, base) && (|s| > 1 ==> s[0] != '0')
  }

  /** The number a digit string stands for. */
  function Value(s: string, base: int): int {
    if s == "" then 0 else Value(s[..|s| - 1], base) * base + Digit(s[|s| - 1])
  }

  lemma {:induction false} NumeralHasValue(v: nat, base: int)
    requires IsBase(base)
    ensures IsNumeral(Numeral(v, base), base) && Value(Numeral(v, base), base) == v
    ensures Numeral(v, base)[0] == '0' <==> v == 0
    decreases v
  {
    var s := Numeral(v, base);
    if v < base {
      assert s[..0] == "" && Value("", base) == 0;
    } else {
      QuotientShrinks(v, base);
      NumeralHasValue(v / base, base);
      assert s[..|s| - 1] == Numeral(v / base, base);
    }
  }

  /** No other digit string without leading zeros has this value. */
  lemma {:induction false} NumeralIsUnique(s: string, base: int)
    requires IsBase(base) && IsNumeral(s, base)
    ensures Value(s, base) >= 0 && Numeral(Value(s, base), base) == s
    decreases |s|
  {
    var t, d := s[..|s| - 1], Digit(s[|s| - 1]);
    DigitCharOfDigit(s[|s| - 1]);
    if |s| == 1 {
      assert Value("", base) == 0;
    } else {
      NumeralIsUnique(t, base);
      NumeralHasValue(Value(t, base), base);
      assert t[0] == s[0] && s == t + [s[|s| - 1]];
      assert Value(s, base) == Value(t, base) * base + d;
      hide Value, Numeral, IsNumeral, DigitChar;
      NumeralExtends(Value(t, base), base, d);
    }
  }

  // ---------------------------------------------------------------- itoa

  /** The C string in the buffer is s. */
  ghost predicate Holds(str: array<char>, s: string)
    reads str
  {
    |s| < str.Length && str[..|s|] == s && str[|s|] == '\0'
  }

  /** The reversal loop: swap the ends of str[lo..hi] inwards. */
  method ReverseInPlace(str: array<char>, lo: nat, hi: nat)
    requires lo < hi <= str.Length
    modifies str
    ensures forall i :: 0 <= i < str.Length && !(lo <= i < hi) ==> str[i] == old(str[i])
    ensures forall i :: lo <= i < hi ==> str[i] == old(str[lo + hi - 1 - i])
  {
    var ptr1, ptr := lo, hi - 1;
    while ptr1 < ptr
      invariant lo <= ptr1 <= ptr + 1 <= hi && ptr1 + ptr == lo + hi - 1
      invariant forall i :: 0 <= i < str.Length && !(lo <= i < hi) ==> str[i] == old(str[i])
      invariant forall i :: lo <= i < ptr1 || ptr < i < hi ==> str[i] == old(str[lo + hi - 1 - i])
      invariant forall i :: ptr1 <= i <= ptr ==> str[i] == old(str[i])
    {
      var tmpChar := str[ptr];
      str[ptr] := str[ptr1];
      ptr := ptr - 1;
      str[ptr1] := tmpChar;
      ptr1 := ptr1 + 1;
    }
  }

  /** The digit loop: the digits of value go to str[lo..], least significant first. */
  method WriteDigits(value: int, str: array<char>, lo: nat, base: int) returns (hi: nat)
    requires IsBase(base) && 0 <= value && lo + |Numeral(value, base)| <= str.Length
    modifies str
    ensures hi == lo + |Numeral(value, base)|
    ensures forall i :: 0 <= i < str.Length && !(lo <= i < hi) ==> str[i] == old(str[i])
    ensures forall i :: lo <= i < hi ==> str[i] == Numeral(value, base)[hi - 1 - i]
  {
    hide Numeral, DigitChar;
    hi := lo;
    var v := value;
    ghost var all := Numeral(value, base);
    ghost var rest := all;   // the digits still to be written
    while true
      invariant lo <= hi && 0 <= v && rest == Numeral(v, base)
      invariant |rest| + (hi - lo) == |all| && rest == all[..|rest|]
      invariant forall i :: 0 <= i < str.Length && !(lo <= i < hi) ==> str[i] == old(str[i])
      invariant forall i :: lo <= i < hi ==> str[i] == all[|all| - 1 - (i - lo)]
      decreases v
    {
      var tmp := v;
      v := v / base;
      LastDigit(tmp, base);
      str[hi] := DigitChar(tmp - v * base);
      hi := hi + 1;
      if v == 0 {
        break;
      }
      assert rest[..|rest| - 1] == all[..|rest| - 1];
      rest := rest[..|rest| - 1];
    }
  }

  lemma LastDigit(v: nat, base: int)
    requires IsBase(base)
    ensures 0 <= v - v / base * base < base
    ensures var s := Numeral(v, base);
      && s[|s| - 1] == DigitChar(v - v / base * base)
      && (v / base == 0 ==> |s| == 1) && (v / base > 0 ==> v / base < v && s[..|s| - 1] == Numeral(v / base, base))
  {
    Euclid(v, base);
    if v >= base {
      var s := Numeral(v, base);
      assert s[..|s| - 1] == Numeral(v / base, base);
    }
  }

  /** itoa on a valid base; its caller provides room for the text and the final NUL. */
  method Itoa(value: int, str: array<char>, base: int)
    requires IsBase(base) && -INT_LIMIT < value < INT_LIMIT && (value >= 0 || base == 10)
    requires |Text(value, base)| < str.Length
    modifies str
    ensures Holds(str, Text(value, base))
    ensures forall i :: |Text(value, base)| < i < str.Length ==> str[i] == old(str[i])
  {
    var v, lo := value, 0;
    if v < 0 && base == 10 {
      str[0] := '-';
      v := -v;
      lo := 1;
    }
    var hi := WriteDigits(v, str, lo, base);
    str[hi] := '\0';
    ReverseInPlace(str, lo, hi);
  }

  /** itoa of stdlib.c: an invalid base gives the empty string. */
  method ItoaChecked(value: int, str: array<char>, base: int)
    requires -INT_LIMIT < value < INT_LIMIT && str.Length > 0
    requires IsBase(base) ==> (value >= 0 || base == 10) && |Text(value, base)| < str.Length
    modifies str
    ensures Holds(str, if IsBase(base) then Text(value, base) else "")
  {
    if base < 2 || base > 36 {
      str[0] := '\0';
    } else {
      Itoa(value, str, base);
    }
  }

  // ---------------------------------------------------------------- atoi

  predicate IsSpace(c: char) { c == ' ' || c == '\t' || c == '\n' || c == '\r' }

  function SkipSpaces(s: string): string {
    if s != "" && IsSpace(s[0]) then SkipSpaces(s[1..]) else s
  }

  /** The leading decimal digits of s. */
  function Leading(s: string): string {
    if s != "" && '0' <= s[0] <= '9' then [s[0]] + Leading(s[1..]) else ""
  }

  function Unsigned(s: string): string {
    if s != "" && (s[0] == '-' || s[0] == '+') then s[1..] else s
  }

  /** The number at the front of s: spaces, a sign, digits. */
  function Parse(s: string): int {
    var t := SkipSpaces(s);
    var v := Value(Leading(Unsigned(t)), 10);
    if t != "" && t[0] == '-' then -v else v
  }

  lemma {:induction false} ValueMonotone(s: string, k: nat)
    requires k <= |s| && DigitsOnly(s, 10)
    ensures 0 <= Value(s[..k], 10) <= Value(s, 10)
    decreases |s|
  {
    if k < |s| {
      var t := s[..|s| - 1];
      assert t[..k] == s[..k];
      ValueMonotone(t, k);
    } else if s != "" {
      assert s[..k] == s;
      ValueMonotone(s[..|s| - 1], |s| - 1);
      assert s[..|s| - 1][..|s| - 1] == s[..|s| - 1];
    }
  }

  lemma {:induction false} LeadingIsPrefix(s: string)
    ensures |Leading(s)| <= |s| && Leading(s) == s[..|Leading(s)|] && DigitsOnly(Leading(s), 10)
    ensures |Leading(s)| < |s| ==> !('0' <= s[|Leading(s)|] <= '9')
    ensures forall k :: 0 <= k < |Leading(s)| ==> '0' <= s[k] <= '9' && Digit(Leading(s)[k]) == (s[k] - '0') as int
  {
    if s != "" && '0' <= s[0] <= '9' {
      LeadingIsPrefix(s[1..]);
    }
  }

  /** The first two steps of atoi: skip white space, then a sign. */
  method SkipToDigits(s: string) returns (sign: int, i: nat)
    ensures i <= |s| && s[i..] == Unsigned(SkipSpaces(s))
    ensures sign == if SkipSpaces(s) != "" && SkipSpaces(s)[0] == '-' then -1 else 1
  {
    sign, i := 1, 0;
    while i < |s| && IsSpace(s[i])
      invariant i <= |s| && SkipSpaces(s[i..]) == SkipSpaces(s)
    {
      assert s[i..][1..] == s[i + 1..];
      i := i + 1;
    }
    ghost var t := s[i..];
    assert SkipSpaces(s) == t;
    if i < |s| && s[i] == '-' {
      sign := -1;
      i := i + 1;
      assert t[1..] == s[i..];
    } else if i < |s| && s[i] == '+' {
      i := i + 1;
      assert t[1..] == s[i..];
    }
  }

  /** From start to i there are digits only, and result is their number. */
  ghost predicate ReadSoFar(s: string, start: nat, i: nat, result: int) {
    && start <= |s| && start <= i <= start + |Leading(s[start..])|
    && result == Value(Leading(s[start..])[..i - start], 10)
  }

  /** One more digit: the number read so far stays below the whole one. */
  lemma ReadDigit(s: string, start: nat, i: nat, result: int)
    requires start <= |s| && ReadSoFar(s, start, i, result) && i < |s| && '0' <= s[i] <= '9'
    ensures ReadSoFar(s, start, i + 1, result * 10 + (s[i] - '0') as int)
    ensures 0 <= result * 10 + (s[i] - '0') as int <= Value(Leading(s[start..]), 10)
  {
    hide Leading, Digit, DigitsOnly;
    var rest, k := s[start..], i - start;
    var digits := Leading(rest);
    LeadingIsPrefix(rest);
    assert s[i] == rest[k];
    assert digits[..k + 1][..k] == digits[..k];
    ValueMonotone(digits, k + 1);
  }

  lemma ReadAll(s: string, start: nat, i: nat, result: int)
    requires start <= |s| && ReadSoFar(s, start, i, result) && (i < |s| ==> !('0' <= s[i] <= '9'))
    ensures result == Value(Leading(s[start..]), 10)
  {
    var rest, k := s[start..], i - start;
    LeadingIsPrefix(rest);
    assert i < |s| ==> s[i] == rest[k];
    assert Leading(rest)[..k] == Leading(rest);
  }

  /** atoi; the number must fit an int, and then no intermediate result overflows. */
  method Atoi(s: string) returns (r: int)
    requires Value(Leading(Unsigned(SkipSpaces(s))), 10) < INT_LIMIT
    ensures r == Parse(s)
  {
    var sign, i := SkipToDigits(s);
    var result := ReadNumber(s, i);
    r := result * sign;
  }

  /** The digit loop of atoi. */
  method ReadNumber(s: string, start: nat) returns (result: int)
    requires start <= |s| && Value(Leading(s[start..]), 10) < INT_LIMIT
    ensures result == Value(Leading(s[start..]), 10)
  {
    result := 0;
    var i := start;
    assert Value(Leading(s[start..])[..0], 10) == 0;
    assert ReadSoFar(s, start, i, result);
    hide ReadSoFar, Leading, Value;
    while i < |s| && '0' <= s[i] <= '9'
      invariant ReadSoFar(s, start, i, result)
    {
      ReadDigit(s, start, i, result);
      result := result * 10 + (s[i] - '0') as int;
      assert 0 <= result < INT_LIMIT;
      i := i + 1;
    }
    ReadAll(s, start, i, result);
  }

  lemma {:induction false} SpacesAreSkipped(spaces: string, t: string)
    requires forall c :: c in spaces ==> c in " \t\n\r"
    requires t == "" || t[0] !in " \t\n\r"
    ensures SkipSpaces(spaces + t) == t
    decreases |spaces|
  {
    if spaces == "" {
      assert spaces + t == t;
    } else {
      assert spaces[0] in spaces && (spaces + t)[1..] == spaces[1..] + t;
      SpacesAreSkipped(spaces[1..], t);
    }
  }

  lemma {:induction false} LeadingStops(digits: string, tail: string)
    requires DigitsOnly(digits, 10) && (tail == "" || !('0' <= tail[0] <= '9'))
    ensures Leading(digits + tail) == digits
    decreases |digits|
  {
    if digits == "" {
      assert digits + tail == tail;
    } else {
      assert 0 <= Digit(digits[0]) < 10;
      assert forall i :: 0 <= i < |digits| - 1 ==> digits[1..][i] == digits[i + 1];
      assert (digits + tail)[1..] == digits[1..] + tail;
      LeadingStops(digits[1..], tail);
    }
  }

  /**
   What atoi reads: any white space, one optional sign, and the digits up to the first other
   character, whatever follows.
   */
  lemma ParseReads(spaces: string, sign: string, digits: string, tail: string)
    requires (forall c :: c in spaces ==> c in " \t\n\r") && sign in {"", "+", "-"}
    requires DigitsOnly(digits, 10) && (tail == "" || !('0' <= tail[0] <= '9'))
    requires sign == "" && digits == "" && tail != "" ==> tail[0] !in " \t\n\r+-"
    ensures Parse(spaces + (sign + (digits + tail))) == if sign == "-" then -Value(digits, 10) else Value(digits, 10)
  {
    hide Value;
    var number := digits + tail;
    var t := sign + number;
    LeadingStops(digits, tail);
    hide Leading;
    FirstIsNoSpace(sign, digits, tail);
    SpacesAreSkipped(spaces, t);
    assert Unsigned(t) == number by { FirstIsNoSign(sign, digits, tail); }
  }

  lemma FirstIsNoSpace(sign: string, digits: string, tail: string)
    requires sign in {"", "+", "-"} && DigitsOnly(digits, 10)
    requires sign == "" && digits == "" && tail != "" ==> tail[0] !in " \t\n\r+-"
    ensures var t := sign + (digits + tail); t == "" || t[0] !in " \t\n\r"
  {
    Signs();
    if digits != "" { assert 0 <= Digit(digits[0]) < 10; }
  }

  lemma FirstIsNoSign(sign: string, digits: string, tail: string)
    requires sign in {"", "+", "-"} && DigitsOnly(digits, 10)
    requires sign == "" && digits == "" && tail != "" ==> tail[0] !in " \t\n\r+-"
    ensures Unsigned(sign + (digits + tail)) == digits + tail
    ensures var t := sign + (digits + tail); (t != "" && t[0] == '-') <==> sign == "-"
  {
    Signs();
    if digits != "" { assert 0 <= Digit(digits[0]) < 10; }
    assert sign != "" ==> (sign + (digits + tail))[1..] == digits + tail;
    assert sign == "" ==> sign + (digits + tail) == digits + tail;
  }

  /** The characters of the two strings the lemmas above use. */
  lemma Signs()
    ensures forall c: char :: c in " \t\n\r" <==> c == ' ' || c == '\t' || c == '\n' || c == '\r'
    ensures forall c: char :: c in " \t\n\r+-" <==> c in " \t\n\r" || c == '+' || c == '-'
  {
    var s, t := " \t\n\r", " \t\n\r+-";
    assert s[0] == ' ' && s[1] == '\t' && s[2] == '\n' && s[3] == '\r';
    assert t[0] == ' ' && t[1] == '\t' && t[2] == '\n' && t[3] == '\r' && t[4] == '+' && t[5] == '-';
  }

  lemma {:induction false} LeadingOfDigits(s: string)
    requires DigitsOnly(s, 10)
    ensures Leading(s) == s
  {
    if s != "" {
      assert 0 <= Digit(s[0]) < 10;
      assert forall i :: 0 <= i < |s| - 1 ==> s[1..][i] == s[i + 1];
      LeadingOfDigits(s[1..]);
    }
  }

  /** Parsing the decimal text of a number gives the number back. */
  lemma AtoiItoa(v: int)
    ensures Parse(Text(v, 10)) == v
    ensures Value(Leading(Unsigned(SkipSpaces(Text(v, 10)))), 10) == if v < 0 then -v else v
  {
    var a := if v < 0 then -v else v;
    var n := Numeral(a, 10);
    NumeralHasValue(a, 10);
    assert 0 <= Digit(n[0]) < 10;
    LeadingOfDigits(n);
    hide Numeral, Leading, Value;
    assert SkipSpaces(Text(v, 10)) == Text(v, 10);
    assert Unsigned(Text(v, 10)) == n;
  }
}
