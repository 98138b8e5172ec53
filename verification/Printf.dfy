/** sprintf and printf of lib/libc/stdio.c against one rendering of the format. */
module Printf {
  import opened Wrappers
  import opened Numerals

  /** An argument: an int (also for %c), or a C string that may be null. */
  datatype Arg = Int(i: int) | Str(s: Option<string>)

  // printf's buffer, without the final NUL.
  const ROOM: nat := 1023

  predicate NoNul(s: string) { '\0' !in s }

  /** A format token: what it consists of, how much format it uses and how many arguments. */
  datatype Token = Token(text: string, width: nat, consumed: nat, unknown: bool)

  predicate IsSpecifier(fmt: string) { |fmt| > 1 && fmt[0] == '%' }

  /** The arguments C's varargs need to find for the first token. */
  predicate Supplies(fmt: string, args: seq<Arg>)
    requires fmt != ""
  {
    IsSpecifier(fmt) ==>
      match fmt[1]
      case 'd' => args != [] && args[0].Int? && -INT_LIMIT < args[0].i < INT_LIMIT
      case 'x' => args != [] && args[0].Int? && 0 <= args[0].i < INT_LIMIT
      case 's' => args != [] && args[0].Str? && (args[0].s.Some? ==> NoNul(args[0].s.value))
      case 'c' => args != [] && args[0].Int?
      case _ => true
  }

  /** (char)i */
  function Char(i: int): char { (i % 0x100) as char }

  function First(fmt: string, args: seq<Arg>): (t: Token)
    requires fmt != "" && Supplies(fmt, args)
    ensures 0 < t.width <= |fmt| && t.consumed <= |args|
    ensures t.unknown ==> |t.text| == 2 && t.text[0] == '%'
  {
    if !IsSpecifier(fmt) then Token(fmt[..1], 1, 0, false) else
      match fmt[1]
      case 'd' => Token(Text(args[0].i, 10), 2, 1, false)
      case 'x' => Token(Text(args[0].i, 16), 2, 1, false)
      case 's' => Token(if args[0].s.Some? then args[0].s.value else "", 2, 1, false)
      case 'c' => Token([Char(args[0].i)], 2, 1, false)
      case '%' => Token("%", 2, 0, false)
      case c => Token(['%', c], 2, 0, true)
  }

  predicate Matches(fmt: string, args: seq<Arg>) {
    fmt != "" ==>
      Supplies(fmt, args) && var t := First(fmt, args); Matches(fmt[t.width..], args[t.consumed..])
  }

  /** The whole output. */
  function Render(fmt: string, args: seq<Arg>): string
    requires Matches(fmt, args)
  {
    if fmt == "" then "" else
      var t := First(fmt, args);
      t.text + Render(fmt[t.width..], args[t.consumed..])
  }

  // ---------------------------------------------------------------- what each specifier is rendered to

  /** One more token in front of a format, with the arguments it takes. */
  lemma RenderFirst(token: string, used: seq<Arg>, fmt: string, args: seq<Arg>)
    requires Matches(fmt, args) && token != "" && Supplies(token + fmt, used + args)
    requires var t := First(token + fmt, used + args); t.width == |token| && t.consumed == |used|
    ensures Matches(token + fmt, used + args)
    ensures Render(token + fmt, used + args) == First(token + fmt, used + args).text + Render(fmt, args)
  {
    hide First, Supplies;
    assert (token + fmt)[|token|..] == fmt && (used + args)[|used|..] == args;
  }

  lemma RenderPlain(c: char, fmt: string, args: seq<Arg>)
    requires Matches(fmt, args) && (c == '%' ==> fmt == "")
    ensures Matches([c] + fmt, args) && Render([c] + fmt, args) == [c] + Render(fmt, args)
  {
    assert ([c] + fmt)[..1] == [c] && [] + args == args;
    hide Render, Matches;
    RenderFirst([c], [], fmt, args);
  }

  lemma RenderNumber(v: int, fmt: string, args: seq<Arg>)
    requires Matches(fmt, args)
    ensures -0x8000_0000 < v < 0x8000_0000 ==>
      Matches("%d" + fmt, [Int(v)] + args)
      && Render("%d" + fmt, [Int(v)] + args)
        == (if v < 0 then "-" + Numeral(-v, 10) else Numeral(v, 10)) + Render(fmt, args)
    ensures 0 <= v < 0x8000_0000 ==>
      Matches("%x" + fmt, [Int(v)] + args)
      && Render("%x" + fmt, [Int(v)] + args) == Numeral(v, 16) + Render(fmt, args)
  {
    hide Render, Matches, Numeral;
    if -0x8000_0000 < v < 0x8000_0000 { RenderFirst("%d", [Int(v)], fmt, args); }
    if 0 <= v < 0x8000_0000 { RenderFirst("%x", [Int(v)], fmt, args); }
  }

  lemma RenderText(text: string, fmt: string, args: seq<Arg>)
    requires Matches(fmt, args) && '\0' !in text
    ensures Matches("%s" + fmt, [Str(Some(text))] + args) && Matches("%s" + fmt, [Str(None)] + args)
    ensures Render("%s" + fmt, [Str(Some(text))] + args) == text + Render(fmt, args)
    ensures Render("%s" + fmt, [Str(None)] + args) == Render(fmt, args)
  {
    hide Render, Matches;
    RenderFirst("%s", [Str(Some(text))], fmt, args);
    RenderFirst("%s", [Str(None)], fmt, args);
  }

  /** %c takes the low eight bits; %% is a percent sign; every other specifier is copied with its '%'. */
  lemma RenderChars(v: int, c: char, fmt: string, args: seq<Arg>)
    requires Matches(fmt, args)
    ensures Matches("%c" + fmt, [Int(v)] + args)
    ensures Render("%c" + fmt, [Int(v)] + args) == [(v % 256) as char] + Render(fmt, args)
    ensures Matches("%%" + fmt, args) && Render("%%" + fmt, args) == "%" + Render(fmt, args)
    ensures c !in "dxsc%" ==>
      Matches(['%', c] + fmt, args) && Render(['%', c] + fmt, args) == ['%', c] + Render(fmt, args)
  {
    hide Render, Matches;
    assert [] + args == args;
    RenderFirst("%c", [Int(v)], fmt, args);
    RenderFirst("%%", [], fmt, args);
    if c !in "dxsc%" {
      assert forall d :: d == 'd' || d == 'x' || d == 's' || d == 'c' || d == '%' ==> d in "dxsc%" by {
        var t := "dxsc%";
        assert t[0] == 'd' && t[1] == 'x' && t[2] == 's' && t[3] == 'c' && t[4] == '%';
      }
      RenderFirst(['%', c], [], fmt, args);
    }
  }

  // ---------------------------------------------------------------- the bounded buffer

  function Prefix(s: string): string { if |s| <= ROOM then s else s[..ROOM] }

  /**
   What printf keeps of a token when out is in the buffer already: as much as fits, except that
   an unknown specifier is kept only whole.
   */
  function Add(out: string, t: Token): string
    requires t.unknown ==> |t.text| == 2
  {
    if t.unknown then (if |out| < ROOM - 1 then out + t.text else out) else Prefix(out + t.text)
  }

  /** What printf hands to syscall_write, starting with out in the buffer. */
  function Bounded(fmt: string, args: seq<Arg>, out: string): (r: string)
    requires Matches(fmt, args) && |out| <= ROOM
    ensures |r| <= ROOM
    decreases |fmt|
  {
    if fmt == "" then out else
      var t := First(fmt, args);
      Bounded(fmt[t.width..], args[t.consumed..], Add(out, t))
  }

  /** The first character that known specifiers and plain text still produce. */
  function NextKnown(fmt: string, args: seq<Arg>): Option<char>
    requires Matches(fmt, args)
  {
    if fmt == "" then None else
      var t := First(fmt, args);
      if !t.unknown && t.text != "" then Some(t.text[0]) else NextKnown(fmt[t.width..], args[t.consumed..])
  }

  /**
   An unknown specifier that starts on the last free place of the buffer is dropped; that shows,
   unless the next character to be written is a '%' too.
   */
  predicate Unsplit(fmt: string, args: seq<Arg>, at: nat)
    requires Matches(fmt, args)
  {
    fmt == "" ||
    var t := First(fmt, args);
    if t.unknown && at == ROOM - 1 then NextKnown(fmt[t.width..], args[t.consumed..]) == Some('%')
    else Unsplit(fmt[t.width..], args[t.consumed..], at + |t.text|)
  }

  predicate KnownOnly(fmt: string, args: seq<Arg>)
    requires Matches(fmt, args)
  {
    fmt == "" || var t := First(fmt, args); !t.unknown && KnownOnly(fmt[t.width..], args[t.consumed..])
  }

  lemma {:induction false} FullStaysFull(fmt: string, args: seq<Arg>, out: string)
    requires Matches(fmt, args) && |out| == ROOM
    ensures Bounded(fmt, args, out) == out
    decreases |fmt|
  {
    if fmt != "" {
      var t := First(fmt, args);
      assert Add(out, t) == out;
      FullStaysFull(fmt[t.width..], args[t.consumed..], out);
    }
  }

  /** One place left: the next known character takes it. */
  lemma {:induction false} LastPlace(fmt: string, args: seq<Arg>, out: string)
    requires Matches(fmt, args) && |out| == ROOM - 1
    ensures Bounded(fmt, args, out) == match NextKnown(fmt, args) case None => out case Some(c) => out + [c]
    decreases |fmt|
  {
    if fmt != "" {
      var t := First(fmt, args);
      if !t.unknown && t.text != "" {
        assert Add(out, t) == out + [t.text[0]];
        FullStaysFull(fmt[t.width..], args[t.consumed..], out + [t.text[0]]);
      } else {
        assert Add(out, t) == out;
        LastPlace(fmt[t.width..], args[t.consumed..], out);
      }
    }
  }

  /** A '%' on the last place is reproduced only by another '%'. */
  lemma SplitShows(fmt: string, args: seq<Arg>, out: string, tail: string)
    requires Matches(fmt, args) && |out| == ROOM - 1 && tail != "" && tail[0] == '%'
    ensures Bounded(fmt, args, out) == Prefix(out + tail) <==> NextKnown(fmt, args) == Some('%')
  {
    LastPlace(fmt, args, out);
    assert Prefix(out + tail) == out + ['%'] && (out + ['%'])[|out|] == '%';
    match NextKnown(fmt, args)
    case None =>
    case Some(c) => assert (out + [c])[|out|] == c;
  }

  lemma {:induction false} PastTheEnd(fmt: string, args: seq<Arg>, at: nat)
    requires Matches(fmt, args) && at >= ROOM
    ensures Unsplit(fmt, args, at)
    decreases |fmt|
  {
    if fmt != "" {
      var t := First(fmt, args);
      PastTheEnd(fmt[t.width..], args[t.consumed..], at + |t.text|);
    }
  }

  /**
   printf writes the first 1023 characters of the rendering exactly when no unknown specifier
   falls on the last place of its buffer without a '%' to follow.
   */
  lemma {:induction false} PrintfIsPrefixIff(fmt: string, args: seq<Arg>, out: string)
    requires Matches(fmt, args) && |out| <= ROOM
    ensures Bounded(fmt, args, out) == Prefix(out + Render(fmt, args)) <==> Unsplit(fmt, args, |out|) || |out| == ROOM
    decreases |fmt|
  {
    if |out| == ROOM {
      FullStaysFull(fmt, args, out);
      assert Prefix(out + Render(fmt, args)) == out;
    } else if fmt == "" {
      assert out + "" == out;
    } else {
      hide First, Supplies, NoNul, Render, Bounded, Unsplit, NextKnown, Prefix, Add;
      OneToken(fmt, args, out);
      var t := First(fmt, args);
      var fmt', args' := fmt[t.width..], args[t.consumed..];
      var rest, all := Render(fmt', args'), out + t.text;
      TokenFits(out, t.text, rest);
      AddIs(out, t);
      if t.unknown && |out| == ROOM - 1 {
        SplitShows(fmt', args', out, t.text + rest);
      } else {
        PrintfIsPrefixIff(fmt', args', Add(out, t));
        PrefixAgain(all, rest);
        if |all| >= ROOM { PastTheEnd(fmt', args', |all|); }
      }
    }
  }

  lemma AddIs(out: string, t: Token)
    requires |out| < ROOM && (t.unknown ==> |t.text| == 2)
    ensures Add(out, t) == if t.unknown && |out| == ROOM - 1 then out else Prefix(out + t.text)
    ensures |Add(out, t)| <= ROOM
  {
  }

  /** Cutting a string off, appending and cutting again is appending and cutting once. */
  lemma PrefixAgain(a: string, rest: string)
    ensures Prefix(Prefix(a) + rest) == Prefix(a + rest)
    ensures if |a| >= ROOM then |Prefix(a)| == ROOM else Prefix(a) == a
  {
    if |a| >= ROOM { assert Prefix(a) == a[..ROOM] == (a + rest)[..ROOM] == (a[..ROOM] + rest)[..ROOM]; }
  }

  /** The definitions, unfolded for the first token. */
  lemma OneToken(fmt: string, args: seq<Arg>, out: string)
    requires fmt != "" && Matches(fmt, args) && |out| < ROOM
    ensures var t := First(fmt, args);
      var fmt', args' := fmt[t.width..], args[t.consumed..];
      && Matches(fmt', args') && Render(fmt, args) == t.text + Render(fmt', args')
      && Bounded(fmt, args, out) == Bounded(fmt', args', Add(out, t))
      && (Unsplit(fmt, args, |out|) <==>
          if t.unknown && |out| == ROOM - 1 then NextKnown(fmt', args') == Some('%')
          else Unsplit(fmt', args', |out| + |t.text|))
  {
    hide First, Supplies, NoNul, NextKnown, Prefix;
  }

  /** A format that shows the difference: 1022 characters, then an unknown specifier. */
  lemma PrintfCanDiffer()
    ensures exists fmt, args :: Matches(fmt, args) && Bounded(fmt, args, "") != Prefix(Render(fmt, args))
  {
    var s := seq(ROOM - 1, i => 'a');
    DropsSpecifier(s);
  }

  lemma DropsSpecifier(s: string)
    requires |s| == ROOM - 1 && NoNul(s)
    ensures Matches("%s%q", [Str(Some(s))])
    ensures Bounded("%s%q", [Str(Some(s))], "") == s && |Render("%s%q", [Str(Some(s))])| == ROOM + 1
  {
    var fmt, args := "%s%q", [Str(Some(s))];
    assert fmt[2..] == "%q" && "%q"[2..] == "";
    assert Matches("%q", []);
    assert Add("", First(fmt, args)) == s;
    LastPlace("%q", [], s);
  }

  lemma {:induction false} KnownOnlyIsUnsplit(fmt: string, args: seq<Arg>, at: nat)
    requires Matches(fmt, args) && KnownOnly(fmt, args)
    ensures Unsplit(fmt, args, at)
    decreases |fmt|
  {
    if fmt != "" {
      var t := First(fmt, args);
      KnownOnlyIsUnsplit(fmt[t.width..], args[t.consumed..], at + |t.text|);
    }
  }

  /** With known specifiers only, printf hands out the first 1023 characters of the rendering. */
  lemma PrintfIsPrefix(fmt: string, args: seq<Arg>)
    requires Matches(fmt, args) && KnownOnly(fmt, args)
    ensures var text := Render(fmt, args); Bounded(fmt, args, "") == if |text| <= 1023 then text else text[..1023]
  {
    KnownOnlyIsUnsplit(fmt, args, 0);
    PrintfIsPrefixIff(fmt, args, "");
    assert "" + Render(fmt, args) == Render(fmt, args);
  }

  // ---------------------------------------------------------------- the loops

  /** while (*src) *dst++ = *src++ */
  method CopyString(dst: array<char>, at: nat, src: string) returns (end: nat)
    requires at + |src| <= dst.Length
    modifies dst
    ensures end == at + |src| && dst[..end] == old(dst[..at]) + src
    ensures forall k :: end <= k < dst.Length ==> dst[k] == old(dst[k])
  {
    end := at;
    var i := 0;
    while i < |src|
      invariant i <= |src| && end == at + i && dst[..end] == old(dst[..at]) + src[..i]
      invariant forall k :: end <= k < dst.Length ==> dst[k] == old(dst[k])
    {
      dst[end] := src[i];
      end := end + 1;
      i := i + 1;
    }
  }

  /** The same loop stopping when the buffer is full. */
  method CopyBounded(dst: array<char>, at: nat, src: string) returns (end: nat)
    requires at <= ROOM < dst.Length
    modifies dst
    ensures end <= ROOM && dst[..end] == Prefix(old(dst[..at]) + src)
  {
    end := at;
    var i := 0;
    while i < |src| && end < ROOM
      invariant i <= |src| && end == at + i <= ROOM && dst[..end] == old(dst[..at]) + src[..i]
    {
      dst[end] := src[i];
      end := end + 1;
      i := i + 1;
    }
  }

  function Pow10(k: nat): nat { if k == 0 then 1 else 10 * Pow10(k - 1) }

  lemma {:induction false} NumeralIsShort(v: nat, base: int, k: nat)
    requires IsBase(base) && base >= 10 && k > 0 && v < Pow10(k)
    ensures |Numeral(v, base)| <= k
    decreases v
  {
    if v >= base {
      QuotientShrinks(v, base);
      assert 10 * (v / base) <= v by { MulAtLeast(v / base, base); }
      assert k > 1 by { assert Pow10(1) == 10; }
      NumeralIsShort(v / base, base, k - 1);
    }
  }

  lemma MulAtLeast(q: nat, base: int)
    requires base >= 10
    ensures q * base >= 10 * q
  {
  }

  lemma NumberText(value: int, base: int)
    requires -INT_LIMIT < value < INT_LIMIT && (base == 10 || (base == 16 && value >= 0))
    ensures |Text(value, base)| <= 11 && NoNul(Text(value, base))
  {
    var v := if value < 0 then -value else value;
    TenDigits();
    hide Pow10, Numeral;
    NumeralIsShort(v, base, 10);
    NumeralHasValue(v, base);
    forall i | 0 <= i < |Numeral(v, base)| ensures Numeral(v, base)[i] != '\0' {
      assert 0 <= Digit(Numeral(v, base)[i]);
    }
  }

  lemma TenDigits()
    ensures Pow10(10) == 10_000_000_000
  {
    assert Pow10(4) == 10_000;
    assert Pow10(7) == 10_000_000;
  }

  /** The number buffer of %d and %x: 32 characters are enough for every int. */
  method Number(value: int, base: int) returns (s: string)
    requires -INT_LIMIT < value < INT_LIMIT && (base == 10 || (base == 16 && value >= 0))
    ensures s == Text(value, base)
  {
    var numStr := new char[32];
    NumberText(value, base);
    Itoa(value, numStr, base);
    var n := 0;
    while numStr[n] != '\0'
      invariant n <= |Text(value, base)|
      decreases |Text(value, base)| - n
    {
      assert numStr[..|Text(value, base)|][n..] != [];
      n := n + 1;
    }
    s := numStr[..n];
  }

  /** The body of the loop of sprintf: write one token. */
  method PutToken(str: array<char>, at: nat, fmt: string, args: seq<Arg>) returns (end: nat, width: nat, consumed: nat)
    requires fmt != "" && Supplies(fmt, args) && at + |First(fmt, args).text| <= str.Length
    modifies str
    ensures var t := First(fmt, args);
      && width == t.width && consumed == t.consumed && end == at + |t.text|
      && str[..end] == old(str[..at]) + t.text
    ensures forall k :: end <= k < str.Length ==> str[k] == old(str[k])
  {
    width, consumed := 1, 0;
    if fmt[0] == '%' && |fmt| > 1 {
      width := 2;
      match fmt[1]
      case 'd' =>
        var numStr := Number(args[0].i, 10);
        end := CopyString(str, at, numStr);
        consumed := 1;
      case 'x' =>
        var numStr := Number(args[0].i, 16);
        end := CopyString(str, at, numStr);
        consumed := 1;
      case 's' =>
        end := at;
        if args[0].s.Some? {
          end := CopyString(str, at, args[0].s.value);
        }
        consumed := 1;
      case 'c' =>
        str[at] := Char(args[0].i);
        end := at + 1;
        consumed := 1;
      case '%' =>
        str[at] := '%';
        end := at + 1;
      case c =>
        str[at] := '%';
        str[at + 1] := c;
        end := at + 2;
    } else {
      str[at] := fmt[0];
      end := at + 1;
    }
  }

  /** sprintf writes exactly the rendering and returns its length; the caller provides the room. */
  method Sprintf(str: array<char>, format: string, args: seq<Arg>) returns (count: nat)
    requires Matches(format, args) && |Render(format, args)| < str.Length
    modifies str
    ensures count == |Render(format, args)| && Holds(str, Render(format, args))
    ensures forall k :: count < k < str.Length ==> str[k] == old(str[k])
  {
    count := 0;
    var fmtPtr, argPtr := format, args;   // what is left of the format and of the arguments
    assert str[..0] + Render(format, args) == Render(format, args);
    hide First, Supplies;
    while fmtPtr != ""
      invariant count <= str.Length && Matches(fmtPtr, argPtr)
      invariant str[..count] + Render(fmtPtr, argPtr) == Render(format, args)
      invariant forall k :: count <= k < str.Length ==> str[k] == old(str[k])
      decreases |fmtPtr|
    {
      var width, consumed;
      ghost var before, t := str[..count], First(fmtPtr, argPtr);
      TokenFits(before, t.text, Render(fmtPtr[t.width..], argPtr[t.consumed..]));
      count, width, consumed := PutToken(str, count, fmtPtr, argPtr);
      fmtPtr, argPtr := fmtPtr[width..], argPtr[consumed..];
    }
    assert str[..count] == Render(format, args);
    str[count] := '\0';
  }

  lemma TokenFits(before: string, text: string, tail: string)
    ensures before + (text + tail) == (before + text) + tail
    ensures |before| + |text| <= |before + (text + tail)|
  {
  }

  /** The body of the loop of printf: write what fits of one token. */
  method PutBounded(buffer: array<char>, at: nat, fmt: string, args: seq<Arg>)
    returns (end: nat, width: nat, consumed: nat)
    requires fmt != "" && Supplies(fmt, args) && at <= ROOM < buffer.Length
    modifies buffer
    ensures var t := First(fmt, args);
      width == t.width && consumed == t.consumed && end <= ROOM && buffer[..end] == Add(old(buffer[..at]), t)
  {
    width, consumed := 1, 0;
    if fmt[0] == '%' && |fmt| > 1 {
      width := 2;
      match fmt[1]
      case 'd' =>
        var numStr := Number(args[0].i, 10);
        end := CopyBounded(buffer, at, numStr);
        consumed := 1;
      case 'x' =>
        var numStr := Number(args[0].i, 16);
        end := CopyBounded(buffer, at, numStr);
        consumed := 1;
      case 's' =>
        end := at;
        if args[0].s.Some? {
          end := CopyBounded(buffer, at, args[0].s.value);
        } else {
          assert buffer[..at] + "" == buffer[..at];
        }
        consumed := 1;
      case 'c' =>
        end := PutChar(buffer, at, Char(args[0].i));
        consumed := 1;
      case '%' =>
        end := PutChar(buffer, at, '%');
      case c =>
        end := at;
        if at < ROOM - 1 {
          buffer[at] := '%';
          buffer[at + 1] := c;
          end := at + 2;
        }
    } else {
      end := PutChar(buffer, at, fmt[0]);
    }
  }

  method PutChar(buffer: array<char>, at: nat, c: char) returns (end: nat)
    requires at <= ROOM < buffer.Length
    modifies buffer
    ensures end <= ROOM && buffer[..end] == Prefix(old(buffer[..at]) + [c])
  {
    end := at;
    if at < ROOM {
      buffer[at] := c;
      end := at + 1;
    }
  }

  /** printf: the text handed to syscall_write and the count returned. */
  method Printf(format: string, args: seq<Arg>) returns (count: nat, written: string)
    requires Matches(format, args)
    ensures written == Bounded(format, args, "") && count == |written|
  {
    var buffer := new char[1024];
    count := 0;
    var fmtPtr, argPtr := format, args;
    while fmtPtr != ""
      invariant count <= ROOM && Matches(fmtPtr, argPtr)
      invariant Bounded(fmtPtr, argPtr, buffer[..count]) == Bounded(format, args, "")
      decreases |fmtPtr|
    {
      var width, consumed;
      count, width, consumed := PutBounded(buffer, count, fmtPtr, argPtr);
      fmtPtr, argPtr := fmtPtr[width..], argPtr[consumed..];
    }
    buffer[count] := '\0';
    written := buffer[..count];
  }
}
