/** The embedded control line "AESDCHAR_IOCSEEKTO:<X>,<Y>" and its parser (server/sock_thread.c). */
module ControlLine {
  import opened Sequences

  const PREFIX: seq<byte> := [65, 69, 83, 68, 67, 72, 65, 82, 95, 73, 79, 67, 83, 69, 69, 75, 84, 79, 58]
  const MIN_PARAM_CHARS: nat := 3
  const COMMA: byte := 44
  const NUL: byte := 0

  /** The request as the driver gets it: two unsigned 32-bit numbers. */
  datatype SeekTo = SeekTo(writeCmd: nat, writeCmdOffset: nat)

  predicate IsDigit(b: byte) { 48 <= b <= 57 }

  predicate IsSpace(b: byte) { b == 32 || 9 <= b <= 13 }

  // ----- atoi

  function SkipSpaces(s: seq<byte>): seq<byte> {
    if s != [] && IsSpace(s[0]) then SkipSpaces(s[1..]) else s
  }

  function Digit(b: byte): (d: nat)
    requires IsDigit(b)
    ensures 0 <= d < 10
  {
    b as int - 48
  }

  /** The number made by `acc` and the digits `s` starts with. */
  function DigitsValue(s: seq<byte>, acc: nat): nat {
    if s != [] && IsDigit(s[0]) then DigitsValue(s[1..], 10 * acc + Digit(s[0])) else acc
  }

  /** Spaces, an optional sign, digits; anything else ends the number. */
  function Atoi(s: seq<byte>): int {
    var t := SkipSpaces(s);
    if t != [] && t[0] == 45 then -(DigitsValue(t[1..], 0) as int)
    else if t != [] && t[0] == 43 then DigitsValue(t[1..], 0)
    else DigitsValue(t, 0)
  }

  /** Conversion of an int to an unsigned 32-bit field. */
  function ToUint32(n: int): (u: nat)
    ensures u < 0x1_0000_0000
  {
    n % 0x1_0000_0000
  }

  /** The scan over memory: `end` is the position of a terminator, and the scan never passes it. */
  method ScanInt(line: array<byte>, start: nat, ghost end: nat) returns (n: int, stop: nat)
    requires start <= end < line.Length && line[end] == NUL
    ensures start <= stop <= end && !IsDigit(line[stop])
    ensures n == Atoi(line[start..end])
  {
    ghost var text := line[start..end];
    stop := start;
    while IsSpace(line[stop])
      invariant start <= stop <= end
      invariant SkipSpaces(text) == SkipSpaces(line[stop..end])
      decreases end - stop
    {
      assert line[stop..end][1..] == line[stop + 1..end];
      stop := stop + 1;
    }
    assert SkipSpaces(text) == line[stop..end];
    var negative := line[stop] == 45;
    if line[stop] == 45 || line[stop] == 43 {
      assert line[stop..end][1..] == line[stop + 1..end];
      stop := stop + 1;
    }
    ghost var digits := line[stop..end];
    var value: nat := 0;
    while IsDigit(line[stop])
      invariant start <= stop <= end
      invariant DigitsValue(digits, 0) == DigitsValue(line[stop..end], value)
      decreases end - stop
    {
      assert line[stop..end][1..] == line[stop + 1..end];
      value := 10 * value + Digit(line[stop]);
      stop := stop + 1;
    }
    n := if negative then -(value as int) else value;
  }

  // ----- The parser

  /** The first position of `b` in `s`, or the length. */
  function IndexOf(s: seq<byte>, b: byte): (i: nat)
    ensures i <= |s|
    ensures forall j :: 0 <= j < i ==> s[j] != b
    ensures i < |s| ==> s[i] == b
  {
    if s == [] || s[0] == b then 0 else 1 + IndexOf(s[1..], b)
  }

  /** What a received line asks for, if it is a control line at all. */
  function ParseCtrl(line: seq<byte>): Option<SeekTo> {
    if |line| < |PREFIX| + MIN_PARAM_CHARS || line[|line| - 1] != NEWLINE then None
    else if !(PREFIX <= line) then None
    else
      var params := line[|PREFIX|..|line| - 1];
      var c := IndexOf(params, COMMA);
      if c == |params| then None
      else Some(SeekTo(ToUint32(Atoi(params[..c])), ToUint32(Atoi(params[c + 1..]))))
  }

  /** The first comma behind the prefix and before the last byte, or the last byte. */
  function FirstComma(line: seq<byte>): (c: nat)
    requires |line| > |PREFIX|
    ensures |PREFIX| <= c < |line|
    ensures forall j :: |PREFIX| <= j < c ==> line[j] != COMMA
    ensures c < |line| - 1 ==> line[c] == COMMA
  {
    var params := line[|PREFIX|..|line| - 1];
    assert forall j :: 0 <= j < |params| ==> params[j] == line[|PREFIX| + j];
    assert forall j :: |PREFIX| <= j < |PREFIX| + IndexOf(params, COMMA) ==> line[j] == params[j - |PREFIX|];
    |PREFIX| + IndexOf(params, COMMA)
  }

  /** A rejected line is left byte for byte as it was received; an accepted one has a terminator in place of
      its first comma and of its newline, and both numbers are scanned between those. */
  method ParseCtrlLine(line: array<byte>, size: nat) returns (seekTo: Option<SeekTo>)
    requires size <= line.Length
    modifies line
    ensures seekTo == ParseCtrl(old(line[..size]))
    ensures seekTo.None? ==> line[..] == old(line[..])
    ensures seekTo.Some? ==>
      var c := FirstComma(old(line[..size]));
      c < size - 1 && line[..] == old(line[..])[c := NUL][size - 1 := NUL]
  {
    ghost var text := line[..size];
    if size < |PREFIX| + MIN_PARAM_CHARS || line[size - 1] != NEWLINE {
      return None;
    }
    assert text[..|PREFIX|] == line[..|PREFIX|];
    if line[..|PREFIX|] != PREFIX {
      return None;
    }
    assert text[..|PREFIX|] == PREFIX;
    var comma := FindComma(line, |PREFIX|, size);
    assert forall j :: 0 <= j < size ==> text[j] == line[j];
    ParseAt(text, comma);
    if comma == size {
      return None;
    }
    var writeCmd, writeCmdOffset := ScanParams(line, comma, size);
    assert line[..] == old(line[..])[comma := NUL][size - 1 := NUL];
    return Some(SeekTo(ToUint32(writeCmd), ToUint32(writeCmdOffset)));
  }

  /** Terminates both parameters in place and scans them. */
  method ScanParams(line: array<byte>, comma: nat, size: nat) returns (x: int, y: int)
    requires |PREFIX| <= comma < size - 1 < line.Length
    modifies line
    ensures line[..] == old(line[..])[comma := NUL][size - 1 := NUL]
    ensures x == Atoi(old(line[..size])[|PREFIX|..comma])
    ensures y == Atoi(old(line[..size])[comma + 1..size - 1])
  {
    ghost var text := line[..size];
    line[comma] := NUL;
    line[size - 1] := NUL;
    assert line[|PREFIX|..comma] == text[|PREFIX|..comma];
    assert line[comma + 1..size - 1] == text[comma + 1..size - 1];
    var stop;
    x, stop := ScanInt(line, |PREFIX|, comma);
    y, stop := ScanInt(line, comma + 1, size - 1);
  }

  /** What the position of the first comma decides. */
  lemma ParseAt(text: seq<byte>, comma: nat)
    requires |text| >= |PREFIX| + MIN_PARAM_CHARS && text[|text| - 1] == NEWLINE && text[..|PREFIX|] == PREFIX
    requires |PREFIX| <= comma <= |text|
    requires forall j :: |PREFIX| <= j < comma ==> text[j] != COMMA
    requires comma < |text| ==> text[comma] == COMMA
    ensures comma == |text| ==> ParseCtrl(text).None?
    ensures comma < |text| ==>
      && comma < |text| - 1
      && comma == FirstComma(text)
      && ParseCtrl(text) ==
          Some(SeekTo(ToUint32(Atoi(text[|PREFIX|..comma])), ToUint32(Atoi(text[comma + 1..|text| - 1]))))
  {
    var params := text[|PREFIX|..|text| - 1];
    FirstIndex(params, COMMA, if comma == |text| then |params| else comma - |PREFIX|);
    if comma < |text| {
      assert params[..comma - |PREFIX|] == text[|PREFIX|..comma];
      assert params[comma - |PREFIX| + 1..] == text[comma + 1..|text| - 1];
    }
  }

  /** memchr: the first comma from `start` on, or `size`. */
  method FindComma(line: array<byte>, start: nat, size: nat) returns (comma: nat)
    requires start <= size <= line.Length
    ensures start <= comma <= size
    ensures forall j :: start <= j < comma ==> line[j] != COMMA
    ensures comma < size ==> line[comma] == COMMA
  {
    comma := start;
    while comma < size && line[comma] != COMMA
      invariant start <= comma <= size
      invariant forall j :: start <= j < comma ==> line[j] != COMMA
    {
      comma := comma + 1;
    }
  }

  lemma FirstIndex(s: seq<byte>, b: byte, i: nat)
    requires i <= |s| && (forall j :: 0 <= j < i ==> s[j] != b) && (i < |s| ==> s[i] == b)
    ensures IndexOf(s, b) == i
  {
  }

  // ----- Which lines are control lines, and what they ask for

  /** These bytes are the characters of this text. */
  predicate Spells(bytes: seq<byte>, text: string) {
    |bytes| == |text| && forall i :: 0 <= i < |text| ==> bytes[i] as int == text[i] as int
  }

  /** Exactly the lines of at least 22 bytes that start with this text, have a comma after it and end in a newline
      are control lines. */
  lemma ControlLineIff(line: seq<byte>)
    ensures ParseCtrl(line).Some? <==>
      && |line| >= 22 && line[|line| - 1] as int == '\n' as int
      && Spells(line[..19], "AESDCHAR_IOCSEEKTO:")
      && exists j :: 19 <= j < |line| - 1 && line[j] as int == ',' as int
  {
    PrefixSpells();
    if |line| >= 22 {
      SameSpelling(line[..19], PREFIX, "AESDCHAR_IOCSEEKTO:");
      var params := line[19..|line| - 1];
      assert forall j :: 19 <= j < |line| - 1 ==> line[j] == params[j - 19];
      if IndexOf(params, COMMA) < |params| {
        assert line[19 + IndexOf(params, COMMA)] == COMMA;
      }
    }
  }

  lemma PrefixSpells()
    ensures Spells(PREFIX, "AESDCHAR_IOCSEEKTO:")
  {
  }

  lemma SameSpelling(a: seq<byte>, b: seq<byte>, text: string)
    requires Spells(b, text)
    ensures Spells(a, text) <==> a == b
  {
  }

  /** A line that differs from that text anywhere is an ordinary line. */
  lemma OrdinaryLine(line: seq<byte>, i: nat)
    requires i < 19 && i < |line| && line[i] as int != ("AESDCHAR_IOCSEEKTO:")[i] as int
    ensures ParseCtrl(line).None?
  {
    ControlLineIff(line);
    if |line| >= 22 {
      assert line[..19][i] == line[i];
    }
  }

  /** What a control line asks for: the numbers before and after its first comma. */
  lemma FirstCommaDivides(text: seq<byte>, a: seq<byte>, b: seq<byte>)
    requires Spells(text, "AESDCHAR_IOCSEEKTO:") && |a| + |b| > 0 && COMMA !in a
    ensures ParseCtrl(text + a + [COMMA] + b + [NEWLINE]) == Some(SeekTo(ToUint32(Atoi(a)), ToUint32(Atoi(b))))
  {
    PrefixSpells();
    SameSpelling(text, PREFIX, "AESDCHAR_IOCSEEKTO:");
    ParseSplits(a, b);
  }

  lemma ParseSplits(a: seq<byte>, b: seq<byte>)
    requires |a| + |b| > 0 && COMMA !in a
    ensures ParseCtrl(PREFIX + a + [COMMA] + b + [NEWLINE]) == Some(SeekTo(ToUint32(Atoi(a)), ToUint32(Atoi(b))))
  {
    var params := a + [COMMA] + b;
    var line := PREFIX + a + [COMMA] + b + [NEWLINE];
    assert line == PREFIX + (params + [NEWLINE]);
    assert line[|PREFIX|..|line| - 1] == params;
    FirstIndex(params, COMMA, |a|);
    assert params[..|a|] == a && params[|a| + 1..] == b;
  }

  /** The unsigned value of an int: negative numbers count down from 2^32. */
  lemma ToUint32OfInt(n: int)
    requires -0x8000_0000 <= n < 0x8000_0000
    ensures ToUint32(n) == if n >= 0 then n else n + 0x1_0000_0000
  {
  }

  // ----- Printing

  function Decimal(n: nat): seq<byte> {
    if n < 10 then [48 + n as byte] else Decimal(n / 10) + [48 + (n % 10) as byte]
  }

  lemma {:induction false} DecimalIsDigits(n: nat)
    ensures |Decimal(n)| > 0 && forall i :: 0 <= i < |Decimal(n)| ==> IsDigit(Decimal(n)[i])
  {
    if n >= 10 {
      DecimalIsDigits(n / 10);
    }
  }

  lemma {:induction false} DigitsValueSnoc(s: seq<byte>, d: byte, acc: nat)
    requires (forall i :: 0 <= i < |s| ==> IsDigit(s[i])) && IsDigit(d)
    ensures DigitsValue(s + [d], acc) == 10 * DigitsValue(s, acc) + Digit(d)
  {
    if s != [] {
      assert (s + [d])[1..] == s[1..] + [d];
      DigitsValueSnoc(s[1..], d, 10 * acc + Digit(s[0]));
    }
  }

  lemma {:induction false} AtoiInvertsDecimal(n: nat)
    ensures DigitsValue(Decimal(n), 0) == n
    ensures Atoi(Decimal(n)) == n
  {
    if n >= 10 {
      AtoiInvertsDecimal(n / 10);
      DecimalIsDigits(n / 10);
      DigitsValueSnoc(Decimal(n / 10), 48 + (n % 10) as byte, 0);
    }
    DecimalIsDigits(n);
  }

  predicate AllSpaces(s: seq<byte>) {
    forall i :: 0 <= i < |s| ==> IsSpace(s[i])
  }

  /** The scan stops at the first byte that is not a digit. */
  lemma {:induction false} DigitsValueStops(s: seq<byte>, rest: seq<byte>, acc: nat)
    requires forall i :: 0 <= i < |s| ==> IsDigit(s[i])
    requires rest == [] || !IsDigit(rest[0])
    ensures DigitsValue(s + rest, acc) == DigitsValue(s, acc)
  {
    if s == [] {
      assert s + rest == rest;
    } else {
      assert (s + rest)[1..] == s[1..] + rest;
      DigitsValueStops(s[1..], rest, 10 * acc + Digit(s[0]));
    }
  }

  lemma {:induction false} SpacesAreSkipped(spaces: seq<byte>, rest: seq<byte>)
    requires AllSpaces(spaces)
    ensures SkipSpaces(spaces + rest) == SkipSpaces(rest)
  {
    if spaces == [] {
      assert spaces + rest == rest;
    } else {
      assert (spaces + rest)[1..] == spaces[1..] + rest;
      SpacesAreSkipped(spaces[1..], rest);
    }
  }

  /** What is read: after any spaces an optional sign, then digits up to the first byte that is none. */
  lemma AtoiReads(spaces: seq<byte>, sign: seq<byte>, n: nat, rest: seq<byte>)
    requires AllSpaces(spaces) && (sign == [] || sign == ['-' as int as byte] || sign == ['+' as int as byte])
    requires rest == [] || !IsDigit(rest[0])
    ensures Atoi(spaces + (sign + (Decimal(n) + rest))) == if sign == ['-' as int as byte] then -(n as int) else n
  {
    var number := sign + (Decimal(n) + rest);
    DecimalIsDigits(n);
    SpacesAreSkipped(spaces, number);
    assert SkipSpaces(number) == number;
    if sign == [] {
      assert number == Decimal(n) + rest;
    } else {
      assert number[1..] == Decimal(n) + rest;
    }
    DigitsValueStops(Decimal(n), rest, 0);
    AtoiInvertsDecimal(n);
  }

  /** Without digits the number is zero. */
  lemma AtoiOfNothing(spaces: seq<byte>, rest: seq<byte>)
    requires AllSpaces(spaces)
    requires rest == [] || (!IsSpace(rest[0]) && !IsDigit(rest[0]) && rest[0] != 43 && rest[0] != 45)
    ensures Atoi(spaces + rest) == 0
  {
    SpacesAreSkipped(spaces, rest);
  }

  function PrintCtrl(x: nat, y: nat): seq<byte> {
    PREFIX + Decimal(x) + [COMMA] + Decimal(y) + [NEWLINE]
  }

  /** Printing a request and parsing it back yields the request, for all numbers an `int` can hold. */
  lemma ParseInvertsPrint(x: nat, y: nat)
    requires x < 0x8000_0000 && y < 0x8000_0000
    ensures ParseCtrl(PrintCtrl(x, y)) == Some(SeekTo(x, y))
  {
    DecimalIsDigits(x);
    DecimalIsDigits(y);
    ParseSplits(Decimal(x), Decimal(y));
    AtoiInvertsDecimal(x);
    AtoiInvertsDecimal(y);
    var line := PrintCtrl(x, y);
    assert line == PREFIX + Decimal(x) + [COMMA] + Decimal(y) + [NEWLINE];
  }
}
