/**
 * The string helpers the puzzle programs take from JavaScript: `split` on one
 * separator character, `startsWith`, `trim`, `parseInt` with radix 10 and
 * without a radix, and number-to-decimal conversion. Strings are `seq<char>`.
 */
module Text {
  import opened Wrappers

  /** `s.startsWith(prefix)` */
  predicate StartsWith(s: string, prefix: string) {
    |prefix| <= |s| && s[..|prefix|] == prefix
  }

  /** Index of the first occurrence of `c` in `s` (the source's `indexOf`, known to succeed). */
  function FirstIndex(s: string, c: char): (i: nat)
    requires c in s
    ensures i < |s| && s[i] == c && c !in s[..i]
  {
    if s[0] == c then 0 else 1 + FirstIndex(s[1..], c)
  }

  /** `s.split(sep)`: the pieces between the separators, empty pieces kept. */
  function Split(s: string, sep: char): (parts: seq<string>)
    ensures |parts| >= 1
    ensures forall k :: 0 <= k < |parts| ==> sep !in parts[k]
    decreases |s|
  {
    if sep !in s then [s]
    else
      var i := FirstIndex(s, sep);
      [s[..i]] + Split(s[i + 1..], sep)
  }

  /** The first piece of a split starts where the string does, unless the string starts with the separator. */
  lemma FirstPieceStart(s: string, sep: char)
    requires s != [] && s[0] != sep
    ensures Split(s, sep)[0] != [] && Split(s, sep)[0][0] == s[0]
  {
  }

  /** `parts.join(sep)`, the inverse of `Split`. */
  function Join(parts: seq<string>, sep: char): string
    requires |parts| >= 1
  {
    if |parts| == 1 then parts[0] else parts[0] + [sep] + Join(parts[1..], sep)
  }

  /** Splitting and joining again gives back the original string. */
  lemma {:induction false} JoinSplit(s: string, sep: char)
    ensures Join(Split(s, sep), sep) == s
    decreases |s|
  {
    if sep in s {
      var i := FirstIndex(s, sep);
      var rest := Split(s[i + 1..], sep);
      assert Split(s, sep) == [s[..i]] + rest;
      JoinSplit(s[i + 1..], sep);
      assert Join([s[..i]] + rest, sep) == s[..i] + [sep] + Join(rest, sep);
      assert s == s[..i] + [sep] + s[i + 1..];
    }
  }

  lemma FirstIndexAfter(a: string, sep: char, b: string)
    requires sep !in a
    ensures sep in a + [sep] + b && FirstIndex(a + [sep] + b, sep) == |a|
  {
    var s := a + [sep] + b;
    assert s[|a|] == sep;
    assert s[..|a|] == a;
  }

  /** Splitting at a first separator gives the piece before it, then the pieces of the rest. */
  lemma SplitCons(a: string, sep: char, rest: string)
    requires sep !in a
    ensures Split(a + [sep] + rest, sep) == [a] + Split(rest, sep)
  {
    var s := a + [sep] + rest;
    FirstIndexAfter(a, sep, rest);
    assert s[..|a|] == a;
    assert s[|a| + 1..] == rest;
  }

  /** Joining pieces free of the separator and splitting again gives back the pieces. */
  lemma {:induction false} SplitJoin(parts: seq<string>, sep: char)
    requires |parts| >= 1
    requires forall k :: 0 <= k < |parts| ==> sep !in parts[k]
    ensures Split(Join(parts, sep), sep) == parts
    decreases |parts|
  {
    if |parts| > 1 {
      var tail := parts[1..];
      assert forall k :: 0 <= k < |tail| ==> tail[k] == parts[k + 1];
      SplitJoin(tail, sep);
      SplitCons(parts[0], sep, Join(tail, sep));
      assert parts == [parts[0]] + tail;
    }
  }

  /** Joining one more piece adds the separator and the piece at the end. */
  lemma {:induction false} JoinAppend(parts: seq<string>, last: string, sep: char)
    requires |parts| >= 1
    ensures Join(parts + [last], sep) == Join(parts, sep) + [sep] + last
    decreases |parts|
  {
    if |parts| > 1 {
      JoinAppend(parts[1..], last, sep);
      assert (parts + [last])[1..] == parts[1..] + [last];
    } else {
      assert (parts + [last])[1..] == [last];
    }
  }

  predicate IsDigit(c: char) {
    '0' <= c <= '9'
  }

  function DigitValue(c: char): (d: nat)
    requires IsDigit(c)
    ensures d < 10
  {
    c as int - '0' as int
  }

  function DigitChar(d: nat): (c: char)
    requires d < 10
    ensures IsDigit(c) && DigitValue(c) == d
  {
    ('0' as int + d) as char
  }

  /** Number of leading decimal digits of `s`. */
  function DigitPrefix(s: string): (n: nat)
    ensures n <= |s|
    ensures forall k :: 0 <= k < n ==> IsDigit(s[k])
    ensures n < |s| ==> !IsDigit(s[n])
  {
    if s == [] || !IsDigit(s[0]) then 0 else 1 + DigitPrefix(s[1..])
  }

  /** The value of a string of decimal digits, most significant first. */
  function DigitsValue(d: string): nat
    requires forall k :: 0 <= k < |d| ==> IsDigit(d[k])
  {
    if d == [] then 0 else 10 * DigitsValue(d[..|d| - 1]) + DigitValue(d[|d| - 1])
  }

  /** `s` without an optional leading sign. */
  function Unsigned(s: string): (t: string)
    ensures |t| <= |s|
  {
    if s != [] && (s[0] == '-' || s[0] == '+') then s[1..] else s
  }

  /**
   * `parseInt(s, 10)`: leading white space skipped, then an optional sign and
   * the value of the leading digits; `None` stands for NaN (no digits at all).
   */
  function ParseInt(s: string): (r: Option<int>)
    ensures var u := s[LeadingSpaces(s)..];
            r.Some? <==> DigitPrefix(Unsigned(u)) > 0
    ensures r.Some? && LeadingSpaces(s) < |s| && s[LeadingSpaces(s)] != '-' ==> r.value >= 0
  {
    var u := s[LeadingSpaces(s)..];
    var negative := u != [] && u[0] == '-';
    var t := Unsigned(u);
    var n := DigitPrefix(t);
    if n == 0 then None
    else
      var v: int := DigitsValue(t[..n]);
      Some(if negative then -v else v)
  }

  /** White space before the number does not change what `parseInt` reads. */
  lemma ParseIntSkipsSpace(c: char, s: string)
    requires IsSpace(c)
    ensures ParseInt([c] + s) == ParseInt(s)
  {
    var cs := [c] + s;
    assert cs[1..] == s;
    assert LeadingSpaces(cs) == 1 + LeadingSpaces(s);
    assert cs[LeadingSpaces(cs)..] == s[LeadingSpaces(s)..];
  }

  /** `${n}` for a natural number: its decimal digits, no leading zero. */
  function NatToString(n: nat): (s: string)
    ensures |s| >= 1
    ensures forall k :: 0 <= k < |s| ==> IsDigit(s[k])
    ensures |s| > 1 ==> s[0] != '0'
  {
    if n < 10 then [DigitChar(n)] else NatToString(n / 10) + [DigitChar(n % 10)]
  }

  lemma {:induction false} DigitsValueOfNatToString(n: nat)
    ensures DigitsValue(NatToString(n)) == n
  {
    if n >= 10 {
      DigitsValueOfNatToString(n / 10);
      var s := NatToString(n);
      assert s[..|s| - 1] == NatToString(n / 10);
    }
  }

  /** Printing a number and parsing it back gives the number. */
  lemma ParseIntNatToString(n: nat)
    ensures ParseInt(NatToString(n)) == Some(n)
  {
    var s := NatToString(n);
    NoSpaceInDigits(s);
    assert DigitPrefix(s) == |s| by {
      DigitPrefixAllDigits(s);
    }
    assert s[..|s|] == s;
    DigitsValueOfNatToString(n);
  }

  /** `${i}` for an integer: a minus sign before the digits of a negative number. */
  function IntToString(i: int): (s: string)
    ensures |s| >= 1 && ' ' !in s
  {
    if i < 0 then "-" + NatToString(-i) else NatToString(i)
  }

  /** Printing an integer and parsing it back gives the integer. */
  lemma ParseIntIntToString(i: int)
    ensures ParseInt(IntToString(i)) == Some(i)
  {
    if i < 0 {
      var d := NatToString(-i);
      var s := "-" + d;
      assert LeadingSpaces(s) == 0;
      assert s[1..] == d;
      DigitPrefixAllDigits(d);
      assert d[..|d|] == d;
      DigitsValueOfNatToString(-i);
    } else {
      ParseIntNatToString(i);
    }
  }

  lemma NoSpaceInDigits(s: string)
    requires forall k :: 0 <= k < |s| ==> IsDigit(s[k])
    ensures LeadingSpaces(s) == 0 && s[LeadingSpaces(s)..] == s
  {
  }

  lemma {:induction false} DigitPrefixAllDigits(s: string)
    requires forall k :: 0 <= k < |s| ==> IsDigit(s[k])
    ensures DigitPrefix(s) == |s|
  {
    if s != [] {
      DigitPrefixAllDigits(s[1..]);
    }
  }

  predicate IsHexDigit(c: char) {
    IsDigit(c) || 'a' <= c <= 'f' || 'A' <= c <= 'F'
  }

  function HexDigitValue(c: char): (d: nat)
    requires IsHexDigit(c)
    ensures d < 16
    ensures IsDigit(c) ==> d == DigitValue(c)
  {
    if IsDigit(c) then DigitValue(c)
    else if 'a' <= c <= 'f' then c as int - 'a' as int + 10
    else c as int - 'A' as int + 10
  }

  /** Number of leading hexadecimal digits of `s`. */
  function HexPrefix(s: string): (n: nat)
    ensures n <= |s|
    ensures forall k :: 0 <= k < n ==> IsHexDigit(s[k])
    ensures n < |s| ==> !IsHexDigit(s[n])
  {
    if s == [] || !IsHexDigit(s[0]) then 0 else 1 + HexPrefix(s[1..])
  }

  /** The value of a string of hexadecimal digits, most significant first. */
  function HexDigitsValue(d: string): nat
    requires forall k :: 0 <= k < |d| ==> IsHexDigit(d[k])
  {
    if d == [] then 0 else 16 * HexDigitsValue(d[..|d| - 1]) + HexDigitValue(d[|d| - 1])
  }

  /** Whether unsigned text starts with the prefix `0x` or `0X`. */
  predicate HexPrefixed(t: string) {
    |t| >= 2 && t[0] == '0' && (t[1] == 'x' || t[1] == 'X')
  }

  /**
   * `parseInt(s)` without a radix: after white space and an optional sign, a
   * `0x` or `0X` prefix makes the digits hexadecimal, and otherwise they are
   * decimal as for `parseInt(s, 10)`. A prefix with no hexadecimal digit after
   * it gives NaN (`None`).
   */
  function ParseIntAuto(s: string): (r: Option<int>)
    ensures var t := Unsigned(s[LeadingSpaces(s)..]);
            !HexPrefixed(t) ==> r == ParseInt(s)
    ensures var t := Unsigned(s[LeadingSpaces(s)..]);
            HexPrefixed(t) ==> (r.Some? <==> HexPrefix(t[2..]) > 0)
    ensures r.Some? && LeadingSpaces(s) < |s| && s[LeadingSpaces(s)] != '-' ==> r.value >= 0
  {
    var u := s[LeadingSpaces(s)..];
    var t := Unsigned(u);
    if !HexPrefixed(t) then ParseInt(s)
    else SignedHex(u[0] == '-', t[2..])
  }

  /** The hexadecimal digits `h` starts with, negated or not; `None` when there are none. */
  function SignedHex(negative: bool, h: string): (r: Option<int>)
    ensures r.Some? <==> HexPrefix(h) > 0
    ensures r.Some? && !negative ==> r.value >= 0
  {
    var n := HexPrefix(h);
    if n == 0 then None
    else
      var v: int := HexDigitsValue(h[..n]);
      Some(if negative then -v else v)
  }

  lemma {:induction false} HexPrefixAllDigits(s: string)
    requires forall k :: 0 <= k < |s| ==> IsHexDigit(s[k])
    ensures HexPrefix(s) == |s|
  {
    if s != [] {
      HexPrefixAllDigits(s[1..]);
    }
  }

  /** The hexadecimal case of `ParseIntAuto`, for text without leading white space. */
  lemma ParseIntAutoHexCase(s: string, h: string)
    requires LeadingSpaces(s) == 0 && HexPrefixed(Unsigned(s)) && Unsigned(s)[2..] == h
    requires h != [] && forall k :: 0 <= k < |h| ==> IsHexDigit(h[k])
    ensures var v: int := HexDigitsValue(h);
            ParseIntAuto(s) == Some(if s[0] == '-' then -v else v)
  {
    assert s[0..] == s;
    assert ParseIntAuto(s) == SignedHex(s[0] == '-', h);
    HexPrefixAllDigits(h);
    assert h[..|h|] == h;
  }

  /** `0x` or `0X` followed by hexadecimal digits reads as their hexadecimal value. */
  lemma ParseIntAutoHex(x: char, h: string)
    requires x == 'x' || x == 'X'
    requires h != [] && forall k :: 0 <= k < |h| ==> IsHexDigit(h[k])
    ensures var v: int := HexDigitsValue(h);
            ParseIntAuto(['0', x] + h) == Some(v)
  {
    var t := ['0', x] + h;
    assert t[2..] == h;
    assert t[0] == '0';
    assert LeadingSpaces(t) == 0;
    assert Unsigned(t) == t;
    ParseIntAutoHexCase(t, h);
  }

  /** With a minus sign in front, the hexadecimal value is negated. */
  lemma ParseIntAutoNegativeHex(x: char, h: string)
    requires x == 'x' || x == 'X'
    requires h != [] && forall k :: 0 <= k < |h| ==> IsHexDigit(h[k])
    ensures var v: int := HexDigitsValue(h);
            ParseIntAuto(['-', '0', x] + h) == Some(-v)
  {
    NegativeHexShape(x, h);
    ParseIntAutoHexCase(['-', '0', x] + h, h);
  }

  lemma NegativeHexShape(x: char, h: string)
    requires x == 'x' || x == 'X'
    ensures var s := ['-', '0', x] + h;
            LeadingSpaces(s) == 0 && s[0] == '-' && HexPrefixed(Unsigned(s)) && Unsigned(s)[2..] == h
  {
    var s := ['-', '0', x] + h;
    assert s[1..] == ['0', x] + h;
    assert (['0', x] + h)[2..] == h;
  }

  /** Without a radix, a printed integer still reads back as itself: decimal digits never start with `0x`. */
  lemma ParseIntAutoIntToString(i: int)
    ensures ParseIntAuto(IntToString(i)) == Some(i)
  {
    var s := IntToString(i);
    var d := NatToString(if i < 0 then -i else i);
    assert LeadingSpaces(s) == 0 by {
      assert s[0] == '-' || IsDigit(s[0]);
    }
    assert s[0..] == s;
    assert Unsigned(s) == d;
    assert IsDigit(d[|d| - 1]);
    assert !HexPrefixed(d) by {
      if |d| >= 2 {
        assert IsDigit(d[1]);
      }
    }
    ParseIntIntToString(i);
  }

  /** The white-space characters `trim` removes (the ASCII ones). */
  predicate IsSpace(c: char) {
    c == ' ' || c == '\t' || c == '\n' || c == '\r' || c as int == 11 || c as int == 12
  }

  /** The number of white-space characters `s` starts with. */
  function LeadingSpaces(s: string): (n: nat)
    ensures n <= |s|
    ensures forall k :: 0 <= k < n ==> IsSpace(s[k])
    ensures n < |s| ==> !IsSpace(s[n])
  {
    if s == [] || !IsSpace(s[0]) then 0 else 1 + LeadingSpaces(s[1..])
  }

  /** The number of white-space characters `s` ends with. */
  function TrailingSpaces(s: string): (n: nat)
    ensures n <= |s|
    ensures forall k :: |s| - n <= k < |s| ==> IsSpace(s[k])
    ensures n < |s| ==> !IsSpace(s[|s| - n - 1])
  {
    if s == [] || !IsSpace(s[|s| - 1]) then 0 else 1 + TrailingSpaces(s[..|s| - 1])
  }

  /** `s.trim()`: white space removed from both ends. */
  function Trim(s: string): (r: string)
    ensures r == [] <==> forall k :: 0 <= k < |s| ==> IsSpace(s[k])
    ensures r != [] ==> !IsSpace(r[0]) && !IsSpace(r[|r| - 1])
  {
    var lead := LeadingSpaces(s);
    if lead == |s| then []
    else
      var trail := TrailingSpaces(s);
      assert lead < |s| - trail;
      s[lead..|s| - trail]
  }

  /** The positions of the non-blank lines, in increasing order. */
  function NonBlankIndices(lines: seq<string>): (idx: seq<nat>)
    ensures forall k :: 0 <= k < |idx| ==> idx[k] < |lines| && lines[idx[k]] != ""
    ensures forall k, l :: 0 <= k < l < |idx| ==> idx[k] < idx[l]
    ensures forall i :: 0 <= i < |lines| && lines[i] != "" ==> i in idx
  {
    if lines == [] then []
    else
      var n := |lines| - 1;
      if lines[n] == "" then NonBlankIndices(lines[..n]) else NonBlankIndices(lines[..n]) + [n]
  }

  /** The non-blank lines, in order (the lines the puzzle programs do not `continue` past). */
  function NonBlank(lines: seq<string>): (r: seq<string>)
    ensures |r| <= |lines|
    ensures forall line :: line in r <==> line in lines && line != ""
  {
    if lines == [] then []
    else if lines[|lines| - 1] == "" then NonBlank(lines[..|lines| - 1])
    else NonBlank(lines[..|lines| - 1]) + [lines[|lines| - 1]]
  }

  /** The kept lines are the lines at the positions of the non-blank ones, in order. */
  lemma {:induction false} NonBlankInOrder(lines: seq<string>)
    ensures |NonBlank(lines)| == |NonBlankIndices(lines)|
    ensures forall k :: 0 <= k < |NonBlank(lines)| ==> NonBlank(lines)[k] == lines[NonBlankIndices(lines)[k]]
  {
    if lines != [] {
      NonBlankInOrder(lines[..|lines| - 1]);
    }
  }
}
