/**
 * The pieces of java.lang.String and java.lang.Integer behaviour that the
 * book manager relies on: String.trim, string concatenation of an int
 * (Integer.toString), and splitting a text at a separator character, which
 * is how the properties of the rendered strings are stated.
 */
module Strings {
  import opened Wrappers

  // ---------------------------------------------------------------------------
  // String.trim
  // ---------------------------------------------------------------------------

  /** String.trim removes every leading and trailing character whose code is at most U+0020. */
  predicate IsBlank(c: char) {
    c <= ' '
  }

  /** The index of the first character of `s` that is not blank, or |s|. */
  function FirstNonBlank(s: string): (i: nat)
    ensures i <= |s|
    ensures forall k :: 0 <= k < i ==> IsBlank(s[k])
    ensures i < |s| ==> !IsBlank(s[i])
  {
    if s != [] && IsBlank(s[0]) then 1 + FirstNonBlank(s[1..]) else 0
  }

  /** One past the index of the last character of `s` that is not blank, or 0. */
  function EndNonBlank(s: string): (j: nat)
    ensures j <= |s|
    ensures forall k :: j <= k < |s| ==> IsBlank(s[k])
    ensures j > 0 ==> !IsBlank(s[j - 1])
  {
    if s != [] && IsBlank(s[|s| - 1]) then EndNonBlank(s[..|s| - 1]) else |s|
  }

  /** The trimmed text is the infix of `s` left after removing the blank margins. */
  function Trim(s: string): (r: string)
    ensures var i := FirstNonBlank(s);
              i + |r| <= |s| && r == s[i..i + |r|]
              && (forall k :: i + |r| <= k < |s| ==> IsBlank(s[k]))
    ensures r != [] ==> !IsBlank(r[0]) && !IsBlank(r[|r| - 1])
    ensures r == [] <==> forall k :: 0 <= k < |s| ==> IsBlank(s[k])
  {
    var i := FirstNonBlank(s);
    var j := EndNonBlank(s);
    if j <= i then
      assert forall k :: 0 <= k < |s| ==> IsBlank(s[k]) by {
        forall k | 0 <= k < |s| ensures IsBlank(s[k]) {
          if k >= i { assert k >= j; }
        }
      }
      []
    else
      s[i..j]
  }

  // ---------------------------------------------------------------------------
  // Splitting and joining at a separator character
  // ---------------------------------------------------------------------------

  /** The first position of `c` in `s`, if any. */
  function IndexOf(s: string, c: char): (r: Option<nat>)
    ensures r.Some? ==> r.value < |s| && s[r.value] == c && c !in s[..r.value]
    ensures r.None? <==> c !in s
  {
    if s == [] then None
    else if s[0] == c then Some(0)
    else match IndexOf(s[1..], c)
      case None => None
      case Some(i) => Some(i + 1)
  }

  /** The parts of `s` between occurrences of `sep`; there is always at least one. */
  function Split(s: string, sep: char): (parts: seq<string>)
    ensures |parts| >= 1
    ensures forall k :: 0 <= k < |parts| ==> sep !in parts[k]
    decreases |s|
  {
    match IndexOf(s, sep)
    case None => [s]
    case Some(i) => [s[..i]] + Split(s[i + 1..], sep)
  }

  /** The parts written one after another with `sep` between neighbours. */
  function Join(parts: seq<string>, sep: char): string
  {
    if |parts| == 0 then ""
    else if |parts| == 1 then parts[0]
    else parts[0] + [sep] + Join(parts[1..], sep)
  }

  lemma JoinCons(p: string, rest: seq<string>, sep: char)
    requires rest != []
    ensures Join([p] + rest, sep) == p + [sep] + Join(rest, sep)
  {
    assert ([p] + rest)[1..] == rest;
  }

  /** No part contains the separator, so splitting the joined text gives the parts back. */
  lemma {:induction false} SplitJoin(parts: seq<string>, sep: char)
    requires |parts| >= 1
    requires forall k :: 0 <= k < |parts| ==> sep !in parts[k]
    ensures Split(Join(parts, sep), sep) == parts
  {
    if |parts| > 1 {
      var rest := Join(parts[1..], sep);
      var s := parts[0] + [sep] + rest;
      assert Join(parts, sep) == s;
      assert s[..|parts[0]|] == parts[0];
      assert s[|parts[0]| + 1..] == rest;
      IndexOfAfterPrefix(parts[0], sep, rest);
      assert Split(s, sep) == [parts[0]] + Split(rest, sep);
      SplitJoin(parts[1..], sep);
      assert parts == [parts[0]] + parts[1..];
    }
  }

  lemma {:induction false} IndexOfAfterPrefix(p: string, sep: char, rest: string)
    requires sep !in p
    ensures IndexOf(p + [sep] + rest, sep) == Some(|p|)
  {
    if p != [] {
      assert (p + [sep] + rest)[1..] == p[1..] + [sep] + rest;
      IndexOfAfterPrefix(p[1..], sep, rest);
    }
  }

  // ---------------------------------------------------------------------------
  // Java int and its decimal rendering
  // ---------------------------------------------------------------------------

  type Int32 = x: int | -0x8000_0000 <= x < 0x8000_0000

  /** Java's `+` on two ints: the exact sum reduced into the 32-bit range. */
  function AddInt32(x: Int32, y: Int32): (r: Int32)
    ensures -0x8000_0000 <= x + y < 0x8000_0000 ==> r == x + y
    ensures (r - (x + y)) % 0x1_0000_0000 == 0
  {
    (x + y + 0x8000_0000) % 0x1_0000_0000 - 0x8000_0000
  }

  predicate IsDigit(c: char) {
    '0' <= c <= '9'
  }

  predicate AllDigits(s: string) {
    forall k :: 0 <= k < |s| ==> IsDigit(s[k])
  }

  function DigitValue(c: char): (d: nat)
    requires IsDigit(c)
    ensures d < 10
  {
    c as int - '0' as int
  }

  function DigitChar(d: nat): (c: char)
    requires d < 10
    ensures IsDigit(c) && DigitValue(c) == d
  {
    (d + '0' as int) as char
  }

  /** The decimal digits of `n`, most significant first, without leading zeros. */
  function NatToString(n: nat): (s: string)
    ensures s != [] && AllDigits(s)
    ensures s[0] == '0' ==> n == 0
  {
    if n < 10 then [DigitChar(n)] else NatToString(n / 10) + [DigitChar(n % 10)]
  }

  /** Integer.toString: a minus sign for negative values, then the digits of the magnitude. */
  function IntToString(i: int): (s: string)
    ensures s != []
    ensures forall k :: 0 <= k < |s| ==> IsDigit(s[k]) || (k == 0 && s[k] == '-')
    ensures s[0] == '-' <==> i < 0
    ensures |s| > (if i < 0 then 1 else 0)
    ensures s[if i < 0 then 1 else 0] == '0' ==> i == 0
    ensures i == 0 ==> s == "0"
  {
    if i < 0 then "-" + NatToString(-i) else NatToString(i)
  }

  /** The number a string of decimal digits denotes. */
  function DigitsValue(s: string): nat
    requires AllDigits(s)
  {
    if s == [] then 0 else DigitsValue(s[..|s| - 1]) * 10 + DigitValue(s[|s| - 1])
  }

  /** The number a decimal text denotes: an optional minus sign and one or more digits
      (no plus sign, no range check). It only states what a written int means. */
  function ParseInt(s: string): Option<int>
  {
    if s != [] && s[0] == '-' then
      if |s| > 1 && AllDigits(s[1..]) then var m: int := DigitsValue(s[1..]); Some(-m) else None
    else if s != [] && AllDigits(s) then Some(DigitsValue(s))
    else None
  }

  lemma {:induction false} NatToStringValue(n: nat)
    ensures DigitsValue(NatToString(n)) == n
  {
    if n >= 10 {
      var s := NatToString(n);
      assert s[..|s| - 1] == NatToString(n / 10);
      NatToStringValue(n / 10);
    }
  }

  /** Rendering an int and parsing it back gives the same int. */
  lemma IntToStringRoundTrip(i: int)
    ensures ParseInt(IntToString(i)) == Some(i)
  {
    var s := IntToString(i);
    if i < 0 {
      assert s[1..] == NatToString(-i);
      NatToStringValue(-i);
    } else {
      NatToStringValue(i);
    }
  }

  /** A rendered int contains no character other than digits and a leading minus. */
  lemma IntToStringHasNo(i: int, c: char)
    requires !IsDigit(c) && c != '-'
    ensures c !in IntToString(i)
  {
  }
}
