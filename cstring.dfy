/**
 * The C library behaviour the core relies on, over byte strings: strtol,
 * C string extent, strncmp-style prefix tests and strstr, plus the integer
 * conversions C performs on assignment (to uint8_t, uint16_t, int32_t,
 * unsigned int) and C's truncating division.
 */
module CString {
  import opened Tables

  type Line = seq<byte>

  datatype Option<T> = None | Some(value: T)

  const LongMax: int := 0x7FFF_FFFF_FFFF_FFFF
  const LongMin: int := -0x8000_0000_0000_0000

  /** Conversion of an integer to uint8_t: the value modulo 256. */
  function U8(x: int): byte
  {
    (x % 256) as byte
  }

  /** A byte's value converts back to the byte. */
  lemma U8Small(b: byte)
    ensures U8(b as int) == b
  {
    assert b as int % 256 == b as int;
  }

  /** A value equal to a byte's converts to that byte. */
  lemma U8Of(x: int, b: byte)
    requires x == b as int
    ensures U8(x) == b
  {
    U8Small(b);
  }

  /** A value whose remainder modulo 256 is a byte's converts to that byte. */
  lemma U8Low(x: int, b: byte)
    requires x % 256 == b as int
    ensures U8(x) == b
  {
  }

  /** Conversion of an integer to a 32-bit unsigned int: the value modulo 2^32. */
  function U32(x: int): bv32
  {
    (x % 0x1_0000_0000) as bv32
  }

  lemma U32Eight()
    ensures U32(8) == 8
  {
    assert 8 % 0x1_0000_0000 == 8;
    assert (8 as int) as bv32 == 8;
  }

  /** Conversion of an integer to int32_t: two's complement wrap-around. */
  function I32(x: int): (r: int)
    ensures -0x8000_0000 <= r < 0x8000_0000
    ensures (r - x) % 0x1_0000_0000 == 0
  {
    var m := x % 0x1_0000_0000;
    if m >= 0x8000_0000 then m - 0x1_0000_0000 else m
  }

  /** C's integer division, which truncates toward zero. */
  function CDiv(a: int, b: int): int
    requires b > 0
  {
    if a >= 0 then a / b else -((-a) / b)
  }

  /** C's remainder, which takes the sign of the dividend. */
  function CMod(a: int, b: int): int
    requires b > 0
  {
    a - b * CDiv(a, b)
  }

  /** The byte of a C string at index i: the NUL terminator (0) at and beyond its end. */
  function At(s: Line, i: int): byte
  {
    if 0 <= i < |s| then s[i] else 0
  }

  /** The bytes of a string literal: the low eight bits of each character's code, its ASCII code for the literals here. */
  function Ascii(s: string): (r: Line)
    ensures |r| == |s|
  {
    seq(|s|, i requires 0 <= i < |s| => (s[i] as int % 256) as byte)
  }

  /** The C string held in a character buffer: the bytes before the first NUL. */
  function CStr(s: Line): (r: Line)
    ensures r <= s && 0 !in r
    ensures |r| < |s| ==> s[|r|] == 0
  {
    if s == [] || s[0] == 0 then [] else [s[0]] + CStr(s[1..])
  }

  /** isspace in the C locale: space, \t, \n, \v, \f, \r. */
  predicate IsSpace(c: byte)
  {
    c == 0x20 || 0x09 <= c <= 0x0D
  }

  /** The value of c as a digit in base, or 99 when it is none. */
  function DigitValue(c: byte, base: int): (v: int)
    ensures v == 99 || 0 <= v < base
  {
    var d :=
      if 0x30 <= c <= 0x39 then c as int - 0x30
      else if 0x61 <= c <= 0x7A then c as int - 0x61 + 10
      else if 0x41 <= c <= 0x5A then c as int - 0x41 + 10
      else 99;
    if d < base then d else 99
  }

  predicate IsDigit(c: byte, base: int)
  {
    DigitValue(c, base) != 99
  }

  /** The number of leading bytes of s that are digits in base. */
  function DigitRun(s: Line, base: int): (n: nat)
    ensures n <= |s|
    ensures forall i :: 0 <= i < n ==> IsDigit(s[i], base)
    ensures n < |s| ==> !IsDigit(s[n], base)
  {
    if s != [] && IsDigit(s[0], base) then 1 + DigitRun(s[1..], base) else 0
  }

  /** The value of a run of digits, most significant first. */
  function DigitsValue(ds: Line, base: int): nat
    requires 2 <= base
    requires forall i :: 0 <= i < |ds| ==> IsDigit(ds[i], base)
  {
    if ds == [] then 0
    else
      var front, last := DigitsValue(ds[..|ds| - 1], base), DigitValue(ds[|ds| - 1], base);
      MulNonNegative(front, base);
      front * base + last
  }

  lemma MulNonNegative(a: nat, b: int)
    requires b >= 0
    ensures a * b >= 0
  {
  }

  /** The number of leading white-space bytes. */
  function SpaceRun(s: Line): (n: nat)
    ensures n <= |s|
  {
    if s != [] && IsSpace(s[0]) then 1 + SpaceRun(s[1..]) else 0
  }

  /** The base strtol settles on (base 0 picks 16 after 0x, 8 after a leading 0, else 10) and where its digits start. */
  function BasePrefix(s: Line, base: int): (r: (int, nat))
    requires base == 0 || 2 <= base <= 36
    ensures 2 <= r.0 <= 36 && r.1 <= |s|
  {
    var hexPrefix := At(s, 0) == 0x30 && (At(s, 1) == 0x78 || At(s, 1) == 0x58);
    if (base == 0 || base == 16) && hexPrefix then (16, 2)
    else if base == 0 && At(s, 0) == 0x30 then (8, 0)
    else if base == 0 then (10, 0)
    else (base, 0)
  }

  /**
   * strtol(s, NULL, base): leading white space, an optional sign, an
   * optional 0x prefix (bases 0 and 16) and the longest run of digits;
   * 0 when there are none; saturated to LONG_MIN..LONG_MAX on overflow.
   */
  function Strtol(s: Line, base: int): (r: int)
    requires base == 0 || 2 <= base <= 36
    ensures LongMin <= r <= LongMax
  {
    var t := s[SpaceRun(s)..];
    var neg := At(t, 0) == 0x2D;
    var u := if At(t, 0) == 0x2D || At(t, 0) == 0x2B then t[1..] else t;
    var (b, skip) := BasePrefix(u, base);
    var ds := u[skip..][..DigitRun(u[skip..], b)];
    var v: int := DigitsValue(ds, b);
    if neg then (if -v < LongMin then LongMin else -v)
    else (if v > LongMax then LongMax else v)
  }

  /** The character of a digit value below 16, upper-case for 10..15. */
  function DigitChar(d: int): (c: byte)
    requires 0 <= d < 16
  {
    [0x30, 0x31, 0x32, 0x33, 0x34, 0x35, 0x36, 0x37, 0x38, 0x39, 0x41, 0x42, 0x43, 0x44, 0x45, 0x46][d]
  }

  /** A digit character reads back as its value in any base above it. */
  lemma DigitCharValue(d: int, base: int)
    requires 0 <= d < base <= 16
    ensures DigitValue(DigitChar(d), base) == d
  {
  }

  /** The digits of n in base, most significant first, without leading zeros (0 is "0"). */
  function ToDigits(n: nat, base: int): (ds: Line)
    requires 2 <= base <= 16
    ensures 1 <= |ds|
    ensures forall i :: 0 <= i < |ds| ==> IsDigit(ds[i], base)
    decreases n
  {
    DivMod(n, base);
    if n < base then
      DigitCharValue(n, base);
      [DigitChar(n)]
    else
      DigitCharValue(n % base, base);
      ToDigits(n / base, base) + [DigitChar(n % base)]
  }

  lemma DivMod(n: nat, base: int)
    requires base >= 2
    ensures n == (n / base) * base + n % base
    ensures 0 <= n % base < base
    ensures n >= base ==> 1 <= n / base < n
  {
    var q := n / base;
    assert q * base <= n;
  }

  /** Appending a digit multiplies the value by the base and adds the digit. */
  lemma DigitsValueSnoc(ds: Line, c: byte, base: int)
    requires 2 <= base
    requires forall i :: 0 <= i < |ds| ==> IsDigit(ds[i], base)
    requires IsDigit(c, base)
    ensures DigitsValue(ds + [c], base) == DigitsValue(ds, base) * base + DigitValue(c, base)
  {
    assert (ds + [c])[..|ds|] == ds;
  }

  lemma {:induction false} ToDigitsValue(n: nat, base: int)
    requires 2 <= base <= 16
    ensures DigitsValue(ToDigits(n, base), base) == n
    decreases n
  {
    if n >= base {
      var q, r := n / base, n % base;
      DivMod(n, base);
      var front, last := ToDigits(q, base), DigitChar(r);
      assert ToDigits(n, base) == front + [last];
      ToDigitsValue(q, base);
      DigitCharValue(r, base);
      DigitsValueSnoc(front, last, base);
    } else {
      DigitCharValue(n, base);
      DigitsValueSnoc([], DigitChar(n), base);
    }
  }

  lemma {:induction false} DigitRunPrefix(ds: Line, rest: Line, base: int)
    requires forall i :: 0 <= i < |ds| ==> IsDigit(ds[i], base)
    requires rest == [] || !IsDigit(rest[0], base)
    ensures DigitRun(ds + rest, base) == |ds|
    decreases |ds|
  {
    if ds != [] {
      assert (ds + rest)[1..] == ds[1..] + rest;
      DigitRunPrefix(ds[1..], rest, base);
    }
  }

  /**
   * strtol reads back what printing a number produces: the decimal or
   * hexadecimal digits of n, followed by anything that is not a digit.
   */
  lemma StrtolReadsDigits(n: nat, base: int, rest: Line)
    requires base == 10 || base == 16
    requires n <= LongMax
    requires rest == [] || !IsDigit(rest[0], 36)
    ensures Strtol(ToDigits(n, base) + rest, base) == n
  {
    var ds := ToDigits(n, base);
    var s := ds + rest;
    if |ds| > 1 {
      assert s[1] == ds[1];
    } else if rest != [] {
      assert s[1] == rest[0];
    }
    DigitRunPrefix(ds, rest, base);
    assert s[..DigitRun(s, base)] == ds;
    ToDigitsValue(n, base);
    StrtolPlainDigits(s, base);
  }

  /** Without white space, sign or 0x prefix, strtol reads the leading run of digits. */
  lemma StrtolPlainDigits(s: Line, base: int)
    requires base == 10 || base == 16
    requires s != [] && IsDigit(s[0], base)
    requires At(s, 1) != 0x78 && At(s, 1) != 0x58
    requires DigitsValue(s[..DigitRun(s, base)], base) <= LongMax
    ensures Strtol(s, base) == DigitsValue(s[..DigitRun(s, base)], base)
  {
    assert SpaceRun(s) == 0;
    assert s[0..] == s;
    assert BasePrefix(s, base) == (base, 0);
  }

  /** With base 0, a "0x" prefix makes strtol read the rest as base 16. */
  lemma StrtolHexPrefix(x: Line)
    requires x != [] && IsDigit(x[0], 16)
    requires At(x, 1) != 0x78 && At(x, 1) != 0x58
    ensures Strtol([0x30, 0x78] + x, 0) == Strtol(x, 16)
  {
    var s := [0x30, 0x78] + x;
    assert SpaceRun(s) == 0;
    assert s[0..] == s;
    assert BasePrefix(s, 0) == (16, 2);
    assert s[2..] == x;
    assert SpaceRun(x) == 0;
    assert x[0..] == x;
    assert BasePrefix(x, 16) == (16, 0);
  }

  /** tok occurs in s at index j. */
  predicate OccursAt(s: Line, tok: Line, j: int)
  {
    0 <= j <= |s| - |tok| && s[j..j + |tok|] == tok
  }

  /** No NUL among the first j bytes of s. */
  predicate NoNulBefore(s: Line, j: int)
  {
    forall k :: 0 <= k < j && k < |s| ==> s[k] != 0
  }

  /** The first index at or after i where tok occurs, before any NUL; -1 when there is none. */
  function FindFrom(s: Line, tok: Line, i: nat): (r: int)
    requires |tok| > 0 && 0 !in tok
    requires i <= |s| && NoNulBefore(s, i)
    requires forall j :: 0 <= j < i ==> !OccursAt(s, tok, j)
    ensures r == -1 || (i <= r && OccursAt(s, tok, r) && NoNulBefore(s, r))
    ensures r >= 0 ==> forall j :: 0 <= j < r ==> !OccursAt(s, tok, j)
    ensures r == -1 ==> forall j :: NoNulBefore(s, j) ==> !OccursAt(s, tok, j)
    decreases |s| - i
  {
    if i + |tok| > |s| then -1
    else if s[i] == 0 then
      assert !OccursAt(s, tok, i) by { assert s[i] == s[i..i + |tok|][0]; }
      assert forall j :: i < j ==> !NoNulBefore(s, j);
      -1
    else if s[i..i + |tok|] == tok then i
    else FindFrom(s, tok, i + 1)
  }

  /** strstr within a buffer: the first index where tok occurs before any NUL, or -1. */
  function Find(s: Line, tok: Line): (r: int)
    requires |tok| > 0 && 0 !in tok
    ensures r == -1 || (OccursAt(s, tok, r) && NoNulBefore(s, r))
    ensures r >= 0 ==> forall j :: 0 <= j < r ==> !OccursAt(s, tok, j)
    ensures r == -1 ==> forall j :: NoNulBefore(s, j) ==> !OccursAt(s, tok, j)
  {
    FindFrom(s, tok, 0)
  }
}
