/**
 * The two C library services the core relies on for hexadecimal text:
 * strtol(s, NULL, 16) on an LP64 machine (64-bit long), and printf's "%0Nx"
 * conversion of an unsigned value.
 */
module Hex {
  const LONG_MAX: int := 0x7fff_ffff_ffff_ffff

  /** The C types u_int32_t and u_int8_t, as integer ranges. */
  newtype uint32 = x: int | 0 <= x < 0x1_0000_0000
  newtype uint8 = x: int | 0 <= x < 0x100

  predicate IsHexDigit(c: char) {
    '0' <= c <= '9' || 'a' <= c <= 'f' || 'A' <= c <= 'F'
  }

  /** The value of a hex digit (only ever applied to hex digits; 0 for anything else). */
  function DigitValue(c: char): (d: nat)
    ensures d < 16
  {
    if '0' <= c <= '9' then c as int - '0' as int
    else if 'a' <= c <= 'f' then c as int - 'a' as int + 10
    else if 'A' <= c <= 'F' then c as int - 'A' as int + 10
    else 0
  }

  /** The lower-case digit printf's %x writes for d. */
  function LowerDigit(d: nat): (c: char)
    requires d < 16
    ensures IsHexDigit(c) && DigitValue(c) == d
    ensures c != 'x' && c != '\\'
  {
    if d < 10 then ('0' as int + d) as char else ('a' as int + d - 10) as char
  }

  function Pow16(n: nat): (p: nat)
    ensures p >= 1
  {
    if n == 0 then 1 else 16 * Pow16(n - 1)
  }

  predicate AllHexDigits(s: string) {
    forall i :: 0 <= i < |s| ==> IsHexDigit(s[i])
  }

  /** Length of the longest prefix of s made of hex digits. */
  function DigitRun(s: string): (n: nat)
    ensures n <= |s|
    ensures n < |s| ==> !IsHexDigit(s[n])
  {
    if s == [] || !IsHexDigit(s[0]) then 0 else 1 + DigitRun(s[1..])
  }

  lemma {:induction false} DigitRunDigits(s: string)
    ensures AllHexDigits(s[..DigitRun(s)])
  {
    if s != [] && IsHexDigit(s[0]) {
      DigitRunDigits(s[1..]);
      assert s[..DigitRun(s)] == [s[0]] + s[1..][..DigitRun(s[1..])];
    }
  }

  /** Value of a string of hex digits, most significant digit first. */
  function HexValue(s: string): nat {
    if s == [] then 0 else 16 * HexValue(s[..|s| - 1]) + DigitValue(s[|s| - 1])
  }

  function HexPrefixValue(s: string): nat {
    HexValue(s[..DigitRun(s)])
  }

  /** The characters isspace() accepts in the C locale. */
  predicate IsCSpace(c: char) {
    c == ' ' || c == '\t' || c == '\n' || c == '\r' || c == 11 as char || c == 12 as char
  }

  function SkipSpaces(s: string): (t: string)
    ensures |t| <= |s| && t == s[|s| - |t|..]
    ensures t != [] ==> !IsCSpace(t[0])
  {
    if s != [] && IsCSpace(s[0]) then SkipSpaces(s[1..]) else s
  }

  /**
   * strtol(s, NULL, 16): leading white space, an optional sign, an optional
   * "0x"/"0X" prefix, then the longest run of hex digits; a value out of the
   * range of a 64-bit long saturates.
   */
  function Strtol16(s: string): (v: int)
    ensures -LONG_MAX - 1 <= v <= LONG_MAX
  {
    var t := SkipSpaces(s);
    var negative := t != [] && t[0] == '-';
    var u := if t != [] && (t[0] == '-' || t[0] == '+') then t[1..] else t;
    var w := if |u| >= 2 && u[0] == '0' && (u[1] == 'x' || u[1] == 'X') then u[2..] else u;
    var m: int := HexPrefixValue(w);
    if negative then (if m > LONG_MAX + 1 then -LONG_MAX - 1 else -m)
    else (if m > LONG_MAX then LONG_MAX else m)
  }

  /** The cast (u_int32_t)v of a long: its value modulo 2^32. */
  function Truncate32(v: int): uint32 {
    (v % 0x1_0000_0000) as uint32
  }

  /** The cast (u_int8_t)v of a long: its value modulo 2^8. */
  function Truncate8(v: int): uint8 {
    (v % 0x100) as uint8
  }

  /** The last k characters of s, or all of s when it is shorter. */
  function LastChars(s: string, k: nat): (t: string)
    ensures |t| <= k && |t| <= |s|
  {
    if |s| <= k then s else s[|s| - k..]
  }

  /**
   * (u_int32_t)strtol(buf, NULL, 16) for a buffer holding "0x" followed by t:
   * the conversion keeps the low 32 bits, that is the last eight of the hex
   * digits that start t.
   */
  function HexPrefixWord(t: string): uint32 {
    var low := LastChars(t[..DigitRun(t)], 8);
    HexValueBound(low);
    Pow16Monotone(|low|, 8);
    assert Pow16(8) == 0x1_0000_0000;
    HexValue(low) as uint32
  }

  /** printf "%0*x" with the given width, for a value below 16^width. */
  function FixedHex(v: nat, width: nat): (s: string)
    ensures |s| == width
    ensures AllHexDigits(s)
    ensures forall i :: 0 <= i < |s| ==> s[i] != 'x' && s[i] != '\\'
  {
    if width == 0 then [] else FixedHex(v / 16, width - 1) + [LowerDigit(v % 16)]
  }

  lemma HexValueBound(s: string)
    ensures HexValue(s) < Pow16(|s|)
  {
    if s != [] {
      HexValueBound(s[..|s| - 1]);
    }
  }

  lemma ModUnique(v: int, m: int, q: int, r: int)
    requires m > 0 && 0 <= r < m && v == m * q + r
    ensures v % m == r && v / m == q
  {
    var d := q - v / m;
    assert m * d == v % m - r by {
      assert v == m * (v / m) + v % m;
      assert m * q - m * (v / m) == m * d;
    }
    if d >= 1 {
      MulAtLeast(m, d);
    } else if d <= -1 {
      MulAtLeast(m, -d);
    }
  }

  lemma MulAtLeast(m: int, d: int)
    requires m > 0 && d >= 1
    ensures m * d >= m
  {
  }

  lemma ModSplit(v: nat, p: nat)
    requires p >= 1
    ensures 16 * ((v / 16) % p) + v % 16 == v % (16 * p)
  {
    var q, r := v / 16, v % 16;
    var a, b := q / p, q % p;
    assert v == 16 * q + r;
    assert q == p * a + b;
    assert v == (16 * p) * a + (16 * b + r) by {
      assert 16 * q == 16 * (p * a) + 16 * b;
      assert 16 * (p * a) == (16 * p) * a;
    }
    ModUnique(v, 16 * p, a, 16 * b + r);
  }

  /** Reading back what "%0*x" wrote gives the value modulo 16^width. */
  lemma {:induction false} FixedHexValue(v: nat, width: nat)
    ensures HexValue(FixedHex(v, width)) == v % Pow16(width)
  {
    if width > 0 {
      var s := FixedHex(v, width);
      assert s[..|s| - 1] == FixedHex(v / 16, width - 1);
      FixedHexValue(v / 16, width - 1);
      ModSplit(v, Pow16(width - 1));
    }
  }

  lemma {:induction false} DigitRunAll(s: string)
    requires AllHexDigits(s)
    ensures DigitRun(s) == |s|
  {
    if s != [] {
      DigitRunAll(s[1..]);
    }
  }

  /** Reading back at most eight printed digits gives the printed value. */
  lemma HexPrefixWordFixed(v: nat, width: nat)
    requires width <= 8 && v < Pow16(width)
    ensures HexPrefixWord(FixedHex(v, width)) as int == v
  {
    var h := FixedHex(v, width);
    DigitRunAll(h);
    assert h[..DigitRun(h)] == h;
    assert LastChars(h, 8) == h;
    FixedHexValue(v, width);
    ModUnique(v, Pow16(width), 0, v);
  }

  lemma Pow16Monotone(a: nat, b: nat)
    requires a <= b
    ensures Pow16(a) <= Pow16(b)
  {
    if a < b {
      Pow16Monotone(a, b - 1);
    }
  }

  /** Keeping the last k digits is reducing the value modulo 16^k. */
  lemma {:induction false} HexValueLastChars(d: string, k: nat)
    ensures HexValue(d) % Pow16(k) == HexValue(LastChars(d, k))
    decreases |d|
  {
    if |d| <= k {
      HexValueBound(d);
      Pow16Monotone(|d|, k);
      ModUnique(HexValue(d), Pow16(k), 0, HexValue(d));
    } else if k == 0 {
      assert LastChars(d, 0) == [];
      ModUnique(HexValue(d), 1, HexValue(d), 0);
    } else {
      var init, c := d[..|d| - 1], DigitValue(d[|d| - 1]);
      var v := HexValue(d);
      assert v == 16 * HexValue(init) + c;
      var low := LastChars(d, k);
      assert low[..|low| - 1] == LastChars(init, k - 1);
      assert low[|low| - 1] == d[|d| - 1];
      HexValueLastChars(init, k - 1);
      ModUnique(v, 16, HexValue(init), c);
      ModSplit(v, Pow16(k - 1));
    }
  }

  /** HexPrefixWord is strtol of "0x" + t followed by the cast to u_int32_t. */
  lemma HexPrefixWordIsStrtol(t: string)
    requires |t| <= 15
    ensures HexPrefixWord(t) == Truncate32(Strtol16("0x" + t))
  {
    var d := t[..DigitRun(t)];
    Strtol16Prefixed(t);
    HexValueLastChars(d, 8);
    assert Pow16(8) == 0x1_0000_0000;
    var m := HexValue(d);
    assert Strtol16("0x" + t) == m;
    assert HexValue(LastChars(d, 8)) == m % 0x1_0000_0000;
  }

  /**
   * The core always hands strtol a buffer that starts with "0x" (snprintf
   * "0x%s"): the result is then the value of the hex digits that follow, as
   * long as at most 15 of them fit in the buffer.
   */
  lemma {:induction false} Strtol16Prefixed(t: string)
    requires |t| <= 15
    ensures Strtol16("0x" + t) == HexPrefixValue(t)
  {
    var n := DigitRun(t);
    HexValueBound(t[..n]);
    Pow16Monotone(n, 15);
    Pow16Fifteen();
    Strtol16InRange(t);
  }

  /** strtol reads "0x" followed by t as the hex digits that start t, when no saturation occurs. */
  lemma Strtol16InRange(t: string)
    requires HexPrefixValue(t) <= LONG_MAX
    ensures Strtol16("0x" + t) == HexPrefixValue(t)
  {
    var s := "0x" + t;
    assert s[0] == '0' && s[1] == 'x' && s[2..] == t;
    assert !IsCSpace(s[0]);
    assert SkipSpaces(s) == s;
  }

  lemma Pow16Fifteen()
    ensures Pow16(15) <= LONG_MAX
  {
    assert Pow16(8) == 0x1_0000_0000;
  }
}
