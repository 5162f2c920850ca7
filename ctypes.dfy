/**
 * The C and C++ integer and string conventions the wrapper classes rely on:
 * 32-bit int, 64-bit long long, and char* strings that end at the first NUL.
 */
module CTypes {
  newtype int32 = x: int | -0x8000_0000 <= x < 0x8000_0000
  newtype int64 = x: int | -0x8000_0000_0000_0000 <= x < 0x8000_0000_0000_0000

  /**
   * Conversion of a wider integer (long long, size_t) to int: a value an int
   * can hold passes unchanged, any other is taken modulo 2^32 and read as
   * two's complement.
   */
  function Narrow32(v: int): (r: int32)
    ensures -0x8000_0000 <= v < 0x8000_0000 ==> r as int == v
    ensures (r as int - v) % 0x1_0000_0000 == 0
  {
    if -0x8000_0000 <= v < 0x8000_0000 then v as int32
    else
      var m := v % 0x1_0000_0000;
      if m < 0x8000_0000 then m as int32 else (m - 0x1_0000_0000) as int32
  }

  /** The std::string built from a char*: the characters before the first NUL. */
  function CString(s: string): (r: string)
    ensures |r| <= |s| && r == s[..|r|]
    ensures forall k :: 0 <= k < |r| ==> r[k] != '\0'
    ensures |r| < |s| ==> s[|r|] == '\0'
  {
    if s == [] || s[0] == '\0' then [] else [s[0]] + CString(s[1..])
  }

  /** A string with no NUL in it is kept whole. */
  lemma CStringWhole(s: string)
    requires forall k :: 0 <= k < |s| ==> s[k] != '\0'
    ensures CString(s) == s
  {
  }
}
