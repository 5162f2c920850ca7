/**
 * cryptredis_align64 (tools.c): the buffer length the encrypted write path
 * allocates for a value of n bytes.  All arithmetic is on u_int32_t.
 */
module Tools {
  predicate IsPowerOfTwo(p: bv32) {
    p != 0 && p & (p - 1) == 0
  }

  /** The least power of two that is at least n, searching upwards from p. */
  function RoundUpPow2(n: bv32, p: bv32): bv32
    requires IsPowerOfTwo(p) && n <= 0x8000_0000 && p <= 0x8000_0000
    decreases 0x8000_0000 - p
  {
    if n <= p then p else RoundUpPow2(n, p << 1)
  }

  /**
   * A multiple of 128 is kept as it is (0 included); any other length is
   * rounded up to a power of two, at least 16.  Past 2^31 there is no 32-bit
   * power of two to round up to and the computation wraps around to 16.
   */
  function AlignedLength(n: bv32): bv32 {
    if n % 128 == 0 then n
    else if n > 0x8000_0000 then 16
    else RoundUpPow2(n, 16)
  }

  /** cryptredis_align64: the bit-smearing round-up of tools.c. */
  method Align64(n: bv32) returns (r: bv32)
    ensures r == AlignedLength(n)
  {
    if n % 128 == 0 {
      return n;
    }
    var v := n;
    v := v - 1;
    v := v | (v >> 1);
    v := v | (v >> 2);
    v := v | (v >> 4);
    v := v | (v >> 8);
    v := v | (v >> 16);
    v := v + 1;
    SmearIsCeiling(n, v);
    r := if v > 16 then v else 16;
    if n <= 0x8000_0000 {
      RoundUpIsCeiling(n, 16, v);
    }
  }

  /** What the smear computes: 0 past 2^31, otherwise the least power of two >= n. */
  lemma SmearIsCeiling(n: bv32, v: bv32)
    requires n != 0
    requires var x := n - 1;
      var x1 := x | (x >> 1);
      var x2 := x1 | (x1 >> 2);
      var x4 := x2 | (x2 >> 4);
      var x8 := x4 | (x4 >> 8);
      v == (x8 | (x8 >> 16)) + 1
    ensures n > 0x8000_0000 ==> v == 0
    ensures n <= 0x8000_0000 ==> IsPowerOfTwo(v) && n <= v && v >> 1 < n
  {
  }

  lemma {:induction false} RoundUpIsCeiling(n: bv32, p: bv32, t: bv32)
    requires IsPowerOfTwo(p) && n <= 0x8000_0000 && p <= 0x8000_0000
    requires IsPowerOfTwo(t) && n <= t && t >> 1 < n
    ensures RoundUpPow2(n, p) == if p >= t then p else t
    decreases 0x8000_0000 - p
  {
    if n > p {
      PowerStep(p, t);
      RoundUpIsCeiling(n, p << 1, t);
    }
  }

  lemma PowerStep(p: bv32, t: bv32)
    requires IsPowerOfTwo(p) && IsPowerOfTwo(t) && p < t
    ensures p << 1 <= t && IsPowerOfTwo(p << 1)
  {
  }

  /** Every length from 1 to 2^31 has a least power of two at or above it. */
  lemma Ceiling(n: bv32) returns (t: bv32)
    requires 1 <= n <= 0x8000_0000
    ensures IsPowerOfTwo(t) && n <= t && t >> 1 < n
  {
    var x := n - 1;
    var x1 := x | (x >> 1);
    var x2 := x1 | (x1 >> 2);
    var x4 := x2 | (x2 >> 4);
    var x8 := x4 | (x4 >> 8);
    t := (x8 | (x8 >> 16)) + 1;
    SmearIsCeiling(n, t);
  }

  /** The aligned length is always a whole number of 16-byte cipher blocks. */
  lemma AlignedWholeBlocks(n: bv32)
    ensures AlignedLength(n) % 16 == 0
  {
    if n % 128 != 0 && n <= 0x8000_0000 {
      var t := Ceiling(n);
      RoundUpIsCeiling(n, 16, t);
      PowerAtLeast16(RoundUpPow2(n, 16));
    }
  }

  lemma PowerAtLeast16(r: bv32)
    requires IsPowerOfTwo(r) && 16 <= r
    ensures r % 16 == 0
  {
  }

  /**
   * Up to 2^31 the aligned length never loses bytes, and a length that is not
   * a multiple of 128 goes to the least power of two, not below 16, that holds it.
   */
  lemma AlignedCovers(n: bv32)
    requires n <= 0x8000_0000
    ensures n <= AlignedLength(n)
    ensures n % 128 != 0 ==> var r := AlignedLength(n);
      IsPowerOfTwo(r) && 16 <= r && (r == 16 || r >> 1 < n)
  {
    if n % 128 != 0 {
      var t := Ceiling(n);
      RoundUpIsCeiling(n, 16, t);
    }
  }

  /** Past 2^31 an unaligned length wraps around to a single block. */
  lemma AlignedWraps(n: bv32)
    requires n > 0x8000_0000 && n % 128 != 0
    ensures AlignedLength(n) == 16 && AlignedLength(n) < n
  {
  }

  /** Aligning an aligned length changes nothing. */
  lemma AlignedIdempotent(n: bv32)
    ensures AlignedLength(AlignedLength(n)) == AlignedLength(n)
  {
    if n % 128 != 0 && n <= 0x8000_0000 {
      var t := Ceiling(n);
      RoundUpIsCeiling(n, 16, t);
      var r := RoundUpPow2(n, 16);
      if r % 128 != 0 {
        RoundUpIsCeiling(r, 16, r);
      }
    } else if n % 128 != 0 {
      RoundUpIsCeiling(16, 16, 16);
    }
  }

  /** The cases the regression test and the small-value path rely on. */
  lemma AlignedExamples()
    ensures AlignedLength(16) == 16 && AlignedLength(0) == 0 && AlignedLength(1) == 16
    ensures AlignedLength(17) == 32 && AlignedLength(100) == 128 && AlignedLength(256) == 256
  {
    RoundUpIsCeiling(16, 16, 16);
    RoundUpIsCeiling(1, 16, 1);
    RoundUpIsCeiling(17, 16, 32);
    RoundUpIsCeiling(100, 16, 128);
  }
}
