/**
 * The text form of cipher words (encode.c): each 32-bit word is written as
 * "\x" followed by eight lower-case hex digits, and read back by splitting
 * the text at '\' and 'x' and parsing every piece with strtol.
 */
module Encode {
  import opened Hex
  import CTypes

  const INT_MAX: int := 0x7fff_ffff
  /** Characters sprintf writes per word, not counting its terminating NUL. */
  const STEP: nat := 10

  /**
   * cryptredis_encsiz: two characters per byte plus two per whole word, that
   * is ten characters per whole word.  Past 0x3333_3333 the int sum (or
   * len * 2 before it) overflows, so longer lengths are excluded.
   */
  function EncSiz(len: int): (size: int)
    requires 0 <= len <= 0x3333_3333
    ensures 0 <= size <= INT_MAX
    ensures size == STEP * (len / 4) + 2 * (len % 4)
  {
    len * 2 + (len / 4) * 2
  }

  /**
   * The room a buffer needs to take cryptredis_encode's output for len bytes:
   * the encsiz characters and the NUL sprintf writes after the last word.
   */
  function EncodedBufferSize(len: int): (size: int)
    requires 0 <= len <= 0x3333_3333
    ensures len / 4 > 0 ==> size >= STEP * (len / 4) + 1
  {
    EncSiz(len) + 1
  }

  /** sprintf(pd, "\\x%08x", w) without its terminating NUL. */
  function EncodedWord(w: uint32): (s: string)
    ensures |s| == STEP && s[0] == '\\' && s[1] == 'x'
  {
    "\\x" + FixedHex(w as int, 8)
  }

  function EncodeWords(ws: seq<uint32>): (s: string)
    ensures |s| == STEP * |ws|
    ensures ws != [] ==> s[0] == '\\'
  {
    if ws == [] then [] else EncodedWord(ws[0]) + EncodeWords(ws[1..])
  }

  /**
   * cryptredis_encode: the first len / 4 words of src, each written by
   * sprintf at STEP characters from the previous one.  Every sprintf also
   * writes a NUL, which the next word overwrites; the last one stays, at
   * index STEP * (len / 4).
   */
  method Encode(dst: array<char>, src: seq<uint32>, len: int)
    requires 0 <= len && len / 4 <= |src|
    requires len / 4 > 0 ==> STEP * (len / 4) + 1 <= dst.Length
    modifies dst
    ensures dst[..STEP * (len / 4)] == EncodeWords(src[..len / 4])
    ensures len / 4 > 0 ==> dst[STEP * (len / 4)] == '\0'
    ensures len / 4 > 0 ==> dst[STEP * (len / 4) + 1..] == old(dst[STEP * (len / 4) + 1..])
    ensures len / 4 == 0 ==> dst[..] == old(dst[..])
  {
    var n := len / 4;
    var i := 0;
    var pd := 0;
    while i < n
      invariant 0 <= i <= n && pd == STEP * i
      invariant dst[..pd] == EncodeWords(src[..i])
      invariant i > 0 ==> dst[pd] == '\0'
      invariant i > 0 ==> dst[pd + 1..] == old(dst[pd + 1..])
      invariant i == 0 ==> dst[..] == old(dst[..])
    {
      ghost var before := dst[..];
      Sprintf(dst, pd, EncodedWord(src[i]));
      EncodeStep(old(dst[..]), before, dst[..], pd, src[..i], src[i], i == 0);
      assert src[..i + 1] == src[..i] + [src[i]];
      i := i + 1;
      pd := pd + STEP;
    }
  }

  /** sprintf(dst + pd, ...) producing text: the text, then a NUL. */
  method Sprintf(dst: array<char>, pd: nat, text: string)
    requires pd + |text| < dst.Length
    modifies dst
    ensures dst[..pd] == old(dst[..pd]) && dst[pd..pd + |text|] == text
    ensures dst[pd + |text|] == '\0' && dst[pd + |text| + 1..] == old(dst[pd + |text| + 1..])
  {
    forall k | 0 <= k < |text| {
      dst[pd + k] := text[k];
    }
    dst[pd + |text|] := '\0';
  }

  /**
   * One sprintf of the loop: the text grows by the next word, and what lies
   * past its NUL is still what the buffer held on entry.
   */
  lemma EncodeStep(start: seq<char>, before: seq<char>, after: seq<char>, pd: nat, ws: seq<uint32>, w: uint32, first: bool)
    requires |start| == |before| == |after| && pd + STEP < |after|
    requires before[..pd] == EncodeWords(ws)
    requires first ==> before == start
    requires !first ==> before[pd + 1..] == start[pd + 1..]
    requires after[..pd] == before[..pd] && after[pd..pd + STEP] == EncodedWord(w)
    requires after[pd + STEP + 1..] == before[pd + STEP + 1..]
    ensures after[..pd + STEP] == EncodeWords(ws + [w])
    ensures after[pd + STEP + 1..] == start[pd + STEP + 1..]
  {
    EncodeWordsSnoc(ws, w);
    assert after[..pd + STEP] == after[..pd] + after[pd..pd + STEP];
    if !first {
      assert before[pd + STEP + 1..] == before[pd + 1..][STEP..];
      assert start[pd + STEP + 1..] == start[pd + 1..][STEP..];
    }
  }

  lemma {:induction false} EncodeWordsSnoc(ws: seq<uint32>, w: uint32)
    ensures EncodeWords(ws + [w]) == EncodeWords(ws) + EncodedWord(w)
  {
    if ws != [] {
      assert (ws + [w])[1..] == ws[1..] + [w];
      EncodeWordsSnoc(ws[1..], w);
    } else {
      assert [] + [w] == [w];
    }
  }

  /** For whole words, the encoded text is exactly encsiz characters long. */
  lemma EncodedLength(ws: seq<uint32>)
    requires 4 * |ws| <= 0x3333_3333
    ensures |EncodeWords(ws)| == EncSiz(4 * |ws|)
  {
    ModUnique(4 * |ws|, 4, |ws|, 0);
  }

  /**
   * A buffer of cryptredis_encsiz(len) characters, as tests/regress.c and
   * tests/write.c allocate before calling cryptredis_encode, is one too
   * short: for a whole number of words the NUL the last sprintf writes (at
   * STEP * (len / 4), see Encode) lands at index encsiz, just past the
   * buffer.  EncodedBufferSize has the room.
   */
  lemma EncSizNulOverrun(len: int)
    requires 0 < len <= 0x3333_3333 && len % 4 == 0
    ensures STEP * (len / 4) == EncSiz(len)
    ensures !(STEP * (len / 4) + 1 <= EncSiz(len))
    ensures STEP * (len / 4) + 1 <= EncodedBufferSize(len)
  {
  }

  /** strtok's delimiter set "\\x". */
  predicate IsDelimiter(c: char) {
    c == '\\' || c == 'x'
  }

  /** Length of the token at the start of s: the run of non-delimiters. */
  function TokenLength(s: string): (n: nat)
    ensures n <= |s|
    ensures n < |s| ==> IsDelimiter(s[n])
  {
    if s == [] || IsDelimiter(s[0]) then 0 else 1 + TokenLength(s[1..])
  }

  /** No character of the token is a delimiter, so the run is maximal. */
  lemma {:induction false} TokenLengthSpan(s: string)
    ensures forall i :: 0 <= i < TokenLength(s) ==> !IsDelimiter(s[i])
    ensures s != [] && !IsDelimiter(s[0]) ==> TokenLength(s) > 0
  {
    if s != [] && !IsDelimiter(s[0]) {
      TokenLengthSpan(s[1..]);
      forall i | 0 < i < TokenLength(s)
        ensures !IsDelimiter(s[i])
      {
        assert s[i] == s[1..][i - 1];
      }
    }
  }

  /** The tokens strtok returns: maximal non-empty runs of non-delimiters. */
  function Tokens(s: string): seq<string>
    decreases |s|
  {
    if s == [] then []
    else if IsDelimiter(s[0]) then Tokens(s[1..])
    else
      var n := TokenLength(s);
      [s[..n]] + Tokens(s[n..])
  }

  /** Every token is non-empty and holds no delimiter. */
  lemma {:induction false} TokensWellFormed(s: string)
    ensures forall i :: 0 <= i < |Tokens(s)| ==> Tokens(s)[i] != []
    ensures forall i, k :: 0 <= i < |Tokens(s)| && 0 <= k < |Tokens(s)[i]| ==> !IsDelimiter(Tokens(s)[i][k])
    decreases |s|
  {
    if s != [] {
      if IsDelimiter(s[0]) {
        TokensWellFormed(s[1..]);
      } else {
        var n := TokenLength(s);
        var ts := Tokens(s[n..]);
        TokenLengthSpan(s);
        TokensWellFormed(s[n..]);
        assert Tokens(s) == [s[..n]] + ts;
        forall i, k | 0 <= i < |Tokens(s)| && 0 <= k < |Tokens(s)[i]|
          ensures !IsDelimiter(Tokens(s)[i][k])
        {
          if i > 0 {
            assert Tokens(s)[i] == ts[i - 1];
          }
        }
      }
    }
  }

  /** The characters of a token that snprintf(blkbuf, 16, "0x%s", token) keeps. */
  function Kept(t: string): (k: string)
    ensures |k| <= 13
  {
    if |t| <= 13 then t else t[..13]
  }

  /** One decoded word: the kept characters, read by strtol and cast to u_int32_t. */
  function ParseToken(t: string): uint32 {
    HexPrefixWord(Kept(t))
  }

  /** ParseToken is what the C code computes for one token. */
  lemma ParseTokenIsStrtol(t: string)
    ensures ParseToken(t) == Truncate32(Strtol16("0x" + Kept(t)))
  {
    HexPrefixWordIsStrtol(Kept(t));
  }

  /** The words that parsing every token of s gives, in order. */
  function DecodeWith(parse: string -> uint32, s: string): (ws: seq<uint32>)
    decreases |s|
  {
    if s == [] then []
    else if IsDelimiter(s[0]) then DecodeWith(parse, s[1..])
    else
      var n := TokenLength(s);
      [parse(s[..n])] + DecodeWith(parse, s[n..])
  }

  /** The words cryptredis_decode stores for the text s. */
  function DecodeWords(s: string): seq<uint32> {
    DecodeWith(ParseToken, s)
  }

  /** Each token becomes exactly one word, in order. */
  lemma {:induction false} DecodePerToken(parse: string -> uint32, s: string)
    ensures |DecodeWith(parse, s)| == |Tokens(s)|
    ensures forall i :: 0 <= i < |Tokens(s)| ==> DecodeWith(parse, s)[i] == parse(Tokens(s)[i])
    decreases |s|
  {
    if s != [] {
      if IsDelimiter(s[0]) {
        DecodePerToken(parse, s[1..]);
      } else {
        var n := TokenLength(s);
        var ws, ts := DecodeWith(parse, s[n..]), Tokens(s[n..]);
        DecodePerToken(parse, s[n..]);
        assert DecodeWith(parse, s) == [parse(s[..n])] + ws;
        assert Tokens(s) == [s[..n]] + ts;
        forall i | 0 <= i < |Tokens(s)|
          ensures DecodeWith(parse, s)[i] == parse(Tokens(s)[i])
        {
          if i > 0 {
            assert DecodeWith(parse, s)[i] == ws[i - 1] && Tokens(s)[i] == ts[i - 1];
          }
        }
      }
    }
  }

  /** cryptredis_decode stores one word per token, each the token read as a 32-bit hex value. */
  lemma DecodeWordsPerToken(s: string)
    ensures |DecodeWords(s)| == |Tokens(s)|
    ensures forall i :: 0 <= i < |Tokens(s)| ==> DecodeWords(s)[i] == ParseToken(Tokens(s)[i])
  {
    DecodePerToken(ParseToken, s);
  }

  /** Where the token that starts at pos ends: the first delimiter from pos on. */
  function TokenEnd(s: string, pos: nat): (e: nat)
    requires pos <= |s|
    ensures pos <= e <= |s|
    ensures e < |s| ==> IsDelimiter(s[e])
    decreases |s| - pos
  {
    if pos == |s| || IsDelimiter(s[pos]) then pos else TokenEnd(s, pos + 1)
  }

  /** The words of the tokens from position pos on, as the strtok loop meets them. */
  function WordsFrom(parse: string -> uint32, s: string, pos: nat): seq<uint32>
    requires pos <= |s|
    decreases |s| - pos
  {
    if pos == |s| then []
    else if IsDelimiter(s[pos]) then WordsFrom(parse, s, pos + 1)
    else
      var e := TokenEnd(s, pos);
      [parse(s[pos..e])] + WordsFrom(parse, s, e)
  }

  lemma {:induction false} TokenEndIsLength(s: string, pos: nat)
    requires pos <= |s|
    ensures TokenEnd(s, pos) == pos + TokenLength(s[pos..])
    decreases |s| - pos
  {
    if pos < |s| && !IsDelimiter(s[pos]) {
      TokenEndIsLength(s, pos + 1);
      assert s[pos..][1..] == s[pos + 1..];
    }
  }

  /** Walking the text by position reads the same words as the token list. */
  lemma {:induction false} WordsFromIsDecodeWith(parse: string -> uint32, s: string, pos: nat)
    requires pos <= |s|
    ensures WordsFrom(parse, s, pos) == DecodeWith(parse, s[pos..])
    decreases |s| - pos
  {
    if pos < |s| {
      var r := s[pos..];
      if IsDelimiter(s[pos]) {
        WordsFromIsDecodeWith(parse, s, pos + 1);
        assert r[1..] == s[pos + 1..];
      } else {
        var e := TokenEnd(s, pos);
        TokenEndIsLength(s, pos);
        WordsFromIsDecodeWith(parse, s, e);
        assert r[..e - pos] == s[pos..e] && r[e - pos..] == s[e..];
      }
    }
  }

  /**
   * cryptredis_decode: the text is strndup(src, strlen(src)), the
   * characters of src before its first NUL; every token of it is stored as
   * one word, and the result is the number of bytes stored.
   */
  method Decode(src: string, dst: array<uint32>) returns (dstlen: int)
    requires |DecodeWords(CTypes.CString(src))| <= dst.Length
    modifies dst
    ensures var ws := DecodeWords(CTypes.CString(src));
      dstlen == 4 * |ws| && dst[..|ws|] == ws && dst[|ws|..] == old(dst[|ws|..])
  {
    var se := CTypes.CString(src);
    WordsFromIsDecodeWith(ParseToken, se, 0);
    assert se[0..] == se;
    ghost var whole := WordsFrom(ParseToken, se, 0);
    dstlen := 0;
    var pos := 0;
    var pd := 0;
    while pos < |se|
      invariant pos <= |se| && dstlen == 4 * pd && pd <= |whole| <= dst.Length
      invariant Progress(ParseToken, se, pos, dst[..pd], whole)
      invariant dst[pd..] == old(dst[pd..])
      decreases |se| - pos
    {
      if IsDelimiter(se[pos]) {
        Skipped(ParseToken, se, pos, dst[..pd], whole);
        pos := pos + 1;
      } else {
        var e := TokenEnd(se, pos);
        ghost var before := dst[..];
        Stored(ParseToken, se, pos, before, pd, whole);
        dst[pd] := ParseToken(se[pos..e]);
        dstlen := dstlen + 4;
        pd := pd + 1;
        pos := e;
      }
    }
  }

  /** The words stored so far, followed by those still to be read, are all the words. */
  ghost predicate Progress(parse: string -> uint32, src: string, pos: nat, stored: seq<uint32>, whole: seq<uint32>) {
    pos <= |src| && stored + WordsFrom(parse, src, pos) == whole
  }

  /** strtok passes over a delimiter. */
  lemma Skipped(parse: string -> uint32, src: string, pos: nat, stored: seq<uint32>, whole: seq<uint32>)
    requires Progress(parse, src, pos, stored, whole) && pos < |src| && IsDelimiter(src[pos])
    ensures Progress(parse, src, pos + 1, stored, whole)
  {
  }

  /**
   * Storing the word of the token at pos extends the stored prefix by that
   * word and leaves the rest of the buffer alone.
   */
  lemma Stored(parse: string -> uint32, src: string, pos: nat, before: seq<uint32>, pd: nat, whole: seq<uint32>)
    requires pd <= |whole| <= |before|
    requires Progress(parse, src, pos, before[..pd], whole) && pos < |src| && !IsDelimiter(src[pos])
    ensures var e := TokenEnd(src, pos);
      var after := before[pd := parse(src[pos..e])];
      pd < |whole| && Progress(parse, src, e, after[..pd + 1], whole) && after[pd + 1..] == before[pd + 1..]
  {
    var e := TokenEnd(src, pos);
    var w := parse(src[pos..e]);
    assert before[pd := w][..pd + 1] == before[..pd] + [w];
  }

  lemma TokenOfWord(h: string, rest: string)
    requires |h| == 8 && AllHexDigits(h) && forall i :: 0 <= i < 8 ==> h[i] != 'x' && h[i] != '\\'
    requires rest == [] || rest[0] == '\\'
    ensures TokenLength(h + rest) == 8
  {
    assert (h + rest)[..8] == h;
    TokenLengthRun(h + rest, 8);
  }

  lemma {:induction false} TokenLengthRun(s: string, n: nat)
    requires n <= |s| && (forall i :: 0 <= i < n ==> !IsDelimiter(s[i])) && (n < |s| ==> IsDelimiter(s[n]))
    ensures TokenLength(s) == n
  {
    if n > 0 {
      TokenLengthRun(s[1..], n - 1);
    }
  }

  /** Reading back one encoded word gives the word. */
  lemma ParseEncodedWord(w: uint32)
    ensures ParseToken(FixedHex(w as int, 8)) == w
  {
    var h := FixedHex(w as int, 8);
    assert Kept(h) == h;
    assert Pow16(8) == 0x1_0000_0000;
    HexPrefixWordFixed(w as int, 8);
  }

  /** Decoding the text form of a word sequence gives the words back. */
  lemma {:induction false} DecodeEncode(ws: seq<uint32>)
    ensures DecodeWords(EncodeWords(ws)) == ws
  {
    forall v | 0 <= v < 0x1_0000_0000
      ensures ParseToken(FixedHex(v, 8)) == v as uint32
    {
      ParseEncodedWord(v as uint32);
    }
    DecodeEncodeWith(ParseToken, ws);
  }

  lemma {:induction false} DecodeEncodeWith(parse: string -> uint32, ws: seq<uint32>)
    requires forall v :: 0 <= v < 0x1_0000_0000 ==> parse(FixedHex(v, 8)) == v as uint32
    ensures DecodeWith(parse, EncodeWords(ws)) == ws
  {
    if ws != [] {
      var h := FixedHex(ws[0] as int, 8);
      var rest := EncodeWords(ws[1..]);
      var s := EncodeWords(ws);
      assert s == "\\x" + h + rest;
      assert s[1..] == "x" + h + rest;
      assert s[1..][1..] == h + rest;
      assert DecodeWith(parse, s) == DecodeWith(parse, h + rest);
      TokenOfWord(h, rest);
      assert (h + rest)[..8] == h && (h + rest)[8..] == rest;
      assert DecodeWith(parse, h + rest) == [parse(h)] + DecodeWith(parse, rest);
      DecodeEncodeWith(parse, ws[1..]);
      assert ws == [ws[0]] + ws[1..];
    }
  }

  /** The text form of words holds no NUL, so strlen sees all of it. */
  lemma {:induction false} EncodeWordsNoNul(ws: seq<uint32>)
    ensures forall k :: 0 <= k < |EncodeWords(ws)| ==> EncodeWords(ws)[k] != '\0'
  {
    if ws != [] {
      EncodeWordsNoNul(ws[1..]);
      var h := FixedHex(ws[0] as int, 8);
      var s := EncodeWords(ws);
      assert s == "\\x" + h + EncodeWords(ws[1..]);
      forall k | 0 <= k < |s|
        ensures s[k] != '\0'
      {
        if 2 <= k < 10 {
          assert s[k] == h[k - 2] && IsHexDigit(h[k - 2]);
        } else if 10 <= k {
          assert s[k] == EncodeWords(ws[1..])[k - 10];
        }
      }
    }
  }

  /** cryptredis_decode reads back, as a C string, what cryptredis_encode wrote. */
  lemma DecodeEncodedText(ws: seq<uint32>)
    ensures DecodeWords(CTypes.CString(EncodeWords(ws))) == ws
  {
    EncodeWordsNoNul(ws);
    CTypes.CStringWhole(EncodeWords(ws));
    DecodeEncode(ws);
  }

  /**
   * The test vector of tests/regress.c: four words encode to forty
   * characters and decode to sixteen bytes.
   */
  lemma FourWordText(ws: seq<uint32>)
    requires |ws| == 4
    ensures |EncodeWords(ws)| == 40 && 4 * |DecodeWords(EncodeWords(ws))| == 16
  {
    DecodeEncode(ws);
  }
}
