/**
 * Rijndael in a CBC-like chaining over 32-bit words, as in bsd-crypt.c
 * (after OpenBSD's swap encryption).  The block cipher itself is abstract:
 * a pair of functions supplied by the caller, with the inverse law stated
 * as a hypothesis where a proof needs it.
 */
module BsdCrypt {
  /** KEY_SIZE: a key is four 32-bit words (128 bits). */
  const KEY_SIZE: nat := 4

  type Key = k: seq<bv32> | |k| == KEY_SIZE witness [0, 0, 0, 0]
  /** One 16-byte cipher block, as four native-endian words. */
  type Block = b: seq<bv32> | |b| == 4 witness [0, 0, 0, 0]

  /** rijndael_encrypt / rijndael_decrypt under the schedule of a key. */
  datatype Rijndael = Rijndael(encrypt: (Key, Block) -> Block, decrypt: (Key, Block) -> Block)

  ghost predicate Inverts(aes: Rijndael) {
    forall k: Key, b: Block :: aes.decrypt(k, aes.encrypt(k, b)) == b
  }

  /**
   * The file-static rijndael_ctx: no schedule yet, or the schedule of a key,
   * built for encryption only (rijndael_set_key_enc_only) or for both
   * directions (rijndael_set_key).
   */
  datatype Context = Unset | Schedule(key: Key, encOnly: bool)

  function Forward(aes: Rijndael, ctx: Context, b: Block): Block
    requires ctx.Schedule?
  {
    aes.encrypt(ctx.key, b)
  }

  /** Decryption needs the full schedule; an enc-only context does not have it. */
  function Inverse(aes: Rijndael, ctx: Context, b: Block): Block
    requires ctx.Schedule? && !ctx.encOnly
  {
    aes.decrypt(ctx.key, b)
  }

  /**
   * memcpy of key words 2 and 3 into a u_int64_t on a little-endian machine:
   * key word 3 is the high half, key word 2 the low half.
   */
  function Seed(key: Key): (block: bv64)
    ensures (block >> 32) as bv32 == key[3] && (block & 0xffff_ffff) as bv32 == key[2]
  {
    ((key[3] as bv64) << 32) | (key[2] as bv64)
  }

  /** iv[0] = block >> 32; iv[1] = block; iv[2] = ~iv[0]; iv[3] = ~iv[1]. */
  function Whiten(block: bv64): (iv: Block)
    ensures iv[2] == !iv[0] && iv[3] == !iv[1]
  {
    var hi := (block >> 32) as bv32;
    var lo := (block & 0xffff_ffff) as bv32;
    [hi, lo, !hi, !lo]
  }

  /** The first chaining value: the whitened seed, encrypted under the key. */
  function InitialFeedback(aes: Rijndael, key: Key): Block {
    aes.encrypt(key, Whiten(Seed(key)))
  }

  /** Word-by-word exclusive or of two blocks. */
  function Xor(a: Block, b: Block): Block {
    XorWords(a, b)
  }

  function XorWords(a: seq<bv32>, b: seq<bv32>): (r: seq<bv32>)
    requires |a| == |b|
    ensures |r| == |a|
  {
    if a == [] then [] else [a[0] ^ b[0]] + XorWords(a[1..], b[1..])
  }

  lemma {:induction false} XorWordsCancel(a: seq<bv32>, b: seq<bv32>)
    requires |a| == |b|
    ensures XorWords(XorWords(a, b), b) == a
  {
    if a != [] {
      var r := XorWords(a, b);
      assert r[0] == a[0] ^ b[0] && r[1..] == XorWords(a[1..], b[1..]);
      XorWordsCancel(a[1..], b[1..]);
      assert a == [a[0]] + a[1..];
    }
  }

  /** Words 4j .. 4j+3 of s. */
  function BlockAt(s: seq<bv32>, j: nat): Block
    requires 4 * j + 4 <= |s|
  {
    s[4 * j..4 * j + 4]
  }

  /** Each plaintext block is xored with the previous cipher block, then encrypted. */
  function ChainEncrypt(aes: Rijndael, key: Key, fb: Block, p: seq<bv32>): (c: seq<bv32>)
    requires |p| % 4 == 0
    ensures |c| == |p|
    decreases |p|
  {
    if p == [] then []
    else
      var ct := aes.encrypt(key, Xor(p[..4], fb));
      ct + ChainEncrypt(aes, key, ct, p[4..])
  }

  /** Each cipher block is decrypted, then xored with the previous cipher block. */
  function ChainDecrypt(aes: Rijndael, key: Key, fb: Block, c: seq<bv32>): (p: seq<bv32>)
    requires |c| % 4 == 0
    ensures |p| == |c|
    decreases |c|
  {
    if c == [] then []
    else Xor(aes.decrypt(key, c[..4]), fb) + ChainDecrypt(aes, key, c[..4], c[4..])
  }

  function EncryptWords(aes: Rijndael, key: Key, p: seq<bv32>): seq<bv32>
    requires |p| % 4 == 0
  {
    ChainEncrypt(aes, key, InitialFeedback(aes, key), p)
  }

  function DecryptWords(aes: Rijndael, key: Key, c: seq<bv32>): seq<bv32>
    requires |c| % 4 == 0
  {
    ChainDecrypt(aes, key, InitialFeedback(aes, key), c)
  }

  /** The state bsd-crypt.c keeps between calls: its static rijndael_ctx. */
  class CipherState {
    var ctxt: Context

    constructor ()
      ensures ctxt == Unset
    {
      ctxt := Unset;
    }

    /** cryptredis_key_prepare: schedules the key and returns key words 2-3 as one u_int64_t. */
    method KeyPrepare(key: Key, encrypt: bool) returns (block: bv64)
      modifies this
      ensures ctxt == Schedule(key, encrypt)
      ensures block == Seed(key)
    {
      block := ((key[3] as bv64) << 32) | (key[2] as bv64);
      ctxt := Schedule(key, encrypt);
    }

    /**
     * cryptredis_encrypt: count is a byte count; its count / 4 words must
     * come in whole blocks, otherwise the loop counter wraps around.
     */
    method Encrypt(aes: Rijndael, key: Key, src: seq<bv32>, dst: array<bv32>, count: nat)
      requires (count / 4) % 4 == 0 && count / 4 <= |src| && count / 4 <= dst.Length
      modifies this, dst
      ensures ctxt == Schedule(key, true)
      ensures dst[..count / 4] == EncryptWords(aes, key, src[..count / 4])
      ensures dst[count / 4..] == old(dst[count / 4..])
    {
      var block := KeyPrepare(key, true);
      var n := count / 4;
      var p := src[..n];
      var ctx := ctxt;
      var iv: Block := Forward(aes, ctx, Whiten(block));
      var i := 0;
      while i < n
        invariant 0 <= i <= n && i % 4 == 0
        invariant ctxt == Schedule(key, true)
        invariant dst[..i] + ChainEncrypt(aes, key, iv, p[i..]) == EncryptWords(aes, key, p)
        invariant dst[n..] == old(dst[n..])
      {
        NextBlock(i, n);
        EncryptStep(aes, key, iv, p, i);
        ghost var before := dst[..];
        EncryptInPlace(aes, ctx, dst, i, p[i..i + 4], iv);
        PrefixAfterStore(before, dst[..], i, n, dst[i..i + 4],
          ChainEncrypt(aes, key, dst[i..i + 4], p[i + 4..]), EncryptWords(aes, key, p));
        iv := dst[i..i + 4];
        i := i + 4;
      }
      assert p[n..] == [];
    }

    /** cryptredis_decrypt, with the same demand on count. */
    method Decrypt(aes: Rijndael, key: Key, src: seq<bv32>, dst: array<bv32>, count: nat)
      requires (count / 4) % 4 == 0 && count / 4 <= |src| && count / 4 <= dst.Length
      modifies this, dst
      ensures ctxt == Schedule(key, false)
      ensures dst[..count / 4] == DecryptWords(aes, key, src[..count / 4])
      ensures dst[count / 4..] == old(dst[count / 4..])
    {
      var block := KeyPrepare(key, false);
      var n := count / 4;
      var p := src[..n];
      var ctx := ctxt;
      var iv: Block := Forward(aes, ctx, Whiten(block));
      var i := 0;
      while i < n
        invariant 0 <= i <= n && i % 4 == 0
        invariant ctxt == Schedule(key, false)
        invariant dst[..i] + ChainDecrypt(aes, key, iv, p[i..]) == DecryptWords(aes, key, p)
        invariant dst[n..] == old(dst[n..])
      {
        NextBlock(i, n);
        DecryptStep(aes, key, iv, p, i);
        ghost var before := dst[..];
        var niv: Block := p[i..i + 4];
        DecryptInPlace(aes, ctx, dst, i, niv, iv);
        PrefixAfterStore(before, dst[..], i, n, Xor(aes.decrypt(key, niv), iv),
          ChainDecrypt(aes, key, niv, p[i + 4..]), DecryptWords(aes, key, p));
        iv := niv;
        i := i + 4;
      }
      assert p[n..] == [];
    }
  }

  lemma NextBlock(i: int, n: int)
    requires 0 <= i < n && i % 4 == 0 && n % 4 == 0
    ensures i + 4 <= n && (i + 4) % 4 == 0 && (n - (i + 4)) % 4 == 0
  {
  }

  lemma EncryptStep(aes: Rijndael, key: Key, iv: Block, p: seq<bv32>, i: nat)
    requires i % 4 == 0 && |p| % 4 == 0 && i + 4 <= |p|
    ensures ChainEncrypt(aes, key, iv, p[i..])
      == aes.encrypt(key, Xor(p[i..i + 4], iv)) + ChainEncrypt(aes, key, aes.encrypt(key, Xor(p[i..i + 4], iv)), p[i + 4..])
  {
    assert p[i..][..4] == p[i..i + 4] && p[i..][4..] == p[i + 4..];
  }

  lemma DecryptStep(aes: Rijndael, key: Key, iv: Block, c: seq<bv32>, i: nat)
    requires i % 4 == 0 && |c| % 4 == 0 && i + 4 <= |c|
    ensures ChainDecrypt(aes, key, iv, c[i..])
      == Xor(aes.decrypt(key, c[i..i + 4]), iv) + ChainDecrypt(aes, key, c[i..i + 4], c[i + 4..])
  {
    assert c[i..][..4] == c[i..i + 4] && c[i..][4..] == c[i + 4..];
  }

  /**
   * After a block store at i, the prefix grows by the block b and the tail
   * from n is untouched; if b followed by rest was what remained to be
   * computed, rest is what remains now.
   */
  lemma PrefixAfterStore(before: seq<bv32>, after: seq<bv32>, i: nat, n: nat, b: seq<bv32>,
                         rest: seq<bv32>, whole: seq<bv32>)
    requires i + 4 <= n <= |before| && |b| == 4
    requires |after| == |before|
    requires after[..i] == before[..i] && after[i..i + 4] == b && after[i + 4..] == before[i + 4..]
    requires before[..i] + (b + rest) == whole
    ensures after[..i + 4] + rest == whole && after[n..] == before[n..]
  {
    assert after[..i + 4] == before[..i] + b;
    assert after[n..] == after[i + 4..][n - (i + 4)..];
  }

  /** One block of cryptredis_encrypt's loop: ddst = dsrc ^ iv, then encrypted in place. */
  method EncryptInPlace(aes: Rijndael, ctx: Context, dst: array<bv32>, i: nat, pb: Block, iv: Block)
    requires ctx.Schedule? && i + 4 <= dst.Length
    modifies dst
    ensures dst[..i] == old(dst[..i]) && dst[i + 4..] == old(dst[i + 4..])
    ensures dst[i..i + 4] == Forward(aes, ctx, Xor(pb, iv))
  {
    StoreBlock(dst, i, Xor(pb, iv));
    StoreBlock(dst, i, Forward(aes, ctx, dst[i..i + 4]));
  }

  /** One block of cryptredis_decrypt's loop: ddst = dsrc, decrypted in place, then ^= iv. */
  method DecryptInPlace(aes: Rijndael, ctx: Context, dst: array<bv32>, i: nat, cb: Block, iv: Block)
    requires ctx.Schedule? && !ctx.encOnly && i + 4 <= dst.Length
    modifies dst
    ensures dst[..i] == old(dst[..i]) && dst[i + 4..] == old(dst[i + 4..])
    ensures dst[i..i + 4] == Xor(Inverse(aes, ctx, cb), iv)
  {
    StoreBlock(dst, i, cb);
    StoreBlock(dst, i, Inverse(aes, ctx, dst[i..i + 4]));
    StoreBlock(dst, i, Xor(dst[i..i + 4], iv));
  }

  /** Overwrites words i .. i+3 of dst with b. */
  method StoreBlock(dst: array<bv32>, i: nat, b: Block)
    requires i + 4 <= dst.Length
    modifies dst
    ensures dst[..i] == old(dst[..i]) && dst[i..i + 4] == b && dst[i + 4..] == old(dst[i + 4..])
  {
    dst[i], dst[i + 1], dst[i + 2], dst[i + 3] := b[0], b[1], b[2], b[3];
  }

  /** The whitened seed is key word 3 then key word 2, each followed by its complement. */
  lemma WhitenedSeed(key: Key)
    ensures Whiten(Seed(key)) == [key[3], key[2], !key[3], !key[2]]
  {
    WhitenKey(Seed(key), key);
  }

  lemma WhitenKey(block: bv64, key: Key)
    requires (block >> 32) as bv32 == key[3] && (block & 0xffff_ffff) as bv32 == key[2]
    ensures Whiten(block) == [key[3], key[2], !key[3], !key[2]]
  {
    WhitenHalves(block, key[3], key[2]);
  }

  lemma WhitenHalves(block: bv64, hi: bv32, lo: bv32)
    requires (block >> 32) as bv32 == hi && (block & 0xffff_ffff) as bv32 == lo
    ensures Whiten(block) == [hi, lo, !hi, !lo]
  {
  }

  /** Cipher block j is the encryption of plaintext block j xored with cipher block j - 1. */
  lemma {:induction false} EncryptBlock(aes: Rijndael, key: Key, fb: Block, p: seq<bv32>, j: nat)
    requires |p| % 4 == 0 && 4 * j + 4 <= |p|
    decreases j
    ensures var c := ChainEncrypt(aes, key, fb, p);
      BlockAt(c, j) == aes.encrypt(key, Xor(BlockAt(p, j), if j == 0 then fb else BlockAt(c, j - 1)))
  {
    var ct := aes.encrypt(key, Xor(p[..4], fb));
    var rest := ChainEncrypt(aes, key, ct, p[4..]);
    assert p == p[..4] + p[4..];
    BlockAtCons(p[..4], p[4..], j);
    BlockAtCons(ct, rest, j);
    if j > 0 {
      EncryptBlock(aes, key, ct, p[4..], j - 1);
      if j > 1 {
        BlockAtCons(ct, rest, j - 1);
      }
    }
  }

  /** Plaintext block j depends only on cipher blocks j and j - 1. */
  lemma {:induction false} DecryptBlock(aes: Rijndael, key: Key, fb: Block, c: seq<bv32>, j: nat)
    requires |c| % 4 == 0 && 4 * j + 4 <= |c|
    decreases j
    ensures BlockAt(ChainDecrypt(aes, key, fb, c), j)
      == Xor(aes.decrypt(key, BlockAt(c, j)), if j == 0 then fb else BlockAt(c, j - 1))
  {
    var head := Xor(aes.decrypt(key, c[..4]), fb);
    var rest := ChainDecrypt(aes, key, c[..4], c[4..]);
    assert c == c[..4] + c[4..];
    BlockAtCons(c[..4], c[4..], j);
    BlockAtCons(head, rest, j);
    if j > 0 {
      DecryptBlock(aes, key, c[..4], c[4..], j - 1);
      if j > 1 {
        BlockAtCons(c[..4], c[4..], j - 1);
      }
    }
  }

  lemma BlockAtCons(b: seq<bv32>, s: seq<bv32>, j: nat)
    requires |b| == 4 && 4 * j + 4 <= |b| + |s|
    ensures j == 0 ==> BlockAt(b + s, j) == b
    ensures j > 0 ==> BlockAt(b + s, j) == BlockAt(s, j - 1)
  {
    if j == 0 {
      assert (b + s)[..4] == b;
    } else {
      assert (b + s)[4 * j..4 * j + 4] == s[4 * (j - 1)..4 * (j - 1) + 4];
    }
  }

  /**
   * Damage to cipher block i reaches plaintext blocks i and i + 1 only: every
   * other plaintext block decrypts as before.
   */
  lemma DecryptLocality(aes: Rijndael, key: Key, c1: seq<bv32>, c2: seq<bv32>, i: nat)
    requires |c1| == |c2| && |c1| % 4 == 0
    requires forall j: nat :: j != i && 4 * j + 4 <= |c1| ==> BlockAt(c1, j) == BlockAt(c2, j)
    ensures forall j: nat :: j != i && j != i + 1 && 4 * j + 4 <= |c1| ==>
      BlockAt(DecryptWords(aes, key, c1), j) == BlockAt(DecryptWords(aes, key, c2), j)
  {
    var fb := InitialFeedback(aes, key);
    forall j: nat | j != i && j != i + 1 && 4 * j + 4 <= |c1|
      ensures BlockAt(DecryptWords(aes, key, c1), j) == BlockAt(DecryptWords(aes, key, c2), j)
    {
      DecryptBlock(aes, key, fb, c1, j);
      DecryptBlock(aes, key, fb, c2, j);
      if j > 0 {
        assert BlockAt(c1, j - 1) == BlockAt(c2, j - 1);
      }
    }
  }

  lemma XorCancel(a: Block, b: Block)
    ensures Xor(Xor(a, b), b) == a
  {
    XorWordsCancel(a, b);
  }

  lemma {:induction false} ChainRoundTrip(aes: Rijndael, key: Key, fb: Block, p: seq<bv32>)
    requires Inverts(aes) && |p| % 4 == 0
    ensures ChainDecrypt(aes, key, fb, ChainEncrypt(aes, key, fb, p)) == p
    decreases |p|
  {
    if p != [] {
      var ct := aes.encrypt(key, Xor(p[..4], fb));
      var c := ChainEncrypt(aes, key, fb, p);
      assert c[..4] == ct && c[4..] == ChainEncrypt(aes, key, ct, p[4..]);
      XorCancel(p[..4], fb);
      ChainRoundTrip(aes, key, ct, p[4..]);
      assert p == p[..4] + p[4..];
    }
  }

  /** Decrypting under the same key what was encrypted under it gives the plaintext back. */
  lemma RoundTrip(aes: Rijndael, key: Key, p: seq<bv32>)
    requires Inverts(aes) && |p| % 4 == 0
    ensures DecryptWords(aes, key, EncryptWords(aes, key, p)) == p
  {
    ChainRoundTrip(aes, key, InitialFeedback(aes, key), p);
  }
}
