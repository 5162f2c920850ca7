/**
 * CryptRedisDb as cryptredisdb.cpp, the older revision of db.cpp, has it.
 * It differs from the newer one in setKey, which stores every word into the
 * first key word, in setCryptEnabled, which zeroes only the first key word,
 * reads the key itself and allocates two crypto buffers, and in buildReply,
 * which checks for a missing reply before reading it.
 */
module LegacyDb {
  import opened Wrappers
  import opened CTypes
  import opened Hex
  import opened Hiredis
  import opened Result
  import Replies
  import Db

  /** CRYPTREDIS_MAXSIZBUF of cryptredis.h. */
  const MAXSIZBUF: int := 8192 * 1024

  const ALLOC_FAILED := "could not allocate crypto buffers"

  /**
   * The key words after this setKey: the pointer pk never advances, so all
   * four words land in word 0 and the last, from group 3, stays there.
   */
  function LegacyKeyWords(before: seq<uint32>, keystr: string): (w: seq<uint32>)
    requires |before| == Db.KEY_SIZE
    ensures |w| == Db.KEY_SIZE
  {
    before[0 := Db.KeyWords(keystr)[3]]
  }

  /** memset(d->cryptkey, 0x0, sizeof(KEY_SIZE)), with KEY_SIZE an int constant, clears 4 bytes: the first word only. */
  function LegacyWipe(before: seq<uint32>): (w: seq<uint32>)
    requires |before| == Db.KEY_SIZE
    ensures |w| == Db.KEY_SIZE
  {
    before[0 := 0]
  }

  /**
   * The older setKey agrees with the intended one only when group 3 spells
   * the same word as group 0 and words 1 to 3 already held groups 1 to 3.
   */
  lemma LegacyKeyLost(before: seq<uint32>, keystr: string)
    requires |before| == Db.KEY_SIZE
    ensures LegacyKeyWords(before, keystr) == Db.KeyWords(keystr) <==>
      Db.KeyWords(keystr)[3] == Db.KeyWords(keystr)[0] && before[1..] == Db.KeyWords(keystr)[1..]
  {
    var w := Db.KeyWords(keystr);
    var l := LegacyKeyWords(before, keystr);
    assert l == [w[3]] + before[1..];
    assert w == [w[0]] + w[1..];
  }

  /** Any key word other than the first survives the older wipe. */
  lemma LegacyWipeKeeps(before: seq<uint32>)
    requires |before| == Db.KEY_SIZE
    ensures LegacyWipe(before)[1..] == before[1..]
    ensures LegacyWipe(before) == [0, 0, 0, 0] <==> before[1..] == [0, 0, 0]
  {
    assert LegacyWipe(before) == [0, before[1], before[2], before[3]];
    assert before[1..] == [before[1], before[2], before[3]];
  }

  class CryptRedisDb {
    var redisConnected: bool
    var hasContext: bool
    var lastError: string
    var host: string
    var port: int32
    var cryptEnabled: bool
    var bufsiz: int
    const cryptKey: array<uint32>

    ghost predicate Valid()
      reads this
    {
      cryptKey.Length == Db.KEY_SIZE && hasContext == redisConnected
    }

    /**
     * Not connected, no context, port -1 and encryption off.  The constructor
     * leaves the key words as the allocation found them: initialKey.
     */
    constructor (initialKey: seq<uint32>)
      requires |initialKey| == Db.KEY_SIZE
      ensures Valid() && fresh(cryptKey)
      ensures !cryptEnabled && port == -1 && !redisConnected && !hasContext
      ensures host == "" && lastError == ""
      ensures cryptKey[..] == initialKey
    {
      cryptEnabled := false;
      port := -1;
      redisConnected := false;
      hasContext := false;
      host := "";
      lastError := "";
      cryptKey := new uint32[Db.KEY_SIZE](i requires 0 <= i < Db.KEY_SIZE => initialKey[i]);
    }

    /** CryptRedisDbPrivate::setKey of this revision: `*pk = ...` with pk fixed at the first word. */
    method SetKey(keystr: string)
      requires Valid() && Db.BLKSIZ * (Db.KEY_SIZE - 1) <= |keystr|
      modifies cryptKey
      ensures cryptKey[..] == LegacyKeyWords(old(cryptKey[..]), keystr)
    {
      var p := 0;
      var i := 0;
      while i < Db.KEY_SIZE
        invariant 0 <= i <= Db.KEY_SIZE && p == Db.BLKSIZ * i
        invariant cryptKey[1..] == old(cryptKey[1..])
        invariant i == 0 ==> cryptKey[0] == old(cryptKey[0])
        invariant i > 0 ==> cryptKey[0] == Db.KeyWords(keystr)[i - 1]
      {
        var blkbuf := Db.BlockBuffer(keystr[p..]);
        var w := Truncate32(Strtol16(blkbuf));
        Db.BlockWord(keystr, i);
        cryptKey[0] := w;
        p := p + Db.BLKSIZ;
        i := i + 1;
      }
      assert cryptKey[..] == [cryptKey[0]] + cryptKey[1..];
      assert old(cryptKey[..]) == [old(cryptKey[0])] + old(cryptKey[1..]);
    }

    /**
     * setCryptEnabled, with getenv("CRYPTREDISKEY") and the success of the two
     * buffer allocations as parameters.
     */
    method SetCryptEnabled(enable: bool, keystr: Option<string>, buffersOk: bool)
      requires Valid() && Db.KeyReadable(keystr)
      modifies this, cryptKey
      ensures Valid()
      ensures redisConnected == old(redisConnected) && hasContext == old(hasContext)
      ensures host == old(host) && port == old(port)
      ensures !enable || !Db.KeyAccepted(keystr) ==> cryptKey[..] == LegacyWipe(old(cryptKey[..]))
      ensures !enable ==> !cryptEnabled && lastError == old(lastError) && bufsiz == old(bufsiz)
      ensures enable && !Db.KeyAccepted(keystr) ==>
        !cryptEnabled && lastError == Db.KEY_TOO_SMALL && bufsiz == old(bufsiz)
      ensures enable && Db.KeyAccepted(keystr) ==>
        cryptKey[..] == LegacyKeyWords(LegacyWipe(old(cryptKey[..])), keystr.value) &&
        bufsiz == MAXSIZBUF && (cryptEnabled <==> buffersOk) &&
        lastError == (if buffersOk then old(lastError) else ALLOC_FAILED)
    {
      cryptKey[0] := 0;
      cryptEnabled := false;
      if !enable {
        return;
      }
      if keystr.None? || |keystr.value| < Db.MIN_KEY_LENGTH {
        lastError := Db.KEY_TOO_SMALL;
        return;
      }
      SetKey(keystr.value);
      bufsiz := MAXSIZBUF;
      if !buffersOk {
        lastError := ALLOC_FAILED;
        return;
      }
      cryptEnabled := true;
    }

    /** buildReply: a missing reply clears the result; otherwise the reply is stored, except on the decrypting branch of get. */
    method BuildReply(reply: Option<Reply>, rpl: CryptRedisResult, decrypt: bool)
      requires !(decrypt && cryptEnabled)
      modifies rpl
      ensures reply.None? ==> rpl.Snapshot() == CLEARED
      ensures reply.Some? ==> rpl.Snapshot() == Replies.Filled(old(rpl.Snapshot()), reply.value)
    {
      if reply.None? {
        rpl.Invalidate();
        return;
      }
      Replies.Store(reply.value, rpl);
    }

    /** CryptRedisDbPrivate::connect: nothing to do when connected. */
    method Connect(h: string, p: int32, net: Connector) returns (ok: bool)
      requires Valid()
      modifies this
      ensures Valid() && ok == redisConnected
      ensures host == old(host) && port == old(port) && cryptEnabled == old(cryptEnabled)
      ensures old(redisConnected) ==> ok && lastError == old(lastError)
      ensures !old(redisConnected) ==> (ok <==> net(h, p).Established?)
      ensures !old(redisConnected) && net(h, p).Refused? ==> lastError == net(h, p).errstr
      ensures !old(redisConnected) && !net(h, p).Refused? ==> lastError == old(lastError)
      ensures bufsiz == old(bufsiz)
    {
      if redisConnected {
        return redisConnected;
      }
      redisConnected := false;
      var context := net(h, p);
      hasContext := !context.NoContext?;
      if context.NoContext? {
        return false;
      }
      if context.Refused? {
        lastError := context.errstr;
        hasContext := false;
        return false;
      }
      redisConnected := true;
      return true;
    }

    /** open: a non-empty host and a positive port replace the stored ones, then connect. */
    method Open(h: string, p: int32, net: Connector) returns (ok: bool)
      requires Valid()
      modifies this
      ensures Valid() && ok == redisConnected && cryptEnabled == old(cryptEnabled)
      ensures host == (if h != "" && p > 0 then h else old(host))
      ensures port == (if h != "" && p > 0 then p else old(port))
      ensures old(redisConnected) ==> ok
      ensures !old(redisConnected) ==> (ok <==> net(host, port).Established?)
      ensures old(redisConnected) ==> lastError == old(lastError)
      ensures !old(redisConnected) && net(host, port).Refused? ==> lastError == net(host, port).errstr
      ensures !old(redisConnected) && !net(host, port).Refused? ==> lastError == old(lastError)
      ensures bufsiz == old(bufsiz)
    {
      if h != "" && p > 0 {
        host := h;
        port := p;
      }
      ok := Connect(host, port, net);
    }

    /** close: frees the context and leaves the object disconnected. */
    method Close()
      requires Valid()
      modifies this
      ensures Valid() && !redisConnected && !hasContext
      ensures lastError == old(lastError) && host == old(host) && port == old(port) && cryptEnabled == old(cryptEnabled)
      ensures bufsiz == old(bufsiz)
    {
      if hasContext {
        hasContext := false;
      }
      redisConnected := false;
    }
  }
}
