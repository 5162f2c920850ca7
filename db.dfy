/**
 * CryptRedisDb (db.cpp): the C++ client object.  It holds the connection
 * flags, the last error text, the host and port, and the encryption switch
 * with the four key words that setKey reads from the CRYPTREDISKEY string.
 * Redis traffic is left out; redisConnect is a parameter.
 */
module Db {
  import opened Wrappers
  import opened CTypes
  import opened Hex
  import opened Hiredis
  import opened Result
  import Replies

  const KEY_SIZE: nat := 4
  /** Two characters per key byte: each key word takes an eight-character group. */
  const BLKSIZ: nat := 8
  /** KEY_SIZE * sizeof(u_int32_t): the shortest key string resetKey accepts. */
  const MIN_KEY_LENGTH: nat := 16

  const INVALID_KEY := "invalid key"
  const KEY_TOO_SMALL := "key is too small (less than 128bits)"

  /** What snprintf(blkbuf, BLKSIZ, "0x%s", p) leaves in the 8-byte buffer: "0x" and at most five characters of p. */
  function BlockBuffer(rest: string): (b: string)
    ensures |b| < BLKSIZ
  {
    ("0x" + rest)[..Min(BLKSIZ - 1, 2 + |rest|)]
  }

  /** The characters of the i-th eight-character group that survive the buffer: its first five. */
  function KeyGroup(keystr: string, i: nat): (g: string)
    ensures |g| <= 5
  {
    keystr[Min(BLKSIZ * i, |keystr|)..Min(BLKSIZ * i + 5, |keystr|)]
  }

  /** The key words setKey derives: word i is the hex value of the first five characters of group i. */
  function KeyWords(keystr: string): (w: seq<uint32>)
    ensures |w| == KEY_SIZE
  {
    seq(KEY_SIZE, i requires 0 <= i < KEY_SIZE => HexPrefixWord(KeyGroup(keystr, i)))
  }

  /** (u_int32_t)strtol(blkbuf, NULL, 16) for group i is key word i. */
  lemma BlockWord(keystr: string, i: nat)
    requires BLKSIZ * i <= |keystr|
    ensures Truncate32(Strtol16(BlockBuffer(keystr[BLKSIZ * i..]))) == HexPrefixWord(KeyGroup(keystr, i))
  {
    var rest := keystr[BLKSIZ * i..];
    var g := KeyGroup(keystr, i);
    assert g == rest[..Min(5, |rest|)];
    assert BlockBuffer(rest) == "0x" + g;
    HexPrefixWordIsStrtol(g);
  }

  /** Only five hex digits survive per word, so every key word is below 16^5 = 2^20. */
  lemma KeyWordsBelow(keystr: string)
    ensures forall i :: 0 <= i < KEY_SIZE ==> KeyWords(keystr)[i] < 0x10_0000
  {
    forall i | 0 <= i < KEY_SIZE
      ensures KeyWords(keystr)[i] < 0x10_0000
    {
      GroupWordBelow(KeyGroup(keystr, i));
    }
  }

  lemma GroupWordBelow(g: string)
    requires |g| <= 5
    ensures HexPrefixWord(g) < 0x10_0000
  {
    var low := LastChars(g[..DigitRun(g)], 8);
    HexValueBound(low);
    Pow16Monotone(|low|, 5);
    assert Pow16(5) == 0x10_0000;
  }

  /** A group that starts with five hex digits gives their value. */
  lemma KeyWordDigits(keystr: string, i: nat)
    requires i < KEY_SIZE && BLKSIZ * i + 5 <= |keystr|
    requires AllHexDigits(keystr[BLKSIZ * i..BLKSIZ * i + 5])
    ensures KeyWords(keystr)[i] as int == HexValue(keystr[BLKSIZ * i..BLKSIZ * i + 5])
  {
    var g := KeyGroup(keystr, i);
    DigitRunAll(g);
    assert g[..DigitRun(g)] == g;
    assert LastChars(g, 8) == g;
    HexValueBound(g);
    Pow16Monotone(5, 8);
    assert Pow16(8) == 0x1_0000_0000;
  }

  /** The last three characters of every group are never read: keys that differ only there give the same words. */
  lemma KeyTailIgnored(k1: string, k2: string)
    requires |k1| == |k2|
    requires forall j :: 0 <= j < |k1| && j % BLKSIZ < 5 ==> k1[j] == k2[j]
    ensures KeyWords(k1) == KeyWords(k2)
  {
    forall i | 0 <= i < KEY_SIZE
      ensures KeyGroup(k1, i) == KeyGroup(k2, i)
    {
      if BLKSIZ * i < |k1| {
        GroupAgrees(k1, k2, i);
      }
    }
  }

  lemma GroupAgrees(k1: string, k2: string, i: nat)
    requires |k1| == |k2| && BLKSIZ * i < |k1|
    requires forall j :: 0 <= j < |k1| && j % BLKSIZ < 5 ==> k1[j] == k2[j]
    ensures KeyGroup(k1, i) == KeyGroup(k2, i)
  {
    var g1 := KeyGroup(k1, i);
    var g2 := KeyGroup(k2, i);
    forall d | 0 <= d < |g1|
      ensures g1[d] == g2[d]
    {
      ModUnique(BLKSIZ * i + d, BLKSIZ, i, d);
      assert g1[d] == k1[BLKSIZ * i + d];
    }
  }

  /** After i passes of setKey's loop: the first i words are in place. */
  ghost predicate KeySoFar(now: seq<uint32>, keystr: string, i: nat) {
    |now| == KEY_SIZE && i <= KEY_SIZE && forall k :: 0 <= k < i ==> now[k] == KeyWords(keystr)[k]
  }

  lemma KeyStep(now: seq<uint32>, keystr: string, i: nat, w: uint32)
    requires KeySoFar(now, keystr, i) && i < KEY_SIZE && w == KeyWords(keystr)[i]
    ensures KeySoFar(now[i := w], keystr, i + 1)
    ensures i + 1 == KEY_SIZE ==> now[i := w] == KeyWords(keystr)
  {
  }

  /** The key strings setKey can read without running past the end: all four groups start inside the string. */
  predicate KeyReadable(keystr: Option<string>) {
    keystr.None? || |keystr.value| < MIN_KEY_LENGTH || BLKSIZ * (KEY_SIZE - 1) <= |keystr.value|
  }

  /** resetKey accepts a key string that is set and at least 16 characters long. */
  predicate KeyAccepted(keystr: Option<string>) {
    keystr.Some? && |keystr.value| >= MIN_KEY_LENGTH
  }

  /** The last_error resetKey leaves for a key string it refuses. */
  function KeyError(keystr: Option<string>): string {
    if keystr.None? then INVALID_KEY else KEY_TOO_SMALL
  }

  class CryptRedisDb {
    var redisConnected: bool
    /** Whether redis_context points at a context. */
    var hasContext: bool
    var lastError: string
    var host: string
    var port: int32
    var cryptEnabled: bool
    const cryptKey: array<uint32>

    /** A context exists exactly while the object is connected. */
    ghost predicate Valid()
      reads this
    {
      cryptKey.Length == KEY_SIZE && hasContext == redisConnected
    }

    /** Not connected, no context, port -1, encryption off and the key words zero. */
    constructor ()
      ensures Valid() && fresh(cryptKey)
      ensures !cryptEnabled && port == -1 && !redisConnected && !hasContext
      ensures host == "" && lastError == ""
      ensures cryptKey[..] == [0, 0, 0, 0]
    {
      cryptEnabled := false;
      port := -1;
      redisConnected := false;
      hasContext := false;
      host := "";
      lastError := "";
      cryptKey := new uint32[KEY_SIZE](_ => 0);
      new;
      assert cryptKey[..] == [cryptKey[0], cryptKey[1], cryptKey[2], cryptKey[3]];
    }

    /** CryptRedisDbPrivate::setKey: one key word per eight-character group. */
    method SetKey(keystr: string)
      requires Valid() && BLKSIZ * (KEY_SIZE - 1) <= |keystr|
      modifies cryptKey
      ensures cryptKey[..] == KeyWords(keystr)
    {
      var p := 0;
      var i := 0;
      while i < KEY_SIZE
        invariant p == BLKSIZ * i
        invariant KeySoFar(cryptKey[..], keystr, i)
      {
        var blkbuf := BlockBuffer(keystr[p..]);
        var w := Truncate32(Strtol16(blkbuf));
        BlockWord(keystr, i);
        KeyStep(cryptKey[..], keystr, i, w);
        cryptKey[i] := w;
        p := p + BLKSIZ;
        i := i + 1;
      }
    }

    /** resetKey, with getenv("CRYPTREDISKEY") as the parameter. */
    method ResetKey(keystr: Option<string>) returns (r: int32)
      requires Valid() && KeyReadable(keystr)
      modifies this, cryptKey
      ensures Valid()
      ensures redisConnected == old(redisConnected) && hasContext == old(hasContext)
      ensures host == old(host) && port == old(port) && cryptEnabled == old(cryptEnabled)
      ensures KeyAccepted(keystr) ==> r == 0 && lastError == old(lastError) && cryptKey[..] == KeyWords(keystr.value)
      ensures !KeyAccepted(keystr) ==> r == -1 && lastError == KeyError(keystr) && cryptKey[..] == old(cryptKey[..])
    {
      if keystr.None? {
        lastError := INVALID_KEY;
        return -1;
      } else if |keystr.value| < MIN_KEY_LENGTH {
        lastError := KEY_TOO_SMALL;
        return -1;
      }
      SetKey(keystr.value);
      return 0;
    }

    /**
     * setCryptEnabled: always switches off and zeroes the key first; enabling
     * succeeds, and switches on, exactly when resetKey accepts the key.
     */
    method SetCryptEnabled(enable: bool, keystr: Option<string>) returns (r: int32)
      requires Valid() && KeyReadable(keystr)
      modifies this, cryptKey
      ensures Valid()
      ensures redisConnected == old(redisConnected) && hasContext == old(hasContext)
      ensures host == old(host) && port == old(port)
      ensures !enable ==> r == 0 && !cryptEnabled && lastError == old(lastError) && cryptKey[..] == [0, 0, 0, 0]
      ensures enable ==> (cryptEnabled <==> r == 0) && (cryptEnabled <==> KeyAccepted(keystr))
      ensures enable && cryptEnabled ==> lastError == old(lastError) && cryptKey[..] == KeyWords(keystr.value)
      ensures enable && !cryptEnabled ==> r == -1 && lastError == KeyError(keystr) && cryptKey[..] == [0, 0, 0, 0]
    {
      cryptEnabled := false;
      ZeroKey();
      if !enable {
        return 0;
      }
      var reset := ResetKey(keystr);
      if reset == -1 {
        return -1;
      }
      cryptEnabled := true;
      return 0;
    }

    /** explicit_bzero(d->cryptkey, sizeof(d->cryptkey)): all four words. */
    method ZeroKey()
      requires Valid()
      modifies cryptKey
      ensures cryptKey[..] == [0, 0, 0, 0]
    {
      cryptKey[0], cryptKey[1], cryptKey[2], cryptKey[3] := 0, 0, 0, 0;
      assert cryptKey[..] == [cryptKey[0], cryptKey[1], cryptKey[2], cryptKey[3]];
    }

    /**
     * CryptRedisPrivate::buildReply on a reply that is there (the source reads
     * the reply's fields before its null check) and without the decrypting
     * branch of get.
     */
    method BuildReply(reply: Reply, rpl: CryptRedisResult, decrypt: bool)
      requires !(decrypt && cryptEnabled)
      modifies rpl
      ensures rpl.Snapshot() == Replies.Filled(old(rpl.Snapshot()), reply)
    {
      Replies.Store(reply, rpl);
    }

    /** CryptRedisDbPrivate::connect: nothing to do when connected. */
    method Connect(h: string, p: int32, net: Connector) returns (ok: bool)
      requires Valid()
      modifies this
      ensures Valid() && ok == redisConnected
      ensures host == old(host) && port == old(port) && cryptEnabled == old(cryptEnabled)
      ensures old(redisConnected) ==> ok && lastError == old(lastError)
      ensures !old(redisConnected) ==> (ok <==> net(h, p).Established?)
      ensures !old(redisConnected) && net(h, p).Refused? ==> lastError == net(h, p).errstr
      ensures !old(redisConnected) && !net(h, p).Refused? ==> lastError == old(lastError)
    {
      if redisConnected {
        return redisConnected;
      }
      redisConnected := false;
      var context := net(h, p);
      hasContext := !context.NoContext?;
      if context.NoContext? {
        return false;
      }
      if context.Refused? {
        lastError := context.errstr;
        hasContext := false;
        return false;
      }
      redisConnected := true;
      return true;
    }

    /** open: a non-empty host and a positive port replace the stored ones, then connect. */
    method Open(h: string, p: int32, net: Connector) returns (ok: bool)
      requires Valid()
      modifies this
      ensures Valid() && ok == redisConnected && cryptEnabled == old(cryptEnabled)
      ensures host == (if h != "" && p > 0 then h else old(host))
      ensures port == (if h != "" && p > 0 then p else old(port))
      ensures old(redisConnected) ==> ok
      ensures !old(redisConnected) ==> (ok <==> net(host, port).Established?)
      ensures old(redisConnected) ==> lastError == old(lastError)
      ensures !old(redisConnected) && net(host, port).Refused? ==> lastError == net(host, port).errstr
      ensures !old(redisConnected) && !net(host, port).Refused? ==> lastError == old(lastError)
    {
      if h != "" && p > 0 {
        SetHost(h);
        SetPort(p);
      }
      ok := Connect(host, port, net);
    }

    /** close: frees the context and leaves the object disconnected. */
    method Close()
      requires Valid()
      modifies this
      ensures Valid() && !redisConnected && !hasContext
      ensures lastError == old(lastError) && host == old(host) && port == old(port) && cryptEnabled == old(cryptEnabled)
    {
      if hasContext {
        hasContext := false;
      }
      redisConnected := false;
    }

    /** checkConnect: connects to the stored host and port, and clears the given result if that fails. */
    method CheckConnect(rpl: CryptRedisResult?, net: Connector) returns (ok: bool)
      requires Valid()
      modifies this, rpl
      ensures Valid() && ok == redisConnected && host == old(host) && port == old(port)
      ensures !old(redisConnected) ==> (ok <==> net(host, port).Established?)
      ensures old(redisConnected) ==> ok
      ensures rpl != null && !ok ==> rpl.Snapshot() == CLEARED
      ensures rpl != null && ok ==> rpl.Snapshot() == old(rpl.Snapshot())
      ensures cryptEnabled == old(cryptEnabled)
      ensures old(redisConnected) ==> lastError == old(lastError)
      ensures !old(redisConnected) && net(host, port).Refused? ==> lastError == net(host, port).errstr
      ensures !old(redisConnected) && !net(host, port).Refused? ==> lastError == old(lastError)
    {
      ok := Connect(host, port, net);
      if !ok {
        if rpl != null {
          rpl.Invalidate();
        }
        return false;
      }
      return true;
    }

    method SetHost(h: string)
      modifies this
      ensures host == h
      ensures redisConnected == old(redisConnected) && hasContext == old(hasContext) && port == old(port)
      ensures lastError == old(lastError) && cryptEnabled == old(cryptEnabled)
    {
      host := h;
    }

    method SetPort(p: int32)
      modifies this
      ensures port == p
      ensures redisConnected == old(redisConnected) && hasContext == old(hasContext) && host == old(host)
      ensures lastError == old(lastError) && cryptEnabled == old(cryptEnabled)
    {
      port := p;
    }
  }
}
