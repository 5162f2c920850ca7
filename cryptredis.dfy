/**
 * The key handling of the C client library (cryptredis.c): reading hex
 * strings into byte buffers, the key file of at most three name=value
 * lines, the enable/disable switch for encryption, and the buffer sizes the
 * encrypted SET path allocates.
 *
 * Strings here are the characters of a C string before its terminating NUL.
 */
module CryptRedis {
  import opened Wrappers
  import opened Hex
  import Tools
  import Encode
  import BsdCrypt
  import CTypes

  // ---------------------------------------------------------------------
  // cryptredis_load_hexbin
  // ---------------------------------------------------------------------

  /** The characters memcpy(tmpv, vp, 2) puts before the NUL for byte i: at most two. */
  function Chunk(value: string, i: nat): (c: string)
    ensures |c| <= 2
  {
    value[Min(2 * i, |value|)..Min(2 * i + 2, |value|)]
  }

  /** Byte i: (u_int8_t)strtol(tmpv, NULL, 16). */
  function HexbinByte(value: string, i: nat): uint8 {
    Truncate8(Strtol16(Chunk(value, i)))
  }

  /**
   * How many bytes load_hexbin stores: the loop stops after the chunk that
   * brings the remaining length to zero or below, so at least one byte is
   * stored (even for an empty value) unless the buffer has no room at all.
   */
  function HexbinCount(vlen: nat, pksize: nat): (n: nat)
    ensures n <= pksize
    ensures pksize > 0 ==> 1 <= n
  {
    if pksize == 0 then 0 else Min(pksize, Max(1, (vlen + 1) / 2))
  }

  /** The buffer after load_hexbin(buf, value, |buf|). */
  function LoadedBytes(buf: seq<uint8>, value: string): (b: seq<uint8>)
    ensures |b| == |buf|
  {
    var n := HexbinCount(|value|, |buf|);
    seq(|buf|, k requires 0 <= k < |buf| => if k < n then HexbinByte(value, k) else buf[k])
  }

  /** cryptredis_load_hexbin: reads the hex pairs of value into pk. */
  method LoadHexbin(pk: array<uint8>, value: string)
    modifies pk
    ensures pk[..] == LoadedBytes(old(pk[..]), value)
  {
    ghost var before := pk[..];
    var vlen: int := |value|;
    var vp := 0;
    var i := 0;
    while i < pk.Length
      invariant vp == 2 * i && vlen == |value| - 2 * i
      invariant i == 0 || 0 < vlen
      invariant LoadedSoFar(before, pk[..], value, i)
    {
      var tmpv := value[Min(vp, |value|)..Min(vp + 2, |value|)];
      assert tmpv == Chunk(value, i);
      var b := Truncate8(Strtol16(tmpv));
      LoadStep(before, pk[..], value, i, b);
      pk[i] := b;
      vlen := vlen - 2;
      if vlen <= 0 {
        Loaded(before, pk[..], value, i + 1);
        return;
      }
      vp := vp + 2;
      i := i + 1;
    }
    Loaded(before, pk[..], value, i);
  }

  /** After i passes: the first i bytes loaded, the rest as before. */
  ghost predicate LoadedSoFar(before: seq<uint8>, now: seq<uint8>, value: string, i: nat) {
    |now| == |before| && i <= |now| &&
    (forall k :: 0 <= k < i ==> now[k] == HexbinByte(value, k)) &&
    (forall k :: i <= k < |now| ==> now[k] == before[k])
  }

  lemma LoadStep(before: seq<uint8>, now: seq<uint8>, value: string, i: nat, b: uint8)
    requires LoadedSoFar(before, now, value, i) && i < |now| && b == HexbinByte(value, i)
    ensures LoadedSoFar(before, now[i := b], value, i + 1)
  {
  }

  /** A buffer whose first n bytes are the value's bytes, and the rest as before, is the loaded buffer. */
  lemma Loaded(before: seq<uint8>, after: seq<uint8>, value: string, n: nat)
    requires LoadedSoFar(before, after, value, n)
    requires n == |before| || (2 * n >= |value| && n >= 1)
    requires n == 0 || 2 * (n - 1) < |value| || n == 1
    ensures after == LoadedBytes(before, value)
  {
    var loaded := LoadedBytes(before, value);
    if |before| > 0 {
      assert n == HexbinCount(|value|, |before|);
    }
    forall k | 0 <= k < |after|
      ensures after[k] == loaded[k]
    {
    }
  }

  /**
   * Byte i is the hex value of characters 2i and 2i+1 for every i the loop
   * reaches; no later byte changes.
   */
  lemma LoadedBytesAt(buf: seq<uint8>, value: string, i: nat)
    requires i < |buf|
    ensures i < HexbinCount(|value|, |buf|) ==> LoadedBytes(buf, value)[i] == Truncate8(Strtol16(Chunk(value, i)))
    ensures i >= HexbinCount(|value|, |buf|) ==> LoadedBytes(buf, value)[i] == buf[i]
    ensures i < HexbinCount(|value|, |buf|) <==> i == 0 || 2 * i < |value|
  {
  }

  /** Two hex digits give the byte they spell. */
  lemma HexPair(value: string, i: nat)
    requires 2 * i + 2 <= |value| && IsHexDigit(value[2 * i]) && IsHexDigit(value[2 * i + 1])
    ensures HexbinByte(value, i) as int == 16 * DigitValue(value[2 * i]) + DigitValue(value[2 * i + 1])
  {
    var c := Chunk(value, i);
    assert c == [value[2 * i], value[2 * i + 1]];
    var v := 16 * DigitValue(c[0]) + DigitValue(c[1]);
    LeadingDigitsStrtol(c);
    assert Strtol16(c) == v;
    ModUnique(v, 0x100, 0, v);
  }

  /** strtol of two hex digits reads both (a hex digit is neither a sign nor the 'x' of "0x"). */
  lemma LeadingDigitsStrtol(c: string)
    requires |c| == 2 && IsHexDigit(c[0]) && IsHexDigit(c[1])
    ensures Strtol16(c) == 16 * DigitValue(c[0]) + DigitValue(c[1])
  {
    assert !IsCSpace(c[0]) && c[0] != '-' && c[0] != '+';
    assert SkipSpaces(c) == c;
    assert c[1] != 'x' && c[1] != 'X';
    DigitRunAll(c);
    assert c[..DigitRun(c)] == c;
    assert c[..1] == [c[0]] && [c[0]][..0] == [];
    assert HexValue(c) == 16 * HexValue([c[0]]) + DigitValue(c[1]);
    assert HexValue([c[0]]) == DigitValue(c[0]);
  }

  /** A value of 2n characters fills exactly n bytes of a buffer that has room for them. */
  lemma HexbinFills(vlen: nat, pksize: nat)
    requires vlen % 2 == 0 && 2 <= vlen && vlen / 2 <= pksize
    ensures HexbinCount(vlen, pksize) == vlen / 2
  {
  }

  /** An empty value still stores one byte, read from an empty chunk: zero. */
  lemma HexbinEmpty(buf: seq<uint8>)
    requires 0 < |buf|
    ensures LoadedBytes(buf, "")[0] == 0
    ensures LoadedBytes(buf, "")[1..] == buf[1..]
  {
    assert Chunk("", 0) == "";
    assert SkipSpaces("") == "";
    assert DigitRun("") == 0;
    assert HexPrefixValue("") == 0;
  }

  // ---------------------------------------------------------------------
  // The key file read by cryptredis_reset_key
  // ---------------------------------------------------------------------

  /** The characters of the sets " \t\r\n" (strspn) and "\r\n\t " (strcspn). */
  predicate IsBlank(c: char) {
    c == ' ' || c == '\t' || c == '\r' || c == '\n'
  }

  /** strcspn(s, "\r\n\t "): the length before the first blank. */
  function BlankFree(s: string): (n: nat)
    ensures n <= |s|
    ensures n < |s| ==> IsBlank(s[n])
  {
    if s == [] || IsBlank(s[0]) then 0 else 1 + BlankFree(s[1..])
  }

  /** s cut at its first blank: the effect of s[strcspn(s, "\r\n\t ")] = '\0'. */
  function CutAtBlank(s: string): (t: string)
    ensures t == s[..BlankFree(s)]
  {
    s[..BlankFree(s)]
  }

  /** s after its leading blanks: s + strspn(s, " \t\r\n"). */
  function SkipBlanks(s: string): (t: string)
    ensures |t| <= |s| && t == s[|s| - |t|..]
    ensures t != [] ==> !IsBlank(t[0])
  {
    if s != [] && IsBlank(s[0]) then SkipBlanks(s[1..]) else s
  }

  /** strchr(s, '='): the index of the first '=', if any. */
  function FindEquals(s: string): (r: Option<nat>)
    ensures r.Some? ==> r.value < |s| && s[r.value] == '=' && forall k :: 0 <= k < r.value ==> s[k] != '='
    ensures r.None? ==> forall k :: 0 <= k < |s| ==> s[k] != '='
  {
    if s == [] then None
    else if s[0] == '=' then Some(0)
    else match FindEquals(s[1..]) {
      case None => None
      case Some(k) => Some(k + 1)
    }
  }

  /** A name and its value, as the loop cuts them out of one line. */
  datatype Entry = Entry(name: string, value: string)

  /**
   * One line split at its first '=': the name is the text before it cut at
   * the first blank; the value skips leading blanks and is cut at the next.
   */
  function SplitLine(line: string): Option<Entry> {
    match FindEquals(line) {
      case None => None
      case Some(e) => Some(Entry(CutAtBlank(line[..e]), CutAtBlank(SkipBlanks(line[e + 1..]))))
    }
  }

  predicate StartsWith(s: string, p: string) {
    |p| <= |s| && s[..|p|] == p
  }

  /** What one line sets. */
  datatype Setting = SaltHex(hex: string) | Passphrase(text: string) | IvHex(hex: string) | Ignored

  /**
   * The name dispatch: strncmp(kp, "salt", 5) matches only the exact name,
   * strncmp(kp, "key", 3) and strncmp(kp, "iv", 2) any name that begins so.
   */
  function Classify(line: string): (s: Setting)
    ensures SplitLine(line).None? ==> s == Ignored
  {
    match SplitLine(line) {
      case None => Ignored
      case Some(Entry(name, value)) =>
        if name == "salt" then SaltHex(value)
        else if StartsWith(name, "key") then Passphrase(value)
        else if StartsWith(name, "iv") then IvHex(value)
        else Ignored
    }
  }

  /** The lines before the first empty one. */
  function Leading(lines: seq<string>): (r: seq<string>)
    ensures |r| <= |lines|
  {
    if lines == [] || lines[0] == [] then [] else [lines[0]] + Leading(lines[1..])
  }

  /**
   * The lines the loop reads: at most three, ending early at the end of the
   * file or at a line whose strlen is zero.
   */
  function Examined(lines: seq<string>): seq<string> {
    Leading(lines[..Min(3, |lines|)])
  }

  /** Leading(lines) is the prefix up to the first empty line. */
  lemma {:induction false} LeadingPrefix(lines: seq<string>, i: nat)
    requires i <= |lines| && forall k :: 0 <= k < i ==> lines[k] != []
    requires i == |lines| || lines[i] == []
    ensures Leading(lines) == lines[..i]
  {
    if i > 0 {
      LeadingPrefix(lines[1..], i - 1);
      assert lines[..i] == [lines[0]] + lines[1..][..i - 1];
    }
  }

  /** The lines examined: a prefix of at most three non-empty lines, cut only by the limit, the end of the file, or an empty line. */
  lemma {:induction false} ExaminedShape(lines: seq<string>)
    ensures var r := Examined(lines);
      |r| <= 3 && |r| <= |lines| && r == lines[..|r|] &&
      (forall k :: 0 <= k < |r| ==> r[k] != []) &&
      (|r| < 3 && |r| < |lines| ==> lines[|r|] == [])
  {
    var m := lines[..Min(3, |lines|)];
    var i := FirstEmpty(m);
    LeadingPrefix(m, i);
    assert m[..i] == lines[..i];
  }

  function FirstEmpty(lines: seq<string>): (i: nat)
    ensures i <= |lines| && (i < |lines| ==> lines[i] == [])
    ensures forall k :: 0 <= k < i ==> lines[k] != []
  {
    if lines == [] || lines[0] == [] then 0 else 1 + FirstEmpty(lines[1..])
  }

  /** What the key file has set so far: the salt and iv buffers, and the passphrase if any. */
  datatype KeyState = KeyState(salt: seq<uint8>, iv: seq<uint8>, passphrase: Option<string>)

  function Apply(st: KeyState, line: string): (r: KeyState)
    ensures |r.salt| == |st.salt| && |r.iv| == |st.iv|
  {
    match Classify(line) {
      case SaltHex(h) => st.(salt := LoadedBytes(st.salt, h))
      case Passphrase(p) => st.(passphrase := Some(p))
      case IvHex(h) => st.(iv := LoadedBytes(st.iv, h))
      case Ignored => st
    }
  }

  /** The lines applied in order, so later lines override earlier ones. */
  function ApplyAll(st: KeyState, lines: seq<string>): (r: KeyState)
    ensures |r.salt| == |st.salt| && |r.iv| == |st.iv|
    decreases |lines|
  {
    if lines == [] then st else Apply(ApplyAll(st, lines[..|lines| - 1]), lines[|lines| - 1])
  }

  /** The value of the last passphrase line, if there is one. */
  function LastPassphrase(lines: seq<string>): Option<string>
    decreases |lines|
  {
    if lines == [] then None
    else
      var last := Classify(lines[|lines| - 1]);
      if last.Passphrase? then Some(last.text) else LastPassphrase(lines[..|lines| - 1])
  }

  /** The passphrase that reaches the key derivation is the one on the last key line. */
  lemma {:induction false} PassphraseIsLast(st: KeyState, lines: seq<string>)
    ensures ApplyAll(st, lines).passphrase == if LastPassphrase(lines).Some? then LastPassphrase(lines) else st.passphrase
    decreases |lines|
  {
    if lines != [] {
      PassphraseIsLast(st, lines[..|lines| - 1]);
    }
  }

  /** Lines that set no salt leave the salt buffer alone. */
  lemma {:induction false} UntouchedSalt(st: KeyState, lines: seq<string>)
    requires forall k :: 0 <= k < |lines| ==> !Classify(lines[k]).SaltHex?
    ensures ApplyAll(st, lines).salt == st.salt
    decreases |lines|
  {
    if lines != [] {
      var front := lines[..|lines| - 1];
      assert forall k :: 0 <= k < |front| ==> front[k] == lines[k];
      UntouchedSalt(st, front);
      ApplyKeeps(ApplyAll(st, front), lines[|lines| - 1]);
    }
  }

  /** Lines that set no iv leave the iv buffer alone. */
  lemma {:induction false} UntouchedIv(st: KeyState, lines: seq<string>)
    requires forall k :: 0 <= k < |lines| ==> !Classify(lines[k]).IvHex?
    ensures ApplyAll(st, lines).iv == st.iv
    decreases |lines|
  {
    if lines != [] {
      var front := lines[..|lines| - 1];
      assert forall k :: 0 <= k < |front| ==> front[k] == lines[k];
      UntouchedIv(st, front);
      ApplyKeeps(ApplyAll(st, front), lines[|lines| - 1]);
    }
  }

  lemma ApplyKeeps(st: KeyState, line: string)
    ensures !Classify(line).SaltHex? ==> Apply(st, line).salt == st.salt
    ensures !Classify(line).IvHex? ==> Apply(st, line).iv == st.iv
  {
  }

  /** A line with no '=' changes nothing. */
  lemma NoEqualsSkipped(st: KeyState, line: string)
    requires forall k :: 0 <= k < |line| ==> line[k] != '='
    ensures Apply(st, line) == st
  {
  }

  /** A line written as name=value, newline-terminated, splits back into that name and value. */
  lemma SplitFormatted(name: string, value: string)
    requires forall k :: 0 <= k < |name| ==> name[k] != '=' && !IsBlank(name[k])
    requires forall k :: 0 <= k < |value| ==> !IsBlank(value[k])
    ensures SplitLine(name + "=" + value + "\n") == Some(Entry(name, value))
  {
    var line := name + "=" + value + "\n";
    FindAfter(name, "=" + value + "\n");
    assert line == name + ("=" + value + "\n");
    assert line[..|name|] == name;
    assert line[|name| + 1..] == value + "\n";
    BlankFreeAll(name, "");
    assert name + "" == name;
    if value == [] {
      assert SkipBlanks("\n") == "";
    } else {
      assert SkipBlanks(value + "\n") == value + "\n";
    }
    BlankFreeAll(value, "\n");
    assert (value + "\n")[..|value|] == value;
  }

  /**
   * What a name=value line sets: the salt only for the exact name "salt";
   * the passphrase for any other name starting with "key", the iv for one
   * starting with "iv"; nothing for other names.
   */
  lemma ClassifyFormatted(name: string, value: string)
    requires forall k :: 0 <= k < |name| ==> name[k] != '=' && !IsBlank(name[k])
    requires forall k :: 0 <= k < |value| ==> !IsBlank(value[k])
    ensures var s := Classify(name + "=" + value + "\n");
      (s == SaltHex(value) <==> name == "salt") &&
      (s == Passphrase(value) <==> name != "salt" && StartsWith(name, "key")) &&
      (s == IvHex(value) <==> name != "salt" && !StartsWith(name, "key") && StartsWith(name, "iv")) &&
      (s == Ignored <==> name != "salt" && !StartsWith(name, "key") && !StartsWith(name, "iv"))
  {
    SplitFormatted(name, value);
  }

  lemma {:induction false} FindAfter(name: string, rest: string)
    requires forall k :: 0 <= k < |name| ==> name[k] != '='
    requires rest != [] && rest[0] == '='
    ensures FindEquals(name + rest) == Some(|name|)
  {
    if name != [] {
      assert (name + rest)[1..] == name[1..] + rest;
      FindAfter(name[1..], rest);
    }
  }

  lemma {:induction false} BlankFreeAll(s: string, rest: string)
    requires forall k :: 0 <= k < |s| ==> !IsBlank(s[k])
    requires rest == [] || IsBlank(rest[0])
    ensures BlankFree(s + rest) == |s|
  {
    if s != [] {
      assert (s + rest)[1..] == s[1..] + rest;
      BlankFreeAll(s[1..], rest);
    }
  }

  /** The currently loaded key: struct cryptredis_key. */
  class KeyMaterial {
    var salt: array<uint8>
    var iv: array<uint8>
    /** tmpkey: the passphrase of the last key line; unset when the file has none. */
    var passphrase: Option<string>
    /** The derived cipher key, once bcrypt_pbkdf has filled it. */
    var key: Option<BsdCrypt.Key>

    /** calloc: salt and iv all zero, nothing set yet. */
    constructor (saltSize: nat, ivSize: nat)
      ensures fresh(salt) && fresh(iv) && salt != iv
      ensures salt[..] == Zeros(saltSize) && iv[..] == Zeros(ivSize)
      ensures passphrase == None && key == None
    {
      salt := new uint8[saltSize](_ => 0);
      iv := new uint8[ivSize](_ => 0);
      passphrase := None;
      key := None;
      new;
      assert salt[..] == Zeros(saltSize);
      assert iv[..] == Zeros(ivSize);
    }

    function State(): KeyState
      reads this, salt, iv
    {
      KeyState(salt[..], iv[..], passphrase)
    }

    /** One pass of the reset loop's body over a line. */
    method ApplyLine(line: string)
      requires salt != iv
      modifies this, salt, iv
      ensures salt == old(salt) && iv == old(iv) && key == old(key)
      ensures State() == Apply(old(State()), line)
    {
      var setting := Classify(line);
      if setting.SaltHex? {
        LoadHexbin(salt, setting.hex);
      } else if setting.Passphrase? {
        passphrase := Some(setting.text);
      } else if setting.IvHex? {
        LoadHexbin(iv, setting.hex);
      }
    }

    /**
     * The reset loop over the lines fgets returns, each seen as the C string
     * before its first NUL: at most three, stopping at the end of the file
     * or a line whose strlen is zero.
     */
    method ReadLines(lines: seq<string>)
      requires salt != iv
      modifies this, salt, iv
      ensures salt == old(salt) && iv == old(iv) && key == old(key)
      ensures State() == ApplyAll(old(State()), Examined(CLines(lines)))
    {
      var text := CLines(lines);
      ghost var start := State();
      var i := 0;
      while i < 3 && i < |text| && text[i] != []
        invariant salt == old(salt) && iv == old(iv) && key == old(key)
        invariant ReadSoFar(start, text, i, State())
      {
        ghost var before := State();
        ApplyLine(text[i]);
        ReadStep(start, text, i, before, State());
        i := i + 1;
      }
      ExaminedPrefix(text, i);
    }
  }

  /** After i passes of the reset loop: i non-empty lines applied in order. */
  ghost predicate ReadSoFar(start: KeyState, lines: seq<string>, i: nat, st: KeyState) {
    i <= 3 && i <= |lines| && (forall k :: 0 <= k < i ==> lines[k] != []) && st == ApplyAll(start, lines[..i])
  }

  lemma ReadStep(start: KeyState, lines: seq<string>, i: nat, before: KeyState, after: KeyState)
    requires ReadSoFar(start, lines, i, before) && i < 3 && i < |lines| && lines[i] != []
    requires after == Apply(before, lines[i])
    ensures ReadSoFar(start, lines, i + 1, after)
  {
    assert lines[..i + 1][..i] == lines[..i];
  }

  /** The loop reads lines while fewer than three are read and the file has a non-empty one left. */
  lemma ExaminedPrefix(lines: seq<string>, i: nat)
    requires i <= 3 && i <= |lines| && forall k :: 0 <= k < i ==> lines[k] != []
    requires i == 3 || i == |lines| || lines[i] == []
    ensures Examined(lines) == lines[..i]
  {
    var m := lines[..Min(3, |lines|)];
    LeadingPrefix(m, i);
    assert m[..i] == lines[..i];
  }

  function Zeros(n: nat): (z: seq<uint8>)
    ensures |z| == n && forall k :: 0 <= k < n ==> z[k] == 0
  {
    seq(n, _ => 0)
  }

  /** The lines as the C code sees them: each one cut at its first NUL. */
  function CLines(lines: seq<string>): (r: seq<string>)
    ensures |r| == |lines|
    ensures forall k :: 0 <= k < |lines| ==> r[k] == CTypes.CString(lines[k])
  {
    if lines == [] then [] else [CTypes.CString(lines[0])] + CLines(lines[1..])
  }

  /** A line with a NUL at its start ends the reset loop like an empty one. */
  lemma NulLineStops(lines: seq<string>, i: nat)
    requires i < |lines| && lines[i] != [] && lines[i][0] == '\0'
    ensures CLines(lines)[i] == [] && |Examined(CLines(lines))| <= i
  {
    var ls := CLines(lines);
    assert ls[i] == CTypes.CString(lines[i]);
    ExaminedStops(ls, i);
  }

  /** Reading ends at the first empty line at the latest. */
  lemma ExaminedStops(lines: seq<string>, i: nat)
    requires i < |lines| && lines[i] == []
    ensures |Examined(lines)| <= i
  {
    ExaminedShape(lines);
  }

  /** Lines without NUL are seen whole. */
  lemma CLinesWhole(lines: seq<string>)
    requires forall k, j :: 0 <= k < |lines| && 0 <= j < |lines[k]| ==> lines[k][j] != '\0'
    ensures CLines(lines) == lines
  {
    forall k | 0 <= k < |lines|
      ensures CLines(lines)[k] == lines[k]
    {
      CTypes.CStringWhole(lines[k]);
    }
  }

  /** What a successful read of the key file leaves in the key material. */
  function KeyFileState(lines: seq<string>, saltSize: nat, ivSize: nat): KeyState {
    ApplyAll(KeyState(Zeros(saltSize), Zeros(ivSize), None), Examined(CLines(lines)))
  }

  /** The key derivation bcrypt_pbkdf: None when it fails. */
  type Kdf = (Option<string>, seq<uint8>) -> Option<BsdCrypt.Key>

  /** The encryption switch of struct cryptredis. */
  class Client {
    var cryptEnabled: bool
    var key: KeyMaterial?

    constructor ()
      ensures !cryptEnabled && key == null
    {
      cryptEnabled := false;
      key := null;
    }

    /**
     * cryptredis_reset_key.  keyFile is None when CRYPTREDIS_KEYFILE is unset
     * or the file cannot be opened, otherwise the lines fgets returns.
     */
    method ResetKey(keyFile: Option<seq<string>>, kdf: Kdf, saltSize: nat, ivSize: nat) returns (ret: int)
      modifies this
      ensures cryptEnabled == old(cryptEnabled)
      ensures keyFile.None? ==> ret == -1 && key == old(key)
      ensures keyFile.Some? ==> key != null && fresh(key) && fresh(key.salt) && fresh(key.iv)
      ensures keyFile.Some? ==>
        var st := KeyFileState(keyFile.value, saltSize, ivSize);
        key.State() == st && key.key == kdf(st.passphrase, st.salt) &&
        ret == (if key.key.Some? then 0 else -1)
    {
      if keyFile.None? {
        return -1;
      }
      var ckp := new KeyMaterial(saltSize, ivSize);
      key := ckp;
      ckp.ReadLines(keyFile.value);
      ckp.key := kdf(ckp.passphrase, ckp.salt[..]);
      ret := if ckp.key.Some? then 0 else -1;
    }

    /**
     * cryptredis_config_encrypt: always switches off and drops the key first;
     * enabling succeeds, and switches on, only when the key can be reset.
     */
    method ConfigEncrypt(enable: bool, keyFile: Option<seq<string>>, kdf: Kdf, saltSize: nat, ivSize: nat)
      returns (ret: int)
      modifies this
      ensures !enable ==> ret == 0 && !cryptEnabled && key == null
      ensures enable && keyFile.None? ==> ret == -1 && !cryptEnabled && key == null
      ensures enable && keyFile.Some? ==>
        key != null && fresh(key) &&
        var st := KeyFileState(keyFile.value, saltSize, ivSize);
        key.State() == st && key.key == kdf(st.passphrase, st.salt) &&
        (cryptEnabled <==> key.key.Some?) && ret == (if cryptEnabled then 0 else -1)
    {
      cryptEnabled := false;
      key := null;
      if !enable {
        return 0;
      }
      var r := ResetKey(keyFile, kdf, saltSize, ivSize);
      if r == -1 {
        return -1;
      }
      cryptEnabled := true;
      return 0;
    }
  }

  // ---------------------------------------------------------------------
  // The sizes cryptredis_set_r allocates
  // ---------------------------------------------------------------------

  /**
   * The cipher buffer holds align64(strlen(value)) bytes and the text buffer
   * encsiz of that; the length is the u_int32_t align64 receives.  The
   * lengths allowed are those for which encsiz's int arithmetic does not
   * overflow: up to 2^29 every length, multiples of 128 (kept as they are)
   * up to 0x3333_3300, and the unaligned lengths past 2^31, where align64
   * wraps around to 16 and the buffers are too small for the value.
   */
  method SetSizes(vlen: bv32) returns (buflen: nat, bufslen: int)
    requires vlen <= 0x2000_0000 || (vlen % 128 == 0 && vlen as int <= 0x3333_3300) ||
             (vlen % 128 != 0 && vlen > 0x8000_0000)
    ensures buflen == Tools.AlignedLength(vlen) as int
    ensures vlen <= Tools.AlignedLength(vlen) <==> vlen <= 0x8000_0000
    ensures vlen > 0x8000_0000 ==> buflen == 16
    ensures buflen % 16 == 0 && (buflen / 4) % 4 == 0
    ensures 0 <= buflen <= 0x3333_3333 && bufslen == Encode.EncSiz(buflen)
    ensures bufslen == Encode.STEP * (buflen / 4)
  {
    var b := Tools.Align64(vlen);
    if vlen <= 0x2000_0000 {
      AlignedSizes(vlen);
    } else if vlen % 128 == 0 {
      WholeBlocksAsInt(b);
    } else {
      Tools.AlignedWraps(vlen);
    }
    buflen := b as int;
    SizeArithmetic(buflen);
    bufslen := Encode.EncSiz(buflen);
  }

  /** Up to 2^29 the aligned length covers the value, is at most 2^29 and is a whole number of blocks. */
  lemma AlignedSizes(vlen: bv32)
    requires vlen <= 0x2000_0000
    ensures var b := Tools.AlignedLength(vlen);
      vlen <= b && b as int <= 0x2000_0000 && (b as int) % 16 == 0
  {
    AlignedBits(vlen);
    SizeAsInt(Tools.AlignedLength(vlen));
  }

  lemma AlignedBits(vlen: bv32)
    requires vlen <= 0x2000_0000
    ensures var b := Tools.AlignedLength(vlen);
      vlen <= b <= 0x2000_0000 && b % 16 == 0
  {
    Tools.AlignedWholeBlocks(vlen);
    Tools.AlignedCovers(vlen);
    AlignedBound(vlen);
  }

  lemma SizeAsInt(b: bv32)
    requires b <= 0x2000_0000 && b % 16 == 0
    ensures b as int <= 0x2000_0000 && (b as int) % 16 == 0
  {
    WholeBlocksAsInt(b);
    BoundAsInt(b);
  }

  lemma BoundAsInt(b: bv32)
    requires b <= 0x2000_0000
    ensures b as int <= 0x2000_0000
  {
    if b != 0x2000_0000 {
      NarrowAsInt(b);
    }
  }

  /** Below 2^29 the value fits 29 bits, whose integer value is below 2^29. */
  lemma NarrowAsInt(b: bv32)
    requires b < 0x2000_0000
    ensures b as int < 0x2000_0000
  {
    var c := b as bv29;
    assert c as bv32 == b;
    WidenAsInt(c);
  }

  lemma WidenAsInt(c: bv29)
    ensures (c as bv32) as int == c as int
  {
  }

  lemma SizeArithmetic(buflen: int)
    requires 0 <= buflen <= 0x3333_3333 && buflen % 16 == 0
    ensures (buflen / 4) % 4 == 0 && buflen % 4 == 0
    ensures Encode.EncSiz(buflen) == Encode.STEP * (buflen / 4)
  {
    var q := buflen / 16;
    ModUnique(buflen, 4, 4 * q, 0);
    ModUnique(buflen / 4, 4, q, 0);
  }

  lemma AlignedBound(n: bv32)
    requires n <= 0x2000_0000
    ensures Tools.AlignedLength(n) <= 0x2000_0000
  {
    Tools.AlignedCovers(n);
    if n % 128 != 0 {
      PowerBelow(Tools.AlignedLength(n), n);
    }
  }

  lemma PowerBelow(r: bv32, n: bv32)
    requires Tools.IsPowerOfTwo(r) && n <= 0x2000_0000 && (r == 16 || r >> 1 < n)
    ensures r <= 0x2000_0000
  {
  }

  /** A 16-byte multiple in u_int32_t is one as a size_t too. */
  lemma WholeBlocksAsInt(r: bv32)
    requires r % 16 == 0
    ensures (r as int) % 16 == 0
  {
    SplitBlocks(r);
    ShiftAsInt(r >> 4);
    var k := (r >> 4) as int;
    assert r as int == 16 * k;
  }

  lemma SplitBlocks(r: bv32)
    requires r % 16 == 0
    ensures r == (r >> 4) << 4 && r >> 4 < 0x1000_0000
  {
  }

  lemma ShiftAsInt(q: bv32)
    requires q < 0x1000_0000
    ensures (q << 4) as int == 16 * (q as int)
  {
  }
}
