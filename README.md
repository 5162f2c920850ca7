# cryptredis in Dafny

cryptredis is a Redis client in C and C++ that encrypts values before a SET
and decrypts them after a GET. This project models its storage pipeline
together with the stateful objects around it.

The storage pipeline has four stages:

- the length is aligned to whole 16-byte cipher blocks (`cryptredis_align64`);
- the value is enciphered by a CBC-like chaining of an abstract Rijndael over
  32-bit words, in the style of OpenBSD swap encryption (`bsd-crypt.c`);
- the cipher words are written as text, `\x` and eight hex digits per word,
  and read back by strtok and strtol (`encode.c`);
- key material comes from a key file of `name=value` lines, read by the C
  library, or from the `CRYPTREDISKEY` string, read by the C++ classes.

The stateful objects modelled are:

- the C library's encryption switch (`cryptredis.c`);
- both revisions of the C++ `CryptRedisDb` class, the current one (`db.cpp`)
  and the older one (`cryptredisdb.cpp`);
- the `CryptRedisResult` record that both revisions fill from a hiredis reply.

Modules, one per source file:

- `BsdCrypt`: bsd-crypt.c.
  - `CipherState` holds the file-static Rijndael context.
  - The chaining is specified by the functions `ChainEncrypt` and `ChainDecrypt`.
  - `Encrypt` and `Decrypt` are the in-place loops, proved against those functions.
- `Tools`: tools.c. `Align64` is the bit-smearing method on `bv32`, proved against `AlignedLength`.
- `Encode`: encode.c.
  - The `Encode` and `Decode` loops are proved against `EncodeWords` and `DecodeWords`.
  - The round trip is proved as a lemma.
- `CryptRedis`: the key-file loop, `load_hexbin`, `config_encrypt` and the buffer sizes of `set_r`, all in cryptredis.c.
- `Result`: result.cpp. cryptredisresult.cpp has the same members with the same bodies, so one class models both.
- `Replies`: the reply switch shared by both `buildReply`s.
- `Db`: db.cpp.
- `LegacyDb`: cryptredisdb.cpp.
- Support modules:
  - `Hex`: strtol with base 16 on a 64-bit `long`, and printf `%0Nx`;
  - `CTypes`: `int`, `long long`, conversion to `int`, and C strings;
  - `Hiredis`: reply codes, the reply record, and the outcome of `redisConnect`;
  - `Wrappers`: `Option`, `Min`, `Max`.

Three facts about the code that the model follows:

- encode.c writes `\x%08x` per word and decodes with strtok, so `Encode` models that text format.
- tools.c:40-41 returns every multiple of 128 unchanged, 0 included.
- bsd-crypt.c:148-149 takes the seed from key words 2 and 3, so word 3 is the high half on a little-endian machine.

## Model

| member | source | states |
|---|---|---|
| BsdCrypt.CipherState.constructor | bsd-crypt.c:41 | the static Rijndael context starts with no key schedule |
| BsdCrypt.CipherState.KeyPrepare | bsd-crypt.c:144-160 | the context holds the key's schedule, encrypt-only exactly when asked to encrypt; the result is the 64-bit seed of key words 2-3 |
| BsdCrypt.Seed | bsd-crypt.c:148-149 | on a little-endian machine the high half of the seed is key word 3 and the low half key word 2 |
| BsdCrypt.Whiten | bsd-crypt.c:67 | words 2 and 3 of the initial block are the complements of words 0 and 1 |
| BsdCrypt.WhitenedSeed | bsd-crypt.c:63-69 | the block encrypted into the first feedback is [key3, key2, ~key3, ~key2], in both directions |
| BsdCrypt.ChainEncrypt | bsd-crypt.c:71-88 | the ciphertext has as many words as the plaintext |
| BsdCrypt.ChainDecrypt | bsd-crypt.c:110-128 | the plaintext has as many words as the ciphertext |
| BsdCrypt.CipherState.Encrypt | bsd-crypt.c:51-89 | dst's first count/4 words are the chained encryption of src under the initial feedback; later words are unchanged; the context is encrypt-only |
| BsdCrypt.CipherState.Decrypt | bsd-crypt.c:91-129 | dst's first count/4 words are the chained decryption of src; later words unchanged; the context holds the full schedule |
| BsdCrypt.EncryptInPlace | bsd-crypt.c:72-80 | one loop pass: block i becomes E(P xor feedback); every other word is unchanged |
| BsdCrypt.DecryptInPlace | bsd-crypt.c:111-119 | one loop pass: block i becomes D(C) xor feedback; every other word is unchanged |
| BsdCrypt.EncryptBlock | bsd-crypt.c:71-88 | cipher block j is E(P_j xor C_{j-1}), with the initial feedback for j = 0 |
| BsdCrypt.DecryptBlock | bsd-crypt.c:110-128 | plain block j is D(C_j) xor C_{j-1} (the initial feedback for j = 0), so the saved ciphertext is the feedback |
| BsdCrypt.DecryptLocality | bsd-crypt.c:110-128 | changing cipher block i changes no plaintext block other than i and i + 1 |
| BsdCrypt.ChainRoundTrip | bsd-crypt.c:71-128 | under any feedback, chained decryption undoes chained encryption when D inverts E |
| BsdCrypt.RoundTrip | bsd-crypt.c:51-129 | decrypt(encrypt(P)) == P for every whole number of blocks, given D(E(x)) == x |
| Tools.Align64 | tools.c:37-53 | the smear, increment and MAX return exactly AlignedLength(n) |
| Tools.SmearIsCeiling | tools.c:43-50 | the smear gives 0 past 2^31; otherwise the least power of two at or above n |
| Tools.RoundUpIsCeiling | tools.c:43-52 | searching upwards from a power of two p finds the larger of p and the ceiling power |
| Tools.AlignedWholeBlocks | tools.c:37-53 | the aligned length is always a multiple of 16 |
| Tools.AlignedCovers | tools.c:43-52 | up to 2^31 the aligned length is at least n; an unaligned n goes to the least power of two that holds it, and to no less than 16 |
| Tools.AlignedWraps | tools.c:43-52 | past 2^31 an unaligned length wraps to 16, less than n |
| Tools.AlignedIdempotent | tools.c:37-53 | aligning twice is aligning once |
| Tools.AlignedExamples | tools.c:40-52 | align(0) = 0, align(1) = 16, align(16) = 16, align(17) = 32, align(100) = 128, align(256) = 256 |
| Hex.Strtol16 | cryptredis.c:221 | strtol saturates into the range of a 64-bit long |
| Hex.FixedHex | encode.c:58 | "%08x" writes exactly width lower-case hex digits, none of them '\\' or 'x' |
| Hex.FixedHexValue | encode.c:58 | the printed digits read back as the value modulo 16^width |
| Hex.HexPrefixWordIsStrtol | db.cpp:71-72 | the word of "0x" + t is the value of its leading hex digits modulo 2^32, what the cast to u_int32_t of strtol gives |
| Hex.HexPrefixWordFixed | encode.c:76-77 | at most eight printed digits read back as the printed value |
| Encode.EncSiz | encode.c:39-48 | encsiz is ten characters per whole word plus two per trailing byte, within int |
| Encode.EncodedWord | encode.c:58 | each word is ten characters starting with "\\x" |
| Encode.Sprintf | encode.c:58 | sprintf writes the text then a NUL, and nothing else |
| Encode.Encode | encode.c:49-61 | the first 10 * (len/4) characters are the words' text in order; the last NUL follows them; trailing bytes are not encoded; nothing past that changes |
| Encode.EncodedLength | encode.c:39-60 | for whole words the text is exactly encsiz characters long |
| Encode.EncSizNulOverrun | tests/regress.c:89-91 | for whole words the final NUL lands at index encsiz, one past an encsiz-sized buffer (see Findings) |
| Encode.EncodedBufferSize | encode.c:39-48 | encsiz + 1 has room for the text and its NUL |
| Encode.TokensWellFormed | encode.c:72-74 | strtok yields only non-empty tokens without '\\' or 'x' |
| Encode.Kept | encode.c:76 | the 16-byte snprintf buffer keeps at most 13 characters of a token |
| Encode.ParseTokenIsStrtol | encode.c:75-77 | a token's word is (u_int32_t)strtol of "0x" and its kept characters |
| Encode.DecodeWordsPerToken | encode.c:72-80 | decoding stores exactly one word per token, in token order |
| Encode.Decode | encode.c:63-84 | only the text before src's first NUL is decoded (strndup of strlen). dst begins with its decoded words, the rest is unchanged, and the result is four bytes per word |
| Encode.ParseEncodedWord | encode.c:75-77 | reading one written word back gives the word |
| Encode.DecodeEncode | tests/regress.c:100-111 | decode(encode(ws)) == ws for every word sequence |
| Encode.EncodeWordsNoNul | encode.c:58 | the `\x%08x` text holds no NUL |
| Encode.DecodeEncodedText | encode.c:69 | decoding the encoded text through strndup(src, strlen(src)) still gives the words back |
| Encode.FourWordText | tests/regress.c:88-97 | four words encode to 40 characters and decode back to 16 bytes |
| CryptRedis.Chunk | cryptredis.c:219-220 | at most two characters reach strtol per byte |
| CryptRedis.HexbinCount | cryptredis.c:216-230 | the loop stores at most pksize bytes, and at least one when pksize > 0 |
| CryptRedis.LoadHexbin | cryptredis.c:207-231 | the buffer becomes LoadedBytes: the value's bytes up to the count, then the old bytes |
| CryptRedis.LoadedBytesAt | cryptredis.c:218-227 | byte i is (u_int8_t)strtol of characters 2i and 2i+1 exactly when i = 0 or 2i < strlen; otherwise it keeps its old value |
| CryptRedis.HexPair | cryptredis.c:219-221 | two hex digits give the byte 16 * d1 + d2 |
| CryptRedis.HexbinFills | cryptredis.c:226-227 | a value of 2n characters fills exactly n bytes when they fit |
| CryptRedis.HexbinEmpty | cryptredis.c:216-221 | an empty value still stores a zero byte, and only that one byte |
| CryptRedis.FindEquals | cryptredis.c:161 | strchr finds the first '=', or none when there is none |
| CryptRedis.BlankFree | cryptredis.c:176-177 | strcspn stops at the first space, tab, CR or LF |
| CryptRedis.SkipBlanks | cryptredis.c:168 | strspn skips a prefix of blanks and stops at a non-blank |
| CryptRedis.Classify | cryptredis.c:160-164 | a line without '=' is ignored |
| CryptRedis.NoEqualsSkipped | cryptredis.c:161-164 | a line with no '=' leaves the key state unchanged |
| CryptRedis.SplitFormatted | cryptredis.c:166-177 | "name=value\n" splits back into that name and value |
| CryptRedis.ClassifyFormatted | cryptredis.c:180-188 | salt only for the exact name "salt"; passphrase for names starting "key"; iv for names starting "iv"; otherwise ignored, each as an iff |
| CryptRedis.ExaminedShape | cryptredis.c:153-159 | at most three lines are read, a prefix of the file, all non-empty, ending early only at the end of the file or an empty line |
| CryptRedis.ApplyKeeps | cryptredis.c:180-188 | a line that sets no salt keeps the salt buffer; one that sets no iv keeps the iv buffer |
| CryptRedis.PassphraseIsLast | cryptredis.c:180-188 | the passphrase reaching the KDF is the value of the last key line; later lines override earlier ones |
| CryptRedis.UntouchedSalt | cryptredis.c:180-182 | lines that set no salt leave the salt buffer as calloc left it |
| CryptRedis.UntouchedIv | cryptredis.c:185-187 | lines that set no iv leave the iv buffer unchanged |
| CryptRedis.KeyMaterial.constructor | cryptredis.c:147-151 | calloc: salt and iv all zero, no passphrase, no derived key |
| CryptRedis.KeyMaterial.ApplyLine | cryptredis.c:160-188 | one loop pass: the key state becomes Apply of the line |
| CryptRedis.KeyMaterial.ReadLines | cryptredis.c:153-192 | each line is seen up to its first NUL; the key state becomes the examined lines applied in order |
| CryptRedis.CLines | cryptredis.c:158-161 | every line is taken as the C string before its first NUL, which is what strlen and strchr see |
| CryptRedis.CLinesWhole | cryptredis.c:158-161 | lines without NUL are seen whole |
| CryptRedis.NulLineStops | cryptredis.c:158-159 | a line that starts with NUL has strlen 0 and ends the loop: no line from it on is applied |
| CryptRedis.ExaminedStops | cryptredis.c:158-159 | reading stops at the first empty line at the latest |
| CryptRedis.Client.constructor | cryptredis.c:53 | a new client has encryption off and no key |
| CryptRedis.Client.ResetKey | cryptredis.c:125-205 | no key file gives -1 and the key is untouched. Otherwise fresh key material holds the file's state and the KDF's result, and the result is 0 exactly when the KDF succeeds |
| CryptRedis.Client.ConfigEncrypt | cryptredis.c:103-123 | it always switches off and drops the key first. Disabling returns 0. Enabling ends on exactly when the key reset succeeds, returning 0, and otherwise -1 |
| CryptRedis.SetSizes | cryptredis.c:243-246 | the cipher buffer is align64(strlen) bytes, a whole number of blocks. It holds the value exactly when the length is at most 2^31; past that an unaligned length gets 16 bytes. The text buffer is encsiz of that, ten characters per word |
| CryptRedis.AlignedSizes | cryptredis.c:245 | up to 2^29 the aligned length holds the value, is at most 2^29 and is a multiple of 16 |
| CryptRedis.SizeArithmetic | cryptredis.c:246 | for whole blocks encsiz is ten characters per word |
| CTypes.Narrow32 | result.cpp:70 | a value an int holds passes unchanged; any other is congruent modulo 2^32 |
| CTypes.CString | db.cpp:117 | the std::string built from char* is the prefix before the first NUL |
| CTypes.CStringWhole | db.cpp:117 | a string without NUL is taken whole |
| Result.CryptRedisResult.ToString | result.cpp:55-59 | toString returns the stored text (the same at cryptredisresult.cpp:64-66) |
| Result.CryptRedisResult.Type | result.cpp:79-83 | type returns the stored reply type (the same at cryptredisresult.cpp:80-82) |
| Result.CryptRedisResult.Size | result.cpp:91-95 | size returns the stored size (the same at cryptredisresult.cpp:88-90) |
| Result.CryptRedisResult.Status | result.cpp:113-117 | status returns the stored status code (the same at cryptredisresult.cpp:106-108) |
| Result.CryptRedisResult.StatusString | result.cpp:125-136 | "CryptRedisResult::Ok" iff the status is Ok, "CryptRedisResult::Fail" iff Fail, "No such status" iff neither (the same at cryptredisresult.cpp:114-125) |
| Result.StatusNames | result.cpp:125-136 | "CryptRedisResult::Ok" iff Ok, "CryptRedisResult::Fail" iff Fail, "No such status" iff neither (the same switch is at cryptredisresult.cpp:114-125) |
| Result.CryptRedisResult.constructor | result.cpp:38-42 | a new result is exactly the cleared state (the same at cryptredisresult.cpp:51-55) |
| Result.CryptRedisResult.Clear | result.cpp:97-105 | size 0, integer -1, type Nil, empty text, status Fail (the same at cryptredisresult.cpp:92-100) |
| Result.CryptRedisResult.Invalidate | cryptredis.h:92 | invalidate leaves the cleared state, as clear does |
| Result.CryptRedisResult.SetData | result.cpp:49-53 | toString returns the new text; no other field changes (cryptredisresult.cpp:60-62) |
| Result.CryptRedisResult.SetInteger | result.cpp:61-65 | the integer becomes the new value; no other field changes (cryptredisresult.cpp:68-70) |
| Result.CryptRedisResult.SetType | result.cpp:73-77 | type() returns the new type; no other field changes (cryptredisresult.cpp:76-78) |
| Result.CryptRedisResult.SetSize | result.cpp:85-89 | size() returns the new size; no other field changes (cryptredisresult.cpp:84-86) |
| Result.CryptRedisResult.SetStatus | result.cpp:107-111 | status() returns the new status; no other field changes (cryptredisresult.cpp:102-104) |
| Result.CryptRedisResult.ToInteger | result.cpp:67-71 | the long long comes back unchanged when an int holds it, and otherwise modulo 2^32 (cryptredisresult.cpp:72-74) |
| Result.CryptRedisResult.ErrorString | result.cpp:119-123 | errorString is toString (cryptredisresult.cpp:110-112) |
| Result.CryptRedisResult.StatusStringOf | cryptredis.h:71-76 | the static statusString(s) is the name StatusNames gives s |
| Replies.FilledMapping | db.cpp:108-128 | error fails with its text, status and string succeed with their text, integer succeeds with its number. Any other reply keeps status, text and number. Size and type are always set |
| Replies.FilledOk | db.cpp:108-125 | a result ends Ok exactly for status, string and integer replies, or for any other reply over an Ok result |
| Replies.Store | db.cpp:108-128 | the switch, fall-through included, leaves the result at Filled of the reply |
| Db.BlockBuffer | db.cpp:71 | the 8-byte snprintf buffer holds fewer than eight characters |
| Db.BlockWord | db.cpp:70-73 | the word strtol reads from the buffer of group i is the word of that group's first five characters |
| Db.KeyWordsBelow | db.cpp:67-75 | every key word is below 2^20: only five hex digits survive |
| Db.KeyWordDigits | db.cpp:67-75 | a group starting with five hex digits gives their value |
| Db.KeyTailIgnored | db.cpp:67-75 | the last three characters of every group never reach the key |
| Db.CryptRedisDb.constructor | db.cpp:181-189 | not connected, no context, port -1, encryption off, key all zero |
| Db.CryptRedisDb.SetKey | db.cpp:61-77 | key word i is the word of group i, for all four |
| Db.CryptRedisDb.ResetKey | db.cpp:362-378 | unset gives -1 and "invalid key". Shorter than 16 gives -1 and "key is too small (less than 128bits)". Otherwise 0 and the key's words; the key changes only then |
| Db.CryptRedisDb.SetCryptEnabled | db.cpp:380-394 | always off with the key zeroed first. false returns 0. true ends on iff the result is 0 iff resetKey accepts, with resetKey's error otherwise |
| Db.CryptRedisDb.ZeroKey | db.cpp:384 | explicit_bzero of sizeof(cryptkey) zeroes all four words |
| Db.CryptRedisDb.BuildReply | db.cpp:79-136 | outside the decrypting branch, the result is Filled of the reply |
| Db.CryptRedisDb.Connect | db.cpp:138-158 | connected already: true and nothing changes. Otherwise true iff redisConnect gives a live context; a refused one sets last_error to its errstr; a context exists iff connected |
| Db.CryptRedisDb.Open | db.cpp:160-168 | a non-empty host and positive port replace the stored ones, then connect to the stored ones. A refused connect leaves errstr as the last error; otherwise the last error is unchanged |
| Db.CryptRedisDb.Close | db.cpp:170-179 | disconnected with no context; nothing else changes |
| Db.CryptRedisDb.CheckConnect | db.cpp:50-59 | connects to the stored host and port. A failed connect clears the given result, success leaves it alone. A refusal sets the last error to errstr, and the encryption switch never changes |
| Db.CryptRedisDb.SetHost | db.cpp:350-354 | only the host changes |
| Db.CryptRedisDb.SetPort | db.cpp:356-360 | only the port changes |
| LegacyDb.LegacyKeyLost | cryptredisdb.cpp:76-91 | the older setKey agrees with the intended key exactly when group 3 gives group 0's word and words 1-3 already held groups 1-3 |
| LegacyDb.LegacyWipeKeeps | cryptredisdb.cpp:342 | words 1-3 survive the wipe, which gives an all-zero key exactly when they were zero already |
| LegacyDb.CryptRedisDb.constructor | cryptredisdb.cpp:184-191 | not connected, no context, port -1, encryption off; the key words are not set |
| LegacyDb.CryptRedisDb.SetKey | cryptredisdb.cpp:76-91 | word 0 ends as group 3's word, and words 1-3 are unchanged |
| LegacyDb.CryptRedisDb.SetCryptEnabled | cryptredisdb.cpp:339-366 | only word 0 is zeroed. An unset or short key: off, with "key is too small (less than 128bits)". Otherwise setKey, bufsiz = CRYPTREDIS_MAXSIZBUF, and on iff both buffers were allocated, else "could not allocate crypto buffers" |
| LegacyDb.CryptRedisDb.BuildReply | cryptredisdb.cpp:93-139 | a null reply clears the result; any other reply is stored as Filled |
| LegacyDb.CryptRedisDb.Connect | cryptredisdb.cpp:141-161 | as Db's connect: true at once when connected, else true iff redisConnect gives a live context |
| LegacyDb.CryptRedisDb.Open | cryptredisdb.cpp:163-171 | a non-empty host and positive port replace the stored ones, then connect. A refused connect leaves errstr as the last error; otherwise the last error and the buffer size are unchanged |
| LegacyDb.CryptRedisDb.Close | cryptredisdb.cpp:173-182 | disconnected with no context; nothing else changes |

## Left out

- Redis traffic: the get, set, exists, ping and del bodies of cryptredis.c, db.cpp and cryptredisdb.cpp. They are calls into hiredis over the network.
  - `redisConnect` is a function parameter (`Hiredis.Connector`).
  - A reply is a record handed to `buildReply`.
  - The hiredis headers are not part of this model; the reply codes are those hiredis publishes.
- Db.CryptRedisDb.BuildReply and LegacyDb.CryptRedisDb.BuildReply: the decrypting branch of a GET, decode plus decrypt, is excluded by a precondition. Those two steps are modelled separately as `Encode.Decode` and `BsdCrypt.CipherState.Decrypt`.
- Db.CryptRedisDb.BuildReply takes a reply that is there. db.cpp:85-86 reads the reply's fields before its null check at line 88, so a null reply is undefined behaviour.
- Db.CryptRedisDb.ResetKey and Db.CryptRedisDb.SetCryptEnabled require a key that setKey can read. setKey reads 32 characters after a length check of 16, so a key of 16 to 23 characters runs past its end. Under 16, at least 24, and unset keys are all modelled. LegacyDb.CryptRedisDb.SetCryptEnabled has the same precondition.
- Rijndael itself: `bsd-rijndael.h` is not part of this model. The cipher is a pair of functions, with `D(E(x)) == x` as a hypothesis where a proof needs it. The AES test vector of tests/regress.c:53-75 can only be checked against real AES, so it is not stated.
- `bcrypt_pbkdf`: a function parameter (`CryptRedis.Kdf`). The model states which passphrase and salt reach it.
- `getenv`, `fopen` and `fgets`: the key string and the key file's lines are inputs. An unset `CRYPTREDIS_KEYFILE` and a file that cannot be opened are both `None`.
- CryptRedis.Client.ResetKey: with no key line in the file, `tmpkey` is uninitialised stack memory. The model passes `None` to the KDF.
- CryptRedis.KeyMaterial.ApplyLine: the `memcpy` of `LINE_MAX` bytes into `tmpkey` is modelled as copying the value string.
- Memory lifetime: the malloc and calloc failure paths of cryptredis.c and db.cpp, `free`, and `explicit_bzero` on release are left out. For the older setCryptEnabled, buffer allocation success is a parameter (`buffersOk`).
- LegacyDb.CryptRedisDb.constructor: the key words the constructor leaves uninitialised are a parameter.
- The sizes of `struct cryptredis_key`'s salt and iv arrays are parameters, `saltSize` and `ivSize`. Their header is not part of this model.
- CryptRedis.SetSizes excludes two ranges of lengths, where encsiz's int arithmetic is undefined. One is lengths that are not multiples of 128 in (2^29, 2^31]: align64 gives 2^30 or 2^31, and `len * 2` overflows. The other is multiples of 128 above 0x3333_3300: they are kept as they are, and the sum overflows or the size_t does not fit an int. The size_t length is taken as the u_int32_t align64 receives.
- Encode.EncSiz requires `len <= 0x3333_3333`. Above that, encode.c:42-44 overflows `len * 2`, or the sum does not fit the int `senclen`.
- The 3- and 4-argument encode and decode declared at encode.h:25-27 and called at cryptredis.c:259 and 301 have no body here. Only the encode.c revision, which tests/regress.c exercises, is modelled.
- The plaintext over-read when a value is shorter than its aligned length (cryptredis.c:258, db.cpp:258) is excluded by `Encrypt`'s precondition that src holds the words it reads.
- `cryptredis_dumphex32`, `DPRINTF` and every `fprintf`: debug output only.
- Endianness and `long`: a little-endian machine and a 64-bit `long` are assumed.
- LegacyDb.LegacyWipe: KEY_SIZE is taken to be an int constant, so `sizeof(KEY_SIZE)` is 4 bytes, one key word. bsd-crypt.h, which defines it, is not part of this model. Were it 8 bytes, words 2 and 3 would still survive.
- `strtol` saturation is modelled. Errno is not.
- Tests that need a live Redis server are not modelled.

## Findings

| source | as written | input that shows it | evidently intended | confidence | as-written member | corrected member |
|---|---|---|---|---|---|---|
| tests/regress.c:89-91 | encsiz(len) is used as the size of the encode buffer, but cryptredis_encode's last sprintf writes a NUL at index 10 * (len / 4), which equals encsiz(len) for whole words | len = 16: encsiz is 40, and the NUL is written at index 40 of a 40-byte buffer | the buffer holds encsiz + 1 characters | not executed | Encode.EncSizNulOverrun | Encode.EncodedBufferSize |
| cryptredisdb.cpp:87 | `*pk = ...` inside the loop never advances pk, so all four words are stored into word 0; the last, group 3, stays there and words 1-3 keep their old values (LegacyDb.LegacyKeyLost) | key "11111000222220003333300044444000": the key ends [0x44444, w1, w2, w3] with the old w1-w3 instead of [0x11111, 0x22222, 0x33333, 0x44444] | `pk[i] = ...`, one word per group, as db.cpp:72 does | not executed | LegacyDb.CryptRedisDb.SetKey | Db.CryptRedisDb.SetKey |
| cryptredisdb.cpp:342 | `memset(d->cryptkey, 0x0, sizeof(KEY_SIZE))` clears sizeof(int) = 4 bytes when KEY_SIZE is an int constant, only key word 0 (LegacyDb.LegacyWipeKeeps) | disabling encryption after a key was set leaves words 1-3 of that key in memory | clearing the whole key array, as db.cpp:384 does with sizeof(d->cryptkey) | not executed | LegacyDb.CryptRedisDb.SetCryptEnabled | Db.CryptRedisDb.SetCryptEnabled |
