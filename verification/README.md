# PostLite, verified

A Dafny model of the parts of PostLite whose correctness is not visible in any single
function: the encrypted sign-in, the WebSocket codec, secret redaction, the in-memory
stores that depend on a clock, collection export and import, and the text codecs. Every
operation keeps the branches, constants and error cases of the Go or JavaScript it models.
Operations that change state are methods of a class, proved against a specification
function; the theorems are lemmas about those functions, over all inputs and all runs.

| file | models |
|---|---|
| `Bits.dfy`, `Numbers.dfy`, `Hex.dfy`, `Wrappers.dfy` | bytes and words, octet strings and modular arithmetic, hexadecimal text, sequences |
| `Sha256.dfy` | FIPS 180-4, JavaScript's number operators, and the page's own SHA-256 |
| `LoginEnc.dfy` | RSAES-OAEP of RFC 8017, the page's encryption, and page and server together |
| `Challenges.dfy`, `RateLimit.dfy`, `Vault.dfy` | the single-use challenges, the login limiter, the secret cache |
| `Redact.dfy`, `Resolve.dfy` | masking of secrets, placeholder substitution |
| `WsFrame.dfy`, `WsMessage.dfy`, `WsWriters.dfy` | frames, reassembly, goroutines sharing a connection |
| `Sse.dfy`, `SseReading.dfy` | the event-stream reader and the relay's printer, and what the reader makes of each line and block |
| `Collections.dfy`, `Transfer.dfy` | the folder store and its forest, export and import |
| `Uuid.dfy`, `Base64.dfy`, `DeepEqual.dfy` | time-based ids, `atob`/`btoa`, deep comparison |

`dafny verify dfyconfig.toml` checks everything.

Conventions. A char of a Go string stands for one byte, except in `Base64.dfy`, where it is a
code point, and in `Collections.dfy` and `Transfer.dfy`, where it is a character; the page's
hex text in `LoginEnc.dfy` is made of UTF-16 units. A call that reads the clock gets the reading as `now`; randomness (nonces, OAEP
seeds, masking keys, the UUID node) is a parameter. A critical section is one method.

Where the code does not do what is written about it, the code is modelled and the exact
condition is proved:

- The redactor says it masks every occurrence. A redactor of one value can leave it readable if
  and only if the value starts or ends with `*` or contains `***` (`Redact.SurvivesIff`); in a
  longer list such a value is gone all the same if it holds another listed value that cannot
  touch a mask (`Redact.HoldingAnotherNeverSurvives`).
- The limiter says an address is locked for 15 minutes after five failures. The first call, a
  query or a failure, after the window since the *first* failure forgets the lock
  (`RateLimit.LockHeldIff`): later queries find it gone (`RateLimit.LockEndsEarly`), and a
  failure wipes it even if no query comes before (`RateLimit.FailureWipesLock`).
- The event reader says it stops when its limit of events is reached. An event left open at the
  end comes as one too many when exactly the limit was closed (`Sse.LimitedEvents`,
  `Sse.OpenEventIsOneTooMany`).
- The page's SHA-256 says it is FIPS 180-4. It pads one block too many for lengths that are 55
  modulo 64 (`JsSha256.PaddedIsStandardIff`); no 2048-bit sign-in hashes such a length
  (`LoginHandshake.SignIn`).
- The vault says results are cached unless invalidated. A lookup that fetched before a write
  and stores after its invalidation leaves the old value behind (`Vault.StraddlingServesStale`).
  With values that are never written twice, a hit is current if and only if the lookup that
  filled its entry did no such thing (`Vault.HitIsCurrentIff`).
- Folders are meant to form a forest. The parent key is only checked once the new row is there,
  so a folder created with the next free id as its parent becomes its own parent
  (`Collections.FolderUnderItself`); the folders are a forest if and only if no such folder is
  left (`Collections.ReachableIsForestIff`).
- Export then import keeps nesting and placement exactly when every link of the collection
  stays inside it and none of its folders is its own parent, neither of which the store
  enforces (`Transfer.ImportOfExport`, `Transfer.OwnParentIsNotCopied`).
- The relay masks the data of an event but not its type or id, so a secret in those reaches the
  browser (`Sse.TypeIsNotMasked`), and a secret that overlaps one of the printed labels can
  (`Sse.SecretReachesBrowserIff`, `Sse.ExposedIffInTypeOrId`, `Sse.LabelLeakIff`).
- `atob` undoes `btoa` except on the empty string (`Base64.AtobOfBtoaIff`).

## Model

| member | source | states |
|---|---|---|
| `Rfc8017.DecodeOfEncode` | internal/web/static/loginenc.js:163-176 | EME-OAEP decoding gives back exactly the message, for every hash with 32-byte output, every seed, every modulus length k and every message of at most k - 66 bytes |
| `Rfc8017.DecryptOfEncrypt` | internal/web/static/loginenc.js:154-179 | with a matching key pair and an n of exactly k significant bytes, private-key decryption of the ciphertext is the message: no reduction, padding or conversion step loses anything |
| `Rfc8017.EncodedIsBelowModulus` | internal/auth/loginenc.go:97-99 | an encoded message, read as a number, is below any n of k significant bytes because its first byte is 0 |
| `Rfc8017.EncodeAgrees` | internal/web/static/loginenc.js:85-98 | OAEP only depends on the hash at three input lengths: 0, 36 and k - 29 |
| `Rfc8017.MaskBlockIs` | internal/web/static/loginenc.js:85-98 | block i of the mask is the hash of the seed followed by i in four octets, most significant first |
| `Rfc8017.EncodedSeed` | internal/web/static/loginenc.js:163-176 | the encoded message starts with 0, and its next 32 octets exclusive-or the mask of the rest are the seed |
| `Rfc8017.EncodedData` | internal/web/static/loginenc.js:163-176 | the rest exclusive-or the mask of the seed is, octet by octet, the hash of the empty label, zeros, 1 and the message |
| `LoginPage.Mgf1` | internal/web/static/loginenc.js:85-98 | the page's mask is MGF1 of RFC 8017 over the page's own hash, counter bytes included |
| `LoginPage.XorInto` | internal/web/static/loginenc.js:101-103 | bit by bit: every bit of every octet becomes the sum modulo 2 of the old bit and the bit of the mask |
| `Bits.BitOfXorByte` | internal/web/static/loginenc.js:101-103 | each of the eight bits of an exclusive-or of bytes is the sum of the two bits modulo 2 |
| `Bits.BitOfWords` | internal/web/static/loginenc.js:36-72 | each of the 32 bits of a word operation is the product of the two bits for and, their maximum for or, their sum modulo 2 for exclusive-or |
| `LoginPage.Os2ip` | internal/web/static/loginenc.js:114-118 | the loop computes OS2IP of section 4.2 |
| `LoginPage.I2osp` | internal/web/static/loginenc.js:120-127 | the backwards loop over the array computes I2OSP of section 4.1 |
| `Octets.OS2IPofI2OSP` | internal/web/static/loginenc.js:113-127 | reading the bytes back gives the number whenever it fits them, so the ciphertext loses nothing |
| `Octets.OS2IPIsBigEndian` | internal/web/static/loginenc.js:114-118 | one more octet in front counts its value times 256 to the number of octets behind it |
| `Octets.I2OSPofOS2IP` | internal/web/static/loginenc.js:113-127 | writing the number back gives every byte string it was read from, leading zeros included |
| `LoginPage.ModPow` | internal/web/static/loginenc.js:129-139 | square-and-multiply equals base^exp mod n, and is 1 for exponent 0 |
| `LoginPage.SquareStep` | internal/web/static/loginenc.js:133-137 | one turn of the loop keeps result * b^e modulo n |
| `LoginPage.DataBlock` | internal/web/static/loginenc.js:163-166 | the array filled in place is the data block of section 7.1.1: label hash, zeros, 1, message |
| `LoginPage.EncodedMessage` | internal/web/static/loginenc.js:163-176 | the bytes built with in-place masking are the OAEP encoding of section 7.1.1 |
| `LoginPage.Encrypt` | internal/web/static/loginenc.js:141-179 | from the hex text of the modulus to the Base64 text of the ciphertext: refuses exactly what is not hex, then messages longer than k - 66 bytes, then a missing random source, then a zero modulus, and otherwise sends the RSAES-OAEP ciphertext |
| `LoginPage.ModulusIsReadIff` | internal/web/static/loginenc.js:141-145 | a modulus text is read if and only if it is hex once trimmed and rid of a 0x prefix |
| `LoginPage.ModulusIsNumber` | internal/web/static/loginenc.js:141-145 | what is read is the number the hex digits denote, an odd count of digits and capitals included |
| `LoginPage.TrimIs` | internal/web/static/loginenc.js:141-145 | white space around a text that has none at its ends comes off, and nothing else |
| `LoginPage.JsSpaceIs` | internal/web/static/loginenc.js:141-145 | that white space is what JavaScript trims: the byte order mark included, the next-line character not |
| `LoginPage.PrefixComesOff` | internal/web/static/loginenc.js:141-145 | a 0x or 0X comes off hex digits, which stay as they are without one |
| `HexText.DigitsAre` | internal/web/static/loginenc.js:141-145 | the digits are 0123456789abcdef in that order, with their capitals |
| `LoginPage.ModulusOfHex` | internal/auth/loginenc.go:97-99 | the hex text the server publishes is read back as exactly the modulus bytes |
| `LoginHandshake.HashesAgree` | internal/web/static/loginenc.js:39-82 | page and server hash alike at every length that is not 55 modulo 64 |
| `LoginHandshake.ServerReadsWhatPageSent` | internal/auth/loginenc.go:143-151 | whatever the page encrypts, the server, using the standard hash, decrypts to the same message, for every modulus length that is not 20 modulo 64 bytes |
| `LoginHandshake.SignIn` | internal/web/static/loginenc.js:154-179 | with a 2048-bit key published in hex a message is refused exactly above 190 bytes, and otherwise, given a random source, the text sent decrypts on the server to the same message |
| `JsSha256.PaddedLengthFits` | internal/web/static/loginenc.js:41-43 | with 32-bit shifts the padded buffer is large enough exactly for inputs below 2^31 - 73 bytes |
| `JsSha256.PaddedIsStandardIff` | internal/web/static/loginenc.js:41-47 | the page's padding is that of the standard if and only if the length is not 55 modulo 64, where it is one block longer |
| `JsSha256.RotrIsRotr` | internal/web/static/loginenc.js:36 | the signed result of the shift-and-or rotation is the word rotation modulo 2^32 |
| `JsSha256.NextSumIsNextWord` | internal/web/static/loginenc.js:57-59 | the sum of signed and unsigned intermediates is an exact double and reduces to the next schedule word |
| `JsSha256.T1Step` | internal/web/static/loginenc.js:63-65 | the five-term sum with signed S1 and ch is an exact double and reduces to T1 of the standard |
| `JsSha256.T2Step` | internal/web/static/loginenc.js:66-68 | the signed sum S0 + maj is exact and reduces to T2 |
| `JsSha256.Compress` | internal/web/static/loginenc.js:61-75 | the 64-step loop and the final additions are steps 2 to 4 of section 6.2.2 |
| `JsSha256.Sha256` | internal/web/static/loginenc.js:39-82 | the digest is the standard's for every input whose length is not 55 modulo 64, and the standard compression of the longer padding otherwise; what the standard's functions compute is stated by the rows below |
| `Fips180.K0IsCubeRoots` | internal/web/static/loginenc.js:25-27 | the first sixteen round constants are the first 32 bits of the fractional parts of the cube roots of 2, 3, 5 to 53, by the inequalities that define them; three more lemmas do the other forty-eight |
| `Fips180.InitialIsSquareRoots` | internal/web/static/loginenc.js:49-50 | the initial hash value is the first 32 bits of the fractional parts of the square roots of the first eight primes |
| `Fips180.BitOfRotr` | internal/web/static/loginenc.js:36 | bit i of a rotation by n is bit i + n modulo 32 of the word |
| `Fips180.BitsOfSigmas` | internal/web/static/loginenc.js:54-66 | each bit of the four mixing functions is the sum modulo 2 of the three bits their rotations and shifts bring there |
| `Fips180.BitOfCh` | internal/web/static/loginenc.js:64 | each bit of Ch is that of the second word where the first has 1, and of the third where it has 0 |
| `Fips180.BitOfMaj` | internal/web/static/loginenc.js:67 | each bit of Maj is the one at least two of the three words have |
| `Fips180.ScheduleIs` | internal/web/static/loginenc.js:52-59 | the first sixteen schedule words are the block read big-endian, each later one the sum modulo 2^32 of four mixed earlier ones |
| `Fips180.RoundIs` | internal/web/static/loginenc.js:63-70 | one round as eight equations between the working variables |
| `Fips180.NextBlockAdds` | internal/web/static/loginenc.js:71-75 | a block adds its 64 rounds to the hash value, component by component modulo 2^32 |
| `Fips180.OneBlockDigest` | internal/web/static/loginenc.js:39-82 | the digest of up to 55 bytes written out: message, 0x80, zeros and bit length make one block, and its eight words come out big-endian |
| `Redact.SurvivesIff` | internal/executor/redact.go:37-42 | a value can be left readable by a redactor of its own if and only if it starts or ends with an asterisk or contains three of them in a row |
| `Redact.HoldingAnotherNeverSurvives` | internal/executor/redact.go:37-42 | in a list no value survives that holds a listed value which cannot touch a mask |
| `Redact.MaskedKeepsAbsent` | internal/executor/redact.go:37-42 | in any list of values, in any order, a listed value that cannot touch a mask never occurs in the result, and any other such text that was absent stays absent |
| `Redact.WhatIsLeftWasThere` | internal/executor/redact.go:38-40 | one replacement pass never assembles a new occurrence and leaves none of its own value |
| `Redact.WholeValueBecomesOneMask` | internal/executor/redact.go:31-33 | because longer values go first, a listed value on its own becomes exactly one mask |
| `Redact.FirstMatchReplaced` | internal/executor/redact.go:38-40 | the first occurrence of a value becomes three asterisks, what comes before it stays, and the search goes on behind it |
| `Redact.NothingListedNothingMasked` | internal/executor/redact.go:37-42 | a text in which no listed value occurs stays as it is |
| `Redact.Redactor.constructor` | internal/executor/redact.go:18-34 | keeps exactly the non-empty values, each once, longest first |
| `Redact.Redactor.Text` | internal/executor/redact.go:37-42 | one replacement pass per value in order; no listed value that cannot touch a mask is left |
| `Resolve.TokensRejoin` | internal/executor/resolve.go:9 | concatenating the scanned literals and placeholders gives the input back |
| `Resolve.TokensAreLeftmost` | internal/executor/resolve.go:39-40 | the scan never passes over a place where the pattern matches |
| `Resolve.LeftmostReadingIsUnique` | internal/executor/resolve.go:39-40 | it is the only such reading of its input |
| `Resolve.UnknownNamesExact` | internal/executor/resolve.go:50-57 | over any run of texts the warnings are exactly the placeholder names that are no value and are not "sec." before the key of a secret |
| `Resolve.InjectedSecretsExact` | internal/executor/resolve.go:44-49 | the used map holds k with v exactly when "sec." + k was a placeholder, is no value, and the secret k is v |
| `Resolve.Resolver.Resolve` | internal/executor/resolve.go:39-59 | the callback's output is the token-by-token substitution, and both maps record all tokens seen so far |
| `Resolve.PlaceholderBecomes` | internal/executor/resolve.go:39-53 | between a text without an open brace and any text, {{n}} becomes the value of n; if n has none and is "sec." before the key of a secret, that secret; and otherwise stays as written |
| `Resolve.PlainTextStays` | internal/executor/resolve.go:39-40 | a text without an open brace stays as it is |
| `Resolve.OtherBracesStay` | internal/executor/resolve.go:9 | an open brace at which no name in double braces begins is copied, and the scan goes on behind it |
| `Resolve.NameCharIs` | internal/executor/resolve.go:9 | names are made of the 52 letters, the ten digits, underscore and dot |
| `Resolve.Resolver.UsedSecrets` | internal/executor/resolve.go:72-78 | returns exactly the values in the used map |
| `Resolve.ResolveFields` | internal/httpapi/execute.go:246-258 | one resolver over all text fields gives each field's substitution and the warnings and secrets of them all |
| `Resolve.ResolveAndMask` | internal/httpapi/execute.go:244-282 | in any text masked after resolution, no spliced-in secret that cannot touch a mask is readable |
| `Resolve.ReplaceInThenResolve` | internal/script/context.go:399-408 | when no literal and no expanded value holds an open brace and the bag agrees with the values, resolving what replaceIn returned is resolving the original |
| `Resolve.ReplaceInBecomes` | internal/script/context.go:399-408 | replaceIn puts the value from the bag for {{n}} and leaves a name not in the bag as written |
| `WsFrame.ParseOfEncode` | internal/executor/wsframe.go:351-398 | a written frame followed by any bytes reads back as the same fin, opcode and payload and leaves exactly those bytes, in all three length forms, masked or not |
| `WsFrame.WireForm` | internal/executor/wsframe.go:251-311 | the octets of a frame in literal form: 128 for fin plus the opcode, the mask bit with 7, 7 + 16 or 7 + 64 bits of length, the key, the payload |
| `WsFrame.LongLengthsAreRefused` | internal/executor/wsframe.go:359-389 | a 64-bit length above 2^20 is refused as too big before anything more is read; one of 2^63 or more is negative to the reader, which finds out after the masking key |
| `WsFrame.ParseOfPrefix` | internal/executor/wsframe.go:351-398 | a frame cut anywhere short of its end is never read as anything |
| `WsFrame.Conn.ReadFrame` | internal/executor/wsframe.go:351-398 | the reader's outcome and what it leaves unread, on every byte stream, including the oversized, negative and truncated ones |
| `WsFrame.Conn.ReadLength` | internal/executor/wsframe.go:359-377 | the accumulating loops read the 16- and 64-bit lengths as big-endian numbers, the latter reinterpreted as int64 |
| `WsFrame.Conn.WriteFrame` | internal/executor/wsframe.go:251-311 | refuses exactly the payloads above 2^20 bytes and otherwise appends the wire form of section 5.2 of RFC 6455 |
| `WsFrame.BuildHeader` | internal/executor/wsframe.go:255-292 | the header array filled by index is that of section 5.2, with the shortest length form |
| `WsFrame.Unmasked` | internal/executor/wsframe.go:391-395 | bit by bit: every bit of octet i becomes the sum modulo 2 of the old bit and the bit of octet i mod 4 of the key |
| `WsMessage.Reassembles` | internal/executor/wsframe.go:318-349 | a message sent in any fragments with pings and pongs between them comes back whole, each ping answered once and in order, if the non-final fragments total at most 2^20 bytes, and is refused as too big otherwise |
| `WsMessage.CloseEndsRead` | internal/executor/wsframe.go:336-338 | after any unfinished beginning of a message a close frame, whatever it carries, ends the read: nothing is returned, what follows is left, and written are the pongs owed and then 0x88 0x00 |
| `WsMessage.ReservedEndsRead` | internal/executor/wsframe.go:342-343 | likewise an opcode 3 to 7 or 0xB to 0xF is an error of its own, with only the pongs owed written |
| `WsMessage.FailureEndsRead` | internal/executor/wsframe.go:318-325 | likewise whatever is not a frame ends the read with the reason why |
| `WsMessage.FinalEndsRead` | internal/executor/wsframe.go:326-347 | likewise a final frame of opcode 0, 1 or 2 returns all that was collected and its own payload |
| `WsMessage.MessagesAreBounded` | internal/executor/wsframe.go:326-347 | whatever arrives, no message longer than 2^21 bytes is returned |
| `WsMessage.ReadMessage` | internal/executor/wsframe.go:318-349 | the loop's result, the bytes it leaves and the frames it writes, on every byte stream |
| `WsMessage.ReadMessages` | internal/executor/wsframe.go:318-349 | successive calls on a whole conversation return the original messages and write exactly the pongs owed |
| `WsWriters.WritersNeverInterleave` | internal/executor/wsframe.go:293-311 | under every schedule of concurrent writers the wire is the finished frames in lock order plus at most the beginning of one, and each thread's frames keep their order |
| `WsWriters.PeerReadsFinishedFrames` | internal/executor/wsframe.go:293-311 | at every moment the peer decodes exactly the frames that are out in full |
| `Challenges.LoginCrypto.NewChallenge` | internal/auth/loginenc.go:107-137 | drops the expired, evicts the oldest of a full table, and stores the nonce with its expiry and the next sequence number |
| `Challenges.LoginCrypto.Redeem` | internal/auth/loginenc.go:163-175 | an outstanding nonce is removed whether or not it is still valid |
| `Challenges.LoginCrypto.Decrypt` | internal/auth/loginenc.go:143-160 | a payload that cannot be unwrapped consumes nothing; any other consumes its challenge, and the password is returned only if that was valid |
| `Challenges.FindOldest` | internal/auth/loginenc.go:126-131 | the search returns an entry of least sequence number |
| `Challenges.NeverOverfull` | internal/auth/loginenc.go:122-133 | on every run the table holds at most 4096 entries |
| `Challenges.AcceptedWasIssued` | internal/auth/loginenc.go:163-175 | on every run only a nonce that was issued, was not redeemed since and is within its TTL is accepted |
| `Challenges.AcceptedOnce` | internal/auth/loginenc.go:163-175 | with fresh nonces no challenge is accepted twice |
| `Challenges.FreshChallengeIsAccepted` | internal/auth/loginenc.go:104-137 | an unused challenge within its TTL is accepted whenever fewer than 4096 were issued after it |
| `Challenges.SweepIsInvisible` | internal/auth/loginenc.go:117-121 | dropping expired entries never changes what any redemption answers |
| `RateLimit.RateLimiter.IsLocked` | internal/auth/ratelimit.go:30-42 | answers from the record found, even when it has just dropped it, and touches no other address |
| `RateLimit.RateLimiter.NoteFail` | internal/auth/ratelimit.go:44-56 | counts into the open window or opens a new one, locks from the fifth failure on, and touches no other address |
| `RateLimit.AddressesAreIndependent` | internal/auth/ratelimit.go:30-62 | an address's record after any run is that of its own calls alone |
| `RateLimit.LockedNeedsFiveFailures` | internal/auth/ratelimit.go:44-56 | locked is answered only after five failures of that address without a reset, all in one window, the last less than a window ago |
| `RateLimit.FiveFailuresLock` | internal/auth/ratelimit.go:30-56 | once a window holds five failures, every query for the address inside the window is answered locked |
| `RateLimit.FourFailuresDoNotLock` | internal/auth/ratelimit.go:44-56 | an address with at most four failures in all is never answered locked, whatever other calls were made |
| `RateLimit.LockHeldIff` | internal/auth/ratelimit.go:30-68 | whatever calls without a reset follow a lock, a query is answered locked if and only if every one of them for that address came within the window since the first failure, or those from the first later one on would lock an address without a record |
| `RateLimit.LockHeldIffInWindow` | internal/auth/ratelimit.go:30-68 | with fewer than five further failures: if and only if every one came within the window |
| `RateLimit.FailureWipesLock` | internal/auth/ratelimit.go:48-51 | five failures lock until minute 29, a sixth at 16 wipes the lock, and a query at 17 is answered unlocked |
| `RateLimit.LockHonouredIff` | internal/auth/ratelimit.go:64-68 | queries in a row, with no other call in between, are all answered locked if and only if none but the last comes after that window: the first late query still sees the lock |
| `RateLimit.LockEndsEarly` | internal/auth/ratelimit.go:37-41 | four failures at minute 0 and one at 14 lock until 29, yet the second of two queries at minute 16 is answered unlocked |
| `Vault.SecretVault.Lookup` | internal/crypto/secret.go:89-109 | undisturbed, a hit is served, a failed fetch changes nothing, and a fetched value is served again within the TTL |
| `Vault.HitNeedsLaterStore` | internal/crypto/secret.go:79-84 | after an invalidation nothing is served from the cache until some lookup has stored the name again |
| `Vault.EntriesAreKnown` | internal/crypto/secret.go:89-109 | under every interleaving each entry carries the current generation and is what some lookup fetched, stored since the last invalidation |
| `Vault.ServedWasFetched` | internal/crypto/secret.go:91-94 | a served value was decrypted less than the TTL plus that lookup's own duration ago |
| `Vault.HitIsCurrentIff` | internal/crypto/secret.go:89-109 | once every write was followed by an invalidation, a hit serves what the store holds if the lookup that filled its entry did not straddle a write and its invalidation, and, where no value is written twice, only then |
| `Vault.MissIsCurrentIff` | internal/crypto/secret.go:97-108 | a lookup that misses returns what the store held at its fetch, which is still what the store holds if nothing was written since, and, where no value is written twice, only then |
| `Vault.StoredUnchangedIff` | internal/httpapi/secrets.go:70-75 | between two moments the stored value is the same if nothing was written, and, where no value is written twice, only then |
| `Vault.SettledHitsAreCurrent` | internal/httpapi/secrets.go:70-75 | if no lookup of a name straddles a write and its invalidation, every settled hit is current |
| `Vault.StraddlingServesStale` | internal/crypto/secret.go:105-107 | a lookup that straddles them leaves the replaced value cached under the new generation |
| `Sse.ParseSSEEvent` | internal/executor/sse.go:20-45 | the method computes what folding the block's lines in order gives; the rows below say over text what that is |
| `SseReading.FieldLine` | internal/executor/sse.go:29-43 | one more line in any block: the text after the first colon, less one space, or nothing for want of a colon, becomes the type or the id or one more line of data, by the name before it less white space; any other name changes nothing |
| `SseReading.CommentLine` | internal/executor/sse.go:24-28 | an empty line and one that begins with a colon change nothing |
| `SseReading.EveryLine` | internal/executor/sse.go:24-29 | every line is of one of those kinds |
| `Text.TrimSpaceIs` | internal/executor/sse.go:33 | what is trimmed from a name is white space on both sides, and none is left at either end |
| `Sse.DialSSE` | internal/executor/sse.go:88-137 | the events yielded for every body, event limit, refusal by the caller and moment of cancellation, with dropped blocks and the block left open at the end, and whether the read ends with the cancellation error |
| `SseReading.CrLfReadsAsLf` | internal/executor/sse.go:118 | in any body, under any limits, a line ended by a carriage return and a line feed reads as one ended by a line feed |
| `SseReading.BlockReads` | internal/executor/sse.go:91-122 | lines of at most 2^20 bytes closed by an empty line are one event, or none if they set nothing, and the rest of the body reads as if it stood alone |
| `SseReading.EmptyLineReads` | internal/executor/sse.go:119-123 | an empty line where no block is open changes nothing |
| `SseReading.OpenBlockReads` | internal/executor/sse.go:108-117 | a block the body ends in is an event if it has a type or data; an id alone is not enough |
| `SseReading.OversizedBlockIsDropped` | internal/executor/sse.go:125-129 | a block that outgrows 2^20 bytes is dropped with the line that made it, and the rest reads as if it stood alone |
| `Sse.LimitsGivePrefix` | internal/executor/sse.go:91-137 | whatever stops the read, it has yielded the beginning of what would have come without, and at most its last event was refused |
| `Sse.LimitedEvents` | internal/executor/sse.go:100-117 | a limit of n cuts off after n when more than n events are closed and changes nothing otherwise, so n is exceeded exactly when n are closed and one more is left open |
| `Sse.OpenEventIsOneTooMany` | internal/executor/sse.go:108-117 | n events printed whole and one without its empty line: under a limit of n all n + 1 come |
| `Sse.WriteEvent` | internal/httpapi/realtime.go:338-353 | the bytes written line by line are the printed event with its data redacted |
| `SseReading.PrintedIs` | internal/httpapi/realtime.go:342-353 | the text of an event with one line of data, labels and order included |
| `Sse.ReadIsExpressible` | internal/executor/sse.go:106-128 | whatever the body, every event read has a type, id and data whose lines survive being written and read again |
| `Sse.PrintThenReadIff` | internal/httpapi/realtime.go:342-353 | reading what was printed gives the same list if and only if types and ids hold no line feed, no line ends in a carriage return, no event is empty and each block is at most 2^20 bytes |
| `Sse.ParseRemainder` | internal/executor/sse.go:125-129 | when the head of an oversized event is dropped, what is left never reads as that event |
| `Sse.MaskedIsExpressible` | internal/httpapi/realtime.go:338 | redacting an event never makes it unreadable: no carriage return comes to stand before a line feed or at the end, and nothing becomes empty |
| `Sse.SecretReachesBrowserIff` | internal/httpapi/realtime.go:338-353 | a listed one-line value that cannot touch a mask is readable in the relayed bytes if and only if some event shows it in its event or id line or across the label of a data line |
| `Sse.ExposedIffInTypeOrId` | internal/httpapi/realtime.go:343-348 | for a value that neither begins with the rest of a label nor lies inside one that means: if and only if it is in some event's type or id |
| `Sse.LabelLeakIff` | internal/httpapi/realtime.go:343-351 | exactly the other one-line values can be shown by an event that has them neither in type nor in id |
| `Sse.TypeIsNotMasked` | internal/httpapi/realtime.go:343-345 | a body of one event whose type is a listed secret is relayed with the secret readable |
| `Sse.BrokenOffNeverShown` | internal/httpapi/realtime.go:342-353 | a value with a line feed before anything but the beginning of a label or another line feed never reaches the browser |
| `Sse.Relay` | internal/httpapi/realtime.go:333-356 | what the browser reads is what upstream sent, redacted and less the types filtered out, if and only if each redacted event fits; exactly the one-line values some event exposes are readable in it, and none that breaks off a line |
| `SseReading.PassingIs` | internal/httpapi/realtime.go:333-337 | without a filter every event passes; with one, those of that type or of none, each in its place |
| `Sse.ReportError` | internal/httpapi/realtime.go:361-366 | no listed one-line value is readable in the error event except in its fixed first line or across the label of the second |
| `Collections.ReachableIsForestIff` | internal/repository/collections.go:98-143 | after any operations no path of parents returns to its start if and only if no folder that is still there was created with the next free id as its parent |
| `Collections.CallKeepsForestIff` | internal/repository/collections.go:98-107 | one call on a forest leaves a forest if and only if it does not create a folder under the next free id |
| `Collections.FolderUnderItself` | internal/repository/collections.go:98-107 | the first folder, created with parent 1, is its own parent |
| `Collections.ForestIff` | internal/db/migrations.go:35-40 | with the invariant the only possible cycle is a folder that is its own parent |
| `Collections.ReachableKeepsInv` | internal/db/migrations.go:35-40 | after any operations every reference resolves and no folder's parent has a larger id, although ids are reused |
| `Collections.ApplyKeepsInv` | internal/db/migrations.go:35-40 | each create, rename, update and cascading delete keeps that |
| `Collections.DropFoldersIsCascade` | internal/db/migrations.go:35-46 | after a delete a folder is left exactly when it was not deleted itself and its parent, if it has one other than itself, is left; rows that stay are unchanged, and a request is detached exactly when its folder is gone |
| `Collections.Database.InsertFolder` | internal/repository/collections.go:98-107 | refuses exactly a missing collection or a parent that neither exists nor is the id about to be given, otherwise adds the row under that id |
| `Collections.CascadeIsUnique` | internal/repository/collections.go:138-143 | those row-by-row clauses leave only one possible outcome of a delete |
| `Collections.Database.InsertRequest` | internal/repository/requests.go:64-78 | refuses exactly what the constraints refuse, otherwise stores the row with its defaults |
| `Collections.ValidVerbIff` | internal/db/migrations.go:141 | a method is accepted if and only if it has 1 to 32 characters up to its first NUL |
| `Collections.UpdateRequestIs` | internal/repository/requests.go:114-127 | an update of an existing row is refused exactly when a new row like it would be, and otherwise replaces that row alone; of a missing row it changes nothing |
| `Collections.DeleteCollectionIs` | internal/repository/collections.go:69-73 | a deleted collection takes exactly its folders with all below them and its own requests; a request of another collection stays, detached when its folder is gone |
| `Collections.SmallChangesAre` | internal/repository/collections.go:64-67 | a rename changes one name and a request's delete removes one row, nothing else |
| `Transfer.ExportCollection` | internal/httpapi/collections.go:358-382 | field by field: the document has the collection's name and, in id order, exactly its folders with their ids, parents and names and exactly its requests with their ids, folders and whole content |
| `Transfer.ImportFolders` | internal/httpapi/collections.go:427-443 | the loop's store and old-to-new map |
| `Transfer.FolderLoopIds` | internal/httpapi/collections.go:427-443 | the map sends the i-th exported id to the i-th new one, injectively, and nothing else anywhere |
| `Transfer.ImportCollection` | internal/httpapi/collections.go:407-451 | the state after an import, which stops at the first refused request and refuses an empty name |
| `Transfer.ImportOfExport` | internal/httpapi/collections.go:362-481 | importing an export succeeds, changes no existing row, and re-exports to the same names, nesting and request placement if and only if every link of the original stays in its collection and none of its folders is its own parent |
| `Transfer.ImportCopiesRows` | internal/httpapi/collections.go:362-481 | whatever the links are, the i-th new row has the name or content of the i-th original one, and points to the copy of what that pointed to if it was in the collection and not itself, else nowhere |
| `Transfer.OwnParentIsNotCopied` | internal/httpapi/collections.go:428-441 | the copy of a folder that is its own parent has no parent, though every link of the original is local |
| `Transfer.StrayLinkIsNotCopied` | internal/httpapi/collections.go:428-436 | a folder whose parent is in another collection loses its parent in the copy |
| `Transfer.ImportKeepsInv` | internal/httpapi/collections.go:394-452 | importing any document, even one that stops half-way, keeps every reference resolved and no parent's id larger |
| `Transfer.ImportKeepsForest` | internal/httpapi/collections.go:427-443 | no import makes a folder its own parent: on a forest it leaves a forest |
| `Transfer.Copy` | internal/httpapi/collections.go:338-452 | export and import as one run of the real methods: the same re-export equivalence for the store itself, and row by row the same names and contents under the new ids |
| `Uuid.ParseOfFormat` | internal/script/uuid.go:180-195 | parsing a formatted id gives its 16 bytes back |
| `Uuid.FormatOfParse` | internal/script/uuid.go:173-195 | whatever parses is an id's canonical text up to case, once spaces, urn prefix and braces are off |
| `Uuid.ParsesIff` | internal/script/uuid.go:173-195 | a text parses to given bytes if and only if it is their canonical text up to case, once spaces, urn prefix and braces are off |
| `Uuid.FormatIs` | internal/script/uuid.go:173-176 | the canonical text character by character: two digits a byte, dashes at 8, 13, 18 and 23 |
| `Uuid.FormsAreRead` | internal/script/uuid.go:180-195 | plain, in braces, or behind either urn prefix, with blanks around, a text is read |
| `Uuid.PackKeepsTimestamp` | internal/script/uuid.go:140-146 | packing keeps the low 60 bits of the timestamp and sets version 1 and variant 10 of RFC 9562, section 5.1 |
| `Uuid.PackSays` | internal/script/uuid.go:140-148 | the sixteen bytes say the timestamp, the 14-bit clock sequence and the node |
| `Uuid.Generator.NewV1` | internal/script/uuid.go:119-148 | a reading later than the last timestamp is taken as it is; otherwise the timestamp is the last plus one and the clock sequence goes up by one, 0x3FFF to 0; the id parses and says timestamp, clock sequence and node |
| `Uuid.TimestampsIncrease` | internal/script/uuid.go:131-138 | timestamps strictly increase whatever the clock does |
| `Uuid.IdsNeverRepeat` | internal/script/uuid.go:119-148 | no two ids of a process are equal while the timestamp is below 2^60 |
| `Base64.StdDecodeOfEncode` | internal/script/globals.go:63 | standard decoding inverts standard encoding |
| `Base64.GroupSpellsNumber` | internal/script/globals.go:63 | the digits of a group, six bits each, spell the number its bytes make, filled up with zero bits and =, most significant first |
| `Base64.DigitIs` | internal/script/globals.go:63 | the 64 digits in order |
| `Base64.LineBreaksAreSkipped` | internal/script/globals.go:154 | standard decoding takes no notice of a carriage return or line feed anywhere |
| `Base64.LenientDecodes` | internal/script/globals.go:149-165 | base64 text of a non-empty byte string decodes to it, however many blanks are put in anywhere and however many trailing = are left out |
| `Base64.DecodesIff` | internal/script/globals.go:154-156 | text decodes to a non-empty byte string if and only if it is, digit for digit, its base64 text, except for the bits its last digit has to spare |
| `Base64.LenientIff` | internal/script/globals.go:149-165 | the lenient decoder answers a byte string if and only if it is non-empty and the text, blanks out and padding completed, spells it in that sense |
| `Base64.BlankedOfStrip` | internal/script/jsbytes.go:206-217 | the input is what is decoded with blanks put in, and that has none left |
| `Base64.DecodeBase64Lenient` | internal/script/globals.go:149-165 | trying as it stands, padding and trying again accepts exactly those texts |
| `Base64.DecodeLatin1` | internal/script/jsbytes.go:148-156 | an error exactly if some character exceeds U+00FF, else one byte per character with its code |
| `Base64.AtobOfBtoaIff` | internal/script/globals.go:33-64 | atob of btoa is the original if and only if it is non-empty and fits Latin-1 |
| `DeepEqual.DeepEqIff` | internal/script/expect.go:298-343 | at any depth the comparison holds if and only if the values are structurally equal, free of NaN and within the depth limit |
| `DeepEqual.DeepEqIsEquivalence` | internal/script/expect.go:276-343 | symmetric and transitive on all values, reflexive exactly on the NaN-free ones nested at most 64 deep, and the same as equalValues in deep mode |
| `DeepEqual.ShallowIff` | internal/script/expect.go:276-293 | without deep mode exactly null, booleans, strings and numbers other than NaN equal themselves, and nothing equals anything else |
| `DeepEqual.NestedEqualsItselfIff` | internal/script/expect.go:298-301 | an array nested n deep equals itself if and only if n is at most 64 |
| `DeepEqual.ObjContainmentIsOrder` | internal/script/expect.go:363-374 | object containment is transitive and antisymmetric, and reflexive exactly when every field can be compared |
| `DeepEqual.StrContainsIff` | internal/script/expect.go:349-354 | text or bytes contain a value if and only if it is a string and a part of them |
| `DeepEqual.ArrContainsIff` | internal/script/expect.go:355-361 | an array contains a value if and only if it is one of its items, free of NaN and nested at most 64 deep |

## Left out

- LoginHandshake.ServerReadsWhatPageSent: says nothing about modulus lengths that are 20 modulo 64 bytes; there page and server hash different padded blocks, and whether two digests then differ is a property of the compression function that no proof decides for all inputs.
- JsSha256.Sha256: inputs of 2^31 - 73 bytes and more are excluded because the source cannot build the padded buffer for them, as `JsSha256.PaddedLengthFits` proves.
- Rfc8017.DecryptOfEncrypt: that an RSA key pair inverts on every residue is a hypothesis; key generation and the number theory behind it are foreign code.
- LoginPage.Encrypt: the message is given as its UTF-8 bytes, and a negative exponent is not modelled.
- Vault.SecretVault.Lookup: sealing and opening (AES-GCM) are folded into the fetched value; counters do not wrap.
- Resolve.ResolveAndMask: a secret keeps one value during one request; masking of header maps and of the stored request snapshot, which apply the same redactor piece by piece, is not modelled.
- Resolve.ReplaceInThenResolve: texts or values with open braces are outside the claim, since an expanded value may then start a new placeholder.
- Redact.Redactor.constructor: equal lengths come in one fixed order, while sort.Slice may leave them in any; `Redact.MaskedKeepsAbsent` holds for every order.
- Challenges.LoginCrypto.NewChallenge: the nonce is a parameter, taken to be fresh where `Challenges.Plausible` says so, and the 64-bit sequence number does not wrap.
- WsWriters.WritersNeverInterleave: writes that fail part-way are not modelled; after one the connection is unusable anyway.
- WsFrame.Conn.ReadFrame: a negative 64-bit length is an outcome of its own, where the source would panic; RFC 6455 forbids senders to produce one.
- Sse.DialSSE: the body is what was read before it ended or failed; making the request and checking its status are not modelled.
- Sse.Relay: the log kept beside the relay is not modelled; for values in which every line feed stands before the first letter of a label or another line feed, nothing is claimed.
- Transfer.ExportCollection: headers and query lists are the values their JSON denotes; owners, users and time stamps are absent, and the proxy flag is dropped as the source drops it. Ids are unbounded and not negative.
- Uuid.Generator.NewV1: timestamps are unbounded, so the wrap of a 64-bit counter is not modelled; versions 4 and 5 are random or hashed bytes with fixed bits.
- Base64.DecodeBase64Lenient: only the standard alphabet; base64url, hex and UTF-8 conversions would add simpler round trips.
- DeepEqual.DeepEqIff: numbers are compared as exact reals, infinities and NaN; Go values other than JSON ones and byte strings, compared by reflect.DeepEqual, are absent.
- Header upsert and remove in scripts, header sorting, method normalisation and access rules: each is settled by reading one branch.
- HTTP handlers, SQL, sockets, TLS, address policy, the script engine and the web interface.
