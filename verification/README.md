# Verified models of jcu-dparm

jcu-dparm talks to ATA and NVMe drives and to the TCG Storage security subsystem inside them. This project models,
in Dafny, the parts of it where a wrong bit loses data or locks a drive, and proves what those parts do for all
inputs, all device answers and all runs.

`dafny verify dfyconfig.toml` checks everything.

## What is modelled

**SHA-1, HMAC and PBKDF2.** `fips180.dfy`, `rfc2104.dfy` and `rfc8018.dfy` define the standards (FIPS 180-4, RFC 2104
section 2, RFC 8018 section 5.2). `sha1_transform.dfy` keeps the in-place form of the program: a 16-word ring for the
message schedule, eighty unrolled rounds that permute the roles of five variables, the rewritten Ch and Maj, and a
byte swap in place of a big-endian load. `hash_sha_1.dfy` is the streaming object with its split 64-bit count,
`hmac.dfy` and `pbkdf2.dfy` the objects on top of it, and `crypto_clients.dfy` what a caller gets for any split of the
input and any earlier use of the object.

**The TCG token stream.** `tcg_codec.dfy` holds the printer and the parser as functions, `tcg_command.dfy` the bounded
packet builder that back-patches three nested lengths, `tcg_response.dfy` the receive buffer and its tokeniser,
`tcg_token.dfy` the readings of one token, and `tcg_loopback.dfy` the round trip over the actual objects.
`tcg_payloads.dfy` describes the payloads of the session and Opal commands and their bracket structure, and
`tcg_reader.dfy` what a receiver reads from their tokens: positional arguments by place, named ones by name.

**TCG devices and sessions.** `tcg_device.dfy` is the send-then-poll loop against a drive that may answer anything and a
monotone clock, `tcg_session.dfy` the session state machine with its session numbers and status extraction,
`tcg_opal.dfy` the clients that read tables and revert the TPer, and `tcg_run.dfy` whole runs of a session: any sequence
of starts, commands, `dontAutoClose`, `close` and settings, up to the destruction, as a log of exchanges that obeys a
law about packets (`TcgRun.Law`).

**Drive handle.** `discovery0.dfy` is the Level 0 Discovery walk, `log_page.dfy` the NVMe Get Log Page chunking,
`smart_status.dfy` the SMART attribute/threshold join, and `ata_taskfile.dfy` the 28/48-bit taskfile and CDB packing and
the reassembly of the native maximum.

## How it is modelled

- Objects whose methods update fields are classes, fixed buffers are arrays, and loops are loops. Each such method is
  proved against a function of the old state or of its inputs, and the lemmas are about those functions.
- Where the source works on bits (crypto, taskfiles) bytes and words are bit-vectors. In the TCG code and the drive
  handle, which work on lengths and positions, they are bounded numbers. Wrap-around and narrowing are written out:
  the two count words, the 32-bit length of `sha1Update`, token indexes such as count - 5, the dword count of a log
  page, `SWAP32`.
- Memory behind a buffer is a function `slack` with arbitrary values. `commit` and the discovery walk read it when a
  last length byte points past the buffer, and no result below depends on a well-formed answer unless it says so.
- `getUint64` shifts by 64 and more for atoms of more than eight bytes, which has no defined result in C++: the model
  then returns an arbitrary value.
- `doSecurityCommand`, `doTaskfileCmd`, `doNvmeAdminPassthru` and the clock are oracles that may return anything. Ghost
  logs hold what they were asked and what they delivered: packets sent, buffers received, registers left, results. A
  device logs one answer for every `exec`, and what sessions do is stated over these answers (`TcgSession.Outcome`).
- Strings and UIDs that a caller has already encoded are raw items (`TcgCodec.Raw`): any bytes, whose tokens are what
  the tokeniser makes of them.
- The program has one hash factory, for SHA-1, and the `Hmac` model holds that hash. The specifications (`Rfc2104`,
  `Rfc8018`) and the lemmas about keys, stretching and truncation are stated for every hash and every PRF.
- `tcgHashPassword` is a function parameter: it depends on the password and on the drive.

## Where the code falls short of its documentation

Each point is proved, with the exact condition under which the code does what it is meant to do, and an input for which
it does not.

- HMAC keys longer than a block are stretched by rehashing, while RFC 2104 pads the hash with zeros. The result is RFC
  2104 for every hash and text if and only if the key fits a block or a digest fills one (`Rfc2104.AgreesWithRfc`,
  `Rfc2104.ProbeDisagrees`). For one hash and key the key blocks agree if and only if the key fits a block or the
  stretched bytes behind the first digest are all zero (`Rfc2104.KeysAgreeIff`).
- `authenticate` closes the list it opens with ENDNAME: its payload is well nested if and only if the bytes given for the
  authority turn the open list into an open name (`TcgPayloads.AuthenticateNestsIff`). No encoded authority does
  (`TcgPayloads.AuthenticateIsNeverWellNested`); the two stray brackets `f1 f2` do (`TcgPayloads.StrayBracketsNest`).
- The check for a missing status list refuses only answers in which the list is opened but not closed. For an answer with
  a payload that does not end the session, success means a closed list with a zero status if and only if the fifth token
  from the end opens a list or the status is not zero; `TcgSession.GuardIsRightIff` joins this with the other answers.
  Five zero tokens count as success (`TcgSession.FiveZerosPass`).
- `getUint64` looks at the sign bit of a short atom but not at its byte-string bit, and knows no longer atoms. It reads
  exactly the tokens of type UINT if and only if the first byte is neither that of a short byte string with a clear sign
  bit nor that of an unsigned medium or long atom (`TcgToken.ReadsNumbersIff`). The empty string `a1 00` reads as zero
  (`TcgToken.EmptyStringReadsAsNumber`), so a status list with it for a status counts as success
  (`TcgSession.EmptyStatusPasses`).
- The method status is narrowed to eight bits: success means status zero if and only if the status is not a non-zero
  multiple of 256 (`TcgSession.StatusIsFaithfulIff`), and an answer with status 256 counts as success
  (`TcgSession.Status256Passes`).
- An answer that ends the session counts as success for every command, also for the one that starts a session, which
  then counts as open (`TcgSession.EndOfSessionSucceeds`, `TcgSession.EndAlonePasses`).
- The native maximum adds one before it joins the registers: it is 256 too small if and only if the low byte is 0xff and
  the middle byte is odd (`AtaTaskfile.NativeMaxIsRightIff`, `AtaTaskfile.NativeMaxFails`).
- The discovery walk starts at byte 32 of a 48-byte header and stops four bytes early. It visits every descriptor if and
  only if the length bytes found on the way from byte 32 lead exactly to byte 48 and the last descriptor has a body
  (`Discovery0.AllVisitedIff`). The 16 bytes in between belong to the vendor: zeros lead there (`Discovery0.WalkZeros`), a
  one in byte 35 hides a regular descriptor (`Discovery0.VendorByteHidesDescriptor`), and a last descriptor without a
  body is lost behind zeros (`Discovery0.BodylessDescriptorIsLost`).
- A log page command of fewer than four bytes underflows its dword count and asks the controller for 2^34 bytes
  (`LogPage.LengthDecodes`). The commands of the loop ask for each byte of the request once, and for no other, if and only
  if the length is a positive multiple of four (`LogPage.TilesIff`). One of them underflows if and only if the length is
  zero or 1 to 3 above a multiple of 4096 (`LogPage.SomePieceUnderflowsIff`), as for 0 and for 4097 bytes
  (`LogPage.EmptyRequestUnderflows`, `LogPage.SecondPieceUnderflows`).
- Bit 15 of log page dword 10 is shared: the retain flag is decoded right if and only if it is set or the log specific
  field is below 128, and that field itself if and only if it is below 16 (`LogPage.FieldsDecode`,
  `LogPage.TopBitRetains`).
- `addStringToken` returns false even when it wrote the string. Strings read back if and only if they have 1 to 2047
  bytes: the empty one reads back as one zero byte, longer ones are not written (`TcgCodec.BytesReadBackIff`).
- `HashSha1::update` takes a `size_t` but narrows it to 32 bits: it takes all of its input if and only if that is shorter
  than 2^32 bytes (`Sha1Hash.Taken`, `CryptoClients.AllTakenIsConcatIff`, `Sha1Hash.LongChunkIsDropped`). Its index
  arithmetic is right if and only if the fill of the buffer and the length stay below 2^32 together
  (`Sha1Hash.BranchIsRightIff`, `Sha1Hash.LongestLengthWraps`).
- `needs_lba48` takes a sector count of zero for no sectors, a drive for 256. A command left at 28 bits ends below the
  28-bit limit, as the drive counts, if and only if the count is not zero or 256 sectors fit
  (`AtaTaskfile.DriveCountFitsIff`, `AtaTaskfile.ZeroCountRunsOver`).

## Model

| member | source | states |
|---|---|---|
| Sha1Transform.ByteSwapIsBigEndian | src/crypto/hash_sha_1.cc:63-68 | `blk0` on a little-endian host is the big-endian load of section 6.1.2 of FIPS 180-4 |
| Sha1Transform.ChooseRewritten | src/crypto/hash_sha_1.cc:73-78 | the rewritten choice of R0 and R1 is Ch |
| Sha1Transform.MajorityRewritten | src/crypto/hash_sha_1.cc:81-83 | the rewritten majority of R3 is Maj |
| Sha1Transform.StepSum | src/crypto/hash_sha_1.cc:73-86 | the sum in the macros' order of additions, modulo 2^32, is the new first register of a FIPS step |
| Sha1Transform.RingReads | src/crypto/hash_sha_1.cc:69-70 | the ring slots i+13, i+8, i+2 and i modulo 16 hold W[i-3], W[i-8], W[i-14] and W[i-16] of the 80-word schedule |
| Sha1Transform.RingAdvances | src/crypto/hash_sha_1.cc:64-70 | overwriting slot i modulo 16 keeps the last 16 schedule words, and the raw words still to come |
| Sha1Transform.Blk0 | src/crypto/hash_sha_1.cc:63-68 | expands in place and returns W[i], for i below 16 |
| Sha1Transform.Blk | src/crypto/hash_sha_1.cc:69-70 | expands in place and returns W[i], from 16 on |
| Sha1Transform.OneRound | src/crypto/hash_sha_1.cc:73-86 | one step on the registers after i rounds gives the registers after i + 1 rounds |
| Sha1Transform.R0 | src/crypto/hash_sha_1.cc:73-75 | two assignments, with the other variables renamed, are round i of FIPS 180-4 for i below 16 |
| Sha1Transform.R1 | src/crypto/hash_sha_1.cc:76-78 | the same for rounds 16 to 19 |
| Sha1Transform.R2 | src/crypto/hash_sha_1.cc:79-80 | the same for rounds 20 to 39 |
| Sha1Transform.R3 | src/crypto/hash_sha_1.cc:81-83 | the same for rounds 40 to 59 |
| Sha1Transform.R4 | src/crypto/hash_sha_1.cc:84-86 | the same for rounds 60 to 79 |
| Sha1Transform.Rounds0To19 | src/crypto/hash_sha_1.cc:127-131 | the role-permuted calls are the first twenty shifting rounds |
| Sha1Transform.Rounds20To39 | src/crypto/hash_sha_1.cc:132-136 | and the next twenty |
| Sha1Transform.Rounds40To59 | src/crypto/hash_sha_1.cc:137-141 | and the next twenty |
| Sha1Transform.Rounds60To79 | src/crypto/hash_sha_1.cc:142-146 | and the last twenty |
| Sha1Transform.Transform | src/crypto/hash_sha_1.cc:105-158 | for every state and block, the state becomes the compression of section 6.1.2 of FIPS 180-4 |
| Sha1Hash.BranchIsRightIff | src/crypto/hash_sha_1.cc:174-193 | the 32-bit test for a full block decides rightly if and only if fill plus length stays below 2^32, which is what `sha1Update` requires |
| Sha1Hash.LongestLengthWraps | src/crypto/hash_sha_1.cc:185 | one buffered byte and a length of 2^32 - 1 wrap the sum to zero |
| Sha1Hash.LongChunkIsDropped | src/crypto/hash_sha_1.cc:43-45 | of a chunk of 2^32 bytes nothing is passed on |
| Sha1Hash.Taken | src/crypto/hash_sha_1.cc:43-45 | the part of the data that the narrowed length leaves is a prefix, and all of it if and only if the data is shorter than 2^32 bytes |
| Sha1Hash.CountAdds | src/crypto/hash_sha_1.cc:182-184 | the two count words with their carry add eight times the length modulo 2^64 |
| Sha1Hash.CountGivesFill | src/crypto/hash_sha_1.cc:181 | the low count word alone gives the fill of the buffer, also after it wrapped |
| Sha1Hash.HashSha1.constructor | src/crypto/hash_sha_1.cc:31-33 | a new object has absorbed nothing from the standard initial value |
| Sha1Hash.HashSha1.Reset | src/crypto/hash_sha_1.cc:53-55 | afterwards nothing is absorbed from the standard initial value, also after a digest |
| Sha1Hash.HashSha1.Sha1Init | src/crypto/hash_sha_1.cc:161-171 | sets the initial value of section 5.3.1 of FIPS 180-4 and an empty count |
| Sha1Hash.HashSha1.AddCount | src/crypto/hash_sha_1.cc:182-184 | keeps the count words equal to the bit count of what was absorbed |
| Sha1Hash.HashSha1.AbsorbData | src/crypto/hash_sha_1.cc:185-194 | state and buffer go from holding the absorbed bytes to holding them with the data appended |
| Sha1Hash.HashSha1.FillBuffer | src/crypto/hash_sha_1.cc:186-187 | completes and hashes the buffered block |
| Sha1Hash.HashSha1.HashWhole | src/crypto/hash_sha_1.cc:188-190 | hashes the further whole blocks from the input and stops within the last 64 bytes; the sum in the loop guard never wraps |
| Sha1Hash.HashSha1.KeepRest | src/crypto/hash_sha_1.cc:191-194 | buffers exactly the tail behind the last whole block |
| Sha1Hash.HashSha1.Sha1Update | src/crypto/hash_sha_1.cc:174-198 | the absorbed bytes grow by the data, for every length whose index arithmetic does not wrap |
| Sha1Hash.HashSha1.Update | src/crypto/hash_sha_1.cc:43-45 | absorbs the part of the data that the narrowed length leaves |
| Sha1Hash.HashSha1.LengthBytes | src/crypto/hash_sha_1.cc:205-207 | the count words are the 64-bit length block of section 5.1.1 of FIPS 180-4 |
| Sha1Hash.HashSha1.PadTo56 | src/crypto/hash_sha_1.cc:209-211 | the padding loop ends, having appended the least number of zeros that leads to 56 modulo 64 |
| Sha1Hash.HashSha1.ReadState | src/crypto/hash_sha_1.cc:214-216 | writes 20 bytes whose five words, loaded big-endian, are the state |
| Fips180.StoredWord | src/crypto/hash_sha_1.cc:214-216 | a stored word loads back as itself, by the big-endian load that the transform is proved against |
| Fips180.DigestWords | src/crypto/hash_sha_1.cc:201-216 | the digest, loaded as five big-endian words, is the hash value of the padded message |
| Fips180.RolRotates | src/crypto/hash_sha_1.cc:60 | for every distance that SHA-1 uses, shifting and joining is rotation |
| Sha1Hash.HashSha1.Sha1Final | src/crypto/hash_sha_1.cc:201-223 | the digest is the padded hash of what was absorbed, and the wiped object stands at an all-zero initial value |
| Sha1Hash.HashSha1.Wipe | src/crypto/hash_sha_1.cc:217-222 | state, count and buffer are zero: a digest before the next reset starts from zeros |
| Sha1Hash.HashSha1.Digest | src/crypto/hash_sha_1.cc:47-51 | the same for `digest` |
| Sha1Hash.HashSha1.Hash | src/crypto/hash.h:43-49 | one-shot hashing absorbs the data as `update` does and takes the digest |
| CryptoClients.AllTakenIsConcatIff | src/crypto/hash_sha_1.cc:43-45 | for every sequence of chunks, what the updates pass on is the concatenation if and only if every chunk is shorter than 2^32 bytes |
| CryptoClients.FeedHash | src/crypto/hash.h:33-41 | any sequence of updates whose index arithmetic does not wrap absorbs what each passes on, in order |
| CryptoClients.Sha1OfChunks | src/crypto/hash_sha_1.cc:43-55 | after a reset the digest is SHA-1 of FIPS 180-4 of the concatenated chunks, for every split and every earlier use of the object; chunks of 2^32 bytes and more enter cut off |
| CryptoClients.LengthBlockSpellsBits | src/crypto/hash_sha_1.cc:205-207 | for messages below 2^61 bytes the length block spells the bit length |
| Rfc2104.AgreesWithRfc | src/crypto/hash.cc:24-53 | for every digest and block size and key: the construction is RFC 2104 for every hash and text if and only if the key fits a block or a digest fills one |
| Rfc2104.ProbeDisagrees | src/crypto/hash.cc:30-39 | a hash for which the stretched key and the RFC key give different MACs |
| Rfc2104.KeysAgreeIff | src/crypto/hash.cc:30-43 | for every hash and key: the key block is that of RFC 2104 if and only if the key fits a block or the stretched bytes behind the first digest are zero |
| Rfc2104.Stretch | src/crypto/hash.cc:31-37 | the stretch loop ends for every positive digest size and covers a block, keeping what it had |
| HmacSha1.BytesXorAll | src/crypto/hash.cc:18-22 | exclusive-or of every byte with the pad value, in place |
| HmacSha1.HashOnce | src/crypto/hash.h:43-49 | a new hash object gives the SHA-1 of what `update` passes on, for all data |
| HmacSha1.DeriveKeyBlock | src/crypto/hash.cc:27-43 | the constructor's loop computes the stretched or zero-padded key block |
| HmacSha1.Hmac.constructor | src/crypto/hash.cc:24-53 | the pads are the key block with ipad and opad, and the inner hash has absorbed the inner pad |
| HmacSha1.Hmac.Reset | src/crypto/hash.cc:74-77 | afterwards exactly the inner pad is absorbed, whatever came before |
| HmacSha1.Hmac.Update | src/crypto/hash.cc:63-65 | the text grows by what the hash object's `update` passes on |
| HmacSha1.Hmac.Digest | src/crypto/hash.cc:67-72 | the digest is the nested hash of the text under the key block |
| CryptoClients.FeedMac | src/crypto/hash.cc:63-65 | any sequence of updates absorbs what each passes on, behind the inner pad |
| CryptoClients.HmacOfChunks | src/crypto/hash.cc:24-77 | a second reset/update/digest cycle of one object gives the MAC of its own text alone, which is RFC 2104 for keys up to a block |
| Rfc8018.BlocksPrefix | src/crypto/pbkdf2.cc:48-52 | fewer blocks are a prefix of more blocks |
| Rfc8018.MoreBlocksSameKey | src/crypto/pbkdf2.cc:41-54 | computing at least key-length many blocks and truncating gives the key of the ceiling-many blocks of RFC 8018 section 5.2, for every PRF |
| Pbkdf2.BytesXor | src/crypto/pbkdf2.cc:21-25 | exclusive-or of two blocks in place |
| Pbkdf2.IntToBytes | src/crypto/pbkdf2.cc:27-32 | the block index as four big-endian bytes, behind an unchanged salt |
| Pbkdf2.PrfIsHmac | src/crypto/pbkdf2.cc:67-69 | the PRF of the MAC object is HMAC-SHA-1 on every text shorter than 2^32 bytes |
| Rfc8018.UAgrees | src/crypto/pbkdf2.cc:66-72 | PRFs that agree on short texts give the same U_j for short salts |
| Rfc8018.DerivedAgrees | src/crypto/pbkdf2.cc:34-75 | and the same derived key |
| Pbkdf2.DerivedIsHmac | src/crypto/pbkdf2.cc:34-75 | so with the PRF of the MAC object the derived key is that with HMAC-SHA-1, for every salt below 2^32 - 4 bytes |
| Pbkdf2.AccumulateStep | src/crypto/pbkdf2.cc:66-72 | one more round turns U_j into U_(j+1) and folds it into the accumulated exclusive-or |
| Pbkdf2.Iterate | src/crypto/pbkdf2.cc:66-72 | the loop body does that on the stateful MAC object, in place |
| Pbkdf2.F | src/crypto/pbkdf2.cc:57-75 | writes T_i, the exclusive-or of all U_j, to its own slot and changes no other byte of the buffer |
| Pbkdf2.SlotsAre | src/crypto/pbkdf2.cc:48-52 | the slots together are the concatenated blocks T_1 to T_n, and stay zero without iterations |
| Pbkdf2.SlotsGiveKey | src/crypto/pbkdf2.cc:54 | their first key-length bytes are the derived key |
| Pbkdf2.DeriveKey | src/crypto/pbkdf2.cc:39-54 | the block loop and the truncation give the derived key of RFC 8018 section 5.2 with the PRF of the MAC object; without iterations all zeros |
| Pbkdf2.Pbkdf2 | src/crypto/pbkdf2.cc:34-55 | for every salt, iteration count and key length the derived key is that of RFC 8018 section 5.2 with the PRF of the MAC object; for salts below 2^32 - 4 bytes and passwords up to a block it is PBKDF2 with the HMAC-SHA-1 of RFC 2104 |
| DparmTypes.LeadingByte | src/tcg/tcg_command_impl.cc:150-152 | the byte shifted furthest leads the big-endian bytes of a number |
| DparmTypes.StoreSwapped | src/intl_utils.h:18-20 | a swapped number stored by a little-endian host is big-endian |
| DparmTypes.LoadSwapped | src/intl_utils.h:18-20 | swapping what a little-endian host loads reads big-endian |
| TcgToken.KindOf | include/jcu-dparm/tcg/tcg_token.h:37-72 | the chain of bit tests classifies a first byte by the ranges of section 3.2.2.3 of the TCG core specification |
| TcgToken.TypeRanges | include/jcu-dparm/tcg/tcg_token.h:37-72 | the type of a token by the range its first byte is in, for all 256 of them |
| TcgToken.BytesRanges | include/jcu-dparm/tcg/tcg_token.h:169-190 | what reads as bytes: everything behind a header of one, two or four bytes, nothing of a tiny atom, and an empty string with status 2 for a control token |
| TcgToken.Token.GetUint64 | include/jcu-dparm/tcg/tcg_token.h:78-114 | exactly the tiny and short atoms with a clear sign bit read as numbers, byte strings included; up to eight content bytes the value is the big-endian number |
| TcgToken.ReadsNumbersIff | include/jcu-dparm/tcg/tcg_token.h:37-114 | a token reads as a number exactly if its type is UINT, if and only if it is neither a short byte string with a clear sign bit nor an unsigned medium or long atom |
| TcgToken.EmptyStringReadsAsNumber | include/jcu-dparm/tcg/tcg_token.h:87-102 | the empty byte string reads as zero |
| TcgToken.Token.OrShifted | include/jcu-dparm/tcg/tcg_token.h:98-101 | one more shifted byte extends the big-endian number by a leading digit |
| TcgToken.Token.GetUint32 | include/jcu-dparm/tcg/tcg_token.h:116-124 | the number modulo 2^32, with status 1 exactly when that loses something |
| TcgToken.Token.GetUint8 | include/jcu-dparm/tcg/tcg_token.h:136-144 | the number modulo 256, with status 1 exactly when that loses something |
| TcgCodec.TokenLengthOfItem | src/tcg/tcg_response_impl.cc:57-72 | the header that the printer writes announces exactly the bytes it wrote |
| TcgCodec.LengthRanges | src/tcg/tcg_response_impl.cc:57-72 | a token is as long as its header and the number that its length bits and bytes spell big-endian, three bytes for the long form |
| TcgCodec.TokenizeItem | src/tcg/tcg_response_impl.cc:56-80 | the tokeniser consumes one printed item whole and yields its token |
| TcgCodec.TokenizeRaw | src/tcg/tcg_response_impl.cc:56-80 | bytes that consist of whole tokens tokenise the same wherever they stand in a payload |
| TcgCodec.RawOfBytes | src/tcg/tcg_session_impl.cc:74-80 | a string that the caller has encoded yields the token of the string |
| TcgCodec.TokenizeItems | src/tcg/tcg_response_impl.cc:56-80 | parsing any printed items gives their tokens, whatever the bytes inside the atoms and behind the buffer |
| TcgCodec.EmptyAtomsVanish | src/tcg/tcg_response_impl.cc:77-79 | an EMPTYATOM anywhere between items changes no token |
| TcgCodec.NumberRoundTrip | src/tcg/tcg_command_impl.cc:123-155 | every 64-bit value is one token of type UINT whose reading is that value |
| TcgCodec.BytesRoundTrip | src/tcg/tcg_command_impl.cc:92-121 | every byte string of 1 to 2047 bytes is one token of type BYTESTRING whose reading is that string |
| TcgCodec.BytesReadBackIff | include/jcu-dparm/tcg/tcg_token.h:169-190 | a byte string reads back if and only if it has 1 to 2047 bytes |
| TcgCodec.AtomSizes | src/tcg/tcg_command_impl.cc:92-155 | numbers take the least of the widths 0, 1, 2, 4 and 8 behind the header, strings the shorter header up to 15 bytes, and none from 2048 bytes on |
| TcgCodec.EmptyStringReadsAsZero | src/tcg/tcg_command_impl.cc:97-102 | the empty string reads back as one zero byte |
| TcgCommand.NumberWritten | src/tcg/tcg_command_impl.cc:131-149 | with too little room, no more than the room is used; with enough, the whole atom is written |
| TcgCommand.LengthsNest | src/tcg/tcg_command_impl.cc:169-178 | the lengths at bytes 16, 40 and 52, decoded, end at the aligned end, again there, and at the last data byte; the aligned end is a multiple of four inside the buffer |
| TcgCommand.StampedFields | src/tcg/tcg_command_impl.cc:169-177 | the three length fields do not overwrite each other |
| TcgCommand.PadProgress | src/tcg/tcg_command_impl.cc:170-175 | short of the alignment there is always room for another padding byte |
| TcgCommand.TcgCommandImpl.constructor | src/tcg/tcg_command_impl.cc:20-25 | an empty payload behind a zero header |
| TcgCommand.TcgCommandImpl.Reset | src/tcg/tcg_command_impl.cc:32-35 | back to an empty payload behind a zero header |
| TcgCommand.TcgCommandImpl.CheckCmdBufWrite | src/tcg/tcg_command_impl.cc:27-30 | answers exactly whether the bytes fit |
| TcgCommand.TcgCommandImpl.AddByteToken | src/tcg/tcg_command_impl.cc:51-57 | appends the byte or, exactly without room, nothing; position and header stay valid |
| TcgCommand.TcgCommandImpl.AddRawToken | src/tcg/tcg_command_impl.cc:59-66 | appends all the bytes or, exactly without room, nothing |
| TcgCommand.Given | src/tcg/tcg_command_impl.cc:92-95 | a negative length stands for the bytes before the first zero, any other for that many bytes |
| TcgCommand.TcgCommandImpl.AddStringToken | src/tcg/tcg_command_impl.cc:92-121 | appends the atom of the given bytes or nothing, and returns false either way |
| TcgCommand.TcgCommandImpl.AddNumberToken | src/tcg/tcg_command_impl.cc:123-155 | appends the number atom and succeeds exactly when it fits; otherwise at most a lone header byte remains |
| TcgCommand.TcgCommandImpl.AddWideNumber | src/tcg/tcg_command_impl.cc:129-154 | the branch for 64 and more chooses the width and does the same |
| TcgCommand.TcgCommandImpl.PutNumber | src/tcg/tcg_command_impl.cc:150-152 | the shift loop emits the big-endian bytes |
| TcgCommand.TcgCommandImpl.StoreSwap32 | src/tcg/tcg_command_impl.cc:169-177 | a swapped store leaves the big-endian number in its four header bytes and changes nothing else |
| TcgCommand.TcgCommandImpl.AlignToFour | src/tcg/tcg_command_impl.cc:170-175 | the padding loop never fails and appends the least zeros that align to four |
| TcgCommand.TcgCommandImpl.Complete | src/tcg/tcg_command_impl.cc:157-180 | fails exactly when the tail does not fit, then changing nothing; otherwise payload, tail, alignment and the three lengths are in place |
| TcgCommand.TcgCommandImpl.SetComId | src/tcg/tcg_command_impl.cc:182-187 | the ComID big-endian with a zero extension, all else unchanged |
| TcgCommand.TcgCommandImpl.SetTSN | src/tcg/tcg_command_impl.cc:189-191 | a little-endian store to the TPer session number, all else unchanged |
| TcgCommand.TcgCommandImpl.SetHSN | src/tcg/tcg_command_impl.cc:193-195 | a little-endian store to the host session number, all else unchanged |
| TcgCommand.TcgCommandImpl.GetCmdSize | src/tcg/tcg_command_impl.cc:201-207 | the least multiple of 512 that covers the packet, inside the buffer |
| TcgCommand.TcgCommandImpl.PacketIsPrefix | src/tcg/tcg_command_impl.cc:197-207 | the bytes that go out are header, payload and zeros |
| TcgCommand.TcgCommandImpl.ResetRaw | src/tcg/tcg_command_impl.cc:37-42 | starts a call with an encoded invoking object, as far as it fits |
| TcgCommand.TcgCommandImpl.ResetUid | src/tcg/tcg_command_impl.cc:44-49 | starts a call with the encodings of both UIDs |
| TcgResponse.TcgResponseImpl.constructor | src/tcg/tcg_response_impl.cc:21-25 | an object without tokens |
| TcgResponse.TcgResponseImpl.Reset | src/tcg/tcg_response_impl.cc:27-29 | clears the buffer and keeps earlier tokens |
| TcgResponse.TcgResponseImpl.CurTokenLength | src/tcg/tcg_response_impl.cc:57-72 | the length that an atom's header announces, also at the end of the buffer |
| TcgResponse.TcgResponseImpl.ScanTokens | src/tcg/tcg_response_impl.cc:56-80 | the cursor loop ends and collects the tokens of the region, without EMPTYATOM |
| TcgResponse.TcgResponseImpl.Commit | src/tcg/tcg_response_impl.cc:39-89 | refuses exactly the lengths that point past the buffer, keeping the old tokens; otherwise the tokens are replaced |
| TcgResponse.TcgResponseImpl.TokenFromEnd | src/tcg/tcg_response_impl.cc:90-99 | asking for token count - k, which wraps around for fewer than k tokens, yields the k-th token from the end, and the null pointer if and only if there is none |
| TcgResponse.CommitPrinted | src/tcg/tcg_response_impl.cc:39-89 | a buffer holding printed items commits to their tokens |
| TcgResponse.PayloadCommits | src/tcg/tcg_response_impl.cc:39-89 | so does a buffer that is zero but for its lengths and a short payload |
| TcgLoopback.TailIsItems | src/tcg/tcg_command_impl.cc:162-167 | the end-of-data tail is six tokens |
| TcgLoopback.AddItems | src/tcg/tcg_command_impl.cc:51-155 | any builder calls that fit append exactly the encodings, in order, raw bytes included |
| TcgLoopback.RoundTrip | src/tcg/tcg_response_impl.cc:39-89 | items that fit 2048 bytes, built, completed and committed, come back as exactly their tokens and the tail, without any alignment byte |
| TcgPayloads.NestAppend | src/tcg/tcg_session_impl.cc:92-128 | reading brackets of a concatenation is reading one part after the other |
| TcgPayloads.AtomIsBalanced | src/tcg/tcg_command_impl.cc:92-121 | an atom is never a bracket, whatever bytes it holds |
| TcgPayloads.EncodedIsBalanced | src/tcg/tcg_session_impl.cc:74-80 | nor is a string that the caller has encoded |
| TcgPayloads.StartIsWellNested | src/tcg/tcg_session_impl.cc:74-128 | STARTSESSION is well nested for every SP, password, authority UID and timeout |
| TcgPayloads.GetTableIsWellNested | src/tcg/tcg_device_opal_base.cc:65-84 | GET is well nested for every table UID and column range |
| TcgPayloads.RevertIsWellNested | src/tcg/tcg_device_opal_base.cc:50-53 | REVERT is well nested |
| TcgPayloads.AuthenticateNestsIff | src/tcg/tcg_session_impl.cc:164-194 | AUTHENTICATE is well nested if and only if the tokens of the raw authority turn the open list into an open name, for every challenge and device type |
| TcgPayloads.AuthenticateIsNeverWellNested | src/tcg/tcg_session_impl.cc:170-194 | so it is for no encoded authority |
| TcgPayloads.StrayBracketsNest | src/tcg/tcg_session_impl.cc:164-194 | but it is for the two raw bytes `f1 f2` |
| TcgPayloads.CarriedTokens | src/tcg/tcg_response_impl.cc:43-80 | a packet that carries items tokenises to their tokens on any receiver |
| TcgPayloads.StartPacketIsWellNested | src/tcg/tcg_session_impl.cc:74-128 | so the bytes of a start packet parse to well-nested brackets |
| TcgPayloads.GetTablePacketIsWellNested | src/tcg/tcg_device_opal_base.cc:65-84 | so do those of a table read |
| TcgPayloads.RevertPacketIsWellNested | src/tcg/tcg_device_opal_base.cc:50-53 | so do those of a revert |
| TcgPayloads.AuthenticatePacketNestsIff | src/tcg/tcg_session_impl.cc:164-194 | those of an authenticate do if and only if its raw authority, being whole tokens, does the same |
| TcgPayloads.StartFits | src/tcg/tcg_session_impl.cc:92-128 | the STARTSESSION payload fits the command buffer for every password, with a raw authority of at most 2049 bytes |
| TcgPayloads.Finish | src/tcg/tcg_command_impl.cc:157-180 | after `complete` the items and the tail are in place with their length if and only if they fit the buffer |
| TcgReader.NamedPair | src/tcg/tcg_session_impl.cc:104-125 | a name with a value is found by that name, one without a value is not, and other names are looked for behind it |
| TcgReader.NamedSkips | src/tcg/tcg_session_impl.cc:104-125 | a reader that looks for a name finds it behind any tokens that start none |
| TcgReader.LoginReads | src/tcg/tcg_session_impl.cc:104-115 | the argument named 0 reads as the secret if and only if that has 1 to 2047 bytes, and the one named 3 is the encoded authority |
| TcgReader.LimitReads | src/tcg/tcg_session_impl.cc:117-125 | the argument named "SessionTimeout" reads as the timeout |
| TcgReader.StartItemsRead | src/tcg/tcg_session_impl.cc:92-128 | from STARTSESSION a reader gets the session manager, the method, 105, the SP, 1, the secret as argument 0, the authority as argument 3 and the timeout, each exactly when it is given, and then the closed list and the tail |
| TcgReader.StartPacketReads | src/tcg/tcg_session_impl.cc:92-128 | every receiver of a packet that carries these items reads that from its bytes |
| TcgReader.GetTablePacketReads | src/tcg/tcg_device_opal_base.cc:65-84 | every receiver reads GET from the bytes: the encoded table, the first column as argument 3, the last as argument 4 |
| TcgReader.RevertPacketReads | src/tcg/tcg_device_opal_base.cc:50-53 | and REVERT of the admin SP without arguments |
| TcgReader.AuthenticatePacketReads | src/tcg/tcg_session_impl.cc:170-194 | and AUTHENTICATE of this SP by the method of the device type: the encoded authority, and the secret as argument 0 or "Challenge" if and only if it has 1 to 2047 bytes, in a list that ENDNAME closes |
| TcgDevice.TcgDevice.Exec | src/tcg/tcg_device_general.cc:109-148 | refuses without an SSC and sends nothing; otherwise sends the packet once; a failed send ends the call with its result and nothing received; else at most 402 receives, each behind a good answer with bytes 8 to 11 not zero and bytes 12 to 15 zero, and the last decides: a failure is returned; a good answer of any other kind is committed, with the tokens from byte 56 as far as the number at byte 52 says, or refused if that lies past byte 2048; one of this kind is a timeout, more than 10^10 nanoseconds after the call |
| TcgDevice.TcgDevice.Poll | src/tcg/tcg_device_general.cc:124-136 | for every clock and drive the loop ends within 402 receives, at the first answer that failed or does not say, by the numbers in bytes 8 to 15, that data is outstanding and cannot be transferred yet, or at one that does after the timeout |
| TcgDevice.PendingIff | src/tcg/tcg_device_general.cc:136-138 | the test of `exec` on the two header fields is that on their big-endian numbers |
| TcgSession.DeliveringIsCommitted | src/tcg/tcg_device_general.cc:138-147 | an answer with nothing outstanding and printed items for its payload is committed: the result is good and the tokens are those of the items |
| TcgSession.OpenHasAccepted | src/tcg/tcg_session_impl.cc:44-56 | an open session has an accepted start after which nothing was ended |
| TcgSession.EndKeepsLawful | src/tcg/tcg_session_impl.cc:44-56 | ending an open session keeps: between two automatic ends lies an accepted start, before each lies one, and none follows `dontAutoClose` |
| TcgSession.OtherKeepsLawful | src/tcg/tcg_session_impl.cc:66-68 | so does every other step |
| TcgSession.SucceedsIff | src/tcg/tcg_session_impl.cc:225-260 | for every delivered answer whose status has a defined value: it is a success if and only if it has a payload and either ends the session or passes the bracket check with a zero status |
| TcgSession.RefusedIff | src/tcg/tcg_session_impl.cc:225-260 | a delivered answer is an illegal response if and only if it has no payload, or neither ends the session nor passes the bracket check, and illegal data if and only if it passes that with a status that is no number |
| TcgSession.GuardIsRightIff | src/tcg/tcg_session_impl.cc:235-260 | for every delivered answer: success means a payload with a closed list and a zero status if and only if, in a payload, a zero status comes with a fifth token from the end that opens a list, and an answer that ends the session has such a list and status besides |
| TcgSession.FiveZerosPass | src/tcg/tcg_session_impl.cc:245-248 | a delivered answer of five zero tokens, without a status list, counts as success |
| TcgSession.EndOfSessionSucceeds | src/tcg/tcg_session_impl.cc:235-237 | a delivered answer that ends the session counts as success |
| TcgSession.EndAlonePasses | src/tcg/tcg_session_impl.cc:235-237 | a delivered answer of one ENDOFSESSION token counts as success |
| TcgSession.EmptyStatusPasses | src/tcg/tcg_session_impl.cc:250-260 | a delivered status list whose status is the empty byte string counts as success |
| TcgSession.ShortAnswerIsIllegal | src/tcg/tcg_session_impl.cc:231-243 | a delivered answer of fewer than five tokens without a leading ENDOFSESSION is an illegal response, although count - 5 wraps around |
| TcgSession.StatusDecides | src/tcg/tcg_session_impl.cc:239-260 | a delivered answer that ends in a status list succeeds exactly when the low byte of the status is zero, and otherwise reports that byte |
| TcgSession.StatusIsFaithfulIff | src/tcg/tcg_session_impl.cc:250-260 | success means status zero if and only if the status is not a non-zero multiple of 256 |
| TcgSession.Status256Passes | src/tcg/tcg_session_impl.cc:250-260 | a delivered answer with status 256 counts as success |
| TcgSession.NumberingOpens | src/tcg/tcg_session_impl.cc:130-155 | a call of the session manager with h and t for arguments is an accepted answer to STARTSESSION, and its numbers are h for the host and t for the TPer and no others |
| TcgSession.PacketHolds | src/tcg/tcg_session_impl.cc:216-220 | what header and payload hold, the outgoing packet holds |
| TcgSession.TcgSessionImpl.constructor | src/tcg/tcg_session_impl.cc:28-38 | a closed session with automatic close, hashing and a timeout of a minute |
| TcgSession.TcgSessionImpl.AddressedFields | src/tcg/tcg_session_impl.cc:216-219 | numbers kept swapped and stored little-endian appear big-endian at header bytes 20 and 24, and the data length is untouched |
| TcgSession.TcgSessionImpl.SendCommand | src/tcg/tcg_session_impl.cc:216-261 | exactly one packet goes out, with the caller's payload, the ComID in bytes 4 and 5, and the numbers of the last start: the TPer's in bytes 20 to 23, the host's in bytes 24 to 27; the result is the outcome of the one answer of the device, which the drive delivered, and the tokens are those of its bytes |
| TcgSession.TcgSessionImpl.Judge | src/tcg/tcg_session_impl.cc:225-260 | the checks behind `exec`, for every answer |
| TcgSession.TcgSessionImpl.JudgeStatus | src/tcg/tcg_session_impl.cc:250-260 | the status token decides: not a number, zero, or an error that reports it |
| TcgSession.TcgSessionImpl.DontAutoClose | src/tcg/tcg_session_impl.cc:66-68 | from now on nothing is ended automatically |
| TcgSession.TcgSessionImpl.SetNoHashPassword | src/tcg/tcg_session_impl.cc:62-64 | sets the flag and keeps the life cycle |
| TcgSession.TcgSessionImpl.SetTimeout | src/tcg/tcg_session_impl.cc:70-72 | sets the timeout and keeps the life cycle |
| TcgSession.TcgSessionImpl.BuildStart | src/tcg/tcg_session_impl.cc:92-128 | the packet carries exactly the STARTSESSION items for the SP, the hashed or plain password and the raw authority, if and only if they fit the buffer |
| TcgSession.TcgSessionImpl.SendStart | src/tcg/tcg_session_impl.cc:92-137 | the part of `start` up to `sendCommand`: one packet with all that, and the outcome of its answer |
| TcgSession.TcgSessionImpl.Start | src/tcg/tcg_session_impl.cc:74-162 | the session opens exactly when the device's answer to STARTSESSION is a success; number atoms in tokens 4 and 5 of that answer become its numbers; the result for refused, short, unreadable and regular answers; the packet with its payload and the earlier numbers, and one more, with the new numbers, for enterprise authentication; what every receiver reads from the bytes of both: the SP, 105, the plain or hashed password as argument 0, the authority as argument 3, the timeout of an enterprise device |
| TcgSession.TcgSessionImpl.ReadNumbers | src/tcg/tcg_session_impl.cc:139-155 | both tokens are read, or the error says which kind of answer it was; a short answer changes no number |
| TcgSession.TcgSessionImpl.BuildAuthenticate | src/tcg/tcg_session_impl.cc:170-194 | the packet carries exactly the AUTHENTICATE items for the raw authority, with the wrong closing bracket, if and only if they fit the buffer |
| TcgSession.TcgSessionImpl.Authenticate | src/tcg/tcg_session_impl.cc:164-214 | one packet, addressed to the session, from which every receiver reads the authority and the plain or hashed password under the device type's name; the outcome of the device's answer and the outcome token in its bytes decide |
| TcgSession.TcgSessionImpl.JudgeOutcome | src/tcg/tcg_session_impl.cc:201-213 | a missing, unreadable or non-zero outcome token is an error, zero is success |
| TcgSession.AuthenticatesIff | src/tcg/tcg_session_impl.cc:196-213 | authentication succeeds if and only if the command did and the outcome token has a low byte of zero, and otherwise fails with the error of a missing, unreadable or non-zero outcome |
| TcgSession.TcgSessionImpl.Close | src/tcg/tcg_session_impl.cc:40-56 | one ENDOFSESSION packet, addressed to the session, exactly when the session is open and may be closed; then, as after any close, a second close does nothing |
| TcgSession.TcgSessionImpl.SendEnd | src/tcg/tcg_session_impl.cc:48-54 | the one packet starts with ENDOFSESSION and is addressed to the session |
| TcgOpal.BuildGetTable | src/tcg/tcg_device_opal_base.cc:64-84 | the packet carries exactly the GET items for the raw table UID and the column range, if and only if they fit the buffer |
| TcgOpal.OpalGetTable | src/tcg/tcg_device_opal_base.cc:63-87 | one packet with those items, addressed to the session, from which every receiver reads the table and the column range; the result is the outcome of the device's answer, also when `exec` failed |
| TcgOpal.ReadTables | src/tcg/tcg_device_opal_base.cc:63-87 | any number of reads: every packet carries the session's numbers |
| TcgOpal.StartAndRead | src/tcg/tcg_session_impl.cc:130-155 | if the delivered answer to STARTSESSION is a success and carries h and t in tokens 4 and 5, every packet after the first is addressed to t from h, big-endian |
| TcgOpal.BuildRevert | src/tcg/tcg_device_opal_base.cc:50-53 | the packet carries exactly the REVERT items |
| TcgOpal.SendRevert | src/tcg/tcg_device_opal_base.cc:55-58 | one packet, addressed to the session, from which every receiver reads a revert of the admin SP; automatic close is given up exactly when the answer made the revert a success |
| TcgOpal.RevertAndClose | src/tcg/tcg_device_opal_base.cc:46-61 | behind the start: REVERT exactly after a success, and one end of session exactly if the session is open and the revert did not succeed, all addressed to the session |
| TcgOpal.RevertTPer | src/tcg/tcg_device_opal_base.cc:32-61 | which packets an Opal drive gets: STARTSESSION, from which every receiver reads the admin SP and, with a password, the UID of PSID with the plain or of SID with the hashed password; REVERT exactly after a readable success; and one end of session, exactly if the start succeeded and the revert did not; that the later ones are addressed with the numbers of the first answer; and the result, from the two answers |
| TcgOpal.UidIsAtom | src/tcg/tcg_session_impl.cc:74-80 | the bytes that are sent for the authority are one atom that reads as the eight bytes of the UID |
| TcgRun.Run | src/tcg/tcg_session_impl.cc:28-72 | for every sequence of operations of an Opal session, from creation to destruction, and any answers: the packets sent and the answers given are exchanges that obey the law below |
| TcgRun.Perform | src/tcg/tcg_session_impl.cc:44-72 | each operation has at most one exchange: a start and a command one, a close exactly if the session is open and not kept, a setting none; and how it changes whether the session is open, kept and numbered |
| TcgRun.SendOwn | src/tcg/tcg_session_impl.cc:216-261 | a packet that a caller builds is addressed to the session |
| TcgRun.SendingStep | src/tcg/tcg_session_impl.cc:44-72 | an exchange keeps the law: the exchanges are those of the operations in order; closes send exactly when due; every packet up to the next start, whatever sends it, is addressed with the numbers that the last start was given |
| TcgRun.SilentStep | src/tcg/tcg_session_impl.cc:44-72 | so does an operation that sends nothing |
| TcgRun.OpenAfter | src/tcg/tcg_session_impl.cc:44-46 | a start that the device accepts opens the session, an automatic end closes it, nothing else changes it |
| TcgRun.EndsAreSeparated | src/tcg/tcg_session_impl.cc:40-56 | in every run an accepted start lies before every automatic end-of-session packet and between any two |
| TcgRun.NoEndAfterKeep | src/tcg/tcg_session_impl.cc:66-68 | in every run none is sent after `dontAutoClose` |
| TcgRun.CloseIsIdempotent | src/tcg/tcg_session_impl.cc:44-56 | in every run a second close in a row sends nothing |
| Discovery0.EmplaceKeys | src/drive_handle_base.cc:289 | the map has exactly the codes visited, and an existing entry stays |
| Discovery0.EmplaceKeepsFirst | src/drive_handle_base.cc:289 | a new code maps to the first descriptor that carries it |
| Discovery0.VisitedHasFirst | src/drive_handle_base.cc:289 | every code visited has a first visit |
| Discovery0.WalkDescriptors | src/drive_handle_base.cc:251-291 | from the first descriptor the walk visits all of them in order, each once, except a last one without a body |
| Discovery0.WalkZeros | include/jcu-dparm/tcg/tcg_types.h:45-52 | if the vendor bytes that the structure omits are zero, they lead to the first descriptor and read as four descriptors of code zero |
| Discovery0.WalkResponse | src/drive_handle_base.cc:239-291 | over a response as in section 3.1.1.1 of the TCG Opal SSC with any vendor bytes that lead to the first descriptor, the walk visits what it finds in these and then the descriptors |
| Discovery0.WalkVisitsStops | src/drive_handle_base.cc:251-291 | the visits are those of the positions at which the loop body runs, in order |
| Discovery0.LandsSplits | src/drive_handle_base.cc:250-291 | if the length bytes from a position lead to byte 48, the walk is that through the vendor bytes and then that from byte 48 |
| Discovery0.StandsIff | src/drive_handle_base.cc:250-291 | the loop ever stands at byte 48 if and only if they do |
| Discovery0.AllVisitedIff | src/drive_handle_base.cc:239-291 | for every response: the loop stands at every descriptor if and only if the vendor bytes lead to the first one and the last one has a body |
| Discovery0.VendorByteHidesDescriptor | src/drive_handle_base.cc:250-290 | a 64-byte response with a one in byte 35 whose regular descriptor the walk never sees |
| Discovery0.BodylessDescriptorIsLost | src/drive_handle_base.cc:241-251 | a 52-byte response whose one descriptor the walk never sees |
| Discovery0.DriveInfo.constructor | include/jcu-dparm/types.h:86-120 | an empty record: no flag, no entry |
| Discovery0.DriveInfo.TcgDiscovery0 | src/drive_handle_base.cc:223-294 | the support state for refused, failed, over-long and good answers; the map is the walk emplaced into the old map; each of the eight flags is set exactly when the code of its feature, 1, 2, 3, 0x100, 0x200, 0x201, 0x202 or 0x203, is in the map |
| Discovery0.DriveInfo.Record | src/drive_handle_base.cc:262-289 | one descriptor keeps flags and map in step |
| Discovery0.DriveInfo.SetFlag | src/drive_handle_base.cc:262-287 | a code sets its own flag and no other |
| Discovery0.Discover | src/drive_handle_base.cc:223-294 | for a response whose vendor bytes lead to the descriptors, the map holds the codes found in both, each with the first item that carries it |
| Discovery0.CarriedHasFirst | src/drive_handle_base.cc:289 | every code that a descriptor carries has a first one, so the map of `Discover` is determined |
| LogPage.FieldsDecode | src/drive_handle_base.cc:142-156 | for all arguments a controller decodes offset, page and identifier as meant (section 5.14 of NVMe 1.3); the retain flag if and only if it is set or the log specific field is below 128, that field if and only if it is below 16 |
| LogPage.KnownCommand | src/drive_handle_base.cc:137-156 | one command with every field in use, dword by dword |
| LogPage.TopBitRetains | src/drive_handle_base.cc:145 | a log specific field of 128 sets the retain flag and is decoded as zero |
| LogPage.LengthDecodes | src/drive_handle_base.cc:142-156 | for all arguments the length asked for is the meant one if and only if that is a positive multiple of four, and more, namely 2^34 bytes, if and only if it is below four |
| LogPage.PieceCount | src/drive_handle_base.cc:176-187 | the number of commands is the ceiling of length by 4096, but one for an empty request |
| LogPage.PiecesTile | src/drive_handle_base.cc:176-187 | for a positive multiple of four the commands ask for every byte exactly once, none beyond the end, at most 4096 at a time |
| LogPage.TilesIff | src/drive_handle_base.cc:176-187 | the commands of the loop do so if and only if the length is a positive multiple of four |
| LogPage.SomePieceUnderflowsIff | src/drive_handle_base.cc:142-187 | some command asks for more than its piece if and only if the length is zero or 1 to 3 above a multiple of 4096 |
| LogPage.EmptyRequestUnderflows | src/drive_handle_base.cc:142 | an empty request asks for 2^34 bytes |
| LogPage.SecondPieceUnderflows | src/drive_handle_base.cc:142 | so does the second command for 4097 bytes |
| LogPage.DoNvmeGetLogPageCmd | src/drive_handle_base.cc:137-159 | for all arguments: one command, one piece of the page in its place, nothing else written |
| LogPage.DoNvmeGetLogPage | src/drive_handle_base.cc:161-190 | the commands are the first pieces, all of them on success; the buffer holds the completed prefix of the page and nothing past the failed piece is touched; the result is that of the last command |
| SmartStatus.Collected | src/drive_handle_base.cc:362-382 | only used slots, with threshold zero, as many as there are |
| SmartStatus.CollectedCopies | src/drive_handle_base.cc:362-382 | every used slot yields the attribute whose index is the number of used slots before it, with its own id, flags, current, worst and raw values |
| SmartStatus.CountUsed | src/drive_handle_base.cc:362-368 | the first pass counts what the second will copy |
| SmartStatus.CollectAttributes | src/drive_handle_base.cc:362-382 | the used slots in order, filling exactly the space counted |
| SmartStatus.JoinStep | src/drive_handle_base.cc:385-395 | one threshold slot goes to the first attribute with its id |
| SmartStatus.LastThresholdIsLast | src/drive_handle_base.cc:384-395 | the threshold of an id is that of the last slot that carries it, and zero if none does |
| SmartStatus.JoinThresholds | src/drive_handle_base.cc:384-395 | the first attribute of each id ends with the last threshold slot of that id, every other with zero, and nothing else changes |
| SmartStatus.JoinSmartStatus | src/drive_handle_base.cc:362-395 | of the array returned, for all tables of thirty slots: as many attributes as used slots, each with the id, flags, current, worst and raw values of its slot; the first of each id has the last threshold given for it and all others zero |
| AtaTaskfile.TaskFile.TfInit | src/ata_utils.cc:67-85 | the registers address the sector modulo 2^48 or 2^28, each holding its own eight bits, carry the low 16 or 8 bits of the count and select LBA mode |
| AtaTaskfile.NeedsLba48Iff | src/ata_utils.cc:20-49 | 48-bit addressing is used if and only if the code is one of the ten that always do, or none of the four that never do and the address, the count or the end of the run passes the 28-bit limit |
| AtaTaskfile.AddressPreservedIff | src/plat-linux/sgio.cc:112-185 | `tf_to_lba` gives back the address if and only if it is below 2^48, and below 2^28 for the operations forced to 28 bits |
| AtaTaskfile.TwentyEightBitIsEnough | src/ata_utils.cc:20-49 | if 48-bit addressing is not needed, every addressed sector is below the 28-bit limit and the count fits a byte |
| AtaTaskfile.DriveCountFitsIff | src/ata_utils.cc:40-48 | with a count of zero read as 256, the last sector is below the limit if and only if the count is not zero or 256 sectors fit |
| AtaTaskfile.ZeroCountRunsOver | src/ata_utils.cc:40-48 | the last address below the limit with a count of zero runs over it |
| AtaTaskfile.PackTransfer | src/plat-linux/sgio.cc:391-397 | byte 2 of the CDB says length, unit, direction and check condition |
| AtaTaskfile.PackCdb | src/plat-linux/sgio.cc:378-416 | every register in its own byte, previous ones and the extend bit exactly for 48-bit addressing; bits 1 to 4 of byte 1 are 3 exactly without data, 4 exactly for PIO reads, 5 exactly for PIO writes and 6 exactly for DMA; the direction bit of byte 2 agrees |
| AtaTaskfile.PackedLba | src/plat-linux/sgio.cc:399-415 | the CDB addresses the sector that the taskfile addresses |
| AtaTaskfile.AddressCommand | src/plat-linux/sgio.cc:378-416 | from operation to CDB the address survives under exactly the condition of `AddressPreservedIff`; the code, the count, the protocol and the choice of 48 bits are those asked for |
| AtaTaskfile.NativeMaxIsRightIff | src/drive_handle_ata.cc:86-91 | for all registers the count is last sector plus one if and only if the low byte is not 0xff or the middle byte is even |
| AtaTaskfile.NativeMaxLosesCarry | src/drive_handle_ata.cc:86-91 | otherwise it is 256 too small |
| AtaTaskfile.NativeMaxFails | src/drive_handle_ata.cc:90 | registers of a drive of 512 sectors that read as 256 |
| AtaTaskfile.ReadNativeMaxSectors | src/drive_handle_ata.cc:62-94 | issues the one fitting command, 0x27 with 48 bits or 0xf8, returns its result, and the count of the registers that the drive left, also after a failure |

## Left out

- Sha1Hash.HashSha1.Sha1Update: does not model lengths that make fill plus length reach 2^32, for which the source writes outside its buffer; so do not the members above it.
- HmacSha1.Hmac.Update: runs on the one hash the program has, because a class over any hash would need a trait.
- TcgPayloads.AuthenticatePacketNestsIff: does not cover raw authorities whose last atom runs past their end and swallows what follows; the lemma on items covers all bytes.
- TcgSession.TcgSessionImpl.Start: what a receiver reads from the packet is stated for authorities that are one atom of at most 2049 bytes, as every encoded UID is; for other raw bytes the contract gives the items.
- TcgSession.TcgSessionImpl.Authenticate: the same, for its authority.
- TcgOpal.OpalGetTable: the same, for the table.
- TcgRun.Run: is about Opal devices; the other classes are no SSC, so their `exec` sends nothing.
- TcgOpal.RevertTPer: is about the Opal classes, which are an SSC and not enterprise; a device of another class has its own `revertTPer`.
- Pbkdf2.Pbkdf2: does not model negative key lengths, nor sizes whose product overflows a signed 32-bit number; both are undefined in the source.
- TcgResponse.TcgResponseImpl.Commit: reading past the buffer yields arbitrary bytes; that it might instead end the program is not modelled.
- Discovery0.DriveInfo.TcgDiscovery0: the same; and the drive's answer is a parameter.
- TcgToken.Token.GetUint64: the value of atoms with more than eight content bytes is arbitrary, because the source's shift is undefined.
- LogPage.DoNvmeGetLogPage: the driver-specific routine that replaces the loop on some systems is not part of this model.
- AtaTaskfile.PackCdb: the 12-byte form, which `prefer_ata12` never selects, the apt driver and the SG_IO call are not part of this model.
- AtaTaskfile.ReadNativeMaxSectors: the three identify bits that choose the command are one parameter.
- SmartStatus.JoinSmartStatus: the two SMART reads and their failures are not modelled; the tables are parameters.
- `getUint16`, and `getString` apart from `getBytes`: the same code with another type.
- `doSecurityCommand` and its NVMe and ATA fallbacks: packing of a command whose outcome is an oracle here.
- The enterprise device: it is no SSC, so `exec` always refuses; its payloads are covered by a device flag.
- `tcgHashPassword`, the default password and the locking and MBR queries: glue over what is proved, or one lookup.
- The random host session number: it is drawn and then overwritten with 105.
- Identify data, sanitize, status strings, volumes, driver factories, ioctl and platform code: input and output, or settled by one branch.
