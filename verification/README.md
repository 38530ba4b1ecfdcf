# Verified model of the vboot verification core

A Dafny model of the parts of this repository that decide whether firmware is trusted, and of the two
tools that prepare what they look at:

* **RSA** (`Montgomery`, `RsaVerify`, `KeyDump`): Montgomery multiplication on word arrays, public
  exponentiation in place, the PKCS#1 v1.5 check of section 8.2.2 of RFC 8017, and the tool that packs keys.
* **SHA-256** (`Bits`, `Sha256`, `Sha256Laws`): the streaming hash against section 6.2.2 of FIPS 180-4, and laws
  that tell its functions, constants and rounds from any others.
* **Boot descriptor blocks** (`Bdb`, `BdbGrammar`, `BdbAccess`, `BdbCreate`, `BdbSystem`): the verifier
  against a grammar of the format, the getters, the builder, and all of it with the RSA and SHA-256 above.
* **TPM** (`TpmDevice`, `TpmRuns`, `TpmDriver`, `TpmSession`): the FIFO device as a state machine over
  register accesses, the firmware driver that talks to it byte by byte, and whole sessions of requests.
* **GPT** (`Utf`, `UtfTranscode`, `UtfLaws`, `Priority`, `PriorityGroups`, `Prioritize`, `Gpt`): the label
  transcoders, re-ranking of kernel partitions, and mirroring of the two copies with their checksums.

`Arith` and `Words` hold congruences and the value of word and byte strings. Words and bytes are bounded
integers; 32-bit and 64-bit wrap-around is written out. Code that works in place on arrays or on the fields
of a context is a method over arrays or a class here; each is proved against a function or predicate on
values, and the laws are about those.

`dafny verify dfyconfig.toml` checks everything.

Where the code and its comments or assertions disagree, the model follows the code:

* The transcoders promise a failure when the output is too short. They succeed with a cut-off result when the
  room runs out exactly between two characters (`UtfLaws.TruncatedSuccess`, `UtfLaws.TruncatedSuccess16`; a
  well-formed text is converted whole exactly when it fits), and they accept some ill-formed
  UTF-16 (`UtfLaws.LoneSurrogates`): exactly the inputs whose high surrogates are paired, the last unit aside
  (`UtfLaws.AcceptedExactly`). Of those, the well-formed ones do not end in a high surrogate and have no low one on
  its own (`UtfLaws.AcceptedWellFormed`). `From8Exact` and `From16Exact` say what happens for every room.
* The hash keeps its bit length in 32 bits, so it is SHA-256 below 2^29 bytes and pads differently from there
  on (`Sha256.PaddingAgrees`). The offset of a block is a shift of a signed 32-bit number, so one call can hash
  2^25 blocks; one update is correct when the buffered and the new bytes are together fewer than 2^31 + 128. From
  there up to 2^32 the source reads outside the data and nothing is claimed. At 2^32 the sum of the sizes wraps and
  the call only moves the buffered size; the contract of `Sha256.Context.Update` says so.
* The driver asserts that the device holds exactly the request before it starts a command. That fails for some
  requests shorter than 7 bytes (`TpmSession.SentInFull`, `TpmSession.ShortRequestMisjudged`).
* `dump_rsa.c` accepts every modulus with a warning. What it packs is usable exactly for odd moduli whose bit
  length is a multiple of 32 (`KeyDump.PackedKeyWellFormed`).
* After an update the two GPT headers are said to point at each other. The primary's pointer is never written,
  so that holds exactly when it was right before (`Gpt.UpdatePointsBack`, with `Gpt.PointsElsewhere`). The header
  checksum is taken over 92 bytes but checked over the size the header states, so a valid header stays valid under
  every checksum function exactly when it states 92 (`Gpt.SurvivesUpdate`). A second update changes nothing unless
  the first copied the table by a smaller size in the secondary header, which needs a GPT on a device of its own
  (`Gpt.UpdateTwice`, `Gpt.UpdatedTwiceDiffers`, `Gpt.UpdateTwiceInternal`). It always copies from the primary
  table, also when only the secondary one passed its check (`Gpt.GoodTableSurvives`, `Gpt.GoodTableLost`).
* Sizes of a block are added in 32 bits. A buffer that verifies is a block of the grammar exactly when that sum does
  not wrap, which needs more than 2^32 bytes (`BdbGrammar.VerifyExact`, `BdbCreate.WrappedSum`).
* Receiving a reply takes a buffer of count bytes. With count 6, six or fewer bytes announced and more data left, a
  seventh byte is written (`TpmDriver.Recv` states when, `TpmSession.OneMoreReached` gives the accesses). An exchange
  through the driver never gets there (`TpmSession.ExchangeReadsNoMore`).
* A response length from 2^31 on becomes negative when it is passed on, and is refused (`TpmDriver.SendReceive`).
* `bdb_struct.h` has stale expected sizes; the packed sizes of the structures themselves are used.

## Model

| member | source | states |
|---|---|---|
| Montgomery.SubM | _vboot_reference/bdb/rsa.c:22-31 | the array's value drops by the modulus, plus R exactly when the borrow was dropped |
| Montgomery.MontGe | _vboot_reference/bdb/rsa.c:36-47 | true if and only if the value of the array is at least the modulus |
| Montgomery.MontMulAdd | _vboot_reference/bdb/rsa.c:52-75 | for any length and any words, the result stays below R and 2^32 times it is congruent to c + a*b; the 64-bit accumulators never overflow |
| Montgomery.Reduced | _vboot_reference/bdb/rsa.c:52-75 | the top carry is 0 or 1, and dropping it is exactly undone by the one subtraction |
| Montgomery.CarryBound | _vboot_reference/bdb/rsa.c:68-74 | the final carry is 0 or 1 for all inputs below R |
| Montgomery.MontMul | _vboot_reference/bdb/rsa.c:80-92 | for all a, b below R the result times R is congruent to a*b modulo n |
| RsaVerify.InverseOfR | _vboot_reference/bdb/rsa.c:52-92 | for a well-formed key R is invertible modulo n, with an inverse computed from n0inv |
| RsaVerify.LoadWords | _vboot_reference/bdb/rsa.c:177-185 | the words hold the number of the big-endian input |
| RsaVerify.StoreWords | _vboot_reference/bdb/rsa.c:199-206 | the output is the big-endian string of the number in the words |
| RsaVerify.ReduceAndStore | _vboot_reference/bdb/rsa.c:194-206 | one conditional subtraction fully reduces, because the top bit of n is set |
| RsaVerify.ModPowF4 | _vboot_reference/bdb/rsa.c:169-207 | every block s, also s >= n, becomes the bytes of s^65537 mod n in place |
| RsaVerify.ModPow3 | _vboot_reference/bdb/rsa.c:261-296 | every block s becomes the bytes of s^3 mod n in place, with the result buffer shared |
| RsaVerify.SafeMemcmp | _vboot_reference/bdb/rsa.c:94-111 | zero if and only if the strings are equal, although differences are only OR-ed together |
| RsaVerify.CheckPadding | _vboot_reference/bdb/rsa.c:135-158 | success if and only if the padding is 00 01 FF..FF 00 and the DigestInfo of SHA-256 |
| RsaVerify.CheckBlock | _vboot_reference/bdb/rsa.c:233-249 | padding check and digest check together decide equality with the whole encoding |
| RsaVerify.PrefixIsDer | _vboot_reference/bdb/rsa.c:112-133 | the prefix and a digest are the DER encoding (X.690) of the identifier 2.16.840.1.101.3.4.2.1, no parameters, and the digest |
| RsaVerify.Rsa4096Verify | _vboot_reference/bdb/rsa.c:209-250 | with a well-formed key of the right word count, success if and only if s^65537 mod n is the encoding of the digest; a wrong word count is refused |
| RsaVerify.Rsa3072bVerify | _vboot_reference/bdb/rsa.c:298-339 | the same with exponent 3 and 96 words |
| RsaVerify.AcceptsIsRoot | _vboot_reference/bdb/rsa.c:209-250 | comparing bytes is comparing numbers: s is an e-th root of the encoded digest modulo n |
| RsaVerify.OneDigestPerSignature | _vboot_reference/bdb/rsa.c:209-250 | no signature verifies for two different digests |
| KeyDump.ModInverseCorrect | _vboot_reference/bdb/dump_rsa.c:83-88 | the inverse modulo 2^j really is one for every odd number |
| KeyDump.EmitWords | _vboot_reference/bdb/dump_rsa.c:99-121 | shifting right word by word writes the little-endian words of the number |
| KeyDump.Output | _vboot_reference/bdb/dump_rsa.c:44-121 | what is written is word count, n0inv, modulus and R^2 mod N of the given modulus |
| KeyDump.UnpackPacked | _vboot_reference/bdb/rsa.c:219-226 | the verifier's unpacking gets back exactly what was packed |
| KeyDump.PackedKeyWellFormed | _vboot_reference/bdb/dump_rsa.c:56-121 | the packed key meets all the verifier relies on if and only if N is odd and its bit length is a multiple of 32 |
| KeyDump.PackedKeyVerifies | _vboot_reference/bdb/dump_rsa.c:44-121 | packing and then verifying is textbook RSA verification with the original modulus |
| KeyDump.SignedIsAccepted | _vboot_reference/bdb/rsa.c:209-250 | what a private exponent signs is accepted under the packed public key |
| Sha256.Schedule | _vboot_reference/bdb/sha.c:128-133 | the array-filled schedule is the recursive W_t of the standard |
| Sha256.RunRounds | _vboot_reference/bdb/sha.c:137-149 | rotating eight registers in place is 64 rounds of the standard |
| Sha256.CompressBlock | _vboot_reference/bdb/sha.c:126-153 | one block is one application of the compression function |
| Sha256.Transform | _vboot_reference/bdb/sha.c:115-154 | up to 2^25 blocks, the reach of the signed block offset, it is the fold of the compression function |
| Sha256.HashBlocksConcat | _vboot_reference/bdb/sha.c:115-154 | hashing p + q blocks is hashing p and then q |
| Sha256.Context.Init | _vboot_reference/bdb/sha.c:105-113 | an empty message in the streaming invariant |
| Sha256.Context.Update | _vboot_reference/bdb/sha.c:156-180 | below 2^31 + 128 buffered and new bytes the invariant holds with the data appended: the buffer is the unhashed tail and h the fold over all full blocks; the wrapped case is separate and nothing is claimed in between |
| Sha256.Context.Flush | _vboot_reference/bdb/sha.c:170-179 | within the same limit the full buffer and every whole block after it are hashed, the rest is kept |
| Sha256.Context.Finalize | _vboot_reference/bdb/sha.c:182-199 | the digest of everything given to Update, whenever the invariant holds |
| Sha256.BdbSha256 | _vboot_reference/bdb/sha.c:201-210 | one call is the streaming digest, with the size cut to 32 bits, for sizes one update can take |
| Sha256.HashChunks | _vboot_reference/bdb/sha.c:156-199 | every way of splitting a message below 2^29 bytes gives its FIPS 180-4 hash |
| Sha256.PaddingAgrees | _vboot_reference/bdb/sha.c:188-194 | the padding is the standard's if and only if the message is below 2^29 bytes |
| Bits.ChChooses | _vboot_reference/bdb/sha.c:54 | where the first word has ones the result is the second, elsewhere the third |
| Bits.MajDecides | _vboot_reference/bdb/sha.c:55 | where two words agree the result is theirs, elsewhere it is the third |
| Bits.MaskDecides | _vboot_reference/bdb/sha.c:54-55 | two words that agree where a mask is set and where it is not are equal, so the two laws above determine their functions |
| Bits.RotlUndoes | _vboot_reference/bdb/sha.c:52-53 | rotating left undoes rotating right, for every word and amount |
| Bits.ShrDivides | _vboot_reference/bdb/sha.c:51 | the two shifts are divisions by 8 and 1024 |
| Bits.BigSigma0Bit | _vboot_reference/bdb/sha.c:56 | every bit is the parity of the bits 2, 13 and 22 places up, around the end |
| Bits.BigSigma1Bit | _vboot_reference/bdb/sha.c:57 | the same with 6, 11 and 25 |
| Bits.SmallSigma0Bit | _vboot_reference/bdb/sha.c:58 | every bit is the parity of the bits 7 and 18 places up, around the end, and 3 up, which is zero beyond it |
| Bits.SmallSigma1Bit | _vboot_reference/bdb/sha.c:59 | the same with 17, 19 and 10 |
| Sha256Laws.OnWords | _vboot_reference/bdb/sha.c:51-59 | the functions the hash uses on numbers are these functions on bits |
| Sha256Laws.PrimesInOrder | _vboot_reference/bdb/sha.c:80-102 | the numbers used in the next two rows are the primes up to 311, all 64 of them, in increasing order |
| Sha256Laws.CubeRoots | _vboot_reference/bdb/sha.c:85-102 | every round constant is the first 32 bits of the fraction of the cube root of its prime |
| Sha256Laws.SquareRoots | _vboot_reference/bdb/sha.c:80-83 | every initial hash word is the first 32 bits of the fraction of the square root of its prime |
| Sha256Laws.ScheduleLaw | _vboot_reference/bdb/sha.c:74-78 | the schedule starts with the big-endian words of the block and goes on by one recurrence modulo 2^32 |
| Sha256Laws.TwoSequences | _vboot_reference/bdb/sha.c:137-149 | after any number of rounds the eight registers are the last four terms of two sequences, each with a recurrence of its own |
| Sha256Laws.CompressionLaw | _vboot_reference/bdb/sha.c:126-153 | every word of the new hash is the old one plus a term of these sequences modulo 2^32 |
| Sha256Laws.PadLaw | _vboot_reference/bdb/sha.c:188-194 | as a number the padded message is the message, a one bit, zeros and the length |
| Sha256Laws.DigestLaw | _vboot_reference/bdb/sha.c:196-198 | the digest spells the eight words of the hash in order, big-endian |
| Bdb.StringHasNull | _vboot_reference/bdb/bdb.c:22-29 | true if and only if some byte of the field is zero |
| BdbGrammar.VerifiedIsBlock | _vboot_reference/bdb/bdb.c:311-398 | every buffer that verifies without the 32-bit sum wrapping is the concatenation of parts that satisfy the grammar, in order, disjoint and inside it |
| BdbGrammar.BlockVerifies | _vboot_reference/bdb/bdb.c:311-398 | every well-formed, correctly signed block of any size verifies; the code tells whether only the key digest differs |
| BdbGrammar.VerifyExact | _vboot_reference/bdb/bdb.c:311-398 | for every buffer: success, or other-than-key, with no wrapped sum if and only if it is a block of the grammar; below 2^32 bytes the sum never wraps |
| BdbGrammar.LayoutVerifies | _vboot_reference/bdb/bdb.c:311-398 | whether a well-formed layout verifies is decided by its two signatures alone |
| BdbCreate.WrappedSum | _vboot_reference/bdb/bdb.c:355-358 | a buffer beyond 2^32 bytes whose sum wraps and that verifies, under checks that accept everything |
| BdbGrammar.PartsUnique | _vboot_reference/bdb/bdb.c:31-189 | a buffer can be cut into a layout in only one way, signatures aside |
| BdbAccess.Extracted | _vboot_reference/bdb/bdb.c:193-279 | in every layout each getter points at the part it is named for |
| BdbAccess.GetHash | _vboot_reference/bdb/bdb.c:252-270 | the first entry of the type, or nothing if and only if there is none |
| BdbCreate.Strzcpy | _vboot_reference/bdb/host.c:15-20 | the field is the string cut or zero-filled, and always ends in a null |
| BdbCreate.CreateKey | _vboot_reference/bdb/host.c:103-153 | succeeds exactly for the two key sizes and gives a key structure that passes its check, holds the data, and shows the description, byte by byte, cut to 127 bytes and zero-filled |
| BdbCreate.CreateSig | _vboot_reference/bdb/host.c:155-221 | a signature structure over exactly the given bytes that shows the description in the same way, or a refusal |
| BdbCreate.Create | _vboot_reference/bdb/host.c:223-347 | refuses exactly misaligned OEM areas, too many hashes and oversize; otherwise nothing is written outside the buffer, the getters find what it was built from, load address, data version and all three descriptions stand at their offsets, and it verifies if and only if both signatures are good under their keys |
| BdbCreate.BuiltIsLayout | _vboot_reference/bdb/host.c:223-347 | what the builder lays out is in the grammar, and is a signed block if and only if both signatures are good |
| BdbCreate.PairsTrusted | _vboot_reference/bdb/host.c:223-347 | with keys and signers that belong together both signatures are good |
| BdbCreate.BuiltExtracted | _vboot_reference/bdb/bdb.c:193-279 | keys, OEM areas and hashes come back out of a built block unchanged |
| BdbCreate.BuiltLabelled | _vboot_reference/bdb/host.c:273-342 | in a built block the header shows load address and sizes, the data structure its version and description, each signature its description, every one at its byte offset |
| BdbCreate.HeldHash | _vboot_reference/bdb/bdb.c:252-270 | entry i of the hash area is the i-th hash given, and is found under its own type only |
| BdbCreate.FindHash | _vboot_reference/bdb/bdb.c:252-270 | in a created block the search returns the first given hash of the type, or nothing if and only if none has it |
| BdbSystem.SystemHash | _vboot_reference/bdb/sha.c:201-210 | the hash assumed for blocks is the one computed, for everything one update can take |
| BdbSystem.SystemRsa4096 | _vboot_reference/bdb/rsa.c:209-250 | the signature check assumed for blocks is the one computed, for well-formed keys and for wrong word counts |
| BdbSystem.SystemRsa3072b | _vboot_reference/bdb/rsa.c:298-339 | the same with exponent 3 and 96 words |
| BdbSystem.PackedPair | _vboot_reference/bdb/bdb.c:283-309 | a key structure of either RSA algorithm around a packed modulus and its private exponent are a correct pair |
| BdbSystem.CreateSystem | _vboot_reference/bdb/host.c:223-347 | what the builder makes of keys of either RSA algorithm, packed by the tool, and their private exponents verifies with the repository's own cryptography and holds and shows what was given, or is refused for its sizes |
| TpmDevice.Tpm.constructor | CBMC/tpm-c/tpm_update.c:20-35 | the reset state |
| TpmDevice.Tpm.Update | CBMC/tpm-c/tpm_update.c:38-116 | one register access is one step of the state machine, with all buffer indices in range |
| TpmDevice.Tpm.RunCmd | CBMC/tpm-c/tpm_run_cmd.c:21-69 | a command has the effect of what the buffered bytes decode to, or the error reply |
| TpmDevice.Tpm.PcrExtend | CBMC/tpm-c/tpm_pcr.c:18-51 | only the named PCR changes, to the hash of its old value and the digest, and the reply holds it |
| TpmDevice.Tpm.PcrRead | CBMC/tpm-c/tpm_pcr.c:53-70 | the reply holds the named PCR and no PCR changes |
| TpmDevice.PcrSet | CBMC/tpm-c/tpm_pcr.c:38-39 | writing one PCR leaves the other 23 as they were |
| TpmRuns.PcrChangesOnlyOnGo | CBMC/tpm-c/tpm_update.c:38-116 | a PCR changes only by GO, while accepting, with exactly the announced number of bytes of an Extend |
| TpmRuns.PcrIsFold | CBMC/tpm-c/tpm_pcr.c:18-51 | over every run of accesses each PCR is the fold of SHA-1 over exactly the Extends executed on it |
| TpmRuns.EveryRun | CBMC/tpm-c/tpm_update.c:38-116 | over every run from reset: counts in bounds, full exactly at 126, never working, the status byte matches, unwritten cells stay zero |
| TpmRuns.ExecuteReplies | CBMC/tpm-c/tpm_run_cmd.c:21-69 | whatever came before, a command leaves a complete reply that states its own size |
| TpmRuns.GoodReply | CBMC/tpm-c/tpm_pcr.c:41-70 | stale output never shows: the reply is exactly 00 C4 00 00 00 1E 00 00 00 00 and the PCR value |
| TpmRuns.ErrorReply | CBMC/tpm-c/tpm_run_cmd.c:53-64 | an error reply has its tag and size and changes no PCR |
| TpmDriver.WaitValid | CBMC/tpm-fw.c:96-99 | the busy wait ends, because the device is never without a valid status |
| TpmDriver.Send | CBMC/tpm-fw.c:73-126 | reports success if and only if the device takes the request as complete; then exactly the request is loaded and GO written once, otherwise GO is never written |
| TpmDriver.IsDataAval | CBMC/tpm-fw.c:44-60 | data available if and only if output is left, in every reachable state, and asking changes nothing but the first status |
| TpmDriver.RecvHelper | CBMC/tpm-fw.c:135-158 | reads what is asked for, up to one burst while the reply lasts, and nothing when there is no data |
| TpmDriver.Recv | CBMC/tpm-fw.c:165-224 | from every state: success if and only if a complete reply is left and fits; then it is received whole and the device is ready to accept; the three return codes are told apart, and what is written stays within count if and only if the exact condition on the data left holds |
| TpmDriver.SendReceive | CBMC/tpm-fw.c:232-264 | success if and only if the request is accepted and the reply fits a length below 2^31; the response is the reply, and PCRs change as the request says |
| TpmSession.DecodeLoaded | CBMC/tpm-c/tpm_run_cmd.c:21-69 | what the device decodes depends on the request alone, zero-filled, never on leftovers |
| TpmSession.RequestEffect | CBMC/tpm-c/tpm_update.c:76-82 | a request changes PCR p if and only if it is a complete Extend of p, by its own digest |
| TpmSession.ReplyToCommand | CBMC/tpm-c/tpm_pcr.c:41-70 | after any history a complete command for PCR p is answered with exactly the value of p |
| TpmSession.Exchange | CBMC/tpm-fw.c:232-264 | a complete command with room for 30 bytes succeeds, and the response is the header and the value the PCR then has |
| TpmSession.Session | CBMC/tpm-fw.c:232-264 | after any sequence of non-empty requests each PCR is the fold over exactly the complete Extends in it, and every complete command with room for its reply was answered with the fold up to there |
| TpmSession.RequestKept | CBMC/tpm-fw.c:242-248 | after a successful send the device is sending and still holds the request, as the driver asserts |
| TpmSession.SentInFull | CBMC/tpm-fw.c:120-121 | when the driver's assertions hold, as an if and only if over requests; they do from 7 bytes on |
| TpmSession.ShortRequestMisjudged | CBMC/tpm-fw.c:120-121 | a fresh device and any 4-byte request break the second assertion |
| TpmSession.OneMoreReached | CBMC/tpm-fw.c:181-210 | accesses from reset after which receiving into 6 bytes writes a seventh |
| TpmSession.ExchangeReadsNoMore | CBMC/tpm-fw.c:232-264 | after any request, accepted or not, and for every count, the reply left is not of that kind |
| UtfTranscode.Utf8ToUtf16 | _vboot_reference/cgpt/cgpt_common.c:528-628 | success exactly where the reference conversion succeeds, with its units and a terminator; never writes past the bound |
| UtfTranscode.Scan8 | _vboot_reference/cgpt/cgpt_common.c:541-624 | the byte-wise state machine is the character-wise reference conversion |
| UtfTranscode.Utf16ToUtf8 | _vboot_reference/cgpt/cgpt_common.c:439-509 | the same for the other direction |
| UtfTranscode.Scan16 | _vboot_reference/cgpt/cgpt_common.c:452-506 | the surrogate state machine is the reference conversion |
| Utf.Enc8Value | _vboot_reference/cgpt/cgpt_common.c:484-499 | the bytes of an encoding give the character back by place value, 64 a byte, for every length (section 3 of RFC 3629) |
| Utf.Enc16Value | _vboot_reference/cgpt/cgpt_common.c:600-608 | a character up to FFFF is its own unit; any other is 10000 plus 400 times the first unit above D800 plus the second above DC00, in hexadecimal (section 2.1 of RFC 2781) |
| UtfLaws.From8Exact | _vboot_reference/cgpt/cgpt_common.c:528-628 | for every string and room, exactly when and to what UTF-8 converts |
| UtfLaws.ConvertsWellFormed | _vboot_reference/cgpt/cgpt_common.c:528-628 | with a unit per byte, success if and only if the string is well-formed UTF-8 (section 4 of RFC 3629), and all of it is converted |
| UtfLaws.WholeStringFits | _vboot_reference/cgpt/cgpt_common.c:528-628 | a well-formed string converts as a whole if and only if its units fit |
| UtfLaws.TruncatedSuccess | _vboot_reference/cgpt/cgpt_common.c:525-543 | two characters and room for one give success with one |
| UtfLaws.From16Exact | _vboot_reference/cgpt/cgpt_common.c:439-509 | for every input and room, exactly when and to what UTF-16 converts |
| UtfLaws.ConvertsWellFormed16 | _vboot_reference/cgpt/cgpt_common.c:439-509 | well-formed UTF-16 converts whole, to the UTF-8 of the same characters, if and only if that fits |
| UtfLaws.TruncatedSuccess16 | _vboot_reference/cgpt/cgpt_common.c:436-454 | two characters and room for one give success with one in this direction too |
| UtfLaws.LoneSurrogates | _vboot_reference/cgpt/cgpt_common.c:439-509 | a lone low surrogate is encoded, a high one at the end dropped |
| UtfLaws.AcceptedExactly | _vboot_reference/cgpt/cgpt_common.c:439-509 | with room for any encoding, success if and only if every high surrogate but a last one is followed by a low one |
| UtfLaws.WellFormed16Exact | _vboot_reference/cgpt/cgpt_common.c:439-509 | well-formed UTF-16 (section 2 of RFC 2781), as encoded scalar values, is exactly paired surrogates |
| UtfLaws.AcceptedWellFormed | _vboot_reference/cgpt/cgpt_common.c:439-509 | an accepted input is well-formed if and only if it does not end in a high surrogate and no low one stands alone |
| UtfLaws.RoundTrip | _vboot_reference/cgpt/cgpt_common.c:439-628 | the two converters run one after the other on the same array give back the terminated string, exactly for well-formed UTF-8 |
| Prioritize.GroupList.AddToGroup | _vboot_reference/cgpt/cgpt_prioritize.c:54-70 | the partition joins the group of its priority or a new one, within both array bounds |
| Prioritize.GroupList.ChangeGroup | _vboot_reference/cgpt/cgpt_prioritize.c:72-79 | only the group of the old priority gets the new one |
| Prioritize.GroupList.SortGroups | _vboot_reference/cgpt/cgpt_prioritize.c:81-92 | the in-place insertion sort is the functional one |
| PriorityGroups.SortedExact | _vboot_reference/cgpt/cgpt_prioritize.c:81-92 | sorting is a permutation of the groups |
| PriorityGroups.SortedGrouped | _vboot_reference/cgpt/cgpt_prioritize.c:81-92 | sorted groups are strictly descending and still hold every kernel exactly once |
| PriorityGroups.AddedGrouped | _vboot_reference/cgpt/cgpt_prioritize.c:54-70 | adding keeps every kernel in exactly one group, that of its priority |
| PriorityGroups.ChangedGrouped | _vboot_reference/cgpt/cgpt_prioritize.c:72-79 | raising a group regroups exactly the friends of the chosen partition |
| PriorityGroups.GroupsFit | _vboot_reference/cgpt/cgpt_prioritize.c:15 | seventeen groups are always enough |
| PriorityGroups.PositionIsHigher | _vboot_reference/cgpt/cgpt_prioritize.c:168-189 | the position of a sorted group is the number of higher priorities in the table |
| Prioritize.AssignRanks | _vboot_reference/cgpt/cgpt_prioritize.c:172-189 | the inactive group is left out and group i gets the starting rank less i, never below 1 |
| Prioritize.Prioritize | _vboot_reference/cgpt/cgpt_prioritize.c:119-198 | refuses exactly an unusable partition number, leaving the table alone; otherwise the table becomes the declarative re-ranking |
| Priority.OrderKept | _vboot_reference/cgpt/cgpt_prioritize.c:135-198 | equal priorities stay equal, a higher one stays strictly higher unless both are coalesced at 1 |
| Priority.ChosenIsHighest | _vboot_reference/cgpt/cgpt_prioritize.c:151-189 | the chosen partition and its friends get the top rank, strictly above the others unless it is 1 |
| Priority.ActiveKept | _vboot_reference/cgpt/cgpt_prioritize.c:172-195 | nothing active becomes 0, nothing inactive and unchosen becomes active, other partitions are untouched |
| Priority.NewLevels | _vboot_reference/cgpt/cgpt_prioritize.c:172-189 | with n different effective priorities above 0, active kernels end up exactly on 1 to n, or 1 to 15 for more; with a maximum m exactly on m down to m - n + 1 or 1, whichever is greater |
| Priority.FriendsMove | _vboot_reference/cgpt/cgpt_prioritize.c:151-170 | a kernel at the old priority of the chosen partition ends up level with it if and only if asked for; any other stays below, unless both are at 1 |
| Priority.HigherCounts | _vboot_reference/cgpt/cgpt_prioritize.c:172-189 | the recursive count of higher priorities is the size of the set of them |
| Priority.Idempotent | _vboot_reference/cgpt/cgpt_prioritize.c:135-198 | running it again with the same options changes nothing |
| Gpt.GptData.RepairEntries | _vboot_reference/cgpt/cgpt_common.c:880-913 | for every mask, which table is overwritten, by how much, and which flag is returned |
| Gpt.GptData.RepairHeader | _vboot_reference/cgpt/cgpt_common.c:937-965 | for every mask, both headers afterwards: the trusted one as it was, the other with the five shared fields and in its place |
| Gpt.GptData.UpdateCrc | _vboot_reference/cgpt/cgpt_common.c:817-847 | the checksums of what is flagged are brought up to date, the table's before its header's |
| Gpt.GptData.UpdateAllEntries | _vboot_reference/cgpt/cgpt_common.c:778-785 | both copies become the update of the primary, and everything is flagged |
| Gpt.SectorsCover | _vboot_reference/firmware/lib/cgptlib/cgptlib_internal.c:17-21 | 512 times the sectors covers the table with less than 512 bytes to spare; the table size is the product of the fields if that fits 32 bits |
| Gpt.SecondaryPlaces | _vboot_reference/cgpt/cgpt_common.c:948-954 | a rebuilt secondary header is in the last sector and its table right before it, counted modulo 2^64 |
| Gpt.PrimaryComesBack | _vboot_reference/cgpt/cgpt_common.c:948-962 | rebuilding the secondary and then the primary gives the primary back if and only if it was at sector 1, its table at 2, and it named the last sector |
| Gpt.SecondaryComesBack | _vboot_reference/cgpt/cgpt_common.c:955-962 | from a secondary that the reader lets through comes a primary that it lets through, and from that the same secondary if and only if it named sector 1 |
| Gpt.HeaderOnDisk | _vboot_reference/firmware/include/gpt.h:75-91 | every header field is read back at its offset in section 5.3.2 of the UEFI specification |
| Gpt.UpdateMirrors | _vboot_reference/cgpt/cgpt_common.c:778-785 | with a valid ordinary primary: equal tables, matching headers, the secondary header in the last sector, its table before it with less than a sector to spare, all four checksums right at once |
| Gpt.UpdatePointsBack | _vboot_reference/cgpt/cgpt_common.c:948-953 | the headers point at each other if and only if the primary named the last sector before |
| Gpt.PointsElsewhere | _vboot_reference/cgpt/cgpt_common.c:948-953 | every primary that names sector 0 still does after an update, away from the secondary, in every state that can be updated |
| Gpt.AlternateSignature | _vboot_reference/cgpt/cgpt_common.c:817-887 | with the alternate signature no table is overwritten and the primary's table checksum is kept |
| Gpt.UpdateTwice | _vboot_reference/cgpt/cgpt_common.c:778-785 | a second update changes nothing if and only if the copied size covers the primary's table or the tables already agree beyond it |
| Gpt.UpdatedTwiceDiffers | _vboot_reference/cgpt/cgpt_common.c:778-785 | two headers that the reader lets through, with 20 and 17 entries on an external device, and tables that differ in the eighteenth: the second update changes the table |
| Gpt.UpdateTwiceInternal | _vboot_reference/firmware/lib/cgptlib/cgptlib_internal.c:101-107 | with headers that the reader lets through on the disk itself, a second update never changes anything |
| Gpt.GoodTableSurvives | _vboot_reference/cgpt/cgpt_common.c:778-785 | a table that passed its check survives an update if and only if the primary one passed or the signature forbids copying |
| Gpt.GoodTableLost | _vboot_reference/cgpt/cgpt_common.c:778-785 | a state where only the secondary table passes, and neither does afterwards |
| Gpt.UpdateRevalidates | _vboot_reference/firmware/lib/cgptlib/cgptlib_internal.c:66-151 | updated headers that state 92 bytes pass the reader's check, under every checksum function |
| Gpt.LongHeaderRejected | _vboot_reference/firmware/lib/cgptlib/cgptlib_internal.c:53-64 | for every other stated size a checksum function that passes before the update and fails after it, for both headers |
| Gpt.SurvivesUpdate | _vboot_reference/firmware/lib/cgptlib/cgptlib_internal.c:66-151 | a valid disk stays valid through an update under every checksum function if and only if its header states 92 bytes |

## Left out

- The machine-generated and template device models under `ILA` and the `ila_` and `tpm_export` files: variants of the FIFO device modelled here.
- The real-hardware driver under `qemu`: locality handshakes and screen output around the driver modelled here.
- SHA-1, CRC-32 and RSA private operations: parameters of the model, as functions of bytes. Whether a private exponent undoes the public one is an assumption of the lemmas about signing, on the encoded digests only.
- BIGNUM calls of the key dump tool: integer arithmetic. The inverse is computed bit by bit, and 0 for an even modulus.
- The checks of partition entries: any predicate on the bytes of a table, in the lemmas about good tables.
- File, device and standard output access, memory allocation failures and null pointers.
- ECDSA: the verifier of the repository is a stub and the model takes any check.
- Timing of the constant-time comparisons.
- TpmDriver.Send: stated for requests of at least one byte; for an empty one the length minus one wraps in the source.
- TpmSession.Session: goes on where an assertion of the driver fails, which can happen for requests below 7 bytes only, see SentInFull; the empty request is left out with Send.
- Sha256.Transform: claims nothing beyond 2^25 blocks, where the block offset of the source overflows.
- Sha256.Context.Update: claims nothing from 2^31 + 128 bytes up to 2^32, for the same reason.
- Sha256.BdbSha256: claims nothing from 2^31 + 128 bytes up to 2^32, for the same reason.
- RsaVerify.Rsa4096Verify: makes no claim for keys of the right word count whose other fields do not fit together.
- RsaVerify.Rsa3072bVerify: makes no claim for keys of the right word count whose other fields do not fit together.
- BdbCreate.Create: the OEM areas, keys and hashes are values, not pointers that could alias the output; the signer is a function of the digest that always writes a signature of the key's size.
- Gpt.GptData.RepairEntries: header and table buffers are separate, as they are where the source allocates them.
- Prioritize.Prioritize: works on the kernel flag and the priority of each entry, the only parts of an entry the source reads or writes here; the maximum priority is 0 to 15, as setting a priority demands.
- Which error code a refused block gets: computed as in the source, but no law is stated about it beyond success and other-than-key.
- Read-only array arguments are values, so overlap of an input with an output is not modelled. The shared result buffers of the two exponentiations are.
- The futility and cgpt command lines, printing, and the remaining cgpt commands.
