# Nitrokey Storage: the OTP crypto and flash core

A Dafny model of the firmware's one-time-password core: its software AES, SHA-1, HMAC and HOTP, the
log-structured flash pages that hold counters, time and slots, the report protocol that programs them, and the
record stores and rings beside them.

The results, in the order of the dependencies:

- **AES** (`Gf256*`, `Fips197`, `AesTables`, `AesKeys`, `AesCipher`). `Fips197` states the cipher with SubBytes,
  ShiftRows, MixColumns and AddRoundKey. The firmware's tables, filled by log/pow multiplication, its schedules
  and its T-table rounds are methods over arrays, proved to compute that cipher. Decryption under the reversed
  InvMixColumns schedule undoes encryption for the three key sizes.
- **Modes** (`BlockModes`, `AesModes`). CBC and CFB128 in place, round trips, splitting of calls, and agreement
  with NIST SP 800-38A.
- **SHA-1, HMAC, HOTP** (`Fips180`, `OtpSha1`, `Hmac`, `HotpValue`). The 16-word ring against the 80-word
  schedule, padding in one or two blocks, one-shot and streaming HMAC, and RFC 4226 truncation.
- **Flash** (`FlashMemory`). Two laws of the driver: a store without erase clears bits, a store with erase
  replaces its range and keeps the rest. An image also counts the erases of each page.
- **Counters** (`CounterPage`, `CounterRuns`, `HotpValidation`, `HotpRuns`). What any run of increments does to
  value, shape, wear and the rest of the flash; what verifying codes does. One call in 505 finds a full page and
  keeps the value instead of raising it. So "an accepted code is spent" does not always hold: `AcceptedCodeIsSpent`
  gives the exact condition, `RolloverAcceptsTwice` the case where it fails, and `HotpRuns` what does hold over
  every run of codes: accepted counters rise except across a rollover, and none is accepted three times.
- **Time** (`TimeLog`, `TimeCrc`, `SetTime`). The 32-entry log is one 24-bit register, and the set-time command only
  moves it forward. Every append asks the driver to erase the page, so the log costs an erase per call; `TimesSetLog`
  counts them. The CRC of an entry is a remainder modulo a polynomial of degree 8 and notices every burst of 8 bits.
- **Slots and protocol** (`OtpSlots`, `BackupPages`, `Dwords`, `Decimal`, `FactoryReset`, `ReportState`,
  `ReportAnswers`, `Output`, `ReportProtocol`). `ReportState` is the state machine of `OTP_main`: slot, code, time,
  password and reset commands, and the clicks of lock keys that type a code. `ReportAnswers` are its answers and
  `ReportProtocol` is the code that refines both.
- **Runs of the protocol**. `ReportRuns` shows over all runs who may change the slot pages: the three slot commands
  under a granted password, and a factory reset that the card accepts, which asks for no temporary password and
  keeps the one that is set. `ReportCounters` shows that the counter pages keep their shape in every state reached,
  who may move a counter, and that it counts exactly the uses of its slot. `ReportConfig` follows the configuration
  from the report that writes it to the codes it protects and the keys it assigns, `ReportTime` the stored time.
- **What the host sees**, stated on report bytes, record bytes and page numbers and not on the definitions of the
  state machine. `SlotUpload` is the round trip from chunks to a read and `UploadToCode` the one from uploaded bytes
  to the RFC 4226 code that comes back. `ReportSlots` says which records a commit or an erase changes, `ReportVerify`
  what a verification answers, `ReportStatus` the status byte of every answer, `ResetEffects` what a factory reset
  leaves in every page.
- **Where the protocol does not do what it seems to.** Status OK does not mean that a record was stored:
  `OkWithoutStoring` gives the two exceptions exactly, and `SilencedRefusal` an instance. The decimal text of a
  counter is cut after seven digits: `CounterTextReads` says when it is right. The token id and Enter flags of a
  slot never take effect when a code is typed: `OnlyDigitsFlag`. The number of the last TOTP slot falls back to the
  first record, so erasing it erases the first HOTP slot: `LastTotpErasesFirstHotp`. A factory reset erases one of
  the two pages of the password safe: `ResetHalvesSafe`. The backup of a full counter page never gets its mark:
  `RolloverIsNotMarked`.
- **CRC** (`Crc`, `CrcPolynomial`). The word step is the remainder modulo the CRC-32 polynomial and the byte step its
  mirror image; the CRC is affine, bijective per word, and blind to no change within one word.
- **Record stores** (`HiddenVolume`, `PasswordSafe`, `StorageCiphers`). Stated for any invertible ciphers;
  `StorageCiphers` shows that AES-256 in the two modes the firmware uses is such a cipher.
- **Rings** (`Rings`, `RxRing`, `TxRing`). The receive ring with the interrupt handler between any two
  statements of the reader, as a state machine over its statements. After any run from a fresh ring the bytes
  form a queue if and only if none arrived, in a full ring, while the start index is momentarily 200
  (`QueueUnlessOverflow`); a run that gets there is `LossIsReached`.

Conventions. Flash addresses are relative to the start of flash. The processor is big-endian: native loads and
stores use `Number`, `BigEndian`, `WordAt`, `Dword`; `getu32` and `getu64` read little-endian. Sixteen- and
thirty-two-bit lengths are naturals with their bounds; 64-bit counters wrap explicitly (`Wrapped`). Memory that
a caller passes with a length is a sequence of exactly that length. Answers of the smart card, random bytes and
the TOTP code, which depends on the clock, are parameters.

`hide` statements in proofs keep definitions out of the solver's sight where they are not needed, and
`{:induction false}` marks lemmas whose bodies are the whole proof.

## Model

| member | source | states |
|---|---|---|
| Gf256.MulLaws | src/OTP/aes.c:363-364 | multiplication in GF(2^8) distributes over XOR on both sides, commutes with xtime and has unit 1, which is what lets tables be combined by XOR |
| Gf256Powers.Period | src/OTP/aes.c:377-383 | among the exponents 0 to 255 that the table loop walks, a power of 3 is 1 exactly at 0 and at 255 |
| Gf256Powers.LogExists | src/OTP/aes.c:377-383 | every nonzero byte is one of the first 255 powers of 3, so the log table has no gaps |
| Fips197.InverseIsInverse | src/OTP/aes.c:394-402 | the multiplicative inverse defined by logarithms is the one y with x * y = 1, both directions |
| Fips197.SBoxInverts | src/OTP/aes.c:396-415 | InvSBox and SBox undo each other on every byte |
| Fips197.MixInverts | src/OTP/aes.c:432-435 | InvMixColumns and MixColumns are inverse to each other on every column |
| Fips197.MixAdd | src/OTP/aes.c:420-440 | MixColumns and InvMixColumns distribute over XOR of columns |
| Fips197.InvCipherUndoesCipher | src/OTP/aes.c:614-752 | InvCipher of section 5.3 of FIPS 197 undoes Cipher of section 5.1 for every key and state |
| Fips197.CipherUndoesInvCipher | src/OTP/aes.c:614-752 | and Cipher undoes InvCipher |
| AesTables.PowLog | src/OTP/aes.c:377-383 | after the loop pow holds the powers of 3 and log a logarithm of every nonzero byte |
| AesTables.LogMul | src/OTP/aes.c:364 | multiplying through the log and pow tables is field multiplication, zero operands included |
| AesTables.Substitute | src/OTP/aes.c:399-412 | one S-box entry built by four rotations is the affine map of the inverse |
| AesTables.Tables.Boxes | src/OTP/aes.c:396-415 | FSb and RSb hold SBox and InvSBox at every index |
| AesTables.RowsRotate | src/OTP/aes.c:426-439 | the four forward and the four reverse tables are byte rotations of the first one, entry by entry |
| AesTables.Tables.Row | src/OTP/aes.c:420-440 | one pass of the last loop makes the entries of all eight round tables right |
| AesTables.Tables.RoundConstants | src/OTP/aes.c:387-391 | RCON holds the round constants of the key expansion |
| AesTables.Tables.Generate | src/OTP/aes.c:368-441 | from any memory contents the generator leaves every table as FIPS 197 calls for |
| AesKeys.Context.Expand128 | src/OTP/aes.c:489-502 | the loop for 10 rounds writes the key expansion of section 5.2 for 4-word keys |
| AesKeys.Context.Expand192 | src/OTP/aes.c:504-519 | the loop for 12 rounds writes the expansion for 6-word keys |
| AesKeys.Context.Expand256 | src/OTP/aes.c:521-541 | the loop for 14 rounds writes the expansion for 8-word keys, with its extra substitution |
| AesKeys.Context.SetKeyEnc | src/OTP/aes.c:448-551 | for 128, 192 and 256 bits the context holds the key schedule of the key and nr its rounds; any other size returns the error and changes neither |
| AesCipher.ForwardSum | src/OTP/aes.c:614-635 | four table lookups XORed with a key word are SubBytes, MixColumns and AddRoundKey of one column |
| AesCipher.ReverseSum | src/OTP/aes.c:637-658 | four reverse lookups XORed with a key word are InvSubBytes, InvMixColumns and the addition of that word |
| AesCipher.InvMixWord | src/OTP/aes.c:596-602 | a reverse lookup through FSb is InvMixColumns of the word, because the two S-boxes cancel |
| AesCipher.SetKeyDec | src/OTP/aes.c:556-612 | the schedule is the encryption schedule reversed, with InvMixColumns on all but the first and last round key (section 5.3.5); bad sizes leave the context alone |
| AesCipher.InvRoundByColumns | src/OTP/aes.c:679-716 | a round of InvCipher equals the equivalent-inverse round over the transformed round key |
| AesCipher.EncryptRounds | src/OTP/aes.c:718-744 | the T-table rounds compute Cipher of FIPS 197 for every key size, key and state |
| AesCipher.DecryptRounds | src/OTP/aes.c:687-716 | the reverse rounds compute InvCipher |
| AesCipher.CryptEcb | src/OTP/aes.c:663-752 | sixteen bytes of output become Cipher or InvCipher of sixteen bytes of input, also when both are the same range; the rest of the output stays |
| AesCipher.EcbInverts | src/OTP/aes.c:448-752 | decrypting with the schedule of aes_setkey_dec undoes encrypting with that of aes_setkey_enc, and the other way round, for every key and block |
| BlockModes.CbcInverts | src/OTP/aes.c:757-802 | CBC decryption undoes CBC encryption over any invertible block function, for any number of blocks |
| BlockModes.CbcChains | src/OTP/aes.c:771-799 | every ciphertext block is the encryption of its plaintext block XORed with the ciphertext block before it, the first with iv (section 6.2 of NIST SP 800-38A) |
| BlockModes.CfbInverts | src/OTP/aes.c:807-839 | CFB128 decryption undoes encryption for every length, iv and offset |
| BlockModes.CfbEncryptSplits | src/OTP/aes.c:807-839 | encrypting a concatenation is encrypting the parts, the second from the state the first leaves |
| BlockModes.CfbDecryptSplits | src/OTP/aes.c:807-839 | the same for decryption |
| BlockModes.CfbIsReference | src/OTP/aes.c:807-839 | from offset 0 the byte-wise mode is the segment-wise mode of section 6.3 of NIST SP 800-38A |
| AesModes.CryptCbc | src/OTP/aes.c:757-802 | the output range becomes the CBC result and iv the last ciphertext block, in place too |
| AesModes.CbcRoundTrip | src/OTP/aes.c:757-802 | CBC with AES decrypts what it encrypted for every multiple of 16 bytes |
| AesModes.CryptCfb128 | src/OTP/aes.c:807-839 | the output range becomes the CFB result; iv and offset are the state that the ciphertext determines, in both directions |
| AesModes.CfbRoundTrip | src/OTP/aes.c:807-839 | CFB with AES decrypts what it encrypted, from every offset |
| AesModes.CfbTwoCalls | src/OTP/aes.c:807-839 | two calls in a row give what one call on the whole input gives, in both directions |
| AesModes.CfbIsStandard | src/OTP/aes.c:807-839 | AES-CFB128 from offset 0 is the standard's mode |
| OtpSha1.RingIndices | src/OTP/sha1.c:136-140 | the ring positions s+13, s+8, s+2 and s are those of schedule words t-3, t-8, t-14 and t-16 |
| OtpSha1.ScheduleWord | src/OTP/sha1.c:136-140 | the 16-word ring always holds the 16 newest of the 80 schedule words, and yields word t |
| OtpSha1.RoundStep | src/OTP/sha1.c:142-152 | one pass updates the five registers as step t of section 6.1.2 of FIPS 180-4 |
| OtpSha1.NextBlock | src/OTP/sha1.c:99-163 | the chaining value becomes the compression of the block and the length grows by 512 bits |
| Fips180.HashBlocksSnoc | src/OTP/sha1.c:232-245 | hashing one more block compresses it into the value reached |
| Fips180.PaddingInOneBlock | src/OTP/sha1.c:175-207 | a rest of at most 55 bytes is padded within its block, in the form the code writes |
| Fips180.PaddingInTwoBlocks | src/OTP/sha1.c:183-188 | a rest of 56 to 63 bytes is padded in that block and one more |
| OtpSha1.LastBlock | src/OTP/sha1.c:165-207 | after absorbed whole blocks, any rest of whole bytes ends in the hash of the padded message, the 64-bit length undone where an extra block was added |
| OtpSha1.OtpSha1 | src/OTP/sha1.c:232-245 | the digest is SHA-1 of section 6.1.2 of FIPS 180-4 for every byte message below 2^32 bits |
| Hmac.RePad | src/OTP/hmac-sha1.c:141-145 | XOR with ipad^opad turns the key XOR ipad into the key XOR opad |
| Hmac.LoadKey | src/OTP/hmac-sha1.c:112-122 | the buffer is the block-sized key of RFC 2104, long keys hashed, short ones zero-filled |
| Hmac.Sha1Hmac | src/OTP/hmac-sha1.c:106-152 | the digest is HMAC of section 2 of RFC 2104 for every key and byte message; dest serves as scratch space |
| Hmac.HmacContext.Init | src/OTP/hmac-sha1.c:39-75 | both contexts have absorbed their pad block |
| Hmac.HmacContext.NextBlock | src/OTP/hmac-sha1.c:77-80 | one more block of the message is absorbed |
| Hmac.HmacContext.LastBlock | src/OTP/hmac-sha1.c:82-91 | any rest below 2^16 bits, however many blocks long, completes the inner message |
| Hmac.HmacContext.Finish | src/OTP/hmac-sha1.c:93-98 | the digest is HMAC of everything absorbed |
| Hmac.Streamed | src/OTP/hmac-sha1.c:39-98 | init, any number of blocks, the rest and final give the digest of the concatenation, the same as one call |
| HotpValue.TruncationAgrees | src/OTP/hotp.c:302-310 | dynamic_truncate takes the last 31 bits at the offset of section 5.3 of RFC 4226, indices in bounds |
| HotpValue.GetHotpValue | src/OTP/hotp.c:389-478 | with 6 or 8 digits the result is the HOTP of RFC 4226 on the big-endian counter; with any other length 0 |
| HotpValue.ZeroPaddedSecret | src/OTP/hotp.c:389-478 | storing a short secret in its 40-byte field, zeros behind it, does not change its codes |
| FlashMemory.Flash.Memcpy | src/SOFTWARE_FRAMEWORK/DRIVERS/FLASHC/flashc.c:838-1047 | the two driver laws: with erase a range is replaced and the rest of each page kept, without erase bits are only cleared |
| FlashMemory.Flash.ErasePage | src/SOFTWARE_FRAMEWORK/DRIVERS/FLASHC/flashc.c:581-606 | the page reads 0xFF everywhere and is worn once more |
| FlashMemory.StoreInside | src/SOFTWARE_FRAMEWORK/DRIVERS/FLASHC/flashc.c:838-1047 | a store changes exactly its range of any region around it |
| FlashMemory.StoreOutside | src/SOFTWARE_FRAMEWORK/DRIVERS/FLASHC/flashc.c:838-1047 | and leaves every disjoint region alone |
| FlashMemory.StoreWear | src/SOFTWARE_FRAMEWORK/DRIVERS/FLASHC/flashc.c:838-1047 | a store within a page wears that page once if it erases and no page otherwise |
| CounterPage.GetCounterValue | src/OTP/hotp.c:497-526 | the base plus the number of tokens before the first free one, in 64 bits |
| CounterPage.ValueOfShape | src/OTP/hotp.c:497-526 | a page with base b and k used tokens reads b + k |
| CounterPage.CounterSetPage | src/OTP/hotp.c:700-711 | setting a counter leaves a page with that base and no used token |
| CounterPage.SetCounterValue | src/OTP/hotp.c:700-711 | the flash becomes that page and nothing else changes |
| CounterPage.FallbackNeverFires | src/OTP/hotp.c:807-822 | clearing a token succeeds on any flash contents, so the store with erase behind it is never made |
| CounterPage.IncrementCounterPage | src/OTP/hotp.c:733-837 | the flash after one call, on every page contents, rollover and marking alike |
| CounterRuns.RolledOverPage | src/OTP/hotp.c:747-775 | a full page keeps its value: it becomes the base of a fresh page, at the price of one erase of this and of the backup page |
| CounterRuns.IncrementOnce | src/OTP/hotp.c:733-837 | the shape of a page is kept: k tokens become k + 1, or 504 become a fresh page |
| CounterRuns.IncrementsShape | src/OTP/hotp.c:733-837 | after n calls the page has (k+n) mod 505 tokens and has been erased (k+n) / 505 times |
| CounterRuns.IncrementsValue | src/OTP/hotp.c:497-526 | after n calls the value read is exactly b + (k+n) - (k+n) / 505 |
| CounterRuns.NeverDecreases | src/OTP/hotp.c:733-837 | more calls never read less, and two more calls read more, until 64 bits are exhausted |
| CounterRuns.IncrementsElsewhere | src/OTP/hotp.c:733-837 | over any run no byte outside the page and the backup pages changes |
| CounterRuns.IncrementsWear | src/OTP/hotp.c:733-837 | over any run no other page but the backup page is erased |
| CounterRuns.IncrementsOutside | src/OTP/hotp.c:733-837 | even on a page that holds anything at all, nothing changes but that page, the byte behind it and the backup pages |
| BackupPages.CounterIsSaved | src/OTP/hotp.c:752-770 | a rollover leaves the value of the counter, and nothing else, on the first backup page |
| BackupPages.RolloverIsNotMarked | src/OTP/hotp.c:762-773 | it never leaves the mark of a finished rewriting: the length is stored as four bytes over the mark, which is then only cleared further |
| HotpValidation.ValidateCode | src/OTP/hotp.c:849-888 | the least matching offset below 10 and exactly that many increments and one; -2 or -1, each exactly when due, with the flash unchanged |
| HotpValidation.GetCode | src/OTP/hotp.c:904-975 | the code of the present counter and one increment, or 0 and no change for a slot that is not programmed |
| HotpValidation.CounterAfterAccepting | src/OTP/hotp.c:877-884 | an accepted code at offset o leaves the counter at o + 1 more, one less when a rollover falls inside |
| HotpValidation.AcceptedCodeIsSpent | src/OTP/hotp.c:862-884 | the accepted counter leaves the look-ahead window if and only if no rollover falls inside |
| HotpValidation.RolloverAcceptsTwice | src/OTP/hotp.c:747-775 | the case where it stays: on a programmed slot with all tokens used, the command accepts the code of the counter, and then accepts the same code again |
| HotpRuns.VerifiedIsIncrements | src/OTP/hotp.c:849-888 | any run of codes leaves the flash as a run of increments, one more than the offset for each accepted code |
| HotpRuns.AcceptedCountersRise | src/OTP/hotp.c:849-888 | over any run of codes the accepted counters rise, and only a counter whose acceptance rolled the page over can come back |
| HotpRuns.NextAccepted | src/OTP/hotp.c:849-888 | from one accepted code to the next the counter rises by exactly the second offset plus one, or plus nothing when the first rolled the page over |
| HotpRuns.NeverThrice | src/OTP/hotp.c:849-888 | no counter is accepted three times in a run |
| TimeLog.CrcStm32 | src/OTP/hotp.c:328-347 | 24 division steps give the stored word |
| TimeLog.EncodedDecodes | src/OTP/hotp.c:328-347 | a stored word decodes to the low 24 bits of the time and passes its CRC |
| TimeLog.EncodedIsNotFree | src/OTP/hotp.c:328-347 | no time is ever stored as the mark of a free entry |
| TimeCrc.TimeCrcIsRemainder | src/OTP/hotp.c:328-347 | the stored word is the time times x^8 plus the remainder of that modulo x^8 + x^5 + x^4 + 1 |
| TimeCrc.BurstIsNoticed | src/OTP/hotp.c:328-347 | a stored word that passes its CRC no longer does after any change within eight adjacent bits |
| TimeLog.GetFlashTimeValue | src/OTP/hotp.c:544-579 | the word before the first free entry, the free mark tested in one byte order and the word read in the other |
| TimeLog.GetTimeValue | src/OTP/hotp.c:596-622 | that word decoded, 0 when its CRC fails, the free mark when there is none |
| TimeCrc.DamagedTimeIsZero | src/OTP/hotp.c:596-622 | a log whose newest word is damaged in this way reads as time zero, unless the word now looks like a free entry |
| TimeLog.SetTimeValue | src/OTP/hotp.c:636-683 | the flash after one call, on every page contents |
| TimeLog.TimeSetLogs | src/OTP/hotp.c:636-683 | the entries are a prefix of words then free ones: a call appends, and starts over only when all 32 are used |
| TimeLog.TimesSetLog | src/OTP/hotp.c:636-683 | the log after any calls, and the page erases they cost: one each, since the copy erases, and one more per wrap |
| TimeLog.LogIsRegister | src/OTP/hotp.c:544-683 | after any calls from an erased page the value read is the last one set, modulo 2^24 |
| TimeLog.TimeSetElsewhere | src/OTP/hotp.c:636-683 | no other page changes |
| SetTime.CmdSetTime | src/OTP/report_protocol.c:2039-2094 | accepted exactly when the flag and the stored time allow it; else a warning and no change |
| SetTime.RunStoresAccepted | src/OTP/report_protocol.c:2039-2094 | a run of requests that do not force the time stores exactly the accepted times, in rising order |
| SetTime.StoredTimeNeverDecreases | src/OTP/report_protocol.c:2039-2094 | the stored minutes never decrease over any run, through any number of log wraps |
| OtpSlots.UnpackedPacked | src/OTP/hotp.h:104-112 | the 79-byte packed record reads back field by field |
| OtpSlots.SlotsOverlap | src/OTP/hotp.c:1284-1293 | two slot numbers share bytes exactly when equal or when both fall back to the first record |
| OtpSlots.RewrittenSlots | src/OTP/hotp.c:1055-1108 | the three slot pages are what was to be written, whatever the backup pages held |
| OtpSlots.RewrittenElsewhere | src/OTP/hotp.c:991-1010 | saving and rewriting touches nothing outside the slot and backup pages |
| OtpSlots.WriteToSlot | src/OTP/hotp.c:1055-1108 | the record written is the given one, or the given one with the old secret when the new secret is all zero |
| OtpSlots.SlotReadsBack | src/OTP/hotp.c:1055-1108 | a written record reads back |
| OtpSlots.SlotsElsewhere | src/OTP/hotp.c:1055-1108 | every byte of the slot pages outside the record is kept |
| BackupPages.SlotsAreSaved | src/OTP/hotp.c:991-1103 | after the slot pages have been rewritten, the backup pages hold the same 1536 bytes but for the last twelve: address, length and mark as given, each cleared into what the pages held there |
| BackupPages.RecordsAreSaved | src/OTP/hotp.c:1094-1103 | every record and the configuration can be read from the backup pages too |
| BackupPages.RewritingWears | src/OTP/hotp.c:991-1103 | one erase of each slot page, and two, one and two of the three backup pages; no other page is erased |
| Dwords.EndianSwapReverses | src/OTP/hotp.c:279-284 | endian_swap reverses the bytes in memory |
| Dwords.EndianSwapTwice | src/OTP/hotp.c:279-284 | and is its own inverse |
| ReportProtocol.Protocol.ParseReport | src/OTP/report_protocol.c:472-1154 | one report refines one step of the state machine, factory reset and codes included, and the output block is the answer of that step with its own CRC |
| ReportProtocol.Protocol.SendOtpData | src/OTP/report_protocol.c:564-602 | a chunk is taken only with the temporary password and a known type; the first one starts from an empty record |
| ReportProtocol.Protocol.WriteToSlotCommand | src/OTP/report_protocol.c:537-562 | a commit needs the password and a started upload, and ends the upload whatever follows |
| ReportProtocol.Protocol.CmdWriteToSlot | src/OTP/report_protocol.c:1296-1350 | name and number checks, the HOTP counter set before the record, the last TOTP slot ignored with status OK |
| ReportProtocol.Protocol.CmdReadSlot | src/OTP/report_protocol.c:1432-1509 | name, configuration, token id and the eight interval, counter or decimal-text bytes at their offsets, or the error status |
| ReportProtocol.Protocol.CmdReadSlotName | src/OTP/report_protocol.c:1363-1420 | the name of a programmed slot, or the error status |
| ReportProtocol.Protocol.GetCodeCommand | src/OTP/report_protocol.c:634-646 | a code needs the user password exactly when the configuration asks for it; a HOTP code counts one use of its slot, and the reserved slot gives none |
| ReportConfig.ConfigIsStored | src/OTP/report_protocol.c:1733-1776 | an accepted configuration puts report bytes 1 to 5 at the start of the slot pages, every other byte of which is kept |
| ReportConfig.ConfigIsLatest | src/OTP/report_protocol.c:1733-1776 | over any run the configuration is that of the latest accepted report that wrote one, until a factory reset |
| ReportConfig.ProtectedCodes | src/OTP/report_protocol.c:634-646 | when byte 3 of the configuration is 1 a code without the granted user password is refused and nothing moves; with any other byte it is not refused for the password |
| ReportConfig.ProtectionHolds | src/OTP/report_protocol.c:634-646 | over any run: once byte 4 of an accepted configuration report is 1, every code without a granted user password is refused, until another configuration or a reset; with any other value none is |
| ReportConfig.ClickFollowsConfig | src/OTP/report_protocol.c:2751-2803 | over any run: a click of key k types and counts one use of the HOTP slot that byte 1 + k of the latest configuration report names, exactly when that is 0 or 1 and the slot is programmed |
| ReportProtocol.Protocol.CmdGetCode | src/OTP/report_protocol.c:1650-1721 | the code with its bytes swapped, the configuration and the token id, or the error status |
| ReportProtocol.Protocol.UserAuthenticate | src/OTP/report_protocol.c:1891-1919 | the user password is cleared, then set only when the card accepts |
| ReportProtocol.Protocol.FactoryResetCommand | src/OTP/report_protocol.c:2573-2595 | nothing but the status without the admin PIN; with it the erased flash, and the output as it was |
| ReportProtocol.Protocol.ClickKey | src/OTP/report_protocol.c:2751-2776 | a click of a lock key types the code of the slot the configuration names, if it is one of the first two, and counts one use |
| ReportProtocol.Protocol.SendHotpSlot | src/OTP/report_protocol.c:2782-2803 | what is typed is the code alone: the flags of token id and Enter are compared with 1 and never seen set |
| ReportProtocol.OnlyDigitsFlag | src/OTP/report_protocol.c:2791-2800 | of the three flags the routine tests, only the digits flag can be seen set, and it is seen exactly when eight digits are configured |
| ReportAnswers.CounterTextReads | src/OTP/report_protocol.c:1464-1468 | the decimal text of a counter reads as the counter if and only if it is below ten million |
| ReportAnswers.GivenCodeReads | src/OTP/report_protocol.c:1661-1672 | the four code bytes of the answer read as the HOTP code of the counter before the command |
| ReportAnswers.TypedReads | src/OTP/keyboard.c:294-312 | the typed text has the configured number of digits and reads as the code |
| Decimal.SendNumberN | src/OTP/keyboard.c:294-312 | the last len digits with leading zeros, or nothing for more than ten |
| Decimal.PaddedReads | src/OTP/keyboard.c:294-312 | the typed digits read as the number modulo the power of ten |
| Decimal.Itoa | src/tools.c:597-612 | the decimal text and its terminator, behind which the buffer is kept |
| Decimal.Reverse | src/tools.c:707-720 | the bytes before the terminator are reversed in place, the others kept |
| Decimal.LeadingDigits | src/tools.c:597-612 | a text without its last k digits reads as the quotient by the k-th power of ten, the whole text as the number |
| FactoryReset.EraseLocalFlashKeyValues | src/HighLevelFunctions/FlashStorage.c:1092-1180 | the five noise rounds and the erases leave the erased pages, their wear, and every other page as it was, whatever the noise |
| FactoryReset.ResetPage | src/HighLevelFunctions/FlashStorage.c:1126-1173 | pages 497 to 508 and 510 read as erased after 11 or 12 erases, every other page, time and second safe page among them, is kept |
| ResetEffects.ResetErasesPages | src/HighLevelFunctions/FlashStorage.c:1125-1173 | an accepted reset leaves pages 497 to 508 and 510 erased, the pages of the OTP data after 12 more erases and pages 497, 498, 507, 508 and 510 after 11; every other page is kept and not worn |
| ResetEffects.ResetHalvesSafe | src/HighLevelFunctions/FlashStorage.c:1125-1136 | the records of safe slots 0 to 7 are gone, those of slots 8 to 15 still decrypt to what they did |
| ResetEffects.ResetClearsVolumes | src/HighLevelFunctions/FlashStorage.c:1157-1173 | salt and slots of the hidden volumes are gone |
| ResetEffects.ResetCounters | src/HighLevelFunctions/FlashStorage.c:1138-1155 | every counter page reads as erased, 2^64 - 1, and the time page is kept byte for byte |
| ResetEffects.RefusedReset | src/OTP/report_protocol.c:2573-2595 | a reset that the card refuses changes nothing and answers status 4 |
| ReportProtocol.Protocol.WriteConfig | src/OTP/report_protocol.c:1733-1776 | only a valid configuration under the password reaches the slot pages |
| ReportProtocol.Protocol.VerifyCode | src/OTP/report_protocol.c:1522-1556 | the answer and the flash are those of validating the code on slot 3 |
| ReportVerify.VerifyAnswers | src/OTP/report_protocol.c:1544-1553 | with slot 3 programmed, byte 7 is 1 if and only if the code matches one of the ten offsets, else 0, and byte 8 is the least matching offset, else 0xFE |
| ReportVerify.VerifyMovesCounter | src/OTP/report_protocol.c:1544-1553 | the counter of slot 3 ends one past the accepted offset, or on it when the page rolled over on the way, and changes exactly when byte 7 is 1 and not on a rollover at offset 0 |
| ReportVerify.NothingToVerify | src/OTP/report_protocol.c:1522-1543 | with slot 3 not programmed the status is 3 and nothing changes |
| ReportAnswers.AnswerCrcOk | src/OTP/report_protocol.c:1149-1154 | every answer carries a CRC that the report check accepts |
| ReportStatus.AnswerFrame | src/OTP/report_protocol.c:490-506 | byte 1 repeats the command, bytes 2 to 5 the CRC of the report, and bytes 60 to 63 are the CRC of the rest |
| ReportStatus.DamageIsNoticed | src/OTP/report_protocol.c:496-528 | a report damaged within one of its words is answered with status 1 and changes nothing |
| ReportStatus.StatusIs | src/OTP/report_protocol.c:526-795 | the status byte of every answer, for every command, state and password, from a table of report bytes and records that does not use the answers |
| ReportState.ChunkOffset | src/OTP/report_protocol.c:592-596 | a secret chunk starts at byte 0 or 30, whatever its number |
| ReportState.ChunkCount | src/OTP/report_protocol.c:597-598 | and its copy stays inside the 40 bytes of the secret |
| UploadToCode.ChunkIsCollected | src/OTP/report_protocol.c:572-599 | one accepted chunk: the name is replaced, or the last ten or the first thirty bytes of the secret; the first chunk starts from zeros |
| UploadToCode.ChunkIsEchoed | src/OTP/report_protocol.c:572-599 | each accepted chunk is answered with all that has been collected of the name or of the secret |
| UploadToCode.NamelessIsRefused | src/OTP/report_protocol.c:1301-1305 | an upload whose name begins with a zero byte is refused with status 7, stored nowhere and ended |
| ReportRuns.OnlyWithPassword | src/OTP/report_protocol.c:528-795 | one report changes the slot pages only if it passes the CRC and is either one of the three slot commands with the temporary password, a commit also with a started upload, or a factory reset that the card accepts |
| ReportRuns.PasswordWasGranted | src/OTP/report_protocol.c:1843-1919 | over any run of reports and lock-key clicks, a set admin or user password is that of the latest authentication of its kind, which the card accepted, with no lock since |
| ReportRuns.SlotChangesAreAuthorised | src/OTP/report_protocol.c:528-795 | over any run, an event that changes the slot pages is a slot command that shows the password of the latest, successful, authentication, not locked since, or a factory reset that the card accepted |
| ReportRuns.ResetClears | src/OTP/report_protocol.c:2573-2595 | an accepted factory reset leaves no slot programmed and no code protected, and keeps the time page, both temporary passwords and an upload under way |
| ReportRuns.StartedByUpload | src/OTP/report_protocol.c:564-602 | a started upload was begun after the last passing commit |
| ReportRuns.CommitConsumesUpload | src/OTP/report_protocol.c:537-602 | over any run, every passing commit ends an upload that was begun, under a granted password, after the previous passing commit |
| ReportRuns.SilencedSince | src/OTP/report_protocol.c:668-689 | refusals answer status OK exactly from the first authorise command on, for good |
| ReportCounters.CountersStayShaped | src/OTP/hotp.c:690-837 | over any run of events every counter page keeps its shape, erased pages included, so the results on runs of increments apply in every state reached |
| ReportCounters.CounterMovesAreAuthorised | src/OTP/report_protocol.c:528-795 | over any run a counter page changes only by a click assigned to its slot, an upload under the granted admin password, a code of its slot, under the granted user password where asked for, an accepted code, or an accepted factory reset |
| ReportCounters.CounterCountsUses | src/OTP/hotp.c:733-837 | over any run without upload to the slot or reset, the counter reads exactly base + m - m / 505, where m counts the uses of that slot in whatever order |
| ReportTime.TimeIsStored | src/OTP/report_protocol.c:2039-2094 | a time in range is stored in minutes since 2014 if it may be, else nothing changes and the status is 6 |
| ReportTime.OtherEventsKeepTime | src/OTP/report_protocol.c:528-795 | no event but CMD_SET_TIME touches the time page, a factory reset included |
| ReportTime.TimeNeverGoesBack | src/OTP/report_protocol.c:2039-2094 | over any run of events whose set-time reports force nothing, a stored time is never lost and never goes back |
| SlotUpload.UploadFolds | src/OTP/report_protocol.c:564-602 | after any authorised chunks the record under construction is the fold of their data from an empty record |
| SlotUpload.TwoChunksFillSecret | src/OTP/report_protocol.c:592-599 | chunks 0 and 1 fill the 40-byte secret with 30 and 10 bytes |
| SlotUpload.CommitReadsBack | src/OTP/report_protocol.c:1296-1350 | after a successful commit the flash holds the uploaded record, typed and numbered |
| SlotUpload.CommitSetsCounter | src/OTP/report_protocol.c:1331-1333 | the HOTP counter reads the byte-swapped counter of the report |
| SlotUpload.CommitKeepsOtherSlots | src/OTP/report_protocol.c:1296-1350 | every other record and the 64 bytes of global configuration are unchanged |
| SlotUpload.OkWithoutStoring | src/OTP/report_protocol.c:528-549 | a commit answers status OK without having stored the record if and only if it was refused after an authorise command, or its slot is the last TOTP slot |
| SlotUpload.SilencedRefusal | src/OTP/report_protocol.c:815-822 | for instance, a commit without password after an authorise command: nothing changes, status OK |
| SlotUpload.CommitThenRead | src/OTP/report_protocol.c:1432-1509 | reading the slot returns the uploaded name and the configuration, token id and counter or interval bytes of the commit report |
| SlotUpload.UploadRoundTrip | src/OTP/report_protocol.c:548-602 | from the first chunk to the read: name and fields come back, and the stored secret is the fold of the chunks, or the old one when that is all zero |
| UploadToCode.ChunksCollected | src/OTP/report_protocol.c:564-602 | one name report and two secret reports leave exactly their 15 and 40 bytes in the record under construction |
| UploadToCode.UploadThenCode | src/OTP/report_protocol.c:1650-1721 | from the uploaded bytes to the answer: the code is the RFC 4226 value of the uploaded secret, the little-endian counter and the digit count of the commit report |
| UploadToCode.UploadThenClick | src/OTP/report_protocol.c:2751-2803 | and a click of a key that the configuration assigns to that slot types that value |
| ReportSlots.NumbersAreRecords | src/OTP/hotp.c:1278-1293 | numbers 0x10 to 0x13 are records 0 to 3 and 0x20 to 0x2D records 4 to 17, at 64 + 79 times the record; 0x2E falls back to record 0 |
| ReportSlots.CommittedExactly | src/OTP/report_protocol.c:1296-1350 | an accepted commit stores the record byte for byte as uploaded, and every slot that does not share it keeps its 79 bytes, the configuration too |
| ReportSlots.CommitThenReadName | src/OTP/report_protocol.c:1363-1420 | reading the name of a slot that was just committed answers with the uploaded name and status 0 |
| ReportSlots.ReadCounterText | src/OTP/report_protocol.c:1460-1470 | reading a HOTP slot in any other format than 1 gives its counter as text, which reads as the counter exactly below ten million |
| ReportSlots.ErasedExactly | src/OTP/report_protocol.c:1791-1831 | an accepted erase leaves the slot's 79 bytes all ones, every slot that does not share the record and the configuration as they were |
| ReportSlots.ErasedReadsEmpty | src/OTP/report_protocol.c:1375-1420 | the erased slot then answers a read of its name or contents with status 3 |
| ReportSlots.LastTotpErasesFirstHotp | src/OTP/report_protocol.c:1818-1828 | erasing number 0x2E, the last TOTP slot, erases the first HOTP slot |
| Crc.ShiftInvertible | src/tools.c:424-428 | one bit step of Crc32 is a bijection |
| Crc.WordCrcBijective | src/tools.c:418-431 | a word step is a bijection of the register for a given word and of the word for a given register |
| Crc.GenerateCrcLen | src/tools.c:446-463 | the loop computes the word-wise CRC of the first n words |
| Crc.CrcAffine | src/tools.c:446-463 | crc(a)^crc(b)^crc(c) = crc(a^b^c) for equal lengths |
| Crc.SingleWordDetected | src/tools.c:446-463 | two inputs that differ within exactly one 32-bit word always have different CRCs, at every length |
| CrcPolynomial.WordCrcIsRemainder | src/tools.c:418-431 | a word step is division with remainder by x^32 + x^26 + x^23 + x^22 + x^16 + x^12 + x^11 + x^10 + x^8 + x^7 + x^5 + x^4 + x^2 + x + 1: the sum of register and word times x^32 is a multiple of it plus the new register |
| CrcPolynomial.RegistersMirror | src/tools.c:329-431 | the reflected register, fed the mirrored bytes of a word, ends in the mirror image of the word step |
| CrcPolynomial.CrcsMirror | src/tools.c:329-463 | the CRC of a whole record is the mirror image of the reflected CRC of its mirrored bytes |
| Crc.Register.CalcBlock | src/tools.c:371-391 | the reflected register after a block of bytes |
| Crc.Register.CalcBlockWords | src/tools.c:329-359 | taking words leaves the register as taking the same 4n bytes does |
| HiddenVolume.HiddenVolumes.DecryptSlotsData | src/HighLevelFunctions/HiddenVolume.c:882-920 | salt and slots are decrypted under the card's key; an unanswered request leaves them inactive |
| HiddenVolume.HiddenVolumes.ReadSlot | src/HighLevelFunctions/HiddenVolume.c:244-316 | the record that the flash holds for slot and key, and whether its checksum passes; refused while the data are inactive |
| HiddenVolume.HiddenVolumes.WriteSlot | src/HighLevelFunctions/HiddenVolume.c:330-403 | the slot area becomes the decrypted old one with one slot resealed, salt kept; without an answer from the card it is what was last decrypted, under the undecrypted key; refused while the data are inactive |
| HiddenVolume.ChecksumIgnoresItself | src/HighLevelFunctions/HiddenVolume.c:308-312 | the checksum depends on the first forty bytes only |
| HiddenVolume.RecordLayout | src/HighLevelFunctions/HiddenVolume.h:57-64 | the 44 bytes are the key, the two block numbers and the checksum, in that order |
| HiddenVolume.OneWordIsDetected | src/HighLevelFunctions/HiddenVolume.c:308-312 | of two records with the same checksum field that differ within exactly one of the ten words of key, start block and end block, at most one passes |
| HiddenVolume.BlocksAreWords | src/HighLevelFunctions/HiddenVolume.c:308-312 | another start block or end block is such a difference |
| HiddenVolume.KeyWordsAreWords | src/HighLevelFunctions/HiddenVolume.c:308-312 | and so is another aligned word of the key |
| HiddenVolume.DamageIsRefused | src/HighLevelFunctions/HiddenVolume.c:308-315 | a slot that passed its checksum is refused, and never the slot found, after any change within one of those words |
| HiddenVolume.WrittenReadsBack | src/HighLevelFunctions/HiddenVolume.c:244-403 | reading with the same number and key returns the record, and the checksum passes, for any invertible ciphers |
| HiddenVolume.WriteKeepsOthers | src/HighLevelFunctions/HiddenVolume.c:330-403 | the decrypted contents of the other three slots and the salt are unchanged |
| HiddenVolume.LastWriteStays | src/HighLevelFunctions/HiddenVolume.c:330-403 | over any writes each slot opens, under the key of its last write, to the record of that write |
| HiddenVolume.HiddenVolumes.GetDataKey | src/HighLevelFunctions/HiddenVolume.c:643-683 | status 1 with the record of the lowest-numbered slot read whose checksum passes, 2 when none does, 3 while the data are inactive; also when the card stops answering, after which one slot is read under the undecrypted key and no more |
| StorageCiphers.SafeCipherIsValid | src/HighLevelFunctions/password_safe.c:163-164 | AES-256 chained from an iv per record meets what the password safe asks of its cipher |
| StorageCiphers.SafeCipherChains | src/HighLevelFunctions/password_safe.c:163-164 | a record of the safe is stored as four AES-256 blocks, each chained to the one before |
| StorageCiphers.AreaCipherBlocks | src/HighLevelFunctions/HiddenVolume.c:275-281 | the slot area is stored block by block under AES-256 |
| StorageCiphers.VolumeCiphersAreValid | src/HighLevelFunctions/HiddenVolume.c:275-292 | both AES modes meet what the hidden-volume slots ask of theirs |
| PasswordSafe.StoredUpdatesSafe | src/HighLevelFunctions/password_safe.c:129-184 | storing a record is one update of the sixteen-entry map |
| PasswordSafe.StoredElsewhere | src/HighLevelFunctions/password_safe.c:176-178 | nothing before the two pages of the safe changes |
| PasswordSafe.Safes.WriteSlot | src/HighLevelFunctions/password_safe.c:129-184 | the buffer, marked active, is stored encrypted and left encrypted; refused for slot 16 and above or a locked safe |
| PasswordSafe.Safes.EraseSlot | src/HighLevelFunctions/password_safe.c:197-259 | the map is updated with a record of state byte 0x5A and 63 zeros |
| PasswordSafe.Safes.ReadSlot | src/HighLevelFunctions/password_safe.c:272-315 | the entry of the map, or a refusal |
| PasswordSafe.Safes.GetAllSlotStatus | src/HighLevelFunctions/password_safe.c:328-378 | active is reported for exactly the slots whose decrypted state byte is 0xA5; nothing while locked |
| PasswordSafe.Safes.SetSlotData1 | src/HighLevelFunctions/password_safe.c:502-512 | the 32-byte copy into the 11-byte name leaves name and password as reported and one byte of the next report field in the login name |
| PasswordSafe.Safes.SetSlotData2 | src/OTP/report_protocol.c:2356-2373 | the map is updated at the slot of the second report with both halves |
| PasswordSafe.ReportsMakeEntry | src/OTP/report_protocol.c:2324-2373 | the two halves are the name, password and login name of the reports, the overrun byte rewritten |
| PasswordSafe.Safes.SetThenRead | src/OTP/report_protocol.c:2234-2373 | two set commands and three reads return the bytes of the reports, and no other slot changes |
| PasswordSafe.Safes.SetThenList | src/OTP/report_protocol.c:2234-2373 | after the two set commands the list of active slots has that slot and all others as before |
| PasswordSafe.Safes.EraseThenList | src/HighLevelFunctions/password_safe.c:197-378 | after an erase the list of active slots lacks that slot and has all others as before |
| Rings.Enqueued | src/Tools/BUFFERED_SIO.c:218-237 | a byte put behind the newest one is queued and overwrites no unread byte |
| Rings.Dequeued | src/Tools/BUFFERED_SIO.c:278-302 | raising the start index removes the oldest byte |
| RxRing.ReceiveEnqueues | src/Tools/BUFFERED_SIO.c:218-237 | between statements the handler refuses a byte exactly when 199 wait and otherwise queues it |
| RxRing.WindowIsSafeUnlessFull | src/Tools/BUFFERED_SIO.c:296-299 | while the start index is 200 the handler queues correctly if and only if the ring is not full |
| RxRing.TwiceInWindowLosesBytes | src/Tools/BUFFERED_SIO.c:296-299 | two bytes in one such window can empty a ring of 198 unread bytes |
| RxRing.RingIsFifo | src/Tools/BUFFERED_SIO.c:218-302 | for every interleaving with at most one byte per window, bytes delivered are a prefix of bytes accepted and none is lost |
| RxRing.QueueUnlessOverflow | src/Tools/BUFFERED_SIO.c:218-302 | after any run from a fresh ring the bytes form a queue if and only if none arrived in the window of a full ring, and each that did lost 200 bytes |
| RxRing.OncePerWindowIsSafe | src/Tools/BUFFERED_SIO.c:218-302 | at most one byte per window rules such an arrival out |
| RxRing.LossIsReached | src/Tools/BUFFERED_SIO.c:296-299 | a run from a fresh ring reaches such a window, and two bytes there empty the ring |
| RxRing.Sio.RxIntHandler | src/Tools/BUFFERED_SIO.c:218-237 | the handler's code is that enqueue |
| RxRing.Sio.GetByte | src/Tools/BUFFERED_SIO.c:278-302 | the reader's code, uninterrupted, is a dequeue |
| TxRing.Sio.WriteString | src/Tools/BUFFERED_SIO.c:102-150 | the longest prefix that fits is queued, and the result says whether it was everything |
| TxRing.Sio.SendHandler | src/Tools/BUFFERED_SIO.c:162-188 | the oldest byte is sent, if there is one |

## Left out

- check_backups and recovery after power loss: the saved address, length and mark overlap and are written and read in different byte orders; what the backup pages hold is proved in BackupPages, and nothing is claimed about restoring them.
- erase_counter: it passes an address where a page number is expected, which the flash driver takes to mean the page its controller used last; what that erases is left out, and erasing a slot is modelled by what it does to the slot record.
- HotpValidation.ValidateCode: does not model the error return of an increment, because increment_counter_page always returns FLASH_COMPLETE.
- ReportProtocol.Protocol.ParseReport: for the commands not in the state machine (status, retry counts, high watermark, password safe, Storage commands) the state is kept and the answer is the bare header; what these commands really put into the output is not modelled, and the password-safe commands write pages 510 and 511, which is modelled on its own in PasswordSafe, where StoredElsewhere shows that nothing before these pages is touched.
- Erasures outside OTP_main lie outside a run of events: STICK20_CMD_GENERATE_NEW_KEYS reaches EraseLocalFlashKeyValues_u32 through BuildStorageKeys_u32 (src/USER_INTERFACE/html_io.c:466, src/HighLevelFunctions/HandleAesStorageKey.c:400) and clears the same pages as a factory reset.
- FactoryReset.EraseLocalFlashKeyValues: leaves out the user page, the reset of the card and the update PIN that is saved and restored.
- ReportProtocol.Protocol.EraseSlot: states the record part of the command only, see erase_counter.
- HiddenVolume.HiddenVolumes.GetDataKey: leaves out setting the volume sizes from the record that was found.
- Setting up hidden volumes and their random initialisation, key generation and PBKDF2: foreign calls and random data.
- AES tables FT0 to FT3 and RT0 to RT3 are the rows of two arrays, and the pointer into the key buffer is folded into the buffer.
- The table-free build with ROM tables, the VIA PadLock branches of aes.c and the wiping of the temporary schedule in aes_setkey_dec.
- Bit lengths that are not a multiple of 8 in SHA-1 and HMAC: the padding code does not mask trailing bits.
- TOTP codes: they divide the processor's clock by a stored interval; the code itself is a parameter of CMD_GET_CODE, its place in the answer and the checks before it are modelled.
- The little-endian build of sha1.c and the debug output everywhere.
- The smart card, USB, SD card, LED, FreeRTOS and flash drivers, the FAT layer, the interpreter and the HID command dispatcher: foreign code and I/O.
- xxHash and fastHash: the initialisation vector of a record is an arbitrary function of its number.
- Timing, and any claim about the strength of hash or cipher.
