# Encrypted partitions of a Switch NAND: a verified model

D.a.n is a FUSE driver that shows the five encrypted partitions of a Switch NAND as plain files, over one
image file per partition or over one raw image that holds all five. R.N.D decrypts the dump of a partition
as a whole. Both use XTS-N: XTS with AES-128, sectors of 0x4000 bytes and a big-endian sector number as
tweak input. This project models the data path of both programs, from the AES tables up to byte-addressed
reads and writes and to concurrent calls on one stream, and proves what makes the partition a byte array.

`dafny verify dfyconfig.toml` checks everything.

## How it is built

| module | source | content |
|---|---|---|
| `Bytes`, `Division` | | blocks, xor, byte strings put into byte strings; quotients and remainders of offsets |
| `GaloisField`, `MixRows`, `AesTables`, `AesSteps`, `KeySchedule`, `Aes` | D.a.n/aes.c | GF(2^8) by polynomial multiplication and its laws, the tables, the round steps in place and as functions, the key schedule, both ciphers |
| `BlockCipher`, `AesModes` | D.a.n/aes.c | a cipher as a pair of functions, `struct AES_ctx`, ECB, CBC and CTR on buffers |
| `Tweak`, `Xtsn` | D.a.n/ccrypto.c | sector numbers, the multiplication by alpha, the seekable sector procedure |
| `PlainView` | D.a.n/driver.c | the meaning of a ciphertext as a byte array, and of a write |
| `ReadLoop`, `ReadBytes`, `ReadLimits` | D.a.n/driver.c | the chunk loop of `nand_read` as a function; every byte it returns; when it is right, and contents that show each failure |
| `AesVectors`, `AlphaRing`, `TweakWords`, `AesReads` | D.a.n/aes.c, ccrypto.c, driver.c | AES-128 evaluated on the example of FIPS 197 appendix C.1 and under the zero key, high powers of alpha, and the failures of `nand_read` under AES |
| `DriverSpec` | D.a.n/driver.c, driver.h | what the driver promises in keys, numbers and names, with none of its own definitions |
| `Driver` | D.a.n/driver.c, driver.h | the driver's objects and methods |
| `Runs`, `Session` | D.a.n/driver.c | whole runs on a disk value, and the same on the driver object |
| `Concurrency`, `SharedBlocks` | D.a.n/driver.c | interleaved calls, one step per lock, seek, transfer and unlock; writes that share a block |
| `BatchDecryptor` | R.N.D/xts_crypto.cpp, R.N.D/main.c | the three-pass procedure and the sector loop |

XTS and the views are stated over any block cipher, a pair `enc`, `dec`; `Aes128` is the instance the
programs run, and `Aes128Inverse` proves it a permutation. A file is a byte sequence with a seek position
and a lock. The keys are parameters.

## What is proved, and where the code falls short

- AES is tied to FIPS 197 by more than its two directions undoing each other: every entry of the substitution
  table is the affine transformation of the inverse in GF(2^8) (`SboxIsAffineInverse`, over a product proved
  associative), the first and the last round key are added to the block (`FirstKeyAdded`, `LastKeyAdded`), and
  the example of appendix C.1 comes out (`ExampleVector`).
- Each block of ciphertext decrypts under alpha^(b mod 1024) times the encrypted sector number b div 1024.
  `nand_write` of any bytes at any offset changes that view in exactly the written range, whichever of the
  two kinds of file holds the partition, and leaves the ciphertext of every other mounted partition as it was
  (`Driver.Driver.NandWrite`, `Driver.Driver.WriteIsolated`).
- What `NandRead` and `NandWrite` ensure is told in `DriverSpec` as well: by the partition's name with or without
  a leading slash, by which of its two keys deciphers and which makes the tweaks, by literal sizes, offsets and
  error codes, and by the literal range of the raw image (`CipherInImage`). `ReadBytesAre` says what every byte of
  the answer to every request is, right or wrong: zero, as stored, or deciphered under the tweak counted from the
  sector in which its 0x400-byte chunk begins.
- `nand_read` is not right for every request. `ReadLoop.Chunked` is the condition: the range must end on a
  16-byte block, start on one or be at least 0x400 bytes long, and either start (rounded down to a block) on a
  0x400 boundary or lie in one sector. Over all block ciphers it is necessary and sufficient for every request
  (`ReadsExactlyIffChunked`). For AES-128 under 32-byte keys it is sufficient for every request and necessary for
  every request that misses the first or second demand and for every request that starts in sector 0
  (`AesReadsExactlyIff`); the keys that show it are zero, and AES is evaluated for it on three blocks.
  That every straddle of a later sector boundary has AES keys of its own is not shown.
- The size clamp of both calls is unsigned. `ClampFitsIff` says when it keeps the range inside the partition:
  exactly when the offset was inside and the sum did not wrap. Otherwise it asks for 2^63 bytes or more.
- `Multiply` looks at five bits of its second argument; it is the field product exactly below 32
  (`MultiplyIsGfMul`). The code uses 9, 11, 13 and 14.
- `aes_xtsn_process` keeps to the `len` bytes it is given exactly below two sectors, but for lengths without a
  whole block (`StaysInsideIff`): its inner loop runs over all of `len` once for every sector number. `XtsnProcess`
  says what it does to the memory at every length; the driver calls it with at most 0x400 bytes.
- Every finite sequence of admissible calls answers as one plain byte array per partition would
  (`RunSimulates`, and on the driver object `Serve`).
- Concurrent writes end as in some serial order, from every file and in every interleaving, exactly when no two
  share a 16-byte block; this is for any number of calls that write no byte twice (`AlwaysSerialIffDisjoint`).
  Without a shared block they end as in every serial order. With one, `nand_write` reads and stores the block
  under two separate locks, and bytes that one call alone wrote can be gone (`LostBytes`).
- Each block of an overlapping read is that block's plaintext at one instant during the call, one instant for a
  chunk, and the instants follow the request (`ReadSeesBlocks`).
- R.N.D keeps the file size in 32 bits and works in whole sectors. Its output is the plaintext, no less and no
  more, exactly for dumps below 4 GiB of whole sectors (`BatchIsExactIff`); the plaintext is a prefix of it exactly
  below 4 GiB (`BatchIsWholeIff`). Of the partition table, USER is cut to 0x80000000 bytes, and PRODINFO, 0x3C00
  bytes past a whole sector, makes the loop run 0x400 bytes past its buffer and write as many too many
  (`TableDumps`). The model gives the memory behind the buffer a name, `slack`; what the driver reads agrees with
  the output on the bytes of the dump whatever it holds (`DriverAgreesWithBatch`).
- R.N.D and ccrypto.c start a sector from the same tweak on every sector number except 2^64 - 1, under every
  tweak key (`SectorTweaksAgreeIff`, `AesTweaksAgreeIff`), and over all block ciphers they decrypt every buffer alike
  on the same numbers (`SectorsAgreeIff`). A comment in ccrypto.c speaks of overflow, but the test it belongs to
  counts the high word up one sector early.

## Model

| member | source | states |
|---|---|---|
| GaloisField.MultiplyIsGfMul | D.a.n/aes.c:338-346 | `Multiply(x, y)` is the product in GF(2^8) for every x if and only if y < 32 |
| GaloisField.XTimeIsGfMul2 | D.a.n/aes.c:304-307 | `xtime` is the field product by 2 |
| GaloisField.XTimeLinear | D.a.n/aes.c:304-307 | `xtime` distributes over xor |
| GaloisField.GfMulAdds | D.a.n/aes.c:338-346 | the field product distributes over xor |
| GaloisField.GfMulAssociates | D.a.n/aes.c:338-346 | and is associative |
| MixRows.MixRowByFolding | D.a.n/aes.c:310-323 | the `t`, `Tmp`, `Tm` form of one output byte is the row 2, 3, 1, 1 of the GF(2^8) matrix product |
| MixRows.InvMixRowByMultiply | D.a.n/aes.c:351-367 | four `Multiply` calls xored are the row 14, 11, 13, 9 of the inverse matrix |
| MixRows.InvMixRowOfMixRow | D.a.n/aes.c:310-367 | the inverse matrix applied to a mixed column gives each byte back |
| MixRows.MixRowOfInvMixRow | D.a.n/aes.c:310-367 | and the matrix applied to an inversely mixed column |
| AesTables.InvSboxOfSbox | D.a.n/aes.c:84-120 | the inverse table undoes the table at every byte |
| AesTables.SboxOfInvSbox | D.a.n/aes.c:84-120 | the table undoes the inverse table at every byte |
| AesTables.SboxIsAffineInverse | D.a.n/aes.c:84-101 | 0x63 at 0; at every other byte, which has an inverse in GF(2^8), the inverse xored with its left rotations by 1, 2, 3 and 4 and with 0x63 (FIPS 197 section 5.1.1) |
| AesTables.RconIsPowersOfX | D.a.n/aes.c:123-124 | each round constant is twice the one before in GF(2^8), starting from 1 |
| AesSteps.AddRoundKeyInPlace | D.a.n/aes.c:247-257 | xors the round's sixteen key bytes into the state, nothing else in the buffer changes |
| AesSteps.SubBytesInPlace | D.a.n/aes.c:261-271 | every state byte goes through the table |
| AesSteps.InvSubBytesInPlace | D.a.n/aes.c:372-382 | every state byte goes through the inverse table |
| AesSteps.ShiftRowsInPlace | D.a.n/aes.c:276-302 | the swaps with one temporary rotate row r by r places |
| AesSteps.InvShiftRowsInPlace | D.a.n/aes.c:384-410 | the swaps rotate each row back |
| AesSteps.MixColumnsInPlace | D.a.n/aes.c:310-323 | the four folded columns are the matrix product of FIPS 197 section 5.1.3 |
| AesSteps.InvMixColumnsInPlace | D.a.n/aes.c:351-367 | the four columns are the product by the inverse matrix |
| AesSteps.SubBytesInverse | D.a.n/aes.c:261-382 | the two substitutions invert each other on every state |
| AesSteps.ShiftRowsInverse | D.a.n/aes.c:276-410 | the two row shifts invert each other on every state |
| AesSteps.MixColumnsInverse | D.a.n/aes.c:310-367 | the two column mixings invert each other on every state |
| KeySchedule.KeyExpansion | D.a.n/aes.c:156-227 | the in-place loop leaves the expansion of the key |
| KeySchedule.ExpandIsExpansion | D.a.n/aes.c:156-227 | the expansion starts with the key and meets the word recurrence of FIPS 197 section 5.2 at every index |
| KeySchedule.ExpansionFromAnyWords | D.a.n/aes.c:168-226 | two expansions that agree on any Nk consecutive words are equal |
| KeySchedule.ExpansionThroughWords | D.a.n/aes.c:168-226 | any sixteen bytes at any four consecutive words belong to the expansion of some key |
| KeySchedule.LastRoundKeyDeterminesKey | D.a.n/aes.c:156-227 | two keys with the same last round key are equal |
| KeySchedule.LastRoundKeyIsBijection | D.a.n/aes.c:156-227 | every block is the last round key of exactly one key |
| Aes.CipherInPlace | D.a.n/aes.c:414-437 | the ascending loop replaces the block by its encryption under the round keys |
| Aes.InvCipherInPlace | D.a.n/aes.c:439-462 | the descending loop replaces the block by its decryption |
| Aes.DescendingMeetsAscending | D.a.n/aes.c:414-462 | on a ciphertext, the descending loop passes before each round the state the ascending loop passed |
| Aes.DecryptOfEncrypt | D.a.n/aes.c:414-462 | `InvCipher` after `Cipher` is the identity, for every block and every array of round keys |
| Aes.EncryptOfDecrypt | D.a.n/aes.c:414-462 | `Cipher` after `InvCipher` is the identity, likewise |
| Aes.FirstKeyAdded | D.a.n/aes.c:419 | enciphering is enciphering with the first round key zero after adding it to the block |
| Aes.LastKeyAdded | D.a.n/aes.c:432-436 | and enciphering with the last round key zero before adding that one |
| BlockCipher.Aes128Inverse | D.a.n/aes.c:229-232 | under any key AES-128 is a permutation of the blocks with `dec` its inverse |
| BlockCipher.Context.constructor | D.a.n/aes.c:229-232 | a fresh context enciphers with the given key |
| BlockCipher.Context.SetIv | D.a.n/aes.c:239-242 | the context's IV becomes the first sixteen bytes given |
| BlockCipher.Context.EcbEncrypt | D.a.n/aes.c:471-475 | replaces one block of a buffer by its encryption |
| BlockCipher.Context.EcbDecrypt | D.a.n/aes.c:477-481 | replaces one block of a buffer by its decryption |
| AesVectors.ExampleVector | D.a.n/aes.c:156-437 | under the key 00 01 .. 0f the block 00 11 .. ff enciphers to 69c4e0d86a7b0430d8cdb78070b4c55a (FIPS 197 appendix C.1) |
| AesVectors.EncryptZero | D.a.n/aes.c:414-437 | under the zero key the zero block enciphers to 66e94bd4ef8a2c3b884cfa59ca342b2e |
| AesVectors.EncryptOne | D.a.n/aes.c:414-437 | and the block 1 to 58e2fccefa7e3061367f1d57a4e7455a |
| AesModes.CbcEncryptBuffer | D.a.n/aes.c:502-516 | with the IV pointer running through the buffer, the first `length` bytes become the chained encryption and the context keeps the last ciphertext block |
| AesModes.CbcDecryptBuffer | D.a.n/aes.c:518-531 | the inverse chaining in place; the context keeps the last ciphertext block |
| AesModes.CbcEncryptBlock | D.a.n/aes.c:502-516 | each block is xored with the ciphertext block before it, the first with the IV, and enciphered |
| AesModes.CbcDecryptBlock | D.a.n/aes.c:518-531 | each block is deciphered and xored with the ciphertext block before it, the first with the IV |
| AesModes.CbcDecryptOfEncrypt | D.a.n/aes.c:502-531 | decryption from the same IV undoes encryption, for any number of blocks |
| AesModes.CbcEncryptOfDecrypt | D.a.n/aes.c:502-531 | encryption from the same IV undoes decryption |
| AesModes.CbcEncryptSplits | D.a.n/aes.c:502-516 | encrypting A then B with the carried IV is encrypting A ++ B |
| AesModes.CbcDecryptSplits | D.a.n/aes.c:518-531 | decrypting A then B with the carried IV is decrypting A ++ B |
| AesModes.NextIvSplits | D.a.n/aes.c:514-529 | and the IV left behind is the same one |
| AesModes.IncrementInPlace | D.a.n/aes.c:554-565 | the carry loop steps the IV |
| AesModes.IncrementIsAddOne | D.a.n/aes.c:554-565 | that step adds one to the big-endian number, modulo 2^128 |
| AesModes.CounterIsSum | D.a.n/aes.c:540-571 | counter block n is the IV plus n modulo 2^128 |
| AesModes.CtrCryptBuffer | D.a.n/aes.c:540-571 | byte i is xored with byte i mod 16 of the encrypted block that denotes IV + i div 16 modulo 2^128; the rest of the buffer stays; the IV ends advanced by ceil(length / 16) |
| AesModes.CtrIsMasked | D.a.n/aes.c:540-571 | that block-by-number form and the counter blocks of the loop give the same bytes |
| AesModes.CtrIsInvolution | D.a.n/aes.c:540-571 | twice from the same IV is the identity |
| AesModes.CtrSplits | D.a.n/aes.c:540-571 | a split after whole blocks is one call, and leaves the same IV |
| Tweak.GenIvInto | D.a.n/ccrypto.c:26-39 | the two byte loops on the little-endian host write the sector number |
| Tweak.GenIvDenotes | D.a.n/ccrypto.c:26-39 | read as a big-endian number it is hi * 2^64 + lo |
| Tweak.GenIvInjective | D.a.n/ccrypto.c:26-39 | different sector numbers give different blocks |
| Tweak.Shift128 | D.a.n/ccrypto.c:46-52 | the descending loop moves every byte up one bit with the carry of the byte before |
| Tweak.ShiftDoubles | D.a.n/ccrypto.c:46-52 | that doubles the 128-bit little-endian number modulo 2^128 |
| Tweak.StepTweak | D.a.n/ccrypto.c:98-102 | the shift and the conditional 0x87 are one step |
| Tweak.DoubleMultipliesByX | D.a.n/ccrypto.c:98-102 | one step is multiplication by x in GF(2)[x] modulo x^128 + x^7 + x^2 + x + 1, coefficient by coefficient |
| Tweak.DoubleLinear | D.a.n/ccrypto.c:98-102 | the step distributes over xor |
| Tweak.DoubleInjective | D.a.n/ccrypto.c:98-102 | no two tweaks step to the same one |
| Tweak.AlphaLinear | D.a.n/ccrypto.c:98-102 | n steps distribute over xor |
| Tweak.AlphaInjective | D.a.n/ccrypto.c:98-102 | n steps lose nothing |
| AlphaRing.AlphaRoot | D.a.n/ccrypto.c:98-102 | a hundred and twenty-eight steps are the xor of seven, two, one and none, for every tweak |
| AlphaRing.AlphaRootPower | D.a.n/ccrypto.c:98-102 | and so for 128 * 2^k steps, with each of the other counts times 2^k |
| Xtsn.ProcessSector | D.a.n/ccrypto.c:72-112 | the loop that first skips `sectoroffset / 16` blocks applies the block procedure to every whole block under alpha^(start + i), leaves the tail, and terminates |
| Xtsn.XtsnProcess | D.a.n/ccrypto.c:54-114 | one call leaves the memory as `Processed` says, at every length: one window of whole blocks per sector number, each under the next number, the sector offset counting for the first and reset when past the sector size |
| Xtsn.OneSectorCall | D.a.n/ccrypto.c:66-113 | below two sectors that is `Process` on the `len` bytes, the tail left alone |
| Xtsn.StaysInsideIff | D.a.n/ccrypto.c:66-113 | a call works on no byte past `len` if and only if `len` is below two sectors or below a block |
| Xtsn.ProcessClosedForm | D.a.n/ccrypto.c:66-113 | block b is processed under alpha^(start + b) times the encrypted sector number, the start being `sectoroffset / 16` or 0 when past the sector size; the tail below 16 bytes stays |
| Xtsn.ProcessWritten | D.a.n/ccrypto.c:66-113 | the same with both xors, the direction, the bumped high word and the reset start written out |
| Xtsn.ProcessedWritten | D.a.n/ccrypto.c:66-113 | at every length, block b under the sector number i after the first: where it lies, the two words of its number with the carry, its tweak, and what becomes of it |
| Xtsn.ProcessRoundTrip | D.a.n/ccrypto.c:54-124 | decrypting after encrypting, and the reverse, restores every buffer of any length |
| Xtsn.ProcessSplits | D.a.n/ccrypto.c:66-113 | one call over a range is two calls over consecutive pieces with matching start offsets |
| PlainView.PlainInjective | D.a.n/driver.c:368-385 | the decrypted view determines the ciphertext |
| PlainView.DecryptedChunkIsView | D.a.n/driver.c:347-385 | decrypting whole blocks inside one sector yields the view there |
| PlainView.OneBlockProcessed | D.a.n/driver.c:472-485 | a one-block call with a start offset inside the block seals or opens exactly that block |
| PlainView.MergedBlock | D.a.n/driver.c:461-485 | reading a block back, laying new bytes over it and storing it changes the view by exactly those bytes |
| PlainView.ViewOfStored | D.a.n/driver.c:452-505 | a write changes the view to the old one with the range replaced |
| PlainView.StoredByView | D.a.n/driver.c:452-505 | bytes with that view are the stored ones, however they came about |
| PlainView.StoredKeepsRest | D.a.n/driver.c:452-505 | ciphertext outside the covering blocks stays |
| ReadLoop.ChunkFits | D.a.n/driver.c:345-398 | in an admitted request every chunk is whole blocks in one sector, and the sector offset follows the byte offset across sector ends |
| ReadLoop.ReadFromIsView | D.a.n/driver.c:345-398 | from any state of the loop that is in step, what it still copies out is the slice of the view |
| ReadLoop.ReadIsView | D.a.n/driver.c:322-403 | an admitted request returns exactly the slice of the view |
| ReadBytes.ReadBytesAre | D.a.n/driver.c:322-403 | every byte of the answer to every request: zero below the first skip, deciphered under the tweak of its chunk in whole blocks, as stored after the last |
| ReadBytes.WholeBlocksArePlain | D.a.n/driver.c:322-403 | a request from a block boundary inside one sector returns the plaintext in all its whole blocks, whatever its size |
| ReadLimits.ReadsExactlyIffChunked | D.a.n/driver.c:322-403 | over all block ciphers: a request returns the plaintext slice for all keys and contents if and only if it meets `Chunked` |
| ReadLimits.WrongIfEndsRaw | D.a.n/driver.c:345-398 | a range whose last bytes the loop leaves raw comes out wrong under any keys that encipher the zero block without a zero byte, the zero AES key among them |
| ReadLimits.WrongIfStraddles | D.a.n/driver.c:345-398 | a range that runs over a sector end off the chunk grid comes out wrong under any keys that tell the two tweaks there |
| AesReads.ZeroKeysTell | D.a.n/ccrypto.c:72-112 | under the zero AES key one block tells the tweak of sector 1 from that of sector 0 carried on |
| AesReads.AesReadsExactlyIff | D.a.n/driver.c:322-403 | for AES-128 and 32-byte keys: exact if and only if `Chunked`, for every request that is misaligned or starts in sector 0 |
| Driver.TableFacts | D.a.n/driver.h:43-53 | names differ, ranges are disjoint and inside the image, sizes are whole blocks |
| Driver.RangeInTable | D.a.n/driver.h:47-53 | where the raw image holds each of the five names, as numbers; all are encrypted and whole blocks |
| Driver.AdmittedIsChunked | D.a.n/driver.c:328-398 | the condition on requests, with its numbers 16, 0x400 and 0x4000 |
| Driver.ClampFitsIff | D.a.n/driver.c:321-324 | the unsigned clamp keeps the range inside exactly when the offset was inside and the sum did not wrap; otherwise it gives 2^63 or more |
| Driver.FileInfo.Read | D.a.n/driver.c:365-366 | fread moves the position by what it got and fills the buffer with the bytes there |
| Driver.FileInfo.Write | D.a.n/driver.c:490-491 | fwrite replaces the bytes at the position and nothing else |
| Driver.Driver.constructor | D.a.n/driver.c:34-46 | nothing mounted, every partition with its table entry, its tweak key and its crypt key |
| Driver.Driver.GetPartitionInfo | D.a.n/driver.c:69-90 | returns i exactly when the path is the name of the mounted partition i or that after a slash, and -2 exactly when there is none |
| Driver.Driver.GetPartitionFileInfo | D.a.n/driver.c:92-119 | returns the raw image whenever it is active, else the file of the partition the path names in that sense, or -2 |
| Driver.Driver.ContentsByKeys | D.a.n/driver.c:376-385 | block b of the contents is the stored block deciphered with the crypt key under alpha^(b mod 1024) times b div 1024 enciphered with the tweak key |
| Driver.Driver.CipherInImage | D.a.n/driver.c:340-341 | a mounted partition is the literal range of the raw image, or the beginning of its own file |
| Driver.FetchChunk | D.a.n/driver.c:347-385 | one locked read; its whole blocks deciphered with the crypt key under the tweaks of the tweak key, the rest as stored; the lock is free again |
| Driver.ReadChunks | D.a.n/driver.c:328-403 | the loop fills the buffer with `Read` of the partition's bytes, on any request inside it |
| Driver.Driver.NandRead | D.a.n/driver.c:304-404 | -2 exactly when no mounted partition has the name; otherwise -22 or the clamped size with every byte as `DriverSpec.AnswerByte` says, the plaintext on an admitted request, and the rest of the buffer as before; no file's contents change |
| Driver.Driver.FetchedBytes | D.a.n/driver.c:322-403 | the loop's answer to any request is the promised one |
| Driver.Driver.FetchedIsContents | D.a.n/driver.c:322-403 | an admitted request reads the plaintext on any state of the driver |
| Driver.Driver.WriteBlock | D.a.n/driver.c:452-504 | one turn changes the view by the bytes it moved on, in one file |
| Driver.Driver.WriteBlocks | D.a.n/driver.c:437-505 | after the loop the view has the whole buffer at the offset, for any alignment |
| Driver.Driver.NandWrite | D.a.n/driver.c:411-511 | -2 exactly when no mounted partition has the name, -22 for an empty range, both with nothing changed; otherwise the clamped size with the plaintext under the two keys replaced in the range, the ciphertext that belongs to it, every byte of a raw image outside the partition's literal range as before, and the ciphertext of every other mounted partition |
| Driver.Driver.WriteIsolated | D.a.n/driver.c:429-491 | no write changes the ciphertext of another partition, on a raw image or on separate files |
| Runs.StepSimulates | D.a.n/driver.c:304-511 | one call on ciphertext answers as on plain arrays, and the views are again those arrays |
| Runs.RunSimulates | D.a.n/driver.c:304-511 | so does every finite sequence of calls, from any ciphertext, on either kind of disk |
| Runs.BackingsAgree | D.a.n/driver.c:101-118 | a raw image and separate files with the same plaintexts answer every sequence alike |
| Runs.RegionOfWith | D.a.n/driver.h:47-53 | replacing one partition's bytes leaves every other partition's bytes |
| Runs.RunKeepsByte | D.a.n/driver.c:429-491 | over any run, bytes of a raw image outside the partitions written never change |
| Runs.RunKeepsPartition | D.a.n/driver.c:429-491 | over any run, a partition no call writes keeps every ciphertext byte |
| Session.ServeRead | D.a.n/driver.c:304-404 | the driver object's answer to a read is that of the step on its disk |
| Session.ServeWrite | D.a.n/driver.c:411-511 | its answer to a write, and the disk it leaves, are those of the step |
| Session.Serve | D.a.n/driver.c:48-65 | requests handed to the two callbacks one after another get the replies of plain byte arrays, and the files end up with those arrays as views |
| Concurrency.StepFine | D.a.n/driver.c:357-366 | every step keeps the lock exclusive, the position where its holder sought, and all local variables in order |
| Concurrency.NeverStuck | D.a.n/driver.c:357-491 | until all calls are done some call can move |
| Concurrency.RunsEnd | D.a.n/driver.c:345-505 | no run has more moves than its calls had steps, so all calls finish |
| Concurrency.MergedIsNew | D.a.n/driver.c:461-485 | what a turn of a write computes between its two locks is the new block |
| Concurrency.WritesRun | D.a.n/driver.c:452-505 | at every moment of every interleaving each block is new if its writer stored it and as at the start otherwise |
| Concurrency.DisjointWritesSerialize | D.a.n/driver.c:452-505 | writes that share no block end, under every schedule, in the file they end in one after another, in every order |
| Concurrency.DisjointWritesPlain | D.a.n/driver.c:452-505 | and every partition in the plaintext its own writes would leave in a byte array |
| Concurrency.ReadRun | D.a.n/driver.c:345-398 | under every schedule each chunk copied out so far was the plaintext there at one instant of the call, and the instants are in order |
| Concurrency.ReadSeesBlocks | D.a.n/driver.c:345-398 | each block a finished read returned was that block's plaintext at one instant of the call, whatever writes ran beside it; blocks of a chunk share the instant, and later chunks have no earlier one |
| SharedBlocks.LostUpdate | D.a.n/driver.c:461-491 | two writes inside one block can end as if the first had not run |
| SharedBlocks.LostBytes | D.a.n/driver.c:461-491 | among any calls, two that write one block can end with the bytes only the first writes there as they were at the start |
| SharedBlocks.SharedBlockNotSerial | D.a.n/driver.c:461-491 | and so as in no serial order, wherever such a byte was to change |
| SharedBlocks.AlwaysSerialIffDisjoint | D.a.n/driver.c:452-505 | calls that write no byte in common end as in some serial order, from every file under every schedule, if and only if they write no block in common |
| BatchDecryptor.NextTweak | R.N.D/xts_crypto.cpp:37-40 | the tweak loop of R.N.D is the same step as that of ccrypto.c |
| BatchDecryptor.XtsCrypto.CreateTweak | R.N.D/xts_crypto.cpp:13-26 | the encrypted sector number, whatever the array held, although only half of it is cleared |
| BatchDecryptor.XtsCrypto.ApplyTweak | R.N.D/xts_crypto.cpp:29-42 | block i of the buffer is xored with alpha^i times the tweak, the tweak itself stays |
| BatchDecryptor.TwoPassIsOnePass | R.N.D/xts_crypto.cpp:44-58 | tweaks, ECB over the whole buffer, tweaks again is the block-by-block procedure |
| BatchDecryptor.XtsCrypto.Decrypt | R.N.D/xts_crypto.cpp:44-58 | one sector of the buffer decrypted, the rest untouched |
| BatchDecryptor.SectorTweaksAgreeIff | D.a.n/ccrypto.c:70-73 | under any invertible tweak cipher the two programs start a sector from the same tweak if and only if its number is not 2^64 - 1 |
| BatchDecryptor.AesTweaksAgreeIff | D.a.n/ccrypto.c:70-73 | so under every AES tweak key |
| BatchDecryptor.SectorsAgreeIff | D.a.n/ccrypto.c:70-71 | over all block ciphers they decrypt every buffer alike if and only if the number is not 2^64 - 1 |
| BatchDecryptor.DecryptDump | R.N.D/main.c:163-191 | the output is the view of the first (length mod 2^32) bytes, filled up to a whole sector with what lies behind the buffer: block by block deciphered with the crypto key under the tweaks of the tweak key |
| BatchDecryptor.BatchIsWholeIff | R.N.D/main.c:164-171 | the output holds the whole plaintext if and only if the dump is shorter than 2^32 bytes |
| BatchDecryptor.BatchIsExactIff | R.N.D/main.c:163-187 | the output is the plaintext and nothing more if and only if the dump is whole sectors below 2^32 bytes; the loop stays in its buffer if and only if the 32-bit size is whole sectors |
| BatchDecryptor.TableDumps | D.a.n/driver.h:47-51 | of the five dumps PRODINFO overruns by 0x400 bytes, USER comes out cut to 0x80000000 bytes, the others exactly |
| BatchDecryptor.DriverAgreesWithBatch | R.N.D/main.c:171-191 | an admitted read of the driver is that slice of R.N.D's output, as far as the output reaches |

## Left out

- Registration with FUSE, attributes, directories, open and release, mount commands, threads and process setup: plumbing around the data path.
- Failures of malloc, fseek, fread and fwrite, and reads past the end of a file: assumed not to happen; the file behind a mounted partition covers it.
- Driver.Driver.NandRead: an offset is one that `off_t` holds, and the clamped size one that the buffer and the int `read` hold; beyond that C leaves the counter undefined. Ranges outside the partition are out by that, as `ClampFitsIff` shows.
- Driver.Driver.NandWrite: the same demands, for `written`.
- ReadLimits.ReadsExactlyIffChunked: necessity is over all block ciphers; for AES the straddles of a boundary after sector 0 are open, because no one key is shown to tell the tweaks at every boundary.
- BatchDecryptor.SectorsAgreeIff: disagreement in the decrypted bytes is over all block ciphers; under AES it is shown for the tweaks.
- SharedBlocks.AlwaysSerialIffDisjoint: calls that write one byte twice, and partitions that overlap without being one; the table has none of the latter.
- Concurrency.ReadSeesBlocks: reads outside `Chunked` are not part of the concurrent model, because their plaintext is not what the call returns even when it runs alone.
- Concurrency: fairness of the lock; a waiting call is one that some schedule passes over.
- AesModes.CbcEncryptBuffer: lengths that are not whole blocks, for which the C loop runs past the length it was given.
- AES-192 and AES-256, and hosts that are big-endian or have a 32-bit `size_t`.
- OpenSSL: EVP AES-128-ECB is a block cipher passed to `XtsCrypto`, applied to each block of a buffer.
- R.N.D's command line and key file, and D.a.n's key file: the keys are parameters.
- NandFileServer: HTTP and hashing.
