# Verification of FriiDump's core

FriiDump dumps Nintendo optical discs through a drive's memory. This project models its hardest parts in Dafny and proves
what they promise:

* the Reed-Solomon codec RS(182,172,11) of the inner parity (`Bytes`, `GaloisField`, `Polynomials`, `BerlekampMassey`,
  `ErrorLocator`, `LinearCode`, `Forney`, `DecoderSpec`, `Converse`, `ReedSolomon`);
* the disc read engine with its block cache, the dumper on top of it, and the program's dump and resume (`Geometry`, `Drive`,
  `ReadPlan`, `Cache`, `Reads`, `Faithful`, `Attempts`, `Disc`, `Streams`, `Runs`, `Dumper`, `Resume`, `Friidump`);
* the Lite-On de-interleaver, which uses the decoder (`LiteOn`);
* the streaming hashes (`Words`, `Blocks`, `Counters`, `MessageDigest`, `Sha1`, `Md4`, `Md5`, `Ed2k`, `Crc32`, `Multihash`);
* the permuting option parser (`Getopt`).

`Wrappers` and `Slices` hold an option type and a few facts about sequences and products.

`dafny verify dfyconfig.toml --resource-limit 2000000` checks everything.

## How it is modelled

Code that updates memory in place is a class or a method on arrays, proved against specification functions; lemmas about
those functions then say what they are worth. Machine words are integers with their range as a subset type; wrap-around is
written out, and exclusive or is defined on binary digits (`Bytes.XorNatIsBits` relates it to machine bits).

**Reed-Solomon.** `Codec` holds the three tables. `RsDecode` is proved equal to `DecoderSpec.Decoded` on every received
word, out-of-range lookups included; the lemmas say what `Decoded` does. `modnn` shifts an `int` by 255, which C leaves
undefined; the model reads that term as 0. On all arguments it is given the function is then reduction modulo 255 up to 510
and wrong above (`ModNnIff`, `ModNnOfLookup`). Tables, encoder, syndromes, Berlekamp-Massey and Chien search stay within 510.
The error values do not always: a single error is always repaired, up to five are always located, and two are repaired under the exact condition of
`TwoErrorsRepairedIff`. A return value of 0 does not mean that the word was a codeword (`ZeroReturnIsNoProof`): it is also
returned when the locator polynomial comes out constant (`ZeroReturnedIff`). Damage to at most five bytes is never missed that
way (`ZeroMeansUndamaged`).

**Drive and unscrambler.** A drive is a function from the sector read last and an offset to a byte, with an outcome for every
command; failed commands may leave anything in memory and buffers. Unscrambling is a function of its input and the time, may
fail, and may rewrite raw bytes. `Faithful.Follows` says of a drive that after a read its memory holds the frames of the disc
from there on, as many as the read method dumps (a pass for methods 0 to 6, five blocks for 7 to 9) and as far as the disc
goes; only methods 8 and 9 need the data handed over. Nothing needs it but the statements that name it. `Attempts` says of
every way of reading when it succeeds, as a function of the answers of drive and unscrambler, and the methods of `Disc` are
proved to do just that. `Attempts.Working` is a drive that follows a disc, answers every command and gives right headers,
with an unscrambler that accepts the disc's blocks; with it reads and dumps are proved to succeed.

**Cache.** The two caches are arrays of slots. `Cache.Intact(m, held, from)` says that every tag names the block its slot
holds, as far as sector `from` and later; the dump loop moves `from` along, because hashing a sector destroys it where it lies.

**Files** are streams in append mode: reads follow the position, writes go to the end. Of every write the file system may
take less than all; what it took stays in the file. After a raw write that fails the ISO file is still given that sector,
which its checksum then does not cover.

## Where code and comments disagree

* `libfriidump/disc.c:255` shortens the chunk size only after the last chunk, so every chunk of a pass has full size and the
  last overruns into the region of the next pass, which overwrites it (`StreamPasses`).
* `libfriidump/disc.c:716` says that the sector is in the cache for sure. For methods 7 to 9 and a sector past the end of the
  disc it is not, and the assertion ends the program as soon as the drive answers one of the reads (`PastEnd`, `ReadSector`).
* `libfriidump/disc.c:239` and its like compare an unsigned number with zero; the branch after them is never taken (`SeekAway`).
* `libfriidump/dumper.c:187-226` lets a successful ISO setup hide a failed raw setup (`Prepare`).
* `libmultihash/multihash.c:58` and `:64` are commented out, so the MD4 and ed2k values are those of the empty message
  (`Multihash.Reported`).
* `src/getopt_long-win32.c:392` moves past a leading `-` or `+` of the option string in the first call only; later calls see
  it as an option (`FirstCallAgrees`).

## Model

| member | source | states |
|---|---|---|
| `Bytes.XorNatIsBits` | `libfriidump/rs.c:93` | the digitwise exclusive or used throughout is the machine's exclusive or |
| `ReedSolomon.Modnn` | `libfriidump/rs.c:44-50` | the loop, its shift by 255 read as 0: x mod 255 exactly for the arguments of ModNnIff |
| `Forney.ModNnExact` | `libfriidump/rs.c:44-50` | modnn is reduction modulo 255 on 0 to 510 |
| `Forney.ModNnWrong` | `libfriidump/rs.c:44-50` | from 511 to 765 it is off by exactly one |
| `Forney.ModNnIff` | `libfriidump/rs.c:44-50` | for every argument: it is x mod 255 if and only if x is at most 510 or (x - 255) div 256 is a multiple of 255 |
| `Forney.ModNnOfLookup` | `libfriidump/rs.c:290-307` | up to 254 + 9 * 255, the largest argument of a lookup, it is exact up to 510 and nowhere else |
| `GaloisField.Times2IsBits` | `libfriidump/rs.c:72-74` | doubling as the table loop does it, on machine bits |
| `GaloisField.ExpInjective` | `libfriidump/rs.c:59-76` | the 255 powers of alpha that fill the table are distinct: alpha is primitive |
| `GaloisField.ExpSurjective` | `libfriidump/rs.c:59-76` | every nonzero byte is one of them, so the inverse table is total |
| `GaloisField.MulIsPolynomialProduct` | `libfriidump/rs.c:59-77` | the product through the tables is the product of polynomials modulo x^8+x^4+x^3+x^2+1 |
| `GaloisField.MulAssociates` | `libfriidump/rs.c:59-77` | multiplication through logarithms is associative |
| `GaloisField.MulDistributes` | `libfriidump/rs.c:59-77` | and distributes over exclusive or: the tables describe a field |
| `ReedSolomon.Codec.GenerateGf` | `libfriidump/rs.c:53-78` | alpha_to[i] is alpha^i, index_of inverts it, index_of[0] is A0 |
| `ReedSolomon.Codec.GenPoly` | `libfriidump/rs.c:81-103` | gg holds, in index form, the coefficients of the product of (x - alpha^i), i below 10 |
| `ReedSolomon.Codec.MultiplyByRoot` | `libfriidump/rs.c:88-99` | one pass of the loop multiplies by the next root |
| `LinearCode.GeneratorRoots` | `libfriidump/rs.c:81-103` | that product vanishes at alpha^0 to alpha^9 |
| `LinearCode.GeneratorNonzero` | `libfriidump/rs.c:116-128` | all eleven coefficients of the generator are nonzero, which the encoder relies on |
| `ReedSolomon.Codec.RsEncode` | `libfriidump/rs.c:106-130` | bb becomes the parity that division by the generator leaves |
| `ReedSolomon.Codec.EncodeOne` | `libfriidump/rs.c:114-128` | one step of the feedback register |
| `LinearCode.EncodedIsCodeword` | `libfriidump/rs.c:106-130` | message followed by parity vanishes at all ten roots |
| `LinearCode.CodewordIffEncoded` | `libfriidump/rs.c:106-130` | the encodings are exactly the codewords |
| `LinearCode.MinimumDistance` | `libfriidump/rs.c:81-130` | two different codewords differ in at least 11 bytes |
| `LinearCode.EncodingsFarApart` | `libfriidump/rs.c:106-130` | the encodings of two different messages differ in at least 11 of 182 bytes |
| `LinearCode.DetectsUpToTen` | `libfriidump/rs.c:142-169` | a codeword damaged in 1 to 10 bytes has a nonzero syndrome, so syn_error is set |
| `ReedSolomon.Codec.FormSyndromes` | `libfriidump/rs.c:142-154` | the ten syndromes are the values of the word at the roots |
| `ReedSolomon.Codec.ToIndexForm` | `libfriidump/rs.c:156-161` | syn_error is set exactly if a syndrome is nonzero; the syndromes are replaced by their logarithms |
| `BerlekampMassey.RunInvariant` | `libfriidump/rs.c:195-232` | after step r: degree of lambda at most el, el at most r, lambda annihilates the syndromes from el to r; the shifted polynomial b likewise with discrepancy 1 |
| `ReedSolomon.Codec.BerlekampMassey` | `libfriidump/rs.c:170-232` | the in-place loop over lambda, b and t, in index form and through the tables, computes the locator of the recursion |
| `ReedSolomon.Codec.Discrepancy` | `libfriidump/rs.c:196-203` | the discrepancy is the convolution of lambda and the syndromes |
| `ReedSolomon.Codec.UpdateLocator` | `libfriidump/rs.c:209-216` | t becomes lambda minus discrepancy times x b |
| `ReedSolomon.Codec.NormaliseLocator` | `libfriidump/rs.c:223-224` | b becomes lambda divided by the discrepancy |
| `ErrorLocator.AnnihilatorHasRoots` | `libfriidump/rs.c:195-232` | a short polynomial that annihilates the syndromes of t errors vanishes at all inverse locators |
| `ErrorLocator.LengthAtMostErrors` | `libfriidump/rs.c:217-218` | the register length never exceeds the number of errors |
| `ErrorLocator.LambdaLocates` | `libfriidump/rs.c:185-232` | for up to five errors lambda has degree t and its roots are exactly the inverse locators |
| `ErrorLocator.RootCount` | `libfriidump/rs.c:241-262` | the search then finds exactly t roots |
| `ReedSolomon.Codec.LocatorToIndexForm` | `libfriidump/rs.c:234-240` | lambda in index form, and its degree |
| `ReedSolomon.Codec.ChienSearch` | `libfriidump/rs.c:241-262` | finds all roots, in order, with their location numbers, also when it stops early |
| `ReedSolomon.Codec.ChienStep` | `libfriidump/rs.c:245-251` | the running product registers give the value of lambda at alpha^i |
| `ReedSolomon.Codec.FormOmega` | `libfriidump/rs.c:272-284` | the evaluator polynomial, in index form |
| `ReedSolomon.Codec.ErrorValue` | `libfriidump/rs.c:290-307` | the patch value with every modnn lookup as the code makes it, in or out of range |
| `ReedSolomon.Codec.RsDecode` | `libfriidump/rs.c:132-316` | without erasures: the word, the return value and the reported positions are those of Decoded, for every received word |
| `DecoderSpec.DecodeEncoded` | `libfriidump/rs.c:163-169` | an encoded message is returned as it is, with value 0 |
| `DecoderSpec.LocatesUpToFive` | `libfriidump/rs.c:185-271` | for every codeword damaged in 1 to 5 bytes the count is the number of damaged bytes and loc[j]-PAD are exactly their positions |
| `DecoderSpec.UndamagedBytesKept` | `libfriidump/rs.c:290-308` | and no other byte is changed |
| `Converse.ConsistentIsDamage` | `libfriidump/rs.c:185-271` | conversely, if the register is as long as the count and all locations lie in the word, the word is a codeword damaged in exactly the bytes found |
| `Converse.DamagedIff` | `libfriidump/rs.c:185-271` | so for 1 to 5 errors the decoder tells exactly which words are damaged codewords, and in how many bytes |
| `Converse.Interpolate` | `libfriidump/rs.c:185-232` | because any first syndromes are those of some errors at given locators |
| `Forney.NumeratorIsolates` | `libfriidump/rs.c:286-295` | the evaluator polynomial at a root isolates the error of that root |
| `Forney.PrefixIsDerivative` | `libfriidump/rs.c:299-303` | the sum over odd coefficients is what the numerator has to be divided by |
| `Forney.PrefixNonzero` | `libfriidump/rs.c:299-306` | it is not zero, so the lookup of its logarithm is meaningful |
| `DecoderSpec.CorrectionExact` | `libfriidump/rs.c:290-307` | if the inner lookups stay in range, the patch is exact if and only if the last lookup does |
| `DecoderSpec.RestoredIff` | `libfriidump/rs.c:290-307` | a damaged byte whose terms are in range is restored if and only if the last modnn argument is at most 510 |
| `DecoderSpec.RepairsInRange` | `libfriidump/rs.c:132-316` | up to five errors are repaired completely when every modnn argument is at most 510 |
| `DecoderSpec.SingleErrorRepaired` | `libfriidump/rs.c:132-316` | every single-byte error is repaired, with return value 1 |
| `DecoderSpec.TwoErrorsRepairedIff` | `libfriidump/rs.c:290-307` | two errors are repaired if and only if two sums of logarithms stay within 510 |
| `DecoderSpec.TwoErrorsNotRepaired` | `libfriidump/rs.c:44-50` | a family of two-byte errors that is located but not repaired |
| `DecoderSpec.ZeroReturnedIff` | `libfriidump/rs.c:163-264` | the return value is 0 for the codewords and for the words whose locator polynomial comes out constant, and for no others; such a word is not changed |
| `DecoderSpec.ZeroReturnedShort` | `libfriidump/rs.c:163-264` | 0 is returned with a register of length at most 5 if and only if the last five syndromes are zero |
| `DecoderSpec.ZeroMeansUndamaged` | `libfriidump/rs.c:132-316` | a codeword damaged in at most five bytes gives 0 if and only if it is not damaged at all |
| `DecoderSpec.ZeroReturned` | `libfriidump/rs.c:170-316` | words that are no codewords and give 0: one to five syndromes, the last of them nonzero, followed by zeros |
| `DecoderSpec.ZeroReturnIsNoProof` | `libfriidump/rs.c:163-169` | so there is a word that is no codeword for which 0 is returned |
| `Words.SwapIsBigEndian` | `libmultihash/sha1.c:33-34` | two rotations and two masks reverse the bytes of a word |
| `Sha1.CircularNext` | `libmultihash/sha1.c:40-41` | writing schedule word t at t mod 16 keeps the 16-word memory in step with the 80-word schedule |
| `Sha1.CircularRead` | `libmultihash/sha1.c:40-41` | the words 3, 8, 14 and 16 back are still there when they are read |
| `Sha1.NextWord` | `libmultihash/sha1.c:33-41` | produces schedule word t in the caller's memory |
| `Sha1.Round` | `libmultihash/sha1.c:44-63` | one round macro is one step of section 6.1 of RFC 3174 with the registers renamed |
| `Sha1.Context.Transform` | `libmultihash/sha1.c:67-127` | the in-place transform is the standard's compression of the block, and overwrites nothing but the block |
| `Sha1.Context.Update` | `libmultihash/sha1.c:147-188` | for every split: state, buffer and bit counter are those of the concatenation; bytes outside the data are untouched, data of at most 64 bytes survives |
| `Sha1.Context.HashInPlace` | `libmultihash/sha1.c:175-177` | whole blocks are hashed where they lie |
| `Sha1.Context.Final` | `libmultihash/sha1.c:192-231` | the digest of everything absorbed, with the padding of section 4 of RFC 3174 |
| `Counters.CountsAdd` | `libmultihash/sha1.c:158-162` | the two counters hold the bit length modulo 2^64 after adding any length |
| `Md4.HashBlock` | `libmultihash/md4.c:206-211` | hashing one block more is compressing it into the state |
| `Md4.Context.Process` | `libmultihash/md4.c:73-174` | the 48 unrolled steps are the compression function of RFC 1320 |
| `Md4.Context.Update` | `libmultihash/md4.c:179-218` | for every split: state, partial buffer and byte totals are those of the concatenation |
| `Md4.BitLength` | `libmultihash/md4.c:237-242` | the two length words are the bit length modulo 2^64 |
| `Md4.Context.Finish` | `libmultihash/md4.c:231-254` | the one-shot MD4 digest of everything absorbed |
| `Md5.Context.Transform` | `libmultihash/md5.c:172-272` | the 64 unrolled steps are the compression function of RFC 1321 |
| `Md5.Context.Update` | `libmultihash/md5.c:96-129` | for every split: chaining state, buffer and bit counter are those of the concatenation |
| `Md5.FinalBlock` | `libmultihash/md5.c:139-156` | the last sixteen words are the block that padding and length complete |
| `Md5.Context.Final` | `libmultihash/md5.c:131-168` | the one-shot MD5 digest of everything absorbed |
| `Ed2k.Context.Update` | `libmultihash/edonkey.c:44-69` | for every split: the running MD4 covers the current chunk, the final one the digests of the chunks before it; fewer than 9728000 bytes are pending |
| `Ed2k.Context.Advance` | `libmultihash/edonkey.c:48-66` | one pass, with or without the end of a chunk |
| `Ed2k.Context.Finish` | `libmultihash/edonkey.c:72-83` | MD4 of the message if it is shorter than a chunk, else MD4 of the chunk digests and that of the remainder, as the 32-bit chunk counter has it |
| `Ed2k.ComputedIsDigest` | `libmultihash/edonkey.c:60-80` | which is the ed2k hash unless the chunk counter has come back to 0 |
| `Ed2k.ChunkGrows` | `libmultihash/edonkey.c:48-62` | how chunks and remainder grow |
| `Crc32.TableIsSteps` | `libmultihash/crc32.c:29-94` | all 256 entries of the table are eight single-bit steps of their index |
| `Crc32.ByteByTable` | `libmultihash/crc32.c:116` | one pass of the loop is eight single-bit steps |
| `Crc32.RegisterConcat` | `libmultihash/crc32.c:106-120` | updates compose over concatenation |
| `Crc32.Update` | `libmultihash/crc32.c:106-120` | the loop computes the bit-by-bit register |
| `Crc32.GeneratorIsTail` | `libmultihash/crc32.c:96-104` | the table's constant spells the polynomial named in the comment |
| `Crc32.DivisionIdentity` | `libmultihash/crc32.c:96-104` | long division by it divides: quotient times generator plus remainder is the dividend |
| `Crc32.DivisionUnique` | `libmultihash/crc32.c:96-104` | quotient and remainder are unique |
| `Crc32.RegisterIsRemainder` | `libmultihash/multihash.c:30` | started at 0xffffffff the register is the remainder of the message times x^32 with its first 32 coefficients complemented |
| `Multihash.Multihash.constructor` | `libmultihash/multihash.c:27-50` | every hash starts on the empty message |
| `Multihash.Multihash.Update` | `libmultihash/multihash.c:53-71` | every hash fed gets the data as passed in although SHA-1 may overwrite it; bytes outside are untouched |
| `Multihash.Multihash.Finish` | `libmultihash/multihash.c:74-109` | reports CRC-32, MD5 and SHA-1 of the message, and MD4 and ed2k of the empty message because their updates are commented out |
| `ReadPlan.InRange` | `libfriidump/disc.c:1670-1675` | amounts outside the accepted ranges become -1 |
| `ReadPlan.Plan` | `libfriidump/disc.c:1534-1546` | the planning loop ends after at most 15 rounds, at the first product within 1 of a block boundary |
| `ReadPlan.PlanWastesLittle` | `libfriidump/disc.c:1534-1546` | the passes read the planned blocks and at most three sectors more |
| `Disc.Disc.SetReadMethod` | `libfriidump/disc.c:1430-1556` | the chosen method, and the plan for any amount; after init_range at least one block that fits the buffers is planned, before it none |
| `Cache.SlotsApart` | `libfriidump/disc.c:154` | blocks fewer than the cache size apart have different slots |
| `Cache.AddKeepsIntact` | `libfriidump/disc.c:150-172` | adding a block keeps every tag naming the block whose data its slot holds |
| `Cache.PassedOver` | `libfriidump/dumper.c:297-298` | damage to the sector just dumped is not seen from the next sector on |
| `Disc.Disc.constructor` | `libfriidump/disc.c:109-130` | an empty cache |
| `Disc.Disc.PatchRaw` | `libfriidump/disc.c:158-166` | the user data is copied into the raw block at 6, or at 12 for a DVD |
| `Disc.Disc.AddBlock` | `libfriidump/disc.c:150-172` | the block's slot holds its data and patched raw form, its tag names it, no other slot changes |
| `Disc.Disc.Lookup` | `libfriidump/disc.c:175-198` | hit exactly if the tag of the slot is the block |
| `Drive.Drive.MemDump` | `libfriidump/dvd_drive.h:59` | succeeds exactly if its command does; it then copies drive memory, else it may leave anything in its range |
| `Reads.PlanChunks` | `libfriidump/disc.c:215-224` | the chunks of a pass |
| `Reads.DumpChunks` | `libfriidump/disc.c:248-256` | succeeds exactly if all its commands do; the chunks leave the pass in order, all full-sized, so the last may run over the end |
| `Disc.Disc.StreamPasses` | `libfriidump/disc.c:232-270` | how many passes succeed and what commands they take; they stay inside the 4 MiB buffers and leave their frames contiguous although each overruns into the next |
| `Disc.Disc.UnscrambleAll` | `libfriidump/disc.c:277-282` | all blocks unscrambled, last first; succeeds exactly if every block unscrambles at its turn |
| `Disc.Disc.AddDescending` | `libfriidump/disc.c:287-293` | all blocks cached, last first: the requested block is present even if there are more blocks than slots |
| `Disc.Disc.TryStreaming` | `libfriidump/disc.c:231-294` | one of the first three tries: succeeds exactly if every pass does and every block unscrambles; unscrambles even if only the last pass failed |
| `Disc.Disc.TrySimple` | `libfriidump/disc.c:297-332` | the fourth and fifth try: succeeds exactly if read and dump do, the header is right and the block unscrambles |
| `Disc.Disc.ReadGeneric` | `libfriidump/disc.c:201-339` | the outcome of the five tries as the drive and the unscrambler answer; success means the requested block is present, and names the frames behind every block cached; failure leaves the cache alone |
| `Attempts.GenericWorks` | `libfriidump/disc.c:226-334` | on a working drive a read of a block of the disc succeeds, at the latest by the simple read of the fourth try |
| `Reads.HeadersApart` | `libfriidump/disc.c:490-505` | method 8: twelve and four bytes of every frame, dumped separately; the outcome, the commands used, and when to give up |
| `Reads.BlocksApartMeans` | `libfriidump/disc.c:490-505` | which is success exactly if all 32 commands of every block succeed |
| `Reads.HeadersOverlapping` | `libfriidump/disc.c:585-609` | method 9: sixteen bytes at a time carried over frames and blocks, with the same headers as method 8, by one command a frame and one more; the outcome, the commands used, and when to give up |
| `Reads.FillUserData` | `libfriidump/disc.c:611-617` | the frames rebuilt from headers and user data |
| `Disc.Disc.TryHitachi7` | `libfriidump/disc.c:400-433` | one try of method 7: when it succeeds, and that a failed dump gives up |
| `Disc.Disc.TryHitachi89` | `libfriidump/disc.c:465-540` | one try of methods 8 and 9, which differ only in how headers are dumped: when it succeeds and when it gives up |
| `Disc.Disc.AddAscending` | `libfriidump/disc.c:530-534` | five blocks cached first to last: the requested one stays because the cache has at least five slots |
| `Disc.Disc.ReadHitachi` | `libfriidump/disc.c:386-649` | the outcome of the tries as the drive and the unscrambler answer; success means the requested block is present if the sector is on the disc |
| `Attempts.PastEnd` | `libfriidump/disc.c:386-649` | past the end of the disc methods 7 to 9 succeed exactly if one of their five read commands does |
| `Disc.Disc.ReadSector` | `libfriidump/disc.c:701-734` | a miss fails exactly if the read does; the result points at the sector as last cached; the assertion fails exactly on a miss past the end of the disc that a read command of a Hitachi method answers |
| `Disc.PastEndAborts` | `libfriidump/disc.c:701-734` | and it does fail: on a drive that answers every command, for every sector past the end |
| `Attempts.ReadsWork` | `libfriidump/disc.c:201-649` | on a working drive every read at a block boundary of the disc succeeds, by every method, from any command and trial on |
| `Faithful.PassesAreFrames` | `libfriidump/disc.c:232-270` | on a drive whose memory holds as many frames as a pass reads, the passes deliver the sectors of the disc in order, up to its end |
| `Faithful.RebuiltAreFrames` | `libfriidump/disc.c:482-617` | and so do methods 8 and 9, if it holds the 80 frames of five blocks and hands over their user data |
| `Disc.Disc.FramesReadAreFrames` | `libfriidump/disc.c:201-649` | whatever the method, the frames behind a block that ends on the disc are those of the disc |
| `Disc.Disc.GenuineStays` | `libfriidump/disc.c:701-734` | for the blocks of the disc, reads at block boundaries cache only unscramblings of the disc's own frames |
| `Dumper.StartOf` | `libfriidump/dumper.c:84-91` | the start sector, in 32 bits, is a multiple of 16 and its sectors are all in the file |
| `Dumper.Dumper.SetRawOutputFile` | `libfriidump/dumper.c:64-103` | when it succeeds and where the dump can restart |
| `Dumper.Dumper.SetIsoOutputFile` | `libfriidump/dumper.c:106-145` | the same for the ISO file |
| `Dumper.Dumper.HashKept` | `libfriidump/dumper.c:180-188` | exactly the kept prefix of a file is hashed, and the assertion on the last read holds |
| `Dumper.Dumper.OpenOutput` | `libfriidump/dumper.c:176-199` | the file is cut to its kept prefix; the 32-bit seek offset does not matter |
| `Dumper.Dumper.Prepare` | `libfriidump/dumper.c:148-228` | starts at the smaller sector; a raw output that cannot be set up goes unreported if the ISO output can |
| `Dumper.Dumper.Output` | `libfriidump/dumper.c:276-316` | write before hash, SHA-1 last: files and hashes gain the sector, later sectors in both caches survive; after a raw write that fails the ISO sector is written but not hashed |
| `Dumper.Dumper.DumpSector` | `libfriidump/dumper.c:273-323` | one sector of the loop: it succeeds exactly if the sector is cached or its read succeeds, and every write is taken whole; every miss is at a block boundary |
| `Dumper.Dumper.NoneUnreadable` | `libfriidump/dumper.c:273-331` | a working drive has no unreadable block |
| `Dumper.Dumper.Dump` | `libfriidump/dumper.c:231-344` | each file gains the run of sectors read, in order, and of the next what a failing write took; a completed dump reports the checksums of the whole files, although hashing overwrites the cache, and a stopped one those of the sectors whose writes succeeded; it stops only at a block whose read fails or a sector whose write fails |
| `Resume.GenuineUnique` | `libfriidump/dumper.c:155-222` | two runs on one disc cache the same blocks |
| `Resume.ResumedDumpIsWhole` | `libfriidump/dumper.c:84-222` | what is kept of any partial files and what a resumed dump appends are together the whole dump |
| `Resume.ResumedPartIsPart` | `libfriidump/dumper.c:84-344` | and if the resumed dump stops, at a read or in the middle of a write, its files are again parts of the whole dump |
| `Friidump.DumpDisc` | `src/friidump.c:594-616` | whatever happens, partial files of a dump stay partial files of it, ready to be resumed; a dump that completes leaves the whole dump in them and reports its checksums; with a working drive it completes exactly if no file would be overwritten, the outputs can be set up and all writes are taken |
| `LiteOn.CopySector` | `libfriidump/lite-on.c:108-116` | row 0 is decoded in place, then twelve rows are copied without their parity |
| `LiteOn.Deinterleave` | `libfriidump/lite-on.c:87-118` | both offsets land on their totals; a break in the numbering ends the loop with -3 after the sectors before it |
| `LiteOn.DumpMemblock` | `libfriidump/lite-on.c:47-122` | all outcomes, and the output for each |
| `LiteOn.SectorsAt` | `libfriidump/lite-on.c:108-116` | byte 2064 s + 172 r + c of the output is byte c of row r of raw sector s, row 0 decoded |
| `LiteOn.LightDamageAbsent` | `libfriidump/lite-on.c:93-116` | one wrong byte anywhere in each row 0 leaves no trace in the sectors that are copied |
| `LiteOn.SequenceKeptIff` | `libfriidump/lite-on.c:93-106` | but the sequence check comes first: it passes exactly if the damage shifts all sector numbers alike |
| `LiteOn.BrokenAtFirstShift` | `libfriidump/lite-on.c:93-106` | if the first number is right, the dump ends before the first wrong number |
| `LiteOn.NumberDamageBreaks` | `libfriidump/lite-on.c:93-116` | one wrong byte in a later number, which the decoder would have repaired, ends the dump there |
| `LiteOn.NumberDamageExists` | `libfriidump/lite-on.c:93-106` | and there is such a recording |
| `Getopt.Exchange` | `src/getopt_long-win32.c:232-286` | ends, and exchanges the two parts in place |
| `Getopt.SwapTop` | `src/getopt_long-win32.c:248-263` | swapping the bottom part with the end of the top part leaves the same exchange to do |
| `Getopt.SwapBottom` | `src/getopt_long-win32.c:264-279` | likewise for a short top part |
| `Getopt.RotatedPermutes` | `src/getopt_long-win32.c:232-286` | nothing is lost |
| `Getopt.LookupMeans` | `src/getopt_long-win32.c:490-510` | an exact long name wins, the first if repeated; a prefix must be of one name only |
| `Getopt.Scanner.FindLong` | `src/getopt_long-win32.c:490-510` | the loop over the table |
| `Getopt.Scanner.DecodeLong` | `src/getopt_long-win32.c:473-596` | codes, argument and number of elements used, in every case |
| `Getopt.Scanner.Initialize` | `src/getopt_long-win32.c:289-322` | the ordering, and the option string that the first call goes on with |
| `Getopt.FirstCallAgrees` | `src/getopt_long-win32.c:306-321` | the first call knows the same options as later ones, but for the character that selected the ordering: to later calls it is an option, to the first only if it comes again |
| `Getopt.Scanner.DecodeShort` | `src/getopt_long-win32.c:600-668` | code, argument and number of elements used, in every case and for any option string |
| `Getopt.Scanner.Permuting` | `src/getopt_long-win32.c:397-413` | keeps the order of the indices and the partition of what has been scanned |
| `Getopt.Scanner.EndOptions` | `src/getopt_long-win32.c:419-430` | the element that ends the options joins them, everything after it is other |
| `Getopt.Scanner.GetoptInternal` | `src/getopt_long-win32.c:380-668` | one call keeps the invariant, permutes the arguments, makes progress, and at the end leaves the stable partition; without permuting it leaves the arguments alone |
| `Getopt.Scanner.ScanAll` | `src/friidump.c:343-347` | a whole run of calls ends with a permutation: options with their arguments first, the others behind, each in original order, optind at the first of them |
| `Getopt.PartitionPermutes` | `src/getopt_long-win32.c:397-446` | the partition loses nothing |

## Left out

- ReedSolomon.Codec.RsDecode: models no erasures (`no_eras` 0), the only way the repository calls it; the unused erasure set-up of lambda is not part of the model.
- DecoderSpec.RestoredIff: for three to five errors the condition is stated on the arguments of the lookups, not as a closed formula in the error values, because the code gives none simpler.
- ReedSolomon.Modnn: models the shift by 255 as 0, because C does not define it.
- Sha1.Context.Update: does not model lengths within 63 of 2^32, where the sum of lengths in the code wraps.
- Sha1.NextWord: the unrolled macros are one loop over groups of five steps, as are those of MD4 and MD5 over groups of four.
- Multihash.Multihash.Update: does not model negative counts, which no caller passes, nor the hexadecimal strings that are printed.
- Disc.Disc.ReadSector: does not model sector numbers from 0xf0000000 on, where block arithmetic in 32 bits would wrap; discs have under 5 million sectors.
- Disc.Disc.AddBlock: the separately allocated cache slots are consecutive parts of two arrays, so the model does not capture that slots are separate objects.
- Disc.Disc.Unscramble16: the cipher, its seed cache and the error-detecting code stay abstract, because only their outcome matters to the cache.
- Drive.Drive.ReadInto: SCSI commands, sense data, speeds and the vendor-specific memory dumps are foreign calls, modelled as outcomes and memory contents.
- Dumper.Dumper.Dump: models writes that take effect when made, so not the buffering of the C library, one dump per disc object, and no progress calls or flushing; a second dump on the same object could meet cache contents that hashing has overwritten.
- LiteOn.DumpMemblock: the command's data is a parameter; its command block and the outer loop over blocks are left out.
- Getopt.Scanner.GetoptInternal: models `long_only` 0, as `getopt_long` calls it, and leaves out the error messages.
- Disc analysis, maker and region tables, disc-type detection, HMAC, file hashing helpers, progress display, the graphical front end and platform layers: tables, devices or user interface.
