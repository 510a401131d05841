# A verified model of the CPU miner's core

The repository is a Stratum mining pool with its CPU miner in `cpuminer-multi/`. This project models
the parts of the miner where fast or in-place code has to agree with a short definition, and where
several threads share one search space, and proves that they do, for every input, length, parameter
or run. `dafny verify dfyconfig.toml` checks everything.

| module | what it models |
|---|---|
| `Words`, `WordBits`, `Bytes`, `Limbs`, `BitOps` | 32-bit words as numbers and as bit patterns, byte strings and multi-limb numbers, C's `&` and `\|` on integers |
| `Sha256`, `MiningKernel`, `ScanHash` | SHA-256 (FIPS 180-4), the nonce loop's hoisted and truncated double hash, and the nonce search |
| `Sha256Message`, `Sha256Stream`, `Sha256OneShot` | padding and parsing, the incremental SHA-256 of scrypt-jane, the one-shot `sha256d`, the proof-of-work rule on bytes |
| `Sha256Example`, `SalsaExample`, `AesExample` | the worked examples and the algebra the standards publish for these functions |
| `WorkDistribution`, `WorkCoverage` | job notifications, work generation, acquire-or-advance, scanning, for any number of threads: what is never tested twice, and what is tested |
| `Merkle`, `CoinbaseHeight`, `Base58` | Merkle roots and branches, the BIP 34 height in the coinbase, address decoding |
| `RingList`, `ThreadQueue` | the intrusive list of `elist.h` and the queue between threads built on it |
| `Scrypt`, `Salsa` | ChunkMix and ROMix against RFC 7914, and the tangled SSE2 layout |
| `Lyra2` | the rows Lyra2's Setup and Wandering phases visit |
| `AesTables`, `Aes`, `OpenAes`, `AesRounds` | AES (FIPS 197), OpenAES messages in ECB and CBC mode, the T-table round |
| `Blake2s` | the lazy buffering of BLAKE2s against RFC 7693 |
| `BaseUint`, `BaseUintShift`, `BaseUintHex` | `base_uint` arithmetic, shifts and hexadecimal text, for every width |

Results that the code does not meet everywhere are stated as equivalences: which heights
`getblocheight` recovers (`ReadBuilt`), which buffer sizes `b58dec` uses fully (`LimitIsBuffer`),
which options OpenAES can decrypt again (`EncryptionRoundTrip`), which step sizes visit every Lyra2
row (`OrbitVisitsAll`, `PassCoversRows`), when extra data in the coinbase script are a push of their
own (`ScriptPushes`), and when an exhausted miner thread stays inside its slice (`ExhaustedThread`).

Definitions that the code shares with its specification are tied to something else that fixes them:
the round functions, tables and constants of SHA-256, Salsa20/8 and AES to the published examples and
to the field arithmetic behind the tables; scryptBlockMix, scryptROMix, CBC and the BLAKE2s calls to
their block-by-block descriptions; the byte swap to the order of the numbers it is used for; script,
digit and hexadecimal texts to readers of their own.

Where code and intent differ, the model follows the code. The work comparison at
`cpuminer-multi/cpu-miner.c:1804-1807` reads as "the headers differ, or, with JSON-RPC 2, these bytes
differ"; by C precedence the conditional takes the whole disjunction as its condition, so only header
bytes 43..75 decide (`ComparedBytes`, `NewBlockMissed`).

The theorems about whole runs, `NoTripleTestedTwice` and those of `WorkCoverage`, hold under these
hypotheses, which are the guards in `Enabled` and the preconditions of the theorems: a replaced job id is not announced again; a repeated
job id keeps the layout of the coinbase; the extranonce2 odometer does not wrap within a job; a work
regenerated by an exhausted thread differs from the thread's own in header bytes 43..75; the
`opt_randomize` option and JSON-RPC 2 are off; and `0xffffffff / n_threads > 0x20`.

## Model

| member | source | states |
|---|---|---|
| `Sha256.BooleanForms` | cpuminer-multi/algo/sha2.c:48-49 | the shortened Ch and Maj of both SHA-256 implementations are the functions of FIPS 180-4, section 4.1.2 |
| `Sha256.MajorityRound` | cpuminer-multi/algo/sha2.c:57-64 | where two of a, b and c agree, the round adds their common value to the rotations of a |
| `Sha256.RoundsSplit` | cpuminer-multi/algo/sha2.c:244-251 | running rounds lo..mid and then mid..hi is running lo..hi, which is what lets three rounds be hoisted |
| `Sha256.RotatedRound` | cpuminer-multi/algo/sha2.c:57-72 | writing only the slots of d and h, with rotated indices, is one step of the standard's shift register |
| `Sha256.Mix` | cpuminer-multi/algo/sha2.c:67-72 | the in-place rotating rounds lo..hi compute the standard's rounds and touch nothing behind the eight words |
| `Sha256.Transform` | cpuminer-multi/algo/sha2.c:80-175 | the chaining value becomes the FIPS 180-4 section 6.2.2 compression of the (optionally byte-swapped) block |
| `Sha256Example.AbcRounds` | cpuminer-multi/algo/sha2.c:80-175 | the 64 rounds of the example "abc" of FIPS 180-4 go through its published working variables |
| `Sha256Example.AbcHash` | cpuminer-multi/algo/sha2.c:80-175 | the hash of "abc" is the published ba7816bf ... f20015ad |
| `MiningKernel.PreExtend` | cpuminer-multi/algo/sha2.c:224-242 | leaves the block alone and stores the nonce-independent part of the schedule |
| `MiningKernel.PreExtendedIgnoresNonce` | cpuminer-multi/algo/sha2.c:224-242 | the hoisted words stay right whatever nonce is written into word 3 |
| `MiningKernel.PreHash` | cpuminer-multi/algo/sha2.c:244-251 | the hoisted state is the midstate after three rounds, in rotated order |
| `MiningKernel.PreHashedIgnoresNonce` | cpuminer-multi/algo/sha2.c:244-251 | those three rounds do not read the nonce |
| `MiningKernel.PatchSchedule` | cpuminer-multi/algo/sha2.c:275-293 | adding the nonce's terms to the hoisted words, with all terms dropped that padding makes zero, gives the full 64-word schedule |
| `MiningKernel.FirstHash` | cpuminer-multi/algo/sha2.c:295-360 | continuing at round 3 from the hoisted state is the whole compression of the second header block |
| `MiningKernel.LastWord` | cpuminer-multi/algo/sha2.c:455-458 | word 7 after 64 rounds is already determined by four half rounds after round 56 |
| `MiningKernel.SecondHash` | cpuminer-multi/algo/sha2.c:371-458 | the truncated second hash has the right word 7 |
| `MiningKernel.DoubleHashWord7` | cpuminer-multi/algo/sha2.c:259-459 | for every nonce word 7 is that of the plain double hash, and the schedule buffer is restored for the next call |
| `ScanHash.FullTest` | cpuminer-multi/util.c:968-985 | answers exactly whether the 256-bit hash is at most the target |
| `ScanHash.FilterIsSound` | cpuminer-multi/algo/sha2.c:637-647 | a nonce rejected on word 7 alone is no solution |
| `ScanHash.HeaderHash` | cpuminer-multi/algo/sha2.c:183-196 | the plain double hash of the padded header, byte-swapped |
| `ScanHash.HeaderPadded` | cpuminer-multi/cpu-miner.c:1585-1586 | every header of 20 words with the padding written behind it is a padded header |
| `ScanHash.TryNonce` | cpuminer-multi/algo/sha2.c:635-636 | one kernel call gives word 7 of this nonce's double hash and keeps what the next call needs |
| `ScanHash.Scan` | cpuminer-multi/algo/sha2.c:604-653 | the nonce left behind is the first solution from the start if it says found; otherwise none of the nonces up to it is a solution, and bound or restart ended the search; no other header word changes |
| `ScanHash.ScanLanes` | cpuminer-multi/algo/sha2.c:468-530 | the same for groups of any number of lanes; fewer than that many nonces past the bound are tested |
| `Sha256Stream.Step` | cpuminer-multi/scryptjane/scrypt-jane-hash_sha256.h:33-43 | moving all eight variables is the standard's round |
| `Sha256Stream.State.Blocks` | cpuminer-multi/scryptjane/scrypt-jane-hash_sha256.h:45-60 | compresses exactly the given blocks in order and counts their bits modulo 2^64 |
| `Sha256Stream.State.Update` | cpuminer-multi/scryptjane/scrypt-jane-hash_sha256.h:76-104 | the state depends only on the concatenation of everything absorbed |
| `Sha256Stream.State.Finish` | cpuminer-multi/scryptjane/scrypt-jane-hash_sha256.h:106-130 | the result is the digest of the absorbed message padded by FIPS 180-4, section 5.1.1 |
| `Sha256Stream.HashPieces` | cpuminer-multi/scryptjane/scrypt-jane-hash_sha256.h:62-130 | for every way of cutting a message up, the digest is that of the whole message |
| `Sha256Message.HashBlocksJoin` | cpuminer-multi/scryptjane/scrypt-jane-hash_sha256.h:45-60 | hashing whole blocks and then more is hashing their concatenation |
| `Sha256Message.PadLayout` | cpuminer-multi/scryptjane/scrypt-jane-hash_sha256.h:106-130 | the message, 0x80, zeros up to the last eight bytes, and the length field |
| `Sha256OneShot.LengthFieldValue` | cpuminer-multi/scryptjane/scrypt-jane-hash_sha256.h:106-130 | the length field is the length in bits modulo 2^64, most significant byte first |
| `Sha256OneShot.LoadBlock` | cpuminer-multi/algo/sha2.c:204-216 | each iteration gathers exactly the next block of the padded message, and the loop's bound ends after the last one |
| `Sha256OneShot.DoubleDigest` | cpuminer-multi/algo/sha2.c:198-222 | for every message below 2^28 bytes: the digest of the digest, so the streaming hash applied twice |
| `Sha256OneShot.HeaderDigest` | cpuminer-multi/algo/sha2.c:183-196 | the double hash the nonce search is about is SHA-256 applied twice to the header's 80 bytes |
| `Sha256OneShot.SwappedLimbs` | cpuminer-multi/algo/sha2.c:183-196 | limbs made of byte-swapped words hold the number whose little-endian bytes the words are |
| `Sha256OneShot.ProofOfWork` | cpuminer-multi/util.c:968-985 | a nonce solves a header exactly if the double SHA-256 of its 80 bytes, read as a little-endian number, is at most the target |
| `WordBits.NumOfReversed` | cpuminer-multi/algo/sha2.c:88-92 | reversing the bytes of a bit pattern swaps those of its number |
| `WorkDistribution.IncrementAddsOne` | cpuminer-multi/cpu-miner.c:1570-1572 | the extranonce2 odometer is little-endian addition of one, wrapping only from all 255 |
| `WorkDistribution.IncrementInPlace` | cpuminer-multi/cpu-miner.c:1570-1572 | the loop performs that increment on the job's buffer |
| `WorkDistribution.SlicesDisjoint` | cpuminer-multi/cpu-miner.c:1812 | no nonce belongs to the slices of two threads |
| `WorkDistribution.InvNotify` | cpuminer-multi/util.c:1938-1955 | a notification keeps the invariant; the odometer restarts only with a new job id |
| `WorkDistribution.InvGenerate` | cpuminer-multi/cpu-miner.c:1538-1591 | generating work keeps the invariant: generations are pairwise distinct |
| `WorkDistribution.InvAcquire` | cpuminer-multi/cpu-miner.c:1759-1826 | the critical section of a miner thread keeps the invariant, with or without regenerating the work |
| `WorkDistribution.InvTest` | cpuminer-multi/cpu-miner.c:1879-1891 | testing one more nonce keeps the invariant |
| `WorkDistribution.InvStep` | cpuminer-multi/cpu-miner.c:1759-1891 | every step of every thread and of the stratum thread keeps the invariant |
| `WorkDistribution.InvAlways` | cpuminer-multi/cpu-miner.c:1759-1891 | the invariant holds in every reachable state |
| `WorkDistribution.NoTripleTestedTwice` | cpuminer-multi/cpu-miner.c:1759-1891 | in every run of any number of threads no (job id, extranonce2, nonce) is tested twice, and each thread tests only nonces of its own slice |
| `WorkDistribution.LanesNeverWrap` | cpuminer-multi/cpu-miner.c:1673 | the margin of 0x20 keeps every scan of up to 32 lanes inside the thread's slice and inside 32 bits |
| `WorkCoverage.SlicesCover` | cpuminer-multi/cpu-miner.c:1812 | a nonce lies in exactly one slice exactly if it is below the end of the last one, and fewer than n_threads nonces are not |
| `WorkCoverage.EveryNonceCovered` | cpuminer-multi/cpu-miner.c:1759-1891 | in every run each nonce from the start of a thread's slice to the place it has reached has been tested by it in this work, or was taken while it was not scanning |
| `WorkCoverage.EveryNonceTested` | cpuminer-multi/cpu-miner.c:1759-1891 | when every work has a version and every thread may mine, all of them have been tested |
| `WorkCoverage.EveryNonceReachable` | cpuminer-multi/cpu-miner.c:1759-1891 | every run can be continued with a new job so that any chosen thread tests any chosen nonce of its slice that is not among the last 32 - lanes |
| `WorkCoverage.ReplacedWhenExhausted` | cpuminer-multi/cpu-miner.c:1769-1780 | a thread that has work makes the shared work be replaced only after covering all its slice but the last 31 nonces |
| `WorkCoverage.WorksInTurn` | cpuminer-multi/cpu-miner.c:1538-1591 | in every run the works of a job take the extranonce2 values 0, 1, 2, ... in turn |
| `WorkDistribution.ComparedBytes` | cpuminer-multi/cpu-miner.c:1804-1807 | works count as different exactly when header bytes 43..75 differ |
| `WorkDistribution.NewBlockMissed` | cpuminer-multi/cpu-miner.c:1804-1818 | a header that differs only in the previous-block hash makes the thread go on with its old work |
| `WorkDistribution.ExhaustedThread` | cpuminer-multi/cpu-miner.c:1769-1818 | an exhausted thread stays within its bound after regenerating if and only if the new header differs from its own in bytes 43..75 |
| `Merkle.RootInPlace` | cpuminer-multi/cpu-miner.c:823-834 | stays within the allocation, terminates, and leaves the recursive duplicate-last root in entry 0 |
| `Merkle.OddLevel` | cpuminer-multi/cpu-miner.c:827-828 | a list of odd length has the root of the list with its last leaf repeated |
| `Merkle.RootOfHalves` | cpuminer-multi/cpu-miner.c:823-834 | the root over two halves of 2^k leaves is the hash of their roots |
| `Merkle.BranchIgnoresLeaf` | cpuminer-multi/cpu-miner.c:1560-1568 | the leftmost branch does not depend on the coinbase |
| `Merkle.FoldIsRoot` | cpuminer-multi/cpu-miner.c:1560-1568 | folding the coinbase hash with the leftmost branch gives the root of the whole tree |
| `Merkle.StratumRoot` | cpuminer-multi/cpu-miner.c:1560-1568 | the Stratum loop computes the same root as the tree loop |
| `CoinbaseHeight.PushHeight` | cpuminer-multi/cpu-miner.c:720-727 | pushes the minimal little-endian script number of the height |
| `CoinbaseHeight.HeightIsMinimal` | cpuminer-multi/cpu-miner.c:720-727 | the number is the height, its sign bit is clear and no byte could be left out |
| `CoinbaseHeight.Build` | cpuminer-multi/cpu-miner.c:714-797 | the coinbase is that of the script with every piece appended that fits, and the script length is at most 100 |
| `CoinbaseHeight.KeptFits` | cpuminer-multi/cpu-miner.c:745-781 | the data kept are the pieces in order, each left out exactly if it would take the script past 100 bytes |
| `CoinbaseHeight.ScriptPushes` | cpuminer-multi/cpu-miner.c:782-796 | a reader of script pushes finds the height and then the extra data if and only if there are any and fewer than 76 bytes are used with them or 100 with two bytes more |
| `CoinbaseHeight.GetBlockHeight` | cpuminer-multi/util.c:1826-1856 | finds the first run of 0xff from byte 32 on and reads the number behind the length byte, or answers 0 |
| `CoinbaseHeight.ReadBuilt` | cpuminer-multi/util.c:1826-1856 | from a coinbase built here, after any appends, the height read is the height written if and only if that is at least 0x80 or the byte behind it is zero |
| `CoinbaseHeight.SmallHeightsMisread` | cpuminer-multi/util.c:1843-1845 | without appended data every height below 0x80 is read 0xff00 too large |
| `Base58.MulAddInPlace` | cpuminer-multi/util.c:827-832 | the inner loop is the limbwise multiply-add with carry |
| `Base58.MulAddValue` | cpuminer-multi/util.c:827-832 | that multiply-add computes 58 times the number plus the digit |
| `Base58.IndexIsCodeValue` | cpuminer-multi/util.c:806 | the digit of a character is given by its code: digits but 0, capitals but I and O, small letters but l |
| `Base58.MaskTest` | cpuminer-multi/util.c:833-834 | the mask test is the bound on the top limb |
| `Base58.LimitIsBuffer` | cpuminer-multi/util.c:814-816 | the accepted numbers are those that fit the buffer exactly when its size is not a multiple of four; otherwise four bytes less |
| `Base58.Decode` | cpuminer-multi/util.c:808-860 | fails exactly on a bad digit or a number too large, and otherwise writes the base-58 number big-endian |
| `Base58.Check` | cpuminer-multi/util.c:862-879 | -1 for a bad checksum, -3 for a wrong number of leading ones, the version byte otherwise |
| `Base58.AcceptedStringsUnique` | cpuminer-multi/util.c:862-914 | no two different accepted strings decode to the same bytes |
| `Base58.EveryBytesSpelled` | cpuminer-multi/util.c:808-879 | every byte string has a base-58 string with its number and its number of leading zeros |
| `RingList.ListAdd` | cpuminer-multi/elist.h:51-55 | inserts the node right after the head of the ring |
| `RingList.ListAddTail` | cpuminer-multi/elist.h:64-67 | inserts the node right before the head |
| `RingList.ListDel` | cpuminer-multi/elist.h:87-92 | the ring without the node; the node's pointers are cleared |
| `RingList.ListDelInit` | cpuminer-multi/elist.h:98-102 | the ring without the node, and the node as a ring of its own |
| `RingList.ListMove` | cpuminer-multi/elist.h:109-113 | takes the node out of one ring and puts it first into another |
| `RingList.ListMoveToFront` | cpuminer-multi/elist.h:109-113 | the same within one ring: a rotation of its front part |
| `RingList.ListMoveTail` | cpuminer-multi/elist.h:120-125 | takes the node out of one ring and puts it last into another |
| `RingList.ListMoveToBack` | cpuminer-multi/elist.h:120-125 | the same within one ring: the node becomes the last |
| `RingList.Splice` | cpuminer-multi/elist.h:136-148 | joins the members of one ring behind the head of another |
| `RingList.ListSpliceInit` | cpuminer-multi/elist.h:168-175 | the same, and the emptied list is a ring of its head; nothing happens for an empty list |
| `ThreadQueue.PoppedInOrder` | cpuminer-multi/util.c:2401-2481 | under every interleaving of push, pop, freeze and thaw the items popped followed by those queued are the accepted pushes in order |
| `ThreadQueue.EmptyMeansDrained` | cpuminer-multi/util.c:2451-2481 | the popped items are a prefix of the accepted ones, and a pop finds nothing exactly when all have been popped |
| `ThreadQueue.ThreadQ.PushItem` | cpuminer-multi/util.c:2421-2449 | refused while frozen, appended otherwise |
| `ThreadQueue.ThreadQ.PopItem` | cpuminer-multi/util.c:2451-2481 | takes the first entry, if there is one |
| `ThreadQueue.ThreadQ.FreezeThaw` | cpuminer-multi/util.c:2401-2419 | changes the flag and no entry |
| `Scrypt.IndexByMask` | cpuminer-multi/scryptjane/scrypt-jane-romix-template.h:91-92 | masking the first word of the last block is Integerify modulo N |
| `Scrypt.IntegerifyLow` | cpuminer-multi/scryptjane/scrypt-jane-romix-template.h:91-92 | Integerify modulo 2^32 is word 0 of the last block |
| `Scrypt.AllPlaced` | cpuminer-multi/scryptjane/scrypt-jane-romix-template.h:52-54 | placing even outputs in the first and odd ones in the second half is scryptBlockMix of RFC 7914, section 4 |
| `Scrypt.BlockMixChain` | cpuminer-multi/scryptjane/scrypt-jane-romix-template.h:20-57 | each block of scryptBlockMix comes from mixing the one before it with the next input block, the first one from the last input block |
| `Scrypt.ChunkMix` | cpuminer-multi/scryptjane/scrypt-jane-romix-template.h:20-57 | writes scryptBlockMix of Bin, or of Bin xor Bxor, and nothing else, for every r |
| `Scrypt.FillTable` | cpuminer-multi/scryptjane/scrypt-jane-romix-template.h:80-86 | V filled in place holds the iterates of BlockMix |
| `Scrypt.RoMixInPlace` | cpuminer-multi/scryptjane/scrypt-jane-romix-template.h:70-108 | X becomes scryptROMix of RFC 7914, section 5, for every r and every power of two N > 1 |
| `Scrypt.RoMixTrace` | cpuminer-multi/scryptjane/scrypt-jane-romix-template.h:70-108 | any sequence of chunks that follows the steps of scryptROMix ends in its result |
| `Scrypt.TraceExists` | cpuminer-multi/scryptjane/scrypt-jane-romix-template.h:70-108 | there is such a sequence for every input |
| `Salsa.TangleInvolution` | cpuminer-multi/scryptjane/scrypt-jane-mix_salsa-sse2.h:429-441 | the tangling undoes itself |
| `Salsa.TangleInPlace` | cpuminer-multi/scryptjane/scrypt-jane-mix_salsa-sse2.h:429-441 | the swaps tangle every block of the chunk |
| `Salsa.DoubleRoundConjugate` | cpuminer-multi/scryptjane/scrypt-jane-mix_salsa-sse2.h:323-386 | the SIMD double round on a tangled block is the tangled scalar double round |
| `Salsa.CoreConjugate` | cpuminer-multi/scryptjane/scrypt-jane-mix_salsa.h:11-67 | the SSE2 core is the basic Salsa20/8 core conjugated by the tangling |
| `SalsaExample.CoreOfExample` | cpuminer-multi/scryptjane/scrypt-jane-mix_salsa.h:11-67 | the core maps the input of section 8 of RFC 7914 to its output |
| `Salsa.TangledBlockMix` | cpuminer-multi/scryptjane/scrypt-jane-mix_salsa-sse2.h:280-402 | BlockMix with the SSE2 core on tangled data is tangled BlockMix |
| `Salsa.TangledRoMix` | cpuminer-multi/scryptjane/scrypt-jane-romix-template.h:70-108 | tangling, ROMix with the SSE2 core and untangling is ROMix with the basic core |
| `Salsa.RoMixSse2` | cpuminer-multi/scryptjane/scrypt-jane-romix-template.h:70-108 | the in-place tangled ROMix computes the basic scryptROMix, for every r and every power of two N > 1 |
| `Lyra2.OddCancels` | cpuminer-multi/lyra2/Lyra2.c:153-172 | an odd factor can be cancelled from divisibility by a power of two |
| `Lyra2.OrbitVisitsAll` | cpuminer-multi/lyra2/Lyra2.c:153-172 | among 2^k rows a step visits each exactly once if and only if it is odd (or there is one row) |
| `Lyra2.Setup` | cpuminer-multi/lyra2/Lyra2.c:153-172 | for every nRows >= 3: row* is always an initialised row other than prev and row, each complete window revisits each of its rows once, and every row, prev and row* has the closed form of `SetupRows` |
| `Lyra2.PassCoversRows` | cpuminer-multi/lyra2/Lyra2.c:176-200 | a pass covers all rows exactly except with two rows and odd tau |
| `Lyra2.WanderRows` | cpuminer-multi/lyra2/Lyra2.c:176-200 | the rows of a pass in closed form, for both parities of tau |
| `Lyra2.WanderPass` | cpuminer-multi/lyra2/Lyra2.c:345-372 | a pass ends after exactly nRows steps, having visited every row once, with row* the selected word modulo nRows |
| `Lyra2.Wander` | cpuminer-multi/lyra2/Lyra2.c:176-200 | so does every pass, for every power of two of at least four rows and every time cost |
| `AesTables.SubInverse` | cpuminer-multi/crypto/oaes_lib.c:122-160 | the two substitution tables are inverse |
| `AesTables.InvSubInverse` | cpuminer-multi/crypto/oaes_lib.c:122-160 | and the other way round |
| `AesExample.SubIsInverse` | cpuminer-multi/crypto/oaes_lib.c:122-140 | the substitution is the affine transformation of the inverse in GF(2^8) |
| `AesExample.GfMulIsProduct` | cpuminer-multi/crypto/oaes_lib.c:162-280 | the products by 2, 3, 9, 11, 13 and 14 are those modulo x^8 + x^4 + x^3 + x + 1 |
| `AesExample.ShiftRowsTurns` | cpuminer-multi/crypto/oaes_lib.c:340-361 | row r is turned by r columns |
| `AesTables.InverseRow` | cpuminer-multi/crypto/oaes_lib.c:391-462 | the product of the two mixing matrices over GF(2^8), one row |
| `Aes.MixColumnsInverse` | cpuminer-multi/crypto/oaes_lib.c:424-462 | the column mixings are inverse |
| `Aes.SubShiftInverse` | cpuminer-multi/crypto/oaes_lib.c:340-389 | substitution and row shift are undone by their inverses in the order the decryption applies them |
| `Aes.EncryptBlock` | cpuminer-multi/crypto/oaes_lib.c:977-1092 | the loop over the round keys is the cipher of FIPS 197, section 5.1 |
| `Aes.DecryptBlock` | cpuminer-multi/crypto/oaes_lib.c:1094-1208 | the loop over the round keys is the inverse cipher of section 5.3 |
| `Aes.RoundsInverse` | cpuminer-multi/crypto/oaes_lib.c:1094-1208 | undoing any number of middle rounds |
| `Aes.CipherInverse` | cpuminer-multi/crypto/oaes_lib.c:977-1208 | decryption undoes encryption for every expanded key and block |
| `Aes.CipherForward` | cpuminer-multi/crypto/oaes_lib.c:977-1208 | encryption undoes decryption |
| `AesExample.CipherTrace` | cpuminer-multi/crypto/oaes_lib.c:977-1092 | states that follow each other by rounds with the next key lead to the ciphertext |
| `AesExample.FirstRound` | cpuminer-multi/crypto/oaes_lib.c:1012-1056 | the first round of the example in appendix B of FIPS 197 |
| `AesExample.LastRound` | cpuminer-multi/crypto/oaes_lib.c:1059-1079 | the last round of that example |
| `OpenAes.UnpadPadded` | cpuminer-multi/crypto/oaes_lib.c:1210-1406 | removing the 1, 2, 3, ... padding returns the message for every length |
| `OpenAes.PaddedUnpadded` | cpuminer-multi/crypto/oaes_lib.c:1210-1406 | what unpadding accepts is the padding of what it returns |
| `OpenAes.DecipherEnciphered` | cpuminer-multi/crypto/oaes_lib.c:1210-1406 | ECB or CBC chaining with any invertible block function can be undone |
| `OpenAes.BlockByBlock` | cpuminer-multi/crypto/oaes_lib.c:1210-1280 | ECB encrypts each block for itself, CBC each block xored with the ciphertext block before it, the first one with the vector |
| `OpenAes.ModeByOption` | cpuminer-multi/crypto/oaes_lib.c:1240-1280 | bit 1 of the options selects CBC for every block behind header and vector |
| `OpenAes.NextIvIs` | cpuminer-multi/crypto/oaes_lib.c:1210-1280 | the vector left behind is the last ciphertext block in CBC mode and the old one in ECB mode |
| `OpenAes.EncryptionRoundTrip` | cpuminer-multi/crypto/oaes_lib.c:1210-1406 | decrypting an encrypted message returns it, for every key, vector and length, if and only if the options select exactly one of ECB and CBC |
| `OpenAes.DecryptedExactly` | cpuminer-multi/crypto/oaes_lib.c:1282-1406 | decryption returns m if and only if its input is, apart from the reserved bytes, an encryption of m in ECB or CBC mode |
| `OpenAes.Context.Encrypt` | cpuminer-multi/crypto/oaes_lib.c:1210-1280 | header, vector and chained ciphertext; in CBC mode the context's vector moves on to the last block |
| `OpenAes.Context.Decrypt` | cpuminer-multi/crypto/oaes_lib.c:1282-1406 | the message, or the error for a bad length, buffer, header or padding |
| `AesRounds.F2Doubles` | cpuminer-multi/crypto/aesb.c:124-127 | the table generator's doubling is doubling in GF(2^8) |
| `AesRounds.TableColumn` | cpuminer-multi/crypto/aesb.c:114-117 | four table entries xored are a substituted and mixed column |
| `AesRounds.TableRoundIsRound` | cpuminer-multi/crypto/aesb.c:51-55 | the T-table round is SubBytes, ShiftRows, MixColumns, AddRoundKey for every state and key |
| `AesRounds.PseudoEncrypt` | cpuminer-multi/crypto/oaes_lib.c:1409-1459 | ten full rounds |
| `AesExample.FullRoundsAreRounds` | cpuminer-multi/crypto/oaes_lib.c:1409-1459 | full rounds are the rounds of the cipher |
| `AesRounds.PseudoRoundMut` | cpuminer-multi/crypto/aesb.c:152-165 | the ping-pong between two buffers computes the same ten rounds, so the two files agree |
| `Blake2s.CounterStep` | cpuminer-multi/crypto/blake2s.c:70-75 | the two-word counter carries exactly when the low word wraps |
| `Blake2s.State.Update` | cpuminer-multi/crypto/blake2s.c:270-298 | the state depends only on what was absorbed; a full buffer is compressed only when more input follows |
| `Blake2s.State.Final` | cpuminer-multi/crypto/blake2s.c:300-322 | the compressions made are those of RFC 7693, section 3.3, for every length including none and exact multiples |
| `Blake2s.CallsLayout` | cpuminer-multi/crypto/blake2s.c:270-322 | call by call: the next 64 bytes, the bytes so far, and the flag, zeros and full count at the last one only |
| `Blake2s.HashPieces` | cpuminer-multi/crypto/blake2s.c:270-322 | for every way of cutting a message up, blocks, counters and final flag are those of the whole message |
| `Blake2s.HashKeyed` | cpuminer-multi/crypto/blake2s.c:177-207 | with a key, those of the zero-padded key block followed by the message |
| `BaseUint.AddAssign` | cpuminer-multi/uint256.h:148-158 | addition modulo 2^BITS |
| `BaseUint.SumValue` | cpuminer-multi/uint256.h:148-158 | limbwise addition with carry adds the numbers modulo 2^BITS |
| `BaseUint.SubtractAssign` | cpuminer-multi/uint256.h:160-164 | subtraction modulo 2^BITS |
| `BaseUint.Negate` | cpuminer-multi/uint256.h:50-57 | negation modulo 2^BITS |
| `BaseUint.Increment` | cpuminer-multi/uint256.h:183-190 | adds one modulo 2^BITS |
| `BaseUint.Decrement` | cpuminer-multi/uint256.h:200-207 | subtracts one modulo 2^BITS |
| `BaseUint.Less` | cpuminer-multi/uint256.h:218-228 | numeric order |
| `BaseUint.LessOrEqual` | cpuminer-multi/uint256.h:230-240 | numeric order |
| `BaseUint.Equal` | cpuminer-multi/uint256.h:266-272 | numeric equality |
| `BaseUintShift.ShiftLeft` | cpuminer-multi/uint256.h:114-129 | multiplication by 2^shift modulo 2^BITS, for every shift |
| `BaseUintShift.ShiftRight` | cpuminer-multi/uint256.h:131-146 | floor division by 2^shift, for every shift |
| `BaseUintHex.GetHex` | cpuminer-multi/uint256.h:298-304 | the bytes from the most significant down, two digits each |
| `BaseUintHex.HexValue` | cpuminer-multi/uint256.h:298-304 | the text denotes the number |
| `BaseUintHex.SetHex` | cpuminer-multi/uint256.h:306-336 | the number denoted by the digits after optional spaces and 0x, modulo 2^BITS |
| `BaseUintHex.DigitsOf` | cpuminer-multi/uint256.h:306-336 | of spaces, an optional 0x, digits and a rest, the digits are used and nothing else |
| `BaseUintHex.HexDigitIs` | cpuminer-multi/uint256.h:298-336 | digits print as 0-9a-f and are read in either case |
| `BaseUintHex.HexRoundTrip` | cpuminer-multi/uint256.h:298-336 | reading back the printed text returns the number |
| `BaseUintHex.ByteViewValue` | cpuminer-multi/uint256.h:298-336 | the bytes of the limbs hold the same number as the limbs |

## Left out

- Networking, JSON, logging, options, the API server, system information and the TypeScript services: I/O and wiring.
- Floating-point difficulty code (`diff_to_target`, `target_to_diff`, `calc_network_diff`, `getdouble`).
- JSON-RPC 2 and getwork paths, `opt_randomize`, time limits, waiting and hash-rate bookkeeping: scan bounds are arbitrary up to end_nonce, and the restart flag is an arbitrary function of the nonce.
- The condition under which the stratum thread generates work (no work yet, or a new job id): the model lets it generate at any time, which allows more runs.
- The vector kernels `sha256d_ms_4way` and `_8way` are not C: a lane is taken to deliver word 7 of its nonce's double hash.
- Macro-unrolled rounds and schedule words (sha2.c, salsa cores) are written as loops or functions over the same steps in the same order.
- The work distribution protocol is a state machine on values whose steps are the critical sections; the locks themselves are not modelled.
- Salsa20/8 cores and AES blocks are functions on values: updating sixteen locals or sixteen bytes in place is not modelled, ChunkMix, ROMix, tangling, encryption and decryption loops are.
- Multiplication tables of OpenAES are represented by the field product they tabulate, and substitution tables by their 256 values as nested selections.
- Key expansion, random keys and vectors, NULL arguments and the buffer-length negotiation of OpenAES; a flagged message without any block, for which the source reads in front of its buffer, is answered with a header error.
- ROMix for N = 1 or N not a power of two, which RFC 7914 excludes.
- Lyra2's sponge and BLAKE2s' compression function: their inputs (rows, blocks, counters) are what is proved.
- ScanHash.Scan: hashes_done is stated modulo 2^32, as the source computes it in 32 bits, so a scan of all 2^32 nonces reports 0.
- CoinbaseHeight.Build: heights 1 to 0x7fffffff, the range of the source's signed loop variable; pieces are the signature and those auxiliary strings that precede the first malformed one.
- Base58.AcceptedStringsUnique: only for results that are not all zero bytes, for which the source's scan would leave its buffer.
- `tq_free`, and waiting inside `tq_pop`, which is two critical sections with any operations in between.
- `list_splice` without reinitialising is `Splice`; iteration macros of `elist.h` are not modelled.
- Comparisons `>`, `>=`, `!=`, bitwise operators and 64-bit overloads of `base_uint`, which add nothing harder.
- JH, Groestl, Skein, Keccak, BLAKE-256, Salsa64 and ChaCha variants: more of the same kind.
