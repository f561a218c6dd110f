# utsuite, modelled and proved in Dafny

The project models the parts of utsuite whose behaviour is hard to see from reading one
function: the Equihash solver and verifier, the layered coins cache with its record format,
256-bit integers and compact targets, the block index and active chain, Base58, `prevector`,
the streaming of two hash functions, and the working memory of the proof of work. Everything
is stated for all inputs, all runs or all reachable states.

How the files fit together:

- `Numbers`, `Bits`, `Numerals`, `Limbs`, `Results`: arithmetic and types used by the rest.
- `BitPacking`, `CollisionTree`, `StepRow`, `EquihashParams`, `EquihashVerifier`,
  `CollisionRound`, `EquihashTables`, `EquihashSolver`: Equihash. A solution is defined once,
  on trees of indices, without reference to rows or rounds (`CollisionTree.Solution`,
  `EquihashParams.IsSolution`). The verifier is proved to decide it and the solver to
  enumerate it.
- `Coins`, `CoinsCache`: coins records and the stack of caches, proved against a stack of
  plain maps with block hashes.
- `VarInt`, `Amounts`, `Compressor`, `CoinsCodec`: the byte formats of numbers, amounts,
  outputs and coins.
- `Chain`, `ArithUint`, `Compact`, `Base58`, `Prevector`.
- `Streaming`, `Sha256`, `Blake2s`, `WorkMemory`.

What the source leaves to other code is a parameter: the BLAKE2b output of a group of leaves,
elliptic curve operations, compression functions, one-way functions, random numbers, the
hash behind a Base58 checksum, and the acceptance of a block.

## Where the code differs from what it promises

Each of these is proved, with the exact condition under which the promise holds.

- The code of an amount is computed in 64 bits and is cut off for amounts above
  2049638230412172402 that are no multiples of ten, taken as unsigned numbers, so also for
  most negative ones. These are exactly the amounts that are not given back: no other comes
  back by chance (`Amounts.CodeFitsExactly`, `Amounts.SurvivesExactly`,
  `Compressor.ValueSurvives`). `CoinsCodec.AmountIsLost` writes coins with the smallest of
  them and reads ten thousand.
- The round counter of an output, the sign of a version or height, and the contents of a
  spent output are not part of the coins format. Coins are read back as they were, up to
  cleanup, exactly when they carry none of these and all their amounts survive
  (`CoinsCodec.RoundTripExact`; `CoinsCodec.RoundsAreLost` writes and reads coins with a
  round counter).
- Flushing a cache hands on the stored block hash even when it is only inherited, so the
  base then stands for the right block only under a condition (`CoinsView.Flush`,
  `CoinsCache.FlushKeepsHash`; `CoinsCache.HashIsLost` reaches the failing state).
- New coins that are spent before a flush uncover whatever coins the base still shows
  (`CoinsView.CreateAndSpend`, `CoinsView.ModifyNewCoins`; `CoinsCache.Reappearing` reaches
  the failing state).
- The plain solver ends without a return value when more than one row is left for the final
  round and no solution is accepted: its `return false` is the body of the `else` before it
  (`EquihashSolver.BasicSolve`; `EquihashSolver.Unanswered` reaches that end for every
  instantiated pair of parameters).
- The static assertions on Equihash parameters admit pairs on which the assertions inside the
  bit packing fail (`EquihashParams.StaticAssertionsAreNotEnough`); the packing assertions
  hold exactly under the condition of `EquihashParams.PackingExactly`. The length that
  CompressArray asserts is the right one exactly under the condition of
  `BitPacking.AssertedLengthFits`, which fifteen bytes of nine-bit elements do not meet
  (`BitPacking.AssertedLengthTooLong`).
- `x *= x` on big integers clears its argument before reading it, so the product is right
  exactly when the objects differ or the square is zero (`BaseUint.Multiply`).
  Division by zero is reported after the dividend was cleared (`BaseUint.Divide`).
- The step of a block locator leaves the range of a 32-bit integer above height 2^30 + 9
  (`Chain.StepsFitExactly`, `CChain.GetLocator`).
- Comparing two empty chains reads the element before the first; every other comparison is
  right (`Chain.TipsDecide`).
- `prevector` orders by size first, unlike the `std::vector` it stands in for. The two orders
  agree exactly under the condition of `Prevector.OrdersAgree`, and `[2]` and `[1, 1]` are a
  pair on which they do not (`Prevector.NotLexicographic`).
- The byte buffer of the working memory's inner loop is read uninitialised when the number of
  exchanges wraps at 2^32 to zero. Memory and result are independent of it exactly when L is
  no multiple of 2^26 (`WorkMemory.DeterminedExactly`).
- A row count of 32 bits in the final walk over the working memory can wrap to zero and
  leave a round without progress. The walk ends for all functions, memories and first results
  exactly when the width is below 32 (`WorkMemory.ProgressExactly`, `WorkMemory.EndsExactly`).
  The program uses 8 bits.

## Model

| member | source | states |
|---|---|---|
| BitPacking.ExpandArray | equihash/equihash.cpp:58-99 | the output starts with the padded table of the input re-read in base 2^bit_len, for every element size from 8 to 25 bits and every padding; no bit of the 32-bit accumulator is lost before it is read |
| BitPacking.AssertedTableLength | equihash/equihash.cpp:65-68 | the output length that the function asserts is always room enough for the table |
| BitPacking.CompressArray | equihash/equihash.cpp:101-138 | the output is the elements of the whole rows of the input, masked to their width, re-read in base 256, for every input length |
| BitPacking.AssertedPackedLength | equihash/equihash.cpp:108-110 | the output length that the function asserts is that of the packed elements |
| BitPacking.AssertedLengthFits | equihash/equihash.cpp:108-110 | for any input length, the asserted output length is that of the packed elements exactly when the bits past the last whole byte and the share of the last, partial element make no byte; the condition is about the input lengths alone |
| BitPacking.AssertedLengthTooLong | equihash/equihash.cpp:108-110 | an input on which the asserted length is one byte too long |
| BitPacking.CompressAfterExpand | equihash/equihash.cpp:58-138 | compressing an expanded string gives it back, when its bits divide evenly |
| BitPacking.ExpandAfterCompress | equihash/equihash.cpp:58-138 | expanding a compressed table gives it back, when its elements fit their width |
| EquihashParams.Instances | equihash/equihash.cpp:784-827 | the parameter pairs that are instantiated are admissible and have at least 2^K indices; (88, 4), where K + 1 does not divide N, is admissible too |
| EquihashParams.PackingExactly | equihash/equihash.cpp:58-138 | the size assertions of the bit packing hold for a pair exactly when blocks have 8 to 24 bits and the bytes of a block times the bits that N / (K + 1) leaves over are fewer than the bits of a block |
| EquihashParams.StaticAssertionsAreNotEnough | equihash/equihash.h:166-168 | a pair that passes the static assertions and fails the packing assertions |
| EquihashParams.MergeWidths | equihash/equihash.h:162-180 | in every round of the solver the widths that the merge constructor asserts hold |
| EquihashParams.VerifierWidths | equihash/equihash.h:162-180 | the same at every level of the verifier |
| EquihashParams.LeafRow | equihash/equihash.cpp:220-229 | a leaf row is the expanded hash followed by its index, and fits the width of the row type |
| EquihashParams.GetIndicesFromMinimal | equihash/equihash.cpp:172-186 | the packed string re-read as indices, whether or not its bits divide evenly; an index is read beyond the end exactly when the expanded length is no multiple of four |
| EquihashParams.GetMinimalFromIndices | equihash/equihash.cpp:188-203 | the result is the indices, masked to their bit width, packed |
| EquihashParams.UnpackedMinimal | equihash/equihash.cpp:172-203 | unpacking packed indices gives them back |
| EquihashParams.MinimalUnpacked | equihash/equihash.cpp:172-203 | packing unpacked indices gives the string back |
| StepRow.HasCollision | equihash/equihash.cpp:281-290 | true exactly when the two rows agree on their first l bytes |
| StepRow.TableOrder | equihash/equihash.h:100 | comparing the index bytes of two rows is comparing their index lists |
| StepRow.MergeRows | equihash/equihash.cpp:231-249 | the exclusive or of the untrimmed hashes, then both index lists, the smaller first; the two width assertions are required of every caller |
| StepRow.MergedIsRow | equihash/equihash.cpp:231-249 | merging the rows of two trees gives the row of the tree that joins them in order |
| StepRow.DistinctIndices | equihash/equihash.tcc:9-22 | true exactly when no index of one row occurs in the other |
| CollisionTree.RowHashIsSum | equihash/equihash.cpp:231-249 | the trimmed hash of a row is the exclusive or of its leaf hashes without the blocks already matched |
| CollisionTree.MergeCollision | equihash/equihash.cpp:752-776 | two rows collide exactly when the joined tree is zero on one more block |
| CollisionTree.ValidMeans | equihash/equihash.cpp:752-776 | checking collision, order and disjointness at every node is the same as global distinctness plus zero prefixes and order at every subtree |
| EquihashVerifier.ReduceLevel | equihash/equihash.cpp:752-776 | one level is merged exactly when all its pairs are valid nodes, and the result is the rows of the next level |
| EquihashVerifier.IsZero | equihash/equihash.cpp:258-267 | true exactly when the first len bytes are zero |
| EquihashVerifier.IsValidSolution | equihash/equihash.cpp:734-779 | accepts exactly the solutions: right length, 2^K distinct indices, every subtree of height h zero on its first h blocks and in index order, and zero in total |
| CollisionRound.RunLength | equihash/equihash.cpp:375-382 | the length of the longest run of rows that collide with the first |
| CollisionRound.CollideRun | equihash/equihash.cpp:384-391 | appends the merged rows of exactly the compatible pairs within a run |
| CollisionRound.StoreInPlace | equihash/equihash.cpp:393-398 | moves collected rows into slots that were already read, and keeps the rest in order |
| CollisionRound.AllPairsSplit | equihash/equihash.cpp:371-415 | when rows of two parts never collide, the pairs of both parts are all pairs |
| CollisionRound.Round | equihash/equihash.cpp:371-415 | unless cancelled, a round on a sorted table leaves exactly the multiset of merged rows of all colliding pairs without a common index, each once, and reads no slot after writing it; it stops exactly at the first poll that asks for it |
| EquihashTables.CompatibleIsNode | equihash/equihash.cpp:384-391 | two rows of a table are merged exactly when the joined tree is valid |
| EquihashTables.RoundKeeps | equihash/equihash.cpp:364-420 | if the table holds exactly the rows of all valid trees of height h, each once, the round leaves exactly those of height h + 1 |
| EquihashTables.TableCount | equihash/equihash.cpp:424-453 | a table has more than one row exactly when two different valid trees of its height exist |
| EquihashTables.FinalCompatible | equihash/equihash.cpp:424-453 | two rows of the last table are handed over exactly when the joined tree is a solution |
| EquihashSolver.FirstList | equihash/equihash.cpp:345-361 | unless cancelled, the first list holds the leaf row of every index, in order |
| EquihashSolver.Rounds | equihash/equihash.cpp:364-420 | unless cancelled, after all rounds the table holds exactly the rows of the valid trees of height K - 1; all row widths hold |
| EquihashSolver.HandAll | equihash/equihash.cpp:424-453 | the last pass hands over the merged row of every colliding pair, until one is accepted or the search is cancelled |
| EquihashSolver.BasicSolve | equihash/equihash.cpp:341-457 | every string handed to validBlock is a solution, none twice; only the last one can have been accepted; unless one is accepted or the search is cancelled they are all the solutions; it is cancelled exactly by the first poll that asks for it; it returns false only when at most one row is left for the final round, and ends without a value only when more are left |
| EquihashSolver.BlankIsCrowded | equihash/equihash.cpp:364-424 | with equal hashes more than one row is left for the final round, whenever there are 2^K indices |
| EquihashSolver.Unanswered | equihash/equihash.cpp:424-457 | a search over equal hashes that accepts nothing and is never cancelled ends without a return value |
| Coins.Cleanup | libwallet/coins.h:113-118 | drops exactly the spent outputs at the end |
| Coins.CleanedKeeps | libwallet/coins.h:113-118 | cleaning up changes no output's availability and empties pruned coins |
| Coins.Spend | libwallet/coins.cpp:35-42 | succeeds exactly on an available output, which is then the only one no longer available |
| CoinsCache.CoinsView.constructor | libwallet/coins.cpp:61 | a new cache shows what its base shows |
| CoinsCache.CoinsView.GetCoins | libwallet/coins.cpp:73-98 | answers with the visible coins; filling the cache changes nothing visible at any level and no existing entry |
| CoinsCache.CoinsView.HaveCoins | libwallet/coins.cpp:139-146 | true exactly when the entry fetched has outputs, also during a modification; otherwise exactly when unspent coins are visible |
| CoinsCache.CoinsView.ModifyCoins | libwallet/coins.cpp:100-119 | starts a modification of the visible coins; the flags stay true claims about the base |
| CoinsCache.CoinsView.ModifyNewCoins | libwallet/coins.cpp:121-128 | the view stays valid exactly when the base shows nothing |
| CoinsCache.CoinsView.EndModify | libwallet/coins.cpp:285-297 | ends a modification: the cleaned coins are visible, or the base again if they were fresh and pruned |
| CoinsCache.CoinsView.CreateAndSpend | libwallet/coins.h:429-438 | new coins that are spent again are gone exactly when the base showed none |
| CoinsCache.CoinsView.Uncache | libwallet/coins.cpp:215-222 | dropping an entry changes nothing visible |
| CoinsCache.CoinsView.GetBestBlock | libwallet/coins.cpp:153-157 | the nearest stored block hash from this view downwards, which every view above it then remembers |
| CoinsCache.CoinsView.SetBestBlock | libwallet/coins.cpp:159-161 | stores the hash and changes no visible coins |
| CoinsCache.CoinsView.WriteEntry | libwallet/coins.cpp:163-206 | every branch (ignore, create, erase, overwrite) makes exactly the child's entry visible and keeps the flags true |
| CoinsCache.CoinsView.BatchWrite | libwallet/coins.cpp:163-206 | after a batch the view shows the batch, and elsewhere what it showed; its base is untouched |
| CoinsCache.CoinsView.Flush | libwallet/coins.cpp:208-213 | the base shows what this view showed, this view is empty and shows the same, the layer below is untouched; the base's best block is right exactly under the stated conditions, for a cache and for the database as base |
| CoinsCache.HashIsLost | libwallet/coins.cpp:208-213 | a cache that inherited its hash and is flushed leaves a base without a best block |
| CoinsCache.Reappearing | libwallet/coins.h:429-438 | any coins of the database are visible again after they were created anew and spent in a cache |
| CoinsCache.FlushAll | libwallet/coins.cpp:208-213 | flushing every layer commits what the top showed to the database |
| CoinsCache.Run | libwallet/coins.cpp:73-222 | every run of reads, modifications, uncaching, getting and setting the best block, flushes, new caches on top and dropped caches answers, and ends, as on a stack of plain maps with block hashes |
| CoinsCache.StepIsDetermined | libwallet/coins.cpp:73-222 | on the plain stack every step has one outcome, as long as a modification does not tell pruned coins apart |
| CoinsCache.FlushKeepsHash | libwallet/coins.cpp:208-213 | in a run, the base stands for the top's block after a flush exactly when the top stores a hash, or the layers below the base already stand for that block, which is none when the base is the bottom |
| VarInt.DecodedEncoded | equihash/serialize.h:387-432 | reading what was written gives the number |
| VarInt.EncodedDecoded | equihash/serialize.h:387-432 | writing what was read gives the bytes: every terminated string is the only encoding of its number |
| VarInt.GetSizeOfVarInt | equihash/serialize.h:387-398 | the announced length is that of the encoding |
| VarInt.WriteVarInt | equihash/serialize.h:403-418 | writes the encoding, and never runs out of its buffer |
| VarInt.ReadVarInt | equihash/serialize.h:420-432 | reads the first terminated group string, modulo the width of the type, and fails when there is none |
| VarInt.ReadWritten | equihash/serialize.h:387-432 | a number that fits the type is read back, and no byte after it is consumed |
| VarInt.CompactSizeExact | equihash/serialize.h:308-361 | reading succeeds with a size exactly on its shortest encoding, up to the maximum |
| Amounts.CompressAmount | libwallet/compressor.cpp:142-159 | the compressed amount, modulo 2^64 |
| Amounts.DecompressAmount | libwallet/compressor.cpp:161-185 | the decompressed amount, modulo 2^64 |
| Amounts.AmountRoundTrip | libwallet/compressor.cpp:142-185 | decompressing a compressed amount gives it back, as long as neither is cut to 64 bits |
| Amounts.CodeRoundTrip | libwallet/compressor.cpp:142-185 | compressing a decompressed code gives it back |
| Amounts.CodeFitsExactly | libwallet/compressor.cpp:142-159 | the code of a 64-bit amount fits 64 bits exactly when the amount is a multiple of ten or at most 2049638230412172402 |
| Amounts.SurvivesExactly | libwallet/compressor.cpp:142-185 | in 64-bit arithmetic a compressed amount is decompressed to itself exactly when its code fits: in all classes of overflow no amount is given back by chance |
| Amounts.NeverAllOnes | libwallet/compressor.cpp:161-185 | no 64-bit code is decompressed to the pattern of -1 |
| Compressor.MoneySurvives | libwallet/compressor.cpp:142-185 | amounts up to the supply limit are read back |
| Compressor.SpecialRoundTrip | libwallet/compressor.cpp:48-131 | a compressed script is decompressed to itself, in all six special forms |
| Compressor.ScriptRoundTrip | libwallet/compressor.h:58-91 | every script is read back exactly and nothing more is consumed |
| Compressor.GetScriptSize | libwallet/compressor.h:58-64 | the announced size is the size written |
| Compressor.SerializeScript | libwallet/compressor.h:66-75 | writes the bytes of the script |
| Compressor.UnserializeScript | libwallet/compressor.h:77-91 | reads a script, with every failure of the stream |
| Compressor.OutRoundTrip | libwallet/compressor.h:109-120 | every output is read back with its script, without its round counter, and with the value that its 64-bit code spells; nothing more is consumed |
| Compressor.OutSurvives | libwallet/compressor.h:109-120 | an output is read back as it was exactly when its value survives and it has no round counter |
| Compressor.ValueSurvives | libwallet/compressor.h:109-120 | a signed value is read back exactly when it has 64 bits and its unsigned pattern is a multiple of ten or at most 2049638230412172402 |
| Compressor.NeverNull | libwallet/compressor.h:109-120 | no value, lost or not, is read back as the mark of a spent output |
| Compressor.SerializeOut | libwallet/compressor.h:109-120 | writes the bytes of an output, whatever its value, negative ones as unsigned 64-bit numbers |
| Compressor.UnserializeOut | libwallet/compressor.h:109-120 | reads an output, with every failure of the stream |
| CoinsCodec.CalcMaskSize | libwallet/coins.cpp:17-33 | the mask's length without trailing zero bytes, and how many bytes are not zero |
| CoinsCodec.TrimmedMask | libwallet/coins.cpp:17-33 | every output that the trimmed mask does not cover is spent |
| CoinsCodec.ReadMaskStops | libwallet/coins.h:218-229 | the reader that stops after N non-zero bytes stops exactly at the writer's last mask byte |
| CoinsCodec.WriteMaskByte | libwallet/coins.h:191-197 | sets exactly the bits of the unspent outputs |
| CoinsCodec.SomethingUnspent | libwallet/coins.h:184 | the writer's assertion holds for all coins that are not pruned |
| CoinsCodec.GetSerializeSize | libwallet/coins.h:155-176 | the announced size is the size written, for all coins that are not pruned and whatever the values of their outputs |
| CoinsCodec.Serialize | libwallet/coins.h:179-205 | writes version, code, mask, outputs and height |
| CoinsCodec.Unserialize | libwallet/coins.h:208-239 | reads any stream, with every failure |
| CoinsCodec.CoinsRoundTrip | libwallet/coins.h:155-239 | all coins that are not pruned, whatever their values, are read back in canonical form, and exactly their bytes are consumed |
| CoinsCodec.CanonicalKeeps | libwallet/coins.h:208-239 | the canonical form has the same outputs available, for all values, with the same scripts; an output's value is the same exactly when it survives; no spent output is at the end |
| CoinsCodec.RoundTripExact | libwallet/coins.h:155-239 | what is read from the bytes of coins is the cleaned coins exactly when version and height are not negative and every kept output is a reset spent one, or has no round counter and a value that survives |
| CoinsCodec.RoundsAreLost | libwallet/primitives/transaction.h:133-203 | coins with a round counter that are written, and read back without it |
| CoinsCodec.AmountIsLost | libwallet/compressor.cpp:142-185 | coins with an amount of 2049638230412172403 that are written, and read back with ten thousand |
| Chain.InvertsLowest | libwallet/chain.cpp:66-67 | exactly the lowest one bit is removed |
| Chain.SkipsDown | libwallet/chain.cpp:69-78 | the skip height of a positive height is lower |
| Chain.BlockIndex.GetAncestor | libwallet/chain.cpp:80-104 | the same block as walking back one at a time, null outside the range, and the assertion never fails, for every tree whose skip links are null or right |
| Chain.BlockIndex.BuildSkip | libwallet/chain.cpp:111-115 | sets the link to the ancestor at the skip height and keeps the tree's invariant |
| Chain.TreeGrows | libwallet/chain.cpp:111-115 | a new linked block without a skip link keeps the invariant |
| Chain.CChain.SetTip | libwallet/chain.cpp:15-25 | from any valid chain, with its early stop, every height holds the new tip's ancestor |
| Chain.CChain.FindFork | libwallet/chain.cpp:55-64 | the highest block that is in the chain and an ancestor of the argument or itself; null exactly when there is none |
| Chain.CChain.GetLocator | libwallet/chain.cpp:27-53 | the hashes of the start, by default the tip, and of its ancestors at the locator heights, whichever way they are looked up; the step stays an `int` exactly up to height 2^30 + 9 |
| Chain.LocatorDescends | libwallet/chain.cpp:27-53 | locator heights strictly descend |
| Chain.LocatorLength | libwallet/chain.cpp:27-53 | the exact number of entries: height + 1 below ten, then eleven plus the rounded-up logarithm of height - 9 |
| Chain.LocatorBound | libwallet/chain.cpp:27-53 | at most 12 + ceil(log2(height + 1)) entries |
| Chain.StepsFitExactly | libwallet/chain.cpp:27-53 | the step stays a 32-bit number exactly up to height 2^30 + 9 |
| Chain.NextIsSuccessor | libwallet/chain.h:389-395 | the successor has the block as predecessor, and only the tip has none |
| Chain.TipsDecide | libwallet/chain.h:378-382 | comparing sizes and tips decides equality of chains, unless both are empty, when it reads out of range |
| ArithUint.BaseUint.Add | libwallet/arith_uint256.h:135-145 | the sum modulo 2^BITS, also of a number with itself |
| ArithUint.BaseUint.Increment | libwallet/arith_uint256.h:173-180 | the successor modulo 2^BITS |
| ArithUint.BaseUint.Negated | libwallet/arith_uint256.h:77-84 | the negative modulo 2^BITS |
| ArithUint.BaseUint.Subtract | libwallet/arith_uint256.h:147-151 | the difference modulo 2^BITS, also of a number with itself |
| ArithUint.BaseUint.MultiplyWord | libwallet/arith_uint256.cpp:55-65 | the product with a 32-bit number modulo 2^BITS |
| ArithUint.AccumulatorFits | libwallet/arith_uint256.cpp:67-81 | the 64-bit accumulator never overflows |
| ArithUint.BaseUint.Multiply | libwallet/arith_uint256.cpp:67-81 | the product modulo 2^BITS exactly when the objects differ or the square is zero; zero when both are one object |
| ArithUint.BaseUint.CompareTo | libwallet/arith_uint256.cpp:109-119 | the sign of the difference |
| ArithUint.BaseUint.Length | libwallet/arith_uint256.cpp:171-184 | the number of binary digits |
| ArithUint.BaseUint.ShiftLeft | libwallet/arith_uint256.cpp:21-36 | the number times 2^shift modulo 2^BITS, for every shift |
| ArithUint.BaseUint.ShiftRight | libwallet/arith_uint256.cpp:38-53 | the number divided by 2^shift, for every shift |
| ArithUint.BaseUint.Divide | libwallet/arith_uint256.cpp:83-107 | fails exactly on zero; otherwise the floor quotient, with the remainder left in num, also when dividing by itself |
| Compact.SetCompact | libwallet/arith_uint256.cpp:204-222 | the meaning of the compact number modulo 2^256; overflow is set exactly when the meaning is 2^256 or more, the sign exactly when it is set on a non-zero word |
| Compact.OverflowIs | libwallet/arith_uint256.cpp:217-220 | the three-part overflow condition is mantissa * 256^(exponent - 3) >= 2^256 |
| Compact.GetLow64 | libwallet/arith_uint256.h:245-249 | the number modulo 2^64 |
| Compact.GetCompact | libwallet/arith_uint256.cpp:224-245 | the compact form, and both assertions hold |
| Compact.CompactRoundTrip | libwallet/arith_uint256.cpp:204-245 | reading the compact form gives the number with only whole low bytes cleared, at most 2^-15 of it lost, and the sign back |
| Compact.CompactIsStable | libwallet/arith_uint256.cpp:204-245 | what is left has the same compact form |
| Base58.EncoderFits | libwallet/base58.cpp:78 | the encoder's buffer holds every number of its length |
| Base58.DecoderFits | libwallet/base58.cpp:34 | the decoder's buffer holds every number of its length |
| Base58.MultiplyAdd | libwallet/base58.cpp:81-94 | one carry loop multiplies and adds exactly, although it stops early once the digits in use are done |
| Base58.EncodeBase58 | libwallet/base58.cpp:68-106 | leading ones for leading zeros, then the shortest base-58 digits; the carry assertion holds for every length |
| Base58.DecodeBase58 | libwallet/base58.cpp:22-66 | succeeds exactly when the text without surrounding white space is all alphabet, with the bytes it spells; the carry assertion holds for every length |
| Base58.DecodeOfEncode | libwallet/base58.cpp:22-106 | decoding what was encoded gives the bytes back |
| Base58.EncodeOfDecode | libwallet/base58.cpp:22-106 | encoding what was decoded gives the text without surrounding white space |
| Base58.EncodeBase58Check | libwallet/base58.cpp:118-125 | encodes the data followed by four bytes of its hash |
| Base58.DecodeBase58Check | libwallet/base58.cpp:127-142 | returns data exactly when the text is the encoding of that data with its checksum |
| Prevector.Prevector.ChangeCapacity | equihash/prevector.h:162-191 | keeps the contents across every change between direct and heap storage |
| Prevector.Prevector.Assign | equihash/prevector.h:197-205 | n copies of a value |
| Prevector.Prevector.AssignRange | equihash/prevector.h:207-220 | the elements of a range |
| Prevector.Prevector.CopyFrom | equihash/prevector.h:257-270 | the contents of another vector, which keeps them, or its own |
| Prevector.Prevector.Resize | equihash/prevector.h:311-322 | the contents cut off or filled up |
| Prevector.Prevector.Insert | equihash/prevector.h:338-348 | one element inserted |
| Prevector.Prevector.InsertRange | equihash/prevector.h:350-378 | several elements inserted |
| Prevector.Prevector.Erase | equihash/prevector.h:384-394 | a stretch removed; capacity and kind of storage stay |
| Prevector.Prevector.PushBack | equihash/prevector.h:396-403 | one element appended |
| Prevector.Prevector.Swap | equihash/prevector.h:425-428 | contents and storage exchanged |
| Prevector.Run | equihash/prevector.h:162-428 | every run of operations on a pool of vectors, with assignment from and exchange with each other, does to their contents what it does to sequences, and keeps their buffers separate, direct storage exactly while the count is at most N and capacity never below size |
| Prevector.Prevector.Equals | equihash/prevector.h:438-453 | equality of contents |
| Prevector.Prevector.LessThan | equihash/prevector.h:459-480 | the order by size, then by elements |
| Prevector.ShortlexOrder | equihash/prevector.h:459-480 | that order is total, irreflexive and transitive |
| Prevector.OrdersAgree | equihash/prevector.h:459-480 | it agrees with the order of std::vector on a pair exactly when the sizes are equal or the longer one, cut to the size of the shorter, is not lexicographically below it |
| Prevector.NotLexicographic | equihash/prevector.h:16-33 | a pair that it orders differently from std::vector |
| Streaming.ChainConcat | equihash/sha256.cpp:223-247 | whole blocks can be absorbed in several calls |
| Sha256.Hasher.Write | equihash/sha256.cpp:223-247 | appends to the message: whole blocks in the state, the rest in the buffer |
| Sha256.Hasher.Reset | equihash/sha256.cpp:282-287 | starts an empty message |
| Sha256.Hasher.Finalize | equihash/sha256.cpp:249-264 | the fold of the compression function over the padded message as eight big-endian words; the appended bit count is exact below 2^64 |
| Sha256.OutputDetermines | equihash/sha256.cpp:256-263 | the bytes written out determine the final state |
| Sha256.PaddingIsShortest | equihash/sha256.cpp:249-255 | the padding fills whole blocks and no shorter one of its form does |
| Sha256.SplitsAgree | equihash/sha256.cpp:223-264 | every split of a message gives the digest bytes of the padded message |
| Blake2s.CounterStep | hello/blake2s.c:136-138 | the two counter words count bytes modulo 2^64 |
| Blake2s.Context.Compress | hello/blake2s.c:97-196 | folds the compression function over whole blocks, or over one block of which only some bytes count |
| Blake2s.Context.Update | hello/blake2s.c:199-241 | appends to the message and always holds back a last block, even a full one |
| Blake2s.Context.Final | hello/blake2s.c:247-263 | the digest as eight little-endian words: only the last block has the final flag, with the byte count of the whole message |
| Blake2s.OutputDetermines | hello/blake2s.c:256-259 | the bytes written out determine the chaining value |
| Blake2s.SplitsAgree | hello/blake2s.c:97-263 | every split of a message into updates gives the digest bytes of the message |
| WorkMemory.ReduceBit | hello/common.c:29-36 | the input folded onto the given number of bytes |
| WorkMemory.FoldingKeeps | hello/common.c:29-36 | folding keeps the exclusive or of all bytes |
| WorkMemory.Rrs | hello/common.c:37-46 | the rotated byte string |
| WorkMemory.RotationMovesBits | hello/common.c:37-46 | every bit moves right by the given number of places and comes in again at the front |
| WorkMemory.AddressesDiffer | hello/PoW.c:116-121 | the two addresses are in range and never equal |
| WorkMemory.MixRound | hello/PoW.c:112-134 | the inner loop of exchanges, in place, from any byte buffer |
| WorkMemory.MixingKeeps | hello/PoW.c:112-134 | any number of exchanges keeps the exclusive or of the memory |
| WorkMemory.MixingForgets | hello/PoW.c:112-134 | memory, random state, sum and the bytes of the buffer that were written do not depend on what the buffer held |
| WorkMemory.ModifyWorkMemory | hello/PoW.c:91-152 | the memory and result of all passes from any byte buffer, with the exchange count modulo 2^32; the exclusive or of the memory is kept for any one-way functions and random numbers |
| WorkMemory.ResultIsDetermined | hello/PoW.c:91-152 | the result does not depend on the uninitialised buffer unless L is a multiple of 2^26 |
| WorkMemory.NoneOrEnough | hello/PoW.c:102 | the number of exchanges is zero exactly when L is a multiple of 2^26, and otherwise at least 64 |
| WorkMemory.ResultDepends | hello/PoW.c:91-152 | whenever L is a multiple of 2^26, buffers that fold differently give different results, for functions that return their input |
| WorkMemory.DeterminedExactly | hello/PoW.c:91-152 | memory and result are independent of the buffer for all functions, memories, pass counts and buffers exactly when L is no multiple of 2^26 |
| WorkMemory.CalculateFinalResult | hello/PoW.c:157-197 | for every width up to 32 and every walk that ends: reads rows 0 to num - 1 once each and in order, selects only functions 0 to 15, and returns the specified digest |
| WorkMemory.MoreRounds | hello/PoW.c:157-197 | the specified digest does not depend on how many rounds are allowed for |
| WorkMemory.ProgressExactly | hello/PoW.c:171-172 | every round takes at least one row exactly when the width is below 32 bits |
| WorkMemory.EndsExactly | hello/PoW.c:165-196 | the walk ends for all functions, memories and first results exactly when the width is below 32 |

## Left out

- OptimisedSolve, CollideBranches and the truncated rows: a second solver, whose first half ends in an `else` without a statement at equihash/equihash.cpp:637-640.
- EquihashSolver.BasicSolve: `std::sort` is replaced by a sort with the same promise, bytes of a row beyond its meaningful prefix are not kept, and `int` indices are unbounded. The calls of the cancellation callback are numbered, not told apart by the stage they report.
- EquihashParams.Instances: beside the packing condition, admissible pairs have N a multiple of 8 up to 512 and 2^K indices that fill whole bytes; other pairs are not modelled.
- EquihashParams.LeafRow: the BLAKE2b call that produces the hash of a group of leaves is a parameter.
- CoinsCache.CoinsView.BatchWrite: the database below the caches is not part of the repository; it follows the interface documented at libwallet/coins.h:314-337. Memory accounting is left out.
- FromTx, ClearUnspendable, the statistics and priorities of coins.cpp: no property beyond their bodies.
- VarInt.ReadVarInt: signed overflow while reading an over-long number is modelled as wrap-around.
- Compressor.SpecialRoundTrip: recovering an uncompressed public key is a parameter with the law that it undoes the compression of a valid key.
- CoinsCodec.Serialize: scripts have to be shorter than the format's 32-bit sizes, and the number of outputs has to fit its 32-bit counters.
- Chain.BlockIndex.GetAncestor: predecessor and height of a block are constants, since nothing modelled here changes them after a block is linked; the remaining fields are left out.
- Chain.CChain.GetLocator: a step beyond the range of `int` is modelled as the unbounded number, since the code's result is then undefined; `fits` tells when.
- ArithUint.BaseUint.Length: shifting a one into bit 31 of a signed word is taken as the unsigned result.
- Hexadecimal and floating-point conversions, decrement and comparison with a 64-bit number in arith_uint256: easy members.
- Base58.EncodeBase58: buffer sizes are unbounded, whereas the code computes them in `int`.
- Base58.DecodeBase58: white space is that of the C locale. Addresses and secrets built on top are left out.
- Prevector.Run: arguments that alias the vector, failing allocations and 32-bit size overflow are excluded; iterators and destructors are left out. The two layouts are a tagged union, so the overlay of their bytes is not modelled.
- FinalizeNoPadding of SHA-256, BLAKE2s parameter blocks and key material: easy members.
- WorkMemory.ModifyWorkMemory: the initialisation of the memory is left out.
- WorkMemory.CalculateFinalResult: widths below 8, which divide by zero, and above 32, which overrun the counter, are excluded; at a width of 32 the contract is about the walks that end.
- The ciphers and hash rounds under hello and crypto, the GOST checksum, key.cpp, crypter.cpp, db.cpp, and the database, claim and file tools: foreign code or unrolled rounds.
