# A verified model of the banking, crypto and peer-to-peer components

Each module models one component of the repository: the data it keeps, the calls that change
it, and what those calls promise over every input and every run. Components that update
fields, buffers or tables are classes and methods with loops; each is proved equal to a
specification function on values, and the main results are lemmas about those functions.

- `MerkleTrees` builds, proves and checks Merkle trees over an arbitrary hash. Proofs of leaves
  whose path is paired are always accepted, and a wrong value is accepted only together with
  two colliding strings that a function computes from the tree and the proof.
- `Crc32` has the bit-by-bit and the table-driven checksum, their equality, and the exact burst
  length they detect. `PacketFraming` carries that over to packets on a stream.
- `BalanceCaches` is the linear-probing table, which stands for a map from address and token to a
  sum of deltas. `Settlement` moves money over it, `Mempool` is the ring buffer and the gas-limited
  block assembly, `SwapQuote` the constant-product quote.
- `HashStreams` gives the buffered SHA-256 and SHA-1 against section 5.1.1 of FIPS 180-4, `CounterMode`
  the GCM counter, its key stream and the seal and open calls, `Sessions` the 32-slot session table with key
  rotation, `Envelopes` the sealed envelopes built on both.
- `Blockchain` is the balance-carrying chain with its derived indexes.
- `RateLimiters` has the sliding and the fixed window, `Ternary` the ternary numbers and text codecs,
  `WebSocket` the frames of section 5.2 of RFC 6455.
- `Words`, `Options`, `Remainders` and `MapSums` are shared helpers.

SHA-1 and SHA-256 compression, the AES block function, GHASH, PBKDF2, the signature check and
the block header hash are function parameters, so every result holds for all of them. Clock
readings, nonces, initialisation vectors, uninitialised memory and the results of socket calls
are inputs. A locked call is one atomic step. Money is an integer. 64-bit, 32-bit
and 8-bit arithmetic wraps where the code's does.

Where the code and its names or comments disagree, the model follows the code:

- `transaction_pool_remove_by_hash` removes nothing; it reports whether the hash is queued.
- `getProof` skips a sibling that a level lacks, while building hashes the unpaired node with itself. The proof
  of such a leaf is too short and is rejected (`UnpairedLeafRejected`).
- `addBlockDirect` checks neither the Merkle root nor the difficulty, so it can break `verifyChain`: `WrongRootAccepted`
  gives a block that does, `RunVerifiesIff` says when a run does.
- The fixed window allows up to twice the limit less one in a window's length (`FixedWindowBoundReached`).
- The WebSocket server sets the mask bit on its frames without a key or masking, and the client
  ignores the bit. The two understand each other, but a server cannot read a server (`ServerReadsServerIff`).
- An unknown account read with `getBalance` is entered with balance 0.
- A cost that wraps at 2^64 defeats the balance check (`WrappedCostMints`; `MintsIff` has the exact condition), a gas sum
  that wraps defeats the gas limit (`WrappedGasTaken`, `GasWithinLimitIff`), a denominator that wraps defeats the swap
  quote (`DenominatorWrapsToZero`, `WrappedDenominatorPaysTooMuch`, `BelowReserveIff`).
- Negative amounts pass validation (`NegativeAmountOverdraws`); `RunOverdrawsIff` says exactly when they overdraw.

## Model

| member | source | states |
|---|---|---|
| MerkleTrees.Soundness | p2p_banking_system/blockchain/merkle_tree.cpp:163-182 | for a hash of fixed output length: whatever value is accepted at leaf i with a proof as long as the tree is deep is leaf i itself, or a computable pair of different strings with the same hash is returned |
| MerkleTrees.SoundnessAtAnyIndex | p2p_banking_system/blockchain/merkle_tree.cpp:163-182 | the same for every index, also past the last leaf: the accepted value is the node the index folds back to |
| MerkleTrees.SoundnessOfShortProofs | p2p_banking_system/blockchain/merkle_tree.cpp:163-182 | a proof shorter than the depth authenticates a node of the inner level at that height and nothing else, up to a collision |
| MerkleTrees.SoundnessOfLongProofs | p2p_banking_system/blockchain/merkle_tree.cpp:163-182 | a proof longer than the depth, for a value of any length, first hashes up to the leaf its index then stands for, up to a collision |
| MerkleTrees.SoundnessOfAnyValue | p2p_banking_system/blockchain/merkle_tree.cpp:163-182 | a value of any length over leaves of any length: joined with the first sibling it is the very string the tree hashed there, up to a collision |
| MerkleTrees.Completeness | p2p_banking_system/blockchain/merkle_tree.cpp:71-95 | the proof read off a tree is accepted for every leaf whose path never meets an unpaired last node, for every hash, and is as long as the tree is deep |
| MerkleTrees.CompletenessPowerOfTwo | p2p_banking_system/blockchain/merkle_tree.cpp:71-95 | with 2^d leaves every leaf is accepted with its own proof |
| MerkleTrees.UnpairedProofIsShort | p2p_banking_system/blockchain/merkle_tree.cpp:79-86 | the proof of a leaf is as long as the tree is deep if and only if its path is paired at every level |
| MerkleTrees.OwnProofAcceptedIff | p2p_banking_system/blockchain/merkle_tree.cpp:71-95 | without collisions among the strings involved, a leaf that is not itself the digest of an inner node is accepted with its own proof if and only if its path is paired at every level |
| MerkleTrees.UnpairedLeafRejected | p2p_banking_system/blockchain/merkle_tree.cpp:79-86 | a three-leaf tree rejects the proof it issued for its last leaf |
| MerkleTrees.LevelsAreLevelAt | p2p_banking_system/blockchain/merkle_tree.cpp:12-42 | level d of the stored tree is the d-th halving of the leaves, there are depth + 1 levels, and the last is the root alone |
| MerkleTrees.ProofSiblings | p2p_banking_system/blockchain/merkle_tree.cpp:71-90 | on a paired path element d of the proof is the neighbour, on level d, of the node above the leaf |
| MerkleTrees.HashLevel | p2p_banking_system/blockchain/merkle_tree.cpp:27-37 | node q of the next level hashes children 2q and 2q + 1 in this order, a single last one with itself |
| MerkleTrees.ComputeMerkleRoot | p2p_banking_system/blockchain/merkle_tree.cpp:110-126 | the static computation gives the same root as the built tree and leaves its argument holding that root alone, or empty |
| MerkleTrees.ComputeProof | p2p_banking_system/blockchain/merkle_tree.cpp:128-161 | the static computation gives the proof the built tree gives, nothing for an index out of range |
| MerkleTrees.VerifyProof | p2p_banking_system/blockchain/merkle_tree.cpp:163-182 | accepts exactly when folding the proof over the value arrives at the root |
| MerkleTrees.MerkleTree.FromLeaves | p2p_banking_system/blockchain/merkle_tree.cpp:7-10 | a tree made from leaves is built and stores exactly the levels of its leaves |
| MerkleTrees.MerkleTree.Build | p2p_banking_system/blockchain/merkle_tree.cpp:12-42 | the stored levels and root are those of the leaves; the leaves stay |
| MerkleTrees.MerkleTree.AddLeaf | p2p_banking_system/blockchain/merkle_tree.cpp:49-53 | one leaf more, the tree is marked as not built, the old root stays |
| MerkleTrees.MerkleTree.AddLeaves | p2p_banking_system/blockchain/merkle_tree.cpp:55-59 | the leaves are appended in order, the tree is marked as not built |
| MerkleTrees.MerkleTree.Clear | p2p_banking_system/blockchain/merkle_tree.cpp:102-108 | back to no leaves, no levels and no root |
| MerkleTrees.MerkleTree.GetProof | p2p_banking_system/blockchain/merkle_tree.cpp:71-90 | read off the stored levels, a proof is the one computed from the leaves alone; empty when not built or out of range |
| MerkleTrees.MerkleTree.Verify | p2p_banking_system/blockchain/merkle_tree.cpp:92-95 | checks against the stored root |
| Crc32.StepLinear | main.cpp:1868-1871 | one shift of the register is linear over exclusive or |
| Crc32.UnstepOfStep | main.cpp:1868-1871 | a shift can be undone |
| Crc32.StepOfUnstep | main.cpp:1868-1871 | every word is the result of a shift: with UnstepOfStep, a bijection on 32-bit words |
| Crc32.StepsFeedBits | main.cpp:1866-1871 | n shifts of a register loaded with a word feed it the n low bits of the word, one at a time |
| Crc32.ByteStateIsBitState | main.cpp:1861-1876 | the byte loop is the bit loop over all bits of the message |
| Crc32.BitBurstChangesCrc | main.cpp:1861-1876 | two messages of equal length that differ only inside 32 consecutive bits, at any bit offset, have different checksums |
| Crc32.ByteBurstChangesCrc | main.cpp:1861-1876 | two messages that differ only inside 4 consecutive bytes have different checksums |
| Crc32.GeneratorBurstUnnoticed | main.cpp:1861-1876 | 32 bits is the exact bound: changing 33 bits by the generator polynomial is never noticed, whatever surrounds them |
| Crc32.PolynomialIsIeee | main.cpp:1864-1864 | the constant is the generator polynomial of IEEE 802.3, lowest power in the highest bit |
| Crc32.CheckValue | main.cpp:1861-1876 | the digits 1 to 9 have the check value 0xCBF43926 of CRC-32 |
| Crc32.EightSteps | 1-to-file/p2p-tester.c:122-136 | eight shifts of x are x shifted by a byte, mixed with the table entry of its lowest byte |
| Crc32.ByteStepByTable | 1-to-file/p2p-tester.c:138-147 | one table look-up does what eight shifts do |
| Crc32.BankCrc32 | main.cpp:1861-1876 | the loop computes the checksum the error-detection results are about |
| Crc32.TableCrc.Init | 1-to-file/p2p-tester.c:122-136 | afterwards every one of the 256 entries is the register after eight shifts |
| Crc32.TableCrc.Crc32 | 1-to-file/p2p-tester.c:138-147 | on every byte string the table-driven loop returns what the bit-by-bit one returns, filling the table on first use |
| PacketFraming.HeaderFields | 1-to-file/p2p-tester.c:583-628 | type, length and checksum are read back from a header followed by anything |
| PacketFraming.ReceiveUnderHeader | 1-to-file/p2p-tester.c:630-721 | under an intact header the checksum alone decides whether a body of the right length is delivered or reported corrupt |
| PacketFraming.RoundTrip | 1-to-file/p2p-tester.c:583-721 | an untouched packet is delivered as it was sent and exactly its own bytes are consumed |
| PacketFraming.BurstRejected | 1-to-file/p2p-tester.c:630-721 | a payload changed only inside 32 consecutive bits is always rejected as corrupt |
| PacketFraming.TooLargeRefused | 1-to-file/p2p-tester.c:645-655 | a packet too large for the buffer is refused and stays in the stream |
| PacketFraming.PartialPacket | 1-to-file/p2p-tester.c:645-700 | of a packet that has arrived in part nothing is delivered; before its header is whole it stays in the stream, after that what arrived is lost |
| PacketFraming.StreamRoundTrip | 1-to-file/p2p-tester.c:583-721 | any sequence of packets is delivered in order without loss by repeated calls |
| PacketFraming.Node.Send | 1-to-file/p2p-tester.c:583-628 | the bytes put on the wire for every outcome of the two send calls, and every counter afterwards |
| PacketFraming.ShortReadsOnlyLose | 1-to-file/p2p-tester.c:645-721 | whatever the three recv calls return, a packet delivered is the one full reads deliver |
| PacketFraming.Node.ReceivePacket | 1-to-file/p2p-tester.c:630-721 | result, payload, consumed bytes and counters for each case and every outcome of the three recv calls: not connected, too few bytes, too large, header lost, incomplete, corrupt, delivered |
| BalanceCaches.WriteRefines | 1-to-file/main_file.cpp:609-650 | one update of the table is one update of the map it stands for; every used slot stays reachable from its home slot, keys stay unique, and the count is the number of used slots |
| BalanceCaches.ReadRefines | 1-to-file/main_file.cpp:652-683 | reading returns what the map holds, or 0, also when the home slot is unused and when probing goes all round a full table |
| BalanceCaches.NotHeldBeyondUnused | 1-to-file/main_file.cpp:615-630 | a probe that meets an unused slot has shown that the key is not held and that there is room |
| BalanceCaches.NotHeldAllRound | 1-to-file/main_file.cpp:615-640 | a probe that comes back to its start has shown that the key is not held and the table is full |
| BalanceCaches.RunRefines | 1-to-file/main_file.cpp:609-683 | after any run of updates from an empty table, every read agrees with the map and the count with its size |
| BalanceCaches.RunHoldsSums | 1-to-file/main_file.cpp:634-639 | a key held has the sum of all its deltas modulo 2^64 |
| BalanceCaches.NothingDroppedIff | 1-to-file/main_file.cpp:609-650 | no update of a run is dropped if and only if the run uses at most as many keys as there are slots |
| BalanceCaches.DroppedIff | 1-to-file/main_file.cpp:609-650 | an update is dropped, and counted as a miss, if and only if the table is full and the key is not held |
| BalanceCaches.HitIff | 1-to-file/main_file.cpp:652-683 | a read counts as a hit if and only if the key is held, or is all zero with an unused home slot |
| BalanceCaches.HomeMixes | 1-to-file/main_file.cpp:612-612 | the home slot mixes the first two address bytes, side by side, with the token |
| BalanceCaches.XorBit | 1-to-file/main_file.cpp:612-612 | the mixing is bitwise exclusive or |
| BalanceCaches.BalanceCache.constructor | 1-to-file/main_file.cpp:584-596 | an empty table of the given capacity |
| BalanceCaches.BalanceCache.Update | 1-to-file/main_file.cpp:609-650 | the probing loop makes the specified write, and counts a hit, or a miss when the update is dropped |
| BalanceCaches.BalanceCache.Get | 1-to-file/main_file.cpp:652-683 | the probing loop returns the specified read, changes no slot, and counts a hit or a miss |
| Settlement.SettlementRefines | 1-to-file/main_file.cpp:1386-1403 | settling on the table is settling on the map it stands for, full tables included |
| Settlement.SettlementExact | 1-to-file/main_file.cpp:1368-1403 | when the sum of amount, fee and gas does not wrap and the token total fits 64 bits, an accepted transaction takes the cost from the sender and adds the amount to the recipient, never wraps, leaves every other balance and token alone, also for a transfer to oneself; the token total falls by exactly fee plus gas if and only if the recipient can be credited |
| Settlement.MintsIff | 1-to-file/main_file.cpp:1371-1398 | an accepted transaction, on any balances, raises its token total if and only if the cost sum wraps (which is when the cost is below the amount), the credit finds a slot and the recipient does not wrap |
| Settlement.CostCoversIff | 1-to-file/main_file.cpp:1371-1371 | the computed cost covers the amount if and only if amount plus fee plus gas stays below 2^64 |
| Settlement.AcceptedIff | 1-to-file/main_file.cpp:1368-1384 | accepted if and only if the balance covers the 64-bit sum of amount, fee and gas, and there is no deadline or it has not passed |
| Settlement.GasCostIff | 1-to-file/main_file.cpp:1371-1371 | the gas cost is the 64-bit product of price and limit in billionths, rounded down |
| Settlement.DebitExact | 1-to-file/main_file.cpp:1396-1397 | debiting a covered cost by adding its 64-bit negation takes exactly the cost off one balance |
| Settlement.CreditExact | 1-to-file/main_file.cpp:1398-1398 | crediting adds exactly the amount when the key is held or a slot is free, and otherwise changes nothing |
| Settlement.NeverMints | 1-to-file/main_file.cpp:1386-1403 | no run of settlements whose costs cover their amounts, accepted or refused, with or without free slots, raises the total of any token |
| Settlement.WrappedCostMints | 1-to-file/main_file.cpp:1371-1376 | a cost that wraps to 0 in 64 bits is accepted and creates the amount out of nothing |
| Settlement.Engine.ProcessTransaction | 1-to-file/main_file.cpp:1386-1403 | accepts exactly when the balance of the sender covers the cost and the deadline has not passed, changes no balance when it refuses, and counts what it accepts |
| Mempool.TransactionPool.constructor | 1-to-file/main_file.cpp:685-699 | an empty ring of any capacity |
| Mempool.TransactionPool.Add | 1-to-file/main_file.cpp:713-729 | appends at the back of the queue, or refuses exactly when the ring is full; size stays added minus removed |
| Mempool.TransactionPool.Pop | 1-to-file/main_file.cpp:731-747 | takes the oldest transaction, or reports an empty queue |
| Mempool.TransactionPool.Peek | 1-to-file/main_file.cpp:749-762 | shows the oldest transaction without taking it |
| Mempool.TransactionPool.RemoveByHash | 1-to-file/main_file.cpp:764-782 | reports whether a transaction with the hash is queued, and removes nothing |
| Mempool.Assemble | 1-to-file/main_file.cpp:1419-1444 | the popping loop takes exactly the specified prefix of the queue and sends at most one transaction to the back |
| Mempool.GasUsed | 1-to-file/main_file.cpp:1446-1459 | the gas counter is the sum of the gas limits modulo 2^32 |
| Mempool.CreateBlock | 1-to-file/main_file.cpp:1405-1459 | the block holds the specified prefix of at most 8192 transactions, its gas used is their sum modulo 2^32; the pool keeps the rest, with the transaction after the prefix, if it was popped, at the back |
| Mempool.TakenIff | 1-to-file/main_file.cpp:1419-1444 | when nothing wraps, k transactions are taken if and only if k is the most that fits 8192 and a true gas sum of 8000000 |
| Mempool.AssemblyConserves | 1-to-file/main_file.cpp:1419-1444 | block and remaining pool together are the old queue as a multiset: nothing is lost or duplicated |
| Mempool.LongestPrefix | 1-to-file/main_file.cpp:1419-1444 | when no addition wraps, the block is the longest prefix of the queue that fits the block size and the gas limit |
| Mempool.GasWithinLimitIff | 1-to-file/main_file.cpp:1421-1438 | the true gas sum of the block stays within the limit if and only if no queued transaction within the block size follows a prefix within the limit and wraps the 64-bit sum |
| Mempool.WrappedGasTaken | 1-to-file/main_file.cpp:1421-1438 | a gas limit of 2^64 - 1 is taken because the running sum wraps |
| SwapQuote.LiquidityManager.CalculateSwap | 1-to-file/main_file.cpp:1127-1150 | 0 for an unknown pool; for token A paid in, the quote of reserve A against reserve B, otherwise the other way round: exact when nothing reaches 2^64, then the amount a run of swaps moves; whenever the denominator does not wrap, less than the reserve is paid out and the product of the reserves does not fall |
| SwapQuote.QuoteIff | 1-to-file/main_file.cpp:1145-1146 | the quote is y if and only if y is the largest amount worth no more than the net payment at the new price |
| SwapQuote.NetIff | 1-to-file/main_file.cpp:1145-1145 | the net payment is the largest amount n with 10000 n at most x times 10000 less the fee |
| SwapQuote.QuoteOfBothSides | 1-to-file/main_file.cpp:1136-1146 | for reserves 1000 and 2000 and no fee, 100 of token A buy 181, 100 of token B buy 47 |
| SwapQuote.EmptyReserveQuotesNothing | 1-to-file/main_file.cpp:1139-1143 | an empty reserve on either side quotes 0 |
| SwapQuote.FeeAboveWholeWraps | 1-to-file/main_file.cpp:1145-1145 | a fee above 10000 wraps in 32 bits |
| SwapQuote.SoundWithoutDenominatorWrap | 1-to-file/main_file.cpp:1145-1146 | wraps of the products alone only lower the quote: payout below the reserve, product not falling |
| SwapQuote.BelowReserveIff | 1-to-file/main_file.cpp:1145-1146 | while the numerator does not wrap, less than the reserve is paid out if and only if the denominator does not wrap |
| SwapQuote.DenominatorWrapsToZero | 1-to-file/main_file.cpp:1146-1146 | an input at which the code divides by zero |
| SwapQuote.WrappedDenominatorPaysTooMuch | 1-to-file/main_file.cpp:1146-1146 | an input at which more than the whole reserve is quoted |
| SwapQuote.QuoteIsExact | 1-to-file/main_file.cpp:1127-1150 | when no intermediate value reaches 2^64 the quote is the one on unbounded integers and nothing divides by zero |
| SwapQuote.SmallAmountsFit | 1-to-file/main_file.cpp:1145-1146 | amounts whose products with 10000 and with the reserve stay below 2^64 wrap nowhere |
| SwapQuote.OutputBelowReserve | 1-to-file/main_file.cpp:1145-1146 | less than the whole reserve is paid out |
| SwapQuote.ProductNeverFalls | 1-to-file/main_file.cpp:1127-1150 | the product of the reserves never falls |
| SwapQuote.RoundTripNeverGains | 1-to-file/main_file.cpp:1127-1150 | swapping back what was bought never returns more than was paid in |
| SwapQuote.QuoteMonotonic | 1-to-file/main_file.cpp:1127-1150 | paying more never buys less |
| SwapQuote.NetSuperadditive | 1-to-file/main_file.cpp:1145-1145 | taking the fee off two parts separately never leaves more than taking it off the whole |
| SwapQuote.SplittingNeverGains | 1-to-file/main_file.cpp:1127-1150 | two swaps in a row, on the updated reserves, never pay more than one swap of the sum, despite the floor divisions |
| SwapQuote.RunProductNeverFalls | 1-to-file/main_file.cpp:1127-1150 | the product of the reserves never falls over any run of swaps in both directions |
| SwapQuote.NoFreeLunch | 1-to-file/main_file.cpp:1127-1150 | no run of swaps lowers one reserve without raising the other |
| HashStreams.ZeroCountIsLeast | main.cpp:455-459 | the number of zero bytes is the least one that leaves room for the length field, as section 5.1.1 of FIPS 180-4 asks |
| HashStreams.LengthFieldExact | main.cpp:451-465 | below 2^61 bytes the last 8 bytes of the padded message are its length in bits |
| HashStreams.PaddedParts | main.cpp:449-465 | the padded message is the message, the marker 0x80, zeros, and the length in the last 8 bytes, in whole blocks of 64 |
| HashStreams.FoldedFromFront | main.cpp:435-447 | blocks are compressed from the front, each with the state the ones before it left |
| HashStreams.InitialState256 | main.cpp:371-383 | the initial state is taken from the square roots of the first eight primes, as section 5.3.3 of FIPS 180-4 has it |
| HashStreams.DigestWords | main.cpp:467-473 | the digest lists the eight state words in order, most significant byte first |
| HashStreams.HexDigestWords | p2p_banking_system/core/sha1.cpp:99-102 | the digest writes the five state words in order, eight hexadecimal digits each |
| HashStreams.OneMoreByte | main.cpp:435-447 | feeding one byte compresses a block exactly when it completes one |
| HashStreams.Sha256.constructor | main.cpp:371-383 | the context starts on the empty message |
| HashStreams.Sha256.PutByte | main.cpp:437-446 | the context stands for the message with one byte appended |
| HashStreams.Sha256.Update | main.cpp:435-447 | however a message of any length is split into updates, the context stands for their concatenation, even after the byte counter has wrapped |
| HashStreams.Sha256.Pad | main.cpp:449-465 | the context then stands for the padded message of section 5.1.1; the 64-byte padding buffer is never indexed past its end |
| HashStreams.Sha256.Final | main.cpp:449-474 | the digest is the compression function folded over the padded message, big-endian |
| HashStreams.HashSha256 | main.cpp:476-482 | the one-shot call is the digest of its argument |
| HashStreams.Sha1.constructor | p2p_banking_system/core/sha1.cpp:4-18 | the context starts on the empty message |
| HashStreams.Sha1.Consume | p2p_banking_system/core/sha1.cpp:78-83 | the block loop compresses exactly the whole blocks and keeps what is left over |
| HashStreams.Sha1.Update | p2p_banking_system/core/sha1.cpp:75-84 | however a message is split into updates, the context stands for their concatenation |
| HashStreams.Sha1.PadBuffer | p2p_banking_system/core/sha1.cpp:88-93 | pushing zeros one by one stops at the padding of section 5.1.1 |
| HashStreams.Sha1.Final | p2p_banking_system/core/sha1.cpp:86-103 | 40 hexadecimal characters of the compression function folded over the padded message |
| HashStreams.HashSha1 | p2p_banking_system/core/sha1.cpp:105-110 | the one-shot call is the digest of its argument |
| HashStreams.MerkleSoundnessForSha1 | p2p_banking_system/blockchain/merkle_tree.cpp:163-182 | over this SHA-1 and strings of bytes, from a wrong value accepted at a leaf ExtractCollision computes two byte strings with different bytes and the same SHA-1 |
| CounterMode.IncrementedAddsOne | main.cpp:764-773 | the byte carry adds one modulo 256^n to the big-endian number |
| CounterMode.CounterValue | main.cpp:764-773 | n carries add n as long as the number does not overflow |
| CounterMode.CounterIsInc32 | main.cpp:764-773 | started at J0 the full-width carry agrees with inc32 of section 6.2 of NIST SP 800-38D for the first 2^32 - 2 blocks |
| CounterMode.CountersDistinct | main.cpp:753-784 | no two counter blocks of a message are equal and none is J0 |
| CounterMode.AcceptedMessagesFit | main.cpp:865-905 | every message up to the size limit of the library stays below the 32-bit counter limit |
| CounterMode.GctrInvolution | main.cpp:753-784 | counter mode undoes itself, for every block function and every length |
| CounterMode.Increment | main.cpp:764-773 | the carry loop on the block in place computes the specified increment |
| CounterMode.RunGctr | main.cpp:753-784 | the block loop with its short last block writes the specified output and nothing past it |
| CounterMode.DecryptOfEncrypt | main.cpp:865-958 | decrypting what was encrypted succeeds with the plaintext |
| CounterMode.DecryptAcceptsOnlyEncrypted | main.cpp:907-958 | decryption gives a plaintext if and only if encrypting that plaintext gives this ciphertext and tag |
| CounterMode.AadAuthenticated | main.cpp:865-958 | a sealed message opens under other additional data if and only if the hash gives both the same value |
| CounterMode.AcceptedTagIff | main.cpp:907-940 | a ciphertext is accepted with exactly one tag: the hash of additional data and ciphertext under the encrypted zero block, masked with the encryption of the vector and block number 1 |
| CounterMode.CipherBytes | main.cpp:753-784 | byte k of the ciphertext is masked with the encryption of the vector and block number k / 16 + 2; only vectors of 12 bytes are taken |
| CounterMode.GcmEncrypt | main.cpp:865-905 | ciphertext and tag as specified, refused for any other length of the initialisation vector |
| CounterMode.GcmDecrypt | main.cpp:907-958 | the tag decides before anything is decrypted |
| Sessions.RunInvariant | main.cpp:1479-1720 | after any run of create, get, destroy, cleanup and rotate: count is the number of active slots and created minus destroyed, inactive slots hold zero keys, the current master key is the n-fold hash of the first after n rotations, and every active slot holds the keys of the master key as it was after exactly the rotations that preceded its last opening in the run |
| Sessions.KeysOfOpening | main.cpp:1479-1632 | whatever happens after a slot was opened, rotations included: while active and not opened anew it holds the keys derived from the master key current at its opening |
| Sessions.CreateOpens | main.cpp:1557-1632 | a successful creation opens the lowest free slot: active, with the given key id, keys derived from the current master key and at most 32 bytes of the id, expiry and counts as read and counted, everything else unchanged; otherwise nothing changes |
| Sessions.CreatedIsLive | main.cpp:1557-1689 | an identifier handed out can be fetched until its expiry passes, whatever else happens, and gives the keys of the master key current when it was handed out |
| Sessions.GetUses | main.cpp:1634-1689 | fetching succeeds exactly for an active slot not past its expiry and counts the use; past it the slot is closed and its keys are zero; nothing else changes |
| Sessions.DestroyCloses | bank_crypto_project/src/session/bank_session_destroy.cpp:14-43 | an active slot becomes inactive with zero keys and key id, the others stay; any other identifier changes nothing |
| Sessions.CleanupCloses | bank_crypto_project/src/session/bank_session_destroy.cpp:45-73 | exactly the active slots past their expiry become inactive with zero keys, the others stay |
| Sessions.RotateAdvances | main.cpp:1479-1511 | the next of 8 places gets the hash of the current master key and the seed and becomes current; sessions and other places stay |
| Sessions.InitialInvariant | main.cpp:1442-1477 | the invariant holds right after initialisation |
| Sessions.CreateSucceedsIff | main.cpp:1557-1632 | creation fails exactly for an overlong key id or a full table; whenever the count leaves room the slot search succeeds |
| Sessions.CreateKeeps | main.cpp:1557-1632 | creation keeps the invariant and records the current number of rotations for the opened slot |
| Sessions.GetKeeps | main.cpp:1634-1689 | fetching keys, closing an expired session included, keeps the invariant |
| Sessions.DestroyKeeps | main.cpp:1691-1720 | destroying keeps the invariant, whatever the identifier |
| Sessions.CleanupKeeps | bank_crypto_project/src/session/bank_session_destroy.cpp:45-73 | cleanup keeps the invariant and leaves no active slot past its expiry |
| Sessions.RotateKeeps | main.cpp:1479-1511 | rotation keeps the invariant with one rotation more and leaves every open session its keys |
| Sessions.ApplyKeeps | main.cpp:1479-1720 | every operation keeps the invariant, and only creation changes what is recorded about a slot |
| Sessions.SessionManager.constructor | main.cpp:1442-1477 | an empty table and a key chain that starts with the master key |
| Sessions.SessionManager.CreateSession | main.cpp:1557-1632 | identifier and whole new table, error cases and the three clock readings included |
| Sessions.SessionManager.GetSessionKey | main.cpp:1634-1689 | succeeds exactly for a live session in range, returns its keys, closes an expired one |
| Sessions.SessionManager.DestroySession | bank_crypto_project/src/session/bank_session_destroy.cpp:14-43 | whole new table: an active slot is erased and counted, anything else changes nothing |
| Sessions.SessionManager.CleanupExpiredSessions | bank_crypto_project/src/session/bank_session_destroy.cpp:45-73 | whole new table: every expired slot is closed, no other touched |
| Sessions.SessionManager.RotateMasterKey | main.cpp:1479-1511 | whole new key chain, also when it is full and starts over |
| Envelopes.RoundTripIff | main.cpp:1899-1992 | unless two key pairs held share a fingerprint, extracting a just-created envelope returns the plaintext if and only if the first slot holding its keys, perhaps another one, has not expired |
| Envelopes.RoundTrip | main.cpp:1899-1992 | in particular it does whenever no active slot is past its expiry |
| Envelopes.DamagedEnvelopeRejected | main.cpp:1949-1954 | ciphertext changed only inside 32 consecutive bits is refused before any session is touched |
| Envelopes.ChangedAadRefused | main.cpp:1899-1992 | a just-created envelope is refused under other additional data, unless the hash does not tell the two apart |
| Envelopes.ExtractedIff | main.cpp:1942-1992 | a plaintext comes out if and only if checksum and size are right, the lowest slot with these keys is not past its expiry, and the cipher mode opens the data under its key |
| Envelopes.CreateOkIff | main.cpp:1899-1925 | creation succeeds exactly for data of at most 10484736 bytes and a session live at both fetches |
| Envelopes.CreatedFields | main.cpp:1899-1940 | what each field of an envelope holds |
| Envelopes.CreationUses | main.cpp:1899-1925 | creation counts two uses of its session and touches nothing else |
| Envelopes.ExtractionFetches | main.cpp:1942-1992 | extraction fetches the keys of the lowest matching slot, and only after checksum and size |
| Envelopes.CreateEnvelope | main.cpp:1899-1940 | the envelope, or none, and the session table after both key fetches |
| Envelopes.ExtractEnvelope | main.cpp:1942-1992 | the plaintext, or none, and the session table after the search and the fetch |
| Blockchain.RunInvariant | p2p_banking_system/blockchain/blockchain.cpp:23-92 | over every run from any starting balances: each balance is its start plus received minus sent, each account list is the chain-order projection (twice for a transfer to itself), the index holds the last block of each hash, total supply is constant, and all links and hashes hold |
| Blockchain.PostBalance | p2p_banking_system/blockchain/blockchain.cpp:38-47 | posting transactions changes a balance by what it received minus what it sent |
| Blockchain.AllValidIff | p2p_banking_system/blockchain/blockchain.cpp:23-36 | a list is accepted if and only if every transaction verifies and is covered by its sender after those before it |
| Blockchain.BadTransactionRefused | p2p_banking_system/blockchain/blockchain.cpp:49-92 | one transaction that does not verify or is not covered makes both ways of adding refuse the whole list and change nothing |
| Blockchain.RunAllSigned | p2p_banking_system/blockchain/blockchain.cpp:23-92 | after any run every transaction on the chain after the genesis block verifies |
| Blockchain.PostKeepsSum | p2p_banking_system/blockchain/blockchain.cpp:38-47 | posting keeps the sum of all balances |
| Blockchain.EnterAllProjects | p2p_banking_system/blockchain/blockchain.cpp:38-47 | the account lists grow by the projection of the transactions |
| Blockchain.TransferOverdrawsIff | p2p_banking_system/blockchain/blockchain.cpp:30-33 | from non-negative balances a covered transfer leaves none negative if and only if it is to oneself or the recipient can bear the amount |
| Blockchain.ValidOverdrawsIff | p2p_banking_system/blockchain/blockchain.cpp:23-47 | no balance is negative at any moment of posting a validated list if and only if every recipient can bear its transfer when its turn comes |
| Blockchain.ValidNeverOverdraws | p2p_banking_system/blockchain/blockchain.cpp:23-36 | validated non-negative transfers leave no balance below zero |
| Blockchain.RunOverdrawsIff | p2p_banking_system/blockchain/blockchain.cpp:23-92 | from non-negative starts, no balance is negative at any moment of a run if and only if every transfer it posts can be borne by its recipient |
| Blockchain.RunNeverOverdraws | p2p_banking_system/blockchain/blockchain.cpp:23-92 | in particular no balance goes negative over any run with non-negative starts and amounts |
| Blockchain.NegativeAmountOverdraws | p2p_banking_system/blockchain/blockchain.cpp:23-36 | every negative amount that verifies passes validation on a fresh chain and overdraws the recipient by it |
| Blockchain.MinedMeetsTarget | p2p_banking_system/blockchain/block.cpp:23-45 | mining changes nonce and difficulty only and ends with a hash that meets the target |
| Blockchain.MinedIff | p2p_banking_system/blockchain/block.cpp:23-45 | mining finds the first of a million nonces whose hash starts with four zeros, and fails if and only if there is none |
| Blockchain.AddedBlock | p2p_banking_system/blockchain/blockchain.cpp:49-73 | the block appended holds the given transactions, their root, validator and time, position, the hash before it, and the hash of its own header |
| Blockchain.DirectIff | p2p_banking_system/blockchain/blockchain.cpp:75-92 | a direct block is taken as it is if and only if position, link, hash and transactions are right |
| Blockchain.TamperEvident | p2p_banking_system/blockchain/blockchain.cpp:139-156 | two verified chains with the same hash at a position agree in all headers and hashes up to it, or two different headers with the same hash are found |
| Blockchain.ChainOkIff | p2p_banking_system/blockchain/blockchain.cpp:139-156 | what a verified chain shows, check by check |
| Blockchain.AddBlockKeeps | p2p_banking_system/blockchain/blockchain.cpp:49-73 | adding a block keeps the invariant, and the block added carries the matching Merkle root |
| Blockchain.AppendKeeps | p2p_banking_system/blockchain/blockchain.cpp:64-72 | appending a linked block keeps every derived index equal to a replay |
| Blockchain.WrongRootAccepted | p2p_banking_system/blockchain/blockchain.cpp:75-92 | whatever the hashes are, a fresh chain accepts a concrete block with a wrong root, after which verification fails |
| Blockchain.StepVerifiesIff | p2p_banking_system/blockchain/blockchain.cpp:49-92 | a step keeps the chain verifiable if and only if it is not the acceptance of a direct block with a wrong root |
| Blockchain.RunVerifiesIff | p2p_banking_system/blockchain/blockchain.cpp:49-156 | after any run, verification succeeds if and only if every direct block accepted carried a matching root |
| Blockchain.RunVerifies | p2p_banking_system/blockchain/blockchain.cpp:49-156 | in particular it does when all direct blocks of the run carry one |
| Blockchain.CalculateMerkleRoot | p2p_banking_system/blockchain/transaction.cpp:83-102 | the root over the transactions agrees with the Merkle tree over their hashes |
| Blockchain.MineBlock | p2p_banking_system/blockchain/block.cpp:23-45 | finds the first nonce that meets the target within the attempts allowed, or reports none |
| Blockchain.BankingBlockchain.constructor | p2p_banking_system/blockchain/blockchain.cpp:7-21 | a chain of the genesis block alone |
| Blockchain.BankingBlockchain.ValidateTransactions | p2p_banking_system/blockchain/blockchain.cpp:23-36 | accepts exactly when every transaction verifies and is covered in order, changing nothing |
| Blockchain.BankingBlockchain.UpdateBalances | p2p_banking_system/blockchain/blockchain.cpp:38-47 | balances and account lists after all transactions, in order |
| Blockchain.BankingBlockchain.AddBlock | p2p_banking_system/blockchain/blockchain.cpp:49-73 | the whole new state; a rejected block changes nothing |
| Blockchain.BankingBlockchain.AddBlockDirect | p2p_banking_system/blockchain/blockchain.cpp:75-92 | accepts exactly when link, hash, index and transactions are right; a rejected block changes nothing |
| Blockchain.BankingBlockchain.GetBalance | p2p_banking_system/blockchain/blockchain.cpp:124-128 | the balance, 0 for an unknown account, which is entered |
| Blockchain.BankingBlockchain.VerifyChain | p2p_banking_system/blockchain/blockchain.cpp:139-156 | true exactly when every link, hash and Merkle root of the chain is right |
| Blockchain.BankingBlockchain.GetTotalSupply | p2p_banking_system/blockchain/blockchain.cpp:193-202 | the sum of all balances |
| RateLimiters.SlidingWindowSafe | 1-to-file/P2PSecurityProxySystem.java:1007-1026 | over any run with a clock that never goes back, clean-ups included, no closed interval as long as the window holds more than 100 allowed requests of one address |
| RateLimiters.RequestRefusedIff | 1-to-file/P2PSecurityProxySystem.java:1007-1026 | after any run a request is refused if and only if 100 requests of its address were allowed within the last minute; other addresses and clean-ups play no part |
| RateLimiters.LimitGranted | 1-to-file/P2PSecurityProxySystem.java:1010-1020 | of any number of requests at one instant exactly 100 are allowed, or all of them if fewer |
| RateLimiters.SpacedBound | 1-to-file/P2PSecurityProxySystem.java:1010-1020 | times of which any n + 1 in a row take longer than the window are at most n in any closed interval of its length |
| RateLimiters.ExpiryKeeps | 1-to-file/P2PSecurityProxySystem.java:1022-1025 | dropping an expired limiter forgets no request that is still inside the window |
| RateLimiters.RunRemembers | 1-to-file/P2PSecurityProxySystem.java:1007-1026 | after any run the queue of an address is the newest allowed times, and all forgotten ones are out of the window |
| RateLimiters.RateLimiter.AllowRequest | 1-to-file/P2PSecurityProxySystem.java:1010-1020 | the pruning loop decides and updates the queue as specified |
| RateLimiters.ProxyServer.CheckRequest | 1-to-file/P2PSecurityProxySystem.java:200-205 | an address without a limiter gets an empty one; no other address is affected |
| RateLimiters.ProxyServer.CleanupLimiters | 1-to-file/P2PSecurityProxySystem.java:610-610 | exactly the limiters without requests or with a first request more than two minutes back are dropped |
| RateLimiters.FixedWindowBound | p2p_banking_system/security/intrusion_detection.cpp:25-43 | over any run with a clock that never goes back, a closed interval as long as the window holds at most twice the limit less one allowed calls, and at most the limit for the window 0 and the longest window |
| RateLimiters.FixedWindowBoundReached | p2p_banking_system/security/intrusion_detection.cpp:25-43 | for every limit and every 64-bit window some run and interval reach that bound |
| RateLimiters.IntrusionDetection.IsRateLimited | p2p_banking_system/security/intrusion_detection.cpp:25-43 | limited exactly beyond the limit inside an open window, with the unsigned clock difference of the code, and the new state of this key only |
| Ternary.RoundTripIff | p2p_banking_system/core/ternary.cpp:5-36 | converting to balanced ternary and back gives n without any overflow if and only if n is not the smallest int64 |
| Ternary.EvalOfDigits | p2p_banking_system/core/ternary.cpp:5-36 | no product or sum of the back conversion leaves the range, for every int64 but the smallest |
| Ternary.AdjustmentFitsIff | p2p_banking_system/core/ternary.cpp:10-23 | the digit adjustment leaves the int64 range at the smallest value and nowhere else |
| Ternary.BalancedUnique | p2p_banking_system/core/ternary.cpp:5-28 | the result is the only digit list over -1, 0, 1 without a leading zero that has its value |
| Ternary.BalancedWellFormed | p2p_banking_system/core/ternary.cpp:5-28 | the result is such a list |
| Ternary.ValOfBalanced | p2p_banking_system/core/ternary.cpp:5-36 | the digits have the value they were made from |
| Ternary.ValOfPlain | p2p_banking_system/core/ternary.cpp:38-58 | plain ternary digits are 0, 1, 2 and have the value they were made from |
| Ternary.TextRoundTrip | p2p_banking_system/core/ternary.cpp:60-128 | both codecs give every byte string back, and no conversion overflows on the way |
| Ternary.DecodeOfEncode | p2p_banking_system/core/ternary.cpp:60-128 | what an encoded prefix decodes to does not depend on what follows it |
| Ternary.EncodeConcat | p2p_banking_system/core/ternary.cpp:60-109 | encoding distributes over concatenation |
| Ternary.Alphabets | p2p_banking_system/core/ternary.cpp:60-109 | plain digits stand for themselves, -1 is written T, a bar closes each byte |
| Ternary.ForeignSkipped | p2p_banking_system/core/ternary.cpp:74-128 | foreign characters are skipped wherever they stand |
| Ternary.ToBalancedTernary | p2p_banking_system/core/ternary.cpp:5-28 | the division loop terminates with the unique digits, and overflows for the smallest int64 only |
| Ternary.FromBalancedTernary | p2p_banking_system/core/ternary.cpp:30-36 | the value of the digits, or the report of an overflow in 64 bits |
| Ternary.ToTernary | p2p_banking_system/core/ternary.cpp:38-50 | the division loop gives the plain digits, one 0 for 0 |
| Ternary.FromTernary | p2p_banking_system/core/ternary.cpp:52-58 | the value of the digits modulo 2^64 |
| Ternary.EncodeText | p2p_banking_system/core/ternary.cpp:60-109 | the loop writes the specified text, bars included |
| Ternary.DecodeText | p2p_banking_system/core/ternary.cpp:74-128 | the loop reads the specified bytes, skipping foreign characters, and reports a digit run whose signed conversion overflows |
| WebSocket.FrameRoundTrip | p2p_banking_system/api/websocket.cpp:140-232 | a frame of either side is received by the other as it was sent and exactly its bytes are consumed, for all three length forms |
| WebSocket.StreamRoundTrip | p2p_banking_system/api/websocket.cpp:140-232 | any sequence of payloads arrives as that sequence and uses up exactly its own bytes, in both directions |
| WebSocket.MaskedRoundTrip | p2p_banking_system/api/websocket.cpp:168-232 | the server recovers every payload masked as in section 5.3 of RFC 6455 |
| WebSocket.HeadRecovered | p2p_banking_system/api/websocket.cpp:168-196 | opcode, mask bit and length are recovered from a head followed by anything |
| WebSocket.LengthRecovered | p2p_banking_system/api/websocket.cpp:180-194 | the 7-, 16- and 64-bit length forms denote the length they were written for |
| WebSocket.FrameForms | p2p_banking_system/api/websocket.cpp:140-166 | a frame is 0x81, the mask bit of the server with the length in one, three or nine bytes, and the data |
| WebSocket.CloseOpcodeCloses | p2p_banking_system/api/websocket.cpp:225-229 | opcode 8 closes the connection whatever else the frame says |
| WebSocket.OtherOpcodesIgnored | p2p_banking_system/api/websocket.cpp:178-179 | the final bit and all other opcodes make no difference |
| WebSocket.CutFrameCloses | p2p_banking_system/api/websocket.cpp:168-216 | a stream that ends before the second byte or inside the payload closes the connection |
| WebSocket.ServerReadsServerIff | p2p_banking_system/api/websocket.cpp:140-232 | a server reads back a frame of a server if and only if it is empty and nothing follows |
| WebSocket.ServerFrameCloses | p2p_banking_system/api/websocket.cpp:140-232 | on its own any other such frame closes the connection |
| WebSocket.SendFrame | p2p_banking_system/api/websocket.cpp:140-166 | the pushing loops build the specified frame for both sides, which differ only in the mask bit |
| WebSocket.ReceiveLength | p2p_banking_system/api/websocket.cpp:181-194 | the byte loops compute the big-endian length |
| WebSocket.ReceivePayload | p2p_banking_system/api/websocket.cpp:202-231 | whatever pieces the connection delivers, the payload is what was sent, unmasked in place; a close or a short stream ends the connection |
| WebSocket.ReceiveFrame | p2p_banking_system/api/websocket.cpp:168-232 | the server and, without unmasking, the client receive exactly the specified frame |

## Left out

- Sockets, threads, locks, files, logging and console output: outside the model, except that the results of send and recv are inputs.
- Compression functions, AES rounds, GHASH, PBKDF2, Poly1305, ChaCha20, SHA-512, HKDF, elliptic curves and quantum signatures: parameters or absent; no conformance is claimed for them.
- BalanceCaches.BalanceCache.Update: the index_map, locked_balance, lock_until and nonce fields of an entry, which these calls never use, are left out; the block stamp is always 1, as in the code.
- BalanceCaches.BalanceCache.constructor: capacities from 1 to 2^32; a capacity of 0 would divide by zero in the code, and allocation failure is not modelled.
- Mempool.TransactionPool.Add: the position counters are taken not to have reached 2^64 - 1; what happens after that many additions is not modelled.
- Mempool.CreateBlock: block fields other than the transactions and the gas used, and the worker thread's own change of the pool size, are left out.
- SwapQuote.LiquidityManager.CalculateSwap: a denominator that wraps to exactly 0 divides by zero in the code and is excluded.
- SwapQuote.RunProductNeverFalls: the code only quotes and never moves reserves; the run adds what is paid in and subtracts what is quoted.
- SwapQuote.SplittingNeverGains: stated on unbounded integers; QuoteIsExact says when the 64-bit quote equals them.
- PacketFraming.Node.ReceivePacket: buffers are below 2^31 bytes, because the length is passed on as an int; the range check of the node number is left out.
- PacketFraming.RoundTrip: payloads below 2^32 bytes, as the 32-bit length field can say.
- Sessions.SessionManager.constructor: initialisation on zeroed globals; initialising a second time, the final wipe and the initialised flag are left out.
- Sessions.SessionManager.CreateSession: a failing random generator, the random salt of a slot, which nothing reads, and the encryption counters are left out.
- Envelopes.ExtractEnvelope: version and compression flag of an envelope, which are constants that extraction never reads, and buffer-size errors of the caller are left out.
- Blockchain.BankingBlockchain.constructor: takes arbitrary starting balances, the code starts from none.
- Blockchain.BankingBlockchain.GetTotalSupply: floating-point rounding of amounts is not modelled.
- RateLimiters.IntrusionDetection.IsRateLimited: the overflow of the 64-bit call counter is not modelled.
- RateLimiters.FixedWindowBound: the limit and the window of a key are the same in every call of a run.
- The ternary tree and the reserve calls of the ternary module: the codecs do not depend on them.
- WebSocket.ReceiveFrame: bytes a failed read leaves uninitialised are one arbitrary 8-byte input; handshake, topics and close frames sent by the server are left out.
- Contracts, access control, audit logs, peer scores, databases, connection pools and record serialisation: easy, lossy or I/O.
