# sgminer in Dafny

A model of the parts of sgminer whose correctness takes an argument, with proofs. sgminer is a GPU miner: it fetches
work from pools, stamps and hashes block headers, hands out nonce ranges to GPUs, and is steered through a text API.
The GPU, network and terminal plumbing is not modelled. Five parts are:

* **Hashing** (`Words`, `Fips180`, `FipsConstants`, `FipsExample`, `Sha2`, `Sha2Stream`, `ScryptSha`, `Rfc8018`,
  `HmacWords`, `ScryptKdf`, `Rfc7914`, `Rfc7914Example`, `ScryptIndex`, `Scrypt`). Two SHA-256 compressions, a streaming
  SHA-256, two PBKDF2 routines with their padding folded into constants, and an unrolled in-place scrypt, each a method
  over arrays proved equal to the plain definition of its standard: FIPS 180-4, RFC 2104, RFC 8018 and RFC 7914. The
  definitions are held to the standards in turn: the constants to the roots they come from, the compression and the
  Salsa20/8 core to published examples.
* **The lock and what is built on it** (`CgLock`, `Nonce2`, `Merkle`, `MerkleBuild`, `WorkGen`). The lock is a
  transition system over any number of threads with one pthread call a step. Work generation runs on top of that same
  system, with the coinbase written and read a byte at a time, so that what is proved of an item holds in every
  interleaving. The Merkle code is proved against the recursive definition of the root.
* **The pool table** (`PoolOrder`, `PoolTable`, `Pools`, `PoolCommands`, `QuotaMath`, `QuotaAdjust`, `QuotaRotation`,
  `PoolSelect`, `PoolRuns`, `PoolStray`). Pools are objects that are swapped, renumbered and re-prioritised in place.
  Priorities are kept a permutation, which gives an order of the pools; what every command does is said of that order.
  Load balancing is proved exact over whole runs, and what a selection can return over runs with everything else in
  between.
* **The work queue and the derivation of work** (`HashSort`, `WorkQueue`, `Rolling`, `NonceScan`). The staged queue,
  kept in order by the merge sort of its hash table, with its approximate counter; ntime rolling over runs of clones;
  and the nonces that the kernels of a work item work on.
* **Linked lists and the API text** (`Lists`, `Selections`, `CurlRing`, `CStrings`, `ApiEscape`, `ApiData`, `ApiParse`,
  `ApiRoundTrip`, `ApiReply`, `PoolDetails`). Intrusive circular lists on the heap refine sequences; the reply printer
  and the PHP parser, which live in different programs, are proved inverse to each other.

`Options`, `Sequences`, `Division`, `ByteValues` and `Decimals` hold small general facts.

Times, staleness, random choices and the outcomes of GPU calls are parameters: a claim over all runs quantifies over
them too. A method that works on an array or an object in the original works on one here and is tied to a function of
the old state; lemmas then say what that function means.

Where the code does not do what its names or comments suggest, the model follows the code:

* `adjust_quota_gcd` does not always find the greatest common divisor; `QuotaMath` says for exactly which quotas it
  does. It rescales a negative count correctly exactly when the divisor divides 2^32.
* `remove_pool` does not adjust the rotating position of `select_pool`, which can then use a pool from a slot behind the
  table. `PoolSelect.StraysExactly` says when it returns one that is no longer in the table. In a run that takes an
  accepted share for a removed pool that was put aside for its rejects (`PoolRuns.Serve`); `PoolStray` has such runs.
* `enabled_pools` does not count the enabled pools: new pools are enabled without it, and the commands of the API change
  states without it. Pools are put aside for rejects only while it is above 1; without the menu of the terminal, which
  does count, that never happens after a plain startup (`PoolRuns.ServeFromStart`).
* The length field that `sha256_final` writes is right exactly below 2^29 bytes.
* `staged_rollable` only bounds the rollable items from above; the contracts of `WorkQueue.Stage` say exactly which
  operations make it drift, and by how much.
* The check of `hash_sole_work` for a failed scan can never succeed, because the result is divided by 8 first.
* A scan whose result cannot be read leaves the nonce, so its nonces are worked on again; and raising the intensity can
  make a scan reach the end of the nonces, after which the nonce wraps. Without both no nonce is repeated.
* Three kernels that want a single hash of the coinbase get the double one.

## Model

| member | source | states |
|---|---|---|
| Words.PackBytes | sha2.c:49-63 | Taking a word apart and packing its bytes again gives the word. |
| Words.BytesOfPack | sha2.c:49-63 | Packing four bytes and taking the word apart again gives the four bytes. |
| Words.SwabReverses | miner.h:611-614 | Swapping a word is reading its bytes in the opposite order. |
| Words.SwabAllTwice | miner.h:646-654 | Swapping every word of a buffer twice changes nothing. |
| Words.WordsBEOfBytesLE | scrypt.c:46-53 | A buffer of words read back from memory in the other byte order is the buffer with every word swapped. |
| Words.XorIsExclusive | scrypt.c:301-323 | The exclusive or has the bits that one of the two has and not the other. |
| Sha2.LoadBlock | sha2.c:109-111 | The sixteen words loaded are the big-endian words of the 64 bytes at the offset. |
| Sha2.ExpandSchedule | sha2.c:113-115 | The 64 words are the message schedule of section 6.2.2 of FIPS 180-4 for the sixteen loaded ones. |
| Sha2.ShiftRound | sha2.c:122-132 | The eight in-place assignments are one round of section 6.2.2 of FIPS 180-4. |
| Sha2.TransfBlock | sha2.c:106-138 | One iteration of the block loop is the FIPS 180-4 compression of its block. |
| Sha2.Transf | sha2.c:95-139 | The state becomes the compression folded over every block given, for as many blocks as the int index i << 6 can address, none included. |
| FipsConstants.InitialHash | sha2.c:71-73 | The initial words are the fractional parts of the square roots of the first eight primes (section 5.3.3 of FIPS 180-4). |
| FipsConstants.RoundConstants | sha2.c:75-91 | The 64 constants are the fractional parts of the cube roots of the first 64 primes (section 4.2.2 of FIPS 180-4). |
| FipsExample.Sha256OfAbc | sha2.c:95-148 | The digest of "abc" that FIPS 180-4 gives as its first example is what the model computes, constants, rotations, padding and byte order together. |
| Sha2Stream.Sha256Ctx.constructor | sha2.c:150-159 | A new context represents the empty message. |
| Sha2Stream.Sha256Ctx.Update | sha2.c:161-193 | The context, whose buffer, len and tot_len hold exactly the state of the message so far, represents the message with the new piece behind it; if len + n wraps at 2^32 it says which suffix of the old message is lost instead. Pieces whose blocks the int index of the compression cannot address have no defined result. |
| Sha2Stream.Sha256Ctx.Final | sha2.c:195-218 | The digest is that of the whole message under a padding whose length field is the low 32 bits; nothing behind the digest changes. |
| Sha2Stream.ShortFieldExact | sha2.c:203-211 | The 32-bit length field is the 64-bit one of section 5.1.1 of FIPS 180-4 if and only if the message is shorter than 2^29 bytes. |
| Sha2Stream.ShortDigestExact | sha2.c:203-211 | Below 2^29 bytes the digest is the SHA-256 of FIPS 180-4. |
| Sha2Stream.Sha256Of | sha2.c:141-148 | One call computes the SHA-256 of any piece of memory shorter than 2^29 bytes. |
| Sha2Stream.HashPieces | sha2.c:150-218 | However a message under 2^29 bytes is cut into updates, the digest is the SHA-256 of the concatenation. |
| ScryptSha.ChForms | scrypt.c:56 | The Ch of scrypt.c is the Ch of section 4.1.2 of FIPS 180-4 on every word. |
| ScryptSha.MajForms | scrypt.c:57 | The Maj of scrypt.c is the Maj of section 4.1.2 of FIPS 180-4 on every word. |
| ScryptSha.TempForms | scrypt.c:66-70 | The two sums of RND are T1 and T2 of section 6.2.2 of FIPS 180-4, though they use the other forms and another order. |
| ScryptSha.SameConstants | scrypt.c:107-170 | The constants on the 64 RNDr lines are the K of FIPS 180-4. |
| ScryptSha.RotateStep | scrypt.c:73-78 | If the rotating array holds the working variables of round i, overwriting two of its words makes it hold those of round i + 1: slot (64 - i + j) mod 8 is variable j. |
| ScryptSha.RoundRotating | scrypt.c:66-78 | An RNDr line on the array is one shifting round of FIPS 180-4, seen through the rotation. |
| ScryptSha.ExpandByTwo | scrypt.c:101-104 | The two-at-a-time expansion gives the same schedule as the one-at-a-time one. |
| ScryptSha.MixRotating | scrypt.c:106-170 | After 64 rounds the rotation has come round: the array holds the working variables in order. |
| ScryptSha.Transform | scrypt.c:84-175 | For every state and block, swapped on loading or not, the rotating compression equals the FIPS 180-4 one, and so the one of sha2.c. |
| HmacWords.PaddingWords | scrypt.c:191-192 | The padding of a message of whole words is a marker word, zero words and a two-word length. |
| HmacWords.XorIpad | scrypt.c:219-222 | Xoring words with 0x36363636 is xoring every byte with the inner pad of RFC 2104. |
| HmacWords.XorOpad | scrypt.c:229-232 | Xoring words with 0x5c5c5c5c is xoring every byte with the outer pad of RFC 2104. |
| HmacWords.BlockKeyWords | scrypt.c:210-216 | An 80-byte key is longer than a block, so the block key of RFC 2104 is its hash with zeros behind it. |
| HmacWords.HmacOfWords | scrypt.c:210-248 | HMAC of section 2 of RFC 2104 under an 80-byte key, for any message, is the two chained compressions that the code runs on words. |
| ScryptKdf.PadConstants | scrypt.c:191-208 | The four tables of pad words are the FIPS 180-4 padding of 80, 96, 148 and 196 byte inputs, with the block index of the last one in front. |
| ScryptKdf.HashPassword | scrypt.c:211-216 | Two compressions and a hard-coded pad hash the 80-byte password. |
| ScryptKdf.KeyState | scrypt.c:218-223 | The state after the padded key block, for either pad. |
| ScryptKdf.DeriveBlock | scrypt.c:237-249 | One iteration puts the next eight words of output in place, changes nothing before or behind them, and leaves the buffers ready for the next. |
| ScryptKdf.DerivedBlocks | scrypt.c:236-249 | The first n blocks of output are T_1 to T_n of section 5.2 of RFC 8018. |
| ScryptKdf.Pbkdf2_80_128 | scrypt.c:199-250 | For every 80-byte password the buffer holds PBKDF2-HMAC-SHA256 with the password as salt, one iteration and 128 bytes of output (section 5.2 of RFC 8018). |
| ScryptKdf.FinalBytes | scrypt.c:263-293 | The chain of compressions on words is PBKDF2-HMAC-SHA256 with a 128-byte salt and 32 bytes of output. |
| ScryptKdf.Pbkdf2_80_128_32 | scrypt.c:253-294 | For every 80-byte password and 128-byte salt the state holds PBKDF2-HMAC-SHA256 with one iteration and 32 bytes of output. |
| Scrypt.DoubleRound | scrypt.c:325-335 | The sixteen column and sixteen row statements are a column round and a row round of Salsa20. |
| Scrypt.Salsa20_8 | scrypt.c:301-354 | One block of the buffer becomes the Salsa20/8 core (section 3 of RFC 7914) of its exclusive or with another, and the rest of the buffer stays. |
| Rfc7914Example.CoreOfExample | scrypt.c:301-354 | The Salsa20/8 core of the input that section 8 of RFC 7914 gives as an example is the output given there. |
| Rfc7914.BlockMixIsTwoCores | scrypt.c:376-377 | scryptBlockMix (section 4 of RFC 7914) with r = 1 is two chained cores, with no block to reorder. |
| Scrypt.BlockMixInPlace | scrypt.c:376-377 | The pair of in-place calls is scryptBlockMix. |
| Scrypt.WideXor | scrypt.c:386-388 | The exclusive or of two 64-bit words is that of their 32-bit halves. |
| Scrypt.XorWide | scrypt.c:386-388 | Sixteen 64-bit exclusive ors are the exclusive or of 32 words. |
| ScryptIndex.IndexIsIntegerify | scrypt.c:385 | Masking one word of X with k low bits gives Integerify(X) mod 2^k of section 5 of RFC 7914, for every k up to 32, so V is always indexed in range. |
| ScryptIndex.TenBits | scrypt.c:385 | The mask 1023 is the low ten bits and goes with N = 1024. |
| Scrypt.FillStep | scrypt.c:374-377 | Half an iteration of the first loop stores V_i and advances X, and keeps every V stored before. |
| Scrypt.MixStep | scrypt.c:385-391 | Half an iteration of the second loop is one iteration of step 3 of scryptROMix. |
| Scrypt.RoMixInPlace | scrypt.c:373-400 | The two-way unrolled loops compute scryptROMix (section 5 of RFC 7914) of X, for every N that is a power of two from 2 to 2^32 with its mask. |
| Scrypt.Scrypt_1024_1_1_256_sp | scrypt.c:359-403 | The result is scrypt (section 6 of RFC 7914) with P and S the input, N = 1024, r = p = 1, dkLen = 32. |
| Scrypt.RegenHash | scrypt.c:408-420 | The stored hash, byte-swapped at both ends, is that scrypt of the 80-byte header. |
| CgLock.ScriptsDisciplined | miner.h:908-973 | Every operation is allowed from the hold it expects, and leaves the hold it promises. |
| CgLock.RunInv | miner.h:908-973 | In every run of any number of threads, one pthread call a step, every reachable state satisfies the lock invariant. |
| CgLock.Exclusion | miner.h:908-973 | There is never a writer beside another writer or a reader, and a thread that waits to write owns the mutex alone. |
| CgLock.ReadNeverBlocks | miner.h:908-913 | A thread about to take the read side can always take it, because it owns the mutex and nobody can be waiting to write. |
| CgLock.ReadersShrink | miner.h:929-934 | No step lets a reader in while a thread waits to write. |
| CgLock.ReadersShrinkAlong | miner.h:929-934 | Over any stretch of a run in which a thread waits to write, the set of readers only shrinks. |
| CgLock.CoveredOps | miner.h:923-954 | The upgrade, the two demotions and the downgrades hold the mutex or a read lock at every point; no other operation does. |
| CgLock.NoGap | miner.h:936-941 | From such an operation on, until the thread starts another one, nobody else is the writer in any interleaving. |
| CgLock.RuwLockGap | miner.h:961-967 | The warning on cg_ruwlock is needed: a run of two threads in which another thread writes in the middle of it. |
| CgLock.Progress | miner.h:908-973 | If some operation is unfinished, some call can go on or some thread holds the lock between operations: the calls never deadlock among themselves. |
| Nonce2.SameLowBytes | sgminer.c:6040-6041 | Two counters stamp the same n bytes if and only if they agree modulo 256^n. |
| Nonce2.WrapIsInvisible | sgminer.c:6040-6042 | Counting modulo 2^64, as the code does, stamps the same bytes as counting without bound. |
| Nonce2.LowBytesValue | sgminer.c:6040-6041 | The bytes stamped, read as a little-endian number, are the counter modulo 256^n. |
| WorkGen.OthersKeep | sgminer.c:6036-6076 | A step of one thread never disturbs what another one relies on, whatever it is in the middle of. |
| WorkGen.RunInv | sgminer.c:6036-6076 | Every state of every interleaving satisfies the invariant on lock, coinbase, counter, threads and finished items. |
| WorkGen.StampedCarries | sgminer.c:6038-6041 | There is exactly one coinbase that has a nonce2 in its field, the least significant byte first, and is the template elsewhere. |
| WorkGen.OwnCoinbase | sgminer.c:6036-6075 | Every item of any interleaving has the Merkle root of the coinbase with its own nonce2 in the field as a little-endian number: the branch of the notify folded onto its double hash, or the root over it and the transactions of the template. |
| WorkGen.NoneSkipped | sgminer.c:6042 | No nonce2 is left out: with nobody in between, every value the counter has passed belongs to an item. |
| WorkGen.DistinctWork | sgminer.c:1845-1871 | No two items share a nonce2; their coinbases are equal exactly when the nonce2 values agree in the bytes stamped, and never while the counter fits them. |
| MerkleBuild.GenHashInto | sgminer.c:5965-5971 | The double SHA-256 of a piece of memory, into a buffer whose rest stays. |
| Merkle.BranchFoldsToRoot | sgminer.c:6055-6059 | Folding the siblings of the leftmost path onto the first leaf gives the Merkle root, for any number of leaves. |
| Merkle.BranchIgnoresCoinbase | sgminer.c:6055-6059 | That branch does not depend on the coinbase leaf. |
| Merkle.BranchServesEveryCoinbase | sgminer.c:6055-6059 | So one branch, sent once, gives the right root for every coinbase stamped afterwards. |
| Merkle.DuplicateLast | sgminer.c:1784-1787 | Writing a last odd leaf down twice gives the same level up. |
| MerkleBuild.ReduceLevel | sgminer.c:1788-1793 | The in-place pairwise pass leaves the next level in the first half of the slots, though it overwrites slots it still has to read. |
| MerkleBuild.ReduceToRoot | sgminer.c:1782-1794 | The loop ends with the recursive Merkle root of the leaves in slot 0 and stays within one slot more than there are leaves. |
| MerkleBuild.GbtMerkleRoot | sgminer.c:1768-1796 | The buffer of gbt_txns + 2 slots is always enough, and its first slot is the root of the coinbase hash and the transactions. |
| MerkleBuild.CoinbaseLeaf | sgminer.c:6049-6054 | The leaf is the double hash for every kernel: the single hash of three of them is overwritten. |
| MerkleBuild.FoldSiblings | sgminer.c:6055-6059 | The loop folds the branch onto the leaf. |
| MerkleBuild.StratumRoot | sgminer.c:6048-6062 | The header gets the folded root with the bytes of every word reversed, so that its words are those of the root in the opposite byte order. |
| MerkleBuild.FlipSwapsWords | miner.h:646-654 | The words of a flipped hash are those of the hash in the opposite byte order. |
| PoolOrder.Pigeonhole | sgminer.c:3730-3750 | Priorities that are a permutation of 0 to n - 1 take every number below n. |
| PoolOrder.PermutationOrders | sgminer.c:3730-3750 | Such priorities list the pools in an order. |
| PoolOrder.OrderUnique | sgminer.c:3730-3750 | They do so in only one way. |
| PoolOrder.AddKeepsOrder | sgminer.c:540-548 | A new pool with the next number comes last. |
| PoolOrder.PromoteReorders | sgminer.c:3771-3780 | Moving back everything in front of the selected pool and giving it 0 puts it first and keeps the order of the others. |
| PoolOrder.RemoveReorders | sgminer.c:806-821 | Closing the gap and moving the last pool into the free slot leaves the other pools in their order, numbered without a gap. |
| PoolOrder.RenumberDone | api.c:2262-2275 | The two passes number the listed pools first, in list order, and the others behind them in their old order. |
| Pools.PriorityPool | sgminer.c:3730-3750 | The pool of a priority is always found; the error branch is never taken. |
| Pools.PromotePool | sgminer.c:3771-3780 | The selected pool becomes the first and the others keep their order. |
| Pools.MasterPool | sgminer.c:3787-3793 | The least-priority-number usable pool, or the current one if none is usable. |
| Pools.NextAlive | sgminer.c:3802-3813 | The nearest usable pool cyclically ahead, or the same pool if there is none. |
| Pools.ChoosePool | sgminer.c:3782-3817 | The switch on the strategy, with every case. |
| Pools.ChosenByPriority | sgminer.c:3782-3794 | Except for the rotating strategies: if any pool is enabled and not idle one is chosen, and no such pool has a lower priority number; otherwise the current pool stays. |
| Pools.ChosenByCycle | sgminer.c:3795-3817 | For the rotating ones: a selected pool that is not idle, else the nearest pool ahead in the cycle that is enabled and not idle, or the current one if there is no other. |
| Pools.SwitchPools | sgminer.c:3761-3819 | The new order and the new current pool, which is in the table, for every strategy and selection. |
| Pools.RemovePool | sgminer.c:801-822 | The pool leaves the table, the last one takes its slot, and priorities stay a permutation in the old order; the last slot keeps its pointer behind the table. |
| PoolCommands.AddPool | sgminer.c:533-566 | The new pool, enabled since 0 is POOL_ENABLED, comes last in table and order without being counted as enabled; the quotas are normalised again, and at most one slot behind the table is kept. |
| PoolCommands.ParseIds | api.c:2236-2259 | The list is accepted if and only if every id is in range and none is given twice; otherwise the answer names a bad or repeated id. Numbers that do not fit in an int may be read as anything. |
| PoolCommands.NumberReads | api.c:2246 | What atoi makes of white space, a sign, the decimal text of a number and anything else behind it. |
| PoolCommands.IdsOfListing | api.c:2236-2259 | Decimal numbers up to INT_MAX with commas between them are read as exactly those ids. |
| PoolCommands.Reprioritise | api.c:2261-2275 | After both passes the order is the listed pools in list order, then the others in their old order. |
| PoolCommands.PoolPriority | api.c:2215-2281 | A bad list changes nothing; a good one gives that order, and the current pool is chosen again exactly when it is no longer first. |
| PoolCommands.PriorityOfListed | api.c:2215-2281 | A list of ids as anyone would write them is accepted if and only if it is not empty, all are pools and none is repeated, and then exactly those pools come first, in that order. |
| PoolCommands.RemovePoolCommand | api.c:2359-2408 | The table after a removal, and exactly which requests are refused with which answer. |
| PoolCommands.SwitchPoolCommand | api.c:2066-2095 | The pool asked for is enabled and becomes the first, and the current pool is chosen again. |
| PoolCommands.EnablePoolCommand | api.c:2181-2213 | A pool that was not enabled is, and if its priority is before that of the current pool it becomes the first and the current pool is chosen again; otherwise nothing else changes. |
| PoolCommands.DisablePoolCommand | api.c:2325-2357 | A pool that was not disabled is, the order stays, and the current pool is chosen again exactly if it was that pool. |
| PoolCommands.PoolQuotaCommand | api.c:2283-2323 | Which texts are accepted; then that quota alone changes and all shares are normalised by the new divisor, and otherwise no quota, share, count or divisor changes. |
| PoolCommands.QuotaOfListed | api.c:2283-2323 | Two numbers with a comma between them set exactly that quota to exactly that number, if there is such a pool. |
| PoolCommands.EnablePool | sgminer.c:778-783 | The pool is enabled, and counted unless it was. |
| PoolCommands.RejectPool | sgminer.c:792-797 | The pool is put aside, and no longer counted if it was enabled. |
| PoolCommands.ShareAccepted | sgminer.c:2568-2576 | Only a pool that was put aside for its rejects is enabled, and counted, even if it was removed; then the current pool is chosen again. |
| PoolCommands.SharesRejected | sgminer.c:2638-2646 | While more than one pool is counted as enabled, the pool is put aside whatever its state was, even disabled or removed; the current pool is chosen again if it was that one. |
| PoolRuns.Serve | api.c:2066-2408 | Any run of additions, removals, switches, state and quota changes, re-prioritisings and share results, for removed pools too, with pools found dead or alive and pools selected in between, keeps slots, numbers and priorities consistent and the current pool in the table. Every selection returns a pool of the table unless an accepted share enabled a removed pool before it, which never happens if no pool is rejecting and at most one counted as enabled when the run starts. |
| PoolRuns.ServeFromStart | sgminer.c:2969-3042 | From a startup with any number of pools, none of them configured as rejecting, every selection of every run returns a pool of the table. |
| PoolRuns.ServeOne | sgminer.c:2568-2646 | Any one event: only an accepted share for a removed pool that was put aside enables a pool outside the table, and without one whatever is behind the table stays out of use. |
| QuotaMath.AdjustedBounds | sgminer.c:495-519 | The divisor found is at least every common divisor and at most the lowest nonzero quota. |
| QuotaMath.DescendReaches | sgminer.c:508-519 | The descent ends at t or above if and only if it starts at or above the bar for t, which comes from going through the quotas backwards to the least divisor not below. |
| QuotaMath.GcdIsGcd | sgminer.c:495-519 | The reference value is the greatest common divisor. |
| QuotaMath.AdjustedIsGcd | sgminer.c:495-519 | It is the greatest common divisor if and only if the lowest nonzero quota is below a bar that the quotas set, or there is no bar. |
| QuotaMath.ProportionalExactly | sgminer.c:521-526 | The normalised quotas are in the proportion of the quotas under exactly the same condition on the quotas. |
| QuotaMath.AdjustedCanMiss | sgminer.c:508-519 | It need not be: 12 and 10 give 5, and 4 and 6 give 3 where 6 and 4 give 2. |
| QuotaAdjust.ComputeGcd | sgminer.c:495-519 | The loops terminate and compute that divisor. |
| QuotaAdjust.AdjustQuotaGcd | sgminer.c:493-530 | Every pool gets its normalised quota, and its count rescaled in the 64-bit unsigned and 32-bit signed arithmetic of the code. |
| QuotaAdjust.RescaledPlain | sgminer.c:523-524 | For counts that are not negative and do not overflow, that is multiplying by the old divisor and dividing by the new one. |
| QuotaAdjust.RescaledNegative | sgminer.c:523-524 | A negative count, which failover-only makes possible, is divided as an unsigned 64-bit number: it comes out rounded down if and only if the new divisor divides 2^32. |
| QuotaAdjust.ThirdOfMinusOne | sgminer.c:523-524 | A count of -1 becomes 0x55555555 when the divisor goes from 1 to 3. |
| QuotaRotation.SelectTakesOne | sgminer.c:2989-3021 | With every pool workable, while any has quota left, a call returns one within total_pools probes and takes one unit from it and none from the others. |
| QuotaRotation.SelectSound | sgminer.c:2989-3021 | With some pools dead: a pool that is found works, and if none is found no pool with quota left does. |
| QuotaRotation.Conservation | sgminer.c:2989-3021 | Until the next reset no call comes back empty, and the returns and the remaining quota of every pool add up to what it had. |
| QuotaRotation.EpochExact | sgminer.c:2989-3021 | Between two resets every pool is returned exactly its normalised quota of times. |
| QuotaRotation.UsedUpIsFresh | sgminer.c:2998-3004 | A call that finds all quota used up behaves as one after a reset, with the rotation one slot on. |
| QuotaRotation.WholeRunsExact | sgminer.c:2989-3021 | Over any number of resets every pool is returned exactly in proportion to its normalised quota. |
| PoolSelect.SelectBalanced | sgminer.c:2944-2962 | The current pool unless a workable one has fewer shares, then the first of those with the fewest; its count alone goes up, by one. |
| PoolSelect.ProbeRing | sgminer.c:3006-3021 | The loop over the array and the static position is the search on values, also when the position is behind the table after removals. |
| PoolSelect.CountBelowZero | sgminer.c:3006-3021 | Failover-only takes the count of the first pool to -1 when a dead pool is probed. |
| PoolSelect.SelectByQuota | sgminer.c:2989-3038 | Selection by quota from any position inside the array, or anywhere when no quota is left, with the reset, the fallback by priority and to the current pool. |
| PoolSelect.TurnAlive | sgminer.c:2929-2942 | A pool that the search comes back with is enabled, not idle, and has a stratum connection if it needs one, even one from behind the table. |
| PoolSelect.SelectPool | sgminer.c:2969-3042 | Which pool comes back and what is counted, for every strategy, with and without lagging and failover-only, of pools in the table and of removed ones behind it; and exactly when it is a pool of the table. |
| PoolSelect.StraysExactly | sgminer.c:2989-3042 | From such a position, the pool that comes back is not one of the table if and only if quota is left and the position is behind the table at a removed pool that works and has quota left. |
| PoolRuns.RetiredWithin | sgminer.c:2989-3042 | If every pool behind the table is also in it or not enabled, a selection does not stray. |
| PoolRuns.ServeSelect | sgminer.c:2969-3042 | In a run, a selection reads outside the array exactly when it goes by quota, quota is left and the position is behind all slots; otherwise it returns a pool of the table exactly when it does not stray. |
| PoolStray.SetPoolState | sgminer.c:834-844 | The state that the configuration gives a pool; what is no state means enabled. |
| PoolStray.StrayAfterRemoval | sgminer.c:801-822 | It can happen: under load balance, with the rotation at the last pool, which has quota left as another has, and more than one pool counted as enabled, removing that pool and one more rejected and one accepted share for it make the next selection return it. |
| PoolStray.StrayRun | sgminer.c:2569-2646 | Such a run from an empty table: two pools that the configuration makes rejecting, an accepted share for each, two quota commands, two selections, then the removal. |
| PoolSelect.SelectMany | sgminer.c:2969-3042 | n calls under load balance with every pool workable return the pools, and leave the counts, of n calls of the rotation on values. |
| PoolSelect.SelectRounds | sgminer.c:2969-3042 | So a whole number of rounds of calls from fresh counts returns every pool exactly that many times its normalised quota. |
| PoolSelect.AliveSelection | sgminer.c:2989-3021 | With every pool workable the pool returned loses one unit of quota and no other pool any, with failover-only or without. |
| WorkQueue.InsertKeeps | sgminer.c:4154-4173 | A stable sort by staging time after an insertion keeps the queue in order and counts one rollable item more if the new one is. |
| WorkQueue.SortInserts | sgminer.c:4154-4173 | Any stable sort by staging time of a sorted queue with a new item at its end is that insertion. |
| HashSort.StableUnique | uthash.h:718-797 | There is only one order that is sorted by key and keeps the places of equal keys. |
| HashSort.Merge | uthash.h:748-786 | Merging two neighbouring sorted runs takes exactly their elements, in stable order, also when the second run is cut short by the end of the list. |
| HashSort.Pass | uthash.h:728-788 | A pass doubles the length of the sorted runs, and one that merged once has sorted the list. |
| HashSort.Sort | uthash.h:718-797 | The bottom-up merge sort terminates in the stable order of the keys. |
| WorkQueue.KeepExact | sgminer.c:3869-3875 | Dropping items keeps the number of rollable ones exactly when none of those dropped could be rolled. |
| WorkQueue.AllRollable | sgminer.c:5938-5946 | If every staged item can be rolled, there are as many rollable items as items. |
| WorkQueue.Stage.Push | sgminer.c:4164-4180 | The item is appended and the list sorted by staging time: it ends up behind everything not staged later and nothing else moves. The counter stays an upper bound; a frozen push, which nothing in the program can cause, would make it drift by one for a rollable item. |
| WorkQueue.Stage.FirstUnrollable | sgminer.c:5940-5944 | When there are more items than the counter says are rollable, the search does not run off the end. |
| WorkQueue.Stage.Pop | sgminer.c:5938-5949 | The oldest item, or the oldest one that cannot be rolled when the count exceeds the counter; the counter follows exactly. |
| WorkQueue.Stage.TryPop | sgminer.c:5904-5912 | A pop that does not wait returns nothing exactly when nothing is staged. |
| WorkQueue.Stage.DiscardStale | sgminer.c:3863-3881 | Exactly the stale items go, the order stays, and the counter drifts exactly if one of them was rollable. |
| WorkQueue.Stage.ClearPoolWork | sgminer.c:5345-5362 | Exactly the items of the pool go, the order stays, and the counter drifts exactly if one of them was rollable. |
| WorkQueue.Work.Roll | sgminer.c:3391-3408 | The big-endian ntime in the four header bytes from 68 on goes up by one modulo 2^32 and no other byte of the header changes; the item is a new one with nonce 0. |
| Rolling.StoreTime | sgminer.c:3397-3399 | Bytes stored by htobe32 at the ntime are read back by be32toh as the same number, and the bytes around them stay. |
| WorkQueue.Stage.RollCloneRoll | sgminer.c:3480-3483 | The clone lies between two rolls of its master: it has its pool, rolltime and kind of work, the ntime in between, and the rest of the header, is marked a clone and looks a second older; of the header of the master only the ntime moves. |
| WorkQueue.Stage.RollAvailable | sgminer.c:3471-3490 | Under the lock: the first staged item that is no clone, no stratum work, has a pool and rolltime, fewer than 7000 rolls, and is ready, is rolled twice with such a clone in between; if none is, nothing changes. |
| WorkQueue.Stage.CloneAvailable | sgminer.c:3470-3497 | With nobody in between, that clone is then staged where its time puts it. |
| WorkQueue.Stage.CloneWork | sgminer.c:3502-3532 | How many clones are made, of what pool, at which ntimes and with which rest of the header, what is staged in which order and what is returned. |
| WorkQueue.Stage.RunMaster | sgminer.c:3385-3532 | In any run of pushes, pops, discards, clone_available and clone_work on one master, with others in between wherever the lock is let go, the queue stays sorted, the counter stays an upper bound and never gets closer, the clones handed out of the master and itself at the end have pairwise distinct 32-bit ntimes if it starts unrolled, and it never has more than 7001 rolls. Whatever such a run adds to the queue is one of the items pushed, the master, or a clone of one of these. |
| Rolling.OffsetsDistinct | sgminer.c:3453-3532 | Every offset handed out is new and the master has passed it. |
| Rolling.NtimeStep | sgminer.c:3397-3399 | Incrementing the field is moving one offset on, also where it wraps. |
| Rolling.NtimesDistinct | sgminer.c:3453-3532 | While a master has moved less than 2^32 no two ntimes are equal modulo 2^32. |
| Rolling.RollsBounded | sgminer.c:3385-3389 | The guard keeps a master at 7001 rolls at most, and at 7000 if it starts even. |
| Rolling.MasterNeverRepeats | sgminer.c:3385-3532 | So a master that starts unrolled never repeats an ntime. |
| Lists.ListAdd | elist.h:51-54 | The node comes first; no pointer outside the three nodes involved is written. |
| Lists.ListAddTail | elist.h:64-67 | The node comes last. |
| Lists.ListDel | elist.h:87-92 | The node at any position leaves the list and its pointers become null. |
| Lists.ListDelInit | elist.h:98-102 | The node leaves the list and is an empty list of its own. |
| Lists.ListMove | elist.h:109-113 | The node goes to the front of the same list or of another, and leaves the one it was in. |
| Lists.ListMoveTail | elist.h:120-125 | The node goes to the end of the same list or of another. |
| Lists.ListEmpty | elist.h:131-134 | The answer is whether the list holds nothing. |
| Lists.ListSplice | elist.h:155-159 | The nodes of one list go in front of those of the other, in their order. |
| Lists.ListSpliceInit | elist.h:168-175 | So they do, and the list they came from is empty. |
| Lists.Step | elist.h:224-227 | Following next from the head visits the nodes in order and comes back to the head. |
| Lists.RingUnique | elist.h:14-25 | The pointers determine the contents: no head holds two different lists. |
| CurlRing.CurlPool.Recruit | sgminer.c:3300-3313 | A new handle at the front of the ring, and one handle more. |
| CurlRing.CurlPool.TryPop | sgminer.c:3326-3342 | Waits exactly when the ring is empty and the limit reached, and then somebody holds a handle; otherwise hands out the first idle handle or a new one, never the head of the ring. |
| CurlRing.CurlPool.Push | sgminer.c:3349-3356 | A handle in use goes to the end of the ring. |
| CurlRing.CurlPool.ReapCurl | sgminer.c:7125-7145 | Which idle handles go, in a walk that deletes the node it stands on; one handle of the pool is left. |
| CurlRing.CurlPool.Run | sgminer.c:3300-3356 | In any run curls is the ring and the handles in use together, and at most the limit, or one if the limit is lower; each step hands out one new handle at most, takes back the one it is given, or leaves the handles in use alone. |
| ApiEscape.EscapeLength | api.c:587-612 | The buffer is as long as the escaped string, and no character is counted exactly when the string stays as it is. |
| ApiEscape.EscapeString | api.c:582-640 | The buffer is filled to its last byte with the escaped string, or the string itself comes back. |
| ApiEscape.EscapeRoundTrip | api.c:582-640 | Escaping loses nothing, in text or JSON style. |
| ApiEscape.ApiConvertEscape | miner.php:555-588 | The loop replaces each escaped character by its code. |
| ApiEscape.ConvertEscaped | miner.php:555-588 | An escaped value is converted as a whole, whatever follows it, and no delimiter is left in it. |
| ApiEscape.ValueRoundTrip | miner.php:590-593 | A value comes back if and only if it holds none of the bytes 1 to 4. |
| ApiData.AddDataFull | api.c:669-690 | The field comes last in the circular list. |
| ApiData.AddExtra | api.c:642-667 | The second list goes behind the first, also when either is missing. |
| ApiData.DropFirst | api.c:1030-1039 | The list without its first node, still circular, or nothing. |
| ApiData.PrintData | api.c:910-1045 | In text mode the fields are printed in order, each node once, and none is left. |
| ApiParse.ReadSockLine | miner.php:540-553 | The reply is what comes before the first NUL. |
| ApiParse.NameObject | miner.php:638-644 | The search for a free section name ends, with the first free number. |
| ApiParse.FreeNumber | miner.php:638-644 | The name found is in use nowhere. |
| ApiParse.NoDigitsKeeps | miner.php:636 | Exactly the characters of a name that are no digits are left. |
| ApiParse.NoDigitsConcat | miner.php:636 | Digits are taken out of two texts one after the other as out of each of them. |
| ApiParse.DigitsVanish | miner.php:628 | A text counts as a number for the name of its section if and only if it is not empty and nothing is left of it without digits. |
| ApiParse.Api | miner.php:604-663 | The loops over objects and items build the array, an empty reply is an error. |
| ApiRoundTrip.ExplodeMessage | miner.php:620 | Every section of a reply is one object. |
| ApiRoundTrip.StoredItems | miner.php:647-661 | The items of a section are stored in order under one name, without those that are hidden. |
| ApiRoundTrip.ReplyRoundTrip | miner.php:595-663 | Whatever sections are printed, what is parsed is their names and values in order, up to the NUL and whatever follows it. |
| ApiRoundTrip.NothingLost | miner.php:595-663 | With nothing hidden there is one section for each that was printed, under distinct names, with exactly its fields. |
| ApiRoundTrip.ShownExactly | miner.php:647-652 | A field is shown if and only if it is not hidden under the name of its section without digits. |
| ApiRoundTrip.HiddenNeverShown | miner.php:636-652 | A field hidden under a name is in no section of that name, whatever number follows the name. |
| ApiReply.PrintSection | api.c:642-1045 | A section whose lists were built by api_add_data_full and joined by api_add_extra is printed as all of its fields in order. |
| ApiReply.SendAndParse | api.c:642-1045 | From fields to array: lists built, joined, printed, sent with a NUL and parsed give the sections that were meant, or no answer if there are none. |
| PoolDetails.CopyAdvanceAfter | api.c:2097-2112 | Copies up to the next separator without a backslash, and never writes past what it has read by more than the final terminator. |
| PoolDetails.PoolDetails | api.c:2114-2148 | Three terminated texts fit in one byte more than the parameter, or the parameter is refused. |
| PoolDetails.SpanCbs | miner.php:356 | An escaped text is read back whole, up to the separator behind it or the end. |
| PoolDetails.DetailsRoundTrip | miner.php:356 | Url, user and password arrive as they were entered exactly when the password is not empty; otherwise they are refused. |
| NonceScan.Config.Settled | driver-opencl.c:1136-1150 | The lowest intensity from the given one on that gives a whole work-group, or the highest there is. |
| NonceScan.Gpu.Adjust | driver-opencl.c:1555-1570 | Dynamic intensity moves by one, up to 31 and down to 8; otherwise it stays. |
| NonceScan.Config.Idempotent | driver-opencl.c:1132-1154 | A second call finds the same threads and leaves the intensity alone. |
| NonceScan.Config.LowerNarrows | driver-opencl.c:1136-1150 | A lower intensity never means more threads. |
| NonceScan.Gpu.SetThreadsHashes | driver-opencl.c:1132-1154 | The loop ends with at least a work-group of threads; with the one vector that ocl.c sets the hashes are the threads, without overflow. |
| NonceScan.Gpu.Scan | driver-opencl.c:1555-1644 | What dynamic intensity, the kernel started, the next nonce and the result are, for a call that fails before the kernel, after it, or after the nonce has moved. |
| NonceScan.Gpu.Abandon | sgminer.c:6364-6372 | The 64-bit unsigned comparison means that the next scan does not fit. |
| NonceScan.FailureUnseen | sgminer.c:6469-6485 | A failed scan is -1 divided by 8, which is 0 in C: it is never recognised. |
| NonceScan.MinedInOrder | sgminer.c:6441-6545 | With a fixed intensity all scans of an item have one width, and each starts behind the one before, or at the same nonce if the result of that one was lost; none leaves the 32-bit nonces. |
| NonceScan.Gpu.MineItem | sgminer.c:6415-6545 | The kernels started for one work item, given how each scan turns out. No nonce is worked on twice if and only if no result was lost before another kernel and every kernel fits in the 32-bit nonces that are left, which is also stated on the configuration, the starting intensity and the turns alone; all fit unless dynamic intensity goes up. |
| NonceScan.RepeatsExactly | driver-opencl.c:1604-1607 | That equivalence, of the kernels of any run: moving on by the most that any scan had is enough as long as all fit. |
| NonceScan.CleanExactly | sgminer.c:6441-6545 | No nonce is worked on twice if and only if a condition on configuration, starting intensity and turns holds: at every turn that is reached and starts a kernel, how far the nonce was moved and the width of the scan stay within the 32-bit nonces, and no result was lost before. Or no threads are wanted at all. |
| NonceScan.NeverRaisedFits | driver-opencl.c:1555-1570 | Without a raise no scan is wider than one before, so the check of abandon_work suffices. |
| NonceScan.RaisedRepeats | driver-opencl.c:1555-1607 | With a raise it does not: from intensity 30, raised before the third scan, the nonces are used up exactly, the nonce wraps to 0 and the fourth scan repeats them. |

## Left out

- OpenCL calls, kernel loading, hardware control, curses, sockets, curl, JSON, logging and option parsing: foreign
  libraries and plumbing.
- The coin-specific hash chains, `advsha3_*` and `calc_midstate`: their code is not part of this model.
- Sha2.Transf: at most 2^25 blocks, and so Sha2Stream.Sha256Ctx.Update pieces of little more than 2^31 bytes; the int
  index overflows behind them, and nothing is defined.
- `update_gbt` and Stratum notifies, which replace the coinbase: a run of `WorkGen` has no other coinbase writer.
- PoolSelect.SelectPool: while quota is left, requires the rotating position to be in the array that `pools` points to.
  `add_pool` shrinks it, so after several removals and an addition the position can be outside, where nothing is
  defined.
- PoolSelect.AliveSelection: every pool workable; with dead pools failover-only moves unused quota and no exact ratio
  holds.
- PoolSelect.SelectMany: a fixed pool table, as SelectRounds; both start inside the table.
- QuotaRotation.WholeRunsExact: a fixed pool table and no discarded work, which would lower a count.
- QuotaAdjust.RescaledPlain: products that fit in an int; `QuotaAdjust.Rescaled` itself models the wrap-around of
  others. The 32-bit overflow of the increments of a count is not modelled.
- PoolRuns.Serve: runs after startup. Startup can remove a hidden pool that is the current one. A selection that reads
  outside the array ends the run.
- The pool menu of the terminal, whose entries do what the commands do but count enabled pools.
- PoolCommands.SharesRejected: how many rejects are too many for the utility of the miner.
- The side effects of `switch_pools` after the switch: the lagging flag and the clearing of the last pool's work.
- WorkQueue.Stage.Push: the list of the hash table is a sequence, which the sort rearranges by places; its pointers,
  its buckets and the ids under which items are filed are not modelled.
- WorkQueue.Stage.CloneWork: a call with nobody in between, as is WorkQueue.Stage.CloneAvailable; `RunMaster` has others
  in between, and any number of rounds.
- WorkQueue.Stage.DiscardStale: the counts that `discard_work` keeps for its pool.
- WorkQueue.Stage.TryPop: a pop that waits tries again when it is woken; waiting itself is not modelled.
- ScryptSha.MixRotating: the 64 macro lines are a loop over their constants.
- Scrypt.Scrypt_1024_1_1_256_sp: takes the aligned table V as an array of words; the alignment of the scratch buffer
  is not modelled.
- Nonce2.WrapIsInvisible: stands in for a 64-bit counter, which `WorkGen` does not bound.
- CgLock.Progress: no fairness, so no claim that a given thread gets the lock.
- NonceScan.Gpu.MineItem: one thread per device, which dynamic intensity sees to. Several threads share `max_hashes`,
  and one of them could reset it while another scans.
- NonceScan.Config.Settled: an intensity from 0 on, as both ways of setting one ensure.
- CurlRing.CurlPool.TryPop: one limit for a run; handles are identified with their list nodes.
- ApiData.PrintData: text mode only, since no JSON parser is part of the repository; numbers are given as the text
  `sprintf` makes of them.
- ApiRoundTrip.ReplyRoundTrip: names free of delimiters and distinct within a section, and values without the bytes 0
  to 4, whose delimiters are escaped; array keys are strings, of which decimal numbers stand for integer keys.
- PoolDetails.PoolDetails: what happens to the texts once they are apart.
