# Verification of the node core

Dafny models of the seven components of the node core whose correctness is more than plumbing, with
proofs of what they are for. `dafny verify dfyconfig.toml` checks all of it.

* **Block cipher and its mode** (`Sbox`, `Slices`, `SliceGates`, `Column`, `Aes`, `Cbc`): the bitsliced AES of
  `src/crypto/ctaes/ctaes.c`, shown to be the cipher and inverse cipher of FIPS 197 and inverse to each
  other for any round keys and any number of rounds, and the CBC mode with padding of
  `src/crypto/aes.cpp` (section 6.2 of NIST SP 800-38A, section 6.3 of RFC 5652) on top of it.
* **Block tree** (`ChainModel`, `ChainRuns`, `Blockchain`): the header store of `src/node/Blockchain.cpp`, its main
  chain and its reorganisations, as a class that works in place and as values over which whole runs
  are reasoned about, with the exact condition under which a run comes to a halt.
* **Base58** (`Power`, `Radix`, `Base58`): in-place base conversion, with the numeric bounds that keep
  its carry assertions from failing, and both round trips.
* **Locked-memory arena** (`Tiling`, `Arena`): a best-fit allocator whose four maps describe one row of
  adjacent chunks.
* **Script machine** (`ScriptNum`, `Script`, `Conditionals`, `Interpreter`, `StackBound`, `ScriptRuns`,
  `MultiSig`): numbers, pushes, the run over flat code with condition flags against a run over trees of branches,
  the limits of a run and the size of the stacks at its end, and the greedy matching of signatures to keys.
* **Hashes** (`ShaSpec`, `ShaCode`, `ShaD64`, `ShaKnown`, `Hasher`, `HashStream`, `Murmur`): each unrolled,
  folded, buffered or alignment-shifting form against one plain definition (FIPS 180-4 for SHA-256), and
  the definitions themselves against known answers.
* **Merkle root** (`Merkle`): level by level in one buffer, against the recursive definition.

`Wrappers` and `ByteTypes` hold the types the others share.

Where the source changes something in place, so does the model: classes with fields, arrays, loops.
Each such method is proved against a function of the values before it, and what the source promises is
proved about those functions. An assertion of the source that must not fail is a precondition where
the caller owes it, and is proved where the code itself makes it hold.

## Where the code and what is said about it differ

* `src/node/Blockchain.cpp:532` says "Find descendants", and line 481 "Remove from orphans list". Neither
  loop moves its iterator: after any number of passes it looks at the same element
  (`ChainModel.RemovalNeverMoves`, `ChainModel.DescentNeverMoves`), so a connect call below which
  something waits does not return. A block whose predecessor is unknown returns at line 461 without being
  filed as an orphan, so what waits is what was accepted before genesis, and a run gets stuck if and only
  if it connects a block of which a child was accepted before genesis (`ChainRuns.RunHalts`).
  `ChainRuns.StuckPastGenesis` is such a run that gets past genesis first.
* `src/script/Script.hpp:53` names 1000 as the most values on the stack, but an executed opcode below
  OP_PUSHDATA1 leaves the loop's body at `src/script/Interpreter.cpp:262`, before the sizes are looked at.
  `StackBound.BoundExceeded` is a script of 1001 bytes that succeeds with 1001 values. The bound holds at
  the end of every run whose last instruction is another one (`StackBound.CheckedEnd`); in general
  it holds exactly when the values at the last checked instruction and the pushes behind it are no more
  than 1000 (`StackBound.BoundIff`).
* `src/script/Script.hpp:366` compares the bytes left as a 32-bit number, so a push in a script of 4 GiB
  or more can be refused; `Script.ReadAllOfBuild` says exactly when a script is read back, and
  `Script.LongIsRefused` names one that is not.
* `FindAndDelete` compares with `<` (`src/script/Interpreter.cpp:641`), so a copy of the needle stays when
  it starts at a boundary that is reached and ends the script (`Script.EndIsKept`). One that begins inside a
  deleted copy does not (`Script.OverlapIsCut`).
* `CBCDecrypt` takes its chaining block out of the input after the output has been written
  (`src/crypto/aes.cpp:112-151`). Decrypting in place is right exactly when every block but the last is its
  own plaintext (`Cbc.InPlaceIff`); `CBCEncrypt` works in place.
* `execute` does not clear the condition flags; only `reset` does (`src/script/Interpreter.cpp:83`). The
  contract of `Interpreter.Interpreter.Execute` keeps the flags of an earlier failed run.

## Model

| member | source | states |
|---|---|---|
| Sbox.SubstituteInverse | src/crypto/ctaes/ctaes.c:65-257 | the inverse gate list undoes the forward one on every byte |
| Sbox.SubstituteIsSbox | src/crypto/ctaes/ctaes.c:65-257 | the gate list is the S-box of FIPS 197: inverse in GF(2^8), then the affine map |
| SliceGates.SubstituteAt | src/crypto/ctaes/ctaes.c:65-257 | the gate list run on sixteen-bit slices acts on every position as it does on the bits of one byte |
| SliceGates.InvSubstituteAt | src/crypto/ctaes/ctaes.c:65-257 | the same for the inverse direction |
| Column.MixGatesIsMixByte | src/crypto/ctaes/ctaes.c:311-329 | the column gates are {02}a + {03}b + c + d |
| Column.FixGatesIsInvMixByte | src/crypto/ctaes/ctaes.c:330-352 | reusing the forward gates gives {0e}a + {0b}b + {0d}c + {09}d |
| Column.MixInverse | src/crypto/ctaes/ctaes.c:290-353 | mixing and then the inverse direction gives every column back |
| Aes.AesState.constructor | src/crypto/ctaes/ctaes.c:451-451 | a state of zeroes |
| Aes.AesState.LoadByte | src/crypto/ctaes/ctaes.c:26-32 | ors one byte's bits into one position of the eight slices and changes no other position |
| Aes.AesState.LoadBytes | src/crypto/ctaes/ctaes.c:35-43 | a zero state takes the sixteen bytes column by column |
| Aes.AesState.SaveBytes | src/crypto/ctaes/ctaes.c:46-59 | writes exactly the sixteen bytes of the state, nothing around them |
| Aes.AesState.SubBytes | src/crypto/ctaes/ctaes.c:65-257 | every byte goes through the S-box, or its inverse |
| Aes.AesState.ShiftRows | src/crypto/ctaes/ctaes.c:264-274 | the masked shifts rotate row r left by r (FIPS 197 section 5.1.2) |
| Aes.AesState.InvShiftRows | src/crypto/ctaes/ctaes.c:276-286 | and right by r (section 5.3.1) |
| Aes.AesState.MixColumns | src/crypto/ctaes/ctaes.c:290-353 | MixColumns or InvMixColumns of FIPS 197 on the four columns at once |
| Aes.AesState.AddRoundKey | src/crypto/ctaes/ctaes.c:355-360 | the round key is added to every byte |
| Aes.AesEncrypt | src/crypto/ctaes/ctaes.c:450-469 | for every round count from one up the output block is the FIPS 197 cipher of the input block, also in place |
| Aes.AesDecrypt | src/crypto/ctaes/ctaes.c:471-496 | the same for the inverse cipher |
| Aes.RoundsUndone | src/crypto/ctaes/ctaes.c:471-496 | after r rounds of decryption the state is the one before the last r rounds' row shift |
| Aes.DecryptUndoesEncrypt | src/crypto/ctaes/ctaes.c:450-496 | decryption undoes encryption for all round keys, all round counts and all blocks |
| Cbc.UnchainUndoesChain | src/crypto/aes.cpp:76-151 | the mode is undone, given a block cipher that is |
| Cbc.XorByteAt | src/crypto/aes.cpp:94-105 | what is mixed in is the exclusive or, bit by bit |
| Cbc.ChainAt | src/crypto/aes.cpp:91-108 | every block of the ciphertext is the cipher of its block of text and the ciphertext before it |
| Cbc.ZeroVector | src/crypto/aes.cpp:85-98 | under a vector of zeroes the first block is enciphered as it is |
| Cbc.PaddingIsUnique | src/crypto/aes.cpp:135-149 | padding is read off without ambiguity from its last byte |
| Cbc.DecryptedUndoesEncrypted | src/crypto/aes.cpp:76-151 | decryption gives back exactly the message: every non-empty one with padding, every non-empty whole-block one without |
| Cbc.PaddingChecked | src/crypto/aes.cpp:135-150 | padding is removed exactly when it is some message's padding; otherwise nothing comes out |
| Cbc.BackApart | src/crypto/aes.cpp:112-151 | with separate buffers the loop undoes the chaining |
| Cbc.InPlaceIff | src/crypto/aes.cpp:112-151 | in place it does so if and only if every block but the last is its own plaintext |
| Cbc.CbcRoundTrip | src/crypto/aes.cpp:76-151 | the round trip with this AES, whatever the round keys |
| Cbc.CbcEncrypt | src/crypto/aes.cpp:76-110 | the output starts with the encryption, the rest of it is untouched, also in place; zero for the refused cases |
| Cbc.CbcDecrypt | src/crypto/aes.cpp:112-151 | returns the length of the message that lies at the front of the output, zero for the refused cases and malformed padding; in place the blocks are chained with what has been written over them |
| Cbc.RemovePadding | src/crypto/aes.cpp:135-150 | the branch-free check accepts exactly well-formed padding |
| ChainModel.ConnectKeepsInv | src/node/Blockchain.cpp:429-547 | every call of connectToAncestor that returns keeps: the main chain is the path to its tip, nothing connected is higher, connected blocks form a tree under genesis |
| ChainModel.AddHeaderKeepsInv | src/node/Blockchain.cpp:238-256 | storing a header keeps the same invariant |
| ChainModel.MainChainShape | src/node/Blockchain.cpp:495-530 | entry i has height i, entry 0 is genesis, every entry names the one before it as predecessor, the tip is highest |
| ChainModel.PathPrefix | src/node/Blockchain.cpp:503-519 | the path to an ancestor is a prefix of the path to the block |
| ChainModel.ForkPoint | src/node/Blockchain.cpp:509-519 | two branches agree up to one place and nowhere behind it |
| ChainModel.ReorganisationKeepsCommonPrefix | src/node/Blockchain.cpp:495-530 | a reorganisation keeps the chain up to the last common block and replaces all of the rest |
| ChainModel.EveryRun | src/node/Blockchain.cpp:400-547 | the invariant holds after every run from the empty store that still answers |
| ChainModel.GenesisFirstRun | src/node/Blockchain.cpp:439-470 | a run that adds genesis first never gets stuck and never holds an orphan |
| ChainModel.StepConnectsOnlyItsBlock | src/node/Blockchain.cpp:532-544 | one event connects at most the block it brings |
| ChainModel.StepWithoutOrphans | src/node/Blockchain.cpp:454-492 | without orphans no event gets stuck; the height assertion fails exactly for a block that is connected already under a connected parent |
| ChainModel.BeforeGenesis | src/node/Blockchain.cpp:439-447 | before genesis nothing is connected and every accepted block is filed as an orphan |
| ChainModel.RemovalNeverMoves | src/node/Blockchain.cpp:481-492 | after any number of passes the loop is where it began with the same orphans, unless its range is empty or its first element is the block |
| ChainModel.DescentNeverMoves | src/node/Blockchain.cpp:532-544 | after n passes the loop is where it began and has enqueued its first element n times, unless nothing waits |
| ChainModel.StuckAtGenesisIff | src/node/Blockchain.cpp:439-452 | the case of RunHalts in which genesis comes last: its arrival never returns if and only if a child of it was accepted before |
| ChainRuns.StepHalts | src/node/Blockchain.cpp:429-547 | where none waits for a connected block, an event never returns exactly when it connects a block that another waits for, and fails the height assertion exactly when it brings a connected block again |
| ChainRuns.NoneWaitsKept | src/node/Blockchain.cpp:429-547 | every event that returns leaves none waiting for a connected block |
| ChainRuns.NoneEverWaits | src/node/Blockchain.cpp:400-547 | so after every run that still answers none does |
| ChainRuns.RunHalts | src/node/Blockchain.cpp:400-547 | a run answers to the end, gets stuck, or fails the height assertion, each if and only if a condition on its events alone holds |
| ChainRuns.StuckPastGenesis | src/node/Blockchain.cpp:532-544 | a run of three blocks gets past genesis and never returns from the third |
| Blockchain.Store.constructor | src/node/Blockchain.hpp:64-82 | the empty store |
| Blockchain.Store.AddBlockHeader | src/node/Blockchain.cpp:238-256 | a header is stored once, under the next free id, in all three indexes |
| Blockchain.Store.StackAbove | src/node/Blockchain.cpp:497-507 | the first walk stacks the blocks above the old tip and stops at its height |
| Blockchain.Store.PopToFork | src/node/Blockchain.cpp:509-519 | the second walk ends at the fork, with the old branch popped and the new one stacked; it terminates |
| Blockchain.Store.PushBranch | src/node/Blockchain.cpp:521-528 | pushing makes the chain the whole new path; the height assertion never fails |
| Blockchain.Store.CheckNewHeight | src/node/Blockchain.cpp:495-530 | a block at least as high as the tip takes the chain over, any other leaves it alone |
| Blockchain.Store.RemoveFromOrphans | src/node/Blockchain.cpp:481-492 | the loop, cut off after any number of passes, is where that many passes of the value model are |
| Blockchain.Store.EnqueueDescendants | src/node/Blockchain.cpp:532-544 | the same for the loop that enqueues connect calls |
| Blockchain.Store.TryRemoval | src/node/Blockchain.cpp:481-492 | the first pass tells whether the loop is left after any number of passes |
| Blockchain.Store.TryDescent | src/node/Blockchain.cpp:532-544 | the same for the loop that enqueues connect calls |
| Blockchain.Store.ConnectGenesis | src/node/Blockchain.cpp:439-452 | the branch for an empty chain: genesis starts it, anything else is filed |
| Blockchain.Store.ConnectBelow | src/node/Blockchain.cpp:454-530 | the branch for a block whose parent has to be found |
| Blockchain.Store.ConnectToAncestor | src/node/Blockchain.cpp:429-547 | the store becomes, and the call does, what the value model says |
| Blockchain.Store.AddBlock | src/node/Blockchain.cpp:400-427 | a block whose merkle root fits is stored and connected, any other is refused without a trace |
| Blockchain.Store.GetBlockHash | src/node/Blockchain.cpp:182-198 | the hash of the main chain at a height, null above the tip; its assertion never fails |
| Blockchain.LocatorHeights | src/node/Blockchain.cpp:677-697 | the heights named by a locator start at the tip, decrease, and end at genesis |
| Blockchain.LocatorAt | src/node/Blockchain.cpp:677-697 | the first eleven entries are one apart, the next two, four, eight and so on below, down to genesis |
| Blockchain.Store.GetBlockLocator | src/node/Blockchain.cpp:668-700 | main-chain hashes from the tip down at the specified distances, ending with genesis |
| Blockchain.BlockHeader.SetHeight | src/blockchain/BlockHeader.hpp:112-116 | sets a height that was unset |
| Power.EncodeRatio | src/other/Base58.cpp:137-138 | 256^629 <= 58^859, the fact behind 136566/100000 |
| Power.DecodeRatio | src/other/Base58.cpp:68-69 | 58^71 <= 256^52, the fact behind 73322/100000 |
| Radix.RebaseInverse | src/other/Base58.cpp:48-175 | changing the base and back gives the digits, leading zeros included |
| Base58.AlphabetInvertsMap | src/other/Base58.cpp:28-46 | the digit table inverts the alphabet, and refuses every other character |
| Base58.AlphabetCountsUp | src/other/Base58.cpp:28-28 | digits count up with the codes of their characters |
| Base58.InMap | src/other/Base58.cpp:29-46 | the characters with a digit are the letters and digits of ASCII other than 0, I, O and l |
| Base58.AlphabetIs | src/other/Base58.cpp:28-28 | the alphabet, written out |
| Base58.EncodeBufferFits | src/other/Base58.cpp:137-154 | a number of n bytes fits the digits allocated, for every n |
| Base58.DecodeBufferFits | src/other/Base58.cpp:68-89 | a number of n digits fits the bytes allocated, for every n |
| Base58.CarryDone | src/other/Base58.cpp:82-90 | a carry that fits is absorbed when a carry loop stops |
| Base58.AppendByte | src/other/Base58.cpp:143-155 | b58 * 256 + byte in place; the assertion that no carry is left holds |
| Base58.AppendDigit | src/other/Base58.cpp:82-90 | b256 * 58 + digit in place; the assertion that no carry is left holds |
| Base58.EncodeBase58 | src/other/Base58.cpp:121-175 | one '1' per leading zero byte, then the digits of the number |
| Base58.DecodeBase58 | src/other/Base58.cpp:48-118 | accepts exactly one word over the alphabet with spaces around it, and gives its bytes |
| Base58.DecodeInvertsEncode | src/other/Base58.cpp:48-175 | decoding an encoded byte sequence gives that sequence |
| Base58.EncodeInvertsDecode | src/other/Base58.cpp:48-175 | encoding what an alphabet string decodes to gives the string |
| Base58.KnownText | src/other/Base58.cpp:121-175 | 00 00 28 7f b4 cd is 11233QC4 |
| Tiling.TotalsFillTheRow | src/support/lockedpool.cpp:132-141 | used and free bytes of a row add up to its length |
| Tiling.AllocKeepsRow | src/support/lockedpool.cpp:76-89 | taking bytes from the end of a free chunk leaves a row without gap, overlap or adjacent free chunks |
| Tiling.FreeKeepsRow | src/support/lockedpool.cpp:101-129 | so does giving a chunk back and merging it with its free neighbours |
| Tiling.EndsMatchStarts | src/support/lockedpool.h:92-100 | the free chunks by start and by end are the same chunks |
| Tiling.FreeUndoesAlloc | src/support/lockedpool.cpp:59-130 | freeing a chunk straight after allocating it restores the exact row |
| Tiling.RunIffChunk | src/support/lockedpool.cpp:72-74 | a run of n free addresses exists exactly when a free chunk of n bytes does |
| Tiling.OneChunkPerAddress | src/support/lockedpool.cpp:46-53 | every address of the arena lies in exactly one chunk |
| Arena.AlignmentsArePowers | src/support/lockedpool.cpp:37-41 | the alignments are exactly the powers of two from 1 to 2^63 |
| Arena.AlignUpRounds | src/support/lockedpool.cpp:38-41 | rounding is exact up to the wrap of size_t, where it gives zero |
| Arena.LowerBoundIsBestFit | src/support/lockedpool.cpp:68-74 | lower_bound finds a smallest chunk that is large enough |
| Arena.NullIffNoRun | src/support/lockedpool.cpp:59-74 | for a non-zero request nothing fits exactly when no run of free addresses is as long as the rounded size |
| Arena.AllocKeepsAligned | src/support/lockedpool.cpp:76-89 | aligned chunks stay aligned, and so is the address handed out |
| Arena.FreeKeepsAligned | src/support/lockedpool.cpp:101-129 | so they do when one is freed |
| Arena.EveryRun | src/support/lockedpool.cpp:46-141 | after any sequence of alloc and free the chunks tile the arena, no two free ones are adjacent, every address lies in exactly one chunk, and used + free is its size |
| Arena.Arena.constructor | src/support/lockedpool.cpp:46-53 | one free chunk over the whole arena |
| Arena.Arena.Alloc | src/support/lockedpool.cpp:59-92 | null exactly when nothing fits; otherwise the end of a best-fitting chunk is taken, and the four maps stay one row |
| Arena.Arena.Free | src/support/lockedpool.cpp:94-130 | throws exactly for a pointer that is not in use; otherwise the chunk is merged into the row |
| Arena.Arena.GetStats | src/support/lockedpool.cpp:132-141 | used + free = the size of the arena |
| ScriptNum.DecodeEncode | src/script/ScriptNum.hpp:229-292 | set_vch inverts serialize |
| ScriptNum.EncodeMinimal | src/script/ScriptNum.hpp:85-105 | serialize always passes the minimality test |
| ScriptNum.EncodeDecode | src/script/ScriptNum.hpp:85-105 | every vector that passes the test is the encoding of its value |
| ScriptNum.MinimalIffEncoding | src/script/ScriptNum.hpp:85-105 | so the test accepts the encodings and nothing else |
| ScriptNum.EncodedSize | src/script/ScriptNum.hpp:229-267 | n bytes hold exactly the numbers below 2^(8n-1) in magnitude |
| ScriptNum.OperandRange | src/script/ScriptNum.hpp:35-42 | four bytes hold exactly -2^31+1 to 2^31-1 |
| ScriptNum.ResultRange | src/script/ScriptNum.hpp:229-292 | eight bytes hold exactly the numbers below 2^63 in magnitude |
| ScriptNum.DecodeBound | src/script/ScriptNum.hpp:270-292 | n bytes, minimal or not, never stand for more than 2^(8n-1) in magnitude |
| ScriptNum.Serialize | src/script/ScriptNum.hpp:229-267 | computes the encoding for every value but -2^63 |
| ScriptNum.SetVch | src/script/ScriptNum.hpp:270-292 | computes the value of up to eight bytes, within 64 bits |
| ScriptNum.FromBytes | src/script/ScriptNum.hpp:76-108 | throws exactly for vectors that are too long, or not minimal where that is asked for |
| ScriptNum.ScriptNum.AddAssign | src/script/ScriptNum.hpp:163-175 | adds exactly when the sum fits 64 bits, else throws and changes nothing |
| ScriptNum.ScriptNum.SubAssign | src/script/ScriptNum.hpp:177-189 | the same for differences |
| Script.BuildAppends | src/script/Script.hpp:144-189 | a script built item by item is the build of the whole list |
| Script.NextOfPush | src/script/Script.hpp:160-189 | a push is read back as its data and what follows it, exactly unless the bytes left are miscounted |
| Script.PushForms | src/script/Script.hpp:160-189 | the bytes in front of pushed data: one up to 75, then two, three or five, and the size they hold |
| Script.ReadAllOfBuild | src/script/Script.hpp:144-189 | a script built from pushes and opcodes is read back as that list exactly when every push is countable |
| Script.ShortIsCountable | src/script/Script.hpp:366-369 | which it is in every script below 2^32 bytes |
| Script.LongIsRefused | src/script/Script.hpp:366-369 | and is not in one that is longer |
| Script.Script.PushData | src/script/Script.hpp:160-189 | appends size and data in the shortest of the four forms |
| Script.Script.PushOpcode | src/script/Script.hpp:144-152 | appends an opcode, throws for anything else |
| Script.Script.GetOp | src/script/Script.hpp:310-379 | reads one instruction and moves the iterator past it, or refuses |
| Script.CutAtBoundaries | src/script/Interpreter.cpp:622-657 | what stays is whole instructions at which no copy of the needle starts; every copy that goes starts at a boundary |
| Script.DeletionConserves | src/script/Interpreter.cpp:622-657 | length of the result plus found times the needle's length is the length of the script |
| Script.EndIsKept | src/script/Interpreter.cpp:641-641 | from a boundary that is reached with no more left than the needle is long everything stays, so a copy that starts there and ends the script does |
| Script.OverlapIsCut | src/script/Interpreter.cpp:622-657 | a copy that ends the script but begins inside a deleted one does not stay |
| Script.FindAndDelete | src/script/Interpreter.cpp:622-657 | the loop does just that, and terminates |
| Conditionals.FlatBlock | src/script/Interpreter.cpp:132-253 | running the flat form of a block has the block's meaning and leaves the flags as they were |
| Conditionals.FlatBranches | src/script/Interpreter.cpp:189-253 | the same for any number of ELSE branches up to their ENDIF |
| Conditionals.SuccessIsBalanced | src/script/Interpreter.cpp:553-556 | only balanced code can succeed |
| Conditionals.TreeOfBalanced | src/script/Interpreter.cpp:189-253 | balanced code is the flat form of a tree |
| Conditionals.FlatIsStructured | src/script/Interpreter.cpp:132-253 | running flat code gives the same stacks, count and failure as running its tree; without a tree it fails |
| Interpreter.MeaningIsStructured | src/script/Interpreter.cpp:106-557 | the same for the bytes of a script, with its size limit and unreadable instructions |
| Conditionals.TruthOfData | src/script/Interpreter.cpp:609-618 | data is true exactly when the number its bytes make up is not zero |
| Conditionals.TruthOfNumber | src/script/Interpreter.cpp:605-608 | a number is true exactly when it is not zero, and exactly when its serialisation is |
| Conditionals.TruthAndValue | src/script/Interpreter.cpp:603-620 | data and the number it stands for are both true or both false, unless the data is a negative zero |
| Conditionals.MinimalConditions | src/script/Interpreter.cpp:207-224 | as data only nothing and a one are minimal; a number is judged as its serialisation is only if it is zero, one or above 255 |
| Interpreter.Interpreter.IsTrue | src/script/Interpreter.cpp:603-620 | the loop over the bytes decides the truth of a frame |
| ScriptRuns.RunLimits | src/script/Interpreter.cpp:141-551 | a run that goes through has at most 201 operations and 520 bytes in a push, and none is stopped for a limit it keeps |
| ScriptRuns.SizeLimit | src/script/Interpreter.cpp:127-130 | a script is refused for its size exactly when it has more than 10000 bytes |
| ScriptRuns.NotHandedOn | src/script/Interpreter.cpp:189-253 | the opcodes from IF to ENDIF do what they do whatever the other instructions are; the two after NOTIF do nothing |
| ScriptRuns.ShortRuns | src/script/Interpreter.cpp:189-253 | 1 IF 1 ELSE 0 ENDIF leaves one; with NOTIF it leaves nothing |
| Interpreter.Interpreter.TakeCondition | src/script/Interpreter.cpp:193-233 | IF and NOTIF in code that is executed |
| Interpreter.Interpreter.DoInstruction | src/script/Interpreter.cpp:141-551 | one round of the loop: limits, conditionals, everything else, stack sizes |
| Interpreter.Interpreter.Execute | src/script/Interpreter.cpp:106-601 | the loop computes the meaning of the script |
| Interpreter.Interpreter.ResetAndExecute | src/script/Interpreter.hpp:117-121 | a run from scratch succeeds exactly when the script fits, can be read, has a tree, and running the tree succeeds |
| StackBound.CheckedEnd | src/script/Interpreter.cpp:262-551 | a run that ends with any instruction but a direct push leaves at most 1000 values |
| StackBound.BoundIff | src/script/Interpreter.cpp:141-551 | a successful run leaves at most 1000 values if and only if those at its last checked instruction plus the direct pushes behind it are no more |
| StackBound.BoundExceeded | src/script/Interpreter.cpp:262-262 | a script of 1001 bytes succeeds and leaves 1001 values |
| MultiSig.FirstKey | src/script/Interpreter.cpp:1728-1760 | giving the first key to the first signature it checks with loses no solution |
| MultiSig.MatchSignatures | src/script/Interpreter.cpp:1728-1760 | the greedy loop succeeds exactly when a strictly increasing assignment of signatures to keys exists; its indexes stay in range |
| MultiSig.IntOfNumber | src/script/ScriptNum.hpp:210-221 | a count is the number itself, or the nearest that fits 32 bits |
| MultiSig.IntOfData | src/script/ScriptNum.hpp:76-108 | data is a count exactly when it has at most four bytes and, where asked for, is some number's encoding |
| MultiSig.IntOfEither | src/script/ScriptNum.hpp:210-221 | a number and its serialisation are the same count exactly when four bytes hold it |
| MultiSig.StackedIsLaid | src/script/Interpreter.cpp:1659-1710 | a number, that many keys, a number and that many signatures are read as such, exactly within 20 keys and 201 operations |
| MultiSig.SigMachine.TakeCounted | src/script/Interpreter.cpp:1664-1710 | a count within its limit and as many frames |
| MultiSig.SigMachine.StripSignatures | src/script/Interpreter.cpp:1712-1726 | every signature's push is deleted from the script that is signed |
| MultiSig.SigMachine.CheckMultiSig | src/script/Interpreter.cpp:1659-1776 | a number is pushed exactly when the stack is laid out and within limits, and it tells whether an assignment exists |
| ShaSpec.FewestZeroes | src/crypto/sha256.cpp:677-684 | the padding of FIPS 180-4 section 5.1.1 has the fewest zeroes that work |
| ShaSpec.CompressSplit | src/crypto/sha256.cpp:79-163 | blocks are compressed one after the other, however they are grouped |
| ShaKnown.HashOfAbc | src/crypto/sha256.cpp:49-163 | the known answer of FIPS 180-4: the 32 bytes for the message abc |
| ShaCode.ChIsChoose | src/crypto/sha256.cpp:49-49 | the two-operation form of Ch |
| ShaCode.MajIsMajority | src/crypto/sha256.cpp:50-50 | the short form of Maj |
| ShaCode.Round | src/crypto/sha256.cpp:57-63 | one round gives the new d and the new h |
| ShaCode.EightRounds | src/crypto/sha256.cpp:85-92 | eight lines with rotated register names are eight steps of FIPS 180-4 |
| ShaCode.ExtendAll | src/crypto/sha256.cpp:102-117 | sixteen in-place updates move the schedule on by sixteen words |
| ShaCode.SixteenRounds | src/crypto/sha256.cpp:85-100 | sixteen lines are sixteen steps |
| ShaCode.CompressBlock | src/crypto/sha256.cpp:81-160 | the unrolled body is the compression function |
| ShaCode.Transform | src/crypto/sha256.cpp:79-163 | any number of blocks in a row |
| ShaD64.FoldedKeys | src/crypto/sha256.cpp:256-319 | all 64 folded constants are K_t + W_t of the padding block |
| ShaD64.ShortRow | src/crypto/sha256.cpp:356-371 | the shortened first row of the last schedule |
| ShaD64.DoubleHash | src/crypto/sha256.cpp:421-458 | SHA-256 twice over 64 bytes is three compressions |
| ShaD64.TransformD64 | src/crypto/sha256.cpp:165-414 | the folded form is SHA-256 twice, for every 64-byte input |
| ShaD64.TransformD64Wrapper | src/crypto/sha256.cpp:421-458 | so is the form over the generic Transform: the two agree |
| Hasher.AbsorbBlocks | src/crypto/sha256.cpp:651-671 | whole blocks, the first begun by the buffer, leave state and buffer those of the whole message |
| Hasher.LengthWraps | src/crypto/sha256.cpp:681-681 | the 64-bit length sees nothing of a wrap |
| Hasher.LengthRead | src/crypto/sha256.cpp:681-681 | the eight length bytes, the high one first, are the digits of the length modulo 2^64 |
| Hasher.CSHA256.constructor | src/crypto/sha256.cpp:646-649 | nothing written |
| Hasher.CSHA256.Reset | src/crypto/sha256.cpp:694-699 | nothing written again |
| Hasher.CSHA256.Write | src/crypto/sha256.cpp:651-675 | whatever the pieces, what counts is their concatenation |
| Hasher.CSHA256.Finalize | src/crypto/sha256.cpp:677-692 | compresses exactly the padded message, and gives SHA-256 of what was written |
| HashStream.HashStreamBuffer.constructor | src/other/HashStreamBuffer.hpp:50-56 | nothing written |
| HashStream.HashStreamBuffer.Sync | src/other/HashStreamBuffer.hpp:101-112 | empties the put area without changing the message |
| HashStream.HashStreamBuffer.Xsputn | src/other/HashStreamBuffer.hpp:114-155 | the message grows by the data, or starts anew after a digest; the write count follows |
| HashStream.HashStreamBuffer.Digest | src/other/HashStreamBuffer.hpp:63-76 | SHA-256 twice of the message, however it was written, and again when asked again |
| Merkle.LastTwice | src/other/MerkleTree.hpp:62-65 | writing the last hash of an odd level twice changes nothing above it |
| Merkle.NextPair | src/other/MerkleTree.hpp:72-85 | writing a parent destroys no hash that is still to be read |
| Merkle.HashLevel | src/other/MerkleTree.hpp:67-85 | one level in place is the level above |
| Merkle.MerkleRoot | src/other/MerkleTree.hpp:52-93 | the in-place loop gives the recursive root for any number of leaves, null for none, and terminates |
| Merkle.MerkleLeaves | src/other/MerkleTree.hpp:33-49 | one double hash per item, in order |
| Murmur.BodySplit | src/other/MurmurHash2.cpp:53-66 | whole words are mixed one after the other |
| Murmur.KnownHashes | src/other/MurmurHash2.cpp:37-243 | both hashes of abcdefg under the seed 9747b28c |
| Murmur.MurmurHash2 | src/other/MurmurHash2.cpp:37-86 | whole words mixed one after the other, then the last one to three bytes: the definition the other two forms are compared with |
| Murmur.MurmurHashNeutral2 | src/other/MurmurHash2.cpp:339-382 | byte-wise reads give the same hash for every key, length and seed |
| Murmur.ShiftStep | src/other/MurmurHash2.cpp:428-441 | two aligned reads shifted together are the word between them |
| Murmur.MixShifted | src/other/MurmurHash2.cpp:426-441 | the shifting loop mixes the same words |
| Murmur.FinishShifted | src/other/MurmurHash2.cpp:443-483 | so do the leftover bytes, in both cases |
| Murmur.MurmurHashAligned2 | src/other/MurmurHash2.cpp:394-520 | aligned reads give the same hash whatever the address modulo four |
| Murmur.MurmurHash2A | src/other/MurmurHash2.cpp:206-243 | the one-shot hash that the incremental form is compared with |
| Murmur.CMurmurHash2A.constructor | src/other/MurmurHash2.cpp:265-271 | nothing added |
| Murmur.CMurmurHash2A.Begin | src/other/MurmurHash2.cpp:265-271 | nothing added again |
| Murmur.CMurmurHash2A.MixTail | src/other/MurmurHash2.cpp:309-325 | bytes one at a time until whole words are left, or nothing is |
| Murmur.CMurmurHash2A.Add | src/other/MurmurHash2.cpp:273-290 | whatever the pieces, what counts is their concatenation |
| Murmur.CMurmurHash2A.End | src/other/MurmurHash2.cpp:292-303 | the incremental hash is the one-shot hash |

## Left out

- AES key expansion, key wiping and the loops over many blocks of `AES128_encrypt` and its like: the round keys are arbitrary here.
- Cbc.CbcEncrypt: buffers that overlap without being the same are not modelled, nor for CbcDecrypt.
- Arena.Arena.Alloc: among chunks of the same size the multimap hands out the oldest; addresses are numbers, and no memory is locked.
- Base58.EncodeBase58: the buffer sizes are products in unbounded arithmetic; the overflow of size_t for inputs of more than 10^14 bytes is not modelled.
- Base58.DecodeBase58: isspace is that of the C locale.
- Blockchain.Store.AddBlock: transactions are not stored, and the comparison of merkle roots is an input.
- Blockchain.Store.RemoveFromOrphans: a loop that never ends cannot be a method that ends, so it is cut off after a given number of passes, any number; the orphans of one predecessor come in the order they were filed; the container of the source leaves the order open.
- ChainModel.EveryRun: the model is of one thread, so a run has the connect calls of its own events only. A loop that never moves enqueues a connect call in every pass, which another worker (`src/main.cpp:201`) could run in the meantime.
- `load` and `save`, block files and the wall clock; `getBlockHeaders` and `getBlocks`, whose loops hold one hash while the height changes.
- ScriptNum.Serialize: -2^63 is excluded, where negating is undefined; the overflow of the unchecked operators `+` and `-` is not modelled.
- Interpreter.Interpreter.Execute: instructions other than conditionals are a parameter, a function from the machine to the machine, a throw or a failed assertion; tracing and the step counter are left out.
- MultiSig.SigMachine.CheckMultiSig: no flags that ask for a signature or key encoding are set, and CheckSig is a parameter; the codes of the errors are told apart only as far as they stop the operation.
- HashStream.HashStreamBuffer.Xsputn: single characters put through `overflow` and `sputc` bypass it.
- Hasher.CSHA256.Write: lengths near the limit of size_t, where the buffer size plus the length would wrap, are left out.
- ShaCode.CompressBlock: each row of sixteen schedule updates is done before the sixteen rounds that use it, where the code interleaves them; the SIMD and assembly forms are left out.
- ShaD64.TransformD64: the message, the hashes and the constants are handled a row of sixteen at a time for the same reason.
- Murmur.MurmurHash2: the machine is little-endian and `len` is not negative; the 64-bit variants are left out.
- Merkle.MerkleRoot: the buffer holds whole hashes, as MerkleLeaves makes it; serialisation of the items is an input.
- Peers, messages, RPC, timers, configuration, secp256k1, OpenSSL, random sources, page locking and the address manager.
- RIPEMD-160, SHA-1, SHA-512, SipHash, ChaCha20, HMAC, Base58Check and the remaining stream formats: they would add only easier members.
