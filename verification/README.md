# ZeroSync in Dafny

ZeroSync proves the validity of the Bitcoin chain with a STARK. A Cairo program validates blocks; Rust and
Python hosts prepare its inputs; a second Cairo program verifies the resulting proofs. This project models
the parts of these programs that are hard to get right and proves what they are for: components that must
agree although they work differently, and state machines whose invariants hold over every run.

`dafny verify dfyconfig.toml` checks all of it. Hashes are opaque functions (of which only injectivity and
never being zero are used, where a lemma says so), except SHA-256, which is modelled itself. Field elements
are integers modulo a prime; the modulus of the STARK field is proved to be one.

## What is modelled

* **Utreexo** (`HashTrees`, `Forests`, `Shapes`, `BridgeNode`, `Utreexo`, `Lockstep`, `Occupancy`, `UtxoSet`).
  The bridge node is a heap of nodes with parent and child pointers; the Cairo accumulator keeps 27 root
  values. Both are imperative, run different algorithms on different state, and are proved to follow one value
  model, a forest of perfect trees. Over every run their roots are equal slot by slot if and only if no leaf was
  inserted while it was stored, and until then every proof that the bridge node hands out is accepted. An
  arbitrary proof is accepted exactly if it is that one.
* **The Cairo CPU in the STARK verifier** (`AirConstraints`, `CairoMachine`, `CpuAir`, `CpuCompleteness`).
  The 31 transition constraints vanish on a pair of rows exactly where the machine makes a step, in both
  directions.
* **Whole traces** (`AuxConstraints`, `SortedColumns`, `TraceSoundness`). The memory and range-check
  constraints on every row pair are turned into statements about whole columns. The active rows of a trace on
  which all constraints hold, with accesses and offsets among the sorted ones, are a run of the machine over the
  one read-only memory of the sorted columns. That memory also holds the public memory, which the verifier
  compares with the last running product.
* **FRI** (`Polynomials`, `Lagrange`, `FriParser`, `FriQueries`, `FriAcceptance`, `FriSkipping`, `FriFolding`,
  `FriCompleteness`, `FriDomain`). The verifier follows queries one by one with a memo; the parser folds all
  positions layer by layer. The two orders are proved to agree, what acceptance means is stated proof by proof,
  and what the memo skips is stated exactly. Lagrange evaluation is proved to be interpolation, one folding
  step is proved to evaluate the folded polynomial, and a prover who follows the protocol is accepted.
* **SHA-256** (`Bits`, `Sha256`, `Sha256Constants`, `PackedLanes`, `Sha256Packed`, `Sha256Compression`,
  `Sha256Padding`, `Sha256Finalize`). Seven packed instances in one field element compute the scalar function lane
  by lane, whose constants are proved to be the bits of roots of primes that the standard takes them from. The
  block padder writes exactly the padded blocks of section 5.1.1 of FIPS 180-4, chained through their states,
  and the final check accepts exactly the tapes whose claimed outputs are those of their instances.
* **Headers and blocks** (`MerkleTree`, `Octets`, `TargetBits`, `MedianTime`, `HeaderChain`, `BlockRewards`,
  `HashChains`, `Ledger`, `Supply`, `Blocks`). Merkle roots determine their leaves; compact targets; retargeting,
  work and median time along every run of headers; conservation of money; and runs of blocks, which are runs of
  headers and of the ledger together, for arbitrary hints.
* **Byte streams and memory images** (`ByteStreams`, `ByteCopies`, `HashBytes`, `Varints`,
  `TransactionFormat`, `TransactionReader`, `DynamicMemory`). The reader takes bytes off words at every
  alignment; the transaction reader inverts the transaction encoding and accepts no other; the parser's
  segments, relocated and loaded anywhere, read back as they were written.

`Wrappers`, `Arithmetic`, `StarkPrime` and `Field` hold what several of these need.

## Where the code differs from its documentation

The model follows the code.

* A timestamp must be at least the median, not greater than it (`src/block/block_header.cairo:299-315`).
* The timespan of an epoch is a field element, so an epoch that ends before it starts counts as very long
  (`HeaderChain.TimespanIs`). Headers with such timestamps are accepted, and raise the target by the factor of
  four (`HeaderChain.NegativeTimespanQuadruples`; an example is `HeaderChain.EarlyHeaderAccepted`).
* The work of a block is the quotient by the target, not by the target plus one. `HeaderChain.WorkOfNextTarget`
  says when the two agree; for a target of 32 they do not (`HeaderChain.WorkDiffersAt32`). For targets below 32
  the work does not fit into a field element (`HeaderChain.WorkFits`).
* `write_varint` writes 253, 254 and 255 as one byte, which is never read back as the number
  (`Varints.MarkerNotReadBack`). Behind two pending bytes it also fails for all other numbers that take two
  bytes after the marker, because these are misplaced (`Varints.VarintBehindTwoBytes`). At every alignment,
  these are the only failures (`Varints.WriteVarint`).
* An insertion of a leaf that is stored already is refused by the bridge node, but the Cairo program does not look
  at the answer and adds the leaf to its roots again. From then on the two sides differ (`UtxoSet.UtxoSet.Run`),
  and proofs of the bridge node can be rejected (`UtxoSet.InsertedTwice`).
* The hash chain over the felts of a script does not return for a single felt either, although its comment
  names only the empty list: its loop then takes as many turns as the field has elements
  (`HashChains.FewFelts`). Outputs with scripts of four bytes or fewer are therefore never accepted
  (`Ledger.Coin.Hashable`). Without the length that the original of this loop hashes first, chains tell lists
  apart if and only if these are equally long (`HashChains.SeparatesExactly`).
* `write_uint16_endian` leaves a byte at the wrong place behind three pending bytes
  (`ByteCopies.Writer.WriteUint16Endian`, `ByteCopies.MisplacedByte`).
* For a transaction with the segregated witness marker, the size that the reader returns leaves out the
  marker's two bytes (`TransactionReader.ReadTransaction`, `TransactionReader.ReadMarked`).
* A query whose folded position has been seen before is cut short without looking at its own evaluation
  (`FriSkipping.EvaluationSkipped`). Acceptance implies that every query's own evaluations are in its proofs if
  and only if no two positions meet in the last layer (`FriSkipping.SkippingLosesNothing`).

## Model

| member | source | states |
|---|---|---|
| Utreexo.Accumulator.Add | src/utxo_set/utreexo.cairo:21-27 | the roots array is a fresh one, and its contents are the old roots with the leaf carried up to the first empty slot |
| Utreexo.Accumulator.AddLoop | src/utxo_set/utreexo.cairo:29-46 | filling the new array slot by slot computes the carry into the roots merged from both arrays |
| Utreexo.Accumulator.Delete | src/utxo_set/utreexo.cairo:48-59 | accepts exactly an included leaf; then the new roots are those of the tree taken apart along the proof, otherwise nothing changes |
| Utreexo.Accumulator.DeleteLoop | src/utxo_set/utreexo.cairo:61-88 | filling the new array computes the recursion on the merged roots, in all four branches |
| Forests.AddKeeps | src/utxo_set/bridge_node.py:45-60 | adding a new leaf keeps every slot perfect, adds exactly that leaf, and increments the count |
| Forests.DeleteKeeps | src/utxo_set/bridge_node.py:64-91 | deleting a leaf keeps every slot perfect, removes exactly that leaf, and decrements the count |
| Lockstep.AddRoots | src/utxo_set/utreexo.cairo:21-46 | the Cairo roots after an addition are the root values of the forest with the leaf added |
| Lockstep.DeleteRoots | src/utxo_set/utreexo.cairo:48-88 | the Cairo roots after a deletion with the forest's proof are the root values of the forest without the leaf |
| Lockstep.ProofAccepted | src/utxo_set/bridge_node.py:95-109 | the proof and position of any leaf of the forest are accepted on the forest's roots |
| Lockstep.ProofIsPath | src/utxo_set/utreexo.cairo:100-122 | whatever proof leads from a leaf to the root of a perfect tree is a path of that tree to the leaf: its siblings are the proof, and its turns are the bits of the index |
| Lockstep.AcceptedExactly | src/utxo_set/utreexo.cairo:90-122 | a leaf, position and proof are accepted if and only if the leaf is stored, the proof is the forest's and the position is the leaf's modulo the size of its tree |
| Lockstep.AcceptedDelete | src/utxo_set/utreexo.cairo:48-88 | whatever proof is accepted, the leaf was stored once and the new roots are those of the forest without it |
| Lockstep.OccupiedSlots | src/utxo_set/bridge_node.py:17-19 | slot h is occupied exactly if bit h of the number of leaves is one |
| Lockstep.RoomExactly | src/utxo_set/utreexo.cairo:29-46 | the carry stops inside the 27 slots exactly while fewer than 2^27 - 1 leaves are stored |
| Occupancy.AddStores | src/utxo_set/utreexo.cairo:29-46 | whatever the roots are, an addition makes the occupied slots stand for one more leaf |
| Occupancy.DeleteStores | src/utxo_set/utreexo.cairo:61-88 | whatever the roots are, taking a tree apart along a proof without zeros makes the occupied slots stand for one leaf less |
| Occupancy.RoomIs | src/utxo_set/utreexo.cairo:29-46 | a carry stops inside the slots exactly if they do not all stand for leaves |
| Occupancy.StoredIsPopulation | src/utxo_set/bridge_node.py:17-19 | the roots of a forest stand for as many leaves as it has |
| Shapes.ParentNode | src/utxo_set/bridge_node.py:36-41 | a new parent of two roots keeps the heap a forest: disjoint trees, consistent pointers and values, and the forest joins the two trees |
| Shapes.Detach | src/utxo_set/bridge_node.py:76-78 | clearing a sibling's parent pointer makes its tree a tree of the forest of its own |
| BridgeNode.BridgeNode.Add | src/utxo_set/bridge_node.py:45-60 | refuses a known leaf; otherwise the heap stays a valid forest, which is the old one with the leaf added, and the leaf table gains the leaf |
| BridgeNode.BridgeNode.CarryUp | src/utxo_set/bridge_node.py:51-60 | the loop over occupied slots carries the new node up, keeping all leaves and the shape of the heap |
| BridgeNode.BridgeNode.InclusionProof | src/utxo_set/bridge_node.py:95-109 | following parent pointers lists the siblings from the leaf to the root, and the position bit by bit |
| BridgeNode.BridgeNode.Delete | src/utxo_set/bridge_node.py:64-91 | refuses an unknown leaf; otherwise returns the forest's proof and position, and the heap is the forest without the leaf |
| BridgeNode.BridgeNode.HandBackOne | src/utxo_set/bridge_node.py:72-82 | one turn of the loop gives a sibling back, joining it with the carry or the root in its slot, or leaving it there |
| BridgeNode.BridgeNode.HandBack | src/utxo_set/bridge_node.py:70-88 | the loop gives all siblings back and ends with a parentless carry in the slot of the proof's length |
| UtxoSet.UtxoSet.Insert | src/utxo_set/utxo_set.cairo:10-28 | the leaf is always added to the Cairo roots, and to the bridge node only if it is new; sides in step stay in step if and only if the leaf was not stored |
| UtxoSet.UtxoSet.FetchInclusionProof | src/utxo_set/utreexo.cairo:125-151 | for a stored leaf, the bridge node hands out a proof that the accumulator's roots accept, and whose deletion gives the bridge node's new roots |
| UtxoSet.UtxoSet.Extract | src/utxo_set/utxo_set.cairo:30-62 | goes through exactly if the bridge node knows the leaf and its proof leads to a Cairo root, which is always so while the sides are in step; sides in step stay in step, and others do not come back |
| UtxoSet.UtxoSet.InStepAccepts | src/utxo_set/utxo_set.cairo:56-59 | while the sides are in step, the proof of every stored leaf is accepted |
| UtxoSet.UtxoSet.Run | src/utxo_set/bridge_node.py:45-91 | a run stops only at an extraction of a leaf that is not stored, or after a repeated insertion; however far it comes, the roots agree slot by slot if and only if no leaf was inserted while it was stored; insertions meet fewer than 2^27 - 1 stored leaves |
| UtxoSet.RepeatsExactly | src/utxo_set/bridge_node.py:45-47 | the leaves by which the Cairo roots exceed the bridge node's are more than before if and only if the run inserts a leaf while it is stored |
| UtxoSet.InsertedTwice | src/utxo_set/utxo_set.cairo:18-27 | a leaf that is inserted twice brings the sides out of step, and the bridge node's proof of it is rejected |
| StarkPrime.StarkModulusIsPrime | src/stark_verifier/utils.py:7 | 2^251 + 17 * 2^192 + 1 is prime |
| StarkPrime.PowersDiffer | src/stark_verifier/parameters/parameters.cairo:2-3 | if some power g^(2^a) is -1, the first 2^(a+1) powers of g are different |
| CpuAir.DecodeWord | src/stark_verifier/air/transitions/frame.cairo:92-150 | flags and offsets that recompose to the instruction word are the decoded instruction |
| CpuAir.OperandsMean | src/stark_verifier/air/transitions/frame.cairo:152-183 | vanishing operand constraints fix the addresses of dst, op0 and op1 |
| CpuAir.ResMeans | src/stark_verifier/air/transitions/frame.cairo:238-261 | vanishing mul and res constraints fix the result of the instruction |
| CpuAir.AssertionsMean | src/stark_verifier/air/transitions/frame.cairo:262-268 | vanishing opcode constraints make the assertions of call and assert-equal hold |
| CpuAir.PcSound | src/stark_verifier/air/transitions/frame.cairo:210-233 | vanishing program-counter constraints give the next pc, in the jump cases and in both cases of jnz |
| CpuAir.SelectorDrops | src/stark_verifier/air/transitions/frame.cairo:270-302 | with a nonzero selector the scaled constraints vanish only if the unscaled ones do |
| CpuAir.CpuSoundness | src/stark_verifier/air/transitions/frame.cairo:77-441 | if all 31 constraints vanish on a row pair whose accesses agree with memory, the next registers are the machine's step wherever that is defined, and its assertions hold |
| CairoMachine.UndefinedExactly | src/stark_verifier/air/transitions/frame.cairo:77-130 | a step is undefined exactly if its word is no instruction, or two flags of one group are set, or a conditional jump or a call comes with flags that it excludes |
| CpuCompleteness.CpuCompleteness | src/stark_verifier/air/transitions/frame.cairo:77-441 | every valid step has a row of canonical cells that carries the registers, agrees with memory, has offsets in range and selector one, and on which all 31 constraints vanish |
| AuxConstraints.VirtualIsFlat | src/stark_verifier/air/transitions/frame.cairo:315-332 | what a constraint reads through the virtual columns, across the row boundary, is the next entry of the flattened column |
| SortedColumns.SingleValued | src/stark_verifier/air/transitions/frame.cairo:334-372 | in a column shorter than the field, equal addresses carry equal values |
| SortedColumns.BetweenEnds | src/stark_verifier/air/transitions/frame.cairo:414-422 | a continuous column of canonical entries stays between its ends |
| SortedColumns.Telescopes | src/stark_verifier/air/transitions/frame.cairo:375-397 | the last running product times all sorted factors is the first times all unsorted ones |
| TraceSoundness.MemoryColumns | src/stark_verifier/air/transitions/frame.cairo:334-372 | constraints on every row pair make the flattened address column continuous, and its values stay where it does not rise |
| TraceSoundness.ProductColumn | src/stark_verifier/air/transitions/frame.cairo:375-397 | constraints on every row pair make the flattened product column a running product of the factors |
| TraceSoundness.RangeCheckColumns | src/stark_verifier/air/transitions/frame.cairo:402-441 | the same two statements for the range-check columns |
| TraceSoundness.MemoryProductTelescopes | src/stark_verifier/air/transitions/frame.cairo:334-400 | over a whole trace, p_N times the product of sorted factors is p_0 times the product of unsorted factors |
| TraceSoundness.MemoryProductCloses | src/stark_verifier/evaluator.cairo:224-250 | if the sorted columns hold the accesses with the public memory in place of as many accesses of 0 at 0, and the product starts with the first factors, then the last product times the n public factors is z^n |
| TraceSoundness.MemoryProductExactly | src/stark_verifier/evaluator.cairo:72-75 | the last product times the n public factors is z^n if and only if all factors of accesses and public memory multiply to those of the sorted columns times z^n |
| TraceSoundness.ReducePubMem | src/stark_verifier/evaluator.cairo:224-250 | fails exactly if a public factor vanishes, and otherwise gives the value that times the n public factors is z^n |
| TraceSoundness.AccessIsSorted | src/stark_verifier/evaluator.cairo:224-250 | such sorted columns hold every access of the trace other than 0 at 0 |
| TraceSoundness.PublicIsMemory | src/stark_verifier/evaluator.cairo:224-250 | the memory of a trace with such sorted columns holds the public memory, except for 0 at 0 |
| TraceSoundness.SortedMemoryIsSingleValued | src/stark_verifier/air/transitions/frame.cairo:334-372 | anywhere in the sorted columns of a whole trace, equal addresses carry equal values |
| TraceSoundness.TraceMemoryIsSingleValued | src/stark_verifier/air/transitions/frame.cairo:334-400 | two accesses of the trace to one address that are among the sorted ones see one value |
| TraceSoundness.TraceOffsetsInRange | src/stark_verifier/air/transitions/frame.cairo:402-441 | if the offsets of a row are among sorted ones that go from 0 or more to less than 2^16, they are in 16 bits |
| TraceSoundness.SortedIsMemory | src/stark_verifier/air/transitions/frame.cairo:334-372 | the memory of the trace holds every entry of the sorted columns |
| TraceSoundness.TraceIsExecution | src/stark_verifier/air/transitions/frame.cairo:77-441 | each row that is not switched off and whose accesses and offsets are sorted leads to the next row's registers by a machine step over the one memory of the sorted columns |
| TraceSoundness.TraceIsRun | src/stark_verifier/air/transitions/frame.cairo:77-441 | if the first n rows are such rows, n machine steps from the first row reach row n, unless a step is undefined |
| TraceSoundness.StarkTraceIsRun | src/stark_verifier/air/transitions/frame.cairo:77-441 | the same in the STARK field, with no assumption about its modulus left |
| Polynomials.TooManyRoots | src/stark_verifier/fri/polynomials.cairo:31-48 | a polynomial with as many distinct roots as coefficients vanishes everywhere |
| Lagrange.LagrangeAtNode | src/stark_verifier/fri/polynomials.cairo:7-48 | at node x_k the evaluation is y_k |
| Lagrange.LagrangeIsPolynomial | src/stark_verifier/fri/polynomials.cairo:7-48 | if the values come from a polynomial with at most as many coefficients as nodes, the evaluation is that polynomial's at every x |
| FriParser.FoldedIs | parser/src/lib.rs:425-439 | the folded positions are exactly the residues of the positions, without duplicates |
| FriParser.FoldPositions | parser/src/lib.rs:425-439 | the loop computes the residues in order of first appearance |
| FriParser.FoldChainPrefix | parser/src/lib.rs:403-423 | folding more positions only appends to each layer |
| FriParser.WriteFriProofs | parser/src/lib.rs:403-423 | each layer holds one proof for each position of the iterated fold, in that order, with the position's path and values |
| FriQueries.OneMoreQuery | src/stark_verifier/fri/fri_verifier.cairo:319-421 | following one more query with the memo accepts exactly if checking whole layers with the query added does; both look at each position once, with the first evaluation claimed there |
| FriQueries.MemoIsFoldChain | src/stark_verifier/fri/fri_verifier.cairo:346-368 | the memo of verified positions is the parser's iterated fold of all positions so far |
| FriQueries.AcceptsPrefix | src/stark_verifier/fri/fri_verifier.cairo:245-295 | what passes with more queries passes with fewer |
| FriQueries.FriVerifier.VerifyLayers | src/stark_verifier/fri/fri_verifier.cairo:319-421 | passes exactly with the early-exit specification; then the memo grows as if all layers were folded anew, and the next row of lengths counts it |
| FriQueries.FriVerifier.VerifyQueries | src/stark_verifier/fri/fri_verifier.cairo:245-295 | accepts if and only if checking whole layers breadth first does, and leaves the iterated fold of all positions in the memo |
| FriQueries.ProofsAreOwn | src/stark_verifier/fri/fri_verifier.cairo:372-375 | with proofs in the parser's order, the index in the memo selects each position's own proof |
| FriAcceptance.LayersAccept | src/stark_verifier/fri/fri_verifier.cairo:319-421 | checking layers accepts exactly if for every position of every layer the proof is there, opens and holds the first claim at its position, where later layers' claims are the foldings of the layer before, and the last foldings are remainders |
| FriAcceptance.VerifyAllQueries | src/stark_verifier/fri/fri_verifier.cairo:245-295 | the verifier, from an empty memo, accepts all queries exactly under that condition |
| FriAcceptance.ProofsOpen | src/stark_verifier/fri/fri_verifier.cairo:371-377 | in an accepted run, the proof at every index in use opens at its position |
| FriSkipping.EvaluationSkipped | src/stark_verifier/fri/fri_verifier.cairo:346-363 | with the parser's proofs of eight values, two queries that fold to one position are accepted although the second one's evaluation is in no proof |
| FriSkipping.FullCheckIsEnough | src/stark_verifier/fri/fri_verifier.cairo:319-421 | if every query's own evaluation is in its position's proof in all layers and its last one is a remainder, the queries are accepted |
| FriSkipping.AcceptedPasses | src/stark_verifier/fri/fri_verifier.cairo:319-421 | if no two positions meet in the last layer, accepted queries pass that full check |
| FriSkipping.SkippingLosesNothing | src/stark_verifier/fri/fri_verifier.cairo:346-363 | for given positions, acceptance implies the full check for all evaluations and settings if and only if the positions are distinct modulo the last layer's modulus |
| FriFolding.CosetDistinct | src/stark_verifier/fri/fri_verifier.cairo:386-394 | the eight x values of a folding are distinct |
| FriFolding.FoldingStep | src/stark_verifier/fri/fri_verifier.cairo:384-396 | interpolating the values of a polynomial on a coset gives, at alpha, the value of the folded polynomial at the coset's eighth power |
| FriFolding.NextPoint | src/stark_verifier/fri/fri_verifier.cairo:384-400 | with the same offset in every layer, the folded value is a value of the next layer's polynomial at the next layer's point |
| FriCompleteness.LayerContains | src/stark_verifier/fri/fri_verifier.cairo:376-377 | evaluations of the layer's polynomial are among the values of the proofs of their folded positions |
| FriCompleteness.HonestQueriesPass | src/stark_verifier/fri/fri_verifier.cairo:176-243 | all queries of a prover who follows the protocol pass all layers and end among the remainders |
| FriDomain.LayersReachRemainder | src/stark_verifier/fri/fri_verifier.cairo:297-304 | the layer count is the least that reaches the allowed remainder size, and divides the domain exactly |
| FriDomain.LayersDivideExactly | src/stark_verifier/fri/fri_verifier.cairo:297-304 | all layer counts divide their power-of-two domains exactly if and only if remainders of size four are allowed |
| FriDomain.DivisibleIs | src/stark_verifier/fri/fri_verifier.cairo:297-304 | a domain divides n times exactly if 8^n divides its size |
| FriDomain.RootOfUnityOrder | src/stark_verifier/fri/fri_verifier.cairo:150-160 | the root of unity for n has -1 as its 2^(n-1)-th power |
| FriDomain.DomainIsDistinct | src/stark_verifier/fri/fri_verifier.cairo:150-160 | its first 2^n powers are different |
| FriDomain.StarkProverIsValid | src/stark_verifier/fri/fri_verifier.cairo:150-160 | over these domains every foldable polynomial makes a prover as the completeness result assumes |
| Bits.Joined | src/crypto/sha256_packed.cairo:7-11 | bitwise operations on numbers put side by side act on each part alone |
| Bits.ChoiceIsSum | src/crypto/sha256_packed.cairo:146-151 | the exclusive or of a choice is the sum of its two sides |
| Bits.ParityAndMajority | src/crypto/sha256_packed.cairo:154-159 | a sum of three words is their exclusive or plus twice their majority |
| PackedLanes.PackBitwise | src/crypto/sha256_packed.cairo:13-16 | bitwise operations on packed values act lane by lane |
| PackedLanes.FullyMasked | src/crypto/sha256_packed.cairo:71-73 | the mask leaves every lane's remainder modulo 2^32 |
| PackedLanes.InvTimesPow2 | src/crypto/sha256_packed.cairo:39-45 | the field's 1 / 2^k times 2^k is one |
| Sha256Packed.RotatedIs | src/crypto/sha256_packed.cairo:36-42 | the masked multiplication in the field rotates every lane, and stays in range of the builtin |
| Sha256Packed.ShiftedIs | src/crypto/sha256_packed.cairo:43-45 | the masked division in the field shifts every lane |
| Sha256Packed.RotateXorPacked | src/crypto/sha256_packed.cairo:112-144 | three rotations and two exclusive ors are the big sigma of section 4.1.2 of FIPS 180-4 in every lane |
| Sha256Packed.RotateShiftPacked | src/crypto/sha256_packed.cairo:35-69 | two rotations, a shift and two exclusive ors are the small sigma in every lane |
| Sha256Packed.Choose | src/crypto/sha256_packed.cairo:146-152 | with the 251-bit complement, the sum of two conjunctions is Ch in every lane |
| Sha256Packed.MajorityPacked | src/crypto/sha256_packed.cairo:154-160 | half of the sum minus the exclusive or, divided in the field, is Maj in every lane |
| Sha256Compression.SumMasked | src/crypto/sha256_packed.cairo:7-11 | up to eight words add up inside their lane, so that the mask leaves their sum modulo 2^32 |
| Sha256Compression.NineWordsCarry | src/crypto/sha256_packed.cairo:7-11 | nine words can exceed their lane |
| Sha256Compression.ComputeMessageSchedule | src/crypto/sha256_packed.cairo:17-82 | extending the array in place makes every lane its message's schedule |
| Sha256Compression.RoundPacked | src/crypto/sha256_packed.cairo:111-180 | one round on packed registers is one scalar round in every lane |
| Sha256Compression.Sha2Compress | src/crypto/sha256_packed.cairo:84-216 | 64 packed rounds and the final sums are the scalar compression in every lane, for all inputs |
| Sha256Constants.RoundConstantIs | src/crypto/sha256_packed.cairo:219-287 | round constant t is the first 32 bits behind the point of the cube root of the prime that has t primes below it |
| Sha256Constants.InitialWordIs | src/crypto/sha256.cairo:49-57 | word t of the initial state is the first 32 bits behind the point of that prime's square root |
| Sha256Compression.OutputAccepted | src/crypto/sha256.cairo:307-344 | claimed output words pack to the result if and only if each is its instance's own |
| Sha256Padding.Sha256Input | src/crypto/sha256.cairo:156-203 | the cells written are the words of the rest of the message, the marker byte and zeros, or of zeros only |
| Sha256Padding.ZeroChunk | src/crypto/sha256.cairo:96-104 | the program's flag is set exactly for a block that holds nothing but zeros and the length |
| Sha256Padding.MarkerBlock | src/crypto/sha256.cairo:119-133 | a rest of 56 to 63 bytes takes a block of its own and a block of zeros and the length |
| Sha256Padding.Sha256Inner | src/crypto/sha256.cairo:87-152 | the tape becomes the instances of the padded rest, each input state being the output state before it, and nothing else changes |
| Sha256Padding.ComputeSha256 | src/crypto/sha256.cairo:46-66 | for every message below 2^29 bytes the tape is the trace of its padded blocks, and the result points to the digest |
| Sha256Finalize.PackRow | src/crypto/sha256.cairo:230-253 | the range checks pass exactly if the seven cells are words, and the sum is their packed value |
| Sha256Finalize.FinalizeGroup | src/crypto/sha256.cairo:207-343 | accepts seven instances exactly if all cells are words and each output is the compression of its message and input state |
| Sha256Finalize.FinalizeSha256 | src/crypto/sha256.cairo:355-391 | with dummy instances that fill up the last group, accepts a tape exactly if each of its own instances holds |
| Sha256Finalize.AcceptedIsTrace | src/crypto/sha256.cairo:355-391 | whatever outputs are claimed, an accepted tape whose inputs are the blocks and the outputs before them is the trace of the blocks |
| Sha256Finalize.TraceIsAccepted | src/crypto/sha256.cairo:355-391 | the trace of any blocks is accepted |
| Sha256Finalize.AcceptedDigest | src/crypto/sha256.cairo:46-66 | such a tape ends with the digest |
| MerkleTree.ComputeMerkleRoot | src/block/merkle_tree.cairo:16-47 | the root of the leaves, or a refusal; only the cell behind the leaves is overwritten |
| MerkleTree.HashPairs | src/block/merkle_tree.cairo:51-69 | the next generation is the pair hashes in order |
| MerkleTree.DoubledInjective | src/block/merkle_tree.cairo:26-39 | of two lists that duplication makes equal, only one passes the check of the tail |
| MerkleTree.RootInjective | src/block/merkle_tree.cairo:16-69 | equal roots of lists at one height have equal lists |
| MerkleTree.EqualRootsEqualLeaves | src/block/merkle_tree.cairo:16-69 | with an injective pair hash that yields no leaf, equal accepted roots mean equal lists, length included |
| MerkleTree.UncheckedRootsCollide | src/block/merkle_tree.cairo:30-38 | without the check every odd list shares its root with a longer list, which the check refuses |
| MerkleTree.DifferentLeavesAccepted | src/block/merkle_tree.cairo:30-38 | lists of different leaves are never refused |
| TargetBits.FieldsOf | src/block/block_header.cairo:186-197 | the masks pick the exponent and the significand |
| TargetBits.EncodeDecode | src/block/block_header.cairo:450-470 | an encoding is normalised, decodes to at most the target, and loses at most a 2^-15 part of it |
| TargetBits.DecodeEncode | src/block/block_header.cairo:446-500 | encoding inverts decoding if and only if the compact value is normalised |
| TargetBits.EncodeMonotone | src/block/block_header.cairo:450-470 | encoding is monotone |
| TargetBits.EncodeInRange | src/block/block_header.cairo:178-183 | targets up to MAX_TARGET encode to at most MAX_BITS |
| TargetBits.DecodeInRange | src/block/block_header.cairo:178-212 | normalised compact values up to MAX_BITS decode to at most MAX_TARGET |
| TargetBits.TargetToBitsHint | src/block/block_header.cairo:450-470 | the shifting hint computes the encoding of the target, cut off at MAX_TARGET |
| TargetBits.TargetToBits | src/block/block_header.cairo:446-500 | for every target up to MAX_TARGET the program's check passes and returns the encoding |
| HeaderChain.WorkFits | src/block/block_header.cairo:335-343 | the work is floor((2^256 - 1) / target) if and only if the target is at least 32 |
| HeaderChain.WorkOfNextTarget | src/block/block_header.cairo:335-343 | the work is floor(2^256 / (target + 1)) if and only if it is at most one more than the remainder of the division by the target |
| HeaderChain.WorkDiffersAt32 | src/block/block_header.cairo:335-343 | for a target of 32 the work is more than floor(2^256 / 33) |
| HeaderChain.TimespanIs | src/block/block_header.cairo:404-418 | the felt's timespan is the clamped difference if and only if the epoch does not end before it starts |
| HeaderChain.NegativeTimespanQuadruples | src/block/block_header.cairo:387-442 | an accepted header that ends an epoch before its start leaves a target of four times the old one, up to cap and rounding |
| HeaderChain.EarlyHeaderAccepted | src/block/block_header.cairo:387-442 | such a header is accepted from a sound state, and its target is exactly four times the old one |
| HeaderChain.ScaledIs | src/block/block_header.cairo:419-428 | the product does not overflow 256 bits, and the scaled target is between a quarter and four times the old one |
| HeaderChain.RetargetExactly | src/block/block_header.cairo:387-442 | the last of every 2016 blocks scales the target by the seconds since the epoch's start over 1,209,600, with at least 302,400 seconds and at most a factor of four, up to cap and rounding; other blocks change nothing |
| HeaderChain.WholeEpoch | src/block/block_header.cairo:387-442 | over 2016 blocks from an epoch's start, all have its target, and the next target follows from the times of the last blocks of this epoch and of the one before |
| HeaderChain.AcceptedExactly | src/block/block_header.cairo:217-315 | from a sound state a header is accepted exactly if it extends the best block, has the current target, meets it, has one above zero, and is not before the median |
| HeaderChain.HeaderKeeps | src/block/block_header.cairo:217-238 | an accepted header keeps the state sound, extends the chain, meets its target, adds its work, and changes target and epoch start only at heights 2015 modulo 2016, within the clamped factor, cap and rounding |
| HeaderChain.ChainKeeps | src/block/block_header.cairo:322-384 | along every run the state is sound, the total work is the sum of the blocks' work as a felt, and the median never decreases |
| HeaderChain.WindowHolds | src/block/block_header.cairo:347-357 | after every run, the window holds the times of the last eleven blocks, the newest first |
| HeaderChain.TimesFollowMedian | src/block/block_header.cairo:299-315 | from the twelfth block of a run on, no block is earlier than the sixth smallest time of the eleven before it |
| HeaderChain.TotalWorkIsExact | src/block/block_header.cairo:322-384 | from the initial state, the stored work is the exact sum of the blocks' work if and only if that sum is below the field's modulus |
| HeaderChain.EpochIsConstant | src/block/block_header.cairo:387-442 | along every run inside an epoch the target and the epoch start stay, and every header carries that target |
| HeaderChain.InitialStateIsSound | src/chain_proof/state_0.json:1-8 | the initial state is sound |
| MedianTime.SortedIs | src/block/compute_median.cairo:13-19 | the sorting hint yields an ascending sequence with the same elements |
| MedianTime.MedianCounts | src/block/compute_median.cairo:26-29 | the sixth smallest is the one value with at most five timestamps below and at most five above it |
| MedianTime.VerifyTimestampsMedian | src/block/compute_median.cairo:26-53 | the counting loop accepts a value if and only if it is the sixth smallest |
| MedianTime.ComputeTimestampsMedian | src/block/compute_median.cairo:9-22 | returns the sixth smallest timestamp, and its check never fails |
| MedianTime.MedianNeverDecreases | src/block/block_header.cairo:347-357 | a timestamp not before the median does not bring the next window's median down |
| BlockRewards.SupplyLimit | src/block/block.cairo:252-257 | the rewards of any number of blocks sum to at most 2,099,999,997,690,000, and to exactly that after 33 halvings |
| BlockRewards.RewardHalves | src/block/block.cairo:252-257 | the reward is 50 coins for the first 210,000 blocks, and half of what it was 210,000 blocks before |
| Ledger.Validator.Extract | src/utxo_set/utxo_set.cairo:30-62 | accepts exactly a claimed coin whose leaf is included, and removes it from the roots |
| Ledger.Hashes.LeafDetermines | src/utxo_set/utxo_set.cairo:64-123 | under an injective pair hash, equal leaves have equal indices and amounts, and transaction ids and scripts that are equal or of different lengths |
| HashChains.HashChain | src/utxo_set/utxo_set.cairo:85-123 | after the turns of the loop, the result is the fold over the cells read; for two felts or more it is the chain of exactly these |
| HashChains.TurnsIsLeast | src/utxo_set/utxo_set.cairo:100-118 | the number of turns is the least one, not zero, after which the pointers are equal as felts |
| HashChains.ReturnsExactly | src/utxo_set/utxo_set.cairo:84-118 | the loop stays within its list if and only if that has at least two felts, and then takes one turn less than these |
| HashChains.FewFelts | src/utxo_set/utxo_set.cairo:84-118 | one felt takes as many turns as the field has elements, and none takes one turn less |
| HashChains.ChainInjective | src/utxo_set/utxo_set.cairo:85-123 | under an injective pair hash, equal chains over equally many felts have equal felts |
| HashChains.SeparatesExactly | src/utxo_set/utxo_set.cairo:76-123 | under an injective pair hash, chains over m and n felts determine their lists if and only if m is n |
| Ledger.Validator.ApplyInputs | src/transaction/transaction.cairo:267-281 | all inputs are extracted in order and their amounts summed; fails exactly if one of them does |
| Ledger.Validator.ApplyOutputs | src/transaction/transaction.cairo:293-315 | all outputs are inserted in order and their amounts summed |
| Ledger.Validator.ApplyTransaction | src/transaction/transaction.cairo:246-265 | inputs, outputs and the range-checked comparison of their totals; the fee is their difference as a felt |
| Ledger.Validator.ApplyTransactions | src/block/block.cairo:182-202 | all transactions in order, with the sum of their fees |
| Ledger.Validator.ApplyBlock | src/block/block.cairo:163-247 | all transactions and then the coinbase, which is bounded by the reward and the fees; the height advances exactly on success |
| Supply.ExtractMoves | src/utxo_set/utxo_set.cairo:30-62 | whatever the hints, an accepted extraction removes one occurrence of the claimed leaf from the forest behind the roots |
| Supply.TransactionMoves | src/transaction/transaction.cairo:246-265 | an accepted transaction removes exactly the leaves of its inputs and adds exactly those of its outputs |
| Supply.TransactionCreates | src/transaction/transaction.cairo:246-330 | after an accepted transaction, an input that names its id, the place of an output, and that output's amount and script, with the forest's proof, is accepted |
| Supply.ShortScriptRefused | src/utxo_set/utxo_set.cairo:84-123 | a transaction with an output or a claimed output whose script is fewer than two felts is not accepted |
| Supply.TransactionConserves | src/transaction/transaction.cairo:246-265 | the value of all unspent outputs falls by exactly the fee |
| Supply.BlockConserves | src/block/block.cairo:163-247 | a block changes the value of all unspent outputs by its coinbase's outputs less what the other transactions' inputs bring more than their outputs take, which is at most its reward |
| Supply.BlockAcceptedExactly | src/block/block.cairo:207-247 | a block whose other transactions apply, and whose coinbase has its one zero input and makes outputs that fit, is accepted exactly if these total at most the reward and the surplus of the others' inputs over their outputs |
| Supply.ApplyBlock | src/block/block.cairo:163-247 | the program's loops accept exactly under that condition, and then change the unspent value by exactly that difference |
| Supply.SupplyIsLimited | src/block/block.cairo:113-124 | after every run of blocks from the empty set and for arbitrary hints, the unspent value is at most the rewards so far and at most 2,099,999,997,690,000 |
| Blocks.BlockValidator.ValidateMerkleRoot | src/block/block.cairo:126-162 | accepts exactly the Merkle root of the transaction ids, which are copied first |
| Blocks.BlockValidator.ValidateAndApplyBlock | src/block/block.cairo:113-124 | accepts exactly if the header extends the chain, the Merkle root matches and the transactions apply at the next height; then the chain state and the roots are the new ones |
| Blocks.RunExactly | src/block/block.cairo:113-124 | a run of blocks is accepted if and only if its headers are as a chain, its transactions are by the ledger and all Merkle roots match; its state is that of both |
| Blocks.RunKeeps | src/block/block.cairo:113-124 | after every accepted run and for arbitrary hints, the chain state is sound with its height counting the blocks, and the unspent value is at most the rewards up to that height |
| Blocks.RootDeterminesTransactions | src/block/block.cairo:126-162 | with an injective pair hash that yields no transaction id, accepted blocks with one Merkle root have the same transaction ids |
| DynamicMemory.Writer.Alloc | parser/src/memory.rs:99-107 | a new empty segment, and a pointer to it at the end of the given one |
| DynamicMemory.Writer.Write | parser/src/memory.rs:68-95 | values and nested arrays end up in the segments as the specification says |
| DynamicMemory.Writer.Assemble | parser/src/memory.rs:45-62 | the image is the concatenation with every pointer replaced by its segment's offset |
| DynamicMemory.RoundTrip | parser/src/memory.rs:36-124 | the image of any nested value, loaded at any base address, decodes to the value by chasing pointers |
| DynamicMemory.SegmentsFormTree | parser/src/memory.rs:99-107 | every pointer points to a later segment, and every segment but the first is pointed to once |
| DynamicMemory.ConcatAt | parser/src/memory.rs:45-53 | entry i of segment s is at the segment's offset plus i |
| ByteStreams.Reader.ReadUint8 | src/utils/serialize.cairo:46-70 | takes exactly the next byte at every alignment, and fails exactly if there is none |
| ByteStreams.Reader.PeekUint8 | src/utils/serialize.cairo:300-313 | is the next byte, which is not taken |
| ByteStreams.Reader.PeekUint16 | src/utils/serialize.cairo:315-319 | is the little-endian value of the next two bytes, which are not taken |
| ByteStreams.Reader.ReadUint16Endian | src/utils/serialize.cairo:167-189 | takes exactly the next two bytes at every alignment |
| ByteStreams.Reader.ReadUint32Endian | src/utils/serialize.cairo:191-204 | takes exactly the next four bytes at every alignment, which stays |
| ByteStreams.Reader.ReadUint64 | src/utils/serialize.cairo:89-94 | is the little-endian value of the next eight bytes |
| ByteStreams.SwapIs32 | src/utils/serialize.cairo:81-86 | swapping the bytes of a word gives the little-endian value of its bytes |
| ByteCopies.Writer.WriteUint8 | src/utils/serialize.cairo:351-368 | appends exactly the byte |
| ByteCopies.Writer.WriteUint16Endian | src/utils/serialize.cairo:449-462 | appends the two bytes, except behind three pending bytes, where the writer stays valid if and only if the last byte is zero, and otherwise holds no sequence of bytes |
| ByteCopies.MisplacedByte | src/utils/serialize.cairo:449-462 | a byte at the lowest place of a buffer that has room for three more stands for no sequence of bytes |
| ByteCopies.Writer.WriteUint32Endian | src/utils/serialize.cairo:464-473 | appends exactly the four bytes of the word at every alignment |
| ByteCopies.Writer.Flush | src/utils/serialize.cairo:334-340 | the words hold all bytes written, filled up with zeros on the right |
| ByteCopies.ReadWriteWordsEndian | src/utils/serialize.cairo:522-544 | moves exactly four bytes per word between reader and writer of any alignment |
| ByteCopies.ReadWriteBytes | src/utils/serialize.cairo:546-575 | moves exactly the given number of bytes |
| ByteCopies.ReadBytesEndian | src/utils/serialize.cairo:275-293 | the next bytes, packed into words with zeros on the right; fails exactly if there are too few |
| ByteCopies.ReadBytes32EndianFillZero | src/utils/serialize.cairo:252-273 | the next bytes in eight words with zeros on the left |
| HashBytes.ReadWriteWords | src/utils/serialize.cairo:497-520 | moves exactly four bytes per word, each word's bytes reversed, between reader and writer of any alignment |
| HashBytes.ReadBytes | src/utils/serialize.cairo:229-250 | the next bytes as little-endian words, for every size below 2^32 |
| HashBytes.HashFeltIs | src/block/block_header.cairo:256-278 | summed up with powers of 2^32, the words of a hash are the little-endian value of its bytes |
| HashBytes.SevenWordsSuffice | src/block/block_header.cairo:260-278 | the sum of the first seven words is the whole hash if and only if the eighth word is zero |
| ByteCopies.PackedInjective | src/utils/serialize.cairo:275-293 | the words and the size determine the bytes |
| Varints.VarintRoundTrip | src/utils/serialize.cairo:120-165 | reading the shortest form of a number gives the number and what follows |
| Varints.VarintIsCanonical | src/utils/serialize.cairo:120-165 | only the shortest form of a number is accepted |
| Varints.WrittenVarintReadsBack | src/utils/serialize.cairo:400-447 | what the program leaves reads back in every context if and only if it is not 253, 254 or 255, and not a two-byte number behind two pending bytes |
| Varints.WriteVarint | src/utils/serialize.cairo:400-447 | fails for more than eight bytes; otherwise, at every alignment, the writer then holds the shortest form if and only if the number is not 253, 254 or 255, and not a two-byte number behind two pending bytes |
| Varints.MarkerNotReadBack | src/utils/serialize.cairo:400-411 | 253, 254 and 255 as one byte are never read as that number, whatever follows |
| Varints.VarintBehindTwoBytes | src/utils/serialize.cairo:412-421 | 256, written behind two bytes, leaves a writer that holds no sequence of bytes at all |
| Varints.WriteUint64 | src/utils/serialize.cairo:387-397 | appends exactly the eight bytes, lowest first, at every alignment |
| Varints.ReadVarint | src/utils/serialize.cairo:120-165 | the value, and the number of bytes taken |
| TransactionFormat.TransactionRoundTrip | src/transaction/transaction.cairo:66-107 | parsing the encoding of a transaction with inputs gives the transaction and the bytes that follow |
| TransactionFormat.MarkedRoundTrip | src/transaction/transaction.cairo:66-107 | parsing the marked form gives the transaction, with or without inputs, and the bytes that follow |
| TransactionFormat.TransactionIsCanonical | src/transaction/transaction.cairo:66-107 | whatever is accepted is the encoding of the transaction returned, with the marker put in if it is there |
| TransactionReader.ReadInput | src/transaction/transaction.cairo:136-160 | the input at the front of the stream and its size; fails exactly if there is none |
| TransactionReader.ReadOutput | src/transaction/transaction.cairo:190-207 | the output at the front of the stream and its size |
| TransactionReader.ReadInputs | src/transaction/transaction.cairo:110-133 | that many inputs and their size |
| TransactionReader.ReadOutputs | src/transaction/transaction.cairo:163-187 | that many outputs and their size |
| TransactionReader.ReadTransaction | src/transaction/transaction.cairo:66-107 | the parsed transaction; its size is the number of bytes taken, less two for the marker |
| TransactionReader.ReadEncoded | src/transaction/transaction.cairo:66-107 | on the encoding of a transaction with inputs: its record, its exact size, and a reader right behind it |
| TransactionReader.ReadMarked | src/transaction/transaction.cairo:66-107 | on the marked form: its record, a size two bytes short of its length, and a reader right behind it |
| TransactionReader.RecordInjective | src/transaction/transaction.cairo:56-63 | the record determines the transaction |

## Left out

- Servers, clients and files: HTTP, the node's interface, JSON and hexadecimal text. Hints that fetch data are parameters.
- Memory that can be written only once: arrays and fields are reassigned instead.
- SHA-1, RIPEMD-160, ECDSA and Schnorr signatures, scripts, witnesses and the writing of transactions.
- The probabilistic side of the STARK: random challenges, grinding, and the chance that running products agree although the columns are no permutation of each other.
- The composition polynomial, the deep queries and the evaluation of boundary constraints.
- The degree check of the FRI remainder; its interpolation comes from a hint that the program checks at one random point.
- VerifyLayers: the hint that looks up a position in the memo is taken to find it when it is there, as its code does; the program checks a claimed index, but not a claimed absence.
- The inside of the Merkle checks of the FRI layers, which are a parameter of the query model.
- The Merkle Mountain Range of the header chain, which runs the same loop as an addition to the accumulator.
- The choice of blocks and the recursion of chain proofs.
- The remaining writers of the parser, which list fields in a fixed order.
- SupplyIsLimited: amounts and output counts are taken below 2^64, as the transaction reader returns them, and the pair hash is assumed to be injective and never zero.
- TraceIsRun: that the accesses and offsets of the rows are among the sorted ones is assumed. `AccessIsSorted` derives it for accesses from a permutation with the public memory, which the last running product can only show at random challenges; the program has no constraint on the last product of the offsets.
- TraceIsExecution: as for TraceIsRun.
- StarkTraceIsRun: as for TraceIsRun.
- TraceOffsetsInRange: that the sorted offsets start and end in 16 bits is assumed; boundary constraints are not modelled.
- MemoryProductCloses: the columns end with the first entry of the last row, the last one that a constraint on two rows reaches; the boundary constraint is on the last entry of that row. That the product starts with the first factors is assumed.
- HonestQueriesPass: that the Merkle proofs of the prover open is assumed.
- WriteFriProofs: that a batch proof opens in the order of the positions it is given is assumed of the library that does it.
- LayersReachRemainder: domains are powers of two, as the verifier requires of them.
- RoundTrip: the reader of the memory knows the shape of the value, as the Cairo program does.
- EqualRootsEqualLeaves: that the pair hash is injective and yields no transaction id is assumed.
- RootDeterminesTransactions: the same is assumed, and that ids are eight words.
- Lockstep.AcceptedExactly: that the pair hash is injective and never zero is assumed; `HashTrees.SoundHashExists` gives a function that is both.
- HeaderKeeps: a division of 256-bit numbers by zero is taken to fail. The division is not part of this model; with one that returns zero, a block with the target zero would have the work one.
- HashChain: the memory is taken to have a value at every felt.
- ChainKeeps: block hashes are given; that they are the hashes of their headers is not modelled.
