# Verification of the nockchain core

A Dafny model of the parts of nockchain where an error would be silent: the
field and polynomial arithmetic behind the proof system, the peer-to-peer
queue and tracking state, the noun shape and map structures, the wallet
indexer of the explorer, and the digest codec. There are no assumptions
anywhere; `dfyconfig.toml` names the whole project.

## The field and polynomial stack

`Rings`, `PowerSeries`, `Polynomials`, `SeriesIdentities` and `Factors` hold the
mathematics: commutative rings and fields given as records of operations,
formal power series over them (which form a ring again), coefficient lists as
series, evaluation, divisibility, degrees. The algorithms are stated and proved
once over any such ring or field, as in-place loops on arrays (`Ntt`,
`NttLaws`, `PolyLoops`, `PolyDivision`, `PolyGcd`, `ReverseDivision`), and used
at two instances, the base field (`Goldilocks`, `Words`, `BPoly`) and its cubic
extension (`Felts`, `FeltField`, `FPoly`).

Nothing about the fields is taken on trust. `Primality` proves that
2^64 - 2^32 + 1 is prime, from the code's own table of roots of unity: a divisor
would need 2^32 different residues. `Inverses` proves Fermat's little theorem
for it by counting, so the inversion routine inverts. `Irreducible` proves that
multiplication in the extension is the remainder of the polynomial product by
x^3 - x + 1, and that this cubic has no root, from a chain of 64 squarings of x.
`FeltField` concludes that the Euclidean algorithm inverts every non-zero
extension element.

`Words` is the arithmetic on wrapping machine words; its contracts say that it
computes the operations of `Goldilocks`, which is what the loops use.

## The peer-to-peer state

`KeyFairQueue` models sends and receives as atomic steps of a map and a channel,
in any interleaving, with a history of every sent value. `BlockTracker` and
`Connections` define the tracking maps and their invariants on values;
`P2PState` holds the object with its loops and the theorem over all sequences of
operations.

## Nouns, wallets and digests

`Shape` and `HoonMap` work on nouns as atoms and pairs. `WalletTally` defines
what transactions add to wallets, exactly and with saturation; `WalletIndex` is
the protocol between application and worker; `WalletApp` holds the loops of both
sides. `Tip5Digest` is the base-P codec.

## Where the code and its comments differ

- The comment in `reduce_159` doubts that the second correction is excluded once
  the first was taken. It is excluded (`Words.Folded`). The routine is exact
  precisely when the high word exceeds the low one by at most P, so on every
  159-bit number (`Words.Reduce159Exact`), but not on every argument of its type
  (`Words.Reduce159Inexact`).
- `fpdiv` gives the Euclidean quotient exactly when the dividend has the smaller
  degree, is zero, or the divisor's last coefficient is not zero (`FPoly.FpDiv`).
  A divisor written with a trailing zero coefficient fails
  (`FPoly.PaddedDivisorExample`).
- The comment in `ordered_root` describes the table as powers of another
  generator. Its entries are powers of seven (`BPoly.OrderedRootOrder`).
- `track_connection` opens an IP's entry without entering the first connection.
  A later loss can therefore drop the entry while that connection is live
  (`Connections.LiveWithoutEntry`), although a log line in `requested` expects
  otherwise. It does so exactly when the lost connection is the last one entered
  for an IP that others are still connected from
  (`Connections.DisconnectKeepsCover`).

## Model

| member | source | states |
|---|---|---|
| Words.BAdd | crates/nockchain-math/src/belt.rs:338-346 | the wrapping subtractions with a borrow mask give the sum modulo P |
| Words.BSub | crates/nockchain-math/src/belt.rs:359-366 | the wrapping subtraction with a borrow mask gives the difference modulo P |
| Words.BNeg | crates/nockchain-math/src/belt.rs:349-356 | the result is the additive inverse modulo P, 0 for 0 |
| Words.Folded | crates/nockchain-math/src/belt.rs:383-411 | after the carry correction the word is below P, so the second correction is never taken then |
| Words.Reduce159Exact | crates/nockchain-math/src/belt.rs:383-411 | the result is below P, and is the remainder of low + 2^64 mid + 2^96 high if and only if high - low <= P |
| Words.Reduce159Inexact | crates/nockchain-math/src/belt.rs:383-411 | an argument of the type on which the result is not the remainder |
| Words.Reduce | crates/nockchain-math/src/belt.rs:370-372 | n mod P for every 128-bit n |
| Words.BMul | crates/nockchain-math/src/belt.rs:414-418 | the product modulo P |
| Words.MontReduction | crates/nockchain-math/src/belt.rs:305-320 | for every a < 2^64 P, without over- or underflow, a value below P that 2^64 takes to a modulo P |
| Words.MontReductionUnique | crates/nockchain-math/src/belt.rs:305-320 | it is the only such value |
| Words.MontOfProduct | crates/nockchain-math/src/belt.rs:323-328 | the Montgomery product of two images is the image of the product |
| Words.MontifyIsMont | crates/nockchain-math/src/belt.rs:331-335 | montify gives the Montgomery image and reduction undoes it |
| Words.MontTwoPow | crates/nockchain-math/src/belt.rs:437-447 | what the result stands for in Montgomery form is the 2^b-th power of what a stands for |
| Words.SquaredPower | crates/nockchain-math/src/belt.rs:437-447 | squaring b times multiplies the exponent by 2^b, for any multiplication under which exponents add |
| Words.ChainPower | crates/nockchain-math/src/belt.rs:421-434 | the hand-built addition chain reaches exponent P - 2, for any such multiplication |
| Words.BInvIsPower | crates/nockchain-math/src/belt.rs:421-434 | binv(a) is a^(P-2) for every a |
| Primality.RootHalves | crates/nockchain-math/src/belt.rs:108-118 | entry i of the table, raised to 2^(i-1), is minus one |
| Primality.RootIsSeven | crates/nockchain-math/src/belt.rs:108-118 | entry i is the last entry's power of seven, its exponent doubled 32 - i times |
| Primality.LastRoot | crates/nockchain-math/src/belt.rs:108-118 | the last entry is 7^(2^32-1) |
| Primality.PrimeIsPrime | crates/nockchain-math/src/belt.rs:18 | P is prime, with the table's last entry as certificate |
| Inverses.Fermat | crates/nockchain-math/src/belt.rs:19 | a^(P-1) is 1 for every non-zero a |
| Inverses.BInvInverts | crates/nockchain-math/src/belt.rs:421-434 | a times binv(a) is 1 for every non-zero a, with no hypothesis |
| FeltField.BeltIsField | crates/nockchain-math/src/belt.rs:158-160 | the base field with binv is a field |
| BPoly.OrderedRootOrder | crates/nockchain-math/src/belt.rs:108-155 | a root comes back exactly for powers of two up to 2^32; it is 7^((P-1)/n), its order is exactly n, and its n/2-th power is minus one |
| BPoly.BPow | crates/nockchain-math/src/belt.rs:451-471 | square and multiply computes a^b |
| BPoly.InverseTwoWays | crates/nockchain-math/src/belt.rs:421-471 | binv(a) and bpow(a, P-2) agree for every a, and invert every non-zero a |
| Ntt.Power | crates/nockchain-math/src/felt.rs:381-402 | the same loop over any commutative ring |
| Polynomials.Degree | crates/nockchain-math/src/poly.rs:78-83 | the position of the last non-zero coefficient, 0 when there is none |
| Bits.BitReverse | crates/nockchain-math/src/bpoly.rs:199-206 | the loop reverses the low l bits, modulo 2^32 when l exceeds the word |
| Bits.ReversedTwice | crates/nockchain-math/src/bpoly.rs:199-206 | reversing twice is the identity on l-bit numbers |
| Ntt.Permute | crates/nockchain-math/src/bpoly.rs:231-237 | the swap loop moves the entry at the reversed index to every index |
| Ntt.ButterflyValues | crates/nockchain-math/src/bpoly.rs:239-256 | one butterfly turns the values of the even and odd halves into two values of the whole |
| Ntt.Butterfly | crates/nockchain-math/src/bpoly.rs:246-252 | the inner loop crosses every pair of one block and leaves the rest |
| Ntt.Pass | crates/nockchain-math/src/bpoly.rs:244-254 | one pass crosses every block |
| Ntt.Passes | crates/nockchain-math/src/bpoly.rs:239-257 | after all passes the array holds the values of the input at the powers of the root |
| Ntt.Transform | crates/nockchain-math/src/bpoly.rs:215-258 | over any commutative ring, with root^(n/2) = -1, entry k of the result is the sum of x_j root^(jk) |
| NttLaws.InverseTransform | crates/nockchain-math/src/bpoly.rs:215-258 | the transform with the inverse root of the transform is n times the input |
| NttLaws.Convolution | crates/nockchain-math/src/bpoly.rs:97-155 | the transform of a zero-padded product is the pointwise product of the padded transforms |
| BPoly.BpNtt | crates/nockchain-math/src/bpoly.rs:215-258 | the transform over the base field |
| BPoly.BpFft | crates/nockchain-math/src/bpoly.rs:209-212 | it succeeds exactly on lengths that are powers of two, and then is the transform with root 7^((P-1)/n), with no hypothesis left |
| BPoly.BpNttBack | crates/nockchain-math/src/bpoly.rs:215-258 | bp_ntt with a root and then with its inverse gives n times the input |
| BPoly.BpConvolution | crates/nockchain-math/src/bpoly.rs:97-155 | bp_ntt of a padded bpmul product equals bp_hadamard of the padded transforms |
| PolyLoops.Shift | crates/nockchain-math/src/bpoly.rs:261-268 | coefficient i is multiplied by the i-th power, and the rest of the buffer is untouched |
| PolyLoops.Coseword | crates/nockchain-math/src/bpoly.rs:271-278 | entry k is the polynomial's value at offset times root^k, over any commutative ring |
| BPoly.BpCoseword | crates/nockchain-math/src/bpoly.rs:271-278 | the same over the base field |
| PolyLoops.Hadamard | crates/nockchain-math/src/bpoly.rs:141-155 | the pointwise product |
| PolyLoops.Multiply | crates/nockchain-math/src/bpoly.rs:97-116 | the loops fill the buffer with the product of the polynomials |
| PolyLoops.Subtract | crates/nockchain-math/src/bpoly.rs:55-71 | coefficientwise difference, the shorter operand continued with zeros |
| BPoly.BpMul | crates/nockchain-math/src/bpoly.rs:119-124 | the product in a buffer of the exact length, empty operands included |
| PolyDivision.Reduce | crates/nockchain-math/src/bpoly.rs:309-327 | the division loop keeps a = q b + r, lowers the degree, and its index never underflows |
| PolyDivision.Divide | crates/nockchain-math/src/bpoly.rs:289-330 | a = q b + r with r zero from the degree of b on, over any field, also for zero a and constant b |
| BPoly.BpDvr | crates/nockchain-math/src/bpoly.rs:289-330 | the same over the base field |
| PolyGcd.CombineStep | crates/nockchain-math/src/bpoly.rs:352-395 | the next remainder is the combination of a and b by the next cofactors |
| PolyGcd.Cofactor | crates/nockchain-math/src/bpoly.rs:365-395 | the buffer of the u step fits the v step, and the next cofactor is m2 - q m1 |
| PolyGcd.Round | crates/nockchain-math/src/bpoly.rs:352-395 | one round keeps both combinations, the equal lengths of the cofactors, and lowers the degree |
| PolyGcd.ExtendedGcd | crates/nockchain-math/src/bpoly.rs:334-409 | it terminates with d = u a + v b, d dividing both and the last non-zero member of the remainder sequence of a and b; deg u + deg d < deg b, deg v + deg d < deg a unless v is constant; cofactors of equal and bounded length, and their values for zero b |
| BPoly.BpEgcd | crates/nockchain-math/src/bpoly.rs:334-409 | the same identity, remainder sequence and degree bounds over the base field, into zero-filled buffers |
| Irreducible.FMulIsRemainder | crates/nockchain-math/src/felt.rs:304-325 | the schoolbook product of the limbs as polynomials is a multiple of x^3 - x + 1 plus the limbs Karatsuba multiplication returns |
| Felts.FeltIsRing | crates/nockchain-math/src/felt.rs:251-325 | addition, subtraction and multiplication of extension elements form a commutative ring |
| Irreducible.NoRoot | crates/nockchain-math/src/felt.rs:300 | x^3 - x + 1 has no root in the base field |
| FeltField.ConstantGcd | crates/nockchain-math/src/felt.rs:348-365 | every common divisor of x^3 - x + 1 and a non-zero element is a non-zero constant |
| FeltField.FInv | crates/nockchain-math/src/felt.rs:348-365 | a times its inverse is one for every non-zero a, and zero goes to zero; the cofactor fits three limbs |
| FeltField.FDiv | crates/nockchain-math/src/felt.rs:405-410 | the quotient times a non-zero divisor is the dividend |
| FPoly.FPow | crates/nockchain-math/src/felt.rs:381-402 | square and multiply computes the power of an extension element |
| FPoly.FeltOrderedRoot | crates/nockchain-math/src/felt.rs:60-62 | the lifted table root satisfies the transform's hypothesis over the extension |
| PolyLoops.MultiplyInto | crates/nockchain-math/src/fpoly.rs:93-113 | the loops add the product to whatever the buffer held, in bounds whenever the non-zero rows fit |
| FPoly.FpNtt | crates/nockchain-math/src/fpoly.rs:221-268 | the transform over the extension |
| FPoly.FpCoseword | crates/nockchain-math/src/fpoly.rs:271-278 | values on a coset over the extension |
| FPoly.FpScal | crates/nockchain-math/src/fpoly.rs:181-191 | every coefficient is multiplied by the scalar |
| ReverseDivision.SubtractFrom | crates/nockchain-math/src/fpoly.rs:67-79 | the list is subtracted from the entries it reaches, the others are unchanged |
| ReverseDivision.DivideReversed | crates/nockchain-math/src/fpoly.rs:145-163 | for a monic divisor of full length the loop on reversed lists yields Euclidean quotient and remainder |
| ReverseDivision.Denormalise | crates/nockchain-math/src/fpoly.rs:123-166 | scaling by the leading coefficients turns the monic division into the one asked for |
| FPoly.FpDiv | crates/nockchain-math/src/fpoly.rs:123-166 | the result is the Euclidean quotient if and only if deg a < deg b, or a is zero, or the last coefficient of b is not zero |
| FPoly.PaddedDivisorExample | crates/nockchain-math/src/fpoly.rs:123-166 | a divisor with a trailing zero coefficient on which it is not |
| PolyLoops.HornerIsSum | crates/nockchain-math/src/fpoly.rs:282-303 | the fold from the highest coefficient is the sum of coefficients times powers |
| KeyFairQueue.StepKeepsValid | crates/nockchain-libp2p-io/src/key_fair_queue.rs:50-71 | every atomic step keeps the map's keys the disjoint union of the keys under way, each once, and none panics |
| KeyFairQueue.AlwaysValid | crates/nockchain-libp2p-io/src/key_fair_queue.rs:50-71 | so does every run of any interleaving |
| KeyFairQueue.NeverPanics | crates/nockchain-libp2p-io/src/key_fair_queue.rs:62-70 | the expect in recv never fails |
| KeyFairQueue.AlwaysConserved | crates/nockchain-libp2p-io/src/key_fair_queue.rs:50-71 | every sent value is exactly one of delivered once, still held, or replaced by a later send of its key |
| KeyFairQueue.ReceivesLatest | crates/nockchain-libp2p-io/src/key_fair_queue.rs:50-71 | what is received for a key is the value of the last send of it |
| KeyFairQueue.AlwaysInOrder | crates/nockchain-libp2p-io/src/key_fair_queue.rs:50-71 | keys delivered and queued are the keys pushed, in order |
| KeyFairQueue.Fairness | crates/nockchain-libp2p-io/src/key_fair_queue.rs:50-71 | a key in place p is delivered after exactly the p different keys before it, however many sends happen, and until then stays queued |
| KeyFairQueue.SentQueues | crates/nockchain-libp2p-io/src/key_fair_queue.rs:51-58 | a whole send sets the value and queues the key last exactly when it was not under way |
| KeyFairQueue.SentKeepsValid | crates/nockchain-libp2p-io/src/key_fair_queue.rs:51-58 | a whole send keeps the map and the keys under way in step |
| KeyFairQueue.Channel.constructor | crates/nockchain-libp2p-io/src/key_fair_queue.rs:7-19 | a new channel is the initial state of the machine |
| KeyFairQueue.Channel.InsertStep | crates/nockchain-libp2p-io/src/key_fair_queue.rs:53 | the insertion step of the shared object, and whether the key was new |
| KeyFairQueue.Channel.PushStep | crates/nockchain-libp2p-io/src/key_fair_queue.rs:54 | the push step, with the error once the receiver is gone |
| KeyFairQueue.Channel.PopStep | crates/nockchain-libp2p-io/src/key_fair_queue.rs:63 | the pop step |
| KeyFairQueue.Channel.RemoveStep | crates/nockchain-libp2p-io/src/key_fair_queue.rs:64-69 | the removal step and what it returns |
| KeyFairQueue.Channel.Send | crates/nockchain-libp2p-io/src/key_fair_queue.rs:51-58 | both steps of a send, and its result |
| KeyFairQueue.Channel.Recv | crates/nockchain-libp2p-io/src/key_fair_queue.rs:62-70 | a receive from a valid queue returns the first key with its value and removes both |
| BlockTracker.RelationDetermines | crates/nockchain-libp2p-io/src/p2p_state.rs:37-38 | two valid trackers of the same relation are equal |
| BlockTracker.TrackBlockAdds | crates/nockchain-libp2p-io/src/p2p_state.rs:226-236 | tracking adds exactly one pair and keeps the maps converse without empty sets |
| BlockTracker.RemoveBlockErases | crates/nockchain-libp2p-io/src/p2p_state.rs:238-253 | removing a block erases exactly its pairs and keeps the invariant |
| BlockTracker.RemovePeerErases | crates/nockchain-libp2p-io/src/p2p_state.rs:257-273 | removing a peer erases exactly its pairs and keeps the invariant |
| BlockTracker.BadBlockErases | crates/nockchain-libp2p-io/src/p2p_state.rs:352-372 | a bad block erases itself and its peers entirely and leaves every other pair |
| Connections.ConnectKeepsValid | crates/nockchain-libp2p-io/src/p2p_state.rs:81-115 | tracking a connection keeps the maps consistent if and only if its id is fresh, or belongs to the same peer and leaves no stale IP entry |
| Connections.ConnectAdds | crates/nockchain-libp2p-io/src/p2p_state.rs:81-99 | a fresh connection belongs to its peer at its address, is inbound exactly if it came to a listener, and every other connection is as before |
| Connections.ConnectEnters | crates/nockchain-libp2p-io/src/p2p_state.rs:100-113 | it enters its IP's set exactly if that IP has an entry, otherwise the IP gets an empty one, and no other membership changes |
| Connections.DisconnectKeepsValid | crates/nockchain-libp2p-io/src/p2p_state.rs:117-142 | losing a connection removes exactly it and keeps the maps consistent |
| Connections.DisconnectRemoves | crates/nockchain-libp2p-io/src/p2p_state.rs:117-125 | exactly the lost connection leaves the connections and the inbound ones, and every other address is as before |
| Connections.DisconnectLeaves | crates/nockchain-libp2p-io/src/p2p_state.rs:126-136 | it leaves its IP's set, the entry goes exactly when that empties it, and no other membership changes |
| Connections.AllLost | crates/nockchain-libp2p-io/src/p2p_state.rs:117-142 | losing every connection, in any order, empties every map |
| Connections.HasAddress | crates/nockchain-libp2p-io/src/p2p_state.rs:217-224 | connection_address answers exactly for the live connections |
| Connections.LiveWithoutEntry | crates/nockchain-libp2p-io/src/p2p_state.rs:100-113 | a run after which a live connection's IP has no entry |
| Connections.ConnectKeepsCover | crates/nockchain-libp2p-io/src/p2p_state.rs:81-115 | a new connection never takes another live connection's IP out of the table |
| Connections.DisconnectKeepsCover | crates/nockchain-libp2p-io/src/p2p_state.rs:117-142 | after a loss every live connection's IP still has an entry if and only if the lost one was not the last entered for an IP with others live |
| P2PState.AlwaysConsistent | crates/nockchain-libp2p-io/src/p2p_state.rs:81-372 | every sequence of operations with fresh connection ids keeps all six maps consistent |
| P2PState.ReachableConsistent | crates/nockchain-libp2p-io/src/p2p_state.rs:60-372 | so every state reached from the empty one is consistent |
| P2PState.RunShows | crates/nockchain-libp2p-io/src/p2p_state.rs:81-142 | after every run the maps show exactly the connections tracked and not lost, with their peers and addresses, and as inbound exactly those tracked as listeners |
| P2PState.ReachableShows | crates/nockchain-libp2p-io/src/p2p_state.rs:60-142 | the same for every run from the empty state |
| P2PState.LostPeerIsForgotten | crates/nockchain-libp2p-io/src/p2p_state.rs:117-125 | exactly when the last connection of a peer goes, everything it sent is forgotten |
| P2PState.Peers.TrackConnection | crates/nockchain-libp2p-io/src/p2p_state.rs:81-115 | the branches update the maps as specified, the first connection of an IP not being entered |
| P2PState.Peers.LostConnection | crates/nockchain-libp2p-io/src/p2p_state.rs:117-142 | the branches update the maps as specified; the number of remaining peers is returned |
| P2PState.Peers.TrackBlockIdAndPeer | crates/nockchain-libp2p-io/src/p2p_state.rs:226-236 | both maps get the pair |
| P2PState.Peers.RemoveBlock | crates/nockchain-libp2p-io/src/p2p_state.rs:238-253 | visiting only the listed peers erases the block from every peer |
| P2PState.Peers.RemovePeerFromBlocks | crates/nockchain-libp2p-io/src/p2p_state.rs:257-273 | visiting only the listed blocks erases the peer from every block |
| P2PState.Peers.ProcessBadBlock | crates/nockchain-libp2p-io/src/p2p_state.rs:352-372 | it returns exactly the block's peers, each once, and forgets them and the block; a malformed id changes nothing |
| P2PState.EraseEach | crates/nockchain-libp2p-io/src/p2p_state.rs:243-252 | the loop takes a member out of the listed sets and drops the empty ones |
| Shape.DyckIsShape | crates/nockchain-math/src/shape.rs:6-34 | accumulating in front and reversing gives the word 0 D(head) 1 D(tail) |
| Shape.DyckBalanced | crates/nockchain-math/src/shape.rs:6-34 | the word is balanced and twice as long as there are cells |
| Shape.BalancedIsDyck | crates/nockchain-math/src/shape.rs:6-62 | every balanced word with leaves of the right number is the shape and leaf sequence of a noun |
| Shape.RebuildInverts | crates/nockchain-math/src/shape.rs:6-62 | the noun can be rebuilt from its word and leaves |
| Shape.RebuildSound | crates/nockchain-math/src/shape.rs:6-62 | what is rebuilt has the word and leaves it was rebuilt from |
| Shape.ShapeAndLeavesDetermine | crates/nockchain-math/src/shape.rs:6-62 | nouns with equal word and leaf sequence are equal |
| Shape.LeafBuffer.DoLeafSequence | crates/nockchain-math/src/shape.rs:47-62 | it appends the leaves from left to right and stops with an error exactly at the first of 2^64 or more, having pushed those before it |
| Shape.LeafSequence | crates/nockchain-math/src/shape.rs:36-45 | all the leaves, or an error exactly when one does not fit |
| HoonMap.EveryNounIsTree | crates/nockchain-math/src/structs.rs:134-152 | every noun is the layout of a tree |
| HoonMap.EntriesArePreorder | crates/nockchain-math/src/structs.rs:134-200 | what is listed from the layout of a tree is the tree in preorder |
| HoonMap.GetInTree | crates/nockchain-math/src/structs.rs:95-116 | in the layout of a tree sorted by gor, get finds the value stored under the key, or nothing exactly when there is none, and no key is stored twice |
| HoonMap.OrderedKeys | crates/nockchain-math/src/structs.rs:95-116 | a noun read as an ordered tree holds every key once |
| HoonMap.GetFinds | crates/nockchain-math/src/structs.rs:95-116 | on an ordered tree, get returns the value of the entry with the key among those traversed, or nothing exactly when there is none |
| HoonMap.HoonMapIter.constructor | crates/nockchain-math/src/structs.rs:186-199 | a new iterator has the preorder of the noun's tree before it |
| HoonMap.HoonMapIter.Next | crates/nockchain-math/src/structs.rs:161-180 | it yields the next node in preorder, and nothing exactly when none is left |
| HoonMap.Collect | crates/nockchain-math/src/structs.rs:161-199 | draining terminates and lists the preorder of the tree whose layout the noun is |
| WalletTally.AccumulateWalletDelta | crates/nockchain-explorer-tui/src/main.rs:3089-3117 | the loops add a transaction's exact amounts with saturation, and one count to each wallet it touches |
| WalletTally.ApplyTallies | crates/nockchain-explorer-tui/src/main.rs:947-959 | applying a chunk's deltas in any order makes the totals the saturated exact sums of both lists of transactions |
| WalletTally.TalliedUnique | crates/nockchain-explorer-tui/src/main.rs:947-959 | totals of the same transactions, in any order, are equal |
| WalletIndex.StepKeepsPlaced | crates/nockchain-explorer-tui/src/main.rs:766-825 | every step keeps each in-flight transaction in one place, once, and none of them indexed |
| WalletIndex.TakeKeepsLine | crates/nockchain-explorer-tui/src/main.rs:2998-3003 | the worker takes commands in the order they were sent |
| WalletIndex.HandleTakes | crates/nockchain-explorer-tui/src/main.rs:886-897 | the application handles results in the order they were sent |
| WalletIndex.StepKeepsAccounted | crates/nockchain-explorer-tui/src/main.rs:899-959 | every step keeps the wallets the saturated exact sums over the indexed transactions |
| WalletIndex.ExactlyOnce | crates/nockchain-explorer-tui/src/main.rs:766-3126 | both hold in every reachable state, under errors, retries and a stopping worker |
| WalletIndex.ChunkingIsInvisible | crates/nockchain-explorer-tui/src/main.rs:766-3126 | runs that indexed the same transactions show the same wallets |
| WalletApp.QueueSends | crates/nockchain-explorer-tui/src/main.rs:766-798 | queueing sends exactly the unknown transactions, once each, in order, in chunks of 64 and a rest |
| WalletApp.UnknownMeans | crates/nockchain-explorer-tui/src/main.rs:771-777 | those are the listed ones neither indexed nor in flight, without repetition |
| WalletApp.QueueIsRun | crates/nockchain-explorer-tui/src/main.rs:766-798 | the queueing loop is a run of protocol steps |
| WalletApp.App.DispatchWalletChunk | crates/nockchain-explorer-tui/src/main.rs:800-825 | a chunk is sent, or its in-flight marks are reverted when the worker is gone |
| WalletApp.App.QueueWalletIndexWork | crates/nockchain-explorer-tui/src/main.rs:766-798 | the loop does what the specification of queueing says, and nothing when the worker is gone |
| WalletApp.App.ApplyWalletDeltas | crates/nockchain-explorer-tui/src/main.rs:947-959 | the loop adds each delta with saturation |
| WalletApp.App.HandleWalletWorkerResult | crates/nockchain-explorer-tui/src/main.rs:899-945 | with a listening worker: after an error every listed transaction is indexed or in flight and the missing ones, the failed one included, were each sent once; after a chunk the same while any is in flight, and nothing is sent otherwise |
| WalletApp.HandledRequeues | crates/nockchain-explorer-tui/src/main.rs:899-945 | the same of the specification of handling |
| WalletApp.FailureIsRetried | crates/nockchain-explorer-tui/src/main.rs:933-941 | a failed transaction that is listed and not indexed is in flight again, in exactly one chunk just sent |
| WalletApp.QueueSendsMissing | crates/nockchain-explorer-tui/src/main.rs:766-798 | queueing sends each listed transaction that is neither indexed nor in flight once, and leaves none behind |
| WalletApp.ChunkedMeans | crates/nockchain-explorer-tui/src/main.rs:782-789 | the chunks hold the list in order, 64 to a chunk until the last |
| WalletApp.HandledIsRun | crates/nockchain-explorer-tui/src/main.rs:899-945 | handling a result is a run of protocol steps |
| WalletApp.IndexTransactions | crates/nockchain-explorer-tui/src/main.rs:2993-3087 | one error per failed fetch in order, and one result with the fetched transactions and their totals unless there are none; the loop is a run of protocol steps |
| WalletApp.EveryAnswerReported | crates/nockchain-explorer-tui/src/main.rs:3038-3068 | every task is reported once, as fetched with its answer or as failed when there was none |
| Tip5Digest.BasePToDecimal | crates/nockchain-libp2p-io/src/tip5_util.rs:61-70 | the sum of limbs times powers is the number they write in base P |
| Tip5Digest.DecimalToBaseP | crates/nockchain-libp2p-io/src/tip5_util.rs:103-112 | five limbs below P that write the value modulo P^5 |
| Tip5Digest.DigestRoundTrip | crates/nockchain-libp2p-io/src/tip5_util.rs:61-112 | digest to integer and back is the identity if and only if all limbs are below P |
| Tip5Digest.IntegerRoundTrip | crates/nockchain/src/setup.rs:206-208 | integer to digest and back is the identity if and only if it is at most DEFAULT_MAX_TIP5_ATOM |
| Tip5Digest.ValueInjective | crates/nockchain-libp2p-io/src/tip5_util.rs:61-70 | different digests below P are different integers |
| Tip5Digest.LargestDigest | crates/nockchain/src/setup.rs:206-208 | DEFAULT_MAX_TIP5_ATOM is the largest digest, the one with all limbs P - 1 |

## Left out

- bppow: it squares only on zero bits, so it is no power function; nothing is claimed of it.
- Felt::degree: it looks for the last zero limb; the degree used here is that of the Poly trait.
- fpsub with a shorter left operand: outside its asserted precondition.
- bpadd, bpneg, bpscal, fpadd and the operator impls: coefficientwise, they would only add easy members.
- The base-field and extension instances of the loops return lists; update in place is modelled in the generic loops on arrays.
- FPoly.FpDiv: the buffer that receives the quotient is taken to have the length the wrapper fpdiv_ gives it.
- KeyFairQueue: dropping all senders, after which recv returns None; waiting for a key is not a step.
- Connections: request and ping counters of an IP, and pruning of inbound connections through the swarm.
- P2PState: the conversion of a block id to a string is a parameter that succeeds or fails; seen sets and caches are out.
- WalletApp.App.QueueWalletIndexWork: the worker stopping in the middle of the call is covered by the protocol steps, not by this method.
- WalletIndex: block height ranges, status messages and the gRPC client; a fetch is a step with an arbitrary answer.
- WalletTally: trimming of wallet labels; a note carries its wallet or none. Transaction counts do not wrap.
- HoonMap: gor is an arbitrary relation; the noun memory layout and unifying equality are plain equality of nouns.
- Shape: noun lists are sequences, and flop is their reversal.
- Tip5Digest: base58 text.
- Cache freshness, block syncing, the libp2p swarm and tokio loops, metrics, command line, kernels and the Hoon compiler.
