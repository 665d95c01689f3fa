# hnsd in Dafny

hnsd is a light client and resolver for the Handshake naming system. This project models the parts of
it whose correctness is hard to see from the code, and proves what they are for:

- `ProofRadix` — the Merkle proof verifier: a proof is accepted only for what the committed name tree says.
- `Probing`, `HashMap` — the open-addressing hash table with its in-place rehash: it is a finite map.
- `BigNum`, `Difficulty` — 512-bit arithmetic, compact targets, work and the difficulty retarget.
- `Ancestry`, `ForkChoice`, `Orphans`, `Chain` — the header chain: four maps, reorganisation, orphans, for every run.
- `ResponseList`, `Worker` — the resolver worker: two linked lists, two threads and a shutdown, for every interleaving.
- `Noise`, `Transport`, `Duplex` — the Noise_XK handshake and the encrypted, rekeyed message stream, as functions
  on values; `CipherStates`, `Brontide`, `Sessions` — the same as objects that are updated in place.
- `Poly1305` — the authenticator in 44/44/42-bit limbs against section 2.5 of RFC 8439.
- `Vli`, `P256`, `ModInv` — 256-bit digit arithmetic, the fast reduction of appendix D.2.3 of FIPS 186-4
  and the binary inversion.
- `Field5x52` — multiplication and squaring in the secp256k1 field in five 52-bit limbs.
- `DnsName`, `DnsCompress`, `DnsText`, `DnsWriter`, `DnsTruncate` — name compression of section 4.1.4 of RFC 1035
  and message truncation.
- `Bytes`, `Arith`, `Bits`, `Limbs`, `ByteOrder` — shared definitions and arithmetic.

Code that works in place is a method or a class whose contract ties the new state to a number, a map, a
sequence or a specification function; the laws are lemmas about those. Hash functions, ciphers, key
exchange, clocks and random octets are parameters. Nothing is assumed of a hash function; of the cipher
suite only that decryption undoes encryption, that key exchange is symmetric and that the uniform
encoding of a point can be undone (`Noise.LawfulSuite` shows that these can be met together).
Statements that would need a collision-free hash name the colliding strings instead.

Where the code differs from its own comments, the model follows the code: the tree interval is 36 although
the comment in src/chain.c:190-192 says 72, and truncation does not set the TC flag. Some expectations
hold only under a condition, which is then stated both ways:

- Stored work grows along a link exactly when the sum does not pass 2^256 (`ForkChoice.LinkGrows`).
- A responder aborts on a failed assert exactly when act one has a key that is not valid, or act three has one
  under a right first tag (`Transport.ResponderAborts`, with `Transport.BadKeyAborts` as an instance); an
  initiator never does (`Transport.NeverAborts`).
- A written name is read back exactly when at most ten pointers are on its way (`DnsWriter.WrittenParses`,
  with `DnsWriter.TooDeep` as an instance that fails).
- With a map built from accepted texts, the writer accepts exactly labels with their dots, possibly after one
  more dot (`DnsText.AcceptedTexts`, `DnsText.LeadingDot`). A refused text can change that, because its suffixes
  stay in the map (`DnsText.SuffixesKept`, `DnsText.SecondTry`); `DnsText.AcceptedAnyMap` covers every map.
- Writing any text keeps the map right for names, unless it has more than 255 octets and leaves suffixes made of
  labels (`DnsWriter.Writer.WriteName`, `DnsWriter.LongSound`, `DnsWriter.LongLabels`).
- For an odd modulus the result of the inversion is an inverse exactly when the gcd is one (`ModInv.InverseIff`).
  For an even one, for which it is not meant, it can be wrong (`ModInv.EvenModulus`): it is right for odd inputs that
  divide the modulus (`ModInv.DivisorGivesOne`), and modulo a power of two it inverts a smaller input only if that
  is 1 (`ModInv.PowerOfTwo`).
- Short of clearing all orphans, one is taken out exactly when its parent is connected and it is the last that missed it
  (`Orphans.SubmitTakes`); one that was displaced is refused until the orphans are cleared (`Orphans.LostStays`,
  with `Orphans.TwoOrphans` as an instance).
- A truncation succeeds exactly when the record after the cut can be read (`DnsTruncate.Truncate`), and what is left
  can be read exactly when no kept name leads past the cut (`DnsTruncate.CutReads`, `DnsTruncate.ForwardPointer`).

## Model

| member | source | states |
|---|---|---|
| ProofRadix.Has | src/proof-radix.c:307-335 | the bit loop answers whether every prefix bit agrees with the key from the given depth on |
| ProofRadix.ForkInputInjective | src/proof-radix.c:251-281 | the string hashed for an inner node determines prefix, length and both children |
| ProofRadix.LeafInputInjective | src/proof-radix.c:283-291 | the string hashed for a leaf determines key and value digest |
| ProofRadix.LeafHash | src/proof-radix.c:389-435 | the digest of the opened tail, and SAMEPATH or SAMEKEY exactly when the tail does not refute the key |
| ProofRadix.NamestateParses | src/proof-radix.c:337-368 | exactly the states laid out as length, name, length, resource within 668 octets parse, to their resource |
| ProofRadix.Climb | src/proof-radix.c:437-462 | the loop hashes up to the root of the opened tree, or names a node where depth or path fails |
| ProofRadix.Verify | src/proof-radix.c:370-482 | accepts if and only if the opened tree hashes to the root, lies on the key's path and refutes or yields the key; each error code has its cause |
| ProofRadix.CompleteResolves | src/proof-radix.c:370-482 | a tree without hidden parts decides every key |
| ProofRadix.Agreement | src/proof-radix.c:251-304 | two openings of one digest agree on every key that both decide, or two colliding strings or a preimage of zero are among those hashed |
| ProofRadix.OpenedResolves | src/proof-radix.c:389-462 | the part of the tree that an acceptable proof opens decides the key as the proof claims, for all four kinds |
| ProofRadix.Soundness | src/proof-radix.c:370-482 | an accepted proof for the root of any complete tree claims what looking the key up in that tree gives, or the hash is broken by the strings at hand |
| ProofRadix.NonEquivocation | src/proof-radix.c:370-482 | two accepted proofs for one root and key claim the same, or the hash is broken by the strings at hand |
| ProofRadix.NegDepthRefutes | src/proof-radix.c:448-449 | a negative depth means the nodes claim more bits than the proof's depth |
| ProofRadix.MismatchRefutes | src/proof-radix.c:460-461 | a path mismatch means no reading of the nodes lies on the key's path |
| ProofRadix.Completeness | src/proof-radix.c:370-482 | every complete tree whose values have at most 668 octets and whose forks have bits left to branch on has an acceptable proof of the truth for every key |
| Probing.ProbeInjective | src/map.c:234-255 | within one round of a power-of-two table no bucket is probed twice |
| Probing.ProbeSurjective | src/map.c:234-255 | within one round every bucket is probed |
| Probing.ProbeReturns | src/map.c:234-255 | the probe is not back at its start within a round, and is back after 2n - 1 steps |
| HashMap.SearchExhausted | src/map.c:234-255 | reaching an empty bucket, or probing them all, shows that the key is nowhere in the table |
| HashMap.InsertKeepsTable | src/map.c:385-471 | filling a vacant or deleted bucket on the key's path keeps every key reachable and no key twice |
| HashMap.DeleteKeepsTable | src/map.c:473-479 | leaving a tombstone keeps every other key reachable |
| HashMap.Capacity | src/map.c:265-269 | the least power of two, at least four, that is no smaller than requested |
| HashMap.SameSizeFits | src/map.c:391-397 | the rehash that only clears tombstones passes the size check |
| HashMap.GrowthFits | src/map.c:398-403 | the growing rehash passes the size check |
| HashMap.HashTable.constructor | src/map.c:41-53 | a new table is the empty map |
| HashMap.HashTable.Lookup | src/map.c:234-255 | the bucket that holds the key, or the number of buckets when none does |
| HashMap.HashTable.RehashTo | src/map.c:274-380 | the kick-out loops end, keep exactly the map, and leave every key reachable and no tombstone |
| HashMap.HashTable.Resize | src/map.c:257-383 | the map is kept for every requested size; the table is rehashed exactly when its entries fit |
| HashMap.HashTable.Reserve | src/map.c:389-404 | after it there is a free bucket and the map is the same; the table is untouched if there was one before, and else without tombstones |
| HashMap.HashTable.FindSite | src/map.c:409-446 | the bucket of the key; for an absent key the last tombstone on its path before the first vacant bucket, or else that bucket |
| HashMap.HashTable.Fill | src/map.c:448-462 | a new key enters, and the result tells a fresh bucket from a reused one |
| HashMap.HashTable.Put | src/map.c:385-471 | the key is in the map afterwards at the returned bucket; 0 is returned exactly when it was there before, and then nothing changes; 2 exactly when a new key finds a tombstone before the first vacant bucket of its path and the table need not be rehashed |
| HashMap.HashTable.Delete | src/map.c:473-479 | a live bucket loses its key; a dead bucket or the end changes nothing |
| HashMap.HashTable.Set | src/map.c:500-511 | the map with the key set to the value |
| HashMap.HashTable.Get | src/map.c:513-524 | the value of the key, or nothing exactly when it is absent |
| HashMap.HashTable.Has | src/map.c:526-537 | membership |
| HashMap.HashTable.Del | src/map.c:539-552 | the map without the key, and whether it was there |
| HashMap.HashTable.Reset | src/map.c:223-232 | the empty map in the same buckets |
| BigNum.FromInt | src/bn.c:31-39 | the number given |
| BigNum.FromArray | src/bn.c:129-145 | the big-endian number of the whole words of the octets |
| BigNum.ToArray | src/bn.c:147-161 | big-endian octets of the number modulo their range: higher words are cut |
| BigNum.Inc | src/bn.c:196-212 | n + 1 modulo 2^512 |
| BigNum.Add | src/bn.c:214-229 | a + b modulo 2^512, whichever arrays are the same |
| BigNum.Sub | src/bn.c:231-253 | a - b modulo 2^512, whichever arrays are the same |
| BigNum.Mul | src/bn.c:256-289 | a b modulo 2^512, whichever arrays are the same |
| BigNum.Div | src/bn.c:291-353 | ends with floor(a / b) for every nonzero b, with the overflow exit and whichever arrays are the same |
| BigNum.ScaleUp | src/bn.c:308-323 | the divisor doubled until it passes a, or until its top bit would be lost |
| BigNum.Reduce | src/bn.c:332-350 | the shift-and-subtract loop leaves the quotient |
| BigNum.Lshift | src/bn.c:355-381 | a 2^n modulo 2^512 for every shift count, in both arrays |
| BigNum.Or | src/bn.c:443-452 | the bitwise or of the two numbers |
| BigNum.Cmp | src/bn.c:465-484 | the order of the two numbers |
| BigNum.IsZero | src/bn.c:486-497 | whether the number is zero |
| BigNum.Assign | src/bn.c:538-546 | a copy |
| BigNum.LshiftWord | src/bn.c:562-576 | multiplication by 2^(32 n) modulo 2^512 |
| BigNum.Lshift1 | src/bn.c:578-589 | doubling modulo 2^512 |
| BigNum.Rshift1 | src/bn.c:591-602 | halving, rounded down |
| Difficulty.PowToTarget | src/header.c:71-108 | the 256-bit target of compact bits, refused exactly when the bits are zero, or the target negative or too large |
| Difficulty.PowToBits | src/header.c:110-156 | the compact form of a target |
| Difficulty.CompactTarget | src/header.c:71-156 | decoding the compact form of any nonzero target gives the target with its two or three leading octets kept |
| Difficulty.GetProof | src/header.c:158-179 | 2^256 / (target + 1), cut to 256 bits |
| Difficulty.CalcWork | src/header.c:181-201 | the parent's work plus the proof, modulo 2^256 |
| Difficulty.Retarget | src/chain.c:376-437 | the compact target for the work done in the window, with the time clamped |
| Difficulty.RetargetBound | src/chain.c:376-437 | when work has grown, the bits decode to a target between 35 and the limit |
| Difficulty.RetargetIdle | src/chain.c:376-437 | when work has not grown, the bits are the easiest ones |
| Difficulty.RetargetInRange | src/chain.c:376-437 | for any two works the bits decode to a target between 35 and the limit |
| Difficulty.ProofBound | src/header.c:158-179 | such a target proves at least 1 unit of work and fits 32 octets uncut |
| Difficulty.LimitBits | src/constants.h:55-62 | the easiest bits decode to the limit |
| Difficulty.LimitBytes | src/constants.h:57-62 | the octets of the limit are the number used in the bounds |
| Ancestry.AtAt | src/chain.c:234-251 | the ancestor of an ancestor is an ancestor |
| Ancestry.AtGrows | src/chain.c:234-251 | new headers do not change the ancestors of old ones |
| Ancestry.SortedMiddle | src/chain.c:323-344 | the middle of the sorted times has at most half of them below it and more than half not above it |
| Ancestry.MedianUnique | src/chain.c:323-344 | only one value has that property |
| Ancestry.NextBitsInRange | src/chain.c:439-472 | the bits demanded of any next header decode to a target between 35 and the limit |
| ForkChoice.VerdictGrows | src/chain.c:674-692 | what is decided about a header does not depend on headers stored since |
| ForkChoice.SeatedChild | src/chain.c:674-692 | a header that passes the checks is a proper child: its bits are the demanded ones, its time is past the median, its height and work follow its parent's |
| ForkChoice.ConnectKeeps | src/chain.c:667-723 | inserting a header keeps the tree of headers, the heaviest tip and the separation from orphans |
| ForkChoice.ReleasedKeeps | src/chain.c:221-232 | taking an orphan out keeps the bookkeeping and makes it ready to insert |
| ForkChoice.ConnectSettles | src/chain.c:639-656 | after an insertion the only orphans left waiting for a stored parent wait for the new header |
| ForkChoice.AdoptKeeps | src/chain.c:639-656 | when the resolving loop ends no filed orphan waits for a stored parent |
| ForkChoice.AcceptKeeps | src/chain.c:634-656 | a header with a stored parent keeps the whole invariant, whatever the outcome |
| ForkChoice.WaitingKeeps | src/chain.c:611-632 | storing an orphan keeps the whole invariant, with at most 10001 orphans |
| ForkChoice.SubmitKeeps | src/chain.c:565-664 | every submitted header, accepted or not, keeps the invariant and every stored header |
| ForkChoice.Run | src/chain.c:565-664 | the invariant holds after every sequence of submissions |
| ForkChoice.RunExtends | src/chain.c:565-664 | over every sequence stored headers stay as they were and the tip's work never falls |
| ForkChoice.RootIsGenesis | src/chain.c:79-113 | genesis is the only header without a stored parent; every other one is a proper child of its parent |
| ForkChoice.WeightIsTotal | src/header.c:181-201 | stored work is the sum of the proofs back to genesis, modulo 2^256 |
| ForkChoice.LinkGrows | src/header.c:181-201 | height grows along each link, and stored work grows if and only if the sum stays below 2^256; each proof is at least 1 |
| ForkChoice.MostWork | src/chain.c:694-720 | while totals stay below 2^256 no stored header has more total work than the tip |
| Orphans.AdoptTakes | src/chain.c:638-656 | the resolving loop takes out only orphans filed under their parent, once that is stored, and leaves the others as they were |
| Orphans.AcceptTakes | src/chain.c:634-656 | so does the insertion of a header with a stored parent, which never answers that the header is an orphan |
| Orphans.SubmitTakes | src/chain.c:565-664 | an orphan leaves if and only if the orphans are cleared, or it is the one filed under its parent and that is stored; it loses its place if and only if another orphan of the same parent arrives |
| Orphans.LostRefused | src/chain.c:584-600 | an orphan without its place is not stored, and every copy is refused as a duplicate orphan or too new |
| Orphans.LostStays | src/chain.c:565-664 | over every sequence of submissions that does not clear the orphans such an orphan stays one, is never stored and every copy is refused |
| Orphans.TwoOrphans | src/chain.c:625-629 | two orphans and then their parent: the second is taken out, the first stays an orphan although it obeys the rules |
| Chain.Chain.constructor | src/chain.c:79-113 | a chain of genesis alone, with its own proof as work |
| Chain.Chain.GetAncestor | src/chain.c:234-251 | the ancestor at a height |
| Chain.Chain.GetMtp | src/chain.c:323-344 | the median of the last eleven times |
| Chain.Chain.SuitableBlock | src/chain.c:353-374 | the middle by time of a header and its two ancestors |
| Chain.Chain.GetTarget | src/chain.c:439-472 | the bits demanded after a header |
| Chain.Chain.FindFork | src/chain.c:474-499 | the highest common ancestor of any stored header and any header on a stored parent, whichever is higher |
| Chain.BranchesApart | src/chain.c:474-499 | above the fork the two branches share no header |
| Chain.Chain.CollectDown | src/chain.c:510-527 | the disconnect list is the old branch from the tip down to the fork, chained through `next` |
| Chain.Chain.CollectUp | src/chain.c:529-543 | the connect list is the new branch from the fork up, chained through `next`, and the first list is not disturbed |
| Chain.Chain.Disconnect | src/chain.c:545-551 | the height index loses exactly the old branch |
| Chain.Chain.Reconnect | src/chain.c:553-562 | the height index gains the new branch below the competitor, and no `next` link stays set |
| Chain.Chain.Reorganize | src/chain.c:501-563 | the height index holds exactly the competitor's ancestors, and no `next` link stays set |
| Chain.Chain.Store | src/chain.c:694-720 | the header joins, and the tip changes exactly when it has more work; the height index follows the tip |
| Chain.Chain.Insert | src/chain.c:667-723 | the checks and the insertion of the specification; the height index is 0 to the tip's height with its ancestors |
| Chain.Chain.ResolveOrphan | src/chain.c:221-232 | the orphan filed under a parent leaves both maps |
| Chain.Chain.Resolve | src/chain.c:639-656 | the loop adopts orphans along a path until none waits or one is refused, and ends |
| Chain.Chain.VerifyPow | src/header.c:422-437 | the hash is at most the target of the bits; each error code has its cause |
| Chain.Chain.Park | src/chain.c:611-632 | the orphan is stored and filed under its parent, after clearing both maps when there are more than 10000 |
| Chain.Chain.Extend | src/chain.c:634-656 | insertion and adoption together keep the chain valid |
| Chain.Chain.Add | src/chain.c:565-664 | the new state and the result are those of the specification, for every header and time, and the chain stays valid |
| Chain.Chain.SafeRoot | src/chain.c:188-219 | the name root of the tip's ancestor at the last interval, or of the tip when twelve headers are on top of it |
| ResponseList.List.constructor | src/rs_worker.c:45-53 | an empty list |
| ResponseList.List.Enqueue | src/rs_worker.c:120-138 | appends, and all links stay right in both directions |
| ResponseList.List.Dequeue | src/rs_worker.c:97-116 | takes the oldest with its links cleared, or nothing from an empty list |
| ResponseList.List.Remove | src/rs_worker.c:211-240 | takes a node out of any place with its links cleared |
| ResponseList.BypassedLinked | src/rs_worker.c:211-240 | bypassing a node leaves a well linked list of the others in order |
| ResponseList.AppendedLinked | src/rs_worker.c:191-208 | linking a node behind the tail leaves a well linked list |
| Worker.ConservedKeeps | src/rs_worker.c:446-598 | every step keeps accepted requests equal, as a multiset, to those pending, handed over, queued and delivered |
| Worker.HeldKeeps | src/rs_worker.c:446-598 | every step keeps the pending list equal to what libunbound has taken on and what is being sent |
| Worker.WakeUpKeeps | src/rs_worker.c:191-306 | no step leaves the thread asleep without a signal while requests are pending or exit is asked for |
| Worker.ResponseKeeps | src/rs_worker.c:554-598 | no step leaves a queued response without a pending signal, an active drain or the final drain |
| Worker.ShutdownKeeps | src/rs_worker.c:403-421 | every step keeps the order of the shutdown: one thread, one quit signal, nothing pending behind it |
| Worker.OrderKeeps | src/rs_worker.c:97-138 | responses are delivered in the order they were queued |
| Worker.StepKeeps | src/rs_worker.c:191-618 | every step of either thread keeps the whole invariant |
| Worker.RunKeeps | src/rs_worker.c:191-618 | so does every interleaving |
| Worker.ReachableInv | src/rs_worker.c:191-618 | the invariant holds in every reachable state |
| Worker.ExactlyOnePlace | src/rs_worker.c:446-598 | in every reachable state each accepted request is in exactly one place: pending, handed over, queued or delivered; one that is being sent is on the pending list, and no other request is anywhere |
| Worker.FreedDelivers | src/rs_worker.c:352-376 | once the worker is freed each accepted request has had its callback exactly once |
| Worker.RunAsserts | src/rs_worker.c:600-618 | in every reachable state the assertions of the next step hold, among them the empty pending list in the quit handler |
| Worker.RestsWhenDone | src/rs_worker.c:533-598 | no deadlock: when no thread can move on its own every accepted request has been delivered and no shutdown is under way |
| Worker.ComesToRest | src/rs_worker.c:243-306 | from every reachable state some run of steps that need nobody delivers every accepted request, and ends a shutdown that is under way with the thread gone |
| Noise.LawfulSuite | src/brontide.c:212-288 | the assumptions on the primitives can be met |
| Noise.U32Inverse | src/brontide.c:579-581 | the length octets give back the length |
| Noise.Lockstep | src/brontide.c:102-146 | decrypting what was encrypted gives the text and leaves both ciphers equal; the nonce stays below 1000 |
| Noise.RotationSchedule | src/brontide.c:86-146 | after n messages the nonce is n modulo 1000 and the key and salt have been rotated n / 1000 times |
| CipherStates.CipherState.constructor | src/brontide.c:57-65 | all zero |
| CipherStates.CipherState.InitKey | src/brontide.c:73-78 | a new key starts counting texts at zero and keeps the salt |
| CipherStates.CipherState.Advance | src/brontide.c:115-122 | updating nonce, vector, key and salt in place keeps them those for the number of texts that have passed |
| CipherStates.CipherState.Encrypt | src/brontide.c:102-123 | the n-th text under a key is sealed under the key rotated n / 1000 times with nonce n modulo 1000 |
| CipherStates.CipherState.Decrypt | src/brontide.c:125-146 | the n-th text is opened under the same key and nonce |
| Noise.MixedAgrees | src/brontide.c:264-288 | a mixed encryption and its decryption keep digest, chaining key and cipher equal |
| Noise.ActAgrees | src/brontide.c:340-439 | acts one and two: the receiver accepts the 80 octets and both sides agree after it |
| Noise.ActThreeAgrees | src/brontide.c:441-492 | act three: accepted, the ciphers are paired and the responder holds the initiator's public key |
| Noise.SplitPairs | src/brontide.c:494-512 | each send cipher is the peer's receive cipher |
| Noise.BeginAgrees | src/brontide.c:290-317 | both sides start with the same digest, chaining key and cipher |
| Transport.WriteAllIs | src/brontide.c:570-609 | writing messages one by one writes their frames in order |
| Transport.ParseKeeps | src/brontide.c:659-779 | every record keeps the nonces below 1000; a good one leaves the buffer empty and the peer ready for the next, and only an abort leaves it crashed |
| Transport.ParseAborts | src/brontide.c:364-492 | a record makes the asserts of the source fail exactly when it is act one with a key that is not valid, or act three with such a key under a right first tag |
| Transport.NeverAborts | src/brontide.c:413-461 | whatever octets an initiator reads, or anybody who is connected, no assert fails |
| Transport.InitiatorSafe | src/brontide.c:611-657 | the same for any sequence of reads |
| Transport.ResponderAborts | src/brontide.c:364-492 | for any octets a responder aborts exactly when act one has an invalid key, or is accepted and followed by an act three with an invalid key under a right first tag |
| Transport.ResponderCrashes | src/brontide.c:611-657 | the same however the octets are split into reads |
| Transport.BadKeyAborts | src/brontide.c:478-481 | a lawful suite and octets for which that happens |
| Transport.FeedSplit | src/brontide.c:611-657 | two reads do what one read of both does |
| Transport.ReceiveConcat | src/brontide.c:611-657 | any split of the octets into reads does what one read does |
| Transport.FeedFrame | src/brontide.c:742-779 | a frame delivers its message and moves the receive cipher with the sender's |
| Transport.FeedFrames | src/brontide.c:742-779 | so do any number of frames |
| Transport.StreamCorrect | src/brontide.c:570-657 | for any messages of allowed size and any split into reads exactly those messages are delivered, and the ciphers are equal afterwards |
| Transport.OversizeRefused | src/brontide.c:742-764 | a longer message is refused and the connection closed |
| Transport.ActOneArrives | src/brontide.c:702-720 | act one in any split makes the responder answer with act two, in agreement |
| Transport.ActTwoArrives | src/brontide.c:674-693 | act two in any split makes the initiator answer with act three and be done |
| Transport.ActThreeArrives | src/brontide.c:722-733 | act three in any split makes the responder done, with paired ciphers |
| Transport.Handshake | src/brontide.c:530-568 | for all keys, random octets and splits an undisturbed run ends with both sides done, paired, and the responder holding the initiator's public key |
| Duplex.OpenedInv | src/brontide.c:514-568 | for all keys two ends that have just connected satisfy the invariant of the link |
| Duplex.FeedCommutes | src/brontide.c:570-657 | receiving does not depend on what is sent meanwhile, nor the other way round |
| Duplex.ReadAKeeps | src/brontide.c:611-657 | a read of any size by the initiator keeps the invariant: all that was sent will be received and the keys will agree |
| Duplex.ReadBKeeps | src/brontide.c:611-657 | likewise by the responder |
| Duplex.WriteAKeeps | src/brontide.c:570-609 | a message written at any time by the initiator keeps it; before the handshake is done it is dropped |
| Duplex.WriteBKeeps | src/brontide.c:570-609 | likewise by the responder |
| Duplex.Run | src/brontide.c:570-657 | so does every interleaving of writes and reads on both sides |
| Duplex.AtRest | src/brontide.c:570-657 | with nothing on its way both ends are connected with equal keys, the responder knows the initiator, and each has received exactly what the other sent |
| Duplex.NothingElse | src/brontide.c:742-779 | at no time has an end received anything but a beginning of what the other sent |
| Duplex.RunDelivers | src/brontide.c:530-657 | all of this for all keys, messages and interleavings; neither end fails or aborts |
| Duplex.ReadsSettle | src/brontide.c:611-657 | reading all that is there brings the link closer to rest |
| Brontide.Connection.constructor | src/brontide.c:157-317 | a fresh peer of the specification with three separate cipher states |
| Brontide.Connection.OnConnect | src/brontide.c:530-568 | the first state, with act one written by an initiator; an abort exactly when an initiator was given a key that is not valid |
| Brontide.Connection.Write | src/brontide.c:570-609 | the frame of the specification goes out when connected and nothing otherwise; the cipher states stay well formed |
| Brontide.Connection.OnRead | src/brontide.c:611-657 | for every input the copying loop ends and does what the specification of reads says, an abort included; an initiator never aborts |
| Sessions.Session.constructor | src/brontide.c:514-568 | two connection objects, connected, satisfy the invariant of the link |
| Sessions.Session.DeliverToA | src/brontide.c:611-657 | a read of any size on the initiator object keeps it |
| Sessions.Session.DeliverToB | src/brontide.c:611-657 | a read of any size on the responder object keeps it |
| Sessions.Session.SendA | src/brontide.c:570-609 | a message written to the initiator object keeps it |
| Sessions.Session.SendB | src/brontide.c:570-609 | a message written to the responder object keeps it |
| Sessions.Session.Settle | src/brontide.c:611-779 | reading everything ends, with both objects connected, each sending under what the other receives under, the responder holding the initiator's public key, and exactly the messages written received |
| Poly1305.Limbs128 | src/poly1305/poly1305-64.h:149-151 | two 64-bit words are taken apart into 44/44/40-bit limbs without loss |
| Poly1305.Clamped | src/poly1305/poly1305-64.h:94-100 | the masked limbs are the key anded with the clamp of RFC 8439 |
| Poly1305.Clamp | src/poly1305/poly1305-64.h:94-100 | the multiplier in limbs is the clamped first half of the key |
| Poly1305.ProductBounds | src/poly1305/poly1305-64.h:153-170 | no product of limbs leaves its bound |
| Poly1305.Columns | src/poly1305/poly1305-64.h:153-170 | the three sums fit 128 bits and are the product modulo the prime |
| Poly1305.Carry | src/poly1305/poly1305-64.h:172-188 | the partial carries restore the limb bounds and keep the value modulo the prime |
| Poly1305.Block | src/poly1305/poly1305-64.h:145-188 | one block turns h into (h + m) r modulo 2^130 - 5 within the limb bounds, nothing overflowing |
| Poly1305.PolyConcat | src/poly1305/poly1305-64.h:142-192 | the polynomial of whole blocks can be evaluated in parts |
| Poly1305.ReduceFirst | src/poly1305/poly1305-64.h:145-188 | reducing before a step does not change the result |
| Poly1305.CarryAround | src/poly1305/poly1305-64.h:218-245 | the full carry keeps the value modulo the prime |
| Poly1305.LessPrime | src/poly1305/poly1305-64.h:247-258 | the select mask tells exactly whether h is below the prime |
| Poly1305.Reduce | src/poly1305/poly1305-64.h:218-265 | h becomes the remainder modulo the prime |
| Poly1305.AddPad | src/poly1305/poly1305-64.h:267-284 | the sum with the pad modulo 2^128, packed into two words |
| Poly1305.MakeTag | src/poly1305/poly1305-64.h:218-287 | the tag octets are ((h mod p) + s) mod 2^128 |
| Poly1305.Authenticator.constructor | src/poly1305/poly1305-64.h:89-113 | a state for the key that has seen nothing |
| Poly1305.Authenticator.Blocks | src/poly1305/poly1305-64.h:115-197 | the accumulator absorbs every whole block |
| Poly1305.Authenticator.LastBlock | src/poly1305/poly1305-64.h:206-216 | the padded last block completes the polynomial of the message |
| Poly1305.Authenticator.Finish | src/poly1305/poly1305-64.h:199-298 | the tag of all octets seen, and the state is wiped |
| Poly1305.Authenticator.Fill | src/poly1305/poly1305.c:51-70 | the buffer is topped up and flushed when full; no octet is lost |
| Poly1305.Authenticator.Whole | src/poly1305/poly1305.c:72-78 | whole blocks go in directly |
| Poly1305.Authenticator.Keep | src/poly1305/poly1305.c:80-86 | the rest is kept in the buffer |
| Poly1305.Authenticator.Update | src/poly1305/poly1305.c:42-87 | the octets seen grow by exactly the input |
| Poly1305.Authenticate | src/poly1305/poly1305.c:89-100 | the tag of RFC 8439 for the concatenation, however the message was cut into updates |
| Vli.CarryKept | src/ecc.c:362-379 | comparing the sum with one operand recovers the carry, also when the sum equals it |
| Vli.Add | src/ecc.c:362-379 | sum and carry, whichever arrays are the same |
| Vli.Sub | src/ecc.c:381-398 | difference and borrow, whichever arrays are the same |
| Vli.Lshift | src/ecc.c:332-345 | product with 2^shift and the bits shifted out |
| Vli.Rshift1 | src/ecc.c:348-360 | half, rounded down |
| Vli.Cmp | src/ecc.c:317-329 | the order of the two numbers |
| Vli.IsZero | src/ecc.c:256-266 | whether the number is zero |
| Vli.Copy | src/ecc.c:309-314 | a copy of four digits |
| Vli.AddColumn | src/ecc.c:413-419 | one column of the product is summed without losing a carry |
| Vli.AllColumns | src/ecc.c:402-426 | the columns make up the product |
| Vli.Mult | src/ecc.c:402-427 | the exact 512-bit product |
| P256.FoldedIs | src/ecc.c:664-739 | the signed sum of the nine terms differs from the product by a multiple of the prime |
| P256.AddS1 | src/ecc.c:674-680 | twice s1 is added and the carry tracks the exact value |
| P256.AddS2 | src/ecc.c:682-687 | twice s2 likewise |
| P256.AddS3 | src/ecc.c:689-694 | s3 likewise |
| P256.AddS4 | src/ecc.c:696-701 | s4 likewise |
| P256.SubtractD1 | src/ecc.c:703-708 | d1 is subtracted and the carry tracks the exact value |
| P256.SubtractD2 | src/ecc.c:710-715 | d2 likewise |
| P256.SubtractD3 | src/ecc.c:717-722 | d3 likewise |
| P256.SubtractD4 | src/ecc.c:724-729 | d4 likewise |
| P256.Fold | src/ecc.c:664-729 | digits and signed carry together are exactly the sum of the nine terms |
| P256.Raise | src/ecc.c:731-734 | from below zero the loop ends between zero and the prime |
| P256.Lower | src/ecc.c:735-738 | from above the loop ends between zero and the prime |
| P256.MmodFast | src/ecc.c:664-739 | the remainder of every 512-bit number modulo the P-256 prime |
| P256.ModMultFast | src/ecc.c:815-821 | left right modulo the P-256 prime, fully reduced, for all inputs and aliasing |
| ModInv.Halve | src/ecc.c:860-866 | u is halved modulo m although u + m may pass 256 bits, and stays at most m |
| ModInv.Subtract | src/ecc.c:881-884 | u - v modulo m, staying at most m |
| ModInv.StepEven | src/ecc.c:857-866 | a and u are halved together |
| ModInv.StepOdd | src/ecc.c:877-892 | b is taken from a and v from u, and both are halved |
| ModInv.Loop | src/ecc.c:854-910 | for every nonzero modulus the loop ends and leaves in u what the recursive definition says |
| ModInv.EuclidGcd | src/ecc.c:854-910 | for an odd modulus that is a number below m which times the input leaves the gcd |
| ModInv.DivisorGivesOne | src/ecc.c:854-910 | for any modulus an odd input that divides it gives 1, which times the input leaves the gcd |
| ModInv.PowerOfTwo | src/ecc.c:854-910 | for a power of two and a smaller nonzero input the result is an inverse if and only if the input is 1 |
| ModInv.EvenModulus | src/ecc.c:854-910 | for the modulus 4 the result for 3 is 2, which is no inverse although they are coprime |
| ModInv.Start | src/ecc.c:848-852 | the numbers before the first turn |
| ModInv.Inverse | src/ecc.c:836-913 | zero gives zero and any other input the result of the loop, for every nonzero modulus and whichever arrays are the same; with an odd modulus the result times the input leaves the gcd |
| ModInv.InverseIff | src/ecc.c:836-913 | the result is an inverse if and only if input and modulus are coprime |
| ModInv.Clear | src/ecc.c:248-253 | zero |
| Field5x52.ColumnBounds | src/secp256k1/field_5x52_int128_impl.h:41-128 | each column of products stays within its stated number of bits |
| Field5x52.High | src/secp256k1/field_5x52_int128_impl.h:41-76 | the top columns are folded within the stated bits |
| Field5x52.Fifth | src/secp256k1/field_5x52_int128_impl.h:78-101 | the fifth column and the spilled bits are folded within the stated bits |
| Field5x52.Wrap | src/secp256k1/field_5x52_int128_impl.h:103-139 | the next columns likewise |
| Field5x52.Last | src/secp256k1/field_5x52_int128_impl.h:140-152 | the last limbs are below 2^52 and 2^49 |
| Field5x52.Expand | src/secp256k1/field_5x52_int128_impl.h:41-128 | the nine columns make up the product |
| Field5x52.Combine | src/secp256k1/field_5x52_int128_impl.h:41-152 | the foldings together change the value by a multiple of the prime |
| Field5x52.MulInner | src/secp256k1/field_5x52_int128_impl.h:18-153 | a b modulo 2^256 - 2^32 - 977 with limbs below 2^52 and the top below 2^49, nothing overflowing |
| Field5x52.SquareColumns | src/secp256k1/field_5x52_int128_impl.h:155-277 | the doubled products of the squaring are the columns of the product with itself |
| Field5x52.SqrInner | src/secp256k1/field_5x52_int128_impl.h:155-277 | a^2 likewise |
| DnsName.DottedInjective | src/dns.c:2096-2210 | different names have different texts |
| DnsName.SpellsGrows | src/dns.c:2096-2210 | what is spelled in a message stays spelled when it grows |
| DnsName.ReadSpells | src/dns.c:2096-2210 | reading a spelled name gives its text if and only if at most ten pointers are followed |
| DnsName.ReadExtent | src/dns.c:2172-2195 | the cursor ends behind the first pointer or the final zero |
| DnsName.ReadEnds | src/dns.c:2096-2210 | the cursor moves forward and stays within the window |
| DnsName.Parse | src/dns.c:2096-2210 | the loop ends on every buffer, with the text and end of the specification, or refuses |
| DnsName.ParsedSpells | src/dns.c:2096-2210 | a spelled name parses to its text and end exactly when at most ten pointers are on the way |
| DnsCompress.EmitSize | src/dns.c:2212-2339 | compression never makes a name longer |
| DnsCompress.EmitSpells | src/dns.c:2212-2339 | through a sound map the octets written spell the name, and the map stays sound |
| DnsCompress.EmitExtent | src/dns.c:2212-2339 | the name ends where the writer stops, whatever follows |
| DnsWriter.EmitKeeps | src/dns.c:2212-2339 | the same for the whole map; entries for texts that are no labels do not matter |
| DnsWriter.SerializesName | src/dns.c:2212-2339 | a name is accepted and written as the specification of names says |
| DnsWriter.WalkSound | src/dns.c:2212-2339 | any text of at most 255 octets, accepted or refused, keeps the map right for names |
| DnsWriter.LongSound | src/dns.c:2242-2248 | a longer text does exactly when it files no suffix made of labels |
| DnsWriter.LongLabels | src/dns.c:2242-2248 | so every new list of labels that is too long breaks it |
| DnsText.WriteLabels | src/dns.c:2228-2292 | the loop ends for any text with the labels, place and map of the specification; it fails exactly at a label that is doubled, too long or past the room |
| DnsText.Serialize | src/dns.c:2212-2339 | which texts are accepted, and for any text, accepted or refused, the octets and the map that are left |
| DnsText.WalkFiles | src/dns.c:2250-2267 | any text, accepted or refused, leaves in the map exactly its suffixes whose first label was written, and changes no other entry |
| DnsText.WalkScans | src/dns.c:2228-2292 | for texts of at most 255 octets, the walk gets through exactly when the labels pass |
| DnsText.AcceptedAnyMap | src/dns.c:2228-2302 | with any map, accepted are exactly labels up to the end or up to a suffix in the map that starts with a label, possibly after one more dot |
| DnsText.AcceptedTexts | src/dns.c:2228-2302 | with a map of such suffixes, accepted are exactly labels of 1 to 63 octets each with its dot, possibly after one more dot |
| DnsText.LeadingDot | src/dns.c:2229-2240 | ".a." is accepted although it is the text of no name |
| DnsText.SuffixesKept | src/dns.c:2250-2267 | the map keeps holding only such suffixes exactly when the text is accepted or leaves no trace |
| DnsText.SecondTry | src/dns.c:2250-2267 | "a.." is refused at first and accepted the next time |
| DnsWriter.Writer.constructor | src/dns.c:2349-2360 | an empty message and map |
| DnsWriter.Writer.Append | src/dns.c:2349-2360 | other octets do not disturb the names written |
| DnsWriter.Writer.WriteName | src/dns.c:2349-2360 | any text can be written: names are recorded at their offset, take no more than their plain size and can be skipped; names written before stay spelled; the map stays right for names exactly unless the text has more than 255 octets and files suffixes made of labels |
| DnsWriter.WrittenParses | src/dns.c:2096-2339 | of all names written through one map each parses back, at its offset, exactly when at most ten pointers are on the way |
| DnsWriter.SpellsUnique | src/dns.c:2096-2210 | the number of pointers on the way is determined by message and offset |
| DnsWriter.NestIs | src/dns.c:2212-2339 | each name nested in the last one written adds one pointer to the way |
| DnsWriter.TooDeep | src/dns.c:2175-2178 | the twelfth nested name is written but cannot be read back |
| DnsTruncate.ReadRecord | src/dns.c:265-297 | the end of a question or record, or a refusal |
| DnsTruncate.BoundaryGrows | src/dns.c:195-322 | record boundaries grow strictly |
| DnsTruncate.FitsLongest | src/dns.c:195-322 | any longer record-aligned prefix is over the limit |
| DnsTruncate.FitsUnique | src/dns.c:195-322 | only one number of records fits and is the longest |
| DnsTruncate.Section | src/dns.c:256-300 | one section is cut at the first record over the limit |
| DnsTruncate.Scan | src/dns.c:250-301 | the cut and the four counts of the whole records kept |
| DnsTruncate.PutCounts | src/dns.c:310-317 | the counts are stored and nothing else changes |
| DnsTruncate.Truncate | src/dns.c:195-322 | the longest record-aligned prefix within the limit with the right counts, success if and only if the record after the cut can be read; otherwise nothing changes |
| DnsTruncate.WellFormedFits | src/dns.c:195-322 | every well-formed message can be truncated |
| DnsTruncate.ReadCut | src/dns.c:2096-2210 | in a message that is cut off a name can be read exactly when it could before, from octets before the cut |
| DnsTruncate.CutReads | src/dns.c:195-322 | the records kept can be read again exactly when the way of each of their names stays before the cut |
| DnsTruncate.StaysBefore | src/dns.c:310-317 | for names that stay away from the counts this can be seen before the cut |
| DnsTruncate.ForwardPointer | src/dns.c:195-322 | a message whose first answer has its name in the second cannot be read after the cut |

## Left out

Deliberate limits of what is modelled:

- HashMap.HashTable.Resize: bucket counts are unbounded, so the 32-bit wrap-around of the capacity above 2^31 is not modelled, nor are allocation failures; flags are three-valued array elements instead of bit pairs.
- HashMap.HashTable.Set: keys are compared by value; the set variant, iteration and the free function are not modelled.
- BigNum.Div: a zero divisor is a precondition, because the source does not terminate on it.
- BigNum.FromArray: at most 64 octets are read, as the word array has no room for more.
- Chain.Chain.Add: heights and times are unbounded, so wrap-around of 32-bit heights and 64-bit times is not modelled; a header whose hash is that of genesis's parent (all zero) is excluded; the sync flag, the checkpoint work and the locator are not modelled; `next` links are a map field instead of pointers in the headers, and headers are values.
- Chain.Chain.VerifyPow: the header hash is a field given with the header; its computation is not modelled, and two headers may share a hash.
- ForkChoice.MostWork: total work of 2^256 or more is a precondition, because stored work is cut to 256 bits there; without it the tip has the most stored work.
- Worker.StepKeeps: libunbound calls back at most once for each request it accepted and only from ub_wait, the condition variable may wake up spuriously, and the owner frees the worker outside request callbacks and after closing it; failure to create the thread is not modelled.
- ResponseList.List.Remove: locking is not modelled in the lists; the steps of Worker are the critical sections.
- Brontide.Connection.OnRead: user callbacks do nothing but record what they get, so re-entrant use and errors returned from them are not modelled; sockets are the sequence `written`. After a failed assert only that it failed is stated.
- Transport.ParseAborts: a private key is always usable, so Diffie-Hellman fails only for the public key; where the uniform encoding cannot be decoded the source goes on with an uninitialised key, which the model takes to be whatever `fromUniform` gives.
- Transport.Handshake: the cipher, hash, key derivation and key exchange are abstract, so nothing is said about secrecy or about messages changed on the way beyond the refusals in Parse.
- Vli.Lshift: shift counts outside 1 to 63 are undefined in the source and a precondition here.
- Field5x52.MulInner: the result may be the same array as a but not b, as the source demands; all products are formed before limbs are written, which is the same because b is another array.
- ModInv.Inverse: a zero modulus with a nonzero input is excluded, because the source does not terminate on it; for even moduli, which the curve code never uses, the value is stated but, apart from inputs that divide the modulus and powers of two, not when it happens to be an inverse.
- DnsName.ToWire: the source compares a plain `char` with -1 and -2, which is true of the octets 0xff and 0xfe only where `char` is signed; the model takes it to be signed.
- DnsText.Serialize: only the form with an output buffer and a map is modelled.
- DnsWriter.Writer.WriteName: texts hold no zero octet, being C strings.
- DnsTruncate.Truncate: the TC flag is not touched, as in the source.

Parts of the repository that are not modelled:

- Decoding of proofs (src/proof-radix.c:127-245), headers and messages: they would add byte-by-byte readers.
- Whole DNS messages, resource records, DNSSEC signing and the name server: name compression and truncation are the hard part.
- bn string conversion, power and right shifts: only used for printing, or not at all.
- Squaring, addition and group operations of src/ecc.c, the group and scalar code of secp256k1, elligator and the assembly variants.
- The 32-bit and 8-bit variants of Poly1305 and the comparison of tags.
- SHA-256, SHA-3, BLAKE2b and ChaCha20: they are parameters.
- Peer pool, address manager, time data, timers, sockets, configuration, logging and failing allocation.
