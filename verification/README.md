# SM2 private set intersection: a model and its proofs

Two parties, a client and a server, each hold a list of elements. The program hashes every element
to a point of the SM2 curve, blinds the points with a random scalar, exchanges and signs the blinded
lists, blinds the other side's list once more, and lets the client find the common elements by a
hash-table join. This project models that program in Dafny and proves what it is for.

`dafny verify dfyconfig.toml` checks everything.

## What is modelled

* **The two-party run.** `Transport` is a step system: each party has a main thread and a sender
  thread, and two FIFO byte channels of a given capacity join the parties. A write hands over any
  non-empty part that fits, a read takes any non-empty part that is there, and the steps of the four
  threads interleave freely. `DhPsi` is the program each party runs on it (`exchange_information`
  followed by `dh_psi`), as a function from the step number and the messages received so far to the
  next operation: the parameter exchange with its assertions, the public key, the blinded list,
  signature and identity, then the server's second list with signature and identity. `Delivery`,
  `Progress`, `HonestRun`, `Psi` and `Deadlock` prove what holds of all runs, and `Guards` what a party
  has checked before it goes on, against any peer.
* **The join** (`HashJoin`, `Permutations`, `Intersection`, `Duplicates`): the hash table with its one
  key variable, the nested-loop join it computes, and when that join is the intersection.
* **The loops of a party** (`DhPsiLoops`, `HashToPoint`, `HashJoin`, `CopyOut`, `Memory`, `Socket`):
  blinding, packing and unpacking the flat buffers, the hash-table join, sorting and copying out, the
  receive loop. They are methods on arrays and objects, each proved equal to the function that the
  protocol model uses.
* **The algebra** (`Group`, `NumTheory`): scalar multiplication is repeated addition; commutation and
  cancellation are derived from the group laws and the primality of the order.
* **Signatures** (`Sm2`): which octets are hashed and sent. SM3, the public key, signing and
  verification are parameters.
* **Big numbers** (`BigNum`, `BigNumbers`, `BigNumBits`, `BigNumText`, `ModularLaws`): the class with
  its words, the room each operator reserves, comparison, modular arithmetic, bit scans, printer and
  parser.
* **CEvent** (`EventMonitor`): the pthread version as a state machine over any number of threads.
* **parse_options** (`Options`): the argv loop over a table of options.

## What came out

* The join compares no keys. Every `g_hash_table_insert` and every lookup passes the address of the
  same variable `tmpkey`, so two entries are told apart only by the hash code that the table stored;
  the later record wins. Nor does anything remove duplicates from the lists. For all lists and hash
  functions the client's result is the intersection if and only if `Duplicates.Delivers` holds: the
  codes of its records occur as often in the other list as among its common elements, the common
  elements stand in the order of the last places of their codes, and none of them is overwritten.
  The matches are exactly the positions of the common elements if and only if every collision of
  codes is harmless and no common element occurs twice in either list; for a client without
  duplicates the two mean the same. When no collision is harmful, the result is the intersection if
  and only if each common element occurs equally often in both lists and in the client's list they
  stand in the order of their last occurrences (`Psi.DistinctKeysGiveIntersection`).
  Two complete honest runs show the failures: in `Example.CollisionLosesElement`, with a hash that
  folds the two words of a key, the client reports an element of its own twice and misses the common
  one; in `Example.RepetitionAborts`, whatever the hash, the server's second copy of the common
  element makes the assertion in the client's join fail.
* The four parameters are sent without a sender thread; a channel of sixteen octets is necessary and
  sufficient for the whole run never to get stuck. The lists may be of any size because of the thread:
  without it an exchange gets stuck exactly when both messages exceed the channel.
* `CEvent` can lose wake-ups exactly when it is a manual-reset event used by three or more threads,
  because `Set` signals one thread.
* `operator-=` reserves no carry bit. The result does not fit exactly when the signs differ, the
  longer operand fills its words to the last bit, and adding the magnitudes carries out of them;
  `BigNum.DifferenceCanOverflow` is an input that does not fit. `compare` inherits the condition.
* A positive number is printed with a leading blank and in that form does not read back as itself; no
  positive number or zero does. Without the blank every number does.
* A hexadecimal literal is read at its value exactly when it has no lower-case digit.
* The 32 octets that are sent for a coordinate or a signature value are all its own exactly when the
  value is at least 2^224.
* `parse_options` loops for ever exactly when reading stops at an option that is not in the table. It
  reports success with a required option unmarked exactly when reading stops at an operand, after at
  least one option but without that required one. A command line that is read to its end gives 1
  exactly when every required option is marked; but a number option that no number follows is marked
  without being given a value, and `prog -r -t` (`Options.BareNumberPasses`) gives 1 that way.

## What is assumed

`DhPsi.Honest` collects the assumptions on a run: the points form an abelian group of prime order and
points other than infinity have an invertible 64-octet encoding; a signature of full width verifies;
both scalars are non-zero modulo the order; some header makes each element a finite point; each list
has fewer than 2^25 elements (so that 32-bit lengths and offsets are exact); both sides use the same
parameters; public keys and signature values have non-zero top words. That elements in play hash to
different points is asked only where a statement is about the keys of the records themselves. Lists
may hold duplicates.
`Example.AssumptionsCanBeMet` gives an instance in which all of them hold.

The primitives of IPP are contracts: `ippsRef_BN` reports bit length 1 for zero, `ippsSet_BN` trims
leading zero words and the sign of zero, an arithmetic primitive either stores the exact result or,
when the room is too small, leaves the result unspecified. `pthread_cond_signal` wakes one or more of
the parked threads. `send` blocks until everything is written.

## Model

| member | source | states |
|---|---|---|
| Psi.ClientGetsIntersection | src/ecdh-psi/dh-psi.cpp:43-101 | for all lists and hash functions, in every reachable state in which the client has finished, whatever the interleaving, capacity and chunks, its signature check passes, and its result is exactly its own elements that the server holds, in its own order, if and only if Delivers holds of the keys and lists; for a client without duplicates, if and only if no collision is harmful and no common element is repeated (which is no condition when the server has no duplicates either); without harmful collisions, if and only if the common elements occur equally often on both sides and in the order of last occurrences |
| Psi.EveryReceiveGetsItsSend | src/ecdh-psi/dh-psi.cpp:58-85 | in every reachable state what each party has received is a prefix of the messages that the other one sends, although each side computes lengths from its own counts and role |
| Psi.NobodyHaltsEarly | src/util/helpers.h:43-45 | in an honest run no parameter assertion fails and no signature is rejected before the last step |
| Psi.FinishedClientHasAll | src/ecdh-psi/dh-psi.cpp:84-85 | a client that has finished has received all thirteen messages of the server |
| Psi.DistinctKeysGiveIntersection | src/ecdh-psi/dh-psi.cpp:43-101 | when the table key tells the doubly blinded records apart, the finished client has exactly its own elements that the server holds if and only if these occur equally often on both sides and in the order of last occurrences, in particular if each occurs once |
| Psi.JoinedIsIntersection | src/ecdh-psi/dh-psi.cpp:93-101 | for all lists, joining the two doubly blinded lists gives the common elements if and only if Delivers holds, and their positions if and only if no collision is harmful and no common element is repeated |
| Psi.RecordsMatchLikeElements | src/ecdh-psi/dh-psi.cpp:71-99 | because blinding commutes, the join of the doubly blinded records is the join of the elements themselves under the key of their points multiplied by both scalars |
| Psi.RecordsHarmless | src/ecdh-psi/dh-psi.cpp:71-99 | when elements in play have points of their own, a collision is harmful among the elements exactly when it is among the records |
| Psi.FinishedOutcome | src/ecdh-psi/dh-psi.cpp:84-101 | the outcome of every finished client is the join of the two doubly blinded lists |
| Psi.NoDeadlock | src/util/helpers.h:25-117 | with at least sixteen octets of channel a reachable state is stuck exactly when both parties are done |
| Psi.EveryRunEnds | src/ecdh-psi/dh-psi.cpp:43-101 | every run, however scheduled, has at most 256·nc + 128·ns + 932 steps |
| Psi.EveryRunCanFinish | src/ecdh-psi/dh-psi.cpp:43-101 | every run so far can be continued until both parties are done |
| Psi.CountersAtTheEnd | src/util/socket.h:253-266 | at the end each party's bytes_sent is the other's bytes_received, 64·nc + 148 and 64·ns + 64·nc + 216, and both channels are empty |
| Guards.NothingBeforeParameters | src/util/helpers.h:43-45 | whatever program the peer runs: a party that has gone beyond the parameters has received its own three parameters |
| Guards.NothingBeforeSignature | src/ecdh-psi/dh-psi.cpp:58-63 | whatever program the peer runs: in every reachable state in which a party has gone beyond the first list, the signature scheme accepts the signature received, under the key received, for the digest of the identity, key and list received |
| Guards.RejectedExactly | src/util/gmCrypto/crypto.cpp:710-722 | the client has no result if and only if the scheme rejects the second signature, for the digest of the identity, the same key and the second list |
| Guards.HaltsWithoutSignature | src/util/gmCrypto/crypto.cpp:660-665 | a party that has received a first list without a valid signature does nothing more |
| Guards.DifferentParametersStop | src/util/helpers.h:42-45 | two parties whose parameters differ never go beyond the assertions |
| Guards.DifferentParametersEnd | src/util/helpers.h:30-45 | with sixteen octets of channel they come to a stop exactly there |
| Guards.ServerHas | src/ecdh-psi/dh-psi.cpp:58-59 | in an honest run the nine messages that the server receives read as the client's number of elements, parameters, public key, blinded points in order, signature over exactly that list, and identity |
| Guards.ClientHas | src/ecdh-psi/dh-psi.cpp:58-85 | likewise for the client, and the second list is both scalars times its own points, in order, signed anew |
| Guards.HashedPointMeans | src/util/gmCrypto/crypto.cpp:9-22 | the point of an element is the first answer of the library for it |
| Psi.RecordInList | src/ecdh-psi/dh-psi.cpp:71-76 | a doubly blinded record of one party is among those of the other exactly when the element is |
| Psi.TwiceBlindedDistinct | src/ecdh-psi/dh-psi.cpp:71-76 | double blinding keeps duplicate-free lists duplicate-free |
| Deadlock.SixteenIsExact | src/util/helpers.h:30-40 | the run never gets stuck if and only if the channels hold at least sixteen octets |
| Deadlock.SmallChannelDeadlocks | src/util/helpers.h:30-34 | with smaller channels both parties can block inside their unthreaded parameter sends |
| Deadlock.InTurnStuckExactly | src/util/helpers.h:82-94 | without the sender thread an exchange over a channel of positive capacity can get stuck if and only if both messages exceed the channel |
| Deadlock.InTurnDeadlocks | src/util/helpers.h:82-94 | the reachable state in which both parties are then stuck inside their sends |
| Deadlock.ThreadedNeverStuck | src/util/helpers.h:76-94 | snd_and_rcv on both sides never gets stuck, for messages of any size over a channel of any positive capacity |
| Delivery.ReachableInv | src/util/helpers.h:69-117 | invariant of every reachable state: each channel holds exactly what one side has written and the other has not consumed, and each thread is where its operation allows |
| Delivery.InvStep | src/util/helpers.h:69-117 | every step of either thread of either party keeps that invariant |
| Delivery.SplitUnique | src/util/socket.h:213-258 | a byte stream can be cut into messages of known lengths in one way only |
| Delivery.MessagesArriveInOrder | src/util/socket.h:213-268 | for any two scripts with agreeing lengths, the k-th message received is the k-th one sent |
| Progress.BytesAccounted | src/util/socket.h:213-268 | in every reachable state: bytes announced = bytes counted as received + partly collected + in flight + not yet written |
| Progress.AtTheEnd | src/util/socket.h:213-268 | when both parties are done all messages have arrived, channels are empty and counters agree |
| Progress.StopsOnlyWhenDone | src/util/helpers.h:76-117 | for scripts that keep the pace stated in Paced, stuck and done are the same |
| Progress.MeasureFalls | src/util/helpers.h:76-117 | a measure over remaining steps, unsent bytes and bytes in flight falls at each step |
| Progress.RunsAreBounded | src/util/helpers.h:76-117 | so the length of every run is bounded by its initial value |
| Progress.CanFinish | src/util/helpers.h:76-117 | and every run can be continued to the end |
| HonestRun.ProgramsRealiseScripts | src/ecdh-psi/dh-psi.cpp:23-85 | the two programs, computing from what they receive, perform two fixed scripts whose lengths agree with each other |
| HonestRun.ScriptsPaced | src/ecdh-psi/dh-psi.cpp:58-85 | those scripts keep the pace that freedom from deadlock needs |
| HonestRun.UnpackFlatten | src/ecdh-psi/dh-psi.cpp:53-68 | cutting the flat buffer gives the packed records back |
| HonestRun.ReblindedRecord | src/ecdh-psi/dh-psi.cpp:71-76 | a record blinded by both is the encoding of the product with both scalars, and a finite point |
| DhPsiLoops.BlindElements | src/ecdh-psi/dh-psi.cpp:43-49 | GmulA[i] encodes the scalar times the first point that the library gives for the octets of element i, its length respected |
| DhPsiLoops.Pack | src/ecdh-psi/dh-psi.cpp:51-57 | the send buffer is the concatenation of the records |
| DhPsiLoops.CutRecords | src/ecdh-psi/dh-psi.cpp:64-68 | GmulB holds the records of the received buffer, in order |
| DhPsiLoops.ReblindRecords | src/ecdh-psi/dh-psi.cpp:71-76 | GmulBmulA holds the received records, in order, each blinded once more |
| DhPsiLoops.CodesOfRecords | src/util/helpers.h:134-139 | the keys read at i * hashbytelen are those of the records |
| DhPsiLoops.ClientJoin | src/ecdh-psi/dh-psi.cpp:90-101 | join, sort and copy-out on the buffers compute the reference outcome, with each element's own length |
| Group.MulAdd | src/util/gmCrypto/crypto.cpp:23-30 | multiplication by a sum is the sum of the multiples |
| Group.MulMul | src/util/gmCrypto/crypto.cpp:23-30 | multiplying twice is multiplying by the product |
| Group.BlindingCommutes | src/util/gmCrypto/crypto.cpp:23-30 | c·(s·P) = s·(c·P) for all scalars and points |
| Group.Unblind | src/util/gmCrypto/crypto.cpp:23-30 | a scalar that is non-zero modulo the prime order has an inverse that undoes the blinding of every point |
| Group.BlindingInjective | src/util/gmCrypto/crypto.cpp:23-30 | blinded points are equal exactly when the points are |
| Group.DoubleBlindingMatches | src/ecdh-psi/dh-psi.cpp:71-76 | doubly blinded points match exactly where the hashed points do |
| HashToPoint.OaidHashPoint | src/util/gmCrypto/crypto.cpp:9-22 | the loop ends whenever some header works, with the answer to the first of the headers 0x78903473 + k * 0xf387 mod 2^32 that does; it depends on the element's octets only |
| HashToPoint.FirstAnswerIsFound | src/util/gmCrypto/crypto.cpp:15-19 | a point is the element's point if and only if it is the answer to the first try that succeeds |
| HashToPoint.EveryHeaderIsTried | src/util/gmCrypto/crypto.cpp:15-18 | every 32-bit value is the header of one of the first 2^32 tries |
| HashToPoint.NoHeaderTwice | src/util/gmCrypto/crypto.cpp:15-18 | and of only one of them |
| HashToPoint.SearchIsComplete | src/util/gmCrypto/crypto.cpp:16-19 | a point is found within 2^32 tries if and only if some header gives one; otherwise no try ever succeeds |
| HashJoin.FindIntersection | src/util/helpers.h:119-151 | matches is, in the order of the second list, the inverse-permuted last index of an equal code in the first list; the method stops exactly when the assertion fails |
| HashJoin.InvertPermutation | src/util/helpers.h:123-130 | the loop computes the inverse of any permutation |
| HashJoin.CodeAt | src/util/helpers.h:125-139 | the code of record i is the hash of its first min(hashbytelen, 8) octets |
| HashJoin.FillTable | src/util/helpers.h:131-136 | the filled table maps each hash code to the value of the last record with that code |
| HashJoin.Probe | src/util/helpers.h:137-147 | the probing loop is the nested-loop join, assertion included |
| HashJoin.HashTable.Insert | src/util/helpers.h:135-135 | with all entries sharing one key variable an insertion overrides the entry with the same hash code |
| HashJoin.HashTable.Lookup | src/util/helpers.h:140-140 | and a lookup finds by hash code alone |
| HashJoin.ByCodeLookup | src/util/helpers.h:131-140 | entries with distinct codes are exactly the pairs of the map |
| Permutations.InverseIsTwoSided | src/util/helpers.h:127-130 | invperm inverts perm on both sides and is a permutation |
| Permutations.Pigeonhole | src/util/helpers.h:142-144 | distinct numbers below n are at most n, and all of them when there are n |
| Permutations.SortedSorts | src/util/helpers.h:58-58 | sorting gives the same numbers in ascending order |
| Permutations.SortedDistinct | src/util/helpers.h:58-58 | distinct matches become a strictly ascending list of the same numbers |
| Permutations.AscendingUnique | src/util/helpers.h:58-65 | a strictly ascending list is determined by its elements |
| Permutations.AscendingDetermined | src/util/helpers.h:58-65 | an ascending list is determined by how often each number occurs |
| Intersection.JoinMember | src/util/helpers.h:137-146 | a number is among the matches exactly when some record of the second list is found there |
| Intersection.JoinDistinct | src/util/helpers.h:137-146 | the matches are pairwise distinct if and only if no two records are found at the same place |
| Intersection.AssertionHolds | src/util/helpers.h:142-144 | for any permutation, distinct hits keep the count at most min(neles, pneles), so the assertion never fires |
| Intersection.AssertionHoldsForDistinctKeys | src/util/helpers.h:142-144 | so does a second list with distinct keys |
| Intersection.HarmlessHits | src/util/helpers.h:134-142 | collisions are harmless exactly when every record that is found is found at an equal value |
| Intersection.JoinIsIntersection | src/util/helpers.h:119-151 | for all lists the sorted matches are the positions of the common values if and only if no collision is harmful and no common value occurs twice in either list |
| Duplicates.MatchedExactly | src/util/helpers.h:119-151 | for all lists and keys the values at the matches are the common values if and only if every code of the first list occurs as often in the second as among the common values, these stand in the order of the last places of their codes, and none is overwritten |
| Duplicates.DistinctMatched | src/util/helpers.h:119-151 | for a first list without duplicates that is: no harmful collision and no common value twice |
| Duplicates.HarmlessMatched | src/util/helpers.h:119-151 | without harmful collisions it is: every common value equally often in both lists, in the order of last occurrences |
| Duplicates.JoinCount | src/util/helpers.h:137-146 | a place is matched as often as its code occurs in the second list if it is the last place of the code, and never otherwise |
| Duplicates.IntersectCount | src/util/helpers.h:60-66 | a common value stands in the intersection as often as in the first list |
| Intersection.PickPositions | src/util/helpers.h:60-66 | picking the positions of the common values gives the common values in the first list's order |
| Intersection.IntersectMeans | src/util/helpers.h:60-66 | those are exactly the values in both lists, without repetition |
| CopyOut.SortPrefix | src/util/helpers.h:58-58 | the used part of matches is sorted in place, the rest untouched |
| CopyOut.CreateResult | src/util/helpers.h:50-67 | the result is the elements at the sorted matches, each with its own length |
| Memory.CopyInto | src/ecdh-psi/dh-psi.cpp:54-57 | memcpy at an offset replaces that range and nothing else |
| Sm2.HashDigestZ | src/util/gmCrypto/crypto.cpp:153-300 | the chained updates hash ENTL, ID, a, b, xG, yG, xA, yA in this order, as section 5.5 of GB/T 32918.2-2016 asks; the status is -1 exactly when x does not fit and -2 exactly when only y does not |
| Sm2.ZInputHoldsIdentity | src/util/gmCrypto/crypto.cpp:160-202 | by offsets: the first two octets of the string hashed to Z are the bit length of the identity modulo 2^16, then comes the identity, and the last 64 octets read back as the coordinates of the key |
| Sm2.ZInputHoldsCurve | src/util/gmCrypto/crypto.cpp:164-183 | by offsets: between them stand a = p - 3, b, and the coordinates of a point (xG, yG) on the curve y^2 = x^3 + a*x + b modulo p, for the prime p of GB/T 32918.5 |
| Sm2.HashDigest | src/util/gmCrypto/crypto.cpp:303-375 | the digest is the hash of Z, the hash of that string, followed by the message |
| Sm2.DoSign | src/util/gmCrypto/crypto.cpp:378-522 | the signature is over the digest of identity, recomputed public key and message, with the private and the ephemeral key |
| Sm2.DoVerify | src/util/gmCrypto/crypto.cpp:525-616 | status 0 exactly when the signature is valid for that digest and key, -9 exactly when it is rejected, -5 exactly when the key does not fit |
| Sm2.HonestSignatureAccepted | src/util/gmCrypto/crypto.cpp:617-673 | from the octets received the verifier computes the signer's digest and accepts |
| Sm2.EntlHoldsLength | src/util/gmCrypto/crypto.cpp:160-163 | ENTL holds the bit length of the identity if and only if that has fewer than 8192 octets |
| Sm2.WireWidth | src/util/bigNum/bignum.cpp:518-538 | IppBNStoIpp8u gives 32 octets if and only if 2^224 <= n < 2^256 |
| Sm2.WireRoundTrip | src/util/gmCrypto/crypto.cpp:646-654 | a value of that width survives the way over the wire |
| Sm2.PointRoundTrip | src/util/gmCrypto/crypto.cpp:771-795 | so does a public key of full width |
| Bytes.LittleEndianRoundTrip | src/util/helpers.h:31-40 | a uint32_t sent as it lies in memory is read back as the same number |
| Socket.CSocket.Receive | src/util/socket.h:213-258 | whatever the chunks: when nLen octets are there the buffer begins with them, its rest and what follows in the stream are untouched, nLen is returned and counted modulo 2^64; otherwise the buffer begins with all there are, 0 is returned and nothing is counted |
| Socket.CSocket.ReceiveOnce | src/util/socket.h:219-251 | one turn of the loop puts the next octets of the stream behind those already in the buffer, or finds the stream ended |
| Socket.CSocket.ReceiveAll | src/util/socket.h:216-251 | the loop ends with nLen octets, or with all that the stream still gives |
| Socket.CSocket.Send | src/util/socket.h:260-268 | the octets are counted before they are handed over, all of them in order |
| EventMonitor.NoLostWakeup | src/util/thread.h:203-238 | auto-reset: in every reachable state of any number of threads initial + sets = waits + resets + (1 if set), and while the event is set and a thread is parked some thread is about to look at the flag, a woken one if the mutex is free |
| EventMonitor.AutoResetNeverLoses | src/util/thread.h:203-230 | an auto-reset event never leaves a thread asleep for good while it is set |
| EventMonitor.ManualResetLoses | src/util/thread.h:203-230 | with three or more threads, a reachable state of a manual-reset event that does, from either initial value |
| EventMonitor.LosesExactlyIfManual | src/util/thread.h:183-245 | for any number of threads and either initial value such a state is reachable if and only if the event is manual-reset and three or more threads use it |
| EventMonitor.FewNeverLose | src/util/thread.h:203-230 | with at most two threads a manual-reset event never loses a wake-up |
| EventMonitor.FewKept | src/util/thread.h:203-238 | with at most two threads every step keeps: while the event is set and a thread is parked, the other one is about to signal |
| EventMonitor.MutexKept | src/util/thread.h:203-238 | every step keeps mutual exclusion |
| EventMonitor.CallsDoTheirWork | src/util/thread.h:203-238 | for either kind of event, in every reachable state: a thread about to unlock in Set sees the event set, in Reset not set, in Wait set exactly if it is manual-reset |
| EventMonitor.FlagMoves | src/util/thread.h:203-238 | in every step: the flag goes up only in Set and down only in Reset and, for auto-reset events, in Wait, and each change is counted |
| EventMonitor.SetSets | src/util/thread.h:203-215 | an undisturbed Set on an event that is not set ends with it set, whoever is woken |
| EventMonitor.SetAgain | src/util/thread.h:203-215 | on an event that is set it leaves it set |
| EventMonitor.ResetClears | src/util/thread.h:232-238 | an undisturbed Reset ends with the event not set |
| EventMonitor.WaitTakes | src/util/thread.h:217-230 | an undisturbed Wait on an event that is set returns and leaves it set exactly if it is manual-reset |
| EventMonitor.WaitSleeps | src/util/thread.h:217-224 | on an event that is not set it goes to sleep and frees the mutex |
| EventMonitor.OversleptKept | src/util/thread.h:203-238 | every step keeps a rescuer for the parked threads while the event is set |
| Options.ParseOptions | src/util/parse_options.cpp:20-83 | the argv loop computes the specification of the outcome and of the table, for every command line |
| Options.OnePass | src/util/parse_options.cpp:32-74 | the body of the outer loop, inner loop included, is one step of the specification |
| Options.PassMoves | src/util/parse_options.cpp:30-75 | a pass changes nothing if and only if the argument is an option outside the table; otherwise it ends the call or strictly shortens argv |
| Options.ParseIsTheLoop | src/util/parse_options.cpp:30-75 | repeating passes comes to the outcome and table of the specification, or never to an end where that says so |
| Options.TakeOption | src/util/parse_options.cpp:41-73 | reading one option moves past it and the argument it takes, changes its entry only, and marks it even when a number option takes no argument |
| Options.FindOption | src/util/parse_options.cpp:34-41 | the first entry with the name |
| Options.EveryCommandLineIsRendered | src/util/parse_options.cpp:30-75 | every command line is a list of settings, written out, followed by what is not read |
| Options.RenderedIsRead | src/util/parse_options.cpp:30-75 | any list of settings that is written out is read back, whatever follows |
| Options.ParseRendered | src/util/parse_options.cpp:30-75 | parsing undoes the writing of any list of settings, bare number options included, whatever follows |
| Options.EveryCall | src/util/parse_options.cpp:20-83 | the outcome and the table of every call, read off the command line |
| Options.AppliedMeans | src/util/parse_options.cpp:44-71 | each target holds the last argument given for it, a flag that was read is true, and an entry is marked exactly when it was read or marked before |
| Options.TargetsHold | src/util/parse_options.cpp:41-71 | after every call: a string target is the last argument given, a double what atof makes of it, a number the n with whose decimal digits it begins, a flag that was read is true, and all others are as before |
| Options.LastTokenIsLast | src/util/parse_options.cpp:30-75 | the last argument given is that of the last setting of the entry that has one |
| Options.AtoiDecimal | src/util/parse_options.cpp:51-51 | reading the decimal digits of n gives n |
| Options.WellFormedCommandLine | src/util/parse_options.cpp:77-82 | on a command line that is read to its end the result is 1 exactly when every required option was read or marked before, and then all of them have values exactly when none was only read as a bare number option |
| Options.ReadAndWritten | src/util/parse_options.cpp:44-71 | a target is written exactly when its option is read and not only as a bare number option |
| Options.BareNumberPasses | src/util/parse_options.cpp:46-51 | an input on which the result is 1 and a required number was never written |
| Options.OperandSkipsTheCheck | src/util/parse_options.cpp:32-33 | for every call: a positive result with a required option unmarked occurs if and only if reading stops at an operand, after at least one option, with a required option neither marked before nor read |
| Options.OperandPasses | src/util/parse_options.cpp:32-33 | an input with a positive result and a required option unmarked |
| Options.UnknownOptionLoops | src/util/parse_options.cpp:30-75 | for every command line: the loop never ends if and only if reading stops at an option outside the table |
| Options.EmptyTableLoops | src/util/parse_options.cpp:30-75 | an input on which the loop never ends |
| BigNum.CanonicalUnique | src/util/bigNum/bignum.cpp:31-42 | a trimmed state is determined by its value |
| BigNum.WordCount | src/util/bigNum/bignum.cpp:110-118 | the words that the bit length asks for are exactly the words of the number, zero included |
| BigNum.SumFits | src/util/bigNum/bignum.cpp:167-179 | += reserves enough words for every pair of operands |
| BigNum.ProductFits | src/util/bigNum/bignum.cpp:195-207 | so does *= |
| BigNum.WordProductFits | src/util/bigNum/bignum.cpp:209-219 | so does *= with a word |
| BigNum.DifferenceFitsExactly | src/util/bigNum/bignum.cpp:181-193 | -= reserves too little if and only if the signs differ, the longer bit length is a multiple of 32, and the sum of the magnitudes carries out of it |
| BigNum.DifferenceCanOverflow | src/util/bigNum/bignum.cpp:187-190 | an input on which it does not |
| BigNumbers.BigNumber.Copy | src/util/bigNum/bignum.cpp:110-118 | the copy has the same value |
| BigNumbers.BigNumber.Assign | src/util/bigNum/bignum.cpp:152-165 | re-creating the number from the words that the bit length asks for keeps it, self-assignment included |
| BigNumbers.BigNumber.AddAssign | src/util/bigNum/bignum.cpp:167-179 | exact sum for all operands, also of a number with itself |
| BigNumbers.BigNumber.SubAssign | src/util/bigNum/bignum.cpp:181-193 | exact difference whenever it fits |
| BigNumbers.BigNumber.MulAssign | src/util/bigNum/bignum.cpp:195-207 | exact product for all operands |
| BigNumbers.BigNumber.MulWordAssign | src/util/bigNum/bignum.cpp:209-219 | exact product with a word |
| BigNumbers.BigNumber.Compare | src/util/bigNum/bignum.cpp:320-327 | -1, 0 or 1 exactly as the number is less than, equal to or greater than the other, for operands of the same sign and whenever the difference fits |
| BigNumbers.BigNumber.Modulo | src/util/bigNum/bignum.cpp:268-281 | the remainder in [0, m) for positive m, a copy of the modulus otherwise |
| BigNumbers.BigNumber.InverseAdd | src/util/bigNum/bignum.cpp:283-290 | the additive inverse modulo a positive m, in [0, m); 0 for other moduli |
| BigNumbers.BigNumber.ModAdd | src/util/bigNum/bignum.cpp:299-303 | the sum modulo a positive m, in [0, m); a copy of other moduli |
| BigNumbers.BigNumber.ModSub | src/util/bigNum/bignum.cpp:305-309 | the difference modulo a positive m, in [0, m); a copy of other moduli |
| BigNumbers.BigNumber.ModMul | src/util/bigNum/bignum.cpp:311-315 | the product modulo a positive m, in [0, m); a copy of other moduli |
| BigNumbers.BigNumber.FromString | src/util/bigNum/bignum.cpp:75-108 | the value of the literal by Horner's rule, sign included |
| BigNumbers.BigNumber.Num2Vec | src/util/bigNum/bignum.cpp:410-420 | the vector is the words of the number |
| BigNumbers.BigNumber.LSB | src/util/bigNum/bignum.cpp:346-372 | 2^LSB divides a non-zero number with an odd quotient |
| BigNumbers.BigNumber.MSB | src/util/bigNum/bignum.cpp:374-400 | 2^MSB <= abs(x) < 2^(MSB+1) for non-zero x |
| BigNumbers.BigNumber.DwordSize | src/util/bigNum/bignum.h:94-95 | the number of words, for zero too |
| BigNumBits.LowestSetBit | src/util/bigNum/bignum.cpp:354-371 | the scan over words and bits finds the lowest set bit |
| BigNumBits.TrailingZeros | src/util/bigNum/bignum.cpp:363-367 | the inner loop splits off the power of two |
| BigNumBits.HighestSetBit | src/util/bigNum/bignum.cpp:382-399 | the scan from the top finds the highest set bit |
| BigNumBits.LeadingZeros | src/util/bigNum/bignum.cpp:391-395 | the inner loop, shifts within 32 bits |
| BigNumBits.HighestBitIsBitLen | src/util/bigNum/bignum.h:94-94 | BitSize of a non-zero number is the bit length |
| BigNumBits.BitMeans | src/util/bigNum/bignum.cpp:402-405 | Bit over the vector is bit n of the magnitude |
| ModularLaws.AddAssociates | src/util/bigNum/bignum.cpp:299-303 | ModAdd is associative |
| ModularLaws.MulAssociates | src/util/bigNum/bignum.cpp:311-315 | ModMul is associative |
| ModularLaws.MulDistributes | src/util/bigNum/bignum.cpp:299-315 | ModMul distributes over ModAdd |
| ModularLaws.AddInverse | src/util/bigNum/bignum.cpp:283-303 | ModAdd(b, InverseAdd(b)) = 0 |
| ModularLaws.SubIsDifference | src/util/bigNum/bignum.cpp:305-309 | adding the inverse is subtracting modulo m |
| ModularLaws.SubUndoesAdd | src/util/bigNum/bignum.cpp:299-309 | ModSub(ModAdd(a, b), b) = a mod m |
| BigNumText.Num2Hex | src/util/bigNum/bignum.cpp:422-443 | the nested loop prints sign or blank, 0x, and eight hexadecimal digits a word, whose value is the magnitude |
| BigNumText.WordDigits | src/util/bigNum/bignum.cpp:437-441 | the inner loop prints the eight digits of a word from the top |
| BigNumText.HornerOfDigits | src/util/bigNum/bignum.cpp:98-104 | Horner's rule on the digits of n gives n |
| BigNumText.PrintReadRoundTrip | src/util/bigNum/bignum.cpp:75-108 | reading the printed text without its blank gives every number back, signs and zero included |
| BigNumText.ReadPrintRoundTrip | src/util/bigNum/bignum.cpp:422-443 | printing what was read from a printed number reproduces the text |
| BigNumText.DigitsOfHorner | src/util/bigNum/bignum.cpp:98-104 | for every upper-case literal: the digits of the number that is read are the literal |
| BigNumText.DecimalRead | src/util/bigNum/bignum.cpp:90-107 | reading the decimal digits of n, with or without a sign, gives n or -n |
| BigNumText.DigitOfIsPlace | src/util/bigNum/bignum.cpp:73-101 | a digit counts its place in the list of digits, and sixteen when it is not there |
| BigNumText.PrintedReadsBackOnlyIfNegative | src/util/bigNum/bignum.cpp:431-431 | with the blank left in, a number reads back as itself if and only if it is negative |
| BigNumText.LowerCaseMisread | src/util/bigNum/bignum.cpp:73-103 | a hexadecimal literal with digits of either case, signed or not, is read at its value if and only if it has no lower-case digit |
| BigNumText.ReadsTooMuch | src/util/bigNum/bignum.cpp:98-104 | a lower-case digit counts sixteen, so the value read is never less than the value meant |
| Example.AssumptionsCanBeMet | src/ecdh-psi/dh-psi.cpp:43-101 | an instance, with a signature that depends on the digest, in which all assumptions of the main results hold together |
| Example.AlteredListStops | src/util/gmCrypto/crypto.cpp:660-665 | in that instance a list whose last octet was altered after it was signed makes whoever receives it stop |
| Example.CollisionLosesElement | src/util/helpers.h:134-142 | a complete honest run whose keys collide harmfully: the client returns a private element twice where the intersection is another one |
| Example.RepetitionAborts | src/util/helpers.h:142-144 | a complete honest run, for every hash function, in which a repeated common element makes the assertion fail |

## Left out

- IPP (curve arithmetic, SM3, the SM2 equations, the PRNG, `ippsModInv_BN` and so `InverseMul`) and the internals of GLib: foreign code, present as parameters and contracts.
- Sm2.HashDigestZ: the statuses -3 to -14 of allocations and library calls that fail are not modelled, only those of coordinates that do not fit 32 octets.
- Sm2.HashDigest: likewise the statuses -2 to -7.
- Sm2.DoSign: likewise every status but 0 and -11.
- Sm2.DoVerify: likewise every status but 0, -5 and -9.
- The error returns of `dh_psi` and the server's return value, which the code leaves unset: only the client's outcome is defined.
- Socket set-up, `EAGAIN`, other errno values, short writes and the Windows branches: streams are reliable and blocking.
- The counters and lengths of the step system are unbounded; below 2^25 elements they stay far from their 32 and 64 bits. `Socket` wraps its counters at 2^64.
- The threads of one party share no data apart from the socket, so a thread's work between two socket operations is one step.
- Memory behind a big number that has fewer than 32 octets: `Sm2.Wire32` shows zeros there, and the results ask for full width.
- HashJoin.CodeAt: of records shorter than eight octets the other octets of the key stay zero; the hash is taken of the octets that were copied.
- `tmpval[0]` reads eight octets of a four-octet cell and keeps the lower half; the model reads the cell.
- DhPsi.HashedPoint: gives the zero point where no header works; the source would loop for ever there, and the results assume that some header works.
- CopyOut.SortPrefix: stands for `std::sort`, whose algorithm is not part of this repository; it stores the sorted list element by element.
- Intersection.SortedMatches: uses the identity permutation that `dh_psi` passes; other permutations are covered by HashJoin.FindIntersection and Intersection.AssertionHolds.
- The removal of duplicates: no member of the core does it, and `read_elements` in `psi_demo.cpp` does not either; the theorems say what then happens.
- Options.ParseOptions: returns LoopsForever where a pass changes nothing and the source repeats it for ever, and ReadsNull where the source reads behind the last argument; targets are not aliased, and numbers of atoi are unbounded.
- Deadlock.InTurnStuckExactly: is about channels of positive capacity; a socket buffer has one.
- Deadlock.ThreadedNeverStuck: likewise.
- BigNumbers.BigNumber.FromString: a string holds the characters before its terminator, so the literal is the text before the terminator; the words reserved beforehand are not modelled, since the assignment of zero replaces them.
- BigNumbers.BigNumber.Compare: says nothing when the difference does not fit, because the contents are then unspecified.
- `/=`, `%=`, `tBN`, `toIpp8u`, `IsOdd` and the relational operators on top of `compare`: easy members or the same as those modelled.
- `psi_demo.cpp` beyond its call of `exchange_information`, `python/`, `emailgen.py`, sample data: input, output and user interface.
- Secrecy and the quality of randomness: scalars and keys are parameters.
