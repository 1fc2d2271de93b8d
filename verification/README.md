# p2ptap: a verified model of its coding, reassembly and relay core

p2ptap is a peer-to-peer layer-2 VPN.  Large frames are cut into fragments, striped
over several paths with Reed-Solomon parity, and put together again by the receiver;
boot nodes relay frames between clients that cannot reach each other.  This project
models those parts in Dafny and proves what they are for.  Every statement below is a
theorem about the model.

How the pieces build on each other:

- **Erasure code** (`Common`, `GaloisField`, `GaloisTables`, `LinearAlgebra`, `Inversion`,
  `Polynomials`, `Generator`, `ErasureCode`, `ReedSolomon`, `Codec`).  The field is defined as polynomials
  modulo 0x11d, without tables; the start-up loop, the table-driven product, inverse and
  power are proved against it.  In-place Gauss-Jordan inversion keeps the set of solutions
  of the system it started from, which gives a two-sided inverse on success and a kernel
  vector on failure.  Root counting of polynomials makes any k Vandermonde rows, hence any
  k generator rows, independent, so reconstruction never fails on a singular matrix and
  restores every shard.  A code word is described without matrices as well: its bytes are
  the values of one polynomial at the points 1, 2, 3, ...
- **Fragments** (`BigEndian`, `FragmentWire`, `Parity`, `Fragmenter`, `Reassembly`,
  `ReassemblyRuns`, `FragReassembler`, `FragmentExchange`).  The sender's loops, the wire
  format, the receiver's maps and counters, whole runs of the receiver with hostile fragments,
  expiry, eviction and reaping, and the round trip from sender to receiver.
- **Boot relay** (`RelayQueue`, `RelayRegistry`, `RelayMesh`, `DiscoveryHub`).  Concurrent
  protocols as atomic steps; the theorems are over every interleaving.
- **ACL** (`PacketFacts`, `AccessControl`), **stream framing** (`Framing`) and **rate
  limiting** (`RateLimiter`).

Modelling choices:

- Bytes are 8-bit vectors; Go's `uint16` and `uint32` conversions truncate explicitly.
- Time is an integer (reassembly) or a real number (rate limiting), read once per call that
  holds the lock, and never goes back.  Token counts are real numbers, not floating point.
- `Packer.Pack` is taken to preserve a fragment's payload.  Peer IDs are strings.
- Case folding, CIDR parsing and CIDR membership are arbitrary functions (`AccessControl.Lib`).
- `maxSealedFrameSize` is 65551 and `maxBootRelayEnvelope` 66000, as in the source.
- A transport may take any part of what it is given and report anything; a map iteration may
  visit keys in any order, so an eviction takes any group with the earliest deadline.
- A group is forgotten once its frame is emitted, so late fragments can open a second group
  and emit the same frame again.  The theorems bound that (`ReassemblyRuns.EmissionsCost`)
  and do not claim at most one emission.

Where the code and its comments differ, the model follows the code:

- The comment at pkg/fec/fec.go:45 names the AES polynomial; the code uses 0x11d, AES uses 0x11b.
- pkg/node/acl.go:264 tests bit 15 of the fragment word; the more-fragments flag of section 3.1
  of RFC 791 is bit 13.  So a first fragment can show its port (`PacketFacts.FirstFragmentShowsPort`);
  `PacketFacts.FragmentTestExactIff` says for which packets the test is the intended one.
- A plain fragment of 65536 bytes or more cannot be received, because its length travels in 16
  bits; `Fragmenter.PlainUnderstoodIff` gives the exact condition.  The sizes the node configures
  stay below it.
- A rule with an empty action allows on the direct path and denies at a relay hop
  (`AccessControl.TransitDecidesAlike`); configuration validation rejects such rules.

## Model

| member | source | states |
|---|---|---|
| GaloisField.MulExp | pkg/fec/fec.go:45-65 | powers of the generator multiply by adding exponents |
| GaloisField.GeneratorPowers | pkg/fec/fec.go:45-60 | the powers of 2 are the bits 1 to 128 and then 0x1d, which fixes the polynomial 0x11d |
| GaloisField.OrderIs255 | pkg/fec/fec.go:51-60 | the generator 2 has order exactly 255 modulo 0x11d, so the start-up loop visits no element twice |
| GaloisField.ExpOnto | pkg/fec/fec.go:51-60 | every non-zero byte is a power of the generator, so the log table has no gap |
| GaloisField.MulCommutes | pkg/fec/fec.go:67-73 | the polynomial product modulo 0x11d commutes |
| GaloisField.MulAssociates | pkg/fec/fec.go:67-73 | it associates |
| GaloisField.MulAddRight | pkg/fec/fec.go:67-73 | it distributes over exclusive or |
| GaloisField.MulNonZero | pkg/fec/fec.go:67-73 | it has no zero divisors |
| GaloisTables.BuildTables | pkg/fec/fec.go:51-65 | the loops fill gfExp with the powers of 2, doubled, and gfLog with their discrete logarithms |
| GaloisTables.GfMul | pkg/fec/fec.go:68-73 | the table lookup is the polynomial product modulo 0x11d |
| GaloisTables.GfInv | pkg/fec/fec.go:76-78 | the table lookup is the multiplicative inverse |
| GaloisTables.GfPow | pkg/fec/fec.go:81-89 | the table lookup with its modulo is repeated multiplication, zero base and zero exponent included |
| GaloisTables.NewMulTable | pkg/fec/fec.go:101-111 | the 256 entries are the products with the constant, zero constant included |
| LinearAlgebra.DotScaled | pkg/fec/fec.go:368-374 | scaling a row scales its product with every vector |
| LinearAlgebra.DotAddScaled | pkg/fec/fec.go:383-386 | adding a multiple of a row adds that multiple of its product |
| LinearAlgebra.SolvesSwap | pkg/fec/fec.go:365-366 | swapping rows on both sides keeps every solution |
| LinearAlgebra.SolvesScale | pkg/fec/fec.go:368-374 | scaling by a non-zero factor on both sides keeps every solution and adds none |
| LinearAlgebra.SolvesAdd | pkg/fec/fec.go:375-387 | adding a multiple of another row on both sides keeps every solution and adds none |
| Inversion.NoPivot | pkg/fec/fec.go:355-364 | when a column has no pivot, the original matrix maps a non-zero vector to zero |
| Inversion.InverseProduct | pkg/fec/fec.go:342-390 | what invert returns, times the matrix, is the identity on either side |
| Inversion.InverseExists | pkg/fec/fec.go:354-388 | elimination runs through on every matrix with a trivial kernel |
| Inversion.InverseUnique | pkg/fec/fec.go:342-343 | the inverse is unique, so encoder and decoder compute the same generator |
| Inversion.ScaleRows | pkg/fec/fec.go:369-374 | the in-place loop scales one row of both matrices and touches no other |
| Inversion.EliminateRow | pkg/fec/fec.go:379-386 | the in-place loop adds a multiple of the pivot row to one row of both matrices |
| Inversion.ReduceColumn | pkg/fec/fec.go:365-387 | one round keeps the solutions and makes one more column a unit vector |
| Inversion.Invert | pkg/fec/fec.go:344-390 | ErrInvalidLayout exactly on a non-square matrix; otherwise success exactly when the kernel is trivial, with the inverse, and ErrSingular only with a kernel vector |
| Polynomials.DivisionIdentity | pkg/fec/fec.go:8-17 | p(x) + p(b) is (x + b) times the synthetic quotient |
| Polynomials.RootsForceZero | pkg/fec/fec.go:14-19 | a polynomial with as many distinct roots as coefficients is zero |
| Polynomials.PowerRowEvaluates | pkg/fec/fec.go:147-155 | a Vandermonde row applied to coefficients evaluates the polynomial |
| Generator.VandermondeRegular | pkg/fec/fec.go:147-163 | any k Vandermonde rows with distinct bases form a matrix with trivial kernel |
| Generator.Systematic | pkg/fec/fec.go:14-15 | the first k generator rows are the identity, for every k up to 255 |
| Generator.AnyRowsIndependent | pkg/fec/fec.go:15-17 | any k distinct generator rows are linearly independent |
| ErasureCode.DataShard | pkg/fec/fec.go:4-6 | shard i of a code word is data shard i |
| ErasureCode.RebuiltDataCorrect | pkg/fec/fec.go:289-318 | decoding any k survivors of an encoded data set returns the data at every byte |
| ErasureCode.RebuiltCorrect | pkg/fec/fec.go:240-247 | every erasure that leaves k shards is repaired exactly, data and parity |
| ReedSolomon.EncodedIsCodeWord | pkg/fec/fec.go:8-19 | at every byte position, data and parity are the values at 1, 2, ..., n of one polynomial with k coefficients |
| ReedSolomon.CodeWordUnique | pkg/fec/fec.go:8-19 | a code word is determined by its first k shards |
| ReedSolomon.CodeWordIsEncoded | pkg/fec/fec.go:8-19 | every code word is what the encoder specifies for its first k shards |
| ReedSolomon.GenRowClosedForm | pkg/fec/fec.go:147-175 | entry i of generator row j times the product over l != i of (i+1)+(l+1) is the product over l != i of (j+1)+(l+1), for all k, i and j |
| ReedSolomon.FirstParityRow | pkg/fec/fec.go:147-175 | the parity row of two data shards is [244, 245] |
| ErasureCode.AvailableExactly | pkg/fec/fec.go:257-269 | the survivors are exactly the shards that are present |
| Codec.BuildVandermonde | pkg/fec/fec.go:147-155 | entry i of row j is the i-th power of the byte j+1 |
| Codec.MultiplyRow | pkg/fec/fec.go:165-175 | the accumulation loop is row times matrix |
| Codec.BuildEncoder | pkg/fec/fec.go:146-185 | the built matrix is the systematic generator and each table multiplies by its coefficient; the inversion cannot fail |
| Codec.XorTable | pkg/fec/fec.go:231-233 | one pass adds constant times source to the output, byte by byte |
| Codec.CombineWithTables | pkg/fec/fec.go:223-235 | skipping zero coefficients and using tables gives the plain product |
| Codec.CombineTransient | pkg/fec/fec.go:302-316 | the same with tables built on the way |
| Codec.ScanShards | pkg/fec/fec.go:257-269 | the shards present, their common length, or a length mismatch, exactly |
| Codec.RepairsErasures | pkg/fec/fec.go:240-247 | for every data set, an erasure of its code word that leaves k shards is recoverable and rebuilt to that code word |
| Codec.Fec.constructor | pkg/fec/fec.go:46-65 | a fresh package has valid tables and an empty cache |
| Codec.Fec.CodecFor | pkg/fec/fec.go:134-195 | ErrTooManyShards exactly outside 1<=k, 0<=r, k+r<=255; otherwise the systematic encoder of (k, r), cached or not |
| Codec.Fec.Encode | pkg/fec/fec.go:208-238 | succeeds exactly for 1<=k, 0<=r, k+r<=255 and equal lengths, each error exactly; data and parity together are then a code word, and parity shard j is the plain product with generator row k+j |
| Codec.Fec.Reconstruct | pkg/fec/fec.go:248-340 | ErrInvalidLayout and ErrNotEnoughShards exactly when due, with nothing changed; never singular; from any k shards of any code word, all k+r shards of it |
| Codec.DecodeData | pkg/fec/fec.go:289-318 | fills exactly the missing data shards from the first k survivors |
| Codec.EncodeParity | pkg/fec/fec.go:319-338 | fills exactly the missing parity shards from the completed data |
| BigEndian.Be32Put32 | pkg/node/frag.go:212-230 | reading back a written 32-bit field gives the value modulo 2^32 |
| BigEndian.ByteOrder | pkg/node/frag.go:212-218 | fields are written most significant byte first |
| BigEndian.Put32Be32 | pkg/node/frag.go:212-230 | writing what was read gives the bytes back |
| FragmentWire.ParseFragHeader | pkg/node/frag.go:483-535 | whatever is accepted has a consistent layout: counts in range, exact shard lengths, a frame within the byte limit |
| FragmentWire.ParsePlainEnvelope | pkg/node/frag.go:212-218 | a plain envelope parses back to its shard exactly when count and length fit the header, and is rejected otherwise |
| FragmentWire.ParseFecEnvelope | pkg/node/frag.go:221-230 | a parity-carrying envelope with an acceptable layout parses back to it |
| FragmentWire.RecognisedIff | pkg/node/frag.go:455-466 | a payload is a fragment exactly when it has 12 bytes and starts with F5 A1, or has 18 bytes and starts with F5 A2 |
| FragmentWire.PlainBytes | pkg/node/frag.go:212-218 | the plain envelope byte by byte |
| FragmentWire.PlainParsedIsEnvelope | pkg/node/frag.go:483-505 | whatever parses as a plain fragment is the plain envelope of what was parsed |
| FragmentWire.FecParsedIsEnvelope | pkg/node/frag.go:506-533 | whatever parses as a parity-carrying fragment is the envelope of what was parsed |
| Parity.SurvivesIff | pkg/node/frag.go:402-408 | a round-robin stripe survives any one path exactly when dataParts <= (paths-1)*parity |
| Parity.FecParityFor | pkg/node/frag.go:409-431 | the least parity of at least a quarter of the data shards that survives any one path, exactly the rounded-up quarter with one path; -1 exactly when that needs more than 255 shards |
| Fragmenter.JoinAllChunks | pkg/node/frag.go:262-280 | cutting a frame and joining the chunks is the identity |
| Fragmenter.EnvelopeParses | pkg/node/frag.go:212-230 | every envelope of a sent frame parses back to its shard and sequence number |
| Fragmenter.SentPlainOk | pkg/node/frag.go:248-282 | plain fragments of 256 bytes or more of a frame up to 65551 are receivable exactly when they are shorter than 65536 |
| Fragmenter.PlainUnderstoodIff | pkg/node/frag.go:212-218 | all plain fragments are understood exactly when the fragment size is below 65536 |
| Fragmenter.FirstFragmentRejected | pkg/node/frag.go:212-218 | a frame of 65537 bytes in fragments of 65536 bytes: the receiver rejects the first one |
| Fragmenter.SentStripedOk | pkg/node/frag.go:320-390 | striped fragments with parity are receivable |
| Fragmenter.FragmentSender.NextOrigSeq | pkg/node/frag.go:169-171 | the sequence number grows by one modulo 2^32 |
| Fragmenter.FragmentSender.FragmentFrame | pkg/node/frag.go:248-282 | the frame unchanged when it fits or fragmentation is off, otherwise exactly its plain fragments under a new sequence number |
| Fragmenter.FragmentSender.FragmentStriped | pkg/node/frag.go:320-390 | the data chunks and Reed-Solomon parity of the zero-padded data, or plain fragments when no parity fits |
| Fragmenter.PolicySize | pkg/node/frag.go:292-304 | a stripe is cut at a positive maxPayload up to 16 KiB, else at 16 KiB; other frames at maxPayload, or the default without one |
| Fragmenter.FragmentSender.FragmentForPaths | pkg/node/frag.go:292-304 | fragments exactly the frames above the policy's size, with parity exactly for two paths or more, a frame over 16 KiB and a parity that fits; the result is receivable exactly when that size is below 65536, as every stripe is, and with parity survives any one path |
| Fragmenter.PadChunks | pkg/node/frag.go:344-356 | equal-length data shards, the tail zero-padded |
| Reassembly.StoreKeeps | pkg/node/frag.go:630-652 | storing keeps a group's counters exact; it is complete exactly at dataParts shards |
| Reassembly.FecBytes | pkg/node/frag.go:602-609 | an incomplete parity group stores less than one frame, whatever its own cap allows |
| Reassembly.AcceptKeeps | pkg/node/frag.go:551-659 | every fragment, hostile or not, keeps each group sound, 64 groups a peer and 1024 in all |
| Reassembly.MemoryBound | pkg/node/frag.go:78-98 | a sound table buffers at most 1024 * 65551 bytes |
| Reassembly.AssembleCorrect | pkg/node/frag.go:664-714 | a group holding enough shards of one sent frame assembles to that frame, in either branch |
| ReassemblyRuns.StepKeeps | pkg/node/frag.go:551-766 | each call, reassemble or reap, keeps the table sound |
| ReassemblyRuns.ReachableOk | pkg/node/frag.go:551-766 | in every reachable table a live group has got = stored shards < dataParts and size = stored bytes <= one frame, and both quotas hold |
| ReassemblyRuns.ReachableMemory | pkg/node/frag.go:78-98 | in every reachable table at most 1024 groups, 64 of any peer, and 1024 * 65551 bytes |
| ReassemblyRuns.OtherStep | pkg/node/frag.go:101-112 | an event of another peer, channel, epoch or sequence number leaves a group alone or removes it whole |
| ReassemblyRuns.ReapExact | pkg/node/frag.go:753-766 | after a reap exactly the groups whose deadline has not passed are there, unchanged |
| ReassemblyRuns.LiveGroupKept | pkg/node/frag.go:624-652 | a live group ignores a fragment of another shape and a shard it already holds |
| ReassemblyRuns.HonestStep | pkg/node/frag.go:572-658 | one honest fragment is dropped, adds exactly its slot, or completes the frame |
| ReassemblyRuns.NoCorruption | pkg/node/frag.go:101-117 | in any run, if all fragments carrying a key came from one frame, every emission under that key is that frame |
| ReassemblyRuns.EmissionsCost | pkg/node/frag.go:551-659 | m emissions under one key take at least m * dataParts fragments |
| ReassemblyRuns.DeliveredExactly | pkg/node/frag.go:537-551 | undisturbed, in any order, with duplicates and other traffic between, the frame is emitted exactly at the dataParts-th distinct shard |
| ReassemblyRuns.QuietUndisturbed | pkg/node/frag.go:572-600 | with fewer than 1024 groups, fewer than 64 of the peer when it opens one, and the deadline not past, nothing disturbs a group; reaps and other traffic included |
| ReassemblyRuns.DeadlineStep | pkg/node/frag.go:572-621 | a fragment joins the live group of its key, or opens one that lives five seconds |
| ReassemblyRuns.EmittedInTime | pkg/node/frag.go:65-77 | in any run an emitted frame was assembled from dataParts distinct fragments that came within five seconds |
| ReassemblyRuns.FeedDelivers | pkg/node/frag.go:537-551 | for every sent frame and every order of its shards, with duplicates, within five seconds at an empty receiver: the frame comes out byte for byte exactly at the dataParts-th distinct shard |
| ReassemblyRuns.PathLossDelivered | pkg/node/frag.go:306-319 | if one whole path delivers nothing and the other paths' shards arrive undisturbed, the striped frame is emitted |
| FragReassembler.FragReassembler.DropGroupLocked | pkg/node/frag.go:718-727 | removes one group and its quota slot, keeping the counters exact with no zero entries |
| FragReassembler.FragReassembler.EvictOldestGroup | pkg/node/frag.go:732-750 | removes a group with the earliest deadline and its quota slot |
| FragReassembler.FragReassembler.ReapExpired | pkg/node/frag.go:753-766 | keeps exactly the groups whose deadline is not before now, unchanged, and keeps the counters exact |
| FragReassembler.FragReassembler.AssembleLocked | pkg/node/frag.go:664-714 | the loops and the codec compute the specified frame |
| FragReassembler.FragReassembler.OpenGroup | pkg/node/frag.go:587-623 | evicts first at the global limit, then refuses at the peer's quota, otherwise opens an empty group |
| FragReassembler.FragReassembler.DeliverLocked | pkg/node/frag.go:624-658 | shape check, store, abort, completion and release as specified |
| FragReassembler.FragReassembler.AcceptLocked | pkg/node/frag.go:569-658 | the locked part is one keyed step: expiry, room, quota, store, completion |
| FragReassembler.FragReassembler.Reassemble | pkg/node/frag.go:551-659 | complete with nothing changed for a payload that is too short or starts with neither magic; otherwise exactly one step of the run model, complete exactly on an emission; only groups of the same peer, epoch and channel change, but for the eviction of an oldest one at 1024 groups; a new group lives five seconds |
| FragmentExchange.ReceiveAll | pkg/node/frag.go:537-659 | feeding the fragments of any sent frame, in any order with loss and duplicates, to an empty receiver returns the frame exactly when dataParts distinct ones arrive |
| FragmentExchange.Exchange | pkg/node/fec_path_loss_test.go:10-22 | the frame given to the sending class comes out of the receiving class byte for byte exactly when dataParts distinct fragments arrive; with parity, the fragments of all paths but one suffice; an unfragmented frame that starts with neither magic passes through |
| RelayQueue.RunOk | cmd/p2ptap-boot/main.go:1052-1130 | byte accounting, queue order and stream contents hold after any interleaving of calls, writer, failures and stop |
| RelayQueue.PendingBound | cmd/p2ptap-boot/main.go:1060-1064 | queued bytes never exceed 1 MiB, and pendingBytes is exactly queued plus in-flight plus reserved bytes |
| RelayQueue.ReadsAcceptedPrefix | cmd/p2ptap-boot/main.go:1091-1116 | the frames readFrame gets from the stream are exactly a prefix of the accepted frames in queue order, through partial and failed writes |
| RelayQueue.ReserveExactly | cmd/p2ptap-boot/main.go:1060-1064 | bytes are admitted exactly while the counter stays within 1 MiB |
| RelayQueue.PlaceExactly | cmd/p2ptap-boot/main.go:1065-1088 | a frame joins the queue exactly when it has at most 66000 bytes, one of 512 places is free, and the stream runs or the send wins |
| RelayQueue.EnqueueAccepts | cmd/p2ptap-boot/main.go:1052-1088 | on a running stream with room, a call of enqueue appends its frame |
| RelayQueue.WriterSends | cmd/p2ptap-boot/main.go:1091-1112 | a full write puts the oldest queued frame on the stream and releases its bytes |
| RelayQueue.FailureRetires | cmd/p2ptap-boot/main.go:1097-1105 | a failed or short write ends the writer and stops the stream |
| RelayQueue.IdleMeansDelivered | cmd/p2ptap-boot/main.go:1091-1116 | with the writer idle and the queue empty, readFrame gets every frame accepted so far |
| RelayRegistry.NextKeeps | cmd/p2ptap-boot/main.go:1251-1293 | each locked update leaves every stream mapped, or stopped or owed a stop, never both |
| RelayRegistry.NoStoppedStreamMapped | cmd/p2ptap-boot/main.go:1264-1275 | no stopped stream is in either map, in any interleaving |
| RelayRegistry.QuiescentExact | cmd/p2ptap-boot/main.go:1279-1293 | once no stop is owed, the running streams are exactly the mapped ones |
| RelayRegistry.OnlyItsOwnTeardown | cmd/p2ptap-boot/main.go:1424-1464 | a mapped stream leaves its slot exactly when its own handler or writer ends it, a newer one is registered there, or its client is removed |
| RelayRegistry.StaleEndHarmless | cmd/p2ptap-boot/main.go:1424-1464 | the teardown or retirement of any other stream, an earlier one of the same peer included, leaves a mapped stream mapped |
| RelayRegistry.StaysMapped | cmd/p2ptap-boot/main.go:1443-1453 | from its registration on a stream stays mapped through any interleaving that neither ends it nor takes its slot |
| RelayMesh.NeverFlooded | cmd/p2ptap-boot/main.go:1560-1583 | frames from the backbone and self-addressed frames are never put on the backbone |
| RelayMesh.SourceAccepted | cmd/p2ptap-boot/main.go:1495-1525 | in open mode the source must be the sending client; with keys on, a member of the network the frame names |
| RelayMesh.RouteExactly | cmd/p2ptap-boot/main.go:1526-1621 | delivery, buffering and flooding, each exactly by its condition, for every boot and frame |
| RelayMesh.ReceiveReachesNone | cmd/p2ptap-boot/main.go:1560-1573 | whatever state a boot is in, a frame it gets from the backbone puts no copy on the backbone |
| RelayMesh.AtMostOnePerBoot | cmd/p2ptap-boot/main.go:1469-1621 | in any run of N boots, forwarding whatever route decides, a frame is routed at most N times and at most once at each boot, which delivers or buffers at most one copy |
| RelayMesh.BackboneBound | cmd/p2ptap-boot/main.go:1593-1621 | in any run a frame causes at most N-1 enqueues on the backbone, counted over clients' and backbone frames alike |
| RelayMesh.CopyWaits | cmd/p2ptap-boot/main.go:1603-1621 | a flooded frame stays on its way to every mesh peer until it is received or lost |
| RelayMesh.DeliveredAcross | cmd/p2ptap-boot/main.go:1526-1558 | received at the boot where its destination is registered in its network, it is delivered there |
| RelayMesh.DeliveredWithinNetwork | cmd/p2ptap-boot/main.go:1512-1541 | across the backbone, a registered client only gets frames whose source was authenticated in that client's network |
| DiscoveryHub.FanoutTargets | cmd/p2ptap-boot/main.go:396-420 | the snapshot holds exactly the listeners other than the excluded one that are backbone boots, unless those are skipped, or in the frame's network, if it has one |
| DiscoveryHub.StampIsOwnNetwork | cmd/p2ptap-boot/main.go:4249-4274 | whatever NetID a client claims, its frame is stamped with and filtered by its own network, or dropped if it has none |
| DiscoveryHub.CrossingEnds | cmd/p2ptap-boot/main.go:375-381 | a frame from the backbone is never sent back to it |
| DiscoveryHub.NetworksIsolated | cmd/p2ptap-boot/main.go:4249-4299 | over any run of any number of boots with keys on, whatever NetIDs clients claim, a client's discovery frame is written only to backbone boots or to listeners in the network it was published from |
| DiscoveryHub.PublishReaches | cmd/p2ptap-boot/main.go:4249-4299 | what an authenticated client publishes is written to every other member of its network at its boot and to every backbone listener |
| DiscoveryHub.HeardAcross | cmd/p2ptap-boot/main.go:4452-4478 | over any run, what crosses to another boot is written there to every member of the publisher's network |
| DiscoveryHub.OpenPublishReaches | cmd/p2ptap-boot/main.go:4238-4251 | in open mode every other listener gets it |
| PacketFacts.ParseIPv6Transport | pkg/node/acl.go:20-67 | the loop is the walk of at most eight headers |
| PacketFacts.IPv6PortIsReal | pkg/node/acl.go:14-19 | a port is reported exactly when the walk ends on a TCP or UDP header within the hop limit, and it is that header's |
| PacketFacts.ChainWalk | pkg/node/acl.go:20-67 | the walk passes any extension headers up to its limit and gives up beyond it |
| PacketFacts.IPv6ReadBack | pkg/node/acl.go:283-293 | an IPv6 frame built from its fields and up to seven extension headers reads back: destination address, protocol, port; a fragment header hides the port |
| PacketFacts.IPv4ReadBack | pkg/node/acl.go:236-279 | an unfragmented TCP or UDP frame built from its fields, options included, reads back: destination address, protocol, port |
| PacketFacts.IPv4Others | pkg/node/acl.go:265-282 | other IPv4 protocols show no port, ICMP its name |
| PacketFacts.NoFacts | pkg/node/acl.go:223-301 | frames too short or of another type have no facts |
| PacketFacts.ContinuationShowsNoPort | pkg/node/acl.go:257-263 | an IPv4 fragment with a non-zero offset shows no port |
| PacketFacts.OtherFlagsIgnored | pkg/node/acl.go:263-279 | the facts do not depend on the two lower flag bits |
| PacketFacts.FragmentTestExactIff | pkg/node/acl.go:263-279 | the port is shown exactly for unfragmented packets if and only if there is none to show, the offset is set, or the more-fragments flag equals the reserved bit |
| PacketFacts.FirstFragmentShowsPort | pkg/node/acl.go:263-279 | a concrete TCP packet with more-fragments set that shows its port |
| AccessControl.ParseACLPort | pkg/node/acl.go:195-209 | accepted bounds are ordered and non-negative; a single port is at most 65535 |
| AccessControl.PortReads | pkg/node/acl.go:203-208 | a decimal port reads as that port, and is malformed above 65535 |
| AccessControl.RangeReads | pkg/node/acl.go:196-202 | a decimal range reads as its bounds, and is malformed when reversed |
| AccessControl.SignedPort | pkg/node/acl.go:195-209 | a plus sign changes nothing, a leading dash is malformed |
| AccessControl.MalformedPort | pkg/node/acl.go:195-209 | text with any character other than digits and signs is malformed |
| AccessControl.CompileRule | pkg/node/acl.go:142-171 | for every packet, peer and direction the compiled rule applies exactly when the raw rule does, with the same verdict and ID |
| AccessControl.CompileACL | pkg/node/acl.go:136-174 | one compiled rule for each rule, in order, that stands for it on every packet |
| AccessControl.MatchCompiledRules | pkg/node/acl.go:217-344 | on every frame the compiled matcher gives the verdict and rule ID of first-match-wins on the raw rules |
| AccessControl.OneRuleDrops | pkg/node/acl.go:217-344 | one rule dropping TCP of one peer, port, CIDR and direction drops exactly that traffic |
| AccessControl.OpenRuleDecides | pkg/node/acl.go:142-174 | a first rule with nothing set, or wildcards, decides every IP packet by its action |
| AccessControl.NonIpDefault | pkg/node/acl.go:223-301 | what is no IP packet gets the default action |
| AccessControl.InertRulesIrrelevant | pkg/node/acl.go:97-100 | deleting rules with malformed ports or CIDRs, and port rules for packets without ports, changes no verdict and no matched rule |
| AccessControl.CheckRelayTransitACL | pkg/node/acl_stats.go:62-130 | the relay hop applies the first rule it can evaluate, skipping outbound and constrained ones |
| AccessControl.TransitFirstDecides | pkg/node/acl_stats.go:82-124 | the first rule that is not outbound, for another peer or bound to protocol, port or address decides, and allows exactly by accept or allow |
| AccessControl.TransitAgreesIff | pkg/node/acl_stats.go:82-104 | relay hop and direct path pick the same rule exactly when the direct path's rule is unconstrained or the default |
| AccessControl.TransitDecidesAlike | pkg/node/acl_stats.go:62-130 | then verdict and rule ID agree exactly when that rule's action is not empty, which validation ensures |
| AccessControl.EmptyActionDiverges | pkg/node/acl_stats.go:122-124 | a concrete unvalidated rule on which the two paths differ |
| Framing.ReadAll | pkg/node/framing.go:114-137 | repeated reads recover exactly the non-empty frames in order, then go on with what follows |
| Framing.ReadAllCut | pkg/node/framing.go:116-134 | a stream that ends inside a frame yields exactly the whole frames before it |
| Framing.WriteAll | pkg/node/framing.go:95-112 | succeeds exactly when every answer of the transport made progress, and then all bytes are out; otherwise a prefix; at most one call per byte |
| Framing.WriteFrame | pkg/node/framing.go:23-42 | succeeds exactly for a frame up to 1 MiB on a progressing transport, with prefix and payload out; nothing for an empty or an oversized frame |
| Framing.AddFrame | pkg/node/framing.go:66-91 | batching keeps output plus buffer equal to the frames so far, and fails exactly on an oversized frame or an answer without progress |
| Framing.WriteFrames | pkg/node/framing.go:48-93 | succeeds exactly when all frames fit and every answer made progress, with exactly the concatenation of single-frame writes out; otherwise a prefix of it |
| Framing.ReadFrame | pkg/node/framing.go:116-137 | fills the buffer with exactly one frame and leaves the rest, with each error case |
| RateLimiter.PeerRateLimiter.Allow | cmd/p2ptap-boot/security.go:168-217 | one attempt on the peer's bucket, created full on first use |
| RateLimiter.PeerRateLimiter.Acquire | cmd/p2ptap-boot/security.go:224-264 | attempts until granted; it gives up only when the next token is out of reach of the deadline |
| RateLimiter.PeerRateLimiter.Cleanup | cmd/p2ptap-boot/security.go:274-283 | removes exactly the buckets idle for more than 900 seconds, and changes no other |
| RateLimiter.WaitExact | cmd/p2ptap-boot/security.go:252-262 | after a refusal, the next token is there exactly from the computed wait on |
| RateLimiter.GrantBound | cmd/p2ptap-boot/security.go:160-183 | in any interval of length T a peer gets at most burst + rate*T grants, cleanups included |
| RateLimiter.TryLevel | cmd/p2ptap-boot/security.go:168-183 | an attempt is granted exactly from one token on, and then takes one |
| RateLimiter.ModestPeerServed | cmd/p2ptap-boot/security.go:168-217 | in any run, with any cleanups, a peer whose attempts are at least 1/rate seconds apart is always granted |
| RateLimiter.BurstServed | cmd/p2ptap-boot/security.go:206-217 | a new peer can draw its whole burst at once |
| RateLimiter.CleanupInvisible | cmd/p2ptap-boot/security.go:273-283 | no idle cleanup changes any later verdict |
| RateLimiter.ConfiguredLimiters | cmd/p2ptap-boot/main.go:1238-1241 | fifteen idle minutes fill a bucket of either configured limiter |

## Left out

- Reassembly groups are values in a map here, not separately allocated objects; sharing of a group between callers is not captured.
- A failing `Packer.Pack`, which makes the sender drop the whole group, and the pooled buffers behind it.
- Configuration of the default fragment size beyond its lower bound of 256.
- FragmentExchange.Exchange: one frame at a time at an otherwise empty receiver; other traffic at the receiver is covered by ReassemblyRuns.DeliveredExactly.
- RelayRegistry.NextKeeps: the two stream maps are one map tagged by kind, and each locked section with its later stop is a pair of steps.
- RelayMesh.DeliveredWithinNetwork: says nothing about the buffer for clients that are still registering, which is flushed without the network check.
- The registration buffer's order, time limit and completeness.
- RelayMesh.Route takes the unpacked routing fields; packing and unpacking of boot-relay frames is not modelled.
- DiscoveryHub.NetworksIsolated: covers frames published by clients while every boot has pre-shared keys on, since open mode does not separate networks; a boot's announcement of itself goes to every network by design.
- The ACL cache keyed by configuration snapshot, the ACL counters and the ring of recent drops, which take no part in a verdict.
- Authentication failure bans in cmd/p2ptap-boot/security.go: counters with fixed thresholds, independent of the parts modelled here.
- Cryptography, transports, gateways, user interfaces and operating-system integration.
