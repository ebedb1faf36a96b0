# Verified model of the Rowan RDMA library

This project models the parts of the library whose correctness is least obvious from reading one
function, and proves what they promise. `dafny verify dfyconfig.toml` checks the whole project.

| part | files |
|---|---|
| CRC-32C: two fast engines against the bit-serial definition of section 12.1 of RFC 3720 | `CrcSpec`, `CrcTables`, `CrcLiterals`, `CrcEngine`, `CrcBurst` |
| Cluster bring-up: N processes, a key-value store, a matrix of queue pairs | `Keys`, `Wiring`, `NodeWiring`, `BringUp`, `BringUpTheorems`, `KeeperCode`, `Barrier`, `Schedules` |
| The Rowan server's ring of segments and its list of work-queue entries, against the card | `Srq`, `Rowan`, `RowanTheorems`, `RowanRuns`, `RowanBytes`, `RowanServer` |
| The reader-writer lock in one 16-bit word | `WRLock`, `WRLockCode` |
| Message rings: batched receives, selective signalling | `ReceiveRing`, `SendRing`, `MessageConnection` |
| Data transformations: scatter-gather splitting, hashing, random numbers, message fields | `WriteVector`, `Bits`, `Murmur`, `MurmurInverse`, `MurmurLiterals`, `MurmurCode`, `Lcg48`, `RpcMessage`, `RawMemory`, `Arith` |

How the parts are built:

* A concurrent part is a transition system whose steps are the single accesses to shared state: one
  store operation, one access to the lock word, one server step, one placed message. Theorems speak
  about every run, that is every interleaving. Beside it stands the code in its imperative form
  (`KeeperCode.Cluster`, `Barrier.Cluster`, `RowanServer.Server`, `WRLockCode.Machine`,
  `MessageConnection.Connection`): its loops run with other participants active in the gaps between
  two accesses, and its contracts say that what it did is a run of the transition system, made of its
  own accesses and the given gaps (`Schedules.Played`).
* A word of the CRC engines is the sequence of its bits; the words of the hash are numbers below
  2^64 with exclusive or and shifts defined bit by bit. Wrap-around of 16, 32, 48 and 64 bits is
  written out wherever it can happen.
* Table contents are given by functions: `SwTable(k, i)` is T_k[i ^ 0xff] with 0xff << (24 - 8k)
  (k < 4) or T_{k-4}[0xff] (k >= 4) mixed in, T_k being the slicing table, and `ZerosTable(len, n, i)`
  is byte i at position n moved over len zero bytes.

* What an operation does to single bytes, and every constant of the code that can be seen from outside, is
  stated beside the theorem in plain numbers: the polynomial, a table entry and the check value of the CRC,
  the byte frames of the Rowan server and of the vectored write, the inverse of the hash with its own
  numbers, the weights of the bytes of a message.

What is assumed of the environment:

* The store: get, set and increment are atomic, and an increment of an absent key fails. Bring-up
  starts with serverNum at 0, as script/restartMemc.sh:22 leaves it. Numbers of queue pairs are never
  zero and never the same for two queue pairs of a node.
* The card that feeds the Rowan ring takes posts in order, places a message in whole 64-byte strides
  behind the last one, or at the start of the next segment when the rest is too small, and is told of
  a post when it is made. The provider's post routine fails when head and tail of the entry list
  coincide. Every message starts with a non-zero byte, as clients see to.
* The other cards complete sends in order, fill receives in the order of their posts, and drop a
  message for which nothing is posted. getMessage is called once for every completion.
* Every access to the lock word is sequentially consistent.

Where the code differs from what its text suggests:

* `rdmaWriteVector` does not look at its parameter `isSignaled`: the last request of the chain always
  asks for a completion (`WriteVector.ChainShape`).
* The lock holds for at most 32768 threads, and its word is exact for at most 32767
  (`WRLock.ExclusionIff`, `WRLock.ZeroIffFree`).
* The send pool is safe for the first 2^64 sends from 64 slots on, one more for every slot that a caller
  takes ahead of its turn; the slots are what the low 16 bits of the constructor's argument say. When
  sendCounter wraps, a poll is left out, and every wrap takes 32 slots more (`SendRing.ReuseIff`). The
  constructor only asks for a multiple of four.
* The barrier works under an exact condition on its calls and on what its key held before
  (`Barrier.BarrierIff`); in all other cases, and only in those, it can hang with nobody ever returning
  (`Barrier.HangsIff`), and `Barrier.EarlyIff` says when a call can return before all have entered. Both
  can happen in test/rpc_test.cpp:26 with several threads on a node: every thread calls, but k is the
  number of nodes.
* A message returned by `getMessage` can be replaced exactly from the moment on at which its whole batch
  has been returned (`ReceiveRing.NoEarlyOverwrite`, `ReceiveRing.ReplaceableIff`), the last one of a batch
  as soon as it is returned (`ReceiveRing.LastOfBatchReplaced`).

## Model

| member | source | states |
|---|---|---|
| CrcSpec.SerialLinear | src/utility/CRC32.cpp:108-125 | the register after a message is the exclusive or of what its old contents become over zeros and of what the message alone gives: the ground for running three streams apart |
| CrcSpec.ChecksumConcat | src/utility/CRC32.cpp:193-197 | checksumming A and then B from the running value equals checksumming A followed by B |
| CrcSpec.Absorb | src/utility/CRC32.cpp:98-101 | a register may take up to its own width of message bits in one exclusive or and then run over zeros |
| CrcSpec.SerialExtend | src/utility/CRC32.cpp:92-92 | the 64-bit variable crc0 behaves like the 32-bit register |
| CrcSpec.ZerosInjective | src/utility/CRC32.cpp:76-80 | running over any number of zeros loses nothing |
| CrcTables.TableEnds | include/utility/CRC32.h:57-229 | the last entries of the software sub-tables are 0xff000000, 0x00ff0000, 0x0000ff00, 0x000000ff and then T_{k-4}[0xff] |
| CrcTables.Crc32bIsSerial | src/utility/CRC32.cpp:98-101 | the byte instruction is eight bit-serial steps |
| CrcTables.Crc32qIsSerial | src/utility/CRC32.cpp:113-118 | the quadword instruction is 64 bit-serial steps, although it takes all bits at once in a register of twice the width |
| CrcTables.ShiftByTableIsZeros | src/utility/CRC32.cpp:77-80 | four table lookups, one per byte, move a register over LONG or SHORT zero bytes |
| CrcTables.ThreeStreams | src/utility/CRC32.cpp:121-122 | three streams started from the register, zero and zero recombine to the register over all three |
| CrcTables.LookupsAreZeros | include/utility/CRC32.h:14-361 | the complements built into the eight software tables cancel over a quadword |
| CrcTables.LookupsAreSerial | src/utility/CRC32.cpp:59-65 | the eight lookups equal 64 bit-serial steps seen through the complement |
| CrcTables.SwByteIsSerial | src/utility/CRC32.cpp:53-56 | the byte step of the software loops equals eight bit-serial steps seen through the complement |
| CrcLiterals.PolyIsLiteral | src/utility/CRC32.cpp:36-36 | the polynomial is 0x82f63b78 in reflected order: CRC-32C, not the Ethernet CRC-32 |
| CrcLiterals.TableEntry | include/utility/CRC32.h:36-36 | the entry 0x7f of the first software table is 0x7df63b78, the polynomial with 0xff000000 mixed in |
| CrcLiterals.CheckValue | src/utility/CRC32.cpp:49-74 | the CRC-32C of the text "123456789" from 0 is 0xe3069283 |
| CrcEngine.HwHead | src/utility/CRC32.cpp:96-104 | the alignment head consumes single bytes up to an 8-byte boundary or the end, and the register is that of the bytes consumed |
| CrcEngine.RunStreams | src/utility/CRC32.cpp:109-120 | the three interleaved streams end as the registers of their own thirds of the block |
| CrcEngine.ThreeWayBlock | src/utility/CRC32.cpp:108-125 | a recombined block equals one left-to-right pass over it |
| CrcEngine.HwBlocks | src/utility/CRC32.cpp:106-146 | after all whole blocks less than one is left and the register is that of everything consumed |
| CrcEngine.HwQuads | src/utility/CRC32.cpp:148-157 | the 8-byte units bring the register up to their end |
| CrcEngine.HwTail | src/utility/CRC32.cpp:158-168 | the last bytes bring the register up to the end of the message |
| CrcEngine.Crc32cHw | src/utility/CRC32.cpp:87-172 | for every running value, length and alignment the result is the bit-serial CRC-32C of the whole buffer, and 0 for a null buffer; from 0, "123456789" gives 0xe3069283 |
| CrcEngine.SwWords | src/utility/CRC32.cpp:57-67 | the slicing loop keeps the running checksum of everything consumed |
| CrcEngine.Crc32cSw | src/utility/CRC32.cpp:49-74 | the same result, and the same check value, from slicing by eight with the complements built into the tables |
| CrcEngine.Checksum | src/utility/CRC32.cpp:193-197 | the two branches agree: the result, and the check value, do not depend on the instruction set |
| CrcEngine.CalculateCrc32 | src/utility/CRC32.cpp:199-205 | the same with the fixed seed 0xabcdef on either platform |
| CrcBurst.BurstDetected | src/utility/CRC32.cpp:49-172 | equally long messages that differ, but only inside one window of 32 consecutive bits, have different checksums from the same running value |
| Keys.RenderInjective | include/dsm/DSMKeeper.h:48-54 | no two of the store keys used in bring-up are the same string |
| Keys.DecimalReads | include/dsm/DSMKeeper.h:48-54 | to_string gives the decimal digits of the number without a leading zero |
| Keys.Names | include/dsm/DSMKeeper.h:48-54 | a node publishes for a peer under "me-peer", which is where that peer looks for it |
| BringUp.BarrierName | src/dsm/DSM.cpp:45-45 | the counter of the barrier at the end of bring-up is stored under "barrier-DSM-init" |
| Wiring.PeersMatch | include/dsm/RCMapping.h:15-18 | a queue pair exists on one side iff its peer exists on the other, and each is the other's peer |
| Wiring.ConnectExtends | src/dsm/DSMKeeper.cpp:41-113 | with what the peer publishes for this node, no non-zero assertion fails and exactly the queue pairs towards the peer become connected, each to its own peer |
| NodeWiring.ServedOnce | include/dsm/RCMapping.h:15-32 | every (node, thread) is in the list of exactly one directory: (node * threads + thread) mod dirs |
| NodeWiring.ClientsDistinct | include/dsm/RCMapping.h:27-32 | and it is there once |
| NodeWiring.RCMapping.constructor | include/dsm/RCMapping.h:15-38 | the two tables that the nested loops fill are the two directions of that assignment, entry (i, k) being (i * threads + k) mod dirs |
| NodeWiring.NodeConnections.CreateThread | src/dsm/ThreadConnection.cpp:20-31 | the nested loops create exactly the queue pairs of the thread towards its target directory on every node |
| NodeWiring.NodeConnections.CreateDirectory | src/dsm/DirectoryConnection.cpp:33-44 | the loop creates exactly the queue pairs for the listed clients |
| NodeWiring.NodeConnections.constructor | src/dsm/DirectoryConnection.cpp:32-44 | a node starts with exactly the queue pairs of the model, none connected |
| NodeWiring.NodeConnections.SetDataToRemote | src/dsm/DSMKeeper.cpp:41-58 | every entry of localMeta is overwritten for the new peer, with zero where there is no queue pair |
| NodeWiring.NodeConnections.SetDataFromRemote | src/dsm/DSMKeeper.cpp:60-96 | all queue pairs towards the peer are connected, or an assertion fails exactly when a number is zero |
| BringUp.InitInv | src/dsm/Keeper.cpp:74-92 | the start satisfies the invariant of bring-up |
| BringUp.StepKeepsInv | src/dsm/Keeper.cpp:94-121 | every step of every process keeps it: ids are handed out one-to-one, what is published is what its key names, connections are as far as the loops have come, the barrier counts who has added |
| BringUpTheorems.WaitChainDescends | src/dsm/DSMKeeper.cpp:25-39 | if everybody could only poll, the peer that a node waits for would wait too, and for a node with a smaller id than the first one, so that along the chain every second id decreases |
| BringUpTheorems.Progress | src/dsm/Keeper.cpp:94-121 | in every state with the invariant in which not everybody is ready, some process can take a step that changes something |
| BringUpTheorems.StepLowersTotal | src/dsm/Keeper.cpp:100-121 | every step that changes anything lowers one measure |
| BringUpTheorems.BringUpFinishes | src/dsm/Keeper.cpp:94-121 | bring-up of N nodes is over after N(3N + 7) rounds in which everybody takes a turn, in any order and interleaving |
| BringUpTheorems.NoAssertionFails | src/dsm/DSMKeeper.cpp:71-89 | in no run does a non-zero assertion fail |
| BringUpTheorems.BarrierHolds | src/dsm/DSMKeeper.cpp:120-133 | the counter never passes the number of nodes and nobody leaves the barrier before everybody has added to it |
| BringUpTheorems.ReadyMeansWired | src/dsm/DSMKeeper.cpp:115-118 | once any node is ready, all queue pairs of all nodes, also towards themselves, are connected exactly once, to a peer that is connected back |
| BringUpTheorems.EveryThreadConnected | src/dsm/DSMKeeper.cpp:60-118 | then thread k of node a has one queue pair to each node r, towards directory (a * threads + k) mod dirs, and it and the end that this directory holds are connected to each other |
| KeeperCode.Cluster.ServerEnter | src/dsm/Keeper.cpp:74-92 | one try to take an id is one step of the transition system: the counter goes up by one and its old value, cut to 16 bits, is the id |
| KeeperCode.Cluster.ConnectNode | src/dsm/DSMKeeper.cpp:25-39 | publishing and the retried read are a run of it, made of the own steps and the given gaps, that connects the node to this peer |
| KeeperCode.Cluster.ServerConnect | src/dsm/Keeper.cpp:94-121 | so are the loops over the counter and the peers, until all nodes are connected |
| KeeperCode.Cluster.BringUpNode | include/dsm/DSMKeeper.h:68-86 | so is the whole order of entering, connecting and connecting to oneself |
| Barrier.BarrierHolds | src/dsm/DSMKeeper.cpp:120-133 | under the exact condition nobody returns before all have entered; on a fresh key, or on an old one that nobody sets, the counter stops at k, and once it is there everybody's next step is to return |
| Barrier.FairRoundsFinish | src/dsm/DSMKeeper.cpp:127-132 | under the same condition, from any reachable state, three rounds in which everybody takes a turn let everybody return |
| Barrier.BarrierIff | src/dsm/DSMKeeper.cpp:120-133 | for any calls, any of them made on node ServerNR-1, and any earlier value of the key, the barrier holds everybody back and can always finish if and only if: on a fresh key, k is the number of calls and exactly one of them is made on node ServerNR-1; on a key used before, none is and k is the old value plus the number of calls, or there is a single call, made there, and k is 1 |
| Barrier.HangsIff | src/dsm/DSMKeeper.cpp:120-133 | for any calls, any k and any earlier value of the key, there is a run after which no call returns in any continuation, if and only if that condition fails |
| Barrier.EarlyIff | src/dsm/DSMKeeper.cpp:120-133 | for any calls, any k and any earlier value, some call can return before all have entered if and only if k lies strictly between the value counted from and that value plus the number of calls, or is a value that an old counter can have before it is set, or is 0 where a call can enter before another one sets the counter |
| Barrier.Cluster.Enter | src/dsm/DSMKeeper.cpp:120-133 | the call with its two waiting loops is a run made of its own accesses and the given gaps, and ends when it has returned or the gaps are over |
| Srq.PostRolls | src/rdma/Driver.cpp:20-22 | a post takes entry p mod 128, never finds the list exhausted while fewer than 127 posts are not freed, and keeps the cycle |
| Srq.FreeRolls | src/rdma/Driver.cpp:24-30 | freeing entries in the order of their posts keeps the single cycle, and the freed entry still names the segment of its post |
| RowanTheorems.ServerKeepsInv | src/rowan/RowanServer.cpp:16-40 | every server step keeps the invariant of the ring |
| RowanTheorems.PlaceKeepsInv | include/dsm/DirectoryConnection.h:13-17 | so does every message that the card places, in the current segment or the next |
| RowanRuns.PostsNeverFail | src/rowan/RowanServer.cpp:17-22 | in no run does a post find the list exhausted; the t-th post takes entry t mod 128 and names segment t mod 36 |
| RowanRuns.ListStaysCycle | src/rdma/Driver.cpp:24-30 | the list is the cycle i -> i + 1 mod 128 in every reachable state |
| RowanRuns.FreedEntryMatches | src/rowan/RowanServer.cpp:29-33 | the entry that is freed is the one that describes the segment that is sealed |
| RowanRuns.RecyclingIsExclusive | src/rowan/RowanServer.cpp:29-38 | from the poll to the repost the card places nothing in the segment that the server recycles |
| RowanRuns.FlagsMarkStarted | src/rowan/RowanServer.cpp:26-29 | the segments with a non-zero first byte are exactly those of the consecutive posts that are started and not recycled |
| RowanRuns.PollIsExact | src/rowan/RowanServer.cpp:27-29 | the poll looks at the first byte of segment (head + 1) mod 36 and is true iff the card has left the segment to be recycled, and while it is false at least 35 posted segments are untouched |
| RowanRuns.OneLog | src/rowan/RowanServer.cpp:25-39 | reading the segments in the order of their posts gives exactly the accepted messages in the order of their arrival |
| RowanRuns.RunKeepsLogs | src/rowan/RowanServer.cpp:33-38 | nothing that was stored is altered or forgotten: logs only grow and recycled images stay what they were |
| RowanRuns.ServerUnblocks | src/rowan/RowanServer.cpp:26-40 | when the card has used up all posts, the server posts another segment within four steps, whatever arrives between them, and then any message finds room |
| RowanBytes.ServerStepBytes | src/rowan/RowanServer.cpp:16-40 | a server step changes at most one byte: the first one of the segment it clears becomes 0, every other byte stays |
| RowanBytes.ArriveBytes | include/dsm/DirectoryConnection.h:13-17 | an arriving message of 1 to 4096 bytes lands byte for byte behind the last one, or at the start of the next posted segment when 65536 bytes would be exceeded, and no other byte changes |
| RowanBytes.CardAligned | include/dsm/DirectoryConnection.h:13-17 | the card always stands at a multiple of 64 bytes of the segment that its last post names |
| RowanBytes.SealedBytes | src/rowan/RowanServer.cpp:26-40 | recycling takes the first byte of the sealed segment to 0 and leaves its other bytes as they were at the poll, whatever arrives before the segment is posted again |
| RowanServer.Mlx5Srq.FreeWqe | src/rdma/Driver.cpp:24-30 | the in-place update of the list is the one of the model: the old tail is linked to the entry, which becomes the tail, and nothing else changes |
| RowanServer.Server.InitSegments | src/rowan/RowanServer.cpp:17-22 | the first loop is a run of 72 server steps, whatever arrives between them, and ends at the poll; without arrivals the first byte of every segment is 0 and every other byte is unchanged |
| RowanServer.Server.CardStep | include/dsm/DirectoryConnection.h:13-17 | the card's step in place: where the bytes of a message go, and that no other byte changes |
| RowanServer.Server.LoopBody | src/rowan/RowanServer.cpp:26-40 | the body of the endless loop is a run of one or four server steps, depending on the polled byte, and ends at the poll; the sealed segment keeps all bytes but its first, which becomes 0, and without arrivals nothing else in the memory changes |
| WRLock.NextKeepsInv | include/utility/WRLock.h:22-83 | with at most 32768 threads every access keeps the word at 1 under the one writer and otherwise at twice the number of readers mod 2^16 |
| WRLock.WordIsExact | include/utility/WRLock.h:22-83 | with at most 32767 threads the word is 1 iff one writer and no reader holds it, otherwise twice the number of readers without wrap, and 0 iff nobody holds it |
| WRLock.ExclusionIff | include/utility/WRLock.h:22-83 | writers exclude everybody in every run if and only if there are at most 32768 threads |
| WRLock.ZeroIffFree | include/utility/WRLock.h:16-18 | the word tells whether anybody holds the lock in every run if and only if there are at most 32767 threads |
| WRLock.RetryMeansUpdate | include/utility/WRLock.h:58-81 | a reader's failed compare-and-swap means that another thread took or released the lock since the load |
| WRLock.WriterFailsOnUpdate | include/utility/WRLock.h:22-41 | a writer's failed compare-and-swap on a lock it found free means that another thread took or released the lock since the load |
| WRLock.TryFailsOnlyIfHeld | include/utility/WRLock.h:35-62 | with at most 32768 threads a try_ call gives up only while the lock is held, try_rLock only because of a writer |
| WRLock.AloneSucceeds | include/utility/WRLock.h:22-81 | left alone, a thread gets a free lock, a reader gets a lock without writer and an unlocking reader is out, each within two accesses |
| WRLockCode.Machine.CompareExchange | include/utility/WRLock.h:28-31 | the in-place access is one step of the transition system, succeeds iff the word is as expected, and then and only then replaces it |
| WRLockCode.Machine.WLock | include/utility/WRLock.h:22-33 | the waiting loops are a run of their own accesses and the given gaps, and when they end the caller is the writer; undisturbed, a free lock is taken with two accesses and the word is 1 |
| WRLockCode.Machine.TryWLock | include/utility/WRLock.h:35-41 | true means the caller is the writer, false that it holds nothing; a held lock is never taken; the call is its own one or two accesses and the given gaps |
| WRLockCode.Machine.ReadLock | include/utility/WRLock.h:43-70 | rLock and try_rLock are such a run, and end with the caller a reader or, for try_rLock, holding nothing; undisturbed, the word grows by 2, and try_rLock leaves a writer's lock alone |
| WRLockCode.Machine.RUnlock | include/utility/WRLock.h:72-81 | the retry loop is such a run, and when it ends the caller is no reader any more; undisturbed, the word falls by 2 in 16 bits |
| ReceiveRing.RepostIndexIsPrevious | src/dsm/AbstractMessageConnection.cpp:70-77 | the index of the batch to repost is right also where the unsigned subtraction wraps |
| ReceiveRing.NextKeepsInv | src/dsm/AbstractMessageConnection.cpp:64-80 | every arrival and every getMessage keep the ring in step with the posts |
| ReceiveRing.GetReturnsArrival | src/dsm/AbstractMessageConnection.cpp:64-80 | the n-th getMessage hands out the buffer that the n-th arrival was placed in, unchanged |
| ReceiveRing.RepostCoversBatch | src/dsm/AbstractMessageConnection.cpp:70-77 | a repost happens with every (messageNR / 4)-th call and covers exactly the buffers handed out since the last one |
| ReceiveRing.NoEarlyOverwrite | src/dsm/AbstractMessageConnection.cpp:29-80 | a message is intact until the messageNR-th arrival after it; its buffer is posted for that arrival if and only if its whole batch has been returned, so it is never replaced before |
| ReceiveRing.Replaced | src/dsm/AbstractMessageConnection.cpp:70-77 | once the batch has been returned, the messageNR-th arrival after a message replaces it without any further call |
| ReceiveRing.ReplaceableIff | src/dsm/AbstractMessageConnection.cpp:64-80 | arrivals alone can replace a message that is there if and only if its batch has been returned |
| ReceiveRing.LastOfBatchReplaced | src/dsm/AbstractMessageConnection.cpp:64-80 | in a ring of any size there is a run in which the last message of a batch is replaced right after the call that returned it, because that call posts its buffer |
| ReceiveRing.EnoughPosted | src/dsm/AbstractMessageConnection.cpp:64-80 | the queue pair never holds more than messageNR receives, and more than three quarters of them wait for messages whenever the caller has caught up |
| SendRing.FewUnretired | src/dsm/RawMessageConnection.cpp:14-22 | until the 64-bit sendCounter wraps, at most 63 sends are not known to be completed and at most one completion that was asked for is not taken; every wrap adds 32 and one |
| SendRing.PollEnds | src/dsm/RawMessageConnection.cpp:14-17 | a poll always waits for a completion that was asked for, and ends once the card has caught up |
| SendRing.ReuseIff | src/dsm/AbstractMessageConnection.cpp:86-92 | within the first (w + 1) * 2^64 sends no slot is handed out while the card may still read it, in every run, if and only if the low 16 bits of the constructor's argument are at least 64, plus one for each slot taken ahead, plus 32 w |
| MessageConnection.Connection.InitRecv | src/dsm/AbstractMessageConnection.cpp:29-62 | the loops fill and link the requests and post the four chains, which gives the initial ring: the buffers in order |
| MessageConnection.Connection.GetMessage | src/dsm/AbstractMessageConnection.cpp:64-80 | the in-place step and the walk along a chain are the ring's step; the address is that of the current buffer, 4096 bytes each |
| MessageConnection.Connection.GetSendPool | src/dsm/AbstractMessageConnection.cpp:86-92 | slots of 4096 bytes come in turn behind the receive buffers |
| MessageConnection.Connection.SendRawMessage | src/dsm/RawMessageConnection.cpp:11-23 | polls before every 32nd send unless the 64-bit counter is zero, asks for a completion with every 32nd, and keeps to the reachable states of the protocol |
| WriteVector.ChainIsOneWrite | src/rdma/Operation.cpp:266-320 | the chain, run in order, leaves the remote memory as one write of the concatenated pieces at dest |
| WriteVector.ChainShape | src/rdma/Operation.cpp:272-312 | ceil(n / sgePerWr) requests with 1 to sgePerWr pieces each, n together, of which only the last asks for a completion |
| WriteVector.ChainFields | src/rdma/Operation.cpp:293-303 | request q names the pieces from q * sgePerWr on and the remote address at which the pieces before them end, with the key and the id given |
| WriteVector.ListWritten | src/rdma/Operation.cpp:283-312 | writing the concatenated pieces puts every piece where those before it end and changes no byte outside |
| WriteVector.Fill | src/rdma/Operation.cpp:283-312 | the loop fills the scatter table and the request table as the chain says |
| WriteVector.PostChain | src/rdma/Operation.cpp:314-316 | following the links from the first request runs the whole chain and stops |
| WriteVector.RdmaWriteVector | src/rdma/Operation.cpp:266-320 | all of it together for every acceptable list: piece i lands where the pieces before it end, byte for byte, no byte outside the range changes, and every request carries its address, its key and its id |
| Murmur.MulUndoes | include/utility/MurmurHash2.h:22-22 | the multiplier has an inverse modulo 2^64 |
| Murmur.XorShiftUndoes | include/utility/MurmurHash2.h:34-34 | the exclusive or with the word shifted by 47 undoes itself |
| Murmur.RoundInjective | include/utility/MurmurHash2.h:30-39 | a round of the loop keeps apart different states for one word, and different words for one state |
| Murmur.TailInjective | include/utility/MurmurHash2.h:43-59 | so does the switch for the bytes behind the last word |
| Murmur.NoCollision | include/utility/MurmurHash2.h:20-66 | different keys of one length that differ in a single 8-byte word, or only behind the last one, never collide under one seed |
| Murmur.ShortKeys | include/utility/MurmurHash2.h:20-66 | the hash is injective on the keys of any one length up to 8 |
| MurmurInverse.XorShiftBits | include/utility/MurmurHash2.h:34-34 | bit i becomes the exclusive or of bits i and i + 47 |
| MurmurInverse.MulSteps | include/utility/MurmurHash2.h:33-33 | a step of the factor adds 0xc6a4a7935bd1e995 modulo 2^64 |
| MurmurInverse.SeedsPermuted | include/utility/MurmurHash2.h:20-66 | for every key of any length the hash is a permutation of the 64-bit seeds, and reading it backwards with its own numbers and byte weights is the inverse, both ways |
| MurmurInverse.KeyRecovered | include/utility/MurmurHash2.h:20-66 | a key of eight bytes is got back from its hash and the seed |
| MurmurLiterals.EmptyKey | include/utility/MurmurHash2.h:20-66 | under the default seed the empty key has the hash 0x83f32fad92424767 |
| MurmurLiterals.OneByteKey | include/utility/MurmurHash2.h:20-66 | and "a" has the hash 0xe0e898e46d7d7675 |
| MurmurLiterals.OneWordKey | include/utility/MurmurHash2.h:20-66 | and "abcdefgh" has the hash 0x6f3fe2c5fcababd4 |
| MurmurCode.Switch | include/utility/MurmurHash2.h:43-59 | the cases that fall through mix in the remaining bytes as one little-endian number |
| MurmurCode.MurmurHash64A | include/utility/MurmurHash2.h:20-66 | the loop and the switch compute the hash that the theorems are about: read backwards with the key it gives the seed, with the seed a one-word key, and it has the three values above |
| Lcg48.WrapIsHarmless | include/utility/Zipf.h:42-46 | the overflow of 64 bits does not reach the 48 bits that are kept |
| Lcg48.NeighboursApart | include/utility/Zipf.h:42-46 | the step from 0 gives 11, and the steps from x and x + 1 differ by 0x5deece66d modulo 2^48 |
| Lcg48.Period | include/utility/Zipf.h:42-46 | for every modulus 2^e the state returns after the multiples of 2^e steps and at no other time |
| Lcg48.FullPeriod | include/utility/Zipf.h:42-46 | a 64-bit seed comes back iff it is below 2^48, and then after exactly the multiples of 2^48 steps |
| Lcg48.VisitsEveryValue | include/utility/Zipf.h:42-46 | every 48-bit value comes up within one period |
| Lcg48.Generator.RandD | include/utility/Zipf.h:42-46 | the in-place update is that step, x * 0x5deece66d + 0xb modulo 2^48, and the quotient by 2^48 - 1 lies between 0 and 1 |
| RpcMessage.RoundTrip | include/dsm/RpcMessage.h:38-79 | fields written one after the other read back the same through one cursor, which ends behind the last byte |
| RpcMessage.Message.AddString | include/dsm/RpcMessage.h:50-54 | behind the old end come four bytes that with the weights 1, 2^8, 2^16 and 2^24 sum to the length, and then the text; no other byte of the buffer changes |
| RpcMessage.Message.GetString | include/dsm/RpcMessage.h:72-79 | the four bytes at the cursor, with the same weights, say how long the string behind them is, and the cursor moves behind it |
| RpcMessage.ReadBack | include/dsm/RpcMessage.h:58-79 | a reader with a new cursor gets back all fields of a message and ends at msg_size |
| RpcMessage.Message.Sendable | include/dsm/RpcMessage.h:16-32 | a message with a non-zero magic byte is one that the Rowan server's ring can take: at most 4096 bytes, the first one that byte |
| RpcMessage.Message.HeaderBytes | include/dsm/RpcMessage.h:16-32 | on the wire magic, type, node and thread are bytes 0 to 3, byte 4 plus 256 times byte 5 is msg_size, and the contents follow |
| RpcMessage.Receive | include/dsm/DSM.h:111-121 | a receiver that takes its buffer as a message gets back all five fields of the header and the contents, whatever lies behind them |

## Left out

- CrcTables.SwTable: the 5120 table literals are read as the values of the functions that define them, anchored at the table ends and at the entry that shows the polynomial.
- BringUp.StepKeepsInv: needs fewer than 65536 nodes; with more, the 16-bit fields cannot name them.
- WriteVector.RdmaWriteVector: local memory does not overlap the remote range, and the list is non-empty and its size fits an int.
- The 128 entries of the send completion queue: SendRing.FewUnretired bounds what it has to hold.
- Lcg48.Generator.RandD: the quotient is a real number; rounding to a double is not modelled.
- RpcMessage.RoundTrip: a value of type T is the sequence of its bytes.
- KeeperCode.Cluster.ServerConnect: waiting loops end with the schedule of the other participants; that they need not wait for ever is BringUpTheorems.BringUpFinishes.
- RDMA device setup, memory registration and queue pair attributes: foreign calls; a queue pair is a number, a destination and a count of connections.
- The rest of the exchanged data (base addresses, keys, address handles): copied without branching.
- DSMKeeper::sum, sendRawMessageWithData: the first polls keys like bring-up does, the second has no caller.
- The pre-filled completion ring of the shared receive queue: the server loop never reads it.
- Zipf sampling, timers, logging, core binding, page allocation, bitmaps, cache flushes: floating point, platform code or easy members.
- Weaker memory orders of the lock: every access is one atomic step.
