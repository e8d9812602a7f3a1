# plexus, verified

A Dafny model of the parts of plexus (a C++ messaging runtime) whose correctness is hardest to see, and
proofs of what they promise. `dafny verify dfyconfig.toml` checks everything.

| file | models |
|---|---|
| `AntiReplay.dfy` | the sliding replay window of the datagram channel, against the set of accepted sequences |
| `DispatchSpec.dfy`, `DispatchLaws.dfy`, `Rosters.dfy`, `SelfRoutes.dfy`, `NodeDispatch.dfy` | a node's subscriptions under re-entrant dispatch, its self-route and its peer demands, against a list edited directly |
| `LoanSlab.dfy`, `LoanPool.dfy` | the loan pool: freelist, reference counts, and the block that outlives its handle |
| `BusLine.dfy`, `BusRing.dfy`, `BusChannels.dfy` | the in-process bus as a line of packets with deliveries in progress, the ring that stores it, and channels, against a FIFO |
| `Timers.dfy`, `Executor.dfy` | the in-process executor and its timers |
| `RxHandoff.dfy` | the FreeRTOS receive hand-off, over every interleaving |
| `Recorder.dfy`, `ByteRing.dfy`, `Varint.dfy`, `RecorderBytes.dfy` | the recorder's self-posting drain, the byte ring and record framing under it, and the two in step |
| `Futex.dfy` | the cross-process signal and wait, over every interleaving |
| `Pcapng.dfy`, `PcapngText.dfy`, `PcapngReader.dfy`, `PcapngRoundTrip.dfy` | the pcapng writer, and a reader (sections 3.1, 3.5 and 4.1 to 4.3 of draft-ietf-opsawg-pcapng) that recovers what was captured |
| `NodeHash.dfy` | the node identity hash |
| `WindowedProbe.dfy` | the pipelined benchmark probe |
| `Alpn.dfy` | ALPN selection (section 3.1 of RFC 7301) |
| `Words.dfy`, `LittleEndian.dfy`, `DistinctLists.dfy`, `Options.dfy` | 64-bit words and their bits, byte strings, lists of distinct slots, optional values |

Objects that the source updates in place are classes over the same fields, each proved against a value:
the accepted set, the directly edited list, the FIFO, the log's grammar. Callbacks are arbitrary. In the
node they are finite scripts of actions, nested to any depth; in the executor they are any further
operations, and `Return` is their end. Tasks and processes are state machines over their atomic steps,
and the theorems are about every run. Clocks, what the operating system answers to a mint, socket bytes,
echoes and the anomaly predicate are parameters or arbitrary values. Topic names, peer identities,
payloads on the bus and posted functions are numbers, since the code only compares or moves them.

## Where the code does less than it says

Each of these is modelled as the code has it, with the exact condition proved.

- `inproc_bus::deliver_one` hands `dispatch_packet` a reference into the ring and clears the slot through
  it afterwards. A callback that sends enough packets refills that slot, whose sender or object is then
  lost, or makes the ring grow, and the write goes to freed storage. Neither happens if and only if every
  callback returns while its slot is still there and holds nothing with a sender or an object
  (`BusLine.RunFifoIff`, `BusLine.FifoIff`, `BusRing.RefilledInTheMiddle`, `BusRing.GrownUnderneath`), as it does
  if none sees more sends than the ring had free slots (`BusLine.BoundKeepsAll`). An object lost so keeps its
  slot and its pool's block for good (`LoanPool.Traffic.BalancedIff`, `LoanPool.Traffic.AllLetGo`,
  `LoanPool.LeakingRun`).
- `forget_from_card` removes a peer's awareness and leaves the demands the engine remembers for it, so
  noting the peer again can leave it with dead topics (`DispatchLaws.StaleDemandAfterForget`); noting a peer
  inside a fan uses the list the fan started from (`DispatchLaws.MissedTopicInFan`). Exactly when is
  `DispatchLaws.RunExactIff`.
- The comment on `post_from_task` says that a producer whose post is refused keeps and releases its slot.
  `lwip_rx_step` does not look at the result: the slot and its bytes are lost. The static assertion bounds
  one channel's pool; what is needed is that all pools together fit (`RxHandoff.LossIff`).
- With a drain batch of zero bytes the recorder's destructor does not end while anything is due
  (`Recorder.NeverEndsIff`), and the drain task of a live one re-posts itself for ever (`Recorder.Block.Turns`).
- `async_wait` silently drops a handler that already waits (`Executor.Exec.AsyncWait`); and an
  `expires_after` that first cancels a handler sets its own expiry last, also over one the handler set
  meanwhile (`Timers.EarlyIff`, `Executor.CutShort`, `Executor.CutShortFromOutside`), and also on a timer the
  handler has destroyed (`Executor.Run`, `Executor.DestroyedUnderneath`).
- The probe's comment says that `completed` below the sample count marks a tier cut off early. The early
  line counts warm-up round trips too (`WindowedProbe.LineTells`, `WindowedProbe.SameLine`).
- A constructor that throws in `try_borrow` leaves its slot outstanding for good
  (`LoanSlab.Control.TryBorrow`, `LoanPool.Traffic.AllLetGo`).
- The futex wait can sleep past a signal after a multiple of 2^32 bumps (`Futex.WaitLosesIff`,
  `Futex.LostAfterWrap`), a pcapng length word wraps at 2^32 (`PcapngRoundTrip.SealIff`), and so do the ALPN
  scan's sums (`Alpn.OverrunIff`).

## Model

| member | source | states |
|---|---|---|
| `AntiReplay.NeverAcceptedTwice` | backends/plexus-crypto/include/plexus/crypto/anti_replay_window.h:62-85 | Over every run, from any state and for every width, one sequence number is never accepted twice. |
| `AntiReplay.UnseenInWindowAccepted` | backends/plexus-crypto/include/plexus/crypto/anti_replay_window.h:62-85 | Over every run since a reset, a sequence not seen before and less than the width below everything seen is accepted. |
| `AntiReplay.Window.Run` | backends/plexus-crypto/include/plexus/crypto/anti_replay_window.h:62-85 | Any run of `check_and_set` gives, datagram by datagram, the verdicts of the unbounded set of accepted sequences. |
| `AntiReplay.Window.CheckAndSet` | backends/plexus-crypto/include/plexus/crypto/anti_replay_window.h:62-85 | The verdict is the set's; the bitmap stays exactly the accepted sequences less than the width below the highest; a rejection changes nothing. |
| `AntiReplay.Window.WouldAccept` | backends/plexus-crypto/include/plexus/crypto/anti_replay_window.h:48-60 | The read-only probe gives the same verdict `check_and_set` would. |
| `AntiReplay.Window.Slide` | backends/plexus-crypto/include/plexus/crypto/anti_replay_window.h:119-137 | The descending in-place word loop is one shift of the whole vector of `width` bits, for every distance and every width: bit b is set exactly if b is at least the distance, below the width, and bit b minus the distance was set. |
| `AntiReplay.Window.MaskAboveWidth` | backends/plexus-crypto/include/plexus/crypto/anti_replay_window.h:142-147 | Bits at or above the width are cleared and all others kept. |
| `AntiReplay.Window.SetBit` | backends/plexus-crypto/include/plexus/crypto/anti_replay_window.h:105-108 | Exactly one bit of the vector is set. |
| `AntiReplay.Window.TestBit` | backends/plexus-crypto/include/plexus/crypto/anti_replay_window.h:109-112 | Reads one bit of the vector. |
| `AntiReplay.Window.AcceptFirst` | backends/plexus-crypto/include/plexus/crypto/anti_replay_window.h:64-70 | The first sequence since a reset becomes the whole accepted set. |
| `AntiReplay.Window.AcceptAhead` | backends/plexus-crypto/include/plexus/crypto/anti_replay_window.h:71-77 | A sequence above the highest slides the window and joins the accepted set. |
| `AntiReplay.Window.AcceptBehind` | backends/plexus-crypto/include/plexus/crypto/anti_replay_window.h:83-84 | An unseen sequence inside the window joins the accepted set. |
| `AntiReplay.Window.Reset` | backends/plexus-crypto/include/plexus/crypto/anti_replay_window.h:87-92 | Nothing is accepted any more. |
| `NodeDispatch.Node.Do` | lib/plexus-api/include/plexus/node.h:392-437 | Any action at any depth of nested callbacks has the effect of editing one list directly; while a fan is live `m_subscriptions` does not change. |
| `NodeDispatch.Node.Run` | lib/plexus-api/include/plexus/node.h:392-466 | A whole run, peers noted and forgotten anywhere in it, equals the direct-edit run; between events the list is the logical one; the known peers end up asked for exactly the live topics if every note fits (`DispatchLaws.RunExactIff`), and for every live topic if peers come and go outside fans. |
| `NodeDispatch.Node.DispatchFan` | lib/plexus-api/include/plexus/node.h:634-665 | A fan calls, in order, exactly the matching entries of its start list that are still live when reached; after the outermost exit the list is what direct edits give. |
| `NodeDispatch.Node.Visit` | lib/plexus-api/include/plexus/node.h:653-663 | One turn: skipped, counted as a type mismatch, or called, with everything the callback does. |
| `NodeDispatch.Node.RunCallback` | lib/plexus-api/include/plexus/node.h:634-640 | A callback that performs any list of actions, dispatches included, keeps the node in step with the direct-edit state. |
| `NodeDispatch.Node.RegisterSubscriber` | lib/plexus-api/include/plexus/node.h:392-413 | The new subscriber ends the logical list; the self-route attaches on a topic's first subscriber only; every known peer is asked for the topic. |
| `NodeDispatch.Node.RetireSubscriber` | lib/plexus-api/include/plexus/node.h:415-437 | The subscriber leaves the logical list; the last of a topic detaches the self-route and withdraws the demand; an unknown or already removed id changes nothing. |
| `NodeDispatch.Node.RetireFqnDemand` | lib/plexus-api/include/plexus/node.h:439-445 | Self-route and demands lose exactly the dead topic. |
| `NodeDispatch.Node.SelfAttach` | lib/plexus-api/include/plexus/node.h:745-751 | The route follows the topics with the new one added; a later subscriber adds no attach edge. |
| `NodeDispatch.Node.DeclarePublisher` | lib/plexus-api/include/plexus/node.h:449-460 | The count goes up and the self-ring follows. |
| `NodeDispatch.Node.ForgetPublisher` | lib/plexus-api/include/plexus/node.h:462-466 | The count goes down, never below one while it exists, and the self-ring follows. |
| `NodeDispatch.Node.Note` | lib/plexus-api/include/plexus/node.h:560-571 | A noted peer is known once and is asked for the topics of the physical list. |
| `NodeDispatch.Node.NoteFromCard` | lib/plexus-api/include/plexus/node.h:925-939 | A card is noted exactly if it has an id, not the node's own, a host and a port. |
| `NodeDispatch.Node.ForgetFromCard` | lib/plexus-api/include/plexus/node.h:943-950 | A goodbye counts exactly if it has an id, not the node's own. |
| `NodeDispatch.Node.FanDemandsTo` | lib/plexus-api/include/plexus/node.h:567-571 | The demands gain exactly the topics of `m_subscriptions` for this peer. |
| `NodeDispatch.Node.Forget` | lib/plexus-api/include/plexus/node.h:948-949 | The peer is unknown; what the engine remembers for it stays. |
| `NodeDispatch.Node.SubscribePeers` | lib/plexus-api/include/plexus/node.h:410-411 | Every known peer is asked for the topic. |
| `NodeDispatch.Node.UnsubscribePeers` | lib/plexus-api/include/plexus/node.h:443-444 | No known peer is asked for the topic any more. |
| `Rosters.Roster.Add` | lib/plexus-api/include/plexus/node.h:396-402 | Staged inside a fan or appended outside it, the entry ends the logical list, and the physical list is untouched inside a fan. |
| `Rosters.Roster.Drop` | lib/plexus-api/include/plexus/node.h:415-434 | Pending inside a fan or erased outside it, the entry leaves the logical list, and the physical list is untouched inside a fan. |
| `Rosters.Roster.Retired` | lib/plexus-api/include/plexus/node.h:415-437 | The topic reported is exactly the one whose last live subscriber went. |
| `Rosters.Roster.Leave` | lib/plexus-api/include/plexus/node.h:587-602 | Only the outermost fan applies the staged edits, and the list becomes the logical one, in registration order. |
| `Rosters.Roster.Enter` | lib/plexus-api/include/plexus/node.h:580-584 | Entering a fan changes nothing logically, and an outermost fan starts from the logical list. |
| `Rosters.Roster.AnySubscriberFor` | lib/plexus-api/include/plexus/node.h:687-691 | True exactly if a logically live subscriber of the topic exists. |
| `Rosters.Roster.FqnOf` | lib/plexus-api/include/plexus/node.h:610-619 | Finds the topic of an id in the list or among the staged additions, and fails only if it is in neither. |
| `Rosters.Roster.ReachedIsLive` | lib/plexus-api/include/plexus/node.h:605-608 | An entry the fan reaches is logically live exactly if its removal is not pending. |
| `Rosters.Roster.Settled` | lib/plexus-api/include/plexus/node.h:621-632 | Outside any fan the physical list is the logical one. |
| `SelfRoutes.Route.AttachTo` | lib/plexus-api/include/plexus/node.h:745-751 | Attach edges alternate with detach edges per topic, and the route is attached to exactly the live topics. |
| `SelfRoutes.Route.DetachFrom` | lib/plexus-api/include/plexus/node.h:753-759 | The same after the last subscriber of a topic. |
| `SelfRoutes.Route.Sync` | lib/plexus-api/include/plexus/node.h:784-819 | A self-ring exists exactly where a publisher and a live subscriber coexist, except where the last mint failed; other topics' rings stay. |
| `SelfRoutes.Route.Republish` | lib/plexus-api/include/plexus/node.h:761-779 | The self-rings follow a publisher count that changes. |
| `DispatchLaws.FanEvolves` | lib/plexus-api/include/plexus/node.h:634-665 | Through any nesting: ids only go up, the list stays in registration order, a retired subscriber never returns, and a fan calls only live entries of its start list. |
| `DispatchLaws.OutermostEvolves` | lib/plexus-api/include/plexus/node.h:577-640 | A subscriber registered by a callback is not called by the dispatch that is running, at any depth. |
| `DispatchLaws.UndisturbedFan` | lib/plexus-api/include/plexus/node.h:634-640 | If the callbacks touch publishers and peers only, a fan calls exactly the accepting subscribers, in registration order. |
| `DispatchLaws.FanMissesNobody` | lib/plexus-api/include/plexus/node.h:634-665 | Whatever the callbacks do: an accepting entry of the start list that is live when the fan is over was called by it. |
| `DispatchLaws.RunKeepsDemands` | lib/plexus-api/include/plexus/node.h:392-445 | With peers noted and forgotten outside fans, every known peer stays asked for every live topic over every run; and nobody for anything else if no peer is forgotten. |
| `DispatchLaws.PerformKeepsUp` | lib/plexus-api/include/plexus/node.h:392-445 | No action, with all its callbacks, makes a new stale demand or misses a new live topic. |
| `DispatchLaws.NoteExactIff` | lib/plexus-core/include/plexus/io/routing_engine.h:174-210 | Noting a peer outside a fan gives it exactly the live topics if and only if nothing remembered for it has died. |
| `DispatchLaws.NoteKeepsIff` | lib/plexus-api/include/plexus/node.h:567-571 | A note leaves the known peers' demands exact if and only if nothing remembered for the peer has died, and the live fan has taken the last subscriber of no topic and first-subscribed none that is not remembered. |
| `DispatchLaws.EditExactIff` | lib/plexus-api/include/plexus/node.h:392-445 | Of all edits only a note can spoil exactness, and exactly then. |
| `DispatchLaws.RunExactIff` | lib/plexus-api/include/plexus/node.h:392-445 | Over every run, peers noted and forgotten anywhere and at any depth: the demands of the known peers are exact after every edit if and only if every note fits. |
| `DispatchLaws.MissedTopicInFan` | lib/plexus-api/include/plexus/node.h:567-571 | A run in which a peer noted by a callback is never asked for the topic that callback subscribed to. |
| `DispatchLaws.StaleDemandAfterForget` | lib/plexus-core/include/plexus/io/routing_engine.h:174-226 | A run that ends with a demand nobody wants: forget a peer, retire the topic, note the peer again. |
| `DispatchLaws.PublisherBalance` | lib/plexus-api/include/plexus/node.h:761-779 | Declaring then retiring a publisher restores the counts, and no zero count is ever kept. |
| `NodeHash.HashNodeId` | lib/plexus-api/include/plexus/node.h:122-142 | The loop computes both digests and lays them out little-endian, low digest first. |
| `NodeHash.StepIsBijection` | lib/plexus-api/include/plexus/node.h:129-134 | Each round is a bijection on 64-bit states, with its inverse given. |
| `NodeHash.StepSeparatesBytes` | lib/plexus-api/include/plexus/node.h:129-134 | From one state different bytes give different states. |
| `NodeHash.DigestSeparates` | lib/plexus-api/include/plexus/node.h:129-134 | Equal-length names that differ in one byte have different digests, for every basis. |
| `NodeHash.NeighbouringNamesDiffer` | lib/plexus-api/include/plexus/node.h:122-142 | Such names differ in both halves of the identity. |
| `LoanSlab.Control.constructor` | lib/plexus-api/include/plexus/detail/loan_pool_slab.h:68-80 | Every slot starts on an acyclic freelist. |
| `LoanSlab.Control.Pop` | lib/plexus-api/include/plexus/detail/loan_pool_slab.h:40-48 | Takes the head of the freelist; empty exactly when the list is. |
| `LoanSlab.Control.TryBorrow` | lib/plexus-api/include/plexus/detail/loan_pool.h:115-125 | A free slot gets a new object with one reference; fails exactly when no slot is free or the constructor throws, and then the slot stays outstanding; freelist and outstanding always add up to the capacity. |
| `LoanSlab.Control.AddRef` | lib/plexus-core/include/plexus/io/object_carrier.h:37-41 | One more reference, on a slot somebody holds. |
| `LoanSlab.Control.Release` | lib/plexus-core/include/plexus/io/object_carrier.h:43-47 | One reference less; at zero the object is destroyed once and the slot is back on the freelist. |
| `LoanSlab.Control.ReleaseSlot` | lib/plexus-api/include/plexus/detail/loan_pool_slab.h:118-130 | The object is destroyed, the slot goes home, and the block is freed exactly if it was the last one and the handle is dead. |
| `LoanSlab.Control.DestroyControl` | lib/plexus-api/include/plexus/detail/loan_pool_slab.h:132-136 | The block is freed, and was not before. |
| `LoanSlab.Control.ReleaseControl` | lib/plexus-api/include/plexus/detail/loan_pool_slab.h:138-146 | The handle dies; the block goes with it exactly if nothing is in flight. |
| `LoanSlab.Control.InFlight` | lib/plexus-api/include/plexus/detail/loan_pool_slab.h:125-129 | While a slot is referenced the block has not been freed. |
| `LoanPool.Traffic.Run` | lib/plexus-api/include/plexus/detail/loan_pool.h:82-136 | Over any run of borrow, move, publish, send, nested delivery, return, release and pool destruction: no closing write goes astray and every reference count equals the number of holders if and only if every callback returns while its slot is still there and holds no queued object; it does if no callback sees more sends than the ring had free slots when its delivery began. Without a stray write, counts equal holders plus references lost, and a freed block is never touched. |
| `LoanPool.Traffic.Do` | lib/plexus-api/include/plexus/detail/loan_pool.h:28-136 | Each step keeps that accounting; with what it does to loans, carriers, queued packets, callback references and lost ones, and which sends, deliveries and returns it makes on the bus. |
| `LoanPool.Traffic.AllLetGo` | lib/plexus-api/include/plexus/detail/loan_pool_slab.h:118-146 | When every holder has let go and no write went astray: a slot is free and its object destroyed exactly once if and only if no reference to it was lost and no constructor threw in it; the block is freed, the handle being gone, if and only if every callback returned where it kept the objects and no constructor threw. |
| `LoanPool.Traffic.BalancedIff` | backends/plexus-inproc/include/plexus/inproc/detail/inproc_dispatch.h:34-40 | In every state of a run: no stray write and counts equal to holders, if and only if at every return the slot was still there and held no queued object; the bound on sends is enough. |
| `LoanPool.LostIff` | backends/plexus-inproc/include/plexus/inproc/detail/inproc_dispatch.h:38-40 | Over every run of the bus: no write goes astray and no reference is lost if and only if every callback returns where its slot is still there and holds no queued object. |
| `LoanPool.LeakingRun` | backends/plexus-inproc/include/plexus/inproc/detail/inproc_dispatch.h:38-40 | A run after which every packet is delivered, every holder has let go and the pool is gone, but the slot is not on the freelist and the block is not freed. |
| `LoanPool.Traffic.HolderKeepsBlock` | lib/plexus-api/include/plexus/detail/loan_pool_slab.h:125-129 | A slot with any holder is referenced and its block is there. |
| `LoanPool.Traffic.BorrowOne` | lib/plexus-api/include/plexus/detail/loan_pool.h:115-125 | A new handle, empty exactly when the pool is exhausted. |
| `LoanPool.Traffic.Drop` | lib/plexus-api/include/plexus/detail/loan_pool.h:87-95 | The handle is left empty and its reference released, if it had one. |
| `LoanPool.Traffic.Assign` | lib/plexus-api/include/plexus/detail/loan_pool.h:33-41 | Move assignment releases the target first and leaves the source empty; self-assignment does nothing. |
| `LoanPool.Traffic.Move` | lib/plexus-api/include/plexus/detail/loan_pool.h:28-31 | Move construction hands the slot over and leaves the source empty. |
| `LoanPool.Traffic.Publish` | lib/plexus-api/include/plexus/detail/loan_pool.h:129-136 | The loan's reference becomes the carrier's. |
| `LoanPool.Traffic.Send` | backends/plexus-inproc/include/plexus/inproc/inproc_channel.h:75-79 | The bus takes its own reference, unless the sending channel is closed. |
| `LoanPool.Traffic.Finish` | lib/plexus-core/include/plexus/io/message_forwarder.h:256-270 | The carrier's reference is released after the fan. |
| `LoanPool.Traffic.DeliverOne` | backends/plexus-inproc/include/plexus/inproc/detail/inproc_dispatch.h:17-37 | The packet's reference goes to the callback, or is released where none runs. |
| `LoanPool.Traffic.ReturnOne` | backends/plexus-inproc/include/plexus/inproc/detail/inproc_dispatch.h:38-40 | The closing write of a returning callback takes the object of the packet queued in that slot, if there is one, and loses its reference; it is counted as stray if the slot is gone. |
| `LoanPool.Traffic.SendPlain` | backends/plexus-inproc/include/plexus/inproc/inproc_bus.h:87-106 | A data or close packet takes a slot of the ring and no reference. |
| `LoanPool.Traffic.CallbackLetsGo` | backends/plexus-inproc/include/plexus/inproc/inproc_channel.h:131-139 | A callback's own reference is released. |
| `BusRing.Ring.Grow` | backends/plexus-inproc/include/plexus/inproc/inproc_bus.h:188-197 | The copy loop lays the queue out, unchanged, from the start of a ring of twice the size, or of eight slots. |
| `BusRing.Ring.Push` | backends/plexus-inproc/include/plexus/inproc/inproc_bus.h:179-186 | The ring goes on storing the line after one more send; a delivery whose bound is used up has its slot overwritten by it. |
| `BusRing.Ring.PushAll` | backends/plexus-inproc/include/plexus/inproc/inproc_bus.h:87-119 | Many sends, in order. |
| `BusRing.Ring.Begin` | backends/plexus-inproc/include/plexus/inproc/inproc_bus.h:121-128 | The front packet leaves the queue while its slot is still referred to, and the ring stores the line after that. |
| `BusRing.Ring.End` | backends/plexus-inproc/include/plexus/inproc/detail/inproc_dispatch.h:38-40 | The closing write clears exactly the packet queued in that slot, if there is one; it is stray exactly if the ring was reallocated since. |
| `BusRing.Ring.StillThere` | backends/plexus-inproc/include/plexus/inproc/inproc_bus.h:121-130 | The slot of a delivery holds the bytes being delivered for as many sends as the ring had free slots when it began, whatever is delivered meanwhile. |
| `BusLine.RunFifoIff` | backends/plexus-inproc/include/plexus/inproc/inproc_bus.h:87-130 | Over every run, sends, deliveries and returns nested in any way: no closing write goes astray and everything sent is taken off or queued, in order and whole, if and only if every callback returns where its slot is still there and holds no queued packet with a sender or an object. |
| `BusLine.BoundKeepsAll` | backends/plexus-inproc/include/plexus/inproc/inproc_bus.h:121-186 | It does so in every run in which no callback sees more sends, nested ones included, than the ring had free slots when its delivery began. |
| `BusLine.NeverMadeGood` | backends/plexus-inproc/include/plexus/inproc/inproc_bus.h:121-130 | What is lost or gone astray is never made good by the rest of a run. |
| `BusRing.Ring.History` | backends/plexus-inproc/include/plexus/inproc/inproc_bus.h:87-130 | These of the ring itself, in every state it can be in. |
| `BusRing.GrownUnderneath` | backends/plexus-inproc/include/plexus/inproc/inproc_bus.h:188-197 | A callback that sends two packets from a full ring of eight frees the slot it was given: nothing sent is lost, but the closing write is stray. |
| `BusRing.RefilledInTheMiddle` | backends/plexus-inproc/include/plexus/inproc/detail/inproc_dispatch.h:38-40 | With a delivery inside a callback the cleared packet is not the last of the queue. |
| `BusRing.Ring.DeliverOne` | backends/plexus-inproc/include/plexus/inproc/inproc_bus.h:121-130 | A whole delivery with a callback that only sends: exactly when it keeps the bus intact. |
| `BusLine.FifoIff` | backends/plexus-inproc/include/plexus/inproc/inproc_bus.h:121-130 | A delivery whose callback only sends keeps the bus intact if and only if the sends leave the delivered slot alone or refill it with a packet that has nothing to lose. |
| `BusChannels.DeliveredInSendOrder` | backends/plexus-inproc/include/plexus/inproc/inproc_channel.h:56-88 | Every channel has received, in order, a prefix of the data, objects and closes sent to it, and all of it once the queue is empty and it is open; senders and objects included if the bus is intact. |
| `BusChannels.Bus.Run` | backends/plexus-inproc/include/plexus/inproc/inproc_bus.h:87-130 | Any run of acts, deliveries and returns, nested in any way, does what its events say one by one; the bus is then intact if and only if every callback returned where it may, in particular under the bound on sends; and without a stray write every channel has received its packets in send order. |
| `BusChannels.NewcomerGetsNothingOld` | backends/plexus-inproc/include/plexus/inproc/inproc_bus.h:46-62 | No packet sent so far, and no channel connected so far, addresses a channel registered now. |
| `BusChannels.Bus.OpenChannel` | backends/plexus-inproc/include/plexus/inproc/inproc_bus.h:46-52 | The key is new for good. |
| `BusChannels.Bus.Connect` | backends/plexus-inproc/include/plexus/inproc/inproc_channel.h:56-60 | The partner's key is resolved once; an unregistered partner gives 0. |
| `BusChannels.Bus.Deregister` | backends/plexus-inproc/include/plexus/inproc/inproc_bus.h:64-67 | The channel is gone; packets in the queue stay. |
| `BusChannels.Bus.Enqueue` | backends/plexus-inproc/include/plexus/inproc/inproc_bus.h:87-119 | The packet is sent last. |
| `BusChannels.Bus.Close` | backends/plexus-inproc/include/plexus/inproc/inproc_channel.h:81-88 | The channel falls silent and its close is the last packet it sends. |
| `BusChannels.Bus.Do` | backends/plexus-inproc/include/plexus/inproc/inproc_channel.h:67-114 | Any act of program or callback puts exactly its own packet on the bus, none from a closed channel, and keeps the routing invariant. |
| `BusChannels.Bus.Deliver` | backends/plexus-inproc/include/plexus/inproc/detail/inproc_dispatch.h:17-37 | The packet goes to the open channel registered under its key; data for an unregistered key is reported to a live sender; where the channel has no handler for it, or nobody is told, the slot is cleared at once. |
| `BusChannels.Bus.SetHandler` | backends/plexus-inproc/include/plexus/inproc/inproc_channel.h:95-114 | The channel has that handler from then on. |
| `BusChannels.Bus.Return` | backends/plexus-inproc/include/plexus/inproc/detail/inproc_dispatch.h:38-40 | A callback's return clears the packet queued in its slot, if any, and no other; or is counted as stray. |
| `Executor.Run` | backends/plexus-inproc/include/plexus/inproc/inproc_timer.h:43-84 | Whatever program and callbacks do, at any nesting, as long as no `expires_after` comes back to a timer that is gone: no handler is called twice; each is waiting, called or dropped, and exactly one of these; a success comes at or after the last expiry set while its handler waited, which is the promised one after a clean wait and is before the promise exactly if a returning `expires_after` set an earlier one; posted work and packets run in order. An `expires_after` has come back to a timer that is gone, or will, if and only if a timer was destroyed while an `expires_after` of it was running. |
| `Executor.Do` | backends/plexus-inproc/include/plexus/inproc/inproc_timer.h:43-84 | Each operation keeps that invariant. |
| `Executor.Exec.ExpiresAfter` | backends/plexus-inproc/include/plexus/inproc/inproc_timer.h:43-48 | A waiting handler is called with cancellation first, and the timer armed when that returns; otherwise at once. |
| `Executor.Exec.AsyncWait` | backends/plexus-inproc/include/plexus/inproc/inproc_timer.h:50-53 | The handler waits; one that waited already is dropped and never called. |
| `Executor.Exec.Cancel` | backends/plexus-inproc/include/plexus/inproc/inproc_timer.h:55-59 | Disarmed; a waiting handler is called with cancellation. |
| `Executor.Exec.Complete` | backends/plexus-inproc/include/plexus/inproc/inproc_timer.h:77-84 | The handler leaves the timer before it is called, and is called once. |
| `Executor.Exec.TryFire` | backends/plexus-inproc/include/plexus/inproc/inproc_timer.h:67-74 | Fires exactly if armed, waited on and due, with success. |
| `Executor.Exec.AnyArmed` | backends/plexus-inproc/include/plexus/inproc/inproc_timer.h:62-65 | True exactly if some timer is armed and waited on. |
| `Executor.Exec.FireDueTimer` | backends/plexus-inproc/include/plexus/inproc/inproc_executor.h:84-94 | The first due timer in registration order fires; none exactly if none is due. |
| `Executor.Exec.Step` | backends/plexus-inproc/include/plexus/inproc/inproc_executor.h:43-57 | Posted work first and in order, then one packet, then a due timer; false exactly if the executor is quiet, and then nothing changed. |
| `Executor.Exec.Drain` | backends/plexus-inproc/include/plexus/inproc/inproc_executor.h:59-64 | Returns only when no posted work, no packet and no due timer remains. |
| `Executor.Exec.DrainOn` | backends/plexus-inproc/include/plexus/inproc/inproc_executor.h:59-64 | A round of the loop ends it exactly if the executor is quiet. |
| `Executor.Exec.Return` | backends/plexus-inproc/include/plexus/inproc/inproc_timer.h:43-48 | When a callback returns, an interrupted `expires_after` arms its timer, or writes to a timer its handler destroyed; an interrupted `drain` goes on or, if all is quiet, returns. |
| `Executor.Exec.Post` | backends/plexus-inproc/include/plexus/inproc/inproc_executor.h:38-41 | Appends to the posted work. |
| `Executor.Exec.NewTimer` | backends/plexus-inproc/include/plexus/inproc/inproc_executor.h:66-70 | A new timer is idle and last in the order. |
| `Executor.Exec.Destroy` | backends/plexus-inproc/include/plexus/inproc/inproc_timer.h:32-36 | The timer leaves the list; a handler that waits is dropped; it is counted if an `expires_after` of the timer is running. |
| `Timers.CalledOnce` | backends/plexus-inproc/include/plexus/inproc/inproc_timer.h:77-84 | No two calls are of the same handler. |
| `Timers.EarlyIff` | backends/plexus-inproc/include/plexus/inproc/inproc_timer.h:43-74 | A success comes no earlier than the expiry in force, which is the last re-arming or else the promise; that is before the promise if and only if the last re-arming is; a handler promised nothing succeeds only after a re-arming. |
| `Timers.NeverBeforePromised` | backends/plexus-inproc/include/plexus/inproc/inproc_timer.h:67-74 | A success after a clean wait comes no earlier than the expiry in force at that wait, and never from an unarmed one. |
| `Timers.CutShortIff` | backends/plexus-inproc/include/plexus/inproc/inproc_timer.h:43-48 | In any state of a run, a waiting handler can still be called early, its timer left as it is, if and only if the last re-arming is before its promise. |
| `Executor.CutShort` | backends/plexus-inproc/include/plexus/inproc/inproc_timer.h:43-48 | A run in which a handler promised 100 is called with success at 1. |
| `Executor.CutShortFromOutside` | backends/plexus-inproc/include/plexus/inproc/inproc_timer.h:43-48 | The same with two `expires_after` calls nested, of which the outer one counts. |
| `Executor.DestroyedUnderneath` | backends/plexus-inproc/include/plexus/inproc/inproc_timer.h:43-48 | A handler that destroys the timer whose `expires_after` cancelled it leaves that call to arm a timer that is gone. |
| `Timers.CallKeeps` | backends/plexus-inproc/include/plexus/inproc/inproc_timer.h:77-84 | Calling a handler keeps the history invariant. |
| `Timers.WaitKeeps` | backends/plexus-inproc/include/plexus/inproc/inproc_timer.h:50-53 | Setting a handler keeps it, the replaced one being dropped. |
| `Timers.ArmKeeps` | backends/plexus-inproc/include/plexus/inproc/inproc_timer.h:43-48 | Arming keeps it. |
| `RxHandoff.RunSafe` | backends/plexus-freertos/include/plexus/freertos/lwip_rx_task.h:31-43 | Over every interleaving, if the pools together fit the queue: no slot is lost, each is in exactly one place, and the bytes fed are an in-order prefix of the bytes received. |
| `RxHandoff.LossIff` | backends/plexus-freertos/include/plexus/freertos/lwip_channel.h:54-55 | A post can be refused and its slot and bytes lost if and only if the pools together outsize the queue. |
| `RxHandoff.RunPlaced` | backends/plexus-freertos/include/plexus/freertos/detail/lwip_rx_slot_pool.h:57-69 | Over every interleaving each slot is in exactly one of free, receiving, queued, being fed and lost. |
| `RxHandoff.NextPlaced` | backends/plexus-freertos/include/plexus/freertos/lwip_rx_task.h:31-43 | Each step of each task keeps that. |
| `RxHandoff.PostFits` | backends/plexus-freertos/include/plexus/freertos/freertos_executor.h:71-74 | If the pools together fit the queue, a post finds room. |
| `RxHandoff.RunBytes` | backends/plexus-freertos/include/plexus/freertos/lwip_channel.h:138-157 | Over every interleaving, losses or not: the bytes fed are an in-order prefix of the stream with exactly the bytes of the refused posts missing. |
| `RxHandoff.NextAccounted` | backends/plexus-freertos/include/plexus/freertos/lwip_channel.h:138-157 | Each step keeps that account. |
| `RxHandoff.FloodFills` | backends/plexus-freertos/include/plexus/freertos/freertos_executor.h:71-74 | The run that fills the queue: receive tasks outrunning the executor. |
| `Recorder.Run` | lib/plexus-api/include/plexus/recorder.h:71-77 | Any mix of records, triggers, pumps and executor turns, then destruction: the sink holds frames the ring took, each once and in order; in a continuous recording all of them. With a positive batch budget the destructor's loop ends within as many pumps as the ring has bytes and one; with a budget of zero exactly if nothing is due. |
| `Recorder.Block.Record` | lib/plexus-api/include/plexus/detail/recorder_drain.h:157-162 | Exactly the frames that fit are taken, in order, and a drain task is queued, never a second. |
| `Recorder.Block.Kick` | lib/plexus-api/include/plexus/detail/recorder_drain.h:56-63 | Exactly one task is queued. |
| `Recorder.Block.TryPush` | lib/plexus-core/include/plexus/io/recording/byte_ring.h:66-85 | Admits exactly what fits, evicting the oldest in pre-buffer mode only, and no more than needed; the ring never exceeds its capacity. |
| `Recorder.Block.EvictUntil` | lib/plexus-core/include/plexus/io/recording/byte_ring.h:162-172 | The loop ends with the room asked for, having evicted the fewest oldest frames that give it. |
| `Recorder.Block.Evict` | lib/plexus-core/include/plexus/io/recording/byte_ring.h:166-170 | The oldest frame leaves the ring, and the frozen window if it was in it. |
| `Recorder.Block.Trigger` | lib/plexus-api/include/plexus/recorder.h:114-121 | Freezes all that is held and queues a task; nothing in continuous mode. |
| `Recorder.Block.Pump` | lib/plexus-core/include/plexus/io/recording/byte_ring.h:109-148 | One batch from the front goes to the sink; says exactly whether more is due. |
| `Recorder.Block.RunTask` | lib/plexus-api/include/plexus/recorder.h:217-233 | The drain task re-posts itself exactly while work remains, and is a no-op once the recorder is gone. |
| `Recorder.Block.DrainQuiet` | lib/plexus-api/include/plexus/recorder.h:217-233 | Left alone, the executor empties a live recorder in finitely many turns. |
| `Recorder.Block.Destroy` | lib/plexus-api/include/plexus/recorder.h:152-163 | The destructor's loop has ended after a number of pumps exactly if nothing is then due, and a continuous recording is then complete in the sink. |
| `Recorder.ShipsIff` | lib/plexus-core/include/plexus/io/recording/byte_ring.h:109-125 | A batch makes progress if and only if there is something to ship and the batch budget is positive. |
| `Recorder.NeverEndsIff` | lib/plexus-api/include/plexus/recorder.h:157-160 | Every one of any number of pumps in a row reports more, for ever, if and only if something is due and the batch budget is zero; otherwise as many pumps as there are frames due ship them all. |
| `Recorder.Block.Turns` | lib/plexus-api/include/plexus/recorder.h:217-233 | After any number of turns the drain task of a live recorder is posted again exactly if something is then due; with a budget of zero it re-posts itself for ever, the ring unchanged. |
| `Recorder.Shipped` | lib/plexus-core/include/plexus/io/recording/byte_ring.h:109-125 | A batch is the shortest run of whole frames that reaches the budget, or all that is due. |
| `ByteRing.Ring.TryPush` | lib/plexus-core/include/plexus/io/recording/byte_ring.h:66-85 | On bytes: admits exactly what fits, across the end of the store if need be; with eviction the fewest oldest records go. |
| `ByteRing.Ring.WriteWrapped` | lib/plexus-core/include/plexus/io/recording/byte_ring.h:156-160 | The bytes land behind those held and disturb none of them. |
| `ByteRing.Ring.CopyOut` | lib/plexus-core/include/plexus/io/recording/byte_ring.h:192-199 | One or two runs of the store are the bytes held at that place. |
| `ByteRing.Ring.PeekLength` | lib/plexus-core/include/plexus/io/recording/byte_ring.h:174-190 | Finds the oldest record's size and header, across the end of the store, exactly if there is one. |
| `ByteRing.Ring.EvictUntil` | lib/plexus-core/include/plexus/io/recording/byte_ring.h:162-172 | Ends with the room asked for, having evicted the fewest oldest records that give it. |
| `ByteRing.Ring.Drain` | lib/plexus-core/include/plexus/io/recording/byte_ring.h:109-125 | Ships whole framed records in order, the fewest that reach the budget, or all. |
| `ByteRing.Ring.DrainWindow` | lib/plexus-core/include/plexus/io/recording/byte_ring.h:131-148 | The same, up to the frozen head. |
| `ByteRing.FramedUnique` | lib/plexus-core/include/plexus/io/recording/byte_ring.h:66-85 | The framed bytes determine the records. |
| `RecorderBytes.Run` | lib/plexus-api/include/plexus/recorder.h:71-77 | The recorder on its bytes, over any mix of records, triggers and pumps and the destructor's loop: its two models stay in step, and the sink's bytes are the framing of the records shipped and of no others; of all the records taken, in a continuous recording that ended. |
| `RecorderBytes.Twin.Pump` | lib/plexus-core/include/plexus/io/recording/pre_buffer_controller.h:136-144 | The bytes that go out are the frames of the batch `Recorder.Shipped` counts, `drain_window` included; what is left is reported alike; a positive budget always gets somewhere. |
| `RecorderBytes.Twin.Push` | lib/plexus-core/include/plexus/io/recording/byte_ring.h:66-85 | The byte ring takes a record exactly if the recorder takes its frame, and evicts the same ones for it. |
| `RecorderBytes.Twin.Record` | lib/plexus-core/include/plexus/io/recording/pre_buffer_controller.h:152-158 | Exactly the records that fit are taken, in order. |
| `RecorderBytes.Twin.Freeze` | lib/plexus-core/include/plexus/io/recording/pre_buffer_controller.h:110-118 | The frozen head is on the boundary after the records held. |
| `RecorderBytes.SameSize` | lib/plexus-core/include/plexus/io/recording/byte_ring.h:66-85 | The recorder's count of bytes is the length of the framed records. |
| `RecorderBytes.SameWindow` | lib/plexus-core/include/plexus/io/recording/byte_ring.h:131-148 | With the frozen head on a boundary, or passed by the tail, `drain_window` stops at the budget or with the window, and nowhere else. |
| `Varint.ReadVarint` | lib/plexus-wire/include/plexus/wire/varint.h:28-66 | The shifting loop, with its ten-byte cap and overflow guard, computes the positional value; no shift overflows. |
| `Varint.WriteVarint` | lib/plexus-wire/include/plexus/wire/writer.h:60-70 | The loop writes the seven-bit groups. |
| `Varint.RoundTrip` | lib/plexus-wire/include/plexus/wire/varint.h:42-66 | Every 64-bit counter takes at most ten bytes and reads back, whatever follows it. |
| `Futex.NeverAsleepPastSignal` | backends/plexus-native/src/futex_notifier_primitive.cpp:32-54 | Over every interleaving of any number of producers: a sleeping consumer has drained every item whose signal completed, and any other announced item has its wake still to come. |
| `Futex.NextValid` | backends/plexus-native/src/futex_notifier_primitive.cpp:32-54 | Each atomic step keeps that. |
| `Futex.WaitLosesIff` | backends/plexus-native/include/plexus/native/futex_notifier_primitive.h:29-32 | With a completed signal undrained, the wait sleeps if and only if the bumps since the read are a multiple of 2^32. |
| `Futex.LostAfterWrap` | backends/plexus-native/src/futex_notifier_primitive.cpp:32-54 | The run that does: 2^32 signals between the read and the wait. |
| `PcapngRoundTrip.RoundTrip` | tools/pcap_transcode/src/flat_to_pcap.cpp:127-179 | For every record list whose packets fit, a reader recovers one section, one nanosecond interface and exactly the wire frames in order, with timestamp, payload, direction, sequence, peer and tap position. |
| `PcapngRoundTrip.WalksAgree` | tools/pcap_transcode/src/flat_to_pcap.cpp:93-103 | Walking forwards and backwards finds the same blocks, all of whole words. |
| `PcapngRoundTrip.SealIff` | tools/pcap_transcode/src/flat_to_pcap.cpp:96-103 | A packet block reads back as itself, whatever follows, if and only if it is shorter than 2^32 bytes; payloads up to 2^32 - 512 always are. |
| `PcapngRoundTrip.EpbLaw` | tools/pcap_transcode/src/flat_to_pcap.cpp:159-179 | A packet body reads back as the captured record. |
| `PcapngRoundTrip.EpbSize` | tools/pcap_transcode/src/flat_to_pcap.cpp:159-179 | A packet body is a whole number of words, at most 300 bytes longer than its payload. |
| `PcapngRoundTrip.ShbLaw` | tools/pcap_transcode/src/flat_to_pcap.cpp:127-138 | The section header reads back with its two comments. |
| `PcapngRoundTrip.IdbLaw` | tools/pcap_transcode/src/flat_to_pcap.cpp:140-150 | The interface reads back with nanosecond resolution. |
| `PcapngRoundTrip.PacketsLaw` | tools/pcap_transcode/src/flat_to_pcap.cpp:201-207 | The packet blocks read back as the wire frames, in order. |
| `PcapngReader.FirstBlockLaw` | tools/pcap_transcode/src/flat_to_pcap.cpp:96-103 | A sealed block reads back, whatever follows it. |
| `PcapngReader.ReadOptionLaw` | tools/pcap_transcode/src/flat_to_pcap.cpp:74-80 | An option reads back, whatever follows it. |
| `PcapngReader.ReadBackLaw` | tools/pcap_transcode/src/flat_to_pcap.cpp:93-103 | The trailing length finds the last block. |
| `PcapngReader.ReadAppend` | tools/pcap_transcode/src/flat_to_pcap.cpp:96-103 | Files of whole blocks concatenate. |
| `PcapngText.CommentLaw` | tools/pcap_transcode/src/flat_to_pcap.cpp:152-157 | Sequence, direction, peer and tap position read back from the comment text. |
| `PcapngText.HexLaw` | tools/pcap_transcode/src/flat_to_pcap.cpp:105-117 | The peer identity reads back from its hexadecimal form. |
| `PcapngText.DecimalLaw` | tools/pcap_transcode/src/flat_to_pcap.cpp:152-157 | A number reads back from its decimal form. |
| `Pcapng.Transcode` | tools/pcap_transcode/src/flat_to_pcap.cpp:198-207 | The record loop, over the writers, writes the file the round trip is about, and counts its packets. |
| `Pcapng.WriteShb` | tools/pcap_transcode/src/flat_to_pcap.cpp:127-138 | Appends the sealed section header. |
| `Pcapng.WriteIdb` | tools/pcap_transcode/src/flat_to_pcap.cpp:140-150 | Appends the sealed interface block. |
| `Pcapng.WriteEpb` | tools/pcap_transcode/src/flat_to_pcap.cpp:159-179 | Appends the sealed packet block. |
| `Pcapng.SealBlock` | tools/pcap_transcode/src/flat_to_pcap.cpp:96-103 | Type, length, body and length again. |
| `Pcapng.PutOption` | tools/pcap_transcode/src/flat_to_pcap.cpp:74-80 | Pads to the length of the whole buffer, which is the option's own padding whenever the buffer was on a word. |
| `Pcapng.CommentText` | tools/pcap_transcode/src/flat_to_pcap.cpp:152-157 | The comment text, with the peer in hexadecimal. |
| `Pcapng.PutLe` | tools/pcap_transcode/src/flat_to_pcap.cpp:39-55 | The byte loops append the little-endian form. |
| `Pcapng.Pad4` | tools/pcap_transcode/src/flat_to_pcap.cpp:62-66 | Pads with zeros to a whole number of words. |
| `Pcapng.PeerHex` | tools/pcap_transcode/src/flat_to_pcap.cpp:105-117 | The digit loop gives the hexadecimal form. |
| `LittleEndian.DecodeEncode` | tools/pcap_transcode/src/flat_to_pcap.cpp:39-55 | A number reads back from n bytes if and only if it fits them. |
| `WindowedProbe.Run` | examples/mcu/esp-idf-lwip-bench/main/bench_pipeline.h:48-174 | For every window and any echoes and ticks: the log is a sentence of its grammar at every moment, and the sweep then finishes with exactly one throughput line per tier, even if no echo comes again. |
| `WindowedProbe.GrammarMeans` | examples/mcu/esp-idf-lwip-bench/main/bench_pipeline.h:131-160 | In any such log each tier that is over has exactly one throughput line and the others none; sample indices count up from 0, at most 128. |
| `WindowedProbe.TiersNeverDecrease` | examples/mcu/esp-idf-lwip-bench/main/bench_pipeline.h:162-173 | The tiers of the lines never go down. |
| `WindowedProbe.Probe.OnReply` | examples/mcu/esp-idf-lwip-bench/main/bench_pipeline.h:95-109 | An echo completes the first slot in flight with its tag and refills it; any other echo changes nothing; the window stays full while a tier runs and non-empty while it drains. |
| `WindowedProbe.Probe.Answer` | examples/mcu/esp-idf-lwip-bench/main/bench_pipeline.h:104-107 | The round trip is counted, sampled with the time since its issue, and the slot issued again with the next tag; while draining it is freed. |
| `WindowedProbe.Probe.PumpStalled` | examples/mcu/esp-idf-lwip-bench/main/bench_pipeline.h:112-129 | Stalled slots are re-issued, or freed while draining; an overdue tier is closed with its gross count; an overdue state always advances. |
| `WindowedProbe.Probe.SweepStalled` | examples/mcu/esp-idf-lwip-bench/main/bench_pipeline.h:119-126 | Exactly the stalled slots are re-issued, or freed while draining. |
| `WindowedProbe.Probe.Complete` | examples/mcu/esp-idf-lwip-bench/main/bench_pipeline.h:131-153 | Counted, sampled after the warm-up, and refilled; the 128th sample closes the tier. |
| `WindowedProbe.Probe.TakeSample` | examples/mcu/esp-idf-lwip-bench/main/bench_pipeline.h:139-143 | The sample line has the next index of its tier. |
| `WindowedProbe.Probe.Refill` | examples/mcu/esp-idf-lwip-bench/main/bench_pipeline.h:152-152 | The slot that came back, and no other, is issued again. |
| `WindowedProbe.Probe.CloseTier` | examples/mcu/esp-idf-lwip-bench/main/bench_pipeline.h:144-151 | The full throughput line; the tier drains, or is over if nothing is in flight. |
| `WindowedProbe.Probe.Drained` | examples/mcu/esp-idf-lwip-bench/main/bench_pipeline.h:133-138 | The tier is over exactly if nothing is in flight. |
| `WindowedProbe.Probe.NextTier` | examples/mcu/esp-idf-lwip-bench/main/bench_pipeline.h:162-173 | The next tier starts with a full window, or the sweep ends with the resource line. |
| `WindowedProbe.Probe.FinalizeTierPartial` | examples/mcu/esp-idf-lwip-bench/main/bench_pipeline.h:156-160 | The early throughput line, then the next tier. |
| `WindowedProbe.Probe.Start` | examples/mcu/esp-idf-lwip-bench/main/bench_pipeline.h:79-85 | Every slot of the window is in flight. |
| `WindowedProbe.Probe.IssueSlot` | examples/mcu/esp-idf-lwip-bench/main/bench_pipeline.h:64-70 | The slot carries the next 8-bit tag and the current time. |
| `WindowedProbe.Probe.IssueOne` | examples/mcu/esp-idf-lwip-bench/main/bench_pipeline.h:72-77 | The first idle slot is issued, if there is one. |
| `WindowedProbe.Probe.AllFree` | examples/mcu/esp-idf-lwip-bench/main/bench_pipeline.h:87-93 | True exactly if nothing is in flight. |
| `WindowedProbe.Probe.Finish` | examples/mcu/esp-idf-lwip-bench/main/bench_pipeline.h:111-129 | From any state three ticks more than a tier's budget apart end the sweep. |
| `WindowedProbe.LineTells` | examples/mcu/esp-idf-lwip-bench/main/bench_pipeline.h:155-160 | In any log of the probe: a throughput line with another number than 128 is of a tier cut off, and one with 128 within the deadline is not; a tier cut off shows less than 128 if and only if it has fewer than 120 samples. |
| `WindowedProbe.SameLine` | examples/mcu/esp-idf-lwip-bench/main/bench_pipeline.h:131-160 | Past the deadline 128 does not tell: for every such elapsed time two runs, one cut off after 120 samples and one complete, print the same line. |
| `WindowedProbe.CutOffTier` | examples/mcu/esp-idf-lwip-bench/main/bench_pipeline.h:117-118 | The first of them: 128 echoes and a late tick. |
| `WindowedProbe.FullTier` | examples/mcu/esp-idf-lwip-bench/main/bench_pipeline.h:144-147 | The second: 136 echoes, the time passing after the first sample. |
| `Alpn.Select` | backends/plexus-crypto/src/dtls_cookie.cpp:129-151 | Selects exactly when `plexus/1` is a name of the longest well-formed prefix of the list, and the first such name; stays in bounds; says exactly when a 32-bit sum wraps instead. |
| `Alpn.NamesReadList` | backends/plexus-crypto/src/dtls_cookie.cpp:135-150 | Every list is the wire form of its names followed by a remainder that reads no further. |
| `Alpn.NamesUnique` | backends/plexus-crypto/src/dtls_cookie.cpp:135-150 | There is no other way to read it. |
| `Alpn.OverrunIff` | backends/plexus-crypto/src/dtls_cookie.cpp:137-148 | Some list of a length sends the scan past the 32-bit range if and only if the length is above 2^32 - 256. |

## Left out

- LoanSlab.Control.AddRef: the 32-bit wrap-around of a reference count is not modelled; it takes 2^32 holders of one slot.
- BusChannels.Bus.Deliver: the closed and error callbacks of one close count as one callback; a sender is known by its key, so a new channel at a destroyed one's address is not mistaken for it.
- BusRing.Ring.End: what a stray write does is not modelled, only that it happens; the model goes on as if it had hit nothing. What is said of runs is said of those without one.
- BusRing.Ring.Begin: a callback is taken to read the bytes, or copy the carrier, it is handed while the slot still holds them; `BusRing.Ring.StillThere` says how long that is.
- NodeDispatch.Node.RegisterSubscriber: quality of service, type ids, capture rules, same-host rings and endpoint events are passed along by the code and not modelled; a demand is not filtered by scope, as with the defaults the node passes.
- NodeDispatch.Node.NoteFromCard: parsing a card's fields is left out; a card says what was found in it.
- Recorder.Block.Record: the bytes of a record, sync markers and the captured time span are not modelled; a frame has a size and an identity. The bytes are in `RecorderBytes.Twin.Record`.
- Executor.Exec.Return: what a write to a destroyed timer does is not modelled; such writes are counted, and `Executor.Run` speaks of runs without one.
- WindowedProbe.Probe.IssueSlot: the publish itself is left out; echoes are arbitrary, so lost, late and unexpected ones are all covered.
- PcapngRoundTrip.RoundTrip: decoding the flat stream before and writing the file after are left out.
- LoanPool.Traffic.Die: moving the pool's handle, which only passes the block's address on, is left out.
- RxHandoff.NextPlaced: that a closed channel's receive task stops is left out; it only ends that task's steps early.
- Exceptions swallowed in destructors, logging, and memory orderings weaker than atomic steps.
- The two-argument `notifier_signal`, whose consumer side is elsewhere.
- The executor and timers of the FreeRTOS backend: the same step loop with a bounded queue, without a re-entrancy question of its own.
- Sockets, listeners, TLS and DTLS channels, AEAD paths, rekeying, reassembly, discovery, shared-memory brokers and schema export: input and output over libraries that are not part of this model.
