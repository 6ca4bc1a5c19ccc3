# Fusion: a verified model

Fusion is an IPC kernel module. All its entry points run under one global lock, which is
released only while a thread waits, so its code is a transition system whose atomic steps
are the pieces between two waits. This project models the parts of it that carry state
across such steps, and the containers they rest on, and proves what callers rely on.

Operations that change state in place are classes whose methods follow the source's own
loops and branches. Each method is proved against functions on values, and the main results
are lemmas about those functions, most of them over whole runs.

| file | models |
|---|---|
| `skirmish.dfy`, `lending.dfy` | recursive locks with a two-slot stack of loans, and the lending protocol over runs |
| `call.dfy`, `rpc.dfy`, `serials.dfy`, `device.dfy` | synchronous calls, serials, calls and locks together, and both on the objects of a device |
| `refs.dfy`, `throws.dfy` | reference counts with inheritance, and throwing references |
| `message.dfy`, `pipeline.dfy`, `packet.dfy`, `fusionee.dfy` | message format, message queue over runs, packet buffers, the queue on packet objects |
| `reactor.dfy` | attachments, and the completion counter of a dispatch |
| `hash.dfy`, `list.dfy`, `entries.dfy`, `shmpool.dfy` | the containers and the address allocator |
| `onepacket.dfy`, `oneapp.dfy` | linux-one: packets, receiving from several queues |
| `onequeue.dfy`, `attachments.dfy` | linux-one: virtual queues, and how often queues are attached over runs |
| `errno.dfy`, `sequences.dfy`, `idlist.dfy` | results, searching in sequences, and small facts about sequences and id lists |

Check it with `dafny verify --resource-limit 2000000 --verification-time-limit 0 dfyconfig.toml`.

## What to know when reading

- **Steps and sleeping.** A synchronous call sleeps up to twice: its send may wait for room in
  the callee's queue before anything is lent, and then it waits for its result. A thread in
  `pending` is asleep; the phase says where. A method that would sleep returns `Eagain` in the
  state in which it would go to sleep, and is called again when woken.
- **What runs assume.** Callers act only while awake; a callee returns a call itself, after the
  call's message was queued, with the lent locks dismissed and nothing lent on top
  (`Lending.DisciplineIsExact` shows that this is precisely what is needed); a call is destroyed
  only when nobody waits on it; and, in the runs of `rpc.dfy`, a call does not draw a serial that
  one of its executions still has. `serials.dfy` drops the last assumption: it holds throughout a
  run if and only if no call begins while an execution of it is a multiple of 2^32 - 1 draws old
  (`Serials.RunExactly`), and `Serials.SerialInUse` is a run that gets there. A bound on the number
  of calls in flight at one time would not do: one execution left waiting long enough is enough.
- **Both loan slots taken.** A third lender's lock stays with the sleeping caller and comes back
  to it unchanged (`Lending.LoanStays`).
- **Assertions.** Methods return `held`, whether every assertion they reached held, and the methods
  of `Device.FusionDev` prove it true in every state a run can reach.
- **Inheritance.** The code does not check for cycles. `Refs.Refs.Inherit` requires that the
  parent is not below the reference: `Refs.AcyclicExactly` shows that nothing weaker keeps
  inheritance free of cycles, and `Refs.PushNeverEnds` that in a cycle the recursion has no end,
  so that no outcome could be stated. Notifications are a log.
- **Failed copies.** When a read fails after it has copied a packet to the reader, that packet
  has left the queue, and the reader is told nothing was read. `Pipeline.LossExactly` says when,
  by the state before the read; `Pipeline.LosingRun` is a run in which it happens.
- **Failed sends in a dispatch.** The counter is not taken back, so the completion call never
  comes (`Reactor.CompletesExactlyOnce`).
- **Detach.** Detaching from a channel with count zero is noticed only if the node's array ends
  before it; otherwise the count goes negative (`Reactor.DetachBelowZero`).
- **Entry table.** The result of the hash insertion is ignored, so an entry can be in the list and
  not be found by its id (`Entries.LostEntry`); `Entries.AgreementExactly` says for which ids.
- **Throws.** A throw compares throws and counts for equality only, and a count can be taken away
  while throws are outstanding. `throws.dfy` says exactly when the throws of a fusionee stay within
  its counts; `Throws.ThrowsGetAhead` shows them exceeding.
- **First pool.** The first pool is not rounded, so it is 64 KiB aligned only if the window starts
  at such an address.
- **Split headers.** A packet header that is divided between segments is read from a wrong address
  from the second piece on, since the offset is scaled by the header's size (one/packet.c:169).
- **Environment.** Failing allocations and copies, and the thread and fusion ids of callers, are
  parameters. A failing copy is given as the number of copies that succeed before it, counted over
  the whole read or receive.

## Model

| member | source | states |
|---|---|---|
| `Lending.RunsAreSafe` | linux/drivers/char/fusion/skirmish.c:712-861 | Over every run of create, destroy, prevail, dismiss, read, execute, send, return and reclaim by any number of threads and locks, the invariant holds in every state and no assertion that a transfer, return or reclaim reaches can fail |
| `Lending.StepKeepsInv` | linux/drivers/char/fusion/skirmish.c:712-861 | One step of such a run keeps the invariant (slots backed by calls in progress, second slot only above a first, `-1` exactly while the topmost call is returned) and passes its assertions |
| `Lending.LendingRoundTrip` | linux/drivers/char/fusion/skirmish.c:768-818 | Whatever the other threads do in between, reclaim gives a caller back each lock it held when its message was sent: its pid, its recursion count, its fusion id, and the loans below it |
| `Lending.HeldUntilSent` | linux/drivers/char/fusion/skirmish.c:712-766 | From the start of a call until its message is sent no step changes a lock the caller holds |
| `Lending.CallRoundTrip` | linux/drivers/char/fusion/skirmish.c:712-818 | The same for a whole call, from its start to its reclaim, also while its send was asleep |
| `Lending.LoanStays` | linux/drivers/char/fusion/skirmish.c:723-764 | From transfer to reclaim a loan keeps lender, borrower, count and serial in its slot; with both slots taken the lock stays as it was |
| `Lending.LentLockGoesToTopBorrower` | linux/drivers/char/fusion/skirmish.c:312-330 | From transfer to reclaim a lent lock is newly acquired by prevail only by the dispatcher of the topmost borrower and before the call is returned; the only other taker is a second lender reclaiming its own loan |
| `Lending.BorrowerEntersExactly` | linux/drivers/char/fusion/skirmish.c:312-330 | And he gets it: between transfer and reclaim a thread that prevails on a lent lock obtains it if and only if the lock is free and the thread is the dispatcher of the topmost borrower, or the thread holds it already; loans and count are then as said |
| `Lending.DispatcherIsLastReader` | linux/drivers/char/fusion/fusionee.c:716-716 | That dispatcher is the thread that was the last to read the borrower's messages |
| `Lending.ReturnedLockIsReserved` | linux/drivers/char/fusion/skirmish.c:312-330 | Once the call is returned the lock is marked `-1` and no step but the lender's reclaim changes it |
| `Lending.DisciplineIsExact` | linux/drivers/char/fusion/skirmish.c:820-861 | Return followed by reclaim passes every assertion and gives every lent lock to its lender if and only if the callee itself returns, with the lent locks dismissed and nothing lent on top |
| `Lending.CountIsBalance` | linux/drivers/char/fusion/skirmish.c:396-425 | Over any run, the count of a lock is how often its holder took it and did not dismiss it; the lock stays with the holder, whatever the others do, until the count is zero, and is free then |
| `Lending.TakenUntilDismissed` | linux/drivers/char/fusion/skirmish.c:396-425 | A free lock taken n times by a thread is free again, as it was, exactly after n dismisses by that thread |
| `Skirmish.PrevailsExactly` | linux/drivers/char/fusion/skirmish.c:312-330 | Prevail succeeds if and only if the thread holds the lock, or the lock is free and not lent, or free and lent to a fusionee whose dispatcher the thread is; what the lock is then |
| `Skirmish.DismissUndoes` | linux/drivers/char/fusion/skirmish.c:396-425 | Dismissing undoes prevailing |
| `Skirmish.FusionSkirmish.Prevail` | linux/drivers/char/fusion/skirmish.c:226-333 | One attempt on one lock, as `Skirmish.PrevailsExactly` describes it: recursion, or a fresh acquisition, or waiting |
| `Skirmish.FusionSkirmish.Lend` | linux/drivers/char/fusion/skirmish.c:723-764 | What transfer does to one lock, with whether its assertions held |
| `Skirmish.FusionSkirmish.Reclaim` | linux/drivers/char/fusion/skirmish.c:777-816 | What reclaim does to one lock, with whether its assertions held |
| `Skirmish.FusionSkirmish.Return` | linux/drivers/char/fusion/skirmish.c:829-859 | What return does to one lock, with whether its assertions held |
| `Skirmish.Skirmishes.Prevail` | linux/drivers/char/fusion/skirmish.c:226-333 | Looks the lock up and makes one such attempt on it; an unknown id fails, no other lock changes |
| `Skirmish.Skirmishes.Dismiss` | linux/drivers/char/fusion/skirmish.c:396-425 | Only the holder releases one recursion level (`Lending.CountIsBalance`); the last one frees the lock |
| `Skirmish.Skirmishes.TransferAll` | linux/drivers/char/fusion/skirmish.c:712-766 | The loop lends every lock the thread holds and changes no other; it reports exactly whether all assertions held |
| `Skirmish.Skirmishes.ReclaimAll` | linux/drivers/char/fusion/skirmish.c:768-818 | The loop takes back every lock whose topmost loan is the thread's, and changes no other |
| `Skirmish.Skirmishes.ReturnAll` | linux/drivers/char/fusion/skirmish.c:820-861 | The loop marks every lock whose topmost loan matches callee, caller and serial, and changes no other |
| `Skirmish.Skirmishes.New` | linux/drivers/char/fusion/skirmish.c:221-224 | A new lock is free and has an id no lock had before; without memory for the entry nothing changes |
| `Rpc.RunKeepsInv` | linux/drivers/char/fusion/call.c:267-442 | In every reachable state of calls and locks together, each execution belongs to one sleeping thread, carries the serial its loans carry, and is executed exactly when its thread is to wake |
| `Rpc.StepKeepsInv` | linux/drivers/char/fusion/call.c:267-442 | One atomic piece of execute or return, or any step on the locks, keeps that |
| `Rpc.RunRefinesLending` | linux/drivers/char/fusion/call.c:381-436 | Seen from the locks, every run of calls is a run of the lending protocol, so all that is proved of lending holds for calls |
| `Rpc.WokenByItsReturn` | linux/drivers/char/fusion/call.c:381-436 | A caller that wakes up gets exactly the value of the one return that named its serial; that return was accepted after the call began and no other was |
| `Rpc.ReturnReachesCaller` | linux/drivers/char/fusion/call.c:641-676 | The converse: a return that names the serial of a thread that still waits is accepted, goes to this thread, stores its value with its execution and no other, and the thread may then wake up |
| `Rpc.ExecutionStands` | linux/drivers/char/fusion/call.c:641-676 | While its caller sleeps an execution stands under its own serial, unexecuted until the first return that names it and unchanged by every later step |
| `Rpc.CallReturnsLocks` | linux/drivers/char/fusion/call.c:267-442 | From execute to wake in a run of calls and locks together: a caller has every lock again that it held when it called, with its pid, recursion count, fusion id and the loans below it, whatever other threads and calls did in between |
| `Serials.RunExactly` | linux/drivers/char/fusion/call.c:329-342 | A run in which nothing is assumed of serials is one in which every draw is fresh if and only if no call begins while an execution of the same call is a multiple of 2^32 - 1 draws old |
| `Serials.SerialsStayDistinct` | linux/drivers/char/fusion/call.c:329-342 | Over runs that assume nothing of serials but that no call begins at such a moment, the executions of a call have distinct serials, none of them zero |
| `Serials.YoungIsOffBeat` | linux/drivers/char/fusion/call.c:329-342 | It is enough that fewer than 2^32 - 1 serials of the call are drawn during any one execution |
| `Serials.SerialInUse` | linux/drivers/char/fusion/call.c:329-342 | One call that waits and 2^32 - 2 calls without a result lead, from the beginning, to a call that would get the serial of the one waiting |
| `Serials.FreshExactly` | linux/drivers/char/fusion/call.c:329-342 | In any reachable state the next serial of a call differs from those of all executions in flight if and only if none of them began a multiple of 2^32 - 1 draws ago |
| `Serials.ReusedExactly` | linux/drivers/char/fusion/call.c:329-342 | The next serial is that of a given execution in flight exactly when a multiple of 2^32 - 1 serials were drawn since it began |
| `Serials.SerialIsNth` | linux/drivers/char/fusion/call.c:329-331 | A call's serial counter is determined by how many serials were drawn, by calls with and without a result |
| `Call.SerialsCollideExactly` | linux/drivers/char/fusion/call.c:329-331 | The m-th and n-th serials of a call are equal if and only if m - n is a multiple of 2^32 - 1, zero being skipped |
| `Call.FusionCall.DrawSerial` | linux/drivers/char/fusion/call.c:329-331 | The wrapping loop ends and yields the next non-zero 32-bit serial |
| `Call.FusionCall.Begin` | linux/drivers/char/fusion/call.c:329-342 | Draws a serial and appends an unexecuted execution; without memory the serial is used up and nothing is appended |
| `Call.FusionCall.Return` | linux/drivers/char/fusion/call.c:621-683 | The oldest unexecuted execution with that serial gets the value, or, if a signal has interrupted its caller, leaves the list with -EIDRM; serial zero and unknown serials fail and change nothing |
| `Call.FusionCall.Interrupt` | linux/drivers/char/fusion/call.c:396-414 | The caller leaves its execution behind, marked, and nothing else changes |
| `Call.InterruptedIsDropped` | linux/drivers/char/fusion/call.c:655-660 | The return of an interrupted execution takes it out of the list and does nothing else: no value is stored, no other execution is completed instead |
| `Call.FusionCall.Finish` | linux/drivers/char/fusion/call.c:422-429 | The caller takes the result and its own execution leaves the list |
| `Device.FusionDev.Execute` | linux/drivers/char/fusion/call.c:267-342 | On the call objects and lock objects of a device, does exactly the execute step of the world; without memory for the execution, the step of a call without result, which uses a serial up |
| `Device.FusionDev.Sent` | linux/drivers/char/fusion/call.c:381-390 | The transfer step on the objects; in every legal state no assertion in it fails |
| `Device.FusionDev.Return` | linux/drivers/char/fusion/call.c:621-683 | The return step on the objects, in runs without interrupted calls: status for every case, executions and locks as the world step says, no assertion fails |
| `Device.FusionDev.Wake` | linux/drivers/char/fusion/call.c:422-436 | The reclaim step on the objects: result taken, execution removed, locks reclaimed, no assertion fails |
| `Refs.LocalIsChainTotal` | linux/drivers/char/fusion/ref.c:632-653 | In a conserved acyclic table each local count equals the fusionees' own counts summed along the whole chain of parents, so it is never negative |
| `Refs.ShiftConserves` | linux/drivers/char/fusion/ref.c:632-653 | Changing a reference's own counts by `diff` and adding `diff` to it and all below it keeps the conservation law at every reference |
| `Refs.Refs.PropagateLocal` | linux/drivers/char/fusion/ref.c:632-653 | The recursion ends, adds `diff` to exactly the reference and everything inheriting from it, once each, changes nothing else, keeps every count non-negative, and notifies exactly those whose counts are zero afterwards, once each |
| `Refs.Refs.AddLocal` | linux/drivers/char/fusion/ref.c:521-554 | Adds to the fusionee's count or refuses, moving the node found to the front either way |
| `Refs.AddedTotal` | linux/drivers/char/fusion/ref.c:521-554 | A change that succeeds adds exactly `add` to the sum of the counts and keeps each at zero or more; a refused one adds nothing |
| `Refs.AddedExactly` | linux/drivers/char/fusion/ref.c:521-554 | A change of a count succeeds if and only if the count does not fall below zero and there is a node for it or one can be made; it changes that count by exactly as much and no other, wherever in the list it is |
| `Refs.ChangedExactly` | linux/drivers/char/fusion/ref.c:521-554 | The same for the table: one count of one fusionee on one reference changes |
| `Refs.Refs.Up` | linux/drivers/char/fusion/ref.c:162-189 | All outcomes; fails for a fusionee only without memory for its first count; adds exactly one to that count and to no other; keeps conservation; pushes one reference down to all inheritors |
| `Refs.Refs.Down` | linux/drivers/char/fusion/ref.c:191-227 | All outcomes; succeeds for a fusionee if and only if it has a count; takes exactly one off that count and off no other; keeps conservation; notifies exactly what reached zero |
| `Refs.Refs.Throw` | linux/drivers/char/fusion/ref.c:266-296 | All outcomes; a throw is appended unless the thrower has no count, or exactly as many throws as counts |
| `Throws.ThrowKeeps` | linux/drivers/char/fusion/ref.c:285-285 | Where no fusionee has thrown more than its count, that guard is enough for a throw to keep it so |
| `Throws.UpKeeps` | linux/drivers/char/fusion/ref.c:162-189 | Going up keeps it so, whether it succeeds or not |
| `Throws.DownKeepsExactly` | linux/drivers/char/fusion/ref.c:191-227 | A successful down keeps it so if and only if the fusionee had thrown less than its count; the code does not look |
| `Throws.ClearKeepsExactly` | linux/drivers/char/fusion/ref.c:556-578 | A fusionee that leaves keeps it so if and only if it has no throws outstanding |
| `Throws.CatchKeeps` | linux/drivers/char/fusion/ref.c:229-264 | A catch keeps it so |
| `Throws.ThrowThenCatch` | linux/drivers/char/fusion/ref.c:229-296 | What is thrown can be caught by the one it was thrown to, which leaves the throws as they were |
| `Throws.ThrowsGetAhead` | linux/drivers/char/fusion/ref.c:285-285 | Up, up, throw, throw, down, throw by one fusionee all succeed and leave three throws and one count |
| `Refs.Refs.Catch` | linux/drivers/char/fusion/ref.c:229-264 | Uses up the oldest throw for the catcher and takes one count from its thrower if and only if the thrower has one; otherwise the throw is used up and the catch fails |
| `Refs.Refs.Inherit` | linux/drivers/char/fusion/ref.c:403-434 | All outcomes, for a parent that is not below the reference; links the reference and pushes the inherited count down, keeping conservation, and notifies exactly what is at zero then |
| `Refs.AcyclicExactly` | linux/drivers/char/fusion/ref.c:403-434 | Inheriting keeps inheritance free of cycles if and only if the parent is not already below the reference |
| `Refs.PushNeverEnds` | linux/drivers/char/fusion/ref.c:632-653 | Where the parent is below the reference, propagation along the linked inheritors comes back to the reference again and again, deeper than any bound |
| `Refs.InheritedConsistent` | linux/drivers/char/fusion/ref.c:423-431 | The table after inheriting conserves counts and has exact inheritor lists over the deepened forest |
| `Refs.Refs.DropInheritors` | linux/drivers/char/fusion/ref.c:686-704 | Every inheritor loses exactly what it inherited and becomes a root, one after the other, while the rest stays conserved |
| `Refs.Refs.Destroy` | linux/drivers/char/fusion/ref.c:99-110 | Destroying a reference takes its count from everything below it, makes its inheritors roots, takes it off its parent's list, and notifies exactly what reached zero |
| `Refs.DestroyedAt` | linux/drivers/char/fusion/ref.c:99-110 | What destruction means for each other reference, field by field |
| `Refs.Refs.ClearLocal` | linux/drivers/char/fusion/ref.c:556-578 | Takes a leaving fusionee's lock and count off one reference: the table is the old one with its entry gone and its count taken from the reference and all below it; notices go to exactly those of them that are at zero then, and to none if the count was zero |
| `Refs.Refs.ClearAllLocal` | linux/drivers/char/fusion/ref.c:455-461 | Takes a leaving fusionee's counts and locks off all references, keeping conservation throughout; in all, exactly those references are notified, once each, whose local count went down and whose counts are zero at the end |
| `Refs.Refs.ZeroTrylock` | linux/drivers/char/fusion/ref.c:325-343 | Locks a reference only if it is unlocked and both counts are zero |
| `Refs.Refs.ZeroUnlock` | linux/drivers/char/fusion/ref.c:345-360 | Only the owner unlocks |
| `Refs.Refs.New` | linux/drivers/char/fusion/ref.c:157-160 | A new reference has an id no reference had, zero counts, no parent and no inheritors; without memory nothing changes |
| `Messages.ParseEncodeAll` | linux/drivers/char/fusion/fusionee.c:136-167 | Parsing header by header, stepping by the rounded size, gives back exactly the messages packed, in order |
| `Messages.WordRoundTrip` | linux/drivers/char/fusion/fusionee.c:147-150 | A 32-bit header field is read as it was written, negative values included |
| `Messages.WordLayout` | linux/drivers/char/fusion/fusionee.c:147-150 | A header field is stored low byte first, negative numbers as their two's complement |
| `Messages.Layout` | linux/drivers/char/fusion/fusionee.c:136-167 | A message is its kind, id, size and channel, its data, and zero bytes up to the next multiple of four |
| `Packets.Packet.Write` | linux/drivers/char/fusion/fusionee.c:125-170 | Writes header, both data parts and zero padding behind what is there; the size assertion holds; a failed copy leaves size and contents |
| `Packets.Packet.Add` | linux/drivers/char/fusion/fusionee.c:671-700 | Write, callback and flush mark; when there is no memory for the callback the message is rolled back |
| `Pipeline.AlignedFits` | linux/drivers/char/fusion/fusionee.c:266-266 | With a size that is a multiple of four, the room check on the unaligned size guarantees room for the aligned one |
| `Pipeline.RunKeepsInv` | linux/drivers/char/fusion/fusionee.c:631-778 | Over any interleaving of sends and reads, with any failures: packets stay within 16384 bytes, all but the last queued one are flushed, what was sent is what left the queue followed by what is in it, and callbacks of what left have run or wait |
| `Pipeline.DeliveredInOrder` | linux/drivers/char/fusion/fusionee.c:705-778 | Over any run in which no read, seen before it, has room for more packets than can be copied and can copy at least one: the messages parsed from all bytes returned, followed by those still queued, are exactly the messages sent successfully, in order |
| `Pipeline.NothingLost` | linux/drivers/char/fusion/fusionee.c:705-778 | Over any run, messages were lost if and only if some read was of that kind |
| `Pipeline.FaultExactly` | linux/drivers/char/fusion/fusionee.c:737-759 | A read fails with a fault if and only if fewer copies succeed than there are flushed packets that fit its buffer, and then all copies that succeed have been made |
| `Pipeline.LosingRun` | linux/drivers/char/fusion/fusionee.c:756-759 | For any two messages that do not fit into one packet: both are sent, one read fails in its second copy, and the first message is neither delivered nor queued |
| `Pipeline.LossExactly` | linux/drivers/char/fusion/fusionee.c:756-759 | A read loses messages if and only if, in the state before it, its buffer has room for more packets than can be copied and at least one can be; it then loses exactly the messages of the packets copied |
| `Pipeline.CallbacksRunOnNextRead` | linux/drivers/char/fusion/fusionee.c:718-775 | Each read runs exactly the callbacks of everything delivered before it, once and in order, and none of its own; sends run none |
| `Pipeline.SentItems` | linux/drivers/char/fusion/fusionee.c:631-703 | A send appends its message at the end if it succeeds, and otherwise changes no queued message |
| `Pipeline.SentStatusExactly` | linux/drivers/char/fusion/fusionee.c:631-703 | When a send succeeds, and what it says otherwise |
| `Pipeline.SentExactly` | linux/drivers/char/fusion/fusionee.c:250-295 | A message goes to the last packet if it has room there, and else to another one, a free one first; it is last in it; the packet is flushed if asked for or if it was; the one before is flushed, the others are as they were |
| `Pipeline.CountExactly` | linux/drivers/char/fusion/fusionee.c:737-760 | A read takes flushed packets as far as they fit its buffer and can be copied, and stops at the first that is not flushed, does not fit or cannot be copied |
| `Pipeline.ReadStatusExactly` | linux/drivers/char/fusion/fusionee.c:718-760 | What a reader is told, by the state before the read |
| `Pipeline.FlushedIsRead` | linux/drivers/char/fusion/fusionee.c:671-760 | A message sent with the flush flag is there for the next reader with room enough, with all that was sent before it |
| `Pipeline.ReadFrees` | linux/drivers/char/fusion/fusionee.c:297-318 | Packets are not lost: those taken wait with their callbacks or are free again, those that waited are free, and twelve at most are kept |
| `Pipeline.CarriesCallback` | linux/drivers/char/fusion/fusionee.c:683-690 | A message carries the callback it was sent with, if there is one |
| `Pipeline.WaitsExactly` | linux/drivers/char/fusion/fusionee.c:654-661 | A sender waits exactly for a queue of more than ten packets, if it is neither the kernel nor the master nor the reader, and does not leave |
| `Pipeline.QueueStaysShort` | linux/drivers/char/fusion/fusionee.c:654-661 | Over any run in which only such senders send, and only when they need not wait, the queue never holds more than eleven packets |
| `Pipeline.ReadKeeps` | linux/drivers/char/fusion/fusionee.c:705-778 | A read takes a prefix of the queue and leaves the rest; its callbacks wait, the earlier ones have run |
| `Fusionees.GetPacket` | linux/drivers/char/fusion/fusionee.c:250-295 | On packet objects: reuses the last packet, a free one or a new one, marks the full one, and leaves room for the message |
| `Fusionees.PutPacket` | linux/drivers/char/fusion/fusionee.c:297-318 | Empties a packet and keeps at most twelve |
| `Fusionees.SendMessage` | linux/drivers/char/fusion/fusionee.c:631-703 | On packet objects, does what the pipeline's send does, byte for byte |
| `Fusionees.FlushPackets` | linux/drivers/char/fusion/fusionee.c:1120-1133 | Runs the callbacks of each packet in turn and puts it back |
| `Fusionees.GetMessages` | linux/drivers/char/fusion/fusionee.c:705-778 | On packet objects, does what the pipeline's read does; the bytes returned encode the messages taken and fit the buffer |
| `Fusionees.Fusionee.Send` | linux/drivers/char/fusion/fusionee.c:631-703 | A send on one fusionee is the pipeline's send, or asks the sender to wait |
| `Fusionees.Fusionee.Read` | linux/drivers/char/fusion/fusionee.c:705-778 | A read on one fusionee is the pipeline's read |
| `Reactor.CompletesExactlyOnce` | linux/drivers/char/fusion/reactor.c:247-366 | In every state of a dispatch's run the completion call has been executed once if every recipient's callback has run and not at all otherwise; the counter is positive while the loop is not done; at the end it completes if and only if no send failed |
| `Reactor.CompletesWhenAllHaveRun` | linux/drivers/char/fusion/reactor.c:325-366 | The completion call has been executed if and only if the callback has run once for every fusionee attached to the channel but the sender, and for nobody else |
| `Reactor.RunKeepsInv` | linux/drivers/char/fusion/reactor.c:325-363 | The counter counts callbacks to come, the send under way and failed sends; the dispatch object is not touched after it was freed |
| `Reactor.RecipientsExactly` | linux/drivers/char/fusion/reactor.c:325-330 | A dispatch goes to each attached fusionee but the sender exactly once, and to nobody else |
| `Reactor.FusionReactor.Attach` | linux/drivers/char/fusion/reactor.c:139-204 | The status of every case; adds exactly one attachment, growing the array if needed, or none on failure |
| `Reactor.FusionReactor.Detach` | linux/drivers/char/fusion/reactor.c:206-245 | Takes exactly one attachment away; counts stay non-negative if and only if the fusionee was attached to that channel; an idle node goes away |
| `Reactor.DetachBelowZero` | linux/drivers/char/fusion/reactor.c:206-245 | A fusionee attached to channel 0 only detaches from channel 1 with success, and has a count of minus one there |
| `Reactor.FusionReactor.NextRecipient` | linux/drivers/char/fusion/reactor.c:325-330 | The loop's skip condition finds the next recipient |
| `Reactor.ReactorDispatch.MessageCallback` | linux/drivers/char/fusion/reactor.c:259-270 | Counts down, and at zero executes the completion call and frees the object |
| `Hash.ResizePaid` | linux/drivers/char/fusion/hash.c:426-481 | A resize is due only after enough operations since the last one that succeeded to pay for it twice over, whatever allocations failed before |
| `Hash.PrimesSpaced` | linux/drivers/char/fusion/hash.c:59-95 | Consecutive primes of the table grow by a factor below two |
| `Hash.ResizedFits` | linux/drivers/char/fusion/hash.c:426-455 | The size chosen for any number of nodes is in range and does not call for another resize |
| `Hash.LoadExactly` | linux/drivers/char/fusion/hash.c:426-439 | No resize is due exactly if there are fewer than three nodes per chain or the table is as large as can be, and it is less than three times as large as it has nodes or as small as can be |
| `Hash.NewSizeFor` | linux/drivers/char/fusion/hash.c:104-112 | The search yields a prime of the table: the smallest above the number, or the last one if there is none |
| `Hash.FlattenIsMap` | linux/drivers/char/fusion/hash.c:384-403 | The nodes of all chains are the pairs of the map, each once, and their number is its size |
| `Hash.FusionHash.Lookup` | linux/drivers/char/fusion/hash.c:230-237 | Finds exactly what the map holds |
| `Hash.FusionHash.Insert` | linux/drivers/char/fusion/hash.c:250-276 | Adds a pair unless the key is there or memory is short; the table is replaced exactly when a resize is due and there is memory for it, by one of the smallest fitting prime size, so that with memory chains stay shorter than three on average; through any resize the table stays the map and its node count exact; all nodes relinked since the table was made number at most twice the operations |
| `Hash.FusionHash.Replace` | linux/drivers/char/fusion/hash.c:291-332 | Sets the pair and hands out the previous value |
| `Hash.FusionHash.Remove` | linux/drivers/char/fusion/hash.c:351-369 | Takes the pair out and hands out its value; an absent key changes nothing |
| `Hash.FusionHash.Iterate` | linux/drivers/char/fusion/hash.c:384-403 | Visits nodes in order until told to stop, and otherwise all of them |
| `Hash.FusionHash.Resize` | linux/drivers/char/fusion/hash.c:440-481 | Relinks every node to a new table that is the same map and need not be resized; without memory nothing changes |
| `Lists.List.Prepend` | linux/drivers/char/fusion/list.h:40-65 | Puts the element in front |
| `Lists.List.Append` | linux/drivers/char/fusion/list.h:67-93 | Puts the element at the end |
| `Lists.List.Insert` | linux/drivers/char/fusion/list.h:95-128 | Puts the element in front of another, or at the end |
| `Lists.List.Remove` | linux/drivers/char/fusion/list.h:161-198 | Takes the element out; all others keep their order |
| `Lists.List.MoveToFront` | linux/drivers/char/fusion/list.h:211-251 | Moves the element to the front; all others keep their order |
| `Lists.List.Last` | linux/drivers/char/fusion/list.h:200-209 | Finds the last element without walking |
| `Lists.List.Forward` | linux/drivers/char/fusion/list.h:264-267 | Visits exactly the elements, in order |
| `Lists.List.Backward` | linux/drivers/char/fusion/list.h:279-282 | Ends, and visits exactly the elements in reverse order |
| `Entries.AgreementExactly` | linux/drivers/char/fusion/entries.c:263-265 | In every state of any run of creation and destruction, the hash and a scan of the list agree on an id if and only if no live entry of this id was created while the hash had no memory for a node |
| `Entries.FindsScanned` | linux/drivers/char/fusion/entries.c:231-321 | In every such state a lookup finds what a scan finds, and nothing for the ids created without a node |
| `Entries.NeverReused` | linux/drivers/char/fusion/entries.c:249-249 | Over any run an id that was handed out and is gone is never found again |
| `Entries.DestroyedForGood` | linux/drivers/char/fusion/entries.c:272-321 | Over any run, an entry destroyed by an id that lookups find, or by pointer, is found by no lookup and no scan afterwards |
| `Entries.LivesUntilDestroyed` | linux/drivers/char/fusion/entries.c:272-321 | And until it is destroyed itself, whatever is created and destroyed, an entry stays as it is in both views |
| `Entries.CreatedIsFound` | linux/drivers/char/fusion/entries.c:231-270 | A creation that succeeds hands out an id nobody had, under which its entry is then found |
| `Entries.LostEntry` | linux/drivers/char/fusion/entries.c:263-265 | One creation without memory for the node leaves an entry in the list that no lookup finds |
| `Entries.FusionEntries.Create` | linux/drivers/char/fusion/entries.c:231-270 | Does the creation step of these runs on the list and the hash object: ids grow, also when initialisation fails, the entry is first in the list, and a failed hash insertion goes unnoticed |
| `Entries.FusionEntries.Lookup` | linux/drivers/char/fusion/entries.c:425-461 | Finds what scanning the list would find, or -EINVAL; entries the hash has no node for are not found |
| `Entries.FusionEntries.Search` | linux/drivers/char/fusion/reactor.c:255-258 | Scanning the list, as done where the hash is not used |
| `Entries.FusionEntries.Destroy` | linux/drivers/char/fusion/entries.c:272-290 | Does the destruction step by id, or fails; `Entries.DestroyedForGood` says what the step means |
| `Entries.FusionEntries.DestroyLocked` | linux/drivers/char/fusion/entries.c:292-321 | Does the destruction step by pointer: the entry leaves both views |
| `Entries.DestroyKeepsFit` | linux/drivers/char/fusion/entries.c:304-307 | Taking an entry out of both views is noticed by no scan or lookup for other ids |
| `ShmPools.PoolsApart` | linux/drivers/char/fusion/shmpool.c:105-134 | Live pools lie in the window with at least a page between any two; a pool is 64 KiB aligned if and only if it does not begin at an unaligned window start |
| `ShmPools.NextIsFirst` | linux/drivers/char/fusion/shmpool.c:128-129 | The next base is the first 64 KiB aligned address behind the pool and a guard page |
| `ShmPools.TrailingSpaceRecovered` | linux/drivers/char/fusion/shmpool.c:136-160 | Destroying the newest pool gives back exactly the address space it took |
| `ShmPools.FusionShmPools.Create` | linux/drivers/char/fusion/shmpool.c:105-134 | Places the pool at the base or refuses; the base is always the maximum of the initial base and the live pools' ends |
| `ShmPools.FusionShmPools.Destroy` | linux/drivers/char/fusion/shmpool.c:136-160 | Whichever pool goes, the loop recomputes the base and all live pools stay apart |
| `OnePackets.GatherThenScatter` | one/packet.c:79-196 | A packet that was written from segments and is read into a target whose segments do not divide its header arrives at the offset as its header, what it held before, and the bytes of the segments end to end; no other byte changes |
| `OnePackets.Scattered` | one/packet.c:140-196 | The reading half alone, for any packet |
| `OnePackets.ReadCorrectExactly` | one/packet.c:163-186 | A packet is read as it is, whatever its data, if and only if no segment of the target begins inside its header |
| `OnePackets.SplitSpoils` | one/packet.c:169-169 | Where the header is split there is a packet that is read wrongly |
| `OnePackets.GatheredExactly` | one/packet.c:114-130 | Without a fault a write succeeds exactly when the segments hold as many bytes as the header says |
| `OnePackets.GatherFaultsExactly` | one/packet.c:114-130 | A write runs into a fault exactly when the segments up to the first whose copy fails fit what the header says |
| `OnePackets.PiecesExactly` | one/packet.c:163-186 | A read makes one copy for each segment that a part of the header goes to, and one for each that a part of the data goes to |
| `OnePackets.OnePacket.Write` | one/packet.c:79-138 | All outcomes, and exactly when both assertions hold; success appends exactly the concatenated segments, failure leaves header and contents |
| `OnePackets.OnePacket.Read` | one/packet.c:140-196 | Succeeds if and only if all the copies that the segments call for succeed; the target is then what the copies' source addresses make it, the scaled one included; nothing outside the packet's range ever changes |
| `OnePackets.ReadMemory` | one/packet.c:140-196 | The loop makes exactly one copy per segment for a part of the header and one for a part of the data, and fails at the first that fails; otherwise it places every byte, and nothing is left over when there is room, so the final assertion holds |
| `OneApps.OneApp.Receive` | one/app.c:292-384 | For distinct ids: packets first in first out per queue; exactly the unread suffix stays queued; other queues are untouched; the linked queues are gone through in order, and those asked for are emptied and unlinked up to the one at which it stops, whose next packet does not fit or needs more copies than are left; it never stops with a fault if there are as many copies as bytes of buffer; the wake-up flags found and cleared are exactly those of the queues it got to, so a turn that does not stop is woken if and only if some queue asked for had its flag set; if no header is split the buffer holds the packets whole, end to end, and what it held before behind them |
| `OneApps.WokenExactly` | one/app.c:329-335 | A queue with its flag set is linked, so a turn that gets to the end has seen every flag |
| `OneApps.StillLinkedExactly` | one/app.c:280-286 | What stays linked are the queues behind those it got to, and those not asked for |
| `OneApps.RefusalExactly` | one/app.c:262-276 | A packet that fits the room to the last byte is taken if its copies succeed; one that does not fit is refused before any copy is made |
| `OneApps.FilledWhole` | one/app.c:250-290 | Packets none of whose headers is split lie in the buffer whole: header and data of each, in order and without gaps, and behind them what was there before |
| `OneApps.OneApp.ReceiveFrom` | one/app.c:250-290 | Takes packets while they fit and their copies succeed; it stops with success when none are left, and only then unlinks the target, with -E2BIG at one that does not fit, and with -EFAULT at one whose copies are more than are left |
| `OneApps.OneApp.ReceiveOne` | one/app.c:263-276 | Reads the first packet behind what was read before if its copies succeed, and takes it off; otherwise it stays queued |
| `OneApps.OneApp.Dispatch` | one/app.c:67-127 | All outcomes, and exactly when the assertion on the sizes holds; success appends one packet with exactly the bytes given and links the target, failure changes nothing |
| `OneApps.OneApp.WakeUp` | one/app.c:129-155 | Sets the flag and links the target |
| `OneApps.OneApp.DestroyTarget` | one/app.c:61-64 | A target that goes away is no longer linked |
| `OneApps.ConservedNext` | one/app.c:342-345 | One more target received from: per queue, what was taken and what is left still make up what was there |
| `OneQueues.NestedDestroysOne` | one/queue.c:687-691 | Destroying a virtual queue on the way destroys no other queue, so the saved next queue is never freed |
| `OneQueues.DetachedInv` | one/queue.c:664-693 | When all queues have been gone through no node names the destroyed queue any more, and no destroyed queue without nodes is left |
| `Attachments.StepExactly` | one/queue.c:215-356 | Every operation that succeeds does to each queue exactly what the attachments say: destroying takes away those to the destroyed queue and no others, attaching and detaching one; and a queue goes exactly when it is destroyed, now or before, and nothing is attached to it any more |
| `Attachments.StatusExactly` | one/queue.c:215-356 | When each operation succeeds, by the attachments there are |
| `Attachments.AttachedIsBalance` | one/queue.c:280-356 | Over any run, a live queue is attached to another exactly as often as it was attached and not detached, whatever was destroyed in between; a destroyed one not at all |
| `Attachments.DetachedKeeps` | one/queue.c:678-685 | Destroying a queue leaves every node for another queue as it is, in a queue that stays |
| `OneQueues.OneQueueTable.DetachAll` | one/queue.c:664-693 | The loop with its saved next element ends and yields exactly the table with the nodes for the id gone, no others (`Attachments.DetachedKeeps`), and the queues that only waited for that gone |
| `OneQueues.OneQueueTable.DestroyLocked` | one/entries.c:280-300 | Takes the queue off the list and detaches it everywhere, and nothing else, also when nested in another destruction |
| `OneQueues.OneQueueTable.Destroy` | one/queue.c:215-235 | Does the destruction step of `Attachments.StepExactly`: a queue with nodes is only marked; one without goes, with every queue that only waited for it |
| `OneQueues.OneQueueTable.Attach` | one/queue.c:280-319 | All outcomes; does the attaching step: one attachment more, every node naming a live real queue and carrying its target |
| `OneQueues.OneQueueTable.Detach` | one/queue.c:338-356 | All outcomes; does the detaching step: one attachment less, and a destroyed queue goes with its last node |
| `OneQueues.OneQueueTable.New` | one/queue.c:212-212 | A new queue has an id no queue had before |
| `OneQueues.OneQueueTable.Lookup` | one/entries.c:337-379 | Finds an id and moves it to the front, the others keeping their order |

## Left out

- Waiting on and notifying a skirmish, `swoop`, and the clean-up when a process exits: the code does not keep the lending protocol's facts there.
- Interrupted and resumed calls, in the runs: `Call.FusionCall` has `signalled` executions and -EIDRM, but the worlds of `rpc.dfy` leave them out, since a caller that is gone never reclaims what it lent.
- `fusion_call_execute2` and `fusion_call_execute3`: they differ in payload and result data only; results are one integer here.
- Call quotas, the free list of executions, and API versions before 4.
- Destroying a call while callers wait on it.
- Returns that name a call whose message is not queued yet: runs exclude them.
- `fork_local`, which adds to a fusionee's count but not to the local count, and the other fork functions; watches and the synchronous calls they make.
- Waiting for a zero count: only the variant that does not wait is modelled.
- Callbacks that send messages themselves while packets are being flushed.
- `fusionee_send_message`: it is `fusionee_send_message2` with the flush flag set, preceded by a lookup.
- Finding a fusionee, entering and leaving the world, killing, waiting for processing, and the end of the queue when a fusionee leaves.
- Dispatching to a reactor that goes away, or whose nodes change, while a send is asleep; the argument checks of a dispatch; destroying reactors.
- String keys: the hash function is arbitrary, and keys are compared by equality; freeing keys and values.
- Permissions, waiting on entries and names in the entry table; the mapping of pools into processes.
- `one_queue_new` with an id chosen by the caller, `one_queue_destroy_all`, `one_queue_add_target`, dispatching and waking through virtual queues, and everything that goes to another machine.
- Timeouts and signals while receiving, and statistics and time stamps everywhere.
- Device registration, ioctl decoding, /proc output, mmap and poll.
- Overflow of machine integers, except for call serials, header fields and pointer-sized hash keys: sizes and counts are taken to be small enough.
- Refs.Refs.Inherit: requires that the parent is not below the reference, because the code would otherwise not return (`Refs.PushNeverEnds`).
- Destroying a skirmish is a step of the lending protocol only.
- Device.FusionDev.Return: describes runs without interrupted calls; -EIDRM is an outcome of Call.FusionCall.Return.
- Refs.Refs.PropagateLocal: all references are records in one table that the methods update, so a parent is named by its id and not by a pointer.
- Hash.FusionHash.Link: a chain is a sequence in its bucket's array element; the `next` pointers inside a chain are not modelled, as the order of the chain is.
- Fusionees.GetMessages: the queues of packets are sequences in one record, where the source has linked lists; the packets themselves are objects written in place.
- OnePackets.ReadMemory: the segments of a target are one array laid end to end, so segments that overlap are not modelled.
- OneApps.OneApp.Receive: requires distinct ids, because an id given twice would unlink a target that is not linked any more, and describes one turn of the waiting loop; packets lie in a queue as values, since nothing writes to them any more.
- OneQueues.OneQueueTable.New: the target is made elsewhere and passed in.
- Lists.List.Remove: requires the element to be in the list, which the source only checks in debugging builds.
- Entries.FusionEntries.DestroyLocked: the destructor of the entry's class is called by the modules that have one.
