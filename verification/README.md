# Verification of the BlackHV device and memory state

BlackHV is a small KVM library in C. This project models the state behind its KVM calls and proves what the
library relies on: that no byte is lost between two threads, that guest memory behaves as one map from address to
byte, that the linked list stays a list, and that the ATAPI drive returns the blocks it is asked for.

The code that updates state in place is written as classes and methods in the same shape (same branches, same loops,
same constants); each method is proved against a function on values, and the theorems over whole runs are proved
about those functions.

| file | models | holds |
|---|---|---|
| `ByteRing.dfy` | src/queue.c | the ring buffer, one call at a time |
| `RingSteps.dfy` | src/queue.c | the same buffer as one writer thread and one reader thread interleave on it |
| `SerialLine.dfy` | src/serial.c | the UART: two rings behind guest ports |
| `LinkedList.dfy` | src/linked_list.c | the doubly linked list on the heap |
| `AddressSpace.dfy` | src/memory.c | regions, the overlap test, lookup, slots, the e820 image |
| `FlatMemory.dfy` | src/memory.c | guest memory as one map from address to byte |
| `GuestMemory.dfy` | src/memory.c | the operations on the linked list and on the region buffers |
| `Loader.dfy` | examples/guests/main.c | the loop that loads a file into guest memory |
| `PageAlign.dfy` | include/blackhv/memory.h | page rounding |
| `MmioTable.dfy`, `Mmio.dfy` | src/mmio.c | the handler table and its dispatch |
| `AtapiDrive.dfy` | src/atapi.c | the drive as a transition function |
| `AtapiTransfer.dfy` | src/atapi.c | theorems about whole runs of guest accesses |
| `Atapi.dfy` | src/atapi.c | the port handlers updating their static variables |
| `Bytes.dfy`, `Bits.dfy` | | machine word ranges; `\|`, `&`, `<<` as arithmetic |

`dafny verify dfyconfig.toml` checks everything.

## What is proved

**The ring between two threads.** `RingSteps` makes every access to a field the other thread may use a step of its
own, with the full and empty tests outside the mutex, as the code has them. In every interleaving the delivered bytes
followed by the ring are the stored bytes; the unlocked tests stay true until the mutex is held; and the answers of all
calls, also those turned away, are those of whole calls run one after the other (`EveryRunIsWholeCalls`), with one
exception: a non-empty queue can answer "empty" while it is completely full. `EmptyAnswerExactly` says when,
`SpuriousEmptyExists` gives a run, and a ring that never fills up has no exception (`RunThatNeverFillsIsExact`).
Waiting for the mutex is bounded (`ReaderWaitsBoundedly`, `WriterWaitsBoundedly`).

**The list.** `linked_list_add` points `prev` of the first node at the new last node (src/linked_list.c:42), so a list
of two or more nodes built by additions is not a textbook list. There are three tiers: `Forward` is what a walk along
`next` needs, `Valid` is what additions and front removals establish, `Tight` adds that the first node has no
predecessor. `Get`, `ForEach`, `Size`, `PopFront`, `Free` and `Add` work on every `Forward` list. The contracts of
`PopTail`, `RemoveElt` and `RemoveAt` say exactly (with `==`) which tier is left; `remove_eq` on a sound list ends if
and only if the list is tight or its first value stays (`RemoveEqEndsExactly`), and the reverse walk if and only if it
is tight. A list whose last node was popped can be left with a first `prev` that dangles (`Dangling`); what each call
then does, and which call is the first to break a list in any run, is stated exactly (`RemovableExactly`, `Replay`,
`BreaksExactly`). Every node ever allocated is in the list or was freed, once and not both.

**Guest memory.** The address sums wrap at 2^64 as in the code. After any run of allocations two regions are apart
exactly when the lower of them, by first byte, has an end that fits into 64 bits (`RunsAreApartExactly`); two inputs
show both ways in which regions come to overlap. A region that wraps answers no lookup, so the first match is always
the only match. A write changes exactly the bytes of the flat memory it should. Writing a file in chunks that start inside its region is one
write of the file; what the loader leaves otherwise is one write's memory exactly if the bytes past the region were
there already (`LoadingIsOneWriteExactly`).

**ATAPI.** From every state with no packet or transfer open and the master selected, a READ(12) transaction returns
status 2, the block, status 3, and leaves such a state; k transactions read k consecutive blocks. Other accesses may
come in between (`TransactionAmidOtherAccesses`): it is enough that the first six words written are the command, no
data is read before the hand-over, the master is selected at the two sector count reads that hand over and complete,
and no other one reports either. If the guest writes words while it reads, the next packet is open afterwards;
exchanges in which it does not, and reads exactly 1024 words, return consecutive blocks (`ConsecutiveExchanges`). The
byte offset is cut to 32 bits, so the block read is the address modulo 2^21 (`SeekWraps`): the right one exactly below
2^21.

**MMIO.** A guest store runs at most one handler, and exactly the registered one inside a live range.

## Where the code differs from its documentation

- DOCS.md calls `mmio_register` without its `vm` argument and names `vm_e820_table_get`; the code is followed.
- DOCS.md says `memory_alloc` takes `MEMORY_USABLE` or `MEMORY_MMIO`; the code also takes `MEMORY_FRAMEBUFFER` and
  stores it as `MEMORY_USABLE` (src/memory.c:70), so the e820 table reports a framebuffer as usable, and the test for
  `MEMORY_FRAMEBUFFER` in `memory_read` never matters.
- An unregistered MMIO slot still answers stores, and its range is never given out again (`DroppedSlotStillRuns`,
  `RangesAreNeverReleased`).
- DOCS.md describes the results of `memory_write` and `memory_read` as byte counts; they are -1 for an address that is
  not in usable memory.

## Model

| member | source | states |
|---|---|---|
| ByteRing.Queue.constructor | src/queue.c:5-29 | a new queue of any size has a buffer of that size; it is a sound, empty queue exactly if the size is not 0 |
| ByteRing.Queue.Write | src/queue.c:31-57 | appends exactly the first min(size, free) bytes and returns that number, across any wraparound |
| ByteRing.Queue.Read | src/queue.c:59-87 | removes exactly the oldest min(size, used) bytes, hands them over in order, touches nothing else of the buffer |
| ByteRing.Queue.Empty | src/queue.c:89-97 | the flag tells full from empty when the indices agree: empty exactly when no byte is held |
| ByteRing.WindowPush | src/queue.c:43-44 | storing at rear and moving it extends the ring by that byte and changes no byte held |
| ByteRing.WindowDrop | src/queue.c:73-74 | moving front past i bytes drops exactly the i oldest |
| RingSteps.StepInv | src/queue.c:31-97 | every enabled step of either thread is in bounds and keeps the invariant |
| RingSteps.RunInv | src/queue.c:31-97 | no interleaving of one writer and one reader leaves an array's bounds; every reachable state satisfies the invariant |
| RingSteps.NothingLostDuplicatedOrReordered | src/queue.c:38-84 | in every interleaving, at every moment, delivered bytes ++ bytes in the ring == stored bytes |
| RingSteps.UnlockedTestsAreStable | src/queue.c:33-47 | a writer that saw "not full" still has a free cell, and a reader that saw "not empty" a byte, when the copy loop begins |
| RingSteps.PollStaysTrue | src/queue.c:89-97 | a poll that answered "not empty" stays true whatever the writer does until the reader's read |
| RingSteps.CommittedIsDefined | src/queue.c:38-84 | the queue as it was when the mutex was taken is a stretch of the stored bytes in every reachable state |
| RingSteps.WriteIsAtomic | src/queue.c:38-56 | releasing the mutex completes exactly the write of the sequential queue, with its count |
| RingSteps.ReadIsAtomic | src/queue.c:67-86 | releasing the mutex completes exactly the read of the sequential queue, with its bytes |
| RingSteps.RefusedWriteIsAtomic | src/queue.c:33-36 | a write turned away by the unlocked test is one the sequential queue would turn away |
| RingSteps.OtherStepsAreInvisible | src/queue.c:31-97 | no other step changes the committed queue |
| RingSteps.EveryRunIsWholeCalls | src/queue.c:31-97 | every interleaving gives the answers and the contents of whole calls run one after the other, refused writes, empty-handed reads and polls included, except that "empty" is also answered while held and in-flight bytes fill the ring |
| RingSteps.EveryCallIsAnswered | src/queue.c:31-97 | in every run the reads, writes and polls called for are, in order and with their arguments, those answered in that history and the one still under way |
| RingSteps.FlaggedReadDelivers | src/queue.c:61-86 | a read called while the flag is set goes to the mutex and, whatever happens meanwhile, is answered with the oldest min(size, capacity) bytes, never with "empty" |
| RingSteps.PolledIsTheLastPoll | src/queue.c:89-97 | what the polling theorems take for a good poll is exactly one that was answered "not empty" since the last read that took bytes |
| RingSteps.EmptyAnswerExactly | src/queue.c:61-62 | a read or poll past the flag test answers "empty" exactly when the ring is empty or has become completely full |
| RingSteps.SpuriousEmptyExists | src/queue.c:44-62 | a run in which a read answers "empty" with two bytes waiting, after a poll that said "not empty" |
| RingSteps.RunThatNeverFillsIsExact | src/queue.c:31-97 | in a run in which the ring is never completely full every answer is that of whole calls, without exception |
| RingSteps.PolledReadFindsAByte | src/queue.c:59-97 | in such a run a read after a poll that said "not empty" goes on to the mutex and to a byte |
| RingSteps.HolderAlwaysProgresses | src/queue.c:41-84 | the mutex holder can always step and each of its steps brings the release nearer |
| RingSteps.NobodyIsStuck | src/queue.c:31-97 | a thread inside a call can step unless it waits for a mutex the other one holds, and an idle one can call |
| RingSteps.ReaderWaitsBoundedly | src/queue.c:38-67 | while the reader waits for the mutex, the writer gives it back at most once per free cell, and once more if it is inside with bytes copied |
| RingSteps.WriterWaitsBoundedly | src/queue.c:38-84 | while the writer waits for the mutex, the reader gives it back at most once per byte held, and once more |
| SerialLine.Serial.constructor | src/serial.c:84-121 | a new device has two empty queues of the given size, sound exactly if it is not 0 |
| SerialLine.Serial.OutB | src/serial.c:26-46 | a write to the port itself queues the byte if there is room; other ports change nothing |
| SerialLine.Serial.InB | src/serial.c:48-82 | at the port itself the oldest host byte is taken, or 0 read; five above, the line status, 0x21 if a byte waits and 0x20 if not; elsewhere 0, and nothing changes |
| SerialLine.RegisterExactly | src/serial.c:35-56 | a register is that many ports above the base, for every base and port, in 16 bits |
| SerialLine.LineStatusShowsExactly | src/serial.c:67-75 | the line status shows data ready if and only if a byte waits for the guest |
| SerialLine.Serial.Read | src/serial.c:141-149 | the host takes the oldest guest bytes; -1 and no change without a buffer |
| SerialLine.Serial.Write | src/serial.c:151-159 | the host's bytes are queued as far as they fit and counted; -1 and no change without a buffer |
| SerialLine.LineStatusBit | src/serial.c:68-72 | bit 0 of the line status is set exactly when a byte waits, bit 5 always |
| SerialLine.PlayKeepsSound | src/serial.c:20-159 | the conservation and polling invariant holds over every run of host and guest events |
| SerialLine.NothingLostOnTheLine | src/serial.c:20-159 | over any run and in both directions, taken bytes ++ queued bytes == accepted bytes |
| SerialLine.PollThenReadIsTheHostsStream | src/serial.c:60-75 | a guest that reads only after a poll that showed data reads exactly the host's bytes, never the filler 0 |
| SerialLine.PollSeesExactly | src/serial.c:67-75 | over any run, a poll shows data if and only if the guest has not read all that the queue took from the host |
| SerialLine.PollAndReadGetsThemAll | src/serial.c:60-75 | as many rounds of poll and read as bytes wait read them all, and every poll shows data |
| SerialLine.ReadsAreTheHostsStreamExactly | src/serial.c:60-66 | what the guest read is the host's stream if and only if no receive read found the queue empty |
| SerialLine.ReadyStaysTrue | src/serial.c:67-75 | between a poll that showed data and the guest's read, a byte is waiting |
| SerialLine.UnpolledReadCanBeFiller | src/serial.c:60-66 | an unpolled read can return a 0 nobody sent |
| SerialLine.GuestOutputArrivesExactly | src/serial.c:20-41 | what the host gets is what the guest wrote if and only if no transmitted byte found the queue full |
| SerialLine.GuestOutputCanBeDropped | src/serial.c:20-72 | a second byte to a line of one is lost while the line status shows the transmitter ready |
| LinkedList.List.constructor | src/linked_list.c:4-19 | a new list is empty and tight |
| LinkedList.List.Add | src/linked_list.c:21-53 | appends one fresh node; afterwards the list is sound, also if the first `prev` dangled before, and tight exactly when it has one node |
| LinkedList.List.Get | src/linked_list.c:55-75 | the value at the index, or nothing past the end |
| LinkedList.List.PopTail | src/linked_list.c:77-105 | removes and returns the last value, frees its node; exactly when the list is sound, and when walks along `next` still work, afterwards; otherwise the first `prev`, or the tail of the empty list, is a freed node |
| LinkedList.List.PopFront | src/linked_list.c:107-135 | removes and returns the first value, frees its node, and always leaves a tight list |
| LinkedList.List.Detach | src/linked_list.c:139-157 | the four pointer updates, when they keep to nodes of the list, change exactly the links of the neighbours, head and tail |
| LinkedList.List.Unlink | src/linked_list.c:137-167 | `remove_elt` when its neighbours are nodes of the list: one node goes, is released and freed once, and the other nodes keep their links but for the neighbours |
| LinkedList.List.RemoveElt | src/linked_list.c:137-167 | a walk along `next` works afterwards, or next and prev go round, and which; a sound list stays sound exactly if it was tight or the node was an inner one, and one whose first `prev` dangles stays that |
| LinkedList.List.RemovableExactly | src/linked_list.c:139-147 | from the lists operations leave, `remove_elt` keeps to nodes of the list if and only if the node is not the first or has no freed predecessor; otherwise it writes to that freed node |
| LinkedList.List.RemoveFromRing | src/linked_list.c:137-167 | on nodes that go round: the others still go round |
| LinkedList.UnlinkedIsChained | src/linked_list.c:139-157 | unlinking from a chain leaves a chain unless the first node goes and had a predecessor |
| LinkedList.UnlinkedGoesRound | src/linked_list.c:139-157 | in that case, with the last node as predecessor, the rest goes round in both directions |
| LinkedList.UnlinkedStaysRound | src/linked_list.c:139-157 | unlinking from a ring leaves a ring |
| LinkedList.List.RemoveAt | src/linked_list.c:169-190 | removes the node at the index and answers whether there was one, with the same exact conditions |
| LinkedList.List.RemoveEq | src/linked_list.c:192-218 | leaves the order-preserving filter of the nodes, frees and releases each dropped one once, returns their number; when the list stays sound, and that a dangling first `prev` stays the only flaw |
| LinkedList.List.RemoveEqNeverEnds | src/linked_list.c:200-217 | on a sound list whose first node has a predecessor and whose first value is to go, after any number of rounds the loop goes on or is about to look at a freed node |
| LinkedList.List.RemoveEqEndsExactly | src/linked_list.c:192-218 | on sound lists the loop ends, with the filtered list, if and only if the list is tight or its first value stays |
| LinkedList.List.ForEach | src/linked_list.c:220-235 | the callback sees every value in order with its position |
| LinkedList.List.ForEachRev | src/linked_list.c:237-252 | from a tight list the callback sees every value in reverse with positions n-1 down to 0 |
| LinkedList.List.BackwardsEndsIffTight | src/linked_list.c:245-251 | the reverse traversal ends if and only if the list is tight |
| LinkedList.List.LinksAreLive | src/linked_list.c:35-49 | no live node points to a freed one, but for the first `prev` of a list that is not sound |
| LinkedList.List.Replay | src/linked_list.c:21-218 | any run of additions, removals at either end, by index and by value does to the list what it does to a sequence and a shape, up to the first call that breaks the list, which its fields tell beforehand |
| LinkedList.List.Perform | src/linked_list.c:21-218 | one call that does not break the list does to its values and its shape what the sequence shows |
| LinkedList.List.BreaksExactly | src/linked_list.c:77-218 | what a caller can read in head, tail, `prev` and the first value tells exactly which call breaks the list |
| LinkedList.QueueUseNeverBreaks | src/linked_list.c:21-135 | additions and front removals never break a list |
| LinkedList.StackUseBreaks | src/linked_list.c:77-105 | add, add, pop, pop already leaves an empty list with a freed tail, whatever follows |
| LinkedList.ValuesKept | src/linked_list.c:204-217 | on values a removal by value is the order-preserving filter |
| LinkedList.List.Size | src/linked_list.c:254-262 | the size field is the number of nodes, cut to an unsigned int |
| LinkedList.List.Free | src/linked_list.c:264-288 | frees every remaining node once and releases every value once, without reading a freed node |
| LinkedList.List.FreeNode | src/linked_list.c:102-102 | a node is freed only if it was not freed before; afterwards its fields are arbitrary and no other node changed |
| LinkedList.WithoutIsCutOut | src/linked_list.c:139-147 | a removal takes out the one position and leaves the nodes before and after it |
| LinkedList.LedgerAdd | src/linked_list.c:28-37 | an allocation keeps "every node made is listed or freed, once and not both" |
| LinkedList.LedgerFree | src/linked_list.c:164-164 | a free keeps it too |
| LinkedList.FinishFilters | src/linked_list.c:204-217 | going through the nodes one by one keeps, frees, releases and counts what the filter says |
| LinkedList.KeptAndDropped | src/linked_list.c:208-212 | kept and dropped nodes are exactly the nodes, sorted by whether the function answered 1 |
| LinkedList.KeptInOrder | src/linked_list.c:204-217 | both stand in the order they had |
| LinkedList.RemovingTheFirstOfTwoMakesACycle | src/linked_list.c:139-147 | two additions and removal of the first leave a node that follows itself |
| LinkedList.PoppingTheLastOfTwoLeavesADanglingLink | src/linked_list.c:94-102 | two additions and popping the last leave the first node pointing at a freed one |
| LinkedList.PoppingThenRemovingTheFirstWritesToAFreedNode | src/linked_list.c:139-142 | add, add, pop the last, remove the first: the removal would write to the freed node |
| LinkedList.PoppingBothLeavesAFreedTail | src/linked_list.c:88-102 | add, add, pop the last, pop the last: the list has no head and a freed node for its tail |
| LinkedList.RemovingByValueFromTwoDoesNotEnd | src/linked_list.c:200-217 | two additions and removal by value of the first: not over after any number of rounds |
| AddressSpace.FindIsFirst | src/memory.c:8-26 | lookup is the first region in list order that holds the address, and nothing else is |
| AddressSpace.ClashesExactly | src/memory.c:103-106 | when a region accepts a new range, wrapping regions and wrapping ranges included; touching from below is refused |
| AddressSpace.AcceptedIsApartExactly | src/memory.c:103-106 | an accepted range is really apart from a region exactly when the lower of the two, by first byte, has an end that fits into 64 bits |
| AddressSpace.WrappingRangeIsAcceptedOnTop | src/memory.c:103-106 | a wrapping range accepted on top of an existing region |
| AddressSpace.RangeIsAcceptedOnTopOfAWrappingOne | src/memory.c:103-106 | a range that does not wrap accepted on top of one that does, in a run of two allocations |
| AddressSpace.RunsAreApartExactly | src/memory.c:95-153 | after any run of allocations, which regions are apart and which are not, exactly |
| AddressSpace.AllocKeepsSeparated | src/memory.c:117-153 | an allocation keeps any two regions whose ends fit into 64 bits apart |
| AddressSpace.RunsStaySeparated | src/memory.c:117-153 | so does any run of allocations; for the other regions see `RunsAreApartExactly` |
| AddressSpace.HolderIsUnique | src/memory.c:16-17 | no address is held by two regions |
| AddressSpace.LookupFindsTheHolder | src/memory.c:8-26 | after any run of allocations, lookup finds a region if and only if that region holds the address |
| AddressSpace.ListOrderDoesNotMatter | src/memory.c:8-26 | first match finds the same region whatever order the list has |
| AddressSpace.GrantedExactly | src/memory.c:117-153 | which requests are granted, and that exactly the range asked for is added: as memory for memory and framebuffers, as MMIO for MMIO |
| AddressSpace.FramebufferIsGranted | src/memory.c:136-139 | a first framebuffer is granted, with slot 0, and stored as memory |
| AddressSpace.RunsStaySlotted | src/memory.c:52-72 | usable regions carry slots 0, 1, 2, ... in list order and the next slot is their number, over any run |
| AddressSpace.RunsOnlyAppend | src/memory.c:150-150 | regions are only ever added at the end |
| AddressSpace.E820RangesAreApartExactly | src/memory.c:213-246 | after any run of allocations, which ranges of the e820 table are apart, exactly |
| AddressSpace.GrantedIsListed | src/memory.c:233-243 | over any run, a granted request has its entry in the e820 table: its own range, type 2 exactly for MMIO, else 1 |
| AddressSpace.ListedWasGranted | src/memory.c:233-243 | and every entry is there for a request |
| FlatMemory.SameBank | src/memory.c:164-172 | up to the end of its region an address is followed by addresses of the same region |
| FlatMemory.RoomIsSeen | src/memory.c:187-194 | the flat memory shows a region's bytes from an address to its end |
| FlatMemory.RoomIsToTheEnd | src/memory.c:159-167 | every address inside a usable region whose end fits into 64 bits is backed, with room up to that end and its own byte |
| FlatMemory.BackedExactly | src/memory.c:159-162 | and no other address is backed |
| FlatMemory.StoreIsOverlay | src/memory.c:164-172 | storing in one region's buffer changes exactly the addressed bytes of the flat memory and no other byte anywhere |
| FlatMemory.NewBankIsZeroes | src/memory.c:37-74 | a new region adds its addresses, all zero, and changes no byte elsewhere |
| FlatMemory.ChunksAreOneWrite | examples/guests/main.c:140-150 | consecutive writes of a file in any chunks that all start inside the region, fitting or not, are one write of the file |
| FlatMemory.LoadingIsOneWrite | examples/guests/main.c:140-150 | in particular a file that fits, in non-empty chunks, is loaded as by one write |
| FlatMemory.LoadingIsOneWriteExactly | examples/guests/main.c:140-150 | a load leaves the memory of one write of the file if and only if every byte stored by chunks starting past the region was there already |
| FlatMemory.TouchingRegionsTellTheDifference | examples/guests/main.c:140-150 | two granted regions that touch and a file one byte longer than the first, where loading in chunks and one write differ |
| FlatMemory.EveryLoadDivides | examples/guests/main.c:140-150 | every chunk list divides into chunks that start inside the region and chunks that start past its end |
| FlatMemory.ChunksChangeNothingExactly | src/memory.c:155-175 | writes in turn change nothing if and only if all their bytes were there: none undoes another |
| GuestMemory.Memory.constructor | src/memory.c:276-295 | a new memory has no regions and next slot 0 |
| GuestMemory.Memory.CheckAddrAvailable | src/memory.c:95-115 | answers yes exactly when no listed region clashes |
| GuestMemory.Memory.FindEntry | src/memory.c:8-26 | finds the first entry that holds the address, and with it the bytes the flat memory shows there |
| GuestMemory.Memory.AllocateUsable | src/memory.c:28-75 | fresh zeroed memory of the size asked for, the next slot, type usable; nothing if the host refuses |
| GuestMemory.Memory.Alloc | src/memory.c:117-153 | succeeds exactly when granted; then one region is appended with zeroed memory, otherwise nothing changes |
| GuestMemory.AllocSeenFlat | src/memory.c:117-153 | seen through the flat memory, a granted allocation of memory or a framebuffer adds zeros at the addresses asked for, if their end fits into 64 bits, and no allocation changes any other byte |
| GuestMemory.CopyIn | src/memory.c:169-172 | the copy loop writes min(size, room) bytes at their place and no other |
| GuestMemory.CopyOut | src/memory.c:191-194 | the copy loop reads min(size, room) bytes |
| GuestMemory.Memory.Write | src/memory.c:155-175 | writes exactly [dest, dest + min(size, room)) of the flat memory and returns that number, or from 2^63 on the negative number with its bits; -1 and no change if dest is not usable |
| GuestMemory.Memory.Read | src/memory.c:177-197 | returns exactly the bytes the flat memory shows from src to the end of its region, and their number likewise; -1 if src is not usable |
| GuestMemory.Memory.GetPtr | src/memory.c:199-211 | a pointer exactly for usable addresses; k bytes past it is the byte the flat memory shows at addr + k |
| GuestMemory.Memory.E820TableGet | src/memory.c:213-246 | entry i has the base and size of region i in list order, and type 1 if its stored type is usable, else 2 |
| Loader.WriteChunk | examples/guests/main.c:142-147 | one round of the loader writes the chunk, or changes nothing and fails exactly if the address is not backed |
| Loader.Load | examples/guests/main.c:140-150 | the loader goes through the memories that writing the chunks in turn goes through, and stops early only at an address that is not backed |
| GuestMemory.Memory.Destroy | src/memory.c:259-306 | every remaining entry is released once and its node freed once; the memory of every usable region is unmapped once, and nothing else |
| GuestMemory.EveryMappingIsUnmappedOnce | src/memory.c:259-274 | the free function, given every entry in turn, unmaps exactly the memory of the usable regions, each once |
| PageAlign.IsAlignExactly | include/blackhv/memory.h:104-107 | the mask test is divisibility by the page size |
| PageAlign.AlignDownIsGreatest | include/blackhv/memory.h:99-102 | the greatest page boundary not above the address |
| PageAlign.AlignUpIsLeast | include/blackhv/memory.h:94-97 | the least page boundary not below the address exactly when there is one; otherwise the sum wraps to 0 |
| MmioTable.FirstFree | src/mmio.c:29-31 | the first slot whose id is -1 |
| MmioTable.RefusedExactly | src/mmio.c:18-43 | a registration is refused if and only if a region clashes with its range or no slot is free |
| MmioTable.RegisteredRange | src/mmio.c:20-27 | what is reserved is the range itself, as MMIO, up to the high address; nothing if it is not available |
| MmioTable.NothingRegistersBeforeInit | src/mmio.c:7-16 | a table that was never initialised refuses every registration |
| MmioTable.InitFreesEverySlot | src/mmio.c:9-16 | initialising frees every slot, whatever the table held, and no range |
| MmioTable.RegistrationsFillTheTable | src/mmio.c:18-43 | available ranges get the free slots in order, up to the 64 there are |
| MmioTable.InitThenRegister | src/mmio.c:9-43 | after initialising, up to 64 registrations of pairwise available ranges answer 0, 1, 2, ... |
| MmioTable.DroppedSlotIsGivenOutAgain | src/mmio.c:29-51 | a dropped slot goes to the next available range, unless an earlier one is free |
| MmioTable.AfterKeepsReserved | src/mmio.c:9-51 | every operation leaves each slot with a non-empty range the sole owner of a reserved region with that range |
| MmioTable.RunsKeepReserved | src/mmio.c:9-51 | over any run of initialisations, registrations, removals and other allocations |
| MmioTable.CoverIsUnique | src/mmio.c:57-58 | no two slots cover one address |
| MmioTable.StoreRunsAtMostOneHandler | src/mmio.c:53-65 | after any run a store runs at most one handler |
| MmioTable.StoreRunsTheHandler | src/mmio.c:53-65 | a store inside a slot's range with a write handler runs exactly that one |
| MmioTable.SlotLasts | src/mmio.c:29-51 | a slot in use is untouched until it is dropped or the table initialised |
| MmioTable.HandlerLasts | src/mmio.c:29-51 | a slot keeps its range and handler through removals and initialisations until a registration is given it |
| MmioTable.LiveRangeRunsItsHandler | src/mmio.c:18-65 | from a successful registration until its removal, every store in the range runs the registered handler and no other |
| MmioTable.DroppedSlotStillRuns | src/mmio.c:45-59 | removal does not stop a handler: until a registration is given its slot, every store it covers still runs it and no other |
| MmioTable.RefilledSlotRunsTheNewHandler | src/mmio.c:31-37 | the registration that is given a slot replaces its handler: the new range runs the new one, what only the old range covered runs nothing |
| MmioTable.RangesAreNeverReleased | src/mmio.c:18-51 | a non-empty range once reserved, with or without a slot, can never be registered again; an empty or reversed one is granted again at once |
| Mmio.Table.Init | src/mmio.c:9-16 | every slot becomes free and keeps its range |
| Mmio.Table.Register | src/mmio.c:18-43 | reserves the range, fills the first free slot and returns it; -1 if the range is taken, or if no slot is free, and then the range stays reserved |
| Mmio.Table.Allocate | src/memory.c:117-153 | any other allocation on the machine keeps the table sound and touches no slot |
| Mmio.Table.Unregister | src/mmio.c:45-51 | frees the slot and nothing else; ids past the table do nothing |
| Mmio.OneCall | src/mmio.c:55-64 | if a slot covers the address, its handler is the only call of the dispatch loop |
| Mmio.Table.HandleWrite | src/mmio.c:53-65 | at most one call: the handler of the covering slot with the store's arguments, none if no slot covers it |
| AtapiDrive.OrOfBytes | src/atapi.c:114-115 | the shifted bytes do not overlap, so the ors add them up |
| AtapiDrive.LbaInvertsBigEndian | src/atapi.c:114-115 | the decoder inverts the big-endian layout for every 32-bit block address |
| AtapiDrive.EveryBlockHasACommand | src/atapi.c:67-81 | the packet layout has a READ(12) command for every 32-bit block address, so the transaction theorems speak of all of them |
| AtapiDrive.LbaOfBytes | src/atapi.c:114-115 | the four address bytes of the packet are decoded most significant first |
| AtapiDrive.SeekWraps | src/atapi.c:116-116 | the 32-bit offset is 2048 times the address modulo 2^21, hence exact if and only if the address is below 2^21 |
| AtapiDrive.ReadDiskAt | src/atapi.c:116-117 | each byte of the buffer is the disk's byte, or what it was where the disk has ended |
| AtapiDrive.LittleEndian | src/atapi.c:180-194 | words are put together and taken apart little end first |
| AtapiDrive.PowerOnWaits | src/atapi.c:83-123 | the drive starts idle, with the master selected and all buffers zero |
| AtapiDrive.RegistersRead | src/atapi.c:125-160 | the registers read 1, 2 or 3 by the stage of the protocol, the ATAPI signature at the LBA ports, 0 elsewhere |
| AtapiDrive.OtherDriveIsSilent | src/atapi.c:93-131 | while another drive is selected every register reads 0, no packet is taken and no transfer completed |
| AtapiDrive.SelectingBackChangesNothing | src/atapi.c:93-98 | selecting away and back leaves the drive as it was |
| AtapiDrive.RunKeepsInv | src/atapi.c:100-197 | in every reachable state receiving iff byte_read > 0, sending iff byte_sent > 0, counters even and in bounds |
| AtapiTransfer.SendingContinues | src/atapi.c:125-197 | during a transfer nothing but its completion changes the block or loses the position |
| AtapiTransfer.SendingReadsTheBlock | src/atapi.c:184-197 | the words read are the next words of that block, then zeros |
| AtapiTransfer.TransferIsOneBlock | src/atapi.c:125-197 | from the first data read to the completion status, word k read is word k of one block, or 0 past its end, whatever else the guest does |
| AtapiTransfer.FillAt | src/atapi.c:174-181 | which word each byte of the packet comes from; what does not fit is dropped |
| AtapiTransfer.ReceivingContinues | src/atapi.c:170-182 | whatever else the guest does, the packet fills in write order until it is handed over |
| AtapiTransfer.FirstSixWords | src/atapi.c:170-182 | only the first six words after a hand-over determine the packet |
| AtapiTransfer.TransactionReadsOneBlock | src/atapi.c:106-197 | a READ(12) transaction from any ready state: status 2, the block over what the buffer held, status 3, ready again |
| AtapiTransfer.TransactionReadsTheDisk | src/atapi.c:106-197 | it returns the disk block the address names modulo 2^21 |
| AtapiTransfer.TransactionReadsThatBlock | src/atapi.c:106-197 | below 2^21 that is the block asked for |
| AtapiTransfer.ConsecutiveBlocks | src/atapi.c:106-197 | k transactions for consecutive blocks return that stretch of the disk, with alternating statuses, and end ready |
| AtapiTransfer.TransactionAmidOtherAccesses | src/atapi.c:93-197 | with any other accesses in between: the words read are those of the addressed block and then zeros, the counts tell of hand-over and completion and of neither in between, and the transfer is over |
| AtapiTransfer.ConsecutiveExchanges | src/atapi.c:93-197 | such exchanges for consecutive blocks return that stretch of the disk |
| AtapiTransfer.TransactionIsAnExchange | src/atapi.c:93-197 | the plain transaction is such an exchange |
| AtapiTransfer.NoCountsRead | src/atapi.c:125-151 | a guest that keeps off the sector count sees no status |
| AtapiTransfer.UnknownPacketSendsTheLastBlock | src/atapi.c:108-112 | a packet with another operation code gets the same statuses and the previous block again |
| AtapiTransfer.GuestCanAlwaysStartOver | src/atapi.c:93-151 | from any state, selecting the master and two sector count reads make the drive ready |
| Atapi.Controller.constructor | src/atapi.c:83-123 | the static variables start as zeros |
| Atapi.Controller.SelectOutb | src/atapi.c:93-98 | does to the variables what `Step` does for a drive selection |
| Atapi.Controller.DataOutw | src/atapi.c:170-182 | puts a word into the packet, low byte first, unless it is full |
| Atapi.Controller.DataInw | src/atapi.c:184-197 | returns the next word of the block and moves on, or 0 past its end |
| Atapi.Controller.ReadBlock | src/atapi.c:116-117 | the disk's bytes at the offset over what the buffer held |
| Atapi.Controller.HandleScsiPacket | src/atapi.c:106-120 | loads the addressed block for READ(12) and changes nothing for other codes |
| Atapi.Controller.SignatureInb | src/atapi.c:125-160 | 1, 2 or 3 at 0x1F2 by the stage, 0x01, 0x14, 0xEB at the LBA ports, 0 at other ports or for another drive, and the state each leaves |

## Left out

- RingSteps: one writer thread and one reader thread per queue, as serial.c uses them (include/blackhv/serial.h:16-17); with two writers the unlocked full test is not stable. Steps are sequentially consistent: weak memory ordering is not modelled.
- ByteRing.Queue.Write: needs a buffer of positive size, because with size 0 the store is out of bounds and the modulo divides by 0; NULL queues, malloc failures and `queue_destroy` are not modelled.
- SerialLine.Serial.OutB: the messages the source prints for other registers are not modelled.
- SerialLine.Serial.InB: NULL parameters of the port handlers, on which the source exits, are not modelled.
- LinkedList.List.RemoveEq: not for a list whose first node has a predecessor and whose first value is to go: it does not end (`RemoveEqEndsExactly`), or, if that `prev` dangles, its first step writes to a freed node (`RemovableExactly`). What follows such a write is not modelled.
- LinkedList.List.RemoveAt: likewise not for index 0 of a list whose first `prev` dangles (`RemovableExactly`).
- LinkedList.List.ForEachRev: for tight lists only; on other sound lists it does not end (`BackwardsEndsIffTight`), and on a list whose first `prev` dangles it goes on to the freed node.
- LinkedList.List.ForEach: the callback is modelled as the sequence of its calls, and must not change the list; `eq_func` of `remove_eq` is a function of the value.
- LinkedList.List.Add: allocation is taken to succeed; the result of `linked_list_add` is ignored at src/memory.c:150.
- LinkedList.List.FreeNode: a freed node is one whose fields may hold anything afterwards; reuse of its address is not modelled.
- GuestMemory.Memory.AllocateUsable: mmap and the KVM ioctl are one parameter, whether the host agrees; mmap's MAP_FAILED, which the code does not test, is not distinguished.
- GuestMemory.Memory.Read: the caller's buffer is not one of the guest's own buffers.
- GuestMemory.Memory.E820TableGet: failure of its two mallocs and `e820_table_free` are not modelled.
- Loader.Load: reading the file is not modelled; the chunks are what the reads return. The file ends below 2^64.
- Mmio.Table.Unregister: a negative id passes the code's test and would write outside the table; ids here are at least 0.
- Mmio.Table.Register: the id written back into the caller's struct, the read handler and the handler's own data pointer are not modelled; there is one virtual machine.
- Mmio.Table.HandleWrite: what a handler does is not modelled; a call is recorded with its arguments.
- AtapiDrive.ReadDiskAt: the disk is an immutable byte sequence; a read past its end is short, errors of lseek and read are not modelled.
- AtapiDrive.LbaInvertsBigEndian: the shift of the top byte is taken for its 32-bit pattern.
- Atapi.Controller.SelectOutb: `ignore_outb` and `status_inb`, which always answers DRQ, have no method; a run may contain their accesses, which change nothing. Several virtual machines sharing the static variables are not modelled.
- src/vm.c: KVM system calls, vcpu set-up and the run loop.
- src/io.c: a table of handlers indexed by port; it would add only pointwise updates.
- src/screen.c: user interface.
- examples/ and include/blackhv/multiboot.h: programs and constants; of them only the loader loop is used.
