# Two character drivers, verified

A Dafny model of the two kernel modules of the COSC440 assignments and of the program
that exercises the first of them.

* **asgn2** is a byte pipeline. An interrupt handler joins half-bytes read from four GPIO
  pins into bytes and puts them into a ring of 1024 slots; a tasklet drains the ring into a
  list of 4096-byte pages; a reader consumes the list from the front, frees pages as it
  leaves them, and stops at NUL bytes, which separate sessions.
* **asgn1** is a ramdisk. A list of separately allocated pages grows on demand and is read,
  written, seeked in and mapped into user space as if it were one array.

Both drivers are modelled as classes whose methods work in place on arrays of pages, and are
proved against functions on values that describe the code also in the states where it no longer
does what it is meant to. What it is meant to do is then proved about those functions, with the
exact condition wherever the code meets it only sometimes. In the end both classes are tied to the
runs the theorems speak of: a method that executes any sequence of kernel calls on a newly loaded
driver is proved to be such a run.

| file | content |
|---|---|
| `Bytes.dfy`, `Pages.dfy` | byte sequences; page lists, the flat array they stand for, memcpy and the user copies |
| `Gpio.dfy` | pins to half-bytes to bytes |
| `PortSpec.dfy` | asgn2 as functions on values |
| `PortWalk.dfy`, `PortDriver.dfy` | asgn2 in place: the page walks, and the driver's entry points |
| `PortQueue.dfy` | asgn2, one step at a time: exact domains of drain, read and skip |
| `PortRuns.dfy` | asgn2 over whole runs: one FIFO, separated sessions, who sleeps, what is answered |
| `PortPrompt.dfy` | runs in which tasklets run promptly; end-to-end delivery |
| `PortStuck.dfy` | where the pipeline stops for good, and where it goes on |
| `PortWitness.dfy` | runs from a newly loaded module: everything can be sent, every failure can be reached |
| `PortCalls.dfy`, `PortDispatch.dfy` | the calls of the kernel; executing them on the driver is a run |
| `PortStreams.dfy`, `PortEndToEnd.dfy` | which byte sequences pass the pipeline whole, over runs and on the driver in place |
| `RamdiskSpec.dfy`, `Ramdisk.dfy`, `RamdiskRuns.dfy` | asgn1 as functions, in place, and over whole runs |
| `RamdiskDispatch.dfy` | executing calls on the ramdisk is a run |
| `MmapTest.dfy` | the client program of asgn1 |

## Findings

Some run that keeps the asgn2 pipeline in order takes a byte sequence through it whole, from a newly
loaded module on, exactly if no NUL in the sequence is the first or the last byte of a page
(`PortStreams.StreamsExactly`). Then the driver in place does hand all of it but the NULs to its
reader (`PortEndToEnd.StreamInPlace`).

A run keeps the pipeline one FIFO exactly as long as every step stays in its domain
(`PortRuns.StepGoodExactly`, `PortRuns.RunGoodExactly`, `PortRuns.RunIsFifo`). The domains, and what
happens outside; for each failure there is a run from a newly loaded module that ends in it:

* A tasklet run keeps ring order exactly if no single memcpy runs past the ring's last slot
  (asgn2/asgn_2.c:236), and keeps the queue's indices right exactly if it has something to move and
  does not run over the end of its page (asgn2/asgn_2.c:253-258). A memcpy that wraps hands on a byte
  from behind the ring instead of the one in slot 0; what lies there are the ring's own indices
  (asgn2/asgn_2.c:47-51, `PortQueue.WrapLosesSlotZero`, `PortWitness.WrapReached`). After a run over
  the end of a page a full page can look like an empty queue (`PortWitness.StraddleReached`).
  As ring and pages fill up in step, after a clean run the ring alone decides whether the next
  tasklet run is in its domain (`PortRuns.CleanRunDomain`).
* With a tasklet run between any two completed bytes the drain never leaves its domain, whatever
  readers, openers and closers do in between (`PortPrompt.PromptRunIsClean`), and every byte sequence
  can be sent in that way (`PortWitness.LoadIsLoaded`, `PortEndToEnd.SendInPlace`).
* A read hands on the rest of the queue exactly if it does not stop on a page boundary that is
  not the end of the list; otherwise asgn2/asgn_2.c:362 frees a page nobody has read. If a NUL
  stopped the read, the page that the NUL begins is lost; if not, all that was left is
  (`PortQueue.ReadDomainExactly`, `PortQueue.DeliverLosesExactly`,
  `PortWitness.BoundaryReadReached`, `PortWitness.NulAtPageStartReached`).
* Within the domains a reader that no remembered NUL stops sleeps exactly if there is nothing to
  read, so the answer 0 always means a NUL, a session that has ended at one, or an empty request; a
  sleeper goes on only when a byte has come (`PortRuns.EntryExactly`,
  `PortRuns.ReadAnsweredExactly`, `PortRuns.WokenByAByte`).
* Skipping a separator works exactly if it is not the last byte of its page; otherwise no byte is
  delivered again, in any run (`PortQueue.SkipExactly`, `PortWitness.NulAtPageEndReached`).
* The NUL that asgn2/asgn_2.c:176-177 stores when the ring is full is never delivered: it lands in
  the spare slot, which is not counted. The comment there reads as if it were kept.
* The tasklet is scheduled only by a byte that finds room. A refused allocation only delays the
  pipeline exactly if the ring is not full; with a full ring it stops it for good
  (`PortStuck.RefusalDelaysExactly`, `PortWitness.RefusalReached`).
* asgn2's open lets a process in only when nobody is counted, whatever the limit the ioctl sets
  (asgn2/asgn_2.c:126-128), so there is at most one handle. An open for writing is refused after it
  has been counted (asgn2/asgn_2.c:130-135), and nobody ever opens the device again
  (`PortStuck.OpensAgainExactly`).
* asgn1's limit on open handles is never below 1, so whenever nobody has the ramdisk anybody can
  open it (`RamdiskRuns.LimitIsLastSet`, `RamdiskRuns.OpensExactly`).
* asgn1's mmap compares a byte offset with a number of pages; of all requests it serves exactly those
  that start at page 0 and fit, and some empty ones (`RamdiskSpec.MmapServesExactly`).
* The program mmap_test.c divides by zero if its random position is 0 (asgn1/mmap_test.c:140-141),
  which happens exactly if random() has returned a multiple of 1024, as the SIZE macro is not
  parenthesised. Otherwise it passes exactly if the device can be opened, and the pages the disk holds
  and the allocator has left are enough for the 64 KiB it writes (`MmapTest.RunProgram`).

In both drivers every method keeps the page ledger `listed == freed + memList` with pairwise
distinct pages, and both parts of it only ever grow: no page is freed twice, none is lost, and the
page count is the list's length, also after a failed allocation and outside the domains.

## Assumptions

* `copy_to_user` and `copy_from_user` copy an arbitrary non-empty prefix of what they are asked
  for: the retry loops have no way to give up.
* `alloc_page` hands out pages with arbitrary content until it has none left, and nothing from then
  on. How many it has may be different at every call of an entry point.
* Counts, positions and sizes fit their C types. The subtractions on `size_t` that can go
  below zero, asgn2/asgn_2.c:387 and 313, are modelled with their wrap-around.
* A system call is interrupted by signals only finitely often.
* Every entry point is atomic, except that a sleeping reader or opener may be overtaken by anything.
* A tasklet runs only if it has been scheduled, and scheduling it twice is scheduling it once.

## Model

| member | source | states |
|---|---|---|
| Gpio.ReadHalfByte | asgn2/gpio.c:106-119 | the four data pins, and no others, make the half-byte |
| Gpio.PinsExactly | asgn2/gpio.c:113-116 | bits 0 to 3 of the half-byte are the levels of pins 7, 17, 22 and 24, and it has no others |
| Gpio.DriveThenRead | asgn2/gpio.c:111-118 | a half-byte put on the data pins is read back, whatever the other pins carry |
| Gpio.SendThenAssemble | asgn2/asgn_2.c:160-169 | any byte sequence sent as high and low halves is assembled unchanged |
| Gpio.OddPrefix | asgn2/asgn_2.c:163-165 | a half without its partner makes no byte |
| PortSpec.FreesFits | asgn2/asgn_2.c:362-370 | a read never frees more pages than the list has, in any state |
| PortSpec.CopiedMore | asgn2/asgn_2.c:232-243 | the memcpys of one tasklet run follow each other in the ring |
| PortQueue.PutIsBoundedEnqueue | asgn2/asgn_2.c:172-181 | the ring is a queue of capacity 1023 across every wrap; a byte without room, NUL included, changes nothing that waits |
| PortQueue.PutFull | asgn2/asgn_2.c:176-181 | on a full ring a NUL goes into the spare slot behind the waiting bytes, and any other byte nowhere |
| PortQueue.EmptinessTestExact | asgn2/asgn_2.c:297-300 | in an ordered queue the index and offset comparison holds exactly if nothing is unread |
| PortQueue.CopiedInOrder | asgn2/asgn_2.c:231-237 | without a wrap inside a memcpy the ring is copied in order, whatever lies behind it |
| PortQueue.WrapLosesSlotZero | asgn2/asgn_2.c:231-237 | whatever lies behind the ring, the copy is right for every byte in slot 0 exactly if no memcpy wraps; otherwise every byte in slot 0 but the one that equals the first behind the ring is lost |
| PortQueue.DrainExactly | asgn2/asgn_2.c:211-258 | a tasklet run appends the ring to the unread bytes exactly if no memcpy wraps, keeps the queue in order exactly if it moves something and stays on its page, and always empties the ring |
| PortQueue.DrainDomainExactly | asgn2/asgn_2.c:211-258 | both together hold exactly in the drain domain |
| PortQueue.DrainRefused | asgn2/asgn_2.c:214-225 | a run that is refused a page leaves ring, size and unread bytes as they were |
| PortQueue.RefusedThenDrained | asgn2/asgn_2.c:214-228 | in any state a refused run keeps the pages it was given: with a later run that is given the rest it comes to one run that is given all of them |
| PortQueue.DeliversUntilNul | asgn2/asgn_2.c:313-345 | a read returns the longest NUL-free prefix of the first min(count, unread) unread bytes, and ends the session exactly if a NUL lies in that window |
| PortQueue.DeliverInDomain | asgn2/asgn_2.c:355-387 | in the read domain the rest stays unread in order, and exactly the used-up pages are freed |
| PortQueue.DeliverOutsideDomain | asgn2/asgn_2.c:361-371 | outside it at least one unread byte is freed with its page |
| PortQueue.DeliverLosesExactly | asgn2/asgn_2.c:335-387 | which bytes are lost there: the whole page that begins with a NUL if one stopped the read, as far as it holds data, and otherwise all that was left; the rest stays in order |
| PortQueue.ReadDomainExactly | asgn2/asgn_2.c:313-389 | a read hands on the rest of the queue in order exactly in the read domain |
| PortQueue.ReadAllDomain | asgn2/asgn_2.c:313-374 | a read of everything is in the domain exactly if the first NUL does not start a page |
| PortQueue.SkipExactly | asgn2/asgn_2.c:289-295 | a remembered NUL is dropped alone; the queue stays in order exactly if it is not the last byte of its page |
| PortRuns.StepWf | asgn2/asgn_2.c:123-390 | every step of every run keeps the state safe to run on, also outside the domains |
| PortRuns.RunDecodes | asgn2/asgn_2.c:158-183 | in every run the assembled bytes are those of the pin states, and a lone half waits |
| PortRuns.StepGoodExactly | asgn2/asgn_2.c:123-390 | a step keeps the pipeline one FIFO, with no reader asleep over unread bytes, exactly if it is in its domain |
| PortRuns.RunIsFifo | asgn2/asgn_2.c:123-390 | over every clean run the accepted bytes are those readers have moved past, then the unread ones, then the ring; readers were given the first part without its NULs |
| PortRuns.RunGoodExactly | asgn2/asgn_2.c:123-390 | the pipeline is one FIFO after every step of a run, whatever lies behind the ring, exactly if the run is clean |
| PortRuns.CleanRunDomain | asgn2/asgn_2.c:232-258 | after every clean run from the start the next tasklet run is in its domain exactly if the ring does not have to wrap |
| PortRuns.ReadProgress | asgn2/asgn_2.c:297-345 | a reader that asks for something when there is something does not sleep, and is given a byte or finds a NUL |
| PortRuns.ReleaseStartsAnew | asgn2/asgn_2.c:145-152 | after a release the first read moves past a NUL still remembered, and otherwise makes progress |
| PortRuns.PendingExactly | asgn2/asgn_2.c:172-181 | over every run a tasklet run is pending exactly if a byte has found room in the ring since the last one |
| PortRuns.EntryExactly | asgn2/asgn_2.c:289-305 | in an ordered pipeline a read passes a remembered NUL if there is one; otherwise it sleeps exactly if nothing is unread, and then the wait flag is set; a read that goes on at once has changed nothing so far |
| PortRuns.SleepsOn | asgn2/asgn_2.c:302-305 | a sleeping reader stays asleep in every run, also outside the domains, in which no tasklet run gets its pages |
| PortRuns.DrainWakes | asgn2/asgn_2.c:263-265 | a tasklet run in its domain that gets its pages lets it go on, and leaves something to read that was not there before |
| PortRuns.WokenByAByte | asgn2/asgn_2.c:297-305 | over every clean run a reader that slept and may go on has been brought a byte, and no byte that has come is ever taken back |
| PortRuns.ReadAnsweredExactly | asgn2/asgn_2.c:289-389 | a read is not answered as long as nothing is unread; it is answered 0 if it passes a NUL or the session is over, and else with the number of bytes up to the first NUL or its count |
| PortRuns.OpenAnsweredExactly | asgn2/asgn_2.c:130-137 | an open is answered 0 if it is for reading only and -13 otherwise, and counted in both cases |
| PortRuns.RunTold | asgn2/asgn_2.c:123-390 | over every run the answers that are not errors add up to the number of bytes readers were given |
| PortRuns.SessionOver | asgn2/asgn_2.c:311 | once a read has stopped at a NUL nothing is delivered until release, in every run, also outside the domains |
| PortRuns.SessionIsOneStretch | asgn2/asgn_2.c:145-152 | between two releases readers are given one contiguous NUL-free stretch of the accepted bytes, which ends at a NUL if the session has ended |
| PortPrompt.OneByteInDomain | asgn2/asgn_2.c:211-258 | a tasklet run that finds one byte is in the drain domain |
| PortPrompt.PromptRunIsClean | asgn2/asgn_2.c:172-175 | with a tasklet run between any two completed bytes, pages on request, and anything in between, every tasklet run finds one byte and is in its domain, the ring is never full, and every assembled byte is accepted |
| PortPrompt.SentIsDelivered | asgn2/asgn_2.c:158-390 | from pins to user: what was sent is what readers have moved past, what still waits, and the byte that may be in the ring, and readers were given the first part without its NULs |
| PortStuck.FullRingIsStuck | asgn2/asgn_2.c:172-181 | a full ring with no tasklet scheduled never accepts a byte again |
| PortStuck.RefusalIsFatal | asgn2/asgn_2.c:218-225 | one refused allocation with a full ring gets there |
| PortStuck.RecoversExactly | asgn2/asgn_2.c:172-225 | from any ordered state some run accepts another byte, and schedules the tasklet for it, exactly if the ring is not both full and without a scheduled run |
| PortStuck.RefusalDelaysExactly | asgn2/asgn_2.c:218-225 | a refused allocation keeps everything in order, and the pipeline can go on after it exactly if the ring was not full |
| PortStuck.RunExclusive | asgn2/asgn_2.c:126-152 | over every run at most one handle is open, and each is counted |
| PortStuck.LockedOutIsStuck | asgn2/asgn_2.c:128-135 | over every run a refused open that has been left counted stays counted |
| PortStuck.OpensAgainExactly | asgn2/asgn_2.c:128-152 | the device can be opened again in some run exactly if no refused open has been left counted; an open for writing leaves one |
| PortStuck.HeadPastPageIsStuck | asgn2/asgn_2.c:325-357 | once the head offset equals the page size no read delivers anything |
| PortStuck.SkipAtPageEndIsFatal | asgn2/asgn_2.c:290-294 | skipping a NUL at the end of a page gets there |
| PortStuck.StraddleHidesAPage | asgn2/asgn_2.c:252-258 | after a run over the end of a page a whole unread page looks like an empty queue if the run ends at the reader's offset |
| PortStuck.BoundaryReadLosesAPage | asgn2/asgn_2.c:361-371 | reading the first of two full pages frees both, and leaves the queue as it is after loading |
| PortWitness.LoadIsLoaded | asgn2/asgn_2.c:123-267 | every run that follows the calls for opening the device and sending any byte sequence, with a page to be had at each tasklet run, drains promptly and leaves the sequence unread in order |
| PortWitness.SendFromBoot | asgn2/asgn_2.c:123-267 | and there is such a run |
| PortWitness.BoundaryReadReached | asgn2/asgn_2.c:361-371 | a run from the start after which reading one of two pages loses the other; the queue is then as after loading |
| PortWitness.NulAtPageStartLoses | asgn2/asgn_2.c:335-387 | with a NUL at the start of the second page and one byte behind it a read up to the NUL frees both pages, and the size goes below zero and wraps to 0xfffff002 |
| PortWitness.NulAtPageStartReached | asgn2/asgn_2.c:335-387 | a run from the start that ends in that read |
| PortWitness.NulAtPageEndReached | asgn2/asgn_2.c:290-294 | a run from the start after which the next session is never given a byte |
| PortWitness.WrapReached | asgn2/asgn_2.c:236 | a run from the start after which a tasklet run hands on the low byte of the ring's head for the second of any two bytes |
| PortWitness.StraddleReached | asgn2/asgn_2.c:252-305 | a run from the start after which a reader goes to sleep over a whole unread page, and the queue it then finds, index by index |
| PortWitness.RefusalReached | asgn2/asgn_2.c:172-225 | a run from the start after which no byte is accepted any more |
| PortDriver.Driver.constructor | asgn2/asgn_2.c:467-520 | the state a freshly loaded module starts in |
| PortDriver.Driver.Enqueue | asgn2/asgn_2.c:172-181 | the handler's ring update in place, and when it schedules the tasklet |
| PortDriver.Driver.DummyportInterrupt | asgn2/asgn_2.c:158-189 | the handler in place does what `Interrupt` says |
| PortDriver.Driver.FreeMemoryPages | asgn2/asgn_2.c:99-116 | every page held is freed once, in order, and the list is empty |
| PortDriver.Driver.Allocate | asgn2/asgn_2.c:214-228 | pages are taken from the allocator until the need is met or it has none left; it is met exactly if the pages held and left are enough |
| PortDriver.Driver.BottomHalf | asgn2/asgn_2.c:195-267 | the tasklet in place does what `Drain` says, in and outside the domain, with as many pages as it asks for or the allocator has left; it frees no page, and the pages it adds are new |
| PortWalk.CopyRing | asgn2/asgn_2.c:230-248 | its page walk moves the ring in at most one memcpy for each page |
| PortWalk.ArrivedIsTransfer | asgn2/asgn_2.c:250-258 | what the walk leaves behind is what `Transfer` says |
| PortDriver.Driver.EnterRead | asgn2/asgn_2.c:289-305 | the part of a read before the wait in place does what `EnterRead` says; `PortRuns.EntryExactly` says what that is |
| PortDriver.Driver.ReadBody | asgn2/asgn_2.c:308-389 | the part after it in place does what `Deliver` says, in and outside the domain and for every pattern of short copies; exactly the freed pages have gone from the front of the list |
| PortDriver.Driver.ReadPages | asgn2/asgn_2.c:315-374 | its page walk: scan, copy with retries, free |
| PortWalk.Scan | asgn2/asgn_2.c:335-345 | the scan finds the first NUL |
| PortWalk.CopyOut | asgn2/asgn_2.c:347-357 | the retry loop copies everything, however short the copies |
| PortWalk.WalkStep | asgn2/asgn_2.c:325-371 | the offsets and the number of freed pages after each page of the walk |
| PortWalk.ReadIsDeliver | asgn2/asgn_2.c:313-389 | what the walk leaves behind is what `Deliver` says |
| PortDriver.Driver.Read | asgn2/asgn_2.c:273-390 | a whole read that does not have to sleep, and which pages it frees; `PortRuns.ReadAnsweredExactly` says what it returns |
| PortDriver.Driver.Open | asgn2/asgn_2.c:123-138 | an open whose wait is over is counted, and refused with the answer of `PortRuns.OpenAnsweredExactly` unless it is for reading only |
| PortDriver.Driver.Release | asgn2/asgn_2.c:145-152 | release ends the session, is counted, and answers 0 |
| PortStreams.RunSettled | asgn2/asgn_2.c:289-389 | over every clean run no NUL that readers have moved past was the first or the last byte of a page |
| PortStreams.StreamPasses | asgn2/asgn_2.c:123-390 | every run that follows the calls for sending and then reading a sequence without such a NUL is clean, and all of it is accepted and moved past |
| PortStreams.StreamsExactly | asgn2/asgn_2.c:123-390 | some clean run accepts and moves past exactly a given sequence if and only if it has no such NUL |
| PortDispatch.Dispatch | asgn2/asgn_2.c:123-390 | a kernel call executed on the driver is a step of a run, with the pages there are to be had; it is answered as in the run, what the run records as delivered is in the reader's buffer, and pages are only added and freed |
| PortDispatch.Execute | asgn2/asgn_2.c:123-390 | so is any sequence of calls, from any state |
| PortDispatch.ExecuteFromBoot | asgn2/asgn_2.c:123-520 | after any calls on a newly loaded driver its state is that of a run from the start, its readers have been given what that run delivers, and every call that has returned was answered as in it |
| PortEndToEnd.SendInPlace | asgn2/asgn_2.c:123-520 | a newly loaded driver that is opened and sent any bytes, with a tasklet run after each, holds exactly these bytes for its reader |
| PortEndToEnd.StreamInPlace | asgn2/asgn_2.c:123-520 | without a NUL at the start or end of a page it hands all of them but the NULs to a reader, and nothing is left |
| RamdiskSpec.ReadAfterWrite | asgn1/asgn1.c:228-270 | after a successful write every read sees the user's bytes on [pos, pos+count) and the old ones elsewhere, up to max(old size, pos+count) |
| RamdiskSpec.ReadAfterFailedWrite | asgn1/asgn1.c:233-239 | after a refused one every read sees what it saw before |
| RamdiskSpec.WriteTriedAgain | asgn1/asgn1.c:227-244 | a refused write keeps the pages it was given: tried again with the rest it comes to one write that is given all of them |
| RamdiskSpec.SeekIsNearest | asgn1/asgn1.c:197-198 | a seek ends at the position within the pages held that is nearest to the one asked for |
| RamdiskSpec.SeekExactly | asgn1/asgn1.c:183-203 | SEEK_SET goes to the offset, SEEK_CUR that far from the position and SEEK_END that far from the end of the pages held, each only as far as the nearer end of the disk; any other command goes to 0 |
| RamdiskSpec.MmapServesExactly | asgn1/asgn1.c:334-365 | of all requests, accepted or not, exactly those for page 0 on that fit, and empty ones that pass the offset check, are served with page pgoff+i at page i |
| RamdiskSpec.MapsInsideArea | asgn1/asgn1.c:356-363 | no request maps anything outside its area, or a page the disk does not have, or one at another place than its own |
| RamdiskSpec.MmapElsewhereFails | asgn1/asgn1.c:350-361 | a non-empty request for a part of the disk that does not start at page 0 is refused or leaves the start of the area empty |
| RamdiskSpec.MmapSecondPage | asgn1/asgn1.c:350-361 | mapping the second of 2 pages is refused; mapping the second of 4096 is accepted and maps nothing |
| RamdiskRuns.LastWriterWins | asgn1/asgn1.c:96-271 | after any run on any handles a read returns as many bytes as the writes account for, and wherever the run wrote since the disk was last emptied, the latest byte |
| RamdiskRuns.RunConsistent | asgn1/asgn1.c:228-270 | the size is the furthest end of a write since then, and the size lies within the pages |
| RamdiskRuns.RunCounted | asgn1/asgn1.c:96-123 | over every run the process count is the number of open handles and never above the largest limit ever in force |
| RamdiskRuns.OpenAnsweredExactly | asgn1/asgn1.c:96-111 | an open with fewer handles open than the limit is answered 0, gives a handle at position 0 that is counted, and empties the disk exactly if it is write-only; one at the limit is answered -16 and changes nothing |
| RamdiskRuns.CloseAnsweredExactly | asgn1/asgn1.c:118-123 | a close is answered 0, gives the handle back and changes nothing else |
| RamdiskRuns.IoctlAnsweredExactly | asgn1/asgn1.c:279-312 | an ioctl of type 'k', number 1 and a positive value is answered 0 and sets the limit; any other changes nothing, and is answered -25 if its type is right and its number is not, -22 otherwise |
| RamdiskRuns.LimitIsLastSet | asgn1/asgn1.c:304 | over every run from the start the limit is the value last set, or 1, and never less than 1 |
| RamdiskRuns.OpensExactly | asgn1/asgn1.c:99-102 | after every run from the start an open succeeds if nobody has the disk; if somebody has and no ioctl has set the limit, it is refused |
| RamdiskRuns.ReadAgain | asgn1/asgn1.c:129-204 | going back from the position by what was read and reading again gives the same bytes |
| RamdiskRuns.WriteReadBack | asgn1/asgn1.c:129-271 | going back by what was written and reading gives it back |
| RamdiskRuns.MapAnsweredExactly | asgn1/asgn1.c:344-353 | a mapping request is answered 0 if its length fits the disk and its byte offset is not above the number of pages, else -22, and changes nothing |
| RamdiskRuns.BoundedExactly | asgn1/asgn1.c:104-108 | a step leaves a position beyond the disk exactly if it empties the disk under a handle that is not at its start |
| RamdiskRuns.RunBoundedExactly | asgn1/asgn1.c:104-204 | over a run all positions stay within the disk exactly if no step of it is such an open |
| RamdiskRuns.SingleHandleBounded | asgn1/asgn1.c:177-204 | they do in every run with one handle at a time, whatever the limit |
| RamdiskRuns.LimitOneIsSingleHandle | asgn1/asgn1.c:96-111 | such are all runs in which the limit is never above 1 |
| RamdiskDispatch.WriteReplyExactly | asgn1/asgn1.c:227-270 | a write is answered with its size if the pages held and to be had are enough for it, and else with -12 |
| RamdiskDispatch.Dispatch | asgn1/asgn1.c:96-365 | a call executed on the device and its open files, mapping requests included, is a step of a run, with the reply of that step and the pages there are to be had |
| RamdiskDispatch.Execute | asgn1/asgn1.c:96-365 | so is any sequence of calls, from any state |
| RamdiskDispatch.ExecuteFromBoot | asgn1/asgn1.c:96-391 | after any calls on a newly loaded ramdisk the disk, the positions and all replies are those of a run from the start |
| Ramdisk.Device.constructor | asgn1/asgn1.c:388-391 | the state a freshly loaded module starts in |
| Ramdisk.Device.FreeMemoryPages | asgn1/asgn1.c:72-89 | every page held is freed once, in order, and the list is empty |
| Ramdisk.Device.Open | asgn1/asgn1.c:96-111 | answered and counted as `RamdiskRuns.OpenAnsweredExactly` says; a write-only open frees exactly the pages held, any other frees none |
| Ramdisk.Device.Release | asgn1/asgn1.c:118-123 | the count drops by one, nothing else changes, and the answer is 0 |
| Ramdisk.Device.ReadFromPage | asgn1/asgn1.c:154-165 | the retry loop copies everything, however short the copies |
| Ramdisk.Device.Read | asgn1/asgn1.c:129-172 | the bytes of the flat disk from the position on, min(count, size-position) of them; the disk is unchanged |
| Ramdisk.Device.Lseek | asgn1/asgn1.c:177-204 | position and answer are those of `RamdiskSpec.SeekExactly`, counted from the position and the pages held |
| Ramdisk.Device.Allocate | asgn1/asgn1.c:227-244 | pages are taken from the allocator until the need is met or it has none left; it is met exactly if the pages held and left are enough; the page count is the list's length either way |
| Ramdisk.Device.WriteToPage | asgn1/asgn1.c:250-262 | the retry loop stores everything, however short the copies |
| Ramdisk.Device.Write | asgn1/asgn1.c:211-271 | a flat-array update and the new size, exactly if the pages held and left are enough; else a refusal that changes nothing readable |
| Ramdisk.Device.Ioctl | asgn1/asgn1.c:279-312 | limit and answer are those of `RamdiskRuns.IoctlAnsweredExactly` |
| Ramdisk.Device.Mmap | asgn1/asgn1.c:334-365 | the answer is that of `RamdiskRuns.MapAnsweredExactly`, the pages in the area are those of `MapTable`, and an accepted mapping from page 0 on shows all of its part of the disk |
| Ramdisk.Device.LoadAgreesWithRead | asgn1/asgn1.c:355-363 | a load through a mapping sees the byte a read at that position returns |
| Ramdisk.Device.StoreMapped | asgn1/mmap_test.c:141 | a store through a mapping is a store into the disk |
| MmapTest.MyFread | asgn1/mmap_test.c:19-43 | over any short transfers and interruptions the loop fetches everything there is, and nothing else is changed |
| MmapTest.MyFwrite | asgn1/mmap_test.c:46-65 | over any short transfers and interruptions the loop lands the whole buffer exactly if the pages held and left are enough for it, and else a proper prefix |
| MmapTest.LandedReadsBack | asgn1/mmap_test.c:109-134 | what has landed is read back |
| MmapTest.RoundTrip | asgn1/mmap_test.c:19-65 | write, seek to 0, read gives the same bytes exactly if the pages held and left are enough for them |
| MmapTest.Memcmp | asgn1/mmap_test.c:77-80 | comparing a buffer with a mapped area decides whether it equals the disk |
| MmapTest.ReadAndCompare | asgn1/mmap_test.c:68-81 | reading and comparing with a mapping never finds a difference |
| MmapTest.RunProgram | asgn1/mmap_test.c:85-158 | the outcome, told from what is known before: refused open at the limit, failed write if the pages held and left are too few, division by zero if the position is 0, else passed |

## Left out

- Module initialisation and exit, character-device, proc and udev set-up, GPIO and IRQ requests, and the failure labels: kernel plumbing.
- `read_proc` output, `printk` and the user-pointer checks of the ioctls: I/O.
- `setgpiofunc`: unused by the drivers.
- `asgn2_ioctl`: the limit it sets decides about a log message only.
- Interleaving inside one entry point, and signals that end a wait early: entry points are atomic.
- Stale mappings: a mapping kept after the disk has been emptied refers to freed pages; stores through it are not events of a run.
- List nodes: a node whose page allocation fails is leaked by both drivers; only pages are counted.
- PortSpec.Drain: does not wrap the sums at asgn2/asgn_2.c:214 and 250 around. They can wrap only after the size has gone below zero at asgn2/asgn_2.c:387, outside the domain, where the code may then ask for fewer pages than `Drain` says.
- Sizes beyond `size_t`: apart from the subtractions named above, counts and sizes are unbounded.
- mmap_test.c after an early exit: the kernel closes the handle, which the model of the program does not.
- Lab1, Lab3 and Lab4: thin wrappers over kernel primitives.
