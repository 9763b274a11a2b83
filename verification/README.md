# A verified model of the ZeOS kernel

`lab/zeos` is a small teaching kernel for the x86: processes and threads on intrusive lists, a round-robin
scheduler, mutexes, page tables with a frame bytemap, a keyboard buffer, a text console, and a game that
runs on top of it. Interrupts are off inside the kernel, so its state changes in atomic steps: one system
call, clock tick or key press at a time. The project models these steps, in place on the kernel's own data
structures where the source works in place, and proves what they keep over every run.

`dafny verify dfyconfig.toml` checks everything.

## How it is organised

| file | module | content |
|---|---|---|
| Common.dfy | Common | sizes, 32-bit words, sequences without repetition |
| ListHead.dfy, PcbLists.dfy | ListHeads, PcbListsOnHeap | circular doubly linked lists on the heap, one and many |
| RingBuffer.dfy | RingBuffers | the keyboard buffer and the loop that drains it |
| SchedSpec.dfy | SchedSpec | the process side of the kernel as a transition system |
| Kernel.dfy | Kernels | the same, in place: each method is proved to be the step of the same name |
| Partition.dfy, PartitionRuns.dfy | Partition, PartitionRuns | every PCB is in exactly one place |
| Moves.dfy | Moves | who joins and leaves which queue in each step, who runs next, and what PCBs keep |
| Pids.dfy | Pids | PIDs over runs |
| Mutexes.dfy, MutexExclusion.dfy | Mutexes, MutexExclusion | sleeping and waking; when a mutex excludes |
| RoundRobin.dfy, Slices.dfy | RoundRobin, Slices | waiting times, and the slice counter |
| IdleWake.dfy | IdleWakes | what follows a key that wakes a reader over idle |
| Delivery.dfy | Deliveries | what `sys_read` leaves in the reader's buffer over a run |
| Directories.dfy | Directories | reference counts of page directories |
| Frames.dfy, Paging.dfy | Frames, Paging | page tables, frames and bytes, fork's copy, stacks and heap requests |
| Ledger.dfy, FrameRuns.dfy, System.dfy | Ledgers, FrameRuns, Systems | who owns which frame, over runs; kernel and memory together |
| HeapStacks.dfy | HeapStacks | one address space: stacks from below, heap from above |
| FailedForks.dfy | FailedForks | what a fork without pages does, and a run that gets there |
| Line.dfy | Lines | the line drawing algorithm |
| Division.dfy, Stats.dfy | Division, Accounting | 64-bit division and time accounting with wrap-around |
| Decimal.dfy | Decimal | `itoa`, `strlen`, `atoi_n` |
| ConsoleSpec.dfy, Console.dfy | ConsoleSpec, Consoles | the console, as values and in place |
| Text.dfy, Commands.dfy, Framebuffer.dfy | Texts, Commands, Framebuffer | where text appears, what each command does, and drawing through commands |
| Map.dfy, Game.dfy, Lives.dfy | Maps, GameSpec, Games, Lives | level bitmaps, the game's accounts, and its lives and moves |

## Results

* From boot on, over every interleaving of clock ticks, system calls and key presses, every PCB is in
  exactly one place (`PartitionRuns.PartitionOverRuns`). The one step that breaks this is a key press that
  wakes a reader while idle runs, and it always does (`KeyKeepsPartitionIff`); it is reachable
  (`IdleWakeIsReachable`).
* Every step moves exactly the tasks that `Moves.StepMoves` says, and free PCBs, readers and sleepers are served
  in the order of their arrival (`FirstComeFirstServed`).
* From boot on, the i-th successful fork returns PID 2 + i, and two live PCBs have one PID if and only if they
  belong to one process (`Pids.ForkPidsOverRuns`, `FamiliesOverRuns`).
* No mutex ever strands a sleeper, sleepers wake in order, and the count exceeds 1 by at most one for each
  fast-path lock that overtakes a woken task (`Mutexes.WaitWakeOverRuns`). What each step does to the count
  is known exactly (`MutexExclusion.StepCount`), so that a mutex excludes throughout a run if and only if the
  processor never goes to a task woken from it while it is held (`ExclusionOverRuns`). That no lock overtakes
  a woken task is enough for it (`NoBargingFromBoot`) but not needed (`BargingCanBeHarmless`).
* Under the clock alone a ready task runs after exactly the rest of the running slice plus the slices ahead
  of it (`RoundRobin.ExactWait`); with everything else interleaved that many ticks, plus the slices of tasks
  that unlocks put in front, are enough (`BoundedWait`). Over every run from boot the slice counter is ten less
  the ticks of the running slice (`Slices.SlicesOverRuns`), so that the first wait of a new task is known exactly
  (`NewTaskWaitsOverRuns`).
* A frame is used exactly when it is the kernel's, boot code, or a data frame of exactly one live process,
  and a fork that gets a PCB never fails (`FrameRuns.FramesOverRuns`, and on the machine itself
  `Systems.RunFromBoot`). Every live process can write its data pages, only read its code pages, and not touch
  the kernel's (`FrameRuns.AccessOverRuns`).
* A fork gives the child 20 fresh frames with the parent's bytes (`Paging.Machine.CopyAndAllocatePages`),
  although it copies through windows in the table it is editing. The same contract says, by the number of
  frames and windows before the call, when it aborts, with the whole bytemap after that, and when it runs out
  of windows without noticing, which address spaces with one process never reach (`HeapStacks.ForkStaysInTable`).
* What a single read leaves in its buffer is known byte by byte, whatever else happens meanwhile
  (`Deliveries.ReadStores`). It is the first n characters buffered or typed and a NUL, for all keys and memories,
  if and only if the keyboard buffer was neither full nor held more than n on entry (`DeliveryIsExactIff`).
  A reader in line gets exactly the keys typed once those before it have theirs (`ReadInLineStores`).
* Thread stacks stay below page 640 and the heap above page 667, and a page for the next stack is always
  found (`HeapStacks.HeapAndStacksNeverMeet`).
* Text stands on the screen where the newlines and full lines before each character put it, whatever has scrolled
  (`Texts.TextOnScreen`, `RestOfScreen`); every console command has its effect told by cells, cursor and colours
  (`Commands`); drawing makes the screen a framebuffer in which the last writer wins.
* A line is exact rounding from end to end; drawing a level shows a wall exactly where the game finds one; a game
  is won exactly when every apple of every level was eaten, and lost exactly when as many walls were hit as there
  were lives (`Lives.LivesOverRuns`).

## Where the code does not do what one would expect

Each of these is kept as the code has it. Where a promise is broken, the exact condition for that is proved.

* `keyboard_routine` puts the interrupted task on the ready queue also when it is idle
  (`PartitionRuns.KeyKeepsPartitionIff`, `IdleWakeIsReachable`). From then on idle stands in the ready queue
  and, under the clock alone, whoever runs, idle or the reader, is never preempted again
  (`IdleWakes.IdleWakeStarves`); a ready thread behind idle never runs (`ThreadStarvesFromBoot`).
* `sys_mutex_lock` does not test the count again after it was woken: its count exceeds 1 exactly when the
  processor goes to a woken task while the mutex is held (`MutexExclusion.ExclusionOverRuns`,
  `TwoHoldsAreReachable`).
* `sys_mutex_init` breaks the count of a mutex if and only if it is held (`InitKeepsBalanceIff`); a sleeper
  then waits for somebody else's lock and unlock (`InitDelaysSleeper`).
* A `sys_fork` that gets a PCB keeps the reference counts exact if and only if there are 20 frames and 20
  windows (`FailedForks.RefsStayExactIff`). Without them `abort_copy` marks the frames of the parent's own
  pages as free (`Paging.ParentKeepsFramesIff`, `FailedForks.AbortTakesFrames`). One request for all memory
  and one fork get there (`FailedForks.FailedForkFromBoot`).
* `copy_and_allocate_pages` uses page -1 as a window if and only if some windows, fewer than 20, run out before
  the frames do (`Paging.OutcomeOf`, outcome `OffTable`).
* `sys_read` does not look at a full buffer on entry, and stores what comes after the first piece from position 1
  on: the first key typed is lost, and of the four buffered characters those behind the first are overwritten
  (`Deliveries.FillWhenFull`, `ReadStores`); four key presses get there (`FullRingIsReachable`). A buffer that
  holds more than n, but is not full, is copied whole.
* A fork that gets a PCB trims the parent's table, also when it fails: the parent's heap and thread stacks stay
  mapped in the child's table only, so that the pages above the break are all mapped if and only if there are none
  (`HeapStacks.ForkMovesHeap`, `Fork`).
* A release can move the break past the top of the heap, after which a granted request is not wholly mapped
  (`HeapStacks.GrantedIsMappedIff`, `UnmappedByteIsGranted`); a request and its release restore the mapped
  pages if and only if none in between was mapped before (`ReleaseRestoresIff`, `ReleaseUnmapsPage`).
* `set_cursor` tests the old position, `erase_current_char` compares an unsigned byte with zero, the dim
  case of attribute 35 does nothing, bright white as a background is light gray, and a rejected command adds
  nothing to the count of written characters: the console model follows the code in each.
* Releasing memory and ending threads give no frame back (`HeapStacks.FramesNeverComeBack`, `ReleasedIff`).
* A separator without numbers in a console command counts as the number 0 (`Commands.LoneSeparator`), and a number
  after the third is ignored (`FourthIgnored`).
* The comments beside the statistics calls of `sched_next_rr` name the two transitions the wrong way round;
  the time is charged as the code does it.

## Model

| member | source | states |
|---|---|---|
| ListHeads.InitListHead | lab/zeos/list.c:6-10 | the head becomes a well-formed list with no elements |
| ListHeads.Insert | lab/zeos/list.c:18-26 | a node put between two neighbours appears at exactly that position of the list, all else in order |
| ListHeads.ListAdd | lab/zeos/list.c:36-39 | refines prepending to the sequence of elements |
| ListHeads.ListAddTail | lab/zeos/list.c:50-53 | refines appending to the sequence of elements |
| ListHeads.ListDel | lab/zeos/list.c:62-79 | refines removing position k; the list stays well formed and the node keeps no links |
| ListHeads.ListEmpty | lab/zeos/list.c:96-99 | true exactly for the empty sequence |
| ListHeads.ListFirst | lab/zeos/include/list.h:131-132 | the first element, or the head itself if there is none |
| ListHeads.ListIsLast | lab/zeos/list.c:86-90 | true exactly at the last position |
| ListHeads.WalkVisitsOnce | lab/zeos/list.c:18-79 | in a well-formed list every node starts one link of the circular walk and ends one |
| PcbListsOnHeap.PcbLists.LinkLast | lab/zeos/sched.c:280-285 | `list_add_tail` to one of the kernel's lists appends there and leaves all other lists as they are |
| PcbListsOnHeap.PcbLists.LinkFirst | lab/zeos/sys.c:343 | `list_add` prepends to one list and leaves all others as they are |
| PcbListsOnHeap.PcbLists.Unlink | lab/zeos/sched.c:282 | `list_del` removes the PCB from the one list it is in; the others stay |
| PcbListsOnHeap.PcbLists.UnlinkFirst | lab/zeos/sys.c:50-51 | the head of a list leaves it; the others stay |
| PcbListsOnHeap.PcbLists.OverwriteLinks | lab/zeos/sys.c:56 | writing another node's stale links into the node of an unlinked PCB changes no list |
| PcbListsOnHeap.PcbLists.WalksApart | lab/zeos/sched.c:182-189 | the walks around two of the kernel's lists never meet |
| PcbListsOnHeap.PcbLists.NodeOffWalks | lab/zeos/sys.c:50-56 | no list's walk meets the node of an unlinked PCB |
| RingBuffers.RingBuffer.IsFull | lab/zeos/io.c:66-68 | true exactly when the queue holds as many characters as there are cells |
| RingBuffers.RingBuffer.Append | lab/zeos/io.c:32-46 | appends to the queue, or drops the character if it is full, for every capacity |
| RingBuffers.RingBuffer.Read | lab/zeos/io.c:48-64 | removes and returns the oldest character, NUL if there is none |
| RingBuffers.RingBuffer.Drain | lab/zeos/sys.c:206-212 | copies the characters before the first NUL, in order, and stops behind it |
| RingBuffers.RingBuffer.DrainAll | lab/zeos/sys.c:187-194 | without NUL in it the buffer ends empty, its whole contents copied in order, at most as many as there are cells |
| RingBuffers.FifoOrder | lab/zeos/io.c:27-68 | over every operation sequence, what came out plus what is left is what was there plus what was accepted, in order |
| RingBuffers.RunOps | lab/zeos/io.c:27-68 | every operation sequence on the ring of cells gives the results of the bounded queue |
| SchedSpec.BootState | lab/zeos/sched.c:73-200 | the state after the init functions: task 0 idle, task 1 running, the rest free in order, one reference each |
| Kernels.Kernel.UpdateProcessStateRr | lab/zeos/sched.c:280-285 | the PCB leaves its list unless it is running or idle, and is appended to the new one if there is one |
| Kernels.Kernel.ChooseNext | lab/zeos/sched.c:247-251 | the head of the ready queue, idle if there is none |
| Kernels.Kernel.SwitchTask | lab/zeos/sched.c:245-274 | the chosen task leaves the ready queue, becomes current and gets its quantum |
| Kernels.Kernel.Resume | lab/zeos/sys.c:317-324 | a task that slept on a mutex completes its lock when it is switched to |
| Kernels.Kernel.SchedNextRr | lab/zeos/sched.c:245-274 | the whole switch, with the new task back in user mode, is the step of the specification |
| Kernels.Kernel.NeedsSchedRr | lab/zeos/sched.c:290-301 | true exactly at the end of a slice with somebody ready; otherwise an ended slice is renewed |
| Kernels.Kernel.ClockRoutine | lab/zeos/sched.c:306-322 | a clock tick on the kernel's data is the tick of the transition system; with nobody ready the task goes on, and a slice that ends is followed by a whole one |
| Kernels.Kernel.CopyParentPcb | lab/zeos/sys.c:50-56 | the first free PCB is taken and overwritten with the parent's, stale links included, and every list stays well formed |
| Kernels.Kernel.SysFork | lab/zeos/sys.c:39-77 | the new PCB is a copy with its own directory at the end of the ready queue and a new PID, which is returned; ENOMEM without PCB or pages, with the leaked reference |
| Kernels.Kernel.SysCreateThread | lab/zeos/sys.c:246-288 | the new PCB is a copy that shares the directory, at the end of the ready queue; ENOMEM without PCB |
| Kernels.Kernel.SysExit | lab/zeos/sys.c:82-102 | the PCB goes to the free queue, one reference is dropped, pages are freed exactly with the last, the next task runs |
| Kernels.Kernel.SysMutexInit | lab/zeos/sys.c:290-304 | sets the count to 0 for a valid number, else -1 |
| Kernels.Kernel.SysMutexLock | lab/zeos/sys.c:306-325 | sleeps on the mutex if it is held, else counts up at once; -1 for an invalid one |
| Kernels.Kernel.SysMutexUnlock | lab/zeos/sys.c:327-349 | counts down and moves the first sleeper to the head of the ready queue; no effect at 0, -1 for an invalid one |
| Kernels.Kernel.SysRead | lab/zeos/sys.c:173-226 | stores what is buffered at the start of the user buffer unless the keyboard buffer is full, then sleeps for the rest, or ends the text with a NUL and returns n; EINVAL, and nothing happens, when no characters are asked for |
| Kernels.Kernel.PassThroughBlocked | lab/zeos/sys.c:202-223 | queueing on `blocked` and leaving it again is no change |
| Kernels.Kernel.KeyboardRoutine | lab/zeos/interrupt.c:119-146 | buffers the key, counts it for the first reader, and hands the processor over when that is satisfied or the buffer full; the reader stores the buffer at its offset, and a NUL if it is satisfied |
| Kernels.Kernel.Start | lab/zeos/sched.c:73-200 | the init functions on the zeroed image produce the boot state |
| Kernels.Kernel.Enter | lab/zeos/sys.c:39-349 | every kernel entry is the step of the transition system and stores the specified characters at the specified places of readers' buffers; unless a key wakes a reader over idle it keeps the invariant and comes back to user mode |
| Kernels.Kernel.EnterAll | lab/zeos/sched.c:245-322 | every run of the kernel in place, up to and including a key that wakes a reader over idle, is a run of the transition system, and stores the specified pieces in readers' buffers, in order |
| Partition.MoveFirst | lab/zeos/sched.c:280-285 | moving the head of one queue to either end of a queue keeps every task in its one place |
| Partition.QueuedIsElsewhere | lab/zeos/sched.c:280-285 | the head of a queue is neither running nor idle, and is in that queue once and in no other |
| Partition.SchedNextInv | lab/zeos/sched.c:245-274 | a switch after the running task was queued restores the user-mode invariant |
| Partition.TickInv | lab/zeos/sched.c:306-322 | a clock tick keeps the invariant |
| Partition.ForkInv | lab/zeos/sys.c:39-77 | a fork keeps it, whether it succeeds or fails |
| Partition.CreateThreadInv | lab/zeos/sys.c:246-288 | creating a thread keeps it |
| Partition.ExitInv | lab/zeos/sys.c:82-102 | an exit keeps it |
| Partition.LockInv | lab/zeos/sys.c:306-325 | a lock keeps it, sleeping or not |
| Partition.UnlockInv | lab/zeos/sys.c:327-349 | an unlock keeps it |
| Partition.ReadInv | lab/zeos/sys.c:173-226 | a read keeps it, blocking or not |
| Partition.KeyInv | lab/zeos/interrupt.c:119-146 | a key press keeps it unless it wakes a reader over idle |
| PartitionRuns.StepInv | lab/zeos/sched.c:245-322 | every allowed step keeps the invariant |
| PartitionRuns.BootInv | lab/zeos/sched.c:73-200 | the boot state has it |
| PartitionRuns.ExactlyOnePlace | lab/zeos/sched.c:280-285 | the counting invariant means: each PCB running, parked idle, or at exactly one index of exactly one queue |
| PartitionRuns.PartitionOverRuns | lab/zeos/sched.c:245-322 | over every run from boot each PCB is in exactly one place and idle is in no queue |
| PartitionRuns.IdleIsQueued | lab/zeos/interrupt.c:141-143 | a key that wakes a reader while idle runs leaves idle in the ready queue |
| PartitionRuns.KeyKeepsPartitionIff | lab/zeos/interrupt.c:131-145 | a key press keeps the partition if and only if it does not wake a reader while idle runs |
| PartitionRuns.IdleWakeIsReachable | lab/zeos/interrupt.c:131-145 | from boot, one read of a single character and one key press break the partition |
| Moves.StepMoves | lab/zeos/sched.c:245-322 | for every step and queue: who joins at the head, who at the end and how many leave at the head, and who runs afterwards, told by the state before |
| Moves.FirstComeFirstServed | lab/zeos/sched.c:280-285 | over every run the free queue, the readers and the sleepers of each mutex are what was there and those who came, in order, less those served |
| Moves.ChildPcb | lab/zeos/sys.c:50-74 | the new PCB has the parent's PID, directory, quantum and request, but for the directory of a fork and the PID of a successful one; no other PCB changes |
| Moves.OtherPcbs | lab/zeos/sys.c:82-349 | no other step changes PIDs, directories or quanta |
| Pids.ForksCount | lab/zeos/sys.c:74 | from any state the successful forks of a run return the PIDs from the counter on, one after the other |
| Pids.ForkPidsOverRuns | lab/zeos/sys.c:74-76 | over every run from boot the i-th successful fork returns 2 + i, so that no PID is returned twice |
| Pids.FamiliesOverRuns | lab/zeos/sys.c:246-288 | every PID is below the next one, and two live PCBs have one PID if and only if the same fork, or boot, brought forth the process that they are, or are threads of |
| Slices.SliceIsRenewed | lab/zeos/sched.c:290-309 | with nobody ready, after n ticks the same task runs with the rest of its slice, or of the last of the whole slices that followed it |
| Slices.StepTicks | lab/zeos/sched.c:268-309 | the slice counter after any step: the quantum of a dispatched task, one less after a tick, a whole slice after the last one, else the same |
| Slices.SlicesOverRuns | lab/zeos/sched.c:268-309 | over every run from boot, unless idle runs, the counter is ten less the ticks since the running slice began, and at most the quantum |
| Slices.NewTaskWaits | lab/zeos/sys.c:72 | a new task first runs after exactly the rest of the running slice and the quanta of all that were ready before |
| Slices.NewTaskWaitsOverRuns | lab/zeos/sys.c:72 | after every run from boot that is ten ticks for each of them and what is left of ten |
| Mutexes.UnlockEvent | lab/zeos/sys.c:338-346 | an effective unlock moves one unit from count to woken, or removes it when nobody sleeps |
| Mutexes.SchedNextBal | lab/zeos/sched.c:245-274 | a switch keeps the wait/wake invariant of every mutex: a dispatched woken task completes its lock |
| Mutexes.LockBal | lab/zeos/sys.c:306-325 | a lock of any mutex keeps it |
| Mutexes.UnlockBal | lab/zeos/sys.c:327-349 | an unlock of any mutex keeps it |
| Mutexes.KeyBal | lab/zeos/interrupt.c:119-146 | a key press keeps it |
| Mutexes.RunBal | lab/zeos/sys.c:306-349 | it holds along every run that starts in it without re-initialisation |
| Mutexes.WaitWakeOverRuns | lab/zeos/sys.c:306-349 | after any run from boot: count is completed locks minus effective unlocks and not negative, a sleeper implies a holder or a woken task, wake-ups are in sleeping order, and count plus woken is at most 1 plus the overtaking locks |
| MutexExclusion.UnusableStays | lab/zeos/sys.c:290-349 | a lock or unlock of a number out of range or of a mutex marked unusable, and an init out of range, do nothing |
| MutexExclusion.StepLog | lab/zeos/sys.c:317-322 | the history records a barging lock exactly at the steps that are one |
| MutexExclusion.StepCount | lab/zeos/sys.c:306-349 | what any step does to a count: plus one for a lock at 0, minus one for an effective unlock, plus one when the processor goes to a task woken from the mutex |
| MutexExclusion.ExcludesIff | lab/zeos/sys.c:306-349 | from any state in the invariant, the count is at most 1 at every state of the run if and only if the processor never goes to a task woken from the mutex while it is held |
| MutexExclusion.ExclusionOverRuns | lab/zeos/sys.c:306-349 | the same for every run from boot without re-initialisation |
| MutexExclusion.NoBargingFromBoot | lab/zeos/sys.c:317-322 | if no fast-path lock overtakes a woken task, the count is at most 1 at every state of the run |
| MutexExclusion.BargingCanBeHarmless | lab/zeos/sys.c:317-346 | from any state with a holder and a sleeper, unlock, lock and unlock overtake the sleeper and yet the count stays at most 1 |
| MutexExclusion.BargingGivesTwoHolds | lab/zeos/sys.c:317-346 | from any state with a holder and a sleeper, unlock and lock followed by any step that gives up the processor leave a count of 2 |
| MutexExclusion.TwoHoldsAreReachable | lab/zeos/sys.c:306-349 | a run from boot, with one thread created, whose last state has a count of 2 |
| MutexExclusion.InitKeepsBalanceIff | lab/zeos/sys.c:298-301 | initialising a mutex keeps its invariant if and only if its count was 0 |
| MutexExclusion.InitDelaysSleeper | lab/zeos/sys.c:298-349 | after initialising a held mutex with a sleeper, the holder's unlock wakes nobody; the next lock is fast and its unlock wakes the sleeper |
| RoundRobin.SwitchAdvances | lab/zeos/sched.c:245-274 | a switch runs the head and brings every other ready task one place and one slice nearer |
| RoundRobin.TickAdvances | lab/zeos/sched.c:290-322 | a tick brings a ready task exactly one tick nearer, and runs it exactly when its time has come |
| RoundRobin.ExactWait | lab/zeos/sched.c:245-322 | under the clock alone the task at position k first runs after exactly the rest of the slice plus the k slices ahead |
| RoundRobin.WokenRunsNext | lab/zeos/sys.c:340-344 | a task woken by an unlock first runs after exactly the rest of the running slice |
| RoundRobin.StepAdvances | lab/zeos/sched.c:245-322 | any step lets a waiting task run or raises its waiting time by at most the slice an unlock puts in front, less the tick |
| RoundRobin.BoundedWait | lab/zeos/sched.c:245-322 | in every interleaving a ready task is dispatched within its waiting time plus the slices that unlocks put in front |
| RoundRobin.IdleRunsOnlyWhenNothingIsReady | lab/zeos/sched.c:247-251 | from boot on idle runs only while the ready queue is empty |
| IdleWakes.RunIdle | lab/zeos/sched.c:290-322 | over every allowed run idle keeps a quantum of zero, and while it runs the slice counter is not positive |
| IdleWakes.RunsForeverIfOver | lab/zeos/sched.c:290-322 | with a slice counter at or below zero the running task keeps the processor at every later tick |
| IdleWakes.StuckBehindIdle | lab/zeos/sched.c:245-301 | with idle at the head of the ready queue a switch runs idle, leaves it there, and under the clock alone nobody behind it ever runs |
| IdleWakes.IdleWakeStarves | lab/zeos/interrupt.c:138-145 | after any run from boot, a key that wakes a reader over idle leaves idle alone in the ready queue; the reader runs if it has all it wanted, else idle; under the clock alone that task runs for ever |
| IdleWakes.ThreadStarvesFromBoot | lab/zeos/interrupt.c:138-145 | if that reader creates a thread and exits, idle runs with the new thread ready behind it, which under the clock alone never runs |
| Deliveries.KeyForReader | lab/zeos/interrupt.c:128-146 | a key counts the request of the first reader down, and no other's; when that is done or the buffer full, the buffer is drained and the offset of the next piece moves on |
| Deliveries.KeyStores | lab/zeos/sys.c:203-226 | what the key stores: the drained buffer at the offset, and behind the last piece a NUL |
| Deliveries.HandedIsFill | lab/zeos/sys.c:203-226 | over any steps without other reads, a waiting reader's buffer is filled by the keys alone, as `Fill` says |
| Deliveries.FillIs | lab/zeos/sys.c:203-226 | with the pieces so far in order, the characters still wanted follow in order, and a NUL |
| Deliveries.FillWhenFull | lab/zeos/sys.c:183-217 | from a full buffer the old characters are stored at 0 and the second and later keys from position 1 on; the first key is lost |
| Deliveries.ReadStores | lab/zeos/sys.c:173-226 | over any run without other reads, what a read of n characters leaves in the reader's memory, for every keyboard buffer on entry, byte by byte |
| Deliveries.TextIsExactIff | lab/zeos/sys.c:173-226 | the text up to the NUL is right for all keys if and only if the buffer was neither full nor held more than n, or was full and n is 1 |
| Deliveries.DeliveryIsExactIff | lab/zeos/sys.c:173-226 | over real runs, for all keys and memories, the reader ends with the first n characters and a NUL and nothing else changed, if and only if the buffer was neither full nor held more than n |
| Deliveries.LoneReadStores | lab/zeos/interrupt.c:128-146 | a read that waits for no more than fits into the buffer ends exact also when its last key wakes it over idle |
| Deliveries.KeyNearer | lab/zeos/interrupt.c:128-146 | a key brings every other reader exactly one character nearer; one whose turn it is finds the buffer empty |
| Deliveries.HandedInLine | lab/zeos/sys.c:203-226 | over any steps without other reads, the buffer of a reader in line is filled by the keys typed after those that the readers before it want |
| Deliveries.ReadInLineStores | lab/zeos/sys.c:173-226 | a read while others wait ends with what the keyboard buffer held, unless that was full, then exactly the keys that follow those of the others, and a NUL |
| Deliveries.NothingForOthers | lab/zeos/sys.c:203-226 | nothing is stored for a task that does not wait |
| Deliveries.FullRingIsReachable | lab/zeos/sys.c:180-196 | one thread and four keys after boot the buffer is full, and no read of any length is exact |
| Directories.CreateThreadRefs | lab/zeos/sys.c:265-268 | creating a thread keeps them exact |
| Directories.ExitRefs | lab/zeos/sys.c:86-97 | an exit keeps them exact |
| Directories.RefsOverRuns | lab/zeos/sys.c:82-102 | over runs from boot in which forks find their pages, each count is the number of live PCBs on the directory |
| Directories.ExitFreesIff | lab/zeos/sys.c:86-94 | an exit frees the pages of a directory if and only if the exiting task is its only live user |
| Directories.OnlyExitFrees | lab/zeos/sys.c:91-94 | no other step frees pages |
| Frames.NextFirst | lab/zeos/mm.c:326-339 | with the n first allocatable frames used, the allocator's next frame is the n-th, 256 + 2n |
| Frames.FirstUsedFree | lab/zeos/mm.c:326-339 | then 384 - n frames are left |
| Paging.Machine.AllocFrame | lab/zeos/mm.c:326-339 | marks and returns the lowest free frame it can reach, -1 exactly if there is none |
| Paging.Machine.FreeFrame | lab/zeos/mm.c:354-358 | marks a frame above 256 as free and ignores all others |
| Paging.Machine.InitFrames | lab/zeos/mm.c:310-322 | used are exactly the kernel's frames |
| Paging.Machine.InitTablePages | lab/zeos/mm.c:65-83 | every table maps the kernel's pages but the first to themselves and nothing else |
| Paging.Machine.SetUserPages | lab/zeos/mm.c:88-113 | the first process gets the first 8 frames as code, present, user and not rw, and the next 20 as data, present, user and rw |
| Paging.Machine.SetSsPag | lab/zeos/mm.c:361-369 | changes the one entry, which is then present, user and rw, with the frame given |
| Paging.Machine.DelSsPag | lab/zeos/mm.c:372-375 | clears the one entry |
| Paging.Machine.GetFreePage | lab/zeos/mm.c:191-196 | the lowest unmapped page from 284 on, -1 exactly if there is none |
| Paging.Machine.DelSsExtraPages | lab/zeos/mm.c:213-217 | clears every entry from 284 on and no other |
| Paging.Machine.FreeUserPages | lab/zeos/mm.c:341-350 | unmaps the data pages and frees exactly their frames, except frame 256 |
| Paging.Machine.CopyUnits | lab/zeos/utils.c:10-19 | each of the two loops extends the copied prefix and stops with at most four bytes, or none, left |
| Paging.Machine.CopyData | lab/zeos/utils.c:6-20 | words then bytes: the destination holds exactly the source's bytes, through the translation of the table in use |
| Paging.ProgressMore | lab/zeos/mm.c:140-166 | one more page copied keeps distinct new frames, the parent's entries and the original bytes of pages not yet copied |
| Paging.Machine.CopyPage | lab/zeos/mm.c:160-165 | one round: entry in the child, window in the parent, and the bytes of the page in the new frame |
| Paging.Machine.AbortCopy | lab/zeos/mm.c:179-183 | the parent's extra pages go, the child's data pages are unmapped, and the frames behind them are marked free |
| Paging.Machine.CopyNext | lab/zeos/mm.c:140-166 | a round fails for want of frame or window exactly when the initial supply is used up, and then changes nothing but the bytemap, by the frame it took |
| Paging.AbortIsExact | lab/zeos/mm.c:141-183 | the whole bytemap after an abort: frames of uncopied parent pages free, frames that were free free again, but for the lowest if there was no window, and frame 256 |
| Paging.ParentKeepsFramesIff | lab/zeos/mm.c:179-183 | after an abort every data frame of the parent is still marked used if and only if none of its uncopied pages has a frame above 256 |
| Paging.Machine.CopyAndAllocatePages | lab/zeos/mm.c:121-176 | the outcome by the number of frames and windows; on success distinct fresh frames with the parent's bytes in the child's data pages, which are present, user and rw, and every other entry the parent's; on abort the exact bytemap and both tables; in all cases the parent keeps its entries below 284 and no frame but the new ones changes |
| Paging.Machine.GetNewStack | lab/zeos/mm.c:198-207 | maps the lowest free page to the lowest free frame, present, user and rw; without a frame it maps nothing real and does not notice; it leaves the table exactly if no page is free, having taken the lowest free frame |
| Paging.Machine.MapDown | lab/zeos/sys.c:361-368 | maps missing pages from the top down, each to a frame of its own, with exactly these frames newly used; it fails exactly when the frames are fewer than the missing pages, and then has used them all |
| Paging.Machine.UnmapUp | lab/zeos/sys.c:370-372 | clears exactly the pages of the range |
| Paging.Machine.SysDynMem | lab/zeos/sys.c:351-379 | refusal, growth, failed growth and release, each with its effect on table, frames and break; the frames newly used are exactly those of the newly mapped pages, which are user and rw |
| Paging.OutcomeOfRounds | lab/zeos/mm.c:139-166 | the rounds of the copy, each looking for a frame and then for a window, end as the numbers of both tell beforehand |
| Paging.ForkAccess | lab/zeos/mm.c:121-176 | a successful copy gives the child, and leaves the parent, exactly the access rights of a process |
| Ledgers.Enter | lab/zeos/mm.c:140-166 | 20 fresh frames for a new process keep frames isolated, accounted and adding up |
| Ledgers.Strike | lab/zeos/mm.c:341-358 | giving a process's frames back keeps them so |
| Ledgers.NothingLost | lab/zeos/mm.c:354-358 | the strict comparison in `free_frame` loses nothing, because frame 256 is never a data frame |
| FrameRuns.ForkKeeps | lab/zeos/mm.c:121-176 | the page copy of a fork adds the child's frames to the ledger and keeps it balanced |
| FrameRuns.ExitKeeps | lab/zeos/mm.c:341-350 | the release on exit strikes the process and keeps it balanced |
| FrameRuns.ForkFindsPages | lab/zeos/sys.c:46-70 | while a PCB is free a fork finds its frames and windows |
| FrameRuns.OneStep | lab/zeos/sys.c:39-102 | every step of kernel and memory keeps all accounts, and a fork that gets a PCB succeeds |
| FrameRuns.BootStateInv | lab/zeos/mm.c:88-113 | the booted machine has balanced accounts |
| FrameRuns.FramesOverRuns | lab/zeos/mm.c:88-358 | over every run from boot, a frame is used exactly when reserved or owned by exactly one live process, nothing is owned twice, free and owned frames add up, and forks never fail for want of pages |
| FrameRuns.AccessOverRuns | lab/zeos/mm.c:88-369 | over every run from boot, every live process can write its data pages, can read and not write its code pages, and cannot touch the kernel's |
| Systems.ForkPages | lab/zeos/mm.c:121-176 | on the machine the page copy ends as frames and windows tell, and unless it leaves the table it is the memory step of a successful or failed fork |
| Systems.ForkEntry | lab/zeos/sys.c:39-77 | a fork, queues and pages together, succeeds or fails as frames and windows tell and is then that step of the specification |
| Systems.ExitEntry | lab/zeos/sys.c:82-102 | an exit, queues and pages together, is the exit of the specification |
| Systems.Enter | lab/zeos/sys.c:39-349 | every entry of a process is one step of kernel and memory and keeps all accounts |
| Systems.BootMachine | lab/zeos/mm.c:245-254 | the init functions leave the memory that the runs start from |
| Systems.RunFromBoot | lab/zeos/mm.c:88-358 | running any requests on the machine, from boot on, ends in exact accounts and access rights |
| FailedForks.RefsStayExactIff | lab/zeos/sys.c:56-70 | a fork keeps the reference counts exact if and only if no PCB is free, or 20 frames and 20 windows are |
| FailedForks.AbortTakesFrames | lab/zeos/mm.c:179-183 | an aborted copy marks the frames of all uncopied pages of the parent as free, at least one, while the parent's table still maps them |
| FailedForks.FailedForkFromBoot | lab/zeos/sys.c:39-77 | boot, one request for all memory and one fork: a reference too many, and every data frame of the running process marked free |
| HeapStacks.FreePageExists | lab/zeos/mm.c:191-196 | with at most 356 extra pages mapped, `get_free_page` finds one |
| HeapStacks.FirstFreePageIsLow | lab/zeos/mm.c:191-207 | the lowest free page is at most as far above 284 as there are extra pages mapped |
| HeapStacks.HeapIsShort | lab/zeos/sys.c:361-368 | a mapped stretch up to the top of the heap starts at page 668 or above |
| HeapStacks.CreateThreadInv | lab/zeos/mm.c:198-207 | a new stack keeps the invariant of the address space |
| HeapStacks.ExitThreadInv | lab/zeos/sys.c:228-244 | a thread's exit keeps it |
| HeapStacks.RequestInv | lab/zeos/sys.c:351-379 | a heap request or release keeps it |
| HeapStacks.HeapAndStacksNeverMeet | lab/zeos/sys.c:228-379 | over every run: at most 356 extra pages, a free page left, stacks in pages 284 to 639, the heap from page 668 on, live blocks mapped and disjoint, both stacks and blocks user and rw |
| HeapStacks.FramesNeverComeBack | lab/zeos/sys.c:228-379 | over every run of one address space no frame becomes free |
| HeapStacks.GrantedIff | lab/zeos/sys.c:351-368 | a request is granted if and only if the new break is at page 277 or above and there are frames for the missing pages; refused, it leaves the break |
| HeapStacks.ReleasedIff | lab/zeos/sys.c:351-379 | a release is granted if and only if it stays at page 1024 at most; it unmaps exactly its pages and gives back no frame |
| HeapStacks.Serve | lab/zeos/sys.c:228-379 | the machine's own calls are these steps |
| HeapStacks.GrantedIsMappedIff | lab/zeos/sys.c:351-379 | a granted request lies wholly in mapped pages if and only if the break was not past the top |
| HeapStacks.ReleaseRestoresIff | lab/zeos/sys.c:351-379 | request and release restore the break, and the mapped pages if and only if none in between was mapped before |
| HeapStacks.UnmappedByteIsGranted | lab/zeos/sys.c:351-379 | releasing one byte at the start and asking for it again grants a byte that is not mapped |
| HeapStacks.FailedRequestLeavesPage | lab/zeos/sys.c:361-368 | a request for more than all memory fails and leaves the last page mapped below an unchanged break |
| HeapStacks.ReleaseUnmapsPage | lab/zeos/sys.c:351-379 | after that a request for one page and its release change the mapped pages |
| HeapStacks.HeapUsesUpFrames | lab/zeos/sys.c:361-368 | a request for 356 pages at the start is granted and leaves no frame |
| HeapStacks.ForkStaysInTable | lab/zeos/mm.c:146-158 | over every run of one address space at least 384 windows are left, so that a fork from it never leaves the table |
| HeapStacks.ForkMovesHeap | lab/zeos/mm.c:168-173 | once a fork has trimmed the parent's table, the heap and the stacks are mapped in the child's only: in the parent's the pages from the break on are all mapped if and only if there are none, and no granted block is |
| HeapStacks.Fork | lab/zeos/mm.c:121-183 | on the machine, whether the copy succeeds, which it does exactly with 20 frames, or aborts, heap and stacks end in the child's table only |
| Lines.DecisionIsOffset | lab/zeos/graphics.c:57-65 | a decision variable within its bounds pins the minor offset to the rounded one |
| Lines.WalkX | lab/zeos/graphics.c:55-69 | the loop for wide lines visits exactly the rounded points |
| Lines.WalkY | lab/zeos/graphics.c:70-83 | the loop for high lines visits exactly the rounded points |
| Lines.DrawLine | lab/zeos/graphics.c:45-84 | for all endpoints: max(abs dx, abs dy) + 1 points, the i-th being the exactly rounded one |
| Lines.EndsAtTarget | lab/zeos/graphics.c:45-84 | the last point is the end point |
| Lines.StepsAreNeighbours | lab/zeos/graphics.c:45-84 | consecutive points are 8-neighbours and differ |
| Lines.OffsetIsNearest | lab/zeos/graphics.c:57-65 | no point is more than half a cell off the true line, and halves are rounded up |
| Division.NoOverflow | lab/zeos/utils.c:103-113 | the second hardware division cannot overflow |
| Division.TwoLimbs | lab/zeos/utils.c:103-113 | two 32-bit divisions give quotient and remainder of the 64-bit number |
| Division.DoDiv | lab/zeos/utils.c:103-113 | n becomes n / base and the result is n % base, for every n and non-zero base |
| Division.GetTicks | lab/zeos/utils.c:121-132 | the ticks are the counter divided by 109000, cut to 32 bits |
| Accounting.Stats.Init | lab/zeos/sched.c:342-350 | all counters zero, the clock reading kept |
| Accounting.Stats.UserToSys | lab/zeos/sched.c:352-356 | the time since the last reading goes to the user counter, modulo 2^32 |
| Accounting.Stats.SysToUserOrReady | lab/zeos/sched.c:358-368 | it goes to the system counter |
| Accounting.Stats.ReadyToSys | lab/zeos/sched.c:370-375 | it goes to the ready counter, and the dispatch is counted |
| Accounting.CountersAreExact | lab/zeos/sched.c:342-375 | over every history each counter is the real time of its kind modulo 2^32, although the clock wraps around too |
| Accounting.TimeIsConserved | lab/zeos/sched.c:342-375 | the counters add up to the task's age, exactly so while the age fits in 32 bits |
| Accounting.Replay | lab/zeos/sched.c:342-375 | any history of calls on the struct in place ends with exact counters that add up to the age modulo 2^32 |
| Decimal.DigitsIsNumeral | lab/zeos/libc.c:22-44 | the text has digits only, at least one, and no leading zero |
| Decimal.ValueOfDigits | lab/zeos/devices.c:124-131 | reading the text of a number gives the number |
| Decimal.DigitsOfValue | lab/zeos/libc.c:22-44 | writing the value of a numeral gives the numeral |
| Decimal.ValueSkips | lab/zeos/devices.c:124-131 | characters that are not digits do not change the number read |
| Decimal.LowFirstIsReversed | lab/zeos/libc.c:29-35 | the digit loop produces the text back to front |
| Decimal.StoreLowFirst | lab/zeos/libc.c:28-35 | stores exactly those characters and touches nothing behind them |
| Decimal.ReverseFirst | lab/zeos/libc.c:37-42 | the swapping loop reverses the characters in place |
| Decimal.Itoa | lab/zeos/libc.c:22-44 | the buffer holds the decimal text and a NUL; a negative number gives the empty text |
| Decimal.Strlen | lab/zeos/libc.c:46-55 | the position of the first NUL |
| Decimal.AtoiN | lab/zeos/devices.c:124-131 | the number that the digits among the n characters write |
| Decimal.RoundTrip | lab/zeos/libc.c:22-55 | `itoa`, `strlen`, `atoi_n` in turn give the number back |
| Consoles.Console.ScrollScreen | lab/zeos/io.c:79-95 | every line moves up one, the last is blank |
| Consoles.Console.PrintcColor | lab/zeos/io.c:126-155 | one character: cell, cursor, line end and scrolling as specified; on the screen, the console is as after a text of this one character |
| Consoles.Console.EraseCurrentChar | lab/zeos/io.c:184-192 | the column steps back modulo 256 and that cell is blanked |
| Consoles.Console.MoveCursor | lab/zeos/io.c:194-200 | moves unless the old position was off the screen |
| Consoles.Console.ChangeAttribute | lab/zeos/devices.c:133-228 | every attribute number has the effect the specification lists |
| Consoles.Console.ExecuteCommand | lab/zeos/devices.c:82-122 | accepts exactly the known commands and carries them out |
| Consoles.Console.RunCommand | lab/zeos/devices.c:33-72 | the inner loop parses and executes, or prints, one command as specified |
| Consoles.Console.SysWriteConsole | lab/zeos/devices.c:19-80 | the whole buffer has the specified effect on screen, cursor and attributes, and the specified count; a text without commands is laid out from the cursor on in green on black, and all of it counts |
| Texts.LayoutMore | lab/zeos/io.c:126-155 | rows and columns counted by newlines and full lines go on with each character as the cursor does |
| Texts.PrintDepicts | lab/zeos/io.c:126-155 | printing one more character on a screen that shows the end of a text laid out on paper gives the screen that shows it with that character |
| Texts.CharacterOnScreen | lab/zeos/io.c:126-155 | each character of a text is in its cell, moved up by the rows scrolled, in the word of its colours |
| Texts.RestOfScreen | lab/zeos/io.c:79-155 | every other cell shows what was there, moved up alike, or nothing in a row from below |
| Texts.WrittenText | lab/zeos/devices.c:19-80 | a call with text only counts every character and shows it so |
| Texts.TextOnScreen | lab/zeos/devices.c:19-80 | for every text and character of it: its row and column on the 80 by 25 screen, its word, and where the cursor ends |
| Commands.Rejected | lab/zeos/devices.c:33-72 | a command with at most one number that is not carried out is printed, all but the '[', and adds nothing to the count |
| Commands.NotACommand | lab/zeos/devices.c:33-72 | so is one whose last character is none of D, K, H, f and m, whatever numbers and separators it has |
| Commands.Unfinished | lab/zeos/devices.c:33-41 | a command that the buffer ends in is dropped |
| Commands.ScrollUp | lab/zeos/devices.c:85-87 | 'D' moves every line up and empties the last; the cursor stays |
| Commands.EraseBack | lab/zeos/devices.c:89-92 | 'K' steps back one column, from 0 to 255, and empties that cell only |
| Commands.Home | lab/zeos/devices.c:94-100 | 'H' and 'f' without numbers go to the first cell unless the cursor is off the screen |
| Commands.GoTo | lab/zeos/devices.c:94-106 | with two numbers they go to that column and row, modulo 256 |
| Commands.OneAttribute | lab/zeos/devices.c:133-228 | 'm' with one number changes exactly the attribute that it stands for: colours swap red and blue and are brighter by 8, with the two exceptions of the code |
| Commands.TwoAttributes | lab/zeos/devices.c:108-112 | two numbers, one after the other |
| Commands.ThreeAttributes | lab/zeos/devices.c:108-112 | three numbers, one after the other |
| Commands.FourthIgnored | lab/zeos/devices.c:33-55 | a fourth number changes nothing |
| Commands.LoneSeparator | lab/zeos/devices.c:33-55 | a separator without numbers is the number 0 |
| Commands.DrawnWord | lab/zeos/graphics.c:6-15 | the word of a drawn cell, bit by bit: character, bright foreground, background |
| Consoles.Graphics.DrawIj | lab/zeos/graphics.c:6-15 | formatting in the global buffer and writing it has the effect of the printed commands |
| Framebuffer.TwoParameters | lab/zeos/devices.c:33-63 | a printed command with two numerals is executed with exactly the two numbers |
| Framebuffer.CursorCommand | lab/zeos/graphics.c:7-10 | the first command of a draw puts the cursor at its cell |
| Framebuffer.AttributeCommand | lab/zeos/graphics.c:11-12 | the second sets exactly the mapped colours |
| Framebuffer.OneDraw | lab/zeos/graphics.c:6-15 | a draw writes its cell and scrolls exactly when that is the last one; the cursor ends behind the cell |
| Framebuffer.DrawIsLocalIff | lab/zeos/graphics.c:6-15 | a draw leaves all other cells alone if and only if it is not at the last cell |
| Framebuffer.LastWriterWins | lab/zeos/graphics.c:6-15 | after any draws off the last cell each cell shows its last writer, others what they showed |
| Maps.BitColor | lab/zeos/map.c:10-13 | the byte and mask the loops have reached select the bit of the cell they draw |
| Maps.DrawByte | lab/zeos/map.c:8-17 | one byte draws its eight cells |
| Maps.MapDraw | lab/zeos/map.c:3-20 | for every bitmap, cell (x, y+3) gets the wall colour where the lookup finds a wall and the floor colour elsewhere; no other cell changes |
| Maps.BlockWords | lab/zeos/map.c:3-20 | the words of walls and floors |
| Maps.ScreenTellsWalls | lab/zeos/map.c:22-30 | on the drawn screen the wall colour is at (x, y+3) if and only if the lookup says wall |
| GameSpec.OneMoveStaysOnMap | lab/zeos/game.c:275-301 | one move from a floor cell of a bordered level stays on the map |
| GameSpec.CollideKeeps | lab/zeos/game.c:255-273 | a collision check keeps apples, counter and score in step |
| GameSpec.AdvanceKeeps | lab/zeos/game.c:194-208 | so does the next level |
| GameSpec.TripKeeps | lab/zeos/game.c:121-135 | so does every trip round the loop |
| GameSpec.MealIsNew | lab/zeos/game.c:255-273 | an apple is eaten at most once, and the record of eaten apples matches the counters |
| GameSpec.GameOutcome | lab/zeos/game.c:73-156 | over every run of a new game: score is min(99, apples eaten), the counter is the number of apples left, and an ended game has lives left exactly when all apples of all three levels were eaten |
| GameSpec.OnMapAtEveryCheck | lab/zeos/game.c:230-301 | on bordered levels, with a check after each move, the player is on the map at every check |
| GameSpec.LevelsAreBordered | lab/zeos/game.c:20-71 | the three levels of the game are bordered by walls |
| Lives.NewGame | lab/zeos/game.c:73-100 | a new game has max(1, 6 - diff / 2) lives and 3 + 2 diff apples; 6 and 3 for difficulty 0 |
| Lives.LivesOverRuns | lab/zeos/game.c:255-262 | over every run of a new game the lives are those at the start less the turns whose check found a wall, and it is lost if and only if these are as many |
| Lives.PickOpenIsFirst | lab/zeos/game.c:303-317 | the player is placed at the first roll that is neither wall nor apple |
| Lives.PickFloorIsFirst | lab/zeos/game.c:319-329 | an apple is placed at the first roll that is no wall |
| Lives.RespawnsAtRoll | lab/zeos/game.c:255-262 | a crash puts the player there and changes neither apples, score nor level |
| Lives.MovesAddUp | lab/zeos/game.c:275-301 | over turns without walls in one level the player is as far right and down as the moves add up to |
| Games.Game.IsWallAt | lab/zeos/game.c:210-217 | the bit lookup; past the last level a wall, and the game is told to end |
| Games.Game.IsManzanita | lab/zeos/game.c:219-228 | the first apple at the spot other than the one to skip, -1 exactly if there is none |
| Games.Game.MovePlayerRandom | lab/zeos/game.c:303-317 | the player lands on the first roll that is neither wall nor apple |
| Games.Game.MoveManzanitaRandom | lab/zeos/game.c:319-329 | the apple lands on the first roll that is not a wall; the others stay |
| Games.Game.constructor | lab/zeos/game.c:76-99 | lives, apples and counters of the difficulty, everything placed |
| Games.Game.MovePlayer | lab/zeos/game.c:275-301 | one key moves the player by one |
| Games.Game.ProcessCollisions | lab/zeos/game.c:255-273 | the check costs exactly one life on a wall and moves the player, or collects one apple, or does nothing |
| Games.Game.AdvanceLevel | lab/zeos/game.c:194-208 | the next level is dealt, or the game ends after the last |
| Games.Game.LoopBody | lab/zeos/game.c:121-135 | one trip round the loop is the step of the specification |
| Games.Game.GameLoop | lab/zeos/game.c:102-156 | the loop runs the specification, and an ended game is reported won exactly when all levels are done |
| Games.GameNew | lab/zeos/game.c:73-100 | no game exactly for a negative difficulty |

## Left out

Not modelled:

- Boot sector, entry code, GDT, IDT, TSS, MSR writes and register saving: a task switch is "current := next". The TLB follows the page table.
- The page tables are arrays of their own, not bytes inside the kernel's frames.
- User pointers: calls that `access_ok` rejects, and the copies to and from user space outside fork and `sys_read`. The number of a mutex is passed by value.
- `sys_wait`, `sys_get_stats`, `check_fd`, `sys_gettime`, `sys_write` before it reaches the console, `perror` and the demo programs.
- Scan codes: a key press is the character that the table yields, never NUL. `char_map` past its end is other memory.
- `remaining_ticks` in the statistics; the other counters are in Accounting.
- `lab/codi_base_zeos`, an earlier skeleton of the same kernel.
- Screen positions past the end of the screen array are other memory: writes there are dropped. Cursor moves can still go there, as in the source.
- 32-bit overflow of `int` in `atoi_n`, of console parameters, of `pk` in `g_draw_line` for lines longer than 2^29, and of `pids`, counters and mutex counts; they are unbounded integers.
- Drawing in the game other than levels, its waiting times, and races between its two threads: at most one move falls between two checks.
- `rand`: rolls are parameters, and a placement loop is given rolls that let it end.

Weaker than one might wish:

- SchedSpec.Read: a read while others wait takes what was buffered for the first of them; what that one then lacks is not stated.
- Kernels.Kernel.SysCreateThread: the test of the start address and the words written to the new stacks are not modelled.
- Kernels.Kernel.KeyboardRoutine: the echo of the key in the screen's corner is not modelled.
- Kernels.Kernel.ClockRoutine: `zeos_ticks` and the clock on the screen are not modelled, and the idle task's slice counter runs below zero without wrapping around after 2^32 ticks.
- Kernels.Kernel.EnterAll: a run ends with the first key press that wakes a reader over idle: a second one would link idle into a list that it is already in.
- PartitionRuns.PartitionOverRuns: runs stop before a key press that wakes a reader over idle; KeyKeepsPartitionIff says why.
- Directories.RefsOverRuns: forks are assumed to find their pages; FailedForks.RefsStayExactIff says exactly what happens otherwise.
- Commands.Rejected: cursor and attribute commands that are rejected for odd combinations of separators; NotACommand covers all other letters.
- FrameRuns.AccessOverRuns: as FramesOverRuns; HeapStacks.HeapAndStacksNeverMeet covers stacks and heap of one address space.
- FrameRuns.FramesOverRuns: processes only, without threads and heap requests, whose frames are never given back.
- Mutexes.WaitWakeOverRuns: no `sys_mutex_init` during the run; InitKeepsBalanceIff and InitDelaysSleeper say what it does.
- Paging.Machine.CopyAndAllocatePages: nothing is said about what follows the outcome OffTable, where the source writes outside the table; and the parent's data pages must be mapped to frames in use, which an earlier failed fork destroys.
- Paging.Machine.GetNewStack: nothing is said about what follows when no page is free, where the source writes outside the table.
- Systems.ForkEntry: the caller's directory must not be that of the PCB it gets, which a thread that outlives its process can violate, and its data frames must be in use; what follows an outcome OffTable is not modelled.
- HeapStacks.HeapAndStacksNeverMeet: one address space, no fork, stacks asked for only while frames are left, and no release past the top of the heap.
- Deliveries.ReadStores: no other read begins while it waits, and the keys that it waits for are typed; a run ends with the first key that wakes the reader over idle. ReadInLineStores likewise.
- Deliveries.DeliveryIsExactIff: some other task is ready on entry, so that idle never runs meanwhile; ReadStores and LoneReadStores do not ask for that.
- IdleWakes.IdleWakeStarves: the clock alone; other keys and calls after it are not described.
- Decimal.AtoiN: the 32-bit overflow of the number is not modelled.
- Consoles.Console.PrintcColor: a write past the 2000 cells is dropped, where the source writes to other memory.
- Consoles.Console.EraseCurrentChar: a write past the 2000 cells is dropped, where the source writes to other memory.
- Framebuffer.LastWriterWins: characters other than '[' and newline, colours 0 to 7, and cells other than the last; DrawIsLocalIff says why.
- Games.Game.IsWallAt: spots off the map, for which the source reads outside the level; OnMapAtEveryCheck shows that no check asks for one.
- Games.Game.ProcessCollisions: as IsWallAt.
- Accounting.TimeIsConserved: the order in which the kernel makes the calls is not tied to the transition system; time asleep is charged as ready time, as in the source.
