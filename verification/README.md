# A verified model of the Hydra kernel

This project models the stateful core of the Hydra kernel (`kernal/`), the socket server that
runs on it (`server/net_srv.c`) and three text and arithmetic routines of its libraries, and
proves what they promise. `dafny verify dfyconfig.toml` checks everything.

Each component comes in two layers:

* a *specification* in pure functions: the state seen from outside, one step for each operation,
  and lemmas over whole runs (`HeapSpec`, `HeapTheorems`, `IpcSpec`, `SchedSpec`, `NetServerSpec`,
  `KernelSpec`, the first half of `NetDriver`);
* the *code*: classes whose fields are the C variables, updated by loops and assignments in the
  order of the source, each method proved to move the state exactly as the specification step says.

What is proved, from the bottom up:

* **Heap** (`Memory`, `HeapSpec`, `HeapTheorems`, `Heap`). One array of bytes holds the 16-byte
  little-endian headers and the payloads alike. `kmalloc`, `kfree` and client stores keep the
  threaded list address-ordered, tiling the heap and maximally coalesced, with `total_allocated`
  the sum of the used sizes; header writes never touch a live payload. First fit is characterised
  against the address space, not the list: a request fails exactly when there is no room anywhere
  between the used blocks, and otherwise gets the lowest room. After any history in which
  everything was freed the heap is the single block `mm_init` built. A second `kfree` in a row is
  harmless even when the header was absorbed by a neighbour.
* **Message passing** (`IpcSpec`, `Ipc`). One free list and eight linked queues over a pool taken
  from that heap refine eight FIFO sequences; over any interleaving of calls, what a task received
  is a prefix of what was accepted for it, intact and in order.
* **Scheduler** (`SchedSpec`, `Sched`). The ring scan, bounded waiting of seven calls of
  `schedule`, and the register contexts across arbitrary switching.
* **Packet pool** (`NetDriver`). Free list, receive queue and packets in hand partition the pool.
* **System calls** (`KernelSpec`, `Kernel`). `handle_syscall` on the real scheduler, message lists
  and packet pool refines one step relation, in which the caller is always the current task; the
  FIFO and scheduling theorems lift to runs of the whole kernel. `Boot` reaches a state in which
  they apply.
* **Sockets** (`NetServerSpec`, `NetServer`). A table of 32 sockets with rings of 1024 bytes
  refines a table of byte streams.
* **Arithmetic and text** (`FixedSqrt`, `Numerals`, `Printf`, `Inet`).

Where code and documentation differ the model follows the code: `recv_message` ignores
`sender_pid`, does not block, and returns the full size of a message it truncated; `free_message`
clears the header of a message but not its bytes, although a comment says content.

Four expectations turn out not to hold of every input; each is settled by an exact condition and
a case in which it fails:

* `kmalloc` returns a block smaller than the request exactly for sizes above 2^32 - 8, where the
  rounding wraps (`MallocCoversRequest`); on a fresh heap such a request does succeed
  (`MallocCanFallShort`).
* The queue mismatch warning of `ipc_debug_status` fires exactly when messages are queued and the
  pool has other than 64 messages (`DebugStatus`). After `ipc_init` on a fresh heap the pool has
  64 messages or as many as the heap can hold, if that is fewer (`IpcInit`); 512 KB can hold 1771.
  On a heap of 1 KB one send makes the warning fire (`WarningOnSmallHeap`).
* `printf` hands out the first 1023 characters of what `sprintf` would write unless an unknown
  specifier falls on the last place of its buffer (`PrintfIsPrefixIff`, `PrintfCanDiffer`).
* The Newton step of `fixed_sqrt` leaves the exact root again exactly when the radicand is one
  short of a square (`LeavesRootIff`). For the argument 16385 the iteration reaches the root and
  the result is one more (`ResultCanMissRoot`).

## Model

| member | source | states |
|---|---|---|
| HeapSpec.RoundUpMeets | kernal/mm.c:39 | the 32-bit rounding meets the request exactly when it does not wrap, by less than 8 bytes, and is 0 when it does |
| HeapSpec.PlaceWellFormed | kernal/mm.c:58-74 | handing out a free block, split or whole, leaves a list that tiles the heap exactly, aligned and coalesced |
| HeapSpec.ReleaseWellFormed | kernal/mm.c:87-105 | freeing with two-sided merging, in all four cases, leaves such a list again |
| HeapSpec.Disjoint | kernal/mm.h:5-9 | headers and payloads of different blocks never overlap and lie inside the heap |
| HeapTheorems.MallocTakesLowestRoom | kernal/mm.c:44-56 | allocation fails exactly when no gap between used blocks holds the rounded request; otherwise it takes the lowest address with room |
| HeapTheorems.MallocGives | kernal/mm.c:58-74 | the new block is 8-aligned, large enough, inside the heap and apart from every block in use; the used blocks gain exactly it |
| HeapTheorems.MallocSplits | kernal/mm.c:58-74 | the chosen free block is cut to the rounded request if more than 48 bytes would be left over and is handed out whole otherwise; the list gains exactly these blocks for the old one |
| HeapTheorems.MallocCoversRequest | kernal/mm.c:32-74 | the block covers the size asked for if and only if the size is at most 2^32 - 8 |
| HeapTheorems.MallocCanFallShort | kernal/mm.c:38-74 | on every fresh heap a request of 2^32 - 1 bytes succeeds with a block that is too small |
| HeapTheorems.ReleaseUsed | kernal/mm.c:87-105 | freeing takes exactly one block out of the used ones |
| HeapTheorems.Conservation | kernal/mm.c:108-125 | used bytes, free bytes and 16 bytes a block add up to the heap |
| HeapTheorems.PlaceUsedBytes | kernal/mm.c:59-72 | the used sum grows by what total_allocated is increased by |
| HeapTheorems.ReleaseUsedBytes | kernal/mm.c:87-105 | the used sum shrinks by the size total_allocated is decreased by, whatever is merged |
| HeapTheorems.RunKeeps | kernal/mm.c:32-106 | over every legal run the list stays well formed, live blocks are the pointers clients hold, and bytes are conserved |
| HeapTheorems.AllFreedIsFresh | kernal/mm.c:77-106 | once every pointer was given back, in any order, the heap is the single free block of mm_init and no byte counts as allocated |
| HeapTheorems.PackedGrows | kernal/ipc.c:33-44 | on a fresh heap consecutive message allocations are laid side by side |
| HeapTheorems.FillStep | kernal/ipc.c:35-44 | on a fresh heap the next message allocation succeeds exactly while fewer than floor(heap / 296) messages were allocated |
| Heap.LiveBytesAreNotHeaders | kernal/mm.c:58-74 | no byte of a live payload belongs to a header |
| Heap.PlaceRepresents | kernal/mm.c:58-74 | rewriting the headers inside one free block threads the split list through memory |
| Heap.AbsorbRepresents | kernal/mm.c:90-105 | rewriting one header threads the merged list through memory |
| Heap.Carve | kernal/mm.c:58-71 | the writes of the split: both headers, and no other byte |
| Heap.FindPrevious | kernal/mm.c:97-100 | the walk finds the left neighbour, or null for the first block |
| Heap.MarkAndMerge | kernal/mm.c:87-105 | the writes of kfree produce the released list, change headers only, and leave the freed header flagged free even when it was absorbed |
| Heap.Mm.MmInit | kernal/mm.c:10-30 | one free block from the aligned start to the end of the heap |
| Heap.Mm.FindFit | kernal/mm.c:41-51 | the loop finds the first free block that is large enough |
| Heap.Mm.Kmalloc | kernal/mm.c:32-75 | list, pointer, total_allocated and memory after the call; only headers change, live payload bytes are kept, failure changes nothing |
| Heap.Mm.Kfree | kernal/mm.c:77-106 | list, total_allocated and memory after the call; a pointer whose header is flagged free changes nothing at all, and every freed pointer is left so, absorbed or not: a second kfree in a row leaves memory, list and total_allocated as they are |
| Heap.Mm.KfreeTwice | kernal/mm.c:80-85 | two calls in a row lead to the list, total_allocated and untouched payloads of one |
| Heap.Mm.ClientWrite | kernal/mm.c:74 | a store into a live payload keeps the whole list |
| Heap.Mm.MmStats | kernal/mm.c:108-125 | the reported numbers count the blocks and, with the headers, add up to the heap |
| IpcSpec.StepDelivers | kernal/ipc.c:140-160 | one call appends what it accepts at the end of a queue and delivers from its front |
| IpcSpec.FifoDelivery | kernal/ipc.c:107-257 | over any interleaving, what a task got is the first part of waiting and accepted messages, each once, in order, with size, sender and the first bytes intact; the rest is its queue |
| IpcSpec.FifoFromEmpty | kernal/ipc.c:107-257 | the same from empty queues |
| IpcSpec.RunKeepsValid | kernal/ipc.c:221-225 | every queued message keeps a size of 1 to 256 and a valid sender, and no slot is lost or invented |
| IpcSpec.SendFailsIffPoolQueued | kernal/ipc.c:55-70 | a well-formed send fails exactly when the queues hold the whole pool |
| IpcSpec.ReceiveMakesRoom | kernal/ipc.c:254-256 | after a successful receive a well-formed send succeeds |
| IpcSpec.SendSucceedsIff | kernal/ipc.c:107-178 | a send is accepted exactly for a receiver 0 to 7, a size 1 to 256, a non-null pointer and a pool that is not all queued; it appends one message; every other send changes nothing and gives -1 |
| IpcSpec.ReceiveSucceedsIff | kernal/ipc.c:180-257 | a receive succeeds exactly with a buffer, a positive size and a waiting message, however small the buffer; it takes the oldest message and stores what fits; every other receive changes nothing and gives -1 |
| IpcSpec.WaitingIsReceived | kernal/ipc.c:201-256 | over any run, what is waiting for a task has been received once the task has offered that many buffers |
| Ipc.MsgQueue.Push | kernal/ipc.c:152-160 | head, tail, count and links after appending a message |
| Ipc.MsgQueue.Pop | kernal/ipc.c:209-214 | head, tail, count and links after taking the oldest message |
| Ipc.IpcSystem.CountFreeMessages | kernal/ipc.c:12-20 | the walk counts the free list |
| Ipc.IpcSystem.IpcInit | kernal/ipc.c:22-53 | the pool lies in used, pairwise disjoint heap blocks; on a fresh heap it has 64 messages, or floor(heap / 296) if that is fewer |
| Ipc.IpcSystem.AllocMessage | kernal/ipc.c:55-83 | takes the first free message, or fails exactly when there is none |
| Ipc.IpcSystem.FreeMessage | kernal/ipc.c:85-105 | the wiped message is first in the free list; free list and queues still partition the pool |
| Ipc.IpcSystem.SendMessage | kernal/ipc.c:107-178 | refines the send step, with all its error returns |
| Ipc.IpcSystem.RecvMessage | kernal/ipc.c:180-257 | refines the receive step; the buffer holds exactly the copied bytes and is otherwise unchanged |
| Ipc.IpcSystem.Deliver | kernal/ipc.c:209-256 | the invalid-size branch is dead, and the message taken is the oldest one |
| Ipc.IpcSystem.LogQueueStatus | kernal/ipc.c:329-355 | the corruption check never fires |
| Ipc.IpcSystem.DebugStatus | kernal/ipc.c:272-309 | the mismatch check fires exactly when messages are queued and the pool is not of 64 messages |
| Ipc.WarningOnSmallHeap | kernal/ipc.c:305-308 | on a 1 KB heap the mismatch check fires after initialisation and one send |
| SchedSpec.ScanIsFirst | kernal/sched.c:110-114 | the ring scan passes over no READY task |
| SchedSpec.StepKeepsValid | kernal/sched.c:72-137 | pid equals index, current below num_tasks, at most one task RUNNING and it is the current one |
| SchedSpec.PicksNextReady | kernal/sched.c:105-137 | schedule goes to the nearest READY task in ring order, or stays exactly when there is no other |
| SchedSpec.ScheduleChanges | kernal/sched.c:127-136 | the task left becomes READY if it was RUNNING, keeps its state otherwise and keeps its registers; the task gone to is RUNNING with its registers loaded; no other task changes |
| SchedSpec.YieldingTaskRunsAgain | kernal/sched.c:105-137 | a RUNNING task that yields has the processor back within seven further schedulings |
| SchedSpec.CreateMakesReady | kernal/sched.c:72-103 | a created task is READY in the next free slot with entry, stack and zeroed registers; its pid is that slot; a full table is left alone with -1 |
| SchedSpec.CreatedTaskRuns | kernal/sched.c:72-137 | a created task runs within seven schedulings of its creation |
| SchedSpec.WaitShrinks | kernal/sched.c:105-137 | each call of schedule shortens the wait of a READY task, and no creation or exit lengthens it |
| SchedSpec.RunsWithin | kernal/sched.c:105-137 | a READY task runs within ring distance plus free slots calls of schedule |
| SchedSpec.SevenSchedulingsSuffice | kernal/sched.c:105-137 | that is at most seven calls, whatever is created or exits in between |
| SchedSpec.ExitedNeverRuns | kernal/syscall.c:43-49 | a task that exited and was switched away never becomes current again |
| SchedSpec.ExitMarks | kernal/syscall.c:43-49 | exit leaves the current task UNUSED and gives the processor away exactly if another task is READY |
| SchedSpec.ExitIsFinal | kernal/syscall.c:43-49 | after the call of exit, once another task is current the exited one is never current again, in any run |
| SchedSpec.ContextKept | kernal/switch_riscv.s:7-40 | while a task is not current its saved context does not change, and it is what the processor is loaded with |
| SchedSpec.ResumesAsSwitchedOut | kernal/switch_riscv.s:7-40 | a task resumes with exactly the fourteen registers it was switched out with |
| SchedSpec.StartsAsCreated | kernal/sched.c:82-98 | a created task starts at its entry, on its own stack, other registers zero |
| Sched.ContextSwitch | kernal/switch_riscv.s:7-40 | fourteen stores then fourteen loads save the processor and restore the other record |
| Sched.Scheduler.ClearTable | kernal/sched.c:46-53 | eight separate unused slots with their own pid |
| Sched.Scheduler.CreateTask | kernal/sched.c:72-103 | refines task creation, -1 and no change when the table is full |
| Sched.Scheduler.FindNext | kernal/sched.c:110-114 | the loop ends at the position of the specification scan |
| Sched.Scheduler.Schedule | kernal/sched.c:105-137 | refines the scheduling step, register file included |
| Sched.Scheduler.TaskYield | kernal/sched.c:139-144 | refines the scheduling step |
| Sched.Scheduler.ExitTask | kernal/syscall.c:43-49 | refines the exit step |
| NetDriver.RunKeepsConsistent | kernal/net_driver.c:141-190 | over every run the pool is partitioned and packets leave in the order they arrived |
| NetDriver.DrainEmpties | lib/libnet/lwip_hooks.c:17-31 | draining takes every queued packet and frees it |
| NetDriver.DrainFreesAll | lib/libnet/lwip_hooks.c:17-31 | draining while nobody holds a packet leaves all 32 free, after any run |
| NetDriver.SysRecvLeaksNone | kernal/syscall.c:19-31 | the oldest packet is taken and freed, nobody holds one more; up to 64 bytes counting from 0 are stored |
| NetDriver.HundredInterrupts | kernal/net_driver.c:159-190 | of any hundred interrupts in a row exactly one queues a packet if one is free, and none otherwise |
| NetDriver.Driver.InitPacketPool | kernal/net_driver.c:46-53 | the chained array is the whole pool, free |
| NetDriver.Driver.AllocPacket | kernal/net_driver.c:55-64 | takes the first free packet, or fails exactly when there is none |
| NetDriver.Driver.NetFreePacket | kernal/net_driver.c:66-71 | a held packet goes to the front of the free list |
| NetDriver.Driver.NetReceive | kernal/net_driver.c:141-153 | takes the oldest arrival, still with its bytes |
| NetDriver.Driver.NetInterruptHandler | kernal/net_driver.c:159-190 | every hundredth interrupt queues a 64-byte frame if a packet is free |
| NetDriver.Driver.SysNetRecv | kernal/syscall.c:19-31 | refines receive and release: no packet is leaked, the buffer holds the first bytes of the frame and is otherwise unchanged, the full length is returned |
| NetDriver.Driver.LwipProcessPackets | lib/libnet/lwip_hooks.c:17-31 | refines draining, and holds nothing afterwards |
| KernelSpec.StepKeepsConsistent | kernal/syscall.c:8-55 | every system call keeps scheduler, messages and packets consistent |
| KernelSpec.IpcInsideRun | kernal/syscall.c:10-14 | the message state of a kernel run is that of its message calls, each made by the task then current |
| KernelSpec.KernelFifo | kernal/syscall.c:8-55 | FIFO delivery over any run of the kernel, with tasks switching, created and exiting |
| KernelSpec.SchedInsideRun | kernal/syscall.c:36-49 | the scheduler state of a kernel run is that of its scheduling calls |
| KernelSpec.ReadyTaskRuns | kernal/syscall.c:36-49 | over any run of the kernel with seven yields or exits in it, a READY task runs |
| KernelSpec.ResumesAsSwitchedOut | kernal/syscall.c:36-49 | whatever system calls are made meanwhile, a task resumes with the registers it was switched out with |
| KernelSpec.StartsAsCreated | kernal/syscall.c:40-41 | a task created by a system call first runs at its entry, on its own stack |
| KernelSpec.ExitedMakesNoCalls | kernal/syscall.c:43-49 | a task that exited sends and receives nothing ever again |
| KernelSpec.ExitEndsCalls | kernal/syscall.c:43-49 | from the call of exit on, once another task is current the caller makes no message call in any run |
| KernelSpec.Answers | kernal/syscall.c:16-54 | what each call returns, and which of scheduler, messages and packets it leaves alone |
| Kernel.Kernel.HandleSyscall | kernal/syscall.c:8-55 | the dispatcher on the real records refines the step relation and returns its result; each call leaves the other components alone, and the caller's buffer holds exactly the delivered bytes in front of what it held before |
| Kernel.Boot | kernal/main.c:17-32 | heap, messages, task table and packet pool as initialised form a consistent kernel with nothing queued and no task |
| NetServerSpec.StepKeepsValid | server/net_srv.c:71-156 | ids in use distinct and below the next one, unused slots closed, non-TCP sockets never listening, connected or holding data |
| NetServerSpec.SlotKept | server/net_srv.c:92-156 | a socket keeps slot, id, owner and type until it is closed |
| NetServerSpec.ClosedStaysClosed | server/net_srv.c:102-109 | a closed id is never found again |
| NetServerSpec.StepStreams | server/net_srv.c:172-204 | one event moves bytes of a socket only from accepted to waiting to handed out |
| NetServerSpec.StreamIsPreserved | server/net_srv.c:172-204 | bytes handed out followed by those waiting are the bytes accepted, over any run |
| NetServerSpec.FreshSocketStream | server/net_srv.c:71-89 | a reused slot starts empty under a new id and yields no byte of its former owner |
| NetServerSpec.AllocateOpens | server/net_srv.c:71-89 | the first unused slot gets the next id, owner and type, closed and empty; -1 when all 32 are in use |
| NetServerSpec.RequestsOnSocket | server/net_srv.c:102-156 | bind, listen, connect and close of a socket in use: its new state and address, TCP only where the source says, every other slot unchanged |
| NetServerSpec.RequestsOnNoSocket | server/net_srv.c:102-174 | for an id not in use nothing changes and the answer is -1 |
| NetServerSpec.PacketIsRouted | server/net_srv.c:196-223 | a packet goes to the first connected socket, as much as fits its 1024 bytes, and nowhere if there is none |
| NetServerSpec.ReadingTakes | server/net_srv.c:172-193 | reading hands out the oldest bytes, as many as asked for and there, and keeps the rest |
| NetServerSpec.ConnectedSocketReads | server/net_srv.c:141-223 | connect, a packet and a read hand out the first bytes of what fits, when no other socket is connected |
| NetServer.SocketSlot.PutByte | server/net_srv.c:199-203 | one byte goes to the end of the ring, wrapping around |
| NetServer.SocketSlot.AddRxData | server/net_srv.c:196-204 | the ring takes the longest prefix that fits |
| NetServer.SocketSlot.TakeRxData | server/net_srv.c:184-188 | the oldest bytes are copied out and leave the ring |
| NetServer.Server.constructor | server/net_srv.c:53-68 | all sockets unused and empty, first id 1 |
| NetServer.Server.AllocateSocket | server/net_srv.c:71-89 | refines allocation |
| NetServer.Server.FindSocket | server/net_srv.c:92-99 | finds the socket in use with the id, null exactly when there is none |
| NetServer.Server.CloseSocket | server/net_srv.c:102-109 | refines closing |
| NetServer.Server.BindSocket | server/net_srv.c:112-127 | refines binding |
| NetServer.Server.ListenSocket | server/net_srv.c:130-138 | refines listening, TCP only |
| NetServer.Server.ConnectSocket | server/net_srv.c:141-156 | refines connecting, TCP only |
| NetServer.Server.RecvSocketData | server/net_srv.c:172-193 | refines reading; the buffer holds exactly the bytes handed out |
| NetServer.Server.RoutePacket | server/net_srv.c:217-223 | the first connected socket gets the packet |
| NetServer.Server.ProcessNetworkPackets | server/net_srv.c:207-225 | one packet at most moves from the driver to that socket |
| FixedSqrt.NewtonFromAbove | apps/raytracer/raytracer.c:65 | a step never falls below the root |
| FixedSqrt.NewtonHalves | apps/raytracer/raytracer.c:65 | above the root a step at least halves the excess |
| FixedSqrt.NewtonFixpoint | apps/raytracer/raytracer.c:66 | stopping early means the exact root |
| FixedSqrt.LeavesRootIff | apps/raytracer/raytracer.c:65 | from the root the next step goes up by one exactly when the radicand plus one is a square |
| FixedSqrt.ResultCanMissRoot | apps/raytracer/raytracer.c:63-67 | for the argument 16385 the fifth iterate is the root and the eighth is one more |
| FixedSqrt.IteratesReach | apps/raytracer/raytracer.c:63-67 | every iterate is positive and fits 32 bits; from the first on it is at or above the root, within one of it or with the first excess halved each time |
| FixedSqrt.FixedSqrt | apps/raytracer/raytracer.c:56-70 | for every 32-bit x above 0 the result is the eighth Newton iterate r, with root <= r and r*r <= 4n; all iterates are positive and fit 32 bits; r is the exact root if some step changed nothing; 0 for x <= 0 |
| Numerals.NumeralHasValue | lib/libc/stdlib.c:110-114 | the digits written are a numeral without leading zeros of that value |
| Numerals.NumeralIsUnique | lib/libc/stdlib.c:110-114 | no other numeral without leading zeros has it |
| Numerals.DigitTable | lib/libc/stdlib.c:113 | digit characters are the entries of the table of 36 |
| Numerals.WriteDigits | lib/libc/stdlib.c:110-114 | the digit loop writes the numeral backwards |
| Numerals.ReverseInPlace | lib/libc/stdlib.c:119-123 | the two-pointer loop reverses the range and nothing else |
| Numerals.Itoa | lib/libc/stdlib.c:102-125 | the buffer holds the text of the number, nothing beyond it is written |
| Numerals.ItoaChecked | lib/libc/stdlib.c:90-126 | the same, and the empty string for an invalid base |
| Numerals.Atoi | lib/libc/stdlib.c:63-87 | reads spaces, a sign and digits, without overflow on the way |
| Numerals.ParseReads | lib/libc/stdlib.c:68-86 | white space, one optional sign and the digits up to the first other character are what atoi reads |
| Numerals.AtoiItoa | lib/libc/stdlib.c:63-126 | atoi of itoa in base 10 is the number, for every number |
| Printf.RenderNumber | lib/libc/stdio.c:169-190 | %d is rendered as the decimal numeral with its sign, %x as the hexadecimal one |
| Printf.RenderText | lib/libc/stdio.c:191-200 | %s is rendered as the string, and as nothing for a null pointer |
| Printf.RenderChars | lib/libc/stdio.c:201-216 | %c is rendered as the low byte, %% as a percent sign, any other specifier as itself with its percent sign |
| Printf.RenderPlain | lib/libc/stdio.c:218-221 | other characters and a percent sign at the very end are rendered as themselves |
| Printf.PrintfIsPrefixIff | lib/libc/stdio.c:102-110 | printf hands out the first 1023 characters of the rendering exactly when no unknown specifier is split |
| Printf.PrintfCanDiffer | lib/libc/stdio.c:102-110 | there is a format where the two differ |
| Printf.PrintfIsPrefix | lib/libc/stdio.c:42-125 | with known specifiers only they never do |
| Printf.NumberText | lib/libc/stdio.c:57-60 | number texts fit the 32-character buffer and contain no NUL |
| Printf.PutToken | lib/libc/stdio.c:165-222 | one turn of the sprintf loop writes one token |
| Printf.Sprintf | lib/libc/stdio.c:156-229 | sprintf writes exactly the rendering and its NUL, nothing beyond, and returns its length |
| Printf.PutBounded | lib/libc/stdio.c:52-117 | one turn of the printf loop writes what fits of one token |
| Printf.Printf | lib/libc/stdio.c:42-125 | the text handed out and its length |
| Inet.OrIsSum | lib/libnet/socket.c:247 | or of a shifted number and one below the shift is their sum |
| Inet.ParseFromMeans | lib/libnet/socket.c:231-248 | from any point of the string the rest of the loop combines the parts exactly when four fields of digits only result, and gives 0 otherwise |
| Inet.InetAddr | lib/libnet/socket.c:224-251 | the numbers between the dots are combined exactly when there are three dots and otherwise only digits; every other string gives 0 |
| Inet.ReadsDottedQuad | lib/libnet/socket.c:231-247 | every dotted quad of octets is read as its positional value, leading zeros or not |
| Inet.InetNtoa | lib/libnet/socket.c:254-281 | the static buffer holds the four three-digit octets |
| Inet.AddrOfNtoa | lib/libnet/socket.c:224-281 | inet_addr of inet_ntoa is the address, for all 2^32 of them |

## Left out

- HeapTheorems.RunKeeps: frees are of 0 or pointers held, as the callers of `kfree` must; what a wild pointer would do is not modelled. A pointer that was already freed is covered by Heap.Mm.Kfree.
- Heap.Mm.MmInit: is called once, with the 8-aligned heap end of the linker script and a heap below 4 GB; a second call, which would not reset `total_allocated`, is not modelled.
- Ipc.IpcSystem.IpcInit: a message is a record carrying the heap address it was allocated at; its fields are not bytes of the heap array, and its 256 data bytes are a sequence field. That the addresses are payloads of used, disjoint blocks is proved.
- Numerals.Itoa: values for which the C code is undefined or indexes outside its digit table (-2^31, negative numbers in a base other than 10) are excluded, and so are arguments of `Printf.Sprintf` and `Printf.Printf` that do not match the format.
- Numerals.Atoi: digit strings that overflow an int, undefined in C, are excluded.
- Inet.InetAddr: overflowing ints, and shifts into the sign bit, are taken to wrap around.
- NetServer.Server.AllocateSocket: only below 2^31 - 1 allocations, after which the id counter overflows.
- Kernel.Kernel.HandleSyscall: arguments are given as the values the branches use, after truncation from long; the value returned by a call that switches tasks is the one its caller sees when it resumes.
- NetDriver.Driver.NetInterruptHandler: the interrupt counter does not overflow.
- Kernel.Boot: creates none of the tasks `sched_init` and `kmain` create; those are calls of `create_task` from the state it reaches.
- Stacks and memory of tasks: only the fourteen saved registers and the stack's address are modelled.
- `sched_tick`, timer, traps, UART, boot, and the test tasks `sched_init` creates: hardware plumbing and wiring.
- `printk` output, log thresholds, floating-point percentages, `try_recv_message` and `ipc_log_memory_usage`: output only.
- VirtIO registers, `net_send` beyond its return value, a second `net_init`, and `net_is_packet_available`, which takes a packet out of the queue.
- `send_socket_data`, the message handlers and main loop of the network server, and the client stubs: the stream property is stated at `recv_socket_data`, because replies over 256 bytes are refused by `send_message` after the ring was drained.
- The socket table of `lib/libnet/socket.c`, `realloc`, `puts`, `lib/libc/string.c`, the capability library and `server/bullet.c`: easy or without a promise to prove.
- Raytracer geometry and shading: floating point and unchecked macro arithmetic.
