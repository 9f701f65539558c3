# Quark kernel: processes, tables, queues and paging

This project models the core of the Quark microkernel and proves what it is
meant to do. The source changes state in place nearly everywhere, so the model
does too: nodes, arrays, linked queues, the kernel object and physical memory are
classes or mutable fields, and every operation on them is proved against a
function on values. The theorems are about those functions.

| part of the source | imperative model | values and theorems |
|---|---|---|
| `src/avltree.c` | `AvlTree`, `Table` | `AvlShape`, `AvlBalance`, `AvlWritten` |
| `src/priorityqueue.c` | `PriorityQueue` | `HeapShape`, `HeapOrder` |
| `src/queue.c` | `Queue` | (a ghost sequence in the class) |
| `src/kernel.c`, `send` in `src/syscalls.c` | `QuarkKernel` in `Kernel.dfy`, `Refinement` | `KernelSpec`, `KernelRuns`, `KernelAnswers` |
| `src/x86/paging.c`, `src/mmgr.c`, `mmap` in `src/syscalls.c`, `kernel_load_module` | `Paging`, `Mmap`, `Loading` | `PagingSpec`, `Mapping`, `AddressSpace` |
| `src/math.c` | (pure) | `Log2` |

**Kernel.** `KernelSpec` is an abstract machine: maps for the tables, a multiset
for the ready queue, a sequence for each message queue, one function for each
call. `QuarkKernel.Quark` is the kernel on AVL trees in memory, an array heap and
linked queues; each of its methods does to the abstract state exactly what the
function of the machine says and returns the same status. `KernelRuns` proves, of
every run from the initial state, that no process is in two places, that none is
lost while at most 512 are alive, that messages are conserved in order for each
receiver, and that process numbers are never reused. `KernelAnswers` has a law for
each call: what it returns and what the state is afterwards, in terms of its
arguments, the state before it and the history, and without the functions of the
machine. From these follow that a port leads to the process that opened it, and that
a receive is woken if and only if it named a buffer. `Refinement` executes any
sequence of requests on the kernel in memory, every one that can be made and no
other, and yields the run that it is, so these theorems hold of the tables, the heap
and the queues. In the written order that includes every history that spawns before
it terminates, as the kernel does at boot.

**Trees.** The nodes carry stored heights, which need not be right, and every
function takes the order in which a right rotation recomputes two of them.
`ChildFirst` is the order of the left rotation and the evident intent;
`RootFirst` is the order in which the source has the two lines of the right
rotation (`src/avltree.c:53-54`). Contents, search order and safety of removal are proved
for both. Exact heights and balance hold for `ChildFirst`. For `RootFirst` it is
proved which insertions and which removals build the same tree as `ChildFirst`,
and so keep an AVL tree one; both conditions are read off the tree before the
call, and inputs that fail them are given.

A kernel has one of the two orders. In both, every call does what the machine says.
In the written order `spawn` and `open_port` require that the table can take the
new number, which the stored keys and heights decide and which is always so while
the table is an AVL tree (`Table.AvlTakesAll`); without that the code dereferences
a null pointer. Process numbers only rise, so spawning keeps the process table an AVL
tree in both orders. The other calls require nothing.

**Paging.** Memory is a map from frames to 1024 entries. Every load and store
of an entry goes through the address translation of 32-bit paging (Intel SDM
Volume 3A, section 4.3) with the tables as they are at that moment, so the
recursive window that the code edits tables through is proved, not assumed. What an
address means is where it leads and what its table and its page allow.

## Where the code and its documentation differ

The model follows the code.

- `include/queue.h` calls the queue last-in-first-out. It is first-in-first-out.
- `include/priorityqueue.h` promises that of equal priorities the entry inserted
  first comes out first. For queues that are filled and then emptied that holds of
  all lists of n entries if and only if n is at most two
  (`HeapOrder.EqualsKeepOrderExactly`). When all entries have one priority, and the
  queue is used in any way until it is empty, it holds if and only if no extraction
  finds more than three entries (`HeapOrder.InOrderExactly`).
- So processes of equal priority take turns under preemption if and only if at most
  three are runnable; from four on one of them never runs
  (`HeapOrder.TurnsExactly`, `Refinement.Preempts`).
- `kernel_queue_message` ignores the status of `queue_insert` (`src/kernel.c:415`).
  Messages are conserved if and only if no such insertion failed
  (`KernelRuns.Conservation`).
- `mmap` accepts pages of the window through which the page tables are edited; they
  become tables with whatever their frames hold (`Mmap.Map`).
- `mmap` does not open a table that is there. The pages that it returns can be written
  by the process if and only if their table was not there or was open to processes
  (`Mmap.PagesAreUsable`).
- `include/avltree.h` says that `avl_remove` returns the stored pointer. It
  returns the new root.
- The right rotation recomputes the new root before its new child. Stored heights
  go stale (`AvlWritten.WrittenOrderUnbalances`,
  `AvlWritten.WrittenRemovalGoesStale`), and nine insertions are enough
  to select a rotation that dereferences a null child
  (`AvlWritten.WrittenOrderDereferencesNull`). On a tree that is still an AVL tree
  that cannot happen (`AvlWritten.WrittenInsertIsSafe`).
- `priorityqueue_remove` keeps heap order only under a condition
  (`HeapShape.DeleteCorrect`). It holds when all priorities are equal, as they
  are in the one place that spawns processes (`src/kernel.c:204`).
- A process that blocks in a receive with a null buffer is never woken
  (`KernelAnswers.NullReceiveNeverReturns`, `KernelAnswers.WokenExactlyWithBuffer`).
- A new address space has nothing in slot 0 of its directory, through which
  `paging_init_top_table` works, so it cannot build another one
  (`AddressSpace.NewSpaceCannotBuildAnother`). A kernel mapping that needs a new
  table stays private to its address space (`AddressSpace.MappingShowsWhereShared`).
- The loop of `munmap` moves neither its counter nor its status
  (`Mmap.MunmapPasses`), so `mmap` does not return when it runs out of frames. That
  happens if and only if there are fewer free frames than pages and missing tables
  (`Mmap.Map`).
- `1 << llog2(memory_size)` shifts an int and is defined only up to 2 to the 30th
  (`Log2.RoundUpIsLeast`).

## Model

| member | source | states |
|---|---|---|
| KernelSpec.StepKeepsInv | src/kernel.c:238-444 | Every call keeps the invariant without any condition: nobody is in two places, ready queue and active slot name only live runnable processes, a receiver waiting with a buffer has no mail, a buffer implies REQUESTING. |
| KernelSpec.StepLosesExactly | src/kernel.c:261-313 | A call leaves a runnable process neither active nor ready if and only if it puts one into the ready queue while that holds 512. |
| KernelRuns.RunInv | src/kernel.c:238-444 | The invariant holds in every reachable state. |
| KernelRuns.RunLosesNobody | src/kernel.c:53-53 | While at most 512 processes live, the ignored statuses of ready-queue insertions never lose a runnable process. |
| KernelRuns.RunPartition | src/kernel.c:375-444 | While at most 512 processes live, every live process is exactly one of active, once in the ready queue, and REQUESTING. |
| KernelRuns.PanicMeansAllBlocked | src/kernel.c:274-288 | While at most 512 processes live, the kernel has panicked only if every live process waits in a receive. |
| KernelRuns.Conservation | src/kernel.c:375-444 | For every process number and run: the messages received, then discarded, then waiting are exactly the messages sent to it with ENONE, in order, direct or queued, if and only if no queue node was wanting; the sender field is stamped exactly where the receiver waited with a buffer; nothing is discarded while the process lives. |
| KernelRuns.KeptIsConserved | src/kernel.c:403-417 | In every run they are exactly the messages that were sent with ENONE and not lost for want of a queue node, in order. |
| KernelRuns.StepConserves | src/kernel.c:375-444 | One call moves messages only between sent and not lost, waiting, received and discarded of one process, in order. |
| KernelRuns.DirectConserves | src/kernel.c:382-396 | A direct delivery cannot overtake queued mail, because its receiver has none. |
| KernelRuns.QueuedConserves | src/kernel.c:403-417 | A queued message joins the end of the mail of its receiver and of nobody else, unless its node is wanting and it is lost. |
| KernelRuns.DeadStaysDead | src/kernel.c:261-271 | A number that was given out and is dead never names a process again. |
| KernelRuns.TerminationIsFinal | src/kernel.c:290-316 | After a termination no table entry, ready slot or active slot ever names the process. |
| KernelRuns.NullReceiverSticks | src/kernel.c:382-382 | A process blocked with a null buffer stays blocked until it is terminated. |
| KernelRuns.BlockedWaits | src/kernel.c:382-400 | A blocked process keeps its state and buffer until a send to it returns ENONE or it is terminated. |
| KernelRuns.OwnerStays | src/kernel.c:331-360 | An open port keeps its owner until a close by that owner succeeds. |
| KernelAnswers.SpawnAnswers | src/kernel.c:238-272 | Spawning returns 0 and changes nothing without memory; otherwise a number one higher than there were processes before, which no earlier state has, and exactly that process is added: runnable, with its priority, no buffer and no mail, and ready if there are fewer than 512. |
| KernelAnswers.AliveExactly | src/kernel.c:238-316 | The process table has exactly the processes that were created and not terminated since. |
| KernelAnswers.TerminateAnswers | src/kernel.c:290-316 | ENONE if and only if the process was created and not terminated before, and then that process alone is gone and its mail is freed in order; otherwise EDOESNTEXIST and no change. |
| KernelAnswers.PortsExactly | src/kernel.c:331-360 | The port table has exactly the ports that were opened and not closed since, with the processes that opened them. |
| KernelAnswers.OpenAnswers | src/kernel.c:331-343 | EEXISTS and no change if and only if the port is open in that sense; otherwise the port is the caller's. |
| KernelAnswers.CloseAnswers | src/kernel.c:345-360 | ENONE if and only if the caller opened the port and it was not closed since, EPERM if and only if another process did, EDOESNTEXIST if and only if it is not open; that port alone goes, or nothing. |
| KernelAnswers.PreemptAnswers | src/kernel.c:274-288 | The active process becomes ready unless 512 are; one that is ready becomes active, or the kernel halts if there is none; nothing else changes. |
| KernelAnswers.ReceiveAnswers | src/kernel.c:424-444 | With mail, the oldest message is copied to the address of this call; without, EDOESNTEXIST and no change if bit 0 of the flags is set; otherwise the caller waits with exactly this buffer, and the next process runs. |
| KernelAnswers.WokenExactlyWithBuffer | src/kernel.c:382-395 | After a receive that switches, the first send with ENONE to the caller makes it runnable and copies that message, stamped, to the buffer of that receive, if and only if it named one; it is then ready unless 512 others are. |
| KernelAnswers.NullReceiveNeverReturns | src/kernel.c:382-382 | A receive with a null buffer that switches never returns: the process stays blocked until it is terminated. |
| KernelAnswers.SendAnswers | src/syscalls.c:96-122 | By the values of the flags: above 3 EINVALIDARG; 0 and 1 address the process, 2 and 3 the owner of the port; EDOESNTEXIST if and only if there is none alive; direct, stamped and at the buffer of the receiver if that waits with one; otherwise at the end of its mail as it was handed in, ENOMEM without memory; everybody else stays as he was. |
| KernelAnswers.PortSendReachesOpener | src/syscalls.c:105-113 | With flags 2 or 3, to a port not closed since it was opened: the message reaches the opener and nobody else; EDOESNTEXIST if and only if the opener was terminated since; other failures only for want of memory. |
| KernelAnswers.PanicExactly | src/kernel.c:274-288 | While at most 512 processes live, a call halts the kernel if and only if it switches and every live process waits in a receive afterwards. |
| QuarkKernel.Quark.constructor | src/kernel.c:49-56 | The kernel starts as the initial abstract state, in fresh memory, with AVL trees, in either order of rotations. |
| QuarkKernel.Quark.SpawnProcess | src/kernel.c:238-272 | In either order, when the process table can take the number: same state and number as the machine, which KernelAnswers.SpawnAnswers describes. An AVL process table stays one, so it can take the next number too. |
| QuarkKernel.Quark.AvlTakesAll | src/avltree.c:69-110 | While the process table is an AVL tree a process can be spawned, and while the port table is one every port can be opened. |
| QuarkKernel.Quark.PutReady | src/kernel.c:269-269 | Adds one occurrence of the process to the ready multiset, or nothing when full; heap order stays. |
| QuarkKernel.Quark.TakeReady | src/kernel.c:280-287 | Takes one ready process into the active slot, of least priority if the heap is in order; halts when there is none. |
| QuarkKernel.Quark.AdvanceScheduler | src/kernel.c:274-288 | Puts the active process back and takes a ready one, of least priority if the heap is in order; the array afterwards is that of one insertion and one extraction; the invariant stays. |
| QuarkKernel.Quark.SendMessage | src/kernel.c:375-401 | Same state, status and delivery as the machine: direct and stamped, EBUSY or EDOESNTEXIST. |
| QuarkKernel.Quark.QueueMessage | src/kernel.c:403-422 | Same state and status as the machine: the message at the end of one mailbox, ENOMEM without memory for the copy, ENONE and a lost message without a queue node, or EDOESNTEXIST. |
| QuarkKernel.Quark.Send | src/syscalls.c:96-122 | Same state, status and delivery as the machine, which KernelAnswers.SendAnswers describes: flag checks, port resolution, fallback from EBUSY to queueing; the invariant stays and new memory is fresh. |
| QuarkKernel.Quark.ReceiveMessage | src/kernel.c:424-444 | Same state, result and delivery as the machine, which KernelAnswers.ReceiveAnswers describes: oldest mail, EDOESNTEXIST when asynchronous, or block and switch. |
| QuarkKernel.Quark.BlockActive | src/kernel.c:438-441 | The active process is REQUESTING with this buffer, no process is active, and nothing else has changed. |
| QuarkKernel.Quark.TerminateProcess | src/kernel.c:290-316 | Same state and status as the machine; every pending message is freed once, oldest first; the memory of the kernel only shrinks; heap order stays when priorities are equal. |
| QuarkKernel.Quark.Unqueue | src/kernel.c:302-302 | Removing the first heap match clears the ready queue of the process, because it is queued at most once. |
| QuarkKernel.Quark.CreatePort | src/kernel.c:331-343 | In either order, when the port table has the number or can take it: a new port of the active process, or EEXISTS; new memory is fresh; an AVL port table stays one when the number is above all others. |
| QuarkKernel.Quark.RemovePort | src/kernel.c:345-360 | Same state and status as the machine, which KernelAnswers.CloseAnswers describes; the memory of the kernel only shrinks. |
| QuarkKernel.Quark.GetPortOwner | src/kernel.c:362-373 | The owner of an open port, 0 for any other number. |
| Refinement.Perform | src/kernel.c:238-444 | Any possible call, with the process that the scheduler picked, does to the state and returns what one step of the machine does and returns; heap order stays and the pick has least priority, unless a termination meets different priorities; AVL trees stay AVL trees without removals. |
| Refinement.Run | src/kernel.c:238-444 | Any sequence of requests on the kernel in memory: every one that can be made when its turn comes is made and no other call (`Serves`), with the states and outcomes of the machine, and every switch takes a process of least priority if nothing is terminated or all priorities are equal; in the written order when the tables are AVL trees whose numbers rise. |
| Refinement.RunFromStart | src/kernel.c:49-56 | From the start of the kernel the calls that serve the requests are a run, so every theorem about runs holds of it; in the written order for requests that spawn before they terminate and open ports by rising numbers before they close any. |
| Refinement.StepKeepsPriorities | src/kernel.c:238-444 | If all processes have one priority, they still do after a call that spawns at none other. |
| Refinement.Preempts | src/kernel.c:274-288 | Any number of preemptions on the kernel in memory are the rounds of the array heap; among four or more runnable processes of equal priority one never becomes active. |
| QuarkKernel.LiveRemove | src/priorityqueue.c:68-81 | Deleting one entry of a process that is queued once leaves only entries of other live processes. |
| QuarkKernel.LivePop | src/priorityqueue.c:41-50 | In a ready heap the first entry is a live process of least priority, and extraction removes exactly its number. |
| AvlShape.InsertContents | src/avltree.c:69-110 | In both orders: insertion adds an absent key, keeps the stored value of a present one, and keeps search order. |
| AvlShape.RemoveContents | src/avltree.c:112-178 | In both orders: removal deletes exactly the key, and keeps search order. |
| AvlShape.LeastIsLeast | src/avltree.c:142-146 | The pointer loop of the two-child case ends at the pair with the least key. |
| AvlShape.PositiveAfterRemove | src/avltree.c:156-176 | In both orders stored heights of non-empty trees stay positive, so no rotation of a removal dereferences null. |
| AvlShape.SafetyIgnoresValues | src/avltree.c:90-107 | Whether an insertion is safe depends on keys and stored heights only, so it can be told before the call. |
| AvlBalance.InsertKeepsAvl | src/avltree.c:69-110 | Child first: exact heights, balance and search order stay, and the height grows by at most one. |
| AvlBalance.InsertIsSafe | src/avltree.c:90-107 | Child first: every rotation that insertion selects has the children it dereferences. |
| AvlBalance.RemoveKeepsAvl | src/avltree.c:112-178 | Child first: exact heights, balance and search order stay, and the height shrinks by at most one, the copied successor included. For the order of the source see AvlWritten.WrittenRemoveExactly. |
| AvlBalance.HeightBound | src/avltree.c:180-198 | A balanced tree of height h holds at least Fib(h + 2) - 1 keys. |
| AvlWritten.GrowsExactly | src/avltree.c:88-109 | Insertion raises the height if and only if the key is absent and no node on its path leans. |
| AvlWritten.WrittenRotationExact | src/avltree.c:53-54 | The written right rotation leaves exact heights if and only if the left side was not the deeper one. |
| AvlWritten.OrdersAgreeOnContents | src/avltree.c:47-178 | The order of the two height updates never changes what a tree holds. |
| AvlWritten.WrittenInsertExactly | src/avltree.c:47-110 | Insertion as written gives the child-first tree if and only if the key does not turn the critical node of its path to the right. |
| AvlWritten.WrittenInsertKeepsAvl | src/avltree.c:47-110 | Insertion as written keeps an AVL tree one whenever it does not turn right. |
| AvlWritten.RisingKeysKeepAvl | src/kernel.c:261-270 | Numbers larger than all present ones never turn right, so spawning keeps an AVL process table one in the written order. |
| AvlWritten.ShrinksExactly | src/avltree.c:112-178 | Removal lowers an AVL tree if and only if a condition on the tree before the call holds. |
| AvlWritten.OrdersAtRemoval | src/avltree.c:156-176 | At one node the two orders part if and only if it has to be rotated to the right. |
| AvlWritten.WrittenRemoveExactly | src/avltree.c:47-178 | Removal as written gives the child-first tree if and only if no step of it turns right, which the tree before the call decides. |
| AvlWritten.WrittenRemoveKeepsAvl | src/avltree.c:47-178 | Removal as written keeps an AVL tree one whenever it does not turn right. |
| AvlWritten.WrittenRemovalGoesStale | src/avltree.c:53-54 | Removing 8 from the AVL tree 5(3(2, -), 8) leaves a stored height wrong as written, and not child first. |
| AvlWritten.WrittenInsertIsSafe | src/avltree.c:47-110 | On an AVL tree insertion as written dereferences no null child and leaves no stored height too low: the null dereference needs a tree damaged before. |
| AvlWritten.WrittenOrderCanRecover | src/avltree.c:47-110 | A written insertion that turns right, gives another tree than the child-first order, and still an AVL tree. |
| AvlWritten.FiveInsertions | src/avltree.c:69-110 | The tree after 5, 3, 7, 8, 2, in both orders. |
| AvlWritten.WrittenOrderUnbalances | src/avltree.c:53-54 | Inserting 1 next unbalances that AVL tree as written, and not child first. |
| AvlWritten.WrittenOrderDereferencesNull | src/avltree.c:98-102 | As written, inserting 1, 5, 8, 4, 7, 6, 0, 3 and then 2 selects a double rotation with a null child. |
| AvlTree.Node.constructor | src/avltree.c:5-13 | A node of height 1 without children. |
| AvlTree.GetHeight | src/avltree.c:15-25 | The stored height, 0 for null. |
| AvlTree.GetBalance | src/avltree.c:27-37 | The difference of the stored heights of the children, 0 for null. |
| AvlTree.UpdateHeight | src/avltree.c:39-45 | The stored height becomes one more than the larger one of the children. |
| AvlTree.UpdateRootFirst | src/avltree.c:53-54 | The two updates in the written order: the new root still sees the old height of its child. |
| AvlTree.RotateRightNode | src/avltree.c:47-56 | The nodes rotate in place into the tree that the value rotation gives, in either order. |
| AvlTree.RotateLeftNode | src/avltree.c:58-67 | The nodes rotate in place into the tree that the value rotation gives. |
| AvlTree.RebalanceInserted | src/avltree.c:89-109 | The four cases at the end of an insertion, in place. |
| AvlTree.InsertNode | src/avltree.c:69-110 | The tree in memory becomes the inserted tree value, reusing the nodes and adding at most fresh ones. |
| AvlTree.FindLeast | src/avltree.c:142-146 | The loop stops at the node of the least pair. |
| AvlTree.Splice | src/avltree.c:128-137 | The only child is copied over the node and is no longer part of the tree. |
| AvlTree.ReplaceByLeast | src/avltree.c:142-149 | The node takes over the successor pair, which is removed below it. |
| AvlTree.RebalanceRemoved | src/avltree.c:156-177 | The four cases at the end of a removal, in place. |
| AvlTree.RemoveNode | src/avltree.c:112-178 | The tree in memory becomes the tree value after removal and holds no other node; it terminates. |
| AvlTree.Get | src/avltree.c:180-198 | The value of the key if the tree holds it, otherwise null. |
| Table.Lookup | src/kernel.c:292-293 | A null result means that the table does not have the key. |
| Table.Add | src/kernel.c:268-268 | In either order, a number that the table can take: it gains the key if it did not have it, and child first it stays an AVL tree. |
| Table.Drop | src/kernel.c:301-301 | In either order the table loses exactly the key; child first it stays an AVL tree. |
| Table.AvlTakesAll | src/avltree.c:69-110 | While the tree is an AVL tree, every number can be added, in either order. |
| HeapShape.SiftKeepsEntries | src/priorityqueue.c:5-27 | Reading and swapping slot `size` moves nothing in or out of the heap, because that slot holds a copy of the sifted entry. |
| HeapShape.SiftRestores | src/priorityqueue.c:5-27 | Sifting down restores heap order from an order that fails only at one slot. |
| HeapShape.PushCorrect | src/priorityqueue.c:52-66 | Insertion adds exactly its entry and keeps heap order. |
| HeapShape.DeleteCorrect | src/priorityqueue.c:73-78 | Deletion takes out exactly one entry, and keeps heap order if and only if the moved last entry is not smaller than the parent of the vacated slot. |
| HeapShape.PopCorrect | src/priorityqueue.c:41-50 | Extraction takes out an entry of least priority and nothing else, and keeps heap order. |
| HeapShape.InsertThenExtractSorts | src/priorityqueue.c:41-66 | Inserting any entries and extracting them all gives them back sorted by priority. |
| HeapOrder.EqualsInOrderExactly | src/priorityqueue.c:41-66 | Filled with distinct entries of one priority and then emptied, the queue gives them back in order if and only if there are at most three. |
| HeapOrder.EqualPrioritiesOvertake | src/priorityqueue.c:41-66 | Of four entries of equal priority the fourth comes out before the third. |
| HeapOrder.InOrderExactly | src/priorityqueue.c:41-66 | For any mixture of insertions and extractions of distinct entries of one priority that ends with an empty queue: they come out in the order of insertion if and only if no extraction finds more than three. |
| HeapOrder.SmallerTurnsEqualsRound | src/priorityqueue.c:41-66 | Two equal entries followed by a smaller one and any number of larger ones come out with the later of the two first. |
| HeapOrder.EqualsKeepOrderExactly | src/priorityqueue.c:41-66 | Every list of n distinct entries of any priorities comes out with equal ones in the order of insertion if and only if n is at most two. |
| HeapOrder.RoundOfEquals | src/kernel.c:276-280 | One preemption among equals runs the first ready entry; with at most three runnable the rest move up, and from four on the third one stays the third. |
| HeapOrder.ThirdStarves | src/kernel.c:276-280 | Among four or more equals the entry in slot 2 is never the active one, however many preemptions pass. |
| HeapOrder.TurnsExactly | src/kernel.c:276-280 | Among equals everyone has a turn in every sequence of as many preemptions as there are runnable entries if and only if there are at most three. |
| PriorityQueue.PriorityQueue.Construct | src/priorityqueue.c:29-39 | An empty queue of the given capacity, or ENOMEM without memory for the heap. |
| PriorityQueue.PriorityQueue.Heapify | src/priorityqueue.c:5-27 | The array up to slot `size` is sifted in place, inside its bounds. |
| PriorityQueue.PriorityQueue.Insert | src/priorityqueue.c:52-66 | ENOMEM and no change when full, otherwise the queue with the entry raised into place. |
| PriorityQueue.PriorityQueue.ExtractMin | src/priorityqueue.c:41-50 | Null and no change when empty, otherwise the first value and the queue without it. |
| PriorityQueue.PriorityQueue.Remove | src/priorityqueue.c:68-81 | Deletes the first entry with the value, or EOUTOFBOUNDS and no change when there is none. |
| Queue.Queue.constructor | src/queue.c:19-24 | An empty queue. |
| Queue.Queue.Insert | src/queue.c:26-46 | The value joins the end of the sequence; ENOMEM and no change without memory for the node. |
| Queue.Queue.GetNext | src/queue.c:48-64 | The oldest value leaves the front of the sequence, null when empty. |
| Queue.Drain | src/kernel.c:303-306 | The loop takes out every entry once, oldest first. |
| PagingSpec.TableWindow | src/x86/paging.c:31-47 | `page_tables[va >> 12]` translates to entry `(va >> 12) & 0x3FF` of the table frame in slot `va >> 22`. |
| PagingSpec.DirectoryWindow | src/x86/paging.c:33-40 | `page_directory[j]` translates to entry j of the directory, and is writable. |
| PagingSpec.FlagsRoundTrip | src/x86/paging.c:115-145 | Flags written and read back agree on present, rw and usermode; executable mirrors present, and anon is never reported.
| PagingSpec.FlagBits | src/x86/paging.c:115-145 | By the values of the bits: 1 is writable, 4 open to processes, 0x10000 and 2 present, in both directions, and no other bit is read or used. |
| Mapping.AddTableIsInvisible | src/mmgr.c:163-172 | A new, wiped table changes no address outside the window, is writable and open to processes, and keeps table frames distinct from each other and the directory. |
| Mapping.MapEntryIsLocal | src/x86/paging.c:174-184 | Writing one entry of a present table changes exactly one page: where it leads and what it allows. |
| Mapping.MapPageIsUpdate | src/mmgr.c:154-176 | Mapping gives exactly that page the frame and the rights that were asked for, also when a table is added, and keeps table frames distinct. |
| Mapping.UnmapPageIsRemoval | src/mmgr.c:178-188 | Unmapping removes exactly that page. |
| Mapping.MapWindowPage | src/mmgr.c:154-176 | Mapping a page of the window installs another table for its directory slot and changes no other slot. |
| Mapping.MapWindowPageKeeps | src/mmgr.c:154-176 | A frame in no use, installed as a table through the window, leaves all table frames distinct and every other page of the window as it was. |
| Mapping.UnmapWindowPage | src/mmgr.c:178-188 | Unmapping a page of the window takes out the whole table of its slot and nothing else. |
| Mapping.UnmapUndoesMap | src/mmgr.c:154-188 | Unmapping after mapping gives back what every address outside the window meant, rights included. |
| AddressSpace.MappingShowsWhereShared | src/mmgr.c:154-176 | A mapping shows in another address space if and only if the two share the table of its slot; everything else there stays. |
| AddressSpace.MappingBelowIsPrivate | src/mmgr.c:154-176 | A mapping below the kernel changes no address of a space that shares only kernel tables, and leaves the two spaces apart. |
| AddressSpace.NewSpace | src/x86/paging.c:80-100 | The new directory maps itself, closed to processes, is empty below the kernel, agrees with the current one on the kernel slots, rights included, and leaves the current one as it was. |
| AddressSpace.FirstWindowExactly | src/x86/paging.c:82-86 | In any address space the first table window can be written if and only if slot 0 is present. |
| AddressSpace.KernelMappingsAreShared | src/x86/paging.c:88-91 | A later mapping through a shared kernel table appears in both spaces with the same rights. |
| AddressSpace.NewSpaceCannotBuildAnother | src/x86/paging.c:82-86 | In a new space slot 0 is absent and no address of the first table window can be written. |
| Paging.Machine.PointerIsHome | src/x86/paging.c:35-49 | The pointer is null exactly when there is no entry, and otherwise leads to the entry itself. |
| Paging.Machine.GetPteType | src/x86/paging.c:115-129 | The flags of the entry, 0 when there is none. |
| Paging.Machine.SetPteType | src/x86/paging.c:131-145 | Replaces the three flags of exactly one entry, or returns -1 with no change. |
| Paging.Machine.GetPteAddress | src/x86/paging.c:147-158 | Frame address and page offset, or all ones when there is no entry. |
| Paging.Machine.SetPteAddress | src/x86/paging.c:160-172 | Replaces the frame of exactly one entry, or returns -1 with no change. |
| Paging.Machine.SetPte | src/x86/paging.c:174-184 | Both changes on the same entry, for every page whose entry is not one that the window goes through to reach it. |
| Paging.Machine.WipePageTable | src/x86/paging.c:186-197 | Clears presence and address of all 1024 entries of one table other than the directory, and nothing else. |
| Paging.Machine.ReservePage | src/mmgr.c:34-46 | A free frame, no longer free, or ENOMEM when there is none. |
| Paging.Machine.MapPage | src/mmgr.c:154-176 | Memory becomes what the mapping function says; EINVALIDARG and ENOMEM exactly when they are due, with no change; table frames stay distinct, in the window if the frame is in no use. |
| Paging.Machine.UnmapPage | src/mmgr.c:178-188 | Returns the mapped frame address and removes the entry, or EOUTOFBOUNDS with no change when the page is not mapped. |
| Paging.Machine.PageType | src/mmgr.c:190-199 | The stored flags of the deciding entry; PAGE_PRESENT exactly when the page is mapped. |
| Paging.Machine.PhysicalAddress | src/mmgr.c:201-204 | On mapped addresses, the translation. |
| Paging.Machine.InitTopTable | src/x86/paging.c:80-100 | Through the borrowed slot 0 the frame becomes the new directory; everything else, slot 0 included, is as before. |
| Paging.Machine.CreateAddressSpace | src/mmgr.c:131-147 | The address of a new directory in a frame that was free and that can be loaded, or ENOMEM with no change. |
| Paging.Machine.LoadAddressSpace | src/x86/paging.c:107-113 | The window at `page_directory` shows the loaded directory, and the machine is in order if the tables of that space are. |
| Paging.Machine.CurrentAddressSpace | src/x86/paging.c:102-105 | The self entry gives the address of the directory in use. |
| Loading.LoadModule | src/kernel.c:161-178 | ENOMEM if and only if there are fewer free frames than one for the directory and one for each 1024 pages of the module; otherwise the machine is in order in a new space where, below the kernel, exactly the pages of the module are mapped, from 0x80000000 on, writable and closed to processes; the kernel is mapped as before, slot 0 is empty, and in the space that was left every address means what it did. |
| Mmap.AllUnmapped | src/syscalls.c:27-33 | The first loop of `mmap` is true exactly when no address of the range is mapped, also for a range that wraps around. |
| Mmap.LastPageIsMapped | src/syscalls.c:27-33 | The last page is the directory and always mapped, so a range that passes it is always refused. |
| Mmap.MapAll | src/syscalls.c:34-53 | Distinct frames that were free stand behind the pages, below the window or in it; the pages, and the tables that are added, are writable and open to processes, and every other address means what it did; it runs out if and only if there are fewer free frames than pages plus directory slots without a table. |
| Mmap.Map | src/syscalls.c:14-59 | For every range: each rejection exactly when it is due, with no change; an accepted call hangs if and only if there are fewer free frames than pages plus directory slots without a table, and otherwise backs the range; below the window `page_type` of each page is then 0x10007.
| Mmap.PagesAreUsable | src/syscalls.c:42-42 | A process can write to a page that it got if and only if the table of the page was not there before or was open to processes; tables that are added are. |
| Mmap.MunmapPasses | src/syscalls.c:61-89 | Each rejection exactly when it is due; on a non-empty range the loop is still running after any number of passes, and has unmapped the first page and nothing else. |
| Log2.GnuIsCeiling | src/math.c:27-36 | The GNU form is the least k with x <= 2^k. |
| Log2.RoundUpIsLeast | src/mmgr.c:72-73 | The rounding is defined exactly for sizes up to 2^30, and gives the least power of two that is large enough. |
| Log2.SmearFills | src/math.c:57-61 | The five shifts fill in every bit below the highest one. |
| Log2.OnlyOnes | src/math.c:57-63 | So the multiplier meets only 32 different words. |
| Log2.PortableIsFloor | src/math.c:50-64 | The portable form is the floor of the logarithm for every non-zero word, and 0 at 0. |
| Log2.FormsAgreeOnPowers | src/math.c:25-66 | The two forms agree exactly on 0 and the powers of two; elsewhere the GNU form is one more. |

## Left out

- WrittenInsertExactly: says when the written insertion gives the same tree as the child-first one. That is enough for an AVL tree (`WrittenInsertKeepsAvl`) but not needed, since a left rotation higher up can restore one (`WrittenOrderCanRecover`). WrittenRemoveExactly is the same for removal.
- WrittenOrderDereferencesNull: one sequence of keys. For trees that are not AVL trees `AvlTree.InsertNode` requires the exact condition, `InsertSafe`, step by step.
- Put: the bits of an entry that the kernel does not name are one number that is kept; accessed and dirty bits set by the processor, large pages and the TLB are not modelled.
- Map: for a range that begins below the window at 0xFFC00000 and ends in it, only the status and the frames taken, not where the pages are, since a later page can replace the table of an earlier one.
- MapPage: the page at 0xFFFFF000, whose entry is the one that the window itself goes through; after the first of the two writes the code would look for it in another frame. For other pages of the window table frames stay distinct only if the caller gives a frame that is in no use.
- UnmapPage: the page at 0xFFFFF000, for the same reason.
- MunmapPasses: the page at 0xFFFFF000, for the same reason.
- SetPte: entries that the window goes through to reach them, for the same reason.
- WipePageTable: the directory itself, with whose last entry the window would go away while the loop runs.
- LoadModule: modules that would reach into the kernel at 0xFF400000 or end in the last page of memory; what `load_program` and the unmapping after it do.
- Run: in the written order, histories that spawn after a termination or open ports out of order or after a close; whether the trees can take those depends on the tree at that moment, and `Perform` has the condition for one call.
- InitTopTable: requires slot 0 of the current directory to be present, without which the code faults (see `NewSpaceCannotBuildAnother`).
- ReservePage: the allocator is a set of free frames; the bitmap of libmalloc, its block sizes and the alignment of its answers are taken as given.
- SpawnProcess: whether its allocations succeed is a parameter, and so it is for the copy of a queued message and its queue node. The nodes of tables and the port objects are taken to be allocated, and so is the stack page; process numbers do not wrap around after 2^32 spawns.
- SendMessage: the copy into the memory of the receiver is reported as a delivery; switching address spaces around it is not modelled. The sender field is stamped on this path only; queued messages keep what the sender wrote there.
- ReceiveMessage: the receive buffer of a call that finds mail is taken to be writable; the return values in saved contexts are not modelled.
- TerminateProcess: the loop over `sending_queue` is left out, since nothing inserts into that queue.
- LeastPick: in the abstract machine, which of several processes of equal priority runs next is left open; `Preempts` says which one it is in the array.
- GnuLog2: the forms for 64-bit words.
- Keys and numbers are unbounded integers; on the 32-bit target a number and its signed key correspond one to one, and only equality of numbers matters.
- Interrupt handlers and signals, which no system call reaches and which do not keep the partition of processes.
- System call dispatch, `kernel_store_active_context` and saved registers.
- `queue_peek`, which no caller uses and which needs a queue that is not empty.
- The heap, the page bitmap and region functions of `heap.c` and `mmgr.c`, which are calls into libmalloc.
- Strings, printing, ELF and multiboot loading, APIC, interrupt tables and start-up code.
