/**
 * `kernel.c` on the data structures that it uses: process and port tables that
 * are AVL trees in memory, an array heap for the ready queue and a linked message
 * queue in each process. Every call is proved to do to `Abs()`, the abstract
 * state, what KernelSpec says, with the same status.
 */
module QuarkKernel {
  import opened Types
  import opened KernelSpec
  import S = KernelSpec
  import T = AvlTree
  import Table
  import A = AvlShape
  import H = HeapShape
  import P = PriorityQueue
  import Q = Queue

  class Process {
    const pid: int
    const priority: int
    const messageQueue: Q.Queue<Message>
    var state: ProcState
    var messageBuffer: Option<int>

    constructor (pid: int, priority: int)
      ensures this.pid == pid && this.priority == priority
      ensures fresh(messageQueue) && fresh(messageQueue.Nodes)
      ensures messageQueue.Valid() && messageQueue.Contents == []
      ensures state == ProcessActive && messageBuffer == None
    {
      this.pid, this.priority := pid, priority;
      state, messageBuffer := ProcessActive, None;
      messageQueue := new Q.Queue();
    }
  }

  class Port {
    const id: int
    const ownerPid: int

    constructor (id: int, ownerPid: int)
      ensures this.id == id && this.ownerPid == ownerPid
    {
      this.id, this.ownerPid := id, ownerPid;
    }
  }

  /** The process of the abstract machine that a process object stands for. */
  ghost function ProcOf(p: Process): Proc
    reads p, p.messageQueue
  {
    Proc(p.priority, p.state, p.messageBuffer, p.messageQueue.Contents)
  }

  ghost predicate NoNulls(es: seq<H.Entry<Process?>>) {
    forall i | 0 <= i < |es| :: es[i].value != null
  }

  /** The process numbers in a stretch of the ready queue. */
  ghost function Pids(es: seq<H.Entry<Process?>>): multiset<int>
    requires NoNulls(es)
  {
    if es == [] then multiset{} else multiset{es[0].value.pid} + Pids(es[1..])
  }

  // ---------- The ready queue as a multiset ----------

  lemma {:induction false} NoNullsConcat(a: seq<H.Entry<Process?>>, b: seq<H.Entry<Process?>>)
    requires NoNulls(a) && NoNulls(b)
    ensures NoNulls(a + b) && (a != [] ==> NoNulls(a[1..]) && (a + b)[0] == a[0] && (a + b)[1..] == a[1..] + b)
  {
  }

  lemma {:induction false} PidsConcat(a: seq<H.Entry<Process?>>, b: seq<H.Entry<Process?>>)
    requires NoNulls(a) && NoNulls(b)
    ensures NoNulls(a + b) && Pids(a + b) == Pids(a) + Pids(b)
    decreases |a|
  {
    hide NoNulls;
    NoNullsConcat(a, b);
    if a == [] {
      assert a + b == b;
    } else {
      PidsConcat(a[1..], b);
    }
  }

  ghost function Without<X>(s: seq<X>, k: nat): seq<X>
    requires k < |s|
  {
    s[..k] + s[k + 1..]
  }

  lemma {:induction false} WithoutBag<X>(s: seq<X>, k: nat)
    requires k < |s|
    ensures multiset(s) == multiset(Without(s, k)) + multiset{s[k]}
  {
    assert s == s[..k] + [s[k]] + s[k + 1..];
  }

  lemma {:induction false} PidsWithout(es: seq<H.Entry<Process?>>, k: nat)
    requires NoNulls(es) && k < |es|
    ensures NoNulls(Without(es, k)) && Pids(es) == Pids(Without(es, k)) + multiset{es[k].value.pid}
  {
    var a, b := es[..k], es[k + 1..];
    assert es == a + ([es[k]] + b);
    PidsConcat(a, [es[k]] + b);
    PidsConcat([es[k]], b);
    PidsConcat(a, b);
    assert Pids([es[k]]) == multiset{es[k].value.pid};
  }

  lemma {:induction false} HeadInBag<X>(a: seq<X>, b: seq<X>) returns (k: nat)
    requires a != [] && multiset(a) == multiset(b)
    ensures k < |b| && b[k] == a[0] && multiset(a[1..]) == multiset(Without(b, k))
  {
    assert a[0] in multiset(b);
    k :| 0 <= k < |b| && b[k] == a[0];
    WithoutBag(b, k);
    assert a == [a[0]] + a[1..];
    assert multiset(a[1..]) == multiset(a) - multiset{a[0]};
  }

  lemma {:induction false} PidsHead(es: seq<H.Entry<Process?>>)
    requires NoNulls(es) && es != []
    ensures es[0].value != null && NoNulls(es[1..]) && Pids(es) == multiset{es[0].value.pid} + Pids(es[1..])
  {
  }

  lemma {:induction false} PidsPermute(a: seq<H.Entry<Process?>>, b: seq<H.Entry<Process?>>)
    requires NoNulls(a) && NoNulls(b) && multiset(a) == multiset(b)
    ensures Pids(a) == Pids(b)
    decreases |a|
  {
    hide NoNulls, Without;
    if a == [] {
      assert |multiset(b)| == 0;
    } else {
      var k := HeadInBag(a, b);
      PidsHead(a);
      PidsWithout(b, k);
      PidsPermute(a[1..], Without(b, k));
    }
  }

  lemma {:induction false} NoNullsPermute(a: seq<H.Entry<Process?>>, b: seq<H.Entry<Process?>>)
    requires NoNulls(a) && multiset(b) <= multiset(a)
    ensures NoNulls(b)
  {
    forall i | 0 <= i < |b|
      ensures b[i].value != null
    {
      assert b[i] in multiset(b) && b[i] in multiset(a) && b[i] in a;
    }
  }

  lemma {:induction false} PidsSize(es: seq<H.Entry<Process?>>)
    requires NoNulls(es)
    ensures |Pids(es)| == |es|
    decreases |es|
  {
    if es != [] {
      PidsSize(es[1..]);
    }
  }

  lemma {:induction false} PidsMember(es: seq<H.Entry<Process?>>, pid: int)
    requires NoNulls(es)
    ensures pid in Pids(es) <==> exists i | 0 <= i < |es| :: es[i].value.pid == pid
    decreases |es|
  {
    if es != [] {
      PidsMember(es[1..], pid);
      assert forall i | 1 <= i < |es| :: es[i] == es[1..][i - 1];
    }
  }

  lemma {:induction false} PidsPush(es: seq<H.Entry<Process?>>, e: H.Entry<Process?>)
    requires NoNulls(es) && e.value != null
    ensures NoNulls(H.Push(es, e)) && Pids(H.Push(es, e)) == Pids(es) + multiset{e.value.pid}
  {
    H.PushCorrect(es, e);
    PidsConcat(es, [e]);
    NoNullsPermute(es + [e], H.Push(es, e));
    PidsPermute(es + [e], H.Push(es, e));
  }

  lemma {:induction false} PidsDelete(es: seq<H.Entry<Process?>>, i: nat)
    requires NoNulls(es) && i < |es|
    ensures NoNulls(H.Delete(es, i)) && Pids(H.Delete(es, i)) == Pids(es) - multiset{es[i].value.pid}
  {
    H.DeleteCorrect(es, i);
    WithoutBag(es, i);
    PidsWithout(es, i);
    NoNullsPermute(es, H.Delete(es, i));
    PidsPermute(Without(es, i), H.Delete(es, i));
  }

  /** Every entry points to the live process of its number, at the priority of that process. */
  ghost predicate AllLive(es: seq<H.Entry<Process?>>, procs: map<int, Process>) {
    && NoNulls(es)
    && forall i | 0 <= i < |es| :: LiveEntry(es[i], procs)
  }

  ghost predicate LiveEntry(e: H.Entry<Process?>, procs: map<int, Process>) {
    && e.value != null && e.value.pid in procs && procs[e.value.pid] == e.value
    && e.priority == e.value.priority
  }

  lemma {:induction false} LivePush(es: seq<H.Entry<Process?>>, p: Process, procs: map<int, Process>)
    requires AllLive(es, procs) && p.pid in procs && procs[p.pid] == p
    ensures var es' := H.Push(es, H.Entry(p, p.priority));
            && AllLive(es', procs) && Pids(es') == Pids(es) + multiset{p.pid}
            && (H.IsHeap(es, |es|) ==> H.IsHeap(es', |es'|))
  {
    var e: H.Entry<Process?> := H.Entry(p, p.priority);
    PidsPush(es, e);
    H.PushCorrect(es, e);
    forall i | 0 <= i < |H.Push(es, e)|
      ensures H.Push(es, e)[i] == e || H.Push(es, e)[i] in es
    {
      assert H.Push(es, e)[i] in multiset(H.Push(es, e)) && H.Push(es, e)[i] in multiset(es) + multiset{e};
    }
  }

  lemma {:induction false} LiveDelete(es: seq<H.Entry<Process?>>, k: nat, procs: map<int, Process>)
    requires AllLive(es, procs) && k < |es|
    ensures AllLive(H.Delete(es, k), procs)
    ensures Pids(H.Delete(es, k)) == Pids(es) - multiset{es[k].value.pid}
  {
    PidsDelete(es, k);
    H.DeleteCorrect(es, k);
    forall i | 0 <= i < |H.Delete(es, k)|
      ensures H.Delete(es, k)[i] in es
    {
      assert H.Delete(es, k)[i] in multiset(H.Delete(es, k)) && H.Delete(es, k)[i] in multiset(es);
    }
  }

  lemma {:induction false} LeastIsFirst(es: seq<H.Entry<Process?>>, procs: map<int, Process>)
    requires AllLive(es, procs) && H.IsHeap(es, |es|)
    ensures forall pid <- Pids(es) :: pid in procs && es[0].value.priority <= procs[pid].priority
  {
    forall pid <- Pids(es)
      ensures pid in procs && es[0].value.priority <= procs[pid].priority
    {
      PidsMember(es, pid);
      var i :| 0 <= i < |es| && es[i].value.pid == pid;
      H.FirstIsLeast(es, i);
      assert LiveEntry(es[i], procs) && LiveEntry(es[0], procs);
    }
  }

  lemma {:induction false} LivePids(es: seq<H.Entry<Process?>>, procs: map<int, Process>)
    requires AllLive(es, procs)
    ensures NoNulls(es) && |Pids(es)| == |es|
    ensures es == [] ==> Pids(es) == multiset{}
  {
    PidsSize(es);
  }

  lemma {:induction false} LivePop(es: seq<H.Entry<Process?>>, procs: map<int, Process>)
    requires AllLive(es, procs) && es != []
    ensures var p := es[0].value;
            && p != null && p.pid in procs && procs[p.pid] == p && p.pid in Pids(es)
            && AllLive(H.Pop(es), procs) && Pids(H.Pop(es)) == Pids(es) - multiset{p.pid}
    ensures H.IsHeap(es, |es|) ==>
              && H.IsHeap(H.Pop(es), |H.Pop(es)|)
              && forall pid <- Pids(es) :: pid in procs && es[0].value.priority <= procs[pid].priority
  {
    assert LiveEntry(es[0], procs);
    LiveDelete(es, 0, procs);
    H.PopCorrect(es);
    if H.IsHeap(es, |es|) {
      LeastIsFirst(es, procs);
    }
  }

  /** A process that is queued at most once has one entry. */
  lemma {:induction false} QueuedOnce(es: seq<H.Entry<Process?>>, i: nat, j: nat)
    requires NoNulls(es) && i < j < |es| && forall pid :: Pids(es)[pid] <= 1
    ensures es[i].value.pid != es[j].value.pid
  {
    PidsWithout(es, i);
    PidsMember(Without(es, i), es[j].value.pid);
    assert Without(es, i)[j - 1] == es[j];
    assert Pids(es)[es[i].value.pid] <= 1;
  }

  lemma {:induction false} LiveGrow(es: seq<H.Entry<Process?>>, procs: map<int, Process>, p: Process)
    requires AllLive(es, procs) && p.pid !in procs
    ensures AllLive(es, procs[p.pid := p])
  {
  }

  /** All processes have one priority, as when every module is spawned with priority 1. */
  ghost predicate EqualPriorities(procs: map<int, Process>) {
    forall p, q | p in procs && q in procs :: procs[p].priority == procs[q].priority
  }

  lemma {:induction false} EqualsStayInOrder(es: seq<H.Entry<Process?>>, k: nat, procs: map<int, Process>)
    requires AllLive(es, procs) && k < |es| && H.IsHeap(es, |es|) && EqualPriorities(procs)
    ensures H.IsHeap(H.Delete(es, k), |es| - 1)
  {
    hide H.IsHeap, H.Delete;
    H.DeleteCorrect(es, k);
    assert LiveEntry(es[k], procs) && LiveEntry(es[|es| - 1], procs);
    assert k > 0 ==> LiveEntry(es[H.Parent(k)], procs);
  }

  /** Removing the first match clears the queue of a process, because it is queued at most once. */
  lemma {:induction false} LiveRemove(es: seq<H.Entry<Process?>>, k: nat, procs: map<int, Process>, p: Process)
    requires AllLive(es, procs) && k < |es| && es[k].value == p && Pids(es)[p.pid] <= 1
    ensures AllLive(H.Delete(es, k), procs - {p.pid})
    ensures Pids(H.Delete(es, k)) == Pids(es) - multiset{p.pid}
    ensures H.IsHeap(es, |es|) && EqualPriorities(procs) ==> H.IsHeap(H.Delete(es, k), |es| - 1)
  {
    hide H.IsHeap, H.Delete, Pids, EqualPriorities;
    LiveDelete(es, k, procs);
    var rest := H.Delete(es, k);
    forall i | 0 <= i < |rest|
      ensures rest[i].value.pid != p.pid
    {
      PidsMember(rest, p.pid);
    }
    if H.IsHeap(es, |es|) && EqualPriorities(procs) {
      EqualsStayInOrder(es, k, procs);
    }
  }

  lemma {:induction false} LiveAbsent(es: seq<H.Entry<Process?>>, procs: map<int, Process>, p: Process)
    requires AllLive(es, procs) && p.pid in procs && procs[p.pid] == p
    requires forall e <- es :: e.value != p
    ensures AllLive(es, procs - {p.pid}) && Pids(es) - multiset{p.pid} == Pids(es)
  {
    forall i | 0 <= i < |es|
      ensures es[i].value.pid != p.pid
    {
      assert LiveEntry(es[i], procs) && es[i] in es;
    }
    PidsMember(es, p.pid);
  }

  // ---------- Process objects ----------

  ghost function Objects(procs: map<int, Process>): set<Process> {
    set pid | pid in procs :: procs[pid]
  }

  ghost function Mailboxes(procs: map<int, Process>): set<Q.Queue<Message>> {
    set pid | pid in procs :: procs[pid].messageQueue
  }

  ghost function MailNodes(procs: map<int, Process>): set<Q.QueueNode<Message>>
    reads Mailboxes(procs)
  {
    set pid, n | pid in procs && n in procs[pid].messageQueue.Nodes :: n
  }

  ghost function Snapshot(procs: map<int, Process>): map<int, Proc>
    reads Objects(procs), Mailboxes(procs)
  {
    map pid | pid in procs :: ProcOf(procs[pid])
  }

  /** The memory of one process. */
  ghost function Own(p: Process): set<object>
    reads p.messageQueue
  {
    var nodes: set<object> := p.messageQueue.Nodes;
    nodes + {p, p.messageQueue}
  }

  /** The memory of all of them. */
  ghost function Belongings(procs: map<int, Process>): set<object>
    reads Mailboxes(procs)
  {
    var objects: set<object>, boxes: set<object>, nodes: set<object> :=
      Objects(procs), Mailboxes(procs), MailNodes(procs);
    objects + boxes + nodes
  }

  lemma {:induction false} BelongingsAdd(procs: map<int, Process>, p: Process)
    ensures Belongings(procs[p.pid := p]) <= Belongings(procs) + Own(p)
  {
  }

  lemma {:induction false} BelongingsDrop(procs: map<int, Process>, pid: int)
    ensures Belongings(procs - {pid}) <= Belongings(procs)
  {
  }

  /** The process objects are filed under their numbers and keep their message queues to themselves. */
  ghost predicate Separate(procs: map<int, Process>)
    reads Mailboxes(procs), MailNodes(procs)
  {
    && (forall pid <- procs :: procs[pid].pid == pid && procs[pid].messageQueue.Valid())
    && (forall p, q | p in procs && q in procs && p != q ::
          && procs[p].messageQueue != procs[q].messageQueue
          && procs[p].messageQueue.Nodes !! procs[q].messageQueue.Nodes)
  }

  lemma {:induction false} SeparateAdd(procs: map<int, Process>, p: Process)
    requires Separate(procs) && p.pid !in procs && p.messageQueue.Valid()
    requires p.messageQueue !in Mailboxes(procs) && p.messageQueue.Nodes !! MailNodes(procs)
    ensures Separate(procs[p.pid := p]) && Snapshot(procs[p.pid := p]) == Snapshot(procs)[p.pid := ProcOf(p)]
  {
  }

  lemma {:induction false} SeparateDrop(procs: map<int, Process>, pid: int)
    requires Separate(procs)
    ensures Separate(procs - {pid}) && Snapshot(procs - {pid}) == Snapshot(procs) - {pid}
  {
  }

  /**
   * An insertion into the queue of one process leaves every other process alone. The
   * status of `queue_insert` is ignored, so without a node nothing happens at all.
   */
  method Deposit(ghost m: map<int, Process>, dest: Process, message: Message, node: bool)
    requires Separate(m) && dest.pid in m && m[dest.pid] == dest
    modifies dest.messageQueue, dest.messageQueue.Nodes
    ensures fresh(dest.messageQueue.Nodes - old(dest.messageQueue.Nodes))
    ensures fresh(MailNodes(m) - old(MailNodes(m)))
    ensures Separate(m)
    ensures Snapshot(m) == if node then old(Snapshot(m))[dest.pid :=
                             old(ProcOf(dest)).(mail := old(dest.messageQueue.Contents) + [message])]
                           else old(Snapshot(m))
  {
    hide Q.Queue.Valid;
    ghost var before := Snapshot(m);
    var ignored := dest.messageQueue.Insert(message, node);
    assert Snapshot(m) == before[dest.pid := ProcOf(dest)] by {
      assert forall q <- m | q != dest.pid :: ProcOf(m[q]) == before[q];
    }
  }

  method WriteWaiting(ghost m: map<int, Process>, p: Process, buffer: Option<int>, state: ProcState)
    requires Separate(m) && p.pid in m && m[p.pid] == p
    modifies p
    ensures Separate(m)
    ensures Snapshot(m) == old(Snapshot(m))[p.pid := old(ProcOf(p)).(buffer := buffer, state := state)]
  {
    hide Q.Queue.Valid;
    ghost var before := Snapshot(m);
    p.messageBuffer := buffer;
    p.state := state;
    assert forall q <- m | q != p.pid :: ProcOf(m[q]) == before[q];
  }

  method Withdraw(ghost m: map<int, Process>, p: Process) returns (message: Option<Message>)
    requires Separate(m) && p.pid in m && m[p.pid] == p
    modifies p.messageQueue
    ensures Separate(m) && p.messageQueue.Nodes == old(p.messageQueue.Nodes) && MailNodes(m) == old(MailNodes(m))
    ensures var mail := old(p.messageQueue.Contents);
            if mail == [] then message == None && Snapshot(m) == old(Snapshot(m))
            else message == Some(mail[0])
                 && Snapshot(m) == old(Snapshot(m))[p.pid := old(ProcOf(p)).(mail := mail[1..])]
  {
    hide Q.Queue.Valid;
    ghost var before := Snapshot(m);
    message := p.messageQueue.GetNext();
    assert Snapshot(m) == before[p.pid := ProcOf(p)] by {
      assert forall q <- m | q != p.pid :: ProcOf(m[q]) == before[q];
    }
  }

  lemma {:induction false} OwnQueue(procs: map<int, Process>, p: Process)
    requires Separate(procs) && p.pid in procs && procs[p.pid] == p
    ensures p.messageQueue.Valid() && p.messageQueue !in Mailboxes(procs - {p.pid})
    ensures p.messageQueue.Nodes !! MailNodes(procs - {p.pid})
  {
  }

  ghost function Owners(ports: map<int, Port>): map<int, int> {
    map id | id in ports :: ports[id].ownerPid
  }

  lemma {:induction false} OwnersChange(ports: map<int, Port>, port: Port)
    ensures Owners(ports[port.id := port]) == Owners(ports)[port.id := port.ownerPid]
    ensures port.id in Owners(ports) <==> port.id in ports
    ensures Owners(ports - {port.id}) == Owners(ports) - {port.id}
  {
  }

  // ---------- The kernel object ----------

  class Quark {
    /** The order of the right rotations in the two tables; the source has RootFirst. */
    const order: A.Order
    const readyQueue: P.PriorityQueue<Process?>
    var processTable: T.Node?<Process>
    var portTable: T.Node?<Port>
    var activeProcess: Process?
    var nextPid: int
    var halted: bool

    /** The contents of the two tables. */
    ghost var procs: map<int, Process>
    ghost var ports: map<int, Port>

    ghost predicate QueueOk(all: map<int, Process>)
      reads readyQueue, readyQueue.heap
    {
      && readyQueue.Valid() && readyQueue.heap.Length == CAPACITY
      && AllLive(readyQueue.Contents(), all)
    }

    ghost predicate TablesOk()
      reads this, processTable, portTable, T.ReprOf(processTable), T.ReprOf(portTable)
    {
      && Table.Ok(processTable, order) && procs == Table.Contents(processTable)
      && Table.Ok(portTable, order) && ports == Table.Contents(portTable)
    }

    /** Every pointer to a process leads to the live process of its number. */
    ghost predicate Wf()
      reads this, processTable, portTable, T.ReprOf(processTable), T.ReprOf(portTable)
      reads readyQueue, readyQueue.heap, Mailboxes(procs), MailNodes(procs)
    {
      && QueueOk(procs) && TablesOk() && Separate(procs)
      && (activeProcess != null ==>
            activeProcess.pid in procs && procs[activeProcess.pid] == activeProcess)
      && (forall id <- ports :: ports[id].id == id)
    }

    ghost function Abs(): Kernel
      requires Wf()
      reads this, processTable, portTable, T.ReprOf(processTable), T.ReprOf(portTable)
      reads readyQueue, readyQueue.heap, Objects(procs), Mailboxes(procs), MailNodes(procs)
    {
      Kernel(
        Snapshot(procs), Owners(ports), Pids(readyQueue.Contents()),
        if activeProcess == null then None else Some(activeProcess.pid),
        nextPid, halted)
    }

    ghost predicate Valid()
      reads this, processTable, portTable, T.ReprOf(processTable), T.ReprOf(portTable)
      reads readyQueue, readyQueue.heap, Objects(procs), Mailboxes(procs), MailNodes(procs)
    {
      Wf() && Inv(Abs())
    }

    /** The state that `kernel_initialize` sets up. */
    constructor (order: A.Order)
      ensures Valid() && Abs() == Initial() && HeapOrdered() && this.order == order
      ensures fresh(Repr()) && A.Avl(ProcessTree()) && A.Avl(PortTree())
    {
      hide Wf, Inv, Abs, HeapOrdered, Repr, ProcessTree, PortTree, A.Avl;
      this.order := order;
      readyQueue := new P.PriorityQueue<Process?>(CAPACITY);
      processTable, portTable, activeProcess := null, null, null;
      nextPid, halted := 1, false;
      procs, ports := map[], map[];
      new;
      NothingYet();
    }

    lemma NothingYet()
      requires readyQueue.Valid() && readyQueue.heap.Length == CAPACITY && readyQueue.Contents() == []
      requires processTable == null && portTable == null && activeProcess == null
      requires procs == map[] && ports == map[] && nextPid == 1 && !halted
      ensures Wf() && Abs() == Initial() && Inv(Initial()) && HeapOrdered()
      ensures Repr() == {this, readyQueue, readyQueue.heap}
      ensures A.Avl(ProcessTree()) && A.Avl(PortTree())
    {
    }

    ghost function TableNodes(): set<object>
      reads this`processTable, this`portTable, processTable, portTable
    {
      var processNodes: set<object>, portNodes: set<object> := T.ReprOf(processTable), T.ReprOf(portTable);
      processNodes + portNodes
    }

    ghost function Mail(): set<object>
      reads this`procs, Mailboxes(procs)
    {
      var boxes: set<object>, nodes: set<object> := Mailboxes(procs), MailNodes(procs);
      boxes + nodes
    }

    /** Everything in memory that belongs to the kernel apart from the ready queue. */
    ghost function Others(): set<object>
      reads this`processTable, this`portTable, this`procs, processTable, portTable, Mailboxes(procs)
    {
      TableNodes() + Belongings(procs)
    }

    /** The memory of the kernel. */
    ghost function Repr(): set<object>
      reads this`processTable, this`portTable, this`procs, processTable, portTable, Mailboxes(procs)
    {
      var own: set<object> := {this, readyQueue, readyQueue.heap};
      own + Others()
    }

    lemma ReprHolds()
      ensures {this, readyQueue, readyQueue.heap} + Objects(procs) + Mailboxes(procs) + MailNodes(procs) <= Repr()
      ensures T.ReprOf(processTable) <= Repr() && T.ReprOf(portTable) <= Repr()
    {
    }

    /** The two trees, with the heights that are stored in them. */
    ghost function ProcessTree(): A.Tree<Process>
      reads this`processTable, processTable
    {
      T.ShapeOf(processTable)
    }

    ghost function PortTree(): A.Tree<Port>
      reads this`portTable, portTable
    {
      T.ShapeOf(portTable)
    }

    /** The first entry of the ready queue has the least priority. */
    ghost predicate HeapOrdered()
      reads readyQueue, readyQueue.heap
    {
      readyQueue.Valid() && H.IsHeap(readyQueue.Contents(), readyQueue.size)
    }

    /** The ready queue as it lies in its array. */
    ghost function Ready(): seq<H.Entry<Process?>>
      requires readyQueue.Valid()
      reads readyQueue, readyQueue.heap
    {
      readyQueue.Contents()
    }

    /** `priorityqueue_insert` of a process with its own priority, the status ignored. */
    method PutReady(p: Process)
      requires Wf() && p.pid in procs && procs[p.pid] == p
      modifies readyQueue, readyQueue.heap
      ensures Wf() && Abs() == Enqueue(old(Abs()), p.pid) && Repr() == old(Repr())
      ensures Ready() == if |old(Ready())| == CAPACITY then old(Ready())
                         else H.Push(old(Ready()), H.Entry(p, p.priority))
      ensures old(HeapOrdered()) ==> HeapOrdered()
    {
      hide Table.Ok, Table.Contents, Snapshot, Separate, AllLive, Pids, H.Push, H.IsHeap, Repr;
      ghost var es := readyQueue.Contents();
      LivePids(es, procs);
      LivePush(es, p, procs);
      assert readyQueue !in Others() && readyQueue.heap !in Others();
      var status := readyQueue.Insert(p, p.priority);
      assert Separate(procs) && Snapshot(procs) == old(Snapshot(procs));
      assert Table.Ok(processTable, order) && Table.Ok(portTable, order);
    }

    lemma PickIsLeast(es: seq<H.Entry<Process?>>)
      requires Wf() && es == readyQueue.Contents() && es != []
      ensures es[0].value != null && (H.IsHeap(es, |es|) ==> LeastPick(Abs(), es[0].value.pid))
      ensures es[0] == H.Entry(es[0].value, es[0].value.priority)
    {
      LivePop(es, procs);
      assert LiveEntry(es[0], procs);
    }

    /** `priorityqueue_extract_min` on the ready queue. */
    method ExtractReady() returns (first: Process?)
      requires Wf()
      modifies readyQueue, readyQueue.heap
      ensures Wf() && Repr() == old(Repr())
      ensures first == null ==> old(Abs()).ready == multiset{} && Abs() == old(Abs())
      ensures first != null ==>
                && first.pid in procs && procs[first.pid] == first && first.pid in old(Abs()).ready
                && Abs() == old(Abs()).(ready := old(Abs()).ready - multiset{first.pid})
      ensures old(HeapOrdered()) ==> HeapOrdered() && (first != null ==> LeastPick(old(Abs()), first.pid))
      ensures old(Ready()) != [] ==>
                first != null && old(Ready())[0] == H.Entry(first, first.priority) && Ready() == H.Pop(old(Ready()))
    {
      hide Table.Ok, Table.Contents, Snapshot, Separate, AllLive, Pids, H.Pop, H.IsHeap, Repr;
      ghost var es := readyQueue.Contents();
      LivePids(es, procs);
      if |es| > 0 {
        LivePop(es, procs);
        PickIsLeast(es);
      }
      assert readyQueue !in Others() && readyQueue.heap !in Others();
      var value := readyQueue.ExtractMin();
      first := if value == None then null else value.value;
      assert Separate(procs) && Snapshot(procs) == old(Snapshot(procs));
      assert Table.Ok(processTable, order) && Table.Ok(portTable, order);
    }

    method SetActive(p: Process?)
      requires Wf() && (p != null ==> p.pid in procs && procs[p.pid] == p)
      modifies this`activeProcess
      ensures Wf() && activeProcess == p && Repr() == old(Repr())
      ensures Abs() == old(Abs()).(active := if p == null then None else Some(p.pid))
      ensures old(HeapOrdered()) ==> HeapOrdered()
    {
      hide Table.Ok, Table.Contents, Snapshot, Separate, AllLive, Pids, Owners, Repr;
      SelfApart();
      activeProcess := p;
      assert Table.Ok(processTable, order) && Table.Ok(portTable, order);
      assert Separate(procs) && Snapshot(procs) == old(Snapshot(procs));
    }

    /** `panic`: nothing happens any more. */
    method Panic()
      requires Wf()
      modifies this`halted
      ensures Wf() && Abs() == old(Abs()).(halted := true) && Repr() == old(Repr())
      ensures old(HeapOrdered()) ==> HeapOrdered()
    {
      hide Table.Ok, Table.Contents, Snapshot, Separate, AllLive, Pids, Owners, Repr;
      SelfApart();
      halted := true;
      assert Table.Ok(processTable, order) && Table.Ok(portTable, order);
      assert Separate(procs) && Snapshot(procs) == old(Snapshot(procs));
    }

    /** The next process becomes the active one; with none to take the kernel panics. */
    method TakeReady() returns (ghost pick: int)
      requires Wf()
      modifies this`activeProcess, this`halted, readyQueue, readyQueue.heap
      ensures Wf() && CanPick(old(Abs()), pick) && Abs() == Dispatch(old(Abs()), pick)
      ensures Repr() == old(Repr())
      ensures old(Ready()) != [] ==>
                && activeProcess != null && Ready() == H.Pop(old(Ready()))
                && old(Ready())[0] == H.Entry(activeProcess, activeProcess.priority)
      ensures old(HeapOrdered()) ==> HeapOrdered() && LeastPick(old(Abs()), pick)
    {
      hide Wf, Abs, HeapOrdered, Repr;
      ProcsAre();
      var first := ExtractReady();
      pick := if first == null then 0 else first.pid;
      SetActive(first);
      if first == null {
        Panic();
      }
    }

    lemma QueueIsValid()
      requires Wf()
      ensures readyQueue.Valid()
    {
    }

    /** The active process goes back into the ready queue. */
    method PutBack()
      requires Wf()
      modifies readyQueue, readyQueue.heap
      ensures Wf() && Abs() == Requeue(old(Abs())) && Repr() == old(Repr())
      ensures Ready() == if activeProcess == null || |old(Ready())| == CAPACITY then old(Ready())
                         else H.Push(old(Ready()), H.Entry(activeProcess, activeProcess.priority))
      ensures old(HeapOrdered()) ==> HeapOrdered()
    {
      hide Wf, Abs, HeapOrdered, Repr, Ready, H.Push;
      ProcsAre();
      if activeProcess != null {
        PutReady(activeProcess);
      }
    }

    /** `kernel_advance_scheduler`. */
    method AdvanceScheduler() returns (ghost pick: int)
      requires Wf()
      modifies this`activeProcess, this`halted, readyQueue, readyQueue.heap
      ensures Wf() && CanPick(Requeue(old(Abs())), pick) && Abs() == S.AdvanceScheduler(old(Abs()), pick)
      ensures old(Valid()) ==> Valid()
      ensures ProcessTree() == old(ProcessTree()) && PortTree() == old(PortTree())
      ensures Repr() == old(Repr())
      ensures old(activeProcess) != null && |old(Ready())| < CAPACITY ==>
                var g := H.Push(old(Ready()), H.Entry(old(activeProcess), old(activeProcess).priority));
                && g != [] && activeProcess != null && Ready() == H.Pop(g)
                && g[0] == H.Entry(activeProcess, activeProcess.priority)
      ensures old(HeapOrdered()) ==> HeapOrdered() && LeastPick(Requeue(old(Abs())), pick)
    {
      hide Wf, Abs, HeapOrdered, Inv, Repr, ProcessTree, PortTree, Ready, H.Push, H.Pop;
      QueueIsValid();
      ghost var before, es := Abs(), Ready();
      PutBack();
      if activeProcess != null {
        H.PushCorrect(es, H.Entry(activeProcess, activeProcess.priority));
      }
      pick := TakeReady();
      if old(Valid()) {
        AdvanceKeeps(before, pick);
      }
    }

    /** Calls that allocate leave the message queues of the live processes alone. */
    lemma AllAllocated()
      ensures forall o <- T.ReprOf(processTable) :: allocated(o)
      ensures forall o <- T.ReprOf(portTable) :: allocated(o)
      ensures forall o <- Objects(procs) :: allocated(o)
      ensures forall o <- Mailboxes(procs) :: allocated(o)
      ensures forall o <- MailNodes(procs) :: allocated(o)
    {
      forall q <- procs
        ensures allocated(procs[q].messageQueue) && allocated(procs[q].messageQueue.Nodes)
      {
        var box := procs[q].messageQueue;
        var nodes := box.Nodes;
        assert allocated(nodes);
      }
    }

    /** A process with a queue of its own. */
    ghost predicate Newcomer(p: Process)
      reads this, p.messageQueue, p.messageQueue.Nodes, Mailboxes(procs)
    {
      && p.messageQueue.Valid()
      && p.messageQueue !in Mailboxes(procs) && p.messageQueue.Nodes !! MailNodes(procs)
    }

    method NewProcess(priority: int) returns (p: Process)
      requires Wf()
      ensures fresh(p) && fresh(p.messageQueue) && fresh(p.messageQueue.Nodes)
      ensures Wf() && Abs() == old(Abs()) && Repr() == old(Repr()) && Newcomer(p)
      ensures p.pid == nextPid && ProcOf(p) == Proc(priority, ProcessActive, None, [])
    {
      hide Table.Ok, Table.Contents, Snapshot, Separate, AllLive, Pids;
      ghost var boxes, nodes := Mailboxes(procs), MailNodes(procs);
      AllAllocated();
      p := new Process(nextPid, priority);
      assert forall q <- procs :: procs[q].messageQueue in boxes && procs[q].messageQueue.Nodes <= nodes;
      assert MailNodes(procs) == nodes;
      assert Separate(procs) && Snapshot(procs) == old(Snapshot(procs));
      assert Table.Ok(processTable, order) && Table.Ok(portTable, order);
      assert QueueOk(procs);
    }

    /** What a change of the process table leaves alone. */
    twostate predicate OnlyTable(m: map<int, Process>)
      reads this, portTable, T.ReprOf(portTable), readyQueue, readyQueue.heap
      reads Objects(m), Mailboxes(m), MailNodes(m)
    {
      && Table.Ok(portTable, order) && Table.Contents(portTable) == old(Table.Contents(portTable))
      && unchanged(readyQueue) && unchanged(readyQueue.heap)
      && Separate(m) && Snapshot(m) == old(Snapshot(m)) && Belongings(m) == old(Belongings(m))
      && portTable == old(portTable) && T.ReprOf(portTable) == old(T.ReprOf(portTable)) && PortTree() == old(PortTree())
    }

    method FileProcess(p: Process, ghost m: map<int, Process>)
      requires Table.Ok(processTable, order) && Table.Ok(portTable, order) && Separate(m)
      requires Table.CanAdd(processTable, p.pid, order)
      modifies this`processTable, this`procs, T.ReprOf(processTable)
      ensures procs == m
      ensures Table.Ok(processTable, order) && fresh(T.ReprOf(processTable) - old(T.ReprOf(processTable)))
      ensures p.pid !in old(Table.Contents(processTable)) ==>
                Table.Contents(processTable) == old(Table.Contents(processTable))[p.pid := p]
      ensures ProcessTree() == A.Insert(old(ProcessTree()), p.pid, p, order)
      ensures OnlyTable(m)
    {
      hide Table.Ok, Table.Contents, Snapshot, Separate;
      ghost var mine: set<object>, theirs: set<object> := T.ReprOf(processTable), T.ReprOf(portTable);
      ghost var objects: set<object>, boxes: set<object>, mail: set<object> := Objects(m), Mailboxes(m), MailNodes(m);
      assert mine !! theirs && mine !! objects && mine !! boxes && mine !! mail;
      processTable := Table.Add(processTable, p.pid, p, order);
      procs := m;
      assert Separate(m) && Snapshot(m) == old(Snapshot(m)) && Belongings(m) == old(Belongings(m));
      assert Table.Ok(portTable, order) && T.ReprOf(portTable) == old(T.ReprOf(portTable));
    }

    /** Files a process in the process table. */
    method AddProcess(p: Process)
      requires Wf() && p.pid !in procs && Newcomer(p) && Table.CanAdd(processTable, p.pid, order)
      modifies this`processTable, this`procs, T.ReprOf(processTable)
      ensures Wf() && procs == old(procs)[p.pid := p] && fresh(T.ReprOf(processTable) - old(T.ReprOf(processTable)))
      ensures Abs() == old(Abs()).(procs := old(Abs()).procs[p.pid := ProcOf(p)])
      ensures forall o <- Repr() :: o in old(Repr()) || o in Own(p) || fresh(o)
      ensures ProcessTree() == A.Insert(old(ProcessTree()), p.pid, p, order) && PortTree() == old(PortTree())
      ensures unchanged(readyQueue) && unchanged(readyQueue.heap)
    {
      hide Table.Ok, Table.Contents, Snapshot, Separate, AllLive, Pids, Owners, ProcOf, NoNulls, Belongings, Own;
      SeparateAdd(procs, p);
      BelongingsAdd(procs, p);
      LiveGrow(readyQueue.Contents(), procs, p);
      FileProcess(p, procs[p.pid := p]);
    }

    lemma KnownPids()
      ensures Snapshot(procs).Keys == procs.Keys
    {
    }

    method BumpPid()
      requires Wf()
      modifies this`nextPid
      ensures Wf() && Abs() == old(Abs()).(nextPid := old(Abs()).nextPid + 1) && Repr() == old(Repr())
    {
      hide Table.Ok, Table.Contents, Snapshot, Separate, AllLive, Pids, Owners;
      assert this !in Others();
      nextPid := nextPid + 1;
      assert Table.Ok(processTable, order) && Table.Ok(portTable, order);
      assert Separate(procs) && Snapshot(procs) == old(Snapshot(procs));
    }

    /** The process table can take the next number. Child first it always can. */
    ghost predicate CanSpawn()
      reads this, processTable
    {
      order == A.RootFirst ==> Table.CanAdd(processTable, nextPid, A.RootFirst)
    }

    /** While the trees are AVL trees every number can be added. */
    lemma AvlTakesAll()
      ensures A.Avl(ProcessTree()) ==> CanSpawn()
      ensures A.Avl(PortTree()) ==> forall id :: CanOpen(id)
    {
      if A.Avl(ProcessTree()) {
        Table.AvlTakesAll(processTable, nextPid, A.RootFirst);
      }
      if A.Avl(PortTree()) {
        forall id: int
          ensures CanOpen(id)
        {
          Table.AvlTakesAll(portTable, id, A.RootFirst);
        }
      }
    }

    /** A new process with the next number, filed in the process table. */
    method FileNext(priority: int) returns (p: Process)
      requires Valid() && CanSpawn()
      modifies this`processTable, this`procs, T.ReprOf(processTable)
      ensures Wf() && p.pid == old(nextPid) && p.pid in procs && procs[p.pid] == p
      ensures Abs() == old(Abs()).(procs := old(Abs()).procs[p.pid := Proc(priority, ProcessActive, None, [])])
      ensures forall o <- Repr() :: o in old(Repr()) || fresh(o)
      ensures old(A.Avl(ProcessTree())) ==> A.Avl(ProcessTree())
      ensures PortTree() == old(PortTree())
      ensures unchanged(readyQueue) && unchanged(readyQueue.heap)
    {
      hide Wf, Abs, Repr, Inv, Newcomer, Separate, Snapshot, ProcessTree, PortTree, A.Avl, A.Insert;
      TakesNextPid();
      p := NewProcess(priority);
      NextPidIsFree();
      if A.Avl(ProcessTree()) {
        SpawnKeepsAvl(p);
      }
      AddProcess(p);
    }

    /** `kernel_spawn_process`; `memory` says whether its allocations succeed. */
    method SpawnProcess(priority: int, memory: bool) returns (pid: int)
      requires Valid() && (memory ==> CanSpawn())
      modifies this, T.ReprOf(processTable), readyQueue, readyQueue.heap
      ensures Valid() && fresh(Repr() - old(Repr()))
      ensures (Abs(), Outcome(Pid(pid), None, [])) == S.SpawnProcess(old(Abs()), priority, memory)
      ensures old(A.Avl(ProcessTree())) ==> A.Avl(ProcessTree())
      ensures PortTree() == old(PortTree())
      ensures old(HeapOrdered()) ==> HeapOrdered()
    {
      hide Wf, Abs, HeapOrdered, Repr, Inv, ProcessTree, PortTree, A.Avl;
      if !memory {
        return 0;
      }
      SpawnKeeps(Abs(), priority, memory);
      NextPidIsFree();
      var p := FileNext(priority);
      PutReady(p);
      BumpPid();
      pid := p.pid;
    }

    /** The next number is above all that the table has. */
    lemma SpawnKeepsAvl(p: Process)
      requires Valid() && A.Avl(ProcessTree()) && p.pid == nextPid
      ensures A.Avl(A.Insert(ProcessTree(), p.pid, p, order))
    {
      KnownPids();
      assert forall q <- procs :: q in Abs().procs;
      Table.RisingStaysAvl(ProcessTree(), p.pid, p, order);
    }

    lemma TakesNextPid()
      requires Wf() && CanSpawn()
      ensures Table.CanAdd(processTable, nextPid, order)
    {
      Table.Takes(processTable, nextPid, order);
    }

    lemma NextPidIsFree()
      requires Valid()
      ensures nextPid !in procs && Abs().nextPid == nextPid
    {
      KnownPids();
    }

    // ---------- Messages ----------

    lemma FiledByPid()
      requires Wf()
      ensures forall q <- procs :: procs[q].pid == q
    {
    }

    /** Writes the two fields that say whether a process waits, and for what. */
    method SetWaiting(p: Process, buffer: Option<int>, state: ProcState)
      requires Wf() && p.pid in procs && procs[p.pid] == p
      modifies p
      ensures Wf()
      ensures Abs() == old(Abs()).(procs := old(Abs()).procs[p.pid :=
                         old(Abs()).procs[p.pid].(buffer := buffer, state := state)])
      ensures Repr() == old(Repr())
      ensures old(HeapOrdered()) ==> HeapOrdered()
    {
      hide Table.Ok, Table.Contents, Separate, AllLive, Pids, Owners, H.IsHeap, Snapshot;
      SnapshotAt(p.pid);
      assert p !in TableNodes() && p !in Mail();
      WriteWaiting(procs, p, buffer, state);
      assert Table.Ok(processTable, order) && Table.Ok(portTable, order);
    }

    /** A copy of the message joins the queue of its receiver. */
    method Post(dest: Process, message: Message, node: bool)
      requires Wf() && dest.pid in procs && procs[dest.pid] == dest
      modifies dest.messageQueue, dest.messageQueue.Nodes
      ensures Wf()
      ensures Abs() == if node then old(Abs()).(procs := old(Abs()).procs[dest.pid :=
                         old(Abs()).procs[dest.pid].(mail := old(Abs()).procs[dest.pid].mail + [message])])
                       else old(Abs())
      ensures forall o <- Repr() :: o in old(Repr()) || fresh(o)
    {
      hide Table.Ok, Table.Contents, Separate, AllLive, Pids, Owners;
      ghost var nodes: set<object> := dest.messageQueue.Nodes;
      assert dest.messageQueue !in TableNodes() && nodes !! TableNodes();
      Deposit(procs, dest, message, node);
      assert Table.Ok(processTable, order) && Table.Ok(portTable, order);
    }

    /** The oldest queued message of a process, if there is one. */
    method Collect(p: Process) returns (message: Option<Message>)
      requires Wf() && p.pid in procs && procs[p.pid] == p
      modifies p.messageQueue
      ensures Wf()
      ensures var mail := old(Abs()).procs[p.pid].mail;
              if mail == [] then message == None && Abs() == old(Abs())
              else message == Some(mail[0]) && Abs() == old(Abs()).(procs := old(Abs()).procs[p.pid :=
                                                 old(Abs()).procs[p.pid].(mail := mail[1..])])
      ensures Repr() == old(Repr())
    {
      hide Table.Ok, Table.Contents, Separate, AllLive, Pids, Owners;
      assert p.messageQueue !in TableNodes();
      message := Withdraw(procs, p);
      assert Table.Ok(processTable, order) && Table.Ok(portTable, order);
    }

    lemma ProcsAre()
      requires Wf()
      ensures Abs().procs == Snapshot(procs) && Abs().halted == halted
      ensures activeProcess != null ==>
                && Abs().active == Some(activeProcess.pid)
                && activeProcess.pid in procs && procs[activeProcess.pid] == activeProcess
      ensures activeProcess == null ==> Abs().active == None
    {
    }

    lemma SnapshotAt(pid: int)
      ensures pid in procs ==> pid in Snapshot(procs) && Snapshot(procs)[pid] == ProcOf(procs[pid])
    {
    }

    /** `avl_get` on the process table. */
    method FindProcess(pid: int) returns (p: Process?)
      requires Wf()
      ensures Wf() && Abs() == old(Abs()) && Repr() == old(Repr())
      ensures p == null <==> pid !in Abs().procs
      ensures p != null ==>
                p.pid == pid && pid in procs && procs[pid] == p && Abs().procs[pid] == ProcOf(p)
    {
      hide Table.Ok, Snapshot, Separate, AllLive, Pids, Owners;
      KnownPids();
      FiledByPid();
      SnapshotAt(pid);
      AllAllocated();
      ghost var boxes, nodes := Mailboxes(procs), MailNodes(procs);
      var found := Table.Lookup(processTable, pid, order);
      assert forall q <- procs :: procs[q].messageQueue in boxes && procs[q].messageQueue.Nodes <= nodes;
      assert MailNodes(procs) == nodes;
      assert Separate(procs) && Snapshot(procs) == old(Snapshot(procs));
      assert Table.Ok(processTable, order) && Table.Ok(portTable, order);
      p := if found == None then null else found.value;
    }

    /** `kernel_send_message`; `written` is what it copies into the memory of the receiver. */
    method SendMessage(recipient: int, message: Message) returns (status: Status, written: Option<Delivery>)
      requires Wf() && activeProcess != null
      modifies Objects(procs), readyQueue, readyQueue.heap
      ensures Wf() && procs == old(procs) && Abs().active == old(Abs()).active && Repr() == old(Repr())
      ensures (Abs(), Outcome(Returned(status), written, [])) == S.SendMessage(old(Abs()), recipient, message)
      ensures old(HeapOrdered()) ==> HeapOrdered()
    {
      hide Wf, Abs, HeapOrdered, Repr;
      ProcsAre();
      var dest := FindProcess(recipient);
      if dest == null {
        return EDoesntExist, None;
      } else if dest.messageBuffer != None && dest.state == ProcessRequesting {
        var kernelBuffer := message.(sender := activeProcess.pid);
        written := Some(Delivery(dest.pid, dest.messageBuffer, kernelBuffer));
        SetWaiting(dest, None, ProcessActive);
        PutReady(dest);
        status := ENone;
      } else {
        return EBusy, None;
      }
    }

    /** `kernel_queue_message`; `memory` and `node` say whether its two allocations succeed. */
    method QueueMessage(recipient: int, message: Message, memory: bool, node: bool) returns (status: Status)
      requires Wf()
      modifies Mailboxes(procs), MailNodes(procs)
      ensures Wf() && procs == old(procs) && forall o <- Repr() :: o in old(Repr()) || fresh(o)
      ensures (Abs(), Plain(status)) == S.QueueMessage(old(Abs()), recipient, message, memory, node)
      ensures old(HeapOrdered()) ==> HeapOrdered()
    {
      hide Wf, Abs, HeapOrdered, Repr;
      var dest := FindProcess(recipient);
      if dest == null {
        return EDoesntExist;
      } else if !memory {
        return ENoMem;
      }
      Post(dest, message, node);
      status := ENone;
    }

    // ---------- Ports ----------

    /** `avl_get` on the port table. */
    method FindPort(id: int) returns (port: Port?)
      requires Wf()
      ensures Wf() && Abs() == old(Abs()) && Repr() == old(Repr())
      ensures port == null <==> id !in Abs().ports
      ensures port != null ==> port.id == id && Abs().ports[id] == port.ownerPid
    {
      hide Table.Ok, Snapshot, Separate, AllLive, Pids;
      AllAllocated();
      ghost var boxes, nodes := Mailboxes(procs), MailNodes(procs);
      var found := Table.Lookup(portTable, id, order);
      assert forall q <- procs :: procs[q].messageQueue in boxes && procs[q].messageQueue.Nodes <= nodes;
      assert MailNodes(procs) == nodes;
      assert Separate(procs) && Snapshot(procs) == old(Snapshot(procs));
      assert Table.Ok(processTable, order) && Table.Ok(portTable, order);
      port := if found == None then null else found.value;
    }

    /** `kernel_get_port_owner`. */
    method GetPortOwner(id: int) returns (owner: int)
      requires Wf()
      ensures Wf() && Abs() == old(Abs()) && Repr() == old(Repr())
      ensures owner == PortOwner(Abs(), id) && owner == if id in Abs().ports then Abs().ports[id] else 0
    {
      hide Wf, Abs, Repr;
      var port := FindPort(id);
      owner := if port == null then 0 else port.ownerPid;
    }

    // ---------- System calls ----------

    lemma SelfApart()
      ensures this !in Others() && this as object != readyQueue && this as object != readyQueue.heap
    {
    }

    /** The `send` system call. */
    method Send(to: int, message: Message, flags: bv32, memory: bool, node: bool)
      returns (status: Status, written: Option<Delivery>)
      requires Valid() && activeProcess != null && !halted
      modifies Objects(procs), Mailboxes(procs), MailNodes(procs), readyQueue, readyQueue.heap
      ensures Valid() && fresh(Repr() - old(Repr()))
      ensures (Abs(), Outcome(Returned(status), written, []))
        == S.SendCall(old(Abs()), to, message, flags, memory, node)
      ensures ProcessTree() == old(ProcessTree()) && PortTree() == old(PortTree())
      ensures old(HeapOrdered()) ==> HeapOrdered()
    {
      hide Wf, Abs, HeapOrdered, Repr, Inv;
      ProcsAre();
      SendKeeps(Abs(), to, message, flags, memory, node);
      if BadFlags(flags) {
        return EInvalidArg, None;
      }
      var recipient := to;
      if ToPort(flags) {
        recipient := GetPortOwner(recipient);
        if recipient == 0 {
          return EDoesntExist, None;
        }
      }
      status, written := SendMessage(recipient, message);
      if status == EBusy {
        status := QueueMessage(recipient, message, memory, node);
      }
    }

    method NewPort(id: int, ownerPid: int) returns (port: Port)
      requires Wf()
      ensures fresh(port) && Wf() && Abs() == old(Abs()) && Repr() == old(Repr())
      ensures port.id == id && port.ownerPid == ownerPid
    {
      hide Table.Ok, Table.Contents, Snapshot, Separate, AllLive, Pids;
      AllAllocated();
      ghost var boxes, nodes := Mailboxes(procs), MailNodes(procs);
      port := new Port(id, ownerPid);
      assert forall q <- procs :: procs[q].messageQueue in boxes && procs[q].messageQueue.Nodes <= nodes;
      assert MailNodes(procs) == nodes;
      assert Separate(procs) && Snapshot(procs) == old(Snapshot(procs));
      assert Table.Ok(processTable, order) && Table.Ok(portTable, order);
    }

    /** What a change of the port table leaves alone. */
    twostate predicate OnlyPorts()
      reads this, processTable, T.ReprOf(processTable), readyQueue, readyQueue.heap
      reads Objects(procs), Mailboxes(procs), MailNodes(procs)
    {
      && procs == old(procs) && processTable == old(processTable)
      && Table.Ok(processTable, order) && Table.Contents(processTable) == old(Table.Contents(processTable))
      && T.ReprOf(processTable) == old(T.ReprOf(processTable)) && ProcessTree() == old(ProcessTree())
      && unchanged(readyQueue) && unchanged(readyQueue.heap)
      && Separate(procs) && Snapshot(procs) == old(Snapshot(procs)) && Belongings(procs) == old(Belongings(procs))
    }

    method FilePort(port: Port)
      requires Table.Ok(processTable, order) && Table.Ok(portTable, order) && Separate(procs)
      requires Table.CanAdd(portTable, port.id, order) && ports == Table.Contents(portTable) && port.id !in ports
      modifies this`portTable, this`ports, T.ReprOf(portTable)
      ensures Table.Ok(portTable, order) && fresh(T.ReprOf(portTable) - old(T.ReprOf(portTable)))
      ensures ports == old(ports)[port.id := port] && ports == Table.Contents(portTable)
      ensures PortTree() == A.Insert(old(PortTree()), port.id, port, order)
      ensures OnlyPorts()
    {
      hide Table.Ok, Table.Contents, Snapshot, Separate, Belongings;
      ghost var mine: set<object>, theirs: set<object> := T.ReprOf(portTable), T.ReprOf(processTable);
      ghost var objects: set<object> := Objects(procs);
      assert mine !! theirs && mine !! objects && mine !! Mail();
      portTable := Table.Add(portTable, port.id, port, order);
      ports := ports[port.id := port];
      assert Separate(procs) && Snapshot(procs) == old(Snapshot(procs)) && Belongings(procs) == old(Belongings(procs));
      assert Table.Ok(processTable, order) && T.ReprOf(processTable) == old(T.ReprOf(processTable));
    }

    /** Files a port in the port table. */
    method AddPort(port: Port)
      requires Wf() && port.id !in Abs().ports && Table.CanAdd(portTable, port.id, order)
      modifies this`portTable, this`ports, T.ReprOf(portTable)
      ensures Wf() && Abs() == old(Abs()).(ports := old(Abs()).ports[port.id := port.ownerPid])
      ensures PortTree() == A.Insert(old(PortTree()), port.id, port, order) && ProcessTree() == old(ProcessTree())
      ensures forall o <- Repr() :: o in old(Repr()) || fresh(o)
      ensures unchanged(readyQueue) && unchanged(readyQueue.heap)
    {
      hide Table.Ok, Table.Contents, Snapshot, Separate, AllLive, Pids, Owners, Belongings;
      OwnersChange(ports, port);
      FilePort(port);
    }

    method UnfilePort(port: Port)
      requires Table.Ok(processTable, order) && Table.Ok(portTable, order) && Separate(procs)
      requires ports == Table.Contents(portTable)
      modifies this`portTable, this`ports, T.ReprOf(portTable)
      ensures Table.Ok(portTable, order) && T.ReprOf(portTable) <= old(T.ReprOf(portTable))
      ensures PortTree() == A.Remove(old(PortTree()), port.id, order)
      ensures ports == old(ports) - {port.id} && ports == Table.Contents(portTable)
      ensures OnlyPorts()
    {
      hide Table.Ok, Table.Contents, Snapshot, Separate, Belongings;
      ghost var mine: set<object>, theirs: set<object> := T.ReprOf(portTable), T.ReprOf(processTable);
      ghost var objects: set<object> := Objects(procs);
      assert mine !! theirs && mine !! objects && mine !! Mail();
      portTable := Table.Drop(portTable, port.id, order);
      ports := ports - {port.id};
      assert Separate(procs) && Snapshot(procs) == old(Snapshot(procs)) && Belongings(procs) == old(Belongings(procs));
      assert Table.Ok(processTable, order) && T.ReprOf(processTable) == old(T.ReprOf(processTable));
    }

    /** Takes a port out of the port table. */
    method DropPort(port: Port)
      requires Wf()
      modifies this`portTable, this`ports, T.ReprOf(portTable)
      ensures Wf() && Abs() == old(Abs()).(ports := old(Abs()).ports - {port.id}) && Repr() <= old(Repr())
      ensures ProcessTree() == old(ProcessTree()) && PortTree() == A.Remove(old(PortTree()), port.id, order)
      ensures unchanged(readyQueue) && unchanged(readyQueue.heap)
    {
      hide Table.Ok, Table.Contents, Snapshot, Separate, AllLive, Pids, Owners, Belongings;
      OwnersChange(ports, port);
      UnfilePort(port);
    }

    /** The port table can take a number, unless it has it already. Child first it always can. */
    ghost predicate CanOpen(id: int)
      reads this, portTable
    {
      order == A.RootFirst && id !in ports ==> Table.CanAdd(portTable, id, A.RootFirst)
    }

    lemma OpeningKeepsAvl(port: Port)
      requires Wf() && A.Avl(PortTree()) && forall q <- Abs().ports :: q < port.id
      ensures A.Avl(A.Insert(PortTree(), port.id, port, order))
    {
      assert forall q <- ports :: q in Abs().ports;
      Table.RisingStaysAvl(PortTree(), port.id, port, order);
    }

    lemma TakesPort(id: int)
      requires Wf() && CanOpen(id)
      ensures id !in Abs().ports ==> Table.CanAdd(portTable, id, order)
    {
      if id !in ports {
        Table.Takes(portTable, id, order);
      }
    }

    /** `kernel_create_port`, its allocation taken to succeed. */
    method CreatePort(id: int) returns (status: Status)
      requires Valid() && activeProcess != null && !halted && CanOpen(id)
      modifies this`portTable, this`ports, T.ReprOf(portTable)
      ensures Valid() && fresh(Repr() - old(Repr()))
      ensures (Abs(), Plain(status)) == S.CreatePort(old(Abs()), id)
      ensures ProcessTree() == old(ProcessTree())
      ensures old(A.Avl(PortTree())) && (forall q <- old(Abs()).ports :: q < id) ==> A.Avl(PortTree())
      ensures old(HeapOrdered()) ==> HeapOrdered()
    {
      hide Wf, Abs, HeapOrdered, Repr, Inv;
      ProcsAre();
      StepKeepsInv(Abs(), OpenPort(id));
      TakesPort(id);
      var found := FindPort(id);
      if found != null {
        return EExists;
      }
      var port := NewPort(id, activeProcess.pid);
      if A.Avl(PortTree()) && forall q <- Abs().ports :: q < id {
        OpeningKeepsAvl(port);
      }
      AddPort(port);
      status := ENone;
    }

    /** `kernel_remove_port`. */
    method RemovePort(id: int) returns (status: Status)
      requires Valid() && activeProcess != null && !halted
      modifies this`portTable, this`ports, T.ReprOf(portTable)
      ensures Valid() && Repr() <= old(Repr())
      ensures (Abs(), Plain(status)) == S.RemovePort(old(Abs()), id)
      ensures ProcessTree() == old(ProcessTree())
      ensures status == ENone ==> PortTree() == A.Remove(old(PortTree()), id, order)
      ensures status != ENone ==> PortTree() == old(PortTree())
      ensures old(HeapOrdered()) ==> HeapOrdered()
    {
      hide Wf, Abs, HeapOrdered, Repr, Inv;
      ProcsAre();
      StepKeepsInv(Abs(), ClosePort(id));
      var port := FindPort(id);
      if port == null {
        return EDoesntExist;
      } else if port.ownerPid != activeProcess.pid {
        return EPerm;
      }
      DropPort(port);
      status := ENone;
    }

    /** The active process starts to wait for a message and leaves the processor. */
    method BlockActive(buffer: Option<int>)
      requires Wf() && activeProcess != null
      modifies this`activeProcess, activeProcess
      ensures Wf() && activeProcess == null && old(Abs()).active.Some? && Repr() == old(Repr())
      ensures old(Abs()).active.value in old(Abs()).procs && Abs() == Block(old(Abs()), buffer)
      ensures var me := old(Abs()).active.value;
              Abs() == old(Abs()).(active := None, procs := old(Abs()).procs[
                me := old(Abs()).procs[me].(state := ProcessRequesting, buffer := buffer)])
      ensures old(HeapOrdered()) ==> HeapOrdered()
    {
      hide Wf, Abs, HeapOrdered, Repr;
      ProcsAre();
      SnapshotAt(activeProcess.pid);
      SetWaiting(activeProcess, buffer, ProcessRequesting);
      SetActive(null);
    }

    /** `receive_message`; `written` is what it copies into the memory of the caller. */
    method ReceiveMessage(buffer: Option<int>, flags: bv32)
      returns (result: Result, written: Option<Delivery>, ghost pick: int)
      requires Valid() && activeProcess != null && !halted
      modifies this`activeProcess, this`halted, Objects(procs), Mailboxes(procs), readyQueue, readyQueue.heap
      ensures Valid() && Repr() == old(Repr())
      ensures Enabled(old(Abs()), Receive(buffer, flags, pick))
      ensures ProcessTree() == old(ProcessTree()) && PortTree() == old(PortTree())
      ensures (Abs(), Outcome(result, written, [])) == S.ReceiveMessage(old(Abs()), buffer, flags, pick)
      ensures old(HeapOrdered()) ==>
                HeapOrdered() && (result == Switched ==> LeastPick(old(Abs()), pick))
    {
      hide Wf, Abs, HeapOrdered, Repr, Inv;
      ProcsAre();
      SnapshotAt(activeProcess.pid);
      pick := AnyPick();
      var waiting := activeProcess.messageQueue.count > 0;
      CountIsMail(activeProcess);
      if waiting {
        ReceiveKeeps(Abs(), buffer, flags, pick);
        var queued := Collect(activeProcess);
        written := Some(Delivery(activeProcess.pid, buffer, queued.value));
        result := Returned(ENone);
      } else if IsAsync(flags) {
        return Returned(EDoesntExist), None, pick;
      } else {
        ghost var before := Abs();
        BlockActive(buffer);
        pick := AdvanceScheduler();
        ReceiveKeeps(before, buffer, flags, pick);
        result, written := Switched, None;
      }
    }

    lemma AnyPick() returns (pick: int)
      requires Wf()
      ensures CanPick(Abs(), pick)
    {
      if p :| p in Abs().ready {
        pick := p;
      } else {
        pick := 0;
        assert forall p :: Abs().ready[p] == 0;
        assert Abs().ready == multiset{};
      }
    }

    lemma CountIsMail(p: Process)
      requires Wf() && p.pid in procs && procs[p.pid] == p
      ensures p.messageQueue.count == |p.messageQueue.Contents|
    {
    }

    // ---------- Termination ----------

    method UnfileProcess(pid: int)
      requires Table.Ok(processTable, order) && Table.Ok(portTable, order) && Separate(procs)
      requires procs == Table.Contents(processTable)
      modifies this`processTable, this`procs, T.ReprOf(processTable)
      ensures Table.Ok(processTable, order) && T.ReprOf(processTable) <= old(T.ReprOf(processTable))
      ensures ProcessTree() == A.Remove(old(ProcessTree()), pid, order)
      ensures procs == old(procs) - {pid} && procs == Table.Contents(processTable)
      ensures OnlyTable(old(procs))
    {
      hide Table.Ok, Table.Contents, Snapshot, Separate;
      ghost var m := procs;
      ghost var mine: set<object>, theirs: set<object> := T.ReprOf(processTable), T.ReprOf(portTable);
      ghost var objects: set<object>, boxes: set<object>, mail: set<object> := Objects(m), Mailboxes(m), MailNodes(m);
      assert mine !! theirs && mine !! objects && mine !! boxes && mine !! mail;
      processTable := Table.Drop(processTable, pid, order);
      procs := procs - {pid};
      assert Separate(m) && Snapshot(m) == old(Snapshot(m)) && Belongings(m) == old(Belongings(m));
      assert Table.Ok(portTable, order) && T.ReprOf(portTable) == old(T.ReprOf(portTable));
    }

    /** `priorityqueue_remove` of a process that has just left the process table. */
    method Unqueue(p: Process, ghost all: map<int, Process>)
      requires QueueOk(all) && p.pid in all && all[p.pid] == p
      requires Pids(readyQueue.Contents())[p.pid] <= 1
      modifies readyQueue, readyQueue.heap
      ensures QueueOk(all - {p.pid})
      ensures Pids(readyQueue.Contents()) == old(Pids(readyQueue.Contents())) - multiset{p.pid}
      ensures old(HeapOrdered()) && EqualPriorities(all) ==> HeapOrdered()
    {
      ghost var es := readyQueue.Contents();
      var status, slot := readyQueue.Remove(p);
      if status == ENone {
        LiveRemove(es, slot, all, p);
      } else {
        LiveAbsent(es, all, p);
      }
    }

    /** `Unqueue` for a process that the table no longer has; the kernel is well-formed again. */
    method UnqueueDetached(p: Process, ghost all: map<int, Process>)
      requires TablesOk() && Separate(procs) && Newcomer(p)
      requires QueueOk(all) && p.pid in all && all[p.pid] == p && procs == all - {p.pid}
      requires activeProcess != null ==> activeProcess.pid in procs && procs[activeProcess.pid] == activeProcess
      requires forall id <- ports :: ports[id].id == id
      requires Pids(readyQueue.Contents())[p.pid] <= 1
      modifies readyQueue, readyQueue.heap
      ensures Wf() && Newcomer(p)
      ensures Abs() == Kernel(old(Snapshot(procs)), Owners(ports), old(Pids(readyQueue.Contents())) - multiset{p.pid},
                              if activeProcess == null then None else Some(activeProcess.pid), nextPid, halted)
      ensures old(HeapOrdered()) && EqualPriorities(all) ==> HeapOrdered()
      ensures Repr() == old(Repr())
    {
      hide Table.Ok, Table.Contents, Snapshot, Separate, AllLive, Pids, Owners, Q.Queue.Valid;
      ghost var nodes: set<object> := p.messageQueue.Nodes;
      assert readyQueue !in Others() && readyQueue.heap !in Others();
      assert readyQueue !in nodes && readyQueue.heap !in nodes;
      Unqueue(p, all);
      assert Table.Ok(processTable, order) && Table.Ok(portTable, order);
      assert Separate(procs) && Snapshot(procs) == old(Snapshot(procs));
    }

    /** Takes a process that is not active out of the table and the ready queue. */
    method Detach(p: Process)
      requires Wf() && p.pid in procs && procs[p.pid] == p && activeProcess != p
      requires Abs().ready[p.pid] <= 1
      modifies this`processTable, this`procs, T.ReprOf(processTable), readyQueue, readyQueue.heap
      ensures Wf() && Newcomer(p)
      ensures Abs() == old(Abs()).(procs := old(Abs()).procs - {p.pid}, ready := old(Abs()).ready - multiset{p.pid})
      ensures Repr() <= old(Repr()) && PortTree() == old(PortTree())
      ensures ProcessTree() == A.Remove(old(ProcessTree()), p.pid, order)
      ensures old(HeapOrdered()) && EqualPriorities(old(procs)) ==> HeapOrdered()
    {
      hide Table.Ok, Table.Contents, Snapshot, Separate, AllLive, Pids, Owners, Q.Queue.Valid, Belongings;
      ghost var all := procs;
      UnfileProcess(p.pid);
      SeparateDrop(all, p.pid);
      BelongingsDrop(all, p.pid);
      OwnQueue(all, p);
      UnqueueDetached(p, all);
    }

    /** Frees the messages of a process that has been detached. */
    method FreeMessages(p: Process) returns (freed: seq<Message>)
      requires Wf() && Newcomer(p)
      modifies p.messageQueue
      ensures Wf() && Abs() == old(Abs()) && Repr() == old(Repr()) && freed == old(p.messageQueue.Contents)
      ensures ProcessTree() == old(ProcessTree()) && PortTree() == old(PortTree())
      ensures old(HeapOrdered()) ==> HeapOrdered()
    {
      hide Table.Ok, Table.Contents, Snapshot, Separate, AllLive, Pids, Owners, Q.Queue.Valid;
      AllAllocated();
      assert p.messageQueue !in TableNodes();
      ghost var boxes, nodes := Mailboxes(procs), MailNodes(procs);
      freed := Q.Drain(p.messageQueue);
      assert forall q <- procs :: procs[q].messageQueue in boxes && procs[q].messageQueue.Nodes <= nodes;
      assert Separate(procs) && Snapshot(procs) == old(Snapshot(procs));
      assert Table.Ok(processTable, order) && Table.Ok(portTable, order);
    }

    lemma AtMostOnceReady(pid: int)
      requires Valid()
      ensures Abs().ready[pid] <= 1
    {
    }

    /** `kernel_terminate_process`; `freed` are the messages that it frees, in the order of its loop. */
    method TerminateProcess(pid: int) returns (status: Status, freed: seq<Message>)
      requires Valid()
      modifies this`activeProcess, this`processTable, this`procs, T.ReprOf(processTable)
      modifies readyQueue, readyQueue.heap, Mailboxes(procs)
      ensures Valid() && Repr() <= old(Repr())
      ensures PortTree() == old(PortTree())
      ensures status == ENone ==> ProcessTree() == A.Remove(old(ProcessTree()), pid, order)
      ensures status != ENone ==> ProcessTree() == old(ProcessTree())
      ensures (Abs(), Outcome(Returned(status), None, freed)) == S.TerminateProcess(old(Abs()), pid)
      ensures old(HeapOrdered()) && EqualPriorities(old(procs)) ==> HeapOrdered()
    {
      hide Wf, Abs, HeapOrdered, Repr, Inv, EqualPriorities, Newcomer, Separate, Snapshot, ProcessTree, PortTree;
      ProcsAre();
      TerminateKeeps(Abs(), pid);
      AtMostOnceReady(pid);
      var process := FindProcess(pid);
      if process == null {
        return EDoesntExist, [];
      }
      if activeProcess == process {
        SetActive(null);
      }
      Detach(process);
      freed := FreeMessages(process);
      status := ENone;
    }
  }
}
