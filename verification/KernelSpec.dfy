/**
 * The processes, ports and messages of `kernel.c` as an abstract machine: tables
 * are maps from numbers, the ready queue is a multiset of process numbers and a
 * message queue is a sequence. Each kernel call is a function on that state.
 */
module KernelSpec {
  import opened Types

  /** What a sender hands over; the kernel overwrites only the sender field, on one path. */
  datatype Payload = Payload(code: int, args: seq<int>)
  datatype Message = Message(sender: int, payload: Payload)

  datatype ProcState = ProcessActive | ProcessRequesting | ProcessSending

  /** `buffer` is where a receive waits to be filled; `None` is the null pointer. */
  datatype Proc = Proc(priority: int, state: ProcState, buffer: Option<int>, mail: seq<Message>)

  datatype Kernel = Kernel(
    procs: map<int, Proc>, ports: map<int, int>, ready: multiset<int>,
    active: Option<int>, nextPid: int, halted: bool)

  /** A message copied into the memory of a process, at the address that its receive named. */
  datatype Delivery = Delivery(pid: int, address: Option<int>, message: Message)

  datatype Call =
    | Spawn(priority: int, memory: bool)
    | Preempt(pick: int)
    | Send(to: int, message: Message, flags: bv32, memory: bool, node: bool)
    | Receive(buffer: Option<int>, flags: bv32, pick: int)
    | Terminate(pid: int)
    | OpenPort(port: int)
    | ClosePort(port: int)

  /** A call returns a status or a process number, or gives the processor away. */
  datatype Result = Returned(status: Status) | Pid(pid: int) | Switched

  datatype Outcome = Outcome(result: Result, delivery: Option<Delivery>, freed: seq<Message>)

  /** The size that `kernel_initialize` gives to the ready queue. */
  const CAPACITY := 512

  const IO_OP: bv32 := 1
  const IO_ASYNC: bv32 := 1
  const IO_RECIPIENT_TYPE: bv32 := 6
  const IO_PORT: bv32 := 2
  const IO_MAILBOX: bv32 := 4

  function Plain(status: Status): Outcome {
    Outcome(Returned(status), None, [])
  }

  // ---------- The calls ----------

  function Initial(): Kernel {
    Kernel(map[], map[], multiset{}, None, 1, false)
  }

  /** `priorityqueue_insert` with its status ignored, as every caller does. */
  function Enqueue(k: Kernel, pid: int): Kernel {
    if |k.ready| == CAPACITY then k else k.(ready := k.ready + multiset{pid})
  }

  /** `memory` says whether the allocations of the call succeed. */
  function SpawnProcess(k: Kernel, priority: int, memory: bool): (Kernel, Outcome) {
    if !memory then (k, Outcome(Pid(0), None, []))
    else
      var proc := Proc(priority, ProcessActive, None, []);
      var k' := Enqueue(k.(procs := k.procs[k.nextPid := proc]), k.nextPid);
      (k'.(nextPid := k.nextPid + 1), Outcome(Pid(k.nextPid), None, []))
  }

  function Requeue(k: Kernel): Kernel {
    if k.active.Some? then Enqueue(k, k.active.value) else k
  }

  /** The rest of `kernel_advance_scheduler`; with nothing to run it panics. */
  function Dispatch(k: Kernel, pick: int): Kernel {
    if k.ready == multiset{} then k.(active := None, halted := true)
    else k.(ready := k.ready - multiset{pick}, active := Some(pick))
  }

  predicate CanPick(k: Kernel, pick: int) {
    k.ready == multiset{} || pick in k.ready
  }

  /** The pick has the least priority number of all processes that are ready. */
  predicate LeastPick(k: Kernel, pick: int) {
    forall q <- k.ready :: pick in k.procs && q in k.procs && k.procs[pick].priority <= k.procs[q].priority
  }

  function AdvanceScheduler(k: Kernel, pick: int): Kernel {
    Dispatch(Requeue(k), pick)
  }

  function TerminateProcess(k: Kernel, pid: int): (Kernel, Outcome) {
    if pid !in k.procs then (k, Plain(EDoesntExist))
    else
      (k.(active := if k.active == Some(pid) then None else k.active,
          procs := k.procs - {pid}, ready := k.ready - multiset{pid}),
       Outcome(Returned(ENone), None, k.procs[pid].mail))
  }

  function CreatePort(k: Kernel, port: int): (Kernel, Outcome)
    requires k.active.Some?
  {
    if port in k.ports then (k, Plain(EExists))
    else (k.(ports := k.ports[port := k.active.value]), Plain(ENone))
  }

  function RemovePort(k: Kernel, port: int): (Kernel, Outcome)
    requires k.active.Some?
  {
    if port !in k.ports then (k, Plain(EDoesntExist))
    else if k.ports[port] != k.active.value then (k, Plain(EPerm))
    else (k.(ports := k.ports - {port}), Plain(ENone))
  }

  function PortOwner(k: Kernel, port: int): int {
    if port in k.ports then k.ports[port] else 0
  }

  /** A receiver that waits with a buffer gets the message at once; the sender field is stamped. */
  function SendMessage(k: Kernel, to: int, message: Message): (Kernel, Outcome)
    requires k.active.Some?
  {
    if to !in k.procs then (k, Plain(EDoesntExist))
    else if k.procs[to].buffer.Some? && k.procs[to].state == ProcessRequesting then
      var stamped := message.(sender := k.active.value);
      (Enqueue(k.(procs := k.procs[to := k.procs[to].(buffer := None, state := ProcessActive)]), to),
       Outcome(Returned(ENone), Some(Delivery(to, k.procs[to].buffer, stamped)), []))
    else (k, Plain(EBusy))
  }

  /**
   * The message waits in the queue of its receiver, with the sender field as it was
   * handed in. `memory` says whether there is room for the copy, and `node` whether
   * there is for its queue node; without that the message is lost, since the status
   * of `queue_insert` is ignored.
   */
  function QueueMessage(k: Kernel, to: int, message: Message, memory: bool, node: bool): (Kernel, Outcome) {
    if to !in k.procs then (k, Plain(EDoesntExist))
    else if !memory then (k, Plain(ENoMem))
    else if !node then (k, Plain(ENone))
    else
      (k.(procs := k.procs[to := k.procs[to].(mail := k.procs[to].mail + [message])]), Plain(ENone))
  }

  predicate BadFlags(flags: bv32) {
    flags & !(IO_OP | IO_RECIPIENT_TYPE) != 0 || flags & IO_RECIPIENT_TYPE >= IO_MAILBOX
  }

  predicate ToPort(flags: bv32) {
    flags & IO_RECIPIENT_TYPE == IO_PORT
  }

  /** The process that a send addresses; no process has number 0. */
  function Recipient(k: Kernel, to: int, flags: bv32): int {
    if ToPort(flags) then PortOwner(k, to) else to
  }

  /** The `send` system call. Its operation flag makes no difference. */
  function SendCall(k: Kernel, to: int, message: Message, flags: bv32, memory: bool, node: bool): (Kernel, Outcome)
    requires k.active.Some?
  {
    if BadFlags(flags) then (k, Plain(EInvalidArg))
    else if ToPort(flags) && PortOwner(k, to) == 0 then (k, Plain(EDoesntExist))
    else
      var pid := Recipient(k, to, flags);
      var sent := SendMessage(k, pid, message);
      if sent.1.result == Returned(EBusy) then QueueMessage(sent.0, pid, message, memory, node) else sent
  }

  predicate IsAsync(flags: bv32) {
    flags & IO_OP == IO_ASYNC
  }

  /** Blocks the active process; the scheduler finds no active process to put back. */
  function Block(k: Kernel, buffer: Option<int>): Kernel
    requires k.active.Some? && k.active.value in k.procs
  {
    var me := k.active.value;
    k.(procs := k.procs[me := k.procs[me].(buffer := buffer, state := ProcessRequesting)], active := None)
  }

  function ReceiveMessage(k: Kernel, buffer: Option<int>, flags: bv32, pick: int): (Kernel, Outcome)
    requires k.active.Some? && k.active.value in k.procs
  {
    var me := k.active.value;
    var mail := k.procs[me].mail;
    if mail != [] then
      (k.(procs := k.procs[me := k.procs[me].(mail := mail[1..])]),
       Outcome(Returned(ENone), Some(Delivery(me, buffer, mail[0])), []))
    else if IsAsync(flags) then (k, Plain(EDoesntExist))
    else (AdvanceScheduler(Block(k, buffer), pick), Outcome(Switched, None, []))
  }

  // ---------- Steps ----------

  /** When a call can happen: a panicked kernel does nothing, and system calls have a caller. */
  predicate Enabled(k: Kernel, call: Call) {
    && !k.halted
    && match call
       case Spawn(_, _) => true
       case Preempt(pick) => CanPick(Requeue(k), pick)
       case Receive(buffer, _, pick) =>
         && k.active.Some? && k.active.value in k.procs && CanPick(k, pick)
       case Terminate(_) => true
       case _ => k.active.Some?
  }

  function Step(k: Kernel, call: Call): (Kernel, Outcome)
    requires Enabled(k, call)
  {
    match call
    case Spawn(priority, memory) => SpawnProcess(k, priority, memory)
    case Preempt(pick) => (AdvanceScheduler(k, pick), Outcome(Switched, None, []))
    case Send(to, message, flags, memory, node) => SendCall(k, to, message, flags, memory, node)
    case Receive(buffer, flags, pick) => ReceiveMessage(k, buffer, flags, pick)
    case Terminate(pid) => TerminateProcess(k, pid)
    case OpenPort(port) => CreatePort(k, port)
    case ClosePort(port) => RemovePort(k, port)
  }

  // ---------- Invariants ----------

  ghost predicate ProcOk(p: Proc) {
    && p.state != ProcessSending
    && (p.buffer.Some? ==> p.state == ProcessRequesting)
    && (p.state == ProcessRequesting && p.buffer.Some? ==> p.mail == [])
  }

  /**
   * What every call keeps without any condition: nobody is in two places, the
   * ready queue and the active slot name live runnable processes, and a receiver
   * that waits with a buffer has no mail.
   */
  ghost predicate Inv(k: Kernel) {
    && k.nextPid >= 1
    && (forall p <- k.procs :: 1 <= p < k.nextPid && ProcOk(k.procs[p]))
    && (forall p <- k.ready :: k.ready[p] == 1 && p in k.procs && k.procs[p].state == ProcessActive)
    && (k.active.Some? ==>
          && k.active.value in k.procs && k.active.value !in k.ready
          && k.procs[k.active.value].state == ProcessActive)
    && |k.ready| <= CAPACITY
    && (forall id <- k.ports :: 1 <= k.ports[id] < k.nextPid)
  }

  /** A runnable process is active or in the ready queue: nobody has been dropped. */
  ghost predicate NoneLost(k: Kernel) {
    forall p <- k.procs :: k.procs[p].state == ProcessActive ==> k.active == Some(p) || p in k.ready
  }

  /**
   * The process that a send is meant for, by the values of its flags: 0 and 1 name a
   * process, 2 and 3 an open port, and nothing else is allowed.
   */
  function Addressee(k: Kernel, to: int, flags: bv32): Option<int> {
    if flags <= 1 then Some(to) else if flags <= 3 && to in k.ports then Some(k.ports[to]) else None
  }

  lemma FlagsDecode(flags: bv32)
    ensures BadFlags(flags) <==> flags > 3
    ensures flags <= 3 ==> (ToPort(flags) <==> flags >= 2)
    ensures IsAsync(flags) <==> flags & 1 == 1
  {
  }

  /** The code finds the process that is meant, if that is alive. */
  lemma {:induction false} AddresseeIsRecipient(k: Kernel, to: int, flags: bv32)
    requires Inv(k)
    ensures BadFlags(flags) ==> Addressee(k, to, flags) == None
    ensures var pid := Recipient(k, to, flags);
            !BadFlags(flags) ==>
              if pid in k.procs then Addressee(k, to, flags) == Some(pid)
              else Addressee(k, to, flags) == None || Addressee(k, to, flags).value !in k.procs
  {
    FlagsDecode(flags);
    hide BadFlags, ToPort;
  }

  /** Whether the call finds room for each process that it puts into the ready queue. */
  predicate HasRoom(k: Kernel, call: Call) {
    match call
    case Spawn(_, memory) => memory ==> |k.ready| < 512
    case Preempt(_) => k.active.Some? ==> |k.ready| < 512
    case Send(to, _, flags, _, _) =>
      var pid := Addressee(k, to, flags);
      pid.Some? && pid.value in k.procs && k.procs[pid.value].buffer.Some? ==> |k.ready| < 512
    case _ => true
  }

  lemma {:induction false} EnqueueKeeps(k: Kernel, pid: int)
    requires Inv(k) && pid in k.procs && pid !in k.ready && k.procs[pid].state == ProcessActive
    requires k.active != Some(pid)
    ensures Inv(Enqueue(k, pid))
  {
  }

  lemma {:induction false} DispatchKeeps(k: Kernel, pick: int)
    requires Inv(k.(active := None)) && CanPick(k, pick)
    ensures Inv(Dispatch(k, pick))
  {
  }

  lemma {:induction false} AdvanceKeeps(k: Kernel, pick: int)
    requires Inv(k) && CanPick(Requeue(k), pick)
    ensures Inv(AdvanceScheduler(k, pick))
  {
    if k.active.Some? {
      EnqueueKeeps(k.(active := None), k.active.value);
      assert Requeue(k).(active := None) == Enqueue(k.(active := None), k.active.value);
    }
    DispatchKeeps(Requeue(k), pick);
  }

  function WithNew(k: Kernel, priority: int): Kernel {
    k.(procs := k.procs[k.nextPid := Proc(priority, ProcessActive, None, [])], nextPid := k.nextPid + 1)
  }

  lemma {:induction false} SpawnUnfolds(k: Kernel, priority: int)
    ensures SpawnProcess(k, priority, true).0 == Enqueue(WithNew(k, priority), k.nextPid)
  {
  }

  lemma {:induction false} WithNewKeeps(k: Kernel, priority: int)
    requires Inv(k)
    ensures Inv(WithNew(k, priority)) && k.nextPid !in k.ready && k.active != Some(k.nextPid)
  {
  }

  lemma {:induction false} SpawnKeeps(k: Kernel, priority: int, memory: bool)
    requires Inv(k)
    ensures Inv(SpawnProcess(k, priority, memory).0)
  {
    hide Inv, Enqueue;
    if memory {
      SpawnUnfolds(k, priority);
      WithNewKeeps(k, priority);
      EnqueueKeeps(WithNew(k, priority), k.nextPid);
    }
  }

  function Woken(k: Kernel, pid: int): Kernel
    requires pid in k.procs
  {
    k.(procs := k.procs[pid := k.procs[pid].(buffer := None, state := ProcessActive)])
  }

  /** The three things that a send can do to the state. */
  lemma {:induction false} SendUnfolds(k: Kernel, to: int, message: Message, flags: bv32, memory: bool, node: bool)
    requires Inv(k) && k.active.Some?
    ensures var k', pid := SendCall(k, to, message, flags, memory, node).0, Recipient(k, to, flags);
            if BadFlags(flags) || pid !in k.procs then k' == k
            else if k.procs[pid].buffer.Some? then k' == Enqueue(Woken(k, pid), pid)
            else k' == if memory && node
                       then k.(procs := k.procs[pid := k.procs[pid].(mail := k.procs[pid].mail + [message])])
                       else k
  {
    hide BadFlags, Enqueue;
  }

  lemma {:induction false} WokenKeeps(k: Kernel, pid: int)
    requires Inv(k) && pid in k.procs && k.procs[pid].state == ProcessRequesting
    ensures Inv(Woken(k, pid)) && pid !in k.ready && k.active != Some(pid)
  {
  }

  lemma {:induction false} MailKeeps(k: Kernel, pid: int, message: Message)
    requires Inv(k) && pid in k.procs && k.procs[pid].buffer.None?
    ensures Inv(k.(procs := k.procs[pid := k.procs[pid].(mail := k.procs[pid].mail + [message])]))
  {
  }

  lemma {:induction false} SendKeeps(k: Kernel, to: int, message: Message, flags: bv32, memory: bool, node: bool)
    requires Inv(k) && k.active.Some?
    ensures Inv(SendCall(k, to, message, flags, memory, node).0)
  {
    hide SendCall, Enqueue;
    var pid := Recipient(k, to, flags);
    SendUnfolds(k, to, message, flags, memory, node);
    if !BadFlags(flags) && pid in k.procs {
      if k.procs[pid].buffer.Some? {
        WokenKeeps(k, pid);
        EnqueueKeeps(Woken(k, pid), pid);
      } else {
        MailKeeps(k, pid, message);
      }
    }
  }

  lemma {:induction false} ReceiveKeeps(k: Kernel, buffer: Option<int>, flags: bv32, pick: int)
    requires Inv(k) && Enabled(k, Receive(buffer, flags, pick))
    ensures Inv(ReceiveMessage(k, buffer, flags, pick).0)
  {
    if k.procs[k.active.value].mail == [] && !IsAsync(flags) {
      assert Inv(Block(k, buffer));
      AdvanceKeeps(Block(k, buffer), pick);
    }
  }

  lemma {:induction false} TerminateKeeps(k: Kernel, pid: int)
    requires Inv(k)
    ensures Inv(TerminateProcess(k, pid).0)
  {
  }

  /** Every call keeps the invariant. */
  lemma {:induction false} StepKeepsInv(k: Kernel, call: Call)
    requires Inv(k) && Enabled(k, call)
    ensures Inv(Step(k, call).0)
  {
    match call
    case Spawn(priority, memory) => SpawnKeeps(k, priority, memory);
    case Preempt(pick) => AdvanceKeeps(k, pick);
    case Send(to, message, flags, memory, node) => SendKeeps(k, to, message, flags, memory, node);
    case Receive(buffer, flags, pick) => ReceiveKeeps(k, buffer, flags, pick);
    case Terminate(pid) => TerminateKeeps(k, pid);
    case _ =>
  }

  // Who gets lost, call by call.

  lemma {:induction false} DispatchLosesNone(k: Kernel, pick: int)
    requires Inv(k.(active := None)) && CanPick(k, pick)
    ensures NoneLost(Dispatch(k, pick)) <==> NoneLost(k.(active := None))
  {
  }

  lemma {:induction false} EnqueueLosesExactly(k: Kernel, pid: int)
    requires Inv(k) && pid in k.procs && pid !in k.ready && k.procs[pid].state == ProcessActive
    requires k.active != Some(pid)
    requires forall p <- k.procs | p != pid :: k.procs[p].state == ProcessActive ==> k.active == Some(p) || p in k.ready
    ensures NoneLost(Enqueue(k, pid)) <==> |k.ready| < CAPACITY
  {
  }

  lemma {:induction false} PreemptLosesExactly(k: Kernel, pick: int)
    requires Inv(k) && NoneLost(k) && CanPick(Requeue(k), pick)
    ensures NoneLost(AdvanceScheduler(k, pick)) <==> k.active.None? || |k.ready| < CAPACITY
  {
    AdvanceKeeps(k, pick);
    var idle := k.(active := None);
    if k.active.Some? {
      EnqueueKeeps(idle, k.active.value);
      EnqueueLosesExactly(idle, k.active.value);
      assert Requeue(k).(active := None) == Enqueue(idle, k.active.value);
    }
    DispatchLosesNone(Requeue(k), pick);
  }

  lemma {:induction false} SpawnLosesExactly(k: Kernel, priority: int)
    requires Inv(k) && NoneLost(k)
    ensures NoneLost(SpawnProcess(k, priority, true).0) <==> |k.ready| < CAPACITY
  {
    hide Inv, Enqueue, SpawnProcess;
    SpawnUnfolds(k, priority);
    WithNewKeeps(k, priority);
    EnqueueLosesExactly(WithNew(k, priority), k.nextPid);
  }

  lemma {:induction false} SendLosesExactly(k: Kernel, to: int, message: Message, flags: bv32, memory: bool, node: bool)
    requires Inv(k) && NoneLost(k) && k.active.Some?
    ensures NoneLost(SendCall(k, to, message, flags, memory, node).0)
        <==> HasRoom(k, Send(to, message, flags, memory, node))
  {
    hide SendCall, Enqueue, BadFlags, ToPort, Addressee;
    var pid := Recipient(k, to, flags);
    AddresseeIsRecipient(k, to, flags);
    SendUnfolds(k, to, message, flags, memory, node);
    if !BadFlags(flags) && pid in k.procs && k.procs[pid].buffer.Some? {
      WokenKeeps(k, pid);
      EnqueueLosesExactly(Woken(k, pid), pid);
    }
  }

  lemma {:induction false} ReceiveLosesNone(k: Kernel, buffer: Option<int>, flags: bv32, pick: int)
    requires Inv(k) && NoneLost(k) && Enabled(k, Receive(buffer, flags, pick))
    ensures NoneLost(ReceiveMessage(k, buffer, flags, pick).0)
  {
    hide AdvanceScheduler;
    if k.procs[k.active.value].mail == [] && !IsAsync(flags) {
      BlockKeeps(k, buffer);
      PreemptLosesExactly(Block(k, buffer), pick);
    }
  }

  lemma {:induction false} BlockKeeps(k: Kernel, buffer: Option<int>)
    requires Inv(k) && k.active.Some? && k.procs[k.active.value].mail == []
    ensures Inv(Block(k, buffer)) && (NoneLost(k) ==> NoneLost(Block(k, buffer)))
    ensures Requeue(Block(k, buffer)) == Block(k, buffer) && Block(k, buffer).ready == k.ready
  {
  }

  lemma {:induction false} TerminateLosesNone(k: Kernel, pid: int)
    requires Inv(k) && NoneLost(k)
    ensures NoneLost(TerminateProcess(k, pid).0)
  {
  }

  /**
   * A call drops a runnable process if and only if it puts one into the ready
   * queue while that is full.
   */
  lemma {:induction false} StepLosesExactly(k: Kernel, call: Call)
    requires Inv(k) && NoneLost(k) && Enabled(k, call)
    ensures NoneLost(Step(k, call).0) <==> HasRoom(k, call)
  {
    match call
    case Spawn(priority, memory) => if memory { SpawnLosesExactly(k, priority); }
    case Preempt(pick) => PreemptLosesExactly(k, pick);
    case Send(to, message, flags, memory, node) => SendLosesExactly(k, to, message, flags, memory, node);
    case Receive(buffer, flags, pick) => ReceiveLosesNone(k, buffer, flags, pick);
    case Terminate(pid) => TerminateLosesNone(k, pid);
    case _ =>
  }
}
