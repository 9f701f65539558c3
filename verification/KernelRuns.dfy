/** What holds over whole runs of the kernel, from its start through any sequence of calls. */
module KernelRuns {
  import opened Types
  import opened KernelSpec

  ghost predicate IsRun(ks: seq<Kernel>, calls: seq<Call>) {
    && |ks| == |calls| + 1
    && ks[0] == Initial()
    && forall i {:trigger calls[i]} | 0 <= i < |calls| ::
         Enabled(ks[i], calls[i]) && ks[i + 1] == Step(ks[i], calls[i]).0
  }

  ghost function OutcomeAt(ks: seq<Kernel>, calls: seq<Call>, i: nat): Outcome
    requires IsRun(ks, calls) && i < |calls|
  {
    Step(ks[i], calls[i]).1
  }

  /** Every reachable state satisfies the invariant. */
  lemma {:induction false} RunInv(ks: seq<Kernel>, calls: seq<Call>, n: nat)
    requires IsRun(ks, calls) && n < |ks|
    ensures Inv(ks[n])
  {
    if n > 0 {
      RunInv(ks, calls, n - 1);
      StepKeepsInv(ks[n - 1], calls[n - 1]);
    }
  }

  // ---------- Nobody is lost ----------

  lemma {:induction false} CountReady(ready: multiset<int>, live: set<int>)
    requires forall p <- ready :: ready[p] == 1 && p in live
    ensures |ready| <= |live|
    decreases |ready|
  {
    if p :| p in ready {
      CountReady(ready - multiset{p}, live - {p});
    } else {
      assert forall p :: ready[p] == 0;
      assert ready == multiset{};
    }
  }

  /** One live process outside the ready queue leaves room in it for one more. */
  lemma {:induction false} OutsiderLeavesRoom(k: Kernel, p: int)
    requires Inv(k) && p in k.procs && p !in k.ready
    ensures |k.ready| < |k.procs|
  {
    CountReady(k.ready, k.procs.Keys - {p});
  }

  lemma WaiterIsNotReady(k: Kernel, p: int)
    requires Inv(k) && p in k.procs && k.procs[p].buffer.Some?
    ensures p !in k.ready
  {
  }

  lemma {:induction false} FewProcessesHaveRoom(k: Kernel, call: Call)
    requires Inv(k) && Enabled(k, call) && |k.procs| <= CAPACITY && |Step(k, call).0.procs| <= CAPACITY
    ensures HasRoom(k, call)
  {
    hide Addressee, SendCall, KernelSpec.ReceiveMessage, KernelSpec.AdvanceScheduler, TerminateProcess, ProcOk;
    CountReady(k.ready, k.procs.Keys);
    match call
    case Spawn(priority, memory) =>
      if memory {
        assert Step(k, call).0.procs.Keys == k.procs.Keys + {k.nextPid};
      }
    case Preempt(pick) =>
      if k.active.Some? { OutsiderLeavesRoom(k, k.active.value); }
    case Send(to, message, flags, memory, node) =>
      var pid := Addressee(k, to, flags);
      if pid.Some? && pid.value in k.procs && k.procs[pid.value].buffer.Some? {
        WaiterIsNotReady(k, pid.value);
        OutsiderLeavesRoom(k, pid.value);
      }
    case _ =>
  }

  /** While at most 512 processes live, no call drops a runnable one. */
  lemma {:induction false} RunLosesNobody(ks: seq<Kernel>, calls: seq<Call>, n: nat)
    requires IsRun(ks, calls) && n < |ks|
    requires forall i | 0 <= i <= n :: |ks[i].procs| <= 512
    ensures NoneLost(ks[n])
  {
    if n > 0 {
      RunLosesNobody(ks, calls, n - 1);
      RunInv(ks, calls, n - 1);
      var k, call, k' := ks[n - 1], calls[n - 1], ks[n];
      assert Enabled(k, call) && k' == Step(k, call).0 && |k'.procs| <= CAPACITY;
      hide *;
      FewProcessesHaveRoom(k, call);
      StepLosesExactly(k, call);
    }
  }

  /** The three places of a process. */
  ghost predicate Partition(k: Kernel) {
    forall p <- k.procs ::
      var active, ready, blocked := k.active == Some(p), k.ready[p] == 1, k.procs[p].state == ProcessRequesting;
      && k.ready[p] <= 1
      && (active || ready || blocked) && !(active && ready) && !(active && blocked) && !(ready && blocked)
  }

  /**
   * While at most 512 processes live, every live process is exactly one of active,
   * once in the ready queue, or blocked and in neither.
   */
  lemma {:induction false} RunPartition(ks: seq<Kernel>, calls: seq<Call>, n: nat)
    requires IsRun(ks, calls) && n < |ks|
    requires forall i | 0 <= i <= n :: |ks[i].procs| <= 512
    ensures Partition(ks[n])
  {
    RunInv(ks, calls, n);
    RunLosesNobody(ks, calls, n);
    forall p <- ks[n].procs
      ensures ks[n].ready[p] <= 1 && (ks[n].ready[p] == 1 <==> p in ks[n].ready)
      ensures ProcOk(ks[n].procs[p])
    {
    }
  }

  /** The scheduler panics only when every live process is blocked in a receive. */
  lemma {:induction false} PanicMeansAllBlocked(ks: seq<Kernel>, calls: seq<Call>, n: nat)
    requires IsRun(ks, calls) && n < |ks| && ks[n].halted
    requires forall i | 0 <= i <= n :: |ks[i].procs| <= 512
    ensures forall p <- ks[n].procs :: ks[n].procs[p].state == ProcessRequesting
  {
    RunInv(ks, calls, n);
    RunLosesNobody(ks, calls, n);
    HaltedIsIdle(ks, calls, n);
    forall p <- ks[n].procs
      ensures ProcOk(ks[n].procs[p]) && p !in ks[n].ready
    {
    }
  }

  lemma {:induction false} HaltedIsIdle(ks: seq<Kernel>, calls: seq<Call>, n: nat)
    requires IsRun(ks, calls) && n < |ks| && ks[n].halted
    ensures ks[n].active == None && ks[n].ready == multiset{}
  {
    if n > 0 {
      assert Enabled(ks[n - 1], calls[n - 1]);
    }
  }

  // ---------- Messages ----------

  ghost function Waiting(k: Kernel, pid: int): seq<Message> {
    if pid in k.procs then k.procs[pid].mail else []
  }

  /**
   * A message as its receiver is to see it: with the number of the sender if it is
   * there waiting with a buffer, and otherwise as the sender made it.
   */
  ghost function Arriving(k: Kernel, pid: int, message: Message): Message
    requires k.active.Some?
  {
    if pid in k.procs && k.procs[pid].buffer.Some? then message.(sender := k.active.value) else message
  }

  ghost function SentBy(k: Kernel, call: Call, pid: int): seq<Message>
    requires Enabled(k, call)
  {
    match call
    case Send(to, message, flags, memory, node) =>
      if Step(k, call).1.result == Returned(ENone) && Addressee(k, to, flags) == Some(pid)
      then [Arriving(k, pid, message)] else []
    case _ => []
  }

  /**
   * The call returns ENONE for a message to `pid` that is neither delivered nor
   * queued, for want of a queue node.
   */
  ghost predicate Loses(k: Kernel, call: Call, pid: int)
    requires Enabled(k, call)
  {
    && call.Send? && !call.node && Addressee(k, call.to, call.flags) == Some(pid)
    && Step(k, call).1.result == Returned(ENone) && Step(k, call).1.delivery == None
  }

  ghost function KeptBy(k: Kernel, call: Call, pid: int): seq<Message>
    requires Enabled(k, call)
  {
    if Loses(k, call, pid) then [] else SentBy(k, call, pid)
  }

  ghost function ReceivedBy(k: Kernel, call: Call, pid: int): seq<Message>
    requires Enabled(k, call)
  {
    var delivery := Step(k, call).1.delivery;
    if delivery.Some? && delivery.value.pid == pid then [delivery.value.message] else []
  }

  ghost function DiscardedBy(k: Kernel, call: Call, pid: int): seq<Message>
    requires Enabled(k, call)
  {
    if call == Terminate(pid) then Step(k, call).1.freed else []
  }

  /** The messages that sends to `pid` have returned ENONE for, oldest first. */
  ghost function Sent(ks: seq<Kernel>, calls: seq<Call>, n: nat, pid: int): seq<Message>
    requires IsRun(ks, calls) && n < |ks|
  {
    if n == 0 then [] else Sent(ks, calls, n - 1, pid) + SentBy(ks[n - 1], calls[n - 1], pid)
  }

  /** Those of them that were not lost. */
  ghost function Kept(ks: seq<Kernel>, calls: seq<Call>, n: nat, pid: int): seq<Message>
    requires IsRun(ks, calls) && n < |ks|
  {
    if n == 0 then [] else Kept(ks, calls, n - 1, pid) + KeptBy(ks[n - 1], calls[n - 1], pid)
  }

  /** The messages that have been copied into the memory of `pid`, oldest first. */
  ghost function Received(ks: seq<Kernel>, calls: seq<Call>, n: nat, pid: int): seq<Message>
    requires IsRun(ks, calls) && n < |ks|
  {
    if n == 0 then [] else Received(ks, calls, n - 1, pid) + ReceivedBy(ks[n - 1], calls[n - 1], pid)
  }

  /** The messages that were freed unread when `pid` was terminated. */
  ghost function Discarded(ks: seq<Kernel>, calls: seq<Call>, n: nat, pid: int): seq<Message>
    requires IsRun(ks, calls) && n < |ks|
  {
    if n == 0 then [] else Discarded(ks, calls, n - 1, pid) + DiscardedBy(ks[n - 1], calls[n - 1], pid)
  }

  /** What one call does to the messages of one process. */
  ghost predicate Conserves(k: Kernel, call: Call, pid: int)
    requires Enabled(k, call)
  {
    var k' := Step(k, call).0;
    && ReceivedBy(k, call, pid) + DiscardedBy(k, call, pid) + Waiting(k', pid)
       == Waiting(k, pid) + KeptBy(k, call, pid)
    && (ReceivedBy(k, call, pid) != [] ==> pid in k.procs && DiscardedBy(k, call, pid) == [])
    && (SentBy(k, call, pid) != [] ==> pid in k.procs)
    && (DiscardedBy(k, call, pid) != [] ==> pid in k.procs && pid !in k'.procs)
    && (pid in k'.procs ==> pid in k.procs || pid >= k.nextPid)
    && k.nextPid <= k'.nextPid
  }

  lemma {:induction false} SchedulingKeepsMail(k: Kernel, pick: int)
    ensures AdvanceScheduler(k, pick).procs == k.procs && AdvanceScheduler(k, pick).nextPid == k.nextPid
  {
  }

  /** A message that is delivered at once goes to a receiver without mail. */
  lemma {:induction false} DirectConserves(
      k: Kernel, to: int, message: Message, flags: bv32, memory: bool, node: bool, pid: int)
    requires Inv(k) && k.active.Some? && !k.halted && !BadFlags(flags)
    requires var dest := Recipient(k, to, flags); dest in k.procs && k.procs[dest].buffer.Some?
    ensures Conserves(k, Send(to, message, flags, memory, node), pid)
  {
    hide BadFlags, ToPort, PortOwner, Addressee;
    AddresseeIsRecipient(k, to, flags);
  }

  /** A message that is not goes to the end of the mail. */
  lemma {:induction false} QueuedConserves(
      k: Kernel, to: int, message: Message, flags: bv32, memory: bool, node: bool, pid: int)
    requires Inv(k) && k.active.Some? && !k.halted && !BadFlags(flags)
    requires var dest := Recipient(k, to, flags); dest in k.procs && k.procs[dest].buffer.None?
    ensures Conserves(k, Send(to, message, flags, memory, node), pid)
  {
    hide BadFlags, ToPort, PortOwner, Addressee;
    AddresseeIsRecipient(k, to, flags);
  }

  lemma {:induction false} SendConserves(
      k: Kernel, to: int, message: Message, flags: bv32, memory: bool, node: bool, pid: int)
    requires Inv(k) && k.active.Some? && !k.halted
    ensures Conserves(k, Send(to, message, flags, memory, node), pid)
  {
    hide BadFlags, ToPort, PortOwner, Addressee, Inv;
    var dest := Recipient(k, to, flags);
    if BadFlags(flags) || dest !in k.procs {
      assert Step(k, Send(to, message, flags, memory, node)).0 == k;
    } else if k.procs[dest].buffer.Some? {
      DirectConserves(k, to, message, flags, memory, node, pid);
    } else {
      QueuedConserves(k, to, message, flags, memory, node, pid);
    }
  }

  lemma {:induction false} ReceiveConserves(k: Kernel, buffer: Option<int>, flags: bv32, pick: int, pid: int)
    requires Inv(k) && Enabled(k, Receive(buffer, flags, pick))
    ensures Conserves(k, Receive(buffer, flags, pick), pid)
  {
    hide KernelSpec.AdvanceScheduler, IsAsync, Addressee, ProcOk, CanPick;
    var me := k.active.value;
    var mail := k.procs[me].mail;
    var call := Receive(buffer, flags, pick);
    if mail != [] {
      assert mail == [mail[0]] + mail[1..];
    } else if !IsAsync(flags) {
      SchedulingKeepsMail(Block(k, buffer), pick);
      assert Waiting(Step(k, call).0, pid) == Waiting(k, pid);
      assert ReceivedBy(k, call, pid) == SentBy(k, call, pid) == DiscardedBy(k, call, pid) == [];
    }
  }

  lemma {:induction false} SpawnConserves(k: Kernel, priority: int, memory: bool, pid: int)
    requires Inv(k) && !k.halted
    ensures Conserves(k, Spawn(priority, memory), pid)
  {
  }

  lemma {:induction false} TerminateConserves(k: Kernel, target: int, pid: int)
    requires Inv(k) && !k.halted
    ensures Conserves(k, Terminate(target), pid)
  {
  }

  lemma {:induction false} UntouchedConserves(k: Kernel, call: Call, pid: int)
    requires Enabled(k, call) && (call.Preempt? || call.OpenPort? || call.ClosePort?)
    requires Step(k, call).0.procs == k.procs && Step(k, call).0.nextPid == k.nextPid
    ensures Conserves(k, call, pid)
  {
  }

  lemma {:induction false} StepConserves(k: Kernel, call: Call, pid: int)
    requires Inv(k) && Enabled(k, call)
    ensures Conserves(k, call, pid)
  {
    match call
    case Send(to, message, flags, memory, node) => SendConserves(k, to, message, flags, memory, node, pid);
    case Receive(buffer, flags, pick) => ReceiveConserves(k, buffer, flags, pick, pid);
    case Preempt(pick) => SchedulingKeepsMail(k, pick); UntouchedConserves(k, call, pid);
    case Spawn(priority, memory) => SpawnConserves(k, priority, memory, pid);
    case Terminate(target) => TerminateConserves(k, target, pid);
    case OpenPort(port) => UntouchedConserves(k, call, pid);
    case ClosePort(port) => UntouchedConserves(k, call, pid);
  }

  /**
   * Message conservation and order, for every process number and every run: what
   * was received, then what was discarded, then what still waits is exactly what
   * was sent with success and not lost, in order, whichever path each message took.
   */
  lemma {:induction false} KeptIsConserved(ks: seq<Kernel>, calls: seq<Call>, n: nat, pid: int)
    requires IsRun(ks, calls) && n < |ks|
    ensures Received(ks, calls, n, pid) + Discarded(ks, calls, n, pid) + Waiting(ks[n], pid)
            == Kept(ks, calls, n, pid)
    ensures pid in ks[n].procs || pid >= ks[n].nextPid ==> Discarded(ks, calls, n, pid) == []
  {
    hide *;
    if n == 0 {
      HistoryStarts(ks, calls, pid);
    } else {
      HistoryGrows(ks, calls, n, pid);
      RunInv(ks, calls, n - 1);
      KeptIsConserved(ks, calls, n - 1, pid);
      StepAccumulates(ks[n - 1], calls[n - 1], pid, Received(ks, calls, n - 1, pid),
                      Discarded(ks, calls, n - 1, pid), Kept(ks, calls, n - 1, pid));
    }
  }

  lemma {:induction false} HistoryStarts(ks: seq<Kernel>, calls: seq<Call>, pid: int)
    requires IsRun(ks, calls)
    ensures Received(ks, calls, 0, pid) == Discarded(ks, calls, 0, pid) == Kept(ks, calls, 0, pid) == []
    ensures Waiting(ks[0], pid) == []
  {
  }

  lemma {:induction false} HistoryGrows(ks: seq<Kernel>, calls: seq<Call>, n: nat, pid: int)
    requires IsRun(ks, calls) && 0 < n < |ks|
    ensures n <= |calls| && Enabled(ks[n - 1], calls[n - 1]) && ks[n] == Step(ks[n - 1], calls[n - 1]).0
    ensures Received(ks, calls, n, pid) == Received(ks, calls, n - 1, pid) + ReceivedBy(ks[n - 1], calls[n - 1], pid)
    ensures Discarded(ks, calls, n, pid) == Discarded(ks, calls, n - 1, pid) + DiscardedBy(ks[n - 1], calls[n - 1], pid)
    ensures Kept(ks, calls, n, pid) == Kept(ks, calls, n - 1, pid) + KeptBy(ks[n - 1], calls[n - 1], pid)
  {
    hide Step, Enabled, ReceivedBy, DiscardedBy, KeptBy;
  }

  lemma {:induction false} StepAccumulates(
      k: Kernel, call: Call, pid: int, received: seq<Message>, discarded: seq<Message>, kept: seq<Message>)
    requires Inv(k) && Enabled(k, call)
    requires received + discarded + Waiting(k, pid) == kept
    requires pid in k.procs || pid >= k.nextPid ==> discarded == []
    ensures var k' := Step(k, call).0;
            && (received + ReceivedBy(k, call, pid)) + (discarded + DiscardedBy(k, call, pid)) + Waiting(k', pid)
               == kept + KeptBy(k, call, pid)
            && (pid in k'.procs || pid >= k'.nextPid ==> discarded + DiscardedBy(k, call, pid) == [])
  {
    hide Step, Enabled, Waiting, ReceivedBy, DiscardedBy, KeptBy, ProcOk;
    StepConserves(k, call, pid);
    Rearrange(received, discarded, ReceivedBy(k, call, pid), DiscardedBy(k, call, pid),
              Waiting(Step(k, call).0, pid), Waiting(k, pid), KeptBy(k, call, pid));
  }

  lemma {:induction false} Rearrange<T>(R: seq<T>, D: seq<T>, r: seq<T>, d: seq<T>, w': seq<T>, w: seq<T>, s: seq<T>)
    requires r + d + w' == w + s && (r != [] ==> D == [] && d == [])
    ensures (R + r) + (D + d) + w' == R + D + w + s
  {
    if r == [] {
      assert d + w' == w + s;
      assert (R + r) + (D + d) + w' == R + D + (d + w');
    } else {
      assert (R + r) + (D + d) + w' == R + (r + d + w');
    }
    assert R + D + w + s == R + D + (w + s);
  }

  /** What was kept is all that was sent unless something was lost, and then it is shorter. */
  lemma {:induction false} KeptOrLost(ks: seq<Kernel>, calls: seq<Call>, n: nat, pid: int)
    requires IsRun(ks, calls) && n < |ks|
    ensures if forall i | 0 <= i < n :: !Loses(ks[i], calls[i], pid)
            then Kept(ks, calls, n, pid) == Sent(ks, calls, n, pid)
            else |Kept(ks, calls, n, pid)| < |Sent(ks, calls, n, pid)|
    decreases n
  {
    hide Step, Enabled, Loses, SentBy;
    if n > 0 {
      var k, call := ks[n - 1], calls[n - 1];
      KeptOrLost(ks, calls, n - 1, pid);
      LostWasSent(k, call, pid);
    }
  }

  lemma {:induction false} LostWasSent(k: Kernel, call: Call, pid: int)
    requires Enabled(k, call)
    ensures Loses(k, call, pid) ==> |SentBy(k, call, pid)| == 1
  {
  }

  /**
   * Messages are conserved in order if and only if no queue node was wanting: for
   * every process number and every run, what was received, then what was discarded,
   * then what still waits is exactly what was sent with success.
   */
  lemma {:induction false} Conservation(ks: seq<Kernel>, calls: seq<Call>, n: nat, pid: int)
    requires IsRun(ks, calls) && n < |ks|
    ensures Received(ks, calls, n, pid) + Discarded(ks, calls, n, pid) + Waiting(ks[n], pid) == Sent(ks, calls, n, pid)
            <==> forall i | 0 <= i < n :: !Loses(ks[i], calls[i], pid)
    ensures pid in ks[n].procs || pid >= ks[n].nextPid ==> Discarded(ks, calls, n, pid) == []
  {
    KeptIsConserved(ks, calls, n, pid);
    KeptOrLost(ks, calls, n, pid);
  }

  // ---------- Process numbers ----------

  lemma {:induction false} StepOnProcs(k: Kernel, call: Call)
    requires Inv(k) && Enabled(k, call)
    ensures var k' := Step(k, call).0;
            k.nextPid <= k'.nextPid && forall p <- k'.procs :: p in k.procs || p >= k.nextPid
  {
    forall p <- Step(k, call).0.procs
      ensures p in k.procs || p >= k.nextPid
    {
      StepConserves(k, call, p);
    }
    StepConserves(k, call, 0);
  }

  /** A process number that has been given out and is dead stays dead: numbers are never reused. */
  lemma {:induction false} DeadStaysDead(ks: seq<Kernel>, calls: seq<Call>, n: nat, m: nat, pid: int)
    requires IsRun(ks, calls) && n <= m < |ks|
    requires pid < ks[n].nextPid && pid !in ks[n].procs
    ensures pid < ks[m].nextPid && pid !in ks[m].procs
    decreases m - n
  {
    if n < m {
      RunInv(ks, calls, n);
      StepOnProcs(ks[n], calls[n]);
      DeadStaysDead(ks, calls, n + 1, m, pid);
    }
  }

  /** Termination leaves no trace of the process: no table entry, ready slot or active slot names it. */
  lemma {:induction false} TerminationIsFinal(ks: seq<Kernel>, calls: seq<Call>, n: nat, m: nat, pid: int)
    requires IsRun(ks, calls) && n < m < |ks| && calls[n] == Terminate(pid)
    requires OutcomeAt(ks, calls, n).result == Returned(ENone)
    ensures pid !in ks[m].procs && pid !in ks[m].ready && ks[m].active != Some(pid)
  {
    RunInv(ks, calls, n);
    RunInv(ks, calls, m);
    assert pid < ks[n + 1].nextPid && pid !in ks[n + 1].procs;
    DeadStaysDead(ks, calls, n + 1, m, pid);
  }

  /** A process that blocks with a null buffer is never woken: it stays blocked until it is terminated. */
  lemma {:induction false} NullReceiverSticks(ks: seq<Kernel>, calls: seq<Call>, n: nat, m: nat, pid: int)
    requires IsRun(ks, calls) && n <= m < |ks|
    requires pid in ks[n].procs && ks[n].procs[pid].state == ProcessRequesting && ks[n].procs[pid].buffer == None
    ensures pid in ks[m].procs ==>
              ks[m].procs[pid].state == ProcessRequesting && ks[m].procs[pid].buffer == None
    decreases m - n
  {
    if n < m {
      RunInv(ks, calls, n);
      StepOnBlocked(ks[n], calls[n], pid);
      if pid in ks[n + 1].procs {
        NullReceiverSticks(ks, calls, n + 1, m, pid);
      } else {
        StepOnProcs(ks[n], calls[n]);
        DeadStaysDead(ks, calls, n + 1, m, pid);
      }
    }
  }

  /** A send to `pid` that returns ENONE. */
  ghost predicate Reaches(ks: seq<Kernel>, calls: seq<Call>, i: nat, pid: int)
    requires IsRun(ks, calls) && i < |calls|
  {
    && calls[i].Send? && Addressee(ks[i], calls[i].to, calls[i].flags) == Some(pid)
    && OutcomeAt(ks, calls, i).result == Returned(ENone)
  }

  /** A blocked process stays exactly as it is until a send reaches it or it is terminated. */
  lemma {:induction false} BlockedWaits(ks: seq<Kernel>, calls: seq<Call>, n: nat, m: nat, pid: int)
    requires IsRun(ks, calls) && n <= m < |ks|
    requires pid in ks[n].procs && ks[n].procs[pid].state == ProcessRequesting
    requires forall i | n <= i < m :: !Reaches(ks, calls, i, pid)
    ensures pid in ks[m].procs ==>
              ks[m].procs[pid].state == ProcessRequesting && ks[m].procs[pid].buffer == ks[n].procs[pid].buffer
    decreases m - n
  {
    if n < m {
      RunInv(ks, calls, n);
      assert Enabled(ks[n], calls[n]) && ks[n + 1] == Step(ks[n], calls[n]).0 && !Reaches(ks, calls, n, pid);
      StepPastBlocked(ks[n], calls[n], pid);
      if pid in ks[n + 1].procs {
        BlockedWaits(ks, calls, n + 1, m, pid);
      } else {
        StepOnProcs(ks[n], calls[n]);
        DeadStaysDead(ks, calls, n + 1, m, pid);
      }
    }
  }

  lemma {:induction false} StepPastBlocked(k: Kernel, call: Call, pid: int)
    requires Inv(k) && Enabled(k, call)
    requires pid in k.procs && k.procs[pid].state == ProcessRequesting
    requires call.Send? && Addressee(k, call.to, call.flags) == Some(pid) ==> Step(k, call).1.result != Returned(ENone)
    ensures var k' := Step(k, call).0;
            pid in k'.procs ==> k'.procs[pid].state == ProcessRequesting && k'.procs[pid].buffer == k.procs[pid].buffer
  {
    assert k.active != Some(pid) && pid < k.nextPid;
    match call
    case Send(to, message, flags, memory, node) => SendPastBlocked(k, to, message, flags, memory, node, pid);
    case Preempt(pick) => SchedulingKeepsMail(k, pick);
    case Receive(buffer, flags, pick) => SchedulingKeepsMail(Block(k, buffer), pick);
    case _ =>
  }

  lemma {:induction false} SendPastBlocked(
      k: Kernel, to: int, message: Message, flags: bv32, memory: bool, node: bool, pid: int)
    requires Inv(k) && Enabled(k, Send(to, message, flags, memory, node)) && pid in k.procs
    requires Addressee(k, to, flags) == Some(pid)
        ==> Step(k, Send(to, message, flags, memory, node)).1.result != Returned(ENone)
    ensures var k' := Step(k, Send(to, message, flags, memory, node)).0;
            pid in k'.procs && k'.procs[pid] == k.procs[pid]
  {
    hide BadFlags, ToPort, PortOwner, Addressee, Inv;
    AddresseeIsRecipient(k, to, flags);
  }

  lemma {:induction false} SendOnBlocked(
      k: Kernel, to: int, message: Message, flags: bv32, memory: bool, node: bool, pid: int)
    requires Enabled(k, Send(to, message, flags, memory, node))
    requires pid in k.procs && k.procs[pid].buffer == None
    ensures var k' := Step(k, Send(to, message, flags, memory, node)).0;
            pid in k'.procs && k'.procs[pid].state == k.procs[pid].state && k'.procs[pid].buffer == None
  {
  }

  lemma {:induction false} StepOnBlocked(k: Kernel, call: Call, pid: int)
    requires Inv(k) && Enabled(k, call)
    requires pid in k.procs && k.procs[pid].state == ProcessRequesting && k.procs[pid].buffer == None
    ensures var k' := Step(k, call).0;
            pid in k'.procs ==> k'.procs[pid].state == ProcessRequesting && k'.procs[pid].buffer == None
  {
    assert k.active != Some(pid) && pid < k.nextPid;
    match call
    case Send(to, message, flags, memory, node) => SendOnBlocked(k, to, message, flags, memory, node, pid);
    case Preempt(pick) => SchedulingKeepsMail(k, pick);
    case Receive(buffer, flags, pick) => SchedulingKeepsMail(Block(k, buffer), pick);
    case _ =>
  }

  // ---------- Ports ----------

  ghost predicate Closes(ks: seq<Kernel>, calls: seq<Call>, i: nat, port: int)
    requires IsRun(ks, calls) && i < |calls|
  {
    calls[i] == ClosePort(port) && OutcomeAt(ks, calls, i).result == Returned(ENone)
  }

  lemma {:induction false} EnqueueTouchesNoPorts(k: Kernel, pid: int)
    ensures Enqueue(k, pid).ports == k.ports
  {
  }

  lemma {:induction false} SchedulingTouchesNoPorts(k: Kernel, pick: int)
    ensures KernelSpec.AdvanceScheduler(k, pick).ports == k.ports
  {
  }

  lemma {:induction false} SendTouchesNoPorts(
      k: Kernel, to: int, message: Message, flags: bv32, memory: bool, node: bool)
    requires k.active.Some?
    ensures SendCall(k, to, message, flags, memory, node).0.ports == k.ports
  {
    hide Enqueue, BadFlags, ToPort, PortOwner;
    var pid := Recipient(k, to, flags);
    if pid in k.procs {
      EnqueueTouchesNoPorts(k.(procs := k.procs[pid := k.procs[pid].(buffer := None, state := ProcessActive)]), pid);
    }
  }

  lemma {:induction false} OnlyPortCallsTouchPorts(k: Kernel, call: Call)
    requires Enabled(k, call) && !call.OpenPort? && !call.ClosePort?
    ensures Step(k, call).0.ports == k.ports
  {
    hide SendCall, KernelSpec.AdvanceScheduler;
    match call
    case Send(to, message, flags, memory, node) => SendTouchesNoPorts(k, to, message, flags, memory, node);
    case Receive(buffer, flags, pick) => SchedulingTouchesNoPorts(Block(k, buffer), pick);
    case Preempt(pick) => SchedulingTouchesNoPorts(k, pick);
    case _ =>
  }

  lemma {:induction false} StepOnPort(k: Kernel, call: Call, port: int)
    requires Enabled(k, call) && port in k.ports
    ensures var (k', out) := Step(k, call);
            if call == ClosePort(port) && out.result == Returned(ENone)
            then k.active == Some(k.ports[port]) && port !in k'.ports
            else port in k'.ports && k'.ports[port] == k.ports[port]
  {
    hide SendCall, SpawnProcess, ReceiveMessage, KernelSpec.AdvanceScheduler, TerminateProcess, Enqueue;
    if !call.OpenPort? && !call.ClosePort? {
      OnlyPortCallsTouchPorts(k, call);
    }
  }

  /** An open port keeps its owner until a close of it succeeds, and only its owner's close does. */
  lemma {:induction false} OwnerStays(ks: seq<Kernel>, calls: seq<Call>, n: nat, m: nat, port: int)
    requires IsRun(ks, calls) && n <= m < |ks| && port in ks[n].ports
    ensures (port in ks[m].ports && ks[m].ports[port] == ks[n].ports[port])
            || exists i | n <= i < m :: Closes(ks, calls, i, port) && ks[i].active == Some(ks[n].ports[port])
    decreases m - n
  {
    if n < m {
      StepOnPort(ks[n], calls[n], port);
      if Closes(ks, calls, n, port) {
        assert ks[n].active == Some(ks[n].ports[port]);
      } else {
        OwnerStays(ks, calls, n + 1, m, port);
      }
    }
  }

  lemma {:induction false} NextPidGrows(ks: seq<Kernel>, calls: seq<Call>, n: nat, m: nat)
    requires IsRun(ks, calls) && n <= m < |ks|
    ensures ks[n].nextPid <= ks[m].nextPid
    decreases m - n
  {
    if n < m {
      RunInv(ks, calls, n);
      StepOnProcs(ks[n], calls[n]);
      NextPidGrows(ks, calls, n + 1, m);
    }
  }
}
