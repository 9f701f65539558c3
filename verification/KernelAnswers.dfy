/**
 * What each call answers and does, in terms of its arguments, the state before it
 * and the history of the run: the laws that a caller relies on. None of them names
 * the function of the machine that the call is made of.
 */
module KernelAnswers {
  import opened Types
  import opened KernelSpec
  import opened KernelRuns

  // ---------- Spawning ----------

  /** The call creates process `pid`. */
  ghost predicate Spawns(ks: seq<Kernel>, calls: seq<Call>, i: nat, pid: int)
    requires IsRun(ks, calls) && i < |calls|
  {
    calls[i].Spawn? && OutcomeAt(ks, calls, i).result == Pid(pid) && pid != 0
  }

  /** How many processes have been created. */
  ghost function SpawnCount(ks: seq<Kernel>, calls: seq<Call>, n: nat): nat
    requires IsRun(ks, calls) && n < |ks|
  {
    if n == 0 then 0
    else SpawnCount(ks, calls, n - 1)
         + if calls[n - 1].Spawn? && OutcomeAt(ks, calls, n - 1).result != Pid(0) then 1 else 0
  }

  lemma {:induction false} SendOnNumbers(
      k: Kernel, to: int, message: Message, flags: bv32, memory: bool, node: bool)
    requires Inv(k) && k.active.Some?
    ensures var k' := SendCall(k, to, message, flags, memory, node).0;
            k'.nextPid == k.nextPid && k'.procs.Keys == k.procs.Keys && !(k'.halted && !k.halted)
  {
    hide BadFlags, SendCall, Recipient;
    SendUnfolds(k, to, message, flags, memory, node);
  }

  /** Numbers are given out by spawning, and live processes come and go by spawning and terminating. */
  lemma {:induction false} StepOnNumbers(k: Kernel, call: Call)
    requires Inv(k) && Enabled(k, call)
    ensures var (k', out) := Step(k, call);
            if call.Spawn? && call.memory then
              && out.result == Pid(k.nextPid) && k'.nextPid == k.nextPid + 1
              && k'.procs.Keys == k.procs.Keys + {k.nextPid}
            else if call.Terminate? && call.pid in k.procs then
              k'.nextPid == k.nextPid && k'.procs.Keys == k.procs.Keys - {call.pid} && out.result == Returned(ENone)
            else
              && k'.nextPid == k.nextPid && k'.procs.Keys == k.procs.Keys
              && (call.Spawn? ==> out.result == Pid(0)) && (call.Terminate? ==> out.result == Returned(EDoesntExist))
  {
    hide Inv, SendCall, KernelSpec.AdvanceScheduler, Enqueue;
    match call
    case Send(to, message, flags, memory, node) => SendOnNumbers(k, to, message, flags, memory, node);
    case Preempt(pick) => SchedulingKeepsMail(k, pick);
    case Receive(buffer, flags, pick) => SchedulingKeepsMail(Block(k, buffer), pick);
    case Spawn(priority, memory) =>
      if memory {
        SpawnUnfolds(k, priority);
        EnqueueOnTables(WithNew(k, priority), k.nextPid);
      }
    case _ =>
  }

  lemma {:induction false} EnqueueOnTables(k: Kernel, pid: int)
    ensures var k' := Enqueue(k, pid); k'.procs == k.procs && k'.nextPid == k.nextPid
  {
  }

  /** The next number is one more than there were processes created. */
  lemma {:induction false} NumbersAreCounted(ks: seq<Kernel>, calls: seq<Call>, n: nat)
    requires IsRun(ks, calls) && n < |ks|
    ensures ks[n].nextPid == 1 + SpawnCount(ks, calls, n)
  {
    hide Step, Enabled, Inv;
    if n > 0 {
      RunInv(ks, calls, n - 1);
      StepOnNumbers(ks[n - 1], calls[n - 1]);
      PositiveNumbers(ks[n - 1]);
      NumbersAreCounted(ks, calls, n - 1);
    }
  }

  lemma PositiveNumbers(k: Kernel)
    requires Inv(k)
    ensures k.nextPid >= 1 && forall p <- k.procs :: 1 <= p < k.nextPid
  {
  }

  /**
   * Spawning returns 0 and changes nothing without memory. Otherwise it returns a
   * number one higher than there were processes before, which no earlier state knows,
   * and adds exactly that process: runnable, with the priority that was asked for,
   * waiting for nothing, without mail, and ready if there are fewer than 512.
   */
  lemma {:induction false} SpawnAnswers(ks: seq<Kernel>, calls: seq<Call>, n: nat, priority: int, memory: bool)
    requires IsRun(ks, calls) && n < |calls| && calls[n] == Spawn(priority, memory)
    ensures var k, k', p := ks[n], ks[n + 1], 1 + SpawnCount(ks, calls, n);
            if memory then
              && OutcomeAt(ks, calls, n) == Outcome(Pid(p), None, [])
              && (forall i | 0 <= i <= n :: p !in ks[i].procs)
              && k' == k.(procs := k.procs[p := Proc(priority, ProcessActive, None, [])], nextPid := p + 1,
                          ready := if |k.ready| < 512 then k.ready + multiset{p} else k.ready)
            else OutcomeAt(ks, calls, n) == Outcome(Pid(0), None, []) && k' == k
  {
    RunInv(ks, calls, n);
    NumbersAreCounted(ks, calls, n);
    forall i | 0 <= i <= n
      ensures ks[n].nextPid !in ks[i].procs
    {
      RunInv(ks, calls, i);
      NextPidGrows(ks, calls, i, n);
    }
  }

  // ---------- Terminating ----------

  /** The call ends process `pid`. */
  ghost predicate Terminates(ks: seq<Kernel>, calls: seq<Call>, i: nat, pid: int)
    requires IsRun(ks, calls) && i < |calls|
  {
    calls[i] == Terminate(pid) && OutcomeAt(ks, calls, i).result == Returned(ENone)
  }

  /** The number was given out and its process has not been terminated. */
  ghost predicate Lives(ks: seq<Kernel>, calls: seq<Call>, n: nat, pid: int)
    requires IsRun(ks, calls) && n < |ks|
  {
    (exists i | 0 <= i < n :: Spawns(ks, calls, i, pid)) && forall i | 0 <= i < n :: !Terminates(ks, calls, i, pid)
  }

  lemma {:induction false} TerminatedWasThere(ks: seq<Kernel>, calls: seq<Call>, i: nat, n: nat, pid: int)
    requires IsRun(ks, calls) && i <= n < |ks| && i < |calls| && Terminates(ks, calls, i, pid)
    ensures pid < ks[n].nextPid
  {
    hide Step, Enabled;
    RunInv(ks, calls, i);
    StepOnNumbers(ks[i], calls[i]);
    NextPidGrows(ks, calls, i, n);
  }

  lemma NobodyYet(ks: seq<Kernel>, calls: seq<Call>, pid: int)
    requires IsRun(ks, calls)
    ensures pid !in ks[0].procs && !Lives(ks, calls, 0, pid)
  {
  }

  /** How the history of a process grows by one call. */
  lemma {:induction false} LivesGoesOn(ks: seq<Kernel>, calls: seq<Call>, n: nat, pid: int)
    requires IsRun(ks, calls) && 0 < n < |ks|
    ensures Lives(ks, calls, n, pid) <==>
              && !Terminates(ks, calls, n - 1, pid)
              && (Lives(ks, calls, n - 1, pid)
                  || (Spawns(ks, calls, n - 1, pid) && forall i | 0 <= i < n - 1 :: !Terminates(ks, calls, i, pid)))
  {
    hide Spawns, Terminates;
  }

  /** The process table has exactly the processes that were created and not terminated. */
  lemma {:induction false} AliveExactly(ks: seq<Kernel>, calls: seq<Call>, n: nat, pid: int)
    requires IsRun(ks, calls) && n < |ks|
    ensures pid in ks[n].procs <==> Lives(ks, calls, n, pid)
  {
    hide Step, Enabled, Inv, Lives;
    if n == 0 {
      NobodyYet(ks, calls, pid);
    } else {
      RunInv(ks, calls, n - 1);
      StepOnNumbers(ks[n - 1], calls[n - 1]);
      PositiveNumbers(ks[n - 1]);
      AliveExactly(ks, calls, n - 1, pid);
      LivesGoesOn(ks, calls, n, pid);
      if Spawns(ks, calls, n - 1, pid) {
        forall i | 0 <= i < n - 1
          ensures !Terminates(ks, calls, i, pid)
        {
          if Terminates(ks, calls, i, pid) {
            TerminatedWasThere(ks, calls, i, n - 1, pid);
          }
        }
      }
    }
  }

  /**
   * Terminating succeeds if and only if the process was created and not terminated
   * before. It takes out that process alone and frees its mail, oldest first.
   * Otherwise it returns EDOESNTEXIST and changes nothing.
   */
  lemma {:induction false} TerminateAnswers(ks: seq<Kernel>, calls: seq<Call>, n: nat, pid: int)
    requires IsRun(ks, calls) && n < |calls| && calls[n] == Terminate(pid)
    ensures var k, k' := ks[n], ks[n + 1];
            if Lives(ks, calls, n, pid) then
              && pid in k.procs && OutcomeAt(ks, calls, n) == Outcome(Returned(ENone), None, k.procs[pid].mail)
              && k' == k.(procs := k.procs - {pid}, ready := k.ready[pid := 0],
                          active := if k.active == Some(pid) then None else k.active)
            else OutcomeAt(ks, calls, n) == Outcome(Returned(EDoesntExist), None, []) && k' == k
  {
    hide Lives;
    RunInv(ks, calls, n);
    AliveExactly(ks, calls, n, pid);
  }

  // ---------- Ports ----------

  /** The port was opened by call i and has not been closed since. */
  ghost predicate OpenSince(ks: seq<Kernel>, calls: seq<Call>, i: nat, n: nat, port: int)
    requires IsRun(ks, calls) && n < |ks|
  {
    && i < n && calls[i] == OpenPort(port) && OutcomeAt(ks, calls, i).result == Returned(ENone)
    && forall j | i < j < n :: !Closes(ks, calls, j, port)
  }

  /** The process that made call i opened the port, and it has not been closed since. */
  ghost predicate OpenBy(ks: seq<Kernel>, calls: seq<Call>, n: nat, port: int, owner: int)
    requires IsRun(ks, calls) && n < |ks|
  {
    exists i :: 0 <= i < n && OpenSince(ks, calls, i, n, port) && ks[i].active == Some(owner)
  }

  lemma {:induction false} StepOnAbsentPort(k: Kernel, call: Call, port: int)
    requires Enabled(k, call) && port !in k.ports
    ensures var (k', out) := Step(k, call);
            if call == OpenPort(port)
            then out.result == Returned(ENone) && port in k'.ports && Some(k'.ports[port]) == k.active
            else port !in k'.ports && !(call == ClosePort(port) && out.result == Returned(ENone))
  {
    hide SendCall, SpawnProcess, ReceiveMessage, KernelSpec.AdvanceScheduler, TerminateProcess, Enqueue;
    if !call.OpenPort? && !call.ClosePort? {
      OnlyPortCallsTouchPorts(k, call);
    }
  }

  lemma {:induction false} OpenOnOpenPort(k: Kernel, port: int)
    requires Enabled(k, OpenPort(port)) && port in k.ports
    ensures Step(k, OpenPort(port)).1.result != Returned(ENone)
  {
  }

  /** The port table has exactly the ports that were opened and not closed since, with their openers. */
  lemma {:induction false} PortsExactly(ks: seq<Kernel>, calls: seq<Call>, n: nat, port: int, owner: int)
    requires IsRun(ks, calls) && n < |ks|
    ensures port in ks[n].ports && ks[n].ports[port] == owner <==> OpenBy(ks, calls, n, port, owner)
  {
    hide Step, Enabled;
    if n > 0 {
      var k, call := ks[n - 1], calls[n - 1];
      PortsExactly(ks, calls, n - 1, port, owner);
      assert Enabled(k, call) && ks[n] == Step(k, call).0;
      if port in k.ports {
        StepOnPort(k, call, port);
        if call == OpenPort(port) {
          OpenOnOpenPort(k, port);
        }
      } else {
        StepOnAbsentPort(k, call, port);
      }
      OpenGoesOn(ks, calls, n, port, owner);
    }
  }

  /** How the history of a port grows by one call. */
  lemma {:induction false} OpenGoesOn(ks: seq<Kernel>, calls: seq<Call>, n: nat, port: int, owner: int)
    requires IsRun(ks, calls) && 0 < n < |ks|
    ensures OpenBy(ks, calls, n, port, owner) <==>
              || (OpenBy(ks, calls, n - 1, port, owner) && !Closes(ks, calls, n - 1, port))
              || (calls[n - 1] == OpenPort(port) && OutcomeAt(ks, calls, n - 1).result == Returned(ENone)
                  && ks[n - 1].active == Some(owner))
  {
    hide Step, Enabled;
    forall i | 0 <= i < n - 1
      ensures OpenSince(ks, calls, i, n, port) <==>
                OpenSince(ks, calls, i, n - 1, port) && !Closes(ks, calls, n - 1, port)
    {
    }
    assert OpenSince(ks, calls, n - 1, n, port) <==>
             calls[n - 1] == OpenPort(port) && OutcomeAt(ks, calls, n - 1).result == Returned(ENone);
  }

  /** The port is open: somebody opened it. */
  ghost predicate Open(ks: seq<Kernel>, calls: seq<Call>, n: nat, port: int)
    requires IsRun(ks, calls) && n < |ks|
  {
    exists owner :: OpenBy(ks, calls, n, port, owner)
  }

  lemma {:induction false} OpenExactly(ks: seq<Kernel>, calls: seq<Call>, n: nat, port: int)
    requires IsRun(ks, calls) && n < |ks|
    ensures port in ks[n].ports <==> Open(ks, calls, n, port)
    ensures port in ks[n].ports ==>
              forall owner :: OpenBy(ks, calls, n, port, owner) <==> owner == ks[n].ports[port]
  {
    hide OpenBy;
    forall owner
      ensures port in ks[n].ports && ks[n].ports[port] == owner <==> OpenBy(ks, calls, n, port, owner)
    {
      PortsExactly(ks, calls, n, port, owner);
    }
    if port in ks[n].ports {
      assert OpenBy(ks, calls, n, port, ks[n].ports[port]);
    }
  }

  /** Opening gives the port to the caller if and only if it is not open; otherwise EEXISTS and no change. */
  lemma {:induction false} OpenAnswers(ks: seq<Kernel>, calls: seq<Call>, n: nat, port: int)
    requires IsRun(ks, calls) && n < |calls| && calls[n] == OpenPort(port)
    ensures ks[n].active.Some?
    ensures if Open(ks, calls, n, port)
            then OutcomeAt(ks, calls, n) == Outcome(Returned(EExists), None, []) && ks[n + 1] == ks[n]
            else && OutcomeAt(ks, calls, n) == Outcome(Returned(ENone), None, [])
                 && ks[n + 1] == ks[n].(ports := ks[n].ports[port := ks[n].active.value])
  {
    hide Open, OpenBy;
    OpenExactly(ks, calls, n, port);
    assert Enabled(ks[n], calls[n]) && ks[n + 1] == Step(ks[n], calls[n]).0;
  }

  /**
   * Closing succeeds if and only if the caller opened the port and it has not been
   * closed since, and then takes out that port alone. EPERM if and only if another
   * process did, EDOESNTEXIST if and only if it is not open, with no change.
   */
  lemma {:induction false} CloseAnswers(ks: seq<Kernel>, calls: seq<Call>, n: nat, port: int)
    requires IsRun(ks, calls) && n < |calls| && calls[n] == ClosePort(port)
    ensures ks[n].active.Some?
    ensures var me, out := ks[n].active.value, OutcomeAt(ks, calls, n);
            && (out.result == Returned(ENone) <==> OpenBy(ks, calls, n, port, me))
            && (out.result == Returned(EPerm) <==> exists owner | owner != me :: OpenBy(ks, calls, n, port, owner))
            && (out.result == Returned(EDoesntExist) <==> !Open(ks, calls, n, port))
            && (out.result == Returned(ENone) || out.result == Returned(EPerm) || out.result == Returned(EDoesntExist))
            && out.delivery == None && out.freed == []
            && ks[n + 1] == if out.result == Returned(ENone) then ks[n].(ports := ks[n].ports - {port}) else ks[n]
  {
    hide Open, OpenBy;
    OpenExactly(ks, calls, n, port);
    assert Enabled(ks[n], calls[n]) && ks[n + 1] == Step(ks[n], calls[n]).0;
    if port in ks[n].ports {
      assert OpenBy(ks, calls, n, port, ks[n].ports[port]);
    } else {
      forall owner
        ensures !OpenBy(ks, calls, n, port, owner)
      {
        PortsExactly(ks, calls, n, port, owner);
      }
    }
  }

  // ---------- Switching ----------

  /** One of the processes of a ready queue leaves it and becomes active; with an empty one the kernel halts. */
  ghost predicate TakesNext(ready: multiset<int>, k': Kernel, pick: int) {
    if forall p :: p !in ready
    then k'.halted && k'.active == None && k'.ready == multiset{}
    else !k'.halted && pick in ready && k'.active == Some(pick) && k'.ready == ready[pick := 0]
  }

  /**
   * Preemption puts the active process, if there is one, into the ready queue unless
   * that holds 512, and then takes one that is ready. Nothing else changes.
   */
  lemma {:induction false} PreemptAnswers(ks: seq<Kernel>, calls: seq<Call>, n: nat, pick: int)
    requires IsRun(ks, calls) && n < |calls| && calls[n] == Preempt(pick)
    ensures OutcomeAt(ks, calls, n) == Outcome(Switched, None, [])
    ensures var k, k' := ks[n], ks[n + 1];
            && TakesNext(if k.active.Some? && |k.ready| < 512 then k.ready[k.active.value := 1] else k.ready, k', pick)
            && k'.procs == k.procs && k'.ports == k.ports && k'.nextPid == k.nextPid
  {
    hide Inv, KernelSpec.AdvanceScheduler, TakesNext;
    RunInv(ks, calls, n);
    assert Enabled(ks[n], calls[n]) && ks[n + 1] == Step(ks[n], calls[n]).0;
    SwitchTakesNext(ks[n], pick);
  }

  lemma NobodyReady(ready: multiset<int>)
    ensures ready == multiset{} <==> forall p :: p !in ready
  {
    if forall p :: p !in ready {
      assert forall p :: ready[p] == 0;
    }
  }

  lemma {:induction false} DispatchTakesNext(k: Kernel, pick: int)
    requires CanPick(k, pick) && !k.halted && forall p <- k.ready :: k.ready[p] == 1
    ensures TakesNext(k.ready, Dispatch(k, pick), pick)
  {
    NobodyReady(k.ready);
    if pick in k.ready {
      assert k.ready - multiset{pick} == k.ready[pick := 0];
    }
  }

  /** What `kernel_advance_scheduler` does. */
  lemma {:induction false} SwitchTakesNext(k: Kernel, pick: int)
    requires Inv(k) && !k.halted && CanPick(Requeue(k), pick)
    ensures var k' := KernelSpec.AdvanceScheduler(k, pick);
            && TakesNext(if k.active.Some? && |k.ready| < 512 then k.ready[k.active.value := 1] else k.ready, k', pick)
            && k'.procs == k.procs && k'.ports == k.ports && k'.nextPid == k.nextPid
  {
    hide TakesNext, Dispatch;
    SchedulingTouchesNoPorts(k, pick);
    SchedulingKeepsMail(k, pick);
    if k.active.Some? {
      assert k.ready + multiset{k.active.value} == k.ready[k.active.value := 1];
    }
    DispatchTakesNext(Requeue(k), pick);
  }

  // ---------- Receiving ----------

  /**
   * Receiving gives the caller the oldest message of its mail, copied to the address
   * that it named. Without mail, a call with bit 0 of its flags set returns
   * EDOESNTEXIST and changes nothing. Any other one switches: the caller waits with
   * exactly the buffer of this call, and a ready process runs.
   */
  lemma {:induction false} ReceiveAnswers(
      ks: seq<Kernel>, calls: seq<Call>, n: nat, buffer: Option<int>, flags: bv32, pick: int)
    requires IsRun(ks, calls) && n < |calls| && calls[n] == Receive(buffer, flags, pick)
    ensures ks[n].active.Some? && ks[n].active.value in ks[n].procs
    ensures var k, k', out, me := ks[n], ks[n + 1], OutcomeAt(ks, calls, n), ks[n].active.value;
            var p := k.procs[me];
            if p.mail != [] then
              && out == Outcome(Returned(ENone), Some(Delivery(me, buffer, p.mail[0])), [])
              && k' == k.(procs := k.procs[me := p.(mail := p.mail[1..])])
            else if flags & 1 == 1 then
              out == Outcome(Returned(EDoesntExist), None, []) && k' == k
            else
              && out == Outcome(Switched, None, []) && TakesNext(k.ready, k', pick)
              && k'.procs == k.procs[me := Proc(p.priority, ProcessRequesting, buffer, [])]
              && k'.ports == k.ports && k'.nextPid == k.nextPid
  {
    hide Inv, KernelSpec.AdvanceScheduler, TakesNext, IsAsync;
    RunInv(ks, calls, n);
    FlagsDecode(flags);
    assert Enabled(ks[n], calls[n]) && ks[n + 1] == Step(ks[n], calls[n]).0;
    if ks[n].procs[ks[n].active.value].mail == [] {
      BlockKeeps(ks[n], buffer);
      SwitchTakesNext(Block(ks[n], buffer), pick);
    }
  }

  /**
   * A process that has called receive and been switched away from is woken by the
   * first send that reaches it if and only if it named a buffer. Then that message,
   * stamped with the number of the sender, is copied to this buffer, the process is
   * runnable again, and it is ready unless 512 others are.
   */
  lemma {:induction false} WokenExactlyWithBuffer(
      ks: seq<Kernel>, calls: seq<Call>, n: nat, j: nat, me: int, buffer: Option<int>, flags: bv32, pick: int)
    requires IsRun(ks, calls) && n < j < |calls|
    requires calls[n] == Receive(buffer, flags, pick) && ks[n].active == Some(me)
    requires OutcomeAt(ks, calls, n).result == Switched
    requires Reaches(ks, calls, j, me) && forall i | n < i < j :: !Reaches(ks, calls, i, me)
    ensures me in ks[j + 1].procs && ks[j].active.Some?
    ensures ks[j + 1].procs[me].state == ProcessActive <==> buffer.Some?
    ensures OutcomeAt(ks, calls, j).delivery ==
            if buffer.Some? then Some(Delivery(me, buffer, calls[j].message.(sender := ks[j].active.value))) else None
    ensures buffer.Some? && |ks[j].ready| < 512 ==> me in ks[j + 1].ready
  {
    hide Step, Enabled, Inv;
    ReceiveAnswers(ks, calls, n, buffer, flags, pick);
    BlockedWaits(ks, calls, n + 1, j, me);
    RunInv(ks, calls, j);
    assert Enabled(ks[j], calls[j]) && ks[j + 1] == Step(ks[j], calls[j]).0;
    SendWakes(ks[j], calls[j], me);
  }

  /** What a send that returns ENONE does to a process that is blocked. */
  lemma {:induction false} SendWakes(k: Kernel, call: Call, pid: int)
    requires Inv(k) && Enabled(k, call) && call.Send? && Addressee(k, call.to, call.flags) == Some(pid)
    requires Step(k, call).1.result == Returned(ENone)
    requires pid in k.procs ==> k.procs[pid].state == ProcessRequesting
    ensures k.active.Some? && pid in k.procs
    ensures var (k', out) := Step(k, call);
            var buffer := k.procs[pid].buffer;
            && pid in k'.procs && (k'.procs[pid].state == ProcessActive <==> buffer.Some?)
            && out.delivery == (if buffer.Some?
                                then Some(Delivery(pid, buffer, call.message.(sender := k.active.value))) else None)
            && (buffer.Some? && |k.ready| < 512 ==> pid in k'.ready)
  {
    hide BadFlags, ToPort, PortOwner, Addressee, Inv;
    AddresseeIsRecipient(k, call.to, call.flags);
  }

  /** A process that waits with a null buffer is blocked for ever, unless it is terminated. */
  lemma {:induction false} NullReceiveNeverReturns(
      ks: seq<Kernel>, calls: seq<Call>, n: nat, m: nat, me: int, flags: bv32, pick: int)
    requires IsRun(ks, calls) && n < m < |ks|
    requires calls[n] == Receive(None, flags, pick) && ks[n].active == Some(me)
    requires OutcomeAt(ks, calls, n).result == Switched
    ensures me in ks[m].procs ==> ks[m].procs[me].state == ProcessRequesting && ks[m].active != Some(me)
  {
    hide Step, Enabled, Inv;
    ReceiveAnswers(ks, calls, n, None, flags, pick);
    NullReceiverSticks(ks, calls, n + 1, m, me);
    RunInv(ks, calls, m);
    if ks[m].active.Some? {
      ActiveRuns(ks[m]);
    }
  }

  lemma ActiveRuns(k: Kernel)
    requires Inv(k) && k.active.Some?
    ensures k.active.value in k.procs && k.procs[k.active.value].state == ProcessActive
  {
  }

  // ---------- Sending ----------

  /**
   * Sending, by the values of its flags. Above 3 they are refused. 0 and 1 name a
   * process, 2 and 3 the process that opened a port; EDOESNTEXIST if and only if there
   * is none that is alive. A receiver that waits with a buffer gets the message there,
   * stamped, and becomes runnable, and ready if there are fewer than 512. For any other
   * one the message joins the end of its mail, just as the sender made it: ENOMEM
   * without memory for the copy, and ENONE with nothing done without a queue node.
   * Every other process stays as it was.
   */
  lemma {:induction false} SendAnswers(
      ks: seq<Kernel>, calls: seq<Call>, n: nat, to: int, message: Message, flags: bv32, memory: bool, node: bool)
    requires IsRun(ks, calls) && n < |calls| && calls[n] == Send(to, message, flags, memory, node)
    ensures ks[n].active.Some?
    ensures var k, k', out := ks[n], ks[n + 1], OutcomeAt(ks, calls, n);
            if flags > 3 then out == Plain(EInvalidArg) && k' == k
            else if flags >= 2 && to !in k.ports then out == Plain(EDoesntExist) && k' == k
            else
              var pid := if flags >= 2 then k.ports[to] else to;
              if pid !in k.procs then out == Plain(EDoesntExist) && k' == k
              else
                var p := k.procs[pid];
                if p.buffer.Some? then
                  var stamped := message.(sender := k.active.value);
                  && out == Outcome(Returned(ENone), Some(Delivery(pid, p.buffer, stamped)), [])
                  && k' == k.(procs := k.procs[pid := Proc(p.priority, ProcessActive, None, p.mail)],
                              ready := if |k.ready| < 512 then k.ready + multiset{pid} else k.ready)
                else if !memory then out == Plain(ENoMem) && k' == k
                else
                  && out == Plain(ENone)
                  && k' == if node then k.(procs := k.procs[pid := p.(mail := p.mail + [message])]) else k
  {
    RunInv(ks, calls, n);
    FlagsDecode(flags);
    hide BadFlags, ToPort;
    assert Enabled(ks[n], calls[n]) && ks[n + 1] == Step(ks[n], calls[n]).0;
  }

  /**
   * A send with flags 2 or 3 to a port that has not been closed since it was opened
   * reaches the process that opened it: the message is there at once, or at the end
   * of its mail. It returns EDOESNTEXIST if and only if that process has been
   * terminated since, and fails otherwise only for want of memory. The mail of every
   * other process stays as it was.
   */
  lemma {:induction false} PortSendReachesOpener(
      ks: seq<Kernel>, calls: seq<Call>, i: nat, j: nat, port: int, message: Message, flags: bv32,
      memory: bool, node: bool)
    requires IsRun(ks, calls) && j < |calls| && OpenSince(ks, calls, i, j, port)
    requires calls[j] == Send(port, message, flags, memory, node) && (flags == 2 || flags == 3)
    ensures ks[i].active.Some? && ks[j].active.Some?
    ensures var opener, out, k, k' := ks[i].active.value, OutcomeAt(ks, calls, j), ks[j], ks[j + 1];
            && (out.result == Returned(EDoesntExist) <==> exists l | i < l < j :: Terminates(ks, calls, l, opener))
            && (out.result == Returned(ENone) || out.result == Returned(EDoesntExist)
                || (!memory && out.result == Returned(ENoMem)))
            && (out.result == Returned(ENone) && node ==>
                  && opener in k.procs && opener in k'.procs
                  && if k.procs[opener].buffer.Some?
                     then out.delivery == Some(Delivery(opener, k.procs[opener].buffer,
                                                        message.(sender := k.active.value)))
                     else k'.procs[opener].mail == k.procs[opener].mail + [message])
            && (forall q <- k.procs | q != opener :: q in k'.procs && k'.procs[q] == k.procs[q])
            && (out.delivery.Some? ==> out.delivery.value.pid == opener)
  {
    hide Step, Enabled, Inv, OpenSince, Lives;
    OpenedByCall(ks, calls, i, j, port);
    var opener := OpenerOf(ks, calls, i, j, port);
    SendAnswers(ks, calls, j, port, message, flags, memory, node);
    AliveExactly(ks, calls, j, opener);
    LivesSince(ks, calls, i, j, opener);
  }

  /** The port table still has the opener, who was alive when he opened it. */
  lemma {:induction false} OpenerOf(ks: seq<Kernel>, calls: seq<Call>, i: nat, j: nat, port: int) returns (opener: int)
    requires IsRun(ks, calls) && j < |ks| && OpenSince(ks, calls, i, j, port)
    ensures ks[i].active == Some(opener) && opener in ks[i].procs
    ensures port in ks[j].ports && ks[j].ports[port] == opener
  {
    hide Step, Enabled;
    OpenAnswers(ks, calls, i, port);
    opener := ks[i].active.value;
    RunInv(ks, calls, i);
    assert OpenBy(ks, calls, j, port, opener);
    PortsExactly(ks, calls, j, port, opener);
  }

  lemma OpenedByCall(ks: seq<Kernel>, calls: seq<Call>, i: nat, j: nat, port: int)
    requires IsRun(ks, calls) && j < |ks| && OpenSince(ks, calls, i, j, port)
    ensures i < j && calls[i].OpenPort?
  {
  }

  lemma {:induction false} LivesSince(ks: seq<Kernel>, calls: seq<Call>, i: nat, j: nat, pid: int)
    requires IsRun(ks, calls) && i < j < |ks| && pid in ks[i].procs && calls[i].OpenPort?
    ensures Lives(ks, calls, j, pid) <==> !exists l | i < l < j :: Terminates(ks, calls, l, pid)
  {
    hide Spawns;
    AliveExactly(ks, calls, i, pid);
    assert !Terminates(ks, calls, i, pid);
  }

  // ---------- Panic ----------

  /**
   * The kernel starts running. While at most 512 processes live, a call halts it if
   * and only if it switches and every live process waits in a receive afterwards.
   */
  lemma {:induction false} PanicExactly(ks: seq<Kernel>, calls: seq<Call>, n: nat)
    requires IsRun(ks, calls) && n < |calls|
    requires forall i | 0 <= i <= n + 1 :: |ks[i].procs| <= 512
    ensures !ks[0].halted
    ensures var k' := ks[n + 1];
            k'.halted <==> OutcomeAt(ks, calls, n).result == Switched
                           && forall p <- k'.procs :: k'.procs[p].state == ProcessRequesting
  {
    hide Step, Enabled, Inv;
    assert Enabled(ks[n], calls[n]) && ks[n + 1] == Step(ks[n], calls[n]).0;
    RunInv(ks, calls, n);
    RunInv(ks, calls, n + 1);
    OnlySwitchesHalt(ks[n], calls[n]);
    if ks[n + 1].halted {
      PanicMeansAllBlocked(ks, calls, n + 1);
    } else if OutcomeAt(ks, calls, n).result == Switched {
      var k' := ks[n + 1];
      ActiveRuns(k');
      var me := k'.active.value;
      assert k'.procs[me].state != ProcessRequesting;
    }
  }

  lemma SendReturns(k: Kernel, to: int, message: Message, flags: bv32, memory: bool, node: bool)
    requires k.active.Some?
    ensures SendCall(k, to, message, flags, memory, node).1.result.Returned?
  {
    hide BadFlags, Recipient, Enqueue;
  }

  lemma {:induction false} OnlySwitchesHalt(k: Kernel, call: Call)
    requires Inv(k) && Enabled(k, call)
    ensures var (k', out) := Step(k, call);
            if out.result == Switched then k'.halted || k'.active.Some? else !k'.halted
  {
    hide Inv, SendCall;
    match call
    case Send(to, message, flags, memory, node) =>
      SendReturns(k, to, message, flags, memory, node);
      SendOnNumbers(k, to, message, flags, memory, node);
    case _ =>
  }
}
