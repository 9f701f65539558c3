/**
 * Runs of the kernel in memory are runs of the abstract machine. What KernelRuns
 * proves of every run therefore holds of the tables, the heap and the queues.
 */
module Refinement {
  import opened Types
  import opened KernelSpec
  import opened KernelRuns
  import opened QuarkKernel
  import A = AvlShape
  import H = HeapShape
  import O = HeapOrder

  /** A call can be made: the kernel has not panicked, and system calls have a caller. */
  predicate Possible(q: Quark, call: Call)
    reads q
  {
    !q.halted && (call.Spawn? || call.Preempt? || call.Terminate? || q.activeProcess != null)
  }

  /** The tables can take what the call adds to them. Child first they always can. */
  ghost predicate Fits(q: Quark, call: Call)
    reads q, q.processTable, q.portTable
  {
    match call
    case Spawn(_, memory) => memory ==> q.CanSpawn()
    case OpenPort(id) => q.CanOpen(id)
    case _ => true
  }

  /** The same call, with the process that the scheduler did pick. */
  ghost predicate SameCall(asked: Call, made: Call) {
    match asked
    case Preempt(_) => made.Preempt?
    case Receive(buffer, flags, _) => made.Receive? && made.buffer == buffer && made.flags == flags
    case _ => made == asked
  }

  /** When the call switches, the process that runs next has the least priority of all that are ready. */
  ghost predicate Respects(k: Kernel, call: Call, outcome: Outcome) {
    match call
    case Preempt(pick) => LeastPick(Requeue(k), pick)
    case Receive(_, _, pick) => outcome.result == Switched ==> LeastPick(k, pick)
    case _ => true
  }

  ghost predicate OnePriority(k: Kernel) {
    forall a, b | a in k.procs && b in k.procs :: k.procs[a].priority == k.procs[b].priority
  }

  lemma OnePriorityInMemory(q: Quark)
    requires q.Wf() && OnePriority(q.Abs())
    ensures EqualPriorities(q.procs)
  {
    forall a, b | a in q.procs && b in q.procs
      ensures q.procs[a].priority == q.procs[b].priority
    {
      assert a in q.Abs().procs && b in q.Abs().procs;
    }
  }

  method TerminateLevelled(q: Quark, pid: int) returns (status: Status, freed: seq<Message>)
    requires q.Valid()
    modifies q.Repr()
    ensures q.Valid() && q.Repr() <= old(q.Repr())
    ensures (q.Abs(), Outcome(Returned(status), None, freed)) == KernelSpec.TerminateProcess(old(q.Abs()), pid)
    ensures old(q.HeapOrdered()) && OnePriority(old(q.Abs())) ==> q.HeapOrdered()
    ensures q.PortTree() == old(q.PortTree())
  {
    hide Quark.Wf, Quark.Abs, Quark.HeapOrdered, Inv, Quark.Repr, Quark.ProcessTree, Quark.PortTree, OnePriority,
         EqualPriorities, KernelSpec.TerminateProcess;
    q.ReprHolds();
    if OnePriority(q.Abs()) {
      OnePriorityInMemory(q);
    }
    status, freed := q.TerminateProcess(pid);
  }

  /** The number is above those of all ports. */
  ghost predicate Above(k: Kernel, port: int) {
    forall id <- k.ports :: id < port
  }

  /** Any one call of the kernel. */
  method Perform(q: Quark, call: Call) returns (ghost made: Call, outcome: Outcome)
    requires q.Valid() && Possible(q, call) && Fits(q, call)
    modifies q.Repr()
    ensures q.Valid() && forall o <- q.Repr() :: o in old(q.Repr()) || fresh(o)
    ensures SameCall(call, made) && Enabled(old(q.Abs()), made)
    ensures (q.Abs(), outcome) == Step(old(q.Abs()), made)
    ensures old(q.HeapOrdered()) && (call.Terminate? ==> OnePriority(old(q.Abs()))) ==>
              q.HeapOrdered() && Respects(old(q.Abs()), made, outcome)
    ensures old(A.Avl(q.ProcessTree())) && !call.Terminate? ==> A.Avl(q.ProcessTree())
    ensures old(A.Avl(q.PortTree())) && !call.ClosePort? && (call.OpenPort? ==> Above(old(q.Abs()), call.port)) ==>
              A.Avl(q.PortTree())
  {
    hide Quark.Wf, Quark.Abs, Quark.HeapOrdered, Inv, Quark.Repr, Quark.ProcessTree, Quark.PortTree, A.Avl, LeastPick,
         OnePriority;
    made := call;
    q.ProcsAre();
    q.ReprHolds();
    match call
    case Spawn(priority, memory) =>
      var pid := q.SpawnProcess(priority, memory);
      outcome := Outcome(Pid(pid), None, []);
    case Preempt(_) =>
      ghost var pick := q.AdvanceScheduler();
      made, outcome := Preempt(pick), Outcome(Switched, None, []);
    case Send(to, message, flags, memory, node) =>
      var status, written := q.Send(to, message, flags, memory, node);
      outcome := Outcome(Returned(status), written, []);
    case Receive(buffer, flags, _) =>
      var result, written, pick := q.ReceiveMessage(buffer, flags);
      made, outcome := Receive(buffer, flags, pick), Outcome(result, written, []);
    case Terminate(pid) =>
      var status, freed := TerminateLevelled(q, pid);
      outcome := Outcome(Returned(status), None, freed);
    case OpenPort(port) =>
      var status := q.CreatePort(port);
      outcome := Plain(status);
    case ClosePort(port) =>
      var status := q.RemovePort(port);
      outcome := Plain(status);
  }

  /** The machine goes from state to state by the calls, with these outcomes. */
  ghost predicate Follows(ks: seq<Kernel>, calls: seq<Call>, outcomes: seq<Outcome>) {
    && |ks| == |calls| + 1 && |outcomes| == |calls|
    && forall i {:trigger calls[i]} | 0 <= i < |calls| ::
         Enabled(ks[i], calls[i]) && (ks[i + 1], outcomes[i]) == Step(ks[i], calls[i])
  }

  lemma {:induction false} FollowsOn(ks: seq<Kernel>, calls: seq<Call>, outcomes: seq<Outcome>, call: Call)
    requires Follows(ks, calls, outcomes) && Enabled(ks[|calls|], call)
    ensures var (k, outcome) := Step(ks[|calls|], call);
            Follows(ks + [k], calls + [call], outcomes + [outcome])
  {
    hide Step, Enabled;
    var (k, outcome) := Step(ks[|calls|], call);
    var ks', calls', outcomes' := ks + [k], calls + [call], outcomes + [outcome];
    forall i | 0 <= i < |calls'|
      ensures Enabled(ks'[i], calls'[i]) && (ks'[i + 1], outcomes'[i]) == Step(ks'[i], calls'[i])
    {
      if i < |calls| {
        assert calls'[i] == calls[i];
      }
    }
  }

  lemma {:induction false} FollowingIsRun(ks: seq<Kernel>, calls: seq<Call>, outcomes: seq<Outcome>)
    requires Follows(ks, calls, outcomes) && ks[0] == Initial()
    ensures IsRun(ks, calls) && forall i | 0 <= i < |calls| :: outcomes[i] == OutcomeAt(ks, calls, i)
  {
  }

  /** The same of an abstract state. */
  predicate CanMake(k: Kernel, call: Call) {
    !k.halted && (call.Spawn? || call.Preempt? || call.Terminate? || k.active.Some?)
  }

  /**
   * The calls answer the requests, one after the other from state k on: a request that
   * can be made is made, and only one that cannot is passed over.
   */
  ghost predicate Serves(k: Kernel, requests: seq<Call>, calls: seq<Call>)
    decreases |requests|
  {
    if requests == [] then calls == []
    else if CanMake(k, requests[0]) then
      && calls != [] && SameCall(requests[0], calls[0]) && Enabled(k, calls[0])
      && Serves(Step(k, calls[0]).0, requests[1..], calls[1..])
    else Serves(k, requests[1..], calls)
  }

  lemma {:induction false} ServesOn(
      ks: seq<Kernel>, calls: seq<Call>, outcomes: seq<Outcome>, requests: seq<Call>, request: Call, call: Call)
    requires Follows(ks, calls, outcomes) && Serves(ks[0], requests, calls)
    requires CanMake(ks[|calls|], request) ==> SameCall(request, call) && Enabled(ks[|calls|], call)
    ensures Serves(ks[0], requests + [request],
                   if CanMake(ks[|calls|], request) then calls + [call] else calls)
    decreases |requests|
  {
    hide Step, Enabled, CanMake, SameCall;
    var longer := requests + [request];
    if requests == [] {
      assert longer[1..] == [] && (calls + [call])[1..] == [];
    } else {
      assert longer[0] == requests[0] && longer[1..] == requests[1..] + [request];
      if CanMake(ks[0], requests[0]) {
        assert calls + [call] == [calls[0]] + (calls[1..] + [call]);
        FollowsFrom(ks, calls, outcomes);
        ServesOn(ks[1..], calls[1..], outcomes[1..], requests[1..], request, call);
      } else {
        ServesOn(ks, calls, outcomes, requests[1..], request, call);
      }
    }
  }

  lemma {:induction false} FollowsFrom(ks: seq<Kernel>, calls: seq<Call>, outcomes: seq<Outcome>)
    requires Follows(ks, calls, outcomes) && calls != []
    ensures Follows(ks[1..], calls[1..], outcomes[1..]) && ks[1] == Step(ks[0], calls[0]).0
  {
    hide Step, Enabled;
    assert Enabled(ks[0], calls[0]) && (ks[0 + 1], outcomes[0]) == Step(ks[0], calls[0]);
    var ks', calls', outcomes' := ks[1..], calls[1..], outcomes[1..];
    forall i | 0 <= i < |calls'|
      ensures Enabled(ks'[i], calls'[i]) && (ks'[i + 1], outcomes'[i]) == Step(ks'[i], calls'[i])
    {
      assert calls'[i] == calls[i + 1];
    }
  }

  // ---------- What requests have to be like ----------

  /** No process is added after one has been taken out. */
  ghost predicate SpawnsFirst(requests: seq<Call>) {
    forall i, j | 0 <= i < j < |requests| && requests[j].Spawn? :: !requests[i].Terminate?
  }

  /** Ports are opened by rising numbers, and none after one has been closed. */
  ghost predicate OpensRising(requests: seq<Call>) {
    forall i, j | 0 <= i < j < |requests| && requests[j].OpenPort? ::
      !requests[i].ClosePort? && (requests[i].OpenPort? ==> requests[i].port < requests[j].port)
  }

  /** In the written order the tables can take what the requests add: AVL trees whose numbers only rise. */
  ghost predicate TablesFit(
      order: A.Order, tree: A.Tree<Process>, portTree: A.Tree<Port>, k: Kernel, requests: seq<Call>) {
    order == A.RootFirst ==>
      && ((forall r <- requests :: !r.Spawn?) || (SpawnsFirst(requests) && A.Avl(tree)))
      && ((forall r <- requests :: !r.OpenPort?)
          || (OpensRising(requests) && A.Avl(portTree) && forall r <- requests | r.OpenPort? :: Above(k, r.port)))
  }

  lemma {:induction false} FitGoesOn(
      order: A.Order, tree: A.Tree<Process>, portTree: A.Tree<Port>, k: Kernel,
      tree': A.Tree<Process>, portTree': A.Tree<Port>, k': Kernel, requests: seq<Call>)
    requires requests != [] && TablesFit(order, tree, portTree, k, requests)
    requires A.Avl(tree) && !requests[0].Terminate? ==> A.Avl(tree')
    requires A.Avl(portTree) && !requests[0].ClosePort? && (requests[0].OpenPort? ==> Above(k, requests[0].port)) ==>
               A.Avl(portTree')
    requires forall id <- k'.ports :: id in k.ports || requests[0] == OpenPort(id)
    ensures TablesFit(order, tree', portTree', k', requests[1..])
  {
    hide A.Avl;
    var rest := requests[1..];
    assert forall i | 0 <= i < |rest| :: rest[i] == requests[i + 1];
  }

  lemma {:induction false} FitsNow(q: Quark, requests: seq<Call>)
    requires q.Valid() && requests != []
    requires TablesFit(q.order, q.ProcessTree(), q.PortTree(), q.Abs(), requests)
    ensures Fits(q, requests[0])
  {
    hide Quark.Wf, Quark.Abs, Inv, A.Avl;
    q.AvlTakesAll();
    assert requests[0] in requests;
  }

  /** Only opening adds a port. */
  lemma {:induction false} PortsOfStep(k: Kernel, call: Call)
    requires Enabled(k, call)
    ensures forall id <- Step(k, call).0.ports :: id in k.ports || call == OpenPort(id)
  {
    hide SendCall, SpawnProcess, ReceiveMessage, KernelSpec.AdvanceScheduler, TerminateProcess;
    if !call.OpenPort? && !call.ClosePort? {
      OnlyPortCallsTouchPorts(k, call);
    }
  }

  /** Nothing is terminated, or everything has one priority. */
  ghost predicate Quiet(k: Kernel, requests: seq<Call>) {
    (forall r <- requests :: !r.Terminate?) || exists p :: Levelled(k, requests, p)
  }

  /** All processes that there are and that are asked for have one priority. */
  ghost predicate Levelled(k: Kernel, requests: seq<Call>, p: int) {
    (forall pid <- k.procs :: k.procs[pid].priority == p) && forall r <- requests | r.Spawn? :: r.priority == p
  }

  lemma {:induction false} EnqueueKeepsProcs(k: Kernel, pid: int)
    ensures Enqueue(k, pid).procs == k.procs
  {
  }

  lemma {:induction false} SendKeepsPriorities(
      k: Kernel, to: int, message: Message, flags: bv32, memory: bool, node: bool, p: int)
    requires k.active.Some? && forall pid <- k.procs :: k.procs[pid].priority == p
    ensures var k' := SendCall(k, to, message, flags, memory, node).0;
            forall pid <- k'.procs :: k'.procs[pid].priority == p
  {
    hide Enqueue, BadFlags, ToPort, PortOwner;
    var pid := Recipient(k, to, flags);
    if pid in k.procs {
      EnqueueKeepsProcs(Woken(k, pid), pid);
    }
  }

  lemma {:induction false} SpawnKeepsPriorities(k: Kernel, priority: int, memory: bool)
    requires forall pid <- k.procs :: k.procs[pid].priority == priority
    ensures var k' := KernelSpec.SpawnProcess(k, priority, memory).0;
            forall pid <- k'.procs :: k'.procs[pid].priority == priority
  {
    hide Enqueue;
    EnqueueKeepsProcs(k.(procs := k.procs[k.nextPid := Proc(priority, ProcessActive, None, [])]), k.nextPid);
  }

  lemma {:induction false} ReceiveKeepsPriorities(k: Kernel, buffer: Option<int>, flags: bv32, pick: int, p: int)
    requires k.active.Some? && k.active.value in k.procs && forall pid <- k.procs :: k.procs[pid].priority == p
    ensures var k' := KernelSpec.ReceiveMessage(k, buffer, flags, pick).0;
            forall pid <- k'.procs :: k'.procs[pid].priority == p
  {
    hide KernelSpec.AdvanceScheduler;
    SchedulingKeepsMail(Block(k, buffer), pick);
  }

  /** Priorities never change. */
  lemma {:induction false} StepKeepsPriorities(k: Kernel, call: Call, p: int)
    requires Enabled(k, call) && (forall pid <- k.procs :: k.procs[pid].priority == p)
    requires call.Spawn? ==> call.priority == p
    ensures forall pid <- Step(k, call).0.procs :: Step(k, call).0.procs[pid].priority == p
  {
    hide SendCall, KernelSpec.SpawnProcess, KernelSpec.ReceiveMessage, KernelSpec.AdvanceScheduler;
    match call
    case Spawn(priority, memory) => SpawnKeepsPriorities(k, priority, memory);
    case Send(to, message, flags, memory, node) => SendKeepsPriorities(k, to, message, flags, memory, node, p);
    case Preempt(pick) => SchedulingKeepsMail(k, pick);
    case Receive(buffer, flags, pick) => ReceiveKeepsPriorities(k, buffer, flags, pick, p);
    case _ =>
  }

  lemma {:induction false} QuietGoesOn(k: Kernel, made: Call, requests: seq<Call>)
    requires requests != [] && Quiet(k, requests) && Enabled(k, made) && SameCall(requests[0], made)
    ensures Quiet(Step(k, made).0, requests[1..])
  {
    hide Step, Enabled;
    if !(forall r <- requests :: !r.Terminate?) {
      var p :| Levelled(k, requests, p);
      StepKeepsPriorities(k, made, p);
      assert Levelled(Step(k, made).0, requests[1..], p);
    }
  }

  lemma {:induction false} QuietNow(k: Kernel, requests: seq<Call>)
    requires requests != [] && Quiet(k, requests)
    ensures requests[0].Terminate? ==> OnePriority(k)
    ensures Quiet(k, requests[1..])
  {
    if requests[0].Terminate? {
      assert requests[0] in requests;
    }
    if !(forall r <- requests :: !r.Terminate?) {
      var p :| Levelled(k, requests, p);
      assert Levelled(k, requests[1..], p);
    }
  }

  /** Every switch respected priorities. */
  ghost predicate AllRespect(ks: seq<Kernel>, calls: seq<Call>, outcomes: seq<Outcome>) {
    |ks| > |calls| && |outcomes| == |calls| &&
    forall i {:trigger calls[i]} | 0 <= i < |calls| :: Respects(ks[i], calls[i], outcomes[i])
  }

  lemma {:induction false} RespectGoesOn(
      ks: seq<Kernel>, calls: seq<Call>, outcomes: seq<Outcome>, k: Kernel, call: Call, outcome: Outcome)
    requires AllRespect(ks, calls, outcomes) && |ks| == |calls| + 1 && Respects(ks[|calls|], call, outcome)
    ensures AllRespect(ks + [k], calls + [call], outcomes + [outcome])
  {
    hide Respects;
    var ks', calls', outcomes' := ks + [k], calls + [call], outcomes + [outcome];
    forall i | 0 <= i < |calls'|
      ensures Respects(ks'[i], calls'[i], outcomes'[i])
    {
      if i < |calls| {
        assert calls'[i] == calls[i];
      }
    }
  }

  // ---------- Any number of requests ----------

  /**
   * Any sequence of requests. The kernel makes every one that it can make when its
   * turn comes and no other call: what it does is what the machine does, and while the
   * queue is in heap order every switch takes a process of least priority.
   */
  method Run(q: Quark, requests: seq<Call>)
    returns (ghost ks: seq<Kernel>, ghost calls: seq<Call>, outcomes: seq<Outcome>)
    requires q.Valid() && TablesFit(q.order, q.ProcessTree(), q.PortTree(), q.Abs(), requests)
    modifies q.Repr()
    ensures q.Valid() && fresh(q.Repr() - old(q.Repr()))
    ensures Follows(ks, calls, outcomes) && ks[0] == old(q.Abs()) && ks[|calls|] == q.Abs()
    ensures Serves(old(q.Abs()), requests, calls)
    ensures old(q.HeapOrdered()) && Quiet(old(q.Abs()), requests) ==> q.HeapOrdered() && AllRespect(ks, calls, outcomes)
  {
    hide Quark.Wf, Inv, Quark.Abs, Quark.Repr, Quark.HeapOrdered, Quark.ProcessTree, Quark.PortTree, A.Avl,
         Step, Enabled, TablesFit, Quiet, Fits, OnePriority, Respects, AllRespect, Follows, SameCall, Serves,
         CanMake, Possible;
    ks, calls, outcomes := [q.Abs()], [], [];
    ghost var quiet := q.HeapOrdered() && Quiet(q.Abs(), requests);
    Nothing(q.Abs());
    assert requests[0..] == requests && requests[..0] == [];
    NothingServed(q.Abs());
    for i := 0 to |requests|
      invariant q.Valid() && forall o <- q.Repr() :: o in old(q.Repr()) || fresh(o)
      invariant |ks| == |calls| + 1 && Follows(ks, calls, outcomes) && ks[0] == old(q.Abs()) && ks[|calls|] == q.Abs()
      invariant Serves(ks[0], requests[..i], calls)
      invariant TablesFit(q.order, q.ProcessTree(), q.PortTree(), q.Abs(), requests[i..])
      invariant quiet ==> q.HeapOrdered() && Quiet(q.Abs(), requests[i..]) && AllRespect(ks, calls, outcomes)
    {
      ghost var k, tree, portTree, todo := q.Abs(), q.ProcessTree(), q.PortTree(), requests[i..];
      assert todo != [] && todo[0] == requests[i] && todo[1..] == requests[i + 1..];
      assert requests[..i + 1] == requests[..i] + [requests[i]];
      PossibleInMemory(q, requests[i]);
      if quiet {
        QuietNow(k, todo);
      }
      if Possible(q, requests[i]) {
        FitsNow(q, todo);
        var made, outcome := Perform(q, requests[i]);
        PortsOfMade(k, requests[i], made);
        FitGoesOn(q.order, tree, portTree, k, q.ProcessTree(), q.PortTree(), q.Abs(), todo);
        ServesOn(ks, calls, outcomes, requests[..i], requests[i], made);
        FollowsOn(ks, calls, outcomes, made);
        if quiet {
          QuietGoesOn(k, made, todo);
          RespectGoesOn(ks, calls, outcomes, q.Abs(), made, outcome);
        }
        ks, calls, outcomes := ks + [q.Abs()], calls + [made], outcomes + [outcome];
      } else {
        ServesOn(ks, calls, outcomes, requests[..i], requests[i], requests[i]);
        FitGoesOn(q.order, tree, portTree, k, tree, portTree, k, todo);
      }
    }
    assert requests[..|requests|] == requests;
  }

  lemma {:induction false} Nothing(k: Kernel)
    ensures Follows([k], [], []) && AllRespect([k], [], [])
  {
  }

  lemma NothingServed(k: Kernel)
    ensures Serves(k, [], [])
  {
  }

  lemma PossibleInMemory(q: Quark, call: Call)
    requires q.Wf()
    ensures Possible(q, call) <==> CanMake(q.Abs(), call)
  {
  }

  lemma {:induction false} PortsOfMade(k: Kernel, asked: Call, made: Call)
    requires Enabled(k, made) && SameCall(asked, made)
    ensures forall id <- Step(k, made).0.ports :: id in k.ports || asked == OpenPort(id)
  {
    hide Step, Enabled;
    PortsOfStep(k, made);
  }

  /**
   * From its start, every history of the kernel in memory is a run. In the written
   * order the requests spawn before they terminate, and open ports by rising numbers
   * before they close any.
   */
  method RunFromStart(order: A.Order, requests: seq<Call>)
    returns (q: Quark, ghost ks: seq<Kernel>, ghost calls: seq<Call>, outcomes: seq<Outcome>)
    requires order == A.RootFirst ==> SpawnsFirst(requests) && OpensRising(requests)
    ensures fresh(q) && q.order == order && q.Valid() && IsRun(ks, calls) && ks[|calls|] == q.Abs()
    ensures |outcomes| == |calls| && forall i | 0 <= i < |calls| :: outcomes[i] == OutcomeAt(ks, calls, i)
    ensures Serves(Initial(), requests, calls)
    ensures Quiet(Initial(), requests) ==> AllRespect(ks, calls, outcomes)
  {
    hide A.Avl;
    q := new Quark(order);
    ks, calls, outcomes := Run(q, requests);
    FollowingIsRun(ks, calls, outcomes);
  }

  // ---------- Preemption alone ----------

  /** The entry that the active process would have in the ready queue. */
  ghost function ActiveEntry(q: Quark): H.Entry<Process?>
    requires q.activeProcess != null
    reads q
  {
    H.Entry(q.activeProcess, q.activeProcess.priority)
  }

  lemma EntriesDistinct(q: Quark)
    requires q.Valid() && q.activeProcess != null
    ensures O.Distinct(O.Runnable(ActiveEntry(q), q.Ready()))
  {
    hide Quark.Wf, Quark.Abs, Inv, Pids;
    q.QueueIsValid();
    var es := O.Runnable(ActiveEntry(q), q.Ready());
    QueueCounts(q);
    forall i, j | 0 <= i < j < |es|
      ensures es[i] != es[j]
    {
      if i > 0 {
        QueuedOnce(q.Ready(), i - 1, j - 1);
        assert es[i] == q.Ready()[i - 1] && es[j] == q.Ready()[j - 1];
      } else {
        PidsMember(q.Ready(), q.activeProcess.pid);
        assert es[j] == q.Ready()[j - 1];
      }
    }
  }

  lemma QueueCounts(q: Quark)
    requires q.Valid() && q.activeProcess != null
    ensures NoNulls(q.Ready()) && forall pid :: Pids(q.Ready())[pid] <= 1
    ensures q.activeProcess.pid !in Pids(q.Ready())
  {
  }

  lemma OneRound<T>(active: H.Entry<T>, h: seq<H.Entry<T>>, n: nat)
    ensures var (a, r) := O.Rounds(active, h, n);
            var g := H.Push(r, a);
            g != [] && O.Rounds(active, h, n + 1) == (g[0], H.Pop(g))
    ensures O.Rounds(active, h, 0) == (active, h)
  {
  }

  /**
   * Any number of preemptions and nothing else, on the kernel in memory: they are the
   * rounds of HeapOrder. Among equals, with four or more runnable processes, the one
   * in slot 2 of the ready queue never runs.
   */
  method Preempts(q: Quark, rounds: nat)
    requires q.Valid() && !q.halted && q.activeProcess != null && |q.Ready()| < CAPACITY
    modifies q`activeProcess, q`halted, q.readyQueue, q.readyQueue.heap
    ensures q.Valid() && q.activeProcess != null
    ensures (ActiveEntry(q), q.Ready()) == O.Rounds(old(ActiveEntry(q)), old(q.Ready()), rounds)
    ensures |old(q.Ready())| >= 3 && O.HavePriority(old(q.Ready()), old(q.activeProcess).priority) ==>
              q.activeProcess != old(q.Ready())[2].value
  {
    hide Quark.Wf, Inv, Quark.Abs, Quark.Ready, H.Push, H.Pop, O.Distinct, O.Rounds;
    q.QueueIsValid();
    ghost var active, h := ActiveEntry(q), q.Ready();
    EntriesDistinct(q);
    OneRound(active, h, 0);
    for i := 0 to rounds
      invariant q.Valid() && q.activeProcess != null && q.readyQueue.Valid() && |q.Ready()| == |h|
      invariant (ActiveEntry(q), q.Ready()) == O.Rounds(active, h, i)
    {
      ghost var a, r := ActiveEntry(q), q.Ready();
      H.PushCorrect(r, a);
      H.PopCorrect(H.Push(r, a));
      ghost var pick := q.AdvanceScheduler();
      q.QueueIsValid();
      OneRound(active, h, i);
    }
    if |h| >= 3 && O.HavePriority(h, active.priority) {
      O.ThirdStarves(active, h, rounds);
      O.RoundsKeep(active, h, rounds);
    }
  }
}
