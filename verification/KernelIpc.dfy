/** Threads and ports together: `rust_ipc_send`, `rust_ipc_recv` and scheduling (kernel/src/lib.rs). */
module KernelIpc {
  import opened Options
  import S = Scheduler
  import I = Ipc

  datatype Kernel = Kernel(queue: S.Queue, channels: I.Channels)

  datatype Op =
    | Spawn(session: nat, name: string)
    | Tick                               // the scheduling part of the timer interrupt
    | Send(port: nat, m: I.Message)
    | Recv(port: nat, tid: nat)

  /** `rust_ipc_send`: deliver and make the woken thread Ready. */
  function IpcSend(k: Kernel, port: nat, m: I.Message): (Kernel, Option<nat>) {
    var r := I.Send(k.channels, port, m);
    var q := if r.1.Some? then k.queue.(threads := S.SetState(k.queue.threads, r.1.value, S.Ready)) else k.queue;
    (Kernel(q, r.0), r.1)
  }

  /** `rust_ipc_recv`: take a message, or block the calling thread. */
  function IpcRecv(k: Kernel, port: nat, tid: nat): (Kernel, Option<I.Message>) {
    var r := I.Recv(k.channels, port, tid);
    var q := if r.1.None? then k.queue.(threads := S.SetState(k.queue.threads, tid, S.Blocked)) else k.queue;
    (Kernel(q, r.0), r.1)
  }

  function Step(k: Kernel, op: Op): Kernel {
    match op
    case Spawn(session, name) => k.(queue := S.SpawnThread(k.queue, session, name))
    case Tick => k.(queue := S.Schedule(k.queue).0)
    case Send(port, m) => IpcSend(k, port, m).0
    case Recv(port, tid) => IpcRecv(k, port, tid).0
  }

  // ------------------------------------------------------------- invariant

  /** Thread `id` is number `i` in the line of threads waiting on `port`. */
  ghost predicate WaitsOn(k: Kernel, port: nat, i: nat, id: nat) {
    i < |I.Entry(k.channels, port).blocked| && I.Entry(k.channels, port).blocked[i] == id
  }

  ghost predicate IsWaiting(k: Kernel, id: nat) {
    exists port, i :: WaitsOn(k, port, i, id)
  }

  ghost predicate IsBlocked(k: Kernel, id: nat) {
    exists t <- k.queue.threads :: t.id == id && t.state == S.Blocked
  }

  /** Each thread waits in at most one place. */
  ghost predicate OnePlace(k: Kernel) {
    forall p, q, i, j, id :: WaitsOn(k, p, i, id) && WaitsOn(k, q, j, id) ==> p == q && i == j
  }

  ghost predicate Valid(k: Kernel) {
    && S.UniqueIds(k.queue)
    && (forall t <- k.queue.threads :: t.state == S.Ready || t.state == S.Blocked)
    && OnePlace(k)
    && (forall id :: IsWaiting(k, id) <==> IsBlocked(k, id))
  }

  /** Only a live thread that is not blocked calls receive. */
  ghost predicate Legal(k: Kernel, op: Op) {
    op.Recv? ==> exists t <- k.queue.threads :: t.id == op.tid && t.state != S.Blocked
  }

  // ------------------------------------------------------------- preservation

  /** An operation that only reorders or adds Ready threads keeps the invariant. */
  lemma QueueStepValid(k: Kernel, q: S.Queue)
    requires Valid(k) && S.UniqueIds(q)
    requires forall t <- k.queue.threads :: t in q.threads
    requires forall t <- q.threads :: t in k.queue.threads || t.state == S.Ready
    ensures Valid(k.(queue := q))
  {
    var k' := k.(queue := q);
    assert forall p, i, id :: WaitsOn(k', p, i, id) <==> WaitsOn(k, p, i, id);
    forall id
      ensures IsWaiting(k', id) <==> IsBlocked(k', id)
    {
      assert IsWaiting(k, id) <==> IsBlocked(k, id);
      if IsWaiting(k, id) {
        var p: nat, i: nat :| WaitsOn(k, p, i, id);
        assert WaitsOn(k', p, i, id);
      }
      if IsWaiting(k', id) {
        var p: nat, i: nat :| WaitsOn(k', p, i, id);
        assert WaitsOn(k, p, i, id);
      }
    }
  }

  lemma SpawnValid(k: Kernel, session: nat, name: string)
    requires Valid(k)
    ensures Valid(Step(k, Spawn(session, name)))
  {
    S.StepKeepsUnique(k.queue, S.SpawnOp(session, name));
    QueueStepValid(k, S.SpawnThread(k.queue, session, name));
  }

  lemma TickValid(k: Kernel)
    requires Valid(k)
    ensures Valid(Step(k, Tick))
  {
    S.StepKeepsUnique(k.queue, S.ScheduleOp);
    S.ScheduleMembers(k.queue);
    hide S.Schedule, Valid;
    QueueStepValid(k, S.Schedule(k.queue).0);
  }

  /** States after one thread's state is set. */
  lemma SetStateBlocked(k: Kernel, id: nat, st: S.ThreadState, k': Kernel, x: nat)
    requires k'.queue == k.queue.(threads := S.SetState(k.queue.threads, id, st))
    requires exists t <- k.queue.threads :: t.id == id
    ensures IsBlocked(k', x) <==> if x == id then st == S.Blocked else IsBlocked(k, x)
  {}

  lemma SetStateKeeps(k: Kernel, id: nat, st: S.ThreadState)
    requires Valid(k) && (st == S.Ready || st == S.Blocked)
    ensures var q := k.queue.(threads := S.SetState(k.queue.threads, id, st));
            S.UniqueIds(q) && forall t <- q.threads :: t.state == S.Ready || t.state == S.Blocked
  {}

  /** The lines of waiting threads after a send. */
  lemma SendWaits(k: Kernel, port: nat, m: I.Message, p: nat, i: nat, id: nat)
    ensures var (k', woken) := IpcSend(k, port, m);
            WaitsOn(k', p, i, id) <==> WaitsOn(k, p, if p == port && woken.Some? then i + 1 else i, id)
  {
  }

  /** The lines of waiting threads after a receive. */
  lemma RecvWaits(k: Kernel, port: nat, tid: nat, p: nat, i: nat, id: nat)
    ensures var (k', m) := IpcRecv(k, port, tid);
            var last := |I.Entry(k.channels, port).blocked|;
            WaitsOn(k', p, i, id) <==> WaitsOn(k, p, i, id) || (m.None? && p == port && i == last && id == tid)
  {
  }

  lemma SendOnePlace(k: Kernel, port: nat, m: I.Message)
    requires OnePlace(k)
    ensures OnePlace(IpcSend(k, port, m).0)
  {
    var (k', woken) := IpcSend(k, port, m);
    forall p, q, i, j, id | WaitsOn(k', p, i, id) && WaitsOn(k', q, j, id)
      ensures p == q && i == j
    {
      SendWaits(k, port, m, p, i, id);
      SendWaits(k, port, m, q, j, id);
    }
  }

  /** After a send that wakes `id`, exactly the other waiting threads still wait. */
  lemma WakeWaiting(k: Kernel, port: nat, m: I.Message, x: nat)
    requires OnePlace(k) && IpcSend(k, port, m).1.Some?
    ensures var (k', woken) := IpcSend(k, port, m);
            && WaitsOn(k, port, 0, woken.value)
            && (IsWaiting(k', x) <==> IsWaiting(k, x) && x != woken.value)
  {
    var (k', woken) := IpcSend(k, port, m);
    var id := woken.value;
    assert WaitsOn(k, port, 0, id);
    if IsWaiting(k', x) {
      var p: nat, i: nat :| WaitsOn(k', p, i, x);
      SendWaits(k, port, m, p, i, x);
      assert WaitsOn(k, p, if p == port then i + 1 else i, x);
    }
    if IsWaiting(k, x) && x != id {
      var p: nat, i: nat :| WaitsOn(k, p, i, x);
      assert p == port ==> i > 0;
      SendWaits(k, port, m, p, if p == port then i - 1 else i, x);
    }
  }

  lemma SendValid(k: Kernel, port: nat, m: I.Message)
    requires Valid(k)
    ensures Valid(IpcSend(k, port, m).0)
  {
    var (k', woken) := IpcSend(k, port, m);
    SendOnePlace(k, port, m);
    if woken.Some? {
      var id := woken.value;
      WakeWaiting(k, port, m, id);
      assert IsWaiting(k, id);
      assert IsBlocked(k, id);
      SetStateKeeps(k, id, S.Ready);
      forall x
        ensures IsWaiting(k', x) <==> IsBlocked(k', x)
      {
        WakeWaiting(k, port, m, x);
        assert IsWaiting(k, x) <==> IsBlocked(k, x);
        hide IsWaiting, OnePlace, S.UniqueIds;
        SetStateBlocked(k, id, S.Ready, k', x);
      }
    } else {
      forall x
        ensures IsWaiting(k', x) <==> IsBlocked(k', x)
      {
        assert IsWaiting(k, x) <==> IsBlocked(k, x);
        assert forall p, i :: WaitsOn(k', p, i, x) <==> WaitsOn(k, p, i, x);
        SameWaiting(k, k', x);
      }
    }
  }

  lemma SameWaiting(k: Kernel, k': Kernel, x: nat)
    requires forall p, i :: WaitsOn(k', p, i, x) <==> WaitsOn(k, p, i, x)
    ensures IsWaiting(k', x) <==> IsWaiting(k, x)
  {}

  lemma RecvOnePlace(k: Kernel, port: nat, tid: nat)
    requires OnePlace(k) && !IsWaiting(k, tid)
    ensures OnePlace(IpcRecv(k, port, tid).0)
  {
    var (k', m) := IpcRecv(k, port, tid);
    forall p, q, i, j, id | WaitsOn(k', p, i, id) && WaitsOn(k', q, j, id)
      ensures p == q && i == j
    {
      RecvWaits(k, port, tid, p, i, id);
      RecvWaits(k, port, tid, q, j, id);
      assert WaitsOn(k, p, i, id) ==> IsWaiting(k, id);
      assert WaitsOn(k, q, j, id) ==> IsWaiting(k, id);
    }
  }

  lemma BlockWaiting(k: Kernel, port: nat, tid: nat, x: nat)
    requires IpcRecv(k, port, tid).1.None?
    ensures IsWaiting(IpcRecv(k, port, tid).0, x) <==> IsWaiting(k, x) || x == tid
  {
    var (k', m) := IpcRecv(k, port, tid);
    var last := |I.Entry(k.channels, port).blocked|;
    if IsWaiting(k', x) && x != tid {
      var p: nat, i: nat :| WaitsOn(k', p, i, x);
      RecvWaits(k, port, tid, p, i, x);
    }
    if IsWaiting(k, x) {
      var p: nat, i: nat :| WaitsOn(k, p, i, x);
      RecvWaits(k, port, tid, p, i, x);
      assert WaitsOn(k', p, i, x);
    }
    assert WaitsOn(k', port, last, tid);
  }

  lemma NotBlocked(k: Kernel, tid: nat)
    requires S.UniqueIds(k.queue) && exists t <- k.queue.threads :: t.id == tid && t.state != S.Blocked
    ensures !IsBlocked(k, tid)
  {}

  lemma RecvValid(k: Kernel, port: nat, tid: nat)
    requires Valid(k) && Legal(k, Recv(port, tid))
    ensures Valid(IpcRecv(k, port, tid).0)
  {
    var (k', m) := IpcRecv(k, port, tid);
    NotBlocked(k, tid);
    assert !IsWaiting(k, tid);
    RecvOnePlace(k, port, tid);
    if m.None? {
      SetStateKeeps(k, tid, S.Blocked);
    }
    forall x
      ensures IsWaiting(k', x) <==> IsBlocked(k', x)
    {
      assert IsWaiting(k, x) <==> IsBlocked(k, x);
      if m.None? {
        BlockWaiting(k, port, tid, x);
        hide IsWaiting, OnePlace, S.UniqueIds;
        SetStateBlocked(k, tid, S.Blocked, k', x);
      } else {
        assert forall p, i :: WaitsOn(k', p, i, x) <==> WaitsOn(k, p, i, x);
        SameWaiting(k, k', x);
      }
    }
  }

  /** Every legal operation keeps the invariant. */
  lemma StepValid(k: Kernel, op: Op)
    requires Valid(k) && Legal(k, op)
    ensures Valid(Step(k, op))
  {
    hide Valid, IpcSend, IpcRecv, S.Schedule, S.SpawnThread;
    match op
    case Spawn(session, name) => SpawnValid(k, session, name);
    case Tick => TickValid(k);
    case Send(port, m) => SendValid(k, port, m);
    case Recv(port, tid) => RecvValid(k, port, tid);
  }

  // ------------------------------------------------------------- whole runs

  ghost predicate LegalRun(k: Kernel, ops: seq<Op>)
    decreases |ops|
  {
    ops != [] ==> Legal(k, ops[0]) && LegalRun(Step(k, ops[0]), ops[1..])
  }

  ghost function Run(k: Kernel, ops: seq<Op>): Kernel
    decreases |ops|
  {
    if ops == [] then k else Run(Step(k, ops[0]), ops[1..])
  }

  /** No thread and no port. */
  function Boot(): Kernel { Kernel(S.Queue([], 1, None), map[]) }

  lemma {:induction false} RunValid(k: Kernel, ops: seq<Op>)
    requires Valid(k) && LegalRun(k, ops)
    ensures Valid(Run(k, ops))
    decreases |ops|
  {
    hide Valid, Legal, Step;
    if ops != [] {
      StepValid(k, ops[0]);
      RunValid(Step(k, ops[0]), ops[1..]);
    }
  }

  /** After every run, each thread waits in at most one place and the waiting threads are exactly the Blocked ones. */
  lemma WaitingAreBlocked(ops: seq<Op>)
    requires LegalRun(Boot(), ops)
    ensures OnePlace(Run(Boot(), ops))
    ensures forall id :: IsWaiting(Run(Boot(), ops), id) <==> IsBlocked(Run(Boot(), ops), id)
  {
    assert forall id :: !IsWaiting(Boot(), id) && !IsBlocked(Boot(), id);
    RunValid(Boot(), ops);
  }

  /** Some scheduling step of the run picks thread `id`. */
  ghost predicate Picked(k: Kernel, ops: seq<Op>, id: nat)
    decreases |ops|
  {
    ops != [] &&
    ((ops[0].Tick? && S.Schedule(k.queue).1.Some? && S.Schedule(k.queue).1.value.id == id) ||
     Picked(Step(k, ops[0]), ops[1..], id))
  }

  /** Sends on the port that were not dropped by a full queue. */
  ghost function AcceptedSends(k: Kernel, ops: seq<Op>, port: nat): nat
    decreases |ops|
  {
    if ops == [] then 0
    else (if Accepts(k, ops[0], port) then 1 else 0) + AcceptedSends(Step(k, ops[0]), ops[1..], port)
  }

  predicate Accepts(k: Kernel, op: Op, port: nat) {
    op.Send? && op.port == port && |I.Entry(k.channels, port).messages| < I.QUEUE_LIMIT
  }

  /** A waiting thread is never the one scheduled. */
  lemma WaitingNotPicked(k: Kernel, port: nat, i: nat, id: nat)
    requires Valid(k) && WaitsOn(k, port, i, id)
    ensures var t := S.Schedule(k.queue).1; t.Some? ==> t.value.id != id
  {
    assert IsWaiting(k, id);
    assert IsBlocked(k, id);
    S.ScheduleRotates(k.queue);
    hide S.Schedule;
    var t := S.Schedule(k.queue).1;
    if t.Some? && t.value.id == id {
      NotBlocked(k, id);
      assert false;
    }
  }

  /** One operation: a waiting thread keeps its place, except that an accepted send on its port moves it up. */
  lemma WaitStep(k: Kernel, op: Op, port: nat, i: nat, id: nat)
    requires WaitsOn(k, port, i, id) && (Accepts(k, op, port) ==> i > 0)
    ensures WaitsOn(Step(k, op), port, if Accepts(k, op, port) then i - 1 else i, id)
  {}

  /** A thread with `i` others ahead of it on a port is not scheduled, and stays in line, until more than `i`
      sends on that port are accepted. */
  lemma {:induction false} BlockedUntilSend(k: Kernel, ops: seq<Op>, port: nat, i: nat, id: nat)
    requires Valid(k) && LegalRun(k, ops) && WaitsOn(k, port, i, id) && AcceptedSends(k, ops, port) <= i
    ensures !Picked(k, ops, id)
    ensures WaitsOn(Run(k, ops), port, i - AcceptedSends(k, ops, port), id)
    decreases |ops|
  {
    if ops != [] {
      var op := ops[0];
      StepValid(k, op);
      WaitingNotPicked(k, port, i, id);
      WaitStep(k, op, port, i, id);
      hide Valid, Legal, Step, WaitsOn, Accepts, S.Schedule;
      BlockedUntilSend(Step(k, op), ops[1..], port, if Accepts(k, op, port) then i - 1 else i, id);
    }
  }

  /** The next accepted send wakes the first thread in line: it is returned, Ready, and no longer waits. */
  lemma FirstInLineWakes(k: Kernel, port: nat, m: I.Message, id: nat)
    requires Valid(k) && WaitsOn(k, port, 0, id) && Accepts(k, Send(port, m), port)
    ensures var (k', woken) := IpcSend(k, port, m);
            woken == Some(id) && !IsWaiting(k', id) && !IsBlocked(k', id)
            && exists t <- k'.queue.threads :: t.id == id && t.state == S.Ready
  {
    var (k', woken) := IpcSend(k, port, m);
    SendValid(k, port, m);
    WakeWaiting(k, port, m, id);
    assert IsWaiting(k, id);
    assert IsBlocked(k, id);
    var ts := k.queue.threads;
    var t :| t in ts && t.id == id && t.state == S.Blocked;
    var i :| 0 <= i < |ts| && ts[i] == t;
    assert k'.queue.threads[i].id == id && k'.queue.threads[i].state == S.Ready;
  }

  // ------------------------------------------------------------ the class

  /** The scheduler and the ports of `KernelState`, as the system calls change them. */
  class KernelPorts {
    const scheduler: S.ThreadScheduler
    const ipc: I.IpcSubsystem

    ghost function State(): Kernel
      reads scheduler, ipc
    {
      Kernel(scheduler.State(), ipc.channels)
    }

    constructor ()
      ensures fresh(scheduler) && fresh(ipc) && State() == Boot()
    {
      scheduler := new S.ThreadScheduler();
      ipc := new I.IpcSubsystem();
    }

    /** `rust_ipc_send`: the id of the woken thread, or zero. */
    method RustIpcSend(port: nat, m: I.Message) returns (woken: nat)
      modifies scheduler, ipc
      ensures State() == IpcSend(old(State()), port, m).0
      ensures var w := IpcSend(old(State()), port, m).1; woken == if w.Some? then w.value else 0
    {
      hide I.Send;
      var w := ipc.SendMessage(port, m);
      woken := 0;
      if w.Some? {
        scheduler.MarkThread(w.value, S.Ready);
        woken := w.value;
      }
    }

    /** `rust_ipc_recv`: one for a message, zero for a blocked caller. */
    method RustIpcRecv(port: nat, tid: nat) returns (received: nat)
      modifies scheduler, ipc
      ensures State() == IpcRecv(old(State()), port, tid).0
      ensures received == if IpcRecv(old(State()), port, tid).1.Some? then 1 else 0
    {
      hide I.Recv;
      var m := ipc.ReceiveMessage(port, tid);
      received := 1;
      if m.None? {
        scheduler.MarkThread(tid, S.Blocked);
        received := 0;
      }
    }
  }
}
