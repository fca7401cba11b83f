/** What becomes of a woken thread: the ports' record of wake-ups followed through whole runs of the kernel
    (kernel/src/lib.rs, kernel/src/ipc.rs, kernel/src/sched.rs). */
module Wakeups {
  import opened Options
  import S = Scheduler
  import I = Ipc
  import opened KernelIpc

  /** The kernel with what happened on its ports so far. */
  datatype Traced = Traced(kernel: Kernel, history: map<nat, I.History>)

  function Ports(s: Traced): I.System {
    I.System(s.kernel.channels, s.history)
  }

  function TraceStep(s: Traced, op: Op): Traced {
    Traced(Step(s.kernel, op),
           match op
           case Send(port, m) => I.Step(Ports(s), I.SendOp(port, m)).history
           case Recv(port, tid) => I.Step(Ports(s), I.RecvOp(port, tid)).history
           case _ => s.history)
  }

  ghost function Trace(s: Traced, ops: seq<Op>): Traced
    decreases |ops|
  {
    if ops == [] then s else Trace(TraceStep(s, ops[0]), ops[1..])
  }

  function Start(): Traced { Traced(Boot(), map[]) }

  /** Recording the history changes nothing. */
  lemma {:induction false} TraceIsRun(s: Traced, ops: seq<Op>)
    ensures Trace(s, ops).kernel == Run(s.kernel, ops)
    decreases |ops|
  {
    hide Step;
    if ops != [] {
      TraceIsRun(TraceStep(s, ops[0]), ops[1..]);
    }
  }

  /** Threads woken on the port that have not called receive on it since. */
  function Woken(s: Traced, port: nat): multiset<nat> {
    I.Past(Ports(s), port).woken
  }

  function Line(k: Kernel, port: nat): seq<nat> {
    I.Entry(k.channels, port).blocked
  }

  ghost predicate Live(k: Kernel, id: nat) {
    exists t <- k.queue.threads :: t.id == id
  }

  ghost predicate IsReady(k: Kernel, id: nat) {
    exists p :: S.ReadyAt(k.queue, id, p)
  }

  /** Thread `id` waits on some other port than `port`. */
  ghost predicate WaitsElsewhere(k: Kernel, port: nat, id: nat) {
    exists q, i :: q != port && WaitsOn(k, q, i, id)
  }

  // ------------------------------------------------------------- invariant

  /** A woken thread is recorded once, still exists, and has left the line of the port. */
  ghost predicate WokenOk(s: Traced, port: nat, id: nat) {
    id in Woken(s, port) ==> Woken(s, port)[id] == 1 && Live(s.kernel, id) && id !in Line(s.kernel, port)
  }

  ghost predicate TracedOk(s: Traced) {
    Valid(s.kernel) && I.SystemOk(Ports(s)) && forall port, id :: WokenOk(s, port, id)
  }

  lemma SetStateLive(k: Kernel, id: nat, st: S.ThreadState, x: nat)
    requires Live(k, x)
    ensures Live(k.(queue := k.queue.(threads := S.SetState(k.queue.threads, id, st))), x)
  {
    var i :| 0 <= i < |k.queue.threads| && k.queue.threads[i].id == x;
    assert S.SetState(k.queue.threads, id, st)[i].id == x;
  }

  lemma StepLive(k: Kernel, op: Op, x: nat)
    requires Live(k, x)
    ensures Live(Step(k, op), x)
  {
    match op
    case Spawn(session, name) =>
    case Tick =>
      S.ScheduleMembers(k.queue);
    case Send(port, m) =>
      var woken := IpcSend(k, port, m).1;
      if woken.Some? {
        SetStateLive(k, woken.value, S.Ready, x);
      }
    case Recv(port, tid) =>
      SetStateLive(k, tid, S.Blocked, x);
  }

  /** The first thread in line exists and stands there only once. */
  lemma FirstInLine(k: Kernel, port: nat)
    requires Valid(k) && Line(k, port) != []
    ensures Live(k, Line(k, port)[0]) && Line(k, port)[0] !in Line(k, port)[1..]
  {
    var id := Line(k, port)[0];
    assert WaitsOn(k, port, 0, id);
    assert IsWaiting(k, id);
    assert IsBlocked(k, id);
    if i: nat :| 1 <= i < |Line(k, port)| && Line(k, port)[i] == id {
      assert WaitsOn(k, port, i, id);
      assert false;
    }
  }

  /** A send wakes the first thread in line or leaves the port's line and wake-ups alone. */
  lemma SendEffect(s: Traced, p: nat, m: I.Message, port: nat)
    ensures var s' := TraceStep(s, Send(p, m)); var line := Line(s.kernel, port);
            if port == p && line != [] && Accepts(s.kernel, Send(p, m), p)
            then Line(s'.kernel, port) == line[1..] && Woken(s', port) == Woken(s, port) + multiset{line[0]}
            else Line(s'.kernel, port) == line && Woken(s', port) == Woken(s, port)
  {}

  /** A receive takes the caller off the wake-ups of the port, and may append it to the line. */
  lemma RecvEffect(s: Traced, p: nat, tid: nat, port: nat)
    ensures var s' := TraceStep(s, Recv(p, tid)); var line := Line(s.kernel, port);
            && Line(s'.kernel, port) ==
                 (if port == p && I.Entry(s.kernel.channels, p).messages == [] then line + [tid] else line)
            && Woken(s', port) == if port == p then Woken(s, port) - multiset{tid} else Woken(s, port)
  {}

  lemma WokenStep(s: Traced, op: Op, port: nat, id: nat)
    requires Valid(s.kernel) && WokenOk(s, port, id)
    ensures WokenOk(TraceStep(s, op), port, id)
  {
    var k := s.kernel;
    if Live(k, id) {
      StepLive(k, op, id);
    }
    match op
    case Send(p, m) =>
      SendEffect(s, p, m, port);
      if Line(k, port) != [] {
        FirstInLine(k, port);
        StepLive(k, op, Line(k, port)[0]);
      }
      hide Valid, Live, Step, Line, Woken, Accepts;
    case Recv(p, tid) =>
      RecvEffect(s, p, tid, port);
      hide Valid, Live, Step, Line, Woken;
    case _ =>
  }

  /** Every legal operation keeps the invariant. */
  lemma TraceStepOk(s: Traced, op: Op)
    requires TracedOk(s) && Legal(s.kernel, op)
    ensures TracedOk(TraceStep(s, op))
  {
    StepValid(s.kernel, op);
    match op {
      case Send(port, m) => I.StepOk(Ports(s), I.SendOp(port, m));
      case Recv(port, tid) => I.StepOk(Ports(s), I.RecvOp(port, tid));
      case _ =>
    }
    forall port, id
      ensures WokenOk(TraceStep(s, op), port, id)
    {
      assert WokenOk(s, port, id);
      hide WokenOk, Valid, I.SystemOk, TraceStep;
      WokenStep(s, op, port, id);
    }
  }

  lemma {:induction false} TraceOk(s: Traced, ops: seq<Op>)
    requires TracedOk(s) && LegalRun(s.kernel, ops)
    ensures TracedOk(Trace(s, ops))
    decreases |ops|
  {
    hide TracedOk, Legal, Step;
    if ops != [] {
      TraceStepOk(s, ops[0]);
      TraceOk(TraceStep(s, ops[0]), ops[1..]);
    }
  }

  lemma StartOk()
    ensures TracedOk(Start())
  {
    assert forall id :: !IsWaiting(Boot(), id) && !IsBlocked(Boot(), id);
  }

  // -------------------------------------------------- who is owed a message

  /** A live thread is Ready exactly when it waits nowhere. */
  lemma ReadyIffNotWaiting(k: Kernel, id: nat)
    requires Valid(k) && Live(k, id)
    ensures IsReady(k, id) <==> !IsWaiting(k, id)
  {
    var ts := k.queue.threads;
    var i :| 0 <= i < |ts| && ts[i].id == id;
    assert IsWaiting(k, id) <==> IsBlocked(k, id);
    assert S.ReadyAt(k.queue, id, i) <==> ts[i].state == S.Ready;
    assert IsBlocked(k, id) <==> ts[i].state == S.Blocked;
    hide IsWaiting, IsBlocked, OnePlace;
    if IsReady(k, id) {
      var p: nat :| S.ReadyAt(k.queue, id, p);
      assert p == i;
    }
  }

  lemma WokenReady(s: Traced, port: nat, id: nat)
    requires TracedOk(s) && id in Woken(s, port)
    ensures IsReady(s.kernel, id) <==> !WaitsElsewhere(s.kernel, port, id)
  {
    var k := s.kernel;
    assert WokenOk(s, port, id);
    ReadyIffNotWaiting(k, id);
    hide Valid, IsReady, Live, I.SystemOk;
    if IsWaiting(k, id) {
      var q: nat, i: nat :| WaitsOn(k, q, i, id);
      assert q != port;
    }
  }

  lemma SizeOfSet(m: multiset<nat>)
    requires forall x <- m :: m[x] == 1
    ensures m == multiset(set x | x in m)
  {}

  /** After every legal run: the threads woken on a port are distinct; each is Ready unless it has since gone to wait
      on another port; and while a thread waits, the messages number at most the woken threads. */
  lemma WokenThreadsAreReady(ops: seq<Op>, port: nat)
    requires LegalRun(Boot(), ops)
    ensures var s := Trace(Start(), ops); var k := Run(Boot(), ops);
            var woken := set id | id in Woken(s, port);
            && (forall id <- woken :: IsReady(k, id) <==> !WaitsElsewhere(k, port, id))
            && (Line(k, port) != [] ==> |I.Entry(k.channels, port).messages| <= |woken|)
  {
    StartOk();
    TraceOk(Start(), ops);
    TraceIsRun(Start(), ops);
    var s := Trace(Start(), ops);
    hide Trace, Run, LegalRun, Start, Boot;
    forall id | id in Woken(s, port)
      ensures IsReady(s.kernel, id) <==> !WaitsElsewhere(s.kernel, port, id)
    {
      WokenReady(s, port, id);
    }
    assert forall id <- Woken(s, port) :: WokenOk(s, port, id);
    SizeOfSet(Woken(s, port));
    assert I.PortOk(I.Entry(s.kernel.channels, port), I.Past(Ports(s), port));
  }

  // --------------------------------------------------------- woken threads run

  function Ticks(ops: seq<Op>): nat {
    if ops == [] then 0 else (if ops[0].Tick? then 1 else 0) + Ticks(ops[1..])
  }

  /** The operation is not a receive by thread `id`. */
  predicate NotRecvBy(op: Op, id: nat) {
    op.Recv? ==> op.tid != id
  }

  /** A send wakes a Blocked thread, never a Ready one. */
  lemma WakesAnother(k: Kernel, port: nat, m: I.Message, id: nat, p: nat)
    requires Valid(k) && S.ReadyAt(k.queue, id, p) && IpcSend(k, port, m).1.Some?
    ensures IpcSend(k, port, m).1.value != id
  {
    var w := IpcSend(k, port, m).1.value;
    assert WaitsOn(k, port, 0, w);
    assert IsWaiting(k, w);
    assert IsBlocked(k, w);
  }

  /** What the operation does to the run queue, as the scheduler sees it; none for no change. */
  function QueueOp(k: Kernel, op: Op): Option<S.Op> {
    match op
    case Spawn(session, name) => Some(S.SpawnOp(session, name))
    case Tick => Some(S.ScheduleOp)
    case Send(port, m) =>
      var w := IpcSend(k, port, m).1;
      if w.Some? then Some(S.SetStateOp(w.value, S.Ready)) else None
    case Recv(port, tid) =>
      if IpcRecv(k, port, tid).1.None? then Some(S.SetStateOp(tid, S.Blocked)) else None
  }

  lemma StepOnQueue(k: Kernel, op: Op)
    ensures Step(k, op).queue == var o := QueueOp(k, op); if o.Some? then S.Step(k.queue, o.value) else k.queue
  {}

  /** A thread Ready at index `p` that does not itself call receive is picked within `p + 1` timer ticks, whatever is
      spawned, sent or received meanwhile. */
  lemma {:induction false} ReadyRuns(k: Kernel, ops: seq<Op>, id: nat, p: nat)
    requires Valid(k) && LegalRun(k, ops) && S.ReadyAt(k.queue, id, p)
    requires forall i | 0 <= i < |ops| :: NotRecvBy(ops[i], id)
    requires Ticks(ops) >= p + 1
    ensures Picked(k, ops, id)
    decreases |ops|
  {
    assert ops != [];
    var op, p' := ops[0], p;
    StepValid(k, op);
    StepOnQueue(k, op);
    var o := QueueOp(k, op);
    if op.Send? && o.Some? {
      WakesAnother(k, op.port, op.m, id, p);
    }
    assert NotRecvBy(op, id);
    if o.Some? {
      p' := S.Advances(k.queue, o.value, id, p);
    }
    hide S.Step, S.Schedule, S.ReadyAt, Step, Valid, Legal;
    if !(op.Tick? && S.Schedule(k.queue).1.value.id == id) {
      ReadyRuns(Step(k, op), ops[1..], id, p');
    }
  }

  /** A thread woken on a port, unless it went to wait on another one, is picked within one round of the queue. */
  lemma WokenRuns(ops: seq<Op>, more: seq<Op>, port: nat, id: nat)
    requires LegalRun(Boot(), ops) && LegalRun(Run(Boot(), ops), more)
    requires id in Woken(Trace(Start(), ops), port) && !WaitsElsewhere(Run(Boot(), ops), port, id)
    requires forall i | 0 <= i < |more| :: NotRecvBy(more[i], id)
    requires Ticks(more) >= |Run(Boot(), ops).queue.threads|
    ensures Picked(Run(Boot(), ops), more, id)
  {
    StartOk();
    TraceOk(Start(), ops);
    TraceIsRun(Start(), ops);
    var s := Trace(Start(), ops);
    hide Trace, Run, LegalRun, Start, Boot, Picked, Ticks;
    WokenReady(s, port, id);
    var p: nat :| S.ReadyAt(s.kernel.queue, id, p);
    ReadyRuns(s.kernel, more, id, p);
  }

  // ------------------------------------------------------- one port per thread

  /** Each thread receives on one port only. */
  ghost predicate StaysHome(ops: seq<Op>, home: nat -> nat) {
    forall i | 0 <= i < |ops| :: ops[i].Recv? ==> ops[i].port == home(ops[i].tid)
  }

  ghost predicate AtHome(s: Traced, home: nat -> nat) {
    && (forall port, id | id in Line(s.kernel, port) :: home(id) == port)
    && (forall port, id | id in Woken(s, port) :: home(id) == port)
  }

  lemma StepAtHome(s: Traced, op: Op, home: nat -> nat, port: nat, id: nat)
    requires AtHome(s, home) && (op.Recv? ==> op.port == home(op.tid))
    ensures var s' := TraceStep(s, op); id in Line(s'.kernel, port) || id in Woken(s', port) ==> home(id) == port
  {
    match op
    case Send(p, m) =>
      SendEffect(s, p, m, port);
      hide TraceStep, Line, Woken;
    case Recv(p, tid) =>
      RecvEffect(s, p, tid, port);
      hide TraceStep, Line, Woken;
    case _ =>
      assert Line(TraceStep(s, op).kernel, port) == Line(s.kernel, port);
      assert Woken(TraceStep(s, op), port) == Woken(s, port);
      hide TraceStep, Line, Woken;
  }

  lemma {:induction false} TraceAtHome(s: Traced, ops: seq<Op>, home: nat -> nat)
    requires AtHome(s, home) && StaysHome(ops, home)
    ensures AtHome(Trace(s, ops), home)
    decreases |ops|
  {
    if ops != [] {
      var s' := TraceStep(s, ops[0]);
      hide TraceStep;
      forall port, id
        ensures id in Line(s'.kernel, port) || id in Woken(s', port) ==> home(id) == port
      {
        StepAtHome(s, ops[0], home, port, id);
      }
      TraceAtHome(s', ops[1..], home);
    }
  }

  lemma NotElsewhere(s: Traced, home: nat -> nat, port: nat, id: nat)
    requires AtHome(s, home) && id in Woken(s, port)
    ensures !WaitsElsewhere(s.kernel, port, id)
  {
    assert home(id) == port;
    assert forall q | id in Line(s.kernel, q) :: home(id) == q;
    assert forall q, i | WaitsOn(s.kernel, q, i, id) :: id in Line(s.kernel, q);
  }

  /** If each thread receives on one port only, every woken thread is Ready: while a thread waits on a port that holds
      messages, at least as many Ready threads are on their way to them. */
  lemma OnePortEach(ops: seq<Op>, home: nat -> nat, port: nat)
    requires LegalRun(Boot(), ops) && StaysHome(ops, home)
    ensures var k := Run(Boot(), ops);
            var woken := set id | id in Woken(Trace(Start(), ops), port);
            && (forall id <- woken :: IsReady(k, id))
            && (Line(k, port) != [] ==> |I.Entry(k.channels, port).messages| <= |woken|)
  {
    var s := Trace(Start(), ops);
    TraceIsRun(Start(), ops);
    TraceAtHome(Start(), ops, home);
    WokenThreadsAreReady(ops, port);
    hide Trace, Run, LegalRun, Start, Boot;
    forall id | id in Woken(s, port)
      ensures !WaitsElsewhere(s.kernel, port, id)
    {
      NotElsewhere(s, home, port, id);
    }
  }

  /** Threads 1 and 2 in the given states, with port 1 in the given state and port 2 untouched. */
  ghost predicate Pair(k: Kernel, first: S.ThreadState, second: S.ThreadState, ch: I.Channel) {
    && k.queue.threads == [S.Thread(1, 0, "", first), S.Thread(2, 0, "", second)]
    && I.Entry(k.channels, 1) == ch && I.Entry(k.channels, 2) == I.Channel([], [])
  }

  lemma PairSet(ts: seq<S.Thread>, first: S.ThreadState, second: S.ThreadState, id: nat, st: S.ThreadState)
    requires ts == [S.Thread(1, 0, "", first), S.Thread(2, 0, "", second)]
    ensures S.SetState(ts, id, st) ==
            [S.Thread(1, 0, "", if id == 1 then st else first), S.Thread(2, 0, "", if id == 2 then st else second)]
  {}

  /** A receive by one of the two on the empty port 1. */
  lemma PairRecv(k: Kernel, first: S.ThreadState, second: S.ThreadState, line: seq<nat>, id: nat) returns (k': Kernel)
    requires Pair(k, first, second, I.Channel([], line)) && 1 <= id <= 2
    ensures k' == Step(k, Recv(1, id))
    ensures Pair(k', if id == 1 then S.Blocked else first, if id == 2 then S.Blocked else second,
                 I.Channel([], line + [id]))
  {
    PairSet(k.queue.threads, first, second, id, S.Blocked);
    hide S.SetState;
    k' := Step(k, Recv(1, id));
  }

  lemma RunTwo(k: Kernel, a: Op, b: Op, rest: seq<Op>)
    requires Legal(k, a) && Legal(Step(k, a), b)
    ensures Run(k, [a, b] + rest) == Run(Step(Step(k, a), b), rest)
    ensures LegalRun(k, [a, b] + rest) == LegalRun(Step(Step(k, a), b), rest)
  {
    hide Step, Legal;
    assert ([a, b] + rest)[1..] == [b] + rest && ([b] + rest)[1..] == rest;
  }

  /** Thread 1, woken on port 1, calls receive on port 2. */
  lemma PairParts(k: Kernel, m: I.Message)
    requires Pair(k, S.Blocked, S.Blocked, I.Channel([], [1, 2]))
    ensures Legal(Step(k, Send(1, m)), Recv(2, 1))
    ensures var k' := Step(Step(k, Send(1, m)), Recv(2, 1));
            I.Entry(k'.channels, 1) == I.Channel([m], [2]) && S.Schedule(k'.queue).1.None?
  {
    PairSet(k.queue.threads, S.Blocked, S.Blocked, 1, S.Ready);
    var ts := S.SetState(k.queue.threads, 1, S.Ready);
    PairSet(ts, S.Ready, S.Blocked, 1, S.Blocked);
    S.ScheduleRotates(Step(Step(k, Send(1, m)), Recv(2, 1)).queue);
    hide S.SetState, S.Schedule;
    assert ts[0].id == 1 && ts[0] in Step(k, Send(1, m)).queue.threads;
  }

  /** Without that condition a wake-up is lost: thread 1, woken on port 1, goes to wait on port 2, and the message for
      port 1 stays while thread 2 waits for it and nothing can run. */
  lemma WokenThreadGoesElsewhere(m: I.Message) returns (ops: seq<Op>)
    ensures LegalRun(Boot(), ops)
    ensures var k := Run(Boot(), ops);
            I.Entry(k.channels, 1) == I.Channel([m], [2]) && S.Schedule(k.queue).1.None?
  {
    hide S.SetState, S.Schedule, IpcSend, IpcRecv;
    var last := [Send(1, m), Recv(2, 1)];
    var recvs := [Recv(1, 1), Recv(1, 2)] + last;
    ops := [Spawn(0, ""), Spawn(0, "")] + recvs;
    var k2 := Step(Step(Boot(), Spawn(0, "")), Spawn(0, ""));
    assert Pair(k2, S.Ready, S.Ready, I.Channel([], []));
    assert k2.queue.threads[0].id == 1;
    assert forall k :: Run(k, []) == k && LegalRun(k, []);
    hide Run, LegalRun;
    RunTwo(Boot(), Spawn(0, ""), Spawn(0, ""), recvs);
    hide Step, Boot;
    var k3 := PairRecv(k2, S.Ready, S.Ready, [], 1);
    var k4 := PairRecv(k3, S.Blocked, S.Ready, [1], 2);
    assert k3.queue.threads[1].id == 2;
    RunTwo(k2, Recv(1, 1), Recv(1, 2), last);
    PairParts(k4, m);
    RunTwo(k4, Send(1, m), Recv(2, 1), []);
    assert last == last + [];
  }
}
