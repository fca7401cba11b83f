/** The round-robin scheduler (kernel/src/sched.rs): rotation and bounded waiting. */
module Scheduler {
  import opened Options

  datatype ThreadState = Ready | Running | Blocked | Zombie

  datatype Thread = Thread(id: nat, session: nat, name: string, state: ThreadState)

  /** The scheduler's fields; the active thread is named by its id. */
  datatype Queue = Queue(threads: seq<Thread>, nextId: nat, active: Option<nat>)

  // ------------------------------------------------------------- operations

  function SpawnThread(q: Queue, session: nat, name: string): Queue {
    q.(threads := q.threads + [Thread(q.nextId, session, name, Ready)], nextId := q.nextId + 1)
  }

  /** Index of the first Ready thread, or the length. */
  function FirstReady(ts: seq<Thread>): (k: nat)
    ensures k <= |ts| && (forall i | 0 <= i < k :: ts[i].state != Ready) && (k < |ts| ==> ts[k].state == Ready)
  {
    if ts == [] || ts[0].state == Ready then 0 else 1 + FirstReady(ts[1..])
  }

  function Rotate(ts: seq<Thread>, k: nat): seq<Thread>
    requires k <= |ts|
  {
    ts[k..] + ts[..k]
  }

  /** `schedule_next`: move everything up to the first Ready thread to the back and run that thread. */
  function Schedule(q: Queue): (Queue, Option<Thread>) {
    var k := FirstReady(q.threads);
    if k == |q.threads| then (q, None)
    else (q.(threads := Rotate(q.threads, k + 1), active := Some(q.threads[k].id)), Some(q.threads[k]))
  }

  /** Set the state of the threads with this id. */
  function SetState(ts: seq<Thread>, id: nat, state: ThreadState): (r: seq<Thread>)
    ensures |r| == |ts|
    ensures forall i | 0 <= i < |ts| :: r[i] == if ts[i].id == id then ts[i].(state := state) else ts[i]
  {
    if ts == [] then []
    else [if ts[0].id == id then ts[0].(state := state) else ts[0]] + SetState(ts[1..], id, state)
  }

  /** Keep the threads that are not Zombie. */
  function Alive(ts: seq<Thread>): seq<Thread> {
    if ts == [] then []
    else if ts[0].state == Zombie then Alive(ts[1..])
    else [ts[0]] + Alive(ts[1..])
  }

  lemma AliveEmpty()
    ensures Alive([]) == []
  {}

  lemma AliveStep(ts: seq<Thread>, i: nat, kept: seq<Thread>)
    requires i < |ts|
    ensures kept + Alive(ts[i..]) == (if ts[i].state == Zombie then kept else kept + [ts[i]]) + Alive(ts[i + 1..])
  {}

  function Terminate(q: Queue, id: nat): Queue {
    q.(threads := Alive(SetState(q.threads, id, Zombie)))
  }

  // ------------------------------------------------------------- invariant

  ghost predicate UniqueIds(q: Queue) {
    && (forall i | 0 <= i < |q.threads| :: q.threads[i].id < q.nextId)
    && (forall i, j | 0 <= i < j < |q.threads| :: q.threads[i].id != q.threads[j].id)
  }

  /** `schedule_next` only rotates, and returns nothing exactly when nothing is Ready; otherwise it makes the first
      Ready thread active and puts it last. */
  lemma ScheduleRotates(q: Queue)
    ensures Schedule(q).1.None? <==> forall i | 0 <= i < |q.threads| :: q.threads[i].state != Ready
    ensures exists k :: 0 <= k <= |q.threads| && Schedule(q).0.threads == Rotate(q.threads, k)
    ensures Schedule(q).1.Some? ==> Schedule(q).1.value.state == Ready && Schedule(q).1.value in q.threads
    ensures Schedule(q).1.None? ==> Schedule(q).0 == q
    ensures Schedule(q).1.Some? ==>
              var (q', t) := Schedule(q);
              && q'.active == Some(t.value.id) && q'.nextId == q.nextId
              && q'.threads != [] && q'.threads[|q'.threads| - 1] == t.value
              && exists k | 0 <= k < |q.threads| ::
                   q.threads[k] == t.value && forall i | 0 <= i < k :: q.threads[i].state != Ready
  {
    assert Rotate(q.threads, 0) == q.threads;
    var k := FirstReady(q.threads);
    if k < |q.threads| {
      assert Rotate(q.threads, k + 1)[|q.threads| - 1] == q.threads[k];
    }
  }

  lemma ScheduleMembers(q: Queue)
    ensures forall t :: t in Schedule(q).0.threads <==> t in q.threads
  {}

  datatype Op =
    | SpawnOp(session: nat, name: string)
    | ScheduleOp
    | TerminateOp(id: nat)
    | SetStateOp(id: nat, state: ThreadState)  // blocked or woken by the rest of the kernel

  function Step(q: Queue, op: Op): Queue {
    match op
    case SpawnOp(session, name) => SpawnThread(q, session, name)
    case ScheduleOp => Schedule(q).0
    case TerminateOp(id) => Terminate(q, id)
    case SetStateOp(id, state) => q.(threads := SetState(q.threads, id, state))
  }

  lemma {:induction false} AliveKeeps(ts: seq<Thread>)
    ensures |Alive(ts)| <= |ts|
    ensures forall i | 0 <= i < |Alive(ts)| :: Alive(ts)[i] in ts
    ensures (forall i, j | 0 <= i < j < |ts| :: ts[i].id != ts[j].id) ==>
              forall i, j | 0 <= i < j < |Alive(ts)| :: Alive(ts)[i].id != Alive(ts)[j].id
  {
    if ts != [] {
      AliveKeeps(ts[1..]);
    }
  }

  lemma TerminateKeepsUnique(q: Queue, id: nat)
    requires UniqueIds(q)
    ensures UniqueIds(Terminate(q, id))
  {
    var ts := SetState(q.threads, id, Zombie);
    AliveKeeps(ts);
    hide Alive, SetState;
    forall i | 0 <= i < |Alive(ts)|
      ensures Alive(ts)[i].id < q.nextId
    {
      assert Alive(ts)[i] in ts;
    }
  }

  lemma RotateKeepsUnique(q: Queue, k: nat, active: Option<nat>)
    requires UniqueIds(q) && k <= |q.threads|
    ensures UniqueIds(q.(threads := Rotate(q.threads, k), active := active))
  {
  }

  lemma StepKeepsUnique(q: Queue, op: Op)
    requires UniqueIds(q)
    ensures UniqueIds(Step(q, op))
  {
    match op
    case SpawnOp(session, name) =>
    case ScheduleOp =>
      hide UniqueIds, Rotate;
      var k := FirstReady(q.threads);
      if k < |q.threads| {
        RotateKeepsUnique(q, k + 1, Some(q.threads[k].id));
      }
    case TerminateOp(id) =>
      hide UniqueIds, Terminate;
      TerminateKeepsUnique(q, id);
    case SetStateOp(id, state) =>
      hide SetState;
  }

  // ------------------------------------------------------- bounded waiting

  /** Thread `id` is Ready at index `p`. */
  ghost predicate ReadyAt(q: Queue, id: nat, p: nat) {
    p < |q.threads| && q.threads[p].id == id && q.threads[p].state == Ready
  }

  /** The operation neither terminates thread `id` nor changes its state. */
  predicate Spares(op: Op, id: nat) {
    match op
    case TerminateOp(i) => i != id
    case SetStateOp(i, _) => i != id
    case _ => true
  }

  /** Where a thread that is not a Zombie ends up when Zombies are dropped. */
  lemma {:induction false} AliveIndex(ts: seq<Thread>, p: nat) returns (p': nat)
    requires p < |ts| && ts[p].state != Zombie
    ensures p' <= p && p' < |Alive(ts)| && Alive(ts)[p'] == ts[p]
  {
    if p == 0 {
      p' := 0;
    } else {
      var r := AliveIndex(ts[1..], p - 1);
      p' := if ts[0].state == Zombie then r else r + 1;
    }
  }

  /** One operation: either the thread runs, or it stays Ready and has not moved back;
      a scheduling call that passes it over moves it forward. */
  lemma Advances(q: Queue, op: Op, id: nat, p: nat) returns (p': nat)
    requires UniqueIds(q) && ReadyAt(q, id, p) && Spares(op, id)
    ensures op.ScheduleOp? ==> Schedule(q).1.Some?
    ensures !(op.ScheduleOp? && Schedule(q).1.value.id == id) ==>
              ReadyAt(Step(q, op), id, p') && p' <= p && (op.ScheduleOp? ==> p' < p)
  {
    p' := p;
    match op
    case SpawnOp(_, _) =>
    case ScheduleOp =>
      var k := FirstReady(q.threads);
      if k < p {
        p' := p - k - 1;
        assert Rotate(q.threads, k + 1)[p'] == q.threads[p];
      }
    case TerminateOp(i) =>
      p' := AliveIndex(SetState(q.threads, i, Zombie), p);
    case SetStateOp(i, s) =>
  }

  /** Some scheduling call of the run picks thread `id`. */
  predicate Runs(q: Queue, ops: seq<Op>, id: nat)
    decreases |ops|
  {
    ops != [] &&
    ((ops[0].ScheduleOp? && Schedule(q).1.Some? && Schedule(q).1.value.id == id) ||
     Runs(Step(q, ops[0]), ops[1..], id))
  }

  function Schedules(ops: seq<Op>): nat {
    if ops == [] then 0 else (if ops[0].ScheduleOp? then 1 else 0) + Schedules(ops[1..])
  }

  /** A thread at index `p` that stays Ready runs within `p + 1` scheduling calls, whatever else happens. */
  lemma {:induction false} BoundedWaiting(q: Queue, ops: seq<Op>, id: nat, p: nat)
    requires UniqueIds(q) && ReadyAt(q, id, p)
    requires forall i | 0 <= i < |ops| :: Spares(ops[i], id)
    requires Schedules(ops) >= p + 1
    ensures Runs(q, ops, id)
    decreases |ops|
  {
    assert ops != [];
    var op := ops[0];
    StepKeepsUnique(q, op);
    var p' := Advances(q, op, id, p);
    hide Step, Schedule, ReadyAt;
    if !(op.ScheduleOp? && Schedule(q).1.value.id == id) {
      BoundedWaiting(Step(q, op), ops[1..], id, p');
    }
  }

  // ------------------------------------------------------- termination

  /** The threads other than `id` that are not Zombies, in order. */
  function Others(ts: seq<Thread>, id: nat): seq<Thread> {
    if ts == [] then []
    else if ts[0].id == id || ts[0].state == Zombie then Others(ts[1..], id)
    else [ts[0]] + Others(ts[1..], id)
  }

  lemma {:induction false} OthersRemain(ts: seq<Thread>, id: nat)
    ensures Alive(SetState(ts, id, Zombie)) == Others(ts, id)
  {
    if ts != [] {
      OthersRemain(ts[1..], id);
      var ms := SetState(ts, id, Zombie);
      assert ms[1..] == SetState(ts[1..], id, Zombie);
    }
  }

  lemma {:induction false} OthersExact(ts: seq<Thread>, id: nat, t: Thread)
    ensures t in Others(ts, id) <==> t in ts && t.id != id && t.state != Zombie
  {
    if ts != [] {
      OthersExact(ts[1..], id, t);
    }
  }

  ghost predicate Absent(q: Queue, id: nat) {
    id < q.nextId && forall t <- q.threads :: t.id != id
  }

  lemma AbsentStep(q: Queue, op: Op, id: nat)
    requires Absent(q, id)
    ensures Absent(Step(q, op), id)
    ensures op.ScheduleOp? && Schedule(q).1.Some? ==> Schedule(q).1.value.id != id
  {
    match op
    case SpawnOp(_, _) =>
    case ScheduleOp =>
      ScheduleMembers(q);
      ScheduleRotates(q);
    case TerminateOp(i) =>
      hide Alive, SetState, Others;
      OthersRemain(q.threads, i);
      forall t <- Others(q.threads, i) ensures t.id != id { OthersExact(q.threads, i, t); }
    case SetStateOp(i, s) =>
      hide SetState;
  }

  lemma {:induction false} NeverAgain(q: Queue, ops: seq<Op>, id: nat)
    requires Absent(q, id)
    ensures !Runs(q, ops, id)
    decreases |ops|
  {
    if ops != [] {
      AbsentStep(q, ops[0], id);
      hide Absent, Step, Schedule;
      NeverAgain(Step(q, ops[0]), ops[1..], id);
    }
  }

  /** A terminated thread is gone and never runs again, whatever happens; the others keep their order, less the
      Zombies. */
  lemma TerminatedForGood(q: Queue, id: nat, ops: seq<Op>)
    requires id < q.nextId
    ensures Terminate(q, id) == q.(threads := Others(q.threads, id))
    ensures forall t :: t in Terminate(q, id).threads <==> t in q.threads && t.id != id && t.state != Zombie
    ensures !Runs(Terminate(q, id), ops, id)
  {
    OthersRemain(q.threads, id);
    hide Alive, SetState, Others, Runs;
    forall t
      ensures t in Terminate(q, id).threads <==> t in q.threads && t.id != id && t.state != Zombie
    {
      OthersExact(q.threads, id, t);
    }
    NeverAgain(Terminate(q, id), ops, id);
  }

  // ------------------------------------------------------------ the class

  /** One turn of the loop in `schedule_next`. */
  lemma RotateStep(ts: seq<Thread>, i: nat)
    requires i < |ts|
    ensures var r := Rotate(ts, i);
            r != [] && r[0] == ts[i] && r[1..] + [ts[i]] == Rotate(ts, i + 1)
  {}

  lemma RotateAll(ts: seq<Thread>)
    ensures Rotate(ts, 0) == ts == Rotate(ts, |ts|)
  {}

  class ThreadScheduler {
    var threads: seq<Thread>
    var nextThreadId: nat
    var activeThread: Option<nat>

    ghost function State(): Queue
      reads this
    {
      Queue(threads, nextThreadId, activeThread)
    }

    constructor ()
      ensures State() == Queue([], 1, None) && UniqueIds(State())
    {
      threads, nextThreadId, activeThread := [], 1, None;
    }

    method Spawn(session: nat, name: string) returns (id: nat)
      modifies this
      ensures State() == SpawnThread(old(State()), session, name) && id == old(nextThreadId)
      ensures threads == old(threads) + [Thread(id, session, name, Ready)] && nextThreadId == id + 1
    {
      id := nextThreadId;
      nextThreadId := nextThreadId + 1;
      threads := threads + [Thread(id, session, name, Ready)];
    }

    method ScheduleNext() returns (next: Option<Thread>)
      modifies this
      ensures (State(), next) == Schedule(old(State()))
    {
      ghost var ts := threads;
      var n, i := |threads|, 0;
      RotateAll(ts);
      hide Rotate, FirstReady;
      while i < n
        invariant 0 <= i <= n == |ts| && threads == Rotate(ts, i) && i <= FirstReady(ts)
        invariant nextThreadId == old(nextThreadId) && activeThread == old(activeThread)
      {
        RotateStep(ts, i);
        var thread := threads[0];
        threads := threads[1..] + [thread];
        if thread.state == Ready {
          activeThread := Some(thread.id);
          return Some(thread);
        }
        i := i + 1;
      }
      return None;
    }

    /** The loop with which the kernel blocks, wakes or kills a thread. */
    method MarkThread(id: nat, state: ThreadState)
      modifies this
      ensures State() == old(State()).(threads := SetState(old(threads), id, state))
    {
      ghost var marked := SetState(threads, id, state);
      hide SetState;
      var i := 0;
      while i < |threads|
        invariant 0 <= i <= |threads| == |marked|
        invariant forall j | 0 <= j < |threads| :: threads[j] == if j < i then marked[j] else old(threads)[j]
        invariant nextThreadId == old(nextThreadId) && activeThread == old(activeThread)
      {
        if threads[i].id == id {
          threads := threads[i := threads[i].(state := state)];
        }
        i := i + 1;
      }
      assert threads == marked;
    }

    method TerminateThread(id: nat)
      modifies this
      ensures State() == Terminate(old(State()), id)
    {
      MarkThread(id, Zombie);
      hide SetState, Alive;
      ghost var marked := threads;
      var kept := [];
      var i := 0;
      assert marked[0..] == marked;
      while i < |threads|
        invariant 0 <= i <= |threads| && threads == marked && kept + Alive(marked[i..]) == Alive(marked)
        invariant nextThreadId == old(nextThreadId) && activeThread == old(activeThread)
      {
        AliveStep(marked, i, kept);
        if threads[i].state != Zombie {
          kept := kept + [threads[i]];
        }
        i := i + 1;
      }
      assert Alive(marked[i..]) == [] by { AliveEmpty(); }
      threads := kept;
    }
  }
}
