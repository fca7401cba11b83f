/** Message ports and blocking receive (kernel/src/ipc.rs). */
module Ipc {
  import opened Options

  const QUEUE_LIMIT := 1024

  datatype Message = Message(sender: nat, payload: string)

  datatype Channel = Channel(messages: seq<Message>, blocked: seq<nat>)

  type Channels = map<nat, Channel>

  /** `entry(port).or_insert_with(..)`. */
  function Entry(cs: Channels, port: nat): Channel {
    if port in cs then cs[port] else Channel([], [])
  }

  /** `send`: a full queue drops the message; otherwise it is queued and the longest-waiting thread is returned. */
  function SendOn(ch: Channel, m: Message): (Channel, Option<nat>) {
    if |ch.messages| >= QUEUE_LIMIT then (ch, None)
    else if ch.blocked == [] then (Channel(ch.messages + [m], []), None)
    else (Channel(ch.messages + [m], ch.blocked[1..]), Some(ch.blocked[0]))
  }

  /** `recv`: the oldest message, or the caller joins the waiting threads. */
  function RecvOn(ch: Channel, tid: nat): (Channel, Option<Message>) {
    if ch.messages != [] then (Channel(ch.messages[1..], ch.blocked), Some(ch.messages[0]))
    else (Channel([], ch.blocked + [tid]), None)
  }

  function Send(cs: Channels, port: nat, m: Message): (Channels, Option<nat>) {
    var r := SendOn(Entry(cs, port), m);
    (cs[port := r.0], r.1)
  }

  function Recv(cs: Channels, port: nat, tid: nat): (Channels, Option<Message>) {
    var r := RecvOn(Entry(cs, port), tid);
    (cs[port := r.0], r.1)
  }

  /** The subsystem's only field, changed in place. */
  class IpcSubsystem {
    var channels: Channels

    constructor ()
      ensures channels == map[]
    {
      channels := map[];
    }

    method SendMessage(port: nat, m: Message) returns (woken: Option<nat>)
      modifies this
      ensures (channels, woken) == Send(old(channels), port, m)
    {
      if port !in channels {
        channels := channels[port := Channel([], [])];
      }
      var channel := channels[port];
      if |channel.messages| >= QUEUE_LIMIT {
        assert channels == Send(old(channels), port, m).0;
        return None;
      }
      channel := channel.(messages := channel.messages + [m]);
      if channel.blocked == [] {
        woken := None;
      } else {
        woken := Some(channel.blocked[0]);
        channel := channel.(blocked := channel.blocked[1..]);
      }
      channels := channels[port := channel];
      assert channels == Send(old(channels), port, m).0;
    }

    method ReceiveMessage(port: nat, tid: nat) returns (m: Option<Message>)
      modifies this
      ensures (channels, m) == Recv(old(channels), port, tid)
    {
      if port !in channels {
        channels := channels[port := Channel([], [])];
      }
      var channel := channels[port];
      if channel.messages != [] {
        m := Some(channel.messages[0]);
        channel := channel.(messages := channel.messages[1..]);
      } else {
        m := None;
        channel := channel.(blocked := channel.blocked + [tid]);
      }
      channels := channels[port := channel];
      assert channels == Recv(old(channels), port, tid).0;
    }
  }

  // ------------------------------------------------------- history of a port

  /** What happened on a port: messages accepted and delivered, and threads woken there that have not
      called receive on it since. */
  datatype History = History(accepted: seq<Message>, delivered: seq<Message>, woken: multiset<nat>)

  datatype System = System(channels: Channels, history: map<nat, History>)

  datatype Op = SendOp(port: nat, m: Message) | RecvOp(port: nat, tid: nat)

  function Past(s: System, port: nat): History {
    if port in s.history then s.history[port] else History([], [], multiset{})
  }

  function Step(s: System, op: Op): System {
    var h := Past(s, op.port);
    match op
    case SendOp(port, m) =>
      var ch := Entry(s.channels, port);
      var r := Send(s.channels, port, m);
      var h1 := if |ch.messages| < QUEUE_LIMIT then h.(accepted := h.accepted + [m]) else h;
      var h2 := if r.1.Some? then h1.(woken := h1.woken + multiset{r.1.value}) else h1;
      System(r.0, s.history[port := h2])
    case RecvOp(port, tid) =>
      var r := Recv(s.channels, port, tid);
      var h1 := h.(woken := h.woken - multiset{tid});
      var h2 := if r.1.Some? then h1.(delivered := h1.delivered + [r.1.value]) else h1;
      System(r.0, s.history[port := h2])
  }

  /** Messages leave in the order they were accepted, at most 1024 wait, and while a thread is blocked every
      waiting message has a woken thread that has yet to come for it. */
  ghost predicate PortOk(ch: Channel, h: History) {
    && h.accepted == h.delivered + ch.messages
    && |ch.messages| <= QUEUE_LIMIT
    && (ch.blocked != [] ==> |ch.messages| <= |h.woken|)
  }

  ghost predicate SystemOk(s: System) {
    forall port :: PortOk(Entry(s.channels, port), Past(s, port))
  }

  lemma StepOk(s: System, op: Op)
    requires SystemOk(s)
    ensures SystemOk(Step(s, op))
  {
    var s' := Step(s, op);
    forall port
      ensures PortOk(Entry(s'.channels, port), Past(s', port))
    {
      assert PortOk(Entry(s.channels, port), Past(s, port));
      if port == op.port {
        PortStepOk(s, op);
      }
    }
  }

  lemma PortStepOk(s: System, op: Op)
    requires PortOk(Entry(s.channels, op.port), Past(s, op.port))
    ensures PortOk(Entry(Step(s, op).channels, op.port), Past(Step(s, op), op.port))
  {
    var ch, h := Entry(s.channels, op.port), Past(s, op.port);
    match op
    case SendOp(port, m) =>
      assert h.delivered + ch.messages + [m] == h.delivered + (ch.messages + [m]);
    case RecvOp(port, tid) =>
      assert |h.woken - multiset{tid}| >= |h.woken| - 1;
      assert ch.messages != [] ==> h.delivered + ch.messages == h.delivered + [ch.messages[0]] + ch.messages[1..];
  }

  ghost function Run(s: System, ops: seq<Op>): System
    decreases |ops|
  {
    if ops == [] then s else Run(Step(s, ops[0]), ops[1..])
  }

  lemma {:induction false} RunOk(s: System, ops: seq<Op>)
    requires SystemOk(s)
    ensures SystemOk(Run(s, ops))
    decreases |ops|
  {
    hide SystemOk, Step;
    if ops != [] {
      StepOk(s, ops[0]);
      RunOk(Step(s, ops[0]), ops[1..]);
    }
  }

  /** No lost wake-up and FIFO delivery, on every port after every run of sends and receives. */
  lemma NoLostWakeup(ops: seq<Op>, port: nat)
    ensures var s := Run(System(map[], map[]), ops);
            var ch, h := Entry(s.channels, port), Past(s, port);
            && (ch.blocked != [] ==> |ch.messages| <= |h.woken|)
            && h.delivered + ch.messages == h.accepted
            && |ch.messages| <= QUEUE_LIMIT
  {
    RunOk(System(map[], map[]), ops);
    var s := Run(System(map[], map[]), ops);
    hide Run;
    assert PortOk(Entry(s.channels, port), Past(s, port));
  }
}
