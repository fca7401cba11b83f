/** The single-producer single-consumer key ring (drivers/keyboard.zig), one shared access at a time. */
module KeyboardRing {
  import opened Options
  import opened Bytes

  const RING_BUF_SIZE := 256

  /** Where the interrupt handler stands inside `ring_put`. */
  datatype Producer =
    | PIdle
    | PHead(c: Byte, head: nat)   // has loaded the head index
    | PWrite(c: Byte, head: nat)  // has loaded the tail index and found room
    | PStore(c: Byte, head: nat)  // has written the slot

  /** Where the shell stands inside `read_key`. */
  datatype Consumer =
    | CIdle
    | CHead(head: nat)            // has loaded the head index
    | CRead(tail: nat)            // has loaded the tail index and found a byte
    | CStore(tail: nat, c: Byte)  // has read the slot

  /** Shared memory, the two program counters, and the history: bytes published by the producer, bytes returned
      by the consumer, and how many were published when the consumer last loaded the head. */
  datatype Ring = Ring(
    buf: seq<Byte>, head: nat, tail: nat, p: Producer, c: Consumer,
    accepted: seq<Byte>, delivered: seq<Byte>, seen: nat)

  /** `Press` begins a `ring_put`; the other two perform the next shared access of either side. */
  datatype Action = Press(c: Byte) | ProducerStep | ConsumerStep

  function Next(s: Ring, a: Action): Ring {
    match a
    case Press(c) => if s.p.PIdle? then s.(p := PHead(c, s.head)) else s
    case ProducerStep => ProducerNext(s)
    case ConsumerStep => ConsumerNext(s)
  }

  function ProducerNext(s: Ring): Ring {
    match s.p
    case PIdle => s
    case PHead(c, h) => s.(p := if (h + 1) % RING_BUF_SIZE != s.tail then PWrite(c, h) else PIdle)
    case PWrite(c, h) => s.(buf := if h < |s.buf| then s.buf[h := c] else s.buf, p := PStore(c, h))
    case PStore(c, h) => s.(head := (h + 1) % RING_BUF_SIZE, p := PIdle, accepted := s.accepted + [c])
  }

  function ConsumerNext(s: Ring): Ring {
    match s.c
    case CIdle => s.(c := CHead(s.head), seen := |s.accepted|)
    case CHead(h) => s.(c := if h == s.tail then CIdle else CRead(s.tail))
    case CRead(t) => s.(c := CStore(t, if t < |s.buf| then s.buf[t] else 0))
    case CStore(t, c) => s.(tail := (t + 1) % RING_BUF_SIZE, c := CIdle, delivered := s.delivered + [c])
  }

  /** The slot of the `k`-th byte. */
  function Slot(k: nat): (i: nat)
    ensures i < RING_BUF_SIZE
  {
    k % RING_BUF_SIZE
  }

  ghost predicate Queue(s: Ring) {
    && |s.buf| == RING_BUF_SIZE
    && s.head == Slot(|s.accepted|) && s.tail == Slot(|s.delivered|)
    && |s.delivered| <= |s.accepted| <= |s.delivered| + 255
    && s.delivered == s.accepted[..|s.delivered|]
    && forall k | |s.delivered| <= k < |s.accepted| :: s.buf[Slot(k)] == s.accepted[k]
  }

  ghost predicate ProducerOk(s: Ring) {
    match s.p
    case PIdle => true
    case PHead(_, h) => h == s.head
    case PWrite(_, h) => h == s.head && |s.accepted| <= |s.delivered| + 254
    case PStore(c, h) => h == s.head && |s.accepted| <= |s.delivered| + 254 && h < |s.buf| && s.buf[h] == c
  }

  ghost predicate ConsumerOk(s: Ring) {
    match s.c
    case CIdle => true
    case CHead(h) => h == Slot(s.seen) && |s.delivered| <= s.seen <= |s.accepted| && s.seen <= |s.delivered| + 255
    case CRead(t) => t == s.tail && |s.delivered| < |s.accepted|
    case CStore(t, c) => t == s.tail && |s.delivered| < |s.accepted| && c == s.accepted[|s.delivered|]
  }

  ghost predicate Inv(s: Ring) {
    Queue(s) && ProducerOk(s) && ConsumerOk(s)
  }

  /** Slots of pending bytes, and the slot after them, are all different. */
  lemma SlotsDiffer(j: nat, k: nat)
    requires j < k <= j + 255
    ensures Slot(j) != Slot(k)
  {}

  lemma NextSlot(k: nat)
    ensures (Slot(k) + 1) % RING_BUF_SIZE == Slot(k + 1)
  {}

  /** Advancing the head meets the tail exactly when 255 bytes are pending. */
  lemma FullMeets(d: nat, a: nat)
    requires d <= a <= d + 255
    ensures Slot(a + 1) == Slot(d) <==> a == d + 255
  {}

  lemma WriteKeepsInv(s: Ring)
    requires Inv(s) && s.p.PWrite?
    ensures Inv(ProducerNext(s))
  {}

  lemma ProducerKeepsInv(s: Ring)
    requires Inv(s)
    ensures Inv(ProducerNext(s))
  {
    hide Slot;
    match s.p
    case PIdle =>
    case PHead(c, h) =>
      NextSlot(|s.accepted|);
      FullMeets(|s.delivered|, |s.accepted|);
    case PWrite(c, h) =>
      WriteKeepsInv(s);
    case PStore(c, h) =>
      NextSlot(|s.accepted|);
  }

  lemma ConsumerKeepsInv(s: Ring)
    requires Inv(s)
    ensures Inv(ConsumerNext(s))
  {
    hide Slot;
    match s.c
    case CIdle =>
    case CHead(h) =>
    case CRead(t) =>
      assert s.buf[Slot(|s.delivered|)] == s.accepted[|s.delivered|];
    case CStore(t, c) =>
      NextSlot(|s.delivered|);
  }

  function InitialRing(buf: seq<Byte>): Ring {
    Ring(buf, 0, 0, PIdle, CIdle, [], [], 0)
  }

  ghost function Run(s: Ring, actions: seq<Action>): Ring
    decreases |actions|
  {
    if actions == [] then s else Run(Next(s, actions[0]), actions[1..])
  }

  lemma {:induction false} RunKeepsInv(s: Ring, actions: seq<Action>)
    requires Inv(s)
    ensures Inv(Run(s, actions))
    decreases |actions|
  {
    if actions != [] {
      if actions[0].ProducerStep? { ProducerKeepsInv(s); }
      if actions[0].ConsumerStep? { ConsumerKeepsInv(s); }
      hide ProducerNext, ConsumerNext;
      RunKeepsInv(Next(s, actions[0]), actions[1..]);
    }
  }

  /** Under every interleaving: bytes returned are a prefix of bytes published, at most 255 are pending,
      and a pending write never targets the slot of a pending read. */
  lemma EveryInterleavingIsFifo(buf: seq<Byte>, actions: seq<Action>)
    requires |buf| == RING_BUF_SIZE
    ensures var s := Run(InitialRing(buf), actions);
            && s.delivered <= s.accepted && |s.accepted| - |s.delivered| <= 255
            && (s.p.PWrite? && s.c.CRead? ==> s.p.head != s.c.tail)
            && (s.c.CStore? ==> s.delivered + [s.c.c] <= s.accepted)
  {
    RunKeepsInv(InitialRing(buf), actions);
    var s := Run(InitialRing(buf), actions);
    hide Run;
    if s.p.PWrite? && s.c.CRead? {
      SlotsDiffer(|s.delivered|, |s.accepted|);
    }
  }

  /** A key is dropped exactly when 255 bytes are pending at the moment the tail is loaded, and a read returns
      nothing exactly when every byte published by the time it loaded the head has been returned. */
  lemma DecisionsAreExact(s: Ring)
    requires Inv(s)
    ensures s.p.PHead? ==> (ProducerNext(s).p.PIdle? <==> |s.accepted| - |s.delivered| == 255)
    ensures s.c.CHead? ==> (ConsumerNext(s).c.CIdle? <==> s.seen == |s.delivered|)
  {
    hide Slot;
    if s.p.PHead? {
      NextSlot(|s.accepted|);
      FullMeets(|s.delivered|, |s.accepted|);
    }
    if s.c.CHead? && s.seen > |s.delivered| {
      SlotsDiffer(|s.delivered|, s.seen);
    }
  }

  // ------------------------------------------------------- uninterrupted calls

  /** `ring_put` with no step of the other side in between. */
  function PutCall(s: Ring, c: Byte): Ring {
    ProducerNext(ProducerNext(ProducerNext(Next(s, Press(c)))))
  }

  /** `read_key` with no step of the other side in between. */
  function ReadCall(s: Ring): Ring {
    var s2 := ConsumerNext(ConsumerNext(s));
    if s2.c.CIdle? then s2 else ConsumerNext(ConsumerNext(s2))
  }

  lemma PutCallAppends(s: Ring, c: Byte)
    requires Inv(s) && s.p.PIdle?
    ensures Inv(PutCall(s, c)) && PutCall(s, c).p.PIdle? && PutCall(s, c).delivered == s.delivered
    ensures PutCall(s, c).accepted == if |s.accepted| - |s.delivered| < 255 then s.accepted + [c] else s.accepted
  {
    hide Slot, Queue, ConsumerOk;
    var s1 := Next(s, Press(c));
    assert Inv(s1) by { assert Queue(s1) && ConsumerOk(s1) by { IdlePress(s, c); } }
    DecisionsAreExact(s1);
    ProducerKeepsInv(s1);
    ProducerKeepsInv(ProducerNext(s1));
    ProducerKeepsInv(ProducerNext(ProducerNext(s1)));
    assert |s.accepted| - |s.delivered| <= 255 by { IdlePress(s, c); }
  }

  lemma PutCallShape(s: Ring, c: Byte)
    requires s.p.PIdle? && s.head < |s.buf|
    ensures var next := (s.head + 1) % RING_BUF_SIZE;
            PutCall(s, c) == if next == s.tail then s
                             else s.(buf := s.buf[s.head := c], head := next, accepted := s.accepted + [c])
  {}

  lemma IdlePress(s: Ring, c: Byte)
    requires Inv(s) && s.p.PIdle?
    ensures Queue(Next(s, Press(c))) && ConsumerOk(Next(s, Press(c))) && |s.accepted| - |s.delivered| <= 255
  {}

  lemma ReadCallTakesFirst(s: Ring)
    requires Inv(s) && s.c.CIdle?
    ensures Inv(ReadCall(s)) && ReadCall(s).c.CIdle? && ReadCall(s).accepted == s.accepted
    ensures ReadCall(s).delivered ==
              if |s.delivered| < |s.accepted| then s.accepted[..|s.delivered| + 1] else s.delivered
  {
    hide Slot, Queue, ProducerOk;
    var s1 := ConsumerNext(s);
    ConsumerKeepsInv(s);
    DecisionsAreExact(s1);
    ConsumerKeepsInv(s1);
    var s2 := ConsumerNext(s1);
    ConsumerKeepsInv(s2);
    ConsumerKeepsInv(ConsumerNext(s2));
    assert |s.delivered| <= |s.accepted| && s.delivered == s.accepted[..|s.delivered|] by { PrefixSoFar(s); }
  }

  lemma ReadCallShape(s: Ring)
    requires s.c.CIdle? && s.tail < |s.buf|
    ensures var s1 := s.(seen := |s.accepted|);
            ReadCall(s) == if s.head == s.tail then s1
                           else s1.(tail := (s.tail + 1) % RING_BUF_SIZE, delivered := s.delivered + [s.buf[s.tail]])
  {}

  lemma PrefixSoFar(s: Ring)
    requires Queue(s)
    ensures |s.delivered| <= |s.accepted| && s.delivered == s.accepted[..|s.delivered|]
  {}

  /** The shared variables of the driver, with the history of published and returned bytes. */
  class Keyboard {
    const ringBuf: array<Byte>
    var ringHead: nat
    var ringTail: nat
    ghost var accepted: seq<Byte>
    ghost var delivered: seq<Byte>
    ghost var seen: nat

    ghost function State(): Ring
      reads this, ringBuf
    {
      Ring(ringBuf[..], ringHead, ringTail, PIdle, CIdle, accepted, delivered, seen)
    }

    constructor ()
      ensures Inv(State()) && accepted == delivered == []
    {
      ringBuf := new Byte[RING_BUF_SIZE](_ => 0);
      ringHead, ringTail := 0, 0;
      accepted, delivered, seen := [], [], 0;
    }

    method RingPut(c: Byte)
      requires Inv(State())
      modifies this`ringHead, this`accepted, ringBuf
      ensures State() == PutCall(old(State()), c)
      ensures Inv(State())
    {
      PutCallAppends(State(), c);
      assert ringHead < ringBuf.Length;
      PutCallShape(State(), c);
      hide Inv, Slot, PutCall;
      var head, tail := ringHead, ringTail;
      var next := (head + 1) % RING_BUF_SIZE;
      if next != tail {
        ringBuf[head] := c;
        ringHead := next;
        accepted := accepted + [c];
      }
    }

    method ReadKey() returns (key: Option<Byte>)
      requires Inv(State())
      modifies this`ringTail, this`delivered, this`seen
      ensures State() == ReadCall(old(State()))
      ensures Inv(State())
      ensures key == if old(delivered) == accepted then None else Some(accepted[|old(delivered)|])
    {
      ReadCallTakesFirst(State());
      PrefixSoFar(State());
      assert ringTail < ringBuf.Length;
      ReadCallShape(State());
      hide Inv, Slot, Queue, ReadCall;
      var head, tail := ringHead, ringTail;
      seen := |accepted|;
      if head == tail { return None; }
      var c := ringBuf[tail];
      ringTail := (tail + 1) % RING_BUF_SIZE;
      delivered := delivered + [c];
      return Some(c);
    }
  }
}
