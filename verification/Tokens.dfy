/** Token and session lifecycle (kernel/src/lib.rs, kernel/src/token.rs): expiry, run limits and inherited rights. */
module Tokens {
  import opened Options
  import S = Scheduler

  type Flags = bv32

  const ALL_CAPABILITIES: Flags := 0x1FF
  const ROOT_TOKEN := 1
  const MAX_RUNS := 2
  const NEVER := 0xFFFF_FFFF_FFFF_FFFF
  const TWO_64 := 0x1_0000_0000_0000_0000

  type U64 = n: nat | n < TWO_64

  /** `parent` is set only when the parent was in the token table at creation. */
  datatype Token = Token(
    name: string, privilege: nat, parent: Option<nat>, isPermanent: bool, expiry: nat, caps: Flags, runCount: nat)

  datatype Session = Session(token: nat, expiry: nat, isActive: bool)

  /** Sessions keep their token alive, so `objects` holds every token ever made and `table` the ids still listed. */
  datatype Kernel = Kernel(
    objects: map<nat, Token>, table: set<nat>, sessions: map<nat, Session>,
    nextToken: nat, nextSession: nat, tick: nat)

  function Boot(): Kernel {
    var root := Token("RootSystem", 0, None, true, NEVER, ALL_CAPABILITIES, 0);
    Kernel(map[ROOT_TOKEN := root], {ROOT_TOKEN}, map[], 2, 1, 0)
  }

  /** `Token::is_expired`. */
  predicate IsExpired(t: Token, tick: nat) { !t.isPermanent && tick > t.expiry }

  /** `a` grants nothing that `b` does not. */
  predicate Within(a: Flags, b: Flags) { a & b == a }

  function Privilege(val: nat): nat { if val < 3 then val else 3 }

  function NewToken(name: string, privilege: nat, parent: Option<nat>, expiry: nat, flags: Flags): Token {
    Token(name, Privilege(privilege), parent, false, expiry, flags & ALL_CAPABILITIES, 0)
  }

  function AddToken(k: Kernel, t: Token): Kernel {
    k.(objects := k.objects[k.nextToken := t], table := k.table + {k.nextToken}, nextToken := k.nextToken + 1)
  }

  /** The tick a time span ends at: a 64-bit sum without overflow check. */
  function Deadline(tick: nat, span: U64): U64 { (tick + span) % TWO_64 }

  /** The caller owns `parent`, which, if listed, has the asked-for privilege and rights. */
  predicate MayCreate(k: Kernel, caller: nat, privilege: nat, parent: nat, flags: Flags) {
    && caller in k.sessions && k.sessions[caller].token == parent
    && (parent in k.table && parent in k.objects ==>
          k.objects[parent].privilege <= privilege && Within(flags, k.objects[parent].caps))
  }

  /** `rust_create_child_token`; zero stands for refusal. */
  function CreateChild(
    k: Kernel, caller: nat, name: string, privilege: nat, parent: nat, flags: Flags, lifetime: U64)
    : (Kernel, nat)
  {
    if !MayCreate(k, caller, privilege, parent, flags) then (k, 0)
    else
      var owner := if parent in k.table then Some(parent) else None;
      (AddToken(k, NewToken(name, privilege, owner, Deadline(k.tick, lifetime), flags)), k.nextToken)
  }

  predicate CanRun(k: Kernel, token: nat) {
    token in k.table && token in k.objects && k.objects[token].runCount < MAX_RUNS
  }

  /** `rust_run_process`; zero stands for refusal. Expiry is not checked. */
  function RunProcess(k: Kernel, token: nat, ticks: U64): (Kernel, nat) {
    if !CanRun(k, token) then (k, 0)
    else
      var t := k.objects[token];
      (k.(objects := k.objects[token := t.(runCount := t.runCount + 1)],
          sessions := k.sessions[k.nextSession := Session(token, Deadline(k.tick, ticks), true)],
          nextSession := k.nextSession + 1),
       k.nextSession)
  }

  /** `rust_check_capability`. */
  predicate Check(k: Kernel, session: nat, flags: Flags) {
    && session in k.sessions
    && k.sessions[session].isActive && k.tick <= k.sessions[session].expiry
    && k.sessions[session].token in k.objects
    && Within(flags & ALL_CAPABILITIES, k.objects[k.sessions[session].token].caps)
  }

  /** The listed tokens that have expired at a tick. */
  function ExpiredIds(k: Kernel, tick: nat): set<nat> {
    set id | id in k.table && id in k.objects && IsExpired(k.objects[id], tick)
  }

  /** `rust_kernel_tick`: drop the expired tokens and activate the session of the thread scheduled next, if any. */
  function Tick(k: Kernel, scheduled: Option<nat>): Kernel {
    k.(tick := k.tick + 1, table := k.table - ExpiredIds(k, k.tick + 1),
       sessions := Activate(k.sessions, scheduled))
  }

  /** `Session::activate` of a session that still exists. */
  function Activate(sessions: map<nat, Session>, s: Option<nat>): map<nat, Session> {
    if s.Some? && s.value in sessions then sessions[s.value := sessions[s.value].(isActive := true)] else sessions
  }

  datatype Op =
    | CreateOp(caller: nat, name: string, privilege: nat, parent: nat, flags: Flags, lifetime: U64)
    | RunOp(token: nat, ticks: U64)
    | TickOp(scheduled: Option<nat>)

  function Step(k: Kernel, op: Op): Kernel {
    match op
    case CreateOp(caller, name, privilege, parent, flags, lifetime) =>
      CreateChild(k, caller, name, privilege, parent, flags, lifetime).0
    case RunOp(token, ticks) => RunProcess(k, token, ticks).0
    case TickOp(scheduled) => Tick(k, scheduled)
  }

  // ------------------------------------------------------------- invariant

  /** The sessions started on a token. */
  function SessionsOf(k: Kernel, token: nat): set<nat> {
    set s | s in k.sessions && k.sessions[s].token == token
  }

  ghost predicate Tables(k: Kernel) {
    && 0 < k.nextToken && 0 < k.nextSession && k.table <= k.objects.Keys
    && (forall id <- k.objects :: id < k.nextToken)
    && (forall s <- k.sessions :: s < k.nextSession && k.sessions[s].token in k.objects)
  }

  ghost predicate RunsCounted(k: Kernel) {
    forall id <- k.objects :: k.objects[id].runCount == |SessionsOf(k, id)| && |SessionsOf(k, id)| <= MAX_RUNS
  }

  /** A token listed with a parent holds no right and no privilege its parent lacks. */
  ghost predicate Attenuated(k: Kernel) {
    forall id <- k.objects :: k.objects[id].parent.Some? ==>
      var p := k.objects[id].parent.value;
      p in k.objects && p < id && Within(k.objects[id].caps, k.objects[p].caps)
      && k.objects[p].privilege <= k.objects[id].privilege
  }

  /** Privilege levels run from 0 (root) to 3 (process). */
  ghost predicate Privileges(k: Kernel) {
    forall id <- k.objects :: k.objects[id].privilege <= 3
  }

  ghost predicate Valid(k: Kernel) {
    Tables(k) && RunsCounted(k) && Attenuated(k) && Privileges(k)
  }

  lemma TruncationStaysWithin(flags: Flags, caps: Flags)
    requires Within(flags, caps)
    ensures Within(flags & ALL_CAPABILITIES, caps)
  {}

  lemma WithinTransitive(a: Flags, b: Flags, c: Flags)
    requires Within(a, b) && Within(b, c)
    ensures Within(a, c)
  {}

  lemma CreateAttenuated(k: Kernel, t: Token)
    requires Tables(k) && Attenuated(k)
    requires t.parent.Some? ==>
      var p := t.parent.value;
      p in k.objects && Within(t.caps, k.objects[p].caps) && k.objects[p].privilege <= t.privilege
    ensures Attenuated(AddToken(k, t))
  {}

  lemma CreateCounted(k: Kernel, t: Token)
    requires Tables(k) && RunsCounted(k) && t.runCount == 0
    ensures RunsCounted(AddToken(k, t))
  {}

  lemma CreateValid(
    k: Kernel, caller: nat, name: string, privilege: nat, parent: nat, flags: Flags, lifetime: U64)
    requires Valid(k)
    ensures Valid(CreateChild(k, caller, name, privilege, parent, flags, lifetime).0)
  {
    var (k', id) := CreateChild(k, caller, name, privilege, parent, flags, lifetime);
    if k' != k {
      var t := k'.objects[k.nextToken];
      if parent in k.table {
        TruncationStaysWithin(flags, k.objects[parent].caps);
      }
      hide Within, Attenuated, RunsCounted;
      CreateAttenuated(k, t);
      CreateCounted(k, t);
    }
  }

  lemma RunCounted(k: Kernel, token: nat, ticks: U64, x: nat)
    requires Tables(k) && RunsCounted(k) && CanRun(k, token) && x in k.objects
    ensures var k' := RunProcess(k, token, ticks).0;
            k'.objects[x].runCount == |SessionsOf(k', x)| && |SessionsOf(k', x)| <= MAX_RUNS
  {
    var k' := RunProcess(k, token, ticks).0;
    assert SessionsOf(k', x) == if x == token then SessionsOf(k, x) + {k.nextSession} else SessionsOf(k, x);
    assert k.nextSession !in SessionsOf(k, x);
  }

  lemma RunAttenuated(k: Kernel, token: nat, ticks: U64)
    requires Attenuated(k) && CanRun(k, token)
    ensures Attenuated(RunProcess(k, token, ticks).0)
  {}

  lemma RunValid(k: Kernel, token: nat, ticks: U64)
    requires Valid(k)
    ensures Valid(RunProcess(k, token, ticks).0)
  {
    if CanRun(k, token) {
      var k' := RunProcess(k, token, ticks).0;
      RunAttenuated(k, token, ticks);
      forall x <- k'.objects
        ensures k'.objects[x].runCount == |SessionsOf(k', x)| && |SessionsOf(k', x)| <= MAX_RUNS
      {
        RunCounted(k, token, ticks, x);
      }
      hide SessionsOf, Within, Attenuated;
    }
  }

  lemma TickValid(k: Kernel, scheduled: Option<nat>)
    requires Valid(k)
    ensures Valid(Tick(k, scheduled))
  {
    hide Within;
    assert forall x :: SessionsOf(Tick(k, scheduled), x) == SessionsOf(k, x);
  }

  lemma StepValid(k: Kernel, op: Op)
    requires Valid(k)
    ensures Valid(Step(k, op))
  {
    hide Valid, CreateChild, RunProcess, Tick;
    match op
    case CreateOp(caller, name, privilege, parent, flags, lifetime) =>
      CreateValid(k, caller, name, privilege, parent, flags, lifetime);
    case RunOp(token, ticks) => RunValid(k, token, ticks);
    case TickOp(scheduled) => TickValid(k, scheduled);
  }

  // ------------------------------------------------------------- whole runs

  ghost function Run(k: Kernel, ops: seq<Op>): Kernel
    decreases |ops|
  {
    if ops == [] then k else Run(Step(k, ops[0]), ops[1..])
  }

  lemma {:induction false} RunOpsValid(k: Kernel, ops: seq<Op>)
    requires Valid(k)
    ensures Valid(Run(k, ops))
    decreases |ops|
  {
    hide Valid, Step;
    if ops != [] {
      StepValid(k, ops[0]);
      RunOpsValid(Step(k, ops[0]), ops[1..]);
    }
  }

  lemma BootValid()
    ensures Valid(Boot())
  {}

  lemma TableListed(k: Kernel)
    requires Valid(k)
    ensures Tables(k) && k.table <= k.objects.Keys
  {}

  /** What one operation never changes about an existing session. */
  lemma StepKeepsSession(k: Kernel, op: Op, s: nat)
    requires Tables(k) && s in k.sessions
    ensures var k' := Step(k, op);
            && s in k'.sessions && k'.tick >= k.tick
            && k'.sessions[s].token == k.sessions[s].token && k'.sessions[s].expiry == k.sessions[s].expiry
            && (k.sessions[s].isActive ==> k'.sessions[s].isActive)
  {
  }

  /** What one operation never changes about an existing token. */
  lemma StepKeepsToken(k: Kernel, op: Op, id: nat)
    requires Tables(k) && id in k.objects
    ensures var k' := Step(k, op);
            id in k'.objects && k'.objects[id] == k.objects[id].(runCount := k'.objects[id].runCount)
  {
    hide Within, Deadline;
  }

  /** Once a session's time is over, it never passes a capability check again. */
  lemma {:induction false} ExpiredForGood(k: Kernel, ops: seq<Op>, s: nat, flags: Flags)
    requires Valid(k) && s in k.sessions && k.tick > k.sessions[s].expiry
    ensures !Check(Run(k, ops), s, flags)
    decreases |ops|
  {
    if ops != [] {
      StepKeepsSession(k, ops[0], s);
      StepValid(k, ops[0]);
      hide Valid, Step, Check;
      ExpiredForGood(Step(k, ops[0]), ops[1..], s, flags);
    }
  }

  // ------------------------------------------------------- expired tokens

  /** No listed token has expired. */
  ghost predicate AllFresh(k: Kernel) {
    forall id <- k.table :: id in k.objects && !IsExpired(k.objects[id], k.tick)
  }

  /** A creation that is granted although the end of its lifetime does not fit in 64 bits. */
  predicate Wraps(k: Kernel, op: Op) {
    op.CreateOp? && MayCreate(k, op.caller, op.privilege, op.parent, op.flags) && k.tick + op.lifetime >= TWO_64
  }

  /** A span ends in the past exactly when the sum does not fit. */
  lemma DeadlinePassedIff(tick: nat, span: U64)
    ensures tick > Deadline(tick, span) <==> tick + span >= TWO_64
  {}

  /** Exactly when no listed token has expired after one operation: a tick always gets there, and any other operation
      keeps it unless it is such a creation. */
  lemma StepFreshIff(k: Kernel, op: Op)
    requires Tables(k)
    ensures AllFresh(Step(k, op)) <==> op.TickOp? || (AllFresh(k) && !Wraps(k, op))
  {
    hide Within, Deadline;
    match op
    case CreateOp(caller, name, privilege, parent, flags, lifetime) =>
      DeadlinePassedIff(k.tick, lifetime);
      var k' := Step(k, op);
      if MayCreate(k, caller, privilege, parent, flags) {
        assert k.nextToken !in k.table && k.nextToken in k'.table;
        assert IsExpired(k'.objects[k.nextToken], k'.tick) <==> Wraps(k, op);
        assert forall id <- k.table :: k'.objects[id] == k.objects[id];
      }
    case RunOp(token, ticks) =>
      assert forall id <- k.table :: IsExpired(Step(k, op).objects[id], k.tick) == IsExpired(k.objects[id], k.tick);
    case TickOp(_) =>
  }

  lemma ListedIsFresh(k: Kernel, id: nat)
    requires AllFresh(k)
    ensures id in k.table ==> id in k.objects && !IsExpired(k.objects[id], k.tick)
  {}

  /** No listed token has expired at any point of the run. */
  ghost predicate AlwaysFresh(k: Kernel, ops: seq<Op>)
    decreases |ops|
  {
    AllFresh(k) && (ops != [] ==> AlwaysFresh(Step(k, ops[0]), ops[1..]))
  }

  ghost predicate NeverWraps(k: Kernel, ops: seq<Op>)
    decreases |ops|
  {
    ops != [] ==> !Wraps(k, ops[0]) && NeverWraps(Step(k, ops[0]), ops[1..])
  }

  /** That is so exactly when no creation of the run wraps. */
  lemma {:induction false} AlwaysFreshIff(k: Kernel, ops: seq<Op>)
    requires Valid(k) && AllFresh(k)
    ensures AlwaysFresh(k, ops) <==> NeverWraps(k, ops)
    decreases |ops|
  {
    if ops != [] {
      var k' := Step(k, ops[0]);
      StepValid(k, ops[0]);
      StepFreshIff(k, ops[0]);
      hide Valid, AllFresh, Step, Wraps;
      if AllFresh(k') {
        AlwaysFreshIff(k', ops[1..]);
      }
    }
  }

  predicate Ticks(ops: seq<Op>) { exists i | 0 <= i < |ops| :: ops[i].TickOp? }

  /** Some creation of the run wraps and no tick follows it. */
  ghost predicate WrapPending(k: Kernel, ops: seq<Op>)
    decreases |ops|
  {
    ops != [] && ((Wraps(k, ops[0]) && !Ticks(ops[1..])) || WrapPending(Step(k, ops[0]), ops[1..]))
  }

  lemma {:induction false} EndsFreshIff(k: Kernel, ops: seq<Op>)
    requires Valid(k)
    ensures AllFresh(Run(k, ops)) <==> (AllFresh(k) || Ticks(ops)) && !WrapPending(k, ops)
    decreases |ops|
  {
    if ops != [] {
      assert Ticks(ops) <==> ops[0].TickOp? || Ticks(ops[1..]) by {
        assert forall i | 1 <= i < |ops| :: ops[i] == ops[1..][i - 1];
      }
      assert Wraps(k, ops[0]) ==> !ops[0].TickOp?;
      StepValid(k, ops[0]);
      StepFreshIff(k, ops[0]);
      hide Valid, AllFresh, Step, Wraps, Ticks;
      EndsFreshIff(Step(k, ops[0]), ops[1..]);
    }
  }

  /** In every reachable state no listed token has expired, exactly unless a creation since the last tick wrapped; then
      a session is never started on an expired token. No token ever starts more than two. */
  lemma NeverRunsExpired(ops: seq<Op>, token: nat, ticks: U64)
    ensures var k := Run(Boot(), ops);
            && (AllFresh(k) <==> !WrapPending(Boot(), ops))
            && (RunProcess(k, token, ticks).1 != 0 ==> token in k.objects)
            && (RunProcess(k, token, ticks).1 != 0 && IsExpired(k.objects[token], k.tick) ==>
                  WrapPending(Boot(), ops))
            && (token in k.objects ==> |SessionsOf(k, token)| <= MAX_RUNS)
            && (token !in k.objects ==> SessionsOf(k, token) == {})
  {
    BootValid();
    RunOpsValid(Boot(), ops);
    EndsFreshIff(Boot(), ops);
    var k := Run(Boot(), ops);
    hide Run, IsExpired, WrapPending;
    assert Tables(k) && RunsCounted(k);
  }

  /** The run: root starts a session, the clock ticks, and a child with the greatest lifetime is created. */
  function WrappingRun(): seq<Op> {
    [RunOp(1, 0), TickOp(None), CreateOp(1, "child", 3, 1, 0, NEVER)]
  }

  /** After it a session is started on token 2, which has expired. */
  lemma WrappedLifetimeRuns()
    ensures var k := Run(Boot(), WrappingRun());
            && 2 in k.table && 2 in k.objects && IsExpired(k.objects[2], k.tick)
            && k.objects[2].expiry == 0 && RunProcess(k, 2, 5).1 != 0
  {
    var ops := WrappingRun();
    var k1 := Step(Boot(), ops[0]);
    var k2 := Step(k1, ops[1]);
    var k3 := Step(k2, ops[2]);
    assert Run(Boot(), ops) == Run(k1, ops[1..]) == Run(k2, ops[1..][1..]) == Run(k3, ops[1..][1..][1..]) == k3;
  }

  // ---------------------------------------------- how long tokens and sessions last

  lemma ListedStep(k: Kernel, op: Op, id: nat)
    requires Tables(k) && id in k.objects && !k.objects[id].isPermanent
    ensures id in Step(k, op).table <==> id in k.table && (op.TickOp? ==> k.tick + 1 <= k.objects[id].expiry)
  {
    hide Within, Deadline;
  }

  lemma {:induction false} ListedWhile(k: Kernel, ops: seq<Op>, id: nat)
    requires Valid(k) && id in k.objects && !k.objects[id].isPermanent
    requires id in k.table <==> k.tick <= k.objects[id].expiry
    ensures id in Run(k, ops).table <==> Run(k, ops).tick <= k.objects[id].expiry
    decreases |ops|
  {
    if ops != [] {
      StepValid(k, ops[0]);
      StepKeepsToken(k, ops[0], id);
      ListedStep(k, ops[0], id);
      TickStep(k, ops[0]);
      hide Valid, Step;
      ListedWhile(Step(k, ops[0]), ops[1..], id);
    }
  }

  /** The permanent root token stays listed on every run. */
  lemma RootStaysListed(ops: seq<Op>)
    ensures ROOT_TOKEN in Run(Boot(), ops).table
  {
    BootValid();
    PermanentStays(Boot(), ops, ROOT_TOKEN);
  }

  lemma {:induction false} PermanentStays(k: Kernel, ops: seq<Op>, id: nat)
    requires Valid(k) && id in k.table && k.objects[id].isPermanent
    ensures id in Run(k, ops).table
    decreases |ops|
  {
    if ops != [] {
      StepValid(k, ops[0]);
      StepKeepsToken(k, ops[0], id);
      assert id in Step(k, ops[0]).table;
      hide Valid, Step;
      PermanentStays(Step(k, ops[0]), ops[1..], id);
    }
  }

  /** A tick makes the session of the scheduled thread active, if it exists, and changes no other session. */
  lemma TickActivates(k: Kernel, scheduled: Option<nat>, s: nat)
    requires s in k.sessions
    ensures var k' := Tick(k, scheduled);
            && k'.sessions.Keys == k.sessions.Keys
            && k'.sessions[s] == if scheduled == Some(s) then k.sessions[s].(isActive := true) else k.sessions[s]
  {}

  lemma TickStep(k: Kernel, op: Op)
    ensures Step(k, op).tick == if op.TickOp? then k.tick + 1 else k.tick
  {}

  /** A granted token is listed for exactly its lifetime, whatever happens meanwhile: after every run that ends at a
      tick of at most the sum, and after no later one. */
  lemma TokenLasts(k: Kernel, op: Op, ops: seq<Op>)
    requires Valid(k) && op.CreateOp? && MayCreate(k, op.caller, op.privilege, op.parent, op.flags)
    requires k.tick + op.lifetime < TWO_64
    ensures var k' := Run(Step(k, op), ops);
            k.nextToken in k'.table <==> k'.tick <= k.tick + op.lifetime
  {
    var k1 := Step(k, op);
    StepValid(k, op);
    assert Deadline(k.tick, op.lifetime) == k.tick + op.lifetime;
    assert k.nextToken in k1.table && k1.objects[k.nextToken].expiry == k.tick + op.lifetime;
    hide Run, Deadline, Within;
    ListedWhile(k1, ops, k.nextToken);
  }

  lemma {:induction false} PassesWhile(k: Kernel, ops: seq<Op>, s: nat, flags: Flags)
    requires Valid(k) && s in k.sessions && k.sessions[s].isActive && k.sessions[s].token in k.objects
    ensures Check(Run(k, ops), s, flags) <==>
            && Run(k, ops).tick <= k.sessions[s].expiry
            && Within(flags & ALL_CAPABILITIES, k.objects[k.sessions[s].token].caps)
    decreases |ops|
  {
    if ops != [] {
      StepValid(k, ops[0]);
      StepKeepsSession(k, ops[0], s);
      StepKeepsToken(k, ops[0], k.sessions[s].token);
      hide Valid, Step, Check, Within;
      PassesWhile(Step(k, ops[0]), ops[1..], s, flags);
    }
  }

  /** A started session passes a check for exactly the rights its token holds, and for exactly its span. */
  lemma SessionLasts(k: Kernel, token: nat, ticks: U64, ops: seq<Op>, flags: Flags)
    requires Valid(k) && CanRun(k, token) && k.tick + ticks < TWO_64
    ensures var (k1, s) := RunProcess(k, token, ticks); var k' := Run(k1, ops);
            Check(k', s, flags) <==>
            k'.tick <= k.tick + ticks && Within(flags & ALL_CAPABILITIES, k.objects[token].caps)
  {
    var (k1, s) := RunProcess(k, token, ticks);
    RunValid(k, token, ticks);
    assert Deadline(k.tick, ticks) == k.tick + ticks;
    hide Run, Deadline, Within, Check, Valid;
    PassesWhile(k1, ops, s, flags);
  }

  /** A process starts exactly on a listed token with fewer than two sessions; it adds one session on that token. */
  lemma StartedIff(k: Kernel, token: nat, ticks: U64)
    requires Valid(k)
    ensures var (k', s) := RunProcess(k, token, ticks);
            && (s != 0 <==> token in k.table && |SessionsOf(k, token)| < 2)
            && (s == 0 ==> k' == k)
            && (s != 0 ==> s !in k.sessions && k'.sessions.Keys == k.sessions.Keys + {s})
            && (s != 0 ==> SessionsOf(k', token) == SessionsOf(k, token) + {s})
  {
    hide Within, Deadline, Attenuated;
  }

  /** A session is in time when it starts exactly if the end of its span fits in 64 bits; otherwise it never passes a
      check. */
  lemma StartsInTimeIff(k: Kernel, token: nat, ticks: U64, ops: seq<Op>, flags: Flags)
    requires Valid(k) && CanRun(k, token)
    ensures var (k', s) := RunProcess(k, token, ticks);
            && s in k'.sessions && (k'.tick <= k'.sessions[s].expiry <==> k.tick + ticks < TWO_64)
            && (k.tick + ticks >= TWO_64 ==> !Check(Run(k', ops), s, flags))
  {
    DeadlinePassedIff(k.tick, ticks);
    hide Deadline, Check, Run;
    var (k', s) := RunProcess(k, token, ticks);
    RunValid(k, token, ticks);
    if k.tick + ticks >= TWO_64 {
      ExpiredForGood(k', ops, s, flags);
    }
  }

  // ------------------------------------------------------- inherited rights

  /** `a` is `t` or an ancestor of `t` through recorded parents. */
  ghost predicate Ancestor(k: Kernel, a: nat, t: nat)
    decreases t
  {
    t in k.objects &&
    (a == t || (k.objects[t].parent.Some? && k.objects[t].parent.value < t
                && Ancestor(k, a, k.objects[t].parent.value)))
  }

  /** Along recorded parents, rights only shrink and privilege only drops, in every valid state. */
  lemma {:induction false} AncestorsBound(k: Kernel, a: nat, t: nat)
    requires Valid(k) && Ancestor(k, a, t)
    ensures a in k.objects && Within(k.objects[t].caps, k.objects[a].caps)
    ensures k.objects[a].privilege <= k.objects[t].privilege
    decreases t
  {
    if a == t {
      WithinReflexive(k.objects[t].caps);
    } else {
      var p := k.objects[t].parent.value;
      AncestorsBound(k, a, p);
      WithinTransitive(k.objects[t].caps, k.objects[p].caps, k.objects[a].caps);
    }
  }

  /** A capability check never passes for a right that an ancestor of the session's token lacks. */
  lemma CheckBoundedByAncestors(k: Kernel, s: nat, flags: Flags, a: nat)
    requires Valid(k) && Check(k, s, flags) && Ancestor(k, a, k.sessions[s].token)
    ensures a in k.objects && Within(flags & ALL_CAPABILITIES, k.objects[a].caps)
  {
    var t := k.sessions[s].token;
    AncestorsBound(k, a, t);
    WithinTransitive(flags & ALL_CAPABILITIES, k.objects[t].caps, k.objects[a].caps);
  }

  lemma WithinReflexive(a: Flags)
    ensures Within(a, a)
  {}

  // ------------------------------------------------------------ the class

  /** The parts of `KernelState` that tokens and sessions live in. */
  class KernelState {
    var objects: map<nat, Token>
    var table: set<nat>
    var sessions: map<nat, Session>
    var nextTokenId: nat
    var nextSessionId: nat
    var tickCount: nat
    const scheduler: S.ThreadScheduler

    ghost function State(): Kernel
      reads this
    {
      Kernel(objects, table, sessions, nextTokenId, nextSessionId, tickCount)
    }

    /** `rust_kernel_init`: the permanent root token. */
    constructor ()
      ensures State() == Boot() && Valid(State()) && fresh(scheduler) && scheduler.State() == S.Queue([], 1, None)
    {
      scheduler := new S.ThreadScheduler();
      objects := map[ROOT_TOKEN := Token("RootSystem", 0, None, true, NEVER, ALL_CAPABILITIES, 0)];
      table, sessions := {ROOT_TOKEN}, map[];
      nextTokenId, nextSessionId, tickCount := 2, 1, 0;
      new;
      BootValid();
    }

    method CreateChildToken(
      caller: nat, name: string, privilege: nat, parent: nat, flags: Flags, lifetime: U64)
      returns (id: nat)
      requires Valid(State())
      modifies this
      ensures (State(), id) == CreateChild(old(State()), caller, name, privilege, parent, flags, lifetime)
      ensures Valid(State())
      ensures AllFresh(State()) <==>
              AllFresh(old(State())) && !Wraps(old(State()), CreateOp(caller, name, privilege, parent, flags, lifetime))
    {
      hide Valid, Tables, AllFresh, Wraps, Within, NewToken, Deadline;
      CreateValid(State(), caller, name, privilege, parent, flags, lifetime);
      TableListed(State());
      StepFreshIff(State(), CreateOp(caller, name, privilege, parent, flags, lifetime));
      if caller !in sessions || sessions[caller].token != parent {
        return 0;
      }
      if parent in table && parent in objects {
        if objects[parent].privilege > privilege { return 0; }
        if !Within(flags, objects[parent].caps) { return 0; }
      }
      id := nextTokenId;
      var owner := if parent in table then Some(parent) else None;
      objects := objects[id := NewToken(name, privilege, owner, Deadline(tickCount, lifetime), flags)];
      table := table + {id};
      nextTokenId := nextTokenId + 1;
    }

    /** `rust_run_process`: a new session, and a Ready thread for it. */
    method StartProcess(token: nat, ticks: U64) returns (id: nat)
      requires Valid(State())
      modifies this, scheduler
      ensures (State(), id) == RunProcess(old(State()), token, ticks)
      ensures Valid(State())
      ensures AllFresh(State()) == AllFresh(old(State()))
      ensures AllFresh(old(State())) && id != 0 ==> !IsExpired(old(objects)[token], tickCount)
      ensures scheduler.State() ==
        if CanRun(old(State()), token) then S.SpawnThread(old(scheduler.State()), id, old(objects)[token].name)
        else old(scheduler.State())
    {
      hide Valid, Tables, AllFresh, IsExpired, Deadline, S.SpawnThread;
      RunValid(State(), token, ticks);
      TableListed(State());
      StepFreshIff(State(), RunOp(token, ticks));
      if AllFresh(State()) {
        ListedIsFresh(State(), token);
      }
      if token !in table || objects[token].runCount >= MAX_RUNS {
        return 0;
      }
      objects := objects[token := objects[token].(runCount := objects[token].runCount + 1)];
      id := nextSessionId;
      nextSessionId := nextSessionId + 1;
      sessions := sessions[id := Session(token, Deadline(tickCount, ticks), true)];
      var _ := scheduler.Spawn(id, objects[token].name);
    }

    method CheckCapability(session: nat, flags: Flags) returns (ok: bool)
      requires Valid(State())
      ensures ok == Check(State(), session, flags)
    {
      if session !in sessions {
        return false;
      }
      var s := sessions[session];
      if !s.isActive || tickCount > s.expiry {
        return false;
      }
      return Within(flags & ALL_CAPABILITIES, objects[s.token].caps);
    }

    /** The first loop of `rust_kernel_tick`. */
    method CollectExpired() returns (expired: set<nat>)
      requires table <= objects.Keys
      ensures expired == ExpiredIds(State(), tickCount)
    {
      hide IsExpired;
      expired := {};
      var unseen := table;
      while unseen != {}
        invariant unseen <= table && expired == ExpiredIds(State(), tickCount) - unseen
        decreases unseen
      {
        var id :| id in unseen;
        if IsExpired(objects[id], tickCount) {
          expired := expired + {id};
        }
        unseen := unseen - {id};
      }
    }

    /** `rust_kernel_tick`: count the tick, collect the expired ids, remove them one by one, then schedule. */
    method KernelTick()
      requires Valid(State())
      modifies this, scheduler
      ensures var (queue, next) := S.Schedule(old(scheduler.State()));
              && scheduler.State() == queue
              && State() == Tick(old(State()), if next.Some? then Some(next.value.session) else None)
      ensures Valid(State()) && AllFresh(State())
    {
      hide Valid, Tables, AllFresh, S.Schedule;
      ghost var next := S.Schedule(scheduler.State()).1;
      ghost var scheduled := if next.Some? then Some(next.value.session) else None;
      TickValid(State(), scheduled);
      TableListed(State());
      StepFreshIff(State(), TickOp(scheduled));
      tickCount := tickCount + 1;
      var expired := CollectExpired();
      ghost var all := ExpiredIds(old(State()), tickCount);
      assert expired == all;
      hide ExpiredIds;
      while expired != {}
        invariant expired <= all && table == old(table) - (all - expired)
        invariant State() == old(State()).(tick := old(tickCount) + 1, table := table)
        invariant scheduler.State() == old(scheduler.State())
        decreases expired
      {
        var id :| id in expired;
        table := table - {id};
        expired := expired - {id};
      }
      var thread := scheduler.ScheduleNext();
      if thread.Some? && thread.value.session in sessions {
        var s := thread.value.session;
        sessions := sessions[s := sessions[s].(isActive := true)];
      }
    }
  }

  // ------------------------------------------- creation below an unlisted parent

  /** A creation is granted exactly to a session that runs on `parent`, when the parent is not listed or the request
      stays within the parent's privilege and rights. The one new token records its parent exactly when that is
      listed. */
  lemma GrantedIff(k: Kernel, caller: nat, name: string, privilege: nat, parent: nat, flags: Flags, lifetime: U64)
    requires Valid(k)
    ensures var (k', id) := CreateChild(k, caller, name, privilege, parent, flags, lifetime);
            && (caller in k.sessions && k.sessions[caller].token == parent ==> parent in k.objects)
            && (id != 0 <==>
                  && caller in k.sessions && k.sessions[caller].token == parent
                  && (parent !in k.table ||
                      (k.objects[parent].privilege <= privilege && Within(flags, k.objects[parent].caps))))
            && (id == 0 ==> k' == k)
            && (id != 0 ==> id !in k.objects && k'.objects == k.objects[id := k'.objects[id]]
                            && k'.table == k.table + {id} && k'.sessions == k.sessions)
            && (id != 0 ==> k'.objects[id].caps == flags & ALL_CAPABILITIES
                            && k'.objects[id].privilege == (if privilege < 3 then privilege else 3)
                            && k'.objects[id].parent == (if parent in k.table then Some(parent) else None)
                            && k'.objects[id].name == name && !k'.objects[id].isPermanent)
  {
    hide Within;
  }

  /** The run: root starts a session and makes a rightless token that expires at once; its session outlives it. */
  function UnlistedParentRun(): seq<Op> {
    [RunOp(1, 0), CreateOp(1, "child", 3, 1, 0, 0), RunOp(2, 0), TickOp(None)]
  }

  /** Such a state is reachable: session 2 owns token 2, which holds no right and is no longer listed. */
  lemma UnlistedParentReachable()
    ensures var k := Run(Boot(), UnlistedParentRun());
            && Valid(k) && 2 in k.sessions && k.sessions[2].token == 2
            && 2 !in k.table && 2 in k.objects && k.objects[2].caps == 0 && k.objects[2].privilege == 3
  {
    BootValid();
    RunOpsValid(Boot(), UnlistedParentRun());
    hide Valid;
    var ops := UnlistedParentRun();
    var k1 := Step(Boot(), ops[0]);
    var k2 := Step(k1, ops[1]);
    var k3 := Step(k2, ops[2]);
    var k4 := Step(k3, ops[3]);
    assert Run(Boot(), ops) == Run(k1, ops[1..]) == Run(k2, ops[1..][1..]) == Run(k3, ops[1..][1..][1..])
           == Run(k4, ops[1..][1..][1..][1..]) == k4;
  }
}
