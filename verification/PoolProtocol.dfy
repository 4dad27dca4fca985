/** The pool of mysqlx_client.cc shared by any number of threads. Every step below is one critical
    section under the pool's mutex, or one event of the environment: a thread leaving the condition
    variable, a connection breaking. The history fields at the end of `System` record what happened
    and are read by no step. */
module PoolProtocol {
  import opened PoolModel
  import opened Options
  import opened Sequences

  type Thread = nat
  type Handle = nat
  /** A physical connection to the server. */
  type Connection = nat

  datatype Config = Config(maxSize: nat, maxIdle: nat, queueTimeout: nat)

  datatype System = System(
    config: Config,
    pool: Pool<Handle>,
    sleeping: set<Thread>,            // blocked in the condition variable
    woken: set<Thread>,               // left it, but has not rechecked under the mutex yet
    late: set<Thread>,                // woken because the queue timeout elapsed
    errored: set<Handle>,             // closed with an error
    nextHandle: Handle,
    nextConnection: Connection,
    physical: map<Handle, Connection>, // the connection a handle owns
    clock: int,                       // last instant read
    // history
    retired: set<Handle>,             // handles that have left the pool
    handedOut: seq<Handle>,           // returned by get_connection
    pushed: seq<Idle<Handle>>,        // put at the back of the idle queue
    taken: seq<Idle<Handle>>,         // taken off its front
    silent: int)                      // slots freed without a notification since the last wait began,
                                      // less those filled by new connections

  function Init(config: Config): System {
    System(config, Empty(), {}, {}, {}, {}, 0, 0, map[], 0, {}, [], [], [], 0)
  }

  datatype Step =
    | GetConnects(thread: Thread, ok: bool)
    | GetTakesIdle(thread: Thread, resetThrows: bool)
    | GetWaits(thread: Thread)
    | Wakes(thread: Thread, timedOut: bool)
    | Rechecks(thread: Thread, resetThrows: bool)
    | Breaks(handle: Handle)
    | Releases(handle: Handle, now: int, notified: Option<Thread>)
    | Prunes(now: int)
    | ClosesPool(activeThrows: bool, idleThrows: bool)

  predicate Waiting(s: System, t: Thread) { t in s.sleeping || t in s.woken }

  predicate IsFull(s: System) { Size(s.pool) == s.config.maxSize }

  /** `notify_one` picks some sleeper, unless there is none. */
  predicate Notifies(s: System, notified: Option<Thread>) {
    match notified
    case None => s.sleeping == {}
    case Some(t) => t in s.sleeping
  }

  predicate Enabled(s: System, step: Step) {
    match step
    case GetConnects(t, _) => !Waiting(s, t) && !HasIdle(s.pool) && !IsFull(s)
    case GetTakesIdle(t, _) => !Waiting(s, t) && HasIdle(s.pool)
    case GetWaits(t) => !Waiting(s, t) && !HasIdle(s.pool) && IsFull(s)
    case Wakes(t, timedOut) => t in s.sleeping && (timedOut ==> s.config.queueTimeout != 0)
    case Rechecks(t, _) => t in s.woken
    case Breaks(_) => true
    case Releases(_, _, notified) => Notifies(s, notified)
    case Prunes(_) => true
    case ClosesPool(_, _) => true
  }

  // ---- the steps ----

  function Connect(s: System): System {
    s.(pool := Add(s.pool, s.nextHandle),
       physical := s.physical[s.nextHandle := s.nextConnection],
       nextHandle := s.nextHandle + 1,
       nextConnection := s.nextConnection + 1,
       handedOut := s.handedOut + [s.nextHandle],
       silent := s.silent - 1)
  }

  /** pop_idle_connection: the handle is active before `reset` runs, so it stays there when `reset`
      throws and get_connection returns nothing. */
  function Pop(s: System, resetThrows: bool): System
    requires HasIdle(s.pool)
  {
    s.(pool := TakeIdle(s.pool),
       taken := s.taken + [s.pool.idle[0]],
       handedOut := if resetThrows then s.handedOut else s.handedOut + [s.pool.idle[0].connection])
  }

  function Leave(s: System, t: Thread): System {
    s.(woken := s.woken - {t}, late := s.late - {t})
  }

  function Recheck(s: System, t: Thread, resetThrows: bool): System {
    var back := Leave(s, t);
    if HasIdle(s.pool) then Pop(back, resetThrows)
    else if t in s.late then back
    else back.(sleeping := s.sleeping + {t})
  }

  /** create_idle_connection: the physical connection moves to a fresh handle. */
  function Move(physical: map<Handle, Connection>, from: Handle, to: Handle): map<Handle, Connection> {
    if from in physical then (physical - {from})[to := physical[from]] else physical
  }

  function Notify(s: System, notified: Option<Thread>): System {
    match notified
    case None => s
    case Some(t) => s.(sleeping := s.sleeping - {t}, woken := s.woken + {t})
  }

  function OnClose(s: System, h: Handle, now: int, notified: Option<Thread>): System {
    var expiry := now + s.config.maxIdle;
    var released := s.(pool := Release(s.pool, h, h !in s.errored, s.nextHandle, expiry),
                       retired := s.retired + {h}, clock := now);
    if h !in s.pool.active then s
    else if h in s.errored then released.(silent := s.silent + 1)
    else Notify(released.(physical := Move(s.physical, h, s.nextHandle),
                          nextHandle := s.nextHandle + 1,
                          pushed := s.pushed + [Idle(s.nextHandle, expiry)]), notified)
  }

  function PruneAt(s: System, now: int): System {
    var kept := Prune(s.pool, now, s.config.maxIdle);
    var dropped := s.pool.idle[..|s.pool.idle| - |kept.idle|];
    s.(pool := kept, taken := s.taken + dropped, retired := s.retired + Handles(dropped),
       silent := s.silent + |dropped|, clock := now)
  }

  /** The connection whose close throws is closed with an error, which is a `Breaks` step of its own. */
  function CloseAll(s: System, activeThrows: bool, idleThrows: bool): System {
    var kept := Close(s.pool, activeThrows, idleThrows);
    var dropped := s.pool.idle[..|s.pool.idle| - |kept.idle|];
    s.(pool := kept, taken := s.taken + dropped,
       retired := s.retired + (s.pool.active - kept.active) + Handles(dropped),
       silent := s.silent + Size(s.pool) - Size(kept))
  }

  function Apply(s: System, step: Step): System
    requires Enabled(s, step)
  {
    match step
    case GetConnects(t, ok) => if ok then Connect(s) else s
    case GetTakesIdle(t, resetThrows) => Pop(s, resetThrows)
    case GetWaits(t) => s.(sleeping := s.sleeping + {t}, silent := 0)
    case Wakes(t, timedOut) =>
      s.(sleeping := s.sleeping - {t}, woken := s.woken + {t},
         late := if timedOut then s.late + {t} else s.late)
    case Rechecks(t, resetThrows) => Recheck(s, t, resetThrows)
    case Breaks(h) => s.(errored := s.errored + {h})
    case Releases(h, now, notified) => OnClose(s, h, now, notified)
    case Prunes(now) => PruneAt(s, now)
    case ClosesPool(activeThrows, idleThrows) => CloseAll(s, activeThrows, idleThrows)
  }

  predicate Follows(s: System, step: Step, s': System) { Enabled(s, step) && s' == Apply(s, step) }

  /** `steps[i]` leads from `states[i]` to `states[i + 1]`. */
  predicate FollowsAt(states: seq<System>, steps: seq<Step>, i: nat)
    requires i < |steps| && |states| == |steps| + 1
  {
    Follows(states[i], steps[i], states[i + 1])
  }

  /** An interleaving of any length. */
  ghost predicate Behavior(config: Config, states: seq<System>, steps: seq<Step>) {
    && |states| == |steps| + 1
    && states[0] == Init(config)
    && forall i :: 0 <= i < |steps| ==> FollowsAt(states, steps, i)
  }

  // ---- what every step keeps ----

  predicate Live(s: System, h: Handle) {
    h in s.pool.active || exists c <- s.pool.idle :: c.connection == h
  }

  /** A handle is active, idle or neither, never two of them at once. */
  ghost predicate Separate(s: System) {
    && DistinctIdle(s.pool.idle)
    && (forall c <- s.pool.idle :: c.connection !in s.pool.active && c.connection < s.nextHandle)
    && (forall h <- s.pool.active :: h < s.nextHandle)
  }

  ghost predicate Bounded(s: System) { Size(s.pool) <= s.config.maxSize }

  /** Every live handle owns a physical connection and no two handles own the same. */
  ghost predicate Owned(s: System) {
    && (forall h :: Live(s, h) ==> h in s.physical)
    && (forall h <- s.physical :: h < s.nextHandle && s.physical[h] < s.nextConnection)
    && (forall g, h :: g in s.physical && h in s.physical && s.physical[g] == s.physical[h] ==> g == h)
  }

  /** Retired handles stay out; a handle is handed out at most once, and then it is active or
      retired. */
  ghost predicate LifeCycle(s: System) {
    && (forall h <- s.retired :: h < s.nextHandle && !Live(s, h))
    && NoRepeats(s.handedOut)
    && (forall h <- s.handedOut :: h in s.pool.active || h in s.retired)
  }

  /** While somebody sleeps, every idle connection has a woken getter on its way to it. */
  ghost predicate NoLostWakeup(s: System) {
    && s.sleeping !! s.woken
    && (s.sleeping != {} ==> |s.pool.idle| <= |s.woken|)
  }

  ghost predicate LateOnlyByTimeout(s: System) {
    s.late <= s.woken && (s.late != {} ==> s.config.queueTimeout != 0)
  }

  /** While somebody waits, the free slots are those freed silently after the last wait began and not
      filled since. */
  ghost predicate FreeSlotsAccounted(s: System) {
    s.sleeping + s.woken != {} ==> s.config.maxSize == Size(s.pool) + s.silent
  }

  ghost predicate Fifo(s: System) { s.pushed == s.taken + s.pool.idle }

  ghost predicate Inv(s: System) {
    Separate(s) && Bounded(s) && Owned(s) && LifeCycle(s) && NoLostWakeup(s)
    && LateOnlyByTimeout(s) && FreeSlotsAccounted(s) && Fifo(s)
  }

  // ---- one lemma per clause ----

  lemma PruneSplits(s: System, now: int)
    ensures var s' := PruneAt(s, now);
            var dropped := s.pool.idle[..|s.pool.idle| - |s'.pool.idle|];
            s.pool.idle == dropped + s'.pool.idle
  {
  }

  lemma SeparatePop(s: System, resetThrows: bool)
    requires HasIdle(s.pool) && Separate(s)
    ensures Separate(Pop(s, resetThrows))
  {
    FrontHandle(s.pool.idle);
    SuffixHandles(s.pool.idle, 1);
    assert s.pool.idle[0] in s.pool.idle;
    assert forall c <- s.pool.idle[1..] :: c in s.pool.idle;
  }

  lemma SeparatePrune(s: System, now: int)
    requires Separate(s)
    ensures Separate(PruneAt(s, now))
  {
    PruneSplits(s, now);
    SuffixHandles(s.pool.idle, |s.pool.idle| - |PruneAt(s, now).pool.idle|);
  }

  lemma SeparateStep(s: System, step: Step)
    requires Enabled(s, step) && Separate(s)
    ensures Separate(Apply(s, step))
  {
    match step
    case GetTakesIdle(_, resetThrows) => SeparatePop(s, resetThrows);
    case Rechecks(t, resetThrows) =>
      if HasIdle(s.pool) { SeparatePop(Leave(s, t), resetThrows); }
    case Prunes(now) => SeparatePrune(s, now);
    case Releases(_, now, _) => PushedHandle(s.pool.idle, Idle(s.nextHandle, now + s.config.maxIdle));
    case _ =>
  }

  lemma BoundedStep(s: System, step: Step)
    requires Enabled(s, step) && Separate(s) && Bounded(s)
    ensures Bounded(Apply(s, step))
  {
  }

  lemma OwnedPop(s: System, resetThrows: bool)
    requires HasIdle(s.pool) && Owned(s)
    ensures Owned(Pop(s, resetThrows))
  {
    assert s.pool.idle[0] in s.pool.idle;
    assert forall c <- s.pool.idle[1..] :: c in s.pool.idle;
  }

  lemma OwnedOnClose(s: System, h: Handle, now: int, notified: Option<Thread>)
    requires Separate(s) && Owned(s)
    ensures Owned(OnClose(s, h, now, notified))
  {
  }

  lemma OwnedPrune(s: System, now: int)
    requires Owned(s)
    ensures Owned(PruneAt(s, now))
  {
    PruneSplits(s, now);
  }

  lemma OwnedStep(s: System, step: Step)
    requires Enabled(s, step) && Separate(s) && Owned(s)
    ensures Owned(Apply(s, step))
  {
    match step
    case GetTakesIdle(_, resetThrows) => OwnedPop(s, resetThrows);
    case Rechecks(t, resetThrows) =>
      if HasIdle(s.pool) { OwnedPop(Leave(s, t), resetThrows); }
    case Releases(h, now, notified) => OwnedOnClose(s, h, now, notified);
    case Prunes(now) => OwnedPrune(s, now);
    case _ =>
  }

  lemma LifeCyclePop(s: System, resetThrows: bool)
    requires HasIdle(s.pool) && Separate(s) && LifeCycle(s)
    ensures LifeCycle(Pop(s, resetThrows))
  {
    assert s.pool.idle[0] in s.pool.idle;
    assert forall c <- s.pool.idle[1..] :: c in s.pool.idle;
  }

  lemma LifeCycleOnClose(s: System, h: Handle, now: int, notified: Option<Thread>)
    requires Separate(s) && LifeCycle(s)
    ensures LifeCycle(OnClose(s, h, now, notified))
  {
  }

  lemma LifeCyclePrune(s: System, now: int)
    requires Separate(s) && LifeCycle(s)
    ensures LifeCycle(PruneAt(s, now))
  {
    PruneSplits(s, now);
    DistinctParts(s.pool.idle, |s.pool.idle| - |PruneAt(s, now).pool.idle|);
  }

  lemma LifeCycleStep(s: System, step: Step)
    requires Enabled(s, step) && Separate(s) && LifeCycle(s)
    ensures LifeCycle(Apply(s, step))
  {
    match step
    case GetTakesIdle(_, resetThrows) => LifeCyclePop(s, resetThrows);
    case Rechecks(t, resetThrows) =>
      if HasIdle(s.pool) { LifeCyclePop(Leave(s, t), resetThrows); }
    case Releases(h, now, notified) => LifeCycleOnClose(s, h, now, notified);
    case Prunes(now) => LifeCyclePrune(s, now);
    case _ =>
  }

  lemma NoLostWakeupOnClose(s: System, h: Handle, now: int, notified: Option<Thread>)
    requires Notifies(s, notified) && NoLostWakeup(s)
    ensures NoLostWakeup(OnClose(s, h, now, notified))
  {
  }

  lemma NoLostWakeupRecheck(s: System, t: Thread, resetThrows: bool)
    requires t in s.woken && NoLostWakeup(s)
    ensures NoLostWakeup(Recheck(s, t, resetThrows))
  {
  }

  lemma NoLostWakeupStep(s: System, step: Step)
    requires Enabled(s, step) && NoLostWakeup(s)
    ensures NoLostWakeup(Apply(s, step))
  {
    match step
    case Rechecks(t, resetThrows) => NoLostWakeupRecheck(s, t, resetThrows);
    case Releases(h, now, notified) => NoLostWakeupOnClose(s, h, now, notified);
    case _ =>
  }

  lemma LateStep(s: System, step: Step)
    requires Enabled(s, step) && LateOnlyByTimeout(s) && s.sleeping !! s.woken
    ensures LateOnlyByTimeout(Apply(s, step))
  {
  }

  lemma SizeOfPop(s: System, resetThrows: bool)
    requires HasIdle(s.pool) && Separate(s)
    ensures Size(Pop(s, resetThrows).pool) == Size(s.pool)
  {
    assert s.pool.idle[0] in s.pool.idle;
  }

  lemma FreeSlotsStep(s: System, step: Step)
    requires Enabled(s, step) && Separate(s) && FreeSlotsAccounted(s)
    ensures FreeSlotsAccounted(Apply(s, step))
  {
    match step
    case GetTakesIdle(_, resetThrows) => SizeOfPop(s, resetThrows);
    case Rechecks(t, resetThrows) =>
      if HasIdle(s.pool) { SizeOfPop(Leave(s, t), resetThrows); }
    case _ =>
  }

  lemma FifoPop(s: System, resetThrows: bool)
    requires HasIdle(s.pool) && Fifo(s)
    ensures Fifo(Pop(s, resetThrows))
  {
    assert s.pool.idle == [s.pool.idle[0]] + s.pool.idle[1..];
  }

  lemma FifoPrune(s: System, now: int)
    requires Fifo(s)
    ensures Fifo(PruneAt(s, now))
  {
    PruneSplits(s, now);
  }

  lemma FifoStep(s: System, step: Step)
    requires Enabled(s, step) && Fifo(s)
    ensures Fifo(Apply(s, step))
  {
    match step
    case GetTakesIdle(_, resetThrows) => FifoPop(s, resetThrows);
    case Rechecks(t, resetThrows) =>
      if HasIdle(s.pool) { FifoPop(Leave(s, t), resetThrows); }
    case Prunes(now) => FifoPrune(s, now);
    case _ =>
  }

  lemma InvStep(s: System, step: Step)
    requires Enabled(s, step) && Inv(s)
    ensures Inv(Apply(s, step))
  {
    SeparateStep(s, step);
    BoundedStep(s, step);
    OwnedStep(s, step);
    LifeCycleStep(s, step);
    NoLostWakeupStep(s, step);
    LateStep(s, step);
    FreeSlotsStep(s, step);
    FifoStep(s, step);
  }

  // ---- theorems about whole behaviors ----

  lemma InvInit(config: Config)
    ensures Inv(Init(config))
  {
  }

  lemma ConfigStep(s: System, step: Step)
    requires Enabled(s, step)
    ensures Apply(s, step).config == s.config
  {
  }

  /** Every state of every interleaving satisfies the invariant. */
  lemma {:induction false} Safety(config: Config, states: seq<System>, steps: seq<Step>, i: nat)
    requires Behavior(config, states, steps) && i < |states|
    ensures Inv(states[i]) && states[i].config == config
  {
    if i == 0 {
      InvInit(config);
    } else {
      Safety(config, states, steps, i - 1);
      assert FollowsAt(states, steps, i - 1);
      InvStep(states[i - 1], steps[i - 1]);
      ConfigStep(states[i - 1], steps[i - 1]);
    }
  }

  lemma {:induction false} RetiredGrows(config: Config, states: seq<System>, steps: seq<Step>, i: nat, j: nat)
    requires Behavior(config, states, steps) && i <= j < |states|
    ensures states[i].retired <= states[j].retired
    decreases j - i
  {
    if i < j {
      RetiredGrows(config, states, steps, i, j - 1);
      assert FollowsAt(states, steps, j - 1);
      RetiredStep(states[j - 1], steps[j - 1]);
    }
  }

  lemma RetiredStep(s: System, step: Step)
    requires Enabled(s, step)
    ensures s.retired <= Apply(s, step).retired
  {
  }

  /** One active period per handle: once a release has removed `h`, it is never live again, and
      every later release of `h` changes nothing. */
  lemma ReleasedForGood(config: Config, states: seq<System>, steps: seq<Step>, i: nat, j: nat, h: Handle)
    requires Behavior(config, states, steps) && i < j < |states|
    requires steps[i].Releases? && steps[i].handle == h && h in states[i].pool.active
    ensures !Live(states[j], h)
    ensures j < |steps| && steps[j].Releases? && steps[j].handle == h ==> states[j + 1] == states[j]
  {
    assert FollowsAt(states, steps, i) && (j < |steps| ==> FollowsAt(states, steps, j));
    assert h in states[i + 1].retired;
    RetiredGrows(config, states, steps, i + 1, j);
    Safety(config, states, steps, j);
  }

  /** Every getter that does not wait can go on in exactly one way. */
  lemma GetterGoesOn(config: Config, states: seq<System>, steps: seq<Step>, i: nat, t: Thread)
    requires Behavior(config, states, steps) && i < |states| && !Waiting(states[i], t)
    ensures var p := states[i].pool;
            && (Enabled(states[i], GetTakesIdle(t, false)) <==> |p.idle| > 0)
            && (Enabled(states[i], GetConnects(t, true)) <==> |p.idle| == 0 && |p.active| < config.maxSize)
            && (Enabled(states[i], GetWaits(t)) <==> |p.idle| == 0 && |p.active| == config.maxSize)
            && (|p.idle| > 0 || |p.active| <= config.maxSize)
  {
    Safety(config, states, steps, i);
  }

  /** What a getter that does not find itself waiting gets: the front of the queue, or a new handle. */
  lemma GetReturns(config: Config, states: seq<System>, steps: seq<Step>, i: nat)
    requires Behavior(config, states, steps) && i < |steps|
    ensures var s, s', step := states[i], states[i + 1], steps[i];
            && (step.GetWaits? ==> Waiting(s', step.thread) && s'.pool == s.pool && s'.handedOut == s.handedOut)
            && (step.GetTakesIdle? ==>
                  && |s.pool.idle| > 0 && s'.pool.idle == s.pool.idle[1..]
                  && s'.pool.active == s.pool.active + {s.pool.idle[0].connection}
                  && s'.handedOut == s.handedOut + if step.resetThrows then [] else [s.pool.idle[0].connection])
            && (step.GetConnects? && !step.ok ==> s' == s)
            && (step.GetConnects? && step.ok ==>
                  exists h :: && h !in s.retired && !Live(s, h) && s'.pool.active == s.pool.active + {h}
                              && s'.pool.idle == s.pool.idle && s'.handedOut == s.handedOut + [h])
  {
    Safety(config, states, steps, i);
    assert FollowsAt(states, steps, i);
    if steps[i].GetConnects? && steps[i].ok { FreshHandle(states[i]); }
  }

  lemma FreshHandle(s: System)
    requires Separate(s) && LifeCycle(s)
    ensures s.nextHandle !in s.retired && !Live(s, s.nextHandle)
  {
  }

  /** A handle counts as broken exactly once it broke. */
  lemma {:induction false} BrokenIff(config: Config, states: seq<System>, steps: seq<Step>, i: nat, h: Handle)
    requires Behavior(config, states, steps) && i < |states|
    ensures h in states[i].errored <==> exists k :: 0 <= k < i && steps[k] == Breaks(h)
  {
    if i > 0 {
      BrokenIff(config, states, steps, i - 1, h);
      assert FollowsAt(states, steps, i - 1);
      BreaksStep(states[i - 1], steps[i - 1], h);
    }
  }

  lemma BreaksStep(s: System, step: Step, h: Handle)
    requires Enabled(s, step)
    ensures h in Apply(s, step).errored <==> h in s.errored || step == Breaks(h)
  {
  }

  /** The release of a broken connection drops it: its slot is free and the queue as before. */
  lemma BrokenIsDropped(config: Config, states: seq<System>, steps: seq<Step>, k: nat, i: nat, h: Handle)
    requires Behavior(config, states, steps) && k < i < |steps| && steps[k] == Breaks(h)
    requires steps[i].Releases? && steps[i].handle == h && h in states[i].pool.active
    ensures states[i + 1].pool.idle == states[i].pool.idle
    ensures states[i + 1].pool.active == states[i].pool.active - {h}
    ensures states[i + 1].sleeping == states[i].sleeping
  {
    BrokenIff(config, states, steps, i, h);
    assert FollowsAt(states, steps, i);
  }

  function Opened(steps: seq<Step>): nat {
    if steps == [] then 0
    else
      var last := steps[|steps| - 1];
      Opened(steps[..|steps| - 1]) + if last.GetConnects? && last.ok then 1 else 0
  }

  /** Physical connections come only from successful connects: releasing and taking never make one. */
  lemma {:induction false} ConnectionsOpened(config: Config, states: seq<System>, steps: seq<Step>, i: nat)
    requires Behavior(config, states, steps) && i < |states|
    ensures states[i].nextConnection == Opened(steps[..i])
  {
    if i > 0 {
      ConnectionsOpened(config, states, steps, i - 1);
      assert FollowsAt(states, steps, i - 1);
      ConnectionsStep(states[i - 1], steps[i - 1]);
      assert steps[..i][..i - 1] == steps[..i - 1];
    }
  }

  lemma ConnectionsStep(s: System, step: Step)
    requires Enabled(s, step)
    ensures Apply(s, step).nextConnection == s.nextConnection + if step.GetConnects? && step.ok then 1 else 0
  {
  }

  /** The release of an unbroken connection keeps the very connection: the new back of the queue owns
      what the released handle owned, and that handle owns nothing any more. */
  lemma ReleaseKeepsConnection(config: Config, states: seq<System>, steps: seq<Step>, i: nat, h: Handle)
    requires Behavior(config, states, steps) && i < |steps|
    requires steps[i].Releases? && steps[i].handle == h && h in states[i].pool.active && h !in states[i].errored
    ensures var idle, idle' := states[i].pool.idle, states[i + 1].pool.idle;
            && |idle'| == |idle| + 1 && idle'[..|idle|] == idle
            && h in states[i].physical && h !in states[i + 1].physical
            && idle'[|idle|].connection in states[i + 1].physical
            && states[i + 1].physical[idle'[|idle|].connection] == states[i].physical[h]
  {
    Safety(config, states, steps, i);
    assert FollowsAt(states, steps, i);
    assert Live(states[i], h);
  }

  /** No physical connection is ever in the hands of two clients: no handle is handed out twice, and
      two handles that are handed out and not yet released own different connections. */
  lemma ExclusiveUse(config: Config, states: seq<System>, steps: seq<Step>, i: nat, g: Handle, h: Handle)
    requires Behavior(config, states, steps) && i < |states|
    requires g != h
    requires g in states[i].handedOut && g !in states[i].retired
    requires h in states[i].handedOut && h !in states[i].retired
    ensures NoRepeats(states[i].handedOut)
    ensures g in states[i].physical && h in states[i].physical
    ensures states[i].physical[g] != states[i].physical[h]
  {
    Safety(config, states, steps, i);
    assert Live(states[i], g) && Live(states[i], h);
  }

  /** An idle connection is never stranded behind sleepers: some woken getter is about to recheck,
      and whichever woken getter does so first gets the front connection. */
  lemma IdleConnectionIsClaimed(config: Config, states: seq<System>, steps: seq<Step>, i: nat)
    requires Behavior(config, states, steps) && i < |states|
    requires states[i].sleeping != {} && HasIdle(states[i].pool)
    ensures states[i].woken != {}
    ensures forall t <- states[i].woken ::
              Enabled(states[i], Rechecks(t, false)) &&
              Apply(states[i], Rechecks(t, false)).handedOut
                == states[i].handedOut + [states[i].pool.idle[0].connection]
  {
    Safety(config, states, steps, i);
  }

  /** A waiting getter stops waiting only by its own recheck, and then with a connection unless the
      queue timeout elapsed; without a queue timeout it never gives up. */
  lemma WaitEndsWithConnection(config: Config, states: seq<System>, steps: seq<Step>, i: nat, t: Thread)
    requires Behavior(config, states, steps) && i < |steps|
    requires Waiting(states[i], t) && !Waiting(states[i + 1], t)
    ensures steps[i].Rechecks? && steps[i].thread == t
    ensures HasIdle(states[i].pool) || (t in states[i].late && config.queueTimeout != 0)
    ensures HasIdle(states[i].pool) && !steps[i].resetThrows ==>
              states[i + 1].handedOut == states[i].handedOut + [states[i].pool.idle[0].connection]
  {
    Safety(config, states, steps, i);
    assert FollowsAt(states, steps, i);
  }

  /** A step that moves `t` into, out of or within the wait. */
  predicate Concerns(step: Step, t: Thread) {
    match step
    case GetConnects(u, _) => u == t
    case GetTakesIdle(u, _) => u == t
    case GetWaits(u) => u == t
    case Wakes(u, _) => u == t
    case Rechecks(u, _) => u == t
    case Releases(_, _, notified) => notified == Some(t)
    case _ => false
  }

  lemma WakesUpLeavesTrace(s: System, step: Step, t: Thread)
    requires Enabled(s, step) && s.sleeping !! s.woken && s.late <= s.woken && WakesUp(s, step, t)
    ensures t in Apply(s, step).woken && (t in Apply(s, step).late <==> step == Wakes(t, true))
  {
  }

  lemma UnconcernedStep(s: System, step: Step, t: Thread)
    requires Enabled(s, step) && t in s.woken && !Concerns(step, t)
    ensures t in Apply(s, step).woken && (t in Apply(s, step).late <==> t in s.late)
  {
  }

  lemma {:induction false} WokenSince(config: Config, states: seq<System>, steps: seq<Step>,
                                      k: nat, i: nat, t: Thread)
    requires Behavior(config, states, steps) && k < i < |states| && WakesUp(states[k], steps[k], t)
    requires forall m :: k < m < i ==> !Concerns(steps[m], t)
    ensures t in states[i].woken && (t in states[i].late <==> steps[k] == Wakes(t, true))
    decreases i
  {
    assert FollowsAt(states, steps, i - 1);
    if i == k + 1 {
      Safety(config, states, steps, k);
      WakesUpLeavesTrace(states[k], steps[k], t);
    } else {
      WokenSince(config, states, steps, k, i - 1, t);
      UnconcernedStep(states[i - 1], steps[i - 1], t);
    }
  }

  lemma RecheckStep(s: System, t: Thread, resetThrows: bool)
    requires Enabled(s, Rechecks(t, resetThrows)) && s.sleeping !! s.woken
    ensures var s' := Apply(s, Rechecks(t, resetThrows));
            && (Waiting(s', t) <==> s.pool.idle == [] && t !in s.late)
            && (s.pool.idle == [] ==> s'.handedOut == s.handedOut && s'.pool == s.pool)
  {
  }

  /** A recheck, exactly: the getter goes on waiting if and only if there is no idle connection and it
      was not the queue timeout that woke it. Otherwise it leaves, with a connection or without. */
  lemma RecheckEndsWait(config: Config, states: seq<System>, steps: seq<Step>, k: nat, i: nat, t: Thread)
    requires Behavior(config, states, steps) && k < i < |steps| && WakesUp(states[k], steps[k], t)
    requires forall m :: k < m < i ==> !Concerns(steps[m], t)
    requires steps[i].Rechecks? && steps[i].thread == t
    ensures Waiting(states[i + 1], t) <==> states[i].pool.idle == [] && steps[k] != Wakes(t, true)
    ensures states[i].pool.idle == [] ==> states[i + 1].handedOut == states[i].handedOut
  {
    WokenSince(config, states, steps, k, i, t);
    Safety(config, states, steps, i);
    assert FollowsAt(states, steps, i);
    RecheckStep(states[i], t, steps[i].resetThrows);
  }

  /** Every woken getter has such a last wakeup. */
  lemma {:induction false} LastWakeup(config: Config, states: seq<System>, steps: seq<Step>, i: nat, t: Thread)
    returns (k: nat)
    requires Behavior(config, states, steps) && i < |states| && t in states[i].woken
    ensures k < i && WakesUp(states[k], steps[k], t)
    ensures forall m :: k < m < i ==> !Concerns(steps[m], t)
  {
    if i == 0 {
      assert false;
    }
    assert FollowsAt(states, steps, i - 1);
    if WakesUp(states[i - 1], steps[i - 1], t) {
      k := i - 1;
    } else {
      Safety(config, states, steps, i - 1);
      WokenBefore(states[i - 1], steps[i - 1], t);
      k := LastWakeup(config, states, steps, i - 1, t);
    }
  }

  lemma WokenBefore(s: System, step: Step, t: Thread)
    requires Enabled(s, step) && s.sleeping !! s.woken && t in Apply(s, step).woken && !WakesUp(s, step, t)
    ensures t in s.woken && !Concerns(step, t)
  {
  }

  /** The free slots beside a waiting getter, exactly: it waits at a pool that is not full if and only
      if slots were freed silently and not all filled again. */
  lemma FullWhileWaiting(config: Config, states: seq<System>, steps: seq<Step>, i: nat)
    requires Behavior(config, states, steps) && i < |states|
    requires states[i].sleeping + states[i].woken != {}
    ensures config.maxSize - Size(states[i].pool) == states[i].silent
    ensures IsFull(states[i]) <==> states[i].silent == 0
  {
    Safety(config, states, steps, i);
  }

  // ---- sleepers that nobody wakes ----

  /** The two ways out of the condition variable: timeout or spurious, and a notification, which only
      the release of an active connection that is not broken sends. */
  predicate WakesUp(s: System, step: Step, t: Thread) {
    match step
    case Wakes(u, _) => u == t
    case Releases(h, _, notified) => h in s.pool.active && h !in s.errored && notified == Some(t)
    case _ => false
  }

  lemma WakesUpStep(s: System, step: Step, t: Thread)
    requires Enabled(s, step) && t in s.sleeping && s.sleeping !! s.woken
    ensures t !in Apply(s, step).sleeping <==> WakesUp(s, step, t)
  {
  }

  /** A sleeper sleeps on exactly until one of them happens, whatever else does. */
  lemma {:induction false} SleepsUntilWoken(config: Config, states: seq<System>, steps: seq<Step>,
                                            i: nat, j: nat, t: Thread)
    requires Behavior(config, states, steps) && i <= j < |states|
    requires t in states[i].sleeping
    ensures t in states[j].sleeping || exists k :: i <= k < j && WakesUp(states[k], steps[k], t)
    ensures j < |steps| && t in states[j].sleeping ==>
              (t !in states[j + 1].sleeping <==> WakesUp(states[j], steps[j], t))
    decreases j - i
  {
    if i < j {
      SleepsUntilWoken(config, states, steps, i, j - 1, t);
    }
    if j < |steps| && t in states[j].sleeping {
      Safety(config, states, steps, j);
      assert FollowsAt(states, steps, j);
      WakesUpStep(states[j], steps[j], t);
    }
  }

  lemma EmptyPoolStep(s: System, step: Step, t: Thread)
    requires Enabled(s, step) && Size(s.pool) == 0 && s.late == {} && Waiting(s, t)
    requires s.config.queueTimeout == 0 && !(step.GetConnects? && step.ok)
    ensures Size(Apply(s, step).pool) == 0 && Apply(s, step).handedOut == s.handedOut
    ensures Waiting(Apply(s, step), t)
  {
  }

  /** Getters waiting at an empty pool without a queue timeout wait until some other thread opens a
      connection: neither spurious wakeups nor any release, prune or close gets them one. */
  lemma {:induction false} StrandedUntilConnect(config: Config, states: seq<System>, steps: seq<Step>,
                                                i: nat, j: nat, t: Thread)
    requires Behavior(config, states, steps) && i <= j < |states| && config.queueTimeout == 0
    requires Waiting(states[i], t) && Size(states[i].pool) == 0
    requires forall k :: i <= k < j ==> !(steps[k].GetConnects? && steps[k].ok)
    ensures Waiting(states[j], t) && Size(states[j].pool) == 0 && states[j].handedOut == states[i].handedOut
    decreases j - i
  {
    if i < j {
      StrandedUntilConnect(config, states, steps, i, j - 1, t);
      Safety(config, states, steps, j - 1);
      assert FollowsAt(states, steps, j - 1);
      EmptyPoolStep(states[j - 1], steps[j - 1], t);
    }
  }

  /** Some behavior passes through `s`. */
  ghost predicate Reachable(config: Config, s: System) {
    exists states, steps :: Behavior(config, states, steps) && states[|steps|] == s
  }

  lemma ReachableInit(config: Config)
    ensures Reachable(config, Init(config))
  {
    assert Behavior(config, [Init(config)], []);
  }

  lemma ReachableStep(config: Config, s: System, step: Step)
    requires Reachable(config, s) && Enabled(s, step)
    ensures Reachable(config, Apply(s, step))
  {
    var states, steps :| Behavior(config, states, steps) && states[|steps|] == s;
    var states', steps' := states + [Apply(s, step)], steps + [step];
    forall i | 0 <= i < |steps'|
      ensures FollowsAt(states', steps', i)
    {
      assert i < |steps| ==> FollowsAt(states, steps, i);
    }
    assert Behavior(config, states', steps') && states'[|steps'|] == Apply(s, step);
  }

  /** Such a state is reached: the only connection breaks, its release notifies nobody, and the second
      thread sleeps beside an empty pool with nobody woken. */
  lemma StrandedWaiter() returns (s: System)
    ensures Reachable(Config(1, 0, 0), s)
    ensures s.sleeping == {1} && s.woken == {} && Size(s.pool) == 0
  {
    var config := Config(1, 0, 0);
    ReachableInit(config);
    s := Connect(Init(config));
    ReachableStep(config, Init(config), GetConnects(0, true));
    assert s.pool == Pool({0}, [], 0);
    ReachableStep(config, s, GetWaits(1));
    s := Apply(s, GetWaits(1));
    ReachableStep(config, s, Breaks(0));
    s := Apply(s, Breaks(0));
    ReachableStep(config, s, Releases(0, 0, Some(1)));
    s := Apply(s, Releases(0, 0, Some(1)));
    assert s.pool == Pool({}, [], 0);
  }

  // ---- slots lost to a throwing `reset` ----

  /** A close that gets past the active connections. */
  predicate Closes(step: Step) { step.ClosesPool? && !step.activeThrows }

  /** A step that removes `h` from the active set. */
  predicate Frees(step: Step, h: Handle) {
    Closes(step) || (step.Releases? && step.handle == h)
  }

  /** An active handle keeps its slot exactly until it is released or the pool is closed. */
  lemma {:induction false} ActiveUntilFreed(config: Config, states: seq<System>, steps: seq<Step>,
                                            i: nat, j: nat, h: Handle)
    requires Behavior(config, states, steps) && i <= j < |states|
    requires h in states[i].pool.active
    requires forall k :: i <= k < j ==> !Frees(steps[k], h)
    ensures h in states[j].pool.active
    ensures j < |steps| ==> (h !in states[j + 1].pool.active <==> Frees(steps[j], h))
    decreases j - i
  {
    if i < j {
      ActiveUntilFreed(config, states, steps, i, j - 1, h);
    }
    if j < |steps| {
      assert FollowsAt(states, steps, j);
      FreesStep(states[j], steps[j], h);
    }
  }

  lemma FreesStep(s: System, step: Step, h: Handle)
    requires Enabled(s, step) && h in s.pool.active
    ensures h !in Apply(s, step).pool.active <==> Frees(step, h)
  {
  }

  /** `reset` throws on the connection `h` just taken off the queue, with or without a wait before. */
  predicate Loses(s: System, step: Step, h: Handle) {
    && (step.GetTakesIdle? || step.Rechecks?) && step.resetThrows
    && HasIdle(s.pool) && s.pool.idle[0].connection == h
  }

  /** `h` occupies a slot and no client has ever received it. */
  predicate Leaked(s: System, h: Handle) { h in s.pool.active && h !in s.handedOut }

  lemma LosesStep(s: System, step: Step, h: Handle)
    requires Enabled(s, step) && Loses(s, step, h)
    ensures h in Apply(s, step).pool.active
  {
  }

  lemma UsedStep(s: System, step: Step, h: Handle)
    requires Enabled(s, step) && h in s.pool.active + s.retired
    ensures h in Apply(s, step).pool.active + Apply(s, step).retired
  {
  }

  lemma {:induction false} LostIsUsed(config: Config, states: seq<System>, steps: seq<Step>, k: nat, i: nat, h: Handle)
    requires Behavior(config, states, steps) && k < i < |states| && Loses(states[k], steps[k], h)
    ensures h in states[i].pool.active + states[i].retired
    decreases i - k
  {
    if i == k + 1 {
      assert FollowsAt(states, steps, k);
      LosesStep(states[k], steps[k], h);
    } else {
      LostIsUsed(config, states, steps, k, i - 1, h);
      assert FollowsAt(states, steps, i - 1);
      UsedStep(states[i - 1], steps[i - 1], h);
    }
  }

  /** A handle that stays active is handed out in no step, one that becomes active in that very step
      unless its `reset` throws. */
  lemma LeakedStep(s: System, step: Step, h: Handle)
    requires Enabled(s, step) && Separate(s) && LifeCycle(s) && h in Apply(s, step).pool.active
    ensures h in s.pool.active ==> (Leaked(Apply(s, step), h) <==> Leaked(s, h)) && !Loses(s, step, h)
    ensures h !in s.pool.active ==> (Leaked(Apply(s, step), h) <==> Loses(s, step, h)) && h !in s.retired
  {
    if HasIdle(s.pool) { assert s.pool.idle[0] in s.pool.idle; }
  }

  lemma LeakedAt(config: Config, states: seq<System>, steps: seq<Step>, i: nat, h: Handle)
    requires Behavior(config, states, steps) && i < |steps| && h in states[i + 1].pool.active
    ensures h in states[i].pool.active ==>
              (Leaked(states[i + 1], h) <==> Leaked(states[i], h)) && !Loses(states[i], steps[i], h)
    ensures h !in states[i].pool.active ==>
              (Leaked(states[i + 1], h) <==> Loses(states[i], steps[i], h)) && h !in states[i].retired
  {
    Safety(config, states, steps, i);
    assert FollowsAt(states, steps, i);
    LeakedStep(states[i], steps[i], h);
  }

  /** The exact condition: an active handle is in nobody's hands if and only if `reset` threw when it
      was taken off the queue. */
  lemma {:induction false} LeakedIff(config: Config, states: seq<System>, steps: seq<Step>, i: nat, h: Handle)
    requires Behavior(config, states, steps) && i < |states| && h in states[i].pool.active
    ensures Leaked(states[i], h) <==> exists k :: 0 <= k < i && Loses(states[k], steps[k], h)
  {
    if i > 0 {
      LeakedAt(config, states, steps, i - 1, h);
      if h in states[i - 1].pool.active {
        LeakedIff(config, states, steps, i - 1, h);
      } else {
        forall k | 0 <= k < i - 1
          ensures !Loses(states[k], steps[k], h)
        {
          if Loses(states[k], steps[k], h) { LostIsUsed(config, states, steps, k, i - 1, h); }
        }
      }
    }
  }

  /** Clients release only what they received. */
  ghost predicate Disciplined(states: seq<System>, steps: seq<Step>)
    requires |states| == |steps| + 1
  {
    forall i :: 0 <= i < |steps| && steps[i].Releases? ==> steps[i].handle in states[i].handedOut
  }

  /** A lost slot stays lost until the pool is closed. */
  lemma {:induction false} LeakedUntilClosed(config: Config, states: seq<System>, steps: seq<Step>,
                                             i: nat, j: nat, h: Handle)
    requires Behavior(config, states, steps) && Disciplined(states, steps) && i <= j < |states|
    requires Leaked(states[i], h) && forall k :: i <= k < j ==> !Closes(steps[k])
    ensures Leaked(states[j], h)
    decreases j - i
  {
    if i < j {
      LeakedUntilClosed(config, states, steps, i, j - 1, h);
      ActiveUntilFreed(config, states, steps, j - 1, j - 1, h);
      LeakedAt(config, states, steps, j - 1, h);
    }
  }

  lemma AllLeaked(s: System, lost: set<Handle>)
    requires Bounded(s) && |lost| == s.config.maxSize && lost <= s.pool.active
    ensures s.pool.idle == [] && IsFull(s)
  {
    assert |s.pool.active| == |lost| + |s.pool.active - lost|;
  }

  /** A pool that has lost all its slots hands out nothing until it is closed. */
  lemma {:induction false} LeakedPoolIsDead(config: Config, states: seq<System>, steps: seq<Step>,
                                            i: nat, j: nat, lost: set<Handle>)
    requires Behavior(config, states, steps) && Disciplined(states, steps) && i <= j < |states|
    requires |lost| == config.maxSize && forall h <- lost :: Leaked(states[i], h)
    requires forall k :: i <= k < j ==> !Closes(steps[k])
    ensures states[j].handedOut == states[i].handedOut && IsFull(states[j]) && !HasIdle(states[j].pool)
    decreases j - i
  {
    forall h | h in lost
      ensures Leaked(states[j], h)
    {
      LeakedUntilClosed(config, states, steps, i, j, h);
    }
    Safety(config, states, steps, j);
    AllLeaked(states[j], lost);
    if i < j {
      LeakedPoolIsDead(config, states, steps, i, j - 1, lost);
      assert FollowsAt(states, steps, j - 1);
      FullStep(states[j - 1], steps[j - 1]);
    }
  }

  lemma FullStep(s: System, step: Step)
    requires Enabled(s, step) && IsFull(s) && !HasIdle(s.pool)
    ensures Apply(s, step).handedOut == s.handedOut
  {
  }

  /** The slot is occupied at once, on both paths that take a connection off the queue. */
  lemma ThrowingResetLeaksSlot(config: Config, states: seq<System>, steps: seq<Step>, i: nat, h: Handle)
    requires Behavior(config, states, steps) && i < |steps| && Loses(states[i], steps[i], h)
    ensures Leaked(states[i + 1], h) && Size(states[i + 1].pool) == Size(states[i].pool)
  {
    Safety(config, states, steps, i);
    assert FollowsAt(states, steps, i);
    LosesStep(states[i], steps[i], h);
    assert states[i].pool.idle[0] in states[i].pool.idle;
    LeakedStep(states[i], steps[i], h);
    if steps[i].GetTakesIdle? {
      SizeOfPop(states[i], true);
    } else {
      SizeOfPop(Leave(states[i], steps[i].thread), true);
    }
  }

  /** One such throw is enough for a pool of size one, with clients that release only what they
      received. */
  lemma LeakedPoolReached() returns (states: seq<System>, steps: seq<Step>)
    ensures Behavior(Config(1, 0, 0), states, steps) && Disciplined(states, steps)
    ensures Leaked(states[|steps|], 1)
  {
    var s0 := Init(Config(1, 0, 0));
    steps := [GetConnects(0, true), Releases(0, 0, None), GetTakesIdle(0, true)];
    var s1 := Apply(s0, steps[0]);
    assert s1.pool == Pool({0}, [], 0) && s1.handedOut == [0];
    var s2 := Apply(s1, steps[1]);
    assert s2.pool == Pool({}, [Idle(1, 0)], 0) && s2.handedOut == [0];
    states := [s0, s1, s2, Apply(s2, steps[2])];
    forall i | 0 <= i < |steps|
      ensures FollowsAt(states, steps, i)
    {
      assert i == 0 || i == 1 || i == 2;
    }
  }

  // ---- time ----

  predicate OnTime(s: System, step: Step) {
    match step
    case Releases(_, now, _) => s.clock <= now
    case Prunes(now) => s.clock <= now
    case _ => true
  }

  ghost predicate MonotoneClock(states: seq<System>, steps: seq<Step>)
    requires |states| == |steps| + 1
  {
    forall i :: 0 <= i < |steps| ==> OnTime(states[i], steps[i])
  }

  ghost predicate Sorted(s: System) {
    && SortedByExpiry(s.pool.idle)
    && forall c <- s.pool.idle :: c.expiry <= s.clock + s.config.maxIdle
  }

  lemma SortedSuffix(idle: seq<Idle<Handle>>, k: nat)
    requires SortedByExpiry(idle) && k <= |idle|
    ensures SortedByExpiry(idle[k..])
    ensures forall c <- idle[k..] :: c in idle
  {
  }

  lemma SortedPush(idle: seq<Idle<Handle>>, c: Idle<Handle>)
    requires SortedByExpiry(idle) && forall d <- idle :: d.expiry <= c.expiry
    ensures SortedByExpiry(idle + [c])
  {
    assert forall i :: 0 <= i < |idle| ==> idle[i] in idle;
  }

  lemma SortedStep(s: System, step: Step)
    requires Enabled(s, step) && OnTime(s, step) && Sorted(s)
    ensures Sorted(Apply(s, step))
  {
    match step
    case GetTakesIdle(_, resetThrows) => SortedSuffix(s.pool.idle, 1);
    case Rechecks(t, resetThrows) =>
      if HasIdle(s.pool) { SortedSuffix(s.pool.idle, 1); }
    case Prunes(now) => SortedSuffix(s.pool.idle, FirstUnexpired(s.pool.idle, now));
    case Releases(h, now, notified) =>
      SortedPush(s.pool.idle, Idle(s.nextHandle, now + s.config.maxIdle));
    case _ =>
  }

  lemma {:induction false} AlwaysSorted(config: Config, states: seq<System>, steps: seq<Step>, i: nat)
    requires Behavior(config, states, steps) && MonotoneClock(states, steps) && i < |states|
    ensures Sorted(states[i])
  {
    if i > 0 {
      AlwaysSorted(config, states, steps, i - 1);
      assert FollowsAt(states, steps, i - 1);
      SortedStep(states[i - 1], steps[i - 1]);
    }
  }

  /** With a clock that never goes back, a due prune leaves exactly the unexpired connections. */
  lemma PruneFiltersExpired(config: Config, states: seq<System>, steps: seq<Step>, i: nat)
    requires Behavior(config, states, steps) && MonotoneClock(states, steps) && i < |steps|
    requires steps[i].Prunes? && PruneDue(states[i].pool, steps[i].now, config.maxIdle)
    ensures states[i + 1].pool.idle == Unexpired(states[i].pool.idle, steps[i].now)
  {
    AlwaysSorted(config, states, steps, i);
    Safety(config, states, steps, i);
    assert FollowsAt(states, steps, i);
    SortedPruneIsFilter(states[i].pool.idle, steps[i].now);
  }

  /** With any clock, pruning keeps every connection that has not expired. */
  lemma PruneKeepsUnexpired(s: System, now: int, c: Idle<Handle>)
    requires c in s.pool.idle && now < c.expiry
    ensures c in PruneAt(s, now).pool.idle
  {
    var k := FirstUnexpired(s.pool.idle, now);
    assert s.pool.idle == s.pool.idle[..k] + s.pool.idle[k..];
  }

  /** A released connection stays pooled for the whole maximum idle time. */
  lemma PrunedAfterMaxIdle(config: Config, states: seq<System>, steps: seq<Step>, i: nat, j: nat, c: Idle<Handle>)
    requires Behavior(config, states, steps) && i < j < |steps|
    requires steps[i].Releases? && states[i + 1].pool.idle == states[i].pool.idle + [c]
    requires steps[j].Prunes? && c in states[j].pool.idle && c !in states[j + 1].pool.idle
    ensures steps[i].now + config.maxIdle <= steps[j].now
  {
    Safety(config, states, steps, i);
    assert FollowsAt(states, steps, i) && FollowsAt(states, steps, j);
    assert states[i + 1].pool.idle[|states[i].pool.idle|] == c;
    if steps[j].now < c.expiry { PruneKeepsUnexpired(states[j], steps[j].now, c); }
  }

  lemma {:induction false} NextPruneGrows(config: Config, states: seq<System>, steps: seq<Step>, i: nat, j: nat)
    requires Behavior(config, states, steps) && i <= j < |states|
    ensures states[i].pool.nextPrune <= states[j].pool.nextPrune
    decreases j - i
  {
    if i < j {
      NextPruneGrows(config, states, steps, i, j - 1);
      assert FollowsAt(states, steps, j - 1);
      NextPruneStep(states[j - 1], steps[j - 1]);
    }
  }

  lemma NextPruneStep(s: System, step: Step)
    requires Enabled(s, step)
    ensures s.pool.nextPrune <= Apply(s, step).pool.nextPrune
  {
  }

  lemma {:induction false} NextPruneIs(config: Config, states: seq<System>, steps: seq<Step>, i: nat)
    requires Behavior(config, states, steps) && i < |states|
    ensures states[i].pool.nextPrune == 0 ||
            exists k :: 0 <= k < i && steps[k].Prunes? && states[i].pool.nextPrune == steps[k].now + config.maxIdle
  {
    if i > 0 {
      NextPruneIs(config, states, steps, i - 1);
      Safety(config, states, steps, i - 1);
      assert FollowsAt(states, steps, i - 1);
      NextPruneChange(states[i - 1], steps[i - 1]);
    }
  }

  lemma NextPruneChange(s: System, step: Step)
    requires Enabled(s, step)
    ensures Apply(s, step).pool.nextPrune == s.pool.nextPrune ||
            (step.Prunes? && Apply(s, step).pool.nextPrune == step.now + s.config.maxIdle)
  {
  }

  /** A prune that comes more than the maximum idle time after all earlier ones does happen: with a
      clock that never goes back it leaves exactly the unexpired connections, be there one or many. */
  lemma PruneHappens(config: Config, states: seq<System>, steps: seq<Step>, i: nat)
    requires Behavior(config, states, steps) && MonotoneClock(states, steps) && i < |steps|
    requires steps[i].Prunes? && config.maxIdle != 0 && 0 < steps[i].now
    requires forall k :: 0 <= k < i && steps[k].Prunes? ==> steps[k].now + config.maxIdle < steps[i].now
    ensures states[i + 1].pool.idle == Unexpired(states[i].pool.idle, steps[i].now)
  {
    NextPruneIs(config, states, steps, i);
    PruneFiltersExpired(config, states, steps, i);
  }

  /** Two prunes that do something are more than the maximum idle time apart, whatever the clock. */
  lemma PrunesApart(config: Config, states: seq<System>, steps: seq<Step>, i: nat, j: nat)
    requires Behavior(config, states, steps) && i < j < |steps|
    requires steps[i].Prunes? && PruneDue(states[i].pool, steps[i].now, config.maxIdle)
    requires steps[j].Prunes? && PruneDue(states[j].pool, steps[j].now, config.maxIdle)
    ensures steps[i].now + config.maxIdle < steps[j].now
  {
    Safety(config, states, steps, i);
    assert FollowsAt(states, steps, i);
    NextPruneGrows(config, states, steps, i + 1, j);
  }

  lemma TwoConnected(config: Config) returns (s: System)
    requires config.maxSize == 2
    ensures Reachable(config, s) && s.config == config
    ensures s.pool == Pool({0, 1}, [], 0) && s.nextHandle == 2 && s.errored == {} && s.sleeping == {}
  {
    ReachableInit(config);
    s := Init(config);
    ReachableStep(config, s, GetConnects(0, true));
    s := Apply(s, GetConnects(0, true));
    assert s.pool == Pool({0}, [], 0);
    ReachableStep(config, s, GetConnects(1, true));
    s := Apply(s, GetConnects(1, true));
  }

  /** When the clock may go back, an expired connection can survive a due prune behind an unexpired
      one. */
  lemma BackwardClockDefeatsPrune() returns (s: System)
    ensures Reachable(Config(2, 10, 0), s) && PruneDue(s.pool, 20, 10)
    ensures PruneAt(s, 20).pool.idle == [Idle(2, 110), Idle(3, 15)]
  {
    var config := Config(2, 10, 0);
    s := TwoConnected(config);
    ReachableStep(config, s, Releases(0, 100, None));
    s := Apply(s, Releases(0, 100, None));
    assert s.pool == Pool({1}, [Idle(2, 110)], 0);
    ReachableStep(config, s, Releases(1, 5, None));
    s := Apply(s, Releases(1, 5, None));
    assert s.pool == Pool({}, [Idle(2, 110), Idle(3, 15)], 0);
  }
}
