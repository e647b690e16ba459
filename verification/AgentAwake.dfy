/** The wake lock held while agents work (src/main/agent-awake-service.ts).

  The environment is explicit: every call into the operating system's blocker carries its
  outcome, and every refresh carries its two clock readings.  A call may throw, `stop` may or
  may not release, and the system may drop a blocker at any time; only `isStarted`, when it does
  not throw, tells the truth.  The macOS and Linux sleep assertions appear only through their
  callback: between being started and being stopped they may ask for a refresh at any time, which
  covers one that fails while it is being started, since a refresh starts them last. */
module AgentAwake {
  import opened Wrappers
  import opened Collections

  const STALE_AFTER_MS: int := 2 * 60 * 60 * 1000

  // ----- Statuses and expiry

  datatype AgentState = Working | Blocked | Waiting | Done

  datatype Instant = Finite(ms: int) | NotFinite

  datatype Status = Status(state: AgentState, receivedAt: Instant, observedInCurrentRuntime: bool)

  /** The statuses that can hold the lock and have an expiry. */
  predicate Tracked(s: Status) {
    s.observedInCurrentRuntime && s.state == Working && s.receivedAt.Finite?
  }

  function Expiry(s: Status): int
    requires Tracked(s)
  {
    s.receivedAt.ms + STALE_AFTER_MS
  }

  predicate IsWakeEligible(s: Status, now: int) {
    Tracked(s) && now - s.receivedAt.ms <= STALE_AFTER_MS
  }

  function EligibleCount(statuses: seq<Status>, now: int): nat {
    if statuses == [] then 0
    else (if IsWakeEligible(statuses[0], now) then 1 else 0) + EligibleCount(statuses[1..], now)
  }

  lemma {:induction false} EligibleCountPositive(statuses: seq<Status>, now: int)
    ensures EligibleCount(statuses, now) > 0 <==> exists s :: s in statuses && IsWakeEligible(s, now)
  {
    if statuses != [] {
      EligibleCountPositive(statuses[1..], now);
      assert statuses == [statuses[0]] + statuses[1..];
    }
  }

  ghost function FutureExpiries(statuses: seq<Status>, now: int): set<int> {
    set s | s in statuses && Tracked(s) && Expiry(s) > now :: Expiry(s)
  }

  ghost predicate IsLeast(d: int, s: set<int>) {
    d in s && forall x :: x in s ==> d <= x
  }

  // ----- The environment's answers

  /** One `isStarted` call; `drops` says the system let the blocker go just before it. */
  datatype Probe = Probe(throws: bool, drops: bool)

  datatype StartCall = StartThrows | StartReturns(id: int)

  datatype StopCall = StopCall(throws: bool, releases: bool)

  /** Everything the environment contributes to one refresh. */
  datatype Env = Env(
    scheduleNow: int,
    eligibleNow: int,
    probeBefore: Probe,
    start: StartCall,
    probeAfterStart: Probe,
    stop: StopCall,
    probeAfterStop: Probe
  )

  predicate ClockMovesForward(env: Env) {
    env.scheduleNow <= env.eligibleNow
  }

  predicate Truthful(p: Probe) {
    !p.throws && !p.drops
  }

  predicate CallsWork(env: Env) {
    && Truthful(env.probeBefore) && Truthful(env.probeAfterStart) && Truthful(env.probeAfterStop)
    && env.start.StartReturns? && env.stop == StopCall(false, true)
  }

  // ----- Specification

  /** The service's fields, with what the system really holds.  `asserting` says that the platform
    assertions were last started and not stopped, so that they may call back. */
  datatype State = State(
    enabled: bool,
    statuses: seq<Status>,
    blockerId: Option<int>,
    staleTimer: Option<int>,
    listening: bool,
    asserting: bool,
    held: set<int>
  )

  const INITIAL := State(false, [], None, None, true, false, {})

  /** `reconcileBlocker`, with its answer: an error counts as still started. */
  function Reconciled(st: State, p: Probe): (State, bool) {
    if st.blockerId.None? then (st, false)
    else
      var seen := st.(held := if p.drops then {} else st.held);
      if p.throws then (seen, true)
      else if st.blockerId.value in seen.held then (seen, true)
      else (seen.(blockerId := None), false)
  }

  function StartedBlocker(st: State, env: Env): State {
    var (before, live) := Reconciled(st, env.probeBefore);
    if live then before
    else
      match env.start
      case StartThrows => before
      case StartReturns(id) =>
        Reconciled(before.(held := before.held + {id}, blockerId := Some(id)), env.probeAfterStart).0
  }

  function StoppedBlocker(st: State, stop: StopCall, probe: Probe): State {
    if st.blockerId.None? then st
    else
      Reconciled(st.(held := if stop.releases then st.held - {st.blockerId.value} else st.held), probe).0
  }

  predicate ShouldBlock(st: State, now: int) {
    st.enabled && EligibleCount(st.statuses, now) > 0
  }

  /** The earliest expiry strictly after `now`. */
  function EarliestExpiry(statuses: seq<Status>, now: int): Option<int> {
    if statuses == [] then None
    else
      var rest := EarliestExpiry(statuses[..|statuses| - 1], now);
      var s := statuses[|statuses| - 1];
      if !Tracked(s) || Expiry(s) <= now then rest
      else if rest.None? || Expiry(s) < rest.value then Some(Expiry(s))
      else rest
  }

  function Refreshed(st: State, env: Env): State {
    var armed := Planned(st, env);
    if armed.asserting then StartedBlocker(armed, env)
    else StoppedBlocker(armed, env.stop, env.probeAfterStop)
  }

  /** What a refresh decides: the timer it arms, and whether it asks for the lock and starts the
    platform assertions, or stops both. */
  function Planned(st: State, env: Env): State {
    st.(staleTimer := EarliestExpiry(st.statuses, env.scheduleNow), asserting := ShouldBlock(st, env.eligibleNow))
  }

  datatype Event =
    | SetEnabled(enabled: bool, env: Env)
    | SetStatuses(statuses: seq<Status>, env: Env)
    | TimerFires(env: Env)
    | PowerResumes(env: Env)
    | AssertionFails(env: Env)
    | SystemDrops
    | Dispose(stop: StopCall, probe: Probe)

  /** Nothing can call the service any more but its owner. */
  function Unplugged(st: State): State {
    st.(staleTimer := None, listening := false, asserting := false)
  }

  function Step(st: State, e: Event): State {
    match e
    case SetEnabled(enabled, env) => if st.enabled == enabled then st else Refreshed(st.(enabled := enabled), env)
    case SetStatuses(statuses, env) => Refreshed(st.(statuses := statuses), env)
    case TimerFires(env) => if st.staleTimer.None? then st else Refreshed(st.(staleTimer := None), env)
    case PowerResumes(env) => if st.listening then Refreshed(st, env) else st
    case AssertionFails(env) => if st.asserting then Refreshed(st, env) else st
    case SystemDrops => st.(held := {})
    case Dispose(stop, probe) => StoppedBlocker(Unplugged(st), stop, probe)
  }

  function Run(st: State, events: seq<Event>): State {
    if events == [] then st else Step(Run(st, events[..|events| - 1]), events[|events| - 1])
  }

  // ----- No wake-lock leak

  /** Every blocker the system holds is the one in `blockerId`. */
  predicate Owned(st: State) {
    st.held <= if st.blockerId.Some? then {st.blockerId.value} else {}
  }

  lemma OwnedAtMostOne(st: State)
    requires Owned(st)
    ensures |st.held| <= 1
  {
    SubsetSize(st.held, if st.blockerId.Some? then {st.blockerId.value} else {});
  }

  lemma ReconciledOwned(st: State, p: Probe)
    requires Owned(st)
    ensures Owned(Reconciled(st, p).0)
    ensures !Reconciled(st, p).1 ==> Reconciled(st, p).0.held == {}
  {
  }

  lemma StartedOwned(st: State, env: Env)
    requires Owned(st)
    ensures Owned(StartedBlocker(st, env))
  {
    ReconciledOwned(st, env.probeBefore);
    var before := Reconciled(st, env.probeBefore).0;
    if !Reconciled(st, env.probeBefore).1 && env.start.StartReturns? {
      var id := env.start.id;
      ReconciledOwned(before.(held := before.held + {id}, blockerId := Some(id)), env.probeAfterStart);
    }
  }

  lemma StoppedOwned(st: State, stop: StopCall, probe: Probe)
    requires Owned(st)
    ensures Owned(StoppedBlocker(st, stop, probe))
  {
    if st.blockerId.Some? {
      ReconciledOwned(st.(held := if stop.releases then st.held - {st.blockerId.value} else st.held), probe);
    }
  }

  lemma RefreshedOwned(st: State, env: Env)
    requires Owned(st)
    ensures Owned(Refreshed(st, env))
  {
    var armed := Planned(st, env);
    StartedOwned(armed, env);
    StoppedOwned(armed, env.stop, env.probeAfterStop);
  }

  lemma StepOwned(st: State, e: Event)
    requires Owned(st)
    ensures Owned(Step(st, e))
  {
    match e
    case SetEnabled(enabled, env) => RefreshedOwned(st.(enabled := enabled), env);
    case SetStatuses(statuses, env) => RefreshedOwned(st.(statuses := statuses), env);
    case TimerFires(env) => RefreshedOwned(st.(staleTimer := None), env);
    case PowerResumes(env) => RefreshedOwned(st, env);
    case AssertionFails(env) => RefreshedOwned(st, env);
    case SystemDrops =>
    case Dispose(stop, probe) => StoppedOwned(Unplugged(st), stop, probe);
  }

  /** In every run, whatever throws and whatever the system drops, nothing is held but the
    blocker the service remembers: at most one, and none when it remembers none. */
  lemma {:induction false} NoLeak(events: seq<Event>)
    ensures
      var st := Run(INITIAL, events);
      Owned(st) && |st.held| <= 1 && (st.blockerId.None? ==> st.held == {})
  {
    RunOwned(events);
    OwnedAtMostOne(Run(INITIAL, events));
  }

  lemma {:induction false} RunOwned(events: seq<Event>)
    ensures Owned(Run(INITIAL, events))
  {
    if events != [] {
      RunOwned(events[..|events| - 1]);
      StepOwned(Run(INITIAL, events[..|events| - 1]), events[|events| - 1]);
    }
  }

  /** With working calls a refresh leaves the lock held exactly when it should be. */
  lemma RefreshDecides(st: State, env: Env)
    requires Owned(st) && CallsWork(env)
    ensures
      var after := Refreshed(st, env);
      && (ShouldBlock(st, env.eligibleNow) ==> after.blockerId.Some? && after.held == {after.blockerId.value})
      && (!ShouldBlock(st, env.eligibleNow) ==> after.blockerId.None? && after.held == {})
  {
    var armed := Planned(st, env);
    if ShouldBlock(st, env.eligibleNow) {
      StartWorks(armed, env);
    } else {
      StopWorks(armed, env.stop, env.probeAfterStop);
    }
  }

  lemma StartWorks(st: State, env: Env)
    requires Owned(st) && CallsWork(env)
    ensures
      var after := StartedBlocker(st, env);
      after.blockerId.Some? && after.held == {after.blockerId.value}
  {
    ReconciledOwned(st, env.probeBefore);
  }

  lemma StopWorks(st: State, stop: StopCall, probe: Probe)
    requires Owned(st) && !probe.throws
    ensures
      var after := StoppedBlocker(st, stop, probe);
      && (stop.releases ==> after.blockerId.None?)
      && (after.held == {} <==> st.held == {} || stop.releases || probe.drops)
  {
    if st.blockerId.Some? && stop.releases {
      assert st.held - {st.blockerId.value} == {};
    }
  }

  // ----- What each event leaves

  /** A working status, observed in this run and received at most two hours before. */
  predicate KeepsAwake(s: Status, now: int) {
    s.observedInCurrentRuntime && s.state == Working && s.receivedAt.Finite? && now - s.receivedAt.ms <= 7_200_000
  }

  /** The service is on and some status keeps the machine awake. */
  ghost predicate WantsLock(enabled: bool, statuses: seq<Status>, now: int) {
    enabled && exists s :: s in statuses && KeepsAwake(s, now)
  }

  /** The event comes to something: a changed setting, new statuses, an armed timer, a resume while
    listened to, or a callback of a started assertion. */
  predicate Counts(st: State, e: Event) {
    match e
    case SetEnabled(enabled, env) => enabled != st.enabled
    case SetStatuses(statuses, env) => true
    case TimerFires(env) => st.staleTimer.Some?
    case PowerResumes(env) => st.listening
    case AssertionFails(env) => st.asserting
    case SystemDrops => false
    case Dispose(stop, probe) => false
  }

  lemma EligibleMeans(st: State, now: int)
    ensures ShouldBlock(st, now) <==> WantsLock(st.enabled, st.statuses, now)
  {
    EligibleCountPositive(st.statuses, now);
    forall s ensures IsWakeEligible(s, now) <==> KeepsAwake(s, now) {
    }
  }

  /** What an event that counts leaves with working calls: the lock held, by the remembered blocker,
    exactly if it is wanted at the second clock reading, and the assertions started likewise. */
  ghost predicate Decided(after: State, env: Env) {
    var wanted := WantsLock(after.enabled, after.statuses, env.eligibleNow);
    && (after.held != {} <==> wanted)
    && (after.blockerId.Some? <==> wanted)
    && (wanted ==> after.held == {after.blockerId.value})
    && (after.asserting <==> wanted)
  }

  lemma RefreshedDecided(st: State, env: Env)
    requires Owned(st) && CallsWork(env)
    ensures Decided(Refreshed(st, env), env)
    ensures Refreshed(st, env).enabled == st.enabled && Refreshed(st, env).statuses == st.statuses
  {
    RefreshDecides(st, env);
    RefreshKeepsTimer(st, env);
    EligibleMeans(st, env.eligibleNow);
  }

  /** In every reachable state every event leaves the setting and the statuses that it gives, or that
    were there; one that does not count leaves everything but what the system drops and disposing
    gives up; and after one that counts, with working calls, the lock is held exactly if wanted. */
  lemma EventDecides(events: seq<Event>, e: Event)
    ensures
      var before := Run(INITIAL, events);
      var after := Step(before, e);
      && after.enabled == (match e case SetEnabled(enabled, env) => enabled case _ => before.enabled)
      && after.statuses == (match e case SetStatuses(statuses, env) => statuses case _ => before.statuses)
      && (!Counts(before, e) && !e.SystemDrops? && !e.Dispose? ==> after == before)
      && (Counts(before, e) && CallsWork(e.env) ==> Decided(after, e.env))
      && (e.SystemDrops? ==> after == before.(held := {}))
  {
    var st := Run(INITIAL, events);
    RunOwned(events);
    match e
    case SetEnabled(enabled, env) => EventRefreshes(st.(enabled := enabled), env);
    case SetStatuses(statuses, env) => EventRefreshes(st.(statuses := statuses), env);
    case TimerFires(env) => EventRefreshes(st.(staleTimer := None), env);
    case PowerResumes(env) => EventRefreshes(st, env);
    case AssertionFails(env) => EventRefreshes(st, env);
    case SystemDrops =>
    case Dispose(stop, probe) => StopKeepsPlan(Unplugged(st), stop, probe);
  }

  lemma EventRefreshes(st: State, env: Env)
    requires Owned(st)
    ensures Refreshed(st, env).enabled == st.enabled && Refreshed(st, env).statuses == st.statuses
    ensures CallsWork(env) ==> Decided(Refreshed(st, env), env)
  {
    RefreshKeepsTimer(st, env);
    if CallsWork(env) {
      RefreshedDecided(st, env);
    }
  }

  /** Disposing leaves nothing held exactly when the blocker was let go of in some way. */
  lemma DisposeReleases(events: seq<Event>, stop: StopCall, probe: Probe)
    ensures
      var before := Run(INITIAL, events);
      var after := Step(before, Dispose(stop, probe));
      && after.staleTimer.None? && !after.listening && !after.asserting
      && (after.held == {} <==> before.held == {} || stop.releases || probe.drops)
      && (stop.releases && !probe.throws ==> after.blockerId.None?)
  {
    RunOwned(events);
    var before := Run(INITIAL, events);
    if before.blockerId.Some? && stop.releases {
      assert before.held - {before.blockerId.value} == {};
    }
  }

  predicate External(e: Event) {
    e.TimerFires? || e.PowerResumes? || e.AssertionFails? || e.SystemDrops?
  }

  /** Once disposed with nothing held, timers, resumes, failing assertions and drops never take the
    lock again. */
  lemma {:induction false} QuietAfterDispose(st: State, events: seq<Event>)
    requires st.staleTimer.None? && !st.listening && !st.asserting && st.held == {}
    requires forall e :: e in events ==> External(e)
    ensures
      var after := Run(st, events);
      after.staleTimer.None? && !after.listening && !after.asserting && after.held == {}
  {
    if events != [] {
      var front, last := events[..|events| - 1], events[|events| - 1];
      assert last in events;
      QuietAfterDispose(st, front);
    }
  }

  // ----- The stale timer

  lemma {:induction false} EarliestExpiryIsLeast(statuses: seq<Status>, now: int)
    ensures
      match EarliestExpiry(statuses, now)
      case None => FutureExpiries(statuses, now) == {}
      case Some(d) => IsLeast(d, FutureExpiries(statuses, now))
  {
    if statuses != [] {
      var front, s := statuses[..|statuses| - 1], statuses[|statuses| - 1];
      assert statuses == front + [s];
      EarliestExpiryIsLeast(front, now);
      assert FutureExpiries(statuses, now) == FutureExpiries(front, now) +
        (if Tracked(s) && Expiry(s) > now then {Expiry(s)} else {});
    }
  }

  /** Only the blocker and what the system holds differ. */
  predicate SamePlan(st: State, after: State) {
    after == st.(blockerId := after.blockerId, held := after.held)
  }

  lemma ReconcileKeepsPlan(st: State, p: Probe)
    ensures SamePlan(st, Reconciled(st, p).0)
  {
  }

  lemma StartKeepsPlan(st: State, env: Env)
    ensures SamePlan(st, StartedBlocker(st, env))
  {
    ReconcileKeepsPlan(st, env.probeBefore);
    var (before, live) := Reconciled(st, env.probeBefore);
    if !live && env.start.StartReturns? {
      var id := env.start.id;
      ReconcileKeepsPlan(before.(held := before.held + {id}, blockerId := Some(id)), env.probeAfterStart);
    }
  }

  lemma StopKeepsPlan(st: State, stop: StopCall, probe: Probe)
    ensures SamePlan(st, StoppedBlocker(st, stop, probe))
  {
    if st.blockerId.Some? {
      ReconcileKeepsPlan(st.(held := if stop.releases then st.held - {st.blockerId.value} else st.held), probe);
    }
  }

  lemma RefreshKeepsTimer(st: State, env: Env)
    ensures SamePlan(Planned(st, env), Refreshed(st, env))
  {
    var armed := Planned(st, env);
    StartKeepsPlan(armed, env);
    StopKeepsPlan(armed, env.stop, env.probeAfterStop);
  }

  /** The event makes the service refresh. */
  predicate Refreshes(st: State, e: Event) {
    match e
    case SetEnabled(enabled, env) => st.enabled != enabled
    case SetStatuses(statuses, env) => true
    case TimerFires(env) => st.staleTimer.Some?
    case PowerResumes(env) => st.listening
    case AssertionFails(env) => st.asserting
    case SystemDrops => false
    case Dispose(stop, probe) => false
  }

  /** The clock reading of the last refresh; disposing forgets it. */
  function Reading(st: State, reading: Option<int>, events: seq<Event>): Option<int>
    decreases |events|
  {
    if events == [] then reading
    else
      var front, last := events[..|events| - 1], events[|events| - 1];
      if last.Dispose? then None
      else if Refreshes(Run(st, front), last) then Some(last.env.scheduleNow)
      else Reading(st, reading, front)
  }

  /** The timer that a reading arms. */
  function Armed(statuses: seq<Status>, reading: Option<int>): Option<int> {
    match reading
    case None => None
    case Some(now) => EarliestExpiry(statuses, now)
  }

  lemma StepTimed(st: State, e: Event)
    ensures
      var after := Step(st, e);
      if e.Dispose? then after.staleTimer.None?
      else if Refreshes(st, e) then after.staleTimer == EarliestExpiry(after.statuses, e.env.scheduleNow)
      else after.staleTimer == st.staleTimer && after.statuses == st.statuses
    ensures e.SetStatuses? || Step(st, e).statuses == st.statuses
  {
    match e
    case SetEnabled(enabled, env) => RefreshKeepsTimer(st.(enabled := enabled), env);
    case SetStatuses(statuses, env) => RefreshKeepsTimer(st.(statuses := statuses), env);
    case TimerFires(env) => RefreshKeepsTimer(st.(staleTimer := None), env);
    case PowerResumes(env) => RefreshKeepsTimer(st, env);
    case AssertionFails(env) => RefreshKeepsTimer(st, env);
    case SystemDrops =>
    case Dispose(stop, probe) => StopKeepsPlan(Unplugged(st), stop, probe);
  }

  lemma {:induction false} RunTimed(st: State, reading: Option<int>, events: seq<Event>)
    requires st.staleTimer == Armed(st.statuses, reading)
    ensures Run(st, events).staleTimer == Armed(Run(st, events).statuses, Reading(st, reading, events))
    decreases |events|
  {
    if events != [] {
      RunTimed(st, reading, events[..|events| - 1]);
      StepTimed(Run(st, events[..|events| - 1]), events[|events| - 1]);
    }
  }

  /** In every run the pending timer is due at the earliest expiry, among the present statuses,
    that was still ahead at the clock reading of the last refresh.  There is no timer exactly when
    nothing was ahead then, or no refresh has happened since the start or since disposing. */
  lemma TimerIsEarliest(events: seq<Event>)
    ensures
      var st := Run(INITIAL, events);
      match Reading(INITIAL, None, events)
      case None => st.staleTimer.None?
      case Some(now) =>
        if FutureExpiries(st.statuses, now) == {} then st.staleTimer.None?
        else st.staleTimer.Some? && IsLeast(st.staleTimer.value, FutureExpiries(st.statuses, now))
  {
    RunTimed(INITIAL, None, events);
    var reading := Reading(INITIAL, None, events);
    if reading.Some? {
      EarliestExpiryIsLeast(Run(INITIAL, events).statuses, reading.value);
    }
  }

  // ----- A hold without a timer

  /** Some status that may hold the lock expires between the two readings of one refresh. */
  predicate ExpiresBetween(statuses: seq<Status>, env: Env) {
    exists s :: s in statuses && Tracked(s) && env.eligibleNow <= Expiry(s) <= env.scheduleNow
  }

  /** A refresh asks for the lock without arming a timer exactly when no expiry is ahead of its
    first clock reading but one is not yet past at its second. */
  lemma HoldWithoutTimerIff(st: State, env: Env)
    ensures ShouldBlock(st, env.eligibleNow) && Refreshed(st, env).staleTimer.None? <==>
      && st.enabled
      && ExpiresBetween(st.statuses, env)
      && (forall s :: s in st.statuses && Tracked(s) ==> Expiry(s) <= env.scheduleNow)
  {
    RefreshKeepsTimer(st, env);
    EligibleCountPositive(st.statuses, env.eligibleNow);
    EarliestExpiryIsLeast(st.statuses, env.scheduleNow);
    NoFutureExpiry(st.statuses, env.scheduleNow);
  }

  /** With a clock that does not step back, that means to the millisecond: both readings fall on
    the last expiry, and every eligible status expires at that very reading. */
  lemma ExactExpiryIff(st: State, env: Env)
    requires ClockMovesForward(env)
    ensures ShouldBlock(st, env.eligibleNow) && Refreshed(st, env).staleTimer.None? <==>
      && st.enabled
      && env.scheduleNow == env.eligibleNow
      && (exists s :: s in st.statuses && Tracked(s) && Expiry(s) == env.scheduleNow)
      && (forall s :: s in st.statuses && Tracked(s) ==> Expiry(s) <= env.scheduleNow)
    ensures ShouldBlock(st, env.eligibleNow) && Refreshed(st, env).staleTimer.None? ==>
      forall s :: s in st.statuses && IsWakeEligible(s, env.eligibleNow) ==> Expiry(s) == env.scheduleNow
  {
    HoldWithoutTimerIff(st, env);
  }

  lemma NoFutureExpiry(statuses: seq<Status>, now: int)
    ensures FutureExpiries(statuses, now) == {} <==>
      forall s :: s in statuses && Tracked(s) ==> Expiry(s) <= now
  {
    if !(forall s :: s in statuses && Tracked(s) ==> Expiry(s) <= now) {
      var s :| s in statuses && Tracked(s) && Expiry(s) > now;
      assert Expiry(s) in FutureExpiries(statuses, now);
    }
  }

  /** The event may make the service refresh from outside. */
  predicate Recalls(e: Event) {
    e.PowerResumes? || e.AssertionFails?
  }

  ghost predicate AllPast(statuses: seq<Status>, env: Env) {
    forall s :: s in statuses && Tracked(s) ==> Expiry(s) <= env.scheduleNow && Expiry(s) < env.eligibleNow
  }

  /** What happens around the service after a hold without a timer: working calls, and clock
    readings past every expiry. */
  ghost predicate Afterwards(statuses: seq<Status>, e: Event) {
    External(e) && (Recalls(e) ==> CallsWork(e.env) && AllPast(statuses, e.env))
  }

  predicate Frees(e: Event) {
    Recalls(e) || e.SystemDrops?
  }

  ghost predicate SomeFrees(events: seq<Event>) {
    exists e :: e in events && Frees(e)
  }

  /** How a hold without a timer ends: not by any timer, however much time passes, but exactly with
    the first resume of the machine, callback of a platform assertion, or drop by the system.
    Until then nothing changes at all. */
  lemma {:induction false} HoldWithoutTimerLasts(st: State, events: seq<Event>)
    requires Owned(st) && st.staleTimer.None? && st.listening && st.asserting && st.held != {}
    requires forall e :: e in events ==> Afterwards(st.statuses, e)
    ensures
      var after := Run(st, events);
      && SamePlan(st.(asserting := after.asserting), after) && Owned(after)
      && (after.held == {} <==> SomeFrees(events))
      && (after == st || SomeFrees(events))
  {
    if events != [] {
      var front, last := events[..|events| - 1], events[|events| - 1];
      assert events == front + [last] && last in events;
      forall e | e in front ensures e in events {}
      HoldWithoutTimerLasts(st, front);
      var before := Run(st, front);
      StepOwned(before, last);
      if Refreshes(before, last) {
        RecallReleases(before, last.env);
      }
      assert SomeFrees(events) <==> Frees(last) || SomeFrees(front);
    }
  }

  lemma RecallReleases(st: State, env: Env)
    requires Owned(st) && st.staleTimer.None? && CallsWork(env) && AllPast(st.statuses, env)
    ensures
      var after := Refreshed(st, env);
      SamePlan(st.(asserting := after.asserting), after) && after.held == {}
  {
    RefreshKeepsTimer(st, env);
    EligibleCountPositive(st.statuses, env.eligibleNow);
    EarliestExpiryIsLeast(st.statuses, env.scheduleNow);
    NoFutureExpiry(st.statuses, env.scheduleNow);
    RefreshDecides(st, env);
  }

  /** The boundary is reachable: one status, refreshed exactly at its expiry, with every call
    working, leaves the lock held and no timer armed. */
  lemma ExactExpiryExample(receivedAt: int, start: Env, expiry: Env)
    requires CallsWork(start) && CallsWork(expiry)
    requires start.scheduleNow == start.eligibleNow == receivedAt
    requires expiry.scheduleNow == expiry.eligibleNow == receivedAt + STALE_AFTER_MS
    ensures
      var statuses := [Status(Working, Finite(receivedAt), true)];
      var st := Run(INITIAL, [SetStatuses(statuses, start), SetEnabled(true, start), TimerFires(expiry)]);
      && st.staleTimer.None? && st.listening && st.asserting
      && st.blockerId.Some? && st.held == {st.blockerId.value}
  {
    var status := Status(Working, Finite(receivedAt), true);
    var statuses := [status];
    var e1, e2, e3 := SetStatuses(statuses, start), SetEnabled(true, start), TimerFires(expiry);
    var s1 := Step(INITIAL, e1);
    var s2 := Step(s1, e2);
    assert Run(INITIAL, []) == INITIAL;
    assert [e1][..0] == [] && [e1, e2][..1] == [e1] && [e1, e2, e3][..2] == [e1, e2];
    assert Run(INITIAL, [e1]) == s1;
    assert Run(INITIAL, [e1, e2]) == s2;
    assert Run(INITIAL, [e1, e2, e3]) == Step(s2, e3);
    forall now ensures EligibleCount(statuses, now) == if IsWakeEligible(status, now) then 1 else 0 {
      assert EligibleCount(statuses[1..], now) == 0;
    }
    forall now ensures EarliestExpiry(statuses, now) == if Expiry(status) > now then Some(Expiry(status)) else None {
      assert EarliestExpiry(statuses[..0], now) == None;
    }
  }

  // ----- How often the timer fires

  /** Off expiries a requested hold always has its timer armed. */
  lemma HoldIsTimed(st: State, env: Env)
    requires !ExpiresBetween(st.statuses, env)
    ensures ShouldBlock(st, env.eligibleNow) ==> Refreshed(st, env).staleTimer.Some?
  {
    HoldWithoutTimerIff(st, env);
  }

  /** The statuses stay as they are, clock readings do not go back from one refresh to the next, and
    an armed timer fires no earlier than it is due.  Everything else may happen in between. */
  ghost predicate OnTime(st: State, now: int, events: seq<Event>)
    decreases |events|
  {
    events == [] ||
    var front, last := events[..|events| - 1], events[|events| - 1];
    var before := Run(st, front);
    && OnTime(st, now, front)
    && !last.SetStatuses? && !last.Dispose?
    && (Refreshes(before, last) ==> Latest(st, now, front) <= last.env.scheduleNow)
    && (Fires(before, last) ==> before.staleTimer.value <= last.env.scheduleNow)
  }

  predicate Fires(st: State, e: Event) {
    e.TimerFires? && st.staleTimer.Some?
  }

  /** The last clock reading of a run without disposing. */
  function Latest(st: State, now: int, events: seq<Event>): int {
    match Reading(st, Some(now), events)
    case None => now
    case Some(t) => t
  }

  /** How often an armed timer fired. */
  function Firings(st: State, events: seq<Event>): nat
    decreases |events|
  {
    if events == [] then 0
    else
      var front, last := events[..|events| - 1], events[|events| - 1];
      Firings(st, front) + if Fires(Run(st, front), last) then 1 else 0
  }

  lemma {:induction false} OnTimeKeeps(st: State, now: int, events: seq<Event>)
    requires OnTime(st, now, events) && st.staleTimer == EarliestExpiry(st.statuses, now)
    ensures
      var after := Run(st, events);
      && after.statuses == st.statuses
      && Reading(st, Some(now), events) == Some(Latest(st, now, events))
      && after.staleTimer == EarliestExpiry(st.statuses, Latest(st, now, events))
    decreases |events|
  {
    if events != [] {
      OnTimeKeeps(st, now, events[..|events| - 1]);
      StepTimed(Run(st, events[..|events| - 1]), events[|events| - 1]);
    }
  }

  /** Later readings leave fewer expiries ahead, and a firing takes away the one it was due at. */
  lemma FewerAhead(statuses: seq<Status>, now: int, later: int)
    requires now <= later
    ensures
      var ahead, left := FutureExpiries(statuses, now), FutureExpiries(statuses, later);
      && |left| <= |ahead|
      && (EarliestExpiry(statuses, now).Some? && EarliestExpiry(statuses, now).value <= later ==> |left| < |ahead|)
  {
    var ahead, left := FutureExpiries(statuses, now), FutureExpiries(statuses, later);
    EarliestExpiryIsLeast(statuses, now);
    SubsetSize(left, ahead);
    var due := EarliestExpiry(statuses, now);
    if due.Some? && due.value <= later {
      assert left <= ahead - {due.value};
      SubsetSize(left, ahead - {due.value});
    }
  }

  /** In every run that sets no new statuses, whatever else happens in it, the timer fires at most
    once per distinct expiry that is passed. */
  lemma {:induction false} FiringsBounded(st: State, now: int, events: seq<Event>)
    requires OnTime(st, now, events) && st.staleTimer == EarliestExpiry(st.statuses, now)
    ensures Firings(st, events) + |FutureExpiries(st.statuses, Latest(st, now, events))|
         <= |FutureExpiries(st.statuses, now)|
    decreases |events|
  {
    if events != [] {
      var front, last := events[..|events| - 1], events[|events| - 1];
      FiringsBounded(st, now, front);
      OnTimeKeeps(st, now, front);
      if Refreshes(Run(st, front), last) {
        FewerAhead(st.statuses, Latest(st, now, front), last.env.scheduleNow);
      }
    }
  }

  /** Once the timer has fired as often as there were distinct expiries ahead, none is left: no
    timer is armed, and a refresh asks for the lock only if it falls on an expiry. */
  lemma FiringsRelease(st: State, now: int, events: seq<Event>, env: Env)
    requires OnTime(st, now, events) && st.staleTimer == EarliestExpiry(st.statuses, now)
    requires Firings(st, events) == |FutureExpiries(st.statuses, now)|
    requires Latest(st, now, events) <= env.scheduleNow
    ensures
      var after := Run(st, events);
      && after.staleTimer.None? && Refreshed(after, env).staleTimer.None?
      && (ShouldBlock(after, env.eligibleNow) <==> after.enabled && ExpiresBetween(st.statuses, env))
  {
    var after := Run(st, events);
    FiringsBounded(st, now, events);
    OnTimeKeeps(st, now, events);
    var left := FutureExpiries(st.statuses, Latest(st, now, events));
    assert left == {};
    EarliestExpiryIsLeast(st.statuses, Latest(st, now, events));
    FewerAhead(st.statuses, Latest(st, now, events), env.scheduleNow);
    assert FutureExpiries(st.statuses, env.scheduleNow) == {};
    EarliestExpiryIsLeast(st.statuses, env.scheduleNow);
    NoFutureExpiry(st.statuses, env.scheduleNow);
    RefreshKeepsTimer(after, env);
    HoldWithoutTimerIff(after, env);
  }

  /** So with working calls the last of these firings lets the lock go, unless it falls on an
    expiry. */
  lemma LastFiringReleases(st: State, now: int, front: seq<Event>, env: Env)
    requires OnTime(st, now, front + [TimerFires(env)]) && st.staleTimer == EarliestExpiry(st.statuses, now)
    requires Firings(st, front + [TimerFires(env)]) == |FutureExpiries(st.statuses, now)|
    requires Fires(Run(st, front), TimerFires(env))
    requires Owned(Run(st, front)) && CallsWork(env)
    ensures
      var after := Run(st, front + [TimerFires(env)]);
      after.held == {} <==> !(after.enabled && ExpiresBetween(st.statuses, env))
  {
    var events := front + [TimerFires(env)];
    assert events[..|events| - 1] == front;
    FiringsRelease(st, now, events, env);
    var before := Run(st, front).(staleTimer := None);
    RefreshKeepsTimer(before, env);
    RefreshDecides(before, env);
  }

  // ----- The service

  /** The system's blocker, with the set of blockers it really holds. */
  class PowerSaveBlocker {
    var held: set<int>

    constructor ()
      ensures held == {}
    {
      held := {};
    }

    method Start(outcome: StartCall) returns (r: Result<int, ()>)
      modifies this
      ensures outcome.StartThrows? ==> r.Err? && held == old(held)
      ensures outcome.StartReturns? ==> r == Ok(outcome.id) && held == old(held) + {outcome.id}
    {
      match outcome
      case StartThrows => r := Err(());
      case StartReturns(id) =>
        held := held + {id};
        r := Ok(id);
    }

    method Stop(id: int, outcome: StopCall) returns (r: Result<(), ()>)
      modifies this
      ensures r.Err? <==> outcome.throws
      ensures held == if outcome.releases then old(held) - {id} else old(held)
    {
      if outcome.releases {
        held := held - {id};
      }
      r := if outcome.throws then Err(()) else Ok(());
    }

    method IsStarted(id: int, outcome: Probe) returns (r: Result<bool, ()>)
      modifies this
      ensures held == if outcome.drops then {} else old(held)
      ensures r == if outcome.throws then Err(()) else Ok(id in held)
    {
      if outcome.drops {
        held := {};
      }
      r := if outcome.throws then Err(()) else Ok(id in held);
    }
  }

  class AgentAwakeService {
    const blocker: PowerSaveBlocker
    var enabled: bool
    var statuses: seq<Status>
    var blockerId: Option<int>
    var staleTimer: Option<int>
    var listening: bool
    var asserting: bool

    constructor (blocker: PowerSaveBlocker)
      requires blocker.held == {}
      ensures this.blocker == blocker && View() == INITIAL
    {
      this.blocker := blocker;
      enabled, statuses, blockerId, staleTimer, listening, asserting := false, [], None, None, true, false;
    }

    ghost function View(): State
      reads this, blocker
    {
      State(enabled, statuses, blockerId, staleTimer, listening, asserting, blocker.held)
    }

    method UpdateEnabled(value: bool, env: Env)
      modifies this, blocker
      ensures View() == Step(old(View()), SetEnabled(value, env))
    {
      if enabled == value {
        return;
      }
      enabled := value;
      Refresh(env);
    }

    method UpdateStatuses(value: seq<Status>, env: Env)
      modifies this, blocker
      ensures View() == Step(old(View()), SetStatuses(value, env))
    {
      statuses := value;
      Refresh(env);
    }

    method OnStaleTimer(env: Env)
      modifies this, blocker
      ensures View() == Step(old(View()), TimerFires(env))
    {
      if staleTimer.None? {
        return;
      }
      staleTimer := None;
      Refresh(env);
    }

    method OnResume(env: Env)
      modifies this, blocker
      ensures View() == Step(old(View()), PowerResumes(env))
    {
      if listening {
        Refresh(env);
      }
    }

    /** `onUnexpectedFailure` of the platform assertions: a failure, or a later retry. */
    method OnAssertionFailure(env: Env)
      modifies this, blocker
      ensures View() == Step(old(View()), AssertionFails(env))
    {
      if asserting {
        Refresh(env);
      }
    }

    method DisposeService(stop: StopCall, probe: Probe)
      modifies this, blocker
      ensures View() == Step(old(View()), Dispose(stop, probe))
    {
      ClearStaleTimer();
      listening := false;
      StopBlocker(stop, probe);
      asserting := false;
    }

    method Refresh(env: Env)
      modifies this, blocker
      ensures View() == Refreshed(old(View()), env)
    {
      ScheduleStaleTimer(env.scheduleNow);
      var runningStatusCount := GetEligibleRunningStatusCount(env.eligibleNow);
      var shouldBlock := enabled && runningStatusCount > 0;
      asserting := shouldBlock;
      assert View() == Planned(old(View()), env);
      if shouldBlock {
        StartBlocker(env);
      } else {
        StopBlocker(env.stop, env.probeAfterStop);
      }
    }

    method GetEligibleRunningStatusCount(now: int) returns (count: nat)
      ensures count == EligibleCount(statuses, now)
    {
      count := 0;
      assert statuses[0..] == statuses;
      for i := 0 to |statuses|
        invariant count + EligibleCount(statuses[i..], now) == EligibleCount(statuses, now)
      {
        assert statuses[i..][1..] == statuses[i + 1..];
        if IsWakeEligible(statuses[i], now) {
          count := count + 1;
        }
      }
    }

    method ClearStaleTimer()
      modifies this`staleTimer
      ensures staleTimer == None
    {
      if staleTimer.None? {
        return;
      }
      staleTimer := None;
    }

    method ScheduleStaleTimer(now: int)
      modifies this`staleTimer
      ensures staleTimer == EarliestExpiry(statuses, now)
    {
      ClearStaleTimer();
      var earliestExpiry: Option<int> := None;
      for i := 0 to |statuses|
        invariant earliestExpiry == EarliestExpiry(statuses[..i], now)
      {
        var status := statuses[i];
        assert statuses[..i + 1][..i] == statuses[..i];
        if !Tracked(status) {
          continue;
        }
        var expiry := Expiry(status);
        if expiry <= now {
          continue;
        }
        earliestExpiry :=
          if earliestExpiry.None? then Some(expiry)
          else Some(if expiry < earliestExpiry.value then expiry else earliestExpiry.value);
      }
      assert statuses[..|statuses|] == statuses;
      if earliestExpiry.None? {
        return;
      }
      staleTimer := earliestExpiry;
    }

    method StartBlocker(env: Env)
      modifies this`blockerId, blocker
      ensures View() == StartedBlocker(old(View()), env)
    {
      if blockerId.Some? {
        var live := ReconcileBlocker(env.probeBefore);
        if live {
          return;
        }
      }
      var r := blocker.Start(env.start);
      if r.Ok? {
        blockerId := Some(r.value);
        var _ := ReconcileBlocker(env.probeAfterStart);
      }
    }

    method StopBlocker(stop: StopCall, probe: Probe)
      modifies this`blockerId, blocker
      ensures View() == StoppedBlocker(old(View()), stop, probe)
    {
      if blockerId.None? {
        return;
      }
      var id := blockerId.value;
      var _ := blocker.Stop(id, stop);
      var _ := ReconcileBlocker(probe);
    }

    method ReconcileBlocker(probe: Probe) returns (isStarted: bool)
      modifies this`blockerId, blocker
      ensures (View(), isStarted) == Reconciled(old(View()), probe)
    {
      if blockerId.None? {
        return false;
      }
      var id := blockerId.value;
      var r := blocker.IsStarted(id, probe);
      if r.Err? {
        return true;
      }
      if !r.value {
        blockerId := None;
      }
      return r.value;
    }
  }
}
