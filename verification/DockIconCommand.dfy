/** One bounded command of the macOS dock icon queue (src/main/app-icon.ts,
  `runBoundedMacDockIconCommand`): a callback, process exit and two timers race to release the
  queue. */
module DockIconCommand {
  import opened Wrappers

  const COMMAND_TIMEOUT_MS: nat := 10_000
  const COMMAND_FALLBACK_MS: nat := 1_000
  const RELEASE_BOUND_MS: nat := 12_000

  /** What starting the process did: whether the callback already ran, whether the call threw,
    and whether it returned a child process. */
  datatype ExecOutcome = ExecOutcome(calledBack: bool, throws: bool, child: bool)

  datatype Cause = ByCallback | ByError | ByExit | ByMissingChild | ByForce

  /** The closure's variables and timers; `fallback` and `forceFallback` are the times at which
    an armed timer is due.  `releases` counts calls of `resolve`, `alive` says whether the child
    process still runs. */
  datatype Command = Command(
    startedAt: nat,
    settled: bool,
    hasChild: bool,
    listening: bool,
    fallback: Option<nat>,
    forceFallback: Option<nat>,
    releases: nat,
    cause: Option<Cause>,
    alive: bool
  )

  // ----- Specification of the callbacks

  /** `finish`. */
  function Finished(c: Command, cause: Cause): Command {
    if c.settled then c
    else c.(settled := true, fallback := None, forceFallback := None, releases := c.releases + 1, cause := Some(cause))
  }

  /** `finishAfterFallback`. */
  function FinishedAfterFallback(c: Command, cause: Cause): Command {
    if c.settled then c
    else c.(settled := true, forceFallback := None, releases := c.releases + 1, cause := Some(cause))
  }

  function Launched(now: nat, exec: ExecOutcome): Command {
    var blank := Command(now, false, false, false, Some(now + COMMAND_TIMEOUT_MS + COMMAND_FALLBACK_MS), None, 0, None,
                         exec.child && !exec.throws && !exec.calledBack);
    var called := if exec.calledBack then Finished(blank, ByCallback) else blank;
    if exec.throws then Finished(called, ByError) else called.(hasChild := exec.child)
  }

  /** The fallback timer: without a child it gives up, otherwise it waits for the exit, arms the
    second timer and kills. */
  function FallbackFired(c: Command, now: nat): Command {
    var fired := c.(fallback := None);
    if c.settled then fired
    else if !c.hasChild then FinishedAfterFallback(fired, ByMissingChild)
    else fired.(listening := true, forceFallback := Some(now + COMMAND_FALLBACK_MS))
  }

  function ForceFired(c: Command): Command {
    FinishedAfterFallback(c.(forceFallback := None), ByForce)
  }

  /** The child's `exit` or `close` event. */
  function Exited(c: Command): Command {
    var dead := c.(alive := false);
    if c.listening then FinishedAfterFallback(dead, ByExit) else dead
  }

  datatype Event = Callback | ProcessExits | FallbackFires | ForceFires

  /** Timers fire when due; the callback runs once the child is gone. */
  predicate Enabled(c: Command, e: Event, now: nat) {
    match e
    case Callback => !c.alive
    case ProcessExits => c.hasChild
    case FallbackFires => c.fallback == Some(now)
    case ForceFires => c.forceFallback == Some(now)
  }

  function Handle(c: Command, e: Event, now: nat): Command {
    match e
    case Callback => Finished(c, ByCallback)
    case ProcessExits => Exited(c)
    case FallbackFires => FallbackFired(c, now)
    case ForceFires => ForceFired(c)
  }

  /** Time may pass up to the next due timer. */
  predicate MayPass(c: Command, until: nat) {
    (c.fallback.Some? ==> until <= c.fallback.value) && (c.forceFallback.Some? ==> until <= c.forceFallback.value)
  }

  // ----- What every run of one command keeps

  /** At any moment the command has released the queue at most once, exactly when it is settled;
    while it is not settled a timer is armed that leads to release within the bound; and a
    process that outlives the release was given up on by a timer. */
  predicate Sound(c: Command, now: nat) {
    && c.startedAt <= now
    && c.releases == (if c.settled then 1 else 0)
    && (c.cause.Some? <==> c.settled)
    && (c.forceFallback.Some? ==> !c.settled)
    && (c.alive ==> c.hasChild)
    && (c.listening ==> c.fallback.None?)
    && (!c.settled ==>
          if c.forceFallback.None? then
            c.fallback == Some(c.startedAt + COMMAND_TIMEOUT_MS + COMMAND_FALLBACK_MS) && now <= c.fallback.value
          else
            && c.fallback.None? && c.listening && c.hasChild
            && c.forceFallback.value == c.startedAt + RELEASE_BOUND_MS && now <= c.forceFallback.value)
    && (c.settled ==> c.fallback.None? && c.forceFallback.None?)
    && (c.settled && c.alive ==> c.cause == Some(ByForce) && now >= c.startedAt + RELEASE_BOUND_MS)
  }

  /** A command that has not released the queue is within its bound. */
  lemma ReleasedInTime(c: Command, now: nat)
    requires Sound(c, now) && now > c.startedAt + RELEASE_BOUND_MS
    ensures c.settled && c.releases == 1
  {
  }

  lemma LaunchSound(now: nat, exec: ExecOutcome)
    ensures Sound(Launched(now, exec), now)
  {
  }

  lemma HandleSound(c: Command, e: Event, now: nat)
    requires Sound(c, now) && Enabled(c, e, now)
    ensures Sound(Handle(c, e, now), now)
    ensures c.settled ==> Handle(c, e, now).(alive := c.alive) == c
  {
  }

  lemma PassSound(c: Command, now: nat, until: nat)
    requires Sound(c, now) && now <= until && MayPass(c, until)
    ensures Sound(c, until)
  {
  }

  // ----- Runs of one command

  datatype Step = Fire(e: Event) | Pass(until: nat)

  ghost predicate StepsPossible(c: Command, now: nat, steps: seq<Step>)
    decreases |steps|
  {
    steps == [] ||
    match steps[0]
    case Fire(e) => Enabled(c, e, now) && StepsPossible(Handle(c, e, now), now, steps[1..])
    case Pass(until) => now <= until && MayPass(c, until) && StepsPossible(c, until, steps[1..])
  }

  function Outcome(c: Command, now: nat, steps: seq<Step>): (Command, nat)
    decreases |steps|
  {
    if steps == [] then (c, now)
    else
      match steps[0]
      case Fire(e) => Outcome(Handle(c, e, now), now, steps[1..])
      case Pass(until) => Outcome(c, until, steps[1..])
  }

  /** Over every interleaving of callback, exit and timers: the queue is released at most once,
    and exactly once by the time 12 seconds have passed since the start. */
  lemma {:induction false} ReleasesExactlyOnce(start: nat, exec: ExecOutcome, steps: seq<Step>)
    requires StepsPossible(Launched(start, exec), start, steps)
    ensures
      var (c, now) := Outcome(Launched(start, exec), start, steps);
      && c.releases <= 1
      && (c.releases == 1 <==> c.settled)
      && (now > start + 12_000 ==> c.releases == 1)
      && (c.settled && c.alive ==> c.cause == Some(ByForce))
  {
    LaunchSound(start, exec);
    RunSound(Launched(start, exec), start, steps);
  }

  lemma {:induction false} RunSound(c: Command, now: nat, steps: seq<Step>)
    requires Sound(c, now) && StepsPossible(c, now, steps)
    ensures
      var (d, later) := Outcome(c, now, steps);
      Sound(d, later) && d.startedAt == c.startedAt
    decreases |steps|
  {
    if steps != [] {
      match steps[0]
      case Fire(e) =>
        HandleSound(c, e, now);
        RunSound(Handle(c, e, now), now, steps[1..]);
      case Pass(until) =>
        PassSound(c, now, until);
        RunSound(c, until, steps[1..]);
    }
  }

  lemma {:induction false} RunTimes(c: Command, now: nat, steps: seq<Step>)
    requires Sound(c, now) && StepsPossible(c, now, steps)
    ensures
      var later := Outcome(c, now, steps).1;
      && now <= later
      && (Fire(FallbackFires) in steps ==> later >= c.startedAt + 11_000)
      && (Fire(ForceFires) in steps ==> later >= c.startedAt + 12_000)
    decreases |steps|
  {
    if steps != [] {
      assert steps == [steps[0]] + steps[1..];
      match steps[0]
      case Fire(e) =>
        HandleSound(c, e, now);
        RunTimes(Handle(c, e, now), now, steps[1..]);
      case Pass(until) =>
        PassSound(c, now, until);
        RunTimes(c, until, steps[1..]);
    }
  }

  /** No timer gives up on a command early: the first has waited 11 seconds, the second 12. */
  lemma TimersAreLate(start: nat, exec: ExecOutcome, steps: seq<Step>)
    requires StepsPossible(Launched(start, exec), start, steps)
    ensures
      var now := Outcome(Launched(start, exec), start, steps).1;
      && (Fire(FallbackFires) in steps ==> now >= start + 11_000)
      && (Fire(ForceFires) in steps ==> now >= start + 12_000)
  {
    LaunchSound(start, exec);
    RunTimes(Launched(start, exec), start, steps);
  }

  // ----- What releases the queue

  /** A step of this kind was taken. */
  predicate Took(steps: seq<Step>, e: Event) {
    Fire(e) in steps
  }

  /** An exit or close event came after the fallback timer fired. */
  predicate ExitedAfterFallback(steps: seq<Step>) {
    exists i, j :: 0 <= i < j < |steps| && steps[i] == Fire(FallbackFires) && steps[j] == Fire(ProcessExits)
  }

  /** From any state the command is settled later if it is now, or the callback came, or the second
    timer fired, or the first one without a child, or an exit with the child being listened to. */
  ghost predicate SettlesIn(c: Command, steps: seq<Step>) {
    || c.settled || Took(steps, Callback) || Took(steps, ForceFires)
    || (Took(steps, FallbackFires) && !c.hasChild)
    || (c.listening && Took(steps, ProcessExits)) || ExitedAfterFallback(steps)
  }

  lemma ExitedAfterStep(step: Step, rest: seq<Step>)
    requires ExitedAfterFallback([step] + rest)
    ensures ExitedAfterFallback(rest) || (step == Fire(FallbackFires) && Took(rest, ProcessExits))
  {
    var steps := [step] + rest;
    var i, j :| 0 <= i < j < |steps| && steps[i] == Fire(FallbackFires) && steps[j] == Fire(ProcessExits);
    assert rest[j - 1] == steps[j];
    if i > 0 {
      assert rest[i - 1] == steps[i];
    }
  }

  lemma SettlesStep(c: Command, now: nat, step: Step, rest: seq<Step>)
    requires Sound(c, now) && step.Fire? && Enabled(c, step.e, now)
    ensures SettlesIn(c, [step] + rest) <==> SettlesIn(Handle(c, step.e, now), rest)
  {
    var steps := [step] + rest;
    var next := Handle(c, step.e, now);
    forall e ensures Took(steps, e) <==> step.e == e || Took(rest, e) {
    }
    assert ExitedAfterFallback(rest) ==> ExitedAfterFallback(steps) by {
      if i, j :| 0 <= i < j < |rest| && rest[i] == Fire(FallbackFires) && rest[j] == Fire(ProcessExits) {
        assert steps[i + 1] == rest[i] && steps[j + 1] == rest[j];
      }
    }
    if ExitedAfterFallback(steps) {
      ExitedAfterStep(step, rest);
    }
    if step.e == FallbackFires && Took(rest, ProcessExits) {
      var j :| 0 <= j < |rest| && rest[j] == Fire(ProcessExits);
      assert steps[0] == step && steps[j + 1] == rest[j];
    }
  }

  lemma SettlesPass(c: Command, until: nat, rest: seq<Step>)
    ensures SettlesIn(c, [Pass(until)] + rest) <==> SettlesIn(c, rest)
  {
    var steps := [Pass(until)] + rest;
    forall e ensures Took(steps, e) <==> Took(rest, e) {
    }
    if i, j :| 0 <= i < j < |rest| && rest[i] == Fire(FallbackFires) && rest[j] == Fire(ProcessExits) {
      assert steps[i + 1] == rest[i] && steps[j + 1] == rest[j];
    }
    if i, j :| 0 <= i < j < |steps| && steps[i] == Fire(FallbackFires) && steps[j] == Fire(ProcessExits) {
      assert rest[i - 1] == steps[i] && rest[j - 1] == steps[j];
    }
  }

  lemma {:induction false} RunSettles(c: Command, now: nat, steps: seq<Step>)
    requires Sound(c, now) && StepsPossible(c, now, steps)
    ensures Outcome(c, now, steps).0.settled <==> SettlesIn(c, steps)
    decreases |steps|
  {
    if steps != [] {
      assert steps == [steps[0]] + steps[1..];
      match steps[0]
      case Fire(e) =>
        HandleSound(c, e, now);
        SettlesStep(c, now, steps[0], steps[1..]);
        RunSettles(Handle(c, e, now), now, steps[1..]);
      case Pass(until) =>
        PassSound(c, now, until);
        SettlesPass(c, until, steps[1..]);
        RunSettles(c, until, steps[1..]);
    }
  }

  /** In every run the queue has been released exactly if starting threw or called back, or the callback
    came, or the second timer fired, or the first one with no child to wait for, or an exit after it. */
  lemma ReleasedIff(start: nat, exec: ExecOutcome, steps: seq<Step>)
    requires StepsPossible(Launched(start, exec), start, steps)
    ensures Outcome(Launched(start, exec), start, steps).0.settled <==>
      || exec.throws || exec.calledBack
      || Fire(Callback) in steps || Fire(ForceFires) in steps
      || (Fire(FallbackFires) in steps && !exec.child)
      || ExitedAfterFallback(steps)
  {
    LaunchSound(start, exec);
    RunSettles(Launched(start, exec), start, steps);
  }

  // ----- Processes that outlive their turn

  /** The environment started a child that neither called back nor was seen to exit. */
  predicate LivesOn(exec: ExecOutcome, steps: seq<Step>) {
    StartsChild(exec) && Fire(ProcessExits) !in steps
  }

  /** The start left a child process running. */
  predicate StartsChild(exec: ExecOutcome) {
    exec.child && !exec.throws && !exec.calledBack
  }

  lemma {:induction false} RunAlive(c: Command, now: nat, steps: seq<Step>)
    requires StepsPossible(c, now, steps)
    ensures Outcome(c, now, steps).0.alive <==> c.alive && Fire(ProcessExits) !in steps
    decreases |steps|
  {
    if steps != [] {
      assert steps == [steps[0]] + steps[1..];
      match steps[0]
      case Fire(e) => RunAlive(Handle(c, e, now), now, steps[1..]);
      case Pass(until) => RunAlive(c, until, steps[1..]);
    }
  }

  /** "The queue must not release while an older icon process can still win" holds except for a
    child that is started, does not call back and does not exit: that one, and no other, is alive
    after its release, and it is released at the 12-second bound by the force timer. */
  lemma OutlivesTurnIff(start: nat, exec: ExecOutcome, steps: seq<Step>)
    requires StepsPossible(Launched(start, exec), start, steps)
    ensures
      var (c, now) := Outcome(Launched(start, exec), start, steps);
      && (c.alive <==> LivesOn(exec, steps))
      && (now > start + RELEASE_BOUND_MS ==> (c.settled && c.alive <==> LivesOn(exec, steps)))
      && (c.settled && c.alive ==> c.cause == Some(ByForce) && now >= start + RELEASE_BOUND_MS)
  {
    var (c, now) := Outcome(Launched(start, exec), start, steps);
    RunAlive(Launched(start, exec), start, steps);
    LaunchSound(start, exec);
    RunSound(Launched(start, exec), start, steps);
    if now > start + RELEASE_BOUND_MS {
      ReleasedInTime(c, now);
    }
  }

  // ----- A command among others

  /** The command is what a possible run of its own made of it by now. */
  ghost predicate Traced(c: Command, now: nat) {
    exists exec, steps :: IsTrace(c, now, exec, steps)
  }

  ghost predicate IsTrace(c: Command, now: nat, exec: ExecOutcome, steps: seq<Step>) {
    && StepsPossible(Launched(c.startedAt, exec), c.startedAt, steps)
    && Outcome(Launched(c.startedAt, exec), c.startedAt, steps) == (c, now)
  }

  lemma LaunchTraced(now: nat, exec: ExecOutcome)
    ensures Traced(Launched(now, exec), now)
  {
    assert IsTrace(Launched(now, exec), now, exec, []);
  }

  lemma {:induction false} RunSnoc(c: Command, now: nat, steps: seq<Step>, last: Step)
    requires StepsPossible(c, now, steps)
    requires
      var (d, later) := Outcome(c, now, steps);
      StepsPossible(d, later, [last])
    ensures StepsPossible(c, now, steps + [last])
    ensures
      var (d, later) := Outcome(c, now, steps);
      Outcome(c, now, steps + [last]) == Outcome(d, later, [last])
    decreases |steps|
  {
    if steps == [] {
      assert steps + [last] == [last];
    } else {
      assert (steps + [last])[1..] == steps[1..] + [last];
      match steps[0]
      case Fire(e) => RunSnoc(Handle(c, e, now), now, steps[1..], last);
      case Pass(until) => RunSnoc(c, until, steps[1..], last);
    }
  }

  lemma StepTraced(c: Command, now: nat, last: Step)
    requires Traced(c, now) && StepsPossible(c, now, [last])
    ensures
      var (d, later) := Outcome(c, now, [last]);
      d.startedAt == c.startedAt ==> Traced(d, later)
  {
    var exec, steps :| IsTrace(c, now, exec, steps);
    RunSnoc(Launched(c.startedAt, exec), c.startedAt, steps, last);
    var (d, later) := Outcome(c, now, [last]);
    if d.startedAt == c.startedAt {
      assert IsTrace(d, later, exec, steps + [last]);
    }
  }

  lemma HandleTraced(c: Command, now: nat, e: Event)
    requires Traced(c, now) && Enabled(c, e, now)
    ensures Traced(Handle(c, e, now), now)
  {
    var rest: seq<Step> := [Fire(e)][1..];
    assert rest == [];
    assert Outcome(c, now, [Fire(e)]) == (Handle(c, e, now), now);
    StepTraced(c, now, Fire(e));
  }

  lemma PassTraced(c: Command, now: nat, until: nat)
    requires Traced(c, now) && now <= until && MayPass(c, until)
    ensures Traced(c, until)
  {
    var rest: seq<Step> := [Pass(until)][1..];
    assert rest == [];
    assert Outcome(c, now, [Pass(until)]) == (c, until);
    StepTraced(c, now, Pass(until));
  }

  /** Such a run is possible: a child that ignores the kill for a second is released alive. */
  lemma ForceReleasesAlive(start: nat)
    ensures
      var steps := [Pass(start + 11_000), Fire(FallbackFires), Pass(start + 12_000), Fire(ForceFires)];
      var c0 := Launched(start, ExecOutcome(false, false, true));
      && StepsPossible(c0, start, steps)
      && Outcome(c0, start, steps).0.settled && Outcome(c0, start, steps).0.alive
  {
    var c0 := Launched(start, ExecOutcome(false, false, true));
    var c1 := Handle(c0, FallbackFires, start + 11_000);
    var s3: seq<Step> := [Fire(ForceFires)];
    var s2 := [Pass(start + 12_000)] + s3;
    var s1 := [Fire(FallbackFires)] + s2;
    var s0 := [Pass(start + 11_000)] + s1;
    assert s3[1..] == [] && s2[1..] == s3 && s1[1..] == s2 && s0[1..] == s1;
    assert Outcome(c1, start + 12_000, s3) == Outcome(Handle(c1, ForceFires, start + 12_000), start + 12_000, []);
    assert StepsPossible(c1, start + 12_000, s3);
    assert StepsPossible(c1, start + 11_000, s2) && Outcome(c1, start + 11_000, s2) == Outcome(c1, start + 12_000, s3);
    assert StepsPossible(c0, start + 11_000, s1) && Outcome(c0, start + 11_000, s1) == Outcome(c1, start + 11_000, s2);
    assert s0 == [Pass(start + 11_000), Fire(FallbackFires), Pass(start + 12_000), Fire(ForceFires)];
  }

  // ----- The command

  /** The promise executor's closure. */
  class BoundedCommand {
    const startedAt: nat
    var settled: bool
    var hasChild: bool
    var listening: bool
    var fallback: Option<nat>
    var forceFallback: Option<nat>
    var releases: nat
    var cause: Option<Cause>
    var alive: bool

    ghost function View(): Command
      reads this
    {
      Command(startedAt, settled, hasChild, listening, fallback, forceFallback, releases, cause, alive)
    }

    constructor (now: nat, exec: ExecOutcome)
      ensures View() == Launched(now, exec)
      ensures Sound(View(), now)
    {
      startedAt := now;
      settled, hasChild, listening, forceFallback, releases, cause := false, false, false, None, 0, None;
      fallback := Some(now + (COMMAND_TIMEOUT_MS + COMMAND_FALLBACK_MS));
      alive := exec.child && !exec.throws && !exec.calledBack;
      new;
      if exec.calledBack {
        Finish(ByCallback);
      }
      if exec.throws {
        Finish(ByError);
      } else if exec.child {
        hasChild := true;
      }
    }

    method Finish(why: Cause)
      modifies this
      ensures View() == Finished(old(View()), why)
    {
      if settled {
        return;
      }
      settled := true;
      fallback := None;
      if forceFallback.Some? {
        forceFallback := None;
      }
      Resolve(why);
    }

    method FinishAfterFallback(why: Cause)
      modifies this
      ensures View() == FinishedAfterFallback(old(View()), why)
    {
      if settled {
        return;
      }
      settled := true;
      if forceFallback.Some? {
        forceFallback := None;
      }
      Resolve(why);
    }

    method Resolve(why: Cause)
      modifies this`releases, this`cause
      ensures releases == old(releases) + 1 && cause == Some(why)
    {
      releases := releases + 1;
      cause := Some(why);
    }

    method OnFallback(now: nat)
      modifies this
      ensures View() == FallbackFired(old(View()), now)
    {
      fallback := None;
      if settled {
        return;
      }
      if !hasChild {
        FinishAfterFallback(ByMissingChild);
        return;
      }
      listening := true;
      forceFallback := Some(now + COMMAND_FALLBACK_MS);
    }

    method OnForceFallback()
      modifies this
      ensures View() == ForceFired(old(View()))
    {
      forceFallback := None;
      FinishAfterFallback(ByForce);
    }

    method OnProcessExit()
      modifies this
      ensures View() == Exited(old(View()))
    {
      alive := false;
      if listening {
        FinishAfterFallback(ByExit);
      }
    }

    /** The event loop delivers one enabled event; the command stays sound. */
    method Deliver(e: Event, now: nat)
      requires Sound(View(), now) && Enabled(View(), e, now)
      modifies this
      ensures View() == Handle(old(View()), e, now) && Sound(View(), now)
    {
      match e {
        case Callback => Finish(ByCallback);
        case ProcessExits => OnProcessExit();
        case FallbackFires => OnFallback(now);
        case ForceFires => OnForceFallback();
      }
      HandleSound(old(View()), e, now);
    }
  }
}
