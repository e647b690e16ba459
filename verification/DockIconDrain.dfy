/** Progress of the dock icon queue (src/main/app-icon.ts): whatever has happened, and however
  little the processes cooperate, the queue drains in bounded time. */
module DockIconDrain {
  import opened Wrappers
  import opened DockIconCommand
  import opened DockIconQueue
  import opened DockIconHistory

  // ----- What is left to do

  /** A group costs its start and two timers a command, the end of the turn one step. */
  function PlanCost(plan: seq<seq<Kind>>): nat {
    if plan == [] then 1 else 1 + 2 * |plan[0]| + PlanCost(plan[1..])
  }

  /** The timers a command may still need. */
  function CommandCost(c: Command): nat {
    if c.settled then 0 else if c.forceFallback.Some? then 1 else 2
  }

  function LiveCost(live: seq<Command>): nat {
    if live == [] then 0 else CommandCost(live[0]) + LiveCost(live[1..])
  }

  function PendingCost(pending: seq<Request>): nat {
    if pending == [] then 0 else PlanCost(Plan(pending[0].icon)) + PendingCost(pending[1..])
  }

  /** The groups of a plan that have not started. */
  function Rest(icon: Icon, groups: nat): seq<seq<Kind>> {
    if groups <= |Plan(icon)| then Plan(icon)[groups..] else []
  }

  function TurnCost(current: Option<Turn>): nat {
    match current
    case None => 0
    case Some(turn) => PlanCost(Rest(turn.request.icon, turn.groups))
  }

  /** Every step but a new request leaves it or lowers it. */
  function Cost(q: Queue): nat {
    PendingCost(q.pending) + TurnCost(q.current) + LiveCost(q.live)
  }

  function PendingGroups(pending: seq<Request>): nat {
    if pending == [] then 0 else |Plan(pending[0].icon)| + PendingGroups(pending[1..])
  }

  function TurnGroups(current: Option<Turn>): nat {
    match current
    case None => 0
    case Some(turn) => |Rest(turn.request.icon, turn.groups)|
  }

  function GroupsLeft(q: Queue): nat {
    PendingGroups(q.pending) + TurnGroups(q.current)
  }

  // ----- No step undoes progress

  /** The queue's own steps, and every event that settles a command or leaves it one timer fewer. */
  predicate Productive(q: Queue, a: Action)
    requires Can(q, a)
  {
    match a
    case BeginTurn(execs) => true
    case NextGroup(execs) => true
    case EndTurn => true
    case Deliver(k, event) => !q.live[k].settled && (Handle(q.live[k], event, q.now).settled || event.FallbackFires?)
    case DeliverLate(k, event) => false
    case Ask(icon) => false
    case Elapse(until) => false
  }

  lemma {:induction false} LiveUpdate(live: seq<Command>, k: nat, c: Command)
    requires k < |live|
    ensures LiveCost(live[k := c]) == LiveCost(live) - CommandCost(live[k]) + CommandCost(c)
  {
    if k == 0 {
      assert live[0 := c][1..] == live[1..];
    } else {
      assert live[k := c][1..] == live[1..][k - 1 := c];
      LiveUpdate(live[1..], k - 1, c);
    }
  }

  lemma {:induction false} LiveAtMost(live: seq<Command>)
    ensures LiveCost(live) <= 2 * |live|
  {
    if live != [] {
      LiveAtMost(live[1..]);
    }
  }

  lemma {:induction false} SettledIsFree(live: seq<Command>)
    requires AllSettled(live)
    ensures LiveCost(live) == 0
  {
    if live != [] {
      assert live[0] in live;
      SettledIsFree(live[1..]);
    }
  }

  lemma HandleCost(c: Command, e: Event, now: nat)
    requires Sound(c, now) && Enabled(c, e, now)
    ensures CommandCost(Handle(c, e, now)) <= CommandCost(c)
    ensures !c.settled && (Handle(c, e, now).settled || e.FallbackFires? || e.ForceFires?) ==>
      CommandCost(Handle(c, e, now)) < CommandCost(c)
  {
  }

  lemma RestStep(icon: Icon, groups: nat)
    requires groups < |Plan(icon)|
    ensures
      var rest, next := Rest(icon, groups), Rest(icon, groups + 1);
      && |rest| == |next| + 1
      && PlanCost(rest) == 1 + 2 * GroupSize(icon, groups) + PlanCost(next)
  {
    var rest := Rest(icon, groups);
    assert rest[0] == Plan(icon)[groups] && rest[1..] == Rest(icon, groups + 1);
  }

  lemma GroupCost(q: Queue, turn: Turn, execs: seq<ExecOutcome>)
    requires turn.groups < |Plan(turn.request.icon)| && |execs| == GroupSize(turn.request.icon, turn.groups)
    ensures
      var next := WithGroup(q, turn, execs);
      && TurnCost(next.current) + LiveCost(next.live) < TurnCost(Some(turn))
      && TurnGroups(next.current) + 1 == TurnGroups(Some(turn))
  {
    RestStep(turn.request.icon, turn.groups);
    LiveAtMost(Launch(q.now, execs));
  }

  lemma BeginCost(q: Queue, execs: seq<ExecOutcome>)
    requires Good(q) && Can(q, BeginTurn(execs))
    ensures Cost(After(q, BeginTurn(execs))) < Cost(q)
    ensures GroupsLeft(After(q, BeginTurn(execs))) < GroupsLeft(q)
  {
    var request := q.pending[0];
    assert Rest(request.icon, 0) == Plan(request.icon);
    if request.generation == |q.requests| {
      GroupCost(q.(pending := q.pending[1..]), NewTurn(q, request), execs);
    }
  }

  lemma NextGroupCost(q: Queue, execs: seq<ExecOutcome>)
    requires Good(q) && Can(q, NextGroup(execs))
    ensures Cost(After(q, NextGroup(execs))) < Cost(q)
    ensures GroupsLeft(After(q, NextGroup(execs))) < GroupsLeft(q)
  {
    SettledIsFree(q.live);
    GroupCost(q, q.current.value, execs);
  }

  lemma StepCost(q: Queue, a: Action)
    requires Good(q) && Can(q, a) && !a.Ask?
    ensures Cost(After(q, a)) <= Cost(q)
    ensures Productive(q, a) ==> Cost(After(q, a)) < Cost(q)
  {
    match a
    case BeginTurn(execs) => BeginCost(q, execs);
    case NextGroup(execs) => NextGroupCost(q, execs);
    case EndTurn => SettledIsFree(q.live);
    case Deliver(k, event) =>
      assert q.live[k] in q.live;
      HandleCost(q.live[k], event, q.now);
      LiveUpdate(q.live, k, Handle(q.live[k], event, q.now));
    case DeliverLate(k, event) =>
    case Elapse(until) =>
  }

  function ProductiveSteps(q: Queue, actions: seq<Action>): nat
    requires Possible(q, actions)
    decreases |actions|
  {
    if actions == [] then 0
    else (if Productive(q, actions[0]) then 1 else 0) + ProductiveSteps(After(q, actions[0]), actions[1..])
  }

  /** No interleaving can go on making progress for ever, or undo any: between two requests the
    productive steps number at most what was left to do. */
  lemma {:induction false} ProgressIsBounded(q: Queue, actions: seq<Action>)
    requires Good(q) && Possible(q, actions) && forall a :: a in actions ==> !a.Ask?
    ensures ProductiveSteps(q, actions) + Cost(Run(q, actions)) <= Cost(q)
    decreases |actions|
  {
    if actions != [] {
      assert actions[0] in actions;
      StepKeeps(q, actions[0]);
      StepCost(q, actions[0]);
      ProgressIsBounded(After(q, actions[0]), actions[1..]);
    }
  }

  // ----- The worst environment: no callback, no exit

  /** The queue's own steps, its timers, and time. */
  predicate Unaided(a: Action) {
    match a
    case Deliver(k, event) => event.FallbackFires? || event.ForceFires?
    case _ => !a.Ask? && !a.DeliverLate?
  }

  /** How each process will be started: any answer for any command of the group begun in any
    state.  No state occurs twice where a group is begun, so every sequence of starts is covered. */
  type Launcher = (Queue, nat) -> ExecOutcome

  function Group(q: Queue, size: nat, launcher: Launcher): seq<ExecOutcome> {
    seq(size, i requires 0 <= i < size => launcher(q, i))
  }

  /** A step nobody helps with, whose processes start as the launcher says. */
  predicate OnItsOwn(q: Queue, a: Action, launcher: Launcher) {
    && Unaided(a)
    && (a.BeginTurn? || a.NextGroup? ==> a.execs == Group(q, |a.execs|, launcher))
  }

  ghost predicate AllOnTheirOwn(q: Queue, actions: seq<Action>, launcher: Launcher)
    requires Possible(q, actions)
    decreases |actions|
  {
    actions == [] ||
    (OnItsOwn(q, actions[0], launcher) && AllOnTheirOwn(After(q, actions[0]), actions[1..], launcher))
  }

  /** The time at which the command's armed timer is due. */
  function Due(c: Command): nat
    requires !c.settled && (c.fallback.Some? || c.forceFallback.Some?)
  {
    if c.forceFallback.Some? then c.forceFallback.value else c.fallback.value
  }

  predicate Waits(c: Command) {
    !c.settled && (c.fallback.Some? || c.forceFallback.Some?)
  }

  /** Every live command still needs at most `limit` for itself and the groups after it. */
  predicate Timely(q: Queue, limit: nat) {
    var later := RELEASE_BOUND_MS * GroupsLeft(q);
    && q.now + later <= limit
    && forall c :: c in q.live && !c.settled ==> c.startedAt + RELEASE_BOUND_MS + later <= limit
  }

  /** An unsettled command always waits for a timer; the first of them to be due. */
  lemma {:induction false} FirstDue(live: seq<Command>, now: nat) returns (k: nat)
    requires forall c :: c in live ==> Sound(c, now)
    requires !AllSettled(live)
    ensures k < |live| && Waits(live[k]) && now <= Due(live[k]) <= live[k].startedAt + RELEASE_BOUND_MS
    ensures forall c :: c in live ==> MayPass(c, Due(live[k]))
    decreases |live|
  {
    var front, last := live[..|live| - 1], live[|live| - 1];
    assert live == front + [last] && last in live;
    if AllSettled(front) {
      k := |live| - 1;
    } else {
      k := FirstDue(front, now);
      if !last.settled && Due(last) < Due(live[k]) {
        k := |live| - 1;
      }
    }
  }

  function TimerOf(c: Command): Event {
    if c.forceFallback.Some? then ForceFires else FallbackFires
  }

  lemma OnePossible(q: Queue, a: Action)
    requires Can(q, a)
    ensures Possible(q, [a]) && Run(q, [a]) == After(q, a)
  {
    assert [a][1..] == [];
  }

  lemma TimelyAfterGroup(q: Queue, limit: nat, next: Queue)
    requires Timely(q, limit) && next.now == q.now && GroupsLeft(next) < GroupsLeft(q)
    requires forall c :: c in next.live ==> c.startedAt == q.now
    ensures Timely(next, limit)
  {
    assert RELEASE_BOUND_MS * GroupsLeft(next) + RELEASE_BOUND_MS <= RELEASE_BOUND_MS * GroupsLeft(q);
  }

  lemma HandleTimely(q: Queue, limit: nat, k: nat, event: Event)
    requires Timely(q, limit) && k < |q.live|
    ensures Timely(q.(live := q.live[k := Handle(q.live[k], event, q.now)]), limit)
  {
    var c := q.live[k];
    var after := Handle(c, event, q.now);
    assert c in q.live && after.startedAt == c.startedAt && (c.settled ==> after.settled);
    var next := q.(live := q.live[k := after]);
    assert GroupsLeft(next) == GroupsLeft(q);
    assert forall d :: d in next.live ==> d == after || d in q.live;
  }

  lemma BeginTimely(q: Queue, execs: seq<ExecOutcome>, limit: nat)
    requires Good(q) && Timely(q, limit) && Can(q, BeginTurn(execs))
    ensures Timely(After(q, BeginTurn(execs)), limit)
  {
    BeginCost(q, execs);
    TimelyAfterGroup(q, limit, After(q, BeginTurn(execs)));
  }

  /** Every step but a request or time passing keeps to the limit. */
  lemma StepTimely(q: Queue, a: Action, limit: nat)
    requires Good(q) && Timely(q, limit) && Can(q, a) && !a.Ask? && !a.Elapse?
    ensures Timely(After(q, a), limit)
  {
    match a
    case BeginTurn(execs) => BeginTimely(q, execs, limit);
    case NextGroup(execs) =>
      NextGroupCost(q, execs);
      TimelyAfterGroup(q, limit, After(q, a));
    case EndTurn =>
    case Deliver(k, event) => HandleTimely(q, limit, k, event);
    case DeliverLate(k, event) =>
  }

  lemma WaitTimely(q: Queue, c: Command, until: nat, limit: nat)
    requires Timely(q, limit) && c in q.live && !c.settled && until <= c.startedAt + RELEASE_BOUND_MS
    ensures Timely(q.(now := until), limit)
  {
    assert GroupsLeft(q.(now := until)) == GroupsLeft(q);
  }

  lemma SameRequests(q: Queue, a: Action)
    requires Can(q, a) && !a.Ask?
    ensures After(q, a).requests == q.requests
  {
  }

  lemma ProductiveAdvances(q: Queue, a: Action, limit: nat)
    requires Good(q) && Timely(q, limit) && Can(q, a) && !a.Ask? && !a.Elapse? && Productive(q, a)
    ensures
      var next := After(q, a);
      Good(next) && next.requests == q.requests && Cost(next) < Cost(q) && Timely(next, limit)
  {
    StepKeeps(q, a);
    StepCost(q, a);
    StepTimely(q, a, limit);
    SameRequests(q, a);
  }

  lemma FiringIsDue(q: Queue, k: nat)
    requires Good(q) && k < |q.live| && Waits(q.live[k]) && Due(q.live[k]) == q.now
    ensures
      var fire := Deliver(k, TimerOf(q.live[k]));
      Can(q, fire) && Productive(q, fire)
  {
    assert Sound(q.live[k], q.now);
  }

  /** No time passed, or no more than some waiting command's own bound. */
  ghost predicate InTime(q: Queue, now: nat) {
    now == q.now || exists c :: c in q.live && Waits(c) && now <= c.startedAt + RELEASE_BOUND_MS
  }

  /** One or two unaided steps that leave less to do. */
  ghost predicate Advances(q: Queue, more: seq<Action>, limit: nat, launcher: Launcher) {
    && 1 <= |more| <= 2 && Possible(q, more) && AllOnTheirOwn(q, more, launcher)
    && Good(Run(q, more)) && Run(q, more).requests == q.requests
    && Cost(Run(q, more)) < Cost(q) && Timely(Run(q, more), limit)
    && InTime(q, Run(q, more).now)
  }

  lemma TwoAdvance(q: Queue, a: Action, b: Action, limit: nat, launcher: Launcher)
    requires a.Elapse? && b.Deliver? && Unaided(b) && Can(q, a) && Can(After(q, a), b)
    requires InTime(q, After(After(q, a), b).now)
    requires
      var next := After(After(q, a), b);
      Good(next) && next.requests == q.requests && Cost(next) < Cost(q) && Timely(next, limit)
    ensures Advances(q, [a, b], limit, launcher)
  {
    assert [a, b][1..] == [b];
    OnePossible(After(q, a), b);
  }

  /** Waiting for the first timer that is due, and firing it. */
  lemma TimerAdvances(q: Queue, limit: nat, launcher: Launcher) returns (more: seq<Action>)
    requires Good(q) && !AllSettled(q.live) && Timely(q, limit)
    ensures Advances(q, more, limit, launcher)
  {
    var k := FirstDue(q.live, q.now);
    var c := q.live[k];
    assert c in q.live;
    var wait, fire := Elapse(Due(c)), Deliver(k, TimerOf(c));
    ElapseKeeps(q, Due(c));
    WaitTimely(q, c, Due(c), limit);
    var waited := q.(now := Due(c));
    FiringIsDue(waited, k);
    ProductiveAdvances(waited, fire, limit);
    TwoAdvance(q, wait, fire, limit, launcher);
    more := [wait, fire];
  }

  predicate Drained(q: Queue) {
    q.pending == [] && q.current.None?
  }

  /** With every live command released, the queue itself has a step to take. */
  lemma OwnStep(q: Queue, launcher: Launcher) returns (a: Action)
    requires Good(q) && !Drained(q) && AllSettled(q.live)
    ensures OnItsOwn(q, a, launcher) && !a.Elapse? && Can(q, a) && Productive(q, a)
  {
    if q.current.None? {
      a := BeginTurn(Group(q, GroupSize(q.pending[0].icon, 0), launcher));
    } else {
      var turn := q.current.value;
      CurrentIsLast(q);
      if turn.groups == |Plan(turn.request.icon)| {
        a := EndTurn;
      } else {
        a := NextGroup(Group(q, GroupSize(turn.request.icon, turn.groups), launcher));
      }
    }
  }

  lemma OwnAdvances(q: Queue, limit: nat, launcher: Launcher) returns (more: seq<Action>)
    requires Good(q) && Timely(q, limit) && !Drained(q) && AllSettled(q.live)
    ensures Advances(q, more, limit, launcher)
  {
    var a := OwnStep(q, launcher);
    ProductiveAdvances(q, a, limit);
    OnePossible(q, a);
    more := [a];
  }

  /** With work left, one step of the queue itself, or waiting for one timer and firing it, always
    leaves less to do. */
  lemma Advance(q: Queue, limit: nat, launcher: Launcher) returns (more: seq<Action>)
    requires Good(q) && Timely(q, limit) && !Drained(q)
    ensures Advances(q, more, limit, launcher)
  {
    if !AllSettled(q.live) {
      more := TimerAdvances(q, limit, launcher);
    } else {
      more := OwnAdvances(q, limit, launcher);
    }
  }

  /** The queue is never stuck, and no waiting is idle: in every reachable state with work left, one
    step of the queue itself, or waiting for one timer that is due within its command's 12 seconds
    and firing it, leaves strictly less to do. */
  lemma NeverStuck(actions: seq<Action>, launcher: Launcher) returns (more: seq<Action>)
    requires Possible(IDLE, actions) && !Drained(Run(IDLE, actions))
    ensures
      var q := Run(IDLE, actions);
      && 1 <= |more| <= 2 && Possible(q, more) && AllOnTheirOwn(q, more, launcher)
      && Cost(Run(q, more)) < Cost(q)
      && InTime(q, Run(q, more).now)
  {
    RunKeeps(IDLE, actions);
    var q := Run(IDLE, actions);
    more := Advance(q, q.now + RELEASE_BOUND_MS * (1 + GroupsLeft(q)), launcher);
  }

  lemma {:induction false} RunConcat(q: Queue, first: seq<Action>, second: seq<Action>)
    requires Possible(q, first) && Possible(Run(q, first), second)
    ensures Possible(q, first + second) && Run(q, first + second) == Run(Run(q, first), second)
    decreases |first|
  {
    if first == [] {
      assert first + second == second;
    } else {
      RunConcat(After(q, first[0]), first[1..], second);
      assert (first + second)[1..] == first[1..] + second;
    }
  }

  lemma {:induction false} OwnConcat(q: Queue, first: seq<Action>, second: seq<Action>, launcher: Launcher)
    requires Possible(q, first) && Possible(Run(q, first), second) && Possible(q, first + second)
    requires AllOnTheirOwn(q, first, launcher) && AllOnTheirOwn(Run(q, first), second, launcher)
    ensures AllOnTheirOwn(q, first + second, launcher)
    decreases |first|
  {
    if first == [] {
      assert first + second == second;
    } else {
      assert (first + second)[1..] == first[1..] + second;
      OwnConcat(After(q, first[0]), first[1..], second, launcher);
    }
  }

  lemma {:induction false} Drain(q: Queue, limit: nat, launcher: Launcher) returns (more: seq<Action>)
    requires Good(q) && Timely(q, limit)
    ensures Possible(q, more) && AllOnTheirOwn(q, more, launcher)
    ensures Drained(Run(q, more)) && Run(q, more).requests == q.requests && Run(q, more).now <= limit
    decreases Cost(q)
  {
    if Drained(q) {
      more := [];
    } else {
      var first := Advance(q, limit, launcher);
      var rest := Drain(Run(q, first), limit, launcher);
      RunConcat(q, first, rest);
      OwnConcat(q, first, rest, launcher);
      more := first + rest;
    }
  }

  /** From every reachable state, however each process is started from then on and even if none ever
    calls back or exits again, the queue drains by its own steps and timers alone, within 12 seconds
    a group, and the newest request has won. */
  lemma QueueDrains(actions: seq<Action>, launcher: Launcher) returns (more: seq<Action>)
    requires Possible(IDLE, actions) && Run(IDLE, actions).requests != []
    ensures Possible(Run(IDLE, actions), more) && AllOnTheirOwn(Run(IDLE, actions), more, launcher)
    ensures Possible(IDLE, actions + more)
    ensures
      var q, end := Run(IDLE, actions), Run(IDLE, actions + more);
      && Drained(end) && end.requests == q.requests
      && NewestWon(actions + more)
      && end.now <= q.now + RELEASE_BOUND_MS * (1 + GroupsLeft(q))
  {
    RunKeeps(IDLE, actions);
    var q := Run(IDLE, actions);
    more := Drain(q, q.now + RELEASE_BOUND_MS * (1 + GroupsLeft(q)), launcher);
    RunConcat(IDLE, actions, more);
    LastWriterWins(actions + more);
  }
}
