/** What the dock icon queue's own events say about its processes (src/main/app-icon.ts): which of
  them are alive when a turn begins, and when the newest request has won. */
module DockIconHistory {
  import opened Wrappers
  import opened DockIconCommand
  import opened DockIconQueue

  // ----- Every command keeps its number

  /** All commands ever started, in the order of their starts. */
  function All(q: Queue): seq<Command> {
    q.past + q.live
  }

  /** How the commands that a step starts were started. */
  function StartedBy(q: Queue, a: Action): seq<ExecOutcome>
    requires Can(q, a)
  {
    match a
    case BeginTurn(execs) => if q.pending[0].generation == |q.requests| then execs else []
    case NextGroup(execs) => execs
    case _ => []
  }

  /** The number of the command whose process a step reports dead. */
  function ExitedBy(q: Queue, a: Action): set<nat> {
    match a
    case Deliver(k, event) => if event.ProcessExits? then {|q.past| + k} else {}
    case DeliverLate(k, event) => if event.ProcessExits? then {k} else {}
    case _ => {}
  }

  function Starts(q: Queue, actions: seq<Action>): seq<ExecOutcome>
    requires Possible(q, actions)
    decreases |actions|
  {
    if actions == [] then [] else StartedBy(q, actions[0]) + Starts(After(q, actions[0]), actions[1..])
  }

  function Exits(q: Queue, actions: seq<Action>): set<nat>
    requires Possible(q, actions)
    decreases |actions|
  {
    if actions == [] then {} else ExitedBy(q, actions[0]) + Exits(After(q, actions[0]), actions[1..])
  }

  /** The commands from number `from` on are alive exactly if their start left a child running and
    no exit was reported for their number. */
  ghost predicate AliveBy(all: seq<Command>, from: nat, starts: seq<ExecOutcome>, exits: set<nat>) {
    && |all| == from + |starts|
    && forall i :: from <= i < |all| ==> (all[i].alive <==> StartsChild(starts[i - from]) && i !in exits)
  }

  ghost predicate AliveStill(before: seq<Command>, all: seq<Command>, exits: set<nat>) {
    && |before| <= |all|
    && forall i :: 0 <= i < |before| ==> (all[i].alive <==> before[i].alive && i !in exits)
  }

  lemma StepAlive(q: Queue, a: Action)
    requires Can(q, a)
    ensures AliveStill(All(q), All(After(q, a)), ExitedBy(q, a))
  {
  }

  lemma StepStarts(q: Queue, a: Action)
    requires Can(q, a)
    ensures AliveBy(All(After(q, a)), |All(q)|, StartedBy(q, a), {})
    ensures forall i :: i in ExitedBy(q, a) ==> i < |All(q)|
  {
  }

  lemma AliveThen(
    first: seq<Command>, mid: seq<Command>, last: seq<Command>,
    s: seq<ExecOutcome>, t: seq<ExecOutcome>, e: set<nat>, f: set<nat>)
    requires AliveStill(first, mid, e) && AliveBy(mid, |first|, s, {}) && forall i :: i in e ==> i < |first|
    requires AliveStill(mid, last, f) && AliveBy(last, |mid|, t, f)
    ensures AliveStill(first, last, e + f) && AliveBy(last, |first|, s + t, e + f)
  {
  }

  /** In every run a command's process is alive exactly if it was before, or its start left a child
    running, and none of the run's own steps reported its exit. */
  lemma {:induction false} AliveIffNoExit(q: Queue, actions: seq<Action>)
    requires Possible(q, actions)
    ensures AliveStill(All(q), All(Run(q, actions)), Exits(q, actions))
    ensures AliveBy(All(Run(q, actions)), |All(q)|, Starts(q, actions), Exits(q, actions))
    decreases |actions|
  {
    if actions != [] {
      var a, rest := actions[0], actions[1..];
      var next := After(q, a);
      StepStarts(q, a);
      StepAlive(q, a);
      AliveIffNoExit(next, rest);
      AliveThen(All(q), All(next), All(Run(next, rest)), StartedBy(q, a), Starts(next, rest),
                ExitedBy(q, a), Exits(next, rest));
    }
  }

  // ----- When a turn began

  predicate SameStart(t: Turn, u: Turn) {
    t.earlier == u.earlier && t.began == u.began && t.request == u.request
  }

  /** The icons asked for, in order. */
  function Asked(actions: seq<Action>): seq<Icon> {
    if actions == [] then []
    else (match actions[0] case Ask(icon) => [icon] case _ => []) + Asked(actions[1..])
  }

  lemma {:induction false} RequestsAreAsked(q: Queue, actions: seq<Action>)
    requires Possible(q, actions)
    ensures Run(q, actions).requests == q.requests + Asked(actions)
    decreases |actions|
  {
    if actions == [] {
      assert q.requests + [] == q.requests;
    } else {
      var own := match actions[0] case Ask(icon) => [icon] case _ => [];
      RequestsAreAsked(After(q, actions[0]), actions[1..]);
      OneRequest(q, actions[0], own);
      assert q.requests + own + Asked(actions[1..]) == q.requests + (own + Asked(actions[1..]));
    }
  }

  lemma OneRequest(q: Queue, a: Action, own: seq<Icon>)
    requires Can(q, a) && own == match a case Ask(icon) => [icon] case _ => []
    ensures After(q, a).requests == q.requests + own
  {
    assert q.requests + [] == q.requests;
  }

  /** The turn began with the n-th action, for the request that was the newest then, and met the
    commands of the run up to there. */
  ghost predicate BeganAt(q: Queue, actions: seq<Action>, n: nat, t: Turn) {
    && n < |actions| && actions[n].BeginTurn? && Possible(q, actions[..n])
    && t.earlier == All(Run(q, actions[..n])) && t.began == Run(q, actions[..n]).now
    && t.request.generation == |Run(q, actions[..n]).requests|
  }

  predicate BeginsWith(q: Queue, a: Action, t: Turn) {
    a.BeginTurn? && t.earlier == All(q) && t.began == q.now && t.request.generation == |q.requests|
  }

  lemma StepTurns(q: Queue, a: Action, t: Turn)
    requires Can(q, a) && t in Turns(After(q, a))
    ensures (exists u :: u in Turns(q) && SameStart(u, t)) || BeginsWith(q, a, t)
  {
    var next := After(q, a);
    if t in next.finished && t in q.finished {
      assert t in Turns(q) && SameStart(t, t);
    } else if q.current.Some? && SameStart(q.current.value, t) {
      assert q.current.value in Turns(q);
    }
  }

  lemma BeganLater(q: Queue, actions: seq<Action>, n: nat, t: Turn)
    requires actions != [] && Can(q, actions[0]) && BeganAt(After(q, actions[0]), actions[1..], n, t)
    ensures BeganAt(q, actions, n + 1, t)
  {
    assert actions[..n + 1][0] == actions[0] && actions[..n + 1][1..] == actions[1..][..n];
  }

  lemma {:induction false} EveryTurnBegan(q: Queue, actions: seq<Action>, t: Turn)
    requires Possible(q, actions) && t in Turns(Run(q, actions))
    ensures (exists u :: u in Turns(q) && SameStart(u, t)) || exists n :: BeganAt(q, actions, n, t)
    decreases |actions|
  {
    if actions == [] {
      assert SameStart(t, t);
    } else {
      var a, rest := actions[0], actions[1..];
      EveryTurnBegan(After(q, a), rest, t);
      if n :| BeganAt(After(q, a), rest, n, t) {
        BeganLater(q, actions, n, t);
      } else {
        var u :| u in Turns(After(q, a)) && SameStart(u, t);
        StepTurns(q, a, u);
        if v :| v in Turns(q) && SameStart(v, u) {
          assert SameStart(v, t);
        } else {
          assert actions[..0] == [];
          assert BeganAt(q, actions, 0, t);
        }
      }
    }
  }

  // ----- Main results

  /** Released commands, each alive exactly if its start left a child running whose exit was not
    reported; such a child was given up on by the force timer. */
  ghost predicate OnlySurvivors(commands: seq<Command>, now: nat, starts: seq<ExecOutcome>, exits: set<nat>) {
    && |commands| == |starts|
    && forall i :: 0 <= i < |commands| ==>
         && commands[i].settled
         && (commands[i].alive <==> StartsChild(starts[i]) && i !in exits)
         && (commands[i].alive ==>
               commands[i].cause == Some(ByForce) && now >= commands[i].startedAt + RELEASE_BOUND_MS)
  }

  lemma AllSound(actions: seq<Action>)
    requires Possible(IDLE, actions)
    ensures forall c :: c in All(Run(IDLE, actions)) ==> Sound(c, Run(IDLE, actions).now)
  {
    RunKeeps(IDLE, actions);
  }

  lemma SurvivorsOf(commands: seq<Command>, now: nat, starts: seq<ExecOutcome>, exits: set<nat>)
    requires AllSettled(commands) && (forall c :: c in commands ==> Sound(c, now))
    requires AliveBy(commands, 0, starts, exits)
    ensures OnlySurvivors(commands, now, starts, exits)
  {
    forall i | 0 <= i < |commands| ensures commands[i].settled && Sound(commands[i], now) {
      assert commands[i] in commands;
    }
  }

  lemma ReleasedSurvivors(actions: seq<Action>)
    requires Possible(IDLE, actions) && AllSettled(All(Run(IDLE, actions)))
    ensures
      var q := Run(IDLE, actions);
      OnlySurvivors(All(q), q.now, Starts(IDLE, actions), Exits(IDLE, actions))
  {
    var q := Run(IDLE, actions);
    AllSound(actions);
    AliveIffNoExit(IDLE, actions);
    SurvivorsOf(All(q), q.now, Starts(IDLE, actions), Exits(IDLE, actions));
  }

  /** The commands that the turn met when it began, as the run up to there left them. */
  ghost predicate MetOnlySurvivors(actions: seq<Action>, t: Turn) {
    exists n: nat :: BeganAt(IDLE, actions, n, t)
      && OnlySurvivors(t.earlier, t.began, Starts(IDLE, actions[..n]), Exits(IDLE, actions[..n]))
  }

  /** When a turn begins, every process of every earlier turn is dead, except a child that was left
    running by its start, whose exit no step of the run so far reported, and that was given up on by
    the force timer.  No command started so far is left out. */
  lemma EarlierProcessesDead(actions: seq<Action>, i: nat)
    requires Possible(IDLE, actions) && i < |Turns(Run(IDLE, actions))|
    ensures MetOnlySurvivors(actions, Turns(Run(IDLE, actions))[i])
    ensures |Turns(Run(IDLE, actions))[i].earlier| == Started(Turns(Run(IDLE, actions))[..i])
  {
    TurnsCounted(actions, i);
    MetSurvivors(actions, Turns(Run(IDLE, actions))[i]);
  }

  lemma TurnsCounted(actions: seq<Action>, i: nat)
    requires Possible(IDLE, actions) && i < |Turns(Run(IDLE, actions))|
    ensures |Turns(Run(IDLE, actions))[i].earlier| == Started(Turns(Run(IDLE, actions))[..i])
  {
    RunFromIdle(actions);
  }

  lemma TurnBegan(actions: seq<Action>, t: Turn) returns (n: nat)
    requires Possible(IDLE, actions) && t in Turns(Run(IDLE, actions))
    ensures BeganAt(IDLE, actions, n, t)
  {
    assert Turns(IDLE) == [];
    EveryTurnBegan(IDLE, actions, t);
    n :| BeganAt(IDLE, actions, n, t);
  }

  lemma MetSurvivors(actions: seq<Action>, t: Turn)
    requires Possible(IDLE, actions) && t in Turns(Run(IDLE, actions))
    ensures MetOnlySurvivors(actions, t)
  {
    var n := TurnBegan(actions, t);
    SettledWhenBegun(actions, t);
    ReleasedSurvivors(actions[..n]);
  }

  lemma SettledWhenBegun(actions: seq<Action>, t: Turn)
    requires Possible(IDLE, actions) && t in Turns(Run(IDLE, actions))
    ensures AllSettled(t.earlier)
  {
    RunFromIdle(actions);
  }

  /** Each turn began when its request was the newest of those asked for so far, and carries the icon
    asked for. */
  lemma TurnsBeginNewest(actions: seq<Action>, i: nat) returns (n: nat)
    requires Possible(IDLE, actions) && i < |Turns(Run(IDLE, actions))|
    ensures
      var turn := Turns(Run(IDLE, actions))[i];
      && n < |actions| && actions[n].BeginTurn?
      && Asked(actions[..n]) != [] && turn.request.generation == |Asked(actions[..n])|
      && turn.request.icon == Asked(actions[..n])[|Asked(actions[..n])| - 1]
  {
    var turn := Turns(Run(IDLE, actions))[i];
    assert turn in Turns(Run(IDLE, actions));
    n := TurnBegan(actions, turn);
    IconAsked(actions, n, turn);
  }

  lemma {:induction false} AskedConcat(a: seq<Action>, b: seq<Action>)
    ensures Asked(a + b) == Asked(a) + Asked(b)
  {
    if a == [] {
      assert a + b == b;
    } else {
      AskedConcat(a[1..], b);
      assert (a + b)[1..] == a[1..] + b && (a + b)[0] == a[0];
      Reassociate(match a[0] case Ask(icon) => [icon] case _ => [], Asked(a[1..]), Asked(b));
    }
  }

  lemma Reassociate(a: seq<Icon>, b: seq<Icon>, c: seq<Icon>)
    ensures a + (b + c) == a + b + c
  {
  }

  lemma IconAsked(actions: seq<Action>, n: nat, turn: Turn)
    requires Possible(IDLE, actions) && turn in Turns(Run(IDLE, actions)) && BeganAt(IDLE, actions, n, turn)
    ensures Asked(actions[..n]) != [] && turn.request.generation == |Asked(actions[..n])|
    ensures turn.request.icon == Asked(actions[..n])[|Asked(actions[..n])| - 1]
  {
    RunKeeps(IDLE, actions);
    RequestsFromIdle(actions);
    RequestsFromIdle(actions[..n]);
    AskedBefore(actions, n);
    TurnIsGood(Run(IDLE, actions), turn);
  }

  lemma RequestsFromIdle(actions: seq<Action>)
    requires Possible(IDLE, actions)
    ensures Run(IDLE, actions).requests == Asked(actions)
  {
    RequestsAreAsked(IDLE, actions);
    assert [] + Asked(actions) == Asked(actions);
  }

  lemma AskedBefore(actions: seq<Action>, n: nat)
    requires n <= |actions|
    ensures Asked(actions[..n]) <= Asked(actions)
  {
    assert actions == actions[..n] + actions[n..];
    AskedConcat(actions[..n], actions[n..]);
  }

  lemma TurnIsGood(q: Queue, turn: Turn)
    requires Good(q) && turn in Turns(q)
    ensures GoodTurn(q.requests, turn)
  {
  }

  /** The last turn ran what the last icon asked for needs: its own icon is set, or all three marks of
    a custom icon are cleared. */
  predicate RanFor(actions: seq<Action>, q: Queue) {
    && Asked(actions) != [] && q.finished != []
    && var icon := Asked(actions)[|Asked(actions)| - 1];
       q.finished[|q.finished| - 1].ran
       == if icon == Classic then [ClearAppKitIcon, ClearFinderInfo, ClearResourceFork] else [SetCustomIcon(icon)]
  }

  lemma PlanIs(icon: Icon)
    ensures Flat(Plan(icon))
         == if icon == Classic then [ClearAppKitIcon, ClearFinderInfo, ClearResourceFork] else [SetCustomIcon(icon)]
  {
    if icon == Classic {
      FlatOne([ClearFinderInfo, ClearResourceFork]);
      assert Plan(icon)[1..] == [[ClearFinderInfo, ClearResourceFork]];
      assert [ClearAppKitIcon] + [ClearFinderInfo, ClearResourceFork]
          == [ClearAppKitIcon, ClearFinderInfo, ClearResourceFork];
    } else {
      FlatOne([SetCustomIcon(icon)]);
    }
  }

  lemma FlatOne(group: seq<Kind>)
    ensures Flat([group]) == group
  {
    assert [group][1..] == [];
    assert group + [] == group;
  }

  /** The turn in progress has started its one command, or the removal of the AppKit icon alone, or,
    once that one has released, the removal of both other marks as well. */
  predicate InStages(q: Queue) {
    q.current.Some? ==>
      var turn := q.current.value;
      if turn.request.icon != Classic then
        turn.groups == 1 && turn.ran == [SetCustomIcon(turn.request.icon)] && |q.live| == 1
      else
        || (turn.groups == 1 && turn.ran == [ClearAppKitIcon] && |q.live| == 1)
        || (turn.groups == 2 && turn.ran == [ClearAppKitIcon, ClearFinderInfo, ClearResourceFork]
            && |q.live| == 2 && q.past != [] && q.past[|q.past| - 1].settled)
  }

  lemma BeginInStages(q: Queue, execs: seq<ExecOutcome>)
    requires Good(q) && Can(q, BeginTurn(execs))
    ensures InStages(After(q, BeginTurn(execs)))
  {
    if q.pending[0].generation == |q.requests| {
      var first := Plan(q.pending[0].icon)[0];
      assert [] + first == first;
    }
  }

  lemma NextInStages(q: Queue, execs: seq<ExecOutcome>)
    requires InStages(q) && Can(q, NextGroup(execs))
    ensures InStages(After(q, NextGroup(execs)))
  {
    assert q.live[0] in q.live;
    assert [ClearAppKitIcon] + [ClearFinderInfo, ClearResourceFork]
        == [ClearAppKitIcon, ClearFinderInfo, ClearResourceFork];
  }

  lemma LateInStages(q: Queue, k: nat, event: Event)
    requires Good(q) && InStages(q) && Can(q, DeliverLate(k, event))
    ensures InStages(After(q, DeliverLate(k, event)))
  {
    assert q.past[k] in q.past;
    HandleSound(q.past[k], event, q.now);
  }

  lemma StepInStages(q: Queue, a: Action)
    requires Good(q) && InStages(q) && Can(q, a)
    ensures InStages(After(q, a))
  {
    match a
    case BeginTurn(execs) => BeginInStages(q, execs);
    case NextGroup(execs) => NextInStages(q, execs);
    case DeliverLate(k, event) => LateInStages(q, k, event);
    case _ =>
  }

  lemma {:induction false} RunInStages(q: Queue, actions: seq<Action>)
    requires Good(q) && InStages(q) && Possible(q, actions)
    ensures InStages(Run(q, actions))
    decreases |actions|
  {
    if actions != [] {
      StepKeeps(q, actions[0]);
      StepInStages(q, actions[0]);
      RunInStages(After(q, actions[0]), actions[1..]);
    }
  }

  /** In every run the Finder and resource fork marks are removed only after the command that removes
    the AppKit icon has released the queue. */
  lemma MarksWaitForAppKit(actions: seq<Action>)
    requires Possible(IDLE, actions)
    ensures InStages(Run(IDLE, actions))
  {
    assert Turns(IDLE) == [];
    RunInStages(IDLE, actions);
  }

  /** The marks of a custom icon on the application bundle. */
  datatype Bundle = Bundle(icon: Option<Icon>, finderInfo: bool, resourceFork: bool)

  function Applied(bundle: Bundle, kind: Kind): Bundle {
    match kind
    case SetCustomIcon(icon) => Bundle(Some(icon), true, true)
    case ClearAppKitIcon => bundle.(icon := None)
    case ClearFinderInfo => bundle.(finderInfo := false)
    case ClearResourceFork => bundle.(resourceFork := false)
  }

  function AppliedAll(bundle: Bundle, kinds: seq<Kind>): Bundle
    decreases |kinds|
  {
    if kinds == [] then bundle else AppliedAll(Applied(bundle, kinds[0]), kinds[1..])
  }

  /** Whatever the bundle was like, the commands of the last turn leave the newest icon, or no mark at
    all. */
  lemma LastTurnLeaves(actions: seq<Action>, q: Queue, bundle: Bundle)
    requires RanFor(actions, q)
    ensures
      var icon := Asked(actions)[|Asked(actions)| - 1];
      var after := AppliedAll(bundle, q.finished[|q.finished| - 1].ran);
      if icon == Classic then after == Bundle(None, false, false) else after.icon == Some(icon)
  {
    var icon := Asked(actions)[|Asked(actions)| - 1];
    if icon == Classic {
      AppliedThree(bundle, ClearAppKitIcon, ClearFinderInfo, ClearResourceFork);
    } else {
      AppliedOne(bundle, SetCustomIcon(icon));
    }
  }

  lemma AppliedOne(bundle: Bundle, a: Kind)
    ensures AppliedAll(bundle, [a]) == Applied(bundle, a)
  {
    assert [a][1..] == [];
  }

  lemma AppliedThree(bundle: Bundle, a: Kind, b: Kind, c: Kind)
    ensures AppliedAll(bundle, [a, b, c]) == Applied(Applied(Applied(bundle, a), b), c)
  {
    assert [a, b, c][1..] == [b, c] && [b, c][1..] == [c];
    AppliedOne(Applied(Applied(bundle, a), b), c);
  }

  /** The newest request has won: its turn was the last.  Of all commands started before it, when it
    began, and of all commands, now, the processes are alive only if they never exited and were given
    up on. */
  ghost predicate NewestWon(actions: seq<Action>)
    requires Possible(IDLE, actions)
  {
    var q := Run(IDLE, actions);
    && RanNewest(q) && RanFor(actions, q)
    && MetOnlySurvivors(actions, q.finished[|q.finished| - 1])
    && |q.finished[|q.finished| - 1].earlier| == Started(q.finished[..|q.finished| - 1])
    && |All(q)| == Started(q.finished)
    && OnlySurvivors(All(q), q.now, Starts(IDLE, actions), Exits(IDLE, actions))
  }

  lemma LastRanNewest(actions: seq<Action>)
    requires Possible(IDLE, actions)
    requires Run(IDLE, actions).pending == [] && Run(IDLE, actions).current.None?
    requires Run(IDLE, actions).requests != []
    ensures RanNewest(Run(IDLE, actions))
  {
    RunKeeps(IDLE, actions);
    DrainedTurn(Run(IDLE, actions));
  }

  lemma LastRanFor(actions: seq<Action>)
    requires Possible(IDLE, actions) && RanNewest(Run(IDLE, actions))
    ensures RanFor(actions, Run(IDLE, actions))
  {
    RequestsFromIdle(actions);
    PlanIs(Asked(actions)[|Asked(actions)| - 1]);
  }

  lemma DrainedAll(actions: seq<Action>)
    requires Possible(IDLE, actions) && Run(IDLE, actions).current.None?
    ensures
      var q := Run(IDLE, actions);
      && |All(q)| == Started(q.finished)
      && OnlySurvivors(All(q), q.now, Starts(IDLE, actions), Exits(IDLE, actions))
  {
    var q := Run(IDLE, actions);
    RunFromIdle(actions);
    ReleasedSettled(q.past, q.now);
    assert All(q) == q.past && Turns(q) == q.finished;
    ReleasedSurvivors(actions);
  }

  /** Once the queue has drained, the newest request has won. */
  lemma LastWriterWins(actions: seq<Action>)
    requires Possible(IDLE, actions)
    requires Run(IDLE, actions).pending == [] && Run(IDLE, actions).current.None?
    requires Run(IDLE, actions).requests != []
    ensures NewestWon(actions)
  {
    LastRanNewest(actions);
    LastRanFor(actions);
    var last := |Run(IDLE, actions).finished| - 1;
    assert Turns(Run(IDLE, actions)) == Run(IDLE, actions).finished;
    EarlierProcessesDead(actions, last);
    DrainedAll(actions);
  }
}
