/** The serialized queue of dock icon writes (src/main/app-icon.ts, `persistMacDockIcon`,
  `enqueueMacDockIconPersistence`, `clearMacCustomIconMetadata`): the last request wins. */
module DockIconQueue {
  import opened Wrappers
  import opened DockIconCommand

  datatype Icon = Classic | Watercolor | Blue

  datatype Kind = SetCustomIcon(icon: Icon) | ClearAppKitIcon | ClearFinderInfo | ClearResourceFork

  /** The groups of commands a turn runs, one group after the other, the members of a group side
    by side. */
  function Plan(icon: Icon): seq<seq<Kind>> {
    if icon == Classic then [[ClearAppKitIcon], [ClearFinderInfo, ClearResourceFork]]
    else [[SetCustomIcon(icon)]]
  }

  datatype Request = Request(generation: nat, icon: Icon)

  /** A turn whose generation check passed.  `newest` is the newest request when it began, `ran`
    lists the commands started so far, and `earlier` are the commands of the turns before it as
    they were when it began. */
  datatype Turn = Turn(
    request: Request, newest: nat, groups: nat, ran: seq<Kind>, began: nat, earlier: seq<Command>)

  /** `requests` records every request made; its length is the module's generation counter.
    `live` holds the commands of the current group, `past` those of all groups before it. */
  datatype Queue = Queue(
    requests: seq<Icon>,
    pending: seq<Request>,
    current: Option<Turn>,
    live: seq<Command>,
    past: seq<Command>,
    finished: seq<Turn>,
    now: nat
  )

  const IDLE := Queue([], [], None, [], [], [], 0)

  datatype Action =
    | Ask(icon: Icon)
    | BeginTurn(execs: seq<ExecOutcome>)
    | Deliver(k: nat, event: Event)
    | DeliverLate(k: nat, event: Event)
    | NextGroup(execs: seq<ExecOutcome>)
    | EndTurn
    | Elapse(until: nat)

  predicate AllSettled(live: seq<Command>) {
    forall c :: c in live ==> c.settled
  }

  function Launch(now: nat, execs: seq<ExecOutcome>): seq<Command> {
    seq(|execs|, i requires 0 <= i < |execs| => Launched(now, execs[i]))
  }

  /** Starting the next group of a turn's plan. */
  function WithGroup(q: Queue, turn: Turn, execs: seq<ExecOutcome>): Queue
    requires turn.groups < |Plan(turn.request.icon)|
  {
    var group := Plan(turn.request.icon)[turn.groups];
    q.(current := Some(turn.(groups := turn.groups + 1, ran := turn.ran + group)),
       live := Launch(q.now, execs), past := q.past + q.live)
  }

  function GroupSize(icon: Icon, groups: nat): nat {
    if groups < |Plan(icon)| then |Plan(icon)[groups]| else 0
  }

  predicate Can(q: Queue, a: Action) {
    match a
    case Ask(icon) => true
    case BeginTurn(execs) => q.current.None? && q.pending != [] && |execs| == GroupSize(q.pending[0].icon, 0)
    case Deliver(k, event) => k < |q.live| && Enabled(q.live[k], event, q.now)
    case DeliverLate(k, event) => k < |q.past| && Enabled(q.past[k], event, q.now)
    case NextGroup(execs) =>
      && q.current.Some? && AllSettled(q.live)
      && q.current.value.groups < |Plan(q.current.value.request.icon)|
      && |execs| == GroupSize(q.current.value.request.icon, q.current.value.groups)
    case EndTurn =>
      q.current.Some? && AllSettled(q.live) && q.current.value.groups == |Plan(q.current.value.request.icon)|
    case Elapse(until) => q.now <= until && forall c :: c in q.live ==> MayPass(c, until)
  }

  function NewTurn(q: Queue, request: Request): Turn {
    Turn(request, |q.requests|, 0, [], q.now, q.past + q.live)
  }

  /** One step.  A turn whose request is no longer the newest ends at once. */
  function After(q: Queue, a: Action): Queue
    requires Can(q, a)
  {
    match a
    case Ask(icon) =>
      var requests := q.requests + [icon];
      q.(requests := requests, pending := q.pending + [Request(|requests|, icon)])
    case BeginTurn(execs) =>
      var request := q.pending[0];
      var rest := q.(pending := q.pending[1..]);
      if request.generation != |q.requests| then rest
      else WithGroup(rest, NewTurn(q, request), execs)
    case Deliver(k, event) => q.(live := q.live[k := Handle(q.live[k], event, q.now)])
    case DeliverLate(k, event) => q.(past := q.past[k := Handle(q.past[k], event, q.now)])
    case NextGroup(execs) => WithGroup(q, q.current.value, execs)
    case EndTurn =>
      q.(current := None, live := [], past := q.past + q.live, finished := q.finished + [q.current.value])
    case Elapse(until) => q.(now := until)
  }

  ghost predicate Possible(q: Queue, actions: seq<Action>)
    decreases |actions|
  {
    actions == [] || (Can(q, actions[0]) && Possible(After(q, actions[0]), actions[1..]))
  }

  function Run(q: Queue, actions: seq<Action>): Queue
    requires Possible(q, actions)
    decreases |actions|
  {
    if actions == [] then q else Run(After(q, actions[0]), actions[1..])
  }

  // ----- Invariants

  function Flat(plan: seq<seq<Kind>>): seq<Kind> {
    if plan == [] then [] else plan[0] + Flat(plan[1..])
  }

  /** The turn ran a prefix of its plan, was the newest request when it began, and carries the
    icon that was requested. */
  predicate GoodTurn(requests: seq<Icon>, t: Turn) {
    && 1 <= t.request.generation == t.newest <= |requests|
    && t.request.icon == requests[t.request.generation - 1]
    && t.groups <= |Plan(t.request.icon)|
    && t.ran == Flat(Plan(t.request.icon)[..t.groups])
  }

  /** Every turn that passed its check, in the order in which they ran. */
  function Turns(q: Queue): seq<Turn> {
    if q.current.Some? then q.finished + [q.current.value] else q.finished
  }

  predicate RequestsInOrder(q: Queue) {
    && (forall i :: 0 <= i < |q.pending| ==>
          && 1 <= q.pending[i].generation <= |q.requests|
          && q.pending[i].icon == q.requests[q.pending[i].generation - 1])
    && (forall i, j :: 0 <= i < j < |q.pending| ==> q.pending[i].generation < q.pending[j].generation)
    && (q.pending != [] ==> q.pending[|q.pending| - 1].generation == |q.requests|)
  }

  /** Generations ascend along the turns. */
  predicate Ascending(turns: seq<Turn>) {
    forall i, j :: 0 <= i < j < |turns| ==> turns[i].request.generation < turns[j].request.generation
  }

  predicate Precede(turns: seq<Turn>, pending: seq<Request>) {
    forall t, r :: t in turns && r in pending ==> t.request.generation < r.generation
  }

  predicate AllGood(requests: seq<Icon>, turns: seq<Turn>) {
    forall t :: t in turns ==> GoodTurn(requests, t)
  }

  predicate AllComplete(turns: seq<Turn>) {
    forall t :: t in turns ==> t.groups == |Plan(t.request.icon)|
  }

  predicate TurnsInOrder(q: Queue) {
    && AllGood(q.requests, Turns(q))
    && Ascending(Turns(q))
    && Precede(Turns(q), q.pending)
    && AllComplete(q.finished)
    && (q.pending == [] && q.requests != [] ==>
          Turns(q) != [] && Turns(q)[|Turns(q)| - 1].request.generation == |q.requests|)
  }

  predicate LiveSound(q: Queue) {
    && (q.current.None? ==> q.live == [])
    && (forall c :: c in q.live ==> Sound(c, q.now))
    && AllReleased(q.past, q.now)
  }

  /** The commands of groups that are over have released the queue. */
  predicate AllReleased(past: seq<Command>, now: nat) {
    forall c :: c in past ==> c.settled && Sound(c, now)
  }

  lemma ReleasedConcat(past: seq<Command>, live: seq<Command>, now: nat)
    requires AllReleased(past, now) && AllSettled(live) && forall c :: c in live ==> Sound(c, now)
    ensures AllReleased(past + live, now)
  {
  }

  predicate Good(q: Queue) {
    RequestsInOrder(q) && TurnsInOrder(q) && LiveSound(q)
  }

  lemma MoreRequests(requests: seq<Icon>, icon: Icon, turns: seq<Turn>)
    requires AllGood(requests, turns)
    ensures AllGood(requests + [icon], turns)
  {
    forall t | t in turns ensures GoodTurn(requests + [icon], t) {
      assert GoodTurn(requests, t);
    }
  }

  lemma AskInOrder(q: Queue, icon: Icon)
    requires RequestsInOrder(q)
    ensures RequestsInOrder(After(q, Ask(icon)))
  {
    var next := After(q, Ask(icon));
    forall i | 0 <= i < |next.pending|
      ensures 1 <= next.pending[i].generation <= |next.requests|
      ensures next.pending[i].icon == next.requests[next.pending[i].generation - 1]
    {
      assert i < |q.pending| ==> next.pending[i] == q.pending[i];
    }
  }

  lemma PrecedeNewest(requests: seq<Icon>, turns: seq<Turn>, pending: seq<Request>, r: Request)
    requires AllGood(requests, turns) && Precede(turns, pending) && r.generation == |requests| + 1
    ensures Precede(turns, pending + [r])
  {
    forall t, s | t in turns && s in pending + [r] ensures t.request.generation < s.generation {
      assert GoodTurn(requests, t);
    }
  }

  lemma AskKeeps(q: Queue, icon: Icon)
    requires Good(q)
    ensures Good(After(q, Ask(icon)))
  {
    AskInOrder(q, icon);
    MoreRequests(q.requests, icon, Turns(q));
    PrecedeNewest(q.requests, Turns(q), q.pending, Request(|q.requests| + 1, icon));
    assert Turns(After(q, Ask(icon))) == Turns(q);
  }

  lemma FlatSnoc(plan: seq<seq<Kind>>, groups: nat)
    requires groups < |plan| <= 2
    ensures Flat(plan[..groups + 1]) == Flat(plan[..groups]) + plan[groups]
  {
    if groups == 0 {
      assert plan[..1] == [plan[0]] && plan[..1][1..] == [] && plan[..0] == [];
    } else {
      assert plan[..2] == [plan[0], plan[1]] && plan[..2][1..] == [plan[1]] && [plan[1]][1..] == [];
      assert plan[..1] == [plan[0]] && plan[..1][1..] == [];
    }
  }

  lemma LaunchedSound(now: nat, execs: seq<ExecOutcome>)
    ensures forall c :: c in Launch(now, execs) ==> Sound(c, now)
  {
    forall i | 0 <= i < |execs| ensures Sound(Launch(now, execs)[i], now) {
      LaunchSound(now, execs[i]);
    }
  }

  lemma SkipKeeps(q: Queue)
    requires Good(q) && q.current.None? && q.pending != [] && q.pending[0].generation != |q.requests|
    ensures Good(q.(pending := q.pending[1..]))
  {
    assert |q.pending| > 1;
    var next := q.(pending := q.pending[1..]);
    TailInOrder(q);
    PrecedeTail(Turns(q), q.pending);
    assert Turns(next) == Turns(q);
  }

  lemma TailInOrder(q: Queue)
    requires RequestsInOrder(q) && |q.pending| > 1
    ensures RequestsInOrder(q.(pending := q.pending[1..]))
  {
  }

  lemma PrecedeTail(turns: seq<Turn>, pending: seq<Request>)
    requires Precede(turns, pending) && pending != []
    ensures Precede(turns, pending[1..])
  {
    assert forall r :: r in pending[1..] ==> r in pending;
  }

  lemma TurnsSnoc(requests: seq<Icon>, turns: seq<Turn>, t: Turn)
    requires AllGood(requests, turns) && Ascending(turns) && GoodTurn(requests, t)
    requires forall s :: s in turns ==> s.request.generation < t.request.generation
    ensures AllGood(requests, turns + [t]) && Ascending(turns + [t])
  {
  }

  lemma StartKeeps(q: Queue, execs: seq<ExecOutcome>)
    requires Good(q) && q.current.None? && q.pending != [] && q.pending[0].generation == |q.requests|
    ensures
      var turn := NewTurn(q, q.pending[0]);
      Good(WithGroup(q.(pending := q.pending[1..]), turn, execs))
  {
    var request := q.pending[0];
    var next := WithGroup(q.(pending := q.pending[1..]), NewTurn(q, request), execs);
    assert request in q.pending && |q.pending| == 1;
    FlatSnoc(Plan(request.icon), 0);
    assert Flat(Plan(request.icon)[..0]) == [];
    LaunchedSound(q.now, execs);
    TurnsSnoc(q.requests, Turns(q), next.current.value);
    ReleasedConcat(q.past, q.live, q.now);
  }

  lemma BeginKeeps(q: Queue, execs: seq<ExecOutcome>)
    requires Good(q) && Can(q, BeginTurn(execs))
    ensures Good(After(q, BeginTurn(execs)))
  {
    if q.pending[0].generation != |q.requests| {
      SkipKeeps(q);
    } else {
      StartKeeps(q, execs);
    }
  }

  lemma DeliverKeeps(q: Queue, k: nat, event: Event)
    requires Good(q) && Can(q, Deliver(k, event))
    ensures Good(After(q, Deliver(k, event)))
  {
    var next := After(q, Deliver(k, event));
    assert q.live[k] in q.live;
    HandleSound(q.live[k], event, q.now);
    SameTurns(q, next);
  }

  lemma DeliverLateKeeps(q: Queue, k: nat, event: Event)
    requires Good(q) && Can(q, DeliverLate(k, event))
    ensures Good(After(q, DeliverLate(k, event)))
  {
    assert q.past[k] in q.past;
    HandleSound(q.past[k], event, q.now);
    SameTurns(q, After(q, DeliverLate(k, event)));
  }

  lemma SameTurns(q: Queue, next: Queue)
    requires RequestsInOrder(q) && TurnsInOrder(q)
    requires next.requests == q.requests && next.pending == q.pending
    requires next.current == q.current && next.finished == q.finished
    ensures RequestsInOrder(next) && TurnsInOrder(next)
  {
    SameOrder(q, next);
  }

  /** What the order of turns depends on. */
  lemma SameOrder(q: Queue, next: Queue)
    requires RequestsInOrder(q) && TurnsInOrder(q)
    requires next.requests == q.requests && next.pending == q.pending && Turns(next) == Turns(q)
    requires AllComplete(next.finished)
    ensures RequestsInOrder(next) && TurnsInOrder(next)
  {
  }

  lemma CurrentIsLast(q: Queue)
    requires Good(q) && q.current.Some?
    ensures GoodTurn(q.requests, q.current.value)
    ensures AllGood(q.requests, q.finished) && Ascending(q.finished)
    ensures forall t :: t in q.finished ==> t.request.generation < q.current.value.request.generation
    ensures Precede(q.finished, q.pending)
    ensures forall r :: r in q.pending ==> q.current.value.request.generation < r.generation
  {
    var turns, last := Turns(q), q.current.value;
    assert turns[|turns| - 1] == last && last in turns;
    forall i | 0 <= i < |q.finished|
      ensures q.finished[i] in turns && q.finished[i].request.generation < last.request.generation
    {
      assert turns[i] == q.finished[i];
    }
    forall i, j | 0 <= i < j < |q.finished|
      ensures q.finished[i].request.generation < q.finished[j].request.generation
    {
      assert turns[i] == q.finished[i] && turns[j] == q.finished[j];
    }
  }

  lemma GroupGood(q: Queue, turn: Turn, execs: seq<ExecOutcome>)
    requires GoodTurn(q.requests, turn) && turn.groups < |Plan(turn.request.icon)|
    ensures GoodTurn(q.requests, WithGroup(q, turn, execs).current.value)
  {
    FlatSnoc(Plan(turn.request.icon), turn.groups);
  }

  /** A turn may grow in place. */
  lemma GrowInOrder(requests: seq<Icon>, turns: seq<Turn>, turn: Turn, grown: Turn, pending: seq<Request>)
    requires AllGood(requests, turns + [turn]) && Ascending(turns + [turn]) && Precede(turns + [turn], pending)
    requires GoodTurn(requests, grown) && grown.request == turn.request
    ensures AllGood(requests, turns + [grown]) && Ascending(turns + [grown]) && Precede(turns + [grown], pending)
  {
    var before, after := turns + [turn], turns + [grown];
    assert before[|turns|] == turn && turn in before;
    forall i | 0 <= i < |after|
      ensures after[i].request == before[i].request && GoodTurn(requests, after[i]) && before[i] in before
    {
      assert i < |turns| ==> after[i] == before[i];
      assert GoodTurn(requests, before[i]);
    }
  }

  lemma NextGroupInOrder(q: Queue, execs: seq<ExecOutcome>)
    requires Good(q) && Can(q, NextGroup(execs))
    ensures RequestsInOrder(After(q, NextGroup(execs))) && TurnsInOrder(After(q, NextGroup(execs)))
  {
    var turn := q.current.value;
    var grown := After(q, NextGroup(execs)).current.value;
    assert turn in Turns(q);
    GroupGood(q, turn, execs);
    GrowInOrder(q.requests, q.finished, turn, grown, q.pending);
  }

  lemma NextGroupKeeps(q: Queue, execs: seq<ExecOutcome>)
    requires Good(q) && Can(q, NextGroup(execs))
    ensures Good(After(q, NextGroup(execs)))
  {
    NextGroupInOrder(q, execs);
    ReleasedConcat(q.past, q.live, q.now);
    LaunchedSound(q.now, execs);
  }

  lemma CompleteSnoc(turns: seq<Turn>, t: Turn)
    requires AllComplete(turns) && t.groups == |Plan(t.request.icon)|
    ensures AllComplete(turns + [t])
  {
  }

  lemma EndKeeps(q: Queue)
    requires Good(q) && Can(q, EndTurn)
    ensures Good(After(q, EndTurn))
  {
    var next := After(q, EndTurn);
    CompleteSnoc(q.finished, q.current.value);
    SameOrder(q, next);
    ReleasedConcat(q.past, q.live, q.now);
  }

  lemma ElapseKeeps(q: Queue, until: nat)
    requires Good(q) && Can(q, Elapse(until))
    ensures Good(After(q, Elapse(until)))
  {
    forall c | c in q.live ensures Sound(c, until) {
      PassSound(c, q.now, until);
    }
    forall c | c in q.past ensures Sound(c, until) {
      PassSound(c, q.now, until);
    }
    SameTurns(q, After(q, Elapse(until)));
  }

  lemma StepKeeps(q: Queue, a: Action)
    requires Good(q) && Can(q, a)
    ensures Good(After(q, a))
  {
    match a
    case Ask(icon) => AskKeeps(q, icon);
    case BeginTurn(execs) => BeginKeeps(q, execs);
    case Deliver(k, event) => DeliverKeeps(q, k, event);
    case DeliverLate(k, event) => DeliverLateKeeps(q, k, event);
    case NextGroup(execs) => NextGroupKeeps(q, execs);
    case EndTurn => EndKeeps(q);
    case Elapse(until) => ElapseKeeps(q, until);
  }

  lemma {:induction false} RunKeeps(q: Queue, actions: seq<Action>)
    requires Good(q) && Possible(q, actions)
    ensures Good(Run(q, actions))
    decreases |actions|
  {
    if actions != [] {
      StepKeeps(q, actions[0]);
      RunKeeps(After(q, actions[0]), actions[1..]);
    }
  }

  // ----- What becomes of every command

  /** How many commands the turns have started. */
  function Started(turns: seq<Turn>): nat {
    if turns == [] then 0 else Started(turns[..|turns| - 1]) + |turns[|turns| - 1].ran|
  }

  /** Each turn met exactly the commands that the turns before it had started. */
  ghost predicate Counted(turns: seq<Turn>) {
    forall i :: 0 <= i < |turns| ==> |turns[i].earlier| == Started(turns[..i])
  }

  ghost predicate AllTraced(commands: seq<Command>, now: nat) {
    forall c :: c in commands ==> Traced(c, now)
  }

  ghost predicate EarlierTraced(turns: seq<Turn>) {
    forall t :: t in turns ==> AllTraced(t.earlier, t.began) && AllSettled(t.earlier)
  }

  /** Every command ever started is still accounted for, and is what a run of its own made of it. */
  ghost predicate Accounted(q: Queue) {
    && |q.past| + |q.live| == Started(Turns(q))
    && Counted(Turns(q))
    && AllTraced(q.live, q.now) && AllTraced(q.past, q.now)
    && EarlierTraced(Turns(q))
  }

  lemma StartedSnoc(turns: seq<Turn>, t: Turn)
    requires Counted(turns) && |t.earlier| == Started(turns)
    ensures Started(turns + [t]) == Started(turns) + |t.ran|
    ensures Counted(turns + [t])
  {
    var all := turns + [t];
    assert all[..|turns|] == turns;
    forall i | 0 <= i < |turns| ensures |all[i].earlier| == Started(all[..i]) {
      assert all[..i] == turns[..i];
    }
  }

  lemma StartedInit(turns: seq<Turn>, t: Turn)
    requires Counted(turns + [t])
    ensures Counted(turns) && |t.earlier| == Started(turns)
    ensures Started(turns + [t]) == Started(turns) + |t.ran|
  {
    var all := turns + [t];
    assert all[..|turns|] == turns && all[|turns|] == t;
    forall i | 0 <= i < |turns| ensures |turns[i].earlier| == Started(turns[..i]) {
      assert all[i] == turns[i] && all[..i] == turns[..i];
    }
  }

  lemma EarlierSnoc(turns: seq<Turn>, t: Turn)
    requires EarlierTraced(turns) && AllTraced(t.earlier, t.began) && AllSettled(t.earlier)
    ensures EarlierTraced(turns + [t])
  {
  }

  lemma EarlierInit(turns: seq<Turn>, t: Turn)
    requires EarlierTraced(turns + [t])
    ensures EarlierTraced(turns) && AllTraced(t.earlier, t.began) && AllSettled(t.earlier)
  {
    assert t in turns + [t];
    assert forall u :: u in turns ==> u in turns + [t];
  }

  lemma LaunchAllTraced(now: nat, execs: seq<ExecOutcome>)
    ensures AllTraced(Launch(now, execs), now)
  {
    forall i | 0 <= i < |execs| ensures Traced(Launch(now, execs)[i], now) {
      LaunchTraced(now, execs[i]);
    }
  }

  lemma TracedConcat(a: seq<Command>, b: seq<Command>, now: nat)
    requires AllTraced(a, now) && AllTraced(b, now)
    ensures AllTraced(a + b, now)
  {
  }

  lemma TracedUpdate(commands: seq<Command>, now: nat, k: nat, event: Event)
    requires AllTraced(commands, now) && k < |commands| && Enabled(commands[k], event, now)
    ensures AllTraced(commands[k := Handle(commands[k], event, now)], now)
  {
    assert commands[k] in commands;
    HandleTraced(commands[k], now, event);
  }

  lemma TracedPass(commands: seq<Command>, now: nat, until: nat)
    requires AllTraced(commands, now) && now <= until && forall c :: c in commands ==> MayPass(c, until)
    ensures AllTraced(commands, until)
  {
    forall c | c in commands ensures Traced(c, until) {
      PassTraced(c, now, until);
    }
  }

  lemma ReleasedMayPass(past: seq<Command>, now: nat, until: nat)
    requires AllReleased(past, now)
    ensures forall c :: c in past ==> MayPass(c, until)
  {
  }

  lemma ReleasedSettled(past: seq<Command>, now: nat)
    requires AllReleased(past, now)
    ensures AllSettled(past)
  {
  }

  /** The accounts after a group has started, given the turns before its own. */
  lemma GroupAccounted(q: Queue, before: seq<Turn>, turn: Turn, execs: seq<ExecOutcome>)
    requires turn.groups < |Plan(turn.request.icon)| && |execs| == GroupSize(turn.request.icon, turn.groups)
    requires before == q.finished
    requires Counted(before) && EarlierTraced(before) && |turn.earlier| == Started(before)
    requires AllTraced(turn.earlier, turn.began) && AllSettled(turn.earlier)
    requires AllTraced(q.live, q.now) && AllTraced(q.past, q.now)
    requires |q.past| + |q.live| == Started(before) + |turn.ran|
    ensures Accounted(WithGroup(q, turn, execs))
  {
    var next := WithGroup(q, turn, execs);
    var grown := next.current.value;
    assert Turns(next) == before + [grown];
    StartedSnoc(before, grown);
    EarlierSnoc(before, grown);
    LaunchAllTraced(q.now, execs);
    TracedConcat(q.past, q.live, q.now);
  }

  lemma BeginAccounted(q: Queue, execs: seq<ExecOutcome>)
    requires Good(q) && Accounted(q) && Can(q, BeginTurn(execs))
    ensures Accounted(After(q, BeginTurn(execs)))
  {
    var rest := q.(pending := q.pending[1..]);
    if q.pending[0].generation != |q.requests| {
      assert Turns(rest) == Turns(q);
    } else {
      TracedConcat(q.past, q.live, q.now);
      ReleasedSettled(q.past, q.now);
      GroupAccounted(rest, q.finished, NewTurn(q, q.pending[0]), execs);
    }
  }

  lemma NextGroupAccounted(q: Queue, execs: seq<ExecOutcome>)
    requires Good(q) && Accounted(q) && Can(q, NextGroup(execs))
    ensures Accounted(After(q, NextGroup(execs)))
  {
    StartedInit(q.finished, q.current.value);
    EarlierInit(q.finished, q.current.value);
    GroupAccounted(q, q.finished, q.current.value, execs);
  }

  lemma EndAccounted(q: Queue)
    requires Accounted(q) && Can(q, EndTurn)
    ensures Accounted(After(q, EndTurn))
  {
    assert Turns(After(q, EndTurn)) == Turns(q);
    TracedConcat(q.past, q.live, q.now);
  }

  lemma SameTurnsAccounted(q: Queue, next: Queue)
    requires Accounted(q) && next.current == q.current && next.finished == q.finished
    requires |next.live| == |q.live| && |next.past| == |q.past|
    requires AllTraced(next.live, next.now) && AllTraced(next.past, next.now)
    ensures Accounted(next)
  {
    assert Turns(next) == Turns(q);
  }

  lemma ElapseAccounted(q: Queue, until: nat)
    requires Good(q) && Accounted(q) && Can(q, Elapse(until))
    ensures Accounted(After(q, Elapse(until)))
  {
    ReleasedMayPass(q.past, q.now, until);
    TracedPass(q.live, q.now, until);
    TracedPass(q.past, q.now, until);
    SameTurnsAccounted(q, After(q, Elapse(until)));
  }

  lemma DeliverAccounted(q: Queue, k: nat, event: Event)
    requires Accounted(q) && Can(q, Deliver(k, event))
    ensures Accounted(After(q, Deliver(k, event)))
  {
    TracedUpdate(q.live, q.now, k, event);
    SameTurnsAccounted(q, After(q, Deliver(k, event)));
  }

  lemma DeliverLateAccounted(q: Queue, k: nat, event: Event)
    requires Accounted(q) && Can(q, DeliverLate(k, event))
    ensures Accounted(After(q, DeliverLate(k, event)))
  {
    TracedUpdate(q.past, q.now, k, event);
    SameTurnsAccounted(q, After(q, DeliverLate(k, event)));
  }

  lemma StepAccounted(q: Queue, a: Action)
    requires Good(q) && Accounted(q) && Can(q, a)
    ensures Accounted(After(q, a))
  {
    match a
    case Ask(icon) => SameTurnsAccounted(q, After(q, a));
    case BeginTurn(execs) => BeginAccounted(q, execs);
    case Deliver(k, event) => DeliverAccounted(q, k, event);
    case DeliverLate(k, event) => DeliverLateAccounted(q, k, event);
    case NextGroup(execs) => NextGroupAccounted(q, execs);
    case EndTurn => EndAccounted(q);
    case Elapse(until) => ElapseAccounted(q, until);
  }

  lemma {:induction false} RunAccounted(q: Queue, actions: seq<Action>)
    requires Good(q) && Accounted(q) && Possible(q, actions)
    ensures Good(Run(q, actions)) && Accounted(Run(q, actions))
    decreases |actions|
  {
    if actions != [] {
      StepKeeps(q, actions[0]);
      StepAccounted(q, actions[0]);
      RunAccounted(After(q, actions[0]), actions[1..]);
    }
  }

  // ----- Main results, over all interleavings of requests, callbacks, exits and timers

  /** Commands run in request order, and each turn was the newest request when it began. */
  lemma TurnsFollowRequests(actions: seq<Action>)
    requires Possible(IDLE, actions)
    ensures
      var turns := Turns(Run(IDLE, actions));
      && (forall i, j :: 0 <= i < j < |turns| ==> turns[i].request.generation < turns[j].request.generation)
      && (forall t :: t in turns ==> t.request.generation == t.newest)
  {
    RunKeeps(IDLE, actions);
    var q := Run(IDLE, actions);
    assert forall t :: t in Turns(q) ==> GoodTurn(q.requests, t);
  }

  lemma RunFromIdle(actions: seq<Action>)
    requires Possible(IDLE, actions)
    ensures Good(Run(IDLE, actions)) && Accounted(Run(IDLE, actions))
  {
    assert Turns(IDLE) == [];
    RunAccounted(IDLE, actions);
  }

  /** The last turn ran the whole plan of the newest request. */
  predicate RanNewest(q: Queue) {
    && q.requests != [] && q.finished != []
    && var newest, last := q.requests[|q.requests| - 1], q.finished[|q.finished| - 1];
    && last.request == Request(|q.requests|, newest)
    && last.ran == Flat(Plan(newest))
  }

  lemma DrainedTurn(q: Queue)
    requires TurnsInOrder(q) && q.pending == [] && q.current.None? && q.requests != []
    ensures RanNewest(q)
  {
    var last := q.finished[|q.finished| - 1];
    assert last in q.finished && GoodTurn(q.requests, last);
    WholePlan(Plan(last.request.icon));
  }

  lemma WholePlan(plan: seq<seq<Kind>>)
    ensures plan[..|plan|] == plan
  {
  }

  /** In every run each command, of the current group or an earlier one, has released the queue at
    most once, and has done so 12 seconds after its start; none is ever dropped from the account. */
  lemma CommandsAreBounded(actions: seq<Action>)
    requires Possible(IDLE, actions)
    ensures
      var q := Run(IDLE, actions);
      && |q.past| + |q.live| == Started(Turns(q))
      && forall c :: c in q.past + q.live ==>
           c.releases <= 1 && (q.now > c.startedAt + RELEASE_BOUND_MS ==> c.settled && c.releases == 1)
  {
    RunFromIdle(actions);
    var q := Run(IDLE, actions);
    forall c | c in q.past + q.live
      ensures c.releases <= 1 && (q.now > c.startedAt + RELEASE_BOUND_MS ==> c.settled && c.releases == 1)
    {
      assert Sound(c, q.now);
    }
  }

  // ----- The module's state

  /** The generation counter and the promise queue, advanced one callback at a time. */
  class Persistence {
    var requests: seq<Icon>
    var pending: seq<Request>
    var current: Option<Turn>
    var live: seq<Command>
    var past: seq<Command>
    var finished: seq<Turn>
    var now: nat

    ghost function View(): Queue
      reads this
    {
      Queue(requests, pending, current, live, past, finished, now)
    }

    constructor ()
      ensures View() == IDLE && Good(View())
    {
      requests, pending, current, live, past, finished, now := [], [], None, [], [], [], 0;
    }

    /** `persistMacDockIcon`: nothing happens off macOS, in a development build, or without an app
      bundle. */
    method PersistMacDockIcon(icon: Icon, isMac: bool, isDevApp: bool, appBundlePath: Option<string>)
      requires Good(View())
      modifies this
      ensures Good(View())
      ensures View() == if isMac && !isDevApp && appBundlePath.Some? && appBundlePath.value != ""
                        then After(old(View()), Ask(icon)) else old(View())
    {
      if !isMac || isDevApp {
        return;
      }
      if appBundlePath.None? || appBundlePath.value == "" {
        return;
      }
      AskKeeps(View(), icon);
      requests := requests + [icon];
      var generation := |requests|;
      pending := pending + [Request(generation, icon)];
    }

    /** The queued callback: stale writes return without running a command. */
    method BeginNextTurn(execs: seq<ExecOutcome>)
      requires Good(View()) && Can(View(), BeginTurn(execs))
      modifies this
      ensures View() == After(old(View()), BeginTurn(execs)) && Good(View())
    {
      BeginKeeps(View(), execs);
      var request := pending[0];
      pending := pending[1..];
      if request.generation != |requests| {
        return;
      }
      StartGroup(Turn(request, |requests|, 0, [], now, past + live), execs);
    }

    method StartGroup(turn: Turn, execs: seq<ExecOutcome>)
      requires turn.groups < |Plan(turn.request.icon)|
      modifies this`current, this`live, this`past
      ensures View() == WithGroup(old(View()), turn, execs)
    {
      var group := Plan(turn.request.icon)[turn.groups];
      current := Some(turn.(groups := turn.groups + 1, ran := turn.ran + group));
      past := past + live;
      live := Launch(now, execs);
    }

    method FinishTurn()
      requires current.Some?
      modifies this`current, this`live, this`past, this`finished
      ensures View() == old(View()).(
        current := None, live := [], past := old(past + live), finished := old(finished + [current.value]))
    {
      current, live, past, finished := None, [], past + live, finished + [current.value];
    }

    /** All commands of the group have released: the turn goes on or ends. */
    method ContinueTurn(execs: seq<ExecOutcome>)
      requires Good(View()) && (Can(View(), NextGroup(execs)) || Can(View(), EndTurn))
      modifies this
      ensures Good(View())
      ensures View() == if old(Can(View(), EndTurn)) then old(After(View(), EndTurn))
                        else old(After(View(), NextGroup(execs)))
    {
      var turn := current.value;
      if turn.groups == |Plan(turn.request.icon)| {
        EndKeeps(View());
        FinishTurn();
      } else {
        NextGroupKeeps(View(), execs);
        StartGroup(turn, execs);
      }
    }
  }
}
