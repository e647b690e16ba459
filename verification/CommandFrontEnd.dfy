/** Validating and dispatching a command (src/cli/args.ts, registry-parity.ts, dispatch.ts,
  index.ts). */
module CommandFrontEnd {
  import opened Wrappers
  import opened CommandSpecs
  import opened StringOps
  import opened CommandArgs
  import opened CommandNormalizing

  // ----- Finding a spec

  predicate Reaches(spec: CommandSpec, commandPath: Path) {
    commandPath in SpecPaths(spec)
  }

  function FindCommandSpec(specs: seq<CommandSpec>, commandPath: Path): Option<CommandSpec> {
    if specs == [] then None
    else if Reaches(specs[0], commandPath) then Some(specs[0])
    else FindCommandSpec(specs[1..], commandPath)
  }

  ghost predicate FirstNamed(specs: seq<CommandSpec>, path: Path, i: nat) {
    i < |specs| && Names(path, specs[i]) && forall j :: 0 <= j < i ==> !Names(path, specs[j])
  }

  /** The first spec that the path names is found, or none if it names none. */
  lemma {:induction false} FindCommandSpecFinds(specs: seq<CommandSpec>, commandPath: Path)
    ensures
      match FindCommandSpec(specs, commandPath)
      case None => forall s :: s in specs ==> !Names(commandPath, s)
      case Some(spec) => exists i: nat :: FirstNamed(specs, commandPath, i) && specs[i] == spec
  {
    if specs != [] {
      SpecPathsAreNames(specs[0], commandPath);
      if Names(commandPath, specs[0]) {
        assert FirstNamed(specs, commandPath, 0);
      } else {
        FindCommandSpecFinds(specs[1..], commandPath);
        assert specs == [specs[0]] + specs[1..];
        if FindCommandSpec(specs[1..], commandPath).Some? {
          var i: nat :| FirstNamed(specs[1..], commandPath, i);
          forall j | 0 <= j < i + 1 ensures !Names(commandPath, specs[j]) {
            assert j > 0 ==> specs[j] == specs[1..][j - 1];
          }
          assert FirstNamed(specs, commandPath, i + 1);
        }
      }
    }
  }

  lemma FoundIsNamed(specs: seq<CommandSpec>, path: Path)
    ensures FindCommandSpec(specs, path).Some? ==>
      FindCommandSpec(specs, path).value in specs && Names(path, FindCommandSpec(specs, path).value)
    ensures FindCommandSpec(specs, path).None? <==> forall s :: s in specs ==> !Names(path, s)
  {
    FindCommandSpecFinds(specs, path);
  }

  // ----- Validating

  datatype ValidationError =
    | UnknownCommand
    | PositionalConflict(names: seq<string>)
    | FlagRequiresValue(flag: string)
    | UnknownFlag(flag: string)

  type PageTest = Path -> bool

  predicate FlagAllowed(supportsPage: PageTest, spec: CommandSpec, flag: string) {
    flag in GLOBAL_FLAGS || flag in spec.allowedFlags || (flag == "page" && supportsPage(spec.path))
  }

  predicate LacksValue(flag: string, value: FlagValue) {
    flag in GLOBAL_VALUE_FLAGS && (value == On || value == Text(""))
  }

  /** A global flag, one of the spec's own, or the page flag where the spec takes it. */
  predicate MayStand(supportsPage: PageTest, spec: CommandSpec, flag: string) {
    || flag == "help" || flag == "json" || flag == "pairing-code" || flag == "environment"
    || (exists k :: 0 <= k < |spec.allowedFlags| && spec.allowedFlags[k] == flag)
    || (flag == "page" && supportsPage(spec.path))
  }

  /** The two global flags that need a value have one. */
  predicate HasItsValue(flag: string, value: FlagValue) {
    flag == "pairing-code" || flag == "environment" ==> value.Text? && value.text != ""
  }

  lemma FlagRules(supportsPage: PageTest, spec: CommandSpec, flag: string, value: FlagValue)
    ensures FlagAllowed(supportsPage, spec, flag) <==> MayStand(supportsPage, spec, flag)
    ensures LacksValue(flag, value) <==> !HasItsValue(flag, value)
  {
  }

  /** The path names a command, no positional clashes with a flag, and every flag is in order. */
  ghost predicate Valid(supportsPage: PageTest, specs: seq<CommandSpec>, parsed: Parsed) {
    exists i: nat :: FirstNamed(specs, parsed.commandPath, i)
      && parsed.conflicts == []
      && forall f :: f in parsed.flags ==>
           MayStand(supportsPage, specs[i], f) && HasItsValue(f, parsed.flags[f])
  }

  ghost predicate IsUnknown(specs: seq<CommandSpec>, path: Path) {
    forall s :: s in specs ==> !Names(path, s)
  }

  lemma FirstIsUnique(specs: seq<CommandSpec>, path: Path, i: nat, j: nat)
    requires FirstNamed(specs, path, i) && FirstNamed(specs, path, j)
    ensures i == j
  {
  }

  method ValidateCommandAndFlags(supportsPage: PageTest, specs: seq<CommandSpec>, parsed: Parsed)
    returns (r: Result<(), ValidationError>)
    ensures r.Ok? <==> Valid(supportsPage, specs, parsed)
    ensures r == Err(UnknownCommand) <==> IsUnknown(specs, parsed.commandPath)
    ensures !IsUnknown(specs, parsed.commandPath) && parsed.conflicts != [] ==>
      r == Err(PositionalConflict(parsed.conflicts))
    ensures r.Err? && r.error.PositionalConflict? ==> parsed.conflicts != []
    ensures r.Err? && r.error.UnknownFlag? ==>
      && r.error.flag in parsed.flags
      && exists i: nat :: FirstNamed(specs, parsed.commandPath, i) && !MayStand(supportsPage, specs[i], r.error.flag)
    ensures r.Err? && r.error.FlagRequiresValue? ==>
      r.error.flag in parsed.flags && !HasItsValue(r.error.flag, parsed.flags[r.error.flag])
  {
    FindCommandSpecFinds(specs, parsed.commandPath);
    var found := FindCommandSpec(specs, parsed.commandPath);
    if found.None? {
      return Err(UnknownCommand);
    }
    var spec := found.value;
    ghost var i: nat :| FirstNamed(specs, parsed.commandPath, i) && specs[i] == spec;
    assert specs[i] in specs;
    forall j: nat | FirstNamed(specs, parsed.commandPath, j) ensures j == i {
      FirstIsUnique(specs, parsed.commandPath, i, j);
    }
    if |parsed.conflicts| > 0 {
      return Err(PositionalConflict(parsed.conflicts));
    }
    var rest := parsed.flags.Keys;
    while rest != {}
      invariant rest <= parsed.flags.Keys
      invariant forall f :: f in parsed.flags.Keys - rest ==>
        MayStand(supportsPage, spec, f) && HasItsValue(f, parsed.flags[f])
      decreases |rest|
    {
      var flag :| flag in rest;
      FlagRules(supportsPage, spec, flag, parsed.flags[flag]);
      if LacksValue(flag, parsed.flags[flag]) {
        return Err(FlagRequiresValue(flag));
      }
      if !FlagAllowed(supportsPage, spec, flag) {
        return Err(UnknownFlag(flag));
      }
      rest := rest - {flag};
    }
    return Ok(());
  }

  // ----- Dispatching

  function CanonicalKeys(specs: seq<CommandSpec>): set<string> {
    set s | s in specs :: Join(s.path)
  }

  /** `findRegistryParityGaps`, the half about handlers that are missing. */
  function SpecsWithoutHandler(specs: seq<CommandSpec>, handlers: set<string>): set<string> {
    CanonicalKeys(specs) - handlers
  }

  function HandlersWithoutSpec(specs: seq<CommandSpec>, handlers: set<string>): set<string> {
    handlers - CanonicalKeys(specs)
  }

  /** A normalized command path that some spec reaches is the canonical path of a spec. */
  lemma ReachedIsCanonical(specs: seq<CommandSpec>, parsed: Parsed)
    requires FindCommandSpec(specs, Normalized(specs, parsed).commandPath).Some?
    ensures exists s :: s in specs && s.path == Normalized(specs, parsed).commandPath
  {
    var r := Normalized(specs, parsed);
    NormalizedIsCanonical(specs, parsed);
    FoundIsNamed(specs, r.commandPath);
    var spec := FindCommandSpec(specs, r.commandPath).value;
    assert r.commandPath[..|r.commandPath|] == r.commandPath;
    assert BaseFits(spec, r.commandPath, r.commandPath);
    assert spec.path == r.commandPath || Normalizes(spec);
  }

  /** A validated command line always has a handler, whether it was typed as a canonical path, an
    alias, or with positionals. */
  lemma ValidatedHasHandler(specs: seq<CommandSpec>, handlers: set<string>, parsed: Parsed)
    requires SpecsWithoutHandler(specs, handlers) == {}
    requires FindCommandSpec(specs, Normalized(specs, parsed).commandPath).Some?
    ensures JoinWith(Normalized(specs, parsed).commandPath, ' ') in handlers
  {
    ReachedIsCanonical(specs, parsed);
    var s :| s in specs && s.path == Normalized(specs, parsed).commandPath;
    assert JoinWith(s.path, ' ') in CanonicalKeys(specs);
    assert JoinWith(s.path, ' ') in SpecsWithoutHandler(specs, handlers) || JoinWith(s.path, ' ') in handlers;
  }

  /** No path reaches two different specs. */
  ghost predicate PathsAreUnambiguous(specs: seq<CommandSpec>) {
    forall s, t, p :: s in specs && t in specs && Names(p, s) && Names(p, t) ==> s.path == t.path
  }

  /** With unambiguous paths the spec that was validated is the one whose handler runs. */
  lemma ValidatedSpecIsDispatched(specs: seq<CommandSpec>, parsed: Parsed)
    requires PathsAreUnambiguous(specs)
    requires FindCommandSpec(specs, Normalized(specs, parsed).commandPath).Some?
    ensures FindCommandSpec(specs, Normalized(specs, parsed).commandPath).value.path
         == Normalized(specs, parsed).commandPath
  {
    ReachedIsCanonical(specs, parsed);
    var r := Normalized(specs, parsed);
    FoundIsNamed(specs, r.commandPath);
    var s :| s in specs && s.path == r.commandPath;
    assert Names(r.commandPath, s);
  }

  /** Both gaps are empty exactly when every spec's canonical key has a handler and every handler's key
    is the canonical key of some spec. */
  lemma NoGapsIff(specs: seq<CommandSpec>, handlers: set<string>)
    ensures SpecsWithoutHandler(specs, handlers) == {} && HandlersWithoutSpec(specs, handlers) == {}
       <==> ((forall s :: s in specs ==> JoinWith(s.path, ' ') in handlers)
             && forall k :: k in handlers ==> exists s :: s in specs && JoinWith(s.path, ' ') == k)
  {
    var lacking, extra := SpecsWithoutHandler(specs, handlers), HandlersWithoutSpec(specs, handlers);
    forall s | s in specs ensures JoinWith(s.path, ' ') in handlers <==> JoinWith(s.path, ' ') !in lacking {
      assert JoinWith(s.path, ' ') in CanonicalKeys(specs);
    }
    forall k | k in handlers ensures (exists s :: s in specs && JoinWith(s.path, ' ') == k) <==> k !in extra {
      assert k in CanonicalKeys(specs) <==> exists s :: s in specs && JoinWith(s.path, ' ') == k;
    }
    if lacking != {} {
      var k :| k in lacking;
      var s :| s in specs && JoinWith(s.path, ' ') == k;
    }
    if extra != {} {
      var k :| k in extra;
    }
  }

  /** No canonical path reads as another command with positionals. */
  ghost predicate NoPathIsCaptured(specs: seq<CommandSpec>) {
    forall s, t, j: nat :: s in specs && t in specs && j < Ways(t) && Fits(t, j, s.path) ==> t.path == s.path
  }

  /** The other direction: without a handler that lacks a spec, every handler runs for some command
    line, namely its canonical path, whatever flags are added. */
  lemma EveryHandlerIsReached(specs: seq<CommandSpec>, handlers: set<string>, key: string, flags: Flags)
    requires HandlersWithoutSpec(specs, handlers) == {} && NoPathIsCaptured(specs) && key in handlers
    ensures exists s ::
      && s in specs && JoinWith(s.path, ' ') == key
      && Normalized(specs, Parsed(s.path, flags, [])).commandPath == s.path
      && FindCommandSpec(specs, s.path).Some?
  {
    assert key !in HandlersWithoutSpec(specs, handlers);
    var s :| s in specs && JoinWith(s.path, ' ') == key;
    var parsed := Parsed(s.path, flags, []);
    NormalizedMeans(specs, parsed);
    FoundIsNamed(specs, s.path);
    assert Names(s.path, s);
    assert Normalized(specs, parsed).commandPath == s.path;
  }

  // ----- The front end

  datatype Outcome =
    | Help(path: Path)
    | Rejected(error: ValidationError)
    | NoHandler
    | Dispatched(key: string, flags: Flags)
    | TmuxShim(args: seq<string>)
    | ClaudeTeams(rawArgs: seq<string>)

  function AllPaths(specs: seq<CommandSpec>): seq<Path> {
    if specs == [] then [] else SpecPaths(specs[0]) + AllPaths(specs[1..])
  }

  /** The parser looks ahead for exactly the paths that name a spec. */
  lemma {:induction false} AllPathsAreNames(specs: seq<CommandSpec>, p: Path)
    ensures p in AllPaths(specs) <==> exists s :: s in specs && Names(p, s)
  {
    if specs != [] {
      SpecPathsAreNames(specs[0], p);
      AllPathsAreNames(specs[1..], p);
      assert specs == [specs[0]] + specs[1..];
    }
  }

  /** Every key that dispatch looks up for some spec is in the table. */
  ghost predicate EverySpecHasHandler(specs: seq<CommandSpec>, handlers: set<string>) {
    forall s :: s in specs ==> JoinWith(s.path, ' ') in handlers
  }

  /** What the front end ends in for a normalized command line. */
  ghost predicate EndsIn(supportsPage: PageTest, specs: seq<CommandSpec>, handlers: set<string>, parsed: Parsed,
                         outcome: Outcome) {
    var path, flags := parsed.commandPath, parsed.flags;
    if path != [] && path[0] == "help" then outcome == Help(path[1..])
    else if path == [] || "help" in flags then outcome == Help(path)
    else if !Valid(supportsPage, specs, parsed) then
      outcome.Rejected? && (outcome.error == UnknownCommand <==> IsUnknown(specs, path))
    else
      && outcome == (if JoinWith(path, ' ') in handlers then Dispatched(JoinWith(path, ' '), flags) else NoHandler)
      && (exists s :: s in specs && s.path == path)
      && (EverySpecHasHandler(specs, handlers) ==> outcome.Dispatched?)
  }

  method RunParsed(supportsPage: PageTest, specs: seq<CommandSpec>, handlers: set<string>, raw: Parsed)
    returns (outcome: Outcome, ghost parsed: Parsed)
    ensures parsed == Normalized(specs, raw) && NormalizesTo(specs, raw, parsed)
    ensures EndsIn(supportsPage, specs, handlers, parsed, outcome)
  {
    var normalized := NormalizeCommandPositionals(specs, raw);
    parsed := normalized;
    if normalized.commandPath != [] && normalized.commandPath[0] == "help" {
      outcome := Help(normalized.commandPath[1..]);
      return;
    }
    if "help" in normalized.flags || normalized.commandPath == [] {
      outcome := Help(normalized.commandPath);
      return;
    }
    var valid := ValidateCommandAndFlags(supportsPage, specs, normalized);
    if valid.Err? {
      outcome := Rejected(valid.error);
      return;
    }
    FindCommandSpecFinds(specs, normalized.commandPath);
    ReachedIsCanonical(specs, raw);
    var key := Join(normalized.commandPath);
    outcome := if key in handlers then Dispatched(key, normalized.flags) else NoHandler;
  }

  lemma {:induction false} NamedInArgv(g: Grammar, argv: seq<string>, i: nat, p: Parsed, name: string, k: nat)
    requires '=' !in name
    requires name in p.flags || (i <= k < |argv| && argv[k] == "--" + name)
    ensures name in ParseFrom(g, argv, i, p).flags
    decreases |argv| - i
  {
    if i < |argv| {
      var (next, step) := ParseToken(g, argv, i, p);
      NamedStep(g, argv, i, p, name, k);
      NamedInArgv(g, argv, i + step, next, name, k);
    }
  }

  lemma NamedStep(g: Grammar, argv: seq<string>, i: nat, p: Parsed, name: string, k: nat)
    requires i < |argv| && '=' !in name
    requires name in p.flags || (i <= k < |argv| && argv[k] == "--" + name)
    ensures
      var (next, step) := ParseToken(g, argv, i, p);
      name in next.flags || (i + step <= k < |argv| && argv[k] == "--" + name)
  {
    var (next, step) := ParseToken(g, argv, i, p);
    if name !in p.flags {
      if i == k {
        assert argv[k][2..] == name;
        NoEquals(name);
      } else {
        assert IsFlag("--" + name);
        assert step == 2 ==> !IsFlag(argv[i + 1]);
      }
    }
  }

  lemma NoEquals(name: string)
    requires '=' !in name
    ensures IndexOf(name, '=') == |name|
  {
  }

  lemma BindingKeepsFlag(specs: seq<CommandSpec>, raw: Parsed, parsed: Parsed, name: string)
    requires NormalizesTo(specs, raw, parsed) && name in raw.flags
    ensures name in parsed.flags
  {
  }

  /** From the arguments to a handler.  Two commands are taken before anything is parsed, and get
    their arguments untouched.  `--help` anywhere ends in help.  With no gap in the registry the front
    end never ends in a missing handler, whatever the arguments. */
  method RunFrontEnd(supportsPage: PageTest, specs: seq<CommandSpec>, handlers: set<string>, argv: seq<string>)
    returns (outcome: Outcome, ghost parsed: Parsed)
    ensures argv != [] && argv[0] == "agent-teams-tmux" ==> outcome == TmuxShim(argv[1..])
    ensures argv != [] && argv[0] == "claude-teams" ==>
      outcome == if "claude-teams" in handlers then ClaudeTeams(argv[1..]) else NoHandler
    ensures argv == [] || (argv[0] != "agent-teams-tmux" && argv[0] != "claude-teams") ==>
      && NormalizesTo(specs, ParseFrom(Grammar(BOOLEAN_FLAGS, AllPaths(specs)), argv, 0, NOTHING), parsed)
      && EndsIn(supportsPage, specs, handlers, parsed, outcome)
      && ("--help" in argv ==> outcome.Help?)
    ensures EverySpecHasHandler(specs, handlers) && (exists s :: s in specs && s.path == ["claude-teams"]) ==>
      outcome != NoHandler
  {
    parsed := NOTHING;
    if argv != [] && argv[0] == "agent-teams-tmux" {
      outcome := TmuxShim(argv[1..]);
      return;
    }
    if argv != [] && argv[0] == "claude-teams" {
      assert JoinWith(["claude-teams"], ' ') == "claude-teams";
      outcome := if "claude-teams" in handlers then ClaudeTeams(argv[1..]) else NoHandler;
      return;
    }
    var raw := ParseArgs(Grammar(BOOLEAN_FLAGS, AllPaths(specs)), argv);
    outcome, parsed := RunParsed(supportsPage, specs, handlers, raw);
    if "--help" in argv {
      var k :| 0 <= k < |argv| && argv[k] == "--help";
      assert "--" + "help" == "--help";
      NamedInArgv(Grammar(BOOLEAN_FLAGS, AllPaths(specs)), argv, 0, NOTHING, "help", k);
      BindingKeepsFlag(specs, raw, parsed, "help");
    }
  }
}
