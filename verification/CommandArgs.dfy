/** The command-line front end: parsing, normalizing, validating and dispatching
  (src/cli/args.ts, flags.ts, registry-parity.ts, dispatch.ts, index.ts). */
module CommandArgs {
  import opened Wrappers
  import opened CommandSpecs
  import opened StringOps

  const SEPARATOR: char := '\0'
  const REPEATABLE_FLAG: string := "label"
  const GLOBAL_FLAGS: set<string> := {"help", "json", "pairing-code", "environment"}
  const GLOBAL_VALUE_FLAGS: set<string> := {"pairing-code", "environment"}
  const BOOLEAN_FLAGS: set<string> := {
    "all", "attachments", "children", "comments", "connect", "current", "dry-run", "enter", "focus", "force", "full",
    "help", "inject", "interrupt", "json", "messages", "me", "mobile", "mobile-pairing", "no-pairing",
    "parent-current", "provision", "ready", "recipe-json", "relations", "reinstall", "restore-window",
    "return-preamble", "run-hooks", "show-profile", "staged", "tab", "tasks", "text-stdin", "unread", "value-stdin",
    "wait"
  }

  datatype FlagValue = Text(text: string) | On

  type Flags = map<string, FlagValue>

  /** `conflicts` is empty when there are none. */
  datatype Parsed = Parsed(commandPath: Path, flags: Flags, conflicts: seq<string>)

  const NOTHING := Parsed([], map[], [])

  /** What parsing depends on besides the arguments. */
  datatype Grammar = Grammar(booleanFlags: set<string>, commandPaths: seq<Path>)

  // ----- Parsing

  predicate IsFlag(token: string) {
    "--" <= token
  }

  function SetFlagValue(flags: Flags, name: string, value: string): Flags {
    if name in flags && flags[name].Text? && name == REPEATABLE_FLAG then
      flags[name := Text(flags[name].text + [SEPARATOR] + value)]
    else flags[name := Text(value)]
  }

  function IndexOf(s: string, c: char): (i: nat)
    ensures i <= |s| && c !in s[..i]
    ensures i < |s| ==> s[i] == c
  {
    if s == "" || s[0] == c then 0
    else
      var i := IndexOf(s[1..], c);
      assert s[..i + 1] == [s[0]] + s[1..][..i];
      i + 1
  }

  /** The first position from `cursor` on that is not part of a flag. */
  function SkipFlags(g: Grammar, argv: seq<string>, cursor: nat): nat
    decreases |argv| - cursor
  {
    if cursor < |argv| && IsFlag(argv[cursor]) then
      var assignment := argv[cursor][2..];
      var equals := IndexOf(assignment, '=');
      var step := if equals < |assignment| || assignment[..equals] in g.booleanFlags then 1 else 2;
      SkipFlags(g, argv, cursor + step)
    else cursor
  }

  predicate PathStartsAt(g: Grammar, argv: seq<string>, cursor: nat, path: Path)
    decreases |path|
  {
    path == [] ||
    var c := SkipFlags(g, argv, cursor);
    c < |argv| && argv[c] == path[0] && PathStartsAt(g, argv, c + 1, path[1..])
  }

  predicate CommandStartsAt(g: Grammar, argv: seq<string>, cursor: nat) {
    exists p :: p in g.commandPaths && PathStartsAt(g, argv, cursor, p)
  }

  /** One turn of the loop: how many tokens it takes and what it makes of them. */
  function ParseToken(g: Grammar, argv: seq<string>, i: nat, p: Parsed): (Parsed, nat)
    requires i < |argv|
  {
    var token := argv[i];
    if !IsFlag(token) then (p.(commandPath := p.commandPath + [token]), 1)
    else
      var assignment := token[2..];
      var equals := IndexOf(assignment, '=');
      if equals < |assignment| then
        (p.(flags := SetFlagValue(p.flags, assignment[..equals], assignment[equals + 1..])), 1)
      else if assignment in g.booleanFlags then (p.(flags := p.flags[assignment := On]), 1)
      else if p.commandPath == [] && CommandStartsAt(g, argv, i + 1) && !CommandStartsAt(g, argv, i + 2) then
        (p.(flags := p.flags[assignment := On]), 1)
      else if i + 1 >= |argv| || IsFlag(argv[i + 1]) then (p.(flags := p.flags[assignment := On]), 1)
      else (p.(flags := SetFlagValue(p.flags, assignment, argv[i + 1])), 2)
  }

  function ParseFrom(g: Grammar, argv: seq<string>, i: nat, p: Parsed): Parsed
    decreases |argv| - i
  {
    if i >= |argv| then p
    else
      var (next, step) := ParseToken(g, argv, i, p);
      ParseFrom(g, argv, i + step, next)
  }

  method CommandPathStartsAt(g: Grammar, argv: seq<string>, tokenIndex: nat, path: Path) returns (starts: bool)
    ensures starts == PathStartsAt(g, argv, tokenIndex, path)
  {
    var cursor: nat := tokenIndex;
    assert path[0..] == path;
    for k := 0 to |path|
      invariant PathStartsAt(g, argv, cursor, path[k..]) == PathStartsAt(g, argv, tokenIndex, path)
    {
      assert path[k..][0] == path[k] && path[k..][1..] == path[k + 1..];
      ghost var start := cursor;
      while cursor < |argv| && IsFlag(argv[cursor])
        invariant SkipFlags(g, argv, cursor) == SkipFlags(g, argv, start)
      {
        var assignment := argv[cursor][2..];
        var equals := IndexOf(assignment, '=');
        cursor := cursor + if equals < |assignment| || assignment[..equals] in g.booleanFlags then 1 else 2;
      }
      if cursor >= |argv| || argv[cursor] != path[k] {
        return false;
      }
      cursor := cursor + 1;
    }
    return true;
  }

  method StartsCommandAt(g: Grammar, argv: seq<string>, tokenIndex: nat) returns (starts: bool)
    ensures starts == CommandStartsAt(g, argv, tokenIndex)
  {
    for k := 0 to |g.commandPaths|
      invariant forall j :: 0 <= j < k ==> !PathStartsAt(g, argv, tokenIndex, g.commandPaths[j])
    {
      var here := CommandPathStartsAt(g, argv, tokenIndex, g.commandPaths[k]);
      if here {
        return true;
      }
    }
    return false;
  }

  method ParseArgs(g: Grammar, argv: seq<string>) returns (parsed: Parsed)
    ensures parsed == ParseFrom(g, argv, 0, NOTHING)
  {
    var commandPath: Path := [];
    var flags: Flags := map[];
    var i := 0;
    while i < |argv|
      invariant ParseFrom(g, argv, i, Parsed(commandPath, flags, [])) == ParseFrom(g, argv, 0, NOTHING)
      decreases |argv| - i
    {
      var token := argv[i];
      if !IsFlag(token) {
        commandPath := commandPath + [token];
        i := i + 1;
        continue;
      }
      var assignment := token[2..];
      var equalsIndex := IndexOf(assignment, '=');
      if equalsIndex < |assignment| {
        flags := SetFlagValue(flags, assignment[..equalsIndex], assignment[equalsIndex + 1..]);
        i := i + 1;
        continue;
      }
      if assignment in g.booleanFlags {
        flags := flags[assignment := On];
        i := i + 1;
        continue;
      }
      var next := StartsCommandAt(g, argv, i + 1);
      var afterNext := StartsCommandAt(g, argv, i + 2);
      if commandPath == [] && next && !afterNext {
        flags := flags[assignment := On];
        i := i + 1;
        continue;
      }
      if i + 1 >= |argv| || IsFlag(argv[i + 1]) {
        flags := flags[assignment := On];
        i := i + 1;
        continue;
      }
      flags := SetFlagValue(flags, assignment, argv[i + 1]);
      i := i + 2;
    }
    parsed := Parsed(commandPath, flags, []);
  }

  // ----- Reading flags (src/cli/flags.ts)

  function GetOptionalStringFlag(flags: Flags, name: string): Option<string> {
    if name in flags && flags[name].Text? && flags[name].text != "" then Some(flags[name].text) else None
  }

  function NonEmpty(parts: seq<string>): seq<string> {
    if parts == [] then []
    else (if parts[0] == "" then [] else [parts[0]]) + NonEmpty(parts[1..])
  }

  function GetRepeatedStringFlag(flags: Flags, name: string): seq<string> {
    match GetOptionalStringFlag(flags, name)
    case None => []
    case Some(value) => NonEmpty(Split(value, SEPARATOR))
  }
}
