/** What command lines mean, token by token (src/cli/args.ts, `parseArgs`, `setFlagValue`,
  `commandPathStartsAt`; src/cli/flags.ts). */
module CommandTokens {
  import opened Wrappers
  import opened CommandSpecs
  import opened StringOps
  import opened CommandArgs

  // ----- The forms a command line is made of

  /** A word of the command; `--name=value`; a boolean `--name`; `--name value`; and a value flag
    that has no value because another flag or nothing follows. */
  datatype Token =
    | Word(word: string)
    | Assign(name: string, value: string)
    | Switch(name: string)
    | Spaced(name: string, value: string)
    | Lone(name: string)

  function Spell(t: Token): seq<string> {
    match t
    case Word(word) => [word]
    case Assign(name, value) => ["--" + name + "=" + value]
    case Switch(name) => ["--" + name]
    case Spaced(name, value) => ["--" + name, value]
    case Lone(name) => ["--" + name]
  }

  function SpellAll(tokens: seq<Token>): seq<string> {
    if tokens == [] then [] else Spell(tokens[0]) + SpellAll(tokens[1..])
  }

  predicate StartsWithDashes(s: string) {
    |s| >= 2 && s[0] == '-' && s[1] == '-'
  }

  predicate WellFormed(g: Grammar, t: Token) {
    match t
    case Word(word) => !StartsWithDashes(word)
    case Assign(name, value) => '=' !in name
    case Switch(name) => '=' !in name && name in g.booleanFlags
    case Spaced(name, value) => '=' !in name && name !in g.booleanFlags && !StartsWithDashes(value)
    case Lone(name) => '=' !in name && name !in g.booleanFlags
  }

  predicate NoLone(tokens: seq<Token>) {
    forall t :: t in tokens ==> !t.Lone?
  }

  /** Well-formed tokens; a lone flag is followed by a flag or by nothing.  In front of the first
    word, where the parser looks ahead for a command, no lone flag follows a spaced one. */
  predicate AllWellFormed(g: Grammar, tokens: seq<Token>, behindWord: bool)
    decreases |tokens|
  {
    tokens == [] ||
    var t, rest := tokens[0], tokens[1..];
    && WellFormed(g, t)
    && (t.Lone? ==> rest == [] || !rest[0].Word?)
    && (t.Spaced? && !behindWord ==> NoLone(rest))
    && AllWellFormed(g, rest, behindWord || t.Word?)
  }

  function Words(tokens: seq<Token>): Path {
    if tokens == [] then []
    else (if tokens[0].Word? then [tokens[0].word] else []) + Words(tokens[1..])
  }

  /** No spaced value stands in front of the first word. */
  predicate SpacedBehindWord(tokens: seq<Token>) {
    tokens == [] || tokens[0].Word? || (!tokens[0].Spaced? && SpacedBehindWord(tokens[1..]))
  }

  /** What the tokens set one flag to, in order. */
  function Settings(tokens: seq<Token>, name: string): seq<FlagValue> {
    if tokens == [] then []
    else Setting(tokens[0], name) + Settings(tokens[1..], name)
  }

  function Setting(t: Token, name: string): seq<FlagValue> {
    match t
    case Word(word) => []
    case Assign(n, value) => if n == name then [Text(value)] else []
    case Switch(n) => if n == name then [On] else []
    case Spaced(n, value) => if n == name then [Text(value)] else []
    case Lone(n) => if n == name then [On] else []
  }

  // ----- Where a command starts

  lemma {:induction false} IndexOfSplit(name: string, c: char, value: string)
    requires c !in name
    ensures IndexOf(name + [c] + value, c) == |name|
  {
    if name != "" {
      IndexOfSplit(name[1..], c, value);
      assert (name + [c] + value)[1..] == name[1..] + [c] + value;
    }
  }

  lemma NotFound(s: string, c: char)
    requires c !in s
    ensures IndexOf(s, c) == |s|
  {
  }

  lemma Dashes(s: string)
    ensures StartsWithDashes(s) <==> IsFlag(s)
  {
    assert |s| >= 2 ==> s[..2] == [s[0], s[1]];
  }

  lemma SliceAppend(argv: seq<string>, i: nat, a: seq<string>, b: seq<string>)
    requires i <= |argv| && argv[i..] == a + b
    ensures i + |a| <= |argv| && argv[i..i + |a|] == a && argv[i + |a|..] == b
    ensures forall k :: 0 <= k < |a| ==> argv[i + k] == a[k]
  {
    assert argv[i + |a|..] == argv[i..][|a|..];
    assert argv[i..i + |a|] == argv[i..][..|a|];
    assert forall k :: 0 <= k < |a| ==> argv[i + k] == argv[i..][k];
  }

  /** What stands at the position of the first token, and what stands behind it. */
  lemma AfterSpelling(argv: seq<string>, i: nat, tokens: seq<Token>)
    requires i <= |argv| && argv[i..] == SpellAll(tokens) && tokens != []
    ensures
      var spelled := Spell(tokens[0]);
      && i + |spelled| <= |argv| && argv[i + |spelled|..] == SpellAll(tokens[1..])
      && argv[i] == spelled[0] && (|spelled| == 2 ==> argv[i + 1] == spelled[1])
  {
    var spelled := Spell(tokens[0]);
    SliceAppend(argv, i, spelled, SpellAll(tokens[1..]));
    assert argv[i + 0] == spelled[0];
    assert |spelled| == 2 ==> argv[i + 1] == spelled[1];
  }

  lemma SkipsAssign(g: Grammar, argv: seq<string>, i: nat, name: string, value: string)
    requires i < |argv| && argv[i] == "--" + name + "=" + value && '=' !in name
    ensures SkipFlags(g, argv, i) == SkipFlags(g, argv, i + 1)
  {
    assert argv[i][2..] == name + ['='] + value;
    IndexOfSplit(name, '=', value);
  }

  lemma SkipsNamed(g: Grammar, argv: seq<string>, i: nat, name: string)
    requires i < |argv| && argv[i] == "--" + name && '=' !in name
    ensures SkipFlags(g, argv, i) == SkipFlags(g, argv, i + if name in g.booleanFlags then 1 else 2)
  {
    assert argv[i][2..] == name;
    NotFound(name, '=');
    assert name[..|name|] == name;
  }

  /** One turn of the inner loop skips the whole token. */
  lemma SkipsToken(g: Grammar, argv: seq<string>, i: nat, tokens: seq<Token>)
    requires i <= |argv| && argv[i..] == SpellAll(tokens) && tokens != []
    requires WellFormed(g, tokens[0]) && !tokens[0].Word? && !tokens[0].Lone?
    ensures i + |Spell(tokens[0])| <= |argv| && SkipFlags(g, argv, i) == SkipFlags(g, argv, i + |Spell(tokens[0])|)
  {
    AfterSpelling(argv, i, tokens);
    if tokens[0].Assign? {
      SkipsAssign(g, argv, i, tokens[0].name, tokens[0].value);
    } else {
      SkipsNamed(g, argv, i, tokens[0].name);
    }
  }

  lemma PathAfterSkip(g: Grammar, argv: seq<string>, i: nat, j: nat, path: Path)
    requires path != [] && SkipFlags(g, argv, i) == SkipFlags(g, argv, j)
    ensures PathStartsAt(g, argv, i, path) <==> PathStartsAt(g, argv, j, path)
  {
  }

  lemma PathAtWord(g: Grammar, argv: seq<string>, i: nat, path: Path)
    requires path != [] && i < |argv| && !IsFlag(argv[i])
    ensures PathStartsAt(g, argv, i, path) <==> argv[i] == path[0] && PathStartsAt(g, argv, i + 1, path[1..])
  {
  }

  lemma PrefixCons(word: string, words: Path, path: Path)
    requires path != []
    ensures path <= [word] + words <==> word == path[0] && path[1..] <= words
  {
    assert path == [path[0]] + path[1..];
    if path <= [word] + words {
      assert ([word] + words)[..|path|] == path;
      assert words[..|path| - 1] == path[1..];
    }
  }

  /** A path starts at a token exactly if it begins the words from there on: flags and their values
    may stand anywhere in between. */
  lemma {:induction false} PathStartsIff(g: Grammar, argv: seq<string>, i: nat, tokens: seq<Token>, path: Path)
    requires i <= |argv| && argv[i..] == SpellAll(tokens)
    requires NoLone(tokens) && forall t :: t in tokens ==> WellFormed(g, t)
    ensures PathStartsAt(g, argv, i, path) <==> path <= Words(tokens)
    decreases |tokens|
  {
    if path != [] && tokens != [] {
      AfterSpelling(argv, i, tokens);
      var t, rest := tokens[0], tokens[1..];
      assert t in tokens && forall u :: u in rest ==> u in tokens;
      if t.Word? {
        Dashes(t.word);
        PathAtWord(g, argv, i, path);
        PathStartsIff(g, argv, i + 1, rest, path[1..]);
        PrefixCons(t.word, Words(rest), path);
      } else {
        SkipsToken(g, argv, i, tokens);
        PathAfterSkip(g, argv, i, i + |Spell(t)|, path);
        PathStartsIff(g, argv, i + |Spell(t)|, rest, path);
        assert [] + Words(rest) == Words(rest);
      }
    }
  }

  /** Some registered command begins the words. */
  predicate Claims(g: Grammar, words: Path) {
    exists p :: p in g.commandPaths && p <= words
  }

  lemma CommandStartsIff(g: Grammar, argv: seq<string>, i: nat, tokens: seq<Token>)
    requires i <= |argv| && argv[i..] == SpellAll(tokens)
    requires NoLone(tokens) && forall t :: t in tokens ==> WellFormed(g, t)
    ensures CommandStartsAt(g, argv, i) <==> Claims(g, Words(tokens))
  {
    forall p | p in g.commandPaths ensures PathStartsAt(g, argv, i, p) <==> p <= Words(tokens) {
      PathStartsIff(g, argv, i, tokens, p);
    }
  }

  // ----- The meaning of a token

  /** A spaced value in front of the command is taken for the command's first word if a registered
    command begins there, and none begins behind it. */
  predicate Reclaimed(g: Grammar, value: string, rest: seq<Token>, p: Parsed) {
    p.commandPath == [] && Claims(g, [value] + Words(rest)) && !Claims(g, Words(rest))
  }

  function Meaning(g: Grammar, tokens: seq<Token>, p: Parsed): Parsed
    decreases |tokens|
  {
    if tokens == [] then p else Meaning(g, tokens[1..], Step(g, tokens[0], tokens[1..], p))
  }

  function Step(g: Grammar, t: Token, rest: seq<Token>, p: Parsed): Parsed {
    match t
    case Word(word) => p.(commandPath := p.commandPath + [word])
    case Assign(name, value) => p.(flags := SetFlagValue(p.flags, name, value))
    case Switch(name) => p.(flags := p.flags[name := On])
    case Spaced(name, value) =>
      if Reclaimed(g, value, rest, p) then p.(flags := p.flags[name := On], commandPath := [value])
      else p.(flags := SetFlagValue(p.flags, name, value))
    case Lone(name) => p.(flags := p.flags[name := On])
  }

  /** Where the parse of a token leaves off, and what it has added. */
  ghost predicate TakesToken(g: Grammar, argv: seq<string>, i: nat, tokens: seq<Token>, p: Parsed)
    requires tokens != []
  {
    ParseFrom(g, argv, i, p) == ParseFrom(g, argv, i + |Spell(tokens[0])|, Step(g, tokens[0], tokens[1..], p))
  }

  lemma TakesWord(g: Grammar, argv: seq<string>, i: nat, tokens: seq<Token>, p: Parsed)
    requires i <= |argv| && argv[i..] == SpellAll(tokens) && tokens != []
    requires tokens[0].Word? && WellFormed(g, tokens[0])
    ensures TakesToken(g, argv, i, tokens, p)
  {
    AfterSpelling(argv, i, tokens);
    Dashes(tokens[0].word);
  }

  lemma TakesAssign(g: Grammar, argv: seq<string>, i: nat, tokens: seq<Token>, p: Parsed)
    requires i <= |argv| && argv[i..] == SpellAll(tokens) && tokens != []
    requires tokens[0].Assign? && WellFormed(g, tokens[0])
    ensures TakesToken(g, argv, i, tokens, p)
  {
    AfterSpelling(argv, i, tokens);
    var Assign(name, value) := tokens[0];
    var assignment := argv[i][2..];
    assert assignment == name + ['='] + value;
    IndexOfSplit(name, '=', value);
    assert assignment[..|name|] == name && assignment[|name| + 1..] == value;
  }

  lemma NamedFlag(argv: seq<string>, i: nat, name: string)
    requires i < |argv| && argv[i] == "--" + name && '=' !in name
    ensures IsFlag(argv[i]) && argv[i][2..] == name && IndexOf(argv[i][2..], '=') == |name|
  {
    NotFound(name, '=');
  }

  lemma TakesSwitch(g: Grammar, argv: seq<string>, i: nat, tokens: seq<Token>, p: Parsed)
    requires i <= |argv| && argv[i..] == SpellAll(tokens) && tokens != []
    requires tokens[0].Switch? && WellFormed(g, tokens[0])
    ensures TakesToken(g, argv, i, tokens, p)
  {
    AfterSpelling(argv, i, tokens);
    NamedFlag(argv, i, tokens[0].name);
  }

  lemma TakesLone(g: Grammar, argv: seq<string>, i: nat, tokens: seq<Token>, p: Parsed)
    requires i <= |argv| && argv[i..] == SpellAll(tokens) && tokens != []
    requires tokens[0].Lone? && WellFormed(g, tokens[0]) && (tokens[1..] == [] || !tokens[1].Word?)
    ensures TakesToken(g, argv, i, tokens, p)
  {
    AfterSpelling(argv, i, tokens);
    NamedFlag(argv, i, tokens[0].name);
    NoValueFollows(argv, i + 1, tokens[1..]);
  }

  lemma NoValueFollows(argv: seq<string>, i: nat, tokens: seq<Token>)
    requires i <= |argv| && argv[i..] == SpellAll(tokens) && (tokens == [] || !tokens[0].Word?)
    ensures i >= |argv| || IsFlag(argv[i])
  {
    if tokens != [] {
      AfterSpelling(argv, i, tokens);
    }
  }

  /** What the look-ahead sees: at the value, and behind it. */
  lemma LooksAhead(g: Grammar, argv: seq<string>, i: nat, tokens: seq<Token>)
    requires i <= |argv| && argv[i..] == SpellAll(tokens) && tokens != []
    requires tokens[0].Spaced? && WellFormed(g, tokens[0])
    requires NoLone(tokens[1..]) && forall t :: t in tokens[1..] ==> WellFormed(g, t)
    ensures i + 2 <= |argv|
    ensures CommandStartsAt(g, argv, i + 1) <==> Claims(g, [tokens[0].value] + Words(tokens[1..]))
    ensures CommandStartsAt(g, argv, i + 2) <==> Claims(g, Words(tokens[1..]))
  {
    AfterSpelling(argv, i, tokens);
    var value, rest := tokens[0].value, tokens[1..];
    var ahead := [Word(value)] + rest;
    assert ahead[1..] == rest;
    assert argv[i + 1..] == [argv[i + 1]] + argv[i + 2..];
    assert argv[i + 1..] == SpellAll(ahead);
    CommandStartsIff(g, argv, i + 1, ahead);
    CommandStartsIff(g, argv, i + 2, rest);
  }

  lemma TakesSpaced(g: Grammar, argv: seq<string>, i: nat, tokens: seq<Token>, p: Parsed)
    requires i <= |argv| && argv[i..] == SpellAll(tokens) && tokens != []
    requires tokens[0].Spaced? && WellFormed(g, tokens[0])
    requires p.commandPath == [] ==> NoLone(tokens[1..]) && forall t :: t in tokens[1..] ==> WellFormed(g, t)
    ensures TakesToken(g, argv, i, tokens, p)
  {
    AfterSpelling(argv, i, tokens);
    var Spaced(name, value) := tokens[0];
    NamedFlag(argv, i, name);
    Dashes(value);
    if p.commandPath == [] {
      LooksAhead(g, argv, i, tokens);
      if Reclaimed(g, value, tokens[1..], p) {
        TakesValueAsWord(g, argv, i + 1, p.(flags := p.flags[name := On]), value);
      }
    }
  }

  lemma TakesValueAsWord(g: Grammar, argv: seq<string>, i: nat, p: Parsed, value: string)
    requires i < |argv| && argv[i] == value && !IsFlag(value) && p.commandPath == []
    ensures ParseFrom(g, argv, i, p) == ParseFrom(g, argv, i + 1, p.(commandPath := [value]))
  {
    assert p.commandPath + [value] == [value];
  }

  lemma {:induction false} AllOfThem(g: Grammar, tokens: seq<Token>, behindWord: bool)
    requires AllWellFormed(g, tokens, behindWord)
    ensures forall t :: t in tokens ==> WellFormed(g, t)
    decreases |tokens|
  {
    if tokens != [] {
      AllOfThem(g, tokens[1..], behindWord || tokens[0].Word?);
      assert tokens == [tokens[0]] + tokens[1..];
    }
  }

  lemma Takes(g: Grammar, argv: seq<string>, i: nat, tokens: seq<Token>, p: Parsed)
    requires i <= |argv| && argv[i..] == SpellAll(tokens) && tokens != [] && WellFormed(g, tokens[0])
    requires tokens[0].Lone? ==> tokens[1..] == [] || !tokens[1].Word?
    requires tokens[0].Spaced? && p.commandPath == [] ==>
      NoLone(tokens[1..]) && forall t :: t in tokens[1..] ==> WellFormed(g, t)
    ensures TakesToken(g, argv, i, tokens, p)
  {
    match tokens[0] {
      case Word(word) => TakesWord(g, argv, i, tokens, p);
      case Assign(name, value) => TakesAssign(g, argv, i, tokens, p);
      case Switch(name) => TakesSwitch(g, argv, i, tokens, p);
      case Spaced(name, value) => TakesSpaced(g, argv, i, tokens, p);
      case Lone(name) => TakesLone(g, argv, i, tokens, p);
    }
  }

  /** The parser gives every command line its meaning, token by token. */
  lemma {:induction false} ParseMeaning(
    g: Grammar, argv: seq<string>, i: nat, tokens: seq<Token>, behindWord: bool, p: Parsed)
    requires i <= |argv| && argv[i..] == SpellAll(tokens)
    requires AllWellFormed(g, tokens, behindWord) && (behindWord ==> p.commandPath != [])
    ensures ParseFrom(g, argv, i, p) == Meaning(g, tokens, p)
    decreases |tokens|
  {
    if tokens != [] {
      var t, rest := tokens[0], tokens[1..];
      AfterSpelling(argv, i, tokens);
      AllOfThem(g, rest, behindWord || t.Word?);
      Takes(g, argv, i, tokens, p);
      ParseMeaning(g, argv, i + |Spell(t)|, rest, behindWord || t.Word?, Step(g, t, rest, p));
    }
  }

  function ParseTokens(g: Grammar, tokens: seq<Token>): Parsed {
    ParseFrom(g, SpellAll(tokens), 0, NOTHING)
  }

  // ----- The path

  /** Once no spaced value can be reclaimed, the path is the words, whatever flags stand between. */
  /** No spaced value of the rest can be reclaimed either. */
  lemma StaysBehind(g: Grammar, tokens: seq<Token>, p: Parsed)
    requires tokens != [] && (p.commandPath != [] || SpacedBehindWord(tokens))
    ensures
      var next := Step(g, tokens[0], tokens[1..], p);
      && (next.commandPath != [] || SpacedBehindWord(tokens[1..]))
      && next.commandPath == p.commandPath + (if tokens[0].Word? then [tokens[0].word] else [])
      && next.conflicts == p.conflicts
    ensures tokens[0].Spaced? ==> p.commandPath != []
  {
    assert p.commandPath + [] == p.commandPath;
  }

  lemma {:induction false} MeaningPath(g: Grammar, tokens: seq<Token>, p: Parsed)
    requires p.commandPath != [] || SpacedBehindWord(tokens)
    ensures Meaning(g, tokens, p).commandPath == p.commandPath + Words(tokens)
    ensures Meaning(g, tokens, p).conflicts == p.conflicts
    decreases |tokens|
  {
    if tokens == [] {
      assert p.commandPath + [] == p.commandPath;
    } else {
      var own := if tokens[0].Word? then [tokens[0].word] else [];
      StaysBehind(g, tokens, p);
      MeaningPath(g, tokens[1..], Step(g, tokens[0], tokens[1..], p));
      assert p.commandPath + own + Words(tokens[1..]) == p.commandPath + (own + Words(tokens[1..]));
    }
  }

  lemma ParsedMeaning(g: Grammar, tokens: seq<Token>)
    requires AllWellFormed(g, tokens, false)
    ensures ParseTokens(g, tokens) == Meaning(g, tokens, NOTHING)
  {
    assert SpellAll(tokens)[0..] == SpellAll(tokens);
    ParseMeaning(g, SpellAll(tokens), 0, tokens, false, NOTHING);
  }

  /** The parsed command path is the words. */
  lemma PathIsTheWords(g: Grammar, tokens: seq<Token>)
    requires AllWellFormed(g, tokens, false) && SpacedBehindWord(tokens)
    ensures ParseTokens(g, tokens).commandPath == Words(tokens)
  {
    ParsedMeaning(g, tokens);
    MeaningPath(g, tokens, NOTHING);
    assert [] + Words(tokens) == Words(tokens);
  }

  // ----- The flags

  /** What a flag holds after its settings: the last one, except that texts of the repeatable flag
    are joined. */
  function Held(name: string, settings: seq<FlagValue>): Option<FlagValue> {
    if settings == [] then None
    else
      var before, last := Held(name, settings[..|settings| - 1]), settings[|settings| - 1];
      match last
      case On => Some(On)
      case Text(text) =>
        if name == REPEATABLE_FLAG && before.Some? && before.value.Text? then
          Some(Text(before.value.text + [SEPARATOR] + text))
        else Some(last)
  }

  function Lookup(flags: Flags, name: string): Option<FlagValue> {
    if name in flags then Some(flags[name]) else None
  }

  lemma HeldSnoc(name: string, settings: seq<FlagValue>, value: FlagValue)
    ensures
      Held(name, settings + [value])
      == if value.On? then Some(On)
         else if name == REPEATABLE_FLAG && Held(name, settings).Some? && Held(name, settings).value.Text? then
           Some(Text(Held(name, settings).value.text + [SEPARATOR] + value.text))
         else Some(value)
  {
    var all := settings + [value];
    assert all[..|all| - 1] == settings;
  }

  lemma StepFlag(g: Grammar, t: Token, rest: seq<Token>, p: Parsed, name: string, settings: seq<FlagValue>)
    requires Lookup(p.flags, name) == Held(name, settings)
    requires t.Spaced? ==> p.commandPath != []
    ensures Lookup(Step(g, t, rest, p).flags, name) == Held(name, settings + Setting(t, name))
  {
    if Setting(t, name) == [] {
      assert settings + [] == settings;
    } else {
      HeldSnoc(name, settings, Setting(t, name)[0]);
    }
  }

  lemma Reassociate(a: seq<FlagValue>, b: seq<FlagValue>, c: seq<FlagValue>)
    ensures a + b + c == a + (b + c)
  {
  }

  lemma {:induction false} MeaningFlag(
    g: Grammar, tokens: seq<Token>, p: Parsed, name: string, settings: seq<FlagValue>)
    requires p.commandPath != [] || SpacedBehindWord(tokens)
    requires Lookup(p.flags, name) == Held(name, settings)
    ensures Lookup(Meaning(g, tokens, p).flags, name) == Held(name, settings + Settings(tokens, name))
    decreases |tokens|
  {
    if tokens == [] {
      assert settings + [] == settings;
    } else {
      var t, rest := tokens[0], tokens[1..];
      StaysBehind(g, tokens, p);
      StepFlag(g, t, rest, p, name, settings);
      MeaningFlag(g, rest, Step(g, t, rest, p), name, settings + Setting(t, name));
      Reassociate(settings, Setting(t, name), Settings(rest, name));
    }
  }

  lemma ParsedFlag(g: Grammar, tokens: seq<Token>, name: string)
    requires AllWellFormed(g, tokens, false) && SpacedBehindWord(tokens)
    ensures Lookup(ParseTokens(g, tokens).flags, name) == Held(name, Settings(tokens, name))
  {
    ParsedMeaning(g, tokens);
    MeaningFlag(g, tokens, NOTHING, name, []);
    assert [] + Settings(tokens, name) == Settings(tokens, name);
  }

  /** A flag is present exactly if some token sets it.  A switch leaves it on; a value, assigned or
    spaced, is the last one given, unless the flag is the repeatable one. */
  lemma FlagIsLastSetting(g: Grammar, tokens: seq<Token>, name: string)
    requires AllWellFormed(g, tokens, false) && SpacedBehindWord(tokens)
    ensures
      var flags, settings := ParseTokens(g, tokens).flags, Settings(tokens, name);
      && (name in flags <==> settings != [])
      && (settings != [] && (settings[|settings| - 1] == On || name != "label") ==>
            flags[name] == settings[|settings| - 1])
  {
    ParsedFlag(g, tokens, name);
  }

  function Texts(texts: seq<string>): seq<FlagValue> {
    seq(|texts|, i requires 0 <= i < |texts| => Text(texts[i]))
  }

  lemma {:induction false} HeldTexts(before: seq<FlagValue>, texts: seq<string>)
    requires before == [] || before[|before| - 1] == On
    requires texts != []
    ensures Held("label", before + Texts(texts)) == Some(Text(JoinWith(texts, '\0')))
    decreases |texts|
  {
    var front, last := texts[..|texts| - 1], texts[|texts| - 1];
    assert texts == front + [last];
    assert before + Texts(texts) == (before + Texts(front)) + [Text(last)];
    HeldSnoc("label", before + Texts(front), Text(last));
    if front == [] {
      assert before + Texts(front) == before;
      assert JoinWith([last], '\0') == last;
    } else {
      HeldTexts(before, front);
      JoinSnoc(front, last, '\0');
    }
  }

  /** The repeatable flag holds every value given since it was last a switch, in order. */
  lemma LabelHoldsItsValues(g: Grammar, tokens: seq<Token>, before: seq<FlagValue>, texts: seq<string>)
    requires AllWellFormed(g, tokens, false) && SpacedBehindWord(tokens)
    requires Settings(tokens, "label") == before + Texts(texts) && texts != []
    requires before == [] || before[|before| - 1] == On
    ensures
      var flags := ParseTokens(g, tokens).flags;
      "label" in flags && flags["label"] == Text(JoinWith(texts, '\0'))
  {
    ParsedFlag(g, tokens, "label");
    HeldTexts(before, texts);
  }

  /** Flags that need no look-ahead are order-free: two command lines of words, assignments and
    switches parse alike if they have the same words, and the same settings of each flag, in whatever
    order and whatever commands are registered. */
  lemma FlagsAreOrderFree(g: Grammar, h: Grammar, s: seq<Token>, t: seq<Token>)
    requires AllWellFormed(g, s, false) && AllWellFormed(h, t, false)
    requires SpacedBehindWord(s) && SpacedBehindWord(t)
    requires Words(s) == Words(t) && forall name :: Settings(s, name) == Settings(t, name)
    ensures ParseTokens(g, s) == ParseTokens(h, t)
  {
    var p, q := ParseTokens(g, s), ParseTokens(h, t);
    PathIsTheWords(g, s);
    PathIsTheWords(h, t);
    ParsedMeaning(g, s);
    ParsedMeaning(h, t);
    MeaningPath(g, s, NOTHING);
    MeaningPath(h, t, NOTHING);
    forall name ensures Lookup(p.flags, name) == Lookup(q.flags, name) {
      ParsedFlag(g, s, name);
      ParsedFlag(h, t, name);
      assert Settings(s, name) == Settings(t, name);
    }
    SameFlags(p.flags, q.flags);
  }

  lemma SameFlags(f: Flags, g: Flags)
    requires forall name :: Lookup(f, name) == Lookup(g, name)
    ensures f == g
  {
    forall name ensures name in f <==> name in g {
      assert Lookup(f, name) == Lookup(g, name);
    }
    forall name | name in f ensures f[name] == g[name] {
      assert Lookup(f, name) == Lookup(g, name);
    }
  }

  /** A value flag in front of the command gives its value back to it exactly if a registered command
    begins with that value and none begins behind it; the flag is then merely on. */
  lemma SpacedBeforeCommand(g: Grammar, name: string, value: string, rest: seq<Token>)
    requires AllWellFormed(g, [Spaced(name, value)] + rest, false) && SpacedBehindWord(rest)
    requires Settings(rest, name) == []
    ensures
      var parsed := ParseTokens(g, [Spaced(name, value)] + rest);
      var claimed := (exists p :: p in g.commandPaths && p <= [value] + Words(rest))
                     && !(exists p :: p in g.commandPaths && p <= Words(rest));
      && parsed.commandPath == (if claimed then [value] + Words(rest) else Words(rest))
      && name in parsed.flags && parsed.flags[name] == (if claimed then On else Text(value))
  {
    var tokens := [Spaced(name, value)] + rest;
    assert tokens[1..] == rest;
    ParsedMeaning(g, tokens);
    var p := Step(g, tokens[0], rest, NOTHING);
    MeaningPath(g, rest, p);
    assert [] + Words(rest) == Words(rest);
    var setting := if Reclaimed(g, value, rest, NOTHING) then On else Text(value);
    assert [setting] + [] == [setting];
    HeldSnoc(name, [], setting);
    assert [] + [setting] == [setting];
    MeaningFlag(g, rest, p, name, [setting]);
  }

  // ----- Help is never lost

  lemma StepKeepsFlag(g: Grammar, t: Token, rest: seq<Token>, p: Parsed, name: string)
    ensures name in p.flags ==> name in Step(g, t, rest, p).flags
    ensures !t.Word? && t.name == name ==> name in Step(g, t, rest, p).flags
  {
  }

  lemma {:induction false} MeaningKeepsFlag(g: Grammar, tokens: seq<Token>, p: Parsed, name: string)
    requires name in p.flags || exists t :: t in tokens && !t.Word? && t.name == name
    ensures name in Meaning(g, tokens, p).flags
    decreases |tokens|
  {
    if tokens != [] {
      var t, rest := tokens[0], tokens[1..];
      assert tokens == [t] + rest;
      StepKeepsFlag(g, t, rest, p, name);
      MeaningKeepsFlag(g, rest, Step(g, t, rest, p), name);
    }
  }

  /** A flag that any token names is present, wherever the token stands. */
  lemma NamedFlagIsPresent(g: Grammar, tokens: seq<Token>, t: Token)
    requires AllWellFormed(g, tokens, false) && t in tokens && !t.Word?
    ensures t.name in ParseTokens(g, tokens).flags
  {
    ParsedMeaning(g, tokens);
    MeaningKeepsFlag(g, tokens, NOTHING, t.name);
  }

  // ----- Reading a repeated flag (src/cli/flags.ts)

  /** The texts that are not empty, in order. */
  lemma NonEmptyConcat(a: seq<string>, b: seq<string>)
    ensures NonEmpty(a + b) == NonEmpty(a) + NonEmpty(b)
  {
    if a == [] {
      assert a + b == b;
    } else {
      assert (a + b)[1..] == a[1..] + b;
      NonEmptyConcat(a[1..], b);
    }
  }

  lemma NonEmptyIs(texts: seq<string>)
    requires forall t :: t in texts ==> t != ""
    ensures NonEmpty(texts) == texts
    ensures NonEmpty([""]) == []
  {
    assert [""][1..] == [];
    if texts != [] {
      assert texts[0] in texts && forall t :: t in texts[1..] ==> t in texts;
      NonEmptyIs(texts[1..]);
    }
  }

  /** The repeatable flag gives back all its non-empty values in order, even values that start
    with `--` or contain `=`, as long as none contains the separator.  Empty values may stand
    anywhere between. */
  lemma LabelsRoundTrip(g: Grammar, tokens: seq<Token>, texts: seq<string>)
    requires AllWellFormed(g, tokens, false) && SpacedBehindWord(tokens)
    requires Settings(tokens, "label") == Texts(texts)
    requires forall v :: v in texts ==> '\0' !in v
    ensures GetRepeatedStringFlag(ParseTokens(g, tokens).flags, "label") == NonEmpty(texts)
  {
    ParsedFlag(g, tokens, "label");
    if texts != [] {
      assert [] + Texts(texts) == Texts(texts);
      HeldTexts([], texts);
      ReadBack(ParseTokens(g, tokens).flags, texts);
    }
  }

  lemma ReadBack(flags: Flags, texts: seq<string>)
    requires "label" in flags && flags["label"] == Text(JoinWith(texts, '\0'))
    requires texts != [] && forall v :: v in texts ==> '\0' !in v
    ensures GetRepeatedStringFlag(flags, "label") == NonEmpty(texts)
  {
    SplitJoin(texts, '\0');
    if JoinWith(texts, '\0') == "" {
      OnlyEmpty(texts);
    }
  }

  lemma OnlyEmpty(texts: seq<string>)
    requires texts != [] && JoinWith(texts, '\0') == ""
    ensures NonEmpty(texts) == []
  {
    assert texts == [""];
    NonEmptyIs([]);
  }
}
