/** From what was typed to a canonical command: aliases and positionals (src/cli/args.ts,
  `normalizeCommandPositionals`). */
module CommandNormalizing {
  import opened Wrappers
  import opened CommandSpecs
  import opened CommandArgs

  /** The command path is `base` followed by at most as many positionals as the spec takes. */
  predicate BaseFits(spec: CommandSpec, base: Path, commandPath: Path) {
    |base| <= |commandPath| <= |base| + |Positionals(spec)| && commandPath[..|base|] == base
  }

  function Positionals(spec: CommandSpec): seq<string> {
    match spec.positionalArgs
    case None => []
    case Some(names) => names
  }

  /** The first path in `bases` that fits. */
  function FittingBase(spec: CommandSpec, bases: seq<Path>, commandPath: Path): Option<Path> {
    if bases == [] then None
    else if BaseFits(spec, bases[0], commandPath) then Some(bases[0])
    else FittingBase(spec, bases[1..], commandPath)
  }

  predicate Normalizes(spec: CommandSpec) {
    Positionals(spec) != [] || spec.aliases.Some?
  }

  /** Positionals become flags unless the flag is already there. */
  function Bind(flags: Flags, names: seq<string>, values: Path): Flags
    requires |values| <= |names|
    decreases |values|
  {
    if values == [] then flags
    else
      var next := if names[0] in flags then flags else flags[names[0] := Text(values[0])];
      Bind(next, names[1..], values[1..])
  }

  function Conflicts(flags: Flags, names: seq<string>): seq<string> {
    if names == [] then []
    else (if names[0] in flags then [names[0]] else []) + Conflicts(flags, names[1..])
  }

  function Canonical(spec: CommandSpec, base: Path, parsed: Parsed): Parsed
    requires BaseFits(spec, base, parsed.commandPath)
  {
    var values := parsed.commandPath[|base|..];
    Parsed(spec.path, Bind(parsed.flags, Positionals(spec), values),
           Conflicts(parsed.flags, Positionals(spec)[..|values|]))
  }

  lemma {:induction false} FittingBaseFits(spec: CommandSpec, bases: seq<Path>, commandPath: Path)
    ensures
      match FittingBase(spec, bases, commandPath)
      case None => forall b :: b in bases ==> !BaseFits(spec, b, commandPath)
      case Some(base) => base in bases && BaseFits(spec, base, commandPath)
  {
    if bases != [] {
      FittingBaseFits(spec, bases[1..], commandPath);
    }
  }

  function Normalized(specs: seq<CommandSpec>, parsed: Parsed): Parsed {
    if specs == [] then parsed
    else
      var spec := specs[0];
      var base := if Normalizes(spec) then FittingBase(spec, SpecPaths(spec), parsed.commandPath) else None;
      if base.None? then Normalized(specs[1..], parsed)
      else
        FittingBaseFits(spec, SpecPaths(spec), parsed.commandPath);
        Canonical(spec, base.value, parsed)
  }

  method NormalizeCommandPositionals(specs: seq<CommandSpec>, parsed: Parsed) returns (r: Parsed)
    ensures r == Normalized(specs, parsed)
    ensures NormalizesTo(specs, parsed, r)
  {
    NormalizedMeans(specs, parsed);
    assert specs[0..] == specs;
    for i := 0 to |specs|
      invariant Normalized(specs[i..], parsed) == Normalized(specs, parsed)
    {
      var spec := specs[i];
      assert specs[i..][0] == spec && specs[i..][1..] == specs[i + 1..];
      var positionalArgs := Positionals(spec);
      if |positionalArgs| == 0 && spec.aliases.None? {
        continue;
      }
      var bases := SpecPaths(spec);
      assert bases[0..] == bases;
      for j := 0 to |bases|
        invariant FittingBase(spec, bases[j..], parsed.commandPath) == FittingBase(spec, bases, parsed.commandPath)
      {
        var base := bases[j];
        assert bases[j..][0] == base && bases[j..][1..] == bases[j + 1..];
        var positionalCount := |parsed.commandPath| - |base|;
        if positionalCount < 0 || positionalCount > |positionalArgs| {
          continue;
        }
        if parsed.commandPath[..|base|] != base {
          continue;
        }
        r := BindPositionals(spec, base, parsed);
        return;
      }
    }
    return parsed;
  }

  method BindPositionals(spec: CommandSpec, base: Path, parsed: Parsed) returns (r: Parsed)
    requires BaseFits(spec, base, parsed.commandPath)
    ensures r == Canonical(spec, base, parsed)
    ensures Binds(spec, parsed.commandPath[|base|..], parsed, r)
  {
    CanonicalBinds(spec, base, parsed);
    var names := Positionals(spec);
    var values := parsed.commandPath[|base|..];
    var conflicts := Conflicts(parsed.flags, names[..|values|]);
    var flags := parsed.flags;
    assert values[0..] == values && names[0..] == names;
    for k := 0 to |values|
      invariant Bind(flags, names[k..], values[k..]) == Bind(parsed.flags, names, values)
    {
      assert values[k..][1..] == values[k + 1..] && names[k..][1..] == names[k + 1..];
      if names[k] !in flags {
        flags := flags[names[k] := Text(values[k])];
      }
    }
    r := Parsed(spec.path, flags, conflicts);
  }

  /** A flag given by name is kept, and no flag appears but the positional names. */
  lemma {:induction false} BindKeeps(flags: Flags, names: seq<string>, values: Path, name: string)
    requires |values| <= |names|
    ensures
      var bound := Bind(flags, names, values);
      && (name in flags ==> name in bound && bound[name] == flags[name])
      && (name in bound ==> name in flags || name in names[..|values|])
    decreases |values|
  {
    if values != [] {
      BindKeeps(if names[0] in flags then flags else flags[names[0] := Text(values[0])], names[1..], values[1..], name);
      assert names[..|values|] == [names[0]] + names[1..][..|values[1..]|];
    }
  }

  /** A positional's name takes the first value typed in its place, unless it was given as a flag. */
  lemma {:induction false} BindMeaning(flags: Flags, names: seq<string>, values: Path, k: nat)
    requires k < |values| <= |names|
    requires names[k] !in flags && names[k] !in names[..k]
    ensures
      var bound := Bind(flags, names, values);
      names[k] in bound && bound[names[k]] == Text(values[k])
    decreases |values|
  {
    var next := if names[0] in flags then flags else flags[names[0] := Text(values[0])];
    if k == 0 {
      BindKeeps(next, names[1..], values[1..], names[0]);
    } else {
      assert names[..k] == [names[0]] + names[1..][..k - 1];
      BindMeaning(next, names[1..], values[1..], k - 1);
    }
  }

  // ----- What normalizing means

  /** How many ways there are to type a spec's path. */
  function Ways(spec: CommandSpec): nat {
    1 + match spec.aliases case None => 0 case Some(aliases) => |aliases|
  }

  /** The canonical path first, then the aliases. */
  function Way(spec: CommandSpec, j: nat): Path
    requires j < Ways(spec)
  {
    if j == 0 then spec.path else spec.aliases.value[j - 1]
  }

  /** What was typed is the j-th way to type the spec, and no more values than it takes.  A spec
    without positionals and without aliases is passed over. */
  predicate Fits(spec: CommandSpec, j: nat, typed: Path)
    requires j < Ways(spec)
  {
    var names := match spec.positionalArgs case None => [] case Some(names) => names;
    && (names != [] || spec.aliases.Some?)
    && Way(spec, j) <= typed && |typed| <= |Way(spec, j)| + |names|
  }

  /** The first way of the first spec that fits. */
  ghost predicate FirstFit(specs: seq<CommandSpec>, typed: Path, i: nat, j: nat) {
    && i < |specs| && j < Ways(specs[i]) && Fits(specs[i], j, typed)
    && (forall b: nat :: b < j ==> !Fits(specs[i], b, typed))
    && (forall a: nat, b: nat :: a < i && b < Ways(specs[a]) ==> !Fits(specs[a], b, typed))
  }

  ghost predicate NothingFits(specs: seq<CommandSpec>, typed: Path) {
    forall a: nat, b: nat :: a < |specs| && b < Ways(specs[a]) ==> !Fits(specs[a], b, typed)
  }

  /** `found` lists the names given as flags as well, in order and as often as they are named. */
  ghost predicate ListsGiven(flags: Flags, names: seq<string>, found: seq<string>, at: seq<nat>) {
    && |at| == |found|
    && (forall k :: 0 <= k < |at| ==> at[k] < |names| && found[k] == names[at[k]])
    && (forall k, l :: 0 <= k < l < |at| ==> at[k] < at[l])
    && (forall m: nat :: m < |names| ==> (m in at <==> names[m] in flags))
  }

  /** Each name takes the value typed in its place, unless it was given as a flag, which is then a
    conflict; flags keep what they held, and no other flag appears. */
  ghost predicate Binds(spec: CommandSpec, values: Path, before: Parsed, after: Parsed) {
    var names := match spec.positionalArgs case None => [] case Some(names) => names;
    && |values| <= |names|
    && after.commandPath == spec.path
    && (forall n :: n in before.flags ==> n in after.flags && after.flags[n] == before.flags[n])
    && (forall k :: 0 <= k < |values| && names[k] !in before.flags && names[k] !in names[..k] ==>
          names[k] in after.flags && after.flags[names[k]] == Text(values[k]))
    && (forall n :: n in after.flags ==> n in before.flags || n in names[..|values|])
    && exists at :: ListsGiven(before.flags, names[..|values|], after.conflicts, at)
  }

  ghost predicate NormalizesTo(specs: seq<CommandSpec>, before: Parsed, after: Parsed) {
    || (NothingFits(specs, before.commandPath) && after == before)
    || (exists i: nat, j: nat :: FirstFit(specs, before.commandPath, i, j)
          && Binds(specs[i], before.commandPath[|Way(specs[i], j)|..], before, after))
  }

  lemma WaysArePaths(spec: CommandSpec)
    ensures |SpecPaths(spec)| == Ways(spec)
    ensures forall j: nat :: j < Ways(spec) ==> SpecPaths(spec)[j] == Way(spec, j)
  {
  }

  lemma FitsIs(spec: CommandSpec, j: nat, typed: Path)
    requires j < Ways(spec)
    ensures Fits(spec, j, typed) <==> Normalizes(spec) && BaseFits(spec, SpecPaths(spec)[j], typed)
  {
    WaysArePaths(spec);
  }

  lemma {:induction false} FittingBaseIsFirst(spec: CommandSpec, bases: seq<Path>, typed: Path) returns (j: nat)
    requires FittingBase(spec, bases, typed).Some?
    ensures j < |bases| && FittingBase(spec, bases, typed) == Some(bases[j]) && BaseFits(spec, bases[j], typed)
    ensures forall b: nat :: b < j ==> !BaseFits(spec, bases[b], typed)
    decreases |bases|
  {
    if BaseFits(spec, bases[0], typed) {
      j := 0;
    } else {
      var k := FittingBaseIsFirst(spec, bases[1..], typed);
      j := k + 1;
      forall b: nat | b < j ensures !BaseFits(spec, bases[b], typed) {
        assert b > 0 ==> bases[b] == bases[1..][b - 1];
      }
    }
  }

  lemma SpecDoesNotFit(spec: CommandSpec, typed: Path)
    requires !Normalizes(spec) || FittingBase(spec, SpecPaths(spec), typed).None?
    ensures forall b: nat :: b < Ways(spec) ==> !Fits(spec, b, typed)
  {
    WaysArePaths(spec);
    FittingBaseFits(spec, SpecPaths(spec), typed);
    forall b: nat | b < Ways(spec) ensures !Fits(spec, b, typed) {
      FitsIs(spec, b, typed);
      assert SpecPaths(spec)[b] in SpecPaths(spec);
    }
  }

  lemma {:induction false} ConflictsList(flags: Flags, names: seq<string>) returns (at: seq<nat>)
    ensures ListsGiven(flags, names, Conflicts(flags, names), at)
  {
    if names == [] {
      at := [];
    } else {
      var later := ConflictsList(flags, names[1..]);
      at := Shifted(later);
      ShiftedLists(flags, names, Conflicts(flags, names[1..]), later);
      if names[0] in flags {
        at := [0] + at;
        FirstLists(flags, names, Conflicts(flags, names[1..]), Shifted(later));
      } else {
        assert [] + Conflicts(flags, names[1..]) == Conflicts(flags, names[1..]);
      }
    }
  }

  function Shifted(at: seq<nat>): seq<nat> {
    seq(|at|, k requires 0 <= k < |at| => at[k] + 1)
  }

  /** The given names behind the first one. */
  ghost predicate ListsLater(flags: Flags, names: seq<string>, found: seq<string>, at: seq<nat>) {
    && |at| == |found|
    && (forall k :: 0 <= k < |at| ==> 0 < at[k] < |names| && found[k] == names[at[k]])
    && (forall k, l :: 0 <= k < l < |at| ==> at[k] < at[l])
    && (forall m: nat :: 0 < m < |names| ==> (m in at <==> names[m] in flags))
  }

  lemma ShiftedLists(flags: Flags, names: seq<string>, found: seq<string>, later: seq<nat>)
    requires names != [] && ListsGiven(flags, names[1..], found, later)
    ensures ListsLater(flags, names, found, Shifted(later))
    ensures names[0] !in flags ==> ListsGiven(flags, names, found, Shifted(later))
  {
    var at := Shifted(later);
    forall m: nat | 0 < m < |names| ensures m in at <==> names[m] in flags {
      assert names[1..][m - 1] == names[m];
      if m - 1 in later {
        var k :| 0 <= k < |later| && later[k] == m - 1;
        assert at[k] == m;
      }
      if m in at {
        var k :| 0 <= k < |at| && at[k] == m;
        assert later[k] == m - 1;
      }
    }
    assert 0 !in at;
  }

  lemma FirstLists(flags: Flags, names: seq<string>, found: seq<string>, at: seq<nat>)
    requires names != [] && names[0] in flags && ListsLater(flags, names, found, at)
    ensures ListsGiven(flags, names, [names[0]] + found, [0] + at)
  {
  }

  lemma CanonicalBinds(spec: CommandSpec, base: Path, parsed: Parsed)
    requires BaseFits(spec, base, parsed.commandPath)
    ensures Binds(spec, parsed.commandPath[|base|..], parsed, Canonical(spec, base, parsed))
  {
    var names, values := Positionals(spec), parsed.commandPath[|base|..];
    forall n
      ensures
        var bound := Bind(parsed.flags, names, values);
        && (n in parsed.flags ==> n in bound && bound[n] == parsed.flags[n])
        && (n in bound ==> n in parsed.flags || n in names[..|values|])
    {
      BindKeeps(parsed.flags, names, values, n);
    }
    forall k | 0 <= k < |values| && names[k] !in parsed.flags && names[k] !in names[..k]
      ensures
        var bound := Bind(parsed.flags, names, values);
        names[k] in bound && bound[names[k]] == Text(values[k])
    {
      BindMeaning(parsed.flags, names, values, k);
    }
    var at := ConflictsList(parsed.flags, names[..|values|]);
  }

  lemma FirstFitLater(specs: seq<CommandSpec>, typed: Path, i: nat, j: nat)
    requires specs != [] && FirstFit(specs[1..], typed, i, j)
    requires forall b: nat :: b < Ways(specs[0]) ==> !Fits(specs[0], b, typed)
    ensures FirstFit(specs, typed, i + 1, j)
  {
    assert forall a: nat :: 0 < a < |specs| ==> specs[a] == specs[1..][a - 1];
  }

  /** Normalizing does exactly that. */
  lemma {:induction false} NormalizedMeans(specs: seq<CommandSpec>, parsed: Parsed)
    ensures NormalizesTo(specs, parsed, Normalized(specs, parsed))
    decreases |specs|
  {
    if specs != [] {
      var spec, typed := specs[0], parsed.commandPath;
      if Normalizes(spec) && FittingBase(spec, SpecPaths(spec), typed).Some? {
        FirstSpecFits(specs, parsed);
      } else {
        SpecDoesNotFit(spec, typed);
        NormalizedMeans(specs[1..], parsed);
        RestNormalizes(specs, parsed, Normalized(specs, parsed));
      }
    }
  }

  lemma FirstSpecFits(specs: seq<CommandSpec>, parsed: Parsed)
    requires specs != [] && Normalizes(specs[0])
    requires FittingBase(specs[0], SpecPaths(specs[0]), parsed.commandPath).Some?
    ensures NormalizesTo(specs, parsed, Normalized(specs, parsed))
  {
    var spec, typed := specs[0], parsed.commandPath;
    WaysArePaths(spec);
    var j := FittingBaseIsFirst(spec, SpecPaths(spec), typed);
    forall b: nat | b <= j ensures Fits(spec, b, typed) <==> BaseFits(spec, SpecPaths(spec)[b], typed) {
      FitsIs(spec, b, typed);
    }
    assert FirstFit(specs, typed, 0, j);
    CanonicalBinds(spec, SpecPaths(spec)[j], parsed);
  }

  lemma RestNormalizes(specs: seq<CommandSpec>, before: Parsed, after: Parsed)
    requires specs != [] && NormalizesTo(specs[1..], before, after)
    requires forall b: nat :: b < Ways(specs[0]) ==> !Fits(specs[0], b, before.commandPath)
    ensures NormalizesTo(specs, before, after)
  {
    var typed := before.commandPath;
    if NothingFits(specs[1..], typed) && after == before {
      forall a: nat, b: nat | a < |specs| && b < Ways(specs[a]) ensures !Fits(specs[a], b, typed) {
        assert a > 0 ==> specs[a] == specs[1..][a - 1];
      }
    } else {
      var i: nat, j: nat :| FirstFit(specs[1..], typed, i, j)
        && Binds(specs[1..][i], typed[|Way(specs[1..][i], j)|..], before, after);
      FirstFitLater(specs, typed, i, j);
      assert specs[i + 1] == specs[1..][i];
    }
  }

  lemma {:induction false} ConflictMeaning(flags: Flags, names: seq<string>)
    ensures forall n :: n in Conflicts(flags, names) <==> n in names && n in flags
  {
    if names != [] {
      ConflictMeaning(flags, names[1..]);
      assert names == [names[0]] + names[1..];
    }
  }

  /** `s` reaches the parse by `base` with positionals after it, and `r` is what comes of that. */
  ghost predicate Canonicalizes(s: CommandSpec, base: Path, parsed: Parsed, r: Parsed) {
    && Normalizes(s) && base in SpecPaths(s)
    && BaseFits(s, base, parsed.commandPath) && r == Canonical(s, base, parsed)
  }

  /** Normalizing either binds the positionals of a registered spec that fits and yields its
    canonical path, or leaves the parse alone because no normalizing spec fits. */
  lemma {:induction false} NormalizedIsCanonical(specs: seq<CommandSpec>, parsed: Parsed)
    ensures
      var r := Normalized(specs, parsed);
      || (exists s, b :: s in specs && Canonicalizes(s, b, parsed, r))
      || (r == parsed && forall s, b :: s in specs && Normalizes(s) && b in SpecPaths(s) ==>
            !BaseFits(s, b, parsed.commandPath))
  {
    if specs != [] {
      FittingBaseFits(specs[0], SpecPaths(specs[0]), parsed.commandPath);
      NormalizedIsCanonical(specs[1..], parsed);
      assert specs == [specs[0]] + specs[1..];
      if Normalizes(specs[0]) && FittingBase(specs[0], SpecPaths(specs[0]), parsed.commandPath).Some? {
        var base := FittingBase(specs[0], SpecPaths(specs[0]), parsed.commandPath).value;
        assert Canonicalizes(specs[0], base, parsed, Normalized(specs, parsed));
      }
    }
  }
}
