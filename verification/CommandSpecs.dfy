/** Command specifications and the paths that reach them (src/cli/args.ts). */
module CommandSpecs {
  import opened Wrappers
  import opened StringOps

  type Path = seq<string>

  datatype CommandSpec = CommandSpec(
    path: Path,
    aliases: Option<seq<Path>>,
    destructive: bool,
    allowedFlags: seq<string>,
    positionalArgs: Option<seq<string>>
  )

  /** A spec is reached by its canonical path and by each declared alias. */
  function SpecPaths(spec: CommandSpec): seq<Path> {
    match spec.aliases
    case None => [spec.path]
    case Some(aliases) => [spec.path] + aliases
  }

  /** The path is the spec's own or one of its aliases. */
  predicate Names(path: Path, spec: CommandSpec) {
    path == spec.path || (spec.aliases.Some? && path in spec.aliases.value)
  }

  lemma SpecPathsAreNames(spec: CommandSpec, path: Path)
    ensures path in SpecPaths(spec) <==> Names(path, spec)
  {
  }

  /** `parts.join(' ')`. */
  function Join(parts: seq<string>): string {
    JoinWith(parts, ' ')
  }
}
