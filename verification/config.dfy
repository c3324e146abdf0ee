/** The search configuration and the two ways the program resolves it: the
    manual positional parser `myparse` and the post-parse fold of `build`. */
module Config {
  import opened Results
  import opened Text

  /** File to search, pattern to look for, and whether case is ignored. */
  datatype Config = Config(filename: string, pattern: string, insensitive: bool)

  /** The usage error of the positional parser; `given` is the count it reports
      as the number of arguments supplied after the program name. */
  datatype UsageError = UsageError(given: nat)

  /** A configuration whose pattern is already folded when case is ignored,
      so that it is never folded a second time. */
  predicate Normalized(c: Config) {
    c.insensitive ==> IsLowered(c.pattern)
  }

  /** The argument count as the source computes it: `args.len() - 1` on an
      unsigned machine integer, which has no value for an empty argument vector
      (the subtraction overflows: a panic in a debug build, a wrap to the
      largest `usize` in a release build). */
  function UsageCountAsWritten(n: nat): (r: Option<nat>)
    ensures r.Some? <==> n > 0
    ensures r.Some? ==> r.value + 1 == n
  {
    if n == 0 then None else Some(n - 1)
  }

  /** An empty argument vector, which the operating system permits, has no
      count in the source's computation. */
  lemma UsageCountUnderflowsOnEmptyArgs()
    ensures UsageCountAsWritten(0).None?
  {
  }

  /** The count the usage message evidently means: arguments after the
      program name, and zero when there is not even a program name. */
  function UsageCount(n: nat): (r: nat)
    ensures r + 1 == n || (n == 0 && r == 0)
    ensures r <= n
    ensures n > 0 ==> UsageCountAsWritten(n) == Some(r)
  {
    if n == 0 then 0 else n - 1
  }

  /** The optional fourth token counts as the case-insensitivity flag when its
      folded text is one of the two flag spellings. */
  predicate IsInsensitiveFlag(a: string) {
    var folded := Lower(a);
    folded == "--insensitive" || folded == "-i"
  }

  /** The flag is recognised exactly when the token spells `--insensitive` or
      `-i` in any mixture of upper and lower case; any other token is not. */
  lemma InsensitiveFlagSpellings(a: string)
    ensures IsInsensitiveFlag(a) <==>
      SpellsIgnoringCase(a, "--insensitive") || SpellsIgnoringCase(a, "-i")
  {
    LowerEqualsIffSpells(a, "--insensitive");
    LowerEqualsIffSpells(a, "-i");
  }

  /** The post-parse fold of `build`: the pattern is lowercased once, and only
      when the insensitive flag is set. */
  function Build(parsed: Config): (c: Config)
    ensures c.filename == parsed.filename
    ensures c.insensitive == parsed.insensitive
    ensures Normalized(c)
    ensures Lower(c.pattern) == Lower(parsed.pattern)
    ensures !parsed.insensitive ==> c.pattern == parsed.pattern
  {
    if parsed.insensitive then parsed.(pattern := Lower(parsed.pattern)) else parsed
  }

  /** Building an already built configuration changes nothing: the pattern is
      never folded twice. */
  lemma BuildIdempotent(parsed: Config)
    ensures Build(Build(parsed)) == Build(parsed)
  {
    LowerIsLowered(parsed.pattern);
  }

  /** A normalized configuration is its own build. */
  lemma BuildFixesNormalized(c: Config)
    requires Normalized(c)
    ensures Build(c) == c
  {
    if c.insensitive {
      LoweredIsFixpoint(c.pattern);
    }
  }

  /** The manual positional parser: `<program> <filename> <pattern> [flag]`.
      Fewer than three entries is a usage error; a fourth token that is not the
      flag leaves the search case-sensitive; later tokens are ignored. */
  function MyParse(args: seq<string>): (r: Result<Config, UsageError>)
    ensures r.Failure? <==> |args| < 3
    ensures r.Failure? ==> r.error.given == UsageCount(|args|)
    ensures r.Success? ==> r.value.filename == args[1]
    ensures r.Success? ==> (r.value.insensitive <==>
      |args| >= 4 && (SpellsIgnoringCase(args[3], "--insensitive") || SpellsIgnoringCase(args[3], "-i")))
    ensures r.Success? ==> Normalized(r.value)
    ensures r.Success? ==> Lower(r.value.pattern) == Lower(args[2])
    ensures r.Success? && !r.value.insensitive ==> r.value.pattern == args[2]
  {
    if |args| < 3 then
      Failure(UsageError(UsageCount(|args|)))
    else
      var filename := args[1];
      var insensitive :=
        if |args| >= 4 then InsensitiveFlagSpellings(args[3]); IsInsensitiveFlag(args[3]) else false;
      LowerIsLowered(args[2]);
      var pattern := if insensitive then Lower(args[2]) else args[2];
      Success(Config(filename, pattern, insensitive))
  }

  /** Both input modes yield the same configuration: positional parsing equals
      building from the same filename, pattern and flag. */
  lemma MyParseAgreesWithBuild(args: seq<string>)
    requires |args| >= 3
    ensures MyParse(args) ==
      Success(Build(Config(args[1], args[2], |args| >= 4 && IsInsensitiveFlag(args[3]))))
  {
  }

  /** A fourth token that is not a spelling of the flag is silently ignored. */
  lemma UnrecognisedFlagIgnored(args: seq<string>)
    requires |args| >= 4 && !IsInsensitiveFlag(args[3])
    ensures MyParse(args) == Success(Config(args[1], args[2], false))
  {
  }
}
