/** `parse` (src/args.rs, lines 165-176): classifies the outcome of clap's
    parse into a search command, a help or version request, or an error. */
module Parser {
  import opened Types
  import opened App
  import opened Assembler

  /** The kind of a clap error: the two kinds that clap uses to report that
      it rendered help or version text, and every other kind (a missing
      pattern, an unknown flag, a flag given twice, ...) as one. */
  datatype ErrorKind =
    | HelpDisplayed
    | VersionDisplayed
    | OtherKind

  datatype ClapError = ClapError(kind: ErrorKind, message: string)

  /** The result of `get_matches_safe`. A successful parse always carries
      the required pattern. */
  datatype Outcome = Matched(matches: ArgMatches) | Failed(error: ClapError)

  /** Success becomes a search; help and version "errors" become requests
      that carry clap's rendered text; every other error is reported with
      clap's message. */
  function Parse(outcome: Outcome): (r: Result<Command>)
    requires outcome.Matched? ==> outcome.matches.pattern.Some?
    ensures r.Ok? && r.value.Grep? <==> outcome.Matched?
    ensures r.Ok? && r.value.Grep? ==> r.value.args == BuildArgs(outcome.matches)
    ensures r.Ok? && r.value.Help? <==> outcome.Failed? && outcome.error.kind == HelpDisplayed
    ensures r.Ok? && r.value.Version? <==> outcome.Failed? && outcome.error.kind == VersionDisplayed
    ensures r.Err? <==> outcome.Failed? && outcome.error.kind !in {HelpDisplayed, VersionDisplayed}
    ensures outcome.Failed? ==> MessageOf(r) == Some(outcome.error.message)
  {
    match outcome
    case Matched(m) => Ok(Grep(BuildArgs(m)))
    case Failed(e) =>
      match e.kind
      case HelpDisplayed => Ok(Help(e.message))
      case VersionDisplayed => Ok(Version(e.message))
      case _ => Err(Error(e.message))
  }

  /** The text a result shows the user instead of searching, if any. */
  function MessageOf(r: Result<Command>): Option<string>
  {
    match r
    case Ok(Help(text)) => Some(text)
    case Ok(Version(text)) => Some(text)
    case Ok(Grep(_)) => None
    case Err(e) => Some(e.message)
  }

  /** A search is only ever started with the pattern clap matched and a
      non-empty list of files. */
  lemma ParsedSearchIsComplete(ts: seq<Flag>, pattern: string, files: seq<string>)
    ensures var r := Parse(Matched(MatchesOf(ts, pattern, files)));
      && r.Ok? && r.value.Grep?
      && r.value.args.pattern == pattern
      && r.value.args.files == (if files == [] then ["-"] else files)
      && r.value.args.files != []
  {
  }

  /** `grep -i foo a.txt b.txt` */
  lemma ScenarioIgnoreCase()
    ensures var sp := [Short('i')];
      && FlagsOf(sp).Some?
      && Parse(Matched(MatchesOf(FlagsOf(sp).value, "foo", ["a.txt", "b.txt"])))
         == Ok(Grep(Args(Options(inverse := false, caseInsensitive := true, output := FileName),
                         "foo", ["a.txt", "b.txt"])))
  {
  }

  /** `grep -L foo` */
  lemma ScenarioFilesWithoutMatches()
    ensures var sp := [Short('L')];
      && FlagsOf(sp).Some?
      && Parse(Matched(MatchesOf(FlagsOf(sp).value, "foo", [])))
         == Ok(Grep(Args(Options(inverse := true, caseInsensitive := false, output := FileName),
                         "foo", ["-"])))
  {
  }

  /** `grep -o --byte-offset foo x.txt`: the later -b overrides -o. */
  lemma ScenarioLaterOutputFlagWins()
    ensures var sp := [Short('o'), Long("byte-offset")];
      && FlagsOf(sp).Some?
      && Parse(Matched(MatchesOf(FlagsOf(sp).value, "foo", ["x.txt"])))
         == Ok(Grep(Args(Options(inverse := false, caseInsensitive := false, output := Offset),
                         "foo", ["x.txt"])))
  {
  }
}
