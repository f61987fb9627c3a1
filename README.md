# Argument resolution of a grep-like tool, modelled in Dafny

The tool's whole decision logic sits in `src/args.rs`: it turns the command
line into a `Command` for the search engine. This project models that logic
and proves its rules:

- `types.dfy` (module `Types`): the output mode `Output` and its default,
  `Options`, `Args`, `Command`, `Error`, and a `Result` for `parse`.
- `app.dfy` (module `App`): the argument schema that `build_app` declares.
  This covers the six boolean flags with their short and long spellings, and
  the override group of the four output flags. It also gives the part of
  clap's behaviour the program relies on. `Present` reads flag occurrences
  from left to right. Each occurrence adds its flag and removes the flags it
  overrides. `ArgMatches` is clap's result on a successful parse: the set of
  present flags, the pattern and the file operands.
- `assembler.dfy` (module `Assembler`): `build_args` as `BuildArgs`. The
  module also holds lemmas that follow a command line through override
  resolution and `build_args`:
  - the last output flag decides the output mode;
  - `inverse` is `-v` exclusive-or "`-L` is the last output flag";
  - a final `-L` acts as `-v -l` when `-v` is absent, and not when it is given;
  - `-v` with `-L` as the last output flag cancels the inversion.
- `parser.dfy` (module `Parser`): `parse` as `Parse`. It classifies the
  abstract outcome of clap's parse. The module also states the three example
  invocations `grep -i foo a.txt b.txt`, `grep -L foo` and
  `grep -o --byte-offset foo x.txt` as lemmas.

The exclusive-or rule for `inverse` (src/args.rs:155) is modelled as written.
The rule reads the flags after override resolution. Giving `-v` and `-L`,
with `-L` as the last output flag, yields a non-inverted search that lists
matching files; `InvertMatchCancelsFilesWithout` proves this. When a later
`-o`, `-b` or `-l` overrides `-L`, `-v` stands alone and the search is
inverted (`InverseFromFlags`). The source comment "(-L) is (-vl)" holds for a
final `-L` only when `-v` is absent. `FilesWithoutMatchesIsInvertedFilesWith`
proves it without `-v`. With `-v` already given, `-L`'s help text ("equivalent
to `-vl`") promises an inverted file-name listing, but a final `-L` gives a
non-inverted one. `InvertMatchCancelsFilesWithout` proves this, and proves
that it differs from the same line ending in `-l`, which is the line that
`-vl` names there. Writing `-v` a second time (`-v ... -v -l`) is not a
comparison the code can make: clap rejects a repeated `-v` as an error.

Two points about the code that the model keeps:

- The pattern may be empty. The `pattern` argument keeps clap's default of
  accepting an empty value, and `build_args` copies it verbatim. So
  `BuildArgs` promises only that the pattern is the one clap matched.
- `parse` returns `Result<Command, Error>`, with help and version as `Ok`;
  `Parse` does the same.

## Model

| member | source | states |
|---|---|---|
| `Types.DefaultOutput` | src/args.rs:12-14 | the default output mode is FileName: matching files are listed by name |
| `App.Overrides` | src/args.rs:83-120 | an output flag overrides the other three output flags (its group without itself); -v and -i override nothing |
| `App.PresentIsLastWins` | src/args.rs:78-121 | after resolution the present flags are exactly the non-output flags that were given plus the last output flag given, if any |
| `App.FlagOf` | src/args.rs:65-121 | a spelling the schema recognises is the short or the long spelling of the flag it names |
| `App.SpellingsNameTheirFlag` | src/args.rs:65-121 | the short and the long spelling of every flag both name that flag, so short and long forms mix freely |
| `App.FlagsOf` | src/args.rs:65-121 | a list of spellings resolves, position by position, to the flags they name, or to None exactly when some spelling is not one of the six flags |
| `App.FlagsOfSpellings` | src/args.rs:65-121 | spellings that each name the flag at the same position resolve to exactly that flag list |
| `App.OverridesAreMutual` | src/args.rs:83-120 | each of only-matching, byte-offset, files-with-matches and files-without-matches overrides exactly the other three; no other flag overrides or is overridden |
| `App.Present` | src/args.rs:78-121 | after override resolution, only flags that were given are present |
| `App.MatchingFlagPresent` | src/args.rs:65-76 | -v and -i lie outside the override group, so each is present exactly when it was given |
| `App.OutputFlagPresentIffLast` | src/args.rs:78-121 | an output flag is present after resolution exactly when it is the last output flag on the command line |
| `App.AtMostOneOutputFlag` | src/args.rs:83-120 | after resolution at most one output flag is present |
| `App.MatchesOf` | src/args.rs:54-121 | the matches of a successful parse: the present flags are the non-output flags given plus the last output flag given (last wins); the pattern is always there; the file operands are absent exactly when none were given, and otherwise are the operands as given |
| `Assembler.BuildArgs` | src/args.rs:125-162 | pattern copied; files are ["-"] without operands and otherwise the operands in order; output is Bytes iff -o is present, Offset iff -b is present without -o, FileName otherwise; inverse iff exactly one of -v and -L is present; case folding iff -i is present |
| `Assembler.FilesNeverEmpty` | src/args.rs:131-134 | files is never empty: one entry for stdin, or one per operand |
| `Assembler.ModeOf` | src/args.rs:145-149 | each output flag's own mode: -o gives Bytes, -b gives Offset, -l and -L give FileName |
| `Assembler.OutputOfSingleFlag` | src/args.rs:145-151 | when one output flag alone is present, the priority match yields that flag's mode |
| `Assembler.OutputDecidedByLastFlag` | src/args.rs:78-151 | for any command line the output mode is the mode of the last output flag given, or the default FileName when none is given |
| `Assembler.InverseFromFlags` | src/args.rs:155 | for any command line, inverse holds iff -v was given XOR -L is the last output flag |
| `Assembler.CaseInsensitiveFromFlags` | src/args.rs:156 | for any command line, case folding holds exactly when -i was given, whatever other flags appear |
| `Assembler.FilesWithoutMatchesIsInvertedFilesWith` | src/args.rs:155 | without -v, ending a command line with -L gives the same options as ending it with -v -l: inverted, FileName |
| `Assembler.InvertMatchCancelsFilesWithout` | src/args.rs:155 | with -v given, a final -L gives a non-inverted FileName search (not the inverted listing its help text calls -vl), and so differs from the same line ending in -l |
| `Parser.Parse` | src/args.rs:165-176 | success gives Ok(Grep) holding the result of build_args; HelpDisplayed gives Ok(Help) and VersionDisplayed gives Ok(Version); every other error kind gives Err; each failure's message is passed on unchanged |
| `Parser.ParsedSearchIsComplete` | src/args.rs:126-134 | a parsed search carries the matched pattern and a non-empty file list: ["-"] or the operands |
| `Parser.ScenarioIgnoreCase` | src/args.rs:125-162 | `-i foo a.txt b.txt` gives a non-inverted, case-folding FileName search of a.txt and b.txt |
| `Parser.ScenarioFilesWithoutMatches` | src/args.rs:125-162 | `-L foo` gives an inverted FileName search of stdin |
| `Parser.ScenarioLaterOutputFlagWins` | src/args.rs:78-162 | `-o --byte-offset foo x.txt` gives an Offset search, because the later -b overrides -o |

## Left out

- clap itself is not part of this model: tokenising the argument vector,
  splitting short-flag clusters such as `-ob` into `-o -b`, detecting
  `--help`/`-h`/`--version`, and rendering help, version and error texts.
  Its result is modelled abstractly. A successful parse is an `ArgMatches`
  built from the flag occurrences in order (`MatchesOf`), and a failure is
  an error kind with a message (`Parser.Outcome`).
- clap's usage errors are not derived from the command line: a missing
  pattern, an unknown flag, or a flag given twice. They appear only as
  the one catch-all error kind that `Parse` maps to `Err`. The model
  therefore does not show that a missing pattern always fails or that
  `--help` anywhere wins.
- A pattern or file operand that is not valid UTF-8 is not modelled. The
  schema does not ask clap for strict UTF-8 checking, so clap accepts such an
  argument, and `build_args` then panics when it reads the pattern or the file
  operands as text; Dafny strings cannot represent such an argument.
- `Present` treats a repeated flag as present once. clap reports a repeated
  flag as an error before `build_args` runs.
- The crate metadata macros (name, version, authors, description) are
  compile-time text and are not modelled.
- `parse` reads the process arguments through clap. The model takes the
  outcome of that call as a parameter instead.
- `Box<[String]>` is modelled as `seq<string>`. The `Debug` derives and the
  `Default` derives of `Options` and `Args` are not modelled, because
  nothing in the core uses them.
- The search, match and print engine that consumes `Command` is not part of
  this model.
