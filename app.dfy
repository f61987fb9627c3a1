/** The argument schema that `build_app` declares (src/args.rs, lines 48-122)
    and the part of clap's behaviour this program relies on: each flag has a
    short and a long spelling, and the four output flags override one
    another, so that only the last one given stays present. */
module App {
  import opened Types

  /** The boolean flags of the schema, by their clap argument names. */
  datatype Flag =
    | InvertMatch          // -v, --invert-match
    | IgnoreCase           // -i, --ignore-case
    | OnlyMatching         // -o, --only-matching
    | ByteOffset           // -b, --byte-offset
    | FilesWithMatches     // -l, --files-with-matches
    | FilesWithoutMatches  // -L, --files-without-matches

  /** A flag as written on the command line: `-v` or `--invert-match`. */
  datatype Spelling = Short(letter: char) | Long(name: string)

  function ShortName(f: Flag): char
  {
    match f
    case InvertMatch => 'v'
    case IgnoreCase => 'i'
    case OnlyMatching => 'o'
    case ByteOffset => 'b'
    case FilesWithMatches => 'l'
    case FilesWithoutMatches => 'L'
  }

  function LongName(f: Flag): string
  {
    match f
    case InvertMatch => "invert-match"
    case IgnoreCase => "ignore-case"
    case OnlyMatching => "only-matching"
    case ByteOffset => "byte-offset"
    case FilesWithMatches => "files-with-matches"
    case FilesWithoutMatches => "files-without-matches"
  }

  /** The flag a spelling names, if the schema knows it. */
  function FlagOf(s: Spelling): (r: Option<Flag>)
    ensures r.Some? ==> s == Short(ShortName(r.value)) || s == Long(LongName(r.value))
  {
    match s
    case Short(c) =>
      if c == 'v' then Some(InvertMatch)
      else if c == 'i' then Some(IgnoreCase)
      else if c == 'o' then Some(OnlyMatching)
      else if c == 'b' then Some(ByteOffset)
      else if c == 'l' then Some(FilesWithMatches)
      else if c == 'L' then Some(FilesWithoutMatches)
      else None
    case Long(n) =>
      if n == "invert-match" then Some(InvertMatch)
      else if n == "ignore-case" then Some(IgnoreCase)
      else if n == "only-matching" then Some(OnlyMatching)
      else if n == "byte-offset" then Some(ByteOffset)
      else if n == "files-with-matches" then Some(FilesWithMatches)
      else if n == "files-without-matches" then Some(FilesWithoutMatches)
      else None
  }

  /** Both spellings of every flag name that flag, so short and long forms
      may be mixed freely. */
  lemma SpellingsNameTheirFlag(f: Flag)
    ensures FlagOf(Short(ShortName(f))) == Some(f)
    ensures FlagOf(Long(LongName(f))) == Some(f)
  {
  }

  /** The flags named by a list of spellings, in order; None when some
      spelling is not one of the six flags. */
  function FlagsOf(sp: seq<Spelling>): (r: Option<seq<Flag>>)
    ensures r.Some? ==> |r.value| == |sp| && forall i :: 0 <= i < |sp| ==> FlagOf(sp[i]) == Some(r.value[i])
    ensures r.None? ==> exists i :: 0 <= i < |sp| && FlagOf(sp[i]).None?
  {
    if sp == [] then Some([])
    else
      match (FlagOf(sp[0]), FlagsOf(sp[1..]))
      case (Some(f), Some(fs)) =>
        assert forall i :: 1 <= i < |sp| ==> sp[i] == sp[1..][i - 1];
        Some([f] + fs)
      case (None, _) => None
      case (Some(_), None) =>
        var j :| 0 <= j < |sp[1..]| && FlagOf(sp[1..][j]).None?;
        assert FlagOf(sp[j + 1]).None?;
        None
  }

  /** Spellings that each name the flag at the same position resolve to
      exactly those flags. */
  lemma FlagsOfSpellings(sp: seq<Spelling>, ts: seq<Flag>)
    requires |sp| == |ts|
    requires forall i :: 0 <= i < |sp| ==> FlagOf(sp[i]) == Some(ts[i])
    ensures FlagsOf(sp) == Some(ts)
  {
    assert FlagsOf(sp).value == ts;
  }

  /** The override group of the schema: the four output flags. */
  const OutputFlags: set<Flag> := {OnlyMatching, ByteOffset, FilesWithMatches, FilesWithoutMatches}

  /** The flags each flag overrides (`overrides_with_all`): an output flag
      overrides the rest of its group, any other flag nothing. */
  function Overrides(f: Flag): (r: set<Flag>)
    ensures f in OutputFlags ==> r == OutputFlags - {f}
    ensures f !in OutputFlags ==> r == {}
  {
    match f
    case OnlyMatching => {ByteOffset, FilesWithMatches, FilesWithoutMatches}
    case ByteOffset => {OnlyMatching, FilesWithMatches, FilesWithoutMatches}
    case FilesWithMatches => {OnlyMatching, ByteOffset, FilesWithoutMatches}
    case FilesWithoutMatches => {OnlyMatching, ByteOffset, FilesWithMatches}
    case InvertMatch => {}
    case IgnoreCase => {}
  }

  /** Each output flag overrides exactly the other three, and nothing else
      overrides or is overridden. */
  lemma OverridesAreMutual(f: Flag, g: Flag)
    ensures g in Overrides(f) <==> f != g && f in OutputFlags && g in OutputFlags
  {
  }

  /** The flags present after clap has read the flag occurrences `ts` from
      left to right: each occurrence adds its flag and removes the flags it
      overrides. */
  function Present(ts: seq<Flag>): (p: set<Flag>)
    ensures forall f :: f in p ==> f in ts
  {
    if ts == [] then {}
    else
      var f := ts[|ts| - 1];
      (Present(ts[..|ts| - 1]) - Overrides(f)) + {f}
  }

  /** Position `i` holds the last output flag of `ts`. */
  ghost predicate IsLastOutput(ts: seq<Flag>, i: int)
  {
    0 <= i < |ts| && ts[i] in OutputFlags && forall j :: i < j < |ts| ==> ts[j] !in OutputFlags
  }

  /** The last output flag of `ts` is `f`. */
  ghost predicate LastOutputIs(ts: seq<Flag>, f: Flag)
  {
    exists i :: IsLastOutput(ts, i) && ts[i] == f
  }

  /** A flag outside the override group is present exactly when it was given. */
  lemma {:induction false} MatchingFlagPresent(ts: seq<Flag>, f: Flag)
    requires f !in OutputFlags
    ensures f in Present(ts) <==> f in ts
  {
    if ts != [] {
      var init := ts[..|ts| - 1];
      assert ts == init + [ts[|ts| - 1]];
      MatchingFlagPresent(init, f);
    }
  }

  /** An output flag is present exactly when it is the last output flag given. */
  lemma {:induction false} OutputFlagPresentIffLast(ts: seq<Flag>, f: Flag)
    requires f in OutputFlags
    ensures f in Present(ts) <==> LastOutputIs(ts, f)
  {
    if ts != [] {
      var n := |ts| - 1;
      var init, x := ts[..n], ts[n];
      assert ts == init + [x];
      OverridesAreMutual(x, f);
      OutputFlagPresentIffLast(init, f);
      if x in OutputFlags {
        LastOutputAfterOutputFlag(init, x, f);
      } else {
        LastOutputAfterOtherFlag(init, x, f);
      }
    }
  }

  /** An output flag appended to a command line becomes its last one. */
  lemma LastOutputAfterOutputFlag(init: seq<Flag>, x: Flag, f: Flag)
    requires x in OutputFlags
    ensures LastOutputIs(init + [x], f) <==> f == x
  {
    var ts := init + [x];
    assert IsLastOutput(ts, |init|);
    if LastOutputIs(ts, f) {
      var i :| IsLastOutput(ts, i) && ts[i] == f;
      assert i == |init|;
    }
  }

  /** A flag outside the group appended to a command line leaves its last
      output flag as it was. */
  lemma LastOutputAfterOtherFlag(init: seq<Flag>, x: Flag, f: Flag)
    requires x !in OutputFlags
    ensures LastOutputIs(init + [x], f) <==> LastOutputIs(init, f)
  {
    var ts := init + [x];
    if LastOutputIs(ts, f) {
      var i :| IsLastOutput(ts, i) && ts[i] == f;
      assert ts[|init|] == x;
      assert forall j :: 0 <= j < |init| ==> ts[j] == init[j];
      assert IsLastOutput(init, i);
    }
    if LastOutputIs(init, f) {
      var i :| IsLastOutput(init, i) && init[i] == f;
      assert IsLastOutput(ts, i);
    }
  }

  /** After override resolution at most one output flag is present. */
  lemma {:induction false} AtMostOneOutputFlag(ts: seq<Flag>, f: Flag, g: Flag)
    requires f in Present(ts) && f in OutputFlags
    requires g in Present(ts) && g in OutputFlags
    ensures f == g
  {
    if ts != [] {
      var n := |ts| - 1;
      if ts[n] !in OutputFlags {
        AtMostOneOutputFlag(ts[..n], f, g);
      }
    }
  }

  /** The flags present after resolution are the flags outside the override
      group that were given, and the last output flag given, if any. */
  lemma PresentIsLastWins(ts: seq<Flag>)
    ensures forall f :: f in Present(ts) <==>
      (f !in OutputFlags && f in ts) || (f in OutputFlags && LastOutputIs(ts, f))
  {
    forall f
      ensures f in Present(ts) <==>
        (f !in OutputFlags && f in ts) || (f in OutputFlags && LastOutputIs(ts, f))
    {
      if f in OutputFlags {
        OutputFlagPresentIffLast(ts, f);
      } else {
        MatchingFlagPresent(ts, f);
      }
    }
  }

  /** What clap returns for a successful parse (`ArgMatches`): the flags
      present, the `pattern` positional and the `files` positionals. */
  datatype ArgMatches = ArgMatches(present: set<Flag>, pattern: Option<string>, files: Option<seq<string>>)

  /** The matches of a successful parse of flag occurrences `ts`, the pattern
      and the file operands: `value_of("pattern")` is always there (the
      argument is required) and `values_of("files")` is absent when no file
      operand was given. */
  function MatchesOf(ts: seq<Flag>, pattern: string, files: seq<string>): (m: ArgMatches)
    ensures m.pattern == Some(pattern)
    ensures m.files.None? <==> files == []
    ensures m.files.Some? ==> m.files.value == files
    ensures forall f :: f in m.present <==>
      (f !in OutputFlags && f in ts) || (f in OutputFlags && LastOutputIs(ts, f))
  {
    PresentIsLastWins(ts);
    ArgMatches(Present(ts), Some(pattern), if files == [] then None else Some(files))
  }
}
