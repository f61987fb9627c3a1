/** `build_args` (src/args.rs, lines 125-162): derives the search arguments
    from the matches of a successful parse. */
module Assembler {
  import opened Types
  import opened App

  /** The search arguments of a successful parse. The files default to "-"
      (standard input); the output mode is that of the first present output
      flag in priority order (only-matching, byte-offset, files-with-matches,
      files-without-matches), or the default; inversion is the exclusive or
      of -v and -L; case folding mirrors -i. */
  function BuildArgs(m: ArgMatches): (a: Args)
    requires m.pattern.Some?  // the pattern is a required argument
    ensures a.pattern == m.pattern.value
    ensures m.files.None? ==> a.files == ["-"]
    ensures m.files.Some? ==> a.files == m.files.value
    ensures a.options.output == Bytes <==> OnlyMatching in m.present
    ensures a.options.output == Offset <==> OnlyMatching !in m.present && ByteOffset in m.present
    ensures a.options.output == FileName <==> OnlyMatching !in m.present && ByteOffset !in m.present
    ensures a.options.inverse <==> (InvertMatch in m.present <==> FilesWithoutMatches !in m.present)
    ensures a.options.caseInsensitive <==> IgnoreCase in m.present
  {
    var files := match m.files
      case None => ["-"]  // read standard input
      case Some(fs) => fs;
    var flag := f => f in m.present;
    var output :=
      if flag(OnlyMatching) then Bytes
      else if flag(ByteOffset) then Offset
      else if flag(FilesWithMatches) then FileName
      else if flag(FilesWithoutMatches) then FileName
      else DefaultOutput();
    var options := Options(
      inverse := flag(InvertMatch) != flag(FilesWithoutMatches),  // -L is -vl
      caseInsensitive := flag(IgnoreCase),
      output := output);
    Args(options, m.pattern.value, files)
  }

  /** `files` is never empty, given that clap reports either no file
      operands or at least one. */
  lemma FilesNeverEmpty(m: ArgMatches)
    requires m.pattern.Some?
    requires m.files.Some? ==> m.files.value != []
    ensures BuildArgs(m).files != []
    ensures |BuildArgs(m).files| == if m.files.None? then 1 else |m.files.value|
  {
  }

  /** The output mode of each output flag when it is the only one present. */
  function ModeOf(f: Flag): (o: Output)
    requires f in OutputFlags
    ensures o == Bytes <==> f == OnlyMatching
    ensures o == Offset <==> f == ByteOffset
  {
    match f
    case OnlyMatching => Bytes
    case ByteOffset => Offset
    case FilesWithMatches => FileName
    case FilesWithoutMatches => FileName
  }

  /** Once at most one output flag is present, the priority order no longer
      matters: the output mode is that flag's mode. */
  lemma OutputOfSingleFlag(m: ArgMatches, f: Flag)
    requires m.pattern.Some?
    requires m.present * OutputFlags == {f}
    ensures BuildArgs(m).options.output == ModeOf(f)
  {
    assert f in m.present;
    assert forall g :: g in OutputFlags && g in m.present ==> g in m.present * OutputFlags;
  }

  /** The output mode of a command line is decided by its last output flag,
      whatever output flags came before it; with no output flag it is the
      default. */
  lemma OutputDecidedByLastFlag(ts: seq<Flag>, pattern: string, files: seq<string>)
    ensures forall i :: IsLastOutput(ts, i) ==>
      BuildArgs(MatchesOf(ts, pattern, files)).options.output == ModeOf(ts[i])
    ensures (forall i :: 0 <= i < |ts| ==> ts[i] !in OutputFlags) ==>
      BuildArgs(MatchesOf(ts, pattern, files)).options.output == DefaultOutput()
  {
  }

  /** Inversion is -v exclusive-or "-L is the last output flag": a later
      -o, -b or -l cancels the inversion that -L brings. */
  lemma InverseFromFlags(ts: seq<Flag>, pattern: string, files: seq<string>)
    ensures BuildArgs(MatchesOf(ts, pattern, files)).options.inverse
        <==> (InvertMatch in ts <==> !LastOutputIs(ts, FilesWithoutMatches))
  {
  }

  /** Case folding is asked for exactly when -i was given, whatever else was. */
  lemma CaseInsensitiveFromFlags(ts: seq<Flag>, pattern: string, files: seq<string>)
    ensures BuildArgs(MatchesOf(ts, pattern, files)).options.caseInsensitive <==> IgnoreCase in ts
  {
  }

  /** -L at the end of a command line without -v has the effect of -v -l. */
  lemma FilesWithoutMatchesIsInvertedFilesWith(ts: seq<Flag>, pattern: string, files: seq<string>)
    requires InvertMatch !in ts
    ensures BuildArgs(MatchesOf(ts + [FilesWithoutMatches], pattern, files)).options
         == BuildArgs(MatchesOf(ts + [InvertMatch, FilesWithMatches], pattern, files)).options
         == Options(inverse := true, caseInsensitive := IgnoreCase in ts, output := FileName)
  {
  }

  /** -v together with a final -L cancels the inversion: the files that
      match are listed. So with -v given, ending the line with -L does not
      give what ending it with -l gives (-v ... -l, the inverted listing). */
  lemma InvertMatchCancelsFilesWithout(ts: seq<Flag>, pattern: string, files: seq<string>)
    requires InvertMatch in ts
    ensures BuildArgs(MatchesOf(ts + [FilesWithoutMatches], pattern, files)).options
         == Options(inverse := false, caseInsensitive := IgnoreCase in ts, output := FileName)
    ensures BuildArgs(MatchesOf(ts + [FilesWithoutMatches], pattern, files)).options
         != BuildArgs(MatchesOf(ts + [FilesWithMatches], pattern, files)).options
  {
  }
}
