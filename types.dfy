/** The values that the argument resolver of the grep tool produces: the
    output mode, the matching options, the resolved search arguments, the
    command handed to the search engine, and the error of a malformed
    invocation (src/args.rs, lines 5-44). */
module Types {

  datatype Option<+T> = None | Some(value: T)

  /** Which property of a match is printed. */
  datatype Output =
    | FileName  // the name of each file that matches
    | Bytes     // the matched bytes of each match
    | Offset    // the byte offset of each match

  /** `impl Default for Output`: file names are reported unless asked otherwise. */
  function DefaultOutput(): (o: Output)
    ensures o == FileName
  {
    FileName
  }

  /** The matching options handed to the search engine. */
  datatype Options = Options(inverse: bool, caseInsensitive: bool, output: Output)

  /** A resolved search: options, the pattern and the files to scan, in order. */
  datatype Args = Args(options: Options, pattern: string, files: seq<string>)

  /** What a successful resolution asks the program to do. */
  datatype Command =
    | Help(text: string)
    | Version(text: string)
    | Grep(args: Args)

  /** A malformed invocation, carrying the message to show the user. */
  datatype Error = Error(message: string)

  datatype Result<+T> = Ok(value: T) | Err(error: Error)
}
