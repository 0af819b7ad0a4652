/**
 * The decisions `Args` makes from the parsed command line: which output
 * format wins, whether a pattern is required, and whether the positional
 * argument is the pattern or the first file. Parsing the command line
 * itself (clap) is not modelled; an `Args` value is its result.
 */
module Cli {
  import opened Wrappers

  /** The parsed command line. */
  datatype Args = Args(
    pattern: Option<string>,
    files: seq<string>,
    csv: bool,
    noHeaders: bool,
    json: bool,
    plot: bool,
    yZero: bool,
    png: Option<string>,
    timeFormat: Option<string>,
    bucket: Option<string>,
    grep: seq<string>,
    noDefaultPattern: bool,
    follow: bool,
    verbose: bool,
    failQuick: bool)

  datatype OutputFormat = Table | Csv | Json | AsciiPlot | Png

  const MissingPatternMessage: string := "REGEX pattern is required unless --no-default-pattern is set"

  /**
   * `output_format`: CSV, then JSON, then the ASCII plot, then PNG win in
   * that order; with none of them requested the output is a table.
   */
  function Format(args: Args): (f: OutputFormat)
    ensures f == Csv <==> args.csv
    ensures f == Json <==> !args.csv && args.json
    ensures f == AsciiPlot <==> !args.csv && !args.json && args.plot
    ensures f == Png <==> !args.csv && !args.json && !args.plot && args.png.Some?
    ensures f == Table <==> !args.csv && !args.json && !args.plot && args.png.None?
  {
    if args.csv then Csv
    else if args.json then Json
    else if args.plot then AsciiPlot
    else if args.png.Some? then Png
    else Table
  }

  /** The command line rejects any two of the four output options together. */
  predicate OutputOptionsExclusive(args: Args)
  {
    (if args.csv then 1 else 0) + (if args.json then 1 else 0)
      + (if args.plot then 1 else 0) + (if args.png.Some? then 1 else 0) <= 1
  }

  /** Under those conflicts the precedence never matters: the one option given is the format. */
  lemma FormatOfExclusiveOptions(args: Args)
    requires OutputOptionsExclusive(args)
    ensures args.json ==> Format(args) == Json
    ensures args.plot ==> Format(args) == AsciiPlot
    ensures args.png.Some? ==> Format(args) == Png
  {
  }

  /** `validate`: a pattern is required unless `--no-default-pattern` is given. */
  function Validate(args: Args): (r: Result<(), string>)
    ensures r.Err? <==> args.pattern.None? && !args.noDefaultPattern
    ensures r.Err? ==> r.error == MissingPatternMessage
  {
    if args.pattern.None? && !args.noDefaultPattern then Err(MissingPatternMessage) else Ok(())
  }

  /** `get_pattern`: no pattern under `--no-default-pattern`, the positional one otherwise. */
  function GetPattern(args: Args): (p: Option<string>)
    ensures args.noDefaultPattern ==> p.None?
    ensures !args.noDefaultPattern ==> p == args.pattern
  {
    if args.noDefaultPattern then None else args.pattern
  }

  /**
   * `get_files`: under `--no-default-pattern` a positional argument in the
   * pattern slot is the first file; otherwise the files are as given.
   */
  function GetFiles(args: Args): (fs: seq<string>)
    ensures args.noDefaultPattern && args.pattern.Some? ==> fs == [args.pattern.value] + args.files
    ensures !(args.noDefaultPattern && args.pattern.Some?) ==> fs == args.files
  {
    if args.noDefaultPattern && args.pattern.Some? then [args.pattern.value] + args.files
    else args.files
  }

  /**
   * The positional argument in the pattern slot is used exactly once: as
   * the pattern, or as the first file, never both and never neither.
   */
  lemma PositionalUsedOnce(args: Args)
    requires args.pattern.Some?
    ensures GetPattern(args) == args.pattern <==> GetFiles(args) == args.files
    ensures GetPattern(args).None? <==> |GetFiles(args)| == |args.files| + 1
    ensures GetPattern(args).None? ==> GetFiles(args)[0] == args.pattern.value
  {
  }

  /** Once validated, either there is a pattern to search for or every line is wanted. */
  lemma ValidatedHasPatternOrAll(args: Args)
    requires Validate(args).Ok?
    ensures GetPattern(args).Some? || args.noDefaultPattern
  {
  }

  lemma Examples()
    ensures
      var base := Args(Some("test"), [], false, false, false, false, false, None, None, None, [], false, false, false, false);
      && Format(base) == Table
      && Format(base.(csv := true)) == Csv
      && Format(base.(json := true)) == Json
      && Format(base.(plot := true)) == AsciiPlot
      && Format(base.(png := Some("out.png"))) == Png
      && Validate(base.(pattern := None)).Err?
      && Validate(base).Ok?
      && Validate(base.(pattern := None, noDefaultPattern := true)).Ok?
      && GetPattern(base) == Some("test")
      && GetPattern(base.(noDefaultPattern := true)).None?
      && GetFiles(base.(pattern := Some("myfile.log"), files := ["file2.log"], noDefaultPattern := true))
           == ["myfile.log", "file2.log"]
      && GetFiles(base.(pattern := Some("ERROR"))) == []
      && GetFiles(base.(pattern := Some("ERROR"), files := ["file1.log", "file2.log"])) == ["file1.log", "file2.log"]
  {
  }
}
