/**
 * `LogProcessor`: assembles the pattern list and the aggregator from the
 * command line, then feeds every line that matches a pattern and carries a
 * timestamp into the aggregator.
 *
 * Reading files (plain, gzip, stdin) is not modelled: a batch run receives
 * the lines of each source, in the order the sources are read. Regular
 * expressions are not modelled either: `validRegex` says whether
 * `Regex::new` accepts a pattern and `isMatch` whether a pattern matches a
 * line.
 */
module Processor {
  import opened Wrappers
  import opened Chrono
  import opened Bucket
  import opened Counts
  import opened Timestamp
  import opened Cli

  /** What the processor relies on but does not define. */
  datatype Environment = Environment(
    isMatch: (string, string) -> bool,
    validRegex: string -> bool,
    parseWidth: string -> Option<int>,
    recognizers: Recognizers,
    parsers: Parsers,
    year: int)

  /** Everything that decides whether a line is counted, and at which instant. */
  datatype Pipeline = Pipeline(patterns: seq<string>, customFormat: Option<string>, env: Environment)
  {
    function Parser(): TimestampParser
    {
      TimestampParser(customFormat, env.recognizers)
    }
  }

  /** The errors `LogProcessor::new` and follow mode report. */
  datatype Failure = Usage(message: string) | BadRegex(pattern: string) | BadBucketSize(message: string)

  const FollowNoFileMessage: string := "Follow mode requires at least one file argument"
  const FollowManyFilesMessage: string := "Follow mode only supports a single file"

  // ---------------------------------------------------------------------
  // Patterns
  // ---------------------------------------------------------------------

  /** `matches_patterns`: no patterns match every line; otherwise some pattern must match. */
  function MatchesPatterns(patterns: seq<string>, isMatch: (string, string) -> bool, line: string): (b: bool)
    ensures patterns == [] ==> b
    ensures patterns != [] ==> (b <==> exists i | 0 <= i < |patterns| :: isMatch(patterns[i], line))
  {
    patterns == [] || AnyMatches(patterns, isMatch, line)
  }

  function AnyMatches(patterns: seq<string>, isMatch: (string, string) -> bool, line: string): (b: bool)
    ensures b <==> exists i | 0 <= i < |patterns| :: isMatch(patterns[i], line)
  {
    if patterns == [] then false
    else
      assert forall i | 1 <= i < |patterns| :: patterns[i] == patterns[1..][i - 1];
      isMatch(patterns[0], line) || AnyMatches(patterns[1..], isMatch, line)
  }

  /** The patterns `new` compiles, in order: the primary one, if any, then each `--grep`. */
  function Requested(args: Args): seq<string>
  {
    (if GetPattern(args).Some? then [GetPattern(args).value] else []) + args.grep
  }

  /** The index of the first pattern `Regex::new` rejects. */
  function FirstInvalid(ps: seq<string>, valid: string -> bool): (r: Option<nat>)
    ensures r.None? <==> forall i | 0 <= i < |ps| :: valid(ps[i])
    ensures r.Some? ==> r.value < |ps| && !valid(ps[r.value])
    ensures r.Some? ==> forall i | 0 <= i < r.value :: valid(ps[i])
  {
    if ps == [] then None
    else if !valid(ps[0]) then Some(0)
    else
      assert forall i | 1 <= i < |ps| :: ps[i] == ps[1..][i - 1];
      match FirstInvalid(ps[1..], valid)
      case None => None
      case Some(i) => Some(i + 1)
  }

  /** Compiling stops at pattern `k` when it is the first that does not compile. */
  lemma CompileStopsAt(ps: seq<string>, valid: string -> bool, k: nat)
    requires k < |ps| && !valid(ps[k])
    requires forall j | 0 <= j < k :: valid(ps[j])
    ensures Compile(ps, valid) == Err(BadRegex(ps[k]))
  {
    assert FirstInvalid(ps, valid) == Some(k);
  }

  /** When every pattern compiles, all of them are kept, in order. */
  lemma CompileAllValid(ps: seq<string>, valid: string -> bool)
    requires forall i | 0 <= i < |ps| :: valid(ps[i])
    ensures Compile(ps, valid) == Ok(ps)
  {
  }

  /** Compiling the patterns in order stops at the first one that does not compile. */
  function Compile(ps: seq<string>, valid: string -> bool): (r: Result<seq<string>, Failure>)
    ensures r.Ok? <==> forall i | 0 <= i < |ps| :: valid(ps[i])
    ensures r.Ok? ==> r.value == ps
    ensures r.Err? ==> r.error.BadRegex? && r.error.pattern in ps && !valid(r.error.pattern)
  {
    match FirstInvalid(ps, valid)
    case None => Ok(ps)
    case Some(i) => Err(BadRegex(ps[i]))
  }

  /** The pattern-building part of `new`: push the primary pattern, then each `--grep` one. */
  method BuildPatterns(args: Args, valid: string -> bool) returns (r: Result<seq<string>, Failure>)
    ensures r == Compile(Requested(args), valid)
  {
    var patterns: seq<string> := [];
    var primary := GetPattern(args);
    if primary.Some? {
      if !valid(primary.value) {
        CompileStopsAt(Requested(args), valid, 0);
        return Err(BadRegex(primary.value));
      }
      patterns := [primary.value];
    }
    r := CompileOnto(patterns, args.grep, valid);
  }

  /** Appends each of `more` to patterns already compiled, stopping at the first that does not compile. */
  method CompileOnto(compiled: seq<string>, more: seq<string>, valid: string -> bool) returns (r: Result<seq<string>, Failure>)
    requires forall k | 0 <= k < |compiled| :: valid(compiled[k])
    ensures r == Compile(compiled + more, valid)
  {
    ghost var want := compiled + more;
    var patterns := compiled;
    var i := 0;
    while i < |more|
      invariant 0 <= i <= |more|
      invariant patterns == want[..|compiled| + i]
      invariant forall k | 0 <= k < |patterns| :: valid(patterns[k])
    {
      var pattern := more[i];
      if !valid(pattern) {
        CompileStopsAt(want, valid, |compiled| + i);
        return Err(BadRegex(pattern));
      }
      assert want[..|compiled| + i + 1] == patterns + [pattern];
      patterns := patterns + [pattern];
      i := i + 1;
    }
    assert patterns == want;
    CompileAllValid(want, valid);
    return Ok(patterns);
  }

  /** With `--no-default-pattern` and no `--grep`, every line matches. */
  lemma NoPatternMatchesEverything(args: Args, isMatch: (string, string) -> bool, line: string)
    requires args.noDefaultPattern && args.grep == []
    ensures MatchesPatterns(Requested(args), isMatch, line)
  {
  }

  /**
   * What `new` produces, in its order of checks: the command line is
   * validated, then every pattern compiled, then the bucket size read.
   */
  function Setup(args: Args, env: Environment): (r: Result<(seq<string>, BucketSize), Failure>)
    ensures Validate(args).Err? ==> r == Err(Usage(MissingPatternMessage))
    ensures Validate(args).Ok? && Compile(Requested(args), env.validRegex).Err? ==>
      r == Err(Compile(Requested(args), env.validRegex).error)
    ensures r.Ok? ==>
      && Validate(args).Ok?
      && r.value.0 == Requested(args)
      && (forall i | 0 <= i < |r.value.0| :: env.validRegex(r.value.0[i]))
      && SizeFromConfig(args.bucket, env.parseWidth) == Ok(r.value.1)
    ensures r.Ok? <==>
      && Validate(args).Ok?
      && Compile(Requested(args), env.validRegex).Ok?
      && SizeFromConfig(args.bucket, env.parseWidth).Ok?
    ensures
      && Validate(args).Ok?
      && Compile(Requested(args), env.validRegex).Ok?
      && SizeFromConfig(args.bucket, env.parseWidth).Err?
      ==> r == Err(BadBucketSize(SizeFromConfig(args.bucket, env.parseWidth).error))
    ensures r.Err? && r.error.BadBucketSize? ==> r.error.message == InvalidSizeMessage
  {
    match Validate(args)
    case Err(e) => Err(Usage(e))
    case Ok(_) =>
      match Compile(Requested(args), env.validRegex)
      case Err(e) => Err(e)
      case Ok(patterns) =>
        match SizeFromConfig(args.bucket, env.parseWidth)
        case Err(e) => Err(BadBucketSize(e))
        case Ok(size) => Ok((patterns, size))
  }

  // ---------------------------------------------------------------------
  // Which lines are counted
  // ---------------------------------------------------------------------

  /** The instant a line contributes: its timestamp when it matches and carries one. */
  function LineInstant(pl: Pipeline, line: string): (r: Option<Instant>)
    ensures r.Some? <==>
      MatchesPatterns(pl.patterns, pl.env.isMatch, line) && ParseLineSpec(pl.Parser(), pl.env.parsers, pl.env.year, line).Some?
    ensures r.Some? ==> r == ParseLineSpec(pl.Parser(), pl.env.parsers, pl.env.year, line)
  {
    if MatchesPatterns(pl.patterns, pl.env.isMatch, line) then ParseLineSpec(pl.Parser(), pl.env.parsers, pl.env.year, line)
    else None
  }

  function Stamp(pl: Pipeline): string -> Option<Instant>
  {
    line => LineInstant(pl, line)
  }

  /** The instants `f` gives a run of lines, in line order, skipping lines it gives none for. */
  function Collect(f: string -> Option<Instant>, lines: seq<string>): (r: seq<Instant>)
    ensures |r| <= |lines|
  {
    if lines == [] then []
    else (match f(lines[0]) case Some(t) => [t] case None => []) + Collect(f, lines[1..])
  }

  /** The instants a run of lines contributes to the aggregator. */
  function Accepted(pl: Pipeline, lines: seq<string>): seq<Instant>
  {
    Collect(Stamp(pl), lines)
  }

  lemma {:induction false} CollectAppend(f: string -> Option<Instant>, a: seq<string>, b: seq<string>)
    ensures Collect(f, a + b) == Collect(f, a) + Collect(f, b)
  {
    if a != [] {
      assert (a + b)[0] == a[0] && (a + b)[1..] == a[1..] + b;
      CollectAppend(f, a[1..], b);
    } else {
      assert a + b == b;
    }
  }

  /** Collecting one more line appends what that line gives, a part of what the whole run gives. */
  lemma CollectStep(f: string -> Option<Instant>, lines: seq<string>, i: nat)
    requires i < |lines|
    ensures Collect(f, lines[..i + 1]) == Collect(f, lines[..i]) + Collect(f, [lines[i]])
    ensures |Collect(f, [lines[i]])| <= |Collect(f, lines)|
    ensures Collect(f, [lines[i]]) == match f(lines[i]) case Some(t) => [t] case None => []
  {
    assert lines[..i + 1] == lines[..i] + [lines[i]];
    CollectAppend(f, lines[..i], [lines[i]]);
    assert lines == lines[..i + 1] + lines[i + 1..];
    CollectAppend(f, lines[..i + 1], lines[i + 1..]);
    CollectOne(f, lines[i]);
  }

  lemma CollectOne(f: string -> Option<Instant>, line: string)
    ensures Collect(f, [line]) == match f(line) case Some(t) => [t] case None => []
  {
    assert [line][1..] == [];
  }

  /** Every collected instant is what `f` gives some line. */
  lemma {:induction false} CollectFromLines(f: string -> Option<Instant>, lines: seq<string>, t: Instant)
    requires t in Collect(f, lines)
    ensures exists i | 0 <= i < |lines| :: f(lines[i]) == Some(t)
  {
    if f(lines[0]) != Some(t) {
      CollectFromLines(f, lines[1..], t);
      var i :| 0 <= i < |lines[1..]| && f(lines[1..][i]) == Some(t);
      assert lines[1..][i] == lines[i + 1];
    }
  }

  /** Lines `f` gives nothing for are skipped; when that is every line, nothing is collected. */
  lemma {:induction false} CollectNone(f: string -> Option<Instant>, lines: seq<string>)
    requires forall i | 0 <= i < |lines| :: f(lines[i]).None?
    ensures Collect(f, lines) == []
  {
    if lines != [] {
      assert forall i | 1 <= i < |lines| :: lines[1..][i - 1] == lines[i];
      CollectNone(f, lines[1..]);
    }
  }

  /** When `f` gives an instant for every line, one is collected per line. */
  lemma {:induction false} CollectAll(f: string -> Option<Instant>, lines: seq<string>)
    requires forall i | 0 <= i < |lines| :: f(lines[i]).Some?
    ensures |Collect(f, lines)| == |lines|
  {
    if lines != [] {
      assert forall i | 1 <= i < |lines| :: lines[1..][i - 1] == lines[i];
      CollectAll(f, lines[1..]);
    }
  }

  /** Every counted instant is the timestamp of some line that matched a pattern. */
  lemma AcceptedComeFromLines(pl: Pipeline, lines: seq<string>, t: Instant)
    requires t in Accepted(pl, lines)
    ensures exists i | 0 <= i < |lines| ::
      MatchesPatterns(pl.patterns, pl.env.isMatch, lines[i])
      && ParseLineSpec(pl.Parser(), pl.env.parsers, pl.env.year, lines[i]) == Some(t)
  {
    CollectFromLines(Stamp(pl), lines, t);
    var i :| 0 <= i < |lines| && Stamp(pl)(lines[i]) == Some(t);
    assert LineInstant(pl, lines[i]) == Some(t);
  }

  /** Lines that do not match, or carry no timestamp, are never counted. */
  lemma RejectedLinesAreSkipped(pl: Pipeline, lines: seq<string>)
    requires forall i | 0 <= i < |lines| ::
      !MatchesPatterns(pl.patterns, pl.env.isMatch, lines[i])
      || ParseLineSpec(pl.Parser(), pl.env.parsers, pl.env.year, lines[i]).None?
    ensures Accepted(pl, lines) == []
  {
    forall i | 0 <= i < |lines| ensures Stamp(pl)(lines[i]).None? {
      assert LineInstant(pl, lines[i]).None?;
    }
    CollectNone(Stamp(pl), lines);
  }

  /** With no patterns and a timestamp on every line, every line is counted. */
  lemma EveryLineCounted(pl: Pipeline, lines: seq<string>)
    requires pl.patterns == []
    requires forall i | 0 <= i < |lines| :: ParseLineSpec(pl.Parser(), pl.env.parsers, pl.env.year, lines[i]).Some?
    ensures |Accepted(pl, lines)| == |lines|
  {
    forall i | 0 <= i < |lines| ensures Stamp(pl)(lines[i]).Some? {
      assert LineInstant(pl, lines[i]).Some?;
    }
    CollectAll(Stamp(pl), lines);
  }

  /** The lines of every source, one source after another. */
  function Flatten(sources: seq<seq<string>>): (lines: seq<string>)
    ensures |sources| == 1 ==> lines == sources[0]
  {
    if sources == [] then [] else sources[0] + Flatten(sources[1..])
  }

  lemma {:induction false} FlattenSnoc(sources: seq<seq<string>>, s: nat)
    requires s < |sources|
    ensures Flatten(sources[..s + 1]) == Flatten(sources[..s]) + sources[s]
  {
    if s == 0 {
      assert sources[..1] == [sources[0]];
      assert sources[..0] == [];
    } else {
      assert sources[..s + 1][1..] == sources[1..][..s];
      assert sources[..s][1..] == sources[1..][..s - 1];
      FlattenSnoc(sources[1..], s - 1);
    }
  }

  // ---------------------------------------------------------------------
  // Follow-mode argument checks
  // ---------------------------------------------------------------------

  /**
   * The checks at the start of `run_follow_mode`, on `args.files` as the
   * source reads them: exactly one file is required.
   */
  function FollowTargetAsWritten(args: Args): (r: Result<string, Failure>)
    ensures r.Ok? <==> |args.files| == 1
    ensures r.Ok? ==> r.value == args.files[0]
    ensures |args.files| == 0 ==> r == Err(Usage(FollowNoFileMessage))
    ensures |args.files| > 1 ==> r == Err(Usage(FollowManyFilesMessage))
  {
    if |args.files| == 0 then Err(Usage(FollowNoFileMessage))
    else if |args.files| > 1 then Err(Usage(FollowManyFilesMessage))
    else Ok(args.files[0])
  }

  /**
   * The same checks on the file list batch mode reads, `get_files`, so that
   * a file in the positional pattern slot under `--no-default-pattern` is
   * followed like it is read in batch mode.
   */
  function FollowTarget(args: Args): (r: Result<string, Failure>)
    ensures r.Ok? <==> |GetFiles(args)| == 1
    ensures r.Ok? ==> r.value == GetFiles(args)[0]
    ensures |GetFiles(args)| == 0 ==> r == Err(Usage(FollowNoFileMessage))
    ensures |GetFiles(args)| > 1 ==> r == Err(Usage(FollowManyFilesMessage))
  {
    var files := GetFiles(args);
    if |files| == 0 then Err(Usage(FollowNoFileMessage))
    else if |files| > 1 then Err(Usage(FollowManyFilesMessage))
    else Ok(files[0])
  }

  /** Whenever the positional argument is the pattern, both checks agree. */
  lemma FollowTargetAgrees(args: Args)
    requires !(args.noDefaultPattern && args.pattern.Some?)
    ensures FollowTarget(args) == FollowTargetAsWritten(args)
  {
  }

  /**
   * `logpile -n app.log --follow`: the file lands in the pattern slot, batch
   * mode reads it, and the source's follow check rejects the command line
   * for having no file.
   */
  lemma FollowRejectsPositionalFile()
    ensures
      var args := Args(Some("app.log"), [], false, false, false, false, false, None, None, None, [], true, true, false, false);
      && GetFiles(args) == ["app.log"]
      && FollowTargetAsWritten(args) == Err(Usage(FollowNoFileMessage))
      && FollowTarget(args) == Ok("app.log")
  {
  }

  // ---------------------------------------------------------------------
  // The processor
  // ---------------------------------------------------------------------

  class LogProcessor {
    const args: Args
    const pipeline: Pipeline
    const bucket: TimeBucket

    ghost predicate Valid()
      reads this, bucket
    {
      bucket.Valid()
    }

    constructor (args: Args, pipeline: Pipeline, size: BucketSize)
      ensures Valid() && fresh(bucket)
      ensures this.args == args && this.pipeline == pipeline
      ensures bucket.bucketSize == size && bucket.added == [] && bucket.buckets == map[]
    {
      this.args := args;
      this.pipeline := pipeline;
      bucket := new TimeBucket(size);
    }

    /**
     * The per-line step of batch mode: a line that matches and carries a
     * timestamp is added once; any other line leaves the aggregator as it was.
     * A zero width only matters, and makes the source divide by zero, when
     * the line is added.
     */
    method ProcessLine(line: string)
      requires Valid()
      requires NonZeroWidth(bucket.bucketSize) || LineInstant(pipeline, line).None?
      modifies bucket
      ensures Valid()
      ensures bucket.bucketSize == old(bucket.bucketSize)
      ensures bucket.added == old(bucket.added) + Accepted(pipeline, [line])
      ensures LineInstant(pipeline, line).None? ==>
        && bucket.buckets == old(bucket.buckets)
        && bucket.firstTimestamp == old(bucket.firstTimestamp)
        && bucket.lastTimestamp == old(bucket.lastTimestamp)
      ensures LineInstant(pipeline, line).Some? ==>
        bucket.buckets == Increment(old(bucket.buckets),
          BucketKey(TimestampMicros(LineInstant(pipeline, line).value),
                    ActiveWidth(bucket.bucketSize, bucket.firstTimestamp, bucket.lastTimestamp)))
    {
      CollectOne(Stamp(pipeline), line);
      if MatchesPatterns(pipeline.patterns, pipeline.env.isMatch, line) {
        var timestamp := ParseLine(pipeline.Parser(), pipeline.env.parsers, pipeline.env.year, line);
        if timestamp.Some? {
          bucket.Add(timestamp.value);
        }
      }
    }

    /** The lines of one source, in order. */
    method ProcessLines(lines: seq<string>)
      requires Valid()
      requires NonZeroWidth(bucket.bucketSize) || Accepted(pipeline, lines) == []
      modifies bucket
      ensures Valid()
      ensures bucket.bucketSize == old(bucket.bucketSize)
      ensures bucket.added == old(bucket.added) + Accepted(pipeline, lines)
    {
      var i := 0;
      while i < |lines|
        invariant 0 <= i <= |lines|
        invariant Valid()
        invariant bucket.bucketSize == old(bucket.bucketSize)
        invariant bucket.added == old(bucket.added) + Accepted(pipeline, lines[..i])
      {
        CollectStep(Stamp(pipeline), lines, i);
        ProcessLine(lines[i]);
        AppendAssoc(old(bucket.added), Accepted(pipeline, lines[..i]), Accepted(pipeline, [lines[i]]));
        i := i + 1;
      }
      assert lines[..i] == lines;
    }

    /**
     * `run_batch_mode` without the reading and the output. Afterwards the
     * total is the number of lines, over all sources, that matched and
     * carried a timestamp.
     */
    method RunBatch(sources: seq<seq<string>>)
      requires Valid()
      requires NonZeroWidth(bucket.bucketSize) || Accepted(pipeline, Flatten(sources)) == []
      modifies bucket
      ensures Valid()
      ensures bucket.bucketSize == old(bucket.bucketSize)
      ensures bucket.added == old(bucket.added) + Accepted(pipeline, Flatten(sources))
      ensures bucket.TotalMatches() == old(|bucket.added|) + |Accepted(pipeline, Flatten(sources))|
    {
      ProcessSources(sources);
    }

    /** Every source in turn, every line of it in turn. */
    method ProcessSources(sources: seq<seq<string>>)
      requires Valid()
      requires NonZeroWidth(bucket.bucketSize) || Accepted(pipeline, Flatten(sources)) == []
      modifies bucket
      ensures Valid()
      ensures bucket.bucketSize == old(bucket.bucketSize)
      ensures bucket.added == old(bucket.added) + Accepted(pipeline, Flatten(sources))
    {
      var s := 0;
      while s < |sources|
        invariant 0 <= s <= |sources|
        invariant Valid()
        invariant bucket.bucketSize == old(bucket.bucketSize)
        invariant bucket.added == old(bucket.added) + Accepted(pipeline, Flatten(sources[..s]))
      {
        AcceptedSourceStep(pipeline, sources, s);
        ProcessLines(sources[s]);
        AppendAssoc(old(bucket.added), Accepted(pipeline, Flatten(sources[..s])), Accepted(pipeline, sources[s]));
        s := s + 1;
      }
      assert sources[..s] == sources;
    }

    /**
     * `run_follow_mode` up to its polling loop: the argument checks, then
     * one pass over the followed file's lines.
     */
    method Follow(lines: seq<string>) returns (r: Result<string, Failure>)
      requires Valid()
      requires NonZeroWidth(bucket.bucketSize) || Accepted(pipeline, lines) == []
      modifies bucket
      ensures Valid()
      ensures r == FollowTargetAsWritten(args)
      ensures r.Err? ==> unchanged(bucket)
      ensures r.Ok? ==> bucket.bucketSize == old(bucket.bucketSize)
      ensures r.Ok? ==> bucket.added == old(bucket.added) + Accepted(pipeline, lines)
    {
      r := FollowTargetAsWritten(args);
      if r.Ok? {
        ProcessLines(lines);
      }
    }
  }

  /** Reading one more source appends what its lines contribute, a part of what all sources contribute. */
  lemma AcceptedSourceStep(pl: Pipeline, sources: seq<seq<string>>, s: nat)
    requires s < |sources|
    ensures Accepted(pl, Flatten(sources[..s + 1])) == Accepted(pl, Flatten(sources[..s])) + Accepted(pl, sources[s])
    ensures |Accepted(pl, sources[s])| <= |Accepted(pl, Flatten(sources))|
  {
    FlattenSplit(sources, s);
    CollectAppend(Stamp(pl), Flatten(sources[..s]), sources[s]);
    CollectAppend(Stamp(pl), Flatten(sources[..s]) + sources[s], Flatten(sources[s + 1..]));
  }

  lemma AppendAssoc<T>(a: seq<T>, b: seq<T>, c: seq<T>)
    ensures a + b + c == a + (b + c)
  {
  }

  lemma FlattenSplit(sources: seq<seq<string>>, s: nat)
    requires s < |sources|
    ensures Flatten(sources) == Flatten(sources[..s]) + sources[s] + Flatten(sources[s + 1..])
    ensures Flatten(sources[..s + 1]) == Flatten(sources[..s]) + sources[s]
  {
    FlattenSnoc(sources, s);
    FlattenAppend(sources[..s + 1], sources[s + 1..]);
    assert sources[..s + 1] + sources[s + 1..] == sources;
  }

  lemma {:induction false} FlattenAppend(a: seq<seq<string>>, b: seq<seq<string>>)
    ensures Flatten(a + b) == Flatten(a) + Flatten(b)
  {
    if a != [] {
      assert (a + b)[0] == a[0] && (a + b)[1..] == a[1..] + b;
      FlattenAppend(a[1..], b);
    } else {
      assert a + b == b;
    }
  }

  /**
   * `LogProcessor::new`: the checks of `Setup`, then a fresh processor
   * with the compiled patterns, the custom timestamp format and an empty
   * aggregator of the configured size.
   */
  method New(args: Args, env: Environment) returns (r: Result<LogProcessor, Failure>)
    ensures r.Err? <==> Setup(args, env).Err?
    ensures r.Err? ==> r.error == Setup(args, env).error
    ensures r.Ok? ==>
      && fresh(r.value) && fresh(r.value.bucket) && r.value.Valid()
      && r.value.args == args
      && r.value.pipeline == Pipeline(Setup(args, env).value.0, args.timeFormat, env)
      && r.value.bucket.bucketSize == Setup(args, env).value.1
      && r.value.bucket.added == []
  {
    var valid := Validate(args);
    if valid.Err? {
      return Err(Usage(valid.error));
    }
    var patterns := BuildPatterns(args, env.validRegex);
    if patterns.Err? {
      return Err(patterns.error);
    }
    var size := SizeFromConfig(args.bucket, env.parseWidth);
    if size.Err? {
      return Err(BadBucketSize(size.error));
    }
    var processor := new LogProcessor(args, Pipeline(patterns.value, args.timeFormat, env), size.value);
    return Ok(processor);
  }
}
