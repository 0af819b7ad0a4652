# logpile, modelled in Dafny

logpile searches log lines with regular expressions. It takes a timestamp
from every matching line and counts the matches in time buckets: fixed-width
buckets, or "auto" buckets whose width follows the observed time span. This
project models the core of that pipeline and proves properties of it. The
modelled parts are:

- `Cli` (src/cli.rs): the decisions `Args` makes. These are the output
  format precedence, the pattern requirement, and whether the positional
  argument is the pattern or the first file.
- `Timestamp` (src/timestamp.rs): the timestamp extractor. It covers the
  candidate substrings and their order, the 50-byte fallback, the integer
  epoch rule, the parse chain with the syslog year injection, and the
  first-success search over candidates and `COMMON_FORMATS`.
- `Bucket` (src/bucket.rs): the `TimeBucket` aggregator as a class. It has
  its bucket map, its first/last instants, and its fixed or automatic width.
  It also covers the truncating key arithmetic and the auto-width ladder.
- `Processor` (src/processor.rs): `LogProcessor` as a class. This covers
  building the pattern list, `matches_patterns`, the batch loop over sources
  and lines, and the follow-mode argument checks with the first pass over the
  followed file.
- Supporting modules:
  - `Text`: `str::trim`, `i64` parsing, UTF-8 byte lengths.
  - `Chrono`: instants as integer nanoseconds.
  - `Counts`: the ordered count map behind `BTreeMap<i64, usize>`.
  - `Wrappers`: `Option` and `Result`.

Some external behaviour is passed in as parameters:

- Regular expressions: each recognizer is a `find` function. `isMatch` and
  `validRegex` stand for `Regex::is_match` and `Regex::new`.
- chrono's `parse_from_str`: `Parsers`.
- The current UTC year: `year`.
- Reading a bucket size as an `f64`: `parseWidth`.

Every result holds for whatever those parameters do.

A few points of the code's behaviour are easy to misread. The model keeps
each of them as the code has it, except the fallback slice, which is
corrected (see Findings):

- The epoch rule accepts only integers strictly between 1000000000 and
  9999999999 (src/timestamp.rs:134-139).
- Bucket keys use Rust's `/`, which truncates towards zero
  (src/bucket.rs:57). Before 1970 this differs from flooring: every instant
  within one width of the epoch, on either side, lands in key 0
  (`KeyZeroAroundEpoch`).
- Below one day the auto width is the next rung up the ladder. From one day
  of ideal width on, it is rounded *down* to whole days (src/bucket.rs:101).
- There are six recognizers, tried in a fixed order (src/timestamp.rs:86-120).
- The fallback candidate is a slice of the first 50 *bytes* of the line
  (src/timestamp.rs:122-125). The code's comment says "chars". `line.len()`
  counts bytes, and the slice panics when byte 50 falls inside a character.
  The pipeline uses the prefix within 50 bytes that ends on a character
  boundary. That prefix equals the slice on every line where the slice does
  not panic. See Findings.
- Follow mode checks and follows the `files` field, not `get_files()`
  (src/processor.rs:86-94). See Findings.

## Model

| member | source | states |
|---|---|---|
| Cli.Format | src/cli.rs:119-131 | CSV, then JSON, then the ASCII plot, then PNG win in that order; each format is chosen exactly when its flag is set and no earlier one is; with none set the format is a table |
| Cli.FormatOfExclusiveOptions | src/cli.rs:28-49 | under the command line's pairwise conflicts between the four output options, whichever one option is given is the format |
| Cli.Validate | src/cli.rs:133-138 | an error exactly when there is no pattern and `--no-default-pattern` is absent, with the source's message |
| Cli.GetPattern | src/cli.rs:141-147 | no pattern under `--no-default-pattern`, the positional pattern otherwise |
| Cli.GetFiles | src/cli.rs:150-159 | under `--no-default-pattern` with a positional argument, that argument followed by the files; otherwise the files unchanged |
| Cli.PositionalUsedOnce | src/cli.rs:141-159 | a positional argument is used exactly once: as the pattern (the file list unchanged) or as the first file (the pattern absent), never both or neither |
| Cli.ValidatedHasPatternOrAll | src/cli.rs:133-147 | after validation there is a pattern to search for, or `--no-default-pattern` is set |
| Cli.Examples | src/cli.rs:166-330 | the unit tests' cases: format precedence, validation failing without a pattern and passing with one or under `--no-default-pattern`, the pattern, and the file list with and without the positional file |
| Text.TrimStart | src/timestamp.rs:131 | the result is a suffix of the input; everything removed is Unicode white space; the result does not start with white space |
| Text.TrimEnd | src/timestamp.rs:131 | the result is a prefix of the input; everything removed is white space; the result does not end with white space |
| Text.Trim | src/timestamp.rs:131 | `str::trim`: the result is a slice `s[i..j]` of the input with only white space before `i` and after `j`, and a non-empty result neither starts nor ends with white space |
| Text.TrimUnchanged | src/timestamp.rs:131 | trimming text that has no white space at either end leaves it unchanged |
| Text.ParseI64 | src/timestamp.rs:134 | `str::parse::<i64>` succeeds only on a non-empty text of decimal digits after an optional '+' or '-', and only with a value inside the `i64` range |
| Text.ParseI64OfDecimal | src/timestamp.rs:134 | round trip: parsing the decimal text of any `i64` gives it back |
| Text.ByteLen | src/timestamp.rs:123 | `str::len`: the byte length is never less than the character count |
| Text.BytePrefix | src/timestamp.rs:124 | a byte slice `s[..n]`: when defined, a prefix of exactly `n` bytes; undefined (the source panics) exactly when no character boundary lies at byte `n` |
| Text.PrefixWithin | src/timestamp.rs:122-125 | the longest prefix of at most `n` bytes: a prefix within `n` bytes that is the whole text or cannot take one more character |
| Text.PrefixWithinAgrees | src/timestamp.rs:124 | wherever the byte slice is defined, the longest prefix within `n` bytes is that slice |
| Text.PrefixWithinAscii | src/timestamp.rs:124 | on ASCII text the prefix within `n` bytes is the first `min(len, n)` characters, as the source's slice |
| Chrono.TimestampMicros | src/bucket.rs:55 | `timestamp_micros`: whole microseconds rounded towards minus infinity |
| Chrono.FromTimestamp | src/timestamp.rs:137 | `from_timestamp(secs, 0)` is the instant whose microsecond timestamp is `secs * 1_000_000` |
| Counts.Increment | src/bucket.rs:59 | `entry(key).or_insert(0) += 1`: the key is added, its count goes up by one, and every other count is unchanged |
| Counts.SortedKeys | src/bucket.rs:105-113 | `BTreeMap` iteration order: every key exactly once, strictly ascending |
| Counts.TotalIncrement | src/bucket.rs:59 | counting one more match adds one to the sum of the counts |
| Counts.Tally | src/bucket.rs:59 | the counts of a key sequence: its keys are the keys occurring, and each count is the key's number of occurrences |
| Counts.TallySnoc | src/bucket.rs:59 | tallying one more key is `Increment` on the tally so far |
| Counts.TallyTotal | src/bucket.rs:115-117 | the counts of a key sequence sum to its length |
| Counts.TallyPermutation | src/bucket.rs:59 | the tally does not depend on the order of the keys |
| Counts.BucketList | src/bucket.rs:105-113 | `get_buckets`: every key of the map once with its count, strictly ascending by key |
| Counts.BucketListOfTally | src/bucket.rs:105-113 | the list of a tally has one entry per distinct key, with that key's number of occurrences, and misses none |
| Bucket.FromString | src/bucket.rs:11-20 | `Auto` exactly for "auto" in any letter case; otherwise a fixed width when the number parser accepts the text and the source's error message when it does not |
| Bucket.SizeFromConfig | src/bucket.rs:31-36 | no configured size gives a fixed 60 s; a configured one is read by `FromString` |
| Bucket.FromStringExamples | src/bucket.rs:137-148 | "auto", "AUTO" and "Auto" all select `Auto` |
| Bucket.TruncDiv | src/bucket.rs:57 | Rust's `i64` division: the quotient of the absolute values, negated when exactly one operand is negative; the division identity it satisfies is stated by `Bucket.TruncDivRemainder` |
| Bucket.TruncDivRemainder | src/bucket.rs:57 | the division identity of truncating division: the remainder `a - q * b` is smaller than the divisor in magnitude and has the sign of the dividend |
| Bucket.BucketKeyFloor | src/bucket.rs:57 | a key is the width's multiple at or below a non-negative timestamp, and the mirror image of that for a negative one |
| Bucket.BucketKeyBounds | src/bucket.rs:57 | a non-negative timestamp lies in `[key, key + width)`; a negative one in `(key - width, key]`, with `key <= 0` |
| Bucket.SameKeyIffSameInterval | src/bucket.rs:57 | after the epoch two timestamps share a bucket exactly when they fall in the same width interval |
| Bucket.NegativeWidthMirrors | src/bucket.rs:57 | a negative width gives the same keys as its absolute value |
| Bucket.KeyZeroAroundEpoch | src/bucket.rs:57 | every timestamp within one width of the epoch, before or after it, gets key 0 |
| Bucket.AutoWidth | src/bucket.rs:77-103 | always positive; a ladder rung below 15 days of span; from 15 days on a whole, non-zero number of days |
| Bucket.AutoWidthCovers | src/bucket.rs:77-103 | below 15 days of span: 15 buckets of the width cover the span and 15 buckets of any smaller rung do not; from 15 days on: the ideal width `span / 15` rounded down to whole days, `15 * w <= span < 15 * (w + one day)` with the span in microseconds, so 15 buckets cover at most the span and more than half of it |
| Bucket.AutoWidthExamples | src/bucket.rs:230-248 | the unit tests' spans map to 1 min, 5 min, 15 min, 1 h, 6 h and 1 day |
| Bucket.AutoWidthMonotonic | src/bucket.rs:77-103 | a longer span never gets a narrower auto width |
| Bucket.SpanSeconds | src/bucket.rs:68 | `num_seconds` of the span: for an ordered pair, the whole seconds between the instants |
| Bucket.ActiveWidth | src/bucket.rs:62-75 | a fixed width as configured; `Auto` is positive: one minute while no instant has been added, the auto width of the span from the first to the last instant after |
| Bucket.Least | src/bucket.rs:47-49 | the earliest of the instants seen, one of them |
| Bucket.Greatest | src/bucket.rs:50-52 | the latest of the instants seen, one of them |
| Bucket.KeysOf | src/bucket.rs:54-57 | each instant's key under a fixed width, position by position |
| Bucket.KeysOfPermutation | src/bucket.rs:54-57 | reordering the instants reorders their keys under a fixed width |
| Bucket.FixedWidthOrderIndependent | src/bucket.rs:45-60 | under a fixed width the bucket counts do not depend on the order the instants arrive in |
| Bucket.FixedWidthCounts | src/bucket.rs:54-59 | under a fixed width the aggregator's counts are the tally of every instant's own key at that width, whatever the range was when it came |
| Bucket.SameMinuteScenario | src/bucket.rs:181-196 | three instants within one minute make one bucket of three |
| Bucket.HalfSecondScenario | src/bucket.rs:279-296 | half-second buckets put 0.1 s and 0.3 s together and 0.6 s in the next bucket |
| Bucket.AddKeepsConsistent | src/bucket.rs:45-60 | one `add` keeps the counts equal to the tally of all keys used, the range equal to the least and greatest instants, and every key equal to that instant's key at the width in effect once it was in the range |
| Bucket.KeyAtPrefix | src/bucket.rs:45-60 | a later `add` never changes the key an earlier instant was counted under |
| Bucket.KeysStep | src/bucket.rs:45-60 | the new instant's key uses the width of the widened range, and every earlier key is kept |
| Bucket.TimeBucket.constructor | src/bucket.rs:31-43 | a new aggregator of the given size with no buckets and no range |
| Bucket.TimeBucket.Add | src/bucket.rs:45-60 | the range is widened first; the count of the key at the width computed with the instant in the range goes up by one and nothing else changes; the size is unchanged; the state stays consistent, every key being its instant's key at the width in effect once it was in the range |
| Bucket.TimeBucket.GetBuckets | src/bucket.rs:105-113 | ascending keys, one entry per distinct key used, each with the number of instants counted under it |
| Bucket.TimeBucket.TotalMatches | src/bucket.rs:115-117 | the sum of the counts is the number of instants added |
| Bucket.TimeBucket.BucketSizeMicros | src/bucket.rs:119-121 | the width in effect: fixed as configured, or one minute before any data, or the auto width of the span of all instants added |
| Bucket.TimeBucket.TimeRange | src/bucket.rs:123-128 | none exactly when nothing was added, otherwise the earliest and latest instants added |
| Timestamp.HitsUpTo | src/timestamp.rs:86-120 | the recognizer hits among the first `n` kinds, at most one per kind |
| Timestamp.HitsUpToEmpty | src/timestamp.rs:123 | no hits among the first `n` kinds exactly when none of those recognizers fired |
| Timestamp.HitsUpToPrefix | src/timestamp.rs:86-120 | later recognizers only append: the hits of fewer kinds are a prefix of the hits of more |
| Timestamp.Candidates | src/timestamp.rs:86-128 | the recognizer hits in their fixed order whenever one fired; empty exactly when none fired and the line is under 10 bytes; the fallback alone when none fired on a longer line |
| Timestamp.CandidatesAsWritten | src/timestamp.rs:86-128 | the candidates as written: none (the source panics) exactly when no recognizer fired, the line has at least 10 bytes and the slice at byte 50 is not on a character boundary; otherwise the same list as `Candidates` |
| Timestamp.Fallback | src/timestamp.rs:122-125 | the longest prefix of the line within 50 bytes that ends on a character boundary |
| Timestamp.HitPosition | src/timestamp.rs:86-120 | a recognizer that fires puts its match right after the matches of the recognizers before it |
| Timestamp.EarliestHitFirst | src/timestamp.rs:86-120 | the first recognizer (in candidate order) that fires supplies the first candidate |
| Timestamp.ExtractCandidates | src/timestamp.rs:86-128 | the pushes of `extract_timestamp_candidates` build exactly `Candidates` |
| Timestamp.EpochSeconds | src/timestamp.rs:134-139 | an integer is read as epoch seconds exactly when it parses as an `i64` strictly between 1000000000 and 9999999999 |
| Timestamp.ParseWithFormat | src/timestamp.rs:130-162 | the trimmed text as epoch seconds when it qualifies; otherwise the offset parse, then the naive parse, then the year-prefixed naive parse for formats with `%b` and no `%Y` |
| Timestamp.EpochRoundTrip | src/timestamp.rs:134-139 | every integer inside the window, written in decimal, parses with any format to that second, exactly |
| Timestamp.EpochWindowExcluded | src/timestamp.rs:134-139 | integers on or outside the window bounds are not taken as epoch seconds, so only the format parsers decide |
| Timestamp.YearOnlyAsLastResort | src/timestamp.rs:151-159 | the current year changes nothing unless every earlier step failed and the format needs a year |
| Timestamp.YearInjected | src/timestamp.rs:151-159 | when every earlier step fails for a format that needs a year, the result is the naive parse of "year text" with "%Y format" |
| Timestamp.SyslogNeedsYear | src/timestamp.rs:20 | the syslog format has `%b` and no `%Y` |
| Timestamp.OnlySyslogNeedsYear | src/timestamp.rs:5-25 | of `COMMON_FORMATS`, exactly the syslog format gets the year injection |
| Timestamp.FirstFormatNone | src/timestamp.rs:76-80 | trying one candidate fails exactly when every format fails on it |
| Timestamp.FirstFormatFirstSuccess | src/timestamp.rs:76-80 | one candidate is read with the first format that succeeds |
| Timestamp.FirstParseNone | src/timestamp.rs:74-83 | the search fails exactly when every candidate fails with every format |
| Timestamp.FirstParseFirstSuccess | src/timestamp.rs:74-83 | the search returns the first success: the earliest candidate that parses, with its first working format |
| Timestamp.ParseLine | src/timestamp.rs:63-84 | the custom format wins when it parses the whole line; otherwise the first success over the candidates and the common formats |
| Timestamp.SearchCandidates | src/timestamp.rs:74-83 | the nested loops return exactly the first success over candidates and formats |
| Timestamp.FallbackAsWritten | src/timestamp.rs:122-125 | the byte slice as written: it panics exactly when the line has at least 50 bytes and no prefix of it is exactly 50 bytes long; otherwise it is the corrected fallback |
| Timestamp.FallbackSplitsCharacter | src/timestamp.rs:122-125 | 49 'a' then 'é' (51 bytes): the slice at byte 50 is not a character boundary, while the corrected fallback keeps the 49 'a' |
| Processor.MatchesPatterns | src/processor.rs:133-141 | with no patterns every line matches; otherwise a line matches exactly when some pattern matches it |
| Processor.AnyMatches | src/processor.rs:139 | `any`: true exactly when some pattern matches |
| Processor.FirstInvalid | src/processor.rs:23-33 | the first pattern `Regex::new` rejects, with all before it accepted, or none when all are accepted |
| Processor.CompileStopsAt | src/processor.rs:23-33 | compilation stops with an error naming the first rejected pattern |
| Processor.Compile | src/processor.rs:23-33 | all patterns compiled, in order, exactly when every one is accepted; otherwise an error naming a rejected pattern from the list |
| Processor.BuildPatterns | src/processor.rs:23-33 | the primary pattern, then the `--grep` patterns, compiled in that order with `?` on the first failure |
| Processor.CompileOnto | src/processor.rs:31-33 | the `--grep` loop extends the list already built and gives the same result as compiling the whole list |
| Processor.NoPatternMatchesEverything | src/processor.rs:134-136 | with `--no-default-pattern` and no `--grep`, every line matches |
| Processor.Setup | src/processor.rs:20-44 | `new`'s order of checks: a usage error when validation fails, then a regex error for a rejected pattern, then the bucket-size error with its message; success exactly when all three steps succeed, carrying exactly the requested patterns, all valid, and the configured size |
| Processor.LineInstant | src/processor.rs:66-69 | a line contributes an instant exactly when it matches and a timestamp is parsed from it, and then it is that timestamp |
| Processor.Collect | src/processor.rs:63-79 | the contributed instants of a run of lines, never more than the lines |
| Processor.CollectFromLines | src/processor.rs:63-79 | every instant collected comes from one of the lines |
| Processor.CollectNone | src/processor.rs:70-77 | lines that contribute nothing add nothing |
| Processor.CollectAll | src/processor.rs:63-79 | when every line contributes, one instant is collected per line |
| Processor.AcceptedComeFromLines | src/processor.rs:63-79 | every counted instant is the parsed timestamp of a line that matched |
| Processor.RejectedLinesAreSkipped | src/processor.rs:66-77 | lines that do not match, or have no timestamp, are never counted |
| Processor.EveryLineCounted | src/processor.rs:133-136 | with no patterns and a timestamp on every line, every line is counted |
| Processor.Flatten | src/processor.rs:58-63 | the lines of all sources in reading order; one source gives its own lines |
| Processor.FollowTargetAsWritten | src/processor.rs:86-94 | the follow checks as written, on the `files` field: exactly one file is followed, none or several are usage errors with the source's messages |
| Processor.FollowTarget | src/processor.rs:86-94 | the same checks on `get_files()`, the list batch mode reads |
| Processor.FollowTargetAgrees | src/processor.rs:86-94 | whenever the positional argument is the pattern, the two checks agree |
| Processor.FollowRejectsPositionalFile | src/processor.rs:86-94 | `-n app.log --follow`: batch mode would read app.log, but the check as written reports no file |
| Processor.LogProcessor.constructor | src/processor.rs:35-43 | a processor over the given arguments and pipeline with an empty aggregator of the given size |
| Processor.LogProcessor.ProcessLine | src/processor.rs:66-77 | a line that matches and carries a timestamp is added once: its key's count goes up by one at the width with it in the range; any other line leaves the aggregator unchanged |
| Processor.LogProcessor.ProcessLines | src/processor.rs:63-79 | the aggregator receives exactly the accepted instants of the lines, in order |
| Processor.LogProcessor.RunBatch | src/processor.rs:54-83 | after a batch run the aggregator has received every accepted instant of every source in reading order, and its total is their number |
| Processor.LogProcessor.ProcessSources | src/processor.rs:58-80 | the sources are drained one after another, in order |
| Processor.LogProcessor.Follow | src/processor.rs:85-107 | the follow checks as written, on the `files` field, then one pass over the followed file; on a check failure the aggregator is unchanged |
| Processor.New | src/processor.rs:20-44 | fails exactly when `Setup` fails, with its error; otherwise a fresh processor with the compiled patterns, the custom format and an empty aggregator of the configured size |

## Left out

- Bucket.TimeBucket.Add: requires a non-zero width. A fixed size below one
  microsecond casts to 0, and the source then panics dividing by zero. The
  model excludes that input instead of modelling the panic.
- Processor.LogProcessor.ProcessLine: requires a non-zero width whenever the
  line is added, for the same reason.
- Processor.LogProcessor.ProcessLines: requires a non-zero width whenever a
  line is added, for the same reason.
- Processor.LogProcessor.ProcessSources: requires a non-zero width whenever
  a line is added, for the same reason.
- Processor.LogProcessor.RunBatch: requires a non-zero width whenever a line
  is added, for the same reason.
- Processor.LogProcessor.Follow: requires a non-zero width whenever a line
  is added, for the same reason.
- Processor.LogProcessor.Follow: models the checks and the initial read
  only. The one-second polling loop never ends and re-reads the file, which
  is I/O. The screen refresh with the ASCII plot is output.
- Timestamp.Candidates: does not panic where the source does. The fallback
  is the prefix within 50 bytes that ends on a character boundary, which is
  the source's slice whenever that slice is defined.
  `Timestamp.CandidatesAsWritten` gives the source's behaviour, with `None`
  where it panics, and agrees with `Candidates` everywhere else.
- Timestamp.ExtractCandidates: builds `Candidates`, so it does not panic on
  a line whose byte 50 falls inside a character, for the same reason.
- Timestamp.ParseLine: uses `Candidates`, so it does not model the panic
  for the same lines.
- Bucket.TimeBucket.GetBuckets: returns the keys in microseconds. It does
  not model converting them back with `from_timestamp_micros` or the
  `Utc::now` fallback for an out-of-range key, which are clock and chrono
  behaviour.
- Bucket.TimeBucket.BucketSizeMicros: returns whole microseconds, where the
  source returns `f64` seconds. The `f64` auto-width arithmetic is done
  exactly in integers. Below 15 days the rung choice is restated on integer
  seconds, and above it the rounding down to whole days is kept.
- Bucket.FromString: reading the size as an `f64`, multiplying by one
  million and the saturating `as i64` cast are the parameter `parseWidth`.
  Its result is the width in microseconds.
- Timestamp: the six regular expressions of `TimestampParser::new` are not
  modelled. Each recognizer is the `find` function it would be.
- Timestamp: chrono's `parse_from_str` is not modelled; the parsers are
  parameters. Time zones and calendar arithmetic are chrono's and are not
  modelled either.
- Timestamp: the current year (`Utc::now().year()`) is a parameter fixed for
  a run.
- Processor: `Regex::new` and `is_match` are parameters. The regex error
  text is represented by the rejected pattern (`BadRegex`).
- Processor.LogProcessor.RunBatch: reading files, gzip and stdin
  (`create_readers`, `LogReader`) is left out. A batch run receives the lines
  of each source. Read errors and the "Processing:" and "Could not parse
  timestamp" messages on stderr are I/O.
- Output: `output_results` and the table, CSV, JSON, ASCII-plot and PNG
  writers are output and not modelled. `run`'s choice between batch and
  follow mode is a single `if` on the `follow` flag.
- Cli: parsing the command line (clap) is not modelled; an `Args` value is
  its result. The pairwise conflicts between the output options appear only
  as the `OutputOptionsExclusive` assumption of
  `Cli.FormatOfExclusiveOptions`. The `verbose` and `fail_quick` flags are
  carried but never read by the core.
- `i64` overflow: the model does not bound timestamps, keys or counts.
  Instants are unbounded integers of nanoseconds, and `DateTime`'s range
  limits are not modelled.

## Findings

| source | as written | input that shows it | evidently intended | confidence | as-written member | corrected member |
|---|---|---|---|---|---|---|
| src/timestamp.rs:122-125 | the fallback candidate is `line[..line.len().min(50)]`, a byte slice at byte 50 | a line of 49 'a' followed by 'é' (51 bytes): byte 50 is inside 'é', so the slice panics (Timestamp.FallbackSplitsCharacter) | the longest prefix of the line within 50 bytes that ends on a character boundary, which is the slice itself on every line where the slice is defined (Text.PrefixWithinAgrees) | not executed | Timestamp.FallbackAsWritten | Timestamp.Fallback |
| src/processor.rs:86-94 | follow mode checks and follows `self.args.files` | `logpile -n app.log --follow`: `get_files()` is ["app.log"] but `files` is empty, so follow mode fails with "requires at least one file argument" (Processor.FollowRejectsPositionalFile) | check and follow the same list batch mode reads, `get_files()` | not executed | Processor.FollowTargetAsWritten | Processor.FollowTarget |
