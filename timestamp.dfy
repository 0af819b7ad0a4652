/**
 * The timestamp extractor: which substrings of a line are tried as
 * timestamps, in what order, and how one substring is read with one format.
 *
 * The six regular expressions and chrono's `parse_from_str` are not
 * modelled: each recognizer is a function from the line to its first match
 * (`Regex::find`), and the two chrono parsers come in as `Parsers`. The
 * current UTC year is a parameter. What is modelled is the orchestration
 * around them: candidate order, the fallback prefix, the integer epoch
 * rule, the chain of parse attempts and the first-success search.
 */
module Timestamp {
  import opened Wrappers
  import opened Text
  import opened Chrono

  /** What `Regex::find` reports: the byte offset of the match and its text. */
  datatype Match = Match(start: nat, text: string)

  /** The six compiled recognizers of a `TimestampParser`, as `find` functions. */
  datatype Recognizers = Recognizers(
    unix: string -> Option<Match>,
    iso: string -> Option<Match>,
    apache: string -> Option<Match>,
    rfc2822: string -> Option<Match>,
    dateTime: string -> Option<Match>,
    syslog: string -> Option<Match>)

  /** `TimestampParser`: an optional user format and the recognizers. */
  datatype TimestampParser = TimestampParser(customFormat: Option<string>, recognizers: Recognizers)

  datatype Kind = Unix | Iso | Apache | Rfc2822 | DateTime | Syslog

  /** The order in which the recognizers contribute candidates. */
  const CandidateOrder: seq<Kind> := [Unix, Iso, Apache, Rfc2822, DateTime, Syslog]

  /** A unix-time match counts only if it starts before this byte offset. */
  const UnixMaxStart: nat := 5
  /** The fallback candidate is only taken from lines of at least this many bytes... */
  const FallbackMinBytes: nat := 10
  /** ...and is at most this many bytes long. */
  const FallbackMaxBytes: nat := 50
  /** The open interval of integers read as seconds since the epoch. */
  const EpochLow: int := 1_000_000_000
  const EpochHigh: int := 9_999_999_999

  /** `COMMON_FORMATS`, in the order they are tried. */
  const CommonFormats: seq<string> := [
    "%Y-%m-%dT%H:%M:%S%.fZ",
    "%Y-%m-%dT%H:%M:%S%.f%:z",
    "%Y-%m-%dT%H:%M:%S%:z",
    "%Y-%m-%dT%H:%M:%SZ",
    "%Y-%m-%dT%H:%M:%S%.f",
    "%Y-%m-%dT%H:%M:%S",
    "%Y-%m-%d %H:%M:%S%.f",
    "%Y-%m-%d %H:%M:%S",
    "%Y/%m/%d %H:%M:%S",
    "%d/%m/%Y %H:%M:%S",
    "%m/%d/%Y %H:%M:%S",
    "%b %d %H:%M:%S",
    "%d/%b/%Y:%H:%M:%S %z",
    "%a, %d %b %Y %H:%M:%S"]

  const SyslogFormat: string := "%b %d %H:%M:%S"

  // ---------------------------------------------------------------------
  // Candidates
  // ---------------------------------------------------------------------

  /** An optional candidate as a list of zero or one. */
  function Listed(c: Option<string>): seq<string>
  {
    match c case Some(s) => [s] case None => []
  }

  /** The candidate recognizer `k` contributes for `line`, if any. */
  function Hit(rec: Recognizers, k: Kind, line: string): Option<string>
  {
    match k
    case Unix =>
      (match rec.unix(line)
       case Some(m) => if m.start < UnixMaxStart then Some(m.text) else None
       case None => None)
    case Iso => TextOf(rec.iso(line))
    case Apache => TextOf(rec.apache(line))
    case Rfc2822 => TextOf(rec.rfc2822(line))
    case DateTime => TextOf(rec.dateTime(line))
    case Syslog => TextOf(rec.syslog(line))
  }

  function TextOf(m: Option<Match>): Option<string>
  {
    match m
    case Some(mat) => Some(mat.text)
    case None => None
  }

  /** What each recognizer contributes for one line. */
  function HitOf(rec: Recognizers, line: string): Kind -> Option<string>
  {
    k => Hit(rec, k, line)
  }

  /** The candidates the first `n` recognizers of `CandidateOrder` contribute, in that order. */
  function HitsUpTo(hit: Kind -> Option<string>, n: nat): (r: seq<string>)
    requires n <= |CandidateOrder|
    ensures |r| <= n
  {
    if n == 0 then [] else HitsUpTo(hit, n - 1) + Listed(hit(CandidateOrder[n - 1]))
  }

  /** Nothing is contributed exactly when none of the first `n` recognizers contributes. */
  lemma {:induction false} HitsUpToEmpty(hit: Kind -> Option<string>, n: nat)
    requires n <= |CandidateOrder|
    ensures HitsUpTo(hit, n) == [] <==> forall i | 0 <= i < n :: hit(CandidateOrder[i]).None?
  {
    if n > 0 {
      HitsUpToEmpty(hit, n - 1);
    }
  }

  /** The candidates of fewer recognizers are a prefix of those of more. */
  lemma {:induction false} HitsUpToPrefix(hit: Kind -> Option<string>, n: nat, m: nat)
    requires n <= m <= |CandidateOrder|
    ensures HitsUpTo(hit, n) <= HitsUpTo(hit, m)
  {
    if n < m {
      HitsUpToPrefix(hit, n, m - 1);
    }
  }

  /**
   * The candidates of `extract_timestamp_candidates`: one per recognizer
   * that matched, in `CandidateOrder`; when none matched, the line's first
   * (at most) 50 bytes, provided the line has at least 10 bytes.
   */
  function Candidates(rec: Recognizers, line: string): (r: seq<string>)
    ensures |r| <= |CandidateOrder|
    ensures r == [] <==>
      (forall i | 0 <= i < |CandidateOrder| :: Hit(rec, CandidateOrder[i], line).None?)
      && ByteLen(line) < FallbackMinBytes
    ensures HitsUpTo(HitOf(rec, line), |CandidateOrder|) == [] && ByteLen(line) >= FallbackMinBytes ==>
      r == [Fallback(line)]
    ensures HitsUpTo(HitOf(rec, line), |CandidateOrder|) != [] ==> r == HitsUpTo(HitOf(rec, line), |CandidateOrder|)
  {
    HitsUpToEmpty(HitOf(rec, line), |CandidateOrder|);
    var hits := HitsUpTo(HitOf(rec, line), |CandidateOrder|);
    if hits == [] && ByteLen(line) >= FallbackMinBytes then [Fallback(line)] else hits
  }

  /**
   * The fallback candidate: the longest prefix of the line that fits in 50
   * bytes. It never splits a character, and on ASCII lines it is the first
   * `min(len, 50)` characters.
   */
  function Fallback(line: string): (r: string)
    ensures r <= line && ByteLen(r) <= FallbackMaxBytes
    ensures r == line || ByteLen(r) + Utf8Width(line[|r|]) > FallbackMaxBytes
  {
    PrefixWithin(line, FallbackMaxBytes)
  }

  /**
   * A recognizer's candidate sits behind exactly the candidates of the
   * recognizers before it in `CandidateOrder`, so an earlier recognizer's
   * match is always tried first.
   */
  lemma HitPosition(rec: Recognizers, line: string, i: nat)
    requires i < |CandidateOrder| && Hit(rec, CandidateOrder[i], line).Some?
    ensures
      var r := Candidates(rec, line);
      var p := |HitsUpTo(HitOf(rec, line), i)|;
      p < |r| && r[p] == Hit(rec, CandidateOrder[i], line).value
  {
    var hit := HitOf(rec, line);
    HitsUpToPrefix(hit, i + 1, |CandidateOrder|);
    assert HitsUpTo(hit, i + 1) == HitsUpTo(hit, i) + [Hit(rec, CandidateOrder[i], line).value];
  }

  /** When the first recognizer to match is the `i`th, its match is the first candidate. */
  lemma EarliestHitFirst(rec: Recognizers, line: string, i: nat)
    requires i < |CandidateOrder| && Hit(rec, CandidateOrder[i], line).Some?
    requires forall j | 0 <= j < i :: Hit(rec, CandidateOrder[j], line).None?
    ensures Candidates(rec, line)[0] == Hit(rec, CandidateOrder[i], line).value
  {
    HitsUpToEmpty(HitOf(rec, line), i);
    HitPosition(rec, line, i);
  }

  /** `extract_timestamp_candidates`: push each recognizer's match in turn, then the fallback. */
  method ExtractCandidates(rec: Recognizers, line: string) returns (candidates: seq<string>)
    ensures candidates == Candidates(rec, line)
  {
    ghost var hit := HitOf(rec, line);
    candidates := [];
    var unix := rec.unix(line);
    if unix.Some? && unix.value.start < UnixMaxStart {
      candidates := candidates + [unix.value.text];
    }
    assert candidates == HitsUpTo(hit, 1);
    var iso := rec.iso(line);
    if iso.Some? {
      candidates := candidates + [iso.value.text];
    }
    assert candidates == HitsUpTo(hit, 2);
    var apache := rec.apache(line);
    if apache.Some? {
      candidates := candidates + [apache.value.text];
    }
    assert candidates == HitsUpTo(hit, 3);
    var rfc2822 := rec.rfc2822(line);
    if rfc2822.Some? {
      candidates := candidates + [rfc2822.value.text];
    }
    assert candidates == HitsUpTo(hit, 4);
    var dateTime := rec.dateTime(line);
    if dateTime.Some? {
      candidates := candidates + [dateTime.value.text];
    }
    assert candidates == HitsUpTo(hit, 5);
    var syslog := rec.syslog(line);
    if syslog.Some? {
      candidates := candidates + [syslog.value.text];
    }
    assert candidates == HitsUpTo(hit, 6);
    if |candidates| == 0 && ByteLen(line) >= FallbackMinBytes {
      candidates := candidates + [Fallback(line)];
    }
  }

  // ---------------------------------------------------------------------
  // One candidate, one format
  // ---------------------------------------------------------------------

  /** Formats with a month name but no year are retried with the current year. */
  predicate NeedsYear(format: string)
  {
    Contains(format, "%b") && !Contains(format, "%Y")
  }

  /** `format!("{} {}", current_year, trimmed)`. */
  function YearPrefixed(year: int, trimmed: string): string
  {
    IntToDecimal(year) + " " + trimmed
  }

  /** The trimmed text as seconds since the epoch, if it is an `i64` strictly inside the window. */
  function EpochSeconds(trimmed: string): (r: Option<int>)
    ensures r.Some? <==> ParseI64(trimmed).Some? && EpochLow < ParseI64(trimmed).value < EpochHigh
    ensures r.Some? ==> r == ParseI64(trimmed)
  {
    match ParseI64(trimmed)
    case Some(n) => if EpochLow < n < EpochHigh then Some(n) else None
    case None => None
  }

  /** The chrono attempts of `parse_with_format`, in order: with offset, naive, naive with the year. */
  function ChronoChain(parsers: Parsers, year: int, trimmed: string, format: string): Option<Instant>
  {
    var withOffset := parsers.withOffset(trimmed, format);
    if withOffset.Some? then withOffset
    else
      var naive := parsers.naive(trimmed, format);
      if naive.Some? then naive
      else if NeedsYear(format) then parsers.naive(YearPrefixed(year, trimmed), "%Y " + format)
      else None
  }

  /**
   * `parse_with_format`: an integer strictly inside the epoch window is
   * read as whole seconds whatever the format; anything else goes through
   * the chrono attempts, on the trimmed text.
   */
  function ParseWithFormat(parsers: Parsers, year: int, text: string, format: string): (r: Option<Instant>)
    ensures EpochSeconds(Trim(text)).Some? ==> r == Some(FromTimestamp(EpochSeconds(Trim(text)).value))
    ensures EpochSeconds(Trim(text)).None? ==> r == ChronoChain(parsers, year, Trim(text), format)
  {
    var trimmed := Trim(text);
    match EpochSeconds(trimmed)
    case Some(secs) => Some(FromTimestamp(secs))
    case None => ChronoChain(parsers, year, trimmed, format)
  }

  /**
   * Any integer strictly inside the window, written in decimal, reads back
   * as that many whole seconds, whatever the format and the parsers.
   */
  lemma EpochRoundTrip(parsers: Parsers, year: int, n: int, format: string)
    requires EpochLow < n < EpochHigh
    ensures ParseWithFormat(parsers, year, IntToDecimal(n), format) == Some(FromTimestamp(n))
    ensures TimestampMicros(FromTimestamp(n)) == n * MicrosPerSecond
  {
    TrimDecimal(n);
    ParseI64OfDecimal(n);
  }

  /** An integer outside the open window is not read as epoch seconds. */
  lemma EpochWindowExcluded(parsers: Parsers, year: int, n: int, format: string)
    requires n <= EpochLow || EpochHigh <= n
    ensures ParseWithFormat(parsers, year, IntToDecimal(n), format)
      == ChronoChain(parsers, year, IntToDecimal(n), format)
  {
    TrimDecimal(n);
    if I64Min <= n <= I64Max {
      ParseI64OfDecimal(n);
    } else {
      assert EpochSeconds(IntToDecimal(n)).None?;
    }
  }

  /**
   * The year is consulted only for a month-name format without a year, and
   * only once the epoch rule and both plain chrono attempts have failed.
   */
  lemma YearOnlyAsLastResort(parsers: Parsers, y1: int, y2: int, text: string, format: string)
    requires
      || !NeedsYear(format)
      || EpochSeconds(Trim(text)).Some?
      || parsers.withOffset(Trim(text), format).Some?
      || parsers.naive(Trim(text), format).Some?
    ensures ParseWithFormat(parsers, y1, text, format) == ParseWithFormat(parsers, y2, text, format)
  {
  }

  /** When everything else fails on a year-less month-name format, the year is put in front. */
  lemma YearInjected(parsers: Parsers, year: int, text: string, format: string)
    requires NeedsYear(format)
    requires EpochSeconds(Trim(text)).None?
    requires parsers.withOffset(Trim(text), format).None? && parsers.naive(Trim(text), format).None?
    ensures ParseWithFormat(parsers, year, text, format)
      == parsers.naive(IntToDecimal(year) + " " + Trim(text), "%Y " + format)
  {
  }

  /** The syslog format names a month and no year. */
  lemma SyslogNeedsYear()
    ensures NeedsYear(SyslogFormat)
  {
    var f := SyslogFormat;
    assert OccursAt(f, "%b", 0);
    assert 'Y' !in f;
    forall k | 0 <= k <= |f| - 2 ensures !OccursAt(f, "%Y", k) {
      assert f[k..k + 2][1] == f[k + 1] && f[k + 1] in f;
    }
  }

  /** A format with `%Y` at `at` names the year. */
  lemma YearAt(f: string, at: nat)
    requires at + 1 < |f| && f[at] == '%' && f[at + 1] == 'Y'
    ensures Contains(f, "%Y")
  {
    assert OccursAt(f, "%Y", at);
  }

  /** Of the common formats, only the syslog one gets a year injected. */
  lemma OnlySyslogNeedsYear(i: nat)
    requires i < |CommonFormats|
    ensures NeedsYear(CommonFormats[i]) <==> CommonFormats[i] == SyslogFormat
  {
    SyslogNeedsYear();
    if i != 11 {
      var f := CommonFormats[i];
      var at := if i <= 8 then 0 else if i == 13 then 10 else 6;
      assert f[at] == '%' && f[at + 1] == 'Y';
      YearAt(f, at);
    }
  }

  // ---------------------------------------------------------------------
  // The search over candidates and formats
  // ---------------------------------------------------------------------

  /** One (candidate, format) attempt of the search: `parse_with_format`. */
  function Attempt(parsers: Parsers, year: int): (string, string) -> Option<Instant>
  {
    (c, f) => ParseWithFormat(parsers, year, c, f)
  }

  /** The first format of `formats` that reads `candidate`, and what it reads. */
  function FirstFormat(attempt: (string, string) -> Option<Instant>, candidate: string, formats: seq<string>): Option<Instant>
  {
    if formats == [] then None
    else
      var ts := attempt(candidate, formats[0]);
      if ts.Some? then ts else FirstFormat(attempt, candidate, formats[1..])
  }

  /** The first candidate some format reads, trying every format on one candidate before the next. */
  function FirstParse(attempt: (string, string) -> Option<Instant>, candidates: seq<string>, formats: seq<string>): Option<Instant>
  {
    if candidates == [] then None
    else
      var ts := FirstFormat(attempt, candidates[0], formats);
      if ts.Some? then ts else FirstParse(attempt, candidates[1..], formats)
  }

  /** No format reads the candidate exactly when the search over formats finds nothing. */
  lemma {:induction false} FirstFormatNone(attempt: (string, string) -> Option<Instant>, c: string, formats: seq<string>)
    ensures FirstFormat(attempt, c, formats).None? <==>
      forall j | 0 <= j < |formats| :: attempt(c, formats[j]).None?
  {
    if formats != [] {
      FirstFormatNone(attempt, c, formats[1..]);
      assert forall j | 1 <= j < |formats| :: formats[j] == formats[1..][j - 1];
    }
  }

  /** The search over formats returns what the first format that succeeds returns. */
  lemma {:induction false} FirstFormatFirstSuccess(attempt: (string, string) -> Option<Instant>, c: string, formats: seq<string>, j: nat)
    requires j < |formats| && attempt(c, formats[j]).Some?
    requires forall k | 0 <= k < j :: attempt(c, formats[k]).None?
    ensures FirstFormat(attempt, c, formats) == attempt(c, formats[j])
  {
    if j > 0 {
      assert attempt(c, formats[0]).None?;
      assert formats[1..][j - 1] == formats[j];
      FirstFormatFirstSuccess(attempt, c, formats[1..], j - 1);
    }
  }

  /** The search finds nothing exactly when no (candidate, format) pair parses. */
  lemma {:induction false} FirstParseNone(attempt: (string, string) -> Option<Instant>, cs: seq<string>, formats: seq<string>)
    ensures FirstParse(attempt, cs, formats).None? <==>
      forall i, j | 0 <= i < |cs| && 0 <= j < |formats| :: attempt(cs[i], formats[j]).None?
  {
    if cs != [] {
      FirstParseNone(attempt, cs[1..], formats);
      FirstFormatNone(attempt, cs[0], formats);
      assert forall i | 1 <= i < |cs| :: cs[i] == cs[1..][i - 1];
    }
  }

  /**
   * The search returns the result of the first pair that parses, pairs
   * ordered by candidate and then by format: every format on earlier
   * candidates failed, and so did every earlier format on this one.
   */
  lemma {:induction false} FirstParseFirstSuccess(attempt: (string, string) -> Option<Instant>, cs: seq<string>, formats: seq<string>, i: nat, j: nat)
    requires i < |cs| && j < |formats|
    requires attempt(cs[i], formats[j]).Some?
    requires forall i', j' | 0 <= i' < i && 0 <= j' < |formats| :: attempt(cs[i'], formats[j']).None?
    requires forall j' | 0 <= j' < j :: attempt(cs[i], formats[j']).None?
    ensures FirstParse(attempt, cs, formats) == attempt(cs[i], formats[j])
  {
    if i == 0 {
      FirstFormatFirstSuccess(attempt, cs[0], formats, j);
    } else {
      FirstFormatNone(attempt, cs[0], formats);
      forall i', j' | 0 <= i' < i - 1 && 0 <= j' < |formats|
        ensures attempt(cs[1..][i'], formats[j']).None?
      {
        assert cs[1..][i'] == cs[i' + 1];
      }
      assert cs[1..][i - 1] == cs[i];
      FirstParseFirstSuccess(attempt, cs[1..], formats, i - 1, j);
    }
  }

  /**
   * `parse_line`: the custom format, if any, on the whole line; if that
   * fails, the first (candidate, common format) pair that parses.
   */
  function ParseLineSpec(tp: TimestampParser, parsers: Parsers, year: int, line: string): Option<Instant>
  {
    var custom := if tp.customFormat.Some? then ParseWithFormat(parsers, year, line, tp.customFormat.value) else None;
    if custom.Some? then custom
    else FirstParse(Attempt(parsers, year), Candidates(tp.recognizers, line), CommonFormats)
  }

  /** `parse_line`, with its loops over candidates and formats and its early returns. */
  method ParseLine(tp: TimestampParser, parsers: Parsers, year: int, line: string) returns (r: Option<Instant>)
    ensures r == ParseLineSpec(tp, parsers, year, line)
    ensures tp.customFormat.Some? && ParseWithFormat(parsers, year, line, tp.customFormat.value).Some? ==>
      r == ParseWithFormat(parsers, year, line, tp.customFormat.value)
    ensures tp.customFormat.None? || ParseWithFormat(parsers, year, line, tp.customFormat.value).None? ==>
      r == FirstParse(Attempt(parsers, year), Candidates(tp.recognizers, line), CommonFormats)
  {
    if tp.customFormat.Some? {
      var ts := ParseWithFormat(parsers, year, line, tp.customFormat.value);
      if ts.Some? {
        return ts;
      }
    }
    var candidates := ExtractCandidates(tp.recognizers, line);
    r := SearchCandidates(parsers, year, candidates, CommonFormats);
  }

  /** The two nested loops of `parse_line`: every format on a candidate, then the next candidate. */
  method SearchCandidates(parsers: Parsers, year: int, candidates: seq<string>, formats: seq<string>)
    returns (r: Option<Instant>)
    ensures r == FirstParse(Attempt(parsers, year), candidates, formats)
  {
    ghost var attempt := Attempt(parsers, year);
    var i := 0;
    while i < |candidates|
      invariant 0 <= i <= |candidates|
      invariant FirstParse(attempt, candidates, formats) == FirstParse(attempt, candidates[i..], formats)
    {
      var candidate := candidates[i];
      var j := 0;
      while j < |formats|
        invariant 0 <= j <= |formats|
        invariant FirstFormat(attempt, candidate, formats) == FirstFormat(attempt, candidate, formats[j..])
      {
        var ts := ParseWithFormat(parsers, year, candidate, formats[j]);
        assert ts == attempt(candidate, formats[j]);
        FirstFormatAt(attempt, candidate, formats, j);
        if ts.Some? {
          FirstParseAt(attempt, candidates, formats, i);
          return ts;
        }
        j := j + 1;
      }
      assert formats[j..] == [];
      FirstParseAt(attempt, candidates, formats, i);
      i := i + 1;
    }
    assert candidates[i..] == [];
    return None;
  }

  /** One step of the search over formats: the format at `j` either reads the candidate or is skipped. */
  lemma FirstFormatAt(attempt: (string, string) -> Option<Instant>, c: string, formats: seq<string>, j: nat)
    requires j < |formats|
    ensures attempt(c, formats[j]).Some? ==> FirstFormat(attempt, c, formats[j..]) == attempt(c, formats[j])
    ensures attempt(c, formats[j]).None? ==> FirstFormat(attempt, c, formats[j..]) == FirstFormat(attempt, c, formats[j + 1..])
  {
    assert formats[j..][0] == formats[j] && formats[j..][1..] == formats[j + 1..];
  }

  /** One step of the search over candidates: the candidate at `i` either parses or is skipped. */
  lemma FirstParseAt(attempt: (string, string) -> Option<Instant>, cs: seq<string>, formats: seq<string>, i: nat)
    requires i < |cs|
    ensures FirstFormat(attempt, cs[i], formats).Some? ==>
      FirstParse(attempt, cs[i..], formats) == FirstFormat(attempt, cs[i], formats)
    ensures FirstFormat(attempt, cs[i], formats).None? ==>
      FirstParse(attempt, cs[i..], formats) == FirstParse(attempt, cs[i + 1..], formats)
  {
    assert cs[i..][0] == cs[i] && cs[i..][1..] == cs[i + 1..];
  }

  // ---------------------------------------------------------------------
  // The fallback prefix as written
  // ---------------------------------------------------------------------

  /**
   * The fallback as the source writes it, `line[..line.len().min(50)]`:
   * a byte slice, `None` where the slice would panic.
   */
  function FallbackAsWritten(line: string): (r: Option<string>)
    ensures r.Some? ==> r.value == Fallback(line)
    ensures r.None? <==>
      ByteLen(line) >= FallbackMaxBytes && forall k | 0 <= k <= |line| :: ByteLen(line[..k]) != FallbackMaxBytes
  {
    if ByteLen(line) < FallbackMaxBytes then
      BytePrefixWhole(line);
      PrefixWithinWhole(line, FallbackMaxBytes);
      BytePrefix(line, ByteLen(line))
    else
      var r := BytePrefix(line, FallbackMaxBytes);
      if r.Some? then
        PrefixWithinAgrees(line, FallbackMaxBytes);
        assert line[..|r.value|] == r.value;
        r
      else r
  }

  /**
   * `extract_timestamp_candidates` as written: `None` where the fallback
   * slice panics, and otherwise exactly the candidates of the model.
   */
  function CandidatesAsWritten(rec: Recognizers, line: string): (r: Option<seq<string>>)
    ensures r.Some? ==> r.value == Candidates(rec, line)
    ensures r.None? <==>
      && (forall i | 0 <= i < |CandidateOrder| :: Hit(rec, CandidateOrder[i], line).None?)
      && ByteLen(line) >= FallbackMinBytes
      && FallbackAsWritten(line).None?
  {
    HitsUpToEmpty(HitOf(rec, line), |CandidateOrder|);
    var hits := HitsUpTo(HitOf(rec, line), |CandidateOrder|);
    if hits == [] && ByteLen(line) >= FallbackMinBytes then
      match FallbackAsWritten(line)
      case Some(p) => Some([p])
      case None => None
    else Some(hits)
  }

  lemma {:induction false} BytePrefixWhole(s: string)
    ensures BytePrefix(s, ByteLen(s)) == Some(s)
  {
    if s != [] {
      BytePrefixWhole(s[1..]);
      assert [s[0]] + s[1..] == s;
    }
  }

  lemma {:induction false} PrefixWithinWhole(s: string, n: nat)
    requires ByteLen(s) <= n
    ensures PrefixWithin(s, n) == s
  {
    if s != [] {
      PrefixWithinWhole(s[1..], n - Utf8Width(s[0]));
      assert [s[0]] + s[1..] == s;
    }
  }

  /**
   * A line of 49 ASCII letters and one two-byte letter has 51 bytes; byte
   * 50 falls inside that letter, so the slice panics, while the corrected
   * fallback keeps the 49 letters.
   */
  lemma FallbackSplitsCharacter()
    ensures
      var line := seq(49, _ => 'a') + ['é'];
      && ByteLen(line) == 51
      && FallbackAsWritten(line).None?
      && Fallback(line) == seq(49, _ => 'a')
  {
    var a := seq(49, _ => 'a');
    var line := a + ['é'];
    ByteLenAscii(a);
    ByteLenAppend(a, ['é']);
    assert ByteLen(['é']) == 2;
    forall k | 0 <= k <= 49 ensures ByteLen(line[..k]) == k {
      assert line[..k] == a[..k];
      ByteLenAscii(a[..k]);
    }
    assert line[..50] == line;
    var p := Fallback(line);
    assert ByteLen(p) != ByteLen(line);
    assert p != line && p == line[..|p|];
    assert |p| < |line|;
    assert |p| == 49;
    assert line[..49] == a;
  }
}
