/**
 * The time-bucket aggregator: an ordered map from bucket key (microseconds
 * since the epoch) to a count, a running first/last instant, and a width
 * that is either fixed or chosen automatically from the observed span.
 *
 * Widths are whole microseconds. A fixed width holds the value that the
 * source's `(seconds * 1_000_000.0) as i64` produces from the configured
 * seconds; reading the configuration string as an `f64` is a parameter.
 */
module Bucket {
  import opened Wrappers
  import opened Text
  import opened Chrono
  import opened Counts

  /** The width used when none is configured, and by `Auto` before any data. */
  const DefaultWidthMicros: int := 60_000_000
  const DayMicros: int := 86_400_000_000
  /** The auto width aims at about this many buckets over the observed span. */
  const TargetBuckets: int := 15
  /** The span, in seconds, from which the auto width is a whole number of days. */
  const MultiDaySpan: int := 1_296_000

  /** The widths the auto ladder picks from below the multi-day range. */
  const Ladder: seq<int> := [
    100_000, 1_000_000, 60_000_000, 300_000_000, 900_000_000,
    3_600_000_000, 21_600_000_000, 86_400_000_000]

  const InvalidSizeMessage: string := "Invalid bucket size: must be a number or 'auto'"

  datatype BucketSize = Seconds(micros: int) | Auto

  /**
   * A size `add` can divide by: a fixed width below one microsecond (zero
   * after the cast) makes the source divide by zero.
   */
  predicate NonZeroWidth(size: BucketSize)
  {
    size.Auto? || size.micros != 0
  }

  // ---------------------------------------------------------------------
  // Configuration
  // ---------------------------------------------------------------------

  /**
   * `BucketSize::from_string`: "auto" in any letter case selects `Auto`;
   * anything the number parser accepts becomes a fixed width, with no
   * check that it is positive; everything else is an error.
   */
  function FromString(s: string, parseWidth: string -> Option<int>): (r: Result<BucketSize, string>)
    ensures r == Ok(Auto) <==> LowerEquals(s, "auto")
    ensures r.Ok? && r.value.Seconds? ==> parseWidth(s) == Some(r.value.micros)
    ensures r.Err? <==> !LowerEquals(s, "auto") && parseWidth(s).None?
    ensures r.Err? ==> r.error == InvalidSizeMessage
  {
    if LowerEquals(s, "auto") then Ok(Auto)
    else match parseWidth(s)
      case Some(us) => Ok(Seconds(us))
      case None => Err(InvalidSizeMessage)
  }

  /** The size chosen by `TimeBucket::new`: one minute when nothing is configured. */
  function SizeFromConfig(config: Option<string>, parseWidth: string -> Option<int>): (r: Result<BucketSize, string>)
    ensures config.None? ==> r == Ok(Seconds(DefaultWidthMicros))
    ensures config.Some? ==> r == FromString(config.value, parseWidth)
  {
    match config
    case None => Ok(Seconds(DefaultWidthMicros))
    case Some(s) => FromString(s, parseWidth)
  }

  lemma FromStringExamples(parseWidth: string -> Option<int>)
    ensures FromString("auto", parseWidth) == Ok(Auto)
    ensures FromString("AUTO", parseWidth) == Ok(Auto)
    ensures FromString("Auto", parseWidth) == Ok(Auto)
  {
  }

  // ---------------------------------------------------------------------
  // Width arithmetic
  // ---------------------------------------------------------------------

  function Abs(x: int): nat
  {
    if x < 0 then -x else x
  }

  /** Rust's `/` on integers: the quotient rounded towards zero. */
  function TruncDiv(a: int, b: int): (q: int)
    requires b != 0
    ensures (a < 0) == (b < 0) ==> q == Abs(a) / Abs(b)
    ensures (a < 0) != (b < 0) ==> q == -(Abs(a) / Abs(b))
  {
    var n := Abs(a) / Abs(b);
    if (a < 0) == (b < 0) then n else -n
  }

  /**
   * The division identity of truncating division: the remainder
   * `a - q * b` is smaller than the divisor and has the sign of the dividend.
   */
  lemma TruncDivRemainder(a: int, b: int)
    requires b != 0
    ensures Abs(a - TruncDiv(a, b) * b) < Abs(b)
    ensures a >= 0 ==> a - TruncDiv(a, b) * b >= 0
    ensures a < 0 ==> a - TruncDiv(a, b) * b <= 0
  {
    var n: int := Abs(a) / Abs(b);
    var q := TruncDiv(a, b);
    EuclidNat(Abs(a), Abs(b));
    var m := n * Abs(b);
    if b < 0 {
      assert q * b == (-q) * Abs(b);
    } else {
      assert q * b == q * Abs(b);
    }
    assert q * b == (if a < 0 then -m else m);
  }

  lemma EuclidNat(a: nat, b: nat)
    requires b > 0
    ensures 0 <= (a / b) * b <= a < (a / b) * b + b
  {
  }

  /**
   * `(micros / width) * width` with Rust's truncating division: at or after
   * the epoch the key is the floor multiple of the width, before it the
   * mirror image, and the sign of the width does not matter.
   */
  function BucketKey(micros: int, width: int): int
    requires width != 0
  {
    TruncDiv(micros, width) * width
  }

  lemma BucketKeyFloor(micros: int, width: int)
    requires width != 0
    ensures micros >= 0 ==> BucketKey(micros, width) == (micros / Abs(width)) * Abs(width)
    ensures micros < 0 ==> BucketKey(micros, width) == -(((-micros) / Abs(width)) * Abs(width))
  {
    var q := TruncDiv(micros, width);
    var n := Abs(micros) / Abs(width);
    assert q * width == (if micros < 0 then -(n * Abs(width)) else n * Abs(width)) by {
      if width < 0 {
        assert q * width == (-q) * Abs(width);
      }
    }
  }

  /** A key lies less than one width from its instant, on the side of the epoch. */
  lemma BucketKeyBounds(micros: int, width: int)
    requires width != 0
    ensures micros >= 0 ==> 0 <= BucketKey(micros, width) <= micros < BucketKey(micros, width) + Abs(width)
    ensures micros < 0 ==> BucketKey(micros, width) - Abs(width) < micros <= BucketKey(micros, width) <= 0
  {
    EuclidNat(Abs(micros), Abs(width));
  }

  /** Two instants at or after the epoch share a key exactly when they share a floor quotient. */
  lemma SameKeyIffSameInterval(a: int, b: int, width: int)
    requires 0 <= a && 0 <= b && width > 0
    ensures BucketKey(a, width) == BucketKey(b, width) <==> a / width == b / width
  {
    assert BucketKey(a, width) == (a / width) * width;
    assert BucketKey(b, width) == (b / width) * width;
    if a / width != b / width {
      if a / width < b / width {
        assert (a / width + 1) * width <= (b / width) * width;
      } else {
        assert (b / width + 1) * width <= (a / width) * width;
      }
    }
  }

  /** A negative width buckets exactly like its absolute value. */
  lemma NegativeWidthMirrors(micros: int, width: int)
    requires width != 0
    ensures BucketKey(micros, -width) == BucketKey(micros, width)
  {
  }

  /**
   * Truncation puts the instants just before the epoch in the same bucket as
   * those just after it: bucket 0 covers (-width, width).
   */
  lemma KeyZeroAroundEpoch(micros: int, width: int)
    requires width > 0 && -width < micros < width
    ensures BucketKey(micros, width) == 0
  {
    var n := Abs(micros) / width;
    EuclidNat(Abs(micros), width);
    MulAtLeast(n, width);
  }

  lemma MulAtLeast(n: nat, w: nat)
    ensures n >= 1 ==> n * w >= w
  {
  }

  /**
   * `calculate_auto_bucket_size` over a span in whole seconds: the smallest
   * rung of the ladder that exceeds `span / 15`, and from 15 days on the
   * whole number of days in `span / 15`, rounded down.
   */
  function AutoWidth(span: int): (w: int)
    ensures w > 0
    ensures span < MultiDaySpan ==> w in Ladder
    ensures span >= MultiDaySpan ==> w % DayMicros == 0 && w >= DayMicros
  {
    if span <= 1 then 100_000
    else if span < 15 then 1_000_000
    else if span < 900 then 60_000_000
    else if span < 4_500 then 300_000_000
    else if span < 13_500 then 900_000_000
    else if span < 54_000 then 3_600_000_000
    else if span < 324_000 then 21_600_000_000
    else if span < MultiDaySpan then 86_400_000_000
    else (span / MultiDaySpan) * DayMicros
  }

  /**
   * What the auto width achieves: below the multi-day threshold it is the
   * first ladder rung whose `TargetBuckets` buckets cover the span; from
   * there on it is the whole number of days, rounded down, that
   * `TargetBuckets` buckets of it fit in the span, so those buckets cover at
   * most the span and more than half of it.
   */
  lemma AutoWidthCovers(span: int)
    ensures span < MultiDaySpan ==> span * MicrosPerSecond < TargetBuckets * AutoWidth(span)
    ensures span < MultiDaySpan ==>
      forall r | r in Ladder && r < AutoWidth(span) :: TargetBuckets * r <= span * MicrosPerSecond
    ensures span >= MultiDaySpan ==>
      var w := AutoWidth(span);
      && TargetBuckets * w <= span * MicrosPerSecond < 2 * TargetBuckets * w
      && span * MicrosPerSecond < TargetBuckets * (w + DayMicros)
  {
    if span >= MultiDaySpan {
      var days := span / MultiDaySpan;
      EuclidNat(span, MultiDaySpan);
      assert span < 2 * days * MultiDaySpan;
      assert TargetBuckets * (days * DayMicros + DayMicros) == (days * MultiDaySpan + MultiDaySpan) * MicrosPerSecond;
    }
  }

  lemma AutoWidthExamples()
    ensures AutoWidth(600) == 60_000_000
    ensures AutoWidth(3_000) == 300_000_000
    ensures AutoWidth(7_500) == 900_000_000
    ensures AutoWidth(30_000) == 3_600_000_000
    ensures AutoWidth(90_000) == 21_600_000_000
    ensures AutoWidth(500_000) == 86_400_000_000
  {
  }

  /** A longer span never gets a narrower auto width. */
  lemma AutoWidthMonotonic(a: int, b: int)
    requires a <= b
    ensures AutoWidth(a) <= AutoWidth(b)
  {
    if a >= MultiDaySpan {
      assert a / MultiDaySpan <= b / MultiDaySpan;
    } else if b >= MultiDaySpan {
      assert b / MultiDaySpan >= 1;
    }
  }

  /** `last.signed_duration_since(first).num_seconds()`: whole seconds, truncated towards zero. */
  function SpanSeconds(first: Instant, last: Instant): (s: int)
    ensures first <= last ==> s == (last - first) / NanosPerSecond
  {
    TruncDiv(last - first, NanosPerSecond)
  }

  /**
   * `get_bucket_size`: a fixed width is returned as configured; `Auto` uses
   * the span seen so far, or one minute while nothing has been seen.
   */
  function ActiveWidth(size: BucketSize, first: Option<Instant>, last: Option<Instant>): (w: int)
    ensures size.Seconds? ==> w == size.micros
    ensures size.Auto? ==> w > 0
    ensures size.Auto? && (first.None? || last.None?) ==> w == DefaultWidthMicros
    ensures size.Auto? && first.Some? && last.Some? ==> w == AutoWidth(SpanSeconds(first.value, last.value))
  {
    match size
    case Seconds(us) => us
    case Auto =>
      if first.Some? && last.Some? then AutoWidth(SpanSeconds(first.value, last.value))
      else DefaultWidthMicros
  }

  // ---------------------------------------------------------------------
  // The running range and the keys of a run of instants
  // ---------------------------------------------------------------------

  function Least(s: seq<Instant>): (r: Instant)
    requires s != []
    ensures r in s && forall x | x in s :: r <= x
  {
    if |s| == 1 then s[0]
    else
      var init := s[..|s| - 1];
      assert s == init + [s[|s| - 1]];
      var l := Least(init);
      if s[|s| - 1] < l then s[|s| - 1] else l
  }

  function Greatest(s: seq<Instant>): (r: Instant)
    requires s != []
    ensures r in s && forall x | x in s :: x <= r
  {
    if |s| == 1 then s[0]
    else
      var init := s[..|s| - 1];
      assert s == init + [s[|s| - 1]];
      var g := Greatest(init);
      if s[|s| - 1] > g then s[|s| - 1] else g
  }

  lemma LeastSnoc(s: seq<Instant>, t: Instant)
    ensures Least(s + [t]) == if s == [] || t < Least(s) then t else Least(s)
  {
    if s != [] {
      assert (s + [t])[..|s|] == s;
    }
  }

  lemma GreatestSnoc(s: seq<Instant>, t: Instant)
    ensures Greatest(s + [t]) == if s == [] || t > Greatest(s) then t else Greatest(s)
  {
    if s != [] {
      assert (s + [t])[..|s|] == s;
    }
  }

  /** The key of each instant under one fixed width. */
  function KeysOf(ts: seq<Instant>, width: int): (ks: seq<int>)
    requires width != 0
    ensures |ks| == |ts|
    ensures forall i | 0 <= i < |ts| :: ks[i] == BucketKey(TimestampMicros(ts[i]), width)
  {
    seq(|ts|, i requires 0 <= i < |ts| => BucketKey(TimestampMicros(ts[i]), width))
  }

  lemma KeysOfAppend(a: seq<Instant>, b: seq<Instant>, width: int)
    requires width != 0
    ensures KeysOf(a + b, width) == KeysOf(a, width) + KeysOf(b, width)
  {
  }

  /** Removing the element at `j` removes one occurrence of it from the multiset. */
  lemma MultisetRemoveAt(s: seq<int>, j: int)
    requires 0 <= j < |s|
    ensures multiset(s[..j] + s[j + 1..]) == multiset(s) - multiset{s[j]}
  {
    assert s == s[..j] + [s[j]] + s[j + 1..];
  }

  /** Taking out the instant at `j` takes its key out of the keys. */
  lemma KeysOfRemoveAt(ts: seq<Instant>, j: int, width: int)
    requires width != 0 && 0 <= j < |ts|
    ensures multiset(KeysOf(ts, width))
      == multiset(KeysOf(ts[..j] + ts[j + 1..], width)) + multiset{BucketKey(TimestampMicros(ts[j]), width)}
  {
    var pre, post := ts[..j], ts[j + 1..];
    assert ts == pre + [ts[j]] + post;
    KeysOfAppend(pre + [ts[j]], post, width);
    KeysOfAppend(pre, [ts[j]], width);
    KeysOfAppend(pre, post, width);
  }

  lemma {:induction false} KeysOfPermutation(ts1: seq<Instant>, ts2: seq<Instant>, width: int)
    requires width != 0
    requires multiset(ts1) == multiset(ts2)
    ensures multiset(KeysOf(ts1, width)) == multiset(KeysOf(ts2, width))
    decreases |ts1|
  {
    if ts1 == [] {
      assert |multiset(ts2)| == 0;
      assert ts2 == [];
    } else {
      var n := |ts1| - 1;
      var x := ts1[n];
      assert x in multiset(ts2);
      var j :| 0 <= j < |ts2| && ts2[j] == x;
      var rest1, rest2 := ts1[..n] + ts1[n + 1..], ts2[..j] + ts2[j + 1..];
      MultisetRemoveAt(ts1, n);
      MultisetRemoveAt(ts2, j);
      assert |rest1| < |ts1|;
      KeysOfPermutation(rest1, rest2, width);
      KeysOfRemoveAt(ts1, n, width);
      KeysOfRemoveAt(ts2, j, width);
    }
  }

  /**
   * With a fixed width, the bucket map depends only on which instants were
   * added and how often, not on the order they were added in.
   */
  lemma FixedWidthOrderIndependent(ts1: seq<Instant>, ts2: seq<Instant>, width: int)
    requires width != 0
    requires multiset(ts1) == multiset(ts2)
    ensures Tally(KeysOf(ts1, width)) == Tally(KeysOf(ts2, width))
  {
    KeysOfPermutation(ts1, ts2, width);
    TallyPermutation(KeysOf(ts1, width), KeysOf(ts2, width));
  }

  /** Three instants within one minute make one bucket of three. */
  lemma SameMinuteScenario()
    ensures
      var ts := [FromTimestamp(1_759_494_610), FromTimestamp(1_759_494_630), FromTimestamp(1_759_494_650)];
      Tally(KeysOf(ts, 60_000_000)) == map[1_759_494_600_000_000 := 3]
  {
    var ts := [FromTimestamp(1_759_494_610), FromTimestamp(1_759_494_630), FromTimestamp(1_759_494_650)];
    var k := 1_759_494_600_000_000;
    assert BucketKey(1_759_494_610_000_000, 60_000_000) == k;
    assert BucketKey(1_759_494_630_000_000, 60_000_000) == k;
    assert BucketKey(1_759_494_650_000_000, 60_000_000) == k;
    var ks := KeysOf(ts, 60_000_000);
    assert ks == [] + [k] + [k] + [k];
    TallySnoc([], k);
    TallySnoc([k], k);
    TallySnoc([k, k], k);
  }

  /** Half-second buckets put 0.1 s and 0.3 s together and 0.6 s apart. */
  lemma HalfSecondScenario()
    ensures
      var base := FromTimestamp(1_759_494_600);
      var ts := [base + 100_000_000, base + 300_000_000, base + 600_000_000];
      Tally(KeysOf(ts, 500_000)) == map[1_759_494_600_000_000 := 2, 1_759_494_600_500_000 := 1]
  {
    var base := FromTimestamp(1_759_494_600);
    var ts := [base + 100_000_000, base + 300_000_000, base + 600_000_000];
    var k0, k1 := 1_759_494_600_000_000, 1_759_494_600_500_000;
    assert BucketKey(1_759_494_600_100_000, 500_000) == k0;
    assert BucketKey(1_759_494_600_300_000, 500_000) == k0;
    assert BucketKey(1_759_494_600_600_000, 500_000) == k1;
    var ks := KeysOf(ts, 500_000);
    assert ks == [] + [k0] + [k0] + [k1];
    TallySnoc([], k0);
    TallySnoc([k0], k0);
    TallySnoc([k0, k0], k1);
  }

  // ---------------------------------------------------------------------
  // The aggregator
  // ---------------------------------------------------------------------

  /**
   * What the aggregator's state says about the instants added so far: the
   * counts are the tally of their keys, the range is their least and
   * greatest, and each key is the one `add` computes for that instant,
   * with the width in effect once it was in the range.
   */
  ghost predicate Consistent(size: BucketSize, buckets: map<int, nat>, first: Option<Instant>,
                             last: Option<Instant>, added: seq<Instant>, keys: seq<int>)
  {
    && |keys| == |added|
    && buckets == Tally(keys)
    && RangeOf(added, first, last)
    && (NonZeroWidth(size) ==> forall i {:trigger KeyAt(size, added, i)} | 0 <= i < |keys| :: keys[i] == KeyAt(size, added, i))
  }

  /** The width `add` uses for the last instant of `prefix`, with all of `prefix` in the range. */
  function WidthAfter(size: BucketSize, prefix: seq<Instant>): int
    requires prefix != []
  {
    ActiveWidth(size, Some(Least(prefix)), Some(Greatest(prefix)))
  }

  /**
   * The key `add` counts the `i`-th instant of `added` under: its key at
   * the width in effect once the first `i + 1` instants are in the range.
   */
  function KeyAt(size: BucketSize, added: seq<Instant>, i: nat): int
    requires NonZeroWidth(size) && i < |added|
  {
    BucketKey(TimestampMicros(added[i]), WidthAfter(size, added[..i + 1]))
  }

  /** Instants added later do not change the key of an earlier one. */
  lemma KeyAtPrefix(size: BucketSize, added: seq<Instant>, t: Instant, i: nat)
    requires NonZeroWidth(size) && i < |added|
    ensures KeyAt(size, added + [t], i) == KeyAt(size, added, i)
  {
    assert (added + [t])[..i + 1] == added[..i + 1];
  }

  /** The range the aggregator keeps: nothing before any instant, then the least and greatest. */
  ghost predicate RangeOf(added: seq<Instant>, first: Option<Instant>, last: Option<Instant>)
  {
    && (added == [] ==> first.None? && last.None?)
    && (added != [] ==> first == Some(Least(added)) && last == Some(Greatest(added)))
  }

  /** Widening the range by `t`, as `add` does, gives the range of one more instant. */
  lemma RangeSnoc(added: seq<Instant>, first: Option<Instant>, last: Option<Instant>, t: Instant)
    requires RangeOf(added, first, last)
    ensures RangeOf(added + [t],
                    if first.None? || t < first.value then Some(t) else first,
                    if last.None? || t > last.value then Some(t) else last)
  {
    LeastSnoc(added, t);
    GreatestSnoc(added, t);
  }

  /**
   * Under a fixed width every instant is counted under its own key at that
   * width, whatever the range was when it came, so the counts are those of
   * `FixedWidthOrderIndependent` and do not depend on the order of adding.
   */
  lemma FixedWidthCounts(width: int, buckets: map<int, nat>, first: Option<Instant>,
                         last: Option<Instant>, added: seq<Instant>, keys: seq<int>)
    requires width != 0
    requires Consistent(Seconds(width), buckets, first, last, added, keys)
    ensures buckets == Tally(KeysOf(added, width))
  {
    forall i | 0 <= i < |keys|
      ensures keys[i] == KeysOf(added, width)[i]
    {
      assert keys[i] == KeyAt(Seconds(width), added, i);
    }
    assert keys == KeysOf(added, width);
  }

  /** The key `add` counts a new instant under is its key at the widened range, and earlier keys stay. */
  lemma KeysStep(size: BucketSize, added: seq<Instant>, keys: seq<int>, t: Instant,
                 first': Option<Instant>, last': Option<Instant>, added': seq<Instant>, keys': seq<int>)
    requires NonZeroWidth(size) && |keys| == |added|
    requires forall i {:trigger KeyAt(size, added, i)} | 0 <= i < |keys| :: keys[i] == KeyAt(size, added, i)
    requires added' == added + [t]
    requires RangeOf(added', first', last')
    requires keys' == keys + [BucketKey(TimestampMicros(t), ActiveWidth(size, first', last'))]
    ensures forall i {:trigger KeyAt(size, added', i)} | 0 <= i < |keys'| :: keys'[i] == KeyAt(size, added', i)
  {
    forall i | 0 <= i < |keys'|
      ensures keys'[i] == KeyAt(size, added', i)
    {
      if i < |keys| {
        assert keys[i] == KeyAt(size, added, i) by {
          assert keys[i] == keys'[i] && added[i] == added'[i];
        }
        KeyAtPrefix(size, added, t, i);
      } else {
        assert added'[..i + 1] == added';
      }
    }
  }

  /** One `add` step keeps the state consistent with the instants added. */
  lemma AddKeepsConsistent(size: BucketSize, buckets: map<int, nat>, first: Option<Instant>,
                           last: Option<Instant>, added: seq<Instant>, keys: seq<int>, t: Instant,
                           buckets': map<int, nat>, first': Option<Instant>, last': Option<Instant>,
                           added': seq<Instant>, keys': seq<int>)
    requires Consistent(size, buckets, first, last, added, keys)
    requires NonZeroWidth(size)
    requires first' == if first.None? || t < first.value then Some(t) else first
    requires last' == if last.None? || t > last.value then Some(t) else last
    requires added' == added + [t]
    requires keys' == keys + [BucketKey(TimestampMicros(t), ActiveWidth(size, first', last'))]
    requires buckets' == Increment(buckets, keys'[|keys|])
    ensures Consistent(size, buckets', first', last', added', keys')
  {
    RangeSnoc(added, first, last, t);
    TallySnoc(keys, keys'[|keys|]);
    KeysStep(size, added, keys, t, first', last', added', keys');
  }

  /** `TimeBucket`: the state a scan accumulates into. */
  class TimeBucket {
    var bucketSize: BucketSize
    var buckets: map<int, nat>
    var firstTimestamp: Option<Instant>
    var lastTimestamp: Option<Instant>
    /** Every instant passed to `Add`, in order. */
    ghost var added: seq<Instant>
    /** The key each of those instants was counted under. */
    ghost var keys: seq<int>

    ghost predicate Valid()
      reads this
    {
      Consistent(bucketSize, buckets, firstTimestamp, lastTimestamp, added, keys)
    }

    /** `TimeBucket::new` once the size is known: no buckets and no range. */
    constructor (size: BucketSize)
      ensures Valid()
      ensures bucketSize == size && buckets == map[]
      ensures firstTimestamp.None? && lastTimestamp.None?
      ensures added == [] && keys == []
    {
      bucketSize := size;
      buckets := map[];
      firstTimestamp := None;
      lastTimestamp := None;
      added := [];
      keys := [];
    }

    /**
     * `add`: widen the range, work out the width with the new instant
     * already in the range, and count the instant under its key. A width
     * of zero microseconds makes the source divide by zero, so it is
     * excluded here.
     */
    method Add(t: Instant)
      requires Valid()
      requires NonZeroWidth(bucketSize)
      modifies this
      ensures Valid()
      ensures bucketSize == old(bucketSize)
      ensures added == old(added) + [t]
      ensures buckets == Increment(old(buckets),
        BucketKey(TimestampMicros(t), ActiveWidth(bucketSize, firstTimestamp, lastTimestamp)))
    {
      var first := if firstTimestamp.None? || t < firstTimestamp.value then Some(t) else firstTimestamp;
      var last := if lastTimestamp.None? || t > lastTimestamp.value then Some(t) else lastTimestamp;
      var key := BucketKey(TimestampMicros(t), ActiveWidth(bucketSize, first, last));
      firstTimestamp, lastTimestamp := first, last;
      buckets := Increment(buckets, key);
      added, keys := added + [t], keys + [key];
      AddKeepsConsistent(bucketSize, old(buckets), old(firstTimestamp), old(lastTimestamp), old(added),
                         old(keys), t, buckets, firstTimestamp, lastTimestamp, added, keys);
    }

    /** `get_buckets`. */
    function GetBuckets(): (r: seq<(int, nat)>)
      reads this
      requires Valid()
      ensures forall i, j | 0 <= i < j < |r| :: r[i].0 < r[j].0
      ensures |r| == |set k | k in keys|
      ensures forall e | e in r :: e.0 in keys && e.1 == multiset(keys)[e.0]
      ensures forall k | k in keys :: exists e | e in r :: e.0 == k
    {
      BucketListOfTally(keys);
      BucketList(buckets)
    }

    /** `total_matches`: the number of instants added. */
    function TotalMatches(): (n: nat)
      reads this
      requires Valid()
      ensures n == |added|
    {
      TallyTotal(keys);
      Total(buckets)
    }

    /** `bucket_size_seconds`, in microseconds. */
    function BucketSizeMicros(): (w: int)
      reads this
      requires Valid()
      ensures bucketSize.Seconds? ==> w == bucketSize.micros
      ensures bucketSize.Auto? ==> w > 0
      ensures bucketSize.Auto? && added == [] ==> w == DefaultWidthMicros
      ensures bucketSize.Auto? && added != [] ==> w == AutoWidth(SpanSeconds(Least(added), Greatest(added)))
    {
      ActiveWidth(bucketSize, firstTimestamp, lastTimestamp)
    }

    /** `time_range`: the earliest and latest instants added, once there is one. */
    function TimeRange(): (r: Option<(Instant, Instant)>)
      reads this
      requires Valid()
      ensures r.None? <==> added == []
      ensures r.Some? ==> r.value == (Least(added), Greatest(added))
    {
      match (firstTimestamp, lastTimestamp)
      case (Some(first), Some(last)) => Some((first, last))
      case _ => None
    }
  }
}
