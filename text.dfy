/**
 * The pieces of Rust's `str` and integer handling that the timestamp
 * extractor relies on: `trim`, `i64::from_str`, integer `Display`,
 * `str::contains`, `to_lowercase` compared against an ASCII word, and the
 * UTF-8 byte length that `str::len` and byte slicing use.
 *
 * Strings are sequences of Unicode scalar values (Dafny `char`).
 */
module Text {
  import opened Wrappers

  const I64Min: int := -0x8000_0000_0000_0000
  const I64Max: int := 0x7FFF_FFFF_FFFF_FFFF

  // ---------------------------------------------------------------------
  // Whitespace and trimming
  // ---------------------------------------------------------------------

  /** Unicode White_Space, the set `char::is_whitespace` and `str::trim` use. */
  predicate IsWhitespace(c: char)
  {
    var n := c as int;
    || 0x09 <= n <= 0x0D
    || n == 0x20
    || n == 0x85
    || n == 0xA0
    || n == 0x1680
    || 0x2000 <= n <= 0x200A
    || n == 0x2028
    || n == 0x2029
    || n == 0x202F
    || n == 0x205F
    || n == 0x3000
  }

  /** `str::trim_start`: drops the leading whitespace and nothing else. */
  function TrimStart(s: string): (r: string)
    ensures |r| <= |s| && r == s[|s| - |r|..]
    ensures forall i | 0 <= i < |s| - |r| :: IsWhitespace(s[i])
    ensures r != [] ==> !IsWhitespace(r[0])
  {
    if |s| > 0 && IsWhitespace(s[0]) then TrimStart(s[1..]) else s
  }

  /** `str::trim_end`: drops the trailing whitespace and nothing else. */
  function TrimEnd(s: string): (r: string)
    ensures |r| <= |s| && r == s[..|r|]
    ensures forall i | |r| <= i < |s| :: IsWhitespace(s[i])
    ensures r != [] ==> !IsWhitespace(r[|r| - 1])
  {
    if |s| > 0 && IsWhitespace(s[|s| - 1]) then TrimEnd(s[..|s| - 1]) else s
  }

  /** Every character of `t` is whitespace. */
  predicate AllWhitespace(t: string)
  {
    forall k | 0 <= k < |t| :: IsWhitespace(t[k])
  }

  /** `str::trim`: the input without its leading and trailing whitespace. */
  function Trim(s: string): (r: string)
    ensures r != [] ==> !IsWhitespace(r[0]) && !IsWhitespace(r[|r| - 1])
    ensures exists i, j | 0 <= i <= j <= |s| ::
      r == s[i..j] && AllWhitespace(s[..i]) && AllWhitespace(s[j..])
  {
    TrimBounds(s);
    TrimEnd(TrimStart(s))
  }

  /** Trimming both ends keeps a middle slice and drops only whitespace around it. */
  lemma TrimBounds(s: string)
    ensures var r := TrimEnd(TrimStart(s));
      exists i, j | 0 <= i <= j <= |s| ::
        r == s[i..j] && AllWhitespace(s[..i]) && AllWhitespace(s[j..])
  {
    var u := TrimStart(s);
    MiddleSlice(s, u, TrimEnd(u));
  }

  /** A suffix after whitespace, cut before whitespace, is a middle slice between whitespace. */
  lemma MiddleSlice(s: string, u: string, r: string)
    requires |u| <= |s| && u == s[|s| - |u|..]
    requires forall k | 0 <= k < |s| - |u| :: IsWhitespace(s[k])
    requires |r| <= |u| && r == u[..|r|]
    requires forall k | |r| <= k < |u| :: IsWhitespace(u[k])
    ensures exists i, j | 0 <= i <= j <= |s| ::
      r == s[i..j] && AllWhitespace(s[..i]) && AllWhitespace(s[j..])
  {
    var i, j := |s| - |u|, |s| - |u| + |r|;
    assert r == s[i..j];
    forall k | 0 <= k < |s[j..]|
      ensures IsWhitespace(s[j..][k])
    {
      assert s[j..][k] == u[|r| + k];
    }
    forall k | 0 <= k < i
      ensures IsWhitespace(s[..i][k])
    {
      assert s[..i][k] == s[k];
    }
    assert AllWhitespace(s[..i]) && AllWhitespace(s[j..]);
  }

  lemma TrimUnchanged(s: string)
    requires s != [] ==> !IsWhitespace(s[0]) && !IsWhitespace(s[|s| - 1])
    ensures Trim(s) == s
  {
  }

  // ---------------------------------------------------------------------
  // Decimal digits
  // ---------------------------------------------------------------------

  predicate IsDigit(c: char)
  {
    '0' <= c <= '9'
  }

  predicate AllDigits(s: string)
  {
    forall i | 0 <= i < |s| :: IsDigit(s[i])
  }

  function DigitValue(c: char): (d: nat)
    requires IsDigit(c)
    ensures d < 10
  {
    (c as int) - ('0' as int)
  }

  function DigitChar(d: nat): (c: char)
    requires d < 10
    ensures IsDigit(c) && DigitValue(c) == d
  {
    (('0' as int) + d) as char
  }

  /** The value of a string of decimal digits, most significant first. */
  function DigitsValue(s: string): nat
    requires AllDigits(s)
  {
    if s == [] then 0 else 10 * DigitsValue(s[..|s| - 1]) + DigitValue(s[|s| - 1])
  }

  /** The shortest decimal rendering of a natural number. */
  function NatToDecimal(n: nat): (s: string)
    ensures s != [] && AllDigits(s)
    ensures DigitsValue(s) == n
    ensures |s| > 1 ==> s[0] != '0'
  {
    if n < 10 then [DigitChar(n)]
    else
      var s := NatToDecimal(n / 10) + [DigitChar(n % 10)];
      assert s[..|s| - 1] == NatToDecimal(n / 10);
      s
  }

  /** Integer `Display`: a leading '-' for negative numbers, then the digits. */
  function IntToDecimal(n: int): (s: string)
    ensures s != []
  {
    if n < 0 then "-" + NatToDecimal(-n) else NatToDecimal(n)
  }

  /**
   * `str::parse::<i64>()`: an optional '+' or '-', then at least one decimal
   * digit and nothing else; a value outside the 64-bit signed range is an error.
   */
  function ParseI64(s: string): (r: Option<int>)
    ensures r.Some? ==> I64Min <= r.value <= I64Max
    ensures r.Some? ==>
      && s != []
      && var digits := if s[0] == '-' || s[0] == '+' then s[1..] else s;
         digits != [] && AllDigits(digits)
  {
    if s == [] then None
    else
      var negative := s[0] == '-';
      var digits := if s[0] == '-' || s[0] == '+' then s[1..] else s;
      if digits == [] || !AllDigits(digits) then None
      else
        var v: int := if negative then -(DigitsValue(digits) as int) else DigitsValue(digits);
        if I64Min <= v <= I64Max then Some(v) else None
  }

  /** `i64::from_str` reads back exactly what `Display` wrote. */
  lemma ParseI64OfDecimal(n: int)
    requires I64Min <= n <= I64Max
    ensures ParseI64(IntToDecimal(n)) == Some(n)
  {
    var s := IntToDecimal(n);
    if n < 0 {
      assert s[1..] == NatToDecimal(-n);
    } else {
      assert IsDigit(s[0]);
    }
  }

  /** A decimal rendering carries no whitespace to trim. */
  lemma TrimDecimal(n: int)
    ensures Trim(IntToDecimal(n)) == IntToDecimal(n)
  {
    var s := IntToDecimal(n);
    if n >= 0 {
      assert IsDigit(s[0]) && IsDigit(s[|s| - 1]);
    } else {
      var d := NatToDecimal(-n);
      assert s[|s| - 1] == d[|d| - 1];
      assert IsDigit(s[|s| - 1]);
    }
    TrimUnchanged(s);
  }

  // ---------------------------------------------------------------------
  // Substrings and case
  // ---------------------------------------------------------------------

  /** `str::contains` for a string pattern. */
  predicate Contains(s: string, sub: string)
  {
    exists i | 0 <= i <= |s| - |sub| :: OccursAt(s, sub, i)
  }

  predicate OccursAt(s: string, sub: string, i: int)
  {
    0 <= i <= |s| - |sub| && s[i..i + |sub|] == sub
  }

  function AsciiLower(c: char): char
  {
    if 'A' <= c <= 'Z' then ((c as int) + 32) as char else c
  }

  /**
   * `s.to_lowercase() == word` for an all-lower-case ASCII `word`. No
   * character outside 'A'..'Z' lower-cases to an ASCII letter other than
   * 'k' (KELVIN SIGN), so folding only 'A'..'Z' decides the comparison
   * for words without a 'k'.
   */
  predicate LowerEquals(s: string, word: string)
  {
    |s| == |word| && forall i | 0 <= i < |s| :: AsciiLower(s[i]) == word[i]
  }

  // ---------------------------------------------------------------------
  // UTF-8 byte lengths and byte slicing
  // ---------------------------------------------------------------------

  /** Bytes taken by one scalar value in UTF-8. */
  function Utf8Width(c: char): (w: nat)
    ensures 1 <= w <= 4
  {
    if (c as int) < 0x80 then 1
    else if (c as int) < 0x800 then 2
    else if (c as int) < 0x10000 then 3
    else 4
  }

  /** `str::len`: the UTF-8 length in bytes. */
  function ByteLen(s: string): (n: nat)
    ensures n >= |s|
  {
    if s == [] then 0 else Utf8Width(s[0]) + ByteLen(s[1..])
  }

  lemma {:induction false} ByteLenAppend(a: string, b: string)
    ensures ByteLen(a + b) == ByteLen(a) + ByteLen(b)
  {
    if a != [] {
      assert (a + b)[0] == a[0] && (a + b)[1..] == a[1..] + b;
      ByteLenAppend(a[1..], b);
    } else {
      assert a + b == b;
    }
  }

  /** A longer prefix never has fewer bytes, and every extra character adds at least one. */
  lemma ByteLenPrefixGrows(s: string, i: nat, j: nat)
    requires i <= j <= |s|
    ensures ByteLen(s[..i]) + (j - i) <= ByteLen(s[..j])
  {
    assert s[..j] == s[..i] + s[i..j];
    ByteLenAppend(s[..i], s[i..j]);
  }

  /** An ASCII string has one byte per character. */
  lemma {:induction false} ByteLenAscii(s: string)
    requires forall i | 0 <= i < |s| :: (s[i] as int) < 0x80
    ensures ByteLen(s) == |s|
  {
    if s != [] {
      ByteLenAscii(s[1..]);
    }
  }

  /**
   * `&s[..n]`: the prefix that is exactly `n` bytes long, or `None` where
   * byte `n` falls inside a character (or past the end), the cases in which
   * Rust's byte slicing panics.
   */
  function BytePrefix(s: string, n: nat): (r: Option<string>)
    ensures r.Some? ==> r.value <= s && ByteLen(r.value) == n
    ensures r.None? ==> forall k | 0 <= k <= |s| :: ByteLen(s[..k]) != n
  {
    if n == 0 then
      assert s[..0] == [];
      Some([])
    else if s == [] then None
    else if Utf8Width(s[0]) > n then
      assert forall k | 1 <= k <= |s| :: s[..k] == [s[0]] + s[1..k];
      None
    else match BytePrefix(s[1..], n - Utf8Width(s[0]))
      case Some(p) => Some([s[0]] + p)
      case None =>
        assert forall k | 1 <= k <= |s| :: s[..k] == [s[0]] + s[1..][..k - 1];
        None
  }

  /** The longest prefix of `s` that takes at most `n` bytes. */
  function PrefixWithin(s: string, n: nat): (r: string)
    ensures r <= s && ByteLen(r) <= n
    ensures r == s || ByteLen(r) + Utf8Width(s[|r|]) > n
  {
    if s == [] || Utf8Width(s[0]) > n then []
    else
      var p := PrefixWithin(s[1..], n - Utf8Width(s[0]));
      assert ([s[0]] + p)[1..] == p;
      [s[0]] + p
  }

  /** Where the exact byte slice exists, it is the longest prefix within that many bytes. */
  lemma {:induction false} PrefixWithinAgrees(s: string, n: nat)
    requires BytePrefix(s, n).Some?
    ensures PrefixWithin(s, n) == BytePrefix(s, n).value
  {
    if n > 0 {
      assert s != [] && Utf8Width(s[0]) <= n;
      var m := n - Utf8Width(s[0]);
      assert BytePrefix(s, n).value == [s[0]] + BytePrefix(s[1..], m).value;
      PrefixWithinAgrees(s[1..], m);
    } else if s != [] {
      assert Utf8Width(s[0]) > 0;
    }
  }

  /** On ASCII text the longest prefix within `n` bytes is the first `n` characters. */
  lemma PrefixWithinAscii(s: string, n: nat)
    requires forall i | 0 <= i < |s| :: (s[i] as int) < 0x80
    ensures PrefixWithin(s, n) == s[..if |s| < n then |s| else n]
  {
    var r := PrefixWithin(s, n);
    assert forall i | 0 <= i < |r| :: r[i] == s[i];
    ByteLenAscii(r);
    if r != s {
      assert Utf8Width(s[|r|]) == 1;
    }
    assert r == s[..|r|];
  }
}
