/** The string operations of Rust's standard library that the service relies on:
    `char::is_whitespace`, `str::trim`, `str::trim_start_matches` with a string
    pattern, and the decimal rendering of unsigned integers used by `{}`. */
module Text {

  /** Rust's `char::is_whitespace`: the Unicode White_Space property. */
  predicate IsWhitespace(c: char) {
    || ('\t' <= c <= '\r')
    || c == ' '
    || c == '\U{0085}'
    || c == '\U{00A0}'
    || c == '\U{1680}'
    || ('\U{2000}' <= c <= '\U{200A}')
    || c == '\U{2028}'
    || c == '\U{2029}'
    || c == '\U{202F}'
    || c == '\U{205F}'
    || c == '\U{3000}'
  }

  predicate AllWhitespace(s: string) {
    forall i :: 0 <= i < |s| ==> IsWhitespace(s[i])
  }

  /** Neither starts nor ends with whitespace. */
  predicate Trimmed(s: string) {
    s == [] || (!IsWhitespace(s[0]) && !IsWhitespace(s[|s| - 1]))
  }

  predicate StartsWith(s: string, prefix: string) {
    |prefix| <= |s| && s[..|prefix|] == prefix
  }

  /** Rust's `str::trim_start`: drops the leading whitespace, and only that. */
  function TrimStart(s: string): (r: string)
    ensures |r| <= |s| && r == s[|s| - |r|..]
    ensures AllWhitespace(s[..|s| - |r|])
    ensures r == [] || !IsWhitespace(r[0])
    decreases |s|
  {
    if s != [] && IsWhitespace(s[0]) then
      var r := TrimStart(s[1..]);
      assert s[..|s| - |r|] == [s[0]] + s[1..][..|s[1..]| - |r|];
      r
    else
      s
  }

  /** Rust's `str::trim_end`: drops the trailing whitespace, and only that. */
  function TrimEnd(s: string): (r: string)
    ensures |r| <= |s| && r == s[..|r|]
    ensures AllWhitespace(s[|r|..])
    ensures r == [] || !IsWhitespace(r[|r| - 1])
    decreases |s|
  {
    if s != [] && IsWhitespace(s[|s| - 1]) then
      var r := TrimEnd(s[..|s| - 1]);
      assert s[|r|..] == s[..|s| - 1][|r|..] + [s[|s| - 1]];
      r
    else
      s
  }

  /** Rust's `str::trim`. */
  function Trim(s: string): (r: string)
    ensures Trimmed(r)
  {
    TrimEnd(TrimStart(s))
  }

  /** Trim keeps one contiguous slice of its input and drops only whitespace
      around it. */
  lemma TrimIsSlice(s: string) returns (i: nat, j: nat)
    ensures i <= j <= |s| && s[i..j] == Trim(s)
    ensures AllWhitespace(s[..i]) && AllWhitespace(s[j..])
  {
    var t := TrimStart(s);
    var r := TrimEnd(t);
    i := |s| - |t|;
    j := i + |r|;
    assert s[i..j] == t[..|r|];
    assert s[j..] == t[|r|..];
  }

  lemma {:induction false} TrimStartOfPadded(pad: string, t: string)
    requires AllWhitespace(pad)
    requires t == [] || !IsWhitespace(t[0])
    ensures TrimStart(pad + t) == t
    decreases |pad|
  {
    if pad == [] {
      assert pad + t == t;
    } else {
      assert (pad + t)[1..] == pad[1..] + t;
      TrimStartOfPadded(pad[1..], t);
    }
  }

  lemma {:induction false} TrimEndOfPadded(t: string, pad: string)
    requires AllWhitespace(pad)
    requires t == [] || !IsWhitespace(t[|t| - 1])
    ensures TrimEnd(t + pad) == t
    decreases |pad|
  {
    if pad == [] {
      assert t + pad == t;
    } else {
      assert (t + pad)[..|t + pad| - 1] == t + pad[..|pad| - 1];
      TrimEndOfPadded(t, pad[..|pad| - 1]);
    }
  }

  /** Trim is characterised by its result: whatever whitespace surrounds a
      trimmed string, trimming gives that string back. */
  lemma TrimOfPadded(before: string, m: string, after: string)
    requires AllWhitespace(before) && AllWhitespace(after) && Trimmed(m)
    ensures Trim(before + m + after) == m
  {
    if m == [] {
      assert before + m + after == before + after;
      assert AllWhitespace(before + after);
      TrimStartOfPadded(before + after, []);
      assert before + after + [] == before + after;
    } else {
      assert before + m + after == before + (m + after);
      TrimStartOfPadded(before, m + after);
      TrimEndOfPadded(m, after);
    }
  }

  /** `p` is zero or more back-to-back copies of `pattern`. */
  predicate IsRepetitionOf(p: string, pattern: string)
    decreases |p|
  {
    p == [] || (pattern != [] && StartsWith(p, pattern) && IsRepetitionOf(p[|pattern|..], pattern))
  }

  /** Rust's `str::trim_start_matches` with a string pattern: removes every
      leading copy of the pattern (an empty pattern removes nothing). */
  function TrimStartMatches(s: string, pattern: string): (r: string)
    ensures |r| <= |s| && r == s[|s| - |r|..]
    ensures IsRepetitionOf(s[..|s| - |r|], pattern)
    ensures pattern != [] ==> !StartsWith(r, pattern)
    decreases |s|
  {
    if pattern != [] && StartsWith(s, pattern) then
      var rest := s[|pattern|..];
      var r := TrimStartMatches(rest, pattern);
      ghost var removed := s[..|s| - |r|];
      assert removed[..|pattern|] == pattern;
      assert removed[|pattern|..] == rest[..|rest| - |r|];
      r
    else
      s
  }

  /** The decomposition `TrimStartMatches` finds is the only one: any run of
      copies of the pattern followed by a text that does not start with it is
      stripped to exactly that text. */
  lemma {:induction false} TrimStartMatchesOfRun(run: string, r: string, pattern: string)
    requires pattern != []
    requires IsRepetitionOf(run, pattern)
    requires !StartsWith(r, pattern)
    ensures TrimStartMatches(run + r, pattern) == r
    decreases |run|
  {
    if run == [] {
      assert run + r == r;
    } else {
      assert (run + r)[..|pattern|] == run[..|pattern|];
      assert (run + r)[|pattern|..] == run[|pattern|..] + r;
      TrimStartMatchesOfRun(run[|pattern|..], r, pattern);
    }
  }

  predicate IsDigit(c: char) {
    '0' <= c <= '9'
  }

  predicate AllDigits(s: string) {
    forall i :: 0 <= i < |s| ==> IsDigit(s[i])
  }

  function DigitChar(d: nat): (c: char)
    requires d < 10
  {
    ('0' as int + d) as char
  }

  function DigitValue(c: char): nat
    requires IsDigit(c)
  {
    c as int - '0' as int
  }

  /** The value of a string of decimal digits. */
  function ParseDecimal(s: string): nat
    requires AllDigits(s)
    decreases |s|
  {
    if s == [] then 0 else 10 * ParseDecimal(s[..|s| - 1]) + DigitValue(s[|s| - 1])
  }

  /** `format!("{}", n)` for an unsigned integer: the shortest decimal
      numeral, read back by `ParseDecimal`. */
  function DecimalString(n: nat): (s: string)
    ensures |s| >= 1 && AllDigits(s)
    ensures s[0] == '0' <==> n == 0
    ensures s[0] == '0' ==> s == "0"
    ensures ParseDecimal(s) == n
    decreases n
  {
    if n < 10 then
      [DigitChar(n)]
    else
      var p := DecimalString(n / 10);
      var s := p + [DigitChar(n % 10)];
      assert s[..|s| - 1] == p;
      s
  }

  /** Length of the longest all-digit prefix. */
  function DigitPrefixLength(s: string): (k: nat)
    ensures k <= |s| && AllDigits(s[..k])
    ensures k < |s| ==> !IsDigit(s[k])
    decreases |s|
  {
    if s != [] && IsDigit(s[0]) then
      var k := 1 + DigitPrefixLength(s[1..]);
      assert s[..k] == [s[0]] + s[1..][..k - 1];
      k
    else
      0
  }

  lemma {:induction false} DigitPrefixLengthOf(digits: string, t: string)
    requires AllDigits(digits)
    requires t == [] || !IsDigit(t[0])
    ensures DigitPrefixLength(digits + t) == |digits|
    decreases |digits|
  {
    if digits == [] {
      assert digits + t == t;
    } else {
      assert (digits + t)[1..] == digits[1..] + t;
      DigitPrefixLengthOf(digits[1..], t);
    }
  }
}
