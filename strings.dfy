/**
 * The .NET string operations the modelled editor and runtime code calls,
 * on strings as sequences of UTF-16 code units (`char`). Comparisons are
 * ordinal.
 */
module Strings {
  import W = Wrappers

  /** Char.IsWhiteSpace: the Unicode White_Space characters. */
  predicate IsWhiteSpace(c: char)
  {
    || ('\t' <= c <= '\r') || c == ' ' || c == '\U{85}' || c == '\U{A0}' || c == '\U{1680}'
    || ('\U{2000}' <= c <= '\U{200A}') || c == '\U{2028}' || c == '\U{2029}' || c == '\U{202F}'
    || c == '\U{205F}' || c == '\U{3000}'
  }

  /** String.IsNullOrWhiteSpace; `None` is a null string. */
  predicate IsNullOrWhiteSpace(s: W.Option<string>)
  {
    s.None? || forall k :: 0 <= k < |s.value| ==> IsWhiteSpace(s.value[k])
  }

  predicate StartsWith(s: string, prefix: string)
  {
    |prefix| <= |s| && s[..|prefix|] == prefix
  }

  predicate EndsWith(s: string, suffix: string)
  {
    |suffix| <= |s| && s[|s| - |suffix|..] == suffix
  }

  /** Whether `pat` occurs in `s` at position `k`. */
  predicate OccursAt(s: string, pat: string, k: int)
  {
    0 <= k && k + |pat| <= |s| && s[k..k + |pat|] == pat
  }

  /** String.Contains. */
  predicate Contains(s: string, pat: string)
  {
    exists k :: 0 <= k <= |s| - |pat| && OccursAt(s, pat, k)
  }

  /** Containing a one-character string is containing that character. */
  lemma ContainsChar(s: string, c: char)
    ensures Contains(s, [c]) <==> c in s
  {
    if c in s {
      var k :| 0 <= k < |s| && s[k] == c;
      assert OccursAt(s, [c], k);
    }
    if Contains(s, [c]) {
      var k :| 0 <= k <= |s| - 1 && OccursAt(s, [c], k);
      assert s[k] == s[k..k + 1][0];
    }
  }

  /** String.IndexOf for one character: its first position, or -1. */
  function IndexOf(s: string, c: char): (r: int)
    ensures -1 <= r < |s|
    ensures r == -1 <==> c !in s
    ensures r >= 0 ==> s[r] == c && c !in s[..r]
  {
    if |s| == 0 then -1
    else if s[0] == c then 0
    else
      var r := IndexOf(s[1..], c);
      if r < 0 then -1
      else
        assert s[..r + 1] == [s[0]] + s[1..][..r];
        r + 1
  }

  /** `s` without its leading white space. */
  function TrimStart(s: string): (r: string)
    ensures |r| <= |s| && r == s[|s| - |r|..]
    ensures forall k :: 0 <= k < |s| - |r| ==> IsWhiteSpace(s[k])
    ensures r == [] || !IsWhiteSpace(r[0])
    decreases |s|
  {
    if |s| > 0 && IsWhiteSpace(s[0]) then TrimStart(s[1..]) else s
  }

  /** `s` without its trailing white space. */
  function TrimEnd(s: string): (r: string)
    ensures |r| <= |s| && r == s[..|r|]
    ensures forall k :: |r| <= k < |s| ==> IsWhiteSpace(s[k])
    ensures r == [] || !IsWhiteSpace(r[|r| - 1])
    decreases |s|
  {
    if |s| > 0 && IsWhiteSpace(s[|s| - 1]) then TrimEnd(s[..|s| - 1]) else s
  }

  /** String.Trim(). */
  function Trim(s: string): (r: string)
    ensures |r| <= |s|
    ensures r == [] || (!IsWhiteSpace(r[0]) && !IsWhiteSpace(r[|r| - 1]))
  {
    TrimEnd(TrimStart(s))
  }

  /** Trim leaves nothing exactly when the string is all white space. */
  lemma TrimEmptyIffWhiteSpace(s: string)
    ensures Trim(s) == [] <==> IsNullOrWhiteSpace(W.Some(s))
  {
    var t := TrimStart(s);
    if Trim(s) == [] {
      assert t == [];
    }
  }

  /** A string that neither starts nor ends with white space is its own trim. */
  lemma TrimUnpadded(s: string)
    requires s == [] || (!IsWhiteSpace(s[0]) && !IsWhiteSpace(s[|s| - 1]))
    ensures Trim(s) == s
  {
    assert TrimStart(s) == s;
  }

  /** Trimming twice is trimming once. */
  lemma TrimIdempotent(s: string)
    ensures Trim(Trim(s)) == Trim(s)
  {
    TrimUnpadded(Trim(s));
  }

  /** A leading white-space character before a non-blank start is trimmed away. */
  lemma TrimStartSkips(c: char, y: string)
    requires IsWhiteSpace(c) && |y| > 0 && !IsWhiteSpace(y[0])
    ensures TrimStart([c] + y) == y
  {
    assert ([c] + y)[1..] == y;
  }

  /** A trailing white-space character after a non-blank end is trimmed away. */
  lemma TrimEndSkips(y: string, d: char)
    requires IsWhiteSpace(d) && |y| > 0 && !IsWhiteSpace(y[|y| - 1])
    ensures TrimEnd(y + [d]) == y
  {
    assert (y + [d])[..|y|] == y;
  }

  /** One white-space character on each side of an unpadded string is trimmed away. */
  lemma TrimSurrounded(c: char, x: string, d: char)
    requires IsWhiteSpace(c) && IsWhiteSpace(d)
    requires |x| > 0 && !IsWhiteSpace(x[0]) && !IsWhiteSpace(x[|x| - 1])
    ensures Trim([c] + x + [d]) == x
  {
    assert [c] + x + [d] == [c] + (x + [d]);
    TrimStartSkips(c, x + [d]);
    TrimEndSkips(x, d);
  }

  /** String.Split(sep): the pieces between separators, empty ones included. */
  function Split(s: string, sep: char): (parts: seq<string>)
    ensures |parts| >= 1
    ensures forall i :: 0 <= i < |parts| ==> sep !in parts[i]
    decreases |s|
  {
    if |s| == 0 then [[]]
    else
      var rest := Split(s[1..], sep);
      if s[0] == sep then [[]] + rest else [[s[0]] + rest[0]] + rest[1..]
  }

  /** String.Join(sep, parts). */
  function Join(parts: seq<string>, sep: char): string
    decreases |parts|
  {
    if |parts| == 0 then []
    else if |parts| == 1 then parts[0]
    else parts[0] + [sep] + Join(parts[1..], sep)
  }

  /** Joining the pieces of a split gives back the string. */
  lemma {:induction false} JoinSplit(s: string, sep: char)
    ensures Join(Split(s, sep), sep) == s
    decreases |s|
  {
    if |s| > 0 {
      JoinSplit(s[1..], sep);
      var rest := Split(s[1..], sep);
      if s[0] != sep && |rest| > 1 {
        assert Join(rest, sep) == rest[0] + [sep] + Join(rest[1..], sep);
        assert [[s[0]] + rest[0]] + rest[1..] == [[s[0]] + rest[0]] + [rest[1]] + rest[2..];
      }
      assert s == [s[0]] + s[1..];
    }
  }

  lemma {:induction false} SplitNoSeparator(a: string, sep: char)
    requires sep !in a
    ensures Split(a, sep) == [a]
    decreases |a|
  {
    if |a| > 0 {
      SplitNoSeparator(a[1..], sep);
      assert a == [a[0]] + a[1..];
    }
  }

  /** A separator splits the string in two, when the part before it has none. */
  lemma {:induction false} SplitAtSeparator(a: string, b: string, sep: char)
    requires sep !in a
    ensures Split(a + [sep] + b, sep) == [a] + Split(b, sep)
    decreases |a|
  {
    var s := a + [sep] + b;
    if |a| == 0 {
      assert s[1..] == b;
    } else {
      assert s[1..] == a[1..] + [sep] + b;
      SplitAtSeparator(a[1..], b, sep);
      assert [a[0]] + a[1..] == a;
    }
  }

  /** Splitting pieces that contain no separator, once joined, gives them back. */
  lemma {:induction false} SplitJoin(parts: seq<string>, sep: char)
    requires |parts| >= 1
    requires forall i :: 0 <= i < |parts| ==> sep !in parts[i]
    ensures Split(Join(parts, sep), sep) == parts
    decreases |parts|
  {
    if |parts| == 1 {
      SplitNoSeparator(parts[0], sep);
    } else {
      SplitJoin(parts[1..], sep);
      SplitAtSeparator(parts[0], Join(parts[1..], sep), sep);
      assert [parts[0]] + parts[1..] == parts;
    }
  }

  /**
   * String.Replace(pat, rep): every occurrence of `pat`, found left to right
   * without overlap, replaced by `rep`.
   */
  function Replace(s: string, pat: string, rep: string): (r: string)
    requires |pat| > 0
    decreases |s|
  {
    if |s| < |pat| then s
    else if s[..|pat|] == pat then rep + Replace(s[|pat|..], pat, rep)
    else [s[0]] + Replace(s[1..], pat, rep)
  }

  /** A string without an occurrence of `pat` is not changed. */
  lemma {:induction false} ReplaceAbsent(s: string, pat: string, rep: string)
    requires |pat| > 0 && !Contains(s, pat)
    ensures Replace(s, pat, rep) == s
    decreases |s|
  {
    if |s| >= |pat| {
      assert !OccursAt(s, pat, 0);
      forall k | OccursAt(s[1..], pat, k)
        ensures false
      {
        assert s[1..][k..k + |pat|] == s[k + 1..k + 1 + |pat|];
        assert OccursAt(s, pat, k + 1);
      }
      ReplaceAbsent(s[1..], pat, rep);
      assert s == [s[0]] + s[1..];
    }
  }

  /** A string that does not hold the last character of `pat` is not changed. */
  lemma ReplaceWithoutLastChar(s: string, pat: string, rep: string)
    requires |pat| > 0 && pat[|pat| - 1] !in s
    ensures Replace(s, pat, rep) == s
  {
    forall k | 0 <= k <= |s| - |pat|
      ensures !OccursAt(s, pat, k)
    {
      assert s[k + |pat| - 1] != pat[|pat| - 1];
      assert s[k..k + |pat|][|pat| - 1] == s[k + |pat| - 1];
    }
    ReplaceAbsent(s, pat, rep);
  }

  /**
   * The last character of `pat` marks where an occurrence ends. When `a`
   * has no marker and `b` has none within the first |pat| - 1 characters,
   * no occurrence starts inside `a`: the scan leaves `a` as it is.
   */
  lemma {:induction false} ReplaceSkipsUnmarked(a: string, b: string, pat: string, rep: string)
    requires |pat| > 0 && pat[|pat| - 1] !in a
    requires forall j :: 0 <= j < |pat| - 1 && j < |b| ==> b[j] != pat[|pat| - 1]
    ensures Replace(a + b, pat, rep) == a + Replace(b, pat, rep)
    decreases |a|
  {
    var s := a + b;
    if |a| > 0 {
      if |s| >= |pat| {
        assert s[..|pat|] != pat by {
          assert s[..|pat|][|pat| - 1] == s[|pat| - 1];
          if |pat| - 1 < |a| {
            assert s[|pat| - 1] == a[|pat| - 1];
          } else {
            assert s[|pat| - 1] == b[|pat| - 1 - |a|];
          }
        }
        assert s[1..] == a[1..] + b;
        ReplaceSkipsUnmarked(a[1..], b, pat, rep);
        assert Replace(s, pat, rep) == [s[0]] + Replace(s[1..], pat, rep);
        assert [a[0]] + a[1..] == a;
      } else {
        assert Replace(b, pat, rep) == b;
      }
    } else {
      assert s == b;
    }
  }

  /**
   * An occurrence of `pat`, whose marker appears only at its end, preceded by
   * text without a marker, is replaced, and the scan goes on after it.
   */
  lemma ReplaceOccurrence(a: string, pat: string, b: string, rep: string)
    requires |pat| > 0 && pat[|pat| - 1] !in a && pat[|pat| - 1] !in pat[..|pat| - 1]
    ensures Replace(a + pat + b, pat, rep) == a + rep + Replace(b, pat, rep)
  {
    var m := pat[|pat| - 1];
    forall j | 0 <= j < |pat| - 1 && j < |pat + b|
      ensures (pat + b)[j] != m
    {
      assert (pat + b)[j] == pat[..|pat| - 1][j];
    }
    ReplaceSkipsUnmarked(a, pat + b, pat, rep);
    assert a + pat + b == a + (pat + b);
    var t := pat + b;
    assert t[..|pat|] == pat && t[|pat|..] == b;
  }

  /** Replacing a character by nothing removes every copy of it and keeps everything else. */
  lemma {:induction false} RemoveCharMeaning(s: string, c: char)
    ensures c !in Replace(s, [c], [])
    ensures forall d :: d != c ==> multiset(Replace(s, [c], []))[d] == multiset(s)[d]
    decreases |s|
  {
    if |s| >= 1 {
      RemoveCharMeaning(s[1..], c);
      assert s == [s[0]] + s[1..];
      assert s[..1] == [s[0]];
    }
  }

  /** The errors Int32.Parse throws. */
  datatype ParseError = FormatException | OverflowException

  const MinInt32: int := -0x8000_0000
  const MaxInt32: int := 0x7FFF_FFFF

  predicate IsDigit(c: char)
  {
    '0' <= c <= '9'
  }

  predicate AllDigits(s: string)
  {
    forall k :: 0 <= k < |s| ==> IsDigit(s[k])
  }

  /** The white space number parsing skips: tab to carriage return, and space. */
  predicate IsNumberWhite(c: char)
  {
    ('\t' <= c <= '\r') || c == ' '
  }

  /** The decimal value of a string of digits. */
  function DigitsValue(s: string): (v: nat)
    requires AllDigits(s)
    decreases |s|
  {
    if |s| == 0 then 0 else DigitsValue(s[..|s| - 1]) * 10 + (s[|s| - 1] - '0') as int
  }

  /** `s` without leading and trailing number white space. */
  function StripNumberWhite(s: string): (r: string)
    ensures |r| <= |s|
    ensures r == [] || (!IsNumberWhite(r[0]) && !IsNumberWhite(r[|r| - 1]))
    ensures forall k :: 0 <= k < |r| ==> r[k] in s
    decreases |s|
  {
    if |s| > 0 && IsNumberWhite(s[0]) then StripNumberWhite(s[1..])
    else if |s| > 0 && IsNumberWhite(s[|s| - 1]) then StripNumberWhite(s[..|s| - 1])
    else s
  }

  /**
   * Convert.ToInt32(string) on a non-null string, which is Int32.Parse with
   * NumberStyles.Integer: optional surrounding white space, an optional
   * sign, and at least one digit.
   */
  function ParseInt32(s: string): (r: W.Result<int, ParseError>)
    ensures r.Success? ==> MinInt32 <= r.value <= MaxInt32
  {
    var t := StripNumberWhite(s);
    var digits := if |t| > 0 && (t[0] == '-' || t[0] == '+') then t[1..] else t;
    if |digits| == 0 || !AllDigits(digits) then W.Failure(FormatException)
    else
      var magnitude: int := DigitsValue(digits);
      var v := if t[0] == '-' then -magnitude else magnitude;
      if v < MinInt32 || MaxInt32 < v then W.Failure(OverflowException) else W.Success(v)
  }

  /** The decimal digits of `n`, without leading zeros. */
  function DigitsOf(n: nat): (s: string)
    ensures |s| > 0 && AllDigits(s)
    decreases n
  {
    if n < 10 then [('0' as int + n) as char] else DigitsOf(n / 10) + [('0' as int + n % 10) as char]
  }

  /** Int32.ToString() in an invariant culture. */
  function Int32ToString(n: int): (s: string)
  {
    if n < 0 then "-" + DigitsOf(-n) else DigitsOf(n)
  }

  lemma {:induction false} DigitsValueOfDigits(n: nat)
    ensures DigitsValue(DigitsOf(n)) == n
    decreases n
  {
    if n >= 10 {
      DigitsValueOfDigits(n / 10);
      var s := DigitsOf(n);
      assert s[..|s| - 1] == DigitsOf(n / 10);
    }
  }

  /** The decimal text of an integer has no surrounding white space to strip. */
  lemma Int32TextIsStripped(n: int)
    ensures StripNumberWhite(Int32ToString(n)) == Int32ToString(n)
  {
    var s := Int32ToString(n);
    var d := DigitsOf(if n < 0 then -n else n);
    assert IsDigit(d[0]) && IsDigit(d[|d| - 1]);
    assert s[|s| - 1] == d[|d| - 1];
    assert s[0] == if n < 0 then '-' else d[0];
  }

  /** Every 32-bit integer is read back from its decimal text. */
  lemma ParseInt32RoundTrip(n: int)
    requires MinInt32 <= n <= MaxInt32
    ensures ParseInt32(Int32ToString(n)) == W.Success(n)
  {
    var s := Int32ToString(n);
    Int32TextIsStripped(n);
    var magnitude: nat := if n < 0 then -n else n;
    var d := DigitsOf(magnitude);
    DigitsValueOfDigits(magnitude);
    if n < 0 {
      assert s[1..] == d;
    } else {
      assert IsDigit(s[0]);
    }
  }

  /** A text with no digit in it is a format error. */
  lemma ParseInt32NeedsDigits(s: string)
    requires forall k :: 0 <= k < |s| ==> !IsDigit(s[k])
    ensures ParseInt32(s) == W.Failure(FormatException)
  {
    var t := StripNumberWhite(s);
    var digits := if |t| > 0 && (t[0] == '-' || t[0] == '+') then t[1..] else t;
    if |digits| > 0 {
      assert digits[0] in s;
      assert !IsDigit(digits[0]);
    }
  }
}
