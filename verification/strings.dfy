/** The JavaScript string operations the source relies on (`trim`, `toLowerCase`,
    `indexOf`, `split`, `join`, `startsWith`, `endsWith`, number formatting),
    written out over `seq<char>`. */
module Strings {
  import opened Wrappers

  /** JavaScript's WhiteSpace and LineTerminator code points: exactly what
      `String.prototype.trim` removes and what the regular-expression class `\s` matches. */
  predicate IsSpace(c: char) {
    || c == ' ' || c == '\t' || c == '\n' || c == '\U{000B}' || c == '\U{000C}' || c == '\r'
    || c == '\U{00A0}' || c == '\U{1680}' || ('\U{2000}' <= c <= '\U{200A}')
    || c == '\U{2028}' || c == '\U{2029}' || c == '\U{202F}' || c == '\U{205F}'
    || c == '\U{3000}' || c == '\U{FEFF}'
  }

  /** The code points the regular-expression `.` refuses to match. */
  predicate IsLineTerminator(c: char) {
    c == '\n' || c == '\r' || c == '\U{2028}' || c == '\U{2029}'
  }

  lemma LineTerminatorIsSpace(c: char)
    ensures IsLineTerminator(c) ==> IsSpace(c)
  {
  }

  predicate AllSpace(s: string) {
    forall i :: 0 <= i < |s| ==> IsSpace(s[i])
  }

  /** Number of leading whitespace characters. */
  function LeadingSpace(s: string): (n: nat)
    ensures n <= |s|
    ensures AllSpace(s[..n])
    ensures n < |s| ==> !IsSpace(s[n])
    decreases |s|
  {
    if |s| > 0 && IsSpace(s[0]) then
      var k := LeadingSpace(s[1..]);
      assert s[..1 + k] == [s[0]] + s[1..][..k];
      1 + k
    else 0
  }

  /** Number of trailing whitespace characters. */
  function TrailingSpace(s: string): (n: nat)
    ensures n <= |s|
    ensures AllSpace(s[|s| - n..])
    ensures n < |s| ==> !IsSpace(s[|s| - n - 1])
    decreases |s|
  {
    if |s| > 0 && IsSpace(s[|s| - 1]) then
      var t := s[..|s| - 1];
      var k := TrailingSpace(t);
      assert s[|s| - 1 - k..] == t[|t| - k..] + [s[|s| - 1]];
      1 + k
    else 0
  }

  function TrimStart(s: string): string {
    s[LeadingSpace(s)..]
  }

  function TrimEnd(s: string): string {
    s[..|s| - TrailingSpace(s)]
  }

  /** `String.prototype.trim`: whitespace is cut away on either side, so the
      result has none at its ends (see `TrimSlice` for what is kept). */
  function Trim(s: string): (r: string)
    ensures |r| <= |s|
    ensures |r| > 0 ==> !IsSpace(r[0]) && !IsSpace(r[|r| - 1])
  {
    var a := LeadingSpace(s);
    var t := s[a..];
    var b := TrailingSpace(t);
    assert |t| - b < |t| ==> !IsSpace(t[|t| - b - 1]);
    TrimEnd(TrimStart(s))
  }

  /** The trim is a slice of the input with only whitespace cut away. */
  lemma TrimSlice(s: string) returns (i: nat, j: nat)
    ensures i <= j <= |s| && Trim(s) == s[i..j]
    ensures AllSpace(s[..i]) && AllSpace(s[j..])
  {
    i := LeadingSpace(s);
    var t := s[i..];
    var b := TrailingSpace(t);
    j := |s| - b;
    assert Trim(s) == t[..|t| - b] == s[i..j];
    assert AllSpace(t[|t| - b..]);
    assert t[|t| - b..] == s[j..];
  }

  /** A string with no whitespace at either end is its own trim. */
  lemma TrimNoop(s: string)
    requires |s| > 0 ==> !IsSpace(s[0]) && !IsSpace(s[|s| - 1])
    ensures Trim(s) == s
  {
    assert LeadingSpace(s) == 0;
    assert TrailingSpace(s) == 0;
  }

  lemma AllSpaceTrim(s: string)
    requires AllSpace(s)
    ensures Trim(s) == ""
  {
    assert LeadingSpace(s) == |s|;
  }

  lemma {:induction false} TrimStartSpacePrefix(w: string, s: string)
    requires AllSpace(w)
    ensures TrimStart(w + s) == TrimStart(s)
    decreases |w|
  {
    if |w| > 0 {
      assert (w + s)[1..] == w[1..] + s;
      TrimStartSpacePrefix(w[1..], s);
    } else {
      assert w + s == s;
    }
  }

  lemma {:induction false} TrimEndSpaceSuffix(s: string, w: string)
    requires AllSpace(w)
    ensures TrimEnd(s + w) == TrimEnd(s)
    decreases |w|
  {
    if |w| > 0 {
      var w' := w[..|w| - 1];
      assert (s + w)[..|s + w| - 1] == s + w';
      TrimEndSpaceSuffix(s, w');
    } else {
      assert s + w == s;
    }
  }

  /** Trim ignores whitespace added in front. */
  lemma TrimSpacePrefix(w: string, s: string)
    requires AllSpace(w)
    ensures Trim(w + s) == Trim(s)
  {
    TrimStartSpacePrefix(w, s);
  }

  lemma {:induction false} LeadingSpaceConcat(s: string, w: string)
    requires LeadingSpace(s) < |s|
    ensures LeadingSpace(s + w) == LeadingSpace(s)
    decreases |s|
  {
    if IsSpace(s[0]) {
      assert (s + w)[1..] == s[1..] + w;
      LeadingSpaceConcat(s[1..], w);
    }
  }

  /** Trim ignores whitespace added behind. */
  lemma TrimSpaceSuffix(s: string, w: string)
    requires AllSpace(w)
    ensures Trim(s + w) == Trim(s)
  {
    var a := LeadingSpace(s);
    if a == |s| {
      assert AllSpace(s);
      assert AllSpace(s + w);
      AllSpaceTrim(s);
      AllSpaceTrim(s + w);
    } else {
      assert !IsSpace((s + w)[a]);
      LeadingSpaceConcat(s, w);
      assert TrimStart(s + w) == TrimStart(s) + w;
      TrimEndSpaceSuffix(TrimStart(s), w);
    }
  }

  /** Cutting trailing whitespace first does not change the trim. */
  lemma TrimOfTrimEnd(s: string)
    ensures Trim(TrimEnd(s)) == Trim(s)
  {
    var n := |s| - TrailingSpace(s);
    assert s == s[..n] + s[n..];
    TrimSpaceSuffix(s[..n], s[n..]);
  }

  /** Trailing whitespace of `h + s` is that of `s`, when `s` is not all whitespace. */
  lemma {:induction false} TrimEndConcat(h: string, s: string)
    requires !AllSpace(s)
    ensures TrimEnd(h + s) == h + TrimEnd(s)
    decreases |s|
  {
    if IsSpace(s[|s| - 1]) {
      var s' := s[..|s| - 1];
      assert !AllSpace(s') by {
        var k :| 0 <= k < |s| && !IsSpace(s[k]);
        assert k < |s| - 1;
        assert s'[k] == s[k];
      }
      assert (h + s)[..|h + s| - 1] == h + s';
      TrimEndConcat(h, s');
    } else {
      assert TrailingSpace(h + s) == 0;
      assert TrailingSpace(s) == 0;
    }
  }

  lemma TrimEndAllSpace(h: string, s: string)
    requires AllSpace(s)
    ensures TrimEnd(h + s) == TrimEnd(h)
  {
    TrimEndSpaceSuffix(h, s);
  }

  /** A string starting with a non-space is trimmed on the right only. */
  lemma TrimNonSpaceHead(s: string)
    requires |s| > 0 && !IsSpace(s[0])
    ensures Trim(s) == TrimEnd(s)
  {
    assert LeadingSpace(s) == 0;
  }

  /** Trimming text that opens with a fixed word without outer whitespace
      keeps the word and trims what follows it. */
  lemma TrimAfterFixed(p: string, s: string) returns (rest: string)
    requires |p| > 0 && !IsSpace(p[0]) && !IsSpace(p[|p| - 1])
    ensures Trim(p + s) == p + rest && Trim(rest) == Trim(s)
  {
    TrimNonSpaceHead(p + s);
    if AllSpace(s) {
      TrimEndNonSpaceLast(p, s);
      rest := "";
      AllSpaceTrim(s);
      assert p + rest == p;
    } else {
      TrimEndConcat(p, s);
      rest := TrimEnd(s);
      TrimOfTrimEnd(s);
    }
  }

  lemma TrimEndNonSpaceLast(p: string, s: string)
    requires |p| > 0 && !IsSpace(p[|p| - 1]) && AllSpace(s)
    ensures TrimEnd(p + s) == p
  {
    TrimEndAllSpace(p, s);
    assert TrailingSpace(p) == 0;
  }

  /** `toLowerCase`, for the ASCII letters. */
  function LowerChar(c: char): char {
    if 'A' <= c <= 'Z' then (c as int + 32) as char else c
  }

  function ToLower(s: string): (r: string)
    ensures |r| == |s|
    ensures forall i :: 0 <= i < |s| ==> r[i] == LowerChar(s[i])
  {
    seq(|s|, i requires 0 <= i < |s| => LowerChar(s[i]))
  }

  lemma ToLowerAppend(a: string, b: string)
    ensures ToLower(a + b) == ToLower(a) + ToLower(b)
  {
  }

  /** No upper-case ASCII letter anywhere in `s`. */
  predicate NoUpper(s: string) {
    forall i :: 0 <= i < |s| ==> !('A' <= s[i] <= 'Z')
  }

  /** Lowercasing a string with no upper-case ASCII letter changes nothing. */
  lemma ToLowerNoop(s: string)
    requires NoUpper(s)
    ensures ToLower(s) == s
  {
  }

  lemma ToLowerNoUpper(s: string)
    ensures NoUpper(ToLower(s))
  {
  }

  lemma NoUpperAppend(a: string, b: string)
    requires NoUpper(a) && NoUpper(b)
    ensures NoUpper(a + b)
  {
    forall i | 0 <= i < |a + b|
      ensures !('A' <= (a + b)[i] <= 'Z')
    {
      if i >= |a| {
        assert (a + b)[i] == b[i - |a|];
      }
    }
  }

  predicate StartsWith(s: string, prefix: string) {
    |prefix| <= |s| && s[..|prefix|] == prefix
  }

  predicate EndsWith(s: string, suffix: string) {
    |suffix| <= |s| && s[|s| - |suffix|..] == suffix
  }

  /** `pat` occurs in `s` starting at index `k`. */
  predicate MatchAt(s: string, pat: string, k: nat) {
    k + |pat| <= |s| && s[k..k + |pat|] == pat
  }

  /** `s.indexOf(pat, from)`: the first match at or after `from`. */
  function IndexOf(s: string, pat: string, from: nat): (r: Option<nat>)
    ensures r.Some? ==> from <= r.value && MatchAt(s, pat, r.value)
    ensures r.Some? ==> forall k :: from <= k < r.value ==> !MatchAt(s, pat, k)
    ensures r.None? ==> forall k :: from <= k ==> !MatchAt(s, pat, k)
    decreases |s| - from
  {
    if from + |pat| > |s| then None
    else if s[from..from + |pat|] == pat then Some(from)
    else IndexOf(s, pat, from + 1)
  }

  /** A match at `k` with none between `from` and `k` is what `indexOf` finds. */
  lemma IndexOfAt(s: string, pat: string, from: nat, k: nat)
    requires from <= k && MatchAt(s, pat, k)
    requires forall j :: from <= j < k ==> !MatchAt(s, pat, j)
    ensures IndexOf(s, pat, from) == Some(k)
  {
  }

  /** `s.includes(pat)`. */
  predicate Contains(s: string, pat: string) {
    IndexOf(s, pat, 0).Some?
  }

  /** The first index of `c` in `s`. */
  function IndexOfChar(s: string, c: char): (r: Option<nat>)
    ensures r.Some? ==> r.value < |s| && s[r.value] == c && c !in s[..r.value]
    ensures r.None? ==> c !in s
    decreases |s|
  {
    if |s| == 0 then None
    else if s[0] == c then Some(0)
    else
      match IndexOfChar(s[1..], c)
      case None => None
      case Some(i) =>
        assert s[..i + 1] == [s[0]] + s[1..][..i];
        Some(i + 1)
  }

  /** `parts.join(sep)`. */
  function Join(parts: seq<string>, sep: string): string
    decreases |parts|
  {
    if |parts| == 0 then ""
    else if |parts| == 1 then parts[0]
    else parts[0] + sep + Join(parts[1..], sep)
  }

  /** `s.split(sep)` for a one-character separator: pieces free of the separator
      that join back to the input. */
  function Split(s: string, sep: char): (parts: seq<string>)
    ensures |parts| >= 1
    ensures forall i :: 0 <= i < |parts| ==> sep !in parts[i]
    ensures Join(parts, [sep]) == s
    decreases |s|
  {
    match IndexOfChar(s, sep)
    case None => [s]
    case Some(i) =>
      var rest := Split(s[i + 1..], sep);
      assert s == s[..i] + [sep] + s[i + 1..];
      assert ([s[..i]] + rest)[1..] == rest;
      [s[..i]] + rest
  }

  /** Two separator-free pieces joined by the separator split back into them. */
  lemma SplitTwo(x: string, y: string, sep: char)
    requires sep !in x && sep !in y
    ensures Split(x + [sep] + y, sep) == [x, y]
  {
    var s := x + [sep] + y;
    assert s[|x|] == sep;
    assert s[..|x|] == x;
    assert IndexOfChar(s, sep) == Some(|x|);
    assert s[|x| + 1..] == y;
    assert IndexOfChar(y, sep).None?;
  }

  /** Where the text after the last `sep` starts: just past that separator,
      or 0 when there is none. */
  function LastSepEnd(s: string, sep: char): (k: nat)
    ensures k <= |s|
    ensures sep !in s[k..]
    ensures k > 0 ==> s[k - 1] == sep
    decreases |s|
  {
    if |s| == 0 then 0
    else if s[|s| - 1] == sep then |s|
    else
      var t := s[..|s| - 1];
      var k := LastSepEnd(t, sep);
      assert s[k..] == t[k..] + [s[|s| - 1]];
      k
  }

  /** The text after the last `sep` (all of `s` when there is none):
      `s.split(sep)` followed by taking the last piece. */
  function LastSegment(s: string, sep: char): (r: string)
    ensures sep !in r
    ensures EndsWith(s, r)
    ensures |r| < |s| ==> s[|s| - |r| - 1] == sep
    ensures sep !in s ==> r == s
  {
    var k := LastSepEnd(s, sep);
    assert |s[k..]| == |s| - k;
    assert k > 0 ==> sep in s by {
      if k > 0 {
        assert s[k - 1] == sep;
      }
    }
    s[k..]
  }

  /** The last segment is the suffix that follows a separator (or starts the
      text) and holds no separator itself. */
  lemma LastSegmentUnique(s: string, sep: char, k: nat)
    requires k <= |s| && sep !in s[k..]
    requires k > 0 ==> s[k - 1] == sep
    ensures LastSegment(s, sep) == s[k..]
  {
    var k' := LastSepEnd(s, sep);
    assert k == k';
  }

  lemma {:induction false} LastSegmentIsLastPiece(s: string, sep: char)
    ensures LastSegment(s, sep) == Split(s, sep)[|Split(s, sep)| - 1]
    decreases |s|
  {
    match IndexOfChar(s, sep)
    case None =>
      assert Split(s, sep) == [s];
    case Some(i) =>
      var rest := Split(s[i + 1..], sep);
      assert Split(s, sep) == [s[..i]] + rest;
      LastSegmentIsLastPiece(s[i + 1..], sep);
      LastSegmentPastSep(s, sep, i);
      LastOfCons(s[..i], rest);
  }

  /** Text up to a separator does not affect the last segment. */
  lemma LastSegmentPastSep(s: string, sep: char, i: nat)
    requires i < |s| && s[i] == sep
    ensures LastSegment(s, sep) == LastSegment(s[i + 1..], sep)
  {
    var t := s[i + 1..];
    var k := LastSepEnd(t, sep);
    assert s[i + 1 + k..] == t[k..];
    assert s[i + k] == sep by {
      if k > 0 {
        assert t[k - 1] == s[i + k];
      }
    }
    LastSegmentUnique(s, sep, i + 1 + k);
  }

  lemma LastOfCons<T>(x: T, rest: seq<T>)
    requires |rest| > 0
    ensures ([x] + rest)[|[x] + rest| - 1] == rest[|rest| - 1]
  {
  }

  /** A string with the separator only at `prefix`'s end keeps its last segment. */
  lemma LastSegmentAfter(prefix: string, name: string, sep: char)
    requires sep !in name
    ensures LastSegment(prefix + [sep] + name, sep) == name
  {
    var s := prefix + [sep] + name;
    assert s[|prefix| + 1..] == name;
    assert s[|prefix|] == sep;
    LastSegmentUnique(s, sep, |prefix| + 1);
  }

  lemma CharInConcat(a: string, b: string, c: char)
    ensures c in a + b <==> c in a || c in b
  {
    if c in a + b {
      var i :| 0 <= i < |a + b| && (a + b)[i] == c;
      if i >= |a| {
        assert b[i - |a|] == c;
      }
    }
  }

  /** `Math.ceil(n / 4)` for a natural `n`. */
  function CeilQuarter(n: nat): (r: nat)
    ensures 4 * r >= n && 4 * r < n + 4
  {
    (n + 3) / 4
  }

  function DigitChar(d: nat): char
    requires d < 10
  {
    ('0' as int + d) as char
  }

  predicate IsDigit(c: char) {
    '0' <= c <= '9'
  }

  /** Decimal rendering of a natural number, as in a template literal `${n}`. */
  function NatToString(n: nat): (r: string)
    ensures |r| >= 1
    ensures forall i :: 0 <= i < |r| ==> IsDigit(r[i])
    decreases n
  {
    if n < 10 then [DigitChar(n)] else NatToString(n / 10) + [DigitChar(n % 10)]
  }

  /** Reading a string of decimal digits back as a number. */
  function ParseDecimal(s: string): nat
    requires forall i :: 0 <= i < |s| ==> IsDigit(s[i])
    decreases |s|
  {
    if |s| == 0 then 0
    else
      assert IsDigit(s[|s| - 1]);
      10 * ParseDecimal(s[..|s| - 1]) + (s[|s| - 1] as int - '0' as int)
  }

  lemma {:induction false} NatToStringRoundTrip(n: nat)
    ensures ParseDecimal(NatToString(n)) == n
    decreases n
  {
    if n >= 10 {
      var r := NatToString(n);
      assert r[..|r| - 1] == NatToString(n / 10);
      NatToStringRoundTrip(n / 10);
    }
  }

  /** Different numbers render differently. */
  lemma NatToStringInjective(a: nat, b: nat)
    requires NatToString(a) == NatToString(b)
    ensures a == b
  {
    NatToStringRoundTrip(a);
    NatToStringRoundTrip(b);
  }
}
