/** Title extraction and file naming for exported blocks
    (src/lib/skills/titleExtractor.ts). */
module Titles {
  import opened Wrappers
  import opened Strings
  import opened Seqs

  /** What survives `replace(/[^a-z0-9\-_]/g, "")`. */
  predicate IsFilenameChar(c: char) {
    'a' <= c <= 'z' || '0' <= c <= '9' || c == '-' || c == '_'
  }

  /** No two hyphens in a row. */
  predicate NoDoubleHyphen(s: string) {
    forall i :: 0 <= i < |s| - 1 ==> !(s[i] == '-' && s[i + 1] == '-')
  }

  /** `replace(/\s+/g, "-")`: every maximal run of whitespace becomes one hyphen. */
  function DashSpaceRuns(s: string): (r: string)
    ensures forall i :: 0 <= i < |r| ==> !IsSpace(r[i]) && (r[i] == '-' || r[i] in s)
    decreases |s|
  {
    if |s| == 0 then ""
    else if IsSpace(s[0]) then
      var n := LeadingSpace(s);
      assert n >= 1;
      "-" + DashSpaceRuns(s[n..])
    else [s[0]] + DashSpaceRuns(s[1..])
  }

  /** Text without whitespace passes through unchanged. */
  lemma {:induction false} DashSpaceRunsNoop(s: string)
    requires forall i :: 0 <= i < |s| ==> !IsSpace(s[i])
    ensures DashSpaceRuns(s) == s
    decreases |s|
  {
    if |s| > 0 {
      DashSpaceRunsNoop(s[1..]);
    }
  }

  /** `replace(/-+/g, "-")`: every run of hyphens becomes one hyphen; the
      first and last characters are kept. */
  function CollapseHyphens(s: string): (r: string)
    ensures NoDoubleHyphen(r)
    ensures |r| <= |s| && (|r| == 0 <==> |s| == 0)
    ensures |s| > 0 ==> r[0] == s[0] && r[|r| - 1] == s[|s| - 1]
    ensures forall i :: 0 <= i < |r| ==> r[i] in s
    decreases |s|
  {
    if |s| < 2 then s
    else if s[0] == '-' && s[1] == '-' then CollapseHyphens(s[1..])
    else [s[0]] + CollapseHyphens(s[1..])
  }

  /** Text without a double hyphen passes through unchanged. */
  lemma {:induction false} CollapseHyphensNoop(s: string)
    requires NoDoubleHyphen(s)
    ensures CollapseHyphens(s) == s
    decreases |s|
  {
    if |s| >= 2 {
      CollapseHyphensNoop(s[1..]);
    }
  }

  /** `replace(/^-|-$/g, "")`: one leading and one trailing hyphen go; a lone
      hyphen goes once. */
  function StripEdgeHyphens(s: string): string {
    var a := if |s| > 0 && s[0] == '-' then s[1..] else s;
    if |a| > 0 && a[|a| - 1] == '-' then a[..|a| - 1] else a
  }

  /** Stripping keeps a slice of the input that loses at most its first and
      last characters, and only when they are hyphens. */
  lemma StripEdgeHyphensSlice(s: string) returns (i: nat, j: nat)
    ensures i <= j <= |s| && StripEdgeHyphens(s) == s[i..j]
    ensures i == (if |s| > 0 && s[0] == '-' then 1 else 0)
    ensures j == |s| || (j == |s| - 1 && s[|s| - 1] == '-')
  {
    i := if |s| > 0 && s[0] == '-' then 1 else 0;
    var a := s[i..];
    if |a| > 0 && a[|a| - 1] == '-' {
      j := |s| - 1;
      assert a[..|a| - 1] == s[i..j];
    } else {
      j := |s|;
    }
  }

  /** After collapsing, stripping leaves no hyphen at either end; a string
      with none there is kept whole. */
  lemma StripEdgeHyphensClean(s: string)
    requires NoDoubleHyphen(s)
    ensures var r := StripEdgeHyphens(s);
      |r| == 0 || (r[0] != '-' && r[|r| - 1] != '-')
    ensures (|s| > 0 && s[0] != '-' && s[|s| - 1] != '-') ==> StripEdgeHyphens(s) == s
  {
    var i, j := StripEdgeHyphensSlice(s);
    var r := StripEdgeHyphens(s);
    if |r| > 0 {
      assert r[0] == s[i] && r[|r| - 1] == s[j - 1];
      if i == 1 {
        assert !(s[0] == '-' && s[1] == '-');
      }
      if j < |s| {
        assert !(s[j] == '-' && s[j - 1] == '-');
      }
    }
  }

  const MaxFilenameLength: nat := 50
  const Untitled: string := "untitled"

  /** The pipeline before truncation. */
  function CleanTitle(title: string): (r: string)
    ensures forall i :: 0 <= i < |r| ==> IsFilenameChar(r[i])
    ensures NoDoubleHyphen(r)
    ensures |r| > 0 ==> r[0] != '-' && r[|r| - 1] != '-'
  {
    var collapsed := CollapseHyphens(Filter(DashSpaceRuns(ToLower(title)), IsFilenameChar));
    CleanTitleSteps(title);
    StripEdgeHyphensClean(collapsed);
    StripEdgeHyphens(collapsed)
  }

  lemma CleanTitleSteps(title: string)
    ensures var r := StripEdgeHyphens(CollapseHyphens(Filter(DashSpaceRuns(ToLower(title)), IsFilenameChar)));
      (forall i :: 0 <= i < |r| ==> IsFilenameChar(r[i])) && NoDoubleHyphen(r)
  {
    var kept := Filter(DashSpaceRuns(ToLower(title)), IsFilenameChar);
    FilterMembers(DashSpaceRuns(ToLower(title)), IsFilenameChar);
    var collapsed := CollapseHyphens(kept);
    var i, j := StripEdgeHyphensSlice(collapsed);
    var r := StripEdgeHyphens(collapsed);
    forall k | 0 <= k < |r|
      ensures IsFilenameChar(r[k])
    {
      assert r[k] == collapsed[i + k];
      assert collapsed[i + k] in kept;
    }
    forall k | 0 <= k < |r| - 1
      ensures !(r[k] == '-' && r[k + 1] == '-')
    {
      assert r[k] == collapsed[i + k] && r[k + 1] == collapsed[i + k + 1];
    }
  }

  /** Collapsing a run of hyphens leaves at most one. */
  lemma {:induction false} CollapseAllHyphens(s: string)
    requires forall i :: 0 <= i < |s| ==> s[i] == '-'
    ensures |CollapseHyphens(s)| <= 1
    decreases |s|
  {
    if |s| >= 2 {
      CollapseAllHyphens(s[1..]);
    }
  }

  /** `sanitizeFilename`: a non-empty name of at most 50 lower-case letters,
      digits, hyphens and underscores, never starting with a hyphen and
      without a double hyphen; it ends in a hyphen only when the cleaned
      title was cut at 50 characters. */
  function SanitizeFilename(title: string): (r: string)
    ensures 1 <= |r| <= MaxFilenameLength
    ensures forall i :: 0 <= i < |r| ==> IsFilenameChar(r[i])
    ensures NoDoubleHyphen(r)
    ensures r[0] != '-'
    ensures r[|r| - 1] == '-' ==> |CleanTitle(title)| > MaxFilenameLength
  {
    var t := CleanTitle(title);
    var u := if |t| > MaxFilenameLength then t[..MaxFilenameLength] else t;
    UntitledClean();
    PrefixClean(t, |u|);
    if u == "" then Untitled else u
  }

  lemma UntitledClean()
    ensures |Untitled| == 8 && Untitled[0] != '-' && Untitled[7] != '-'
    ensures forall i :: 0 <= i < |Untitled| ==> IsFilenameChar(Untitled[i])
    ensures NoDoubleHyphen(Untitled)
  {
  }

  /** A prefix of a clean name is clean, and ends in a hyphen only when it is
      a proper prefix. */
  lemma PrefixClean(t: string, n: nat)
    requires n <= |t|
    requires forall i :: 0 <= i < |t| ==> IsFilenameChar(t[i])
    requires NoDoubleHyphen(t)
    requires |t| > 0 ==> t[0] != '-' && t[|t| - 1] != '-'
    ensures forall i :: 0 <= i < n ==> IsFilenameChar(t[..n][i])
    ensures NoDoubleHyphen(t[..n])
    ensures n > 0 ==> t[..n][0] != '-'
    ensures n > 0 && t[..n][n - 1] == '-' ==> n < |t|
  {
    forall i | 0 <= i < n - 1
      ensures !(t[..n][i] == '-' && t[..n][i + 1] == '-')
    {
      assert t[..n][i] == t[i] && t[..n][i + 1] == t[i + 1];
    }
  }

  /** A name that is already clean sanitizes to itself. */
  lemma SanitizeFixpoint(name: string)
    requires 1 <= |name| <= MaxFilenameLength
    requires forall i :: 0 <= i < |name| ==> IsFilenameChar(name[i])
    requires NoDoubleHyphen(name)
    requires name[0] != '-' && name[|name| - 1] != '-'
    ensures SanitizeFilename(name) == name
  {
    ToLowerNoop(name);
    DashSpaceRunsNoop(name);
    FilterAll(name, IsFilenameChar);
    CollapseHyphensNoop(name);
  }

  /** A title with no letter, digit or underscore sanitizes to "untitled". */
  lemma SanitizeNothingLeft(title: string)
    requires forall i :: 0 <= i < |title| ==> !IsFilenameChar(LowerChar(title[i])) || title[i] == '-'
    ensures SanitizeFilename(title) == Untitled
  {
    var lower := ToLower(title);
    var dashed := DashSpaceRuns(lower);
    var kept := Filter(dashed, IsFilenameChar);
    FilterMembers(dashed, IsFilenameChar);
    forall i | 0 <= i < |kept|
      ensures kept[i] == '-'
    {
      assert kept[i] in dashed;
      if kept[i] in lower {
        var j :| 0 <= j < |lower| && lower[j] == kept[i];
        assert title[j] == '-';
      }
    }
    CollapseAllHyphens(kept);
  }

  /** The name tried after `k` collisions: the base itself, then `base-k`. */
  function Candidate(base: string, ext: string, k: nat): string {
    if k == 0 then base + ext else base + "-" + NatToString(k) + ext
  }

  /** Only candidates below this count are tried before the clock fallback. */
  const MaxCandidates: nat := 1000

  /** The least untaken candidate index from `k` on, below 1000. */
  function FirstFree(base: string, ext: string, existing: set<string>, k: nat): (r: Option<nat>)
    ensures r.Some? ==> k <= r.value < MaxCandidates && Candidate(base, ext, r.value) !in existing
    ensures r.Some? ==> forall j :: k <= j < r.value ==> Candidate(base, ext, j) in existing
    ensures r.None? ==> forall j :: k <= j < MaxCandidates ==> Candidate(base, ext, j) in existing
    decreases MaxCandidates - k
  {
    if k >= MaxCandidates then None
    else if Candidate(base, ext, k) !in existing then Some(k)
    else FirstFree(base, ext, existing, k + 1)
  }

  /** `uniqueFilename`: the first of `base.ext`, `base-1.ext`, …, `base-999.ext`
      not yet taken; only when all are taken, `base-<now>.ext`, where `now`
      stands for the clock reading. */
  function UniqueFilename(base: string, ext: string, existing: set<string>, now: nat): (r: string)
    ensures r !in existing || forall j :: 0 <= j < MaxCandidates ==> Candidate(base, ext, j) in existing
    ensures (forall j :: 0 <= j < MaxCandidates ==> Candidate(base, ext, j) in existing)
        ==> r == base + "-" + NatToString(now) + ext
  {
    match FirstFree(base, ext, existing, 0)
    case Some(k) => Candidate(base, ext, k)
    case None => base + "-" + NatToString(now) + ext
  }

  /** The name chosen is the earliest free candidate. */
  lemma UniqueFilenameIsLeast(base: string, ext: string, existing: set<string>, now: nat, j: nat) returns (k: nat)
    requires j < MaxCandidates && Candidate(base, ext, j) !in existing
    ensures k <= j && UniqueFilename(base, ext, existing, now) == Candidate(base, ext, k)
    ensures forall i :: 0 <= i < k ==> Candidate(base, ext, i) in existing
  {
    k := FirstFree(base, ext, existing, 0).value;
  }

  /** The chosen name is the base, then nothing or `-` and digits, then the
      extension. */
  lemma UniqueFilenameShape(base: string, ext: string, existing: set<string>, now: nat) returns (mid: string)
    ensures UniqueFilename(base, ext, existing, now) == base + mid + ext
    ensures mid == "" || (mid[0] == '-' && forall i :: 1 <= i < |mid| ==> IsDigit(mid[i]))
  {
    match FirstFree(base, ext, existing, 0)
    case Some(k) =>
      if k == 0 {
        mid := "";
      } else {
        mid := "-" + NatToString(k);
        assert base + "-" + NatToString(k) + ext == base + mid + ext;
      }
    case None =>
      mid := "-" + NatToString(now);
      assert base + "-" + NatToString(now) + ext == base + mid + ext;
  }

  lemma MiddleEqual(p: string, x: string, y: string, q: string)
    requires p + x + q == p + y + q
    ensures x == y
  {
    assert x == (p + x + q)[|p|..|p| + |x|];
    assert |x| == |y|;
    assert y == (p + y + q)[|p|..|p| + |y|];
  }

  /** Distinct indices give distinct candidates. */
  lemma CandidateInjective(base: string, ext: string, a: nat, b: nat)
    requires Candidate(base, ext, a) == Candidate(base, ext, b)
    ensures a == b
  {
    if a != 0 && b != 0 {
      assert base + "-" + NatToString(a) + ext == (base + "-") + NatToString(a) + ext;
      assert base + "-" + NatToString(b) + ext == (base + "-") + NatToString(b) + ext;
      MiddleEqual(base + "-", NatToString(a), NatToString(b), ext);
      NatToStringInjective(a, b);
    } else {
      assert |Candidate(base, ext, a)| == |Candidate(base, ext, b)|;
    }
  }

  function Candidates(base: string, ext: string, n: nat): set<string> {
    set k | 0 <= k < n :: Candidate(base, ext, k)
  }

  lemma {:induction false} CandidatesCount(base: string, ext: string, n: nat)
    ensures |Candidates(base, ext, n)| == n
    decreases n
  {
    if n > 0 {
      CandidatesCount(base, ext, n - 1);
      assert Candidates(base, ext, n) == Candidates(base, ext, n - 1) + {Candidate(base, ext, n - 1)};
      if Candidate(base, ext, n - 1) in Candidates(base, ext, n - 1) {
        var k :| 0 <= k < n - 1 && Candidate(base, ext, k) == Candidate(base, ext, n - 1);
        CandidateInjective(base, ext, k, n - 1);
      }
    } else {
      assert Candidates(base, ext, n) == {};
    }
  }

  lemma {:induction false} SubsetCard<T>(a: set<T>, b: set<T>)
    requires a <= b
    ensures |a| <= |b|
    decreases |b|
  {
    if a != {} {
      var x :| x in a;
      SubsetCard(a - {x}, b - {x});
    }
  }

  /** With fewer than 1000 names taken, the chosen name is always fresh. */
  lemma UniqueFilenameFresh(base: string, ext: string, existing: set<string>, now: nat)
    requires |existing| < MaxCandidates
    ensures UniqueFilename(base, ext, existing, now) !in existing
  {
    if forall j :: 0 <= j < MaxCandidates ==> Candidate(base, ext, j) in existing {
      CandidatesCount(base, ext, MaxCandidates);
      SubsetCard(Candidates(base, ext, MaxCandidates), existing);
    }
  }

  /** Number of leading `#` characters. */
  function HashCount(s: string): (n: nat)
    ensures n <= |s|
    ensures forall i :: 0 <= i < n ==> s[i] == '#'
    ensures n < |s| ==> s[n] != '#'
    decreases |s|
  {
    if |s| > 0 && s[0] == '#' then
      var n := HashCount(s[1..]);
      assert forall i :: 1 <= i < 1 + n ==> s[i] == s[1..][i - 1];
      1 + n
    else 0
  }

  /** Number of leading characters that are not line terminators: what `.+`
      takes when it starts at the front. */
  function TextRun(s: string): (n: nat)
    ensures n <= |s|
    ensures forall i :: 0 <= i < n ==> !IsLineTerminator(s[i])
    ensures n < |s| ==> IsLineTerminator(s[n])
    decreases |s|
  {
    if |s| > 0 && !IsLineTerminator(s[0]) then
      var n := TextRun(s[1..]);
      assert forall i :: 1 <= i < 1 + n ==> s[i] == s[1..][i - 1];
      1 + n
    else 0
  }

  /** `.+` can begin after the hashes and `k` whitespace characters. */
  predicate CaptureCanStart(line: string, h: nat, k: nat) {
    h + k < |line| && !IsLineTerminator(line[h + k])
  }

  /** How `\s+` backs off: the longest run of at most `k` whitespace
      characters, one at least, after which `.+` can begin. */
  function Backtrack(line: string, h: nat, k: nat): (r: Option<nat>)
    ensures r.Some? ==> 1 <= r.value <= k && CaptureCanStart(line, h, r.value)
    ensures r.Some? ==> forall j :: r.value < j <= k ==> !CaptureCanStart(line, h, j)
    ensures r.None? ==> forall j :: 1 <= j <= k ==> !CaptureCanStart(line, h, j)
    decreases k
  {
    if k == 0 then None
    else if CaptureCanStart(line, h, k) then Some(k)
    else Backtrack(line, h, k - 1)
  }

  /** A way for `/^#+\s+(.+)/` to match `line`: `h` hashes, `k` whitespace
      characters, then the captured text up to index `e`, which `.+` extends as
      far as it can. */
  predicate HeadingMatch(line: string, h: nat, k: nat, e: nat) {
    && 1 <= h && 1 <= k && h + k < e <= |line|
    && (forall i :: 0 <= i < h ==> line[i] == '#')
    && (forall i :: h <= i < h + k ==> IsSpace(line[i]))
    && (forall i :: h + k <= i < e ==> !IsLineTerminator(line[i]))
    && (e == |line| || IsLineTerminator(line[e]))
  }

  /** The match the regular-expression engine settles on, if any: all the
      hashes, then as much whitespace as still lets `.+` match. */
  function HeadingParts(line: string): (r: Option<(nat, nat, nat)>)
    ensures r.Some? ==> HeadingMatch(line, r.value.0, r.value.1, r.value.2)
  {
    var h := HashCount(line);
    if h == 0 then None
    else
      var w := LeadingSpace(line[h..]);
      match Backtrack(line, h, w)
      case None => None
      case Some(k) =>
        HeadingMatchOf(line, h, w, k);
        Some((h, k, h + k + TextRun(line[h + k..])))
  }

  /** The pieces the engine's choice consists of form a match. */
  lemma HeadingMatchOf(line: string, h: nat, w: nat, k: nat)
    requires h == HashCount(line) && h > 0
    requires w == LeadingSpace(line[h..])
    requires Backtrack(line, h, w) == Some(k)
    ensures HeadingMatch(line, h, k, h + k + TextRun(line[h + k..]))
  {
    SpaceRun(line, h, w, k);
    TextRunAt(line, h + k);
  }

  /** The first `k` of the `w` whitespace characters after the hashes. */
  lemma SpaceRun(line: string, h: nat, w: nat, k: nat)
    requires h <= |line| && w == LeadingSpace(line[h..]) && k <= w
    ensures forall i :: h <= i < h + k ==> IsSpace(line[i])
  {
    forall i | h <= i < h + k
      ensures IsSpace(line[i])
    {
      assert line[i] == line[h..][..w][i - h];
    }
  }

  /** What `.+` takes from index `a` on. */
  lemma TextRunAt(line: string, a: nat)
    requires a <= |line|
    ensures var n := TextRun(line[a..]);
      && a + n <= |line|
      && (forall i :: a <= i < a + n ==> !IsLineTerminator(line[i]))
      && (a + n == |line| || IsLineTerminator(line[a + n]))
  {
    var n := TextRun(line[a..]);
    forall i | a <= i < a + n
      ensures !IsLineTerminator(line[i])
    {
      assert line[i] == line[a..][i - a];
    }
    if a + n < |line| {
      assert line[a + n] == line[a..][n];
    }
  }

  /** Every match has exactly the engine's hashes and no more whitespace than
      the engine's choice, so the engine's match is the greedy one. */
  lemma HeadingMatchBounded(line: string, h: nat, k: nat, e: nat)
    requires HeadingMatch(line, h, k, e)
    ensures h == HashCount(line) && k <= LeadingSpace(line[h..]) && CaptureCanStart(line, h, k)
  {
    var n := HashCount(line);
    assert IsSpace(line[h]);
    assert h <= n by {
      assert n < |line| ==> line[n] != '#';
      assert forall i :: 0 <= i < h ==> line[i] == '#';
    }
    assert !IsSpace('#');
    assert h >= n by {
      assert forall i :: 0 <= i < n ==> line[i] == '#';
    }
    var w := LeadingSpace(line[h..]);
    assert w < |line[h..]| ==> !IsSpace(line[h + w]);
    assert forall i :: h <= i < h + k ==> IsSpace(line[i]);
  }

  /** The engine finds a match exactly when there is one, and then the
      greedy one. */
  lemma HeadingPartsComplete(line: string, h: nat, k: nat, e: nat)
    requires HeadingMatch(line, h, k, e)
    ensures HeadingParts(line).Some?
    ensures HeadingParts(line).value.0 == h && k <= HeadingParts(line).value.1
  {
    HeadingMatchBounded(line, h, k, e);
  }

  predicate HasHeading(line: string) {
    HeadingParts(line).Some?
  }

  /** The trimmed capture of a heading line. */
  function HeadingTitle(line: string): (r: string)
    requires HasHeading(line)
    ensures forall c :: c in r ==> c in line
  {
    var p := HeadingParts(line).value;
    var cap := line[p.0 + p.1..p.2];
    assert forall c :: c in cap ==> c in line;
    TrimWithin(cap);
    Trim(cap)
  }

  predicate IsNonBlank(line: string) {
    Trim(line) != ""
  }

  const MaxLineTitle: nat := 60

  /** A non-blank line trimmed and cut to 60 characters. */
  function LineTitle(line: string): (r: string)
    ensures IsNonBlank(line) ==> 1 <= |r| <= MaxLineTitle
    ensures forall c :: c in r ==> c in line
  {
    var t := Trim(line);
    TrimWithin(line);
    if |t| > MaxLineTitle then t[..MaxLineTitle] else t
  }

  predicate AnyHeading(lines: seq<string>) {
    exists i :: 0 <= i < |lines| && HasHeading(lines[i])
  }

  predicate AnyNonBlank(lines: seq<string>) {
    exists i :: 0 <= i < |lines| && IsNonBlank(lines[i])
  }

  /** The title of a block from its lines, as `extractBlockTitle` picks it. */
  function TitleOfLines(lines: seq<string>, blockType: string, index: nat): string {
    if AnyHeading(lines) then HeadingTitle(lines[FirstIndex(lines, HasHeading)])
    else if AnyNonBlank(lines) then LineTitle(lines[FirstIndex(lines, IsNonBlank)])
    else blockType + "-" + NatToString(index)
  }

  /** Without a heading, the first non-blank line gives a title of 1 to 60 characters. */
  lemma TitleOfLinesBounded(lines: seq<string>, blockType: string, index: nat)
    requires !AnyHeading(lines) && AnyNonBlank(lines)
    ensures 1 <= |TitleOfLines(lines, blockType, index)| <= MaxLineTitle
  {
    var k := FirstIndex(lines, IsNonBlank);
    assert TitleOfLines(lines, blockType, index) == LineTitle(lines[k]);
    assert IsNonBlank(lines[k]);
  }

  /** Lines without a line break give a title without one, unless the block
      type has one. */
  lemma TitleOfLinesOneLine(lines: seq<string>, blockType: string, index: nat)
    requires forall i :: 0 <= i < |lines| ==> '\n' !in lines[i]
    ensures '\n' in TitleOfLines(lines, blockType, index) ==> '\n' in blockType
  {
    var r := TitleOfLines(lines, blockType, index);
    if AnyHeading(lines) {
      var k := FirstIndex(lines, HasHeading);
      assert r == HeadingTitle(lines[k]);
      assert '\n' !in lines[k];
    } else if AnyNonBlank(lines) {
      var k := FirstIndex(lines, IsNonBlank);
      assert r == LineTitle(lines[k]);
      assert '\n' !in lines[k];
    } else {
      var tail := "-" + NatToString(index);
      assert '\n' !in tail;
      assert r == blockType + tail;
      CharInConcat(blockType, tail, '\n');
    }
  }

  /** A heading line wins over any plain lines before it: the title is the
      first heading's text. */
  lemma HeadingWinsOverPlainLines(plain: seq<string>, heading: string, rest: seq<string>, blockType: string, index: nat)
    requires forall i :: 0 <= i < |plain| ==> !HasHeading(plain[i])
    requires HasHeading(heading)
    ensures TitleOfLines(plain + [heading] + rest, blockType, index) == HeadingTitle(heading)
  {
    var lines := plain + [heading] + rest;
    assert lines[|plain|] == heading;
    assert forall i :: 0 <= i < |plain| ==> lines[i] == plain[i];
    var k := FirstIndex(lines, HasHeading);
    assert k == |plain|;
  }

  /** `extractBlockTitle`: the trimmed text of the first markdown heading
      line; failing that, the first non-blank line, trimmed and cut to 60
      characters; failing that, `<blockType>-<index>`. */
  function ExtractBlockTitle(content: string, blockType: string, index: nat): string {
    TitleOfLines(Split(content, '\n'), blockType, index)
  }

  /** A block without a heading line but with a non-blank line gets a title of
      1 to 60 characters. */
  lemma ExtractBlockTitleBounded(content: string, blockType: string, index: nat)
    requires !AnyHeading(Split(content, '\n')) && AnyNonBlank(Split(content, '\n'))
    ensures 1 <= |ExtractBlockTitle(content, blockType, index)| <= MaxLineTitle
  {
    TitleOfLinesBounded(Split(content, '\n'), blockType, index);
  }

  /** A title spans one line unless the block type has a line break. */
  lemma ExtractBlockTitleOneLine(content: string, blockType: string, index: nat)
    ensures '\n' in ExtractBlockTitle(content, blockType, index) ==> '\n' in blockType
  {
    TitleOfLinesOneLine(Split(content, '\n'), blockType, index);
  }

  /** The characters of a trim are characters of the input. */
  lemma TrimWithin(s: string)
    ensures forall c :: c in Trim(s) ==> c in s
  {
    var a := LeadingSpace(s);
    var t := s[a..];
    var r := t[..|t| - TrailingSpace(t)];
    assert Trim(s) == r;
    forall c | c in r
      ensures c in s
    {
      var k :| 0 <= k < |r| && r[k] == c;
      assert s[a + k] == c;
    }
  }

  /** The first piece of a split is the text before the first separator. */
  lemma SplitFirst(x: string, y: string, sep: char)
    requires sep !in x
    ensures Split(x + [sep] + y, sep)[0] == x
  {
    var s := x + [sep] + y;
    assert s[|x|] == sep;
    assert s[..|x|] == x;
  }

  /** How the engine matches `#… <title>`: all hashes, one space, the whole title. */
  lemma HeadingLineParts(hashes: string, title: string)
    requires |hashes| >= 1 && forall i :: 0 <= i < |hashes| ==> hashes[i] == '#'
    requires |title| >= 1 && !IsSpace(title[0])
    requires forall i :: 0 <= i < |title| ==> !IsLineTerminator(title[i])
    ensures HeadingParts(hashes + " " + title) == Some((|hashes|, 1, |hashes| + 1 + |title|))
  {
    var line := hashes + " " + title;
    var h := |hashes|;
    HashCountPrefix(hashes, " " + title);
    assert line == hashes + (" " + title);
    assert line[h..] == " " + title;
    assert LeadingSpace(line[h..]) == 1 by {
      assert (" " + title)[1] == title[0];
    }
    LineTerminatorIsSpace(title[0]);
    assert line[h + 1] == title[0];
    assert CaptureCanStart(line, h, 1);
    assert line[h + 1..] == title;
    assert TextRun(title) == |title|;
  }

  lemma HeadingLineTitle(hashes: string, title: string)
    requires |hashes| >= 1 && forall i :: 0 <= i < |hashes| ==> hashes[i] == '#'
    requires |title| >= 1 && !IsSpace(title[0])
    requires forall i :: 0 <= i < |title| ==> !IsLineTerminator(title[i])
    ensures HasHeading(hashes + " " + title) && HeadingTitle(hashes + " " + title) == Trim(title)
  {
    var line := hashes + " " + title;
    HeadingLineParts(hashes, title);
    var p := HeadingParts(line).value;
    assert p.0 + p.1 == |hashes| + 1 && p.2 == |line|;
    assert line[p.0 + p.1..p.2] == title;
  }

  /** A first line `#… <title>` names the block, whatever follows. */
  lemma HeadingFirstLineTitle(hashes: string, title: string, rest: string, blockType: string, index: nat)
    requires |hashes| >= 1 && forall i :: 0 <= i < |hashes| ==> hashes[i] == '#'
    requires |title| >= 1 && !IsSpace(title[0])
    requires forall i :: 0 <= i < |title| ==> !IsLineTerminator(title[i])
    ensures ExtractBlockTitle(hashes + " " + title + "\n" + rest, blockType, index) == Trim(title)
  {
    var line := hashes + " " + title;
    assert '\n' !in line by {
      assert forall i :: |hashes| < i < |line| ==> line[i] == title[i - |hashes| - 1];
      assert forall i :: 0 <= i < |hashes| ==> line[i] == '#';
    }
    assert hashes + " " + title + "\n" + rest == line + ['\n'] + rest;
    SplitFirst(line, rest, '\n');
    HeadingLineTitle(hashes, title);
    var lines := Split(line + ['\n'] + rest, '\n');
    assert HasHeading(lines[0]);
    assert FirstIndex(lines, HasHeading) == 0;
  }

  lemma HashCountPrefix(hashes: string, rest: string)
    requires forall i :: 0 <= i < |hashes| ==> hashes[i] == '#'
    requires |rest| > 0 && rest[0] != '#'
    ensures HashCount(hashes + rest) == |hashes|
  {
    var s := hashes + rest;
    var n := HashCount(s);
    assert s[|hashes|] == rest[0];
    assert n <= |hashes| by {
      assert forall i :: 0 <= i < n ==> s[i] == '#';
    }
    assert n >= |hashes| by {
      assert n < |s| ==> s[n] != '#';
      assert forall i :: 0 <= i < |hashes| ==> s[i] == '#';
    }
  }

  /** Whitespace-only content has no title of its own. */
  lemma BlankContentFallback(content: string, blockType: string, index: nat)
    requires AllSpace(content)
    ensures ExtractBlockTitle(content, blockType, index) == blockType + "-" + NatToString(index)
  {
    var lines := Split(content, '\n');
    forall i | 0 <= i < |lines|
      ensures !HasHeading(lines[i]) && !IsNonBlank(lines[i])
    {
      SplitPiecesWithin(content, '\n', i);
      AllSpaceTrim(lines[i]);
      if HasHeading(lines[i]) {
      }
    }
  }

  /** Every character of a split piece is a character of the input. */
  lemma {:induction false} SplitPiecesWithin(s: string, sep: char, i: nat)
    requires i < |Split(s, sep)|
    ensures forall k :: 0 <= k < |Split(s, sep)[i]| ==> Split(s, sep)[i][k] in s
    decreases |s|
  {
    match IndexOfChar(s, sep)
    case None =>
    case Some(j) =>
      if i > 0 {
        SplitPiecesWithin(s[j + 1..], sep, i - 1);
        assert Split(s, sep)[i] == Split(s[j + 1..], sep)[i - 1];
      }
  }
}
