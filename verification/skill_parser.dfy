/** The SKILL.md parser (src/lib/skills/parser.ts): a `---` delimited
    frontmatter of `key: value` lines followed by a markdown body. */
module SkillParser {
  import opened Wrappers
  import opened Strings

  datatype SkillMetadata = SkillMetadata(skillName: string, skillDescription: string)

  datatype ParsedSkill = ParsedSkill(content: string, metadata: SkillMetadata)

  /** The three ways a SKILL.md is rejected. */
  datatype SkillParseError = MissingFrontmatter | MissingClosingDelimiter | MissingName

  const Delimiter: string := "---"

  /** `v.startsWith(q) && v.endsWith(q)`: a single `q` counts as both. */
  predicate QuotedWith(v: string, q: char) {
    |v| >= 1 && v[0] == q && v[|v| - 1] == q
  }

  /** Strips one layer of matching double or single quotes, as `slice(1, -1)`
      does: a lone quote character becomes the empty string. */
  function Unquote(v: string): (r: string)
    ensures |r| <= |v|
    ensures r != v ==> |v| >= 1 && (v[0] == '"' || v[0] == '\'')
  {
    if QuotedWith(v, '"') || QuotedWith(v, '\'') then
      if |v| >= 2 then v[1..|v| - 1] else ""
    else v
  }

  /** Quoting a value and unquoting it gives the value back. */
  lemma UnquoteQuoted(s: string, q: char)
    requires q == '"' || q == '\''
    ensures Unquote([q] + s + [q]) == s
  {
    var v := [q] + s + [q];
    assert v[1..|v| - 1] == s;
  }

  /** A value not starting with a quote is kept as it is. */
  lemma UnquoteBare(v: string)
    requires |v| == 0 || (v[0] != '"' && v[0] != '\'')
    ensures Unquote(v) == v
  {
  }

  /** One frontmatter line: the lower-cased, trimmed text before the first
      colon is the key; the trimmed, unquoted text after it is the value. A
      line without a colon defines nothing. */
  function ParseLine(line: string): (r: Option<(string, string)>)
    ensures r.None? <==> ':' !in line
  {
    match IndexOfChar(line, ':')
    case None => None
    case Some(c) => Some((ToLower(Trim(line[..c])), Unquote(Trim(line[c + 1..]))))
  }

  /** Only the first colon separates: the value may contain more colons. */
  lemma ParseLineField(k: string, v: string)
    requires ':' !in k
    ensures ParseLine(k + ":" + v) == Some((ToLower(Trim(k)), Unquote(Trim(v))))
  {
    var line := k + ":" + v;
    assert line[|k|] == ':';
    assert ':' !in line[..|k|] by {
      assert line[..|k|] == k;
    }
    assert line[..|k|] == k;
    assert line[|k| + 1..] == v;
  }

  predicate DefinesKey(line: string, key: string) {
    ParseLine(line).Some? && ParseLine(line).value.0 == key
  }

  /** The fields of a frontmatter, one line after another into a record, so a
      key given twice keeps its later value. */
  function FieldsOf(lines: seq<string>): map<string, string>
    decreases |lines|
  {
    if |lines| == 0 then map[]
    else
      var m := FieldsOf(lines[..|lines| - 1]);
      match ParseLine(lines[|lines| - 1])
      case None => m
      case Some(kv) => m[kv.0 := kv.1]
  }

  /** One more line changes the record only at the key that line defines. */
  lemma FieldsStep(lines: seq<string>, key: string)
    requires |lines| > 0
    ensures var m, last := FieldsOf(lines[..|lines| - 1]), lines[|lines| - 1];
      && (DefinesKey(last, key) ==> key in FieldsOf(lines) && FieldsOf(lines)[key] == ParseLine(last).value.1)
      && (!DefinesKey(last, key) ==>
            (key in FieldsOf(lines) <==> key in m) && (key in m ==> FieldsOf(lines)[key] == m[key]))
  {
  }

  /** A key that is present was defined by some line. */
  lemma {:induction false} FieldsKeyDefined(lines: seq<string>, key: string) returns (i: nat)
    requires key in FieldsOf(lines)
    ensures i < |lines| && DefinesKey(lines[i], key)
    decreases |lines|
  {
    var init := lines[..|lines| - 1];
    assert |init| == |lines| - 1;
    FieldsStep(lines, key);
    if DefinesKey(lines[|lines| - 1], key) {
      i := |lines| - 1;
    } else {
      assert key in FieldsOf(init);
      i := FieldsKeyDefined(init, key);
      assert lines[i] == init[i];
    }
  }

  /** A key some line defines is present. */
  lemma {:induction false} FieldsKeyPresent(lines: seq<string>, i: nat, key: string)
    requires i < |lines| && DefinesKey(lines[i], key)
    ensures key in FieldsOf(lines)
    decreases |lines|
  {
    var init := lines[..|lines| - 1];
    FieldsStep(lines, key);
    if i < |init| {
      assert init[i] == lines[i];
      FieldsKeyPresent(init, i, key);
    } else {
      assert i == |lines| - 1;
    }
  }

  /** The value of a key is that of the last line defining it. */
  lemma {:induction false} FieldsLastWins(lines: seq<string>, i: nat, key: string)
    requires i < |lines| && DefinesKey(lines[i], key)
    requires forall j :: i < j < |lines| ==> !DefinesKey(lines[j], key)
    ensures key in FieldsOf(lines) && FieldsOf(lines)[key] == ParseLine(lines[i]).value.1
    decreases |lines|
  {
    var init := lines[..|lines| - 1];
    FieldsStep(lines, key);
    if i < |lines| - 1 {
      assert |init| == |lines| - 1;
      assert init[i] == lines[i];
      assert forall j :: i < j < |init| ==> init[j] == lines[j];
      assert !DefinesKey(lines[|lines| - 1], key);
      FieldsLastWins(init, i, key);
    } else {
      assert i == |lines| - 1;
    }
  }

  /** The frontmatter and body texts of a SKILL.md: the input is trimmed, must
      open with `---`, and the frontmatter runs to the next `---` at or after
      index 3; both parts are trimmed. */
  function SplitFrontmatter(raw: string): (r: Result<(string, string), SkillParseError>)
    ensures r == Failure(MissingFrontmatter) <==> !StartsWith(Trim(raw), Delimiter)
    ensures r == Failure(MissingClosingDelimiter)
        <==> StartsWith(Trim(raw), Delimiter) && forall k :: 3 <= k ==> !MatchAt(Trim(raw), Delimiter, k)
    ensures r.Success? ==> Trim(r.value.0) == r.value.0 && Trim(r.value.1) == r.value.1
  {
    var t := Trim(raw);
    if !StartsWith(t, Delimiter) then Failure(MissingFrontmatter)
    else
      match IndexOf(t, Delimiter, 3)
      case None => Failure(MissingClosingDelimiter)
      case Some(c) =>
        var fm := Trim(t[3..c]);
        var body := Trim(t[c + 3..]);
        TrimNoop(fm);
        TrimNoop(body);
        Success((fm, body))
  }

  /** A text laid out as `---`, a head free of `---` and not ending in `-`,
      `---` and a rest, splits at exactly that second delimiter. */
  lemma SplitFrontmatterLayout(raw: string, head: string, rest: string)
    requires Trim(raw) == Delimiter + head + Delimiter + rest
    requires !Contains(head, Delimiter)
    requires |head| == 0 || head[|head| - 1] != '-'
    ensures SplitFrontmatter(raw) == Success((Trim(head), Trim(rest)))
  {
    LayoutIndex(Trim(raw), head, rest);
  }

  /** Where the closing delimiter of such a layout is found. */
  lemma LayoutIndex(t: string, head: string, rest: string)
    requires t == Delimiter + head + Delimiter + rest
    requires !Contains(head, Delimiter)
    requires |head| == 0 || head[|head| - 1] != '-'
    ensures StartsWith(t, Delimiter)
    ensures IndexOf(t, Delimiter, 3) == Some(3 + |head|)
    ensures t[3..3 + |head|] == head && t[3 + |head| + 3..] == rest
  {
    var c := 3 + |head|;
    assert t[..3] == Delimiter;
    assert t[c..c + 3] == Delimiter;
    forall k | 3 <= k < c
      ensures !MatchAt(t, Delimiter, k)
    {
      NoMatchInHead(t, head, k);
    }
    IndexOfAt(t, Delimiter, 3, c);
    assert t[3..c] == head;
    assert t[c + 3..] == rest;
  }

  lemma NoMatchInHead(t: string, head: string, k: nat)
    requires |t| >= 3 + |head| + 3 && t[3..3 + |head|] == head
    requires t[3 + |head|..3 + |head| + 3] == Delimiter
    requires !Contains(head, Delimiter)
    requires |head| == 0 || head[|head| - 1] != '-'
    requires 3 <= k < 3 + |head|
    ensures !MatchAt(t, Delimiter, k)
  {
    var c := 3 + |head|;
    if k + 3 <= c {
      assert !MatchAt(head, Delimiter, k - 3);
      NoMatchInside(t, head, k);
    } else {
      assert t[c - 1] == t[3..c][|head| - 1];
      NoMatchAcross(t, c, k);
    }
  }

  /** A window lying inside an embedded copy of `head` is a window of `head`. */
  lemma NoMatchInside(t: string, head: string, k: nat)
    requires 3 + |head| <= |t| && t[3..3 + |head|] == head
    requires 3 <= k && k + 3 <= 3 + |head|
    requires !MatchAt(head, Delimiter, k - 3)
    ensures !MatchAt(t, Delimiter, k)
  {
    var w, h := t[k..k + 3], head[k - 3..k];
    forall j | 0 <= j < 3
      ensures w[j] == h[j]
    {
      assert t[k + j] == t[3..3 + |head|][k - 3 + j];
    }
    assert w == h;
  }

  /** A window that covers index `c - 1`, which is not a hyphen, is not `---`. */
  lemma NoMatchAcross(t: string, c: nat, k: nat)
    requires 0 < c <= |t| && t[c - 1] != '-'
    requires c - 3 < k < c
    ensures !MatchAt(t, Delimiter, k)
  {
    if k + 3 <= |t| {
      assert t[k..k + 3][c - 1 - k] == t[c - 1];
    }
  }

  /** `fields.description || fallbackName || ""`. */
  function Description(fields: map<string, string>, fallbackName: Option<string>): string {
    if "description" in fields && fields["description"] != "" then fields["description"]
    else fallbackName.GetOr("")
  }

  /** `parseSkillMd`: the body becomes the content, the frontmatter's `name`
      (required, non-empty) the skill name, and its `description`, else the
      fallback name, the description. */
  function ParseSkillMd(raw: string, fallbackName: Option<string>): (r: Result<ParsedSkill, SkillParseError>)
    ensures r == Failure(MissingFrontmatter) <==> !StartsWith(Trim(raw), Delimiter)
    ensures r == Failure(MissingClosingDelimiter)
        <==> StartsWith(Trim(raw), Delimiter) && forall k :: 3 <= k ==> !MatchAt(Trim(raw), Delimiter, k)
    ensures r.Success? ==> r.value.metadata.skillName != "" && Trim(r.value.content) == r.value.content
    ensures r.Success? && fallbackName.Some? && fallbackName.value != "" ==> r.value.metadata.skillDescription != ""
  {
    match SplitFrontmatter(raw)
    case Failure(e) => Failure(e)
    case Success(parts) => FromParts(parts.0, parts.1, fallbackName)
  }

  /** The part of `parseSkillMd` after the split: only a missing or empty
      name is rejected, and the body is kept as the content. */
  function FromParts(frontmatter: string, body: string, fallbackName: Option<string>): (r: Result<ParsedSkill, SkillParseError>)
    ensures r.Success? || r == Failure(MissingName)
    ensures r.Success? ==> r.value.metadata.skillName != "" && r.value.content == body
    ensures r.Success? && fallbackName.Some? && fallbackName.value != "" ==> r.value.metadata.skillDescription != ""
  {
    var fields := FieldsOf(Split(frontmatter, '\n'));
    if "name" !in fields || fields["name"] == "" then Failure(MissingName)
    else Success(ParsedSkill(body, SkillMetadata(fields["name"], Description(fields, fallbackName))))
  }

  /** The frontmatter fields of a SKILL.md that opens and closes its frontmatter. */
  function FrontmatterFields(raw: string): map<string, string>
    requires SplitFrontmatter(raw).Success?
  {
    FieldsOf(Split(SplitFrontmatter(raw).value.0, '\n'))
  }

  /** A well-delimited SKILL.md parses exactly when its frontmatter gives a
      non-empty name, and then the description is the frontmatter's own
      unless it is missing or empty. */
  lemma ParseSkillMdFields(raw: string, fallbackName: Option<string>)
    requires SplitFrontmatter(raw).Success?
    ensures ParseSkillMd(raw, fallbackName).Success?
        <==> "name" in FrontmatterFields(raw) && FrontmatterFields(raw)["name"] != ""
    ensures ParseSkillMd(raw, fallbackName).Success? ==>
      var m := ParseSkillMd(raw, fallbackName).value.metadata;
      m.skillName == FrontmatterFields(raw)["name"]
      && ("description" in FrontmatterFields(raw) && FrontmatterFields(raw)["description"] != "" ==>
            m.skillDescription == FrontmatterFields(raw)["description"])
      && ("description" !in FrontmatterFields(raw) || FrontmatterFields(raw)["description"] == "" ==>
            m.skillDescription == fallbackName.GetOr(""))
  {
  }
}
