/** The local skill scan and import (convex/skillsNode.ts): discovering skill
    folders with a SKILL.md and their `references/` files, and turning a
    selection into skill imports. The file system is given as data: each
    folder entry carries what the scan would read from disk. */
module SkillsNode {
  import opened Wrappers
  import opened Strings
  import opened Seqs
  import opened Sorting
  import opened Zones
  import opened SkillParser
  import opened Directory

  /** `zoneFromRefPath`, on a path relative to `references/`: the first
      directory, compared without case and separated by `/` or `\`, picks
      the zone; anything else is STABLE. */
  function ZoneFromRefPath(relativePath: string): (z: Zone)
    ensures z == Permanent <==>
      StartsWith(ToLower(relativePath), "permanent/") || StartsWith(ToLower(relativePath), "permanent\\")
    ensures z == Working <==>
      StartsWith(ToLower(relativePath), "working/") || StartsWith(ToLower(relativePath), "working\\")
  {
    var lower := ToLower(relativePath);
    if StartsWith(lower, "permanent/") || StartsWith(lower, "permanent\\") then
      assert lower[0] == 'p';
      Permanent
    else if StartsWith(lower, "working/") || StartsWith(lower, "working\\") then
      assert lower[0] == 'w';
      Working
    else if StartsWith(lower, "stable/") || StartsWith(lower, "stable\\") then Stable
    else Stable
  }

  lemma StartsWithCommonPrefix(p: string, s: string, q: string)
    ensures StartsWith(p + s, p + q) <==> StartsWith(s, q)
  {
    if StartsWith(s, q) {
      assert (p + s)[..|p + q|] == p + s[..|q|];
    }
    if StartsWith(p + s, p + q) {
      assert s[..|q|] == (p + s)[..|p + q|][|p|..];
    }
  }

  /** The scan and the directory parser agree on a reference's zone, as long
      as the path does not use a backslash after its zone directory. */
  lemma ZoneFromRefPathAgrees(rel: string)
    requires !StartsWith(ToLower(rel), "permanent\\") && !StartsWith(ToLower(rel), "working\\")
    ensures ZoneFromRefPath(rel) == ZoneFromPath(ReferencesDir + rel)
  {
    ToLowerAppend(ReferencesDir, rel);
    ToLowerNoop(ReferencesDir);
    var lower := ToLower(rel);
    assert ToLower(ReferencesDir + rel) == ReferencesDir + lower;
    StartsWithCommonPrefix(ReferencesDir, lower, "permanent/");
    StartsWithCommonPrefix(ReferencesDir, lower, "working/");
    assert PermanentPrefix == ReferencesDir + "permanent/";
    assert WorkingPrefix == ReferencesDir + "working/";
  }

  /** A SKILL.md as the inline parser returns it. */
  datatype InlineSkill = InlineSkill(content: string, skillName: string, skillDescription: string)

  /** `parseSkillMdInline`: the same steps as `parseSkillMd`, with a
      mandatory fallback for the description and no value instead of an
      error. */
  function ParseSkillMdInline(raw: string, fallbackName: string): (r: Option<InlineSkill>)
    ensures r.Some? ==> r.value.skillName != "" && Trim(r.value.content) == r.value.content
    ensures r.Some? && fallbackName != "" ==> r.value.skillDescription != ""
  {
    match SplitFrontmatter(raw)
    case Failure(_) => None
    case Success(parts) =>
      var fields := FieldsOf(Split(parts.0, '\n'));
      if "name" !in fields || fields["name"] == "" then None
      else
        var description := if "description" in fields && fields["description"] != "" then fields["description"] else fallbackName;
        Some(InlineSkill(parts.1, fields["name"], description))
  }

  /** The inline parser mirrors the client parser given the same fallback:
      it fails exactly when that one throws, and otherwise yields the same
      content, name and description. */
  lemma InlineMirrorsParser(raw: string, fallbackName: string)
    ensures ParseSkillMdInline(raw, fallbackName).None? <==> ParseSkillMd(raw, Some(fallbackName)).Failure?
    ensures ParseSkillMdInline(raw, fallbackName).Some? ==>
      var a := ParseSkillMdInline(raw, fallbackName).value;
      var b := ParseSkillMd(raw, Some(fallbackName)).value;
      a.content == b.content && a.skillName == b.metadata.skillName
      && a.skillDescription == b.metadata.skillDescription
  {
    match SplitFrontmatter(raw)
    case Failure(_) =>
    case Success(parts) =>
      assert ParseSkillMd(raw, Some(fallbackName)) == FromParts(parts.0, parts.1, Some(fallbackName));
  }

  /** A markdown file found under a skill's `references/` directory, with its
      path relative to that directory, `/`-separated. */
  datatype RefFile = RefFile(relativePath: string, content: string)

  datatype DiscoveredReference = DiscoveredReference(
    filename: string,
    content: string,
    zone: Zone,
    relativePath: string,
    tokenEstimate: nat)

  function RelKey(f: RefFile): Key {
    TextKey(f.relativePath)
  }

  function DiscoveredKey(d: DiscoveredReference): Key {
    TextKey(d.relativePath)
  }

  /** One reference as the scan reports it; the path is given back relative
      to the skill folder. */
  function Discover(f: RefFile): DiscoveredReference {
    DiscoveredReference(
      LastSegment(f.relativePath, '/'),
      f.content,
      ZoneFromRefPath(f.relativePath),
      ReferencesDir + f.relativePath,
      CeilQuarter(|f.content|))
  }

  /** The references of a skill folder, sorted by path. */
  function DiscoverReferences(files: seq<RefFile>): (r: seq<DiscoveredReference>)
    ensures |r| == |files|
    ensures forall i :: 0 <= i < |r| ==>
      StartsWith(r[i].relativePath, ReferencesDir) && 4 * r[i].tokenEstimate >= |r[i].content|
  {
    var sorted := SortBy(files, RelKey);
    var r := MapSeq(Discover, sorted);
    forall i | 0 <= i < |r|
      ensures StartsWith(r[i].relativePath, ReferencesDir)
    {
      assert (ReferencesDir + sorted[i].relativePath)[..|ReferencesDir|] == ReferencesDir;
    }
    r
  }

  /** The reported references are in path order, hold the files found, and
      each is placed in the zone its path names. */
  lemma DiscoverReferencesOrdered(files: seq<RefFile>)
    ensures var r := DiscoverReferences(files);
      && SortedBy(r, DiscoveredKey)
      && multiset(r) == multiset(MapSeq(Discover, files))
      && forall i :: 0 <= i < |r| ==> r[i].zone == ZoneFromRefPath(r[i].relativePath[|ReferencesDir|..])
  {
    var sorted := SortBy(files, RelKey);
    SortBySorted(files, RelKey);
    MapSeqPermutation(Discover, sorted, files);
    var r := MapSeq(Discover, sorted);
    forall i, j | 0 <= i < j < |r|
      ensures LexLeq(DiscoveredKey(r[i]), DiscoveredKey(r[j]))
    {
      TextKeyAppend(ReferencesDir, sorted[i].relativePath);
      TextKeyAppend(ReferencesDir, sorted[j].relativePath);
      LexLessCommonPrefix(TextKey(ReferencesDir), RelKey(sorted[j]), RelKey(sorted[i]));
    }
    forall i | 0 <= i < |r|
      ensures r[i].zone == ZoneFromRefPath(r[i].relativePath[|ReferencesDir|..])
    {
      assert r[i].relativePath[|ReferencesDir|..] == sorted[i].relativePath;
    }
  }

  datatype DiscoveredSkill = DiscoveredSkill(
    name: string,
    description: string,
    content: string,
    folderPath: string,
    tokenEstimate: nat,
    references: seq<DiscoveredReference>)

  /** One entry of the scanned folder: its name, whether it is a directory,
      its path, the text of its SKILL.md if there is one, and the markdown
      files under its `references/`. */
  datatype FolderEntry = FolderEntry(
    name: string,
    isDirectory: bool,
    folderPath: string,
    skillMd: Option<string>,
    refFiles: seq<RefFile>)

  /** The skill an entry yields: a directory with a SKILL.md that parses,
      the folder name serving as the fallback description. */
  function DiscoverSkill(e: FolderEntry): (r: Option<DiscoveredSkill>)
    ensures r.Some? <==> e.isDirectory && e.skillMd.Some? && ParseSkillMdInline(e.skillMd.value, e.name).Some?
  {
    if !e.isDirectory || e.skillMd.None? then None
    else
      match ParseSkillMdInline(e.skillMd.value, e.name)
      case None => None
      case Some(p) =>
        Some(DiscoveredSkill(p.skillName, p.skillDescription, p.content, e.folderPath,
          CeilQuarter(|p.content|), DiscoverReferences(e.refFiles)))
  }

  /** The skills of a folder, in entry order. */
  function ScanEntries(entries: seq<FolderEntry>): (r: seq<DiscoveredSkill>)
    ensures |r| <= |entries|
  {
    Collect(DiscoverSkill, entries)
  }

  /** Every reported skill comes from an entry that yields it. */
  lemma ScannedSkillSource(entries: seq<FolderEntry>, i: nat) returns (j: nat)
    requires i < |ScanEntries(entries)|
    ensures j < |entries| && DiscoverSkill(entries[j]) == Some(ScanEntries(entries)[i])
  {
    j := CollectSource(DiscoverSkill, entries, i);
  }

  /** Every entry that yields a skill is reported. */
  lemma ScannedSkillReported(entries: seq<FolderEntry>, j: nat)
    requires j < |entries| && DiscoverSkill(entries[j]).Some?
    ensures DiscoverSkill(entries[j]).value in ScanEntries(entries)
  {
    CollectComplete(DiscoverSkill, entries, j);
  }

  /** A reported skill has a name, its body as content, a token estimate of
      its content and its references in path order. */
  lemma ScannedSkillShape(e: FolderEntry)
    requires DiscoverSkill(e).Some?
    ensures var d := DiscoverSkill(e).value;
      && d.name != "" && d.folderPath == e.folderPath
      && 4 * d.tokenEstimate >= |d.content| && 4 * d.tokenEstimate < |d.content| + 4
      && SortedBy(d.references, DiscoveredKey) && |d.references| == |e.refFiles|
      && (e.name != "" ==> d.description != "")
  {
    DiscoverReferencesOrdered(e.refFiles);
  }

  datatype ScanResult = ScanResult(skills: seq<DiscoveredSkill>, error: Option<string>)

  const ScanDisabledMessage := "Skill folder scanning is disabled"

  /** `scanFolder`: refused when the feature is off or the folder is missing;
      otherwise the skills of its entries. */
  function ScanFolder(enabled: bool, targetPath: string, folderExists: bool, entries: seq<FolderEntry>): (r: ScanResult)
    ensures r.error.Some? <==> !enabled || !folderExists
    ensures r.error.Some? ==> r.skills == []
    ensures !enabled ==> r.error == Some(ScanDisabledMessage)
  {
    if !enabled then ScanResult([], Some(ScanDisabledMessage))
    else if !folderExists then ScanResult([], Some("Folder not found: " + targetPath))
    else ScanResult(ScanEntries(entries), None)
  }

  /** A reference as the client sends it back for import. */
  datatype ImportRef = ImportRef(filename: string, content: string, zone: string, relativePath: string)

  /** A skill as the client sends it back for import. */
  datatype ImportSkill = ImportSkill(
    content: string,
    skillName: string,
    skillDescription: Option<string>,
    folderPath: string,
    references: Option<seq<ImportRef>>)

  /** The skill block's metadata; scanned skills are always local. */
  datatype SkillInsert = SkillInsert(content: string, skillName: string, skillDescription: Option<string>, sourceRef: string)

  /** The mutation run for one skill. */
  datatype ImportCall =
    | WithReferences(skill: SkillInsert, refs: seq<ImportRef>)
    | SkillOnly(skill: SkillInsert)

  function RefsOf(s: ImportSkill): seq<ImportRef> {
    s.references.GetOr([])
  }

  function RefCount(s: ImportSkill): nat {
    |RefsOf(s)|
  }

  function CallFor(s: ImportSkill): ImportCall {
    var skill := SkillInsert(s.content, s.skillName, s.skillDescription, s.folderPath);
    if |RefsOf(s)| > 0 then WithReferences(skill, RefsOf(s)) else SkillOnly(skill)
  }

  /** The references a call imports. */
  function CallRefs(c: ImportCall): seq<ImportRef> {
    match c
    case WithReferences(_, refs) => refs
    case SkillOnly(_) => []
  }

  function CallRefCount(c: ImportCall): nat {
    |CallRefs(c)|
  }

  /** `importFromScan`: one mutation per skill, in order, and the counts it
      reports. */
  method ImportFromScan(skills: seq<ImportSkill>) returns (imported: nat, totalRefs: nat, calls: seq<ImportCall>)
    ensures imported == |skills| && |calls| == |skills|
    ensures forall i :: 0 <= i < |skills| ==>
      calls[i].skill.sourceRef == skills[i].folderPath && calls[i].skill.content == skills[i].content
      && calls[i].skill.skillName == skills[i].skillName
      && calls[i].skill.skillDescription == skills[i].skillDescription
      && (calls[i].WithReferences? <==> RefCount(skills[i]) > 0)
      && CallRefs(calls[i]) == RefsOf(skills[i])
    ensures totalRefs == Sum(MapSeq(RefCount, skills))
    ensures totalRefs == Sum(MapSeq(CallRefCount, calls))
  {
    imported, totalRefs, calls := 0, 0, [];
    var i := 0;
    while i < |skills|
      invariant 0 <= i <= |skills|
      invariant imported == i && |calls| == i
      invariant forall k :: 0 <= k < i ==> calls[k] == CallFor(skills[k])
      invariant totalRefs == Sum(MapSeq(RefCount, skills[..i]))
      invariant totalRefs == Sum(MapSeq(CallRefCount, calls))
    {
      var s := skills[i];
      var refs := RefsOf(s);
      var c := CallFor(s);
      if |refs| > 0 {
        totalRefs := totalRefs + |refs|;
      }
      assert skills[..i + 1] == skills[..i] + [s];
      SumMapAppend(RefCount, skills[..i], s);
      SumMapAppend(CallRefCount, calls, c);
      calls := calls + [c];
      imported := imported + 1;
      i := i + 1;
    }
    assert skills[..i] == skills;
  }
}
