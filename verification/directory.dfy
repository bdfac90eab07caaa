/** The skill directory parser (src/lib/skills/directoryParser.ts): finds the
    SKILL.md among a directory's files and collects the markdown files under
    `references/`, each placed in a zone by its sub-directory. */
module Directory {
  import opened Wrappers
  import opened Strings
  import opened Seqs
  import opened Sorting
  import opened Zones
  import opened SkillParser

  datatype ReferenceFile = ReferenceFile(filename: string, content: string, zone: Zone, relativePath: string)

  datatype ParsedSkillDirectory = ParsedSkillDirectory(skill: ParsedSkill, references: seq<ReferenceFile>)

  datatype DirectoryError = NoSkillMd | InvalidSkill(cause: SkillParseError)

  /** A file of the directory: its relative path and its text. The map the
      source iterates is given as its entries in insertion order. */
  type FileEntry = (string, string)

  const ReferencesDir: string := "references/"

  const PermanentPrefix: string := "references/permanent/"
  const WorkingPrefix: string := "references/working/"

  /** No path starts with both zone directories: they differ at index 11. */
  lemma ZonePrefixesExclusive(s: string)
    ensures !(StartsWith(s, PermanentPrefix) && StartsWith(s, WorkingPrefix))
  {
    if StartsWith(s, PermanentPrefix) {
      assert s[11] == PermanentPrefix[11] == 'p';
    }
  }

  /** `zoneFromPath`: the sub-directory of `references/`, compared without case,
      picks the zone; anything else is STABLE. */
  function ZoneFromPath(relativePath: string): (z: Zone)
    ensures z == Permanent <==> StartsWith(ToLower(relativePath), PermanentPrefix)
    ensures z == Working <==> StartsWith(ToLower(relativePath), WorkingPrefix)
  {
    var lower := ToLower(relativePath);
    ZonePrefixesExclusive(lower);
    if StartsWith(lower, PermanentPrefix) then Permanent
    else if StartsWith(lower, WorkingPrefix) then Working
    else Stable
  }

  /** A path beginning with an all-lower-case directory lower-cases to that
      directory followed by the rest lower-cased. */
  lemma LowerUnderDir(dir: string, name: string)
    requires NoUpper(dir)
    ensures StartsWith(ToLower(dir + name), dir)
  {
    ToLowerAppend(dir, name);
    ToLowerNoop(dir);
    assert (dir + ToLower(name))[..|dir|] == dir;
  }

  /** A file placed under the zone's own directory name comes back in that zone. */
  lemma ZoneFromPathOfDir(z: Zone, name: string)
    ensures ZoneFromPath(ReferencesDir + DirName(z) + "/" + name) == z
  {
    var dir := ReferencesDir + DirName(z) + "/";
    assert ReferencesDir + DirName(z) + "/" + name == dir + name;
    ZoneDirNoUpper(z);
    LowerUnderDir(dir, name);
    ZoneFromPathUnder(dir + name, z);
  }

  /** A path whose lower-cased form starts with a zone's directory is in that zone. */
  lemma ZoneFromPathUnder(path: string, z: Zone)
    requires StartsWith(ToLower(path), ReferencesDir + DirName(z) + "/")
    ensures ZoneFromPath(path) == z
  {
    var lower := ToLower(path);
    var dir := ReferencesDir + DirName(z) + "/";
    match z
    case Permanent =>
      assert dir == PermanentPrefix;
    case Working =>
      assert dir == WorkingPrefix;
    case Stable =>
      assert lower[11] == dir[11] == 's';
      assert !StartsWith(lower, PermanentPrefix) by {
        assert PermanentPrefix[11] == 'p';
      }
      assert !StartsWith(lower, WorkingPrefix) by {
        assert WorkingPrefix[11] == 'w';
      }
  }

  lemma ReferencesDirNoUpper()
    ensures NoUpper(ReferencesDir)
  {
  }

  /** A zone's directory under `references/` has no upper-case letter. */
  lemma ZoneDirNoUpper(z: Zone)
    ensures NoUpper(ReferencesDir + DirName(z) + "/")
  {
    ReferencesDirNoUpper();
    ToLowerNoUpper(ZoneName(z));
    NoUpperAppend(ReferencesDir, DirName(z));
    NoUpperAppend(ReferencesDir + DirName(z), "/");
  }

  /** `filenameFromPath`: the text after the last `/`. */
  function FilenameFromPath(filePath: string): (r: string)
    ensures '/' !in r && EndsWith(filePath, r)
    ensures |r| < |filePath| ==> filePath[|filePath| - |r| - 1] == '/'
  {
    LastSegment(filePath, '/')
  }

  /** A SKILL.md candidate: its last segment is `skill.md` in any case, and the
      path nowhere contains `references/` (compared with case). */
  predicate IsSkillMdPath(path: string) {
    ToLower(FilenameFromPath(path)) == "skill.md" && !Contains(path, ReferencesDir)
  }

  function IsSkillMdEntry(): FileEntry -> bool {
    (e: FileEntry) => IsSkillMdPath(e.0)
  }

  /** The first candidate in iteration order, if any. */
  function FindSkillMd(files: seq<FileEntry>): (r: Option<nat>)
    ensures r.Some? ==> r.value < |files| && IsSkillMdPath(files[r.value].0)
    ensures r.Some? ==> forall j :: 0 <= j < r.value ==> !IsSkillMdPath(files[j].0)
    ensures r.None? <==> forall j :: 0 <= j < |files| ==> !IsSkillMdPath(files[j].0)
  {
    if exists k :: 0 <= k < |files| && IsSkillMdEntry()(files[k]) then
      Some(FirstIndex(files, IsSkillMdEntry()))
    else
      None
  }

  /** A candidate at the head of the files is the one found. */
  lemma FindSkillMdAtHead(files: seq<FileEntry>)
    requires |files| > 0 && IsSkillMdPath(files[0].0)
    ensures FindSkillMd(files) == Some(0)
  {
    var head := files[0].0;
    var r := FindSkillMd(files);
    assert r.Some?;
    assert 0 < r.value ==> !IsSkillMdPath(head);
  }

  /** A reference file: not the SKILL.md itself, under `references/` and
      ending in `.md`, both compared without case. */
  predicate IsReferencePath(path: string, skillMdKey: string) {
    path != skillMdKey && StartsWith(ToLower(path), ReferencesDir) && EndsWith(ToLower(path), ".md")
  }

  function IsReferenceEntry(skillMdKey: string): FileEntry -> bool {
    (e: FileEntry) => IsReferencePath(e.0, skillMdKey)
  }

  function ToReference(e: FileEntry): ReferenceFile {
    ReferenceFile(FilenameFromPath(e.0), e.1, ZoneFromPath(e.0), e.0)
  }

  function PathKey(r: ReferenceFile): Key {
    TextKey(r.relativePath)
  }

  /** The reference files in iteration order. */
  function CollectReferences(files: seq<FileEntry>, skillMdKey: string): seq<ReferenceFile> {
    MapSeq(ToReference, Filter(files, IsReferenceEntry(skillMdKey)))
  }

  /** The reference files ordered by relative path. */
  function SortedReferences(files: seq<FileEntry>, skillMdKey: string): (r: seq<ReferenceFile>)
    ensures SortedBy(r, PathKey)
    ensures multiset(r) == multiset(CollectReferences(files, skillMdKey))
  {
    SortBySorted(CollectReferences(files, skillMdKey), PathKey);
    SortBy(CollectReferences(files, skillMdKey), PathKey)
  }

  /** Every reference is described by its own path: the path qualifies, the
      file name is its last segment, the zone comes from its directory, and
      path and text are those of a file of the directory. */
  lemma CollectedReferencesQualify(files: seq<FileEntry>, skillMdKey: string, i: nat)
    requires i < |CollectReferences(files, skillMdKey)|
    ensures var r := CollectReferences(files, skillMdKey)[i];
      IsReferencePath(r.relativePath, skillMdKey)
      && r.filename == FilenameFromPath(r.relativePath) && r.zone == ZoneFromPath(r.relativePath)
      && (r.relativePath, r.content) in files
  {
    var f := Filter(files, IsReferenceEntry(skillMdKey));
    FilterMembers(files, IsReferenceEntry(skillMdKey));
    assert IsReferenceEntry(skillMdKey)(f[i]) && f[i] in files;
    assert (f[i].0, f[i].1) == f[i];
  }

  /** Every qualifying file of the directory is among the references. */
  lemma QualifyingFilesCollected(files: seq<FileEntry>, skillMdKey: string, j: nat)
    requires j < |files| && IsReferencePath(files[j].0, skillMdKey)
    ensures ToReference(files[j]) in CollectReferences(files, skillMdKey)
  {
    var f := Filter(files, IsReferenceEntry(skillMdKey));
    FilterMembers(files, IsReferenceEntry(skillMdKey));
    assert IsReferenceEntry(skillMdKey)(files[j]);
    var i :| 0 <= i < |f| && f[i] == files[j];
    assert CollectReferences(files, skillMdKey)[i] == ToReference(files[j]);
  }

  /** The order references are listed in does not depend on the order the
      directory's files were iterated: paths of a directory are distinct. */
  lemma ReferencesIgnoreFileOrder(a: seq<FileEntry>, b: seq<FileEntry>, skillMdKey: string)
    requires multiset(a) == multiset(b)
    requires forall i, j :: 0 <= i < j < |a| ==> a[i].0 != a[j].0
    ensures SortedReferences(a, skillMdKey) == SortedReferences(b, skillMdKey)
  {
    var p := IsReferenceEntry(skillMdKey);
    FilterPermutation(a, b, p);
    MapSeqPermutation(ToReference, Filter(a, p), Filter(b, p));
    var ca := CollectReferences(a, skillMdKey);
    var sa := SortedReferences(a, skillMdKey);
    var fa := Filter(a, p);
    assert DistinctKeys(ca, PathKey) by {
      forall i, j | 0 <= i < j < |ca|
        ensures PathKey(ca[i]) != PathKey(ca[j])
      {
        DistinctPathsFiltered(a, p, i, j);
        if PathKey(ca[i]) == PathKey(ca[j]) {
          TextKeyInjective(fa[i].0, fa[j].0);
        }
      }
    }
    DistinctKeysPermutation(ca, sa, PathKey);
    SortedUnique(sa, SortedReferences(b, skillMdKey), PathKey);
  }

  /** Filtering keeps distinct paths distinct. */
  lemma {:induction false} DistinctPathsFiltered(s: seq<FileEntry>, p: FileEntry -> bool, i: nat, j: nat)
    requires forall x, y :: 0 <= x < y < |s| ==> s[x].0 != s[y].0
    requires i < j < |Filter(s, p)|
    ensures Filter(s, p)[i].0 != Filter(s, p)[j].0
    decreases |s|
  {
    var s' := s[..|s| - 1];
    var f' := Filter(s', p);
    assert forall x :: 0 <= x < |s'| ==> s'[x] == s[x];
    if j < |f'| {
      DistinctPathsFiltered(s', p, i, j);
    } else {
      FilterMembers(s', p);
      var x :| 0 <= x < |s'| && s'[x] == f'[i];
    }
  }

  /** `parseSkillDirectory`: the first SKILL.md candidate must have non-empty
      text, which is parsed with the fallback name; the references are the
      qualifying files ordered by relative path. */
  function ParseSkillDirectory(files: seq<FileEntry>, fallbackName: Option<string>): (r: Result<ParsedSkillDirectory, DirectoryError>)
    ensures r == Failure(NoSkillMd) <==>
      FindSkillMd(files).None? || files[FindSkillMd(files).value].1 == ""
    ensures r.Success? ==>
      var i := FindSkillMd(files).value;
      Success(r.value.skill) == ParseSkillMd(files[i].1, fallbackName)
      && SortedBy(r.value.references, PathKey)
      && multiset(r.value.references) == multiset(CollectReferences(files, files[i].0))
    ensures r.Failure? && r.error.InvalidSkill? ==>
      ParseSkillMd(files[FindSkillMd(files).value].1, fallbackName) == Failure(r.error.cause)
  {
    match FindSkillMd(files)
    case None => Failure(NoSkillMd)
    case Some(i) =>
      if files[i].1 == "" then Failure(NoSkillMd)
      else
        match ParseSkillMd(files[i].1, fallbackName)
        case Failure(e) => Failure(InvalidSkill(e))
        case Success(skill) => Success(ParsedSkillDirectory(skill, SortedReferences(files, files[i].0)))
  }
}
