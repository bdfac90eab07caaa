/** The project export (`exportProjectAsZip`, `blockCount` and `isReady` in
    src/hooks/useSkillExport.ts): one SKILL.md for the whole project, every
    non-skill block of every step written once under `references/<zone>/`,
    and a context map in which each step is a context that depends on the
    step before it. */
module ProjectExport {
  import opened Wrappers
  import opened Strings
  import opened Seqs
  import opened Zones
  import opened Titles
  import opened Directory
  import opened ExportData
  import opened SkillExport
  import opened SkillImport
  import opened ContextMap

  /** A block whose lower-cased zone is not one of the three: the step has no
      list under that name and the push throws. */
  datatype ProjectExportError = ZoneNotListed(zone: string)

  /** `block.zone.toLowerCase()` as a key of the step's path lists. */
  function ZoneKey(zone: string): (r: Result<Zone, ProjectExportError>)
    ensures r.Success? ==> DirName(r.value) == ToLower(zone)
    ensures r.Failure? <==> forall z :: DirName(z) != ToLower(zone)
    ensures r.Failure? ==> r.error == ZoneNotListed(zone)
  {
    var key := ToLower(zone);
    if key == DirName(Permanent) then Success(Permanent)
    else if key == DirName(Stable) then Success(Stable)
    else if key == DirName(Working) then Success(Working)
    else Failure(ZoneNotListed(zone))
  }

  /** A stored zone name is its own key. */
  lemma ZoneKeyOfZone(z: Zone)
    ensures ZoneKey(ZoneName(z)) == Success(z)
  {
    assert DirName(z) == ToLower(ZoneName(z));
    match z
    case Permanent =>
    case Stable =>
    case Working =>
  }

  /** The paths one step lists, zone by zone. */
  datatype StepPaths = StepPaths(permanent: seq<string>, stable: seq<string>, working: seq<string>)

  const NoPaths: StepPaths := StepPaths([], [], [])

  function ZonePaths(p: StepPaths, z: Zone): seq<string> {
    match z
    case Permanent => p.permanent
    case Stable => p.stable
    case Working => p.working
  }

  /** `stepPaths[zoneKey].push(path)`: the path goes last in its zone's list
      and the other lists stay as they were. */
  function Push(p: StepPaths, z: Zone, path: string): (r: StepPaths)
    ensures ZonePaths(r, z) == ZonePaths(p, z) + [path]
    ensures forall y :: y != z ==> ZonePaths(r, y) == ZonePaths(p, y)
  {
    match z
    case Permanent => p.(permanent := p.permanent + [path])
    case Stable => p.(stable := p.stable + [path])
    case Working => p.(working := p.working + [path])
  }

  /** Every path a step lists, zone by zone. */
  function Listed(p: StepPaths): seq<string> {
    p.permanent + p.stable + p.working
  }

  /** What the export has written so far: the archive, the path each content
      was first written under, and the file names taken. */
  datatype Written = Written(zip: Zip, contentToPath: map<string, string>, used: set<string>)

  /** `if (existing)`: the content was written before, under a non-empty path. */
  predicate Seen(w: Written, content: string) {
    content in w.contentToPath && w.contentToPath[content] != ""
  }

  /** One non-skill block, at index `i` among its step's non-skill blocks: a
      content written before is only listed again, under its first path;
      a new one gets a fresh name under its zone's directory, is written,
      remembered and listed. */
  function ExportBlockTo(w: Written, paths: StepPaths, b: ExportBlock, i: nat, now: nat): (r: Result<(Written, StepPaths), ProjectExportError>)
    ensures r.Success? <==> ZoneKey(b.zone).Success?
    ensures r.Failure? ==> r.error == ZoneNotListed(b.zone)
    ensures r.Success? && Seen(w, b.content) ==> r.value.0 == w
    ensures r.Success? && !Seen(w, b.content) ==> b.content in r.value.0.contentToPath && |r.value.0.zip| <= |w.zip| + 1
  {
    var z :- ZoneKey(b.zone);
    if Seen(w, b.content) then Success((w, Push(paths, z, w.contentToPath[b.content])))
    else
      var filename := UniqueFilename(BaseName(b, i), MdExt, w.used, now);
      var path := ExportPath(DirName(z), filename);
      Success((Written(ZipPut(w.zip, path, b.content), w.contentToPath[b.content := path], w.used + {filename}),
        Push(paths, z, path)))
  }

  /** Every block's zone has a list. */
  predicate BlocksListed(blocks: seq<ExportBlock>) {
    forall k :: 0 <= k < |blocks| ==> ZoneKey(blocks[k].zone).Success?
  }

  lemma BlocksListedStep(blocks: seq<ExportBlock>)
    requires |blocks| > 0
    ensures var n := |blocks| - 1;
      BlocksListed(blocks) <==> BlocksListed(blocks[..n]) && ZoneKey(blocks[n].zone).Success?
  {
    var n := |blocks| - 1;
    if BlocksListed(blocks[..n]) && ZoneKey(blocks[n].zone).Success? {
      forall k | 0 <= k < |blocks|
        ensures ZoneKey(blocks[k].zone).Success?
      {
        if k < n {
          assert blocks[..n][k] == blocks[k];
        }
      }
    }
    if BlocksListed(blocks) {
      forall k | 0 <= k < n
        ensures ZoneKey(blocks[..n][k].zone).Success?
      {
        assert blocks[..n][k] == blocks[k];
      }
    }
  }

  /** The loop over one step's non-skill blocks, starting from no paths. It
      fails exactly when some block's zone has no list. */
  function ExportStepBlocks(w: Written, blocks: seq<ExportBlock>, now: nat): (r: Result<(Written, StepPaths), ProjectExportError>)
    ensures r.Success? <==> BlocksListed(blocks)
    ensures r.Failure? ==> ZoneKey(r.error.zone).Failure?
    decreases |blocks|
  {
    if |blocks| == 0 then Success((w, NoPaths))
    else
      var n := |blocks| - 1;
      BlocksListedStep(blocks);
      match ExportStepBlocks(w, blocks[..n], now)
      case Failure(e) => Failure(e)
      case Success(acc) => ExportBlockTo(acc.0, acc.1, blocks[n], n, now)
  }

  /** What the export keeps of one step: its name and the paths it lists. */
  datatype StepRecord = StepRecord(stepName: string, paths: StepPaths)

  /** Decimal rendering of an integer, with a leading `-` when it is negative. */
  function IntToString(n: int): (r: string)
    ensures |r| >= 1
  {
    if n < 0 then "-" + NatToString(-n) else NatToString(n)
  }

  /** `step.session.name || \`Step ${stepNumber + 1}\``. */
  function StepName(s: StepExport): (r: string)
    ensures r != ""
    ensures s.name != "" ==> r == s.name
    ensures s.name == "" ==> StartsWith(r, "Step ")
  {
    if s.name != "" then s.name else "Step " + IntToString(s.stepNumber + 1)
  }

  function NonSkillBlocks(s: StepExport): seq<ExportBlock> {
    Filter(s.blocks, IsOtherBlock)
  }

  /** Every non-skill block of every step has a zone with a list. */
  predicate ZonesListed(steps: seq<StepExport>) {
    forall j :: 0 <= j < |steps| ==> BlocksListed(NonSkillBlocks(steps[j]))
  }

  lemma ZonesListedStep(steps: seq<StepExport>)
    requires |steps| > 0
    ensures var n := |steps| - 1;
      ZonesListed(steps) <==> ZonesListed(steps[..n]) && BlocksListed(NonSkillBlocks(steps[n]))
  {
    var n := |steps| - 1;
    if ZonesListed(steps[..n]) && BlocksListed(NonSkillBlocks(steps[n])) {
      forall j | 0 <= j < |steps|
        ensures BlocksListed(NonSkillBlocks(steps[j]))
      {
        if j < n {
          assert steps[..n][j] == steps[j];
        }
      }
    }
    if ZonesListed(steps) {
      forall j | 0 <= j < n
        ensures BlocksListed(NonSkillBlocks(steps[..n][j]))
      {
        assert steps[..n][j] == steps[j];
      }
    }
  }

  /** One record per step, in order, under the step's name. */
  predicate NamedAfter(recs: seq<StepRecord>, steps: seq<StepExport>) {
    |recs| == |steps| && forall j :: 0 <= j < |steps| ==> recs[j].stepName == StepName(steps[j])
  }

  lemma NamedAfterAppend(recs: seq<StepRecord>, steps: seq<StepExport>, rec: StepRecord)
    requires |steps| > 0 && NamedAfter(recs, steps[..|steps| - 1])
    requires rec.stepName == StepName(steps[|steps| - 1])
    ensures NamedAfter(recs + [rec], steps)
  {
    var n := |steps| - 1;
    forall j | 0 <= j < |steps|
      ensures (recs + [rec])[j].stepName == StepName(steps[j])
    {
      if j < n {
        assert steps[..n][j] == steps[j];
      }
    }
  }

  /** The loop over the steps: each step's blocks, then its record. It fails
      exactly when some block of some step has a zone without a list, and
      otherwise records every step, in order, under its name. */
  function ExportSteps(w: Written, steps: seq<StepExport>, now: nat): (r: Result<(Written, seq<StepRecord>), ProjectExportError>)
    ensures r.Success? <==> ZonesListed(steps)
    ensures r.Success? ==> NamedAfter(r.value.1, steps)
    decreases |steps|
  {
    if |steps| == 0 then Success((w, []))
    else
      var n := |steps| - 1;
      ZonesListedStep(steps);
      match ExportSteps(w, steps[..n], now)
      case Failure(e) => Failure(e)
      case Success(acc) =>
        match ExportStepBlocks(acc.0, NonSkillBlocks(steps[n]), now)
        case Failure(e) => Failure(e)
        case Success(step) =>
          var rec := StepRecord(StepName(steps[n]), step.1);
          NamedAfterAppend(acc.1, steps, rec);
          Success((step.0, acc.1 + [rec]))
  }

  /** Every step's skill blocks, step after step. There are none exactly
      when no step has one. */
  function AllSkillBlocks(steps: seq<StepExport>): (r: seq<ExportBlock>)
    ensures |r| == 0 <==> forall j :: 0 <= j < |steps| ==> |Filter(steps[j].blocks, IsSkillBlock)| == 0
    decreases |steps|
  {
    if |steps| == 0 then []
    else
      var n := |steps| - 1;
      assert forall k :: 0 <= k < n ==> steps[..n][k] == steps[k];
      AllSkillBlocks(steps[..n]) + Filter(steps[n].blocks, IsSkillBlock)
  }

  /** `project.name || "Exported Project"`. */
  function ProjectSkillName(project: ProjectInfo): (r: string)
    ensures r != ""
  {
    if project.name != "" then project.name else "Exported Project"
  }

  /** The sanitised project name, or `project-export` when it has none. */
  function ProjectZipStem(project: ProjectInfo): string {
    SanitizeFilename(if project.name != "" then project.name else "project-export")
  }

  /** The download name: the stem with `.zip` appended. */
  function ProjectZipName(project: ProjectInfo): (r: string)
    ensures IsZipName(r)
  {
    assert ToLower(ZipExt) == ZipExt;
    RouteZipName(ProjectZipStem(project), ZipExt);
    ProjectZipStem(project) + ZipExt
  }

  const ContextMapPath: string := "context-map.yaml"

  /** A project package: the archive's files other than the context map,
      the context map as the document written to `context-map.yaml`, and
      the download name. */
  datatype ProjectPackage = ProjectPackage(files: Zip, contextMap: Yaml, fileName: string)

  /** The archive before the references: SKILL.md alone. */
  function StartWritten(steps: seq<StepExport>, project: ProjectInfo): Written {
    Written([(SkillMdPath, GenerateSkillMd(AllSkillBlocks(steps), ProjectSkillName(project)))], map[], {})
  }

  /** SKILL.md and the references of every step, with what each step lists. */
  function ExportProjectFiles(data: ProjectExport, now: nat): (r: Result<(Zip, seq<StepRecord>), ProjectExportError>)
    ensures r.Success? <==> ZonesListed(data.steps)
    ensures r.Success? ==> NamedAfter(r.value.1, data.steps)
  {
    var acc :- ExportSteps(StartWritten(data.steps, data.project), data.steps, now);
    Success((acc.0.zip, acc.1))
  }

  /** A list of paths as a YAML sequence of strings. */
  function StringList(paths: seq<string>): Yaml {
    YList(MapSeq((p: string) => YStr(p), paths))
  }

  /** A zone's entry, present only when the step lists something there. */
  function ZoneEntry(key: string, paths: seq<string>): seq<(string, Yaml)> {
    if |paths| > 0 then [(key, StringList(paths))] else []
  }

  /** The `depends_on` entry, present for every step after the first. */
  function DependsEntry(dep: Option<string>): seq<(string, Yaml)> {
    match dep
    case Some(d) => [("depends_on", StringList([d]))]
    case None => []
  }

  /** The context written for one step. */
  function ContextValue(rec: StepRecord, dep: Option<string>): Yaml {
    YMap([("label", YStr(rec.stepName))]
      + ZoneEntry("permanent", rec.paths.permanent)
      + ZoneEntry("stable", rec.paths.stable)
      + ZoneEntry("working", rec.paths.working)
      + DependsEntry(dep))
  }

  /** The first place `key` sits among the entries. */
  function KeyIndex(g: Contexts, key: string): (r: Option<nat>)
    ensures r.Some? ==> r.value < |g| && g[r.value].0 == key
    ensures r.Some? ==> forall j :: 0 <= j < r.value ==> g[j].0 != key
    ensures r.None? <==> key !in KeySet(g)
    decreases |g|
  {
    if |g| == 0 then None
    else if g[0].0 == key then Some(0)
    else
      assert forall j :: 1 <= j < |g| ==> g[j] == g[1..][j - 1];
      match KeyIndex(g[1..], key)
      case None => None
      case Some(i) => Some(i + 1)
  }

  /** `contexts[key] = value`: a key already present keeps its place and
      takes the new value; a new key goes last. */
  function SetKey(g: Contexts, key: string, v: Yaml): (r: Contexts)
    ensures key !in KeySet(g) ==> r == g + [(key, v)]
    ensures key in KeySet(g) ==> r == g[KeyIndex(g, key).value := (key, v)]
  {
    match KeyIndex(g, key)
    case Some(i) => g[i := (key, v)]
    case None => g + [(key, v)]
  }

  /** The dependency of the `i`-th step: the key of the step before it. */
  function DepOn(keys: seq<string>, i: nat): Option<string>
    requires i < |keys|
  {
    if i > 0 then Some(keys[i - 1]) else None
  }

  /** The `contexts` mapping, each step set under its key in turn. */
  function ContextEntries(recs: seq<StepRecord>, keys: seq<string>): (g: Contexts)
    requires |keys| == |recs|
    decreases |recs|
  {
    if |recs| == 0 then []
    else
      var n := |recs| - 1;
      SetKey(ContextEntries(recs[..n], keys[..n]), keys[n], ContextValue(recs[n], DepOn(keys, n)))
  }

  /** The whole document: `{ contexts: {...} }`. */
  function ContextMapDocument(recs: seq<StepRecord>, keys: seq<string>): Yaml
    requires |keys| == |recs|
  {
    YMap([("contexts", YMap(ContextEntries(recs, keys)))])
  }

  /** The keys as written: `sanitizeFilename(stepName)`. The `|| step-N`
      fallback never applies, as a sanitised name is never empty. */
  function SanitizedKeys(recs: seq<StepRecord>): (keys: seq<string>)
    ensures |keys| == |recs|
    ensures forall i :: 0 <= i < |recs| ==> keys[i] == SanitizeFilename(recs[i].stepName)
  {
    MapSeq((rec: StepRecord) => SanitizeFilename(rec.stepName), recs)
  }

  /** The export as written. */
  function ExportProjectAsWritten(data: ProjectExport, now: nat): (r: Result<ProjectPackage, ProjectExportError>)
    ensures r.Success? <==> ZonesListed(data.steps)
  {
    var out :- ExportProjectFiles(data, now);
    Success(ProjectPackage(out.0, ContextMapDocument(out.1, SanitizedKeys(out.1)), ProjectZipName(data.project)))
  }

  /** Files already in archive `a` read the same in archive `b`. */
  predicate Keeps(a: Zip, b: Zip) {
    forall q :: q in PathSet(a) ==> ZipGet(b, q) == ZipGet(a, q)
  }

  lemma KeepsTrans(a: Zip, b: Zip, c: Zip)
    requires Keeps(a, b) && Keeps(b, c)
    ensures Keeps(a, c)
  {
    forall q | q in PathSet(a)
      ensures ZipGet(c, q) == ZipGet(a, q)
    {
      assert ZipGet(b, q) == ZipGet(a, q);
      assert q in PathSet(b);
    }
  }

  /** The listed paths, read from the archive, give the contents in order. */
  predicate ReadsAs(zip: Zip, paths: seq<string>, contents: seq<string>) {
    |paths| == |contents| && forall i :: 0 <= i < |paths| ==> ZipGet(zip, paths[i]) == Some(contents[i])
  }

  lemma ReadsAsKept(a: Zip, b: Zip, paths: seq<string>, contents: seq<string>)
    requires ReadsAs(a, paths, contents) && Keeps(a, b)
    ensures ReadsAs(b, paths, contents)
  {
    forall i | 0 <= i < |paths|
      ensures ZipGet(b, paths[i]) == Some(contents[i])
    {
      assert paths[i] in PathSet(a);
    }
  }

  lemma ReadsAsPush(zip: Zip, paths: seq<string>, contents: seq<string>, p: string, c: string)
    requires ReadsAs(zip, paths, contents) && ZipGet(zip, p) == Some(c)
    ensures ReadsAs(zip, paths + [p], contents + [c])
  {
  }

  /** What the export has written hangs together: paths are distinct, every
      remembered content is stored under its path, and every reference file
      is named by a taken file name. */
  predicate Consistent(w: Written) {
    && DistinctPaths(w.zip)
    && (forall c :: c in w.contentToPath ==> ZipGet(w.zip, w.contentToPath[c]) == Some(c))
    && (forall p :: p in PathSet(w.zip) && p != SkillMdPath ==> LastSegment(p, '/') in w.used)
  }

  /** A path built from a file name not yet taken is not in the archive. */
  lemma FreshPath(w: Written, z: Zone, filename: string)
    requires Consistent(w) && filename !in w.used && '/' !in filename
    ensures ExportPath(DirName(z), filename) !in PathSet(w.zip)
  {
    var path := ExportPath(DirName(z), filename);
    ExportPathName(DirName(z), filename);
    assert path[0] == 'r' && SkillMdPath[0] == 'S';
  }

  /** A chosen file name has no `/`. */
  lemma PickedNameFlat(b: ExportBlock, i: nat, used: set<string>, now: nat)
    ensures '/' !in UniqueFilename(BaseName(b, i), MdExt, used, now)
  {
    var base := BaseName(b, i);
    var mid := UniqueFilenameShape(base, MdExt, used, now);
    NameShape(base, mid, UniqueFilename(base, MdExt, used, now));
  }

  /** Writing a new content at a fresh path keeps the export consistent and
      every earlier file as it was. */
  lemma WriteFresh(w: Written, content: string, path: string, filename: string)
    requires Consistent(w) && path !in PathSet(w.zip) && path != SkillMdPath
    requires LastSegment(path, '/') == filename
    ensures var w' := Written(ZipPut(w.zip, path, content), w.contentToPath[content := path], w.used + {filename});
      Consistent(w') && Keeps(w.zip, w'.zip) && ZipGet(w'.zip, path) == Some(content)
  {
    var zip' := ZipPut(w.zip, path, content);
    var w' := Written(zip', w.contentToPath[content := path], w.used + {filename});
    ZipPutGet(w.zip, path, content, path);
    forall q | q in PathSet(w.zip)
      ensures ZipGet(zip', q) == ZipGet(w.zip, q)
    {
      ZipPutGet(w.zip, path, content, q);
    }
    forall c | c in w'.contentToPath
      ensures ZipGet(zip', w'.contentToPath[c]) == Some(c)
    {
      if c != content {
        assert ZipGet(w.zip, w.contentToPath[c]) == Some(c);
        assert w.contentToPath[c] in PathSet(w.zip);
      }
    }
    forall p | p in PathSet(zip') && p != SkillMdPath
      ensures LastSegment(p, '/') in w'.used
    {
      assert p == path || p in PathSet(w.zip);
    }
  }

  /** Exporting one block of a listed zone, with fewer than 1000 names taken:
      the block's content is readable under the path pushed to its zone, and
      nothing written before changes. */
  lemma ExportBlockKeeps(w: Written, paths: StepPaths, b: ExportBlock, i: nat, now: nat) returns (z: Zone, p: string)
    requires Consistent(w) && |w.used| < MaxCandidates && ZoneKey(b.zone).Success?
    ensures z == ZoneKey(b.zone).value
    ensures var r := ExportBlockTo(w, paths, b, i, now).value;
      && Consistent(r.0) && |r.0.used| <= |w.used| + 1 && Keeps(w.zip, r.0.zip)
      && r.1 == Push(paths, z, p) && ZipGet(r.0.zip, p) == Some(b.content)
  {
    z := ZoneKey(b.zone).value;
    if Seen(w, b.content) {
      p := w.contentToPath[b.content];
    } else {
      var filename := UniqueFilename(BaseName(b, i), MdExt, w.used, now);
      UniqueFilenameFresh(BaseName(b, i), MdExt, w.used, now);
      PickedNameFlat(b, i, w.used, now);
      p := ExportPath(DirName(z), filename);
      FreshPath(w, z, filename);
      ExportPathName(DirName(z), filename);
      assert p[0] == 'r';
      WriteFresh(w, b.content, p, filename);
    }
  }

  /** The contents of the blocks in zone `z`, in order. */
  function ZoneContents(blocks: seq<ExportBlock>, z: Zone): seq<string>
    decreases |blocks|
  {
    if |blocks| == 0 then []
    else
      var n := |blocks| - 1;
      ZoneContents(blocks[..n], z) + (if ZoneKey(blocks[n].zone) == Success(z) then [blocks[n].content] else [])
  }

  /** Each zone's list, read from the archive, gives that zone's blocks'
      contents in order. */
  predicate ReadsZones(zip: Zip, paths: StepPaths, blocks: seq<ExportBlock>) {
    forall z :: ReadsAs(zip, ZonePaths(paths, z), ZoneContents(blocks, z))
  }

  lemma ReadsZonesKept(a: Zip, b: Zip, paths: StepPaths, blocks: seq<ExportBlock>)
    requires ReadsZones(a, paths, blocks) && Keeps(a, b)
    ensures ReadsZones(b, paths, blocks)
  {
    forall z
      ensures ReadsAs(b, ZonePaths(paths, z), ZoneContents(blocks, z))
    {
      ReadsAsKept(a, b, ZonePaths(paths, z), ZoneContents(blocks, z));
    }
  }

  /** One step's blocks, with at most 1000 names taken and to take: every
      zone list reads back as the zone's blocks, and nothing written before
      changes. */
  lemma {:induction false} StepBlocksRead(w: Written, blocks: seq<ExportBlock>, now: nat)
    requires Consistent(w) && |w.used| + |blocks| <= MaxCandidates && BlocksListed(blocks)
    ensures var r := ExportStepBlocks(w, blocks, now).value;
      && Consistent(r.0) && |r.0.used| <= |w.used| + |blocks| && Keeps(w.zip, r.0.zip)
      && ReadsZones(r.0.zip, r.1, blocks)
    decreases |blocks|
  {
    if |blocks| == 0 {
      forall z
        ensures ReadsAs(w.zip, ZonePaths(NoPaths, z), ZoneContents(blocks, z))
      {
        assert ZonePaths(NoPaths, z) == [];
      }
    } else {
      var n := |blocks| - 1;
      BlocksListedStep(blocks);
      StepBlocksRead(w, blocks[..n], now);
      var acc := ExportStepBlocks(w, blocks[..n], now).value;
      var z, p := ExportBlockKeeps(acc.0, acc.1, blocks[n], n, now);
      var r := ExportBlockTo(acc.0, acc.1, blocks[n], n, now).value;
      assert r == ExportStepBlocks(w, blocks, now).value;
      KeepsTrans(w.zip, acc.0.zip, r.0.zip);
      ReadsZonesKept(acc.0.zip, r.0.zip, acc.1, blocks[..n]);
      forall y
        ensures ReadsAs(r.0.zip, ZonePaths(r.1, y), ZoneContents(blocks, y))
      {
        if y == z {
          ReadsAsPush(r.0.zip, ZonePaths(acc.1, y), ZoneContents(blocks[..n], y), p, blocks[n].content);
        }
      }
    }
  }

  /** How many non-skill blocks the steps hold together. */
  function NonSkillCount(steps: seq<StepExport>): nat
    decreases |steps|
  {
    if |steps| == 0 then 0
    else NonSkillCount(steps[..|steps| - 1]) + |NonSkillBlocks(steps[|steps| - 1])|
  }

  /** Every step's zone lists read back as that step's blocks. */
  predicate StepsReadAs(zip: Zip, steps: seq<StepExport>, recs: seq<StepRecord>) {
    |recs| == |steps| && forall j :: 0 <= j < |steps| ==> ReadsZones(zip, recs[j].paths, NonSkillBlocks(steps[j]))
  }

  /** The last step of the loop over the steps. */
  lemma ExportStepsLast(w: Written, steps: seq<StepExport>, now: nat)
    requires |steps| > 0 && ZonesListed(steps)
    ensures var n := |steps| - 1;
      && ZonesListed(steps[..n]) && BlocksListed(NonSkillBlocks(steps[n]))
      && var acc := ExportSteps(w, steps[..n], now).value;
      var step := ExportStepBlocks(acc.0, NonSkillBlocks(steps[n]), now).value;
      ExportSteps(w, steps, now).value == (step.0, acc.1 + [StepRecord(StepName(steps[n]), step.1)])
  {
    ZonesListedStep(steps);
  }

  lemma StepsReadExtend(a: Zip, b: Zip, steps: seq<StepExport>, recs: seq<StepRecord>, last: StepRecord)
    requires |steps| > 0 && StepsReadAs(a, steps[..|steps| - 1], recs) && Keeps(a, b)
    requires ReadsZones(b, last.paths, NonSkillBlocks(steps[|steps| - 1]))
    ensures StepsReadAs(b, steps, recs + [last])
  {
    var n := |steps| - 1;
    var recs' := recs + [last];
    forall j | 0 <= j < |steps|
      ensures ReadsZones(b, recs'[j].paths, NonSkillBlocks(steps[j]))
    {
      if j < n {
        StepReadKept(a, b, steps[..n], recs, j);
        assert steps[..n][j] == steps[j] && recs'[j] == recs[j];
      } else {
        assert recs'[j] == last;
      }
    }
  }

  lemma StepReadKept(a: Zip, b: Zip, steps: seq<StepExport>, recs: seq<StepRecord>, j: nat)
    requires StepsReadAs(a, steps, recs) && Keeps(a, b) && j < |steps|
    ensures ReadsZones(b, recs[j].paths, NonSkillBlocks(steps[j]))
  {
    ReadsZonesKept(a, b, recs[j].paths, NonSkillBlocks(steps[j]));
  }

  /** All steps, with at most 1000 names taken and to take. */
  lemma {:induction false} StepsRead(w: Written, steps: seq<StepExport>, now: nat)
    requires Consistent(w) && |w.used| + NonSkillCount(steps) <= MaxCandidates && ZonesListed(steps)
    ensures var r := ExportSteps(w, steps, now).value;
      && Consistent(r.0) && |r.0.used| <= |w.used| + NonSkillCount(steps) && Keeps(w.zip, r.0.zip)
      && StepsReadAs(r.0.zip, steps, r.1)
    decreases |steps|
  {
    if |steps| > 0 {
      var n := |steps| - 1;
      ExportStepsLast(w, steps, now);
      StepsRead(w, steps[..n], now);
      var acc := ExportSteps(w, steps[..n], now).value;
      StepBlocksRead(acc.0, NonSkillBlocks(steps[n]), now);
      var step := ExportStepBlocks(acc.0, NonSkillBlocks(steps[n]), now).value;
      KeepsTrans(w.zip, acc.0.zip, step.0.zip);
      StepsReadExtend(acc.0.zip, step.0.zip, steps, acc.1, StepRecord(StepName(steps[n]), step.1));
    }
  }

  /** With every zone listed and at most 1000 non-skill blocks in all, the
      project's archive holds SKILL.md from the first skill block found (or
      the project's defaults), its paths are distinct, and every step's zone
      lists read back, in order, as the contents of that step's blocks of the
      zone: a content shared by several blocks is written once and listed
      wherever it occurs. */
  lemma ExportProjectContents(data: ProjectExport, now: nat)
    requires ZonesListed(data.steps) && NonSkillCount(data.steps) <= MaxCandidates
    ensures var out := ExportProjectFiles(data, now).value;
      && DistinctPaths(out.0)
      && ZipGet(out.0, SkillMdPath) == Some(GenerateSkillMd(AllSkillBlocks(data.steps), ProjectSkillName(data.project)))
      && StepsReadAs(out.0, data.steps, out.1)
  {
    var w := StartWritten(data.steps, data.project);
    assert w.zip[0].0 == SkillMdPath;
    assert forall q :: q in PathSet(w.zip) ==> q == SkillMdPath;
    StepsRead(w, data.steps, now);
    assert SkillMdPath in PathSet(w.zip);
  }

  /** Entries under other keys do not hide a lookup. */
  lemma LookupPast(a: Contexts, b: Contexts, key: string)
    requires forall i :: 0 <= i < |a| ==> a[i].0 != key
    ensures Lookup(a + b, key) == Lookup(b, key)
  {
    LookupAppend(a, b, key);
  }

  /** A list of paths reads back as those paths. */
  lemma StringListRead(paths: seq<string>)
    ensures ToStringArray(Some(StringList(paths))) == paths
  {
    StringItemsOfStrings(MapSeq((p: string) => YStr(p), paths), paths);
  }

  /** A zone's entry gives back the zone's paths, and nothing when it is
      left out. */
  lemma ZoneEntryRead(key: string, paths: seq<string>, rest: Contexts)
    requires forall i :: 0 <= i < |rest| ==> rest[i].0 != key
    ensures ToStringArray(Lookup(ZoneEntry(key, paths) + rest, key)) == paths
  {
    if |paths| > 0 {
      var e := ZoneEntry(key, paths) + rest;
      assert e[0] == (key, StringList(paths));
      assert Lookup(e, key) == Some(StringList(paths));
      StringListRead(paths);
    } else {
      assert ZoneEntry(key, paths) + rest == rest;
    }
  }

  /** The dependency entry gives back the dependency, if any. */
  lemma DependsEntryRead(dep: Option<string>)
    ensures ToStringArray(Lookup(DependsEntry(dep), "depends_on")) == if dep.Some? then [dep.value] else []
  {
    if dep.Some? {
      StringItemsOfStrings([YStr(dep.value)], [dep.value]);
    }
  }

  /** The context written for a step has the step's name as its label. */
  lemma ContextValueLabel(rec: StepRecord, dep: Option<string>)
    requires rec.stepName != ""
    ensures var v := ContextValue(rec, dep);
      Truthy(v) && IsObject(v) && Label(v) == Some(rec.stepName)
  {
  }

  /** The context written for a step depends on `dep` alone, or on nothing. */
  lemma ContextValueDeps(rec: StepRecord, dep: Option<string>)
    ensures Deps(ContextValue(rec, dep)) == if dep.Some? then [dep.value] else []
  {
    var head := [("label", YStr(rec.stepName))]
      + ZoneEntry("permanent", rec.paths.permanent)
      + ZoneEntry("stable", rec.paths.stable)
      + ZoneEntry("working", rec.paths.working);
    assert ContextValue(rec, dep).entries == head + DependsEntry(dep);
    assert forall i :: 0 <= i < |head| ==> head[i].0 != "depends_on";
    LookupPast(head, DependsEntry(dep), "depends_on");
    DependsEntryRead(dep);
  }

  /** No entry is under `key`. */
  predicate NoKey(es: Contexts, key: string) {
    forall i :: 0 <= i < |es| ==> es[i].0 != key
  }

  lemma NoKeyAppend(a: Contexts, b: Contexts, key: string)
    requires NoKey(a, key) && NoKey(b, key)
    ensures NoKey(a + b, key)
  {
  }

  /** A zone's entry, between entries under other keys, gives back the
      zone's paths. */
  lemma ZoneFieldRead(before: Contexts, key: string, paths: seq<string>, after: Contexts)
    requires NoKey(before, key) && NoKey(after, key)
    ensures ToStringArray(Lookup(before + ZoneEntry(key, paths) + after, key)) == paths
  {
    assert before + ZoneEntry(key, paths) + after == before + (ZoneEntry(key, paths) + after);
    LookupPast(before, ZoneEntry(key, paths) + after, key);
    ZoneEntryRead(key, paths, after);
  }

  /** The entries of the context written for a step, piece by piece. */
  lemma ContextPieces(rec: StepRecord, dep: Option<string>) returns (lab: Contexts, p: Contexts, s: Contexts, w: Contexts, d: Contexts)
    ensures ContextValue(rec, dep).entries == lab + p + s + w + d
    ensures lab == [("label", YStr(rec.stepName))]
    ensures p == ZoneEntry("permanent", rec.paths.permanent)
    ensures s == ZoneEntry("stable", rec.paths.stable)
    ensures w == ZoneEntry("working", rec.paths.working)
    ensures d == DependsEntry(dep)
  {
    lab, p, s, w, d := [("label", YStr(rec.stepName))], ZoneEntry("permanent", rec.paths.permanent),
      ZoneEntry("stable", rec.paths.stable), ZoneEntry("working", rec.paths.working), DependsEntry(dep);
  }

  lemma ContextValuePermanent(rec: StepRecord, dep: Option<string>)
    ensures ToStringArray(Field(ContextValue(rec, dep), "permanent")) == rec.paths.permanent
  {
    var lab, p, s, w, d := ContextPieces(rec, dep);
    assert NoKey(s, "permanent") && NoKey(w, "permanent") && NoKey(d, "permanent");
    NoKeyAppend(s, w, "permanent");
    NoKeyAppend(s + w, d, "permanent");
    assert lab + p + s + w + d == lab + p + (s + w + d);
    ZoneFieldRead(lab, "permanent", rec.paths.permanent, s + w + d);
  }

  lemma ContextValueStable(rec: StepRecord, dep: Option<string>)
    ensures ToStringArray(Field(ContextValue(rec, dep), "stable")) == rec.paths.stable
  {
    var lab, p, s, w, d := ContextPieces(rec, dep);
    assert NoKey(lab, "stable") && NoKey(p, "stable") && NoKey(w, "stable") && NoKey(d, "stable");
    NoKeyAppend(w, d, "stable");
    NoKeyAppend(lab, p, "stable");
    assert lab + p + s + w + d == (lab + p) + s + (w + d);
    ZoneFieldRead(lab + p, "stable", rec.paths.stable, w + d);
  }

  lemma ContextValueWorking(rec: StepRecord, dep: Option<string>)
    ensures ToStringArray(Field(ContextValue(rec, dep), "working")) == rec.paths.working
  {
    var lab, p, s, w, d := ContextPieces(rec, dep);
    assert NoKey(lab, "working") && NoKey(p, "working") && NoKey(s, "working") && NoKey(d, "working");
    NoKeyAppend(lab, p, "working");
    NoKeyAppend(lab + p, s, "working");
    ZoneFieldRead(lab + p + s, "working", rec.paths.working, d);
  }

  lemma ContextValueNoOptional(rec: StepRecord, dep: Option<string>)
    ensures Field(ContextValue(rec, dep), "optional_stable").None?
  {
    var lab, p, s, w, d := ContextPieces(rec, dep);
    assert NoKey(lab, "optional_stable") && NoKey(p, "optional_stable") && NoKey(s, "optional_stable");
    assert NoKey(w, "optional_stable") && NoKey(d, "optional_stable");
    NoKeyAppend(lab, p, "optional_stable");
    NoKeyAppend(lab + p, s, "optional_stable");
    NoKeyAppend(lab + p + s, w, "optional_stable");
    NoKeyAppend(lab + p + s + w, d, "optional_stable");
  }

  /** The files the context written for a step names are the paths the step
      lists. */
  lemma ContextValueFiles(rec: StepRecord, dep: Option<string>)
    ensures ContextFiles(ContextValue(rec, dep)) == Listed(rec.paths)
  {
    ContextValuePermanent(rec, dep);
    ContextValueStable(rec, dep);
    ContextValueWorking(rec, dep);
    ContextValueNoOptional(rec, dep);
    assert Listed(rec.paths) + [] == Listed(rec.paths);
  }

  /** Every path of every zone list is in `files`. */
  predicate ListedIn(paths: StepPaths, files: set<string>) {
    forall z, f :: f in ZonePaths(paths, z) ==> f in files
  }

  /** Every remembered content's path is in the archive. */
  predicate Tracked(w: Written) {
    forall c :: c in w.contentToPath ==> w.contentToPath[c] in PathSet(w.zip)
  }

  /** One block: the path it lists is in the archive, and the archive only
      grows. */
  lemma BlockTracked(w: Written, paths: StepPaths, b: ExportBlock, i: nat, now: nat)
    requires Tracked(w) && ListedIn(paths, PathSet(w.zip)) && ZoneKey(b.zone).Success?
    ensures var r := ExportBlockTo(w, paths, b, i, now).value;
      Tracked(r.0) && ListedIn(r.1, PathSet(r.0.zip)) && PathSet(w.zip) <= PathSet(r.0.zip)
  {
    var z := ZoneKey(b.zone).value;
    var r := ExportBlockTo(w, paths, b, i, now).value;
    var p := if Seen(w, b.content) then w.contentToPath[b.content]
      else ExportPath(DirName(z), UniqueFilename(BaseName(b, i), MdExt, w.used, now));
    assert r.1 == Push(paths, z, p);
    assert p in PathSet(r.0.zip);
    forall y, f | f in ZonePaths(r.1, y)
      ensures f in PathSet(r.0.zip)
    {
      if y == z && f !in ZonePaths(paths, y) {
        assert f == p;
      }
    }
  }

  /** One step's blocks: every path listed is in the archive. */
  lemma {:induction false} StepBlocksTracked(w: Written, blocks: seq<ExportBlock>, now: nat)
    requires Tracked(w) && BlocksListed(blocks)
    ensures var r := ExportStepBlocks(w, blocks, now).value;
      Tracked(r.0) && ListedIn(r.1, PathSet(r.0.zip)) && PathSet(w.zip) <= PathSet(r.0.zip)
    decreases |blocks|
  {
    if |blocks| > 0 {
      var n := |blocks| - 1;
      BlocksListedStep(blocks);
      StepBlocksTracked(w, blocks[..n], now);
      var acc := ExportStepBlocks(w, blocks[..n], now).value;
      BlockTracked(acc.0, acc.1, blocks[n], n, now);
    }
  }

  /** All steps: every path any step lists is in the archive. */
  lemma {:induction false} StepsTracked(w: Written, steps: seq<StepExport>, now: nat)
    requires Tracked(w) && ZonesListed(steps)
    ensures var r := ExportSteps(w, steps, now).value;
      && Tracked(r.0) && PathSet(w.zip) <= PathSet(r.0.zip)
      && forall j :: 0 <= j < |r.1| ==> ListedIn(r.1[j].paths, PathSet(r.0.zip))
    decreases |steps|
  {
    if |steps| > 0 {
      var n := |steps| - 1;
      ExportStepsLast(w, steps, now);
      StepsTracked(w, steps[..n], now);
      var acc := ExportSteps(w, steps[..n], now).value;
      StepBlocksTracked(acc.0, NonSkillBlocks(steps[n]), now);
      var step := ExportStepBlocks(acc.0, NonSkillBlocks(steps[n]), now).value;
      var recs := acc.1 + [StepRecord(StepName(steps[n]), step.1)];
      forall j | 0 <= j < |recs|
        ensures ListedIn(recs[j].paths, PathSet(step.0.zip))
      {
        if j < n {
          assert recs[j] == acc.1[j];
        }
      }
    }
  }

  lemma ListedInAll(p: StepPaths, files: set<string>)
    requires ListedIn(p, files)
    ensures forall f :: f in Listed(p) ==> f in files
  {
    forall f | f in Listed(p)
      ensures f in files
    {
      assert f in ZonePaths(p, Permanent) || f in ZonePaths(p, Stable) || f in ZonePaths(p, Working);
    }
  }

  /** Every path a step lists names a file of the archive. */
  lemma ProjectPathsListed(data: ProjectExport, now: nat)
    requires ZonesListed(data.steps)
    ensures var out := ExportProjectFiles(data, now).value;
      forall j, f :: 0 <= j < |out.1| && f in Listed(out.1[j].paths) ==> f in PathSet(out.0)
  {
    var w := StartWritten(data.steps, data.project);
    assert Tracked(w);
    StepsTracked(w, data.steps, now);
    var r := ExportSteps(w, data.steps, now).value;
    forall j | 0 <= j < |r.1|
      ensures forall f :: f in Listed(r.1[j].paths) ==> f in PathSet(r.0.zip)
    {
      ListedInAll(r.1[j].paths, PathSet(r.0.zip));
    }
  }

  /** With no key before it repeated, a key's lookup finds its own entry. */
  lemma LookupAt(g: Contexts, i: nat)
    requires i < |g| && forall j :: 0 <= j < i ==> g[j].0 != g[i].0
    ensures Lookup(g, g[i].0) == Some(g[i].1)
  {
    assert g == g[..i] + g[i..];
    LookupPast(g[..i], g[i..], g[i].0);
    assert g[i..][0] == g[i];
  }

  /** The mapping holds, at each position, that step's key and context. */
  predicate EntriesAt(g: Contexts, recs: seq<StepRecord>, keys: seq<string>)
    requires |keys| == |recs|
  {
    |g| == |recs| && forall i :: 0 <= i < |recs| ==> g[i] == (keys[i], ContextValue(recs[i], DepOn(keys, i)))
  }

  /** With distinct keys no assignment overwrites another: every step has its
      own context, in step order. */
  lemma {:induction false} ContextEntriesDistinct(recs: seq<StepRecord>, keys: seq<string>)
    requires |keys| == |recs| && Distinct(keys)
    ensures EntriesAt(ContextEntries(recs, keys), recs, keys)
    decreases |recs|
  {
    if |recs| > 0 {
      var n := |recs| - 1;
      var prev := ContextEntries(recs[..n], keys[..n]);
      var v := ContextValue(recs[n], DepOn(keys, n));
      DistinctPrefix(keys, n);
      ContextEntriesDistinct(recs[..n], keys[..n]);
      EntriesMiss(prev, recs[..n], keys[..n], keys[n]);
      SetKeyFresh(prev, keys[n], v);
      assert ContextEntries(recs, keys) == SetKey(prev, keys[n], v);
      EntriesAppend(prev, recs, keys);
    }
  }

  /** A prefix of distinct keys is distinct, and misses the next key. */
  lemma DistinctPrefix(keys: seq<string>, n: nat)
    requires Distinct(keys) && n < |keys|
    ensures Distinct(keys[..n]) && forall i :: 0 <= i < n ==> keys[..n][i] != keys[n]
  {
  }

  /** Entries keyed by `keys` hold no entry for a key outside them. */
  lemma EntriesMiss(g: Contexts, recs: seq<StepRecord>, keys: seq<string>, key: string)
    requires |keys| == |recs| && EntriesAt(g, recs, keys)
    requires forall i :: 0 <= i < |keys| ==> keys[i] != key
    ensures forall i :: 0 <= i < |g| ==> g[i].0 != key
  {
  }

  /** Setting a key the mapping lacks appends it. */
  lemma SetKeyFresh(g: Contexts, key: string, v: Yaml)
    requires forall i :: 0 <= i < |g| ==> g[i].0 != key
    ensures SetKey(g, key, v) == g + [(key, v)]
  {
    assert key !in KeySet(g);
  }

  /** The entries of the steps before the last, followed by the last step's
      own, are the entries of all steps. */
  lemma EntriesAppend(prev: Contexts, recs: seq<StepRecord>, keys: seq<string>)
    requires |keys| == |recs| > 0
    requires var n := |recs| - 1; EntriesAt(prev, recs[..n], keys[..n])
    ensures var n := |recs| - 1;
      EntriesAt(prev + [(keys[n], ContextValue(recs[n], DepOn(keys, n)))], recs, keys)
  {
    var n := |recs| - 1;
    var g := prev + [(keys[n], ContextValue(recs[n], DepOn(keys, n)))];
    forall i | 0 <= i < |recs|
      ensures g[i] == (keys[i], ContextValue(recs[i], DepOn(keys, i)))
    {
      if i < n {
        assert g[i] == prev[i];
        assert recs[..n][i] == recs[i];
        assert keys[..n][i] == keys[i];
        assert DepOn(keys[..n], i) == DepOn(keys, i);
      }
    }
  }

  /** The `i`-th key is the step's sanitised name made unique among the keys
      before it. */
  predicate KeyPickedAt(recs: seq<StepRecord>, now: nat, keys: seq<string>, i: nat)
    requires i < |recs| && i < |keys|
  {
    keys[i] == UniqueFilename(SanitizeFilename(recs[i].stepName), "", NameSet(keys[..i]), now)
  }

  /** The keys of the corrected map: each step's sanitised name, kept when
      free and otherwise given the first free `-<k>` suffix. */
  function UniqueKeys(recs: seq<StepRecord>, now: nat): (keys: seq<string>)
    ensures |keys| == |recs|
    ensures forall i :: 0 <= i < |recs| ==> KeyPickedAt(recs, now, keys, i)
    decreases |recs|
  {
    if |recs| == 0 then []
    else
      var n := |recs| - 1;
      var init := UniqueKeys(recs[..n], now);
      var keys := init + [UniqueFilename(SanitizeFilename(recs[n].stepName), "", NameSet(init), now)];
      forall i | 0 <= i < |recs|
        ensures KeyPickedAt(recs, now, keys, i)
      {
        if i < n {
          assert KeyPickedAt(recs[..n], now, init, i);
          assert recs[..n][i] == recs[i];
          assert keys[..i] == init[..i];
        } else {
          assert keys[..n] == init;
        }
      }
      keys
  }

  /** With at most 1000 steps, no two steps share a key. */
  lemma UniqueKeysDistinct(recs: seq<StepRecord>, now: nat)
    requires |recs| <= MaxCandidates
    ensures Distinct(UniqueKeys(recs, now))
  {
    var keys := UniqueKeys(recs, now);
    forall j | 0 <= j < |keys|
      ensures keys[j] !in NameSet(keys[..j])
    {
      assert KeyPickedAt(recs, now, keys, j);
      NameSetSize(keys[..j]);
      UniqueFilenameFresh(SanitizeFilename(recs[j].stepName), "", NameSet(keys[..j]), now);
    }
    forall i, j | 0 <= i < j < |keys|
      ensures keys[i] != keys[j]
    {
      assert keys[..j][i] == keys[i];
      assert keys[i] in NameSet(keys[..j]);
    }
  }

  /** The export with the context keys made unique. */
  function ExportProject(data: ProjectExport, now: nat): (r: Result<ProjectPackage, ProjectExportError>)
    ensures r.Success? <==> ZonesListed(data.steps)
  {
    var out :- ExportProjectFiles(data, now);
    Success(ProjectPackage(out.0, ContextMapDocument(out.1, UniqueKeys(out.1, now)), ProjectZipName(data.project)))
  }

  /** The document's `contexts` are the entries, and it is well formed when
      there is at least one step. */
  lemma DocumentEntries(recs: seq<StepRecord>, keys: seq<string>)
    requires |keys| == |recs|
    ensures var raw := Some(ContextMapDocument(recs, keys));
      MapEntries(raw) == ContextEntries(recs, keys) && (|recs| > 0 ==> WellFormedDocument(raw))
  {
  }

  /** In a chain with distinct keys, each key finds its own context. */
  lemma ChainLookup(g: Contexts, recs: seq<StepRecord>, keys: seq<string>, i: nat)
    requires |keys| == |recs| && Distinct(keys) && EntriesAt(g, recs, keys) && i < |g|
    ensures Lookup(g, keys[i]) == Some(ContextValue(recs[i], DepOn(keys, i)))
  {
    LookupAt(g, i);
  }

  /** One link of the chain: a context whose dependency, if any, is the key
      just before it validates, and depends only on earlier keys. */
  lemma ChainLink(g: Contexts, rec: StepRecord, keys: seq<string>, i: nat)
    requires i < |keys| && rec.stepName != ""
    requires i > 0 ==> IsKnown(g, keys[i - 1])
    ensures var v := ContextValue(rec, DepOn(keys, i));
      ValidContext(g, v) && forall d :: d in Deps(v) ==> d in keys[..i]
  {
    var v := ContextValue(rec, DepOn(keys, i));
    ContextValueLabel(rec, DepOn(keys, i));
    ContextValueDeps(rec, DepOn(keys, i));
    if i > 0 {
      assert Deps(v) == [keys[i - 1]];
      assert keys[..i][i - 1] == keys[i - 1];
    } else {
      assert Deps(v) == [];
    }
  }

  /** Every key of the chain names a context with a label. */
  lemma ChainKnown(g: Contexts, recs: seq<StepRecord>, keys: seq<string>, i: nat)
    requires |keys| == |recs| && Distinct(keys) && EntriesAt(g, recs, keys) && i < |g|
    requires recs[i].stepName != ""
    ensures IsKnown(g, keys[i])
  {
    ChainLookup(g, recs, keys, i);
    ContextValueLabel(recs[i], DepOn(keys, i));
  }

  /** A chain of contexts, each with a label and depending on the one before:
      every context validates, and the keys in step order put every
      dependency first. */
  lemma ChainValid(g: Contexts, recs: seq<StepRecord>, keys: seq<string>)
    requires |keys| == |recs| && Distinct(keys) && EntriesAt(g, recs, keys)
    requires forall i :: 0 <= i < |recs| ==> recs[i].stepName != ""
    ensures AllValidFrom(g, 0) && DepsFirst(g, keys)
    ensures forall k :: k in KeySet(g) ==> k in keys
  {
    forall i | 0 <= i < |g|
      ensures ValidContext(g, g[i].1) && forall d :: d in DepsOf(g, keys[i]) ==> d in keys[..i]
    {
      if i > 0 {
        ChainKnown(g, recs, keys, i - 1);
      }
      ChainLink(g, recs[i], keys, i);
      ChainLookup(g, recs, keys, i);
    }
    forall i | 0 <= i < |keys|
      ensures keys[i] in KeySet(g)
    {
      assert g[i].0 == keys[i];
    }
  }

  /** Every file a context of the chain names is one its step lists. */
  lemma ChainFiles(g: Contexts, recs: seq<StepRecord>, keys: seq<string>, files: set<string>)
    requires |keys| == |recs| && EntriesAt(g, recs, keys)
    requires forall j, f :: 0 <= j < |recs| && f in Listed(recs[j].paths) ==> f in files
    ensures FilesAvailable(g, files)
  {
    forall j | 0 <= j < |g|
      ensures ContextFiles(g[j].1) == Listed(recs[j].paths)
    {
      ContextValueFiles(recs[j], DepOn(keys, j));
    }
  }

  /** A non-empty chain of labelled steps with distinct keys, whose listed
      files are all available, parses, with one context per key. */
  lemma ChainParses(recs: seq<StepRecord>, keys: seq<string>, files: set<string>)
    requires |keys| == |recs| > 0 && Distinct(keys)
    requires forall i :: 0 <= i < |recs| ==> recs[i].stepName != ""
    requires forall j, f :: 0 <= j < |recs| && f in Listed(recs[j].paths) ==> f in files
    ensures var r := ParseContextMap(Some(ContextMapDocument(recs, keys)), files);
      r.Success? && forall k :: k in OrderKeys(r.value) <==> k in keys
  {
    var raw := Some(ContextMapDocument(recs, keys));
    ContextEntriesDistinct(recs, keys);
    DocumentEntries(recs, keys);
    var g := MapEntries(raw);
    ChainValid(g, recs, keys);
    ChainFiles(g, recs, keys, files);
    forall cyc
      ensures !IsCycle(g, cyc)
    {
      DepsFirstNoCycle(g, keys, cyc);
    }
    ParseContextMapComplete(raw, files);
    ParseContextMapOrder(raw, files);
    assert forall k :: k in keys ==> k in KeySet(g);
  }

  /** The corrected export of a project with 1 to 1000 steps writes a context
      map that the context-map parser accepts against the archive's files,
      with one context per step key. */
  lemma ExportProjectMapParses(data: ProjectExport, now: nat)
    requires ZonesListed(data.steps) && 0 < |data.steps| <= MaxCandidates
    ensures ExportProject(data, now).Success?
    ensures var pkg := ExportProject(data, now).value;
      var keys := UniqueKeys(ExportProjectFiles(data, now).value.1, now);
      var r := ParseContextMap(Some(pkg.contextMap), PathSet(pkg.files));
      r.Success? && forall k :: k in OrderKeys(r.value) <==> k in keys
  {
    var out := ExportProjectFiles(data, now).value;
    var recs := out.1;
    var keys := UniqueKeys(recs, now);
    assert |recs| == |data.steps|;
    UniqueKeysDistinct(recs, now);
    ProjectPathsListed(data, now);
    ChainParses(recs, keys, PathSet(out.0));
  }

  /** Importing the project archive under its download name goes to the ZIP
      importer, whose fallback skill name is the sanitised project name. */
  lemma ProjectZipNameRoutes(project: ProjectInfo)
    ensures RouteFile(ProjectZipName(project)) == ZipImport(ProjectZipStem(project))
    ensures StripZipSuffix(ProjectZipName(project)) == ProjectZipStem(project)
  {
    assert ToLower(ZipExt) == ZipExt;
    RouteZipName(ProjectZipStem(project), ZipExt);
  }

  /** SKILL.md is generated from the skill blocks in step order, so its first
      skill block is the first one of the first step that has any. */
  lemma {:induction false} FirstSkillBlock(steps: seq<StepExport>, j: nat)
    requires j < |steps| && |Filter(steps[j].blocks, IsSkillBlock)| > 0
    requires forall k :: 0 <= k < j ==> |Filter(steps[k].blocks, IsSkillBlock)| == 0
    ensures |AllSkillBlocks(steps)| > 0
    ensures AllSkillBlocks(steps)[0] == Filter(steps[j].blocks, IsSkillBlock)[0]
    decreases |steps|
  {
    var n := |steps| - 1;
    var init := AllSkillBlocks(steps[..n]);
    assert AllSkillBlocks(steps) == init + Filter(steps[n].blocks, IsSkillBlock);
    if j < n {
      assert steps[..n][j] == steps[j];
      assert forall k :: 0 <= k < j ==> steps[..n][k] == steps[k];
      FirstSkillBlock(steps[..n], j);
    } else {
      assert forall k :: 0 <= k < n ==> steps[..n][k] == steps[k];
      assert |init| == 0;
    }
  }

  /** The two-step export with one name for both steps, as written: the second
      step's context replaces the first under their common key and depends on
      that key, so the context map it writes is rejected as circular. */
  lemma SameKeyStepsCycle(data: ProjectExport, now: nat)
    requires |data.steps| == 2 && ZonesListed(data.steps)
    requires SanitizeFilename(StepName(data.steps[0])) == SanitizeFilename(StepName(data.steps[1]))
    ensures ExportProjectAsWritten(data, now).Success?
    ensures var pkg := ExportProjectAsWritten(data, now).value;
      var r := ParseContextMap(Some(pkg.contextMap), PathSet(pkg.files));
      r.Failure? && r.error.CircularDependency?
  {
    var out := ExportProjectFiles(data, now).value;
    var recs := out.1;
    assert NamedAfter(recs, data.steps);
    ProjectPathsListed(data, now);
    SameKeyChainCycle(recs, SanitizedKeys(recs), PathSet(out.0));
  }

  /** Two labelled steps under one key, whose files are available: the
      context map is rejected as circular. */
  lemma SameKeyChainCycle(recs: seq<StepRecord>, keys: seq<string>, files: set<string>)
    requires |recs| == |keys| == 2 && keys[0] == keys[1] && recs[1].stepName != ""
    requires forall j, f :: 0 <= j < |recs| && f in Listed(recs[j].paths) ==> f in files
    ensures var r := ParseContextMap(Some(ContextMapDocument(recs, keys)), files);
      r.Failure? && r.error.CircularDependency?
  {
    var k := keys[1];
    var v := ContextValue(recs[1], DepOn(keys, 1));
    var raw := Some(ContextMapDocument(recs, keys));
    SameKeyEntries(recs, keys);
    DocumentEntries(recs, keys);
    var g := MapEntries(raw);
    assert g == [(k, v)];
    ContextValueLabel(recs[1], DepOn(keys, 1));
    ContextValueDeps(recs[1], DepOn(keys, 1));
    SelfLoop(g, k, v);
    ContextValueFiles(recs[1], DepOn(keys, 1));
    assert FilesAvailable(g, files);
    ParseContextMapRejectsCycle(raw, files, [k]);
  }

  /** Two steps under one key leave a single context: the second. */
  lemma SameKeyEntries(recs: seq<StepRecord>, keys: seq<string>)
    requires |recs| == |keys| == 2 && keys[0] == keys[1]
    ensures ContextEntries(recs, keys) == [(keys[1], ContextValue(recs[1], DepOn(keys, 1)))]
  {
    var v0 := ContextValue(recs[0], DepOn(keys, 0));
    var v1 := ContextValue(recs[1], DepOn(keys, 1));
    assert ContextEntries(recs[..1][..0], keys[..1][..0]) == [];
    assert ContextEntries(recs[..1], keys[..1]) == SetKey([], keys[0], v0);
    assert SetKey([], keys[0], v0) == [(keys[0], v0)];
    assert KeyIndex([(keys[0], v0)], keys[1]) == Some(0);
    assert ContextEntries(recs, keys) == SetKey([(keys[0], v0)], keys[1], v1);
  }

  /** A single context that depends on its own key closes a cycle, and it
      validates, since the key it depends on is its own. */
  lemma SelfLoop(g: Contexts, k: string, v: Yaml)
    requires g == [(k, v)] && Deps(v) == [k]
    requires Truthy(v) && IsObject(v) && Label(v).Some?
    ensures IsCycle(g, [k]) && AllValidFrom(g, 0)
  {
    assert Lookup(g, k) == Some(v);
    assert DepsOf(g, k) == [k];
    assert IsKnown(g, k);
    assert ValidContext(g, g[0].1);
  }

  /** What the export is offered: the current session's data or the current
      project's, each absent while loading or when not allowed. */
  datatype ExportSource =
    | SessionSource(session: Option<SessionExport>)
    | ProjectSource(project: Option<ProjectExport>)

  function StepBlockCount(s: StepExport): nat {
    |s.blocks|
  }

  /** The number of blocks shown next to the export button: the session's, or
      the sum over the project's steps; 0 while there is no data. */
  function BlockCount(src: ExportSource): (n: nat)
    ensures src.SessionSource? && src.session.Some? ==> n == |src.session.value.blocks|
    ensures src.ProjectSource? && src.project.Some? ==>
      forall i :: 0 <= i < |src.project.value.steps| ==> |src.project.value.steps[i].blocks| <= n
    ensures src.ProjectSource? && src.project.Some? ==>
      n == |AllSkillBlocks(src.project.value.steps)| + NonSkillCount(src.project.value.steps)
    ensures (src.SessionSource? && src.session.None?) || (src.ProjectSource? && src.project.None?) ==> n == 0
  {
    if src.ProjectSource? && src.project.Some? then
      SumBoundsEach(MapSeq(StepBlockCount, src.project.value.steps));
      ProjectBlockCountSplit(src.project.value.steps);
      Sum(MapSeq(StepBlockCount, src.project.value.steps))
    else
    match src
    case SessionSource(s) => if s.Some? then |s.value.blocks| else 0
    case ProjectSource(p) => if p.Some? then Sum(MapSeq(StepBlockCount, p.value.steps)) else 0
  }

  /** Whether export is enabled: a session with at least one block, or a
      project with at least one step. */
  function IsReady(src: ExportSource): (r: bool)
    ensures src.SessionSource? ==> (r <==> BlockCount(src) > 0)
    ensures src.ProjectSource? ==> (r <==> src.project.Some? && |src.project.value.steps| > 0)
    ensures src.ProjectSource? && BlockCount(src) > 0 ==> r
    ensures r ==> (src.SessionSource? && src.session.Some?) || (src.ProjectSource? && src.project.Some?)
  {
    match src
    case SessionSource(s) => s.Some? && |s.value.blocks| > 0
    case ProjectSource(p) => p.Some? && |p.value.steps| > 0
  }

  /** The project in view: the one passed in, else the session's own. */
  function ProjectIdOf(explicitProjectId: Option<nat>, sessionData: Option<SessionExport>): (r: Option<nat>)
    ensures explicitProjectId.Some? ==> r == explicitProjectId
    ensures explicitProjectId.None? && sessionData.None? ==> r.None?
    ensures explicitProjectId.None? && sessionData.Some? ==> r == sessionData.value.session.projectId
  {
    if explicitProjectId.Some? then explicitProjectId
    else if sessionData.Some? then sessionData.value.session.projectId
    else None
  }

  /** `isProject = !!projectId && !!projectData` picks what is exported: the
      project once its data has loaded, otherwise the session. */
  function SourceOf(explicitProjectId: Option<nat>, projectData: Option<ProjectExport>,
    sessionData: Option<SessionExport>): (src: ExportSource)
    ensures src.ProjectSource? <==> ProjectIdOf(explicitProjectId, sessionData).Some? && projectData.Some?
    ensures src.ProjectSource? ==> src.project == projectData && src.project.Some?
    ensures src.SessionSource? ==> src.session == sessionData
  {
    if ProjectIdOf(explicitProjectId, sessionData).Some? && projectData.Some? then ProjectSource(projectData)
    else SessionSource(sessionData)
  }

  /** Every block of a project's steps is either a skill block, which goes
      into SKILL.md, or a reference; the summed step sizes are the two
      together. */
  lemma {:induction false} ProjectBlockCountSplit(steps: seq<StepExport>)
    ensures Sum(MapSeq(StepBlockCount, steps)) == |AllSkillBlocks(steps)| + NonSkillCount(steps)
    decreases |steps|
  {
    if |steps| > 0 {
      var n := |steps| - 1;
      ProjectBlockCountSplit(steps[..n]);
      assert steps == steps[..n] + [steps[n]];
      SumMapAppend(StepBlockCount, steps[..n], steps[n]);
      FilterCount(steps[n].blocks);
    }
  }

  /** Skill and non-skill blocks together are all the blocks. */
  lemma {:induction false} FilterCount(blocks: seq<ExportBlock>)
    ensures |Filter(blocks, IsSkillBlock)| + |Filter(blocks, IsOtherBlock)| == |blocks|
    decreases |blocks|
  {
    if |blocks| > 0 {
      FilterCount(blocks[..|blocks| - 1]);
    }
  }

  /** A ready project whose blocks all have listed zones exports a context
      map that the context-map parser accepts. */
  lemma ReadyProjectParses(data: ProjectExport, now: nat)
    requires IsReady(ProjectSource(Some(data)))
    requires ZonesListed(data.steps) && |data.steps| <= MaxCandidates
    ensures ExportProject(data, now).Success?
    ensures var pkg := ExportProject(data, now).value;
      ParseContextMap(Some(pkg.contextMap), PathSet(pkg.files)).Success?
  {
    ExportProjectMapParses(data, now);
  }
}
