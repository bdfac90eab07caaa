/** Importing a multi-context skill as a project (convex/contextMapImport.ts):
    the first context's files go into the current session, every later
    context becomes a template, and a workflow with one step per context
    links them. The database writes are modelled as the plan they carry out. */
module ImportPlan {
  import opened Wrappers
  import opened Strings
  import opened Seqs
  import opened Zones

  /** One context as the client sends it (`contextArg`). */
  datatype ContextArg = ContextArg(
    key: string,
    labelText: string,
    permanent: seq<string>,
    stable: seq<string>,
    working: seq<string>)

  /** A package file (`fileArg`). */
  datatype FileArg = FileArg(path: string, content: string)

  /** `new Map(files.map(f => [f.path, f.content]))`: a later file with the
      same path replaces an earlier one. */
  function FileMap(files: seq<FileArg>): (m: map<string, string>)
    ensures forall p :: p in m <==> exists i :: 0 <= i < |files| && files[i].path == p
    decreases |files|
  {
    if |files| == 0 then map[]
    else
      var init := files[..|files| - 1];
      var m := FileMap(init);
      assert forall i :: 0 <= i < |init| ==> init[i] == files[i];
      m[files[|files| - 1].path := files[|files| - 1].content]
  }

  /** The last file with a path is the one the map keeps. */
  lemma {:induction false} FileMapLastWins(files: seq<FileArg>, i: nat)
    requires i < |files|
    requires forall j :: i < j < |files| ==> files[j].path != files[i].path
    ensures FileMap(files)[files[i].path] == files[i].content
    decreases |files|
  {
    if i < |files| - 1 {
      var init := files[..|files| - 1];
      assert init[i] == files[i];
      FileMapLastWins(init, i);
    }
  }

  /** `filePath.split("/").pop() || filePath`. */
  function FileName(path: string): (r: string)
    ensures '/' !in path ==> r == path
    ensures r != path ==> r != "" && '/' !in r && EndsWith(path, r)
    ensures r != path ==> path[|path| - |r| - 1] == '/'
  {
    var last := LastSegment(path, '/');
    if last == "" then path else last
  }

  /** A context's files tagged with their zone, PERMANENT first, then STABLE,
      then WORKING, each list in its own order. */
  function ZoneFiles(c: ContextArg): seq<(Zone, string)> {
    MapSeq((p: string) => (Permanent, p), c.permanent)
      + MapSeq((p: string) => (Stable, p), c.stable)
      + MapSeq((p: string) => (Working, p), c.working)
  }

  /** `fileMap.get(filePath)` is truthy: the file exists and is not empty. */
  function Present(fm: map<string, string>): ((Zone, string)) -> bool {
    (e: (Zone, string)) => e.1 in fm && fm[e.1] != ""
  }

  /** The files that are imported, in import order. */
  function Kept(c: ContextArg, fm: map<string, string>): (r: seq<(Zone, string)>)
    ensures forall i :: 0 <= i < |r| ==> r[i].1 in fm && fm[r[i].1] != ""
  {
    FilterMembers(ZoneFiles(c), Present(fm));
    Filter(ZoneFiles(c), Present(fm))
  }

  datatype SourceType = Local | Upload | Url

  /** The metadata of a template block: its own name, the skill it came from,
      and the package path it was read from. */
  datatype RefMetadata = RefMetadata(
    skillName: string,
    parentSkillName: string,
    sourceType: SourceType,
    sourceRef: string)

  /** A block snapshot stored in a template. */
  datatype TemplateBlock = TemplateBlock(
    content: string,
    kind: string,
    zone: Zone,
    position: nat,
    metadata: RefMetadata)

  const ReferenceKind := "reference"

  /** `buildTemplateBlocks`: one reference block per present file, numbered
      from 0 in import order. */
  function BuildTemplateBlocks(c: ContextArg, fm: map<string, string>, skillName: string, source: SourceType): (r: seq<TemplateBlock>)
    ensures |r| == |Kept(c, fm)|
    ensures forall i :: 0 <= i < |r| ==> r[i].position == i
    ensures forall i :: 0 <= i < |r| ==>
      r[i].content != "" && r[i].metadata.sourceRef in fm && r[i].content == fm[r[i].metadata.sourceRef]
  {
    var kept := Kept(c, fm);
    seq(|kept|, i requires 0 <= i < |kept| =>
      TemplateBlock(fm[kept[i].1], ReferenceKind, kept[i].0, i,
        RefMetadata(FileName(kept[i].1), skillName, source, kept[i].1)))
  }

  /** Zones never go back: each entry's zone ranks no lower than the ones before. */
  predicate ZoneOrdered(s: seq<(Zone, string)>) {
    forall i, j :: 0 <= i < j < |s| ==> Rank(s[i].0) <= Rank(s[j].0)
  }

  lemma ZoneFilesOrdered(c: ContextArg)
    ensures ZoneOrdered(ZoneFiles(c))
  {
    var a := MapSeq((p: string) => (Permanent, p), c.permanent);
    var b := MapSeq((p: string) => (Stable, p), c.stable);
    var w := MapSeq((p: string) => (Working, p), c.working);
    var s := ZoneFiles(c);
    forall i | 0 <= i < |s|
      ensures Rank(s[i].0) == if i < |a| then 0 else if i < |a| + |b| then 1 else 2
    {
      if i < |a| {
        assert s[i] == a[i];
      } else if i < |a| + |b| {
        assert s[i] == b[i - |a|];
      } else {
        assert s[i] == w[i - |a| - |b|];
      }
    }
  }

  /** Dropping entries keeps the zone order. */
  lemma {:induction false} FilterZoneOrdered(s: seq<(Zone, string)>, p: ((Zone, string)) -> bool)
    requires ZoneOrdered(s)
    ensures ZoneOrdered(Filter(s, p))
    decreases |s|
  {
    if |s| > 0 {
      var s' := s[..|s| - 1];
      var x := s[|s| - 1];
      assert ZoneOrdered(s') by {
        forall i, j | 0 <= i < j < |s'|
          ensures Rank(s'[i].0) <= Rank(s'[j].0)
        {
          assert s'[i] == s[i] && s'[j] == s[j];
        }
      }
      FilterZoneOrdered(s', p);
      FilterMembers(s', p);
      var f := Filter(s', p);
      forall i | 0 <= i < |f|
        ensures Rank(f[i].0) <= Rank(x.0)
      {
        var k :| 0 <= k < |s'| && s'[k] == f[i];
        assert s[k] == f[i];
      }
    }
  }

  /** The layout of a template: zones in PERMANENT, STABLE, WORKING order;
      exactly the present files, each named after its last path segment. */
  lemma TemplateBlocksLayout(c: ContextArg, fm: map<string, string>, skillName: string, source: SourceType)
    ensures var r := BuildTemplateBlocks(c, fm, skillName, source);
      && (forall i, j :: 0 <= i < j < |r| ==> Rank(r[i].zone) <= Rank(r[j].zone))
      && (forall i :: 0 <= i < |r| ==>
            r[i].kind == ReferenceKind && r[i].metadata.parentSkillName == skillName
            && r[i].metadata.skillName == FileName(r[i].metadata.sourceRef)
            && (r[i].zone, r[i].metadata.sourceRef) in ZoneFiles(c))
  {
    ZoneFilesOrdered(c);
    FilterZoneOrdered(ZoneFiles(c), Present(fm));
    FilterMembers(ZoneFiles(c), Present(fm));
    var kept := Kept(c, fm);
    var r := BuildTemplateBlocks(c, fm, skillName, source);
    forall i | 0 <= i < |r|
      ensures (r[i].zone, r[i].metadata.sourceRef) in ZoneFiles(c)
    {
      assert (r[i].zone, r[i].metadata.sourceRef) == kept[i];
    }
  }

  /** Every present file of every zone list becomes a block of that zone. */
  lemma TemplateBlocksComplete(c: ContextArg, fm: map<string, string>, skillName: string, source: SourceType, z: Zone, path: string)
    requires (z, path) in ZoneFiles(c) && path in fm && fm[path] != ""
    ensures exists i :: (0 <= i < |BuildTemplateBlocks(c, fm, skillName, source)|
      && BuildTemplateBlocks(c, fm, skillName, source)[i].zone == z
      && BuildTemplateBlocks(c, fm, skillName, source)[i].metadata.sourceRef == path)
  {
    var s := ZoneFiles(c);
    FilterMembers(s, Present(fm));
    var k :| 0 <= k < |s| && s[k] == (z, path);
    assert Present(fm)(s[k]);
    var kept := Kept(c, fm);
    var i :| 0 <= i < |kept| && kept[i] == (z, path);
    assert BuildTemplateBlocks(c, fm, skillName, source)[i].zone == z;
  }

  /** A reference block inserted into the current session. */
  datatype ReferenceInsert = ReferenceInsert(
    content: string,
    filename: string,
    zone: Zone,
    relativePath: string,
    parentSkillName: string,
    sourceType: SourceType)

  /** `importContextFiles`: the reference blocks written to the session, in
      insertion order. */
  function ImportContextFiles(c: ContextArg, fm: map<string, string>, skillName: string, source: SourceType): (r: seq<ReferenceInsert>)
    ensures |r| == |Kept(c, fm)|
  {
    var kept := Kept(c, fm);
    seq(|kept|, i requires 0 <= i < |kept| =>
      ReferenceInsert(fm[kept[i].1], FileName(kept[i].1), kept[i].0, kept[i].1, skillName, source))
  }

  /** The session import and the template for the same context hold the same
      files, in the same order, with the same contents and names. */
  lemma SessionImportMatchesTemplate(c: ContextArg, fm: map<string, string>, skillName: string, source: SourceType)
    ensures var s := ImportContextFiles(c, fm, skillName, source);
      var t := BuildTemplateBlocks(c, fm, skillName, source);
      |s| == |t| && forall i :: 0 <= i < |s| ==>
        s[i].content == t[i].content && s[i].zone == t[i].zone
        && s[i].relativePath == t[i].metadata.sourceRef && s[i].filename == t[i].metadata.skillName
  {
  }

  datatype Template = Template(name: string, description: string, blocks: seq<TemplateBlock>)

  /** A workflow step; `template` is the index of its template, none for the
      first step, which runs in the current session. */
  datatype Step = Step(template: Option<nat>, name: string, carryForwardZones: seq<Zone>)

  datatype SkillBlock = SkillBlock(content: string, skillName: string, skillDescription: Option<string>, sourceType: SourceType, sourceRef: Option<string>)

  /** What `importAsProject` writes. `sessionStepNumber` is the step the
      current session is patched to in the new project. */
  datatype ProjectPlan = ProjectPlan(
    skillBlock: SkillBlock,
    sessionBlocks: seq<ReferenceInsert>,
    templates: seq<Template>,
    workflowName: string,
    workflowDescription: Option<string>,
    steps: seq<Step>,
    projectName: string,
    projectDescription: Option<string>,
    currentStep: nat,
    sessionStepNumber: nat,
    templateCount: nat)

  /** PERMANENT and WORKING carry forward; STABLE resets at each step. */
  const CarryForward: seq<Zone> := [Permanent, Working]

  /** `Step ${i + 1}: ${label}`. */
  function StepDescription(i: nat, labelText: string): string {
    "Step " + NatToString(i + 1) + ": " + labelText
  }

  function TemplateFor(contexts: seq<ContextArg>, i: nat, fm: map<string, string>, skillName: string, source: SourceType): Template
    requires i < |contexts|
  {
    Template(contexts[i].labelText, StepDescription(i, contexts[i].labelText),
      BuildTemplateBlocks(contexts[i], fm, skillName, source))
  }

  /** One template for each context after the first, in order. */
  function LaterTemplates(contexts: seq<ContextArg>, fm: map<string, string>, skillName: string, source: SourceType): (t: seq<Template>)
    requires |contexts| > 0
    ensures |t| == |contexts| - 1
    ensures forall j :: 0 <= j < |t| ==> t[j] == TemplateFor(contexts, j + 1, fm, skillName, source)
  {
    seq(|contexts| - 1, j requires 0 <= j < |contexts| - 1 => TemplateFor(contexts, j + 1, fm, skillName, source))
  }

  /** One step per context: the first in the session, step i through
      template i - 1. */
  function WorkflowSteps(contexts: seq<ContextArg>): (s: seq<Step>)
    ensures |s| == |contexts|
    ensures forall i :: 0 <= i < |s| ==> s[i] == Step(if i == 0 then None else Some(i - 1), contexts[i].labelText, CarryForward)
  {
    seq(|contexts|, i requires 0 <= i < |contexts| => Step(if i == 0 then None else Some(i - 1), contexts[i].labelText, CarryForward))
  }

  const NoContextsMessage := "No contexts provided"

  /** The records an import writes besides its steps: the skill block, a
      project and a workflow named after the skill and carrying its
      description, and the current session linked to the project as step 0,
      the project's current step. */
  predicate PlanRecords(p: ProjectPlan, skillName: string, skillDescription: Option<string>, skillContent: string,
    source: SourceType, sourceRef: Option<string>)
  {
    && p.skillBlock == SkillBlock(skillContent, skillName, skillDescription, source, sourceRef)
    && p.projectName == skillName && p.projectDescription == skillDescription
    && p.workflowName == skillName + " Workflow" && p.workflowDescription == skillDescription
    && p.sessionStepNumber == 0 == p.currentStep
  }

  /** `importAsProject`, once session access is granted. */
  function ImportAsProject(
    skillName: string, skillDescription: Option<string>, skillContent: string,
    contexts: seq<ContextArg>, files: seq<FileArg>, source: SourceType, sourceRef: Option<string>): (r: Result<ProjectPlan, string>)
    ensures r.Failure? <==> contexts == []
    ensures r.Failure? ==> r.error == NoContextsMessage
    ensures r.Success? ==> PlanRecords(r.value, skillName, skillDescription, skillContent, source, sourceRef)
  {
    if |contexts| == 0 then Failure(NoContextsMessage)
    else
      var fm := FileMap(files);
      var templates := LaterTemplates(contexts, fm, skillName, source);
      var steps := WorkflowSteps(contexts);
      Success(ProjectPlan(
        SkillBlock(skillContent, skillName, skillDescription, source, sourceRef),
        ImportContextFiles(contexts[0], fm, skillName, source),
        templates,
        skillName + " Workflow",
        skillDescription,
        steps,
        skillName,
        skillDescription,
        0,
        0,
        |templates|))
  }

  /** The shape of an imported project: one step per context, named after it;
      the first runs in the current session with that context's files, every
      later one through its own template built from its context; the
      template count is the number of later contexts. */
  lemma ImportAsProjectShape(
    skillName: string, skillDescription: Option<string>, skillContent: string,
    contexts: seq<ContextArg>, files: seq<FileArg>, source: SourceType, sourceRef: Option<string>)
    requires |contexts| > 0
    ensures var r := ImportAsProject(skillName, skillDescription, skillContent, contexts, files, source, sourceRef);
      var p := r.value;
      var fm := FileMap(files);
      && r.Success?
      && |p.steps| == |contexts| && p.templateCount == |p.templates| == |contexts| - 1
      && p.steps[0].template.None?
      && p.sessionBlocks == ImportContextFiles(contexts[0], fm, skillName, source)
      && p.currentStep == 0 && p.projectName == skillName
      && (forall i :: 0 <= i < |contexts| ==>
            p.steps[i].name == contexts[i].labelText && Stable !in p.steps[i].carryForwardZones)
      && (forall i :: 1 <= i < |contexts| ==>
            p.steps[i].template.Some? && p.steps[i].template.value < |p.templates|
            && p.templates[p.steps[i].template.value].name == contexts[i].labelText
            && p.templates[p.steps[i].template.value].blocks == BuildTemplateBlocks(contexts[i], fm, skillName, source))
  {
  }

  /** A template description reads back the step number it was given. */
  lemma StepDescriptionNumber(i: nat, labelText: string)
    ensures var d := StepDescription(i, labelText);
      var digits := NatToString(i + 1);
      StartsWith(d, "Step ") && d[5..5 + |digits|] == digits
      && ParseDecimal(d[5..5 + |digits|]) == i + 1
      && d[5 + |digits|..] == ": " + labelText
  {
    NatToStringRoundTrip(i + 1);
  }

  lemma NatToStringDiffers(m: nat, n: nat)
    requires m != n
    ensures NatToString(m) != NatToString(n)
  {
    if NatToString(m) == NatToString(n) {
      NatToStringInjective(m, n);
    }
  }

  /** The first `:` of a description is the one right after the step number. */
  lemma FirstColon(n: nat, labelText: string)
    ensures IndexOfChar("Step " + NatToString(n) + ": " + labelText, ':') == Some(5 + |NatToString(n)|)
  {
    var d := "Step " + NatToString(n) + ": " + labelText;
    var digits := NatToString(n);
    assert d[5 + |digits|] == ':';
    assert ':' !in d[..5 + |digits|] by {
      forall k | 0 <= k < 5 + |digits|
        ensures d[k] != ':'
      {
        if k >= 5 {
          assert d[k] == digits[k - 5];
          assert IsDigit(digits[k - 5]);
        }
      }
    }
  }

  /** Different steps get different template descriptions. */
  lemma StepDescriptionsDiffer(i: nat, j: nat, a: string, b: string)
    requires i != j
    ensures StepDescription(i, a) != StepDescription(j, b)
  {
    var di, dj := NatToString(i + 1), NatToString(j + 1);
    FirstColon(i + 1, a);
    FirstColon(j + 1, b);
    if |di| == |dj| {
      NatToStringDiffers(i + 1, j + 1);
      StepDescriptionNumber(i, a);
      StepDescriptionNumber(j, b);
    }
  }
}
