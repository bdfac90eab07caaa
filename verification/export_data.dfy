/** The export queries (convex/skillExport.ts): a session's blocks, or every
    step of a project, in zone order and then position order, each block cut
    down to the fields an export needs. */
module ExportData {
  import opened Wrappers
  import opened Seqs
  import opened Sorting
  import opened Zones

  /** The optional metadata a block may carry. */
  datatype BlockMetadata = BlockMetadata(
    skillName: Option<string>,
    skillDescription: Option<string>,
    sourceType: Option<string>,
    sourceRef: Option<string>,
    parentSkillName: Option<string>)

  /** A block as stored: the exported fields plus the bookkeeping ones. */
  datatype StoredBlock = StoredBlock(
    id: nat,
    sessionId: nat,
    content: string,
    kind: string,
    zone: string,
    position: real,
    metadata: Option<BlockMetadata>,
    tokens: Option<nat>,
    createdAt: nat,
    updatedAt: nat)

  /** A block as exported. */
  datatype ExportBlock = ExportBlock(
    id: nat,
    content: string,
    kind: string,
    zone: string,
    position: real,
    metadata: Option<BlockMetadata>)

  /** `blockShape`. */
  function BlockShape(b: StoredBlock): (r: ExportBlock)
    ensures r.id == b.id && r.content == b.content && r.kind == b.kind
    ensures r.zone == b.zone && r.position == b.position && r.metadata == b.metadata
  {
    ExportBlock(b.id, b.content, b.kind, b.zone, b.position, b.metadata)
  }

  /** `zoneOrder[zone] ?? 1`: an unknown zone sorts with STABLE. */
  function ZoneOrder(zone: string): (r: nat)
    ensures r <= 2
    ensures r == 0 <==> zone == "PERMANENT"
    ensures r == 2 <==> zone == "WORKING"
    ensures forall z :: zone == ZoneName(z) ==> r == Rank(z)
  {
    match ParseZone(zone)
    case Some(z) => Rank(z)
    case None => 1
  }

  /** The comparator of `sortBlocks` as a key: zone rank, then position. */
  function StoredKey(b: StoredBlock): Key {
    [ZoneOrder(b.zone) as real, b.position]
  }

  function ExportKey(b: ExportBlock): Key {
    [ZoneOrder(b.zone) as real, b.position]
  }

  /** `sortBlocks`, a stable sort. */
  function SortBlocks(blocks: seq<StoredBlock>): (r: seq<StoredBlock>)
    ensures multiset(r) == multiset(blocks)
  {
    SortBy(blocks, StoredKey)
  }

  /** Sorted blocks come zone by zone, and by position within a zone. */
  predicate ZoneThenPosition(s: seq<StoredBlock>) {
    forall i, j :: 0 <= i < j < |s| ==>
      ZoneOrder(s[i].zone) < ZoneOrder(s[j].zone)
      || (ZoneOrder(s[i].zone) == ZoneOrder(s[j].zone) && s[i].position <= s[j].position)
  }

  lemma SortBlocksOrdered(blocks: seq<StoredBlock>)
    ensures ZoneThenPosition(SortBlocks(blocks))
  {
    var r := SortBlocks(blocks);
    SortBySorted(blocks, StoredKey);
    forall i, j | 0 <= i < j < |r|
      ensures ZoneOrder(r[i].zone) < ZoneOrder(r[j].zone)
        || (ZoneOrder(r[i].zone) == ZoneOrder(r[j].zone) && r[i].position <= r[j].position)
    {
      PairOrder(ZoneOrder(r[i].zone) as real, r[i].position, ZoneOrder(r[j].zone) as real, r[j].position);
    }
  }

  /** Blocks with equal zone rank and position keep their stored order. */
  lemma SortBlocksStable(blocks: seq<StoredBlock>, k: Key)
    ensures Filter(SortBlocks(blocks), HasKey(StoredKey, k)) == Filter(blocks, HasKey(StoredKey, k))
  {
    SortByStable(blocks, StoredKey, k);
  }

  /** Shaping and sorting commute: sorting the stored rows and then shaping
      them gives the shaped rows in sorted order. */
  lemma ShapeThenSort(blocks: seq<StoredBlock>)
    ensures MapSeq(BlockShape, SortBlocks(blocks)) == SortBy(MapSeq(BlockShape, blocks), ExportKey)
  {
    SortByMap(blocks, StoredKey, BlockShape, ExportKey);
  }

  /** Exported rows come zone by zone, and by position within a zone. */
  predicate ExportOrdered(s: seq<ExportBlock>) {
    forall i, j :: 0 <= i < j < |s| ==>
      ZoneOrder(s[i].zone) < ZoneOrder(s[j].zone)
      || (ZoneOrder(s[i].zone) == ZoneOrder(s[j].zone) && s[i].position <= s[j].position)
  }

  /** The rows a query returns are the shaped stored rows, stably sorted by
      zone rank and then position. */
  lemma ShapedSorted(blocks: seq<StoredBlock>)
    ensures var r := MapSeq(BlockShape, SortBlocks(blocks));
      && r == SortBy(MapSeq(BlockShape, blocks), ExportKey)
      && multiset(r) == multiset(MapSeq(BlockShape, blocks))
      && ExportOrdered(r)
  {
    var sb := SortBlocks(blocks);
    var r := MapSeq(BlockShape, sb);
    ShapeThenSort(blocks);
    MapSeqPermutation(BlockShape, sb, blocks);
    SortBlocksOrdered(blocks);
    forall i, j | 0 <= i < j < |r|
      ensures ZoneOrder(r[i].zone) < ZoneOrder(r[j].zone)
        || (ZoneOrder(r[i].zone) == ZoneOrder(r[j].zone) && r[i].position <= r[j].position)
    {
      assert r[i].zone == sb[i].zone && r[i].position == sb[i].position;
      assert r[j].zone == sb[j].zone && r[j].position == sb[j].position;
    }
  }

  datatype SessionInfo = SessionInfo(id: nat, name: string, projectId: Option<nat>, stepNumber: Option<int>)

  datatype SessionExport = SessionExport(session: SessionInfo, blocks: seq<ExportBlock>)

  /** `getExportData`: nothing without access or without the session. */
  function GetExportData(hasAccess: bool, session: Option<SessionInfo>, blocks: seq<StoredBlock>): (r: Option<SessionExport>)
    ensures r.Some? <==> hasAccess && session.Some?
    ensures r.Some? ==> r.value.session == session.value && |r.value.blocks| == |blocks|
    ensures r.Some? ==> r.value.blocks == SortBy(MapSeq(BlockShape, blocks), ExportKey)
    ensures r.Some? ==> multiset(r.value.blocks) == multiset(MapSeq(BlockShape, blocks))
    ensures r.Some? ==> ExportOrdered(r.value.blocks)
  {
    if !hasAccess || session.None? then None
    else
      ShapedSorted(blocks);
      Some(SessionExport(session.value, MapSeq(BlockShape, SortBlocks(blocks))))
  }

  /** A session of a project together with its stored blocks. */
  datatype ProjectSession = ProjectSession(id: nat, name: string, stepNumber: Option<int>, blocks: seq<StoredBlock>)

  /** `stepNumber ?? 0`. */
  function StepOf(s: ProjectSession): int {
    s.stepNumber.GetOr(0)
  }

  function StepKey(s: ProjectSession): Key {
    [StepOf(s) as real]
  }

  datatype StepExport = StepExport(sessionId: nat, name: string, stepNumber: int, blocks: seq<ExportBlock>)

  function ExportStep(s: ProjectSession): (r: StepExport)
    ensures r.stepNumber == StepOf(s) && r.sessionId == s.id && r.name == s.name
    ensures |r.blocks| == |s.blocks|
    ensures r.blocks == SortBy(MapSeq(BlockShape, s.blocks), ExportKey)
    ensures multiset(r.blocks) == multiset(MapSeq(BlockShape, s.blocks))
    ensures ExportOrdered(r.blocks)
  {
    ShapedSorted(s.blocks);
    StepExport(s.id, s.name, StepOf(s), MapSeq(BlockShape, SortBlocks(s.blocks)))
  }

  datatype WorkflowStep = WorkflowStep(name: string, carryForwardZones: seq<Zone>)

  datatype ProjectInfo = ProjectInfo(id: nat, name: string, description: Option<string>, userId: Option<string>, workflowId: Option<nat>)

  datatype ProjectExport = ProjectExport(project: ProjectInfo, workflowSteps: Option<seq<WorkflowStep>>, steps: seq<StepExport>)

  /** The owner check: a project with an owner is visible to that owner only. */
  predicate MayExport(project: ProjectInfo, userId: Option<string>) {
    project.userId.None? || project.userId == userId
  }

  /** `getProjectExportData`: the project's sessions in step order, each with
      its sorted blocks. `workflow` is the project's workflow if it has one
      that exists. */
  function GetProjectExportData(project: Option<ProjectInfo>, userId: Option<string>,
    workflow: Option<seq<WorkflowStep>>, sessions: seq<ProjectSession>): (r: Option<ProjectExport>)
    ensures r.Some? <==> project.Some? && MayExport(project.value, userId)
    ensures r.Some? ==> r.value.project == project.value && r.value.workflowSteps == workflow
    ensures r.Some? ==> |r.value.steps| == |sessions|
  {
    if project.None? || !MayExport(project.value, userId) then None
    else
      var ordered := SortBy(sessions, StepKey);
      Some(ProjectExport(project.value, workflow, MapSeq(ExportStep, ordered)))
  }

  /** The exported steps are in ascending step-number order and are exactly
      the project's sessions. */
  lemma ProjectStepsOrdered(project: Option<ProjectInfo>, userId: Option<string>,
    workflow: Option<seq<WorkflowStep>>, sessions: seq<ProjectSession>)
    requires GetProjectExportData(project, userId, workflow, sessions).Some?
    ensures var steps := GetProjectExportData(project, userId, workflow, sessions).value.steps;
      && (forall i, j :: 0 <= i < j < |steps| ==> steps[i].stepNumber <= steps[j].stepNumber)
      && multiset(steps) == multiset(MapSeq(ExportStep, sessions))
  {
    var ordered := SortBy(sessions, StepKey);
    SortBySorted(sessions, StepKey);
    MapSeqPermutation(ExportStep, ordered, sessions);
    var steps := MapSeq(ExportStep, ordered);
    forall i, j | 0 <= i < j < |steps|
      ensures steps[i].stepNumber <= steps[j].stepNumber
    {
      var a, b := StepKey(ordered[i]), StepKey(ordered[j]);
      assert LexLeq(a, b);
      assert a[1..] == [] && b[1..] == [];
    }
  }
}
