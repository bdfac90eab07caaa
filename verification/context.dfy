/** Context assembly (src/lib/llm/context.ts): zoned blocks become an ordered
    list of role-tagged messages for a language model, plus the active system
    prompt, a character-based token estimate and per-zone statistics. */
module Context {
  import opened Wrappers
  import opened Strings
  import opened Seqs
  import opened Sorting
  import opened Zones

  /** A block as the assembler receives it. Its zone is an open string, since
      callers may hand over a zone that is none of the three. */
  datatype Block = Block(content: string, kind: string, zone: string, position: real)

  datatype Role = SystemRole | UserRole | AssistantRole

  datatype Message = Message(role: Role, content: string)

  datatype HistoryRole = HistoryUser | HistoryAssistant

  /** One prior turn of a conversation. */
  datatype HistoryMessage = HistoryMessage(role: HistoryRole, content: string)

  const SystemPromptKind: string := "system_prompt"
  const BlockSeparator: string := "\n\n"
  const ReferencePrefix: string := "Reference Material:\n\n"
  const CurrentPrefix: string := "Current Context:\n\n"

  function PositionKey(b: Block): Key {
    [b.position]
  }

  /** Whether block `b` contributes to zone `z`'s text: not a system prompt, and
      its zone string is exactly `z`'s name. */
  predicate Participates(b: Block, z: Zone) {
    b.kind != SystemPromptKind && b.zone == ZoneName(z)
  }

  function InZone(z: Zone): Block -> bool {
    (b: Block) => Participates(b, z)
  }

  /** The blocks of zone `z`, ascending by position, ties in input order. */
  function ZoneBlocks(blocks: seq<Block>, z: Zone): seq<Block> {
    SortBy(Filter(blocks, InZone(z)), PositionKey)
  }

  function Contents(bs: seq<Block>): seq<string> {
    seq(|bs|, i requires 0 <= i < |bs| => bs[i].content)
  }

  /** The zone's contents joined by a blank line. */
  function ZoneText(blocks: seq<Block>, z: Zone): string {
    Join(Contents(ZoneBlocks(blocks, z)), BlockSeparator)
  }

  /** The message a non-empty zone text becomes. */
  function ZoneMessage(z: Zone, text: string): Message {
    match z
    case Permanent => Message(SystemRole, text)
    case Stable => Message(UserRole, ReferencePrefix + text)
    case Working => Message(UserRole, CurrentPrefix + text)
  }

  /** Which zone a zone message came from, read off its role and prefix alone. */
  function MessageRank(m: Message): nat {
    if m.role == SystemRole then 0
    else if StartsWith(m.content, ReferencePrefix) then 1
    else 2
  }

  /** The zone messages for the three zone texts, in zone order, a zone
      contributing only when its text is non-empty. */
  function Sections(p: string, s: string, w: string): (r: seq<Message>)
    ensures |r| <= 3
    ensures ZoneMessage(Permanent, p) in r <==> p != ""
    ensures ZoneMessage(Stable, s) in r <==> s != ""
    ensures ZoneMessage(Working, w) in r <==> w != ""
    ensures forall i :: 0 <= i < |r| ==>
      r[i] in {ZoneMessage(Permanent, p), ZoneMessage(Stable, s), ZoneMessage(Working, w)}
    ensures forall i, j :: 0 <= i < j < |r| ==> MessageRank(r[i]) < MessageRank(r[j])
  {
    ZoneMessageRank(Permanent, p);
    ZoneMessageRank(Stable, s);
    ZoneMessageRank(Working, w);
    assert ZoneMessage(Stable, s) != ZoneMessage(Working, w) by {
      assert (CurrentPrefix + w)[0] != (ReferencePrefix + s)[0];
    }
    (if p != "" then [ZoneMessage(Permanent, p)] else [])
      + (if s != "" then [ZoneMessage(Stable, s)] else [])
      + (if w != "" then [ZoneMessage(Working, w)] else [])
  }

  lemma ZoneMessageRank(z: Zone, text: string)
    ensures MessageRank(ZoneMessage(z, text)) == Rank(z)
  {
    if z == Working {
      assert (CurrentPrefix + text)[0] == 'C';
    }
  }

  /** The zone part of the assembled messages: one message per zone whose
      text is non-empty, in zone order whatever the input order. */
  function ZoneMessages(blocks: seq<Block>): (r: seq<Message>)
    ensures |r| <= 3
  {
    Sections(ZoneText(blocks, Permanent), ZoneText(blocks, Stable), ZoneText(blocks, Working))
  }

  /** `assembleContext`: the zone messages, then the user's prompt, which is
      always present and always last. */
  function AssembleContext(blocks: seq<Block>, userPrompt: string): (r: seq<Message>)
    ensures 1 <= |r| <= 4
    ensures r[|r| - 1] == Message(UserRole, userPrompt)
    ensures r[..|r| - 1] == ZoneMessages(blocks)
  {
    WithPrompt(ZoneMessages(blocks), userPrompt)
  }

  /** The zone messages followed by the user's prompt. */
  function WithPrompt(zm: seq<Message>, prompt: string): (r: seq<Message>)
    ensures |r| == |zm| + 1
    ensures r[|r| - 1] == Message(UserRole, prompt)
    ensures r[..|r| - 1] == zm
  {
    zm + [Message(UserRole, prompt)]
  }

  function HistoryToMessage(m: HistoryMessage): Message {
    Message(if m.role == HistoryUser then UserRole else AssistantRole, m.content)
  }

  /** `assembleContextWithConversation`: zone messages, the prior turns
      verbatim and in order, then the new user message. */
  function AssembleContextWithConversation(blocks: seq<Block>, history: seq<HistoryMessage>, newMessage: string): (r: seq<Message>)
    ensures |r| == |ZoneMessages(blocks)| + |history| + 1
    ensures r[..|ZoneMessages(blocks)|] == ZoneMessages(blocks)
    ensures r[|ZoneMessages(blocks)|..|r| - 1] == HistoryMessages(history)
    ensures r[|r| - 1] == Message(UserRole, newMessage)
  {
    var zm := ZoneMessages(blocks);
    var hm := HistoryMessages(history);
    ThreeParts(zm, hm, Message(UserRole, newMessage));
    zm + hm + [Message(UserRole, newMessage)]
  }

  lemma ThreeParts<T>(a: seq<T>, b: seq<T>, x: T)
    ensures (a + b + [x])[..|a|] == a
    ensures (a + b + [x])[|a|..|a| + |b|] == b
    ensures (a + b + [x])[|a| + |b|] == x
  {
  }

  /** Prior turns become messages one for one, keeping their text and order
      and never taking the system role. */
  function HistoryMessages(history: seq<HistoryMessage>): (r: seq<Message>)
    ensures |r| == |history|
    ensures forall i :: 0 <= i < |r| ==> r[i].role != SystemRole && r[i].content == history[i].content
    ensures forall i :: 0 <= i < |r| ==> (r[i].role == UserRole <==> history[i].role == HistoryUser)
  {
    seq(|history|, i requires 0 <= i < |history| => HistoryToMessage(history[i]))
  }

  /** With no history, the conversation variant is the plain assembler. */
  lemma EmptyHistoryIsAssemble(blocks: seq<Block>, newMessage: string)
    ensures AssembleContextWithConversation(blocks, [], newMessage) == AssembleContext(blocks, newMessage)
  {
  }

  /** Inside a zone the blocks are a rearrangement of the zone's participating
      blocks, ascending by position, and blocks of equal position keep their
      input order. */
  lemma ZoneBlocksOrder(blocks: seq<Block>, z: Zone, p: real)
    ensures multiset(ZoneBlocks(blocks, z)) == multiset(Filter(blocks, InZone(z)))
    ensures forall i, j :: 0 <= i < j < |ZoneBlocks(blocks, z)| ==>
      ZoneBlocks(blocks, z)[i].position <= ZoneBlocks(blocks, z)[j].position
    ensures Filter(ZoneBlocks(blocks, z), HasKey(PositionKey, [p]))
         == Filter(blocks, And(InZone(z), HasKey(PositionKey, [p])))
  {
    var f := Filter(blocks, InZone(z));
    var zs := ZoneBlocks(blocks, z);
    SortBySorted(f, PositionKey);
    forall i, j | 0 <= i < j < |zs|
      ensures zs[i].position <= zs[j].position
    {
      assert LexLeq(PositionKey(zs[i]), PositionKey(zs[j]));
      assert PositionKey(zs[j])[1..] == [];
    }
    SortByStable(f, PositionKey, [p]);
    FilterFilter(blocks, InZone(z), HasKey(PositionKey, [p]));
  }

  /** A block that is a system prompt, or whose zone is none of the three names,
      can be removed anywhere without changing the assembled messages. */
  lemma ExcludedBlockIgnored(a: seq<Block>, x: Block, b: seq<Block>, userPrompt: string)
    requires x.kind == SystemPromptKind || ParseZone(x.zone).None?
    ensures AssembleContext(a + [x] + b, userPrompt) == AssembleContext(a + b, userPrompt)
  {
    forall z: Zone
      ensures Filter(a + [x] + b, InZone(z)) == Filter(a + b, InZone(z))
    {
      FilterAppend(a + [x], b, InZone(z));
      FilterAppend(a, [x], InZone(z));
      FilterAppend(a, b, InZone(z));
      FilterSingleton(x, InZone(z));
    }
    assert forall z :: ZoneText(a + [x] + b, z) == ZoneText(a + b, z);
  }

  /** The input order does not matter: two block lists that hold the same
      blocks in every zone, with no two blocks of a zone at the same position,
      assemble to the same messages. */
  lemma AssembleIgnoresInputOrder(a: seq<Block>, b: seq<Block>, userPrompt: string)
    requires forall z :: multiset(Filter(a, InZone(z))) == multiset(Filter(b, InZone(z)))
    requires forall z :: DistinctKeys(Filter(a, InZone(z)), PositionKey)
    ensures AssembleContext(a, userPrompt) == AssembleContext(b, userPrompt)
  {
    forall z: Zone
      ensures ZoneBlocks(a, z) == ZoneBlocks(b, z)
    {
      var fa := Filter(a, InZone(z));
      var fb := Filter(b, InZone(z));
      SortBySorted(fa, PositionKey);
      SortBySorted(fb, PositionKey);
      DistinctKeysPermutation(fa, SortBy(fa, PositionKey), PositionKey);
      SortedUnique(SortBy(fa, PositionKey), SortBy(fb, PositionKey), PositionKey);
    }
    assert forall z :: ZoneText(a, z) == ZoneText(b, z);
  }

  /** A block that can be the active system prompt. */
  predicate IsPromptBlock(b: Block) {
    b.kind == SystemPromptKind && b.zone == ZoneName(Permanent)
  }

  function PromptBlocks(blocks: seq<Block>): seq<Block> {
    SortBy(Filter(blocks, IsPromptBlock), PositionKey)
  }

  /** `extractSystemPromptFromBlocks`: the content of the permanent-zone system
      prompt block that sorts first by position, if there is one. */
  function ExtractSystemPrompt(blocks: seq<Block>): (r: Option<string>)
    ensures r.None? <==> forall i :: 0 <= i < |blocks| ==> !IsPromptBlock(blocks[i])
  {
    var sorted := PromptBlocks(blocks);
    FilterMembers(blocks, IsPromptBlock);
    if |sorted| == 0 then
      None
    else
      Some(sorted[0].content)
  }

  /** The head of a list sorted by position has the least position. */
  lemma SortedHeadLeast(sorted: seq<Block>, x: Block)
    requires SortedBy(sorted, PositionKey) && |sorted| > 0 && x in sorted
    ensures sorted[0].position <= x.position
  {
    var j :| 0 <= j < |sorted| && sorted[j] == x;
    if j > 0 {
      assert LexLeq(PositionKey(sorted[0]), PositionKey(sorted[j]));
      assert PositionKey(sorted[0])[1..] == [];
    }
  }

  /** The active prompt is that of the block of least position among the
      permanent-zone system prompts, and of those the earliest in the input. */
  lemma ActivePromptIsLowestEarliest(blocks: seq<Block>) returns (k: nat)
    requires ExtractSystemPrompt(blocks).Some?
    ensures k < |blocks| && IsPromptBlock(blocks[k])
    ensures ExtractSystemPrompt(blocks).value == blocks[k].content
    ensures forall i :: 0 <= i < |blocks| && IsPromptBlock(blocks[i]) ==> blocks[k].position <= blocks[i].position
    ensures forall i :: 0 <= i < k && IsPromptBlock(blocks[i]) ==> blocks[i].position != blocks[k].position
  {
    var f := Filter(blocks, IsPromptBlock);
    var sorted := PromptBlocks(blocks);
    var m := sorted[0].position;
    var h := HasKey(PositionKey, [m]);
    FilterMembers(blocks, IsPromptBlock);
    SortBySorted(f, PositionKey);
    forall i | 0 <= i < |blocks| && IsPromptBlock(blocks[i])
      ensures m <= blocks[i].position
    {
      assert blocks[i] in multiset(sorted);
      SortedHeadLeast(sorted, blocks[i]);
    }
    SortByStable(f, PositionKey, [m]);
    FilterFilter(blocks, IsPromptBlock, h);
    FilterFirst(sorted, h, 0);
    var both := And(IsPromptBlock, h);
    assert sorted[0] in multiset(f);
    assert sorted[0] in blocks;
    var k0 :| 0 <= k0 < |blocks| && blocks[k0] == sorted[0];
    assert both(blocks[k0]);
    k := FirstIndex(blocks, both);
    FilterFirst(blocks, both, k);
    assert blocks[k] == sorted[0];
    forall i | 0 <= i < k && IsPromptBlock(blocks[i])
      ensures blocks[i].position != blocks[k].position
    {
      assert !both(blocks[i]);
      assert PositionKey(blocks[i]) != [m];
      assert [blocks[i].position][0] == blocks[i].position;
    }
  }

  /** Total characters over all message contents. */
  function MessageChars(ms: seq<Message>): nat
    decreases |ms|
  {
    if |ms| == 0 then 0 else MessageChars(ms[..|ms| - 1]) + |ms[|ms| - 1].content|
  }

  lemma {:induction false} MessageCharsAppend(a: seq<Message>, b: seq<Message>)
    ensures MessageChars(a + b) == MessageChars(a) + MessageChars(b)
    decreases |b|
  {
    if |b| == 0 {
      assert a + b == a;
    } else {
      assert (a + b)[..|a + b| - 1] == a + b[..|b| - 1];
      MessageCharsAppend(a, b[..|b| - 1]);
    }
  }

  /** `estimateTokenCount`: a quarter of all characters, rounded up. */
  function EstimateTokenCount(ms: seq<Message>): (r: nat)
    ensures 4 * r >= MessageChars(ms) && 4 * r < MessageChars(ms) + 4
  {
    CeilQuarter(MessageChars(ms))
  }

  /** Estimating two message lists together never costs more than estimating
      them apart, and at most one token less. */
  lemma EstimateOfConcatenation(a: seq<Message>, b: seq<Message>)
    ensures EstimateTokenCount(a + b) <= EstimateTokenCount(a) + EstimateTokenCount(b)
    ensures EstimateTokenCount(a) + EstimateTokenCount(b) <= EstimateTokenCount(a + b) + 1
  {
    MessageCharsAppend(a, b);
  }

  datatype Tally = Tally(count: nat, chars: nat)

  datatype ContextStats = ContextStats(permanent: Tally, stable: Tally, working: Tally, total: Tally)

  /** The statistics slot a block's lower-cased zone names, if any. A zone
      lower-casing to "total" names the total slot itself. */
  datatype Slot = PermanentSlot | StableSlot | WorkingSlot | TotalSlot

  function SlotOf(zone: string): Option<Slot> {
    var z := ToLower(zone);
    if z == "permanent" then Some(PermanentSlot)
    else if z == "stable" then Some(StableSlot)
    else if z == "working" then Some(WorkingSlot)
    else if z == "total" then Some(TotalSlot)
    else None
  }

  function InSlot(s: Slot): Block -> bool {
    (b: Block) => SlotOf(b.zone) == Some(s)
  }

  /** Total characters over all block contents. */
  function BlockChars(bs: seq<Block>): nat
    decreases |bs|
  {
    if |bs| == 0 then 0 else BlockChars(bs[..|bs| - 1]) + |bs[|bs| - 1].content|
  }

  /** Adding one block to the end of a list adds it to its slot's tally. */
  lemma TallySnoc(bs: seq<Block>, b: Block, sl: Slot)
    ensures Filter(bs + [b], InSlot(sl)) == Filter(bs, InSlot(sl)) + (if InSlot(sl)(b) then [b] else [])
    ensures BlockChars(bs + [b]) == BlockChars(bs) + |b.content|
    ensures TallyOf(Filter(bs + [b], InSlot(sl)))
         == if InSlot(sl)(b) then Bump(TallyOf(Filter(bs, InSlot(sl))), b) else TallyOf(Filter(bs, InSlot(sl)))
  {
    assert (bs + [b])[..|bs|] == bs;
    BlockCharsSnoc(bs, b);
    var f := Filter(bs, InSlot(sl));
    if InSlot(sl)(b) {
      BlockCharsSnoc(f, b);
      assert Filter(bs + [b], InSlot(sl)) == f + [b];
    } else {
      assert Filter(bs + [b], InSlot(sl)) == f;
    }
  }

  lemma BlockCharsSnoc(bs: seq<Block>, b: Block)
    ensures BlockChars(bs + [b]) == BlockChars(bs) + |b.content|
  {
    assert (bs + [b])[..|bs|] == bs;
  }

  function TallyOf(bs: seq<Block>): Tally {
    Tally(|bs|, BlockChars(bs))
  }

  function Bump(t: Tally, b: Block): Tally {
    Tally(t.count + 1, t.chars + |b.content|)
  }

  /** One block's contribution: its slot's tally, if it names one, and the
      total. */
  function Record(st: ContextStats, b: Block): ContextStats {
    var st' := match SlotOf(b.zone)
      case Some(PermanentSlot) => st.(permanent := Bump(st.permanent, b))
      case Some(StableSlot) => st.(stable := Bump(st.stable, b))
      case Some(WorkingSlot) => st.(working := Bump(st.working, b))
      case Some(TotalSlot) => st.(total := Bump(st.total, b))
      case None => st;
    st'.(total := Bump(st'.total, b))
  }

  /** The stats for `bs`, as the reference definition of each slot states them. */
  predicate Tallied(st: ContextStats, bs: seq<Block>) {
    && st.permanent == TallyOf(Filter(bs, InSlot(PermanentSlot)))
    && st.stable == TallyOf(Filter(bs, InSlot(StableSlot)))
    && st.working == TallyOf(Filter(bs, InSlot(WorkingSlot)))
    && st.total.count == |bs| + |Filter(bs, InSlot(TotalSlot))|
    && st.total.chars == BlockChars(bs) + BlockChars(Filter(bs, InSlot(TotalSlot)))
  }

  lemma RecordKeepsTallied(st: ContextStats, bs: seq<Block>, b: Block)
    requires Tallied(st, bs)
    ensures Tallied(Record(st, b), bs + [b])
  {
    TallySnoc(bs, b, PermanentSlot);
    TallySnoc(bs, b, StableSlot);
    TallySnoc(bs, b, WorkingSlot);
    TallySnoc(bs, b, TotalSlot);
    match SlotOf(b.zone)
    case Some(PermanentSlot) =>
    case Some(StableSlot) =>
    case Some(WorkingSlot) =>
    case Some(TotalSlot) =>
    case None =>
  }

  /** `getContextStats`: each zone's tally covers exactly the blocks whose zone
      lower-cases to its name; the total covers every block once, and a block
      whose zone lower-cases to "total" a second time. */
  method GetContextStats(blocks: seq<Block>) returns (st: ContextStats)
    ensures st.permanent == TallyOf(Filter(blocks, InSlot(PermanentSlot)))
    ensures st.stable == TallyOf(Filter(blocks, InSlot(StableSlot)))
    ensures st.working == TallyOf(Filter(blocks, InSlot(WorkingSlot)))
    ensures st.total.count == |blocks| + |Filter(blocks, InSlot(TotalSlot))|
    ensures st.total.chars == BlockChars(blocks) + BlockChars(Filter(blocks, InSlot(TotalSlot)))
  {
    st := ContextStats(Tally(0, 0), Tally(0, 0), Tally(0, 0), Tally(0, 0));
    var i := 0;
    while i < |blocks|
      invariant 0 <= i <= |blocks|
      invariant Tallied(st, blocks[..i])
    {
      assert blocks[..i + 1] == blocks[..i] + [blocks[i]];
      RecordKeepsTallied(st, blocks[..i], blocks[i]);
      st := Record(st, blocks[i]);
      i := i + 1;
    }
    assert blocks[..i] == blocks;
  }

  lemma {:induction false} BlockCharsPartition(blocks: seq<Block>)
    requires forall i :: 0 <= i < |blocks| ==> SlotOf(blocks[i].zone) in {Some(PermanentSlot), Some(StableSlot), Some(WorkingSlot)}
    ensures |blocks| == |Filter(blocks, InSlot(PermanentSlot))| + |Filter(blocks, InSlot(StableSlot))| + |Filter(blocks, InSlot(WorkingSlot))|
    ensures BlockChars(blocks) == BlockChars(Filter(blocks, InSlot(PermanentSlot)))
      + BlockChars(Filter(blocks, InSlot(StableSlot))) + BlockChars(Filter(blocks, InSlot(WorkingSlot)))
    decreases |blocks|
  {
    if |blocks| > 0 {
      var init := blocks[..|blocks| - 1];
      var b := blocks[|blocks| - 1];
      assert forall i :: 0 <= i < |init| ==> init[i] == blocks[i];
      assert blocks == init + [b];
      BlockCharsPartition(init);
      TallySnoc(init, b, PermanentSlot);
      TallySnoc(init, b, StableSlot);
      TallySnoc(init, b, WorkingSlot);
    }
  }

  /** When every block is in one of the three zones, whatever its case, the
      total is the sum of the three zone tallies. */
  lemma StatsTotalIsSum(blocks: seq<Block>, st: ContextStats)
    requires forall i :: 0 <= i < |blocks| ==> SlotOf(blocks[i].zone) in {Some(PermanentSlot), Some(StableSlot), Some(WorkingSlot)}
    requires st.permanent == TallyOf(Filter(blocks, InSlot(PermanentSlot)))
    requires st.stable == TallyOf(Filter(blocks, InSlot(StableSlot)))
    requires st.working == TallyOf(Filter(blocks, InSlot(WorkingSlot)))
    requires st.total.count == |blocks| + |Filter(blocks, InSlot(TotalSlot))|
    requires st.total.chars == BlockChars(blocks) + BlockChars(Filter(blocks, InSlot(TotalSlot)))
    ensures st.total.count == st.permanent.count + st.stable.count + st.working.count
    ensures st.total.chars == st.permanent.chars + st.stable.chars + st.working.chars
  {
    FilterNone(blocks, InSlot(TotalSlot));
    BlockCharsPartition(blocks);
  }
}
