# ContextForge skill packages and context assembly, in Dafny

ContextForge keeps an LLM conversation's context as *blocks*, each in one of
three zones: PERMANENT, STABLE and WORKING. A block has a type, a content
string and a position. This project models the deterministic core of that
system:

- **Context assembly.** The blocks become role-tagged messages in a fixed
  zone order, optionally followed by conversation history. It also covers
  system-prompt extraction, the 4-characters-per-token estimate and the
  per-zone statistics.
- **Reading skill packages.**
  - The `SKILL.md` front-matter parser and its server-side mirror.
  - The resolver that finds `SKILL.md` in a path→content map and assigns
    zones to `references/{zone}/…` files.
  - The ZIP root-prefix detection and routing of the import hook.
- **Context maps.** The validator and depth-first topological sort for
  `context-map.yaml`, and the planner that turns a validated map into
  templates, a workflow and a project.
- **Writing skill packages.**
  - Title extraction, filename sanitising and collision-free naming.
  - Export of one session or a whole project: block ordering, SKILL.md
    generation, `references/{zone}/` paths, content de-duplication, and
    the generated context map.

Every operation is a pure function over immutable datatypes, except
`GetContextStats` and `ImportFromScan`, which are loop methods. A ZIP
archive or a file map is a sequence of (path, content) pairs in insertion
order; putting an existing path replaces it in place. JSZip also
creates a folder entry for every directory on a written path
(`references/` and `references/<zone>/`); the model's archives leave
these out, which changes nothing on import, because `importFromZip`
skips every `dir` entry (useSkillImport.ts:73, 77). The YAML document is
a small `Yaml` datatype whose maps keep their key order. The clock, the
database and the file system are parameters or inputs.

Modules, one per source file plus shared helpers:

- `Wrappers`, `Strings`, `Seqs` and `Sorting` hold the JavaScript string
  operations the sources rely on (`trim`, `toLowerCase`, `indexOf`,
  `split`, `startsWith`) and a stable insertion sort, which models
  `Array.prototype.sort`.
- `Zones` holds the three zones and their ranks.
- `Context`, `SkillParser`, `Directory`, `ContextMap`, `Titles`,
  `ExportData`, `SkillExport`, `ProjectExport`, `SkillImport`,
  `ImportPlan` and `SkillsNode` each model one source file.

The round trips are proved across modules:

- an exported reference path reads back to its zone;
- a generated SKILL.md parses back to its name and body;
- an exported session ZIP re-imports with its skill and all its references;
- a project's context map passes the validator.

## Model

| member | source | states |
|---|---|---|
| Context.ExtractSystemPrompt | src/lib/llm/context.ts:43-49 | There is no system prompt exactly when no block is a `system_prompt` block in zone PERMANENT |
| Context.ActivePromptIsLowestEarliest | src/lib/llm/context.ts:43-49 | The extracted prompt is the content of a PERMANENT `system_prompt` block of least position, and of the first such block in input order among equal positions |
| Context.Sections | src/lib/llm/context.ts:87-112 | At most three zone messages; the message for a zone is present exactly when its joined text is non-empty; they come in PERMANENT, STABLE, WORKING order |
| Context.AssembleContext | src/lib/llm/context.ts:62-121 | Between one and four messages; the last is always the user prompt, even with no blocks; everything before it is the zone messages |
| Context.ZoneBlocksOrder | src/lib/llm/context.ts:72-85 | Each zone's bucket is a rearrangement of the input blocks in that zone, in ascending position, and blocks of equal position keep their input order |
| Context.ExcludedBlockIgnored | src/lib/llm/context.ts:72-80 | Inserting a `system_prompt` block, or a block whose zone is not one of the three names, anywhere in the input does not change the messages |
| Context.AssembleIgnoresInputOrder | src/lib/llm/context.ts:72-121 | Two inputs with the same blocks in every zone give the same messages, whatever their order, when positions within a zone are distinct |
| Context.AssembleContextWithConversation | src/lib/llm/context.ts:131-202 | The zone messages come first, then one message per history entry in order, then the new user message |
| Context.HistoryMessages | src/lib/llm/context.ts:187-193 | History is carried one message per entry, with the same content and role, and never as a system message |
| Context.EmptyHistoryIsAssemble | src/lib/llm/context.ts:131-202 | With empty history the conversation variant equals `assembleContext` |
| Context.EstimateTokenCount | src/lib/llm/context.ts:208-211 | The estimate is the ceiling of the total character count divided by four, taken once over all messages |
| Context.EstimateOfConcatenation | src/lib/llm/context.ts:208-211 | Estimating two message lists together costs at most the sum of the separate estimates and at least that sum minus one |
| Context.GetContextStats | src/lib/llm/context.ts:216-240 | Each zone slot tallies the blocks whose lowercased zone names it; the total counts every block, and a block with zone "total" a second time |
| Context.StatsTotalIsSum | src/lib/llm/context.ts:229-237 | When every block's zone is one of the three, the total count and characters are the sums over the three zones |
| SkillParser.SplitFrontmatter | src/lib/skills/parser.ts:35-51 | Fails "missing frontmatter" exactly when the trimmed text does not start with `---`, and "missing closing delimiter" exactly when no `---` occurs at index 3 or later; on success both pieces are trimmed |
| SkillParser.SplitFrontmatterLayout | src/lib/skills/parser.ts:43-51 | A document laid out as `---`, a head without `---`, `---`, rest splits into the trimmed head and the trimmed rest |
| SkillParser.ParseLine | src/lib/skills/parser.ts:56-57 | A line defines no field exactly when it has no colon |
| SkillParser.ParseLineField | src/lib/skills/parser.ts:56-66 | `key:value` yields the trimmed, lowercased key and the trimmed value with one layer of matching quotes removed |
| SkillParser.UnquoteQuoted | src/lib/skills/parser.ts:60-65 | A value wrapped in matching double or single quotes loses exactly that one layer |
| SkillParser.UnquoteBare | src/lib/skills/parser.ts:60-65 | A value that does not start with a quote is kept as it is |
| SkillParser.FieldsLastWins | src/lib/skills/parser.ts:54-67 | A key's value is the one on the last line that defines it |
| SkillParser.ParseSkillMd | src/lib/skills/parser.ts:34-85 | Both delimiter errors hold exactly under their conditions; a parsed skill has a non-empty name and a trimmed body; a non-empty fallback makes the description non-empty |
| SkillParser.ParseSkillMdFields | src/lib/skills/parser.ts:69-84 | Once split, parsing succeeds exactly when the `name` field is present and non-empty; the description is the non-empty `description` field, else the fallback, else empty |
| Directory.ZoneFromPath | src/lib/skills/directoryParser.ts:31-37 | PERMANENT exactly when the lowercased path starts with `references/permanent/`, WORKING exactly when it starts with `references/working/`, STABLE otherwise |
| Directory.ZoneFromPathOfDir | src/lib/skills/directoryParser.ts:31-37 | A path under `references/<zone>/` maps back to that zone |
| Directory.ZoneFromPathUnder | src/lib/skills/directoryParser.ts:31-37 | Any path whose lowercased form lies under a zone's reference directory is in that zone |
| Directory.FilenameFromPath | src/lib/skills/directoryParser.ts:42-45 | The result has no `/`, ends the path, and is preceded by a `/` when shorter than the path |
| Directory.FindSkillMd | src/lib/skills/directoryParser.ts:69-80 | Picks the first entry whose last segment lowercases to `skill.md` and whose path lacks `references/`, and none exactly when there is no such entry |
| Directory.ParseSkillDirectory | src/lib/skills/directoryParser.ts:61-112 | Fails "No SKILL.md" exactly when none is found or its content is empty; otherwise the skill is the parser's result on that content, and the references are the qualifying files sorted by path |
| Directory.CollectedReferencesQualify | src/lib/skills/directoryParser.ts:94-106 | Every reference is a file other than SKILL.md whose lowercased path starts with `references/` and ends with `.md`; it keeps its content and path, takes the last segment as filename and the zone of its path |
| Directory.QualifyingFilesCollected | src/lib/skills/directoryParser.ts:94-106 | Every qualifying file becomes a reference |
| Directory.ReferencesIgnoreFileOrder | src/lib/skills/directoryParser.ts:94-109 | The sorted references do not depend on the order of the file map |
| Directory.SortedReferences | src/lib/skills/directoryParser.ts:94-109 | The references are ordered by relative path and are the collected references rearranged |
| ContextMap.StringItems | src/lib/skills/contextMapParser.ts:45-49 | Every kept item is a string element of the list, and no more items are kept than the list has |
| ContextMap.StringItemsComplete | src/lib/skills/contextMapParser.ts:45-49 | Every string element of a list is kept |
| ContextMap.StringItemsOfStrings | src/lib/skills/contextMapParser.ts:45-49 | A list made only of strings gives back exactly those strings |
| ContextMap.CheckContext | src/lib/skills/contextMapParser.ts:89-116 | One context passes exactly when it is an object with a non-empty string label whose every dependency is a known context; its files are then its zone lists concatenated |
| ContextMap.CheckFrom | src/lib/skills/contextMapParser.ts:89-119 | The per-context checks pass exactly when every context from that index on is valid; a failure is one of the three per-context errors |
| ContextMap.FirstMissingFile | src/lib/skills/contextMapParser.ts:121-128 | Reports a listed file not in the package, and none exactly when all listed files are present |
| ContextMap.ParseContextMap | src/lib/skills/contextMapParser.ts:59-134 | "Invalid YAML" exactly when there is no document; a missing, non-object or list `contexts` fails, and an empty one fails with "at least one context" |
| ContextMap.ParseContextMapOrder | src/lib/skills/contextMapParser.ts:136-179 | On success, every context key appears exactly once, and every dependency of a context comes strictly before it |
| ContextMap.ParseContextMapContents | src/lib/skills/contextMapParser.ts:95-128 | On success every label is non-empty and every listed file is in the package |
| ContextMap.BuiltContextContents | src/lib/skills/contextMapParser.ts:162-171 | A context built for a validated key whose files were all found has a non-empty label and lists only available files |
| ContextMap.FileNotFoundIsNamed | src/lib/skills/contextMapParser.ts:110-128 | A missing-file error names a file listed by some context and absent from the package |
| ContextMap.ParseContextMapCycle | src/lib/skills/contextMapParser.ts:143-150 | A circular-dependency error names a key that lies on a dependency cycle |
| ContextMap.ParseContextMapRejectsCycle | src/lib/skills/contextMapParser.ts:59-179 | A map that passes the label, dependency and file checks but has a dependency cycle fails with a circular-dependency error |
| ContextMap.ParseContextMapComplete | src/lib/skills/contextMapParser.ts:59-179 | A map that passes the label, dependency and file checks and has no cycle is accepted |
| ContextMap.TopologicalOrderSound | src/lib/skills/contextMapParser.ts:136-179 | The depth-first order lists exactly the keys, with dependencies first |
| ContextMap.TopologicalOrderFails | src/lib/skills/contextMapParser.ts:143-150 | The depth-first search fails only on a key that lies on a cycle |
| ContextMap.CycleFailsOrder | src/lib/skills/contextMapParser.ts:136-179 | Any dependency cycle makes the search fail |
| ContextMap.NoDepsKeepsKeyOrder | src/lib/skills/contextMapParser.ts:174-176 | Without dependencies the order is the key order of the document |
| ContextMap.VisitSound | src/lib/skills/contextMapParser.ts:143-172 | A successful visit extends the order, contains the key, keeps every dependency before its dependant, and appends no key still being visited |
| ContextMap.VisitFails | src/lib/skills/contextMapParser.ts:143-150 | When the keys being visited form a dependency path to the key, a failed visit names a key on a cycle |
| ContextMap.VisitAllSound | src/lib/skills/contextMapParser.ts:153-157 | Visiting a key's dependencies in turn extends the order with all of them, dependencies first |
| ContextMap.VisitAllFails | src/lib/skills/contextMapParser.ts:153-157 | A failure while visiting dependencies names a key on a cycle |
| ContextMap.VisitKeysSound | src/lib/skills/contextMapParser.ts:174-176 | Visiting every key in turn yields an order holding every key, dependencies first |
| ContextMap.VisitKeysFails | src/lib/skills/contextMapParser.ts:174-176 | A failure of the outer loop names a key on a cycle |
| Titles.HeadingParts | src/lib/skills/titleExtractor.ts:21 | A match gives the hash run, the whitespace before the capture and the end of the capture as the regular expression `^#+\s+(.+)` defines them |
| Titles.HeadingPartsComplete | src/lib/skills/titleExtractor.ts:21 | Every line the regular expression matches is found, with the same hash run |
| Titles.HeadingFirstLineTitle | src/lib/skills/titleExtractor.ts:17-23 | Content starting with `#… title` is titled by the trimmed title |
| Titles.HeadingWinsOverPlainLines | src/lib/skills/titleExtractor.ts:20-31 | The first heading line gives the title even when plain lines come before it |
| Titles.ExtractBlockTitle | src/lib/skills/titleExtractor.ts:12-68 | Has no ensures of its own; its contract is given by the lemmas `Titles.HeadingFirstLineTitle`, `Titles.HeadingWinsOverPlainLines`, `Titles.ExtractBlockTitleBounded`, `Titles.ExtractBlockTitleOneLine` and `Titles.BlankContentFallback` |
| Titles.ExtractBlockTitleBounded | src/lib/skills/titleExtractor.ts:26-31 | Without headings, and with some non-blank line, the title has between 1 and 60 characters |
| Titles.BlankContentFallback | src/lib/skills/titleExtractor.ts:34 | All-blank content is titled `<type>-<index>` |
| Titles.ExtractBlockTitleOneLine | src/lib/skills/titleExtractor.ts:12-35 | A title never spans lines unless the block type does |
| Titles.SanitizeFilename | src/lib/skills/titleExtractor.ts:41-49 | Between 1 and 50 characters from `[a-z0-9_-]`, no `--`, no leading `-`, and a trailing `-` only when the 50-character cut made it |
| Titles.SanitizeFixpoint | src/lib/skills/titleExtractor.ts:41-49 | A name that is already clean is unchanged |
| Titles.SanitizeNothingLeft | src/lib/skills/titleExtractor.ts:48 | A title with no surviving character becomes `untitled` |
| Titles.UniqueFilename | src/lib/skills/titleExtractor.ts:54-68 | The name is free unless all 1000 candidates are taken, in which case it is the clock-stamped one |
| Titles.UniqueFilenameIsLeast | src/lib/skills/titleExtractor.ts:59-65 | The name is the first free one among `base+ext`, `base-1+ext`, …, `base-999+ext` |
| Titles.UniqueFilenameFresh | src/lib/skills/titleExtractor.ts:54-68 | With fewer than 1000 names taken, the name is not among them |
| Titles.UniqueFilenameShape | src/lib/skills/titleExtractor.ts:54-68 | The name is the base, then nothing or `-` and digits, then the extension |
| Titles.TitleOfLinesBounded | src/lib/skills/titleExtractor.ts:26-31 | Without headings, the first non-blank line gives a title of 1 to 60 characters |
| ExportData.BlockShape | convex/skillExport.ts:12-26 | Keeps id, content, type, zone, position and metadata unchanged |
| ExportData.ZoneOrder | convex/skillExport.ts:28-33 | PERMANENT ranks 0 and WORKING 2; every other zone, unknown ones included, ranks 1 |
| ExportData.SortBlocks | convex/skillExport.ts:30-37 | The result is a rearrangement of the input |
| ExportData.SortBlocksOrdered | convex/skillExport.ts:30-37 | Blocks come by zone rank, then by ascending position |
| ExportData.SortBlocksStable | convex/skillExport.ts:30-37 | Blocks with the same rank and position keep their input order |
| ExportData.ShapeThenSort | convex/skillExport.ts:53-62 | Sorting, then shaping, equals shaping, then sorting |
| ExportData.GetExportData | convex/skillExport.ts:39-65 | Data is returned exactly when access is granted and the session exists; its blocks are the stored blocks' export shapes, a permutation of them, sorted by zone rank then position with ties kept in stored order |
| ExportData.ExportStep | convex/skillExport.ts:106-113 | A step keeps the session's id and name, takes step number 0 when it has none, and its blocks are the stored blocks' export shapes, a permutation of them, stably sorted by zone rank then position |
| ExportData.GetProjectExportData | convex/skillExport.ts:71-136 | Data is returned exactly when the project exists and the caller may export it; the project and the workflow steps are passed through unchanged, with one step per session |
| ExportData.ProjectStepsOrdered | convex/skillExport.ts:91-92 | Steps come in ascending step number and are a rearrangement of the exported sessions |
| SkillExport.StripMdSuffix | src/hooks/useSkillExport.ts:59 | Removes a final `.md` in any letter case, and nothing else |
| SkillExport.StripMdSuffixOf | src/hooks/useSkillExport.ts:59 | A name ending in `.md`, in any letter case, loses exactly that ending |
| SkillExport.BaseName | src/hooks/useSkillExport.ts:56-64 | The base name is a sanitised, non-empty filename |
| SkillExport.ReexportKeepsBase | src/hooks/useSkillExport.ts:57-60 | A block carrying a clean skill name `n.md` is exported under base name `n` |
| SkillExport.ExportNames | src/hooks/useSkillExport.ts:52-67 | Each name is the unique filename for its block's base name, given the names picked before it |
| SkillExport.ExportNamesFresh | src/hooks/useSkillExport.ts:66-67 | The names avoid the names already used and are pairwise distinct |
| SkillExport.ExportNamesShape | src/hooks/useSkillExport.ts:56-66 | Every name starts with its block's base name, ends in `.md` and has no `/` |
| SkillExport.ExportPathImports | src/hooks/useSkillExport.ts:54-69 | A path `references/<zone>/<name>.md` is read back as a reference of that zone with that filename |
| SkillExport.BlockPathMapLastWins | src/hooks/useSkillExport.ts:71 | A block id maps to the path of the last block written with that id |
| SkillExport.BlockPathMap | src/hooks/useSkillExport.ts:50-71 | The map's keys are exactly the ids of the blocks written |
| SkillExport.ZipPut | src/hooks/useSkillExport.ts:70 | Writing a new path appends it; writing an existing path keeps its place; the paths gained are exactly the one written, and distinct paths stay distinct |
| SkillExport.ZipPutGet | src/hooks/useSkillExport.ts:70 | After a write, the written path reads the new text and every other path reads as before |
| SkillExport.PutAllGet | src/hooks/useSkillExport.ts:117-123 | After a series of writes, a path reads the text of the last write to it, or what it read before |
| SkillExport.AddBlocksToZip | src/hooks/useSkillExport.ts:45-75 | Each block gets its unique name and the path `references/<lowercased zone>/<name>`; the used names grow by exactly the new names |
| SkillExport.AddBlocksToZipFresh | src/hooks/useSkillExport.ts:45-75 | The paths are pairwise distinct, and the archive gains one entry per block, in order, after the existing entries |
| SkillExport.SkillMdContent | src/hooks/useSkillExport.ts:77-88 | The first skill block gives the body, its description, and its name or else the fallback; with no skill block, the fallback name and the fixed description and body are used |
| SkillExport.SessionSkillName | src/hooks/useSkillExport.ts:119 | The fallback skill name of a session is never empty |
| SkillExport.SkillMdRoundTrip | src/hooks/useSkillExport.ts:85 | Parsing the generated SKILL.md gives back its name and trimmed body, and its description when non-empty; it needs no newline and no `---` in name or description |
| SkillExport.GenerateSkillMd | src/hooks/useSkillExport.ts:77-86 | The text opens with the `---` frontmatter delimiter and ends with the chosen body: the first skill block's content, or the default body |
| SkillExport.GenerateSkillMdRoundTrip | src/hooks/useSkillExport.ts:77-88 | The generated SKILL.md parses back to the chosen name and the trimmed body |
| SkillExport.DefaultSkillMdRoundTrip | src/hooks/useSkillExport.ts:87 | The default SKILL.md parses back to the fallback name and the fixed description |
| SkillExport.SessionZipName | src/hooks/useSkillExport.ts:126-128 | The archive stem is a sanitised, non-empty filename |
| SkillExport.ExportSessionFiles | src/hooks/useSkillExport.ts:111-123 | The session package is SKILL.md followed by one reference file per non-skill block |
| SkillExport.ExportSession | src/hooks/useSkillExport.ts:106-133 | The session archive's name ends in `.zip` |
| SkillExport.ExportSessionParts | src/hooks/useSkillExport.ts:111-123 | With recognised zones, the package is SKILL.md followed by entries that each read back as the expected reference of its block |
| SkillExport.PackageParses | src/lib/skills/directoryParser.ts:61-112 | A package of an accepted SKILL.md followed by reference entries parses to that skill and to exactly those references |
| SkillExport.ExportSessionReimports | src/hooks/useSkillExport.ts:106-133 | Parsing the exported package as a directory gives the skill's name and trimmed body, and exactly one reference per non-skill block, with its zone, name and content |
| SkillImport.DetectRootPrefix | src/hooks/useSkillImport.ts:183-191 | Empty for no paths or a first path without `/`; a non-empty prefix is one directory name plus `/` under which every path lies |
| SkillImport.DetectRootPrefixIff | src/hooks/useSkillImport.ts:183-191 | The prefix is `d/` exactly when every path lies under `d/` |
| SkillImport.RelativeFileSource | src/hooks/useSkillImport.ts:76-82 | Every loaded file comes from a file entry, with the prefix cut off its path, something left over, and its content |
| SkillImport.RelativeFileKept | src/hooks/useSkillImport.ts:76-82 | Every file entry that keeps something after the prefix is cut is loaded under the shortened path |
| SkillImport.RelativeFilesCollect | src/hooks/useSkillImport.ts:76-82 | The loaded files are what each entry contributes in archive order: nothing for a directory or an empty relative path, else the shortened path with its content |
| SkillImport.LoadWrappedPackage | src/hooks/useSkillImport.ts:69-82 | A package wrapped in one top-level directory loads back to the package itself |
| SkillImport.LoadPackage | src/hooks/useSkillImport.ts:69-82 | A package whose first file is at the root loads back unchanged |
| SkillImport.SessionPackageLoads | src/hooks/useSkillImport.ts:69-82 | An exported session package, zipped and loaded, gives back its files unchanged |
| SkillImport.RouteFile | src/hooks/useSkillImport.ts:134-149 | A file goes to ZIP import exactly when its lowercased name ends in `.zip`, with the suffix cut for the fallback name; other files drop a case-sensitive `.md` |
| SkillImport.RouteZipName | src/hooks/useSkillImport.ts:136-138 | `stem.zip`, in any case, goes to ZIP import with fallback name `stem` |
| SkillImport.RouteMarkdownName | src/hooks/useSkillImport.ts:140-146 | `stem.md` imports as content named `stem`, but `stem.MD` keeps its suffix |
| SkillImport.NotZipName | src/hooks/useSkillImport.ts:136 | A name ending in a three-character extension not starting with `z` is not an archive name |
| SkillImport.StripZipSuffix | src/hooks/useSkillImport.ts:84 | One final `.zip`, in any letter case, is cut, and nothing else |
| SkillImport.StripMdExact | src/hooks/useSkillImport.ts:145 | Only a final lower-case `.md` is cut |
| SkillImport.ImportFromContent | src/hooks/useSkillImport.ts:29-63 | Succeeds exactly when the SKILL.md parses, with the parser's error otherwise; it imports the parsed body with no references, stores the parsed name and description with the given source type and source reference, and reports the parsed name |
| SkillImport.ImportFromZip | src/hooks/useSkillImport.ts:65-132 | Succeeds exactly when the loaded directory parses, with its error otherwise; the call carries references exactly when there are some, and reports their number |
| SkillImport.SessionZipRoundTrip | src/hooks/useSkillImport.ts:65-118 | Importing an exported session archive succeeds with the skill's name and trimmed body, and reports one reference per non-skill block |
| SkillImport.ExportSessionDistinct | src/hooks/useSkillExport.ts:111-123 | A session package never holds two files under one path |
| ProjectExport.ZoneKey | src/hooks/useSkillExport.ts:170-175 | A block's lowercased zone names a zone directory, or the export fails with that zone |
| ProjectExport.ZoneKeyOfZone | src/hooks/useSkillExport.ts:170 | A stored zone name is accepted as its own key |
| ProjectExport.Push | src/hooks/useSkillExport.ts:175-195 | The path goes last in its zone's list and the other zone lists are unchanged |
| ProjectExport.ExportBlockTo | src/hooks/useSkillExport.ts:168-196 | Content already written adds only its path; new content adds at most one file and is recorded |
| ProjectExport.ExportStepBlocks | src/hooks/useSkillExport.ts:164-197 | A step exports exactly when every non-skill block's zone is one of the three |
| ProjectExport.StepName | src/hooks/useSkillExport.ts:199 | The session name when non-empty, else `Step <n+1>` |
| ProjectExport.ExportSteps | src/hooks/useSkillExport.ts:164-202 | All steps export exactly when every block's zone is recognised, and each record carries its step's name |
| ProjectExport.ExportProjectFiles | src/hooks/useSkillExport.ts:140-202 | The files are produced exactly when every zone is recognised, with one record per step carrying its name |
| ProjectExport.AllSkillBlocks | src/hooks/useSkillExport.ts:143-147 | Empty exactly when no step has a skill block |
| ProjectExport.FirstSkillBlock | src/hooks/useSkillExport.ts:143-151 | The first skill block of the whole project is the first skill block of the first step that has one |
| ProjectExport.StepsRead | src/hooks/useSkillExport.ts:164-202 | Every path a step records holds that step's block content, and files written earlier are never changed |
| ProjectExport.StepBlocksRead | src/hooks/useSkillExport.ts:164-197 | Within one step, each zone list reads back as that zone's blocks, and nothing written before changes |
| ProjectExport.ExportProjectContents | src/hooks/useSkillExport.ts:140-202 | The archive has distinct paths, SKILL.md from the first skill block, and every recorded path reads as the block it stands for |
| ProjectExport.ContextValueFiles | src/hooks/useSkillExport.ts:209-212 | A step's context lists exactly the step's paths, zone by zone |
| ProjectExport.ContextValueDeps | src/hooks/useSkillExport.ts:213 | A context depends on the previous step's key, and the first context on nothing |
| ProjectExport.ContextValueLabel | src/hooks/useSkillExport.ts:209 | A step's context is an object labelled with the step's name |
| ProjectExport.ContextEntriesDistinct | src/hooks/useSkillExport.ts:206-215 | With distinct keys, the map holds one context per step, in step order |
| ProjectExport.ExportProjectAsWritten | src/hooks/useSkillExport.ts:204-217 | The export as written, keyed by sanitised step names, succeeds exactly when every zone is recognised |
| ProjectExport.SanitizedKeys | src/hooks/useSkillExport.ts:208 | The keys as written are the sanitised step names, one per step |
| ProjectExport.SameKeyStepsCycle | src/hooks/useSkillExport.ts:206-214 | Two steps whose names sanitise alike give a context map that the importer rejects as circular |
| ProjectExport.UniqueKeysDistinct | src/hooks/useSkillExport.ts:208 | Keys made unique like filenames are pairwise distinct for up to 1000 steps |
| ProjectExport.UniqueKeys | src/hooks/useSkillExport.ts:208 | Each corrected key is the first free name for its step's sanitised name, given the keys picked before it |
| ProjectExport.ExportProject | src/hooks/useSkillExport.ts:135-221 | The corrected export succeeds exactly when every zone is recognised |
| ProjectExport.ExportProjectMapParses | src/hooks/useSkillExport.ts:204-217 | The corrected context map is accepted by the validator against the archive's own files, and its order holds exactly the step keys |
| ProjectExport.ProjectZipName | src/hooks/useSkillExport.ts:220-221 | The archive name ends in `.zip` |
| ProjectExport.ProjectZipNameRoutes | src/hooks/useSkillExport.ts:220-221 | Dropping the archive on the import hook routes it to ZIP import with its sanitised stem |
| ProjectExport.ProjectIdOf | src/hooks/useSkillExport.ts:97 | The project in view is the one passed in, else the session's own project, and none while neither is known |
| ProjectExport.SourceOf | src/hooks/useSkillExport.ts:97-104 | The project is exported exactly when a project is in view and its data has loaded, and then its data is present; otherwise the session's data is |
| ProjectExport.BlockCount | src/hooks/useSkillExport.ts:229-231 | A session's count is its number of blocks; a project's count is its skill blocks plus its non-skill blocks, hence at least each step's block count; 0 while the data has not loaded |
| ProjectExport.IsReady | src/hooks/useSkillExport.ts:233-235 | A session is ready exactly when its block count is positive; a loaded project is ready exactly when it has a step, so a project whose steps have no blocks is ready with a count of 0; nothing is ready before its data loads |
| ProjectExport.ProjectBlockCountSplit | src/hooks/useSkillExport.ts:229-231 | For any steps, the summed step block counts are the skill blocks plus the non-skill blocks |
| ProjectExport.ReadyProjectParses | src/hooks/useSkillExport.ts:233-235 | A project that is ready to export, with recognised zones, yields a context map the validator accepts |
| ImportPlan.FileMap | convex/contextMapImport.ts:51 | A path is mapped exactly when some file has it |
| ImportPlan.FileMapLastWins | convex/contextMapImport.ts:51 | A path maps to the content of the last file with that path |
| ImportPlan.FileName | convex/contextMapImport.ts:205 | A path without `/` is its own name; otherwise the name is the non-empty text after the last `/`, or the whole path when that text is empty |
| ImportPlan.Kept | convex/contextMapImport.ts:194-204 | Only paths mapped to non-empty content are kept |
| ImportPlan.BuildTemplateBlocks | convex/contextMapImport.ts:175-223 | One block per kept file, at positions 0, 1, …, n-1, each holding its file's content and path |
| ImportPlan.ImportContextFiles | convex/contextMapImport.ts:137-170 | One inserted reference per kept file |
| ImportPlan.TemplateBlocksLayout | convex/contextMapImport.ts:194-217 | Blocks follow PERMANENT, then STABLE, then WORKING; each is a reference named after its file's last segment, with the skill as parent |
| ImportPlan.TemplateBlocksComplete | convex/contextMapImport.ts:201-204 | Every listed file with non-empty content gets a block in its zone |
| ImportPlan.SessionImportMatchesTemplate | convex/contextMapImport.ts:137-170 | The first context's session import inserts the same files, in the same zones and order, as its template would hold |
| ImportPlan.ImportAsProject | convex/contextMapImport.ts:53-130 | Fails with "No contexts provided" exactly when there are no contexts; otherwise the skill block, the project and the workflow carry the skill's name and description, the workflow is named `<skill> Workflow`, and the current session is linked to the project as step 0, its current step |
| ImportPlan.ImportAsProjectShape | convex/contextMapImport.ts:68-130 | One step per context, named by its label and never carrying STABLE forward; step 0 runs in the session with the first context's files; every later step uses its own template; the template count is the number of contexts minus one |
| ImportPlan.StepDescriptionNumber | convex/contextMapImport.ts:86 | A template description reads `Step <i+1>: <label>` and gives back its number |
| ImportPlan.StepDescriptionsDiffer | convex/contextMapImport.ts:86 | Templates of different steps have different descriptions |
| SkillsNode.ZoneFromRefPath | convex/skillsNode.ts:39-45 | PERMANENT or WORKING exactly when the lowercased path starts with that zone's directory and `/` or `\`, STABLE otherwise |
| SkillsNode.ZoneFromRefPathAgrees | convex/skillsNode.ts:39-45 | For `/`-separated paths it agrees with the directory parser's zone of `references/` + path |
| SkillsNode.ParseSkillMdInline | convex/skillsNode.ts:197-232 | A parsed skill has a non-empty name and a trimmed body, and a non-empty description when the fallback is non-empty |
| SkillsNode.InlineMirrorsParser | convex/skillsNode.ts:197-232 | Returns nothing exactly when the shared parser fails, and otherwise the same body, name and description |
| SkillsNode.DiscoverReferences | convex/skillsNode.ts:104-112 | One reference per file, its path under `references/`, its token estimate at least a quarter of its length |
| SkillsNode.DiscoverReferencesOrdered | convex/skillsNode.ts:104-112 | References are sorted by path, are the discovered files rearranged, and take the zone of their path |
| SkillsNode.DiscoverSkill | convex/skillsNode.ts:91-99 | A folder entry yields a skill exactly when it is a directory with a SKILL.md that parses |
| SkillsNode.ScannedSkillSource | convex/skillsNode.ts:88-122 | Every reported skill comes from a folder entry |
| SkillsNode.ScannedSkillReported | convex/skillsNode.ts:88-122 | Every folder entry that yields a skill is reported |
| SkillsNode.ScannedSkillShape | convex/skillsNode.ts:97-121 | A reported skill has a name, its folder path, a ceiling-quarter token estimate and one sorted reference per file |
| SkillsNode.ScanEntries | convex/skillsNode.ts:88-122 | No more skills than folder entries |
| SkillsNode.ScanFolder | convex/skillsNode.ts:74-125 | An error exactly when scanning is disabled or the folder is missing, and then no skills |
| SkillsNode.ImportFromScan | convex/skillsNode.ts:153-193 | Every skill is imported in order, carrying its content, skill name, description and folder path, with its references exactly when it has some; the reported reference total is the sum of their counts |

## Left out

- YAML text is not modelled. `js-yaml` loading is an input of type
  `Option<Yaml>`, with none standing for a syntax error.
  `ProjectExport.ExportProjectMapParses` and
  `ProjectExport.SameKeyStepsCycle` hand the validator the document the
  exporter builds, so they take `yaml.load(yaml.dump(x))` to equal `x`.
- JavaScript `Object.keys` order is taken to be insertion order. JavaScript
  lists integer-like keys first, so a step named `12` would change the
  root order of the depth-first search. The model does not show this.
  Keys that collide with `Object.prototype` members (`constructor`,
  `__proto__`) are not modelled either.
- String lengths and cuts count Unicode code points, as Dafny strings are
  sequences of code points; JavaScript `.length` and `.slice` count UTF-16
  code units. For text outside the Basic Multilingual Plane, such as
  emoji, the model differs from the source in:
  - `Context.EstimateTokenCount` and `Context.GetContextStats`
    (context.ts:209-210, 233, 236);
  - the 60-unit title cut of `Titles.ExtractBlockTitleBounded`
    (titleExtractor.ts:29), which in JavaScript can split a surrogate
    pair;
  - the `tokenEstimate` values of `SkillsNode.DiscoverReferences` and
    `SkillsNode.ScannedSkillShape` (skillsNode.ts:111, 119).
- Context.ExcludedBlockIgnored: holds in the model for every zone outside
  the three names. In the source, `byZone[zone]` (context.ts:77-78,
  150-151) is also truthy for zones named after `Object.prototype`
  members (`constructor`, `toString`, `valueOf`, `hasOwnProperty`,
  `__proto__`). `.push` on such a value throws a TypeError, so
  `assembleContext` and `assembleContextWithConversation` fail for such a
  block, where `Context.AssembleContext` and
  `Context.AssembleContextWithConversation` drop it.
- `localeCompare` is modelled as code-point order, in the directory
  parser and in the folder scan.
- `toLowerCase` is modelled for ASCII letters only.
- JavaScript whitespace for `trim` and `\s` is a fixed character set.
- Block positions are `real` and only compared, as in the source.
- `Date.now()` is the parameter `now`. It only matters once 1000 names
  collide.
- JSZip, file-saver, React state (`isExporting`, `isImporting`), and the
  callbacks `onSuccess`/`onError` are not modelled: they are I/O or UI.
  An archive is its list of entries.
- The Convex queries' database reads and access checks are not modelled.
  Their results are the inputs of `ExportData.GetExportData` and
  `ExportData.GetProjectExportData`: session, blocks, project, workflow
  and access flag.
- Database inserts and patches are not modelled. `importAsProject`,
  `importContextFiles`, `importFromScan` and the skill import hooks return
  the records they would write, without the database ids, owner ids and
  timestamps the database supplies.
- File-system scanning is not modelled: `fs.existsSync`, `readdirSync`,
  `readMdFilesRecursive` and `os.homedir`. A folder is a list of entries.
  The default folder path and the enabling flag are parameters of
  `SkillsNode.ScanFolder`.
- `importFromUrl` and `normalizeGitHubUrl` (useSkillImport.ts:151-217) are
  not modelled: fetching is network I/O, and the rewrite relies on the
  WHATWG `URL` parser.
- The `|| step-N` fallback for context keys (useSkillExport.ts:208, 213)
  is dead code, because `sanitizeFilename` never returns an empty string.
  The model does not include it.
- Titles.SanitizeFilename: idempotence is not claimed. The 50-character
  cut can leave a trailing `-`, which a second pass would remove. The
  contract says the trailing `-` occurs only after such a cut.
- Titles.UniqueFilenameFresh: requires fewer than 1000 taken names. Past
  that bound the source falls back to a clock-stamped name that may
  collide.
- SkillExport.ExportNamesFresh: requires at most 1000 names taken and to
  take, for the same reason.
- ProjectExport.UniqueKeysDistinct: requires at most 1000 steps, for the
  same reason.
- ProjectExport.ExportProjectContents: requires at most 1000 written
  files, for the same reason.
- ProjectExport.StepsRead: requires at most 1000 names taken and to take,
  for the same reason.
- ProjectExport.ExportProjectMapParses: requires between 1 and 1000
  steps, for the same reason. A project with no steps exports a map with
  no contexts, which the validator rejects.
- ProjectExport.ReadyProjectParses: requires at most 1000 steps and
  recognised zones.
- SkillExport.SkillMdRoundTrip: requires a name and description without
  a newline or `---`. The generated front matter does not escape them,
  so the round trip genuinely fails for such names.
- SkillExport.GenerateSkillMdRoundTrip: the same restriction on the name
  and description.
- SkillExport.ExportSessionReimports: the same restriction. It also
  requires every block's zone to be one of the three names, because the
  reference directory of any other zone reads back as STABLE.
- SkillImport.SessionZipRoundTrip: the same two restrictions.
- Context.AssembleIgnoresInputOrder: requires distinct positions within
  a zone. With ties, the stable sort keeps input order, so the output
  does depend on it.
- ImportPlan.ImportAsProject: the session-access check and "Session not
  found" (convex/contextMapImport.ts:42-45) are not modelled, because
  they are database reads.

## Behaviour worth noting

- Drafts. `src/lib/llm/context.ts` has no draft handling: a draft block
  is assembled, extracted and counted like any other, and so it is in the
  model. The draft assertions in `convex/lib/context.test.ts:222-269`
  exercise the server-side `convex/lib/context.ts`, which is not part of
  this model.
- Token estimate. `estimateTokenCount` (context.ts:208-211) takes one
  ceiling over the summed length of all messages, not one per message.
- Statistics. `getContextStats` (context.ts:216-240) counts every block in
  the total, including `system_prompt` blocks and blocks of unknown zones.
  A block whose lowercased zone is `total` is counted in it twice.
  `Context.StatsTotalIsSum` gives the condition under which the total is
  the sum of the three zones.
- An empty SKILL.md. `parseSkillDirectory` (directoryParser.ts:82-84)
  reports an empty file as "No SKILL.md found", because the empty string
  is falsy in JavaScript.

## Findings

| source | as written | input that shows it | evidently intended | confidence | as-written member | corrected member |
|---|---|---|---|---|---|---|
| src/hooks/useSkillExport.ts:206-214 | Each step's context key is `sanitizeFilename(stepName)`, and step i depends on the key of step i-1. Two consecutive steps whose names sanitise alike share one key: the second context overwrites the first and then depends on itself. | A project with two steps, both named "Draft" (or "Draft" and "draft!"), with recognised zones | Every step keeps its own context, and the chain re-imports, as the importer of the same package expects | not executed | ProjectExport.SameKeyStepsCycle | ProjectExport.ExportProjectMapParses |

`ProjectExport.SameKeyStepsCycle` proves the discrepancy for
`ProjectExport.ExportProjectAsWritten`: the exported map has a single
context that lists itself in `depends_on`, and
`ContextMap.ParseContextMap` rejects it with a circular-dependency
error. The corrected `ProjectExport.ExportProject` makes keys unique the
way filenames are (`ProjectExport.UniqueKeys`, proved distinct by
`ProjectExport.UniqueKeysDistinct`).
`ProjectExport.ExportProjectMapParses` then proves that the context map
of any project with recognised zones and 1 to 1000 steps is accepted
against the archive's own files, with every step's key in the order.
