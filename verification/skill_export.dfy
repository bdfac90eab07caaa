/** The session export (src/hooks/useSkillExport.ts): a session becomes a
    skill package, a SKILL.md written from its first skill block and one
    markdown file per other block under `references/<zone>/`. */
module SkillExport {
  import opened Wrappers
  import opened Strings
  import opened Seqs
  import opened Zones
  import opened Titles
  import opened SkillParser
  import opened Directory
  import opened ExportData

  /** An archive as its entries in insertion order. */
  type Zip = seq<FileEntry>

  const SkillMdPath: string := "SKILL.md"
  const MdExt: string := ".md"

  predicate DistinctPaths(zip: Zip) {
    forall i, j :: 0 <= i < j < |zip| ==> zip[i].0 != zip[j].0
  }

  function PathSet(zip: Zip): set<string> {
    set i | 0 <= i < |zip| :: zip[i].0
  }

  function NameSet(s: seq<string>): set<string> {
    set i | 0 <= i < |s| :: s[i]
  }

  lemma {:induction false} NameSetSize(s: seq<string>)
    ensures |NameSet(s)| <= |s|
    decreases |s|
  {
    if |s| > 0 {
      var init := s[..|s| - 1];
      NameSetSize(init);
      assert NameSet(s) == NameSet(init) + {s[|s| - 1]} by {
        forall x | x in NameSet(s)
          ensures x in NameSet(init) + {s[|s| - 1]}
        {
          var i :| 0 <= i < |s| && s[i] == x;
          if i < |s| - 1 {
            assert init[i] == x;
          }
        }
        forall x | x in NameSet(init)
          ensures x in NameSet(s)
        {
          var i :| 0 <= i < |init| && init[i] == x;
          assert s[i] == x;
        }
      }
    } else {
      assert NameSet(s) == {};
    }
  }

  /** The first place `path` sits in the archive. */
  function PathIndex(zip: Zip, path: string): (r: Option<nat>)
    ensures r.Some? ==> r.value < |zip| && zip[r.value].0 == path
    ensures r.Some? ==> forall j :: 0 <= j < r.value ==> zip[j].0 != path
    ensures r.None? ==> forall j :: 0 <= j < |zip| ==> zip[j].0 != path
    decreases |zip|
  {
    if |zip| == 0 then None
    else if zip[0].0 == path then Some(0)
    else
      match PathIndex(zip[1..], path)
      case None => None
      case Some(i) => Some(i + 1)
  }

  lemma PathIndexOf(zip: Zip, i: nat)
    requires DistinctPaths(zip) && i < |zip|
    ensures PathIndex(zip, zip[i].0) == Some(i)
  {
  }

  /** The text stored under `path`. */
  function ZipGet(zip: Zip, path: string): (r: Option<string>)
    ensures r.None? <==> path !in PathSet(zip)
  {
    match PathIndex(zip, path)
    case None => None
    case Some(i) => Some(zip[i].1)
  }

  /** `zip.file(path, content)`: a new path is appended; a path already
      present keeps its place and takes the new text. */
  function ZipPut(zip: Zip, path: string, content: string): (r: Zip)
    ensures path !in PathSet(zip) ==> r == zip + [(path, content)]
    ensures |r| == |zip| || |r| == |zip| + 1
    ensures forall j :: 0 <= j < |zip| ==> r[j].0 == zip[j].0
    ensures PathSet(r) == PathSet(zip) + {path}
    ensures DistinctPaths(zip) ==> DistinctPaths(r)
  {
    match PathIndex(zip, path)
    case Some(i) =>
      var r := zip[i := (path, content)];
      assert forall j :: 0 <= j < |r| ==> r[j].0 == zip[j].0;
      assert PathSet(r) == PathSet(zip);
      r
    case None =>
      var r := zip + [(path, content)];
      assert r[|zip|].0 == path;
      assert PathSet(r) == PathSet(zip) + {path} by {
        forall x | x in PathSet(r)
          ensures x in PathSet(zip) + {path}
        {
          var j :| 0 <= j < |r| && r[j].0 == x;
          if j < |zip| {
            assert zip[j].0 == x;
          }
        }
        forall x | x in PathSet(zip)
          ensures x in PathSet(r)
        {
          var j :| 0 <= j < |zip| && zip[j].0 == x;
          assert r[j].0 == x;
        }
      }
      r
  }

  /** Reading after writing: the written path gives the new text, every other
      path what it gave before. */
  lemma ZipPutGet(zip: Zip, path: string, content: string, q: string)
    requires DistinctPaths(zip)
    ensures ZipGet(ZipPut(zip, path, content), q) == if q == path then Some(content) else ZipGet(zip, q)
  {
    var r := ZipPut(zip, path, content);
    var i := if PathIndex(zip, path).Some? then PathIndex(zip, path).value else |zip|;
    assert r[i] == (path, content);
    if q == path {
      PathIndexOf(r, i);
    } else if PathIndex(zip, q).Some? {
      var j := PathIndex(zip, q).value;
      assert r[j] == zip[j];
      PathIndexOf(r, j);
    }
  }

  /** The text the last entry for `path` carries, if any entry does. */
  function LastValue(entries: seq<FileEntry>, path: string): (r: Option<string>)
    ensures r.None? <==> forall i :: 0 <= i < |entries| ==> entries[i].0 != path
    decreases |entries|
  {
    if |entries| == 0 then None
    else if entries[|entries| - 1].0 == path then Some(entries[|entries| - 1].1)
    else
      var r := LastValue(entries[..|entries| - 1], path);
      assert forall i :: 0 <= i < |entries| - 1 ==> entries[..|entries| - 1][i] == entries[i];
      r
  }

  /** Writing the entries one after another. */
  function PutAll(zip: Zip, entries: seq<FileEntry>): (r: Zip)
    ensures |r| >= |zip| && forall j :: 0 <= j < |zip| ==> r[j].0 == zip[j].0
    ensures DistinctPaths(zip) ==> DistinctPaths(r)
    decreases |entries|
  {
    if |entries| == 0 then zip
    else
      var last := entries[|entries| - 1];
      ZipPut(PutAll(zip, entries[..|entries| - 1]), last.0, last.1)
  }

  /** After the writes, a path gives the text of the last entry for it, or,
      when no entry names it, what it gave before. */
  lemma {:induction false} PutAllGet(zip: Zip, entries: seq<FileEntry>, q: string)
    requires DistinctPaths(zip)
    ensures ZipGet(PutAll(zip, entries), q) == if LastValue(entries, q).Some? then LastValue(entries, q) else ZipGet(zip, q)
    decreases |entries|
  {
    if |entries| > 0 {
      var init := entries[..|entries| - 1];
      var last := entries[|entries| - 1];
      PutAllGet(zip, init, q);
      ZipPutGet(PutAll(zip, init), last.0, last.1, q);
    }
  }

  /** Entries with new, distinct paths are appended in order. */
  lemma {:induction false} PutAllFresh(zip: Zip, entries: seq<FileEntry>)
    requires DistinctPaths(entries)
    requires forall i :: 0 <= i < |entries| ==> entries[i].0 !in PathSet(zip)
    ensures PutAll(zip, entries) == zip + entries
    decreases |entries|
  {
    if |entries| > 0 {
      var init := entries[..|entries| - 1];
      var last := entries[|entries| - 1];
      PutAllFresh(zip, init);
      forall j | 0 <= j < |zip + init|
        ensures (zip + init)[j].0 != last.0
      {
        if j < |zip| {
          assert (zip + init)[j] == zip[j];
          assert zip[j].0 in PathSet(zip);
        } else {
          assert (zip + init)[j] == entries[j - |zip|];
        }
      }
      assert last.0 !in PathSet(zip + init);
      assert zip + init + [last] == zip + entries;
    }
  }

  /** `metadata?.skillName` when it is a non-empty string. */
  function SkillNameOf(b: ExportBlock): (r: Option<string>)
    ensures r.Some? ==> r.value != ""
  {
    if b.metadata.Some? && b.metadata.value.skillName.Some? && b.metadata.value.skillName.value != "" then
      b.metadata.value.skillName
    else None
  }

  /** `metadata?.skillDescription || ""`. */
  function SkillDescriptionOf(b: ExportBlock): string {
    if b.metadata.Some? && b.metadata.value.skillDescription.Some? then b.metadata.value.skillDescription.value
    else ""
  }

  /** `replace(/\.md$/i, "")`: one final `.md`, in any case, is cut. */
  function StripMdSuffix(name: string): (r: string)
    ensures EndsWith(ToLower(name), MdExt) ==> |r| + 3 == |name| && name == r + name[|r|..]
    ensures !EndsWith(ToLower(name), MdExt) ==> r == name
  {
    if EndsWith(ToLower(name), MdExt) then
      assert name == name[..|name| - 3] + name[|name| - 3..];
      name[..|name| - 3]
    else name
  }

  /** A name with a markdown extension in any case loses exactly that
      extension. */
  lemma StripMdSuffixOf(stem: string, ext: string)
    requires ToLower(ext) == MdExt
    ensures StripMdSuffix(stem + ext) == stem
  {
    ToLowerAppend(stem, ext);
    var lower := ToLower(stem + ext);
    assert lower[|lower| - 3..] == ToLower(ext);
    assert (stem + ext)[..|stem + ext| - 3] == stem;
  }

  /** The base of a block's file name: the sanitised skill name without its
      `.md`, else the sanitised title of the block. */
  function BaseName(b: ExportBlock, index: nat): (r: string)
    ensures 1 <= |r| <= MaxFilenameLength && forall k :: 0 <= k < |r| ==> IsFilenameChar(r[k])
  {
    match SkillNameOf(b)
    case Some(n) => SanitizeFilename(StripMdSuffix(n))
    case None => SanitizeFilename(ExtractBlockTitle(b.content, b.kind, index))
  }

  /** A block imported from a file named `<name>.md`, with `name` already
      clean, is exported under the same base name. */
  lemma ReexportKeepsBase(b: ExportBlock, index: nat, name: string)
    requires 1 <= |name| <= MaxFilenameLength
    requires forall i :: 0 <= i < |name| ==> IsFilenameChar(name[i])
    requires NoDoubleHyphen(name) && name[0] != '-' && name[|name| - 1] != '-'
    requires SkillNameOf(b) == Some(name + MdExt)
    ensures BaseName(b, index) == name
  {
    StripMdSuffixOf(name, MdExt);
    SanitizeFixpoint(name);
  }

  /** The name `uniqueFilename` gives a block when `taken` are the names
      already used. `now` stands for the clock reading of its fallback. */
  function PickName(b: ExportBlock, index: nat, taken: set<string>, now: nat): string {
    UniqueFilename(BaseName(b, index), MdExt, taken, now)
  }

  /** The `i`-th name is the one picked given the names before it. */
  predicate PickedAt(blocks: seq<ExportBlock>, used: set<string>, now: nat, names: seq<string>, i: nat)
    requires i < |blocks| && i < |names|
  {
    names[i] == PickName(blocks[i], i, used + NameSet(names[..i]), now)
  }

  /** The names chosen for the blocks, one after another, each added to the
      names taken. */
  function ExportNames(blocks: seq<ExportBlock>, used: set<string>, now: nat): (names: seq<string>)
    ensures |names| == |blocks|
    ensures forall i :: 0 <= i < |blocks| ==> PickedAt(blocks, used, now, names, i)
    decreases |blocks|
  {
    if |blocks| == 0 then []
    else
      var n := |blocks| - 1;
      var init := ExportNames(blocks[..n], used, now);
      var names := init + [PickName(blocks[n], n, used + NameSet(init), now)];
      forall i | 0 <= i < |blocks|
        ensures PickedAt(blocks, used, now, names, i)
      {
        if i < n {
          assert PickedAt(blocks[..n], used, now, init, i);
          assert blocks[..n][i] == blocks[i];
          assert names[..i] == init[..i];
        } else {
          assert names[..n] == init;
        }
      }
      names
  }

  /** Every chosen name is its base, maybe a `-<number>`, and `.md`. */
  lemma ExportNamesShape(blocks: seq<ExportBlock>, used: set<string>, now: nat, i: nat)
    requires i < |blocks|
    ensures var n := ExportNames(blocks, used, now)[i];
      '/' !in n && EndsWith(n, MdExt) && StartsWith(n, BaseName(blocks[i], i))
  {
    var names := ExportNames(blocks, used, now);
    assert PickedAt(blocks, used, now, names, i);
    var base := BaseName(blocks[i], i);
    var mid := UniqueFilenameShape(base, MdExt, used + NameSet(names[..i]), now);
    NameShape(base, mid, names[i]);
  }

  lemma NameShape(base: string, mid: string, n: string)
    requires forall k :: 0 <= k < |base| ==> IsFilenameChar(base[k])
    requires mid == "" || (mid[0] == '-' && forall i :: 1 <= i < |mid| ==> IsDigit(mid[i]))
    requires n == base + mid + MdExt
    ensures '/' !in n && EndsWith(n, MdExt) && StartsWith(n, base)
  {
    assert n[..|base|] == base;
    assert n[|n| - 3..] == MdExt;
    forall k | 0 <= k < |n|
      ensures n[k] != '/'
    {
      if k < |base| {
        assert n[k] == base[k];
      } else if k < |base| + |mid| {
        assert n[k] == mid[k - |base|];
      } else {
        assert n[k] == MdExt[k - |base| - |mid|];
      }
    }
  }

  /** With at most 1000 names taken and to take, every chosen name is new:
      none was taken before and no two blocks share one. */
  lemma ExportNamesFresh(blocks: seq<ExportBlock>, used: set<string>, now: nat)
    requires |used| + |blocks| <= MaxCandidates
    ensures var names := ExportNames(blocks, used, now);
      (forall i :: 0 <= i < |names| ==> names[i] !in used)
      && (forall i, j :: 0 <= i < j < |names| ==> names[i] != names[j])
  {
    var names := ExportNames(blocks, used, now);
    forall i | 0 <= i < |names|
      ensures names[i] !in used + NameSet(names[..i])
    {
      assert PickedAt(blocks, used, now, names, i);
      NameSetSize(names[..i]);
      assert |used + NameSet(names[..i])| <= |used| + |NameSet(names[..i])|;
      UniqueFilenameFresh(BaseName(blocks[i], i), MdExt, used + NameSet(names[..i]), now);
    }
    forall i, j | 0 <= i < j < |names|
      ensures names[i] != names[j]
    {
      assert names[..j][i] == names[i];
    }
  }

  /** `references/${zone}/${filename}`. */
  function ExportPath(zoneDir: string, filename: string): string {
    ReferencesDir + zoneDir + "/" + filename
  }

  /** The file name is the last segment of its export path. */
  lemma ExportPathName(zoneDir: string, filename: string)
    requires '/' !in filename
    ensures LastSegment(ExportPath(zoneDir, filename), '/') == filename
  {
    assert ExportPath(zoneDir, filename) == (ReferencesDir + zoneDir) + ['/'] + filename;
    LastSegmentAfter(ReferencesDir + zoneDir, filename, '/');
  }

  lemma EndsWithAppend(a: string, b: string, suffix: string)
    requires EndsWith(b, suffix)
    ensures EndsWith(a + b, suffix)
  {
    assert (a + b)[|a + b| - |suffix|..] == b[|b| - |suffix|..];
  }

  /** Lower-casing keeps a `.md` ending. */
  lemma LowerKeepsMd(s: string)
    requires EndsWith(s, MdExt)
    ensures EndsWith(ToLower(s), MdExt)
  {
    var l := ToLower(s);
    assert s[|s| - 3..] == MdExt;
    assert s[|s| - 3] == '.' && s[|s| - 2] == 'm' && s[|s| - 1] == 'd';
    assert l[|l| - 3..] == [l[|l| - 3], l[|l| - 2], l[|l| - 1]];
  }

  lemma ExportPathUnderReferences(zoneDir: string, name: string)
    requires forall i :: 0 <= i < |zoneDir| ==> !('A' <= zoneDir[i] <= 'Z')
    ensures StartsWith(ToLower(ExportPath(zoneDir, name)), ReferencesDir)
  {
    assert ExportPath(zoneDir, name) == ReferencesDir + (zoneDir + "/" + name);
    LowerUnderDir(ReferencesDir, zoneDir + "/" + name);
  }

  lemma ExportPathIsReference(zoneDir: string, name: string)
    requires forall i :: 0 <= i < |zoneDir| ==> !('A' <= zoneDir[i] <= 'Z')
    requires EndsWith(name, MdExt)
    ensures IsReferencePath(ExportPath(zoneDir, name), SkillMdPath)
  {
    var p := ExportPath(zoneDir, name);
    ExportPathUnderReferences(zoneDir, name);
    EndsWithAppend(ReferencesDir + zoneDir + "/", name, MdExt);
    LowerKeepsMd(p);
    assert p[0] == 'r' && SkillMdPath[0] == 'S';
  }

  /** A file exported for a block of zone `z` is read back by the directory
      parser as a reference of zone `z` named by its file name. */
  lemma ExportPathImports(z: Zone, name: string, content: string)
    requires '/' !in name && EndsWith(name, MdExt)
    ensures var p := ExportPath(DirName(z), name);
      IsReferencePath(p, SkillMdPath) && ToReference((p, content)) == ReferenceFile(name, content, z, p)
  {
    var p := ExportPath(DirName(z), name);
    ZoneFromPathOfDir(z, name);
    assert ZoneFromPath(p) == z;
    ExportPathName(DirName(z), name);
    assert FilenameFromPath(p) == name;
    DirNameLower(z);
    ExportPathIsReference(DirName(z), name);
  }

  lemma DirNameLower(z: Zone)
    ensures forall i :: 0 <= i < |DirName(z)| ==> !('A' <= DirName(z)[i] <= 'Z')
  {
    match z
    case Permanent =>
    case Stable =>
    case Working =>
  }

  /** The paths of the blocks' files. */
  function ExportPaths(blocks: seq<ExportBlock>, names: seq<string>): (paths: seq<string>)
    requires |names| == |blocks|
    ensures |paths| == |blocks|
    ensures forall i :: 0 <= i < |blocks| ==> paths[i] == ExportPath(ToLower(blocks[i].zone), names[i])
  {
    seq(|blocks|, i requires 0 <= i < |blocks| => ExportPath(ToLower(blocks[i].zone), names[i]))
  }

  /** The archive entries written for the blocks. */
  function ExportEntries(blocks: seq<ExportBlock>, paths: seq<string>): (entries: seq<FileEntry>)
    requires |paths| == |blocks|
    ensures |entries| == |blocks|
    ensures forall i :: 0 <= i < |blocks| ==> entries[i] == (paths[i], blocks[i].content)
  {
    seq(|blocks|, i requires 0 <= i < |blocks| => (paths[i], blocks[i].content))
  }

  function BlockIds(blocks: seq<ExportBlock>): set<nat> {
    set i | 0 <= i < |blocks| :: blocks[i].id
  }

  lemma BlockIdsPush(blocks: seq<ExportBlock>)
    requires |blocks| > 0
    ensures BlockIds(blocks) == BlockIds(blocks[..|blocks| - 1]) + {blocks[|blocks| - 1].id}
  {
    var n := |blocks| - 1;
    forall x | x in BlockIds(blocks)
      ensures x in BlockIds(blocks[..n]) + {blocks[n].id}
    {
      var i :| 0 <= i < |blocks| && blocks[i].id == x;
      if i < n {
        assert blocks[..n][i].id == x;
      }
    }
    forall x | x in BlockIds(blocks[..n])
      ensures x in BlockIds(blocks)
    {
      var i :| 0 <= i < n && blocks[..n][i].id == x;
      assert blocks[i].id == x;
    }
  }

  /** `blockPathMap.set(block._id, filePath)` in block order. */
  function BlockPathMap(blocks: seq<ExportBlock>, paths: seq<string>): (m: map<nat, string>)
    requires |paths| == |blocks|
    ensures m.Keys == BlockIds(blocks)
    decreases |blocks|
  {
    if |blocks| == 0 then map[]
    else
      var n := |blocks| - 1;
      BlockIdsPush(blocks);
      BlockPathMap(blocks[..n], paths[..n])[blocks[n].id := paths[n]]
  }

  /** A block's id maps to the path of the last block with that id. */
  lemma {:induction false} BlockPathMapLastWins(blocks: seq<ExportBlock>, paths: seq<string>, i: nat)
    requires |paths| == |blocks| && i < |blocks|
    requires forall j :: i < j < |blocks| ==> blocks[j].id != blocks[i].id
    ensures blocks[i].id in BlockPathMap(blocks, paths) && BlockPathMap(blocks, paths)[blocks[i].id] == paths[i]
    decreases |blocks|
  {
    var n := |blocks| - 1;
    var init, initPaths := blocks[..n], paths[..n];
    assert BlockPathMap(blocks, paths) == BlockPathMap(init, initPaths)[blocks[n].id := paths[n]];
    if i < n {
      assert blocks[n].id != blocks[i].id;
      assert init[i] == blocks[i] && initPaths[i] == paths[i];
      forall j | i < j < |init|
        ensures init[j].id != init[i].id
      {
        assert init[j] == blocks[j];
      }
      BlockPathMapLastWins(init, initPaths, i);
    }
  }

  datatype ZipResult = ZipResult(zip: Zip, used: set<string>, names: seq<string>, paths: seq<string>, blockPaths: map<nat, string>)

  /** `addBlocksToZip`: each block, in order, gets a fresh file name from its
      base name and is written under its lower-cased zone; its id is mapped
      to the path. */
  function AddBlocksToZip(zip: Zip, blocks: seq<ExportBlock>, used: set<string>, now: nat): (r: ZipResult)
    ensures |r.names| == |blocks| && |r.paths| == |blocks|
    ensures r.names == ExportNames(blocks, used, now)
    ensures forall i :: 0 <= i < |blocks| ==> r.paths[i] == ExportPath(ToLower(blocks[i].zone), r.names[i])
    ensures r.used == used + NameSet(r.names)
    ensures DistinctPaths(zip) ==> DistinctPaths(r.zip)
  {
    var names := ExportNames(blocks, used, now);
    var paths := ExportPaths(blocks, names);
    ZipResult(PutAll(zip, ExportEntries(blocks, paths)), used + NameSet(names), names, paths, BlockPathMap(blocks, paths))
  }

  /** Exported paths of distinct names differ. */
  lemma ExportPathsDistinct(blocks: seq<ExportBlock>, used: set<string>, now: nat, i: nat, j: nat)
    requires i < j < |blocks|
    requires ExportNames(blocks, used, now)[i] != ExportNames(blocks, used, now)[j]
    ensures AddBlocksToZip([], blocks, used, now).paths[i] != AddBlocksToZip([], blocks, used, now).paths[j]
  {
    var names := ExportNames(blocks, used, now);
    ExportNamesShape(blocks, used, now, i);
    ExportNamesShape(blocks, used, now, j);
    ExportPathName(ToLower(blocks[i].zone), names[i]);
    ExportPathName(ToLower(blocks[j].zone), names[j]);
  }

  /** Every exported path lies under `references/`. */
  lemma ExportPathsUnderReferences(blocks: seq<ExportBlock>, names: seq<string>)
    requires |names| == |blocks|
    ensures forall i :: 0 <= i < |blocks| ==> StartsWith(ExportPaths(blocks, names)[i], ReferencesDir)
  {
    forall i | 0 <= i < |blocks|
      ensures StartsWith(ExportPaths(blocks, names)[i], ReferencesDir)
    {
      var p := ExportPath(ToLower(blocks[i].zone), names[i]);
      assert p == ReferencesDir + (ToLower(blocks[i].zone) + "/" + names[i]);
      assert p[..|ReferencesDir|] == ReferencesDir;
    }
  }

  /** Entries under a directory the archive has no file under are new to it. */
  lemma EntriesFresh(zip: Zip, entries: seq<FileEntry>)
    requires forall i :: 0 <= i < |entries| ==> StartsWith(entries[i].0, ReferencesDir)
    requires forall i :: 0 <= i < |zip| ==> !StartsWith(zip[i].0, ReferencesDir)
    ensures forall i :: 0 <= i < |entries| ==> entries[i].0 !in PathSet(zip)
  {
    forall i, k | 0 <= i < |entries| && 0 <= k < |zip|
      ensures zip[k].0 != entries[i].0
    {
    }
  }

  /** Within one export, files land at distinct paths when at most 1000 names
      are taken and to take; then the archive gains exactly one entry per
      block, in block order. */
  lemma AddBlocksToZipFresh(zip: Zip, blocks: seq<ExportBlock>, used: set<string>, now: nat)
    requires |used| + |blocks| <= MaxCandidates
    requires forall i :: 0 <= i < |zip| ==> !StartsWith(zip[i].0, ReferencesDir)
    ensures var r := AddBlocksToZip(zip, blocks, used, now);
      (forall i, j :: 0 <= i < j < |blocks| ==> r.paths[i] != r.paths[j])
      && r.zip == zip + ExportEntries(blocks, r.paths)
  {
    var names := ExportNames(blocks, used, now);
    var paths := ExportPaths(blocks, names);
    var entries := ExportEntries(blocks, paths);
    ExportNamesFresh(blocks, used, now);
    forall i, j | 0 <= i < j < |blocks|
      ensures paths[i] != paths[j]
    {
      ExportPathsDistinct(blocks, used, now, i, j);
    }
    assert DistinctPaths(entries);
    ExportPathsUnderReferences(blocks, names);
    EntriesFresh(zip, entries);
    PutAllFresh(zip, entries);
  }

  /** What `generateSkillMd` writes: a name, a description and a body. */
  datatype SkillMdParts = SkillMdParts(name: string, description: string, body: string)

  const DefaultDescription: string := "Exported from ContextForge"
  const DefaultBody: string := "This skill was exported from a ContextForge session."

  /** The first skill block's name (else the fallback), its description and
      its content; with no skill block, the fallback name and a fixed
      description and body. */
  function SkillMdContent(skillBlocks: seq<ExportBlock>, fallbackName: string): (p: SkillMdParts)
    ensures |skillBlocks| > 0 ==> p.body == skillBlocks[0].content && p.description == SkillDescriptionOf(skillBlocks[0])
    ensures |skillBlocks| > 0 && SkillNameOf(skillBlocks[0]).Some? ==> p.name == SkillNameOf(skillBlocks[0]).value
    ensures |skillBlocks| > 0 && SkillNameOf(skillBlocks[0]).None? ==> p.name == fallbackName
    ensures |skillBlocks| == 0 ==> p == SkillMdParts(fallbackName, DefaultDescription, DefaultBody)
    ensures fallbackName != "" ==> p.name != ""
  {
    if |skillBlocks| > 0 then
      var skill := skillBlocks[0];
      SkillMdParts(SkillNameOf(skill).GetOr(fallbackName), SkillDescriptionOf(skill), skill.content)
    else SkillMdParts(fallbackName, DefaultDescription, DefaultBody)
  }

  /** The SKILL.md text for the parts: a quoted name and description in the
      frontmatter, a blank line, then the body. */
  function SkillMdText(p: SkillMdParts): string {
    "---\nname: \"" + p.name + "\"\ndescription: \"" + p.description + "\"\n---\n\n" + p.body
  }

  /** `generateSkillMd`: the frontmatter opens the text and the chosen body
      closes it. */
  function GenerateSkillMd(skillBlocks: seq<ExportBlock>, fallbackName: string): (r: string)
    ensures var p := SkillMdContent(skillBlocks, fallbackName);
      && |r| > |Delimiter| + |p.body|
      && r[..|Delimiter|] == Delimiter
      && r[|r| - |p.body|..] == p.body
  {
    var p := SkillMdContent(skillBlocks, fallbackName);
    SkillMdTextLayout(p);
    SkillMdText(p)
  }

  /** A name or description the frontmatter can carry back: on one line and
      without the delimiter. */
  predicate Writable(s: string) {
    '\n' !in s && !Contains(s, Delimiter)
  }

  lemma NoMatchNotContains(s: string, pat: string)
    requires forall k: nat :: !MatchAt(s, pat, k)
    ensures !Contains(s, pat)
  {
  }

  lemma NotContainsNoMatch(s: string, pat: string, k: nat)
    requires !Contains(s, pat)
    ensures !MatchAt(s, pat, k)
  {
  }

  /** Text without a hyphen has no delimiter. */
  lemma NoHyphenNoDelimiter(s: string)
    requires '-' !in s
    ensures !Contains(s, Delimiter)
  {
    forall k: nat
      ensures !MatchAt(s, Delimiter, k)
    {
      if k + 3 <= |s| {
        assert s[k..k + 3][0] == s[k];
      }
    }
    NoMatchNotContains(s, Delimiter);
  }

  /** Joining two texts without the delimiter makes one only across the seam,
      which needs a hyphen on both sides of it. */
  lemma NoDelimiterConcat(p: string, q: string)
    requires !Contains(p, Delimiter) && !Contains(q, Delimiter)
    requires (|p| > 0 && p[|p| - 1] != '-') || (|q| > 0 && q[0] != '-')
    ensures !Contains(p + q, Delimiter)
  {
    var s := p + q;
    forall k: nat
      ensures !MatchAt(s, Delimiter, k)
    {
      if k + 3 <= |p| {
        assert s[k..k + 3] == p[k..k + 3];
        NotContainsNoMatch(p, Delimiter, k);
      } else if k >= |p| {
        if k + 3 <= |s| {
          assert s[k..k + 3] == q[k - |p|..k - |p| + 3];
        }
        NotContainsNoMatch(q, Delimiter, k - |p|);
      } else if k + 3 <= |s| {
        assert s[|p| - 1] == s[k..k + 3][|p| - 1 - k];
        assert s[|p|] == s[k..k + 3][|p| - k];
      }
    }
    NoMatchNotContains(s, Delimiter);
  }

  /** A frontmatter line `key: "value"`. */
  function FieldLine(key: string, v: string): string {
    key + ":" + QuotedValue(v)
  }

  /** A value after its colon: a space, then the value in double quotes. */
  function QuotedValue(v: string): string {
    " " + (['"'] + v + ['"'])
  }

  /** The two frontmatter lines. */
  function Frontmatter(name: string, desc: string): string {
    FieldLine("name", name) + "\n" + FieldLine("description", desc)
  }

  lemma SkillMdTextLayout(p: SkillMdParts)
    ensures SkillMdText(p) == Delimiter + ("\n" + Frontmatter(p.name, p.description) + "\n") + Delimiter + ("\n\n" + p.body)
  {
    var open, a, b, close := "---\nname: \"", "\nname: \"", "\"\ndescription: \"", "\"\n---\n\n";
    assert open == Delimiter + a;
    assert close == "\"\n" + Delimiter + "\n\n";
    HeadPieces(p.name, p.description);
  }

  /** Five texts without the delimiter, the fixed ones not hyphenated where
      they meet the others, join into one without it. */
  lemma NoDelimiterJoin(a: string, x: string, b: string, y: string, c: string)
    requires !Contains(a, Delimiter) && !Contains(x, Delimiter) && !Contains(b, Delimiter)
    requires !Contains(y, Delimiter) && !Contains(c, Delimiter)
    requires |a| > 0 && a[|a| - 1] != '-' && |b| > 0 && b[0] != '-' && b[|b| - 1] != '-'
    requires |c| > 0 && c[0] != '-'
    ensures !Contains(a + x + b + y + c, Delimiter)
  {
    NoDelimiterConcat(a, x);
    NoDelimiterConcat(a + x, b);
    var h := a + x + b;
    assert h[|h| - 1] == b[|b| - 1];
    NoDelimiterConcat(h, y);
    NoDelimiterConcat(h + y, c);
  }

  lemma HeadPieces(name: string, desc: string)
    ensures "\n" + Frontmatter(name, desc) + "\n" == "\nname: \"" + name + "\"\ndescription: \"" + desc + "\"\n"
  {
  }

  /** The frontmatter between the delimiters has no delimiter of its own. */
  lemma HeadNoDelimiter(name: string, desc: string)
    requires Writable(name) && Writable(desc)
    ensures !Contains("\n" + Frontmatter(name, desc) + "\n", Delimiter)
  {
    var a, b, c := "\nname: \"", "\"\ndescription: \"", "\"\n";
    NoHyphenNoDelimiter(a);
    NoHyphenNoDelimiter(b);
    NoHyphenNoDelimiter(c);
    NoDelimiterJoin(a, name, b, desc, c);
    HeadPieces(name, desc);
  }

  lemma QuotedTrimmed(v: string)
    ensures Trim(['"'] + v + ['"']) == ['"'] + v + ['"']
  {
    var q := ['"'] + v + ['"'];
    assert q[0] == '"' && q[|q| - 1] == '"';
    TrimNoop(q);
  }

  lemma TrimQuoted(v: string)
    ensures Unquote(Trim(QuotedValue(v))) == v
  {
    TrimSpacePrefix(" ", ['"'] + v + ['"']);
    QuotedTrimmed(v);
    UnquoteQuoted(v, '"');
  }

  lemma LowerKey(key: string)
    requires IsKey(key)
    ensures ToLower(Trim(key)) == key && ':' !in key
  {
    TrimNoop(key);
    ToLowerNoop(key);
  }

  /** The value of a `key: "value"` line is the value itself. */
  lemma FieldLineParses(key: string, v: string)
    requires IsKey(key)
    ensures ParseLine(FieldLine(key, v)) == Some((key, v))
  {
    LowerKey(key);
    TrimQuoted(v);
    ParseLineField(key, QuotedValue(v));
  }

  lemma FieldLineOneLine(key: string, v: string)
    requires '\n' !in key && '\n' !in v
    ensures '\n' !in FieldLine(key, v)
  {
  }

  /** Two parsed lines give a map of their two fields, the second winning. */
  lemma FieldsOfTwo(l1: string, l2: string, f1: (string, string), f2: (string, string))
    requires ParseLine(l1) == Some(f1) && ParseLine(l2) == Some(f2)
    ensures FieldsOf([l1, l2]) == map[f1.0 := f1.1][f2.0 := f2.1]
  {
    assert [l1][..0] == [];
    assert FieldsOf([l1]) == map[f1.0 := f1.1];
    assert [l1, l2][..1] == [l1];
  }

  predicate IsKey(key: string) {
    |key| > 0 && forall i :: 0 <= i < |key| ==> 'a' <= key[i] <= 'z'
  }

  /** Two field lines, one under the other, give back both values. */
  lemma TwoFieldLines(k1: string, v1: string, k2: string, v2: string)
    requires IsKey(k1) && IsKey(k2) && '\n' !in k1 && '\n' !in k2 && '\n' !in v1 && '\n' !in v2
    ensures FieldsOf(Split(FieldLine(k1, v1) + "\n" + FieldLine(k2, v2), '\n')) == map[k1 := v1][k2 := v2]
  {
    var l1 := FieldLine(k1, v1);
    var l2 := FieldLine(k2, v2);
    FieldLineOneLine(k1, v1);
    FieldLineOneLine(k2, v2);
    assert l1 + "\n" + l2 == l1 + ['\n'] + l2;
    SplitTwo(l1, l2, '\n');
    FieldLineParses(k1, v1);
    FieldLineParses(k2, v2);
    FieldsOfTwo(l1, l2, (k1, v1), (k2, v2));
  }

  /** The frontmatter's two lines give back the name and the description. */
  lemma FrontmatterFieldsOf(name: string, desc: string)
    requires '\n' !in name && '\n' !in desc
    ensures var fields := FieldsOf(Split(Frontmatter(name, desc), '\n'));
      "name" in fields && fields["name"] == name
      && "description" in fields && fields["description"] == desc
  {
    TwoFieldLines("name", name, "description", desc);
    assert "name" != "description" by {
      assert |"name"| != |"description"|;
    }
  }

  /** Text with non-blank ends, between two line breaks, trims to itself. */
  lemma TrimBetweenBreaks(inner: string)
    requires |inner| > 0 && !IsSpace(inner[0]) && !IsSpace(inner[|inner| - 1])
    ensures Trim("\n" + inner + "\n") == inner
  {
    assert "\n" + inner + "\n" == "\n" + (inner + "\n");
    TrimSpacePrefix("\n", inner + "\n");
    TrimSpaceSuffix(inner, "\n");
    TrimNoop(inner);
  }

  lemma FieldLineEnds(key: string, v: string)
    requires |key| > 0
    ensures var l := FieldLine(key, v); |l| > 0 && l[0] == key[0] && l[|l| - 1] == '"'
  {
  }

  /** The frontmatter starts with `n` and ends with a quote. */
  lemma FrontmatterEnds(name: string, desc: string)
    ensures var f := Frontmatter(name, desc); |f| > 0 && f[0] == 'n' && f[|f| - 1] == '"'
  {
    var l1 := FieldLine("name", name);
    var l2 := FieldLine("description", desc);
    FieldLineEnds("name", name);
    FieldLineEnds("description", desc);
    var f := l1 + "\n" + l2;
    assert f[0] == l1[0];
    assert f[|f| - 1] == l2[|l2| - 1];
  }

  /** The blank-bordered frontmatter trims to its two lines. */
  lemma TrimHead(name: string, desc: string)
    ensures Trim("\n" + Frontmatter(name, desc) + "\n") == Frontmatter(name, desc)
  {
    FrontmatterEnds(name, desc);
    TrimBetweenBreaks(Frontmatter(name, desc));
  }

  lemma DelimitedEnds(head: string)
    ensures var fixed := Delimiter + head + Delimiter;
      |fixed| > 0 && !IsSpace(fixed[0]) && !IsSpace(fixed[|fixed| - 1])
  {
    var fixed := Delimiter + head + Delimiter;
    assert fixed[0] == '-' && fixed[|fixed| - 1] == '-';
  }

  lemma BlankLineTrim(body: string)
    ensures Trim("\n\n" + body) == Trim(body)
  {
    TrimSpacePrefix("\n\n", body);
  }

  /** Trimming such a document keeps the delimited head and trims the body. */
  lemma TrimDocument(head: string, body: string) returns (rest: string)
    ensures Trim(Delimiter + head + Delimiter + ("\n\n" + body)) == Delimiter + head + Delimiter + rest
    ensures Trim(rest) == Trim(body)
  {
    DelimitedEnds(head);
    BlankLineTrim(body);
    rest := TrimAfterFixed(Delimiter + head + Delimiter, "\n\n" + body);
  }

  /** A document made of the delimiters around a head without a delimiter,
      then a blank line and a body, splits into the trimmed head and body. */
  lemma DocumentSplits(head: string, body: string)
    requires !Contains(head, Delimiter) && (|head| == 0 || head[|head| - 1] != '-')
    ensures SplitFrontmatter(Delimiter + head + Delimiter + ("\n\n" + body)) == Success((Trim(head), Trim(body)))
  {
    var rest := TrimDocument(head, body);
    SplitFrontmatterLayout(Delimiter + head + Delimiter + ("\n\n" + body), head, rest);
  }

  /** The generated text splits into its two frontmatter lines and the
      trimmed body. */
  lemma SkillMdSplits(p: SkillMdParts)
    requires Writable(p.name) && Writable(p.description)
    ensures SplitFrontmatter(SkillMdText(p)) == Success((Frontmatter(p.name, p.description), Trim(p.body)))
  {
    var head := "\n" + Frontmatter(p.name, p.description) + "\n";
    SkillMdTextLayout(p);
    HeadNoDelimiter(p.name, p.description);
    DocumentSplits(head, p.body);
    TrimHead(p.name, p.description);
  }

  /** Round trip: the parser reads back the name, the trimmed body, and the
      description, which the parser's fallback replaces only when empty; an
      empty name is rejected. */
  lemma SkillMdRoundTrip(p: SkillMdParts, fallbackName: Option<string>)
    requires Writable(p.name) && Writable(p.description)
    ensures ParseSkillMd(SkillMdText(p), fallbackName) ==
      if p.name == "" then Failure(MissingName)
      else Success(ParsedSkill(Trim(p.body), SkillMetadata(p.name,
        if p.description != "" then p.description else fallbackName.GetOr(""))))
  {
    SkillMdSplits(p);
    FrontmatterFieldsOf(p.name, p.description);
  }

  /** The generated SKILL.md parses back to the skill's name, its trimmed
      content and its description. */
  lemma GenerateSkillMdRoundTrip(skillBlocks: seq<ExportBlock>, fallbackName: string, parserFallback: Option<string>)
    requires fallbackName != ""
    requires var p := SkillMdContent(skillBlocks, fallbackName); Writable(p.name) && Writable(p.description)
    ensures var p := SkillMdContent(skillBlocks, fallbackName);
      var r := ParseSkillMd(GenerateSkillMd(skillBlocks, fallbackName), parserFallback);
      r.Success? && r.value.metadata.skillName == p.name && r.value.content == Trim(p.body)
      && (p.description != "" ==> r.value.metadata.skillDescription == p.description)
  {
    SkillMdRoundTrip(SkillMdContent(skillBlocks, fallbackName), parserFallback);
  }

  lemma DefaultDescriptionWritable()
    ensures Writable(DefaultDescription)
  {
    var s := DefaultDescription;
    assert '-' !in s && '\n' !in s;
    NoHyphenNoDelimiter(s);
  }

  /** The fixed SKILL.md of a session without a skill block carries the
      fixed description. */
  lemma DefaultSkillMdRoundTrip(fallbackName: string, parserFallback: Option<string>)
    requires fallbackName != "" && Writable(fallbackName)
    ensures ParseSkillMd(GenerateSkillMd([], fallbackName), parserFallback)
      == Success(ParsedSkill(Trim(DefaultBody), SkillMetadata(fallbackName, DefaultDescription)))
  {
    var p := SkillMdParts(fallbackName, DefaultDescription, DefaultBody);
    assert SkillMdContent([], fallbackName) == p;
    DefaultDescriptionWritable();
    SkillMdRoundTrip(p, parserFallback);
  }

  predicate IsSkillBlock(b: ExportBlock) {
    b.kind == "skill"
  }

  predicate IsOtherBlock(b: ExportBlock) {
    b.kind != "skill"
  }

  /** `session.name || "Exported Skill"`. */
  function SessionSkillName(session: SessionInfo): (r: string)
    ensures r != ""
  {
    if session.name != "" then session.name else "Exported Skill"
  }

  /** `sanitizeFilename(skillBlocks[0]?.metadata?.skillName || session.name || "skill-export")`. */
  function SessionZipName(skillBlocks: seq<ExportBlock>, session: SessionInfo): (r: string)
    ensures 1 <= |r| <= MaxFilenameLength && forall k :: 0 <= k < |r| ==> IsFilenameChar(r[k])
  {
    var title :=
      if |skillBlocks| > 0 && SkillNameOf(skillBlocks[0]).Some? then SkillNameOf(skillBlocks[0]).value
      else if session.name != "" then session.name
      else "skill-export";
    SanitizeFilename(title)
  }

  datatype Package = Package(files: Zip, fileName: string)

  /** `exportSessionAsZip`: SKILL.md first, then the files of the other
      blocks; the archive is named after the skill or the session. */
  function ExportSession(data: SessionExport, now: nat): (r: Package)
    ensures EndsWith(r.fileName, ".zip")
  {
    var skills := Filter(data.blocks, IsSkillBlock);
    var others := Filter(data.blocks, IsOtherBlock);
    var md := GenerateSkillMd(skills, SessionSkillName(data.session));
    var added := AddBlocksToZip([(SkillMdPath, md)], others, {}, now);
    var name := SessionZipName(skills, data.session) + ".zip";
    assert name[|name| - 4..] == ".zip";
    Package(added.zip, name)
  }

  /** The reference the directory parser should find for an exported block. */
  function ExpectedReference(b: ExportBlock, name: string): ReferenceFile {
    var z := ParseZone(b.zone).GetOr(Stable);
    ReferenceFile(name, b.content, z, ExportPath(DirName(z), name))
  }

  /** The references expected for blocks exported under `names`. */
  function ExpectedReferences(blocks: seq<ExportBlock>, names: seq<string>): (r: seq<ReferenceFile>)
    requires |names| == |blocks|
    ensures |r| == |blocks|
    ensures forall i :: 0 <= i < |blocks| ==> r[i] == ExpectedReference(blocks[i], names[i])
  {
    seq(|blocks|, i requires 0 <= i < |blocks| => ExpectedReference(blocks[i], names[i]))
  }

  /** The session's package is its SKILL.md followed by one entry per other
      block. */
  lemma ExportSessionFiles(data: SessionExport, now: nat)
    requires |Filter(data.blocks, IsOtherBlock)| <= MaxCandidates
    ensures var others := Filter(data.blocks, IsOtherBlock);
      var added := AddBlocksToZip([], others, {}, now);
      ExportSession(data, now).files
        == [(SkillMdPath, GenerateSkillMd(Filter(data.blocks, IsSkillBlock), SessionSkillName(data.session)))]
          + ExportEntries(others, added.paths)
  {
    var skills := Filter(data.blocks, IsSkillBlock);
    var others := Filter(data.blocks, IsOtherBlock);
    var md := GenerateSkillMd(skills, SessionSkillName(data.session));
    var head: Zip := [(SkillMdPath, md)];
    assert !StartsWith(SkillMdPath, ReferencesDir);
    AddBlocksToZipFresh(head, others, {}, now);
  }

  /** The exported entries are the references the directory parser collects. */
  lemma ExportedEntriesAreReferences(others: seq<ExportBlock>, now: nat)
    requires |others| <= MaxCandidates
    requires forall i :: 0 <= i < |others| ==> ParseZone(others[i].zone).Some?
    ensures var added := AddBlocksToZip([], others, {}, now);
      var entries := ExportEntries(others, added.paths);
      AllReferenceEntries(entries) && MapSeq(ToReference, entries) == ExpectedReferences(others, added.names)
  {
    var added := AddBlocksToZip([], others, {}, now);
    forall i | 0 <= i < |others|
      ensures '/' !in added.names[i] && EndsWith(added.names[i], MdExt)
    {
      ExportNamesShape(others, {}, now, i);
    }
    EntriesAreReferences(others, added.names, added.paths);
  }

  /** Entries at the export paths of names of the exported shape are read
      back as the expected references. */
  lemma EntriesAreReferences(others: seq<ExportBlock>, names: seq<string>, paths: seq<string>)
    requires |names| == |others| && |paths| == |others|
    requires forall i :: 0 <= i < |others| ==> ParseZone(others[i].zone).Some?
    requires forall i :: 0 <= i < |others| ==> '/' !in names[i] && EndsWith(names[i], MdExt)
    requires forall i :: 0 <= i < |others| ==> paths[i] == ExportPath(ToLower(others[i].zone), names[i])
    ensures var entries := ExportEntries(others, paths);
      AllReferenceEntries(entries) && MapSeq(ToReference, entries) == ExpectedReferences(others, names)
  {
    var entries := ExportEntries(others, paths);
    var refs := MapSeq(ToReference, entries);
    var expected := ExpectedReferences(others, names);
    forall i | 0 <= i < |entries|
      ensures IsReferenceEntry(SkillMdPath)(entries[i]) && refs[i] == expected[i]
    {
      assert entries[i] == (ExportPath(ToLower(others[i].zone), names[i]), others[i].content);
      EntryImports(others, names, i);
    }
    SameElements(refs, expected);
  }

  /** Every entry is a reference file of a package whose SKILL.md is at the root. */
  predicate AllReferenceEntries(entries: seq<FileEntry>) {
    forall i :: 0 <= i < |entries| ==> IsReferenceEntry(SkillMdPath)(entries[i])
  }

  /** A block's entry, under a name of the exported shape, is read back as
      the expected reference. */
  lemma EntryImports(others: seq<ExportBlock>, names: seq<string>, i: nat)
    requires i < |others| && ParseZone(others[i].zone).Some?
    requires |names| == |others| && '/' !in names[i] && EndsWith(names[i], MdExt)
    ensures var e := (ExportPath(ToLower(others[i].zone), names[i]), others[i].content);
      IsReferencePath(e.0, SkillMdPath) && ToReference(e) == ExpectedReference(others[i], names[i])
  {
    var z := ParseZone(others[i].zone).value;
    ZoneDirName(others[i].zone, z);
    ExportPathImports(z, names[i], others[i].content);
  }

  lemma ZoneDirName(s: string, z: Zone)
    requires ParseZone(s) == Some(z)
    ensures ToLower(s) == DirName(z)
  {
    assert s == ZoneName(z);
  }

  /** Text shorter than a pattern does not contain it. */
  lemma ShortNotContains(s: string, pat: string)
    requires |s| < |pat|
    ensures !Contains(s, pat)
  {
    forall k: nat
      ensures !MatchAt(s, pat, k)
    {
    }
    NoMatchNotContains(s, pat);
  }

  lemma SkillMdPathLower()
    ensures ToLower(FilenameFromPath(SkillMdPath)) == "skill.md"
  {
    assert '/' !in SkillMdPath;
    var l := ToLower(SkillMdPath);
    assert l == [l[0], l[1], l[2], l[3], l[4], l[5], l[6], l[7]];
  }

  /** `SKILL.md` at the archive root is the file the directory parser looks for. */
  lemma SkillMdPathFound()
    ensures IsSkillMdPath(SkillMdPath)
  {
    SkillMdPathLower();
    ShortNotContains(SkillMdPath, ReferencesDir);
  }

  lemma PackageSkillMdFirst(md: string, entries: seq<FileEntry>)
    ensures FindSkillMd([(SkillMdPath, md)] + entries) == Some(0)
  {
    var files := [(SkillMdPath, md)] + entries;
    SkillMdPathFound();
    assert files[0].0 == SkillMdPath;
    FindSkillMdAtHead(files);
  }

  /** The SKILL.md is not one of its own references. */
  lemma SkillMdNotReference(md: string)
    ensures Filter([(SkillMdPath, md)], IsReferenceEntry(SkillMdPath)) == []
  {
    assert !IsReferencePath(SkillMdPath, SkillMdPath);
    FilterSingleton((SkillMdPath, md), IsReferenceEntry(SkillMdPath));
  }

  lemma PackageReferences(md: string, entries: seq<FileEntry>)
    requires AllReferenceEntries(entries)
    ensures CollectReferences([(SkillMdPath, md)] + entries, SkillMdPath) == MapSeq(ToReference, entries)
  {
    var p := IsReferenceEntry(SkillMdPath);
    FilterAppend([(SkillMdPath, md)], entries, p);
    SkillMdNotReference(md);
    FilterAll(entries, p);
    assert Filter([(SkillMdPath, md)] + entries, p) == entries;
  }

  /** A package of a SKILL.md the parser accepts followed by reference
      entries parses to that skill and those references. */
  lemma PackageParses(md: string, entries: seq<FileEntry>, fallbackName: Option<string>)
    requires md != "" && ParseSkillMd(md, fallbackName).Success?
    requires AllReferenceEntries(entries)
    ensures var r := ParseSkillDirectory([(SkillMdPath, md)] + entries, fallbackName);
      r.Success? && r.value.skill == ParseSkillMd(md, fallbackName).value
      && multiset(r.value.references) == multiset(MapSeq(ToReference, entries))
  {
    PackageSkillMdFirst(md, entries);
    PackageReferences(md, entries);
  }

  lemma GeneratedSkillMdNonEmpty(skillBlocks: seq<ExportBlock>, fallbackName: string)
    ensures GenerateSkillMd(skillBlocks, fallbackName) != ""
  {
    var p := SkillMdContent(skillBlocks, fallbackName);
    SkillMdTextLayout(p);
  }

  /** The other blocks of a session whose blocks are all in the three zones
      are in the three zones. */
  lemma OthersInZones(blocks: seq<ExportBlock>)
    requires forall i :: 0 <= i < |blocks| ==> ParseZone(blocks[i].zone).Some?
    ensures var others := Filter(blocks, IsOtherBlock);
      forall i :: 0 <= i < |others| ==> ParseZone(others[i].zone).Some?
  {
    FilterMembers(blocks, IsOtherBlock);
  }

  /** Export then import: re-reading a session's package finds the skill
      under its name with its trimmed content, and one reference per other
      block, with the block's content and zone. It needs at most 1000 other
      blocks, blocks in the three zones only, and a name and description the
      frontmatter can carry. */
  lemma ExportSessionReimports(data: SessionExport, now: nat, fallbackName: Option<string>)
    requires |Filter(data.blocks, IsOtherBlock)| <= MaxCandidates
    requires forall i :: 0 <= i < |data.blocks| ==> ParseZone(data.blocks[i].zone).Some?
    requires var p := SkillMdContent(Filter(data.blocks, IsSkillBlock), SessionSkillName(data.session));
      Writable(p.name) && Writable(p.description)
    ensures var others := Filter(data.blocks, IsOtherBlock);
      var p := SkillMdContent(Filter(data.blocks, IsSkillBlock), SessionSkillName(data.session));
      var names := ExportNames(others, {}, now);
      var r := ParseSkillDirectory(ExportSession(data, now).files, fallbackName);
      && r.Success?
      && r.value.skill.metadata.skillName == p.name
      && r.value.skill.content == Trim(p.body)
      && multiset(r.value.references) == multiset(ExpectedReferences(others, names))
  {
    var skills := Filter(data.blocks, IsSkillBlock);
    var md := GenerateSkillMd(skills, SessionSkillName(data.session));
    var entries := ExportSessionParts(data, now);
    GenerateSkillMdRoundTrip(skills, SessionSkillName(data.session), fallbackName);
    GeneratedSkillMdNonEmpty(skills, SessionSkillName(data.session));
    PackageParses(md, entries, fallbackName);
  }

  /** The session's package as its SKILL.md and its reference entries. */
  lemma ExportSessionParts(data: SessionExport, now: nat) returns (entries: seq<FileEntry>)
    requires |Filter(data.blocks, IsOtherBlock)| <= MaxCandidates
    requires forall i :: 0 <= i < |data.blocks| ==> ParseZone(data.blocks[i].zone).Some?
    ensures var others := Filter(data.blocks, IsOtherBlock);
      && ExportSession(data, now).files
        == [(SkillMdPath, GenerateSkillMd(Filter(data.blocks, IsSkillBlock), SessionSkillName(data.session)))] + entries
      && AllReferenceEntries(entries)
      && MapSeq(ToReference, entries) == ExpectedReferences(others, ExportNames(others, {}, now))
  {
    var others := Filter(data.blocks, IsOtherBlock);
    var added := AddBlocksToZip([], others, {}, now);
    entries := ExportEntries(others, added.paths);
    ExportSessionFiles(data, now);
    OthersInZones(data.blocks);
    ExportedEntriesAreReferences(others, now);
  }
}
