/** The skill import hook (src/hooks/useSkillImport.ts): a dropped file is
    either a ZIP package, unwrapped from a common top-level directory and
    read by the directory parser, or a single SKILL.md text. */
module SkillImport {
  import opened Wrappers
  import opened Strings
  import opened Seqs
  import opened Zones
  import opened Titles
  import opened SkillParser
  import opened Directory
  import opened ExportData
  import opened SkillExport

  /** Every path starts with `prefix`. */
  predicate AllUnder(paths: seq<string>, prefix: string) {
    forall i :: 0 <= i < |paths| ==> StartsWith(paths[i], prefix)
  }

  /** `detectRootPrefix`: the first path's leading directory, slash included,
      when every path lies under it; otherwise nothing. */
  function DetectRootPrefix(paths: seq<string>): (r: string)
    ensures |paths| == 0 ==> r == ""
    ensures |paths| > 0 && '/' !in paths[0] ==> r == ""
    ensures r != "" ==> |paths| > 0 && AllUnder(paths, r) && r[|r| - 1] == '/' && '/' !in r[..|r| - 1]
  {
    if |paths| == 0 then ""
    else
      match IndexOfChar(paths[0], '/')
      case None => ""
      case Some(k) =>
        var candidate := paths[0][..k + 1];
        assert candidate[..k] == paths[0][..k];
        if AllUnder(paths, candidate) then candidate else ""
  }

  /** The prefix found is `d/` exactly when the paths all lie under `d/`. */
  lemma DetectRootPrefixIff(paths: seq<string>, d: string)
    requires |paths| > 0 && '/' !in d
    ensures DetectRootPrefix(paths) == d + "/" <==> AllUnder(paths, d + "/")
  {
    var first := paths[0];
    if AllUnder(paths, d + "/") {
      assert StartsWith(first, d + "/");
      assert first[..|d| + 1] == d + "/";
      assert first[|d|] == '/';
      assert first[..|d|] == d;
      var k := IndexOfChar(first, '/').value;
      assert k == |d|;
    }
  }

  /** A file or directory entry of a loaded archive. */
  datatype ZipEntry = ZipEntry(path: string, dir: bool, content: string)

  predicate IsFile(e: ZipEntry) {
    !e.dir
  }

  function EntryPath(e: ZipEntry): string {
    e.path
  }

  /** The paths of the file entries, in archive order. */
  function FilePaths(entries: seq<ZipEntry>): seq<string> {
    MapSeq(EntryPath, Filter(entries, IsFile))
  }

  /** `filePath.slice(prefix.length)`: nothing is left when the path is shorter. */
  function SliceFrom(s: string, n: nat): (r: string)
    ensures n <= |s| ==> s == s[..n] + r
    ensures |r| == if n <= |s| then |s| - n else 0
  {
    if n <= |s| then s[n..] else ""
  }

  /** The files under their paths relative to `prefix`, skipping directory
      entries and paths that strip to nothing. */
  function RelativeFiles(entries: seq<ZipEntry>, prefix: string): (r: seq<FileEntry>)
    ensures |r| <= |entries|
    decreases |entries|
  {
    if |entries| == 0 then []
    else
      var n := |entries| - 1;
      var init := RelativeFiles(entries[..n], prefix);
      var e := entries[n];
      var rel := if prefix != "" then SliceFrom(e.path, |prefix|) else e.path;
      if e.dir || rel == "" then init else init + [(rel, e.content)]
  }

  /** What one archive entry contributes: its file under the stripped path,
      or nothing for a directory or a path that strips to nothing. */
  function Stripped(prefix: string): ZipEntry -> Option<FileEntry> {
    (e: ZipEntry) =>
      var rel := if prefix != "" then SliceFrom(e.path, |prefix|) else e.path;
      if e.dir || rel == "" then None else Some((rel, e.content))
  }

  /** The relative files are what the entries contribute, in archive order. */
  lemma {:induction false} RelativeFilesCollect(entries: seq<ZipEntry>, prefix: string)
    ensures RelativeFiles(entries, prefix) == Collect(Stripped(prefix), entries)
    decreases |entries|
  {
    if |entries| > 0 {
      RelativeFilesCollect(entries[..|entries| - 1], prefix);
    }
  }

  /** Every relative file is a file entry of the archive with the prefix cut
      off its path and something left over. */
  lemma RelativeFileSource(entries: seq<ZipEntry>, prefix: string, i: nat) returns (j: nat)
    requires i < |RelativeFiles(entries, prefix)|
    ensures j < |entries| && !entries[j].dir
    ensures var f := RelativeFiles(entries, prefix)[i];
      && f.0 != "" && f.1 == entries[j].content
      && |prefix| <= |entries[j].path| && entries[j].path == entries[j].path[..|prefix|] + f.0
  {
    RelativeFilesCollect(entries, prefix);
    j := CollectSource(Stripped(prefix), entries, i);
  }

  /** Every file entry whose path keeps something after the prefix is cut is
      among the relative files. */
  lemma RelativeFileKept(entries: seq<ZipEntry>, prefix: string, j: nat)
    requires j < |entries| && !entries[j].dir
    requires |prefix| < |entries[j].path|
    ensures (entries[j].path[|prefix|..], entries[j].content) in RelativeFiles(entries, prefix)
  {
    RelativeFilesCollect(entries, prefix);
    CollectComplete(Stripped(prefix), entries, j);
  }

  /** The file map `importFromZip` hands to the directory parser: each
      relative path set in archive order, a later one replacing an earlier
      one in place. */
  function LoadedFiles(entries: seq<ZipEntry>): seq<FileEntry> {
    PutAll([], RelativeFiles(entries, DetectRootPrefix(FilePaths(entries))))
  }

  /** The archive of a package: one file entry per file. */
  function AsZipEntries(files: seq<FileEntry>): (r: seq<ZipEntry>)
    ensures |r| == |files|
    ensures forall i :: 0 <= i < |files| ==> r[i] == ZipEntry(files[i].0, false, files[i].1)
  {
    seq(|files|, i requires 0 <= i < |files| => ZipEntry(files[i].0, false, files[i].1))
  }

  /** Without a prefix and without empty paths, the relative files of a
      package's archive are its files. */
  lemma {:induction false} RelativeFilesOfPackage(files: seq<FileEntry>)
    requires forall i :: 0 <= i < |files| ==> files[i].0 != ""
    ensures RelativeFiles(AsZipEntries(files), "") == files
    decreases |files|
  {
    if |files| > 0 {
      var n := |files| - 1;
      var entries := AsZipEntries(files);
      assert entries[..n] == AsZipEntries(files[..n]);
      RelativeFilesOfPackage(files[..n]);
      assert files == files[..n] + [files[n]];
    }
  }

  /** An archive whose first file sits at the root is read without a prefix. */
  lemma RootFirstNoPrefix(files: seq<FileEntry>)
    requires |files| > 0 && '/' !in files[0].0
    ensures DetectRootPrefix(FilePaths(AsZipEntries(files))) == ""
  {
    var entries := AsZipEntries(files);
    FilterAll(entries, IsFile);
    assert FilePaths(entries)[0] == files[0].0;
  }

  /** A package with SKILL.md first, non-empty distinct paths, zipped and
      loaded again, gives back its files. */
  lemma LoadPackage(files: seq<FileEntry>)
    requires |files| > 0 && '/' !in files[0].0
    requires DistinctPaths(files)
    requires forall i :: 0 <= i < |files| ==> files[i].0 != ""
    ensures LoadedFiles(AsZipEntries(files)) == files
  {
    RootFirstNoPrefix(files);
    RelativeFilesOfPackage(files);
    PathSetEmpty();
    PutAllFresh([], files);
    assert [] + files == files;
  }

  lemma PathSetEmpty()
    ensures PathSet([]) == {}
  {
  }

  /** A package wrapped in a top-level directory `d/` is unwrapped: its files
      come back under their paths inside `d/`. */
  lemma {:induction false} RelativeFilesWrapped(files: seq<FileEntry>, d: string)
    requires forall i :: 0 <= i < |files| ==> files[i].0 != ""
    ensures RelativeFiles(AsZipEntries(Wrap(files, d + "/")), d + "/") == files
    decreases |files|
  {
    if |files| > 0 {
      var n := |files| - 1;
      var p := d + "/";
      var entries := AsZipEntries(Wrap(files, p));
      assert Wrap(files, p)[..n] == Wrap(files[..n], p);
      assert entries[..n] == AsZipEntries(Wrap(files[..n], p));
      RelativeFilesWrapped(files[..n], d);
      var e := entries[n];
      assert e.path == p + files[n].0;
      assert SliceFrom(e.path, |p|) == files[n].0;
      assert files == files[..n] + [files[n]];
    }
  }

  /** The files with `prefix` put in front of every path. */
  function Wrap(files: seq<FileEntry>, prefix: string): (r: seq<FileEntry>)
    ensures |r| == |files|
    ensures forall i :: 0 <= i < |files| ==> r[i] == (prefix + files[i].0, files[i].1)
  {
    seq(|files|, i requires 0 <= i < |files| => (prefix + files[i].0, files[i].1))
  }

  /** Zipping a package inside a directory `d/` and loading it gives back
      the package: the common prefix is found and stripped. */
  lemma LoadWrappedPackage(files: seq<FileEntry>, d: string)
    requires |files| > 0 && '/' !in d
    requires DistinctPaths(files)
    requires forall i :: 0 <= i < |files| ==> files[i].0 != ""
    ensures LoadedFiles(AsZipEntries(Wrap(files, d + "/"))) == files
  {
    var p := d + "/";
    var entries := AsZipEntries(Wrap(files, p));
    FilterAll(entries, IsFile);
    var paths := FilePaths(entries);
    assert AllUnder(paths, p) by {
      forall i | 0 <= i < |paths|
        ensures StartsWith(paths[i], p)
      {
        assert paths[i] == p + files[i].0;
        assert paths[i][..|p|] == p;
      }
    }
    DetectRootPrefixIff(paths, d);
    RelativeFilesWrapped(files, d);
    PathSetEmpty();
    PutAllFresh([], files);
    assert [] + files == files;
  }

  const ZipExt: string := ".zip"

  /** `file.name.toLowerCase().endsWith(".zip")`. */
  predicate IsZipName(name: string) {
    EndsWith(ToLower(name), ZipExt)
  }

  /** `replace(/\.zip$/i, "")`: one final `.zip`, in any case, is cut. */
  function StripZipSuffix(name: string): (r: string)
    ensures IsZipName(name) ==> |r| + 4 == |name| && name == r + name[|r|..]
    ensures !IsZipName(name) ==> r == name
  {
    if IsZipName(name) then
      assert name == name[..|name| - 4] + name[|name| - 4..];
      name[..|name| - 4]
    else name
  }

  /** `replace(/\.md$/, "")`: only a lower-case `.md` is cut. */
  function StripMdExact(name: string): (r: string)
    ensures EndsWith(name, MdExt) ==> r + MdExt == name
    ensures !EndsWith(name, MdExt) ==> r == name
  {
    if EndsWith(name, MdExt) then
      assert name == name[..|name| - 3] + name[|name| - 3..];
      name[..|name| - 3]
    else name
  }

  /** Where `importFromFile` sends a file. */
  datatype Route =
    | ZipImport(fallbackName: string)
    | ContentImport(fallbackName: string)

  /** `importFromFile`: by name alone, a ZIP package or a SKILL.md text, each
      with the fallback name its importer derives. */
  function RouteFile(name: string): (r: Route)
    ensures r.ZipImport? <==> IsZipName(name)
    ensures r.ZipImport? ==>
      && |r.fallbackName| + 4 == |name| && r.fallbackName + name[|r.fallbackName|..] == name
      && ToLower(name[|r.fallbackName|..]) == ZipExt
    ensures r.ContentImport? ==> r.fallbackName == StripMdExact(name)
  {
    if IsZipName(name) then
      var stem := StripZipSuffix(name);
      assert ToLower(name)[|stem|..] == ToLower(name[|stem|..]);
      ZipImport(stem)
    else ContentImport(StripMdExact(name))
  }

  /** A name with a `.zip` ending in any case is routed to the archive
      importer with the stem as the fallback name. */
  lemma RouteZipName(stem: string, ext: string)
    requires ToLower(ext) == ZipExt
    ensures RouteFile(stem + ext) == ZipImport(stem)
  {
    ToLowerAppend(stem, ext);
    var lower := ToLower(stem + ext);
    assert lower[|lower| - 4..] == ToLower(ext);
    assert (stem + ext)[..|stem + ext| - 4] == stem;
  }

  /** The text importer drops only a lower-case `.md`; an upper-case `.MD`
      stays in the fallback name. */
  lemma RouteMarkdownName(stem: string)
    ensures RouteFile(stem + ".md") == ContentImport(stem)
    ensures RouteFile(stem + ".MD") == ContentImport(stem + ".MD")
  {
    var a, b := stem + ".md", stem + ".MD";
    NotZipName(stem, ".md");
    NotZipName(stem, ".MD");
    assert a[|a| - 3..] == MdExt;
    assert a[..|a| - 3] == stem;
    assert b[|b| - 3..] == ".MD";
  }

  /** A name ending in a three-character extension other than `zip` is not
      an archive name. */
  lemma NotZipName(stem: string, ext: string)
    requires |ext| == 3 && ext[0] != 'z' && ext[0] != 'Z'
    ensures !IsZipName(stem + ext)
  {
    var s := stem + ext;
    var lower := ToLower(s);
    assert s[|s| - 3] == ext[0];
    assert lower[|lower| - 3] == LowerChar(ext[0]) != 'z';
    if IsZipName(s) {
      assert false;
    }
  }

  /** The metadata stored with an imported skill. */
  datatype ImportMetadata = ImportMetadata(skillName: string, skillDescription: string, sourceType: string, sourceRef: string)

  /** The mutation an import runs. */
  datatype ImportRequest =
    | ImportSkill(content: string, metadata: ImportMetadata)
    | ImportSkillWithReferences(content: string, metadata: ImportMetadata, references: seq<ReferenceFile>)

  /** What an import reports on success: the mutation it ran, then the skill
      name and the reference count passed to `onSuccess`. */
  datatype Imported = Imported(request: ImportRequest, skillName: string, referenceCount: nat)

  /** `importFromContent`: the parsed SKILL.md stored as one skill block. */
  function ImportFromContent(raw: string, sourceType: string, sourceRef: string, fallbackName: Option<string>): (r: Result<Imported, SkillParseError>)
    ensures r.Success? <==> ParseSkillMd(raw, fallbackName).Success?
    ensures r.Failure? ==> r.error == ParseSkillMd(raw, fallbackName).error
    ensures r.Success? ==>
      && r.value.request.ImportSkill? && r.value.referenceCount == 0
      && r.value.request.content == ParseSkillMd(raw, fallbackName).value.content
      && r.value.request.metadata == ImportMetadata(ParseSkillMd(raw, fallbackName).value.metadata.skillName,
           ParseSkillMd(raw, fallbackName).value.metadata.skillDescription, sourceType, sourceRef)
      && r.value.skillName == ParseSkillMd(raw, fallbackName).value.metadata.skillName
  {
    var parsed :- ParseSkillMd(raw, fallbackName);
    var meta := ImportMetadata(parsed.metadata.skillName, parsed.metadata.skillDescription, sourceType, sourceRef);
    Success(Imported(ImportSkill(parsed.content, meta), parsed.metadata.skillName, 0))
  }

  /** `importFromZip`: the loaded archive read by the directory parser; the
      skill is stored with its references only when there are some, and
      their number is reported. */
  function ImportFromZip(entries: seq<ZipEntry>, fileName: string): (r: Result<Imported, DirectoryError>)
    ensures var p := ParseSkillDirectory(LoadedFiles(entries), Some(StripZipSuffix(fileName)));
      && (r.Success? <==> p.Success?)
      && (r.Failure? ==> r.error == p.error)
      && (r.Success? ==>
        && r.value.request.content == p.value.skill.content
        && r.value.skillName == p.value.skill.metadata.skillName
        && r.value.request.metadata == ImportMetadata(p.value.skill.metadata.skillName, p.value.skill.metadata.skillDescription, "upload", fileName)
        && (r.value.request.ImportSkillWithReferences? <==> |p.value.references| > 0)
        && (r.value.request.ImportSkillWithReferences? ==> r.value.request.references == p.value.references)
        && r.value.referenceCount == |p.value.references|)
  {
    var parsed :- ParseSkillDirectory(LoadedFiles(entries), Some(StripZipSuffix(fileName)));
    var meta := ImportMetadata(parsed.skill.metadata.skillName, parsed.skill.metadata.skillDescription, "upload", fileName);
    var request :=
      if |parsed.references| > 0 then ImportSkillWithReferences(parsed.skill.content, meta, parsed.references)
      else ImportSkill(parsed.skill.content, meta);
    Success(Imported(request, parsed.skill.metadata.skillName, |parsed.references|))
  }

  /** Export then import: a session's package, dropped as a ZIP under the
      name it was saved with, imports the skill under the name the export
      wrote, with its trimmed content, and one reference per other block of
      the session, with that block's content and zone. The conditions are
      those of the export round trip. */
  lemma SessionZipRoundTrip(data: SessionExport, now: nat)
    requires |Filter(data.blocks, IsOtherBlock)| <= MaxCandidates
    requires forall i :: 0 <= i < |data.blocks| ==> ParseZone(data.blocks[i].zone).Some?
    requires var p := SkillMdContent(Filter(data.blocks, IsSkillBlock), SessionSkillName(data.session));
      Writable(p.name) && Writable(p.description)
    ensures var pkg := ExportSession(data, now);
      var others := Filter(data.blocks, IsOtherBlock);
      var p := SkillMdContent(Filter(data.blocks, IsSkillBlock), SessionSkillName(data.session));
      var r := ImportFromZip(AsZipEntries(pkg.files), pkg.fileName);
      && r.Success?
      && r.value.skillName == p.name
      && r.value.request.content == Trim(p.body)
      && r.value.referenceCount == |others|
  {
    var pkg := ExportSession(data, now);
    var others := Filter(data.blocks, IsOtherBlock);
    var fallback := Some(StripZipSuffix(pkg.fileName));
    SessionPackageLoads(data, now);
    ExportSessionReimports(data, now, fallback);
    var refs := ParseSkillDirectory(pkg.files, fallback).value.references;
    SameCount(refs, ExpectedReferences(others, ExportNames(others, {}, now)));
  }

  /** Sequences with the same elements have the same length. */
  lemma SameCount<T>(a: seq<T>, b: seq<T>)
    requires multiset(a) == multiset(b)
    ensures |a| == |b|
  {
    assert |a| == |multiset(a)| && |b| == |multiset(b)|;
  }

  /** A session's package, zipped and loaded, gives back its files. */
  lemma SessionPackageLoads(data: SessionExport, now: nat)
    requires |Filter(data.blocks, IsOtherBlock)| <= MaxCandidates
    requires forall i :: 0 <= i < |data.blocks| ==> ParseZone(data.blocks[i].zone).Some?
    ensures var files := ExportSession(data, now).files; LoadedFiles(AsZipEntries(files)) == files
  {
    var entries := ExportSessionParts(data, now);
    var md := GenerateSkillMd(Filter(data.blocks, IsSkillBlock), SessionSkillName(data.session));
    PackagePaths(md, entries);
    ExportSessionDistinct(data, now);
    LoadPackage(ExportSession(data, now).files);
  }

  /** A session package has SKILL.md first, at the root, and only
      non-empty paths. */
  lemma PackagePaths(md: string, entries: seq<FileEntry>)
    requires AllReferenceEntries(entries)
    ensures var files := [(SkillMdPath, md)] + entries;
      '/' !in files[0].0 && forall i :: 0 <= i < |files| ==> files[i].0 != ""
  {
    var files := [(SkillMdPath, md)] + entries;
    assert '/' !in SkillMdPath;
    forall i | 0 <= i < |files|
      ensures files[i].0 != ""
    {
      if i > 0 {
        assert files[i] == entries[i - 1];
        assert IsReferenceEntry(SkillMdPath)(entries[i - 1]);
      }
    }
  }

  /** No two files of a session package share a path. */
  lemma ExportSessionDistinct(data: SessionExport, now: nat)
    ensures DistinctPaths(ExportSession(data, now).files)
  {
    var md := GenerateSkillMd(Filter(data.blocks, IsSkillBlock), SessionSkillName(data.session));
    assert DistinctPaths([(SkillMdPath, md)]);
  }
}
