/** File rows and patch contents of a captured change: githubFiles in
    internal/changehost/github_provider.go, gitLabFiles in internal/changehost/gitlab_provider.go, and
    the content checks of ValidateSnapshotResult in internal/changehost/validate.go. */
module SnapshotFiles {
  import Ordering
  import opened ProviderKeys
  import opened Wrappers

  datatype Assessment = Exact | NonExact(state: string, reason: string)

  const PARTIAL := NonExact("unavailable", "change_request_partial")
  const OVERFLOW := NonExact("unavailable", "change_request_overflow")

  function StateText(a: Assessment): string { if a.Exact? then "exact" else a.state }
  function ReasonText(a: Assessment): string { if a.Exact? then "" else a.reason }

  datatype FileStatus = Added | Deleted | Modified | Renamed | Copied

  function StatusText(s: FileStatus): string {
    match s
    case Added => "added"
    case Deleted => "deleted"
    case Modified => "modified"
    case Renamed => "renamed"
    case Copied => "copied"
  }

  datatype FileChange = FileChange(ordinal: nat, key: string, displayPath: string, oldDisplayPath: string,
                                   status: FileStatus, oldMode: string, newMode: string, patchAssessment: Assessment)

  datatype Content = Content(fileKey: string, purpose: string, content: string)

  datatype Completeness = Completeness(fileSet: Assessment, patches: Assessment, modes: Assessment, commits: Assessment)

  const PATCH_PURPOSE := "patch"

  // ---------------------------------------------------------------- the validator

  /** The file that a content key refers to: the last one captured under it. */
  ghost predicate LastWithKey(files: seq<FileChange>, key: string, i: int) {
    0 <= i < |files| && files[i].key == key && forall j :: i < j < |files| ==> files[j].key != key
  }

  /** One content holds bytes for a file captured with an exact patch. */
  ghost predicate ServesExactFile(files: seq<FileChange>, contents: seq<Content>, c: int) {
    && 0 <= c < |contents|
    && contents[c].purpose == PATCH_PURPOSE
    && contents[c].content != ""
    && exists i :: LastWithKey(files, contents[c].fileKey, i) && files[i].patchAssessment.Exact?
  }

  /** Contents and exact-patch claims agree. */
  ghost predicate ContentsAgree(files: seq<FileChange>, contents: seq<Content>) {
    && (forall c | 0 <= c < |contents| :: ServesExactFile(files, contents, c))
    && (forall c, d :: 0 <= c < d < |contents| ==> contents[c].fileKey != contents[d].fileKey)
    && (forall i :: 0 <= i < |files| && files[i].patchAssessment.Exact? ==>
          exists c :: 0 <= c < |contents| && contents[c].fileKey == files[i].key)
  }

  ghost predicate DistinctKeys(files: seq<FileChange>) {
    forall i, j :: 0 <= i < j < |files| ==> files[i].key != files[j].key
  }

  /** The content is a file's non-empty patch, and the file's claim is exact. */
  ghost predicate IsPatchOf(c: Content, f: FileChange) {
    c.fileKey == f.key && c.purpose == "patch" && c.content != "" && StateText(f.patchAssessment) == "exact"
  }

  /** For files with keys of their own, contents agree exactly when they are one non-empty patch for each file that claims an
      exact one. */
  lemma {:induction false} AgreeExactly(files: seq<FileChange>, contents: seq<Content>)
    requires DistinctKeys(files) && forall f :: f in files && f.patchAssessment.NonExact? ==>
          f.patchAssessment.state != "exact"
    ensures ContentsAgree(files, contents)
       <==> && (forall c :: c in contents ==> exists f :: f in files && IsPatchOf(c, f))
            && (forall f :: f in files && f.patchAssessment.Exact? ==> exists c :: c in contents && IsPatchOf(c, f))
            && forall c, d :: 0 <= c < d < |contents| ==> contents[c].fileKey != contents[d].fileKey
  {
    if ContentsAgree(files, contents) {
      AgreeingContents(files, contents);
      forall f | f in files && f.patchAssessment.Exact?
        ensures exists c :: c in contents && IsPatchOf(c, f)
      {
        var i :| 0 <= i < |files| && files[i] == f;
        var c :| 0 <= c < |contents| && contents[c].fileKey == files[i].key;
        assert ServesExactFile(files, contents, c);
        assert contents[c] in contents;
      }
    }
    if && (forall c :: c in contents ==> exists f :: f in files && IsPatchOf(c, f))
       && (forall f :: f in files && f.patchAssessment.Exact? ==> exists c :: c in contents && IsPatchOf(c, f))
       && forall c, d :: 0 <= c < d < |contents| ==> contents[c].fileKey != contents[d].fileKey
    {
      PatchesAgree(files, contents);
    }
  }

  lemma {:induction false} AgreeingContents(files: seq<FileChange>, contents: seq<Content>)
    requires ContentsAgree(files, contents)
    ensures forall c :: c in contents ==> exists f :: f in files && IsPatchOf(c, f)
  {
    forall c | c in contents
      ensures exists f :: f in files && IsPatchOf(c, f)
    {
      var k :| 0 <= k < |contents| && contents[k] == c;
      assert ServesExactFile(files, contents, k);
      var i :| LastWithKey(files, c.fileKey, i) && files[i].patchAssessment.Exact?;
      assert files[i] in files && IsPatchOf(c, files[i]);
    }
  }

  lemma {:induction false} PatchesAgree(files: seq<FileChange>, contents: seq<Content>)
    requires DistinctKeys(files) && forall f :: f in files && f.patchAssessment.NonExact? ==>
          f.patchAssessment.state != "exact"
    requires forall c :: c in contents ==> exists f :: f in files && IsPatchOf(c, f)
    requires forall f :: f in files && f.patchAssessment.Exact? ==> exists c :: c in contents && IsPatchOf(c, f)
    requires forall c, d :: 0 <= c < d < |contents| ==> contents[c].fileKey != contents[d].fileKey
    ensures ContentsAgree(files, contents)
  {
    forall c | 0 <= c < |contents|
      ensures ServesExactFile(files, contents, c)
    {
      assert contents[c] in contents;
      var f :| f in files && IsPatchOf(contents[c], f);
      var i :| 0 <= i < |files| && files[i] == f;
      assert LastWithKey(files, contents[c].fileKey, i);
    }
    forall i | 0 <= i < |files| && files[i].patchAssessment.Exact?
      ensures exists c :: 0 <= c < |contents| && contents[c].fileKey == files[i].key
    {
      var c :| c in contents && IsPatchOf(c, files[i]);
    }
  }

  datatype ContentIssue = UnknownFile(content: nat) | UnknownPurpose(content: nat) | DuplicateContent(content: nat)
                        | EmptyContent(content: nat) | NotExact(content: nat) | MissingBytes(file: nat)

  function SeenKey(fileKey: string, purpose: string): string {
    fileKey + "\0" + purpose
  }

  lemma {:induction false} SeenKeyInjective(a: string, b: string)
    requires SeenKey(a, PATCH_PURPOSE) == SeenKey(b, PATCH_PURPOSE)
    ensures a == b
  {
    assert a == SeenKey(a, PATCH_PURPOSE)[..|a|] && b == SeenKey(b, PATCH_PURPOSE)[..|b|];
    assert |a| == |b|;
  }

  method IndexFiles(files: seq<FileChange>) returns (byKey: map<string, nat>)
    ensures forall key :: key in byKey <==> exists i :: 0 <= i < |files| && files[i].key == key
    ensures forall key :: key in byKey ==> LastWithKey(files, key, byKey[key])
  {
    byKey := map[];
    for i := 0 to |files|
      invariant forall key :: key in byKey <==> exists j :: 0 <= j < i && files[j].key == key
      invariant forall key :: key in byKey ==>
                  byKey[key] < i && files[byKey[key]].key == key
                  && forall j :: byKey[key] < j < i ==> files[j].key != key
    {
      byKey := byKey[files[i].key := i];
    }
  }

  /** The content checks report nothing exactly when contents and exact-patch claims agree. */
  method ContentIssues(files: seq<FileChange>, contents: seq<Content>) returns (issues: seq<ContentIssue>)
    ensures issues == [] <==> ContentsAgree(files, contents)
  {
    var byKey := IndexFiles(files);
    var seen: set<string> := {};
    issues := [];
    for c := 0 to |contents|
      invariant issues == [] ==> forall d :: 0 <= d < c ==> GoodContent(files, contents, d)
      invariant issues != [] ==> !ContentsAgree(files, contents)
      invariant issues == [] ==> forall key :: SeenKey(key, PATCH_PURPOSE) in seen <==>
                                   exists d :: 0 <= d < c && contents[d].fileKey == key
    {
      var content := contents[c];
      ghost var before := issues;
      if content.fileKey !in byKey { issues := issues + [UnknownFile(c)]; }
      if content.purpose != PATCH_PURPOSE { issues := issues + [UnknownPurpose(c)]; }
      var key := SeenKey(content.fileKey, content.purpose);
      if key in seen { issues := issues + [DuplicateContent(c)]; }
      if content.content == "" { issues := issues + [EmptyContent(c)]; }
      if content.fileKey in byKey && !files[byKey[content.fileKey]].patchAssessment.Exact? {
        issues := issues + [NotExact(c)];
      }
      if before == [] { CheckedContent(files, contents, c, byKey, seen, issues == []); }
      SeenKeyStep(contents, c, seen);
      seen := seen + {key};
    }
    ghost var fromContents := issues;
    for i := 0 to |files|
      invariant issues == [] ==> fromContents == []
      invariant issues == [] ==> forall j :: 0 <= j < i && files[j].patchAssessment.Exact? ==>
                                   exists c :: 0 <= c < |contents| && contents[c].fileKey == files[j].key
      invariant issues != [] ==> !ContentsAgree(files, contents)
    {
      if files[i].patchAssessment.Exact? && SeenKey(files[i].key, PATCH_PURPOSE) !in seen {
        issues := issues + [MissingBytes(i)];
      }
    }
    if issues == [] { GoodContentsAgree(files, contents); }
  }

  /** One content passes its own checks. */
  ghost predicate GoodContent(files: seq<FileChange>, contents: seq<Content>, c: int) {
    ServesExactFile(files, contents, c) && forall d :: 0 <= d < c ==> contents[d].fileKey != contents[c].fileKey
  }

  lemma {:induction false} CheckedContent(files: seq<FileChange>, contents: seq<Content>, c: nat,
                                          byKey: map<string, nat>, seen: set<string>, passed: bool)
    requires c < |contents|
    requires forall key :: key in byKey <==> exists i :: 0 <= i < |files| && files[i].key == key
    requires forall key :: key in byKey ==> byKey[key] < |files| && LastWithKey(files, key, byKey[key])
    requires forall d :: 0 <= d < c ==> GoodContent(files, contents, d)
    requires forall key :: SeenKey(key, PATCH_PURPOSE) in seen <==> exists d :: 0 <= d < c && contents[d].fileKey == key
    requires var content := contents[c];
             passed <==>
               && content.fileKey in byKey && content.purpose == PATCH_PURPOSE
               && SeenKey(content.fileKey, content.purpose) !in seen && content.content != ""
               && files[byKey[content.fileKey]].patchAssessment.Exact?
    ensures passed <==> GoodContent(files, contents, c)
    ensures !passed ==> !ContentsAgree(files, contents)
  {
    var content := contents[c];
    if content.fileKey in byKey {
      assert LastWithKey(files, content.fileKey, byKey[content.fileKey]);
      forall i | LastWithKey(files, content.fileKey, i)
        ensures i == byKey[content.fileKey]
      {
      }
    }
    if GoodContent(files, contents, c) {
      var i :| LastWithKey(files, content.fileKey, i) && files[i].patchAssessment.Exact?;
    }
    if ContentsAgree(files, contents) {
      assert ServesExactFile(files, contents, c);
      var i :| LastWithKey(files, content.fileKey, i) && files[i].patchAssessment.Exact?;
    }
  }

  lemma {:induction false} SeenKeyStep(contents: seq<Content>, c: nat, seen: set<string>)
    requires c < |contents|
    ensures contents[c].purpose == PATCH_PURPOSE ==>
              forall key :: SeenKey(key, PATCH_PURPOSE) in seen + {SeenKey(contents[c].fileKey, contents[c].purpose)} <==>
                SeenKey(key, PATCH_PURPOSE) in seen || key == contents[c].fileKey
  {
    if contents[c].purpose == PATCH_PURPOSE {
      forall key | SeenKey(key, PATCH_PURPOSE) == SeenKey(contents[c].fileKey, PATCH_PURPOSE)
        ensures key == contents[c].fileKey
      {
        SeenKeyInjective(key, contents[c].fileKey);
      }
    }
  }

  lemma {:induction false} GoodContentsAgree(files: seq<FileChange>, contents: seq<Content>)
    requires forall d :: 0 <= d < |contents| ==> GoodContent(files, contents, d)
    requires forall i :: 0 <= i < |files| && files[i].patchAssessment.Exact? ==>
               exists c :: 0 <= c < |contents| && contents[c].fileKey == files[i].key
    ensures ContentsAgree(files, contents)
  {
    forall c, d | 0 <= c < d < |contents|
      ensures contents[c].fileKey != contents[d].fileKey
    {
      assert GoodContent(files, contents, d);
    }
    forall c | 0 <= c < |contents|
      ensures ServesExactFile(files, contents, c)
    {
      assert GoodContent(files, contents, c);
    }
  }

  // ---------------------------------------------------------------- rows and their contents

  /** One captured file: its row, the paths and counts that identify it, and its patch bytes. */
  datatype BuiltRow = BuiltRow(file: FileChange, oldPath: string, newPath: string,
                               additions: int, deletions: int, patch: string)

  function Files(rows: seq<BuiltRow>): (r: seq<FileChange>)
    ensures |r| == |rows| && forall i :: 0 <= i < |rows| ==> r[i] == rows[i].file
  {
    seq(|rows|, i requires 0 <= i < |rows| => rows[i].file)
  }

  /** The patches handed to persistence: one per exact row, in row order. */
  function Contents(rows: seq<BuiltRow>): seq<Content> {
    if rows == [] then []
    else
      var row := rows[|rows| - 1];
      Contents(rows[..|rows| - 1])
      + if row.file.patchAssessment.Exact? then [Content(row.file.key, PATCH_PURPOSE, row.patch)] else []
  }

  ghost function ExactRows(rows: seq<BuiltRow>): (r: seq<nat>)
    ensures forall c :: 0 <= c < |r| ==> r[c] < |rows| && rows[r[c]].file.patchAssessment.Exact?
    ensures forall c, d :: 0 <= c < d < |r| ==> r[c] < r[d]
    ensures forall i :: 0 <= i < |rows| && rows[i].file.patchAssessment.Exact? ==> i in r
  {
    if rows == [] then []
    else
      var n := |rows| - 1;
      ExactRows(rows[..n]) + if rows[n].file.patchAssessment.Exact? then [n] else []
  }

  lemma {:induction false} ContentsAreExactRows(rows: seq<BuiltRow>)
    ensures |Contents(rows)| == |ExactRows(rows)|
    ensures forall c :: 0 <= c < |Contents(rows)| ==>
              Contents(rows)[c] == Content(rows[ExactRows(rows)[c]].file.key, PATCH_PURPOSE, rows[ExactRows(rows)[c]].patch)
  {
    if rows != [] { ContentsAreExactRows(rows[..|rows| - 1]); }
  }

  ghost predicate ExactRowsHaveBytes(rows: seq<BuiltRow>) {
    forall i :: 0 <= i < |rows| && rows[i].file.patchAssessment.Exact? ==> rows[i].patch != ""
  }

  ghost predicate RepeatsExactKey(rows: seq<BuiltRow>) {
    exists i, j :: 0 <= i < j < |rows| && rows[i].file.key == rows[j].file.key && rows[i].file.patchAssessment.Exact?
  }

  /** Contents that are the patches of the exact files, given by their indexes. */
  ghost predicate ArePatchesOf(files: seq<FileChange>, contents: seq<Content>, exact: seq<nat>) {
    && |contents| == |exact|
    && (forall c :: 0 <= c < |exact| ==> exact[c] < |files| && files[exact[c]].patchAssessment.Exact?)
    && (forall c :: 0 <= c < |exact| ==> contents[c].fileKey == files[exact[c]].key && contents[c].purpose == PATCH_PURPOSE)
    && (forall c, d :: 0 <= c < d < |exact| ==> exact[c] < exact[d])
    && (forall i :: 0 <= i < |files| && files[i].patchAssessment.Exact? ==> i in exact)
  }

  lemma {:induction false} ContentsArePatches(rows: seq<BuiltRow>)
    ensures ArePatchesOf(Files(rows), Contents(rows), ExactRows(rows))
    ensures ExactRowsHaveBytes(rows) ==> forall c :: 0 <= c < |Contents(rows)| ==> Contents(rows)[c].content != ""
  {
    ContentsAreExactRows(rows);
  }

  lemma {:induction false} ExactIsLast(files: seq<FileChange>, contents: seq<Content>, exact: seq<nat>, c: nat, l: nat)
    requires ArePatchesOf(files, contents, exact) && c < |exact| && l < |files|
    requires forall d, e :: 0 <= d < e < |contents| ==> contents[d].fileKey != contents[e].fileKey
    requires files[l].key == files[exact[c]].key && files[l].patchAssessment.Exact?
    ensures l == exact[c]
  {
    var d :| 0 <= d < |exact| && exact[d] == l;
    assert contents[d].fileKey == contents[c].fileKey;
  }

  lemma {:induction false} AgreeingKeysUnrepeated(files: seq<FileChange>, contents: seq<Content>, exact: seq<nat>)
    requires ArePatchesOf(files, contents, exact)
    requires forall c | 0 <= c < |contents| :: ServesExactFile(files, contents, c)
    requires forall d, e :: 0 <= d < e < |contents| ==> contents[d].fileKey != contents[e].fileKey
    ensures Unrepeated(files)
  {
    forall i, j | 0 <= i < j < |files| && files[i].patchAssessment.Exact?
      ensures files[i].key != files[j].key
    {
      var c :| 0 <= c < |exact| && exact[c] == i;
      assert ServesExactFile(files, contents, c);
      var l :| LastWithKey(files, contents[c].fileKey, l) && files[l].patchAssessment.Exact?;
      ExactIsLast(files, contents, exact, c, l);
    }
  }

  ghost predicate Unrepeated(files: seq<FileChange>) {
    forall i, j :: 0 <= i < j < |files| && files[i].patchAssessment.Exact? ==> files[i].key != files[j].key
  }

  lemma {:induction false} UnrepeatedKeysAgree(files: seq<FileChange>, contents: seq<Content>, exact: seq<nat>)
    requires ArePatchesOf(files, contents, exact) && Unrepeated(files)
    requires forall c :: 0 <= c < |contents| ==> contents[c].content != ""
    ensures ContentsAgree(files, contents)
  {
    forall c | 0 <= c < |contents|
      ensures ServesExactFile(files, contents, c)
    {
      assert LastWithKey(files, contents[c].fileKey, exact[c]);
    }
    forall c, d | 0 <= c < d < |contents|
      ensures contents[c].fileKey != contents[d].fileKey
    {
      assert exact[c] < exact[d];
    }
    forall i | 0 <= i < |files| && files[i].patchAssessment.Exact?
      ensures exists c :: 0 <= c < |contents| && contents[c].fileKey == files[i].key
    {
      var c :| 0 <= c < |exact| && exact[c] == i;
      assert contents[c].fileKey == files[i].key;
    }
  }

  /** What the builders emit passes the content checks exactly when no later row repeats the key of an
      exact row. */
  lemma {:induction false} BuiltContentsAgree(rows: seq<BuiltRow>)
    requires ExactRowsHaveBytes(rows)
    ensures ContentsAgree(Files(rows), Contents(rows)) <==> !RepeatsExactKey(rows)
  {
    ContentsArePatches(rows);
    RepeatsInFiles(rows);
    if RepeatsExactKey(rows) {
      if ContentsAgree(Files(rows), Contents(rows)) {
        AgreeingKeysUnrepeated(Files(rows), Contents(rows), ExactRows(rows));
      }
    } else {
      UnrepeatedKeysAgree(Files(rows), Contents(rows), ExactRows(rows));
    }
  }

  lemma {:induction false} RepeatsInFiles(rows: seq<BuiltRow>)
    ensures Unrepeated(Files(rows)) <==> !RepeatsExactKey(rows)
  {
    var files := Files(rows);
    if i, j :| 0 <= i < j < |rows| && rows[i].file.key == rows[j].file.key && rows[i].file.patchAssessment.Exact? {
      assert files[i].key == files[j].key;
    }
  }

  predicate AllPatchesExact(rows: seq<BuiltRow>) {
    forall i :: 0 <= i < |rows| ==> rows[i].file.patchAssessment.Exact?
  }

  predicate AllModesKnown(rows: seq<BuiltRow>) {
    forall i :: 0 <= i < |rows| ==> rows[i].file.oldMode != "" && rows[i].file.newMode != ""
  }

  // ---------------------------------------------------------------- GitHub

  datatype GitHubFile = GitHubFile(filename: string, previousFilename: string, status: string,
                                   additions: int, deletions: int, patch: string)

  datatype DiffSection = DiffSection(oldPath: string, newPath: string, oldMode: string, newMode: string, patch: string)

  predicate GitHubFileLe(f: GitHubFile, g: GitHubFile) {
    if f.filename != g.filename then Ordering.LexLess(f.filename, g.filename) else Ordering.LexLe(f.previousFilename, g.previousFilename)
  }

  function GithubFileStatus(status: string): Option<FileStatus> {
    if status == "added" then Some(Added)
    else if status == "removed" then Some(Deleted)
    else if status == "modified" || status == "changed" then Some(Modified)
    else if status == "renamed" then Some(Renamed)
    else if status == "copied" then Some(Copied)
    else None
  }

  function SectionKey(oldPath: string, newPath: string): string {
    oldPath + "\0" + newPath
  }

  /** The section map: a later section of the same paths wins. */
  function SectionFor(sections: seq<DiffSection>, oldPath: string, newPath: string): Option<DiffSection> {
    if sections == [] then None
    else
      var last := sections[|sections| - 1];
      if SectionKey(last.oldPath, last.newPath) == SectionKey(oldPath, newPath) then Some(last)
      else SectionFor(sections[..|sections| - 1], oldPath, newPath)
  }

  ghost predicate Indexes(byPath: map<string, DiffSection>, sections: seq<DiffSection>) {
    forall o, n :: SectionFor(sections, o, n)
              == if SectionKey(o, n) in byPath then Some(byPath[SectionKey(o, n)]) else None
  }

  method SectionsByPath(sections: seq<DiffSection>) returns (byPath: map<string, DiffSection>)
    ensures Indexes(byPath, sections)
  {
    byPath := map[];
    for i := 0 to |sections|
      invariant Indexes(byPath, sections[..i])
    {
      assert sections[..i + 1][..i] == sections[..i];
      byPath := byPath[SectionKey(sections[i].oldPath, sections[i].newPath) := sections[i]];
    }
    assert sections[..|sections|] == sections;
  }

  function OldPath(f: GitHubFile, status: FileStatus): string {
    match status
    case Added => ""
    case Renamed => f.previousFilename
    case Copied => f.previousFilename
    case _ => f.filename
  }

  function NewPath(f: GitHubFile, status: FileStatus): string {
    if status.Deleted? then "" else f.filename
  }

  predicate AcceptableGithubFile(f: GitHubFile) {
    && SafeProviderPath(f.filename)
    && (f.previousFilename == "" || SafeProviderPath(f.previousFilename))
    && GithubFileStatus(f.status).Some?
  }

  function GithubRow(digest: Digest, objectId: string, section: Option<DiffSection>, ordinal: nat, f: GitHubFile)
    : BuiltRow
    requires AcceptableGithubFile(f)
  {
    var status := GithubFileStatus(f.status).value;
    var oldPath, newPath := OldPath(f, status), NewPath(f, status);
    var patch := if section.Some? then section.value.patch else f.patch;
    BuiltRow(
      FileChange(ordinal, ProviderFileKey(digest, "github", objectId, oldPath, newPath), f.filename,
                 if status.Renamed? || status.Copied? then f.previousFilename else "", status,
                 if section.Some? then section.value.oldMode else "",
                 if section.Some? then section.value.newMode else "",
                 if patch == "" then PARTIAL else Exact),
      oldPath, newPath, f.additions, f.deletions, patch)
  }

  function GithubRowAt(digest: Digest, objectId: string, sections: seq<DiffSection>, ordinal: nat, f: GitHubFile)
    : BuiltRow
    requires AcceptableGithubFile(f)
  {
    var status := GithubFileStatus(f.status).value;
    GithubRow(digest, objectId, SectionFor(sections, OldPath(f, status), NewPath(f, status)), ordinal, f)
  }

  predicate AllAcceptable(files: seq<GitHubFile>) {
    forall i :: 0 <= i < |files| ==> AcceptableGithubFile(files[i])
  }

  function GithubRows(digest: Digest, objectId: string, sections: seq<DiffSection>, files: seq<GitHubFile>)
    : (rows: seq<BuiltRow>)
    requires AllAcceptable(files)
    ensures |rows| == |files|
  {
    if files == [] then []
    else
      var n := |files| - 1;
      GithubRows(digest, objectId, sections, files[..n]) + [GithubRowAt(digest, objectId, sections, n, files[n])]
  }

  lemma {:induction false} GithubRowsAt(digest: Digest, objectId: string, sections: seq<DiffSection>,
                                        files: seq<GitHubFile>, i: nat)
    requires AllAcceptable(files) && i < |files|
    ensures GithubRows(digest, objectId, sections, files)[i] == GithubRowAt(digest, objectId, sections, i, files[i])
  {
    if i < |files| - 1 { GithubRowsAt(digest, objectId, sections, files[..|files| - 1], i); }
  }

  lemma {:induction false} GithubRowsStep(digest: Digest, objectId: string, sections: seq<DiffSection>,
                                          files: seq<GitHubFile>, i: nat)
    requires i < |files| && AllAcceptable(files[..i]) && AcceptableGithubFile(files[i])
    ensures AllAcceptable(files[..i + 1])
    ensures GithubRows(digest, objectId, sections, files[..i + 1])
         == GithubRows(digest, objectId, sections, files[..i]) + [GithubRowAt(digest, objectId, sections, i, files[i])]
  {
    assert files[..i + 1][..i] == files[..i];
    var longer := files[..i + 1];
    forall j | 0 <= j < |longer|
      ensures AcceptableGithubFile(longer[j])
    {
      if j < i { assert files[..i][j] == longer[j]; }
    }
  }

  function RowParts(row: BuiltRow): seq<string> {
    [row.oldPath, row.newPath, StatusText(row.file.status), row.file.oldMode, row.file.newMode,
     Itoa(row.additions), Itoa(row.deletions), row.patch]
  }

  function AllRowParts(rows: seq<BuiltRow>): seq<string> {
    if rows == [] then [] else AllRowParts(rows[..|rows| - 1]) + RowParts(rows[|rows| - 1])
  }

  function AssessmentParts(c: Completeness): seq<string> {
    [StateText(c.fileSet), ReasonText(c.fileSet), StateText(c.patches), ReasonText(c.patches),
     StateText(c.modes), ReasonText(c.modes), StateText(c.commits), ReasonText(c.commits)]
  }

  function ManifestParts(rows: seq<BuiltRow>, shas: seq<string>, c: Completeness): seq<string> {
    AllRowParts(rows) + shas + AssessmentParts(c)
  }

  lemma {:induction false} RowAppended(rows: seq<BuiltRow>, row: BuiltRow)
    ensures Files(rows + [row]) == Files(rows) + [row.file]
    ensures Contents(rows + [row])
         == Contents(rows) + if row.file.patchAssessment.Exact? then [Content(row.file.key, PATCH_PURPOSE, row.patch)] else []
    ensures AllRowParts(rows + [row]) == AllRowParts(rows) + RowParts(row)
    ensures AllPatchesExact(rows + [row]) <==> AllPatchesExact(rows) && row.file.patchAssessment.Exact?
    ensures AllModesKnown(rows + [row]) <==> AllModesKnown(rows) && row.file.oldMode != "" && row.file.newMode != ""
  {
    var all := rows + [row];
    assert all[..|rows|] == rows && all[|rows|] == row;
    assert forall i :: 0 <= i < |rows| ==> all[i] == rows[i];
  }

  function PatchAggregate(rows: seq<BuiltRow>, overflow: bool): Assessment {
    if overflow then OVERFLOW else if AllPatchesExact(rows) then Exact else PARTIAL
  }

  function ModeAggregate(rows: seq<BuiltRow>, overflow: bool): Assessment {
    if overflow then OVERFLOW else if AllModesKnown(rows) then Exact else PARTIAL
  }

  /** What the file loop has appended and degraded after the given rows. */
  datatype Appended = Appended(files: seq<FileChange>, contents: seq<Content>, parts: seq<string>,
                               patches: Assessment, modes: Assessment)

  function AppendedFor(rows: seq<BuiltRow>, overflow: bool): Appended {
    Appended(Files(rows), Contents(rows), AllRowParts(rows), PatchAggregate(rows, overflow), ModeAggregate(rows, overflow))
  }

  method AppendRow(done: Appended, row: BuiltRow, ghost rows: seq<BuiltRow>, ghost overflow: bool)
    returns (next: Appended)
    requires done == AppendedFor(rows, overflow)
    ensures next == AppendedFor(rows + [row], overflow)
  {
    var patches, modes := done.patches, done.modes;
    if row.file.patchAssessment != Exact && patches == Exact { patches := PARTIAL; }
    if (row.file.oldMode == "" || row.file.newMode == "") && modes == Exact { modes := PARTIAL; }
    var contents := done.contents;
    if row.file.patchAssessment == Exact {
      contents := contents + [Content(row.file.key, PATCH_PURPOSE, row.patch)];
    }
    RowAppended(rows, row);
    next := Appended(done.files + [row.file], contents, done.parts + RowParts(row), patches, modes);
  }

  /** The loop of githubFiles; it fails when a path is unsafe or a status unknown. */
  method AppendGithubFiles(digest: Digest, objectId: string, sorted: seq<GitHubFile>, sections: seq<DiffSection>,
                           fileOverflow: bool) returns (ok: bool, done: Appended)
    ensures ok <==> AllAcceptable(sorted)
    ensures ok ==> done == AppendedFor(GithubRows(digest, objectId, sections, sorted), fileOverflow)
  {
    var byPath := SectionsByPath(sections);
    done := Appended([], [], [], if fileOverflow then OVERFLOW else Exact, if fileOverflow then OVERFLOW else Exact);
    ghost var rows: seq<BuiltRow> := [];
    for i := 0 to |sorted|
      invariant AllAcceptable(sorted[..i])
      invariant rows == GithubRows(digest, objectId, sections, sorted[..i])
      invariant done == AppendedFor(rows, fileOverflow)
    {
      if !AcceptableGithubFile(sorted[i]) {
        ok := false;
        return;
      }
      var row := BuildGithubRow(digest, objectId, byPath, sections, i, sorted[i]);
      GithubRowsStep(digest, objectId, sections, sorted, i);
      done := AppendRow(done, row, rows, fileOverflow);
      rows := rows + [row];
    }
    assert sorted[..|sorted|] == sorted;
    ok := true;
  }

  /** What githubFiles returns. */
  datatype Built = Built(files: seq<FileChange>, contents: seq<Content>, completeness: Completeness, manifest: string)

  function GithubCompleteness(rows: seq<BuiltRow>, fileOverflow: bool, commitOverflow: bool): Completeness {
    Completeness(if fileOverflow then OVERFLOW else Exact, PatchAggregate(rows, fileOverflow),
                 ModeAggregate(rows, fileOverflow), if commitOverflow then OVERFLOW else Exact)
  }

  function BuildGithub(digest: Digest, objectId: string, providerFiles: seq<GitHubFile>, sections: seq<DiffSection>,
                       fileOverflow: bool, commitOverflow: bool, shas: seq<string>): Option<Built>
  {
    var sorted := Ordering.Sort(GitHubFileLe, providerFiles);
    if !AllAcceptable(sorted) then None
    else
      var rows := GithubRows(digest, objectId, sections, sorted);
      var completeness := GithubCompleteness(rows, fileOverflow, commitOverflow);
      Some(Built(Files(rows), Contents(rows), completeness,
                 ProviderOpaqueKey(digest, "manifest", ManifestParts(rows, shas, completeness))))
  }

  method GithubFiles(digest: Digest, objectId: string, providerFiles: seq<GitHubFile>, sections: seq<DiffSection>,
                     fileOverflow: bool, commitOverflow: bool, shas: seq<string>) returns (built: Option<Built>)
    ensures built == BuildGithub(digest, objectId, providerFiles, sections, fileOverflow, commitOverflow, shas)
  {
    var sorted := Ordering.Sort(GitHubFileLe, providerFiles);
    var ok, done := AppendGithubFiles(digest, objectId, sorted, sections, fileOverflow);
    if !ok { return None; }
    var completeness := Completeness(if fileOverflow then OVERFLOW else Exact, done.patches, done.modes,
                                     if commitOverflow then OVERFLOW else Exact);
    var hashed := WriteParts(done.parts + shas + AssessmentParts(completeness));
    built := Some(Built(done.files, done.contents, completeness, "manifest" + "-" + digest(hashed)));
  }

  method BuildGithubRow(digest: Digest, objectId: string, byPath: map<string, DiffSection>,
                        ghost sections: seq<DiffSection>, ordinal: nat, f: GitHubFile) returns (row: BuiltRow)
    requires AcceptableGithubFile(f)
    requires Indexes(byPath, sections)
    ensures row == GithubRowAt(digest, objectId, sections, ordinal, f)
  {
    var status := GithubFileStatus(f.status).value;
    var oldPath, newPath := OldPath(f, status), NewPath(f, status);
    var key := SectionKey(oldPath, newPath);
    var section := if key in byPath then Some(byPath[key]) else None;
    assert section == SectionFor(sections, oldPath, newPath);
    row := GithubRow(digest, objectId, section, ordinal, f);
  }

  // ---------------------------------------------------------------- what GitHub rows satisfy

  ghost predicate DistinctNames(files: seq<GitHubFile>) {
    forall f :: multiset(files)[f] <= 1 && (f in files ==> forall g :: g in files && g.filename == f.filename ==> g == f)
  }

  ghost predicate CollisionFree(digest: Digest) {
    HexDigest(digest) && forall u, v :: digest(u) == digest(v) ==> u == v
  }

  /** Files of distinct names get distinct keys: an added, deleted or unchanged path never collides
      with a renamed one. */
  lemma {:induction false} GithubKeysDistinct(digest: Digest, objectId: string, sections: seq<DiffSection>,
                                              f: GitHubFile, g: GitHubFile, i: nat, j: nat)
    requires CollisionFree(digest) && AcceptableGithubFile(f) && AcceptableGithubFile(g)
    requires GithubRowAt(digest, objectId, sections, i, f).file.key
        == GithubRowAt(digest, objectId, sections, j, g).file.key
    ensures f.filename == g.filename
  {
    var sf, sg := GithubFileStatus(f.status).value, GithubFileStatus(g.status).value;
    FileKeyInjective(digest, "github", objectId, OldPath(f, sf), NewPath(f, sf), OldPath(g, sg), NewPath(g, sg));
    assert OldPath(f, sf) == OldPath(g, sg) && NewPath(f, sf) == NewPath(g, sg);
  }

  /** For distinct file names whatever githubFiles emits passes every content check, and its contents
      are exactly the patches of its exact files, in order. */
  lemma {:induction false} GithubBuildAgrees(digest: Digest, objectId: string, providerFiles: seq<GitHubFile>,
                                             sections: seq<DiffSection>, fileOverflow: bool, commitOverflow: bool,
                                             shas: seq<string>)
    requires CollisionFree(digest) && DistinctNames(providerFiles)
    ensures var built := BuildGithub(digest, objectId, providerFiles, sections, fileOverflow, commitOverflow, shas);
            built.Some? ==> ContentsAgree(built.value.files, built.value.contents)
  {
    var sorted := Ordering.Sort(GitHubFileLe, providerFiles);
    if AllAcceptable(sorted) {
      var rows := GithubRows(digest, objectId, sections, sorted);
      forall i | 0 <= i < |rows|
        ensures rows[i] == GithubRowAt(digest, objectId, sections, i, sorted[i])
      {
        GithubRowsAt(digest, objectId, sections, sorted, i);
      }
      forall i, j | 0 <= i < j < |rows|
        ensures rows[i].file.key != rows[j].file.key
      {
        if rows[i].file.key == rows[j].file.key {
          GithubKeysDistinct(digest, objectId, sections, sorted[i], sorted[j], i, j);
          NamesAscend(providerFiles, i, j);
        }
      }
      BuiltContentsAgree(rows);
    }
  }

  lemma {:induction false} NamesAscend(providerFiles: seq<GitHubFile>, i: nat, j: nat)
    requires DistinctNames(providerFiles) && i < j < |providerFiles|
    ensures |Ordering.Sort(GitHubFileLe, providerFiles)| == |providerFiles|
    ensures Ordering.Sort(GitHubFileLe, providerFiles)[i].filename != Ordering.Sort(GitHubFileLe, providerFiles)[j].filename
  {
    var sorted := Ordering.Sort(GitHubFileLe, providerFiles);
    Ordering.MemberOfMultiset(sorted, providerFiles);
    assert sorted[i] in providerFiles && sorted[j] in providerFiles;
    Ordering.RepeatCounts(sorted, i, j);
  }

  /** A file's patch is exact exactly when it has bytes; the aggregate is exact exactly when every
      file's is and the list did not overflow. */
  lemma {:induction false} GithubPatchesExact(digest: Digest, objectId: string, sections: seq<DiffSection>,
                                              files: seq<GitHubFile>, fileOverflow: bool, commitOverflow: bool)
    requires AllAcceptable(files)
    ensures var rows := GithubRows(digest, objectId, sections, files);
            && ExactRowsHaveBytes(rows)
            && (GithubCompleteness(rows, fileOverflow, commitOverflow).patches.Exact? <==>
                !fileOverflow && forall i :: 0 <= i < |files| ==>
                  var f := files[i];
                  var status := GithubFileStatus(f.status).value;
                  var section := SectionFor(sections, OldPath(f, status), NewPath(f, status));
                  (if section.Some? then section.value.patch else f.patch) != "")
  {
    var rows := GithubRows(digest, objectId, sections, files);
    forall i | 0 <= i < |files|
      ensures rows[i] == GithubRowAt(digest, objectId, sections, i, files[i])
    {
      GithubRowsAt(digest, objectId, sections, files, i);
    }
  }

  // ---------------------------------------------------------------- what the rows say

  ghost predicate LastSection(sections: seq<DiffSection>, oldPath: string, newPath: string, k: int) {
    && 0 <= k < |sections| && SectionKey(sections[k].oldPath, sections[k].newPath) == SectionKey(oldPath, newPath)
    && forall l :: k < l < |sections| ==>
          SectionKey(sections[l].oldPath, sections[l].newPath) != SectionKey(oldPath, newPath)
  }

  lemma {:induction false} SectionForIsLast(sections: seq<DiffSection>, oldPath: string, newPath: string)
    ensures var found := SectionFor(sections, oldPath, newPath);
            && (found.Some? <==> exists k :: LastSection(sections, oldPath, newPath, k))
            && forall k :: LastSection(sections, oldPath, newPath, k) ==> found == Some(sections[k])
  {
    if sections != [] {
      var n := |sections| - 1;
      SectionForIsLast(sections[..n], oldPath, newPath);
      if SectionKey(sections[n].oldPath, sections[n].newPath) == SectionKey(oldPath, newPath) {
        assert LastSection(sections, oldPath, newPath, n);
      } else {
        assert forall k ::
            LastSection(sections, oldPath, newPath, k) <==> LastSection(sections[..n], oldPath, newPath, k);
      }
    }
  }

  /** The diff names a file by the path it had and the path it has; an added file had none, a removed one has none. */
  function PathBefore(f: GitHubFile): string {
    if f.status == "added" then "" else if f.status == "renamed" || f.status == "copied" then f.previousFilename else f.filename
  }

  function PathAfter(f: GitHubFile): string {
    if f.status == "removed" then "" else f.filename
  }

  /** The last section that names the file. */
  ghost predicate IsSectionOf(sections: seq<DiffSection>, f: GitHubFile, section: Option<DiffSection>) {
    if section.None? then forall k :: !LastSection(sections, PathBefore(f), PathAfter(f), k)
    else exists k :: LastSection(sections, PathBefore(f), PathAfter(f), k) && sections[k] == section.value
  }

  /** The bytes of a file's patch: its section's, or those that came with the list. */
  function BytesOf(section: Option<DiffSection>, f: GitHubFile): string {
    if section.Some? then section.value.patch else f.patch
  }

  /** The row says of the file what GitHub said of it. */
  ghost predicate SaysOf(row: FileChange, f: GitHubFile, section: Option<DiffSection>) {
    && row.displayPath == f.filename
    && StatusText(row.status)
        == (if f.status == "removed" then "deleted" else if f.status == "changed" then "modified" else f.status)
    && row.oldDisplayPath == (if f.status == "renamed" || f.status == "copied" then f.previousFilename else "")
    && (if section.Some? then row.oldMode == section.value.oldMode && row.newMode == section.value.newMode
        else row.oldMode == "" && row.newMode == "")
    && (row.patchAssessment.Exact? <==> BytesOf(section, f) != "")
  }

  ghost function SectionOf(sections: seq<DiffSection>, f: GitHubFile): (section: Option<DiffSection>)
    ensures IsSectionOf(sections, f, section)
  {
    SectionForIsLast(sections, PathBefore(f), PathAfter(f));
    SectionFor(sections, PathBefore(f), PathAfter(f))
  }

  lemma {:induction false} RowSays(digest: Digest, objectId: string, sections: seq<DiffSection>, ordinal: nat,
                                   f: GitHubFile)
    requires AcceptableGithubFile(f)
    ensures var row := GithubRowAt(digest, objectId, sections, ordinal, f);
            && SaysOf(row.file, f, SectionOf(sections, f)) && row.patch == BytesOf(SectionOf(sections, f), f)
            && row.oldPath == PathBefore(f) && row.newPath == PathAfter(f)
  {
  }

  lemma {:induction false} GitHubFileOrder()
    ensures Ordering.TotalPreorder(GitHubFileLe)
  {
    Ordering.LexLeTotal();
    forall f: GitHubFile, g: GitHubFile
      ensures GitHubFileLe(f, g) || GitHubFileLe(g, f)
    {
      Ordering.LexTrichotomy(f.filename, g.filename);
      Ordering.LexTrichotomy(f.previousFilename, g.previousFilename);
    }
    forall f: GitHubFile, g: GitHubFile, h: GitHubFile | GitHubFileLe(f, g) && GitHubFileLe(g, h)
      ensures GitHubFileLe(f, h)
    {
      FilesInOrder(f, g, h);
    }
  }

  lemma {:induction false} FilesInOrder(f: GitHubFile, g: GitHubFile, h: GitHubFile)
    requires GitHubFileLe(f, g) && GitHubFileLe(g, h)
    ensures GitHubFileLe(f, h)
  {
    if Ordering.LexLess(f.filename, g.filename) && Ordering.LexLess(g.filename, h.filename) {
      Ordering.LexTransitive(f.filename, g.filename, h.filename);
    }
    Ordering.LexTrichotomy(f.filename, g.filename);
    Ordering.LexTrichotomy(g.filename, h.filename);
    if Ordering.LexLess(f.previousFilename, g.previousFilename) && Ordering.LexLess(g.previousFilename, h.previousFilename) {
      Ordering.LexTransitive(f.previousFilename, g.previousFilename, h.previousFilename);
    }
  }

  /** The built rows: one for each file of the list, in the order of their paths, saying of it what GitHub said. */
  ghost predicate RowsSay(built: Built, files: seq<GitHubFile>, sections: seq<DiffSection>) {
    var sorted := Ordering.Sort(GitHubFileLe, files);
    && |built.files| == |files| == |sorted|
    && (forall i :: 0 <= i < |sorted| ==> built.files[i].ordinal == i && SaysOf(built.files[i], sorted[i], SectionOf(sections, sorted[i])))
    && (forall i, j :: 0 <= i < j < |sorted| ==> Ordering.LexLe(built.files[i].displayPath, built.files[j].displayPath))
  }

  lemma {:induction false} BuiltRowsSay(digest: Digest, objectId: string, files: seq<GitHubFile>,
                                        sections: seq<DiffSection>, fileOverflow: bool, commitOverflow: bool,
                                        shas: seq<string>)
    ensures var built := BuildGithub(digest, objectId, files, sections, fileOverflow, commitOverflow, shas);
            built.Some? ==> RowsSay(built.value, files, sections)
  {
    var sorted := Ordering.Sort(GitHubFileLe, files);
    GitHubFileOrder();
    Ordering.SortSorted(GitHubFileLe, files);
    Ordering.MemberOfMultiset(sorted, files);
    if AllAcceptable(sorted) {
      forall i: nat | i < |sorted|
        ensures var row := GithubRows(digest, objectId, sections, sorted)[i].file;
                row.ordinal == i && SaysOf(row, sorted[i], SectionOf(sections, sorted[i]))
      {
        RowSaysAt(digest, objectId, sections, sorted, i);
      }
    }
  }

  /** Each exact file's bytes are handed over under its key, which names the pair of paths, and nothing else is. */
  ghost predicate BytesServed(built: Built, digest: Digest, objectId: string, files: seq<GitHubFile>,
                              sections: seq<DiffSection>)
  {
    var sorted := Ordering.Sort(GitHubFileLe, files);
    && |built.files| == |sorted|
    && (forall i :: 0 <= i < |sorted| ==>
          built.files[i].key == ProviderFileKey(digest, "github", objectId, PathBefore(sorted[i]), PathAfter(sorted[i])))
    && (forall c :: c in built.contents <==> exists i :: 0 <= i < |sorted| && ServedFor(c, built.files[i], sections, sorted[i]))
  }

  ghost predicate ServedFor(c: Content, row: FileChange, sections: seq<DiffSection>, f: GitHubFile) {
    BytesOf(SectionOf(sections, f), f) != "" && c == Content(row.key, "patch", BytesOf(SectionOf(sections, f), f))
  }

  lemma {:induction false} BuiltBytesServed(digest: Digest, objectId: string, files: seq<GitHubFile>,
                                            sections: seq<DiffSection>, fileOverflow: bool, commitOverflow: bool,
                                            shas: seq<string>)
    ensures var built := BuildGithub(digest, objectId, files, sections, fileOverflow, commitOverflow, shas);
            built.Some? ==> BytesServed(built.value, digest, objectId, files, sections)
  {
    var sorted := Ordering.Sort(GitHubFileLe, files);
    if AllAcceptable(sorted) {
      var rows := GithubRows(digest, objectId, sections, sorted);
      forall i: nat | i < |sorted|
        ensures rows[i].file.key
            == ProviderFileKey(digest, "github", objectId, PathBefore(sorted[i]), PathAfter(sorted[i]))
        ensures forall c :: ServedFor(c, rows[i].file, sections, sorted[i]) <==> CarriedBy(c, rows[i])
      {
        RowServes(digest, objectId, sections, sorted, i);
      }
      ContentsAreCarried(rows);
    }
  }

  ghost predicate CarriedBy(c: Content, row: BuiltRow) {
    row.file.patchAssessment.Exact? && c == Content(row.file.key, "patch", row.patch)
  }

  lemma {:induction false} ContentsAreCarried(rows: seq<BuiltRow>)
    ensures forall c :: c in Contents(rows) <==> exists i :: 0 <= i < |rows| && CarriedBy(c, rows[i])
  {
    if rows != [] {
      var n := |rows| - 1;
      ContentsAreCarried(rows[..n]);
      forall c
        ensures c in Contents(rows) <==> exists i :: 0 <= i < |rows| && CarriedBy(c, rows[i])
      {
        assert c in Contents(rows) <==> c in Contents(rows[..n]) || CarriedBy(c, rows[n]);
        assert forall i :: 0 <= i < n ==> rows[..n][i] == rows[i];
      }
    }
  }

  lemma {:induction false} RowServes(digest: Digest, objectId: string, sections: seq<DiffSection>,
                                     sorted: seq<GitHubFile>, i: nat)
    requires AllAcceptable(sorted) && i < |sorted|
    ensures var row, f := GithubRows(digest, objectId, sections, sorted)[i], sorted[i];
            && row.file.key == ProviderFileKey(digest, "github", objectId, PathBefore(f), PathAfter(f))
            && forall c :: ServedFor(c, row.file, sections, f) <==> CarriedBy(c, row)
  {
    GithubRowsAt(digest, objectId, sections, sorted, i);
    RowSays(digest, objectId, sections, i, sorted[i]);
  }

  /** What the built completeness claims: the file set unless the list overflowed, the commits unless theirs did, the modes
      when besides every file has a section with both modes, the patches when every file has bytes. */
  ghost predicate ClaimsHold(c: Completeness, files: seq<GitHubFile>, sections: seq<DiffSection>, fileOverflow: bool,
                             commitOverflow: bool)
  {
    && (c.fileSet.Exact? <==> !fileOverflow) && (c.commits.Exact? <==> !commitOverflow)
    && (c.modes.Exact? <==> !fileOverflow && forall f :: f in files ==> HasModes(SectionOf(sections, f)))
    && (c.patches.Exact? <==> !fileOverflow && forall f :: f in files ==> BytesOf(SectionOf(sections, f), f) != "")
    && (fileOverflow ==> forall a :: a in {c.fileSet, c.modes, c.patches} ==>
          StateText(a) == "unavailable" && ReasonText(a) == "change_request_overflow")
    && (commitOverflow ==> StateText(c.commits) == "unavailable" && ReasonText(c.commits) == "change_request_overflow")
  }

  predicate HasModes(section: Option<DiffSection>) {
    section.Some? && section.value.oldMode != "" && section.value.newMode != ""
  }

  lemma {:induction false} BuiltClaimsHold(digest: Digest, objectId: string, files: seq<GitHubFile>,
                                           sections: seq<DiffSection>, fileOverflow: bool, commitOverflow: bool,
                                           shas: seq<string>)
    ensures var built := BuildGithub(digest, objectId, files, sections, fileOverflow, commitOverflow, shas);
            built.Some? ==> ClaimsHold(built.value.completeness, files, sections, fileOverflow, commitOverflow)
  {
    var sorted := Ordering.Sort(GitHubFileLe, files);
    if AllAcceptable(sorted) {
      RowsCarryModes(digest, objectId, sections, sorted);
      RowsCarryPatches(digest, objectId, sections, sorted);
      SortedClaims(files, sections);
    }
  }

  lemma {:induction false} SortedClaims(files: seq<GitHubFile>, sections: seq<DiffSection>)
    ensures var sorted := Ordering.Sort(GitHubFileLe, files);
            && (AllHaveModes(sections, sorted) <==> forall f :: f in files ==> HasModes(SectionOf(sections, f)))
            && (AllHaveBytes(sections, sorted) <==> forall f :: f in files ==> BytesOf(SectionOf(sections, f), f) != "")
  {
    var sorted := Ordering.Sort(GitHubFileLe, files);
    Ordering.MemberOfMultiset(sorted, files);
    assert forall i :: 0 <= i < |sorted| ==> sorted[i] in sorted;
  }

  ghost predicate AllHaveModes(sections: seq<DiffSection>, sorted: seq<GitHubFile>) {
    forall i :: 0 <= i < |sorted| ==> HasModes(SectionOf(sections, sorted[i]))
  }

  ghost predicate AllHaveBytes(sections: seq<DiffSection>, sorted: seq<GitHubFile>) {
    forall i :: 0 <= i < |sorted| ==> BytesOf(SectionOf(sections, sorted[i]), sorted[i]) != ""
  }

  lemma {:induction false} RowSaysAt(digest: Digest, objectId: string, sections: seq<DiffSection>,
                                     sorted: seq<GitHubFile>, i: nat)
    requires AllAcceptable(sorted) && i < |sorted|
    ensures var row := GithubRows(digest, objectId, sections, sorted)[i].file;
            row.ordinal == i && SaysOf(row, sorted[i], SectionOf(sections, sorted[i]))
  {
    GithubRowsAt(digest, objectId, sections, sorted, i);
    RowSays(digest, objectId, sections, i, sorted[i]);
  }

  lemma {:induction false} RowsCarryModes(digest: Digest, objectId: string, sections: seq<DiffSection>,
                                          sorted: seq<GitHubFile>)
    requires AllAcceptable(sorted)
    ensures AllModesKnown(GithubRows(digest, objectId, sections, sorted)) <==> AllHaveModes(sections, sorted)
  {
    var rows := GithubRows(digest, objectId, sections, sorted);
    forall i: nat | i < |sorted|
      ensures rows[i].file.oldMode != "" && rows[i].file.newMode != "" <==> HasModes(SectionOf(sections, sorted[i]))
    {
      RowSaysAt(digest, objectId, sections, sorted, i);
    }
  }

  lemma {:induction false} RowsCarryPatches(digest: Digest, objectId: string, sections: seq<DiffSection>,
                                            sorted: seq<GitHubFile>)
    requires AllAcceptable(sorted)
    ensures AllPatchesExact(GithubRows(digest, objectId, sections, sorted)) <==> AllHaveBytes(sections, sorted)
  {
    var rows := GithubRows(digest, objectId, sections, sorted);
    forall i: nat | i < |sorted|
      ensures rows[i].file.patchAssessment.Exact? <==> BytesOf(SectionOf(sections, sorted[i]), sorted[i]) != ""
    {
      RowSaysAt(digest, objectId, sections, sorted, i);
    }
  }

  // ---------------------------------------------------------------- the manifest

  lemma {:induction false} RowPartsAt(rows: seq<BuiltRow>, i: nat, t: nat)
    requires i < |rows| && t < 8
    ensures |AllRowParts(rows)| == 8 * |rows|
    ensures AllRowParts(rows)[8 * i + t] == RowParts(rows[i])[t]
  {
    AllRowPartsLength(rows);
    var n := |rows| - 1;
    AllRowPartsLength(rows[..n]);
    if i < n { RowPartsAt(rows[..n], i, t); }
  }

  lemma {:induction false} AllRowPartsLength(rows: seq<BuiltRow>)
    ensures |AllRowParts(rows)| == 8 * |rows|
  {
    if rows != [] { AllRowPartsLength(rows[..|rows| - 1]); }
  }

  /** Rows and commit hashes cannot be confused in the flat manifest: where one list still has a row,
      the other would need a commit hash that reads like a file status. */
  lemma {:induction false} ManifestNotShorter(rows: seq<BuiltRow>, shas: seq<string>, c: Completeness,
                                              rows': seq<BuiltRow>, shas': seq<string>, c': Completeness)
    requires forall i :: 0 <= i < |shas| ==> IsProviderSha(shas[i])
    requires ManifestParts(rows, shas, c) == ManifestParts(rows', shas', c')
    ensures |rows'| <= |rows|
  {
    AllRowPartsLength(rows);
    AllRowPartsLength(rows');
    var m, m' := ManifestParts(rows, shas, c), ManifestParts(rows', shas', c');
    assert |m| == 8 * |rows| + |shas| + 8 && |m'| == 8 * |rows'| + |shas'| + 8;
    if |rows| < |rows'| {
      RowPartsAt(rows', |rows|, 2);
      StatusIsShort(m, m', rows', |rows|, shas);
    }
  }

  lemma {:induction false} StatusIsShort(m: seq<string>, m': seq<string>, rows': seq<BuiltRow>, k: nat,
                                         shas: seq<string>)
    requires k < |rows'| && 8 * k + 2 < |m| && 8 * k + 2 < |m'| && 2 < |shas|
    requires IsProviderSha(shas[2]) && m[8 * k + 2] == shas[2]
    requires m'[8 * k + 2] == StatusText(rows'[k].file.status)
    ensures m != m'
  {
  }

  ghost predicate SameRow(r: BuiltRow, s: BuiltRow) {
    && r.oldPath == s.oldPath && r.newPath == s.newPath && r.file.status == s.file.status
    && r.file.oldMode == s.file.oldMode && r.file.newMode == s.file.newMode
    && r.additions == s.additions && r.deletions == s.deletions && r.patch == s.patch
  }

  lemma {:induction false} StatusTextInjective(a: FileStatus, b: FileStatus)
    requires StatusText(a) == StatusText(b)
    ensures a == b
  {
    assert StatusText(a)[0] == StatusText(b)[0];
  }

  lemma {:induction false} RowPartsInjective(r: BuiltRow, s: BuiltRow)
    requires RowParts(r) == RowParts(s)
    ensures SameRow(r, s)
  {
    forall t | 0 <= t < 8
      ensures RowParts(r)[t] == RowParts(s)[t]
    {
    }
    assert RowParts(r)[0] == r.oldPath && RowParts(s)[0] == s.oldPath;
    assert RowParts(r)[1] == r.newPath && RowParts(s)[1] == s.newPath;
    assert RowParts(r)[2] == StatusText(r.file.status) && RowParts(s)[2] == StatusText(s.file.status);
    assert RowParts(r)[3] == r.file.oldMode && RowParts(s)[3] == s.file.oldMode;
    assert RowParts(r)[4] == r.file.newMode && RowParts(s)[4] == s.file.newMode;
    assert RowParts(r)[5] == Itoa(r.additions) && RowParts(s)[5] == Itoa(s.additions);
    assert RowParts(r)[6] == Itoa(r.deletions) && RowParts(s)[6] == Itoa(s.deletions);
    assert RowParts(r)[7] == r.patch && RowParts(s)[7] == s.patch;
    StatusTextInjective(r.file.status, s.file.status);
    ItoaInjective(r.additions, s.additions);
    ItoaInjective(r.deletions, s.deletions);
  }

  /** The manifest determines the files with their patches, modes and counts, the commits, and the
      recorded completeness. */
  lemma {:induction false} ManifestDetermines(rows: seq<BuiltRow>, shas: seq<string>, c: Completeness,
                                              rows': seq<BuiltRow>, shas': seq<string>, c': Completeness)
    requires forall i :: 0 <= i < |shas| ==> IsProviderSha(shas[i])
    requires forall i :: 0 <= i < |shas'| ==> IsProviderSha(shas'[i])
    requires ManifestParts(rows, shas, c) == ManifestParts(rows', shas', c')
    ensures |rows| == |rows'| && forall i :: 0 <= i < |rows| ==> SameRow(rows[i], rows'[i])
    ensures shas == shas' && AssessmentParts(c) == AssessmentParts(c')
  {
    ManifestNotShorter(rows, shas, c, rows', shas', c');
    ManifestNotShorter(rows', shas', c', rows, shas, c);
    AllRowPartsLength(rows);
    AllRowPartsLength(rows');
    var m, n := ManifestParts(rows, shas, c), 8 * |rows|;
    assert AllRowParts(rows) == m[..n] == AllRowParts(rows');
    assert |shas| == |shas'|;
    assert shas == m[n..n + |shas|] == shas';
    assert AssessmentParts(c) == m[n + |shas|..] == AssessmentParts(c');
    forall i | 0 <= i < |rows|
      ensures SameRow(rows[i], rows'[i])
    {
      forall t: nat | t < 8
        ensures RowParts(rows[i])[t] == RowParts(rows'[i])[t]
      {
        RowPartsAt(rows, i, t);
        RowPartsAt(rows', i, t);
      }
      RowPartsInjective(rows[i], rows'[i]);
    }
  }
}
