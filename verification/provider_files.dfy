/** File rows and pages of a GitLab merge request: gitLabFiles and fetchGitLabPages of
    internal/changehost/gitlab_provider.go. */
module GitLabFiles {
  import Ordering
  import Pages
  import ProviderKeys
  import opened SnapshotFiles
  import opened Wrappers

  datatype GitLabDiff = GitLabDiff(oldPath: string, newPath: string, aMode: string, bMode: string, diff: string,
                                   newFile: bool, deletedFile: bool, renamedFile: bool, tooLarge: bool, collapsed: bool)

  predicate GitLabDiffLe(d: GitLabDiff, e: GitLabDiff) {
    if d.newPath != e.newPath then Ordering.LexLess(d.newPath, e.newPath) else Ordering.LexLe(d.oldPath, e.oldPath)
  }

  function StatusOf(d: GitLabDiff): FileStatus {
    if d.newFile then Added else if d.deletedFile then Deleted else if d.renamedFile then Renamed else Modified
  }

  function PatchAssessment(d: GitLabDiff): Assessment {
    if d.tooLarge || d.collapsed then OVERFLOW else if d.diff == "" then PARTIAL else Exact
  }

  predicate SafePaths(d: GitLabDiff) {
    ProviderKeys.SafeProviderPath(d.newPath) && ProviderKeys.SafeProviderPath(d.oldPath)
  }

  function RowOf(digest: ProviderKeys.Digest, objectId: string, ordinal: nat, d: GitLabDiff): BuiltRow {
    BuiltRow(FileChange(ordinal, ProviderKeys.ProviderFileKey(digest, "gitlab", objectId, d.oldPath, d.newPath), d.newPath,
                        if StatusOf(d).Renamed? then d.oldPath else "", StatusOf(d), d.aMode, d.bMode, PatchAssessment(d)),
             d.oldPath, d.newPath, 0, 0, d.diff)
  }

  function Rows(digest: ProviderKeys.Digest, objectId: string, diffs: seq<GitLabDiff>): (rows: seq<BuiltRow>)
    ensures |rows| == |diffs| && forall i :: 0 <= i < |diffs| ==> rows[i] == RowOf(digest, objectId, i, diffs[i])
  {
    if diffs == [] then []
    else var n := |diffs| - 1; Rows(digest, objectId, diffs[..n]) + [RowOf(digest, objectId, n, diffs[n])]
  }

  /** The assessment the loop is left with: that of the last file without an exact patch. */
  function LastInexact(rows: seq<BuiltRow>): (a: Assessment)
    ensures a.Exact? <==> AllPatchesExact(rows)
  {
    if rows == [] then Exact
    else
      var last := rows[|rows| - 1].file.patchAssessment;
      assert forall i :: 0 <= i < |rows| - 1 ==> rows[..|rows| - 1][i] == rows[i];
      if last.Exact? then LastInexact(rows[..|rows| - 1]) else last
  }

  function PartsOfRow(row: BuiltRow): seq<string> {
    [row.oldPath, row.newPath, StatusText(row.file.status), row.file.oldMode, row.file.newMode, row.patch]
  }

  function PartsOf(rows: seq<BuiltRow>): seq<string> {
    if rows == [] then [] else PartsOf(rows[..|rows| - 1]) + PartsOfRow(rows[|rows| - 1])
  }

  function BuildGitLab(digest: ProviderKeys.Digest, objectId: string, diffs: seq<GitLabDiff>, shas: seq<string>)
    : Option<Built>
  {
    var sorted := Ordering.Sort(GitLabDiffLe, diffs);
    if !AllSafe(sorted) then None
    else
      var rows := Rows(digest, objectId, sorted);
      var patches, modes := LastInexact(rows), if AllModesKnown(rows) then Exact else PARTIAL;
      Some(Built(Files(rows), Contents(rows), Completeness(Exact, patches, modes, Exact),
                 ProviderKeys.ProviderOpaqueKey(digest, "manifest", PartsOf(rows) + shas
                                                       + [StateText(patches), ReasonText(patches), StateText(modes), ReasonText(modes)])))
  }

  /** What the loop has appended and degraded. */
  datatype Progress = Progress(files: seq<FileChange>, contents: seq<Content>, patches: Assessment, modes: Assessment, parts: seq<string>)

  function ProgressFor(rows: seq<BuiltRow>): Progress {
    Progress(Files(rows), Contents(rows), LastInexact(rows), if AllModesKnown(rows) then Exact else PARTIAL, PartsOf(rows))
  }

  /** What one more row adds. */
  function ProgressAfter(done: Progress, row: BuiltRow): Progress {
    Progress(done.files + [row.file],
             done.contents + if row.file.patchAssessment.Exact? then [Content(row.file.key, PATCH_PURPOSE, row.patch)] else [],
             if row.file.patchAssessment.Exact? then done.patches else row.file.patchAssessment,
             if row.file.oldMode == "" || row.file.newMode == "" then PARTIAL else done.modes,
             done.parts + PartsOfRow(row))
  }

  lemma {:induction false} ProgressStep(rows: seq<BuiltRow>, row: BuiltRow)
    ensures ProgressFor(rows + [row]) == ProgressAfter(ProgressFor(rows), row)
  {
    assert (rows + [row])[..|rows|] == rows;
    RowAppended(rows, row);
  }

  /** The loop body for one diff with safe paths. */
  method AppendDiff(digest: ProviderKeys.Digest, objectId: string, ordinal: nat, d: GitLabDiff, done: Progress)
    returns (next: Progress)
    ensures next == ProgressAfter(done, RowOf(digest, objectId, ordinal, d))
  {
    var status := StatusOf(d);
    var filePatch, patches, modes, contents := Exact, done.patches, done.modes, done.contents;
    if d.tooLarge || d.collapsed || d.diff == "" {
      filePatch := if d.tooLarge || d.collapsed then OVERFLOW else PARTIAL;
      patches := filePatch;
    }
    if d.aMode == "" || d.bMode == "" { modes := PARTIAL; }
    var fileKey := ProviderKeys.ProviderFileKey(digest, "gitlab", objectId, d.oldPath, d.newPath);
    var file := FileChange(ordinal, fileKey, d.newPath, if status.Renamed? then d.oldPath else "", status, d.aMode,
                           d.bMode, filePatch);
    if filePatch.Exact? { contents := contents + [Content(fileKey, PATCH_PURPOSE, d.diff)]; }
    next := Progress(done.files + [file], contents, patches, modes,
                     done.parts + [d.oldPath, d.newPath, StatusText(status), d.aMode, d.bMode, d.diff]);
  }

  predicate AllSafe(diffs: seq<GitLabDiff>) {
    forall i :: 0 <= i < |diffs| ==> SafePaths(diffs[i])
  }

  lemma {:induction false} RowsStep(digest: ProviderKeys.Digest, objectId: string, diffs: seq<GitLabDiff>, i: nat)
    requires i < |diffs| && AllSafe(diffs[..i]) && SafePaths(diffs[i])
    ensures AllSafe(diffs[..i + 1])
    ensures Rows(digest, objectId, diffs[..i + 1])
        == Rows(digest, objectId, diffs[..i]) + [RowOf(digest, objectId, i, diffs[i])]
  {
    assert diffs[..i + 1][..i] == diffs[..i];
    assert forall j :: 0 <= j < i ==> diffs[..i + 1][j] == diffs[..i][j];
  }

  ghost predicate Done(digest: ProviderKeys.Digest, objectId: string, sorted: seq<GitLabDiff>, n: nat, done: Progress) {
    n <= |sorted| && AllSafe(sorted[..n]) && done == ProgressFor(Rows(digest, objectId, sorted[..n]))
  }

  method AppendNext(digest: ProviderKeys.Digest, objectId: string, sorted: seq<GitLabDiff>, i: nat, done: Progress)
    returns (next: Progress)
    requires i < |sorted| && SafePaths(sorted[i]) && Done(digest, objectId, sorted, i, done)
    ensures Done(digest, objectId, sorted, i + 1, next)
  {
    RowsStep(digest, objectId, sorted, i);
    ProgressStep(Rows(digest, objectId, sorted[..i]), RowOf(digest, objectId, i, sorted[i]));
    next := AppendDiff(digest, objectId, i, sorted[i], done);
  }

  method AppendDiffs(digest: ProviderKeys.Digest, objectId: string, sorted: seq<GitLabDiff>)
    returns (ok: bool, done: Progress)
    ensures ok <==> AllSafe(sorted)
    ensures ok ==> done == ProgressFor(Rows(digest, objectId, sorted))
  {
    done := Progress([], [], Exact, Exact, []);
    for ordinal := 0 to |sorted|
      invariant Done(digest, objectId, sorted, ordinal, done)
    {
      if !SafePaths(sorted[ordinal]) { return false, done; }
      done := AppendNext(digest, objectId, sorted, ordinal, done);
    }
    assert sorted[..|sorted|] == sorted;
    ok := true;
  }

  /** gitLabFiles. */
  method BuildFiles(digest: ProviderKeys.Digest, objectId: string, diffs: seq<GitLabDiff>, shas: seq<string>)
    returns (built: Option<Built>)
    ensures built == BuildGitLab(digest, objectId, diffs, shas)
  {
    var ok, done := AppendDiffs(digest, objectId, Ordering.Sort(GitLabDiffLe, diffs));
    if !ok { return None; }
    var hashed := ProviderKeys.WriteParts(done.parts + shas + [StateText(done.patches), ReasonText(done.patches),
                                                  StateText(done.modes), ReasonText(done.modes)]);
    return Some(Built(done.files, done.contents, Completeness(Exact, done.patches, done.modes, Exact), "manifest" + "-" + digest(hashed)));
  }

  /** Two entries for one pair of paths, the first of them (in path order) with an exact patch. */
  ghost predicate RepeatsExactPair(sorted: seq<GitLabDiff>) {
    exists i, j :: 0 <= i < j < |sorted| && sorted[i].oldPath == sorted[j].oldPath && sorted[i].newPath == sorted[j].newPath
                   && PatchAssessment(sorted[i]).Exact?
  }

  /** Every file's patch was served whole. */
  ghost predicate AllWhole(diffs: seq<GitLabDiff>) {
    forall d :: d in diffs ==> !d.tooLarge && !d.collapsed && d.diff != ""
  }

  lemma {:induction false} RowsAgree(digest: ProviderKeys.Digest, objectId: string, sorted: seq<GitLabDiff>)
    requires CollisionFree(digest)
    ensures var rows := Rows(digest, objectId, sorted);
            ContentsAgree(Files(rows), Contents(rows)) <==> !RepeatsExactPair(sorted)
  {
    ServedWhole(digest, objectId, sorted);
    BuiltContentsAgree(Rows(digest, objectId, sorted));
    RepeatedPairs(digest, objectId, sorted);
  }

  lemma {:induction false} RowsWhole(digest: ProviderKeys.Digest, objectId: string, sorted: seq<GitLabDiff>)
    ensures LastInexact(Rows(digest, objectId, sorted)).Exact? <==> AllWhole(sorted)
  {
    ServedWhole(digest, objectId, sorted);
  }

  lemma {:induction false} SameMembers(diffs: seq<GitLabDiff>)
    ensures AllWhole(Ordering.Sort(GitLabDiffLe, diffs)) <==> AllWhole(diffs)
  {
    Ordering.MemberOfMultiset(Ordering.Sort(GitLabDiffLe, diffs), diffs);
  }

  lemma {:induction false} BuiltFilesAgree(digest: ProviderKeys.Digest, objectId: string, diffs: seq<GitLabDiff>,
                                           shas: seq<string>)
    requires CollisionFree(digest)
    ensures var built := BuildGitLab(digest, objectId, diffs, shas);
            built.Some? ==>
              (ContentsAgree(built.value.files, built.value.contents) <==>
               !RepeatsExactPair(Ordering.Sort(GitLabDiffLe, diffs)))
  {
    RowsAgree(digest, objectId, Ordering.Sort(GitLabDiffLe, diffs));
  }

  lemma {:induction false} BuiltPatchesWhole(digest: ProviderKeys.Digest, objectId: string, diffs: seq<GitLabDiff>,
                                             shas: seq<string>)
    ensures var built := BuildGitLab(digest, objectId, diffs, shas);
            built.Some? ==> (built.value.completeness.patches.Exact? <==> AllWhole(diffs))
  {
    RowsWhole(digest, objectId, Ordering.Sort(GitLabDiffLe, diffs));
    SameMembers(diffs);
  }

  /** What gitLabFiles emits passes every content check exactly when no pair of paths with an exact patch repeats;
      and its patches are marked exact exactly when every file's patch was served whole. */
  lemma {:induction false} GitLabBuildAgrees(digest: ProviderKeys.Digest, objectId: string, diffs: seq<GitLabDiff>,
                                             shas: seq<string>)
    requires CollisionFree(digest)
    ensures var built := BuildGitLab(digest, objectId, diffs, shas);
            built.Some? ==>
              && (ContentsAgree(built.value.files, built.value.contents) <==>
                  !RepeatsExactPair(Ordering.Sort(GitLabDiffLe, diffs)))
              && (built.value.completeness.patches.Exact? <==> AllWhole(diffs))
  {
    BuiltFilesAgree(digest, objectId, diffs, shas);
    BuiltPatchesWhole(digest, objectId, diffs, shas);
  }

  lemma {:induction false} RepeatedPairs(digest: ProviderKeys.Digest, objectId: string, sorted: seq<GitLabDiff>)
    requires CollisionFree(digest)
    ensures RepeatsExactKey(Rows(digest, objectId, sorted)) <==> RepeatsExactPair(sorted)
  {
    var rows := Rows(digest, objectId, sorted);
    forall i, j | 0 <= i < j < |rows|
      ensures rows[i].file.key == rows[j].file.key
          <==> sorted[i].oldPath == sorted[j].oldPath && sorted[i].newPath == sorted[j].newPath
    {
      if rows[i].file.key == rows[j].file.key {
        ProviderKeys.FileKeyInjective(digest, "gitlab", objectId, sorted[i].oldPath, sorted[i].newPath,
                                      sorted[j].oldPath, sorted[j].newPath);
      }
    }
  }

  lemma {:induction false} ServedWhole(digest: ProviderKeys.Digest, objectId: string, sorted: seq<GitLabDiff>)
    ensures var rows := Rows(digest, objectId, sorted);
            && ExactRowsHaveBytes(rows)
            && (AllPatchesExact(rows) <==> forall d :: d in sorted ==> !d.tooLarge && !d.collapsed && d.diff != "")
  {
    var rows := Rows(digest, objectId, sorted);
    assert forall i :: 0 <= i < |rows| ==> rows[i].file.patchAssessment == PatchAssessment(sorted[i]);
    if AllPatchesExact(rows) {
      assert forall i :: 0 <= i < |sorted| ==> rows[i].file.patchAssessment.Exact?;
    }
  }

  // ---------------------------------------------------------------- what the rows say

  /** The row says of the diff what GitLab said of it: an added file before a deleted one before a renamed one. */
  ghost predicate SaysOf(row: FileChange, digest: ProviderKeys.Digest, objectId: string, d: GitLabDiff) {
    && row.key == ProviderKeys.ProviderFileKey(digest, "gitlab", objectId, d.oldPath, d.newPath) &&
       row.displayPath == d.newPath
    && row.oldDisplayPath == (if d.renamedFile && !d.newFile && !d.deletedFile then d.oldPath else "")
    && StatusText(row.status) == (if d.newFile then "added" else if d.deletedFile then "deleted"
                                  else if d.renamedFile then "renamed" else "modified")
    && row.oldMode == d.aMode && row.newMode == d.bMode
    && StateText(row.patchAssessment) == (if HasBytes(d) then "exact" else "unavailable")
    && ReasonText(row.patchAssessment) == (if d.tooLarge || d.collapsed then "change_request_overflow"
                                           else if d.diff == "" then "change_request_partial" else "")
  }

  predicate HasBytes(d: GitLabDiff) {
    !d.tooLarge && !d.collapsed && d.diff != ""
  }

  /** One row for each diff, by new path and then by old path, and the bytes of those that have theirs. */
  ghost predicate RowsSay(built: Built, digest: ProviderKeys.Digest, objectId: string, diffs: seq<GitLabDiff>) {
    var sorted := Ordering.Sort(GitLabDiffLe, diffs);
    && |built.files| == |diffs| == |sorted|
    && Ascend(sorted) && EachSays(built.files, digest, objectId, sorted) &&
       ServesBytes(built.files, built.contents, sorted)
  }

  ghost predicate Ascend(sorted: seq<GitLabDiff>) {
    forall i, j :: 0 <= i < j < |sorted| ==> PathsInOrder(sorted[i], sorted[j])
  }

  ghost predicate EachSays(files: seq<FileChange>, digest: ProviderKeys.Digest, objectId: string,
                           sorted: seq<GitLabDiff>)
    requires |files| == |sorted|
  {
    forall i :: 0 <= i < |sorted| ==> files[i].ordinal == i && SaysOf(files[i], digest, objectId, sorted[i])
  }

  ghost predicate ServesBytes(files: seq<FileChange>, contents: seq<Content>, sorted: seq<GitLabDiff>)
    requires |files| == |sorted|
  {
    forall c :: c in contents <==> exists i :: 0 <= i < |sorted| && ServedFor(c, files[i], sorted[i])
  }

  ghost predicate PathsInOrder(d: GitLabDiff, e: GitLabDiff) {
    || Ordering.LexLess(d.newPath, e.newPath)
    || (d.newPath == e.newPath && (d.oldPath == e.oldPath || Ordering.LexLess(d.oldPath, e.oldPath)))
  }

  ghost predicate ServedFor(c: Content, row: FileChange, d: GitLabDiff) {
    HasBytes(d) && c == Content(row.key, "patch", d.diff)
  }

  lemma {:induction false} DiffsInOrder(d: GitLabDiff, e: GitLabDiff, f: GitLabDiff)
    requires GitLabDiffLe(d, e) && GitLabDiffLe(e, f)
    ensures GitLabDiffLe(d, f)
  {
    if Ordering.LexLess(d.newPath, e.newPath) && Ordering.LexLess(e.newPath, f.newPath) {
      Ordering.LexTransitive(d.newPath, e.newPath, f.newPath);
    }
    Ordering.LexTrichotomy(d.newPath, e.newPath);
    Ordering.LexTrichotomy(e.newPath, f.newPath);
    if Ordering.LexLess(d.oldPath, e.oldPath) && Ordering.LexLess(e.oldPath, f.oldPath) {
      Ordering.LexTransitive(d.oldPath, e.oldPath, f.oldPath);
    }
  }

  lemma {:induction false} GitLabDiffOrder()
    ensures Ordering.TotalPreorder(GitLabDiffLe)
  {
    forall d: GitLabDiff, e: GitLabDiff
      ensures GitLabDiffLe(d, e) || GitLabDiffLe(e, d)
    {
      Ordering.LexTrichotomy(d.newPath, e.newPath);
      Ordering.LexTrichotomy(d.oldPath, e.oldPath);
    }
    forall d: GitLabDiff, e: GitLabDiff, f: GitLabDiff | GitLabDiffLe(d, e) && GitLabDiffLe(e, f)
      ensures GitLabDiffLe(d, f)
    {
      DiffsInOrder(d, e, f);
    }
  }

  lemma {:induction false} RowCarries(digest: ProviderKeys.Digest, objectId: string, sorted: seq<GitLabDiff>, i: nat)
    requires i < |sorted|
    ensures var row := Rows(digest, objectId, sorted)[i];
            && row.file.ordinal == i && SaysOf(row.file, digest, objectId, sorted[i])
            && forall c :: ServedFor(c, row.file, sorted[i]) <==> CarriedBy(c, row)
  {
  }

  lemma {:induction false} RowsServe(digest: ProviderKeys.Digest, objectId: string, sorted: seq<GitLabDiff>)
    ensures var rows := Rows(digest, objectId, sorted);
            ServesBytes(Files(rows), Contents(rows), sorted)
  {
    var rows := Rows(digest, objectId, sorted);
    ContentsAreCarried(rows);
    forall i: nat | i < |sorted|
      ensures forall c :: ServedFor(c, rows[i].file, sorted[i]) <==> CarriedBy(c, rows[i])
    {
      RowCarries(digest, objectId, sorted, i);
    }
  }

  lemma {:induction false} DiffsAscend(diffs: seq<GitLabDiff>)
    ensures var sorted := Ordering.Sort(GitLabDiffLe, diffs);
            |sorted| == |diffs| && Ascend(sorted)
  {
    GitLabDiffOrder();
    Ordering.SortSorted(GitLabDiffLe, diffs);
    Ordering.MemberOfMultiset(Ordering.Sort(GitLabDiffLe, diffs), diffs);
  }

  lemma {:induction false} RowsOfSorted(digest: ProviderKeys.Digest, objectId: string, sorted: seq<GitLabDiff>)
    ensures EachSays(Files(Rows(digest, objectId, sorted)), digest, objectId, sorted)
  {
    forall i: nat | i < |sorted|
      ensures var row := Rows(digest, objectId, sorted)[i].file;
              row.ordinal == i && SaysOf(row, digest, objectId, sorted[i])
    {
      RowCarries(digest, objectId, sorted, i);
    }
  }

  lemma {:induction false} BuiltRowsSay(digest: ProviderKeys.Digest, objectId: string, diffs: seq<GitLabDiff>,
                                        shas: seq<string>)
    ensures var built := BuildGitLab(digest, objectId, diffs, shas);
            built.Some? ==> RowsSay(built.value, digest, objectId, diffs)
  {
    var sorted := Ordering.Sort(GitLabDiffLe, diffs);
    DiffsAscend(diffs);
    RowsServe(digest, objectId, sorted);
    RowsOfSorted(digest, objectId, sorted);
  }

  ghost predicate AllHaveModes(diffs: seq<GitLabDiff>) {
    forall d :: d in diffs ==> d.aMode != "" && d.bMode != ""
  }

  lemma {:induction false} ModesOfRows(digest: ProviderKeys.Digest, objectId: string, sorted: seq<GitLabDiff>)
    ensures AllModesKnown(Rows(digest, objectId, sorted)) <==> AllHaveModes(sorted)
  {
    var rows := Rows(digest, objectId, sorted);
    assert forall i :: 0 <= i < |rows| ==>
          rows[i].file.oldMode == sorted[i].aMode && rows[i].file.newMode == sorted[i].bMode;
    if AllModesKnown(rows) {
      assert forall i :: 0 <= i < |sorted| ==> rows[i].file.oldMode != "" && rows[i].file.newMode != "";
    }
  }

  lemma {:induction false} ModesOfSorted(diffs: seq<GitLabDiff>)
    ensures AllHaveModes(Ordering.Sort(GitLabDiffLe, diffs)) <==> AllHaveModes(diffs)
  {
    Ordering.MemberOfMultiset(Ordering.Sort(GitLabDiffLe, diffs), diffs);
  }

  /** Files and commits always, the modes when every diff has both, the patches when every diff has its bytes. */
  ghost predicate Claims(c: Completeness, diffs: seq<GitLabDiff>) {
    && c.fileSet.Exact? && c.commits.Exact?
    && (c.modes.Exact? <==> AllHaveModes(diffs)) && (c.patches.Exact? <==> forall d :: d in diffs ==> HasBytes(d))
    && (!c.modes.Exact? ==> StateText(c.modes) == "unavailable" && ReasonText(c.modes) == "change_request_partial")
  }

  lemma {:induction false} BuiltClaimsHold(digest: ProviderKeys.Digest, objectId: string, diffs: seq<GitLabDiff>,
                                           shas: seq<string>)
    ensures var built := BuildGitLab(digest, objectId, diffs, shas);
            built.Some? ==> Claims(built.value.completeness, diffs)
  {
    var sorted := Ordering.Sort(GitLabDiffLe, diffs);
    BuiltCompleteness(digest, objectId, diffs, shas);
    RowsWhole(digest, objectId, sorted);
    SameMembers(diffs);
    ModesOfRows(digest, objectId, sorted);
    ModesOfSorted(diffs);
  }

  lemma {:induction false} BuiltCompleteness(digest: ProviderKeys.Digest, objectId: string, diffs: seq<GitLabDiff>,
                                             shas: seq<string>)
    ensures var built, rows := BuildGitLab(digest, objectId, diffs, shas), Rows(digest, objectId,
                                           Ordering.Sort(GitLabDiffLe, diffs));
            built.Some? ==>
              built.value.completeness == Completeness(Exact, LastInexact(rows), if AllModesKnown(rows) then Exact else PARTIAL, Exact)
  {
  }

  // ---------------------------------------------------------------- pages

  const PAGE_SIZE: nat := 100
  const MAX_PAGES: nat := 100

  /** A finished list, with the number of pages it took. */
  datatype Listing<T> = Complete(items: seq<T>, pages: nat) | TooMany(pages: nat) | Unreachable(pages: nat)

  /** Pages until a short one; a hundred full pages are an error. */
  function PagesFrom<T>(serve: nat -> Option<seq<T>>, p: nat, got: seq<T>): (r: Listing<T>)
    requires 1 <= p <= MAX_PAGES + 1
    ensures p - 1 <= r.pages <= MAX_PAGES
    decreases MAX_PAGES + 1 - p
  {
    if p == MAX_PAGES + 1 then TooMany(MAX_PAGES)
    else
      var reply := serve(p);
      if reply.None? then Unreachable(p)
      else if |reply.value| < PAGE_SIZE then Complete(got + reply.value, p)
      else PagesFrom(serve, p + 1, got + reply.value)
  }

  /** fetchGitLabPages. */
  method FetchGitLabPages<T(!new)>(serve: nat -> Option<seq<T>>) returns (r: Listing<T>)
    ensures r == PagesFrom(serve, 1, [])
  {
    var items := [];
    for page := 1 to MAX_PAGES + 1
      invariant PagesFrom(serve, 1, []) == PagesFrom(serve, page, items)
    {
      var reply := serve(page);
      if reply.None? { return Unreachable(page); }
      items := items + reply.value;
      if |reply.value| < PAGE_SIZE { return Complete(items, page); }
    }
    return TooMany(MAX_PAGES);
  }

  lemma {:induction false} NextSlice<T>(list: seq<T>, p: nat, got: seq<T>)
    requires p >= 1 && got == Pages.Take(list, PAGE_SIZE * (p - 1)) && |got| == PAGE_SIZE * (p - 1)
    ensures var page := Pages.Slice(list, PAGE_SIZE, p);
            && |page| <= PAGE_SIZE && got + page == Pages.Take(list, PAGE_SIZE * p)
            && (|page| < PAGE_SIZE ==> got + page == list && |list| < PAGE_SIZE * p)
            && (|page| == PAGE_SIZE ==> |got + page| == PAGE_SIZE * p <= |list|)
  {
  }

  /** While the list stays the same it comes back whole exactly when it has fewer than ten thousand items. */
  lemma {:induction false} StableListing<T(!new)>(serve: nat -> Option<seq<T>>, list: seq<T>, p: nat, got: seq<T>)
    requires 1 <= p <= MAX_PAGES + 1 && got == Pages.Take(list, PAGE_SIZE * (p - 1)) && |got| == PAGE_SIZE * (p - 1)
    requires forall q :: p <= q <= PagesFrom(serve, p, got).pages && serve(q).Some? ==>
          serve(q).value == Pages.Slice(list, PAGE_SIZE, q)
    ensures var r := PagesFrom(serve, p, got);
            && (r.Complete? ==> r.items == list && |list| < 10000)
            && (r.TooMany? ==> |list| >= 10000)
            && (r.Unreachable? ==> exists q :: p <= q <= r.pages && serve(q).None?)
    decreases MAX_PAGES + 1 - p
  {
    if p <= MAX_PAGES && serve(p).Some? {
      assert p <= PagesFrom(serve, p, got).pages;
      NextSlice(list, p, got);
      var page := Pages.Slice(list, PAGE_SIZE, p);
      if |page| == PAGE_SIZE { StableListing(serve, list, p + 1, got + page); }
    }
  }
}

/** File rows of the profile-driven provider: filesFromItems, collectFiles and fileManifestDigest of
    internal/changehost/openapi_execute.go. */
module OpenApiFiles {
  import opened Ordering
  import ProviderKeys
  import opened SnapshotFiles
  import Texts
  import opened Wrappers

  const UNSUPPORTED := NonExact("unavailable", "change_provider_unsupported")
  const MISSING_PATCH := NonExact("missing", "change_request_partial")
  const ESTIMATED := NonExact("estimated", "change_request_overflow")

  /** A list item through the profile's selectors; a value without a selector reads as "". */
  datatype Item = Item(path: string, oldPath: string, status: Option<FileStatus>, oldMode: string, newMode: string, patch: string)

  /** Which optional values the profile selects. */
  datatype Profile = Profile(id: string, hasPatch: bool, hasNewMode: bool)

  predicate Acceptable(item: Item) {
    && item.path != "" && ProviderKeys.SafeProviderPath(item.path) && item.status.Some?
    && (item.oldPath == "" || ProviderKeys.SafeProviderPath(item.oldPath))
  }

  /** A profile without a selector reads no value. */
  predicate Selected(profile: Profile, items: seq<Item>) {
    && (!profile.hasPatch ==> forall i :: 0 <= i < |items| ==> items[i].patch == "")
    && (!profile.hasNewMode ==> forall i :: 0 <= i < |items| ==> items[i].newMode == "")
  }

  function PatchClaim(profile: Profile): Assessment {
    if profile.hasPatch then Exact else UNSUPPORTED
  }

  function ModeClaim(profile: Profile): Assessment {
    if profile.hasNewMode then Exact else UNSUPPORTED
  }

  function RowOf(digest: ProviderKeys.Digest, kind: string, profile: Profile, i: nat, item: Item): BuiltRow
    requires Acceptable(item)
  {
    BuiltRow(FileChange(i, ProviderKeys.ProviderFileKey(digest, kind, profile.id, item.oldPath, item.path), item.path, item.oldPath,
                        item.status.value, item.oldMode, item.newMode,
                        if item.patch == "" && profile.hasPatch then MISSING_PATCH else PatchClaim(profile)),
             item.oldPath, item.path, 0, 0, item.patch)
  }

  function Rows(digest: ProviderKeys.Digest, kind: string, profile: Profile, items: seq<Item>): (rows: seq<BuiltRow>)
    requires AllAcceptable(items)
    ensures |rows| == |items| && forall i :: 0 <= i < |items| ==> rows[i] == RowOf(digest, kind, profile, i, items[i])
  {
    if items == [] then []
    else var n := |items| - 1; Rows(digest, kind, profile, items[..n]) + [RowOf(digest, kind, profile, n, items[n])]
  }

  /** The loop body for one acceptable item. */
  method AppendItem(digest: ProviderKeys.Digest, kind: string, profile: Profile, i: nat, item: Item,
                    files0: seq<FileChange>, contents0: seq<Content>, ghost rows: seq<BuiltRow>)
    returns (files: seq<FileChange>, contents: seq<Content>)
    requires Acceptable(item) && (!profile.hasPatch ==> item.patch == "")
    requires files0 == Files(rows) && contents0 == Contents(rows)
    ensures var more := rows + [RowOf(digest, kind, profile, i, item)];
            files == Files(more) && contents == Contents(more)
  {
    contents := contents0;
    var patches := if profile.hasPatch then Exact else UNSUPPORTED;
    var file := FileChange(i, ProviderKeys.ProviderFileKey(digest, kind, profile.id, item.oldPath, item.path), item.path, item.oldPath,
                           item.status.value, item.oldMode, item.newMode, patches);
    if item.patch != "" {
      contents := contents + [Content(file.key, PATCH_PURPOSE, item.patch)];
    } else if patches.Exact? {
      file := file.(patchAssessment := MISSING_PATCH);
    }
    files := files0 + [file];
    RowAppended(rows, RowOf(digest, kind, profile, i, item));
  }

  predicate AllAcceptable(items: seq<Item>) {
    forall i :: 0 <= i < |items| ==> Acceptable(items[i])
  }

  ghost predicate Holds(digest: ProviderKeys.Digest, kind: string, profile: Profile, items: seq<Item>, n: nat,
                        files: seq<FileChange>, contents: seq<Content>)
  {
    && n <= |items| && AllAcceptable(items[..n])
    && var rows := Rows(digest, kind, profile, items[..n]); files == Files(rows) && contents == Contents(rows)
  }

  lemma {:induction false} RowsStep(digest: ProviderKeys.Digest, kind: string, profile: Profile, items: seq<Item>,
                                    i: nat)
    requires i < |items| && AllAcceptable(items[..i]) && Acceptable(items[i])
    ensures AllAcceptable(items[..i + 1])
    ensures Rows(digest, kind, profile, items[..i + 1])
        == Rows(digest, kind, profile, items[..i]) + [RowOf(digest, kind, profile, i, items[i])]
  {
    assert items[..i + 1][..i] == items[..i];
    assert forall j :: 0 <= j < i ==> items[..i + 1][j] == items[..i][j];
  }

  method AppendNext(digest: ProviderKeys.Digest, kind: string, profile: Profile, items: seq<Item>, i: nat,
                    files0: seq<FileChange>, contents0: seq<Content>)
    returns (files: seq<FileChange>, contents: seq<Content>)
    requires Selected(profile, items) && i < |items| && Acceptable(items[i]) &&
             Holds(digest, kind, profile, items, i, files0, contents0)
    ensures Holds(digest, kind, profile, items, i + 1, files, contents)
  {
    RowsStep(digest, kind, profile, items, i);
    files, contents := AppendItem(digest, kind, profile, i, items[i], files0, contents0,
                                  Rows(digest, kind, profile, items[..i]));
  }

  /** filesFromItems: rows, contents and the claims for the list, or an error on the first unacceptable item. */
  method FilesFromItems(digest: ProviderKeys.Digest, kind: string, profile: Profile, items: seq<Item>)
    returns (ok: bool, files: seq<FileChange>, contents: seq<Content>, patches: Assessment, modes: Assessment)
    requires Selected(profile, items)
    ensures ok <==> AllAcceptable(items)
    ensures ok ==> var rows := Rows(digest, kind, profile, items); files == Files(rows) && contents == Contents(rows)
    ensures patches == PatchClaim(profile) && modes == ModeClaim(profile)
  {
    patches, modes := Exact, Exact;
    if !profile.hasPatch { patches := UNSUPPORTED; }
    if !profile.hasNewMode { modes := UNSUPPORTED; }
    files, contents := [], [];
    for i := 0 to |items|
      invariant Holds(digest, kind, profile, items, i, files, contents)
    {
      var item := items[i];
      if item.path == "" || !ProviderKeys.SafeProviderPath(item.path) { return false, files, contents, patches, modes; }
      if item.status.None? { return false, files, contents, patches, modes; }
      if item.oldPath != "" && !ProviderKeys.SafeProviderPath(item.oldPath) {
        return false, files, contents, patches, modes;
      }
      files, contents := AppendNext(digest, kind, profile, items, i, files, contents);
    }
    assert items[..|items|] == items;
    ok := true;
  }

  /** collectFiles degrades exact claims when the list overflowed. */
  function CollectedPatches(profile: Profile, overflow: bool): Assessment {
    if overflow && profile.hasPatch then ESTIMATED else PatchClaim(profile)
  }

  function CollectedModes(profile: Profile, overflow: bool): Assessment {
    if overflow && profile.hasNewMode then ESTIMATED else ModeClaim(profile)
  }

  /** Row by row: the item's paths, status and modes, a key that names the pair of paths, and an exact patch when the profile
      selects one and the item has it. */
  lemma {:induction false} ItemsSay(digest: ProviderKeys.Digest, kind: string, profile: Profile, items: seq<Item>,
                                    i: nat)
    requires AllAcceptable(items) && i < |items|
    ensures var rows := Rows(digest, kind, profile, items);
            |Files(rows)| == |items| && SaysOf(Files(rows)[i], digest, kind, profile, i, items[i])
  {
    assert Rows(digest, kind, profile, items)[i] == RowOf(digest, kind, profile, i, items[i]);
  }

  lemma {:induction false} ItemCarries(digest: ProviderKeys.Digest, kind: string, profile: Profile, i: nat, item: Item)
    requires Acceptable(item) && (!profile.hasPatch ==> item.patch == "")
    ensures var row := RowOf(digest, kind, profile, i, item);
            forall c :: ServedFor(c, row.file, item) <==> CarriedBy(c, row)
  {
  }

  /** The contents are the patches that items have. */
  lemma {:induction false} ItemsServed(digest: ProviderKeys.Digest, kind: string, profile: Profile, items: seq<Item>)
    requires AllAcceptable(items) && Selected(profile, items)
    ensures var rows := Rows(digest, kind, profile, items);
            forall c :: c in Contents(rows) <==> exists i :: 0 <= i < |items| && ServedFor(c, rows[i].file, items[i])
  {
    var rows := Rows(digest, kind, profile, items);
    ContentsAreCarried(rows);
    forall i: nat | i < |items|
      ensures forall c :: ServedFor(c, rows[i].file, items[i]) <==> CarriedBy(c, rows[i])
    {
      assert rows[i] == RowOf(digest, kind, profile, i, items[i]);
      ItemCarries(digest, kind, profile, i, items[i]);
    }
  }

  ghost predicate SaysOf(row: FileChange, digest: ProviderKeys.Digest, kind: string, profile: Profile, i: nat,
                         item: Item)
  {
    && row.ordinal == i && row.key == ProviderKeys.ProviderFileKey(digest, kind, profile.id, item.oldPath, item.path)
    && row.displayPath == item.path && row.oldDisplayPath == item.oldPath && item.status == Some(row.status)
    && row.oldMode == item.oldMode && row.newMode == item.newMode
    && StateText(row.patchAssessment)
        == (if !profile.hasPatch then "unavailable" else if item.patch == "" then "missing" else "exact")
    && ReasonText(row.patchAssessment) == (if !profile.hasPatch then "change_provider_unsupported"
                                           else if item.patch == "" then "change_request_partial" else "")
  }

  ghost predicate ServedFor(c: Content, row: FileChange, item: Item) {
    item.patch != "" && c == Content(row.key, "patch", item.patch)
  }

  /** The claims for the list follow the profile's selectors, less so when the list overflowed. */
  lemma {:induction false} ClaimsFollowProfile(profile: Profile, overflow: bool)
    ensures var patches, modes := CollectedPatches(profile, overflow), CollectedModes(profile, overflow);
            && (patches.Exact? <==> profile.hasPatch && !overflow) &&
               (modes.Exact? <==> profile.hasNewMode && !overflow)
            && (!profile.hasPatch ==> patches == NonExact("unavailable", "change_provider_unsupported"))
            && (!profile.hasNewMode ==> modes == NonExact("unavailable", "change_provider_unsupported"))
            && (profile.hasPatch && overflow ==> patches == NonExact("estimated", "change_request_overflow"))
            && (profile.hasNewMode && overflow ==> modes == NonExact("estimated", "change_request_overflow"))
  {
  }

  /** The rows carry honest patch claims, which pass the content checks when no pair of paths repeats. */
  lemma {:induction false} ItemsAgree(digest: ProviderKeys.Digest, kind: string, profile: Profile, items: seq<Item>)
    requires CollisionFree(digest) && Selected(profile, items)
    requires AllAcceptable(items)
    requires forall i, j :: 0 <= i < j < |items| ==>
          items[i].oldPath != items[j].oldPath || items[i].path != items[j].path
    ensures var rows := Rows(digest, kind, profile, items); ContentsAgree(Files(rows), Contents(rows))
  {
    var rows := Rows(digest, kind, profile, items);
    forall i, j | 0 <= i < j < |rows|
      ensures rows[i].file.key != rows[j].file.key
    {
      if rows[i].file.key == rows[j].file.key {
        ProviderKeys.FileKeyInjective(digest, kind, profile.id, items[i].oldPath, items[i].path, items[j].oldPath,
                                      items[j].path);
      }
    }
    BuiltContentsAgree(rows);
  }

  /** The claim for the whole list ignores the files: it says exact exactly when every file's patch is exact if and
      only if no item of a list read to its end lacks its patch. */
  lemma {:induction false} AggregateIsHonest(digest: ProviderKeys.Digest, kind: string, profile: Profile,
                                             items: seq<Item>, overflow: bool)
    requires profile.hasPatch && AllAcceptable(items)
    ensures var rows := Rows(digest, kind, profile, items);
            (CollectedPatches(profile, overflow).Exact? <==> !overflow && AllPatchesExact(rows))
            <==> overflow || forall i :: 0 <= i < |items| ==> items[i].patch != ""
  {
    var rows := Rows(digest, kind, profile, items);
    assert forall i :: 0 <= i < |items| ==> (rows[i].file.patchAssessment.Exact? <==> items[i].patch != "");
  }

  /** A list with one item that lacks its patch is claimed exact although the file is not. */
  lemma {:induction false} AggregateClaimsTooMuch(digest: ProviderKeys.Digest)
    ensures var profile, items := Profile("p", true, true), [Item("a", "", Some(Modified), "100644", "100644", "")];
            && Selected(profile, items) && AllAcceptable(items)
            && CollectedPatches(profile, false).Exact? && !AllPatchesExact(Rows(digest, "openapi", profile, items))
  {
    var profile, items := Profile("p", true, true), [Item("a", "", Some(Modified), "100644", "100644", "")];
    OneSegmentIsSafe("a");
    assert Rows(digest, "openapi", profile, items)[0].file.patchAssessment == MISSING_PATCH;
  }

  /** The claim for the modes ignores the files likewise: it is honest if and only if the list overflowed or every item
      has both its modes. */
  lemma {:induction false} ModesAggregateIsHonest(digest: ProviderKeys.Digest, kind: string, profile: Profile,
                                                  items: seq<Item>, overflow: bool)
    requires profile.hasNewMode && AllAcceptable(items)
    ensures var rows := Rows(digest, kind, profile, items);
            (CollectedModes(profile, overflow).Exact? <==> !overflow && AllModesKnown(rows))
            <==> overflow || forall i :: 0 <= i < |items| ==> items[i].oldMode != "" && items[i].newMode != ""
  {
    var rows := Rows(digest, kind, profile, items);
    assert forall i :: 0 <= i < |items| ==>
          rows[i].file.oldMode == items[i].oldMode && rows[i].file.newMode == items[i].newMode;
  }

  /** An item without its new mode is claimed to have known modes. */
  lemma {:induction false} ModesClaimTooMuch(digest: ProviderKeys.Digest)
    ensures var profile, items := Profile("p", true, true), [Item("a", "", Some(Modified), "100644", "", "patch")];
            && Selected(profile, items) && AllAcceptable(items)
            && CollectedModes(profile, false).Exact? && !AllModesKnown(Rows(digest, "openapi", profile, items))
  {
    var profile, items := Profile("p", true, true), [Item("a", "", Some(Modified), "100644", "", "patch")];
    OneSegmentIsSafe("a");
    assert Rows(digest, "openapi", profile, items)[0].file.newMode == "";
  }

  // ---------------------------------------------------------------- the manifest digest

  function ManifestLine(file: FileChange): string {
    StatusText(file.status) + [':'] + (file.oldDisplayPath + [':'] + file.displayPath)
  }

  function Lines(files: seq<FileChange>): (r: seq<string>)
    ensures |r| == |files| && forall i :: 0 <= i < |files| ==> r[i] == ManifestLine(files[i])
  {
    seq(|files|, i requires 0 <= i < |files| => ManifestLine(files[i]))
  }

  /** The text whose hash is the manifest digest. */
  function ManifestText(files: seq<FileChange>): string {
    Texts.Join(Sort(LexLe, Lines(files)), "\n")
  }

  /** It does not depend on the order of the files. */
  lemma {:induction false} ManifestIgnoresOrder(files: seq<FileChange>, others: seq<FileChange>)
    requires multiset(Lines(files)) == multiset(Lines(others))
    ensures ManifestText(files) == ManifestText(others)
  {
    LexLeTotal();
    SortOfPermutation(LexLe, Lines(files), Lines(others));
  }

  predicate Avoids(f: FileChange, c: char) {
    c !in f.oldDisplayPath && c !in f.displayPath
  }

  /** No path holds the character. */
  predicate PathsAvoid(files: seq<FileChange>, c: char) {
    forall i :: 0 <= i < |files| ==> Avoids(files[i], c)
  }

  lemma {:induction false} LinesAreClean(files: seq<FileChange>)
    requires PathsAvoid(files, '\n')
    ensures Texts.Clean('\n', Lines(files))
  {
    forall i | 0 <= i < |files|
      ensures '\n' !in ManifestLine(files[i])
    {
      assert '\n' !in StatusText(files[i].status);
    }
  }

  lemma {:induction false} SortedStaysClean(lines: seq<string>)
    requires Texts.Clean('\n', lines)
    ensures Texts.Clean('\n', Sort(LexLe, lines)) && |Sort(LexLe, lines)| == |lines|
  {
    var sorted := Sort(LexLe, lines);
    MemberOfMultiset(sorted, lines);
    assert forall i :: 0 <= i < |sorted| ==> sorted[i] in lines;
  }

  lemma {:induction false} EmptyManifest(files: seq<FileChange>)
    ensures ManifestText(files) == "" <==> files == []
  {
    var sorted := Sort(LexLe, Lines(files));
    MemberOfMultiset(sorted, Lines(files));
    if files != [] {
      assert sorted[0] in Lines(files);
      var i :| 0 <= i < |files| && Lines(files)[i] == sorted[0];
      assert ManifestLine(files[i]) != "";
    }
  }

  /** Between lists whose paths hold no line break it determines the lines. */
  lemma {:induction false} ManifestDeterminesLines(files: seq<FileChange>, others: seq<FileChange>)
    requires PathsAvoid(files, '\n') && PathsAvoid(others, '\n')
    ensures ManifestText(files) == ManifestText(others) <==> multiset(Lines(files)) == multiset(Lines(others))
  {
    if multiset(Lines(files)) == multiset(Lines(others)) { ManifestIgnoresOrder(files, others); }
    if ManifestText(files) == ManifestText(others) {
      EmptyManifest(files);
      EmptyManifest(others);
      if files != [] {
        var a, b := Sort(LexLe, Lines(files)), Sort(LexLe, Lines(others));
        LinesAreClean(files);
        LinesAreClean(others);
        SortedStaysClean(Lines(files));
        SortedStaysClean(Lines(others));
        Texts.SplitOfJoin(a, '\n');
        Texts.SplitOfJoin(b, '\n');
      }
    }
  }

  /** A file that the builder accepts. */
  predicate Servable(f: FileChange) {
    ProviderKeys.SafeProviderPath(f.displayPath) && (f.oldDisplayPath == "" || ProviderKeys.SafeProviderPath(f.oldDisplayPath))
  }

  predicate AllServable(files: seq<FileChange>) {
    forall i :: 0 <= i < |files| ==> Servable(files[i])
  }

  lemma {:induction false} BuiltFilesAreServable(digest: ProviderKeys.Digest, kind: string, profile: Profile,
                                                 items: seq<Item>)
    requires AllAcceptable(items)
    ensures AllServable(Files(Rows(digest, kind, profile, items)))
  {
    var rows := Rows(digest, kind, profile, items);
    assert forall i :: 0 <= i < |rows| ==>
          Acceptable(items[i]) && rows[i].file == RowOf(digest, kind, profile, i, items[i]).file;
  }

  /** The two paths as they stand in the line. */
  function Joined(f: FileChange): string {
    f.oldDisplayPath + [':'] + f.displayPath
  }

  // ---------------------------------------------------------------- line breaks

  lemma {:induction false} OneFile(f: FileChange)
    ensures Lines([f]) == [ManifestLine(f)] && ManifestText([f]) == ManifestLine(f)
  {
    assert Lines([f]) == [ManifestLine(f)];
    assert Sort(LexLe, [ManifestLine(f)]) == [ManifestLine(f)];
  }

  /** The sorted lines' first file, its path carrying the rest of the text behind a line break. */
  lemma {:induction false} LineWithRest(f: FileChange, rest: string)
    ensures ManifestLine(f.(displayPath := f.displayPath + (['\n'] + rest))) == ManifestLine(f) + (['\n'] + rest)
  {
    var h, o := StatusText(f.status) + [':'], f.oldDisplayPath + [':'];
    assert h + (o + (f.displayPath + (['\n'] + rest))) == h + (o + f.displayPath) + (['\n'] + rest);
  }

  lemma {:induction false} FirstLine(files: seq<FileChange>) returns (f: FileChange)
    requires files != []
    ensures |Sort(LexLe, Lines(files))| == |files| && f in files && ManifestLine(f) == Sort(LexLe, Lines(files))[0]
  {
    var sorted := Sort(LexLe, Lines(files));
    MemberOfMultiset(sorted, Lines(files));
    assert sorted[0] in Lines(files);
    var i :| 0 <= i < |files| && Lines(files)[i] == sorted[0];
    f := files[i];
  }

  /** A text whose segments could stand in a path of any length. */
  predicate PathLike(s: string) {
    '\0' !in s && forall i :: 0 <= i < |Texts.Split(s, '/')| ==> Texts.Split(s, '/')[i] !in {"", ".", ".."}
  }

  /** Path-like texts do not start or end with a separator. */
  lemma {:induction false} PathLikeEdges(s: string)
    requires PathLike(s)
    ensures s != "" && s[0] != '/' && s[|s| - 1] != '/'
  {
    assert Texts.Split(s, '/')[0] != "";
    var n := |s| - 1;
    var parts := Texts.Split(s[..n], '/');
    assert Texts.Welded(parts, ["", ""])[|parts|] == "";
    assert "/"[1..] == "" && Texts.Split("/", '/') == ["", ""];
    Texts.SplitOfAppend(s[..n], "/", '/');
    assert s == s[..n] + [s[n]];
  }

  /** Glued by a text that does not start with a dot, path-like texts are path-like. */
  lemma {:induction false} Glued(a: string, glue: string, b: string)
    requires PathLike(a) && PathLike(b) && glue != "" && glue[0] != '.' && '/' !in glue && '\0' !in glue
    ensures PathLike(a + (glue + b))
  {
    var x, y := Texts.Split(a, '/'), Texts.Split(b, '/');
    Texts.SplitOfPrefix(glue, b, '/');
    Texts.SplitOfAppend(a, glue + b, '/');
    var middle := x[|x| - 1] + (glue + y[0]);
    assert middle[|x[|x| - 1]|] == glue[0];
  }

  lemma {:induction false} JoinedIsPathLike(f: FileChange)
    requires Servable(f) && f.oldDisplayPath != ""
    ensures PathLike(Joined(f))
  {
    Glued(f.oldDisplayPath, [':'], f.displayPath);
    assert Joined(f) == f.oldDisplayPath + ([':'] + f.displayPath);
  }

  lemma {:induction false} LineGlued(a: string, f: FileChange)
    requires PathLike(a) && Servable(f)
    ensures PathLike(a + (['\n'] + ManifestLine(f)))
  {
    var status := StatusText(f.status);
    var glue := ['\n'] + status + [':'];
    assert '/' !in status && '\0' !in status;
    if f.oldDisplayPath == "" {
      Glued(a, glue + [':'], f.displayPath);
      assert (glue + [':']) + f.displayPath == ['\n'] + ManifestLine(f);
    } else {
      JoinedIsPathLike(f);
      Glued(a, glue, Joined(f));
      assert glue + Joined(f) == ['\n'] + ManifestLine(f);
    }
  }

  ghost predicate ServedLines(lines: seq<string>) {
    forall i :: 0 <= i < |lines| ==> exists f :: Servable(f) && ManifestLine(f) == lines[i]
  }

  lemma {:induction false} ServedLineGlued(a: string, line: string)
    requires PathLike(a) && ServedLines([line])
    ensures PathLike(a + (['\n'] + line))
  {
    assert [line][0] == line;
    var f :| Servable(f) && ManifestLine(f) == line;
    LineGlued(a, f);
  }

  lemma {:induction false} LinesGlued(a: string, lines: seq<string>)
    requires PathLike(a) && ServedLines(lines) && lines != []
    ensures PathLike(a + (['\n'] + Texts.Join(lines, "\n")))
    decreases |lines|
  {
    ServedLineGlued(a, lines[0]);
    if |lines| > 1 {
      var longer, rest := a + (['\n'] + lines[0]), lines[1..];
      assert ServedLines(rest) by { assert forall i :: 0 <= i < |rest| ==> rest[i] == lines[i + 1]; }
      LinesGlued(longer, rest);
      JoinHasBreak(lines);
      BreaksAssociate(a, lines[0], Texts.Join(rest, "\n"));
    }
  }

  lemma {:induction false} BreaksAssociate(a: string, line: string, rest: string)
    ensures (a + (['\n'] + line)) + (['\n'] + rest) == a + (['\n'] + (line + (['\n'] + rest)))
  {
  }

  lemma {:induction false} SortedLinesServed(files: seq<FileChange>)
    requires AllServable(files)
    ensures ServedLines(Sort(LexLe, Lines(files)))
  {
    var sorted := Sort(LexLe, Lines(files));
    MemberOfMultiset(sorted, Lines(files));
    forall k | 0 <= k < |sorted|
      ensures exists f :: Servable(f) && ManifestLine(f) == sorted[k]
    {
      assert sorted[k] in Lines(files);
      var i :| 0 <= i < |files| && Lines(files)[i] == sorted[k];
      assert Servable(files[i]);
    }
  }

  lemma {:induction false} JoinHasBreak(lines: seq<string>)
    requires |lines| >= 2
    ensures Texts.Join(lines, "\n") == lines[0] + (['\n'] + Texts.Join(lines[1..], "\n")) &&
            '\n' in Texts.Join(lines, "\n")
  {
    var rest := Texts.Join(lines[1..], "\n");
    assert lines[0] + "\n" + rest == lines[0] + (['\n'] + rest);
    assert (lines[0] + (['\n'] + rest))[|lines[0]|] == '\n';
  }

  /** Any list of at least two files shares its text with a single file, whose path holds the rest of the list behind a
      line break; the builder accepts it if the text is no longer than a path may be. */
  lemma {:induction false} SwallowedByLineBreak(files: seq<FileChange>) returns (other: FileChange)
    requires |files| >= 2
    ensures ManifestText([other]) == ManifestText(files)
    ensures AllServable(files) && |ManifestText(files)| <= 4096 ==> Servable(other)
  {
    var f := FirstLine(files);
    var sorted := Sort(LexLe, Lines(files));
    var rest := Texts.Join(sorted[1..], "\n");
    JoinHasBreak(sorted);
    other := f.(displayPath := f.displayPath + (['\n'] + rest));
    LineWithRest(f, rest);
    OneFile(other);
    if AllServable(files) && |ManifestText(files)| <= 4096 { SwallowedIsServable(files, f, sorted, other); }
  }

  lemma {:induction false} SwallowedIsServable(files: seq<FileChange>, f: FileChange, sorted: seq<string>,
                                               other: FileChange)
    requires AllServable(files) && f in files && sorted == Sort(LexLe, Lines(files)) && |sorted| >= 2
    requires other == f.(displayPath := f.displayPath + (['\n'] + Texts.Join(sorted[1..], "\n")))
    requires |ManifestLine(other)| <= 4096
    ensures Servable(other)
  {
    SortedLinesServed(files);
    assert forall k :: 0 <= k < |sorted[1..]| ==> sorted[1..][k] == sorted[k + 1];
    GluedIsServable(f, sorted[1..], other);
  }

  lemma {:induction false} GluedIsServable(f: FileChange, lines: seq<string>, other: FileChange)
    requires Servable(f) && lines != [] && ServedLines(lines) && |ManifestLine(other)| <= 4096
    requires other == f.(displayPath := f.displayPath + (['\n'] + Texts.Join(lines, "\n")))
    ensures Servable(other)
  {
    LinesGlued(f.displayPath, lines);
    PathLikeEdges(other.displayPath);
  }

  /** A text without a line break comes from at most one file. */
  lemma {:induction false} OneLineText(files: seq<FileChange>)
    requires '\n' !in ManifestText(files) && files != []
    ensures |files| == 1
  {
    var f := FirstLine(files);
    if |files| >= 2 { JoinHasBreak(Sort(LexLe, Lines(files))); }
  }

  /** Among the lists that the builder accepts, one without line breaks, whose text is no longer than a path may be, is
      determined by its text exactly when it has at most one file. */
  lemma {:induction false} LineBreaksCollideExactly(files: seq<FileChange>)
    requires AllServable(files) && PathsAvoid(files, '\n') && (|files| <= 1 || |ManifestText(files)| <= 4096)
    ensures (forall others :: AllServable(others) && ManifestText(others) == ManifestText(files) ==>
               multiset(Lines(others)) == multiset(Lines(files)))
       <==> |files| <= 1
  {
    if |files| >= 2 {
      var other := SwallowedByLineBreak(files);
      assert AllServable([other]);
      assert |multiset(Lines([other]))| == 1 && |multiset(Lines(files))| == |files|;
    } else {
      forall others | AllServable(others) && ManifestText(others) == ManifestText(files)
        ensures multiset(Lines(others)) == multiset(Lines(files))
      {
        EmptyManifest(files);
        EmptyManifest(others);
        if files != [] { SameSingleFile(files, others); }
      }
    }
  }

  lemma {:induction false} SameSingleFile(files: seq<FileChange>, others: seq<FileChange>)
    requires |files| == 1 && PathsAvoid(files, '\n') && others != [] && ManifestText(others) == ManifestText(files)
    ensures multiset(Lines(others)) == multiset(Lines(files))
  {
    assert files == [files[0]];
    OneFile(files[0]);
    LinesAreClean(files);
    assert Lines(files)[0] == ManifestText(files);
    OneLineText(others);
    assert others == [others[0]];
    OneFile(others[0]);
  }

  // ---------------------------------------------------------------- colons

  datatype Entry = Entry(status: FileStatus, oldPath: string, path: string)

  function EntryOf(file: FileChange): Entry {
    Entry(file.status, file.oldDisplayPath, file.displayPath)
  }

  function Entries(files: seq<FileChange>): (r: seq<Entry>)
    ensures |r| == |files| && forall i :: 0 <= i < |files| ==> r[i] == EntryOf(files[i])
  {
    seq(|files|, i requires 0 <= i < |files| => EntryOf(files[i]))
  }

  lemma {:induction false} CutAtColon(a: string, rest: string, b: string, tail: string)
    requires ':' !in a && ':' !in b && a + [':'] + rest == b + [':'] + tail
    ensures a == b && rest == tail
  {
    var u, v := a + [':'] + rest, b + [':'] + tail;
    assert u[|a|] == ':' && v[|b|] == ':';
    assert forall i :: 0 <= i < |a| ==> u[i] == a[i];
    assert forall i :: 0 <= i < |b| ==> v[i] == b[i];
    assert |a| == |b|;
    assert a == u[..|a|] && b == v[..|b|] && rest == u[|a| + 1..] && tail == v[|b| + 1..];
  }

  /** Among files whose old paths hold no colon a line has one reading. */
  lemma {:induction false} LineInjective(f: FileChange, g: FileChange)
    requires ManifestLine(f) == ManifestLine(g) && ':' !in f.oldDisplayPath && ':' !in g.oldDisplayPath
    ensures EntryOf(f) == EntryOf(g)
  {
    var s, t := StatusText(f.status), StatusText(g.status);
    CutAtColon(s, f.oldDisplayPath + [':'] + f.displayPath, t, g.oldDisplayPath + [':'] + g.displayPath);
    CutAtColon(f.oldDisplayPath, f.displayPath, g.oldDisplayPath, g.displayPath);
    StatusTextInjective(f.status, g.status);
  }

  /** The line's paths read with the cut at another place. */
  function CutAt(f: FileChange, k: nat): FileChange
    requires k < |Joined(f)|
  {
    f.(oldDisplayPath := Joined(f)[..k], displayPath := Joined(f)[k + 1..])
  }

  /** The line has a second reading as a file that the builder accepts: another colon has acceptable paths on both sides. */
  predicate RereadAt(f: FileChange, k: nat) {
    k < |Joined(f)| && Joined(f)[k] == ':' && k != |f.oldDisplayPath| && Servable(CutAt(f, k))
  }

  predicate Rereadable(f: FileChange) {
    exists k: nat | k < |Joined(f)| :: RereadAt(f, k)
  }

  lemma {:induction false} CutHasSameLine(f: FileChange, k: nat)
    requires k < |Joined(f)| && Joined(f)[k] == ':' && k != |f.oldDisplayPath|
    ensures ManifestLine(CutAt(f, k)) == ManifestLine(f) && EntryOf(CutAt(f, k)) != EntryOf(f)
  {
    var u := Joined(f);
    assert u[..k] + [':'] + u[k + 1..] == u;
    assert ManifestLine(CutAt(f, k)) == StatusText(f.status) + [':'] + u;
    assert |CutAt(f, k).oldDisplayPath| != |f.oldDisplayPath|;
  }

  /** Every file with the same line is one of its readings. */
  lemma {:induction false} SameLineIsCut(f: FileChange, g: FileChange)
    requires ManifestLine(f) == ManifestLine(g)
    ensures var k := |g.oldDisplayPath|;
            && k < |Joined(f)| && Joined(f)[k] == ':' && EntryOf(CutAt(f, k)) == EntryOf(g)
            && (k == |f.oldDisplayPath| ==> EntryOf(f) == EntryOf(g))
  {
    CutAtColon(StatusText(f.status), Joined(f), StatusText(g.status), Joined(g));
    StatusTextInjective(f.status, g.status);
    var u, k := Joined(g), |g.oldDisplayPath|;
    assert u[k] == ':' && u[..k] == g.oldDisplayPath && u[k + 1..] == g.displayPath;
    assert Joined(f)[..|f.oldDisplayPath|] == f.oldDisplayPath && Joined(f)[|f.oldDisplayPath| + 1..] == f.displayPath;
  }

  lemma {:induction false} OneReading(f: FileChange, g: FileChange)
    requires ManifestLine(f) == ManifestLine(g) && Servable(g) && !Rereadable(f)
    ensures EntryOf(f) == EntryOf(g)
  {
    SameLineIsCut(f, g);
    assert !RereadAt(f, |g.oldDisplayPath|);
  }

  /** Among the files that the builder accepts, a line has one reading exactly when no other colon in it has acceptable
      paths on both sides. */
  lemma {:induction false} LineReadableExactly(f: FileChange)
    ensures (forall g :: Servable(g) && ManifestLine(g) == ManifestLine(f) ==> EntryOf(g) == EntryOf(f))
        <==> !Rereadable(f)
  {
    if Rereadable(f) {
      var k: nat :| k < |Joined(f)| && RereadAt(f, k);
      CutHasSameLine(f, k);
    } else {
      forall g | Servable(g) && ManifestLine(g) == ManifestLine(f)
        ensures EntryOf(g) == EntryOf(f)
      {
        OneReading(f, g);
      }
    }
  }

  /** Some colon is needed, and not every colon suffices. */
  lemma {:induction false} RereadNeedsColon(f: FileChange)
    requires ':' !in f.oldDisplayPath && ':' !in f.displayPath
    ensures !Rereadable(f)
  {
  }

  lemma {:induction false} ColonAtTheEnd(f: FileChange)
    requires f.oldDisplayPath == "" && f.displayPath == "a:"
    ensures Servable(f) && !Rereadable(f)
  {
    OneSegmentIsSafe("a:");
    assert Joined(f) == ":a:";
    assert CutAt(f, 2).displayPath == "";
  }

  function Without(files: seq<FileChange>, i: nat): (r: seq<FileChange>)
    requires i < |files|
    ensures |r| == |files| - 1 && forall j :: 0 <= j < |r| ==> r[j] in files
  {
    files[..i] + files[i + 1..]
  }

  lemma {:induction false} RemoveAt<T>(s: seq<T>, i: nat)
    requires i < |s|
    ensures multiset(s) == multiset(s[..i] + s[i + 1..]) + multiset{s[i]}
  {
    assert s == s[..i] + [s[i]] + s[i + 1..];
  }

  lemma {:induction false} LinesWithout(files: seq<FileChange>, i: nat)
    requires i < |files|
    ensures Lines(Without(files, i)) == Lines(files)[..i] + Lines(files)[i + 1..]
  {
  }

  lemma {:induction false} EntriesWithout(files: seq<FileChange>, i: nat)
    requires i < |files|
    ensures Entries(Without(files, i)) == Entries(files)[..i] + Entries(files)[i + 1..]
  {
  }

  lemma {:induction false} RemoveFile(files: seq<FileChange>, i: nat)
    requires i < |files|
    ensures multiset(Lines(files)) == multiset(Lines(Without(files, i))) + multiset{ManifestLine(files[i])}
    ensures multiset(Entries(files)) == multiset(Entries(Without(files, i))) + multiset{EntryOf(files[i])}
  {
    RemoveAt(Lines(files), i);
    RemoveAt(Entries(files), i);
    LinesWithout(files, i);
    EntriesWithout(files, i);
  }

  lemma {:induction false} FileOfLine(files: seq<FileChange>, others: seq<FileChange>) returns (i: nat)
    requires multiset(Lines(files)) == multiset(Lines(others)) && others != []
    ensures |files| == |others| && i < |files| && ManifestLine(files[i]) == ManifestLine(others[0])
  {
    MemberOfMultiset(Lines(files), Lines(others));
    assert Lines(others)[0] in Lines(files);
    i :| 0 <= i < |files| && Lines(files)[i] == Lines(others)[0];
  }

  /** No file has a second reading. */
  predicate AllReadOnce(files: seq<FileChange>) {
    forall i :: 0 <= i < |files| ==> !Rereadable(files[i])
  }

  /** Lines in any order determine statuses and paths in any order, when the lines of one side have one reading. */
  lemma {:induction false} LinesDetermineEntries(files: seq<FileChange>, others: seq<FileChange>)
    requires AllReadOnce(files) && AllServable(others) && multiset(Lines(files)) == multiset(Lines(others))
    ensures multiset(Entries(files)) == multiset(Entries(others))
    decreases |others|
  {
    if others == [] {
      MemberOfMultiset(Lines(files), Lines(others));
      assert files == [];
    } else {
      var i := FileOfLine(files, others);
      OneReading(files[i], others[0]);
      RemoveFile(files, i);
      RemoveFile(others, 0);
      var line := multiset{ManifestLine(files[i])};
      assert multiset(Lines(Without(files, i))) == multiset(Lines(files)) - line == multiset(Lines(Without(others, 0)));
      LinesDetermineEntries(Without(files, i), Without(others, 0));
    }
  }

  lemma {:induction false} OneEntryChanged(files: seq<FileChange>, i: nat, g: FileChange)
    requires i < |files| && ManifestLine(g) == ManifestLine(files[i]) && EntryOf(g) != EntryOf(files[i])
    ensures var others := files[i := g];
            Lines(others) == Lines(files) && multiset(Entries(others)) != multiset(Entries(files))
  {
    var others := files[i := g];
    assert Lines(others) == Lines(files);
    RemoveFile(files, i);
    RemoveFile(others, i);
    assert Without(others, i) == Without(files, i);
    var rest := multiset(Entries(Without(files, i)));
    assert multiset(Entries(files))[EntryOf(g)] == rest[EntryOf(g)];
    assert multiset(Entries(others))[EntryOf(g)] == rest[EntryOf(g)] + 1;
  }

  /** Among lists that the builder accepts and that hold no line breaks, the digest determines statuses and paths, in any
      order, exactly when no line has a second reading (up to a collision of the hash). */
  lemma {:induction false} DigestDeterminesFilesExactly(digest: ProviderKeys.Digest, files: seq<FileChange>)
    requires CollisionFree(digest) && AllServable(files) && PathsAvoid(files, '\n')
    ensures (forall others :: AllServable(others) && PathsAvoid(others, '\n') && digest(ManifestText(others)) == digest(ManifestText(files)) ==>
               multiset(Entries(others)) == multiset(Entries(files)))
       <==> AllReadOnce(files)
  {
    if AllReadOnce(files) {
      forall others | AllServable(others) && PathsAvoid(others, '\n') && digest(ManifestText(others)) == digest(ManifestText(files))
        ensures multiset(Entries(others)) == multiset(Entries(files))
      {
        ManifestDeterminesLines(files, others);
        LinesDetermineEntries(files, others);
      }
    } else {
      var others := DigestTwin(files);
      assert digest(ManifestText(others)) == digest(ManifestText(files));
    }
  }

  lemma {:induction false} DigestTwin(files: seq<FileChange>) returns (others: seq<FileChange>)
    requires AllServable(files) && PathsAvoid(files, '\n') && !AllReadOnce(files)
    ensures AllServable(others) && PathsAvoid(others, '\n') && ManifestText(others) == ManifestText(files)
    ensures multiset(Entries(others)) != multiset(Entries(files))
  {
    var i :| 0 <= i < |files| && Rereadable(files[i]);
    var g := SecondReading(files[i]);
    OneEntryChanged(files, i, g);
    others := files[i := g];
    ManifestIgnoresOrder(files, others);
    OneServed(files, i, g);
  }

  lemma {:induction false} OneServed(files: seq<FileChange>, i: nat, g: FileChange)
    requires i < |files| && AllServable(files) && PathsAvoid(files, '\n') && Servable(g) && Avoids(g, '\n')
    ensures AllServable(files[i := g]) && PathsAvoid(files[i := g], '\n')
  {
  }

  lemma {:induction false} SecondReading(f: FileChange) returns (g: FileChange)
    requires Rereadable(f)
    ensures Servable(g) && ManifestLine(g) == ManifestLine(f) && EntryOf(g) != EntryOf(f)
    ensures Avoids(f, '\n') ==> Avoids(g, '\n')
  {
    var k: nat :| k < |Joined(f)| && RereadAt(f, k);
    g := CutAt(f, k);
    CutHasSameLine(f, k);
    assert Avoids(f, '\n') ==> '\n' !in Joined(f);
  }

  // ---------------------------------------------------------------- colliding lists

  /** Two different renames share a digest. */
  lemma {:induction false} ColonsCollide(f: FileChange, g: FileChange)
    requires f.status == g.status == Renamed
    requires f.oldDisplayPath == "a:b" && f.displayPath == "c" && g.oldDisplayPath == "a" && g.displayPath == "b:c"
    ensures f != g && Servable(f) && Servable(g) && ManifestText([f]) == ManifestText([g])
  {
    assert "a:b" + [':'] + "c" == "a" + [':'] + "b:c";
    OneSegmentIsSafe("a:b");
    OneSegmentIsSafe("c");
    OneSegmentIsSafe("a");
    OneSegmentIsSafe("b:c");
    OneFile(f);
    OneFile(g);
  }

  /** Two added files share their digest with one added file whose path, though safe, holds a line break. */
  lemma {:induction false} LineBreaksCollide(a: FileChange, b: FileChange, c: FileChange)
    requires a.status == b.status == c.status == Added && a.oldDisplayPath == b.oldDisplayPath == c.oldDisplayPath == ""
    requires a.displayPath == "a" && b.displayPath == "b" && c.displayPath == "a\nadded::b"
    ensures ManifestText([a, b]) == ManifestText([c])
    ensures ProviderKeys.SafeProviderPath(c.displayPath)
  {
    OneFile(c);
    BreakIsSafe();
    assert ManifestLine(a) == "added::" + "a" && ManifestLine(b) == "added::" + "b";
    LexPrefix("added::", "a", "b");
    TwoFiles(a, b);
    assert "added::" + "a" + "\n" + ("added::" + "b") == "added::" + "a\nadded::b" == ManifestLine(c);
  }

  lemma {:induction false} BreakIsSafe()
    ensures ProviderKeys.SafeProviderPath("a\nadded::b")
  {
    OneSegmentIsSafe("a\nadded::b");
  }

  lemma {:induction false} OneSegmentIsSafe(path: string)
    requires ProviderKeys.SafeProviderText(path, 4096) && '/' !in path && path != "." && path != ".."
    ensures ProviderKeys.SafeProviderPath(path)
  {
    Texts.SplitOfPrefix(path, "", '/');
    assert path + "" == path;
    assert Texts.Split(path, '/') == [path];
    assert path[0] in path && path[|path| - 1] in path;
  }

  lemma {:induction false} TwoFiles(a: FileChange, b: FileChange)
    requires LexLe(ManifestLine(a), ManifestLine(b))
    ensures ManifestText([a, b]) == ManifestLine(a) + "\n" + ManifestLine(b)
  {
    assert Lines([a, b]) == [ManifestLine(a), ManifestLine(b)];
    SortTwoLines(ManifestLine(a), ManifestLine(b));
  }

  lemma {:induction false} SortTwoLines(x: string, y: string)
    requires LexLe(x, y)
    ensures Sort(LexLe, [x, y]) == [x, y] && Texts.Join([x, y], "\n") == x + "\n" + y
  {
    assert [x, y][1..] == [y];
    assert Sort(LexLe, [y]) == Insert(LexLe, y, []) == [y];
    assert Texts.Join([y], "\n") == y;
  }

  lemma {:induction false} LexPrefix(p: string, a: string, b: string)
    requires LexLess(a, b)
    ensures LexLess(p + a, p + b)
  {
    if p == "" {
      assert p + a == a && p + b == b;
    } else {
      LexPrefix(p[1..], a, b);
      assert (p + a)[1..] == p[1..] + a && (p + b)[1..] == p[1..] + b;
    }
  }
}
