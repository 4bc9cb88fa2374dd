/** Capturing a merge request while the server keeps changing: GetSnapshot of internal/changehost/gitlab_provider.go. */
module GitLabCapture {
  import opened GitLabFiles
  import Ordering
  import Pages
  import ProviderKeys
  import opened SnapshotFiles
  import opened Wrappers

  /** The commit of the merge request and the three of its diff. */
  datatype Anchor = Anchor(sha: string, base: string, start: string, head: string)

  datatype Commit = Commit(sha: string, title: string)

  /** The state of one merge request; summary is what the snapshot takes from it besides. */
  datatype Version = Version(anchor: Anchor, targetProject: int, sourceProject: int, summary: string,
                             diffs: seq<GitLabDiff>, commits: seq<Commit>)

  /** What the i-th read finds; None for a request that fails. */
  type View = nat -> Option<Version>

  datatype Request = Request(digest: ProviderKeys.Digest, objectId: string, project: int, requestedVersion: string,
                             validContract: Snapshot -> bool)

  datatype Snapshot = Snapshot(key: string, anchor: Anchor, summary: string, manifest: string, files: seq<FileChange>,
                               contents: seq<Content>, completeness: Completeness, commits: seq<Commit>)

  datatype ErrorCode = Transport | TooLong | InvalidResponse | NotFound | CaptureRaced | Incomplete

  datatype CaptureResult = Published(snapshot: Snapshot) | Rejected(error: ErrorCode)

  // ---------------------------------------------------------------- collecting

  function DiffServer(view: View, from: nat): nat -> Option<seq<GitLabDiff>> {
    (p: nat) => if p >= 1 && view(from + p - 1).Some? then Some(Pages.Slice(view(from + p - 1).value.diffs, PAGE_SIZE, p)) else None
  }

  function CommitServer(view: View, from: nat): nat -> Option<seq<Commit>> {
    (p: nat) => if p >= 1 && view(from + p - 1).Some? then Some(Pages.Slice(view(from + p - 1).value.commits, PAGE_SIZE, p)) else None
  }

  predicate ValidMergeRequest(request: Request, v: Version) {
    v.targetProject == request.project && v.anchor.base != "" && v.anchor.start != "" && v.anchor.head != ""
  }

  /** The project of a fork takes a read of its own. */
  predicate ReadsSource(request: Request, v: Version) {
    v.sourceProject != request.project && v.sourceProject > 0
  }

  datatype Material = Material(first: Version, diffs: seq<GitLabDiff>, commits: seq<Commit>)

  datatype Collection = Collected(material: Material, next: nat) | CollectFailed(error: ErrorCode, next: nat)

  function Failure<T>(listing: Listing<T>): ErrorCode {
    if listing.TooMany? then TooLong else Transport
  }

  function WithCommits(first: Version, diffs: seq<GitLabDiff>, listing: Listing<Commit>, from: nat): (c: Collection)
    ensures c.next == from + listing.pages
  {
    if listing.Complete? then Collected(Material(first, diffs, listing.items), from + listing.pages)
    else CollectFailed(Failure(listing), from + listing.pages)
  }

  /** The listing that starts at a read. */
  type Lister<!T> = nat -> Listing<T>

  function DiffLister(view: View): Lister<GitLabDiff> {
    (from: nat) => PagesFrom(DiffServer(view, from), 1, [])
  }

  function CommitLister(view: View): Lister<Commit> {
    (from: nat) => PagesFrom(CommitServer(view, from), 1, [])
  }

  function WithDiffs(commits: Lister<Commit>, first: Version, listing: Listing<GitLabDiff>, from: nat): (c: Collection)
    ensures from + listing.pages <= c.next
  {
    if listing.Complete? then WithCommits(first, listing.items, commits(from + listing.pages), from + listing.pages)
    else CollectFailed(Failure(listing), from + listing.pages)
  }

  function CollectLists(diffs: Lister<GitLabDiff>, commits: Lister<Commit>, first: Version, from: nat): (c: Collection)
    ensures from <= c.next
  {
    WithDiffs(commits, first, diffs(from), from)
  }

  /** Merge request, source project if it is another one, diff pages, commit pages. */
  function Collect(diffs: Lister<GitLabDiff>, commits: Lister<Commit>, request: Request, view: View, start: nat)
    : (c: Collection)
    ensures start < c.next
  {
    if view(start).None? then CollectFailed(Transport, start + 1)
    else
      var first := view(start).value;
      if !ValidMergeRequest(request, first) then CollectFailed(Incomplete, start + 1)
      else if !ReadsSource(request, first) then CollectLists(diffs, commits, first, start + 1)
      else if view(start + 1).None? then CollectFailed(Transport, start + 2)
      else CollectLists(diffs, commits, first, start + 2)
  }

  // ---------------------------------------------------------------- publishing

  function Shas(commits: seq<Commit>): (r: seq<string>)
    ensures |r| == |commits| && forall i :: 0 <= i < |commits| ==> r[i] == commits[i].sha
  {
    seq(|commits|, i requires 0 <= i < |commits| => commits[i].sha)
  }

  predicate ValidCommits(commits: seq<Commit>) {
    forall i :: 0 <= i < |commits| ==> ProviderKeys.IsProviderSha(commits[i].sha) && ProviderKeys.SafeProviderText(commits[i].title, 8192)
  }

  function SnapshotOf(request: Request, m: Material, built: Built): Snapshot {
    var anchor := m.first.anchor;
    Snapshot(ProviderKeys.ProviderContentKey(request.digest, "gitlab", request.objectId, "", anchor.start, anchor.base,
                                             anchor.head, built.manifest),
             anchor, m.first.summary, built.manifest, built.files, built.contents, built.completeness, m.commits)
  }

  /** Everything between the collected reads and the second look at the merge request. */
  function Prepare(request: Request, m: Material): CaptureResult {
    var built := BuildGitLab(request.digest, request.objectId, m.diffs, Shas(m.commits));
    if built.None? then Rejected(InvalidResponse)
    else
      var snapshot := SnapshotOf(request, m, built.value);
      if request.requestedVersion != "" && request.requestedVersion != snapshot.key then Rejected(NotFound) else Published(snapshot)
  }

  function Preparer(request: Request): Material -> CaptureResult {
    m => Prepare(request, m)
  }

  /** The checks after the anchor held. */
  ghost function Finish(request: Request, prepared: CaptureResult): CaptureResult {
    if prepared.Rejected? then prepared
    else if !ValidCommits(prepared.snapshot.commits) || !request.validContract(prepared.snapshot)
            || !ContentsAgree(prepared.snapshot.files, prepared.snapshot.contents)
    then Rejected(InvalidResponse)
    else prepared
  }

  datatype Run = Run(result: CaptureResult, next: nat)

  /** The second look decides about what was prepared. */
  ghost function Conclude(request: Request, prepared: CaptureResult, view: View, next: nat): Run {
    if prepared.Rejected? then Run(prepared, next)
    else if view(next).None? then Run(Rejected(Transport), next + 1)
    else if view(next).value.anchor != prepared.snapshot.anchor then Run(Rejected(CaptureRaced), next + 1)
    else Run(Finish(request, prepared), next + 1)
  }

  function Prepared(prepare: Material -> CaptureResult, c: Collection): CaptureResult {
    if c.CollectFailed? then Rejected(c.error) else prepare(c.material)
  }

  /** The protocol, whatever is prepared from the collected material. */
  ghost function CaptureBy(prepare: Material -> CaptureResult, diffs: Lister<GitLabDiff>, commits: Lister<Commit>,
                           request: Request, view: View, start: nat): Run
  {
    ConcludeCollection(prepare, request, view, Collect(diffs, commits, request, view, start))
  }

  ghost function ConcludeCollection(prepare: Material -> CaptureResult, request: Request, view: View, c: Collection)
    : Run
  {
    Conclude(request, Prepared(prepare, c), view, c.next)
  }

  /** GetSnapshot from its first look at the merge request on. */
  ghost function Capture(request: Request, view: View, start: nat): Run {
    CaptureBy(Preparer(request), DiffLister(view), CommitLister(view), request, view, start)
  }

  /** The capture of one fixed version, without paging or races. */
  ghost function CaptureOfBy(prepare: Material -> CaptureResult, request: Request, v: Version): CaptureResult {
    if !ValidMergeRequest(request, v) then Rejected(Incomplete)
    else if |v.diffs| >= PAGE_SIZE * MAX_PAGES || |v.commits| >= PAGE_SIZE * MAX_PAGES then Rejected(TooLong)
    else Finish(request, prepare(Material(v, v.diffs, v.commits)))
  }

  ghost function CaptureOf(request: Request, v: Version): CaptureResult {
    CaptureOfBy(Preparer(request), request, v)
  }

  // ---------------------------------------------------------------- interleavings

  ghost predicate SameContent(v: Version, w: Version) {
    v.diffs == w.diffs && v.commits == w.commits
  }

  /** Every successful read of the window saw the content of v. */
  ghost predicate StableWindow(view: View, from: nat, to: nat, v: Version) {
    forall i :: from <= i < to && view(i).Some? ==> SameContent(view(i).value, v)
  }

  /** A listing over a window in which the list did not change. */
  ghost predicate ListsWhole<T(!new)>(lister: Lister<T>, view: View, v: Version, list: seq<T>) {
    forall from: nat :: ListsWholeFrom(lister, view, v, list, from)
  }

  ghost predicate ListsWholeFrom<T(!new)>(lister: Lister<T>, view: View, v: Version, list: seq<T>, from: nat) {
    StableWindow(view, from, from + lister(from).pages, v) && lister(from).Complete? ==>
      lister(from).items == list && |list| < PAGE_SIZE * MAX_PAGES
  }

  lemma {:induction false} DiffsListWhole(view: View, v: Version)
    ensures ListsWhole(DiffLister(view), view, v, v.diffs)
  {
    forall from: nat
      ensures ListsWholeFrom(DiffLister(view), view, v, v.diffs, from)
    {
      var serve := DiffServer(view, from);
      if StableWindow(view, from, from + PagesFrom(serve, 1, []).pages, v) { StableListing(serve, v.diffs, 1, []); }
    }
  }

  lemma {:induction false} CommitsListWhole(view: View, v: Version)
    ensures ListsWhole(CommitLister(view), view, v, v.commits)
  {
    forall from: nat
      ensures ListsWholeFrom(CommitLister(view), view, v, v.commits, from)
    {
      var serve := CommitServer(view, from);
      if StableWindow(view, from, from + PagesFrom(serve, 1, []).pages, v) { StableListing(serve, v.commits, 1, []); }
    }
  }

  lemma {:induction false} StableLists(diffs: Lister<GitLabDiff>, commits: Lister<Commit>, view: View, v: Version,
                                       from: nat)
    requires ListsWhole(diffs, view, v, v.diffs) && ListsWhole(commits, view, v, v.commits)
    requires StableWindow(view, from, CollectLists(diffs, commits, v, from).next, v)
    ensures var c := CollectLists(diffs, commits, v, from);
            c.Collected? ==>
              c.material == Material(v, v.diffs, v.commits)
              && |v.diffs| < PAGE_SIZE * MAX_PAGES && |v.commits| < PAGE_SIZE * MAX_PAGES
  {
    assert ListsWholeFrom(diffs, view, v, v.diffs, from);
    assert ListsWholeFrom(commits, view, v, v.commits, from + diffs(from).pages);
  }

  /** If every read saw the content of the first, collecting it amounts to that one version. */
  lemma {:induction false} CollectStable(diffs: Lister<GitLabDiff>, commits: Lister<Commit>, request: Request,
                                         view: View, start: nat, v: Version)
    requires ListsWhole(diffs, view, v, v.diffs) && ListsWhole(commits, view, v, v.commits)
    requires view(start) == Some(v) && StableWindow(view, start, Collect(diffs, commits, request, view, start).next, v)
    requires Collect(diffs, commits, request, view, start).Collected?
    ensures ValidMergeRequest(request, v) &&
            Collect(diffs, commits, request, view, start).material == Material(v, v.diffs, v.commits)
    ensures |v.diffs| < PAGE_SIZE * MAX_PAGES && |v.commits| < PAGE_SIZE * MAX_PAGES
  {
    StableLists(diffs, commits, view, v, if ReadsSource(request, v) then start + 2 else start + 1);
  }

  /** What a collection is about: the merge request its first read saw. */
  ghost predicate StartsWithFirst(c: Collection, view: View, start: nat) {
    start < c.next && (c.Collected? ==> view(start).Some? && c.material.first == view(start).value)
  }

  lemma {:induction false} CollectStartsWithFirst(diffs: Lister<GitLabDiff>, commits: Lister<Commit>, request: Request,
                                                  view: View, start: nat)
    ensures StartsWithFirst(Collect(diffs, commits, request, view, start), view, start)
  {
  }

  /** What is prepared carries the anchor of the merge request it was prepared from, and the requested key. */
  ghost predicate Honours(prepare: Material -> CaptureResult, requestedVersion: string) {
    forall m :: prepare(m).Published? ==>
      && prepare(m).snapshot.anchor == m.first.anchor
      && (requestedVersion != "" ==> prepare(m).snapshot.key == requestedVersion)
  }

  lemma {:induction false} PreparerHonours(request: Request)
    ensures Honours(Preparer(request), request.requestedVersion)
  {
  }

  lemma {:induction false} ConcludePublished(request: Request, prepared: CaptureResult, view: View, next: nat)
    requires Conclude(request, prepared, view, next).result.Published?
    ensures prepared.Published? && Conclude(request, prepared, view, next) == Run(prepared, next + 1)
    ensures view(next).Some? && view(next).value.anchor == prepared.snapshot.anchor
  {
  }

  lemma {:induction false} ConcludedReadAnchorTwice(prepare: Material -> CaptureResult, request: Request, view: View,
                                                    start: nat, c: Collection)
    requires Honours(prepare, request.requestedVersion) && StartsWithFirst(c, view, start)
    requires ConcludeCollection(prepare, request, view, c).result.Published?
    ensures var run := ConcludeCollection(prepare, request, view, c);
            && start < run.next && view(start).Some? && view(run.next - 1).Some?
            && run.result.snapshot.anchor == view(start).value.anchor == view(run.next - 1).value.anchor
            && (request.requestedVersion != "" ==> run.result.snapshot.key == request.requestedVersion)
  {
    ConcludePublished(request, Prepared(prepare, c), view, c.next);
  }

  lemma {:induction false} PublishedReadAnchorTwice(prepare: Material -> CaptureResult, diffs: Lister<GitLabDiff>,
                                                    commits: Lister<Commit>, request: Request, view: View, start: nat)
    requires Honours(prepare, request.requestedVersion) &&
             CaptureBy(prepare, diffs, commits, request, view, start).result.Published?
    ensures var run := CaptureBy(prepare, diffs, commits, request, view, start);
            && start < run.next && view(start).Some? && view(run.next - 1).Some?
            && run.result.snapshot.anchor == view(start).value.anchor == view(run.next - 1).value.anchor
            && (request.requestedVersion != "" ==> run.result.snapshot.key == request.requestedVersion)
  {
    CollectStartsWithFirst(diffs, commits, request, view, start);
    ConcludedReadAnchorTwice(prepare, request, view, start, Collect(diffs, commits, request, view, start));
  }

  lemma {:induction false} StablePublished(prepare: Material -> CaptureResult, diffs: Lister<GitLabDiff>,
                                           commits: Lister<Commit>, request: Request, view: View, start: nat,
                                           v: Version)
    requires ListsWhole(diffs, view, v, v.diffs) && ListsWhole(commits, view, v, v.commits)
    requires view(start) == Some(v) && CaptureBy(prepare, diffs, commits, request, view, start).result.Published?
    requires StableWindow(view, start, CaptureBy(prepare, diffs, commits, request, view, start).next, v)
    ensures CaptureBy(prepare, diffs, commits, request, view, start).result == CaptureOfBy(prepare, request, v)
  {
    CollectStable(diffs, commits, request, view, start, v);
  }

  /** The server's states over time and the nondecreasing times of the reads. */
  ghost predicate Observes(view: View, timeline: nat -> Version, schedule: nat -> nat) {
    && (forall i, j :: i <= j ==> schedule(i) <= schedule(j))
    && (forall i :: view(i).Some? ==> view(i).value == timeline(schedule(i)))
  }

  /** Between two times with one anchor the content stands still. */
  ghost predicate AnchorsKeepContent(timeline: nat -> Version) {
    forall a, b, c :: a <= b <= c && timeline(a).anchor == timeline(c).anchor ==> SameContent(timeline(b), timeline(a))
  }

  lemma {:induction false} PublishedBy(prepare: Material -> CaptureResult, diffs: Lister<GitLabDiff>,
                                       commits: Lister<Commit>, request: Request, view: View, start: nat,
                                       timeline: nat -> Version, schedule: nat -> nat)
    requires Honours(prepare, request.requestedVersion) && Observes(view, timeline, schedule) &&
             AnchorsKeepContent(timeline)
    requires var v := timeline(schedule(start));
             ListsWhole(diffs, view, v, v.diffs) && ListsWhole(commits, view, v, v.commits)
    requires CaptureBy(prepare, diffs, commits, request, view, start).result.Published?
    ensures var v := timeline(schedule(start));
            var result := CaptureBy(prepare, diffs, commits, request, view, start).result;
            result == CaptureOfBy(prepare, request, v) && result.snapshot.anchor == v.anchor
  {
    PublishedReadAnchorTwice(prepare, diffs, commits, request, view, start);
    var run := CaptureBy(prepare, diffs, commits, request, view, start);
    var v := timeline(schedule(start));
    forall i | start <= i < run.next && view(i).Some?
      ensures SameContent(view(i).value, v)
    {
      assert schedule(start) <= schedule(i) <= schedule(run.next - 1);
    }
    StablePublished(prepare, diffs, commits, request, view, start, v);
  }

  /** Over every interleaving: whatever is published is the capture of the one version that its anchor names. */
  lemma {:induction false} PublishedIsOneVersion(request: Request, view: View, start: nat, timeline: nat -> Version,
                                                 schedule: nat -> nat)
    requires Observes(view, timeline, schedule) && AnchorsKeepContent(timeline)
    requires Capture(request, view, start).result.Published?
    ensures var v := timeline(schedule(start));
            Capture(request, view, start).result == CaptureOf(request, v) && CaptureOf(request, v).snapshot.anchor == v.anchor
  {
    PreparerHonours(request);
    DiffsListWhole(view, timeline(schedule(start)));
    CommitsListWhole(view, timeline(schedule(start)));
    PublishedBy(Preparer(request), DiffLister(view), CommitLister(view), request, view, start, timeline, schedule);
  }

  ghost predicate AnchorMoved(view: View, from: nat, to: nat) {
    view(from).Some? && view(to).Some? && view(to).value.anchor != view(from).value.anchor
  }

  /** A moved anchor publishes nothing, and what is published has the requested key. */
  lemma {:induction false} MovedAnchorPublishesNothing(request: Request, view: View, start: nat)
    ensures var run := Capture(request, view, start);
            && (run.next > start && AnchorMoved(view, start, run.next - 1) ==> run.result.Rejected?)
            && (run.result.Published? && request.requestedVersion != "" ==> run.result.snapshot.key == request.requestedVersion)
  {
    PreparerHonours(request);
    if Capture(request, view, start).result.Published? {
      PublishedReadAnchorTwice(Preparer(request), DiffLister(view), CommitLister(view), request, view, start);
    }
  }

  // ---------------------------------------------------------------- a server at rest

  /** The listing of an unchanged list, wherever it starts. */
  ghost predicate Answers<T(!new)>(lister: Lister<T>, list: seq<T>) {
    forall from: nat :: AnswersFrom(lister, list, from)
  }

  ghost predicate AnswersFrom<T(!new)>(lister: Lister<T>, list: seq<T>, from: nat) {
    if |list| < 10000 then lister(from).Complete? && lister(from).items == list else lister(from).TooMany?
  }

  lemma {:induction false} QuietLists(view: View, v: Version)
    requires forall i :: view(i) == Some(v)
    ensures Answers(DiffLister(view), v.diffs) && Answers(CommitLister(view), v.commits)
  {
    forall from: nat
      ensures AnswersFrom(DiffLister(view), v.diffs, from)
    {
      StableListing(DiffServer(view, from), v.diffs, 1, []);
    }
    forall from: nat
      ensures AnswersFrom(CommitLister(view), v.commits, from)
    {
      StableListing(CommitServer(view, from), v.commits, 1, []);
    }
  }

  lemma {:induction false} QuietCollects(diffs: Lister<GitLabDiff>, commits: Lister<Commit>, request: Request,
                                         view: View, start: nat, v: Version)
    requires (forall i :: view(i) == Some(v)) && Answers(diffs, v.diffs) && Answers(commits, v.commits)
    ensures var c := Collect(diffs, commits, request, view, start);
            if !ValidMergeRequest(request, v) then c.CollectFailed? && c.error == Incomplete
            else if |v.diffs| >= 10000 || |v.commits| >= 10000 then c.CollectFailed? && c.error == TooLong
            else c.Collected? && c.material == Material(v, v.diffs, v.commits)
  {
    var from := if ReadsSource(request, v) then start + 2 else start + 1;
    assert AnswersFrom(diffs, v.diffs, from);
    assert AnswersFrom(commits, v.commits, from + diffs(from).pages);
  }

  lemma {:induction false} QuietBy(prepare: Material -> CaptureResult, diffs: Lister<GitLabDiff>,
                                   commits: Lister<Commit>, request: Request, view: View, start: nat, v: Version)
    requires Honours(prepare, request.requestedVersion)
    requires (forall i :: view(i) == Some(v)) && Answers(diffs, v.diffs) && Answers(commits, v.commits)
    ensures CaptureBy(prepare, diffs, commits, request, view, start).result == CaptureOfBy(prepare, request, v)
  {
    QuietCollects(diffs, commits, request, view, start, v);
  }

  /** A server at rest is captured as its version. */
  lemma {:induction false} QuietServerIsCaptured(request: Request, view: View, start: nat, v: Version)
    requires forall i :: view(i) == Some(v)
    ensures Capture(request, view, start).result == CaptureOf(request, v)
  {
    PreparerHonours(request);
    QuietLists(view, v);
    QuietBy(Preparer(request), DiffLister(view), CommitLister(view), request, view, start, v);
  }

  /** What a version needs to be published: the request's project, a whole anchor, fewer than ten thousand diffs and commits,
      safe paths of which no pair repeats, readable commits. */
  ghost predicate Capturable(request: Request, v: Version) {
    && v.targetProject == request.project && v.anchor.base != "" && v.anchor.start != "" && v.anchor.head != ""
    && |v.diffs| < 10000 && |v.commits| < 10000 && ValidCommits(v.commits)
    && (forall d :: d in v.diffs ==> ProviderKeys.SafeProviderPath(d.oldPath) && ProviderKeys.SafeProviderPath(d.newPath))
    && forall i, j :: 0 <= i < j < |v.diffs| ==>
          v.diffs[i].oldPath != v.diffs[j].oldPath || v.diffs[i].newPath != v.diffs[j].newPath
  }

  lemma {:induction false} SortedPairsDiffer(diffs: seq<GitLabDiff>)
    requires forall i, j :: 0 <= i < j < |diffs| ==>
          diffs[i].oldPath != diffs[j].oldPath || diffs[i].newPath != diffs[j].newPath
    ensures !RepeatsExactPair(Ordering.Sort(GitLabDiffLe, diffs))
  {
    var sorted := Ordering.Sort(GitLabDiffLe, diffs);
    Ordering.MemberOfMultiset(sorted, diffs);
    forall i, j | 0 <= i < j < |sorted|
      ensures sorted[i].oldPath != sorted[j].oldPath || sorted[i].newPath != sorted[j].newPath
    {
      assert sorted[i] in diffs && sorted[j] in diffs;
      var a :| 0 <= a < |diffs| && diffs[a] == sorted[i];
      var b :| 0 <= b < |diffs| && diffs[b] == sorted[j];
      if a == b {
        Ordering.RepeatCounts(sorted, i, j);
        OnceIn(diffs, a);
      }
    }
  }

  lemma {:induction false} OnceIn(diffs: seq<GitLabDiff>, a: nat)
    requires a < |diffs| && forall i, j :: 0 <= i < j < |diffs| ==> diffs[i] != diffs[j]
    ensures multiset(diffs)[diffs[a]] == 1
  {
    assert diffs == diffs[..a] + [diffs[a]] + diffs[a + 1..];
    assert diffs[a] !in diffs[..a] && diffs[a] !in diffs[a + 1..];
  }

  /** Such a version is published, unless another content version was asked for. */
  lemma {:induction false} CapturableVersion(request: Request, v: Version)
    requires CollisionFree(request.digest) && Capturable(request, v) && forall s :: request.validContract(s)
    ensures CaptureOf(request, v).Published? ||
            (request.requestedVersion != "" && CaptureOf(request, v) == Rejected(NotFound))
  {
    var m := Material(v, v.diffs, v.commits);
    SortedSafe(v.diffs);
    SortedPairsDiffer(v.diffs);
    BuiltFilesAgree(request.digest, request.objectId, v.diffs, Shas(v.commits));
    PreparedShape(request, m);
    FinishedShape(request, Prepare(request, m));
  }

  lemma {:induction false} SortedSafe(diffs: seq<GitLabDiff>)
    requires forall d :: d in diffs ==>
          ProviderKeys.SafeProviderPath(d.oldPath) && ProviderKeys.SafeProviderPath(d.newPath)
    ensures AllSafe(Ordering.Sort(GitLabDiffLe, diffs))
  {
    var sorted := Ordering.Sort(GitLabDiffLe, diffs);
    Ordering.MemberOfMultiset(sorted, diffs);
    forall i | 0 <= i < |sorted|
      ensures SafePaths(sorted[i])
    {
      assert sorted[i] in diffs;
    }
  }

  lemma {:induction false} PreparedShape(request: Request, m: Material)
    requires AllSafe(Ordering.Sort(GitLabDiffLe, m.diffs))
    ensures var built, p := BuildGitLab(request.digest, request.objectId, m.diffs, Shas(m.commits)), Prepare(request,
                                        m);
            && built.Some? && (p == Rejected(NotFound) ==> request.requestedVersion != "")
            && (p == Rejected(NotFound) || (p.Published? && p.snapshot.commits == m.commits
                  && p.snapshot.files == built.value.files && p.snapshot.contents == built.value.contents))
  {
  }

  lemma {:induction false} FinishedShape(request: Request, p: CaptureResult)
    requires p.Published? ==> ValidCommits(p.snapshot.commits) && ContentsAgree(p.snapshot.files, p.snapshot.contents)
    requires forall s :: request.validContract(s)
    ensures Finish(request, p) == p
  {
  }

  /** The snapshot says of the version what it holds: every diff, every commit, and the claims that follow from them. */
  ghost predicate Tells(request: Request, snapshot: Snapshot, v: Version) {
    var built := Built(snapshot.files, snapshot.contents, snapshot.completeness, snapshot.manifest);
    && v.targetProject == request.project && v.anchor.base != "" && v.anchor.start != "" && v.anchor.head != ""
    && snapshot.anchor == v.anchor && snapshot.summary == v.summary && snapshot.commits == v.commits
    && ValidCommits(v.commits) && request.validContract(snapshot)
    && GitLabFiles.RowsSay(built, request.digest, request.objectId, v.diffs)
    && GitLabFiles.Claims(snapshot.completeness, v.diffs)
  }

  lemma {:induction false} CaptureTells(request: Request, v: Version)
    requires CaptureOf(request, v).Published?
    ensures Tells(request, CaptureOf(request, v).snapshot, v)
  {
    var built := BuildGitLab(request.digest, request.objectId, v.diffs, Shas(v.commits));
    CapturedShape(request, v);
    GitLabFiles.BuiltRowsSay(request.digest, request.objectId, v.diffs, Shas(v.commits));
    GitLabFiles.BuiltClaimsHold(request.digest, request.objectId, v.diffs, Shas(v.commits));
    BuiltTells(request, CaptureOf(request, v).snapshot, v, built.value);
  }

  /** The snapshot is the built rows with the merge request's own data. */
  ghost predicate MadeOf(request: Request, snapshot: Snapshot, v: Version, built: Built) {
    && snapshot.files == built.files && snapshot.contents == built.contents
    && snapshot.completeness == built.completeness && snapshot.manifest == built.manifest
    && snapshot.anchor == v.anchor && snapshot.summary == v.summary && snapshot.commits == v.commits
    && v.targetProject == request.project && v.anchor.base != "" && v.anchor.start != "" && v.anchor.head != ""
    && ValidCommits(v.commits) && request.validContract(snapshot)
  }

  lemma {:induction false} CapturedShape(request: Request, v: Version)
    requires CaptureOf(request, v).Published?
    ensures var built := BuildGitLab(request.digest, request.objectId, v.diffs, Shas(v.commits));
            built.Some? && MadeOf(request, CaptureOf(request, v).snapshot, v, built.value)
  {
  }

  lemma {:induction false} BuiltTells(request: Request, snapshot: Snapshot, v: Version, built: Built)
    requires MadeOf(request, snapshot, v, built) &&
             GitLabFiles.RowsSay(built, request.digest, request.objectId, v.diffs)
    requires GitLabFiles.Claims(built.completeness, v.diffs)
    ensures Tells(request, snapshot, v)
  {
    assert Built(snapshot.files, snapshot.contents, snapshot.completeness, snapshot.manifest) == built;
  }

  /** Over every interleaving the published lists are the named version's own, whole. */
  lemma {:induction false} PublishedClaimsHold(request: Request, view: View, start: nat, timeline: nat -> Version,
                                               schedule: nat -> nat)
    requires Observes(view, timeline, schedule) && AnchorsKeepContent(timeline)
    requires Capture(request, view, start).result.Published?
    ensures Tells(request, Capture(request, view, start).result.snapshot, timeline(schedule(start)))
  {
    PublishedIsOneVersion(request, view, start, timeline, schedule);
    CaptureTells(request, timeline(schedule(start)));
  }

  // ---------------------------------------------------------------- what a refusal means

  ghost predicate Fails(view: View, from: nat, to: nat) {
    exists i :: from <= i < to && view(i).None?
  }

  /** A listing is unreachable exactly when one of its reads failed. */
  ghost predicate FailsHonestly<T(!new)>(lister: Lister<T>, view: View) {
    forall from: nat :: FailsHonestlyFrom(lister, view, from)
  }

  ghost predicate FailsHonestlyFrom<T(!new)>(lister: Lister<T>, view: View, from: nat) {
    lister(from).Unreachable? <==> Fails(view, from, from + lister(from).pages)
  }

  lemma {:induction false} ListingFails<T(!new)>(serve: nat -> Option<seq<T>>, view: View, from: nat, p: nat,
                                                 got: seq<T>)
    requires 1 <= p <= MAX_PAGES + 1 && forall q: nat :: q >= 1 ==> (serve(q).None? <==> view(from + q - 1).None?)
    ensures var r := PagesFrom(serve, p, got); r.Unreachable? <==> Fails(view, from + p - 1, from + r.pages)
    decreases MAX_PAGES + 1 - p
  {
    if p <= MAX_PAGES && serve(p).Some? && |serve(p).value| >= GitLabFiles.PAGE_SIZE {
      ListingFails(serve, view, from, p + 1, got + serve(p).value);
    }
  }

  lemma {:induction false} ListersFail(view: View)
    ensures FailsHonestly(DiffLister(view), view) && FailsHonestly(CommitLister(view), view)
  {
    forall from: nat ensures FailsHonestlyFrom(DiffLister(view), view, from) { DiffsFail(view, from); }
    forall from: nat ensures FailsHonestlyFrom(CommitLister(view), view, from) { CommitsFail(view, from); }
  }

  lemma {:induction false} DiffsFail(view: View, from: nat)
    ensures FailsHonestlyFrom(DiffLister(view), view, from)
  {
    ListingFails(DiffServer(view, from), view, from, 1, []);
  }

  lemma {:induction false} CommitsFail(view: View, from: nat)
    ensures FailsHonestlyFrom(CommitLister(view), view, from)
  {
    ListingFails(CommitServer(view, from), view, from, 1, []);
  }

  lemma {:induction false} ListsFail(diffs: Lister<GitLabDiff>, commits: Lister<Commit>, view: View, first: Version,
                                     from: nat)
    requires FailsHonestly(diffs, view) && FailsHonestly(commits, view)
    ensures var c := CollectLists(diffs, commits, first, from);
            && (c.CollectFailed? && c.error == Transport <==> Fails(view, from, c.next))
            && (c.CollectFailed? ==> c.error == Transport || c.error == TooLong) &&
               (c.Collected? ==> c.material.first == first)
  {
    assert FailsHonestlyFrom(diffs, view, from);
    assert FailsHonestlyFrom(commits, view, from + diffs(from).pages);
  }

  lemma {:induction false} CollectFails(diffs: Lister<GitLabDiff>, commits: Lister<Commit>, request: Request,
                                        view: View, start: nat)
    requires FailsHonestly(diffs, view) && FailsHonestly(commits, view)
    ensures var c := Collect(diffs, commits, request, view, start);
            && (c.CollectFailed? && c.error == Transport <==> Fails(view, start, c.next))
            && (c.CollectFailed? ==> c.error in {Transport, TooLong, Incomplete})
            && (c.CollectFailed? && c.error == Incomplete <==> view(start).Some? && !ValidMergeRequest(request, view(start).value))
  {
    if view(start).Some? && ValidMergeRequest(request, view(start).value) {
      var first := view(start).value;
      ListsFail(diffs, commits, view, first, if ReadsSource(request, first) then start + 2 else start + 1);
    }
  }

  /** The project of a fork is read after the merge request, and a failure there ends the run; otherwise the second read
      already belongs to the diffs. */
  lemma {:induction false} ForkTakesARead(request: Request, view: View, start: nat)
    requires view(start).Some? && ValidMergeRequest(request, view(start).value) && view(start + 1).None?
    ensures Capture(request, view, start) == Run(Rejected(Transport), start + 2)
    ensures var fork := view(start).value.sourceProject;
            Collect(DiffLister(view), CommitLister(view), request, view, start)
            == if fork != request.project && fork > 0 then CollectFailed(Transport, start + 2)
               else CollectLists(DiffLister(view), CommitLister(view), view(start).value, start + 1)
  {
    var first := view(start).value;
    if !ReadsSource(request, first) {
      assert DiffServer(view, start + 1)(1).None?;
      assert DiffLister(view)(start + 1) == Unreachable(1);
    }
  }

  /** With the fork's project read, the lists start one read later. */
  lemma {:induction false} ListsStartBehind(request: Request, view: View, start: nat)
    requires view(start).Some? && ValidMergeRequest(request, view(start).value) && view(start + 1).Some?
    ensures var fork := view(start).value.sourceProject;
            Collect(DiffLister(view), CommitLister(view), request, view, start)
            == CollectLists(DiffLister(view), CommitLister(view), view(start).value,
                            if fork != request.project && fork > 0 then start + 2 else start + 1)
  {
  }

  ghost predicate RejectionsMean(run: Run, request: Request, view: View, start: nat) {
    && start < run.next && (run.result == Rejected(Transport) <==> Fails(view, start, run.next))
    && (run.result == Rejected(Incomplete) <==> view(start).Some? && !ValidMergeRequest(request, view(start).value))
    && (run.result == Rejected(CaptureRaced) ==> AnchorMoved(view, start, run.next - 1))
    && (run.result == Rejected(NotFound) ==> request.requestedVersion != "")
  }

  ghost predicate Refuses(prepare: Material -> CaptureResult, requestedVersion: string) {
    forall m :: prepare(m).Rejected? ==>
      prepare(m).error == InvalidResponse || (prepare(m).error == NotFound && requestedVersion != "")
  }

  lemma {:induction false} PreparerRefuses(request: Request)
    ensures Refuses(Preparer(request), request.requestedVersion)
  {
  }

  lemma {:induction false} RejectionBy(prepare: Material -> CaptureResult, diffs: Lister<GitLabDiff>,
                                       commits: Lister<Commit>, request: Request, view: View, start: nat)
    requires Honours(prepare, request.requestedVersion) && Refuses(prepare, request.requestedVersion)
    requires FailsHonestly(diffs, view) && FailsHonestly(commits, view)
    ensures RejectionsMean(CaptureBy(prepare, diffs, commits, request, view, start), request, view, start)
  {
    CollectFails(diffs, commits, request, view, start);
    CollectStartsWithFirst(diffs, commits, request, view, start);
  }

  /** A transport error means that a request failed, an incomplete one that the merge request is not the one asked for or has
      no whole anchor, a race that the anchor moved, not found that a version was asked for. */
  lemma {:induction false} RejectionMeans(request: Request, view: View, start: nat)
    ensures RejectionsMean(Capture(request, view, start), request, view, start)
  {
    PreparerHonours(request);
    PreparerRefuses(request);
    ListersFail(view);
    RejectionBy(Preparer(request), DiffLister(view), CommitLister(view), request, view, start);
  }

  ghost predicate ListsCommits(commits: Lister<Commit>, view: View) {
    forall from: nat :: ListsCommitsFrom(commits, view, from)
  }

  ghost predicate ListsCommitsFrom(commits: Lister<Commit>, view: View, from: nat) {
    commits(from) == PagesFrom(CommitServer(view, from), 1, [])
  }

  ghost predicate ListsDiffs(diffs: Lister<GitLabDiff>, view: View) {
    forall from: nat :: ListsDiffsFrom(diffs, view, from)
  }

  ghost predicate ListsDiffsFrom(diffs: Lister<GitLabDiff>, view: View, from: nat) {
    diffs(from) == PagesFrom(DiffServer(view, from), 1, [])
  }

  lemma {:induction false} ListersList(view: View)
    ensures ListsDiffs(DiffLister(view), view) && ListsCommits(CommitLister(view), view)
  {
  }

  // ---------------------------------------------------------------- the client

  /** The server as one client sees it; only the number of reads changes on this side. */
  class Client {
    const view: View
    var answered: nat

    constructor (view: View)
      ensures this.view == view && answered == 0
    {
      this.view, answered := view, 0;
    }

    method Read() returns (v: Option<Version>)
      modifies this
      ensures v == view(old(answered)) && answered == old(answered) + 1
    {
      v := view(answered);
      answered := answered + 1;
    }

    method FetchCommits(first: Version, diffs: Listing<GitLabDiff>, ghost from: nat, ghost commitsFrom: Lister<Commit>)
      returns (c: Collection)
      requires answered == from + diffs.pages && ListsCommits(commitsFrom, view)
      modifies this
      ensures c == WithDiffs(commitsFrom, first, diffs, from) && answered == c.next
    {
      if !diffs.Complete? { return CollectFailed(Failure(diffs), answered); }
      var commits := FetchCommitPages(commitsFrom);
      if !commits.Complete? { return CollectFailed(Failure(commits), answered); }
      return Collected(Material(first, diffs.items, commits.items), answered);
    }

    method FetchCommitPages(ghost commitsFrom: Lister<Commit>) returns (commits: Listing<Commit>)
      requires ListsCommits(commitsFrom, view)
      modifies this
      ensures commits == commitsFrom(old(answered)) && answered == old(answered) + commits.pages
    {
      assert ListsCommitsFrom(commitsFrom, view, answered);
      commits := FetchGitLabPages(CommitServer(view, answered));
      answered := answered + commits.pages;
    }

    method FetchDiffPages(ghost diffsFrom: Lister<GitLabDiff>) returns (diffs: Listing<GitLabDiff>)
      requires ListsDiffs(diffsFrom, view)
      modifies this
      ensures diffs == diffsFrom(old(answered)) && answered == old(answered) + diffs.pages
    {
      assert ListsDiffsFrom(diffsFrom, view, answered);
      diffs := FetchGitLabPages(DiffServer(view, answered));
      answered := answered + diffs.pages;
    }

    method FetchLists(first: Version, ghost diffsFrom: Lister<GitLabDiff>, ghost commitsFrom: Lister<Commit>)
      returns (c: Collection)
      requires ListsDiffs(diffsFrom, view) && ListsCommits(commitsFrom, view)
      modifies this
      ensures c == CollectLists(diffsFrom, commitsFrom, first, old(answered)) && answered == c.next
    {
      var diffs := FetchDiffPages(diffsFrom);
      c := FetchCommits(first, diffs, old(answered), commitsFrom);
    }

    /** The reads before the second look; the listers say what the page loops return. */
    method CollectMaterial(request: Request, ghost diffsFrom: Lister<GitLabDiff>, ghost commitsFrom: Lister<Commit>)
      returns (c: Collection)
      requires ListsDiffs(diffsFrom, view) && ListsCommits(commitsFrom, view)
      modifies this
      ensures c == Collect(diffsFrom, commitsFrom, request, view, old(answered)) && answered == c.next
    {
      var initial := Read();
      if initial.None? { return CollectFailed(Transport, answered); }
      if !ValidMergeRequest(request, initial.value) { return CollectFailed(Incomplete, answered); }
      if ReadsSource(request, initial.value) {
        var source := Read();
        if source.None? { return CollectFailed(Transport, answered); }
      }
      c := FetchLists(initial.value, diffsFrom, commitsFrom);
    }

    method PrepareSnapshot(request: Request, m: Material) returns (prepared: CaptureResult)
      ensures prepared == Prepare(request, m)
    {
      var built := BuildFiles(request.digest, request.objectId, m.diffs, Shas(m.commits));
      if built.None? { return Rejected(InvalidResponse); }
      var snapshot := SnapshotOf(request, m, built.value);
      if request.requestedVersion != "" && request.requestedVersion != snapshot.key { return Rejected(NotFound); }
      return Published(snapshot);
    }

    method ConcludeCapture(request: Request, prepared: CaptureResult) returns (result: CaptureResult)
      modifies this
      ensures Run(result, answered) == Conclude(request, prepared, view, old(answered))
    {
      if prepared.Rejected? { return prepared; }
      var final := Read();
      if final.None? { return Rejected(Transport); }
      if final.value.anchor != prepared.snapshot.anchor { return Rejected(CaptureRaced); }
      if !ValidCommits(prepared.snapshot.commits) || !request.validContract(prepared.snapshot) {
        return Rejected(InvalidResponse);
      }
      var issues := ContentIssues(prepared.snapshot.files, prepared.snapshot.contents);
      if issues != [] { return Rejected(InvalidResponse); }
      return prepared;
    }

    method GetSnapshot(request: Request) returns (result: CaptureResult)
      modifies this
      ensures Run(result, answered) == Capture(request, view, old(answered))
    {
      ListersList(view);
      var c := CollectMaterial(request, DiffLister(view), CommitLister(view));
      if c.CollectFailed? { return Rejected(c.error); }
      var prepared := PrepareSnapshot(request, c.material);
      result := ConcludeCapture(request, prepared);
    }
  }

  // ---------------------------------------------------------------- the content key

  lemma {:induction false} PartsAt(rows: seq<BuiltRow>, i: nat, t: nat)
    requires i < |rows| && t < 6
    ensures |PartsOf(rows)| == 6 * |rows| && PartsOf(rows)[6 * i + t] == PartsOfRow(rows[i])[t]
  {
    PartsLength(rows);
    var n := |rows| - 1;
    PartsLength(rows[..n]);
    if i < n { PartsAt(rows[..n], i, t); }
  }

  lemma {:induction false} PartsLength(rows: seq<BuiltRow>)
    ensures |PartsOf(rows)| == 6 * |rows|
  {
    if rows != [] { PartsLength(rows[..|rows| - 1]); }
  }

  function TailParts(patches: Assessment, modes: Assessment): seq<string> {
    [StateText(patches), ReasonText(patches), StateText(modes), ReasonText(modes)]
  }

  function AllParts(rows: seq<BuiltRow>, shas: seq<string>, patches: Assessment, modes: Assessment): seq<string> {
    PartsOf(rows) + shas + TailParts(patches, modes)
  }

  lemma {:induction false} StatusIsNoSha(status: FileStatus, sha: string)
    requires ProviderKeys.IsProviderSha(sha)
    ensures StatusText(status) != sha
  {
  }

  /** Where one manifest still has a row the other would need a commit hash that reads like a file status. */
  lemma {:induction false} MoreRowsDiffer(rows: seq<BuiltRow>, shas: seq<string>, patches: Assessment,
                                          modes: Assessment, others: seq<BuiltRow>, otherShas: seq<string>,
                                          otherPatches: Assessment, otherModes: Assessment)
    requires |rows| < |others| && forall i :: 0 <= i < |shas| ==> ProviderKeys.IsProviderSha(shas[i])
    ensures AllParts(rows, shas, patches, modes) != AllParts(others, otherShas, otherPatches, otherModes)
  {
    var m, n, k := AllParts(rows, shas, patches, modes), AllParts(others, otherShas, otherPatches, otherModes), 6 * |rows| + 2;
    PartsLength(rows);
    PartsLength(others);
    PartsAt(others, |rows|, 2);
    assert n[k] == StatusText(others[|rows|].file.status);
    if |m| == |n| {
      assert m[k] == shas[2];
      StatusIsNoSha(others[|rows|].file.status, shas[2]);
    }
  }

  lemma {:induction false} PartsDetermine(rows: seq<BuiltRow>, shas: seq<string>, patches: Assessment,
                                          modes: Assessment, others: seq<BuiltRow>, otherShas: seq<string>,
                                          otherPatches: Assessment, otherModes: Assessment)
    requires forall i :: 0 <= i < |shas| ==> ProviderKeys.IsProviderSha(shas[i])
    requires forall i :: 0 <= i < |otherShas| ==> ProviderKeys.IsProviderSha(otherShas[i])
    requires AllParts(rows, shas, patches, modes) == AllParts(others, otherShas, otherPatches, otherModes)
    ensures |rows| == |others| && forall i :: 0 <= i < |rows| ==> PartsOfRow(rows[i]) == PartsOfRow(others[i])
    ensures shas == otherShas && TailParts(patches, modes) == TailParts(otherPatches, otherModes)
  {
    if |rows| < |others| { MoreRowsDiffer(rows, shas, patches, modes, others, otherShas, otherPatches, otherModes); }
    if |others| < |rows| { MoreRowsDiffer(others, otherShas, otherPatches, otherModes, rows, shas, patches, modes); }
    PartsLength(rows);
    PartsLength(others);
    var m, n := AllParts(rows, shas, patches, modes), 6 * |rows|;
    assert PartsOf(rows) == m[..n] == PartsOf(others);
    assert shas == m[n..n + |shas|] == otherShas;
    assert TailParts(patches, modes) == m[n + |shas|..] == TailParts(otherPatches, otherModes);
    forall i | 0 <= i < |rows|
      ensures PartsOfRow(rows[i]) == PartsOfRow(others[i])
    {
      forall t: nat | t < 6
        ensures PartsOfRow(rows[i])[t] == PartsOfRow(others[i])[t]
      {
        PartsAt(rows, i, t);
        PartsAt(others, i, t);
      }
    }
  }

  // ---------------------------------------------------------------- equal keys

  function SortedDiffs(m: Material): seq<GitLabDiff> {
    Ordering.Sort(GitLabDiffLe, m.diffs)
  }

  /** The host withheld the patch of a file, whatever bytes it sent. */
  predicate Withheld(d: GitLabDiff) {
    d.tooLarge || d.collapsed
  }

  /** What the manifest holds of a diff. */
  predicate SameDiff(d: GitLabDiff, e: GitLabDiff) {
    && d.oldPath == e.oldPath && d.newPath == e.newPath && StatusOf(d) == StatusOf(e)
    && d.aMode == e.aMode && d.bMode == e.bMode && d.diff == e.diff
  }

  lemma {:induction false} PartsOfRowDetermine(digest: ProviderKeys.Digest, objectId: string, i: nat, d: GitLabDiff,
                                               e: GitLabDiff)
    requires PartsOfRow(RowOf(digest, objectId, i, d)) == PartsOfRow(RowOf(digest, objectId, i, e))
    ensures SameDiff(d, e)
  {
    var p, q := PartsOfRow(RowOf(digest, objectId, i, d)), PartsOfRow(RowOf(digest, objectId, i, e));
    assert p[0] == q[0] && p[1] == q[1] && p[2] == q[2] && p[3] == q[3] && p[4] == q[4] && p[5] == q[5];
    StatusTextInjective(StatusOf(d), StatusOf(e));
  }

  /** Rows of the same diffs are equal exactly when the patches were withheld alike, or are missing anyway under one
      reason. */
  lemma {:induction false} RowsAgreeExactly(digest: ProviderKeys.Digest, objectId: string, i: nat, d: GitLabDiff,
                                            e: GitLabDiff)
    requires SameDiff(d, e)
    ensures RowOf(digest, objectId, i, d) == RowOf(digest, objectId, i, e) <==> Withheld(d) == Withheld(e)
  {
  }

  /** The manifest of the material, and the assessments it ends with. */
  function RowsFor(request: Request, m: Material): seq<BuiltRow> {
    GitLabFiles.Rows(request.digest, request.objectId, SortedDiffs(m))
  }

  function ModesOf(rows: seq<BuiltRow>): Assessment {
    if AllModesKnown(rows) then Exact else PARTIAL
  }

  lemma {:induction false} ManifestOf(request: Request, m: Material)
    requires BuildGitLab(request.digest, request.objectId, m.diffs, Shas(m.commits)).Some?
    ensures var rows := RowsFor(request, m);
            BuildGitLab(request.digest, request.objectId, m.diffs, Shas(m.commits)).value.manifest
            == ProviderKeys.ProviderOpaqueKey(request.digest, "manifest",
                                              AllParts(rows, Shas(m.commits), LastInexact(rows), ModesOf(rows)))
  {
  }

  lemma {:induction false} KeyDetermines(request: Request, m: Material, other: Material, b: Built, c: Built)
    requires CollisionFree(request.digest) && SnapshotOf(request, m, b).key == SnapshotOf(request, other, c).key
    ensures var p, q := m.first.anchor, other.first.anchor; p.start == q.start && p.base == q.base && p.head == q.head
    ensures b.manifest == c.manifest
  {
    var p, q := m.first.anchor, other.first.anchor;
    var s := [request.objectId, "", p.start, p.base, p.head, b.manifest];
    var t := [request.objectId, "", q.start, q.base, q.head, c.manifest];
    ProviderKeys.OpaqueKeyInjective(request.digest, "gitlab" + "-content", s, "gitlab" + "-content", t);
    assert !ProviderKeys.Collision(request.digest, ProviderKeys.Frame(s), ProviderKeys.Frame(t));
    assert s[2] == t[2] && s[3] == t[3] && s[4] == t[4] && s[5] == t[5];
  }

  /** Unless the hash collides, equal content keys mean equal diff commits, diffs and commit hashes in order. The flags by
      which the host withholds patches are not in the key: the rows agree exactly when those flags do. */
  lemma {:induction false} SameKeySameDiffs(request: Request, m: Material, other: Material)
    requires CollisionFree(request.digest) && ValidCommits(m.commits) && ValidCommits(other.commits)
    requires var p, q := Prepare(request, m), Prepare(request, other);
             p.Published? && q.Published? && p.snapshot.key == q.snapshot.key
    ensures var p, q := m.first.anchor, other.first.anchor; p.start == q.start && p.base == q.base && p.head == q.head
    ensures Shas(m.commits) == Shas(other.commits) && |m.diffs| == |other.diffs|
    ensures var s, t := SortedDiffs(m), SortedDiffs(other);
            && |s| == |t| && (forall i :: 0 <= i < |s| ==> SameDiff(s[i], t[i]))
            && (RowsFor(request, m) == RowsFor(request, other) <==> forall i :: 0 <= i < |s| ==> Withheld(s[i]) == Withheld(t[i]))
  {
    var digest, id := request.digest, request.objectId;
    var b, c := BuildGitLab(digest, id, m.diffs, Shas(m.commits)), BuildGitLab(digest, id, other.diffs,
                            Shas(other.commits));
    KeyDetermines(request, m, other, b.value, c.value);
    ManifestOf(request, m);
    ManifestOf(request, other);
    SameManifestSameDiffs(request, m, other);
    SortedLength(m);
    SortedLength(other);
    RowsAgree(request, SortedDiffs(m), SortedDiffs(other));
  }

  lemma {:induction false} SortedLength(m: Material)
    ensures |SortedDiffs(m)| == |m.diffs|
  {
    Ordering.MemberOfMultiset(SortedDiffs(m), m.diffs);
  }

  lemma {:induction false} SameManifestSameDiffs(request: Request, m: Material, other: Material)
    requires CollisionFree(request.digest) && ValidCommits(m.commits) && ValidCommits(other.commits)
    requires var rows, others := RowsFor(request, m), RowsFor(request, other);
             ProviderKeys.ProviderOpaqueKey(request.digest, "manifest", AllParts(rows, Shas(m.commits), LastInexact(rows), ModesOf(rows)))
             == ProviderKeys.ProviderOpaqueKey(request.digest, "manifest",
                                               AllParts(others, Shas(other.commits), LastInexact(others), ModesOf(others)))
    ensures var s, t := SortedDiffs(m), SortedDiffs(other);
            |s| == |t| && forall i :: 0 <= i < |s| ==> SameDiff(s[i], t[i])
    ensures Shas(m.commits) == Shas(other.commits)
  {
    var rows, others := RowsFor(request, m), RowsFor(request, other);
    var p := AllParts(rows, Shas(m.commits), LastInexact(rows), ModesOf(rows));
    var q := AllParts(others, Shas(other.commits), LastInexact(others), ModesOf(others));
    ProviderKeys.OpaqueKeyInjective(request.digest, "manifest", p, "manifest", q);
    assert !ProviderKeys.Collision(request.digest, ProviderKeys.Frame(p), ProviderKeys.Frame(q));
    PartsDetermine(rows, Shas(m.commits), LastInexact(rows), ModesOf(rows), others, Shas(other.commits),
                   LastInexact(others), ModesOf(others));
    SamePartsSameDiffs(request.digest, request.objectId, SortedDiffs(m), SortedDiffs(other), rows, others);
  }

  lemma {:induction false} SamePartsSameDiffs(digest: ProviderKeys.Digest, objectId: string, s: seq<GitLabDiff>,
                                              t: seq<GitLabDiff>, rows: seq<BuiltRow>, others: seq<BuiltRow>)
    requires rows == GitLabFiles.Rows(digest, objectId, s) && others == GitLabFiles.Rows(digest, objectId, t)
    requires |s| == |t| && forall i :: 0 <= i < |s| ==> PartsOfRow(rows[i]) == PartsOfRow(others[i])
    ensures forall i :: 0 <= i < |s| ==> SameDiff(s[i], t[i])
  {
    forall i: nat | i < |s|
      ensures SameDiff(s[i], t[i])
    {
      PartsOfRowDetermine(digest, objectId, i, s[i], t[i]);
    }
  }

  lemma {:induction false} RowsAgree(request: Request, s: seq<GitLabDiff>, t: seq<GitLabDiff>)
    requires |s| == |t| && forall i :: 0 <= i < |s| ==> SameDiff(s[i], t[i])
    ensures GitLabFiles.Rows(request.digest, request.objectId, s)
        == GitLabFiles.Rows(request.digest, request.objectId, t)
       <==> forall i :: 0 <= i < |s| ==> Withheld(s[i]) == Withheld(t[i])
  {
    var rows, others := GitLabFiles.Rows(request.digest, request.objectId, s), GitLabFiles.Rows(request.digest,
                                         request.objectId, t);
    forall i: nat | i < |s|
      ensures rows[i] == others[i] <==> Withheld(s[i]) == Withheld(t[i])
    {
      RowsAgreeExactly(request.digest, request.objectId, i, s[i], t[i]);
    }
  }

  /** Of two files the second is withheld; whether the first is leaves no trace in the manifest. */
  lemma {:induction false} FlagsLeaveNoTrace(digest: ProviderKeys.Digest, objectId: string)
    ensures var d := GitLabDiff("a", "a", "100644", "100644", "patch", false, false, false, false, false);
            var e := GitLabDiff("b", "b", "100644", "100644", "patch", false, false, false, true, false);
            var rows := GitLabFiles.Rows(digest, objectId, [d, e]);
            var others := GitLabFiles.Rows(digest, objectId, [d.(tooLarge := true), e]);
            && rows != others
            && AllParts(rows, [], LastInexact(rows), ModesOf(rows))
                == AllParts(others, [], LastInexact(others), ModesOf(others))
  {
    var d := GitLabDiff("a", "a", "100644", "100644", "patch", false, false, false, false, false);
    var e := GitLabDiff("b", "b", "100644", "100644", "patch", false, false, false, true, false);
    var rows := GitLabFiles.Rows(digest, objectId, [d, e]);
    var others := GitLabFiles.Rows(digest, objectId, [d.(tooLarge := true), e]);
    assert rows[0].file.patchAssessment == Exact && others[0].file.patchAssessment == OVERFLOW;
    assert rows[1] == others[1] == RowOf(digest, objectId, 1, e);
    SameTrace(rows, others);
  }

  /** Only the parts and the last assessment leave a trace. */
  lemma {:induction false} SameTrace(rows: seq<BuiltRow>, others: seq<BuiltRow>)
    requires |rows| == |others| == 2 && PartsOfRow(rows[0]) == PartsOfRow(others[0]) && rows[1] == others[1]
    requires !rows[1].file.patchAssessment.Exact?
    ensures AllParts(rows, [], LastInexact(rows), ModesOf(rows))
        == AllParts(others, [], LastInexact(others), ModesOf(others))
  {
    TwoRowParts(rows);
    TwoRowParts(others);
    assert LastInexact(rows) == rows[1].file.patchAssessment == LastInexact(others);
    TwoModes(rows);
    TwoModes(others);
    var p, q := PartsOfRow(rows[0]), PartsOfRow(others[0]);
    assert p[3] == q[3] && p[4] == q[4];
  }

  lemma {:induction false} TwoModes(rows: seq<BuiltRow>)
    requires |rows| == 2
    ensures AllModesKnown(rows)
        <==> rows[0].file.oldMode != "" && rows[0].file.newMode != "" && rows[1].file.oldMode != "" && rows[1].file.newMode != ""
  {
  }

  lemma {:induction false} TwoRowParts(rows: seq<BuiltRow>)
    requires |rows| == 2
    ensures PartsOf(rows) == PartsOfRow(rows[0]) + PartsOfRow(rows[1])
  {
    assert rows[..1] == [rows[0]] && rows[..1][..0] == [];
    assert PartsOf(rows[..1]) == [] + PartsOfRow(rows[0]) == PartsOfRow(rows[0]);
  }
}
