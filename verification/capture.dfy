/** Capturing a hosted change while the server keeps changing: GetSnapshot and fetchGitHubPages of
    internal/changehost/github_provider.go. Every read sees the server at its own time; the environment
    may write between any two reads. */
module Capture {
  import Ordering
  import opened Pages
  import ProviderKeys
  import opened SnapshotFiles
  import opened Wrappers

  const PAGE_SIZE: nat := 100
  const MAXIMUM_FILES: nat := 3000
  const MAXIMUM_COMMITS: nat := 250

  datatype Anchor = Anchor(baseSha: string, headSha: string)

  datatype Commit = Commit(sha: string, subject: string)

  /** The state of one change on the server; summary is what the snapshot takes from the pull besides its title. A diff
      too large to download is None. */
  datatype Version = Version(anchor: Anchor, baseRepository: string, title: string, summary: string,
                             files: seq<GitHubFile>, diff: Option<string>, commits: seq<Commit>)

  /** What the i-th read returns; None for a request that fails. */
  type View = nat -> Option<Version>

  function FilesOf(v: Version): seq<GitHubFile> { v.files }
  function CommitsOf(v: Version): seq<Commit> { v.commits }

  // ---------------------------------------------------------------- pages

  datatype Paged<T> = Fetched(items: seq<T>, overflow: bool, next: nat) | PageFailed(next: nat)

  function ReadPages<T>(view: View, select: Version -> seq<T>, read: nat, p: nat, got: seq<T>, maximum: nat)
    : (r: Paged<T>)
    requires p >= 1 && |got| <= maximum
    ensures read < r.next
    decreases maximum - |got|
  {
    if view(read).None? then PageFailed(read + 1)
    else
      var current := Take(Slice(select(view(read).value), PAGE_SIZE, p), maximum - |got|);
      var items := got + current;
      if |current| < PAGE_SIZE && |items| < maximum then Fetched(items, false, read + 1)
      else if |items| >= maximum then Fetched(items, true, read + 1)
      else ReadPages(view, select, read + 1, p + 1, items, maximum)
  }

  /** One more page of an unchanged list. */
  lemma {:induction false} NextPage<T>(list: seq<T>, p: nat, got: seq<T>, maximum: nat)
    requires p >= 1 && got == Take(list, PAGE_SIZE * (p - 1)) && |got| == PAGE_SIZE * (p - 1) <= maximum
    ensures var current := Take(Slice(list, PAGE_SIZE, p), maximum - |got|); var items := got + current;
            && |current| <= PAGE_SIZE && items == Take(list, |items|) && |items| <= maximum
            && (|items| >= maximum ==> items == Take(list, maximum) && |list| >= maximum)
            && (|current| < PAGE_SIZE && |items| < maximum ==> items == list)
  {
    var page := Slice(list, PAGE_SIZE, p);
    assert |list| > |got| ==> page == Take(list[|got|..], PAGE_SIZE);
    assert got == list[..|got|];
  }

  ghost predicate Fails(view: View, from: nat, to: nat) {
    exists i :: from <= i < to && view(i).None?
  }

  /** Every successful read of the window saw the list. */
  ghost predicate ShowsList<T(!new)>(view: View, select: Version -> seq<T>, from: nat, to: nat, list: seq<T>) {
    forall i :: from <= i < to && view(i).Some? ==> select(view(i).value) == list
  }

  lemma {:induction false} FailsLater(view: View, read: nat, to: nat)
    requires view(read).Some?
    ensures Fails(view, read, to) <==> Fails(view, read + 1, to)
  {
  }

  /** What one page of the list makes of the read: the end, or the next page. */
  lemma {:induction false} PageOfList<T(!new)>(view: View, select: Version -> seq<T>, read: nat, p: nat, got: seq<T>,
                                               maximum: nat, list: seq<T>)
    requires p >= 1 && got == Take(list, PAGE_SIZE * (p - 1)) && |got| == PAGE_SIZE * (p - 1) <= maximum
    requires view(read).Some? && select(view(read).value) == list
    ensures var items := got + Take(Slice(list, PAGE_SIZE, p), maximum - |got|);
            var r := ReadPages(view, select, read, p, got, maximum);
            || (r == Fetched(Take(list, maximum), |list| >= maximum, read + 1))
            || (&& items == Take(list, PAGE_SIZE * p) && |items| == PAGE_SIZE * p < maximum
                && r == ReadPages(view, select, read + 1, p + 1, items, maximum))
  {
    NextPage(list, p, got, maximum);
  }

  /** While the list stays the same, paging returns its first items and reports overflow exactly when
      the list reaches the maximum. */
  lemma {:induction false} PagesOfStableList<T(!new)>(view: View, select: Version -> seq<T>, read: nat, p: nat,
                                                      got: seq<T>, maximum: nat, list: seq<T>)
    requires p >= 1 && |got| <= maximum && got == Take(list, PAGE_SIZE * (p - 1)) && |got| == PAGE_SIZE * (p - 1)
    requires got == [] || |got| < maximum
    requires ShowsList(view, select, read, ReadPages(view, select, read, p, got, maximum).next, list)
    ensures var r := ReadPages(view, select, read, p, got, maximum);
            && (r.Fetched? ==> r.items == Take(list, maximum) && (r.overflow <==> |list| >= maximum))
            && (r.PageFailed? <==> Fails(view, read, r.next))
    decreases maximum - |got|
  {
    var r := ReadPages(view, select, read, p, got, maximum);
    if view(read).Some? {
      assert select(view(read).value) == list;
      FailsLater(view, read, r.next);
      PageOfList(view, select, read, p, got, maximum, list);
      var items := got + Take(Slice(list, PAGE_SIZE, p), maximum - |got|);
      if r != Fetched(Take(list, maximum), |list| >= maximum, read + 1) {
        PagesOfStableList(view, select, read + 1, p + 1, items, maximum, list);
      }
    }
  }

  /** In general item k comes, at its own position, from the list seen by the read of its page. */
  lemma {:induction false} PagesMayMix<T>(view: View, select: Version -> seq<T>, read: nat, p: nat, got: seq<T>,
                                          maximum: nat, k: nat)
    requires p >= 1 && |got| == PAGE_SIZE * (p - 1) && |got| <= maximum
    ensures var r := ReadPages(view, select, read, p, got, maximum);
            r.Fetched? ==>
              && |r.items| <= maximum && got <= r.items && (r.overflow <==> |r.items| == maximum)
              && (|got| <= k < |r.items| ==>
                    var i := read + k / PAGE_SIZE - (p - 1);
                    && read <= i < r.next && view(i).Some?
                    && k < |select(view(i).value)| && r.items[k] == select(view(i).value)[k])
    decreases maximum - |got|
  {
    if view(read).Some? {
      var list := select(view(read).value);
      var current := Take(Slice(list, PAGE_SIZE, p), maximum - |got|);
      var items := got + current;
      if !(|current| < PAGE_SIZE && |items| < maximum) && |items| < maximum {
        assert ReadPages(view, select, read, p, got, maximum)
            == ReadPages(view, select, read + 1, p + 1, items, maximum);
        PagesMayMix(view, select, read + 1, p + 1, items, maximum, k);
      }
    }
  }

  // ---------------------------------------------------------------- the capture

  datatype ErrorCode = Transport | InvalidResponse | NotFound | CaptureRaced

  datatype Snapshot = Snapshot(key: string, anchor: Anchor, manifest: string, title: string, summary: string, files: seq<FileChange>,
                               contents: seq<Content>, completeness: Completeness, commits: seq<Commit>)

  datatype CaptureResult = Published(snapshot: Snapshot) | Rejected(error: ErrorCode)

  /** One call: the change, the repository it must target, and the content version asked for ("" for
      the current one). The diff parser fails on text without file sections; the contract stands for the checks of the
      summary and of the snapshot's remaining fields. */
  datatype Request = Request(digest: ProviderKeys.Digest, parseDiff: string -> Option<seq<DiffSection>>,
                             objectId: string, targetRepository: string, requestedVersion: string,
                             validContract: Snapshot -> bool)

  function Sections(request: Request, diff: Option<string>): seq<DiffSection> {
    if diff.Some? && request.parseDiff(diff.value).Some? then request.parseDiff(diff.value).value else []
  }

  function Shas(commits: seq<Commit>): seq<string> {
    seq(|commits|, i requires 0 <= i < |commits| => commits[i].sha)
  }

  predicate ValidCommits(commits: seq<Commit>) {
    forall i :: 0 <= i < |commits| ==>
      ProviderKeys.IsProviderSha(commits[i].sha) && ProviderKeys.SafeProviderText(commits[i].subject, 8192)
  }

  predicate ValidPull(request: Request, pull: Version) {
    && pull.baseRepository == request.targetRepository
    && ProviderKeys.IsProviderSha(pull.anchor.baseSha) && ProviderKeys.IsProviderSha(pull.anchor.headSha)
  }

  /** What the reads before the second look at the anchor brought back. */
  datatype Material = Material(pull: Version, files: seq<GitHubFile>, fileOverflow: bool, diff: Option<string>,
                               commits: seq<Commit>, commitOverflow: bool)

  /** Everything between the collected reads and the second look at the anchor. */
  function Prepare(request: Request, m: Material): CaptureResult {
    var built := BuildGithub(request.digest, request.objectId, m.files, Sections(request, m.diff),
                             m.fileOverflow, m.commitOverflow, Shas(m.commits));
    if built.None? || !ValidCommits(m.commits) then Rejected(InvalidResponse)
    else PrepareBuilt(request, m, built.value)
  }

  function PrepareBuilt(request: Request, m: Material, built: Built): CaptureResult {
    var key := ProviderKeys.ProviderContentKey(request.digest, "github", request.objectId, "", m.pull.anchor.baseSha,
                                  m.pull.anchor.baseSha, m.pull.anchor.headSha, built.manifest);
    if request.requestedVersion != "" && request.requestedVersion != key then Rejected(NotFound)
    else Published(Snapshot(key, m.pull.anchor, built.manifest, m.pull.title, m.pull.summary, built.files, built.contents,
                            built.completeness, m.commits))
  }

  /** The checks after the anchor held. */
  ghost function Finish(request: Request, prepared: CaptureResult): CaptureResult {
    if prepared.Rejected? then prepared
    else if !ProviderKeys.SafeProviderText(prepared.snapshot.title, 8192) || !request.validContract(prepared.snapshot)
            || !ContentsAgree(prepared.snapshot.files, prepared.snapshot.contents)
    then Rejected(InvalidResponse)
    else prepared
  }

  datatype Collection = Collected(material: Material, next: nat) | CollectFailed(error: ErrorCode, next: nat)

  /** Anchor, file pages, diff, commit pages. */
  function Collect(request: Request, view: View, start: nat): (c: Collection)
    ensures start < c.next
  {
    if view(start).None? then CollectFailed(Transport, start + 1)
    else if !ValidPull(request, view(start).value) then CollectFailed(InvalidResponse, start + 1)
    else CollectContent(view, view(start).value, ReadPages(view, FilesOf, start + 1, 1, [], MAXIMUM_FILES))
  }

  function CollectContent(view: View, pull: Version, files: Paged<GitHubFile>): (c: Collection)
    ensures files.next <= c.next
  {
    if files.PageFailed? then CollectFailed(Transport, files.next)
    else if view(files.next).None? then CollectFailed(Transport, files.next + 1)
    else CollectCommits(pull, files, view(files.next).value.diff, ReadPages(view, CommitsOf, files.next + 1, 1, [], MAXIMUM_COMMITS))
  }

  function CollectCommits(pull: Version, files: Paged<GitHubFile>, diff: Option<string>, commits: Paged<Commit>)
    : (c: Collection)
    requires files.Fetched?
    ensures c.next == commits.next
  {
    if commits.PageFailed? then CollectFailed(Transport, commits.next)
    else Collected(Material(pull, files.items, files.overflow, diff, commits.items, commits.overflow), commits.next)
  }

  datatype Run = Run(result: CaptureResult, next: nat)

  /** The second look at the anchor decides about what was prepared. */
  ghost function Conclude(request: Request, prepared: CaptureResult, view: View, next: nat): Run {
    if prepared.Rejected? then Run(prepared, next)
    else if view(next).None? then Run(Rejected(Transport), next + 1)
    else if view(next).value.anchor != prepared.snapshot.anchor then Run(Rejected(CaptureRaced), next + 1)
    else Run(Finish(request, prepared), next + 1)
  }

  /** The protocol, whatever is prepared from the collected material. */
  ghost function CaptureBy(prepare: Material -> CaptureResult, request: Request, view: View, start: nat): Run {
    var c := Collect(request, view, start);
    Conclude(request, if c.CollectFailed? then Rejected(c.error) else prepare(c.material), view, c.next)
  }

  function Preparer(request: Request): Material -> CaptureResult {
    m => Prepare(request, m)
  }

  /** GetSnapshot from the given read on. */
  ghost function Capture(request: Request, view: View, start: nat): Run {
    CaptureBy(Preparer(request), request, view, start)
  }

  /** All there is to collect from one fixed version, without paging. */
  function MaterialOf(v: Version): Material {
    Material(v, Take(v.files, MAXIMUM_FILES), |v.files| >= MAXIMUM_FILES, v.diff,
             Take(v.commits, MAXIMUM_COMMITS), |v.commits| >= MAXIMUM_COMMITS)
  }

  ghost function CaptureOfBy(prepare: Material -> CaptureResult, request: Request, v: Version): CaptureResult {
    if !ValidPull(request, v) then Rejected(InvalidResponse) else Finish(request, prepare(MaterialOf(v)))
  }

  /** The capture of one fixed version, without paging or races. */
  ghost function CaptureOf(request: Request, v: Version): CaptureResult {
    CaptureOfBy(Preparer(request), request, v)
  }

  ghost predicate SameContent(v: Version, w: Version) {
    v.files == w.files && v.diff == w.diff && v.commits == w.commits
  }

  /** Every successful read of the window saw the content of v. */
  ghost predicate StableWindow(view: View, from: nat, to: nat, v: Version) {
    forall i :: from <= i < to && view(i).Some? ==> SameContent(view(i).value, v)
  }

  lemma {:induction false} StableFilePages(view: View, read: nat, v: Version)
    requires StableWindow(view, read, ReadPages(view, FilesOf, read, 1, [], MAXIMUM_FILES).next, v)
    ensures var r := ReadPages(view, FilesOf, read, 1, [], MAXIMUM_FILES);
            if r.PageFailed? then Fails(view, read, r.next)
            else r.items == Take(v.files, MAXIMUM_FILES) && r.overflow == (|v.files| >= MAXIMUM_FILES)
  {
    PagesOfStableList(view, FilesOf, read, 1, [], MAXIMUM_FILES, v.files);
  }

  lemma {:induction false} StableCommitPages(view: View, read: nat, v: Version)
    requires StableWindow(view, read, ReadPages(view, CommitsOf, read, 1, [], MAXIMUM_COMMITS).next, v)
    ensures var r := ReadPages(view, CommitsOf, read, 1, [], MAXIMUM_COMMITS);
            if r.PageFailed? then Fails(view, read, r.next)
            else r.items == Take(v.commits, MAXIMUM_COMMITS) && r.overflow == (|v.commits| >= MAXIMUM_COMMITS)
  {
    PagesOfStableList(view, CommitsOf, read, 1, [], MAXIMUM_COMMITS, v.commits);
  }

  lemma {:induction false} ContentOfStableWindow(view: View, pull: Version, files: Paged<GitHubFile>, from: nat)
    requires from <= files.next
    requires if files.PageFailed? then Fails(view, from, files.next)
             else files.items == Take(pull.files, MAXIMUM_FILES) && files.overflow == (|pull.files| >= MAXIMUM_FILES)
    requires StableWindow(view, files.next, CollectContent(view, pull, files).next, pull)
    ensures var c := CollectContent(view, pull, files);
            if c.CollectFailed? then c.error == Transport && Fails(view, from, c.next) else c.material == MaterialOf(pull)
  {
    if files.Fetched? && view(files.next).Some? { StableCommitPages(view, files.next + 1, pull); }
  }

  /** If every read saw the content of the first, collecting it amounts to that one version. */
  lemma {:induction false} CollectStableContent(request: Request, view: View, start: nat)
    requires view(start).Some?
    requires StableWindow(view, start, Collect(request, view, start).next, view(start).value)
    ensures var c := Collect(request, view, start);
            && (c.Collected? ==> c.material == MaterialOf(view(start).value) && ValidPull(request, view(start).value))
            && (c.CollectFailed? ==>
                  || (c.error == InvalidResponse && !ValidPull(request, view(start).value))
                  || (c.error == Transport && Fails(view, start, c.next)))
  {
    if ValidPull(request, view(start).value) {
      var files := ReadPages(view, FilesOf, start + 1, 1, [], MAXIMUM_FILES);
      StableFilePages(view, start + 1, view(start).value);
      ContentOfStableWindow(view, view(start).value, files, start);
    }
  }

  lemma {:induction false} CollectStartsWithPull(request: Request, view: View, start: nat)
    requires Collect(request, view, start).Collected?
    ensures view(start).Some? && Collect(request, view, start).material.pull == view(start).value
  {
  }

  /** What is prepared carries the anchor of the pull it was prepared from, and the requested key. */
  ghost predicate Honours(prepare: Material -> CaptureResult, requestedVersion: string) {
    forall m :: prepare(m).Published? ==>
      && prepare(m).snapshot.anchor == m.pull.anchor
      && (requestedVersion != "" ==> prepare(m).snapshot.key == requestedVersion)
  }

  lemma {:induction false} PreparerHonours(request: Request)
    ensures Honours(Preparer(request), request.requestedVersion)
  {
  }

  /** If every read saw the content of the first, the run is the capture of that one version, unless a
      request failed or the anchor moved. */
  lemma {:induction false} CaptureOfStableContent(prepare: Material -> CaptureResult, request: Request, view: View,
                                                  start: nat)
    requires Honours(prepare, request.requestedVersion) && view(start).Some?
    requires StableWindow(view, start, CaptureBy(prepare, request, view, start).next, view(start).value)
    ensures var run := CaptureBy(prepare, request, view, start);
            || run.result == CaptureOfBy(prepare, request, view(start).value)
            || (run.result == Rejected(CaptureRaced) && view(run.next - 1).Some?
                && view(run.next - 1).value.anchor != view(start).value.anchor)
            || (run.result == Rejected(Transport) && Fails(view, start, run.next))
  {
    CollectStableContent(request, view, start);
  }

  lemma {:induction false} PublishedReadAnchorTwice(prepare: Material -> CaptureResult, request: Request, view: View,
                                                    start: nat)
    requires Honours(prepare, request.requestedVersion)
    requires CaptureBy(prepare, request, view, start).result.Published?
    ensures var run := CaptureBy(prepare, request, view, start);
            && start < run.next && view(start).Some? && view(run.next - 1).Some?
            && run.result.snapshot.anchor == view(start).value.anchor == view(run.next - 1).value.anchor
            && (request.requestedVersion != "" ==> run.result.snapshot.key == request.requestedVersion)
  {
    CollectStartsWithPull(request, view, start);
  }

  // ---------------------------------------------------------------- interleavings

  /** The server's states over time and the nondecreasing times of the reads. */
  ghost predicate Observes(view: View, timeline: nat -> Version, schedule: nat -> nat) {
    && (forall i, j :: i <= j ==> schedule(i) <= schedule(j))
    && (forall i :: view(i).Some? ==> view(i).value == timeline(schedule(i)))
  }

  /** Between two times with one anchor the content stands still. */
  ghost predicate AnchorsKeepContent(timeline: nat -> Version) {
    forall a, b, c :: a <= b <= c && timeline(a).anchor == timeline(c).anchor ==> SameContent(timeline(b), timeline(a))
  }

  /** Over every interleaving: whatever is published is exactly the capture of the one version that
      its anchor names; files, patches and commits of different versions are never mixed. */
  lemma {:induction false} PublishedIsOneVersion(request: Request, view: View, start: nat, timeline: nat -> Version,
                                                 schedule: nat -> nat)
    requires Observes(view, timeline, schedule) && AnchorsKeepContent(timeline)
    requires Capture(request, view, start).result.Published?
    ensures var v := timeline(schedule(start));
            && Capture(request, view, start).result == CaptureOf(request, v)
            && Capture(request, view, start).result.snapshot.anchor == v.anchor
  {
    var prepare := Preparer(request);
    PreparerHonours(request);
    PublishedReadAnchorTwice(prepare, request, view, start);
    var run := CaptureBy(prepare, request, view, start);
    forall i | start <= i < run.next && view(i).Some?
      ensures SameContent(view(i).value, view(start).value)
    {
      assert schedule(start) <= schedule(i) <= schedule(run.next - 1);
    }
    CaptureOfStableContent(prepare, request, view, start);
  }

  /** What is published has the requested content key, if one was requested. */
  lemma {:induction false} PublishedHasRequestedKey(request: Request, view: View, start: nat)
    requires Capture(request, view, start).result.Published? && request.requestedVersion != ""
    ensures Capture(request, view, start).result.snapshot.key == request.requestedVersion
  {
    PreparerHonours(request);
    PublishedReadAnchorTwice(Preparer(request), request, view, start);
  }

  ghost predicate AnchorMoved(view: View, from: nat, to: nat) {
    view(from).Some? && view(to).Some? && view(to).value.anchor != view(from).value.anchor
  }

  lemma {:induction false} MovedAnchorRejected(prepare: Material -> CaptureResult, request: Request, view: View,
                                               start: nat)
    requires Honours(prepare, request.requestedVersion)
    requires var run := CaptureBy(prepare, request, view, start);
             start < run.next && AnchorMoved(view, start, run.next - 1)
    ensures CaptureBy(prepare, request, view, start).result.Rejected?
  {
    if CaptureBy(prepare, request, view, start).result.Published? {
      PublishedReadAnchorTwice(prepare, request, view, start);
    }
  }

  /** A run whose anchor moved between its first and last read publishes nothing. */
  lemma {:induction false} MovedAnchorPublishesNothing(request: Request, view: View, start: nat)
    requires var run := Capture(request, view, start); start < run.next && AnchorMoved(view, start, run.next - 1)
    ensures Capture(request, view, start).result.Rejected?
  {
    PreparerHonours(request);
    MovedAnchorRejected(Preparer(request), request, view, start);
  }

  lemma {:induction false} PagesFail<T>(view: View, select: Version -> seq<T>, read: nat, p: nat, got: seq<T>,
                                        maximum: nat)
    requires p >= 1 && |got| <= maximum
    ensures var r := ReadPages(view, select, read, p, got, maximum); r.PageFailed? <==> Fails(view, read, r.next)
    decreases maximum - |got|
  {
    if view(read).Some? {
      var items := got + Take(Slice(select(view(read).value), PAGE_SIZE, p), maximum - |got|);
      var r := ReadPages(view, select, read, p, got, maximum);
      FailsLater(view, read, r.next);
      if r != Fetched(items, false, read + 1) && r != Fetched(items, true, read + 1) {
        PagesFail(view, select, read + 1, p + 1, items, maximum);
      }
    }
  }

  lemma {:induction false} FailsSomewhere(view: View, a: nat, b: nat, c: nat)
    requires a <= b <= c
    ensures Fails(view, a, c) <==> Fails(view, a, b) || Fails(view, b, c)
  {
  }

  lemma {:induction false} ContentFails(view: View, pull: Version, files: Paged<GitHubFile>, from: nat)
    requires from < files.next && (files.PageFailed? <==> Fails(view, from, files.next))
    ensures var c := CollectContent(view, pull, files);
            && (c.CollectFailed? <==> Fails(view, from, c.next)) && (c.CollectFailed? ==> c.error == Transport)
            && (c.Collected? ==> c.material.pull == pull)
  {
    var c := CollectContent(view, pull, files);
    FailsSomewhere(view, from, files.next, c.next);
    if files.Fetched? {
      if view(files.next).Some? {
        FailsLater(view, files.next, c.next);
        PagesFail(view, CommitsOf, files.next + 1, 1, [], MAXIMUM_COMMITS);
      }
    }
  }

  lemma {:induction false} CollectFails(request: Request, view: View, start: nat)
    ensures var c := Collect(request, view, start);
            && (Fails(view, start, c.next) <==> c.CollectFailed? && c.error == Transport)
            && (c.CollectFailed? && c.error != Transport ==> c.error == InvalidResponse && c.next == start + 1)
            && (c.Collected? ==> view(start).Some? && c.material.pull == view(start).value)
  {
    if view(start).Some? && ValidPull(request, view(start).value) {
      PagesFail(view, FilesOf, start + 1, 1, [], MAXIMUM_FILES);
      ContentFails(view, view(start).value, ReadPages(view, FilesOf, start + 1, 1, [], MAXIMUM_FILES), start + 1);
      FailsLater(view, start, Collect(request, view, start).next);
    }
  }

  /** What a preparation may refuse for. */
  ghost predicate Refuses(prepare: Material -> CaptureResult, requestedVersion: string) {
    forall m :: prepare(m).Rejected? ==>
      prepare(m).error == InvalidResponse || (prepare(m).error == NotFound && requestedVersion != "")
  }

  lemma {:induction false} PreparerRefuses(request: Request)
    ensures Refuses(Preparer(request), request.requestedVersion)
  {
  }

  ghost predicate RejectionsMean(run: Run, requestedVersion: string, view: View, start: nat) {
    && start < run.next && (run.result == Rejected(Transport) <==> Fails(view, start, run.next))
    && (run.result == Rejected(CaptureRaced) ==> AnchorMoved(view, start, run.next - 1))
    && (run.result == Rejected(NotFound) ==> requestedVersion != "")
  }

  lemma {:induction false} RejectionBy(prepare: Material -> CaptureResult, request: Request, view: View, start: nat)
    requires Honours(prepare, request.requestedVersion) && Refuses(prepare, request.requestedVersion)
    ensures RejectionsMean(CaptureBy(prepare, request, view, start), request.requestedVersion, view, start)
  {
    var c := Collect(request, view, start);
    CollectFails(request, view, start);
    FailsSomewhere(view, start, c.next, c.next + 1);
  }

  /** A transport error means that a request failed, a race that the anchor moved, not found that a version was asked for. */
  lemma {:induction false} RejectionMeans(request: Request, view: View, start: nat)
    ensures RejectionsMean(Capture(request, view, start), request.requestedVersion, view, start)
  {
    PreparerHonours(request);
    PreparerRefuses(request);
    RejectionBy(Preparer(request), request, view, start);
  }

  /** A quiet server is captured whenever its state can be captured at all. */
  lemma {:induction false} QuietServerIsCaptured(request: Request, view: View, start: nat, v: Version)
    requires forall i :: view(i) == Some(v)
    ensures Capture(request, view, start).result == CaptureOf(request, v)
  {
    PreparerHonours(request);
    CaptureOfStableContent(Preparer(request), request, view, start);
  }

  /** A state with a valid pull, acceptable files of distinct names, valid commits, a safe title and a snapshot within the
      contract is captured, unless another version was asked for. */
  lemma {:induction false} CapturableVersion(request: Request, v: Version)
    requires ValidPull(request, v) && ProviderKeys.SafeProviderText(v.title, 8192) && ValidCommits(v.commits)
    requires CollisionFree(request.digest) && DistinctNames(v.files)
    requires forall f :: f in v.files ==> AcceptableGithubFile(f)
    requires Prepare(request, MaterialOf(v)).Published? ==>
          request.validContract(Prepare(request, MaterialOf(v)).snapshot)
    ensures CaptureOf(request, v).Published? || CaptureOf(request, v) == Rejected(NotFound)
    ensures request.requestedVersion == "" ==> CaptureOf(request, v).Published?
  {
    var m := MaterialOf(v);
    KeptFilesAcceptable(v.files);
    GithubBuildAgrees(request.digest, request.objectId, m.files, Sections(request, m.diff), m.fileOverflow,
                      m.commitOverflow, Shas(m.commits));
    PreparedShape(request, m);
  }

  lemma {:induction false} PreparedShape(request: Request, m: Material)
    requires ValidCommits(m.commits)
    ensures var built := BuildGithub(request.digest, request.objectId, m.files, Sections(request, m.diff),
                                     m.fileOverflow, m.commitOverflow, Shas(m.commits));
            built.Some? ==>
              var p := Prepare(request, m);
              && (p == Rejected(NotFound) || (p.Published? && p.snapshot.title == m.pull.title
                    && p.snapshot.files == built.value.files && p.snapshot.contents == built.value.contents))
              && (request.requestedVersion == "" ==> p.Published?)
  {
  }

  lemma {:induction false} KeptFilesAcceptable(all: seq<GitHubFile>)
    requires DistinctNames(all) && forall f :: f in all ==> AcceptableGithubFile(f)
    ensures DistinctNames(Take(all, MAXIMUM_FILES)) &&
            AllAcceptable(Ordering.Sort(GitHubFileLe, Take(all, MAXIMUM_FILES)))
  {
    var files := Take(all, MAXIMUM_FILES);
    Ordering.MemberOfMultiset(Ordering.Sort(GitHubFileLe, files), files);
    assert all == files + all[|files|..];
    forall f: GitHubFile
      ensures multiset(files)[f] <= 1
    {
      assert multiset(all)[f] == multiset(files)[f] + multiset(all[|files|..])[f];
    }
    forall f | f in Ordering.Sort(GitHubFileLe, files)
      ensures AcceptableGithubFile(f)
    {
      assert f in files;
    }
  }

  /** The version with the anchor and metadata of one state and the content of another. */
  function Hybrid(a: Version, b: Version): Version {
    a.(files := b.files, diff := b.diff, commits := b.commits)
  }

  // ---------------------------------------------------------------- when captures mix

  /** Paging does not look past its last read. */
  lemma {:induction false} ReadPagesSame<T>(view: View, other: View, select: Version -> seq<T>, read: nat, p: nat,
                                            got: seq<T>, maximum: nat)
    requires p >= 1 && |got| <= maximum
    requires forall i :: read <= i < ReadPages(view, select, read, p, got, maximum).next ==> other(i) == view(i)
    ensures ReadPages(other, select, read, p, got, maximum) == ReadPages(view, select, read, p, got, maximum)
    decreases maximum - |got|
  {
    if view(read).Some? {
      var current := Take(Slice(select(view(read).value), PAGE_SIZE, p), maximum - |got|);
      var items := got + current;
      if !(|current| < PAGE_SIZE && |items| < maximum) && |items| < maximum {
        ReadPagesSame(view, other, select, read + 1, p + 1, items, maximum);
      }
    }
  }

  lemma {:induction false} CollectSame(request: Request, view: View, other: View, start: nat)
    requires forall i :: start <= i < Collect(request, view, start).next ==> other(i) == view(i)
    ensures Collect(request, other, start) == Collect(request, view, start)
  {
    if view(start).Some? && ValidPull(request, view(start).value) {
      var files := ReadPages(view, FilesOf, start + 1, 1, [], MAXIMUM_FILES);
      ReadPagesSame(view, other, FilesOf, start + 1, 1, [], MAXIMUM_FILES);
      if files.Fetched? && view(files.next).Some? {
        ReadPagesSame(view, other, CommitsOf, files.next + 1, 1, [], MAXIMUM_COMMITS);
      }
    }
  }

  /** The first read sees one version, the other reads before the n-th another, and all later ones a third. */
  function Through(first: Version, between: Version, last: Version, n: nat): View {
    (i: nat) => Some(if i == 0 then first else if i < n then between else last)
  }

  ghost predicate Detours(view: View, first: Version, between: Version, last: Version, n: nat) {
    forall i: nat :: view(i) == Some(if i == 0 then first else if i < n then between else last)
  }

  lemma {:induction false} ThroughDetours(first: Version, between: Version, last: Version, n: nat)
    ensures Detours(Through(first, between, last, n), first, between, last, n)
  {
  }

  /** Content reads that all see one content collect it, whatever the pull was. */
  lemma {:induction false} CollectBehind(view: View, pull: Version, v: Version)
    requires forall i :: i >= 1 ==> view(i).Some? && SameContent(view(i).value, v)
    ensures var c := CollectContent(view, pull, ReadPages(view, FilesOf, 1, 1, [], MAXIMUM_FILES));
            c == Collected(MaterialOf(v).(pull := pull), c.next)
  {
    var files := ReadPages(view, FilesOf, 1, 1, [], MAXIMUM_FILES);
    StableFilePages(view, 1, v);
    ContentOfStableWindow(view, v, files, 1);
    assert CollectContent(view, v, files).Collected?;
  }

  /** What is collected from a pull and the material behind it. */
  function Gathered(request: Request, pull: Version, m: Material, next: nat): Collection {
    if !ValidPull(request, pull) then CollectFailed(InvalidResponse, next) else Collected(m, next)
  }

  lemma {:induction false} CollectDetour(request: Request, view: View, first: Version, between: Version)
    requires Detours(view, first, between, between, 1)
    ensures var c := Collect(request, view, 0);
            c.next >= 1 && c == Gathered(request, first, MaterialOf(Hybrid(first, between)).(pull := first), c.next)
  {
    CollectBehind(view, first, Hybrid(first, between));
  }

  /** The first n reads see the same. */
  ghost predicate Agree(view: View, other: View, n: nat) {
    forall i: nat :: i < n ==> other(i) == view(i)
  }

  lemma {:induction false} CollectAgreeing(request: Request, view: View, other: View)
    requires Agree(view, other, Collect(request, view, 0).next)
    ensures Collect(request, other, 0) == Collect(request, view, 0)
  {
    CollectSame(request, view, other, 0);
  }

  lemma {:induction false} DetoursAgree(view: View, other: View, first: Version, between: Version, last: Version,
                                        n: nat)
    requires Detours(view, first, between, between, 1) && Detours(other, first, between, last, n) && n >= 1
    ensures Agree(view, other, n)
  {
  }

  /** A run that looks at the anchor again right after its content reads has collected them as if the third version
      never came. */
  lemma {:induction false} DetourCollected(request: Request, first: Version, between: Version, last: Version)
    returns (n: nat)
    ensures n >= 1
    ensures Collect(request, Through(first, between, last, n), 0)
         == Gathered(request, first, MaterialOf(Hybrid(first, between)).(pull := first), n)
  {
    var view := Through(first, between, between, 1);
    ThroughDetours(first, between, between, 1);
    CollectDetour(request, view, first, between);
    n := Collect(request, view, 0).next;
    ThroughDetours(first, between, last, n);
    DetoursAgree(view, Through(first, between, last, n), first, between, last, n);
    CollectAgreeing(request, view, Through(first, between, last, n));
  }

  /** When the second look finds the pull's anchor, the run ends as what was prepared does. */
  lemma {:induction false} ConcludeGathered(prepare: Material -> CaptureResult, request: Request, view: View,
                                            pull: Version, m: Material, n: nat, last: Version)
    requires Honours(prepare, request.requestedVersion) && m.pull == pull
    requires Collect(request, view, 0) == Gathered(request, pull, m, n)
    requires view(n) == Some(last) && last.anchor == pull.anchor
    ensures CaptureBy(prepare, request, view, 0).result
         == if !ValidPull(request, pull) then Rejected(InvalidResponse) else Finish(request, prepare(m))
  {
  }

  lemma {:induction false} DetourMixes(prepare: Material -> CaptureResult, request: Request, first: Version,
                                       between: Version, last: Version, n: nat)
    requires Honours(prepare, request.requestedVersion) && first.anchor == last.anchor && n >= 1
    requires var m := MaterialOf(Hybrid(first, between)); prepare(m.(pull := first)) == prepare(m)
    requires Collect(request, Through(first, between, last, n), 0)
          == Gathered(request, first, MaterialOf(Hybrid(first, between)).(pull := first), n)
    ensures CaptureBy(prepare, request, Through(first, between, last, n), 0).result
         == CaptureOfBy(prepare, request, Hybrid(first, between))
  {
    ThroughDetours(first, between, last, n);
    ConcludeGathered(prepare, request, Through(first, between, last, n), first,
                     MaterialOf(Hybrid(first, between)).(pull := first), n, last);
  }

  /** When the anchor is the same before and after content reads that saw another version, the run is the capture of the
      mixture. */
  lemma {:induction false} RecurringAnchorMixes(request: Request, first: Version, between: Version, last: Version)
    returns (n: nat)
    requires first.anchor == last.anchor
    ensures Capture(request, Through(first, between, last, n), 0).result == CaptureOf(request, Hybrid(first, between))
  {
    SameMaterialResult(request, MaterialOf(Hybrid(first, between)), first);
    PreparerHonours(request);
    n := DetourCollected(request, first, between, last);
    DetourMixes(Preparer(request), request, first, between, last, n);
  }

  /** The times of such a run on a timeline. */
  function Detour(a: nat, b: nat, c: nat, n: nat): nat -> nat {
    (i: nat) => if i == 0 then a else if i < n then b else c
  }

  lemma {:induction false} DetourObserved(timeline: nat -> Version, a: nat, b: nat, c: nat, n: nat)
    requires a <= b <= c
    ensures Observes(Through(timeline(a), timeline(b), timeline(c), n), timeline, Detour(a, b, c, n))
  {
    var schedule := Detour(a, b, c, n);
    ThroughDetours(timeline(a), timeline(b), timeline(c), n);
    forall i: nat, j: nat | i <= j ensures schedule(i) <= schedule(j) { }
  }

  lemma {:induction false} CapturedParts(request: Request, v: Version)
    ensures var result := CaptureOf(request, v);
            result.Published? ==> result.snapshot.anchor == v.anchor && result.snapshot.commits == Take(v.commits, MAXIMUM_COMMITS)
  {
  }

  /** What a version needs to be published. */
  ghost predicate Capturable(request: Request, v: Version) {
    && ValidPull(request, v) && ProviderKeys.SafeProviderText(v.title, 8192) && ValidCommits(v.commits)
    && DistinctNames(v.files) && forall f :: f in v.files ==> AcceptableGithubFile(f)
  }

  const HEX := {'0', '1', '2', '3', '4', '5', '6', '7', '8', '9', 'a', 'b', 'c', 'd', 'e', 'f'}

  /** Forty or sixty-four hexadecimal digits. */
  ghost predicate IsHash(s: string) {
    |s| in {40, 64} && forall c :: c in s ==> c in HEX
  }

  ghost predicate IsText(s: string) {
    0 < |s| <= 8192 && forall c :: c in s ==> c as int != 0
  }

  lemma {:induction false} HashExactly(s: string)
    ensures ProviderKeys.IsProviderSha(s) <==> IsHash(s)
    ensures ProviderKeys.SafeProviderText(s, 8192) <==> IsText(s)
  {
    assert forall c: char :: c in HEX <==> '0' <= c <= '9' || 'a' <= c <= 'f';
    if ProviderKeys.IsProviderSha(s) {
      forall c | c in s
        ensures c in HEX
      {
        var i :| 0 <= i < |s| && s[i] == c;
      }
    }
    if IsHash(s) { assert forall i :: 0 <= i < |s| ==> s[i] in s; }
  }

  /** What a version needs, spelled out. */
  lemma {:induction false} CapturableExactly(request: Request, v: Version)
    ensures Capturable(request, v)
       <==> && v.baseRepository == request.targetRepository && IsHash(v.anchor.baseSha) && IsHash(v.anchor.headSha)
            && IsText(v.title) && (forall c :: c in v.commits ==> IsHash(c.sha) && IsText(c.subject))
            && DistinctNames(v.files) && forall f :: f in v.files ==> AcceptableGithubFile(f)
  {
    HashExactly(v.anchor.baseSha);
    HashExactly(v.anchor.headSha);
    HashExactly(v.title);
    CommitsReadable(v.commits);
  }

  lemma {:induction false} CommitsReadable(commits: seq<Commit>)
    ensures ValidCommits(commits) <==> forall c :: c in commits ==> IsHash(c.sha) && IsText(c.subject)
  {
    forall i | 0 <= i < |commits|
      ensures ProviderKeys.IsProviderSha(commits[i].sha) && ProviderKeys.SafeProviderText(commits[i].subject, 8192)
          <==> IsHash(commits[i].sha) && IsText(commits[i].subject)
    {
      HashExactly(commits[i].sha);
      HashExactly(commits[i].subject);
    }
    assert forall i :: 0 <= i < |commits| ==> commits[i] in commits;
  }

  /** A file is acceptable when its paths are and GitHub's word for its status is known. */
  lemma {:induction false} AcceptableExactly(f: GitHubFile)
    ensures AcceptableGithubFile(f)
       <==> && ProviderKeys.SafeProviderPath(f.filename) && (f.previousFilename == "" || ProviderKeys.SafeProviderPath(f.previousFilename))
            && f.status in {"added", "removed", "modified", "changed", "renamed", "copied"}
  {
  }

  /** The snapshot says of the version's first 3000 files and first 250 commits what the version holds, and claims no list to
      be whole that is not. */
  ghost predicate Tells(request: Request, snapshot: Snapshot, v: Version) {
    var files, sections := Take(v.files, 3000), Sections(request, v.diff);
    var built := Built(snapshot.files, snapshot.contents, snapshot.completeness, snapshot.manifest);
    && v.baseRepository == request.targetRepository && IsHash(v.anchor.baseSha) && IsHash(v.anchor.headSha)
    && snapshot.anchor == v.anchor && snapshot.title == v.title && snapshot.summary == v.summary
    && snapshot.commits == Take(v.commits, 250) &&
       (forall c :: c in snapshot.commits ==> IsHash(c.sha) && IsText(c.subject))
    && IsText(snapshot.title) && request.validContract(snapshot)
    && RowsSay(built, files, sections) && BytesServed(built, request.digest, request.objectId, files, sections)
    && ClaimsHold(snapshot.completeness, files, sections, |v.files| >= 3000, |v.commits| >= 250)
  }

  /** The snapshot is the built rows with the pull's own data and the kept commits. */
  ghost predicate MadeOf(request: Request, snapshot: Snapshot, v: Version, built: Built) {
    && snapshot.files == built.files && snapshot.contents == built.contents
    && snapshot.completeness == built.completeness && snapshot.manifest == built.manifest
    && snapshot.anchor == v.anchor && snapshot.title == v.title && snapshot.summary == v.summary
    && snapshot.commits == Take(v.commits, 250) && ValidCommits(snapshot.commits) && ValidPull(request, v)
    && ProviderKeys.SafeProviderText(v.title, 8192) && request.validContract(snapshot)
  }

  function BuiltFor(request: Request, v: Version): Option<Built> {
    BuildGithub(request.digest, request.objectId, Take(v.files, 3000), Sections(request, v.diff), |v.files| >= 3000,
                |v.commits| >= 250, Shas(Take(v.commits, 250)))
  }

  lemma {:induction false} CapturedShape(request: Request, v: Version)
    requires CaptureOf(request, v).Published?
    ensures BuiltFor(request, v).Some? && MadeOf(request, CaptureOf(request, v).snapshot, v, BuiltFor(request, v).value)
  {
  }

  lemma {:induction false} BuiltForTells(request: Request, v: Version)
    requires BuiltFor(request, v).Some?
    ensures var built, files, sections := BuiltFor(request, v).value, Take(v.files, 3000), Sections(request, v.diff);
            && RowsSay(built, files, sections) && BytesServed(built, request.digest, request.objectId, files, sections)
            && ClaimsHold(built.completeness, files, sections, |v.files| >= 3000, |v.commits| >= 250)
  {
    var files, sections, shas := Take(v.files, 3000), Sections(request, v.diff), Shas(Take(v.commits, 250));
    BuiltRowsSay(request.digest, request.objectId, files, sections, |v.files| >= 3000, |v.commits| >= 250, shas);
    BuiltBytesServed(request.digest, request.objectId, files, sections, |v.files| >= 3000, |v.commits| >= 250, shas);
    BuiltClaimsHold(request.digest, request.objectId, files, sections, |v.files| >= 3000, |v.commits| >= 250, shas);
  }

  lemma {:induction false} MadeTells(request: Request, snapshot: Snapshot, v: Version, built: Built)
    requires MadeOf(request, snapshot, v, built)
    requires var files, sections := Take(v.files, 3000), Sections(request, v.diff);
             && RowsSay(built, files, sections) && BytesServed(built, request.digest, request.objectId, files, sections)
             && ClaimsHold(built.completeness, files, sections, |v.files| >= 3000, |v.commits| >= 250)
    ensures Tells(request, snapshot, v)
  {
    assert Built(snapshot.files, snapshot.contents, snapshot.completeness, snapshot.manifest) == built;
    HashExactly(v.anchor.baseSha);
    HashExactly(v.anchor.headSha);
    HashExactly(v.title);
    CommitsReadable(snapshot.commits);
  }

  lemma {:induction false} CaptureTells(request: Request, v: Version)
    requires CaptureOf(request, v).Published?
    ensures Tells(request, CaptureOf(request, v).snapshot, v)
  {
    CapturedShape(request, v);
    BuiltForTells(request, v);
    MadeTells(request, CaptureOf(request, v).snapshot, v, BuiltFor(request, v).value);
  }

  /** Over every interleaving: the published commit list is exact exactly when the named version has fewer than 250, and then
      it is that version's list; the file set exactly when it has fewer than 3000 files, and then there is a row for each. */
  lemma {:induction false} PublishedClaimsHold(request: Request, view: View, start: nat, timeline: nat -> Version,
                                               schedule: nat -> nat)
    requires Observes(view, timeline, schedule) && AnchorsKeepContent(timeline)
    requires Capture(request, view, start).result.Published?
    ensures var v, snapshot := timeline(schedule(start)), Capture(request, view, start).result.snapshot;
            && Tells(request, snapshot, v)
            && (snapshot.completeness.commits.Exact? <==> |v.commits| < 250)
            && (snapshot.completeness.commits.Exact? ==> snapshot.commits == v.commits)
            && (snapshot.completeness.fileSet.Exact? <==> |v.files| < 3000)
            && (snapshot.completeness.fileSet.Exact? ==>
                  |snapshot.files| == |v.files| && forall f :: f in v.files ==> HasRow(request, snapshot, v, f))
  {
    var v := timeline(schedule(start));
    PublishedIsOneVersion(request, view, start, timeline, schedule);
    CaptureTells(request, v);
    if |v.files| < 3000 { RowForEach(request, CaptureOf(request, v).snapshot, v); }
  }

  /** Some row says of the file what GitHub said of it. */
  ghost predicate HasRow(request: Request, snapshot: Snapshot, v: Version, f: GitHubFile) {
    exists row :: row in snapshot.files && SaysOf(row, f, SectionOf(Sections(request, v.diff), f))
  }

  lemma {:induction false} RowForEach(request: Request, snapshot: Snapshot, v: Version)
    requires Tells(request, snapshot, v) && |v.files| < 3000
    ensures |snapshot.files| == |v.files| && forall f :: f in v.files ==> HasRow(request, snapshot, v, f)
  {
    var sorted := Ordering.Sort(GitHubFileLe, v.files);
    assert Take(v.files, 3000) == v.files;
    Ordering.MemberOfMultiset(sorted, v.files);
    forall f | f in v.files
      ensures HasRow(request, snapshot, v, f)
    {
      var i :| 0 <= i < |sorted| && sorted[i] == f;
      assert snapshot.files[i] in snapshot.files;
    }
  }

  /** The commits that are kept name the content. */
  ghost predicate CommitsNameContent(timeline: nat -> Version) {
    forall s, t :: Take(timeline(s).commits, MAXIMUM_COMMITS) == Take(timeline(t).commits, MAXIMUM_COMMITS) ==>
      SameContent(timeline(s), timeline(t))
  }

  /** The run publishes nothing, or the capture of the version its first read saw. */
  ghost predicate CapturesFirst(request: Request, view: View, start: nat, first: Version) {
    var result := Capture(request, view, start).result;
    result.Published? ==> result == CaptureOf(request, first)
  }

  /** A return to an anchor around other content lets a run publish that content under it. */
  lemma {:induction false} DetourPublishesMixture(request: Request, timeline: nat -> Version, a: nat, b: nat, c: nat)
    returns (n: nat)
    requires CollisionFree(request.digest) && request.requestedVersion == "" && forall s :: request.validContract(s)
    requires Capturable(request, timeline(a)) && Capturable(request, timeline(b))
    requires a <= b <= c && timeline(a).anchor == timeline(c).anchor
    ensures var view := Through(timeline(a), timeline(b), timeline(c), n);
            var result := Capture(request, view, 0).result;
            && Observes(view, timeline, Detour(a, b, c, n))
            && result.Published? && result.snapshot.anchor == timeline(a).anchor
            && result.snapshot.commits == Take(timeline(b).commits, MAXIMUM_COMMITS)
  {
    var hybrid := Hybrid(timeline(a), timeline(b));
    n := RecurringAnchorMixes(request, timeline(a), timeline(b), timeline(c));
    DetourObserved(timeline, a, b, c, n);
    CapturableVersion(request, hybrid);
    CapturedParts(request, hybrid);
  }

  /** Over all interleavings nothing but captures of single versions is published, exactly when between two times with one
      anchor the content stands still. */
  lemma {:induction false} NeverMixesExactly(request: Request, timeline: nat -> Version)
    requires CollisionFree(request.digest) && request.requestedVersion == "" && forall s :: request.validContract(s)
    requires CommitsNameContent(timeline) && forall t :: Capturable(request, timeline(t))
    ensures (forall view: View, schedule: nat -> nat, start: nat :: Observes(view, timeline, schedule) ==>
               CapturesFirst(request, view, start, timeline(schedule(start))))
        <==> AnchorsKeepContent(timeline)
  {
    if AnchorsKeepContent(timeline) {
      forall view: View, schedule: nat -> nat, start: nat | Observes(view, timeline, schedule)
        ensures CapturesFirst(request, view, start, timeline(schedule(start)))
      {
        if Capture(request, view, start).result.Published? {
          PublishedIsOneVersion(request, view, start, timeline, schedule);
        }
      }
    } else {
      var a: nat, b: nat, c: nat :| a <= b <= c && timeline(a).anchor == timeline(c).anchor && !SameContent(timeline(b), timeline(a));
      var n := DetourPublishesMixture(request, timeline, a, b, c);
      CapturedParts(request, timeline(a));
      assert !CapturesFirst(request, Through(timeline(a), timeline(b), timeline(c), n), 0, timeline(Detour(a, b, c, n)(0)));
    }
  }

  function Repeated(c: char): string {
    seq(40, i requires 0 <= i < 40 => c)
  }

  /** A change without files at two states that differ in base, head and one commit. */
  function ExampleVersion(repository: string, c: char): Version {
    Version(Anchor(Repeated(c), Repeated(c)), repository, "title", "", [], None, [Commit(Repeated(c), "subject")])
  }

  /** The server is at a, then at b, then at a again. */
  function ThereAndBack(a: Version, b: Version): nat -> Version {
    (t: nat) => if t == 1 then b else a
  }

  lemma {:induction false} ExampleIsCapturable(request: Request, c: char)
    requires c == 'a' || c == 'b'
    ensures Capturable(request, ExampleVersion(request.targetRepository, c))
  {
  }

  lemma {:induction false} ExamplesDiffer(repository: string)
    ensures var a, b := ExampleVersion(repository, 'a'), ExampleVersion(repository, 'b');
            a.anchor != b.anchor && Take(a.commits, MAXIMUM_COMMITS) == a.commits != b.commits == Take(b.commits, MAXIMUM_COMMITS)
  {
    var a, b := ExampleVersion(repository, 'a'), ExampleVersion(repository, 'b');
    assert Repeated('a')[0] != Repeated('b')[0];
    assert a.commits[0].sha != b.commits[0].sha;
  }

  /** A run over such a timeline publishes b's commits under a's anchor: the capture of neither. */
  lemma {:induction false} RecurringAnchorExample(request: Request) returns (n: nat)
    requires request.requestedVersion == "" && CollisionFree(request.digest) && forall s :: request.validContract(s)
    ensures var a, b := ExampleVersion(request.targetRepository, 'a'), ExampleVersion(request.targetRepository, 'b');
            var result := Capture(request, Through(a, b, a, n), 0).result;
            && Observes(Through(a, b, a, n), ThereAndBack(a, b), Detour(0, 1, 2, n))
            && result.Published? && result.snapshot.anchor == a.anchor && result.snapshot.commits == b.commits
            && result != CaptureOf(request, a) && result != CaptureOf(request, b)
  {
    var a, b := ExampleVersion(request.targetRepository, 'a'), ExampleVersion(request.targetRepository, 'b');
    ExampleIsCapturable(request, 'a');
    ExampleIsCapturable(request, 'b');
    ExamplesDiffer(request.targetRepository);
    n := DetourPublishesMixture(request, ThereAndBack(a, b), 0, 1, 2);
    CapturedParts(request, a);
    CapturedParts(request, b);
  }

  /** Of the pull only the anchor, the title and the summary matter to the result. */
  lemma {:induction false} SameMaterialResult(request: Request, m: Material, a: Version)
    requires a.anchor == m.pull.anchor && a.title == m.pull.title && a.summary == m.pull.summary
    ensures Preparer(request)(m.(pull := a)) == Preparer(request)(m)
  {
  }

  // ---------------------------------------------------------------- the content key

  /** The row's file entry is a function of the parts that enter the manifest. */
  lemma {:induction false} RowDeterminesFile(digest: ProviderKeys.Digest, objectId: string, sections: seq<DiffSection>,
                                             f: GitHubFile, sections': seq<DiffSection>, f': GitHubFile, i: nat)
    requires AcceptableGithubFile(f) && AcceptableGithubFile(f')
    requires SameRow(GithubRowAt(digest, objectId, sections, i, f), GithubRowAt(digest, objectId, sections', i, f'))
    ensures GithubRowAt(digest, objectId, sections, i, f) == GithubRowAt(digest, objectId, sections', i, f')
  {
    var r, r' := GithubRowAt(digest, objectId, sections, i, f), GithubRowAt(digest, objectId, sections', i, f');
    assert r.file.displayPath == if r.file.status.Deleted? then r.oldPath else r.newPath;
    assert r'.file.displayPath == if r'.file.status.Deleted? then r'.oldPath else r'.newPath;
    assert r.file.key == ProviderKeys.ProviderFileKey(digest, "github", objectId, r.oldPath, r.newPath);
    assert r'.file.key == ProviderKeys.ProviderFileKey(digest, "github", objectId, r'.oldPath, r'.newPath);
  }

  ghost predicate HashCollides(digest: ProviderKeys.Digest) {
    exists u, v :: ProviderKeys.Collision(digest, u, v)
  }

  lemma {:induction false} SameManifestSameBuild(digest: ProviderKeys.Digest, objectId: string, files: seq<GitHubFile>,
                                                 sections: seq<DiffSection>, fo: bool, co: bool, shas: seq<string>,
                                                 files': seq<GitHubFile>, sections': seq<DiffSection>, fo': bool,
                                                 co': bool, shas': seq<string>)
    requires ProviderKeys.HexDigest(digest) && !HashCollides(digest)
    requires forall i :: 0 <= i < |shas| ==> ProviderKeys.IsProviderSha(shas[i])
    requires forall i :: 0 <= i < |shas'| ==> ProviderKeys.IsProviderSha(shas'[i])
    requires var b := BuildGithub(digest, objectId, files, sections, fo, co, shas);
             var b' := BuildGithub(digest, objectId, files', sections', fo', co', shas');
             b.Some? && b'.Some? && b.value.manifest == b'.value.manifest
    ensures BuildGithub(digest, objectId, files, sections, fo, co, shas)
         == BuildGithub(digest, objectId, files', sections', fo', co', shas')
    ensures shas == shas'
  {
    var sorted, sorted' := Ordering.Sort(GitHubFileLe, files), Ordering.Sort(GitHubFileLe, files');
    var rows, rows' := GithubRows(digest, objectId, sections, sorted), GithubRows(digest, objectId, sections', sorted');
    var c, c' := GithubCompleteness(rows, fo, co), GithubCompleteness(rows', fo', co');
    ProviderKeys.OpaqueKeyInjective(digest, "manifest", ManifestParts(rows, shas, c), "manifest",
                                    ManifestParts(rows', shas', c'));
    assert !ProviderKeys.Collision(digest, ProviderKeys.Frame(ManifestParts(rows, shas, c)),
                                   ProviderKeys.Frame(ManifestParts(rows', shas', c')));
    ManifestDetermines(rows, shas, c, rows', shas', c');
    forall i | 0 <= i < |rows|
      ensures rows[i] == rows'[i]
    {
      GithubRowsAt(digest, objectId, sections, sorted, i);
      GithubRowsAt(digest, objectId, sections', sorted', i);
      RowDeterminesFile(digest, objectId, sections, sorted[i], sections', sorted'[i], i);
    }
    assert rows == rows';
    AssessmentsDetermine(c, c');
  }

  predicate KnownAssessment(a: Assessment) {
    a == Exact || a == PARTIAL || a == OVERFLOW
  }

  lemma {:induction false} AssessmentDetermined(a: Assessment, b: Assessment)
    requires KnownAssessment(a) && KnownAssessment(b) && StateText(a) == StateText(b) && ReasonText(a) == ReasonText(b)
    ensures a == b
  {
    assert "change_request_partial"[15] == 'p' && "change_request_overflow"[15] == 'o';
    assert |"exact"| != |"unavailable"|;
  }

  lemma {:induction false} AssessmentsDetermine(c: Completeness, c': Completeness)
    requires AssessmentParts(c) == AssessmentParts(c')
    requires KnownAssessment(c.fileSet) && KnownAssessment(c.patches) && KnownAssessment(c.modes) &&
             KnownAssessment(c.commits)
    requires KnownAssessment(c'.fileSet) && KnownAssessment(c'.patches) && KnownAssessment(c'.modes) &&
             KnownAssessment(c'.commits)
    ensures c == c'
  {
    var p, p' := AssessmentParts(c), AssessmentParts(c');
    assert p[0] == p'[0] && p[1] == p'[1] && p[2] == p'[2] && p[3] == p'[3];
    assert p[4] == p'[4] && p[5] == p'[5] && p[6] == p'[6] && p[7] == p'[7];
    AssessmentDetermined(c.fileSet, c'.fileSet);
    AssessmentDetermined(c.patches, c'.patches);
    AssessmentDetermined(c.modes, c'.modes);
    AssessmentDetermined(c.commits, c'.commits);
  }

  lemma {:induction false} ContentKeyDetermines(request: Request, request': Request, m: Material, m': Material,
                                                b: Built, b': Built)
    requires ProviderKeys.HexDigest(request.digest) && !HashCollides(request.digest)
    requires request.digest == request'.digest && request.objectId == request'.objectId
    requires var p, p' := PrepareBuilt(request, m, b), PrepareBuilt(request', m', b');
             p.Published? && p'.Published? && p.snapshot.key == p'.snapshot.key
    ensures m.pull.anchor == m'.pull.anchor && b.manifest == b'.manifest
  {
    var digest, objectId := request.digest, request.objectId;
    var parts := [objectId, "", m.pull.anchor.baseSha, m.pull.anchor.baseSha, m.pull.anchor.headSha, b.manifest];
    var parts' := [objectId, "", m'.pull.anchor.baseSha, m'.pull.anchor.baseSha, m'.pull.anchor.headSha, b'.manifest];
    ProviderKeys.OpaqueKeyInjective(digest, "github" + "-content", parts, "github" + "-content", parts');
    assert !ProviderKeys.Collision(digest, ProviderKeys.Frame(parts), ProviderKeys.Frame(parts'));
    assert parts[2] == parts'[2] && parts[4] == parts'[4] && parts[5] == parts'[5];
  }

  /** Unless the hash collides, two snapshots of one change with the same content key agree on anchor,
      files, patches, completeness and commit hashes. */
  lemma {:induction false} SameKeySameContent(request: Request, request': Request, m: Material, m': Material)
    requires ProviderKeys.HexDigest(request.digest) && !HashCollides(request.digest)
    requires request.digest == request'.digest && request.objectId == request'.objectId
    requires var p, p' := Prepare(request, m), Prepare(request', m');
             p.Published? && p'.Published? && p.snapshot.key == p'.snapshot.key
    ensures var s, s' := Prepare(request, m).snapshot, Prepare(request', m').snapshot;
            && s.anchor == s'.anchor && s.files == s'.files && s.contents == s'.contents
            && s.completeness == s'.completeness && Shas(s.commits) == Shas(s'.commits)
  {
    var digest, objectId := request.digest, request.objectId;
    var b := BuildGithub(digest, objectId, m.files, Sections(request, m.diff), m.fileOverflow, m.commitOverflow,
                         Shas(m.commits));
    var b' := BuildGithub(digest, objectId, m'.files, Sections(request', m'.diff), m'.fileOverflow, m'.commitOverflow, Shas(m'.commits));
    ContentKeyDetermines(request, request', m, m', b.value, b'.value);
    SameManifestSameBuild(digest, objectId, m.files, Sections(request, m.diff), m.fileOverflow, m.commitOverflow, Shas(m.commits),
                          m'.files, Sections(request', m'.diff), m'.fileOverflow, m'.commitOverflow, Shas(m'.commits));
  }

  // ---------------------------------------------------------------- the client

  /** The server as one client sees it; only the number of reads changes on this side. */
  class Server {
    const timeline: nat -> Version
    const schedule: nat -> nat
    const reachable: nat -> bool
    var answered: nat

    constructor (timeline: nat -> Version, schedule: nat -> nat, reachable: nat -> bool)
      ensures this.timeline == timeline && this.schedule == schedule && this.reachable == reachable && answered == 0
    {
      this.timeline, this.schedule, this.reachable := timeline, schedule, reachable;
      answered := 0;
    }

    function Seen(): View {
      (i: nat) => if reachable(i) then Some(timeline(schedule(i))) else None
    }

    /** One request; time passes between requests. */
    method Read() returns (v: Option<Version>)
      modifies this`answered
      ensures answered == old(answered) + 1 && v == Seen()(old(answered))
    {
      v := if reachable(answered) then Some(timeline(schedule(answered))) else None;
      answered := answered + 1;
    }
  }

  method FetchPages<T>(server: Server, select: Version -> seq<T>, maximum: nat) returns (r: Paged<T>)
    modifies server`answered
    ensures r == ReadPages(server.Seen(), select, old(server.answered), 1, [], maximum)
    ensures server.answered == r.next
  {
    var items: seq<T> := [];
    var p := 1;
    ghost var view := server.Seen();
    ghost var whole := ReadPages(view, select, server.answered, 1, [], maximum);
    while true
      invariant p >= 1 && |items| <= maximum
      invariant whole == ReadPages(view, select, server.answered, p, items, maximum)
      decreases maximum - |items|
    {
      var response := server.Read();
      if response.None? { return PageFailed(server.answered); }
      var current := Slice(select(response.value), PAGE_SIZE, p);
      var remaining := maximum - |items|;
      if |current| > remaining { current := current[..remaining]; }
      items := items + current;
      if |current| < PAGE_SIZE && |items| < maximum { return Fetched(items, false, server.answered); }
      if |items| >= maximum { return Fetched(items, true, server.answered); }
      p := p + 1;
    }
  }

  method CollectMaterial(server: Server, request: Request) returns (c: Collection)
    modifies server`answered
    ensures c == Collect(request, server.Seen(), old(server.answered)) && server.answered == c.next
  {
    var initial := server.Read();
    if initial.None? { return CollectFailed(Transport, server.answered); }
    var pull := initial.value;
    if !ValidPull(request, pull) { return CollectFailed(InvalidResponse, server.answered); }
    var files := FetchPages(server, FilesOf, MAXIMUM_FILES);
    c := CollectRest(server, pull, files);
  }

  method CollectRest(server: Server, pull: Version, files: Paged<GitHubFile>) returns (c: Collection)
    requires server.answered == files.next
    modifies server`answered
    ensures c == CollectContent(server.Seen(), pull, files) && server.answered == c.next
  {
    if files.PageFailed? { return CollectFailed(Transport, server.answered); }
    var raw := server.Read();
    if raw.None? { return CollectFailed(Transport, server.answered); }
    var commits := FetchPages(server, CommitsOf, MAXIMUM_COMMITS);
    if commits.PageFailed? { return CollectFailed(Transport, server.answered); }
    return Collected(Material(pull, files.items, files.overflow, raw.value.diff, commits.items, commits.overflow),
                     server.answered);
  }

  method PrepareSnapshot(request: Request, m: Material) returns (prepared: CaptureResult)
    ensures prepared == Prepare(request, m)
  {
    var built := GithubFiles(request.digest, request.objectId, m.files, Sections(request, m.diff),
                             m.fileOverflow, m.commitOverflow, Shas(m.commits));
    if built.None? || !ValidCommits(m.commits) { return Rejected(InvalidResponse); }
    return PrepareBuilt(request, m, built.value);
  }

  method ConcludeCapture(server: Server, request: Request, prepared: CaptureResult) returns (result: CaptureResult)
    modifies server`answered
    ensures Run(result, server.answered) == Conclude(request, prepared, server.Seen(), old(server.answered))
  {
    if prepared.Rejected? { return prepared; }
    var final := server.Read();
    if final.None? { return Rejected(Transport); }
    if final.value.anchor != prepared.snapshot.anchor { return Rejected(CaptureRaced); }
    if !ProviderKeys.SafeProviderText(prepared.snapshot.title, 8192) || !request.validContract(prepared.snapshot) {
      return Rejected(InvalidResponse);
    }
    var issues := ContentIssues(prepared.snapshot.files, prepared.snapshot.contents);
    if issues != [] { return Rejected(InvalidResponse); }
    return prepared;
  }

  method GetSnapshot(server: Server, request: Request) returns (result: CaptureResult)
    modifies server`answered
    ensures Run(result, server.answered) == Capture(request, server.Seen(), old(server.answered))
  {
    var c := CollectMaterial(server, request);
    if c.CollectFailed? { return Rejected(c.error); }
    var prepared := PrepareSnapshot(request, c.material);
    result := ConcludeCapture(server, request, prepared);
  }
}
