/** Capturing a change through a profile while the server keeps changing: GetSnapshot of
    internal/changehost/openapi_provider.go, collectFiles and collectCommits of internal/changehost/openapi_execute.go. */
module OpenApiCapture {
  import DiffSections
  import opened OpenApiFiles
  import opened OpenApiPages
  import Pages
  import ProviderKeys
  import opened SnapshotFiles
  import opened Wrappers

  datatype Anchor = Anchor(nativeVersion: string, headSha: string, baseSha: string, diffBaseSha: string)

  /** A detail document: what the summary reads and the anchor, which may be missing from it. */
  datatype Detail = Detail(anchor: Option<Anchor>, title: string, lifecycle: string)

  datatype Commit = Commit(sha: string, subject: string)

  /** The state of one change on the server. */
  datatype Version = Version(detail: Detail, files: seq<Item>, diff: string, commits: seq<Commit>)

  /** What the i-th read finds; None for a request that fails. */
  type View = nat -> Option<Version>

  /** The documents read earlier in the call, by operation; later requests may take values from them. */
  type Outputs = map<string, Detail>

  const RESOLVE := "resolve_change"

  datatype FileSource = ListFiles(paging: Paging) | GetDiff | NoFiles

  datatype DiffFiles = DiffFiles(files: seq<FileChange>, contents: seq<Content>, overflow: bool)

  /** A profile bound to one change. How a list is cut into pages, and how a diff is read, are parameters. */
  datatype Profile = Profile(digest: ProviderKeys.Digest, kind: string, objectId: string, requestedVersion: string,
                             fields: OpenApiFiles.Profile, source: FileSource, commits: Option<Paging>,
                             fileLimit: nat, commitLimit: nat,
                             filePage: (seq<Item>, Outputs, Ask) -> Reply<Item>,
                             commitPage: (seq<Commit>, Outputs, Ask) -> Reply<Commit>,
                             readDiff: string -> Option<DiffFiles>,
                             contentKey: (Anchor, seq<FileChange>) -> string,
                             validContract: Snapshot -> bool)

  datatype Snapshot = Snapshot(key: string, anchor: Anchor, title: string, lifecycle: string, files: seq<FileChange>,
                               contents: seq<Content>, fileSet: Assessment, patches: Assessment, modes: Assessment,
                               commits: seq<Commit>, commitsKnown: Assessment)

  datatype ErrorCode = Unavailable | NotFound | CaptureRaced

  datatype CaptureResult = Published(snapshot: Snapshot) | Rejected(error: ErrorCode)

  // ---------------------------------------------------------------- the parts of a capture

  /** A list operation as the server answers it from the given read on. */
  function FileServer(profile: Profile, view: View, from: nat, outputs: Outputs): Server<Item> {
    (n: nat, ask: Ask) =>
      if n >= 1 && view(from + n - 1).Some? then profile.filePage(view(from + n - 1).value.files, outputs, ask) else Failed
  }

  function CommitServer(profile: Profile, view: View, from: nat, outputs: Outputs): Server<Commit> {
    (n: nat, ask: Ask) =>
      if n >= 1 && view(from + n - 1).Some? then profile.commitPage(view(from + n - 1).value.commits, outputs, ask) else Failed
  }

  datatype FilePart = FilePart(files: seq<FileChange>, contents: seq<Content>, fileSet: Assessment, patches: Assessment,
                               modes: Assessment)

  function ListedFiles(profile: Profile, fetch: Fetch<Item>): Option<FilePart> {
    if fetch.FetchFailed? || !OpenApiFiles.AllAcceptable(fetch.items) then None
    else
      var rows := Rows(profile.digest, profile.kind, profile.fields, fetch.items);
      Some(FilePart(Files(rows), Contents(rows), if fetch.overflow then ESTIMATED else Exact,
                    CollectedPatches(profile.fields, fetch.overflow), CollectedModes(profile.fields, fetch.overflow)))
  }

  function DiffedFiles(profile: Profile, diff: string): Option<FilePart> {
    var read := profile.readDiff(diff);
    if read.None? then None
    else Some(FilePart(read.value.files, read.value.contents, if read.value.overflow then ESTIMATED else Exact, Exact, UNSUPPORTED))
  }

  /** A part made from the fetch of a list. */
  ghost predicate IsListed<T(!new), P(!new)>(paging: Paging, serve: Server<T>, limit: nat, make: Fetch<T> -> Option<P>,
                                             part: Option<P>, took: nat)
  {
    exists fetch :: IsFetch(paging, serve, limit, fetch) && took == fetch.pages && part == make(fetch)
  }

  function FileMaker(profile: Profile): Fetch<Item> -> Option<FilePart> {
    fetch => ListedFiles(profile, fetch)
  }

  function CommitMaker(): Fetch<Commit> -> Option<CommitPart> {
    fetch => ListedCommits(fetch)
  }

  /** The file part, when the reads from the given one on bring it together; None for an error. */
  ghost predicate IsFilePart(profile: Profile, view: View, from: nat, outputs: Outputs, part: Option<FilePart>,
                             took: nat)
  {
    match profile.source
    case ListFiles(paging) =>
      IsListed(paging, FileServer(profile, view, from, outputs), profile.fileLimit, FileMaker(profile), part, took)
    case GetDiff => took == 1 && part == if view(from).None? then None else DiffedFiles(profile, view(from).value.diff)
    case NoFiles => took == 0 && part == Some(FilePart([], [], UNSUPPORTED, UNSUPPORTED, UNSUPPORTED))
  }

  datatype CommitPart = CommitPart(commits: seq<Commit>, known: Assessment)

  function ListedCommits(fetch: Fetch<Commit>): Option<CommitPart> {
    if fetch.FetchFailed? || exists i :: 0 <= i < |fetch.items| && (fetch.items[i].sha == "" || fetch.items[i].subject == "") then None
    else Some(CommitPart(fetch.items, if fetch.overflow then ESTIMATED else Exact))
  }

  ghost predicate IsCommitPart(profile: Profile, view: View, from: nat, outputs: Outputs, part: Option<CommitPart>,
                               took: nat)
  {
    match profile.commits
    case Some(paging) =>
      IsListed(paging, CommitServer(profile, view, from, outputs), profile.commitLimit, CommitMaker(), part, took)
    case None => took == 0 && part == Some(CommitPart([], UNSUPPORTED))
  }

  /** The native version of a key: a head commit stands for a missing one. */
  function NativeVersion(anchor: Anchor): string {
    if anchor.nativeVersion == "" && anchor.headSha != "" then anchor.headSha else anchor.nativeVersion
  }

  /** The content key of a profile: anchor and manifest digest. */
  function KeyOf(digest: ProviderKeys.Digest, kind: string, objectId: string): (Anchor, seq<FileChange>) -> string {
    (anchor: Anchor, files: seq<FileChange>) =>
      ProviderKeys.ProviderContentKey(digest, kind, objectId, NativeVersion(anchor), anchor.baseSha, anchor.diffBaseSha, anchor.headSha,
                         digest(ManifestText(files)))
  }

  function Assembled(profile: Profile, detail: Detail, part: FilePart, commits: CommitPart): Snapshot
    requires detail.anchor.Some?
  {
    Snapshot(profile.contentKey(detail.anchor.value, part.files), detail.anchor.value, detail.title, detail.lifecycle,
             part.files, part.contents, part.fileSet, part.patches, part.modes, commits.commits, commits.known)
  }

  predicate HasSummary(detail: Detail) {
    detail.title != "" && detail.lifecycle != "" && detail.anchor.Some?
  }

  // ---------------------------------------------------------------- runs

  /** What a run brought together, with the number of reads each part took. */
  datatype Trace = Trace(part: Option<FilePart>, fileReads: nat, commits: Option<CommitPart>, commitReads: nat)

  datatype Run = Run(result: CaptureResult, next: nat)

  /** The second look at the anchor. */
  ghost predicate Concludes(profile: Profile, view: View, snapshot: Snapshot, last: nat, run: Run) {
    && run.next == last + 1
    && run.result ==
       if view(last).None? || view(last).value.detail.anchor.None? then Rejected(Unavailable)
       else if view(last).value.detail.anchor.value != snapshot.anchor then Rejected(CaptureRaced)
       else if !profile.validContract(snapshot) || !ContentsAgree(snapshot.files, snapshot.contents) then Rejected(Unavailable)
       else Published(snapshot)
  }

  /** What counts as a part brought together from a read on. The protocol is stated over any such relation, so that its
      proofs do not look into the parts; FileCollects and CommitCollects are the relations of a profile. */
  type Collects<!P> = (View, nat, Outputs, Option<P>, nat) -> bool

  ghost function FileCollects(profile: Profile): Collects<FilePart> {
    (view, from, outputs, part, took) => IsFilePart(profile, view, from, outputs, part, took)
  }

  ghost function CommitCollects(profile: Profile): Collects<CommitPart> {
    (view, from, outputs, part, took) => IsCommitPart(profile, view, from, outputs, part, took)
  }

  /** A part made as the profile says counts as collected. */
  ghost predicate TakesFiles(files: Collects<FilePart>, profile: Profile) {
    forall view: View, from: nat, outputs: Outputs, part: Option<FilePart>, took: nat ::
      TakesFilePart(files, profile, view, from, outputs, part, took)
  }

  ghost predicate TakesFilePart(files: Collects<FilePart>, profile: Profile, view: View, from: nat, outputs: Outputs,
                                part: Option<FilePart>, took: nat)
  {
    IsFilePart(profile, view, from, outputs, part, took) ==> files(view, from, outputs, part, took)
  }

  ghost predicate TakesCommits(commits: Collects<CommitPart>, profile: Profile) {
    forall view: View, from: nat, outputs: Outputs, part: Option<CommitPart>, took: nat ::
      TakesCommitPart(commits, profile, view, from, outputs, part, took)
  }

  ghost predicate TakesCommitPart(commits: Collects<CommitPart>, profile: Profile, view: View, from: nat,
                                  outputs: Outputs, part: Option<CommitPart>, took: nat)
  {
    IsCommitPart(profile, view, from, outputs, part, took) ==> commits(view, from, outputs, part, took)
  }

  /** From the commits on. */
  ghost predicate RunAfterFiles(commits: Collects<CommitPart>, profile: Profile, view: View, detail: Detail,
                                part: FilePart, from: nat, trace: Trace, run: Run)
    requires detail.anchor.Some?
  {
    var last := from + trace.commitReads;
    && commits(view, from, map[RESOLVE := detail], trace.commits, trace.commitReads)
    && if trace.commits.None? then run == Run(Rejected(Unavailable), last)
       else
         var snapshot := Assembled(profile, detail, part, trace.commits.value);
         if profile.requestedVersion != "" && profile.requestedVersion != snapshot.key then run == Run(Rejected(NotFound), last)
         else Concludes(profile, view, snapshot, last, run)
  }

  /** From the files on. */
  ghost predicate RunAfterDetail(files: Collects<FilePart>, commits: Collects<CommitPart>, profile: Profile, view: View,
                                 detail: Detail, from: nat, trace: Trace, run: Run)
    requires detail.anchor.Some?
  {
    && files(view, from, map[RESOLVE := detail], trace.part, trace.fileReads)
    && if trace.part.None? then run == Run(Rejected(Unavailable), from + trace.fileReads)
       else RunAfterFiles(commits, profile, view, detail, trace.part.value, from + trace.fileReads, trace, run)
  }

  /** The protocol, whatever the parts are collected from. */
  ghost predicate IsRunBy(files: Collects<FilePart>, commits: Collects<CommitPart>, profile: Profile, view: View,
                          start: nat, trace: Trace, run: Run)
  {
    if view(start).None? || !HasSummary(view(start).value.detail) then run == Run(Rejected(Unavailable), start + 1)
    else RunAfterDetail(files, commits, profile, view, view(start).value.detail, start + 1, trace, run)
  }

  /** GetSnapshot from the given read on: detail, files, commits, detail again. */
  ghost predicate IsRun(profile: Profile, view: View, start: nat, trace: Trace, run: Run) {
    IsRunBy(FileCollects(profile), CommitCollects(profile), profile, view, start, trace, run)
  }

  lemma {:induction false} CollectorsTake(profile: Profile)
    ensures TakesFiles(FileCollects(profile), profile) && TakesCommits(CommitCollects(profile), profile)
  {
  }

  // ---------------------------------------------------------------- the client

  class Provider {
    const profile: Profile
    const view: View
    var operationOutputs: Outputs
    var answered: nat

    constructor (profile: Profile, view: View)
      ensures this.profile == profile && this.view == view && answered == 0
    {
      this.profile, this.view := profile, view;
      operationOutputs, answered := map[], 0;
    }

    method Read() returns (v: Option<Version>)
      modifies this`answered
      ensures v == view(old(answered)) && answered == old(answered) + 1
    {
      v := view(answered);
      answered := answered + 1;
    }

    method CollectFiles() returns (part: Option<FilePart>)
      modifies this`answered
      ensures answered >= old(answered)
      ensures IsFilePart(profile, view, old(answered), operationOutputs, part, answered - old(answered))
    {
      match profile.source
      case ListFiles(paging) =>
        var fetch := FetchPages(paging, FileServer(profile, view, answered, operationOutputs), profile.fileLimit);
        answered := answered + fetch.pages;
        part := ListedFiles(profile, fetch);
      case GetDiff =>
        var read := Read();
        part := if read.None? then None else DiffedFiles(profile, read.value.diff);
      case NoFiles =>
        part := Some(FilePart([], [], UNSUPPORTED, UNSUPPORTED, UNSUPPORTED));
    }

    method CollectCommits() returns (part: Option<CommitPart>)
      modifies this`answered
      ensures answered >= old(answered)
      ensures IsCommitPart(profile, view, old(answered), operationOutputs, part, answered - old(answered))
    {
      match profile.commits
      case Some(paging) =>
        var fetch := FetchPages(paging, CommitServer(profile, view, answered, operationOutputs), profile.commitLimit);
        answered := answered + fetch.pages;
        part := ListedCommits(fetch);
      case None =>
        part := Some(CommitPart([], UNSUPPORTED));
    }

    /** CollectFiles, seen only through the relation that the protocol's run is stated with. */
    method TakeFiles(ghost filesBy: Collects<FilePart>) returns (part: Option<FilePart>)
      requires TakesFiles(filesBy, profile)
      modifies this`answered
      ensures answered >= old(answered) &&
              filesBy(view, old(answered), operationOutputs, part, answered - old(answered))
    {
      part := CollectFiles();
      assert TakesFilePart(filesBy, profile, view, old(answered), operationOutputs, part, answered - old(answered));
    }

    /** CollectCommits likewise. */
    method TakeCommits(ghost commitsBy: Collects<CommitPart>) returns (part: Option<CommitPart>)
      requires TakesCommits(commitsBy, profile)
      modifies this`answered
      ensures answered >= old(answered) &&
              commitsBy(view, old(answered), operationOutputs, part, answered - old(answered))
    {
      part := CollectCommits();
      assert TakesCommitPart(commitsBy, profile, view, old(answered), operationOutputs, part, answered - old(answered));
    }

    method Conclude(snapshot: Snapshot) returns (result: CaptureResult)
      modifies this`answered
      ensures Concludes(profile, view, snapshot, old(answered), Run(result, answered))
    {
      var final := Read();
      if final.None? || final.value.detail.anchor.None? { return Rejected(Unavailable); }
      if final.value.detail.anchor.value != snapshot.anchor { return Rejected(CaptureRaced); }
      if !profile.validContract(snapshot) { return Rejected(Unavailable); }
      var issues := ContentIssues(snapshot.files, snapshot.contents);
      if issues != [] { return Rejected(Unavailable); }
      return Published(snapshot);
    }

    method FinishAfterFiles(detail: Detail, part: FilePart, ghost trace0: Trace, ghost commitsBy: Collects<CommitPart>)
      returns (result: CaptureResult, ghost trace: Trace)
      requires detail.anchor.Some? && operationOutputs == map[RESOLVE := detail] && TakesCommits(commitsBy, profile)
      modifies this`answered
      ensures trace == trace0.(commits := trace.commits, commitReads := trace.commitReads)
      ensures RunAfterFiles(commitsBy, profile, view, detail, part, old(answered), trace, Run(result, answered))
    {
      var commits := TakeCommits(commitsBy);
      trace := trace0.(commits := commits, commitReads := answered - old(answered));
      if commits.None? { return Rejected(Unavailable), trace; }
      var snapshot := Assembled(profile, detail, part, commits.value);
      if profile.requestedVersion != "" && profile.requestedVersion != snapshot.key {
        return Rejected(NotFound), trace;
      }
      result := Conclude(snapshot);
    }

    method FinishAfterDetail(detail: Detail, ghost filesBy: Collects<FilePart>, ghost commitsBy: Collects<CommitPart>)
      returns (result: CaptureResult, ghost trace: Trace)
      requires detail.anchor.Some? && operationOutputs == map[RESOLVE := detail]
      requires TakesFiles(filesBy, profile) && TakesCommits(commitsBy, profile)
      modifies this`answered
      ensures RunAfterDetail(filesBy, commitsBy, profile, view, detail, old(answered), trace, Run(result, answered))
    {
      var part := TakeFiles(filesBy);
      trace := Trace(part, answered - old(answered), None, 0);
      if part.None? { return Rejected(Unavailable), trace; }
      result, trace := FinishAfterFiles(detail, part.value, trace, commitsBy);
    }

    /** One call, whatever an earlier call left in the outputs. */
    method GetSnapshot() returns (result: CaptureResult, ghost trace: Trace)
      modifies this
      ensures IsRun(profile, view, old(answered), trace, Run(result, answered))
    {
      operationOutputs := map[];
      var initial := Read();
      if initial.None? || !HasSummary(initial.value.detail) { return Rejected(Unavailable), Trace(None, 0, None, 0); }
      operationOutputs := operationOutputs[RESOLVE := initial.value.detail];
      CollectorsTake(profile);
      result, trace := FinishAfterDetail(initial.value.detail, FileCollects(profile), CommitCollects(profile));
    }
  }

  // ---------------------------------------------------------------- interleavings

  /** The server's states over time and the nondecreasing times of the reads. */
  ghost predicate Observes(view: View, timeline: nat -> Version, schedule: nat -> nat) {
    && (forall i, j :: i <= j ==> schedule(i) <= schedule(j))
    && (forall i :: view(i).Some? ==> view(i).value == timeline(schedule(i)))
  }

  ghost predicate SameContent(v: Version, w: Version) {
    v.files == w.files && v.diff == w.diff && v.commits == w.commits
  }

  /** Between two times with one anchor the content stands still. */
  ghost predicate AnchorsKeepContent(timeline: nat -> Version) {
    forall a, b, c :: a <= b <= c && timeline(a).detail.anchor.Some? && timeline(a).detail.anchor == timeline(c).detail.anchor ==>
      SameContent(timeline(b), timeline(a))
  }

  /** A server that stands still. */
  function Frozen(v: Version): View {
    (i: nat) => Some(v)
  }

  /** Every successful read of the window saw the content of v. */
  ghost predicate StableWindow(view: View, from: nat, to: nat, v: Version) {
    forall i :: from <= i < to && view(i).Some? ==> SameContent(view(i).value, v)
  }

  lemma {:induction false} SameAsks<T>(paging: Paging, serve: Server<T>, other: Server<T>, n: nat)
    requires n >= 1
    requires forall m, ask :: 1 <= m < n && serve(m, ask).Page? ==> other(m, ask) == serve(m, ask)
    requires AskAt(paging, serve, n).Some?
    ensures AskAt(paging, other, n) == AskAt(paging, serve, n)
  {
    if n > 1 { SameAsks(paging, serve, other, n - 1); }
  }

  lemma {:induction false} SameGathered<T>(paging: Paging, serve: Server<T>, other: Server<T>, n: nat)
    requires forall m :: 1 <= m <= n ==> PageAt(paging, serve, m) == PageAt(paging, other, m)
    ensures Gathered(paging, serve, n) == Gathered(paging, other, n)
  {
    if n > 0 { SameGathered(paging, serve, other, n - 1); }
  }

  /** A successful fetch is the same fetch from any server that gives the same pages. */
  lemma {:induction false} SameFetch<T>(paging: Paging, serve: Server<T>, other: Server<T>, maximum: nat, r: Fetch<T>)
    requires IsFetch(paging, serve, maximum, r) && r.Fetched?
    requires forall m, ask :: 1 <= m <= r.pages && serve(m, ask).Page? ==> other(m, ask) == serve(m, ask)
    ensures IsFetch(paging, other, maximum, r)
  {
    forall n: nat | 1 <= n < r.pages
      ensures Continues(paging, other, maximum, n)
    {
      assert Continues(paging, serve, maximum, n);
      SamePages(paging, serve, other, maximum, r, n);
    }
    SamePages(paging, serve, other, maximum, r, r.pages);
  }

  lemma {:induction false} SamePages<T>(paging: Paging, serve: Server<T>, other: Server<T>, maximum: nat, r: Fetch<T>,
                                        n: nat)
    requires IsFetch(paging, serve, maximum, r) && r.Fetched? && 1 <= n <= r.pages
    requires forall m, ask :: 1 <= m <= r.pages && serve(m, ask).Page? ==> other(m, ask) == serve(m, ask)
    ensures AskAt(paging, other, n) == AskAt(paging, serve, n) && AskAt(paging, serve, n).Some?
    ensures PageAt(paging, serve, n) == PageAt(paging, other, n) && PageAt(paging, serve, n).Page?
    ensures Gathered(paging, serve, n) == Gathered(paging, other, n)
  {
    assert n < r.pages ==> Continues(paging, serve, maximum, n);
    if n > 1 { SamePages(paging, serve, other, maximum, r, n - 1); }
    SameAsks(paging, serve, other, n);
    if n == 1 { SameGathered(paging, serve, other, 0); }
  }

  lemma {:induction false} ListedFromSame<T(!new), P(!new)>(paging: Paging, serve: Server<T>, other: Server<T>,
                                                            limit: nat, make: Fetch<T> -> Option<P>, part: Option<P>,
                                                            took: nat)
    requires IsListed(paging, serve, limit, make, part, took) && part.Some?
    requires forall fetch: Fetch<T> :: fetch.FetchFailed? ==> make(fetch).None?
    requires forall m, ask :: 1 <= m <= took && serve(m, ask).Page? ==> other(m, ask) == serve(m, ask)
    ensures IsListed(paging, other, limit, make, part, took)
  {
    var fetch :| IsFetch(paging, serve, limit, fetch) && took == fetch.pages && part == make(fetch);
    SameFetch(paging, serve, other, limit, fetch);
  }

  /** Files collected while the server showed the content of v are the files it would give standing still. */
  lemma {:induction false} FilesOfFrozen(profile: Profile, view: View, from: nat, outputs: Outputs,
                                         part: Option<FilePart>, took: nat, v: Version)
    requires IsFilePart(profile, view, from, outputs, part, took) && part.Some?
    requires StableWindow(view, from, from + took, v)
    ensures IsFilePart(profile, Frozen(v), from, outputs, part, took)
  {
    match profile.source
    case ListFiles(paging) =>
      ListedFromSame(paging, FileServer(profile, view, from, outputs), FileServer(profile, Frozen(v), from, outputs),
                     profile.fileLimit, FileMaker(profile), part, took);
    case GetDiff => assert Frozen(v)(from) == Some(v);
    case NoFiles =>
  }

  lemma {:induction false} CommitsOfFrozen(profile: Profile, view: View, from: nat, outputs: Outputs,
                                           part: Option<CommitPart>, took: nat, v: Version)
    requires IsCommitPart(profile, view, from, outputs, part, took) && part.Some?
    requires StableWindow(view, from, from + took, v)
    ensures IsCommitPart(profile, Frozen(v), from, outputs, part, took)
  {
    match profile.commits
    case Some(paging) =>
      ListedFromSame(paging, CommitServer(profile, view, from, outputs), CommitServer(profile, Frozen(v), from, outputs),
                     profile.commitLimit, CommitMaker(), part, took);
    case None =>
  }

  /** Collecting does not tell a server that showed one content from one that stands still. */
  ghost predicate SteadyAt<P(!new)>(collects: Collects<P>, view: View, from: nat, outputs: Outputs, part: Option<P>,
                                    took: nat, v: Version)
  {
    collects(view, from, outputs, part, took) && part.Some? && StableWindow(view, from, from + took, v) ==>
      collects(Frozen(v), from, outputs, part, took)
  }

  ghost predicate Steady<P(!new)>(collects: Collects<P>) {
    forall view: View, from: nat, outputs: Outputs, part: Option<P>, took: nat, v: Version ::
      SteadyAt(collects, view, from, outputs, part, took, v)
  }

  lemma {:induction false} FilesAreSteady(profile: Profile)
    ensures Steady(FileCollects(profile))
  {
    forall view: View, from: nat, outputs: Outputs, part: Option<FilePart>, took: nat, v: Version
      ensures SteadyAt(FileCollects(profile), view, from, outputs, part, took, v)
    {
      if IsFilePart(profile, view, from, outputs, part, took) && part.Some? && StableWindow(view, from, from + took, v) {
        FilesOfFrozen(profile, view, from, outputs, part, took, v);
      }
    }
  }

  lemma {:induction false} CommitsAreSteady(profile: Profile)
    ensures Steady(CommitCollects(profile))
  {
    forall view: View, from: nat, outputs: Outputs, part: Option<CommitPart>, took: nat, v: Version
      ensures SteadyAt(CommitCollects(profile), view, from, outputs, part, took, v)
    {
      if IsCommitPart(profile, view, from, outputs, part, took) && part.Some? && StableWindow(view, from, from + took, v) {
        CommitsOfFrozen(profile, view, from, outputs, part, took, v);
      }
    }
  }

  /** A run that published while every read saw the content of the first is a run on a server that stands still. */
  lemma {:induction false} StableRun(files: Collects<FilePart>, commits: Collects<CommitPart>, profile: Profile,
                                     view: View, start: nat, trace: Trace, run: Run, v: Version)
    requires Steady(files) && Steady(commits)
    requires IsRunBy(files, commits, profile, view, start, trace, run) && run.result.Published?
    requires view(start) == Some(v) && StableWindow(view, start, run.next, v)
    ensures view(run.next - 1).Some? && view(run.next - 1).value.detail.anchor == v.detail.anchor ==>
              IsRunBy(files, commits, profile, Frozen(v), start, trace, run)
  {
    var outputs := map[RESOLVE := v.detail];
    var afterFiles := start + 1 + trace.fileReads;
    assert SteadyAt(files, view, start + 1, outputs, trace.part, trace.fileReads, v);
    assert SteadyAt(commits, view, afterFiles, outputs, trace.commits, trace.commitReads, v);
  }

  /** A published snapshot carries the anchor that both looks found, and the requested key. */
  lemma {:induction false} PublishedReadAnchorTwice(files: Collects<FilePart>, commits: Collects<CommitPart>,
                                                    profile: Profile, view: View, start: nat, trace: Trace, run: Run)
    requires IsRunBy(files, commits, profile, view, start, trace, run) && run.result.Published?
    ensures start < run.next - 1 && view(start).Some? && view(run.next - 1).Some?
    ensures view(start).value.detail.anchor == Some(run.result.snapshot.anchor)
        == view(run.next - 1).value.detail.anchor
    ensures profile.requestedVersion != "" ==> run.result.snapshot.key == profile.requestedVersion
  {
  }

  lemma {:induction false} PublishedBy(files: Collects<FilePart>, commits: Collects<CommitPart>, profile: Profile,
                                       view: View, start: nat, trace: Trace, run: Run, timeline: nat -> Version,
                                       schedule: nat -> nat)
    requires Steady(files) && Steady(commits)
    requires IsRunBy(files, commits, profile, view, start, trace, run) && run.result.Published?
    requires Observes(view, timeline, schedule) && AnchorsKeepContent(timeline)
    ensures var v := timeline(schedule(start));
            v.detail.anchor == Some(run.result.snapshot.anchor) && IsRunBy(files, commits, profile, Frozen(v), start, trace, run)
  {
    PublishedReadAnchorTwice(files, commits, profile, view, start, trace, run);
    var v := timeline(schedule(start));
    forall i | start <= i < run.next && view(i).Some?
      ensures SameContent(view(i).value, v)
    {
      assert schedule(start) <= schedule(i) <= schedule(run.next - 1);
    }
    StableRun(files, commits, profile, view, start, trace, run, v);
  }

  // ---------------------------------------------------------------- one answer

  lemma {:induction false} ListedIsUnique<T(!new), P(!new)>(paging: Paging, serve: Server<T>, limit: nat,
                                                            make: Fetch<T> -> Option<P>, part: Option<P>, took: nat,
                                                            other: Option<P>, otherTook: nat)
    requires IsListed(paging, serve, limit, make, part, took) && IsListed(paging, serve, limit, make, other, otherTook)
    ensures part == other && took == otherTook
  {
    var a :| IsFetch(paging, serve, limit, a) && took == a.pages && part == make(a);
    var b :| IsFetch(paging, serve, limit, b) && otherTook == b.pages && other == make(b);
    FetchIsUnique(paging, serve, limit, a, b);
  }

  ghost predicate DeterminedAt<P(!new)>(collects: Collects<P>, view: View, from: nat, outputs: Outputs, part: Option<P>,
                                        took: nat, other: Option<P>, otherTook: nat)
  {
    collects(view, from, outputs, part, took) && collects(view, from, outputs, other, otherTook) ==> part == other && took == otherTook
  }

  /** The reads determine the part and how many of them it takes. */
  ghost predicate Determined<P(!new)>(collects: Collects<P>) {
    forall view: View, from: nat, outputs: Outputs, part: Option<P>, took: nat, other: Option<P>, otherTook: nat ::
      DeterminedAt(collects, view, from, outputs, part, took, other, otherTook)
  }

  lemma {:induction false} FilesAreDetermined(profile: Profile)
    ensures Determined(FileCollects(profile))
  {
    forall view: View, from: nat, outputs: Outputs, part: Option<FilePart>, took: nat, other: Option<FilePart>, otherTook: nat
      ensures DeterminedAt(FileCollects(profile), view, from, outputs, part, took, other, otherTook)
    {
      if IsFilePart(profile, view, from, outputs, part, took) && IsFilePart(profile, view, from, outputs, other, otherTook) {
        if profile.source.ListFiles? {
          ListedIsUnique(profile.source.paging, FileServer(profile, view, from, outputs), profile.fileLimit, FileMaker(profile),
                         part, took, other, otherTook);
        }
      }
    }
  }

  lemma {:induction false} CommitsAreDetermined(profile: Profile)
    ensures Determined(CommitCollects(profile))
  {
    forall view: View, from: nat, outputs: Outputs, part: Option<CommitPart>, took: nat, other: Option<CommitPart>, otherTook: nat
      ensures DeterminedAt(CommitCollects(profile), view, from, outputs, part, took, other, otherTook)
    {
      if IsCommitPart(profile, view, from, outputs, part, took) && IsCommitPart(profile, view, from, outputs, other, otherTook) {
        if profile.commits.Some? {
          ListedIsUnique(profile.commits.value, CommitServer(profile, view, from, outputs), profile.commitLimit, CommitMaker(),
                         part, took, other, otherTook);
        }
      }
    }
  }

  lemma {:induction false} RunByIsUnique(files: Collects<FilePart>, commits: Collects<CommitPart>, profile: Profile,
                                         view: View, start: nat, trace: Trace, run: Run, otherTrace: Trace, other: Run)
    requires Determined(files) && Determined(commits)
    requires IsRunBy(files, commits, profile, view, start, trace, run) &&
             IsRunBy(files, commits, profile, view, start, otherTrace, other)
    ensures run == other
  {
    if view(start).Some? && HasSummary(view(start).value.detail) {
      var outputs := map[RESOLVE := view(start).value.detail];
      assert DeterminedAt(files, view, start + 1, outputs, trace.part, trace.fileReads, otherTrace.part,
                          otherTrace.fileReads);
      if trace.part.Some? {
        var from := start + 1 + trace.fileReads;
        assert DeterminedAt(commits, view, from, outputs, trace.commits, trace.commitReads, otherTrace.commits,
                            otherTrace.commitReads);
      }
    }
  }

  /** What a run against given reads answers, and how many reads it makes, is determined. */
  lemma {:induction false} RunIsUnique(profile: Profile, view: View, start: nat, trace: Trace, run: Run,
                                       otherTrace: Trace, other: Run)
    requires IsRun(profile, view, start, trace, run) && IsRun(profile, view, start, otherTrace, other)
    ensures run == other
  {
    FilesAreDetermined(profile);
    CommitsAreDetermined(profile);
    RunByIsUnique(FileCollects(profile), CommitCollects(profile), profile, view, start, trace, run, otherTrace, other);
  }

  // ---------------------------------------------------------------- over every interleaving

  /** Over every interleaving and in every paging mode: whatever is published is the one answer that the same call gets
      from the one version its anchor names, standing still. */
  lemma {:induction false} PublishedIsOneVersion(profile: Profile, view: View, start: nat, trace: Trace, run: Run,
                                                 timeline: nat -> Version, schedule: nat -> nat)
    requires IsRun(profile, view, start, trace, run) && run.result.Published?
    requires Observes(view, timeline, schedule) && AnchorsKeepContent(timeline)
    ensures var v := timeline(schedule(start));
            && v.detail.anchor == Some(run.result.snapshot.anchor) && IsRun(profile, Frozen(v), start, trace, run)
            && forall otherTrace: Trace, other: Run :: IsRun(profile, Frozen(v), start, otherTrace, other) ==>
                  other == run
  {
    FilesAreSteady(profile);
    CommitsAreSteady(profile);
    PublishedBy(FileCollects(profile), CommitCollects(profile), profile, view, start, trace, run, timeline, schedule);
    var v := timeline(schedule(start));
    forall otherTrace: Trace, other: Run | IsRun(profile, Frozen(v), start, otherTrace, other)
      ensures other == run
    {
      RunIsUnique(profile, Frozen(v), start, trace, run, otherTrace, other);
    }
  }

  ghost predicate AnchorMoved(view: View, from: int, to: int) {
    && 0 <= from && 0 <= to && view(from).Some? && view(to).Some?
    && view(from).value.detail.anchor != view(to).value.detail.anchor
  }

  /** A run whose anchor moved between its two looks publishes nothing; a published one has the requested key. */
  lemma {:induction false} MovedAnchorPublishesNothing(profile: Profile, view: View, start: nat, trace: Trace, run: Run)
    requires IsRun(profile, view, start, trace, run)
    ensures AnchorMoved(view, start, run.next - 1) ==> run.result.Rejected?
    ensures run.result.Published? && profile.requestedVersion != "" ==>
          run.result.snapshot.key == profile.requestedVersion
  {
    var files, commits := FileCollects(profile), CommitCollects(profile);
    if run.result.Published? { PublishedReadAnchorTwice(files, commits, profile, view, start, trace, run); }
  }

  /** What is published says of the version what its detail says, under the key of its anchor and files. */
  lemma {:induction false} PublishedTellsDetail(profile: Profile, view: View, start: nat, trace: Trace, run: Run,
                                                timeline: nat -> Version, schedule: nat -> nat)
    requires IsRun(profile, view, start, trace, run) && run.result.Published? && Observes(view, timeline, schedule)
    ensures var detail, snapshot := timeline(schedule(start)).detail, run.result.snapshot;
            && snapshot.title == detail.title != "" && snapshot.lifecycle == detail.lifecycle != ""
            && detail.anchor == Some(snapshot.anchor) &&
               snapshot.key == profile.contentKey(snapshot.anchor, snapshot.files)
            && profile.validContract(snapshot) && ContentsAgree(snapshot.files, snapshot.contents)
  {
    DetailOf(FileCollects(profile), CommitCollects(profile), profile, view, start, trace, run);
  }

  lemma {:induction false} DetailOf(files: Collects<FilePart>, commits: Collects<CommitPart>, profile: Profile,
                                    view: View, start: nat, trace: Trace, run: Run)
    requires IsRunBy(files, commits, profile, view, start, trace, run) && run.result.Published?
    ensures view(start).Some?
    ensures var detail, snapshot := view(start).value.detail, run.result.snapshot;
            && snapshot.title == detail.title != "" && snapshot.lifecycle == detail.lifecycle != ""
            && detail.anchor == Some(snapshot.anchor) &&
               snapshot.key == profile.contentKey(snapshot.anchor, snapshot.files)
            && profile.validContract(snapshot) && ContentsAgree(snapshot.files, snapshot.contents)
  {
  }

  const NO_SUPPORT := NonExact("unavailable", "change_provider_unsupported")

  /** What the profile has no operation for is empty and marked unsupported; a diff says nothing about modes. */
  ghost predicate FilePartSays(profile: Profile, part: FilePart) {
    && (profile.source.NoFiles? ==>
          part.files == [] && part.contents == [] && part.fileSet == part.patches == part.modes == NO_SUPPORT)
    && (profile.source.GetDiff? ==> part.patches.Exact? && part.modes == NO_SUPPORT)
  }

  /** Every commit has a hash and a subject. */
  ghost predicate CommitPartSays(profile: Profile, part: CommitPart) {
    && (profile.commits.None? ==> part.commits == [] && part.known == NO_SUPPORT)
    && forall c :: c in part.commits ==> c.sha != "" && c.subject != ""
  }

  ghost predicate FilesSay(files: Collects<FilePart>, profile: Profile) {
    forall view: View, from: nat, outputs: Outputs, part: FilePart, took: nat ::
      files(view, from, outputs, Some(part), took) ==> FilePartSays(profile, part)
  }

  ghost predicate CommitsSay(commits: Collects<CommitPart>, profile: Profile) {
    forall view: View, from: nat, outputs: Outputs, part: CommitPart, took: nat ::
      commits(view, from, outputs, Some(part), took) ==> CommitPartSays(profile, part)
  }

  lemma {:induction false} CollectorsSay(profile: Profile)
    ensures FilesSay(FileCollects(profile), profile) && CommitsSay(CommitCollects(profile), profile)
  {
  }

  lemma {:induction false} PublishedBySources(files: Collects<FilePart>, commits: Collects<CommitPart>,
                                              profile: Profile, view: View, start: nat, trace: Trace, run: Run)
    requires FilesSay(files, profile) && CommitsSay(commits, profile)
    requires IsRunBy(files, commits, profile, view, start, trace, run) && run.result.Published?
    ensures var s := run.result.snapshot;
            && FilePartSays(profile, FilePart(s.files, s.contents, s.fileSet, s.patches, s.modes))
            && CommitPartSays(profile, CommitPart(s.commits, s.commitsKnown))
  {
    assert trace.part.Some? && trace.commits.Some?;
  }

  /** What is published says no more than the profile's operations give. */
  lemma {:induction false} PublishedByOperation(profile: Profile, view: View, start: nat, trace: Trace, run: Run)
    requires IsRun(profile, view, start, trace, run) && run.result.Published?
    ensures var s := run.result.snapshot;
            && FilePartSays(profile, FilePart(s.files, s.contents, s.fileSet, s.patches, s.modes))
            && CommitPartSays(profile, CommitPart(s.commits, s.commitsKnown))
  {
    CollectorsSay(profile);
    PublishedBySources(FileCollects(profile), CommitCollects(profile), profile, view, start, trace, run);
  }

  /** A race means that the anchor moved, not found that a version was asked for. */
  lemma {:induction false} RejectionMeans(profile: Profile, view: View, start: nat, trace: Trace, run: Run)
    requires IsRun(profile, view, start, trace, run)
    ensures run.result == Rejected(CaptureRaced) ==> AnchorMoved(view, start, run.next - 1)
    ensures run.result == Rejected(NotFound) ==> profile.requestedVersion != ""
    ensures start < run.next && (view(start).None? ==> run == Run(Rejected(Unavailable), start + 1))
  {
    RejectionBy(FileCollects(profile), CommitCollects(profile), profile, view, start, trace, run);
  }

  lemma {:induction false} RejectionBy(files: Collects<FilePart>, commits: Collects<CommitPart>, profile: Profile,
                                       view: View, start: nat, trace: Trace, run: Run)
    requires IsRunBy(files, commits, profile, view, start, trace, run)
    ensures run.result == Rejected(CaptureRaced) ==> AnchorMoved(view, start, run.next - 1)
    ensures run.result == Rejected(NotFound) ==> profile.requestedVersion != ""
    ensures start < run.next && (view(start).None? ==> run == Run(Rejected(Unavailable), start + 1))
  {
  }

  // ---------------------------------------------------------------- lists served by page number

  /** The server cuts a list into pages of one size and states a total number of pages, or none, that is the same on
      each page. */
  ghost predicate CutsByNumber<T(!new)>(page: (seq<T>, Outputs, Ask) -> Reply<T>, size: nat,
                                        total: seq<T> -> Option<int>)
  {
    forall list: seq<T>, outputs: Outputs, ask: Ask :: ask.page >= 1 ==>
      var reply := page(list, outputs, ask);
      reply.Page? && reply.items == Pages.Slice(list, size, ask.page) && reply.total == total(list)
  }

  /** The list is shorter than its limit and ends before the last page the profile allows. */
  predicate WithinLimits(paging: Paging, size: nat, limit: nat, length: nat) {
    length < limit && length <= size * (PageLimit(paging) - 1)
  }

  /** With page numbers, a published snapshot's file set is exact exactly when the list of the version its anchor names is
      within the limits, and then it holds exactly those files. */
  lemma {:induction false} PublishedFilesAreComplete(profile: Profile, view: View, start: nat, trace: Trace, run: Run,
                                                     timeline: nat -> Version, schedule: nat -> nat, paging: Paging,
                                                     size: nat, total: seq<Item> -> Option<int>)
    requires IsRun(profile, view, start, trace, run) && run.result.Published?
    requires Observes(view, timeline, schedule) && AnchorsKeepContent(timeline)
    requires profile.source == ListFiles(paging) && paging.mode == PageNumber && size >= 1
    requires CutsByNumber(profile.filePage, size, total)
    requires var files := timeline(schedule(start)).files; TotalCovers(paging, size, total(files), |files|)
    ensures var files := timeline(schedule(start)).files;
            && (run.result.snapshot.fileSet.Exact? <==> WithinLimits(paging, size, profile.fileLimit, |files|))
            && (run.result.snapshot.fileSet.Exact? ==>
                  OpenApiFiles.AllAcceptable(files)
                  && run.result.snapshot.files == Files(Rows(profile.digest, profile.kind, profile.fields, files)))
  {
    PublishedIsOneVersion(profile, view, start, trace, run, timeline, schedule);
    var v := timeline(schedule(start));
    PublishedParts(FileCollects(profile), CommitCollects(profile), profile, Frozen(v), start, trace, run);
    FrozenFilesAreComplete(profile, v, start, trace.part, trace.fileReads, paging, size, total);
  }

  /** And its commit list likewise. */
  lemma {:induction false} PublishedCommitsAreComplete(profile: Profile, view: View, start: nat, trace: Trace, run: Run,
                                                       timeline: nat -> Version, schedule: nat -> nat, paging: Paging,
                                                       size: nat, total: seq<Commit> -> Option<int>)
    requires IsRun(profile, view, start, trace, run) && run.result.Published?
    requires Observes(view, timeline, schedule) && AnchorsKeepContent(timeline)
    requires profile.commits == Some(paging) && paging.mode == PageNumber && size >= 1
    requires CutsByNumber(profile.commitPage, size, total)
    requires var commits := timeline(schedule(start)).commits; TotalCovers(paging, size, total(commits), |commits|)
    ensures var commits := timeline(schedule(start)).commits;
            && (run.result.snapshot.commitsKnown.Exact? <==> WithinLimits(paging, size, profile.commitLimit, |commits|))
            && (run.result.snapshot.commitsKnown.Exact? ==> run.result.snapshot.commits == commits)
  {
    PublishedIsOneVersion(profile, view, start, trace, run, timeline, schedule);
    var v := timeline(schedule(start));
    PublishedParts(FileCollects(profile), CommitCollects(profile), profile, Frozen(v), start, trace, run);
    FrozenCommitsAreComplete(profile, v, start + 1 + trace.fileReads, map[RESOLVE := v.detail], trace.commits, trace.commitReads,
                             paging, size, total);
  }

  lemma {:induction false} PublishedParts(files: Collects<FilePart>, commits: Collects<CommitPart>, profile: Profile,
                                          view: View, start: nat, trace: Trace, run: Run)
    requires IsRunBy(files, commits, profile, view, start, trace, run) && run.result.Published?
    ensures view(start).Some? && trace.part.Some? && trace.commits.Some?
    ensures files(view, start + 1, map[RESOLVE := view(start).value.detail], trace.part, trace.fileReads)
    ensures commits(view, start + 1 + trace.fileReads, map[RESOLVE := view(start).value.detail], trace.commits, trace.commitReads)
    ensures run.result.snapshot.files == trace.part.value.files &&
            run.result.snapshot.fileSet == trace.part.value.fileSet
    ensures run.result.snapshot.contents == trace.part.value.contents &&
            run.result.snapshot.patches == trace.part.value.patches
    ensures run.result.snapshot.commits == trace.commits.value.commits &&
            run.result.snapshot.commitsKnown == trace.commits.value.known
  {
  }

  lemma {:induction false} FrozenFilesAreComplete(profile: Profile, v: Version, start: nat, part: Option<FilePart>,
                                                  took: nat, paging: Paging, size: nat, total: seq<Item> -> Option<int>)
    requires FileCollects(profile)(Frozen(v), start + 1, map[RESOLVE := v.detail], part, took) && part.Some?
    requires profile.source == ListFiles(paging) && paging.mode == PageNumber && size >= 1
    requires CutsByNumber(profile.filePage, size, total) && TotalCovers(paging, size, total(v.files), |v.files|)
    ensures part.value.fileSet.Exact? <==> WithinLimits(paging, size, profile.fileLimit, |v.files|)
    ensures part.value.fileSet.Exact? ==>
              OpenApiFiles.AllAcceptable(v.files) && part.value.files == Files(Rows(profile.digest, profile.kind, profile.fields, v.files))
  {
    var outputs := map[RESOLVE := v.detail];
    FilesServedFrozen(profile, v, start + 1, outputs, size, total);
    ListedFilesFromServed(profile, paging, FileServer(profile, Frozen(v), start + 1, outputs), v.files, size,
                          total(v.files), part, took);
  }

  lemma {:induction false} FrozenCommitsAreComplete(profile: Profile, v: Version, from: nat, outputs: Outputs,
                                                    part: Option<CommitPart>, took: nat, paging: Paging, size: nat,
                                                    total: seq<Commit> -> Option<int>)
    requires CommitCollects(profile)(Frozen(v), from, outputs, part, took) && part.Some?
    requires profile.commits == Some(paging) && paging.mode == PageNumber && size >= 1
    requires CutsByNumber(profile.commitPage, size, total) && TotalCovers(paging, size, total(v.commits), |v.commits|)
    ensures part.value.known.Exact? <==> WithinLimits(paging, size, profile.commitLimit, |v.commits|)
    ensures part.value.known.Exact? ==> part.value.commits == v.commits
  {
    CommitsServedFrozen(profile, v, from, outputs, size, total);
    ListedCommitsFromServed(profile, paging, CommitServer(profile, Frozen(v), from, outputs), v.commits, size,
                            total(v.commits), part, took);
  }

  lemma {:induction false} ListedFilesFromServed(profile: Profile, paging: Paging, serve: Server<Item>,
                                                 files: seq<Item>, size: nat, total: Option<int>,
                                                 part: Option<FilePart>, took: nat)
    requires paging.mode == PageNumber && size >= 1 && Serves(serve, files, size, total) &&
             TotalCovers(paging, size, total, |files|)
    requires IsListed(paging, serve, profile.fileLimit, FileMaker(profile), part, took) && part.Some?
    ensures part.value.fileSet.Exact? <==> WithinLimits(paging, size, profile.fileLimit, |files|)
    ensures part.value.fileSet.Exact? ==>
              OpenApiFiles.AllAcceptable(files) && part.value.files == Files(Rows(profile.digest, profile.kind, profile.fields, files))
  {
    var fetch :| IsFetch(paging, serve, profile.fileLimit, fetch) && took == fetch.pages && part == FileMaker(profile)(fetch);
    FetchOfServed(paging, serve, files, size, total, profile.fileLimit, fetch);
  }

  lemma {:induction false} ListedCommitsFromServed(profile: Profile, paging: Paging, serve: Server<Commit>,
                                                   commits: seq<Commit>, size: nat, total: Option<int>,
                                                   part: Option<CommitPart>, took: nat)
    requires paging.mode == PageNumber && size >= 1 && Serves(serve, commits, size, total) &&
             TotalCovers(paging, size, total, |commits|)
    requires IsListed(paging, serve, profile.commitLimit, CommitMaker(), part, took) && part.Some?
    ensures part.value.known.Exact? <==> WithinLimits(paging, size, profile.commitLimit, |commits|)
    ensures part.value.known.Exact? ==> part.value.commits == commits
  {
    var fetch :| IsFetch(paging, serve, profile.commitLimit, fetch) && took == fetch.pages && part == CommitMaker()(fetch);
    FetchOfServed(paging, serve, commits, size, total, profile.commitLimit, fetch);
  }

  lemma {:induction false} FilesServedFrozen(profile: Profile, v: Version, from: nat, outputs: Outputs, size: nat,
                                             total: seq<Item> -> Option<int>)
    requires CutsByNumber(profile.filePage, size, total)
    ensures Serves(FileServer(profile, Frozen(v), from, outputs), v.files, size, total(v.files))
  {
  }

  lemma {:induction false} CommitsServedFrozen(profile: Profile, v: Version, from: nat, outputs: Outputs, size: nat,
                                               total: seq<Commit> -> Option<int>)
    requires CutsByNumber(profile.commitPage, size, total)
    ensures Serves(CommitServer(profile, Frozen(v), from, outputs), v.commits, size, total(v.commits))
  {
  }

  lemma {:induction false} FetchOfServed<T(!new)>(paging: Paging, serve: Server<T>, list: seq<T>, size: nat,
                                                  total: Option<int>, limit: nat, fetch: Fetch<T>)
    requires paging.mode == PageNumber && size >= 1 && IsFetch(paging, serve, limit, fetch) &&
             Serves(serve, list, size, total)
    requires TotalCovers(paging, size, total, |list|)
    ensures fetch.Fetched? && (!fetch.overflow ==> fetch.items == list)
    ensures !fetch.overflow <==> WithinLimits(paging, size, limit, |list|)
  {
    PageNumberFetch(paging, serve, list, size, total, limit, fetch);
  }

  // ---------------------------------------------------------------- a server at rest

  /** What a version needs to be published through a profile with page numbers. */
  ghost predicate Capturable(profile: Profile, v: Version) {
    && v.detail.anchor.Some? && v.detail.title != "" && v.detail.lifecycle != ""
    && OpenApiFiles.AllAcceptable(v.files) && Selected(profile.fields, v.files)
    && (forall i, j :: 0 <= i < j < |v.files| ==> v.files[i].oldPath != v.files[j].oldPath || v.files[i].path != v.files[j].path)
    && forall c :: c in v.commits ==> c.sha != "" && c.subject != ""
  }

  /** What the parts of such a version are like. */
  ghost predicate YieldsFiles(files: Collects<FilePart>, v: Version) {
    forall from: nat, outputs: Outputs, part: Option<FilePart>, took: nat :: YieldsFilePart(files, v, from, outputs, part, took)
  }

  ghost predicate YieldsFilePart(files: Collects<FilePart>, v: Version, from: nat, outputs: Outputs,
                                 part: Option<FilePart>, took: nat)
  {
    files(Frozen(v), from, outputs, part, took) ==> part.Some? && ContentsAgree(part.value.files, part.value.contents)
  }

  ghost predicate YieldsCommits(commits: Collects<CommitPart>, v: Version) {
    forall from: nat, outputs: Outputs, part: Option<CommitPart>, took: nat :: YieldsCommitPart(commits, v, from, outputs, part, took)
  }

  ghost predicate YieldsCommitPart(commits: Collects<CommitPart>, v: Version, from: nat, outputs: Outputs,
                                   part: Option<CommitPart>, took: nat)
  {
    commits(Frozen(v), from, outputs, part, took) ==> part.Some?
  }

  lemma {:induction false} FilesYielded(profile: Profile, v: Version, paging: Paging, size: nat,
                                        total: seq<Item> -> Option<int>)
    requires profile.source == ListFiles(paging) && paging.mode == PageNumber && size >= 1
    requires CutsByNumber(profile.filePage, size, total) && Capturable(profile, v) && CollisionFree(profile.digest)
    ensures YieldsFiles(FileCollects(profile), v)
  {
    forall from: nat, outputs: Outputs, part: Option<FilePart>, took: nat
      ensures YieldsFilePart(FileCollects(profile), v, from, outputs, part, took)
    {
      if IsFilePart(profile, Frozen(v), from, outputs, part, took) {
        FilesServedFrozen(profile, v, from, outputs, size, total);
        ListedFilesYielded(profile, paging, FileServer(profile, Frozen(v), from, outputs), v, size, total(v.files),
                           part, took);
      }
    }
  }

  lemma {:induction false} ListedFilesYielded(profile: Profile, paging: Paging, serve: Server<Item>, v: Version,
                                              size: nat, total: Option<int>, part: Option<FilePart>, took: nat)
    requires paging.mode == PageNumber && size >= 1 && Serves(serve, v.files, size, total)
    requires Capturable(profile, v) && CollisionFree(profile.digest)
    requires IsListed(paging, serve, profile.fileLimit, FileMaker(profile), part, took)
    ensures part.Some? && ContentsAgree(part.value.files, part.value.contents)
  {
    var fetch :| IsFetch(paging, serve, profile.fileLimit, fetch) && took == fetch.pages && part == FileMaker(profile)(fetch);
    PageNumberFetch(paging, serve, v.files, size, total, profile.fileLimit, fetch);
    FirstFilesAgree(profile, v, fetch.items);
  }

  lemma {:induction false} FirstFilesAgree(profile: Profile, v: Version, items: seq<Item>)
    requires Capturable(profile, v) && CollisionFree(profile.digest) && items <= v.files
    ensures OpenApiFiles.AllAcceptable(items)
    ensures var rows := Rows(profile.digest, profile.kind, profile.fields, items);
            ContentsAgree(Files(rows), Contents(rows))
  {
    assert forall i :: 0 <= i < |items| ==> items[i] == v.files[i];
    ItemsAgree(profile.digest, profile.kind, profile.fields, items);
  }

  lemma {:induction false} CommitsYielded(profile: Profile, v: Version, paging: Paging, size: nat,
                                          total: seq<Commit> -> Option<int>)
    requires profile.commits == Some(paging) && paging.mode == PageNumber && size >= 1
    requires CutsByNumber(profile.commitPage, size, total) && Capturable(profile, v)
    ensures YieldsCommits(CommitCollects(profile), v)
  {
    forall from: nat, outputs: Outputs, part: Option<CommitPart>, took: nat
      ensures YieldsCommitPart(CommitCollects(profile), v, from, outputs, part, took)
    {
      if IsCommitPart(profile, Frozen(v), from, outputs, part, took) {
        CommitsServedFrozen(profile, v, from, outputs, size, total);
        ListedCommitsYielded(profile, paging, CommitServer(profile, Frozen(v), from, outputs), v, size,
                             total(v.commits), part, took);
      }
    }
  }

  lemma {:induction false} ListedCommitsYielded(profile: Profile, paging: Paging, serve: Server<Commit>, v: Version,
                                                size: nat, total: Option<int>, part: Option<CommitPart>, took: nat)
    requires paging.mode == PageNumber && size >= 1 && Serves(serve, v.commits, size, total) && Capturable(profile, v)
    requires IsListed(paging, serve, profile.commitLimit, CommitMaker(), part, took)
    ensures part.Some?
  {
    var fetch :| IsFetch(paging, serve, profile.commitLimit, fetch) && took == fetch.pages && part == CommitMaker()(fetch);
    PageNumberFetch(paging, serve, v.commits, size, total, profile.commitLimit, fetch);
    assert forall i :: 0 <= i < |fetch.items| ==> fetch.items[i] == v.commits[i] && v.commits[i] in v.commits;
  }

  lemma {:induction false} QuietBy(files: Collects<FilePart>, commits: Collects<CommitPart>, profile: Profile,
                                   v: Version, start: nat, trace: Trace, run: Run)
    requires Capturable(profile, v) && YieldsFiles(files, v) && YieldsCommits(commits, v)
    requires (forall s :: profile.validContract(s)) && IsRunBy(files, commits, profile, Frozen(v), start, trace, run)
    ensures run.result.Published? || (profile.requestedVersion != "" && run.result == Rejected(NotFound))
  {
    var outputs := map[RESOLVE := v.detail];
    assert YieldsFilePart(files, v, start + 1, outputs, trace.part, trace.fileReads);
    assert YieldsCommitPart(commits, v, start + 1 + trace.fileReads, outputs, trace.commits, trace.commitReads);
  }

  /** A server at rest on such a version gets it published, unless another content version was asked for. */
  lemma {:induction false} QuietServerIsPublished(profile: Profile, v: Version, start: nat, trace: Trace, run: Run,
                                                  filePaging: Paging, fileSize: nat,
                                                  fileTotal: seq<Item> -> Option<int>, commitPaging: Paging,
                                                  commitSize: nat, commitTotal: seq<Commit> -> Option<int>)
    requires profile.source == ListFiles(filePaging) && filePaging.mode == PageNumber && fileSize >= 1
    requires profile.commits == Some(commitPaging) && commitPaging.mode == PageNumber && commitSize >= 1
    requires CutsByNumber(profile.filePage, fileSize, fileTotal) &&
             CutsByNumber(profile.commitPage, commitSize, commitTotal)
    requires Capturable(profile, v) && CollisionFree(profile.digest) && (forall s :: profile.validContract(s))
    requires IsRun(profile, Frozen(v), start, trace, run)
    ensures run.result.Published? || (profile.requestedVersion != "" && run.result == Rejected(NotFound))
  {
    FilesYielded(profile, v, filePaging, fileSize, fileTotal);
    CommitsYielded(profile, v, commitPaging, commitSize, commitTotal);
    QuietBy(FileCollects(profile), CommitCollects(profile), profile, v, start, trace, run);
  }

  // ---------------------------------------------------------------- a downloaded diff

  /** What reading a diff gives when it gives something: the bodies of its sections, up to the limit. */
  ghost predicate CutsBodies(readDiff: string -> Option<DiffFiles>, limit: nat) {
    forall text :: readDiff(text).Some? ==> HoldsBodies(readDiff(text).value, text, limit)
  }

  ghost predicate HoldsBodies(d: DiffFiles, text: string, limit: nat) {
    var bodies := DiffSections.OpenApiBodies(text, limit);
    && |d.contents| == |bodies| && (forall k :: 0 <= k < |bodies| ==> d.contents[k].content == bodies[k])
    && (d.overflow <==> |DiffSections.TextPatches(text)| > limit)
  }

  /** Every content is the section of the diff at its place. */
  ghost predicate AreSections(contents: seq<Content>, text: string) {
    var sections := DiffSections.TextPatches(text);
    |contents| <= |sections| && forall k :: 0 <= k < |contents| ==> DiffSections.IsOwnPatch(contents[k].content, sections[k])
  }

  lemma {:induction false} BodiesAreSections(d: DiffFiles, text: string, limit: nat)
    requires limit >= 1 && HoldsBodies(d, text, limit)
    ensures AreSections(d.contents, text) <==> !d.overflow
  {
    DiffSections.PatchesExactIffWithinLimit(text, limit);
  }

  /** A snapshot made from a downloaded diff always claims exact patches; they are the sections of the diff of the version
      that its anchor names exactly when its file set is exact. */
  lemma {:induction false} PublishedDiffPatches(profile: Profile, view: View, start: nat, trace: Trace, run: Run,
                                                timeline: nat -> Version, schedule: nat -> nat)
    requires IsRun(profile, view, start, trace, run) && run.result.Published?
    requires Observes(view, timeline, schedule) && AnchorsKeepContent(timeline)
    requires profile.source.GetDiff? && profile.fileLimit >= 1 && CutsBodies(profile.readDiff, profile.fileLimit)
    ensures run.result.snapshot.patches.Exact?
    ensures AreSections(run.result.snapshot.contents, timeline(schedule(start)).diff)
        <==> run.result.snapshot.fileSet.Exact?
  {
    PublishedIsOneVersion(profile, view, start, trace, run, timeline, schedule);
    var v := timeline(schedule(start));
    PublishedParts(FileCollects(profile), CommitCollects(profile), profile, Frozen(v), start, trace, run);
    assert IsFilePart(profile, Frozen(v), start + 1, map[RESOLVE := v.detail], trace.part, trace.fileReads);
    BodiesAreSections(profile.readDiff(v.diff).value, v.diff, profile.fileLimit);
  }

  // ---------------------------------------------------------------- the content key

  /** A missing native version and the head commit in its place make one key; without a head nothing stands in. */
  lemma {:induction false} HeadStandsForVersion(digest: ProviderKeys.Digest, kind: string, objectId: string, a: Anchor,
                                                files: seq<FileChange>, native: string)
    requires CollisionFree(digest)
    ensures var key := KeyOf(digest, kind, objectId);
            key(a.(nativeVersion := ""), files) == key(a.(nativeVersion := native), files) <==> native == "" || native == a.headSha
  {
    var key, none, some := KeyOf(digest, kind, objectId), a.(nativeVersion := ""), a.(nativeVersion := native);
    if key(none, files) == key(some, files) { SameKeySameFileList(digest, kind, objectId, none, files, some, files); }
    assert some.headSha == none.headSha && some.baseSha == none.baseSha && some.diffBaseSha == none.diffBaseSha;
    if native == a.headSha { assert NativeVersion(none) == NativeVersion(some); }
  }

  /** Unless the hash collides, equal content keys mean equal commits in the anchor, the same native version or head,
      and the same manifest text: statuses and paths of the files, in any order. */
  lemma {:induction false} SameKeySameFileList(digest: ProviderKeys.Digest, kind: string, objectId: string, a: Anchor,
                                               files: seq<FileChange>, b: Anchor, others: seq<FileChange>)
    requires CollisionFree(digest) &&
             KeyOf(digest, kind, objectId)(a, files) == KeyOf(digest, kind, objectId)(b, others)
    ensures NativeVersion(a) == NativeVersion(b) && a.headSha == b.headSha && a.baseSha == b.baseSha &&
            a.diffBaseSha == b.diffBaseSha
    ensures ManifestText(files) == ManifestText(others)
  {
    var p := [objectId, NativeVersion(a), a.baseSha, a.diffBaseSha, a.headSha, digest(ManifestText(files))];
    var q := [objectId, NativeVersion(b), b.baseSha, b.diffBaseSha, b.headSha, digest(ManifestText(others))];
    ProviderKeys.OpaqueKeyInjective(digest, kind + "-content", p, kind + "-content", q);
    assert !ProviderKeys.Collision(digest, ProviderKeys.Frame(p), ProviderKeys.Frame(q));
    assert p[1] == q[1] && p[2] == q[2] && p[3] == q[3] && p[4] == q[4] && p[5] == q[5];
  }
}
