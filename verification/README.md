# Session Insight: verified model

Session Insight replays and indexes sessions of coding agents. This project models its self-contained algorithms and
protocols in Dafny and proves what they keep: the collaboration forest, the capture of hosted changes while the server
changes, the lifecycle store of API profiles, the coordinates of the terminal replay, the command splitter and the
heading outline.

`dafny verify dfyconfig.toml` checks everything. Shape of the project:

- **Loops and state** of the source are methods with loops and classes with fields (`Collaboration.Validate`,
  `Capture.GetSnapshot`, `OpenApiCapture.Provider`, `ProfileStore.Tables`, `Outlines.MarkdownOutline`,
  `TerminalSearch.FindTerminalMatch`, ...). Each is proved equal to a specification function or predicate that shares no
  loop with it; the lemmas are about those. For each main operation some lemma says what it answers in terms of what it
  was given, without the specification function.
- **Servers** are oracles: a capture sees the i-th answer of a server whose state may change between any two reads.
- **Hashes** are an arbitrary function; what is proved holds of the hashed text, or up to a collision.
- **Text** is a sequence of characters; Go's bytes and JavaScript's UTF-16 units agree with it on the texts that the
  code compares.

| module (file) | what it models |
|---|---|
| Chains, Collaboration (`chains.dfy`, `collaboration.dfy`) | the edge loop that turns delegation evidence into a forest, and its cycle test |
| Identity (`identity.dfy`) | composite invocation and delegation IDs |
| ProviderKeys, SnapshotFiles, GitLabFiles, OpenApiFiles (`provider_keys.dfy`, `snapshot_files.dfy`, `provider_files.dfy`) | hashed keys, file builders of three providers, the content checks of the snapshot contract |
| Capture, OpenApiCapture, GitLabCapture (`capture.dfy`, `openapi_capture.dfy`, `gitlab_capture.dfy`) | GetSnapshot of three providers as a protocol under arbitrary interleaving |
| OpenApiPages, ChangeLocators, DiffSections (`openapi_pages.dfy`, `change_locators.dfy`, `diff_sections.dfy`) | paging in five modes, change locators, two diff splitters |
| ProfileStore (`profile_store.dfy`) | the profile tables as a state machine |
| HiddenRows, Folds, FoldViews, FoldSuccessors, Viewport (`hidden_rows.dfy`, `folds.dfy`, `fold_view.dfy`, `fold_successors.dfy`, `viewport.dfy`) | fold composition, its index maps, viewport anchors |
| TerminalSearch (`terminal_search.dfy`) | search and count over soft-wrapped rows |
| SourceLines, Outlines, NearestOutline, EditPositions, Scrollback (`outline.dfy`, `nearest_outline.dfy`, `edit_positions.dfy`, `scrollback.dfy`) | heading outline, current outline item, edit matching, scrollback growth |
| CommandStatements, CreationEvidence (`command_statements.dfy`, `creation_evidence.dfy`) | the quoting automaton and the evidence it feeds |
| Wrappers, Ordering, Texts, Numbers, Pages | shared vocabulary |

## Where the obvious statement is false

The code is modelled as it is. Each of these has a lemma with the exact condition, named first, and lemmas at concrete
inputs, named after it.

- A repeated delegation ID is both canonical and quarantined (`Collaboration.BothFatesExact`, `BothFatesExample`); an empty
  invocation ID in a rootless graph is neither linked nor unlinked (`Collaboration.InvocationsPartitioned`,
  `EmptyIdIsNowhere`).
- The pair key of the edge loop confuses pairs whose IDs hold the separator character (`Collaboration.PairKeyCollision`,
  `PairKeyCollisionExample`).
- Two collapsed folds with equal bodies both stay active (`Folds.ActiveIsSpacedExactly`, `EqualRangesBothStay`).
- The comment at terminalFolds.ts:175-179 says a badge is put before the trailing reset; the code puts it after and drops
  what follows (`FoldViews.HeaderKeepsText`, `HeaderDropsTail`).
- A whole-word search skips a standalone occurrence that overlaps an embedded one, and may answer that there is no match
  (`TerminalSearch.WholeWordsFoundExactly` and `NoMatchMeansAbsentExactly`, `WholeWordMisses`); a row wrapped before its full
  width shifts the reported cells of the matches below it (`TerminalSearch.MatchStandsWhereReported`, `ShiftedMatch`).
- Edit matching is a bijection only if the rows are distinct, each call with positions has one for each of its edits, and
  the entries that go by plain indexing stand at the same indexes (`EditPositions.MatchingIsInverse`;
  `SharedRowLosesAnEdit`, `TooFewPositions`, `UnnamedEntriesDisplace`).
- semanticOutline.ts:135 says ties prefer the earlier event; of two items on one line above the anchor the code takes the
  later (`NearestOutline.TiesPreferTheEarlierExactly`, `SameLineTakesTheLater`).
- A statement that starts or ends with a bare ampersand loses it next to `&&` (`CommandStatements.SplitUndoesAmpJoinExactly`,
  `TouchingAmpersandIsLost`); a bare ampersand after an escaped one is lost without any separator
  (`CommandStatements.EscapedAmpersandEatsTheNextExactly`, `EscapedAmpersandEatsTheNext`).
- Verifying and updating a draft each read and write in two statements; the comment at change_host_profile_store.go:291-293
  says the document is validated at the same time, but an edit between the two is verified unseen, and a draft deleted and
  created anew between the two gets the old revision's document (`ProfileStore.RunKeepsInvariantExactly`;
  `EditBetweenCheckAndCommit`, `RecreatedBetweenReadAndWrite`).
- Setting a host's credential directly takes it out of step with the active profile (`ProfileStore.StepKeepsCredentials`,
  `DirectCredentialBreaksSync`).
- Revisions are reused after deletion (`ProfileStore.RevisionIsReused`, `ReusedRevision`).
- A capture mixes versions when an anchor comes back around other content (`Capture.NeverMixesExactly`,
  `RecurringAnchorExample`).
- At the page limit an empty page that names a next one counts as the end (`OpenApiPages.FalselyComplete`,
  `FalselyCompleteExample`).
- The profile-driven provider claims all patches or modes exact though some are missing (`OpenApiFiles.AggregateIsHonest`,
  `AggregateClaimsTooMuch`; `OpenApiFiles.ModesAggregateIsHonest`, `ModesClaimTooMuch`), and all patches exact though the last
  kept section swallowed the ones cut off (`DiffSections.PatchesExactIffWithinLimit`, `SecondSectionIsSwallowed`).
- Its manifest digest confuses renames whose paths hold colons (`OpenApiFiles.DigestDeterminesFilesExactly`, `ColonsCollide`),
  and files whose paths hold line breaks with several files (`OpenApiFiles.LineBreaksCollideExactly`, `LineBreaksCollide`); its
  locators lose display numbers such as `num-7` (`ChangeLocators.LocatorRoundTrip`, `NumberIsLost`).
- The content key of a merge request leaves out which patches the host withheld (`GitLabCapture.SameKeySameDiffs`,
  `FlagsLeaveNoTrace`).

## Model

| member | source | states |
|---|---|---|
| Chains.LinkKeepsForest | internal/collaboration/validate.go:378-391 | adding an edge to a forest keeps it a forest if and only if the child is not the parent or one of its ancestors |
| Chains.GroundedHasNoCycle | internal/collaboration/validate.go:378-391 | in a forest no climb of positive length returns to its start |
| Chains.CreatesCycle | internal/collaboration/validate.go:380-391 | the unbounded walk terminates on every forest and answers true exactly when the child is an ancestor-or-self of the parent |
| Collaboration.StepKeepsForest | internal/collaboration/validate.go:292-345 | whatever one more delegation says, the accepted relation stays an acyclic relation over known invocations in which the root has no parent |
| Collaboration.RunKeepsForest | internal/collaboration/validate.go:239-345 | the same after any number of delegations |
| Collaboration.RunGrows | internal/collaboration/validate.go:239-345 | nothing the loop recorded is withdrawn later |
| Collaboration.CycleVerdictIsFinal | internal/collaboration/validate.go:337-342 | an edge rejected as a cycle would still close one in the final forest |
| Collaboration.ChainsEndAtParentless | internal/collaboration/validate.go:343-344 | every invocation climbs through known invocations to one without a canonical parent |
| Collaboration.EveryChainEndsAtRootOrUnlinked | internal/collaboration/validate.go:347-355 | with non-empty IDs the top of every chain is the root or an unlinked invocation |
| Collaboration.DuplicateExact | internal/collaboration/validate.go:292-298 | a delegation counts as duplicate exactly when an earlier one in sorted order has its ID |
| Collaboration.QuarantinedExact | internal/collaboration/validate.go:292-360 | the quarantine holds exactly the IDs of delegations that a quarantining branch took |
| Collaboration.LinkedExact | internal/collaboration/validate.go:332-344 | a child is linked exactly when one of its delegations was accepted, by that one and no other |
| Collaboration.CanonicalIsFirstAcceptable | internal/collaboration/validate.go:332-344 | what precedes the canonical delegation of a child was refused, what follows is never accepted |
| Collaboration.UnlinkedHasNoAcceptable | internal/collaboration/validate.go:347-355 | a child stays unlinked only if each of its delegations was quarantined or lacks its parent |
| Collaboration.PairKeyCollision | internal/collaboration/validate.go:324 | exactly when two pairs share a key |
| Collaboration.PairKeyInjective | internal/collaboration/validate.go:324 | without the separator in the IDs, the pair key determines the pair |
| Collaboration.PairKeyCollisionExample | internal/collaboration/validate.go:324-330 | a genuine relation quarantined as the duplicate of another |
| Collaboration.DuplicateRelationRepeats | internal/collaboration/validate.go:324-331 | a duplicate relation repeats an earlier delegation's parent and child |
| Collaboration.VerdictByEvidence | internal/collaboration/validate.go:292-345 | each outcome named by the evidence alone: a repeated ID, a child that is unknown, itself or the root, a parent that is unknown, a pair seen before, a child linked before, a child that is above its parent in the final relation |
| Collaboration.FateByEvidence | internal/collaboration/validate.go:239-360 | with distinct IDs, when a delegation is canonical and when quarantined, in terms of the known IDs, the root, the pairs and the children of delegations with smaller IDs |
| Collaboration.CanonicalIsRelation | internal/collaboration/validate.go:332-344 | what is canonical is a relation between known invocations, one parent to a child, none to the root |
| Collaboration.MissingParentExample | internal/collaboration/validate.go:300-323 | a delegation whose parent was never captured is not quarantined, one whose child was not is |
| Collaboration.CanonicalValuesExact | internal/collaboration/validate.go:344 | a delegation ID is a canonical value exactly when its delegation was accepted |
| Collaboration.OneFatePerDelegation | internal/collaboration/validate.go:292-345 | with distinct IDs a delegation is canonical, quarantined, without parent or extra, and only one of these |
| Collaboration.BothFatesExact | internal/collaboration/validate.go:292-297 | an ID is both canonical and quarantined exactly when its accepted delegation is repeated under the same ID |
| Collaboration.BothFatesExample | internal/collaboration/validate.go:292-297 | two delegations with one ID end up both |
| Collaboration.ProjectionIgnoresOrder | internal/collaboration/validate.go:226-237 | root, canonical parents, unlinked and quarantined depend only on the set of invocations and the multiset of delegations |
| Collaboration.InvocationsPartitioned | internal/collaboration/validate.go:347-355 | root, linked and unlinked are disjoint, and cover all invocations exactly unless the graph is rootless with an empty ID |
| Collaboration.EmptyIdIsNowhere | internal/collaboration/validate.go:347-355 | a rootless graph of one invocation with the empty ID, which is neither linked nor unlinked |
| Collaboration.SortedIds | internal/collaboration/validate.go:356-360 | the collected IDs come out sorted, each once |
| Ordering.LexLessExactly | internal/collaboration/validate.go:356-360 | the order of texts: the first differing character decides, a prefix comes first |
| Collaboration.IndexInvocations | internal/collaboration/validate.go:178-214 | the first invocation of each ID is kept |
| Collaboration.ProjectEdges | internal/collaboration/validate.go:239-345 | the edge loop ends in the specified final state |
| Collaboration.Validate | internal/collaboration/validate.go:117-376 | the projection is the specified one, with one outcome per sorted delegation |
| Identity.EscapeInjective | internal/collaboration/identity.go:26-35 | escaping loses nothing |
| Identity.EscapeHasNoSeparator | internal/collaboration/identity.go:26-35 | escaped text holds none of the separators |
| Identity.UnescapeEscape | internal/collaboration/identity.go:26-35 | percent-decoding undoes escaping |
| Identity.InvocationIdInjective | internal/collaboration/identity.go:37-54 | an ID determines agent, session and native ID, and a root ID is never a child ID |
| Identity.DelegationIdInjective | internal/collaboration/identity.go:56-58 | helper-built endpoints are determined by the delegation ID |
| Identity.RawEndpointsCollide | internal/collaboration/identity.go:56-58 | endpoints not built by the helpers do collide |
| ProviderKeys.WriteParts | internal/changehost/provider_common.go:32-39 | the hashing loop writes the frame of the parts |
| ProviderKeys.FrameInjective | internal/changehost/provider_common.go:32-39 | the hashed text determines the list of parts, whatever its length |
| ProviderKeys.OpaqueKeyInjective | internal/changehost/provider_common.go:32-39 | equal keys have equal prefixes and parts, or the hash collides |
| ProviderKeys.FileKeyInjective | internal/changehost/provider_common.go:47-49 | a file key determines both paths, or the hash collides |
| ProviderKeys.SafePathExactly | internal/changehost/provider_common.go:55-69 | a path is safe exactly when it joins non-empty segments that are no dots, in at most 4096 characters without a zero |
| SnapshotFiles.ContentIssues | internal/changehost/validate.go:252-285 | the content checks report nothing exactly when every content has a key of its own, non-empty bytes and an exact last file under that key, and every exact file has a content under its key |
| SnapshotFiles.AgreeExactly | internal/changehost/validate.go:252-285 | for files with keys of their own contents agree exactly when they are one non-empty patch for each file that claims an exact one |
| SnapshotFiles.BuiltContentsAgree | internal/changehost/validate.go:252-285 | what a file builder emits passes them exactly when no later row repeats the key of an exact row |
| SnapshotFiles.SectionsByPath | internal/changehost/github_diff.go:118-124 | the last section of a pair of paths is found under it |
| SnapshotFiles.AppendGithubFiles | internal/changehost/github_provider.go:484-591 | the file loop yields the specified rows, contents, manifest parts and assessments, or fails on an unacceptable file |
| SnapshotFiles.GithubFiles | internal/changehost/github_provider.go:484-591 | the whole builder, including sorting and the manifest key |
| SnapshotFiles.GithubKeysDistinct | internal/changehost/github_provider.go:484-591 | files of different names get different keys |
| SnapshotFiles.GithubBuildAgrees | internal/changehost/github_provider.go:484-591 | for distinct names no content check fires |
| SnapshotFiles.GithubPatchesExact | internal/changehost/github_provider.go:484-591 | the aggregate patch claim is exact exactly when every file has its patch and the list did not overflow |
| SnapshotFiles.SectionForIsLast | internal/changehost/github_provider.go:497-511 | the section used for a file is the last one of its pair of paths, and there is one if the diff has any |
| SnapshotFiles.BuiltRowsSay | internal/changehost/github_provider.go:484-591 | one row for each file of the list, in path order, with the status, paths, modes and patch claim that follow from GitHub's words and the file's section |
| SnapshotFiles.BuiltBytesServed | internal/changehost/github_provider.go:484-591 | the contents are the non-empty patches of the files, each under the key of the path before and the path after, and nothing else |
| SnapshotFiles.BuiltClaimsHold | internal/changehost/github_provider.go:512-590 | file set and commits are exact exactly when they did not overflow, modes when besides every file has a section with both, patches when besides every file has bytes |
| SnapshotFiles.ManifestDetermines | internal/changehost/github_provider.go:484-591 | the flat manifest determines files, patches, modes, counts, commits and completeness |
| GitLabFiles.AppendDiffs | internal/changehost/gitlab_provider.go:429-473 | the diff loop yields the specified rows, contents and assessments, or fails on an unsafe path |
| GitLabFiles.BuildFiles | internal/changehost/gitlab_provider.go:413-487 | the whole builder |
| GitLabFiles.GitLabBuildAgrees | internal/changehost/gitlab_provider.go:413-487 | its contents pass the checks exactly when no pair of paths with an exact patch repeats; its patch claim is exact exactly when every diff was served whole |
| GitLabFiles.BuiltRowsSay | internal/changehost/gitlab_provider.go:413-473 | one row for each diff, by new and then old path, with the status, paths, modes and patch claim that its flags give, and the patches that were served |
| GitLabFiles.BuiltClaimsHold | internal/changehost/gitlab_provider.go:426-486 | file set and commits are always exact, modes when every diff has both, patches when every diff was served whole |
| GitLabFiles.FetchGitLabPages | internal/changehost/gitlab_provider.go:381-411 | the page loop returns the items up to the first short page, the failed page, or the overflow error after a hundred full pages |
| GitLabFiles.StableListing | internal/changehost/gitlab_provider.go:381-411 | a list that does not change comes back whole if it has fewer than 10000 items, and is the overflow error otherwise, unless a page fails |
| OpenApiFiles.FilesFromItems | internal/changehost/openapi_execute.go:245-300 | the specified rows, contents and claims for patches and modes, or an error exactly when an item is unacceptable |
| OpenApiFiles.ItemsAgree | internal/changehost/openapi_execute.go:245-300 | with distinct pairs of paths no content check fires |
| OpenApiFiles.ItemsSay | internal/changehost/openapi_execute.go:245-300 | each row has its item's paths, status and modes, and an exact patch exactly when the profile selects one and the item has it |
| OpenApiFiles.ItemsServed | internal/changehost/openapi_execute.go:281-294 | the contents are the patches that items have |
| OpenApiFiles.AggregateIsHonest | internal/changehost/openapi_execute.go:247-295 | the claim for the list says what its files say if and only if it overflowed or no item lacks its patch |
| OpenApiFiles.AggregateClaimsTooMuch | internal/changehost/openapi_execute.go:247-295 | a list claimed exact whose one file lacks its patch |
| OpenApiFiles.ModesAggregateIsHonest | internal/changehost/openapi_execute.go:252-254 | the claim for the modes says what the files say if and only if the list overflowed or every item has both modes |
| OpenApiFiles.ModesClaimTooMuch | internal/changehost/openapi_execute.go:252-254 | a list whose modes are claimed exact with one mode missing |
| OpenApiFiles.ManifestIgnoresOrder | internal/changehost/openapi_execute.go:310-318 | the manifest digest does not depend on file order |
| OpenApiFiles.ManifestDeterminesLines | internal/changehost/openapi_execute.go:310-318 | between lists whose paths hold no line break, equal text means the same lines in any order, and conversely |
| OpenApiFiles.LineInjective | internal/changehost/openapi_execute.go:313 | among files whose old paths hold no colon a line determines status and paths |
| OpenApiFiles.BuiltFilesAreServable | internal/changehost/openapi_execute.go:268-280 | every file the builder emits has acceptable paths |
| OpenApiFiles.LineReadableExactly | internal/changehost/openapi_execute.go:313 | among files that the builder accepts a line has one reading if and only if no other colon in it has acceptable paths on both sides |
| OpenApiFiles.DigestDeterminesFilesExactly | internal/changehost/openapi_execute.go:310-318 | among accepted lists without line breaks the digest determines the statuses and paths, in any order, if and only if each line has one reading, up to a collision of the hash |
| OpenApiFiles.ColonAtTheEnd | internal/changehost/openapi_execute.go:313 | a file whose path holds a colon and whose line has one reading all the same |
| OpenApiFiles.SwallowedByLineBreak | internal/changehost/openapi_execute.go:310-318 | a list of two or more files shares its text with one file, which is accepted if the text is no longer than a path may be |
| OpenApiFiles.LineBreaksCollideExactly | internal/changehost/openapi_execute.go:310-318 | among accepted lists, one without line breaks, whose text is no longer than a path may be, is determined by its text if and only if it has at most one file |
| OpenApiFiles.LineBreaksCollide | internal/changehost/openapi_execute.go:310-318 | two added files share their digest with one added file whose safe path holds a line break |
| OpenApiFiles.ColonsCollide | internal/changehost/openapi_execute.go:313 | two different renames share a digest |
| Capture.PagesOfStableList | internal/changehost/github_provider.go:443-482 | a list of N items served in pages of 100 comes back as its first min(N, maximum) items, with overflow exactly when N reaches the maximum |
| Capture.PagesMayMix | internal/changehost/github_provider.go:443-482 | in general item k is item k of the list that the read of its page saw |
| Capture.CaptureOfStableContent | internal/changehost/github_provider.go:190-271 | if all reads saw one content the run is the capture of that version, or a request failed, or the anchor moved |
| Capture.PublishedIsOneVersion | internal/changehost/github_provider.go:190-271 | over every interleaving, when content stands still between two times with one anchor, a published snapshot is the capture of the version its anchor names |
| Capture.PublishedClaimsHold | internal/changehost/github_provider.go:190-271 | over every interleaving: the published commits are exact exactly when the named version has fewer than 250, and then its own; the file set exactly when it has fewer than 3000 files, and then with a row for each; rows, patches and claims tell what the version holds |
| Capture.PublishedHasRequestedKey | internal/changehost/github_provider.go:222-225 | a requested version is the published key |
| Capture.MovedAnchorPublishesNothing | internal/changehost/github_provider.go:226-232 | a run whose anchor moved publishes nothing |
| Capture.QuietServerIsCaptured | internal/changehost/github_provider.go:171-271 | a server that stands still is captured as its version |
| Capture.CapturableVersion | internal/changehost/github_provider.go:171-271 | a valid version with distinct file names, whose snapshot meets the contract, is published unless another one was asked for |
| Capture.CapturableExactly | internal/changehost/github_provider.go:182-225 | what a version needs, character by character: the target repository, hashes of 40 or 64 hexadecimal digits, texts within their limits |
| Capture.RejectionMeans | internal/changehost/github_provider.go:190-232 | a transport error means exactly that a request failed, a race that the anchor moved, not found that a version was asked for |
| Capture.RecurringAnchorMixes | internal/changehost/github_provider.go:190-232 | a capture whose anchor is the same before and after content reads at another time is the capture of the mixture, for lists of any length |
| Capture.DetourPublishesMixture | internal/changehost/github_provider.go:190-232 | on any timeline of valid versions with such a return it publishes the one version's anchor with the other's commits |
| Capture.NeverMixesExactly | internal/changehost/github_provider.go:190-271 | over all interleavings only captures of single versions are published, if and only if between two times with one anchor the content stands still |
| Capture.RecurringAnchorExample | internal/changehost/github_provider.go:190-232 | two versions and a run whose snapshot is the capture of neither |
| Capture.SameKeySameContent | internal/changehost/github_provider.go:218-222 | equal content keys mean equal anchor, files, patches, completeness and commits, or the hash collides |
| Capture.FetchPages | internal/changehost/github_provider.go:443-482 | the page loop computes the specified paging of what the server shows at each read |
| Capture.CollectMaterial | internal/changehost/github_provider.go:190-209 | anchor, file pages, diff and commit pages, in this order, each failure at its place |
| Capture.PrepareSnapshot | internal/changehost/github_provider.go:210-225 | the snapshot built from the collected material, refused for an unreadable file or commit or another requested version |
| Capture.ConcludeCapture | internal/changehost/github_provider.go:226-271 | the second look at the anchor and the final checks |
| Capture.GetSnapshot | internal/changehost/github_provider.go:190-271 | the whole run is the specified capture of the server's view |
| OpenApiPages.FetchPages | internal/changehost/openapi_execute.go:386-500 | in all five modes: the pages up to the first stop, cut to the maximum, with the overflow flag as specified, never beyond the page limit |
| OpenApiPages.FetchIsUnique | internal/changehost/openapi_execute.go:386-500 | the specification has one answer |
| OpenApiPages.FetchIsPrefix | internal/changehost/openapi_execute.go:439-445 | at most the maximum, and a prefix of what the chain of pages holds |
| OpenApiPages.FalselyComplete | internal/changehost/openapi_execute.go:443-445 | no overflow is reported although the list continues exactly at the page limit on an empty page that names a next one |
| OpenApiPages.FalselyCompleteExample | internal/changehost/openapi_execute.go:443-445 | such a list |
| OpenApiPages.PageNumberFetch | internal/changehost/openapi_execute.go:450-462 | by page number, overflow is reported exactly when the list reaches the maximum or the last allowed page, and without overflow everything was read |
| OpenApiPages.CutByTotalExactly | internal/changehost/openapi_execute.go:450-462 | a list read in part is called complete if and only if the stated total cuts it short before the maximum and the page limit do |
| OpenApiPages.TokenFetch | internal/changehost/openapi_execute.go:463-496 | a server that holds pages under tokens, each naming the next in a link, a body cursor or a header cursor, is read in order: everything when it fits the maximum and the page limit, otherwise the first items with overflow; a continuation that cannot be read or had fails the fetch when it gets there |
| OpenApiPages.TokenFetchExample | internal/changehost/openapi_execute.go:463-468 | two pages, the second behind a link, come back in order and once |
| OpenApiPages.SinglePageFetch | internal/changehost/openapi_execute.go:446-449 | without paging the first reply is the list |
| OpenApiCapture.Provider.CollectFiles | internal/changehost/openapi_execute.go:169-222 | the file part from the list, the diff or neither, with its claims for file set, patches and modes |
| OpenApiCapture.Provider.CollectCommits | internal/changehost/openapi_execute.go:322-367 | the commit part, refused when a commit lacks its hash or subject |
| OpenApiCapture.Provider.Conclude | internal/changehost/openapi_provider.go:265-301 | the second look at the anchor and the final checks |
| OpenApiCapture.Provider.GetSnapshot | internal/changehost/openapi_provider.go:190-302 | one call is a specified run, whatever an earlier call left in the outputs |
| OpenApiCapture.PublishedIsOneVersion | internal/changehost/openapi_provider.go:207-277 | over every interleaving and in every paging mode, what is published is the one answer of the same call against the named version standing still |
| OpenApiCapture.MovedAnchorPublishesNothing | internal/changehost/openapi_provider.go:261-277 | a moved anchor publishes nothing, a requested version is the published key |
| OpenApiCapture.RunIsUnique | internal/changehost/openapi_provider.go:190-302 | the reads of a run determine its answer |
| OpenApiCapture.QuietServerIsPublished | internal/changehost/openapi_provider.go:190-302 | by page number, a server at rest on a version with a whole detail, acceptable files of distinct paths and readable commits gets it published, unless another version was asked for |
| OpenApiCapture.PublishedTellsDetail | internal/changehost/openapi_provider.go:207-301 | title, lifecycle and anchor are those of the named version, the key that of its anchor and files |
| OpenApiCapture.PublishedByOperation | internal/changehost/openapi_execute.go:169-222 | what the profile has no operation for is empty and marked unsupported, a diff says nothing about modes, every published commit has hash and subject |
| OpenApiCapture.RejectionMeans | internal/changehost/openapi_provider.go:207-277 | a race means that the anchor moved, not found that a version was asked for |
| OpenApiCapture.PublishedFilesAreComplete | internal/changehost/openapi_provider.go:207-277 | by page number, with a total that covers the list or none, the file set is exact if and only if the named version's list is shorter than the limit and ends before the last allowed page, and then it is that list |
| OpenApiCapture.PublishedCommitsAreComplete | internal/changehost/openapi_provider.go:207-277 | and its commit list likewise |
| OpenApiCapture.PublishedDiffPatches | internal/changehost/openapi_execute.go:201-218 | a snapshot made from a diff claims exact patches; they are the sections of the named version's diff if and only if its file set is exact |
| OpenApiCapture.SameKeySameFileList | internal/changehost/openapi_provider.go:249-260 | equal keys mean equal anchor commits and equal manifest text |
| OpenApiCapture.HeadStandsForVersion | internal/changehost/openapi_provider.go:249-260 | a missing native version makes the same key as another exactly when that is the head commit |
| GitLabCapture.Client.CollectMaterial | internal/changehost/gitlab_provider.go:209-239 | merge request, source project, diff pages and commit pages, in this order, each failure at its place |
| GitLabCapture.Client.PrepareSnapshot | internal/changehost/gitlab_provider.go:240-251 | the snapshot built from them, refused for an unsafe path or another requested version |
| GitLabCapture.Client.ConcludeCapture | internal/changehost/gitlab_provider.go:252-299 | the second look at the merge request and the final checks |
| GitLabCapture.Client.GetSnapshot | internal/changehost/gitlab_provider.go:209-299 | the whole run is the specified capture |
| GitLabCapture.PublishedIsOneVersion | internal/changehost/gitlab_provider.go:209-258 | over every interleaving, a published snapshot is the capture of the one version its anchor names |
| GitLabCapture.MovedAnchorPublishesNothing | internal/changehost/gitlab_provider.go:248-258 | a moved anchor publishes nothing, a requested version is the published key |
| GitLabCapture.PublishedClaimsHold | internal/changehost/gitlab_provider.go:209-299 | over every interleaving the published rows and commits are the named version's own, whole, with the claims that follow from them |
| GitLabCapture.QuietServerIsCaptured | internal/changehost/gitlab_provider.go:209-299 | a server at rest is captured as its version |
| GitLabCapture.CapturableVersion | internal/changehost/gitlab_provider.go:209-299 | a version of the project with a whole anchor, fewer than 10000 safe diffs of distinct paths and fewer than 10000 readable commits is published, unless another one was asked for |
| GitLabCapture.ForkTakesARead | internal/changehost/gitlab_provider.go:219-229 | the project of a fork takes a read of its own, whose failure ends the run |
| GitLabCapture.RejectionMeans | internal/changehost/gitlab_provider.go:209-258 | a transport error means exactly that a request failed, an incomplete one that the merge request is not the one asked for or has no whole anchor |
| GitLabCapture.SameKeySameDiffs | internal/changehost/gitlab_provider.go:428-481 | equal content keys mean equal diffs and commit hashes; the rows agree if and only if the host withheld the same patches |
| GitLabCapture.FlagsLeaveNoTrace | internal/changehost/gitlab_provider.go:443-481 | two lists of rows that differ in an assessment and share their manifest |
| ChangeLocators.LocatorRoundTrip | internal/changehost/openapi_provider.go:336-348 | the display number comes back if and only if the pair is locatable |
| ChangeLocators.NumberIsLost | internal/changehost/openapi_provider.go:336-348 | the display number num-7 comes back as 7 |
| ChangeLocators.LocatorInjective | internal/changehost/openapi_execute.go:77-81 | locatable pairs have different locators |
| DiffSections.ParseGithubDiff | internal/changehost/github_diff.go:17-51 | the patches in order, or an error for no section or an unreadable one |
| DiffSections.GithubPatchesCoverDiff | internal/changehost/github_diff.go:17-51 | one patch per header line; end to end they are the normalized diff from its first header on |
| DiffSections.SectionsAreFiles | internal/changehost/github_diff.go:17-51 | the sections are the text from the first line that starts with the marker on, and each section has exactly one such line, its first |
| DiffSections.FilesFromUnifiedDiff | internal/changehost/openapi_execute.go:539-598 | the bodies of the kept sections and the overflow flag, or an error |
| DiffSections.GithubPatchesNormalize | internal/changehost/github_diff.go:17-51 | normalizing the diff before cutting it normalizes each of its sections |
| DiffSections.SplittersAgree | internal/changehost/openapi_execute.go:554-565 | on every diff a GitHub patch is a section normalized, a body a section less the final newline, and the last body runs to the end of the diff |
| DiffSections.PatchesExactIffWithinLimit | internal/changehost/openapi_execute.go:212-218 | on every diff each body is its own section if and only if the diff keeps to the limit |
| DiffSections.SecondSectionIsSwallowed | internal/changehost/openapi_execute.go:554-565 | two sections under a limit of one |
| ProfileStore.StepKeepsInvariant | internal/db/change_host_profile_store.go:102-454 | every statement and transaction keeps the invariant, the writes of an update and of a verification if and only if they fit the row stored at that moment |
| ProfileStore.StepKeepsStructure | internal/db/change_host_profile_store.go:102-454 | every operation, whatever raced with it, keeps one active profile per host, unique revisions and valid rows |
| ProfileStore.StepKeepsCredentials | internal/db/change_host_store.go:152-174 | hosts stay in step with their active profile if and only if a direct credential write keeps them so |
| ProfileStore.DirectCredentialBreaksSync | internal/db/change_host_store.go:152-174 | a run from empty tables that leaves an active profile's host with another credential |
| ProfileStore.ActivateSwitches | internal/db/change_host_profile_store.go:331-391 | activation leaves one active profile, hands over its credential and revokes the previous one |
| ProfileStore.EveryRunKeepsStructure | internal/db/change_host_profile_store.go:102-454 | the structure after any run from empty tables, in which no row is ever marked invalid |
| ProfileStore.RunKeepsInvariantExactly | internal/db/change_host_profile_store.go:203-323 | over every interleaving of reads and writes, the invariant holds throughout a run if and only if every commit comes too late, follows its check without a new document or after a passing one, and every draft write goes to a row of the identity its document names |
| ProfileStore.EveryUndisturbedRunKeepsInvariant | internal/db/change_host_profile_store.go:203-323 | in particular when nothing writes or deletes the row between the two halves of a call |
| ProfileStore.EveryRunKeepsCredentials | internal/db/change_host_profile_store.go:331-391 | credentials in step after any run without direct credential writes, whatever raced |
| ProfileStore.StepOnRow | internal/db/change_host_profile_store.go:203-438 | identity never changes, the lifecycle moves along the allowed edges, the document changes only as a draft |
| ProfileStore.StepRemovesRow | internal/db/change_host_profile_store.go:443-454 | only a deletable, unreferenced row disappears |
| ProfileStore.StepDoesItsWork | internal/db/change_host_profile_store.go:102-454 | when each operation does its work, in terms of the lifecycles, documents, hosts and references before it, and what it then leaves of every row, host and reference; otherwise what it answers, and that it changes nothing |
| ProfileStore.ActiveExactly | internal/db/change_host_profile_store.go:331-424 | over every run, whatever raced: a profile is active if and only if it was activated and has since been neither revoked nor degraded nor displaced by another one of its host |
| ProfileStore.RevokedExactly | internal/db/change_host_profile_store.go:331-454 | and it is revoked if and only if it was revoked, or displaced while active, and has not been deleted since |
| ProfileStore.InvariantMeans | internal/db/change_host_profile_store.go:50-73 | the invariant field by field: a stored row's document names its identity and digest, and passed the contract if the row is in service |
| ProfileStore.ActivationNeedsApproval | internal/db/change_host_profile_store.go:331-391 | where the invariant holds a verified profile goes into service if and only if its host is approved |
| ProfileStore.LaterRowsAreFrozen | internal/db/change_host_profile_store.go:294-454 | over any run a row past the drafts keeps its document, and a revoked row stays revoked |
| ProfileStore.NewRevisionIsNext | internal/db/change_host_profile_store.go:137-191 | a new revision is above every stored one of its host |
| ProfileStore.RevisionIsReused | internal/db/change_host_profile_store.go:155-166 | after a deletion the next number is one already given out if and only if the deleted row held its host's greatest revision |
| ProfileStore.ReusedRevision | internal/db/change_host_profile_store.go:155-166 | a run from empty tables that allocates revision 1 twice, for two documents |
| ProfileStore.CommitVerifiedExact | internal/db/change_host_profile_store.go:294-323 | the second statement of a verification keeps the structure always, and sound documents if and only if it does nothing or the stored document passes |
| ProfileStore.EditBetweenCheckAndCommit | internal/db/change_host_profile_store.go:294-323 | a run in which an edit between check and commit is verified unseen |
| ProfileStore.RecreatedBetweenReadAndWrite | internal/db/change_host_profile_store.go:203-239 | a run in which a new revision gets the old one's document |
| ProfileStore.Tables.GreatestRevision | internal/db/change_host_profile_store.go:155-166 | the query answers the greatest stored revision |
| ProfileStore.Tables.Create | internal/db/change_host_profile_store.go:102-191 | the tables after creating a draft |
| ProfileStore.Tables.ReadDraft | internal/db/change_host_profile_store.go:203-228 | the outcome of reading and checking a draft for an update |
| ProfileStore.Tables.WriteDraftRow | internal/db/change_host_profile_store.go:229-238 | the tables after the conditional write of an update |
| ProfileStore.Tables.ReadForVerification | internal/db/change_host_profile_store.go:294-311 | the outcome of reading and validating a row for verification |
| ProfileStore.Tables.WriteVerified | internal/db/change_host_profile_store.go:312-322 | the tables after the conditional write of a verification |
| ProfileStore.Tables.MakeActive | internal/db/change_host_profile_store.go:331-391 | the tables after activation |
| ProfileStore.Tables.Degrade | internal/db/change_host_profile_store.go:395-409 | the tables after degradation |
| ProfileStore.Tables.Retire | internal/db/change_host_profile_store.go:413-424 | the tables after revocation |
| ProfileStore.Tables.Touch | internal/db/change_host_profile_store.go:428-438 | the tables after recording a successful use |
| ProfileStore.Tables.Remove | internal/db/change_host_profile_store.go:443-454 | the tables after deletion |
| HiddenRows.ToDisplay | frontend/src/terminalFolds.ts:206-217 | a row goes to the rank of the row that shows it; the same loop serves logical lines |
| HiddenRows.ToOriginal | frontend/src/terminalFolds.ts:219-227 | a current row comes from the visible row of that rank |
| HiddenRows.MapsAreInverse | frontend/src/terminalFolds.ts:206-251 | the maps undo each other on visible rows; hidden rows return to their header |
| HiddenRows.MapsAreMonotone | frontend/src/terminalFolds.ts:206-251 | both maps keep order, the map back strictly |
| HiddenRows.ShownIsNearestAbove | frontend/src/terminalFolds.ts:206-217 | a row is shown by the nearest visible row at or above it |
| HiddenRows.RankCounts | frontend/src/terminalFolds.ts:206-227 | a current row number counts the visible rows above |
| Folds.ActiveHidesTheCollapsed | frontend/src/terminalFolds.ts:151-160 | dropping nested folds hides exactly the same rows and lines |
| Folds.ActiveIsSpaced | frontend/src/terminalFolds.ts:151-160 | without a shared body that shows, the active folds are apart in both spaces |
| Folds.ActiveIsSpacedExactly | frontend/src/terminalFolds.ts:151-160 | for folds that nest, are apart or share a body, the active bodies are apart, in either space, if and only if no two collapsed folds share a body that no other collapsed fold swallows |
| Folds.CollapsingInsideCollapsed | frontend/src/terminalFolds.ts:151-160 | collapsing a fold inside a collapsed one changes nothing |
| Folds.EqualRangesBothStay | frontend/src/terminalFolds.ts:157-159 | equal bodies are counted twice |
| FoldViews.HeaderKeepsText | frontend/src/terminalFolds.ts:174-189 | a header keeps its text around the badge if and only if the offset is inside, there is no reset, or nothing follows the last one |
| FoldViews.HeaderDropsTail | frontend/src/terminalFolds.ts:185-188 | text after the reset disappears |
| FoldViews.FlipsFirst | frontend/src/terminalFolds.ts:180 | the first open arrow is closed and nothing else changes |
| FoldViews.RenderedShows | frontend/src/terminalFolds.ts:174-189 | a header says how many rows its fold hides, at the offset, else behind the last reset, else at the end |
| FoldViews.ComposeLines | frontend/src/terminalFolds.ts:190-197 | the copying loop yields the visible lines, headers rewritten |
| FoldViews.ComposeFoldView | frontend/src/terminalFolds.ts:150-204 | text, total and ranges of the view are the specified ones |
| FoldViews.ComposedTextLines | frontend/src/terminalFolds.ts:169-199 | the text has one line per visible original line, each at its rank, changed only where it heads an active fold |
| FoldViews.HiddenLogicalExact | frontend/src/terminalFolds.ts:151-160 | a line is missing exactly when some collapsed fold's body holds it |
| FoldViews.RankCountsHidden | frontend/src/terminalFolds.ts:190-199 | as many lines are missing as some body covers |
| FoldViews.FoldKeysContainingTarget | frontend/src/terminalFolds.ts:83-95 | every fold that contains the target is listed |
| FoldViews.FoldKeysAreContaining | frontend/src/terminalFolds.ts:83-95 | and no other |
| FoldViews.ListedExactly | frontend/src/terminalFolds.ts:83-95 | a fold is listed if and only if the target is its header or collapsing that fold alone hides the target |
| FoldViews.OpeningRevealsLine | frontend/src/terminalFolds.ts:83-95 | opening them makes the target line visible and hides nothing new; it stands at its own place when no two folds that show share a body |
| FoldViews.OpeningRevealsRow | frontend/src/terminalFolds.ts:83-95 | the same for a display row |
| FoldSuccessors.FoldSuccessorKeys | frontend/src/terminalFolds.ts:105-126 | a key with a counterpart of the same turn and ordinal is renamed to one, and with distinct keys exactly to it |
| FoldSuccessors.RenamingIsReversible | frontend/src/terminalFolds.ts:105-126 | the renaming is a partial bijection, undone by renaming back |
| FoldSuccessors.SuccessionExactly | frontend/src/terminalFolds.ts:105-126 | one key succeeds another if and only if their folds have the same turn and as many folds of that turn above them |
| Viewport.CaptureViewportAnchor | frontend/src/viewportAnchor.ts:28-51 | the binary search finds the line that holds the row |
| Viewport.ResolveViewportAnchor | frontend/src/viewportAnchor.ts:61-78 | the specified row |
| Viewport.CaptureThenResolve | frontend/src/viewportAnchor.ts:28-78 | against the same buffer a captured row comes back if and only if it lies in the buffer |
| Viewport.ResolveStaysInLine | frontend/src/viewportAnchor.ts:67-77 | against any other buffer and folds it lands inside the line that now shows the anchor's line, or the buffer's last line |
| Viewport.ResolvesExactly | frontend/src/viewportAnchor.ts:67-77 | the captured offset in the line that shows the anchor's line, or in the buffer's last, cut to that line |
| Viewport.ResolveShowsOriginal | frontend/src/viewportAnchor.ts:67-77 | in a buffer with one line per visible original line, that line shows the anchor's line or the header that hides it |
| TerminalSearch.MatchSpansInLine | frontend/src/terminalSearchCount.ts:54-92 | the scan yields the specified leftmost spans |
| TerminalSearch.PlainSpansExact | frontend/src/terminalSearchCount.ts:80-91 | spans are ascending occurrences and every occurrence starts inside one |
| TerminalSearch.WholeWordSpans | frontend/src/terminalSearchCount.ts:86-88 | the spans that count are the plain spans that pass the whole-word test |
| TerminalSearch.WholeWordsFoundExactly | frontend/src/terminalSearchCount.ts:80-91 | every standalone occurrence in every text is found if and only if the needle cannot start again inside itself behind a character outside words |
| TerminalSearch.WholeWordMisses | frontend/src/terminalSearchCount.ts:84-90 | a standalone overlapping occurrence is not found |
| TerminalSearch.SpansAreWords | frontend/src/terminalSearchCount.ts:17-25 | whatever is found stands in the line itself, a whole word between signs or the line's ends |
| TerminalSearch.NoWordTouches | frontend/src/terminalSearchCount.ts:17-25 | so no letter, digit or underscore touches it |
| TerminalSearch.WordSpansExactly | frontend/src/terminalSearchCount.ts:54-92 | for a text that does not begin again inside itself behind a sign, a whole-word search finds exactly the places where it stands, up to case as asked for, between signs or the line's ends |
| TerminalSearch.PlainSpansCover | frontend/src/terminalSearchCount.ts:77-91 | a plain search covers every place where the text stands |
| TerminalSearch.ErrInError | frontend/src/terminalSearchCount.ts:21-25 | the row "error" holds no whole word "err" |
| TerminalSearch.UnwrappedLineText | frontend/src/terminalSearchCount.ts:28-40 | the text of the whole block, or nothing for a continuation row |
| TerminalSearch.MatchesArePlaced | frontend/src/terminalSearchCount.ts:161-166 | with rows that fit the width, matches lie on the rows of their block in reading order |
| TerminalSearch.MatchStandsWhereReported | frontend/src/terminalSearchCount.ts:242-250 | the text stands at the reported cell if and only if the rows of its block above it are full |
| TerminalSearch.ShiftedMatch | frontend/src/terminalSearchCount.ts:242-250 | a match reported behind the text of a short row |
| TerminalSearch.ScanForward | frontend/src/terminalSearchCount.ts:168-195 | the least match at or after the start, or none up to the stop row |
| TerminalSearch.ScanBackward | frontend/src/terminalSearchCount.ts:197-226 | the mirror image |
| TerminalSearch.FindTerminalMatch | frontend/src/terminalSearchCount.ts:128-236 | the nearest match in the direction, else with wrap the first of the buffer (the last, backwards), else nothing |
| TerminalSearch.AnswerIsUnique | frontend/src/terminalSearchCount.ts:147 | the slice size never changes the answer |
| TerminalSearch.AnswerInOrder | frontend/src/terminalSearchCount.ts:128-236 | in the list of all matches in reading order: the next one behind the start in the direction, or on it when that counts; if none, with wrap the first from that end |
| TerminalSearch.NoMatchMeansAbsent | frontend/src/terminalSearchCount.ts:168-236 | for a searchable text, whole words or not, the buffer has no match exactly when no unwrapped line holds the text as asked for |
| TerminalSearch.NoMatchMeansAbsentExactly | frontend/src/terminalSearchCount.ts:168-236 | that holds of every buffer if and only if the search is not for whole words or its text does not overlap itself |
| TerminalSearch.CountTerminalMatches | frontend/src/terminalSearchCount.ts:256-328 | the number of matches up to the cap, and the first selected one |
| TerminalSearch.TallyMeans | frontend/src/terminalSearchCount.ts:284-312 | count, cap and the first match at the selection or behind it on its row within the query's length |
| TerminalSearch.SelectedMatchIsIndexed | frontend/src/terminalSearchCount.ts:293-308 | a selection at a counted match is given that match's place |
| SourceLines.LineStarts | frontend/src/codeOutline.ts:16-22 | zero and the offset after each newline |
| SourceLines.LineAt | frontend/src/codeOutline.ts:24-33 | one plus the number of newlines before the offset |
| SourceLines.StartsCountNewlines | frontend/src/codeOutline.ts:16-33 | the k-th start is at or before an offset exactly when k newlines precede it |
| SourceLines.NewlinesCounted | frontend/src/codeOutline.ts:16-33 | those newlines are counted place by place |
| Outlines.PopTo | frontend/src/codeOutline.ts:211 | popping leaves the nearest earlier heading of smaller level on top |
| Outlines.Hang | frontend/src/codeOutline.ts:221 | pushing to that child array extends the tree by one node and disturbs no other |
| Outlines.MarkdownOutline | frontend/src/codeOutline.ts:196-225 | one item per named heading, each under the nearest earlier heading of smaller level or the root |
| Outlines.NamedExactly | frontend/src/codeOutline.ts:205-208 | every heading with a name is kept, in its order, and no other |
| Outlines.FlattenOutline | frontend/src/codeOutline.ts:234-244 | the nodes of any such tree in document order |
| Outlines.OutlineOf | frontend/src/codeOutline.ts:196-244 | flattening undoes building |
| Outlines.ChildrenLast | frontend/src/codeOutline.ts:236-241 | a node has a further child exactly when its subtree has not ended |
| Outlines.HeadingIdInjective | frontend/src/codeOutline.ts:213 | headings at different offsets have different IDs |
| NearestOutline.NearestOutlineKey | frontend/src/semanticOutline.ts:137-169 | the first of the narrowest items around the anchor, else the nearest item |
| NearestOutline.CurrentIsUnique | frontend/src/semanticOutline.ts:130-169 | the rules pick one item |
| NearestOutline.PickedExamples | frontend/src/semanticOutline.ts:137-169 | the innermost of nested items, the first of equal ones, the nearer, and at equal distance the one above |
| NearestOutline.TiesPreferTheEarlierExactly | frontend/src/semanticOutline.ts:153-168 | with no item around the anchor, the pick is the earliest of the equally near items unless, and only unless, the last item above wins and shares its line |
| NearestOutline.SameLineTakesTheLater | frontend/src/semanticOutline.ts:161-168 | two items on one line of which the later is picked |
| EditPositions.PerIdOrdinal | frontend/src/editPositionMatch.ts:27-34 | the number of earlier entries with the same ID |
| EditPositions.EditPositionForIndex | frontend/src/editPositionMatch.ts:37-50 | the specified position |
| EditPositions.EditIndexForRow | frontend/src/editPositionMatch.ts:53-73 | the specified edit for the first position on the row, -1 for none |
| EditPositions.EditGoes | frontend/src/editPositionMatch.ts:37-50 | a named edit goes to the position of its ordinal or, past the candidates, to the last of them; any other to the position of its index |
| EditPositions.PositionGoes | frontend/src/editPositionMatch.ts:53-73 | a named position goes to the edit of its ordinal; any other to the edit of its index |
| EditPositions.NamedEditReturns | frontend/src/editPositionMatch.ts:37-73 | with equal counts a named edit comes back by the row of its position if and only if that position is the first on the row, or an unnamed one stands there first at the edit's index |
| EditPositions.NamedEditPairs | frontend/src/editPositionMatch.ts:37-50 | with equal counts a named edit pairs with the position of its call and ordinal, in whatever order the lists are |
| EditPositions.NamedPositionPairs | frontend/src/editPositionMatch.ts:60-72 | and a named position with its edit |
| EditPositions.MatchingIsInverse | frontend/src/editPositionMatch.ts:37-73 | for any two lists the functions are mutually inverse bijections if and only if the rows are distinct, each call with positions has enough of them, and the entries that go by plain indexing line up |
| EditPositions.EqualCountsInverse | frontend/src/editPositionMatch.ts:37-73 | with equal counts for every call that is if and only if the rows are distinct and the unnamed entries line up |
| EditPositions.UnnamedPositionStandsIn | frontend/src/editPositionMatch.ts:49 | unequal counts that match all the same |
| EditPositions.TooFewPositions | frontend/src/editPositionMatch.ts:44-47 | two edits that go to one position |
| EditPositions.SharedRowLosesAnEdit | frontend/src/editPositionMatch.ts:58 | two positions on one row of which the second leads back to the first one's edit |
| EditPositions.UnnamedEntriesDisplace | frontend/src/editPositionMatch.ts:49 | two lists where they are not |
| Scrollback.Terminal.EnsureScrollback | frontend/src/terminalScrollback.ts:59-69 | the new scrollback never shrinks and covers the lines; the option is written only on growth |
| Scrollback.RequiredIsLeast | frontend/src/terminalScrollback.ts:15-19 | the required scrollback is the least sufficient one from the default on |
| Scrollback.GrowsOnlyWhenShort | frontend/src/terminalScrollback.ts:24-32 | a scrollback that holds the lines stays; otherwise it doubles, or grows to just hold them |
| Scrollback.RunCovers | frontend/src/terminalScrollback.ts:24-32 | over any run every request stays covered |
| Scrollback.ReallocationsAreLogarithmic | frontend/src/terminalScrollback.ts:24-32 | k reallocations need a requirement above 10000 times 2 to the k |
| Scrollback.EstimateRenderedLineCount | frontend/src/terminalScrollback.ts:36-57 | the wrapped rows of every line, counted between carriage returns |
| Scrollback.RunTakesLeast | frontend/src/terminalScrollback.ts:36-57 | a run takes the least number of rows that hold it, at least one |
| Scrollback.RunsShareARow | frontend/src/terminalScrollback.ts:36-57 | what follows a carriage return starts over on the last row |
| CommandStatements.UnquotedStatements | internal/changeevidence/extract.go:142-194 | the trimmed non-blank pieces between boundaries |
| CommandStatements.PiecesAreClosed | internal/changeevidence/extract.go:156-191 | no boundary falls inside quotes: each piece but the last is closed by itself |
| CommandStatements.SplitUndoesCharJoin | internal/changeevidence/extract.go:179-182 | splitting undoes joining with semicolons or newlines |
| CommandStatements.SplitUndoesAmpJoinExactly | internal/changeevidence/extract.go:183-189 | splitting undoes joining with double ampersands if and only if no bare ampersand touches one |
| CommandStatements.TouchingAmpersandIsLost | internal/changeevidence/extract.go:183-189 | two statements whose join loses an ampersand |
| CommandStatements.EscapedAmpersandEatsTheNext | internal/changeevidence/extract.go:187-189 | a text that loses an ampersand without any separator |
| CommandStatements.EscapedAmpersandEatsTheNextExactly | internal/changeevidence/extract.go:183-190 | a text without separators comes back whole if and only if no bare ampersand follows an escaped one |
| CommandStatements.StatementExactly | internal/changeevidence/extract.go:156-190 | what the two join laws ask of a statement: closed, no bare separator, no bare ampersand after an escaped one |
| CommandStatements.QuotedIsOneStatement | internal/changeevidence/extract.go:156-178 | text in single quotes without one, and text in double quotes whose quotes are escaped, is one statement whatever else is in it |
| CommandStatements.StatementsConcat | internal/changeevidence/extract.go:156-190 | two statements one behind the other are one, unless two ampersands meet |
| CommandStatements.CreationCommand | internal/changeevidence/extract.go:123-137 | the provider of the first creating statement |
| CommandStatements.CreationInJoin | internal/changeevidence/extract.go:123-137 | in a join of statements the first creating one decides, whatever is quoted before it |
| CommandStatements.CreationKindExactly | internal/changeevidence/extract.go:123-137 | a statement creates at GitHub exactly when its first words are gh pr create, at GitLab glab mr create |
| CommandStatements.CreationOfExactly | internal/changeevidence/extract.go:123-137 | the first statement that creates decides |
| CreationEvidence.ScanReferences | internal/changeevidence/extract.go:214-233 | the resolved links of a text, each URL once |
| CreationEvidence.UniqueReference | internal/changeevidence/extract.go:196-212 | a provider's link exactly when the text has one |
| CreationEvidence.UniqueIsOnly | internal/changeevidence/extract.go:196-212 | that link is the one reference of the provider that a field of the text names |
| CreationEvidence.UrlsAreRecordedOnce | internal/changeevidence/extract.go:33-88 | each URL is recorded once |
| CreationEvidence.AllUrlsRecorded | internal/changeevidence/extract.go:33-88 | and every offered URL is recorded |
| CreationEvidence.CreationWins | internal/changeevidence/extract.go:20-23 | a URL is recorded as created exactly when a successful creating command names it, by the first such command |
| CreationEvidence.CreationsExactly | internal/changeevidence/extract.go:33-65 | a URL is recorded as created if and only if some clean result of a creating command names it and no other of the provider, and the record names the call |
| CreationEvidence.RecordsExactly | internal/changeevidence/extract.go:33-90 | a URL has a record if and only if it was so created or an event that was neither cut short nor refused mentions it |
| CreationEvidence.MentionMeans | internal/changeevidence/extract.go:66-90 | every other record is a mention, under its event's ID or place |
| CreationEvidence.ExtractCreationEvidence | internal/changeevidence/extract.go:24-90 | the two passes yield the specified records |

## Left out

- Collaboration.Validate: field-level checks, causality checks and issue texts, which report and never change the projection.
- The identity checks and repository reads before a capture: they can only reject. The summary checks and the remaining
  snapshot field checks after it are one predicate of the request, `validContract`.
- Capture.GetSnapshot: starts at the first look at the pull; the checks named above are not spelled out.
- GitLabCapture.Client.GetSnapshot: starts at the first look at the merge request, likewise.
- HTTP, JSON, URL building, the Link header and SQL: parameters or atomic steps; a hosted read either fails or shows one state.
- OpenApiCapture.Provider.GetSnapshot: does not tell transport, malformed and invalid responses apart; all are one refusal.
- OpenApiCapture.Provider.CollectFiles: how a diff becomes file rows is a parameter; its cutting is modelled in DiffSections
  and joined to the capture by OpenApiCapture.PublishedDiffPatches.
- OpenApiFiles.LineBreaksCollideExactly: for lists whose text is longer than 4096 characters only the collision with a file
  whose path is too long to be accepted is stated.
- DiffSections.ParseGithubDiff: reading a section's paths and modes is a parameter that accepts or refuses its text.
- DiffSections.FilesFromUnifiedDiff: a section is readable or not by its header; status, modes and key of its row are not modelled.
- SnapshotFiles.ContentIssues: states when the list of issues is empty, not its texts.
- FoldViews.ComposeFoldView: asks for folds with distinct keys and headers above their bodies that nest, are apart or share a body, none of the shared ones showing; how the renderer's positions become folds is not modelled.
- TerminalSearch.MatchSpansInLine: plain-string mode with ASCII case folding; regular expressions are not modelled.
- TerminalSearch.FindTerminalMatch: without cancellation, for rows no longer than the width.
- TerminalSearch.CountTerminalMatches: without cancellation and progress reports, for a positive slice size.
- Viewport.CaptureViewportAnchor: for a buffer with at least one line; on none the source computes with an undefined row.
- Outlines.MarkdownOutline: starts from the list of headings with their names already stripped of markup; syntax trees are not modelled.
- EditPositions.EditPositionForIndex: starts from the sorted edit positions; the filter and sort by row are library calls.
- Scrollback.EstimateRenderedLineCount: whole column and line counts only.
- The host operations of the profile store are steps of the state machine without a method of their own.
- CreationEvidence.ExtractCreationEvidence: recorded times, tool names and evidence IDs are copied or hashed and not modelled.
- Redaction, analytics, presentation, React components and desktop code: lookups and plumbing.
