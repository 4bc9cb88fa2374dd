/** Which hosted change requests a session mentions or created: ExtractCreationEvidence of
    internal/changeevidence/extract.go. Resolving a candidate link is a parameter. */
module CreationEvidence {
  import CommandStatements
  import opened Wrappers
  import Texts

  datatype Reference = Reference(url: string, provider: Option<CommandStatements.Provider>)

  /** A render event; text is all of its text together. */
  datatype Event = Event(kind: string, id: string, parentId: string, exitCode: int, truncated: bool, timedOut: bool,
                         rejected: bool, errorKind: string, command: string, stdout: string, text: string)

  datatype Evidence = Evidence(url: string, eventId: string, created: Option<CommandStatements.Provider>)

  type Resolver = string -> Option<Reference>

  // ---------------------------------------------------------------- references in a text

  const CUTSET := {'<', '>', '[', ']', '(', ')', '{', '}', '"', '\'', '`', ',', '.', ';'}

  function CutLeft(s: string): string {
    if s != "" && s[0] in CUTSET then CutLeft(s[1..]) else s
  }

  function CutRight(s: string): string {
    if s != "" && s[|s| - 1] in CUTSET then CutRight(s[..|s| - 1]) else s
  }

  predicate HasUrl(refs: seq<Reference>, url: string) {
    exists k :: 0 <= k < |refs| && refs[k].url == url
  }

  /** The references among the first n fields, each URL once. */
  function Found(fields: seq<string>, n: nat, resolve: Resolver): seq<Reference>
    requires n <= |fields|
  {
    if n == 0 then []
    else
      var before, found := Found(fields, n - 1, resolve), resolve(CutRight(CutLeft(fields[n - 1])));
      if found.None? || HasUrl(before, found.value.url) then before else before + [found.value]
  }

  function Scan(text: string, resolve: Resolver): seq<Reference> {
    Found(CommandStatements.Fields(text), |CommandStatements.Fields(text)|, resolve)
  }

  method ScanReferences(text: string, resolve: Resolver) returns (found: seq<Reference>)
    ensures found == Scan(text, resolve)
  {
    found := [];
    var seen: set<string> := {};
    var fields := CommandStatements.Fields(text);
    for i := 0 to |fields|
      invariant found == Found(fields, i, resolve)
      invariant forall url :: url in seen <==> HasUrl(found, url)
    {
      var reference := resolve(CutRight(CutLeft(fields[i])));
      if reference.Some? && reference.value.url !in seen {
        UrlAdded(found, reference.value);
        seen := seen + {reference.value.url};
        found := found + [reference.value];
      }
    }
  }

  lemma {:induction false} UrlAdded(refs: seq<Reference>, reference: Reference)
    ensures forall url :: HasUrl(refs + [reference], url) <==> HasUrl(refs, url) || url == reference.url
  {
    var more := refs + [reference];
    assert more[|refs|] == reference && forall k :: 0 <= k < |refs| ==> more[k] == refs[k];
  }

  ghost predicate DistinctUrls(refs: seq<Reference>) {
    forall j, k :: 0 <= j < k < |refs| ==> refs[j].url != refs[k].url
  }

  lemma {:induction false} FoundAreDistinct(fields: seq<string>, n: nat, resolve: Resolver)
    requires n <= |fields|
    ensures DistinctUrls(Found(fields, n, resolve))
  {
    if n > 0 { FoundAreDistinct(fields, n - 1, resolve); }
  }

  /** A provider's references among the first n. */
  function OfProvider(refs: seq<Reference>, provider: CommandStatements.Provider, n: nat): seq<Reference>
    requires n <= |refs|
  {
    if n == 0 then []
    else OfProvider(refs, provider, n - 1) + if refs[n - 1].provider == Some(provider) then [refs[n - 1]] else []
  }

  /** A provider's reference, when the text has exactly one. */
  function UniqueIn(text: string, provider: CommandStatements.Provider, resolve: Resolver): Option<Reference> {
    var refs := Scan(text, resolve);
    var own := OfProvider(refs, provider, |refs|);
    if |own| == 1 then Some(own[0]) else None
  }

  method UniqueReference(text: string, provider: CommandStatements.Provider, resolve: Resolver)
    returns (reference: Option<Reference>)
    ensures reference == UniqueIn(text, provider, resolve)
  {
    var refs := ScanReferences(text, resolve);
    FoundAreDistinct(CommandStatements.Fields(text), |CommandStatements.Fields(text)|, resolve);
    reference := OnlyOf(refs, provider);
  }

  method OnlyOf(refs: seq<Reference>, provider: CommandStatements.Provider) returns (reference: Option<Reference>)
    requires DistinctUrls(refs)
    ensures var own := OfProvider(refs, provider, |refs|); reference == if |own| == 1 then Some(own[0]) else None
  {
    reference := None;
    ghost var at := 0;
    for k := 0 to |refs|
      invariant OfProvider(refs, provider, k) == if reference.None? then [] else [reference.value]
      invariant reference.Some? ==> at < k && refs[at] == reference.value
    {
      if refs[k].provider != Some(provider) { continue; }
      if reference.Some? && reference.value.url != refs[k].url {
        OfProviderGrows(refs, provider, k + 1, |refs|);
        return None;
      }
      reference, at := Some(refs[k]), k;
    }
  }

  lemma {:induction false} OfProviderGrows(refs: seq<Reference>, provider: CommandStatements.Provider, m: nat, n: nat)
    requires m <= n <= |refs|
    ensures |OfProvider(refs, provider, m)| <= |OfProvider(refs, provider, n)|
  {
    if m < n { OfProviderGrows(refs, provider, m, n - 1); }
  }

  // ---------------------------------------------------------------- what each event offers

  /** The last tool invocation, among the first n events, with an ID. */
  function InvocationOf(events: seq<Event>, id: string, n: nat): (r: Option<Event>)
    requires n <= |events|
  {
    if n == 0 || id == "" then None
    else if events[n - 1].kind == "ToolInvocation" && events[n - 1].id == id then Some(events[n - 1])
    else InvocationOf(events, id, n - 1)
  }

  predicate Succeeded(e: Event) {
    e.kind == "ToolResult" && e.parentId != "" && e.exitCode == 0 && !e.truncated && !e.timedOut && !e.rejected && e.errorKind == ""
  }

  /** A successful result of a creating command whose output names exactly one change request of that provider. */
  function CreatedBy(events: seq<Event>, e: Event, resolve: Resolver): Option<Evidence> {
    var invocation := InvocationOf(events, e.parentId, |events|);
    if !Succeeded(e) || invocation.None? then None
    else
      var provider := CommandStatements.CreationOf(invocation.value.command);
      if provider.None? then None
      else
        var reference := UniqueIn(e.stdout, provider.value, resolve);
        if reference.None? then None else Some(Evidence(reference.value.url, invocation.value.id, provider))
  }

  /** What each event creates. */
  function Made(events: seq<Event>, resolve: Resolver): (made: seq<Option<Evidence>>)
    ensures |made| == |events| && forall i :: 0 <= i < |events| ==> made[i] == CreatedBy(events, events[i], resolve)
  {
    seq(|events|, i requires 0 <= i < |events| => CreatedBy(events, events[i], resolve))
  }

  /** The values among the first n options. */
  function Values<T>(options: seq<Option<T>>, n: nat): seq<T>
    requires n <= |options|
  {
    if n == 0 then [] else Values(options, n - 1) + if options[n - 1].None? then [] else [options[n - 1].value]
  }

  function Created(events: seq<Event>, n: nat, resolve: Resolver): seq<Evidence>
    requires n <= |events|
  {
    Values(Made(events, resolve), n)
  }

  function MentionId(e: Event, index: nat): string {
    if e.id != "" then e.id else "render:" + Texts.Decimal(index)
  }

  function MentionsOf(refs: seq<Reference>, n: nat, id: string): (r: seq<Evidence>)
    requires n <= |refs|
    ensures |r| == n
  {
    if n == 0 then [] else MentionsOf(refs, n - 1, id) + [Evidence(refs[n - 1].url, id, None)]
  }

  function MentionedBy(e: Event, index: nat, resolve: Resolver): seq<Evidence> {
    if e.truncated || e.timedOut || e.rejected then []
    else var refs := Scan(e.text, resolve); MentionsOf(refs, |refs|, MentionId(e, index))
  }

  /** What each event mentions. */
  function Mentionings(events: seq<Event>, resolve: Resolver): (r: seq<seq<Evidence>>)
    ensures |r| == |events| && forall i :: 0 <= i < |events| ==> r[i] == MentionedBy(events[i], i, resolve)
  {
    seq(|events|, i requires 0 <= i < |events| => MentionedBy(events[i], i, resolve))
  }

  /** The first n lists end to end. */
  function Flat<T>(lists: seq<seq<T>>, n: nat): seq<T>
    requires n <= |lists|
  {
    if n == 0 then [] else Flat(lists, n - 1) + lists[n - 1]
  }

  function Mentioned(events: seq<Event>, n: nat, resolve: Resolver): seq<Evidence>
    requires n <= |events|
  {
    Flat(Mentionings(events, resolve), n)
  }

  // ---------------------------------------------------------------- one record per URL

  predicate Recorded(records: seq<Evidence>, url: string) {
    exists k :: 0 <= k < |records| && records[k].url == url
  }

  function Record(records: seq<Evidence>, e: Evidence): seq<Evidence> {
    if Recorded(records, e.url) then records else records + [e]
  }

  function RecordAll(records: seq<Evidence>, offers: seq<Evidence>): seq<Evidence> {
    if offers == [] then records else Record(RecordAll(records, offers[..|offers| - 1]), offers[|offers| - 1])
  }

  lemma {:induction false} RecordAllConcat(records: seq<Evidence>, a: seq<Evidence>, b: seq<Evidence>)
    ensures RecordAll(records, a + b) == RecordAll(RecordAll(records, a), b)
  {
    if b == [] {
      assert a + b == a;
    } else {
      var n := |b| - 1;
      assert (a + b)[..|a + b| - 1] == a + b[..n];
      RecordAllConcat(records, a, b[..n]);
    }
  }

  predicate IsFirstOffer(offers: seq<Evidence>, k: int) {
    0 <= k < |offers| && forall j :: 0 <= j < k ==> offers[j].url != offers[k].url
  }

  ghost predicate Offered(offers: seq<Evidence>, e: Evidence) {
    exists k :: IsFirstOffer(offers, k) && offers[k] == e
  }

  /** No offered URL is missing. */
  lemma {:induction false} AllUrlsRecorded(offers: seq<Evidence>, url: string)
    ensures Recorded(RecordAll([], offers), url) <==> Recorded(offers, url)
  {
    if offers != [] {
      var n := |offers| - 1;
      AllUrlsRecorded(offers[..n], url);
      RecordedSnoc(offers[..n], offers[n], url);
      RecordedSnoc(RecordAll([], offers[..n]), offers[n], url);
      assert offers == offers[..n] + [offers[n]];
    }
  }

  lemma {:induction false} RecordedSnoc(records: seq<Evidence>, e: Evidence, url: string)
    ensures Recorded(records + [e], url) <==> Recorded(records, url) || e.url == url
  {
    var after := records + [e];
    assert after[|records|] == e && forall k :: 0 <= k < |records| ==> after[k] == records[k];
  }

  predicate OncePerUrl(records: seq<Evidence>) {
    forall i, j :: 0 <= i < j < |records| ==> records[i].url != records[j].url
  }

  /** Each URL is recorded once. */
  lemma {:induction false} UrlsAreRecordedOnce(offers: seq<Evidence>)
    ensures OncePerUrl(RecordAll([], offers))
  {
    if offers != [] {
      var n := |offers| - 1;
      UrlsAreRecordedOnce(offers[..n]);
      RecordKeepsOnce(RecordAll([], offers[..n]), offers[n]);
    }
  }

  lemma {:induction false} RecordKeepsOnce(records: seq<Evidence>, e: Evidence)
    requires OncePerUrl(records)
    ensures OncePerUrl(Record(records, e))
  {
  }

  /** An offer stays the first of its URL, whatever is offered later. */
  lemma {:induction false} OfferedOn(offers: seq<Evidence>, n: nat, e: Evidence)
    requires n <= |offers| && Offered(offers[..n], e)
    ensures Offered(offers, e)
  {
    var k :| IsFirstOffer(offers[..n], k) && offers[..n][k] == e;
    assert forall j :: 0 <= j <= k ==> offers[j] == offers[..n][j];
    assert IsFirstOffer(offers, k);
  }

  /** Each record is the first offer of its URL. */
  lemma {:induction false} RecordsAreFirstOffers(offers: seq<Evidence>, e: Evidence)
    requires e in RecordAll([], offers)
    ensures Offered(offers, e)
  {
    var n := |offers| - 1;
    if e in RecordAll([], offers[..n]) {
      RecordsAreFirstOffers(offers[..n], e);
      OfferedOn(offers, n, e);
    } else {
      NewlyRecorded(offers, e);
      LastIsFirstOffer(offers);
    }
  }

  lemma {:induction false} NewlyRecorded(offers: seq<Evidence>, e: Evidence)
    requires offers != [] && e in RecordAll([], offers) && e !in RecordAll([], offers[..|offers| - 1])
    ensures e == offers[|offers| - 1]
    ensures forall j :: 0 <= j < |offers| - 1 ==> offers[j].url != offers[|offers| - 1].url
  {
    var n := |offers| - 1;
    AllUrlsRecorded(offers[..n], offers[n].url);
    assert forall j :: 0 <= j < n ==> offers[j] == offers[..n][j];
  }

  lemma {:induction false} LastIsFirstOffer(offers: seq<Evidence>)
    requires offers != [] && forall j :: 0 <= j < |offers| - 1 ==> offers[j].url != offers[|offers| - 1].url
    ensures IsFirstOffer(offers, |offers| - 1)
  {
  }

  /** The records: creations first, then mentions. */
  function Records(events: seq<Event>, resolve: Resolver): seq<Evidence> {
    RecordAll([], Created(events, |events|, resolve) + Mentioned(events, |events|, resolve))
  }

  /** A URL that some successful creating command names is recorded as created, by the first such command, wherever
      it is mentioned besides; every other record is the first mention. */
  lemma {:induction false} CreationWins(events: seq<Event>, resolve: Resolver, e: Evidence)
    requires e in Records(events, resolve)
    ensures var created := Created(events, |events|, resolve);
            && e.created.Some? == Recorded(created, e.url)
            && Offered(if e.created.Some? then created else Mentioned(events, |events|, resolve), e)
  {
    var created, mentioned := Created(events, |events|, resolve), Mentioned(events, |events|, resolve);
    RecordsAreFirstOffers(created + mentioned, e);
    CreatedAreCreated(events, resolve);
    MentionsAreNotCreated(events, resolve);
    FirstOfferOfEither(created, mentioned, e);
  }

  lemma {:induction false} FirstOfferOfEither(a: seq<Evidence>, b: seq<Evidence>, e: Evidence)
    requires Offered(a + b, e)
    ensures if Recorded(a, e.url) then Offered(a, e) && e in a else Offered(b, e) && e in b
  {
    var offers := a + b;
    var k :| IsFirstOffer(offers, k) && offers[k] == e;
    assert forall j :: 0 <= j < |a| ==> offers[j] == a[j];
    assert forall j :: 0 <= j < |b| ==> offers[|a| + j] == b[j];
    if k < |a| {
      assert IsFirstOffer(a, k) && a[k] == e;
    } else {
      var j := k - |a|;
      assert IsFirstOffer(b, j) && b[j] == e;
      assert !Recorded(a, e.url);
    }
  }

  lemma {:induction false} ValuesAre<T>(options: seq<Option<T>>, n: nat, x: T)
    requires n <= |options|
    ensures x in Values(options, n) <==> exists i :: 0 <= i < n && options[i] == Some(x)
  {
    if n > 0 { ValuesAre(options, n - 1, x); }
  }

  lemma {:induction false} CreatedAreCreated(events: seq<Event>, resolve: Resolver)
    ensures forall e :: e in Created(events, |events|, resolve) ==> e.created.Some?
  {
    forall e | e in Created(events, |events|, resolve)
      ensures e.created.Some?
    {
      ValuesAre(Made(events, resolve), |events|, e);
      var i :| 0 <= i < |events| && Made(events, resolve)[i] == Some(e);
      CreatorIsCreated(events, events[i], resolve);
    }
  }

  lemma {:induction false} CreatorIsCreated(events: seq<Event>, event: Event, resolve: Resolver)
    ensures CreatedBy(events, event, resolve).Some? ==> CreatedBy(events, event, resolve).value.created.Some?
  {
  }

  /** The members of lists end to end are those of the lists. */
  lemma {:induction false} FlatAre<T>(lists: seq<seq<T>>, n: nat, x: T)
    requires n <= |lists|
    ensures x in Flat(lists, n) <==> exists i :: 0 <= i < n && x in lists[i]
  {
    if n > 0 { FlatAre(lists, n - 1, x); }
  }

  lemma {:induction false} MentionsAreNotCreated(events: seq<Event>, resolve: Resolver)
    ensures forall e :: e in Mentioned(events, |events|, resolve) ==> e.created.None?
  {
    var lists: seq<seq<Evidence>> := Mentionings(events, resolve);
    forall e: Evidence | e in Flat(lists, |events|)
      ensures e.created.None?
    {
      FlatAre(lists, |events|, e);
      var i :| 0 <= i < |events| && e in lists[i];
      var refs := Scan(events[i].text, resolve);
      MentionsAreBare(refs, |refs|, MentionId(events[i], i));
    }
  }

  lemma {:induction false} MentionsAreBare(refs: seq<Reference>, n: nat, id: string)
    requires n <= |refs|
    ensures forall e :: e in MentionsOf(refs, n, id) ==> e.created.None?
  {
    if n > 0 { MentionsAreBare(refs, n - 1, id); }
  }

  // ---------------------------------------------------------------- the two passes

  ghost predicate SeenAre(seen: set<string>, records: seq<Evidence>) {
    forall url :: url in seen <==> Recorded(records, url)
  }

  lemma {:induction false} SeenStep(seen: set<string>, records: seq<Evidence>, e: Evidence)
    requires SeenAre(seen, records)
    ensures e.url !in seen ==> Record(records, e) == records + [e]
    ensures e.url in seen ==> Record(records, e) == records
    ensures SeenAre(seen + {e.url}, Record(records, e))
  {
    var after := records + [e];
    assert after[|records|] == e && forall k :: 0 <= k < |records| ==> after[k] == records[k];
  }

  method IndexInvocations(events: seq<Event>) returns (invocations: map<string, Event>)
    ensures forall id :: (id in invocations <==> InvocationOf(events, id, |events|).Some?)
    ensures forall id :: id in invocations ==> Some(invocations[id]) == InvocationOf(events, id, |events|)
  {
    invocations := map[];
    for i := 0 to |events|
      invariant forall id :: (id in invocations <==> InvocationOf(events, id, i).Some?)
      invariant forall id :: id in invocations ==> Some(invocations[id]) == InvocationOf(events, id, i)
    {
      if events[i].kind == "ToolInvocation" && events[i].id != "" {
        invocations := invocations[events[i].id := events[i]];
      }
    }
  }

  method CreationIn(events: seq<Event>, invocations: map<string, Event>, event: Event, resolve: Resolver)
    returns (created: Option<Evidence>)
    requires forall id :: (id in invocations <==> InvocationOf(events, id, |events|).Some?)
    requires forall id :: id in invocations ==> Some(invocations[id]) == InvocationOf(events, id, |events|)
    ensures created == CreatedBy(events, event, resolve)
  {
    if event.kind != "ToolResult" || event.parentId == "" || event.exitCode != 0 || event.truncated || event.timedOut
       || event.rejected || event.errorKind != "" {
      return None;
    }
    if event.parentId !in invocations { return None; }
    var invocation := invocations[event.parentId];
    var provider := CommandStatements.CreationCommand(invocation.command);
    if provider.None? { return None; }
    var reference := UniqueReference(event.stdout, provider.value, resolve);
    if reference.None? { return None; }
    return Some(Evidence(reference.value.url, invocation.id, provider));
  }

  method RecordMentions(event: Event, index: nat, resolve: Resolver, result0: seq<Evidence>, seen0: set<string>)
    returns (result: seq<Evidence>, seen: set<string>)
    requires SeenAre(seen0, result0)
    ensures result == RecordAll(result0, MentionedBy(event, index, resolve)) && SeenAre(seen, result)
  {
    result, seen := result0, seen0;
    if event.truncated || event.timedOut || event.rejected { return; }
    var refs := ScanReferences(event.text, resolve);
    var id := if event.id != "" then event.id else "render:" + Texts.Decimal(index);
    for k := 0 to |refs|
      invariant result == RecordAll(result0, MentionsOf(refs, k, id)) && SeenAre(seen, result)
    {
      var mention := Evidence(refs[k].url, id, None);
      SeenStep(seen, result, mention);
      assert MentionsOf(refs, k + 1, id)[..k] == MentionsOf(refs, k, id);
      if mention.url !in seen {
        result := result + [mention];
      }
      seen := seen + {mention.url};
    }
  }

  method RecordCreations(events: seq<Event>, resolve: Resolver) returns (result: seq<Evidence>, seen: set<string>)
    ensures result == RecordAll([], Created(events, |events|, resolve)) && SeenAre(seen, result)
  {
    var invocations := IndexInvocations(events);
    result, seen := [], {};
    for i := 0 to |events|
      invariant result == RecordAll([], Created(events, i, resolve)) && SeenAre(seen, result)
    {
      var created := CreationIn(events, invocations, events[i], resolve);
      RecordCreated(events, i, resolve);
      if created.Some? {
        SeenStep(seen, result, created.value);
        if created.value.url !in seen { result := result + [created.value]; }
        seen := seen + {created.value.url};
      }
    }
  }

  lemma {:induction false} RecordCreated(events: seq<Event>, i: nat, resolve: Resolver)
    requires i < |events|
    ensures var before, created := RecordAll([], Created(events, i, resolve)), CreatedBy(events, events[i], resolve);
            RecordAll([], Created(events, i + 1, resolve)) == if created.None? then before else Record(before, created.value)
  {
    var created := CreatedBy(events, events[i], resolve);
    if created.Some? {
      RecordAllConcat([], Created(events, i, resolve), [created.value]);
      assert [created.value][..0] == [];
    } else {
      assert Created(events, i, resolve) + [] == Created(events, i, resolve);
    }
  }

  lemma {:induction false} RecordMentioned(made: seq<Evidence>, events: seq<Event>, i: nat, resolve: Resolver)
    requires i < |events|
    ensures RecordAll(made, Mentioned(events, i + 1, resolve))
         == RecordAll(RecordAll(made, Mentioned(events, i, resolve)), MentionedBy(events[i], i, resolve))
  {
    RecordAllConcat(made, Mentioned(events, i, resolve), MentionedBy(events[i], i, resolve));
  }

  method RecordAllMentions(events: seq<Event>, resolve: Resolver, made: seq<Evidence>, seen0: set<string>)
    returns (result: seq<Evidence>)
    requires SeenAre(seen0, made)
    ensures result == RecordAll(made, Mentioned(events, |events|, resolve))
  {
    result := made;
    var seen := seen0;
    for i := 0 to |events|
      invariant result == RecordAll(made, Mentioned(events, i, resolve)) && SeenAre(seen, result)
    {
      RecordMentioned(made, events, i, resolve);
      result, seen := RecordMentions(events[i], i, resolve, result, seen);
    }
  }

  /** ExtractCreationEvidence. */
  method ExtractCreationEvidence(events: seq<Event>, resolve: Resolver) returns (result: seq<Evidence>)
    ensures result == Records(events, resolve)
  {
    var seen;
    result, seen := RecordCreations(events, resolve);
    result := RecordAllMentions(events, resolve, result, seen);
    RecordAllConcat([], Created(events, |events|, resolve), Mentioned(events, |events|, resolve));
  }

  // ---------------------------------------------------------------- what is evidence

  /** The field without the brackets, quotes and stops around it. */
  ghost predicate Stripped(field: string, core: string) {
    exists left, right :: SplitsInto(field, left, core, right)
  }

  const AROUND := {'<', '>', '[', ']', '(', ')', '{', '}', '"', '\'', '`', ',', '.', ';'}

  ghost predicate SplitsInto(field: string, left: string, core: string, right: string) {
    && field == left + (core + right) && (forall c :: c in left || c in right ==> c in AROUND)
    && (core == "" ==> right == "") && (core != "" ==> core[0] !in AROUND && core[|core| - 1] !in AROUND)
  }

  lemma {:induction false} CutLeftSplits(left: string, rest: string)
    requires (forall c :: c in left ==> c in AROUND) && (rest == "" || rest[0] !in AROUND)
    ensures CutLeft(left + rest) == rest
    decreases left
  {
    if left == "" {
      assert left + rest == rest;
    } else {
      assert left[0] in left && (left + rest)[1..] == left[1..] + rest;
      CutLeftSplits(left[1..], rest);
    }
  }

  lemma {:induction false} CutRightSplits(rest: string, right: string)
    requires (forall c :: c in right ==> c in AROUND) && (rest == "" || rest[|rest| - 1] !in AROUND)
    ensures CutRight(rest + right) == rest
    decreases right
  {
    if right == "" {
      assert rest + right == rest;
    } else {
      var n := |right| - 1;
      assert right[n] in right && (rest + right)[..|rest + right| - 1] == rest + right[..n];
      CutRightSplits(rest, right[..n]);
    }
  }

  lemma {:induction false} LeftPart(s: string) returns (left: string)
    ensures s == left + CutLeft(s) && (forall c :: c in left ==> c in AROUND)
    ensures CutLeft(s) == "" || CutLeft(s)[0] !in AROUND
  {
    left := "";
    if s != "" && s[0] in CUTSET {
      var more := LeftPart(s[1..]);
      left := [s[0]] + more;
      assert s == [s[0]] + s[1..];
    }
  }

  lemma {:induction false} RightPart(s: string) returns (right: string)
    ensures s == CutRight(s) + right && (forall c :: c in right ==> c in AROUND)
    ensures CutRight(s) == "" || (CutRight(s)[|CutRight(s)| - 1] !in AROUND && CutRight(s)[0] == s[0])
  {
    right := "";
    if s != "" && s[|s| - 1] in CUTSET {
      var more := RightPart(s[..|s| - 1]);
      right := more + [s[|s| - 1]];
      assert s == s[..|s| - 1] + [s[|s| - 1]];
    }
  }

  lemma {:induction false} StrippedIsCut(field: string, core: string)
    ensures Stripped(field, core) <==> core == CutRight(CutLeft(field))
  {
    if left, right :| SplitsInto(field, left, core, right) {
      CutLeftSplits(left, core + right);
      CutRightSplits(core, right);
    }
    var left := LeftPart(field);
    var right := RightPart(CutLeft(field));
    var cut := CutRight(CutLeft(field));
    if cut == "" {
      assert SplitsInto(field, left + right, "", "");
    } else {
      assert SplitsInto(field, left, cut, right);
    }
  }

  /** A URL names one reference. */
  ghost predicate Consistent(resolve: Resolver) {
    forall a, b :: resolve(a).Some? && resolve(b).Some? && resolve(a).value.url == resolve(b).value.url ==> resolve(a) == resolve(b)
  }

  ghost predicate NamedAt(fields: seq<string>, k: int, resolve: Resolver, ref: Reference) {
    0 <= k < |fields| && exists core :: Stripped(fields[k], core) && resolve(core) == Some(ref)
  }

  /** The text names the reference: one of its fields does. */
  ghost predicate Names(text: string, resolve: Resolver, ref: Reference) {
    exists k :: NamedAt(CommandStatements.Fields(text), k, resolve, ref)
  }

  lemma {:induction false} NamedByCut(fields: seq<string>, k: nat, resolve: Resolver, ref: Reference)
    requires k < |fields|
    ensures NamedAt(fields, k, resolve, ref) <==> resolve(CutRight(CutLeft(fields[k]))) == Some(ref)
  {
    StrippedIsCut(fields[k], CutRight(CutLeft(fields[k])));
    forall core | Stripped(fields[k], core)
      ensures core == CutRight(CutLeft(fields[k]))
    {
      StrippedIsCut(fields[k], core);
    }
  }

  lemma {:induction false} FoundAreNamed(fields: seq<string>, n: nat, resolve: Resolver, ref: Reference)
    requires Consistent(resolve) && n <= |fields|
    ensures ref in Found(fields, n, resolve) <==> exists k :: k < n && NamedAt(fields, k, resolve, ref)
  {
    if n > 0 {
      var found := resolve(CutRight(CutLeft(fields[n - 1])));
      FoundAreNamed(fields, n - 1, resolve, ref);
      NamedByCut(fields, n - 1, resolve, ref);
      if found == Some(ref) && HasUrl(Found(fields, n - 1, resolve), ref.url) {
        AlreadyFound(fields, n - 1, resolve, ref, CutRight(CutLeft(fields[n - 1])));
      }
    }
  }

  lemma {:induction false} AlreadyFound(fields: seq<string>, n: nat, resolve: Resolver, ref: Reference, core: string)
    requires Consistent(resolve) && n <= |fields| && resolve(core) == Some(ref)
    requires HasUrl(Found(fields, n, resolve), ref.url)
    ensures ref in Found(fields, n, resolve)
  {
    if !HasUrl(Found(fields, n - 1, resolve), ref.url) {
      assert resolve(CutRight(CutLeft(fields[n - 1]))).Some?;
    } else {
      AlreadyFound(fields, n - 1, resolve, ref, core);
    }
  }

  lemma {:induction false} ScanNames(text: string, resolve: Resolver, ref: Reference)
    requires Consistent(resolve)
    ensures ref in Scan(text, resolve) <==> Names(text, resolve, ref)
  {
    FoundAreNamed(CommandStatements.Fields(text), |CommandStatements.Fields(text)|, resolve, ref);
  }

  /** The text names this reference of the provider and no other. */
  ghost predicate NamesOnly(text: string, provider: CommandStatements.Provider, resolve: Resolver, ref: Reference) {
    && ref.provider == Some(provider) && Names(text, resolve, ref)
    && forall other :: Names(text, resolve, other) && other.provider == Some(provider) ==> other == ref
  }

  lemma {:induction false} OwnAreOwn(refs: seq<Reference>, provider: CommandStatements.Provider, n: nat, ref: Reference)
    requires n <= |refs|
    ensures ref in OfProvider(refs, provider, n) <==> ref in refs[..n] && ref.provider == Some(provider)
  {
    if n > 0 {
      OwnAreOwn(refs, provider, n - 1, ref);
      assert refs[..n] == refs[..n - 1] + [refs[n - 1]];
    }
  }

  lemma {:induction false} OwnUrls(refs: seq<Reference>, provider: CommandStatements.Provider, n: nat, m: nat)
    requires n <= m < |refs| && DistinctUrls(refs)
    ensures forall k :: 0 <= k < |OfProvider(refs, provider, n)| ==> OfProvider(refs, provider, n)[k].url != refs[m].url
  {
    if n > 0 { OwnUrls(refs, provider, n - 1, m); }
  }

  lemma {:induction false} OwnAreDistinct(refs: seq<Reference>, provider: CommandStatements.Provider, n: nat)
    requires n <= |refs| && DistinctUrls(refs)
    ensures DistinctUrls(OfProvider(refs, provider, n))
  {
    if n > 0 {
      OwnAreDistinct(refs, provider, n - 1);
      OwnUrls(refs, provider, n - 1, n - 1);
    }
  }

  lemma {:induction false} UniqueIsOnly(text: string, provider: CommandStatements.Provider, resolve: Resolver,
                                        ref: Reference)
    requires Consistent(resolve)
    ensures UniqueIn(text, provider, resolve) == Some(ref) <==> NamesOnly(text, provider, resolve, ref)
  {
    var refs := Scan(text, resolve);
    var own := OfProvider(refs, provider, |refs|);
    FoundAreDistinct(CommandStatements.Fields(text), |CommandStatements.Fields(text)|, resolve);
    OwnAreDistinct(refs, provider, |refs|);
    forall other
      ensures other in own <==> Names(text, resolve, other) && other.provider == Some(provider)
    {
      ScanNames(text, resolve, other);
      OwnAreOwn(refs, provider, |refs|, other);
      assert refs[..|refs|] == refs;
    }
    OnlyMember(own, ref);
  }

  lemma {:induction false} OnlyMember(own: seq<Reference>, ref: Reference)
    requires DistinctUrls(own)
    ensures own == [ref] <==> ref in own && forall other :: other in own ==> other == ref
  {
    if ref in own && forall other :: other in own ==> other == ref {
      if |own| >= 2 { assert own[0] in own && own[1] in own; }
    }
  }

  /** Event i is the clean result of the last call with its ID, event j, whose command creates a change request at the
      provider, and its output names just the one. */
  ghost predicate Makes(events: seq<Event>, resolve: Resolver, i: int, j: int, provider: CommandStatements.Provider,
                        ref: Reference)
  {
    && 0 <= i < |events| && 0 <= j < |events|
    && var result, call := events[i], events[j];
       && result.kind == "ToolResult" && result.exitCode == 0 && result.errorKind == ""
       && !result.truncated && !result.timedOut && !result.rejected
       && IsLastCall(events, j, result.parentId)
       && CommandStatements.CreationOf(call.command) == Some(provider) &&
          NamesOnly(result.stdout, provider, resolve, ref)
  }

  ghost predicate IsLastCall(events: seq<Event>, j: int, id: string) {
    && 0 <= j < |events| && id != "" && events[j].kind == "ToolInvocation" && events[j].id == id
    && forall k :: j < k < |events| && events[k].kind == "ToolInvocation" ==> events[k].id != id
  }

  lemma {:induction false} LastCallFound(events: seq<Event>, id: string, n: nat)
    requires n <= |events| &&
             (forall k :: n <= k < |events| && events[k].kind == "ToolInvocation" ==> events[k].id != id)
    ensures var call := InvocationOf(events, id, n);
            && (call.Some? ==> exists j :: IsLastCall(events, j, id) && events[j] == call.value)
            && forall j :: IsLastCall(events, j, id) ==> call == Some(events[j])
  {
    if n > 0 && id != "" {
      if events[n - 1].kind == "ToolInvocation" && events[n - 1].id == id {
        assert IsLastCall(events, n - 1, id);
      } else {
        LastCallFound(events, id, n - 1);
      }
    }
  }

  /** The evidence that event i gives for a creation. */
  ghost predicate Gives(events: seq<Event>, resolve: Resolver, i: int, made: Evidence) {
    exists j, provider, ref :: Makes(events, resolve, i, j, provider, ref) && made == Evidence(ref.url, events[j].id, Some(provider))
  }

  lemma {:induction false} CreatedByMakes(events: seq<Event>, i: nat, resolve: Resolver, made: Evidence)
    requires i < |events| && Consistent(resolve)
    ensures CreatedBy(events, events[i], resolve) == Some(made) <==> Gives(events, resolve, i, made)
  {
    var e := events[i];
    LastCallFound(events, e.parentId, |events|);
    if CreatedBy(events, e, resolve) == Some(made) {
      var call := InvocationOf(events, e.parentId, |events|).value;
      var j :| IsLastCall(events, j, e.parentId) && events[j] == call;
      var provider := CommandStatements.CreationOf(call.command).value;
      var ref := UniqueIn(e.stdout, provider, resolve).value;
      UniqueIsOnly(e.stdout, provider, resolve, ref);
      assert Makes(events, resolve, i, j, provider, ref);
    }
    if j, provider, ref :| Makes(events, resolve, i, j, provider, ref) && made == Evidence(ref.url, events[j].id, Some(provider)) {
      UniqueIsOnly(e.stdout, provider, resolve, ref);
    }
  }

  lemma {:induction false} CreatedGive(events: seq<Event>, resolve: Resolver, made: Evidence)
    requires Consistent(resolve)
    ensures made in Created(events, |events|, resolve) <==> exists i :: Gives(events, resolve, i, made)
  {
    var all := Made(events, resolve);
    ValuesAre(all, |events|, made);
    forall i: nat | i < |events|
      ensures all[i] == Some(made) <==> Gives(events, resolve, i, made)
    {
      CreatedByMakes(events, i, resolve, made);
    }
  }

  lemma {:induction false} CreatedUrls(events: seq<Event>, resolve: Resolver, url: string)
    requires Consistent(resolve)
    ensures Recorded(Created(events, |events|, resolve), url)
        <==> exists i, made :: Gives(events, resolve, i, made) && made.url == url
  {
    var created := Created(events, |events|, resolve);
    if k :| 0 <= k < |created| && created[k].url == url {
      CreatedGive(events, resolve, created[k]);
    }
    if i, made :| Gives(events, resolve, i, made) && made.url == url {
      CreatedGive(events, resolve, made);
    }
  }

  /** A URL is recorded as created exactly when some event gives evidence of its creation, and the record is such evidence. */
  lemma {:induction false} CreationsExactly(events: seq<Event>, resolve: Resolver, url: string)
    requires Consistent(resolve)
    ensures (exists e :: e in Records(events, resolve) && e.url == url && e.created.Some?)
       <==> exists i, made :: Gives(events, resolve, i, made) && made.url == url
    ensures forall e :: e in Records(events, resolve) && e.created.Some? ==> exists i :: Gives(events, resolve, i, e)
  {
    var created, records := Created(events, |events|, resolve), Records(events, resolve);
    forall e | e in records && e.created.Some?
      ensures exists i :: Gives(events, resolve, i, e)
    {
      CreationWins(events, resolve, e);
      CreatedGive(events, resolve, e);
    }
    if i, made :| Gives(events, resolve, i, made) && made.url == url {
      CreatedGive(events, resolve, made);
      CreatedIsRecorded(events, resolve, made);
    }
  }

  lemma {:induction false} CreatedIsRecorded(events: seq<Event>, resolve: Resolver, made: Evidence)
    requires made in Created(events, |events|, resolve)
    ensures exists e :: e in Records(events, resolve) && e.url == made.url && e.created.Some?
  {
    var created, mentioned := Created(events, |events|, resolve), Mentioned(events, |events|, resolve);
    var offers := created + mentioned;
    var k :| 0 <= k < |created| && created[k] == made;
    assert offers[k].url == made.url;
    AllUrlsRecorded(offers, made.url);
    var r :| 0 <= r < |Records(events, resolve)| && Records(events, resolve)[r].url == made.url;
    CreationWins(events, resolve, Records(events, resolve)[r]);
  }

  /** The event's text names the reference, and it was neither cut short nor refused. */
  ghost predicate Mentions(events: seq<Event>, resolve: Resolver, i: int, ref: Reference) {
    && 0 <= i < |events| && !events[i].truncated && !events[i].timedOut && !events[i].rejected
    && Names(events[i].text, resolve, ref)
  }

  lemma {:induction false} MentionsOfUrls(refs: seq<Reference>, n: nat, id: string, url: string)
    requires n <= |refs|
    ensures Recorded(MentionsOf(refs, n, id), url) <==> exists k :: 0 <= k < n && refs[k].url == url
    ensures forall e :: e in MentionsOf(refs, n, id) ==> e.eventId == id
  {
    if n > 0 {
      MentionsOfUrls(refs, n - 1, id, url);
      RecordedSnoc(MentionsOf(refs, n - 1, id), Evidence(refs[n - 1].url, id, None), url);
    }
  }

  lemma {:induction false} MentionedByUrls(events: seq<Event>, i: nat, resolve: Resolver, url: string)
    requires i < |events| && Consistent(resolve)
    ensures Recorded(MentionedBy(events[i], i, resolve), url)
        <==> exists ref :: Mentions(events, resolve, i, ref) && ref.url == url
  {
    var refs := Scan(events[i].text, resolve);
    MentionsOfUrls(refs, |refs|, MentionId(events[i], i), url);
    forall ref ensures ref in refs <==> Names(events[i].text, resolve, ref) { ScanNames(events[i].text, resolve, ref); }
    if k :| 0 <= k < |refs| && refs[k].url == url { assert refs[k] in refs; }
  }

  lemma {:induction false} RecordedConcat(a: seq<Evidence>, b: seq<Evidence>, url: string)
    ensures Recorded(a + b, url) <==> Recorded(a, url) || Recorded(b, url)
  {
    assert forall k :: 0 <= k < |a| ==> (a + b)[k] == a[k];
    assert forall k :: 0 <= k < |b| ==> (a + b)[|a| + k] == b[k];
  }

  lemma {:induction false} MentionedUrls(events: seq<Event>, resolve: Resolver, url: string)
    requires Consistent(resolve)
    ensures Recorded(Mentioned(events, |events|, resolve), url)
       <==> exists i, ref :: Mentions(events, resolve, i, ref) && ref.url == url
  {
    var lists: seq<seq<Evidence>> := Mentionings(events, resolve);
    var all := Flat(lists, |events|);
    if k :| 0 <= k < |all| && all[k].url == url {
      FlatAre(lists, |events|, all[k]);
      var i: nat :| i < |events| && all[k] in lists[i];
      UrlMentioned(events, i, resolve, all[k]);
    }
    if i, ref :| Mentions(events, resolve, i, ref) && ref.url == url {
      MentionedByUrls(events, i, resolve, url);
      var k :| 0 <= k < |lists[i]| && lists[i][k].url == url;
      FlatAre(lists, |events|, lists[i][k]);
    }
  }

  lemma {:induction false} UrlMentioned(events: seq<Event>, i: nat, resolve: Resolver, e: Evidence)
    requires Consistent(resolve) && i < |events| && e in MentionedBy(events[i], i, resolve)
    ensures exists ref :: Mentions(events, resolve, i, ref) && ref.url == e.url
  {
    var mentions := MentionedBy(events[i], i, resolve);
    var k :| 0 <= k < |mentions| && mentions[k] == e;
    assert Recorded(mentions, e.url);
    MentionedByUrls(events, i, resolve, e.url);
  }

  /** The record is a mention by event i, under the event's ID, or its place when it has none. */
  ghost predicate IsMention(events: seq<Event>, resolve: Resolver, i: int, e: Evidence) {
    && (exists ref :: Mentions(events, resolve, i, ref) && ref.url == e.url)
    && e.eventId == if events[i].id != "" then events[i].id else "render:" + Texts.Decimal(i)
  }

  lemma {:induction false} MentionBy(events: seq<Event>, i: nat, resolve: Resolver, e: Evidence)
    requires Consistent(resolve) && i < |events| && e in MentionedBy(events[i], i, resolve)
    ensures IsMention(events, resolve, i, e)
  {
    var refs := Scan(events[i].text, resolve);
    MentionsOfUrls(refs, |refs|, MentionId(events[i], i), e.url);
    UrlMentioned(events, i, resolve, e);
  }

  /** Every record that is not of a creation is a mention. */
  lemma {:induction false} MentionMeans(events: seq<Event>, resolve: Resolver, e: Evidence)
    requires Consistent(resolve) && e in Records(events, resolve) && e.created.None?
    ensures exists i :: IsMention(events, resolve, i, e)
  {
    CreationWins(events, resolve, e);
    var mentioned := Mentioned(events, |events|, resolve);
    var k :| IsFirstOffer(mentioned, k) && mentioned[k] == e;
    FlatAre(Mentionings(events, resolve), |events|, e);
    var i: nat :| i < |events| && e in Mentionings(events, resolve)[i];
    MentionBy(events, i, resolve, e);
  }

  /** A URL has a record exactly when some event gives evidence of its creation or mentions it. */
  lemma {:induction false} RecordsExactly(events: seq<Event>, resolve: Resolver, url: string)
    requires Consistent(resolve)
    ensures Recorded(Records(events, resolve), url)
       <==> (exists i, made :: Gives(events, resolve, i, made) && made.url == url)
            || exists i, ref :: Mentions(events, resolve, i, ref) && ref.url == url
  {
    var created, mentioned := Created(events, |events|, resolve), Mentioned(events, |events|, resolve);
    AllUrlsRecorded(created + mentioned, url);
    RecordedConcat(created, mentioned, url);
    MentionedUrls(events, resolve, url);
    CreatedUrls(events, resolve, url);
  }
}
