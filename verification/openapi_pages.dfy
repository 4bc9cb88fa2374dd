/** Paged reads and the change locator of the profile-driven provider: fetchPages and summaryFromDetail of
    internal/changehost/openapi_execute.go, openAPIDisplayNumber of internal/changehost/openapi_provider.go. */
module OpenApiPages {
  import Numbers
  import Pages
  import opened Wrappers

  const SAFETY_MAXIMUM_PAGES: nat := 50

  datatype Mode = NoPaging | PageNumber | LinkHeader | CursorBody | CursorHeader

  /** A profile's paging: its mode, whether it names a pointer to the total number of pages, its own page limit. */
  datatype Paging = Paging(mode: Mode, hasTotal: bool, maximumPages: int)

  /** What distinguishes one request from the next: a continuation URL ("" for the operation's own), a page number,
      a cursor ("" for none). */
  datatype Ask = Ask(url: string, page: nat, cursor: string)

  datatype BodyCursor = Missing | Unreadable | Cursor(value: string)

  /** A reply: a page of items and every place a continuation may stand, or a failure. */
  datatype Reply<T> = Page(items: seq<T>, total: Option<int>, link: string, bodyCursor: BodyCursor, headerCursor: string)
                    | Failed

  datatype Continuation = Ends | Goes(ask: Ask) | Breaks

  /** Where a page says the list continues. */
  function Follow<T>(paging: Paging, pageCount: nat, ask: Ask, reply: Reply<T>): Continuation
    requires reply.Page?
  {
    match paging.mode
    case NoPaging => Ends
    case PageNumber =>
      if |reply.items| == 0 then Ends
      else if paging.hasTotal && reply.total.Some? && pageCount >= reply.total.value then Ends
      else Goes(ask.(page := ask.page + 1))
    case LinkHeader => if reply.link == "" then Ends else Goes(ask.(url := reply.link))
    case CursorBody =>
      match reply.bodyCursor {
        case Missing => Ends
        case Unreadable => Breaks
        case Cursor(next) => if next == "" then Ends else Goes(ask.(cursor := next))
      }
    case CursorHeader => if reply.headerCursor == "" then Ends else Goes(ask.(cursor := reply.headerCursor))
  }

  function MaxPages(paging: Paging): (r: nat)
    ensures 1 <= r <= SAFETY_MAXIMUM_PAGES
  {
    if paging.mode == NoPaging then 1
    else if 0 < paging.maximumPages < SAFETY_MAXIMUM_PAGES then paging.maximumPages
    else SAFETY_MAXIMUM_PAGES
  }

  /** How the server answers the n-th request; it may answer the same request differently at another time. */
  type Server<T> = (nat, Ask) -> Reply<T>

  const FIRST := Ask("", 1, "")

  // ---------------------------------------------------------------- the chain of pages

  /** The n-th request, counted from one, as long as every page before it says the list continues. */
  function AskAt<T>(paging: Paging, serve: Server<T>, n: nat): Option<Ask>
    requires n >= 1
  {
    if n == 1 then Some(FIRST)
    else
      var before := AskAt(paging, serve, n - 1);
      if before.None? then None
      else
        var reply := serve(n - 1, before.value);
        if reply.Failed? then None
        else
          var next := Follow(paging, n - 1, before.value, reply);
          if next.Goes? then Some(next.ask) else None
  }

  /** The n-th page, when the chain reaches it and it can be read. */
  function PageAt<T>(paging: Paging, serve: Server<T>, n: nat): (r: Reply<T>)
    requires n >= 1
  {
    var ask := AskAt(paging, serve, n);
    if ask.None? then Failed else serve(n, ask.value)
  }

  /** The items of the first n pages. */
  function Gathered<T>(paging: Paging, serve: Server<T>, n: nat): seq<T> {
    if n == 0 then []
    else
      var reply := PageAt(paging, serve, n);
      Gathered(paging, serve, n - 1) + if reply.Failed? then [] else reply.items
  }

  lemma {:induction false} GatheredGrows<T>(paging: Paging, serve: Server<T>, m: nat, n: nat)
    requires m <= n
    ensures |Gathered(paging, serve, m)| <= |Gathered(paging, serve, n)|
    ensures Gathered(paging, serve, n)[..|Gathered(paging, serve, m)|] == Gathered(paging, serve, m)
    decreases n - m
  {
    if m < n { GatheredGrows(paging, serve, m, n - 1); }
  }

  // ---------------------------------------------------------------- fetchPages

  datatype Fetch<T> = Fetched(items: seq<T>, overflow: bool, pages: nat) | FetchFailed(pages: nat)

  /** Reading stops after page n: enough items, the page limit, or a page that says the list ends. */
  ghost predicate StopsAt<T>(paging: Paging, serve: Server<T>, maximum: nat, n: nat)
    requires n >= 1
  {
    var ask := AskAt(paging, serve, n);
    && ask.Some? && serve(n, ask.value).Page?
    && (|Gathered(paging, serve, n)| >= maximum || n >= MaxPages(paging)
        || Follow(paging, n, ask.value, serve(n, ask.value)).Ends?)
  }

  ghost predicate Continues<T>(paging: Paging, serve: Server<T>, maximum: nat, m: nat) {
    m >= 1 && AskAt(paging, serve, m).Some? && PageAt(paging, serve, m).Page? && !StopsAt(paging, serve, maximum, m)
  }

  ghost predicate GoesOn<T>(paging: Paging, serve: Server<T>, maximum: nat, n: nat) {
    forall m: nat | 1 <= m < n :: Continues(paging, serve, maximum, m)
  }

  /** What a fetch must answer: the items of the pages up to the first stop, cut to the maximum. Overflow is
      reported when the maximum is reached, or when the page limit is reached on a page with items. */
  ghost predicate IsFetch<T>(paging: Paging, serve: Server<T>, maximum: nat, r: Fetch<T>) {
    && 1 <= r.pages <= MaxPages(paging) && GoesOn(paging, serve, maximum, r.pages) &&
       AskAt(paging, serve, r.pages).Some?
    && (if r.Fetched? then
          && StopsAt(paging, serve, maximum, r.pages)
          && var all := Gathered(paging, serve, r.pages);
          && r.items == Pages.Take(all, maximum)
          && (r.overflow <==>
                || |all| >= maximum
                || (r.pages == MaxPages(paging) && |PageAt(paging, serve, r.pages).items| > 0 && paging.mode != NoPaging))
        else !StopsAt(paging, serve, maximum, r.pages)
             && (PageAt(paging, serve, r.pages).Page? ==>
                   Follow(paging, r.pages, AskAt(paging, serve, r.pages).value, PageAt(paging, serve, r.pages)).Breaks?))
  }

  /** fetchPages. */
  method FetchPages<T>(paging: Paging, serve: Server<T>, maximum: nat) returns (r: Fetch<T>)
    ensures IsFetch(paging, serve, maximum, r)
  {
    var maxPages := MaxPages(paging);
    var items: seq<T> := [];
    var ask := FIRST;
    var pageCount := 1;
    while true
      invariant 1 <= pageCount <= maxPages && AskAt(paging, serve, pageCount) == Some(ask)
      invariant items == Gathered(paging, serve, pageCount - 1) && GoesOn(paging, serve, maximum, pageCount)
      decreases maxPages - pageCount
    {
      var reply := serve(pageCount, ask);
      if reply.Failed? { return FetchFailed(pageCount); }
      items := items + reply.items;
      assert items == Gathered(paging, serve, pageCount);
      if |items| >= maximum { return Fetched(items[..maximum], true, pageCount); }
      if pageCount >= maxPages { return Fetched(items, |reply.items| > 0 && paging.mode != NoPaging, pageCount); }
      var next := Follow(paging, pageCount, ask, reply);
      match next
      case Ends => return Fetched(items, false, pageCount);
      case Breaks => return FetchFailed(pageCount);
      case Goes(nextAsk) =>
        assert Continues(paging, serve, maximum, pageCount);
        ask, pageCount := nextAsk, pageCount + 1;
    }
  }

  /** There is one answer. */
  lemma {:induction false} FetchIsUnique<T>(paging: Paging, serve: Server<T>, maximum: nat, a: Fetch<T>, b: Fetch<T>)
    requires IsFetch(paging, serve, maximum, a) && IsFetch(paging, serve, maximum, b)
    ensures a == b
  {
    FirstStop(paging, serve, maximum, a, b);
    FirstStop(paging, serve, maximum, b, a);
  }

  lemma {:induction false} FirstStop<T>(paging: Paging, serve: Server<T>, maximum: nat, a: Fetch<T>, b: Fetch<T>)
    requires IsFetch(paging, serve, maximum, a) && IsFetch(paging, serve, maximum, b)
    ensures a.pages >= b.pages
  {
    if a.pages < b.pages { NothingBeyond(paging, serve, maximum, a, b.pages); }
  }

  /** No later page belongs to a chain that went on past a finished fetch. */
  lemma {:induction false} NothingBeyond<T>(paging: Paging, serve: Server<T>, maximum: nat, r: Fetch<T>, n: nat)
    requires IsFetch(paging, serve, maximum, r) && n > r.pages
    ensures !(GoesOn(paging, serve, maximum, n) && AskAt(paging, serve, n).Some?)
  {
    var m := r.pages;
    assert Continues(paging, serve, maximum, m) ==>
          !StopsAt(paging, serve, maximum, m) && PageAt(paging, serve, m).Page?;
    assert StopsAt(paging, serve, maximum, m) || PageAt(paging, serve, m).Failed? || AskAt(paging, serve, m + 1).None?;
    if AskAt(paging, serve, n).Some? { AskChain(paging, serve, m + 1, n); }
  }

  lemma {:induction false} AskChain<T>(paging: Paging, serve: Server<T>, m: nat, n: nat)
    requires 1 <= m <= n && AskAt(paging, serve, n).Some?
    ensures AskAt(paging, serve, m).Some?
    decreases n - m
  {
    if m < n { AskChain(paging, serve, m, n - 1); }
  }

  /** Never more items than asked for, and always a prefix of what the chain of pages holds, however far it is read. */
  lemma {:induction false} FetchIsPrefix<T>(paging: Paging, serve: Server<T>, maximum: nat, r: Fetch<T>, n: nat)
    requires IsFetch(paging, serve, maximum, r) && r.Fetched? && n >= r.pages
    ensures |r.items| <= maximum && r.items <= Gathered(paging, serve, n)
  {
    GatheredGrows(paging, serve, r.pages, n);
    var some, all := Gathered(paging, serve, r.pages), Gathered(paging, serve, n);
    assert all[..|some|] == some && r.items <= some;
  }

  /** A list is reported as complete although it continues exactly when the page limit falls on an empty page that
      names a next one. */
  lemma {:induction false} FalselyComplete<T>(paging: Paging, serve: Server<T>, maximum: nat, r: Fetch<T>)
    requires IsFetch(paging, serve, maximum, r) && r.Fetched?
    ensures !r.overflow && AskAt(paging, serve, r.pages + 1).Some?
       <==> && AskAt(paging, serve, r.pages + 1).Some? && r.pages == MaxPages(paging)
            && PageAt(paging, serve, r.pages).items == [] && |Gathered(paging, serve, r.pages)| < maximum
  {
  }

  /** Such a list exists for a link-header profile limited to one page. */
  lemma {:induction false} FalselyCompleteExample(r: Fetch<int>)
    requires IsFetch(Paging(LinkHeader, false, 1), (n, ask: Ask) => Page(if ask.url == "" then [] else [n], None, "more", Missing, ""), 10, r)
    ensures r == Fetched([], false, 1)
  {
    var paging := Paging(LinkHeader, false, 1);
    var serve: Server<int> := (n, ask: Ask) => Page(if ask.url == "" then [] else [n], None, "more", Missing, "");
    assert AskAt(paging, serve, 1) == Some(FIRST) && serve(1, FIRST).items == [];
    assert Gathered(paging, serve, 0) == [] && Gathered(paging, serve, 1) == [];
    assert StopsAt(paging, serve, 10, 1);
  }

  // ---------------------------------------------------------------- a list served by page number

  /** The server keeps one list, cut into pages of one size, and states the same total each time. */
  ghost predicate Serves<T(!new)>(serve: Server<T>, list: seq<T>, size: nat, total: Option<int>) {
    forall n: nat, ask: Ask :: n >= 1 && ask.page >= 1 ==>
      serve(n, ask).Page? && serve(n, ask).items == Pages.Slice(list, size, ask.page) && serve(n, ask).total == total
  }

  lemma {:induction false} SlicesAddUp<T>(list: seq<T>, size: nat, page: nat)
    requires page >= 1
    ensures Pages.Take(list, size * (page - 1)) + Pages.Slice(list, size, page) == Pages.Take(list, size * page)
  {
    assert size * page == size * (page - 1) + size;
  }

  lemma {:induction false} PagesInOrder<T(!new)>(paging: Paging, serve: Server<T>, list: seq<T>, size: nat,
                                                 total: Option<int>, n: nat)
    requires paging.mode == PageNumber && Serves(serve, list, size, total) && n >= 1 && AskAt(paging, serve, n).Some?
    ensures AskAt(paging, serve, n).value.page == n && PageAt(paging, serve, n).Page?
    ensures PageAt(paging, serve, n).items == Pages.Slice(list, size, n) && PageAt(paging, serve, n).total == total
    ensures Gathered(paging, serve, n) == Pages.Take(list, size * n)
  {
    if n > 1 { PagesInOrder(paging, serve, list, size, total, n - 1); }
    SlicesAddUp(list, size, n);
  }

  /** The pages that a stated total lets a fetch read: at least one. */
  function StatedPages(total: int): (r: nat)
    ensures r >= 1
  {
    if total >= 1 then total else 1
  }

  /** The stated total does not cut the list short. */
  predicate TotalCovers(paging: Paging, size: nat, total: Option<int>, length: nat) {
    !paging.hasTotal || total.None? || size * StatedPages(total.value) >= length
  }

  /** How a page-number fetch ended, in terms of the list. */
  ghost predicate EndsAt<T>(paging: Paging, list: seq<T>, size: nat, total: Option<int>, maximum: nat, r: Fetch<T>)
    requires r.pages >= 1
  {
    var n, all := r.pages, Pages.Take(list, size * r.pages);
    && r.Fetched? && r.items == Pages.Take(all, maximum) && n <= MaxPages(paging)
    && (r.overflow <==> |all| >= maximum || (n == MaxPages(paging) && |list| > size * (n - 1)))
    && (|all| >= maximum || n == MaxPages(paging) || |list| <= size * (n - 1)
        || (paging.hasTotal && total.Some? && n >= total.value))
  }

  /** How it ended, in terms of the last page and everything gathered. */
  ghost predicate EndsOn<T>(paging: Paging, page: Reply<T>, all: seq<T>, maximum: nat, r: Fetch<T>) {
    && page.Page? && r.Fetched? && r.items == Pages.Take(all, maximum) && 1 <= r.pages <= MaxPages(paging)
    && (r.overflow <==> |all| >= maximum || (r.pages == MaxPages(paging) && |page.items| > 0))
    && (|all| >= maximum || r.pages == MaxPages(paging) || |page.items| == 0
        || (paging.hasTotal && page.total.Some? && r.pages >= page.total.value))
  }

  lemma {:induction false} LastPage<T>(paging: Paging, serve: Server<T>, maximum: nat, r: Fetch<T>)
    requires paging.mode == PageNumber && IsFetch(paging, serve, maximum, r) && PageAt(paging, serve, r.pages).Page?
    ensures EndsOn(paging, PageAt(paging, serve, r.pages), Gathered(paging, serve, r.pages), maximum, r)
  {
  }

  lemma {:induction false} LastSlice<T>(paging: Paging, page: Reply<T>, list: seq<T>, size: nat, maximum: nat,
                                        r: Fetch<T>)
    requires size >= 1 && EndsOn(paging, page, Pages.Take(list, size * r.pages), maximum, r) &&
             page.items == Pages.Slice(list, size, r.pages)
    ensures EndsAt(paging, list, size, page.total, maximum, r)
  {
  }

  /** Served by page number, the fetch returns the first items of the list. Unless the stated total cuts the list
      short, it reports overflow exactly when the list reaches the maximum or the last allowed page, and without
      overflow everything was read. */
  lemma {:induction false} PageNumberFetch<T(!new)>(paging: Paging, serve: Server<T>, list: seq<T>, size: nat,
                                                    total: Option<int>, maximum: nat, r: Fetch<T>)
    requires paging.mode == PageNumber && size >= 1 && Serves(serve, list, size, total) &&
             IsFetch(paging, serve, maximum, r)
    ensures r.Fetched? && r.items <= list
    ensures TotalCovers(paging, size, total, |list|) && !r.overflow ==> r.items == list
    ensures TotalCovers(paging, size, total, |list|) ==>
              (r.overflow <==> |list| >= maximum || |list| > size * (MaxPages(paging) - 1))
  {
    PagesInOrder(paging, serve, list, size, total, r.pages);
    LastPage(paging, serve, maximum, r);
    LastSlice(paging, PageAt(paging, serve, r.pages), list, size, maximum, r);
    EndOfList(paging, list, size, total, maximum, r);
  }

  lemma {:induction false} WithinStatedPages<T(!new)>(paging: Paging, serve: Server<T>, list: seq<T>, size: nat,
                                                      total: Option<int>, maximum: nat, r: Fetch<T>)
    requires paging.mode == PageNumber && Serves(serve, list, size, total) && IsFetch(paging, serve, maximum, r)
    ensures paging.hasTotal && total.Some? ==> r.pages <= StatedPages(total.value)
  {
    if r.pages > 1 {
      assert Continues(paging, serve, maximum, r.pages - 1);
      PagesInOrder(paging, serve, list, size, total, r.pages - 1);
    }
  }

  /** The fetch calls a list complete that it did not read to its end exactly when the stated total cuts the list short
      before the maximum and the page limit do. */
  lemma {:induction false} CutByTotalExactly<T(!new)>(paging: Paging, serve: Server<T>, list: seq<T>, size: nat,
                                                      total: Option<int>, maximum: nat, r: Fetch<T>)
    requires paging.mode == PageNumber && size >= 1 && Serves(serve, list, size, total) &&
             IsFetch(paging, serve, maximum, r)
    ensures r.Fetched?
    ensures !r.overflow && r.items != list
       <==> && !TotalCovers(paging, size, total, |list|)
            && var n := StatedPages(total.value); size * n < maximum && n < MaxPages(paging)
  {
    PagesInOrder(paging, serve, list, size, total, r.pages);
    LastPage(paging, serve, maximum, r);
    LastSlice(paging, PageAt(paging, serve, r.pages), list, size, maximum, r);
    WithinStatedPages(paging, serve, list, size, total, maximum, r);
    EndsShort(paging, list, size, total, maximum, r);
  }

  lemma {:induction false} EndsShort<T>(paging: Paging, list: seq<T>, size: nat, total: Option<int>, maximum: nat,
                                        r: Fetch<T>)
    requires size >= 1 && r.pages >= 1 && EndsAt(paging, list, size, total, maximum, r)
    requires paging.hasTotal && total.Some? ==> r.pages <= StatedPages(total.value)
    ensures !r.overflow && r.items != list
       <==> && !TotalCovers(paging, size, total, |list|)
            && var n := StatedPages(total.value); size * n < maximum && n < MaxPages(paging)
  {
    Numbers.TimesMonotone(size, r.pages - 1, r.pages);
    if paging.hasTotal && total.Some? { Numbers.TimesMonotone(size, r.pages, StatedPages(total.value)); }
  }

  lemma {:induction false} EndOfList<T>(paging: Paging, list: seq<T>, size: nat, total: Option<int>, maximum: nat,
                                        r: Fetch<T>)
    requires size >= 1 && r.pages >= 1 && EndsAt(paging, list, size, total, maximum, r)
    ensures r.items <= list
    ensures TotalCovers(paging, size, total, |list|) && !r.overflow ==> r.items == list
    ensures TotalCovers(paging, size, total, |list|) ==>
              (r.overflow <==> |list| >= maximum || |list| > size * (MaxPages(paging) - 1))
  {
    CoveredBy(|list|, size, r.pages, MaxPages(paging),
              if paging.hasTotal && total.Some? then Some(StatedPages(total.value)) else None);
  }

  /** What the stopping page says about the list's length. */
  lemma {:induction false} CoveredBy(length: nat, size: nat, n: nat, maxPages: nat, total: Option<int>)
    requires size >= 1 && 1 <= n <= maxPages
    ensures length <= size * (n - 1) ==> length <= size * n && length <= size * (maxPages - 1)
    ensures total.Some? && 0 <= total.value <= n && length <= size * total.value ==>
              length <= size * n && (n < maxPages ==> length <= size * (maxPages - 1))
  {
    Numbers.TimesMonotone(size, n - 1, n);
    Numbers.TimesMonotone(size, n - 1, maxPages - 1);
    if n < maxPages { Numbers.TimesMonotone(size, n, maxPages - 1); }
    if total.Some? && total.value <= n { Numbers.TimesMonotone(size, total.value, n); }
  }

  // ---------------------------------------------------------------- pages served under tokens

  predicate ByToken(mode: Mode) {
    mode == LinkHeader || mode == CursorBody || mode == CursorHeader
  }

  /** A link is the whole URL of the next request; a cursor is sent with the operation's own. */
  function TokenAsk(mode: Mode, token: string): Ask {
    if mode == LinkHeader then Ask(token, 1, "") else Ask("", 1, token)
  }

  /** The reply names the token of the next page ("" for none) where the mode looks for it. */
  predicate Names<T>(mode: Mode, reply: Reply<T>, token: string)
    requires reply.Page?
  {
    match mode
    case LinkHeader => reply.link == token
    case CursorHeader => reply.headerCursor == token
    case CursorBody => reply.bodyCursor == Cursor(token) || (token == "" && reply.bodyCursor == Missing)
    case _ => false
  }

  /** How the last page the server holds ends: it names no other, it names one in no readable way, or it names one that
      cannot be had. */
  datatype Ending = Whole | Garbled | Lost(token: string)

  ghost predicate EndsWith<T(!new)>(mode: Mode, serve: Server<T>, reply: Reply<T>, ending: Ending)
    requires reply.Page?
  {
    match ending
    case Whole => Names(mode, reply, "")
    case Garbled => mode == CursorBody && reply.bodyCursor == Unreadable
    case Lost(token) => token != "" && Names(mode, reply, token) && forall n :: serve(n, TokenAsk(mode, token)).Failed?
  }

  /** The server holds pages under tokens, the first under none, and each page names the token of the next. */
  ghost predicate Holds<T(!new)>(mode: Mode, serve: Server<T>, pages: seq<seq<T>>, tokens: seq<string>, ending: Ending)
  {
    && |tokens| == |pages| >= 1 && tokens[0] == "" && (forall k :: 1 <= k < |tokens| ==> tokens[k] != "")
    && forall n: nat, k :: 0 <= k < |pages| ==>
         var reply := serve(n, TokenAsk(mode, tokens[k]));
         && reply.Page? && reply.items == pages[k]
         && if k < |pages| - 1 then Names(mode, reply, tokens[k + 1]) else EndsWith(mode, serve, reply, ending)
  }

  function Joined<T>(pages: seq<seq<T>>, n: nat): seq<T>
    requires n <= |pages|
  {
    if n == 0 then [] else Joined(pages, n - 1) + pages[n - 1]
  }

  lemma {:induction false} JoinedGrows<T>(pages: seq<seq<T>>, m: nat, n: nat)
    requires m <= n <= |pages|
    ensures Joined(pages, m) <= Joined(pages, n)
    decreases n - m
  {
    if m < n { JoinedGrows(pages, m, n - 1); }
  }

  lemma {:induction false} TokensInOrder<T(!new)>(paging: Paging, serve: Server<T>, pages: seq<seq<T>>,
                                                  tokens: seq<string>, ending: Ending, n: nat)
    requires ByToken(paging.mode) && Holds(paging.mode, serve, pages, tokens, ending) && 1 <= n <= |pages|
    ensures AskAt(paging, serve, n) == Some(TokenAsk(paging.mode, tokens[n - 1]))
    ensures PageAt(paging, serve, n).Page? && PageAt(paging, serve, n).items == pages[n - 1]
    ensures Gathered(paging, serve, n) == Joined(pages, n)
  {
    if n > 1 { TokensInOrder(paging, serve, pages, tokens, ending, n - 1); }
    assert serve(n, TokenAsk(paging.mode, tokens[n - 1])).Page?;
  }

  lemma {:induction false} BehindTheLast<T(!new)>(paging: Paging, serve: Server<T>, pages: seq<seq<T>>,
                                                  tokens: seq<string>, ending: Ending, n: nat)
    requires ByToken(paging.mode) && Holds(paging.mode, serve, pages, tokens, ending) && n > |pages|
    ensures AskAt(paging, serve, n).Some? ==>
              n == |pages| + 1 && ending.Lost? && PageAt(paging, serve, n).Failed?
  {
    if n == |pages| + 1 {
      TokensInOrder(paging, serve, pages, tokens, ending, n - 1);
      assert serve(n - 1, TokenAsk(paging.mode, tokens[n - 2])).Page?;
      assert ending.Lost? ==> serve(n, TokenAsk(paging.mode, ending.token)).Failed?;
    } else {
      BehindTheLast(paging, serve, pages, tokens, ending, n - 1);
    }
  }

  /** What the last page says, by how the server ends. */
  lemma {:induction false} LastSays<T(!new)>(paging: Paging, serve: Server<T>, pages: seq<seq<T>>, tokens: seq<string>,
                                             ending: Ending)
    requires ByToken(paging.mode) && Holds(paging.mode, serve, pages, tokens, ending)
    ensures var n := |pages|;
            && AskAt(paging, serve, n).Some? && PageAt(paging, serve, n).Page?
            && var next := Follow(paging, n, AskAt(paging, serve, n).value, PageAt(paging, serve, n));
               if ending.Whole? then next.Ends? else if ending.Garbled? then next.Breaks? else next.Goes?
  {
    TokensInOrder(paging, serve, pages, tokens, ending, |pages|);
  }

  lemma {:induction false} EarlierSays<T(!new)>(paging: Paging, serve: Server<T>, pages: seq<seq<T>>,
                                                tokens: seq<string>, ending: Ending, n: nat)
    requires ByToken(paging.mode) && Holds(paging.mode, serve, pages, tokens, ending) && 1 <= n < |pages|
    ensures AskAt(paging, serve, n).Some? && PageAt(paging, serve, n).Page?
    ensures Follow(paging, n, AskAt(paging, serve, n).value, PageAt(paging, serve, n)).Goes?
  {
    TokensInOrder(paging, serve, pages, tokens, ending, n);
  }

  /** The pages a profile lets a fetch read: its own limit, at most 50. */
  function PageLimit(paging: Paging): nat {
    if 0 < paging.maximumPages < 50 then paging.maximumPages else 50
  }

  /** What a fetch of pages under tokens answers. */
  ghost predicate TokenAnswer<T>(paging: Paging, pages: seq<seq<T>>, ending: Ending, maximum: nat, r: Fetch<T>) {
    var limit, n := PageLimit(paging), |pages|;
    var all := Joined(pages, if limit < n then limit else n);
    if |all| >= maximum then
      && r.Fetched? && r.items == all[..maximum] && r.overflow && 1 <= r.pages <= n && r.pages <= limit
      && |Joined(pages, r.pages)| >= maximum && (r.pages == 1 || |Joined(pages, r.pages - 1)| < maximum)
    else if limit <= n then r == Fetched(all, pages[limit - 1] != [], limit)
    else match ending
      case Whole => r == Fetched(all, false, n)
      case Garbled => r == FetchFailed(n)
      case Lost(_) => r == FetchFailed(n + 1)
  }

  /** Before the end of the pages the fetch stops for the maximum or for the limit only. */
  lemma {:induction false} StopsAmongPages<T(!new)>(paging: Paging, serve: Server<T>, pages: seq<seq<T>>,
                                                    tokens: seq<string>, ending: Ending, maximum: nat, n: nat)
    requires ByToken(paging.mode) && Holds(paging.mode, serve, pages, tokens, ending) && 1 <= n <= |pages|
    ensures StopsAt(paging, serve, maximum, n)
       <==> |Joined(pages, n)| >= maximum || n >= PageLimit(paging) || (n == |pages| && ending.Whole?)
  {
    TokensInOrder(paging, serve, pages, tokens, ending, n);
    if n < |pages| {
      EarlierSays(paging, serve, pages, tokens, ending, n);
    } else {
      LastSays(paging, serve, pages, tokens, ending);
    }
  }

  lemma {:induction false} NotStoppedBefore<T(!new)>(paging: Paging, serve: Server<T>, pages: seq<seq<T>>,
                                                     tokens: seq<string>, ending: Ending, maximum: nat, n: nat)
    requires ByToken(paging.mode) && Holds(paging.mode, serve, pages, tokens, ending)
    requires GoesOn(paging, serve, maximum, n) && n >= 2 && n - 1 <= |pages|
    ensures |Joined(pages, n - 1)| < maximum && n - 1 < PageLimit(paging) && !(n - 1 == |pages| && ending.Whole?)
  {
    assert Continues(paging, serve, maximum, n - 1);
    StopsAmongPages(paging, serve, pages, tokens, ending, maximum, n - 1);
  }

  /** How a fetch ends among the pages. */
  lemma {:induction false} EndsAmongPages<T(!new)>(paging: Paging, serve: Server<T>, pages: seq<seq<T>>,
                                                   tokens: seq<string>, ending: Ending, maximum: nat, r: Fetch<T>)
    requires ByToken(paging.mode) && Holds(paging.mode, serve, pages, tokens, ending)
    requires IsFetch(paging, serve, maximum, r) && r.pages <= |pages|
    ensures var n, all := r.pages, Joined(pages, r.pages);
            if |all| >= maximum || n >= PageLimit(paging) || (n == |pages| && ending.Whole?)
            then r == Fetched(Pages.Take(all, maximum), |all| >= maximum || (n >= PageLimit(paging) && pages[n - 1] != []), n)
            else r == FetchFailed(n) && n == |pages| && ending.Garbled?
  {
    var n := r.pages;
    TokensInOrder(paging, serve, pages, tokens, ending, n);
    StopsAmongPages(paging, serve, pages, tokens, ending, maximum, n);
    if n < |pages| {
      EarlierSays(paging, serve, pages, tokens, ending, n);
    } else {
      LastSays(paging, serve, pages, tokens, ending);
    }
  }

  /** Whatever is held under tokens is fetched in order: everything when it fits, otherwise the first items with overflow;
      an unreadable or lost continuation fails the fetch when the fetch gets there. */
  lemma {:induction false} TokenFetch<T(!new)>(paging: Paging, serve: Server<T>, pages: seq<seq<T>>,
                                               tokens: seq<string>, ending: Ending, maximum: nat, r: Fetch<T>)
    requires ByToken(paging.mode) && Holds(paging.mode, serve, pages, tokens, ending)
    requires IsFetch(paging, serve, maximum, r)
    ensures TokenAnswer(paging, pages, ending, maximum, r)
  {
    var n := r.pages;
    if n > |pages| {
      BehindTheLast(paging, serve, pages, tokens, ending, n);
      NotStoppedBefore(paging, serve, pages, tokens, ending, maximum, n);
    } else {
      if n > 1 { NotStoppedBefore(paging, serve, pages, tokens, ending, maximum, n); }
      EndsAmongPages(paging, serve, pages, tokens, ending, maximum, r);
      JoinedGrows(pages, n, if PageLimit(paging) < |pages| then PageLimit(paging) else |pages|);
    }
  }

  /** Two pages, the second behind a link: both are fetched, in order and once. */
  lemma {:induction false} TokenFetchExample(serve: Server<int>, r: Fetch<int>)
    requires forall n :: serve(n, Ask("", 1, "")) == Page([1], None, "second", Missing, "")
    requires forall n :: serve(n, Ask("second", 1, "")) == Page([2], None, "", Missing, "")
    requires IsFetch(Paging(LinkHeader, false, 3), serve, 10, r)
    ensures r == Fetched([1, 2], false, 2)
  {
    var pages, tokens := [[1], [2]], ["", "second"];
    assert Holds(LinkHeader, serve, pages, tokens, Whole);
    TokenFetch(Paging(LinkHeader, false, 3), serve, pages, tokens, Whole, 10, r);
    assert Joined(pages, 0) == [] && Joined(pages, 1) == [1] && Joined(pages, 2) == [1, 2];
  }

  /** Without paging the first reply is the whole list. */
  lemma {:induction false} SinglePageFetch<T>(paging: Paging, serve: Server<T>, maximum: nat, r: Fetch<T>)
    requires paging.mode == NoPaging && IsFetch(paging, serve, maximum, r)
    ensures var reply := serve(1, Ask("", 1, ""));
            if reply.Failed? then r == FetchFailed(1) else r == Fetched(Pages.Take(reply.items, maximum), |reply.items| >= maximum, 1)
  {
    assert Gathered(paging, serve, 0) == [] && AskAt(paging, serve, 1) == Some(FIRST);
    assert serve(1, FIRST).Page? ==> Gathered(paging, serve, 1) == serve(1, FIRST).items;
  }
}
