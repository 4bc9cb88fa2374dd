/** Searching a soft-wrapped terminal buffer: frontend/src/terminalSearchCount.ts, plain-string mode. */
module TerminalSearch {
  import Numbers
  import Texts
  import opened Wrappers

  // ---------------------------------------------------------------- matches in one line

  datatype Options = Options(caseSensitive: bool, wholeWord: bool)

  /** A space or ASCII punctuation other than the underscore. */
  predicate IsNonWord(c: char) {
    ' ' <= c <= '/' || ':' <= c <= '@' || '[' <= c <= '^' || c == '`' || '{' <= c <= '~'
  }

  predicate IsWholeWord(line: string, index: nat, len: nat)
    requires index <= |line|
  {
    && (index == 0 || IsNonWord(line[index - 1]))
    && (index + len >= |line| || IsNonWord(line[index + len]))
  }

  datatype Span = Span(offset: nat, length: nat)

  function Lower(s: string): (r: string)
    ensures |r| == |s|
  {
    seq(|s|, i requires 0 <= i < |s| => if 'A' <= s[i] <= 'Z' then (s[i] as int + 32) as char else s[i])
  }

  function Cased(s: string, opts: Options): (r: string)
    ensures |r| == |s|
  {
    if opts.caseSensitive then s else Lower(s)
  }

  /** Leftmost finds from an index on, each search resuming after the last find; finds that do not count are skipped
      but still consumed. */
  function Spans(find: nat -> int, counts: nat -> bool, width: nat, limit: nat, from: nat): seq<Span>
    requires width >= 1
    decreases limit - from
  {
    var i := find(from);
    if i < from || i + width > limit then []
    else (if counts(i) then [Span(i, width)] else []) + Spans(find, counts, width, limit, i + width)
  }

  function Finder(hay: string, needle: string): nat -> int {
    (from: nat) => Texts.IndexOf(hay, needle, from)
  }

  function Everywhere(): nat -> bool {
    i => true
  }

  function Counter(hay: string, needle: string, wholeWord: bool): nat -> bool {
    if wholeWord then (i: nat) => i <= |hay| && IsWholeWord(hay, i, |needle|) else Everywhere()
  }

  function SpansIn(hay: string, needle: string, wholeWord: bool): seq<Span>
    requires needle != ""
  {
    Spans(Finder(hay, needle), Counter(hay, needle, wholeWord), |needle|, |hay|, 0)
  }

  function SpansInLine(line: string, term: string, opts: Options): seq<Span> {
    if term == "" then [] else SpansIn(Cased(line, opts), Cased(term, opts), opts.wholeWord)
  }

  method MatchSpansInLine(line: string, term: string, opts: Options) returns (out: seq<Span>)
    ensures out == SpansInLine(line, term, opts)
  {
    if term == "" { return []; }
    var hay, needle := Cased(line, opts), Cased(term, opts);
    out := ScanSpans(Finder(hay, needle), Counter(hay, needle, opts.wholeWord), |needle|, |hay|);
  }

  /** The scanning loop; find is hay.indexOf(needle, _), counts the whole-word test. */
  method ScanSpans(find: nat -> int, counts: nat -> bool, width: nat, limit: nat) returns (out: seq<Span>)
    requires width >= 1
    requires forall from: nat :: find(from) == -1 || from <= find(from) <= limit - width
    ensures out == Spans(find, counts, width, limit, 0)
  {
    out := [];
    var from: nat := 0;
    while from <= limit - width
      invariant SpansFrom(out, find, counts, width, limit, from) == Spans(find, counts, width, limit, 0)
      decreases limit - from
    {
      var i := find(from);
      SpansAfter(out, find, counts, width, limit, from);
      if i < 0 { return; }
      if counts(i) { out := out + [Span(i, width)]; }
      from := i + if width > 1 then width else 1;
    }
    SpansAfter(out, find, counts, width, limit, from);
  }

  /** What the loop ends with, when it stands at an index with the spans so far. */
  function SpansFrom(out: seq<Span>, find: nat -> int, counts: nat -> bool, width: nat, limit: nat, from: nat)
    : seq<Span>
    requires width >= 1
  {
    out + Spans(find, counts, width, limit, from)
  }

  lemma {:induction false} SpansAfter(out: seq<Span>, find: nat -> int, counts: nat -> bool, width: nat, limit: nat,
                                      from: nat)
    requires width >= 1
    ensures var i, all := find(from), SpansFrom(out, find, counts, width, limit, from);
            if i < from || i + width > limit then all == out
            else all == SpansFrom(if counts(i) then out + [Span(i, width)] else out, find, counts, width, limit, i + width)
  {
  }

  // ---------------------------------------------------------------- what the spans are

  /** Spans of one width, in order and without overlap, between two bounds. */
  ghost predicate Ascends(s: seq<Span>, width: nat, limit: nat, from: nat) {
    && (forall k :: 0 <= k < |s| ==> from <= s[k].offset && s[k].offset + width <= limit && s[k].length == width)
    && (forall k, l :: 0 <= k < l < |s| ==> s[k].offset + width <= s[l].offset)
  }

  lemma {:induction false} SpansAscend(find: nat -> int, counts: nat -> bool, width: nat, limit: nat, from: nat)
    requires width >= 1
    ensures Ascends(Spans(find, counts, width, limit, from), width, limit, from)
    decreases limit - from
  {
    var i := find(from);
    if from <= i && i + width <= limit {
      SpansAscend(find, counts, width, limit, i + width);
      AscendsInFront(Spans(find, counts, width, limit, i + width), width, limit, from, i);
    }
  }

  lemma {:induction false} AscendsInFront(rest: seq<Span>, width: nat, limit: nat, from: nat, i: nat)
    requires from <= i && i + width <= limit && Ascends(rest, width, limit, i + width)
    ensures Ascends([] + rest, width, limit, from) && Ascends([Span(i, width)] + rest, width, limit, from)
  {
    var s := [Span(i, width)] + rest;
    assert forall k :: 0 < k < |s| ==> s[k] == rest[k - 1];
  }

  /** Every span is a find. */
  lemma {:induction false} SpansAreFinds(find: nat -> int, counts: nat -> bool, width: nat, limit: nat, from: nat,
                                         s: Span)
    requires width >= 1 && s in Spans(find, counts, width, limit, from)
    ensures exists x: nat :: find(x) == s.offset
    decreases limit - from
  {
    var i := find(from);
    if s != Span(i, width) { SpansAreFinds(find, counts, width, limit, i + width, s); }
  }

  ghost predicate Covers(s: seq<Span>, k: int, at: int) {
    0 <= k < |s| && s[k].offset <= at < s[k].offset + s[k].length
  }

  /** When every find counts, whatever a search up to an index must find starts inside some span. */
  lemma {:induction false} SpansCover(find: nat -> int, width: nat, limit: nat, from: nat, at: nat)
    requires width >= 1 && from <= at && at + width <= limit
    requires forall x: nat :: from <= x <= at ==> x <= find(x) <= at
    ensures exists k :: Covers(Spans(find, Everywhere(), width, limit, from), k, at)
    decreases limit - from
  {
    var i := find(from);
    var s, rest := Spans(find, Everywhere(), width, limit, from), Spans(find, Everywhere(), width, limit, i + width);
    assert s == [Span(i, width)] + rest;
    if at < i + width {
      assert Covers(s, 0, at);
    } else {
      SpansCover(find, width, limit, i + width, at);
      var k :| Covers(rest, k, at);
      assert Covers(s, k + 1, at);
    }
  }

  /** Plain spans are occurrences, and nothing is missed: every occurrence starts inside some span. */
  lemma {:induction false} PlainSpansExact(hay: string, needle: string)
    requires needle != ""
    ensures Ascends(SpansIn(hay, needle, false), |needle|, |hay|, 0)
    ensures forall s :: s in SpansIn(hay, needle, false) ==> Texts.IsAt(hay, needle, s.offset)
    ensures forall at :: Texts.IsAt(hay, needle, at) ==> exists k :: Covers(SpansIn(hay, needle, false), k, at)
  {
    var find, counts := Finder(hay, needle), Everywhere();
    SpansAscend(find, counts, |needle|, |hay|, 0);
    forall s | s in SpansIn(hay, needle, false)
      ensures Texts.IsAt(hay, needle, s.offset)
    {
      SpansAreFinds(find, counts, |needle|, |hay|, 0, s);
      var x: nat :| find(x) == s.offset;
      Texts.IndexOfIsLeast(hay, needle, x);
    }
    forall at | Texts.IsAt(hay, needle, at)
      ensures exists k :: Covers(SpansIn(hay, needle, false), k, at)
    {
      forall x: nat | x <= at
        ensures x <= find(x) <= at
      {
        Texts.IndexOfIsLeast(hay, needle, x);
      }
      SpansCover(find, |needle|, |hay|, 0, at);
    }
  }

  /** Whole-word spans are the plain spans that stand alone... */
  lemma {:induction false} WholeWordSpans(find: nat -> int, counts: nat -> bool, width: nat, limit: nat, from: nat)
    requires width >= 1
    ensures forall s ::
              s in Spans(find, counts, width, limit, from) <==>
              s in Spans(find, Everywhere(), width, limit, from) && counts(s.offset)
    decreases limit - from
  {
    var i := find(from);
    if from <= i && i + width <= limit { WholeWordSpans(find, counts, width, limit, i + width); }
  }

  /** ... so a standalone occurrence that overlaps an earlier, embedded one is not found. */
  lemma {:induction false} WholeWordMisses()
    ensures Texts.IsAt("xa a a", "a a", 3) && IsWholeWord("xa a a", 3, 3)
    ensures SpansIn("xa a a", "a a", true) == []
  {
    var hay, needle := "xa a a", "a a";
    assert hay[3..6] == needle && hay[1..4] == needle;
    assert hay[0..3][0] == 'x' && needle[0] == 'a';
    assert Texts.IndexOf(hay, needle, 1) == 1;
    assert Texts.IndexOf(hay, needle, 0) == 1;
    assert Texts.IndexOf(hay, needle, 4) == -1;
    assert !IsWholeWord(hay, 1, 3);
    var find, counts := Finder(hay, needle), Counter(hay, needle, true);
    assert find(0) == 1 && find(4) == -1 && !counts(1);
    assert Spans(find, counts, 3, 6, 4) == [];
    assert Spans(find, counts, 3, 6, 0) == [] + Spans(find, counts, 3, 6, 4);
  }

  /** An occurrence that the options ask for. */
  predicate IsWanted(hay: string, needle: string, wholeWord: bool, at: int) {
    Texts.IsAt(hay, needle, at) && (wholeWord ==> IsWholeWord(hay, at, |needle|))
  }

  /** The needle can start again inside itself, right behind a character that is not part of a word. */
  predicate OverlapsAt(needle: string, d: int) {
    0 < d < |needle| && needle[d..] == needle[..|needle| - d] && IsNonWord(needle[d - 1])
  }

  predicate SelfOverlaps(needle: string) {
    exists d | 0 < d < |needle| :: OverlapsAt(needle, d)
  }

  lemma {:induction false} SpansAreWanted(hay: string, needle: string, wholeWord: bool)
    requires needle != ""
    ensures forall s :: s in SpansIn(hay, needle, wholeWord) ==>
              s.length == |needle| && s in SpansIn(hay, needle, false) && IsWanted(hay, needle, wholeWord, s.offset)
  {
    PlainSpansExact(hay, needle);
    WholeWordSpans(Finder(hay, needle), Counter(hay, needle, wholeWord), |needle|, |hay|, 0);
  }

  /** A standalone occurrence inside a plain span that starts before it makes the needle overlap itself. */
  lemma {:induction false} CoveredOverlaps(hay: string, needle: string, start: nat, at: nat)
    requires Texts.IsAt(hay, needle, start) && IsWanted(hay, needle, true, at) && start < at < start + |needle|
    ensures OverlapsAt(needle, at - start)
  {
    var d, end := at - start, start + |needle|;
    assert needle[d..] == hay[at..end];
    assert needle[..|needle| - d] == hay[at..end];
    assert needle[d - 1] == hay[start..end][d - 1] == hay[at - 1];
  }

  lemma {:induction false} WantedIsFound(hay: string, needle: string, at: nat)
    requires needle != "" && !SelfOverlaps(needle) && IsWanted(hay, needle, true, at)
    ensures Span(at, |needle|) in SpansIn(hay, needle, true)
  {
    PlainSpansExact(hay, needle);
    var plain := SpansIn(hay, needle, false);
    var k :| Covers(plain, k, at);
    assert plain[k] in plain;
    if plain[k].offset < at { CoveredOverlaps(hay, needle, plain[k].offset, at); }
    assert plain[k] == Span(at, |needle|);
    WholeWordSpans(Finder(hay, needle), Counter(hay, needle, true), |needle|, |hay|, 0);
  }

  /** The needle behind its own overlapping start, embedded by a digit. */
  function Embedded(needle: string, d: nat): string
    requires d < |needle|
  {
    [if needle[0] == '0' then '1' else '0'] + (needle[..d] + needle)
  }

  lemma {:induction false} EmbeddedOccurs(needle: string, d: nat)
    requires OverlapsAt(needle, d)
    ensures Texts.IsAt(Embedded(needle, d), needle, 1) && !IsWanted(Embedded(needle, d), needle, true, 1)
    ensures !Texts.IsAt(Embedded(needle, d), needle, 0) && IsWanted(Embedded(needle, d), needle, true, 1 + d)
  {
    var hay, w := Embedded(needle, d), |needle|;
    assert hay[1..1 + w] == needle[..d] + needle[..w - d] == needle[..d] + needle[d..];
    assert hay[0..w][0] != needle[0];
    assert hay[1 + d..1 + d + w] == needle;
    assert hay[d] == needle[d - 1];
  }

  /** No plain span starts within a needle's length behind one that does. */
  lemma {:induction false} SpansApart(hay: string, needle: string, s: Span)
    requires needle != "" && Texts.IsAt(hay, needle, 1) && !Texts.IsAt(hay, needle, 0)
    requires s in SpansIn(hay, needle, false)
    ensures s.offset == 1 || 1 + |needle| <= s.offset
  {
    PlainSpansExact(hay, needle);
    var plain := SpansIn(hay, needle, false);
    var k :| Covers(plain, k, 1);
    assert plain[k] in plain;
    var j :| 0 <= j < |plain| && plain[j] == s;
    assert j < k || j == k || k < j;
  }

  /** The embedded occurrence is consumed and takes the standalone one with it. */
  lemma {:induction false} EmbeddedIsMissed(needle: string, d: nat)
    requires OverlapsAt(needle, d)
    ensures IsWanted(Embedded(needle, d), needle, true, 1 + d) && SpansIn(Embedded(needle, d), needle, true) == []
  {
    var hay := Embedded(needle, d);
    var found := SpansIn(hay, needle, true);
    EmbeddedOccurs(needle, d);
    SpansAreWanted(hay, needle, true);
    if found != [] {
      assert found[0] in found;
      SpansApart(hay, needle, found[0]);
    }
  }

  /** A whole-word search finds every standalone occurrence, whatever the text, exactly for a needle that cannot start
      again inside itself behind a character outside words. */
  lemma {:induction false} WholeWordsFoundExactly(needle: string)
    requires needle != ""
    ensures (forall hay, at: nat :: IsWanted(hay, needle, true, at) ==> Span(at, |needle|) in SpansIn(hay, needle, true))
        <==> !SelfOverlaps(needle)
  {
    if SelfOverlaps(needle) {
      var d: nat :| d < |needle| && OverlapsAt(needle, d);
      EmbeddedIsMissed(needle, d);
    } else {
      forall hay, at: nat | IsWanted(hay, needle, true, at)
        ensures Span(at, |needle|) in SpansIn(hay, needle, true)
      {
        WantedIsFound(hay, needle, at);
      }
    }
  }

  /** Nothing found, nothing there. */
  lemma {:induction false} NoSpansNoOccurrence(hay: string, needle: string, wholeWord: bool)
    requires needle != ""
    ensures SpansIn(hay, needle, wholeWord) == [] <== forall at :: !IsWanted(hay, needle, wholeWord, at)
    ensures !wholeWord || !SelfOverlaps(needle) ==>
              (SpansIn(hay, needle, wholeWord) == [] ==> forall at :: !IsWanted(hay, needle, wholeWord, at))
  {
    PlainSpansExact(hay, needle);
    SpansAreWanted(hay, needle, wholeWord);
    var s := SpansIn(hay, needle, wholeWord);
    assert s != [] ==> s[0] in s;
    if wholeWord && !SelfOverlaps(needle) {
      forall at | IsWanted(hay, needle, true, at) ensures s != [] { WantedIsFound(hay, needle, at); }
    }
  }

  // ---------------------------------------------------------------- words, character by character

  predicate IsSign(c: char) {
    || c == ' ' || c == '~' || c == '!' || c == '@' || c == '#' || c == '$' || c == '%' || c == '^' || c == '&' ||
       c == '*'
    || c == '(' || c == ')' || c == '+' || c == '`' || c == '-' || c == '=' || c == '[' || c == ']' || c == '{' ||
       c == '}'
    || c == '|' || c == '\\' || c == ';' || c == ':' || c == '"' || c == '\'' || c == ',' || c == '.' || c == '/'
    || c == '<' || c == '>' || c == '?'
  }

  lemma {:induction false} SignsEndWords(c: char)
    ensures IsNonWord(c) <==> IsSign(c)
  {
  }

  predicate IsWordChar(c: char) {
    'a' <= c <= 'z' || 'A' <= c <= 'Z' || '0' <= c <= '9' || c == '_'
  }

  /** Nothing of the line stands there, or a sign. */
  predicate EndsWord(line: string, at: int) {
    0 <= at < |line| ==> IsSign(line[at])
  }

  predicate SameChar(a: char, b: char, caseSensitive: bool) {
    || a == b
    || (!caseSensitive && (('A' <= a <= 'Z' && b as int == a as int + 32) || ('A' <= b <= 'Z' && a as int == b as int + 32)))
  }

  /** The term stands at the index, up to case unless case matters. */
  predicate Stands(line: string, term: string, opts: Options, at: int) {
    0 <= at <= |line| - |term| && forall i :: 0 <= i < |term| ==> SameChar(line[at + i], term[i], opts.caseSensitive)
  }

  predicate StandsAlone(line: string, term: string, opts: Options, at: int) {
    Stands(line, term, opts, at) && EndsWord(line, at - 1) && EndsWord(line, at + |term|)
  }

  predicate AgainAt(term: string, opts: Options, d: int) {
    0 < d < |term| && IsSign(term[d - 1]) && Stands(term, term[..|term| - d], opts, d)
  }

  /** The term can begin again inside itself behind a sign. */
  predicate BeginsAgain(term: string, opts: Options) {
    exists d | 0 < d < |term| :: AgainAt(term, opts, d)
  }

  lemma {:induction false} CasedChar(a: char, b: char, opts: Options)
    ensures Cased([a], opts)[0] == Cased([b], opts)[0] <==> SameChar(a, b, opts.caseSensitive)
    ensures IsSign(Cased([a], opts)[0]) <==> IsSign(a)
  {
    SignsEndWords(a);
    SignsEndWords(Cased([a], opts)[0]);
  }

  lemma {:induction false} CasedAt(s: string, opts: Options, i: nat)
    requires i < |s|
    ensures Cased(s, opts)[i] == Cased([s[i]], opts)[0]
  {
  }

  lemma {:induction false} StandsExactly(line: string, term: string, opts: Options, at: int)
    ensures Texts.IsAt(Cased(line, opts), Cased(term, opts), at) <==> Stands(line, term, opts, at)
  {
    var hay, needle := Cased(line, opts), Cased(term, opts);
    if 0 <= at <= |line| - |term| {
      forall i: nat | i < |term|
        ensures hay[at + i] == needle[i] <==> SameChar(line[at + i], term[i], opts.caseSensitive)
      {
        CasedAt(line, opts, at + i);
        CasedAt(term, opts, i);
        CasedChar(line[at + i], term[i], opts);
      }
      assert hay[at..at + |needle|] == needle <==> forall i :: 0 <= i < |term| ==> hay[at + i] == needle[i];
    }
  }

  lemma {:induction false} CasedEnds(line: string, opts: Options, at: int)
    ensures EndsWord(Cased(line, opts), at) <==> EndsWord(line, at)
  {
    if 0 <= at < |line| {
      CasedAt(line, opts, at);
      CasedChar(line[at], line[at], opts);
    }
  }

  lemma {:induction false} WholeWordExactly(line: string, index: nat, len: nat)
    requires index <= |line|
    ensures IsWholeWord(line, index, len) <==> EndsWord(line, index - 1) && EndsWord(line, index + len)
  {
    if index > 0 { SignsEndWords(line[index - 1]); }
    if index + len < |line| { SignsEndWords(line[index + len]); }
  }

  lemma {:induction false} AloneExactly(line: string, opts: Options, at: nat, len: nat)
    requires at <= |line|
    ensures IsWholeWord(Cased(line, opts), at, len) <==> EndsWord(line, at - 1) && EndsWord(line, at + len)
  {
    WholeWordExactly(Cased(line, opts), at, len);
    CasedEnds(line, opts, at - 1);
    CasedEnds(line, opts, at + len);
  }

  lemma {:induction false} WantedExactly(line: string, term: string, opts: Options, at: int)
    ensures IsWanted(Cased(line, opts), Cased(term, opts), opts.wholeWord, at)
       <==> if opts.wholeWord then StandsAlone(line, term, opts, at) else Stands(line, term, opts, at)
  {
    StandsExactly(line, term, opts, at);
    if Stands(line, term, opts, at) { AloneExactly(line, opts, at, |term|); }
  }

  lemma {:induction false} BeginsAgainAt(term: string, opts: Options, d: nat)
    requires 0 < d < |term|
    ensures OverlapsAt(Cased(term, opts), d) <==> AgainAt(term, opts, d)
  {
    var needle, head := Cased(term, opts), term[..|term| - d];
    StandsExactly(term, head, opts, d);
    assert Cased(head, opts) == needle[..|term| - d];
    CasedAt(term, opts, d - 1);
    CasedChar(term[d - 1], term[d - 1], opts);
    SignsEndWords(needle[d - 1]);
  }

  lemma {:induction false} BeginsAgainExactly(term: string, opts: Options)
    ensures SelfOverlaps(Cased(term, opts)) <==> BeginsAgain(term, opts)
  {
    forall d: nat | 0 < d < |term|
      ensures OverlapsAt(Cased(term, opts), d) <==> AgainAt(term, opts, d)
    {
      BeginsAgainAt(term, opts, d);
    }
  }

  /** Whatever is found stands in the line itself, a whole word between signs or the line's ends. */
  lemma {:induction false} SpansAreWords(line: string, term: string, opts: Options, s: Span)
    requires s in SpansInLine(line, term, opts)
    ensures s.length == |term| && Stands(line, term, opts, s.offset)
    ensures opts.wholeWord ==> StandsAlone(line, term, opts, s.offset)
  {
    SpansAreWanted(Cased(line, opts), Cased(term, opts), opts.wholeWord);
    WantedExactly(line, term, opts, s.offset);
  }

  /** So no letter, digit or underscore touches it. */
  lemma {:induction false} NoWordTouches(line: string, term: string, opts: Options, at: int)
    requires StandsAlone(line, term, opts, at)
    ensures at > 0 ==> !IsWordChar(line[at - 1])
    ensures at + |term| < |line| ==> !IsWordChar(line[at + |term|])
  {
    assert at > 0 ==> EndsWord(line, at - 1);
  }

  /** A whole-word search for a term that does not begin again inside itself finds exactly the places where it stands
      between signs or the line's ends. */
  lemma {:induction false} WordSpansExactly(line: string, term: string, opts: Options, at: nat)
    requires opts.wholeWord && term != "" && !BeginsAgain(term, opts)
    ensures Span(at, |term|) in SpansInLine(line, term, opts) <==> StandsAlone(line, term, opts, at)
  {
    var hay, needle := Cased(line, opts), Cased(term, opts);
    assert needle != "";
    BeginsAgainExactly(term, opts);
    WantedExactly(line, term, opts, at);
    if StandsAlone(line, term, opts, at) { WantedIsFound(hay, needle, at); }
    if Span(at, |term|) in SpansInLine(line, term, opts) { SpansAreWords(line, term, opts, Span(at, |term|)); }
  }

  /** A plain search misses nothing: wherever the term stands, a span is found that starts there or covers the start. */
  lemma {:induction false} PlainSpansCover(line: string, term: string, opts: Options, at: nat)
    requires !opts.wholeWord && term != "" && Stands(line, term, opts, at)
    ensures exists k :: Covers(SpansInLine(line, term, opts), k, at)
  {
    var needle := Cased(term, opts);
    assert needle != "";
    StandsExactly(line, term, opts, at);
    PlainSpansExact(Cased(line, opts), needle);
    assert Texts.IsAt(Cased(line, opts), needle, at);
    var k :| Covers(SpansIn(Cased(line, opts), needle, false), k, at);
    assert Covers(SpansInLine(line, term, opts), k, at);
  }

  lemma {:induction false} ErrStandsInFront(opts: Options, at: int)
    requires Stands("error", "err", opts, at)
    ensures at == 0
  {
    assert SameChar("error"[at + 0], "err"[0], opts.caseSensitive);
  }

  /** The row "error" holds no whole word "err". */
  lemma {:induction false} ErrInError(opts: Options)
    requires opts.wholeWord
    ensures SpansInLine("error", "err", opts) == []
  {
    var found := SpansInLine("error", "err", opts);
    assert !EndsWord("error", 3);
    if found != [] {
      SpansAreWords("error", "err", opts, found[0]);
      ErrStandsInFront(opts, found[0].offset);
    }
  }

  // ---------------------------------------------------------------- matches in the buffer

  datatype BufferRow = BufferRow(text: string, wrapped: bool)

  datatype Pos = Pos(row: nat, col: nat, length: nat)

  /** The first row after the block that starts at the given row. */
  function BlockEnd(buffer: seq<BufferRow>, row: nat): (end: nat)
    requires row < |buffer|
    ensures row < end <= |buffer|
    ensures forall y :: row < y < end ==> buffer[y].wrapped
    ensures end < |buffer| ==> !buffer[end].wrapped
    decreases |buffer| - row
  {
    if row + 1 < |buffer| && buffer[row + 1].wrapped then BlockEnd(buffer, row + 1) else row + 1
  }

  function RowsText(buffer: seq<BufferRow>, from: nat, to: nat): string
    requires from <= to <= |buffer|
  {
    if from == to then "" else RowsText(buffer, from, to - 1) + buffer[to - 1].text
  }

  method UnwrappedLineText(buffer: seq<BufferRow>, row: nat) returns (block: Option<(string, nat)>)
    ensures block.None? <==> row >= |buffer| || buffer[row].wrapped
    ensures block.Some? ==>
              block.value.1 == BlockEnd(buffer, row) - row && block.value.0 == RowsText(buffer, row, BlockEnd(buffer, row))
  {
    if row >= |buffer| || buffer[row].wrapped { return None; }
    var text := buffer[row].text;
    var rowCount := 1;
    assert RowsText(buffer, row, row) == "";
    while row + rowCount < |buffer| && buffer[row + rowCount].wrapped
      invariant 1 <= rowCount && row + rowCount <= BlockEnd(buffer, row)
      invariant text == RowsText(buffer, row, row + rowCount)
      decreases |buffer| - rowCount
    {
      text := text + buffer[row + rowCount].text;
      rowCount := rowCount + 1;
    }
    return Some((text, rowCount));
  }

  function OffsetToBufferPos(startRow: nat, span: Span, cols: nat): Pos
    requires cols >= 1
  {
    Pos(startRow + span.offset / cols, span.offset % cols, span.length)
  }

  function Positions(startRow: nat, spans: seq<Span>, cols: nat): (r: seq<Pos>)
    requires cols >= 1
    ensures |r| == |spans| && forall k :: 0 <= k < |spans| ==> r[k] == OffsetToBufferPos(startRow, spans[k], cols)
  {
    seq(|spans|, k requires 0 <= k < |spans| => OffsetToBufferPos(startRow, spans[k], cols))
  }

  /** One search: the buffer, its width, the text and the options. */
  datatype Query = Query(buffer: seq<BufferRow>, cols: nat, text: string, opts: Options)

  /** Rows hold at most the buffer's width. */
  ghost predicate Fits(q: Query) {
    q.cols >= 1 && forall y :: 0 <= y < |q.buffer| ==> |q.buffer[y].text| <= q.cols
  }

  predicate Before(p: Pos, q: Pos) {
    p.row < q.row || (p.row == q.row && p.col < q.col)
  }

  predicate AtOrAfter(p: Pos, row: int, col: int, inclusive: bool) {
    if p.row != row then p.row > row else if inclusive then p.col >= col else p.col > col
  }

  predicate AtOrBefore(p: Pos, row: int, col: int, inclusive: bool) {
    if p.row != row then p.row < row else if inclusive then p.col <= col else p.col < col
  }

  // ---------------------------------------------------------------- all matches, row by row

  function BlockSpans(q: Query, y: nat): seq<Span>
    requires y < |q.buffer|
  {
    SpansInLine(RowsText(q.buffer, y, BlockEnd(q.buffer, y)), q.text, q.opts)
  }

  /** The matches of the block that starts at a row; a continuation row starts none. */
  function MatchesAt(q: Query, y: nat): seq<Pos>
    requires q.cols >= 1 && y < |q.buffer|
  {
    if q.buffer[y].wrapped then [] else Positions(y, BlockSpans(q, y), q.cols)
  }

  function Matches(q: Query): (m: seq<seq<Pos>>)
    requires q.cols >= 1
    ensures |m| == |q.buffer| && forall y :: 0 <= y < |m| ==> m[y] == MatchesAt(q, y)
  {
    seq(|q.buffer|, y requires 0 <= y < |q.buffer| => MatchesAt(q, y))
  }

  ghost predicate IsMatch(m: seq<seq<Pos>>, y: int, k: int, p: Pos) {
    0 <= y < |m| && 0 <= k < |m[y]| && m[y][k] == p
  }

  /** Row r belongs to the block that starts at row y. */
  ghost predicate SameBlock(buffer: seq<BufferRow>, y: int, r: int) {
    0 <= y <= r < |buffer| && forall z :: y < z <= r ==> buffer[z].wrapped
  }

  /** Matches lie on the rows of their own block, inside the width, in reading order. */
  ghost predicate Placed(buffer: seq<BufferRow>, cols: nat, m: seq<seq<Pos>>) {
    && |m| == |buffer|
    && (forall y, k, p :: IsMatch(m, y, k, p) ==> !buffer[y].wrapped && SameBlock(buffer, y, p.row) && p.col < cols)
    && (forall y, k, l, p, r :: IsMatch(m, y, k, p) && IsMatch(m, y, l, r) && k < l ==> Before(p, r))
  }

  lemma {:induction false} RowsTextFits(q: Query, from: nat, to: nat)
    requires Fits(q) && from <= to <= |q.buffer|
    ensures |RowsText(q.buffer, from, to)| <= (to - from) * q.cols
  {
    if from < to {
      RowsTextFits(q, from, to - 1);
      assert (to - from) * q.cols == (to - 1 - from) * q.cols + q.cols;
    }
  }

  lemma {:induction false} OffsetOrder(a: nat, b: nat, cols: nat)
    requires cols >= 1 && a < b
    ensures a / cols < b / cols || (a / cols == b / cols && a % cols < b % cols)
  {
    assert a == cols * (a / cols) + a % cols && b == cols * (b / cols) + b % cols;
    assert cols * (b / cols + 1) == cols * (b / cols) + cols;
    if a / cols > b / cols { Numbers.TimesMonotone(cols, b / cols + 1, a / cols); }
  }

  lemma {:induction false} RowInBlock(offset: nat, cols: nat, height: nat)
    requires cols >= 1 && offset < height * cols
    ensures offset / cols < height
  {
    assert offset == cols * (offset / cols) + offset % cols;
    if offset / cols >= height { Numbers.TimesMonotone(cols, height, offset / cols); }
  }

  lemma {:induction false} SpansInLineAscend(line: string, term: string, opts: Options)
    ensures var s := SpansInLine(line, term, opts);
            && (forall k :: 0 <= k < |s| ==> s[k].offset < |line|)
            && (forall k, l :: 0 <= k < l < |s| ==> s[k].offset < s[l].offset)
  {
    if term != "" {
      var hay, needle := Cased(line, opts), Cased(term, opts);
      assert needle != "";
      SpansAscend(Finder(hay, needle), Counter(hay, needle, opts.wholeWord), |needle|, |hay|, 0);
    }
  }

  lemma {:induction false} PositionsPlaced(y: nat, height: nat, spans: seq<Span>, cols: nat)
    requires cols >= 1
    requires forall k :: 0 <= k < |spans| ==> spans[k].offset < height * cols
    requires forall k, l :: 0 <= k < l < |spans| ==> spans[k].offset < spans[l].offset
    ensures var m := Positions(y, spans, cols);
            && (forall k :: 0 <= k < |m| ==> y <= m[k].row < y + height && m[k].col < cols)
            && (forall k, l :: 0 <= k < l < |m| ==> Before(m[k], m[l]))
  {
    var m := Positions(y, spans, cols);
    forall k | 0 <= k < |m|
      ensures y <= m[k].row < y + height && m[k].col < cols
    {
      RowInBlock(spans[k].offset, cols, height);
    }
    forall k, l | 0 <= k < l < |m| ensures Before(m[k], m[l]) { OffsetOrder(spans[k].offset, spans[l].offset, cols); }
  }

  ghost predicate BlockPlaced(y: nat, end: nat, cols: nat, hits: seq<Pos>) {
    && (forall k :: 0 <= k < |hits| ==> y <= hits[k].row < end && hits[k].col < cols)
    && (forall k, l :: 0 <= k < l < |hits| ==> Before(hits[k], hits[l]))
  }

  lemma {:induction false} BlockIsPlaced(q: Query, y: nat)
    requires Fits(q) && y < |q.buffer|
    ensures BlockPlaced(y, BlockEnd(q.buffer, y), q.cols, MatchesAt(q, y))
  {
    var end := BlockEnd(q.buffer, y);
    var text := RowsText(q.buffer, y, end);
    RowsTextFits(q, y, end);
    SpansInLineAscend(text, q.text, q.opts);
    var spans := SpansInLine(text, q.text, q.opts);
    PositionsPlaced(y, end - y, spans, q.cols);
    assert BlockPlaced(y, end, q.cols, Positions(y, spans, q.cols));
  }

  lemma {:induction false} MatchesArePlaced(q: Query)
    requires Fits(q)
    ensures Placed(q.buffer, q.cols, Matches(q))
  {
    var m: seq<seq<Pos>> := Matches(q);
    forall y: nat | y < |m|
      ensures BlockPlaced(y, BlockEnd(q.buffer, y), q.cols, m[y])
      ensures q.buffer[y].wrapped ==> m[y] == []
    {
      BlockIsPlaced(q, y);
    }
    PlacedBlockByBlock(q.buffer, q.cols, m);
  }

  lemma {:induction false} PlacedBlockByBlock(buffer: seq<BufferRow>, cols: nat, m: seq<seq<Pos>>)
    requires |m| == |buffer|
    requires forall y: nat :: y < |m| ==> BlockPlaced(y, BlockEnd(buffer, y), cols, m[y])
    requires forall y: nat :: y < |m| && buffer[y].wrapped ==> m[y] == []
    ensures Placed(buffer, cols, m)
  {
    forall y, k, p | IsMatch(m, y, k, p)
      ensures !buffer[y].wrapped && SameBlock(buffer, y, p.row) && p.col < cols
    {
      assert BlockPlaced(y, BlockEnd(buffer, y), cols, m[y]);
    }
    forall y, k, l, p, r | IsMatch(m, y, k, p) && IsMatch(m, y, l, r) && k < l
      ensures Before(p, r)
    {
      assert BlockPlaced(y, BlockEnd(buffer, y), cols, m[y]);
    }
  }

  /** Matches are totally ordered by where they start. */
  lemma {:induction false} MatchesOrdered(buffer: seq<BufferRow>, cols: nat, m: seq<seq<Pos>>, y: int, k: int, p: Pos,
                                          z: int, l: int, r: Pos)
    requires Placed(buffer, cols, m) && IsMatch(m, y, k, p) && IsMatch(m, z, l, r)
    requires y < z || (y == z && k < l)
    ensures Before(p, r)
  {
  }

  // ---------------------------------------------------------------- where the text stands

  datatype Cell = Cell(row: nat, col: nat)

  /** The cell that holds a character of the unwrapped line, counting each row's own length. */
  function CellOf(buffer: seq<BufferRow>, y: nat, offset: nat): Cell
    decreases |buffer| - y
  {
    if y < |buffer| && offset >= |buffer[y].text| then CellOf(buffer, y + 1, offset - |buffer[y].text|) else Cell(y, offset)
  }

  lemma {:induction false} FirstRowInFront(buffer: seq<BufferRow>, y: nat, end: nat)
    requires y < end <= |buffer|
    ensures RowsText(buffer, y, end) == buffer[y].text + RowsText(buffer, y + 1, end)
  {
    if end == y + 1 {
      assert RowsText(buffer, y, y) == "" && "" + buffer[y].text == buffer[y].text + "";
    } else {
      FirstRowInFront(buffer, y, end - 1);
      assert buffer[y].text + RowsText(buffer, y + 1, end - 1) + buffer[end - 1].text
          == buffer[y].text + (RowsText(buffer, y + 1, end - 1) + buffer[end - 1].text);
    }
  }

  lemma {:induction false} CellHolds(buffer: seq<BufferRow>, y: nat, end: nat, offset: nat)
    requires y <= end <= |buffer| && offset < |RowsText(buffer, y, end)|
    ensures var c := CellOf(buffer, y, offset);
            && y <= c.row < end && c.col < |buffer[c.row].text|
            && buffer[c.row].text[c.col] == RowsText(buffer, y, end)[offset]
    decreases end - y
  {
    assert y < end;
    FirstRowInFront(buffer, y, end);
    if offset >= |buffer[y].text| { CellHolds(buffer, y + 1, end, offset - |buffer[y].text|); }
  }

  lemma {:induction false} ShortRowsShift(q: Query, y: nat, end: nat, offset: nat)
    requires Fits(q) && y <= end <= |q.buffer| && offset < |RowsText(q.buffer, y, end)|
    ensures var c := CellOf(q.buffer, y, offset); c.row >= y && offset <= (c.row - y) * q.cols + c.col
    decreases end - y
  {
    assert y < end;
    FirstRowInFront(q.buffer, y, end);
    if offset >= |q.buffer[y].text| {
      ShortRowsShift(q, y + 1, end, offset - |q.buffer[y].text|);
      var c := CellOf(q.buffer, y, offset);
      assert (c.row - y) * q.cols == (c.row - (y + 1)) * q.cols + q.cols;
    }
  }

  lemma {:induction false} Divided(a: nat, d: nat, x: nat, r: nat)
    requires d >= 1 && r < d
    ensures (a / d == x && a % d == r) <==> a == x * d + r
  {
    assert a == d * (a / d) + a % d;
    if a == x * d + r {
      assert d * (x + 1) == d * x + d && d * (a / d + 1) == d * (a / d) + d;
      if a / d > x { Numbers.TimesMonotone(d, x + 1, a / d); }
      if a / d < x { Numbers.TimesMonotone(d, a / d + 1, x); }
    }
  }

  ghost predicate FullRows(q: Query, from: nat, to: nat) {
    forall z :: from <= z < to && z < |q.buffer| ==> |q.buffer[z].text| == q.cols
  }

  lemma {:induction false} FullRowsExact(q: Query, y: nat, end: nat, offset: nat)
    requires Fits(q) && y <= end <= |q.buffer| && offset < |RowsText(q.buffer, y, end)|
    ensures var c := CellOf(q.buffer, y, offset);
            c.row >= y && (offset == (c.row - y) * q.cols + c.col <==> FullRows(q, y, c.row))
    decreases end - y
  {
    assert y < end;
    FirstRowInFront(q.buffer, y, end);
    if offset >= |q.buffer[y].text| {
      var rest := offset - |q.buffer[y].text|;
      FullRowsExact(q, y + 1, end, rest);
      ShortRowsShift(q, y + 1, end, rest);
      var c := CellOf(q.buffer, y, offset);
      assert (c.row - y) * q.cols == (c.row - (y + 1)) * q.cols + q.cols;
      assert FullRows(q, y, c.row) <==> |q.buffer[y].text| == q.cols && FullRows(q, y + 1, c.row);
    }
  }

  lemma {:induction false} ReportedExactly(q: Query, y: nat, end: nat, offset: nat)
    requires Fits(q) && y <= end <= |q.buffer| && offset < |RowsText(q.buffer, y, end)|
    ensures var c := CellOf(q.buffer, y, offset);
            Cell(y + offset / q.cols, offset % q.cols) == c <==> FullRows(q, y, c.row)
  {
    CellHolds(q.buffer, y, end, offset);
    FullRowsExact(q, y, end, offset);
    var c := CellOf(q.buffer, y, offset);
    Divided(offset, q.cols, c.row - y, c.col);
  }

  /** The text of a match stands at the reported cell exactly when all rows of its block above the cell that holds it are
      full: a row that was wrapped early shifts every match below it. */
  lemma {:induction false} MatchStandsWhereReported(q: Query, y: nat, k: nat)
    requires Fits(q) && y < |q.buffer| && !q.buffer[y].wrapped && k < |BlockSpans(q, y)|
    ensures var span, p := BlockSpans(q, y)[k], MatchesAt(q, y)[k];
            var text, c := RowsText(q.buffer, y, BlockEnd(q.buffer, y)), CellOf(q.buffer, y, span.offset);
            && span.offset < |text|
            && y <= c.row < BlockEnd(q.buffer, y) && c.col < |q.buffer[c.row].text|
            && q.buffer[c.row].text[c.col] == text[span.offset]
            && (Cell(p.row, p.col) == c <==> FullRows(q, y, c.row))
  {
    var end := BlockEnd(q.buffer, y);
    var offset := BlockSpans(q, y)[k].offset;
    SpansInLineAscend(RowsText(q.buffer, y, end), q.text, q.opts);
    CellHolds(q.buffer, y, end, offset);
    ReportedExactly(q, y, end, offset);
  }

  /** In rows "ab" and "cd" of width 5 the match "cd" is reported behind the first row's text. */
  lemma {:induction false} ShiftedMatch()
    ensures var q := Query([BufferRow("ab", false), BufferRow("cd", true)], 5, "cd", Options(true, false));
            MatchesAt(q, 0) == [Pos(0, 2, 2)] && CellOf(q.buffer, 0, 2) == Cell(1, 0)
  {
    var q := Query([BufferRow("ab", false), BufferRow("cd", true)], 5, "cd", Options(true, false));
    assert BlockEnd(q.buffer, 1) == 2 && BlockEnd(q.buffer, 0) == 2;
    assert RowsText(q.buffer, 0, 0) == "" && RowsText(q.buffer, 0, 1) == "ab" && RowsText(q.buffer, 0, 2) == "abcd";
    CdInAbcd();
    assert BlockSpans(q, 0) == [Span(2, 2)];
  }

  lemma {:induction false} CdInAbcd()
    ensures SpansIn("abcd", "cd", false) == [Span(2, 2)]
  {
    var hay, needle := "abcd", "cd";
    assert hay[0..2][0] == 'a' && hay[1..3][0] == 'b' && needle[0] == 'c' && hay[2..4] == needle;
    assert Texts.IndexOf(hay, needle, 2) == 2;
    assert Texts.IndexOf(hay, needle, 1) == 2;
    assert Texts.IndexOf(hay, needle, 0) == 2;
    var find := Finder(hay, needle);
    assert find(0) == 2 && find(4) == -1;
    assert Spans(find, Everywhere(), 2, 4, 4) == [];
    assert Spans(find, Everywhere(), 2, 4, 0) == [Span(2, 2)] + Spans(find, Everywhere(), 2, 4, 4);
  }

  // ---------------------------------------------------------------- scanning

  method UnwrappedStart(buffer: seq<BufferRow>, row: nat) returns (y: nat)
    requires row < |buffer|
    ensures SameBlock(buffer, y, row) && (y == 0 || !buffer[y].wrapped)
  {
    y := row;
    while y > 0
      invariant SameBlock(buffer, y, row)
    {
      if !buffer[y].wrapped { break; }
      y := y - 1;
    }
  }

  ghost predicate DescribesRow(q: Query, m: seq<seq<Pos>>, y: nat)
    requires q.cols >= 1 && y < |m| == |q.buffer|
  {
    m[y] == MatchesAt(q, y)
  }

  /** m is the table of all matches. */
  ghost predicate Describes(q: Query, m: seq<seq<Pos>>)
    requires q.cols >= 1
  {
    |m| == |q.buffer| && forall y: nat | y < |m| :: DescribesRow(q, m, y)
  }

  method MatchesOnBlock(q: Query, ghost m: seq<seq<Pos>>, y: nat, text: string) returns (hits: seq<Pos>)
    requires q.cols >= 1 && y < |q.buffer| && !q.buffer[y].wrapped && Describes(q, m)
    requires text == RowsText(q.buffer, y, BlockEnd(q.buffer, y))
    ensures hits == m[y]
  {
    var spans := MatchSpansInLine(text, q.text, q.opts);
    hits := Positions(y, spans, q.cols);
    assert DescribesRow(q, m, y);
  }

  /** No match that starts in a block headed by a row of [from, to) passes the test. */
  ghost predicate NoneIn(m: seq<seq<Pos>>, from: int, to: int, test: Pos -> bool) {
    forall y, k, p :: from <= y < to && IsMatch(m, y, k, p) ==> !test(p)
  }

  /** The least match that passes the test. */
  ghost predicate IsFirst(m: seq<seq<Pos>>, p: Pos, test: Pos -> bool) {
    && (exists y, k :: IsMatch(m, y, k, p))
    && test(p)
    && forall y, k, r :: IsMatch(m, y, k, r) && test(r) ==> r == p || Before(p, r)
  }

  /** The greatest match that passes the test. */
  ghost predicate IsLast(m: seq<seq<Pos>>, p: Pos, test: Pos -> bool) {
    && (exists y, k :: IsMatch(m, y, k, p))
    && test(p)
    && forall y, k, r :: IsMatch(m, y, k, r) && test(r) ==> r == p || Before(r, p)
  }

  ghost function After(row: int, col: int, inclusive: bool): Pos -> bool {
    p => AtOrAfter(p, row, col, inclusive)
  }

  ghost function UpTo(row: int, col: int, inclusive: bool): Pos -> bool {
    p => AtOrBefore(p, row, col, inclusive)
  }

  method FirstHit(hits: seq<Pos>, row: int, col: int, inclusive: bool) returns (hit: nat)
    ensures hit <= |hits| && (hit < |hits| ==> AtOrAfter(hits[hit], row, col, inclusive))
    ensures forall k :: 0 <= k < hit ==> !AtOrAfter(hits[k], row, col, inclusive)
  {
    hit := 0;
    while hit < |hits|
      invariant hit <= |hits|
      invariant forall k :: 0 <= k < hit ==> !AtOrAfter(hits[k], row, col, inclusive)
    {
      if AtOrAfter(hits[hit], row, col, inclusive) { return; }
      hit := hit + 1;
    }
  }

  method LastHit(hits: seq<Pos>, row: int, col: int, inclusive: bool) returns (hit: int)
    ensures -1 <= hit < |hits| && (hit >= 0 ==> AtOrBefore(hits[hit], row, col, inclusive))
    ensures forall k :: hit < k < |hits| ==> !AtOrBefore(hits[k], row, col, inclusive)
  {
    hit := |hits| - 1;
    while hit >= 0
      invariant -1 <= hit < |hits|
      invariant forall k :: hit < k < |hits| ==> !AtOrBefore(hits[k], row, col, inclusive)
    {
      if AtOrBefore(hits[hit], row, col, inclusive) { return; }
      hit := hit - 1;
    }
  }

  lemma {:induction false} FirstInBlock(buffer: seq<BufferRow>, cols: nat, m: seq<seq<Pos>>, y: nat, k: nat, p: Pos,
                                        test: Pos -> bool)
    requires Placed(buffer, cols, m) && IsMatch(m, y, k, p) && test(p) && NoneIn(m, 0, y, test)
    requires forall j :: 0 <= j < k ==> !test(m[y][j])
    ensures IsFirst(m, p, test)
  {
    forall z, l, r | IsMatch(m, z, l, r) && test(r)
      ensures r == p || Before(p, r)
    {
      if z > y || (z == y && l > k) { MatchesOrdered(buffer, cols, m, y, k, p, z, l, r); }
    }
  }

  lemma {:induction false} LastInBlock(buffer: seq<BufferRow>, cols: nat, m: seq<seq<Pos>>, y: nat, k: nat, p: Pos,
                                       test: Pos -> bool)
    requires Placed(buffer, cols, m) && IsMatch(m, y, k, p) && test(p) && NoneIn(m, y + 1, |m|, test)
    requires forall j :: k < j < |m[y]| ==> !test(m[y][j])
    ensures IsLast(m, p, test)
  {
    forall z, l, r | IsMatch(m, z, l, r) && test(r)
      ensures r == p || Before(r, p)
    {
      if z < y || (z == y && l < k) { MatchesOrdered(buffer, cols, m, z, l, r, y, k, p); }
    }
  }

  /** Matches of the blocks before the one that holds the start lie above the start. */
  lemma {:induction false} EarlierBlocksAbove(buffer: seq<BufferRow>, cols: nat, m: seq<seq<Pos>>, y: nat, row: nat,
                                              col: int, inclusive: bool)
    requires Placed(buffer, cols, m) && y <= row < |buffer| && (y == 0 || !buffer[y].wrapped)
    ensures NoneIn(m, 0, y, After(row, col, inclusive))
  {
  }

  lemma {:induction false} LaterBlocksBelow(buffer: seq<BufferRow>, cols: nat, m: seq<seq<Pos>>, y: nat, row: nat,
                                            col: int, inclusive: bool)
    requires Placed(buffer, cols, m) && SameBlock(buffer, y, row)
    ensures NoneIn(m, y + 1, |m|, UpTo(row, col, inclusive))
  {
  }

  /** A row without a block, and the wrapped rows of a block, start no match. */
  lemma {:induction false} TailRowsAreEmpty(buffer: seq<BufferRow>, cols: nat, m: seq<seq<Pos>>, y: nat, height: nat,
                                            test: Pos -> bool)
    requires Placed(buffer, cols, m) && y + height <= |buffer|
    requires forall z :: y < z < y + height ==> buffer[z].wrapped
    requires y < |buffer| && forall k :: 0 <= k < |m[y]| ==> !test(m[y][k])
    requires NoneIn(m, 0, y, test)
    ensures NoneIn(m, 0, y + height, test)
  {
  }

  lemma {:induction false} NoneFromRow(m: seq<seq<Pos>>, y: nat, test: Pos -> bool)
    requires y < |m| && NoneIn(m, y + 1, |m|, test)
    requires forall k :: 0 <= k < |m[y]| ==> !test(m[y][k])
    ensures NoneIn(m, y, |m|, test)
  {
  }

  lemma {:induction false} WrappedRowsStartNone(buffer: seq<BufferRow>, cols: nat, m: seq<seq<Pos>>, y: nat)
    requires Placed(buffer, cols, m) && y < |buffer| && buffer[y].wrapped
    ensures m[y] == []
  {
    assert |m[y]| > 0 ==> IsMatch(m, y, 0, m[y][0]);
  }

  method FirstHitOnRow(q: Query, ghost m: seq<seq<Pos>>, y: nat, text: string, row: int, col: int, inclusive: bool)
    returns (hit: Option<Pos>)
    requires Fits(q) && Describes(q, m) && Placed(q.buffer, q.cols, m)
    requires y < |q.buffer| && !q.buffer[y].wrapped && text == RowsText(q.buffer, y, BlockEnd(q.buffer, y))
    requires NoneIn(m, 0, y, After(row, col, inclusive))
    ensures hit.Some? ==> IsFirst(m, hit.value, After(row, col, inclusive))
    ensures hit.None? ==> NoneIn(m, 0, BlockEnd(q.buffer, y), After(row, col, inclusive))
  {
    var hits := MatchesOnBlock(q, m, y, text);
    var found := FirstHit(hits, row, col, inclusive);
    if found < |hits| {
      FirstInBlock(q.buffer, q.cols, m, y, found, hits[found], After(row, col, inclusive));
      return Some(hits[found]);
    }
    TailRowsAreEmpty(q.buffer, q.cols, m, y, BlockEnd(q.buffer, y) - y, After(row, col, inclusive));
    return None;
  }

  method LastHitOnRow(q: Query, ghost m: seq<seq<Pos>>, y: nat, text: string, row: int, col: int, inclusive: bool)
    returns (hit: Option<Pos>)
    requires Fits(q) && Describes(q, m) && Placed(q.buffer, q.cols, m)
    requires y < |q.buffer| && !q.buffer[y].wrapped && text == RowsText(q.buffer, y, BlockEnd(q.buffer, y))
    requires NoneIn(m, y + 1, |m|, UpTo(row, col, inclusive))
    ensures hit.Some? ==> IsLast(m, hit.value, UpTo(row, col, inclusive))
    ensures hit.None? ==> NoneIn(m, y, |m|, UpTo(row, col, inclusive))
  {
    var hits := MatchesOnBlock(q, m, y, text);
    var found := LastHit(hits, row, col, inclusive);
    if found >= 0 {
      LastInBlock(q.buffer, q.cols, m, y, found, hits[found], UpTo(row, col, inclusive));
      return Some(hits[found]);
    }
    NoneFromRow(m, y, UpTo(row, col, inclusive));
    return None;
  }

  /** Forward scan; rowsVisited only decides where the scan yields. */
  method ScanForward(q: Query, ghost m: seq<seq<Pos>>, fromRow: nat, fromCol: int, inclusive: bool,
                     stopBeforeRow: Option<nat>, linesPerSlice: int)
    returns (hit: Option<Pos>)
    requires Fits(q) && Describes(q, m) && Placed(q.buffer, q.cols, m) && fromRow < |q.buffer|
    ensures hit.Some? ==> IsFirst(m, hit.value, After(fromRow, fromCol, inclusive))
    ensures hit.None? ==>
              NoneIn(m, 0, if stopBeforeRow.Some? && stopBeforeRow.value < |m| then stopBeforeRow.value else |m|,
                     After(fromRow, fromCol, inclusive))
  {
    var y := UnwrappedStart(q.buffer, fromRow);
    EarlierBlocksAbove(q.buffer, q.cols, m, y, fromRow, fromCol, inclusive);
    var rowsVisited := 0;
    while y < |q.buffer|
      invariant y <= |q.buffer|
      invariant NoneIn(m, 0, y, After(fromRow, fromCol, inclusive))
    {
      if stopBeforeRow.Some? && y >= stopBeforeRow.value { return None; }
      var block := UnwrappedLineText(q.buffer, y);
      if block.None? {
        WrappedRowsStartNone(q.buffer, q.cols, m, y);
        TailRowsAreEmpty(q.buffer, q.cols, m, y, 1, After(fromRow, fromCol, inclusive));
        y := y + 1;
        rowsVisited := rowsVisited + 1;
      } else {
        hit := FirstHitOnRow(q, m, y, block.value.0, fromRow, fromCol, inclusive);
        if hit.Some? { return; }
        y := y + block.value.1;
        rowsVisited := rowsVisited + block.value.1;
      }
      if rowsVisited >= linesPerSlice { rowsVisited := 0; }
    }
    return None;
  }

  /** Backward scan, one row at a time. */
  method ScanBackward(q: Query, ghost m: seq<seq<Pos>>, fromRow: nat, fromCol: int, inclusive: bool,
                      stopAfterRow: Option<nat>, linesPerSlice: int)
    returns (hit: Option<Pos>)
    requires Fits(q) && Describes(q, m) && Placed(q.buffer, q.cols, m) && fromRow < |q.buffer|
    ensures hit.Some? ==> IsLast(m, hit.value, UpTo(fromRow, fromCol, inclusive))
    ensures hit.None? ==>
              NoneIn(m, if stopAfterRow.Some? then stopAfterRow.value else 0, |m|, UpTo(fromRow, fromCol, inclusive))
  {
    var start := UnwrappedStart(q.buffer, fromRow);
    LaterBlocksBelow(q.buffer, q.cols, m, start, fromRow, fromCol, inclusive);
    var y: int := start;
    var rowsVisited := 0;
    while y >= 0
      invariant -1 <= y < |q.buffer|
      invariant NoneIn(m, y + 1, |m|, UpTo(fromRow, fromCol, inclusive))
      decreases y
    {
      if stopAfterRow.Some? && y < stopAfterRow.value { return None; }
      var block := UnwrappedLineText(q.buffer, y);
      if block.None? {
        WrappedRowsStartNone(q.buffer, q.cols, m, y);
        NoneFromRow(m, y, UpTo(fromRow, fromCol, inclusive));
        y := y - 1;
        rowsVisited := rowsVisited + 1;
      } else {
        hit := LastHitOnRow(q, m, y, block.value.0, fromRow, fromCol, inclusive);
        if hit.Some? { return; }
        y := y - 1;
        rowsVisited := rowsVisited + block.value.1;
      }
      if rowsVisited >= linesPerSlice { rowsVisited := 0; }
    }
    return None;
  }

  datatype Spec = Spec(next: bool, startRow: int, startCol: int, inclusive: bool, wrap: bool, linesPerSlice: int)

  function Clamped(x: int, high: int): nat {
    if x < 0 || high < 0 then 0 else if x > high then high else x
  }

  ghost function Anywhere(): Pos -> bool {
    p => true
  }

  ghost function Wanted(q: Query, spec: Spec): Pos -> bool {
    var row, col := Clamped(spec.startRow, |q.buffer| - 1), if spec.startCol < 0 then 0 else spec.startCol;
    if spec.next then After(row, col, spec.inclusive) else UpTo(row, col, spec.inclusive)
  }

  ghost predicate IsNearest(m: seq<seq<Pos>>, next: bool, p: Pos, test: Pos -> bool) {
    if next then IsFirst(m, p, test) else IsLast(m, p, test)
  }

  /** What a search must answer: the nearest match in its direction; if there is none, then with wrap the first
      match of the buffer (the last one backwards); and nothing only when no match qualifies. */
  ghost predicate IsAnswer(q: Query, spec: Spec, m: seq<seq<Pos>>, hit: Option<Pos>) {
    var near := Wanted(q, spec);
    if NoneIn(m, 0, |m|, near) then
      if spec.wrap && !NoneIn(m, 0, |m|, Anywhere()) then hit.Some? && IsNearest(m, spec.next, hit.value, Anywhere()) else hit.None?
    else hit.Some? && IsNearest(m, spec.next, hit.value, near)
  }

  /** The answer is unique, so the slice size cannot change it. */
  lemma {:induction false} AnswerIsUnique(q: Query, spec: Spec, slice: int, m: seq<seq<Pos>>, a: Option<Pos>,
                                          b: Option<Pos>)
    requires IsAnswer(q, spec, m, a) && IsAnswer(q, spec.(linesPerSlice := slice), m, b)
    ensures a == b
  {
    assert Wanted(q, spec) == Wanted(q, spec.(linesPerSlice := slice));
    if !NoneIn(m, 0, |m|, Wanted(q, spec)) {
      NearestIsUnique(m, spec.next, a.value, b.value, Wanted(q, spec));
    } else if spec.wrap && !NoneIn(m, 0, |m|, Anywhere()) {
      NearestIsUnique(m, spec.next, a.value, b.value, Anywhere());
    }
  }

  lemma {:induction false} NearestIsUnique(m: seq<seq<Pos>>, next: bool, p: Pos, r: Pos, test: Pos -> bool)
    requires IsNearest(m, next, p, test) && IsNearest(m, next, r, test)
    ensures p == r
  {
    var y, k :| IsMatch(m, y, k, p);
    var z, l :| IsMatch(m, z, l, r);
  }

  /** findTerminalMatch without cancellation. */
  method FindTerminalMatch(q: Query, spec: Spec) returns (hit: Option<Pos>)
    requires Fits(q)
    ensures IsAnswer(q, spec, Matches(q), hit)
  {
    ghost var m := Matches(q);
    if q.text == "" {
      NoTextNoMatch(q);
      return None;
    }
    if |q.buffer| == 0 { return None; }
    MatchesArePlaced(q);
    var startRow := Clamped(spec.startRow, |q.buffer| - 1);
    var startCol := if spec.startCol < 0 then 0 else spec.startCol;
    if spec.next {
      hit := ScanForward(q, m, startRow, startCol, spec.inclusive, None, spec.linesPerSlice);
      HitMeansSome(m, hit, Wanted(q, spec), true);
      if hit.Some? || !spec.wrap { return; }
      hit := ScanForward(q, m, 0, 0, true, Some(startRow + 1), spec.linesPerSlice);
      WrapForward(q, m, startRow, startCol, spec.inclusive, hit);
      return;
    }
    hit := ScanBackward(q, m, startRow, startCol, spec.inclusive, None, spec.linesPerSlice);
    HitMeansSome(m, hit, Wanted(q, spec), false);
    if hit.Some? || !spec.wrap { return; }
    var stop := UnwrappedStart(q.buffer, startRow);
    hit := ScanBackward(q, m, |q.buffer| - 1, q.cols, true, Some(stop), spec.linesPerSlice);
    WrapBackward(q, m, startRow, stop, startCol, spec.inclusive, hit);
  }

  lemma {:induction false} NoTextNoMatch(q: Query)
    requires q.cols >= 1 && q.text == ""
    ensures forall y, k, p :: !IsMatch(Matches(q), y, k, p)
  {
  }

  lemma {:induction false} HitMeansSome(m: seq<seq<Pos>>, hit: Option<Pos>, test: Pos -> bool, next: bool)
    requires hit.Some? ==> IsNearest(m, next, hit.value, test)
    ensures hit.Some? ==> !NoneIn(m, 0, |m|, test)
  {
    if hit.Some? {
      var y, k :| IsMatch(m, y, k, hit.value);
      assert IsMatch(m, y, k, hit.value) && test(hit.value);
    }
  }

  /** Every match is at or after the top, and a match below the start row is after the start. */
  lemma {:induction false} WrapForward(q: Query, m: seq<seq<Pos>>, row: nat, col: int, inclusive: bool,
                                       hit: Option<Pos>)
    requires Placed(q.buffer, q.cols, m) && row < |m| && NoneIn(m, 0, |m|, After(row, col, inclusive))
    requires hit.Some? ==> IsFirst(m, hit.value, After(0, 0, true))
    requires hit.None? ==> NoneIn(m, 0, row + 1, After(0, 0, true))
    ensures if NoneIn(m, 0, |m|, Anywhere()) then hit.None? else hit.Some? && IsFirst(m, hit.value, Anywhere())
  {
    assert forall y, k, p :: IsMatch(m, y, k, p) ==> After(0, 0, true)(p);
    assert forall y, k, p :: IsMatch(m, y, k, p) && y > row ==> After(row, col, inclusive)(p);
    HitMeansSome(m, hit, After(0, 0, true), true);
  }

  lemma {:induction false} WrapBackward(q: Query, m: seq<seq<Pos>>, row: nat, stop: nat, col: int, inclusive: bool,
                                        hit: Option<Pos>)
    requires Placed(q.buffer, q.cols, m) && row < |m| && NoneIn(m, 0, |m|, UpTo(row, col, inclusive))
    requires SameBlock(q.buffer, stop, row) && (stop == 0 || !q.buffer[stop].wrapped)
    requires hit.Some? ==> IsLast(m, hit.value, UpTo(|m| - 1, q.cols, true))
    requires hit.None? ==> NoneIn(m, stop, |m|, UpTo(|m| - 1, q.cols, true))
    ensures if NoneIn(m, 0, |m|, Anywhere()) then hit.None? else hit.Some? && IsLast(m, hit.value, Anywhere())
  {
    assert forall y, k, p :: IsMatch(m, y, k, p) ==> UpTo(|m| - 1, q.cols, true)(p);
    assert forall y, k, p :: IsMatch(m, y, k, p) && y < stop ==> UpTo(row, col, inclusive)(p);
    HitMeansSome(m, hit, UpTo(|m| - 1, q.cols, true), false);
  }

  /** The unwrapped line that starts at this row holds the text the way the options ask for it. */
  ghost predicate OccursFrom(q: Query, y: int) {
    && 0 <= y < |q.buffer| && !q.buffer[y].wrapped
    && var line := Cased(RowsText(q.buffer, y, BlockEnd(q.buffer, y)), q.opts);
       exists at :: IsWanted(line, Cased(q.text, q.opts), q.opts.wholeWord, at)
  }

  /** Searches for this text find it whenever it is there. */
  predicate Searchable(text: string, opts: Options) {
    !opts.wholeWord || !SelfOverlaps(Cased(text, opts))
  }

  lemma {:induction false} BlockMatches(q: Query, y: nat)
    requires q.cols >= 1 && q.text != "" && y < |q.buffer|
    ensures MatchesAt(q, y) != [] ==> OccursFrom(q, y)
    ensures Searchable(q.text, q.opts) && OccursFrom(q, y) ==> MatchesAt(q, y) != []
  {
    var needle := Cased(q.text, q.opts);
    assert needle != "";
    NoSpansNoOccurrence(Cased(RowsText(q.buffer, y, BlockEnd(q.buffer, y)), q.opts), needle, q.opts.wholeWord);
    assert |MatchesAt(q, y)| == if q.buffer[y].wrapped then 0 else |BlockSpans(q, y)|;
  }

  lemma {:induction false} NoneMeansEmpty(m: seq<seq<Pos>>)
    ensures NoneIn(m, 0, |m|, Anywhere()) <==> forall y :: 0 <= y < |m| ==> m[y] == []
  {
    assert forall y :: 0 <= y < |m| && m[y] != [] ==> IsMatch(m, y, 0, m[y][0]) && Anywhere()(m[y][0]);
  }

  /** The buffer has no match exactly when no unwrapped line holds the text. */
  ghost predicate NoneMeansAbsent(q: Query)
    requires q.cols >= 1
  {
    NoneIn(Matches(q), 0, |q.buffer|, Anywhere()) <==> forall y :: !OccursFrom(q, y)
  }

  lemma {:induction false} NoMatchMeansAbsent(q: Query)
    requires q.cols >= 1 && q.text != "" && Searchable(q.text, q.opts)
    ensures NoneMeansAbsent(q)
  {
    NoneMeansEmpty(Matches(q));
    forall y: nat | y < |q.buffer| ensures OccursFrom(q, y) <==> Matches(q)[y] != [] { BlockMatches(q, y); }
  }

  /** A buffer of one row. */
  function OneRow(line: string, text: string, opts: Options): Query {
    Query([BufferRow(line, false)], |line|, text, opts)
  }

  lemma {:induction false} OneRowMatches(line: string, text: string, opts: Options)
    requires line != "" && text != ""
    ensures var q := OneRow(line, text, opts);
            && (MatchesAt(q, 0) == [] <==> SpansIn(Cased(line, opts), Cased(text, opts), opts.wholeWord) == [])
            && (OccursFrom(q, 0) <==> exists at :: IsWanted(Cased(line, opts), Cased(text, opts), opts.wholeWord, at))
  {
    var q := OneRow(line, text, opts);
    assert RowsText(q.buffer, 0, 1) == RowsText(q.buffer, 0, 0) + line == line;
    assert |MatchesAt(q, 0)| == |BlockSpans(q, 0)|;
  }

  lemma {:induction false} LowerHasNoUpper(s: string, i: nat)
    requires i < |s|
    ensures !('A' <= Lower(s)[i] <= 'Z')
  {
  }

  /** Lowering what is lowered already, and a digit, changes nothing. */
  lemma {:induction false} EmbeddedIsCased(text: string, opts: Options, d: nat)
    requires d < |text|
    ensures Cased(Embedded(Cased(text, opts), d), opts) == Embedded(Cased(text, opts), d)
  {
    if !opts.caseSensitive {
      var needle := Lower(text);
      var hay := Embedded(needle, d);
      forall i: nat | i < |hay|
        ensures Lower(hay)[i] == hay[i]
      {
        if 0 < i { LowerHasNoUpper(text, if i <= d then i - 1 else i - 1 - d); }
      }
    }
  }

  /** The needle behind an embedded one it overlaps is in the row, and the search finds nothing. */
  lemma {:induction false} MissedInBuffer(text: string, opts: Options, d: nat) returns (q: Query)
    requires opts.wholeWord && OverlapsAt(Cased(text, opts), d)
    ensures q.cols >= 1 && q.text == text && q.opts == opts && !NoneMeansAbsent(q)
  {
    var needle := Cased(text, opts);
    var hay := Embedded(needle, d);
    q := OneRow(hay, text, opts);
    EmbeddedIsMissed(needle, d);
    EmbeddedIsCased(text, opts, d);
    OneRowMatches(hay, text, opts);
    NoneMeansEmpty(Matches(q));
  }

  /** Over all buffers a search that finds nothing means absence exactly for searchable texts. */
  lemma {:induction false} NoMatchMeansAbsentExactly(text: string, opts: Options)
    requires text != ""
    ensures (forall q: Query :: q.cols >= 1 && q.text == text && q.opts == opts ==> NoneMeansAbsent(q))
        <==> Searchable(text, opts)
  {
    if Searchable(text, opts) {
      forall q: Query | q.cols >= 1 && q.text == text && q.opts == opts
        ensures NoneMeansAbsent(q)
      {
        NoMatchMeansAbsent(q);
      }
    } else {
      var d: nat :| OverlapsAt(Cased(text, opts), d);
      var q := MissedInBuffer(text, opts, d);
    }
  }

  // ---------------------------------------------------------------- counting

  /** The matches of the blocks headed by the first rows, in reading order. */
  function Flat(m: seq<seq<Pos>>, to: nat): seq<Pos>
    requires to <= |m|
  {
    if to == 0 then [] else Flat(m, to - 1) + m[to - 1]
  }

  lemma {:induction false} FlatGrows(m: seq<seq<Pos>>, a: nat, b: nat)
    requires a <= b <= |m|
    ensures |Flat(m, a)| <= |Flat(m, b)| && Flat(m, b)[..|Flat(m, a)|] == Flat(m, a)
  {
    if a < b { FlatGrows(m, a, b - 1); }
  }

  lemma {:induction false} FlatAt(m: seq<seq<Pos>>, y: nat, k: nat)
    requires y < |m| && k < |m[y]|
    ensures |Flat(m, y)| + k < |Flat(m, |m|)| && Flat(m, |m|)[|Flat(m, y)| + k] == m[y][k]
  {
    FlatGrows(m, y + 1, |m|);
    var all := Flat(m, |m|);
    assert Flat(m, y + 1) == Flat(m, y) + m[y];
    assert all[|Flat(m, y)| + k] == all[..|Flat(m, y + 1)|][|Flat(m, y)| + k];
  }

  lemma {:induction false} FlatFrom(m: seq<seq<Pos>>, to: nat, i: nat) returns (y: nat, k: nat)
    requires to <= |m| && i < |Flat(m, to)|
    ensures y < to && k < |m[y]| && i == |Flat(m, y)| + k && Flat(m, to)[i] == m[y][k]
  {
    if i < |Flat(m, to - 1)| {
      y, k := FlatFrom(m, to - 1, i);
    } else {
      y, k := to - 1, i - |Flat(m, to - 1)|;
    }
  }

  lemma {:induction false} FlatAscends(buffer: seq<BufferRow>, cols: nat, m: seq<seq<Pos>>, i: nat, j: nat)
    requires Placed(buffer, cols, m) && i < j < |Flat(m, |m|)|
    ensures Before(Flat(m, |m|)[i], Flat(m, |m|)[j])
  {
    var y, k := FlatFrom(m, |m|, i);
    var z, l := FlatFrom(m, |m|, j);
    if z < y { FlatGrows(m, z + 1, y); }
    MatchesOrdered(buffer, cols, m, y, k, m[y][k], z, l, m[z][l]);
  }

  /** The match lies behind the start in the direction of the search, or on it when that counts. */
  predicate Reaches(next: bool, p: Pos, row: int, col: int, inclusive: bool) {
    || (inclusive && p.row == row && p.col == col)
    || (if next then row < p.row || (row == p.row && col < p.col) else p.row < row || (p.row == row && p.col < col))
  }

  /** The i-th match in reading order, and the first one in the search's direction of those that reach. */
  ghost predicate NextIn(all: seq<Pos>, next: bool, i: int, reaches: Pos -> bool) {
    && 0 <= i < |all| && reaches(all[i])
    && forall j :: 0 <= j < |all| && (if next then j < i else i < j) ==> !reaches(all[j])
  }

  lemma {:induction false} NearestInOrder(buffer: seq<BufferRow>, cols: nat, m: seq<seq<Pos>>, next: bool, p: Pos,
                                          test: Pos -> bool)
    requires Placed(buffer, cols, m) && IsNearest(m, next, p, test)
    ensures exists i :: NextIn(Flat(m, |m|), next, i, test) && Flat(m, |m|)[i] == p
  {
    var all := Flat(m, |m|);
    var y, k :| IsMatch(m, y, k, p);
    FlatAt(m, y, k);
    var i := |Flat(m, y)| + k;
    forall j | 0 <= j < |all| && (if next then j < i else i < j)
      ensures !test(all[j])
    {
      var z, l := FlatFrom(m, |m|, j);
      assert IsMatch(m, z, l, all[j]);
      if next { FlatAscends(buffer, cols, m, j, i); } else { FlatAscends(buffer, cols, m, i, j); }
    }
    assert NextIn(all, next, i, test);
  }

  lemma {:induction false} NoneInOrder(m: seq<seq<Pos>>, test: Pos -> bool)
    ensures NoneIn(m, 0, |m|, test) <==> forall i :: 0 <= i < |Flat(m, |m|)| ==> !test(Flat(m, |m|)[i])
  {
    if NoneIn(m, 0, |m|, test) {
      forall i | 0 <= i < |Flat(m, |m|)|
        ensures !test(Flat(m, |m|)[i])
      {
        var y, k := FlatFrom(m, |m|, i);
        assert IsMatch(m, y, k, m[y][k]);
      }
    } else {
      var y, k, p :| 0 <= y < |m| && IsMatch(m, y, k, p) && test(p);
      FlatAt(m, y, k);
    }
  }

  ghost function Reaching(next: bool, row: int, col: int, inclusive: bool): Pos -> bool {
    p => Reaches(next, p, row, col, inclusive)
  }

  /** The next match that reaches in the search's direction; when there is none, with wrap the first match from that end;
      otherwise nothing. */
  ghost predicate FollowsOrder(all: seq<Pos>, next: bool, wrap: bool, reaches: Pos -> bool, hit: Option<Pos>) {
    if exists j :: 0 <= j < |all| && reaches(all[j])
    then hit.Some? && exists i :: NextIn(all, next, i, reaches) && all[i] == hit.value
    else if wrap && all != [] then hit == Some(if next then all[0] else all[|all| - 1])
    else hit.None?
  }

  /** The search starts on the row it is given, cut to the buffer, and on its column. */
  ghost predicate AnswersInOrder(q: Query, spec: Spec, all: seq<Pos>, hit: Option<Pos>) {
    var row := if spec.startRow < 0 then 0 else if spec.startRow >= |q.buffer| then |q.buffer| - 1 else spec.startRow;
    var col := if spec.startCol < 0 then 0 else spec.startCol;
    FollowsOrder(all, spec.next, spec.wrap, Reaching(spec.next, row, col, spec.inclusive), hit)
  }

  /** The answer in reading order. */
  lemma {:induction false} AnswerInOrder(q: Query, spec: Spec, hit: Option<Pos>)
    requires Fits(q) && q.buffer != [] && IsAnswer(q, spec, Matches(q), hit)
    ensures AnswersInOrder(q, spec, Flat(Matches(q), |q.buffer|), hit)
  {
    var m, near := Matches(q), Wanted(q, spec);
    var row := if spec.startRow < 0 then 0 else if spec.startRow >= |q.buffer| then |q.buffer| - 1 else spec.startRow;
    var col := if spec.startCol < 0 then 0 else spec.startCol;
    MatchesArePlaced(q);
    OrderOnTable(q.buffer, q.cols, m, spec.next, spec.wrap, near, hit);
    forall p ensures near(p) <==> Reaches(spec.next, p, row, col, spec.inclusive) { SameReach(q, spec, row, col, p); }
    SameOrder(Flat(m, |m|), spec.next, spec.wrap, near, Reaching(spec.next, row, col, spec.inclusive), hit);
  }

  lemma {:induction false} SameReach(q: Query, spec: Spec, row: int, col: int, p: Pos)
    requires q.buffer != [] && col == (if spec.startCol < 0 then 0 else spec.startCol)
    requires row
        == if spec.startRow < 0 then 0 else if spec.startRow >= |q.buffer| then |q.buffer| - 1 else spec.startRow
    ensures Wanted(q, spec)(p) <==> Reaches(spec.next, p, row, col, spec.inclusive)
  {
  }

  lemma {:induction false} SameOrder(all: seq<Pos>, next: bool, wrap: bool, a: Pos -> bool, b: Pos -> bool,
                                     hit: Option<Pos>)
    requires FollowsOrder(all, next, wrap, a, hit) && forall p :: a(p) <==> b(p)
    ensures FollowsOrder(all, next, wrap, b, hit)
  {
    if exists j :: 0 <= j < |all| && a(all[j]) {
      var i :| NextIn(all, next, i, a) && all[i] == hit.value;
      assert NextIn(all, next, i, b);
    }
  }

  lemma {:induction false} OrderOnTable(buffer: seq<BufferRow>, cols: nat, m: seq<seq<Pos>>, next: bool, wrap: bool,
                                        near: Pos -> bool, hit: Option<Pos>)
    requires Placed(buffer, cols, m)
    requires if !NoneIn(m, 0, |m|, near) then hit.Some? && IsNearest(m, next, hit.value, near)
             else if wrap && !NoneIn(m, 0, |m|, Anywhere()) then hit.Some? && IsNearest(m, next, hit.value, Anywhere())
             else hit.None?
    ensures FollowsOrder(Flat(m, |m|), next, wrap, near, hit)
  {
    var all := Flat(m, |m|);
    NoneInOrder(m, near);
    if !NoneIn(m, 0, |m|, near) {
      NearestInOrder(buffer, cols, m, next, hit.value, near);
    } else {
      AnyInOrder(m);
      if wrap && all != [] { EndInOrder(buffer, cols, m, next, hit.value); }
    }
  }

  lemma {:induction false} AnyInOrder(m: seq<seq<Pos>>)
    ensures NoneIn(m, 0, |m|, Anywhere()) <==> Flat(m, |m|) == []
  {
    NoneInOrder(m, Anywhere());
    assert Flat(m, |m|) != [] ==> Anywhere()(Flat(m, |m|)[0]);
  }

  lemma {:induction false} EndInOrder(buffer: seq<BufferRow>, cols: nat, m: seq<seq<Pos>>, next: bool, p: Pos)
    requires Placed(buffer, cols, m) && IsNearest(m, next, p, Anywhere())
    ensures var all := Flat(m, |m|); all != [] && p == if next then all[0] else all[|all| - 1]
  {
    var all := Flat(m, |m|);
    NearestInOrder(buffer, cols, m, next, p, Anywhere());
    var i :| NextIn(all, next, i, Anywhere()) && all[i] == p;
    EndIn(all, next, i);
  }

  lemma {:induction false} EndIn(all: seq<Pos>, next: bool, i: int)
    requires NextIn(all, next, i, Anywhere())
    ensures i == if next then 0 else |all| - 1
  {
    var j := if next then 0 else |all| - 1;
    assert Anywhere()(all[j]);
  }

  /** Where the selection starts, when there is one. */
  datatype Selection = Selection(row: int, col: int)

  /** At the selection's start, or after it on the same row by no more than the query's length. */
  predicate Selects(sel: Option<Selection>, reach: nat, p: Pos) {
    sel.Some? && p.row == sel.value.row && 0 <= p.col - sel.value.col <= (if reach > 1 then reach else 1)
  }

  predicate IsFirstSelected(all: seq<Pos>, n: nat, sel: Option<Selection>, reach: nat, index: int)
    requires n <= |all|
  {
    && -1 <= index < n
    && (index >= 0 ==> Selects(sel, reach, all[index]))
    && forall k :: 0 <= k < (if index >= 0 then index else n) ==> !Selects(sel, reach, all[k])
  }

  datatype Tally = Tally(index: int, count: nat, capped: bool)

  ghost predicate IsTally(all: seq<Pos>, sel: Option<Selection>, reach: nat, maxCount: int, t: Tally) {
    var cap := if maxCount > 1 then maxCount else 1;
    && t.count == (if |all| < cap then |all| else cap)
    && t.capped == (|all| >= cap)
    && IsFirstSelected(all, t.count, sel, reach, t.index)
  }

  /** What a tally says: as many matches as there are, up to the cap, which is at least one; and the first counted match that
      starts at the selection or behind it on its row, by no more than the query's length. */
  lemma {:induction false} TallyMeans(all: seq<Pos>, sel: Selection, reach: nat, maxCount: int, t: Tally)
    requires IsTally(all, Some(sel), reach, maxCount, t)
    ensures t.capped <==> |all| >= 1 && |all| >= maxCount
    ensures t.count == if !t.capped then |all| else if maxCount < 1 then 1 else maxCount
    ensures t.index >= 0 ==> t.index < t.count && Starts(all[t.index], sel, reach) && forall k :: 0 <= k < t.index ==>
          !Starts(all[k], sel, reach)
    ensures t.index < 0 ==> t.index == -1 && forall k :: 0 <= k < t.count ==> !Starts(all[k], sel, reach)
  {
  }

  predicate Starts(p: Pos, sel: Selection, reach: nat) {
    p.row == sel.row && sel.col <= p.col && (p.col <= sel.col + reach || p.col == sel.col + 1)
  }

  /** When the selection is at a counted match, the index is that match's place, whatever else is near. */
  lemma {:induction false} SelectedMatchIsIndexed(q: Query, sel: Selection, maxCount: int, t: Tally, k: nat)
    requires Fits(q) && IsTally(Flat(Matches(q), |q.buffer|), Some(sel), |q.text|, maxCount, t) && k < t.count
    requires Flat(Matches(q), |q.buffer|)[k].row == sel.row && Flat(Matches(q), |q.buffer|)[k].col == sel.col
    ensures t.index == k
  {
    MatchesArePlaced(q);
    IndexedInOrder(q.buffer, q.cols, Matches(q), sel, |q.text|, maxCount, t, k);
  }

  lemma {:induction false} IndexedInOrder(buffer: seq<BufferRow>, cols: nat, m: seq<seq<Pos>>, sel: Selection,
                                          reach: nat, maxCount: int, t: Tally, k: nat)
    requires Placed(buffer, cols, m) && IsTally(Flat(m, |m|), Some(sel), reach, maxCount, t) && k < t.count
    requires Flat(m, |m|)[k].row == sel.row && Flat(m, |m|)[k].col == sel.col
    ensures t.index == k
  {
    if 0 <= t.index < k { FlatAscends(buffer, cols, m, t.index, k); }
  }

  /** So many matches have been looked at, fewer than the cap. */
  ghost predicate CountedIn(all: seq<Pos>, count: nat, sel: Option<Selection>, reach: nat, maxCount: int, index: int) {
    count <= |all| && (count == 0 || count < maxCount) && IsFirstSelected(all, count, sel, reach, index)
  }

  /** As many as the cap allows. */
  ghost predicate CappedIn(all: seq<Pos>, count: nat, sel: Option<Selection>, reach: nat, maxCount: int, index: int) {
    && count == (if maxCount > 1 then maxCount else 1) && count <= |all|
    && IsFirstSelected(all, count, sel, reach, index)
  }

  /** Counts one block's matches after those already counted; stops at the cap. */
  method CountBlock(hits: seq<Pos>, ghost all: seq<Pos>, sel: Option<Selection>, reach: nat, maxCount: int, index0: int,
                    count0: nat)
    returns (index: int, count: nat, capped: bool)
    requires count0 + |hits| <= |all| && forall k :: 0 <= k < |hits| ==> all[count0 + k] == hits[k]
    requires CountedIn(all, count0, sel, reach, maxCount, index0)
    ensures if capped then CappedIn(all, count, sel, reach, maxCount, index)
            else count == count0 + |hits| && CountedIn(all, count, sel, reach, maxCount, index)
  {
    index, count, capped := index0, count0, false;
    for k := 0 to |hits|
      invariant count == count0 + k && (count == 0 || count < maxCount)
      invariant IsFirstSelected(all, count, sel, reach, index)
    {
      var pos := hits[k];
      if sel.Some? && index < 0 {
        if pos.row == sel.value.row && pos.col == sel.value.col {
          index := count;
        } else if pos.row < sel.value.row || (pos.row == sel.value.row && pos.col < sel.value.col) {
        } else if pos.row == sel.value.row && Numbers.Distance(pos.col, sel.value.col) <= (if reach > 1 then reach else 1) {
          index := count;
        }
      }
      count := count + 1;
      if count >= maxCount { return index, count, true; }
    }
  }

  ghost predicate CountedTo(m: seq<seq<Pos>>, y: nat, sel: Option<Selection>, reach: nat, maxCount: int, index: int,
                            count: nat)
  {
    y <= |m| && count == |Flat(m, y)| && CountedIn(Flat(m, |m|), count, sel, reach, maxCount, index)
  }

  ghost predicate CappedAt(m: seq<seq<Pos>>, sel: Option<Selection>, reach: nat, maxCount: int, index: int, count: nat)
  {
    CappedIn(Flat(m, |m|), count, sel, reach, maxCount, index)
  }

  /** countTerminalMatches without cancellation: the number of matches up to the cap, and the place of the
      selected one. */
  method CountTerminalMatches(q: Query, sel: Option<Selection>, maxCount: int, linesPerSlice: nat) returns (t: Tally)
    requires Fits(q) && linesPerSlice >= 1
    ensures IsTally(Flat(Matches(q), |q.buffer|), sel, |q.text|, maxCount, t)
  {
    MatchesArePlaced(q);
    t := CountSlices(q, Matches(q), sel, maxCount, linesPerSlice);
  }

  method CountSlices(q: Query, ghost m: seq<seq<Pos>>, sel: Option<Selection>, maxCount: int, linesPerSlice: nat)
    returns (t: Tally)
    requires Fits(q) && Describes(q, m) && Placed(q.buffer, q.cols, m) && linesPerSlice >= 1
    ensures IsTally(Flat(m, |m|), sel, |q.text|, maxCount, t)
  {
    var index, count: nat, y: nat, capped := -1, 0, 0, false;
    while y < |q.buffer|
      invariant CountedTo(m, y, sel, |q.text|, maxCount, index, count)
    {
      index, count, capped, y := CountSlice(q, m, y, sel, maxCount, linesPerSlice, index, count);
      if capped { return Tally(index, count, true); }
    }
    return Tally(index, count, false);
  }

  method CountSlice(q: Query, ghost m: seq<seq<Pos>>, y0: nat, sel: Option<Selection>, maxCount: int,
                    linesPerSlice: nat, index0: int, count0: nat)
    returns (index: int, count: nat, capped: bool, y: nat)
    requires Fits(q) && Describes(q, m) && Placed(q.buffer, q.cols, m) && linesPerSlice >= 1 && y0 < |m|
    requires CountedTo(m, y0, sel, |q.text|, maxCount, index0, count0)
    ensures capped ==> CappedAt(m, sel, |q.text|, maxCount, index, count)
    ensures !capped ==> y > y0 && CountedTo(m, y, sel, |q.text|, maxCount, index, count)
  {
    index, count, capped, y := index0, count0, false, y0;
    var visited, height := 0, 0;
    while y < |q.buffer| && visited < linesPerSlice
      invariant y >= y0 && (visited > 0 ==> y > y0)
      invariant CountedTo(m, y, sel, |q.text|, maxCount, index, count)
      decreases |q.buffer| - y
    {
      index, count, capped, height := CountRow(q, m, y, sel, maxCount, index, count);
      if capped { return; }
      y, visited := y + height, visited + height;
    }
  }

  /** One step: a wrapped row on its own, or a whole block. */
  method CountRow(q: Query, ghost m: seq<seq<Pos>>, y: nat, sel: Option<Selection>, maxCount: int, index0: int,
                  count0: nat)
    returns (index: int, count: nat, capped: bool, height: nat)
    requires Fits(q) && Describes(q, m) && Placed(q.buffer, q.cols, m) && y < |q.buffer|
    requires CountedTo(m, y, sel, |q.text|, maxCount, index0, count0)
    ensures capped ==> CappedAt(m, sel, |q.text|, maxCount, index, count)
    ensures !capped ==> 1 <= height && CountedTo(m, y + height, sel, |q.text|, maxCount, index, count)
  {
    var block := UnwrappedLineText(q.buffer, y);
    if block.None? {
      WrappedRowsStartNone(q.buffer, q.cols, m, y);
      return index0, count0, false, 1;
    }
    height := block.value.1;
    index, count, capped := CountHits(q, m, y, block.value.0, height, sel, maxCount, index0, count0);
  }

  /** The matches of the block that a row heads. */
  method CountHits(q: Query, ghost m: seq<seq<Pos>>, y: nat, text: string, ghost height: nat, sel: Option<Selection>,
                   maxCount: int, index0: int, count0: nat)
    returns (index: int, count: nat, capped: bool)
    requires Fits(q) && Describes(q, m) && Placed(q.buffer, q.cols, m) && y < |q.buffer| && !q.buffer[y].wrapped
    requires height == BlockEnd(q.buffer, y) - y && text == RowsText(q.buffer, y, BlockEnd(q.buffer, y))
    requires CountedTo(m, y, sel, |q.text|, maxCount, index0, count0)
    ensures capped ==> CappedAt(m, sel, |q.text|, maxCount, index, count)
    ensures !capped ==> CountedTo(m, y + height, sel, |q.text|, maxCount, index, count)
  {
    var hits := MatchesOnBlock(q, m, y, text);
    BlockInFlat(q.buffer, q.cols, m, y, height);
    index, count, capped := CountMore(m, y, height, hits, sel, |q.text|, maxCount, index0, count0);
  }

  /** The list of all matches goes on with this row's, and no other block starts within the height. */
  ghost predicate GoesOnWith(m: seq<seq<Pos>>, y: nat, height: nat, hits: seq<Pos>) {
    && y + height <= |m| && |Flat(m, y + height)| == |Flat(m, y)| + |hits| <= |Flat(m, |m|)|
    && forall k :: 0 <= k < |hits| ==> Flat(m, |m|)[|Flat(m, y)| + k] == hits[k]
  }

  method CountMore(ghost m: seq<seq<Pos>>, ghost y: nat, ghost height: nat, hits: seq<Pos>, sel: Option<Selection>,
                   reach: nat, maxCount: int, index0: int, count0: nat)
    returns (index: int, count: nat, capped: bool)
    requires GoesOnWith(m, y, height, hits) && CountedTo(m, y, sel, reach, maxCount, index0, count0)
    ensures if capped then CappedAt(m, sel, reach, maxCount, index, count)
            else CountedTo(m, y + height, sel, reach, maxCount, index, count)
  {
    index, count, capped := CountBlock(hits, Flat(m, |m|), sel, reach, maxCount, index0, count0);
  }

  lemma {:induction false} BlockInFlat(buffer: seq<BufferRow>, cols: nat, m: seq<seq<Pos>>, y: nat, height: nat)
    requires Placed(buffer, cols, m) && y < |buffer| && height == BlockEnd(buffer, y) - y
    ensures y < |m| && GoesOnWith(m, y, height, m[y])
  {
    FlatBlock(buffer, cols, m, y, height);
  }

  /** A block's matches are all at its head row. */
  lemma {:induction false} FlatBlock(buffer: seq<BufferRow>, cols: nat, m: seq<seq<Pos>>, y: nat, height: nat)
    requires Placed(buffer, cols, m) && 1 <= height && y + height <= |m|
    requires forall z :: y < z < y + height ==> buffer[z].wrapped
    ensures |Flat(m, y + height)| == |Flat(m, y)| + |m[y]| <= |Flat(m, |m|)|
    ensures forall k :: 0 <= k < |m[y]| ==> Flat(m, |m|)[|Flat(m, y)| + k] == m[y][k]
    decreases height
  {
    FlatGrows(m, y + 1, |m|);
    forall k: nat | k < |m[y]| ensures Flat(m, |m|)[|Flat(m, y)| + k] == m[y][k] { FlatAt(m, y, k); }
    if height > 1 {
      FlatBlock(buffer, cols, m, y, height - 1);
      WrappedRowsStartNone(buffer, cols, m, y + height - 1);
    }
  }
}
