/** Cutting a unified diff into file sections, twice: parseGitHubDiff of internal/changehost/github_diff.go and
    filesFromUnifiedDiff of internal/changehost/openapi_execute.go. Reading a section's paths is a parameter. */
module DiffSections {
  import Texts

  const MARKER := "diff --git "

  predicate IsHeader(line: string) {
    |line| >= |MARKER| && line[..|MARKER|] == MARKER
  }

  function Concat(parts: seq<string>): string {
    if parts == [] then "" else parts[0] + Concat(parts[1..])
  }

  /** strings.SplitAfter(s, "\n"): every line with its newline; the last one without. */
  function SplitAfter(s: string): (r: seq<string>)
    ensures r != []
  {
    if s == "" then [""]
    else
      var rest := SplitAfter(s[1..]);
      if s[0] == '\n' then ["\n"] + rest else [[s[0]] + rest[0]] + rest[1..]
  }

  /** strings.ReplaceAll(s, "\r\n", "\n"). */
  function Normalized(s: string): string {
    if s == "" then ""
    else if |s| >= 2 && s[0] == '\r' && s[1] == '\n' then "\n" + Normalized(s[2..])
    else [s[0]] + Normalized(s[1..])
  }

  lemma {:induction false} NothingToNormalize(s: string)
    requires '\r' !in s
    ensures Normalized(s) == s
  {
    if s != "" { NothingToNormalize(s[1..]); }
  }

  predicate StartsWithCrlf(s: string) {
    |s| >= 2 && s[0] == '\r' && s[1] == '\n'
  }

  lemma {:induction false} NormalizedCrlf(s: string)
    ensures Normalized("\r\n" + s) == "\n" + Normalized(s)
  {
    assert ("\r\n" + s)[2..] == s;
  }

  lemma {:induction false} NormalizedChar(c: char, s: string)
    requires !StartsWithCrlf([c] + s)
    ensures Normalized([c] + s) == [c] + Normalized(s)
  {
    assert ([c] + s)[1..] == s;
  }

  lemma {:induction false} Associates(a: string, b: string, c: string)
    ensures (a + b) + c == a + (b + c)
  {
  }

  lemma {:induction false} AppendAfterCrlf(s: string, t: string)
    requires StartsWithCrlf(s) && Normalized(s[2..] + t) == Normalized(s[2..]) + Normalized(t)
    ensures Normalized(s + t) == Normalized(s) + Normalized(t)
  {
    assert (s + t)[2..] == s[2..] + t;
    Associates("\n", Normalized(s[2..]), Normalized(t));
  }

  lemma {:induction false} AppendAfterChar(s: string, t: string)
    requires s != "" && !StartsWithCrlf(s) && !StartsWithCrlf(s + t)
    requires Normalized(s[1..] + t) == Normalized(s[1..]) + Normalized(t)
    ensures Normalized(s + t) == Normalized(s) + Normalized(t)
  {
    assert (s + t)[1..] == s[1..] + t;
    Associates([s[0]], Normalized(s[1..]), Normalized(t));
  }

  lemma {:induction false} NormalizedAppend(s: string, t: string)
    requires s == "" || s[|s| - 1] != '\r'
    ensures Normalized(s + t) == Normalized(s) + Normalized(t)
  {
    if s == "" {
      assert s + t == t;
    } else if StartsWithCrlf(s) {
      NormalizedAppend(s[2..], t);
      AppendAfterCrlf(s, t);
    } else {
      NormalizedAppend(s[1..], t);
      AppendAfterChar(s, t);
    }
  }

  lemma {:induction false} ConcatSplit(parts: seq<string>, k: nat)
    requires k <= |parts|
    ensures Concat(parts) == Concat(parts[..k]) + Concat(parts[k..])
  {
    if k == 0 {
      assert parts[..0] == [] && parts[0..] == parts;
    } else {
      ConcatSplit(parts[1..], k - 1);
      assert parts[..k][1..] == parts[1..][..k - 1] && parts[1..][k - 1..] == parts[k..];
    }
  }

  lemma {:induction false} SplitAfterKeepsText(s: string)
    ensures Concat(SplitAfter(s)) == s
  {
    if s == "" {
      assert [""][1..] == [];
    } else {
      SplitAfterKeepsText(s[1..]);
      var rest := SplitAfter(s[1..]);
      assert (["\n"] + rest)[1..] == rest;
      assert ([[s[0]] + rest[0]] + rest[1..])[1..] == rest[1..];
      assert [s[0]] + (rest[0] + Concat(rest[1..])) == s;
    }
  }

  /** The same lines, up to the newline that SplitAfter keeps. */
  predicate LinesMatch(plain: seq<string>, after: seq<string>) {
    && |plain| == |after| > 0 && after[|after| - 1] == plain[|plain| - 1]
    && forall i :: 0 <= i < |after| - 1 ==> after[i] == plain[i] + "\n"
  }

  lemma {:induction false} EmptyLineInFront(plain: seq<string>, after: seq<string>)
    requires LinesMatch(plain, after)
    ensures LinesMatch([""] + plain, ["\n"] + after)
  {
    assert "" + "\n" == "\n";
    assert forall i :: 0 < i < |after| ==> (["\n"] + after)[i] == after[i - 1] && ([""] + plain)[i] == plain[i - 1];
  }

  lemma {:induction false} CharInFront(c: char, plain: seq<string>, after: seq<string>)
    requires LinesMatch(plain, after)
    ensures LinesMatch([[c] + plain[0]] + plain[1..], [[c] + after[0]] + after[1..])
  {
    assert [c] + (plain[0] + "\n") == ([c] + plain[0]) + "\n";
  }

  lemma {:induction false} SameLines(s: string)
    ensures LinesMatch(Texts.Split(s, '\n'), SplitAfter(s))
  {
    if s != "" {
      SameLines(s[1..]);
      var plain, after := Texts.Split(s[1..], '\n'), SplitAfter(s[1..]);
      EmptyLineInFront(plain, after);
      CharInFront(s[0], plain, after);
    }
  }

  /** A newline at its end does not change whether a line is a header. */
  lemma {:induction false} HeaderIgnoresNewline(line: string)
    ensures IsHeader(line + "\n") <==> IsHeader(line)
  {
    if |line| >= |MARKER| {
      assert (line + "\n")[..|MARKER|] == line[..|MARKER|];
    } else if |line| + 1 == |MARKER| {
      assert (line + "\n")[..|MARKER|][|line|] == '\n';
    }
  }

  function EachNormalized(parts: seq<string>): (r: seq<string>)
    ensures |r| == |parts| && forall i :: 0 <= i < |r| ==> r[i] == Normalized(parts[i])
  {
    seq(|parts|, i requires 0 <= i < |parts| => Normalized(parts[i]))
  }

  lemma {:induction false} SplitAfterNewline(s: string)
    ensures SplitAfter("\n" + s) == ["\n"] + SplitAfter(s)
  {
    assert ("\n" + s)[1..] == s;
  }

  lemma {:induction false} SplitAfterChar(c: char, s: string)
    requires c != '\n'
    ensures SplitAfter([c] + s) == [[c] + SplitAfter(s)[0]] + SplitAfter(s)[1..]
  {
    assert ([c] + s)[1..] == s;
  }

  lemma {:induction false} FirstLine(s: string)
    ensures var first := SplitAfter(s)[0]; (first == "" <==> s == "") && (s != "" ==> first[0] == s[0])
  {
  }

  lemma {:induction false} NormalizedFirstLine(c: char, s: string)
    requires !StartsWithCrlf([c] + s)
    ensures !StartsWithCrlf([c] + SplitAfter(s)[0])
    ensures Normalized([c] + SplitAfter(s)[0]) == [c] + Normalized(SplitAfter(s)[0])
  {
    FirstLine(s);
    NormalizedChar(c, SplitAfter(s)[0]);
  }

  /** Normalizing a text normalizes each of its lines. */
  lemma {:induction false} NormalizedLines(s: string)
    ensures SplitAfter(Normalized(s)) == EachNormalized(SplitAfter(s))
  {
    if s == "" {
    } else if StartsWithCrlf(s) {
      NormalizedLines(s[2..]);
      CrlfLine(s[2..]);
      assert s == "\r\n" + s[2..];
    } else {
      NormalizedLines(s[1..]);
      assert s == [s[0]] + s[1..];
      if s[0] == '\n' { NewlineLine(s[1..]); } else { CharLine(s[0], s[1..]); }
    }
  }

  lemma {:induction false} SplitAfterCrlf(s: string)
    ensures SplitAfter("\r\n" + s) == ["\r\n"] + SplitAfter(s)
  {
    SplitAfterNewline(s);
    SplitAfterChar('\r', "\n" + s);
    assert "\r\n" + s == ['\r'] + ("\n" + s) && ['\r'] + "\n" == "\r\n";
  }

  lemma {:induction false} CrlfLine(s: string)
    requires SplitAfter(Normalized(s)) == EachNormalized(SplitAfter(s))
    ensures SplitAfter(Normalized("\r\n" + s)) == EachNormalized(SplitAfter("\r\n" + s))
  {
    NormalizedCrlf(s);
    SplitAfterNewline(Normalized(s));
    SplitAfterCrlf(s);
    NormalizedCrlf("");
    assert "\r\n" == "\r\n" + "" && Normalized("\r\n") == "\n" + Normalized("") == "\n";
  }

  lemma {:induction false} NewlineLine(s: string)
    requires SplitAfter(Normalized(s)) == EachNormalized(SplitAfter(s))
    ensures SplitAfter(Normalized("\n" + s)) == EachNormalized(SplitAfter("\n" + s))
  {
    NormalizedChar('\n', s);
    NormalizedChar('\n', "");
    SplitAfterNewline(Normalized(s));
    SplitAfterNewline(s);
    assert "\n" == ['\n'] + "";
  }

  lemma {:induction false} CharLine(c: char, s: string)
    requires SplitAfter(Normalized(s)) == EachNormalized(SplitAfter(s)) && c != '\n' && !StartsWithCrlf([c] + s)
    ensures SplitAfter(Normalized([c] + s)) == EachNormalized(SplitAfter([c] + s))
  {
    NormalizedChar(c, s);
    SplitAfterChar(c, Normalized(s));
    SplitAfterChar(c, s);
    NormalizedFirstLine(c, s);
  }

  lemma {:induction false} NormalizedConcat(parts: seq<string>)
    requires forall i :: 0 <= i < |parts| - 1 ==> parts[i] == "" || parts[i][|parts[i]| - 1] != '\r'
    ensures Concat(EachNormalized(parts)) == Normalized(Concat(parts))
  {
    if |parts| == 1 {
      assert parts[0] + "" == parts[0] && EachNormalized(parts)[0] + "" == Normalized(parts[0]);
      assert parts[1..] == [] && EachNormalized(parts)[1..] == [];
    } else if |parts| > 1 {
      NormalizedAppend(parts[0], Concat(parts[1..]));
      NormalizedConcat(parts[1..]);
      assert EachNormalized(parts)[1..] == EachNormalized(parts[1..]);
    }
  }

  lemma {:induction false} HeaderIgnoresNormalizing(line: string)
    ensures IsHeader(Normalized(line)) <==> IsHeader(line)
  {
    NormalizedPrefix(line, |MARKER|);
  }

  /** Up to the first carriage return or newline nothing changes, and there is none of either in the marker. */
  lemma {:induction false} NormalizedPrefix(s: string, n: nat)
    ensures (|s| >= n && '\r' !in s[..n] && '\n' !in s[..n])
        <==> (|Normalized(s)| >= n && '\r' !in Normalized(s)[..n] && '\n' !in Normalized(s)[..n])
    ensures |s| >= n && '\r' !in s[..n] && '\n' !in s[..n] ==> Normalized(s)[..n] == s[..n]
  {
    if n > 0 && s != "" {
      var t := Normalized(s);
      NormalizedPrefix(s[1..], n - 1);
      if !(|s| >= 2 && s[0] == '\r' && s[1] == '\n') {
        assert t[0] == s[0] && t[1..] == Normalized(s[1..]);
        if |s| >= n { assert s[..n] == [s[0]] + s[1..][..n - 1]; }
        if |t| >= n { assert t[..n] == [t[0]] + t[1..][..n - 1]; }
      } else {
        assert t[0] == '\n';
        if |s| >= n { assert s[..n][0] == '\r'; }
        if |t| >= n { assert t[..n][0] == '\n'; }
      }
    }
  }

  // ---------------------------------------------------------------- header positions

  function Headers(lines: seq<string>, n: nat): (r: seq<nat>)
    requires n <= |lines|
    ensures forall k :: 0 <= k < |r| ==> r[k] < n
  {
    if n == 0 then [] else Headers(lines, n - 1) + if IsHeader(lines[n - 1]) then [n - 1] else []
  }

  lemma {:induction false} HeadersAscend(lines: seq<string>, n: nat)
    requires n <= |lines|
    ensures var r := Headers(lines, n);
            && (forall j, k :: 0 <= j < k < |r| ==> r[j] < r[k])
            && (forall i :: 0 <= i < n ==> (i in r <==> IsHeader(lines[i])))
  {
    if n > 0 { HeadersAscend(lines, n - 1); }
  }

  lemma {:induction false} SameHeaders(a: seq<string>, b: seq<string>, n: nat)
    requires n <= |a| && n <= |b|
    requires forall i :: 0 <= i < n ==> (IsHeader(a[i]) <==> IsHeader(b[i]))
    ensures Headers(a, n) == Headers(b, n)
  {
    if n > 0 { SameHeaders(a, b, n - 1); }
  }

  /** Where the k-th section ends: at the next start, or at the end of the text. */
  function End(starts: seq<nat>, k: nat, n: nat): nat
    requires k < |starts|
  {
    if k + 1 < |starts| then starts[k + 1] else n
  }

  ghost predicate Ascending(starts: seq<nat>, n: nat) {
    && (forall k :: 0 <= k < |starts| ==> starts[k] < n)
    && (forall j, k :: 0 <= j < k < |starts| ==> starts[j] < starts[k])
  }

  /** The lines of the k-th section. */
  function SectionLines(lines: seq<string>, starts: seq<nat>, k: nat): seq<string>
    requires k < |starts| && Ascending(starts, |lines|)
  {
    lines[starts[k]..End(starts, k, |lines|)]
  }

  function Patches(lines: seq<string>, starts: seq<nat>): (r: seq<string>)
    requires Ascending(starts, |lines|)
    ensures |r| == |starts|
  {
    seq(|starts|, k requires 0 <= k < |starts| => Concat(SectionLines(lines, starts, k)))
  }

  /** Sections end to end are the text from the first of them on. */
  lemma {:induction false} SectionsCoverText(lines: seq<string>, starts: seq<nat>, k: nat)
    requires k < |starts| && Ascending(starts, |lines|)
    ensures Concat(Patches(lines, starts)[k..]) == Concat(lines[starts[k]..])
    decreases |starts| - k
  {
    var here, all := lines[starts[k]..], Patches(lines, starts);
    var length := End(starts, k, |lines|) - starts[k];
    ConcatSplit(here, length);
    assert here[..length] == SectionLines(lines, starts, k);
    assert all[k..][1..] == all[k + 1..] && all[k..][0] == Concat(here[..length]);
    if k + 1 < |starts| {
      SectionsCoverText(lines, starts, k + 1);
      assert here[length..] == lines[starts[k + 1]..];
    } else {
      assert here[length..] == [] && all[k + 1..] == [];
    }
  }

  // ---------------------------------------------------------------- the GitHub splitter

  function GithubLines(raw: string): seq<string> {
    SplitAfter(Normalized(raw))
  }

  /** A text's own sections, newlines as they are. */
  function TextPatches(text: string): seq<string> {
    var lines := SplitAfter(text);
    HeadersAscend(lines, |lines|);
    Patches(lines, Headers(lines, |lines|))
  }

  function GithubPatches(raw: string): seq<string> {
    TextPatches(Normalized(raw))
  }

  /** The patches end to end are the normalized diff from its first header to its end: nothing after the first header
      is lost, repeated or reordered, and there is one patch for each header line. */
  lemma {:induction false} GithubPatchesCoverDiff(raw: string)
    ensures var lines := GithubLines(raw); var starts := Headers(lines, |lines|);
            && |GithubPatches(raw)| == |starts|
            && (starts != [] ==> Normalized(raw) == Concat(lines[..starts[0]]) + Concat(GithubPatches(raw)))
            && (starts != [] ==> forall i :: 0 <= i < starts[0] ==> !IsHeader(lines[i]))
  {
    var lines := GithubLines(raw);
    var starts := Headers(lines, |lines|);
    HeadersAscend(lines, |lines|);
    SplitAfterKeepsText(Normalized(raw));
    if starts != [] {
      SectionsCoverText(lines, starts, 0);
      assert GithubPatches(raw)[0..] == GithubPatches(raw);
      ConcatSplit(lines, starts[0]);
      forall i | 0 <= i < starts[0]
        ensures !IsHeader(lines[i])
      {
        assert i !in starts;
      }
    }
  }

  // ---------------------------------------------------------------- one file to a section

  /** A line of the text starts here, and it starts with the marker. */
  predicate FileStarts(text: string, p: int) {
    0 <= p <= |text| - 11 && text[p..p + 11] == "diff --git " && (p == 0 || text[p - 1] == '\n')
  }

  /** Lines with their newlines, which only the last may lack. */
  predicate AreLines(lines: seq<string>) {
    && (forall i :: 0 <= i < |lines| ==> IsLine(lines[i]))
    && (forall i :: 0 <= i < |lines| - 1 ==> lines[i] != "" && lines[i][|lines[i]| - 1] == '\n')
  }

  predicate IsLine(line: string) {
    forall j :: 0 <= j < |line| - 1 ==> line[j] != '\n'
  }

  lemma {:induction false} SplitAfterIsLines(s: string)
    ensures AreLines(SplitAfter(s))
  {
    if s != "" {
      SplitAfterIsLines(s[1..]);
      var rest := SplitAfter(s[1..]);
      if s[0] == '\n' {
        assert forall i :: 0 < i <= |rest| ==> (["\n"] + rest)[i] == rest[i - 1];
      } else {
        assert forall i :: 0 < i < |rest| ==> ([[s[0]] + rest[0]] + rest[1..])[i] == rest[i];
      }
    }
  }

  lemma {:induction false} FrontOf(line: string, rest: string, i: int)
    ensures 0 <= i < |line| ==> (line + rest)[i] == line[i]
  {
  }

  lemma {:induction false} StartInFirst(line: string, rest: string)
    requires IsLine(line) && (rest != "" ==> line != "" && line[|line| - 1] == '\n') && FileStarts(line + rest, 0)
    ensures IsHeader(line)
  {
    var all := line + rest;
    assert "diff --git "[10] == ' ' && forall j :: 0 <= j < 11 ==> all[j] == "diff --git "[j] != '\n';
    FrontOf(line, rest, |line| - 1);
    if |line| >= 11 { assert line[..11] == all[0..11]; }
  }

  /** A file starts where a header line starts. */
  lemma {:induction false} StartsAtHeader(lines: seq<string>, p: int) returns (i: nat)
    requires AreLines(lines) && FileStarts(Concat(lines), p)
    ensures i < |lines| && IsHeader(lines[i]) && p == |Concat(lines[..i])|
  {
    var line, rest := lines[0], Concat(lines[1..]);
    assert lines[1..] == [] ==> rest == "";
    if p == 0 {
      StartInFirst(line, rest);
      i := 0;
    } else {
      FrontOf(line, rest, p - 1);
      assert rest[p - |line|..p - |line| + 11] == Concat(lines)[p..p + 11];
      assert p > |line| ==> rest[p - |line| - 1] == Concat(lines)[p - 1];
      var j := StartsAtHeader(lines[1..], p - |line|);
      i := j + 1;
      assert lines[..i][1..] == lines[1..][..j] && lines[..i][0] == line;
    }
  }

  lemma {:induction false} HeaderStarts(lines: seq<string>)
    requires lines != [] && IsHeader(lines[0])
    ensures FileStarts(Concat(lines), 0)
  {
    assert Concat(lines)[0..11] == lines[0][..11];
  }

  lemma {:induction false} SliceIsLines(lines: seq<string>, from: nat, to: nat)
    requires AreLines(lines) && from <= to <= |lines|
    ensures AreLines(lines[from..to])
  {
    assert forall i :: 0 <= i < to - from ==> lines[from..to][i] == lines[from + i];
  }

  lemma {:induction false} OneHeader(lines: seq<string>, k: nat)
    requires AreLines(lines) && Ascending(Headers(lines, |lines|), |lines|) && k < |Headers(lines, |lines|)|
    ensures forall p :: FileStarts(Patches(lines, Headers(lines, |lines|))[k], p) <==> p == 0
  {
    var starts := Headers(lines, |lines|);
    var section := SectionLines(lines, starts, k);
    HeadersAscend(lines, |lines|);
    SliceIsLines(lines, starts[k], End(starts, k, |lines|));
    assert starts[k] in starts && section[0] == lines[starts[k]];
    HeaderStarts(section);
    forall p | FileStarts(Concat(section), p)
      ensures p == 0
    {
      var i := StartsAtHeader(section, p);
      assert section[i] == lines[starts[k] + i] && starts[k] + i in starts;
      var l :| 0 <= l < |starts| && starts[l] == starts[k] + i;
      assert l <= k;
      assert section[..0] == [];
    }
  }

  lemma {:induction false} EachIsOneFile(text: string, k: nat)
    requires k < |TextPatches(text)|
    ensures forall p :: FileStarts(TextPatches(text)[k], p) <==> p == 0
  {
    HeadersAscend(SplitAfter(text), |SplitAfter(text)|);
    SplitAfterIsLines(text);
    OneHeader(SplitAfter(text), k);
  }

  /** The lines before the first header. */
  function Preamble(lines: seq<string>): seq<string> {
    var starts := Headers(lines, |lines|);
    if starts == [] then lines else lines[..starts[0]]
  }

  lemma {:induction false} PreambleInFront(text: string)
    ensures text == Concat(Preamble(SplitAfter(text))) + Concat(TextPatches(text))
  {
    var lines := SplitAfter(text);
    var starts := Headers(lines, |lines|);
    HeadersAscend(lines, |lines|);
    SplitAfterKeepsText(text);
    if starts == [] {
      assert text + "" == text;
    } else {
      ConcatSplit(lines, starts[0]);
      SectionsCoverText(lines, starts, 0);
      assert TextPatches(text)[0..] == TextPatches(text);
    }
  }

  lemma {:induction false} PreambleHasNoHeader(lines: seq<string>)
    ensures forall i :: 0 <= i < |Preamble(lines)| ==> !IsHeader(Preamble(lines)[i])
  {
    HeadersAscend(lines, |lines|);
    var starts := Headers(lines, |lines|);
    forall i | 0 <= i < |Preamble(lines)|
      ensures !IsHeader(Preamble(lines)[i])
    {
      assert Preamble(lines)[i] == lines[i] && i !in starts;
    }
  }

  lemma {:induction false} NoHeaderNoStart(lines: seq<string>, p: int)
    requires AreLines(lines) && forall i :: 0 <= i < |lines| ==> !IsHeader(lines[i])
    ensures !FileStarts(Concat(lines), p)
  {
    if FileStarts(Concat(lines), p) { var i := StartsAtHeader(lines, p); }
  }

  lemma {:induction false} NothingBefore(text: string)
    ensures forall p :: !FileStarts(Concat(Preamble(SplitAfter(text))), p)
  {
    var lines := SplitAfter(text);
    SplitAfterIsLines(text);
    PreambleHasNoHeader(lines);
    SliceIsLines(lines, 0, |Preamble(lines)|);
    assert Preamble(lines) == lines[0..|Preamble(lines)|];
    forall p ensures !FileStarts(Concat(Preamble(lines)), p) { NoHeaderNoStart(Preamble(lines), p); }
  }

  /** The sections are the text from the first file on, and each of them is one file: it starts with the marker, and no other
      line of it does. */
  lemma {:induction false} SectionsAreFiles(text: string) returns (before: string)
    ensures text == before + Concat(TextPatches(text)) && forall p :: !FileStarts(before, p)
    ensures forall k: nat, p :: k < |TextPatches(text)| ==> (FileStarts(TextPatches(text)[k], p) <==> p == 0)
  {
    before := Concat(Preamble(SplitAfter(text)));
    PreambleInFront(text);
    NothingBefore(text);
    forall k: nat, p | k < |TextPatches(text)|
      ensures FileStarts(TextPatches(text)[k], p) <==> p == 0
    {
      EachIsOneFile(text, k);
    }
  }

  datatype Sections = Sections(patches: seq<string>) | Malformed

  /** parseGitHubDiff: every section in order, or an error when there is none or one cannot be read. */
  method ParseGithubDiff(raw: string, readable: string -> bool) returns (result: Sections)
    ensures raw == "" ==> result == Sections([])
    ensures raw != "" ==>
              result == if GithubPatches(raw) == [] || !AllReadable(GithubPatches(raw), |GithubPatches(raw)|, readable) then Malformed
                        else Sections(GithubPatches(raw))
  {
    if raw == "" { return Sections([]); }
    var lines := GithubLines(raw);
    HeadersAscend(lines, |lines|);
    result := CutSections(lines, readable, Headers(lines, |lines|), GithubPatches(raw));
  }

  ghost predicate AllReadable(patches: seq<string>, n: nat, readable: string -> bool)
    requires n <= |patches|
  {
    forall k :: 0 <= k < n ==> readable(patches[k])
  }

  /** Before a line: the sections closed so far, and where the open one starts. */
  ghost predicate Cutting(lines: seq<string>, starts: seq<nat>, all: seq<string>, readable: string -> bool, index: nat,
                          sections: seq<string>, start: int)
    requires index <= |lines|
  {
    var begun := |Headers(lines, index)|;
    && begun <= |starts| && |starts| == |all|
    && start == (if begun == 0 then -1 else starts[begun - 1])
    && var closed := if begun == 0 then 0 else begun - 1; sections == all[..closed] && AllReadable(all, closed, readable)
  }

  /** The open section ends before a header line or at the end of the text. */
  method CloseSection(lines: seq<string>, readable: string -> bool, ghost starts: seq<nat>, ghost all: seq<string>,
                      sections0: seq<string>, start: nat, end: nat, ghost k: nat)
    returns (ok: bool, sections: seq<string>)
    requires Ascending(starts, |lines|) && all == Patches(lines, starts) && k < |starts|
    requires start == starts[k] && end == End(starts, k, |lines|) && sections0 == all[..k]
    ensures ok == readable(all[k]) && sections == all[..k + 1]
  {
    SectionText(lines, starts, k, end);
    var patch := Concat(lines[start..end]);
    ok := readable(patch);
    sections := sections0 + [patch];
  }

  /** The line loop: a header closes the open section and opens the next one. */
  method CutSections(lines: seq<string>, readable: string -> bool, ghost starts: seq<nat>, ghost all: seq<string>)
    returns (result: Sections)
    requires starts == Headers(lines, |lines|) && Ascending(starts, |lines|) && all == Patches(lines, starts)
    ensures result == if all == [] || !AllReadable(all, |all|, readable) then Malformed else Sections(all)
  {
    var sections: seq<string> := [];
    var start := -1;
    for index := 0 to |lines|
      invariant Cutting(lines, starts, all, readable, index, sections, start)
    {
      HeaderPlace(lines, index);
      if IsHeader(lines[index]) {
        if start >= 0 {
          var ok;
          ok, sections := CloseSection(lines, readable, starts, all, sections, start, index,
                                       |Headers(lines, index)| - 1);
          if !ok { return Malformed; }
        }
        start := index;
      }
    }
    if start < 0 { return Malformed; }
    var ok;
    ok, sections := CloseSection(lines, readable, starts, all, sections, start, |lines|, |starts| - 1);
    if !ok { return Malformed; }
    assert all[..|all|] == all;
    return Sections(sections);
  }

  lemma {:induction false} SectionText(lines: seq<string>, starts: seq<nat>, k: nat, end: nat)
    requires k < |starts| && Ascending(starts, |lines|) && end == End(starts, k, |lines|)
    ensures Patches(lines, starts)[k] == Concat(lines[starts[k]..end])
  {
  }

  /** A header line is the start whose number is the count of headers before it. */
  lemma {:induction false} HeaderPlace(lines: seq<string>, i: nat)
    requires i < |lines|
    ensures |Headers(lines, i + 1)| <= |Headers(lines, |lines|)|
    ensures IsHeader(lines[i]) ==>
              var k := |Headers(lines, i)|; k < |Headers(lines, |lines|)| && Headers(lines, |lines|)[k] == i
  {
    HeadersPrefix(lines, i + 1, |lines|);
    var some, all := Headers(lines, i + 1), Headers(lines, |lines|);
    assert forall k :: 0 <= k < |some| ==> all[k] == all[..|some|][k];
  }

  lemma {:induction false} HeadersPrefix(lines: seq<string>, m: nat, n: nat)
    requires m <= n <= |lines|
    ensures |Headers(lines, m)| <= |Headers(lines, n)| && Headers(lines, m) == Headers(lines, n)[..|Headers(lines, m)|]
  {
    if m < n { HeadersPrefix(lines, m, n - 1); }
  }

  // ---------------------------------------------------------------- the OpenAPI splitter

  /** The sections a profile-driven provider keeps: the first ones up to the limit. */
  function Kept(starts: seq<nat>, limit: nat): seq<nat> {
    if |starts| > limit then starts[..limit] else starts
  }

  function Bodies(lines: seq<string>, starts: seq<nat>): (r: seq<string>)
    requires Ascending(starts, |lines|)
    ensures |r| == |starts|
  {
    seq(|starts|, k requires 0 <= k < |starts| => Texts.Join(SectionLines(lines, starts, k), "\n"))
  }

  function OpenApiBodies(text: string, limit: nat): seq<string> {
    var lines := Texts.Split(text, '\n');
    HeadersAscend(lines, |lines|);
    Bodies(lines, Kept(Headers(lines, |lines|), limit))
  }

  ghost predicate HeadersReadable(lines: seq<string>, starts: seq<nat>, readable: string -> bool)
    requires Ascending(starts, |lines|)
  {
    forall k :: 0 <= k < |starts| ==> readable(lines[starts[k]])
  }

  /** filesFromUnifiedDiff, with the sections' texts as its result; a section counts as readable by its header. */
  method FilesFromUnifiedDiff(text: string, limit: nat, readable: string -> bool)
    returns (result: Sections, overflow: bool)
    ensures var lines := Texts.Split(text, '\n'); var starts := Headers(lines, |lines|);
            var kept := Kept(starts, limit);
            && Ascending(kept, |lines|)
            && result
                == (if kept == [] || !HeadersReadable(lines, kept, readable) then Malformed else Sections(OpenApiBodies(text, limit)))
            && (result.Sections? ==> (overflow <==> |starts| > limit))
  {
    var lines := Texts.Split(text, '\n');
    var starts: seq<nat> := [];
    for i := 0 to |lines|
      invariant starts == Headers(lines, i)
    {
      if IsHeader(lines[i]) { starts := starts + [i]; }
    }
    HeadersAscend(lines, |lines|);
    if |starts| == 0 { return Malformed, false; }
    overflow := false;
    if |starts| > limit { starts, overflow := starts[..limit], true; }
    result := CollectBodies(lines, starts, readable);
  }

  method CollectBodies(lines: seq<string>, starts: seq<nat>, readable: string -> bool) returns (result: Sections)
    requires Ascending(starts, |lines|)
    ensures result == if starts == [] ||
            !HeadersReadable(lines, starts, readable) then Malformed else Sections(Bodies(lines, starts))
  {
    ghost var bodies := Bodies(lines, starts);
    var contents: seq<string> := [];
    for k := 0 to |starts|
      invariant contents == bodies[..k]
      invariant forall j :: 0 <= j < k ==> readable(lines[starts[j]])
    {
      var end := if k + 1 < |starts| then starts[k + 1] else |lines|;
      assert SectionLines(lines, starts, k) == lines[starts[k]..end];
      if !readable(lines[starts[k]]) { return Malformed; }
      contents := contents + [Texts.Join(lines[starts[k]..end], "\n")];
    }
    if |contents| == 0 { return Malformed; }
    assert bodies[..|starts|] == bodies;
    return Sections(contents);
  }

  // ---------------------------------------------------------------- the two agree

  /** Lines joined with newlines, against the same lines with their newlines kept. */
  lemma {:induction false} JoinedLines(plain: seq<string>, after: seq<string>, last: bool)
    requires |plain| == |after| > 0
    requires forall i :: 0 <= i < |plain| ==> after[i] == plain[i] + if last && i == |plain| - 1 then "" else "\n"
    ensures Concat(after) == Texts.Join(plain, "\n") + if last then "" else "\n"
  {
    if |plain| == 1 {
      assert after[1..] == [];
    } else {
      assert forall i :: 0 <= i < |plain| - 1 ==> after[1..][i] == after[i + 1] && plain[1..][i] == plain[i + 1];
      JoinedLines(plain[1..], after[1..], last);
    }
  }

  lemma {:induction false} SectionsAgree(text: string, from: nat, to: nat)
    requires from < to <= |Texts.Split(text, '\n')|
    ensures |SplitAfter(text)| == |Texts.Split(text, '\n')|
    ensures Concat(SplitAfter(text)[from..to])
         == Texts.Join(Texts.Split(text, '\n')[from..to], "\n") + if to == |Texts.Split(text, '\n')| then "" else "\n"
  {
    SameLines(text);
    var plain, after := Texts.Split(text, '\n'), SplitAfter(text);
    assert to < |plain| ==> forall i :: 0 <= i < to - from ==> after[from..to][i] == plain[from..to][i] + "\n";
    if to == |plain| { assert plain[|plain| - 1] + "" == plain[|plain| - 1]; }
    JoinedLines(plain[from..to], after[from..to], to == |plain|);
  }

  lemma {:induction false} HeadersAgree(text: string)
    ensures |SplitAfter(text)| == |Texts.Split(text, '\n')|
    ensures Headers(SplitAfter(text), |SplitAfter(text)|) == Headers(Texts.Split(text, '\n'), |Texts.Split(text, '\n')|)
  {
    SameLines(text);
    var plain, after := Texts.Split(text, '\n'), SplitAfter(text);
    forall i | 0 <= i < |plain|
      ensures IsHeader(after[i]) <==> IsHeader(plain[i])
    {
      HeaderIgnoresNewline(plain[i]);
    }
    SameHeaders(after, plain, |plain|);
  }

  lemma {:induction false} LinesEndInNewlines(text: string, i: nat)
    requires i < |SplitAfter(text)| - 1
    ensures var line := SplitAfter(text)[i]; line != "" && line[|line| - 1] == '\n'
  {
    SameLines(text);
  }

  lemma {:induction false} SectionNormalizes(text: string, starts: seq<nat>, k: nat)
    requires Ascending(starts, |SplitAfter(text)|) && k < |starts|
    ensures Patches(EachNormalized(SplitAfter(text)), starts)[k] == Normalized(Patches(SplitAfter(text), starts)[k])
  {
    var lines := SplitAfter(text);
    var section := SectionLines(lines, starts, k);
    forall i | 0 <= i < |section| - 1
      ensures section[i] == "" || section[i][|section[i]| - 1] != '\r'
    {
      LinesEndInNewlines(text, starts[k] + i);
      assert section[i] == lines[starts[k] + i];
    }
    NormalizedConcat(section);
    NormalizedSection(lines, starts, k);
  }

  lemma {:induction false} NormalizedSection(lines: seq<string>, starts: seq<nat>, k: nat)
    requires Ascending(starts, |lines|) && k < |starts|
    ensures SectionLines(EachNormalized(lines), starts, k) == EachNormalized(SectionLines(lines, starts, k))
  {
    var section, each := SectionLines(lines, starts, k), SectionLines(EachNormalized(lines), starts, k);
    forall i | 0 <= i < |section|
      ensures each[i] == EachNormalized(section)[i]
    {
      assert section[i] == lines[starts[k] + i] && each[i] == EachNormalized(lines)[starts[k] + i];
    }
  }

  /** The GitHub splitter cuts the text's own sections, with the carriage returns before newlines gone. */
  lemma {:induction false} GithubPatchesNormalize(text: string)
    ensures GithubPatches(text) == EachNormalized(TextPatches(text))
  {
    var lines := SplitAfter(text);
    var starts := Headers(lines, |lines|);
    NormalizedLines(text);
    HeadersAscend(lines, |lines|);
    forall i | 0 <= i < |lines|
      ensures IsHeader(EachNormalized(lines)[i]) <==> IsHeader(lines[i])
    {
      HeaderIgnoresNormalizing(lines[i]);
    }
    SameHeaders(EachNormalized(lines), lines, |lines|);
    forall k: nat | k < |starts|
      ensures Patches(EachNormalized(lines), starts)[k] == Normalized(TextPatches(text)[k])
    {
      SectionNormalizes(text, starts, k);
    }
  }

  /** On every diff the two splitters cut the same sections. A GitHub patch is a section normalized. A body is a section
      without its final newline, except that the last body runs to the end of the diff: up to the limit that is the
      section itself; beyond the limit it swallows the sections that were cut off. */
  lemma {:induction false} SplittersAgree(text: string, limit: nat, k: nat)
    requires k < |OpenApiBodies(text, limit)|
    ensures var bodies, sections := OpenApiBodies(text, limit), TextPatches(text);
            && GithubPatches(text) == EachNormalized(sections)
            && |bodies| == (if |sections| > limit then limit else |sections|)
            && (k < |bodies| - 1 ==> sections[k] == bodies[k] + "\n")
            && (k == |bodies| - 1 ==> bodies[k] == Concat(sections[k..]))
  {
    GithubPatchesNormalize(text);
    HeadersAgree(text);
    var plain := Texts.Split(text, '\n');
    HeadersAscend(plain, |plain|);
    SectionAgrees(text, Headers(plain, |plain|), limit, k);
  }

  lemma {:induction false} SectionAgrees(text: string, all: seq<nat>, limit: nat, k: nat)
    requires |SplitAfter(text)| == |Texts.Split(text, '\n')| && Ascending(all, |Texts.Split(text, '\n')|) &&
             k < |Kept(all, limit)|
    ensures var bodies, patches := Bodies(Texts.Split(text, '\n'), Kept(all, limit)), Patches(SplitAfter(text), all);
            && (k < |bodies| - 1 ==> patches[k] == bodies[k] + "\n")
            && (k == |bodies| - 1 ==> bodies[k] == Concat(patches[k..]))
  {
    var plain, after := Texts.Split(text, '\n'), SplitAfter(text);
    var n, starts := |plain|, Kept(all, limit);
    var end := End(starts, k, n);
    SectionsAgree(text, starts[k], end);
    assert SectionLines(plain, starts, k) == plain[starts[k]..end];
    if k == |starts| - 1 {
      SectionsCoverText(after, all, k);
      assert after[starts[k]..n] == after[starts[k]..];
    } else {
      assert SectionLines(after, all, k) == after[starts[k]..end];
    }
  }

  /** A body is its section's patch, up to the final newline. */
  predicate IsOwnPatch(body: string, patch: string) {
    patch == body || patch == body + "\n"
  }

  lemma {:induction false} PatchesAreNotEmpty(text: string, k: nat)
    requires k < |TextPatches(text)|
    ensures TextPatches(text)[k] != ""
  {
    var lines := SplitAfter(text);
    var starts := Headers(lines, |lines|);
    HeadersAscend(lines, |lines|);
    assert starts[k] in starts && IsHeader(lines[starts[k]]);
    assert SectionLines(lines, starts, k)[0] == lines[starts[k]];
  }

  lemma {:induction false} OwnPatchExactly(text: string, limit: nat, k: nat)
    requires k < |OpenApiBodies(text, limit)|
    ensures var bodies, sections := OpenApiBodies(text, limit), TextPatches(text);
            && |bodies| == (if |sections| > limit then limit else |sections|)
            && (IsOwnPatch(bodies[k], sections[k]) <==> k < |bodies| - 1 || |sections| <= limit)
  {
    var sections := TextPatches(text);
    SplittersAgree(text, limit, k);
    assert sections[k..][0] == sections[k] && sections[k..][1..] == sections[k + 1..];
    if |sections| > k + 1 {
      PatchesAreNotEmpty(text, k + 1);
      assert sections[k + 1..][0] == sections[k + 1];
    } else {
      assert sections[k + 1..] == [];
    }
  }

  /** The provider marks every patch as exact, overflow or not; on every diff that is so exactly when the diff keeps to
      the limit. */
  lemma {:induction false} PatchesExactIffWithinLimit(text: string, limit: nat)
    requires limit >= 1
    ensures var bodies, sections := OpenApiBodies(text, limit), TextPatches(text);
            && |bodies| <= |sections|
            && ((forall k :: 0 <= k < |bodies| ==> IsOwnPatch(bodies[k], sections[k])) <==> |sections| <= limit)
  {
    var bodies, sections := OpenApiBodies(text, limit), TextPatches(text);
    HeadersAgree(text);
    assert |bodies| == if |sections| > limit then limit else |sections|;
    forall k: nat | k < |bodies|
      ensures IsOwnPatch(bodies[k], sections[k]) <==> k < |bodies| - 1 || |sections| <= limit
    {
      OwnPatchExactly(text, limit, k);
    }
    var last := |bodies| - 1;
    assert |sections| > limit ==> !IsOwnPatch(bodies[last], sections[last]);
  }

  lemma {:induction false} TwoHeaders(lines: seq<string>)
    requires |lines| == 2 && IsHeader(lines[0]) && IsHeader(lines[1])
    ensures Headers(lines, 2) == [0, 1] && Ascending([0, 1], 2) && Ascending([0], 2)
  {
    assert Headers(lines, 0) == [] && Headers(lines, 1) == [0];
  }

  lemma {:induction false} TwoPatches(x: string, y: string)
    requires Ascending([0, 1], 2)
    ensures Patches([x, y], [0, 1]) == [x, y]
  {
    SectionText([x, y], [0, 1], 0, 1);
    SectionText([x, y], [0, 1], 1, 2);
    assert [x, y][0..1] == [x] && [x, y][1..2] == [y];
    OnePart(x);
    OnePart(y);
  }

  lemma {:induction false} OneBody(x: string, y: string)
    requires Ascending([0], 2)
    ensures Bodies([x, y], [0]) == [x + "\n" + y]
  {
    assert SectionLines([x, y], [0], 0) == [x, y] && [x, y][1..] == [y];
    OnePart(y);
  }

  lemma {:induction false} OnePart(s: string)
    ensures Concat([s]) == s && Texts.Join([s], "\n") == s
  {
    assert [s][1..] == [] && s + "" == s;
  }

  lemma {:induction false} TwoSections(a: string, b: string)
    requires IsHeader(a) && IsHeader(b) && '\n' !in a && '\n' !in b && '\r' !in a && '\r' !in b
    ensures var text := a + "\n" + b; GithubPatches(text) == [a + "\n", b] && OpenApiBodies(text, 1) == [text]
  {
    var text := a + "\n" + b;
    TwoLines(a, b);
    assert '\r' !in text;
    NothingToNormalize(text);
    HeaderIgnoresNewline(a);
    TwoHeaders([a + "\n", b]);
    TwoPatches(a + "\n", b);
    TwoHeaders([a, b]);
    OneBody(a, b);
    assert Kept([0, 1], 1) == [0];
  }

  /** Two sections under a limit of one: the kept body holds both. */
  lemma {:induction false} SecondSectionIsSwallowed()
    ensures var text := MARKER + "a\n" + MARKER + "b";
            && GithubPatches(text) == [MARKER + "a\n", MARKER + "b"]
            && OpenApiBodies(text, 1) == [text] && !IsOwnPatch(text, MARKER + "a\n")
  {
    var a, b := MARKER + "a", MARKER + "b";
    assert a[..|MARKER|] == MARKER && b[..|MARKER|] == MARKER;
    assert '\n' !in MARKER && '\r' !in MARKER;
    TwoSections(a, b);
    assert MARKER + "a\n" == a + "\n" && MARKER + "a\n" + MARKER + "b" == a + "\n" + b;
  }

  lemma {:induction false} TwoLines(a: string, b: string)
    requires '\n' !in a && '\n' !in b
    ensures Texts.Split(a + "\n" + b, '\n') == [a, b] && SplitAfter(a + "\n" + b) == [a + "\n", b]
  {
    assert [a, b][1..] == [b];
    assert Texts.Join([a, b], "\n") == a + "\n" + b;
    Texts.SplitOfJoin([a, b], '\n');
    SameLines(a + "\n" + b);
    var after := SplitAfter(a + "\n" + b);
    assert |after| == 2 && after[0] == a + "\n" && after[1] == b;
  }
}
