/** Splitting, joining and searching text, as the source's string libraries define them. */
module Texts {

  predicate Clean(c: char, parts: seq<string>) {
    forall i :: 0 <= i < |parts| ==> c !in parts[i]
  }

  /** s.split(c): one part more than there are separators. */
  function Split(s: string, c: char): (r: seq<string>)
    ensures |r| >= 1
  {
    if s == "" then [""]
    else
      var rest := Split(s[1..], c);
      if s[0] == c then [""] + rest else [[s[0]] + rest[0]] + rest[1..]
  }

  function Join(parts: seq<string>, sep: string): string {
    if parts == [] then ""
    else if |parts| == 1 then parts[0]
    else parts[0] + sep + Join(parts[1..], sep)
  }

  lemma {:induction false} SplitIsClean(s: string, c: char)
    ensures Clean(c, Split(s, c))
  {
    if s != "" { SplitIsClean(s[1..], c); }
  }

  /** Joining undoes splitting. */
  lemma {:induction false} JoinOfSplit(s: string, c: char)
    ensures Join(Split(s, c), [c]) == s
  {
    if s != "" {
      JoinOfSplit(s[1..], c);
      var rest := Split(s[1..], c);
      if s[0] == c {
        assert ([""] + rest)[1..] == rest;
        assert Join([""] + rest, [c]) == "" + [c] + s[1..] == s;
      } else {
        assert ([[s[0]] + rest[0]] + rest[1..])[1..] == rest[1..];
        assert |rest| == 1 ==> [s[0]] + rest[0] == s;
        assert |rest| > 1 ==>
              [s[0]] + rest[0] + [c] + Join(rest[1..], [c]) == [s[0]] + (rest[0] + [c] + Join(rest[1..], [c]));
      }
    }
  }

  lemma {:induction false} SplitInFront(d: char, s: string, c: char)
    ensures var rest := Split(s, c); Split([d] + s, c) == if d == c then [""] + rest else [[d] + rest[0]] + rest[1..]
  {
    assert ([d] + s)[1..] == s;
  }

  lemma {:induction false} PrefixInFront(d: char, p: string, s: string, c: char)
    requires d != c && Split(p + s, c) == [p + Split(s, c)[0]] + Split(s, c)[1..]
    ensures Split(([d] + p) + s, c) == [([d] + p) + Split(s, c)[0]] + Split(s, c)[1..]
  {
    var first, rest := Split(s, c)[0], Split(s, c)[1..];
    assert ([p + first] + rest)[0] == p + first && ([p + first] + rest)[1..] == rest;
    assert [d] + (p + first) == ([d] + p) + first;
    assert ([d] + p) + s == [d] + (p + s);
    SplitInFront(d, p + s, c);
  }

  lemma {:induction false} SplitOfPrefix(p: string, s: string, c: char)
    requires c !in p
    ensures Split(p + s, c) == [p + Split(s, c)[0]] + Split(s, c)[1..]
  {
    if p == "" {
      assert p + s == s;
      assert p + Split(s, c)[0] == Split(s, c)[0];
    } else {
      SplitOfPrefix(p[1..], s, c);
      PrefixInFront(p[0], p[1..], s, c);
      assert p == [p[0]] + p[1..];
    }
  }

  /** Two lists of parts with the touching parts made one. */
  function Welded(a: seq<string>, b: seq<string>): seq<string>
    requires a != [] && b != []
  {
    a[..|a| - 1] + [a[|a| - 1] + b[0]] + b[1..]
  }

  lemma {:induction false} WeldedInFront(c: char, first: string, rest: seq<string>, b: seq<string>)
    requires rest != [] && b != []
    ensures Welded([first] + rest, b) == [first] + Welded(rest, b)
    ensures Welded([[c] + rest[0]] + rest[1..], b) == [[c] + Welded(rest, b)[0]] + Welded(rest, b)[1..]
  {
    if |rest| == 1 { assert [c] + (rest[0] + b[0]) == ([c] + rest[0]) + b[0]; }
  }

  lemma {:induction false} AppendInFront(d: char, s: string, t: string, c: char)
    requires Split(s + t, c) == Welded(Split(s, c), Split(t, c))
    ensures Split(([d] + s) + t, c) == Welded(Split([d] + s, c), Split(t, c))
  {
    assert ([d] + s) + t == [d] + (s + t);
    SplitInFront(d, s, c);
    SplitInFront(d, s + t, c);
    WeldedInFront(d, "", Split(s, c), Split(t, c));
  }

  /** The last part of one text and the first of another become one part. */
  lemma {:induction false} SplitOfAppend(s: string, t: string, c: char)
    ensures Split(s + t, c) == Welded(Split(s, c), Split(t, c))
  {
    if s == "" {
      assert s + t == t && "" + Split(t, c)[0] == Split(t, c)[0];
    } else {
      SplitOfAppend(s[1..], t, c);
      AppendInFront(s[0], s[1..], t, c);
      assert s == [s[0]] + s[1..];
    }
  }

  /** Splitting undoes joining. */
  lemma {:induction false} SplitOfJoin(parts: seq<string>, c: char)
    requires parts != [] && Clean(c, parts)
    ensures Split(Join(parts, [c]), c) == parts
  {
    if |parts| == 1 {
      SplitOfPrefix(parts[0], "", c);
      assert parts[0] + "" == parts[0];
      assert parts == [parts[0]];
    } else {
      var rest := Join(parts[1..], [c]);
      SplitOfJoin(parts[1..], c);
      assert parts[0] + [c] + rest == parts[0] + ([c] + rest);
      SplitOfPrefix(parts[0], [c] + rest, c);
      assert ([c] + rest)[1..] == rest;
      assert Split([c] + rest, c) == [""] + parts[1..];
      assert parts[0] + "" == parts[0];
      assert ([""] + parts[1..])[1..] == parts[1..];
      assert parts == [parts[0]] + parts[1..];
    }
  }

  function Digit(d: nat): char
    requires d < 10
  {
    "0123456789"[d]
  }

  function Decimal(n: nat): (r: string)
    ensures r != ""
  {
    if n < 10 then [Digit(n)] else Decimal(n / 10) + [Digit(n % 10)]
  }

  lemma {:induction false} DecimalIsDigits(n: nat)
    ensures forall i :: 0 <= i < |Decimal(n)| ==> '0' <= Decimal(n)[i] <= '9'
  {
    if n >= 10 { DecimalIsDigits(n / 10); }
  }

  /** A number read digit by digit. */
  function Value(s: string): int
  {
    if s == "" then 0 else 10 * Value(s[..|s| - 1]) + (s[|s| - 1] as int - '0' as int)
  }

  /** The decimal text reads as the number, and has no leading zero. */
  lemma {:induction false} DecimalReads(n: nat)
    ensures Value(Decimal(n)) == n && (Decimal(n)[0] == '0' ==> n == 0)
  {
    var s := Decimal(n);
    if n >= 10 {
      DecimalReads(n / 10);
      assert s[..|s| - 1] == Decimal(n / 10);
    } else {
      assert s[..0] == "" && Value("") == 0;
    }
  }

  lemma {:induction false} DecimalInjective(m: nat, n: nat)
    requires Decimal(m) == Decimal(n)
    ensures m == n
  {
    var dm, dn := Decimal(m), Decimal(n);
    if m >= 10 && n >= 10 {
      assert dm[..|dm| - 1] == Decimal(m / 10) && dn[..|dn| - 1] == Decimal(n / 10);
      assert dm[|dm| - 1] == Digit(m % 10) && dn[|dn| - 1] == Digit(n % 10);
      DecimalInjective(m / 10, n / 10);
    }
  }

  predicate IsAt(s: string, t: string, i: int) {
    0 <= i <= |s| - |t| && s[i..i + |t|] == t
  }

  /** s.indexOf(t, from): the least index at or after from where t occurs, or -1. */
  function IndexOf(s: string, t: string, from: nat): (r: int)
    ensures r == -1 || from <= r <= |s| - |t|
    decreases |s| - from
  {
    if from + |t| > |s| then -1
    else if IsAt(s, t, from) then from
    else IndexOf(s, t, from + 1)
  }

  lemma {:induction false} IndexOfIsLeast(s: string, t: string, from: nat)
    ensures var r := IndexOf(s, t, from);
            && (r >= 0 ==> IsAt(s, t, r))
            && (forall i :: from <= i && (i < r || r < 0) ==> !IsAt(s, t, i))
    decreases |s| - from
  {
    if from + |t| <= |s| && !IsAt(s, t, from) { IndexOfIsLeast(s, t, from + 1); }
  }

  /** s.lastIndexOf(t): the greatest index where t occurs, or -1. */
  function LastIndexOf(s: string, t: string): (r: int)
    ensures r >= 0 ==> IsAt(s, t, r)
    ensures forall i :: r < i ==> !IsAt(s, t, i)
    ensures r >= -1
  {
    LastIndexUpTo(s, t, |s|)
  }

  function LastIndexUpTo(s: string, t: string, n: nat): (r: int)
    ensures -1 <= r <= n
    ensures r >= 0 ==> IsAt(s, t, r)
    ensures forall i :: r < i <= n ==> !IsAt(s, t, i)
  {
    if IsAt(s, t, n) then n
    else if n == 0 then -1
    else LastIndexUpTo(s, t, n - 1)
  }
}
