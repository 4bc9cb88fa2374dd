/** Splitting a tool command into statements: internal/changeevidence/extract.go. */
module CommandStatements {
  import Texts
  import opened Wrappers

  // ---------------------------------------------------------------- the quoting automaton

  const NO_QUOTE: char := '\0'

  /** The open quote, if any, and whether the next character is escaped. */
  datatype Mode = Mode(quote: char, escape: bool)

  const PLAIN := Mode(NO_QUOTE, false)

  function Next(mode: Mode, c: char): Mode {
    if mode.escape then mode.(escape := false)
    else if (mode.quote == NO_QUOTE || mode.quote == '"') && c == '\\' then mode.(escape := true)
    else if mode.quote == NO_QUOTE && (c == '\'' || c == '"') then mode.(quote := c)
    else if mode.quote != NO_QUOTE && c == mode.quote then PLAIN
    else mode
  }

  function After(mode: Mode, s: string): Mode
    decreases s
  {
    if s == "" then mode else After(Next(mode, s[0]), s[1..])
  }

  lemma {:induction false} AfterConcat(mode: Mode, s: string, t: string)
    ensures After(mode, s + t) == After(After(mode, s), t)
    decreases s
  {
    if s == "" {
      assert s + t == t;
    } else {
      assert (s + t)[1..] == s[1..] + t;
      AfterConcat(Next(mode, s[0]), s[1..], t);
    }
  }

  /** Every quote is closed and no escape is pending. */
  predicate Closed(s: string) {
    After(PLAIN, s) == PLAIN
  }

  /** What the splitter does with a character, seeing its two neighbours. */
  datatype Action = Keep | Drop | Flush

  function ActionOn(mode: Mode, prevAmp: bool, c: char, nextAmp: bool): Action {
    if mode != PLAIN then Keep
    else if c == '\n' || c == ';' then Flush
    else if c == '&' && nextAmp then Flush
    else if c == '&' && prevAmp then Drop
    else Keep
  }

  predicate StartsWithAmp(s: string) {
    s != "" && s[0] == '&'
  }

  /** The text between boundaries; buf is what the current piece holds already. */
  function Pieces(s: string, mode: Mode, prevAmp: bool, buf: string): (r: seq<string>)
    ensures r != []
  {
    if s == "" then [buf]
    else
      var next := Next(mode, s[0]);
      match ActionOn(mode, prevAmp, s[0], StartsWithAmp(s[1..]))
      case Keep => Pieces(s[1..], next, s[0] == '&', buf + [s[0]])
      case Drop => Pieces(s[1..], next, s[0] == '&', buf)
      case Flush => [buf] + Pieces(s[1..], next, s[0] == '&', "")
  }

  // ---------------------------------------------------------------- trimming

  predicate IsSpace(c: char) {
    var n := c as int;
    9 <= n <= 13 || n == 0x20 || n == 0x85 || n == 0xA0 || n == 0x1680 || 0x2000 <= n <= 0x200A
    || n == 0x2028 || n == 0x2029 || n == 0x202F || n == 0x205F || n == 0x3000
  }

  function TrimLeft(s: string): string {
    if s != "" && IsSpace(s[0]) then TrimLeft(s[1..]) else s
  }

  function TrimRight(s: string): string {
    if s != "" && IsSpace(s[|s| - 1]) then TrimRight(s[..|s| - 1]) else s
  }

  function Trim(s: string): string {
    TrimRight(TrimLeft(s))
  }

  /** The trimmed pieces, without those that are blank. */
  function Trimmed(pieces: seq<string>): seq<string> {
    if pieces == [] then []
    else (if Trim(pieces[0]) == "" then [] else [Trim(pieces[0])]) + Trimmed(pieces[1..])
  }

  function Statements(command: string): seq<string> {
    Trimmed(Pieces(command, PLAIN, false, ""))
  }

  method UnquotedStatements(command: string) returns (out: seq<string>)
    ensures out == Statements(command)
  {
    out := [];
    var buf := "";
    var quote, escape := NO_QUOTE, false;
    assert command[0..] == command;
    for i := 0 to |command|
      invariant StatementsFrom(command, i, Mode(quote, escape), buf, out) == Statements(command)
    {
      var r := command[i];
      PiecesStep(command, i, Mode(quote, escape), buf, out);
      if escape {
        buf, escape := buf + [r], false;
        continue;
      }
      if (quote == NO_QUOTE || quote == '"') && r == '\\' {
        buf, escape := buf + [r], true;
        continue;
      }
      if quote == NO_QUOTE && (r == '\'' || r == '"') {
        quote, buf := r, buf + [r];
        continue;
      }
      if quote != NO_QUOTE {
        buf := buf + [r];
        if r == quote { quote := NO_QUOTE; }
        continue;
      }
      if r == '\n' || r == ';' {
        out, buf := Flushed(out, buf), "";
        continue;
      }
      if r == '&' && i + 1 < |command| && command[i + 1] == '&' {
        out, buf := Flushed(out, buf), "";
        continue;
      }
      if r == '&' && i > 0 && command[i - 1] == '&' { continue; }
      buf := buf + [r];
    }
    StatementsEnd(command, Mode(quote, escape), buf, out);
    out := Flushed(out, buf);
  }

  lemma {:induction false} StatementsEnd(command: string, mode: Mode, buf: string, out: seq<string>)
    ensures StatementsFrom(command, |command|, mode, buf, out) == Flushed(out, buf)
  {
    assert command[|command|..] == "" && [buf] + [] == [buf];
    TrimmedInFront(out, buf, []);
    assert Flushed(out, buf) + Trimmed([]) == Flushed(out, buf);
  }

  function Flushed(out: seq<string>, buf: string): seq<string> {
    if Trim(buf) == "" then out else out + [Trim(buf)]
  }

  /** What the loop ends with, when it stands at an index with a mode, a buffer and the statements so far. */
  function StatementsFrom(command: string, i: nat, mode: Mode, buf: string, out: seq<string>): seq<string>
    requires i <= |command|
  {
    out + Trimmed(Pieces(command[i..], mode, i > 0 && command[i - 1] == '&', buf))
  }

  lemma {:induction false} PiecesStep(command: string, i: nat, mode: Mode, buf: string, out: seq<string>)
    requires i < |command|
    ensures var next := Next(mode, command[i]);
            StatementsFrom(command, i, mode, buf, out)
            == match ActionOn(mode, i > 0 && command[i - 1] == '&', command[i], i + 1 < |command| && command[i + 1] == '&')
               case Keep => StatementsFrom(command, i + 1, next, buf + [command[i]], out)
               case Drop => StatementsFrom(command, i + 1, next, buf, out)
               case Flush => StatementsFrom(command, i + 1, next, "", Flushed(out, buf))
  {
    assert command[i..][1..] == command[i + 1..];
    TrimmedInFront(out, buf, Pieces(command[i + 1..], Next(mode, command[i]), command[i] == '&', ""));
  }

  lemma {:induction false} TrimmedInFront(out: seq<string>, buf: string, rest: seq<string>)
    ensures out + Trimmed([buf] + rest) == Flushed(out, buf) + Trimmed(rest)
  {
    assert ([buf] + rest)[1..] == rest;
  }

  // ---------------------------------------------------------------- boundaries

  /** No boundary falls inside quotes: every piece but the last is closed taken by itself, and the last is exactly as
      open as the whole command. */
  lemma {:induction false} PiecesAreClosed(s: string, mode: Mode, prevAmp: bool, buf: string)
    requires After(PLAIN, buf) == mode
    ensures var ps := Pieces(s, mode, prevAmp, buf);
            && (forall k :: 0 <= k < |ps| - 1 ==> Closed(ps[k]))
            && After(PLAIN, ps[|ps| - 1]) == After(mode, s)
  {
    if s != "" {
      var next := Next(mode, s[0]);
      AfterConcat(PLAIN, buf, [s[0]]);
      assert After(mode, [s[0]]) == next;
      match ActionOn(mode, prevAmp, s[0], StartsWithAmp(s[1..]))
      case Keep => PiecesAreClosed(s[1..], next, s[0] == '&', buf + [s[0]]);
      case Drop => PiecesAreClosed(s[1..], next, s[0] == '&', buf);
      case Flush =>
        PiecesAreClosed(s[1..], next, s[0] == '&', "");
        var rest := Pieces(s[1..], next, s[0] == '&', "");
        assert forall k :: 0 < k < |rest| ==> ([buf] + rest)[k] == rest[k - 1];
    }
  }

  // ---------------------------------------------------------------- splitting a join

  /** Every character of the text is kept, given its surroundings. */
  predicate AllKept(s: string, mode: Mode, prevAmp: bool, nextAmp: bool) {
    s == ""
    || (ActionOn(mode, prevAmp, s[0], if |s| > 1 then s[1] == '&' else nextAmp) == Keep
        && AllKept(s[1..], Next(mode, s[0]), s[0] == '&', nextAmp))
  }

  /** A statement: quotes and escapes closed, and nothing in it, standing alone, is a boundary or lost. */
  predicate Statement(s: string) {
    Closed(s) && AllKept(s, PLAIN, false, false)
  }

  predicate LastIsAmp(s: string, prevAmp: bool) {
    if s == "" then prevAmp else s[|s| - 1] == '&'
  }

  lemma {:induction false} KeptThrough(s: string, rest: string, mode: Mode, prevAmp: bool, buf: string)
    requires AllKept(s, mode, prevAmp, StartsWithAmp(rest))
    ensures Pieces(s + rest, mode, prevAmp, buf) == Pieces(rest, After(mode, s), LastIsAmp(s, prevAmp), buf + s)
    decreases s
  {
    if s == "" {
      assert s + rest == rest && buf + s == buf;
    } else {
      assert (s + rest)[1..] == s[1..] + rest;
      assert StartsWithAmp(s[1..] + rest) == if |s| > 1 then s[1] == '&' else StartsWithAmp(rest);
      KeptThrough(s[1..], rest, Next(mode, s[0]), s[0] == '&', buf + [s[0]]);
      assert buf + [s[0]] + s[1..] == buf + s;
    }
  }

  /** A separator of one character ends a piece. */
  lemma {:induction false} CharSeparates(c: char, rest: string, prevAmp: bool, buf: string)
    requires c == ';' || c == '\n'
    ensures Pieces([c] + rest, PLAIN, prevAmp, buf) == [buf] + Pieces(rest, PLAIN, false, "")
  {
    assert ([c] + rest)[1..] == rest;
  }

  /** A double ampersand ends a piece; before another ampersand it also makes a blank one. */
  lemma {:induction false} AmpsSeparate(rest: string, prevAmp: bool, buf: string)
    ensures Trimmed(Pieces("&&" + rest, PLAIN, prevAmp, buf)) == Trimmed([buf]) + Trimmed(Pieces(rest, PLAIN, true, ""))
  {
    assert ("&&" + rest)[1..] == "&" + rest && ("&" + rest)[1..] == rest;
    var tail := Pieces(rest, PLAIN, true, "");
    var second := Pieces("&" + rest, PLAIN, true, "");
    assert second == if StartsWithAmp(rest) then [""] + tail else tail;
    assert ([""] + tail)[1..] == tail && ([buf] + second)[1..] == second && [buf][1..] == [];
    assert Trim("") == "";
  }

  /** Splitting undoes joining with semicolons or newlines. */
  lemma {:induction false} SplitUndoesCharJoin(statements: seq<string>, c: char)
    requires c == ';' || c == '\n'
    requires forall k :: 0 <= k < |statements| ==> Statement(statements[k])
    ensures Statements(Texts.Join(statements, [c])) == Trimmed(statements)
  {
    if |statements| == 1 {
      var s := statements[0];
      KeptThrough(s, "", PLAIN, false, "");
      assert s + "" == s && "" + s == s && statements == [s];
    } else if |statements| > 1 {
      var s, rest := statements[0], Texts.Join(statements[1..], [c]);
      assert Texts.Join(statements, [c]) == s + ([c] + rest);
      KeptThrough(s, [c] + rest, PLAIN, false, "");
      assert "" + s == s;
      CharSeparates(c, rest, LastIsAmp(s, false), s);
      SplitUndoesCharJoin(statements[1..], c);
      var tail := Pieces(rest, PLAIN, false, "");
      assert ([s] + tail)[1..] == tail;
    } else {
      assert Trim("") == "" && [""][1..] == [];
    }
  }

  /** The text ends in an ampersand that is neither quoted nor escaped. */
  predicate EndsInAmp(s: string, mode: Mode) {
    s != "" && s[|s| - 1] == '&' && After(mode, s[..|s| - 1]) == PLAIN
  }

  lemma {:induction false} KeptBeforeAmp(s: string, mode: Mode, prevAmp: bool)
    ensures AllKept(s, mode, prevAmp, true) <==> AllKept(s, mode, prevAmp, false) && !EndsInAmp(s, mode)
    decreases s
  {
    if |s| > 1 {
      assert s[..|s| - 1][1..] == s[1..][..|s| - 2];
      KeptBeforeAmp(s[1..], Next(mode, s[0]), s[0] == '&');
    }
  }

  /** A statement next to double ampersands is kept whole exactly when no bare ampersand of its own touches them. */
  predicate SafeAt(s: string, first: bool, last: bool) {
    (!first ==> !StartsWithAmp(s)) && (!last ==> !EndsInAmp(s, PLAIN))
  }

  lemma {:induction false} KeptBetweenAmps(s: string, first: bool, last: bool)
    requires Statement(s)
    ensures AllKept(s, PLAIN, !first, !last) <==> SafeAt(s, first, last)
  {
    KeptBeforeAmp(s, PLAIN, !first);
    assert AllKept(s, PLAIN, true, false) <==> AllKept(s, PLAIN, false, false) && !StartsWithAmp(s);
  }

  predicate AllSafe(statements: seq<string>, first: bool) {
    forall k :: 0 <= k < |statements| ==> SafeAt(statements[k], first && k == 0, k == |statements| - 1)
  }

  lemma {:induction false} AmpJoinStep(s: string, rest: string, first: bool)
    requires Closed(s) && AllKept(s, PLAIN, !first, true)
    ensures Trimmed(Pieces(s + ("&&" + rest), PLAIN, !first, ""))
        == Trimmed([s]) + Trimmed(Pieces(rest, PLAIN, true, ""))
  {
    KeptThrough(s, "&&" + rest, PLAIN, !first, "");
    assert "" + s == s;
    AmpsSeparate(rest, LastIsAmp(s, !first), s);
  }

  lemma {:induction false} LastStatement(s: string, first: bool)
    requires Closed(s) && AllKept(s, PLAIN, !first, false)
    ensures Pieces(s, PLAIN, !first, "") == [s]
  {
    KeptThrough(s, "", PLAIN, !first, "");
    assert s + "" == s && "" + s == s;
  }

  lemma {:induction false} SafeRest(statements: seq<string>, first: bool)
    requires |statements| > 1
    ensures AllSafe(statements, first) <==> SafeAt(statements[0], first, false) && AllSafe(statements[1..], false)
  {
    var rest := statements[1..];
    assert forall k :: 0 <= k < |rest| ==> statements[k + 1] == rest[k];
    assert forall k :: 0 < k < |statements| ==> statements[k] == rest[k - 1];
  }

  lemma {:induction false} TrimmedStep(statements: seq<string>)
    requires statements != []
    ensures Trimmed(statements) == Trimmed([statements[0]]) + Trimmed(statements[1..])
  {
    assert [statements[0]][1..] == [];
  }

  lemma {:induction false} SplitUndoesAmpJoin(statements: seq<string>, first: bool)
    requires forall s :: s in statements ==> Statement(s)
    requires AllSafe(statements, first)
    ensures Trimmed(Pieces(Texts.Join(statements, "&&"), PLAIN, !first, "")) == Trimmed(statements)
    decreases |statements|
  {
    if |statements| == 1 {
      KeptBetweenAmps(statements[0], first, true);
      LastStatement(statements[0], first);
      assert statements == [statements[0]];
    } else if |statements| > 1 {
      var s, rest := statements[0], Texts.Join(statements[1..], "&&");
      assert Texts.Join(statements, "&&") == s + ("&&" + rest);
      SafeRest(statements, first);
      KeptBetweenAmps(s, first, false);
      AmpJoinStep(s, rest, first);
      SplitUndoesAmpJoin(statements[1..], false);
      TrimmedStep(statements);
    } else {
      assert Trim("") == "" && [""][1..] == [];
    }
  }

  // ---------------------------------------------------------------- why the condition is needed

  function Amps(s: string): nat {
    if s == "" then 0 else Amps(s[1..]) + if s[0] == '&' then 1 else 0
  }

  function AmpsIn(texts: seq<string>): nat {
    if texts == [] then 0 else Amps(texts[0]) + AmpsIn(texts[1..])
  }

  /** Ampersands the splitter keeps, given the surroundings. */
  function KeptAmps(s: string, mode: Mode, prevAmp: bool, nextAmp: bool): nat
    decreases s
  {
    if s == "" then 0
    else
      (if s[0] == '&' && ActionOn(mode, prevAmp, s[0], if |s| > 1 then s[1] == '&' else nextAmp) == Keep then 1 else 0)
      + KeptAmps(s[1..], Next(mode, s[0]), s[0] == '&', nextAmp)
  }

  lemma {:induction false} AmpsConcat(s: string, t: string)
    ensures Amps(s + t) == Amps(s) + Amps(t)
  {
    if s == "" {
      assert s + t == t;
    } else {
      assert (s + t)[1..] == s[1..] + t;
      AmpsConcat(s[1..], t);
    }
  }

  lemma {:induction false} TrimKeepsAmps(s: string)
    ensures Amps(Trim(s)) == Amps(s)
  {
    TrimLeftKeepsAmps(s);
    TrimRightKeepsAmps(TrimLeft(s));
  }

  lemma {:induction false} TrimLeftKeepsAmps(s: string)
    ensures Amps(TrimLeft(s)) == Amps(s)
  {
    if s != "" && IsSpace(s[0]) { TrimLeftKeepsAmps(s[1..]); }
  }

  lemma {:induction false} TrimRightKeepsAmps(s: string)
    ensures Amps(TrimRight(s)) == Amps(s)
  {
    if s != "" && IsSpace(s[|s| - 1]) {
      TrimRightKeepsAmps(s[..|s| - 1]);
      AmpsConcat(s[..|s| - 1], [s[|s| - 1]]);
      assert s[..|s| - 1] + [s[|s| - 1]] == s;
    }
  }

  lemma {:induction false} TrimmedKeepsAmps(pieces: seq<string>)
    ensures AmpsIn(Trimmed(pieces)) == AmpsIn(pieces)
  {
    if pieces != [] {
      TrimKeepsAmps(pieces[0]);
      TrimmedKeepsAmps(pieces[1..]);
      var rest := Trimmed(pieces[1..]);
      assert ([Trim(pieces[0])] + rest)[1..] == rest && [] + rest == rest;
    }
  }

  lemma {:induction false} PiecesKeepAmps(s: string, mode: Mode, prevAmp: bool, buf: string)
    ensures AmpsIn(Pieces(s, mode, prevAmp, buf)) == Amps(buf) + KeptAmps(s, mode, prevAmp, false)
    decreases s
  {
    if s != "" {
      var next := Next(mode, s[0]);
      match ActionOn(mode, prevAmp, s[0], StartsWithAmp(s[1..]))
      case Keep =>
        PiecesKeepAmps(s[1..], next, s[0] == '&', buf + [s[0]]);
        AmpsConcat(buf, [s[0]]);
      case Drop => PiecesKeepAmps(s[1..], next, s[0] == '&', buf);
      case Flush => PiecesKeepAmps(s[1..], next, s[0] == '&', "");
    }
  }

  lemma {:induction false} KeptAmpsConcat(s: string, t: string, mode: Mode, prevAmp: bool)
    ensures KeptAmps(s + t, mode, prevAmp, false)
         == KeptAmps(s, mode, prevAmp, StartsWithAmp(t)) + KeptAmps(t, After(mode, s), LastIsAmp(s, prevAmp), false)
    decreases s
  {
    if s == "" {
      assert s + t == t;
    } else {
      assert (s + t)[1..] == s[1..] + t;
      KeptAmpsConcat(s[1..], t, Next(mode, s[0]), s[0] == '&');
    }
  }

  /** A statement loses an ampersand next to double ampersands unless it is kept whole. */
  lemma {:induction false} KeptAmpsBound(s: string, mode: Mode, p: bool, n: bool)
    ensures KeptAmps(s, mode, p, n) <= Amps(s)
    ensures AllKept(s, mode, false, false) && !AllKept(s, mode, p, n) ==> KeptAmps(s, mode, p, n) < Amps(s)
    ensures AllKept(s, mode, true, false) && !AllKept(s, mode, p, n) ==> KeptAmps(s, mode, p, n) < Amps(s)
    decreases s
  {
    if s != "" { KeptAmpsBound(s[1..], Next(mode, s[0]), s[0] == '&', n); }
  }

  lemma {:induction false} AmpJoinLoses(statements: seq<string>, first: bool)
    requires forall s :: s in statements ==> Statement(s)
    ensures KeptAmps(Texts.Join(statements, "&&"), PLAIN, !first, false) <= AmpsIn(statements)
    ensures !AllSafe(statements, first) ==>
          KeptAmps(Texts.Join(statements, "&&"), PLAIN, !first, false) < AmpsIn(statements)
    decreases |statements|
  {
    if |statements| == 1 {
      var s := statements[0];
      KeptBetweenAmps(s, first, true);
      KeptAmpsBound(s, PLAIN, !first, false);
      assert Texts.Join(statements, "&&") == s && statements[1..] == [];
    } else if |statements| > 1 {
      var s, rest := statements[0], Texts.Join(statements[1..], "&&");
      assert Texts.Join(statements, "&&") == s + ("&&" + rest);
      SafeRest(statements, first);
      KeptBetweenAmps(s, first, false);
      KeptAmpsBound(s, PLAIN, !first, true);
      KeptAmpsConcat(s, "&&" + rest, PLAIN, !first);
      SeparatorIsDropped(rest, LastIsAmp(s, !first));
      AmpJoinLoses(statements[1..], false);
    }
  }

  lemma {:induction false} SeparatorIsDropped(rest: string, prevAmp: bool)
    ensures KeptAmps("&&" + rest, PLAIN, prevAmp, false) == KeptAmps(rest, PLAIN, true, false)
  {
    assert ("&&" + rest)[1..] == "&" + rest && ("&" + rest)[1..] == rest;
  }

  /** Splitting undoes joining with double ampersands exactly when no bare ampersand of a statement touches one:
      otherwise an ampersand is lost. */
  lemma {:induction false} SplitUndoesAmpJoinExactly(statements: seq<string>)
    requires forall s :: s in statements ==> Statement(s)
    ensures Statements(Texts.Join(statements, "&&")) == Trimmed(statements) <==> AllSafe(statements, true)
  {
    if AllSafe(statements, true) {
      SplitUndoesAmpJoin(statements, true);
    } else {
      var joined := Texts.Join(statements, "&&");
      AmpJoinLoses(statements, true);
      PiecesKeepAmps(joined, PLAIN, false, "");
      TrimmedKeepsAmps(Pieces(joined, PLAIN, false, ""));
      TrimmedKeepsAmps(statements);
    }
  }

  /** Splitting a join can fail: the ampersand at the end of the first statement is lost. */
  lemma {:induction false} TouchingAmpersandIsLost()
    ensures Statement("x&") && Statement("y") && Texts.Join(["x&", "y"], "&&") == "x&&&y"
    ensures Statements("x&&&y") != Trimmed(["x&", "y"])
  {
    assert "x&"[1..] == "&" && "&"[1..] == "" && "y"[1..] == "" && ["x&", "y"][1..] == ["y"];
    assert Statement("x&") && Statement("y");
    assert "x&"[..1] == "x" && "x"[1..] == "";
    assert EndsInAmp("x&", PLAIN);
    assert !SafeAt(["x&", "y"][0], true, false);
    SplitUndoesAmpJoinExactly(["x&", "y"]);
  }

  // ---------------------------------------------------------------- which texts are statements

  /** The i-th character is neither quoted nor escaped. */
  predicate Bare(s: string, i: int) {
    0 <= i < |s| && After(PLAIN, s[..i]) == PLAIN
  }

  /** No bare semicolon, newline or double ampersand. */
  ghost predicate NoSeparator(s: string) {
    forall i :: Bare(s, i) ==> s[i] != ';' && s[i] != '\n' && !(s[i] == '&' && i + 1 < |s| && s[i + 1] == '&')
  }

  /** A bare ampersand right after an escaped one. */
  predicate FollowsEscaped(s: string, i: int) {
    Bare(s, i) && s[i] == '&' && i > 0 && s[i - 1] == '&' && After(PLAIN, s[..i - 1]) == Mode(NO_QUOTE, true)
  }

  function ActionAt(s: string, i: nat): Action
    requires i < |s|
  {
    ActionOn(After(PLAIN, s[..i]), i > 0 && s[i - 1] == '&', s[i], i + 1 < |s| && s[i + 1] == '&')
  }

  lemma {:induction false} AfterNext(s: string, i: nat)
    requires i < |s|
    ensures After(PLAIN, s[..i + 1]) == Next(After(PLAIN, s[..i]), s[i])
  {
    AfterConcat(PLAIN, s[..i], [s[i]]);
    assert s[..i + 1] == s[..i] + [s[i]];
    assert After(After(PLAIN, s[..i]), [s[i]]) == Next(After(PLAIN, s[..i]), s[i]);
  }

  lemma {:induction false} KeptFrom(s: string, k: nat)
    requires k <= |s|
    ensures AllKept(s[k..], After(PLAIN, s[..k]), k > 0 && s[k - 1] == '&', false)
        <==> forall i :: k <= i < |s| ==> ActionAt(s, i) == Keep
    decreases |s| - k
  {
    if k < |s| {
      KeptFrom(s, k + 1);
      AfterNext(s, k);
      assert s[k..][1..] == s[k + 1..] && s[k..][0] == s[k];
      assert (forall i :: k <= i < |s| ==> ActionAt(s, i) == Keep)
        <==> ActionAt(s, k) == Keep && forall i :: k + 1 <= i < |s| ==> ActionAt(s, i) == Keep;
    }
  }

  lemma {:induction false} KeptAmpsFrom(s: string, k: nat)
    requires k <= |s|
    ensures var kept := KeptAmps(s[k..], After(PLAIN, s[..k]), k > 0 && s[k - 1] == '&', false);
            && kept <= Amps(s[k..])
            && (kept == Amps(s[k..]) <==> forall i :: k <= i < |s| && s[i] == '&' ==> ActionAt(s, i) == Keep)
    decreases |s| - k
  {
    if k < |s| {
      KeptAmpsFrom(s, k + 1);
      AfterNext(s, k);
      assert s[k..][1..] == s[k + 1..];
    }
  }

  /** Only quote characters open quotes. */
  lemma {:induction false} QuotesAreQuotes(mode: Mode, s: string)
    requires mode.quote in {NO_QUOTE, '\'', '"'}
    ensures After(mode, s).quote in {NO_QUOTE, '\'', '"'}
    decreases s
  {
    if s != "" { QuotesAreQuotes(Next(mode, s[0]), s[1..]); }
  }

  /** Without separators the only characters not kept are the ampersands right after escaped ones. */
  lemma {:induction false} DroppedExactly(s: string, i: nat)
    requires NoSeparator(s) && i < |s|
    ensures ActionAt(s, i) != Keep <==> FollowsEscaped(s, i)
  {
    if i > 0 {
      AfterNext(s, i - 1);
      QuotesAreQuotes(PLAIN, s[..i - 1]);
    }
    assert Bare(s, i) <==> After(PLAIN, s[..i]) == PLAIN;
    assert i > 0 ==> (Bare(s, i - 1) <==> After(PLAIN, s[..i - 1]) == PLAIN);
  }

  lemma {:induction false} SeparatorsAreNotKept(s: string)
    requires forall i: nat :: i < |s| ==> ActionAt(s, i) == Keep
    ensures NoSeparator(s)
  {
    forall i: int | Bare(s, i)
      ensures s[i] != ';' && s[i] != '\n' && !(s[i] == '&' && i + 1 < |s| && s[i + 1] == '&')
    {
      assert ActionAt(s, i) == Keep;
    }
  }

  /** A statement is a closed text without separators in which no bare ampersand follows an escaped one. */
  lemma {:induction false} StatementExactly(s: string)
    ensures Statement(s) <==> Closed(s) && NoSeparator(s) && forall i :: !FollowsEscaped(s, i)
  {
    KeptFrom(s, 0);
    assert s[0..] == s && s[..0] == "";
    if NoSeparator(s) {
      forall i: nat | i < |s|
        ensures ActionAt(s, i) != Keep <==> FollowsEscaped(s, i)
      {
        DroppedExactly(s, i);
      }
    }
    if AllKept(s, PLAIN, false, false) { SeparatorsAreNotKept(s); }
  }

  /** A text without separators comes back as one statement exactly when no bare ampersand follows an escaped one:
      otherwise that ampersand is lost. */
  lemma {:induction false} EscapedAmpersandEatsTheNextExactly(s: string)
    requires NoSeparator(s)
    ensures Statements(s) == Trimmed([s]) <==> forall i :: !FollowsEscaped(s, i)
  {
    assert s[0..] == s && s[..0] == "";
    forall i: nat | i < |s|
      ensures ActionAt(s, i) != Keep <==> FollowsEscaped(s, i)
    {
      DroppedExactly(s, i);
    }
    if i :| FollowsEscaped(s, i) {
      KeptAmpsFrom(s, 0);
      PiecesKeepAmps(s, PLAIN, false, "");
      TrimmedKeepsAmps(Pieces(s, PLAIN, false, ""));
      TrimmedKeepsAmps([s]);
      assert [s][1..] == [];
    } else {
      KeptFrom(s, 0);
      KeptThrough(s, "", PLAIN, false, "");
      assert s + "" == s && "" + s == s;
    }
  }

  /** Such a text. */
  lemma {:induction false} EscapedAmpersandEatsTheNext()
    ensures NoSeparator("\\&&x") && Statements("\\&&x") == ["\\&x"]
  {
    EscapedPieces();
    EscapedHasNoSeparator();
    assert TrimLeft("\\&x") == "\\&x" == TrimRight("\\&x");
    assert ["\\&x"][1..] == [];
  }

  lemma {:induction false} EscapedPieces()
    ensures Pieces("\\&&x", PLAIN, false, "") == ["\\&x"]
  {
    var s := "\\&&x";
    assert s[1..] == "&&x" && "&&x"[1..] == "&x" && "&x"[1..] == "x" && "x"[1..] == "";
    assert "" + ['\\'] == "\\" && "\\" + ['&'] == "\\&" && "\\&" + ['x'] == "\\&x";
    assert Pieces("x", PLAIN, true, "\\&") == ["\\&x"];
    assert Pieces("&x", PLAIN, true, "\\&") == ["\\&x"];
    assert Pieces("&&x", Mode(NO_QUOTE, true), false, "\\") == ["\\&x"];
  }

  lemma {:induction false} EscapedHasNoSeparator()
    ensures NoSeparator("\\&&x")
  {
    var s := "\\&&x";
    AfterNext(s, 0);
    assert s[..0] == "" && After(PLAIN, s[..1]) == Mode(NO_QUOTE, true);
    AfterNext(s, 1);
  }

  // ---------------------------------------------------------------- creation commands

  function FieldsFrom(s: string, word: string): seq<string> {
    if s == "" then (if word == "" then [] else [word])
    else if IsSpace(s[0]) then (if word == "" then [] else [word]) + FieldsFrom(s[1..], "")
    else FieldsFrom(s[1..], word + [s[0]])
  }

  function Fields(s: string): seq<string> {
    FieldsFrom(s, "")
  }

  datatype Provider = GitHub | GitLab

  function CreationKind(statement: string): Option<Provider> {
    var fields := Fields(statement);
    if |fields| < 3 then None
    else if fields[0] == "gh" && fields[1] == "pr" && fields[2] == "create" then Some(GitHub)
    else if fields[0] == "glab" && fields[1] == "mr" && fields[2] == "create" then Some(GitLab)
    else None
  }

  function FirstCreation(statements: seq<string>): Option<Provider> {
    if statements == [] then None
    else if CreationKind(statements[0]).Some? then CreationKind(statements[0])
    else FirstCreation(statements[1..])
  }

  function CreationOf(command: string): Option<Provider> {
    FirstCreation(Statements(command))
  }

  method CreationCommand(command: string) returns (provider: Option<Provider>)
    ensures provider == CreationOf(command)
  {
    var statements := UnquotedStatements(command);
    assert statements[0..] == statements;
    for i := 0 to |statements|
      invariant FirstCreation(statements) == FirstCreation(statements[i..])
    {
      assert statements[i..][1..] == statements[i + 1..];
      var kind := CreationKind(statements[i]);
      if kind.Some? { return kind; }
    }
    return None;
  }

  lemma {:induction false} LeadingSpace(s: string)
    ensures Fields(TrimLeft(s)) == Fields(s)
  {
    if s != "" && IsSpace(s[0]) { LeadingSpace(s[1..]); }
  }

  lemma {:induction false} TrailingSpace(s: string, c: char, word: string)
    requires IsSpace(c)
    ensures FieldsFrom(s + [c], word) == FieldsFrom(s, word)
    decreases |s|
  {
    if s == "" {
      assert s + [c] == [c] && [c][1..] == "";
      assert FieldsFrom("", "") == [];
    } else {
      assert (s + [c])[1..] == s[1..] + [c];
      TrailingSpace(s[1..], c, "");
      TrailingSpace(s[1..], c, word + [s[0]]);
    }
  }

  lemma {:induction false} TrimRightKeepsFields(s: string)
    ensures Fields(TrimRight(s)) == Fields(s)
  {
    if s != "" && IsSpace(s[|s| - 1]) {
      TrimRightKeepsFields(s[..|s| - 1]);
      TrailingSpace(s[..|s| - 1], s[|s| - 1], "");
      assert s[..|s| - 1] + [s[|s| - 1]] == s;
    }
  }

  lemma {:induction false} TrimmedCreation(statements: seq<string>)
    ensures FirstCreation(Trimmed(statements)) == FirstCreation(statements)
  {
    if statements != [] {
      var s := statements[0];
      LeadingSpace(s);
      TrimRightKeepsFields(TrimLeft(s));
      assert Fields("") == [];
      TrimmedCreation(statements[1..]);
      var rest := Trimmed(statements[1..]);
      assert ([Trim(s)] + rest)[1..] == rest && [] + rest == rest;
      assert CreationKind(Trim(s)) == CreationKind(s);
    }
  }

  /** In a join of statements the first creating statement decides, whatever quoted text stands before it. */
  lemma {:induction false} CreationInJoin(statements: seq<string>, c: char)
    requires c == ';' || c == '\n'
    requires forall k :: 0 <= k < |statements| ==> Statement(statements[k])
    ensures CreationOf(Texts.Join(statements, [c])) == FirstCreation(statements)
  {
    SplitUndoesCharJoin(statements, c);
    TrimmedCreation(statements);
  }

  // ---------------------------------------------------------------- quoted text

  /** The inside of double quotes: no quote, and every backslash with the character it escapes. */
  predicate DoubleBody(t: string) {
    || t == ""
    || (if t[0] == '\\' then |t| >= 2 && DoubleBody(t[2..]) else t[0] != '"' && DoubleBody(t[1..]))
  }

  lemma {:induction false} SingleKept(t: string, prevAmp: bool)
    requires '\'' !in t
    ensures var s, mode := t + "'", Mode('\'', false); After(mode, s) == PLAIN && AllKept(s, mode, prevAmp, false)
  {
    if t == "" {
      assert t + "'" == "'" && "'"[1..] == "";
    } else {
      assert (t + "'")[1..] == t[1..] + "'";
      SingleKept(t[1..], t[0] == '&');
    }
  }

  lemma {:induction false} DoubleKept(t: string, prevAmp: bool)
    requires DoubleBody(t)
    ensures var s, mode := t + "\"", Mode('"', false); After(mode, s) == PLAIN && AllKept(s, mode, prevAmp, false)
  {
    var s := t + "\"";
    if t == "" {
      assert s == "\"" && "\""[1..] == "";
    } else if t[0] == '\\' {
      assert s[1..][1..] == t[2..] + "\"" && s[1..][0] == t[1];
      DoubleKept(t[2..], t[1] == '&');
    } else {
      assert s[1..] == t[1..] + "\"";
      DoubleKept(t[1..], t[0] == '&');
    }
  }

  /** Quoted text is one statement whatever is in it: in single quotes all but a single quote, in double quotes all but a
      double quote that is not escaped. */
  lemma {:induction false} QuotedIsOneStatement(t: string)
    ensures '\'' !in t ==> Statement("'" + t + "'") && Statements("'" + t + "'") == ["'" + t + "'"]
    ensures DoubleBody(t) ==> Statement("\"" + t + "\"") && Statements("\"" + t + "\"") == ["\"" + t + "\""]
  {
    if '\'' !in t {
      SingleKept(t, false);
      QuoteOpens('\'', t);
    }
    if DoubleBody(t) {
      DoubleKept(t, false);
      QuoteOpens('"', t);
    }
  }

  lemma {:induction false} QuoteOpens(quote: char, t: string)
    requires quote == '\'' || quote == '"'
    requires var s, mode := t + [quote], Mode(quote, false); After(mode, s) == PLAIN && AllKept(s, mode, false, false)
    ensures var s := [quote] + t + [quote]; Statement(s) && Statements(s) == [s]
  {
    var s := [quote] + t + [quote];
    assert s[1..] == t + [quote];
    LastStatement(s, true);
    assert !IsSpace(quote) && s[|s| - 1] == quote;
    assert Trim(s) == s && [s][1..] == [];
    assert Trimmed([s]) == [s] + Trimmed([]) == [s];
  }

  /** An escaped character, and one that means nothing, are kept. */
  lemma {:induction false} EscapedIsKept(c: char)
    ensures Statement(['\\', c])
    ensures c !in "\\'\";\n" ==> Statement([c])
  {
    assert ['\\', c][1..] == [c] && [c][1..] == "";
    assert After(Mode(NO_QUOTE, true), [c]) == PLAIN;
  }

  /** Two statements written one behind the other make one, unless two ampersands meet. */
  lemma {:induction false} StatementsConcat(s: string, t: string)
    requires Statement(s) && Statement(t) && !(LastIsAmp(s, false) && StartsWithAmp(t))
    ensures Statement(s + t)
  {
    AfterConcat(PLAIN, s, t);
    KeptConcat(s, t, PLAIN, false);
  }

  lemma {:induction false} KeptConcat(s: string, t: string, mode: Mode, prevAmp: bool)
    requires AllKept(s, mode, prevAmp, false) && AllKept(t, After(mode, s), false, false)
    requires !(LastIsAmp(s, prevAmp) && StartsWithAmp(t))
    ensures AllKept(s + t, mode, prevAmp, false)
    decreases s
  {
    if s == "" {
      assert s + t == t;
    } else {
      assert (s + t)[1..] == s[1..] + t;
      assert |s| == 1 ==> s[1..] == "";
      KeptConcat(s[1..], t, Next(mode, s[0]), s[0] == '&');
    }
  }

  // ---------------------------------------------------------------- creation commands, word by word

  /** The white space of Unicode. */
  const WHITE: set<char> := {
    '\t', '\n', '\U{0B}', '\U{0C}', '\r', ' ', '\U{85}', '\U{A0}', '\U{1680}', '\U{2000}', '\U{2001}', '\U{2002}', '\U{2003}',
    '\U{2004}', '\U{2005}', '\U{2006}', '\U{2007}', '\U{2008}', '\U{2009}', '\U{200A}', '\U{2028}', '\U{2029}', '\U{202F}',
    '\U{205F}', '\U{3000}'
  }

  lemma {:induction false} SpaceIsWhite(c: char)
    ensures IsSpace(c) <==> c in WHITE
  {
  }

  ghost predicate Blank(s: string) {
    forall c :: c in s ==> c in WHITE
  }

  ghost predicate Solid(s: string) {
    s != "" && forall c :: c in s ==> c !in WHITE
  }

  ghost predicate Parts(s: string, lead: string, word: string, rest: string) {
    s == lead + (word + rest) && Blank(lead) && Solid(word) && (rest == "" || rest[0] in WHITE)
  }

  lemma {:induction false} SkipBlank(lead: string, s: string)
    requires Blank(lead)
    ensures Fields(lead + s) == Fields(s)
  {
    if lead == "" {
      assert lead + s == s;
    } else {
      SpaceIsWhite(lead[0]);
      SkipBlank(lead[1..], s);
      assert (lead + s)[1..] == lead[1..] + s;
    }
  }

  lemma {:induction false} TakeWord(before: string, word: string, rest: string)
    requires (before != "" || word != "") && (forall c :: c in word ==> c !in WHITE) && (rest == "" || rest[0] in WHITE)
    ensures FieldsFrom(word + rest, before) == [before + word] + Fields(rest)
    decreases word
  {
    if word == "" {
      assert word + rest == rest && before + word == before;
      if rest != "" { SpaceIsWhite(rest[0]); }
    } else {
      SpaceIsWhite(word[0]);
      assert (word + rest)[1..] == word[1..] + rest;
      TakeWord(before + [word[0]], word[1..], rest);
      assert before + [word[0]] + word[1..] == before + word;
    }
  }

  lemma {:induction false} PartsGive(s: string, lead: string, word: string, rest: string)
    requires Parts(s, lead, word, rest)
    ensures Fields(s) == [word] + Fields(rest)
  {
    SkipBlank(lead, word + rest);
    TakeWord("", word, rest);
    assert "" + word == word;
  }

  lemma {:induction false} FirstWord(s: string, word: string) returns (more: string, rest: string)
    requires word != ""
    ensures s == more + rest && (forall c :: c in more ==> c !in WHITE) && (rest == "" || rest[0] in WHITE)
    decreases s
  {
    if s == "" {
      more, rest := "", "";
    } else {
      SpaceIsWhite(s[0]);
      if IsSpace(s[0]) {
        more, rest := "", s;
      } else {
        var m, r := FirstWord(s[1..], word + [s[0]]);
        more, rest := [s[0]] + m, r;
      }
    }
  }

  /** A text with a field has its first one behind blanks. */
  lemma {:induction false} FieldsPart(s: string) returns (lead: string, word: string, rest: string)
    requires Fields(s) != []
    ensures Parts(s, lead, word, rest)
  {
    SpaceIsWhite(s[0]);
    if IsSpace(s[0]) {
      var l, w, r := FieldsPart(s[1..]);
      lead, word, rest := [s[0]] + l, w, r;
      assert s == [s[0]] + s[1..];
    } else {
      var more, r := FirstWord(s[1..], [s[0]]);
      lead, word, rest := "", [s[0]] + more, r;
      assert s == [s[0]] + s[1..] == "" + ([s[0]] + more + r);
    }
  }

  /** The text begins with these words, white space between them. */
  ghost predicate Begins(s: string, words: seq<string>)
    decreases |words|
  {
    words == [] || exists lead, rest :: Parts(s, lead, words[0], rest) && Begins(rest, words[1..])
  }

  ghost predicate Lead(words: seq<string>, all: seq<string>) {
    |words| <= |all| && all[..|words|] == words
  }

  lemma {:induction false} BeginsExactly(s: string, words: seq<string>)
    requires forall word :: word in words ==> Solid(word)
    ensures Begins(s, words) <==> Lead(words, Fields(s))
    decreases |words|
  {
    if words != [] {
      if Begins(s, words) {
        var lead, rest :| Parts(s, lead, words[0], rest) && Begins(rest, words[1..]);
        PartsGive(s, lead, words[0], rest);
        BeginsExactly(rest, words[1..]);
        assert [words[0]] + words[1..] == words;
      }
      if Lead(words, Fields(s)) {
        var lead, word, rest := FieldsPart(s);
        PartsGive(s, lead, word, rest);
        assert word == Fields(s)[..|words|][0] && Fields(rest)[..|words| - 1] == Fields(s)[..|words|][1..];
        BeginsExactly(rest, words[1..]);
        assert Parts(s, lead, words[0], rest) && Begins(rest, words[1..]);
      }
    }
  }

  lemma {:induction false} PlainWords()
    ensures forall word :: word in ["gh", "pr", "create", "glab", "mr"] ==> Solid(word)
  {
    forall word, c | word in ["gh", "pr", "create", "glab", "mr"] && c in word
      ensures !IsSpace(c) && c !in WHITE
    {
      SpaceIsWhite(c);
    }
  }

  lemma {:induction false} ThreeFields(fields: seq<string>, a: string, b: string, c: string)
    ensures Lead([a, b, c], fields) <==> |fields| >= 3 && fields[0] == a && fields[1] == b && fields[2] == c
  {
    if |fields| >= 3 { assert fields[..3] == [fields[0], fields[1], fields[2]]; }
  }

  /** gh pr create makes a GitHub request, glab mr create a GitLab one, nothing else any. */
  lemma {:induction false} CreationKindExactly(s: string)
    ensures CreationKind(s) == Some(GitHub) <==> Begins(s, ["gh", "pr", "create"])
    ensures CreationKind(s) == Some(GitLab) <==> Begins(s, ["glab", "mr", "create"])
  {
    PlainWords();
    BeginsExactly(s, ["gh", "pr", "create"]);
    BeginsExactly(s, ["glab", "mr", "create"]);
    KindOfFields(s);
  }

  lemma {:induction false} KindOfFields(s: string)
    ensures CreationKind(s) == Some(GitHub) <==> Lead(["gh", "pr", "create"], Fields(s))
    ensures CreationKind(s) == Some(GitLab) <==> Lead(["glab", "mr", "create"], Fields(s))
  {
    ThreeFields(Fields(s), "gh", "pr", "create");
    ThreeFields(Fields(s), "glab", "mr", "create");
    assert "gh" != "glab";
  }

  /** The command's provider is that of its first statement that creates. */
  lemma {:induction false} CreationOfExactly(command: string)
    ensures var statements := Statements(command);
            match CreationOf(command)
            case None => forall k :: 0 <= k < |statements| ==> CreationKind(statements[k]).None?
            case Some(provider) =>
              exists k :: 0 <= k < |statements| && CreationKind(statements[k]) == Some(provider)
                && forall j :: 0 <= j < k ==> CreationKind(statements[j]).None?
  {
    FirstCreationExactly(Statements(command));
  }

  lemma {:induction false} FirstCreationExactly(statements: seq<string>)
    ensures match FirstCreation(statements)
            case None => forall k :: 0 <= k < |statements| ==> CreationKind(statements[k]).None?
            case Some(provider) =>
              exists k :: 0 <= k < |statements| && CreationKind(statements[k]) == Some(provider)
                && forall j :: 0 <= j < k ==> CreationKind(statements[j]).None?
  {
    if statements != [] && CreationKind(statements[0]).None? {
      FirstCreationExactly(statements[1..]);
      if FirstCreation(statements).Some? {
        var provider := FirstCreation(statements).value;
        var k :| 0 <= k < |statements[1..]| && CreationKind(statements[1..][k]) == Some(provider)
                 && forall j :: 0 <= j < k ==> CreationKind(statements[1..][j]).None?;
        assert CreationKind(statements[k + 1]) == Some(provider);
        assert forall j :: 0 < j < k + 1 ==> statements[j] == statements[1..][j - 1];
      } else {
        assert forall k :: 0 < k < |statements| ==> statements[k] == statements[1..][k - 1];
      }
    }
  }
}
