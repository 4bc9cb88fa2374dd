/** The composite IDs of internal/collaboration/identity.go: percent-escaped components joined by
    ':' and '->'. The comments of that file promise injectivity; the lemmas prove it. */
module Identity {

  function EscapeChar(c: char): string {
    if c == '%' then "%25"
    else if c == ':' then "%3A"
    else if c == '>' then "%3E"
    else [c]
  }

  /** strings.NewReplacer scans once, so the replacement text is never escaped again. */
  function EscapeIdComponent(s: string): string {
    if s == "" then "" else EscapeChar(s[0]) + EscapeIdComponent(s[1..])
  }

  function RootInvocationId(agentType: string, rootSessionId: string): string {
    EscapeIdComponent(agentType) + ":" + EscapeIdComponent(rootSessionId) + ":root"
  }

  function ChildInvocationId(agentType: string, rootSessionId: string, nativeId: string): string {
    EscapeIdComponent(agentType) + ":" + EscapeIdComponent(rootSessionId) + ":child:" + EscapeIdComponent(nativeId)
  }

  function DelegationIdFor(parentInvocationId: string, childInvocationId: string): string {
    parentInvocationId + "->" + childInvocationId
  }

  /** An endpoint as the helpers build it: the root of a session or one of its children. */
  datatype Endpoint = RootOf(agentType: string, sessionId: string)
                    | ChildOf(agentType: string, sessionId: string, nativeId: string)

  function InvocationId(e: Endpoint): string {
    match e
    case RootOf(a, s) => RootInvocationId(a, s)
    case ChildOf(a, s, n) => ChildInvocationId(a, s, n)
  }

  lemma {:induction false} EscapeHasNoSeparator(s: string)
    ensures ':' !in EscapeIdComponent(s) && '>' !in EscapeIdComponent(s)
  {
    if s != "" { EscapeHasNoSeparator(s[1..]); }
  }

  lemma {:induction false} EscapeInjective(s: string, t: string)
    requires EscapeIdComponent(s) == EscapeIdComponent(t)
    ensures s == t
  {
    if s != "" && t != "" {
      var es, et := EscapeIdComponent(s), EscapeIdComponent(t);
      var hs, ht := EscapeChar(s[0]), EscapeChar(t[0]);
      assert es[0] == hs[0] && et[0] == ht[0];
      if hs[0] == '%' {
        assert |hs| == |ht| == 3;
        assert es[2] == hs[2] && et[2] == ht[2];
      }
      assert s[0] == t[0];
      assert EscapeIdComponent(s[1..]) == es[|hs|..] && EscapeIdComponent(t[1..]) == et[|ht|..];
      EscapeInjective(s[1..], t[1..]);
      assert s == [s[0]] + s[1..] && t == [t[0]] + t[1..];
    }
  }

  function HexValue(c: char): nat {
    if '0' <= c <= '9' then c as int - '0' as int else if 'A' <= c <= 'F' then c as int - 'A' as int + 10 else 0
  }

  /** Percent-decoding: a percent sign and two hexadecimal digits stand for the character of that code. */
  function Unescaped(s: string): string {
    if s == "" then ""
    else if s[0] == '%' && |s| >= 3 then [(16 * HexValue(s[1]) + HexValue(s[2])) as char] + Unescaped(s[3..])
    else [s[0]] + Unescaped(s[1..])
  }

  /** Percent-decoding undoes escaping. */
  lemma {:induction false} UnescapeEscape(s: string)
    ensures Unescaped(EscapeIdComponent(s)) == s
  {
    if s != "" {
      var head, rest := EscapeChar(s[0]), EscapeIdComponent(s[1..]);
      UnescapeEscape(s[1..]);
      assert (head + rest)[|head|..] == rest && s == [s[0]] + s[1..];
      assert '%' as int == 37 && ':' as int == 58 && '>' as int == 62;
    }
  }

  predicate Plain(s: string) {
    forall i :: 0 <= i < |s| ==> s[i] != '%' && s[i] != ':' && s[i] != '>'
  }

  lemma {:induction false} EscapePlain(s: string)
    requires Plain(s)
    ensures EscapeIdComponent(s) == s
  {
    if s != "" {
      assert forall i :: 0 <= i < |s[1..]| ==> s[1..][i] == s[i + 1];
      EscapePlain(s[1..]);
      assert s == [s[0]] + s[1..];
    }
  }

  /** Components without the escaped characters stand in the ID as they are. */
  lemma {:induction false} PlainIds(agentType: string, sessionId: string, nativeId: string)
    requires Plain(agentType) && Plain(sessionId) && Plain(nativeId)
    ensures RootInvocationId(agentType, sessionId) == agentType + ":" + sessionId + ":root"
    ensures ChildInvocationId(agentType, sessionId, nativeId) == agentType + ":" + sessionId + ":child:" + nativeId
    ensures DelegationIdFor(sessionId, nativeId) == sessionId + "->" + nativeId
  {
    EscapePlain(agentType);
    EscapePlain(sessionId);
    EscapePlain(nativeId);
  }

  /** A separator that occurs in neither head determines where the head ends. */
  lemma {:induction false} SplitAtSeparator(c: char, a: string, x: string, b: string, y: string)
    requires c !in a && c !in b
    requires a + [c] + x == b + [c] + y
    ensures a == b && x == y
  {
    var u, v := a + [c] + x, b + [c] + y;
    assert u[|a|] == c && v[|b|] == c;
    assert forall i | 0 <= i < |a| :: u[i] == a[i] != c;
    assert forall i | 0 <= i < |b| :: v[i] == b[i] != c;
    assert |a| == |b|;
    assert a == u[..|a|] && b == v[..|b|];
    assert x == u[|a| + 1..] && y == v[|b| + 1..];
  }

  /** What follows the first two components: "root", or "child:" and the escaped native ID. */
  function Tail(e: Endpoint): string {
    match e
    case RootOf(_, _) => "root"
    case ChildOf(_, _, n) => "child:" + EscapeIdComponent(n)
  }

  lemma {:induction false} Regroup(a: string, s: string, sep: string, rest: string)
    ensures a + sep + s + (sep + rest) == a + sep + (s + sep + rest)
  {
  }

  lemma {:induction false} InvocationIdShape(e: Endpoint)
    ensures InvocationId(e)
         == EscapeIdComponent(e.agentType) + [':'] + (EscapeIdComponent(e.sessionId) + [':'] + Tail(e))
  {
    var a, s := EscapeIdComponent(e.agentType), EscapeIdComponent(e.sessionId);
    match e
    case RootOf(_, _) =>
      assert ":root" == ":" + "root";
      Regroup(a, s, ":", "root");
    case ChildOf(_, _, n) =>
      var t := EscapeIdComponent(n);
      assert ":child:" == ":" + "child:";
      assert a + ":" + s + (":" + "child:") + t == a + ":" + s + (":" + ("child:" + t));
      Regroup(a, s, ":", "child:" + t);
  }

  /** Root and child IDs never collide, and an ID determines agent type, session and native ID. */
  lemma {:induction false} InvocationIdInjective(e: Endpoint, f: Endpoint)
    requires InvocationId(e) == InvocationId(f)
    ensures e == f
  {
    InvocationIdShape(e);
    InvocationIdShape(f);
    EscapeHasNoSeparator(e.agentType);
    EscapeHasNoSeparator(f.agentType);
    EscapeHasNoSeparator(e.sessionId);
    EscapeHasNoSeparator(f.sessionId);
    SplitAtSeparator(':', EscapeIdComponent(e.agentType), EscapeIdComponent(e.sessionId) + [':'] + Tail(e),
                     EscapeIdComponent(f.agentType), EscapeIdComponent(f.sessionId) + [':'] + Tail(f));
    SplitAtSeparator(':', EscapeIdComponent(e.sessionId), Tail(e), EscapeIdComponent(f.sessionId), Tail(f));
    EscapeInjective(e.agentType, f.agentType);
    EscapeInjective(e.sessionId, f.sessionId);
    assert "root"[0] == 'r' && Tail(e)[0] == Tail(f)[0];
    if e.ChildOf? {
      assert f.ChildOf?;
      assert EscapeIdComponent(e.nativeId) == Tail(e)[6..] && EscapeIdComponent(f.nativeId) == Tail(f)[6..];
      EscapeInjective(e.nativeId, f.nativeId);
    }
  }

  lemma {:induction false} InvocationIdHasNoArrow(e: Endpoint)
    ensures '>' !in InvocationId(e)
  {
    EscapeHasNoSeparator(e.agentType);
    EscapeHasNoSeparator(e.sessionId);
    if e.ChildOf? { EscapeHasNoSeparator(e.nativeId); }
  }

  /** Distinct pairs of helper-built endpoints give distinct delegation IDs. */
  lemma {:induction false} DelegationIdInjective(p: Endpoint, c: Endpoint, p': Endpoint, c': Endpoint)
    requires DelegationIdFor(InvocationId(p), InvocationId(c)) == DelegationIdFor(InvocationId(p'), InvocationId(c'))
    ensures p == p' && c == c'
  {
    InvocationIdHasNoArrow(p);
    InvocationIdHasNoArrow(p');
    var a, b := InvocationId(p), InvocationId(p');
    assert DelegationIdFor(a, InvocationId(c)) == (a + "-") + ['>'] + InvocationId(c);
    assert DelegationIdFor(b, InvocationId(c')) == (b + "-") + ['>'] + InvocationId(c');
    SplitAtSeparator('>', a + "-", InvocationId(c), b + "-", InvocationId(c'));
    assert a == (a + "-")[..|a|] && b == (b + "-")[..|b|];
    InvocationIdInjective(p, p');
    InvocationIdInjective(c, c');
  }

  /** The helpers must build the endpoints: raw endpoints that contain the arrow do collide. */
  lemma {:induction false} RawEndpointsCollide()
    ensures exists a, b, c, d: string :: (a, b) != (c, d) && DelegationIdFor(a, b) == DelegationIdFor(c, d)
  {
    assert DelegationIdFor("a", "b->c") == "a->b->c" == DelegationIdFor("a->b", "c");
    assert ("a", "b->c") != ("a->b", "c");
  }
}
