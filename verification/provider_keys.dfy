/** Opaque provider keys: the length-prefixed preimage of providerOpaqueKey in
    internal/changehost/provider_common.go. The hash is a parameter that yields hexadecimal text. */
module ProviderKeys {
  import opened Texts

  type Digest = string -> string

  /** What is written into the hash: every part behind its own length. */
  function Frame(parts: seq<string>): string {
    if parts == [] then ""
    else Decimal(|parts[0]|) + ":" + parts[0] + Frame(parts[1..])
  }

  function ProviderOpaqueKey(digest: Digest, prefix: string, parts: seq<string>): string {
    prefix + "-" + digest(Frame(parts))
  }

  lemma {:induction false} FrameAppend(parts: seq<string>, part: string)
    ensures Frame(parts + [part]) == Frame(parts) + (Decimal(|part|) + ":" + part)
  {
    if parts == [] {
      assert [part][1..] == [];
      assert "" + (Decimal(|part|) + ":" + part) == Decimal(|part|) + ":" + part + "";
    } else {
      FrameAppend(parts[1..], part);
      assert (parts + [part])[1..] == parts[1..] + [part];
      var head := Decimal(|parts[0]|) + ":" + parts[0];
      assert head + (Frame(parts[1..]) + (Decimal(|part|) + ":" + part))
          == head + Frame(parts[1..]) + (Decimal(|part|) + ":" + part);
    }
  }

  /** The hashing loop. */
  method WriteParts(parts: seq<string>) returns (hashed: string)
    ensures hashed == Frame(parts)
  {
    hashed := "";
    for i := 0 to |parts|
      invariant hashed == Frame(parts[..i])
    {
      FrameAppend(parts[..i], parts[i]);
      assert parts[..i + 1] == parts[..i] + [parts[i]];
      hashed := hashed + (Decimal(|parts[i]|) + ":" + parts[i]);
    }
    assert parts[..|parts|] == parts;
  }

  lemma {:induction false} ColonEndsDecimal(n: nat, rest: string, m: nat, rest': string)
    requires Decimal(n) + ":" + rest == Decimal(m) + ":" + rest'
    ensures n == m && rest == rest'
  {
    DecimalIsDigits(n);
    DecimalIsDigits(m);
    var u, v := Decimal(n) + ":" + rest, Decimal(m) + ":" + rest';
    assert u[|Decimal(n)|] == ':' && v[|Decimal(m)|] == ':';
    assert forall i | 0 <= i < |Decimal(n)| :: u[i] == Decimal(n)[i] != ':';
    assert forall i | 0 <= i < |Decimal(m)| :: v[i] == Decimal(m)[i] != ':';
    assert |Decimal(n)| == |Decimal(m)|;
    assert Decimal(n) == u[..|Decimal(n)|] && Decimal(m) == v[..|Decimal(m)|];
    assert rest == u[|Decimal(n)| + 1..] && rest' == v[|Decimal(m)| + 1..];
    DecimalInjective(n, m);
  }

  lemma {:induction false} FrameHead(parts: seq<string>)
    requires parts != []
    ensures Frame(parts) == Decimal(|parts[0]|) + ":" + (parts[0] + Frame(parts[1..]))
  {
    assert Decimal(|parts[0]|) + ":" + parts[0] + Frame(parts[1..])
        == Decimal(|parts[0]|) + ":" + (parts[0] + Frame(parts[1..]));
  }

  /** The preimage determines the parts, whatever their number and contents. */
  lemma {:induction false} FrameInjective(p: seq<string>, q: seq<string>)
    requires Frame(p) == Frame(q)
    ensures p == q
  {
    if p != [] && q != [] {
      FrameHead(p);
      FrameHead(q);
      var restP, restQ := p[0] + Frame(p[1..]), q[0] + Frame(q[1..]);
      ColonEndsDecimal(|p[0]|, restP, |q[0]|, restQ);
      assert p[0] == restP[..|p[0]|] && q[0] == restQ[..|q[0]|];
      assert Frame(p[1..]) == restP[|p[0]|..] && Frame(q[1..]) == restQ[|q[0]|..];
      FrameInjective(p[1..], q[1..]);
      assert p == [p[0]] + p[1..] && q == [q[0]] + q[1..];
    } else if p != [] {
      FrameHead(p);
    } else if q != [] {
      FrameHead(q);
    }
  }

  ghost predicate Collision(digest: Digest, u: string, v: string) {
    u != v && digest(u) == digest(v)
  }

  /** The last dash parts a text into two when the second has none. */
  lemma {:induction false} LastDash(prefix: string, h: string, prefix': string, h': string)
    requires '-' !in h && '-' !in h' && prefix + "-" + h == prefix' + "-" + h'
    ensures prefix == prefix' && h == h'
  {
    var u, v := prefix + "-" + h, prefix' + "-" + h';
    assert u[|prefix|] == '-' && v[|prefix'|] == '-';
    assert forall i | |prefix| < i < |u| :: u[i] == h[i - |prefix| - 1] != '-';
    assert forall i | |prefix'| < i < |v| :: v[i] == h'[i - |prefix'| - 1] != '-';
    assert |prefix| == |prefix'|;
    assert prefix == u[..|prefix|] && prefix' == v[..|prefix'|];
    assert h == u[|prefix| + 1..] && h' == v[|prefix'| + 1..];
  }

  /** Equal keys have equal prefixes, and equal parts unless the hash itself collides. */
  lemma {:induction false} OpaqueKeyInjective(digest: Digest, prefix: string, parts: seq<string>, prefix': string,
                                              parts': seq<string>)
    requires '-' !in digest(Frame(parts)) && '-' !in digest(Frame(parts'))
    requires ProviderOpaqueKey(digest, prefix, parts) == ProviderOpaqueKey(digest, prefix', parts')
    ensures prefix == prefix'
    ensures parts == parts' || Collision(digest, Frame(parts), Frame(parts'))
  {
    LastDash(prefix, digest(Frame(parts)), prefix', digest(Frame(parts')));
    if parts != parts' && Frame(parts) == Frame(parts') { FrameInjective(parts, parts'); }
  }

  // ---------------------------------------------------------------- the keys built on it

  function ProviderContentKey(digest: Digest, provider: string, objectId: string, nativeVersion: string, base: string,
                              diffBase: string, head: string, manifest: string): string
  {
    ProviderOpaqueKey(digest, provider + "-content", [objectId, nativeVersion, base, diffBase, head, manifest])
  }

  function ProviderFileKey(digest: Digest, provider: string, objectId: string, oldPath: string, newPath: string): string
  {
    ProviderOpaqueKey(digest, provider + "-file", [objectId, oldPath, newPath])
  }

  /** A frame, and a file's key over one, written out. */
  lemma {:induction false} FrameWrittenOut()
    ensures Frame(["ab", "", "c"]) == "2:ab0:1:c"
  {
    assert ["ab", "", "c"][1..] == ["", "c"] && ["", "c"][1..] == ["c"] && ["c"][1..] == [];
    assert Frame(["c"]) == "1:c" + "" == "1:c";
    assert Frame(["", "c"]) == "0:" + "" + "1:c" == "0:1:c";
    assert "2:" + "ab" + "0:1:c" == "2:ab0:1:c";
  }

  lemma {:induction false} FileKeyWrittenOut(digest: Digest, objectId: string, oldPath: string, newPath: string)
    ensures ProviderFileKey(digest, "github", objectId, oldPath, newPath)
         == "github-file-" + digest(Frame([objectId, oldPath, newPath]))
  {
    assert "github" + "-file" + "-" == "github-file-";
  }

  ghost predicate HexDigest(digest: Digest) {
    forall s :: '-' !in digest(s)
  }

  lemma {:induction false} FileKeyInjective(digest: Digest, provider: string, objectId: string, o: string, n: string,
                                            o': string, n': string)
    requires HexDigest(digest)
    requires ProviderFileKey(digest, provider, objectId, o, n) == ProviderFileKey(digest, provider, objectId, o', n')
    ensures (o == o' && n == n') || Collision(digest, Frame([objectId, o, n]), Frame([objectId, o', n']))
  {
    OpaqueKeyInjective(digest, provider + "-file", [objectId, o, n], provider + "-file", [objectId, o', n']);
    assert [objectId, o, n] == [objectId, o', n'] ==>
             [objectId, o, n][1] == [objectId, o', n'][1] && [objectId, o, n][2] == [objectId, o', n'][2];
  }

  // ---------------------------------------------------------------- path and text limits

  function Itoa(n: int): string {
    if n < 0 then "-" + Decimal(-n) else Decimal(n)
  }

  lemma {:induction false} ItoaInjective(m: int, n: int)
    requires Itoa(m) == Itoa(n)
    ensures m == n
  {
    if m >= 0 { DecimalIsDigits(m); }
    if n >= 0 { DecimalIsDigits(n); }
    assert Itoa(m)[0] == '-' <==> m < 0;
    assert Itoa(n)[0] == '-' <==> n < 0;
    if m < 0 {
      assert Decimal(-m) == Itoa(m)[1..] && Decimal(-n) == Itoa(n)[1..];
      DecimalInjective(-m, -n);
    } else {
      DecimalInjective(m, n);
    }
  }

  predicate SafeProviderText(value: string, maximum: nat) {
    value != "" && |value| <= maximum && '\0' !in value
  }

  predicate SafeProviderPath(value: string) {
    && SafeProviderText(value, 4096)
    && value[0] != '/' && value[|value| - 1] != '/'
    && forall i :: 0 <= i < |Split(value, '/')| ==> Split(value, '/')[i] !in {"", ".", ".."}
  }

  /** A safe path is a list of segments, none of them empty or a dot or two, in at most 4096 characters without a zero. */
  lemma {:induction false} SafePathExactly(value: string)
    ensures SafeProviderPath(value)
        <==> |value| <= 4096 && '\0' !in value && exists segments :: SegmentsOf(value, segments)
  {
    if SafeProviderPath(value) {
      JoinOfSplit(value, '/');
      SplitIsClean(value, '/');
      assert SegmentsOf(value, Split(value, '/'));
    }
    if |value| <= 4096 && '\0' !in value {
      if segments :| SegmentsOf(value, segments) {
        SplitOfJoin(segments, '/');
        EndsOfJoin(segments);
      }
    }
  }

  ghost predicate SegmentsOf(value: string, segments: seq<string>) {
    && segments != [] && value == Join(segments, ['/']) && Clean('/', segments)
    && forall i :: 0 <= i < |segments| ==> segments[i] != "" && segments[i] != "." && segments[i] != ".."
  }

  lemma {:induction false} EndsOfJoin(segments: seq<string>)
    requires segments != [] && Clean('/', segments) && forall i :: 0 <= i < |segments| ==> segments[i] != ""
    ensures var value := Join(segments, ['/']); value != "" && value[0] != '/' && value[|value| - 1] != '/'
  {
    if |segments| > 1 {
      var rest := Join(segments[1..], ['/']);
      EndsOfJoin(segments[1..]);
      assert Join(segments, ['/']) == segments[0] + ['/'] + rest;
      assert segments[0][0] in segments[0];
    } else {
      assert segments[0][0] in segments[0] && segments[0][|segments[0]| - 1] in segments[0];
    }
  }

  predicate IsProviderSha(value: string) {
    && (|value| == 40 || |value| == 64)
    && forall i :: 0 <= i < |value| ==> '0' <= value[i] <= '9' || 'a' <= value[i] <= 'f'
  }
}
