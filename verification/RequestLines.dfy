/** Where a request goes: the method, the target and the host its head names, read back from the bytes. */
module RequestLines {
  import opened Bytes
  import opened Scan
  import opened Headers
  import opened Encoder
  import opened RoundTrip
  import opened Framing

  /** GET unless the request names a method; the path of its URL, else its path, else the root. */
  predicate AsksFor(r: Request, verb: bytes, path: bytes) {
    && (r.verb != [] ==> verb == r.verb)
    && (r.verb == [] ==> verb == Ascii("GET"))
    && (r.parsedPath != [] ==> path == r.parsedPath)
    && (r.parsedPath == [] && r.path != [] ==> path == r.path)
    && (r.parsedPath == [] && r.path == [] ==> path == Ascii("/"))
  }

  /** A port is named after a colon in decimal digits, unless it is the default one or not positive. */
  predicate PortNamed(port: int, default: int, text: bytes) {
    && (port > 0 && port != default ==> text == [COLON] + Decimal(port))
    && (port <= 0 || port == default ==> text == [])
  }

  /** What stands between the method and the version: the path, or for a forward proxy the whole URL. */
  predicate IsTarget(t: Target, path: bytes, target: bytes) {
    && (!t.forwardProxy ==> target == path)
    && (t.forwardProxy && t.port > 0 && t.port != 80 ==>
          target == Ascii("http://") + t.host + ([COLON] + Decimal(t.port)) + path)
    && (t.forwardProxy && (t.port <= 0 || t.port == 80) ==> target == Ascii("http://") + t.host + path)
  }

  /** The first line and the start of the second. */
  function Opening(verb: bytes, target: bytes, host: bytes, port: bytes): bytes {
    verb + [SP] + target + Ascii(" HTTP/1.1\r\nHost: ") + host + port + CRLF
  }

  lemma TextsAre()
    ensures DefaultVerb() == Ascii("GET") && HttpScheme() == Ascii("http://")
    ensures Version() + HostName() == Ascii(" HTTP/1.1\r\nHost: ")
  {
    assert Version() + HostName() == Ascii(" HTTP/1.1\r\nHost: ");
  }

  lemma SuffixIs(port: int, default: int, text: bytes)
    requires PortNamed(port, default, text)
    ensures text == PortSuffix(port, default)
  {
    hide Decimal;
  }

  lemma TargetIs(r: Request, t: Target, verb: bytes, path: bytes, target: bytes)
    requires AsksFor(r, verb, path) && IsTarget(t, path, target)
    ensures verb == Verb(r) && target == Origin(t) + EffectivePath(r)
  {
    TextsAre();
    hide Decimal, DefaultVerb, HttpScheme, Version, HostName;
    assert HttpScheme() + t.host + [] == HttpScheme() + t.host;
  }

  lemma Part1Begins(r: Request, t: Target, verb: bytes, path: bytes, target: bytes, port: bytes)
    requires AsksFor(r, verb, path) && IsTarget(t, path, target)
    requires PortNamed(t.port, if t.useTLS then 443 else 80, port)
    ensures Opening(verb, target, t.host, port) <= Part1(r, t)
  {
    TextsAre();
    TargetIs(r, t, verb, path, target);
    SuffixIs(t.port, if t.useTLS then 443 else 80, port);
    hide AsksFor, IsTarget, PortNamed, PortSuffix, Verb, EffectivePath, Origin, Ascii;
    hide HttpScheme, DefaultVerb, Version, HostName, ConnectionLine, EncodingLine;
    Associates(verb + [SP], Origin(t), EffectivePath(r));
    LinesJoin(verb + [SP] + target, Version(), HostName(), t.host + port + CRLF, t.host, port);
    assert Part1(r, t) == RequestLine(r, t) + HostLine(t) + (ConnectionLine(t) + EncodingLine(t));
  }

  lemma LinesJoin(a: bytes, version: bytes, name: bytes, end: bytes, host: bytes, port: bytes)
    requires end == host + port + CRLF
    ensures (a + version) + (name + host + port + CRLF) == a + (version + name) + host + port + CRLF
  {
    assert (a + version) + (name + host + port + CRLF) == a + (version + name) + end;
  }

  /** All three encoders begin with the method, the target, the version and the host of the request. */
  lemma HeadBegins(r: Request, t: Target, n: nat, proxyAuth: bytes, verb: bytes, path: bytes, target: bytes, port: bytes)
    requires AsksFor(r, verb, path) && IsTarget(t, path, target)
    requires PortNamed(t.port, if t.useTLS then 443 else 80, port)
    ensures var opening := Opening(verb, target, t.host, port);
      opening <= Part1(r, t) && opening <= Prefix(r, t, proxyAuth) && opening <= Full(r, t, n, proxyAuth)
  {
    Part1Begins(r, t, verb, path, target, port);
    hide Opening, Part1, AuthLine, ExpectLine, LengthLine, AsksFor, IsTarget, PortNamed;
    assert Part1(r, t) <= Prefix(r, t, proxyAuth) && Part1(r, t) <= Full(r, t, n, proxyAuth);
  }

  // ---------------------------------------------------------------- the request line comes back

  /** The two words of a request line: up to the first blank, and from there up to the second. */
  function FirstWord(s: bytes): bytes { s[..ToBlank(s, 0)] }

  function SecondWord(s: bytes): bytes {
    var i := ToBlank(s, 0);
    if i == |s| then [] else s[i + 1..ToBlank(s, i + 1)]
  }

  lemma WordEnds(s: bytes, from: nat, word: bytes, rest: bytes)
    requires from <= |s| && s[from..] == word + [SP] + rest
    ensures ToBlank(s, from) == from + |word| <==> NoBlanks(word)
    ensures ToBlank(s, from) <= from + |word|
  {
    var e := from + |word|;
    assert s[e] == s[from..][|word|] == SP;
    assert forall i :: 0 <= i < |word| ==> s[from + i] == s[from..][i] == word[i];
    if NoBlanks(word) {
      forall k | from <= k < e ensures !IsBlank(s[k]) { assert s[k] == word[k - from]; }
      BlankIs(s, from, e);
    } else {
      var i :| 0 <= i < |word| && IsBlank(word[i]);
      assert IsBlank(s[from + i]);
    }
  }

  /**
   * The request line comes back from the bytes of an encoded head, whatever follows it: its words are the method and
   * the target if and only if neither of them holds a blank.
   */
  lemma RequestLineComesBack(r: Request, t: Target, n: nat, proxyAuth: bytes, rest: bytes,
                             verb: bytes, path: bytes, target: bytes)
    requires AsksFor(r, verb, path) && IsTarget(t, path, target)
    ensures var s := Full(r, t, n, proxyAuth) + rest;
      FirstWord(s) == verb && SecondWord(s) == target <==> NoBlanks(verb) && NoBlanks(target)
  {
    var port := PortSuffix(t.port, if t.useTLS then 443 else 80);
    assert PortNamed(t.port, if t.useTLS then 443 else 80, port);
    HeadBegins(r, t, n, proxyAuth, verb, path, target, port);
    hide AsksFor, IsTarget, PortNamed, PortSuffix, Full, NoBlanks, FirstWord, SecondWord, Opening;
    var opening, s := Opening(verb, target, t.host, port), Full(r, t, n, proxyAuth) + rest;
    var tail := OpeningSplits(verb, target, t.host, port, s[|opening|..]);
    assert s == opening + s[|opening|..];
    TwoWords(s, verb, target, tail);
  }

  lemma OpeningSplits(verb: bytes, target: bytes, host: bytes, port: bytes, rest: bytes) returns (tail: bytes)
    ensures Opening(verb, target, host, port) + rest == verb + [SP] + (target + [SP] + tail)
  {
    VersionStarts();
    hide Ascii;
    var version := Ascii(" HTTP/1.1\r\nHost: ");
    tail := version[1..] + host + port + CRLF + rest;
    assert version == [SP] + version[1..];
  }

  /** Two words of a line, each ended by a space. */
  lemma TwoWords(s: bytes, a: bytes, b: bytes, tail: bytes)
    requires s == a + [SP] + (b + [SP] + tail)
    ensures FirstWord(s) == a && SecondWord(s) == b <==> NoBlanks(a) && NoBlanks(b)
  {
    hide NoBlanks, ToBlank;
    assert s[0..] == s;
    WordEnds(s, 0, a, b + [SP] + tail);
    assert s[..|a|] == a;
    assert s[|a| + 1..] == b + [SP] + tail;
    WordEnds(s, |a| + 1, b, tail);
    assert s[|a| + 1..|a| + 1 + |b|] == b;
  }

  lemma VersionStarts()
    ensures |Ascii(" HTTP/1.1\r\nHost: ")| > 0 && Ascii(" HTTP/1.1\r\nHost: ")[0] == SP
  {}

  /** GetURL("http://h/x"): the path of the URL is what is asked for, not the root. */
  lemma UrlPathIsSent(r: Request, t: Target, n: nat, rest: bytes)
    requires r.verb == [] && r.path == [] && r.parsedPath == Ascii("/x") && !t.forwardProxy
    ensures SecondWord(Full(r, t, n, []) + rest) == Ascii("/x")
  {
    assert NoBlanks(Ascii("GET")) && NoBlanks(Ascii("/x"));
    RequestLineComesBack(r, t, n, [], rest, Ascii("GET"), Ascii("/x"), Ascii("/x"));
  }

  /** The Host header names the host, and the port unless it is the default of the scheme. */
  lemma HostNamed(t: Target, port: bytes)
    requires PortNamed(t.port, if t.useTLS then 443 else 80, port)
    ensures HostHeader(t) == Header(Ascii("Host"), t.host + port)
  {
    SuffixIs(t.port, if t.useTLS then 443 else 80, port);
    hide PortSuffix, Ascii, PortNamed;
  }
}
