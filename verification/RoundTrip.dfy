/** What the request encoders write parses back. */
module RoundTrip {
  import opened Bytes
  import opened Scan
  import opened Headers
  import opened Requests
  import opened Encoder
  import opened Blocks
  import opened LineSearch

  // ---------------------------------------------------------------- a whole request head

  function HostHeader(t: Target): Header {
    Header(Ascii("Host"), t.host + PortSuffix(t.port, if t.useTLS then 443 else 80))
  }

  function ConnectionHeader(t: Target): Header {
    Header(Ascii("Connection"), if t.keepAlive then Ascii("keep-alive") else Ascii("close"))
  }

  function EncodingHeaders(t: Target): seq<Header> {
    if t.compressed then [Header(Ascii("Content-Encoding"), Ascii("gzip"))] else []
  }

  function ExpectHeaders(on: bool): seq<Header> {
    if on then [Header(Ascii("Expect"), Ascii("100-continue"))] else []
  }

  function LengthHeader(n: nat): Header { Header(Ascii("Content-Length"), Decimal(n)) }

  /** The headers a request carries, in the order they are sent. */
  function HeadHeaders(r: Request, t: Target, user: seq<Header>, auth: seq<Header>, n: nat): seq<Header> {
    [HostHeader(t), ConnectionHeader(t)] + EncodingHeaders(t) + user + (if t.forwardProxy then auth else [])
    + ExpectHeaders(r.expectContinue && n > 0) + [LengthHeader(n)]
  }

  predicate IsAscii(s: string) { forall i :: 0 <= i < |s| ==> s[i] < 128 as char }

  lemma AsciiConcat(a: string, b: string)
    requires IsAscii(a) && IsAscii(b)
    ensures Ascii(a + b) == Ascii(a) + Ascii(b)
  {}

  lemma AsciiHeader(k: string, v: string)
    requires IsAscii(k) && IsAscii(v)
    ensures Ascii(k + ": " + v + "\r\n") == HeaderLine(Header(Ascii(k), Ascii(v)))
  {
    hide Ascii;
    AsciiConcat(k, ": ");
    AsciiConcat(k + ": ", v);
    AsciiConcat(k + ": " + v, "\r\n");
    AsciiMarks();
  }

  lemma AsciiMarks()
    ensures Ascii(": ") == [COLON, SP] && Ascii("\r\n") == CRLF
  {}

  lemma HostLineIs(t: Target)
    ensures HostLine(t) == HeaderLine(HostHeader(t))
  {
    hide PortSuffix, Ascii;
    AsciiMarks();
    AsciiConcat("Host", ": ");
    assert "Host: " == "Host" + ": ";
    assert HostLine(t) == HeaderLine(HostHeader(t));
  }

  lemma ConnectionLineIs(t: Target)
    ensures ConnectionLine(t) == HeaderLine(ConnectionHeader(t))
  {
    hide Ascii, HeaderLine;
    AsciiHeader("Connection", "keep-alive");
    AsciiHeader("Connection", "close");
    assert "Connection: keep-alive\r\n" == "Connection" + ": " + "keep-alive" + "\r\n";
    assert "Connection: close\r\n" == "Connection" + ": " + "close" + "\r\n";
  }

  lemma EncodingLineIs(t: Target)
    ensures EncodingLine(t) == Render(EncodingHeaders(t))
  {
    hide Ascii, HeaderLine;
    RenderOne(Header(Ascii("Content-Encoding"), Ascii("gzip")));
    AsciiHeader("Content-Encoding", "gzip");
    assert "Content-Encoding: gzip\r\n" == "Content-Encoding" + ": " + "gzip" + "\r\n";
  }

  lemma ExpectLineIs(on: bool)
    ensures ExpectLine(on) == Render(ExpectHeaders(on))
  {
    hide Ascii, HeaderLine;
    RenderOne(Header(Ascii("Expect"), Ascii("100-continue")));
    AsciiHeader("Expect", "100-continue");
    assert "Expect: 100-continue\r\n" == "Expect" + ": " + "100-continue" + "\r\n";
  }

  lemma LengthLineIs(n: nat)
    ensures LengthLine(n) == HeaderLine(LengthHeader(n)) + CRLF
  {
    hide Decimal, Ascii;
    AsciiMarks();
    AsciiConcat("Content-Length", ": ");
    assert "Content-Length: " == "Content-Length" + ": ";
    assert LengthLine(n) == HeaderLine(LengthHeader(n)) + CRLF;
  }

  /** The encoder writes the request line, every header in order, and a blank line. */
  lemma HeadIsRendered(r: Request, t: Target, user: seq<Header>, auth: seq<Header>, n: nat)
    requires r.headers == Render(user)
    ensures Full(r, t, n, Render(auth)) == RequestLine(r, t) + Render(HeadHeaders(r, t, user, auth, n)) + CRLF
  {
    hide RequestLine, HostLine, ConnectionLine, EncodingLine, ExpectLine, LengthLine, Render, HeaderLine;
    hide HostHeader, ConnectionHeader, EncodingHeaders, ExpectHeaders, LengthHeader;
    var on := r.expectContinue && n > 0;
    var a := if t.forwardProxy then auth else [];
    assert Render([]) == [] by { RenderNone(); }
    HostLineIs(t);
    ConnectionLineIs(t);
    EncodingLineIs(t);
    ExpectLineIs(on);
    LengthLineIs(n);
    RenderOne(HostHeader(t));
    RenderOne(ConnectionHeader(t));
    RenderOne(LengthHeader(n));
    RenderConcat([HostHeader(t)], [ConnectionHeader(t)]);
    var h2 := [HostHeader(t), ConnectionHeader(t)];
    assert h2 == [HostHeader(t)] + [ConnectionHeader(t)];
    RenderConcat(h2, EncodingHeaders(t));
    RenderConcat(h2 + EncodingHeaders(t), user);
    RenderConcat(h2 + EncodingHeaders(t) + user, a);
    RenderConcat(h2 + EncodingHeaders(t) + user + a, ExpectHeaders(on));
    RenderConcat(h2 + EncodingHeaders(t) + user + a + ExpectHeaders(on), [LengthHeader(n)]);
  }

  lemma RenderNone()
    ensures Render([]) == []
  {}

  lemma {:induction false} DecimalDigits(n: nat)
    ensures forall i :: 0 <= i < |Decimal(n)| ==> IsDigit(Decimal(n)[i])
  {
    if n >= 10 { DecimalDigits(n / 10); }
  }

  lemma {:induction false} DecimalValue(n: nat)
    ensures DigitsValue(Decimal(n)) == n
  {
    if n >= 10 {
      DecimalValue(n / 10);
      assert Decimal(n)[..|Decimal(n)| - 1] == Decimal(n / 10);
    } else {
      assert Decimal(n)[..0] == [];
    }
  }

  lemma HostClean(t: Target)
    requires NoEol(t.host)
    ensures Clean(HostHeader(t)) && NoEol(Origin(t))
  {
    if t.port > 0 { DecimalDigits(t.port); }
  }

  lemma AsciiClean(s: string)
    requires IsAscii(s) && forall i :: 0 <= i < |s| ==> s[i] != '\r' && s[i] != '\n'
    ensures NoEol(Ascii(s))
  {}

  lemma FixedClean(t: Target, on: bool, n: nat)
    ensures Clean(ConnectionHeader(t)) && Clean(LengthHeader(n))
    ensures forall h :: h in EncodingHeaders(t) + ExpectHeaders(on) ==> Clean(h)
  {
    DecimalDigits(n);
    assert NoEol(Decimal(n));
    hide Decimal, NoEol, Ascii;
    AsciiClean("Connection");
    if t.keepAlive { AsciiClean("keep-alive"); } else { AsciiClean("close"); }
    if t.compressed { AsciiClean("Content-Encoding"); AsciiClean("gzip"); }
    if on { AsciiClean("Expect"); AsciiClean("100-continue"); }
    AsciiClean("Content-Length");
  }

  lemma HeadUnbroken(r: Request, t: Target, user: seq<Header>, auth: seq<Header>, n: nat)
    requires OneLine(t.host) && forall h :: h in user + auth ==> Unbroken(h)
    ensures forall h :: h in HeadHeaders(r, t, user, auth, n) ==> Unbroken(h)
  {
    HostUnbroken(t);
    FixedClean(t, r.expectContinue && n > 0, n);
    hide HostHeader, ConnectionHeader, EncodingHeaders, ExpectHeaders, LengthHeader, Clean, Unbroken;
    CleanIsUnbroken(ConnectionHeader(t));
    CleanIsUnbroken(LengthHeader(n));
    forall h | h in EncodingHeaders(t) + ExpectHeaders(r.expectContinue && n > 0) ensures Unbroken(h) {
      CleanIsUnbroken(h);
    }
  }

  lemma HostUnbroken(t: Target)
    requires OneLine(t.host)
    ensures Unbroken(HostHeader(t))
  {
    var port := PortSuffix(t.port, if t.useTLS then 443 else 80);
    PortClean(t.port, if t.useTLS then 443 else 80);
    AsciiClean("Host");
    NoEolIsOneLine(Ascii("Host"));
    hide PortSuffix, Ascii;
    assert forall i :: 0 <= i < |t.host| ==> (t.host + port)[i] == t.host[i];
    forall i | 0 <= i < |t.host + port| - 1 ensures !CrlfAt(t.host + port, i) {
      if i + 1 < |t.host| {
        assert !CrlfAt(t.host, i);
      } else {
        assert (t.host + port)[i + 1] == port[i + 1 - |t.host|];
      }
    }
  }

  lemma PortClean(port: int, default: int)
    ensures NoEol(PortSuffix(port, default))
  {
    if port > 0 { DecimalDigits(port); }
  }

  lemma HeadClean(r: Request, t: Target, user: seq<Header>, auth: seq<Header>, n: nat)
    requires NoEol(t.host) && forall h :: h in user + auth ==> Clean(h)
    ensures forall h :: h in HeadHeaders(r, t, user, auth, n) ==> Clean(h)
  {
    hide HostHeader, ConnectionHeader, EncodingHeaders, ExpectHeaders, LengthHeader, Clean;
    HostClean(t);
    FixedClean(t, r.expectContinue && n > 0, n);
  }

  function StartLine(r: Request, t: Target): bytes {
    Verb(r) + [SP] + Origin(t) + EffectivePath(r) + Ascii(" HTTP/1.1")
  }

  lemma StartLineEnds(r: Request, t: Target)
    requires NoEol(t.host) && NoEol(Verb(r)) && NoEol(EffectivePath(r))
    ensures NoEol(StartLine(r, t))
  {
    HostClean(t);
    hide Verb, EffectivePath, Origin;
  }

  lemma RequestLineIs(r: Request, t: Target)
    ensures RequestLine(r, t) == StartLine(r, t) + CRLF
  {
    hide Verb, EffectivePath, Origin;
    assert Ascii(" HTTP/1.1\r\n") == Ascii(" HTTP/1.1") + CRLF;
  }

  /** An encoded head is a block: the request line, every header in order, a blank line. */
  lemma HeadIsBlock(r: Request, t: Target, user: seq<Header>, auth: seq<Header>, n: nat)
    requires r.headers == Render(user)
    ensures Full(r, t, n, Render(auth)) == Block(StartLine(r, t), HeadHeaders(r, t, user, auth, n))
  {
    hide Full, HeadHeaders, RequestLine, StartLine, Render;
    HeadIsRendered(r, t, user, auth, n);
    RequestLineIs(r, t);
  }

  /** Values a caller may not put CR or LF into; SetHeader sees to it for the user's headers. */
  predicate CleanRequest(r: Request, t: Target, user: seq<Header>, auth: seq<Header>) {
    && r.headers == Render(user) && (forall h :: h in user + auth ==> Clean(h))
    && NoEol(t.host) && NoEol(Verb(r)) && NoEol(EffectivePath(r))
  }

  /** No value holds a line end. */
  predicate UnbrokenRequest(r: Request, t: Target, user: seq<Header>, auth: seq<Header>) {
    && r.headers == Render(user) && (forall h :: h in user + auth ==> Unbroken(h))
    && OneLine(t.host) && OneLine(StartLine(r, t))
  }

  /**
   * Encode and parse: the head of a request, whatever follows it, parses to the headers it was made of,
   * in order and with nothing added or lost, exactly when each of them is plain.
   */
  lemma HeadParses(r: Request, t: Target, user: seq<Header>, auth: seq<Header>, n: nat, rest: bytes)
    requires UnbrokenRequest(r, t, user, auth)
    ensures var hs := HeadHeaders(r, t, user, auth, n);
      ParsedHeaders(Full(r, t, n, Render(auth)) + rest) == hs <==> forall h :: h in hs ==> Plain(h)
    ensures var s := Full(r, t, n, Render(auth)) + rest; 0 <= NextCrlf(s, 0) && AfterStatusLine(s) < |s|
  {
    hide Full, Plain, HeadHeaders, ParsedHeaders, Reparsed, Block, StartLine, OneLine, Unbroken;
    var hs := HeadHeaders(r, t, user, auth, n);
    HeadIsBlock(r, t, user, auth, n);
    HeadUnbroken(r, t, user, auth, n);
    BlockParses(StartLine(r, t), hs, rest);
    BlockLength(StartLine(r, t), hs);
    AllComeBack(hs);
  }

  /**
   * The same for any start line, line ends in it included: the headers come back exactly when they are all plain and the
   * start line brings no header along, or when a blank line cuts the start line short and it brings along exactly these.
   */
  lemma HeadParsesExactly(r: Request, t: Target, user: seq<Header>, auth: seq<Header>, n: nat, rest: bytes)
    requires r.headers == Render(user) && OneLine(t.host) && forall h :: h in user + auth ==> Unbroken(h)
    ensures var hs, line := HeadHeaders(r, t, user, auth, n), StartLine(r, t);
      ParsedHeaders(Full(r, t, n, Render(auth)) + rest) == hs <==>
        if CutShort(line) then Extra(line) == hs else Extra(line) == [] && forall h :: h in hs ==> Plain(h)
  {
    hide Full, Plain, HeadHeaders, ParsedHeaders, Block, StartLine, OneLine, Unbroken, Extra, CutShort;
    HeadIsBlock(r, t, user, auth, n);
    HeadUnbroken(r, t, user, auth, n);
    BlockComesBack(StartLine(r, t), HeadHeaders(r, t, user, auth, n), rest);
  }

  lemma BlockLength(line: bytes, hs: seq<Header>)
    ensures |Block(line, hs)| >= |line| + 4
  {}

  /** The header a path with a line end turns into: what follows the line end, up to the version. */
  function Tailed(x: Header): Header { Header(x.key, x.value + Ascii(" HTTP/1.1")) }

  lemma BrokenStartLine(r: Request, t: Target, path: bytes, x: Header)
    requires EffectivePath(r) == path + CRLF + LineOf(x)
    ensures StartLine(r, t) == Verb(r) + [SP] + Origin(t) + path + CRLF + LineOf(Tailed(x))
  {
    hide Verb, EffectivePath, Origin;
  }

  /**
   * A path that holds a line end is sent as it is, and what follows the line end comes back as one more header, in
   * front of the others.
   */
  lemma BrokenPathAddsHeader(
    r: Request, t: Target, user: seq<Header>, auth: seq<Header>, n: nat, path: bytes, x: Header, rest: bytes)
    requires r.headers == Render(user) && (forall h :: h in user + auth ==> Unbroken(h)) && OneLine(t.host)
    requires EffectivePath(r) == path + CRLF + LineOf(x)
    requires OneLine(Verb(r) + [SP] + Origin(t) + path) && Unbroken(Tailed(x))
    ensures var hs := [Tailed(x)] + HeadHeaders(r, t, user, auth, n);
      ParsedHeaders(Full(r, t, n, Render(auth)) + rest) == hs <==> forall h :: h in hs ==> Plain(h)
  {
    var line, hs := Verb(r) + [SP] + Origin(t) + path, HeadHeaders(r, t, user, auth, n);
    BrokenStartLine(r, t, path, x);
    hide Full, Plain, HeadHeaders, ParsedHeaders, Reparsed, Block, StartLine, OneLine, Unbroken, LineOf, Tailed;
    hide Verb, Origin, EffectivePath;
    HeadIsBlock(r, t, user, auth, n);
    HeadUnbroken(r, t, user, auth, n);
    BrokenFirstLine(line, Tailed(x), hs);
    BlockParses(line, [Tailed(x)] + hs, rest);
    AllComeBack([Tailed(x)] + hs);
  }

  /** The first blank line of an encoded request is the one that closes its head, so the body starts where it should. */
  lemma HeadEnds(r: Request, t: Target, user: seq<Header>, auth: seq<Header>, n: nat, rest: bytes)
    requires UnbrokenRequest(r, t, user, auth)
    ensures HeaderEnd(Full(r, t, n, Render(auth)) + rest) == |Full(r, t, n, Render(auth))|
  {
    hide Full, HeadHeaders, HeaderEnd, Block, StartLine, OneLine, Unbroken;
    HeadIsBlock(r, t, user, auth, n);
    HeadUnbroken(r, t, user, auth, n);
    BlockEnds(StartLine(r, t), HeadHeaders(r, t, user, auth, n), rest);
  }

  // ---------------------------------------------------------------- the length comes back

  lemma NameFolds(s: bytes)
    requires |s| >= 16 && s[..16] == Ascii("Content-Length: ")
    ensures FoldAt(s, 0, CONTENT_LENGTH)
  {
    var name := Ascii("Content-Length: ");
    assert name == [67, 111, 110, 116, 101, 110, 116, 45, 76, 101, 110, 103, 116, 104, 58, 32];
    hide Ascii;
    assert forall i :: 0 <= i < 15 ==> Lower(name[i]) == CONTENT_LENGTH[i];
    assert forall i :: 0 <= i < 15 ==> s[i] == name[i];
  }

  lemma LengthLineText(n: nat)
    ensures LineOf(LengthHeader(n)) == Ascii("Content-Length: ") + Decimal(n)
    ensures LineOf(LengthHeader(n))[..16] == Ascii("Content-Length: ")
    ensures LineOf(LengthHeader(n))[15..] == [SP] + Decimal(n)
  {
    AsciiMarks();
    AsciiConcat("Content-Length", ": ");
    assert "Content-Length: " == "Content-Length" + ": ";
    var name := Ascii("Content-Length: ");
    assert name[15] == SP;
    hide Decimal, Ascii;
    assert LineOf(LengthHeader(n)) == name + Decimal(n);
    assert (name + Decimal(n))[15..] == [SP] + Decimal(n);
  }

  lemma DigitsAnnounce(n: nat)
    requires n < TWO63
    ensures LengthField([SP] + Decimal(n)) == Some(n)
  {
    var line := [SP] + Decimal(n);
    DecimalDigits(n);
    DecimalValue(n);
    hide Decimal;
    BlankFirst(Decimal(n));
    assert IsDigit(line[1]);
    assert LengthText(line);
  }

  /** The length line of the encoder mentions the length at its start, and announces it. */
  lemma LengthLineAnnounces(n: nat)
    requires n < TWO63
    ensures Mentions(LineOf(LengthHeader(n)), CONTENT_LENGTH) && AnnouncedLength(LineOf(LengthHeader(n))) == Some(n)
  {
    var line := LineOf(LengthHeader(n));
    LengthLineText(n);
    DigitsAnnounce(n);
    hide Decimal, LineOf, LengthHeader, LengthField, Ascii;
    NameFolds(line);
    FindFoldIs(line, 0, CONTENT_LENGTH);
  }

  /** A leading blank does not change the value of the digits. */
  lemma {:induction false} BlankFirst(d: bytes)
    ensures DigitsValue([SP] + d) == DigitsValue(d)
    decreases |d|
  {
    var s := [SP] + d;
    if d == [] {
      assert s[..0] == [];
    } else {
      BlankFirst(d[..|d| - 1]);
      assert s[..|s| - 1] == [SP] + d[..|d| - 1];
    }
  }

  lemma AsciiNoColon(s: string)
    requires IsAscii(s) && forall i :: 0 <= i < |s| ==> s[i] != ':'
    ensures NoColon(Ascii(s))
  {}

  lemma EncodingIsSilent()
    ensures !Mentions(LineOf(Header(Ascii("Content-Encoding"), Ascii("gzip"))), CONTENT_LENGTH)
  {
    var h := Header(Ascii("Content-Encoding"), Ascii("gzip"));
    AsciiNoColon("Content-Encoding");
    AsciiNoColon("gzip");
    var line := LineOf(h);
    assert line[2] == h.key[2] == 110;
    var at := FindFold(line, 0, CONTENT_LENGTH);
    if at < |line| {
      MentionEndsName(h, at, CONTENT_LENGTH);
      FoldStarts(line, at, CONTENT_LENGTH);
    }
  }

  lemma ConnectionIsSilent(t: Target)
    ensures !Mentions(LineOf(ConnectionHeader(t)), CONTENT_LENGTH)
  {
    AsciiNoColon("Connection");
    if t.keepAlive { AsciiNoColon("keep-alive"); } else { AsciiNoColon("close"); }
    hide Ascii, NoColon, LineOf, Mentions;
    PatternIsPlain();
    ShortNameIsSilent(ConnectionHeader(t), CONTENT_LENGTH);
  }

  lemma ExpectIsSilent()
    ensures !Mentions(LineOf(Header(Ascii("Expect"), Ascii("100-continue"))), CONTENT_LENGTH)
  {
    AsciiNoColon("Expect");
    AsciiNoColon("100-continue");
    hide Ascii, NoColon, LineOf, Mentions;
    PatternIsPlain();
    ShortNameIsSilent(Header(Ascii("Expect"), Ascii("100-continue")), CONTENT_LENGTH);
  }

  /** The lines the encoder adds by itself never read as a length. */
  lemma FixedLinesAreSilent(t: Target, on: bool)
    ensures FirstMention([LineOf(ConnectionHeader(t))], CONTENT_LENGTH) == None
    ensures FirstMention(Lines(EncodingHeaders(t)), CONTENT_LENGTH) == None
    ensures FirstMention(Lines(ExpectHeaders(on)), CONTENT_LENGTH) == None
  {
    ConnectionIsSilent(t);
    EncodingIsSilent();
    ExpectIsSilent();
    hide Ascii, LineOf, Mentions, FirstMention, ConnectionHeader, Lines;
    MentionOne(LineOf(ConnectionHeader(t)));
    SilentLine(Header(Ascii("Content-Encoding"), Ascii("gzip")));
    SilentLine(Header(Ascii("Expect"), Ascii("100-continue")));
  }

  lemma SilentLine(h: Header)
    requires !Mentions(LineOf(h), CONTENT_LENGTH)
    ensures FirstMention(Lines([h]), CONTENT_LENGTH) == None && FirstMention(Lines([]), CONTENT_LENGTH) == None
  {
    hide LineOf, Mentions;
    assert Lines([h])[1..] == [];
  }

  /** The lines whose text the caller chooses: request line, host, the caller's headers, proxy auth. */
  function ChosenLines(r: Request, t: Target, user: seq<Header>, auth: seq<Header>): seq<bytes> {
    [StartLine(r, t)] + [LineOf(HostHeader(t))] + Lines(user) + Lines(if t.forwardProxy then auth else [])
  }

  lemma MentionOne(l: bytes)
    ensures FirstMention([l], CONTENT_LENGTH) == if Mentions(l, CONTENT_LENGTH) then Some(l) else None
  {
    hide Mentions;
    assert [l][1..] == [];
  }

  /** The first mention in a head is the first in the lines the caller chose, or else the encoder's own length line. */
  lemma FirstMentionOfHead(r: Request, t: Target, user: seq<Header>, auth: seq<Header>, n: nat)
    requires n < TWO63
    ensures var chosen := FirstMention(ChosenLines(r, t, user, auth), CONTENT_LENGTH);
      FirstMention([StartLine(r, t)] + Lines(HeadHeaders(r, t, user, auth, n)), CONTENT_LENGTH)
        == if chosen.Some? then chosen else Some(LineOf(LengthHeader(n)))
  {
    hide StartLine, HostHeader, ConnectionHeader, EncodingHeaders, ExpectHeaders, LengthHeader;
    hide Mentions, FirstMention, LineOf;
    var on := r.expectContinue && n > 0;
    var a := if t.forwardProxy then auth else [];
    var start, host := [StartLine(r, t)], [LineOf(HostHeader(t))];
    var conn, last := [LineOf(ConnectionHeader(t))], [LineOf(LengthHeader(n))];
    var enc, u, p, e := Lines(EncodingHeaders(t)), Lines(user), Lines(a), Lines(ExpectHeaders(on));
    FixedLinesAreSilent(t, on);
    LengthLineAnnounces(n);
    MentionOne(LineOf(LengthHeader(n)));
    LinesOfHead(r, t, user, auth, n);
    FirstMentionConcat(conn, enc, CONTENT_LENGTH);
    SilentLinesDrop(start + host, conn + enc, u + p, e, last, CONTENT_LENGTH);
    RegroupLines(start, host, conn, enc, u, p, e, last);
  }

  lemma RegroupLines(
    a: seq<bytes>, b: seq<bytes>, c: seq<bytes>, d: seq<bytes>, u: seq<bytes>, p: seq<bytes>, e: seq<bytes>, l: seq<bytes>)
    ensures a + (b + c + d + u + p + e + l) == (a + b) + (c + d) + (u + p) + e + l
    ensures (a + b) + (u + p) == a + b + u + p
  {}

  lemma LinesOfHead(r: Request, t: Target, user: seq<Header>, auth: seq<Header>, n: nat)
    ensures Lines(HeadHeaders(r, t, user, auth, n)) ==
      [LineOf(HostHeader(t))] + [LineOf(ConnectionHeader(t))] + Lines(EncodingHeaders(t)) + Lines(user)
      + Lines(if t.forwardProxy then auth else []) + Lines(ExpectHeaders(r.expectContinue && n > 0))
      + [LineOf(LengthHeader(n))]
  {
    hide HostHeader, ConnectionHeader, EncodingHeaders, ExpectHeaders, LengthHeader, LineOf;
  }

  /**
   * What the parser reads as the length of an encoded request, exactly: the length of the body, unless a line the caller
   * chose mentions content-length: in any letter case, and then whatever the first such line says.
   */
  lemma HeadAnnouncesLength(r: Request, t: Target, user: seq<Header>, auth: seq<Header>, n: nat, rest: bytes)
    requires CleanRequest(r, t, user, auth) && n < TWO63
    ensures var chosen := FirstMention(ChosenLines(r, t, user, auth), CONTENT_LENGTH);
      var read := ContentLength(Full(r, t, n, Render(auth)) + rest);
      && read == (if chosen.Some? then AnnouncedLength(chosen.value) else Some(n))
      && (read == Some(n) <==> chosen.None? || AnnouncedLength(chosen.value) == Some(n))
  {
    hide Full, HeadHeaders, Block, StartLine, ChosenLines, ContentLength, AnnouncedLength, FirstMention, LineOf;
    var hs := HeadHeaders(r, t, user, auth, n);
    HeadIsBlock(r, t, user, auth, n);
    HeadClean(r, t, user, auth, n);
    StartLineEnds(r, t);
    FirstMentionOfHead(r, t, user, auth, n);
    LengthLineAnnounces(n);
    LengthOfBlock(StartLine(r, t), hs, rest);
  }

  /** SetHeader("Content-Length", "5") is accepted, and then 5 is what is read, whatever the body. */
  lemma UserLengthWins(r: Request, t: Target, auth: seq<Header>, m: nat, n: nat, rest: bytes)
    requires m < TWO63 && n < TWO63 && CleanRequest(r, t, [LengthHeader(m)], auth)
    requires !Mentions(StartLine(r, t), CONTENT_LENGTH) && !Mentions(LineOf(HostHeader(t)), CONTENT_LENGTH)
    ensures ContentLength(Full(r, t, n, Render(auth)) + rest) == Some(m)
  {
    HeadAnnouncesLength(r, t, [LengthHeader(m)], auth, n, rest);
    LengthLineAnnounces(m);
    FirstOfThree(r, t, auth, m);
    hide StartLine, HostHeader, LengthHeader, LineOf, Mentions, FirstMention, ContentLength, AnnouncedLength, Full;
  }

  lemma FirstOfThree(r: Request, t: Target, auth: seq<Header>, m: nat)
    requires Mentions(LineOf(LengthHeader(m)), CONTENT_LENGTH)
    requires !Mentions(StartLine(r, t), CONTENT_LENGTH) && !Mentions(LineOf(HostHeader(t)), CONTENT_LENGTH)
    ensures FirstMention(ChosenLines(r, t, [LengthHeader(m)], auth), CONTENT_LENGTH) == Some(LineOf(LengthHeader(m)))
  {
    hide StartLine, HostHeader, LengthHeader, LineOf, Mentions;
    var lines := ChosenLines(r, t, [LengthHeader(m)], auth);
    assert lines[0] == StartLine(r, t) && lines[1..][0] == LineOf(HostHeader(t));
    assert lines[1..][1..][0] == LineOf(LengthHeader(m));
    assert FirstMention(lines[1..][1..], CONTENT_LENGTH) == Some(LineOf(LengthHeader(m)));
    assert FirstMention(lines[1..], CONTENT_LENGTH) == Some(LineOf(LengthHeader(m)));
  }

  // ---------------------------------------------------------------- from SetHeader to parseHeaders

  /**
   * Any sequence of SetHeader calls, then writeRequest, then parseHeaders: the headers that come back are the fixed ones
   * around those that were accepted, in order, exactly when all of them are plain, provided the values that SetHeader
   * does not check hold no line end.
   */
  method SetWriteParse(h: HeaderBuffer, hs: seq<Header>, verb: bytes, path: bytes, on: bool, t: Target, auth: seq<Header>,
                       n: nat, buf: array<byte>) returns (ok: bool, headers: seq<Header>)
    requires h.Valid() && buf != h.headerBuf && t.port < TWO63 && n < TWO63
    modifies h, h.headerBuf, buf
    ensures var user := Accepted(hs, 0, Max(old(h.headerBuf.Length), MAX_HEADER));
      var r := Request(verb, path, path, Render(user), on);
      var sent := HeadHeaders(r, t, user, auth, n);
      && ok == (|Full(r, t, n, Render(auth))| <= buf.Length)
      && (ok && UnbrokenRequest(r, t, user, auth) ==> (headers == sent <==> forall s :: s in sent ==> Plain(s)))
      && (ok && (forall a :: a in auth ==> Unbroken(a)) && OneLine(t.host) && OneLine(StartLine(r, t)) ==>
            UnbrokenRequest(r, t, user, auth))
  {
    h.Reset();
    SetHeaders(h, hs);
    ghost var user := Accepted(hs, 0, Max(old(h.headerBuf.Length), MAX_HEADER));
    assert h.added == user;
    hide Accepted, Full, HeadHeaders, Plain, Render, ParsedHeaders, AfterStatusLine;
    var r := Request(verb, path, path, h.headerBuf[..h.headerLen], on);
    var len;
    len, ok := WriteRequest(buf, r, t, n, Render(auth));
    headers := [];
    forall h | h in user ensures Unbroken(h) { CleanIsUnbroken(h); }
    if ok {
      headers := ParseHeaders(buf[..len], []);
      if UnbrokenRequest(r, t, user, auth) {
        HeadParses(r, t, user, auth, n, []);
        assert buf[..len] + [] == buf[..len];
      }
    }
  }
}
