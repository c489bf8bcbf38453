/** Concrete responses on which the general properties show. */
module Samples {
  import opened Bytes
  import opened Source
  import opened Scan
  import opened Headers
  import opened Requests
  import opened Blocks
  import opened LineSearch
  import Encoder
  import opened RoundTrip
  import opened Responses
  import opened Reader
  import opened ReadResponse
  import Messages
  import opened Framing

  // ---------------------------------------------------------------- status lines

  /** "HTTP/1.1", the status, and "OK". */
  function StatusLine(status: nat): bytes { Ascii("HTTP/1.1 ") + Encoder.Decimal(status) + Ascii(" OK") }

  function OkLine(): bytes { StatusLine(200) }

  function NoContentLine(): bytes { StatusLine(204) }

  lemma LineIs(status: nat)
    requires 100 <= status < 600
    ensures NoEol(StatusLine(status)) && NoColon(StatusLine(status)) && |StatusLine(status)| == 15
  {
    Encoder.SmallDecimal(status);
    DecimalDigits(status);
    AsciiClean("HTTP/1.1 ");
    AsciiClean(" OK");
    AsciiNoColon("HTTP/1.1 ");
    AsciiNoColon(" OK");
    assert |Ascii("HTTP/1.1 ")| == 9 && |Ascii(" OK")| == 3;
    hide Ascii, Encoder.Decimal;
  }

  lemma LinesAre()
    ensures NoEol(OkLine()) && |OkLine()| == 15 && NoColon(OkLine())
    ensures NoEol(NoContentLine()) && |NoContentLine()| == 15
  {
    hide StatusLine;
    LineIs(200);
    LineIs(204);
  }

  lemma StatusOfBlock(status: nat, hs: seq<Header>)
    requires 100 <= status < 600
    ensures StatusCode(Block(StatusLine(status), hs)) == Some(status)
  {
    var s := Block(StatusLine(status), hs);
    LineIs(status);
    VersionIs();
    hide Ascii, Render, Encoder.Decimal, StatusCode;
    var rest := Ascii(" OK") + CRLF + Render(hs) + CRLF;
    assert s == StatusText([49, 46, 49], [SP], status, rest);
    StatusLineReads([49, 46, 49], [SP], status, rest);
  }

  lemma VersionIs()
    ensures Ascii("HTTP/1.1 ") == Ascii("HTTP/") + [49, 46, 49] + [SP]
  {}

  // ---------------------------------------------------------------- a body that is cut off

  /** "HTTP/1.1 200 OK", "Content-Length: 5", and a blank line. */
  function FiveBytes(): bytes { Block(OkLine(), [LengthHeader(5)]) }

  lemma NoColonIsSilent(line: bytes, pat: bytes)
    requires pat != [] && pat[|pat| - 1] == COLON && NoColon(line)
    ensures !Mentions(line, pat)
  {
    var at := FindFold(line, 0, pat);
    if at < |line| { FoldEnds(line, at, pat); }
  }

  lemma FoldEnds(s: bytes, i: nat, pat: bytes)
    requires FoldAt(s, i, pat) && pat != []
    ensures Lower(s[i + |pat| - 1]) == pat[|pat| - 1]
  {
    var k := |pat| - 1;
    assert Lower(s[i + k]) == pat[k];
  }

  lemma LengthNamesNothingElse(n: nat)
    ensures !Mentions(LineOf(LengthHeader(n)), TRANSFER_ENCODING) && Clean(LengthHeader(n))
  {
    var h := LengthHeader(n);
    TransferPatternIsPlain();
    AsciiNoColon("Content-Length");
    AsciiClean("Content-Length");
    DecimalDigits(n);
    assert NoColon(h.value) && NoEol(h.value);
    assert |h.key| == 14;
    hide Encoder.Decimal, Ascii;
    ShortNameIsSilent(h, TRANSFER_ENCODING);
  }

  lemma FiveBytesAnnounced(rest: bytes)
    ensures var s := FiveBytes() + rest;
      && HeaderEnd(s) == |FiveBytes()| && s[..|FiveBytes()|] == FiveBytes()
      && StatusCode(FiveBytes()) == Some(200) && !ChunkedAnnounced(FiveBytes()) && ContentLength(FiveBytes()) == Some(5)
  {
    LengthLineAnnounces(5);
    hide *;
    FiveBytesIs();
    LengthNamesNothingElse(5);
    LengthBlock(200, LengthHeader(5), rest, 5);
    HeadOf(FiveBytes(), rest);
  }

  lemma FiveBytesIs()
    ensures FiveBytes() == Block(StatusLine(200), [LengthHeader(5)])
  {
    hide Block, StatusLine, LengthHeader;
  }

  lemma HeadOf(s: bytes, rest: bytes)
    ensures (s + rest)[..|s|] == s
  {}

  /** A block of a status line and a line that announces a length. */
  lemma LengthBlock(status: nat, h: Header, rest: bytes, n: nat)
    requires 100 <= status < 600
    requires Clean(h) && !Mentions(LineOf(h), TRANSFER_ENCODING)
    requires Mentions(LineOf(h), CONTENT_LENGTH) && AnnouncedLength(LineOf(h)) == Some(n)
    ensures var b := Block(StatusLine(status), [h]);
      && HeaderEnd(b + rest) == |b| && StatusCode(b) == Some(status)
      && !ChunkedAnnounced(b) && ContentLength(b) == Some(n)
  {
    hide *;
    var line := StatusLine(status);
    LineIs(status);
    TransferPatternIsPlain();
    PatternIsPlain();
    NoColonIsSilent(line, TRANSFER_ENCODING);
    NoColonIsSilent(line, CONTENT_LENGTH);
    NoEolIsOneLine(line);
    CleanIsUnbroken(h);
    TwoLines(line, h, TRANSFER_ENCODING);
    TwoLines(line, h, CONTENT_LENGTH);
    BlockEnds(line, [h], rest);
    StatusOfBlock(status, [h]);
    SilentBlockIsNotChunked(line, [h]);
    LengthOfBlock(line, [h], []);
    assert Block(line, [h]) + [] == Block(line, [h]);
  }

  lemma TwoLines(line: bytes, h: Header, pat: bytes)
    requires pat != [] && !Mentions(line, pat)
    ensures FirstMention([line] + Lines([h]), pat) == if Mentions(LineOf(h), pat) then Some(LineOf(h)) else None
  {
    hide Mentions, LineOf;
    var lines := [line] + Lines([h]);
    assert lines[0] == line && lines[1..] == [LineOf(h)];
    assert [LineOf(h)][1..] == [];
    assert FirstMention([LineOf(h)], pat) == if Mentions(LineOf(h), pat) then Some(LineOf(h)) else None;
  }

  /**
   * "Content-Length: 5", the bytes "abc" and then EOF, with room and a limit to spare: readResponse reports EOF and
   * readResponseBuffered an unexpected EOF, with the same status and headers.
   */
  lemma ShortBodyErrors(env: Env, inflate: Inflate)
    requires !env.buffered && env.fail == Eof && |FiveBytes()| <= env.limit && 5 <= env.cap && 5 <= env.maxBody
    ensures var s := FiveBytes() + Ascii("abc");
      var a, b := ParseMessage(s, false, env, inflate), ParseMessage(s, false, Switched(env), inflate);
      && a.Broken? && b.Broken? && a.status == b.status == 200 && a.headers == b.headers
      && a.error == Eof && b.error == UnexpectedEof
  {
    var s := FiveBytes() + Ascii("abc");
    FiveBytesAnnounced(Ascii("abc"));
    ShortBodyIsCut(env);
    hide FiveBytes, HeaderEnd, StatusCode, ChunkedAnnounced, ContentLength, ParseMessage, CutOff, Ascii;
    CutOffReports(s, false, env, inflate);
  }

  lemma ShortBodyIsCut(env: Env)
    requires !env.buffered && env.fail == Eof && |FiveBytes()| <= env.limit && 5 <= env.cap && 5 <= env.maxBody
    ensures CutOff(FiveBytes() + Ascii("abc"), false, env)
  {
    assert |Ascii("abc")| == 3;
    hide FiveBytes, HeaderEnd, FixedLength, Ascii, GrownSize;
    FiveBytesLength(Ascii("abc"), env.limit);
  }

  lemma FiveBytesLength(rest: bytes, limit: nat)
    requires |FiveBytes()| <= limit
    ensures FixedLength(FiveBytes() + rest, false, limit) == Some(5)
    ensures |FiveBytes() + rest| - HeaderEnd(FiveBytes() + rest) == |rest|
  {
    FiveBytesAnnounced(rest);
    hide FiveBytes, HeaderEnd, StatusCode, ChunkedAnnounced, ContentLength;
  }

  function Letters(): bytes { Ascii("abcde") }

  lemma FixedRead(block: bytes, body: bytes, env: Env)
    requires HeaderEnd(block) == |block| <= env.limit && StatusCode(block) == Some(200) && !ChunkedAnnounced(block)
    requires ContentLength(block) == Some(|body|) && env.maxBody == 0 < |body|
    ensures var o := ParseRaw(block + body, false, env);
      && (!env.buffered ==> o == Broken(0, [], ResponseTooLarge, body))
      && (env.buffered && GrownSize(env.cap, env.maxSize, |body|).Some? ==> Reads(o, block, body))
  {
    hide HeaderEnd, StatusCode, ChunkedAnnounced, ContentLength, ParsedHeaders, GrownSize, ParseRaw;
    Messages.ReadAfterBlock(block, body, false, env);
    assert body[..|body|] == body && body[|body|..] == [];
  }

  predicate Reads(o: Raw, block: bytes, body: bytes) {
    o.Got? && o.status == 200 && o.headers == ParsedHeaders(block) && o.body == body && o.rest == []
  }

  /** With a limit of 0, readResponse refuses the same body and readResponseBuffered reads it. */
  lemma ZeroLimitDiffers(env: Env, inflate: Inflate)
    requires env.maxBody == 0 && |FiveBytes()| <= env.limit
    ensures var s := FiveBytes() + Letters();
      && !SameReport(ParseMessage(s, false, env, inflate), ParseMessage(s, false, Switched(env), inflate))
      && (!env.buffered ==> ParseMessage(s, false, env, inflate) == Broken(0, [], ResponseTooLarge, Letters()))
      && (env.buffered && GrownSize(env.cap, env.maxSize, 5).Some? ==>
            Reads(ParseRaw(s, false, env), FiveBytes(), Letters()))
  {
    assert |Letters()| == 5;
    hide FiveBytes, Letters, FixedLength, CutOff, ParseRaw, Reads;
    hide HeaderEnd, StatusCode, ChunkedAnnounced, ContentLength;
    FiveBytesLength(Letters(), env.limit);
    FiveBytesAnnounced(Letters());
    FiveBytesEnd();
    FixedRead(FiveBytes(), Letters(), env);
    hide GrownSize;
    DifferAtZero(FiveBytes() + Letters(), env, inflate);
  }

  lemma FiveBytesEnd()
    ensures HeaderEnd(FiveBytes()) == |FiveBytes()|
  {
    FiveBytesAnnounced([]);
    hide FiveBytes, HeaderEnd;
    assert FiveBytes() + [] == FiveBytes();
  }

  lemma DifferAtZero(s: bytes, env: Env, inflate: Inflate)
    requires env.maxBody == 0 && FixedLength(s, false, env.limit) == Some(5)
    ensures !SameReport(ParseMessage(s, false, env, inflate), ParseMessage(s, false, Switched(env), inflate))
  {
    hide FixedLength, ParseMessage, CutOff;
    ReadersAgree(s, false, env, inflate);
  }

  // ---------------------------------------------------------------- a length without a body

  /** A status line, "Content-Length: 5", and a blank line. */
  function FiveBytesWith(status: nat): bytes { Block(StatusLine(status), [LengthHeader(5)]) }

  lemma LengthIgnored(status: nat, head: bool, env: Env, tail: bytes)
    requires 100 <= status < 600 && |FiveBytesWith(status)| <= env.limit
    requires head || status == 204 || status == 304 || status == 101
    ensures ParseRaw(FiveBytesWith(status) + tail, head, env)
      == Got(status, ParsedHeaders(FiveBytesWith(status)), [], env.cap, tail)
  {
    LengthLineAnnounces(5);
    hide StatusLine, LengthHeader, LineOf, Block, HeaderEnd, StatusCode, ChunkedAnnounced, ContentLength, ParseRaw;
    hide ParsedHeaders, Mentions, AnnouncedLength;
    LengthNamesNothingElse(5);
    LengthBlock(status, LengthHeader(5), [], 5);
    assert FiveBytesWith(status) + [] == FiveBytesWith(status);
    NoBodyRead(FiveBytesWith(status), tail, head, env, status);
  }

  /**
   * "Content-Length: 5" in the answer to a HEAD request, in a 304 and in a 204: no body, and the stream is left at what
   * follows, the next response of a pipelined connection.
   */
  lemma LengthsWithoutBody(env: Env, tail: bytes)
    requires |FiveBytesWith(200)| <= env.limit && |FiveBytesWith(304)| <= env.limit && |FiveBytesWith(204)| <= env.limit
    ensures ParseRaw(FiveBytesWith(200) + tail, true, env)
      == Got(200, ParsedHeaders(FiveBytesWith(200)), [], env.cap, tail)
    ensures ParseRaw(FiveBytesWith(304) + tail, false, env)
      == Got(304, ParsedHeaders(FiveBytesWith(304)), [], env.cap, tail)
    ensures ParseRaw(FiveBytesWith(204) + tail, false, env)
      == Got(204, ParsedHeaders(FiveBytesWith(204)), [], env.cap, tail)
  {
    hide FiveBytesWith, ParseRaw, ParsedHeaders;
    LengthIgnored(200, true, env, tail);
    LengthIgnored(304, false, env, tail);
    LengthIgnored(204, false, env, tail);
  }

  // ---------------------------------------------------------------- a header without a value

  function EmptyHeader(): Header { Header([88], []) }

  lemma EmptyHeaderFields()
    ensures var s := Block(OkLine(), [EmptyHeader()]);
      && NextCrlf(s, 0) == 15 && Fields(s, LookupStart(s)) == [EmptyHeader()] && ParsedHeaders(s) == []
  {
    var line, h := OkLine(), EmptyHeader();
    var s, pre := Block(line, [h]), line + CRLF;
    LinesAre();
    RenderOne(h);
    hide OkLine, Render;
    assert s == pre + HeaderLine(h) + CRLF;
    assert s == line + CRLF + (HeaderLine(h) + CRLF);
    FirstLineEnds(line, HeaderLine(h) + CRLF);
    LineEnds(s, pre, h, CRLF);
    FieldsStep(s, |pre|);
    assert |HeaderLine(h)| == 5;
    assert CrlfAt(s, |pre| + 5);
    assert Fields(s, |pre| + 5) == [];
    EmptyField();
    KeepOne([h]);
  }

  lemma EmptyField()
    ensures FieldOf(LineOf(EmptyHeader())) == [EmptyHeader()]
  {
    SplitsAtColon(EmptyHeader());
    TrimIdentity([88]);
    TrimIdentity([]);
  }

  /** "X:" with no value: HeaderBytes finds it, HeaderValues does not. */
  lemma EmptyHeaderSeenOnce()
    ensures var s := Block(OkLine(), [EmptyHeader()]);
      FirstField(Fields(s, LookupStart(s)), [88]) == Some([]) && Values(ParsedHeaders(s), [88]) == []
  {
    EmptyHeaderFields();
  }
}
