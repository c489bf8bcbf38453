/** The two readers. */
module ReadResponse {
  import opened Bytes
  import opened Source
  import opened Scan
  import opened Headers
  import opened Responses
  import opened Chunked
  import opened ChunkReader
  import opened Reader
  import opened Framing

  // ---------------------------------------------------------------- readResponse (sequential)

  /** The header loop: reads of at most `readSize` bytes until a blank line is in the buffer. */
  method FillHeader(r: ByteSource, buf: array<byte>, headerReadSize: nat)
    returns (headerEnd: int, total: nat, err: Option<Error>)
    requires headerReadSize > 0
    modifies r, buf
    ensures err == None ==>
      && headerEnd == HeaderEnd(old(r.stream)) && 4 <= headerEnd <= total <= buf.Length
      && total <= |old(r.stream)| && buf[..total] == old(r.stream)[..total] && r.stream == old(r.stream)[total..]
    ensures err.Some? ==>
      && !(0 <= HeaderEnd(old(r.stream)) <= buf.Length)
      && err.value == if |old(r.stream)| >= buf.Length then HeaderTooLarge else r.fail
  {
    hide HeaderEnd;
    ghost var all := r.stream;
    total, headerEnd := 0, -1;
    var readSize := Min(headerReadSize, buf.Length);
    NoHeaderYet(all, 0);
    while headerEnd < 0
      invariant total <= buf.Length && total <= |all|
      invariant buf[..total] == all[..total] && r.stream == all[total..]
      invariant headerEnd >= 0 ==> headerEnd == HeaderEnd(all) && 4 <= headerEnd <= total
      invariant headerEnd < 0 ==> !(0 <= HeaderEnd(all) <= total)
      decreases headerEnd < 0, buf.Length - total
    {
      if total >= buf.Length { return headerEnd, total, Some(HeaderTooLarge); }
      var remaining := Min(buf.Length - total, readSize);
      ghost var now := buf[..];
      var n, e := r.Read(buf, total, total + remaining);
      if e.Some? {
        HeaderWithin(all);
        return headerEnd, total, e;
      }
      assert buf[..total + n] == now[..total] + all[total..][..n];
      PrefixGrows(all, total, n);
      total := total + n;
      headerEnd := FindHeaderEnd(buf[..total]);
      HeaderEndPrefix(all, total);
      HeaderEndRange(buf[..total]);
    }
    return headerEnd, total, None;
  }

  lemma PrefixGrows(s: bytes, at: nat, n: nat)
    requires at + n <= |s|
    ensures s[..at + n] == s[..at] + s[at..][..n] && s[at + n..] == s[at..][n..]
  {}

  lemma NoHeaderYet(s: bytes, n: nat)
    requires n < 4
    ensures !(0 <= HeaderEnd(s) <= n)
  {}

  lemma HeaderWithin(s: bytes)
    ensures HeaderEnd(s) <= |s|
  {}

  lemma HeaderEndRange(s: bytes)
    ensures HeaderEnd(s) < 0 || 4 <= HeaderEnd(s) <= |s|
  {}

  /** The Content-Length branch: what the header reads brought along, then reads of at most `bodyReadSize`. */
  method ReadFixed(r: ByteSource, leftover: bytes, block: bytes, resp: Response, status: nat, length: int, maxBody: int,
                   bodyReadSize: nat) returns (err: Option<Error>)
    requires 0 <= NextCrlf(block, 0) && AfterStatusLine(block) < |block|
    requires resp.Cleared()
    modifies r, resp, resp.bodyBuf
    ensures resp.bodyBuf == old(resp.bodyBuf) || fresh(resp.bodyBuf)
    ensures resp.maxSize == old(resp.maxSize)
    ensures forall limit: nat :: Shows(resp, err, FixedBody(block, leftover + old(r.stream), status, length,
      Env(limit, old(resp.bodyBuf.Length), old(resp.maxSize), maxBody, false, r.fail)))
  {
    if length > maxBody { return Some(ResponseTooLarge); }
    resp.contentLength := length;
    SetHead(resp, block, status);
    if length == 0 {
      resp.bodyLen := 0;
      return None;
    }
    if length < 0 { return Some(SlicePanic); }
    var ok := resp.EnsureBufferSize(length);
    if !ok { return Some(ResponseTooLarge); }
    resp.bodyLen := length;
    var step := if bodyReadSize <= 0 then 65536 else bodyReadSize;
    err := CopyThenFill(r, leftover, resp.bodyBuf, length, step);
  }

  method CopyThenFill(r: ByteSource, leftover: bytes, dst: array<byte>, length: nat, step: nat)
    returns (err: Option<Error>)
    requires length <= dst.Length && step > 0
    modifies r, dst
    ensures var s := leftover + old(r.stream);
      if |s| < length then err == Some(r.fail) else err == None && dst[..length] == s[..length]
  {
    var inBuf := Min(|leftover|, length);
    forall i | 0 <= i < inBuf { dst[i] := leftover[i]; }
    ghost var stream := r.stream;
    err := r.Fill(dst, inBuf, length, step);
    if err == None {
      assert dst[..length] == leftover[..inBuf] + stream[..length - inBuf];
      assert (leftover + stream)[..length] == leftover[..inBuf] + stream[..length - inBuf];
    }
  }

  /**
   * readResponse. The header reads may bring body bytes along; the outcome is still that of the whole stream,
   * however the reader cut it.
   */
  method ReadSequential(r: ByteSource, buf: array<byte>, resp: Response, maxBody: int, head: bool,
                        headerReadSize: nat, bodyReadSize: nat) returns (err: Option<Error>)
    requires headerReadSize > 0 && buf != resp.bodyBuf
    requires resp.Cleared()
    modifies r, buf, resp, resp.bodyBuf
    ensures resp.bodyBuf == old(resp.bodyBuf) || fresh(resp.bodyBuf)
    ensures resp.maxSize == old(resp.maxSize)
    ensures Shows(resp, err, ParseRaw(old(r.stream), head,
      Env(buf.Length, old(resp.bodyBuf.Length), old(resp.maxSize), maxBody, false, r.fail)))
  {
    hide HeaderEnd, StatusCode, ChunkedAnnounced, ContentLength, FixedBody, Decode, ParsedHeaders, AfterStatusLine;
    ghost var s := r.stream;
    ghost var env := Env(buf.Length, resp.bodyBuf.Length, resp.maxSize, maxBody, false, r.fail);
    var headerEnd, total;
    headerEnd, total, err := FillHeader(r, buf, headerReadSize);
    if err.Some? { return err; }
    var block := buf[..headerEnd];
    var leftover := buf[headerEnd..total];
    BlockOf(s, headerEnd, total, buf[..]);
    assert block == s[..headerEnd] && leftover + r.stream == s[headerEnd..];
    var status, ok := ParseStatusCode(block);
    if !ok { return Some(InvalidResponse); }
    if head || status == 204 || status == 304 || status == 101 {
      resp.contentLength := 0;
      SetHead(resp, block, status);
      resp.bodyLen := 0;
      return None;
    }
    var chunked := ParseTransferEncoding(block);
    if chunked {
      SetHead(resp, block, status);
      err := ReadChunkedBody(r, leftover, resp, maxBody);
      return err;
    }
    var length, hasLen := ParseContentLength(block);
    if !hasLen {
      SetHead(resp, block, status);
      return Some(UntilEof);
    }
    err := ReadFixed(r, leftover, block, resp, status, length, maxBody, bodyReadSize);
  }

  lemma BlockOf(s: bytes, e: nat, total: nat, buf: bytes)
    requires e == HeaderEnd(s) && e <= total <= |s| && total <= |buf| && buf[..total] == s[..total]
    ensures buf[..e] == s[..e] && buf[e..total] + s[total..] == s[e..]
    ensures 0 <= NextCrlf(s[..e], 0) && AfterStatusLine(s[..e]) < e
  {
    hide HeaderEnd, NextCrlf, AfterStatusLine;
    BlockHasLines(s, e);
    SlicesOf(s, e, total, buf);
  }

  lemma SlicesOf(s: bytes, e: nat, total: nat, buf: bytes)
    requires e <= total <= |s| && total <= |buf| && buf[..total] == s[..total]
    ensures buf[..e] == s[..e] && buf[e..total] + s[total..] == s[e..]
  {
    assert buf[..e] == buf[..total][..e];
    assert buf[e..total] == buf[..total][e..] == s[..total][e..] == s[e..total];
    assert s[e..total] + s[total..] == s[e..];
  }

  /** Connection.readResponse: readResponse, then decompressBody. */
  method ReadAndDecompress(r: ByteSource, buf: array<byte>, resp: Response, maxBody: int, head: bool,
                           headerReadSize: nat, bodyReadSize: nat, inflate: Inflate) returns (err: Option<Error>)
    requires headerReadSize > 0 && buf != resp.bodyBuf
    requires resp.Cleared()
    modifies r, buf, resp, resp.bodyBuf
    ensures resp.bodyBuf == old(resp.bodyBuf) || fresh(resp.bodyBuf)
    ensures Shows(resp, err, ParseMessage(old(r.stream), head,
      Env(buf.Length, old(resp.bodyBuf.Length), old(resp.maxSize), maxBody, false, r.fail), inflate))
    ensures Hands(resp, err, ParseRaw(old(r.stream), head,
      Env(buf.Length, old(resp.bodyBuf.Length), old(resp.maxSize), maxBody, false, r.fail)), old(resp.maxSize), inflate)
  {
    hide ParseRaw, GrownSize;
    ghost var raw, maxSize := ParseRaw(r.stream, head,
      Env(buf.Length, resp.bodyBuf.Length, resp.maxSize, maxBody, false, r.fail)), resp.maxSize;
    err := ReadSequential(r, buf, resp, maxBody, head, headerReadSize, bodyReadSize);
    if err == None {
      err := DecompressBody(resp, inflate);
    }
    hide Hands;
    HandsWhatShows(resp, err, raw, maxSize, inflate);
  }

  // ---------------------------------------------------------------- readResponseBuffered (pipelined)

  /** The byte-by-byte header loop: stops exactly after the first blank line. */
  method FillHeaderByByte(r: ByteSource, scratch: array<byte>) returns (headerEnd: nat, err: Option<Error>)
    modifies r, scratch
    ensures err == None ==>
      && headerEnd == HeaderEnd(old(r.stream)) && 4 <= headerEnd <= scratch.Length && headerEnd <= |old(r.stream)|
      && scratch[..headerEnd] == old(r.stream)[..headerEnd] && r.stream == old(r.stream)[headerEnd..]
    ensures err.Some? ==>
      && !(0 <= HeaderEnd(old(r.stream)) <= scratch.Length)
      && err.value == (if |old(r.stream)| >= scratch.Length then HeaderTooLarge else r.fail)
      && r.stream == old(r.stream)[Min(|old(r.stream)|, scratch.Length)..]
  {
    hide HeaderEnd;
    ghost var all := r.stream;
    var total := 0;
    NoHeaderYet(all, 0);
    while true
      invariant total <= scratch.Length && total <= |all|
      invariant scratch[..total] == all[..total] && r.stream == all[total..]
      invariant !(0 <= HeaderEnd(all) <= total)
      decreases scratch.Length - total
    {
      if total >= scratch.Length { return 0, Some(HeaderTooLarge); }
      var b, e := r.ReadByte();
      if e.Some? {
        HeaderWithin(all);
        return 0, e;
      }
      scratch[total] := b;
      total := total + 1;
      assert scratch[..total] == all[..total];
      HeaderEndsHere(all, scratch[..total]);
      if total >= 4 && scratch[total - 4] == CR && scratch[total - 3] == LF
         && scratch[total - 2] == CR && scratch[total - 1] == LF {
        break;
      }
    }
    return total, None;
  }

  /** With no blank line ending earlier, the header ends here exactly when the last four bytes say so. */
  lemma HeaderEndsHere(s: bytes, p: bytes)
    requires 0 < |p| <= |s| && p == s[..|p|] && !(0 <= HeaderEnd(s) <= |p| - 1)
    ensures HeaderEnd(s) == |p| <==> BlankLineEndsAt(p, |p|)
  {
    assert BlankLineEndsAt(p, |p|) == BlankLineEndsAt(s, |p|);
  }

  /** readResponseBuffered: consumes exactly what the description says, whether it succeeds or fails. */
  method ReadBuffered(r: ByteSource, scratch: array<byte>, resp: Response, maxBody: int, head: bool, inflate: Inflate)
    returns (err: Option<Error>)
    requires scratch != resp.bodyBuf
    requires resp.Cleared()
    modifies r, scratch, resp, resp.bodyBuf
    ensures resp.bodyBuf == old(resp.bodyBuf) || fresh(resp.bodyBuf)
    ensures var o := ParseMessage(old(r.stream), head,
        Env(scratch.Length, old(resp.bodyBuf.Length), old(resp.maxSize), maxBody, true, r.fail), inflate);
      Shows(resp, err, o) && (Placed(o) ==> r.stream == o.rest)
    ensures Hands(resp, err, ParseRaw(old(r.stream), head,
      Env(scratch.Length, old(resp.bodyBuf.Length), old(resp.maxSize), maxBody, true, r.fail)), old(resp.maxSize), inflate)
  {
    hide ParseRaw, GrownSize, Decode;
    ghost var raw, maxSize := ParseRaw(r.stream, head,
      Env(scratch.Length, resp.bodyBuf.Length, resp.maxSize, maxBody, true, r.fail)), resp.maxSize;
    err := ReadBufferedRaw(r, scratch, resp, maxBody, head);
    if err == None {
      err := DecompressBody(resp, inflate);
    }
    hide Hands;
    HandsWhatShows(resp, err, raw, maxSize, inflate);
  }

  method ReadBufferedRaw(r: ByteSource, scratch: array<byte>, resp: Response, maxBody: int, head: bool)
    returns (err: Option<Error>)
    requires scratch != resp.bodyBuf
    requires resp.Cleared()
    modifies r, scratch, resp, resp.bodyBuf
    ensures resp.bodyBuf == old(resp.bodyBuf) || fresh(resp.bodyBuf)
    ensures resp.maxSize == old(resp.maxSize)
    ensures var o := ParseRaw(old(r.stream), head,
        Env(scratch.Length, old(resp.bodyBuf.Length), old(resp.maxSize), maxBody, true, r.fail));
      Shows(resp, err, o) && (Placed(o) ==> r.stream == o.rest)
  {
    hide HeaderEnd, StatusCode, ChunkedAnnounced, ContentLength, Decode, ParsedHeaders, AfterStatusLine, GrownSize;
    ghost var s := r.stream;
    var headerEnd;
    headerEnd, err := FillHeaderByByte(r, scratch);
    if err.Some? { return err; }
    var block := scratch[..headerEnd];
    BlockOf(s, headerEnd, headerEnd, scratch[..]);
    var status, ok := ParseStatusCode(block);
    if !ok { return Some(InvalidResponse); }
    if head || status == 204 || status == 304 || status == 101 {
      resp.contentLength := 0;
      SetHead(resp, block, status);
      resp.bodyLen := 0;
      return None;
    }
    var chunked := ParseTransferEncoding(block);
    if chunked {
      SetHead(resp, block, status);
      assert [] + r.stream == r.stream;
      err := ReadChunkedBody(r, [], resp, maxBody);
      return err;
    }
    var length, hasLen := ParseContentLength(block);
    if !hasLen {
      SetHead(resp, block, status);
      return Some(UntilEof);
    }
    if maxBody > 0 && length > maxBody { return Some(ResponseTooLarge); }
    resp.contentLength := length;
    SetHead(resp, block, status);
    if length == 0 {
      resp.bodyLen := 0;
      return None;
    }
    if length < 0 { return Some(SlicePanic); }
    var grown := resp.EnsureBufferSize(length);
    if !grown { return Some(ResponseTooLarge); }
    resp.bodyLen := length;
    err := r.ReadFull(resp.bodyBuf, 0, length);
    assert err == None ==> resp.bodyBuf[..length] == s[headerEnd..][..length];
  }

  // ---------------------------------------------------------------- agreement

  /** A complete header block with a body framed by Content-Length, and that length. */
  function FixedLength(s: bytes, head: bool, limit: nat): Option<int> {
    var e := HeaderEnd(s);
    if !(0 <= e <= limit) then None
    else match StatusCode(s[..e])
      case None => None
      case Some(status) =>
        if Bodyless(status, head) || ChunkedAnnounced(s[..e]) then None else ContentLength(s[..e])
  }

  /** A Content-Length body longer than the limit. */
  predicate OverLimit(s: bytes, head: bool, env: Env) {
    FixedLength(s, head, env.limit).Some? && FixedLength(s, head, env.limit).value > env.maxBody
  }

  /** EOF inside an accepted Content-Length body, after its first byte. */
  predicate CutOff(s: bytes, head: bool, env: Env) {
    && env.fail.Eof? && FixedLength(s, head, env.limit).Some?
    && var length := FixedLength(s, head, env.limit).value;
      length <= env.maxBody && GrownSize(env.cap, env.maxSize, length).Some? && 0 < |s| - HeaderEnd(s) < length
  }

  function Switched(env: Env): Env { env.(buffered := !env.buffered) }

  /** The same report: status, headers, and body or error; where the stream stands is left out. */
  predicate SameReport(a: Raw, b: Raw) {
    match a
    case Got(_, _, _, _, _) => b == a
    case Broken(status, headers, error, _) => b.Broken? && b.status == status && b.headers == headers && b.error == error
  }

  /**
   * The two readers mean the same exactly when the body limit is positive or respected, and the body is not cut off
   * by EOF after its first byte: readResponse checks the limit whatever it is and passes EOF on, readResponseBuffered
   * checks only a positive one and reads the body with io.ReadFull.
   */
  lemma ReadersAgree(s: bytes, head: bool, env: Env, inflate: Inflate)
    ensures SameReport(ParseMessage(s, head, env, inflate), ParseMessage(s, head, Switched(env), inflate))
      <==> (env.maxBody > 0 || !OverLimit(s, head, env)) && !CutOff(s, head, env)
  {
    var e := HeaderEnd(s);
    if 0 <= e <= env.limit { StatusInRange(s[..e]); }
    hide HeaderEnd, StatusCode, ChunkedAnnounced, ContentLength, Decode, ParsedHeaders, GrownSize;
    if FixedLength(s, head, env.limit).Some? {
      FixedReadersAgree(s[..e], s[e..], StatusCode(s[..e]).value, FixedLength(s, head, env.limit).value, env, inflate);
      hide FixedBody, Unpack;
    }
  }

  lemma FixedReadersAgree(block: bytes, s: bytes, status: nat, length: int, env: Env, inflate: Inflate)
    requires status > 0
    ensures var a, b := FixedBody(block, s, status, length, env), FixedBody(block, s, status, length, Switched(env));
      SameReport(Unpack(a, env.maxSize, inflate), Unpack(b, env.maxSize, inflate)) <==>
        && (env.maxBody > 0 || length <= env.maxBody)
        && !(env.fail.Eof? && length <= env.maxBody && GrownSize(env.cap, env.maxSize, length).Some? && 0 < |s| < length)
  {
    hide ParsedHeaders, GrownSize;
  }

  /** A body cut off by EOF changes the error and nothing else. */
  lemma CutOffReports(s: bytes, head: bool, env: Env, inflate: Inflate)
    requires CutOff(s, head, env) && !env.buffered
    ensures var a, b := ParseMessage(s, head, env, inflate), ParseMessage(s, head, Switched(env), inflate);
      && a.Broken? && b.Broken? && a.status == b.status && a.headers == b.headers
      && a.error == Eof && b.error == UnexpectedEof && StatusCode(s[..HeaderEnd(s)]) == Some(a.status)
  {
    hide HeaderEnd, StatusCode, ChunkedAnnounced, ContentLength, Decode, ParsedHeaders, GrownSize;
  }

  /**
   * The two readers over the same bytes, cut in any two ways, with equal buffers. The limit of a Connection is always
   * positive, so there status and headers always agree, one succeeds exactly when the other does and then with the same
   * body, and the errors agree exactly when the body is not cut off by EOF after its first byte.
   */
  method CompareReaders(a: ByteSource, b: ByteSource, buf: array<byte>, scratch: array<byte>,
                        ra: Response, rb: Response, maxBody: int, head: bool,
                        headerReadSize: nat, bodyReadSize: nat, inflate: Inflate)
    returns (ea: Option<Error>, eb: Option<Error>)
    requires a != b && a.stream == b.stream && a.fail == b.fail
    requires buf.Length == scratch.Length && headerReadSize > 0
    requires ra != rb && ra.Cleared() && rb.Cleared()
    requires ra.bodyBuf.Length == rb.bodyBuf.Length && ra.maxSize == rb.maxSize
    requires buf != scratch && buf != ra.bodyBuf && buf != rb.bodyBuf
    requires scratch != ra.bodyBuf && scratch != rb.bodyBuf && ra.bodyBuf != rb.bodyBuf
    modifies a, b, buf, scratch, ra, rb, ra.bodyBuf, rb.bodyBuf
    ensures var env := Env(buf.Length, old(ra.bodyBuf.Length), old(ra.maxSize), maxBody, false, a.fail);
      maxBody > 0 || !OverLimit(old(a.stream), head, env) ==>
        && ra.statusCode == rb.statusCode && ra.headers == rb.headers
        && (ea == None <==> eb == None)
        && (ea == None ==> ra.Valid() && rb.Valid() && ra.Body() == rb.Body())
        && (ea == eb <==> !CutOff(old(a.stream), head, env))
  {
    hide ParseMessage, OverLimit, CutOff;
    ghost var s := a.stream;
    ghost var env := Env(buf.Length, ra.bodyBuf.Length, ra.maxSize, maxBody, false, a.fail);
    ReadersAgree(s, head, env, inflate);
    if CutOff(s, head, env) { CutOffReports(s, head, env, inflate); }
    ea := ReadAndDecompress(a, buf, ra, maxBody, head, headerReadSize, bodyReadSize, inflate);
    eb := ReadBuffered(b, scratch, rb, maxBody, head, inflate);
  }
}
