/** readResponse and readResponseBuffered, against one description of how a response stream is read. */
module Reader {
  import opened Bytes
  import opened Source
  import opened Scan
  import opened Headers
  import opened Responses
  import opened Chunked

  // ---------------------------------------------------------------- description

  /** What gzip makes of a body; which bodies are gzip is part of it. */
  datatype Inflated = Plain | Expanded(data: bytes) | Corrupt

  type Inflate = (seq<Header>, bytes) -> Inflated

  /**
   * `limit` is the header buffer's length, `cap` and `maxSize` describe the response's body buffer; `buffered` says
   * which reader it is: readResponseBuffered applies only a positive body limit to Content-Length, and fills the body
   * with io.ReadFull.
   */
  datatype Env = Env(limit: nat, cap: nat, maxSize: int, maxBody: int, buffered: bool, fail: Error)

  /**
   * The outcome of one read. `rest` is where the stream stands afterwards; after a body without any framing that
   * is not modelled.
   */
  datatype Raw =
    | Got(status: nat, headers: seq<Header>, body: bytes, cap: nat, rest: bytes)
    | Broken(status: nat, headers: seq<Header>, error: Error, rest: bytes)

  predicate Bodyless(status: nat, head: bool) { head || status == 204 || status == 304 || status == 101 }

  function FixedBody(block: bytes, s: bytes, status: nat, length: int, env: Env): Raw {
    if length > env.maxBody && (!env.buffered || env.maxBody > 0) then Broken(0, [], ResponseTooLarge, s)
    else if length == 0 then Got(status, ParsedHeaders(block), [], env.cap, s)
    else if length < 0 then Broken(status, ParsedHeaders(block), SlicePanic, s)
    else
      match GrownSize(env.cap, env.maxSize, length)
      case None => Broken(status, ParsedHeaders(block), ResponseTooLarge, s)
      case Some(cap) =>
        if |s| < length then
          Broken(status, ParsedHeaders(block), if env.buffered then ShortRead(env.fail, |s|) else env.fail, [])
        else Got(status, ParsedHeaders(block), s[..length], cap, s[length..])
  }

  function ChunkedBody(block: bytes, s: bytes, status: nat, env: Env): Raw {
    match Decode(s, [], env.cap, Limits(env.maxSize, env.maxBody, env.fail))
    case Bad(e, rest) => Broken(status, ParsedHeaders(block), e, rest)
    case Body(body, cap, rest) => Got(status, ParsedHeaders(block), body, cap, rest)
  }

  /** The body that follows header block `block`, framed as the block says. */
  function AfterBlock(block: bytes, s: bytes, head: bool, env: Env): Raw {
    match StatusCode(block)
    case None => Broken(0, [], InvalidResponse, s)
    case Some(status) =>
      if Bodyless(status, head) then Got(status, ParsedHeaders(block), [], env.cap, s)
      else if ChunkedAnnounced(block) then ChunkedBody(block, s, status, env)
      else
        match ContentLength(block)
        case None => Broken(status, ParsedHeaders(block), UntilEof, [])
        case Some(length) => FixedBody(block, s, status, length, env)
  }

  function HeaderFailure(s: bytes, env: Env): Error {
    if |s| >= env.limit then HeaderTooLarge else env.fail
  }

  function WithRest(o: Raw, rest: bytes): Raw { o.(rest := rest) }

  /** The description says where the stream stands after the read. */
  predicate Placed(o: Raw) { o.Got? || !o.error.UntilEof? }

  /** The read set the status code, if it failed then after that. */
  predicate HasStatus(o: Raw) { o.Got? || o.status > 0 }

  /** One response read from stream `s`. */
  function ParseRaw(s: bytes, head: bool, env: Env): Raw {
    var e := HeaderEnd(s);
    if 0 <= e <= env.limit then AfterBlock(s[..e], s[e..], head, env)
    else Broken(0, [], HeaderFailure(s, env), s[Min(|s|, env.limit)..])
  }

  /** decompressBody on what was read. */
  function Unpack(o: Raw, maxSize: int, inflate: Inflate): Raw {
    match o
    case Broken(_, _, _, _) => o
    case Got(status, headers, body, cap, rest) =>
      if body == [] then o
      else
        match inflate(headers, body)
        case Plain => o
        case Corrupt => Broken(status, headers, InvalidResponse, rest)
        case Expanded(data) =>
          match GrownSize(cap, maxSize, |data|)
          case None => Got(status, headers, data[..cap], cap, rest)
          case Some(cap') => Got(status, headers, data, cap', rest)
  }

  function ParseMessage(s: bytes, head: bool, env: Env, inflate: Inflate): Raw {
    Unpack(ParseRaw(s, head, env), env.maxSize, inflate)
  }

  /** The response object and the error say what `o` says. */
  ghost predicate Shows(resp: Response, err: Option<Error>, o: Raw)
    reads resp, resp.bodyBuf
  {
    match o
    case Broken(status, headers, e, _) => err == Some(e) && resp.statusCode == status && resp.headers == headers
    case Got(status, headers, body, cap, _) =>
      && err == None && resp.Valid()
      && resp.statusCode == status && resp.headers == headers
      && resp.Body() == body && resp.contentLength == |body| && resp.bodyBuf.Length == cap
  }

  lemma StatusInRange(block: bytes)
    ensures StatusCode(block).Some? ==> StatusCode(block).value >= 100
  {}

  // ---------------------------------------------------------------- shared steps

  /** A header block ends in a blank line, so parseHeaders never takes its early exit on one. */
  lemma BlockHasLines(s: bytes, e: nat)
    requires e <= |s| && BlankLineEndsAt(s, e)
    ensures 0 <= NextCrlf(s[..e], 0) && AfterStatusLine(s[..e]) < e
  {
    assert CrlfAt(s[..e], e - 4);
  }

  /** resp.StatusCode and parseHeaders, as every successful framing branch does. */
  method SetHead(resp: Response, block: bytes, status: nat)
    requires 0 <= NextCrlf(block, 0) && AfterStatusLine(block) < |block|
    modifies resp`statusCode, resp`headers, resp`rawHeader
    ensures resp.statusCode == status && resp.headers == ParsedHeaders(block) && resp.rawHeader == block
  {
    resp.statusCode := status;
    resp.rawHeader := block;
    resp.headers := ParseHeaders(block, resp.headers);
  }

  method DecompressBody(resp: Response, inflate: Inflate) returns (err: Option<Error>)
    requires resp.Valid() && resp.contentLength == resp.bodyLen
    modifies resp, resp.bodyBuf
    ensures resp.bodyBuf == old(resp.bodyBuf) || fresh(resp.bodyBuf)
    ensures resp.maxSize == old(resp.maxSize)
    ensures forall rest :: Shows(resp, err, Unpack(
      Got(old(resp.statusCode), old(resp.headers), old(resp.Body()), old(resp.bodyBuf.Length), rest),
      old(resp.maxSize), inflate))
  {
    if resp.bodyLen == 0 { return None; }
    match inflate(resp.headers, resp.bodyBuf[..resp.bodyLen]) {
      case Plain => return None;
      case Corrupt => return Some(InvalidResponse);
      case Expanded(data) =>
        var d := data;
        var ok := resp.EnsureBufferSize(|d|);
        if !ok { d := d[..resp.bodyBuf.Length]; }
        forall i | 0 <= i < |d| { resp.bodyBuf[i] := d[i]; }
        resp.bodyLen := |d|;
        resp.contentLength := |d|;
        assert resp.bodyBuf[..|d|] == d;
        return None;
    }
  }
}
