/** What the bytes of a response mean, in their own terms: its status line, the framing of its body, its compression. */
module Framing {
  import opened Bytes
  import opened Source
  import opened Scan
  import opened Headers
  import opened Responses
  import opened Chunked
  import opened Encoder
  import opened Reader
  import opened Messages

  // ---------------------------------------------------------------- the status line

  predicate NoBlanks(s: bytes) { forall i :: 0 <= i < |s| ==> !IsBlank(s[i]) }

  predicate AllBlanks(s: bytes) { forall i :: 0 <= i < |s| ==> IsBlank(s[i]) }

  /** HTTP/ and a version, blanks, a status in decimal digits, and whatever follows. */
  function StatusText(version: bytes, gap: bytes, status: nat, rest: bytes): bytes {
    Ascii("HTTP/") + version + gap + Decimal(status) + rest
  }

  lemma SlashIs()
    ensures Ascii("HTTP/") == HTTP_SLASH
  {}

  lemma DigitsOf(a: byte, b: byte, c: byte, status: nat)
    requires 100 <= status < 600
    ensures ThreeDigits(a, b, c) == Some(status) <==> [a, b, c] == Decimal(status)
  {
    SmallDecimal(status);
    hide Decimal;
    var h, t, u := status / 100, status / 10 % 10, status % 10;
    DigitsMake(status);
    if ThreeDigits(a, b, c) == Some(status) { DigitsUnique(a - 48, b - 48, c - 48, h, t, u); }
  }

  lemma DigitsMake(n: nat)
    ensures n == n / 100 * 100 + n / 10 % 10 * 10 + n % 10
  {
    var q := n / 10;
    assert n == q * 10 + n % 10;
    assert q == q / 10 * 10 + q % 10;
    TenTimesTen(n);
  }

  lemma TenTimesTen(n: nat)
    ensures n / 10 / 10 == n / 100
  {}

  lemma DigitsUnique(a: nat, b: nat, c: nat, h: nat, t: nat, u: nat)
    requires b < 10 && c < 10 && t < 10 && u < 10 && a * 100 + b * 10 + c == h * 100 + t * 10 + u
    ensures a == h && b == t && c == u
  {}

  lemma BlankIs(s: bytes, i: nat, r: nat)
    requires i <= r < |s| && IsBlank(s[r]) && forall k :: i <= k < r ==> !IsBlank(s[k])
    ensures ToBlank(s, i) == r
  {
    assert ToBlank(s, i) <= r;
  }

  lemma PastIs(s: bytes, i: nat, r: nat)
    requires i <= r < |s| && !IsBlank(s[r]) && forall k :: i <= k < r ==> IsBlank(s[k])
    ensures PastBlanks(s, i) == r
  {
    assert PastBlanks(s, i) <= r;
  }

  /** Where the digits of a status text are. */
  lemma DigitsAt(version: bytes, gap: bytes, status: nat, rest: bytes)
    requires NoBlanks(version) && AllBlanks(gap) && gap != [] && 100 <= status < 600
    ensures var s, k := StatusText(version, gap, status, rest), 5 + |version| + |gap|;
      |s| == k + 3 + |rest| && s[..5] == HTTP_SLASH && PastBlanks(s, ToBlank(s, 5)) == k && s[k..k + 3] == Decimal(status)
  {
    SlashIs();
    SmallDecimal(status);
    hide Ascii, Decimal;
    var s, k := StatusText(version, gap, status, rest), 5 + |version| + |gap|;
    assert forall i :: 0 <= i < |version| ==> s[5 + i] == version[i];
    assert forall i :: 0 <= i < |gap| ==> s[5 + |version| + i] == gap[i];
    assert s[k..k + 3] == Decimal(status) && s[k] == Decimal(status)[0];
    forall i | 5 <= i < 5 + |version| ensures !IsBlank(s[i]) { assert s[i] == version[i - 5]; }
    forall i | 5 + |version| <= i < k ensures IsBlank(s[i]) { assert s[i] == gap[i - 5 - |version|]; }
    BlankIs(s, 5, 5 + |version|);
    PastIs(s, 5 + |version|, k);
  }

  /** A status line that is written out is read back, unless the whole is shorter than twelve bytes. */
  lemma StatusLineReads(version: bytes, gap: bytes, status: nat, rest: bytes)
    requires NoBlanks(version) && AllBlanks(gap) && gap != [] && 100 <= status < 600
    ensures var s := StatusText(version, gap, status, rest);
      StatusCode(s) == if |s| >= 12 then Some(status) else None
  {
    var s, k := StatusText(version, gap, status, rest), 5 + |version| + |gap|;
    DigitsAt(version, gap, status, rest);
    hide StatusText, ThreeDigits;
    assert s[k..k + 3] == [s[k], s[k + 1], s[k + 2]];
    DigitsOf(s[k], s[k + 1], s[k + 2], status);
  }

  /** And nothing else is read as a status. */
  lemma StatusLineIs(s: bytes, status: nat) returns (version: bytes, gap: bytes, rest: bytes)
    requires StatusCode(s) == Some(status)
    ensures NoBlanks(version) && AllBlanks(gap) && gap != [] && 100 <= status < 600
    ensures s == StatusText(version, gap, status, rest) && |s| >= 12
  {
    var j := ToBlank(s, 5);
    var k := PastBlanks(s, j);
    version, gap, rest := s[5..j], s[j..k], s[k + 3..];
    DigitsOf(s[k], s[k + 1], s[k + 2], status);
    SlashIs();
    assert Decimal(status) == [s[k], s[k + 1], s[k + 2]] && s[..5] == Ascii("HTTP/");
    hide Ascii, Decimal, ThreeDigits, StatusCode;
    SplitAt(s, 5, j, k, k + 3);
    assert s[k..k + 3] == [s[k], s[k + 1], s[k + 2]];
  }

  lemma SplitAt(s: bytes, i: nat, j: nat, k: nat, l: nat)
    requires i <= j <= k <= l <= |s|
    ensures s == s[..i] + s[i..j] + s[j..k] + s[k..l] + s[l..]
  {}

  // ---------------------------------------------------------------- which responses have a body

  /** There is room for n bytes in a buffer of `cap` that may grow to `maxSize`. */
  predicate RoomFor(n: nat, cap: nat, maxSize: int) { n <= cap || maxSize <= 0 || n <= maxSize }

  /** A response to HEAD, and one with status 204, 304 or 101, ends with its header block, whatever the block announces. */
  lemma NoBodyRead(block: bytes, tail: bytes, head: bool, env: Env, status: nat)
    requires HeaderEnd(block) == |block| <= env.limit && StatusCode(block) == Some(status)
    requires head || status == 204 || status == 304 || status == 101
    ensures ParseRaw(block + tail, head, env) == Got(status, ParsedHeaders(block), [], env.cap, tail)
  {
    hide HeaderEnd, StatusCode, ParsedHeaders, ParseRaw;
    ReadAfterBlock(block, tail, head, env);
  }

  /**
   * Every other response, 1xx included, has the body its block announces: chunked first, whatever length is announced
   * beside it, then Content-Length, then everything up to the end of the stream.
   */
  lemma BodyRead(block: bytes, tail: bytes, env: Env, status: nat)
    requires HeaderEnd(block) == |block| <= env.limit && StatusCode(block) == Some(status)
    requires status != 204 && status != 304 && status != 101
    ensures var o, hs := ParseRaw(block + tail, false, env), ParsedHeaders(block);
      && (ChunkedAnnounced(block) ==>
            match Decode(tail, [], env.cap, EnvLimits(env))
            case Body(body, cap, rest) => o == Got(status, hs, body, cap, rest)
            case Bad(error, rest) => o == Broken(status, hs, error, rest))
      && (!ChunkedAnnounced(block) && ContentLength(block).None? ==> o == Broken(status, hs, UntilEof, []))
      && (!ChunkedAnnounced(block) && ContentLength(block).Some? ==>
            var n := ContentLength(block).value;
            var refused := if env.buffered then n > env.maxBody > 0 else n > env.maxBody;
            && (refused ==> o == Broken(0, [], ResponseTooLarge, tail))
            && (!refused && n == 0 ==> o == Got(status, hs, [], env.cap, tail))
            && (!refused && n < 0 ==> o == Broken(status, hs, SlicePanic, tail))
            && (!refused && n > 0 && !RoomFor(n, env.cap, env.maxSize) ==>
                  o == Broken(status, hs, ResponseTooLarge, tail))
            && (!refused && n > 0 && RoomFor(n, env.cap, env.maxSize) ==>
                  if n <= |tail|
                  then o.Got? && o.status == status && o.headers == hs && o.body == tail[..n] && o.rest == tail[n..]
                  else o == Broken(status, hs,
                         if env.buffered && env.fail == Eof && tail != [] then UnexpectedEof else env.fail, [])))
  {
    hide HeaderEnd, StatusCode, ParsedHeaders, ParseRaw, ChunkedAnnounced, ContentLength, Decode;
    ReadAfterBlock(block, tail, false, env);
  }

  /** A block that does not end within the buffer: too large once the buffer is full, else the failure of the stream. */
  lemma HeaderFails(s: bytes, head: bool, env: Env)
    requires !(0 <= HeaderEnd(s) <= env.limit)
    ensures |s| >= env.limit ==> ParseRaw(s, head, env) == Broken(0, [], HeaderTooLarge, s[env.limit..])
    ensures |s| < env.limit ==> ParseRaw(s, head, env) == Broken(0, [], env.fail, [])
  {
    hide HeaderEnd;
  }

  // ---------------------------------------------------------------- decompression

  /** The report of a response whose body was read as `body` into a buffer of length `cap`. */
  predicate Unpacked(o: Raw, status: nat, headers: seq<Header>, body: bytes, cap: nat, maxSize: int, rest: bytes,
                     inflated: Inflated)
  {
    && o.status == status && o.headers == headers && o.rest == rest
    && match inflated
       case Plain => o.Got? && o.body == body
       case Expanded(data) => o.Got? && o.body == if RoomFor(|data|, cap, maxSize) then data else data[..cap]
       case Corrupt => o.Broken? && o.error == InvalidResponse
  }

  /** The same of the response object and the error after a read whose raw outcome is `raw`. */
  ghost predicate Hands(resp: Response, err: Option<Error>, raw: Raw, maxSize: int, inflate: Inflate)
    reads resp, resp.bodyBuf
  {
    raw.Got? && raw.body != [] ==>
      && resp.statusCode == raw.status && resp.headers == raw.headers
      && match inflate(raw.headers, raw.body)
         case Corrupt => err == Some(InvalidResponse)
         case Plain => err == None && Holds(resp, raw.body)
         case Expanded(data) =>
           err == None && Holds(resp, if RoomFor(|data|, raw.cap, maxSize) then data else data[..raw.cap])
  }

  ghost predicate Holds(resp: Response, body: bytes)
    reads resp, resp.bodyBuf
  {
    resp.Valid() && resp.Body() == body && resp.contentLength == |body|
  }

  lemma HandsWhatShows(resp: Response, err: Option<Error>, raw: Raw, maxSize: int, inflate: Inflate)
    requires Shows(resp, err, Unpack(raw, maxSize, inflate))
    ensures Hands(resp, err, raw, maxSize, inflate)
  {
    if raw.Got? && raw.body != [] {
      UnpackedBody(raw.status, raw.headers, raw.body, raw.cap, raw.rest, maxSize, inflate);
      hide Unpack, RoomFor;
    }
  }

  lemma UnpackedBody(status: nat, headers: seq<Header>, body: bytes, cap: nat, rest: bytes, maxSize: int,
                     inflate: Inflate)
    requires body != []
    ensures Unpacked(Unpack(Got(status, headers, body, cap, rest), maxSize, inflate),
                     status, headers, body, cap, maxSize, rest, inflate(headers, body))
  {}

  /**
   * What a caller gets of a body that is not empty: the body itself when it is not compressed; what it expands to,
   * cut to the buffer when there is no room for all of it; or an error with the status kept. Anything else is reported
   * as it was read.
   */
  lemma CallerGets(s: bytes, head: bool, env: Env, inflate: Inflate)
    ensures var raw, o := ParseRaw(s, head, env), ParseMessage(s, head, env, inflate);
      if raw.Got? && raw.body != []
      then Unpacked(o, raw.status, raw.headers, raw.body, raw.cap, env.maxSize, raw.rest, inflate(raw.headers, raw.body))
      else o == raw
  {
    var raw := ParseRaw(s, head, env);
    hide ParseRaw, Unpacked;
    if raw.Got? && raw.body != [] {
      UnpackedBody(raw.status, raw.headers, raw.body, raw.cap, raw.rest, env.maxSize, inflate);
    }
  }
}
