/** The chunked transfer coding (section 4.1 of RFC 7230) as readChunkedBody decodes it. */
module Chunked {
  import opened Bytes
  import opened Source
  import opened Responses

  // ---------------------------------------------------------------- lines

  const LINE_MAX: nat := 64

  function FirstLf(s: bytes, from: nat): (k: nat)
    requires from <= |s|
    ensures from <= k <= |s| && (k < |s| ==> s[k] == LF)
    ensures forall i :: from <= i < k ==> s[i] != LF
    decreases |s| - from
  {
    if from == |s| || s[from] == LF then from else FirstLf(s, from + 1)
  }

  function Clip(raw: bytes): bytes { raw[..Min(|raw|, LINE_MAX)] }

  /** The text of a line whose bytes before the LF are `raw`: at most 64 bytes, less a final CR. */
  function LineText(raw: bytes): bytes {
    var t := Clip(raw);
    if t != [] && t[|t| - 1] == CR then t[..|t| - 1] else t
  }

  datatype Line = Line(text: bytes, rest: bytes) | NoLine

  function TakeLine(s: bytes): (r: Line)
    ensures r.Line? ==> |r.rest| < |s|
  {
    var k := FirstLf(s, 0);
    if k == |s| then NoLine else Line(LineText(s[..k]), s[k + 1..])
  }

  /** The cursor after a line whose text is ignored, end of stream included. */
  function AfterLine(s: bytes): (r: bytes)
    ensures |r| <= |s|
  {
    match TakeLine(s)
    case NoLine => []
    case Line(_, rest) => rest
  }

  /** The cursor after the trailers: past the first empty line, or at the end of the stream. */
  function AfterTrailers(s: bytes): (r: bytes)
    ensures |r| <= |s|
    decreases |s|
  {
    match TakeLine(s)
    case NoLine => []
    case Line(text, rest) => if text == [] then rest else AfterTrailers(rest)
  }

  // ---------------------------------------------------------------- sizes

  predicate IsHex(b: byte) { IsDigit(b) || 97 <= b <= 102 || 65 <= b <= 70 }

  function HexDigit(b: byte): (v: nat)
    requires IsHex(b)
    ensures v < 16
  {
    if IsDigit(b) then b - 48 else if 97 <= b then b - 87 else b - 55
  }

  predicate AllHex(s: bytes) { forall i :: 0 <= i < |s| ==> IsHex(s[i]) }

  function HexValue(s: bytes): (v: nat)
    requires AllHex(s)
  {
    if s == [] then 0 else HexValue(s[..|s| - 1]) * 16 + HexDigit(s[|s| - 1])
  }

  /** strconv.ParseInt(s, 16, 64), refused when negative. */
  function ParseHex(s: bytes): (r: Option<nat>)
    ensures r.Some? ==> r.value < TWO63
  {
    var signed := s != [] && (s[0] == 43 || s[0] == 45);
    var digits := if signed then s[1..] else s;
    if digits == [] || !AllHex(digits) then None
    else
      var v := HexValue(digits);
      if signed && s[0] == 45 then (if v == 0 then Some(0) else None)
      else if v < TWO63 then Some(v) else None
  }

  function CutAt(s: bytes, b: byte, from: nat): (r: bytes)
    requires from <= |s|
    decreases |s| - from
  {
    if from == |s| || s[from] == b then s[..from] else CutAt(s, b, from + 1)
  }

  /** The chunk size of a size line: what stands before the first semicolon. */
  function SizeOf(text: bytes): (r: Option<nat>)
    ensures r.Some? ==> r.value < TWO63
  {
    ParseHex(CutAt(text, SEMICOLON, 0))
  }

  // ---------------------------------------------------------------- decoding

  datatype Limits = Limits(maxSize: int, maxBody: int, fail: Error)

  /** `rest` is the stream after the body, or where decoding gave up. */
  datatype Decoded = Body(body: bytes, cap: nat, rest: bytes) | Bad(error: Error, rest: bytes)

  /** Storing one chunk: a buffer that grows forgets what it held. */
  function Stored(acc: bytes, cap: nat, cap': nat, data: bytes): (r: bytes)
    ensures |r| == |acc| + |data|
  {
    (if cap' == cap then acc else Zeros(|acc|)) + data
  }

  /** readChunkedBody on a stream: `acc` is already in the body buffer, whose length is `cap`. */
  function Decode(s: bytes, acc: bytes, cap: nat, lim: Limits): Decoded
    decreases |s|
  {
    match TakeLine(s)
    case NoLine => Bad(lim.fail, [])
    case Line(text, rest) =>
      match SizeOf(text)
      case None => Bad(InvalidResponse, rest)
      case Some(n) =>
        if n == 0 then Body(acc, cap, AfterTrailers(rest)) else DecodeData(rest, n, acc, cap, lim)
  }

  function DecodeData(s: bytes, n: nat, acc: bytes, cap: nat, lim: Limits): Decoded
    requires n > 0
    decreases |s|
  {
    if |acc| + n >= TWO63 then Bad(SlicePanic, s)
    else if lim.maxBody > 0 && |acc| + n > lim.maxBody then Bad(ResponseTooLarge, s)
    else
      match GrownSize(cap, lim.maxSize, |acc| + n)
      case None => Bad(ResponseTooLarge, s)
      case Some(cap') =>
        if |s| < n then Bad(lim.fail, [])
        else Decode(AfterLine(s[n..]), Stored(acc, cap, cap', s[..n]), cap', lim)
  }
}
