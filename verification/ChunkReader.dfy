/** readChunkedBody itself: the byte, line and exact reads over leftover-then-reader, and the chunk loop. */
module ChunkReader {
  import opened Bytes
  import opened Source
  import opened Responses
  import opened Chunked

  /** The variables the closures of readChunkedBody share: header leftover first, then the reader. */
  class Cursor {
    const leftover: bytes
    var off: nat
    const r: ByteSource

    ghost predicate Valid()
      reads this
    {
      off <= |leftover|
    }

    ghost function Rest(): bytes
      requires Valid()
      reads this, r
    {
      leftover[off..] + r.stream
    }

    constructor (leftover: bytes, r: ByteSource)
      ensures Valid() && this.r == r && this.leftover == leftover && Rest() == leftover + r.stream
    {
      this.leftover, this.off, this.r := leftover, 0, r;
    }

    method ReadByte() returns (b: byte, err: Option<Error>)
      requires Valid()
      modifies this, r
      ensures Valid()
      ensures old(Rest()) == [] ==> err == Some(r.fail) && Rest() == []
      ensures old(Rest()) != [] ==> err == None && old(Rest()) == [b] + Rest()
    {
      if off < |leftover| {
        b := leftover[off];
        assert leftover[off..] == [b] + leftover[off + 1..];
        off := off + 1;
        return b, None;
      }
      var tmp := new byte[1];
      var n, e := r.Read(tmp, 0, 1);
      if e.Some? { return 0, e; }
      assert tmp[..][0] == old(r.stream)[0];
      return tmp[0], None;
    }

    /** readLine: bytes beyond the 64th are read and dropped. */
    method ReadLine() returns (text: bytes, err: Option<Error>)
      requires Valid()
      modifies this, r
      ensures Valid()
      ensures TakeLine(old(Rest())).NoLine? ==> err == Some(r.fail) && Rest() == []
      ensures TakeLine(old(Rest())).Line? ==> err == None && TakeLine(old(Rest())) == Line(text, Rest())
    {
      hide LineText, TakeLine;
      text := [];
      ghost var all := Rest();
      ghost var raw: bytes := [];
      while true
        invariant Valid()
        invariant all == raw + Rest()
        invariant forall i :: 0 <= i < |raw| ==> raw[i] != LF
        invariant text == Clip(raw)
        decreases |Rest()|
      {
        var b, e := ReadByte();
        if e.Some? {
          LineMissing(all);
          return [], e;
        }
        if b == LF {
          LineFound(all, raw, Rest());
          LineTextOf(raw);
          var end := |text|;
          if end > 0 && text[end - 1] == CR { end := end - 1; }
          return text[..end], None;
        }
        if |text| < LINE_MAX { text := text + [b]; }
        raw := raw + [b];
      }
    }

    /** One turn of readExact: copy from the leftover while there is any, else read. */
    method ReadSome(dst: array<byte>, at: nat, hi: nat) returns (n: nat, err: Option<Error>)
      requires Valid() && at < hi <= dst.Length
      modifies this, r, dst
      ensures Valid()
      ensures old(Rest()) == [] ==> err == Some(r.fail) && Rest() == []
      ensures old(Rest()) != [] ==> err == None && 0 < n <= hi - at && n <= |old(Rest())|
      ensures old(Rest()) != [] ==> Rest() == Tail(old(Rest()), n)
      ensures old(Rest()) != [] ==> dst[..] == Spliced(old(dst[..]), at, Head(old(Rest()), n))
    {
      ghost var rest := Rest();
      if off < |leftover| {
        n := Min(hi - at, |leftover| - off);
        forall i | 0 <= i < n { dst[at + i] := leftover[off + i]; }
        assert rest[..n] == leftover[off..off + n];
        off := off + n;
        return n, None;
      }
      assert rest == r.stream;
      n, err := r.Read(dst, at, hi);
    }

    /** The first `at - lo` bytes of `all` are in place, and the others are still to come. */
    ghost predicate Holds(dst: array<byte>, lo: nat, at: nat, was: bytes, all: bytes)
      reads this, r, dst
    {
      && Valid() && lo <= at <= dst.Length && at - lo <= |all| && |was| == dst.Length
      && Rest() == Tail(all, at - lo) && dst[..] == Spliced(was, lo, Head(all, at - lo))
    }

    /** A turn of readExact, seen from its start. */
    method ReadOn(dst: array<byte>, lo: nat, at: nat, hi: nat, ghost was: bytes, ghost all: bytes)
      returns (next: nat, err: Option<Error>)
      requires Holds(dst, lo, at, was, all) && at < hi <= dst.Length
      modifies this, r, dst
      ensures err == None ==> at < next <= hi && Holds(dst, lo, next, was, all)
      ensures err != None ==> err == Some(r.fail) && Valid() && Rest() == [] && |all| == at - lo
    {
      hide Spliced, Head, Tail;
      ghost var rest, now := Rest(), dst[..];
      var n;
      n, err := ReadSome(dst, at, hi);
      next := at;
      if err == None {
        Extend(was, all, lo, at, n);
        next := at + n;
      }
    }

    /** readExact: fills dst[lo..hi) or reports the reader's error. */
    method ReadExact(dst: array<byte>, lo: nat, hi: nat) returns (err: Option<Error>)
      requires Valid() && lo <= hi <= dst.Length
      modifies this, r, dst
      ensures Valid()
      ensures |old(Rest())| < hi - lo ==> err == Some(r.fail) && Rest() == []
      ensures |old(Rest())| >= hi - lo ==> err == None && Rest() == old(Rest())[hi - lo..]
      ensures |old(Rest())| >= hi - lo ==> dst[..] == Spliced(old(dst[..]), lo, old(Rest())[..hi - lo])
    {
      ghost var all, was := Rest(), dst[..];
      var at := lo;
      SplicedNothing(was, lo, all);
      HeadAndTail(all, Min(|all|, hi - lo));
      hide Spliced, Head, Tail, Rest, Valid;
      while at < hi
        invariant Holds(dst, lo, at, was, all) && at <= hi
        decreases hi - at
      {
        var next, e := ReadOn(dst, lo, at, hi, was, all);
        if e.Some? { return e; }
        at := next;
      }
      return None;
    }
  }

  lemma LineMissing(all: bytes)
    requires forall i :: 0 <= i < |all| ==> all[i] != LF
    ensures TakeLine(all).NoLine?
  {}

  lemma LineFound(all: bytes, raw: bytes, rest: bytes)
    requires all == raw + ([LF] + rest) && forall i :: 0 <= i < |raw| ==> raw[i] != LF
    ensures TakeLine(all) == Line(LineText(raw), rest)
  {
    assert all[|raw|] == LF;
    assert FirstLf(all, 0) == |raw|;
    assert all[..|raw|] == raw && all[|raw| + 1..] == rest;
  }

  lemma LineTextOf(raw: bytes)
    ensures var t := Clip(raw);
      LineText(raw) == t[..if |t| > 0 && t[|t| - 1] == CR then |t| - 1 else |t|]
  {}

  /** readLine's caller when it only wants the cursor moved. */
  method SkipLine(c: Cursor)
    requires c.Valid()
    modifies c, c.r
    ensures c.Valid() && c.Rest() == AfterLine(old(c.Rest()))
  {
    var _, _ := c.ReadLine();
  }

  method SkipTrailers(c: Cursor)
    requires c.Valid()
    modifies c, c.r
    ensures c.Valid() && c.Rest() == AfterTrailers(old(c.Rest()))
  {
    hide TakeLine;
    ghost var all := c.Rest();
    while true
      invariant c.Valid() && AfterTrailers(all) == AfterTrailers(c.Rest())
      decreases |c.Rest()|
    {
      var text, err := c.ReadLine();
      if err.Some? || |text| == 0 { break; }
    }
  }

  /** The 64-bit sum of two non-negative ints is exact or negative. */
  lemma WrapSum(a: nat, b: nat)
    requires a < TWO63 && b < TWO63
    ensures Wrap64(a + b) == if a + b < TWO63 then a + b else a + b - TWO64
  {}

  /** One non-final chunk: limits, growth, data, line end. */
  method ReadChunk(c: Cursor, resp: Response, n: nat, size: nat, maxBody: int)
    returns (n': nat, err: Option<Error>)
    requires c.Valid() && n <= resp.bodyBuf.Length && n < TWO63 && 0 < size < TWO63
    modifies c, c.r, resp`bodyBuf, resp.bodyBuf
    ensures c.Valid() && (resp.bodyBuf == old(resp.bodyBuf) || fresh(resp.bodyBuf))
    ensures err == None ==> n' <= resp.bodyBuf.Length && n' < TWO63 && |c.Rest()| <= |old(c.Rest())|
    ensures var lim := Limits(resp.maxSize, maxBody, c.r.fail);
      var d := DecodeData(old(c.Rest()), size, old(resp.bodyBuf[..n]), old(resp.bodyBuf.Length), lim);
      if err.Some? then d == Bad(err.value, c.Rest())
      else d == Decode(c.Rest(), resp.bodyBuf[..n'], resp.bodyBuf.Length, lim)
  {
    hide Decode, GrownSize, AfterLine, Wrap64;
    ghost var rest, held, cap := c.Rest(), resp.bodyBuf[..n], resp.bodyBuf.Length;
    var sum := Wrap64(n + size);
    WrapSum(n, size);
    if maxBody > 0 && sum > maxBody { return n, Some(ResponseTooLarge); }
    if sum < 0 { return n, Some(SlicePanic); }
    var ok := resp.EnsureBufferSize(sum);
    if !ok { return n, Some(ResponseTooLarge); }
    ghost var kept := resp.bodyBuf[..n];
    assert kept == if resp.bodyBuf.Length == cap then held else Zeros(n);
    var e := c.ReadExact(resp.bodyBuf, n, sum);
    if e.Some? { return n, e; }
    assert resp.bodyBuf[..sum] == Stored(held, cap, resp.bodyBuf.Length, rest[..size]);
    SkipLine(c);
    return sum, None;
  }

  /**
   * readChunkedBody: the chunk loop. Whatever is left over from the header read and however the reader cuts the
   * rest, the outcome is Decode of the whole remaining stream; `n` is bodyLen.
   */
  method ReadChunkedBody(r: ByteSource, leftover: bytes, resp: Response, maxBody: int)
    returns (err: Option<Error>)
    modifies r, resp, resp.bodyBuf
    ensures resp.statusCode == old(resp.statusCode) && resp.headers == old(resp.headers)
    ensures resp.maxSize == old(resp.maxSize) && resp.rawHeader == old(resp.rawHeader)
    ensures resp.bodyBuf == old(resp.bodyBuf) || fresh(resp.bodyBuf)
    ensures
      var lim := Limits(old(resp.maxSize), maxBody, r.fail);
      var d := Decode(leftover + old(r.stream), [], old(resp.bodyBuf.Length), lim);
      match d
      case Bad(e, rest) => err == Some(e) && (leftover == [] ==> r.stream == rest)
      case Body(body, cap, rest) =>
        && err == None && resp.Valid() && resp.Body() == body && resp.contentLength == |body|
        && resp.bodyBuf.Length == cap && (leftover == [] ==> r.stream == rest)
  {
    hide TakeLine, SizeOf, AfterTrailers, DecodeData;
    var c := new Cursor(leftover, r);
    ghost var lim := Limits(resp.maxSize, maxBody, r.fail);
    ghost var goal := Decode(c.Rest(), [], resp.bodyBuf.Length, lim);
    var n: nat := 0;
    assert resp.bodyBuf[..0] == [];
    while true
      invariant c.Valid() && c.r == r && fresh(c) && c.leftover == leftover
      invariant n <= resp.bodyBuf.Length && n < TWO63
      invariant resp.bodyBuf == old(resp.bodyBuf) || fresh(resp.bodyBuf)
      invariant unchanged(resp`statusCode, resp`headers, resp`maxSize, resp`rawHeader)
      invariant goal == Decode(c.Rest(), resp.bodyBuf[..n], resp.bodyBuf.Length, lim)
      decreases |c.Rest()|
    {
      var text, e := c.ReadLine();
      if e.Some? { return e; }
      var size := SizeOf(text);
      if size.None? { return Some(InvalidResponse); }
      if size.value == 0 {
        SkipTrailers(c);
        break;
      }
      var n', e' := ReadChunk(c, resp, n, size.value, maxBody);
      if e'.Some? { return e'; }
      n := n';
    }
    resp.contentLength := n;
    resp.bodyLen := n;
    return None;
  }
}
