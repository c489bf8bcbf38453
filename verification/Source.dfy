/** What a reader pulls bytes from: a connection or a bufio.Reader over one. */
module Source {
  import opened Bytes

  datatype Error =
    | Eof                    // io.EOF
    | UnexpectedEof          // io.ErrUnexpectedEOF
    | Transport(code: int)   // whatever else the reader returned: timeout, reset
    | HeaderTooLarge
    | ResponseTooLarge
    | InvalidResponse
    | SlicePanic             // a slice expression with a negative bound: the goroutine panics
    | UntilEof               // the body is delimited by the end of the stream (not modelled further)

  /**
   * `stream` is everything the peer will still deliver before the reader starts failing with `fail`;
   * `cuts` decides how many bytes each Read returns, and nothing else depends on it.
   */
  class ByteSource {
    var stream: bytes
    var cuts: seq<nat>
    const fail: Error

    constructor (stream: bytes, cuts: seq<nat>, fail: Error)
      ensures this.stream == stream && this.cuts == cuts && this.fail == fail
    {
      this.stream, this.cuts, this.fail := stream, cuts, fail;
    }

    method Read(dst: array<byte>, lo: nat, hi: nat) returns (n: nat, err: Option<Error>)
      requires lo < hi <= dst.Length
      modifies this, dst
      ensures old(stream) == [] ==> n == 0 && err == Some(fail) && stream == [] && dst[..] == old(dst[..])
      ensures old(stream) != [] ==> err == None && 0 < n <= hi - lo && n <= |old(stream)|
      ensures old(stream) != [] ==> stream == Tail(old(stream), n)
      ensures old(stream) != [] ==> dst[..] == Spliced(old(dst[..]), lo, Head(old(stream), n))
    {
      if stream == [] { return 0, Some(fail); }
      var cut := if cuts == [] then hi - lo else cuts[0];
      cuts := if cuts == [] then [] else cuts[1..];
      n := Min(Max(1, cut), Min(hi - lo, |stream|));
      forall i | 0 <= i < n {
        dst[lo + i] := stream[i];
      }
      stream := stream[n..];
      return n, None;
    }

    /** bufio.Reader.ReadByte. */
    method ReadByte() returns (b: byte, err: Option<Error>)
      modifies this
      ensures old(stream) == [] ==> err == Some(fail) && stream == []
      ensures old(stream) != [] ==> err == None && old(stream) == [b] + stream
    {
      if stream == [] { return 0, Some(fail); }
      b := stream[0];
      stream := stream[1..];
      return b, None;
    }

    /** Reads until dst[lo..hi) is full: the body loop of readResponse. */
    method Fill(dst: array<byte>, lo: nat, hi: nat, step: nat) returns (err: Option<Error>)
      requires lo <= hi <= dst.Length && step > 0
      modifies this, dst
      ensures |old(stream)| < hi - lo ==> err == Some(fail) && stream == []
      ensures |old(stream)| >= hi - lo ==> err == None && stream == old(stream)[hi - lo..]
      ensures |old(stream)| >= hi - lo ==> dst[..] == Spliced(old(dst[..]), lo, old(stream)[..hi - lo])
    {
      ghost var all, was := stream, dst[..];
      var at := lo;
      SplicedNothing(was, lo, all);
      hide Spliced, Head, Tail;
      while at < hi
        invariant lo <= at <= hi && at - lo <= |all|
        invariant stream == Tail(all, at - lo)
        invariant dst[..] == Spliced(was, lo, Head(all, at - lo))
        decreases hi - at
      {
        var toRead := Min(hi - at, step);
        var n, e := Read(dst, at, at + toRead);
        if e.Some? { return e; }
        Extend(was, all, lo, at, n);
        at := at + n;
      }
      HeadAndTail(all, hi - lo);
      return None;
    }

    /** io.ReadFull: an EOF after the first byte becomes an unexpected one; other errors pass through. */
    method ReadFull(dst: array<byte>, lo: nat, hi: nat) returns (err: Option<Error>)
      requires lo <= hi <= dst.Length
      modifies this, dst
      ensures |old(stream)| < hi - lo ==> err == Some(ShortRead(fail, |old(stream)|)) && stream == []
      ensures |old(stream)| >= hi - lo ==> err == None && stream == old(stream)[hi - lo..]
      ensures |old(stream)| >= hi - lo ==> dst[..] == Spliced(old(dst[..]), lo, old(stream)[..hi - lo])
    {
      ghost var all, was := stream, dst[..];
      var at := lo;
      SplicedNothing(was, lo, all);
      hide Spliced, Head, Tail;
      while at < hi
        invariant lo <= at <= hi && at - lo <= |all|
        invariant stream == Tail(all, at - lo)
        invariant dst[..] == Spliced(was, lo, Head(all, at - lo))
        decreases hi - at
      {
        var n, e := Read(dst, at, hi);
        if e.Some? {
          if at > lo && e == Some(Eof) { return Some(UnexpectedEof); }
          return e;
        }
        Extend(was, all, lo, at, n);
        at := at + n;
      }
      HeadAndTail(all, hi - lo);
      return None;
    }
  }

  /** What io.ReadFull reports when the stream fails after `got` bytes. */
  function ShortRead(fail: Error, got: nat): Error { if fail.Eof? && got > 0 then UnexpectedEof else fail }

  /** `part` written over a buffer from `lo` on. */
  function Spliced(was: bytes, lo: nat, part: bytes): (s: bytes)
    requires lo + |part| <= |was|
    ensures |s| == |was|
  {
    was[..lo] + part + was[lo + |part|..]
  }

  function Head(s: bytes, k: nat): (h: bytes)
    requires k <= |s|
    ensures |h| == k
  {
    s[..k]
  }

  function Tail(s: bytes, k: nat): (t: bytes)
    requires k <= |s|
    ensures |t| == |s| - k
  {
    s[k..]
  }

  lemma HeadAndTail(s: bytes, k: nat)
    requires k <= |s|
    ensures Head(s, k) == s[..k] && Tail(s, k) == s[k..]
  {}

  lemma SplicedNothing(was: bytes, lo: nat, all: bytes)
    requires lo <= |was|
    ensures was == Spliced(was, lo, Head(all, 0)) && Tail(all, 0) == all
  {}

  /** One more read into a buffer that already holds the first `at - lo` bytes of `all`. */
  lemma Extend(was: bytes, all: bytes, lo: nat, at: nat, n: nat)
    requires lo <= at && at - lo + n <= |all| && at + n <= |was|
    ensures Spliced(Spliced(was, lo, Head(all, at - lo)), at, Head(Tail(all, at - lo), n))
      == Spliced(was, lo, Head(all, at - lo + n))
    ensures Tail(Tail(all, at - lo), n) == Tail(all, at - lo + n)
  {
    assert all[..at - lo + n] == all[..at - lo] + all[at - lo..][..n];
  }
}
