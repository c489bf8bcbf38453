/** The pooled response object of response.go. */
module Responses {
  import opened Bytes
  import opened Headers

  /** Rounding of a fresh buffer: to 4 KiB below 1 MiB, to 64 KiB from there on. */
  function RoundUp(n: nat): (r: nat)
    ensures n <= r
  {
    var unit := if n < 1024 * 1024 then 4096 else 65536;
    if n % unit == 0 then n else n - n % unit + unit
  }

  /** The buffer length after ensureBufferSize(required), or None when the size limit forbids it. */
  function GrownSize(cap: nat, maxSize: int, required: int): (r: Option<nat>)
    ensures r.None? <==> required > cap && 0 < maxSize < required
    ensures r.Some? ==> required <= r.value && cap <= r.value
    ensures r.Some? ==> (r.value == cap <==> required <= cap)
  {
    if required <= cap then Some(cap)
    else if maxSize > 0 && required > maxSize then None
    else
      var size := RoundUp(Max(cap * 2, required));
      if maxSize > 0 && size > maxSize then Some(maxSize) else Some(size)
  }

  /**
   * A buffer that grows at least doubles and covers the request, in whole units of 4 KiB below 1 MiB and of 64 KiB from
   * there on, with less than one unit to spare; only the size limit cuts that short, and then the buffer has that size.
   */
  lemma GrowthDoubles(cap: nat, maxSize: int, required: nat)
    requires required > cap && GrownSize(cap, maxSize, required).Some?
    ensures var size, least := GrownSize(cap, maxSize, required).value, Max(2 * cap, required);
      var unit := if least < 0x10_0000 then 0x1000 else 0x1_0000;
      || (maxSize > 0 && size == maxSize)
      || (size % unit == 0 && least <= size < least + unit)
  {}

  class Response {
    var statusCode: nat
    var contentLength: int
    var bodyLen: nat
    var headers: seq<Header>
    var bodyBuf: array<byte>
    var maxSize: int
    var rawHeader: bytes

    ghost predicate Valid()
      reads this
    {
      bodyLen <= bodyBuf.Length
    }

    /** As Reset leaves it. */
    ghost predicate Cleared()
      reads this
    {
      Valid() && statusCode == 0 && bodyLen == 0 && headers == []
    }

    /** Response.Body: a slice of bodyBuf. */
    function Body(): bytes
      requires Valid()
      reads this, bodyBuf
    {
      bodyBuf[..bodyLen]
    }

    constructor (cap: nat)
      ensures Valid() && bodyBuf.Length == cap && maxSize == 0 && statusCode == 0 && headers == []
      ensures fresh(bodyBuf)
    {
      statusCode, contentLength, bodyLen, headers, maxSize, rawHeader := 0, 0, 0, [], 0, [];
      bodyBuf := new byte[cap](_ => 0);
    }

    method Reset()
      modifies this
      ensures Valid() && bodyBuf == old(bodyBuf)
      ensures statusCode == 0 && contentLength == 0 && bodyLen == 0 && headers == [] && maxSize == 0 && rawHeader == []
    {
      statusCode, contentLength, bodyLen, headers, maxSize, rawHeader := 0, 0, 0, [], 0, [];
    }

    /** ensureBufferSize: a buffer that has to grow is replaced by zeroed memory, nothing is copied. */
    method EnsureBufferSize(required: int) returns (ok: bool)
      modifies this`bodyBuf
      ensures ok == GrownSize(old(bodyBuf.Length), maxSize, required).Some?
      ensures ok ==> bodyBuf.Length == GrownSize(old(bodyBuf.Length), maxSize, required).value
      ensures !ok || required <= old(bodyBuf.Length) ==> bodyBuf == old(bodyBuf)
      ensures ok && required > old(bodyBuf.Length) ==> fresh(bodyBuf) && bodyBuf[..] == Zeros(bodyBuf.Length)
    {
      if required <= bodyBuf.Length { return true; }
      if maxSize > 0 && required > maxSize { return false; }
      var newSize := bodyBuf.Length * 2;
      if newSize < required { newSize := required; }
      if newSize < 1024 * 1024 {
        if newSize % 4096 != 0 { newSize := (newSize / 4096 + 1) * 4096; }
      } else {
        if newSize % 65536 != 0 { newSize := (newSize / 65536 + 1) * 65536; }
      }
      if maxSize > 0 && newSize > maxSize {
        newSize := maxSize;
        if newSize < required { return false; }
      }
      bodyBuf := new byte[newSize](_ => 0);
      return true;
    }
  }
}
