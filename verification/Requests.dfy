/** The header buffer of request.go: SetHeader and its growth. */
module Requests {
  import opened Bytes
  import opened Headers

  const MAX_HEADER: nat := 1024 * 1024

  predicate NoEol(s: bytes) { forall i :: 0 <= i < |s| ==> !IsEol(s[i]) }

  predicate Clean(h: Header) { NoEol(h.key) && NoEol(h.value) }

  function LineOf(h: Header): bytes { h.key + [COLON, SP] + h.value }

  function HeaderLine(h: Header): bytes { LineOf(h) + CRLF }

  function Render(hs: seq<Header>): bytes {
    if hs == [] then [] else HeaderLine(hs[0]) + Render(hs[1..])
  }

  lemma {:induction false} RenderConcat(a: seq<Header>, b: seq<Header>)
    ensures Render(a + b) == Render(a) + Render(b)
  {
    hide HeaderLine;
    if a == [] {
      assert a + b == b;
    } else {
      RenderConcat(a[1..], b);
      assert (a + b)[0] == a[0] && (a + b)[1..] == a[1..] + b;
      Associates(HeaderLine(a[0]), Render(a[1..]), Render(b));
    }
  }

  lemma RenderOne(h: Header)
    ensures Render([h]) == HeaderLine(h)
  {
    assert Render([h][1..]) == [];
  }

  /** The buffer length after ensureHeaderBufferSize(required), or None. */
  function GrownHeader(len: nat, required: nat): (r: Option<nat>)
    ensures r.None? <==> required > len && required > MAX_HEADER
    ensures r.Some? ==> required <= r.value
    ensures r.Some? && required <= len ==> r.value == len
  {
    if required <= len then Some(len)
    else
      var size := Max(len * 2, required);
      var rounded := if size % 4096 != 0 then size - size % 4096 + 4096 else size;
      if rounded <= MAX_HEADER then Some(rounded) else if required <= MAX_HEADER then Some(MAX_HEADER) else None
  }

  /** Growth at least doubles the buffer, in whole units of 4 KiB with less than one to spare, but stops at 1 MiB. */
  lemma HeaderGrowthDoubles(len: nat, required: nat)
    requires required > len && GrownHeader(len, required).Some?
    ensures var size, least := GrownHeader(len, required).value, Max(2 * len, required);
      || (size == 0x10_0000 && least > 0x10_0000 - 0x1000)
      || (size % 0x1000 == 0 && least <= size < least + 0x1000 && size <= 0x10_0000)
  {}

  method ContainsCrlf(s: bytes) returns (r: bool)
    ensures r == !NoEol(s)
    ensures r <==> 13 in s || 10 in s
  {
    for i := 0 to |s|
      invariant NoEol(s[..i]) && 13 !in s[..i] && 10 !in s[..i]
    {
      if s[i] == CR || s[i] == LF { return true; }
      assert s[..i + 1] == s[..i] + [s[i]];
    }
    assert s[..|s|] == s;
    return false;
  }

  /** copy(buf[pos:], data) where data fits. */
  method CopyIn(buf: array<byte>, pos: nat, data: bytes) returns (next: nat)
    requires pos + |data| <= buf.Length
    modifies buf
    ensures next == pos + |data| && buf[..next] == old(buf[..pos]) + data
  {
    for i := 0 to |data|
      invariant buf[..pos] == old(buf[..pos]) && buf[pos..pos + i] == data[..i]
    {
      buf[pos + i] := data[i];
    }
    assert data[..|data|] == data;
    next := pos + |data|;
    assert buf[..next] == buf[..pos] + buf[pos..next];
  }

  /** The writes SetHeader makes once there is room. */
  method PutHeader(buf: array<byte>, pos: nat, h: Header) returns (next: nat)
    requires pos + |HeaderLine(h)| <= buf.Length
    modifies buf
    ensures next == pos + |HeaderLine(h)| && buf[..next] == old(buf[..pos]) + HeaderLine(h)
  {
    ghost var before := buf[..pos];
    next := CopyIn(buf, pos, h.key);
    next := CopyIn(buf, next, [COLON]);
    next := CopyIn(buf, next, [SP]);
    assert buf[..next] == before + (h.key + [COLON, SP]);
    next := CopyIn(buf, next, h.value);
    assert buf[..next] == before + (h.key + [COLON, SP] + h.value);
    next := CopyIn(buf, next, [CR]);
    next := CopyIn(buf, next, [LF]);
    assert buf[..next] == before + HeaderLine(h);
  }

  /** The part of a Request that SetHeader works on. */
  class HeaderBuffer {
    var headerBuf: array<byte>
    var headerLen: nat
    ghost var added: seq<Header>

    /** The buffer always holds exactly the headers added so far, rendered in order, none with CR or LF in it. */
    ghost predicate Valid()
      reads this, headerBuf
    {
      && headerLen <= headerBuf.Length && headerBuf[..headerLen] == Render(added)
      && forall h :: h in added ==> Clean(h)
    }

    constructor (size: nat)
      ensures Valid() && added == [] && headerBuf.Length == size && fresh(headerBuf)
    {
      headerBuf := new byte[size](_ => 0);
      headerLen, added := 0, [];
    }

    method Reset()
      modifies this
      ensures Valid() && added == [] && headerLen == 0 && headerBuf == old(headerBuf)
    {
      headerLen, added := 0, [];
    }

    /** ensureHeaderBufferSize: unlike the body buffers, growth copies what is there. */
    method EnsureHeaderBufferSize(required: nat) returns (ok: bool)
      requires Valid()
      modifies this`headerBuf
      ensures Valid() && ok == GrownHeader(old(headerBuf.Length), required).Some?
      ensures ok ==> headerBuf.Length == GrownHeader(old(headerBuf.Length), required).value
      ensures headerBuf == old(headerBuf) || (ok && fresh(headerBuf))
    {
      if required <= headerBuf.Length { return true; }
      var newSize := headerBuf.Length * 2;
      if newSize < required { newSize := required; }
      if newSize % 4096 != 0 { newSize := (newSize / 4096 + 1) * 4096; }
      if newSize > MAX_HEADER {
        newSize := MAX_HEADER;
        if newSize < required { return false; }
      }
      var old_ := headerBuf;
      var grown := new byte[newSize](_ => 0);
      forall i | 0 <= i < headerLen { grown[i] := old_[i]; }
      assert grown[..headerLen] == old_[..headerLen];
      headerBuf := grown;
      return true;
    }

    /**
     * SetHeader: refused exactly when key or value holds CR or LF or the block would outgrow its limit; otherwise
     * appended after everything added before, through any growth.
     */
    method SetHeader(key: bytes, value: bytes) returns (ok: bool)
      requires Valid()
      modifies this, headerBuf
      ensures Valid() && (headerBuf == old(headerBuf) || fresh(headerBuf))
      ensures ok == (NoEol(key) && NoEol(value) &&
        old(headerLen) + |key| + |value| + 4 <= Max(old(headerBuf.Length), MAX_HEADER))
      ensures ok <==>
        && 13 !in key + value && 10 !in key + value
        && (old(headerLen) + |key| + |value| + 4 <= old(headerBuf.Length)
            || old(headerLen) + |key| + |value| + 4 <= 1024 * 1024)
      ensures added == if ok then old(added) + [Header(key, value)] else old(added)
      ensures headerLen == old(headerLen) + (if ok then |key| + |value| + 4 else 0)
      ensures Max(headerBuf.Length, MAX_HEADER) == Max(old(headerBuf.Length), MAX_HEADER)
    {
      hide NoEol, Render;
      var badKey := ContainsCrlf(key);
      var badValue := ContainsCrlf(value);
      if badKey || badValue { return false; }
      var required := |key| + 2 + |value| + 2;
      if headerLen + required > headerBuf.Length {
        var grown := EnsureHeaderBufferSize(headerLen + required);
        if !grown { return false; }
      }
      headerLen := PutHeader(headerBuf, headerLen, Header(key, value));
      RenderConcat(added, [Header(key, value)]);
      RenderOne(Header(key, value));
      added := added + [Header(key, value)];
      return true;
    }
  }

  /** The headers of a list that SetHeader accepts one after the other, with `len` bytes of `room` already in use. */
  function Accepted(hs: seq<Header>, len: nat, room: nat): seq<Header>
    decreases |hs|
  {
    if hs == [] then []
    else if Clean(hs[0]) && len + |HeaderLine(hs[0])| <= room then
      [hs[0]] + Accepted(hs[1..], len + |HeaderLine(hs[0])|, room)
    else Accepted(hs[1..], len, room)
  }

  /** What the i-th call of a sequence adds to those accepted before it. */
  lemma AcceptedStep(hs: seq<Header>, i: nat, done: seq<Header>, len: nat, room: nat)
    requires i < |hs|
    ensures var h := hs[i];
      done + Accepted(hs[i..], len, room) ==
        if NoEol(h.key) && NoEol(h.value) && len + |h.key| + |h.value| + 4 <= room
        then done + [Header(h.key, h.value)] + Accepted(hs[i + 1..], len + |h.key| + |h.value| + 4, room)
        else done + Accepted(hs[i + 1..], len, room)
  {
    hide NoEol;
    assert hs[i..][1..] == hs[i + 1..] && hs[i..][0] == hs[i];
    assert |HeaderLine(hs[i])| == |hs[i].key| + |hs[i].value| + 4;
    Associates(done, [hs[i]], Accepted(hs[i + 1..], len + |HeaderLine(hs[i])|, room));
  }

  /** Any sequence of SetHeader calls. */
  method SetHeaders(h: HeaderBuffer, hs: seq<Header>)
    requires h.Valid()
    modifies h, h.headerBuf
    ensures h.Valid() && (h.headerBuf == old(h.headerBuf) || fresh(h.headerBuf))
    ensures h.added == old(h.added) + Accepted(hs, old(h.headerLen), Max(old(h.headerBuf.Length), MAX_HEADER))
  {
    hide Render, HeaderLine, Clean, NoEol, Accepted;
    ghost var room := Max(h.headerBuf.Length, MAX_HEADER);
    ghost var all := h.added + Accepted(hs, h.headerLen, room);
    assert hs[0..] == hs;
    for i := 0 to |hs|
      invariant h.Valid() && (h.headerBuf == old(h.headerBuf) || fresh(h.headerBuf))
      invariant Max(h.headerBuf.Length, MAX_HEADER) == room
      invariant all == h.added + Accepted(hs[i..], h.headerLen, room)
    {
      AcceptedStep(hs, i, h.added, h.headerLen, room);
      var ok := h.SetHeader(hs[i].key, hs[i].value);
    }
    NothingLeft(hs, h.added, h.headerLen, room);
  }

  lemma NothingLeft(hs: seq<Header>, done: seq<Header>, len: nat, room: nat)
    ensures done + Accepted(hs[|hs|..], len, room) == done
  {}
}
