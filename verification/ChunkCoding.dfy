/** Chunked encoding, and what decoding gives back for every encoded body. */
module ChunkCoding {
  import opened Bytes
  import opened Responses
  import opened Source
  import opened Chunked

  // ---------------------------------------------------------------- encoding

  /** One chunk as a peer may write it: size digits in either case with leading zeros, and an extension. */
  datatype Chunk = Chunk(digits: bytes, ext: bytes, data: bytes)

  datatype Coded = Coded(chunks: seq<Chunk>, lastDigits: bytes, lastExt: bytes, trailers: seq<bytes>)

  predicate NoLf(s: bytes) { forall i :: 0 <= i < |s| ==> s[i] != LF }

  predicate ValidExt(ext: bytes) { NoLf(ext) && (ext == [] || ext[0] == SEMICOLON) }

  /** Size text that fits the 64-byte line buffer. */
  predicate ValidDigits(d: bytes) { 0 < |d| <= LINE_MAX && AllHex(d) }

  predicate ValidChunk(c: Chunk) {
    && ValidDigits(c.digits) && ValidExt(c.ext)
    && 0 < |c.data| < TWO63 && HexValue(c.digits) == |c.data|
  }

  predicate ValidCoded(m: Coded) {
    && (forall i :: 0 <= i < |m.chunks| ==> ValidChunk(m.chunks[i]))
    && ValidDigits(m.lastDigits) && HexValue(m.lastDigits) == 0 && ValidExt(m.lastExt)
    && (forall i :: 0 <= i < |m.trailers| ==> m.trailers[i] != [] && NoLf(m.trailers[i]))
  }

  function SizeLine(digits: bytes, ext: bytes): bytes { digits + ext + CRLF }

  function ChunkBytes(c: Chunk): bytes { SizeLine(c.digits, c.ext) + (c.data + CRLF) }

  function ChunksBytes(cs: seq<Chunk>): bytes {
    if cs == [] then [] else ChunkBytes(cs[0]) + ChunksBytes(cs[1..])
  }

  function TrailerBytes(ts: seq<bytes>): bytes {
    if ts == [] then CRLF else (ts[0] + CRLF) + TrailerBytes(ts[1..])
  }

  function Encode(m: Coded): bytes {
    ChunksBytes(m.chunks) + (SizeLine(m.lastDigits, m.lastExt) + TrailerBytes(m.trailers))
  }

  function Datas(cs: seq<Chunk>): seq<bytes> {
    seq(|cs|, i requires 0 <= i < |cs| => cs[i].data)
  }

  // ---------------------------------------------------------------- what the buffer ends up holding

  datatype Buffer = Buffer(held: bytes, cap: nat)

  /** The buffer after storing the given chunks one by one. */
  function StoreAll(b: Buffer, parts: seq<bytes>, maxSize: int): Buffer
    decreases |parts|
  {
    if parts == [] then b
    else
      match GrownSize(b.cap, maxSize, |b.held| + |parts[0]|)
      case None => b
      case Some(cap') => StoreAll(Buffer(Stored(b.held, b.cap, cap', parts[0]), cap'), parts[1..], maxSize)
  }

  function Total(parts: seq<bytes>): nat {
    if parts == [] then 0 else |parts[0]| + Total(parts[1..])
  }

  /**
   * How many leading bytes growth wipes out: the fill level at the last growth. Only sizes matter, so a caller
   * who knows the chunk sizes knows it.
   */
  function LossPoint(level: nat, cap: nat, parts: seq<bytes>, maxSize: int): (l: nat)
    decreases |parts|
  {
    if parts == [] then 0
    else
      match GrownSize(cap, maxSize, level + |parts[0]|)
      case None => 0
      case Some(cap') =>
        var later := LossPoint(level + |parts[0]|, cap', parts[1..], maxSize);
        if later > 0 || cap' == cap then later else level
  }

  /** Every chunk is accepted: the body limit and the size limit leave room for all of them. */
  predicate Fits(level: nat, cap: nat, parts: seq<bytes>, lim: Limits) {
    && level + Total(parts) < TWO63
    && (lim.maxBody > 0 ==> level + Total(parts) <= lim.maxBody)
    && (lim.maxSize > 0 ==> level + Total(parts) <= Max(cap, lim.maxSize))
  }

  lemma FitsStep(level: nat, cap: nat, parts: seq<bytes>, lim: Limits)
    requires parts != [] && level <= cap && Fits(level, cap, parts, lim)
    ensures level + |parts[0]| < TWO63 && (lim.maxBody > 0 ==> level + |parts[0]| <= lim.maxBody)
    ensures GrownSize(cap, lim.maxSize, level + |parts[0]|).Some?
    ensures var cap' := GrownSize(cap, lim.maxSize, level + |parts[0]|).value;
      level + |parts[0]| <= cap' && Fits(level + |parts[0]|, cap', parts[1..], lim)
  {}

  // ---------------------------------------------------------------- line lemmas

  lemma TakeLineOf(raw: bytes, tail: bytes)
    requires NoLf(raw)
    ensures TakeLine(raw + [LF] + tail) == Line(LineText(raw), tail)
  {
    var s := raw + [LF] + tail;
    FirstLfIs(s, 0, |raw|);
    assert s[..|raw|] == raw && s[|raw| + 1..] == tail;
  }

  lemma FirstLfIs(s: bytes, from: nat, k: nat)
    requires from <= k < |s| && s[k] == LF
    requires forall i :: from <= i < k ==> s[i] != LF
    ensures FirstLf(s, from) == k
  {}

  lemma CutAtIs(s: bytes, b: byte, from: nat, k: nat)
    requires from <= k <= |s| && (k < |s| ==> s[k] == b)
    requires forall i :: from <= i < k ==> s[i] != b
    ensures CutAt(s, b, from) == s[..k]
    decreases k - from
  {
    if from < k { CutAtIs(s, b, from + 1, k); }
  }

  /** A longer line is cut to 64 bytes, and a CR at the end of what is left is dropped. */
  lemma ClippedAt64(raw: bytes, tail: bytes)
    requires |raw| >= 64 && forall i :: 0 <= i < |raw| ==> raw[i] != LF
    ensures TakeLine(raw + [LF] + tail) == Line(if raw[63] == CR then raw[..63] else raw[..64], tail)
  {
    var s := raw + [LF] + tail;
    assert s[|raw|] == LF && forall i :: 0 <= i < |raw| ==> s[i] == raw[i];
    assert FirstLf(s, 0) == |raw|;
    assert s[..|raw|] == raw && s[|raw| + 1..] == tail;
    assert Clip(raw) == raw[..64] && raw[..64][..63] == raw[..63];
  }

  /** Neither an extension nor the 64-byte clip changes the size that is read. */
  lemma SizeLineValue(digits: bytes, ext: bytes)
    requires ValidDigits(digits) && ValidExt(ext) && HexValue(digits) < TWO63
    ensures SizeOf(LineText(digits + ext + [CR])) == Some(HexValue(digits))
  {
    var text := LineText(digits + ext + [CR]);
    SizeLineText(digits, ext);
    hide LineText;
    CutAtIs(text, SEMICOLON, 0, |digits|);
  }

  lemma SizeLineText(digits: bytes, ext: bytes)
    requires ValidDigits(digits) && ValidExt(ext)
    ensures var text := LineText(digits + ext + [CR]);
      |digits| <= |text| && text[..|digits|] == digits && (|digits| < |text| ==> text[|digits|] == SEMICOLON)
  {
    var raw := digits + ext + [CR];
    var clip := Clip(raw);
    var n := |digits|;
    assert forall i :: 0 <= i < n ==> clip[i] == digits[i];
    if n == LINE_MAX {
      assert clip == digits;
    } else if ext == [] {
      assert clip == digits + [CR];
    } else {
      assert clip[n] == SEMICOLON;
    }
  }

  lemma TakeSizeLine(digits: bytes, ext: bytes, tail: bytes)
    requires ValidDigits(digits) && ValidExt(ext) && HexValue(digits) < TWO63
    ensures TakeLine(SizeLine(digits, ext) + tail).Line?
    ensures TakeLine(SizeLine(digits, ext) + tail).rest == tail
    ensures SizeOf(TakeLine(SizeLine(digits, ext) + tail).text) == Some(HexValue(digits))
  {
    var raw := digits + ext + [CR];
    assert NoLf(raw);
    assert SizeLine(digits, ext) + tail == raw + [LF] + tail;
    TakeLineOf(raw, tail);
    SizeLineValue(digits, ext);
  }

  lemma AfterCrlf(tail: bytes)
    ensures AfterLine(CRLF + tail) == tail
  {
    assert CRLF + tail == [CR] + [LF] + tail;
    TakeLineOf([CR], tail);
  }

  lemma {:induction false} AfterTrailersOf(ts: seq<bytes>, tail: bytes)
    requires forall i :: 0 <= i < |ts| ==> ts[i] != [] && NoLf(ts[i])
    ensures AfterTrailers(TrailerBytes(ts) + tail) == tail
    decreases |ts|
  {
    if ts == [] {
      assert CRLF + tail == [CR] + [LF] + tail;
      TakeLineOf([CR], tail);
      assert LineText([CR]) == [];
    } else {
      var rest := TrailerBytes(ts[1..]) + tail;
      var raw := ts[0] + [CR];
      assert TrailerBytes(ts) + tail == raw + [LF] + rest;
      TakeLineOf(raw, rest);
      AfterTrailersOf(ts[1..], tail);
    }
  }

  // ---------------------------------------------------------------- decode inverts encode

  lemma DecodeChunk(c: Chunk, tail: bytes, acc: bytes, cap: nat, lim: Limits)
    requires ValidChunk(c) && |acc| + |c.data| < TWO63
    requires lim.maxBody > 0 ==> |acc| + |c.data| <= lim.maxBody
    requires GrownSize(cap, lim.maxSize, |acc| + |c.data|).Some?
    ensures var cap' := GrownSize(cap, lim.maxSize, |acc| + |c.data|).value;
      Decode(ChunkBytes(c) + tail, acc, cap, lim) == Decode(tail, Stored(acc, cap, cap', c.data), cap', lim)
  {
    hide TakeLine, SizeOf, AfterLine, GrownSize;
    var body := c.data + CRLF + tail;
    assert ChunkBytes(c) + tail == SizeLine(c.digits, c.ext) + body;
    TakeSizeLine(c.digits, c.ext, body);
    assert body[..|c.data|] == c.data && body[|c.data|..] == CRLF + tail;
    AfterCrlf(tail);
  }

  /** What stands between the data of a chunk and the next LF is dropped unread, CR or not. */
  lemma LineEndIgnored(c: Chunk, junk: bytes, tail: bytes, acc: bytes, cap: nat, lim: Limits)
    requires ValidChunk(c) && |acc| + |c.data| < TWO63 && forall i :: 0 <= i < |junk| ==> junk[i] != LF
    requires lim.maxBody > 0 ==> |acc| + |c.data| <= lim.maxBody
    requires GrownSize(cap, lim.maxSize, |acc| + |c.data|).Some?
    ensures Decode(SizeLine(c.digits, c.ext) + (c.data + (junk + [LF] + tail)), acc, cap, lim)
      == Decode(ChunkBytes(c) + tail, acc, cap, lim)
  {
    DecodeChunk(c, tail, acc, cap, lim);
    AfterJunk(junk, tail);
    var end := junk + [LF] + tail;
    TakeSizeLine(c.digits, c.ext, c.data + end);
    hide *;
    DecodeSized(SizeLine(c.digits, c.ext), c.data, end, acc, cap, lim);
  }

  /** One chunk behind a size line, whatever stands behind its data. */
  lemma DecodeSized(line: bytes, data: bytes, end: bytes, acc: bytes, cap: nat, lim: Limits)
    requires TakeLine(line + (data + end)).Line? && TakeLine(line + (data + end)).rest == data + end
    requires SizeOf(TakeLine(line + (data + end)).text) == Some(|data|)
    requires data != [] && |acc| + |data| < TWO63 && (lim.maxBody > 0 ==> |acc| + |data| <= lim.maxBody)
    requires GrownSize(cap, lim.maxSize, |acc| + |data|).Some?
    ensures var cap' := GrownSize(cap, lim.maxSize, |acc| + |data|).value;
      Decode(line + (data + end), acc, cap, lim) == Decode(AfterLine(end), Stored(acc, cap, cap', data), cap', lim)
  {
    hide TakeLine, SizeOf, AfterLine, GrownSize, Stored;
    assert (data + end)[..|data|] == data && (data + end)[|data|..] == end;
  }

  lemma AfterJunk(junk: bytes, tail: bytes)
    requires forall i :: 0 <= i < |junk| ==> junk[i] != LF
    ensures AfterLine(junk + [LF] + tail) == tail
  {
    var s := junk + [LF] + tail;
    assert s[|junk|] == LF && forall i :: 0 <= i < |junk| ==> s[i] == junk[i];
    assert FirstLf(s, 0) == |junk|;
  }

  /** A body is complete after its last size line, even if the stream ends before the trailers do. */
  lemma TrailersMayBeCut(m: Coded, cut: bytes, acc: bytes, cap: nat, lim: Limits)
    requires ValidCoded(m) && forall i :: 0 <= i < |cut| ==> cut[i] != LF
    ensures Decode(SizeLine(m.lastDigits, m.lastExt) + cut, acc, cap, lim) == Body(acc, cap, [])
  {
    assert FirstLf(cut, 0) == |cut|;
    assert AfterTrailers(cut) == [];
    hide TakeLine, SizeOf, AfterTrailers;
    TakeSizeLine(m.lastDigits, m.lastExt, cut);
  }

  lemma StoredLength(acc: bytes, cap: nat, cap': nat, data: bytes)
    ensures |Stored(acc, cap, cap', data)| == |acc| + |data|
  {}

  lemma {:induction false} DecodeChunks(cs: seq<Chunk>, tail: bytes, b: Buffer, lim: Limits)
    requires forall i :: 0 <= i < |cs| ==> ValidChunk(cs[i])
    requires |b.held| <= b.cap && Fits(|b.held|, b.cap, Datas(cs), lim)
    ensures var b' := StoreAll(b, Datas(cs), lim.maxSize);
      Decode(ChunksBytes(cs) + tail, b.held, b.cap, lim) == Decode(tail, b'.held, b'.cap, lim)
    decreases |cs|
  {
    hide Decode, GrownSize, ChunkBytes, Fits, Stored;
    if cs == [] {
      assert ChunksBytes(cs) + tail == tail;
    } else {
      var rest := ChunksBytes(cs[1..]) + tail;
      assert ChunksBytes(cs) + tail == ChunkBytes(cs[0]) + rest;
      assert Datas(cs)[1..] == Datas(cs[1..]);
      FitsStep(|b.held|, b.cap, Datas(cs), lim);
      DecodeChunk(cs[0], rest, b.held, b.cap, lim);
      var cap' := GrownSize(b.cap, lim.maxSize, |b.held| + |cs[0].data|).value;
      StoredLength(b.held, b.cap, cap', cs[0].data);
      DecodeChunks(cs[1..], tail, Buffer(Stored(b.held, b.cap, cap', cs[0].data), cap'), lim);
    }
  }

  lemma DecodeLast(m: Coded, tail: bytes, acc: bytes, cap: nat, lim: Limits)
    requires ValidCoded(m)
    ensures Decode(SizeLine(m.lastDigits, m.lastExt) + (TrailerBytes(m.trailers) + tail), acc, cap, lim)
      == Body(acc, cap, tail)
  {
    hide TakeLine, SizeOf, AfterTrailers;
    TakeSizeLine(m.lastDigits, m.lastExt, TrailerBytes(m.trailers) + tail);
    AfterTrailersOf(m.trailers, tail);
  }

  /**
   * Decoding inverts encoding up to what growth wipes out: the cursor lands just after the blank line that ends
   * the body, whatever follows, and the buffer holds the chunks stored one after the other.
   */
  lemma DecodeEncoded(m: Coded, tail: bytes, cap: nat, lim: Limits)
    requires ValidCoded(m) && Fits(0, cap, Datas(m.chunks), lim)
    ensures var b := StoreAll(Buffer([], cap), Datas(m.chunks), lim.maxSize);
      Decode(Encode(m) + tail, [], cap, lim) == Body(b.held, b.cap, tail)
  {
    hide Decode, StoreAll;
    var size, trailers := SizeLine(m.lastDigits, m.lastExt), TrailerBytes(m.trailers);
    var last := size + (trailers + tail);
    assert Encode(m) + tail == ChunksBytes(m.chunks) + last;
    DecodeChunks(m.chunks, last, Buffer([], cap), lim);
    var b := StoreAll(Buffer([], cap), Datas(m.chunks), lim.maxSize);
    DecodeLast(m, tail, b.held, b.cap, lim);
  }

  // ---------------------------------------------------------------- bodies that are refused

  lemma GrownWithin(cap: nat, maxSize: int, required: int)
    requires maxSize > 0 && GrownSize(cap, maxSize, required).Some?
    ensures GrownSize(cap, maxSize, required).value <= Max(cap, maxSize)
  {}

  /** Why a chunk of n bytes is refused, if it is. */
  function Refusal(n: nat, b: Buffer, lim: Limits): Option<Error> {
    var sum := |b.held| + n;
    if sum >= TWO63 then Some(SlicePanic)
    else if lim.maxBody > 0 && sum > lim.maxBody then Some(ResponseTooLarge)
    else if GrownSize(b.cap, lim.maxSize, sum).None? then Some(ResponseTooLarge)
    else None
  }

  /** The buffer after a chunk that is not refused. */
  function Took(data: bytes, b: Buffer, lim: Limits): Buffer
    requires Refusal(|data|, b, lim) == None
  {
    var cap' := GrownSize(b.cap, lim.maxSize, |b.held| + |data|).value;
    Buffer(Stored(b.held, b.cap, cap', data), cap')
  }

  /** The error at the first refused chunk, and the bytes of the chunks from its data on. */
  function Overrun(cs: seq<Chunk>, b: Buffer, lim: Limits): Option<(Error, bytes)>
    decreases |cs|
  {
    if cs == [] then None
    else
      match Refusal(|cs[0].data|, b, lim)
      case Some(e) => Some((e, cs[0].data + CRLF + ChunksBytes(cs[1..])))
      case None => Overrun(cs[1..], Took(cs[0].data, b, lim), lim)
  }

  /** A refused chunk stays in the stream, and everything after it. */
  lemma RefusedChunk(c: Chunk, tail: bytes, b: Buffer, lim: Limits)
    requires ValidChunk(c) && Refusal(|c.data|, b, lim).Some?
    ensures Decode(ChunkBytes(c) + tail, b.held, b.cap, lim)
      == Bad(Refusal(|c.data|, b, lim).value, c.data + CRLF + tail)
  {
    hide TakeLine, SizeOf, AfterLine, GrownSize;
    var body := c.data + CRLF + tail;
    assert ChunkBytes(c) + tail == SizeLine(c.digits, c.ext) + body;
    TakeSizeLine(c.digits, c.ext, body);
  }

  lemma {:induction false} ChunksOverrun(cs: seq<Chunk>, tail: bytes, b: Buffer, lim: Limits)
    requires forall i :: 0 <= i < |cs| ==> ValidChunk(cs[i])
    requires |b.held| <= b.cap && Fits(|b.held|, b.cap, [], lim) && !Fits(|b.held|, b.cap, Datas(cs), lim)
    ensures Overrun(cs, b, lim).Some?
    ensures var (e, left) := Overrun(cs, b, lim).value;
      Decode(ChunksBytes(cs) + tail, b.held, b.cap, lim) == Bad(e, left + tail)
    decreases |cs|
  {
    hide Decode, GrownSize, ChunkBytes, Refusal;
    if cs != [] {
      var rest := ChunksBytes(cs[1..]) + tail;
      assert ChunksBytes(cs) + tail == ChunkBytes(cs[0]) + rest;
      if Refusal(|cs[0].data|, b, lim).None? {
        TakenChunk(cs[0], rest, b, lim);
        LeftToFit(cs, b, lim);
        ChunksOverrun(cs[1..], tail, Took(cs[0].data, b, lim), lim);
      } else {
        RefusedChunk(cs[0], rest, b, lim);
        assert cs[0].data + CRLF + rest == cs[0].data + CRLF + ChunksBytes(cs[1..]) + tail;
      }
    }
  }

  lemma TakenChunk(c: Chunk, rest: bytes, b: Buffer, lim: Limits)
    requires ValidChunk(c) && Refusal(|c.data|, b, lim) == None && |b.held| <= b.cap
    ensures var b' := Took(c.data, b, lim);
      Decode(ChunkBytes(c) + rest, b.held, b.cap, lim) == Decode(rest, b'.held, b'.cap, lim)
  {
    hide Decode, GrownSize, ChunkBytes;
    DecodeChunk(c, rest, b.held, b.cap, lim);
  }

  lemma LeftToFit(cs: seq<Chunk>, b: Buffer, lim: Limits)
    requires cs != [] && Refusal(|cs[0].data|, b, lim) == None && |b.held| <= b.cap
    requires Fits(|b.held|, b.cap, [], lim) && !Fits(|b.held|, b.cap, Datas(cs), lim)
    ensures var b' := Took(cs[0].data, b, lim);
      |b'.held| <= b'.cap && Fits(|b'.held|, b'.cap, [], lim) && !Fits(|b'.held|, b'.cap, Datas(cs[1..]), lim)
  {
    hide ChunkBytes;
    assert Datas(cs)[1..] == Datas(cs[1..]);
    if lim.maxSize > 0 { GrownWithin(b.cap, lim.maxSize, |b.held| + |cs[0].data|); }
  }

  /** The last size line and the trailers. */
  function Ending(m: Coded): bytes { SizeLine(m.lastDigits, m.lastExt) + TrailerBytes(m.trailers) }

  /**
   * A body that does not fit is given up at its first chunk that does not: the data of that chunk and everything after
   * it stay in the stream.
   */
  lemma DecodeOverruns(m: Coded, tail: bytes, cap: nat, lim: Limits)
    requires ValidCoded(m) && !Fits(0, cap, Datas(m.chunks), lim)
    ensures Overrun(m.chunks, Buffer([], cap), lim).Some? && |Ending(m)| > 0
    ensures var (e, left) := Overrun(m.chunks, Buffer([], cap), lim).value;
      Decode(Encode(m) + tail, [], cap, lim) == Bad(e, left + Ending(m) + tail)
  {
    hide Decode, Overrun;
    assert Encode(m) + tail == ChunksBytes(m.chunks) + (Ending(m) + tail);
    ChunksOverrun(m.chunks, Ending(m) + tail, Buffer([], cap), lim);
    var left := Overrun(m.chunks, Buffer([], cap), lim).value.1;
    assert left + (Ending(m) + tail) == left + Ending(m) + tail;
  }

  // ---------------------------------------------------------------- the loss, exactly

  function Wiped(s: bytes, l: nat): bytes
    requires l <= |s|
  {
    Zeros(l) + s[l..]
  }

  lemma WipedTwice(s: bytes, l: nat, l': nat)
    requires l <= l' <= |s|
    ensures Wiped(Wiped(s, l), l') == Wiped(s, l')
    ensures Wiped(s, 0) == s
  {}

  lemma WipedIsWhole(s: bytes, l: nat)
    requires l <= |s|
    ensures Wiped(s, l) == s <==> forall i :: 0 <= i < l ==> s[i] == 0
  {
    var w := Wiped(s, l);
    assert forall i :: 0 <= i < |s| ==> w[i] == if i < l then 0 else s[i];
  }

  /** Storing one part wipes the level it grew at, seen against everything still to come. */
  lemma StoredWipes(held: bytes, cap: nat, cap': nat, part: bytes, rest: bytes)
    ensures Stored(held, cap, cap', part) + rest
      == Wiped(held + (part + rest), if cap' == cap then 0 else |held|)
  {}

  lemma {:induction false} StoreAllWipes(b: Buffer, parts: seq<bytes>, lim: Limits)
    requires |b.held| <= b.cap && Fits(|b.held|, b.cap, parts, lim)
    ensures var l := LossPoint(|b.held|, b.cap, parts, lim.maxSize);
      && l <= |b.held + Concat(parts)|
      && StoreAll(b, parts, lim.maxSize).held == Wiped(b.held + Concat(parts), l)
    decreases |parts|
  {
    hide GrownSize, Stored, Fits, Wiped;
    if parts == [] {
      assert b.held + [] == b.held;
      WipedTwice(b.held, 0, 0);
    } else {
      FitsStep(|b.held|, b.cap, parts, lim);
      var cap' := GrownSize(b.cap, lim.maxSize, |b.held| + |parts[0]|).value;
      var b' := Buffer(Stored(b.held, b.cap, cap', parts[0]), cap');
      StoreAllWipes(b', parts[1..], lim);
      LossPointLevel(|b'.held|, cap', parts[1..], lim.maxSize);
      WipeStep(b.held, b.cap, cap', parts[0], Concat(parts[1..]), LossPoint(|b'.held|, cap', parts[1..], lim.maxSize));
    }
  }

  /** What later growth wipes out covers what this one does. */
  lemma WipeStep(held: bytes, cap: nat, cap': nat, part: bytes, rest: bytes, later: nat)
    requires later == 0 || |held| + |part| <= later <= |held| + |part| + |rest|
    ensures Wiped(Stored(held, cap, cap', part) + rest, later)
      == Wiped(held + (part + rest), if later > 0 || cap' == cap then later else |held|)
  {
    var whole, first := held + (part + rest), if cap' == cap then 0 else |held|;
    StoredWipes(held, cap, cap', part, rest);
    hide Stored;
    if later >= first {
      WipedTwice(whole, first, later);
    } else {
      WipedTwice(Wiped(whole, first), 0, 0);
    }
  }

  /** A later growth happens at a level at least as high. */
  lemma {:induction false} LossPointLevel(level: nat, cap: nat, parts: seq<bytes>, maxSize: int)
    ensures LossPoint(level, cap, parts, maxSize) == 0 || LossPoint(level, cap, parts, maxSize) >= level
    decreases |parts|
  {
    if parts != [] {
      match GrownSize(cap, maxSize, level + |parts[0]|)
      case None =>
      case Some(cap') => LossPointLevel(level + |parts[0]|, cap', parts[1..], maxSize);
    }
  }

  /**
   * The decoded body is the concatenation of the chunks exactly when the bytes below the last growth were zero
   * anyway; in particular whenever no growth happens after the first byte is stored.
   */
  lemma DecodedBodyExactly(m: Coded, tail: bytes, cap: nat, lim: Limits)
    requires ValidCoded(m) && Fits(0, cap, Datas(m.chunks), lim)
    ensures var whole := Concat(Datas(m.chunks));
      var l := LossPoint(0, cap, Datas(m.chunks), lim.maxSize);
      var d := Decode(Encode(m) + tail, [], cap, lim);
      && l <= |whole|
      && d.Body? && d.rest == tail && d.body == Wiped(whole, l)
      && (d.body == whole <==> forall i :: 0 <= i < l ==> whole[i] == 0)
      && (l == 0 ==> d.body == whole)
  {
    var parts := Datas(m.chunks);
    var whole := Concat(parts);
    DecodeEncoded(m, tail, cap, lim);
    StoreAllWipes(Buffer([], cap), parts, lim);
    assert [] + whole == whole;
    var l := LossPoint(0, cap, parts, lim.maxSize);
    WipedIsWhole(whole, l);
  }

  /** No growth at all when the buffer already holds the whole body. */
  lemma {:induction false} RoomyBufferKeepsAll(level: nat, cap: nat, parts: seq<bytes>, maxSize: int)
    requires level + Total(parts) <= cap
    ensures LossPoint(level, cap, parts, maxSize) == 0
    decreases |parts|
  {
    if parts != [] {
      RoomyBufferKeepsAll(level + |parts[0]|, cap, parts[1..], maxSize);
    }
  }

  const FIRST_BUFFER: nat := 65536

  /** A body the client can receive: one chunk that fills the buffer it starts with, and one byte more. */
  const TWO_CHUNKS: Coded :=
    Coded([Chunk([49, 48, 48, 48, 48], [], seq(65536, i => 1)), Chunk([49], [], [2])], [48], [], [])

  lemma TwoChunksValid()
    ensures ValidCoded(TWO_CHUNKS) && Datas(TWO_CHUNKS.chunks) == [seq(65536, i => 1), [2]]
  {
    SmallDigits();
    hide HexValue, AllHex;
  }

  /** A hexadecimal digit in lower or upper case. */
  function Digit(d: nat, upper: bool): byte
    requires d < 16
  {
    if d < 10 then 48 + d else if upper then 55 + d else 87 + d
  }

  /** A number in hexadecimal, most significant digit first. */
  function Hex(n: nat, upper: bool): bytes {
    if n < 16 then [Digit(n, upper)] else Hex(n / 16, upper) + [Digit(n % 16, upper)]
  }

  lemma {:induction false} HexReads(n: nat, upper: bool)
    ensures Hex(n, upper) != [] && AllHex(Hex(n, upper)) && HexValue(Hex(n, upper)) == n
    ensures IsHex(Hex(n, upper)[0])
  {
    if n < 16 {
      HexAppend([], Digit(n, upper), Hex(n, upper));
    } else {
      HexReads(n / 16, upper);
      hide HexValue, AllHex, IsHex;
      var b := Digit(n % 16, upper);
      assert IsHex(b) && HexDigit(b) == n % 16 by { DigitReads(n % 16, upper); }
      HexAppend(Hex(n / 16, upper), b, Hex(n, upper));
    }
  }

  lemma DigitReads(d: nat, upper: bool)
    requires d < 16
    ensures IsHex(Digit(d, upper)) && HexDigit(Digit(d, upper)) == d
  {}

  /**
   * A size written in hexadecimal is read back, in either case and with or without a plus sign, exactly when it fits a
   * 63-bit number; with a minus sign only zero is.
   */
  lemma SizesComeBack(n: nat, upper: bool)
    ensures ParseHex(Hex(n, upper)) == if n < 0x8000_0000_0000_0000 then Some(n) else None
    ensures ParseHex([43] + Hex(n, upper)) == ParseHex(Hex(n, upper))
    ensures ParseHex([45] + Hex(n, upper)) == if n == 0 then Some(0) else None
  {
    var s := Hex(n, upper);
    HexReads(n, upper);
    assert s[0] != 43 && s[0] != 45;
    hide Hex, HexValue, AllHex;
    assert ([43] + s)[1..] == s && ([45] + s)[1..] == s;
  }

  lemma HexAppend(d: bytes, b: byte, e: bytes)
    requires AllHex(d) && IsHex(b) && e == d + [b]
    ensures AllHex(e) && HexValue(e) == HexValue(d) * 16 + HexDigit(b)
  {
    assert e[..|d|] == d;
  }

  lemma SmallDigits()
    ensures ValidDigits([48]) && HexValue([48]) == 0 && ValidDigits([49]) && HexValue([49]) == 1
    ensures ValidDigits([49, 48, 48, 48, 48]) && HexValue([49, 48, 48, 48, 48]) == 65536
  {
    assert AllHex([]) && HexValue([]) == 0;
    assert IsHex(48) && IsHex(49) && HexDigit(48) == 0 && HexDigit(49) == 1;
    hide HexValue, AllHex, IsHex, HexDigit;
    HexAppend([], 48, [48]);
    HexAppend([], 49, [49]);
    HexAppend([49], 48, [49, 48]);
    HexAppend([49, 48], 48, [49, 48, 48]);
    HexAppend([49, 48, 48], 48, [49, 48, 48, 48]);
    HexAppend([49, 48, 48, 48], 48, [49, 48, 48, 48, 48]);
  }

  /**
   * Growth inside a body loses data in the buffers the client hands out: with the first 65536 bytes full, one more byte
   * makes the buffer grow, and the body comes back with its first 65536 bytes zeroed.
   */
  lemma GrowthLosesData(tail: bytes, lim: Limits)
    requires lim.maxSize <= 0 || lim.maxSize > FIRST_BUFFER
    requires lim.maxBody <= 0 || lim.maxBody > FIRST_BUFFER
    ensures var d := Decode(Encode(TWO_CHUNKS) + tail, [], FIRST_BUFFER, lim);
      d.Body? && d.rest == tail && d.body == Zeros(FIRST_BUFFER) + [2]
  {
    TwoChunksValid();
    var first: bytes := seq(65536, i => 1);
    var parts := Datas(TWO_CHUNKS.chunks);
    TwoPartsLoss(first, [2], lim);
    DecodedBodyExactly(TWO_CHUNKS, tail, FIRST_BUFFER, lim);
    assert Concat(parts) == first + [2];
    assert (first + [2])[FIRST_BUFFER..] == [2];
  }

  lemma TwoPartsLoss(a: bytes, b: bytes, lim: Limits)
    requires |a| == FIRST_BUFFER && |b| == 1
    requires lim.maxSize <= 0 || lim.maxSize > FIRST_BUFFER
    requires lim.maxBody <= 0 || lim.maxBody > FIRST_BUFFER
    ensures Fits(0, FIRST_BUFFER, [a, b], lim) && LossPoint(0, FIRST_BUFFER, [a, b], lim.maxSize) == FIRST_BUFFER
    ensures Concat([a, b]) == a + b
  {
    assert [a, b][1..] == [b] && [b][1..] == [];
    assert Total([b]) == 1 && Total([a, b]) == FIRST_BUFFER + 1;
    assert Concat([b]) == b;
    OnePartLoss(b, lim);
    hide GrownSize;
  }

  lemma OnePartLoss(b: bytes, lim: Limits)
    requires |b| == 1 && (lim.maxSize <= 0 || lim.maxSize > FIRST_BUFFER)
    ensures LossPoint(FIRST_BUFFER, FIRST_BUFFER, [b], lim.maxSize) == FIRST_BUFFER
  {
    hide GrownSize;
    assert [b][1..] == [];
    var grown := GrownSize(FIRST_BUFFER, lim.maxSize, FIRST_BUFFER + 1).value;
    assert LossPoint(FIRST_BUFFER + 1, grown, [], lim.maxSize) == 0;
  }
}
