/** Whole response messages on one stream: each read takes exactly its own message. */
module Messages {
  import opened Bytes
  import opened Scan
  import opened Headers
  import opened Responses
  import opened Chunked
  import opened ChunkCoding
  import opened Reader

  datatype Payload = Nothing | Fixed(body: bytes) | Chunks(coded: Coded)

  /** A header block, any bytes up to and including its first blank line, and the payload it announces. */
  datatype Message = Message(block: bytes, payload: Payload)

  function PayloadBytes(p: Payload): bytes {
    match p
    case Nothing => []
    case Fixed(body) => body
    case Chunks(coded) => Encode(coded)
  }

  function Wire(m: Message): bytes { m.block + PayloadBytes(m.payload) }

  function EnvLimits(env: Env): Limits { Limits(env.maxSize, env.maxBody, env.fail) }

  /** The payload has the framing the block announces. */
  predicate Announces(m: Message, head: bool) {
    && StatusCode(m.block).Some?
    && if Bodyless(StatusCode(m.block).value, head) then m.payload.Nothing?
       else if ChunkedAnnounced(m.block) then m.payload.Chunks? && ValidCoded(m.payload.coded)
       else m.payload.Fixed? && ContentLength(m.block) == Some(|m.payload.body|)
  }

  /** The limits and the body buffer leave room for the payload. */
  predicate Affordable(m: Message, env: Env) {
    match m.payload
    case Nothing => true
    case Fixed(body) =>
      && (!env.buffered || env.maxBody > 0 ==> |body| <= env.maxBody)
      && GrownSize(env.cap, env.maxSize, |body|).Some?
    case Chunks(coded) => Fits(0, env.cap, Datas(coded.chunks), EnvLimits(env))
  }

  /** One message that its reader can tell apart from what follows. */
  predicate Complete(m: Message, head: bool, env: Env) {
    HeaderEnd(m.block) == |m.block| && |m.block| <= env.limit && Announces(m, head)
  }

  predicate WellFormed(m: Message, head: bool, env: Env) { Complete(m, head, env) && Affordable(m, env) }

  /** The body the response object ends up with. */
  function BodyOf(m: Message, env: Env): bytes {
    match m.payload
    case Nothing => []
    case Fixed(body) => body
    case Chunks(coded) => StoreAll(Buffer([], env.cap), Datas(coded.chunks), env.maxSize).held
  }

  function CapAfter(m: Message, env: Env): nat {
    match m.payload
    case Nothing => env.cap
    case Fixed(body) =>
      (match GrownSize(env.cap, env.maxSize, |body|) case None => env.cap case Some(cap) => cap)
    case Chunks(coded) => StoreAll(Buffer([], env.cap), Datas(coded.chunks), env.maxSize).cap
  }

  /** What one call should report, given what follows the message. */
  function Reading(m: Message, env: Env, rest: bytes): Raw
    requires StatusCode(m.block).Some?
  {
    Got(StatusCode(m.block).value, ParsedHeaders(m.block), BodyOf(m, env), CapAfter(m, env), rest)
  }

  lemma AfterBlockReads(m: Message, head: bool, env: Env, tail: bytes)
    requires Announces(m, head) && Affordable(m, env)
    ensures AfterBlock(m.block, PayloadBytes(m.payload) + tail, head, env) == Reading(m, env, tail)
  {
    hide StatusCode, ChunkedAnnounced, ContentLength, ParsedHeaders, GrownSize, Decode, StoreAll, Encode, Datas;
    var s := PayloadBytes(m.payload) + tail;
    match m.payload
    case Nothing =>
      assert s == tail;
    case Fixed(body) =>
      assert s[..|body|] == body && s[|body|..] == tail;
      EmptyKeepsCap(env);
    case Chunks(coded) =>
      DecodeEncoded(coded, tail, env.cap, EnvLimits(env));
  }

  lemma EmptyKeepsCap(env: Env)
    ensures GrownSize(env.cap, env.maxSize, 0) == Some(env.cap)
  {}

  lemma HeaderEndOfWire(block: bytes, s: bytes)
    requires HeaderEnd(block) == |block|
    ensures HeaderEnd(block + s) == |block|
  {
    assert (block + s)[..|block|] == block;
    HeaderEndPrefix(block + s, |block|);
  }

  /** A complete header block leaves the rest to its framing. */
  lemma ReadAfterBlock(block: bytes, s: bytes, head: bool, env: Env)
    requires HeaderEnd(block) == |block| && |block| <= env.limit
    ensures ParseRaw(block + s, head, env) == AfterBlock(block, s, head, env)
  {
    hide HeaderEnd, AfterBlock;
    HeaderEndOfWire(block, s);
    assert (block + s)[..|block|] == block && (block + s)[|block|..] == s;
  }

  /** One read of a well-formed message: its own parse, and a cursor exactly at what follows. */
  lemma MessageRead(m: Message, head: bool, env: Env, tail: bytes)
    requires WellFormed(m, head, env)
    ensures ParseRaw(Wire(m) + tail, head, env) == Reading(m, env, tail)
  {
    hide HeaderEnd, AfterBlock, Reading, Announces, Affordable;
    var s := Wire(m) + tail;
    var body := PayloadBytes(m.payload) + tail;
    assert s == m.block + body;
    HeaderEndOfWire(m.block, body);
    assert s[..|m.block|] == m.block && s[|m.block|..] == body;
    AfterBlockReads(m, head, env, tail);
  }

  // ---------------------------------------------------------------- n reads on one stream

  /** One call of readResponseBuffered: the request's method and the buffers it gets. */
  datatype Call = Call(head: bool, env: Env)

  /** Successive reads on one stream, each from where the one before left it. */
  function ReadMany(s: bytes, calls: seq<Call>, inflate: Inflate): seq<Raw>
    decreases |calls|
  {
    if calls == [] then []
    else
      var o := ParseMessage(s, calls[0].head, calls[0].env, inflate);
      [o] + ReadMany(o.rest, calls[1..], inflate)
  }

  function Wires(ms: seq<Message>): bytes {
    if ms == [] then [] else Wire(ms[0]) + Wires(ms[1..])
  }

  predicate Readable(m: Message, c: Call) { WellFormed(m, c.head, c.env) }

  /** The parse of one message on its own; a body that fails to decompress makes it a failure. */
  function Alone(m: Message, c: Call, inflate: Inflate): Raw { ParseMessage(Wire(m), c.head, c.env, inflate) }

  /** Decompression leaves the cursor alone, whether it succeeds or fails. */
  lemma UnpackRest(o: Raw, maxSize: int, inflate: Inflate, rest: bytes)
    ensures Unpack(o, maxSize, inflate).rest == o.rest
    ensures Unpack(o.(rest := rest), maxSize, inflate) == Unpack(o, maxSize, inflate).(rest := rest)
  {
    hide GrownSize;
  }

  lemma MessageParsed(m: Message, c: Call, inflate: Inflate, tail: bytes)
    requires Readable(m, c)
    ensures Alone(m, c, inflate).rest == [] && HasHead(Alone(m, c, inflate), m)
    ensures ParseMessage(Wire(m) + tail, c.head, c.env, inflate) == WithRest(Alone(m, c, inflate), tail)
  {
    hide ParseRaw, WellFormed, Unpack;
    assert StatusCode(m.block).Some? by { WellFormedStatus(m, c); }
    MessageRead(m, c.head, c.env, tail);
    MessageRead(m, c.head, c.env, []);
    assert Wire(m) + [] == Wire(m);
    UnpackRest(Reading(m, c.env, []), c.env.maxSize, inflate, tail);
    UnpackHead(Reading(m, c.env, []), c.env.maxSize, inflate);
  }

  /** A report with the status and headers of the message, even when its body fails to decompress. */
  predicate HasHead(o: Raw, m: Message) {
    StatusCode(m.block) == Some(o.status) && o.headers == ParsedHeaders(m.block)
  }

  lemma UnpackHead(o: Raw, maxSize: int, inflate: Inflate)
    ensures Unpack(o, maxSize, inflate).status == o.status && Unpack(o, maxSize, inflate).headers == o.headers
  {}

  lemma WellFormedStatus(m: Message, c: Call)
    requires WellFormed(m, c.head, c.env)
    ensures StatusCode(m.block).Some?
  {}

  /**
   * Pipelined stream parsing: n reads on the concatenation of n messages give the n separate parses, in order, each
   * stopping exactly at the end of its own message, even if its body fails to decompress.
   */
  lemma {:induction false} StreamRead(ms: seq<Message>, calls: seq<Call>, inflate: Inflate, tail: bytes)
    requires |ms| == |calls|
    requires forall i :: 0 <= i < |ms| ==> Readable(ms[i], calls[i])
    ensures var rs := ReadMany(Wires(ms) + tail, calls, inflate);
      && |rs| == |ms|
      && (forall i :: 0 <= i < |ms| ==>
            rs[i] == WithRest(Alone(ms[i], calls[i], inflate), Wires(ms[i + 1..]) + tail) && HasHead(rs[i], ms[i]))
    decreases |ms|
  {
    hide ParseMessage, Readable, Wire, Alone;
    if ms != [] {
      var rest := Wires(ms[1..]) + tail;
      assert Wires(ms) + tail == Wire(ms[0]) + rest;
      MessageParsed(ms[0], calls[0], inflate, rest);
      StreamRead(ms[1..], calls[1..], inflate, tail);
      var rs, rs' := ReadMany(Wires(ms) + tail, calls, inflate), ReadMany(rest, calls[1..], inflate);
      assert rs == [rs[0]] + rs';
      forall i | 0 < i < |ms|
        ensures rs[i] == WithRest(Alone(ms[i], calls[i], inflate), Wires(ms[i + 1..]) + tail) && HasHead(rs[i], ms[i])
      {
        assert ms[1..][i..] == ms[i + 1..];
      }
    }
  }

  // ---------------------------------------------------------------- which reads keep their place

  /**
   * The payload is refused after the status was set: too long for the buffer, or chunked and too long. A Content-Length
   * above the limit is refused before.
   */
  predicate Slips(m: Message, env: Env) {
    !Affordable(m, env) && !(m.payload.Fixed? && 0 < env.maxBody < |m.payload.body|)
  }

  /** What a refused payload leaves behind is the same whatever follows it, and never nothing. */
  lemma RefusedPayload(m: Message, head: bool, env: Env, tail: bytes)
    requires env.buffered && Announces(m, head) && !Affordable(m, env)
    ensures var o := AfterBlock(m.block, PayloadBytes(m.payload), head, env);
      && AfterBlock(m.block, PayloadBytes(m.payload) + tail, head, env) == WithRest(o, o.rest + tail)
      && o.Broken? && Placed(o) && o.rest != []
      && o.status == (if Slips(m, env) then StatusCode(m.block).value else 0)
      && (Slips(m, env) ==> o.headers == ParsedHeaders(m.block))
  {
    hide StatusCode, ChunkedAnnounced, ContentLength, ParsedHeaders, GrownSize, Decode, Encode, Datas, Fits;
    match m.payload
    case Nothing =>
    case Fixed(body) =>
      GrowthRefused(env.cap, env.maxSize, |body|);
    case Chunks(coded) =>
      DecodeOverruns(coded, tail, env.cap, EnvLimits(env));
      DecodeOverruns(coded, [], env.cap, EnvLimits(env));
      hide Ending, Overrun;
      assert Encode(coded) + [] == Encode(coded);
      OverrunError(coded.chunks, Buffer([], env.cap), EnvLimits(env));
  }

  lemma {:induction false} OverrunError(cs: seq<Chunk>, b: Buffer, lim: Limits)
    requires Overrun(cs, b, lim).Some?
    ensures !Overrun(cs, b, lim).value.0.UntilEof?
    decreases |cs|
  {
    hide GrownSize, Stored, ChunksBytes;
    if Refusal(|cs[0].data|, b, lim).None? { OverrunError(cs[1..], Took(cs[0].data, b, lim), lim); }
  }

  lemma GrowthRefused(cap: nat, maxSize: int, required: int)
    ensures GrownSize(cap, maxSize, required).None? ==> required > 0
  {}

  /**
   * One read of a complete message, whether or not there is room for it: what is reported is its own parse, and what
   * it leaves of the message stays in front of what follows.
   */
  lemma CompleteRead(m: Message, c: Call, inflate: Inflate, tail: bytes)
    requires c.env.buffered && Complete(m, c.head, c.env)
    ensures var o := Alone(m, c, inflate);
      && ParseMessage(Wire(m) + tail, c.head, c.env, inflate) == WithRest(o, o.rest + tail)
      && Placed(o)
      && (o.rest == [] <==> Affordable(m, c.env))
      && (HasStatus(o) && o.rest != [] <==> Slips(m, c.env))
      && (HasStatus(o) ==> HasHead(o, m))
  {
    hide HeaderEnd, StatusCode, AfterBlock, Reading, Announces, Affordable, Unpack, ParsedHeaders;
    if Affordable(m, c.env) {
      MessageParsed(m, c, inflate, tail);
      AffordableRead(m, c, inflate);
    } else {
      assert Wire(m) + tail == m.block + (PayloadBytes(m.payload) + tail);
      ReadAfterBlock(m.block, PayloadBytes(m.payload) + tail, c.head, c.env);
      ReadAfterBlock(m.block, PayloadBytes(m.payload), c.head, c.env);
      RefusedPayload(m, c.head, c.env, tail);
      AnnouncedStatus(m, c.head);
      var o := AfterBlock(m.block, PayloadBytes(m.payload), c.head, c.env);
      UnpackBroken(o, c.env.maxSize, inflate);
      UnpackBroken(WithRest(o, o.rest + tail), c.env.maxSize, inflate);
    }
  }

  lemma UnpackBroken(o: Raw, maxSize: int, inflate: Inflate)
    requires o.Broken?
    ensures Unpack(o, maxSize, inflate) == o
  {}

  lemma AnnouncedStatus(m: Message, head: bool)
    requires Announces(m, head)
    ensures StatusCode(m.block).Some? && StatusCode(m.block).value >= 100
  {
    StatusInRange(m.block);
  }

  lemma AffordableRead(m: Message, c: Call, inflate: Inflate)
    requires Readable(m, c)
    ensures Placed(Alone(m, c, inflate)) && HasStatus(Alone(m, c, inflate))
  {
    hide HeaderEnd, StatusCode, ParseRaw, Announces, Affordable, ParsedHeaders, GrownSize, BodyOf, CapAfter;
    AnnouncedStatus(m, c.head);
    MessageRead(m, c.head, c.env, []);
    assert Wire(m) + [] == Wire(m);
  }

  /**
   * Exactly the reads of affordable payloads leave the stream at the next message: a body that is refused for its size
   * stays in the stream, and one that fails to decompress has been consumed. Exactly the reads of payloads that slip
   * leave it elsewhere and still report a status.
   */
  lemma PlaceKept(m: Message, c: Call, inflate: Inflate, tail: bytes)
    requires c.env.buffered && Complete(m, c.head, c.env)
    ensures var o := ParseMessage(Wire(m) + tail, c.head, c.env, inflate);
      && (o.rest == tail <==> Affordable(m, c.env))
      && (HasStatus(o) && o.rest != tail <==> Slips(m, c.env))
  {
    CompleteRead(m, c, inflate, tail);
    hide ParseMessage, Complete, Affordable, Slips, Alone;
  }
}
