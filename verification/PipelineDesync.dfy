/** A run in which a refused body makes the next request receive a part of it. */
module PipelineDesync {
  import opened Bytes
  import opened Source
  import opened Scan
  import opened Headers
  import opened Responses
  import opened Requests
  import opened Blocks
  import opened LineSearch
  import RoundTrip
  import opened Chunked
  import opened ChunkCoding
  import opened Reader
  import opened Messages
  import opened Samples
  import opened Pipeline
  import PipelineUse

  // ---------------------------------------------------------------- a response inside a body

  /** A whole response without a body, 19 bytes long. */
  function Inner(): bytes { Block(NoContentLine(), []) }

  function ChunkedHeader(): Header { Header(Ascii("Transfer-Encoding"), Ascii("chunked")) }

  function OuterBlock(): bytes { Block(OkLine(), [ChunkedHeader()]) }

  function OuterBody(c: Chunk): Coded { Coded([c], [48], [], []) }

  /** A chunked response with one chunk. */
  function Outer(c: Chunk): Message { Message(OuterBlock(), Chunks(OuterBody(c))) }

  /** A chunk whose data begins with the other response. */
  predicate Carrier(c: Chunk) { ValidChunk(c) && 19 <= |c.data| && c.data[..19] == Inner() }

  lemma InnerSize()
    ensures |Inner()| == 19
  {
    LinesAre();
    hide NoContentLine;
    assert Render([]) == [];
  }

  lemma OuterBodyValid(c: Chunk)
    requires ValidChunk(c)
    ensures ValidCoded(OuterBody(c))
  {
    assert [48 as byte][..0] == [] && HexValue([48 as byte]) == 0;
  }

  lemma TransferName()
    ensures |Ascii("Transfer-Encoding")| == 17
    ensures forall i :: 0 <= i < 17 ==> Lower(Ascii("Transfer-Encoding")[i]) == TRANSFER_ENCODING[i]
    ensures Ascii("chunked") == CHUNKED
  {
    var key := Ascii("Transfer-Encoding");
    assert key == [84, 114, 97, 110, 115, 102, 101, 114, 45, 69, 110, 99, 111, 100, 105, 110, 103];
    hide Ascii;
    assert forall i :: 0 <= i < 17 ==> Lower(key[i]) == TRANSFER_ENCODING[i];
  }

  lemma ChunkedLine()
    ensures Clean(ChunkedHeader()) && |LineOf(ChunkedHeader())| == 26
    ensures FoldAt(LineOf(ChunkedHeader()), 0, TRANSFER_ENCODING) && FoldAt(LineOf(ChunkedHeader()), 19, CHUNKED)
  {
    hide *;
    RoundTrip.AsciiClean("Transfer-Encoding");
    RoundTrip.AsciiClean("chunked");
    TransferName();
    ChunkedHeaderIs();
    KeyAndValue(ChunkedHeader());
  }

  lemma ChunkedHeaderIs()
    ensures ChunkedHeader() == Header(Ascii("Transfer-Encoding"), Ascii("chunked"))
  {
    hide Ascii;
  }

  lemma KeyAndValue(h: Header)
    requires NoEol(h.key) && NoEol(h.value) && |h.key| == 17 && h.value == CHUNKED
    requires forall i :: 0 <= i < 17 ==> Lower(h.key[i]) == TRANSFER_ENCODING[i]
    ensures Clean(h) && |LineOf(h)| == 26 && FoldAt(LineOf(h), 0, TRANSFER_ENCODING) && FoldAt(LineOf(h), 19, CHUNKED)
  {
    TransferPatternIsPlain();
    ChunkedPatternIsPlain();
    hide NoEol, FoldAt;
    NameThenValue(h, TRANSFER_ENCODING, CHUNKED);
  }

  lemma NameThenValue(h: Header, name: bytes, value: bytes)
    requires |name| == |h.key| + 1 && name[|h.key|] == COLON && h.value == value
    requires forall i :: 0 <= i < |h.key| ==> Lower(h.key[i]) == name[i]
    requires forall i :: 0 <= i < |value| ==> Lower(value[i]) == value[i]
    ensures FoldAt(LineOf(h), 0, name) && FoldAt(LineOf(h), |h.key| + 2, value)
  {
    var line := LineOf(h);
    assert forall i :: 0 <= i < |h.key| ==> line[i] == h.key[i];
    forall i | 0 <= i < |value| ensures line[|h.key| + 2 + i] == value[i] {}
  }

  lemma OuterBlockAnnounces()
    ensures HeaderEnd(OuterBlock()) == |OuterBlock()| && StatusCode(OuterBlock()) == Some(200)
    ensures ChunkedAnnounced(OuterBlock())
  {
    assert OuterBlock() == Block(OkLine(), [ChunkedHeader()]) by { OuterBlockIs(); }
    hide *;
    LinesAre();
    ChunkedLine();
    ChunkedBlock(ChunkedHeader());
  }

  lemma OuterBlockIs()
    ensures OuterBlock() == Block(OkLine(), [ChunkedHeader()])
  {
    hide Block, OkLine, ChunkedHeader;
  }

  lemma ChunkedBlock(h: Header)
    requires Clean(h) && |LineOf(h)| == 26 && FoldAt(LineOf(h), 0, TRANSFER_ENCODING) && FoldAt(LineOf(h), 19, CHUNKED)
    ensures var b := Block(OkLine(), [h]); HeaderEnd(b) == |b| && StatusCode(b) == Some(200) && ChunkedAnnounced(b)
  {
    var line := OkLine();
    assert line == StatusLine(200);
    hide *;
    LinesAre();
    NoEolIsOneLine(line);
    CleanIsUnbroken(h);
    CleanLine(h);
    BlockEnds(line, [h], []);
    assert Block(line, [h]) + [] == Block(line, [h]);
    StatusOfBlock(200, [h]);
    BlockOfOne(line, h);
    ChunkedLineAnnounces(line + CRLF, LineOf(h), CRLF, 19);
  }

  lemma BlockOfOne(line: bytes, h: Header)
    ensures Block(line, [h]) == Around(line + CRLF, LineOf(h), CRLF)
  {
    RenderOne(h);
    hide Render, LineOf;
  }

  lemma ChunkedComplete(block: bytes, coded: Coded, env: Env)
    requires HeaderEnd(block) == |block| <= env.limit && StatusCode(block) == Some(200) && ChunkedAnnounced(block)
    requires ValidCoded(coded)
    ensures Complete(Message(block, Chunks(coded)), false, env)
  {
    hide HeaderEnd, StatusCode, ChunkedAnnounced, ValidCoded;
  }

  lemma OuterComplete(c: Chunk, env: Env)
    requires ValidChunk(c) && |OuterBlock()| <= env.limit
    ensures Complete(Outer(c), false, env)
  {
    assert Outer(c) == Message(OuterBlock(), Chunks(OuterBody(c)));
    hide *;
    OuterBlockAnnounces();
    OuterBodyValid(c);
    ChunkedComplete(OuterBlock(), OuterBody(c), env);
  }

  /** What ends the outer body, and everything after it. */
  function LastChunk(tail: bytes): bytes { SizeLine([48], []) + TrailerBytes([]) + tail }

  /** What follows the inner response on the wire. */
  function Leftover(c: Chunk, tail: bytes): bytes
    requires Carrier(c)
  {
    c.data[19..] + CRLF + LastChunk(tail)
  }

  lemma DataSplits(c: Chunk, tail: bytes)
    requires Carrier(c)
    ensures ValidChunk(c) && c.data + CRLF + LastChunk(tail) == Inner() + Leftover(c, tail)
  {
    hide ValidChunk, LastChunk, Inner;
  }

  lemma OuterWire(c: Chunk, tail: bytes)
    ensures Wire(Outer(c)) + tail == OuterBlock() + (ChunkBytes(c) + LastChunk(tail))
  {
    hide OuterBlock, Inner, TrailerBytes, SizeLine;
    OneChunk(c);
    hide ChunkBytes, ChunksBytes;
  }

  lemma TooLargeChunk(c: Chunk, tail: bytes, cap: nat, lim: Limits)
    requires ValidChunk(c) && 0 < lim.maxBody < |c.data|
    ensures Decode(ChunkBytes(c) + tail, [], cap, lim) == Bad(ResponseTooLarge, c.data + CRLF + tail)
  {
    hide TakeLine, SizeOf, AfterLine, GrownSize;
    var body := c.data + CRLF + tail;
    assert ChunkBytes(c) + tail == SizeLine(c.digits, c.ext) + body;
    TakeSizeLine(c.digits, c.ext, body);
  }

  /** Over the limit: the read fails with the status set, in front of the chunk's data. */
  lemma OuterRefused(c: Chunk, env: Env, inflate: Inflate, tail: bytes)
    requires Carrier(c) && |OuterBlock()| <= env.limit && 0 < env.maxBody < |c.data|
    ensures var o := ParseMessage(Wire(Outer(c)) + tail, false, env, inflate);
      && o.Broken? && o.status == 200 && Placed(o) && o.rest == Inner() + Leftover(c, tail)
      && !AsksToClose(o.headers)
  {
    hide *;
    DataSplits(c, tail);
    OuterBlockAnnounces();
    OuterWire(c, tail);
    TooLargeChunk(c, LastChunk(tail), env.cap, Limits(env.maxSize, env.maxBody, env.fail));
    RefusedAfterBlock(OuterBlock(), ChunkBytes(c) + LastChunk(tail), env, inflate);
    OuterGoesOn();
  }

  lemma OuterGoesOn()
    ensures !AsksToClose(ParsedHeaders(OuterBlock()))
  {
    OuterBlockIs();
    hide *;
    LinesAre();
    ChunkedLine();
    ChunkedIsPlain();
    NoEolIsOneLine(OkLine());
    CleanIsUnbroken(ChunkedHeader());
    BlockParses(OkLine(), [ChunkedHeader()], []);
    assert Block(OkLine(), [ChunkedHeader()]) + [] == Block(OkLine(), [ChunkedHeader()]);
    AllComeBack([ChunkedHeader()]);
    NotAsked(ChunkedHeader());
  }

  lemma ChunkedIsPlain()
    ensures Blocks.Plain(ChunkedHeader()) && |ChunkedHeader().key| == 17
  {
    hide *;
    TransferName();
    ChunkedHeaderIs();
    PlainKey(ChunkedHeader());
  }

  lemma PlainKey(h: Header)
    requires |h.key| == 17 && h.value == CHUNKED
    requires forall i :: 0 <= i < 17 ==> Lower(h.key[i]) == TRANSFER_ENCODING[i]
    ensures Blocks.Plain(h)
  {
    assert forall i :: 0 <= i < 17 ==> TRANSFER_ENCODING[i] != COLON && !IsBlank(TRANSFER_ENCODING[i]);
  }

  /** A name of another length than Connection asks for nothing. */
  lemma NotAsked(h: Header)
    requires |h.key| == 17
    ensures !AsksToClose([h])
  {
    assert |Ascii("Connection")| == 10;
  }

  lemma RefusedAfterBlock(block: bytes, s: bytes, env: Env, inflate: Inflate)
    requires HeaderEnd(block) == |block| <= env.limit && StatusCode(block) == Some(200) && ChunkedAnnounced(block)
    requires var d := Decode(s, [], env.cap, Limits(env.maxSize, env.maxBody, env.fail));
      d.Bad? && d.error == ResponseTooLarge
    ensures var o := ParseMessage(block + s, false, env, inflate);
      var d := Decode(s, [], env.cap, Limits(env.maxSize, env.maxBody, env.fail));
      o.Broken? && o.status == 200 && Placed(o) && o.rest == d.rest && o.headers == ParsedHeaders(block)
  {
    hide HeaderEnd, StatusCode, ChunkedAnnounced, Decode, ParsedHeaders, ParseRaw, AfterBlock, Unpack;
    ReadAfterBlock(block, s, false, env);
    BadChunksRead(block, s, env, 200);
    UnpackBroken(AfterBlock(block, s, false, env), env.maxSize, inflate);
  }

  lemma BadChunksRead(block: bytes, s: bytes, env: Env, status: nat)
    requires StatusCode(block) == Some(status) && !Bodyless(status, false) && ChunkedAnnounced(block)
    requires Decode(s, [], env.cap, Limits(env.maxSize, env.maxBody, env.fail)).Bad?
    ensures var d := Decode(s, [], env.cap, Limits(env.maxSize, env.maxBody, env.fail));
      AfterBlock(block, s, false, env) == Broken(status, ParsedHeaders(block), d.error, d.rest)
  {
    hide StatusCode, ChunkedAnnounced, Decode, ParsedHeaders;
  }

  lemma OneChunk(c: Chunk)
    ensures ChunksBytes([c]) == ChunkBytes(c)
  {
    assert [c][1..] == [];
  }

  /** The next read takes the body for a response. */
  lemma InnerRead(env: Env, inflate: Inflate, rest: bytes)
    requires 19 <= env.limit
    ensures var o := ParseMessage(Inner() + rest, false, env, inflate);
      o.Got? && o.status == 204 && o.body == [] && o.rest == rest && o.headers == []
  {
    LinesAre();
    InnerSize();
    NoEolIsOneLine(NoContentLine());
    hide NoContentLine, HeaderEnd, StatusCode, ParsedHeaders, Render, OneLine;
    BlockEnds(NoContentLine(), [], rest);
    BlockParses(NoContentLine(), [], []);
    assert Inner() + [] == Inner() && Reparsed([]) == [];
    StatusOfBlock(204, []);
    var s := Inner() + rest;
    assert s[..19] == Inner() && s[19..] == rest;
  }

  // ---------------------------------------------------------------- the run

  /** Two requests whose readers allow fewer bytes than the chunk has, and the peer's answer to the first. */
  predicate Setting(cfg: Config, c: Chunk, tail: bytes) {
    && Carrier(c)
    && cfg.inbound == Wire(Outer(c)) + tail
    && Narrow(cfg.call(0), |c.data|) && Narrow(cfg.call(1), |c.data|)
  }

  predicate Narrow(call: Call, size: nat) {
    && !call.head && call.env.buffered && 19 <= call.env.limit && |OuterBlock()| <= call.env.limit
    && 0 < call.env.maxBody < size
  }

  /** Both requests are written and the reader holds the first. */
  lemma BothWritten(cfg: Config) returns (acts: seq<Action>, s: State)
    ensures Run(cfg, acts) == Some(s)
    ensures s.reader == Parsing(0) && s.queue == [0, 1] && s.h.wire == [0, 1] && s.stage == 0 && s.lock == None
    ensures s.cursor == cfg.inbound && s.cancelled == {} && s.resps == map[] && s.h.delivered == map[]
  {
    acts, s := PipelineUse.ReadingFirst(cfg);
    hide ParseMessage, Run, Setting;
    PipelineUse.RunSnoc(cfg, acts, Arrive, s);
    acts, s := acts + [Arrive], Next(cfg, s, Arrive);
    PipelineUse.RunSnoc(cfg, acts, Lock(1), s);
    acts, s := acts + [Lock(1)], Next(cfg, s, Lock(1));
    PipelineUse.RunSnoc(cfg, acts, StartReader(1), s);
    acts, s := acts + [StartReader(1)], Next(cfg, s, StartReader(1));
    PipelineUse.RunSnoc(cfg, acts, WriteOk(1), s);
    acts, s := acts + [WriteOk(1)], Next(cfg, s, WriteOk(1));
  }

  lemma CountsOff(cfg: Config, acts: seq<Action>, s: State, o: Raw) returns (acts': seq<Action>, s': State)
    requires Run(cfg, acts) == Some(s) && s.reader.Parsing? && s.cancelled == {}
    requires o == ReadOutcome(cfg, s, s.reader.p) && Placed(o)
    ensures Run(cfg, acts') == Some(s') && s'.reader == Counted(s.reader.p, o, false)
    ensures s'.queue == s.queue && s'.stage == s.stage && s'.lock == s.lock && s'.cancelled == {} && s'.cursor == o.rest
    ensures s'.resps == s.resps && s'.h.wire == s.h.wire && s'.h.delivered == s.h.delivered
  {
    hide ParseMessage, Run, ReadOutcome;
    var read := ReaderRead([]);
    PipelineUse.RunSnoc(cfg, acts, read, s);
    acts', s' := acts + [read], Next(cfg, s, read);
    PipelineUse.RunSnoc(cfg, acts', ReaderJudge, s');
    acts', s' := acts' + [ReaderJudge], Next(cfg, s', ReaderJudge);
    PipelineUse.RunSnoc(cfg, acts', ReaderCount, s');
    acts', s' := acts' + [ReaderCount], Next(cfg, s', ReaderCount);
  }

  /** From a read to the next one: it has a status and does not ask to close, so the connection stays open. */
  lemma Delivers(cfg: Config, acts: seq<Action>, s: State, o: Raw) returns (acts': seq<Action>, s': State)
    requires Run(cfg, acts) == Some(s) && s.reader.Parsing? && s.queue != [] && s.queue[0] == s.reader.p && s.stage == 0
    requires s.lock == None && s.cancelled == {} && s.reader.p !in s.resps
    requires o == ReadOutcome(cfg, s, s.reader.p) && Placed(o) && HasStatus(o) && !AsksToClose(o.headers)
    ensures Run(cfg, acts') == Some(s')
    ensures s'.reader == Looking && s'.queue == s.queue[1..] && s'.stage == 0 && s'.lock == None && s'.cancelled == {}
    ensures s'.cursor == o.rest && s'.resps == s.resps[s.reader.p := o] && s'.h.wire == s.h.wire
    ensures s'.h.delivered == s.h.delivered[s.reader.p := o]
  {
    hide ParseMessage, Run, ReadOutcome, AsksToClose;
    acts', s' := CountsOff(cfg, acts, s, o);
    PipelineUse.RunSnoc(cfg, acts', ReaderRemove, s');
    acts', s' := acts' + [ReaderRemove], Next(cfg, s', ReaderRemove);
    PipelineUse.RunSnoc(cfg, acts', ReaderDeliver, s');
    acts', s' := acts' + [ReaderDeliver], Next(cfg, s', ReaderDeliver);
  }

  /**
   * A body over the limit breaks the order, although the message is complete: request 0 gets its response with the
   * status of the message, and request 1, whatever the peer sends it, gets the response inside that message's body.
   */
  lemma RefusedBodyBreaksOrder(cfg: Config, c: Chunk, tail: bytes) returns (acts: seq<Action>)
    requires Setting(cfg, c, tail)
    ensures Complete(Outer(c), false, cfg.call(0).env) && cfg.inbound == Wire(Outer(c)) + tail
    ensures Run(cfg, acts).Some?
    ensures var h := Run(cfg, acts).value.h;
      && h.wire == [0, 1] && 0 in h.delivered && h.delivered[0].Broken? && h.delivered[0].status == 200
      && 1 in h.delivered && h.delivered[1].Got? && h.delivered[1].status == 204
      && h.delivered[1].rest == Leftover(c, tail)
  {
    hide OuterBlock, Outer, Inner, Leftover, ParseMessage, Run, Wire, Complete, ValidChunk, Carrier;
    DataSplits(c, tail);
    OuterComplete(c, cfg.call(0).env);
    var s;
    acts, s := BothWritten(cfg);
    var o := ReadOutcome(cfg, s, 0);
    OuterRefused(c, cfg.call(0).env, cfg.inflate, tail);
    acts, s := Delivers(cfg, acts, s, o);
    PipelineUse.RunSnoc(cfg, acts, ReaderLook, s);
    acts, s := acts + [ReaderLook], Next(cfg, s, ReaderLook);
    PipelineUse.RunSnoc(cfg, acts, ReaderCheck, s);
    acts, s := acts + [ReaderCheck], Next(cfg, s, ReaderCheck);
    InnerRead(cfg.call(1).env, cfg.inflate, Leftover(c, tail));
    acts, s := Delivers(cfg, acts, s, ReadOutcome(cfg, s, 1));
  }

  /** MaxResponseBodySize of the default configuration, 10 MiB. */
  const DEFAULT_LIMIT := 10485760

  /** One byte over it, in hexadecimal a00001. */
  function LargeChunk(): Chunk { Chunk([97, 48, 48, 48, 48, 49], [], Inner() + Zeros(DEFAULT_LIMIT + 1 - |Inner()|)) }

  lemma LargeDigits()
    ensures ValidDigits([97, 48, 48, 48, 48, 49]) && HexValue([97, 48, 48, 48, 48, 49]) == DEFAULT_LIMIT + 1
  {
    assert AllHex([]) && HexValue([]) == 0;
    assert IsHex(97) && IsHex(48) && IsHex(49) && HexDigit(97) == 10 && HexDigit(48) == 0 && HexDigit(49) == 1;
    hide HexValue, AllHex, IsHex, HexDigit;
    HexAppend([], 97, [97]);
    HexAppend([97], 48, [97, 48]);
    HexAppend([97, 48], 48, [97, 48, 48]);
    HexAppend([97, 48, 48], 48, [97, 48, 48, 48]);
    HexAppend([97, 48, 48, 48], 48, [97, 48, 48, 48, 48]);
    HexAppend([97, 48, 48, 48, 48], 49, [97, 48, 48, 48, 48, 49]);
  }

  /** There is such a body for the default limit. */
  lemma LargeChunkCarries()
    ensures Carrier(LargeChunk()) && |LargeChunk().data| == DEFAULT_LIMIT + 1
  {
    InnerSize();
    LargeDigits();
    hide Inner, HexValue, ValidDigits;
  }
}
