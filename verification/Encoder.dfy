/** The request encoders of writer.go: three ways to produce the same bytes. */
module Encoder {
  import opened Bytes

  // ---------------------------------------------------------------- fixed texts

  function HttpScheme(): bytes { Ascii("http://") }

  function Version(): bytes { Ascii(" HTTP/1.1\r\n") }

  function HostName(): bytes { Ascii("Host: ") }

  function KeepAliveLine(): bytes { Ascii("Connection: keep-alive\r\n") }

  function CloseLine(): bytes { Ascii("Connection: close\r\n") }

  function GzipLine(): bytes { Ascii("Content-Encoding: gzip\r\n") }

  function ContinueLine(): bytes { Ascii("Expect: 100-continue\r\n") }

  function LengthName(): bytes { Ascii("Content-Length: ") }

  function DefaultVerb(): bytes { Ascii("GET") }

  // ---------------------------------------------------------------- what is encoded

  datatype Request = Request(verb: bytes, parsedPath: bytes, path: bytes, headers: bytes, expectContinue: bool)

  datatype Target = Target(host: bytes, port: int, useTLS: bool, keepAlive: bool, compressed: bool, forwardProxy: bool)

  function Verb(r: Request): bytes { if r.verb == [] then DefaultVerb() else r.verb }

  function EffectivePath(r: Request): bytes {
    if r.parsedPath != [] then r.parsedPath else if r.path != [] then r.path else Ascii("/")
  }

  /** Decimal digits, most significant first. */
  function Decimal(n: nat): (d: bytes)
    ensures d != []
  {
    if n < 10 then [48 + n] else Decimal(n / 10) + [48 + n % 10]
  }

  function PortSuffix(port: int, default: int): bytes {
    if port > 0 && port != default then [COLON] + Decimal(port) else []
  }

  /** Absolute form for a forward proxy, origin form otherwise. */
  function Origin(t: Target): bytes {
    if t.forwardProxy then HttpScheme() + t.host + PortSuffix(t.port, 80) else []
  }

  function RequestLine(r: Request, t: Target): bytes {
    Verb(r) + [SP] + Origin(t) + EffectivePath(r) + Version()
  }

  function HostLine(t: Target): bytes {
    HostName() + t.host + PortSuffix(t.port, if t.useTLS then 443 else 80) + CRLF
  }

  function ConnectionLine(t: Target): bytes {
    if t.keepAlive then KeepAliveLine() else CloseLine()
  }

  function EncodingLine(t: Target): bytes {
    if t.compressed then GzipLine() else []
  }

  function ExpectLine(on: bool): bytes { if on then ContinueLine() else [] }

  function LengthLine(n: nat): bytes { LengthName() + Decimal(n) + BLANK_LINE }

  /** writeRequestPart1. */
  function Part1(r: Request, t: Target): bytes {
    RequestLine(r, t) + HostLine(t) + ConnectionLine(t) + EncodingLine(t)
  }

  /** writeRequestPart3: the proxy header is written whenever there is one. */
  function Part3(r: Request, n: nat, proxyAuth: bytes): bytes {
    proxyAuth + ExpectLine(r.expectContinue && n > 0) + LengthLine(n)
  }

  function AuthLine(t: Target, proxyAuth: bytes): bytes { if t.forwardProxy then proxyAuth else [] }

  /** writeRequestHeaderPrefix. */
  function Prefix(r: Request, t: Target, proxyAuth: bytes): bytes {
    Part1(r, t) + r.headers + AuthLine(t, proxyAuth) + ExpectLine(r.expectContinue)
  }

  /** writeRequest: the whole head of a request with a body of n bytes. */
  function Full(r: Request, t: Target, n: nat, proxyAuth: bytes): bytes {
    Part1(r, t) + r.headers + AuthLine(t, proxyAuth) + ExpectLine(r.expectContinue && n > 0) + LengthLine(n)
  }

  // ---------------------------------------------------------------- the three encodings agree

  /** The vectored form sends the same bytes exactly when proxy auth is set only for forward proxies. */
  lemma PartsAgree(r: Request, t: Target, n: nat, proxyAuth: bytes)
    ensures Part1(r, t) + r.headers + Part3(r, n, proxyAuth) == Full(r, t, n, proxyAuth)
      <==> t.forwardProxy || proxyAuth == []
  {
    hide Part1, LengthLine, ExpectLine;
    var head, e, l := Part1(r, t) + r.headers, ExpectLine(r.expectContinue && n > 0), LengthLine(n);
    assert Full(r, t, n, proxyAuth) == head + (AuthLine(t, proxyAuth) + e + l);
    if t.forwardProxy || proxyAuth == [] {
      assert AuthLine(t, proxyAuth) == proxyAuth;
    } else {
      assert |head + Part3(r, n, proxyAuth)| != |Full(r, t, n, proxyAuth)|;
    }
  }

  /** The pre-encoded form sends the same bytes exactly when it does not announce a body that is empty. */
  lemma PrefixAgrees(r: Request, t: Target, n: nat, proxyAuth: bytes)
    ensures Prefix(r, t, proxyAuth) + LengthLine(n) == Full(r, t, n, proxyAuth) <==> !r.expectContinue || n > 0
  {
    hide Part1, LengthLine;
    if r.expectContinue && n == 0 {
      assert |Prefix(r, t, proxyAuth) + LengthLine(n)| != |Full(r, t, n, proxyAuth)|;
    }
  }

  // ---------------------------------------------------------------- bounded output

  /** A byte buffer and the write position the helpers share. */
  class Out {
    const buf: array<byte>
    var pos: nat

    ghost predicate Valid()
      reads this
    {
      pos <= buf.Length
    }

    function Written(): bytes
      requires Valid()
      reads this, buf
    {
      buf[..pos]
    }

    constructor (buf: array<byte>)
      ensures Valid() && this.buf == buf && pos == 0 && Written() == []
    {
      this.buf, pos := buf, 0;
    }

    /** writeString, writeBytes and writeByte: all or nothing. */
    method Put(s: bytes) returns (ok: bool)
      requires Valid()
      modifies this`pos, buf
      ensures Valid() && ok == (old(pos) + |s| <= buf.Length)
      ensures Written() == if ok then old(Written()) + s else old(Written())
    {
      if pos + |s| > buf.Length { return false; }
      ghost var was := Written();
      forall i | 0 <= i < |s| { buf[pos + i] := s[i]; }
      assert buf[..pos] == was && buf[pos..pos + |s|] == s;
      pos := pos + |s|;
      return true;
    }

    /** writeInt: the short cases by hand, the rest through a 20-byte scratch buffer filled from the end. */
    method PutInt(n: int) returns (ok: bool)
      requires Valid() && n < TWO63
      modifies this`pos, buf
      ensures Valid() && ok == (n >= 0 && old(pos) + |Decimal(n)| <= buf.Length)
      ensures Written() == if ok then old(Written()) + Decimal(n) else old(Written())
    {
      if n < 0 { return false; }
      SmallDecimal(n);
      if n < 10 {
        ok := Put([48 + n]);
      } else if n < 100 {
        ok := Put([48 + n / 10, 48 + n % 10]);
      } else if n < 1000 {
        ok := Put([48 + n / 100, 48 + n / 10 % 10, 48 + n % 10]);
      } else if n < 10000 {
        ok := Put([48 + n / 1000, 48 + n / 100 % 10, 48 + n / 10 % 10, 48 + n % 10]);
      } else {
        var digits := ManyDigits(n);
        ok := Put(digits);
      }
    }
  }

  lemma {:induction false} ConcatTake(text: seq<bytes>, k: nat)
    requires k < |text|
    ensures Concat(text[..k + 1]) == Concat(text[..k]) + text[k]
    ensures |Concat(text[..k + 1])| <= |Concat(text)|
    decreases k
  {
    if k == 0 {
      assert text[..1][1..] == [] && text[..0] == [];
    } else {
      ConcatTake(text[1..], k - 1);
      assert text[..k + 1][1..] == text[1..][..k] && text[..k][1..] == text[1..][..k - 1];
    }
  }

  /** `w` is what the first k entries of a text come to. */
  ghost predicate Upto(w: bytes, text: seq<bytes>, k: nat) { k <= |text| && w == Concat(text[..k]) }

  /** writeString, writeBytes or writeByte: the next entry of a text. */
  method PutNext(buf: array<byte>, pos: nat, s: bytes, ghost w: bytes, ghost text: seq<bytes>, ghost k: nat)
    returns (ok: bool, next: nat, ghost w': bytes)
    requires pos <= buf.Length && buf[..pos] == w && Upto(w, text, k) && k < |text| && text[k] == s
    modifies buf
    ensures ok ==> next <= buf.Length && buf[..next] == w' && Upto(w', text, k + 1)
    ensures !ok ==> |Concat(text)| > buf.Length
  {
    UptoNext(w, text, k);
    hide Concat, Upto;
    var o := new Out(buf);
    o.pos := pos;
    ok := o.Put(s);
    next, w' := o.pos, buf[..o.pos];
  }

  /** A write under a condition; an entry that is left out is empty. */
  method PutWhen(buf: array<byte>, pos: nat, on: bool, s: bytes, ghost w: bytes, ghost text: seq<bytes>, ghost k: nat)
    returns (ok: bool, next: nat, ghost w': bytes)
    requires pos <= buf.Length && buf[..pos] == w && Upto(w, text, k) && k < |text| && text[k] == if on then s else []
    modifies buf
    ensures ok ==> next <= buf.Length && buf[..next] == w' && Upto(w', text, k + 1)
    ensures !ok ==> |Concat(text)| > buf.Length
  {
    if on {
      ok, next, w' := PutNext(buf, pos, s, w, text, k);
    } else {
      Skip(w, text, k);
      ok, next, w' := true, pos, w;
    }
  }

  /** Two writes in one condition. */
  method PutPair(buf: array<byte>, pos: nat, s: bytes, s': bytes, ghost w: bytes, ghost text: seq<bytes>, ghost k: nat)
    returns (ok: bool, next: nat, ghost w': bytes)
    requires pos <= buf.Length && buf[..pos] == w && Upto(w, text, k) && k < |text| && text[k] == s + s'
    modifies buf
    ensures ok ==> next <= buf.Length && buf[..next] == w' && Upto(w', text, k + 1)
    ensures !ok ==> |Concat(text)| > buf.Length
  {
    UptoNext(w, text, k);
    Associates(w, s, s');
    hide Concat, Upto;
    var o := new Out(buf);
    o.pos := pos;
    ok := o.Put(s);
    if ok { ok := o.Put(s'); }
    next, w' := o.pos, buf[..o.pos];
  }

  /** The colon and the port, when it is not the default one. */
  method PutPort(
    buf: array<byte>, pos: nat, port: int, default: int, ghost w: bytes, ghost text: seq<bytes>, ghost k: nat)
    returns (ok: bool, next: nat, ghost w': bytes)
    requires port < TWO63
    requires pos <= buf.Length && buf[..pos] == w && Upto(w, text, k)
    requires k < |text| && text[k] == PortSuffix(port, default)
    modifies buf
    ensures ok ==> next <= buf.Length && buf[..next] == w' && Upto(w', text, k + 1)
    ensures !ok ==> |Concat(text)| > buf.Length
  {
    UptoNext(w, text, k);
    hide Concat, Decimal, Upto;
    var o := new Out(buf);
    o.pos := pos;
    ok := true;
    if port > 0 && port != default {
      Associates(w, [COLON], Decimal(port));
      ok := o.Put([COLON]);
      if ok { ok := o.PutInt(port); }
    } else {
      assert w + [] == w;
    }
    next, w' := o.pos, buf[..o.pos];
  }

  lemma LengthLineSplits(w: bytes, n: nat)
    ensures w + LengthName() + Decimal(n) + BLANK_LINE == w + LengthLine(n)
    ensures |w + LengthLine(n)| == |w| + |LengthName()| + |Decimal(n)| + 4
  {
    hide LengthName, Decimal;
  }

  /** The length line and the blank line. */
  method PutLength(buf: array<byte>, pos: nat, n: nat, ghost w: bytes, ghost text: seq<bytes>, ghost k: nat)
    returns (ok: bool, next: nat, ghost w': bytes)
    requires n < TWO63
    requires pos <= buf.Length && buf[..pos] == w && Upto(w, text, k) && k < |text| && text[k] == LengthLine(n)
    modifies buf
    ensures ok ==> next <= buf.Length && buf[..next] == w' && Upto(w', text, k + 1)
    ensures !ok ==> |Concat(text)| > buf.Length
  {
    UptoNext(w, text, k);
    LengthLineSplits(w, n);
    hide Concat, Decimal, LengthName, LengthLine, Upto;
    var o := new Out(buf);
    o.pos := pos;
    ok := o.Put(LengthName());
    if ok {
      ok := o.PutInt(n);
      if ok { ok := o.Put(BLANK_LINE); }
    }
    next, w' := o.pos, buf[..o.pos];
  }

  /** An entry that is left out. */
  lemma Skip(w: bytes, text: seq<bytes>, k: nat)
    requires Upto(w, text, k) && k < |text| && text[k] == []
    ensures Upto(w, text, k + 1)
  {
    ConcatTake(text, k);
  }

  lemma UptoNext(w: bytes, text: seq<bytes>, k: nat)
    requires Upto(w, text, k) && k < |text|
    ensures Upto(w + text[k], text, k + 1) && |w + text[k]| <= |Concat(text)|
  {
    ConcatTake(text, k);
  }

  lemma Started(text: seq<bytes>)
    ensures Upto([], text, 0)
  {
    assert text[..0] == [];
  }

  lemma Finished(w: bytes, text: seq<bytes>)
    requires Upto(w, text, |text|)
    ensures w == Concat(text)
  {
    assert text[..|text|] == text;
  }

  lemma StartedAfter(text: seq<bytes>)
    requires text != []
    ensures Upto(text[0], text, 1)
  {
    assert text[..1][1..] == [];
  }

  lemma SmallDecimal(n: nat)
    ensures 10 <= n < 100 ==> Decimal(n) == [48 + n / 10, 48 + n % 10]
    ensures 100 <= n < 1000 ==> Decimal(n) == [48 + n / 100, 48 + n / 10 % 10, 48 + n % 10]
    ensures 1000 <= n < 10000 ==> Decimal(n) == [48 + n / 1000, 48 + n / 100 % 10, 48 + n / 10 % 10, 48 + n % 10]
  {
    assert n / 10 / 10 == n / 100 && n / 100 / 10 == n / 1000;
    if 10 <= n < 100 {
      assert Decimal(n / 10) == [48 + n / 10];
    } else if 100 <= n < 1000 {
      assert Decimal(n / 100) == [48 + n / 100];
      assert Decimal(n / 10) == Decimal(n / 100) + [48 + n / 10 % 10];
    } else if 1000 <= n < 10000 {
      assert Decimal(n / 1000) == [48 + n / 1000];
      assert Decimal(n / 100) == Decimal(n / 1000) + [48 + n / 100 % 10];
      assert Decimal(n / 10) == Decimal(n / 100) + [48 + n / 10 % 10];
    }
  }

  function Pow10(k: nat): nat { if k == 0 then 1 else 10 * Pow10(k - 1) }

  lemma {:induction false} DecimalLength(n: nat, k: nat)
    requires k > 0 && n < Pow10(k)
    ensures |Decimal(n)| <= k
    decreases k
  {
    if n >= 10 { DecimalLength(n / 10, k - 1); }
  }

  lemma TwentyDigits(n: nat)
    requires n < TWO63
    ensures |Decimal(n)| <= 20
  {
    assert Pow10(5) == 100000;
    assert Pow10(10) == 100000 * 100000;
    assert Pow10(15) == 100000 * 100000 * 100000;
    assert Pow10(20) == 100000 * 100000 * 100000 * 100000;
    DecimalLength(n, 20);
  }

  method ManyDigits(n: nat) returns (digits: bytes)
    requires 0 < n < TWO63
    ensures digits == Decimal(n)
  {
    var tmp := new byte[20];
    var i := 20;
    var left: nat := n;
    TwentyDigits(n);
    while left > 0
      invariant 0 <= i <= 20
      invariant left > 0 ==> |Decimal(left)| <= i && Decimal(n) == Decimal(left) + tmp[i..]
      invariant left == 0 ==> Decimal(n) == tmp[i..]
    {
      ghost var tail := tmp[i..];
      i := i - 1;
      tmp[i] := 48 + left % 10;
      assert tmp[i..] == [48 + left % 10] + tail;
      left := left / 10;
    }
    digits := tmp[i..];
  }

  /** The request line and the Host line; an entry that is left out is empty. */
  function LineEntries(r: Request, t: Target): seq<bytes> {
    [ Verb(r) + [SP],
      if t.forwardProxy then HttpScheme() + t.host else [], if t.forwardProxy then PortSuffix(t.port, 80) else [],
      EffectivePath(r) + Version(),
      HostName() + t.host, PortSuffix(t.port, if t.useTLS then 443 else 80), CRLF ]
  }

  /** What follows them: `lines` stands for the two lines already written. */
  function Part1Entries(lines: bytes, t: Target): seq<bytes> { [lines, ConnectionLine(t), EncodingLine(t)] }

  function PrefixEntries(lines: bytes, r: Request, t: Target, proxyAuth: bytes): seq<bytes> {
    [lines, ConnectionLine(t), EncodingLine(t), r.headers, AuthLine(t, proxyAuth), ExpectLine(r.expectContinue)]
  }

  function FullEntries(lines: bytes, r: Request, t: Target, n: nat, proxyAuth: bytes): seq<bytes> {
    [ lines, ConnectionLine(t), EncodingLine(t), r.headers, AuthLine(t, proxyAuth),
      ExpectLine(r.expectContinue && n > 0), LengthLine(n) ]
  }

  lemma {:induction false} ConcatPlus(a: seq<bytes>, b: seq<bytes>)
    ensures Concat(a + b) == Concat(a) + Concat(b)
  {
    if a == [] {
      assert a + b == b;
    } else {
      ConcatPlus(a[1..], b);
      assert (a + b)[0] == a[0] && (a + b)[1..] == a[1..] + b;
      Associates(a[0], Concat(a[1..]), Concat(b));
    }
  }

  lemma ConcatOne(a: bytes)
    ensures Concat([a]) == a
  {
    assert [a][1..] == [];
  }

  lemma ConcatTwo(a: bytes, b: bytes)
    ensures Concat([a, b]) == a + b
  {
    assert [a, b][1..] == [b];
    ConcatOne(b);
  }

  lemma ConcatThree(a: bytes, b: bytes, c: bytes)
    ensures Concat([a, b, c]) == a + b + c
  {
    assert [a, b, c][1..] == [b, c];
    ConcatTwo(b, c);
  }

  lemma LineEntriesAre(r: Request, t: Target)
    ensures Concat(LineEntries(r, t)) == RequestLine(r, t) + HostLine(t)
  {
    hide HttpScheme, Version, HostName, Concat, Verb, EffectivePath, PortSuffix;
    var w := LineEntries(r, t);
    var a, b, c := [w[0], w[1], w[2]], [w[3]], [w[4], w[5], w[6]];
    assert w == a + b + c;
    ConcatPlus(a, b);
    ConcatPlus(a + b, c);
    ConcatThree(w[0], w[1], w[2]);
    ConcatOne(w[3]);
    ConcatThree(w[4], w[5], w[6]);
    assert w[0] + w[1] + w[2] + w[3] == RequestLine(r, t);
    assert w[4] + w[5] + w[6] == HostLine(t);
  }

  lemma Part1EntriesAre(r: Request, t: Target)
    ensures Concat(Part1Entries(Concat(LineEntries(r, t)), t)) == Part1(r, t)
  {
    hide LineEntries, Concat, RequestLine, HostLine, ConnectionLine, EncodingLine;
    LineEntriesAre(r, t);
    ConcatThree(Concat(LineEntries(r, t)), ConnectionLine(t), EncodingLine(t));
  }

  lemma PrefixEntriesAre(r: Request, t: Target, proxyAuth: bytes)
    ensures Concat(PrefixEntries(Concat(LineEntries(r, t)), r, t, proxyAuth)) == Prefix(r, t, proxyAuth)
  {
    hide LineEntries, Concat, Part1, AuthLine, ExpectLine, ConnectionLine, EncodingLine;
    var lines := Concat(LineEntries(r, t));
    var w := PrefixEntries(lines, r, t, proxyAuth);
    assert w == Part1Entries(lines, t) + [w[3], w[4], w[5]];
    Part1EntriesAre(r, t);
    ConcatPlus(Part1Entries(lines, t), [w[3], w[4], w[5]]);
    ConcatThree(w[3], w[4], w[5]);
  }

  lemma FullEntriesAre(r: Request, t: Target, n: nat, proxyAuth: bytes)
    ensures Concat(FullEntries(Concat(LineEntries(r, t)), r, t, n, proxyAuth)) == Full(r, t, n, proxyAuth)
  {
    hide LineEntries, Concat, Part1, AuthLine, ExpectLine, LengthLine, ConnectionLine, EncodingLine;
    var lines := Concat(LineEntries(r, t));
    var w := FullEntries(lines, r, t, n, proxyAuth);
    var a, b := Part1Entries(lines, t), [w[3], w[4], w[5]];
    assert w == a + b + [w[6]];
    Part1EntriesAre(r, t);
    ConcatPlus(a, b);
    ConcatPlus(a + b, [w[6]]);
    ConcatThree(w[3], w[4], w[5]);
    ConcatOne(w[6]);
  }

  /** The entries, as the writes make them. */
  lemma PrefixEntry(lines: bytes, r: Request, t: Target, proxyAuth: bytes)
    ensures var text := PrefixEntries(lines, r, t, proxyAuth);
      && |text| == 6 && text[0] == lines
      && text[1] == (if t.keepAlive then KeepAliveLine() else CloseLine())
      && text[2] == (if t.compressed then GzipLine() else [])
      && text[3] == (if |r.headers| > 0 then r.headers else [])
      && text[4] == (if t.forwardProxy && |proxyAuth| > 0 then proxyAuth else [])
      && text[5] == (if r.expectContinue then ContinueLine() else [])
  {
    hide KeepAliveLine, CloseLine, GzipLine, ContinueLine;
  }

  lemma FullEntry(lines: bytes, r: Request, t: Target, n: nat, proxyAuth: bytes)
    ensures var text := FullEntries(lines, r, t, n, proxyAuth);
      && |text| == 7 && text[0] == lines
      && text[1] == (if t.keepAlive then KeepAliveLine() else CloseLine())
      && text[2] == (if t.compressed then GzipLine() else [])
      && text[3] == (if |r.headers| > 0 then r.headers else [])
      && text[4] == (if t.forwardProxy && |proxyAuth| > 0 then proxyAuth else [])
      && text[5] == (if r.expectContinue && n > 0 then ContinueLine() else [])
      && text[6] == LengthLine(n)
  {
    hide KeepAliveLine, CloseLine, GzipLine, ContinueLine, LengthLine;
  }

  lemma {:induction false} EntryWithin(text: seq<bytes>)
    requires text != []
    ensures |text[0]| <= |Concat(text)|
  {}

  // ---------------------------------------------------------------- the encoders

  /** writeRequest up to the end of the Host line. */
  method RequestLines(buf: array<byte>, r: Request, t: Target) returns (ok: bool, pos: nat)
    requires t.port < TWO63
    modifies buf
    ensures ok ==> pos <= buf.Length && buf[..pos] == Concat(LineEntries(r, t))
    ensures !ok ==> |Concat(LineEntries(r, t))| > buf.Length
  {
    hide HttpScheme, Version, HostName, KeepAliveLine, CloseLine, GzipLine, ContinueLine, LengthName;
    hide DefaultVerb, PortSuffix, Concat;
    ghost var text, w: bytes := LineEntries(r, t), [];
    Started(text);
    hide Upto;
    var verb := if r.verb == [] then DefaultVerb() else r.verb;
    pos := 0;
    assert buf[..0] == [];
    ok, pos, w := PutPair(buf, pos, verb, [SP], w, text, 0);
    if !ok { return; }
    if t.forwardProxy {
      ok, pos, w := PutPair(buf, pos, HttpScheme(), t.host, w, text, 1);
      if !ok { return; }
      ok, pos, w := PutPort(buf, pos, t.port, 80, w, text, 2);
      if !ok { return; }
    } else {
      Skip(w, text, 1);
      Skip(w, text, 2);
    }
    ok, pos, w := PutPair(buf, pos, EffectivePath(r), Version(), w, text, 3);
    if !ok { return; }
    ok, pos, w := PutPair(buf, pos, HostName(), t.host, w, text, 4);
    if !ok { return; }
    ok, pos, w := PutPort(buf, pos, t.port, if t.useTLS then 443 else 80, w, text, 5);
    if !ok { return; }
    ok, pos, w := PutNext(buf, pos, CRLF, w, text, 6);
    if !ok { return; }
    Finished(w, text);
  }

  /** writeRequest from the Connection line to the caller's headers. */
  method RequestFields(buf: array<byte>, pos: nat, r: Request, t: Target, ghost w: bytes, ghost text: seq<bytes>)
    returns (ok: bool, next: nat, ghost w': bytes)
    requires pos <= buf.Length && buf[..pos] == w && Upto(w, text, 1) && |text| > 3
    requires text[1] == if t.keepAlive then KeepAliveLine() else CloseLine()
    requires text[2] == if t.compressed then GzipLine() else []
    requires text[3] == if |r.headers| > 0 then r.headers else []
    modifies buf
    ensures ok ==> next <= buf.Length && buf[..next] == w' && Upto(w', text, 4)
    ensures !ok ==> |Concat(text)| > buf.Length
  {
    hide KeepAliveLine, CloseLine, GzipLine, Concat, Upto;
    next, w' := pos, w;
    ok, next, w' := PutNext(buf, next, if t.keepAlive then KeepAliveLine() else CloseLine(), w', text, 1);
    if !ok { return; }
    ok, next, w' := PutWhen(buf, next, t.compressed, GzipLine(), w', text, 2);
    if !ok { return; }
    ok, next, w' := PutWhen(buf, next, |r.headers| > 0, r.headers, w', text, 3);
  }

  /** writeRequest: succeeds exactly when everything fits the buffer, and then the buffer holds exactly that. */
  method WriteRequest(buf: array<byte>, r: Request, t: Target, n: nat, proxyAuth: bytes) returns (len: nat, ok: bool)
    requires t.port < TWO63 && n < TWO63
    modifies buf
    ensures ok == (|Full(r, t, n, proxyAuth)| <= buf.Length)
    ensures ok ==> len <= buf.Length && buf[..len] == Full(r, t, n, proxyAuth)
  {
    hide HttpScheme, Version, HostName, KeepAliveLine, CloseLine, GzipLine, ContinueLine, LengthName;
    hide DefaultVerb, LineEntries, LengthLine, Concat, FullEntries;
    ghost var w := Concat(LineEntries(r, t));
    ghost var text := FullEntries(w, r, t, n, proxyAuth);
    FullEntriesAre(r, t, n, proxyAuth);
    FullEntry(w, r, t, n, proxyAuth);
    StartedAfter(text);
    EntryWithin(text);
    hide Full, Upto;
    var pos;
    ok, pos := RequestLines(buf, r, t);
    if !ok { return 0, false; }
    ok, pos, w := RequestFields(buf, pos, r, t, w, text);
    if !ok { return 0, false; }
    ok, pos, w := PutWhen(buf, pos, t.forwardProxy && |proxyAuth| > 0, proxyAuth, w, text, 4);
    if !ok { return 0, false; }
    ok, pos, w := PutWhen(buf, pos, r.expectContinue && n > 0, ContinueLine(), w, text, 5);
    if !ok { return 0, false; }
    ok, pos, w := PutLength(buf, pos, n, w, text, 6);
    if !ok { return 0, false; }
    Finished(w, text);
    return pos, true;
  }

  /** writeRequestHeaderPrefix up to the end of the Host line. */
  method PrefixLines(buf: array<byte>, r: Request, t: Target) returns (ok: bool, pos: nat)
    requires t.port < TWO63
    modifies buf
    ensures ok ==> pos <= buf.Length && buf[..pos] == Concat(LineEntries(r, t))
    ensures !ok ==> |Concat(LineEntries(r, t))| > buf.Length
  {
    hide HttpScheme, Version, HostName, KeepAliveLine, CloseLine, GzipLine, ContinueLine, LengthName;
    hide DefaultVerb, PortSuffix, Concat;
    ghost var text, w: bytes := LineEntries(r, t), [];
    Started(text);
    hide Upto;
    var verb := if r.verb == [] then DefaultVerb() else r.verb;
    pos := 0;
    assert buf[..0] == [];
    ok, pos, w := PutPair(buf, pos, verb, [SP], w, text, 0);
    if !ok { return; }
    if t.forwardProxy {
      ok, pos, w := PutPair(buf, pos, HttpScheme(), t.host, w, text, 1);
      if !ok { return; }
      ok, pos, w := PutPort(buf, pos, t.port, 80, w, text, 2);
      if !ok { return; }
    } else {
      Skip(w, text, 1);
      Skip(w, text, 2);
    }
    ok, pos, w := PutPair(buf, pos, EffectivePath(r), Version(), w, text, 3);
    if !ok { return; }
    ok, pos, w := PutPair(buf, pos, HostName(), t.host, w, text, 4);
    if !ok { return; }
    ok, pos, w := PutPort(buf, pos, t.port, if t.useTLS then 443 else 80, w, text, 5);
    if !ok { return; }
    ok, pos, w := PutNext(buf, pos, CRLF, w, text, 6);
    if !ok { return; }
    Finished(w, text);
  }

  /** writeRequestHeaderPrefix from the Connection line to the caller's headers. */
  method PrefixFields(buf: array<byte>, pos: nat, r: Request, t: Target, ghost w: bytes, ghost text: seq<bytes>)
    returns (ok: bool, next: nat, ghost w': bytes)
    requires pos <= buf.Length && buf[..pos] == w && Upto(w, text, 1) && |text| > 3
    requires text[1] == if t.keepAlive then KeepAliveLine() else CloseLine()
    requires text[2] == if t.compressed then GzipLine() else []
    requires text[3] == if |r.headers| > 0 then r.headers else []
    modifies buf
    ensures ok ==> next <= buf.Length && buf[..next] == w' && Upto(w', text, 4)
    ensures !ok ==> |Concat(text)| > buf.Length
  {
    hide KeepAliveLine, CloseLine, GzipLine, Concat, Upto;
    next, w' := pos, w;
    ok, next, w' := PutNext(buf, next, if t.keepAlive then KeepAliveLine() else CloseLine(), w', text, 1);
    if !ok { return; }
    ok, next, w' := PutWhen(buf, next, t.compressed, GzipLine(), w', text, 2);
    if !ok { return; }
    ok, next, w' := PutWhen(buf, next, |r.headers| > 0, r.headers, w', text, 3);
  }

  /** writeRequestHeaderPrefix: succeeds exactly when everything fits the buffer, and then the buffer holds exactly that. */
  method WriteHeaderPrefix(buf: array<byte>, r: Request, t: Target, proxyAuth: bytes) returns (len: nat, ok: bool)
    requires t.port < TWO63
    modifies buf
    ensures ok == (|Prefix(r, t, proxyAuth)| <= buf.Length)
    ensures ok ==> len <= buf.Length && buf[..len] == Prefix(r, t, proxyAuth)
  {
    hide HttpScheme, Version, HostName, KeepAliveLine, CloseLine, GzipLine, ContinueLine, LengthName;
    hide DefaultVerb, LineEntries, LengthLine, Concat, PrefixEntries;
    ghost var w := Concat(LineEntries(r, t));
    ghost var text := PrefixEntries(w, r, t, proxyAuth);
    PrefixEntriesAre(r, t, proxyAuth);
    PrefixEntry(w, r, t, proxyAuth);
    StartedAfter(text);
    EntryWithin(text);
    hide Prefix, Upto;
    var pos;
    ok, pos := PrefixLines(buf, r, t);
    if !ok { return 0, false; }
    ok, pos, w := PrefixFields(buf, pos, r, t, w, text);
    if !ok { return 0, false; }
    ok, pos, w := PutWhen(buf, pos, t.forwardProxy && |proxyAuth| > 0, proxyAuth, w, text, 4);
    if !ok { return 0, false; }
    ok, pos, w := PutWhen(buf, pos, r.expectContinue, ContinueLine(), w, text, 5);
    if !ok { return 0, false; }
    Finished(w, text);
    return pos, true;
  }

  /** writeRequestPart1 up to the end of the Host line. */
  method Part1Lines(buf: array<byte>, r: Request, t: Target) returns (ok: bool, pos: nat)
    requires t.port < TWO63
    modifies buf
    ensures ok ==> pos <= buf.Length && buf[..pos] == Concat(LineEntries(r, t))
    ensures !ok ==> |Concat(LineEntries(r, t))| > buf.Length
  {
    hide HttpScheme, Version, HostName, KeepAliveLine, CloseLine, GzipLine, ContinueLine, LengthName;
    hide DefaultVerb, PortSuffix, Concat;
    ghost var text, w: bytes := LineEntries(r, t), [];
    Started(text);
    hide Upto;
    var verb := if r.verb == [] then DefaultVerb() else r.verb;
    pos := 0;
    assert buf[..0] == [];
    ok, pos, w := PutPair(buf, pos, verb, [SP], w, text, 0);
    if !ok { return; }
    if t.forwardProxy {
      ok, pos, w := PutPair(buf, pos, HttpScheme(), t.host, w, text, 1);
      if !ok { return; }
      ok, pos, w := PutPort(buf, pos, t.port, 80, w, text, 2);
      if !ok { return; }
    } else {
      Skip(w, text, 1);
      Skip(w, text, 2);
    }
    ok, pos, w := PutPair(buf, pos, EffectivePath(r), Version(), w, text, 3);
    if !ok { return; }
    ok, pos, w := PutPair(buf, pos, HostName(), t.host, w, text, 4);
    if !ok { return; }
    ok, pos, w := PutPort(buf, pos, t.port, if t.useTLS then 443 else 80, w, text, 5);
    if !ok { return; }
    ok, pos, w := PutNext(buf, pos, CRLF, w, text, 6);
    if !ok { return; }
    Finished(w, text);
  }

  /** writeRequestPart1: succeeds exactly when everything fits the buffer, and then the buffer holds exactly that. */
  method WritePart1(buf: array<byte>, r: Request, t: Target) returns (len: nat, ok: bool)
    requires t.port < TWO63
    modifies buf
    ensures ok == (|Part1(r, t)| <= buf.Length)
    ensures ok ==> len <= buf.Length && buf[..len] == Part1(r, t)
  {
    hide HttpScheme, Version, HostName, KeepAliveLine, CloseLine, GzipLine, ContinueLine, LengthName;
    hide DefaultVerb, LineEntries, LengthLine, Concat;
    ghost var w := Concat(LineEntries(r, t));
    ghost var text := Part1Entries(w, t);
    Part1EntriesAre(r, t);
    StartedAfter(text);
    EntryWithin(text);
    hide Part1, Upto;
    var pos;
    ok, pos := Part1Lines(buf, r, t);
    if !ok { return 0, false; }
    ok, pos, w := PutNext(buf, pos, if t.keepAlive then KeepAliveLine() else CloseLine(), w, text, 1);
    if !ok { return 0, false; }
    ok, pos, w := PutWhen(buf, pos, t.compressed, GzipLine(), w, text, 2);
    if !ok { return 0, false; }
    Finished(w, text);
    return pos, true;
  }

  /** writeRequestPart3: the same for the end of a head. */
  method WritePart3(buf: array<byte>, r: Request, n: nat, proxyAuth: bytes) returns (len: nat, ok: bool)
    requires n < TWO63
    modifies buf
    ensures ok == (|Part3(r, n, proxyAuth)| <= buf.Length)
    ensures ok ==> len <= buf.Length && buf[..len] == Part3(r, n, proxyAuth)
  {
    hide ContinueLine, LengthLine, Concat;
    ghost var text, w: bytes := [proxyAuth, ExpectLine(r.expectContinue && n > 0), LengthLine(n)], [];
    var pos := 0;
    assert buf[..0] == [];
    Started(text);
    ConcatThree(text[0], text[1], text[2]);
    hide Upto;
    ok, pos, w := PutWhen(buf, pos, |proxyAuth| > 0, proxyAuth, w, text, 0);
    if !ok { return 0, false; }
    ok, pos, w := PutWhen(buf, pos, r.expectContinue && n > 0, ContinueLine(), w, text, 1);
    if !ok { return 0, false; }
    ok, pos, w := PutLength(buf, pos, n, w, text, 2);
    if !ok { return 0, false; }
    Finished(w, text);
    return pos, true;
  }

  /**
   * Connection.writeRequest without a pre-encoded prefix: part 1 from a pooled buffer, the header block as it is,
   * part 3 from a 128-byte buffer, then the body. The wire gets the bytes of writeRequest followed by the body exactly
   * when proxy auth exists only for forward proxies, as on every connection NewConnection builds.
   */
  method SendParts(part1Buf: array<byte>, r: Request, t: Target, body: bytes, proxyAuth: bytes)
    returns (sent: Option<bytes>)
    requires t.port < TWO63 && |body| < TWO63
    modifies part1Buf
    ensures sent.Some? <==> |Part1(r, t)| <= part1Buf.Length && |Part3(r, |body|, proxyAuth)| <= 128
    ensures sent.Some? ==> (sent.value == Full(r, t, |body|, proxyAuth) + body <==> t.forwardProxy || proxyAuth == [])
  {
    hide Part1, Part3, Full;
    var p1, ok := WritePart1(part1Buf, r, t);
    if !ok { return None; }
    var part3Buf := new byte[128];
    var p3;
    p3, ok := WritePart3(part3Buf, r, |body|, proxyAuth);
    if !ok { return None; }
    PartsAgree(r, t, |body|, proxyAuth);
    SameTail(Part1(r, t) + r.headers + Part3(r, |body|, proxyAuth), Full(r, t, |body|, proxyAuth), body);
    return Some(part1Buf[..p1] + r.headers + part3Buf[..p3] + body);
  }

  lemma SameTail(a: bytes, b: bytes, tail: bytes)
    ensures a + tail == b + tail <==> a == b
  {
    if a + tail == b + tail {
      assert a == (a + tail)[..|a|] && b == (b + tail)[..|b|];
    }
  }

  lemma LengthNameSize()
    ensures |LengthName()| == 16
  {}

  /** Connection.writeRequest with a pre-encoded prefix: the 64-byte Content-Length line is never cut short. */
  method SendPreEncoded(prefix: bytes, body: bytes) returns (sent: bytes)
    requires |body| < TWO63
    ensures sent == prefix + LengthLine(|body|) + body
  {
    LengthNameSize();
    hide LengthName, Decimal;
    var line := new byte[64];
    var o := new Out(line);
    TwentyDigits(|body|);
    var _ := o.Put(LengthName());
    var _ := o.PutInt(|body|);
    assert o.Written() == LengthName() + Decimal(|body|);
    var _ := o.Put(BLANK_LINE);
    assert o.Written() == LengthLine(|body|);
    sent := prefix + line[..o.pos] + body;
  }
}
