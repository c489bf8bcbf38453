/** Header blocks made of lines: what was rendered parses back. */
module Blocks {
  import opened Bytes
  import opened Scan
  import opened Headers
  import opened Requests

  // ---------------------------------------------------------------- one header

  predicate Trimmed(s: bytes) { s == [] || (!IsBlank(s[0]) && !IsBlank(s[|s| - 1])) }

  predicate NoColon(s: bytes) { forall i :: 0 <= i < |s| ==> s[i] != COLON }

  /** A header that survives parsing: non-empty, trimmed, and no colon in its name. */
  predicate Plain(h: Header) {
    h.key != [] && h.value != [] && NoColon(h.key) && Trimmed(h.key) && Trimmed(h.value)
  }

  lemma TrimLeftFirst(s: bytes)
    ensures TrimLeft(s) == [] || !IsBlank(TrimLeft(s)[0])
    ensures s != [] && !IsBlank(s[0]) ==> TrimLeft(s) == s
  {}

  lemma {:induction false} TrimRightPrefix(s: bytes)
    ensures |TrimRight(s)| <= |s| && TrimRight(s) == s[..|TrimRight(s)|]
    ensures TrimRight(s) == [] || !IsBlank(TrimRight(s)[|TrimRight(s)| - 1])
    ensures s != [] && !IsBlank(s[|s| - 1]) ==> TrimRight(s) == s
  {
    if s != [] && IsBlank(s[|s| - 1]) {
      TrimRightPrefix(s[..|s| - 1]);
    }
  }

  /** Trimming leaves a string alone exactly when it is trimmed. */
  lemma TrimIdentity(s: bytes)
    ensures Trimmed(Trim(s))
    ensures Trim(s) == s <==> Trimmed(s)
  {
    TrimLeftFirst(s);
    TrimRightPrefix(TrimLeft(s));
  }

  /** The space the writer puts after the colon is trimmed away again. */
  lemma TrimSpace(v: bytes)
    ensures Trim([SP] + v) == Trim(v)
  {
    assert ([SP] + v)[1..] == v;
  }

  lemma FirstColonIs(s: bytes, from: nat, c: nat)
    requires from <= c < |s| && s[c] == COLON && forall i :: from <= i < c ==> s[i] != COLON
    ensures FirstColon(s, from) == c
  {}

  /** A header comes back from its line exactly when it is plain. */
  lemma HeaderComesBack(h: Header)
    ensures Keep(FieldOf(LineOf(h))) == [h] <==> Plain(h)
  {
    if NoColon(h.key) {
      SplitsAtColon(h);
      hide LineOf, FieldOf, Trim;
      TrimIdentity(h.key);
      TrimIdentity(h.value);
      KeepOne(FieldOf(LineOf(h)));
    } else {
      ColonInKey(h);
    }
  }

  lemma SplitsAtColon(h: Header)
    requires NoColon(h.key)
    ensures FieldOf(LineOf(h)) == if h.key == [] then [] else [Header(Trim(h.key), Trim(h.value))]
  {
    var line := LineOf(h);
    var c := |h.key|;
    assert forall i :: 0 <= i < c ==> line[i] == h.key[i];
    FirstColonIs(line, 0, c);
    assert line[..c] == h.key && line[c + 1..] == [SP] + h.value;
    TrimSpace(h.value);
  }

  lemma KeepOne(f: seq<Header>)
    requires |f| <= 1
    ensures Keep(f) == if f != [] && Kept(f[0]) then f else []
  {
    if f != [] { assert f[1..] == []; }
  }

  /** With a colon in its name, a header comes back under a shorter name. */
  lemma ColonInKey(h: Header)
    requires !NoColon(h.key)
    ensures Keep(FieldOf(LineOf(h))) != [h]
  {
    var line := LineOf(h);
    var i :| 0 <= i < |h.key| && h.key[i] == COLON;
    assert line[i] == COLON;
    var c := FirstColon(line, 0);
    assert c <= i;
    TrimShorter(line[..c]);
    KeepOne(FieldOf(line));
  }

  lemma TrimShorter(s: bytes)
    ensures |Trim(s)| <= |s|
  {
    TrimLeftShorter(s);
    TrimRightPrefix(TrimLeft(s));
  }

  lemma {:induction false} TrimLeftShorter(s: bytes)
    ensures |TrimLeft(s)| <= |s|
  {
    if s != [] && IsBlank(s[0]) { TrimLeftShorter(s[1..]); }
  }

  // ---------------------------------------------------------------- a rendered block

  /** What the parser makes of headers that were rendered: each on its own, in order. */
  function Reparsed(hs: seq<Header>): seq<Header> {
    if hs == [] then [] else Keep(FieldOf(LineOf(hs[0]))) + Reparsed(hs[1..])
  }

  lemma CleanLine(h: Header)
    requires Clean(h)
    ensures NoEol(LineOf(h)) && LineOf(h) != []
  {}

  /** No line end inside: a CR or an LF alone does not end a line. */
  predicate OneLine(s: bytes) { forall i :: 0 <= i < |s| - 1 ==> !CrlfAt(s, i) }

  predicate Unbroken(h: Header) { OneLine(h.key) && OneLine(h.value) }

  lemma NoEolIsOneLine(s: bytes)
    requires NoEol(s)
    ensures OneLine(s)
  {}

  lemma CleanIsUnbroken(h: Header)
    requires Clean(h)
    ensures Unbroken(h)
  {
    NoEolIsOneLine(h.key);
    NoEolIsOneLine(h.value);
  }

  lemma UnbrokenLine(h: Header)
    requires Unbroken(h)
    ensures OneLine(LineOf(h)) && |LineOf(h)| >= 2
  {
    var line := LineOf(h);
    forall i | 0 <= i < |line| - 1 ensures !CrlfAt(line, i) {
      if i + 1 < |h.key| {
        assert line[i] == h.key[i] && line[i + 1] == h.key[i + 1] && !CrlfAt(h.key, i);
      } else if i >= |h.key| + 2 {
        var j := i - |h.key| - 2;
        assert line[i] == h.value[j] && line[i + 1] == h.value[j + 1] && !CrlfAt(h.value, j);
      }
    }
  }

  /** The first CR LF after `pre` is the one behind the line. */
  lemma OneLineEnds(pre: bytes, line: bytes, rest: bytes)
    requires OneLine(line)
    ensures NextCrlf(pre + line + CRLF + rest, |pre|) == |pre| + |line|
  {
    var s := pre + line + CRLF + rest;
    var e := |pre| + |line|;
    assert CrlfAt(s, e);
    forall i | |pre| <= i < e ensures !CrlfAt(s, i) {
      assert s[i] == line[i - |pre|];
      if i + 1 < e {
        assert s[i + 1] == line[i - |pre| + 1] && !CrlfAt(line, i - |pre|);
      } else {
        assert s[i + 1] == CR;
      }
    }
  }

  /** After `pre`, a rendered header is one line ending at its own CR LF. */
  lemma LineEnds(s: bytes, pre: bytes, h: Header, rest: bytes)
    requires Unbroken(h) && s == pre + HeaderLine(h) + rest
    ensures NextCrlf(s, |pre|) == |pre| + |LineOf(h)| > |pre| + 1
    ensures s[|pre|..|pre| + |LineOf(h)|] == LineOf(h)
  {
    UnbrokenLine(h);
    hide LineOf, OneLine, NextCrlf;
    assert s == pre + LineOf(h) + CRLF + rest;
    OneLineEnds(pre, LineOf(h), rest);
  }

  lemma Regroup(pre: bytes, hs: seq<Header>, rest: bytes)
    requires hs != []
    ensures pre + Render(hs) + CRLF + rest == pre + HeaderLine(hs[0]) + (Render(hs[1..]) + CRLF + rest)
    ensures pre + Render(hs) + CRLF + rest == (pre + HeaderLine(hs[0])) + Render(hs[1..]) + CRLF + rest
  {
    hide HeaderLine;
  }

  /** The fields of a rendered block, up to the blank line that ends it. */
  lemma {:induction false} FieldsOfRendered(pre: bytes, hs: seq<Header>, rest: bytes)
    requires forall h :: h in hs ==> Unbroken(h)
    ensures Keep(Fields(pre + Render(hs) + CRLF + rest, |pre|)) == Reparsed(hs)
    decreases |hs|
  {
    hide HeaderLine, LineOf, FieldOf, Keep, Unbroken;
    var s := pre + Render(hs) + CRLF + rest;
    if hs == [] {
      assert CrlfAt(s, |pre|);
      assert Keep([]) == [] by { KeepNone(); }
    } else {
      var after := pre + HeaderLine(hs[0]);
      var tail := Render(hs[1..]) + CRLF + rest;
      Regroup(pre, hs, rest);
      LineEnds(s, pre, hs[0], tail);
      LineLength(hs[0]);
      FieldsStep(s, |pre|);
      FieldsOfRendered(after, hs[1..], rest);
      KeepConcat(FieldOf(LineOf(hs[0])), Fields(s, |after|));
    }
  }

  lemma KeepNone()
    ensures Keep([]) == []
  {}

  lemma LineLength(h: Header)
    ensures |HeaderLine(h)| == |LineOf(h)| + 2
  {}

  lemma AtMostOne(h: Header)
    ensures |Keep(FieldOf(LineOf(h)))| <= 1
  {
    KeepOne(FieldOf(LineOf(h)));
  }

  lemma {:induction false} ReparsedLength(hs: seq<Header>)
    ensures |Reparsed(hs)| <= |hs|
  {
    hide FieldOf, Keep, LineOf;
    if hs != [] {
      AtMostOne(hs[0]);
      ReparsedLength(hs[1..]);
    }
  }

  /** Rendered headers come back as they were exactly when every one of them is plain. */
  lemma {:induction false} AllComeBack(hs: seq<Header>)
    ensures Reparsed(hs) == hs <==> forall h :: h in hs ==> Plain(h)
  {
    hide FieldOf, Keep, LineOf, Plain;
    if hs != [] {
      var first := Keep(FieldOf(LineOf(hs[0])));
      AtMostOne(hs[0]);
      HeaderComesBack(hs[0]);
      ReparsedLength(hs[1..]);
      AllComeBack(hs[1..]);
      assert hs == [hs[0]] + hs[1..];
      if Reparsed(hs) == hs {
        assert |first| == 1;
        assert first == (first + Reparsed(hs[1..]))[..1] == [hs[0]];
        assert Reparsed(hs[1..]) == (first + Reparsed(hs[1..]))[1..] == hs[1..];
      }
    }
  }

  /** No blank line at or after the end of `pre` before the one that closes the block. */
  lemma {:induction false} OnlyBlankLine(pre: bytes, hs: seq<Header>, rest: bytes, k: int)
    requires forall h :: h in hs ==> Unbroken(h)
    requires |pre| >= 2 && pre[|pre| - 2..] == CRLF
    requires |pre| + 2 <= k && BlankLineEndsAt(pre + Render(hs) + CRLF + rest, k)
    ensures |pre + Render(hs) + CRLF| <= k
    decreases |hs|
  {
    hide HeaderLine, LineOf, Unbroken;
    if hs != [] {
      var s := pre + Render(hs) + CRLF + rest;
      var after := pre + HeaderLine(hs[0]);
      var tail := Render(hs[1..]) + CRLF + rest;
      Regroup(pre, hs, rest);
      LineEnds(s, pre, hs[0], tail);
      LineLength(hs[0]);
      assert CrlfAt(s, k - 2) && CrlfAt(s, k - 4);
      EndsInCrlf(pre, hs[0]);
      OnlyBlankLine(after, hs[1..], rest, k);
    }
  }

  lemma EndsInCrlf(pre: bytes, h: Header)
    ensures (pre + HeaderLine(h))[|pre + HeaderLine(h)| - 2..] == CRLF
  {}

  /** A first line, headers, and the blank line that ends them. */
  function Block(line: bytes, hs: seq<Header>): bytes { line + CRLF + Render(hs) + CRLF }

  lemma FirstLineEnds(line: bytes, rest: bytes)
    requires OneLine(line)
    ensures NextCrlf(line + CRLF + rest, 0) == |line|
    ensures AfterStatusLine(line + CRLF + rest) == |line + CRLF|
  {
    OneLineEnds([], line, rest);
    assert [] + line + CRLF + rest == line + CRLF + rest;
  }

  /** Whatever follows it, a block parses to what its headers parse to one by one. */
  lemma BlockParses(line: bytes, hs: seq<Header>, rest: bytes)
    requires OneLine(line) && forall h :: h in hs ==> Unbroken(h)
    ensures ParsedHeaders(Block(line, hs) + rest) == Reparsed(hs)
    ensures NextCrlf(Block(line, hs) + rest, 0) == |line|
  {
    hide Render, Unbroken, Keep, Fields, Reparsed, OneLine;
    var s := Block(line, hs) + rest;
    assert s == line + CRLF + (Render(hs) + CRLF + rest);
    FirstLineEnds(line, Render(hs) + CRLF + rest);
    assert s == (line + CRLF) + Render(hs) + CRLF + rest;
    FieldsOfRendered(line + CRLF, hs, rest);
  }

  /** The first blank line of a block is the one that ends it. */
  lemma BlockEnds(line: bytes, hs: seq<Header>, rest: bytes)
    requires OneLine(line) && forall h :: h in hs ==> Unbroken(h)
    ensures HeaderEnd(Block(line, hs) + rest) == |Block(line, hs)|
  {
    hide Unbroken;
    var full := Block(line, hs);
    var s := full + rest;
    BlockCloses(line, hs);
    hide Render, OneLine;
    assert BlankLineEndsAt(s, |full|);
    var e := HeaderEnd(s);
    assert s == line + CRLF + (Render(hs) + CRLF + rest);
    FirstLineEnds(line, Render(hs) + CRLF + rest);
    assert CrlfAt(s, e - 4);
    assert s == (line + CRLF) + Render(hs) + CRLF + rest;
    OnlyBlankLine(line + CRLF, hs, rest, e);
  }

  /** A line end in the first line makes its rest one more header. */
  lemma BrokenFirstLine(line: bytes, x: Header, hs: seq<Header>)
    ensures Block(line + CRLF + LineOf(x), hs) == Block(line, [x] + hs)
  {
    hide LineOf;
    assert ([x] + hs)[0] == x && ([x] + hs)[1..] == hs;
    assert Render([x] + hs) == LineOf(x) + CRLF + Render(hs);
    hide Render;
  }

  // ---------------------------------------------------------------- any first line

  /** Whether the lines from p on include an empty one. */
  predicate BlankFrom(s: bytes, p: nat)
    decreases |s| - p
  {
    var e := NextCrlf(s, p);
    e != -1 && (e == p || BlankFrom(s, e + 2))
  }

  /** The headers a first line brings along, in the lines behind its first line end. */
  function Extra(line: bytes): seq<Header> {
    var e := NextCrlf(line + CRLF, 0);
    if e < 0 then [] else Keep(Fields(line + CRLF, e + 2))
  }

  /** A blank line inside the first line, which ends the headers there. */
  predicate CutShort(line: bytes) {
    var e := NextCrlf(line + CRLF, 0);
    e >= 0 && BlankFrom(line + CRLF, e + 2)
  }

  /** The next line end is the same whatever follows. */
  lemma SameCrlf(line: bytes, tail: bytes, p: nat)
    requires p <= |line|
    ensures var e := NextCrlf(line + CRLF, p);
      p <= e <= |line| && e != |line| - 1 && NextCrlf(line + CRLF + tail, p) == e
  {
    var t, s := line + CRLF, line + CRLF + tail;
    assert CrlfAt(t, |line|);
    var e := NextCrlf(t, p);
    assert t[|line|] == CR;
    assert forall i :: 0 <= i < |t| ==> s[i] == t[i];
    assert CrlfAt(s, e);
    assert forall i :: p <= i < e ==> CrlfAt(s, i) == CrlfAt(t, i);
  }

  lemma {:induction false} FieldsOfFirstLine(line: bytes, tail: bytes, p: nat)
    requires p <= |line| || p == |line| + 2
    ensures var t, s := line + CRLF, line + CRLF + tail;
      Fields(s, p) == Fields(t, p) + (if BlankFrom(t, p) then [] else Fields(s, |line| + 2))
    decreases |line| + 2 - p
  {
    hide *;
    var t, s := line + CRLF, line + CRLF + tail;
    if p > |line| {
      AtTheEnd(line, tail);
    } else {
      SameCrlf(line, tail, p);
      var e := NextCrlf(t, p);
      BlankStep(t, p);
      if e == p {
        FieldsEnd(s, p);
        FieldsEnd(t, p);
      } else {
        SameSlice(line, tail, p, e);
        FieldsOfFirstLine(line, tail, e + 2);
        FieldsStep(s, p);
        FieldsStep(t, p);
        Associates(FieldOf(t[p..e]), Fields(t, e + 2), if BlankFrom(t, p) then [] else Fields(s, |line| + 2));
      }
    }
  }

  lemma AtTheEnd(line: bytes, tail: bytes)
    ensures Fields(line + CRLF, |line| + 2) == [] && !BlankFrom(line + CRLF, |line| + 2)
    ensures Fields(line + CRLF + tail, |line| + 2) == [] + Fields(line + CRLF + tail, |line| + 2)
  {}

  lemma BlankStep(s: bytes, p: nat)
    requires NextCrlf(s, p) != -1
    ensures BlankFrom(s, p) <==> NextCrlf(s, p) == p || BlankFrom(s, NextCrlf(s, p) + 2)
  {}

  lemma SameSlice(line: bytes, tail: bytes, p: nat, e: nat)
    requires p <= e <= |line| + 2
    ensures |line + CRLF| == |line| + 2 && (line + CRLF + tail)[p..e] == (line + CRLF)[p..e]
  {}

  /** Whatever its first line, a block parses to what that line brings along and then, unless cut short, its headers. */
  lemma AnyBlockParses(line: bytes, hs: seq<Header>, rest: bytes)
    requires forall h :: h in hs ==> Unbroken(h)
    ensures ParsedHeaders(Block(line, hs) + rest) == Extra(line) + (if CutShort(line) then [] else Reparsed(hs))
  {
    hide Render, Unbroken, Fields, Reparsed, BlankFrom, NextCrlf, Keep;
    var tail := Render(hs) + CRLF + rest;
    var t, s := line + CRLF, line + CRLF + tail;
    assert s == Block(line, hs) + rest;
    SameCrlf(line, tail, 0);
    var e := NextCrlf(t, 0);
    FieldsOfFirstLine(line, tail, e + 2);
    assert s == t + Render(hs) + CRLF + rest;
    FieldsOfRendered(t, hs, rest);
    KeepConcat(Fields(t, e + 2), if CutShort(line) then [] else Fields(s, |line| + 2));
    KeepNone();
  }

  lemma {:induction false} TrimWithin(s: bytes)
    ensures forall b :: b in Trim(s) ==> b in s
  {
    TrimLeftWithin(s);
    TrimRightPrefix(TrimLeft(s));
  }

  lemma {:induction false} TrimLeftWithin(s: bytes)
    ensures forall b :: b in TrimLeft(s) ==> b in s
  {
    if s != [] && IsBlank(s[0]) { TrimLeftWithin(s[1..]); }
  }

  /** What the parser keeps of a line is plain. */
  lemma KeptIsPlain(line: bytes)
    ensures forall h :: h in FieldOf(line) && Kept(h) ==> Plain(h)
  {
    var c := FirstColon(line, 0);
    if 0 < c < |line| {
      TrimWithin(line[..c]);
      TrimIdentity(line[..c]);
      TrimIdentity(line[c + 1..]);
      hide Trim;
      assert forall b :: b in line[..c] ==> b != COLON;
      var key := Trim(line[..c]);
      forall i | 0 <= i < |key| ensures key[i] != COLON { assert key[i] in key; }
    }
  }

  lemma {:induction false} AllKeptPlain(s: bytes, p: nat)
    ensures forall h :: h in Keep(Fields(s, p)) ==> Plain(h)
    decreases |s| - p
  {
    hide FieldOf, Plain, Kept;
    var e := NextCrlf(s, p);
    if e != -1 && e != p {
      KeptIsPlain(s[p..e]);
      AllKeptPlain(s, e + 2);
      KeepConcat(FieldOf(s[p..e]), Fields(s, e + 2));
      KeepWithin(FieldOf(s[p..e]));
    }
  }

  lemma {:induction false} KeepWithin(hs: seq<Header>)
    ensures forall h :: h in Keep(hs) ==> h in hs && Kept(h)
  {
    if hs != [] { KeepWithin(hs[1..]); }
  }

  lemma ParsedIsPlain(s: bytes)
    ensures forall h :: h in ParsedHeaders(s) ==> Plain(h)
  {
    AllKeptPlain(s, AfterStatusLine(s));
    hide Keep, Fields, Plain;
  }

  /**
   * The headers of a block come back, whatever its first line, exactly when they are all plain and the first line brings
   * no header along, or when the first line is cut short and brings along exactly these.
   */
  lemma BlockComesBack(line: bytes, hs: seq<Header>, rest: bytes)
    requires forall h :: h in hs ==> Unbroken(h)
    ensures ParsedHeaders(Block(line, hs) + rest) == hs <==>
      if CutShort(line) then Extra(line) == hs else Extra(line) == [] && forall h :: h in hs ==> Plain(h)
  {
    hide ParsedHeaders, Block, Extra, CutShort, Reparsed, Plain, Unbroken;
    AnyBlockParses(line, hs, rest);
    ParsedIsPlain(Block(line, hs) + rest);
    AllComeBack(hs);
    assert Extra(line) + [] == Extra(line);
  }

  lemma BlockCloses(line: bytes, hs: seq<Header>)
    ensures BlankLineEndsAt(Block(line, hs), |Block(line, hs)|)
  {
    RenderCloses(hs);
    hide Render;
    if hs != [] {
      var r := Render(hs);
      assert Block(line, hs) == line + CRLF + r[..|r| - 2] + CRLF + CRLF;
    } else {
      assert Block(line, hs) == line + CRLF + CRLF;
    }
  }

  lemma {:induction false} RenderCloses(hs: seq<Header>)
    ensures if hs == [] then Render(hs) == [] else |Render(hs)| >= 2 && Render(hs)[|Render(hs)| - 2..] == CRLF
  {
    if hs != [] {
      RenderCloses(hs[1..]);
      assert Render(hs) == HeaderLine(hs[0]) + Render(hs[1..]);
      if hs[1..] == [] { EndsInCrlf([], hs[0]); }
      assert [] + HeaderLine(hs[0]) == HeaderLine(hs[0]);
    }
  }
}
