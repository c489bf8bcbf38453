/** Where a header name can be found in text made of lines. */
module LineSearch {
  import opened Bytes
  import opened Scan
  import opened Headers
  import opened Requests
  import opened Blocks

  function Text(lines: seq<bytes>): bytes {
    if lines == [] then [] else lines[0] + CRLF + Text(lines[1..])
  }

  function Lines(hs: seq<Header>): seq<bytes> { seq(|hs|, i requires 0 <= i < |hs| => LineOf(hs[i])) }

  predicate Mentions(line: bytes, pat: bytes)
    requires pat != []
  {
    FindFold(line, 0, pat) < |line|
  }

  /** The first line that holds `pat` in any letter case. */
  function FirstMention(lines: seq<bytes>, pat: bytes): Option<bytes>
    requires pat != []
  {
    if lines == [] then None
    else if Mentions(lines[0], pat) then Some(lines[0])
    else FirstMention(lines[1..], pat)
  }

  lemma {:induction false} FirstMentionConcat(a: seq<bytes>, b: seq<bytes>, pat: bytes)
    requires pat != []
    ensures FirstMention(a + b, pat) == if FirstMention(a, pat).Some? then FirstMention(a, pat) else FirstMention(b, pat)
  {
    hide Mentions;
    if a == [] {
      assert a + b == b;
    } else {
      FirstMentionConcat(a[1..], b, pat);
      assert (a + b)[0] == a[0] && (a + b)[1..] == a[1..] + b;
    }
  }

  /** Silent lines in between do not change what is mentioned first. */
  lemma SilentLinesDrop(a: seq<bytes>, x: seq<bytes>, b: seq<bytes>, y: seq<bytes>, c: seq<bytes>, pat: bytes)
    requires pat != [] && FirstMention(x, pat) == None && FirstMention(y, pat) == None
    ensures FirstMention(a + x + b + y + c, pat) ==
      if FirstMention(a + b, pat).Some? then FirstMention(a + b, pat) else FirstMention(c, pat)
  {
    hide FirstMention;
    FirstMentionConcat(a, x, pat);
    FirstMentionConcat(a + x, b, pat);
    FirstMentionConcat(a + x + b, y, pat);
    FirstMentionConcat(a + x + b + y, c, pat);
    FirstMentionConcat(a, b, pat);
  }

  lemma {:induction false} RenderIsText(hs: seq<Header>)
    ensures Render(hs) == Text(Lines(hs))
  {
    hide LineOf;
    if hs != [] {
      RenderIsText(hs[1..]);
      assert Lines(hs)[1..] == Lines(hs[1..]);
    }
  }

  /** A line inside a text. */
  function Around(a: bytes, line: bytes, b: bytes): (s: bytes)
    ensures |s| == |a| + |line| + 2 + |b|
  {
    a + line + CRLF + b
  }

  lemma FoldHasNoEol(s: bytes, i: nat, pat: bytes, k: nat)
    requires FoldAt(s, i, pat) && NoEol(pat) && i <= k < i + |pat|
    ensures !IsEol(s[k])
  {
    assert Lower(s[i + (k - i)]) == pat[k - i];
  }

  /** A match cannot cross a line end. */
  lemma FoldInLine(a: bytes, line: bytes, b: bytes, i: nat, pat: bytes)
    requires NoEol(line) && NoEol(pat) && pat != [] && |a| <= i < |a| + |line| + 2
    ensures FoldAt(Around(a, line, b), i, pat) <==> FoldAt(line, i - |a|, pat)
  {
    var s := Around(a, line, b);
    var e := |a| + |line|;
    assert s[e] == CR && s[e + 1] == LF;
    if FoldAt(s, i, pat) {
      forall k | i <= k < i + |pat| ensures !IsEol(s[k]) { FoldHasNoEol(s, i, pat, k); }
      assert i != e + 1;
      assert i + |pat| <= e;
      forall j | 0 <= j < |pat| ensures Lower(line[i - |a| + j]) == pat[j] { assert line[i - |a| + j] == s[i + j]; }
    }
    if FoldAt(line, i - |a|, pat) {
      forall j | 0 <= j < |pat| ensures Lower(s[i + j]) == pat[j] { assert line[i - |a| + j] == s[i + j]; }
    }
  }

  lemma FoldStarts(s: bytes, i: nat, pat: bytes)
    requires FoldAt(s, i, pat) && pat != []
    ensures Lower(s[i]) == pat[0]
  {
    assert Lower(s[i + 0]) == pat[0];
  }

  lemma FindFoldIs(s: bytes, k: nat, pat: bytes)
    requires pat != [] && FoldAt(s, k, pat) && forall i :: 0 <= i < k ==> !FoldAt(s, i, pat)
    ensures FindFold(s, 0, pat) == k
  {}

  // ---------------------------------------------------------------- the length a text announces

  lemma MentionFits(line: bytes, pat: bytes)
    requires pat != [] && Mentions(line, pat)
    ensures FindFold(line, 0, pat) + |pat| <= |line|
  {}

  /** What follows the first occurrence of `pat` in a line. */
  function After(line: bytes, pat: bytes): bytes
    requires pat != [] && Mentions(line, pat)
  {
    line[FindFold(line, 0, pat) + |pat|..]
  }

  /** What the first content-length: of a line announces. */
  function AnnouncedLength(line: bytes): Option<int> {
    if Mentions(line, CONTENT_LENGTH) then LengthField(After(line, CONTENT_LENGTH)) else None
  }

  lemma PatternIsPlain()
    ensures NoEol(CONTENT_LENGTH) && |CONTENT_LENGTH| == 15 && CONTENT_LENGTH[14] == COLON
  {}

  lemma FindsMention(a: bytes, line: bytes, b: bytes, pat: bytes)
    requires pat != [] && NoEol(pat) && NoEol(line) && Mentions(line, pat)
    requires forall i :: 0 <= i < |a| ==> !FoldAt(Around(a, line, b), i, pat)
    ensures FindFold(Around(a, line, b), 0, pat) == |a| + FindFold(line, 0, pat)
  {
    var s := Around(a, line, b);
    var at := FindFold(line, 0, pat);
    hide FoldAt, Around;
    forall i | 0 <= i <= |a| + at ensures FoldAt(s, i, pat) <==> i == |a| + at {
      if i >= |a| { FoldInLine(a, line, b, i, pat); }
    }
    FindFoldIs(s, |a| + at, pat);
  }

  lemma SameSlice(s: bytes, from: nat, e: nat, t: bytes, at: nat)
    requires from <= e <= |s| && at <= |t| && e - from == |t| - at
    requires forall k :: from <= k < e ==> s[k] == t[k - from + at]
    ensures s[from..e] == t[at..]
  {}

  function ToLineEnd(s: bytes, i: nat): bytes
    requires i <= |s|
  {
    s[i..ToEol(s, i)]
  }

  lemma LineInside(a: bytes, line: bytes, b: bytes, k: nat)
    requires k <= |line|
    ensures Around(a, line, b)[|a| + k] == if k < |line| then line[k] else CR
  {}

  lemma RestOfLine(a: bytes, line: bytes, b: bytes, at: nat)
    requires NoEol(line) && at <= |line|
    ensures ToLineEnd(Around(a, line, b), |a| + at) == line[at..]
  {
    hide NoEol, ToLineEnd, Around;
    var s, from, e := Around(a, line, b), |a| + at, |a| + |line|;
    LineInside(a, line, b, |line|);
    forall k | from <= k < e ensures s[k] == line[k - from + at] {
      LineInside(a, line, b, k - |a|);
    }
    LineSlice(s, from, e, line, at);
  }

  lemma LineEndsAt(a: bytes, line: bytes, b: bytes, at: nat)
    requires NoEol(line) && at <= |line|
    ensures ToEol(Around(a, line, b), |a| + at) == |a| + |line|
  {
    hide ToEol, Around;
    var s, from, e := Around(a, line, b), |a| + at, |a| + |line|;
    LineInside(a, line, b, |line|);
    forall k | from <= k < e ensures !IsEol(s[k]) {
      LineInside(a, line, b, k - |a|);
    }
    ToEolUnique(s, from, e);
  }

  lemma LineSlice(s: bytes, from: nat, e: nat, line: bytes, at: nat)
    requires NoEol(line) && from <= e < |s| && at <= |line| && e - from == |line| - at && s[e] == CR
    requires forall k :: from <= k < e ==> s[k] == line[k - from + at]
    ensures ToLineEnd(s, from) == line[at..]
  {
    ToEolUnique(s, from, e);
    SameSlice(s, from, e, line, at);
  }

  lemma AfterMention(a: bytes, line: bytes, b: bytes, pat: bytes) returns (i: nat)
    requires pat != [] && NoEol(pat) && NoEol(line) && Mentions(line, pat)
    requires forall i :: 0 <= i < |a| ==> !FoldAt(Around(a, line, b), i, pat)
    ensures i == FindFold(Around(a, line, b), 0, pat) + |pat|
    ensures i <= |Around(a, line, b)| && ToLineEnd(Around(a, line, b), i) == After(line, pat)
  {
    var at := FindFold(line, 0, pat) + |pat|;
    MentionFits(line, pat);
    FindsMention(a, line, b, pat);
    RestOfLine(a, line, b, at);
    hide FoldAt, FindFold, ToLineEnd, Mentions, Around, NoEol;
    i := |a| + at;
  }

  lemma AnnouncedBy(a: bytes, line: bytes, b: bytes)
    requires NoEol(line) && Mentions(line, CONTENT_LENGTH)
    requires forall i :: 0 <= i < |a| ==> !FoldAt(Around(a, line, b), i, CONTENT_LENGTH)
    ensures ContentLength(Around(a, line, b)) == AnnouncedLength(line)
  {
    PatternIsPlain();
    var i := AfterMention(a, line, b, CONTENT_LENGTH);
    hide Around, FoldAt, LengthField, NoEol, FindFold, Mentions, After;
    var s := Around(a, line, b);
    assert ContentLength(s) == LengthField(ToLineEnd(s, i));
  }

  /** The first line that mentions a length decides it. */
  lemma {:induction false} LengthOfText(a: bytes, lines: seq<bytes>, b: bytes)
    requires forall l :: l in lines ==> NoEol(l)
    requires forall i :: 0 <= i < |a| ==> !FoldAt(a + Text(lines) + b, i, CONTENT_LENGTH)
    requires FirstMention(lines, CONTENT_LENGTH).Some?
    ensures ContentLength(a + Text(lines) + b) == AnnouncedLength(FirstMention(lines, CONTENT_LENGTH).value)
    decreases |lines|
  {
    PatternIsPlain();
    hide ContentLength, AnnouncedLength, FoldAt, FindFold, NoEol;
    var line, rest := lines[0], Text(lines[1..]) + b;
    var s := a + Text(lines) + b;
    assert s == Around(a, line, rest);
    if Mentions(line, CONTENT_LENGTH) {
      AnnouncedBy(a, line, rest);
    } else {
      var a' := a + line + CRLF;
      assert s == a' + Text(lines[1..]) + b;
      forall i | 0 <= i < |a'| ensures !FoldAt(s, i, CONTENT_LENGTH) {
        if i >= |a| { NotInLine(a, line, rest, i, CONTENT_LENGTH); }
      }
      LengthOfText(a', lines[1..], b);
    }
  }

  lemma NotInLine(a: bytes, line: bytes, b: bytes, i: nat, pat: bytes)
    requires pat != [] && NoEol(pat) && NoEol(line) && !Mentions(line, pat) && |a| <= i < |a| + |line| + 2
    ensures !FoldAt(Around(a, line, b), i, pat)
  {
    FoldInLine(a, line, b, i, pat);
  }

  /** Text whose lines do not mention a name does not hold it anywhere. */
  lemma {:induction false} NotInText(a: bytes, lines: seq<bytes>, b: bytes, i: nat, pat: bytes)
    requires pat != [] && NoEol(pat) && (forall l :: l in lines ==> NoEol(l)) && FirstMention(lines, pat) == None
    requires |a| <= i < |a| + |Text(lines)|
    ensures !FoldAt(a + Text(lines) + b, i, pat)
    decreases |lines|
  {
    hide FoldAt, Mentions, NoEol;
    var line, rest := lines[0], Text(lines[1..]) + b;
    var s := a + Text(lines) + b;
    assert s == Around(a, line, rest);
    if i < |a| + |line| + 2 {
      NotInLine(a, line, rest, i, pat);
    } else {
      var a' := a + line + CRLF;
      assert s == a' + Text(lines[1..]) + b;
      NotInText(a', lines[1..], b, i, pat);
    }
  }

  lemma CleanLines(line: bytes, hs: seq<Header>)
    requires NoEol(line) && forall h :: h in hs ==> Clean(h)
    ensures forall l :: l in [line] + Lines(hs) ==> NoEol(l)
  {
    forall l | l in [line] + Lines(hs) ensures NoEol(l) {
      if l != line {
        var i :| 0 <= i < |hs| && l == LineOf(hs[i]);
        CleanLine(hs[i]);
      }
    }
  }

  lemma BlockIsText(line: bytes, hs: seq<Header>)
    ensures Block(line, hs) == Text([line] + Lines(hs)) + CRLF
  {
    RenderIsText(hs);
    hide Lines;
    assert ([line] + Lines(hs))[1..] == Lines(hs);
  }

  lemma TransferPatternIsPlain()
    ensures NoEol(TRANSFER_ENCODING) && |TRANSFER_ENCODING| == 18 && TRANSFER_ENCODING[17] == COLON
  {}

  /** A block is chunked only if one of its lines mentions transfer-encoding:. */
  lemma SilentBlockIsNotChunked(line: bytes, hs: seq<Header>)
    requires NoEol(line) && forall h :: h in hs ==> Clean(h)
    requires FirstMention([line] + Lines(hs), TRANSFER_ENCODING) == None
    ensures !ChunkedAnnounced(Block(line, hs))
  {
    var lines, s := [line] + Lines(hs), Block(line, hs);
    TransferPatternIsPlain();
    CleanLines(line, hs);
    BlockIsText(line, hs);
    hide Block, FoldAt, FirstMention, NoEol, Text;
    assert [] + Text(lines) + CRLF == s;
    forall i | 0 <= i && i + 18 <= |s| ensures !FoldAt(s, i, TRANSFER_ENCODING) {
      NotInText([], lines, CRLF, i, TRANSFER_ENCODING);
    }
  }

  /** A line that holds transfer-encoding: and later chunked makes a text chunked. */
  lemma ChunkedLineAnnounces(a: bytes, line: bytes, b: bytes, j: nat)
    requires NoEol(line) && FoldAt(line, 0, TRANSFER_ENCODING) && 18 <= j && j + 7 <= |line| && FoldAt(line, j, CHUNKED)
    ensures ChunkedAnnounced(Around(a, line, b))
  {
    var s := Around(a, line, b);
    TransferPatternIsPlain();
    ChunkedPatternIsPlain();
    LineEndsAt(a, line, b, 18);
    hide FoldAt, NoEol, ToEol, Around;
    FoldInLine(a, line, b, |a|, TRANSFER_ENCODING);
    FoldInLine(a, line, b, |a| + j, CHUNKED);
    assert ChunkedWithin(s, |a| + 18, ToEol(s, |a| + 18));
  }

  /** The line holds transfer-encoding: and later chunked, both in any letter case. */
  ghost predicate SaysChunked(line: bytes) { exists i :: ChunkedFrom(line, i) }

  ghost predicate ChunkedFrom(line: bytes, i: int) {
    FoldAt(line, i, TRANSFER_ENCODING) && exists j :: i + 18 <= j && FoldAt(line, j, CHUNKED)
  }

  ghost predicate AnnouncesFrom(s: bytes, i: int) {
    0 <= i && i + 18 <= |s| && FoldAt(s, i, TRANSFER_ENCODING) && ChunkedWithin(s, i + 18, ToEol(s, i + 18))
  }

  /** The line a position of a text is in, and what is around that line. */
  lemma {:induction false} Locate(a: bytes, lines: seq<bytes>, b: bytes, i: nat)
    returns (k: nat, pre: bytes, post: bytes)
    requires |a| <= i < |a| + |Text(lines)|
    ensures k < |lines| && a + Text(lines) + b == Around(pre, lines[k], post)
    ensures |pre| <= i < |pre| + |lines[k]| + 2
    decreases |lines|
  {
    var line, rest := lines[0], Text(lines[1..]) + b;
    assert a + Text(lines) + b == Around(a, line, rest);
    if i < |a| + |line| + 2 {
      k, pre, post := 0, a, rest;
    } else {
      var a' := a + line + CRLF;
      assert a + Text(lines) + b == a' + Text(lines[1..]) + b;
      k, pre, post := Locate(a', lines[1..], b, i);
      k := k + 1;
    }
  }

  /** What is around a given line of a text. */
  lemma {:induction false} Surround(a: bytes, lines: seq<bytes>, b: bytes, k: nat) returns (pre: bytes, post: bytes)
    requires k < |lines|
    ensures a + Text(lines) + b == Around(pre, lines[k], post)
    decreases |lines|
  {
    var line, rest := lines[0], Text(lines[1..]) + b;
    assert a + Text(lines) + b == Around(a, line, rest);
    if k == 0 {
      pre, post := a, rest;
    } else {
      var a' := a + line + CRLF;
      assert a + Text(lines) + b == a' + Text(lines[1..]) + b;
      pre, post := Surround(a', lines[1..], b, k - 1);
    }
  }

  /** Whether a position of a line announces chunks is up to that line. */
  lemma ChunkedInLine(a: bytes, line: bytes, b: bytes, at: nat)
    requires NoEol(line) && at < |line| + 2
    ensures AnnouncesFrom(Around(a, line, b), |a| + at) <==> ChunkedFrom(line, at)
  {
    var s, i := Around(a, line, b), |a| + at;
    TransferPatternIsPlain();
    ChunkedPatternIsPlain();
    hide NoEol, ToEol, Around;
    FoldInLine(a, line, b, i, TRANSFER_ENCODING);
    if FoldAt(line, at, TRANSFER_ENCODING) {
      LineEndsAt(a, line, b, at + 18);
      hide FoldAt;
      if ChunkedWithin(s, i + 18, |a| + |line|) {
        var j :| i + 18 <= j && j + 7 <= |a| + |line| && FoldAt(s, j, CHUNKED);
        FoldInLine(a, line, b, j, CHUNKED);
        assert FoldAt(line, j - |a|, CHUNKED);
      }
      if j :| at + 18 <= j && FoldAt(line, j, CHUNKED) {
        FoldFits(line, j, CHUNKED);
        FoldInLine(a, line, b, |a| + j, CHUNKED);
        assert ChunkedWithin(s, i + 18, |a| + |line|);
      }
    }
  }

  lemma FoldFits(s: bytes, i: int, pat: bytes)
    requires FoldAt(s, i, pat)
    ensures 0 <= i && i + |pat| <= |s|
  {}

  /** A block is chunked exactly when one of its lines says so. */
  lemma ChunkedOfBlock(line: bytes, hs: seq<Header>)
    requires NoEol(line) && forall h :: h in hs ==> Clean(h)
    ensures ChunkedAnnounced(Block(line, hs)) <==> exists l :: l in [line] + Lines(hs) && SaysChunked(l)
  {
    var lines, s := [line] + Lines(hs), Block(line, hs);
    CleanLines(line, hs);
    BlockIsText(line, hs);
    assert [] + Text(lines) + CRLF == s;
    AnnouncedSomewhere(s);
    hide *;
    if i :| AnnouncesFrom(s, i) {
      SomeLineSaysChunked(lines, s, i);
    }
    if l :| l in lines && SaysChunked(l) {
      SayingLineAnnounces(lines, s, l);
    }
  }

  lemma SomeLineSaysChunked(lines: seq<bytes>, s: bytes, i: int)
    requires s == [] + Text(lines) + CRLF && AnnouncesFrom(s, i)
    requires forall l :: l in lines ==> NoEol(l)
    ensures exists l :: l in lines && SaysChunked(l)
  {
    AnnouncesInside(s, i);
    hide NoEol, Text, Around, AnnouncesFrom, ChunkedFrom;
    var k, pre, post := Locate([], lines, CRLF, i);
    ChunkedInLine(pre, lines[k], post, i - |pre|);
    assert lines[k] in lines && SaysChunked(lines[k]);
  }

  lemma SayingLineAnnounces(lines: seq<bytes>, s: bytes, l: bytes)
    requires s == [] + Text(lines) + CRLF && l in lines && SaysChunked(l)
    requires forall m :: m in lines ==> NoEol(m)
    ensures exists i :: AnnouncesFrom(s, i)
  {
    hide NoEol, Text, Around, AnnouncesFrom, ChunkedFrom;
    var k :| 0 <= k < |lines| && lines[k] == l;
    var i :| ChunkedFrom(l, i);
    var pre, post := Surround([], lines, CRLF, k);
    ChunkedInside(l, i);
    ChunkedInLine(pre, l, post, i);
    assert AnnouncesFrom(s, |pre| + i);
  }

  lemma AnnouncedSomewhere(s: bytes)
    ensures ChunkedAnnounced(s) <==> exists i :: AnnouncesFrom(s, i)
  {
    hide FoldAt, ChunkedWithin, ToEol;
    if ChunkedAnnounced(s) {
      var i :| 0 <= i && i + 18 <= |s| && FoldAt(s, i, TRANSFER_ENCODING) && ChunkedWithin(s, i + 18, ToEol(s, i + 18));
      assert AnnouncesFrom(s, i);
    }
  }

  lemma AnnouncesInside(s: bytes, i: int)
    requires AnnouncesFrom(s, i)
    ensures 0 <= i && i + 18 <= |s|
  {}

  lemma ChunkedInside(line: bytes, i: int)
    requires ChunkedFrom(line, i)
    ensures 0 <= i < |line|
  {
    TransferPatternIsPlain();
    FoldFits(line, i, TRANSFER_ENCODING);
  }

  lemma ChunkedPatternIsPlain()
    ensures NoEol(CHUNKED) && |CHUNKED| == 7
  {}

  /** A block announces the length of the first of its lines that mentions one, and none if no line does. */
  lemma LengthOfBlock(line: bytes, hs: seq<Header>, rest: bytes)
    requires NoEol(line) && forall h :: h in hs ==> Clean(h)
    ensures var l := FirstMention([line] + Lines(hs), CONTENT_LENGTH);
      && (l.Some? ==> ContentLength(Block(line, hs) + rest) == AnnouncedLength(l.value))
      && (l.None? ==> ContentLength(Block(line, hs)) == None)
  {
    var lines := [line] + Lines(hs);
    if FirstMention(lines, CONTENT_LENGTH).None? {
      SilentBlockHasNoLength(line, hs);
    } else {
      hide ContentLength, AnnouncedLength, FoldAt, FirstMention;
      RenderIsText(hs);
      assert lines[1..] == Lines(hs);
      assert Block(line, hs) + rest == [] + Text(lines) + (CRLF + rest);
      CleanLines(line, hs);
      LengthOfText([], lines, CRLF + rest);
    }
  }

  lemma SilentBlockHasNoLength(line: bytes, hs: seq<Header>)
    requires NoEol(line) && forall h :: h in hs ==> Clean(h)
    requires FirstMention([line] + Lines(hs), CONTENT_LENGTH) == None
    ensures ContentLength(Block(line, hs)) == None
  {
    var lines, s := [line] + Lines(hs), Block(line, hs);
    PatternIsPlain();
    CleanLines(line, hs);
    BlockIsText(line, hs);
    hide Block, FoldAt, FirstMention, NoEol, Text;
    assert [] + Text(lines) + CRLF == s;
    if FindFold(s, 0, CONTENT_LENGTH) < |s| {
      NotInText([], lines, CRLF, FindFold(s, 0, CONTENT_LENGTH), CONTENT_LENGTH);
    }
  }

  lemma ShortNameIsSilent(h: Header, pat: bytes)
    requires pat != [] && pat[|pat| - 1] == COLON
    requires NoColon(h.key) && NoColon(h.value) && |h.key| < |pat| - 1
    ensures !Mentions(LineOf(h), pat)
  {
    var at := FindFold(LineOf(h), 0, pat);
    if at < |LineOf(h)| { MentionEndsName(h, at, pat); }
  }

  /** With no colon elsewhere, a line mentions a name only through the end of its own. */
  lemma MentionEndsName(h: Header, i: nat, pat: bytes)
    requires pat != [] && pat[|pat| - 1] == COLON
    requires NoColon(h.key) && NoColon(h.value) && FoldAt(LineOf(h), i, pat)
    ensures i + |pat| - 1 == |h.key|
  {
    var line, k := LineOf(h), |pat| - 1;
    assert Lower(line[i + k]) == pat[k];
    assert line[i + k] == COLON;
    assert forall j :: 0 <= j < |h.key| ==> line[j] == h.key[j];
    assert forall j :: 0 <= j < |h.value| ==> line[|h.key| + 2 + j] == h.value[j];
  }
}
