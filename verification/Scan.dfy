/** The read-only scanners of parser.go: header end, status code, Content-Length, Transfer-Encoding. */
module Scan {
  import opened Bytes

  // ---------------------------------------------------------------- header end

  predicate BlankLineEndsAt(s: bytes, e: int) {
    4 <= e <= |s| && s[e - 4] == CR && s[e - 3] == LF && s[e - 2] == CR && s[e - 1] == LF
  }

  /** The naive search: the end of the first CR LF CR LF, or -1. */
  function HeaderEnd(s: bytes): (e: int)
    ensures e == -1 || BlankLineEndsAt(s, e)
    ensures forall k :: BlankLineEndsAt(s, k) ==> 0 <= e <= k
  {
    if |s| < 4 then -1
    else if BlankLineEndsAt(s, 4) then 4
    else
      var r := HeaderEnd(s[1..]);
      assert forall k :: BlankLineEndsAt(s, k) && k != 4 ==> BlankLineEndsAt(s[1..], k - 1);
      if r < 0 then -1 else r + 1
  }

  /** findHeaderEnd: the scan that steps over a whole CR LF pair finds what the naive search finds. */
  method FindHeaderEnd(buf: bytes) returns (e: int)
    ensures e == HeaderEnd(buf)
  {
    if |buf| < 4 { return -1; }
    var i := 0;
    while i + 3 < |buf|
      invariant 0 <= i
      invariant forall k :: BlankLineEndsAt(buf, k) ==> i + 4 <= k
    {
      if buf[i] == CR {
        if buf[i + 1] == LF && buf[i + 2] == CR && buf[i + 3] == LF {
          assert BlankLineEndsAt(buf, i + 4);
          return i + 4;
        }
        if i + 1 < |buf| && buf[i + 1] == LF {
          i := i + 1;
        }
      }
      i := i + 1;
    }
    return -1;
  }

  /** Once a header block is complete, what follows it cannot move its end. */
  lemma HeaderEndPrefix(s: bytes, n: nat)
    requires n <= |s|
    ensures HeaderEnd(s[..n]) >= 0 ==> HeaderEnd(s[..n]) == HeaderEnd(s)
    ensures 0 <= HeaderEnd(s) <= n ==> HeaderEnd(s[..n]) == HeaderEnd(s)
  {
    var p := s[..n];
    if HeaderEnd(p) >= 0 {
      assert BlankLineEndsAt(s, HeaderEnd(p));
      assert BlankLineEndsAt(p, HeaderEnd(s));
    }
    if 0 <= HeaderEnd(s) <= n {
      assert BlankLineEndsAt(p, HeaderEnd(s));
      assert BlankLineEndsAt(s, HeaderEnd(p));
    }
  }

  // ---------------------------------------------------------------- status code

  /** First index at or after `i` that is a blank, or the length. */
  function ToBlank(s: bytes, i: nat): (r: nat)
    requires i <= |s|
    ensures i <= r <= |s| && (r < |s| ==> IsBlank(s[r]))
    ensures forall k :: i <= k < r ==> !IsBlank(s[k])
    decreases |s| - i
  {
    if i == |s| || IsBlank(s[i]) then i else ToBlank(s, i + 1)
  }

  /** First index at or after `i` that is not a blank, or the length. */
  function PastBlanks(s: bytes, i: nat): (r: nat)
    requires i <= |s|
    ensures i <= r <= |s| && (r < |s| ==> !IsBlank(s[r]))
    ensures forall k :: i <= k < r ==> IsBlank(s[k])
    decreases |s| - i
  {
    if i == |s| || !IsBlank(s[i]) then i else PastBlanks(s, i + 1)
  }

  /** The value of three ASCII digits, if they are digits and the value is in [100, 600). */
  function ThreeDigits(a: byte, b: byte, c: byte): (r: Option<nat>)
    ensures r.Some? ==> 100 <= r.value < 600
  {
    if 49 <= a <= 57 && IsDigit(b) && IsDigit(c) then
      var code := (a - 48) * 100 + (b - 48) * 10 + (c - 48);
      if code < 600 then Some(code) else None
    else None
  }

  const HTTP_SLASH: bytes := [72, 84, 84, 80, 47]

  function StatusCode(s: bytes): (r: Option<nat>)
    ensures r.Some? ==> 100 <= r.value < 600
  {
    if |s| < 12 || s[..5] != HTTP_SLASH then None
    else
      var i := PastBlanks(s, ToBlank(s, 5));
      if i + 3 > |s| then None else ThreeDigits(s[i], s[i + 1], s[i + 2])
  }

  method ParseStatusCode(buf: bytes) returns (code: nat, ok: bool)
    ensures ok == StatusCode(buf).Some?
    ensures ok ==> code == StatusCode(buf).value
  {
    if |buf| < 12 { return 0, false; }
    assert buf[..5] == [buf[0], buf[1], buf[2], buf[3], buf[4]];
    if buf[0] != 72 || buf[1] != 84 || buf[2] != 84 || buf[3] != 80 || buf[4] != 47 {
      return 0, false;
    }
    var i := 5;
    while i < |buf| && buf[i] != SP && buf[i] != TAB
      invariant 5 <= i <= |buf|
      invariant ToBlank(buf, 5) == ToBlank(buf, i)
    {
      i := i + 1;
    }
    ghost var j := i;
    while i < |buf| && (buf[i] == SP || buf[i] == TAB)
      invariant 5 <= i <= |buf|
      invariant PastBlanks(buf, j) == PastBlanks(buf, i)
    {
      i := i + 1;
    }
    if i + 3 > |buf| { return 0, false; }
    var a, b, c := buf[i], buf[i + 1], buf[i + 2];
    if a < 49 || a > 57 || b < 48 || b > 57 || c < 48 || c > 57 { return 0, false; }
    var hundreds: nat, tens: nat, units: nat := a - 48, b - 48, c - 48;
    code := hundreds * 100 + tens * 10 + units;
    return code, code >= 100 && code < 600;
  }

  // ---------------------------------------------------------------- folded substring search

  /** `pat` (already lower case) occurs at index i of s, ignoring ASCII case. */
  predicate FoldAt(s: bytes, i: int, pat: bytes) {
    0 <= i && i + |pat| <= |s| && forall j :: 0 <= j < |pat| ==> Lower(s[i + j]) == pat[j]
  }

  /** The comparison loop shared by parseContentLength, parseTransferEncoding and containsChunked. */
  method MatchFold(s: bytes, i: nat, pat: bytes) returns (m: bool)
    requires i + |pat| <= |s|
    ensures m == FoldAt(s, i, pat)
  {
    var j := 0;
    while j < |pat|
      invariant 0 <= j <= |pat|
      invariant forall k :: 0 <= k < j ==> Lower(s[i + k]) == pat[k]
    {
      var ch := s[i + j];
      if 65 <= ch <= 90 { ch := ch + 32; }
      if ch != pat[j] { return false; }
      j := j + 1;
    }
    return true;
  }

  /** First index at or after `i` holding CR or LF, or the length. */
  function ToEol(s: bytes, i: nat): (r: nat)
    requires i <= |s|
    ensures i <= r <= |s| && (r < |s| ==> IsEol(s[r]))
    ensures forall k :: i <= k < r ==> !IsEol(s[k])
    decreases |s| - i
  {
    if i == |s| || IsEol(s[i]) then i else ToEol(s, i + 1)
  }

  lemma ToEolUnique(s: bytes, i: nat, r: nat)
    requires i <= r <= |s| && (r < |s| ==> IsEol(s[r]))
    requires forall k :: i <= k < r ==> !IsEol(s[k])
    ensures ToEol(s, i) == r
  {
    var t := ToEol(s, i);
    assert t < |s| ==> IsEol(s[t]);
    assert r < |s| ==> IsEol(s[r]);
  }

  // ---------------------------------------------------------------- Content-Length

  const CONTENT_LENGTH: bytes := [99, 111, 110, 116, 101, 110, 116, 45, 108, 101, 110, 103, 116, 104, 58]

  /** The decimal value of the digits of a line, blanks skipped. */
  function DigitsValue(line: bytes): (v: nat) {
    if line == [] then 0
    else
      var last := line[|line| - 1];
      var v := DigitsValue(line[..|line| - 1]);
      if IsDigit(last) then v * 10 + (last - 48) else v
  }

  predicate LengthText(line: bytes) {
    && (forall i :: 0 <= i < |line| ==> IsDigit(line[i]) || IsBlank(line[i]))
    && (exists i :: 0 <= i < |line| && IsDigit(line[i]))
  }

  /** What one Content-Length value means: its digits as a 64-bit int, or nothing. */
  function LengthField(line: bytes): (r: Option<int>)
    ensures r.Some? <==> LengthText(line)
    ensures r.Some? ==> r.value == Wrap64(DigitsValue(line))
  {
    if LengthText(line) then Some(Wrap64(DigitsValue(line))) else None
  }

  /** Blanks inside a length change nothing: "1 2" is twelve. */
  lemma {:induction false} BlanksSkipped(a: bytes, blank: byte, b: bytes)
    requires blank == 9 || blank == 32
    ensures DigitsValue(a + [blank] + b) == DigitsValue(a + b)
    decreases |b|
  {
    if b == [] {
      assert (a + [blank] + b)[..|a|] == a && a + b == a;
    } else {
      var c := b[..|b| - 1];
      BlanksSkipped(a, blank, c);
      assert (a + [blank] + b)[..|a| + |b|] == a + [blank] + c && (a + b)[..|a| + |b| - 1] == a + c;
    }
  }

  /** And they are the only bytes allowed beside the digits. */
  lemma LengthBytes(line: bytes)
    ensures LengthText(line) <==>
      && (exists b :: b in line && 48 <= b <= 57)
      && (forall b :: b in line ==> 48 <= b <= 57 || b == 9 || b == 32)
  {
    if LengthText(line) {
      var i :| 0 <= i < |line| && IsDigit(line[i]);
      assert line[i] in line;
    } else if b :| b in line && 48 <= b <= 57 {
      var i :| 0 <= i < |line| && line[i] == b;
      assert IsDigit(line[i]);
      var j :| 0 <= j < |line| && !IsDigit(line[j]) && !IsBlank(line[j]);
      assert line[j] in line;
    }
  }

  /** Index of the first folded occurrence at or after `from`, or the length. */
  function FindFold(s: bytes, from: nat, pat: bytes): (r: nat)
    requires from <= |s| && pat != []
    ensures from <= r <= |s|
    ensures r < |s| ==> FoldAt(s, r, pat)
    ensures forall k :: from <= k < r ==> !FoldAt(s, k, pat)
    ensures r == |s| ==> forall k :: from <= k ==> !FoldAt(s, k, pat)
    decreases |s| - from
  {
    if from == |s| || FoldAt(s, from, pat) then from else FindFold(s, from + 1, pat)
  }

  /** The length announced by a header block: the value after the first "content-length:" anywhere in it. */
  function ContentLength(s: bytes): (r: Option<int>) {
    var i := FindFold(s, 0, CONTENT_LENGTH);
    if i == |s| then None
    else LengthField(s[i + 15..ToEol(s, i + 15)])
  }

  /** Wrapping after every digit is wrapping once at the end. */
  lemma WrapStep(v: nat, d: nat)
    requires d < 10
    ensures Wrap64(Wrap64(v) * 10 + d) == Wrap64(v * 10 + d)
  {}

  /** parseContentLength, digit loop included. */
  method ParseContentLength(buf: bytes) returns (length: int, ok: bool)
    ensures ok == ContentLength(buf).Some?
    ensures ok ==> length == ContentLength(buf).value
  {
    var i := 0;
    while i + 15 <= |buf|
      invariant 0 <= i <= |buf|
      invariant forall k :: 0 <= k < i ==> !FoldAt(buf, k, CONTENT_LENGTH)
    {
      var m := false;
      var b := buf[i];
      if b == 99 || b == 67 {
        m := MatchFold(buf, i, CONTENT_LENGTH);
      } else {
        assert Lower(buf[i + 0]) != CONTENT_LENGTH[0];
      }
      if m {
        assert i == FindFold(buf, 0, CONTENT_LENGTH);
        length, ok := ParseLength(buf, i + 15);
        return;
      }
      i := i + 1;
    }
    assert FindFold(buf, 0, CONTENT_LENGTH) == |buf|;
    return 0, false;
  }

  /** Text read so far: only blanks and digits, counted and valued. */
  ghost predicate LengthRun(buf: bytes, at: nat, start: nat, length: int, digits: nat)
    requires at <= start <= |buf|
  {
    && (forall k :: at <= k < start ==> IsBlank(buf[k]) || IsDigit(buf[k]))
    && (digits > 0 <==> exists k :: at <= k < start && IsDigit(buf[k]))
    && length == Wrap64(DigitsValue(buf[at..start]))
  }

  lemma EmptyRun(buf: bytes, at: nat)
    requires at <= |buf|
    ensures LengthRun(buf, at, at, 0, 0)
  {}

  lemma LengthRunStep(buf: bytes, at: nat, start: nat, length: int, digits: nat)
    requires at <= start < |buf| && LengthRun(buf, at, start, length, digits)
    ensures IsDigit(buf[start]) ==>
      LengthRun(buf, at, start + 1, Wrap64(length * 10 + (buf[start] - 48)), digits + 1)
    ensures IsBlank(buf[start]) ==> LengthRun(buf, at, start + 1, length, digits)
  {
    assert buf[at..start + 1][..start - at] == buf[at..start];
    if IsDigit(buf[start]) {
      WrapStep(DigitsValue(buf[at..start]), buf[start] - 48);
    }
  }

  method ParseLength(buf: bytes, at: nat) returns (length: int, ok: bool)
    requires at <= |buf|
    ensures ok == LengthField(buf[at..ToEol(buf, at)]).Some?
    ensures ok ==> length == LengthField(buf[at..ToEol(buf, at)]).value
  {
    hide LengthField, Wrap64;
    var start := at;
    ghost var eol := ToEol(buf, at);
    length := 0;
    var digits: nat := 0;
    assert LengthRun(buf, at, start, length, digits) by { EmptyRun(buf, at); }
    while start < |buf| && (buf[start] == SP || buf[start] == TAB)
      invariant at <= start <= eol
      invariant LengthRun(buf, at, start, length, digits)
    {
      LengthRunStep(buf, at, start, length, digits);
      start := start + 1;
    }
    while start < |buf|
      invariant at <= start <= eol
      invariant LengthRun(buf, at, start, length, digits)
    {
      var ch := buf[start];
      LengthRunStep(buf, at, start, length, digits);
      if 48 <= ch <= 57 {
        length := Wrap64(length * 10 + (ch - 48));
        digits := digits + 1;
      } else if ch == CR || ch == LF {
        break;
      } else if ch == SP || ch == TAB {
      } else {
        LengthRejected(buf, at, eol, start);
        return 0, false;
      }
      start := start + 1;
    }
    LengthAccepted(buf, at, start, length, digits);
    return length, digits > 0;
  }

  lemma LengthAccepted(buf: bytes, at: nat, eol: nat, length: int, digits: nat)
    requires at <= eol <= |buf| && LengthRun(buf, at, eol, length, digits)
    ensures LengthField(buf[at..eol]).Some? <==> digits > 0
    ensures digits > 0 ==> LengthField(buf[at..eol]).value == length
  {
    var line := buf[at..eol];
    if digits > 0 {
      var k :| at <= k < eol && IsDigit(buf[k]);
      assert IsDigit(line[k - at]);
    }
  }

  lemma LengthRejected(buf: bytes, at: nat, eol: nat, x: nat)
    requires at <= x < eol <= |buf| && !IsDigit(buf[x]) && !IsBlank(buf[x])
    ensures LengthField(buf[at..eol]).None?
  {
    assert buf[at..eol][x - at] == buf[x];
  }

  // ---------------------------------------------------------------- Transfer-Encoding

  const TRANSFER_ENCODING: bytes :=
    [116, 114, 97, 110, 115, 102, 101, 114, 45, 101, 110, 99, 111, 100, 105, 110, 103, 58]
  const CHUNKED: bytes := [99, 104, 117, 110, 107, 101, 100]

  /** "chunked" occurs, ignoring case, within s[lo..hi). */
  predicate ChunkedWithin(s: bytes, lo: int, hi: int) {
    exists j :: lo <= j && j + 7 <= hi && FoldAt(s, j, CHUNKED)
  }

  /** Some line has "transfer-encoding:" and, later on the same line, "chunked". */
  predicate ChunkedAnnounced(s: bytes) {
    exists i :: 0 <= i && i + 18 <= |s| && FoldAt(s, i, TRANSFER_ENCODING) && ChunkedWithin(s, i + 18, ToEol(s, i + 18))
  }

  method ContainsChunked(b: bytes) returns (r: bool)
    ensures r == ChunkedWithin(b, 0, |b|)
  {
    if |b| < 7 { return false; }
    var i := 0;
    while i + 7 <= |b|
      invariant 0 <= i
      invariant forall j :: 0 <= j < i ==> !FoldAt(b, j, CHUNKED)
    {
      var m := MatchFold(b, i, CHUNKED);
      if m { return true; }
      i := i + 1;
    }
    return false;
  }

  /** Skipping the blanks after the colon and cutting the value out does not change whether it says "chunked". */
  lemma ChunkedInValue(s: bytes, at: nat, start: nat, end: nat)
    requires at <= start <= end <= |s|
    requires forall k :: at <= k < start ==> IsBlank(s[k])
    ensures ChunkedWithin(s[start..end], 0, end - start) <==> ChunkedWithin(s, at, end)
  {
    var v := s[start..end];
    if ChunkedWithin(v, 0, |v|) {
      var j :| 0 <= j && j + 7 <= |v| && FoldAt(v, j, CHUNKED);
      assert FoldAt(s, start + j, CHUNKED);
    }
    if ChunkedWithin(s, at, end) {
      var j :| at <= j && j + 7 <= end && FoldAt(s, j, CHUNKED);
      assert Lower(s[j + 0]) == CHUNKED[0];
      assert j >= start;
      assert FoldAt(v, j - start, CHUNKED);
    }
  }

  /** A later match inside the line just rejected sees a shorter rest of the same line: skipping it is safe. */
  lemma SkippedMatchesAreRejected(s: bytes, i: nat, k: nat, end: nat)
    requires i + 18 <= |s| && FoldAt(s, i, TRANSFER_ENCODING)
    requires end == ToEol(s, i + 18) && !ChunkedWithin(s, i + 18, end)
    requires i <= k <= end && k + 18 <= |s| && FoldAt(s, k, TRANSFER_ENCODING)
    ensures !ChunkedWithin(s, k + 18, ToEol(s, k + 18))
  {
    forall x | k <= x < k + 18
      ensures !IsEol(s[x])
    {
      assert Lower(s[k + (x - k)]) == TRANSFER_ENCODING[x - k];
    }
    ToEolUnique(s, k + 18, end);
  }

  /** parseTransferEncoding: the scan that jumps to the end of each rejected line. */
  method ParseTransferEncoding(buf: bytes) returns (r: bool)
    ensures r == ChunkedAnnounced(buf)
  {
    var i := 0;
    while i + 18 <= |buf|
      invariant 0 <= i
      invariant forall k :: 0 <= k < i && k + 18 <= |buf| && FoldAt(buf, k, TRANSFER_ENCODING) ==>
        !ChunkedWithin(buf, k + 18, ToEol(buf, k + 18))
    {
      var m := false;
      var b := buf[i];
      if b == 116 || b == 84 {
        m := MatchFold(buf, i, TRANSFER_ENCODING);
      } else {
        assert Lower(buf[i + 0]) != TRANSFER_ENCODING[0];
      }
      if m {
        var start := i + 18;
        ghost var eol := ToEol(buf, i + 18);
        while start < |buf| && (buf[start] == SP || buf[start] == TAB)
          invariant i + 18 <= start <= eol
          invariant forall k :: i + 18 <= k < start ==> IsBlank(buf[k])
        {
          start := start + 1;
        }
        var end := start;
        while end < |buf| && buf[end] != CR && buf[end] != LF
          invariant start <= end <= eol
        {
          end := end + 1;
        }
        assert end == eol;
        var c := ContainsChunked(buf[start..end]);
        ChunkedInValue(buf, i + 18, start, end);
        if c { return true; }
        forall k | i <= k <= end && k + 18 <= |buf| && FoldAt(buf, k, TRANSFER_ENCODING)
          ensures !ChunkedWithin(buf, k + 18, ToEol(buf, k + 18))
        {
          SkippedMatchesAreRejected(buf, i, k, end);
        }
        i := end;
      }
      i := i + 1;
    }
    return false;
  }
}
