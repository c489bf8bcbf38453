/** Header fields: parseHeaders, the zero-copy lookup headerBytesFromRaw and the lookups of response.go. */
module Headers {
  import opened Bytes

  datatype Header = Header(key: bytes, value: bytes)

  // ---------------------------------------------------------------- lines and fields

  predicate CrlfAt(s: bytes, i: int) {
    0 <= i && i + 1 < |s| && s[i] == CR && s[i + 1] == LF
  }

  /** Index of the first CR LF at or after `from`, or -1. */
  function NextCrlf(s: bytes, from: nat): (r: int)
    ensures r == -1 || (from <= r && CrlfAt(s, r))
    ensures forall k :: from <= k && CrlfAt(s, k) ==> 0 <= r <= k
    decreases |s| - from
  {
    if from + 1 >= |s| then -1
    else if CrlfAt(s, from) then from
    else NextCrlf(s, from + 1)
  }

  /** Index of the first colon at or after `from`, or the length. */
  function FirstColon(line: bytes, from: nat): (c: nat)
    requires from <= |line|
    ensures from <= c <= |line| && (c < |line| ==> line[c] == COLON)
    ensures forall k :: from <= k < c ==> line[k] != COLON
    decreases |line| - from
  {
    if from == |line| || line[from] == COLON then from else FirstColon(line, from + 1)
  }

  function TrimLeft(s: bytes): bytes {
    if s == [] || !IsBlank(s[0]) then s else TrimLeft(s[1..])
  }

  function TrimRight(s: bytes): bytes {
    if s == [] || !IsBlank(s[|s| - 1]) then s else TrimRight(s[..|s| - 1])
  }

  function Trim(s: bytes): bytes { TrimRight(TrimLeft(s)) }

  /** The field a header line holds: nothing without a colon or with the colon first. */
  function FieldOf(line: bytes): seq<Header> {
    var c := FirstColon(line, 0);
    if 0 < c < |line| then [Header(Trim(line[..c]), Trim(line[c + 1..]))] else []
  }

  /** The fields of the lines from `from` up to the first empty or unterminated line. */
  function Fields(s: bytes, from: nat): seq<Header>
    decreases |s| - from
  {
    var e := NextCrlf(s, from);
    if e == -1 || e == from then [] else FieldOf(s[from..e]) + Fields(s, e + 2)
  }

  predicate Kept(h: Header) { h.key != [] && h.value != [] }

  function Keep(hs: seq<Header>): seq<Header> {
    if hs == [] then []
    else if Kept(hs[0]) then [hs[0]] + Keep(hs[1..])
    else Keep(hs[1..])
  }

  lemma {:induction false} KeepConcat(a: seq<Header>, b: seq<Header>)
    ensures Keep(a + b) == Keep(a) + Keep(b)
  {
    if a == [] {
      assert a + b == b;
    } else {
      KeepConcat(a[1..], b);
      assert (a + b)[1..] == a[1..] + b && (a + b)[0] == a[0];
    }
  }

  /** Fields, one line at a time. */
  lemma FieldsStep(s: bytes, from: nat)
    requires NextCrlf(s, from) > from
    ensures var e := NextCrlf(s, from); Fields(s, from) == FieldOf(s[from..e]) + Fields(s, e + 2)
  {}

  /** Where the fields of a block start: after its first CR LF. */
  function AfterStatusLine(s: bytes): (r: nat) {
    NextCrlf(s, 0) + 2
  }

  /** What parseHeaders leaves in Response.Headers for a block that has a complete first line. */
  function ParsedHeaders(s: bytes): seq<Header> {
    Keep(Fields(s, AfterStatusLine(s)))
  }

  // ---------------------------------------------------------------- scanning loops

  method ScanCrlf(s: bytes, from: nat) returns (r: int)
    ensures r == NextCrlf(s, from)
  {
    var i := from;
    while i + 1 < |s|
      invariant from <= i
      invariant NextCrlf(s, from) == NextCrlf(s, i)
    {
      if s[i] == CR && s[i + 1] == LF { return i; }
      i := i + 1;
    }
    return -1;
  }

  method ScanColon(s: bytes, from: nat, end: nat) returns (r: int)
    requires from <= end <= |s|
    ensures r == -1 <==> FirstColon(s[from..end], 0) == end - from
    ensures r != -1 ==> r == from + FirstColon(s[from..end], 0)
  {
    ghost var line := s[from..end];
    var i := from;
    while i < end
      invariant from <= i <= end
      invariant FirstColon(line, 0) == FirstColon(line, i - from)
    {
      if s[i] == COLON { return i; }
      i := i + 1;
    }
    return -1;
  }

  /** The two trimming loops; the caller keeps indices, as the source does. */
  method SkipLeading(s: bytes, lo: nat, hi: nat) returns (a: nat)
    requires lo <= hi <= |s|
    ensures lo <= a <= hi
    ensures s[a..hi] == TrimLeft(s[lo..hi])
  {
    a := lo;
    while a < hi && (s[a] == SP || s[a] == TAB)
      invariant lo <= a <= hi
      invariant TrimLeft(s[lo..hi]) == TrimLeft(s[a..hi])
    {
      assert s[a..hi][1..] == s[a + 1..hi];
      a := a + 1;
    }
  }

  method DropTrailing(s: bytes, lo: nat, hi: nat) returns (b: nat)
    requires lo <= hi <= |s|
    ensures lo <= b <= hi
    ensures s[lo..b] == TrimRight(s[lo..hi])
  {
    b := hi;
    while b > lo && (s[b - 1] == SP || s[b - 1] == TAB)
      invariant lo <= b <= hi
      invariant TrimRight(s[lo..hi]) == TrimRight(s[lo..b])
    {
      assert s[lo..b][..b - lo - 1] == s[lo..b - 1];
      b := b - 1;
    }
  }

  method TrimRange(s: bytes, lo: nat, hi: nat) returns (a: nat, b: nat)
    requires lo <= hi <= |s|
    ensures lo <= a <= b <= hi
    ensures s[a..b] == Trim(s[lo..hi])
  {
    a := SkipLeading(s, lo, hi);
    b := DropTrailing(s, a, hi);
  }

  lemma SliceSlice(s: bytes, a: nat, b: nat, c: nat)
    requires a <= b < c <= |s|
    ensures s[a..c][..b - a] == s[a..b] && s[a..c][b - a + 1..] == s[b + 1..c]
  {}

  /** One header line cut at its first colon and trimmed, by index. */
  method SplitLine(s: bytes, start: nat, lineEnd: nat) returns (field: seq<Header>)
    requires start <= lineEnd <= |s|
    ensures field == FieldOf(s[start..lineEnd])
  {
    field := [];
    var colon := ScanColon(s, start, lineEnd);
    hide Trim, FirstColon;
    if colon > start && colon < lineEnd {
      SliceSlice(s, start, colon, lineEnd);
      var ks, ke := TrimRange(s, start, colon);
      var vs, ve := TrimRange(s, colon + 1, lineEnd);
      field := [Header(s[ks..ke], s[vs..ve])];
    }
  }

  lemma AtMostOneField(line: bytes)
    ensures |FieldOf(line)| <= 1
  {
    hide Trim, FirstColon;
  }

  lemma FieldsEnd(s: bytes, start: nat)
    requires NextCrlf(s, start) == -1 || NextCrlf(s, start) == start
    ensures Fields(s, start) == []
  {}

  /** The head of both field loops: the line at `start`, or the end of the fields. */
  method NextLine(s: bytes, start: nat) returns (done: bool, field: seq<Header>, next: nat)
    ensures done ==> Fields(s, start) == []
    ensures !done ==> start < next <= |s| && Fields(s, start) == field + Fields(s, next)
    ensures |field| <= 1
  {
    hide Fields, FieldOf, NextCrlf;
    var lineEnd := ScanCrlf(s, start);
    if lineEnd < 0 || lineEnd == start {
      FieldsEnd(s, start);
      return true, [], start;
    }
    AtMostOneField(s[start..lineEnd]);
    field := SplitLine(s, start, lineEnd);
    FieldsStep(s, start);
    return false, field, lineEnd + 2;
  }

  lemma KeepStep(acc: seq<Header>, field: seq<Header>, rest: seq<Header>)
    requires |field| <= 1
    ensures acc + Keep(field + rest) == acc + Keep(field) + Keep(rest)
    ensures Keep(field) == if field != [] && Kept(field[0]) then field else []
  {
    KeepConcat(field, rest);
    if field != [] { assert field[1..] == []; }
  }

  /**
   * parseHeaders. `old_` is what Response.Headers held before: the source returns without touching it when
   * the block has no line after the first one.
   */
  method ParseHeaders(block: bytes, old_: seq<Header>) returns (headers: seq<Header>)
    ensures 0 <= NextCrlf(block, 0) && AfterStatusLine(block) < |block| ==> headers == ParsedHeaders(block)
    ensures !(0 <= NextCrlf(block, 0) && AfterStatusLine(block) < |block|) ==> headers == old_
  {
    var first := ScanCrlf(block, 0);
    var statusLineEnd := if first < 0 then -1 else first + 2;
    if statusLineEnd < 0 || statusLineEnd >= |block| { return old_; }
    headers := CollectFields(block, statusLineEnd);
  }

  method CollectFields(block: bytes, from: nat) returns (headers: seq<Header>)
    ensures headers == Keep(Fields(block, from))
  {
    headers := [];
    var start: nat := from;
    var done := false;
    ghost var rest := Fields(block, start);
    while !done && start < |block|
      invariant rest == Fields(block, start)
      invariant headers + Keep(rest) == Keep(Fields(block, from))
      invariant done ==> rest == []
      decreases !done, |block| - start
    {
      var field, next;
      done, field, next := NextLine(block, start);
      if !done {
        rest := Fields(block, next);
        KeepStep(headers, field, rest);
        if field != [] && field[0].key != [] && field[0].value != [] {
          headers := headers + field;
        } else {
          assert headers + Keep(field) == headers;
        }
        start := next;
      }
    }
    assert rest == [];
  }

  // ---------------------------------------------------------------- lookups

  /** The first field whose key folds to `key`. */
  function FirstField(hs: seq<Header>, key: bytes): (r: Option<bytes>) {
    if hs == [] then None
    else if EqualFold(hs[0].key, key) then Some(hs[0].value)
    else FirstField(hs[1..], key)
  }

  lemma {:induction false} FirstFieldConcat(a: seq<Header>, b: seq<Header>, key: bytes)
    ensures FirstField(a + b, key) == if FirstField(a, key).Some? then FirstField(a, key) else FirstField(b, key)
  {
    if a == [] {
      assert a + b == b;
    } else {
      FirstFieldConcat(a[1..], b, key);
      assert (a + b)[1..] == a[1..] + b;
    }
  }

  /** Response.HeaderValues. */
  function Values(hs: seq<Header>, key: bytes): seq<bytes> {
    if hs == [] then []
    else if EqualFold(hs[0].key, key) then [hs[0].value] + Values(hs[1..], key)
    else Values(hs[1..], key)
  }

  method HeaderValues(hs: seq<Header>, key: bytes) returns (vals: seq<bytes>)
    ensures vals == Values(hs, key)
  {
    vals := [];
    for i := 0 to |hs|
      invariant vals + Values(hs[i..], key) == Values(hs, key)
    {
      assert hs[i..][1..] == hs[i + 1..];
      var same := EqualFoldLoop(hs[i].key, key);
      if same { vals := vals + [hs[i].value]; }
    }
  }

  /** Spaces and tabs are trimmed, on both sides. */
  lemma TabsAreTrimmed(b: byte)
    requires b != 32 && b != 9
    ensures Trim([32, 9, b, 9, 32]) == [b]
  {
    var s: bytes := [32, 9, b, 9, 32];
    assert s[1..] == [9, b, 9, 32] && s[1..][1..] == [b, 9, 32];
    assert TrimLeft([b, 9, 32]) == [b, 9, 32];
    assert [b, 9, 32][..2] == [b, 9] && [b, 9][..1] == [b];
    assert TrimLeft([9, b, 9, 32]) == TrimLeft([b, 9, 32]);
    assert TrimLeft(s) == [b, 9, 32];
    assert TrimRight([b]) == [b];
    assert TrimRight([b, 9]) == TrimRight([b]);
  }

  /** Two bytes fold together when they are the same, or the two cases of one letter from A to Z. */
  lemma FoldsTogether(a: byte, b: byte)
    ensures Lower(a) == Lower(b) <==> a == b || (65 <= a <= 90 && b == a + 32) || (65 <= b <= 90 && a == b + 32)
  {}

  /** strEqualFoldASCII. */
  method EqualFoldLoop(a: bytes, b: bytes) returns (r: bool)
    ensures r == EqualFold(a, b)
  {
    if |a| != |b| { return false; }
    for i := 0 to |a|
      invariant forall k :: 0 <= k < i ==> Lower(a[k]) == Lower(b[k])
    {
      var ca, cb := a[i], b[i];
      if 65 <= ca <= 90 { ca := ca + 32; }
      if 65 <= cb <= 90 { cb := cb + 32; }
      if ca != cb { return false; }
    }
    return true;
  }

  /** Response.isConnectionClose. */
  predicate AsksToClose(hs: seq<Header>) { exists i :: 0 <= i < |hs| && SaysClose(hs[i]) }

  predicate SaysClose(h: Header) { EqualFold(h.key, Ascii("Connection")) && EqualFold(h.value, Ascii("close")) }

  method IsConnectionClose(hs: seq<Header>) returns (r: bool)
    ensures r == AsksToClose(hs)
  {
    hide EqualFold, Ascii;
    for i := 0 to |hs|
      invariant forall k :: 0 <= k < i ==> !SaysClose(hs[k])
    {
      var key := EqualFoldLoop(hs[i].key, Ascii("Connection"));
      var value := EqualFoldLoop(hs[i].value, Ascii("close"));
      if key && value { return true; }
    }
    return false;
  }

  /** Where headerBytesFromRaw starts: after the first CR LF, or at the beginning when there is none. */
  function LookupStart(raw: bytes): nat {
    if NextCrlf(raw, 0) < 0 then 0 else NextCrlf(raw, 0) + 2
  }

  /** headerBytesFromRaw: the lookup that never builds the header list. */
  method HeaderBytesFromRaw(raw: bytes, key: bytes) returns (r: Option<bytes>)
    ensures r == if key == [] then None else FirstField(Fields(raw, LookupStart(raw)), key)
  {
    if |raw| == 0 || |key| == 0 {
      return None;
    }
    var first := ScanCrlf(raw, 0);
    r := FindField(raw, if first < 0 then 0 else first + 2, key);
  }

  method FindField(raw: bytes, from: nat, key: bytes) returns (r: Option<bytes>)
    ensures r == FirstField(Fields(raw, from), key)
  {
    var start: nat := from;
    var done := false;
    ghost var rest := Fields(raw, start);
    while !done && start < |raw|
      invariant rest == Fields(raw, start)
      invariant FirstField(Fields(raw, from), key) == FirstField(rest, key)
      invariant done ==> rest == []
      decreases !done, |raw| - start
    {
      var field, next;
      done, field, next := NextLine(raw, start);
      if !done {
        rest := Fields(raw, next);
        FirstFieldConcat(field, rest, key);
        if field != [] {
          assert field[1..] == [];
          var same := EqualFoldLoop(field[0].key, key);
          if same { return Some(field[0].value); }
        }
        start := next;
      }
    }
    assert rest == [];
    return None;
  }

  function FirstOf(vals: seq<bytes>): Option<bytes> {
    if vals == [] then None else Some(vals[0])
  }

  lemma {:induction false} ValuesFirst(hs: seq<Header>, key: bytes)
    ensures FirstOf(Values(hs, key)) == FirstField(hs, key)
  {
    if hs != [] {
      ValuesFirst(hs[1..], key);
    }
  }

  predicate Increasing(at: seq<nat>) { forall j, k :: 0 <= j < k < |at| ==> at[j] < at[k] }

  /** The values of a name are those of the fields with that name, all of them and in order. */
  lemma {:induction false} ValuesByIndex(hs: seq<Header>, key: bytes) returns (at: seq<nat>)
    ensures Increasing(at) && |at| == |Values(hs, key)|
    ensures forall k :: 0 <= k < |at| ==>
      at[k] < |hs| && EqualFold(hs[at[k]].key, key) && Values(hs, key)[k] == hs[at[k]].value
    ensures forall i :: 0 <= i < |hs| && EqualFold(hs[i].key, key) ==> i in at
  {
    hide EqualFold;
    if hs == [] {
      at := [];
    } else {
      var n := |hs| - 1;
      at := ValuesByIndex(hs[..n], key);
      ValuesSnoc(hs[..n], hs[n], key);
      assert hs == hs[..n] + [hs[n]];
      if EqualFold(hs[n].key, key) { at := at + [n]; }
    }
  }

  lemma {:induction false} ValuesSnoc(hs: seq<Header>, h: Header, key: bytes)
    ensures Values(hs + [h], key) == Values(hs, key) + if EqualFold(h.key, key) then [h.value] else []
  {
    hide EqualFold;
    if hs == [] {
      assert hs + [h] == [h];
    } else {
      ValuesSnoc(hs[1..], h, key);
      assert (hs + [h])[0] == hs[0] && (hs + [h])[1..] == hs[1..] + [h];
    }
  }

  /** Dropping empty fields keeps the first match exactly when that match was not empty-valued. */
  lemma {:induction false} KeepFirstField(hs: seq<Header>, key: bytes)
    requires key != []
    ensures FirstField(hs, key) != Some([]) ==> FirstField(Keep(hs), key) == FirstField(hs, key)
    ensures FirstField(Keep(hs), key) != Some([])
  {
    if hs != [] {
      KeepFirstField(hs[1..], key);
      assert Kept(hs[0]) ==> Keep(hs)[1..] == Keep(hs[1..]);
    }
  }

  /** Field i is the first of that name, and its value is empty: the fields parseHeaders drops. */
  predicate EmptyFirst(hs: seq<Header>, key: bytes, i: int) {
    && 0 <= i < |hs| && EqualFold(hs[i].key, key) && hs[i].value == []
    && forall j :: 0 <= j < i ==> !EqualFold(hs[j].key, key)
  }

  lemma {:induction false} FirstFieldEmpty(hs: seq<Header>, key: bytes)
    ensures FirstField(hs, key) == Some([]) <==> exists i :: EmptyFirst(hs, key, i)
  {
    hide EqualFold;
    if hs != [] && !EqualFold(hs[0].key, key) {
      FirstFieldEmpty(hs[1..], key);
      if FirstField(hs, key) == Some([]) {
        var i :| EmptyFirst(hs[1..], key, i);
        forall j | 0 <= j < i + 1 ensures !EqualFold(hs[j].key, key) {
          if j > 0 { assert hs[j] == hs[1..][j - 1]; }
        }
        assert EmptyFirst(hs, key, i + 1);
      }
      if i :| EmptyFirst(hs, key, i) {
        assert EmptyFirst(hs[1..], key, i - 1);
      }
    } else if hs != [] && hs[0].value == [] {
      assert EmptyFirst(hs, key, 0);
    }
  }

  /**
   * The zero-copy lookup gives the first entry of HeaderValues exactly when the first field of that name in the block,
   * if there is one, has a value; a field without one is visible to the one lookup and invisible to the other.
   */
  lemma ZeroCopyAgrees(block: bytes, key: bytes)
    requires key != [] && NextCrlf(block, 0) >= 0
    ensures var fields := Fields(block, LookupStart(block));
      FirstField(fields, key) == FirstOf(Values(ParsedHeaders(block), key)) <==> !exists i :: EmptyFirst(fields, key, i)
  {
    var hs := Fields(block, LookupStart(block));
    ValuesFirst(Keep(hs), key);
    KeepFirstField(hs, key);
    FirstFieldEmpty(hs, key);
  }
}
