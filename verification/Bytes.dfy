/** Bytes, 64-bit wrap-around and the few sequence facts the other modules share. */
module Bytes {

  type byte = b: int | 0 <= b < 256
  type bytes = seq<byte>

  datatype Option<+T> = None | Some(value: T)

  const TAB: byte := 9
  const LF: byte := 10
  const CR: byte := 13
  const SP: byte := 32
  const COLON: byte := 58
  const SEMICOLON: byte := 59
  const CRLF: bytes := [13, 10]
  const BLANK_LINE: bytes := [13, 10, 13, 10]

  const TWO31: int := 0x8000_0000
  const TWO32: int := 0x1_0000_0000
  const TWO63: int := 0x8000_0000_0000_0000
  const TWO64: int := 0x1_0000_0000_0000_0000

  /** The bytes of an ASCII literal. */
  function Ascii(s: string): (r: bytes)
    requires forall i :: 0 <= i < |s| ==> s[i] < 128 as char
    ensures |r| == |s|
    ensures forall i :: 0 <= i < |s| ==> r[i] == s[i] as int
  {
    seq(|s|, i requires 0 <= i < |s| => s[i] as int)
  }

  /** The two's complement reading of `n` on 64 bits: Go's `int` arithmetic. */
  function Wrap64(n: int): (r: int)
    ensures -TWO63 <= r < TWO63
    ensures -TWO63 <= n < TWO63 ==> r == n
  {
    (n + TWO63) % TWO64 - TWO63
  }

  predicate IsBlank(b: byte) { b == SP || b == TAB }

  predicate IsDigit(b: byte) { 48 <= b <= 57 }

  predicate IsEol(b: byte) { b == CR || b == LF }

  /** ASCII lower case, as every scanner of the parser folds it. */
  function Lower(b: byte): byte { if 65 <= b <= 90 then b + 32 else b }

  predicate EqualFold(a: bytes, b: bytes) {
    |a| == |b| && forall i :: 0 <= i < |a| ==> Lower(a[i]) == Lower(b[i])
  }

  function Zeros(n: nat): (r: bytes)
    ensures |r| == n
    ensures forall i :: 0 <= i < n ==> r[i] == 0
  {
    seq(n, i => 0)
  }

  function Min(a: int, b: int): int { if a < b then a else b }

  function Max(a: int, b: int): int { if a < b then b else a }

  lemma Scale(a: nat, b: nat, k: nat)
    requires a <= b
    ensures a * k <= b * k
  {}

  lemma Associates<T>(a: seq<T>, b: seq<T>, c: seq<T>)
    ensures a + (b + c) == a + b + c
  {}

  predicate Distinct<T(==)>(q: seq<T>) { forall i, j :: 0 <= i < j < |q| ==> q[i] != q[j] }

  function Concat(parts: seq<bytes>): bytes {
    if parts == [] then [] else parts[0] + Concat(parts[1..])
  }
}
