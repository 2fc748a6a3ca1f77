/**
 Bytes, the ASCII constants of the wire protocol, and the decimal notation that the
 formatters print (`%d`, `%zu`) and that the readers parse.
 */
module Bytes {
  import opened Options

  newtype byte = x: int | 0 <= x < 0x100

  type bytes = seq<byte>

  const NUL: byte := 0
  const LF: byte := 10
  const CR: byte := 13
  const SPACE: byte := 32
  const QUOTE: byte := 34
  const DOLLAR: byte := 36
  const PERCENT: byte := 37
  const STAR: byte := 42
  const PLUS: byte := 43
  const MINUS: byte := 45
  const ZERO: byte := 48
  const COLON: byte := 58
  const BACKSLASH: byte := 92

  const CRLF: bytes := [CR, LF]

  /** What a C program sees at index `i` of a NUL-terminated buffer holding `s`. */
  function At(s: bytes, i: nat): byte
    requires i <= |s|
  {
    if i < |s| then s[i] else NUL
  }

  /** The concatenation of a list of byte strings. */
  function Concat(parts: seq<bytes>): bytes {
    if parts == [] then [] else parts[0] + Concat(parts[1..])
  }

  lemma {:induction false} ConcatSnoc(parts: seq<bytes>, last: bytes)
    ensures Concat(parts + [last]) == Concat(parts) + last
  {
    if parts == [] {
      assert parts + [last] == [last];
      assert Concat([last]) == last + Concat([]);
    } else {
      assert (parts + [last])[1..] == parts[1..] + [last];
      ConcatSnoc(parts[1..], last);
    }
  }

  lemma {:induction false} ConcatAppend(a: seq<bytes>, b: seq<bytes>)
    ensures Concat(a + b) == Concat(a) + Concat(b)
  {
    if a == [] {
      assert a + b == b;
    } else {
      assert (a + b)[1..] == a[1..] + b;
      ConcatAppend(a[1..], b);
    }
  }

  // ---------------------------------------------------------------- decimal notation

  predicate IsDigit(c: byte) {
    ZERO <= c <= ZERO + 9
  }

  /** What `%zu` prints. */
  function Dec(n: nat): (s: bytes)
    ensures |s| > 0 && forall i :: 0 <= i < |s| ==> IsDigit(s[i])
  {
    if n < 10 then [(48 + n) as byte] else Dec(n / 10) + [(48 + n % 10) as byte]
  }

  /** What `%d` prints. */
  function DecInt(i: int): (s: bytes)
    ensures |s| > 0 && (s[0] == MINUS || IsDigit(s[0]))
    ensures forall k :: 1 <= k < |s| ==> IsDigit(s[k])
  {
    if i < 0 then [MINUS] + Dec(-i) else Dec(i)
  }

  /** The value accumulated by reading decimal digits up to the first CR or the end of the text;
      None when another byte comes first. */
  function Digits(text: bytes, v: int): Option<int> {
    if text == [] || text[0] == CR then Some(v)
    else if IsDigit(text[0]) then Digits(text[1..], 10 * v + (text[0] - ZERO) as int)
    else None
  }

  /** The value of a protocol line: -1 on junk, whatever its sign. */
  function LongLong(text: bytes): int {
    var negative := text != [] && text[0] == MINUS;
    var signed := text != [] && (text[0] == MINUS || text[0] == PLUS);
    match Digits(if signed then text[1..] else text, 0)
    case None => -1
    case Some(v) => if negative then -v else v
  }

  lemma {:induction false} DigitsSnoc(text: bytes, d: byte, v: int)
    requires IsDigit(d)
    requires forall i :: 0 <= i < |text| ==> IsDigit(text[i])
    ensures Digits(text, v).Some?
    ensures Digits(text + [d], v) == Some(10 * Digits(text, v).value + (d - ZERO) as int)
  {
    if text == [] {
      assert Digits([d][1..], 10 * v + (d - ZERO) as int) == Some(10 * v + (d - ZERO) as int);
      assert text + [d] == [d];
    } else {
      assert (text + [d])[1..] == text[1..] + [d];
      DigitsSnoc(text[1..], d, 10 * v + (text[0] - ZERO) as int);
    }
  }

  lemma {:induction false} DigitsOfDec(n: nat)
    ensures Digits(Dec(n), 0) == Some(n)
  {
    if n < 10 {
      var d := (48 + n) as byte;
      assert Dec(n) == [] + [d];
      DigitsSnoc([], d, 0);
    } else {
      DigitsOfDec(n / 10);
      DigitsSnoc(Dec(n / 10), (48 + n % 10) as byte, 0);
    }
  }

  /** Reading back a printed integer gives that integer. */
  lemma LongLongOfDecInt(i: int)
    ensures LongLong(DecInt(i)) == i
  {
    if i < 0 {
      DigitsOfDec(-i);
      assert DecInt(i)[1..] == Dec(-i);
    } else {
      DigitsOfDec(i);
    }
  }
}
