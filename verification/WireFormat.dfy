/**
 The wire format byte by byte: what the reader makes of the very bytes of the protocol, and which bytes a
 formatted command consists of. All bytes are written as numbers here.
 */
module WireFormats {
  import opened Options
  import opened Bytes
  import opened Resp
  import opened Commands

  // ---------------------------------------------------------------- decimal numbers

  function TenToThe(k: nat): nat {
    if k == 0 then 1 else 10 * TenToThe(k - 1)
  }

  predicate AllDigits(s: bytes) {
    forall i :: 0 <= i < |s| ==> 48 <= s[i] <= 57
  }

  /** The sum of the digits, each times the power of ten of its place. */
  function PlaceValue(digits: bytes): int
  {
    if digits == [] then 0
    else (digits[0] as int - 48) * TenToThe(|digits| - 1) + PlaceValue(digits[1..])
  }

  /** Digits are read up to the end of the text or to a CR; anything else there spoils the number. */
  lemma {:induction false} DigitsArePlaces(digits: bytes, tail: bytes, v: int)
    requires AllDigits(digits) && (tail == [] || !(48 <= tail[0] <= 57))
    ensures Digits(digits + tail, v) ==
              if tail == [] || tail[0] == 13 then Some(v * TenToThe(|digits|) + PlaceValue(digits)) else None
    decreases |digits|
  {
    if digits == [] {
      assert digits + tail == tail;
    } else {
      var d, others := digits[0] as int - 48, digits[1..];
      assert (digits + tail)[1..] == others + tail && (digits + tail)[0] == digits[0];
      DigitsArePlaces(others, tail, 10 * v + d);
      Shift(v, d, TenToThe(|others|));
    }
  }

  lemma Shift(v: int, d: int, t: nat)
    ensures (10 * v + d) * t == v * (10 * t) + d * t
  {
  }

  /** The number of a line: a sign, which may be missing, then digits, then nothing or a CR. */
  lemma NumberOfLine(sign: bytes, digits: bytes, tail: bytes)
    requires sign in {[], [43], [45]} && AllDigits(digits)
    requires tail == [] || !(48 <= tail[0] <= 57)
    requires sign == [] && digits == [] && tail != [] ==> tail[0] != 43 && tail[0] != 45
    ensures LongLong(sign + digits + tail) ==
              if tail != [] && tail[0] != 13 then -1
              else if sign == [45] then -PlaceValue(digits) else PlaceValue(digits)
  {
    DigitsArePlaces(digits, tail, 0);
    var text := sign + digits + tail;
    if sign == [] {
      assert text == digits + tail;
      assert digits != [] ==> text[0] == digits[0];
    } else {
      assert text[1..] == digits + tail && text[0] == sign[0];
    }
  }

  /** Decimal notation: digits of that value without leading zeros. */
  predicate IsDecimal(digits: bytes, n: nat) {
    digits != [] && AllDigits(digits) && PlaceValue(digits) == n && (|digits| > 1 ==> digits[0] != 48)
  }

  lemma {:induction false} PlaceValueSnoc(digits: bytes, d: byte)
    ensures PlaceValue(digits + [d]) == 10 * PlaceValue(digits) + (d as int - 48)
  {
    if digits == [] {
      assert digits + [d] == [d] && [d][1..] == [];
    } else {
      assert (digits + [d])[1..] == digits[1..] + [d] && (digits + [d])[0] == digits[0];
      PlaceValueSnoc(digits[1..], d);
      Tenfold(digits[0] as int - 48, TenToThe(|digits| - 1));
    }
  }

  lemma Tenfold(d: int, t: nat)
    ensures d * (10 * t) == 10 * (d * t)
  {
  }

  lemma {:induction false} DecIsDecimal(n: nat)
    ensures IsDecimal(Dec(n), n)
  {
    if n >= 10 {
      DecIsDecimal(n / 10);
      PlaceValueSnoc(Dec(n / 10), (48 + n % 10) as byte);
      if |Dec(n / 10)| == 1 {
        assert PlaceValue(Dec(n / 10)[1..]) == 0;
      }
    } else {
      assert Dec(n)[1..] == [];
    }
  }

  // ---------------------------------------------------------------- items

  ghost predicate NoPair(text: bytes) {
    forall i :: 0 <= i < |text| - 1 ==> !(text[i] == 13 && text[i + 1] == 10)
  }

  lemma LineOf(b: byte, text: bytes, t: bytes)
    requires NoPair(text)
    ensures var s := [b] + text + [13, 10] + t;
            s[0] == b && s[1..] == text + [13, 10] + t && SplitLine(s[1..]) == Line(text, t)
  {
    var s := [b] + text + [13, 10] + t;
    assert s[1..] == text + CRLF + t;
    SplitLineOfText(text, t);
  }

  lemma NoPairInNumber(sign: bytes, digits: bytes)
    requires sign in {[], [43], [45]} && AllDigits(digits)
    ensures NoPair(sign + digits)
  {
    var text := sign + digits;
    assert forall i :: |sign| <= i < |text| ==> text[i] == digits[i - |sign|];
  }

  /** What a line makes of an item, by its first byte. */
  lemma FromLine(b: byte, text: bytes, t: bytes, level: nat)
    requires NoPair(text) && level <= 8
    ensures var r, n := ParseItem([b] + text + [13, 10] + t, level), LongLong(text);
            && (b == 43 ==> r == Done(Status(text), t))
            && (b == 45 ==> r == Done(Error(text), t))
            && (b == 58 ==> r == Done(Integer(n), t))
            && (b == 36 ==> r == ParseBody(n, t))
            && (b == 42 && level < 8 ==>
                  r == if n == -1 then Done(Nil, t)
                       else if n <= 0 then Done(Reply.Array(n, []), t)
                       else match ParseItems(t, n, level + 1)
                            case Done(items, rest) => Done(Reply.Array(n, items), rest)
                            case Incomplete => Incomplete
                            case Bad(e) => Bad(e))
  {
    hide NoPair, LongLong, SplitLine, ParseBody, ParseItems;
    LineOf(b, text, t);
  }

  /** `+text` is a status, `-text` an error. */
  lemma TextItem(text: bytes, t: bytes, level: nat)
    requires NoPair(text) && level <= 8
    ensures ParseItem([43] + text + [13, 10] + t, level) == Done(Status(text), t)
    ensures ParseItem([45] + text + [13, 10] + t, level) == Done(Error(text), t)
  {
    hide ParseItem;
    FromLine(43, text, t, level);
    FromLine(45, text, t, level);
  }

  /** `:` introduces a number: the value of its digits up to a CR or the end of the line, with the sign if there
      is one; -1 for anything else. */
  lemma IntegerItem(sign: bytes, digits: bytes, junk: bytes, t: bytes, level: nat)
    requires sign in {[], [43], [45]} && AllDigits(digits) && level <= 8
    requires junk != [] ==> !(48 <= junk[0] <= 57) && NoPair(sign + digits + junk)
    requires sign == [] && digits == [] && junk != [] ==> junk[0] != 43 && junk[0] != 45
    ensures var n := if sign == [45] then -PlaceValue(digits) else PlaceValue(digits);
            ParseItem([58] + (sign + digits + junk) + [13, 10] + t, level)
            == Done(Integer(if junk != [] && junk[0] != 13 then -1 else n), t)
  {
    hide ParseItem, LongLong, PlaceValue, NoPair;
    NoPairInNumber(sign, digits);
    NumberOfLine(sign, digits, junk);
    assert junk == [] ==> sign + digits + junk == sign + digits;
    FromLine(58, sign + digits + junk, t, level);
  }

  /** The number of a line of digits only, and of one with a minus sign. */
  lemma Counts(digits: bytes)
    requires AllDigits(digits)
    ensures NoPair(digits) && LongLong(digits) == PlaceValue(digits)
    ensures NoPair([45] + digits) && LongLong([45] + digits) == -PlaceValue(digits)
  {
    hide LongLong, PlaceValue, NoPair;
    NoPairInNumber([], digits);
    NoPairInNumber([45], digits);
    NumberOfLine([], digits, []);
    NumberOfLine([45], digits, []);
    assert [] + digits == digits && digits + [] == digits && [45] + digits + [] == [45] + digits;
  }

  /** `$` and a length, then so many bytes and two more, whatever those two are. */
  lemma BulkItem(digits: bytes, data: bytes, x: byte, y: byte, t: bytes, level: nat)
    requires AllDigits(digits) && PlaceValue(digits) == |data| && level <= 8
    ensures ParseItem([36] + digits + [13, 10] + (data + [x, y] + t), level) == Done(Bulk(data), t)
  {
    hide ParseItem, LongLong, PlaceValue, NoPair;
    Counts(digits);
    FromLine(36, digits, data + [x, y] + t, level);
    BodyOf(data, x, y, t);
  }

  lemma BodyOf(data: bytes, x: byte, y: byte, t: bytes)
    ensures ParseBody(|data|, data + [x, y] + t) == Done(Bulk(data), t)
  {
    var rest := data + [x, y] + t;
    assert rest[..|data|] == data && rest[|data| + 2..] == t;
  }

  /** `$` and a negative length is nil; so is `*` and -1. */
  lemma NilItems(digits: bytes, t: bytes, level: nat)
    requires AllDigits(digits) && PlaceValue(digits) > 0 && level <= 8
    ensures ParseItem([36] + ([45] + digits) + [13, 10] + t, level) == Done(Nil, t)
    ensures level < 8 ==>
              ParseItem([42] + ([45] + digits) + [13, 10] + t, level)
              == Done(if PlaceValue(digits) == 1 then Nil else Reply.Array(-PlaceValue(digits), []), t)
  {
    hide ParseItem, LongLong, PlaceValue, NoPair;
    Counts(digits);
    FromLine(36, [45] + digits, t, level);
    FromLine(42, [45] + digits, t, level);
  }

  /** The nils that servers send. */
  lemma NilBytes(t: bytes, level: nat)
    requires level < 8
    ensures ParseItem([36, 45, 49, 13, 10] + t, level) == Done(Nil, t)
    ensures ParseItem([42, 45, 49, 13, 10] + t, level) == Done(Nil, t)
  {
    hide ParseItem;
    assert PlaceValue([49]) == 1 + PlaceValue([49][1..]);
    NilItems([49], t, level);
    assert [36] + ([45] + [49]) + [13, 10] + t == [36, 45, 49, 13, 10] + t;
    assert [42] + ([45] + [49]) + [13, 10] + t == [42, 45, 49, 13, 10] + t;
  }

  /** Byte strings that are each read as the item beside them. */
  ghost predicate ReadAs(parts: seq<bytes>, items: seq<Reply>, level: nat)
    requires level <= 8
  {
    && |parts| == |items|
    && forall i, t :: 0 <= i < |parts| ==> ParseItem(parts[i] + t, level) == Done(items[i], t)
  }

  lemma {:induction false} ReadItems(parts: seq<bytes>, items: seq<Reply>, t: bytes, level: nat)
    requires level <= 8 && ReadAs(parts, items, level)
    ensures ParseItems(Concat(parts) + t, |items|, level) == Done(items, t)
    decreases |parts|
  {
    hide ParseItem;
    if parts == [] {
      assert Concat(parts) + t == t;
    } else {
      var later := Concat(parts[1..]) + t;
      assert Concat(parts) + t == parts[0] + later;
      assert ParseItem(parts[0] + later, level) == Done(items[0], later);
      assert forall i, u :: 0 <= i < |parts| - 1 ==> ParseItem(parts[1..][i] + u, level) == Done(items[1..][i], u);
      ReadItems(parts[1..], items[1..], t, level);
      assert items == [items[0]] + items[1..];
    }
  }

  /** `*` and a count, then so many items, at every level below 8. */
  lemma ArrayItem(digits: bytes, parts: seq<bytes>, items: seq<Reply>, t: bytes, level: nat)
    requires level < 8 && AllDigits(digits) && PlaceValue(digits) == |items| && ReadAs(parts, items, level + 1)
    ensures ParseItem([42] + digits + [13, 10] + (Concat(parts) + t), level) == Done(Reply.Array(|items|, items), t)
  {
    hide ParseItem, ParseItems, LongLong, PlaceValue, NoPair, ReadAs;
    Counts(digits);
    FromLine(42, digits, Concat(parts) + t, level);
    ReadItems(parts, items, t, level + 1);
    if items == [] {
      NoItems(parts, items, t, level + 1);
    }
  }

  lemma NoItems(parts: seq<bytes>, items: seq<Reply>, t: bytes, level: nat)
    requires level <= 8 && ReadAs(parts, items, level) && items == []
    ensures Concat(parts) + t == t
  {
    assert parts == [];
  }

  /** No other byte introduces an item. */
  lemma OtherBytes(b: byte, t: bytes, level: nat)
    requires b !in {36, 42, 43, 45, 58} && level <= 8
    ensures ParseItem([b] + t, level) == Bad(BadTypeByte(b))
  {
  }

  // ---------------------------------------------------------------- nesting

  /** `depth` headers of arrays with one item each. */
  function Headers(depth: nat): bytes {
    if depth == 0 then [] else [42, 49, 13, 10] + Headers(depth - 1)
  }

  function Nested(depth: nat, leaf: Reply): Reply {
    if depth == 0 then leaf else Reply.Array(1, [Nested(depth - 1, leaf)])
  }

  lemma OneItem(s: bytes, level: nat)
    requires level < 8
    ensures ParseItem([42, 49, 13, 10] + s, level) == InArray(ParseItem(s, level + 1))
  {
    hide ParseItem, ParseItems, LongLong, NoPair;
    assert PlaceValue([49]) == 1 + PlaceValue([49][1..]);
    Counts([49]);
    FromLine(42, [49], s, level);
    assert [42] + [49] + [13, 10] + s == [42, 49, 13, 10] + s;
    JustOne(s, level + 1);
  }

  /** The outcome of an item as the outcome of the array that holds it alone. */
  function InArray(item: Parsed<Reply>): Parsed<Reply> {
    match item
    case Done(v, rest) => Done(Reply.Array(1, [v]), rest)
    case Incomplete => Incomplete
    case Bad(e) => Bad(e)
  }

  lemma JustOne(s: bytes, level: nat)
    requires level <= 8
    ensures var item := ParseItem(s, level);
            ParseItems(s, 1, level) == match item
                                       case Done(v, rest) => Done([v], rest)
                                       case Incomplete => Incomplete
                                       case Bad(e) => Bad(e)
  {
    hide ParseItem;
    var item := ParseItem(s, level);
    if item.Done? {
      assert ParseItems(item.rest, 0, level) == Done([], item.rest);
      assert [item.value] + [] == [item.value];
    }
  }

  /** The ninth level is refused at its type byte. */
  lemma TooManyLevels(s: bytes)
    ensures ParseItem([42] + s, 8) == Bad(TooDeep)
  {
    assert ([42] + s)[1..] == s;
  }

  function InArrays(depth: nat, item: Parsed<Reply>): Parsed<Reply> {
    match item
    case Done(v, rest) => Done(Nested(depth, v), rest)
    case Incomplete => Incomplete
    case Bad(e) => Bad(e)
  }

  lemma {:induction false} HeadersFrom(depth: nat, s: bytes, level: nat)
    requires level <= 8
    ensures level + depth > 8 ==> ParseItem(Headers(depth) + s, level) == Bad(TooDeep)
    ensures level + depth <= 8 ==>
              ParseItem(Headers(depth) + s, level) == InArrays(depth, ParseItem(s, level + depth))
    decreases depth
  {
    hide ParseItem;
    if depth == 0 {
      assert Headers(0) + s == s;
    } else {
      var later := Headers(depth - 1) + s;
      assert Headers(depth) + s == [42, 49, 13, 10] + later == [42] + ([49, 13, 10] + later);
      if level < 8 {
        HeadersFrom(depth - 1, s, level + 1);
        OneItem(later, level);
      } else {
        TooManyLevels([49, 13, 10] + later);
      }
    }
  }

  /** Up to eight arrays may be nested; the ninth is refused for good, whatever it contains. */
  lemma NestingLimit(depth: nat, text: bytes, t: bytes)
    requires NoPair(text)
    ensures var s := Headers(depth) + ([43] + text + [13, 10] + t);
            Decode(s) == if depth <= 8 then After([Nested(depth, Status(text))], Decode(t))
                         else Decoded([], Failed(TooDeep))
  {
    hide ParseItem;
    HeadersFrom(depth, [43] + text + [13, 10] + t, 0);
    if depth <= 8 {
      TextItem(text, t, depth);
    }
  }

  // ---------------------------------------------------------------- commands

  /** The arguments of a command, each behind the line with its length. */
  function WithLengths(argv: seq<bytes>, lengths: seq<bytes>): bytes
    requires |argv| == |lengths|
  {
    if argv == [] then []
    else [36] + lengths[0] + [13, 10] + argv[0] + [13, 10] + WithLengths(argv[1..], lengths[1..])
  }

  lemma {:induction false} BulksAreWithLengths(argv: seq<bytes>) returns (lengths: seq<bytes>)
    ensures |lengths| == |argv| && forall i :: 0 <= i < |argv| ==> IsDecimal(lengths[i], |argv[i]|)
    ensures EncodeAll(Bulks(argv)) == WithLengths(argv, lengths)
  {
    hide IsDecimal, Dec;
    if argv == [] {
      lengths := [];
    } else {
      var later := BulksAreWithLengths(argv[1..]);
      var length := Dec(|argv[0]|);
      DecIsDecimal(|argv[0]|);
      lengths := [length] + later;
      EncodeBulksHead(argv);
      assert lengths[1..] == later;
      assert Encode(Bulk(argv[0])) == [36] + length + [13, 10] + argv[0] + [13, 10];
    }
  }

  /** A command is `*`, the number of its arguments, and the arguments; all lengths in decimal notation. */
  lemma WireBytes(argv: seq<bytes>) returns (count: bytes, lengths: seq<bytes>)
    ensures IsDecimal(count, |argv|)
    ensures |lengths| == |argv| && forall i :: 0 <= i < |argv| ==> IsDecimal(lengths[i], |argv[i]|)
    ensures Wire(argv) == [42] + count + [13, 10] + WithLengths(argv, lengths)
  {
    hide IsDecimal, WithLengths, EncodeAll;
    count := Dec(|argv|);
    DecIsDecimal(|argv|);
    lengths := BulksAreWithLengths(argv);
  }
}
