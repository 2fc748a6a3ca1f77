/**
 The reply grammar of the Redis serialization protocol as the reader of hiredis/hiredis.c
 understands it, written as a plain recursive descent over the whole input, together with the
 printer that it inverts.
 */
module Resp {
  import opened Options
  import opened Bytes

  /** An `Array` keeps the count of its header beside its items: a header below -1 is accepted and
      gives an array without items whose count is that negative number. */
  datatype Reply =
    | Status(text: bytes)
    | Error(text: bytes)
    | Integer(value: int)
    | Bulk(data: bytes)
    | Nil
    | Array(elements: int, items: seq<Reply>)

  datatype Kind = KStatus | KError | KInteger | KBulk | KArray

  datatype ProtocolError = BadTypeByte(b: byte) | TooDeep

  datatype Parsed<+T> = Done(value: T, rest: bytes) | Incomplete | Bad(error: ProtocolError)

  /** The deepest level of the stack of tasks: arrays may stand at levels 0 to 7. */
  const MAX_LEVEL: nat := 8

  // ---------------------------------------------------------------- lines

  predicate CrLfAt(s: bytes, i: int) {
    0 <= i && i + 1 < |s| && s[i] == CR && s[i + 1] == LF
  }

  ghost predicate NoCrLf(s: bytes) {
    forall i :: !CrLfAt(s, i)
  }

  /** The offset of the first CR LF pair, or -1. */
  function FindCrLf(s: bytes): (r: int)
    ensures r == -1 || CrLfAt(s, r)
    ensures forall i :: CrLfAt(s, i) ==> 0 <= r <= i
  {
    if |s| < 2 then -1
    else if CrLfAt(s, 0) then 0
    else
      var t := FindCrLf(s[1..]);
      assert forall i :: CrLfAt(s, i) ==> CrLfAt(s[1..], i - 1);
      if t < 0 then -1 else t + 1
  }

  datatype Line = NoLine | Line(text: bytes, rest: bytes)

  function SplitLine(s: bytes): Line {
    var r := FindCrLf(s);
    if r < 0 then NoLine else Line(s[..r], s[r + 2..])
  }

  lemma SplitLineExtend(s: bytes, t: bytes)
    requires SplitLine(s).Line?
    ensures SplitLine(s + t) == Line(SplitLine(s).text, SplitLine(s).rest + t)
  {
    var r, f := FindCrLf(s), FindCrLf(s + t);
    assert CrLfAt(s + t, r);
    assert CrLfAt(s, f);
    assert (s + t)[..r] == s[..r];
    assert (s + t)[r + 2..] == s[r + 2..] + t;
  }

  /** A line is read back whole exactly when it contains no CR LF pair; a CR at its end is harmless. */
  lemma SplitLineOfText(text: bytes, t: bytes)
    ensures SplitLine(text + CRLF + t) == Line(text, t) <==> NoCrLf(text)
  {
    var s := text + CRLF + t;
    var f := FindCrLf(s);
    assert CrLfAt(s, |text|);
    assert forall i :: i + 1 < |text| ==> CrLfAt(text, i) == CrLfAt(s, i);
    assert s[..|text|] == text && s[|text| + 2..] == t;
    if f < |text| {
      assert CrLfAt(text, f);
    } else {
      assert forall i :: CrLfAt(text, i) ==> CrLfAt(s, i);
    }
  }

  // ---------------------------------------------------------------- the grammar

  function KindOf(b: byte): Option<Kind> {
    if b == MINUS then Some(KError)
    else if b == PLUS then Some(KStatus)
    else if b == COLON then Some(KInteger)
    else if b == DOLLAR then Some(KBulk)
    else if b == STAR then Some(KArray)
    else None
  }

  /** An item at nesting level `level`, from its type byte on. */
  function ParseItem(s: bytes, level: nat): (r: Parsed<Reply>)
    requires level <= MAX_LEVEL
    ensures r.Done? ==> |r.rest| < |s|
    decreases |s|, 0, 0
  {
    if s == [] then Incomplete
    else
      match KindOf(s[0])
      case None => Bad(BadTypeByte(s[0]))
      case Some(kind) => ParseTyped(kind, s[1..], level)
  }

  /** An item whose type byte has been read. An array at the deepest level is refused before its
      header is looked at. */
  function ParseTyped(kind: Kind, s: bytes, level: nat): (r: Parsed<Reply>)
    requires level <= MAX_LEVEL
    ensures r.Done? ==> |r.rest| < |s|
    decreases |s|, 0, 0
  {
    if kind == KArray && level == MAX_LEVEL then Bad(TooDeep)
    else
      match SplitLine(s)
      case NoLine => Incomplete
      case Line(text, rest) =>
        match kind
        case KStatus => Done(Status(text), rest)
        case KError => Done(Error(text), rest)
        case KInteger => Done(Integer(LongLong(text)), rest)
        case KBulk => ParseBody(LongLong(text), rest)
        case KArray =>
          var n := LongLong(text);
          if n == -1 then Done(Nil, rest)
          else if n <= 0 then Done(Array(n, []), rest)
          else
            match ParseItems(rest, n, level + 1)
            case Done(items, rest') => Done(Array(n, items), rest')
            case Incomplete => Incomplete
            case Bad(e) => Bad(e)
  }

  /** The body of a bulk string: any negative length is nil, and the two bytes behind the body are
      skipped whatever they are. */
  function ParseBody(n: int, s: bytes): (r: Parsed<Reply>)
    ensures r.Done? ==> |r.rest| <= |s|
  {
    if n < 0 then Done(Nil, s)
    else if n + 2 <= |s| then Done(Bulk(s[..n]), s[n + 2..])
    else Incomplete
  }

  /** `n` items in a row. */
  function ParseItems(s: bytes, n: nat, level: nat): (r: Parsed<seq<Reply>>)
    requires level <= MAX_LEVEL
    ensures r.Done? ==> |r.rest| <= |s| && |r.value| == n
    decreases |s|, 1, n
  {
    if n == 0 then Done([], s)
    else
      match ParseItem(s, level)
      case Incomplete => Incomplete
      case Bad(e) => Bad(e)
      case Done(v, rest) =>
        match ParseItems(rest, n - 1, level)
        case Incomplete => Incomplete
        case Bad(e) => Bad(e)
        case Done(vs, rest') => Done([v] + vs, rest')
  }

  // ---------------------------------------------------------------- streams of replies

  /** How a stream ends: between or inside replies, or in an error. */
  datatype Ending = Waiting | Failed(error: ProtocolError)

  datatype Decoded = Decoded(replies: seq<Reply>, ending: Ending)

  /** Everything a byte stream says: its complete replies in order, and how it ends. */
  function Decode(s: bytes): Decoded
    decreases |s|
  {
    match ParseItem(s, 0)
    case Incomplete => Decoded([], Waiting)
    case Bad(e) => Decoded([], Failed(e))
    case Done(v, rest) => After([v], Decode(rest))
  }

  function After(replies: seq<Reply>, d: Decoded): Decoded {
    Decoded(replies + d.replies, d.ending)
  }

  lemma {:induction false} ParseItemExtend(s: bytes, t: bytes, level: nat)
    requires level <= MAX_LEVEL
    ensures ParseItem(s, level).Done? ==>
              ParseItem(s + t, level) == Done(ParseItem(s, level).value, ParseItem(s, level).rest + t)
    ensures ParseItem(s, level).Bad? ==> ParseItem(s + t, level) == ParseItem(s, level)
    decreases |s|, 0, 0
  {
    if s != [] {
      assert (s + t)[1..] == s[1..] + t;
      var kind := KindOf(s[0]);
      if kind.Some? {
        ParseTypedExtend(kind.value, s[1..], t, level);
      }
    }
  }

  lemma {:induction false} ParseTypedExtend(kind: Kind, s: bytes, t: bytes, level: nat)
    requires level <= MAX_LEVEL
    ensures ParseTyped(kind, s, level).Done? ==>
              ParseTyped(kind, s + t, level)
              == Done(ParseTyped(kind, s, level).value, ParseTyped(kind, s, level).rest + t)
    ensures ParseTyped(kind, s, level).Bad? ==> ParseTyped(kind, s + t, level) == ParseTyped(kind, s, level)
    decreases |s|, 0, 0
  {
    hide ParseItem, ParseItems;
    if !(kind == KArray && level == MAX_LEVEL) && SplitLine(s).Line? {
      SplitLineExtend(s, t);
      var n, rest := LongLong(SplitLine(s).text), SplitLine(s).rest;
      if kind == KBulk && 0 <= n && n + 2 <= |rest| {
        assert (rest + t)[..n] == rest[..n];
        assert (rest + t)[n + 2..] == rest[n + 2..] + t;
      } else if kind == KArray && 0 < n {
        ParseItemsExtend(rest, n, t, level + 1);
      }
    }
  }

  lemma {:induction false} ParseItemsExtend(s: bytes, n: nat, t: bytes, level: nat)
    requires level <= MAX_LEVEL
    ensures ParseItems(s, n, level).Done? ==>
              ParseItems(s + t, n, level) == Done(ParseItems(s, n, level).value, ParseItems(s, n, level).rest + t)
    ensures ParseItems(s, n, level).Bad? ==> ParseItems(s + t, n, level) == ParseItems(s, n, level)
    decreases |s|, 1, n
  {
    hide ParseItem;
    if n > 0 {
      ParseItemExtend(s, t, level);
      var r := ParseItem(s, level);
      if r.Done? {
        ParseItemsExtend(r.rest, n - 1, t, level);
      }
    }
  }

  /** More bytes never change the replies already decoded, and an error is final. */
  lemma {:induction false} DecodeExtend(s: bytes, t: bytes)
    ensures Decode(s).replies <= Decode(s + t).replies
    ensures Decode(s).ending.Failed? ==> Decode(s + t) == Decode(s)
    decreases |s|
  {
    ParseItemExtend(s, t, 0);
    var r := ParseItem(s, 0);
    if r.Done? {
      DecodeExtend(r.rest, t);
    }
  }

  // ---------------------------------------------------------------- the printer

  function TypedLine(b: byte, text: bytes): bytes {
    [b] + text + CRLF
  }

  function Encode(v: Reply): bytes {
    match v
    case Status(text) => TypedLine(PLUS, text)
    case Error(text) => TypedLine(MINUS, text)
    case Integer(i) => TypedLine(COLON, DecInt(i))
    case Bulk(data) => TypedLine(DOLLAR, DecInt(|data|)) + (data + CRLF)
    case Nil => TypedLine(DOLLAR, DecInt(-1))
    case Array(n, items) => TypedLine(STAR, DecInt(n)) + EncodeAll(items)
  }

  function EncodeAll(vs: seq<Reply>): bytes {
    if vs == [] then [] else Encode(vs[0]) + EncodeAll(vs[1..])
  }

  /** The replies that can stand on the wire at nesting level `level`. */
  ghost predicate Encodable(v: Reply, level: nat) {
    match v
    case Status(text) => NoCrLf(text)
    case Error(text) => NoCrLf(text)
    case Integer(_) => true
    case Bulk(_) => true
    case Nil => true
    case Array(n, items) =>
      && level < MAX_LEVEL
      && n != -1
      && |items| == (if n > 0 then n else 0)
      && forall i :: 0 <= i < |items| ==> Encodable(items[i], level + 1)
  }

  /** Reading a line back after its type byte. */
  lemma ReadTypedLine(b: byte, text: bytes, t: bytes)
    requires NoCrLf(text)
    ensures var s := TypedLine(b, text) + t;
            s[0] == b && SplitLine(s[1..]) == Line(text, t)
  {
    assert (TypedLine(b, text) + t)[1..] == text + CRLF + t;
    SplitLineOfText(text, t);
  }

  lemma ReadHeader(b: byte, n: int, t: bytes)
    ensures var s := TypedLine(b, DecInt(n)) + t;
            s[0] == b && SplitLine(s[1..]) == Line(DecInt(n), t)
    ensures LongLong(DecInt(n)) == n
  {
    assert NoCrLf(DecInt(n)) by {
      assert forall k :: 1 <= k < |DecInt(n)| ==> IsDigit(DecInt(n)[k]);
    }
    ReadTypedLine(b, DecInt(n), t);
    LongLongOfDecInt(n);
  }

  lemma ParseUndoesBulk(data: bytes, t: bytes, level: nat)
    requires level <= MAX_LEVEL
    ensures ParseItem(Encode(Bulk(data)) + t, level) == Done(Bulk(data), t)
  {
    var header, t' := TypedLine(DOLLAR, DecInt(|data|)), data + CRLF + t;
    assert header + (data + CRLF) + t == header + t';
    ReadHeader(DOLLAR, |data|, t');
    assert ParseBody(|data|, t') == Done(Bulk(data), t) by {
      assert t'[..|data|] == data && t'[|data| + 2..] == t;
    }
  }

  lemma {:induction false} ParseUndoesEncode(v: Reply, t: bytes, level: nat)
    requires level <= MAX_LEVEL
    requires Encodable(v, level)
    ensures ParseItem(Encode(v) + t, level) == Done(v, t)
    decreases v, 0
  {
    match v
    case Status(text) => ReadTypedLine(PLUS, text, t);
    case Error(text) => ReadTypedLine(MINUS, text, t);
    case Integer(i) => ReadHeader(COLON, i, t);
    case Nil => ReadHeader(DOLLAR, -1, t);
    case Bulk(data) => ParseUndoesBulk(data, t, level);
    case Array(n, items) => ParseUndoesArray(n, items, t, level);
  }

  lemma ArrayFromHeader(s: bytes, n: int, items: seq<Reply>, rest: bytes, t: bytes, level: nat)
    requires level < MAX_LEVEL && n != -1
    requires |s| > 0 && s[0] == STAR && SplitLine(s[1..]) == Line(DecInt(n), rest)
    requires if n > 0 then ParseItems(rest, n, level + 1) == Done(items, t) else items == [] && rest == t
    ensures ParseItem(s, level) == Done(Array(n, items), t)
  {
    LongLongOfDecInt(n);
    assert ParseTyped(KArray, s[1..], level) == Done(Array(n, items), t);
  }

  lemma {:induction false} ParseUndoesArray(n: int, items: seq<Reply>, t: bytes, level: nat)
    requires level <= MAX_LEVEL
    requires Encodable(Array(n, items), level)
    ensures ParseItem(Encode(Array(n, items)) + t, level) == Done(Array(n, items), t)
    decreases items, 2
  {
    var header, t' := TypedLine(STAR, DecInt(n)), EncodeAll(items) + t;
    var s := header + t';
    assert header + EncodeAll(items) + t == s;
    if n > 0 {
      ParseItemsUndoesEncodeAll(items, t, level + 1);
    } else {
      assert t' == t;
    }
    ReadHeader(STAR, n, t');
    ArrayFromHeader(s, n, items, t', t, level);
  }

  lemma EncodeAllHead(vs: seq<Reply>, t: bytes)
    requires vs != []
    ensures EncodeAll(vs) + t == Encode(vs[0]) + (EncodeAll(vs[1..]) + t)
  {
    assert EncodeAll(vs) == Encode(vs[0]) + EncodeAll(vs[1..]);
  }

  lemma {:induction false} ParseItemsUndoesEncodeAll(vs: seq<Reply>, t: bytes, level: nat)
    requires level <= MAX_LEVEL
    requires forall i :: 0 <= i < |vs| ==> Encodable(vs[i], level)
    ensures ParseItems(EncodeAll(vs) + t, |vs|, level) == Done(vs, t)
    decreases vs, 1
  {
    if vs == [] {
      assert EncodeAll(vs) + t == t;
    } else {
      var t' := EncodeAll(vs[1..]) + t;
      EncodeAllHead(vs, t);
      ParseUndoesEncode(vs[0], t', level);
      ParseItemsUndoesEncodeAll(vs[1..], t, level);
      ItemsFromHead(EncodeAll(vs) + t, vs, t', t, level);
    }
  }

  lemma ItemsFromHead(s: bytes, vs: seq<Reply>, rest: bytes, t: bytes, level: nat)
    requires level <= MAX_LEVEL && vs != []
    requires ParseItem(s, level) == Done(vs[0], rest)
    requires ParseItems(rest, |vs| - 1, level) == Done(vs[1..], t)
    ensures ParseItems(s, |vs|, level) == Done(vs, t)
  {
    assert vs == [vs[0]] + vs[1..];
  }

  /** Whatever the bytes were, a parsed reply has text without CR LF, complete arrays and at most
      eight levels of nesting. */
  lemma {:induction false} ParsedIsEncodable(s: bytes, level: nat)
    requires level <= MAX_LEVEL
    requires ParseItem(s, level).Done?
    ensures Encodable(ParseItem(s, level).value, level)
    decreases |s|, 0, 0
  {
    var kind, s' := KindOf(s[0]).value, s[1..];
    var text, rest := SplitLine(s').text, SplitLine(s').rest;
    assert NoCrLf(text) by {
      assert forall i :: CrLfAt(text, i) ==> CrLfAt(s', i);
    }
    var n := LongLong(text);
    if kind == KArray && n > 0 {
      ParsedItemsAreEncodable(rest, n, level + 1);
    }
  }

  lemma {:induction false} ParsedItemsAreEncodable(s: bytes, n: nat, level: nat)
    requires level <= MAX_LEVEL
    requires ParseItems(s, n, level).Done?
    ensures forall v :: v in ParseItems(s, n, level).value ==> Encodable(v, level)
    decreases |s|, 1, n
  {
    if n > 0 {
      ParsedIsEncodable(s, level);
      ParsedItemsAreEncodable(ParseItem(s, level).rest, n - 1, level);
    }
  }

  /** The exact domain of the round trip, for replies of any shape. */
  lemma RoundTrip(v: Reply, level: nat)
    requires level <= MAX_LEVEL
    ensures (forall t :: ParseItem(Encode(v) + t, level) == Done(v, t)) <==> Encodable(v, level)
  {
    if Encodable(v, level) {
      forall t ensures ParseItem(Encode(v) + t, level) == Done(v, t) {
        ParseUndoesEncode(v, t, level);
      }
    } else if forall t :: ParseItem(Encode(v) + t, level) == Done(v, t) {
      assert ParseItem(Encode(v) + [], level) == Done(v, []);
      ParsedIsEncodable(Encode(v) + [], level);
      assert false;
    }
  }

  /** A stream of printed replies followed by the start of another one. */
  lemma {:induction false} DecodeUndoesEncodeAll(vs: seq<Reply>, t: bytes)
    requires forall i :: 0 <= i < |vs| ==> Encodable(vs[i], 0)
    ensures Decode(EncodeAll(vs) + t) == After(vs, Decode(t))
  {
    if vs == [] {
      assert EncodeAll(vs) + t == t;
    } else {
      var t' := EncodeAll(vs[1..]) + t;
      EncodeAllHead(vs, t);
      ParseUndoesEncode(vs[0], t', 0);
      DecodeUndoesEncodeAll(vs[1..], t);
      DecodeFromHead(EncodeAll(vs) + t, vs, t', Decode(t));
    }
  }

  lemma DecodeFromHead(s: bytes, vs: seq<Reply>, rest: bytes, d: Decoded)
    requires vs != []
    requires ParseItem(s, 0) == Done(vs[0], rest) && Decode(rest) == After(vs[1..], d)
    ensures Decode(s) == After(vs, d)
  {
    assert [vs[0]] + (vs[1..] + d.replies) == vs + d.replies;
  }
}
