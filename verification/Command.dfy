/**
 The two command formatters of hiredis/hiredis.c and the argument scanner of hiredis/async.c. A
 command on the wire is the array reply of its arguments as bulk strings.
 */
module Commands {
  import opened Options
  import opened Bytes
  import opened Resp

  function Bulks(argv: seq<bytes>): (r: seq<Reply>)
    ensures |r| == |argv|
    ensures forall i :: 0 <= i < |argv| ==> r[i] == Bulk(argv[i])
  {
    if argv == [] then [] else [Bulk(argv[0])] + Bulks(argv[1..])
  }

  /** The reply that a command looks like on the wire. */
  function AsReply(argv: seq<bytes>): Reply {
    Array(|argv|, Bulks(argv))
  }

  function Wire(argv: seq<bytes>): bytes {
    Encode(AsReply(argv))
  }

  /** A reader of replies gets back the array of exactly the arguments, whatever bytes they hold. */
  lemma ReadBackCommand(argv: seq<bytes>, t: bytes)
    ensures ParseItem(Wire(argv) + t, 0) == Done(AsReply(argv), t)
  {
    ParseUndoesEncode(AsReply(argv), t, 0);
  }

  /** Different argument vectors have different wire forms, even when one is followed by more bytes. */
  lemma WireIsInjective(argv1: seq<bytes>, t1: bytes, argv2: seq<bytes>, t2: bytes)
    requires Wire(argv1) + t1 == Wire(argv2) + t2
    ensures argv1 == argv2 && t1 == t2
  {
    ReadBackCommand(argv1, t1);
    ReadBackCommand(argv2, t2);
    forall i | 0 <= i < |argv1| ensures argv1[i] == argv2[i] {
      assert Bulks(argv1)[i] == Bulks(argv2)[i];
    }
  }

  // ---------------------------------------------------------------- lengths

  /** The number of characters that print an integer. */
  method IntLen(i: int) returns (len: nat)
    ensures len == |DecInt(i)|
  {
    len := 0;
    var n := i;
    if n < 0 {
      len := len + 1;
      n := -n;
    }
    ghost var sign := len;
    ghost var m := n;
    len := len + 1;
    n := n / 10;
    while n != 0
      invariant n >= 0 && len > sign
      invariant |Dec(m)| + sign == len + (if n == 0 then 0 else |Dec(n)|)
    {
      len := len + 1;
      n := n / 10;
    }
  }

  /** The number of bytes that a bulk string of a given length takes. */
  method BulkLen(len: nat) returns (r: nat)
    ensures forall arg: bytes :: |arg| == len ==> r == |Encode(Bulk(arg))|
  {
    var digits := IntLen(len);
    r := 1 + digits + 2 + len + 2;
  }

  // ---------------------------------------------------------------- writing a command

  /** sprintf or memcpy of `s` at `pos`. */
  method Put(cmd: array<byte>, pos: nat, s: bytes)
    requires pos + |s| <= cmd.Length
    modifies cmd
    ensures cmd[..pos + |s|] == old(cmd[..pos]) + s
  {
    for i := 0 to |s|
      invariant cmd[..pos + i] == old(cmd[..pos]) + s[..i]
    {
      cmd[pos + i] := s[i];
      assert cmd[..pos + i + 1] == cmd[..pos + i] + [s[i]];
      assert s[..i + 1] == s[..i] + [s[i]];
    }
    assert s[..|s|] == s;
  }

  lemma {:induction false} EncodeBulksSnoc(argv: seq<bytes>, arg: bytes)
    ensures EncodeAll(Bulks(argv + [arg])) == EncodeAll(Bulks(argv)) + Encode(Bulk(arg))
  {
    if argv == [] {
      assert argv + [arg] == [arg];
      assert EncodeAll(Bulks([arg])) == Encode(Bulk(arg)) + EncodeAll([]);
    } else {
      assert (argv + [arg])[1..] == argv[1..] + [arg];
      EncodeBulksSnoc(argv[1..], arg);
      EncodeBulksHead(argv);
      EncodeBulksHead(argv + [arg]);
    }
  }

  lemma EncodeBulksHead(argv: seq<bytes>)
    requires argv != []
    ensures EncodeAll(Bulks(argv)) == Encode(Bulk(argv[0])) + EncodeAll(Bulks(argv[1..]))
  {
    assert Bulks(argv)[1..] == Bulks(argv[1..]);
  }

  /** The announced argument lengths add up to the length of the whole command. */
  lemma {:induction false} LengthSnoc(argv: seq<bytes>, k: nat)
    requires k < |argv|
    ensures |EncodeAll(Bulks(argv[..k + 1]))| == |EncodeAll(Bulks(argv[..k]))| + |Encode(Bulk(argv[k]))|
    ensures EncodeAll(Bulks(argv[..k + 1])) == EncodeAll(Bulks(argv[..k])) + Encode(Bulk(argv[k]))
  {
    assert argv[..k + 1] == argv[..k] + [argv[k]];
    EncodeBulksSnoc(argv[..k], argv[k]);
  }

  lemma {:induction false} LengthMonotone(argv: seq<bytes>, k: nat)
    requires k <= |argv|
    ensures |EncodeAll(Bulks(argv[..k]))| <= |EncodeAll(Bulks(argv))|
    decreases |argv| - k
  {
    if k == |argv| {
      assert argv[..k] == argv;
    } else {
      LengthSnoc(argv, k);
      LengthMonotone(argv, k + 1);
    }
  }

  /** One argument of a command: its length line, its bytes, and CR LF. */
  method PutBulk(cmd: array<byte>, start: nat, arg: bytes) returns (pos: nat)
    requires start + |Encode(Bulk(arg))| <= cmd.Length
    modifies cmd
    ensures pos == start + |Encode(Bulk(arg))| && cmd[..pos] == old(cmd[..start]) + Encode(Bulk(arg))
  {
    var length := TypedLine(DOLLAR, DecInt(|arg|));
    pos := start;
    Put(cmd, pos, length);
    pos := pos + |length|;
    Put(cmd, pos, arg);
    pos := pos + |arg|;
    Put(cmd, pos, CRLF);
    pos := pos + |CRLF|;
    assert cmd[..pos] == old(cmd[..start]) + length + arg + CRLF;
  }

  /** The header of a command and its first `k` arguments. */
  function Prefix(argv: seq<bytes>, k: nat): bytes
    requires k <= |argv|
  {
    TypedLine(STAR, DecInt(|argv|)) + EncodeAll(Bulks(argv[..k]))
  }

  lemma PrefixStep(argv: seq<bytes>, k: nat)
    requires k < |argv|
    ensures Prefix(argv, k + 1) == Prefix(argv, k) + Encode(Bulk(argv[k]))
    ensures |Prefix(argv, k + 1)| <= |Wire(argv)|
  {
    LengthSnoc(argv, k);
    LengthMonotone(argv, k + 1);
  }

  lemma PrefixEnds(argv: seq<bytes>)
    ensures Prefix(argv, 0) == TypedLine(STAR, DecInt(|argv|))
    ensures Prefix(argv, |argv|) == Wire(argv)
  {
    assert argv[..0] == [] && argv[..|argv|] == argv;
  }

  /** Builds the command in a buffer of exactly the precomputed size, plus the terminator. */
  method Write(argv: seq<bytes>, totlen: nat) returns (cmd: array<byte>)
    requires totlen == |Wire(argv)|
    ensures fresh(cmd) && cmd.Length == totlen + 1
    ensures cmd[..totlen] == Wire(argv) && cmd[totlen] == NUL
  {
    hide Wire, Encode;
    PrefixEnds(argv);
    cmd := new byte[totlen + 1];
    WriteFits(argv);
    var header := TypedLine(STAR, DecInt(|argv|));
    Put(cmd, 0, header);
    var pos := |header|;
    for j := 0 to |argv|
      invariant pos == |Prefix(argv, j)| <= totlen && cmd[..pos] == Prefix(argv, j)
    {
      PrefixStep(argv, j);
      pos := PutBulk(cmd, pos, argv[j]);
    }
    assert pos == totlen;
    cmd[pos] := NUL;
  }

  lemma WriteFits(argv: seq<bytes>)
    ensures |Prefix(argv, 0)| <= |Wire(argv)|
  {
    LengthMonotone(argv, 0);
  }

  /** redisFormatCommandArgv: the length is computed first, then the command is written. */
  method FormatCommandArgv(argv: seq<bytes>) returns (cmd: array<byte>, totlen: nat)
    ensures fresh(cmd) && cmd.Length == totlen + 1
    ensures cmd[..totlen] == Wire(argv) && cmd[totlen] == NUL
  {
    var digits := IntLen(|argv|);
    totlen := 1 + digits + 2;
    PrefixEnds(argv);
    for j := 0 to |argv|
      invariant totlen == |Prefix(argv, j)|
    {
      PrefixStep(argv, j);
      var len := BulkLen(|argv[j]|);
      totlen := totlen + len;
    }
    cmd := Write(argv, totlen);
  }

  // ---------------------------------------------------------------- command templates

  /** The value of an interpolation: `%s` takes a C string, `%b` any bytes; of the value of a printf
      conversion only the text counts that printf makes of it. */
  datatype Value = Str(s: bytes) | Bin(b: bytes) | Formatted(text: bytes)

  /** A template with its values in place: spaces of the template itself are gaps, everything else
      is text, values included. */
  datatype Piece = Gap | Text(text: bytes)

  const LOWER_S: byte := 115
  const LOWER_B: byte := 98
  const LOWER_H: byte := 104
  const LOWER_L: byte := 108
  const HASH: byte := 35
  const DOT: byte := 46
  /** The buffer for one conversion holds 16 bytes, of which two are kept free. */
  const MAX_FORMAT: nat := 14

  /** "diouxX" and "eEfFgGaA" */
  predicate IsIntegerSpecifier(c: byte) {
    c in [100, 105, 111, 117, 120, 88]
  }

  predicate IsDoubleSpecifier(c: byte) {
    c in [101, 69, 102, 70, 103, 71, 97, 65]
  }

  function SkipByte(format: bytes, i: nat, b: byte): (j: nat)
    requires i <= |format|
    ensures i <= j <= |format|
  {
    if i < |format| && format[i] == b then i + 1 else i
  }

  function SkipDigits(format: bytes, i: nat): (j: nat)
    requires i <= |format|
    ensures i <= j <= |format|
    decreases |format| - i
  {
    if i < |format| && IsDigit(format[i]) then SkipDigits(format, i + 1) else i
  }

  /** The end of the flags: `#`, `0`, `-`, space and `+`, in this order. */
  function FlagsEnd(format: bytes, i: nat): (j: nat)
    requires i <= |format|
    ensures i <= j <= |format|
  {
    var j := SkipByte(format, SkipByte(format, i, HASH), ZERO);
    SkipByte(format, SkipByte(format, SkipByte(format, j, MINUS), SPACE), PLUS)
  }

  /** The end of flags, width and precision. */
  function SpecifierAt(format: bytes, i: nat): (j: nat)
    requires i <= |format|
    ensures i <= j <= |format|
  {
    var width := SkipDigits(format, FlagsEnd(format, i));
    if width < |format| && format[width] == DOT then SkipDigits(format, width + 1) else width
  }

  datatype Conversion = Invalid | Unfinished | Conversion(end: nat)

  function IntegerAt(format: bytes, i: nat): Conversion
    requires i <= |format|
  {
    if i < |format| && IsIntegerSpecifier(format[i]) then Conversion(i + 1) else Invalid
  }

  /** The printf conversion whose `%` lies just before `i`. */
  function ConversionAt(format: bytes, i: nat): (c: Conversion)
    requires i <= |format|
    ensures c.Conversion? ==> i < c.end <= |format|
  {
    var p := SpecifierAt(format, i);
    if p == |format| then Unfinished
    else if IsIntegerSpecifier(format[p]) || IsDoubleSpecifier(format[p]) then Conversion(p + 1)
    else if format[p] == LOWER_H || format[p] == LOWER_L then
      IntegerAt(format, SkipByte(format, p + 1, format[p]))
    else Invalid
  }

  /** What stands at a position of a template. A conversion longer than its buffer takes its value but
      prints nothing, and only its first two bytes are passed. */
  datatype Element = Plain(c: byte) | Percent | StrValue | BinValue | PrintfValue(end: nat) | Malformed | Endless

  function ElementAt(format: bytes, c: nat): (e: Element)
    requires c < |format|
    ensures e.PrintfValue? ==> c + 1 < e.end <= |format|
  {
    if format[c] != PERCENT || c + 1 == |format| then Plain(format[c])
    else if format[c + 1] == LOWER_S then StrValue
    else if format[c + 1] == LOWER_B then BinValue
    else if format[c + 1] == PERCENT then Percent
    else
      match ConversionAt(format, c + 1)
      case Invalid => Malformed
      case Unfinished => Endless
      case Conversion(end) => PrintfValue(end)
  }

  predicate IsShort(c: nat, end: nat) {
    end < c + MAX_FORMAT
  }

  /** Where the template goes on. */
  function Behind(format: bytes, c: nat): (next: nat)
    requires c < |format|
    ensures c < next <= |format|
  {
    match ElementAt(format, c)
    case Plain(_) => c + 1
    case PrintfValue(end) => if IsShort(c, end) then end else c + 2
    case Malformed => c + 1
    case Endless => c + 1
    case _ => c + 2
  }

  predicate Accepts(e: Element, v: Value) {
    match e
    case StrValue => v.Str?
    case BinValue => v.Bin?
    case PrintfValue(_) => v.Formatted?
    case _ => false
  }

  predicate TakesValue(e: Element) {
    e.StrValue? || e.BinValue? || e.PrintfValue?
  }

  /** There is a value of the right type for each interpolation up to the first malformed conversion, and
      no conversion runs into the end of the template; more values do no harm. */
  predicate Fits(format: bytes, c: nat, values: seq<Value>, ap: nat)
    requires c <= |format|
    decreases |format| - c
  {
    if c == |format| then true
    else
      var e := ElementAt(format, c);
      if e.Malformed? then true
      else if e.Endless? then false
      else if TakesValue(e) then
        ap < |values| && Accepts(e, values[ap]) && Fits(format, Behind(format, c), values, ap + 1)
      else Fits(format, Behind(format, c), values, ap)
  }

  /** The text that an interpolated value stands for. */
  function TextOf(v: Value): bytes {
    match v case Str(s) => s case Bin(b) => b case Formatted(t) => t
  }

  function PieceAt(format: bytes, c: nat, values: seq<Value>, ap: nat): Piece
    requires c < |format| && (TakesValue(ElementAt(format, c)) ==> ap < |values|)
  {
    match ElementAt(format, c)
    case Plain(b) => if b == SPACE then Gap else Text([b])
    case Percent => Text([PERCENT])
    case PrintfValue(end) => Text(if IsShort(c, end) then TextOf(values[ap]) else [])
    case StrValue => Text(TextOf(values[ap]))
    case BinValue => Text(TextOf(values[ap]))
    case _ => Gap
  }

  /** The template from position `c` with the values from `ap` on in place; None for a malformed one. */
  function Interpolate(format: bytes, c: nat, values: seq<Value>, ap: nat): Option<seq<Piece>>
    requires c <= |format| && Fits(format, c, values, ap)
    decreases |format| - c
  {
    if c == |format| then Some([])
    else
      var e := ElementAt(format, c);
      if e.Malformed? then None
      else
        match Interpolate(format, Behind(format, c), values, if TakesValue(e) then ap + 1 else ap)
        case None => None
        case Some(ps) => Some([PieceAt(format, c, values, ap)] + ps)
  }

  /** The length of the first word: the pieces before the first gap. */
  function WordEnd(ps: seq<Piece>): (n: nat)
    ensures n <= |ps| && (n < |ps| ==> ps[n].Gap?)
    ensures forall i :: 0 <= i < n ==> ps[i].Text?
  {
    if ps == [] || ps[0].Gap? then 0 else 1 + WordEnd(ps[1..])
  }

  function Join(ps: seq<Piece>): bytes {
    if ps == [] then [] else (if ps[0].Gap? then [] else ps[0].text) + Join(ps[1..])
  }

  /** The arguments of a template: its maximal runs of text. */
  function Arguments(ps: seq<Piece>): seq<bytes>
    decreases |ps|
  {
    if ps == [] then []
    else if ps[0].Gap? then Arguments(ps[1..])
    else
      var n := WordEnd(ps);
      [Join(ps[..n])] + Arguments(ps[n..])
  }

  /** The arguments still to come when a part of the current one has been collected. */
  function Collect(current: Option<bytes>, ps: seq<Piece>): seq<bytes>
    decreases |ps|
  {
    if ps == [] then (match current case None => [] case Some(b) => [b])
    else match ps[0]
         case Gap => (match current case None => [] case Some(b) => [b]) + Collect(None, ps[1..])
         case Text(t) => Collect(Some((match current case None => [] case Some(b) => b) + t), ps[1..])
  }

  /** Collecting piece by piece gives the maximal runs of text. */
  lemma {:induction false} CollectIsArguments(current: Option<bytes>, ps: seq<Piece>)
    ensures current.None? ==> Collect(None, ps) == Arguments(ps)
    ensures current.Some? ==>
              Collect(current, ps) == [current.value + Join(ps[..WordEnd(ps)])] + Arguments(ps[WordEnd(ps)..])
    decreases |ps|
  {
    var n := WordEnd(ps);
    if ps != [] {
      match ps[0]
      case Gap =>
        CollectIsArguments(None, ps[1..]);
        assert ps[..0] == [] && ps[0..] == ps;
        if current.Some? {
          assert current.value + [] == current.value;
        }
      case Text(t) =>
        var so := match current case None => [] case Some(b) => b;
        CollectIsArguments(Some(so + t), ps[1..]);
        assert ps[..n][1..] == ps[1..][..n - 1];
        assert Join(ps[..n]) == t + Join(ps[1..][..n - 1]);
        assert so + t + Join(ps[1..][..n - 1]) == so + Join(ps[..n]);
        assert ps[n..] == ps[1..][n - 1..];
        assert [] + Join(ps[..n]) == Join(ps[..n]);
    } else {
      assert ps[..0] == [];
      if current.Some? {
        assert current.value + [] == current.value;
      }
    }
  }

  /** Two templates with gaps in the same places. */
  predicate SameGaps(ps: seq<Piece>, qs: seq<Piece>) {
    |ps| == |qs| && forall i :: 0 <= i < |ps| ==> ps[i].Gap? == qs[i].Gap?
  }

  lemma {:induction false} SameWordEnd(ps: seq<Piece>, qs: seq<Piece>)
    requires SameGaps(ps, qs)
    ensures WordEnd(ps) == WordEnd(qs)
  {
    if ps != [] && ps[0].Text? {
      SameWordEnd(ps[1..], qs[1..]);
    }
  }

  lemma {:induction false} SameArgumentCount(ps: seq<Piece>, qs: seq<Piece>)
    requires SameGaps(ps, qs)
    ensures |Arguments(ps)| == |Arguments(qs)|
    decreases |ps|
  {
    if ps != [] {
      if ps[0].Gap? {
        SameArgumentCount(ps[1..], qs[1..]);
      } else {
        SameWordEnd(ps, qs);
        SameArgumentCount(ps[WordEnd(ps)..], qs[WordEnd(ps)..]);
      }
    }
  }

  lemma {:induction false} SameInterpolationGaps(format: bytes, c: nat, values1: seq<Value>, values2: seq<Value>,
                                                 ap: nat)
    requires c <= |format| && Fits(format, c, values1, ap) && Fits(format, c, values2, ap)
    ensures var ps, qs := Interpolate(format, c, values1, ap), Interpolate(format, c, values2, ap);
            && (ps.None? <==> qs.None?)
            && (ps.Some? ==> SameGaps(ps.value, qs.value))
    decreases |format| - c
  {
    hide ElementAt, Behind;
    if c < |format| && !ElementAt(format, c).Malformed? {
      SameInterpolationGaps(format, Behind(format, c), values1, values2,
                            if TakesValue(ElementAt(format, c)) then ap + 1 else ap);
    }
  }

  /** Interpolated values never change how many arguments a template has, whatever spaces, line ends
      or nothing at all they contain, nor whether it is malformed. */
  lemma ArgumentCountIsFixed(format: bytes, values1: seq<Value>, values2: seq<Value>)
    requires Fits(format, 0, values1, 0) && Fits(format, 0, values2, 0)
    ensures var ps, qs := Interpolate(format, 0, values1, 0), Interpolate(format, 0, values2, 0);
            && (ps.None? <==> qs.None?)
            && (ps.Some? ==> |Arguments(ps.value)| == |Arguments(qs.value)|)
  {
    SameInterpolationGaps(format, 0, values1, values2, 0);
    var ps, qs := Interpolate(format, 0, values1, 0), Interpolate(format, 0, values2, 0);
    if ps.Some? {
      SameArgumentCount(ps.value, qs.value);
    }
  }

  lemma CollectHead(current: Option<bytes>, p: Piece, ps: seq<Piece>)
    ensures p.Gap? && current.None? ==> Collect(current, [p] + ps) == Collect(None, ps)
    ensures p.Gap? && current.Some? ==> Collect(current, [p] + ps) == [current.value] + Collect(None, ps)
    ensures p.Text? ==>
              Collect(current, [p] + ps)
              == Collect(Some((match current case None => [] case Some(b) => b) + p.text), ps)
  {
    assert ([p] + ps)[1..] == ps;
  }

  /** What the loop over a template keeps: the arguments of the whole are those finished, and those still to
      be collected from the other pieces. */
  ghost predicate OnTrack(whole: Option<seq<Piece>>, curargv: seq<bytes>, current: Option<bytes>,
                          others: Option<seq<Piece>>)
  {
    && (whole.None? <==> others.None?)
    && (whole.Some? ==> Arguments(whole.value) == curargv + Collect(current, others.value))
  }

  function Finished(current: Option<bytes>): seq<bytes> {
    match current case None => [] case Some(b) => [b]
  }

  function Extended(current: Option<bytes>, text: bytes): bytes {
    (match current case None => [] case Some(b) => b) + text
  }

  lemma TrackStart(whole: Option<seq<Piece>>)
    ensures OnTrack(whole, [], None, whole)
  {
    if whole.Some? {
      CollectIsArguments(None, whole.value);
    }
  }

  /** The element at `c` finishes the current argument or extends it. */
  lemma TrackStep(whole: Option<seq<Piece>>, curargv: seq<bytes>, current: Option<bytes>,
                  format: bytes, c: nat, values: seq<Value>, ap: nat)
    requires c < |format| && Fits(format, c, values, ap) && !ElementAt(format, c).Malformed?
    requires OnTrack(whole, curargv, current, Interpolate(format, c, values, ap))
    ensures TakesValue(ElementAt(format, c)) ==> ap < |values| && Accepts(ElementAt(format, c), values[ap])
    ensures var next, ap' := Behind(format, c), if TakesValue(ElementAt(format, c)) then ap + 1 else ap;
            && Fits(format, next, values, ap')
            && var others, p := Interpolate(format, next, values, ap'), PieceAt(format, c, values, ap);
               if p.Gap? then OnTrack(whole, curargv + Finished(current), None, others)
               else OnTrack(whole, curargv, Some(Extended(current, p.text)), others)
  {
    hide ElementAt, Behind, PieceAt, Collect, Arguments;
    var ap' := if TakesValue(ElementAt(format, c)) then ap + 1 else ap;
    var others := Interpolate(format, Behind(format, c), values, ap');
    if others.Some? {
      CollectHead(current, PieceAt(format, c, values, ap), others.value);
      var later := Collect(None, others.value);
      assert curargv + (Finished(current) + later) == curargv + Finished(current) + later;
      assert [] + later == later;
    }
  }

  lemma TrackEnd(whole: Option<seq<Piece>>, curargv: seq<bytes>, current: Option<bytes>)
    requires OnTrack(whole, curargv, current, Some([]))
    ensures whole.Some? && Arguments(whole.value) == curargv + Finished(current)
  {
    hide Arguments;
  }

  lemma MalformedAt(format: bytes, c: nat, values: seq<Value>, ap: nat)
    requires c < |format| && Fits(format, c, values, ap) && ElementAt(format, c).Malformed?
    ensures Interpolate(format, c, values, ap) == None
  {
  }

  lemma InterpolateEnd(format: bytes, values: seq<Value>, ap: nat)
    requires Fits(format, |format|, values, ap)
    ensures Interpolate(format, |format|, values, ap) == Some([])
  {
  }

  /** The scan that looks for a printf conversion. */
  method ScanConversion(format: bytes, start: nat) returns (r: Conversion)
    requires start <= |format|
    ensures r == ConversionAt(format, start)
  {
    hide SkipDigits, FlagsEnd;
    var p := FlagsEnd(format, start);
    ghost var width := SkipDigits(format, p);
    p := PassDigits(format, p);
    if p < |format| && format[p] == DOT {
      p := PassDigits(format, p + 1);
    }
    if p == |format| {
      return Unfinished;
    }
    if IsIntegerSpecifier(format[p]) || IsDoubleSpecifier(format[p]) {
      return Conversion(p + 1);
    }
    if format[p] == LOWER_H || format[p] == LOWER_L {
      var size := format[p];
      p := p + 1;
      if p < |format| && format[p] == size {
        p := p + 1;
      }
      if p < |format| && IsIntegerSpecifier(format[p]) {
        return Conversion(p + 1);
      }
    }
    return Invalid;
  }

  method PassDigits(format: bytes, start: nat) returns (p: nat)
    requires start <= |format|
    ensures p == SkipDigits(format, start)
  {
    p := start;
    while p < |format| && IsDigit(format[p])
      invariant start <= p <= |format| && SkipDigits(format, p) == SkipDigits(format, start)
    {
      p := p + 1;
    }
  }

  /** What a template element adds to the argument being collected, and where the template goes on;
      `ok` is false for a malformed conversion. */
  method TakeElement(format: bytes, c: nat, values: seq<Value>, ap: nat, curarg: bytes)
    returns (ok: bool, newarg: bytes, next: nat, ap': nat)
    requires c < |format| && Fits(format, c, values, ap)
    requires format[c] == PERCENT && c + 1 < |format|
    ensures ok <==> !ElementAt(format, c).Malformed?
    ensures ok ==>
              && next == Behind(format, c) && ap' == (if TakesValue(ElementAt(format, c)) then ap + 1 else ap)
              && (TakesValue(ElementAt(format, c)) ==> ap < |values|)
              && PieceAt(format, c, values, ap).Text? && newarg == curarg + PieceAt(format, c, values, ap).text
  {
    ok, newarg, next, ap' := true, curarg, c + 2, ap;
    assert curarg + [] == curarg;
    if format[c + 1] == PERCENT {
      newarg := curarg + [PERCENT];
    } else if format[c + 1] == LOWER_S || format[c + 1] == LOWER_B {
      var arg := TextOf(values[ap]);
      ap' := ap + 1;
      if |arg| > 0 {
        newarg := curarg + arg;
      }
    } else {
      var conversion := ScanConversion(format, c + 1);
      if conversion.Invalid? {
        ok := false;
        return;
      }
      ap' := ap + 1;
      if conversion.end - c < MAX_FORMAT {
        newarg := curarg + TextOf(values[ap]);
        next := conversion.end;
      }
    }
  }

  /** Puts a finished argument behind the others and adds up its length. */
  method AddArgument(curargv: seq<bytes>, curarg: bytes, totlen: nat) returns (newargv: seq<bytes>, newlen: nat)
    requires totlen == |EncodeAll(Bulks(curargv))|
    ensures newargv == curargv + [curarg] && newlen == |EncodeAll(Bulks(newargv))|
  {
    EncodeBulksSnoc(curargv, curarg);
    newargv := curargv + [curarg];
    var len := BulkLen(|curarg|);
    newlen := totlen + len;
  }

  /** The header length is added at the end, and the command is built. */
  method Finish(curargv: seq<bytes>, len: nat) returns (cmd: array<byte>, totlen: nat)
    requires len == |EncodeAll(Bulks(curargv))|
    ensures fresh(cmd) && cmd.Length == totlen + 1
    ensures cmd[..totlen] == Wire(curargv) && cmd[totlen] == NUL
  {
    var digits := IntLen(|curargv|);
    totlen := len + 1 + digits + 2;
    PrefixEnds(curargv);
    assert curargv[..|curargv|] == curargv;
    cmd := Write(curargv, totlen);
  }

  /** redisvFormatCommand: one pass over the template collects the arguments and adds up the length. A
      malformed conversion gives -1 and no command. */
  method FormatCommand(format: bytes, values: seq<Value>) returns (cmd: array?<byte>, totlen: int)
    requires Fits(format, 0, values, 0)
    ensures match Interpolate(format, 0, values, 0)
            case None => cmd == null && totlen == -1
            case Some(pieces) =>
              && cmd != null && fresh(cmd) && 0 <= totlen && cmd.Length == totlen + 1
              && cmd[..totlen] == Wire(Arguments(pieces)) && cmd[totlen] == NUL
  {
    hide Wire, Encode, Arguments, OnTrack, ElementAt, Behind, PieceAt, Interpolate, Fits;
    ghost var whole := Interpolate(format, 0, values, 0);
    var curargv: seq<bytes>, curarg: bytes, touched := [], [], false;
    var c, ap, len: nat := 0, 0, 0;
    TrackStart(whole);
    while c < |format|
      invariant c <= |format| && Fits(format, c, values, ap) && (!touched ==> curarg == [])
      invariant len == |EncodeAll(Bulks(curargv))|
      invariant OnTrack(whole, curargv, if touched then Some(curarg) else None, Interpolate(format, c, values, ap))
    {
      if ElementAt(format, c).Malformed? {
        MalformedAt(format, c, values, ap);
      } else {
        TrackStep(whole, curargv, if touched then Some(curarg) else None, format, c, values, ap);
      }
      if format[c] != PERCENT || c + 1 == |format| {
        PlainAt(format, c, values, ap);
        if format[c] == SPACE {
          if touched {
            curargv, len := AddArgument(curargv, curarg, len);
            curarg := [];
            touched := false;
          } else {
            assert curargv + [] == curargv;
          }
        } else {
          assert [] + [format[c]] == [format[c]];
          curarg := curarg + [format[c]];
          touched := true;
        }
        c := c + 1;
      } else {
        var ok, newarg, next, ap' := TakeElement(format, c, values, ap, curarg);
        if !ok {
          NeverSome(whole, curargv, if touched then Some(curarg) else None);
          return null, -1;
        }
        assert touched ==> newarg == Extended(Some(curarg), PieceAt(format, c, values, ap).text);
        curarg, c, ap := newarg, next, ap';
        touched := true;
      }
    }
    InterpolateEnd(format, values, ap);
    TrackEnd(whole, curargv, if touched then Some(curarg) else None);
    assert curargv + [] == curargv;
    if touched {
      curargv, len := AddArgument(curargv, curarg, len);
    }
    cmd, totlen := Finish(curargv, len);
  }

  lemma NeverSome(whole: Option<seq<Piece>>, curargv: seq<bytes>, current: Option<bytes>)
    requires OnTrack(whole, curargv, current, None)
    ensures whole == None
  {
  }

  lemma PlainAt(format: bytes, c: nat, values: seq<Value>, ap: nat)
    requires c < |format| && (format[c] != PERCENT || c + 1 == |format|)
    ensures ElementAt(format, c) == Plain(format[c]) && Behind(format, c) == c + 1
    ensures PieceAt(format, c, values, ap) == if format[c] == SPACE then Gap else Text([format[c]])
  {
  }
}
