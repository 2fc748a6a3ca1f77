/**
 Command templates from the writing side: what a template means is said by how it is written, byte by byte,
 from words and the parts of words, with all bytes as numbers.
 */
module Templates {
  import opened Options
  import opened Bytes
  import opened Commands
  import opened WireFormats

  // ---------------------------------------------------------------- conversions

  /** Flags, width and precision of a printf conversion. */
  datatype Modifiers =
    Modifiers(hash: bool, zero: bool, minus: bool, space: bool, plus: bool, width: bytes, precision: Option<bytes>)

  const NO_MODIFIERS := Modifiers(false, false, false, false, false, [], None)

  predicate ModifiersOk(m: Modifiers) {
    AllDigits(m.width) && (m.precision.Some? ==> AllDigits(m.precision.value))
  }

  function Mark(present: bool, b: byte): bytes {
    if present then [b] else []
  }

  function PrecisionBytes(precision: Option<bytes>): bytes {
    match precision case None => [] case Some(digits) => [46] + digits
  }

  /** Width and precision, and what follows them. */
  function BehindFlags(m: Modifiers, later: bytes): bytes {
    m.width + (PrecisionBytes(m.precision) + later)
  }

  /** What follows the flags `#` and `0`. */
  function LaterFlags(m: Modifiers, tail: bytes): bytes {
    Mark(m.minus, 45) + (Mark(m.space, 32) + (Mark(m.plus, 43) + tail))
  }

  /** The modifiers, and what follows them. */
  function ConversionBytes(m: Modifiers, later: bytes): bytes {
    Mark(m.hash, 35) + (Mark(m.zero, 48) + LaterFlags(m, BehindFlags(m, later)))
  }

  /** d, i, o, u, x and X. */
  predicate IntegerLetter(b: byte) {
    b in {100, 105, 111, 117, 120, 88}
  }

  /** e, E, f, F, g, G, a and A. */
  predicate DoubleLetter(b: byte) {
    b in {101, 69, 102, 70, 103, 71, 97, 65}
  }

  /** Nothing, h, hh, l or ll. */
  predicate SizeOk(size: bytes) {
    size in {[], [104], [104, 104], [108], [108, 108]}
  }

  /** A specifier that goes with the size. */
  predicate SpecifierOk(specifier: byte, size: bytes) {
    IntegerLetter(specifier) || (size == [] && DoubleLetter(specifier))
  }

  // ---------------------------------------------------------------- words

  /** A part of a word, with the text that takes its place. */
  datatype Segment =
    | Literal(text: bytes)
    | CString(text: bytes)
    | Binary(text: bytes)
    | PercentSign
    | Converted(modifiers: Modifiers, size: bytes, specifier: byte, text: bytes)
    | Overlong(modifiers: Modifiers, size: bytes, specifier: byte, text: bytes)

  /** The bytes of the template. */
  function Written(s: Segment): bytes {
    match s
    case Literal(text) => text
    case CString(_) => [37, 115]
    case Binary(_) => [37, 98]
    case PercentSign => [37, 37]
    case Converted(m, size, specifier, _) => [37] + ConversionBytes(m, size + [specifier])
    case Overlong(m, size, specifier, _) => [37] + ConversionBytes(m, size + [specifier])
  }

  /** The value that is passed for it. */
  function Passed(s: Segment): seq<Value> {
    match s
    case Literal(_) => []
    case CString(text) => [Str(text)]
    case Binary(text) => [Bin(text)]
    case PercentSign => []
    case Converted(_, _, _, text) => [Formatted(text)]
    case Overlong(_, _, _, text) => [Formatted(text)]
  }

  /** The bytes that it contributes to the argument. A conversion of 14 bytes or more is not carried out: its
      value is taken, and all but its first two bytes are text. */
  function Contributed(s: Segment): bytes
    requires SegmentOk(s)
  {
    match s
    case Literal(text) => text
    case CString(text) => text
    case Binary(text) => text
    case PercentSign => [37]
    case Converted(_, _, _, text) => text
    case Overlong(_, _, _, _) => Written(s)[2..]
  }

  predicate SegmentOk(s: Segment) {
    match s
    case Literal(text) => text != [] && forall i :: 0 <= i < |text| ==> text[i] != 32 && text[i] != 37
    case Converted(m, size, specifier, _) =>
      ModifiersOk(m) && SizeOk(size) && SpecifierOk(specifier, size) && |Written(s)| < 14
    case Overlong(m, size, specifier, _) =>
      && ModifiersOk(m) && SizeOk(size) && SpecifierOk(specifier, size) && |Written(s)| >= 14
      && forall i :: 2 <= i < |Written(s)| ==> Written(s)[i] != 32 && Written(s)[i] != 37
    case _ => true
  }

  type Word = seq<Segment>

  function WrittenWord(w: Word): bytes {
    if w == [] then [] else Written(w[0]) + WrittenWord(w[1..])
  }

  function PassedWord(w: Word): seq<Value> {
    if w == [] then [] else Passed(w[0]) + PassedWord(w[1..])
  }

  predicate AllOk(w: Word) {
    forall i :: 0 <= i < |w| ==> SegmentOk(w[i])
  }

  function ContributedWord(w: Word): bytes
    requires AllOk(w)
  {
    if w == [] then [] else Contributed(w[0]) + ContributedWord(w[1..])
  }

  function Spaces(n: nat): bytes {
    seq(n, _ => 32)
  }

  /** Words with one or more spaces behind each but the last, where there may be none. */
  function WrittenLine(words: seq<Word>, gaps: seq<nat>): bytes
    requires |gaps| == |words|
  {
    if words == [] then [] else WrittenWord(words[0]) + Spaces(gaps[0]) + WrittenLine(words[1..], gaps[1..])
  }

  function PassedLine(words: seq<Word>): seq<Value> {
    if words == [] then [] else PassedWord(words[0]) + PassedLine(words[1..])
  }

  function ContributedLine(words: seq<Word>): seq<bytes>
    requires forall i :: 0 <= i < |words| ==> AllOk(words[i])
  {
    if words == [] then [] else [ContributedWord(words[0])] + ContributedLine(words[1..])
  }

  predicate LineOk(words: seq<Word>, gaps: seq<nat>) {
    && |gaps| == |words|
    && (forall i :: 0 <= i < |words| ==> words[i] != [] && AllOk(words[i]))
    && (forall i :: 0 <= i < |words| - 1 ==> gaps[i] > 0)
  }

  // ---------------------------------------------------------------- recognising conversions

  /** The bytes `x` stand at `i`. */
  predicate StandsAt(format: bytes, i: nat, x: bytes) {
    i + |x| <= |format| && format[i..i + |x|] == x
  }

  lemma Peel(format: bytes, i: nat, x: bytes, y: bytes)
    requires StandsAt(format, i, x + y)
    ensures StandsAt(format, i, x) && StandsAt(format, i + |x|, y)
    ensures x != [] ==> i < |format| && format[i] == x[0]
    ensures x == [] && y != [] ==> i < |format| && format[i] == y[0]
  {
    var s := format[i..i + |x + y|];
    assert s[..|x|] == x && s[|x|..] == y;
    assert x + y != [] ==> format[i] == s[0] == (x + y)[0];
  }

  lemma FirstOf(format: bytes, i: nat, x: bytes)
    requires StandsAt(format, i, x) && x != []
    ensures i < |format| && format[i] == x[0]
  {
    assert format[i..i + |x|][0] == format[i];
  }

  lemma MarkSkipped(format: bytes, i: nat, present: bool, b: byte, rest: bytes) returns (j: nat)
    requires StandsAt(format, i, Mark(present, b) + rest) && rest != []
    ensures StandsAt(format, j, rest) && j + |rest| == i + |Mark(present, b) + rest|
    ensures (Mark(present, b) + rest)[0] == if present then b else rest[0]
    ensures !present ==> j == i && Mark(present, b) + rest == rest
    ensures SkipByte(format, i, b) == if !present && rest[0] == b then i + 1 else j
  {
    Peel(format, i, Mark(present, b), rest);
    j := i + |Mark(present, b)|;
  }

  predicate NoFlag(b: byte) {
    b !in {35, 45, 32, 43}
  }

  /** The modifiers end here. */
  predicate EndsModifiers(later: bytes) {
    later != [] && NoFlag(later[0]) && later[0] != 46 && !(48 <= later[0] <= 57)
  }

  /** What follows the flags does not look like a flag, except that a width may begin with a 0. */
  lemma NotAFlag(m: Modifiers, later: bytes)
    requires ModifiersOk(m) && EndsModifiers(later)
    ensures var s := BehindFlags(m, later);
            s != [] && NoFlag(s[0]) && (s[0] == 48 ==> m.width != [] && |s| > 1 && NoFlag(s[1]))
  {
    var behind := PrecisionBytes(m.precision) + later;
    assert behind[0] == (if m.precision.Some? then 46 else later[0]);
    var s := BehindFlags(m, later);
    assert s == m.width + behind;
    assert m.width == [] ==> s[0] == behind[0];
    assert m.width != [] ==> s[0] == m.width[0];
    assert |m.width| == 1 ==> s[1] == behind[0];
    assert |m.width| > 1 ==> s[1] == m.width[1];
  }

  lemma LaterFlagsSkipped(format: bytes, i: nat, m: Modifiers, tail: bytes) returns (w: nat)
    requires StandsAt(format, i, LaterFlags(m, tail)) && tail != [] && NoFlag(tail[0])
    ensures StandsAt(format, w, tail) && w + |tail| == i + |LaterFlags(m, tail)| && LaterFlags(m, tail) != []
    ensures SkipByte(format, SkipByte(format, SkipByte(format, i, 45), 32), 43) == w
    ensures LaterFlags(m, tail)[0] == tail[0] ==> w == i && LaterFlags(m, tail) == tail
    ensures LaterFlags(m, tail)[0] != 35 && (LaterFlags(m, tail)[0] == 48 ==> tail[0] == 48)
  {
    hide StandsAt, SkipByte, Mark;
    var r4 := Mark(m.plus, 43) + tail;
    var r3 := Mark(m.space, 32) + r4;
    var i3 := MarkSkipped(format, i, m.minus, 45, r3);
    var i4 := MarkSkipped(format, i3, m.space, 32, r4);
    w := MarkSkipped(format, i4, m.plus, 43, tail);
  }

  /** Skipping the flags ends at the width, or behind a 0 with which the width begins. */
  lemma FlagsSkipped(format: bytes, i: nat, m: Modifiers, later: bytes) returns (w: nat)
    requires ModifiersOk(m) && EndsModifiers(later) && StandsAt(format, i, ConversionBytes(m, later))
    ensures StandsAt(format, w, BehindFlags(m, later))
    ensures w + |BehindFlags(m, later)| == i + |ConversionBytes(m, later)|
    ensures FlagsEnd(format, i) == w || (FlagsEnd(format, i) == w + 1 && m.width != [])
  {
    hide StandsAt, SkipByte, BehindFlags, ModifiersOk, EndsModifiers, LaterFlags, Mark;
    var tail := BehindFlags(m, later);
    NotAFlag(m, later);
    LaterNotEmpty(m, tail);
    var r2 := LaterFlags(m, tail);
    var r1 := Mark(m.zero, 48) + r2;
    var i1 := MarkSkipped(format, i, m.hash, 35, r1);
    var i2 := MarkSkipped(format, i1, m.zero, 48, r2);
    w := LaterFlagsSkipped(format, i2, m, tail);
    if !m.zero && r2[0] == 48 {
      SecondOf(format, w, tail);
      NothingSkipped(format, w + 1);
    }
  }

  lemma LaterNotEmpty(m: Modifiers, tail: bytes)
    requires tail != []
    ensures LaterFlags(m, tail) != []
  {
  }

  lemma SecondOf(format: bytes, i: nat, x: bytes)
    requires StandsAt(format, i, x) && |x| > 1
    ensures i + 1 < |format| && format[i + 1] == x[1]
  {
    assert format[i..i + |x|][1] == format[i + 1];
  }

  lemma NothingSkipped(format: bytes, i: nat)
    requires i < |format| && NoFlag(format[i])
    ensures SkipByte(format, i, 45) == SkipByte(format, i, 32) == SkipByte(format, i, 43) == i
  {
  }

  /** Digits end where something else begins. */
  lemma {:induction false} DigitsSkipped(format: bytes, i: nat, digits: bytes, later: bytes)
    requires StandsAt(format, i, digits + later) && AllDigits(digits) && later != [] && !(48 <= later[0] <= 57)
    ensures SkipDigits(format, i) == i + |digits|
    ensures digits != [] ==> SkipDigits(format, i + 1) == i + |digits|
    decreases |digits|
  {
    FirstOf(format, i, digits + later);
    if digits == [] {
      assert digits + later == later;
    } else {
      assert digits + later == [digits[0]] + (digits[1..] + later);
      Peel(format, i, [digits[0]], digits[1..] + later);
      DigitsSkipped(format, i + 1, digits[1..], later);
    }
  }

  /** Flags, width and precision are passed up to what follows them. */
  lemma ModifiersSkipped(format: bytes, i: nat, m: Modifiers, later: bytes) returns (p: nat)
    requires ModifiersOk(m) && EndsModifiers(later) && StandsAt(format, i, ConversionBytes(m, later))
    ensures StandsAt(format, p, later) && p + |later| == i + |ConversionBytes(m, later)|
    ensures SpecifierAt(format, i) == p
  {
    hide StandsAt, FlagsEnd, SkipDigits, ConversionBytes;
    var w := FlagsSkipped(format, i, m, later);
    p := WidthSkipped(format, w, m, later);
  }

  lemma WidthSkipped(format: bytes, w: nat, m: Modifiers, later: bytes) returns (p: nat)
    requires ModifiersOk(m) && EndsModifiers(later) && StandsAt(format, w, BehindFlags(m, later))
    ensures StandsAt(format, p, later) && p + |later| == w + |BehindFlags(m, later)|
    ensures var width := SkipDigits(format, w);
            && (m.width != [] ==> SkipDigits(format, w + 1) == width)
            && p == if width < |format| && format[width] == 46 then SkipDigits(format, width + 1) else width
  {
    hide StandsAt, SkipDigits, AllDigits, PrecisionBytes;
    var behind := PrecisionBytes(m.precision) + later;
    PrecisionFirst(m.precision, later);
    DigitsSkipped(format, w, m.width, behind);
    Peel(format, w, m.width, behind);
    p := PrecisionSkipped(format, w + |m.width|, m.precision, later);
  }

  lemma PrecisionFirst(precision: Option<bytes>, later: bytes)
    requires later != []
    ensures (PrecisionBytes(precision) + later)[0] == if precision.Some? then 46 else later[0]
  {
  }

  lemma PrecisionSkipped(format: bytes, i: nat, precision: Option<bytes>, later: bytes) returns (p: nat)
    requires precision.Some? ==> AllDigits(precision.value)
    requires EndsModifiers(later) && StandsAt(format, i, PrecisionBytes(precision) + later)
    ensures StandsAt(format, p, later) && p + |later| == i + |PrecisionBytes(precision) + later|
    ensures i < |format| && p == if format[i] == 46 then SkipDigits(format, i + 1) else i
  {
    hide StandsAt, SkipDigits;
    FirstOf(format, i, PrecisionBytes(precision) + later);
    PrecisionFirst(precision, later);
    if precision.Some? {
      var digits := precision.value;
      assert PrecisionBytes(precision) + later == [46] + (digits + later);
      Peel(format, i, [46], digits + later);
      DigitsSkipped(format, i + 1, digits, later);
      Peel(format, i + 1, digits, later);
      p := i + 1 + |digits|;
    } else {
      assert PrecisionBytes(precision) + later == later;
      p := i;
    }
  }

  lemma SpecifierFound(format: bytes, p: nat, size: bytes, specifier: byte)
    requires SizeOk(size) && SpecifierOk(specifier, size) && StandsAt(format, p, size + [specifier])
    ensures EndsModifiers(size + [specifier])
    ensures p + |size| < |format| && format[p + |size|] == specifier
    ensures size != [] ==>
              && (format[p] == 104 || format[p] == 108)
              && IntegerAt(format, SkipByte(format, p + 1, format[p])) == Conversion(p + |size| + 1)
    ensures size == [] ==> IsIntegerSpecifier(specifier) || IsDoubleSpecifier(specifier)
  {
    assert forall k :: 0 <= k < |size| + 1 ==> format[p + k] == format[p..p + |size| + 1][k] == (size + [specifier])[k];
  }

  lemma SpecifierEnds(size: bytes, specifier: byte)
    requires SizeOk(size) && SpecifierOk(specifier, size)
    ensures EndsModifiers(size + [specifier])
  {
    assert (size + [specifier])[0] == if size == [] then specifier else size[0];
  }

  /** A conversion is recognised with exactly its bytes. */
  lemma ConversionRecognised(format: bytes, i: nat, m: Modifiers, size: bytes, specifier: byte)
    requires ModifiersOk(m) && SizeOk(size) && SpecifierOk(specifier, size)
    requires StandsAt(format, i, ConversionBytes(m, size + [specifier]))
    ensures ConversionAt(format, i) == Conversion(i + |ConversionBytes(m, size + [specifier])|)
  {
    hide StandsAt, ConversionBytes, SpecifierAt;
    SpecifierEnds(size, specifier);
    var p := ModifiersSkipped(format, i, m, size + [specifier]);
    SpecifierFound(format, p, size, specifier);
  }

  // ---------------------------------------------------------------- malformed conversions

  /** What cannot follow the modifiers: no letter of a conversion, or a size without an integer letter. */
  predicate Broken(size: bytes, rest: bytes) {
    && SizeOk(size) && EndsModifiers(size + rest)
    && if size == [] then !IntegerLetter(rest[0]) && !DoubleLetter(rest[0]) && rest[0] != 104 && rest[0] != 108
       else rest == [] || (!IntegerLetter(rest[0]) && (|size| == 1 ==> rest[0] != size[0]))
  }

  lemma BrokenRecognised(format: bytes, i: nat, m: Modifiers, size: bytes, rest: bytes)
    requires ModifiersOk(m) && Broken(size, rest) && StandsAt(format, i, ConversionBytes(m, size + rest))
    requires i + |ConversionBytes(m, size + rest)| == |format|
    ensures ConversionAt(format, i) == Invalid
  {
    hide StandsAt, ConversionBytes, SpecifierAt;
    var p := ModifiersSkipped(format, i, m, size + rest);
    BrokenFound(format, p, size, rest);
  }

  lemma BrokenFound(format: bytes, p: nat, size: bytes, rest: bytes)
    requires Broken(size, rest) && StandsAt(format, p, size + rest) && p + |size + rest| == |format|
    ensures p < |format| && !IsIntegerSpecifier(format[p]) && !IsDoubleSpecifier(format[p])
    ensures size != [] ==> IntegerAt(format, SkipByte(format, p + 1, format[p])) == Invalid
    ensures size == [] ==> format[p] != 104 && format[p] != 108
  {
    var s := size + rest;
    assert forall k :: 0 <= k < |s| ==> format[p + k] == format[p..p + |s|][k] == s[k];
    assert rest != [] ==> s[|size|] == rest[0];
  }

  // ---------------------------------------------------------------- what a template means

  /** From position `c` with values from `ap` on and `current` collected, the template goes on to `next` and
      `ap'` with `current'` collected, after the arguments `emitted`. */
  ghost predicate Goes(format: bytes, values: seq<Value>, c: nat, ap: nat, current: Option<bytes>,
                       emitted: seq<bytes>, next: nat, ap': nat, current': Option<bytes>)
  {
    && c <= next <= |format|
    && (Fits(format, next, values, ap') ==>
          && Fits(format, c, values, ap)
          && var all, others := Interpolate(format, c, values, ap), Interpolate(format, next, values, ap');
             && (all.None? <==> others.None?)
             && (all.Some? ==> Collect(current, all.value) == emitted + Collect(current', others.value)))
  }

  lemma GoesOn(format: bytes, values: seq<Value>, c: nat, ap: nat, current: Option<bytes>, emitted: seq<bytes>,
               c': nat, ap': nat, current': Option<bytes>, emitted': seq<bytes>, c'': nat, ap'': nat,
               current'': Option<bytes>)
    requires Goes(format, values, c, ap, current, emitted, c', ap', current')
    requires Goes(format, values, c', ap', current', emitted', c'', ap'', current'')
    ensures Goes(format, values, c, ap, current, emitted + emitted', c'', ap'', current'')
  {
    hide Fits, Interpolate, Collect;
    if Fits(format, c'', values, ap'') {
      var others := Interpolate(format, c'', values, ap'');
      if others.Some? {
        var later := Collect(current'', others.value);
        assert emitted + (emitted' + later) == emitted + emitted' + later;
      }
    }
  }

  lemma StaysThere(format: bytes, values: seq<Value>, c: nat, ap: nat, current: Option<bytes>)
    requires c <= |format|
    ensures Goes(format, values, c, ap, current, [], c, ap, current)
  {
    hide Fits, Interpolate, Collect;
    if Fits(format, c, values, ap) && Interpolate(format, c, values, ap).Some? {
      var later := Collect(current, Interpolate(format, c, values, ap).value);
      assert [] + later == later;
    }
  }

  /** One element of a template. */
  lemma ElementGoes(format: bytes, values: seq<Value>, c: nat, ap: nat, current: Option<bytes>)
    requires c < |format| && !ElementAt(format, c).Malformed? && !ElementAt(format, c).Endless?
    requires TakesValue(ElementAt(format, c)) ==> ap < |values| && Accepts(ElementAt(format, c), values[ap])
    ensures Behind(format, c) <= |format| ==>
              var p := PieceAt(format, c, values, ap);
              Goes(format, values, c, ap, current, if p.Gap? then Finished(current) else [],
                   Behind(format, c), if TakesValue(ElementAt(format, c)) then ap + 1 else ap,
                   if p.Gap? then None else Some(Extended(current, p.text)))
  {
    hide ElementAt, Behind, PieceAt, Collect;
    var next, ap' := Behind(format, c), if TakesValue(ElementAt(format, c)) then ap + 1 else ap;
    if next <= |format| && Fits(format, next, values, ap') {
      var others := Interpolate(format, next, values, ap');
      if others.Some? {
        var p := PieceAt(format, c, values, ap);
        CollectHead(current, p, others.value);
        if p.Text? {
          var later := Collect(Some(Extended(current, p.text)), others.value);
          assert [] + later == later;
        }
      }
    }
  }

  /** A byte that is neither a space nor a percent sign, or a percent sign at the very end. */
  lemma LiteralByteGoes(format: bytes, values: seq<Value>, c: nat, ap: nat, current: Option<bytes>)
    requires c < |format| && format[c] != 32 && (format[c] == 37 ==> c + 1 == |format|)
    ensures Goes(format, values, c, ap, current, [], c + 1, ap, Some(Extended(current, [format[c]])))
  {
    hide Fits, Interpolate, Collect, Goes;
    ElementGoes(format, values, c, ap, current);
  }

  lemma SpaceGoes(format: bytes, values: seq<Value>, c: nat, ap: nat, current: Option<bytes>)
    requires c < |format| && format[c] == 32
    ensures Goes(format, values, c, ap, current, Finished(current), c + 1, ap, None)
  {
    hide Fits, Interpolate, Collect, Goes;
    ElementGoes(format, values, c, ap, current);
  }

  lemma ExtendTwice(current: Option<bytes>, a: bytes, b: bytes)
    ensures Extended(Some(Extended(current, a)), b) == Extended(current, a + b)
  {
    var so := match current case None => [] case Some(x) => x;
    assert so + a + b == so + (a + b);
  }

  lemma {:induction false} LiteralGoes(format: bytes, values: seq<Value>, c: nat, ap: nat, current: Option<bytes>,
                                       text: bytes)
    requires StandsAt(format, c, text) && text != []
    requires forall i :: 0 <= i < |text| ==> text[i] != 32 && text[i] != 37
    ensures Goes(format, values, c, ap, current, [], c + |text|, ap, Some(Extended(current, text)))
    decreases |text|
  {
    hide Goes, Extended;
    var first, others := [text[0]], text[1..];
    assert text == first + others;
    Peel(format, c, first, others);
    LiteralByteGoes(format, values, c, ap, current);
    if others == [] {
      assert text == first;
    } else {
      var current' := Some(Extended(current, first));
      LiteralGoes(format, values, c + 1, ap, current', others);
      GoesOn(format, values, c, ap, current, [], c + 1, ap, current', [], c + |text|, ap,
             Some(Extended(current', others)));
      ExtendTwice(current, first, others);
      var none: seq<bytes> := [];
      assert none + none == none;
    }
  }

  /** The values `passed` are next. */
  predicate AreNext(values: seq<Value>, ap: nat, passed: seq<Value>) {
    ap + |passed| <= |values| && values[ap..ap + |passed|] == passed
  }

  /** What a conversion begins with. */
  lemma ConversionFirst(m: Modifiers, later: bytes)
    requires ModifiersOk(m) && later != []
    ensures var s := ConversionBytes(m, later);
            && s != []
            && if m == NO_MODIFIERS then s == later else s[0] in {35, 48, 45, 32, 43, 46} || 48 <= s[0] <= 57
  {
    var behind := PrecisionBytes(m.precision) + later;
    assert behind[0] == (if m.precision.Some? then 46 else later[0]);
    var tail := BehindFlags(m, later);
    assert tail[0] == (if m.width != [] then m.width[0] else behind[0]);
    var r4 := Mark(m.plus, 43) + tail;
    assert r4[0] == (if m.plus then 43 else tail[0]);
    var r3 := Mark(m.space, 32) + r4;
    assert r3[0] == (if m.space then 32 else r4[0]);
    var r2 := Mark(m.minus, 45) + r3;
    assert r2[0] == (if m.minus then 45 else r3[0]);
    var r1 := Mark(m.zero, 48) + r2;
    assert r1[0] == (if m.zero then 48 else r2[0]);
    assert ConversionBytes(m, later)[0] == if m.hash then 35 else r1[0];
  }

  lemma TwoBytes(format: bytes, i: nat, x: byte, y: byte)
    requires StandsAt(format, i, [x, y])
    ensures i + 1 < |format| && format[i] == x && format[i + 1] == y
  {
    assert format[i..i + 2][0] == format[i] && format[i..i + 2][1] == format[i + 1];
  }

  /** How a printf conversion is recognised. */
  lemma PrintfFound(format: bytes, c: nat, m: Modifiers, size: bytes, specifier: byte)
    requires ModifiersOk(m) && SizeOk(size) && SpecifierOk(specifier, size)
    requires StandsAt(format, c, [37] + ConversionBytes(m, size + [specifier]))
    ensures c + 1 < |format| && format[c] == 37
    ensures ElementAt(format, c) == PrintfValue(c + 1 + |ConversionBytes(m, size + [specifier])|)
  {
    hide ConversionAt, ConversionBytes, StandsAt;
    var later := ConversionBytes(m, size + [specifier]);
    Peel(format, c, [37], later);
    SpecifierEnds(size, specifier);
    ConversionFirst(m, size + [specifier]);
    assert (size + [specifier])[0] == if size == [] then specifier else size[0];
    FirstOf(format, c + 1, later);
    ConversionRecognised(format, c + 1, m, size, specifier);
  }

  /** `%s`, `%b` and `%%`. */
  lemma InterpolationGoes(format: bytes, values: seq<Value>, c: nat, ap: nat, current: Option<bytes>, s: Segment)
    requires s.CString? || s.Binary? || s.PercentSign?
    requires StandsAt(format, c, Written(s)) && AreNext(values, ap, Passed(s))
    ensures Goes(format, values, c, ap, current, [], c + 2, ap + |Passed(s)|,
                 Some(Extended(current, Contributed(s))))
  {
    hide Goes, Fits, Interpolate, Collect, Extended, ConversionAt, StandsAt, AreNext;
    match s
    case CString(text) =>
      TwoBytes(format, c, 37, 115);
      NextIs(values, ap, Str(text));
      ElementGoes(format, values, c, ap, current);
    case Binary(text) =>
      TwoBytes(format, c, 37, 98);
      NextIs(values, ap, Bin(text));
      ElementGoes(format, values, c, ap, current);
    case PercentSign =>
      TwoBytes(format, c, 37, 37);
      ElementGoes(format, values, c, ap, current);
  }

  lemma ConvertedGoes(format: bytes, values: seq<Value>, c: nat, ap: nat, current: Option<bytes>,
                      m: Modifiers, size: bytes, specifier: byte, text: bytes)
    requires var s := Converted(m, size, specifier, text);
             SegmentOk(s) && StandsAt(format, c, Written(s)) && AreNext(values, ap, Passed(s))
    ensures Goes(format, values, c, ap, current, [], c + |Written(Converted(m, size, specifier, text))|, ap + 1,
                 Some(Extended(current, text)))
  {
    hide Goes, Fits, Interpolate, Collect, ElementAt, Extended, StandsAt, AreNext, ConversionBytes;
    PrintfFound(format, c, m, size, specifier);
    NextIs(values, ap, Formatted(text));
    ElementGoes(format, values, c, ap, current);
  }

  lemma NextIs(values: seq<Value>, ap: nat, v: Value)
    requires AreNext(values, ap, [v])
    ensures ap < |values| && values[ap] == v
  {
    assert values[ap..ap + 1][0] == values[ap];
  }

  /** A part of a word. */
  lemma SegmentGoes(format: bytes, values: seq<Value>, c: nat, ap: nat, current: Option<bytes>, s: Segment)
    requires SegmentOk(s) && StandsAt(format, c, Written(s)) && AreNext(values, ap, Passed(s))
    ensures Goes(format, values, c, ap, current, [], c + |Written(s)|, ap + |Passed(s)|,
                 Some(Extended(current, Contributed(s))))
  {
    hide Goes, Extended, StandsAt, AreNext, ConversionBytes;
    match s
    case Literal(text) => LiteralGoes(format, values, c, ap, current, text);
    case Converted(m, size, specifier, text) =>
      ConvertedGoes(format, values, c, ap, current, m, size, specifier, text);
    case Overlong(m, size, specifier, text) =>
      OverlongGoes(format, values, c, ap, current, m, size, specifier, text);
    case CString(_) => InterpolationGoes(format, values, c, ap, current, s);
    case Binary(_) => InterpolationGoes(format, values, c, ap, current, s);
    case PercentSign => InterpolationGoes(format, values, c, ap, current, s);
  }

  lemma OverlongGoes(format: bytes, values: seq<Value>, c: nat, ap: nat, current: Option<bytes>,
                     m: Modifiers, size: bytes, specifier: byte, text: bytes)
    requires var s := Overlong(m, size, specifier, text);
             SegmentOk(s) && StandsAt(format, c, Written(s)) && AreNext(values, ap, Passed(s))
    ensures var s := Overlong(m, size, specifier, text);
            Goes(format, values, c, ap, current, [], c + |Written(s)|, ap + 1, Some(Extended(current, Written(s)[2..])))
  {
    hide Goes, Fits, Interpolate, Collect, ElementAt, Extended, StandsAt, AreNext, ConversionBytes;
    var s := Overlong(m, size, specifier, text);
    PrintfFound(format, c, m, size, specifier);
    NextIs(values, ap, Formatted(text));
    ElementGoes(format, values, c, ap, current);
    PassedOver(format, values, c, ap, current, Written(s));
  }

  /** All but the first two bytes of a conversion that is not carried out are text. */
  lemma PassedOver(format: bytes, values: seq<Value>, c: nat, ap: nat, current: Option<bytes>, written: bytes)
    requires StandsAt(format, c, written) && |written| > 2
    requires forall i :: 2 <= i < |written| ==> written[i] != 32 && written[i] != 37
    requires Goes(format, values, c, ap, current, [], c + 2, ap + 1, Some(Extended(current, [])))
    ensures Goes(format, values, c, ap, current, [], c + |written|, ap + 1, Some(Extended(current, written[2..])))
  {
    hide Goes, Extended, StandsAt;
    var head, left := written[..2], written[2..];
    assert written == head + left;
    Peel(format, c, head, left);
    var start := Some(Extended(current, []));
    LiteralGoes(format, values, c + 2, ap + 1, start, left);
    GoesOn(format, values, c, ap, current, [], c + 2, ap + 1, start, [], c + |written|, ap + 1,
           Some(Extended(start, left)));
    ExtendTwice(current, [], left);
    assert [] + left == left;
    var none: seq<bytes> := [];
    assert none + none == none;
  }

  // ---------------------------------------------------------------- words and lines

  lemma NextSplit(values: seq<Value>, ap: nat, a: seq<Value>, b: seq<Value>)
    requires AreNext(values, ap, a + b)
    ensures AreNext(values, ap, a) && AreNext(values, ap + |a|, b)
  {
    var s := values[ap..ap + |a + b|];
    assert s[..|a|] == a && s[|a|..] == b;
  }

  lemma {:induction false} SegmentsGo(format: bytes, values: seq<Value>, c: nat, ap: nat, sofar: bytes, w: Word)
    requires AllOk(w) && StandsAt(format, c, WrittenWord(w)) && AreNext(values, ap, PassedWord(w))
    ensures Goes(format, values, c, ap, Some(sofar), [], c + |WrittenWord(w)|, ap + |PassedWord(w)|,
                 Some(sofar + ContributedWord(w)))
    decreases |w|
  {
    hide Goes, StandsAt, AreNext, SegmentOk, Written, Passed, Contributed;
    if w == [] {
      StandsThere(format, c, []);
      StaysThere(format, values, c, ap, Some(sofar));
      assert sofar + [] == sofar;
    } else {
      var s, others := w[0], w[1..];
      Peel(format, c, Written(s), WrittenWord(others));
      NextSplit(values, ap, Passed(s), PassedWord(others));
      SegmentGoes(format, values, c, ap, Some(sofar), s);
      var c', ap', sofar' := c + |Written(s)|, ap + |Passed(s)|, sofar + Contributed(s);
      SegmentsGo(format, values, c', ap', sofar', others);
      GoesOn(format, values, c, ap, Some(sofar), [], c', ap', Some(sofar'), [], c' + |WrittenWord(others)|,
             ap' + |PassedWord(others)|, Some(sofar' + ContributedWord(others)));
      assert sofar + (Contributed(s) + ContributedWord(others)) == sofar' + ContributedWord(others);
      var none: seq<bytes> := [];
      assert none + none == none;
    }
  }

  lemma StandsThere(format: bytes, i: nat, x: bytes)
    requires StandsAt(format, i, x)
    ensures i + |x| <= |format|
  {
  }

  /** A word in front of which nothing has been collected. */
  lemma WordGoes(format: bytes, values: seq<Value>, c: nat, ap: nat, w: Word)
    requires w != [] && AllOk(w) && StandsAt(format, c, WrittenWord(w)) && AreNext(values, ap, PassedWord(w))
    ensures Goes(format, values, c, ap, None, [], c + |WrittenWord(w)|, ap + |PassedWord(w)|,
                 Some(ContributedWord(w)))
  {
    hide Goes, StandsAt, AreNext, SegmentOk, Written, Passed, Contributed;
    var s, others := w[0], w[1..];
    Peel(format, c, Written(s), WrittenWord(others));
    NextSplit(values, ap, Passed(s), PassedWord(others));
    SegmentGoes(format, values, c, ap, None, s);
    var c', ap', sofar := c + |Written(s)|, ap + |Passed(s)|, Contributed(s);
    assert [] + sofar == sofar;
    SegmentsGo(format, values, c', ap', sofar, others);
    GoesOn(format, values, c, ap, None, [], c', ap', Some(sofar), [], c' + |WrittenWord(others)|,
           ap' + |PassedWord(others)|, Some(sofar + ContributedWord(others)));
    var none: seq<bytes> := [];
    assert none + none == none;
  }

  lemma {:induction false} SpacesGo(format: bytes, values: seq<Value>, c: nat, ap: nat, current: Option<bytes>, n: nat)
    requires StandsAt(format, c, Spaces(n))
    ensures Goes(format, values, c, ap, current, if n == 0 then [] else Finished(current), c + n, ap,
                 if n == 0 then current else None)
    decreases n
  {
    hide Goes, StandsAt;
    StandsThere(format, c, Spaces(n));
    if n == 0 {
      StaysThere(format, values, c, ap, current);
    } else {
      assert Spaces(n) == [32] + Spaces(n - 1);
      Peel(format, c, [32], Spaces(n - 1));
      SpaceGoes(format, values, c, ap, current);
      SpacesGo(format, values, c + 1, ap, None, n - 1);
      GoesOn(format, values, c, ap, current, Finished(current), c + 1, ap, None, [], c + n, ap, None);
      assert Finished(current) + [] == Finished(current);
    }
  }

  /** A word and the spaces behind it: the argument is finished if there are any. */
  lemma WordAndSpacesGo(format: bytes, values: seq<Value>, c: nat, ap: nat, w: Word, gap: nat)
    requires w != [] && AllOk(w)
    requires StandsAt(format, c, WrittenWord(w) + Spaces(gap)) && AreNext(values, ap, PassedWord(w))
    ensures Goes(format, values, c, ap, None, if gap == 0 then [] else [ContributedWord(w)],
                 c + |WrittenWord(w)| + gap, ap + |PassedWord(w)|,
                 if gap == 0 then Some(ContributedWord(w)) else None)
  {
    hide Goes, StandsAt, AreNext, WrittenWord, PassedWord, ContributedWord;
    Peel(format, c, WrittenWord(w), Spaces(gap));
    WordGoes(format, values, c, ap, w);
    var c', ap', arg := c + |WrittenWord(w)|, ap + |PassedWord(w)|, ContributedWord(w);
    SpacesGo(format, values, c', ap', Some(arg), gap);
    var emitted, current := if gap == 0 then [] else [arg], if gap == 0 then Some(arg) else None;
    GoesOn(format, values, c, ap, None, [], c', ap', Some(arg), emitted, c' + gap, ap', current);
    assert [] + emitted == emitted;
  }

  /** The words of a line become arguments; the last one is still open if no space follows it. */
  lemma {:induction false} LineGoes(format: bytes, values: seq<Value>, c: nat, ap: nat, words: seq<Word>,
                                    gaps: seq<nat>) returns (finished: seq<bytes>, open: Option<bytes>)
    requires LineOk(words, gaps)
    requires StandsAt(format, c, WrittenLine(words, gaps)) && AreNext(values, ap, PassedLine(words))
    ensures Goes(format, values, c, ap, None, finished, c + |WrittenLine(words, gaps)|, ap + |PassedLine(words)|, open)
    ensures finished + Finished(open) == ContributedLine(words)
    ensures open.Some? <==> words != [] && gaps[|words| - 1] == 0
    decreases |words|
  {
    hide Goes, StandsAt, AreNext, WrittenWord, PassedWord, ContributedWord, AllOk;
    if words == [] {
      StandsThere(format, c, []);
      StaysThere(format, values, c, ap, None);
      finished, open := [], None;
    } else {
      var w, gap, others, gaps' := words[0], gaps[0], words[1..], gaps[1..];
      Peel(format, c, WrittenWord(w) + Spaces(gap), WrittenLine(others, gaps'));
      NextSplit(values, ap, PassedWord(w), PassedLine(others));
      WordAndSpacesGo(format, values, c, ap, w, gap);
      var c', ap' := c + |WrittenWord(w)| + gap, ap + |PassedWord(w)|;
      if gap == 0 {
        assert others == [];
        finished, open := [], Some(ContributedWord(w));
      } else {
        var later;
        later, open := LineGoes(format, values, c', ap', others, gaps');
        finished := [ContributedWord(w)] + later;
        GoesOn(format, values, c, ap, None, [ContributedWord(w)], c', ap', None, later,
               c' + |WrittenLine(others, gaps')|, ap' + |PassedLine(others)|, open);
        assert finished + Finished(open) == [ContributedWord(w)] + (later + Finished(open));
      }
    }
  }

  // ---------------------------------------------------------------- whole templates

  /** Spaces, the words, and perhaps a percent sign as the very last byte. */
  function Template(lead: nat, words: seq<Word>, gaps: seq<nat>, percent: bool): bytes
    requires LineOk(words, gaps)
  {
    Spaces(lead) + (WrittenLine(words, gaps) + Mark(percent, 37))
  }

  /** The arguments: one for each word, and a last percent sign joins a word that it follows directly. */
  function Meant(words: seq<Word>, gaps: seq<nat>, percent: bool): seq<bytes>
    requires LineOk(words, gaps)
  {
    var args, n := ContributedLine(words), |words|;
    if !percent then args
    else if n > 0 && gaps[n - 1] == 0 then ContributedLine(words[..n - 1]) + [ContributedWord(words[n - 1]) + [37]]
    else args + [[37]]
  }

  lemma {:induction false} ContributedSnoc(words: seq<Word>)
    requires words != [] && forall i :: 0 <= i < |words| ==> AllOk(words[i])
    ensures var n := |words| - 1;
            ContributedLine(words) == ContributedLine(words[..n]) + [ContributedWord(words[n])]
  {
    hide AllOk, ContributedWord;
    var n := |words| - 1;
    if n > 0 {
      ContributedSnoc(words[1..]);
      assert words[1..][..n - 1] == words[..n][1..];
    }
  }

  lemma SameSplit(a: seq<bytes>, x: bytes, b: seq<bytes>, y: bytes)
    requires a + [x] == b + [y]
    ensures a == b && x == y
  {
    assert (a + [x])[|a|] == x && (b + [y])[|b|] == y;
    assert (a + [x])[..|a|] == a && (b + [y])[..|b|] == b;
  }

  /** Up to the end of the words. */
  lemma LeadAndLineGo(format: bytes, values: seq<Value>, lead: nat, words: seq<Word>, gaps: seq<nat>, tail: bytes)
    returns (finished: seq<bytes>, open: Option<bytes>)
    requires LineOk(words, gaps) && format == Spaces(lead) + (WrittenLine(words, gaps) + tail)
    requires AreNext(values, 0, PassedLine(words))
    ensures Goes(format, values, 0, 0, None, finished, |format| - |tail|, |PassedLine(words)|, open)
    ensures finished + Finished(open) == ContributedLine(words)
    ensures open.Some? <==> words != [] && gaps[|words| - 1] == 0
    ensures StandsAt(format, |format| - |tail|, tail)
  {
    hide Goes, AllOk, WrittenLine, PassedLine, ContributedLine, AreNext;
    var line := WrittenLine(words, gaps);
    Whole(format);
    Peel(format, 0, Spaces(lead), line + tail);
    Peel(format, lead, line, tail);
    SpacesGo(format, values, 0, 0, None, lead);
    finished, open := LineGoes(format, values, lead, 0, words, gaps);
    var none: seq<bytes> := [];
    GoesOn(format, values, 0, 0, None, none, lead, 0, None, finished, lead + |line|, |PassedLine(words)|, open);
    assert none + finished == finished;
  }

  lemma Whole(format: bytes)
    ensures StandsAt(format, 0, format)
  {
    assert format[0..|format|] == format;
  }

  lemma GoesToTheEnd(format: bytes, values: seq<Value>, finished: seq<bytes>, ap: nat, open: Option<bytes>)
    requires Goes(format, values, 0, 0, None, finished, |format|, ap, open)
    ensures Fits(format, 0, values, 0)
    ensures var pieces := Interpolate(format, 0, values, 0);
            pieces.Some? && Arguments(pieces.value) == finished + Finished(open)
  {
    hide Arguments;
    CollectIsArguments(None, Interpolate(format, 0, values, 0).value);
  }

  /** The arguments of a template are its words with the values put in. */
  lemma TemplateMeaning(lead: nat, words: seq<Word>, gaps: seq<nat>, percent: bool, values: seq<Value>)
    requires LineOk(words, gaps) && AreNext(values, 0, PassedLine(words))
    ensures var format := Template(lead, words, gaps, percent);
            && Fits(format, 0, values, 0)
            && var pieces := Interpolate(format, 0, values, 0);
               pieces.Some? && Arguments(pieces.value) == Meant(words, gaps, percent)
  {
    hide Goes, Fits, Interpolate, Arguments, WrittenLine, PassedLine, ContributedLine, AreNext, StandsAt, AllOk;
    var format := Template(lead, words, gaps, percent);
    var tail := Mark(percent, 37);
    var finished, open := LeadAndLineGo(format, values, lead, words, gaps, tail);
    var c, ap := |format| - |tail|, |PassedLine(words)|;
    if percent {
      FirstOf(format, c, tail);
      LiteralByteGoes(format, values, c, ap, open);
      var last := Some(Extended(open, [37]));
      GoesOn(format, values, 0, 0, None, finished, c, ap, open, [], |format|, ap, last);
      assert finished + [] == finished;
      GoesToTheEnd(format, values, finished, ap, last);
      if open.Some? {
        ContributedSnoc(words);
        SameSplit(finished, open.value, ContributedLine(words[..|words| - 1]), ContributedWord(words[|words| - 1]));
      } else {
        assert [] + [37 as byte] == [37];
        assert finished + [] == finished;
      }
    } else {
      GoesToTheEnd(format, values, finished, ap, open);
    }
  }

  /** A command from a template: every value stands where it was asked for, and only the spaces of the template
      separate arguments. Values that are not asked for do no harm. */
  method FormatWords(lead: nat, words: seq<Word>, gaps: seq<nat>, percent: bool, more: seq<Value>)
    returns (cmd: array?<byte>, totlen: int)
    requires LineOk(words, gaps)
    ensures cmd != null && fresh(cmd) && 0 <= totlen && cmd.Length == totlen + 1
    ensures cmd[..totlen] == Wire(Meant(words, gaps, percent)) && cmd[totlen] == 0
  {
    hide Fits, Interpolate, Arguments, Meant, Template, PassedLine, Wire;
    var values := PassedLine(words) + more;
    assert values[0..|PassedLine(words)|] == PassedLine(words);
    TemplateMeaning(lead, words, gaps, percent, values);
    cmd, totlen := FormatCommand(Template(lead, words, gaps, percent), values);
  }

  // ---------------------------------------------------------------- malformed templates

  /** A conversion that cannot be one; only modifiers or a size can keep `%s`, `%b` and `%%` apart from it. */
  predicate Misspelt(m: Modifiers, size: bytes, rest: bytes) {
    && ModifiersOk(m) && Broken(size, rest)
    && (m == NO_MODIFIERS && size == [] ==> rest[0] !in {115, 98, 37})
  }

  lemma MisspeltFound(format: bytes, c: nat, m: Modifiers, size: bytes, rest: bytes)
    requires Misspelt(m, size, rest)
    requires StandsAt(format, c, [37] + ConversionBytes(m, size + rest))
    requires c + 1 + |ConversionBytes(m, size + rest)| == |format|
    ensures c < |format| && ElementAt(format, c).Malformed?
  {
    hide ConversionAt, ConversionBytes, StandsAt, Broken;
    BrokenFirst(size, rest);
    var later := ConversionBytes(m, size + rest);
    Peel(format, c, [37], later);
    ConversionFirst(m, size + rest);
    FirstOf(format, c + 1, later);
    BrokenRecognised(format, c + 1, m, size, rest);
  }

  lemma BrokenFirst(size: bytes, rest: bytes)
    requires Broken(size, rest)
    ensures size + rest != [] && (size == [] ==> rest != [] && (size + rest)[0] == rest[0])
    ensures size != [] ==> (size + rest)[0] == 104 || (size + rest)[0] == 108
  {
  }

  lemma MalformedGoes(format: bytes, values: seq<Value>, finished: seq<bytes>, c: nat, ap: nat, open: Option<bytes>)
    requires Goes(format, values, 0, 0, None, finished, c, ap, open)
    requires c < |format| && ElementAt(format, c).Malformed?
    ensures Fits(format, 0, values, 0) && Interpolate(format, 0, values, 0) == None
  {
    hide ElementAt, Behind;
  }

  /** A template with a misspelt conversion gives -1 and no command, whatever comes before and after it. */
  method FormatMisspelt(lead: nat, words: seq<Word>, gaps: seq<nat>, m: Modifiers, size: bytes, rest: bytes,
                        more: seq<Value>)
    returns (cmd: array?<byte>, totlen: int)
    requires LineOk(words, gaps) && Misspelt(m, size, rest)
    ensures cmd == null && totlen == -1
  {
    hide Fits, Interpolate, Arguments, WrittenLine, PassedLine, Wire, Goes, Misspelt, ElementAt, AllOk;
    var values, tail := PassedLine(words) + more, [37] + ConversionBytes(m, size + rest);
    assert values[0..|PassedLine(words)|] == PassedLine(words);
    var format := Spaces(lead) + (WrittenLine(words, gaps) + tail);
    ghost var finished, open := LeadAndLineGo(format, values, lead, words, gaps, tail);
    MisspeltFound(format, |format| - |tail|, m, size, rest);
    MalformedGoes(format, values, finished, |format| - |tail|, |PassedLine(words)|, open);
    cmd, totlen := FormatCommand(format, values);
  }
}
