/**
 Lines of arguments from the writing side: which bytes make an argument, in and out of quotes, and which lines
 are refused; and how quoting spells every byte. All bytes are written as numbers here.
 */
module QuotedLines {
  import opened Options
  import opened Bytes
  import opened ArgumentScanner
  import opened Quoting

  // ---------------------------------------------------------------- arguments

  /** What stands between quotes for one byte. */
  datatype Item = Verbatim(b: byte) | Escaped(b: byte)

  predicate ItemOk(i: Item) {
    match i
    case Verbatim(b) => b != 0 && b != 34 && b != 92
    case Escaped(b) => b != 0
  }

  function WrittenItem(i: Item): bytes {
    match i case Verbatim(b) => [b] case Escaped(b) => [92, b]
  }

  function Meant(i: Item): byte {
    match i
    case Verbatim(b) => b
    case Escaped(b) =>
      if b == 110 then 10
      else if b == 114 then 13
      else if b == 116 then 9
      else if b == 98 then 8
      else if b == 97 then 7
      else b
  }

  predicate ItemsOk(items: seq<Item>) {
    forall i :: 0 <= i < |items| ==> ItemOk(items[i])
  }

  function WrittenItems(items: seq<Item>): bytes {
    if items == [] then [] else WrittenItem(items[0]) + WrittenItems(items[1..])
  }

  function MeantBy(items: seq<Item>): bytes {
    if items == [] then [] else [Meant(items[0])] + MeantBy(items[1..])
  }

  /** isspace: the bytes that may stand around arguments. */
  predicate IsGap(b: byte) {
    9 <= b <= 13 || b == 32
  }

  /** The end of the line. */
  predicate Ends(s: bytes) {
    s == [] || s[0] == 0
  }

  /** Bytes outside quotes, and perhaps a part in quotes, with which an argument ends. */
  datatype Argument = Argument(plain: bytes, quoted: Option<seq<Item>>)

  /** Only blanks, tabs and line ends separate arguments outside quotes; any white space may come in front of
      an argument. */
  predicate PlainOk(plain: bytes) {
    && (forall i :: 0 <= i < |plain| ==> plain[i] !in {0, 34, 32, 10, 13, 9})
    && (plain != [] ==> !IsGap(plain[0]))
  }

  predicate ArgumentOk(a: Argument) {
    && PlainOk(a.plain)
    && (match a.quoted
        case None => a.plain != []
        case Some(items) => ItemsOk(items))
  }

  function QuotedBytes(quoted: Option<seq<Item>>): bytes {
    match quoted case None => [] case Some(items) => [34] + (WrittenItems(items) + [34])
  }

  function WrittenArgument(a: Argument): bytes {
    a.plain + QuotedBytes(a.quoted)
  }

  function ValueOf(a: Argument): bytes {
    a.plain + match a.quoted case None => [] case Some(items) => MeantBy(items)
  }

  /** White space that can follow the argument. */
  predicate GapOk(a: Argument, gap: bytes) {
    && (forall i :: 0 <= i < |gap| ==> IsGap(gap[i]))
    && (gap != [] && a.quoted.None? ==> gap[0] in {32, 10, 13, 9})
  }

  function WrittenLine(args: seq<Argument>, gaps: seq<bytes>): bytes
    requires |args| == |gaps|
  {
    if args == [] then [] else WrittenArgument(args[0]) + (gaps[0] + WrittenLine(args[1..], gaps[1..]))
  }

  function Values(args: seq<Argument>): seq<bytes> {
    seq(|args|, i requires 0 <= i < |args| => ValueOf(args[i]))
  }

  /** Arguments with white space behind each; it may be missing behind the last if the line ends there. */
  predicate LineOk(args: seq<Argument>, gaps: seq<bytes>, ended: bool) {
    && |args| == |gaps|
    && (forall i :: 0 <= i < |args| ==> ArgumentOk(args[i]) && GapOk(args[i], gaps[i]))
    && (forall i :: 0 <= i < |args| ==> gaps[i] != [] || (ended && i == |args| - 1))
  }

  // ---------------------------------------------------------------- one argument

  lemma {:induction false} PlainRead(plain: bytes, t: bytes, current: bytes)
    requires forall i :: 0 <= i < |plain| ==> plain[i] !in {0, 34, 32, 10, 13, 9}
    ensures Unquoted(plain + t, current) == Unquoted(t, current + plain)
    decreases |plain|
  {
    hide Quoted;
    if plain == [] {
      assert plain + t == t && current + plain == current;
    } else {
      var b, others := plain[0], plain[1..];
      assert (plain + t)[1..] == others + t && (plain + t)[0] == b;
      PlainRead(others, t, current + [b]);
      assert current + [b] + others == current + plain;
    }
  }

  lemma ItemRead(i: Item, t: bytes, current: bytes)
    requires ItemOk(i)
    ensures Quoted(WrittenItem(i) + t, current) == Quoted(t, current + [Meant(i)])
  {
    var s := WrittenItem(i) + t;
    match i
    case Verbatim(b) => assert s[1..] == t;
    case Escaped(b) => assert s[1..] == [b] + t && s[2..] == t;
  }

  lemma {:induction false} ItemsRead(items: seq<Item>, t: bytes, current: bytes)
    requires ItemsOk(items)
    ensures Quoted(WrittenItems(items) + t, current) == Quoted(t, current + MeantBy(items))
    decreases |items|
  {
    hide Quoted, Meant;
    if items == [] {
      assert WrittenItems(items) + t == t && current + [] == current;
    } else {
      var i, others := items[0], items[1..];
      var later := WrittenItems(others) + t;
      assert WrittenItems(items) + t == WrittenItem(i) + later;
      ItemsRead(others, t, current + [Meant(i)]);
      ItemRead(i, later, current);
      assert current + [Meant(i)] + MeantBy(others) == current + ([Meant(i)] + MeantBy(others));
    }
  }

  lemma QuoteOpens(s: bytes, current: bytes)
    ensures Unquoted([34] + s, current) == Quoted(s, current)
  {
    hide Quoted;
    assert ([34] + s)[1..] == s;
  }

  lemma QuoteCloses(t: bytes, current: bytes)
    ensures Quoted([34] + t, current) == if Ends(t) || IsGap(t[0]) then Token(current, t) else BadToken
  {
    assert ([34] + t)[1..] == t;
  }

  lemma WordEnds(t: bytes, current: bytes)
    requires Ends(t) || t[0] in {32, 10, 13, 9}
    ensures Unquoted(t, current) == Token(current, if Ends(t) then t else t[1..])
  {
  }

  lemma PlainArgumentRead(plain: bytes, t: bytes)
    requires PlainOk(plain) && (Ends(t) || t[0] in {32, 10, 13, 9})
    ensures Unquoted(plain + t, []) == Token(plain, if Ends(t) then t else t[1..])
  {
    hide Unquoted;
    PlainRead(plain, t, []);
    assert [] + plain == plain;
    WordEnds(t, plain);
  }

  lemma QuotedArgumentRead(plain: bytes, items: seq<Item>, t: bytes)
    requires PlainOk(plain) && ItemsOk(items) && (Ends(t) || IsGap(t[0]))
    ensures Unquoted(plain + ([34] + (WrittenItems(items) + ([34] + t))), []) == Token(plain + MeantBy(items), t)
  {
    hide Unquoted, Quoted, ItemsOk, WrittenItems, MeantBy;
    var body := WrittenItems(items) + ([34] + t);
    PlainRead(plain, [34] + body, []);
    assert [] + plain == plain;
    QuoteOpens(body, plain);
    ItemsRead(items, [34] + t, plain);
    QuoteCloses(t, plain + MeantBy(items));
  }

  lemma Regroup(a: bytes, b: bytes, c: bytes, d: bytes)
    ensures a + (b + c) + d == a + (b + (c + d))
  {
  }

  /** An argument is read up to the white space behind it. */
  lemma ArgumentRead(a: Argument, t: bytes)
    requires ArgumentOk(a) && (Ends(t) || (IsGap(t[0]) && (a.quoted.None? ==> t[0] in {32, 10, 13, 9})))
    ensures Unquoted(WrittenArgument(a) + t, []) ==
              Token(ValueOf(a), if a.quoted.Some? || Ends(t) then t else t[1..])
  {
    hide Unquoted, ItemsOk, WrittenItems, MeantBy, PlainOk;
    match a.quoted
    case None =>
      PlainArgumentRead(a.plain, t);
      assert a.plain + [] == a.plain;
    case Some(items) =>
      QuotedArgumentRead(a.plain, items, t);
      Regroup([34], WrittenItems(items), [34], t);
      Regroup(a.plain, [34] + (WrittenItems(items) + [34]), [], t);
      assert [34] + (WrittenItems(items) + [34]) + [] == [34] + (WrittenItems(items) + [34]) && [] + t == t;
  }

  // ---------------------------------------------------------------- lines

  lemma {:induction false} GapSkipped(gap: bytes, s: bytes)
    requires forall i :: 0 <= i < |gap| ==> IsGap(gap[i])
    ensures SplitLineArgs(gap + s) == SplitLineArgs(s)
    decreases |gap|
  {
    hide Unquoted;
    if gap == [] {
      assert gap + s == s;
    } else {
      assert (gap + s)[1..] == gap[1..] + s && (gap + s)[0] == gap[0];
      GapSkipped(gap[1..], s);
    }
  }

  lemma FirstToken(line: bytes)
    requires !Ends(line) && !IsGap(line[0])
    ensures SplitLineArgs(line) ==
            match Unquoted(line, [])
            case BadToken => None
            case Token(text, rest) => Prepend([text], SplitLineArgs(rest))
  {
    hide Unquoted;
  }

  lemma Begins(a: Argument, t: bytes)
    requires ArgumentOk(a)
    ensures var s := WrittenArgument(a) + t; !Ends(s) && !IsGap(s[0])
  {
    var s := WrittenArgument(a) + t;
    assert s[0] == if a.plain != [] then a.plain[0] else 34;
  }

  lemma ArgumentThen(a: Argument, gap: bytes, u: bytes)
    requires ArgumentOk(a) && GapOk(a, gap) && (gap != [] || Ends(u))
    ensures SplitLineArgs(WrittenArgument(a) + (gap + u)) == Prepend([ValueOf(a)], SplitLineArgs(u))
  {
    hide Unquoted, SplitLineArgs, ValueOf, WrittenArgument, ArgumentOk;
    var t := gap + u;
    Begins(a, t);
    FirstToken(WrittenArgument(a) + t);
    assert gap == [] ==> t == u;
    ArgumentRead(a, t);
    GapSkipped(gap, u);
    if gap != [] && a.quoted.None? {
      assert t[1..] == gap[1..] + u;
      GapSkipped(gap[1..], u);
    }
  }

  lemma FirstOfLine(args: seq<Argument>, gaps: seq<bytes>, u: bytes)
    requires args != [] && |args| == |gaps|
    ensures WrittenLine(args, gaps) + u
         == WrittenArgument(args[0]) + (gaps[0] + (WrittenLine(args[1..], gaps[1..]) + u))
    ensures Values(args) == [ValueOf(args[0])] + Values(args[1..])
  {
    hide WrittenArgument, ValueOf, Values;
    Regroup(WrittenArgument(args[0]), gaps[0], WrittenLine(args[1..], gaps[1..]), u);
    FirstValue(args);
  }

  lemma FirstValue(args: seq<Argument>)
    requires args != []
    ensures Values(args) == [ValueOf(args[0])] + Values(args[1..])
  {
    hide ValueOf;
  }

  lemma OthersOfLine(args: seq<Argument>, gaps: seq<bytes>, ended: bool)
    requires LineOk(args, gaps, ended) && args != []
    ensures ArgumentOk(args[0]) && GapOk(args[0], gaps[0]) && LineOk(args[1..], gaps[1..], ended)
    ensures gaps[0] != [] || (ended && |args| == 1)
  {
    hide ArgumentOk, GapOk;
  }

  lemma NoArguments(u: bytes)
    ensures WrittenLine([], []) + u == u && Values([]) == []
  {
  }

  lemma {:induction false} LineThen(args: seq<Argument>, gaps: seq<bytes>, u: bytes)
    requires LineOk(args, gaps, Ends(u))
    ensures SplitLineArgs(WrittenLine(args, gaps) + u) == Prepend(Values(args), SplitLineArgs(u))
    decreases |args|
  {
    hide Unquoted, SplitLineArgs, ArgumentOk, GapOk, ValueOf, WrittenArgument, WrittenLine, Values, Prepend;
    NoArguments(u);
    if args == [] {
      PrependNothing(SplitLineArgs(u));
    } else {
      hide LineOk;
      OthersOfLine(args, gaps, Ends(u));
      FirstOfLine(args, gaps, u);
      ArgumentThen(args[0], gaps[0], WrittenLine(args[1..], gaps[1..]) + u);
      LineThen(args[1..], gaps[1..], u);
      PrependMore([ValueOf(args[0])], Values(args[1..]), SplitLineArgs(u));
    }
  }

  lemma PrependMore(a: seq<bytes>, b: seq<bytes>, more: Option<seq<bytes>>)
    ensures Prepend(a, Prepend(b, more)) == Prepend(a + b, more)
  {
    if more.Some? {
      assert a + (b + more.value) == a + b + more.value;
    }
  }

  /** A line of arguments with white space between them, and perhaps more of it in front and behind, is split
      into exactly these arguments; a NUL byte ends the line. */
  lemma SplitWritten(lead: bytes, args: seq<Argument>, gaps: seq<bytes>, rest: bytes)
    requires forall i :: 0 <= i < |lead| ==> IsGap(lead[i])
    requires LineOk(args, gaps, true) && Ends(rest)
    ensures SplitLineArgs(lead + (WrittenLine(args, gaps) + rest)) == Some(Values(args))
  {
    hide SplitLineArgs, ArgumentOk, GapOk;
    GapSkipped(lead, WrittenLine(args, gaps) + rest);
    LineThen(args, gaps, rest);
    NothingLeft(rest);
    assert Values(args) + [] == Values(args);
  }

  lemma NothingLeft(rest: bytes)
    requires Ends(rest)
    ensures SplitLineArgs(rest) == Some([])
  {
  }

  /** What makes an argument bad: its quotes are never closed, or something follows the closing quote. */
  datatype Flaw = Unclosed(backslash: bool, after: bytes) | Continued(after: bytes)

  predicate FlawOk(f: Flaw) {
    match f
    case Unclosed(_, after) => Ends(after)
    case Continued(after) => !Ends(after) && !IsGap(after[0])
  }

  function FlawBytes(f: Flaw): bytes {
    match f
    case Unclosed(backslash, after) => (if backslash then [92] else []) + after
    case Continued(after) => [34] + after
  }

  lemma FlawRead(items: seq<Item>, f: Flaw, current: bytes)
    requires ItemsOk(items) && FlawOk(f)
    ensures Quoted(WrittenItems(items) + FlawBytes(f), current) == BadToken
  {
    hide Quoted;
    ItemsRead(items, FlawBytes(f), current);
    match f
    case Unclosed(backslash, after) =>
      assert [] + after == after;
      NeverClosed(backslash, after, current + MeantBy(items));
    case Continued(after) => QuoteCloses(after, current + MeantBy(items));
  }

  lemma NeverClosed(backslash: bool, after: bytes, current: bytes)
    requires Ends(after)
    ensures Quoted((if backslash then [92] else []) + after, current) == BadToken
  {
    assert [] + after == after && ([92] + after)[1..] == after;
    assert Quoted(after, current + [92]) == BadToken;
  }

  /** A line with a bad argument is refused, whatever comes before and after it. */
  lemma SplitRefused(lead: bytes, args: seq<Argument>, gaps: seq<bytes>, plain: bytes, items: seq<Item>, f: Flaw)
    requires forall i :: 0 <= i < |lead| ==> IsGap(lead[i])
    requires LineOk(args, gaps, false) && PlainOk(plain) && ItemsOk(items) && FlawOk(f)
    ensures SplitLineArgs(lead + (WrittenLine(args, gaps) + (plain + ([34] + (WrittenItems(items) + FlawBytes(f))))))
         == None
  {
    hide SplitLineArgs, Unquoted, Quoted, FlawBytes;
    var s := WrittenItems(items) + FlawBytes(f);
    var u := plain + ([34] + s);
    GapSkipped(lead, WrittenLine(args, gaps) + u);
    assert u[0] == if plain != [] then plain[0] else 34;
    LineThen(args, gaps, u);
    FirstToken(u);
    PlainRead(plain, [34] + s, []);
    QuoteOpens(s, [] + plain);
    FlawRead(items, f, [] + plain);
  }

  // ---------------------------------------------------------------- plain words

  /** Words without white space, quotes and NUL bytes, as arguments. */
  function AsArguments(words: seq<bytes>): seq<Argument> {
    seq(|words|, i requires 0 <= i < |words| => Argument(words[i], None))
  }

  function JoinWords(words: seq<bytes>, gaps: seq<bytes>): bytes
    requires |words| == |gaps|
  {
    if words == [] then [] else words[0] + (gaps[0] + JoinWords(words[1..], gaps[1..]))
  }

  lemma {:induction false} JoinIsLine(words: seq<bytes>, gaps: seq<bytes>)
    requires |words| == |gaps|
    ensures JoinWords(words, gaps) == WrittenLine(AsArguments(words), gaps)
    decreases |words|
  {
    if words != [] {
      JoinIsLine(words[1..], gaps[1..]);
      assert AsArguments(words)[1..] == AsArguments(words[1..]);
      assert words[0] + [] == words[0];
    }
  }

  lemma WordIsArgument(word: bytes, gap: bytes)
    requires word != [] && forall j :: 0 <= j < |word| ==> word[j] !in {0, 34, 32, 9, 10, 11, 12, 13}
    requires forall j :: 0 <= j < |gap| ==> gap[j] in {32, 10, 13, 9}
    ensures var a := Argument(word, None); ArgumentOk(a) && GapOk(a, gap) && ValueOf(a) == word
  {
    assert word + [] == word;
  }

  /** Words between blanks, tabs and line ends are the arguments. */
  lemma SplitWords(lead: bytes, words: seq<bytes>, gaps: seq<bytes>)
    requires |words| == |gaps|
    requires forall i :: 0 <= i < |lead| ==> lead[i] in {32, 10, 13, 9}
    requires forall i, j :: 0 <= i < |words| && 0 <= j < |words[i]| ==> words[i][j] !in {0, 34, 32, 9, 10, 11, 12, 13}
    requires forall i, j :: 0 <= i < |gaps| && 0 <= j < |gaps[i]| ==> gaps[i][j] in {32, 10, 13, 9}
    requires forall i :: 0 <= i < |words| ==> words[i] != [] && (gaps[i] != [] || i == |words| - 1)
    ensures SplitLineArgs(lead + JoinWords(words, gaps)) == Some(words)
  {
    hide SplitLineArgs;
    var args := AsArguments(words);
    JoinIsLine(words, gaps);
    forall i | 0 <= i < |words| ensures ArgumentOk(args[i]) && GapOk(args[i], gaps[i]) && ValueOf(args[i]) == words[i] {
      WordIsArgument(words[i], gaps[i]);
    }
    hide ArgumentOk, GapOk, ValueOf;
    SplitWritten(lead, args, gaps, []);
    assert WrittenLine(args, gaps) + [] == WrittenLine(args, gaps);
    assert Values(args) == words;
  }

  // ---------------------------------------------------------------- how bytes are quoted

  /** The value of a lower-case hexadecimal digit. */
  function HexValue(b: byte): Option<int> {
    if 48 <= b <= 57 then Some(b as int - 48)
    else if 97 <= b <= 102 then Some(b as int - 97 + 10)
    else None
  }

  /** How one byte stands between quotes. */
  predicate Spells(part: bytes, b: byte) {
    if b == 92 || b == 34 then part == [92, b]
    else if b == 10 then part == [92, 110]
    else if b == 13 then part == [92, 114]
    else if b == 9 then part == [92, 116]
    else if b == 8 then part == [92, 98]
    else if b == 7 then part == [92, 97]
    else if 32 <= b <= 126 then part == [b]
    else
      && |part| == 4 && part[0] == 92 && part[1] == 120
      && HexValue(part[2]).Some? && HexValue(part[3]).Some?
      && 16 * HexValue(part[2]).value + HexValue(part[3]).value == b as int
  }

  lemma ByteIsSpelt(b: byte)
    ensures Spells(ReprByte(b), b)
  {
  }

  /** A quoted string is the spelling of each of its bytes between two quotes. */
  lemma {:induction false} BodyIsSpelt(s: bytes) returns (parts: seq<bytes>)
    ensures |parts| == |s| && forall i :: 0 <= i < |s| ==> Spells(parts[i], s[i])
    ensures ReprBody(s) == Concat(parts)
  {
    hide Spells, ReprByte;
    if s == [] {
      parts := [];
    } else {
      var later := BodyIsSpelt(s[1..]);
      ByteIsSpelt(s[0]);
      parts := [ReprByte(s[0])] + later;
      assert parts[1..] == later;
    }
  }

  lemma ReprIsSpelt(s: bytes) returns (parts: seq<bytes>)
    ensures |parts| == |s| && forall i :: 0 <= i < |s| ==> Spells(parts[i], s[i])
    ensures Repr(s) == [34] + Concat(parts) + [34]
  {
    hide Spells;
    parts := BodyIsSpelt(s);
  }

  /** The splitter gives back a byte, or an x and the two hexadecimal digits of the byte. */
  lemma RereadIsSpelt(b: byte)
    ensures Reread(b) == [b] || (Reread(b) == [120] + ReprByte(b)[2..] && |Reread(b)| == 3)
    ensures Reread(b) == [b] <==> 32 <= b <= 126 || 7 <= b <= 10 || b == 13
  {
  }
}
