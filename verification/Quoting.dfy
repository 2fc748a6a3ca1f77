/**
 The quoting of strings (`sdscatrepr`) and the splitting of a line into arguments (`sdssplitargs`) of
 hiredis/sds.c, which is meant to undo it.
 */
module Quoting {
  import opened Options
  import opened Bytes
  import opened SdsStrings
  import opened ArgumentScanner

  const BELL: byte := 7
  const BACKSPACE: byte := 8
  const TAB: byte := 9
  const LOWER_A: byte := 97
  const LOWER_BE: byte := 98
  const LOWER_N: byte := 110
  const LOWER_R: byte := 114
  const LOWER_T: byte := 116
  const LOWER_X: byte := 120

  /** isprint in the C locale. */
  predicate IsPrint(c: byte) {
    32 <= c <= 126
  }

  function HexDigit(n: nat): byte
    requires n < 16
  {
    (if n < 10 then 48 + n else 87 + n) as byte
  }

  /** What stands for one byte between the quotes. */
  function ReprByte(c: byte): bytes {
    if c == BACKSLASH || c == QUOTE then [BACKSLASH, c]
    else if c == LF then [BACKSLASH, LOWER_N]
    else if c == CR then [BACKSLASH, LOWER_R]
    else if c == TAB then [BACKSLASH, LOWER_T]
    else if c == BELL then [BACKSLASH, LOWER_A]
    else if c == BACKSPACE then [BACKSLASH, LOWER_BE]
    else if IsPrint(c) then [c]
    else [BACKSLASH, LOWER_X, HexDigit(c as int / 16), HexDigit(c as int % 16)]
  }

  function ReprBody(s: bytes): bytes {
    if s == [] then [] else ReprByte(s[0]) + ReprBody(s[1..])
  }

  function Repr(s: bytes): bytes {
    [QUOTE] + ReprBody(s) + [QUOTE]
  }

  /** sdscatrepr */
  method CatRepr(start: Sds, p: bytes) returns (s: Sds)
    requires start.Sds?
    ensures s.Sds? && s.data == start.data + Repr(p)
  {
    hide ReprByte;
    s := CatLen(start, [QUOTE]);
    assert p[..0] == [];
    for i := 0 to |p|
      invariant s.Sds? && s.data == start.data + [QUOTE] + ReprBody(p[..i])
    {
      ReprBodySnoc(p[..i], p[i]);
      assert p[..i + 1] == p[..i] + [p[i]];
      s := CatLen(s, ReprByte(p[i]));
    }
    assert p[..|p|] == p;
    s := CatLen(s, [QUOTE]);
    assert start.data + [QUOTE] + ReprBody(p) + [QUOTE] == start.data + Repr(p);
  }

  lemma {:induction false} ReprBodySnoc(s: bytes, c: byte)
    ensures ReprBody(s + [c]) == ReprBody(s) + ReprByte(c)
  {
    hide ReprByte;
    if s == [] {
      assert [] + [c] == [c] && [c][1..] == [];
      assert ReprByte(c) + [] == [] + ReprByte(c);
    } else {
      assert (s + [c])[1..] == s[1..] + [c] && (s + [c])[0] == s[0];
      ReprBodySnoc(s[1..], c);
      assert ReprByte(s[0]) + (ReprBody(s[1..]) + ReprByte(c)) == ReprByte(s[0]) + ReprBody(s[1..]) + ReprByte(c);
    }
  }

  // ---------------------------------------------------------------- splitting a line

  /** The end of the C string that starts here. */
  predicate AtEnd(s: bytes) {
    s == [] || s[0] == NUL
  }

  datatype Token = BadToken | Token(text: bytes, rest: bytes)

  predicate EndsWord(c: byte) {
    c == SPACE || c == LF || c == CR || c == TAB
  }

  /** The byte meant by an escape in quotes. */
  function Unescaped(c: byte): byte {
    if c == LOWER_N then LF
    else if c == LOWER_R then CR
    else if c == LOWER_T then TAB
    else if c == LOWER_BE then BACKSPACE
    else if c == LOWER_A then BELL
    else c
  }

  /** The rest of an argument outside quotes. */
  function Unquoted(s: bytes, current: bytes): (r: Token)
    ensures r.Token? ==> |r.rest| <= |s|
    ensures r.Token? && !AtEnd(s) ==> |r.rest| < |s|
    decreases |s|
  {
    if AtEnd(s) then Token(current, s)
    else if EndsWord(s[0]) then Token(current, s[1..])
    else if s[0] == QUOTE then Quoted(s[1..], current)
    else Unquoted(s[1..], current + [s[0]])
  }

  /** The rest of an argument inside quotes, which must be closed at the end of a word. */
  function Quoted(s: bytes, current: bytes): (r: Token)
    ensures r.Token? ==> |r.rest| <= |s|
    decreases |s|
  {
    if AtEnd(s) then BadToken
    else if s[0] == BACKSLASH && !AtEnd(s[1..]) then Quoted(s[2..], current + [Unescaped(s[1])])
    else if s[0] == QUOTE then
      if !AtEnd(s[1..]) && !IsSpace(s[1]) then BadToken else Token(current, s[1..])
    else Quoted(s[1..], current + [s[0]])
  }

  /** The arguments of a line; None when quotes are unbalanced or closed inside a word. */
  function SplitLineArgs(s: bytes): Option<seq<bytes>>
    decreases |s|
  {
    if AtEnd(s) then Some([])
    else if IsSpace(s[0]) then SplitLineArgs(s[1..])
    else
      match Unquoted(s, [])
      case BadToken => None
      case Token(text, rest) =>
        match SplitLineArgs(rest)
        case None => None
        case Some(args) => Some([text] + args)
  }

  /** The arguments found so far in front of those of the rest of the line. */
  function Prepend(vector: seq<bytes>, more: Option<seq<bytes>>): Option<seq<bytes>> {
    match more case None => None case Some(args) => Some(vector + args)
  }

  /** sdssplitargs on the C string in `line`. */
  method SplitArgs(line: bytes) returns (r: Option<seq<bytes>>)
    ensures r == SplitLineArgs(line)
  {
    var p, vector: seq<bytes> := 0, [];
    assert line[0..] == line;
    PrependNothing(SplitLineArgs(line));
    while true
      invariant 0 <= p <= |line|
      invariant SplitLineArgs(line) == Prepend(vector, SplitLineArgs(line[p..]))
      decreases |line| - p
    {
      while At(line, p) != NUL && IsSpace(At(line, p))
        invariant 0 <= p <= |line|
        invariant SplitLineArgs(line) == Prepend(vector, SplitLineArgs(line[p..]))
        decreases |line| - p
      {
        assert line[p..][1..] == line[p + 1..];
        p := p + 1;
      }
      if At(line, p) == NUL {
        assert vector + [] == vector;
        return Some(vector);
      }
      var ok, current, next := ReadToken(line, p);
      if !ok {
        return None;
      }
      PrependOne(vector, current, SplitLineArgs(line[next..]));
      vector := vector + [current];
      p := next;
    }
  }

  lemma PrependNothing(more: Option<seq<bytes>>)
    ensures Prepend([], more) == more
  {
    if more.Some? {
      assert [] + more.value == more.value;
    }
  }

  lemma PrependOne(vector: seq<bytes>, text: bytes, more: Option<seq<bytes>>)
    ensures Prepend(vector, Prepend([text], more)) == Prepend(vector + [text], more)
  {
    if more.Some? {
      assert vector + ([text] + more.value) == vector + [text] + more.value;
    }
  }

  lemma QuotedAt(line: bytes, p: nat, current: bytes)
    requires p <= |line|
    ensures Quoted(line[p..], current) ==
            if At(line, p) == NUL then BadToken
            else if At(line, p) == BACKSLASH && At(line, p + 1) != NUL then
              Quoted(line[p + 2..], current + [Unescaped(line[p + 1])])
            else if At(line, p) == QUOTE then
              if At(line, p + 1) != NUL && !IsSpace(At(line, p + 1)) then BadToken else Token(current, line[p + 1..])
            else Quoted(line[p + 1..], current + [line[p]])
  {
    if p < |line| {
      assert line[p..][1..] == line[p + 1..];
      if p + 1 < |line| {
        assert line[p..][2..] == line[p + 2..];
      }
    }
  }

  lemma UnquotedAt(line: bytes, p: nat, current: bytes)
    requires p <= |line|
    ensures Unquoted(line[p..], current) ==
            if At(line, p) == NUL then Token(current, line[p..])
            else if EndsWord(At(line, p)) then Token(current, line[p + 1..])
            else if At(line, p) == QUOTE then Quoted(line[p + 1..], current)
            else Unquoted(line[p + 1..], current + [line[p]])
  {
    if p < |line| {
      assert line[p..][1..] == line[p + 1..];
    }
  }

  /** The loop that reads one argument, in or out of quotes. */
  method ReadToken(line: bytes, start: nat) returns (ok: bool, current: bytes, p: nat)
    requires start < |line| && line[start] != NUL && !IsSpace(line[start])
    ensures ok ==> start < p <= |line| && Unquoted(line[start..], []) == Token(current, line[p..])
    ensures !ok ==> Unquoted(line[start..], []) == BadToken
  {
    hide Quoted, Unquoted, IsSpace, EndsWord, Unescaped;
    current, p := [], start;
    var inq, done := false, false;
    while !done
      invariant start <= p <= |line| && (p == start ==> !done && !inq && current == [])
      invariant Unquoted(line[start..], []) ==
                if done then Token(current, line[p..])
                else if inq then Quoted(line[p..], current) else Unquoted(line[p..], current)
      decreases |line| - p, !done
    {
      QuotedAt(line, p, current);
      UnquotedAt(line, p, current);
      if inq {
        if At(line, p) == BACKSLASH && At(line, p + 1) != NUL {
          p := p + 1;
          current := current + [Unescaped(line[p])];
        } else if At(line, p) == QUOTE {
          if At(line, p + 1) != NUL && !IsSpace(At(line, p + 1)) {
            return false, current, p;
          }
          done := true;
        } else if At(line, p) == NUL {
          return false, current, p;
        } else {
          current := current + [line[p]];
        }
      } else {
        if At(line, p) == NUL || EndsWord(At(line, p)) {
          done := true;
        } else if At(line, p) == QUOTE {
          inq := true;
        } else {
          current := current + [line[p]];
        }
      }
      if At(line, p) != NUL {
        p := p + 1;
      }
    }
    ok := true;
  }

  // ---------------------------------------------------------------- splitting undoes quoting

  /** The bytes that are not printed as hexadecimal escapes: printable ASCII and the five control
      characters that have escapes of their own. */
  predicate IsPlain(c: byte) {
    IsPrint(c) || c == LF || c == CR || c == TAB || c == BELL || c == BACKSPACE
  }

  predicate AllPlain(s: bytes) {
    forall i :: 0 <= i < |s| ==> IsPlain(s[i])
  }

  /** What the splitter makes of one quoted byte: the splitter does not know hexadecimal escapes. */
  function Reread(c: byte): bytes {
    if IsPlain(c) then [c]
    else [LOWER_X, HexDigit(c as int / 16), HexDigit(c as int % 16)]
  }

  function RereadAll(s: bytes): bytes {
    if s == [] then [] else Reread(s[0]) + RereadAll(s[1..])
  }

  lemma QuotedByte(c: byte, t: bytes, current: bytes)
    requires !AtEnd(t)
    ensures Quoted(ReprByte(c) + t, current) == Quoted(t, current + Reread(c))
  {
    var r := ReprByte(c);
    var s := r + t;
    if |r| == 1 {
      assert s[1..] == t;
    } else if |r| == 2 {
      assert s[2..] == t;
    } else {
      var h1, h2 := HexDigit(c as int / 16), HexDigit(c as int % 16);
      assert s[2..] == [h1, h2] + t && s[2..][1..] == [h2] + t && s[2..][1..][1..] == t;
      assert Quoted(s, current) == Quoted(s[2..], current + [LOWER_X]);
      assert Quoted(s[2..], current + [LOWER_X]) == Quoted([h2] + t, current + [LOWER_X] + [h1]);
      assert Quoted([h2] + t, current + [LOWER_X] + [h1]) == Quoted(t, current + [LOWER_X] + [h1] + [h2]);
      assert current + [LOWER_X] + [h1] + [h2] == current + Reread(c);
    }
  }

  lemma QuotedEnd(t: bytes, current: bytes)
    requires AtEnd(t) || IsSpace(t[0])
    ensures Quoted([QUOTE] + t, current) == Token(current, t)
  {
    assert ([QUOTE] + t)[1..] == t;
  }

  lemma ReprBodyHead(s: bytes, t: bytes)
    requires s != []
    ensures ReprBody(s) + [QUOTE] + t == ReprByte(s[0]) + (ReprBody(s[1..]) + [QUOTE] + t)
    ensures !AtEnd(ReprBody(s[1..]) + [QUOTE] + t)
  {
    hide ReprByte;
    ReprHasNoNul(s[1..]);
  }

  lemma RereadHead(s: bytes, current: bytes)
    requires s != []
    ensures current + Reread(s[0]) + RereadAll(s[1..]) == current + RereadAll(s)
  {
    hide Reread;
  }

  lemma {:induction false} QuotedBody(s: bytes, t: bytes, current: bytes)
    requires AtEnd(t) || IsSpace(t[0])
    ensures Quoted(ReprBody(s) + [QUOTE] + t, current) == Token(current + RereadAll(s), t)
    decreases |s|
  {
    hide Quoted, ReprByte, Reread;
    if s == [] {
      QuotedEnd(t, current);
      assert [] + [QUOTE] + t == [QUOTE] + t && current + [] == current;
    } else {
      hide ReprBody, RereadAll;
      ReprBodyHead(s, t);
      QuotedByte(s[0], ReprBody(s[1..]) + [QUOTE] + t, current);
      QuotedBody(s[1..], t, current + Reread(s[0]));
      RereadHead(s, current);
    }
  }

  lemma {:induction false} ReprHasNoNul(s: bytes)
    ensures forall i :: 0 <= i < |ReprBody(s)| ==> ReprBody(s)[i] != NUL
  {
    if s != [] {
      ReprHasNoNul(s[1..]);
    }
  }

  /** Quoted strings with single spaces between them. */
  function JoinReprs(args: seq<bytes>): bytes {
    if args == [] then []
    else if |args| == 1 then Repr(args[0])
    else Repr(args[0]) + [SPACE] + JoinReprs(args[1..])
  }

  function RereadEach(args: seq<bytes>): seq<bytes> {
    seq(|args|, i requires 0 <= i < |args| => RereadAll(args[i]))
  }

  lemma FirstQuoted(s: bytes, t: bytes)
    requires AtEnd(t) || IsSpace(t[0])
    ensures Unquoted(Repr(s) + t, []) == Token(RereadAll(s), t)
  {
    hide ReprBody, RereadAll, Quoted;
    var body := ReprBody(s) + [QUOTE] + t;
    assert Repr(s) + t == [QUOTE] + body && ([QUOTE] + body)[1..] == body;
    QuotedBody(s, t, []);
    assert [] + RereadAll(s) == RereadAll(s);
  }

  lemma SplitFirst(line: bytes, text: bytes, rest: bytes, args: seq<bytes>)
    requires !AtEnd(line) && !IsSpace(line[0]) && Unquoted(line, []) == Token(text, rest)
    requires SplitLineArgs(rest) == Some(args)
    ensures SplitLineArgs(line) == Some([text] + args)
  {
    hide Unquoted;
  }

  lemma SplitSpace(line: bytes)
    ensures SplitLineArgs([SPACE] + line) == SplitLineArgs(line)
    ensures SplitLineArgs([]) == Some([])
  {
    hide Unquoted;
    assert ([SPACE] + line)[1..] == line;
  }

  /** Splitting a line of quoted strings, whatever bytes they hold. */
  lemma {:induction false} SplitQuoted(args: seq<bytes>)
    ensures SplitLineArgs(JoinReprs(args)) == Some(RereadEach(args))
    decreases |args|
  {
    hide SplitLineArgs, Unquoted, RereadAll, ReprBody;
    if args == [] {
      SplitSpace([]);
      assert RereadEach(args) == [];
    } else {
      var others := JoinReprs(args[1..]);
      var t := if |args| == 1 then [] else [SPACE] + others;
      assert JoinReprs(args) == Repr(args[0]) + t;
      FirstQuoted(args[0], t);
      SplitQuoted(args[1..]);
      SplitSpace(others);
      assert |args| == 1 ==> args[1..] == [] && others == [];
      SplitFirst(JoinReprs(args), RereadAll(args[0]), t, RereadEach(args[1..]));
      assert RereadEach(args) == [RereadAll(args[0])] + RereadEach(args[1..]);
    }
  }

  lemma {:induction false} RereadLonger(s: bytes)
    ensures |RereadAll(s)| >= |s|
    ensures RereadAll(s) == s <==> AllPlain(s)
    ensures |RereadAll(s)| == |s| ==> AllPlain(s)
  {
    if s != [] {
      RereadLonger(s[1..]);
      assert s == [s[0]] + s[1..];
      assert AllPlain(s) ==> AllPlain(s[1..]);
      if AllPlain(s[1..]) && IsPlain(s[0]) {
        forall i | 0 <= i < |s| ensures IsPlain(s[i]) {
          assert i > 0 ==> s[i] == s[1..][i - 1];
        }
      }
    }
  }

  /** The exact domain on which splitting undoes quoting: the documentation promises it for all strings,
      the code keeps it for those without bytes that print as hexadecimal escapes. */
  lemma QuotingRoundTrip(args: seq<bytes>)
    ensures SplitLineArgs(JoinReprs(args)) == Some(args) <==> forall i :: 0 <= i < |args| ==> AllPlain(args[i])
  {
    SplitQuoted(args);
    forall i | 0 <= i < |args| ensures RereadAll(args[i]) == args[i] <==> AllPlain(args[i]) {
      RereadLonger(args[i]);
    }
    assert RereadEach(args) == args ==> forall i :: 0 <= i < |args| ==> RereadEach(args)[i] == args[i];
    if forall i :: 0 <= i < |args| ==> AllPlain(args[i]) {
      assert RereadEach(args) == args;
    }
  }
}
