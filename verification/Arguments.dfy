/**
 The argument scanner of hiredis/async.c: a second parser of formatted commands, which finds the
 arguments by their length lines.
 */
module ArgumentScanner {
  import opened Options
  import opened Bytes
  import opened Resp
  import opened Commands

  predicate IsSpace(c: byte) {
    c == SPACE || 9 <= c <= 13
  }

  function LeadingDigits(s: bytes, v: int): int {
    if s != [] && IsDigit(s[0]) then LeadingDigits(s[1..], 10 * v + (s[0] - ZERO) as int) else v
  }

  /** strtol in base 10: optional white space, an optional sign, and as many digits as there are. */
  function StrToL(s: bytes): int {
    if s == [] then 0
    else if IsSpace(s[0]) then StrToL(s[1..])
    else if s[0] == MINUS then -LeadingDigits(s[1..], 0)
    else if s[0] == PLUS then LeadingDigits(s[1..], 0)
    else LeadingDigits(s, 0)
  }

  lemma {:induction false} LeadingDigitsOf(digits: bytes, t: bytes, v: int)
    requires forall i :: 0 <= i < |digits| ==> IsDigit(digits[i])
    requires t == [] || !IsDigit(t[0])
    ensures Digits(digits, v) == Some(LeadingDigits(digits + t, v))
  {
    if digits == [] {
      assert digits + t == t;
    } else {
      assert (digits + t)[1..] == digits[1..] + t;
      LeadingDigitsOf(digits[1..], t, 10 * v + (digits[0] - ZERO) as int);
    }
  }

  /** `ch` stands at `r`, and neither it nor the end of the C string comes before. */
  predicate FirstAt(buf: bytes, from: nat, ch: byte, r: nat) {
    from <= r < |buf| && buf[r] == ch && forall i :: from <= i < r ==> buf[i] != ch && buf[i] != NUL
  }

  /** strchr on the C string in `buf` from `from` on; -1 stands for NULL. */
  method StrChr(buf: bytes, from: nat, ch: byte) returns (r: int)
    requires from <= |buf| && ch != NUL
    ensures r < 0 ==> forall k: nat :: !FirstAt(buf, from, ch, k)
    ensures r >= 0 ==> FirstAt(buf, from, ch, r)
  {
    var p := from;
    while At(buf, p) != ch && At(buf, p) != NUL
      invariant from <= p <= |buf|
      invariant forall i :: from <= i < p ==> buf[i] != ch && buf[i] != NUL
      decreases |buf| - p
    {
      p := p + 1;
    }
    if At(buf, p) == ch {
      return p;
    }
    return -1;
  }

  /** The parts of a length line followed by `tail`. */
  lemma LengthLine(s: bytes, n: nat, tail: bytes)
    requires s == TypedLine(DOLLAR, DecInt(n)) + tail
    ensures var cr := 1 + |DecInt(n)|;
            && FirstAt(s, 0, CR, cr) && s[0] == DOLLAR
            && StrToL(s[1..]) == n && s[cr + 2..] == tail
  {
    var digits := DecInt(n);
    var cr := 1 + |digits|;
    assert forall i :: 0 <= i < |digits| ==> s[1 + i] == digits[i] && IsDigit(digits[i]);
    assert forall i :: 1 <= i < cr ==> s[i] == digits[i - 1];
    assert s[1..] == digits + (CRLF + tail);
    LeadingDigitsOf(digits, CRLF + tail, 0);
    DigitsOfDec(n);
  }

  /** Where the parts of the argument at `start` are. */
  lemma ArgumentAt(buf: bytes, start: nat, arg: bytes, rest: bytes)
    requires start <= |buf| && buf[start..] == Encode(Bulk(arg)) + rest
    ensures var cr := start + 1 + |DecInt(|arg|)|;
            var str := cr + 2;
            var next := str + |arg| + 2;
            && next <= |buf| && buf[start] == DOLLAR
            && FirstAt(buf, start, CR, cr)
            && StrToL(buf[start + 1..]) == |arg|
            && buf[str..str + |arg|] == arg && buf[next..] == rest
            && buf[str..] == arg + CRLF + rest
  {
    hide StrToL, DecInt;
    var s, tail := buf[start..], arg + CRLF + rest;
    var cr := 1 + |DecInt(|arg|)|;
    assert s == TypedLine(DOLLAR, DecInt(|arg|)) + tail;
    LengthLine(s, |arg|, tail);
    assert forall i :: start <= i <= start + cr ==> buf[i] == s[i - start];
    assert buf[start + 1..] == s[1..];
    BodyAt(buf, start + cr + 2, arg, rest);
  }

  lemma BodyAt(buf: bytes, str: nat, arg: bytes, rest: bytes)
    requires str <= |buf| && buf[str..] == arg + CRLF + rest
    ensures var next := str + |arg| + 2;
            next <= |buf| && buf[str..str + |arg|] == arg && buf[next..] == rest
  {
    assert buf[str..][..|arg|] == arg;
    assert buf[str..][|arg| + 2..] == rest;
  }

  /** The header of a command holds no `$`, so the first one opens the first argument. */
  lemma HeaderSkipped(argv: seq<bytes>)
    ensures var header := |TypedLine(STAR, DecInt(|argv|))|;
            && Wire(argv)[header..] == EncodeAll(Bulks(argv))
            && forall i :: 0 <= i < header ==> Wire(argv)[i] != DOLLAR && Wire(argv)[i] != NUL
  {
    var header := TypedLine(STAR, DecInt(|argv|));
    assert forall i :: 0 <= i < |header| ==> Wire(argv)[i] == header[i];
    assert forall i :: 1 <= i < |header| - 2 ==> header[i] == DecInt(|argv|)[i - 1];
  }

  /** nextArgument: position and length of the next argument and the position behind it, or -1. The
      scan starts at the command or behind an argument of it; `argv` are the arguments to come. */
  method NextArgument(buf: bytes, start: nat, ghost argv: seq<bytes>) returns (next: int, str: nat, len: int)
    requires start <= |buf|
    requires buf[start..] == EncodeAll(Bulks(argv)) || (start == 0 && buf == Wire(argv))
    ensures argv == [] ==> next == -1
    ensures argv != [] ==>
              && 0 <= len && start < str && str + len + 2 == next <= |buf|
              && buf[str..str + len] == argv[0]
              && buf[str..] == argv[0] + CRLF + EncodeAll(Bulks(argv[1..]))
              && buf[next..] == EncodeAll(Bulks(argv[1..]))
  {
    hide Encode, EncodeAll, Wire, StrToL, DecInt, Bulks;
    str, len := 0, 0;
    ArgumentsFrom(buf, start, argv);
    var p: int := start;
    if At(buf, p) != DOLLAR {
      p := StrChr(buf, p, DOLLAR);
      if p < 0 {
        return -1, str, len;
      }
    }
    assert argv != [] && buf[p..] == EncodeAll(Bulks(argv));
    EncodeBulksHead(argv);
    next, str, len := ReadArgument(buf, p, argv[0], EncodeAll(Bulks(argv[1..])));
  }

  /** The argument whose length line starts at `start`. */
  method ReadArgument(buf: bytes, start: nat, ghost arg: bytes, ghost rest: bytes)
    returns (next: int, str: nat, len: int)
    requires start <= |buf| && buf[start..] == Encode(Bulk(arg)) + rest
    ensures 0 <= len && start < str && str + len + 2 == next <= |buf|
    ensures buf[str..str + len] == arg && buf[str..] == arg + CRLF + rest && buf[next..] == rest
  {
    hide Encode, StrToL, DecInt;
    ArgumentAt(buf, start, arg, rest);
    len := StrToL(buf[start + 1..]);
    ghost var cr := start + 1 + |DecInt(|arg|)|;
    var p := StrChr(buf, start, CR);
    assert p == cr;
    str := p + 2;
    next := p + 2 + len + 2;
  }

  /** Where the first `$` from `start` on is. */
  lemma ArgumentsFrom(buf: bytes, start: nat, argv: seq<bytes>)
    requires start <= |buf|
    requires buf[start..] == EncodeAll(Bulks(argv)) || (start == 0 && buf == Wire(argv))
    ensures argv == [] ==> At(buf, start) != DOLLAR && forall k: nat :: !FirstAt(buf, start, DOLLAR, k)
    ensures argv != [] ==> exists k: nat :: FirstAt(buf, start, DOLLAR, k)
    ensures forall k: nat :: FirstAt(buf, start, DOLLAR, k) ==> buf[k..] == EncodeAll(Bulks(argv))
  {
    HeaderSkipped(argv);
    var header := |TypedLine(STAR, DecInt(|argv|))|;
    if argv == [] {
      assert EncodeAll(Bulks(argv)) == [];
    } else {
      EncodeBulksHead(argv);
      assert EncodeAll(Bulks(argv))[0] == DOLLAR;
      if buf[start..] == EncodeAll(Bulks(argv)) {
        assert FirstAt(buf, start, DOLLAR, start);
      } else {
        assert buf[header] == buf[header..][0];
        assert FirstAt(buf, start, DOLLAR, header);
      }
    }
  }

  /** The loop that walks over the arguments of a formatted command finds exactly the arguments, in
      order, whatever bytes they contain. */
  method Scan(buf: bytes, ghost argv: seq<bytes>) returns (found: seq<bytes>)
    requires buf == Wire(argv)
    ensures found == argv
  {
    hide Encode, EncodeAll, Wire, Bulks;
    found := [];
    assert argv[0..] == argv;
    var p: int, str: nat, len: int := NextArgument(buf, 0, argv);
    while p >= 0
      invariant |found| <= |argv| && found == argv[..|found|]
      invariant p < 0 ==> found == argv
      invariant p >= 0 ==> |found| < |argv| && p <= |buf| && 0 <= len && str + len <= |buf|
      invariant p >= 0 ==> buf[str..str + len] == argv[|found|] && buf[p..] == EncodeAll(Bulks(argv[|found| + 1..]))
      decreases |argv| - |found|, p
    {
      found := found + [buf[str..str + len]];
      assert argv[|found|..] == [] ==> |found| == |argv|;
      assert argv[..|argv|] == argv;
      p, str, len := NextArgument(buf, p, argv[|found|..]);
      assert p >= 0 ==> argv[|found|..][1..] == argv[|found| + 1..];
    }
  }

  // ---------------------------------------------------------------- command names

  function Lower(c: byte): byte {
    if 65 <= c <= 90 then c + 32 else c
  }

  /** strncasecmp(s, w, |w|) == 0 for a word without NUL bytes. */
  predicate CaseEqual(s: bytes, w: bytes) {
    |w| <= |s| && forall i :: 0 <= i < |w| ==> Lower(s[i]) == Lower(w[i])
  }

  const LOWER_P: byte := 112
  /** "subscribe", "unsubscribe" and "monitor" */
  const SUBSCRIBE: bytes := [115, 117, 98, 115, 99, 114, 105, 98, 101]
  const UNSUBSCRIBE: bytes := [117, 110] + SUBSCRIBE
  const MONITOR: bytes := [109, 111, 110, 105, 116, 111, 114]

  /** A command name without the `p` that marks the pattern variant. The mark is dropped from every
      name that begins with it. */
  function Stem(name: bytes): bytes {
    if name != [] && Lower(name[0]) == LOWER_P then name[1..] else name
  }

  /** The names taken for the word `w`: the word itself in any case, and every name in which it is
      followed by CR LF. */
  predicate Names(name: bytes, w: bytes) {
    CaseEqual(Stem(name), w) && (|Stem(name)| == |w| || (|w| + 2 <= |Stem(name)| && Stem(name)[|w|..|w| + 2] == CRLF))
  }

  /** The commands that get a callback in the list of replies. */
  predicate IsRegular(argv: seq<bytes>) {
    && argv != []
    && !(|argv| > 1 && Names(argv[0], SUBSCRIBE))
    && !Names(argv[0], UNSUBSCRIBE)
    && !Names(argv[0], MONITOR)
  }

  predicate IsWord(w: bytes) {
    w != [] && forall i :: 0 <= i < |w| ==> 97 <= w[i] <= 122
  }

  // The same with all bytes as numbers.

  /** The word stands at `i`, in capital or small letters, and the name ends behind it, or CR LF follows. */
  predicate WordAt(name: bytes, i: nat, word: bytes) {
    var end := i + |word|;
    && end <= |name|
    && (forall k :: 0 <= k < |word| ==> name[i + k] == word[k] || name[i + k] as int == word[k] as int - 32)
    && (end == |name| || (end + 2 <= |name| && name[end] == 13 && name[end + 1] == 10))
  }

  /** The name of a command is this word; one `p` in front of it makes no difference. */
  predicate CalledAs(name: bytes, word: bytes) {
    WordAt(name, if name != [] && (name[0] == 112 || name[0] == 80) then 1 else 0, word)
  }

  lemma CaseEqualAt(name: bytes, i: nat, word: bytes)
    requires IsWord(word) && i <= |name|
    ensures CaseEqual(name[i..], word) <==>
              && i + |word| <= |name|
              && forall k :: 0 <= k < |word| ==> name[i + k] == word[k] || name[i + k] as int == word[k] as int - 32
  {
    assert forall k :: 0 <= k < |name| - i ==> name[i..][k] == name[i + k];
  }

  lemma CalledAsNames(name: bytes, word: bytes)
    requires IsWord(word)
    ensures Names(name, word) <==> CalledAs(name, word)
  {
    hide CaseEqual, IsWord;
    var i := if name != [] && (name[0] == 112 || name[0] == 80) then 1 else 0;
    var stem, end := name[i..], i + |word|;
    assert Stem(name) == stem;
    CaseEqualAt(name, i, word);
    if |word| + 2 <= |stem| {
      assert stem[|word|..|word| + 2] == [name[end], name[end + 1]];
    }
  }

  /** The commands that are not regular: subscribe with an argument, unsubscribe and monitor. */
  lemma RegularCommands(argv: seq<bytes>)
    requires argv != []
    ensures !IsRegular(argv) <==>
              || (|argv| > 1 && CalledAs(argv[0], [115, 117, 98, 115, 99, 114, 105, 98, 101]))
              || CalledAs(argv[0], [117, 110, 115, 117, 98, 115, 99, 114, 105, 98, 101])
              || CalledAs(argv[0], [109, 111, 110, 105, 116, 111, 114])
  {
    hide Names, CalledAs;
    assert UNSUBSCRIBE == [117, 110, 115, 117, 98, 115, 99, 114, 105, 98, 101];
    CalledAsNames(argv[0], SUBSCRIBE);
    CalledAsNames(argv[0], UNSUBSCRIBE);
    CalledAsNames(argv[0], MONITOR);
  }

  /** Comparing the bytes at the stem of the name with the word and CR LF tells the names of the word. */
  lemma NameComparison(name: bytes, w: bytes, t: bytes)
    requires IsWord(w)
    ensures CaseEqual(Stem(name) + CRLF + t, w + CRLF) <==> Names(name, w)
  {
    var stem := Stem(name);
    var s, full := stem + CRLF + t, w + CRLF;
    assert s[|stem|] == CR && s[|stem| + 1] == LF && full[|w|] == CR && full[|w| + 1] == LF;
    assert forall i :: 0 <= i < |stem| ==> s[i] == stem[i];
    assert forall i :: 0 <= i < |w| ==> full[i] == w[i];
    assert |stem| < |w| ==> Lower(s[|stem|]) != Lower(full[|stem|]);
    assert |stem| == |w| + 1 ==> Lower(s[|w| + 1]) != Lower(full[|w| + 1]);
    if CaseEqual(s, full) && |stem| > |w| + 1 {
      assert Lower(s[|w|]) == Lower(full[|w|]) && Lower(s[|w| + 1]) == Lower(full[|w| + 1]);
      assert stem[|w|..|w| + 2] == [stem[|w|], stem[|w| + 1]];
    }
    if Names(name, w) && |stem| > |w| {
      assert stem[|w|..|w| + 2][0] == CR && stem[|w|..|w| + 2][1] == LF;
    }
  }

  /** The tests by which a formatted command is told to be a regular one. */
  method TakenAsRegular(buf: bytes, ghost argv: seq<bytes>) returns (regular: bool)
    requires argv != [] && buf == Wire(argv)
    ensures regular == IsRegular(argv)
  {
    hide Encode, EncodeAll, Wire, CaseEqual, Names, Bulks, Stem;
    assert argv[0..] == argv;
    var p: int, cstr: nat, clen: int := NextArgument(buf, 0, argv);
    FirstArgument(buf, argv, cstr, clen, p);
    var hasnext := At(buf, p) == DOLLAR;
    var pvariant := if Lower(buf[cstr]) == LOWER_P then 1 else 0;
    var s := buf[cstr + pvariant..];
    NameTests(s, argv);
    if hasnext && CaseEqual(s, SUBSCRIBE + CRLF) {
      return false;
    } else if CaseEqual(s, UNSUBSCRIBE + CRLF) {
      return false;
    } else if CaseEqual(s, MONITOR + CRLF) {
      return false;
    }
    return true;
  }

  lemma NameTests(s: bytes, argv: seq<bytes>)
    requires argv != [] && s == Stem(argv[0]) + CRLF + EncodeAll(Bulks(argv[1..]))
    ensures CaseEqual(s, SUBSCRIBE + CRLF) <==> Names(argv[0], SUBSCRIBE)
    ensures CaseEqual(s, UNSUBSCRIBE + CRLF) <==> Names(argv[0], UNSUBSCRIBE)
    ensures CaseEqual(s, MONITOR + CRLF) <==> Names(argv[0], MONITOR)
  {
    hide CaseEqual, Names, Stem, EncodeAll, Encode, Bulks;
    var t := EncodeAll(Bulks(argv[1..]));
    NameComparison(argv[0], SUBSCRIBE, t);
    NameComparison(argv[0], UNSUBSCRIBE, t);
    NameComparison(argv[0], MONITOR, t);
  }

  /** What lies behind the first argument of a command. */
  lemma FirstArgument(buf: bytes, argv: seq<bytes>, str: nat, len: int, next: int)
    requires argv != [] && buf == Wire(argv)
    requires 0 <= len && str + len + 2 == next <= |buf|
    requires buf[str..] == argv[0] + CRLF + EncodeAll(Bulks(argv[1..]))
    requires buf[next..] == EncodeAll(Bulks(argv[1..]))
    ensures str < |buf| && (Lower(buf[str]) == LOWER_P <==> argv[0] != [] && Lower(argv[0][0]) == LOWER_P)
    ensures (At(buf, next) == DOLLAR) == (|argv| > 1)
    ensures var pvariant := if Lower(buf[str]) == LOWER_P then 1 else 0;
            buf[str + pvariant..] == Stem(argv[0]) + CRLF + EncodeAll(Bulks(argv[1..]))
  {
    var t := EncodeAll(Bulks(argv[1..]));
    assert buf[str] == buf[str..][0] == (if argv[0] == [] then CR else argv[0][0]);
    if argv[0] != [] {
      assert buf[str + 1..] == buf[str..][1..] == argv[0][1..] + CRLF + t;
    }
    if |argv| > 1 {
      EncodeBulksHead(argv[1..]);
      assert buf[next] == buf[next..][0] == DOLLAR;
    } else {
      assert t == [];
    }
  }
}
