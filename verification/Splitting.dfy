/**
 The splitting of a string at a separator (`sdssplitlen`) of hiredis/sds.c.
 */
module Splitting {
  import opened Bytes

  predicate MatchAt(s: bytes, sep: bytes, i: int) {
    0 <= i && i + |sep| <= |s| && s[i..i + |sep|] == sep
  }

  ghost predicate NoMatch(s: bytes, sep: bytes, from: int, to: int) {
    forall i :: from <= i < to ==> !MatchAt(s, sep, i)
  }

  ghost predicate Contains(s: bytes, sep: bytes) {
    exists i :: MatchAt(s, sep, i)
  }

  /** The first position from `start` on at which the separator occurs, or -1. */
  function FirstMatch(s: bytes, sep: bytes, start: nat): (r: int)
    requires sep != [] && start <= |s|
    ensures r == -1 ==> NoMatch(s, sep, start, |s|)
    ensures r != -1 ==> start <= r && r + |sep| <= |s| && MatchAt(s, sep, r) && NoMatch(s, sep, start, r)
    decreases |s| - start
  {
    if start + |sep| > |s| then -1
    else if MatchAt(s, sep, start) then start
    else FirstMatch(s, sep, start + 1)
  }

  /** Cutting at the leftmost separator from `start` on, then splitting what lies behind it. */
  function Split(s: bytes, sep: bytes, start: nat): (tokens: seq<bytes>)
    requires sep != [] && start <= |s|
    ensures tokens != []
    decreases |s| - start
  {
    var f := FirstMatch(s, sep, start);
    if f < 0 then [s[start..]] else [s[start..f]] + Split(s, sep, f + |sep|)
  }

  function Join(tokens: seq<bytes>, sep: bytes): bytes
    requires tokens != []
  {
    if |tokens| == 1 then tokens[0] else tokens[0] + sep + Join(tokens[1..], sep)
  }

  lemma MatchInside(s: bytes, sep: bytes, from: nat, to: nat, i: int)
    requires from <= to <= |s| && MatchAt(s[from..to], sep, i)
    ensures MatchAt(s, sep, from + i) && i + |sep| <= to - from
  {
    var at := from + i;
    var here, there := s[from..to][i..i + |sep|], s[at..at + |sep|];
    forall k | 0 <= k < |sep| ensures here[k] == there[k] {
      assert here[k] == s[from..to][i + k] == s[from + (i + k)];
    }
  }

  /** A stretch without a match does not contain the separator. */
  lemma NoneInside(s: bytes, sep: bytes, from: nat, to: nat)
    requires from <= to <= |s| && NoMatch(s, sep, from, to) && sep != []
    ensures !Contains(s[from..to], sep)
  {
    hide MatchAt;
    forall i | MatchAt(s[from..to], sep, i) ensures false {
      MatchInside(s, sep, from, to, i);
      MatchIsInside(s[from..to], sep, i);
    }
  }

  lemma MatchIsInside(s: bytes, sep: bytes, i: int)
    requires MatchAt(s, sep, i)
    ensures 0 <= i && i + |sep| <= |s|
  {
  }

  /** Joining the tokens gives back the string, and no token contains the separator. */
  lemma {:induction false} SplitJoins(s: bytes, sep: bytes, start: nat)
    requires sep != [] && start <= |s|
    ensures Join(Split(s, sep, start), sep) == s[start..]
    ensures forall t :: t in Split(s, sep, start) ==> !Contains(t, sep)
    decreases |s| - start
  {
    hide FirstMatch, NoMatch, Contains;
    var f := FirstMatch(s, sep, start);
    if f < 0 {
      NoneInside(s, sep, start, |s|);
      assert s[start..|s|] == s[start..];
    } else {
      NoneInside(s, sep, start, f);
      SplitJoins(s, sep, f + |sep|);
      var tokens := Split(s, sep, start);
      assert tokens[0] == s[start..f] && tokens[1..] == Split(s, sep, f + |sep|);
      assert s[start..] == s[start..f] + s[f..f + |sep|] + s[f + |sep|..];
    }
  }

  /** The cuts are the leftmost ones: every token but the last ends at a separator, and there is none that
      starts earlier behind the last cut. */
  ghost predicate LeftmostCuts(s: bytes, sep: bytes, start: nat, tokens: seq<bytes>)
    requires sep != [] && start <= |s| && tokens != []
    decreases |tokens|
  {
    var end := start + |tokens[0]|;
    && end <= |s| && tokens[0] == s[start..end] && NoMatch(s, sep, start, end)
    && if |tokens| == 1 then end == |s|
       else MatchAt(s, sep, end) && end + |sep| <= |s| && LeftmostCuts(s, sep, end + |sep|, tokens[1..])
  }

  /** The first cut is at the first match. */
  lemma CutIsFirst(s: bytes, sep: bytes, start: nat, end: nat)
    requires sep != [] && start <= end <= |s|
    ensures var f := FirstMatch(s, sep, start);
            && (MatchAt(s, sep, end) && NoMatch(s, sep, start, end) <==> end == f)
            && (NoMatch(s, sep, start, |s|) <==> f < 0)
  {
    hide MatchAt;
    NoMatchAtEnd(s, sep);
    var f := FirstMatch(s, sep, start);
    if f >= 0 {
      MatchIsInside(s, sep, f);
    }
  }

  /** A list of tokens is the split of a string exactly when its cuts are the leftmost ones. */
  lemma {:induction false} SplitIsLeftmost(s: bytes, sep: bytes, start: nat, tokens: seq<bytes>)
    requires sep != [] && start <= |s| && tokens != []
    ensures tokens == Split(s, sep, start) <==> LeftmostCuts(s, sep, start, tokens)
    decreases |tokens|
  {
    hide FirstMatch, MatchAt, NoMatch;
    var f := FirstMatch(s, sep, start);
    var end := start + |tokens[0]|;
    if end <= |s| {
      CutIsFirst(s, sep, start, end);
    }
    if f < 0 {
      assert s[start..|s|] == s[start..];
    } else {
      assert Split(s, sep, start)[1..] == Split(s, sep, f + |sep|);
      if |tokens| > 1 {
        SplitIsLeftmost(s, sep, f + |sep|, tokens[1..]);
        assert tokens == [tokens[0]] + tokens[1..];
      }
    }
  }

  lemma NoMatchAtEnd(s: bytes, sep: bytes)
    requires sep != []
    ensures forall i :: i >= |s| ==> !MatchAt(s, sep, i)
  {
  }

  lemma FirstMatchIs(s: bytes, sep: bytes, start: nat, j: nat)
    requires sep != [] && start <= j && MatchAt(s, sep, j) && NoMatch(s, sep, start, j)
    ensures start <= |s| && FirstMatch(s, sep, start) == j
  {
  }

  /** The next cut behind `start` is at `j`. */
  lemma SplitAt(s: bytes, sep: bytes, start: nat, j: nat)
    requires sep != [] && start <= j && MatchAt(s, sep, j) && NoMatch(s, sep, start, j)
    ensures j + |sep| <= |s| && Split(s, sep, start) == [s[start..j]] + Split(s, sep, j + |sep|)
  {
    hide FirstMatch, NoMatch;
    FirstMatchIs(s, sep, start, j);
  }

  /** There is no cut behind `start`. */
  lemma SplitEnd(s: bytes, sep: bytes, start: nat, j: nat)
    requires sep != [] && start <= |s| < j + |sep| && NoMatch(s, sep, start, j)
    ensures Split(s, sep, start) == [s[start..]]
  {
    hide FirstMatch;
  }

  /** sdssplitlen: NULL for an empty separator, no tokens for an empty string. The array of tokens grows
      so that there is always room for the next token and for the last one. */
  method SplitLen(s: bytes, sep: bytes) returns (tokens: array?<bytes>, count: nat)
    ensures tokens == null <==> sep == []
    ensures tokens != null ==> fresh(tokens) && count <= tokens.Length
    ensures tokens != null ==> tokens[..count] == if s == [] then [] else Split(s, sep, 0)
  {
    hide Split;
    var elements, slots, start := 0, 5, 0;
    var vector := new bytes[slots](_ => []);
    if |sep| < 1 {
      return null, 0;
    }
    if |s| == 0 {
      return vector, 0;
    }
    var j := 0;
    assert vector[..0] == [] && [] + Split(s, sep, 0) == Split(s, sep, 0);
    while j < |s| - (|sep| - 1)
      invariant 0 <= start <= j && start <= |s|
      invariant fresh(vector) && vector.Length == slots >= 5 && elements + 1 <= slots
      invariant NoMatch(s, sep, start, j)
      invariant Split(s, sep, 0) == vector[..elements] + Split(s, sep, start)
      decreases |s| - j
    {
      if slots < elements + 2 {
        slots := slots * 2;
        vector := Enlarge(vector, slots);
      }
      if s[j..j + |sep|] == sep {
        SplitAt(s, sep, start, j);
        vector[elements] := s[start..j];
        assert vector[..elements + 1] == vector[..elements] + [s[start..j]];
        elements := elements + 1;
        start := j + |sep|;
        j := j + |sep| - 1;
      }
      j := j + 1;
    }
    SplitEnd(s, sep, start, j);
    vector[elements] := s[start..];
    assert vector[..elements + 1] == vector[..elements] + [s[start..]];
    elements := elements + 1;
    return vector, elements;
  }

  /** realloc */
  method Enlarge(before: array<bytes>, slots: nat) returns (vector: array<bytes>)
    requires before.Length <= slots
    ensures fresh(vector) && vector.Length == slots && vector[..before.Length] == before[..]
  {
    vector := new bytes[slots](i requires 0 <= i reads before =>
      if i < before.Length then before[i] else []);
  }
}
