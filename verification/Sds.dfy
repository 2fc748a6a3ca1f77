/**
 The dynamic strings of hiredis/sds.c: contents and spare capacity. An allocation is the contents
 plus the spare bytes (plus the terminator, which is not counted).
 */
module SdsStrings {
  import opened Bytes

  datatype Sds = NullSds | Sds(data: bytes, free: nat)

  function Empty(): Sds {
    Sds([], 0)
  }

  /** Room for `addlen` more bytes; growing doubles the needed size. */
  function MakeRoomFor(s: Sds, addlen: nat): (r: Sds)
    requires s.Sds?
    ensures r.Sds? && r.data == s.data && r.free >= addlen
    ensures if s.free >= addlen then r.free == s.free else |r.data| + r.free == 2 * (|s.data| + addlen)
  {
    if s.free >= addlen then s
    else
      var newlen := (|s.data| + addlen) * 2;
      Sds(s.data, newlen - |s.data|)
  }

  function CatLen(s: Sds, t: bytes): (r: Sds)
    requires s.Sds?
    ensures r.Sds? && r.data == s.data + t
    ensures r.free == if s.free >= |t| then s.free - |t| else |r.data|
  {
    var room := MakeRoomFor(s, |t|);
    Sds(room.data + t, room.free - |t|)
  }

  /** A position that may be counted from the end; it is not allowed to lie before the start. */
  function FromStart(len: nat, position: int): nat {
    if position >= 0 then position else if len + position < 0 then 0 else len + position
  }

  /** Keeps the bytes from `start` to `end`, both included; negative positions count from the end. */
  function Range(s: Sds, start: int, end: int): (r: Sds)
    requires s.Sds?
    ensures var n := |s.data|;
            var first, last := FromStart(n, start), FromStart(n, end);
            var behind := if last < n then last + 1 else n;
            r == if first < behind then Sds(s.data[first..behind], s.free + n - (behind - first))
                 else Sds([], s.free + n)
  {
    var len := |s.data|;
    if len == 0 then s
    else
      var from := if start < 0 then (if len + start < 0 then 0 else len + start) else start;
      var to := if end < 0 then (if len + end < 0 then 0 else len + end) else end;
      var newlen := if from > to then 0 else to - from + 1;
      var to' := if newlen != 0 && from < len && to >= len then len - 1 else to;
      var newlen' := if newlen == 0 || from >= len then 0 else if from > to' then 0 else to' - from + 1;
      var from' := if newlen == 0 then 0 else from;
      Sds(if newlen' == 0 then [] else s.data[from'..from' + newlen'], s.free + (len - newlen'))
  }

  /** The part `b` of a string is kept when its first and last positions are asked for, whichever end they are
      counted from. Positions beyond the string mean its ends, even a last position before its start. */
  lemma RangeKeeps(a: bytes, b: bytes, c: bytes, free: nat, start: int, end: int)
    requires b != []
    requires var n := |a + b + c|;
             && (start == |a| || start == |a| - n || (a == [] && start < -n))
             && (|| end == |a| + |b| - 1 || end == |a| + |b| - 1 - n
                 || (c == [] && end >= n) || (a == [] && |b| == 1 && end < -n))
    ensures Range(Sds(a + b + c, free), start, end) == Sds(b, free + |a| + |c|)
  {
    assert (a + b + c)[|a|..|a| + |b|] == b;
  }

  /** Nothing is kept when the first position lies behind the last one or behind the string. */
  lemma RangeEmpties(s: Sds, start: int, end: int)
    requires s.Sds?
    requires var n := |s.data|;
             || start >= n
             || (start > end && start > -n && (start < 0) == (end < 0))
             || (end < 0 < start && n + end < start)
             || (start < 0 <= end < n + start)
    ensures Range(s, start, end) == Sds([], s.free + |s.data|)
  {
  }

  /** Dropping bytes from the front. */
  lemma DropFront(s: Sds, k: nat)
    requires s.Sds? && k <= |s.data|
    ensures 0 < k < |s.data| ==> Range(s, k, -1) == Sds(s.data[k..], s.free + k)
    ensures k == 0 ==> s.data[k..] == s.data
    ensures k == |s.data| ==> s.data[k..] == []
  {
  }
}
