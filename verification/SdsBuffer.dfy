/**
 The dynamic strings of hiredis/sds.c in place: one array with the contents, a terminator and spare room.
 Every operation is proved to do to the array what `SdsStrings` says of contents and spare bytes.
 */
module SdsBuffers {
  import opened Bytes
  import S = SdsStrings

  class SdsBuffer {
    var buf: array<byte>
    var len: nat
    var free: nat

    ghost predicate Valid()
      reads this, buf
    {
      buf.Length == len + free + 1 && buf[len] == NUL
    }

    ghost function View(): S.Sds
      requires Valid()
      reads this, buf
    {
      S.Sds(buf[..len], free)
    }

    /** sdsnewlen */
    constructor (init: bytes)
      ensures Valid() && fresh(buf) && View() == S.Sds(init, 0)
    {
      buf := new byte[|init| + 1](i => if 0 <= i < |init| then init[i] else NUL);
      len, free := |init|, 0;
    }

    /** sdsMakeRoomFor */
    method MakeRoomFor(addlen: nat)
      requires Valid()
      modifies this
      ensures Valid() && View() == S.MakeRoomFor(old(View()), addlen)
      ensures buf == old(buf) || fresh(buf)
    {
      if free >= addlen {
        return;
      }
      var newlen := (len + addlen) * 2;
      var before := buf;
      buf := new byte[newlen + 1](i requires 0 <= i reads before => if i < before.Length then before[i] else NUL);
      free := newlen - len;
    }

    /** sdscatlen */
    method CatLen(t: bytes)
      requires Valid()
      modifies this, buf
      ensures Valid() && View() == S.CatLen(old(View()), t)
      ensures buf == old(buf) || fresh(buf)
    {
      var curlen := len;
      MakeRoomFor(|t|);
      assert buf[..curlen] == old(buf[..len]);
      forall i | 0 <= i < |t| {
        buf[curlen + i] := t[i];
      }
      len, free := curlen + |t|, free - |t|;
      buf[len] := NUL;
      assert buf[..len] == buf[..curlen] + t;
    }

    /** sdsrange: the bytes that stay move to the front of the same array. */
    method Range(start: int, end: int)
      requires Valid()
      modifies this`len, this`free, buf
      ensures Valid() && View() == S.Range(old(View()), start, end)
    {
      hide S.Range;
      ghost var kept := S.Range(View(), start, end);
      if len == 0 {
        return;
      }
      var first, newlen := Stretch(len, start, end);
      Keep(first, newlen);
    }

    /** The first byte that stays, and how many stay. */
    static method Stretch(len: nat, start: int, end: int) returns (first: nat, newlen: int)
      requires len > 0
      ensures var behind := if S.FromStart(len, end) < len then S.FromStart(len, end) + 1 else len;
              if S.FromStart(len, start) < behind then
                first == S.FromStart(len, start) && first + newlen == behind
              else newlen == 0
      ensures newlen >= 0
    {
      var start, end := start, end;
      if start < 0 {
        start := if len + start < 0 then 0 else len + start;
      }
      if end < 0 {
        end := if len + end < 0 then 0 else len + end;
      }
      newlen := if start > end then 0 else end - start + 1;
      if newlen != 0 {
        if start >= len {
          newlen := 0;
        } else if end >= len {
          end := len - 1;
          newlen := if start > end then 0 else end - start + 1;
        }
      } else {
        start := 0;
      }
      first := start;
    }

    method Keep(start: nat, newlen: nat)
      requires Valid() && newlen <= len && (newlen > 0 ==> start + newlen <= len)
      modifies this`len, this`free, buf
      ensures Valid()
      ensures View() == S.Sds(if newlen == 0 then [] else old(buf[start..start + newlen]), old(free + (len - newlen)))
    {
      if start != 0 && newlen != 0 {
        MoveDown(start, newlen);
      }
      ghost var kept := buf[..newlen];
      buf[newlen] := NUL;
      free := free + (len - newlen);
      len := newlen;
      assert buf[..newlen] == kept;
    }

    /** memmove to the front; the two stretches may overlap. */
    method MoveDown(start: nat, n: nat)
      requires Valid() && start + n <= len
      modifies buf
      ensures buf[..n] == old(buf[start..start + n])
    {
      for i := 0 to n
        invariant buf[..i] == old(buf[start..start + i])
        invariant forall j :: i <= j < buf.Length ==> buf[j] == old(buf[j])
      {
        buf[i] := buf[start + i];
      }
    }
  }

  // ---------------------------------------------------------------- integers

  function Pow10(k: nat): (p: nat)
    ensures p > 0
  {
    if k == 0 then 1 else 10 * Pow10(k - 1)
  }

  const LLONG_LIMIT: int := 0x8000_0000_0000_0000

  lemma NineteenDigits()
    ensures LLONG_LIMIT <= Pow10(19)
  {
    assert Pow10(5) == 100000;
    assert Pow10(10) == 10000000000;
    assert Pow10(15) == 1000000000000000;
  }

  /** sdsfromlonglong: the decimal notation, written backwards into 32 bytes. The least value has no
      negation in its own type and is no argument. */
  method FromLongLong(value: int) returns (s: SdsBuffer)
    requires -LLONG_LIMIT < value < LLONG_LIMIT
    ensures fresh(s) && fresh(s.buf) && s.Valid() && s.View() == S.Sds(DecInt(value), 0)
  {
    hide Dec, Pow10;
    var buf := new byte[32](_ => 0);
    ghost var n: nat := if value < 0 then -value else value;
    var v: nat := if value < 0 then -value else value;
    var p := 31;
    NineteenDigits();
    ghost var left := 19;
    assert buf[32..] == [] && Dec(n) + [] == Dec(n);
    var more := true;
    while more
      invariant p == 12 + left && left >= (if more then 1 else 0) && (more || v == 0) && v < Pow10(left) && fresh(buf)
      invariant Dec(n) == if more then Dec(v) + buf[p + 1..] else buf[p + 1..]
      decreases v, more
    {
      OneDigit(v, left, buf[p + 1..]);
      buf[p] := (48 + v % 10) as byte;
      assert buf[p..] == [(48 + v % 10) as byte] + buf[p + 1..];
      p, v, left := p - 1, v / 10, left - 1;
      more := v != 0;
    }
    if value < 0 {
      ghost var digits := buf[p + 1..];
      buf[p] := MINUS;
      assert buf[p..] == [MINUS] + digits;
      p := p - 1;
    }
    s := new SdsBuffer(buf[p + 1..]);
  }

  lemma OneDigit(v: nat, left: nat, behind: bytes)
    requires v < Pow10(left)
    ensures left > 0 ==> v / 10 < Pow10(left - 1)
    ensures v >= 10 ==> left > 1
    ensures Dec(v) + behind == (if v < 10 then [] else Dec(v / 10)) + ([(48 + v % 10) as byte] + behind)
  {
    var c := [(48 + v % 10) as byte];
    if v >= 10 {
      assert Dec(v / 10) + (c + behind) == Dec(v / 10) + c + behind;
    }
  }
}
