/**
 The resumable push parser of hiredis/hiredis.c: a byte buffer with a cursor, an explicit task
 stack in place of recursion, and reply objects that are linked into their parent array as soon as
 they are created and filled in later.
 */
module ReplyReader {
  import opened Options
  import opened Bytes
  import opened SdsStrings
  import opened Resp
  import opened Continuation

  /** A reply object. `kind` is None for nil. Only the slots of `element` change after creation. */
  class RedisReply {
    const kind: Option<Kind>
    const integer: int
    const str: bytes
    const elements: int
    const element: array?<RedisReply?>

    ghost var value: Reply
    ghost var repr: set<object>

    /** The object is complete: no slot of it or of its descendants is empty. */
    ghost predicate Valid()
      reads this, repr
      decreases repr
    {
      && this in repr
      && match kind
         case None => value == Nil
         case Some(KStatus) => value == Status(str)
         case Some(KError) => value == Error(str)
         case Some(KBulk) => value == Bulk(str)
         case Some(KInteger) => value == Integer(integer)
         case Some(KArray) =>
           && value.Array? && value.elements == elements
           && if elements <= 0 then value.items == [] else
                && element != null && element in repr
                && element.Length == elements == |value.items|
                && forall j :: 0 <= j < elements ==>
                     && element[j] != null && element[j] in repr
                     && element[j].repr < repr
                     && element[j].Valid()
                     && element[j].value == value.items[j]
    }

    constructor String(kind: Kind, str: bytes)
      requires kind in {KStatus, KError, KBulk}
      ensures Valid() && repr == {this}
      ensures value == match kind case KStatus => Status(str) case KError => Error(str) case _ => Bulk(str)
    {
      this.kind, this.str := Some(kind), str;
      integer, elements, element := 0, 0, null;
      value := match kind case KStatus => Status(str) case KError => Error(str) case _ => Bulk(str);
      repr := {this};
    }

    constructor Number(integer: int)
      ensures Valid() && repr == {this} && value == Integer(integer)
    {
      kind, this.integer := Some(KInteger), integer;
      str, elements, element := [], 0, null;
      value, repr := Integer(integer), {this};
    }

    constructor Null()
      ensures Valid() && repr == {this} && value == Nil
    {
      kind := None;
      integer, str, elements, element := 0, [], 0, null;
      value, repr := Nil, {this};
    }

    /** An array object; it is complete only when it has no slots. */
    constructor Array(elements: int)
      ensures kind == Some(KArray) && this.elements == elements
      ensures elements <= 0 ==> Valid() && repr == {this} && value == Reply.Array(elements, [])
      ensures elements > 0 ==> element != null && fresh(element) && element.Length == elements
      ensures elements > 0 ==> forall j :: 0 <= j < elements ==> element[j] == null
    {
      kind, this.elements := Some(KArray), elements;
      integer, str := 0, [];
      if elements > 0 {
        element := new RedisReply?[elements](_ => null);
      } else {
        element := null;
      }
      value, repr := Reply.Array(elements, []), {this};
    }
  }

  /** One slot of the stack of tasks; `kind` is None until the type byte is read, and `parent` is the
      stack index of the enclosing array, -1 for the root. */
  datatype Task = Task(kind: Option<Kind>, elements: int, idx: int, obj: RedisReply?, parent: int)

  const REDIS_READER_MAX_BUF: nat := 1024 * 16

  class RedisReader {
    var err: Option<ProtocolError>
    var buf: Sds
    var pos: nat
    var len: nat
    var maxbuf: nat
    const rstack: array<Task>
    var ridx: int
    var reply: RedisReply?

    /** The open arrays, as values and as objects. */
    ghost var frames: seq<Frame>
    ghost var spine: seq<RedisReply>
    /** The objects of the completed items of the reply being built. */
    ghost var foot: set<object>
    ghost var repr: set<object>
    /** Every byte given to Feed so far, and every reply returned by GetReply so far. */
    ghost var fed: bytes
    ghost var emitted: seq<Reply>

    // ---------------------------------------------------------------- invariants

    ghost predicate Shape()
      reads `repr, `foot, `frames, `spine, `ridx
    {
      && this !in repr && rstack in repr && rstack.Length == MAX_LEVEL + 1
      && foot <= repr && rstack !in foot
      && -1 <= ridx <= MAX_LEVEL
      && |frames| == |spine| == (if ridx < 0 then 0 else ridx)
      && FramesOk(frames)
    }

    ghost predicate BufferOk()
      reads `err, `buf, `pos, `len
    {
      err.None? && buf.Sds? && len == |buf.data| && pos <= len
    }

    /** `o` is the completed object of the value `v`. */
    ghost predicate IsItem(o: RedisReply?, v: Reply)
      requires foot <= repr
      reads `repr, `foot, repr
    {
      o != null && o in foot && o.repr <= foot && o.Valid() && o.value == v
    }

    /** The open array at level `k`: the slots before the current one are complete, the current one
        holds the next open array or `slot`, the ones behind it are empty. */
    ghost predicate Level(k: nat, slot: RedisReply?)
      requires Shape() && k < |spine|
      reads `repr, `foot, `frames, `spine, `ridx, repr
    {
      var t, next, obj := rstack[k], rstack[k + 1], spine[k];
      && t.kind == Some(KArray) && t.obj == obj && next.parent == k
      && obj in repr && obj !in foot
      && obj.kind == Some(KArray) && obj.elements == t.elements == frames[k].elements
      && 0 <= next.idx == |frames[k].done| < t.elements
      && obj.element != null && obj.element in repr && obj.element !in foot
      && obj.element.Length == t.elements
      && obj.element[next.idx] == (if k + 1 < |spine| then spine[k + 1] else slot)
      && (forall j :: 0 <= j < next.idx ==> IsItem(obj.element[j], frames[k].done[j]))
      && (forall j :: next.idx < j < t.elements ==> obj.element[j] == null)
    }

    /** The stack of tasks, with `slot` in the current slot of the innermost open array. */
    ghost predicate Stack(slot: RedisReply?)
      requires Shape()
      reads `repr, `foot, `frames, `spine, `ridx, repr
    {
      && (ridx >= 0 ==> rstack[0].parent == -1)
      && (forall k :: 0 <= k < |spine| ==> Level(k, slot))
      && DistinctSpine()
    }

    ghost predicate DistinctSpine()
      reads `spine
    {
      forall k, l :: 0 <= k < l < |spine| ==>
        spine[k] != spine[l] && spine[k].element != spine[l].element
    }

    /** In the middle of a reply. */
    ghost predicate Active()
      reads this, repr
    {
      && Shape() && BufferOk() && ridx >= 0
      && Stack(null)
      && reply == (if ridx == 0 then null else spine[0])
    }

    /** A reply is complete and not yet taken. */
    ghost predicate Finished()
      reads this, repr
    {
      && Shape() && BufferOk() && ridx == -1
      && reply != null && reply in foot && reply.repr <= foot && reply.Valid()
    }

    ghost predicate Idle()
      reads this, repr
    {
      Shape() && BufferOk() && ridx == -1 && reply == null
    }

    ghost predicate Broken()
      reads this, repr
    {
      Shape() && err.Some? && ridx == -1 && reply == null
    }

    function Rest(): bytes
      requires buf.Sds? && pos <= |buf.data|
      reads `buf, `pos
    {
      buf.data[pos..]
    }

    ghost function Here(): Point
      requires Shape() && BufferOk()
      reads this, repr
    {
      Point(frames, if ridx < 0 then None else rstack[ridx].kind, Rest())
    }

    /** A step from `p` that went well: on to the next item, or to the end of the reply. */
    ghost predicate Went(p: Point)
      reads this, repr
    {
      && FramesOk(p.frames)
      && if ridx >= 0 then Active() && Continues(p, Here())
         else Finished() && Finishes(p, reply.value, Rest())
    }

    /** A step from `p` that needs more bytes. */
    ghost predicate Stuck(p: Point)
      reads this, repr
    {
      Active() && FramesOk(p.frames) && Continues(p, Here()) && Resume(Here()) == Incomplete
    }

    /** A step from `p` that broke the protocol. */
    ghost predicate Refused(p: Point)
      reads this, repr
    {
      Broken() && FramesOk(p.frames) && Fails(p, err.value)
    }

    // ---------------------------------------------------------------- lines of the buffer

    /** Offset of the first CR LF in the `len` bytes at `p`, or -1. The byte behind them is the
        terminator of the buffer. */
    static method SeekNewline(buf: bytes, p: nat, len: nat) returns (r: int)
      requires p + len == |buf|
      ensures r == FindCrLf(buf[p..])
    {
      var pos, last := 0, len - 1;
      ghost var s := buf[p..];
      while pos < last
        invariant 0 <= pos <= len
        invariant forall i :: CrLfAt(s, i) ==> pos <= i
      {
        while pos < last && buf[p + pos] != CR
          invariant 0 <= pos <= last
          invariant forall i :: CrLfAt(s, i) ==> pos <= i
        {
          pos := pos + 1;
        }
        if buf[p + pos] != CR {
          return -1;
        } else if At(buf, p + pos + 1) == LF {
          assert CrLfAt(s, pos);
          return pos;
        } else {
          pos := pos + 1;
        }
      }
      return -1;
    }

    /** The number at `p`, up to the first CR; -1 on junk. */
    static method ReadLongLong(buf: bytes, p: nat) returns (r: int)
      requires p <= |buf| && SplitLine(buf[p..]).Line?
      ensures r == LongLong(SplitLine(buf[p..]).text)
    {
      hide SplitLine, Digits;
      ghost var text := LineAt(buf, p);
      var v, mult, s := 0, 1, p;
      if buf[s] == MINUS {
        mult := -1;
        s := s + 1;
      } else if buf[s] == PLUS {
        s := s + 1;
      }
      ghost var start := s - p;
      var c := buf[s];
      s := s + 1;
      while c != CR
        invariant p + start < s <= p + |text| + 1 && c == buf[s - 1]
        invariant Digits(text[start..], 0) == Digits(text[s - 1 - p..], v)
        decreases p + |text| + 1 - s
      {
        DigitsStep(text, s - 1 - p, v);
        if IsDigit(c) {
          v := v * 10;
          v := v + (c - ZERO) as int;
        } else {
          return -1;
        }
        c := buf[s];
        s := s + 1;
      }
      DigitsStep(text, s - 1 - p, v);
      return mult * v;
    }

    /** Where the bytes of the line at `p` are. */
    static lemma LineAt(buf: bytes, p: nat) returns (text: bytes)
      requires p <= |buf| && SplitLine(buf[p..]).Line?
      ensures text == SplitLine(buf[p..]).text
      ensures p + |text| + 1 < |buf| && buf[p + |text|] == CR
      ensures forall i :: 0 <= i < |text| ==> text[i] == buf[p + i]
    {
      text := SplitLine(buf[p..]).text;
    }

    static lemma DigitsStep(text: bytes, i: nat, v: int)
      requires i <= |text|
      ensures i == |text| || text[i] == CR ==> Digits(text[i..], v) == Some(v)
      ensures i < |text| && text[i] != CR ==>
                Digits(text[i..], v) ==
                if IsDigit(text[i]) then Digits(text[i + 1..], 10 * v + (text[i] - ZERO) as int) else None
    {
      assert i < |text| ==> text[i..][1..] == text[i + 1..];
    }

    method ReadBytes(count: nat) returns (p: int)
      requires buf.Sds? && pos <= len == |buf.data|
      modifies this`pos
      ensures if count <= len - old(pos) then p == old(pos) && pos == old(pos) + count else p == -1 && pos == old(pos)
    {
      if len - pos >= count {
        p := pos;
        pos := pos + count;
      } else {
        p := -1;
      }
    }

    /** The start and length of the line at the cursor, which moves behind it. */
    method ReadLine() returns (p: int, linelen: nat)
      requires buf.Sds? && pos <= len == |buf.data|
      modifies this`pos
      ensures match SplitLine(old(Rest()))
              case NoLine => p == -1 && pos == old(pos)
              case Line(text, rest) =>
                && p == old(pos) <= p + linelen < pos <= len
                && buf.data[p..p + linelen] == text && Rest() == rest
    {
      p, linelen := pos, 0;
      var s := SeekNewline(buf.data, p, len - pos);
      if s >= 0 {
        linelen := s;
        pos := pos + linelen + 2;
        assert buf.data[p..][..s] == buf.data[p..p + s];
        assert buf.data[p..][s + 2..] == buf.data[p + s + 2..];
      } else {
        p := -1;
      }
    }

    // ---------------------------------------------------------------- building objects

    /** Stores a new object in the current slot of the innermost open array. */
    method Link(r: RedisReply)
      requires Active()
      modifies this, repr
      ensures Shape() && Stack(if ridx == 0 then null else r)
      ensures unchanged(this) && unchanged(rstack)
    {
      hide RedisReply.Valid, Complete;
      var parent := rstack[ridx].parent;
      assert ridx > 0 ==> Level(ridx - 1, null);
      if parent >= 0 {
        var obj := rstack[parent].obj;
        assert obj.kind == Some(KArray);
        obj.element[rstack[ridx].idx] := r;
        forall k | 0 <= k < |spine| ensures Level(k, r) {
          assert old(Level(k, null));
          assert k == parent || spine[k].element != obj.element;
        }
      }
    }

    /** A new complete object has been stored in the current slot of the innermost open array. */
    twostate predicate Placed(new r: RedisReply, v: Reply)
      requires old(Shape())
      reads this, repr
    {
      && Shape() && Stack(if ridx == 0 then null else r) && IsItem(r, v)
      && unchanged(this`err, this`buf, this`pos, this`len, this`reply, this`fed, this`emitted, this`maxbuf)
      && unchanged(this`ridx, this`frames, this`spine) && unchanged(rstack)
      && repr == old(repr) + {r}
    }

    method Place(r: RedisReply)
      requires Active() && r.Valid() && r.repr == {r} && r !in repr
      modifies this, repr
      ensures Shape() && Stack(if ridx == 0 then null else r) && IsItem(r, old(r.value))
      ensures unchanged(this`err, this`buf, this`pos, this`len, this`reply, this`fed, this`emitted, this`maxbuf)
      ensures unchanged(this`ridx, this`frames, this`spine) && unchanged(rstack)
      ensures repr == old(repr) + {r}
    {
      Link(r);
      label linked:
      foot, repr := foot + {r}, repr + {r};
      forall k | 0 <= k < |spine| ensures Level(k, r) {
        assert old@linked(Level(k, r));
      }
    }

    method CreateString(kind: Kind, str: bytes) returns (obj: RedisReply)
      requires Active() && kind in {KStatus, KError, KBulk}
      modifies this, repr
      ensures Placed(obj, match kind case KStatus => Status(str) case KError => Error(str) case _ => Bulk(str))
      ensures fresh(obj)
    {
      obj := new RedisReply.String(kind, str);
      Place(obj);
    }

    method CreateInteger(v: int) returns (obj: RedisReply)
      requires Active()
      modifies this, repr
      ensures Placed(obj, Integer(v))
      ensures fresh(obj)
    {
      obj := new RedisReply.Number(v);
      Place(obj);
    }

    method CreateNil() returns (obj: RedisReply)
      requires Active()
      modifies this, repr
      ensures Placed(obj, Nil)
      ensures fresh(obj)
    {
      obj := new RedisReply.Null();
      Place(obj);
    }

    /** The innermost open array, with its last slot filled, is an item like any other. */
    ghost method CloseArray(item: RedisReply)
      requires Shape() && ridx > 0
      requires Stack(item) && IsItem(item, item.value)
      requires |frames[ridx - 1].done| + 1 == frames[ridx - 1].elements
      modifies this`foot, spine[ridx - 1]
      ensures Shape() && spine[ridx - 1].element != null
      ensures foot == old(foot) + {spine[ridx - 1], spine[ridx - 1].element}
      ensures forall j :: 0 <= j < ridx - 1 ==> Level(j, item)
      ensures IsItem(spine[ridx - 1],
                     Array(frames[ridx - 1].elements, frames[ridx - 1].done + [old(item.value)]))
    {
      var k := ridx - 1;
      var closed := spine[k];
      assert Level(k, item);
      closed.value := Array(frames[k].elements, frames[k].done + [item.value]);
      closed.repr := foot + {closed, closed.element};
      foot := closed.repr;
      forall j | 0 <= j < k ensures Level(j, item) {
        assert old(Level(j, item));
      }
    }

    /** The last slot of the innermost open array has been filled: the array is complete. */
    method PopTask(ghost item: RedisReply)
      requires Shape() && BufferOk() && ridx > 0
      requires Stack(item) && IsItem(item, item.value)
      requires FramesOk(frames) && |frames[ridx - 1].done| + 1 == frames[ridx - 1].elements
      modifies this, repr
      ensures Shape() && repr == old(repr) && ridx == old(ridx) - 1
      ensures unchanged(this`err, this`buf, this`pos, this`len, this`reply, this`fed, this`emitted, this`maxbuf)
      ensures frames == old(frames)[..ridx] && spine == old(spine)[..ridx]
      ensures var closed := old(spine)[ridx];
              && Stack(if ridx == 0 then null else closed)
              && IsItem(closed, Array(old(frames)[ridx].elements, old(frames)[ridx].done + [old(item.value)]))
    {
      hide RedisReply.Valid, Complete;
      ghost var k := ridx - 1;
      assert Level(k, item);
      CloseArray(item);
      DropTop(item);
    }

    method DropTop(ghost item: RedisReply)
      requires Shape() && ridx > 0 && rstack[0].parent == -1
      requires DistinctSpine() && forall j :: 0 <= j < ridx - 1 ==> Level(j, item)
      modifies this`ridx, this`frames, this`spine
      ensures Shape() && ridx == old(ridx) - 1
      ensures frames == old(frames)[..ridx] && spine == old(spine)[..ridx]
      ensures Stack(if ridx == 0 then null else old(spine)[ridx])
    {
      hide RedisReply.Valid, Complete;
      ghost var k := ridx - 1;
      frames, spine := frames[..k], spine[..k];
      ridx := ridx - 1;
      forall j | 0 <= j < |spine| ensures Level(j, old(spine)[k]) {
        assert old(Level(j, item));
      }
    }

    /** Turns the top task to the next slot; the next item can be anything. */
    method NextSlot(ghost item: RedisReply)
      requires Shape() && BufferOk() && ridx > 0
      requires Stack(item) && IsItem(item, item.value)
      requires FramesOk(frames) && |frames[ridx - 1].done| + 1 < frames[ridx - 1].elements
      modifies this, repr
      ensures Shape() && repr == old(repr) && ridx == old(ridx) && Stack(null) && rstack[ridx].kind == None
      ensures frames == Filled(old(frames), old(item.value)) && spine == old(spine)
      ensures unchanged(this`err, this`buf, this`pos, this`len, this`reply, this`fed, this`emitted, this`maxbuf)
      ensures unchanged(this`ridx)
    {
      hide RedisReply.Valid, Complete;
      ghost var k := ridx - 1;
      assert Level(k, item);
      rstack[ridx] := rstack[ridx].(kind := None, elements := -1, idx := rstack[ridx].idx + 1);
      frames := Filled(frames, item.value);
      forall j | 0 <= j < |spine| ensures Level(j, null) {
        assert old(Level(j, item));
      }
    }

    /** The item of the top task is complete and stored: pops the arrays it completes, up to the
        next task to run or to the end of the reply. */
    method MoveToNextTask(ghost item: RedisReply, ghost p: Point) returns (ghost finished: RedisReply)
      requires Shape() && BufferOk() && ridx >= 0
      requires Stack(if ridx == 0 then null else item)
      requires IsItem(item, item.value)
      requires FramesOk(frames) && FramesOk(p.frames) && Reaches(p, frames, item.value, Rest())
      modifies this, repr
      ensures Shape() && BufferOk() && repr == old(repr)
      ensures buf == old(buf) && pos == old(pos) && len == old(len) && reply == old(reply)
      ensures fed == old(fed) && emitted == old(emitted) && maxbuf == old(maxbuf)
      ensures finished == if old(ridx) == 0 then item else old(spine[0])
      ensures ridx >= 0 ==> 0 < ridx <= old(ridx) && Stack(null) && spine[0] == finished
      ensures ridx >= 0 ==> FramesOk(frames) && Continues(p, Here())
      ensures ridx < 0 ==> IsItem(finished, finished.value) && Finishes(p, finished.value, Rest())
    {
      hide RedisReply.Valid, FindCrLf, ParseItem, ParseItems, Complete, Reaches, Finishes, Continues;
      finished := if ridx == 0 then item else spine[0];
      ghost var cur': RedisReply := item;
      while ridx >= 0
        invariant Shape() && BufferOk() && repr == old(repr) && 0 <= ridx <= old(ridx)
        invariant Stack(if ridx == 0 then null else cur')
        invariant IsItem(cur', cur'.value)
        invariant FramesOk(frames) && Reaches(p, frames, cur'.value, Rest())
        invariant finished == if ridx == 0 then cur' else spine[0]
        invariant unchanged(this`buf) && unchanged(this`pos) && unchanged(this`len) && unchanged(this`reply)
        invariant unchanged(this`fed) && unchanged(this`emitted) && unchanged(this`maxbuf)
        decreases ridx
      {
        if ridx == 0 {
          RootFinishes(p, cur'.value, Rest());
          ridx := ridx - 1;
          return;
        }
        var cur, prv := rstack[ridx], rstack[ridx - 1];
        assert Level(ridx - 1, cur');
        assert prv.kind == Some(KArray);
        if cur.idx == prv.elements - 1 {
          FullReaches(p, frames, cur'.value, Rest());
          PopTask(cur');
          cur' := prv.obj;
        } else {
          assert cur.idx < prv.elements;
          NextContinues(p, frames, cur'.value, Rest());
          NextSlot(cur');
          return;
        }
      }
    }

    /** The end of every item: the root object becomes the reply, and the stack moves on. */
    method FinishItem(obj: RedisReply, ghost p: Point)
      requires Shape() && BufferOk() && ridx >= 0
      requires Stack(if ridx == 0 then null else obj) && reply == (if ridx == 0 then null else spine[0])
      requires IsItem(obj, obj.value)
      requires p.frames == frames && p.kind.Some? && ParseAt(p) == Done(obj.value, Rest())
      modifies this, repr
      ensures Went(p)
      ensures unchanged(this`buf, this`pos, this`len, this`fed, this`emitted, this`maxbuf, this`repr)
    {
      hide RedisReply.Valid, FindCrLf, ParseItem, ParseItems, Complete;
      ItemReaches(frames, p.kind.value, p.rest, obj.value, Rest());
      if ridx == 0 {
        reply := obj;
      }
      ghost var finished := MoveToNextTask(obj, p);
    }

    method SetError(e: ProtocolError)
      requires Shape()
      modifies this, repr
      ensures Broken() && err == Some(e) && repr == {rstack}
      ensures unchanged(this`fed, this`emitted, this`maxbuf)
    {
      reply := null;
      buf, pos, len := NullSds, 0, 0;
      ridx := -1;
      err := Some(e);
      frames, spine, foot, repr := [], [], {}, {rstack};
    }

    // ---------------------------------------------------------------- processing items

    method ProcessLineItem() returns (ok: bool)
      requires Active() && rstack[ridx].kind in {Some(KStatus), Some(KError), Some(KInteger)}
      modifies this, repr
      ensures ok ==> Went(old(Here())) && |Rest()| < |old(Rest())|
      ensures !ok ==> Stuck(old(Here()))
      ensures unchanged(this`fed, this`emitted, this`maxbuf) && fresh(repr - old(repr))
    {
      hide RedisReply.Valid, FindCrLf, ParseItem, ParseItems, Complete;
      ghost var here := Here();
      var kind := rstack[ridx].kind.value;
      var p, linelen := ReadLine();
      if p >= 0 {
        var obj: RedisReply;
        if kind == KInteger {
          var v := ReadLongLong(buf.data, p);
          obj := CreateInteger(v);
        } else {
          obj := CreateString(kind, buf.data[p..p + linelen]);
        }
        FinishItem(obj, here);
        return true;
      }
      return false;
    }

    static function BodyValue(n: int, body: bytes): Reply {
      if n < 0 then Nil else Bulk(body)
    }

    /** Reads the header line of a bulk item that ends at `s`: the announced length, the body, the
        bytes the whole item takes, and whether the buffer holds them. */
    method MeasureBulk(s: nat, ghost level: nat) returns (n: int, body: bytes, bytelen: nat, success: bool)
      requires BufferOk() && FindCrLf(Rest()) == s && level <= MAX_LEVEL
      ensures !success ==> ParseTyped(KBulk, Rest(), level) == Incomplete
      ensures success ==> 0 < bytelen && pos + bytelen <= len
      ensures success ==>
                ParseTyped(KBulk, Rest(), level) == Done(BodyValue(n, body), buf.data[pos + bytelen..])
    {
      hide FindCrLf, Digits, ParseItem, ParseItems;
      n := ReadLongLong(buf.data, pos);
      ghost var rest := Rest()[s + 2..];
      body, bytelen, success := [], s + 2, true;
      assert rest == buf.data[pos + bytelen..];
      if n >= 0 {
        bytelen := bytelen + n + 2;
        success := pos + bytelen <= len;
        if success {
          body := buf.data[pos + s + 2..pos + s + 2 + n];
          assert rest[..n] == body;
          assert rest[n + 2..] == buf.data[pos + bytelen..];
        }
      }
    }

    static lemma NoLineNoBulk(s: bytes, level: nat)
      requires FindCrLf(s) < 0 && level <= MAX_LEVEL
      ensures ParseTyped(KBulk, s, level) == Incomplete
    {
    }

    method CreateBody(n: int, body: bytes) returns (obj: RedisReply)
      requires Active()
      modifies this, repr
      ensures fresh(obj) && Placed(obj, BodyValue(n, body))
    {
      hide RedisReply.Valid;
      if n < 0 {
        obj := CreateNil();
      } else {
        obj := CreateString(KBulk, body);
      }
    }

    method ProcessBulkItem() returns (ok: bool)
      requires Active() && rstack[ridx].kind == Some(KBulk)
      modifies this, repr
      ensures ok ==> Went(old(Here())) && |Rest()| < |old(Rest())|
      ensures !ok ==> Stuck(old(Here()))
      ensures unchanged(this`fed, this`emitted, this`maxbuf) && fresh(repr - old(repr))
    {
      hide RedisReply.Valid, FindCrLf, ParseItem, ParseItems, ParseTyped, Complete, LongLong, ParseBody;
      ghost var here := Here();
      var s := SeekNewline(buf.data, pos, len - pos);
      if s < 0 {
        NoLineNoBulk(Rest(), |frames|);
        return false;
      }
      var n, body, bytelen, success := MeasureBulk(s, |frames|);
      if !success {
        return false;
      }
      var obj := CreateBody(n, body);
      pos := pos + bytelen;
      FinishItem(obj, here);
      return true;
    }

    /** Creates an array object with slots and makes its first slot the next task. */
    method OpenArray(elements: int)
      requires Active() && elements > 0 && ridx < MAX_LEVEL && rstack[ridx].kind == Some(KArray)
      modifies this, repr
      ensures Active() && ridx == old(ridx) + 1 && rstack[ridx].kind == None
      ensures frames == old(frames) + [Frame(elements, [])]
      ensures unchanged(this`buf, this`pos, this`len, this`fed, this`emitted, this`maxbuf) && fresh(repr - old(repr))
    {
      hide RedisReply.Valid, FindCrLf, ParseItem, ParseItems, Complete;
      var obj := new RedisReply.Array(elements);
      var root := ridx == 0;
      Link(obj);
      SetObject(obj);
      PushTask(obj);
      if root {
        reply := obj;
      }
    }

    method SetObject(obj: RedisReply)
      requires Shape() && 0 <= ridx && Stack(if ridx == 0 then null else obj)
      modifies rstack
      ensures Stack(if ridx == 0 then null else obj)
      ensures rstack[ridx] == old(rstack[ridx]).(elements := obj.elements, obj := obj)
    {
      hide RedisReply.Valid, Complete;
      rstack[ridx] := rstack[ridx].(elements := obj.elements, obj := obj);
      forall k | 0 <= k < |spine| ensures Level(k, obj) {
        assert old(Level(k, obj));
      }
    }

    method PushTask(obj: RedisReply)
      requires Shape() && 0 <= ridx < MAX_LEVEL && rstack[ridx].kind == Some(KArray)
      requires rstack[ridx].obj == obj && rstack[ridx].elements == obj.elements
      requires Stack(if ridx == 0 then null else obj)
      requires obj.kind == Some(KArray) && obj.elements > 0 && obj !in repr
      requires obj.element != null && obj.element !in repr && obj.element.Length == obj.elements
      requires forall j :: 0 <= j < obj.elements ==> obj.element[j] == null
      modifies this`ridx, this`frames, this`spine, this`repr, rstack
      ensures Shape() && Stack(null) && ridx == old(ridx) + 1 && rstack[ridx].kind == None
      ensures frames == old(frames) + [Frame(obj.elements, [])] && spine == old(spine) + [obj]
      ensures repr == old(repr) + {obj, obj.element}
    {
      hide RedisReply.Valid, Complete;
      ghost var outer := spine;
      forall k | 0 <= k < |outer| ensures outer[k] in repr && outer[k].element in repr {
        assert Level(k, obj);
      }
      ridx := ridx + 1;
      rstack[ridx] := Task(None, -1, 0, null, ridx - 1);
      frames, spine, repr := frames + [Frame(obj.elements, [])], spine + [obj], repr + {obj, obj.element};
      forall k | 0 <= k < |spine| ensures Level(k, null) {
        assert k < |spine| - 1 ==> old(Level(k, obj));
      }
      assert forall k :: 0 <= k < |spine| - 1 ==> spine[k] == outer[k];
    }

    method ProcessMultiBulkItem() returns (ok: bool)
      requires Active() && rstack[ridx].kind == Some(KArray)
      modifies this, repr
      ensures ok ==> Went(old(Here())) && |Rest()| < |old(Rest())|
      ensures !ok ==> Stuck(old(Here())) || Refused(old(Here()))
      ensures unchanged(this`fed, this`emitted, this`maxbuf) && fresh(repr - old(repr))
    {
      hide RedisReply.Valid, FindCrLf, ParseItem, ParseItems, Complete;
      ghost var here := Here();
      if ridx == MAX_LEVEL {
        DeepArrayFails(frames, Rest());
        SetError(TooDeep);
        return false;
      }
      var p, _ := ReadLine();
      if p >= 0 {
        var elements := ReadLongLong(buf.data, p);
        if elements > 0 {
          HeaderContinues(here.frames, here.rest, elements, Rest());
          OpenArray(elements);
        } else {
          var obj := CreateNilOrEmpty(elements);
          FinishItem(obj, here);
        }
        return true;
      }
      return false;
    }

    /** The object of an array header that announces no items. */
    method CreateNilOrEmpty(elements: int) returns (obj: RedisReply)
      requires Active() && elements <= 0
      modifies this, repr
      ensures Placed(obj, if elements == -1 then Nil else Array(elements, []))
      ensures fresh(obj)
    {
      if elements == -1 {
        obj := CreateNil();
      } else {
        obj := new RedisReply.Array(elements);
        Place(obj);
      }
    }

    method SetKind(kind: Kind)
      requires Active()
      modifies rstack
      ensures Active() && Here() == Point(frames, Some(kind), Rest())
    {
      hide RedisReply.Valid, Complete;
      rstack[ridx] := rstack[ridx].(kind := Some(kind));
      forall k | 0 <= k < |spine| ensures Level(k, null) {
        assert old(Level(k, null));
      }
    }

    /** Reads the type byte of the top task; false when there is none yet or it is not a type. */
    method ReadType() returns (ok: bool)
      requires Active() && rstack[ridx].kind.None?
      modifies this, repr
      ensures ok ==> Active() && rstack[ridx].kind.Some? && Continues(old(Here()), Here())
      ensures ok ==> |Rest()| < |old(Rest())|
      ensures !ok ==> Stuck(old(Here())) || Refused(old(Here()))
      ensures unchanged(this`fed, this`emitted, this`maxbuf) && fresh(repr - old(repr))
    {
      hide RedisReply.Valid, FindCrLf, ParseItem, ParseItems, Complete;
      TypeByteContinues'(frames, Rest());
      var p := ReadBytes(1);
      if p < 0 {
        return false;
      }
      match KindOf(buf.data[p])
      case None =>
        SetError(BadTypeByte(buf.data[p]));
        return false;
      case Some(kind) =>
        SetKind(kind);
        return true;
    }

    lemma TypeByteContinues'(frames: seq<Frame>, s: bytes)
      requires FramesOk(frames)
      ensures s != [] && KindOf(s[0]).Some? ==> Continues(Point(frames, None, s), Point(frames, KindOf(s[0]), s[1..]))
      ensures s != [] && KindOf(s[0]).None? ==> Fails(Point(frames, None, s), BadTypeByte(s[0]))
      ensures s == [] ==> Resume(Point(frames, None, s)) == Incomplete
    {
      if s != [] {
        TypeByteContinues(frames, s);
      }
    }

    method ProcessItem() returns (ok: bool)
      requires Active()
      modifies this, repr
      ensures ok ==> Went(old(Here())) && |Rest()| < |old(Rest())|
      ensures !ok ==> Stuck(old(Here())) || Refused(old(Here()))
      ensures unchanged(this`fed, this`emitted, this`maxbuf) && fresh(repr - old(repr))
    {
      hide RedisReply.Valid, FindCrLf, ParseItem, ParseItems, Complete;
      if rstack[ridx].kind.None? {
        ok := ReadType();
        if !ok {
          return false;
        }
      }
      match rstack[ridx].kind.value
      case KArray => ok := ProcessMultiBulkItem();
      case KBulk => ok := ProcessBulkItem();
      case _ => ok := ProcessLineItem();
    }

    // ---------------------------------------------------------------- the public interface

    /** Between calls: what was fed decodes to what was returned, followed by what the state of the
        parser still says, whatever bytes come next. After an error the decoding is known. */
    ghost predicate Valid()
      reads this, repr
    {
      if err.Some? then
        Broken() && Decode(fed) == Decoded(emitted, Failed(err.value))
      else
        && (Idle() || Active())
        && (ridx == MAX_LEVEL ==> rstack[ridx].kind != Some(KArray))
        && Follows(fed, emitted, Here())
    }

    constructor ()
      ensures Valid() && fresh(repr) && fed == [] && emitted == [] && err.None?
    {
      err, buf, pos, len, maxbuf := None, Empty(), 0, 0, REDIS_READER_MAX_BUF;
      ridx, reply := -1, null;
      rstack := new Task[MAX_LEVEL + 1](_ => Task(None, 0, 0, null, -1));
      frames, spine, foot, fed, emitted := [], [], {}, [], [];
      new;
      repr := {rstack};
      FollowsStart();
    }

    lemma FollowsStart()
      ensures Follows([], [], Start([]))
    {
      forall t ensures Decode([] + t) == After([], DecodeFrom(More(Start([]), t))) {
        assert [] + t == t;
        DecodeFromStart(t);
        assert [] + Decode(t).replies == Decode(t).replies;
      }
    }

    /** Appends bytes to the buffer; a large and empty one is replaced first. */
    method Append(chunk: bytes)
      requires BufferOk()
      modifies `buf, `pos, `len
      ensures BufferOk() && Rest() == old(Rest()) + chunk
    {
      if |chunk| >= 1 {
        if len == 0 && maxbuf != 0 && buf.free > maxbuf {
          buf := Empty();
          pos := 0;
        }
        buf := CatLen(buf, chunk);
        len := |buf.data|;
      }
    }

    /** Takes in bytes, except after an error. */
    method Feed(chunk: bytes) returns (ok: bool)
      requires Valid()
      modifies this
      ensures Valid() && repr == old(repr)
      ensures fed == old(fed) + chunk && emitted == old(emitted)
      ensures err == old(err) && ok == err.None?
    {
      hide RedisReply.Valid, Complete, Decode, DecodeFrom;
      if err.Some? {
        DecodeExtend(fed, chunk);
        fed := fed + chunk;
        return false;
      }
      FollowsMore(fed, emitted, Here(), chunk);
      Append(chunk);
      fed := fed + chunk;
      assert Here() == More(old(Here()), chunk);
      return true;
    }

    /** Makes the root task the top of the stack when the stack is empty. */
    method StartReply()
      requires Valid() && err.None?
      modifies this, rstack
      ensures Active() && Follows(fed, emitted, Here()) && repr == old(repr)
      ensures unchanged(this`fed, this`emitted, this`maxbuf)
    {
      hide RedisReply.Valid, Complete, Decode, DecodeFrom;
      if ridx == -1 {
        rstack[0] := Task(None, -1, -1, null, -1);
        ridx := 0;
      }
    }

    /** Runs tasks until the reply is complete, bytes are missing, or the protocol is broken. */
    method ProcessItems()
      requires Active() && Follows(fed, emitted, Here())
      modifies this, repr
      ensures unchanged(this`fed, this`emitted, this`maxbuf) && fresh(repr - old(repr))
      ensures err.Some? || ridx >= 0 ==> Valid()
      ensures err.None? ==> BufferOk()
      ensures err.None? && ridx >= 0 ==> Decode(fed) == Decoded(emitted, Waiting)
      ensures err.None? && ridx < 0 ==>
                Finished() && Follows(fed, emitted + [reply.value], Start(Rest()))
    {
      hide RedisReply.Valid, Complete, Decode, DecodeFrom;
      while ridx >= 0
        invariant unchanged(this`fed, this`emitted, this`maxbuf) && fresh(repr - old(repr))
        invariant ridx >= 0 ==> Active() && Follows(fed, emitted, Here())
        invariant ridx < 0 ==> Finished() && Follows(fed, emitted + [reply.value], Start(Rest()))
        decreases if buf.Sds? && pos <= |buf.data| then |Rest()| else 0
      {
        ghost var here := Here();
        var ok := ProcessItem();
        if !ok {
          if err.Some? {
            FollowsFails(fed, emitted, here, err.value, []);
            assert fed + [] == fed;
          } else {
            FollowsContinues(fed, emitted, here, Here());
            FollowsIncomplete(fed, emitted, Here());
          }
          return;
        }
        if ridx < 0 {
          FollowsFinishes(fed, emitted, here, reply.value, Rest());
        } else {
          FollowsContinues(fed, emitted, here, Here());
        }
      }
    }

    /** Drops the consumed part of the buffer once it is at least 1024 bytes long. */
    method Discard()
      requires BufferOk()
      modifies `buf, `pos, `len
      ensures BufferOk() && Rest() == old(Rest())
      ensures old(Valid()) ==> Valid()
    {
      hide RedisReply.Valid, Complete, Decode, DecodeFrom;
      if pos >= 1024 {
        buf := Range(buf, pos, -1);
        pos := 0;
        len := |buf.data|;
      }
    }

    /** Hands out the finished reply. */
    method Emit() returns (r: RedisReply)
      requires Finished() && Follows(fed, emitted + [reply.value], Start(Rest()))
      modifies this
      ensures Idle() && Valid() && unchanged(this`fed, this`err) && fresh(repr - old(repr))
      ensures r.Valid() && r.repr !! repr && this !in r.repr && r.repr <= old(repr)
      ensures emitted == old(emitted) + [r.value]
    {
      hide RedisReply.Valid, Complete, Decode, DecodeFrom;
      r := reply;
      reply := null;
      emitted, foot, repr := emitted + [r.value], {}, {rstack};
    }

    /** The next reply, if a whole one has been fed. Without one the decoding of everything fed is
        exactly the replies returned so far, with the error if there is one. */
    method GetReply() returns (ok: bool, r: RedisReply?)
      requires Valid()
      modifies this, repr
      ensures Valid() && fresh(repr - old(repr)) && fed == old(fed)
      ensures ok == err.None? && (r != null ==> ok)
      ensures r == null ==> emitted == old(emitted)
      ensures r == null && ok ==> Decode(fed) == Decoded(emitted, Waiting)
      ensures r != null ==> r.Valid() && r.repr !! repr && this !in r.repr && emitted == old(emitted) + [r.value]
      ensures r != null ==> fresh(r.repr - old(repr))
    {
      hide RedisReply.Valid, Complete, Decode, DecodeFrom;
      r := null;
      if err.Some? {
        return false, null;
      }
      if len == 0 {
        FollowsIncomplete(fed, emitted, Here());
        return true, null;
      }
      StartReply();
      ProcessItems();
      if err.Some? {
        return false, null;
      }
      Discard();
      if ridx == -1 {
        r := Emit();
      }
      return true, r;
    }

    lemma EmittedIsDecoded()
      requires Valid()
      ensures emitted <= Decode(fed).replies
      ensures err.Some? ==> Decode(fed) == Decoded(emitted, Failed(err.value))
    {
      if err.None? {
        assert fed + [] == fed;
        assert Decode(fed + []) == After(emitted, DecodeFrom(More(Here(), [])));
      }
    }

    /** Nothing more can be returned before more is fed. */
    ghost predicate Drained()
      reads this, repr
    {
      Valid() && (err.None? ==> Decode(fed) == Decoded(emitted, Waiting))
    }
  }

  /** Two readers that were fed the same bytes, however cut into chunks and however often asked, have
      returned the same replies and are in the same error state once they are drained. */
  lemma DrainedReadersAgree(r1: RedisReader, r2: RedisReader)
    requires r1.Drained() && r2.Drained() && r1.fed == r2.fed
    ensures r1.emitted == r2.emitted && r1.err == r2.err
  {
  }

  /** The value of a complete reply object, read off its fields. */
  method ToReply(r: RedisReply) returns (v: Reply)
    requires r.Valid()
    ensures v == r.value
    decreases r.repr
  {
    match r.kind
    case None => v := Nil;
    case Some(KStatus) => v := Status(r.str);
    case Some(KError) => v := Error(r.str);
    case Some(KBulk) => v := Bulk(r.str);
    case Some(KInteger) => v := Integer(r.integer);
    case Some(KArray) =>
      var items := [];
      for j := 0 to if r.elements > 0 then r.elements else 0
        invariant items == r.value.items[..j]
      {
        var item := ToReply(r.element[j]);
        items := items + [item];
      }
      v := Array(r.elements, items);
  }

  /** Asks for a reply `count` times. */
  method Poll(reader: RedisReader, count: nat) returns (replies: seq<Reply>)
    requires reader.Valid()
    modifies reader, reader.repr
    ensures reader.Valid() && fresh(reader.repr - old(reader.repr)) && reader.fed == old(reader.fed)
    ensures reader.emitted == old(reader.emitted) + replies
  {
    hide Decode, DecodeFrom;
    replies := [];
    for k := 0 to count
      invariant reader.Valid() && fresh(reader.repr - old(reader.repr)) && reader.fed == old(reader.fed)
      invariant reader.emitted == old(reader.emitted) + replies
    {
      var _, r := reader.GetReply();
      if r != null {
        var v := ToReply(r);
        replies := replies + [v];
      }
    }
  }

  /** Asks for replies until there are no more. */
  method Drain(reader: RedisReader) returns (replies: seq<Reply>)
    requires reader.Valid()
    modifies reader, reader.repr
    ensures reader.Drained() && fresh(reader.repr - old(reader.repr)) && reader.fed == old(reader.fed)
    ensures reader.emitted == old(reader.emitted) + replies
  {
    hide Decode, DecodeFrom;
    replies := [];
    reader.EmittedIsDecoded();
    while true
      invariant reader.Valid() && fresh(reader.repr - old(reader.repr)) && reader.fed == old(reader.fed)
      invariant reader.emitted == old(reader.emitted) + replies
      invariant |reader.emitted| <= |Decode(reader.fed).replies|
      decreases |Decode(reader.fed).replies| - |reader.emitted|
    {
      var _, r := reader.GetReply();
      if r == null {
        return;
      }
      reader.EmittedIsDecoded();
      var v := ToReply(r);
      replies := replies + [v];
    }
  }

  /** A client of the reader: feeds the chunks, asks for a reply `polls[i]` times after chunk `i`, and
      drains the reader at the end. */
  method DecodeChunks(chunks: seq<bytes>, polls: seq<nat>) returns (replies: seq<Reply>, err: Option<ProtocolError>)
    requires |polls| == |chunks|
    ensures Decode(Concat(chunks))
         == Decoded(replies, match err case None => Waiting case Some(e) => Failed(e))
  {
    hide Decode, DecodeFrom;
    var reader := new RedisReader();
    replies := [];
    for i := 0 to |chunks|
      invariant fresh(reader) && fresh(reader.repr) && reader.Valid()
      invariant reader.fed == Concat(chunks[..i]) && replies == reader.emitted
    {
      var _ := reader.Feed(chunks[i]);
      assert chunks[..i + 1] == chunks[..i] + [chunks[i]];
      ConcatSnoc(chunks[..i], chunks[i]);
      var more := Poll(reader, polls[i]);
      replies := replies + more;
    }
    assert chunks[..|chunks|] == chunks;
    var more := Drain(reader);
    return replies + more, reader.err;
  }

  /** Printed replies, fed in any chunks with any number of polls in between, are read back. */
  method ReadBack(vs: seq<Reply>, chunks: seq<bytes>, polls: seq<nat>)
    returns (replies: seq<Reply>, err: Option<ProtocolError>)
    requires |polls| == |chunks| && Concat(chunks) == EncodeAll(vs)
    requires forall i :: 0 <= i < |vs| ==> Encodable(vs[i], 0)
    ensures replies == vs && err.None?
  {
    hide Encode, EncodeAll, Encodable;
    DecodeUndoesEncodeAll(vs, []);
    DecodeNothing();
    assert EncodeAll(vs) + [] == EncodeAll(vs);
    replies, err := DecodeChunks(chunks, polls);
  }

  lemma DecodeNothing()
    ensures Decode([]) == Decoded([], Waiting)
  {
  }
}
