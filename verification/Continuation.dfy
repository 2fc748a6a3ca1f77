/**
 What remains to be computed when the recursive descent of `Resp` is stopped in the middle: one
 frame for every array that is still open, outermost first. The stack of tasks of the reader is such a
 list of frames.
 */
module Continuation {
  import opened Options
  import opened Bytes
  import opened Resp

  /** An open array: its announced size and the items it has so far. */
  datatype Frame = Frame(elements: nat, done: seq<Reply>)

  ghost predicate FramesOk(frames: seq<Frame>) {
    |frames| <= MAX_LEVEL && forall k :: 0 <= k < |frames| ==> |frames[k].done| < frames[k].elements
  }

  /** The outcome when the item below the frames is finished with value `v`. */
  function Complete(frames: seq<Frame>, v: Reply, s: bytes): Parsed<Reply>
    requires FramesOk(frames)
    decreases |frames|
  {
    if frames == [] then Done(v, s)
    else
      var top := frames[|frames| - 1];
      var done := top.done + [v];
      match ParseItems(s, top.elements - |done|, |frames|)
      case Incomplete => Incomplete
      case Bad(e) => Bad(e)
      case Done(vs, rest) => Complete(frames[..|frames| - 1], Array(top.elements, done + vs), rest)
  }

  /** A point in the descent: the open arrays, the type of the item being read once its type byte
      has been consumed, and the bytes at hand. */
  datatype Point = Point(frames: seq<Frame>, kind: Option<Kind>, rest: bytes)

  function More(p: Point, t: bytes): Point {
    p.(rest := p.rest + t)
  }

  function ParseAt(p: Point): Parsed<Reply>
    requires FramesOk(p.frames)
  {
    match p.kind
    case None => ParseItem(p.rest, |p.frames|)
    case Some(kind) => ParseTyped(kind, p.rest, |p.frames|)
  }

  /** The outcome of going on from a point to the end of the outermost item. */
  function Resume(p: Point): Parsed<Reply>
    requires FramesOk(p.frames)
  {
    match ParseAt(p)
    case Incomplete => Incomplete
    case Bad(e) => Bad(e)
    case Done(v, rest) => Complete(p.frames, v, rest)
  }

  function Filled(frames: seq<Frame>, v: Reply): seq<Frame>
    requires frames != []
  {
    var n := |frames| - 1;
    frames[n := frames[n].(done := frames[n].done + [v])]
  }

  // ---------------------------------------------------------------- steps, whatever bytes follow

  /** Going on from `p` and from `q` gives the same outcome. */
  ghost predicate Continues(p: Point, q: Point)
    requires FramesOk(p.frames) && FramesOk(q.frames)
  {
    forall t :: Resume(More(p, t)) == Resume(More(q, t))
  }

  /** Going on from `p` means finishing the item below `frames` with `v`, with `s` left. */
  ghost predicate Reaches(p: Point, frames: seq<Frame>, v: Reply, s: bytes)
    requires FramesOk(p.frames) && FramesOk(frames)
  {
    forall t :: Resume(More(p, t)) == Complete(frames, v, s + t)
  }

  ghost predicate Finishes(p: Point, v: Reply, s: bytes)
    requires FramesOk(p.frames)
  {
    forall t :: Resume(More(p, t)) == Done(v, s + t)
  }

  ghost predicate Fails(p: Point, e: ProtocolError)
    requires FramesOk(p.frames)
  {
    forall t :: Resume(More(p, t)) == Bad(e)
  }

  /** Reading the type byte changes nothing. */
  lemma TypeByteContinues(frames: seq<Frame>, s: bytes)
    requires FramesOk(frames) && s != []
    ensures KindOf(s[0]).Some? ==> Continues(Point(frames, None, s), Point(frames, KindOf(s[0]), s[1..]))
    ensures KindOf(s[0]).None? ==> Fails(Point(frames, None, s), BadTypeByte(s[0]))
  {
    forall t: bytes ensures (s + t)[1..] == s[1..] + t {
    }
  }

  /** An item without children is finished. */
  lemma ItemReaches(frames: seq<Frame>, kind: Kind, s: bytes, v: Reply, rest: bytes)
    requires FramesOk(frames)
    requires ParseTyped(kind, s, |frames|) == Done(v, rest)
    ensures Reaches(Point(frames, Some(kind), s), frames, v, rest)
  {
    forall t ensures ParseTyped(kind, s + t, |frames|) == Done(v, rest + t) {
      ParseTypedExtend(kind, s, t, |frames|);
    }
  }

  /** An array at the deepest level fails. */
  lemma DeepArrayFails(frames: seq<Frame>, s: bytes)
    requires FramesOk(frames) && |frames| == MAX_LEVEL
    ensures Fails(Point(frames, Some(KArray), s), TooDeep)
  {
  }

  /** A header with a positive count opens a frame. */
  lemma HeaderContinues(frames: seq<Frame>, s: bytes, n: int, rest: bytes)
    requires FramesOk(frames) && |frames| < MAX_LEVEL
    requires SplitLine(s).Line? && LongLong(SplitLine(s).text) == n > 0 && rest == SplitLine(s).rest
    ensures FramesOk(frames + [Frame(n, [])])
    ensures Continues(Point(frames, Some(KArray), s), Point(frames + [Frame(n, [])], None, rest))
  {
    var frames' := frames + [Frame(n, [])];
    forall t ensures Resume(Point(frames, Some(KArray), s + t)) == Resume(Point(frames', None, rest + t)) {
      SplitLineExtend(s, t);
      HeaderResumes(frames, s + t, n, rest + t);
    }
  }

  lemma HeaderResumes(frames: seq<Frame>, s: bytes, n: int, rest: bytes)
    requires FramesOk(frames) && |frames| < MAX_LEVEL
    requires SplitLine(s).Line? && LongLong(SplitLine(s).text) == n > 0 && rest == SplitLine(s).rest
    requires FramesOk(frames + [Frame(n, [])])
    ensures Resume(Point(frames, Some(KArray), s)) == Resume(Point(frames + [Frame(n, [])], None, rest))
  {
    var frames' := frames + [Frame(n, [])];
    var level := |frames'|;
    var items := ParseItems(rest, n, level);
    assert ParseTyped(KArray, s, |frames|)
        == match items
           case Done(vs, rest') => Done(Array(n, vs), rest')
           case Incomplete => Incomplete
           case Bad(e) => Bad(e);
    var item := ParseItem(rest, level);
    if item.Done? {
      var others := ParseItems(item.rest, n - 1, level);
      if others.Done? {
        assert frames'[|frames'| - 1].done + [item.value] + others.value == [item.value] + others.value;
        assert frames'[..|frames'| - 1] == frames;
      }
    }
  }

  /** At the root, finishing the item is finishing the reply. */
  lemma RootFinishes(p: Point, v: Reply, s: bytes)
    requires FramesOk(p.frames) && Reaches(p, [], v, s)
    ensures Finishes(p, v, s)
  {
  }

  /** Filling the last slot of an array finishes the array. */
  lemma FullReaches(p: Point, frames: seq<Frame>, v: Reply, s: bytes)
    requires FramesOk(p.frames) && FramesOk(frames) && frames != []
    requires Reaches(p, frames, v, s)
    requires var top := frames[|frames| - 1]; |top.done| + 1 == top.elements
    ensures var top := frames[|frames| - 1];
            Reaches(p, frames[..|frames| - 1], Array(top.elements, top.done + [v]), s)
  {
    var top := frames[|frames| - 1];
    assert top.done + [v] + [] == top.done + [v];
  }

  /** Filling any other slot leads to the next item of the same array. */
  lemma NextContinues(p: Point, frames: seq<Frame>, v: Reply, s: bytes)
    requires FramesOk(p.frames) && FramesOk(frames) && frames != []
    requires Reaches(p, frames, v, s)
    requires var top := frames[|frames| - 1]; |top.done| + 1 < top.elements
    ensures FramesOk(Filled(frames, v))
    ensures Continues(p, Point(Filled(frames, v), None, s))
  {
    forall t ensures Complete(frames, v, s + t) == Resume(Point(Filled(frames, v), None, s + t)) {
      NextResumes(frames, v, s + t);
    }
  }

  lemma NextResumes(frames: seq<Frame>, v: Reply, s: bytes)
    requires FramesOk(frames) && frames != []
    requires var top := frames[|frames| - 1]; |top.done| + 1 < top.elements
    requires FramesOk(Filled(frames, v))
    ensures Complete(frames, v, s) == Resume(Point(Filled(frames, v), None, s))
  {
    var n := |frames| - 1;
    var top, frames' := frames[n], Filled(frames, v);
    var done := top.done + [v];
    var item := ParseItem(s, |frames|);
    if item.Done? {
      var others := ParseItems(item.rest, top.elements - |done| - 1, |frames|);
      if others.Done? {
        assert frames'[n].done + [item.value] + others.value == done + ([item.value] + others.value);
        assert frames'[..n] == frames[..n];
      }
    }
  }

  // ---------------------------------------------------------------- streams

  /** Everything a stream says from a point on. */
  function DecodeFrom(p: Point): Decoded
    requires FramesOk(p.frames)
  {
    match Resume(p)
    case Incomplete => Decoded([], Waiting)
    case Bad(e) => Decoded([], Failed(e))
    case Done(v, rest) => After([v], Decode(rest))
  }

  /** The point between two replies. */
  function Start(s: bytes): Point {
    Point([], None, s)
  }

  lemma DecodeFromStart(s: bytes)
    ensures DecodeFrom(Start(s)) == Decode(s)
  {
  }

  /** After the bytes `fed`, the replies `emitted` have been delivered and the descent is at `p`. */
  ghost predicate Follows(fed: bytes, emitted: seq<Reply>, p: Point)
    requires FramesOk(p.frames)
  {
    forall t :: Decode(fed + t) == After(emitted, DecodeFrom(More(p, t)))
  }

  lemma FollowsMore(fed: bytes, emitted: seq<Reply>, p: Point, t: bytes)
    requires FramesOk(p.frames) && Follows(fed, emitted, p)
    ensures Follows(fed + t, emitted, More(p, t))
  {
    forall u ensures Decode(fed + t + u) == After(emitted, DecodeFrom(More(More(p, t), u))) {
      MoreTwice(fed, p, t, u);
      var tu := t + u;
      assert Decode(fed + tu) == After(emitted, DecodeFrom(More(p, tu)));
    }
  }

  lemma MoreTwice(fed: bytes, p: Point, t: bytes, u: bytes)
    ensures fed + t + u == fed + (t + u)
    ensures More(More(p, t), u) == More(p, t + u)
  {
    assert p.rest + t + u == p.rest + (t + u);
  }

  lemma FollowsContinues(fed: bytes, emitted: seq<Reply>, p: Point, q: Point)
    requires FramesOk(p.frames) && FramesOk(q.frames)
    requires Follows(fed, emitted, p) && Continues(p, q)
    ensures Follows(fed, emitted, q)
  {
  }

  lemma FollowsFinishes(fed: bytes, emitted: seq<Reply>, p: Point, v: Reply, s: bytes)
    requires FramesOk(p.frames)
    requires Follows(fed, emitted, p) && Finishes(p, v, s)
    ensures Follows(fed, emitted + [v], Start(s))
  {
    forall t ensures Decode(fed + t) == After(emitted + [v], DecodeFrom(More(Start(s), t))) {
      DecodeFromStart(s + t);
      assert emitted + ([v] + Decode(s + t).replies) == emitted + [v] + Decode(s + t).replies;
    }
  }

  lemma FollowsFails(fed: bytes, emitted: seq<Reply>, p: Point, e: ProtocolError, t: bytes)
    requires FramesOk(p.frames)
    requires Follows(fed, emitted, p) && Fails(p, e)
    ensures Decode(fed + t) == Decoded(emitted, Failed(e))
  {
    assert After(emitted, Decoded([], Failed(e))) == Decoded(emitted, Failed(e));
    assert Resume(More(p, t)) == Bad(e);
  }

  lemma FollowsIncomplete(fed: bytes, emitted: seq<Reply>, p: Point)
    requires FramesOk(p.frames)
    requires Follows(fed, emitted, p) && Resume(p) == Incomplete
    ensures Decode(fed) == Decoded(emitted, Waiting)
  {
    assert fed + [] == fed && More(p, []) == p by {
      assert p.rest + [] == p.rest;
    }
  }
}
