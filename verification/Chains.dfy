/**
 Hash chains as sequences: what a chained hash table means, and what the two ways of growing it do to
 that meaning. The cells are the heap objects of the table; their key, value and hash never change.
 */
module Chains {

  class Entry<K, V> {
    const k: K
    const v: V
    const h: nat
    var next: Entry?<K, V>
    /** The bucket array whose chain the entry is in, and the number of its bucket. */
    ghost var home: object?
    ghost var slot: nat

    constructor (k: K, v: V, h: nat)
      ensures this.k == k && this.v == v && this.h == h && next == null && home == null
    {
      this.k, this.v, this.h := k, v, h;
      next, home, slot := null, null, 0;
    }
  }

  function IndexFor(tablelength: nat, hashvalue: nat): (i: nat)
    requires tablelength > 0
    ensures i < tablelength
  {
    hashvalue % tablelength
  }

  // ---------------------------------------------------------------- sequences

  function Reverse<T>(s: seq<T>): (r: seq<T>)
    ensures |r| == |s|
  {
    if s == [] then [] else Reverse(s[1..]) + [s[0]]
  }

  lemma {:induction false} ReverseSnoc<T>(s: seq<T>, x: T)
    ensures Reverse(s + [x]) == [x] + Reverse(s)
  {
    if s == [] {
      assert s + [x] == [x] && [x][1..] == [];
      assert [x] + Reverse([]) == Reverse([]) + [x];
    } else {
      assert (s + [x])[1..] == s[1..] + [x] && (s + [x])[0] == s[0];
      ReverseSnoc(s[1..], x);
      assert [x] + Reverse(s[1..]) + [s[0]] == [x] + (Reverse(s[1..]) + [s[0]]);
    }
  }

  lemma {:induction false} ReverseAppend<T>(a: seq<T>, b: seq<T>)
    ensures Reverse(a + b) == Reverse(b) + Reverse(a)
  {
    if a == [] {
      assert a + b == b && Reverse(b) + [] == Reverse(b);
    } else {
      assert (a + b)[1..] == a[1..] + b && (a + b)[0] == a[0];
      ReverseAppend(a[1..], b);
      assert Reverse(b) + Reverse(a[1..]) + [a[0]] == Reverse(b) + (Reverse(a[1..]) + [a[0]]);
    }
  }

  function Flatten<T>(ss: seq<seq<T>>): seq<T> {
    if ss == [] then [] else ss[0] + Flatten(ss[1..])
  }

  lemma {:induction false} FlattenAppend<T>(a: seq<seq<T>>, b: seq<seq<T>>)
    ensures Flatten(a + b) == Flatten(a) + Flatten(b)
  {
    if a == [] {
      assert a + b == b && [] + Flatten(b) == Flatten(b);
    } else {
      assert (a + b)[1..] == a[1..] + b && (a + b)[0] == a[0];
      FlattenAppend(a[1..], b);
      assert a[0] + (Flatten(a[1..]) + Flatten(b)) == a[0] + Flatten(a[1..]) + Flatten(b);
    }
  }

  /** The elements before, in, and behind chain `i`. */
  lemma {:induction false} FlattenSplit<T>(ss: seq<seq<T>>, i: nat)
    requires i < |ss|
    ensures Flatten(ss) == Flatten(ss[..i]) + ss[i] + Flatten(ss[i + 1..])
  {
    if i == 0 {
      assert ss[..0] == [] && [] + ss[0] == ss[0];
    } else {
      var t := ss[1..];
      FlattenSplit(t, i - 1);
      assert ss[..i][0] == ss[0] && ss[..i][1..] == t[..i - 1] && t[i..] == ss[i + 1..];
      assert ss[0] + (Flatten(t[..i - 1]) + t[i - 1] + Flatten(t[i..]))
          == ss[0] + Flatten(t[..i - 1]) + t[i - 1] + Flatten(t[i..]);
    }
  }

  lemma FlattenUpdate<T>(ss: seq<seq<T>>, i: nat, c: seq<T>)
    requires i < |ss|
    ensures Flatten(ss[i := c]) == Flatten(ss[..i]) + c + Flatten(ss[i + 1..])
    ensures |Flatten(ss[i := c])| == |Flatten(ss)| - |ss[i]| + |c|
  {
    FlattenSplit(ss, i);
    var tt := ss[i := c];
    FlattenSplit(tt, i);
    assert tt[..i] == ss[..i] && tt[i + 1..] == ss[i + 1..];
  }

  /** The entries of a table outside one chain. */
  ghost function Others<T>(ss: seq<seq<T>>, i: nat): multiset<T>
    requires i < |ss|
  {
    multiset(Flatten(ss[..i])) + multiset(Flatten(ss[i + 1..]))
  }

  lemma EntriesUpdate<T>(ss: seq<seq<T>>, i: nat, c: seq<T>)
    requires i < |ss|
    ensures multiset(Flatten(ss)) == Others(ss, i) + multiset(ss[i])
    ensures multiset(Flatten(ss[i := c])) == Others(ss, i) + multiset(c)
  {
    FlattenSplit(ss, i);
    FlattenUpdate(ss, i, c);
  }

  lemma {:induction false} FlattenEmpty<T>(ss: seq<seq<T>>)
    requires forall i :: 0 <= i < |ss| ==> ss[i] == []
    ensures Flatten(ss) == []
  {
    if ss != [] {
      FlattenEmpty(ss[1..]);
    }
  }

  // ---------------------------------------------------------------- bindings

  /** The values bound to a key by a chain, first found first. */
  function Values<K(==), V>(chain: seq<Entry<K, V>>, k: K): seq<V> {
    if chain == [] then []
    else (if chain[0].k == k then [chain[0].v] else []) + Values(chain[1..], k)
  }

  lemma {:induction false} ValuesAppend<K, V>(a: seq<Entry<K, V>>, b: seq<Entry<K, V>>, k: K)
    ensures Values(a + b, k) == Values(a, k) + Values(b, k)
  {
    if a == [] {
      assert a + b == b && [] + Values(b, k) == Values(b, k);
    } else {
      assert (a + b)[1..] == a[1..] + b && (a + b)[0] == a[0];
      ValuesAppend(a[1..], b, k);
      var first := if a[0].k == k then [a[0].v] else [];
      assert first + (Values(a[1..], k) + Values(b, k)) == first + Values(a[1..], k) + Values(b, k);
    }
  }

  lemma ValuesOne<K, V>(e: Entry<K, V>, k: K)
    ensures Values([e], k) == if e.k == k then [e.v] else []
  {
    assert Values([e][1..], k) == [];
  }

  lemma {:induction false} NoValues<K, V>(chain: seq<Entry<K, V>>, k: K)
    requires forall j :: 0 <= j < |chain| ==> chain[j].k != k
    ensures Values(chain, k) == []
  {
    if chain != [] {
      NoValues(chain[1..], k);
    }
  }

  lemma FoundValue<K, V>(chain: seq<Entry<K, V>>, k: K, p: nat)
    requires p < |chain| && chain[p].k == k
    ensures Values(chain, k) != []
  {
    assert chain == chain[..p] + ([chain[p]] + chain[p + 1..]);
    ValuesAppend(chain[..p], [chain[p]] + chain[p + 1..], k);
    ValuesAppend([chain[p]], chain[p + 1..], k);
    ValuesOne(chain[p], k);
  }

  lemma {:induction false} ValuesReverse<K, V>(chain: seq<Entry<K, V>>, k: K)
    ensures Values(Reverse(chain), k) == Reverse(Values(chain, k))
  {
    if chain != [] {
      var first := if chain[0].k == k then [chain[0].v] else [];
      ValuesReverse(chain[1..], k);
      ValuesAppend(Reverse(chain[1..]), [chain[0]], k);
      ValuesOne(chain[0], k);
      ReverseAppend(first, Values(chain[1..], k));
      assert Reverse(first) == first by {
        if first != [] {
          assert first[1..] == [] && Reverse(first) == [] + [chain[0].v];
        }
      }
    }
  }

  /** Every entry is in the bucket of its hash value. */
  ghost predicate Placed<K(!new), V>(chains: seq<seq<Entry<K, V>>>, hashfn: K -> nat) {
    forall b, j :: 0 <= b < |chains| && 0 <= j < |chains[b]| ==>
      chains[b][j].h == hashfn(chains[b][j].k) && chains[b][j].h % |chains| == b
  }

  /** What a table binds to a key. */
  ghost function Lookup<K, V>(chains: seq<seq<Entry<K, V>>>, hashfn: K -> nat, k: K): seq<V>
    requires |chains| > 0
  {
    Values(chains[IndexFor(|chains|, hashfn(k))], k)
  }

  /** All entries of a key are in the bucket of its hash value. */
  lemma {:induction false} ValuesOfFlatten<K(!new), V>(chains: seq<seq<Entry<K, V>>>, b: nat, k: K)
    requires b < |chains|
    requires forall c, j :: 0 <= c < |chains| && c != b && 0 <= j < |chains[c]| ==> chains[c][j].k != k
    ensures Values(Flatten(chains), k) == Values(chains[b], k)
  {
    FlattenSplit(chains, b);
    var before, after := Flatten(chains[..b]), Flatten(chains[b + 1..]);
    ValuesAppend(before + chains[b], after, k);
    ValuesAppend(before, chains[b], k);
    NoValuesInFlatten(chains[..b], k);
    NoValuesInFlatten(chains[b + 1..], k);
    assert [] + Values(chains[b], k) + [] == Values(chains[b], k);
  }

  lemma {:induction false} NoValuesInFlatten<K, V>(chains: seq<seq<Entry<K, V>>>, k: K)
    requires forall c, j :: 0 <= c < |chains| && 0 <= j < |chains[c]| ==> chains[c][j].k != k
    ensures Values(Flatten(chains), k) == []
  {
    if chains != [] {
      NoValues(chains[0], k);
      forall c, j | 0 <= c < |chains[1..]| && 0 <= j < |chains[1..][c]| ensures chains[1..][c][j].k != k {
        assert chains[1..][c] == chains[c + 1];
      }
      NoValuesInFlatten(chains[1..], k);
      ValuesAppend(chains[0], Flatten(chains[1..]), k);
    }
  }

  /** The position of the first entry of a key, or the length of the chain. */
  function FirstIndex<K(==), V>(chain: seq<Entry<K, V>>, k: K): (i: nat)
    ensures i <= |chain| && (i < |chain| ==> chain[i].k == k)
    ensures forall j :: 0 <= j < i ==> chain[j].k != k
  {
    if chain == [] || chain[0].k == k then 0 else 1 + FirstIndex(chain[1..], k)
  }

  /** The table without the entry of `k` that is found first. */
  ghost function Removed<K, V>(chains: seq<seq<Entry<K, V>>>, hashfn: K -> nat, k: K): seq<seq<Entry<K, V>>>
    requires |chains| > 0
  {
    var b := IndexFor(|chains|, hashfn(k));
    var p := FirstIndex(chains[b], k);
    if p == |chains[b]| then chains else chains[b := chains[b][..p] + chains[b][p + 1..]]
  }

  lemma FirstIndexIs<K, V>(chain: seq<Entry<K, V>>, k: K, p: nat)
    requires p <= |chain| && (p < |chain| ==> chain[p].k == k) && forall j :: 0 <= j < p ==> chain[j].k != k
    ensures FirstIndex(chain, k) == p
  {
  }

  // ---------------------------------------------------------------- growing into a new table

  /** Moving entries one by one to the heads of their new chains. */
  function Rehash<K, V>(todo: seq<Entry<K, V>>, chains: seq<seq<Entry<K, V>>>): (r: seq<seq<Entry<K, V>>>)
    requires |chains| > 0
    ensures |r| == |chains|
  {
    if todo == [] then chains
    else
      var i := IndexFor(|chains|, todo[0].h);
      Rehash(todo[1..], chains[i := [todo[0]] + chains[i]])
  }

  /** The entries that go to bucket `b` of `n`, in order. */
  function Bound<K, V>(todo: seq<Entry<K, V>>, n: nat, b: nat): seq<Entry<K, V>>
    requires n > 0
  {
    if todo == [] then []
    else (if IndexFor(n, todo[0].h) == b then [todo[0]] else []) + Bound(todo[1..], n, b)
  }

  /** Every new chain is the reverse of the entries bound for it. */
  lemma {:induction false} RehashReverses<K, V>(todo: seq<Entry<K, V>>, chains: seq<seq<Entry<K, V>>>, b: nat)
    requires b < |chains|
    ensures Rehash(todo, chains)[b] == Reverse(Bound(todo, |chains|, b)) + chains[b]
    decreases |todo|
  {
    var n := |chains|;
    if todo == [] {
      assert Reverse(Bound(todo, n, b)) + chains[b] == chains[b];
    } else {
      var e := todo[0];
      var i := IndexFor(n, e.h);
      var chains' := chains[i := [e] + chains[i]];
      RehashReverses(todo[1..], chains', b);
      var others := Bound(todo[1..], n, b);
      if i == b {
        assert ([e] + others)[1..] == others;
        assert Reverse([e] + others) == Reverse(others) + [e];
        assert Reverse(others) + ([e] + chains[b]) == Reverse(others) + [e] + chains[b];
      } else {
        assert [] + others == others;
      }
    }
  }

  lemma {:induction false} ValuesOfBound<K, V>(todo: seq<Entry<K, V>>, n: nat, b: nat, k: K)
    requires n > 0
    requires forall j :: 0 <= j < |todo| && todo[j].k == k ==> IndexFor(n, todo[j].h) == b
    ensures Values(Bound(todo, n, b), k) == Values(todo, k)
  {
    if todo != [] {
      ValuesOfBound(todo[1..], n, b, k);
      var first := if IndexFor(n, todo[0].h) == b then [todo[0]] else [];
      ValuesAppend(first, Bound(todo[1..], n, b), k);
      if first != [] {
        ValuesOne(todo[0], k);
      }
    }
  }

  lemma {:induction false} RehashKeepsEntries<K, V>(todo: seq<Entry<K, V>>, chains: seq<seq<Entry<K, V>>>)
    requires |chains| > 0
    ensures multiset(Flatten(Rehash(todo, chains))) == multiset(todo) + multiset(Flatten(chains))
    ensures |Flatten(Rehash(todo, chains))| == |todo| + |Flatten(chains)|
    decreases |todo|
  {
    if todo != [] {
      var e := todo[0];
      var i := IndexFor(|chains|, e.h);
      var c := [e] + chains[i];
      RehashKeepsEntries(todo[1..], chains[i := c]);
      FlattenPush(chains, i, e);
      assert todo == [e] + todo[1..];
      assert Rehash(todo, chains) == Rehash(todo[1..], chains[i := c]);
    }
  }

  lemma FlattenPush<T>(ss: seq<seq<T>>, i: nat, x: T)
    requires i < |ss|
    ensures multiset(Flatten(ss[i := [x] + ss[i]])) == multiset{x} + multiset(Flatten(ss))
    ensures |Flatten(ss[i := [x] + ss[i]])| == 1 + |Flatten(ss)|
  {
    FlattenUpdate(ss, i, [x] + ss[i]);
    EntriesUpdate(ss, i, [x] + ss[i]);
    assert multiset([x] + ss[i]) == multiset{x} + multiset(ss[i]);
  }

  /** The elements of the chains are the elements of the table. */
  lemma {:induction false} FlattenContains<T>(ss: seq<seq<T>>, b: nat, j: nat)
    requires b < |ss| && j < |ss[b]|
    ensures ss[b][j] in Flatten(ss)
  {
    FlattenSplit(ss, b);
  }

  lemma {:induction false} FlattenOnly<T>(ss: seq<seq<T>>, x: T) returns (b: nat, j: nat)
    requires x in Flatten(ss)
    ensures b < |ss| && j < |ss[b]| && ss[b][j] == x
  {
    if x in ss[0] {
      b := 0;
      j :| 0 <= j < |ss[0]| && ss[0][j] == x;
    } else {
      b, j := FlattenOnly(ss[1..], x);
      b := b + 1;
    }
  }

  /** Two tables with the same entries: what holds of the entries of one holds of those of the other. */
  lemma SameEntries<T>(ss: seq<seq<T>>, tt: seq<seq<T>>, b: nat, j: nat) returns (c: nat, l: nat)
    requires multiset(Flatten(ss)) == multiset(Flatten(tt)) && b < |tt| && j < |tt[b]|
    ensures c < |ss| && l < |ss[c]| && ss[c][l] == tt[b][j]
  {
    FlattenContains(tt, b, j);
    assert tt[b][j] in multiset(Flatten(ss));
    c, l := FlattenOnly(ss, tt[b][j]);
  }

  /** Moving entries puts each into the bucket of its hash. */
  lemma {:induction false} RehashPlaces<K, V>(todo: seq<Entry<K, V>>, chains: seq<seq<Entry<K, V>>>)
    requires |chains| > 0
    requires forall b, j :: 0 <= b < |chains| && 0 <= j < |chains[b]| ==> IndexFor(|chains|, chains[b][j].h) == b
    ensures var r := Rehash(todo, chains);
            forall b, j :: 0 <= b < |r| && 0 <= j < |r[b]| ==> IndexFor(|r|, r[b][j].h) == b
    decreases |todo|
  {
    if todo != [] {
      var i := IndexFor(|chains|, todo[0].h);
      var chains': seq<seq<Entry<K, V>>> := chains[i := [todo[0]] + chains[i]];
      forall b, j | 0 <= b < |chains'| && 0 <= j < |chains'[b]| ensures IndexFor(|chains'|, chains'[b][j].h) == b {
        assert b == i && j > 0 ==> chains'[b][j] == chains[b][j - 1];
      }
      RehashPlaces(todo[1..], chains');
      assert Rehash(todo, chains) == Rehash(todo[1..], chains');
    }
  }

  // ---------------------------------------------------------------- growing in place

  /** Taking entry `p` out of chain `i` and putting it at the head of chain `t`. */
  function Moved<K, V>(chains: seq<seq<Entry<K, V>>>, i: nat, p: nat, t: nat): (r: seq<seq<Entry<K, V>>>)
    requires i < |chains| && t < |chains| && i != t && p < |chains[i]|
    ensures |r| == |chains|
  {
    chains[i := chains[i][..p] + chains[i][p + 1..]][t := [chains[i][p]] + chains[t]]
  }

  /** The rehash inside the enlarged bucket array, from position `p` of bucket `i` on: entries that
      belong there stay, the others move to the heads of their chains, some of which are walked again
      later. It ends because a moved entry never comes back to the bucket being walked. */
  function Relocate<K, V>(chains: seq<seq<Entry<K, V>>>, i: nat, p: nat, oldlen: nat): (r: seq<seq<Entry<K, V>>>)
    requires 0 < |chains| && i <= oldlen <= |chains|
    requires if i < oldlen then p <= |chains[i]| else p == 0
    ensures |r| == |chains|
    decreases oldlen - i, if i < oldlen then |chains[i]| - p else 0
  {
    if i == oldlen then chains
    else if p == |chains[i]| then Relocate(chains, i + 1, 0, oldlen)
    else
      var t := IndexFor(|chains|, chains[i][p].h);
      if t == i then Relocate(chains, i, p + 1, oldlen)
      else Relocate(Moved(chains, i, p, t), i, p, oldlen)
  }

  /** Where entries can be during the rehash: in their new bucket, or still in their old one. */
  ghost predicate HalfPlaced<K, V>(chains: seq<seq<Entry<K, V>>>, i: nat, p: nat, oldlen: nat)
    requires 0 < oldlen <= |chains|
  {
    forall b, j :: 0 <= b < |chains| && 0 <= j < |chains[b]| ==>
      || IndexFor(|chains|, chains[b][j].h) == b
      || (IndexFor(oldlen, chains[b][j].h) == b && b < oldlen && (i < b || (i == b && p <= j)))
  }

  lemma MovedIsHalfPlaced<K, V>(chains: seq<seq<Entry<K, V>>>, i: nat, p: nat, oldlen: nat)
    requires 0 < oldlen <= |chains| && i < oldlen && p < |chains[i]|
    requires HalfPlaced(chains, i, p, oldlen) && IndexFor(|chains|, chains[i][p].h) != i
    ensures HalfPlaced(Moved(chains, i, p, IndexFor(|chains|, chains[i][p].h)), i, p, oldlen)
  {
    var t := IndexFor(|chains|, chains[i][p].h);
    var r: seq<seq<Entry<K, V>>> := Moved(chains, i, p, t);
    forall b, j | 0 <= b < |r| && 0 <= j < |r[b]|
      ensures || IndexFor(|r|, r[b][j].h) == b
              || (IndexFor(oldlen, r[b][j].h) == b && b < oldlen && (i < b || (i == b && p <= j)))
    {
      if b == i {
        assert r[b][j] == if j < p then chains[i][j] else chains[i][j + 1];
      } else if b == t {
        assert r[b][j] == if j == 0 then chains[i][p] else chains[t][j - 1];
      } else {
        assert r[b][j] == chains[b][j];
      }
    }
  }

  lemma HalfPlacedSteps<K, V>(chains: seq<seq<Entry<K, V>>>, i: nat, p: nat, oldlen: nat)
    requires 0 < oldlen <= |chains| && HalfPlaced(chains, i, p, oldlen)
    ensures i < oldlen && p == |chains[i]| ==> HalfPlaced(chains, i + 1, 0, oldlen)
    ensures i < oldlen && p < |chains[i]| && IndexFor(|chains|, chains[i][p].h) == i ==>
              HalfPlaced(chains, i, p + 1, oldlen)
    ensures i == oldlen ==>
              forall b, j :: 0 <= b < |chains| && 0 <= j < |chains[b]| ==> IndexFor(|chains|, chains[b][j].h) == b
  {
  }

  /** In the end every entry is in the bucket of its hash, and none is lost or doubled. */
  lemma {:induction false} RelocatePlaces<K, V>(chains: seq<seq<Entry<K, V>>>, i: nat, p: nat, oldlen: nat)
    requires 0 < oldlen <= |chains| && i <= oldlen
    requires if i < oldlen then p <= |chains[i]| else p == 0
    requires HalfPlaced(chains, i, p, oldlen)
    ensures var r := Relocate(chains, i, p, oldlen);
            && (forall b, j :: 0 <= b < |r| && 0 <= j < |r[b]| ==> IndexFor(|r|, r[b][j].h) == b)
            && multiset(Flatten(r)) == multiset(Flatten(chains))
            && |Flatten(r)| == |Flatten(chains)|
    decreases oldlen - i, if i < oldlen then |chains[i]| - p else 0
  {
    hide HalfPlaced, Flatten, IndexFor;
    HalfPlacedSteps(chains, i, p, oldlen);
    if i < oldlen {
      if p == |chains[i]| {
        RelocatePlaces(chains, i + 1, 0, oldlen);
      } else {
        var t := IndexFor(|chains|, chains[i][p].h);
        if t == i {
          RelocatePlaces(chains, i, p + 1, oldlen);
        } else {
          MovedIsHalfPlaced(chains, i, p, oldlen);
          MovedKeepsEntries(chains, i, p, t);
          RelocatePlaces(Moved(chains, i, p, t), i, p, oldlen);
        }
      }
    }
  }

  lemma WithoutOne<T>(s: seq<T>, p: nat)
    requires p < |s|
    ensures multiset(s) == multiset(s[..p] + s[p + 1..]) + multiset{s[p]}
  {
    assert s == s[..p] + [s[p]] + s[p + 1..];
  }

  lemma MovedKeepsEntries<K, V>(chains: seq<seq<Entry<K, V>>>, i: nat, p: nat, t: nat)
    requires i < |chains| && t < |chains| && i != t && p < |chains[i]|
    ensures multiset(Flatten(Moved(chains, i, p, t))) == multiset(Flatten(chains))
    ensures |Flatten(Moved(chains, i, p, t))| == |Flatten(chains)|
  {
    hide Flatten, Others;
    var e, c := chains[i][p], chains[i][..p] + chains[i][p + 1..];
    FlattenUpdate(chains, i, c);
    EntriesUpdate(chains, i, c);
    FlattenPush(chains[i := c], t, e);
    WithoutOne(chains[i], p);
    assert Others(chains, i) + multiset(chains[i]) == multiset{e} + (Others(chains, i) + multiset(c));
  }

  /** What the rehash in place does to the order of the values of one key: nothing when the key stays in
      its bucket, and a reversal when it changes buckets. */
  lemma {:induction false} RelocateOrder<K, V>(
      chains: seq<seq<Entry<K, V>>>, i: nat, p: nat, oldlen: nat, k: K, h: nat)
    requires 0 < oldlen <= |chains| && i <= oldlen
    requires if i < oldlen then p <= |chains[i]| else p == 0
    requires HalfPlaced(chains, i, p, oldlen)
    requires forall b, j :: 0 <= b < |chains| && 0 <= j < |chains[b]| && chains[b][j].k == k ==> chains[b][j].h == h
    ensures var r := Relocate(chains, i, p, oldlen);
            var from, to := IndexFor(oldlen, h), IndexFor(|chains|, h);
            && (from == to ==> Values(r[to], k) == Values(chains[to], k))
            && (from != to ==>
                  Reverse(Values(r[from], k)) + Values(r[to], k)
                  == Reverse(Values(chains[from], k)) + Values(chains[to], k))
    decreases oldlen - i, if i < oldlen then |chains[i]| - p else 0
  {
    hide Values, Reverse;
    if i < oldlen {
      if p == |chains[i]| {
        RelocateOrder(chains, i + 1, 0, oldlen, k, h);
      } else {
        var t := IndexFor(|chains|, chains[i][p].h);
        if t == i {
          RelocateOrder(chains, i, p + 1, oldlen, k, h);
        } else {
          MovedIsHalfPlaced(chains, i, p, oldlen);
          MovedOrder(chains, i, p, oldlen, k, h);
          MovedKeepsHashes(chains, i, p, t, k, h);
          RelocateOrder(Moved(chains, i, p, t), i, p, oldlen, k, h);
        }
      }
    }
  }

  lemma MovedKeepsHashes<K, V>(chains: seq<seq<Entry<K, V>>>, i: nat, p: nat, t: nat, k: K, h: nat)
    requires i < |chains| && t < |chains| && i != t && p < |chains[i]|
    requires forall b, j :: 0 <= b < |chains| && 0 <= j < |chains[b]| && chains[b][j].k == k ==> chains[b][j].h == h
    ensures var r: seq<seq<Entry<K, V>>> := Moved(chains, i, p, t);
            forall b, j :: 0 <= b < |r| && 0 <= j < |r[b]| && r[b][j].k == k ==> r[b][j].h == h
  {
    var r: seq<seq<Entry<K, V>>> := Moved(chains, i, p, t);
    forall b, j | 0 <= b < |r| && 0 <= j < |r[b]| && r[b][j].k == k ensures r[b][j].h == h {
      if b == i {
        assert r[b][j] == if j < p then chains[i][j] else chains[i][j + 1];
      } else if b == t {
        assert r[b][j] == if j == 0 then chains[i][p] else chains[t][j - 1];
      } else {
        assert r[b][j] == chains[b][j];
      }
    }
  }

  /** The values of a key in the two chains that a move changes. */
  lemma MovedValues<K, V>(chains: seq<seq<Entry<K, V>>>, i: nat, p: nat, t: nat, k: K)
    requires i < |chains| && t < |chains| && i != t && p < |chains[i]|
    ensures var r: seq<seq<Entry<K, V>>> := Moved(chains, i, p, t); var e := chains[i][p];
            && (e.k != k ==> Values(r[i], k) == Values(chains[i], k) && Values(r[t], k) == Values(chains[t], k))
            && (e.k == k ==> Values(r[t], k) == [e.v] + Values(chains[t], k))
            && (e.k == k && (forall j :: 0 <= j < p ==> chains[i][j].k != k) ==>
                  Values(chains[i], k) == [e.v] + Values(r[i], k))
  {
    var e := chains[i][p];
    var before, after := chains[i][..p], chains[i][p + 1..];
    assert chains[i] == before + ([e] + after);
    ValuesAppend(before, [e] + after, k);
    ValuesAppend([e], after, k);
    ValuesAppend(before, after, k);
    ValuesAppend([e], chains[t], k);
    ValuesOne(e, k);
    if e.k == k && forall j :: 0 <= j < p ==> chains[i][j].k != k {
      NoValues(before, k);
    }
  }

  lemma MovedOrder<K, V>(chains: seq<seq<Entry<K, V>>>, i: nat, p: nat, oldlen: nat, k: K, h: nat)
    requires 0 < oldlen <= |chains| && i < oldlen && p < |chains[i]|
    requires HalfPlaced(chains, i, p, oldlen) && IndexFor(|chains|, chains[i][p].h) != i
    requires forall b, j :: 0 <= b < |chains| && 0 <= j < |chains[b]| && chains[b][j].k == k ==> chains[b][j].h == h
    ensures var r: seq<seq<Entry<K, V>>> := Moved(chains, i, p, IndexFor(|chains|, chains[i][p].h));
            var from, to := IndexFor(oldlen, h), IndexFor(|chains|, h);
            && (from == to ==> Values(r[to], k) == Values(chains[to], k))
            && (from != to ==>
                  Reverse(Values(r[from], k)) + Values(r[to], k)
                  == Reverse(Values(chains[from], k)) + Values(chains[to], k))
  {
    hide Values, Reverse;
    var e := chains[i][p];
    var t := IndexFor(|chains|, e.h);
    var r: seq<seq<Entry<K, V>>> := Moved(chains, i, p, t);
    MovedValues(chains, i, p, t, k);
    if e.k == k {
      assert i == IndexFor(oldlen, h) && t == IndexFor(|chains|, h);
      ReverseHead(e.v, Values(r[i], k), Values(chains[t], k));
    }
  }

  lemma ReverseHead<T>(x: T, s: seq<T>, t: seq<T>)
    ensures Reverse(s) + ([x] + t) == Reverse([x] + s) + t
  {
    assert ([x] + s)[1..] == s;
    assert Reverse(s) + ([x] + t) == Reverse(s) + [x] + t;
  }

  lemma RemainderIs(h: nat, n: nat, q: nat, r: nat)
    requires h == n * q + r && r < n
    ensures h % n == r
  {
    var d: int := q - h / n;
    assert h == n * (h / n) + h % n;
    assert n * d == h % n - r;
    assert d >= 1 ==> n * d >= n;
    assert d <= -1 ==> n * d + n <= 0;
  }

  /** Doubling sends the entries of a bucket to that bucket or to its image in the upper half. */
  lemma DoublingSplits(size: nat, h: nat)
    requires size > 0
    ensures IndexFor(2 * size, h) == IndexFor(size, h) || IndexFor(2 * size, h) == IndexFor(size, h) + size
  {
    var q, r := Division(h, 2 * size);
    UpperOrLowerHalf(size, h, q, r);
  }

  lemma Division(h: nat, n: nat) returns (q: nat, r: nat)
    requires n > 0
    ensures h == n * q + r && r < n && r == h % n
  {
    q, r := h / n, h % n;
  }

  lemma UpperOrLowerHalf(size: nat, h: nat, q: nat, r: nat)
    requires h == 2 * size * q + r && r < 2 * size
    ensures h % size == if r < size then r else r - size
  {
    TwiceTheQuotient(size, q);
    if r < size {
      RemainderIs(h, size, 2 * q, r);
    } else {
      RemainderIs(h, size, 2 * q + 1, r - size);
    }
  }

  lemma TwiceTheQuotient(size: nat, q: nat)
    ensures 2 * size * q == size * (2 * q) && size * (2 * q + 1) == size * (2 * q) + size
  {
  }

  /** What is still to be walked of the old half: bucket `b` holds entries of old bucket `b`. */
  ghost predicate Unwalked<K, V>(chains: seq<seq<Entry<K, V>>>, i: nat, p: nat, oldlen: nat)
    requires 0 < oldlen <= |chains|
  {
    forall b, j :: i <= b < oldlen && (if b == i then p else 0) <= j < |chains[b]| ==>
      IndexFor(oldlen, chains[b][j].h) == b
  }

  /** Where the walk over bucket `b` starts when it stands at position `p` of bucket `i`. */
  function StartIn(b: nat, i: nat, p: nat): nat {
    if b == i then p else 0
  }

  /** When the bucket array doubles, the rehash in place splits every chain in one pass: the entries that
      stay keep their order, the others go to the image of their bucket in the new half, reversed. No
      entry is walked over twice. */
  lemma {:induction false} DoublingSplitsChains<K, V>(
      chains: seq<seq<Entry<K, V>>>, i: nat, p: nat, oldlen: nat, b: nat)
    requires 0 < oldlen && |chains| == 2 * oldlen && i <= oldlen
    requires if i < oldlen then p <= |chains[i]| else p == 0
    requires Unwalked(chains, i, p, oldlen) && i <= b < oldlen
    ensures var r := Relocate(chains, i, p, oldlen); var q := StartIn(b, i, p);
            && r[b] == chains[b][..q] + Bound(chains[b][q..], 2 * oldlen, b)
            && r[oldlen + b] == Reverse(Bound(chains[b][q..], 2 * oldlen, oldlen + b)) + chains[oldlen + b]
    decreases oldlen - i, if i < oldlen then |chains[i]| - p else 0
  {
    hide Bound, Reverse, IndexFor;
    var n := 2 * oldlen;
    if p == |chains[i]| {
      WalkedOver(chains, i, oldlen);
      if b == i {
        BehindTheWalk(chains, i + 1, 0, oldlen, b);
        NothingBound<K, V>(n, b);
        NothingBound<K, V>(n, oldlen + b);
        assert chains[b][p..] == [] && chains[b][..p] + [] == chains[b];
        assert [] + chains[oldlen + b] == chains[oldlen + b];
      } else {
        DoublingSplitsChains(chains, i + 1, 0, oldlen, b);
      }
    } else {
      var e := chains[i][p];
      var t := IndexFor(n, e.h);
      DoublingSplits(oldlen, e.h);
      BoundStep(chains[i], p, n, i);
      BoundStep(chains[i], p, n, oldlen + i);
      if t == i {
        DoublingSplitsChains(chains, i, p + 1, oldlen, b);
        assert chains[i][..p + 1] == chains[i][..p] + [e];
      } else {
        MovedUnwalked(chains, i, p, oldlen);
        var m: seq<seq<Entry<K, V>>> := Moved(chains, i, p, t);
        DoublingSplitsChains(m, i, p, oldlen, b);
        assert m[i][p..] == chains[i][p + 1..] && m[i][..p] == chains[i][..p];
        ReverseHead(e, Bound(chains[i][p + 1..], n, t), chains[t]);
      }
    }
  }

  /** Chains behind the walk do not change any more when the array doubles. */
  lemma {:induction false} BehindTheWalk<K, V>(chains: seq<seq<Entry<K, V>>>, i: nat, p: nat, oldlen: nat, b: nat)
    requires 0 < oldlen && |chains| == 2 * oldlen && i <= oldlen
    requires if i < oldlen then p <= |chains[i]| else p == 0
    requires Unwalked(chains, i, p, oldlen) && b < i
    ensures var r := Relocate(chains, i, p, oldlen); r[b] == chains[b] && r[oldlen + b] == chains[oldlen + b]
    decreases oldlen - i, if i < oldlen then |chains[i]| - p else 0
  {
    hide IndexFor;
    if i < oldlen {
      if p == |chains[i]| {
        WalkedOver(chains, i, oldlen);
        BehindTheWalk(chains, i + 1, 0, oldlen, b);
      } else {
        DoublingSplits(oldlen, chains[i][p].h);
        if IndexFor(2 * oldlen, chains[i][p].h) == i {
          BehindTheWalk(chains, i, p + 1, oldlen, b);
        } else {
          MovedUnwalked(chains, i, p, oldlen);
          BehindTheWalk(Moved(chains, i, p, oldlen + i), i, p, oldlen, b);
        }
      }
    }
  }

  lemma WalkedOver<K, V>(chains: seq<seq<Entry<K, V>>>, i: nat, oldlen: nat)
    requires 0 < oldlen <= |chains| && i < oldlen && Unwalked(chains, i, |chains[i]|, oldlen)
    ensures Unwalked(chains, i + 1, 0, oldlen)
  {
  }

  lemma MovedUnwalked<K, V>(chains: seq<seq<Entry<K, V>>>, i: nat, p: nat, oldlen: nat)
    requires 0 < oldlen && |chains| == 2 * oldlen && i < oldlen && p < |chains[i]|
    requires Unwalked(chains, i, p, oldlen)
    ensures Unwalked(Moved(chains, i, p, oldlen + i), i, p, oldlen)
  {
    var m: seq<seq<Entry<K, V>>> := Moved(chains, i, p, oldlen + i);
    forall b, j | i <= b < oldlen && (if b == i then p else 0) <= j < |m[b]| ensures IndexFor(oldlen, m[b][j].h) == b {
      assert m[b][j] == if b == i then chains[b][j + 1] else chains[b][j];
    }
  }

  lemma NothingBound<K, V>(n: nat, b: nat)
    requires n > 0
    ensures Bound<K, V>([], n, b) == [] && Reverse<Entry<K, V>>([]) == []
  {
  }

  lemma BoundStep<K, V>(chain: seq<Entry<K, V>>, p: nat, n: nat, b: nat)
    requires p < |chain| && n > 0
    ensures Bound(chain[p..], n, b) ==
              (if IndexFor(n, chain[p].h) == b then [chain[p]] else []) + Bound(chain[p + 1..], n, b)
    ensures IndexFor(n, chain[p].h) != b ==> Bound(chain[p..], n, b) == Bound(chain[p + 1..], n, b)
  {
    assert chain[p..][1..] == chain[p + 1..];
  }
}
