/**
 The prime-sized chained hash table of hashtable/hashtable.c: a bucket array, chains linked through the
 entries, and growth either into a new bucket array or inside the enlarged old one.
 */
module Hashtables {
  import opened Options
  import opened Chains

  /** What malloc and realloc have to offer when the table wants to grow. */
  datatype Memory = Plenty | OnlyRealloc | Exhausted

  /** What became of the wish to grow. */
  datatype Growth = NoGrowth | IntoNewTable | InPlace

  const PRIMES: seq<nat> := [
    7, 23, 53, 97, 193, 389,
    769, 1543, 3079, 6151,
    12289, 24593, 49157, 98317,
    196613, 393241, 786433, 1572869,
    3145739, 6291469, 12582917, 25165843,
    50331653, 100663319, 201326611, 402653189,
    805306457, 1610612741]

  const PRIME_COUNT: nat := 28

  function Prime(i: nat): nat
    requires i < PRIME_COUNT
  {
    PRIMES[i]
  }

  /** The load factor is 0.65, rounded up to whole entries. */
  function LoadLimit(size: nat): nat {
    (size * 65 + 99) / 100
  }

  // ---------------------------------------------------------------- chains on the heap

  /** The chain of bucket `b` of the array `t` consists of the entries `c`. */
  ghost predicate Chain<K, V>(t: array<Entry?<K, V>>, b: nat, c: seq<Entry<K, V>>)
    requires b < t.Length
    reads t, c
  {
    && t[b] == (if c == [] then null else c[0])
    && (forall j :: 0 <= j < |c| - 1 ==> c[j].next == c[j + 1])
    && (c != [] ==> c[|c| - 1].next == null)
    && (forall j :: 0 <= j < |c| ==> c[j].home == t && c[j].slot == b)
    && (forall j, l :: 0 <= j < l < |c| ==> c[j] != c[l])
  }

  ghost function Cells<K, V>(chains: seq<seq<Entry<K, V>>>): set<object> {
    set b, j | 0 <= b < |chains| && 0 <= j < |chains[b]| :: chains[b][j]
  }

  ghost predicate Table<K, V>(t: array<Entry?<K, V>>, chains: seq<seq<Entry<K, V>>>)
    reads t, Cells(chains)
  {
    |chains| == t.Length && forall b :: 0 <= b < |chains| ==> Chain(t, b, chains[b])
  }

  lemma HeadOf<K, V>(t: array<Entry?<K, V>>, chains: seq<seq<Entry<K, V>>>, b: nat)
    requires Table(t, chains) && b < t.Length
    ensures |chains| == t.Length
    ensures t[b] == (if chains[b] == [] then null else chains[b][0])
    ensures chains[b] != [] ==> chains[b][0].home == t
  {
    assert Chain(t, b, chains[b]);
  }

  /** What follows position `p` of a chain. */
  lemma NextOf<K, V>(t: array<Entry?<K, V>>, chains: seq<seq<Entry<K, V>>>, b: nat, p: nat)
    requires Table(t, chains) && b < t.Length
    ensures |chains| == t.Length
    ensures p < |chains[b]| ==>
              chains[b][p].next == if p + 1 < |chains[b]| then chains[b][p + 1] else null
  {
    assert Chain(t, b, chains[b]);
  }

  lemma NotInTable<K, V>(t: array<Entry?<K, V>>, chains: seq<seq<Entry<K, V>>>, e: Entry<K, V>)
    requires Table(t, chains) && e.home != t
    ensures e !in Cells(chains)
  {
    forall b, j | 0 <= b < |chains| && 0 <= j < |chains[b]| ensures chains[b][j] != e {
      assert Chain(t, b, chains[b]);
    }
  }

  /** Puts a free entry at the head of a chain. */
  method Push<K, V>(t: array<Entry?<K, V>>, b: nat, e: Entry<K, V>, ghost chains: seq<seq<Entry<K, V>>>)
    requires Table(t, chains) && b < t.Length && e.home != t
    modifies t, e
    ensures Table(t, chains[b := [e] + chains[b]])
    ensures forall i :: 0 <= i < t.Length && i != b ==> t[i] == old(t[i])
    ensures e.home == t
  {
    assert Chain(t, b, chains[b]);
    e.next := t[b];
    t[b] := e;
    e.home, e.slot := t, b;
    ghost var chains' := chains[b := [e] + chains[b]];
    forall i | 0 <= i < |chains'| ensures Chain(t, i, chains'[i]) {
      assert old(Chain(t, i, chains[i]));
    }
  }

  /** Takes entry `p` out of a chain; `prev` is the entry before it, null at the head. */
  method Unlink<K, V>(t: array<Entry?<K, V>>, b: nat, prev: Entry?<K, V>, e: Entry<K, V>,
                      ghost p: nat, ghost chains: seq<seq<Entry<K, V>>>)
    requires Table(t, chains) && b < t.Length && p < |chains[b]| && e == chains[b][p]
    requires prev == if p == 0 then null else chains[b][p - 1]
    modifies t, prev, e
    ensures Table(t, chains[b := chains[b][..p] + chains[b][p + 1..]])
    ensures e.home == null && e.next == old(e.next)
  {
    hide Table;
    NotElsewhere(t, chains, b, p);
    if prev == null {
      UnlinkHead(t, b, chains[b]);
    } else {
      UnlinkAfter(t, b, prev, p, chains[b]);
    }
    e.home := null;
    ghost var chains' := chains[b := chains[b][..p] + chains[b][p + 1..]];
    assert Chain(t, b, chains'[b]);
    forall i | 0 <= i < |chains'| && i != b ensures Chain(t, i, chains'[i]) {
      assert old(Chain(t, i, chains[i]));
    }
    TableOf(t, chains');
  }

  lemma TableOf<K, V>(t: array<Entry?<K, V>>, chains: seq<seq<Entry<K, V>>>)
    requires |chains| == t.Length && forall b :: 0 <= b < |chains| ==> Chain(t, b, chains[b])
    ensures Table(t, chains)
  {
  }

  /** An entry of a chain is in no other chain, nor at another place of its own. */
  lemma NotElsewhere<K, V>(t: array<Entry?<K, V>>, chains: seq<seq<Entry<K, V>>>, b: nat, p: nat)
    requires Table(t, chains) && b < t.Length && p < |chains[b]|
    ensures |chains| == t.Length && forall i :: 0 <= i < |chains| ==> Chain(t, i, chains[i])
    ensures forall i, j :: 0 <= i < |chains| && 0 <= j < |chains[i]| && (i != b || j != p) ==>
              chains[i][j] != chains[b][p]
  {
    assert Chain(t, b, chains[b]);
    forall i, j | 0 <= i < |chains| && 0 <= j < |chains[i]| && (i != b || j != p)
      ensures chains[i][j] != chains[b][p]
    {
      assert Chain(t, i, chains[i]);
    }
  }

  method UnlinkHead<K, V>(t: array<Entry?<K, V>>, b: nat, ghost c: seq<Entry<K, V>>)
    requires b < t.Length && Chain(t, b, c) && c != []
    modifies t
    ensures Chain(t, b, c[1..]) && forall i :: 0 <= i < t.Length && i != b ==> t[i] == old(t[i])
  {
    var e := t[b];
    assert |c| > 1 ==> c[0].next == c[1];
    t[b] := e.next;
  }

  method UnlinkAfter<K, V>(t: array<Entry?<K, V>>, b: nat, prev: Entry<K, V>, ghost p: nat, ghost c: seq<Entry<K, V>>)
    requires b < t.Length && Chain(t, b, c) && 0 < p < |c| && prev == c[p - 1]
    modifies prev
    ensures Chain(t, b, c[..p] + c[p + 1..])
    ensures prev.home == old(prev.home) && prev.slot == old(prev.slot)
  {
    assert c[p - 1].next == c[p] && (p + 1 < |c| ==> c[p].next == c[p + 1]);
    prev.next := prev.next.next;
    ghost var r := c[..p] + c[p + 1..];
    assert forall j :: 0 <= j < |r| ==> r[j] == c[if j < p then j else j + 1];
    forall j | 0 <= j < |r| - 1 ensures r[j].next == r[j + 1] {
      assert j != p - 1 ==> r[j] != prev;
    }
    assert r[|r| - 1].next == null by {
      assert p + 1 < |c| ==> r[|r| - 1] == c[|c| - 1] != prev;
    }
  }

  /** A table of `n` empty chains. */
  function NoChains<K, V>(n: nat): (r: seq<seq<Entry<K, V>>>) {
    seq(n, _ => [])
  }

  lemma FlattenPop<T>(ss: seq<seq<T>>, i: nat)
    requires i < |ss| && ss[i] != [] && forall b :: 0 <= b < i ==> ss[b] == []
    ensures Flatten(ss) == [ss[i][0]] + Flatten(ss[i := ss[i][1..]])
  {
    FlattenSplit(ss, i);
    FlattenUpdate(ss, i, ss[i][1..]);
    FlattenEmpty(ss[..i]);
    assert ss[i] == [ss[i][0]] + ss[i][1..];
    var rest := Flatten(ss[i + 1..]);
    assert [] + ss[i] + rest == [ss[i][0]] + ([] + ss[i][1..] + rest);
  }

  /** The transfer of all entries into a new bucket array. */
  method Transfer<K, V>(t: array<Entry?<K, V>>, nt: array<Entry?<K, V>>, ghost chains: seq<seq<Entry<K, V>>>)
    returns (ghost moved: seq<seq<Entry<K, V>>>)
    requires Table(t, chains) && nt.Length > 0 && nt != t && Table(nt, NoChains(nt.Length))
    modifies t, nt, Cells(chains)
    ensures moved == Rehash(Flatten(chains), NoChains(nt.Length))
    ensures Table(nt, moved) && Cells(moved) <= Cells(chains)
  {
    hide Rehash;
    ghost var remaining := chains;
    moved := NoChains(nt.Length);
    for i := 0 to t.Length
      invariant Table(t, remaining) && Table(nt, moved)
      invariant forall b :: 0 <= b < i ==> remaining[b] == []
      invariant Cells(remaining) <= Cells(chains) && Cells(moved) <= Cells(chains)
      invariant Rehash(Flatten(remaining), moved) == Rehash(Flatten(chains), NoChains(nt.Length))
    {
      while t[i] != null
        invariant Table(t, remaining) && Table(nt, moved)
        invariant forall b :: 0 <= b < i ==> remaining[b] == []
        invariant Cells(remaining) <= Cells(chains) && Cells(moved) <= Cells(chains)
        invariant Rehash(Flatten(remaining), moved) == Rehash(Flatten(chains), NoChains(nt.Length))
        decreases |remaining[i]|
      {
        remaining, moved := TransferOne(t, nt, i, remaining, moved);
      }
      assert Chain(t, i, remaining[i]);
    }
    FlattenEmpty(remaining);
    RehashNothing(moved);
  }

  lemma RehashNothing<K, V>(chains: seq<seq<Entry<K, V>>>)
    requires |chains| > 0
    ensures Rehash([], chains) == chains
  {
  }

  method TransferOne<K, V>(t: array<Entry?<K, V>>, nt: array<Entry?<K, V>>, i: nat,
                           ghost chains: seq<seq<Entry<K, V>>>, ghost moved: seq<seq<Entry<K, V>>>)
    returns (ghost chains': seq<seq<Entry<K, V>>>, ghost moved': seq<seq<Entry<K, V>>>)
    requires Table(t, chains) && Table(nt, moved) && nt != t && nt.Length > 0 && i < t.Length && t[i] != null
    requires forall b :: 0 <= b < i ==> chains[b] == []
    modifies t, nt, t[i]
    ensures chains[i] != [] && chains' == chains[i := chains[i][1..]]
    ensures Table(t, chains') && Table(nt, moved')
    ensures Cells(chains') <= Cells(chains) && Cells(moved') <= Cells(moved) + {chains[i][0]}
    ensures Rehash(Flatten(chains'), moved') == Rehash(Flatten(chains), moved)
  {
    hide Rehash, Flatten, Chain, Table;
    HeadOf(t, chains, i);
    HeadOf(nt, moved, 0);
    var e := t[i];
    FlattenPop(chains, i);
    NotInTable(nt, moved, e);
    Unlink(t, i, null, e, 0, chains);
    assert chains[i][..0] + chains[i][1..] == chains[i][1..];
    chains' := chains[i := chains[i][1..]];
    assert Table(nt, moved);
    NotInTable(t, chains', e);
    var index := IndexFor(nt.Length, e.h);
    Push(nt, index, e, moved);
    moved' := moved[index := [e] + moved[index]];
    assert Table(t, chains');
    TransferCells(chains, i, moved, index, e);
    RehashStep(e, Flatten(chains'), moved);
  }

  lemma RehashStep<K, V>(e: Entry<K, V>, todo: seq<Entry<K, V>>, chains: seq<seq<Entry<K, V>>>)
    requires |chains| > 0
    ensures var i := IndexFor(|chains|, e.h);
            Rehash([e] + todo, chains) == Rehash(todo, chains[i := [e] + chains[i]])
  {
    assert ([e] + todo)[1..] == todo;
  }

  lemma TransferCells<K, V>(chains: seq<seq<Entry<K, V>>>, i: nat, moved: seq<seq<Entry<K, V>>>, index: nat,
                            e: Entry<K, V>)
    requires i < |chains| && chains[i] != [] && index < |moved|
    ensures Cells(chains[i := chains[i][1..]]) <= Cells(chains)
    ensures Cells(moved[index := [e] + moved[index]]) <= Cells(moved) + {e}
  {
    var chains' := chains[i := chains[i][1..]];
    forall b, j | 0 <= b < |chains'| && 0 <= j < |chains'[b]| ensures chains'[b][j] in Cells(chains) {
      assert chains'[b][j] == if b == i then chains[b][j + 1] else chains[b][j];
    }
    var moved' := moved[index := [e] + moved[index]];
    forall b, j | 0 <= b < |moved'| && 0 <= j < |moved'[b]| ensures moved'[b][j] in Cells(moved) + {e} {
      assert b == index && j > 0 ==> moved'[b][j] == moved[b][j - 1];
    }
  }

  // ---------------------------------------------------------------- growing in place

  /** One entry that has to move: out of the chain being walked, to the head of its own. */
  method MoveOne<K, V>(t: array<Entry?<K, V>>, i: nat, prev: Entry?<K, V>, e: Entry<K, V>,
                       ghost p: nat, ghost chains: seq<seq<Entry<K, V>>>)
    requires Table(t, chains) && i < t.Length && p < |chains[i]| && e == chains[i][p]
    requires prev == if p == 0 then null else chains[i][p - 1]
    requires IndexFor(t.Length, e.h) != i
    modifies t, Cells(chains)
    ensures Table(t, Moved(chains, i, p, IndexFor(t.Length, e.h)))
    ensures Cells(Moved(chains, i, p, IndexFor(t.Length, e.h))) <= Cells(chains)
  {
    hide Chain, Table;
    HeadOf(t, chains, i);
    var index := IndexFor(t.Length, e.h);
    MovedCells(chains, i, p, index);
    Unlink(t, i, prev, e, p, chains);
    ghost var unlinked := chains[i := chains[i][..p] + chains[i][p + 1..]];
    Push(t, index, e, unlinked);
  }

  lemma MovedCells<K, V>(chains: seq<seq<Entry<K, V>>>, i: nat, p: nat, t: nat)
    requires i < |chains| && t < |chains| && i != t && p < |chains[i]|
    ensures Cells(Moved(chains, i, p, t)) <= Cells(chains)
    ensures chains[i][p] in Cells(chains) && (p > 0 ==> chains[i][p - 1] in Cells(chains))
  {
    var r: seq<seq<Entry<K, V>>> := Moved(chains, i, p, t);
    forall b, j | 0 <= b < |r| && 0 <= j < |r[b]| ensures r[b][j] in Cells(chains) {
      assert r[b][j] ==
        if b == i then (if j < p then chains[i][j] else chains[i][j + 1])
        else if b == t then (if j == 0 then chains[i][p] else chains[t][j - 1])
        else chains[b][j];
    }
  }

  /** The rehash within the enlarged array `t`, whose first `oldlen` buckets are in use. */
  method Splice<K, V>(t: array<Entry?<K, V>>, oldlen: nat, ghost chains: seq<seq<Entry<K, V>>>)
    returns (ghost moved: seq<seq<Entry<K, V>>>)
    requires Table(t, chains) && 0 < oldlen <= t.Length
    modifies t, Cells(chains)
    ensures |chains| == t.Length && moved == Relocate(chains, 0, 0, oldlen)
    ensures Table(t, moved) && Cells(moved) <= Cells(chains)
  {
    hide Chain, Table;
    moved := chains;
    HeadOf(t, chains, 0);
    for i := 0 to oldlen
      invariant |moved| == t.Length && Table(t, moved) && Cells(moved) <= Cells(chains)
      invariant Relocate(moved, i, 0, oldlen) == Relocate(chains, 0, 0, oldlen)
    {
      moved := SpliceBucket(t, i, oldlen, moved);
    }
  }

  /** The walk over bucket `i`; `prev` stands for the address of the link to `e`. */
  method SpliceBucket<K, V>(t: array<Entry?<K, V>>, i: nat, oldlen: nat, ghost chains: seq<seq<Entry<K, V>>>)
    returns (ghost moved: seq<seq<Entry<K, V>>>)
    requires Table(t, chains) && |chains| == t.Length && i < oldlen <= t.Length
    modifies t, Cells(chains)
    ensures |moved| == t.Length && Table(t, moved) && Cells(moved) <= Cells(chains)
    ensures Relocate(moved, i + 1, 0, oldlen) == Relocate(chains, i, 0, oldlen)
  {
    hide Chain, Table, Moved;
    moved := chains;
    ghost var p := 0;
    var prev: Entry?<K, V> := null;
    HeadOf(t, moved, i);
    var e := t[i];
    while e != null
      invariant |moved| == t.Length && Table(t, moved) && Cells(moved) <= Cells(chains)
      invariant 0 <= p <= |moved[i]| && prev == (if p == 0 then null else moved[i][p - 1])
      invariant e == if p < |moved[i]| then moved[i][p] else null
      invariant Relocate(moved, i, p, oldlen) == Relocate(chains, i, 0, oldlen)
      decreases |moved[i]| - p
    {
      var index := IndexFor(t.Length, e.h);
      RelocateStep(moved, i, p, oldlen);
      if index == i {
        NextOf(t, moved, i, p);
        prev := e;
        e := e.next;
        p := p + 1;
      } else {
        MoveOne(t, i, prev, e, p, moved);
        ghost var before := moved;
        moved := Moved(moved, i, p, index);
        MovedAt(before, i, p, index);
        HeadOf(t, moved, i);
        if p > 0 {
          NextOf(t, moved, i, p - 1);
        }
        e := if prev == null then t[i] else prev.next;
      }
    }
    RelocateStep(moved, i, p, oldlen);
  }

  lemma RelocateStep<K, V>(chains: seq<seq<Entry<K, V>>>, i: nat, p: nat, oldlen: nat)
    requires i < oldlen <= |chains| && p <= |chains[i]|
    ensures p == |chains[i]| ==> Relocate(chains, i, p, oldlen) == Relocate(chains, i + 1, 0, oldlen)
    ensures p < |chains[i]| ==>
              var t := IndexFor(|chains|, chains[i][p].h);
              && (t == i ==> Relocate(chains, i, p, oldlen) == Relocate(chains, i, p + 1, oldlen))
              && (t != i ==>
                    && p <= |Moved(chains, i, p, t)[i]|
                    && Relocate(chains, i, p, oldlen) == Relocate(Moved(chains, i, p, t), i, p, oldlen))
  {
  }

  lemma MovedAt<K, V>(chains: seq<seq<Entry<K, V>>>, i: nat, p: nat, t: nat)
    requires i < |chains| && t < |chains| && i != t && p < |chains[i]|
    ensures Moved(chains, i, p, t)[i] == chains[i][..p] + chains[i][p + 1..]
  {
  }

  /** realloc: the buckets move to a larger array; the new ones are empty. */
  method Enlarge<K, V>(t: array<Entry?<K, V>>, n: nat, ghost chains: seq<seq<Entry<K, V>>>)
    returns (nt: array<Entry?<K, V>>)
    requires Table(t, chains) && t.Length <= n
    modifies Cells(chains)
    ensures fresh(nt) && nt.Length == n && Table(nt, chains + NoChains(n - t.Length))
    ensures Cells(chains + NoChains(n - t.Length)) <= Cells(chains)
  {
    hide Cells, NoChains;
    NoMoreCells(chains, n - t.Length);
    nt := new Entry?<K, V>[n](i requires 0 <= i < n reads t => if i < t.Length then t[i] else null);
    ghost var cells := Cells(chains);
    forall e: Entry<K, V> | e in cells {
      e.home := nt;
    }
    ghost var chains' := chains + NoChains(n - t.Length);
    forall b | 0 <= b < |chains'| ensures Chain(nt, b, chains'[b]) {
      if b < |chains| {
        assert old(Chain(t, b, chains[b]));
        assert chains'[b] == chains[b];
      }
    }
  }

  lemma NoMoreCells<K, V>(chains: seq<seq<Entry<K, V>>>, more: nat)
    ensures Cells(chains + NoChains(more)) <= Cells(chains)
    ensures |NoChains<K, V>(more)| == more && forall b :: 0 <= b < more ==> NoChains<K, V>(more)[b] == []
    ensures forall b, j :: 0 <= b < |chains| && 0 <= j < |chains[b]| ==> chains[b][j] in Cells(chains)
    ensures forall e: object :: e in Cells(chains) ==> e is Entry<K, V>
  {
    var larger: seq<seq<Entry<K, V>>> := chains + NoChains(more);
    forall b, j | 0 <= b < |larger| && 0 <= j < |larger[b]| ensures larger[b][j] in Cells(chains) {
      assert larger[b] == chains[b];
    }
  }

  lemma EmptyTable<K, V>(t: array<Entry?<K, V>>)
    requires forall b :: 0 <= b < t.Length ==> t[b] == null
    ensures Table(t, NoChains(t.Length))
  {
    forall b | 0 <= b < t.Length ensures Chain(t, b, NoChains<K, V>(t.Length)[b]) {
    }
  }

  // ---------------------------------------------------------------- what growing means

  /** The order in which the values of a key are found after the table has grown. */
  function Reordered<T>(growth: Growth, stays: bool, values: seq<T>): seq<T> {
    match growth
    case NoGrowth => values
    case IntoNewTable => Reverse(values)
    case InPlace => if stays then values else Reverse(values)
  }

  /** A hash value belongs into the same bucket before and after growing. */
  predicate Stays(h: nat, oldlen: nat, newlen: nat)
    requires oldlen > 0 && newlen > 0
  {
    IndexFor(oldlen, h) == IndexFor(newlen, h)
  }

  lemma SameEntriesArePlaced<K(!new), V>(chains: seq<seq<Entry<K, V>>>, grown: seq<seq<Entry<K, V>>>, hashfn: K -> nat)
    requires Placed(chains, hashfn) && |grown| > 0
    requires multiset(Flatten(grown)) == multiset(Flatten(chains))
    requires forall b, j :: 0 <= b < |grown| && 0 <= j < |grown[b]| ==> IndexFor(|grown|, grown[b][j].h) == b
    ensures Placed(grown, hashfn)
  {
    forall b, j | 0 <= b < |grown| && 0 <= j < |grown[b]| ensures grown[b][j].h == hashfn(grown[b][j].k) {
      var c, l := SameEntries(chains, grown, b, j);
    }
  }

  /** Moving all entries into a new table keeps them, and reverses the values of every key. */
  lemma RehashMeaning<K(!new), V>(chains: seq<seq<Entry<K, V>>>, hashfn: K -> nat, n: nat)
    requires |chains| > 0 && n > 0 && Placed(chains, hashfn)
    ensures var r := Rehash(Flatten(chains), NoChains(n));
            && Placed(r, hashfn)
            && |Flatten(r)| == |Flatten(chains)|
            && multiset(Flatten(r)) == multiset(Flatten(chains))
            && forall k :: Chains.Lookup(r, hashfn, k) == Reverse(Chains.Lookup(chains, hashfn, k))
  {
    hide Rehash, Flatten, Reverse, Values;
    var todo, none: seq<seq<Entry<K, V>>> := Flatten(chains), NoChains(n);
    var r := Rehash(todo, none);
    FlattenEmpty(none);
    RehashKeepsEntries(todo, none);
    RehashPlaces(todo, none);
    SameEntriesArePlaced(chains, r, hashfn);
    forall k ensures Chains.Lookup(r, hashfn, k) == Reverse(Chains.Lookup(chains, hashfn, k)) {
      RehashLookup(chains, hashfn, n, k);
    }
  }

  lemma RehashLookup<K(!new), V>(chains: seq<seq<Entry<K, V>>>, hashfn: K -> nat, n: nat, k: K)
    requires |chains| > 0 && n > 0 && Placed(chains, hashfn)
    ensures Chains.Lookup(Rehash(Flatten(chains), NoChains(n)), hashfn, k)
         == Reverse(Chains.Lookup(chains, hashfn, k))
  {
    hide Rehash, Reverse, Values, Flatten, Bound;
    var todo := Flatten(chains);
    var none: seq<seq<Entry<K, V>>> := NoChains(n);
    var from, to := IndexFor(|chains|, hashfn(k)), IndexFor(n, hashfn(k));
    RehashReverses(todo, none, to);
    forall j | 0 <= j < |todo| && todo[j].k == k ensures IndexFor(n, todo[j].h) == to {
      var b, l := FlattenOnly(chains, todo[j]);
    }
    ValuesOfBound(todo, n, to, k);
    ValuesReverse(Bound(todo, n, to), k);
    ValuesOfFlatten(chains, from, k);
    assert Reverse(Bound(todo, n, to)) + none[to] == Reverse(Bound(todo, n, to));
  }

  /** Growing in place keeps all entries, and reverses the values of the keys that change buckets. */
  lemma RelocateMeaning<K(!new), V>(chains: seq<seq<Entry<K, V>>>, hashfn: K -> nat, n: nat)
    requires 0 < |chains| <= n && Placed(chains, hashfn)
    ensures var r := Relocate(chains + NoChains(n - |chains|), 0, 0, |chains|);
            && Placed(r, hashfn)
            && |Flatten(r)| == |Flatten(chains)|
            && multiset(Flatten(r)) == multiset(Flatten(chains))
            && forall k :: Chains.Lookup(r, hashfn, k)
                 == Reordered(InPlace, Stays(hashfn(k), |chains|, n), Chains.Lookup(chains, hashfn, k))
  {
    hide Relocate, Flatten, Reverse, Values;
    var larger := chains + NoChains(n - |chains|);
    var r := Relocate(larger, 0, 0, |chains|);
    FlattenAppend(chains, NoChains(n - |chains|));
    FlattenEmpty(NoChains<K, V>(n - |chains|));
    assert Flatten(chains) + [] == Flatten(chains);
    assert forall b :: 0 <= b < |chains| ==> larger[b] == chains[b];
    RelocatePlaces(larger, 0, 0, |chains|);
    SameEntriesArePlaced(chains, r, hashfn);
    forall k ensures Chains.Lookup(r, hashfn, k)
        == Reordered(InPlace, Stays(hashfn(k), |chains|, n), Chains.Lookup(chains, hashfn, k)) {
      RelocateLookup(chains, hashfn, n, k);
    }
  }

  lemma RelocateLookup<K(!new), V>(chains: seq<seq<Entry<K, V>>>, hashfn: K -> nat, n: nat, k: K)
    requires 0 < |chains| <= n && Placed(chains, hashfn)
    requires Placed(Relocate(chains + NoChains(n - |chains|), 0, 0, |chains|), hashfn)
    ensures Chains.Lookup(Relocate(chains + NoChains(n - |chains|), 0, 0, |chains|), hashfn, k)
         == Reordered(InPlace, Stays(hashfn(k), |chains|, n), Chains.Lookup(chains, hashfn, k))
  {
    hide Relocate, Flatten, Values;
    var larger := chains + NoChains(n - |chains|);
    var r := Relocate(larger, 0, 0, |chains|);
    var from, to := IndexFor(|chains|, hashfn(k)), IndexFor(n, hashfn(k));
    assert forall b :: 0 <= b < |larger| ==> larger[b] == if b < |chains| then chains[b] else [];
    RelocateOrder(larger, 0, 0, |chains|, k, hashfn(k));
    if from != to {
      NoValues(r[from], k);
      NoValues(larger[to], k);
      assert Reverse<V>([]) + Values(r[to], k) == Values(r[to], k);
      assert Reverse(Values(larger[from], k)) + [] == Reverse(Values(larger[from], k));
    }
  }

  /** The order is not always reversed: a key with hash value 0 keeps it when 7 buckets grow to 23. */
  lemma OrderKept<K(!new), V>(first: Entry<K, V>, second: Entry<K, V>, hashfn: K -> nat)
    requires first.k == second.k && first.v != second.v
    requires first.h == second.h == hashfn(first.k) == 0
    ensures var k, chains := first.k, NoChains(7)[0 := [first, second]];
            var r := Relocate(chains + NoChains(16), 0, 0, 7);
            && Placed(chains, hashfn) && |r| == 23
            && Chains.Lookup(chains, hashfn, k) == [first.v, second.v]
            && Chains.Lookup(r, hashfn, k) == [first.v, second.v] != Reverse([first.v, second.v])
  {
    hide Relocate, Flatten, Reverse, Values;
    var k := first.k;
    var chains: seq<seq<Entry<K, V>>> := NoChains(7)[0 := [first, second]];
    RelocateMeaning(chains, hashfn, 23);
    ValuesAppend([first], [second], k);
    ValuesOne(first, k);
    ValuesOne(second, k);
    assert [first] + [second] == [first, second] && [first.v] + [second.v] == [first.v, second.v];
    ReverseSnoc([first.v], second.v);
    assert Reverse([first.v, second.v])[0] == second.v;
  }

  // ---------------------------------------------------------------- the two plans

  /** The entries are those of before, each in its bucket, and the values of each key are reordered. */
  ghost predicate Grown<K(!new), V>(chains: seq<seq<Entry<K, V>>>, grown: seq<seq<Entry<K, V>>>,
                                    hashfn: K -> nat, growth: Growth)
  {
    && |chains| > 0 && |grown| > 0
    && Placed(grown, hashfn)
    && |Flatten(grown)| == |Flatten(chains)|
    && multiset(Flatten(grown)) == multiset(Flatten(chains))
    && forall k :: Chains.Lookup(grown, hashfn, k)
         == Reordered(growth, Stays(hashfn(k), |chains|, |grown|), Chains.Lookup(chains, hashfn, k))
  }

  /** The first plan: all entries into a new bucket array. */
  method GrowFresh<K(!new), V>(t: array<Entry?<K, V>>, n: nat, ghost chains: seq<seq<Entry<K, V>>>,
                               ghost hashfn: K -> nat)
    returns (nt: array<Entry?<K, V>>, ghost moved: seq<seq<Entry<K, V>>>)
    requires Table(t, chains) && t.Length > 0 && n > 0 && Placed(chains, hashfn)
    modifies t, Cells(chains)
    ensures fresh(nt) && nt.Length == n && Table(nt, moved) && Cells(moved) <= Cells(chains)
    ensures moved == Rehash(Flatten(chains), NoChains(n)) && Grown(chains, moved, hashfn, IntoNewTable)
  {
    hide Chain, Table, Rehash, Flatten, Placed, Stays;
    HeadOf(t, chains, 0);
    RehashMeaning(chains, hashfn, n);
    nt := new Entry?<K, V>[n](_ => null);
    EmptyTable(nt);
    moved := Transfer(t, nt, chains);
  }

  /** The second plan: the rehash within the enlarged bucket array. */
  method GrowInPlace<K(!new), V>(t: array<Entry?<K, V>>, n: nat, ghost chains: seq<seq<Entry<K, V>>>,
                                 ghost hashfn: K -> nat)
    returns (nt: array<Entry?<K, V>>, ghost moved: seq<seq<Entry<K, V>>>)
    requires Table(t, chains) && 0 < t.Length == |chains| <= n && Placed(chains, hashfn)
    modifies Cells(chains)
    ensures fresh(nt) && nt.Length == n && Table(nt, moved) && Cells(moved) <= Cells(chains)
    ensures moved == Relocate(chains + NoChains(n - |chains|), 0, 0, |chains|)
    ensures Grown(chains, moved, hashfn, InPlace)
  {
    hide Chain, Table, Relocate, Placed, Flatten, Stays, Reordered;
    RelocateMeaning(chains, hashfn, n);
    nt := Enlarge(t, n, chains);
    moved := Splice(nt, t.Length, chains + NoChains(n - t.Length));
  }

  // ---------------------------------------------------------------- the table

  lemma PrimesGrow(i: nat)
    requires i < PRIME_COUNT - 1
    ensures Prime(i) + 2 <= Prime(i + 1) && LoadLimit(Prime(i)) < LoadLimit(Prime(i + 1))
  {
    assert || i == 0 || i == 1 || i == 2 || i == 3 || i == 4 || i == 5 || i == 6 || i == 7 || i == 8
           || i == 9 || i == 10 || i == 11 || i == 12 || i == 13 || i == 14 || i == 15 || i == 16 || i == 17
           || i == 18 || i == 19 || i == 20 || i == 21 || i == 22 || i == 23 || i == 24 || i == 25 || i == 26;
    assert Prime(i) + 2 <= Prime(i + 1);
  }

  /** Every size is one of these 28; as they increase, each of them is a size. */
  lemma SizesAreListed(i: nat)
    requires i < PRIME_COUNT
    ensures PRIME_COUNT == 28 && Prime(i) in {
              7, 23, 53, 97, 193, 389, 769, 1543, 3079, 6151, 12289, 24593, 49157, 98317, 196613, 393241, 786433,
              1572869, 3145739, 6291469, 12582917, 25165843, 50331653, 100663319, 201326611, 402653189, 805306457,
              1610612741}
  {
    assert || i == 0 || i == 1 || i == 2 || i == 3 || i == 4 || i == 5 || i == 6 || i == 7 || i == 8 || i == 9
           || i == 10 || i == 11 || i == 12 || i == 13 || i == 14 || i == 15 || i == 16 || i == 17 || i == 18
           || i == 19 || i == 20 || i == 21 || i == 22 || i == 23 || i == 24 || i == 25 || i == 26 || i == 27;
  }

  class Hashtable<K(==,!new), V> {
    var table: array<Entry?<K, V>>
    var tablelength: nat
    var entrycount: nat
    var loadlimit: nat
    var primeindex: nat
    const hashfn: K -> nat

    ghost var chains: seq<seq<Entry<K, V>>>

    ghost predicate Valid()
      reads this, table, Cells(chains)
    {
      && primeindex < PRIME_COUNT && tablelength == Prime(primeindex) && loadlimit == LoadLimit(tablelength)
      && table.Length == tablelength == |chains| && tablelength > 0
      && Table(table, chains) && Placed(chains, hashfn)
      && entrycount == |Flatten(chains)|
    }

    /** The values bound to a key, the one that is found first. */
    ghost function Lookup(k: K): seq<V>
      requires |chains| > 0
      reads this
    {
      Chains.Lookup(chains, hashfn, k)
    }

    constructor Sized(size: nat, pindex: nat, hashfn: K -> nat)
      requires pindex < PRIME_COUNT && size == Prime(pindex) > 0
      ensures Valid() && fresh(table) && this.hashfn == hashfn && tablelength == size
      ensures chains == NoChains(size) && entrycount == 0 && Cells(chains) == {}
    {
      this.hashfn := hashfn;
      table := new Entry?<K, V>[size](_ => null);
      tablelength, primeindex, entrycount, loadlimit := size, pindex, 0, LoadLimit(size);
      chains := NoChains(size);
      new;
      FlattenEmpty(chains);
    }

    /** create_hashtable: the smallest prime above the wanted size, up to 2^30. */
    static method Create(minsize: nat, hashfn: K -> nat) returns (h: Hashtable?<K, V>)
      ensures h == null <==> minsize > 0x4000_0000
      ensures h != null ==>
                && fresh(h) && fresh(h.table) && h.Valid() && h.hashfn == hashfn && minsize < h.tablelength
                && (forall i :: 0 <= i < PRIME_COUNT && Prime(i) < h.tablelength ==> Prime(i) <= minsize)
                && h.entrycount == 0 && Cells(h.chains) == {} && (forall k :: h.Lookup(k) == [])
    {
      if minsize > 0x4000_0000 {
        return null;
      }
      var size, pindex := Prime(0), 0;
      assert Prime(27) > 0x4000_0000;
      while pindex < PRIME_COUNT
        invariant pindex <= 27
        invariant forall i :: 0 <= i < pindex ==> Prime(i) <= minsize
      {
        if Prime(pindex) > minsize {
          size := Prime(pindex);
          break;
        }
        pindex := pindex + 1;
      }
      PrimesIncrease(pindex);
      h := new Hashtable<K, V>.Sized(size, pindex, hashfn);
    }

    /** hashtable_expand */
    method Expand(memory: Memory) returns (growth: Growth)
      requires Valid()
      modifies this, table, Cells(chains)
      ensures Valid() && (table == old(table) || fresh(table)) && Cells(chains) <= old(Cells(chains))
      ensures growth == if old(primeindex) == PRIME_COUNT - 1 || memory.Exhausted? then NoGrowth
                        else if memory.Plenty? then IntoNewTable else InPlace
      ensures entrycount == old(entrycount) && multiset(Flatten(chains)) == old(multiset(Flatten(chains)))
      ensures growth == NoGrowth ==>
                chains == old(chains) && tablelength == old(tablelength) && primeindex == old(primeindex)
      ensures growth != NoGrowth ==> primeindex == old(primeindex) + 1
      ensures old(tablelength) > 0 && tablelength > 0
      ensures forall k :: Lookup(k) ==
                Reordered(growth, Stays(hashfn(k), old(tablelength), tablelength), old(Lookup(k)))
    {
      hide Table, Chain, Rehash, Relocate, Flatten, Values, Reverse, Placed, Stays, Prime;
      if primeindex == PRIME_COUNT - 1 {
        return NoGrowth;
      }
      match memory
      case Exhausted =>
        growth := NoGrowth;
      case Plenty =>
        ExpandFresh();
        growth := IntoNewTable;
      case OnlyRealloc =>
        ExpandInPlace();
        growth := InPlace;
    }

    /** The first plan: a new bucket array. */
    method ExpandFresh()
      requires Valid() && primeindex < PRIME_COUNT - 1
      modifies this, table, Cells(chains)
      ensures Valid() && fresh(table) && Cells(chains) <= old(Cells(chains))
      ensures primeindex == old(primeindex) + 1 && entrycount == old(entrycount)
      ensures Grown(old(chains), chains, hashfn, IntoNewTable)
    {
      hide Table, Chain, Rehash, Flatten, Placed, Reordered, Stays, Prime, Values;
      HeadOf(table, chains, 0);
      PrimesGrow(primeindex);
      var newsize := Prime(primeindex + 1);
      table, chains := GrowFresh(table, newsize, chains, hashfn);
      primeindex, tablelength, loadlimit := primeindex + 1, newsize, LoadLimit(newsize);
    }

    /** The second plan: the old bucket array, enlarged. */
    method ExpandInPlace()
      requires Valid() && primeindex < PRIME_COUNT - 1
      modifies this, table, Cells(chains)
      ensures Valid() && fresh(table) && Cells(chains) <= old(Cells(chains))
      ensures primeindex == old(primeindex) + 1 && entrycount == old(entrycount)
      ensures Grown(old(chains), chains, hashfn, InPlace)
    {
      hide Table, Chain, Relocate, Flatten, Placed, Reordered, Stays, Prime, Values;
      HeadOf(table, chains, 0);
      PrimesGrow(primeindex);
      var newsize := Prime(primeindex + 1);
      table, chains := GrowInPlace(table, newsize, chains, hashfn);
      primeindex, tablelength, loadlimit := primeindex + 1, newsize, LoadLimit(newsize);
    }

    /** hashtable_insert; a failed allocation of the entry itself is not part of the model. */
    method Insert(k: K, v: V, memory: Memory) returns (growth: Growth)
      requires Valid()
      modifies this, table, Cells(chains)
      ensures Valid() && (table == old(table) || fresh(table)) && fresh(Cells(chains) - old(Cells(chains)))
      ensures entrycount == old(entrycount) + 1
      ensures old(tablelength) > 0 && tablelength > 0
      ensures forall k' :: Lookup(k') ==
                (if k' == k then [v] else [])
                + Reordered(growth, Stays(hashfn(k'), old(tablelength), tablelength), old(Lookup(k')))
      ensures growth != NoGrowth <==>
                100 * old(entrycount) >= 65 * old(tablelength) && old(tablelength) < 1610612741 && !memory.Exhausted?
      ensures old(100 * (entrycount - 1) < 65 * tablelength || tablelength == 1610612741) && !memory.Exhausted? ==>
                100 * (entrycount - 1) < 65 * tablelength || tablelength == 1610612741
    {
      hide Table, Chain, Rehash, Relocate, Flatten, Values, Reverse, Stays, Prime;
      growth := NoGrowth;
      LoadFactor(tablelength, entrycount);
      LargestPrime(primeindex);
      if entrycount + 1 > loadlimit {
        if primeindex < PRIME_COUNT - 1 {
          PrimesGrow(primeindex);
        }
        growth := Expand(memory);
      }
      LoadFactor(tablelength, entrycount);
      LargestPrime(primeindex);
      HeadOf(table, chains, 0);
      label expanded:
      AddEntry(k, v);
      assert forall k' :: Lookup(k') == (if k' == k then [v] else []) + old@expanded(Lookup(k'));
    }

    /** The entry goes to the head of its chain. */
    method AddEntry(k: K, v: V)
      requires Valid()
      modifies this`entrycount, this`chains, table
      ensures Valid() && |chains| > 0 && |old(chains)| > 0 && entrycount == old(entrycount) + 1
      ensures fresh(Cells(chains) - old(Cells(chains)))
      ensures forall k' :: Lookup(k') == (if k' == k then [v] else []) + old(Lookup(k'))
    {
      hide Table, Chain, Flatten, Values, Prime;
      HeadOf(table, chains, 0);
      ghost var cells := Cells(chains);
      var e := new Entry<K, V>(k, v, hashfn(k));
      assert e !in cells;
      var index := IndexFor(tablelength, e.h);
      Push(table, index, e, chains);
      FlattenPush(chains, index, e);
      PushedCells(chains, index, e);
      PushedLookup(chains, hashfn, index, e);
      chains := chains[index := [e] + chains[index]];
      entrycount := entrycount + 1;
    }

    /** hashtable_search */
    method Search(k: K) returns (r: Option<V>)
      requires Valid()
      ensures r == if Lookup(k) == [] then None else Some(Lookup(k)[0])
    {
      hide Table, Chain, Flatten, Placed, Prime;
      HeadOf(table, chains, 0);
      var hashvalue := hashfn(k);
      var index := IndexFor(tablelength, hashvalue);
      HeadOf(table, chains, index);
      var e := table[index];
      ghost var j := 0;
      while e != null
        invariant Valid() && |chains| == tablelength
        invariant 0 <= j <= |chains[index]| && e == if j < |chains[index]| then chains[index][j] else null
        invariant Values(chains[index], k) == Values(chains[index][j..], k)
        decreases |chains[index]| - j
      {
        NextOf(table, chains, index, j);
        HashOf(chains, hashfn, index, j);
        if hashvalue == e.h && k == e.k {
          return Some(e.v);
        }
        assert chains[index][j..][1..] == chains[index][j + 1..];
        e := e.next;
        j := j + 1;
      }
      return None;
    }

    /** hashtable_remove: takes out the entry that a search would find. */
    method Remove(k: K) returns (r: Option<V>)
      requires Valid()
      modifies this`entrycount, this`chains, table, Cells(chains)
      ensures Valid() && Cells(chains) <= old(Cells(chains))
      ensures |old(chains)| > 0
      ensures r == (if old(Lookup(k)) == [] then None else Some(old(Lookup(k))[0]))
      ensures entrycount == old(entrycount) - (if r.None? then 0 else 1)
      ensures chains == Removed(old(chains), hashfn, k)
      ensures forall k' :: Lookup(k') == if k' == k && r.Some? then old(Lookup(k))[1..] else old(Lookup(k'))
    {
      hide Table, Chain, Flatten, Placed, Values, Prime;
      HeadOf(table, chains, 0);
      var hashvalue := hashfn(k);
      var index := IndexFor(tablelength, hashvalue);
      HeadOf(table, chains, index);
      var prev: Entry?<K, V> := null;
      var e := table[index];
      ghost var p := 0;
      while e != null
        invariant Valid() && |chains| == tablelength && chains == old(chains) && entrycount == old(entrycount)
        invariant 0 <= p <= |chains[index]| && prev == (if p == 0 then null else chains[index][p - 1])
        invariant e == if p < |chains[index]| then chains[index][p] else null
        invariant forall j :: 0 <= j < p ==> chains[index][j].k != k
        decreases |chains[index]| - p
      {
        NextOf(table, chains, index, p);
        HashOf(chains, hashfn, index, p);
        if hashvalue == e.h && k == e.k {
          r := Some(e.v);
          FirstIndexIs(chains[index], k, p);
          TakeOut(index, prev, e, p);
          return r;
        }
        prev := e;
        e := e.next;
        p := p + 1;
      }
      NoValues(chains[index], k);
      FirstIndexIs(chains[index], k, p);
      return None;
    }

    /** Takes entry `p` out of a chain and counts it off. */
    method TakeOut(b: nat, prev: Entry?<K, V>, e: Entry<K, V>, ghost p: nat)
      requires Valid() && b < tablelength && |chains| == tablelength && p < |chains[b]| && e == chains[b][p]
      requires prev == if p == 0 then null else chains[b][p - 1]
      modifies this`entrycount, this`chains, table, Cells(chains)
      ensures Valid() && Cells(chains) <= old(Cells(chains))
      ensures entrycount == old(entrycount) - 1 && e.next == old(e.next)
      ensures chains == old(chains)[b := old(chains)[b][..p] + old(chains)[b][p + 1..]]
      ensures (forall j :: 0 <= j < p ==> old(chains)[b][j].k != e.k) ==>
                && old(Lookup(e.k)) != [] && old(Lookup(e.k))[0] == e.v
                && (forall k' :: Lookup(k') == if k' == e.k then old(Lookup(e.k))[1..] else old(Lookup(k')))
    {
      hide Table, Chain, Flatten, Values, Prime;
      UnlinkedCells(chains, b, p);
      Unlink(table, b, prev, e, p, chains);
      FlattenUpdate(chains, b, chains[b][..p] + chains[b][p + 1..]);
      UnlinkedLookup(chains, hashfn, b, p);
      chains := chains[b := chains[b][..p] + chains[b][p + 1..]];
      entrycount := entrycount - 1;
    }
  }

  /** The limit lets in entries as long as less than 65 percent are taken. */
  lemma LoadFactor(size: nat, count: nat)
    ensures count + 1 > LoadLimit(size) <==> 100 * count >= 65 * size
  {
  }

  lemma LargestPrime(i: nat)
    requires i < PRIME_COUNT
    ensures Prime(i) == 1610612741 <==> i == PRIME_COUNT - 1
    ensures Prime(i) <= 1610612741
  {
    PrimesIncrease(i);
    if i < PRIME_COUNT - 1 {
      PrimesGrow(i);
      PrimesIncrease(i + 1);
    }
  }

  lemma HashOf<K(!new), V>(chains: seq<seq<Entry<K, V>>>, hashfn: K -> nat, b: nat, j: nat)
    requires Placed(chains, hashfn) && b < |chains|
    ensures j < |chains[b]| ==> chains[b][j].h == hashfn(chains[b][j].k)
  {
  }

  lemma PushedCells<K, V>(chains: seq<seq<Entry<K, V>>>, b: nat, e: Entry<K, V>)
    requires b < |chains|
    ensures Cells(chains[b := [e] + chains[b]]) <= Cells(chains) + {e}
  {
    var r: seq<seq<Entry<K, V>>> := chains[b := [e] + chains[b]];
    forall c, j | 0 <= c < |r| && 0 <= j < |r[c]| ensures r[c][j] in Cells(chains) + {e} {
      assert c == b && j > 0 ==> r[c][j] == chains[c][j - 1];
    }
  }

  lemma UnlinkedCells<K, V>(chains: seq<seq<Entry<K, V>>>, b: nat, p: nat)
    requires b < |chains| && p < |chains[b]|
    ensures Cells(chains[b := chains[b][..p] + chains[b][p + 1..]]) <= Cells(chains)
    ensures chains[b][p] in Cells(chains) && (p > 0 ==> chains[b][p - 1] in Cells(chains))
  {
    var r := chains[b := chains[b][..p] + chains[b][p + 1..]];
    forall c, j | 0 <= c < |r| && 0 <= j < |r[c]| ensures r[c][j] in Cells(chains) {
      assert r[c][j] == chains[c][if c == b && j >= p then j + 1 else j];
    }
  }

  lemma PushedLookup<K(!new), V>(chains: seq<seq<Entry<K, V>>>, hashfn: K -> nat, b: nat, e: Entry<K, V>)
    requires |chains| > 0 && Placed(chains, hashfn) && e.h == hashfn(e.k) && b == IndexFor(|chains|, e.h)
    ensures var r := chains[b := [e] + chains[b]];
            && Placed(r, hashfn)
            && forall k :: Chains.Lookup(r, hashfn, k)
                 == (if k == e.k then [e.v] else []) + Chains.Lookup(chains, hashfn, k)
  {
    var r: seq<seq<Entry<K, V>>> := chains[b := [e] + chains[b]];
    forall c, j | 0 <= c < |r| && 0 <= j < |r[c]|
      ensures r[c][j].h == hashfn(r[c][j].k) && r[c][j].h % |r| == c
    {
      assert c == b && j > 0 ==> r[c][j] == chains[c][j - 1];
    }
    forall k
      ensures Chains.Lookup(r, hashfn, k) == (if k == e.k then [e.v] else []) + Chains.Lookup(chains, hashfn, k)
    {
      ValuesAppend([e], chains[b], k);
      ValuesOne(e, k);
    }
  }

  lemma UnlinkedPlaced<K(!new), V>(chains: seq<seq<Entry<K, V>>>, hashfn: K -> nat, b: nat, p: nat)
    requires b < |chains| && p < |chains[b]| && Placed(chains, hashfn)
    ensures Placed(chains[b := chains[b][..p] + chains[b][p + 1..]], hashfn)
  {
    var r: seq<seq<Entry<K, V>>> := chains[b := chains[b][..p] + chains[b][p + 1..]];
    forall c, j | 0 <= c < |r| && 0 <= j < |r[c]|
      ensures r[c][j].h == hashfn(r[c][j].k) && r[c][j].h % |r| == c
    {
      assert r[c][j] == chains[c][if c == b && j >= p then j + 1 else j];
    }
  }

  /** The values of a chain without its entry `p`. */
  lemma UnlinkedValues<K, V>(chain: seq<Entry<K, V>>, p: nat, k: K)
    requires p < |chain| && forall j :: 0 <= j < p ==> chain[j].k != chain[p].k
    ensures var r := Values(chain[..p] + chain[p + 1..], k);
            if k == chain[p].k then Values(chain, k) == [chain[p].v] + r else Values(chain, k) == r
  {
    hide Values;
    var e, before, after := chain[p], chain[..p], chain[p + 1..];
    assert chain == before + ([e] + after);
    ValuesAppend(before, [e] + after, k);
    ValuesAppend([e], after, k);
    ValuesAppend(before, after, k);
    ValuesOne(e, k);
    var earlier, later := Values(before, k), Values(after, k);
    assert Values(chain, k) == earlier + ((if k == e.k then [e.v] else []) + later);
    if k == e.k {
      NoValues(before, k);
      assert [] + later == later && [] + ([e.v] + later) == [e.v] + later;
    } else {
      assert [] + later == later;
    }
  }

  lemma UnlinkedLookup<K(!new), V>(chains: seq<seq<Entry<K, V>>>, hashfn: K -> nat, b: nat, p: nat)
    requires b < |chains| && p < |chains[b]| && Placed(chains, hashfn)
    ensures var r := chains[b := chains[b][..p] + chains[b][p + 1..]]; var e := chains[b][p];
            && Placed(r, hashfn)
            && ((forall j :: 0 <= j < p ==> chains[b][j].k != e.k) ==>
                  && Chains.Lookup(chains, hashfn, e.k) != []
                  && Chains.Lookup(chains, hashfn, e.k)[0] == e.v
                  && forall k :: Chains.Lookup(r, hashfn, k)
                       == if k == e.k then Chains.Lookup(chains, hashfn, k)[1..] else Chains.Lookup(chains, hashfn, k))
  {
    hide Values;
    UnlinkedPlaced(chains, hashfn, b, p);
    if forall j :: 0 <= j < p ==> chains[b][j].k != chains[b][p].k {
      assert b == IndexFor(|chains|, hashfn(chains[b][p].k));
      forall k {
        UnlinkedValues(chains[b], p, k);
      }
    }
  }

  lemma {:induction false} PrimesIncrease(i: nat)
    requires i < PRIME_COUNT
    ensures Prime(i) > 0 && forall j :: i <= j < PRIME_COUNT ==> Prime(i) <= Prime(j)
    decreases PRIME_COUNT - i
  {
    if i < PRIME_COUNT - 1 {
      PrimesGrow(i);
      PrimesIncrease(i + 1);
    }
  }
}
