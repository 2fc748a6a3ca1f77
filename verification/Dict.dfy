/**
 The power-of-two hash table of hiredis/dict.c: at most one entry per key, a rehash that stops as soon as
 every entry has moved, and an iterator that survives the deletion of the entry it has just returned.
 */
module Dicts {
  import opened Options
  import opened Chains
  import opened Hashtables
  import opened HashtableIterators

  const DICT_HT_INITIAL_SIZE: nat := 4

  // ---------------------------------------------------------------- powers of two

  /** Bitwise and. */
  function And(a: nat, b: nat): nat {
    if a == 0 || b == 0 then 0
    else 2 * And(a / 2, b / 2) + if a % 2 == 1 && b % 2 == 1 then 1 else 0
  }

  predicate PowerOfTwo(n: nat) {
    n == 1 || (n > 0 && n % 2 == 0 && PowerOfTwo(n / 2))
  }

  /** Masking with `size - 1` is the remainder of the division by `size`. */
  lemma {:induction false} MaskIsModulo(h: nat, size: nat)
    requires PowerOfTwo(size)
    ensures And(h, size - 1) == h % size
  {
    if size > 1 {
      var half := size / 2;
      MaskIsModulo(h / 2, half);
      assert (size - 1) / 2 == half - 1;
      HalfModulo(h, half);
    }
  }

  lemma HalfModulo(h: nat, half: nat)
    requires half > 0
    ensures h % (2 * half) == 2 * (h / 2 % half) + h % 2
  {
    var q, r := h / 2 / half, h / 2 % half;
    assert h / 2 == half * q + r;
    assert h == 2 * half * q + (2 * r + h % 2);
    RemainderIs(h, 2 * half, q, 2 * r + h % 2);
  }

  lemma {:induction false} PowersApart(a: nat, b: nat)
    requires PowerOfTwo(a) && PowerOfTwo(b)
    ensures a < b ==> 2 * a <= b
    decreases a
  {
    if 1 < a < b {
      PowersApart(a / 2, b / 2);
    }
  }

  /** _dictNextPower */
  method NextPower(size: nat) returns (i: nat)
    ensures PowerOfTwo(i) && 4 <= i && size <= i
    ensures i > 4 ==> i / 2 < size
  {
    i := DICT_HT_INITIAL_SIZE;
    while true
      invariant PowerOfTwo(i) && DICT_HT_INITIAL_SIZE <= i
      invariant i > DICT_HT_INITIAL_SIZE ==> i / 2 < size
      decreases size - i
    {
      if i >= size {
        return i;
      }
      i := i * 2;
    }
  }

  // ---------------------------------------------------------------- the rehash

  /** The value field of an entry, which dictReplace overwrites. */
  class ValueCell<K, V> {
    ghost const key: K
    var val: V

    constructor (ghost key: K, val: V)
      ensures this.key == key && this.val == val
    {
      this.key, this.val := key, val;
    }
  }

  /** The chains from bucket `i` on, which the rehash has not reached yet. */
  ghost predicate Intact<K, V>(t: array<Entry?<K, V>>, chains: seq<seq<Entry<K, V>>>, i: nat)
    reads t, Cells(chains)
  {
    |chains| == t.Length && forall b :: i <= b < |chains| ==> Chain(t, b, chains[b])
  }

  /** The part of chain `c` from `p` on, which starts at `he`. */
  ghost predicate Tail<K, V>(t: object, b: nat, c: seq<Entry<K, V>>, p: nat, he: Entry?<K, V>)
    reads c
  {
    && p <= |c| && he == (if p < |c| then c[p] else null)
    && (forall j :: p <= j < |c| - 1 ==> c[j].next == c[j + 1])
    && (p < |c| ==> c[|c| - 1].next == null)
    && (forall j :: p <= j < |c| ==> c[j].home == t && c[j].slot == b)
    && (forall j, l :: 0 <= j < l < |c| ==> c[j] != c[l])
  }

  /** One entry moves to the head of its new chain; the old bucket array is left as it is. */
  method MoveEntry<K, V>(t: array<Entry?<K, V>>, ghost i: nat, nt: array<Entry?<K, V>>, index: nat, he: Entry<K, V>,
                         ghost p: nat, ghost chains: seq<seq<Entry<K, V>>>, ghost moved: seq<seq<Entry<K, V>>>)
    returns (nextHe: Entry?<K, V>)
    requires t != nt && i < |chains| && Intact(t, chains, i + 1) && Table(nt, moved) && index < nt.Length
    requires Tail(t, i, chains[i], p, he)
    modifies nt, he
    ensures Intact(t, chains, i + 1) && Table(nt, moved[index := [he] + moved[index]])
    ensures Tail(t, i, chains[i], p + 1, nextHe)
  {
    hide Table;
    nextHe := he.next;
    NotInLaterChains(t, chains, i, he);
    Push(nt, index, he, moved);
    assert forall b :: i < b < |chains| ==> Chain(t, b, chains[b]);
  }

  lemma NotInLaterChains<K, V>(t: array<Entry?<K, V>>, chains: seq<seq<Entry<K, V>>>, i: nat, e: Entry<K, V>)
    requires Intact(t, chains, i + 1) && e.slot == i
    ensures forall b, j :: i < b < |chains| && 0 <= j < |chains[b]| ==> chains[b][j] != e
  {
    forall b, j | i < b < |chains| && 0 <= j < |chains[b]| ensures chains[b][j] != e {
      assert Chain(t, b, chains[b]);
    }
  }

  lemma RestOfChain<K, V>(chains: seq<seq<Entry<K, V>>>, i: nat, p: nat)
    requires i < |chains|
    ensures p < |chains[i]| ==> Ahead(chains, i, p) == [chains[i][p]] + Ahead(chains, i, p + 1)
    ensures Ahead(chains, i, |chains[i]|) == Flatten(chains[i + 1..])
    ensures Ahead(chains, i, 0) == Flatten(chains[i..])
  {
    if p < |chains[i]| {
      StepOver(chains, i, p);
    }
    assert chains[i][|chains[i]|..] == [] && chains[i][0..] == chains[i];
    assert chains[i..][0] == chains[i] && chains[i..][1..] == chains[i + 1..];
  }

  lemma MovedCellsGrow<K, V>(chains: seq<seq<Entry<K, V>>>, i: nat, p: nat, moved: seq<seq<Entry<K, V>>>, index: nat)
    requires i < |chains| && p < |chains[i]| && index < |moved| && Cells(moved) <= Cells(chains)
    ensures Cells(moved[index := [chains[i][p]] + moved[index]]) <= Cells(chains)
    ensures chains[i][p] in Cells(chains)
  {
    PushedCells(moved, index, chains[i][p]);
  }

  /** A dictionary; its bucket array does not exist while its size is 0. */
  class Dict<K(==,!new), V> {
    var table: array?<Entry?<K, ValueCell<K, V>>>
    var size: nat
    var sizemask: nat
    var used: nat
    const hashfn: K -> nat

    ghost var chains: seq<seq<Entry<K, ValueCell<K, V>>>>

    /** What the entries bind to a key. */
    ghost function Binding(k: K): seq<ValueCell<K, V>>
      reads this
    {
      if chains == [] then [] else Chains.Lookup(chains, hashfn, k)
    }

    /** What the dictionary says about a key. */
    ghost function Lookup(k: K): Option<V>
      reads this, Binding(k)
    {
      if Binding(k) == [] then None else Some(Binding(k)[0].val)
    }

    /** No key has two entries, and the entries of different keys do not share their value field. */
    ghost predicate Distinct()
      reads this
    {
      forall k :: |Binding(k)| <= 1 && (Binding(k) != [] ==> Binding(k)[0].key == k)
    }

    ghost predicate Buckets()
      reads this, table, Cells(chains)
    {
      if size == 0 then table == null && chains == []
      else
        && PowerOfTwo(size) && DICT_HT_INITIAL_SIZE <= size
        && table != null && table.Length == size == |chains|
        && Table(table, chains) && Placed(chains, hashfn)
    }

    ghost predicate Valid()
      reads this, table, Cells(chains)
    {
      && Buckets() && Distinct()
      && sizemask == (if size == 0 then 0 else size - 1)
      && used == |Flatten(chains)| <= size
    }

    /** dictCreate */
    constructor (hashfn: K -> nat)
      ensures Valid() && this.hashfn == hashfn && size == 0 && chains == []
      ensures forall k :: Lookup(k) == None
    {
      this.hashfn := hashfn;
      table, size, sizemask, used, chains := null, 0, 0, 0, [];
    }

    /** The walk over one bucket of the old array. */
    method MoveBucket(t: array<Entry?<K, ValueCell<K, V>>>, i: nat, nt: array<Entry?<K, ValueCell<K, V>>>,
                      ghost moved: seq<seq<Entry<K, ValueCell<K, V>>>>)
      returns (ghost moved': seq<seq<Entry<K, ValueCell<K, V>>>>)
      requires t != nt && i < t.Length && Intact(t, chains, i) && Placed(chains, hashfn)
      requires PowerOfTwo(nt.Length) && Table(nt, moved) && Cells(moved) <= Cells(chains)
      requires used == |Flatten(chains[i..])|
      modifies `used, nt, Cells(chains)
      ensures Intact(t, chains, i + 1) && Table(nt, moved') && Cells(moved') <= Cells(chains)
      ensures used == |Flatten(chains[i + 1..])|
      ensures nt.Length > 0 && |moved| == |moved'| == nt.Length
      ensures Rehash(Flatten(chains[i + 1..]), moved') == Rehash(Flatten(chains[i..]), moved)
    {
      hide Table, Rehash, Flatten, Placed, Ahead;
      moved' := moved;
      ghost var p := 0;
      assert Chain(t, i, chains[i]);
      var he := t[i];
      HeadOf(nt, moved, 0);
      RestOfChain(chains, i, 0);
      while he != null
        invariant 0 <= p <= |chains[i]| && Tail(t, i, chains[i], p, he) && Intact(t, chains, i + 1)
        invariant Table(nt, moved') && Cells(moved') <= Cells(chains) && |moved'| == nt.Length
        invariant used == |Ahead(chains, i, p)|
        invariant Rehash(Ahead(chains, i, p), moved') == Rehash(Ahead(chains, i, 0), moved)
        decreases |chains[i]| - p
      {
        var h := And(hashfn(he.k), nt.Length - 1);
        MaskIsModulo(hashfn(he.k), nt.Length);
        HashOf(chains, hashfn, i, p);
        RestOfChain(chains, i, p);
        RehashStep(he, Ahead(chains, i, p + 1), moved');
        MovedCellsGrow(chains, i, p, moved', h);
        var nextHe := MoveEntry(t, i, nt, h, he, p, chains, moved');
        moved' := moved'[h := [he] + moved'[h]];
        used := used - 1;
        he := nextHe;
        p := p + 1;
      }
      RestOfChain(chains, i, p);
    }

    /** The rehash: it may stop before the last bucket, because no entry is left by then. */
    method MoveAll(nt: array<Entry?<K, ValueCell<K, V>>>) returns (ghost moved: seq<seq<Entry<K, ValueCell<K, V>>>>)
      requires Valid() && nt != table && PowerOfTwo(nt.Length) && Table(nt, NoChains(nt.Length))
      modifies `used, nt, Cells(chains)
      ensures used == 0 && nt.Length > 0
      ensures moved == Rehash(Flatten(chains), NoChains(nt.Length))
      ensures Table(nt, moved) && Cells(moved) <= Cells(chains)
    {
      hide Table, Rehash, Flatten, Placed, Chain;
      moved := NoChains(nt.Length);
      assert chains[0..] == chains;
      if size > 0 {
        WholeTable(table, chains);
      }
      var i := 0;
      while i < size && used > 0
        invariant 0 <= i <= size == |chains| && used == |Flatten(chains[i..])|
        invariant size > 0 ==> table.Length == size && Intact(table, chains, i)
        invariant Table(nt, moved) && Cells(moved) <= Cells(chains) && |moved| == nt.Length > 0
        invariant Rehash(Flatten(chains[i..]), moved) == Rehash(Flatten(chains), NoChains(nt.Length))
      {
        moved := MoveBucket(table, i, nt, moved);
        i := i + 1;
      }
      NothingLeft(chains, i, moved);
    }

    static lemma WholeTable(t: array<Entry?<K, ValueCell<K, V>>>, chains: seq<seq<Entry<K, ValueCell<K, V>>>>)
      requires Table(t, chains)
      ensures Intact(t, chains, 0)
    {
    }

    static lemma NothingLeft(chains: seq<seq<Entry<K, ValueCell<K, V>>>>, i: nat,
                             moved: seq<seq<Entry<K, ValueCell<K, V>>>>)
      requires i <= |chains| && |moved| > 0
      requires i == |chains| || |Flatten(chains[i..])| == 0
      ensures Flatten(chains[i..]) == [] && Rehash([], moved) == moved
    {
      if i == |chains| {
        assert chains[i..] == [];
      }
    }

    /** dictExpand: fails exactly when the wanted size is below the number of entries. */
    method Expand(size: nat) returns (ok: bool)
      requires Valid()
      modifies this, Cells(chains)
      ensures Valid() && ok == (old(used) <= size) && used == old(used)
      ensures Cells(chains) <= old(Cells(chains)) && (table == old(table) || fresh(table))
      ensures !ok ==> this.size == old(this.size) && chains == old(chains)
      ensures ok ==> PowerOfTwo(this.size) && 4 <= this.size && size <= this.size
      ensures ok && this.size > 4 ==> this.size / 2 < size
      ensures forall k :: Binding(k) == old(Binding(k))
    {
      hide Table, Rehash, Flatten, Placed, Chain, Values, Reverse;
      var realsize := NextPower(size);
      if used > size {
        return false;
      }
      var newUsed := used;
      var nt := new Entry?<K, ValueCell<K, V>>[realsize](_ => null);
      EmptyTable(nt);
      ghost var before := chains;
      RehashIsBinding(before, realsize);
      chains := MoveAll(nt);
      assert used == 0;
      table, this.size, sizemask, used := nt, realsize, realsize - 1, newUsed;
      return true;
    }

    /** A rehash reverses the entries of a key, and a key has at most one. */
    lemma RehashIsBinding(before: seq<seq<Entry<K, ValueCell<K, V>>>>, n: nat)
      requires Valid() && before == chains && n > 0
      ensures var r := Rehash(Flatten(before), NoChains(n));
              && Placed(r, hashfn) && |Flatten(r)| == |Flatten(before)|
              && forall k :: Chains.Lookup(r, hashfn, k) == Binding(k)
    {
      hide Table, Rehash, Placed, Chain, Values, Flatten;
      if before == [] {
        RehashNothing(NoChains<K, ValueCell<K, V>>(n));
        EmptyMeaning<K, V>(n, hashfn);
      } else {
        RehashMeaning(before, hashfn, n);
        forall k ensures Reverse(Binding(k)) == Binding(k) {
          if Binding(k) != [] {
            assert Binding(k)[1..] == [];
          }
        }
      }
    }

    /** _dictExpandIfNeeded */
    method ExpandIfNeeded()
      requires Valid()
      modifies this, Cells(chains)
      ensures Valid() && used == old(used) < size
      ensures size == if old(size) == 0 then 4 else if old(used) == old(size) then 2 * old(size) else old(size)
      ensures Cells(chains) <= old(Cells(chains)) && (table == old(table) || fresh(table))
      ensures forall k :: Binding(k) == old(Binding(k))
    {
      hide Table, Flatten, Placed, Chain, Values;
      if size == 0 {
        var ok := Expand(DICT_HT_INITIAL_SIZE);
      } else if used == size {
        ghost var before := size;
        var ok := Expand(size * 2);
        PowersApart(2 * before, size);
      }
    }

    /** _dictKeyIndex: the bucket for a key, or -1 when the key has an entry. */
    method KeyIndex(k: K) returns (index: int)
      requires Valid()
      modifies this, Cells(chains)
      ensures Valid() && used == old(used) < size
      ensures size == if old(size) == 0 then 4 else if old(used) == old(size) then 2 * old(size) else old(size)
      ensures Cells(chains) <= old(Cells(chains)) && (table == old(table) || fresh(table))
      ensures forall k' :: Binding(k') == old(Binding(k'))
      ensures index == if old(Binding(k)) != [] then -1 else hashfn(k) % size
    {
      hide Table, Flatten, Placed, Chain, Values;
      ExpandIfNeeded();
      var e, h, _ := Walk(k);
      return if e != null then -1 else h;
    }

    /** The search in the bucket of a key: the entry of the key, and the entry before it. */
    method Walk(k: K) returns (he: Entry?<K, ValueCell<K, V>>, h: nat, prev: Entry?<K, ValueCell<K, V>>)
      requires Valid() && size > 0
      ensures |chains| == size && h == IndexFor(size, hashfn(k))
      ensures he == null ==> Binding(k) == [] && FirstIndex(chains[h], k) == |chains[h]|
      ensures he != null ==>
                && Binding(k) == [he.v] && he.k == k
                && var p := FirstIndex(chains[h], k);
                   p < |chains[h]| && he == chains[h][p] && prev == if p == 0 then null else chains[h][p - 1]
    {
      hide Table, Flatten, Placed, Chain, PowerOfTwo, Values, FirstIndex, And;
      MaskIsModulo(hashfn(k), size);
      h := And(hashfn(k), sizemask);
      HeadOf(table, chains, h);
      he, prev := table[h], null;
      ghost var p := 0;
      assert chains[h][0..] == chains[h];
      while he != null
        invariant Valid() && |chains| == size
        invariant 0 <= p <= |chains[h]| && prev == (if p == 0 then null else chains[h][p - 1])
        invariant he == if p < |chains[h]| then chains[h][p] else null
        invariant forall j :: 0 <= j < p ==> chains[h][j].k != k
        invariant Binding(k) == Values(chains[h][p..], k)
        decreases |chains[h]| - p
      {
        NextOf(table, chains, h, p);
        ValuesFrom(chains[h], k, p);
        if he.k == k {
          FirstIndexIs(chains[h], k, p);
          assert |Binding(k)| <= 1;
          return;
        }
        prev := he;
        he := he.next;
        p := p + 1;
      }
      ValuesFrom(chains[h], k, p);
      FirstIndexIs(chains[h], k, p);
    }

    /** dictAdd: fails exactly when the key has an entry. */
    method Add(k: K, v: V) returns (ok: bool)
      requires Valid()
      modifies this, table, Cells(chains)
      ensures Valid() && ok == (old(Binding(k)) == [])
      ensures used == old(used) + (if ok then 1 else 0)
      ensures size == if old(size) == 0 then 4 else if old(used) == old(size) then 2 * old(size) else old(size)
      ensures forall k' :: Lookup(k') == if ok && k' == k then Some(v) else old(Lookup(k'))
      ensures ok ==> |Binding(k)| == 1 && fresh(Binding(k)[0])
      ensures forall k' :: k' != k || !ok ==> Binding(k') == old(Binding(k'))
      ensures (table == old(table) || fresh(table)) && fresh(Cells(chains) - old(Cells(chains)))
    {
      hide Table, Flatten, Placed, Chain, Values, Valid, Binding;
      AllCellsOfEntries();
      ok := AddEntry(k, v);
      forall k' | k' != k || !ok ensures Lookup(k') == old(Lookup(k')) {
        assert Binding(k') == old(Binding(k'));
      }
    }

    method AddEntry(k: K, v: V) returns (ok: bool)
      requires Valid()
      modifies this, table, Cells(chains)
      ensures Valid() && ok == (old(Binding(k)) == [])
      ensures used == old(used) + (if ok then 1 else 0)
      ensures size == if old(size) == 0 then 4 else if old(used) == old(size) then 2 * old(size) else old(size)
      ensures ok ==> |Binding(k)| == 1 && fresh(Binding(k)[0]) && Binding(k)[0].val == v
      ensures forall k' :: k' != k || !ok ==> Binding(k') == old(Binding(k'))
      ensures (table == old(table) || fresh(table)) && fresh(Cells(chains) - old(Cells(chains)))
    {
      hide Table, Flatten, Placed, Chain, Values;
      var index := KeyIndex(k);
      if index == -1 {
        return false;
      }
      Link(k, v, index);
      return true;
    }

    /** The new entry goes to the head of its chain. */
    method Link(k: K, v: V, index: nat)
      requires Valid() && used < size && index == hashfn(k) % size && Binding(k) == []
      modifies this`used, this`chains, table
      ensures Valid() && used == old(used) + 1 && size == old(size)
      ensures |Binding(k)| == 1 && fresh(Binding(k)[0]) && Binding(k)[0].val == v
      ensures forall k' :: k' != k ==> Binding(k') == old(Binding(k'))
      ensures fresh(Cells(chains) - old(Cells(chains)))
    {
      hide Table, Flatten, Placed, Chain, Values, PowerOfTwo;
      HeadOf(table, chains, index);
      ghost var cells := Cells(chains);
      var val := new ValueCell<K, V>(k, v);
      var entry := new Entry<K, ValueCell<K, V>>(k, val, hashfn(k));
      assert entry !in cells;
      Push(table, index, entry, chains);
      FlattenPush(chains, index, entry);
      PushedCells(chains, index, entry);
      PushedLookup(chains, hashfn, index, entry);
      chains := chains[index := [entry] + chains[index]];
      used := used + 1;
      assert forall k' :: Binding(k') == (if k' == k then [val] else []) + old(Binding(k'));
    }

    /** dictFind */
    method Find(k: K) returns (he: Entry?<K, ValueCell<K, V>>)
      requires Valid()
      ensures he == null <==> Binding(k) == []
      ensures he != null ==> he.k == k && Binding(k) == [he.v]
    {
      hide Table, Flatten, Placed, Chain, Values;
      if size == 0 {
        return null;
      }
      var h, prev;
      he, h, prev := Walk(k);
    }

    /** dictReplace: an insertion, or else the value of the entry is overwritten. */
    method Replace(k: K, v: V) returns (added: bool)
      requires Valid()
      modifies this, table, Cells(chains), Binding(k)
      ensures Valid() && added == old(Lookup(k)).None?
      ensures used == old(used) + (if added then 1 else 0)
      ensures size == if old(size) == 0 then 4 else if old(used) == old(size) then 2 * old(size) else old(size)
      ensures forall k' :: Lookup(k') == if k' == k then Some(v) else old(Lookup(k'))
      ensures added ==> |Binding(k)| == 1 && fresh(Binding(k)[0])
      ensures forall k' :: k' != k || !added ==> Binding(k') == old(Binding(k'))
      ensures (table == old(table) || fresh(table)) && fresh(Cells(chains) - old(Cells(chains)))
    {
      hide Table, Flatten, Placed, Chain, Values, Valid, Binding;
      added := Add(k, v);
      if added {
        return true;
      }
      AllCellsOfEntries();
      label found:
      var entry := Find(k);
      forall k' ensures Lookup(k') == old@found(Lookup(k')) {
        assert Binding(k') == old@found(Binding(k'));
      }
      assert Binding(k) == old(Binding(k)) && entry.v == old(Binding(k))[0];
      Overwrite(k, entry.v, v);
    }

    /** The value fields belong to entries of the dictionary, and are no entries themselves. */
    lemma CellsOfEntries(k: K)
      requires Valid() && Binding(k) != []
      ensures Binding(k)[0] !in Cells(chains) && allocated(Binding(k)[0])
    {
      var c := chains[IndexFor(size, hashfn(k))];
      FirstValue(c, k);
      var e := c[FirstIndex(c, k)];
    }

    lemma AllCellsOfEntries()
      requires Valid()
      ensures forall k :: Binding(k) != [] ==> Binding(k)[0] !in Cells(chains) && allocated(Binding(k)[0])
    {
      hide Valid, Binding;
      forall k | Binding(k) != [] ensures Binding(k)[0] !in Cells(chains) && allocated(Binding(k)[0]) {
        CellsOfEntries(k);
      }
    }

    method Overwrite(k: K, cell: ValueCell<K, V>, v: V)
      requires Valid() && Binding(k) == [cell]
      modifies cell
      ensures Valid() && forall k' :: Binding(k') == old(Binding(k'))
      ensures forall k' :: Lookup(k') == if k' == k then Some(v) else old(Lookup(k'))
    {
      hide Table, Flatten, Placed, Chain, Values, Binding, Buckets;
      CellsOfEntries(k);
      assert forall k' :: k' != k && Binding(k') != [] ==> Binding(k')[0] != cell;
      cell.val := v;
    }

    /** dictDelete */
    method Delete(k: K) returns (ok: bool)
      requires Valid()
      modifies this`used, this`chains, table, Cells(chains)
      ensures Valid() && ok == (old(Binding(k)) != [])
      ensures used == old(used) - (if ok then 1 else 0)
      ensures forall k' :: Lookup(k') == if k' == k then None else old(Lookup(k'))
      ensures forall k' :: Binding(k') == if k' == k then [] else old(Binding(k'))
      ensures Cells(chains) <= old(Cells(chains))
      ensures old(chains) != [] ==> chains == Removed(old(chains), hashfn, k)
    {
      hide Table, Flatten, Placed, Chain, Values, Valid, Binding;
      AllCellsOfEntries();
      ok := DeleteEntry(k);
      forall k' | k' != k ensures Lookup(k') == old(Lookup(k')) {
        assert Binding(k') == old(Binding(k'));
      }
    }

    method DeleteEntry(k: K) returns (ok: bool)
      requires Valid()
      modifies this`used, this`chains, table, Cells(chains)
      ensures Valid() && ok == (old(Binding(k)) != [])
      ensures used == old(used) - (if ok then 1 else 0)
      ensures forall k' :: Binding(k') == if k' == k then [] else old(Binding(k'))
      ensures Cells(chains) <= old(Cells(chains))
      ensures old(chains) != [] ==> chains == Removed(old(chains), hashfn, k)
    {
      hide Table, Flatten, Placed, Chain, Values;
      if size == 0 {
        return false;
      }
      var de, h, prevde := Walk(k);
      if de == null {
        return false;
      }
      TakeOut(h, prevde, de, FirstIndex(chains[h], k));
      return true;
    }

    /** Unlinks the entry of a key and counts it off. */
    method TakeOut(h: nat, prevde: Entry?<K, ValueCell<K, V>>, de: Entry<K, ValueCell<K, V>>, ghost p: nat)
      requires Valid() && size > 0 && h < |chains| == size && p < |chains[h]| && de == chains[h][p]
      requires h == IndexFor(size, hashfn(de.k)) && p == FirstIndex(chains[h], de.k)
      requires prevde == if p == 0 then null else chains[h][p - 1]
      modifies this`used, this`chains, table, Cells(chains)
      ensures Valid() && used == old(used) - 1
      ensures forall k :: Binding(k) == if k == de.k then [] else old(Binding(k))
      ensures Cells(chains) <= old(Cells(chains)) && chains == Removed(old(chains), hashfn, de.k)
    {
      hide Table, Flatten, Placed, Chain, Values, PowerOfTwo, FirstIndex, Chains.Lookup;
      UnlinkedCells(chains, h, p);
      UnlinkedLookup(chains, hashfn, h, p);
      FlattenUpdate(chains, h, chains[h][..p] + chains[h][p + 1..]);
      assert |Binding(de.k)| <= 1;
      Unlink(table, h, prevde, de, p, chains);
      chains := chains[h := chains[h][..p] + chains[h][p + 1..]];
      used := used - 1;
      assert forall k :: Binding(k) == if k == de.k then [] else old(Binding(k));
    }

    /** One operation, on a dictionary that stands for the map `m`. */
    method Do(op: Operation<K, V>, ghost m: map<K, V>)
      requires Valid() && forall k :: Lookup(k) == At(m, k)
      modifies this, table, Cells(chains), Binding(op.k)
      ensures Valid() && forall k :: Lookup(k) == At(Applied(m, op), k)
      ensures forall k :: Binding(k) != [] ==> fresh(Binding(k)[0]) || Binding(k) == old(Binding(k))
      ensures (table == old(table) || fresh(table)) && fresh(Cells(chains) - old(Cells(chains)))
    {
      hide Valid, Lookup, Binding;
      assert Lookup(op.k) == At(m, op.k);
      BoundOrNot(op.k);
      match op
      case AddKey(k, v) =>
        var ok := Add(k, v);
      case ReplaceKey(k, v) =>
        var added := Replace(k, v);
      case DeleteKey(k) =>
        var ok := Delete(k);
    }

    lemma AtMostOne(k: K)
      requires Valid()
      ensures Binding(k) == [] || Binding(k) == [Binding(k)[0]]
    {
      assert |Binding(k)| <= 1;
    }

    lemma BoundOrNot(k: K)
      ensures Lookup(k).None? <==> Binding(k) == []
    {
    }

    lemma SizeIs()
      requires Valid()
      ensures |chains| == size
    {
    }

    lemma BucketAt(b: nat)
      requires Valid() && b < size
      ensures |chains| == size && table != null && table.Length == size
      ensures table[b] == if chains[b] == [] then null else chains[b][0]
    {
      hide Table, Chain, Placed, Flatten, PowerOfTwo;
      HeadOf(table, chains, b);
    }

    lemma EntryAfter(b: nat, p: nat)
      requires Valid() && b < |chains| && p < |chains[b]|
      ensures chains[b][p].next == if p + 1 < |chains[b]| then chains[b][p + 1] else null
    {
      hide Table, Chain, Placed, Flatten, PowerOfTwo;
      NextOf(table, chains, b, p);
    }

    /** The dictionary is a finite map, and `used` is the number of its keys. */
    lemma IsFiniteMap() returns (m: map<K, ValueCell<K, V>>)
      requires Valid()
      ensures |m| == used
      ensures forall k :: Binding(k) == if k in m then [m[k]] else []
    {
      hide Table, Chain, Flatten, Values, PowerOfTwo;
      var all := Flatten(chains);
      forall k ensures Values(all, k) == Binding(k) {
        if chains == [] {
          EmptyMeaning<K, V>(1, hashfn);
          NoValues(all, k);
        } else {
          PlacedValues(chains, hashfn, k);
        }
      }
      MapOfEntries(all);
      m := MapOf(all);
    }
  }

  lemma {:induction false} FirstValue<K, V>(chain: seq<Entry<K, V>>, k: K)
    requires Values(chain, k) != []
    ensures var p := FirstIndex(chain, k); p < |chain| && Values(chain, k)[0] == chain[p].v
  {
    if chain[0].k != k {
      FirstValue(chain[1..], k);
    }
  }

  lemma ValuesFrom<K, V>(chain: seq<Entry<K, V>>, k: K, p: nat)
    requires p <= |chain|
    ensures Values(chain[p..], k) ==
              if p == |chain| then []
              else (if chain[p].k == k then [chain[p].v] else []) + Values(chain[p + 1..], k)
  {
    assert p < |chain| ==> chain[p..][1..] == chain[p + 1..];
  }

  lemma EmptyMeaning<K(!new), V>(n: nat, hashfn: K -> nat)
    requires n > 0
    ensures var r := NoChains<K, ValueCell<K, V>>(n);
            && Flatten<Entry<K, ValueCell<K, V>>>([]) == [] && Flatten(r) == [] && Placed(r, hashfn)
            && forall k :: Chains.Lookup(r, hashfn, k) == []
  {
    FlattenEmpty(NoChains<K, ValueCell<K, V>>(n));
  }

  lemma PlacedValues<K(!new), V>(chains: seq<seq<Entry<K, V>>>, hashfn: K -> nat, k: K)
    requires chains != [] && Placed(chains, hashfn)
    ensures Values(Flatten(chains), k) == Chains.Lookup(chains, hashfn, k)
  {
    hide Values, Flatten;
    ValuesOfFlatten(chains, IndexFor(|chains|, hashfn(k)), k);
  }

  function MapOf<K(==), V>(all: seq<Entry<K, V>>): map<K, V> {
    if all == [] then map[] else MapOf(all[1..])[all[0].k := all[0].v]
  }

  lemma {:induction false} MapOfEntries<K(!new), V>(all: seq<Entry<K, V>>)
    requires forall k :: |Values(all, k)| <= 1
    ensures |MapOf(all)| == |all|
    ensures forall k :: Values(all, k) == if k in MapOf(all) then [MapOf(all)[k]] else []
  {
    if all != [] {
      forall k ensures Values(all, k) == (if all[0].k == k then [all[0].v] else []) + Values(all[1..], k) {
      }
      MapOfEntries(all[1..]);
    }
  }

  // ---------------------------------------------------------------- whole runs

  datatype Operation<K, V> = AddKey(k: K, v: V) | ReplaceKey(k: K, v: V) | DeleteKey(k: K)

  /** What the operations mean for a finite map. */
  function Applied<K(==), V>(m: map<K, V>, op: Operation<K, V>): map<K, V> {
    match op
    case AddKey(k, v) => if k in m then m else m[k := v]
    case ReplaceKey(k, v) => m[k := v]
    case DeleteKey(k) => m - {k}
  }

  function AppliedAll<K(==), V>(ops: seq<Operation<K, V>>): map<K, V> {
    if ops == [] then map[] else Applied(AppliedAll(ops[..|ops| - 1]), ops[|ops| - 1])
  }

  function At<K(==), V>(m: map<K, V>, k: K): Option<V> {
    if k in m then Some(m[k]) else None
  }

  /** A dictionary from its creation on is the finite map that its operations describe. */
  method Perform<K(==,!new), V>(hashfn: K -> nat, ops: seq<Operation<K, V>>) returns (d: Dict<K, V>)
    ensures fresh(d) && d.Valid() && forall k :: d.Lookup(k) == At(AppliedAll(ops), k)
  {
    hide Dict.Valid, Dict.Lookup, Applied;
    d := new Dict<K, V>(hashfn);
    assert d.table == null && Cells(d.chains) == {} && forall k :: d.Binding(k) == [] by {
      NoTable(d);
    }
    for i := 0 to |ops|
      invariant fresh(d) && d.Valid() && (d.table == null || fresh(d.table)) && fresh(Cells(d.chains))
      invariant forall k :: d.Binding(k) != [] ==> fresh(d.Binding(k)[0])
      invariant forall k :: d.Lookup(k) == At(AppliedAll(ops[..i]), k)
    {
      assert ops[..i + 1][..i] == ops[..i];
      d.AtMostOne(ops[i].k);
      d.Do(ops[i], AppliedAll(ops[..i]));
    }
    assert ops[..|ops|] == ops;
  }

  lemma NoTable<K(!new), V>(d: Dict<K, V>)
    requires d.Valid() && d.size == 0
    ensures d.table == null && Cells(d.chains) == {} && forall k :: d.Binding(k) == []
  {
  }

  // ---------------------------------------------------------------- iteration

  class DictIterator<K(==,!new), V> {
    const ht: Dict<K, V>
    var index: int
    var entry: Entry?<K, ValueCell<K, V>>
    var nextEntry: Entry?<K, ValueCell<K, V>>
    /** The position in the chain of what comes after the entry returned last. */
    ghost var pos: nat

    /** The entry returned last may be gone; the one behind it is known. */
    ghost predicate Valid()
      reads this, ht, ht.table, Cells(ht.chains)
    {
      && ht.Valid() && this !in Cells(ht.chains) && -1 <= index
      && (entry != null ==>
            && 0 <= index < |ht.chains| && pos <= |ht.chains[index]|
            && nextEntry == if pos < |ht.chains[index]| then ht.chains[index][pos] else null)
    }

    /** The entry returned last is still in the dictionary. */
    ghost predicate AtEntry()
      requires Valid()
      reads this, ht, ht.table, Cells(ht.chains)
    {
      entry != null && pos > 0 && entry == ht.chains[index][pos - 1]
    }

    /** The entries that will still be returned. */
    ghost function ToCome(): seq<Entry<K, ValueCell<K, V>>>
      requires Valid()
      reads this, ht, ht.table, Cells(ht.chains)
    {
      if entry != null then Ahead(ht.chains, index, pos)
      else if index < |ht.chains| then Flatten(ht.chains[index + 1..])
      else []
    }

    /** dictGetIterator */
    constructor (ht: Dict<K, V>)
      requires ht.Valid()
      ensures Valid() && this.ht == ht && entry == null && ToCome() == Flatten(ht.chains)
    {
      hide Table, Chain, Placed, Flatten;
      ghost var cells := Cells(ht.chains);
      this.ht := ht;
      index, entry, nextEntry, pos := -1, null, null, 0;
      new;
      assert this !in cells;
      assert ht.chains[0..] == ht.chains;
      NothingBehind(ht.chains);
    }

    static lemma NothingBehind(chains: seq<seq<Entry<K, ValueCell<K, V>>>>)
      ensures chains == [] ==> Flatten(chains) == []
      ensures Flatten(chains[|chains|..]) == []
    {
      assert chains[|chains|..] == [];
    }

    /** One turn of the loop of dictNext, up to the test of the entry; without `more` the table is done. */
    method Turn() returns (more: bool)
      requires Valid()
      modifies this
      ensures ht.Valid() && this !in Cells(ht.chains) && -1 <= index
      ensures !more ==> entry == null && |ht.chains| <= index && old(ToCome()) == []
      ensures more ==> index < |ht.chains| && index == old(index) + (if old(entry) == null then 1 else 0)
      ensures more && entry == null ==> Valid() && ToCome() == old(ToCome())
      ensures more && entry != null ==>
                && pos < |ht.chains[index]| && entry == ht.chains[index][pos]
                && old(ToCome()) == [entry] + Ahead(ht.chains, index, pos + 1)
    {
      hide Dict.Valid, Flatten, Ahead;
      if entry == null {
        more := NextBucket();
      } else {
        RestOfChain(ht.chains, index, pos);
        entry := nextEntry;
        more := true;
      }
    }

    method NextBucket() returns (more: bool)
      requires Valid() && entry == null
      modifies this
      ensures ht.Valid() && this !in Cells(ht.chains) && index == old(index) + 1
      ensures !more ==> entry == null && |ht.chains| <= index && old(ToCome()) == []
      ensures more ==>
                && index < |ht.chains| && pos == 0 && old(ToCome()) == Ahead(ht.chains, index, 0)
                && entry == if ht.chains[index] == [] then null else ht.chains[index][0]
      ensures more && ht.chains[index] == [] ==> Valid() && ToCome() == old(ToCome())
      ensures more && ht.chains[index] != [] ==> old(ToCome()) == [entry] + Ahead(ht.chains, index, 1)
    {
      hide Dict.Valid, Flatten, Ahead, Cells;
      ht.SizeIs();
      NothingBehind(ht.chains);
      index := index + 1;
      if index >= ht.size {
        return false;
      }
      ht.BucketAt(index);
      RestOfChain(ht.chains, index, 0);
      entry, pos := ht.table[index], 0;
      return true;
    }

    /** The entry may be deleted by the user of the iterator, so what follows it is kept now. */
    method Remember()
      requires ht.Valid() && this !in Cells(ht.chains) && 0 <= index < |ht.chains| && pos < |ht.chains[index]|
      requires entry == ht.chains[index][pos]
      modifies `nextEntry, `pos
      ensures Valid() && pos == old(pos) + 1 && ToCome() == Ahead(ht.chains, index, pos)
    {
      hide Dict.Valid, Flatten, Ahead;
      ht.EntryAfter(index, pos);
      nextEntry := entry.next;
      pos := pos + 1;
    }

    /** dictNext */
    method Next() returns (r: Entry?<K, ValueCell<K, V>>)
      requires Valid()
      modifies this
      ensures Valid() && ht.Valid() && r == entry
      ensures old(ToCome()) == if r == null then [] else [r] + ToCome()
      ensures r == null ==> ToCome() == []
      ensures r != null ==> AtEntry()
    {
      hide Dict.Valid, Flatten, Ahead;
      while true
        invariant Valid() && ToCome() == old(ToCome())
        decreases |ht.chains| - index, entry != null
      {
        var more := Turn();
        if !more {
          return null;
        }
        if entry != null {
          Remember();
          return entry;
        }
      }
    }
  }

  lemma {:induction false} OnlyOne<K, V>(chain: seq<Entry<K, V>>, k: K, p: nat)
    requires p < |chain| && chain[p].k == k && |Values(chain, k)| <= 1
    ensures FirstIndex(chain, k) == p
  {
    if p > 0 {
      assert chain[1..][p - 1] == chain[p];
      FoundValue(chain[1..], k, p - 1);
      OnlyOne(chain[1..], k, p - 1);
    }
  }

  /** Taking out the entry before position `p`, seen from there. */
  lemma TakenBehind<T>(ss: seq<seq<T>>, i: nat, p: nat)
    requires i < |ss| && 0 < p <= |ss[i]|
    ensures var rr := ss[i := ss[i][..p - 1] + ss[i][p..]]; var before := Passed(ss, i, p - 1);
            && Ahead(rr, i, p - 1) == Ahead(ss, i, p)
            && Flatten(ss) == before + [ss[i][p - 1]] + Ahead(ss, i, p)
            && Flatten(rr) == before + Ahead(ss, i, p)
  {
    RemoveAt(ss, i, p - 1);
    StepOver(ss, i, p - 1);
    PassedAndAhead(ss, i, p);
    PassedAndAhead(ss[i := ss[i][..p - 1] + ss[i][p..]], i, p - 1);
  }

  /** dictDelete of the entry that the iterator has just returned. */
  method DeleteReturned<K(==,!new), V>(itr: DictIterator<K, V>) returns (ghost before: seq<Entry<K, ValueCell<K, V>>>)
    requires itr.Valid() && itr.AtEntry()
    modifies itr`pos, itr.ht`used, itr.ht`chains, itr.ht.table, Cells(itr.ht.chains)
    ensures itr.Valid() && itr.ht.Valid() && itr.ToCome() == old(itr.ToCome())
    ensures Cells(itr.ht.chains) <= old(Cells(itr.ht.chains)) && itr.ht.table == old(itr.ht.table)
    ensures old(Flatten(itr.ht.chains)) == before + [old(itr.entry)] + itr.ToCome()
    ensures Flatten(itr.ht.chains) == before + itr.ToCome()
  {
    hide Flatten, Ahead, Passed, Table, Chain, Placed, Values, FirstIndex, PowerOfTwo, Chains.Lookup;
    var ht, k := itr.ht, itr.entry.k;
    ghost var i, p, ss := itr.index, itr.pos, ht.chains;
    TakenBehind(ss, i, p);
    HomeBucket(ht, i, p - 1);
    var ok := ht.Delete(k);
    itr.pos := p - 1;
    return Passed(ss, i, p - 1);
  }

  lemma HomeBucket<K(!new), V>(ht: Dict<K, V>, b: nat, p: nat)
    requires ht.Valid() && b < |ht.chains| && p < |ht.chains[b]|
    ensures var k := ht.chains[b][p].k;
            && ht.Binding(k) != [] && IndexFor(|ht.chains|, ht.hashfn(k)) == b
            && FirstIndex(ht.chains[b], k) == p
  {
    hide Table;
    var k := ht.chains[b][p].k;
    assert |ht.Binding(k)| <= 1;
    OnlyOne(ht.chains[b], k, p);
    FoundValue(ht.chains[b], k, p);
  }

  /** A whole iteration in which some of the entries are deleted as soon as they have been returned, as
      `doomed` decides at each step: every entry is returned exactly once, and exactly the others remain. */
  method DeleteDuring<K(==,!new), V>(ht: Dict<K, V>, doomed: nat -> bool)
    returns (visited: seq<Entry<K, ValueCell<K, V>>>)
    requires ht.Valid()
    modifies ht`used, ht`chains, ht.table, Cells(ht.chains)
    ensures ht.Valid()
    ensures visited == old(Flatten(ht.chains))
    ensures Flatten(ht.chains) == KeptAt(old(Flatten(ht.chains)), 0, doomed)
  {
    hide Flatten, KeptAt, Halfway, Cells, Dict.Valid, DictIterator.Valid, DictIterator.AtEntry, DictIterator.ToCome;
    ghost var all, cells := Flatten(ht.chains), Cells(ht.chains);
    ghost var kept: seq<Entry<K, ValueCell<K, V>>> := [];
    visited := [];
    var itr := new DictIterator<K, V>(ht);
    HalfwayStart(all, doomed);
    var e := itr.Next();
    ghost var left: seq<Entry<K, ValueCell<K, V>>> := if e == null then [] else [e] + itr.ToCome();
    while e != null
      invariant fresh(itr) && itr.Valid() && itr.ht == ht && e == itr.entry && ht.table == old(ht.table)
      invariant ht.Valid() && Cells(ht.chains) <= cells
      invariant if e == null then left == [] else itr.AtEntry() && left == [e] + itr.ToCome()
      invariant Flatten(ht.chains) == kept + left && Halfway(all, visited, kept, left, doomed)
      decreases |left|
    {
      HalfwayStep<Entry<K, ValueCell<K, V>>>(all, visited, kept, e, itr.ToCome(), doomed);
      visited := visited + [e];
      if doomed(|visited| - 1) {
        ghost var before := DeleteReturned(itr);
        SameBefore<Entry<K, ValueCell<K, V>>>(kept, before, e, itr.ToCome());
      } else {
        assert kept + ([e] + itr.ToCome()) == kept + [e] + itr.ToCome();
        kept := kept + [e];
      }
      left := itr.ToCome();
      e := itr.Next();
    }
    HalfwayEnd(all, visited, kept, doomed);
    assert kept + [] == kept;
  }

  lemma SameBefore<T>(a: seq<T>, b: seq<T>, e: T, t: seq<T>)
    requires a + ([e] + t) == b + [e] + t
    ensures a == b
  {
    assert |a| == |b|;
    assert (a + ([e] + t))[..|a|] == a && (b + [e] + t)[..|b|] == b;
  }
}
