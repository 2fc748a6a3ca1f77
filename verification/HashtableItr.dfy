/**
 The iterator of hashtable/hashtable_itr.c: it holds the current entry, its predecessor in the chain and
 the number of the bucket, and it can take the current entry out of the table.
 */
module HashtableIterators {
  import opened Chains
  import opened Hashtables

  /** The entries before position `p` of chain `i`, and those from there on. */
  function Passed<T>(ss: seq<seq<T>>, i: nat, p: nat): seq<T>
    requires i <= |ss| && p <= if i < |ss| then |ss[i]| else 0
  {
    Flatten(ss[..i]) + if i < |ss| then ss[i][..p] else []
  }

  function Ahead<T>(ss: seq<seq<T>>, i: nat, p: nat): seq<T>
    requires i <= |ss| && p <= if i < |ss| then |ss[i]| else 0
  {
    if i < |ss| then ss[i][p..] + Flatten(ss[i + 1..]) else []
  }

  lemma PassedAndAhead<T>(ss: seq<seq<T>>, i: nat, p: nat)
    requires i <= |ss| && p <= if i < |ss| then |ss[i]| else 0
    ensures Passed(ss, i, p) + Ahead(ss, i, p) == Flatten(ss)
  {
    if i < |ss| {
      FlattenSplit(ss, i);
      assert ss[i] == ss[i][..p] + ss[i][p..];
    } else {
      assert ss[..i] == ss;
    }
  }

  /** Stepping over one entry. */
  lemma StepOver<T>(ss: seq<seq<T>>, i: nat, p: nat)
    requires i < |ss| && p < |ss[i]|
    ensures Passed(ss, i, p + 1) == Passed(ss, i, p) + [ss[i][p]]
    ensures Ahead(ss, i, p) == [ss[i][p]] + Ahead(ss, i, p + 1)
  {
    hide Flatten;
    var before, after, c := Flatten(ss[..i]), Flatten(ss[i + 1..]), ss[i];
    assert c[..p + 1] == c[..p] + [c[p]] && c[p..] == [c[p]] + c[p + 1..];
    assert before + (c[..p] + [c[p]]) == before + c[..p] + [c[p]];
    assert [c[p]] + c[p + 1..] + after == [c[p]] + (c[p + 1..] + after);
  }

  lemma NextChain<T>(ss: seq<seq<T>>, i: nat)
    requires i < |ss|
    ensures Passed(ss, i + 1, 0) == Passed(ss, i, |ss[i]|)
    ensures Ahead(ss, i + 1, 0) == Ahead(ss, i, |ss[i]|)
  {
    assert ss[..i + 1] == ss[..i] + [ss[i]];
    FlattenAppend(ss[..i], [ss[i]]);
    FlattenOne(ss[i]);
    assert ss[i][..|ss[i]|] == ss[i] && ss[i][|ss[i]|..] == [];
    FlattenFrom(ss, i + 1);
  }

  lemma FlattenOne<T>(c: seq<T>)
    ensures Flatten([c]) == c
  {
    assert [c][1..] == [] && c + [] == c;
  }

  lemma FlattenFrom<T>(ss: seq<seq<T>>, i: nat)
    requires i <= |ss|
    ensures Flatten(ss[i..]) == if i < |ss| then ss[i][0..] + Flatten(ss[i + 1..]) else []
  {
    if i < |ss| {
      assert ss[i..][0] == ss[i] == ss[i][0..] && ss[i..][1..] == ss[i + 1..];
    } else {
      assert ss[i..] == [];
    }
  }

  /** The end of a chain is the start of the next non-empty one. */
  lemma {:induction false} SkipEmpty<T>(ss: seq<seq<T>>, i: nat, j: nat)
    requires i < j <= |ss| && forall b :: i < b < j ==> ss[b] == []
    ensures Passed(ss, j, 0) == Passed(ss, i, |ss[i]|)
    ensures Ahead(ss, j, 0) == Ahead(ss, i, |ss[i]|)
    decreases j - i
  {
    hide Passed, Ahead;
    NextChain(ss, j - 1);
    if i < j - 1 {
      SkipEmpty(ss, i, j - 1);
    }
  }

  /** Taking out the entry at a position. */
  lemma RemoveAt<T>(ss: seq<seq<T>>, i: nat, p: nat)
    requires i < |ss| && p < |ss[i]|
    ensures var rr := ss[i := ss[i][..p] + ss[i][p + 1..]];
            Passed(rr, i, p) == Passed(ss, i, p) && Ahead(rr, i, p) == Ahead(ss, i, p + 1)
  {
    var c := ss[i][..p] + ss[i][p + 1..];
    var rr := ss[i := c];
    assert rr[..i] == ss[..i] && rr[i + 1..] == ss[i + 1..];
    assert c[..p] == ss[i][..p] && c[p..] == ss[i][p + 1..];
  }

  class HashtableItr<K(==,!new), V> {
    var h: Hashtable<K, V>
    var e: Entry?<K, V>
    var parent: Entry?<K, V>
    var index: nat
    ghost var pos: nat

    /** The iterator stands at an entry, with its true predecessor, or at the end. */
    ghost predicate Valid()
      reads this, h, h.table, Cells(h.chains)
    {
      && h.Valid() && this !in Cells(h.chains)
      && index <= h.tablelength
      && (e == null ==> index == h.tablelength && pos == 0 && parent == null)
      && (e != null ==>
            && index < h.tablelength && pos < |h.chains[index]| && e == h.chains[index][pos]
            && parent == if pos == 0 then null else h.chains[index][pos - 1])
    }

    ghost function Done(): seq<Entry<K, V>>
      requires Valid()
      reads this, h, h.table, Cells(h.chains)
    {
      Passed(h.chains, index, pos)
    }

    ghost function ToCome(): seq<Entry<K, V>>
      requires Valid()
      reads this, h, h.table, Cells(h.chains)
    {
      Ahead(h.chains, index, pos)
    }

    /** hashtable_iterator */
    constructor (h: Hashtable<K, V>)
      requires h.Valid()
      ensures Valid() && this.h == h
      ensures Done() == [] && ToCome() == Flatten(h.chains)
      ensures e == null <==> Flatten(h.chains) == []
    {
      hide Table, Chain, Placed, Flatten, Prime, Passed, Ahead;
      ghost var cells := Cells(h.chains);
      this.h := h;
      e, parent, index, pos := null, null, h.tablelength, 0;
      new;
      assert this !in cells;
      var n := h.tablelength;
      if h.entrycount == 0 {
        AtEnd(h.chains);
      } else {
        var i := 0;
        while i < n && h.table[i] == null
          invariant h.Valid() && this.h == h && e == null && parent == null && index == n && pos == 0
          invariant 0 <= i <= n && forall b :: 0 <= b < i ==> h.chains[b] == []
        {
          HeadOf(h.table, h.chains, i);
          i := i + 1;
        }
        AtStart(h.chains, i);
        if i < n {
          HeadOf(h.table, h.chains, i);
          StepOver(h.chains, i, 0);
          e, index := h.table[i], i;
        } else {
          EndIsEnd(h.chains);
        }
      }
    }

    static lemma AtEnd(ss: seq<seq<Entry<K, V>>>)
      requires |Flatten(ss)| == 0
      ensures Passed(ss, |ss|, 0) == [] && Ahead(ss, |ss|, 0) == Flatten(ss)
    {
      PassedAndAhead(ss, |ss|, 0);
    }

    static lemma AtStart(ss: seq<seq<Entry<K, V>>>, i: nat)
      requires i <= |ss| && forall b :: 0 <= b < i ==> ss[b] == []
      ensures Passed(ss, i, 0) == [] && Ahead(ss, i, 0) == Flatten(ss)
    {
      FlattenEmpty(ss[..i]);
      PassedAndAhead(ss, i, 0);
      assert [] + Ahead(ss, i, 0) == Ahead(ss, i, 0);
    }

    lemma WholeTable()
      requires Valid()
      ensures h.Valid() && Done() + ToCome() == Flatten(h.chains) && h.entrycount == |Flatten(h.chains)|
    {
      hide Table, Chain, Placed, Flatten, Passed, Ahead;
      PassedAndAhead(h.chains, index, pos);
    }

    /** The work of hashtable_iterator_advance: on to position `p` of the current chain, or to the next
        chain. The entry being left may have been taken out of the table already. */
    method MoveOn(ghost p: nat) returns (ok: bool)
      requires h.Valid() && e != null && index < h.tablelength && p <= |h.chains[index]|
      requires e.next == if p < |h.chains[index]| then h.chains[index][p] else null
      requires this !in Cells(h.chains)
      modifies this
      ensures h == old(h) && h.Valid()
      ensures index <= h.tablelength && ok == (e != null)
      ensures if p < |h.chains[old(index)]| then
                index == old(index) && pos == p && e == h.chains[index][p] && parent == old(e)
              else
                && pos == 0 && parent == null
                && (e == null ==> index == h.tablelength)
                && (e != null ==> index < h.tablelength && h.chains[index] != [] && e == h.chains[index][0])
                && Passed(h.chains, index, 0) == Passed(h.chains, old(index), p)
                && Ahead(h.chains, index, 0) == Ahead(h.chains, old(index), p)
    {
      hide Table, Chain, Placed, Flatten, Prime, Passed, Ahead;
      var next := e.next;
      if next != null {
        parent := e;
        e := next;
        pos := p;
        return true;
      }
      ghost var i := index;
      parent, pos := null, 0;
      index := index + 1;
      var j := index;
      if h.tablelength <= j {
        e := null;
        SkipEmpty(h.chains, i, j);
        return false;
      }
      while h.table[j] == null
        invariant h == old(h) && h.Valid() && index <= h.tablelength
        invariant parent == null && pos == 0 && e == old(e) && index == i + 1
        invariant i < j < h.tablelength && forall b :: i < b < j ==> h.chains[b] == []
        decreases h.tablelength - j
      {
        HeadOf(h.table, h.chains, j);
        j := j + 1;
        if j >= h.tablelength {
          index := h.tablelength;
          e := null;
          SkipEmpty(h.chains, i, j);
          return false;
        }
      }
      HeadOf(h.table, h.chains, j);
      SkipEmpty(h.chains, i, j);
      index := j;
      e := h.table[j];
      return true;
    }

    /** hashtable_iterator_advance */
    method Advance() returns (ok: bool)
      requires Valid()
      modifies this
      ensures Valid() && h == old(h) && ok == (e != null) == (ToCome() != [])
      ensures old(e) == null ==> Done() == old(Done()) && ToCome() == old(ToCome())
      ensures old(e) != null ==>
                old(ToCome()) == [old(e)] + ToCome() && Done() == old(Done()) + [old(e)]
    {
      hide Table, Chain, Placed, Flatten, Prime, Passed, Ahead;
      if e == null {
        EndIsEnd(h.chains);
        return false;
      }
      NextOf(h.table, h.chains, index, pos);
      StepOver(h.chains, index, pos);
      ok := MoveOn(pos + 1);
      EndIsEnd(h.chains);
      if e != null {
        StepOver(h.chains, index, pos);
      }
    }

    static lemma EndIsEnd(ss: seq<seq<Entry<K, V>>>)
      ensures Ahead(ss, |ss|, 0) == []
    {
    }

    /** hashtable_iterator_remove: takes the current entry out and stands at the next one. */
    method Remove() returns (ok: bool)
      requires Valid() && e != null
      modifies this, h`entrycount, h`chains, h.table, Cells(h.chains)
      ensures Valid() && h == old(h) && ok == (e != null) == (ToCome() != [])
      ensures old(ToCome()) == [old(e)] + ToCome() && Done() == old(Done())
      ensures h.entrycount == old(h.entrycount) - 1 && Cells(h.chains) <= old(Cells(h.chains))
      ensures h.chains == old(h.chains)[old(index) :=
                old(h.chains)[old(index)][..old(pos)] + old(h.chains)[old(index)][old(pos) + 1..]]
    {
      hide Table, Chain, Placed, Flatten, Prime, Passed, Ahead;
      NextOf(h.table, h.chains, index, pos);
      StepOver(h.chains, index, pos);
      RemoveAt(h.chains, index, pos);
      var rememberE, rememberParent := e, parent;
      h.TakeOut(index, parent, e, pos);
      ok := MoveOn(pos);
      if parent == rememberE {
        parent := rememberParent;
      }
      EndIsEnd(h.chains);
      if e != null {
        StepOver(h.chains, index, pos);
      }
    }

    /** hashtable_iterator_search: stands at the entry that a search for the key finds; without one the
        iterator stays as it is. */
    method Find(h: Hashtable<K, V>, k: K) returns (found: bool)
      requires h.Valid() && this !in Cells(h.chains)
      modifies this
      ensures h.Valid() && found == (h.Lookup(k) != [])
      ensures !found ==> unchanged(this)
      ensures found ==> Valid() && this.h == h && e != null && e.k == k
      ensures found ==> index == IndexFor(|h.chains|, h.hashfn(k)) && pos == FirstIndex(h.chains[index], k)
    {
      hide Table, Chain, Placed, Flatten, Prime, Passed, Ahead, Values;
      var hashvalue := h.hashfn(k);
      var b := IndexFor(h.tablelength, hashvalue);
      HeadOf(h.table, h.chains, b);
      var e, parent: Entry?<K, V> := h.table[b], null;
      ghost var p := 0;
      while e != null
        invariant unchanged(this)
        invariant 0 <= p <= |h.chains[b]| && parent == (if p == 0 then null else h.chains[b][p - 1])
        invariant e == if p < |h.chains[b]| then h.chains[b][p] else null
        invariant forall j :: 0 <= j < p ==> h.chains[b][j].k != k
        decreases |h.chains[b]| - p
      {
        NextOf(h.table, h.chains, b, p);
        HashOf(h.chains, h.hashfn, b, p);
        if hashvalue == e.h && k == e.k {
          FirstIndexIs(h.chains[b], k, p);
          FoundValue(h.chains[b], k, p);
          this.index, this.e, this.parent, this.h, this.pos := b, e, parent, h, p;
          return true;
        }
        parent := e;
        e := e.next;
        p := p + 1;
      }
      NoValues(h.chains[b], k);
      return false;
    }
  }

  /** Searching with an iterator and removing through it leaves the very table that removing by key
      leaves. */
  method RemoveByIterator<K(==,!new), V>(h: Hashtable<K, V>, k: K) returns (found: bool)
    requires h.Valid()
    modifies h`entrycount, h`chains, h.table, Cells(h.chains)
    ensures |old(h.chains)| > 0 && h.Valid()
    ensures found == (old(h.Lookup(k)) != [])
    ensures h.chains == Removed(old(h.chains), h.hashfn, k)
    ensures h.entrycount == old(h.entrycount) - (if found then 1 else 0)
  {
    hide Table, Chain, Placed, Flatten, Prime, Passed, Ahead, Values;
    ghost var cells := Cells(h.chains);
    var itr := new HashtableItr<K, V>(h);
    assert itr !in cells;
    found := itr.Find(h, k);
    if found {
      var _ := itr.Remove();
    } else {
      NotFound(h.chains[IndexFor(|h.chains|, h.hashfn(k))], k);
    }
  }

  lemma {:induction false} NotFound<K, V>(chain: seq<Entry<K, V>>, k: K)
    requires Values(chain, k) == []
    ensures FirstIndex(chain, k) == |chain|
  {
    if chain != [] {
      NotFound(chain[1..], k);
    }
  }

  /** The elements that are not condemned, in order; `doomed` decides by position, from `start` on. */
  function KeptAt<T>(all: seq<T>, start: nat, doomed: nat -> bool): seq<T> {
    if all == [] then []
    else (if doomed(start) then [] else [all[0]]) + KeptAt(all[1..], start + 1, doomed)
  }

  /** How many of the `n` positions from `start` on are not condemned. */
  function Spared(start: nat, n: nat, doomed: nat -> bool): nat
    decreases n
  {
    if n == 0 then 0 else (if doomed(start) then 0 else 1) + Spared(start + 1, n - 1, doomed)
  }

  /** Every element that is not condemned is kept, behind as many others as were spared before it, and no
      other elements are. */
  lemma {:induction false} KeptIsSpared<T>(all: seq<T>, start: nat, doomed: nat -> bool)
    ensures var kept := KeptAt(all, start, doomed);
            && |kept| == Spared(start, |all|, doomed)
            && forall i :: 0 <= i < |all| && !doomed(start + i) ==>
                 Spared(start, i, doomed) < |kept| && kept[Spared(start, i, doomed)] == all[i]
    decreases |all|
  {
    if all != [] {
      var kept, later := KeptAt(all, start, doomed), KeptAt(all[1..], start + 1, doomed);
      KeptIsSpared(all[1..], start + 1, doomed);
      forall i | 0 <= i < |all| && !doomed(start + i)
        ensures Spared(start, i, doomed) < |kept| && kept[Spared(start, i, doomed)] == all[i]
      {
        if i > 0 {
          assert start + 1 + (i - 1) == start + i && all[1..][i - 1] == all[i];
          assert later[Spared(start + 1, i - 1, doomed)] == all[i];
        }
      }
    }
  }

  /** In the middle of an iteration over `all`: what has been visited and kept, and what is left. */
  ghost predicate Halfway<T>(all: seq<T>, visited: seq<T>, kept: seq<T>, left: seq<T>, doomed: nat -> bool) {
    visited + left == all && kept + KeptAt(left, |visited|, doomed) == KeptAt(all, 0, doomed)
  }

  lemma HalfwayStart<T>(all: seq<T>, doomed: nat -> bool)
    ensures Halfway(all, [], [], all, doomed)
  {
  }

  lemma HalfwayStep<T>(all: seq<T>, visited: seq<T>, kept: seq<T>, x: T, left: seq<T>, doomed: nat -> bool)
    requires Halfway(all, visited, kept, [x] + left, doomed)
    ensures Halfway(all, visited + [x], if doomed(|visited|) then kept else kept + [x], left, doomed)
  {
    assert ([x] + left)[1..] == left;
    assert kept + [] == kept;
  }

  lemma HalfwayEnd<T>(all: seq<T>, visited: seq<T>, kept: seq<T>, doomed: nat -> bool)
    requires Halfway(all, visited, kept, [], doomed)
    ensures visited == all && kept == KeptAt(all, 0, doomed)
  {
  }

  /** A whole iteration that advances past some entries and removes the others, as `doomed` decides at each
      step: it visits every entry exactly once, and leaves exactly those that were not condemned, in order. */
  method Sweep<K(==,!new), V>(h: Hashtable<K, V>, doomed: nat -> bool) returns (visited: seq<Entry<K, V>>)
    requires h.Valid()
    modifies h`entrycount, h`chains, h.table, Cells(h.chains)
    ensures h.Valid()
    ensures visited == old(Flatten(h.chains))
    ensures Flatten(h.chains) == KeptAt(old(Flatten(h.chains)), 0, doomed)
    ensures h.entrycount == |KeptAt(old(Flatten(h.chains)), 0, doomed)|
  {
    hide Flatten, Halfway, Hashtable.Valid, HashtableItr.Valid, HashtableItr.Done, HashtableItr.ToCome;
    ghost var all, cells := Flatten(h.chains), Cells(h.chains);
    var itr := new HashtableItr<K, V>(h);
    assert itr !in cells;
    visited := [];
    HalfwayStart(all, doomed);
    var more := itr.e != null;
    while more
      invariant fresh(itr) && itr.Valid() && h.Valid() && itr.h == h && Cells(h.chains) <= cells
      invariant h.table == old(h.table)
      invariant more == (itr.ToCome() != []) && (more ==> itr.e != null)
      invariant Halfway(all, visited, itr.Done(), itr.ToCome(), doomed)
      decreases |itr.ToCome()|
    {
      ghost var done, before := itr.Done(), visited;
      var e := itr.e;
      visited := visited + [e];
      if doomed(|visited| - 1) {
        more := itr.Remove();
      } else {
        more := itr.Advance();
      }
      itr.WholeTable();
      HalfwayStep<Entry<K, V>>(all, before, done, e, itr.ToCome(), doomed);
    }
    HalfwayEnd(all, visited, itr.Done(), doomed);
    itr.WholeTable();
    assert itr.Done() + [] == itr.Done();
  }
}
