/**
 The cache of open log files in yaul.c (file mode, no SIGHUP, every open succeeds): a hash table from
 log names to open files that evicts a random file, but never the one used last.
 */
module FileCaches {
  import opened Bytes
  import opened Chains
  import opened Hashtables
  import opened HashtableIterators

  /** The files are told apart by numbers. */
  class HandleBuffer {
    const name: bytes
    const filehandle: nat

    constructor (name: bytes, filehandle: nat)
      ensures this.name == name && this.filehandle == filehandle
    {
      this.name, this.filehandle := name, filehandle;
    }
  }

  class FileCache {
    const handles: Hashtable<bytes, HandleBuffer>
    const maxhandles: nat
    var lastfile: HandleBuffer?
    var filesOpened: nat
    var filesClosed: nat
    var filesSwitched: nat
    /** The files that are open, and the log each was opened for. */
    ghost var open: map<nat, bytes>

    /** The table binds exactly the logs whose files are open, each to its file. */
    ghost predicate Files()
      reads `open, handles, handles.table, Cells(handles.chains)
    {
      && handles.Valid()
      && (forall name :: |handles.Lookup(name)| <= 1)
      && (forall name :: handles.Lookup(name) != [] ==>
            var h := handles.Lookup(name)[0];
            h.name == name && h.filehandle in open && open[h.filehandle] == name)
      && (forall f :: f in open ==> handles.Lookup(open[f]) != [] && handles.Lookup(open[f])[0].filehandle == f)
    }

    ghost predicate Valid()
      reads this, handles, handles.table, Cells(handles.chains)
    {
      && Files() && this !in Cells(handles.chains)
      && (lastfile == null <==> handles.entrycount == 0)
      && (lastfile != null ==> handles.Lookup(lastfile.name) == [lastfile])
      && filesOpened == filesClosed + handles.entrycount
      && (handles.entrycount <= maxhandles || handles.entrycount <= 2)
    }

    constructor (maxhandles: nat, handles: Hashtable<bytes, HandleBuffer>)
      requires handles.Valid() && handles.entrycount == 0 && forall name :: handles.Lookup(name) == []
      ensures Valid() && this.handles == handles && this.maxhandles == maxhandles && open == map[]
    {
      this.handles, this.maxhandles := handles, maxhandles;
      lastfile, filesOpened, filesClosed, filesSwitched, open := null, 0, 0, 0, map[];
    }

    /** The entry at position `roll` of the table is that of the log `name`. */
    ghost predicate StandsAt(roll: nat, name: bytes)
      reads handles
    {
      roll < |Flatten(handles.chains)| && Flatten(handles.chains)[roll].k == name
    }

    /** The start of the server: the table is created for the configured number of files. */
    static method Start(maxhandles: nat, hashfn: bytes -> nat) returns (cache: FileCache?)
      ensures cache == null <==> maxhandles > 0x4000_0000
      ensures cache != null ==>
                && fresh(cache) && fresh(cache.handles) && fresh(cache.handles.table)
                && cache.Valid() && cache.maxhandles == maxhandles && cache.handles.entrycount == 0
                && Cells(cache.handles.chains) == {}
    {
      hide Table, Chain, Prime, Flatten, Values, Placed;
      var handles := Hashtable<bytes, HandleBuffer>.Create(maxhandles, hashfn);
      if handles == null {
        return null;
      }
      cache := new FileCache(maxhandles, handles);
    }

    /** Some entry is not the one used last, so the random choice of a file to close can succeed. */
    lemma VictimExists()
      requires Valid() && handles.entrycount > 1
      ensures lastfile != null
      ensures exists roll: nat :: roll < |Flatten(handles.chains)| && Flatten(handles.chains)[roll].k != lastfile.name
    {
      hide Table, Chain, Prime, Values;
      LookupIsValues(handles, lastfile.name);
      TwoOfAKey(Flatten(handles.chains), lastfile.name);
    }

    /** closeRandomFile: `roll` is the random number that ends the loop, the position of an entry other
        than the one used last. */
    method CloseRandomFile(roll: nat)
      requires Valid()
      requires handles.entrycount > 1 ==>
                 roll < |Flatten(handles.chains)| && Flatten(handles.chains)[roll].k != lastfile.name
      modifies this`filesClosed, this`open, handles`entrycount, handles`chains, handles.table, Cells(handles.chains)
      ensures Valid() && Cells(handles.chains) <= old(Cells(handles.chains))
      ensures handles.entrycount == old(handles.entrycount) - (if old(handles.entrycount) > 1 then 1 else 0)
      ensures old(handles.entrycount) <= 1 ==>
                open == old(open) && forall name :: handles.Lookup(name) == old(handles.Lookup(name))
      ensures old(handles.entrycount) > 1 ==>
                var victim := old(Flatten(handles.chains)[roll]);
                && open == old(open) - {victim.v.filehandle}
                && forall name :: handles.Lookup(name) == if name == victim.k then [] else old(handles.Lookup(name))
    {
      hide Table, Chain, Prime, Flatten, Values, Placed, Hashtable.Lookup;
      if handles.entrycount > 1 {
        EntryIsFound(handles, roll);
        var handle := EntryAt(handles, roll);
        assert handles.Lookup(handle.name) == [handle];
        open := open - {handle.filehandle};
        filesClosed := filesClosed + 1;
        var _ := handles.Remove(handle.name);
      }
    }

    method Register(name: bytes, file: nat, memory: Memory) returns (newfile: HandleBuffer)
      requires Files() && handles.Lookup(name) == [] && file !in open && this !in Cells(handles.chains)
      modifies this`open, handles, handles.table, Cells(handles.chains)
      ensures Files() && newfile.name == name && newfile.filehandle == file && open == old(open)[file := name]
      ensures handles.entrycount == old(handles.entrycount) + 1
      ensures forall n :: handles.Lookup(n) == if n == name then [newfile] else old(handles.Lookup(n))
      ensures (handles.table == old(handles.table) || fresh(handles.table))
      ensures fresh(Cells(handles.chains) - old(Cells(handles.chains)))
    {
      hide Table, Chain, Prime, Flatten, Values, Placed, Hashtable.Lookup, Hashtable.Valid;
      newfile := new HandleBuffer(name, file);
      InsertNew(handles, name, newfile, memory);
      assert [newfile] + [] == [newfile];
      open := open[file := name];
    }

    /** Puts a newly opened file into the table. */
    method Enter(name: bytes, file: nat, memory: Memory) returns (newfile: HandleBuffer)
      requires Valid() && handles.Lookup(name) == [] && file !in open
      requires handles.entrycount < maxhandles || handles.entrycount < 2
      modifies this, handles, handles.table, Cells(handles.chains)
      ensures Valid() && lastfile == newfile && newfile.name == name && newfile.filehandle == file
      ensures open == old(open)[file := name]
      ensures handles.entrycount == old(handles.entrycount) + 1
      ensures filesOpened == old(filesOpened) + 1 && filesSwitched == old(filesSwitched) + 1
      ensures forall n :: n != name ==> handles.Lookup(n) == old(handles.Lookup(n))
      ensures (handles.table == old(handles.table) || fresh(handles.table))
      ensures fresh(Cells(handles.chains) - old(Cells(handles.chains)))
    {
      hide Files, Hashtable.Lookup, Hashtable.Valid;
      newfile := Register(name, file, memory);
      filesOpened := filesOpened + 1;
      filesSwitched := filesSwitched + 1;
      lastfile := newfile;
    }

    /** Opens a file that is not in the table, after making room for it. */
    method OpenNew(name: bytes, roll: nat, file: nat, memory: Memory)
      requires Valid() && file !in open && handles.Lookup(name) == []
      requires handles.entrycount > 1 ==>
                 roll < |Flatten(handles.chains)| && Flatten(handles.chains)[roll].k != lastfile.name
      modifies this, handles, handles.table, Cells(handles.chains)
      ensures Valid() && file in open && open[file] == name
      ensures lastfile != null && lastfile.name == name && lastfile.filehandle == file
      ensures handles.table == old(handles.table) || fresh(handles.table)
      ensures fresh(Cells(handles.chains) - old(Cells(handles.chains)))
      ensures old(lastfile) != null ==> handles.Lookup(old(lastfile).name) == [old(lastfile)]
      ensures old(handles.entrycount < maxhandles || handles.entrycount <= 1) ==>
                && handles.entrycount == old(handles.entrycount) + 1
                && forall n :: n != name ==> handles.Lookup(n) == old(handles.Lookup(n))
      ensures old(handles.entrycount >= maxhandles && handles.entrycount > 1) ==>
                && handles.entrycount == old(handles.entrycount)
                && forall n :: n != name ==>
                     handles.Lookup(n) == if old(StandsAt(roll, n)) then [] else old(handles.Lookup(n))
      ensures filesOpened == old(filesOpened) + 1 && filesSwitched == old(filesSwitched) + 1
    {
      hide Table, Chain, Prime, Flatten, Values, Placed, Hashtable.Lookup, Hashtable.Valid;
      if handles.entrycount >= maxhandles {
        CloseRandomFile(roll);
      }
      var _ := Enter(name, file, memory);
    }

    /** openLogfile: the open file of a log. `file` is what fopen would return, a file not open yet. */
    method OpenLogfile(name: bytes, roll: nat, file: nat, memory: Memory) returns (filehandle: nat)
      requires Valid() && file !in open
      requires handles.entrycount > 1 ==>
                 roll < |Flatten(handles.chains)| && Flatten(handles.chains)[roll].k != lastfile.name
      modifies this, handles, handles.table, Cells(handles.chains)
      ensures Valid()
      ensures filehandle in open && open[filehandle] == name
      ensures lastfile != null && lastfile.name == name && lastfile.filehandle == filehandle
      ensures old(handles.Lookup(name)) != [] ==>
                filehandle == old(handles.Lookup(name))[0].filehandle && open == old(open)
      ensures old(handles.Lookup(name)) == [] ==> filehandle == file
      ensures handles.table == old(handles.table) || fresh(handles.table)
      ensures fresh(Cells(handles.chains) - old(Cells(handles.chains)))
      ensures old(lastfile) != null ==> handles.Lookup(old(lastfile).name) == [old(lastfile)]
      ensures handles.entrycount <= maxhandles || handles.entrycount <= 2
      ensures old(handles.Lookup(name) != []) ==>
                && handles.entrycount == old(handles.entrycount)
                && forall n :: handles.Lookup(n) == old(handles.Lookup(n))
      ensures old(handles.Lookup(name) == [] && (handles.entrycount < maxhandles || handles.entrycount <= 1)) ==>
                && handles.entrycount == old(handles.entrycount) + 1
                && forall n :: n != name ==> handles.Lookup(n) == old(handles.Lookup(n))
      ensures old(handles.Lookup(name) == [] && handles.entrycount >= maxhandles && handles.entrycount > 1) ==>
                && handles.entrycount == old(handles.entrycount)
                && forall n :: n != name ==>
                     handles.Lookup(n) == if old(StandsAt(roll, n)) then [] else old(handles.Lookup(n))
      ensures filesOpened == old(filesOpened) + (if old(handles.Lookup(name)) == [] then 1 else 0)
      ensures filesSwitched == old(filesSwitched) + (if old(lastfile == null || lastfile.name != name) then 1 else 0)
    {
      hide Table, Chain, Prime, Flatten, Values, Placed, Hashtable.Lookup;
      if lastfile == null || lastfile.name != name {
        var newfile := handles.Search(name);
        if newfile.None? {
          OpenNew(name, roll, file, memory);
        } else {
          BoundMeansEntries(handles, name);
          filesSwitched := filesSwitched + 1;
          lastfile := newfile.value;
        }
      }
      return lastfile.filehandle;
    }
  }

  /** Inserting into a table in which no key is bound twice, whether or not the table grows. */
  method InsertNew<K(==,!new), V>(h: Hashtable<K, V>, k: K, v: V, memory: Memory)
    requires h.Valid() && forall k' :: |h.Lookup(k')| <= 1
    modifies h, h.table, Cells(h.chains)
    ensures h.Valid() && (h.table == old(h.table) || fresh(h.table)) && fresh(Cells(h.chains) - old(Cells(h.chains)))
    ensures h.entrycount == old(h.entrycount) + 1
    ensures forall k' :: h.Lookup(k') == (if k' == k then [v] else []) + old(h.Lookup(k'))
  {
    hide Table, Chain, Prime, Flatten, Values, Placed, Hashtable.Lookup, Stays, Reordered;
    var growth := h.Insert(k, v, memory);
    forall k' ensures h.Lookup(k') == (if k' == k then [v] else []) + old(h.Lookup(k')) {
      SingleUnmoved(growth, Stays(h.hashfn(k'), old(h.tablelength), h.tablelength), old(h.Lookup(k')));
    }
  }

  lemma BoundMeansEntries<K(!new), V>(h: Hashtable<K, V>, k: K)
    requires h.Valid() && h.Lookup(k) != []
    ensures h.entrycount > 0
  {
    LookupIsValues(h, k);
  }

  /** The values of a key that is bound once keep their order when the table grows. */
  lemma SingleUnmoved<T>(growth: Growth, stays: bool, values: seq<T>)
    ensures |values| <= 1 ==> Reordered(growth, stays, values) == values
  {
    if |values| == 1 {
      assert Reverse(values) == Reverse<T>([]) + [values[0]];
    }
  }

  lemma LookupIsValues<K(!new), V>(h: Hashtable<K, V>, k: K)
    requires h.Valid()
    ensures Values(Flatten(h.chains), k) == h.Lookup(k)
  {
    var b := IndexFor(|h.chains|, h.hashfn(k));
    forall c, j | 0 <= c < |h.chains| && c != b && 0 <= j < |h.chains[c]| ensures h.chains[c][j].k != k {
    }
    ValuesOfFlatten(h.chains, b, k);
  }

  lemma TwoOfAKey<K, V>(all: seq<Entry<K, V>>, k: K)
    requires |all| >= 2
    ensures all[0].k == k && all[1].k == k ==> |Values(all, k)| >= 2
  {
    var others := all[2..];
    assert all == [all[0]] + ([all[1]] + others);
    ValuesAppend([all[0]], [all[1]] + others, k);
    ValuesAppend([all[1]], others, k);
    ValuesOne(all[0], k);
    ValuesOne(all[1], k);
  }

  /** Where keys are not bound twice, every entry is found under its key. */
  lemma EntryIsFound<K(!new), V>(h: Hashtable<K, V>, i: nat)
    requires h.Valid() && i < |Flatten(h.chains)|
    ensures var e := Flatten(h.chains)[i]; |h.Lookup(e.k)| <= 1 ==> h.Lookup(e.k) == [e.v]
  {
    hide Table, Chain, Prime, Flatten, Values, Placed;
    var all := Flatten(h.chains);
    var e := all[i];
    LookupIsValues(h, e.k);
    assert all == all[..i] + ([e] + all[i + 1..]);
    ValuesAppend(all[..i], [e] + all[i + 1..], e.k);
    ValuesAppend([e], all[i + 1..], e.k);
    ValuesOne(e, e.k);
  }

  /** The value of the entry that an iterator reaches after `steps` steps. */
  method EntryAt<K(==,!new), V>(h: Hashtable<K, V>, steps: nat) returns (v: V)
    requires h.Valid() && steps < |Flatten(h.chains)|
    ensures v == Flatten(h.chains)[steps].v
  {
    hide Table, Chain, Placed, Prime, Flatten, Passed, Ahead;
    ghost var all := Flatten(h.chains);
    var itr := new HashtableItr<K, V>(h);
    for i := 0 to steps
      invariant fresh(itr) && itr.Valid() && itr.h == h && h.Valid()
      invariant itr.ToCome() == all[i..]
    {
      assert all[i..] == [all[i]] + all[i + 1..];
      CurrentEntry(itr);
      var _ := itr.Advance();
    }
    CurrentEntry(itr);
    v := itr.e.v;
  }

  lemma CurrentEntry<K(!new), V>(itr: HashtableItr<K, V>)
    requires itr.Valid()
    ensures itr.ToCome() != [] ==> itr.e != null && itr.ToCome()[0] == itr.e
  {
    hide Table, Chain, Placed, Prime, Flatten, Passed;
  }
}
