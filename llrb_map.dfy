/**
 * An ordered map from integer keys to values, kept as a tree of key-value
 * entries ordered by key alone.
 */
module Maps {
  import opened OrderedSeqs
  import opened LLRB

  datatype Entry<V> = Entry(key: int, value: V)

  /** Entries compare by key only; two entries with the same key and different values are equal. */
  function CompareMapEntry<V>(e1: Entry<V>, e2: Entry<V>): (c: int)
    ensures c == 0 <==> e1.key == e2.key
    ensures c < 0 <==> e1.key < e2.key
  {
    Compare(e1.key, e2.key)
  }

  /** The tree of a map orders its entries by this key. */
  function EntryKey<V>(e: Entry<V>): int {
    e.key
  }

  /** The tree's key orders entries exactly as CompareMapEntry does. */
  lemma EntryOrder<V>(e1: Entry<V>, e2: Entry<V>)
    ensures CompareMapEntry(e1, e2) == Compare(EntryKey(e1), EntryKey(e2))
  {
  }

  /** The value part of a looked-up entry: nothing when no entry was found. */
  function ValueOf<V>(e: Option<Entry<V>>): (r: Option<V>)
    ensures r.Some? <==> e.Some?
    ensures e.Some? ==> r.value == e.value.value
  {
    if e.Some? then Some(e.value.value) else None
  }

  /** The map's callback, applied to an entry's key and value. */
  function OnEntry<V>(iter: (int, V) -> bool): Entry<V> -> bool {
    (e: Entry<V>) => iter(e.key, e.value)
  }

  /** The entry callback hands the entry's key and value to the map's callback. */
  lemma OnEntryCalls<V>(iter: (int, V) -> bool, k: int, v: V)
    ensures OnEntry(iter)(Entry(k, v)) == iter(k, v)
  {
  }

  class LLRBMap<V(0)> {
    const tr: LLRBTree<Entry<V>>

    ghost predicate Valid()
      reads this, tr
    {
      tr.Valid() && tr.key == EntryKey
    }

    /** The entries, in increasing key order. */
    ghost function Entries(): seq<Entry<V>>
      reads this, tr
    {
      tr.Contents()
    }

    /** The value stored under `k`, if any. */
    ghost function Lookup(k: int): Option<V>
      reads this, tr
    {
      ValueOf(Find(tr.key, tr.Contents(), k))
    }

    constructor()
      ensures Valid() && Entries() == [] && fresh(tr)
      ensures forall k :: Lookup(k) == None
    {
      tr := new LLRBTree(EntryKey);
    }

    /** Inserts or replaces the value under `k`, giving back the previous one. */
    method Set(k: int, v: V) returns (prev: Option<V>)
      requires Valid()
      modifies tr
      ensures Valid()
      ensures prev == old(Lookup(k))
      ensures Lookup(k) == Some(v)
      ensures forall k' :: k' != k ==> Lookup(k') == old(Lookup(k'))
      ensures tr.len == old(tr.len) + (if prev.None? then 1 else 0)
    {
      ghost var s := tr.Contents();
      var e := tr.ReplaceOrInsert(Entry(k, v));
      FindAfterUpsert(tr.key, s, Entry(k, v));
      prev := ValueOf(e);
    }

    method Get(k: int) returns (value: Option<V>)
      requires Valid()
      ensures value == Lookup(k)
    {
      var probe: V := *;
      var e := tr.Get(Entry(k, probe));
      value := ValueOf(e);
    }

    method Delete(k: int) returns (value: Option<V>)
      requires Valid()
      modifies tr
      ensures Valid()
      ensures value == old(Lookup(k))
      ensures Lookup(k) == None
      ensures forall k' :: k' != k ==> Lookup(k') == old(Lookup(k'))
      ensures tr.len == old(tr.len) - (if value.Some? then 1 else 0)
    {
      ghost var s := tr.Contents();
      var probe: V := *;
      var e := tr.Delete(Entry(k, probe));
      FindAfterRemove(tr.key, s, k);
      value := ValueOf(e);
    }

    /** Calls `iter` on the entries in increasing key order, until it returns false. */
    function Range(iter: (int, V) -> bool): (visited: seq<Entry<V>>)
      requires Valid()
      reads this, tr
      ensures visited == Visit(Entries(), OnEntry(iter)).0
      ensures StrictlySorted(tr.key, visited)
    {
      tr.CountMatches();
      VisitSorted(tr.key, tr.Contents(), OnEntry(iter));
      tr.Ascend(OnEntry(iter))
    }

    method Has(k: int) returns (b: bool)
      requires Valid()
      ensures b <==> Lookup(k).Some?
    {
      var probe: V := *;
      b := tr.Has(Entry(k, probe));
      if b {
        assert Find(tr.key, tr.Contents(), k).Some?;
      }
    }

    method Len() returns (n: int)
      requires Valid()
      ensures n == |Entries()|
    {
      n := tr.Len();
    }

    method Clear()
      requires Valid()
      modifies tr
      ensures Valid() && Entries() == []
      ensures forall k :: Lookup(k) == None
    {
      tr.Clear();
    }
  }
}
