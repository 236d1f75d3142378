/** An ordered set of integers, kept as a tree whose items are their own keys. */
module Sets {
  import opened OrderedSeqs
  import opened LLRB

  /** The set's tree compares values directly. */
  function Identity(x: int): int {
    x
  }

  /** With values as their own keys, Find succeeds exactly on the stored values. */
  lemma FindValue(s: seq<int>, x: int)
    ensures Find(Identity, s, x).Some? <==> x in s
  {
    if x in s {
      var i :| 0 <= i < |s| && s[i] == x;
      assert Identity(s[i]) == x;
    }
  }

  /** Upserting a value adds exactly that value to the stored ones. */
  lemma UpsertValues(s: seq<int>, x: int)
    ensures Members(Upsert(Identity, s, x)) == Members(s) + {x}
  {
    UpsertMembers(Identity, s, x);
  }

  /** Removing a value's key takes exactly that value out of the stored ones. */
  lemma RemoveValues(s: seq<int>, x: int)
    ensures Members(RemoveKey(Identity, s, x)) == Members(s) - {x}
  {
    RemoveMembers(Identity, s, x);
  }

  /** Strictly increasing values drawn from [lo, hi) are at most hi - lo many. */
  lemma {:induction false} SortedWithin(s: seq<int>, lo: int, hi: int)
    requires StrictlySorted(Identity, s) && lo <= hi
    requires forall i :: 0 <= i < |s| ==> lo <= s[i] < hi
    ensures |s| <= hi - lo
    decreases |s|
  {
    if s != [] {
      SortedCons(Identity, s[0], s[1..]);
      assert s == [s[0]] + s[1..];
      assert forall i :: 0 <= i < |s[1..]| ==> s[0] < s[1..][i] && s[1..][i] == s[i + 1];
      SortedWithin(s[1..], s[0] + 1, hi);
    }
  }

  class LLRBSet {
    const tr: LLRBTree<int>

    ghost predicate Valid()
      reads this, tr
    {
      tr.Valid() && tr.key == Identity
    }

    /** The values in the set. */
    ghost function Elements(): set<int>
      reads this, tr
    {
      Members(tr.Contents())
    }

    constructor()
      ensures Valid() && Elements() == {} && fresh(tr)
    {
      tr := new LLRBTree(Identity);
    }

    /** Adds `item`; reports whether it was already present. */
    method Insert(item: int) returns (exist: bool)
      requires Valid()
      modifies tr
      ensures Valid()
      ensures exist <==> item in old(Elements())
      ensures Elements() == old(Elements()) + {item}
    {
      ghost var s := tr.Contents();
      var prev := tr.ReplaceOrInsert(item);
      FindValue(s, item);
      UpsertValues(s, item);
      exist := prev.Some?;
    }

    /** Removes `item`; reports whether it was present. */
    method Delete(item: int) returns (exist: bool)
      requires Valid()
      modifies tr
      ensures Valid()
      ensures exist <==> item in old(Elements())
      ensures Elements() == old(Elements()) - {item}
    {
      ghost var s := tr.Contents();
      var deleted := tr.Delete(item);
      FindValue(s, item);
      RemoveValues(s, item);
      exist := deleted.Some?;
    }

    /** Calls `iter` on the values in increasing order, until it returns false. */
    function Range(iter: int -> bool): (visited: seq<int>)
      requires Valid()
      reads this, tr
      ensures visited == Visit(tr.Contents(), iter).0
      ensures forall i, j :: 0 <= i < j < |visited| ==> visited[i] < visited[j]
    {
      tr.CountMatches();
      VisitSorted(tr.key, tr.Contents(), iter);
      tr.Ascend(iter)
    }

    method Has(item: int) returns (b: bool)
      requires Valid()
      ensures b <==> item in Elements()
    {
      b := tr.Has(item);
      FindValue(tr.Contents(), item);
    }

    /** The number of distinct values. */
    method Len() returns (n: int)
      requires Valid()
      ensures n == |Elements()|
    {
      n := tr.Len();
      tr.CountMatches();
      SortedCardinality(tr.key, tr.Contents());
    }

    /** A set whose values all lie in [lo, hi) holds at most hi - lo of them. */
    lemma CountWithin(lo: int, hi: int)
      requires Valid() && lo <= hi
      requires forall x :: x in Elements() ==> lo <= x < hi
      ensures |Elements()| <= hi - lo
    {
      tr.CountMatches();
      var s := tr.Contents();
      SortedCardinality(tr.key, s);
      assert forall i :: 0 <= i < |s| ==> s[i] in Elements();
      SortedWithin(s, lo, hi);
    }

    method Clear()
      requires Valid()
      modifies tr
      ensures Valid() && Elements() == {}
    {
      tr.Clear();
    }
  }
}
