/**
 * The public tree: a root and an item count, updated in place by every call.
 * Each update runs the recursive operation on the root, blackens the new root
 * and adjusts the count.
 */
module LLRB {
  import opened OrderedSeqs
  import opened Nodes
  import opened Balance
  import opened Insertion
  import opened Deletion
  import opened Iteration
  import opened HeightBounds

  class LLRBTree<T> {
    /** The comparator: items are compared by Compare(key(a), key(b)). */
    const key: T -> int
    var root: Tree<T>
    var len: nat

    /**
     * The tree invariant: a search tree for `key`, left-leaning, with equal
     * black height on every path and a black root, holding `len` items.
     */
    ghost predicate Valid()
      reads this
    {
      Ordered(key, root) && LeftLeaning(root) && Balanced(root) && !IsRed(root) &&
      len == |Elems(root)|
    }

    /** The items, in increasing key order. */
    ghost function Contents(): seq<T>
      reads this
    {
      Elems(root)
    }

    constructor(key: T -> int)
      ensures Valid() && Contents() == [] && this.key == key
    {
      this.key := key;
      root := Leaf;
      len := 0;
    }

    /** The count is the number of items, and the tree is empty exactly when the root is missing. */
    lemma CountMatches()
      requires Valid()
      ensures len == |Contents()| && (len == 0 <==> root.Leaf?)
      ensures StrictlySorted(key, Contents())
    {
    }

    /** The depth bound the balance invariants give: 2^depth <= (len+1)^2, i.e. depth <= 2·log2(len+1). */
    lemma DepthBound()
      requires Valid()
      ensures Pow2(Height(root)) <= (len + 1) * (len + 1)
    {
      HeightBound(root);
    }

    method ReplaceOrInsert(item: T) returns (prev: Option<T>)
      requires Valid()
      modifies this
      ensures Valid()
      ensures Contents() == Upsert(key, old(Contents()), item)
      ensures prev == Find(key, old(Contents()), key(item))
      ensures len == old(len) + (if prev.None? then 1 else 0)
    {
      var r := Insert(key, root, item);
      InsertContents(key, root, item);
      InsertShape(key, root, item);
      UpsertLength(key, Elems(root), item);
      root := Blacken(r.0);
      prev := r.1;
      if prev.None? {
        len := len + 1;
      }
    }

    /** The search loop: follows the comparison down from the root. */
    method Get(item: T) returns (found: Option<T>)
      requires Valid()
      ensures found == Find(key, Contents(), key(item))
    {
      var x := root;
      while x.Node?
        invariant Ordered(key, x)
        invariant Find(key, Contents(), key(item)) == Find(key, Elems(x), key(item))
        decreases x
      {
        FindSplit(key, Elems(x.left), x.item, Elems(x.right), key(item));
        SortedSplit(key, Elems(x.left), x.item, Elems(x.right));
        var c := Compare(key(item), key(x.item));
        if c == 0 {
          return Some(x.item);
        } else if c < 0 {
          x := x.left;
        } else {
          x := x.right;
        }
      }
      return None;
    }

    method Has(item: T) returns (b: bool)
      requires Valid()
      ensures b <==> exists i :: 0 <= i < |Contents()| && key(Contents()[i]) == key(item)
    {
      var found := Get(item);
      b := found.Some?;
    }

    method DeleteMin() returns (deleted: Option<T>)
      requires Valid()
      modifies this
      ensures Valid()
      ensures old(Contents()) == [] ==> deleted.None? && root.Leaf? && len == 0
      ensures old(Contents()) != [] ==>
                deleted.Some? && old(Contents()) == [deleted.value] + Contents() && len == old(len) - 1
      ensures deleted.Some? ==> AllAbove(key, Contents(), key(deleted.value))
    {
      var r := Deletion.DeleteMin(root);
      DeleteMinShape(root);
      if root.Node? {
        DeleteMinContents(root);
        SortedCons(key, r.1.value, Elems(r.0));
      }
      root := Blacken(r.0);
      deleted := r.1;
      if deleted.Some? {
        len := len - 1;
      }
    }

    method DeleteMax() returns (deleted: Option<T>)
      requires Valid()
      modifies this
      ensures Valid()
      ensures old(Contents()) == [] ==> deleted.None? && root.Leaf? && len == 0
      ensures old(Contents()) != [] ==>
                deleted.Some? && old(Contents()) == Contents() + [deleted.value] && len == old(len) - 1
      ensures deleted.Some? ==> AllBelow(key, Contents(), key(deleted.value))
    {
      LeftLeaningDeleteReady(root);
      var r := Deletion.DeleteMax(root);
      DeleteMaxShape(root);
      if root.Node? {
        DeleteMaxContents(root);
        SortedSnoc(key, Elems(r.0), r.1.value);
      }
      root := Blacken(r.0);
      deleted := r.1;
      if deleted.Some? {
        len := len - 1;
      }
    }

    method Delete(item: T) returns (deleted: Option<T>)
      requires Valid()
      modifies this
      ensures Valid()
      ensures Contents() == RemoveKey(key, old(Contents()), key(item))
      ensures deleted == Find(key, old(Contents()), key(item))
      ensures deleted.None? ==> Contents() == old(Contents())
      ensures len == old(len) - (if deleted.Some? then 1 else 0)
    {
      LeftLeaningDeleteReady(root);
      var r := Deletion.Delete(key, root, item);
      DeleteShape(key, root, item);
      DeleteContents(key, root, item);
      RemoveSorted(key, Elems(root), key(item));
      RemoveLength(key, Elems(root), key(item));
      if r.1.None? {
        RemoveMissing(key, Elems(root), key(item));
      }
      root := Blacken(r.0);
      deleted := r.1;
      if deleted.Some? {
        len := len - 1;
      }
    }

    method Clear()
      requires Valid()
      modifies this
      ensures Valid() && Contents() == [] && len == 0
    {
      root := Leaf;
      len := 0;
    }

    method Len() returns (n: int)
      requires Valid()
      ensures n == |Contents()|
    {
      n := len;
    }

    /** Calls `iter` on the items e with ge <= e < lt in increasing order, until it returns false. */
    function AscendRange(greaterOrEqual: T, lessThan: T, iter: T -> bool): (visited: seq<T>)
      requires Valid()
      reads this
      ensures visited == Visit(AscRange(key, Contents(), Some(greaterOrEqual), Some(lessThan)), iter).0
    {
      IterateAscending(key, root, Some(greaterOrEqual), Some(lessThan), iter);
      Iterate(key, root, false, Some(greaterOrEqual), Some(lessThan), iter).0
    }

    /** Calls `iter` on the items e < pivot in increasing order, until it returns false. */
    function AscendLessThan(pivot: T, iter: T -> bool): (visited: seq<T>)
      requires Valid()
      reads this
      ensures visited == Visit(AscRange(key, Contents(), None, Some(pivot)), iter).0
    {
      IterateAscending(key, root, None, Some(pivot), iter);
      Iterate(key, root, false, None, Some(pivot), iter).0
    }

    /** Calls `iter` on the items e >= pivot in increasing order, until it returns false. */
    function AscendGreaterOrEqual(pivot: T, iter: T -> bool): (visited: seq<T>)
      requires Valid()
      reads this
      ensures visited == Visit(AscRange(key, Contents(), Some(pivot), None), iter).0
    {
      IterateAscending(key, root, Some(pivot), None, iter);
      Iterate(key, root, false, Some(pivot), None, iter).0
    }

    /** Calls `iter` on every item in increasing order, until it returns false. */
    function Ascend(iter: T -> bool): (visited: seq<T>)
      requires Valid()
      reads this
      ensures visited == Visit(Contents(), iter).0
    {
      IterateAscending(key, root, None, None, iter);
      UnboundedRanges(key, Contents());
      Iterate(key, root, false, None, None, iter).0
    }

    /** Calls `iter` on the items e with gt < e <= le in decreasing order, until it returns false. */
    function DescendRange(lessOrEqual: T, greaterThan: T, iter: T -> bool): (visited: seq<T>)
      requires Valid()
      reads this
      ensures visited == Visit(DescRange(key, Contents(), Some(lessOrEqual), Some(greaterThan)), iter).0
    {
      IterateDescending(key, root, Some(lessOrEqual), Some(greaterThan), iter);
      Iterate(key, root, true, Some(lessOrEqual), Some(greaterThan), iter).0
    }

    /** Calls `iter` on the items e <= pivot in decreasing order, until it returns false. */
    function DescendLessOrEqual(pivot: T, iter: T -> bool): (visited: seq<T>)
      requires Valid()
      reads this
      ensures visited == Visit(DescRange(key, Contents(), Some(pivot), None), iter).0
    {
      IterateDescending(key, root, Some(pivot), None, iter);
      Iterate(key, root, true, Some(pivot), None, iter).0
    }

    /** Calls `iter` on the items e > pivot in decreasing order, until it returns false. */
    function DescendGreaterThan(pivot: T, iter: T -> bool): (visited: seq<T>)
      requires Valid()
      reads this
      ensures visited == Visit(DescRange(key, Contents(), None, Some(pivot)), iter).0
    {
      IterateDescending(key, root, None, Some(pivot), iter);
      Iterate(key, root, true, None, Some(pivot), iter).0
    }

    /** Calls `iter` on every item in decreasing order, until it returns false. */
    function Descend(iter: T -> bool): (visited: seq<T>)
      requires Valid()
      reads this
      ensures visited == Visit(Reverse(Contents()), iter).0
    {
      IterateDescending(key, root, None, None, iter);
      UnboundedRanges(key, Contents());
      Iterate(key, root, true, None, None, iter).0
    }
  }

  /**
   * Calling DeleteMin at least once per item empties the tree: the root
   * ends missing, the count ends at 0, and the items come out in increasing
   * order, exactly the old contents.
   */
  method DrainMin<T>(t: LLRBTree<T>, calls: nat) returns (drained: seq<T>)
    requires t.Valid() && calls >= t.len
    modifies t
    ensures t.Valid() && t.root.Leaf? && t.len == 0
    ensures drained == old(t.Contents())
  {
    drained := [];
    EmptyIdentity(t.Contents());
    var i := 0;
    while i < calls
      invariant i <= calls && t.Valid() && t.len <= calls - i
      invariant old(t.Contents()) == drained + t.Contents()
    {
      var d := t.DeleteMin();
      if d.Some? {
        Associative(drained, [d.value], t.Contents());
        drained := drained + [d.value];
      }
      i := i + 1;
    }
    t.CountMatches();
    EmptyIdentity(drained);
  }

  /**
   * Calling DeleteMax at least once per item empties the tree: the root ends
   * missing, the count ends at 0, and the items come out largest first, the
   * old contents reversed.
   */
  method DrainMax<T>(t: LLRBTree<T>, calls: nat) returns (drained: seq<T>)
    requires t.Valid() && calls >= t.len
    modifies t
    ensures t.Valid() && t.root.Leaf? && t.len == 0
    ensures Reverse(drained) == old(t.Contents())
  {
    drained := [];
    EmptyIdentity(t.Contents());
    var i := 0;
    while i < calls
      invariant i <= calls && t.Valid() && t.len <= calls - i
      invariant old(t.Contents()) == t.Contents() + Reverse(drained)
    {
      var d := t.DeleteMax();
      if d.Some? {
        ReverseSnoc(drained, d.value);
        Associative(t.Contents(), [d.value], Reverse(drained));
        drained := drained + [d.value];
      }
      i := i + 1;
    }
    t.CountMatches();
    EmptyIdentity(Reverse(drained));
  }
}
