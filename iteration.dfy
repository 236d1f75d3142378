/**
 * The walk behind Ascend, Descend and their range variants: an in-order (or
 * reverse in-order) traversal that skips subtrees lying wholly outside the
 * range and stops as soon as the callback returns false.
 */
module Iteration {
  import opened OrderedSeqs
  import opened Nodes

  /**
   * The items the callback is called on, in call order, and whether the walk
   * ran to the end. Ascending walks cover [start, end); descending walks
   * cover (end, start]. A missing bound does not restrict.
   */
  function Iterate<T>(key: T -> int, h: Tree<T>, desc: bool, start: Option<T>, end: Option<T>,
                      iter: T -> bool): (r: (seq<T>, bool))
    ensures |r.0| <= |Elems(h)|
  {
    if h.Leaf? then ([], true)
    else if !desc then
      if end.Some? && Compare(key(h.item), key(end.value)) >= 0 then
        Iterate(key, h.left, desc, start, end, iter)
      else if start.Some? && Compare(key(h.item), key(start.value)) < 0 then
        Iterate(key, h.right, desc, start, end, iter)
      else
        var l := Iterate(key, h.left, desc, start, end, iter);
        if !l.1 then l
        else if !iter(h.item) then (l.0 + [h.item], false)
        else
          var rt := Iterate(key, h.right, desc, start, end, iter);
          (l.0 + [h.item] + rt.0, rt.1)
    else
      if end.Some? && Compare(key(h.item), key(end.value)) <= 0 then
        Iterate(key, h.right, desc, start, end, iter)
      else if start.Some? && Compare(key(h.item), key(start.value)) > 0 then
        Iterate(key, h.left, desc, start, end, iter)
      else
        var rt := Iterate(key, h.right, desc, start, end, iter);
        if !rt.1 then rt
        else if !iter(h.item) then (rt.0 + [h.item], false)
        else
          var l := Iterate(key, h.left, desc, start, end, iter);
          (rt.0 + [h.item] + l.0, l.1)
  }

  /** A node's items in range: the range part of the left subtree, the node if in range, then the right. */
  lemma AscRangeNode<T>(key: T -> int, t: Tree<T>, ge: Option<T>, lt: Option<T>)
    requires t.Node?
    ensures AscRange(key, Elems(t), ge, lt) ==
              AscRange(key, Elems(t.left), ge, lt) + AscRange(key, [t.item], ge, lt) +
              AscRange(key, Elems(t.right), ge, lt)
  {
    AscRangeAppend(key, Elems(t.left) + [t.item], Elems(t.right), ge, lt);
    AscRangeAppend(key, Elems(t.left), [t.item], ge, lt);
  }

  /** A node's items in the descending range: the right subtree's, the node if in range, then the left's. */
  lemma DescRangeNode<T>(key: T -> int, t: Tree<T>, le: Option<T>, gt: Option<T>)
    requires t.Node?
    ensures DescRange(key, Elems(t), le, gt) ==
              DescRange(key, Elems(t.right), le, gt) + DescRange(key, [t.item], le, gt) +
              DescRange(key, Elems(t.left), le, gt)
  {
    DescRangeAppend(key, Elems(t.left) + [t.item], Elems(t.right), le, gt);
    DescRangeAppend(key, Elems(t.left), [t.item], le, gt);
  }

  /** Items all below a key that is itself below the lower bound lie outside [ge, lt). */
  lemma AscBelowStart<T>(key: T -> int, s: seq<T>, k: int, ge: Option<T>, lt: Option<T>)
    requires AllBelow(key, s, k) && ge.Some? && k < key(ge.value)
    ensures AscRange(key, s, ge, lt) == []
  {
    AscRangeNone(key, s, ge, lt);
  }

  /** Items all above a key that is not below the upper bound lie outside [ge, lt). */
  lemma AscAboveEnd<T>(key: T -> int, s: seq<T>, k: int, ge: Option<T>, lt: Option<T>)
    requires AllAbove(key, s, k) && lt.Some? && k >= key(lt.value)
    ensures AscRange(key, s, ge, lt) == []
  {
    AscRangeNone(key, s, ge, lt);
  }

  /** Items all below a key that is not above the lower bound lie outside (gt, le]. */
  lemma DescBelowEnd<T>(key: T -> int, s: seq<T>, k: int, le: Option<T>, gt: Option<T>)
    requires AllBelow(key, s, k) && gt.Some? && k <= key(gt.value)
    ensures DescRange(key, s, le, gt) == []
  {
    DescRangeNone(key, s, le, gt);
  }

  /** Items all above a key that is itself above the upper bound lie outside (gt, le]. */
  lemma DescAboveStart<T>(key: T -> int, s: seq<T>, k: int, le: Option<T>, gt: Option<T>)
    requires AllAbove(key, s, k) && le.Some? && k > key(le.value)
    ensures DescRange(key, s, le, gt) == []
  {
    DescRangeNone(key, s, le, gt);
  }

  /**
   * Where a node's items in [ge, lt) come from: only the left subtree when the
   * node is not below lt, only the right subtree when it is below ge, and
   * otherwise the left subtree's, the node, then the right subtree's.
   */
  lemma AscRangeSplit<T>(key: T -> int, t: Tree<T>, ge: Option<T>, lt: Option<T>)
    requires t.Node? && Ordered(key, t)
    ensures lt.Some? && key(t.item) >= key(lt.value) ==>
              AscRange(key, Elems(t), ge, lt) == AscRange(key, Elems(t.left), ge, lt)
    ensures InAscRange(key, t.item, ge, lt) ==>
              AscRange(key, Elems(t), ge, lt) ==
                AscRange(key, Elems(t.left), ge, lt) + [t.item] + AscRange(key, Elems(t.right), ge, lt)
    ensures ge.Some? && key(t.item) < key(ge.value) ==>
              AscRange(key, Elems(t), ge, lt) == AscRange(key, Elems(t.right), ge, lt)
  {
    var k := key(t.item);
    OrderedNode(key, t);
    AscRangeNode(key, t, ge, lt);
    var l, y, r := AscRange(key, Elems(t.left), ge, lt), AscRange(key, [t.item], ge, lt),
                   AscRange(key, Elems(t.right), ge, lt);
    if !InAscRange(key, t.item, ge, lt) {
      AscRangeNone(key, [t.item], ge, lt);
      assert y == [];
    } else {
      assert y == [t.item];
    }
    if lt.Some? && k >= key(lt.value) {
      AscAboveEnd(key, Elems(t.right), k, ge, lt);
      assert l + y + r == l;
    }
    if ge.Some? && k < key(ge.value) {
      AscBelowStart(key, Elems(t.left), k, ge, lt);
      assert l + y + r == r;
    }
  }

  /**
   * Where a node's items in (gt, le] come from, last first: only the right
   * subtree when the node is not above gt, only the left subtree when it is
   * above le, and otherwise the right subtree's, the node, then the left's.
   */
  lemma DescRangeSplit<T>(key: T -> int, t: Tree<T>, le: Option<T>, gt: Option<T>)
    requires t.Node? && Ordered(key, t)
    ensures gt.Some? && key(t.item) <= key(gt.value) ==>
              DescRange(key, Elems(t), le, gt) == DescRange(key, Elems(t.right), le, gt)
    ensures InDescRange(key, t.item, le, gt) ==>
              DescRange(key, Elems(t), le, gt) ==
                DescRange(key, Elems(t.right), le, gt) + [t.item] + DescRange(key, Elems(t.left), le, gt)
    ensures le.Some? && key(t.item) > key(le.value) ==>
              DescRange(key, Elems(t), le, gt) == DescRange(key, Elems(t.left), le, gt)
  {
    var k := key(t.item);
    OrderedNode(key, t);
    DescRangeNode(key, t, le, gt);
    var r, y, l := DescRange(key, Elems(t.right), le, gt), DescRange(key, [t.item], le, gt),
                   DescRange(key, Elems(t.left), le, gt);
    if !InDescRange(key, t.item, le, gt) {
      DescRangeNone(key, [t.item], le, gt);
      assert y == [];
    } else {
      assert y == [t.item];
    }
    if gt.Some? && k <= key(gt.value) {
      DescBelowEnd(key, Elems(t.left), k, le, gt);
      assert r + y + l == r;
    }
    if le.Some? && k > key(le.value) {
      DescAboveStart(key, Elems(t.right), k, le, gt);
      assert r + y + l == l;
    }
  }

  /**
   * On a search tree, an ascending walk calls the callback on the items in
   * [start, end) in increasing order, stopping after the first false.
   */
  lemma {:induction false} IterateAscending<T>(key: T -> int, h: Tree<T>, start: Option<T>, end: Option<T>,
                                               iter: T -> bool)
    requires Ordered(key, h)
    ensures Iterate(key, h, false, start, end, iter) == Visit(AscRange(key, Elems(h), start, end), iter)
  {
    if h.Node? {
      OrderedNode(key, h);
      AscRangeSplit(key, h, start, end);
      IterateAscending(key, h.left, start, end, iter);
      IterateAscending(key, h.right, start, end, iter);
      if InAscRange(key, h.item, start, end) {
        VisitNode(AscRange(key, Elems(h.left), start, end), h.item, AscRange(key, Elems(h.right), start, end), iter);
      }
    }
  }

  /**
   * On a search tree, a descending walk calls the callback on the items in
   * (end, start] in decreasing order, stopping after the first false.
   */
  lemma {:induction false} IterateDescending<T>(key: T -> int, h: Tree<T>, start: Option<T>, end: Option<T>,
                                                iter: T -> bool)
    requires Ordered(key, h)
    ensures Iterate(key, h, true, start, end, iter) == Visit(DescRange(key, Elems(h), start, end), iter)
  {
    if h.Node? {
      OrderedNode(key, h);
      DescRangeSplit(key, h, start, end);
      IterateDescending(key, h.left, start, end, iter);
      IterateDescending(key, h.right, start, end, iter);
      if InDescRange(key, h.item, start, end) {
        VisitNode(DescRange(key, Elems(h.right), start, end), h.item, DescRange(key, Elems(h.left), start, end), iter);
      }
    }
  }
}
