/**
 * The recursive steps of DeleteMin, DeleteMax and Delete. On the way down
 * each one keeps the node it stands on out of a 2-node (moveRedLeft,
 * moveRedRight, a right rotation), so that removing a bottom node never
 * shortens a path; fixUp repairs the shape on the way back up.
 */
module Deletion {
  import opened OrderedSeqs
  import opened Nodes
  import opened Balance

  /** The new subtree root and the removed smallest item, if the subtree had one. */
  function DeleteMin<T>(h: Tree<T>): (r: (Tree<T>, Option<T>))
    requires LeftLeaning(h) && Balanced(h)
    ensures r.1.Some? <==> h.Node?
    decreases |Elems(h)|
  {
    if h.Leaf? then (Leaf, None)
    else if h.left.Leaf? then (Leaf, Some(h.item))
    else
      var f := if !IsRed(h.left) && !IsRed(h.left.left) then MoveRedLeftShape(h); MoveRedLeft(h) else h;
      var (l, deleted) := DeleteMin(f.left);
      (FixUp(f.(left := l)), deleted)
  }

  /** The new subtree root and the removed largest item, if the subtree had one. */
  function DeleteMax<T>(h: Tree<T>): (r: (Tree<T>, Option<T>))
    requires DeleteReady(h)
    ensures r.1.Some? <==> h.Node?
    decreases |Elems(h)|
  {
    if h.Leaf? then (Leaf, None)
    else
      var h1 := if IsRed(h.left) then RotateRightShape(h); RotateRight(h) else h;
      LeftLeaningDeleteReady(h1.right);
      if h1.right.Leaf? then (Leaf, Some(h1.item))
      else
        var f := if !IsRed(h1.right) && !IsRed(h1.right.left) then MoveRedRightShape(h1); MoveRedRight(h1) else h1;
        var (rt, deleted) := DeleteMax(f.right);
        (FixUp(f.(right := rt)), deleted)
  }

  /**
   * The new subtree root and the removed item whose key equals x's, if there
   * was one. A red right child is met only on the way down to the right, so
   * only when x does not sort before the node.
   */
  function Delete<T>(key: T -> int, h: Tree<T>, x: T): (r: (Tree<T>, Option<T>))
    requires DeleteReady(h) && Ordered(key, h)
    requires h.Node? && IsRed(h.right) ==> key(x) >= key(h.item)
    ensures r.1.Some? ==> h.Node? && key(r.1.value) == key(x)
    decreases |Elems(h)|
  {
    if h.Leaf? then (Leaf, None)
    else if Compare(key(x), key(h.item)) < 0 then
      if h.left.Leaf? then (h, None)
      else
        var f := if !IsRed(h.left) && !IsRed(h.left.left) then MoveRedLeftShape(h); MoveRedLeft(h) else h;
        OrderedNode(key, f);
        LeftLeaningDeleteReady(f.left);
        var (l, deleted) := Delete(key, f.left, x);
        (FixUp(f.(left := l)), deleted)
    else
      var h1 := if IsRed(h.left) then RotateRightShape(h); RotateRight(h) else h;
      LeftLeaningDeleteReady(h1.right);
      if Compare(key(x), key(h1.item)) == 0 && h1.right.Leaf? then (Leaf, Some(h1.item))
      else
        var f := if h1.right.Node? && !IsRed(h1.right) && !IsRed(h1.right.left) then
                   MoveRedRightShape(h1); MoveRedRightItem(key, h1); MoveRedRight(h1)
                 else h1;
        OrderedNode(key, f);
        if Compare(key(x), key(f.item)) == 0 then
          var (rt, rightMin) := DeleteMin(f.right);
          (FixUp(f.(right := rt, item := rightMin.value)), Some(f.item))
        else
          var (rt, deleted) := Delete(key, f.right, x);
          (FixUp(f.(right := rt)), deleted)
  }

  /**
   * moveRedRight keeps the root's item, unless it rotates the left child up,
   * whose key on a search tree is smaller than the root's.
   */
  lemma MoveRedRightItem<T>(key: T -> int, h: Tree<T>)
    requires h.Node? && h.left.Node? && h.right.Node? && Ordered(key, h)
    ensures !IsRed(h.left.left) ==> MoveRedRight(h).item == h.item
    ensures IsRed(h.left.left) ==> key(MoveRedRight(h).item) < key(h.item)
  {
    OrderedNode(key, h);
    RootPosition(h.left);
  }

  /**
   * deleteMin keeps the balance and leaves at worst a red root over a red
   * left child. Unless it starts from a black 2-node (only ever the tree's
   * root), the result is left-leaning, has the same black height, and is red
   * only if the old node was.
   */
  lemma {:induction false} DeleteMinShape<T>(h: Tree<T>)
    requires LeftLeaning(h) && Balanced(h)
    ensures Balanced(DeleteMin(h).0) && AlmostLeftLeaning(DeleteMin(h).0)
    ensures h.Leaf? || NotTwoNode(h) ==>
              LeftLeaning(DeleteMin(h).0) && BlackHeight(DeleteMin(h).0) == BlackHeight(h) &&
              (IsRed(DeleteMin(h).0) ==> IsRed(h))
    decreases |Elems(h)|
  {
    if h.Node? && h.left.Node? {
      var f := if !IsRed(h.left) && !IsRed(h.left.left) then MoveRedLeft(h) else h;
      if !IsRed(h.left) && !IsRed(h.left.left) {
        MoveRedLeftShape(h);
      }
      assert Balanced(f.left);
      DeleteMinShape(f.left);
      var g := f.(left := DeleteMin(f.left).0);
      FixUpShape(g);
    }
  }

  /** deleteMax keeps the shape as deleteMin does. */
  lemma {:induction false} DeleteMaxShape<T>(h: Tree<T>)
    requires DeleteReady(h)
    ensures Balanced(DeleteMax(h).0) && AlmostLeftLeaning(DeleteMax(h).0)
    ensures h.Leaf? || NotTwoNode(h) ==>
              LeftLeaning(DeleteMax(h).0) && BlackHeight(DeleteMax(h).0) == BlackHeight(h) &&
              (IsRed(DeleteMax(h).0) ==> IsRed(h))
    decreases |Elems(h)|
  {
    if h.Node? {
      var h1 := if IsRed(h.left) then RotateRight(h) else h;
      if IsRed(h.left) {
        RotateRightShape(h);
      }
      LeftLeaningDeleteReady(h1.right);
      if h1.right.Leaf? {
        ZeroHeightLeaf(h.left);
      } else {
        var f := if !IsRed(h1.right) && !IsRed(h1.right.left) then MoveRedRight(h1) else h1;
        if !IsRed(h1.right) && !IsRed(h1.right.left) {
          MoveRedRightShape(h1);
        }
        DeleteMaxShape(f.right);
        var g := f.(right := DeleteMax(f.right).0);
        FixUpShape(g);
      }
    }
  }

  /** delete keeps the shape as deleteMin does. */
  lemma {:induction false} DeleteShape<T>(key: T -> int, h: Tree<T>, x: T)
    requires DeleteReady(h) && Ordered(key, h)
    requires h.Node? && IsRed(h.right) ==> key(x) >= key(h.item)
    ensures Balanced(Delete(key, h, x).0) && AlmostLeftLeaning(Delete(key, h, x).0)
    ensures h.Leaf? || NotTwoNode(h) ==>
              LeftLeaning(Delete(key, h, x).0) && BlackHeight(Delete(key, h, x).0) == BlackHeight(h) &&
              (IsRed(Delete(key, h, x).0) ==> IsRed(h))
    decreases |Elems(h)|, 2
  {
    if h.Leaf? {
    } else if Compare(key(x), key(h.item)) < 0 {
      if h.left.Node? {
        var f := if !IsRed(h.left) && !IsRed(h.left.left) then MoveRedLeft(h) else h;
        if !IsRed(h.left) && !IsRed(h.left.left) {
          MoveRedLeftShape(h);
        }
        OrderedNode(key, f);
        LeftLeaningDeleteReady(f.left);
        DeleteShape(key, f.left, x);
        FixUpShape(f.(left := Delete(key, f.left, x).0));
      }
    } else {
      DeleteRightShape(key, h, x);
    }
  }

  /** The shape after delete's step to the right (x does not sort before the node). */
  lemma {:induction false} DeleteRightShape<T>(key: T -> int, h: Tree<T>, x: T)
    requires h.Node? && DeleteReady(h) && Ordered(key, h)
    requires key(x) >= key(h.item)
    ensures Balanced(Delete(key, h, x).0) && AlmostLeftLeaning(Delete(key, h, x).0)
    ensures NotTwoNode(h) ==>
              LeftLeaning(Delete(key, h, x).0) && BlackHeight(Delete(key, h, x).0) == BlackHeight(h) &&
              (IsRed(Delete(key, h, x).0) ==> IsRed(h))
    decreases |Elems(h)|, 1
  {
    var h1 := if IsRed(h.left) then RotateRight(h) else h;
    if IsRed(h.left) {
      RotateRightShape(h);
    }
    LeftLeaningDeleteReady(h1.right);
    if Compare(key(x), key(h1.item)) == 0 && h1.right.Leaf? {
      ZeroHeightLeaf(h.left);
    } else {
      var f := if h1.right.Node? && !IsRed(h1.right) && !IsRed(h1.right.left) then MoveRedRight(h1) else h1;
      if h1.right.Node? && !IsRed(h1.right) && !IsRed(h1.right.left) {
        MoveRedRightShape(h1);
        MoveRedRightItem(key, h1);
      }
      OrderedNode(key, f);
      assert NotTwoNode(h) ==>
               RedsApart(f) && BlackHeight(f) == BlackHeight(h) && (RedAtTop(f) ==> IsRed(h));
      if Compare(key(x), key(f.item)) == 0 {
        SuccessorTailShape(f);
      } else {
        DeleteTailShape(key, f, x);
      }
    }
  }

  /** The node is not red with a red child. */
  ghost predicate RedsApart<T>(t: Tree<T>) {
    t.Node? && !(IsRed(t) && (IsRed(t.left) || IsRed(t.right)))
  }

  /** The node is red, or is the middle of a 4-node; only then can fixUp leave it red. */
  ghost predicate RedAtTop<T>(t: Tree<T>) {
    IsRed(t) || (t.Node? && IsRed(t.left) && IsRed(t.right))
  }

  /**
   * Replacing the node's item by its successor and the right subtree by the
   * rest of it, then fixing up, keeps the balance; from a node with its reds
   * apart it keeps the black height and the left-leaning shape, and leaves a
   * red root only where the node was red at the top.
   */
  lemma SuccessorTailShape<T>(f: Tree<T>)
    requires f.Node? && Balanced(f) && LeftLeaning(f.left)
    requires f.right.Node? && LeftLeaning(f.right) && NotTwoNode(f.right)
    ensures Balanced(FixUp(f.(right := DeleteMin(f.right).0, item := DeleteMin(f.right).1.value)))
    ensures AlmostLeftLeaning(FixUp(f.(right := DeleteMin(f.right).0, item := DeleteMin(f.right).1.value)))
    ensures RedsApart(f) ==>
              var r := FixUp(f.(right := DeleteMin(f.right).0, item := DeleteMin(f.right).1.value));
              LeftLeaning(r) && BlackHeight(r) == BlackHeight(f) && (IsRed(r) ==> RedAtTop(f))
  {
    DeleteMinShape(f.right);
    var m := DeleteMin(f.right);
    FixUpShape(f.(right := m.0, item := m.1.value));
  }

  /**
   * Deleting from the right subtree, then fixing up, keeps the balance; from a
   * node with its reds apart it keeps the black height and the left-leaning
   * shape, and leaves a red root only where the node was red at the top.
   */
  lemma {:induction false} DeleteTailShape<T>(key: T -> int, f: Tree<T>, x: T)
    requires f.Node? && Balanced(f) && LeftLeaning(f.left)
    requires Ordered(key, f.right) && DeleteReady(f.right) && (f.right.Leaf? || NotTwoNode(f.right))
    requires f.right.Node? && IsRed(f.right.right) ==> key(x) >= key(f.right.item)
    ensures Balanced(FixUp(f.(right := Delete(key, f.right, x).0)))
    ensures AlmostLeftLeaning(FixUp(f.(right := Delete(key, f.right, x).0)))
    ensures RedsApart(f) ==>
              var r := FixUp(f.(right := Delete(key, f.right, x).0));
              LeftLeaning(r) && BlackHeight(r) == BlackHeight(f) && (IsRed(r) ==> RedAtTop(f))
    decreases |Elems(f)|, 0
  {
    DeleteShape(key, f.right, x);
    FixUpShape(f.(right := Delete(key, f.right, x).0));
  }

  /** deleteMin removes exactly the first item in order and returns it. */
  lemma {:induction false} DeleteMinContents<T>(h: Tree<T>)
    requires LeftLeaning(h) && Balanced(h) && h.Node?
    ensures Elems(h) == [DeleteMin(h).1.value] + Elems(DeleteMin(h).0)
    decreases |Elems(h)|
  {
    if h.left.Leaf? {
      ZeroHeightLeaf(h.right);
      EmptyIdentity([h.item]);
      assert Elems(h) == [] + [h.item] + [];
    } else {
      var f := if !IsRed(h.left) && !IsRed(h.left.left) then MoveRedLeft(h) else h;
      if !IsRed(h.left) && !IsRed(h.left.left) {
        MoveRedLeftShape(h);
      }
      assert Balanced(f.left);
      var (l, deleted) := DeleteMin(f.left);
      assert DeleteMin(h) == (FixUp(f.(left := l)), deleted);
      DeleteMinContents(f.left);
      FirstReplaced(f, l, deleted.value);
    }
  }

  /**
   * One step of deleteMax: the node it stands on after the optional right
   * rotation and moveRedRight. Either that node has no right child and is the
   * only item left, or deleteMax carries on into its right child.
   */
  lemma DeleteMaxStep<T>(h: Tree<T>) returns (f: Tree<T>)
    requires DeleteReady(h) && h.Node?
    ensures f.Node? && Elems(f) == Elems(h)
    ensures f.right.Leaf? ==> f.left.Leaf? && DeleteMax(h) == (Leaf, Some(f.item))
    ensures f.right.Leaf? ==> Elems(h) == [f.item]
    ensures f.right.Node? ==> DeleteReady(f.right)
    ensures f.right.Node? ==>
              DeleteMax(h) == (FixUp(f.(right := DeleteMax(f.right).0)), DeleteMax(f.right).1)
  {
    var h1 := if IsRed(h.left) then RotateRight(h) else h;
    if IsRed(h.left) {
      RotateRightShape(h);
    }
    LeftLeaningDeleteReady(h1.right);
    if h1.right.Leaf? {
      ZeroHeightLeaf(h.left);
      f := h1;
      EmptyIdentity([f.item]);
      assert Elems(f) == [] + [f.item] + [];
    } else {
      f := if !IsRed(h1.right) && !IsRed(h1.right.left) then MoveRedRight(h1) else h1;
      if !IsRed(h1.right) && !IsRed(h1.right.left) {
        MoveRedRightShape(h1);
      }
    }
  }

  /** deleteMax removes exactly the last item in order and returns it. */
  lemma {:induction false} DeleteMaxContents<T>(h: Tree<T>)
    requires DeleteReady(h) && h.Node?
    ensures Elems(h) == Elems(DeleteMax(h).0) + [DeleteMax(h).1.value]
    decreases |Elems(h)|
  {
    var f := DeleteMaxStep(h);
    if f.right.Node? {
      DeleteMaxContents(f.right);
      LastReplaced(f, DeleteMax(f.right).0, DeleteMax(f.right).1.value);
    } else {
      EmptyIdentity([f.item]);
    }
  }

  /** Replacing the left subtree by one without its first item drops the node's first item. */
  lemma FirstReplaced<T>(f: Tree<T>, l: Tree<T>, m: T)
    requires f.Node? && Elems(f.left) == [m] + Elems(l)
    ensures Elems(f) == [m] + Elems(FixUp(f.(left := l)))
  {
    Associative([m], Elems(l), [f.item]);
    Associative([m], Elems(l) + [f.item], Elems(f.right));
  }

  /** Replacing the right subtree by one without its last item drops the node's last item. */
  lemma LastReplaced<T>(f: Tree<T>, rt: Tree<T>, m: T)
    requires f.Node? && Elems(f.right) == Elems(rt) + [m]
    ensures Elems(f) == Elems(FixUp(f.(right := rt))) + [m]
  {
    Associative(Elems(f.left) + [f.item], Elems(rt), [m]);
  }

  /** moveRedLeft keeps the root's item or rotates up one from the right, never a smaller key. */
  lemma MoveRedLeftItem<T>(key: T -> int, h: Tree<T>)
    requires h.Node? && h.left.Node? && h.right.Node? && Ordered(key, h)
    ensures key(MoveRedLeft(h).item) >= key(h.item)
  {
    OrderedNode(key, h);
    if IsRed(h.right.left) {
      RootPosition(h.right.left);
      assert Elems(h.right)[|Elems(h.right.left.left)|] == h.right.left.item;
    }
  }

  /**
   * delete's step to the left (x sorts before the node, which has a left
   * child): the node after the optional moveRedLeft, from whose left child
   * delete carries on.
   */
  lemma DeleteLeftStep<T>(key: T -> int, h: Tree<T>, x: T) returns (f: Tree<T>)
    requires h.Node? && h.left.Node? && DeleteReady(h) && Ordered(key, h)
    requires key(x) < key(h.item) && !IsRed(h.right)
    ensures f.Node? && Elems(f) == Elems(h) && key(x) < key(f.item)
    ensures LeftLeaning(f.left) && Balanced(f.left) && Ordered(key, f.left) && DeleteReady(f.left)
    ensures Delete(key, h, x) == (FixUp(f.(left := Delete(key, f.left, x).0)), Delete(key, f.left, x).1)
  {
    f := if !IsRed(h.left) && !IsRed(h.left.left) then MoveRedLeft(h) else h;
    if !IsRed(h.left) && !IsRed(h.left.left) {
      MoveRedLeftShape(h);
      MoveRedLeftItem(key, h);
    }
    OrderedNode(key, f);
    LeftLeaningDeleteReady(f.left);
  }

  /**
   * delete's step to the right (x does not sort before the node): the node
   * after the optional right rotation and moveRedRight. If it holds x's key,
   * it is either the only item left or takes over its right subtree's
   * smallest item; otherwise delete carries on into its right child.
   */
  lemma DeleteRightStep<T>(key: T -> int, h: Tree<T>, x: T) returns (f: Tree<T>)
    requires h.Node? && DeleteReady(h) && Ordered(key, h) && key(x) >= key(h.item)
    ensures f.Node? && Elems(f) == Elems(h) && key(f.item) <= key(x)
    ensures Ordered(key, f.right) && DeleteReady(f.right)
    ensures key(x) == key(f.item) && f.right.Leaf? ==>
              f.left.Leaf? && Delete(key, h, x) == (Leaf, Some(f.item))
    ensures key(x) == key(f.item) && f.right.Node? ==> LeftLeaning(f.right) && Balanced(f.right)
    ensures key(x) == key(f.item) && f.right.Node? ==>
              Delete(key, h, x) ==
                (FixUp(f.(right := DeleteMin(f.right).0, item := DeleteMin(f.right).1.value)), Some(f.item))
    ensures key(x) != key(f.item) ==> f.right.Node? && IsRed(f.right.right) ==> key(x) >= key(f.right.item)
    ensures key(x) != key(f.item) ==>
              Delete(key, h, x) == (FixUp(f.(right := Delete(key, f.right, x).0)), Delete(key, f.right, x).1)
  {
    var h1 := if IsRed(h.left) then RotateRight(h) else h;
    if IsRed(h.left) {
      RotateRightShape(h);
      OrderedNode(key, h);
      RootPosition(h.left);
    }
    LeftLeaningDeleteReady(h1.right);
    if Compare(key(x), key(h1.item)) == 0 && h1.right.Leaf? {
      ZeroHeightLeaf(h.left);
      f := h1;
    } else {
      f := if h1.right.Node? && !IsRed(h1.right) && !IsRed(h1.right.left) then MoveRedRight(h1) else h1;
      if h1.right.Node? && !IsRed(h1.right) && !IsRed(h1.right.left) {
        MoveRedRightShape(h1);
        MoveRedRightItem(key, h1);
      }
    }
    OrderedNode(key, f);
  }

  /**
   * On a search tree, delete leaves exactly the items whose key differs from
   * x's and returns the item with x's key, if there was one.
   */
  lemma {:induction false} DeleteContents<T>(key: T -> int, h: Tree<T>, x: T)
    requires DeleteReady(h) && Ordered(key, h)
    requires h.Node? && IsRed(h.right) ==> key(x) >= key(h.item)
    ensures Elems(Delete(key, h, x).0) == RemoveKey(key, Elems(h), key(x))
    ensures Delete(key, h, x).1 == Find(key, Elems(h), key(x))
    decreases |Elems(h)|, 1
  {
    var k := key(x);
    if h.Leaf? {
      BelowAboveWhole(key, [], k);
    } else if k >= key(h.item) {
      DeleteRightContents(key, h, x);
    } else if h.left.Leaf? {
      BelowAboveWhole(key, [], k);
      RemoveSplit(key, [], h.item, Elems(h.right), k);
      FindSplit(key, [], h.item, Elems(h.right), k);
    } else {
      var f := DeleteLeftStep(key, h, x);
      DeleteContents(key, f.left, x);
      RemoveSplit(key, Elems(f.left), f.item, Elems(f.right), k);
      FindSplit(key, Elems(f.left), f.item, Elems(f.right), k);
    }
  }

  /** The contents after delete's step to the right (x does not sort before the node). */
  lemma {:induction false} DeleteRightContents<T>(key: T -> int, h: Tree<T>, x: T)
    requires h.Node? && DeleteReady(h) && Ordered(key, h) && key(x) >= key(h.item)
    ensures Elems(Delete(key, h, x).0) == RemoveKey(key, Elems(h), key(x))
    ensures Delete(key, h, x).1 == Find(key, Elems(h), key(x))
    decreases |Elems(h)|, 0
  {
    var k := key(x);
    var f := DeleteRightStep(key, h, x);
    if k != key(f.item) {
      DeleteContents(key, f.right, x);
      RightRemoved(key, f, Delete(key, f.right, x).0, k);
    } else if f.right.Node? {
      DeleteMinContents(f.right);
      var m := DeleteMin(f.right);
      RootRemoved(key, f, m.0, m.1.value);
    } else {
      RemoveSplit(key, [], f.item, [], k);
      FindSplit(key, [], f.item, [], k);
    }
  }

  /** Replacing the right subtree by one without key k removes k from a node whose key is below k. */
  lemma RightRemoved<T>(key: T -> int, f: Tree<T>, rt: Tree<T>, k: int)
    requires f.Node? && Ordered(key, f) && k > key(f.item)
    requires Elems(rt) == RemoveKey(key, Elems(f.right), k)
    ensures Elems(FixUp(f.(right := rt))) == RemoveKey(key, Elems(f), k)
    ensures Find(key, Elems(f), k) == Find(key, Elems(f.right), k)
  {
    RemoveSplit(key, Elems(f.left), f.item, Elems(f.right), k);
    FindSplit(key, Elems(f.left), f.item, Elems(f.right), k);
  }

  /**
   * Replacing the node's item by its successor, and the right subtree by one
   * without the successor, removes exactly the node's item.
   */
  lemma RootRemoved<T>(key: T -> int, f: Tree<T>, rt: Tree<T>, m: T)
    requires f.Node? && Ordered(key, f) && f.right.Node?
    requires Elems(f.right) == [m] + Elems(rt)
    ensures Elems(FixUp(f.(right := rt, item := m))) == RemoveKey(key, Elems(f), key(f.item))
    ensures Find(key, Elems(f), key(f.item)) == Some(f.item)
  {
    var a, b := Elems(f.left), Elems(f.right);
    RemoveSplit(key, a, f.item, b, key(f.item));
    FindSplit(key, a, f.item, b, key(f.item));
    Associative(a, [m], Elems(rt));
  }
}
