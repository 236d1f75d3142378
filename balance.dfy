/**
 * How the balance primitives act on the red-black shape: which of the
 * left-leaning and black-height invariants each one keeps, breaks or restores.
 */
module Balance {
  import opened OrderedSeqs
  import opened Nodes

  /**
   * The shape delete works on: a balanced node whose children are
   * left-leaning and at most one of the node and its two children is red.
   * A red right child is allowed here; deletion creates one only on its way
   * down to the right.
   */
  ghost predicate DeleteReady<T>(t: Tree<T>) {
    t.Leaf? ||
    (Balanced(t) && LeftLeaning(t.left) && LeftLeaning(t.right) &&
     !(IsRed(t) && IsRed(t.left)) && !(IsRed(t) && IsRed(t.right)) &&
     !(IsRed(t.left) && IsRed(t.right)))
  }

  /** Every balanced left-leaning tree is ready for deletion. */
  lemma LeftLeaningDeleteReady<T>(t: Tree<T>)
    requires LeftLeaning(t) && Balanced(t)
    ensures DeleteReady(t)
  {
  }

  /** A black node always has positive black height, so its sibling is not a leaf. */
  lemma BlackNodeHeight<T>(t: Tree<T>)
    requires t.Node? && !IsRed(t)
    ensures BlackHeight(t) >= 1
  {
  }

  /** In a balanced tree, a non-red node of black height 0 is a leaf. */
  lemma ZeroHeightLeaf<T>(t: Tree<T>)
    requires !IsRed(t) && BlackHeight(t) == 0
    ensures t.Leaf?
  {
    if t.Node? {
      BlackNodeHeight(t);
    }
  }

  /**
   * fixUp on a balanced node with left-leaning children keeps the balance and
   * the black height (unless the node and both children are red), and leaves at
   * worst a red root over a red left child. It flips colours exactly when both
   * children are red, so the root ends red iff it was red or both children were.
   */
  lemma FixUpShape<T>(h: Tree<T>)
    requires h.Node? && Balanced(h) && LeftLeaning(h.left) && LeftLeaning(h.right)
    ensures Balanced(FixUp(h)) && AlmostLeftLeaning(FixUp(h))
    ensures !(IsRed(h) && IsRed(h.left) && IsRed(h.right)) ==> BlackHeight(FixUp(h)) == BlackHeight(h)
    ensures !(IsRed(h) && IsRed(h.left) != IsRed(h.right)) ==> LeftLeaning(FixUp(h))
    ensures IsRed(FixUp(h)) <==> (IsRed(h) != (IsRed(h.left) && IsRed(h.right)))
  {
    var l, r := h.left, h.right;
    if IsRed(l) && IsRed(r) {
      assert FixUp(h) == ColorFlip(h);
    } else if IsRed(r) {
      var h1 := RotateLeft(h);
      assert !IsRed(r.left) && !IsRed(r.right);
      assert BlackHeight(h1.left) == BlackHeight(l);
      assert FixUp(h) == h1;
    } else {
      assert FixUp(h) == h;
    }
  }

  /**
   * fixUp after inserting into the left of a black node: the left child may be
   * a red node over a red left child, and fixUp turns the pair into a 4-node
   * and splits it, giving a left-leaning tree of the same black height.
   */
  lemma FixUpAfterLeftInsert<T>(h: Tree<T>)
    requires h.Node? && !IsRed(h) && Balanced(h)
    requires AlmostLeftLeaning(h.left) && LeftLeaning(h.right) && !IsRed(h.right)
    ensures Balanced(FixUp(h)) && LeftLeaning(FixUp(h))
    ensures BlackHeight(FixUp(h)) == BlackHeight(h)
  {
    var l := h.left;
    if IsRed(l) && IsRed(l.left) {
      var h2 := RotateRight(h);
      assert Balanced(l) && Balanced(l.left);
      assert FixUp(h) == ColorFlip(h2);
      assert BlackHeight(l.left) == BlackHeight(l.left.left);
      assert BlackHeight(l.right) == BlackHeight(l.left) == BlackHeight(h.right);
      assert Balanced(h2.right);
    } else {
      assert LeftLeaning(l);
      FixUpShape(h);
    }
  }

  /**
   * moveRedLeft on a node whose left child and left grandchild are black
   * (the node is red, or a black 2-node at the root) leaves a balanced node
   * whose left child is part of a 3-node or 4-node. From a red node it keeps the
   * black height and never leaves a red root over a red child.
   */
  lemma MoveRedLeftShape<T>(h: Tree<T>)
    requires h.Node? && h.left.Node? && h.right.Node? && Balanced(h)
    requires LeftLeaning(h.left) && LeftLeaning(h.right)
    requires !IsRed(h.left) && !IsRed(h.left.left) && !IsRed(h.right)
    ensures Balanced(MoveRedLeft(h))
    ensures LeftLeaning(MoveRedLeft(h).left) && NotTwoNode(MoveRedLeft(h).left)
    ensures LeftLeaning(MoveRedLeft(h).right)
    ensures IsRed(h) ==> BlackHeight(MoveRedLeft(h)) == BlackHeight(h)
    ensures IsRed(h) && IsRed(MoveRedLeft(h)) ==>
              !IsRed(MoveRedLeft(h).left) && !IsRed(MoveRedLeft(h).right)
  {
    var f := ColorFlip(h);
    var l, r := h.left, h.right;
    if IsRed(f.right.left) {
      var rr := RotateRight(f.right);
      var g := RotateLeft(f.(right := rr));
      var rl := r.left;
      assert Balanced(l) && Balanced(r) && Balanced(rl);
      assert MoveRedLeft(h) == ColorFlip(g);
      assert BlackHeight(l.left) + 1 == BlackHeight(l) == BlackHeight(r) == BlackHeight(rl) + 1;
      assert BlackHeight(rl) == BlackHeight(rl.left) == BlackHeight(rl.right) == BlackHeight(r.right);
      assert Balanced(l.(color := Red)) && Balanced(rl.left) && Balanced(rl.right);
      var m := ColorFlip(g);
      assert m.left == Node(Black, l.(color := Red), h.item, rl.left);
      assert m.right == Node(Black, rl.right, r.item, r.right);
    } else {
      assert MoveRedLeft(h) == f;
    }
  }

  /**
   * moveRedRight on a node whose children are black and whose right
   * grandchild on the left is black leaves a balanced node whose right child is
   * part of a 3-node or 4-node and ready for deletion. That right child has a red
   * right child only under the old root's item, and is left-leaning unless the
   * left child's red left child was rotated up to the root.
   */
  lemma MoveRedRightShape<T>(h: Tree<T>)
    requires h.Node? && h.left.Node? && h.right.Node? && Balanced(h)
    requires LeftLeaning(h.left) && LeftLeaning(h.right)
    requires !IsRed(h.left) && !IsRed(h.right) && !IsRed(h.right.left)
    ensures Balanced(MoveRedRight(h)) && LeftLeaning(MoveRedRight(h).left)
    ensures DeleteReady(MoveRedRight(h).right) && NotTwoNode(MoveRedRight(h).right)
    ensures !IsRed(h.left.left) ==> MoveRedRight(h).item == h.item && LeftLeaning(MoveRedRight(h).right)
    ensures IsRed(h.left.left) ==> MoveRedRight(h).item == h.left.item
    ensures IsRed(MoveRedRight(h).right.right) ==> MoveRedRight(h).right.item == h.item
    ensures IsRed(h) ==> BlackHeight(MoveRedRight(h)) == BlackHeight(h)
    ensures IsRed(h) && IsRed(MoveRedRight(h)) ==>
              !IsRed(MoveRedRight(h).left) && !IsRed(MoveRedRight(h).right)
  {
    var f := ColorFlip(h);
    var l, r := h.left, h.right;
    if IsRed(f.left.left) {
      var g := RotateRight(f);
      var ll := l.left;
      assert Balanced(l) && Balanced(r) && Balanced(ll);
      assert MoveRedRight(h) == ColorFlip(g);
      assert BlackHeight(ll) == BlackHeight(l.right) == BlackHeight(r) - 1 == BlackHeight(r.left);
      assert Balanced(ll) && Balanced(r.(color := Red));
      var m := ColorFlip(g);
      assert m.left == ll.(color := Black);
      assert m.right == Node(Black, l.right, h.item, r.(color := Red));
    } else {
      assert MoveRedRight(h) == f;
    }
  }

  /**
   * Rotating a red left child up, as delete and deleteMax do before going
   * right: the root stays black with a black left child and now has a red right
   * child with black children.
   */
  lemma RotateRightShape<T>(h: Tree<T>)
    requires h.Node? && DeleteReady(h) && IsRed(h.left)
    ensures DeleteReady(RotateRight(h)) && BlackHeight(RotateRight(h)) == BlackHeight(h)
    ensures !IsRed(RotateRight(h)) && !IsRed(RotateRight(h).left)
    ensures IsRed(RotateRight(h).right) && LeftLeaning(RotateRight(h).right)
  {
    var l := h.left;
    assert Balanced(h) && Balanced(l) && Balanced(h.right);
    assert BlackHeight(l.left) == BlackHeight(l.right) == BlackHeight(l) == BlackHeight(h.right);
    assert RotateRight(h).right == Node(Red, l.right, h.item, h.right);
    assert Balanced(RotateRight(h).right);
  }
}
