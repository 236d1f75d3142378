/**
 * Nodes of a left-leaning red-black tree and the balance primitives that
 * rearrange them. A node is a value: each primitive returns the new root of
 * the subtree it rearranged, as the pointer-rewiring code does.
 */
module Nodes {
  import opened OrderedSeqs

  datatype Color = Red | Black

  datatype Tree<T> = Leaf | Node(color: Color, left: Tree<T>, item: T, right: Tree<T>)

  /** The items of a tree, in order. */
  function Elems<T>(t: Tree<T>): seq<T> {
    match t
    case Leaf => []
    case Node(_, l, x, r) => Elems(l) + [x] + Elems(r)
  }

  /** The tree is a search tree for `key`: its in-order items have strictly increasing keys. */
  ghost predicate Ordered<T>(key: T -> int, t: Tree<T>) {
    StrictlySorted(key, Elems(t))
  }

  /** A missing node counts as black. */
  predicate IsRed<T>(t: Tree<T>): (b: bool)
    ensures t.Leaf? ==> !b
    ensures t.Node? ==> (b <==> t.color == Red)
  {
    t.Node? && t.color == Red
  }

  function Flip(c: Color): (r: Color)
    ensures r != c
  {
    if c == Red then Black else Red
  }

  /** Black nodes on the path down the left spine, not counting leaves. */
  function BlackHeight<T>(t: Tree<T>): nat {
    match t
    case Leaf => 0
    case Node(c, l, _, _) => BlackHeight(l) + (if c == Black then 1 else 0)
  }

  /** Every path from a node down to a leaf meets the same number of black nodes. */
  ghost predicate Balanced<T>(t: Tree<T>) {
    match t
    case Leaf => true
    case Node(_, l, _, r) => BlackHeight(l) == BlackHeight(r) && Balanced(l) && Balanced(r)
  }

  /** No red right link and no two reds in a row, anywhere in the tree. */
  ghost predicate LeftLeaning<T>(t: Tree<T>) {
    match t
    case Leaf => true
    case Node(c, l, _, r) =>
      !IsRed(r) && !(c == Red && IsRed(l)) && LeftLeaning(l) && LeftLeaning(r)
  }

  /** Left-leaning except that a red root may have a red left child (cured by blackening the root). */
  ghost predicate AlmostLeftLeaning<T>(t: Tree<T>) {
    t.Leaf? || (LeftLeaning(t.left) && LeftLeaning(t.right) && !IsRed(t.right))
  }

  /** The node is part of a 3-node or 4-node: it, or one of its children, is red. */
  ghost predicate NotTwoNode<T>(t: Tree<T>) {
    IsRed(t) || (t.Node? && (IsRed(t.left) || IsRed(t.right)))
  }

  /** A new node is red and holds only its item. */
  function NewNode<T>(x: T): (r: Tree<T>)
    ensures IsRed(r) && Elems(r) == [x]
    ensures LeftLeaning(r) && Balanced(r) && BlackHeight(r) == 0
  {
    Node(Red, Leaf, x, Leaf)
  }

  /** Blackening the root, as the tree does after every update. */
  function Blacken<T>(t: Tree<T>): (r: Tree<T>)
    ensures !IsRed(r) && Elems(r) == Elems(t)
    ensures Balanced(t) ==> Balanced(r)
    ensures AlmostLeftLeaning(t) ==> LeftLeaning(r)
  {
    if t.Leaf? then t else t.(color := Black)
  }

  /**
   * The right child is promoted: it takes the root's colour, the old root
   * becomes its red left child, and the in-order items do not move.
   */
  function RotateLeft<T>(h: Tree<T>): (r: Tree<T>)
    requires h.Node? && h.right.Node?
    ensures r.Node? && r.color == h.color && r.item == h.right.item
    ensures r.left.Node? && r.left.color == Red && r.left.item == h.item
    ensures r.left.left == h.left && r.left.right == h.right.left && r.right == h.right.right
    ensures Elems(r) == Elems(h)
  {
    var x := h.right;
    var r := Node(h.color, Node(Red, h.left, h.item, x.left), x.item, x.right);
    assert Elems(r) == Elems(h.left) + [h.item] + Elems(x.left) + [x.item] + Elems(x.right);
    r
  }

  /**
   * The left child is promoted: it takes the root's colour, the old root
   * becomes its red right child, and the in-order items do not move.
   */
  function RotateRight<T>(h: Tree<T>): (r: Tree<T>)
    requires h.Node? && h.left.Node?
    ensures r.Node? && r.color == h.color && r.item == h.left.item
    ensures r.right.Node? && r.right.color == Red && r.right.item == h.item
    ensures r.left == h.left.left && r.right.left == h.left.right && r.right.right == h.right
    ensures Elems(r) == Elems(h)
  {
    var x := h.left;
    var r := Node(h.color, x.left, x.item, Node(Red, x.right, h.item, h.right));
    assert Elems(h) == Elems(x.left) + [x.item] + Elems(x.right) + [h.item] + Elems(h.right);
    r
  }

  /** Exactly the colours of the node and its two children are inverted. */
  function ColorFlip<T>(h: Tree<T>): (r: Tree<T>)
    requires h.Node? && h.left.Node? && h.right.Node?
    ensures r.Node? && r.left.Node? && r.right.Node?
    ensures r.color == Flip(h.color) && r.left.color == Flip(h.left.color) &&
            r.right.color == Flip(h.right.color)
    ensures r.item == h.item && r.left.item == h.left.item && r.right.item == h.right.item
    ensures r.left.left == h.left.left && r.left.right == h.left.right
    ensures r.right.left == h.right.left && r.right.right == h.right.right
    ensures Elems(r) == Elems(h)
  {
    Node(Flip(h.color), h.left.(color := Flip(h.left.color)), h.item,
         h.right.(color := Flip(h.right.color)))
  }

  /**
   * Restores the left-leaning shape on the way up: lean a lone red right link
   * left, split two reds in a row, and pass a 4-node's red up by a colour flip.
   */
  function FixUp<T>(h: Tree<T>): (r: Tree<T>)
    requires h.Node?
    ensures r.Node? && Elems(r) == Elems(h)
  {
    var h1 := if IsRed(h.right) && !IsRed(h.left) then RotateLeft(h) else h;
    var h2 := if IsRed(h1.left) && IsRed(h1.left.left) then RotateRight(h1) else h1;
    if IsRed(h2.left) && IsRed(h2.right) then ColorFlip(h2) else h2
  }

  /** Makes the left child or one of its children red, borrowing from the right sibling if it can. */
  function MoveRedLeft<T>(h: Tree<T>): (r: Tree<T>)
    requires h.Node? && h.left.Node? && h.right.Node?
    ensures r.Node? && Elems(r) == Elems(h)
  {
    var f := ColorFlip(h);
    if IsRed(f.right.left) then
      ColorFlip(RotateLeft(f.(right := RotateRight(f.right))))
    else
      f
  }

  /** Makes the right child or one of its children red, borrowing from the left sibling if it can. */
  function MoveRedRight<T>(h: Tree<T>): (r: Tree<T>)
    requires h.Node? && h.left.Node? && h.right.Node?
    ensures r.Node? && Elems(r) == Elems(h)
  {
    var f := ColorFlip(h);
    if IsRed(f.left.left) then ColorFlip(RotateRight(f)) else f
  }

  /** A node of a search tree splits its items: smaller keys to the left, larger to the right. */
  lemma OrderedNode<T>(key: T -> int, t: Tree<T>)
    requires t.Node? && Ordered(key, t)
    ensures Ordered(key, t.left) && Ordered(key, t.right)
    ensures AllBelow(key, Elems(t.left), key(t.item)) && AllAbove(key, Elems(t.right), key(t.item))
  {
    SortedSplit(key, Elems(t.left), t.item, Elems(t.right));
  }

  /** The root's item sits in the in-order sequence right after the left subtree's items. */
  lemma RootPosition<T>(t: Tree<T>)
    requires t.Node?
    ensures |Elems(t.left)| < |Elems(t)| && Elems(t)[|Elems(t.left)|] == t.item
  {
  }
}
