/**
 * ReplaceOrInsert's recursive step: descend by comparison, put the item in a
 * new red leaf or over the equal item, and fix the shape on the way back up.
 */
module Insertion {
  import opened OrderedSeqs
  import opened Nodes
  import opened Balance

  /** The new subtree root and the item that was replaced, if any. */
  function Insert<T>(key: T -> int, h: Tree<T>, x: T): (r: (Tree<T>, Option<T>))
    ensures r.0.Node?
  {
    if h.Leaf? then (NewNode(x), None)
    else
      var c := Compare(key(x), key(h.item));
      if c == 0 then
        (FixUp(h.(item := x)), Some(h.item))
      else if c < 0 then
        var (l, prev) := Insert(key, h.left, x);
        (FixUp(h.(left := l)), prev)
      else
        var (rt, prev) := Insert(key, h.right, x);
        (FixUp(h.(right := rt)), prev)
  }

  /**
   * On a search tree, insert yields the upserted item sequence and returns
   * the item that had the same key, if there was one.
   */
  lemma {:induction false} InsertContents<T>(key: T -> int, h: Tree<T>, x: T)
    requires Ordered(key, h)
    ensures Elems(Insert(key, h, x).0) == Upsert(key, Elems(h), x)
    ensures Insert(key, h, x).1 == Find(key, Elems(h), key(x))
    ensures Ordered(key, Insert(key, h, x).0)
  {
    var s := Elems(h);
    if h.Leaf? {
      assert Upsert(key, s, x) == [] + [x] + [];
    } else {
      UpsertSplit(key, Elems(h.left), h.item, Elems(h.right), x);
      FindSplit(key, Elems(h.left), h.item, Elems(h.right), key(x));
      if key(x) < key(h.item) {
        InsertContents(key, h.left, x);
      } else if key(x) > key(h.item) {
        InsertContents(key, h.right, x);
      }
    }
    UpsertSorted(key, s, x);
  }

  /**
   * On a balanced left-leaning tree, insert keeps the balance and the black
   * height. The result is left-leaning when the old root was black; under a
   * red root it may be a red node over a red left child, which the parent's
   * fixUp (or blackening the root) repairs.
   */
  lemma {:induction false} InsertShape<T>(key: T -> int, h: Tree<T>, x: T)
    requires LeftLeaning(h) && Balanced(h)
    ensures Balanced(Insert(key, h, x).0) && AlmostLeftLeaning(Insert(key, h, x).0)
    ensures BlackHeight(Insert(key, h, x).0) == BlackHeight(h)
    ensures !IsRed(h) ==> LeftLeaning(Insert(key, h, x).0)
  {
    if h.Node? {
      var c := Compare(key(x), key(h.item));
      if c == 0 {
        FixUpShape(h.(item := x));
      } else if c < 0 {
        InsertShape(key, h.left, x);
        var g := h.(left := Insert(key, h.left, x).0);
        if IsRed(h) {
          FixUpShape(g);
        } else {
          FixUpAfterLeftInsert(g);
        }
      } else {
        InsertShape(key, h.right, x);
        FixUpShape(h.(right := Insert(key, h.right, x).0));
      }
    }
  }
}
