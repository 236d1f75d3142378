/**
 * The abstract view of an LLRB tree: the sequence of its items in key order.
 * Items of any type T are ordered by an integer key (`key: T -> int`), so two
 * items "compare equal" exactly when their keys are equal. Every tree
 * operation is specified against one of the reference functions below.
 */
module OrderedSeqs {

  datatype Option<T> = None | Some(value: T)

  /** Three-way comparison of integer keys, as `cmp.Compare` does it. */
  function Compare(a: int, b: int): (c: int)
    ensures c == -1 || c == 0 || c == 1
    ensures (c < 0 <==> a < b) && (c == 0 <==> a == b) && (c > 0 <==> a > b)
  {
    if a < b then -1 else if a > b then 1 else 0
  }

  /** Keys strictly increase along `s`: no two items compare equal. */
  ghost predicate StrictlySorted<T>(key: T -> int, s: seq<T>) {
    forall i, j :: 0 <= i < j < |s| ==> key(s[i]) < key(s[j])
  }

  /** Every item of `s` has a key below `k`. */
  ghost predicate AllBelow<T>(key: T -> int, s: seq<T>, k: int) {
    forall i :: 0 <= i < |s| ==> key(s[i]) < k
  }

  /** Every item of `s` has a key above `k`. */
  ghost predicate AllAbove<T>(key: T -> int, s: seq<T>, k: int) {
    forall i :: 0 <= i < |s| ==> key(s[i]) > k
  }

  /** The sorted sequence of a node splits into its left part, its item and its right part. */
  lemma SortedSplit<T>(key: T -> int, a: seq<T>, y: T, b: seq<T>)
    ensures StrictlySorted(key, a + [y] + b) <==>
              StrictlySorted(key, a) && StrictlySorted(key, b) &&
              AllBelow(key, a, key(y)) && AllAbove(key, b, key(y))
  {
    var s := a + [y] + b;
    if StrictlySorted(key, a) && StrictlySorted(key, b) &&
       AllBelow(key, a, key(y)) && AllAbove(key, b, key(y)) {
      forall i, j | 0 <= i < j < |s| ensures key(s[i]) < key(s[j]) {
        if j < |a| {
        } else if i < |a| {
          assert key(s[i]) < key(y);
          if j > |a| { assert s[j] == b[j - |a| - 1]; }
        } else if i == |a| {
          assert s[j] == b[j - |a| - 1];
        } else {
          assert s[i] == b[i - |a| - 1] && s[j] == b[j - |a| - 1];
        }
      }
    }
    if StrictlySorted(key, s) {
      forall i, j | 0 <= i < j < |b| ensures key(b[i]) < key(b[j]) {
        assert b[i] == s[|a| + 1 + i] && b[j] == s[|a| + 1 + j];
      }
      forall i | 0 <= i < |a| ensures key(a[i]) < key(y) {
        assert a[i] == s[i] && y == s[|a|];
      }
      forall i | 0 <= i < |b| ensures key(b[i]) > key(y) {
        assert b[i] == s[|a| + 1 + i] && y == s[|a|];
      }
      forall i, j | 0 <= i < j < |a| ensures key(a[i]) < key(a[j]) {
        assert a[i] == s[i] && a[j] == s[j];
      }
    }
  }

  /** The first item of `s` whose key is `k`, if any. */
  ghost function Find<T>(key: T -> int, s: seq<T>, k: int): (r: Option<T>)
    ensures r.Some? ==> r.value in s && key(r.value) == k
    ensures r.None? ==> forall i :: 0 <= i < |s| ==> key(s[i]) != k
  {
    if s == [] then None
    else if key(s[0]) == k then Some(s[0])
    else Find(key, s[1..], k)
  }

  /** In a sorted sequence the item with key `k` is unique, so Find finds exactly it. */
  lemma {:induction false} FindExactly<T>(key: T -> int, s: seq<T>, k: int, y: T)
    requires StrictlySorted(key, s)
    ensures Find(key, s, k) == Some(y) <==> y in s && key(y) == k
  {
    if s != [] {
      if y in s && key(y) == k && key(s[0]) != k {
        assert y in s[1..];
      }
      FindExactly(key, s[1..], k, y);
    }
  }

  /** Find over a concatenation looks in the first part, then in the second. */
  lemma {:induction false} FindAppend<T>(key: T -> int, a: seq<T>, b: seq<T>, k: int)
    ensures Find(key, a + b, k) == if Find(key, a, k).Some? then Find(key, a, k) else Find(key, b, k)
  {
    if a != [] {
      assert (a + b)[0] == a[0];
      assert (a + b)[1..] == a[1..] + b;
      FindAppend(key, a[1..], b, k);
    } else {
      assert a + b == b;
    }
  }

  /** Searching a node's sorted sequence only needs the side the key points to. */
  lemma FindSplit<T>(key: T -> int, a: seq<T>, y: T, b: seq<T>, k: int)
    requires StrictlySorted(key, a + [y] + b)
    ensures Find(key, a + [y] + b, k) ==
              if k < key(y) then Find(key, a, k)
              else if k == key(y) then Some(y)
              else Find(key, b, k)
  {
    SortedSplit(key, a, y, b);
    FindAppend(key, a + [y], b, k);
    FindAppend(key, a, [y], k);
  }

  /** The items of `s` that satisfy `p`, in their original order. */
  ghost function Filter<T>(s: seq<T>, p: T -> bool): (r: seq<T>)
    ensures |r| <= |s|
    ensures forall i :: 0 <= i < |r| ==> p(r[i])
  {
    if s == [] then [] else (if p(s[0]) then [s[0]] else []) + Filter(s[1..], p)
  }

  /** Filter keeps exactly the items that satisfy `p`. */
  lemma {:induction false} FilterMembers<T>(s: seq<T>, p: T -> bool)
    ensures forall e :: e in Filter(s, p) ==> e in s && p(e)
    ensures forall e :: e in s && p(e) ==> e in Filter(s, p)
  {
    if s != [] {
      FilterMembers(s[1..], p);
      assert forall e :: e in s <==> e == s[0] || e in s[1..];
    }
  }

  lemma {:induction false} FilterAppend<T>(a: seq<T>, b: seq<T>, p: T -> bool)
    ensures Filter(a + b, p) == Filter(a, p) + Filter(b, p)
  {
    if a == [] {
      assert a + b == b;
    } else {
      assert (a + b)[0] == a[0];
      assert (a + b)[1..] == a[1..] + b;
      FilterAppend(a[1..], b, p);
    }
  }

  lemma {:induction false} FilterSorted<T>(key: T -> int, s: seq<T>, p: T -> bool)
    requires StrictlySorted(key, s)
    ensures StrictlySorted(key, Filter(s, p))
  {
    if s != [] {
      SortedSplit(key, [], s[0], s[1..]);
      assert s == [] + [s[0]] + s[1..];
      FilterSorted(key, s[1..], p);
      var t := Filter(s[1..], p);
      if p(s[0]) {
        FilterMembers(s[1..], p);
        SubAbove(key, t, s[1..], key(s[0]));
        SortedSplit(key, [], s[0], t);
        assert [] + [s[0]] + t == [s[0]] + t;
      }
    }
  }

  /** Items drawn from a sequence above `k` are above `k`. */
  lemma SubAbove<T>(key: T -> int, t: seq<T>, s: seq<T>, k: int)
    requires forall e :: e in t ==> e in s
    requires AllAbove(key, s, k)
    ensures AllAbove(key, t, k)
  {
    forall i | 0 <= i < |t| ensures key(t[i]) > k {
      assert t[i] in s;
      var j :| 0 <= j < |s| && s[j] == t[i];
    }
  }

  /** The items of `s` whose key is below `k`. */
  ghost function Below<T>(key: T -> int, s: seq<T>, k: int): (r: seq<T>)
    ensures AllBelow(key, r, k)
  {
    Filter(s, (e: T) => key(e) < k)
  }

  /** The items of `s` whose key is above `k`. */
  ghost function Above<T>(key: T -> int, s: seq<T>, k: int): (r: seq<T>)
    ensures AllAbove(key, r, k)
  {
    Filter(s, (e: T) => key(e) > k)
  }

  /** Below keeps a sequence wholly below `k` and drops one wholly at or above it; Above dually. */
  lemma {:induction false} BelowAboveWhole<T>(key: T -> int, s: seq<T>, k: int)
    ensures AllBelow(key, s, k) ==> Below(key, s, k) == s && Above(key, s, k) == []
    ensures AllAbove(key, s, k) ==> Above(key, s, k) == s && Below(key, s, k) == []
    ensures (forall i :: 0 <= i < |s| ==> key(s[i]) == k) ==> Below(key, s, k) == [] && Above(key, s, k) == []
  {
    if s != [] {
      BelowAboveWhole(key, s[1..], k);
      assert forall i :: 0 < i < |s| ==> s[i] == s[1..][i - 1];
    }
  }

  lemma BelowAboveMembers<T>(key: T -> int, s: seq<T>, k: int)
    ensures forall e :: e in Below(key, s, k) ==> e in s && key(e) < k
    ensures forall e :: e in s && key(e) < k ==> e in Below(key, s, k)
    ensures forall e :: e in Above(key, s, k) ==> e in s && key(e) > k
    ensures forall e :: e in s && key(e) > k ==> e in Above(key, s, k)
  {
    FilterMembers(s, (e: T) => key(e) < k);
    FilterMembers(s, (e: T) => key(e) > k);
  }

  lemma BelowAboveAppend<T>(key: T -> int, a: seq<T>, b: seq<T>, k: int)
    ensures Below(key, a + b, k) == Below(key, a, k) + Below(key, b, k)
    ensures Above(key, a + b, k) == Above(key, a, k) + Above(key, b, k)
  {
    FilterAppend(a, b, (e: T) => key(e) < k);
    FilterAppend(a, b, (e: T) => key(e) > k);
  }

  /**
   * The sequence after ReplaceOrInsert(x): x takes the place of the item
   * whose key equals x's, or is inserted between the smaller and the larger ones.
   */
  ghost function Upsert<T>(key: T -> int, s: seq<T>, x: T): seq<T> {
    Below(key, s, key(x)) + [x] + Above(key, s, key(x))
  }

  /** The sequence after deleting every item whose key is `k` (in a sorted sequence, at most one). */
  ghost function RemoveKey<T>(key: T -> int, s: seq<T>, k: int): seq<T> {
    Below(key, s, k) + Above(key, s, k)
  }

  /** After ReplaceOrInsert(x), x is present, and the other items are the old ones with other keys. */
  lemma UpsertMembers<T>(key: T -> int, s: seq<T>, x: T)
    ensures x in Upsert(key, s, x)
    ensures forall e :: e in Upsert(key, s, x) ==> e == x || (e in s && key(e) != key(x))
    ensures forall e :: e in s && key(e) != key(x) ==> e in Upsert(key, s, x)
  {
    BelowAboveMembers(key, s, key(x));
  }

  /** After deleting key k, exactly the old items with other keys are present. */
  lemma RemoveMembers<T>(key: T -> int, s: seq<T>, k: int)
    ensures forall e :: e in RemoveKey(key, s, k) ==> e in s && key(e) != k
    ensures forall e :: e in s && key(e) != k ==> e in RemoveKey(key, s, k)
  {
    BelowAboveMembers(key, s, k);
  }

  /** Below and Above of a node's sorted sequence, on each side of a key. */
  lemma SplitParts<T>(key: T -> int, a: seq<T>, y: T, b: seq<T>, k: int)
    requires StrictlySorted(key, a + [y] + b)
    ensures StrictlySorted(key, a) && StrictlySorted(key, b)
    ensures k < key(y) ==> Below(key, a + [y] + b, k) == Below(key, a, k) &&
                           Above(key, a + [y] + b, k) == Above(key, a, k) + [y] + b
    ensures k == key(y) ==> Below(key, a + [y] + b, k) == a && Above(key, a + [y] + b, k) == b
    ensures k > key(y) ==> Below(key, a + [y] + b, k) == a + [y] + Below(key, b, k) &&
                           Above(key, a + [y] + b, k) == Above(key, b, k)
  {
    SortedSplit(key, a, y, b);
    BelowAboveAppend(key, a + [y], b, k);
    BelowAboveAppend(key, a, [y], k);
    var s := a + [y] + b;
    BelowAboveWhole(key, [y], k);
    if k < key(y) {
      BelowAboveWhole(key, b, k);
      assert Below(key, b, k) == [] && Below(key, [y], k) == [];
      assert Above(key, b, k) == b && Above(key, [y], k) == [y];
      assert Below(key, s, k) == Below(key, a, k) + [] + [];
    } else if k == key(y) {
      BelowAboveWhole(key, a, k);
      BelowAboveWhole(key, b, k);
      assert Below(key, b, k) == [] && Below(key, [y], k) == [] && Below(key, a, k) == a;
      assert Above(key, b, k) == b && Above(key, [y], k) == [] && Above(key, a, k) == [];
      assert Below(key, s, k) == a + [] + [];
      assert Above(key, s, k) == [] + [] + b;
    } else {
      BelowAboveWhole(key, a, k);
      assert Below(key, a, k) == a && Below(key, [y], k) == [y];
      assert Above(key, a, k) == [] && Above(key, [y], k) == [];
      assert Above(key, s, k) == [] + [] + Above(key, b, k);
    }
  }

  /** Upsert of a key that falls in the first part of a sequence. */
  lemma UpsertInFirst<T>(key: T -> int, a: seq<T>, c: seq<T>, x: T)
    requires Below(key, a + c, key(x)) == Below(key, a, key(x))
    requires Above(key, a + c, key(x)) == Above(key, a, key(x)) + c
    ensures Upsert(key, a + c, x) == Upsert(key, a, x) + c
  {
    var k := key(x);
    Associative(Below(key, a, k) + [x], Above(key, a, k), c);
  }

  /** Upsert of a key that falls in the last part of a sequence. */
  lemma UpsertInLast<T>(key: T -> int, c: seq<T>, b: seq<T>, x: T)
    requires Below(key, c + b, key(x)) == c + Below(key, b, key(x))
    requires Above(key, c + b, key(x)) == Above(key, b, key(x))
    ensures Upsert(key, c + b, x) == c + Upsert(key, b, x)
  {
    var k := key(x);
    Associative(c, Below(key, b, k), [x]);
    Associative(c, Below(key, b, k) + [x], Above(key, b, k));
  }

  /** Upserting into a node's sorted sequence only touches the side the key points to. */
  lemma UpsertSplit<T>(key: T -> int, a: seq<T>, y: T, b: seq<T>, x: T)
    requires StrictlySorted(key, a + [y] + b)
    ensures StrictlySorted(key, a) && StrictlySorted(key, b)
    ensures Upsert(key, a + [y] + b, x) ==
              if key(x) < key(y) then Upsert(key, a, x) + [y] + b
              else if key(x) == key(y) then a + [x] + b
              else a + [y] + Upsert(key, b, x)
  {
    var k := key(x);
    SplitParts(key, a, y, b, k);
    if k < key(y) {
      assert a + [y] + b == a + ([y] + b);
      UpsertInFirst(key, a, [y] + b, x);
    } else if k > key(y) {
      UpsertInLast(key, a + [y], b, x);
    }
  }

  /** Removal of a key that falls in the first part of a sequence. */
  lemma RemoveInFirst<T>(key: T -> int, a: seq<T>, c: seq<T>, k: int)
    requires Below(key, a + c, k) == Below(key, a, k)
    requires Above(key, a + c, k) == Above(key, a, k) + c
    ensures RemoveKey(key, a + c, k) == RemoveKey(key, a, k) + c
  {
    Associative(Below(key, a, k), Above(key, a, k), c);
  }

  /** Removal of a key that falls in the last part of a sequence. */
  lemma RemoveInLast<T>(key: T -> int, c: seq<T>, b: seq<T>, k: int)
    requires Below(key, c + b, k) == c + Below(key, b, k)
    requires Above(key, c + b, k) == Above(key, b, k)
    ensures RemoveKey(key, c + b, k) == c + RemoveKey(key, b, k)
  {
    Associative(c, Below(key, b, k), Above(key, b, k));
  }

  /** Removing from a node's sorted sequence only touches the side the key points to. */
  lemma RemoveSplit<T>(key: T -> int, a: seq<T>, y: T, b: seq<T>, k: int)
    requires StrictlySorted(key, a + [y] + b)
    ensures StrictlySorted(key, a) && StrictlySorted(key, b)
    ensures RemoveKey(key, a + [y] + b, k) ==
              if k < key(y) then RemoveKey(key, a, k) + [y] + b
              else if k == key(y) then a + b
              else a + [y] + RemoveKey(key, b, k)
  {
    SplitParts(key, a, y, b, k);
    if k < key(y) {
      assert a + [y] + b == a + ([y] + b);
      RemoveInFirst(key, a, [y] + b, k);
    } else if k > key(y) {
      RemoveInLast(key, a + [y], b, k);
    }
  }

  /** Both sides of a sorted sequence around a key are sorted. */
  lemma BelowAboveSorted<T>(key: T -> int, s: seq<T>, k: int)
    requires StrictlySorted(key, s)
    ensures StrictlySorted(key, Below(key, s, k)) && StrictlySorted(key, Above(key, s, k))
  {
    FilterSorted(key, s, (e: T) => key(e) < k);
    FilterSorted(key, s, (e: T) => key(e) > k);
  }

  /** Two sorted sequences separated by a key concatenate to a sorted one. */
  lemma SortedConcat<T>(key: T -> int, a: seq<T>, b: seq<T>, k: int)
    requires StrictlySorted(key, a) && StrictlySorted(key, b)
    requires AllBelow(key, a, k) && AllAbove(key, b, k)
    ensures StrictlySorted(key, a + b)
  {
    forall i, j | 0 <= i < j < |a + b| ensures key((a + b)[i]) < key((a + b)[j]) {
      if j < |a| {
        assert (a + b)[i] == a[i] && (a + b)[j] == a[j];
      } else if i < |a| {
        assert (a + b)[i] == a[i] && (a + b)[j] == b[j - |a|];
      } else {
        assert (a + b)[i] == b[i - |a|] && (a + b)[j] == b[j - |a|];
      }
    }
  }

  /** ReplaceOrInsert keeps the items sorted. */
  lemma UpsertSorted<T>(key: T -> int, s: seq<T>, x: T)
    requires StrictlySorted(key, s)
    ensures StrictlySorted(key, Upsert(key, s, x))
  {
    var k := key(x);
    BelowAboveSorted(key, s, k);
    SortedSplit(key, Below(key, s, k), x, Above(key, s, k));
  }

  /** Deleting keeps the items sorted. */
  lemma RemoveSorted<T>(key: T -> int, s: seq<T>, k: int)
    requires StrictlySorted(key, s)
    ensures StrictlySorted(key, RemoveKey(key, s, k))
  {
    BelowAboveSorted(key, s, k);
    SortedConcat(key, Below(key, s, k), Above(key, s, k), k);
  }

  /** ReplaceOrInsert grows a sorted sequence exactly when the key was new. */
  lemma {:induction false} UpsertLength<T>(key: T -> int, s: seq<T>, x: T)
    requires StrictlySorted(key, s)
    ensures |Upsert(key, s, x)| == |s| + (if Find(key, s, key(x)).None? then 1 else 0)
    decreases |s|
  {
    if s == [] {
      BelowAboveWhole(key, s, key(x));
    } else {
      assert s == [] + [s[0]] + s[1..];
      UpsertSplit(key, [], s[0], s[1..], x);
      FindSplit(key, [], s[0], s[1..], key(x));
      if key(x) < key(s[0]) {
        BelowAboveWhole(key, [], key(x));
      } else if key(x) > key(s[0]) {
        UpsertLength(key, s[1..], x);
      }
    }
  }

  /** Deleting from a sorted sequence shrinks it exactly when the key was present. */
  lemma {:induction false} RemoveLength<T>(key: T -> int, s: seq<T>, k: int)
    requires StrictlySorted(key, s)
    ensures |RemoveKey(key, s, k)| == |s| - (if Find(key, s, k).Some? then 1 else 0)
    decreases |s|
  {
    if s == [] {
      BelowAboveWhole(key, s, k);
    } else {
      assert s == [] + [s[0]] + s[1..];
      RemoveSplit(key, [], s[0], s[1..], k);
      FindSplit(key, [], s[0], s[1..], k);
      if k < key(s[0]) {
        BelowAboveWhole(key, [], k);
      } else if k > key(s[0]) {
        RemoveLength(key, s[1..], k);
      }
    }
  }

  /** Deleting a key that no item has leaves a sorted sequence as it was. */
  lemma {:induction false} RemoveMissing<T>(key: T -> int, s: seq<T>, k: int)
    requires StrictlySorted(key, s) && Find(key, s, k).None?
    ensures RemoveKey(key, s, k) == s
    decreases |s|
  {
    if s == [] {
      BelowAboveWhole(key, s, k);
    } else {
      assert s == [] + [s[0]] + s[1..];
      RemoveSplit(key, [], s[0], s[1..], k);
      FindSplit(key, [], s[0], s[1..], k);
      if k < key(s[0]) {
        BelowAboveWhole(key, [], k);
      } else {
        RemoveMissing(key, s[1..], k);
      }
    }
  }

  /** Deleting the key just upserted gives what deleting it before would have given. */
  lemma RemoveAfterUpsert<T>(key: T -> int, s: seq<T>, x: T)
    ensures RemoveKey(key, Upsert(key, s, x), key(x)) == RemoveKey(key, s, key(x))
  {
    var k := key(x);
    var b, a := Below(key, s, k), Above(key, s, k);
    var u := Upsert(key, s, x);
    BelowAboveAppend(key, b + [x], a, k);
    BelowAboveAppend(key, b, [x], k);
    BelowAboveWhole(key, b, k);
    BelowAboveWhole(key, a, k);
    BelowAboveWhole(key, [x], k);
    EmptyIdentity(b);
    EmptyIdentity(a);
    assert Below(key, u, k) == (b + []) + [];
    assert Above(key, u, k) == ([] + []) + a;
  }

  /** The empty sequence is the identity of concatenation. */
  lemma EmptyIdentity<T>(a: seq<T>)
    ensures a + [] == a && [] + a == a
  {
  }

  /**
   * What a walk over `s` does with the callback `iter`: it calls `iter` on the
   * items in order and stops right after the first call that returns false.
   * The result is the list of items passed to `iter` and whether the walk ran
   * to the end.
   */
  ghost function Visit<T>(s: seq<T>, iter: T -> bool): (r: (seq<T>, bool))
    ensures |r.0| <= |s|
  {
    if s == [] then ([], true)
    else if !iter(s[0]) then ([s[0]], false)
    else
      var rest := Visit(s[1..], iter);
      ([s[0]] + rest.0, rest.1)
  }

  /**
   * A walk calls the callback on a prefix of `s`; it runs to the end exactly
   * when the callback accepts every item, and otherwise stops at the first
   * item the callback rejects.
   */
  lemma {:induction false} VisitStops<T>(s: seq<T>, iter: T -> bool)
    ensures Visit(s, iter).0 == s[..|Visit(s, iter).0|]
    ensures Visit(s, iter).1 <==> forall i :: 0 <= i < |s| ==> iter(s[i])
    ensures Visit(s, iter).1 ==> Visit(s, iter).0 == s
    ensures !Visit(s, iter).1 ==>
              |Visit(s, iter).0| > 0 && !iter(Visit(s, iter).0[|Visit(s, iter).0| - 1]) &&
              forall i :: 0 <= i < |Visit(s, iter).0| - 1 ==> iter(Visit(s, iter).0[i])
  {
    if s != [] && iter(s[0]) {
      VisitStops(s[1..], iter);
      var rest := Visit(s[1..], iter);
      assert forall i :: 0 <= i < |rest.0| ==> ([s[0]] + rest.0)[i + 1] == rest.0[i];
      assert forall i :: 0 < i < |s| ==> s[i] == s[1..][i - 1];
    }
  }

  /** A walk over a concatenation walks the first part, then (if not stopped) the second. */
  lemma {:induction false} VisitAppend<T>(a: seq<T>, b: seq<T>, iter: T -> bool)
    ensures Visit(a + b, iter) ==
              if Visit(a, iter).1 then (Visit(a, iter).0 + Visit(b, iter).0, Visit(b, iter).1)
              else Visit(a, iter)
  {
    if a == [] {
      assert a + b == b;
      assert [] + Visit(b, iter).0 == Visit(b, iter).0;
    } else {
      assert (a + b)[0] == a[0];
      assert (a + b)[1..] == a[1..] + b;
      if iter(a[0]) {
        VisitAppend(a[1..], b, iter);
        var ra, rb := Visit(a[1..], iter), Visit(b, iter);
        if ra.1 {
          assert [a[0]] + (ra.0 + rb.0) == ([a[0]] + ra.0) + rb.0;
        }
      }
    }
  }

  /**
   * Stopping after exactly k calls: if the callback accepts the first k-1
   * items and rejects the k-th, the walk makes exactly k calls.
   */
  lemma StopsAfter<T>(s: seq<T>, iter: T -> bool, k: nat)
    requires 1 <= k <= |s|
    requires !iter(s[k - 1]) && forall i :: 0 <= i < k - 1 ==> iter(s[i])
    ensures |Visit(s, iter).0| == k
  {
    VisitStops(s, iter);
    var r := Visit(s, iter);
    assert forall i :: 0 <= i < |r.0| ==> r.0[i] == s[i];
  }

  /** Items e with ge <= e < lt, where a missing bound does not restrict. */
  ghost predicate InAscRange<T>(key: T -> int, e: T, ge: Option<T>, lt: Option<T>) {
    (ge.None? || key(e) >= key(ge.value)) && (lt.None? || key(e) < key(lt.value))
  }

  /** Items e with gt < e <= le, where a missing bound does not restrict. */
  ghost predicate InDescRange<T>(key: T -> int, e: T, le: Option<T>, gt: Option<T>) {
    (le.None? || key(e) <= key(le.value)) && (gt.None? || key(e) > key(gt.value))
  }

  /** The items of `s`, in order, that lie in the ascending range [ge, lt). */
  ghost function AscRange<T>(key: T -> int, s: seq<T>, ge: Option<T>, lt: Option<T>): (r: seq<T>)
    ensures |r| <= |s|
  {
    if s == [] then []
    else (if InAscRange(key, s[0], ge, lt) then [s[0]] else []) + AscRange(key, s[1..], ge, lt)
  }

  /** The items of `s` that lie in the descending range (gt, le], last one first. */
  ghost function DescRange<T>(key: T -> int, s: seq<T>, le: Option<T>, gt: Option<T>): (r: seq<T>)
    ensures |r| <= |s|
  {
    if s == [] then []
    else DescRange(key, s[1..], le, gt) + (if InDescRange(key, s[0], le, gt) then [s[0]] else [])
  }

  /** AscRange keeps exactly the items of `s` that lie in the range. */
  lemma {:induction false} AscRangeMembers<T>(key: T -> int, s: seq<T>, ge: Option<T>, lt: Option<T>)
    ensures forall e :: e in AscRange(key, s, ge, lt) ==> e in s && InAscRange(key, e, ge, lt)
    ensures forall e :: e in s && InAscRange(key, e, ge, lt) ==> e in AscRange(key, s, ge, lt)
  {
    if s != [] {
      AscRangeMembers(key, s[1..], ge, lt);
      assert forall e :: e in s ==> e == s[0] || e in s[1..];
    }
  }

  /** DescRange keeps exactly the items of `s` that lie in the range. */
  lemma {:induction false} DescRangeMembers<T>(key: T -> int, s: seq<T>, le: Option<T>, gt: Option<T>)
    ensures forall e :: e in DescRange(key, s, le, gt) ==> e in s && InDescRange(key, e, le, gt)
    ensures forall e :: e in s && InDescRange(key, e, le, gt) ==> e in DescRange(key, s, le, gt)
  {
    if s != [] {
      DescRangeMembers(key, s[1..], le, gt);
      assert forall e :: e in s ==> e == s[0] || e in s[1..];
    }
  }

  /** The ascending range of a sequence with a first item in front. */
  lemma AscRangeCons<T>(key: T -> int, y: T, s: seq<T>, ge: Option<T>, lt: Option<T>)
    ensures AscRange(key, [y] + s, ge, lt) ==
              (if InAscRange(key, y, ge, lt) then [y] else []) + AscRange(key, s, ge, lt)
  {
    assert ([y] + s)[0] == y && ([y] + s)[1..] == s;
  }

  /** The ascending range of a concatenation is the ranges of the parts, in order. */
  lemma {:induction false} AscRangeAppend<T>(key: T -> int, a: seq<T>, b: seq<T>, ge: Option<T>, lt: Option<T>)
    ensures AscRange(key, a + b, ge, lt) == AscRange(key, a, ge, lt) + AscRange(key, b, ge, lt)
  {
    if a == [] {
      assert a + b == b;
    } else {
      var y, t := a[0], a[1..];
      SplitHead(a, b);
      AscRangeAppend(key, t, b, ge, lt);
      AscRangeCons(key, y, t, ge, lt);
      AscRangeCons(key, y, t + b, ge, lt);
      Associative(if InAscRange(key, y, ge, lt) then [y] else [], AscRange(key, t, ge, lt), AscRange(key, b, ge, lt));
    }
  }

  /** The descending range of a sequence with a first item in front. */
  lemma DescRangeCons<T>(key: T -> int, y: T, s: seq<T>, le: Option<T>, gt: Option<T>)
    ensures DescRange(key, [y] + s, le, gt) ==
              DescRange(key, s, le, gt) + (if InDescRange(key, y, le, gt) then [y] else [])
  {
    assert ([y] + s)[0] == y && ([y] + s)[1..] == s;
  }

  /** The descending range of a concatenation is the second part's range, then the first's. */
  lemma {:induction false} DescRangeAppend<T>(key: T -> int, a: seq<T>, b: seq<T>, le: Option<T>, gt: Option<T>)
    ensures DescRange(key, a + b, le, gt) == DescRange(key, b, le, gt) + DescRange(key, a, le, gt)
  {
    if a == [] {
      assert a + b == b;
      assert DescRange(key, b, le, gt) + [] == DescRange(key, b, le, gt);
    } else {
      var y, t := a[0], a[1..];
      SplitHead(a, b);
      DescRangeAppend(key, t, b, le, gt);
      DescRangeCons(key, y, t, le, gt);
      DescRangeCons(key, y, t + b, le, gt);
      Associative(DescRange(key, b, le, gt), DescRange(key, t, le, gt),
                  if InDescRange(key, y, le, gt) then [y] else []);
    }
  }

  /** The items of `s` in the opposite order. */
  ghost function Reverse<T>(s: seq<T>): (r: seq<T>)
    ensures |r| == |s|
  {
    if s == [] then [] else Reverse(s[1..]) + [s[0]]
  }

  /** Reversing a sequence with a last item appended puts that item first. */
  lemma {:induction false} ReverseSnoc<T>(s: seq<T>, x: T)
    ensures Reverse(s + [x]) == [x] + Reverse(s)
  {
    if s == [] {
      assert s + [x] == [x];
      assert Reverse([x]) == Reverse([x][1..]) + [x];
      EmptyIdentity([x]);
    } else {
      SplitHead(s, [x]);
      assert (s + [x])[1..] == s[1..] + [x];
      ReverseSnoc(s[1..], x);
      Associative([x], Reverse(s[1..]), [s[0]]);
    }
  }

  /** Reversal moves the i-th item to position |s| - 1 - i. */
  lemma {:induction false} ReverseIndex<T>(s: seq<T>, i: nat)
    requires i < |s|
    ensures Reverse(s)[|s| - 1 - i] == s[i]
  {
    if i > 0 {
      ReverseIndex(s[1..], i - 1);
    }
  }

  /** Without bounds, the ascending range is the whole sequence and the descending one its reverse. */
  lemma {:induction false} UnboundedRanges<T>(key: T -> int, s: seq<T>)
    ensures AscRange(key, s, None, None) == s && DescRange(key, s, None, None) == Reverse(s)
  {
    if s != [] {
      UnboundedRanges(key, s[1..]);
    }
  }

  /** When no item of `s` lies in the range, the range part is empty. */
  lemma {:induction false} AscRangeNone<T>(key: T -> int, s: seq<T>, ge: Option<T>, lt: Option<T>)
    requires forall i :: 0 <= i < |s| ==> !InAscRange(key, s[i], ge, lt)
    ensures AscRange(key, s, ge, lt) == []
  {
    if s != [] {
      AscRangeNone(key, s[1..], ge, lt);
    }
  }

  /** When no item of `s` lies in the range, the range part is empty. */
  lemma {:induction false} DescRangeNone<T>(key: T -> int, s: seq<T>, le: Option<T>, gt: Option<T>)
    requires forall i :: 0 <= i < |s| ==> !InDescRange(key, s[i], le, gt)
    ensures DescRange(key, s, le, gt) == []
  {
    if s != [] {
      DescRangeNone(key, s[1..], le, gt);
    }
  }

  /**
   * A walk over a node's sequence: the left part, then (if not stopped) the
   * node's item, then (if accepted) the right part.
   */
  lemma VisitNode<T>(a: seq<T>, y: T, b: seq<T>, iter: T -> bool)
    ensures Visit(a + [y] + b, iter) ==
              if !Visit(a, iter).1 then Visit(a, iter)
              else if !iter(y) then (Visit(a, iter).0 + [y], false)
              else (Visit(a, iter).0 + [y] + Visit(b, iter).0, Visit(b, iter).1)
  {
    VisitAppend(a + [y], b, iter);
    VisitAppend(a, [y], iter);
    assert [y][1..] == [] && [y] + [] == [y];
  }

  /** Find gives nothing when no item has key `k`. */
  lemma {:induction false} FindMissing<T>(key: T -> int, s: seq<T>, k: int)
    requires forall i :: 0 <= i < |s| ==> key(s[i]) != k
    ensures Find(key, s, k) == None
  {
    if s != [] {
      FindMissing(key, s[1..], k);
    }
  }

  /**
   * After ReplaceOrInsert(x), looking up x's key gives x, and looking up any
   * other key gives what it gave before.
   */
  lemma FindAfterUpsert<T>(key: T -> int, s: seq<T>, x: T)
    requires StrictlySorted(key, s)
    ensures Find(key, Upsert(key, s, x), key(x)) == Some(x)
    ensures forall k :: k != key(x) ==> Find(key, Upsert(key, s, x), k) == Find(key, s, k)
  {
    var u := Upsert(key, s, x);
    UpsertSorted(key, s, x);
    UpsertMembers(key, s, x);
    FindExactly(key, u, key(x), x);
    forall k | k != key(x) ensures Find(key, u, k) == Find(key, s, k) {
      if Find(key, s, k).Some? {
        var y := Find(key, s, k).value;
        FindExactly(key, u, k, y);
      } else {
        forall i | 0 <= i < |u| ensures key(u[i]) != k {
          assert u[i] in u;
        }
        FindMissing(key, u, k);
      }
    }
  }

  /**
   * After deleting key k, looking k up gives nothing, and looking up any
   * other key gives what it gave before.
   */
  lemma FindAfterRemove<T>(key: T -> int, s: seq<T>, k: int)
    requires StrictlySorted(key, s)
    ensures Find(key, RemoveKey(key, s, k), k) == None
    ensures forall k' :: k' != k ==> Find(key, RemoveKey(key, s, k), k') == Find(key, s, k')
  {
    var r := RemoveKey(key, s, k);
    RemoveSorted(key, s, k);
    RemoveMembers(key, s, k);
    forall i | 0 <= i < |r| ensures key(r[i]) != k {
      assert r[i] in r;
    }
    FindMissing(key, r, k);
    forall k' | k' != k ensures Find(key, r, k') == Find(key, s, k') {
      if Find(key, s, k').Some? {
        var y := Find(key, s, k').value;
        FindExactly(key, r, k', y);
      } else {
        forall i | 0 <= i < |r| ensures key(r[i]) != k' {
          assert r[i] in r;
        }
        FindMissing(key, r, k');
      }
    }
  }

  /** The distinct items of a sequence. */
  ghost function Members<T>(s: seq<T>): set<T> {
    set e | e in s
  }

  /** A sorted sequence has no repeated item, so it has as many distinct items as positions. */
  lemma {:induction false} SortedCardinality<T>(key: T -> int, s: seq<T>)
    requires StrictlySorted(key, s)
    ensures |Members(s)| == |s|
  {
    if s != [] {
      SortedCardinality(key, s[1..]);
      assert Members(s) == {s[0]} + Members(s[1..]);
      assert s[0] !in s[1..];
    }
  }

  /** A walk over a sorted sequence calls the callback in increasing key order. */
  lemma VisitSorted<T>(key: T -> int, s: seq<T>, iter: T -> bool)
    requires StrictlySorted(key, s)
    ensures StrictlySorted(key, Visit(s, iter).0)
  {
    VisitStops(s, iter);
  }

  /** An ascending range of a sorted sequence is sorted. */
  lemma {:induction false} AscRangeSorted<T>(key: T -> int, s: seq<T>, ge: Option<T>, lt: Option<T>)
    requires StrictlySorted(key, s)
    ensures StrictlySorted(key, AscRange(key, s, ge, lt))
  {
    if s != [] {
      var rest := AscRange(key, s[1..], ge, lt);
      AscRangeSorted(key, s[1..], ge, lt);
      AscRangeMembers(key, s[1..], ge, lt);
      forall i | 0 <= i < |rest| ensures key(rest[i]) > key(s[0]) {
        assert rest[i] in rest;
      }
      SortedSplit(key, [], s[0], rest);
      assert [] + [s[0]] + rest == [s[0]] + rest;
    }
  }

  /** Keys strictly decrease along `s`. */
  ghost predicate StrictlyDescending<T>(key: T -> int, s: seq<T>) {
    forall i, j :: 0 <= i < j < |s| ==> key(s[i]) > key(s[j])
  }

  /** A descending range of a sorted sequence lists its items in decreasing key order. */
  lemma {:induction false} DescRangeDescending<T>(key: T -> int, s: seq<T>, le: Option<T>, gt: Option<T>)
    requires StrictlySorted(key, s)
    ensures StrictlyDescending(key, DescRange(key, s, le, gt))
  {
    if s != [] {
      var rest := DescRange(key, s[1..], le, gt);
      DescRangeDescending(key, s[1..], le, gt);
      DescRangeMembers(key, s[1..], le, gt);
      if InDescRange(key, s[0], le, gt) {
        var d := rest + [s[0]];
        forall i, j | 0 <= i < j < |d| ensures key(d[i]) > key(d[j]) {
          if j == |rest| {
            assert d[i] == rest[i] && rest[i] in rest;
          } else {
            assert d[i] == rest[i] && d[j] == rest[j];
          }
        }
      }
    }
  }

  /** An item in front of a sequence keeps it sorted exactly when it is below all of it. */
  lemma SortedCons<T>(key: T -> int, x: T, s: seq<T>)
    ensures StrictlySorted(key, [x] + s) <==> StrictlySorted(key, s) && AllAbove(key, s, key(x))
  {
    SortedSplit(key, [], x, s);
    EmptyIdentity([x]);
  }

  /** An item behind a sequence keeps it sorted exactly when it is above all of it. */
  lemma SortedSnoc<T>(key: T -> int, s: seq<T>, x: T)
    ensures StrictlySorted(key, s + [x]) <==> StrictlySorted(key, s) && AllBelow(key, s, key(x))
  {
    SortedSplit(key, s, x, []);
    EmptyIdentity(s + [x]);
  }

  /** A non-empty sequence is its first item followed by the rest. */
  lemma SplitHead<T>(a: seq<T>, b: seq<T>)
    requires a != []
    ensures a == [a[0]] + a[1..] && a + b == [a[0]] + (a[1..] + b)
  {
  }

  /** Concatenation is associative. */
  lemma Associative<T>(x: seq<T>, y: seq<T>, z: seq<T>)
    ensures x + (y + z) == (x + y) + z
  {
  }
}
