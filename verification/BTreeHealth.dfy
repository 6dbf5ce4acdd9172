/** Sorted trees: what insertion and deletion keep, and how high a tree can be. */
module BTreeHealth {
  import opened Wrappers
  import opened BTreeModel
  import opened BTreeRemove

  // ---------- sorted trees ----------

  /** Strictly increasing in rank, the integer the comparison functions subtract. */
  ghost predicate Sorted<T>(rank: T -> int, s: seq<T>) {
    forall i, j :: 0 <= i < j < |s| ==> rank(s[i]) < rank(s[j])
  }

  /** The comparison with target x that `Func(x, item)` computes: the difference of the ranks. */
  function Compare<T>(rank: T -> int, x: T): T -> int {
    y => rank(x) - rank(y)
  }

  /** Every tree reachable by inserting and deleting: sorted, balanced, filled, not an empty node. */
  ghost predicate Healthy<T>(t: Tree<T>, h: nat, rank: T -> int) {
    Shape(t, h) && (t.Node? ==> |t.keys| > 0) && Sorted(rank, Items(t))
  }

  lemma SortedStrict<T>(rank: T -> int, s: seq<T>, x: T)
    requires Sorted(rank, s)
    ensures Strict(Compare(rank, x), s)
  {}

  lemma SeqInsertSorted<T>(rank: T -> int, s: seq<T>, x: T)
    requires Sorted(rank, s)
    ensures Sorted(rank, SeqInsert(s, Compare(rank, x), x))
    ensures HasEqual(Compare(rank, x), s) <==> exists i :: 0 <= i < |s| && rank(s[i]) == rank(x)
  {
    var f, p := Compare(rank, x), Rank(Compare(rank, x), s);
    RankSplits(f, s);
    if !HasEqual(f, s) { SortedWith(rank, s, p, x); }
  }

  lemma SortedWith<T>(rank: T -> int, s: seq<T>, p: nat, x: T)
    requires Sorted(rank, s) && p <= |s|
    requires p > 0 ==> rank(s[p - 1]) < rank(x)
    requires p < |s| ==> rank(x) < rank(s[p])
    ensures Sorted(rank, s[..p] + [x] + s[p..])
  {
    var r := s[..p] + [x] + s[p..];
    assert forall i :: 0 <= i < p ==> r[i] == s[i] && rank(s[i]) < rank(x);
    assert forall i :: p < i < |r| ==> r[i] == s[i - 1] && rank(x) < rank(s[i - 1]);
  }

  lemma SortedWithout<T>(rank: T -> int, s: seq<T>, p: nat)
    requires Sorted(rank, s) && p < |s|
    ensures Sorted(rank, s[..p] + s[p + 1..])
    ensures forall y :: y in s[..p] + s[p + 1..] <==> y in s && rank(y) != rank(s[p])
  {
    var r := s[..p] + s[p + 1..];
    assert s == s[..p] + [s[p]] + s[p + 1..];
    assert forall i :: 0 <= i < |r| ==> r[i] == s[if i < p then i else i + 1];
  }

  lemma SeqRemoveSorted<T>(rank: T -> int, s: seq<T>, x: T)
    requires Sorted(rank, s)
    ensures var f := Compare(rank, x); Sorted(rank, SeqRemove(s, f))
    ensures var f := Compare(rank, x); forall y :: y in SeqRemove(s, f) <==> y in s && rank(y) != rank(x)
  {
    var f, p := Compare(rank, x), Rank(Compare(rank, x), s);
    if HasEqual(f, s) {
      SortedWithout(rank, s, p);
    } else {
      SeqInsertSorted(rank, s, x);
    }
  }

  lemma SeqInsertMembers<T>(rank: T -> int, s: seq<T>, x: T, y: T)
    requires Sorted(rank, s)
    ensures y in SeqInsert(s, Compare(rank, x), x) <==> y in s || (y == x && forall z :: z in s ==> rank(z) != rank(x))
  {
    var f := Compare(rank, x);
    var p := Rank(f, s);
    SeqInsertSorted(rank, s, x);
    if HasEqual(f, s) {
      assert s[p] in s && rank(s[p]) == rank(x);
    } else {
      assert s == s[..p] + s[p..];
    }
  }

  /** Insertion keeps every promise of the tree, and adds the item exactly when no equal one exists. */
  lemma InsertKeepsHealthy<T>(t: Tree<T>, h: nat, rank: T -> int, x: T)
    requires Healthy(t, h, rank)
    ensures var r := Insert(t, h, Compare(rank, x), x);
      && Healthy(r, GrownHeight(t, h, Compare(rank, x), x), rank)
      && (forall y :: y in Items(r) <==> y in Items(t) || (y == x && forall z :: z in Items(t) ==> rank(z) != rank(x)))
  {
    var f, s := Compare(rank, x), Items(t);
    SortedStrict(rank, s, x);
    InsertItems(t, h, f, x);
    SeqInsertSorted(rank, s, x);
    forall y { SeqInsertMembers(rank, s, x, y); }
    InsertNonEmpty(t, h, f, x);
  }

  lemma InsertNonEmpty<T>(t: Tree<T>, h: nat, f: T -> int, x: T)
    requires Shape(t, h) && (t.Node? ==> |t.keys| > 0)
    ensures |Insert(t, h, f, x).keys| > 0
  {}

  /** The root after a deletion: an emptied leaf disappears. */
  function Trim<T>(t: Tree<T>): Tree<T> {
    if t.Node? && t.keys == [] then Nil else t
  }

  /** Deletion keeps every promise of the tree, and removes exactly the item equal to the target. */
  lemma RemoveKeepsHealthy<T>(t: Tree<T>, h: nat, rank: T -> int, x: T)
    requires Healthy(t, h, rank) && h > 0
    ensures var f := Compare(rank, x); var r := Remove(t, h, f); var r' := Trim(r.tree);
      && (Healthy(r', h, rank) || Healthy(r', h - 1, rank))
      && (forall y :: y in Items(r') <==> y in Items(t) && rank(y) != rank(x))
      && (r.item.Some? <==> exists y :: y in Items(t) && rank(y) == rank(x))
      && (r.item.Some? ==> r.item.value in Items(t) && rank(r.item.value) == rank(x))
  {
    var f, s := Compare(rank, x), Items(t);
    SortedStrict(rank, s, x);
    RemoveItems(t, h, f);
    RemovedRoot(t, h, f);
    hide Remove, Items, Trim, Compare, Strict, SeqRemove, SeqFind, Shape;
    SeqRemoveSorted(rank, s, x);
    SeqFindSorted(rank, s, x);
  }

  lemma RemovedRoot<T>(t: Tree<T>, h: nat, f: T -> int)
    requires Shape(t, h) && h > 0 && |t.keys| > 0
    ensures var r := Remove(t, h, f).tree; var r' := Trim(r);
      && (Shape(r', h) || Shape(r', h - 1)) && (r'.Node? ==> |r'.keys| > 0) && Items(r') == Items(r)
  {
    if Remove(t, h, f).tree.keys == [] { EmptyRoot(t, h, f); }
  }

  lemma SeqFindSorted<T>(rank: T -> int, s: seq<T>, x: T)
    requires Sorted(rank, s)
    ensures var r := SeqFind(s, Compare(rank, x));
      && (r.Some? <==> exists y :: y in s && rank(y) == rank(x))
      && (r.Some? ==> r.value in s && rank(r.value) == rank(x))
  {
    var f := Compare(rank, x);
    if exists y :: y in s && rank(y) == rank(x) {
      var i :| 0 <= i < |s| && rank(s[i]) == rank(x);
      RankIs(f, s, i);
    }
  }

  lemma EmptyRoot<T>(t: Tree<T>, h: nat, f: T -> int)
    requires Shape(t, h) && h > 0 && |t.keys| > 0 && Remove(t, h, f).tree.keys == []
    ensures h == 1 && Shape(Remove(t, h, f).tree, 1) && Items(Remove(t, h, f).tree) == []
  {
    if h == 1 { LeafItems(Remove(t, h, f).tree); }
  }

  // ---------- height ----------

  function Pow6(h: nat): nat {
    if h == 0 then 1 else 6 * Pow6(h - 1)
  }

  lemma {:induction false} MinItems<T>(t: Tree<T>, h: nat)
    requires Shape(t, h) && Full(t)
    ensures |Items(t)| >= Pow6(h) - 1
    decreases h, 1
  {
    if h > 0 { NodeItems(t, h); }
  }

  lemma {:induction false} NodeItems<T>(t: Tree<T>, h: nat)
    requires Shape(t, h) && h > 0
    ensures |Items(t)| >= (|t.keys| + 1) * Pow6(h - 1) - 1
    decreases h, 0
  {
    var n := Pow6(h - 1);
    forall i | 0 <= i < |t.kids| ensures |Items(t.kids[i])| + 1 >= n {
      MinItems(t.kids[i], h - 1);
    }
    AfterCount(t.keys, t.kids[1..], n);
    assert (|t.keys| + 1) * n == |t.keys| * n + n;
  }

  lemma {:induction false} AfterCount<T>(keys: seq<T>, kids: seq<Tree<T>>, n: nat)
    requires |kids| == |keys|
    requires forall i :: 0 <= i < |kids| ==> |Items(kids[i])| + 1 >= n
    ensures |After(keys, kids)| >= |keys| * n
    decreases |keys|
  {
    if keys != [] {
      AfterCount(keys[1..], kids[1..], n);
      assert |keys| * n == n + (|keys| - 1) * n;
    }
  }

  /** The frames of a cursor suffice: a tree of fewer than 2 * 6^10 - 1 items has at most 10 levels. */
  lemma HeightBound<T>(t: Tree<T>, h: nat)
    requires Shape(t, h) && (t.Node? ==> |t.keys| > 0)
    requires |Items(t)| < 120932351
    ensures h <= 10
  {
    if h > 10 { TallTree(t, h); }
  }

  lemma TallTree<T>(t: Tree<T>, h: nat)
    requires Shape(t, h) && Size(t) > 0 && h > 10
    ensures |Items(t)| >= 120932351
  {
    NodeItems(t, h);
    Pow6Mono(10, h - 1);
    assert Pow6(10) == 60466176 by { assert Pow6(5) == 7776; }
    assert (|t.keys| + 1) * Pow6(h - 1) >= 2 * Pow6(h - 1);
  }

  lemma {:induction false} Pow6Mono(a: nat, b: nat)
    requires a <= b
    ensures Pow6(a) <= Pow6(b)
    decreases b - a
  {
    if a < b { Pow6Mono(a + 1, b); }
  }
}
