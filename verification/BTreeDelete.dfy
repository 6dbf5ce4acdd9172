/** Deletion in place: the descent to the item and its successor, the rotations, the merge and the
    collapse of the root, proved to compute BTreeModel.Remove. */
module BTreeDelete {
  import opened Wrappers
  import opened BTreeModel
  import opened BTreeRemove
  import opened BTreeHealth
  import opened BTreeNode

  // ---------- keys and subtrees at the ends of a node ----------

  lemma AppendSeq<T>(s: seq<T>, x: T)
    ensures s[..|s|] + [x] + s[|s|..] == s + [x]
  {}

  lemma EndSeqs<T>(s: seq<T>)
    requires s != []
    ensures s[..0] + s[1..] == s[1..]
    ensures s[..|s| - 1] + s[|s|..] == s[..|s| - 1]
  {}

  /** n takes a last key and a last subtree. */
  method TakeLast(n: BTNode, item: Item, z: BTNode?)
    requires n.Valid() && n.count < MAX_KEYS && Stands(z, TreeOf(z), Area(z)) && Area(z) !! n.Repr
    modifies n, n.key, n.branch
    ensures n.Valid() && n.Repr == old(n.Repr) + Area(z)
    ensures n.tree == Node(old(n.tree).keys + [item], old(n.tree).kids + [TreeOf(z)])
  {
    ghost var t, R, b := n.tree, n.Repr - n.Own(), n.Branches();
    KidsWith(b, t.kids, R, |b|, z);
    AppendSeq(b, z);
    AppendSeq(t.kids, TreeOf(z));
    n.AddItemToRight(item, z, -1);
    Adopt(n, t.kids + [TreeOf(z)], R + Area(z));
  }

  /** n takes a first key and a first subtree. */
  method TakeAhead(n: BTNode, item: Item, z: BTNode?)
    requires n.Valid() && n.count < MAX_KEYS && Stands(z, TreeOf(z), Area(z)) && Area(z) !! n.Repr
    modifies n, n.key, n.branch
    ensures n.Valid() && n.Repr == old(n.Repr) + Area(z)
    ensures n.tree == Node([item] + old(n.tree).keys, [TreeOf(z)] + old(n.tree).kids)
  {
    ghost var t, R := n.tree, n.Repr - n.Own();
    KidsWith(n.Branches(), t.kids, R, 0, z);
    n.AddItemToLeft(item, z, 0);
    assert t.kids[..0] + [TreeOf(z)] + t.kids[0..] == [TreeOf(z)] + t.kids;
    Adopt(n, [TreeOf(z)] + t.kids, R + Area(z));
  }

  /** n loses its first key and its first subtree. */
  method LoseFirst(n: BTNode)
    requires n.Valid() && n.count > 0
    modifies n, n.key, n.branch
    ensures n.Valid() && n.Repr == old(n.Repr - Area(n.branch[0]))
    ensures |old(n.tree).kids| == old(n.count) + 1 && |old(n.tree).keys| == old(n.count)
    ensures n.tree == Node(old(n.tree).keys[1..], old(n.tree).kids[1..])
  {
    ghost var t, R, b, z := n.tree, n.Repr - n.Own(), n.Branches(), n.branch[0];
    ChildStands(n, 0);
    KidsWithout(b, t.kids, R, 0);
    EndSeqs(b);
    EndSeqs(t.kids);
    ghost var R' := R - Area(z);
    assert KidsValid(b[1..], t.kids[1..], R') && n.Own() !! R';
    hide KidsValid, Stands, BTNode.Valid;
    n.DeleteItemToLeft(0);
    assert n.Branches() == b[1..];
    assert KidsValid(b[1..], t.kids[1..], R');
    Adopt(n, t.kids[1..], R');
  }

  /** n loses its last key and its last subtree. */
  method LoseLast(n: BTNode)
    requires n.Valid() && n.count > 0
    modifies n, n.key, n.branch
    ensures n.Valid() && n.Repr == old(n.Repr - Area(n.branch[n.count]))
    ensures |old(n.tree).kids| == old(n.count) + 1 && |old(n.tree).keys| == old(n.count)
    ensures var t := old(n.tree); n.tree == Node(t.keys[..|t.keys| - 1], t.kids[..|t.keys|])
  {
    ghost var t, R, b, z := n.tree, n.Repr - n.Own(), n.Branches(), n.branch[n.count];
    ChildStands(n, n.count);
    KidsWithout(b, t.kids, R, |b| - 1);
    EndSeqs(b);
    EndSeqs(t.kids);
    ghost var R' := R - Area(z);
    assert KidsValid(b[..|b| - 1], t.kids[..|t.keys|], R') && n.Own() !! R';
    hide KidsValid, Stands, BTNode.Valid;
    n.DeleteItemToRight(-1);
    assert n.Branches() == b[..|b| - 1];
    assert KidsValid(b[..|b| - 1], t.kids[..|t.keys|], R');
    Adopt(n, t.kids[..|t.keys|], R');
  }

  // ---------- rotations ----------

  /** x takes key c of node n and the first branch of its right neighbour y; n takes y's first key. */
  method RotateLeftKeys(n: BTNode, c: nat, x: BTNode, y: BTNode)
    requires n.Arrays() && c < n.count && x.Valid() && y.Valid() && x.Repr !! y.Repr && n.Own() !! x.Repr + y.Repr
    requires x.count < MAX_KEYS && y.count > 0
    modifies n.key, x, x.key, x.branch, y, y.key, y.branch
    ensures x.Valid() && y.Valid() && x.Repr !! y.Repr && x.Repr + y.Repr <= old(x.Repr + y.Repr)
    ensures n.Keys() == old(n.Keys())[c := old(y.tree).keys[0]] && n.Branches() == old(n.Branches())
    ensures |old(y.tree).kids| > 0
    ensures x.tree == Node(old(x.tree).keys + [old(n.Keys())[c]], old(x.tree).kids + [old(y.tree).kids[0]])
    ensures y.tree == Node(old(y.tree).keys[1..], old(y.tree).kids[1..])
  {
    hide KidsValid, Stands, BTNode.Valid;
    ChildStands(y, 0);
    TakeLast(x, n.key[c], y.branch[0]);
    n.key[c] := y.key[0];
    LoseFirst(y);
  }

  /** x takes key c of node n and the last branch of its left neighbour w; n takes w's last key. */
  method RotateRightKeys(n: BTNode, c: nat, w: BTNode, x: BTNode)
    requires n.Arrays() && c < n.count && x.Valid() && w.Valid() && x.Repr !! w.Repr && n.Own() !! x.Repr + w.Repr
    requires x.count < MAX_KEYS && w.count > 0
    modifies n.key, x, x.key, x.branch, w, w.key, w.branch
    ensures x.Valid() && w.Valid() && x.Repr !! w.Repr && x.Repr + w.Repr <= old(x.Repr + w.Repr)
    ensures n.Keys() == old(n.Keys())[c := old(w.tree).keys[old(w.count) - 1]] && n.Branches() == old(n.Branches())
    ensures |old(w.tree).kids| == old(w.count) + 1
    ensures x.tree == Node([old(n.Keys())[c]] + old(x.tree).keys, [old(w.tree).kids[old(w.count)]] + old(x.tree).kids)
    ensures var t := old(w.tree); w.tree == Node(t.keys[..|t.keys| - 1], t.kids[..|t.keys|])
  {
    hide KidsValid, Stands, BTNode.Valid;
    ChildStands(w, w.count);
    TakeAhead(x, n.key[c], w.branch[w.count]);
    n.key[c] := w.key[w.count - 1];
    LoseLast(w);
  }

  // ---------- merging ----------

  /** w takes a key and then everything that y holds. */
  method Absorb(w: BTNode, k: Item, y: BTNode)
    requires w.Valid() && y.Valid() && w.Repr !! y.Repr && w.count + 1 + y.count <= MAX_KEYS
    modifies w, w.key, w.branch
    ensures w.Valid() && w.Repr <= old(w.Repr) + y.Repr
    ensures w.tree == Join(old(w.tree), k, y.tree)
  {
    ghost var t, b, R := w.tree, w.Branches(), w.Repr - w.Own();
    KidsConcat(b, t.kids, R, y.Branches(), y.tree.kids, y.Repr - y.Own());
    AbsorbKeys(w, k, y);
    Adopt(w, t.kids + y.tree.kids, R + (y.Repr - y.Own()));
  }

  method AbsorbKeys(w: BTNode, k: Item, y: BTNode)
    requires w.Arrays() && y.Arrays() && w.Own() !! y.Own() && w.count + 1 + y.count <= MAX_KEYS
    modifies w`count, w.key, w.branch
    ensures w.Arrays()
    ensures w.Keys() == old(w.Keys()) + [k] + y.Keys() && w.Branches() == old(w.Branches()) + y.Branches()
  {
    w.AddItemToRight(k, y.branch[0], -1);
    AppendKeys(w, y);
  }

  /** All keys of y, and the branches to their right, at the end of w. */
  method AppendKeys(w: BTNode, y: BTNode)
    requires w.Arrays() && y.Arrays() && w.Own() !! y.Own() && w.count + y.count <= MAX_KEYS
    modifies w`count, w.key, w.branch
    ensures w.Arrays()
    ensures w.Keys() == old(w.Keys()) + y.Keys() && w.Branches() == old(w.Branches()) + y.Branches()[1..]
  {
    ghost var K, B := w.Keys(), w.Branches();
    var i := 0;
    while i < y.count
      invariant i <= y.count && w.Arrays() && w.count == |K| + i
      invariant unchanged(y) && unchanged(y.key) && unchanged(y.branch)
      invariant w.Keys() == K + y.Keys()[..i] && w.Branches() == B + y.Branches()[1..i + 1]
    {
      AppendStep(w, y, i, K, B);
      i := i + 1;
    }
    assert y.Keys()[..i] == y.Keys() && y.Branches()[1..i + 1] == y.Branches()[1..];
  }

  method AppendStep(w: BTNode, y: BTNode, i: nat, ghost K: seq<Item>, ghost B: seq<BTNode?>)
    requires w.Arrays() && y.Arrays() && w.Own() !! y.Own() && i < y.count && w.count < MAX_KEYS
    requires w.Keys() == K + y.Keys()[..i] && w.Branches() == B + y.Branches()[1..i + 1]
    modifies w`count, w.key, w.branch
    ensures w.Arrays() && w.count == old(w.count) + 1
    ensures w.Keys() == K + y.Keys()[..i + 1] && w.Branches() == B + y.Branches()[1..i + 2]
  {
    AppendSeq(w.Keys(), y.key[i]);
    AppendSeq(w.Branches(), y.branch[i + 1]);
    w.AddItemToRight(y.key[i], y.branch[i + 1], -1);
    assert y.Keys()[..i + 1] == y.Keys()[..i] + [y.key[i]];
    assert y.Branches()[1..i + 2] == y.Branches()[1..i + 1] + [y.branch[i + 1]];
  }

  lemma InsertBetween<T>(a: seq<T>, b: seq<T>, x: T)
    ensures (a + b)[..|a|] + [x] + (a + b)[|a|..] == a + [x] + b
  {
    assert (a + b)[..|a|] == a && (a + b)[|a|..] == b;
  }

  method PrependStep(n: BTNode, y: BTNode, i: nat, ghost K: seq<Item>, ghost B: seq<BTNode?>)
    requires n.Arrays() && y.Arrays() && n.Own() !! y.Own() && i < y.count && n.count < MAX_KEYS
    requires n.Keys() == y.Keys()[..i] + K && n.Branches() == y.Branches()[..i] + B
    modifies n`count, n.key, n.branch
    ensures n.Arrays() && n.count == old(n.count) + 1
    ensures n.Keys() == y.Keys()[..i + 1] + K && n.Branches() == y.Branches()[..i + 1] + B
  {
    InsertBetween(y.Keys()[..i], K, y.key[i]);
    InsertBetween(y.Branches()[..i], B, y.branch[i]);
    n.AddItemToLeft(y.key[i], y.branch[i], i);
    assert y.Keys()[..i + 1] == y.Keys()[..i] + [y.key[i]];
    assert y.Branches()[..i + 1] == y.Branches()[..i] + [y.branch[i]];
  }

  /** All keys of y, and the branches to their left, at the front of n. */
  method PrependKeys(n: BTNode, y: BTNode)
    requires n.Arrays() && y.Arrays() && n.Own() !! y.Own() && n.count + y.count <= MAX_KEYS
    modifies n`count, n.key, n.branch
    ensures n.Arrays()
    ensures n.Keys() == y.Keys() + old(n.Keys()) && n.Branches() == y.Branches()[..y.count] + old(n.Branches())
  {
    ghost var K, B := n.Keys(), n.Branches();
    var i := 0;
    while i < y.count
      invariant i <= y.count && n.Arrays() && n.count == |K| + i
      invariant unchanged(y) && unchanged(y.key) && unchanged(y.branch)
      invariant n.Keys() == y.Keys()[..i] + K && n.Branches() == y.Branches()[..i] + B
    {
      PrependStep(n, y, i, K, B);
      i := i + 1;
    }
    assert y.Keys()[..i] == y.Keys();
  }

  /** n, whose only children are left and right, takes the place of both. */
  method CollapseKeys(n: BTNode, left: BTNode, right: BTNode)
    requires n.Arrays() && left.Arrays() && right.Arrays()
    requires n.Own() !! left.Own() + right.Own() && n.count == 1 && left.count + 1 + right.count <= MAX_KEYS
    modifies n`count, n.key, n.branch
    ensures n.Arrays()
    ensures n.Keys() == left.Keys() + old(n.Keys()) + right.Keys() && n.Branches() == left.Branches() + right.Branches()
  {
    hide BTNode.Keys, BTNode.Branches;
    Counts(n);
    Counts(left);
    Counts(right);
    ghost var keys, L, R := n.Keys(), left.Branches(), right.Branches();
    PrependKeys(n, left);
    Counts(n);
    SetMiddle(n, left, right);
    AppendKeys(n, right);
    CollapsedBranches(L, R);
  }

  lemma Counts(n: BTNode)
    requires n.Arrays()
    ensures |n.Keys()| == n.count && |n.Branches()| == n.count + 1 && n.Branches()[0] == n.branch[0]
  {}

  lemma CollapsedBranches(a: seq<BTNode?>, b: seq<BTNode?>)
    requires b != []
    ensures a + [b[0]] + b[1..] == a + b
  {}

  method SetMiddle(n: BTNode, left: BTNode, right: BTNode)
    requires n.Arrays() && left.Arrays() && right.Arrays() && n.Own() !! left.Own() + right.Own() && n.count == left.count + 1
    requires n.Branches()[..left.count] == left.Branches()[..left.count]
    modifies n.branch
    ensures n.Arrays() && n.Keys() == old(n.Keys()) && n.Branches() == left.Branches() + [right.branch[0]]
  {
    n.branch[left.count] := left.branch[left.count];
    n.branch[left.count + 1] := right.branch[0];
  }

  // ---------- mending a node ----------

  /** Node n without children l and l + 1. */
  lemma SplitOffTwo(n: BTNode, l: nat)
    requires n.Valid() && l < n.count
    ensures var ns, ts, R, x, y := n.Branches(), n.tree.kids, n.Repr - n.Own(), n.branch[l], n.branch[l + 1];
      && |ts| == n.count + 1 && n.tree.keys == n.Keys()
      && KidsValid(ns[..l] + ns[l + 2..], ts[..l] + ts[l + 2..], R - Area(x) - Area(y))
      && Stands(x, ts[l], Area(x)) && Stands(y, ts[l + 1], Area(y)) && Area(x) !! Area(y) && Area(x) + Area(y) <= R
  {
    var ns, ts, R, x, y := n.Branches(), n.tree.kids, n.Repr - n.Own(), n.branch[l], n.branch[l + 1];
    ChildStands(n, l);
    ChildStands(n, l + 1);
    assert Area(ns[l]) !! Area(ns[l + 1]);
    KidsWithout(ns, ts, R, l + 1);
    var ns', ts' := ns[..l + 1] + ns[l + 2..], ts[..l + 1] + ts[l + 2..];
    assert ns'[l] == x;
    KidsWithout(ns', ts', R - Area(y), l);
    assert R - Area(y) - Area(x) == R - Area(x) - Area(y);
    assert ns'[..l] + ns'[l + 1..] == ns[..l] + ns[l + 2..] && ts'[..l] + ts'[l + 1..] == ts[..l] + ts[l + 2..];
  }

  /** Children l and l + 1, whose subtrees may have changed, are n's again. */
  ghost method RefitTwo(n: BTNode, l: nat, ts: seq<Tree<Item>>, R: set<object>)
    requires n.Arrays() && l < n.count && |ts| == n.count + 1 && n.branch[l] != null && n.branch[l + 1] != null
    requires KidsValid(n.Branches()[..l] + n.Branches()[l + 2..], ts[..l] + ts[l + 2..], R)
    requires var x, y := n.branch[l], n.branch[l + 1];
      x.Valid() && y.Valid() && x.Repr !! y.Repr && x.Repr + y.Repr !! R && n.Own() !! R + x.Repr + y.Repr
    modifies n`tree, n`Repr
    ensures n.Valid() && n.tree == Node(n.Keys(), ts[l := n.branch[l].tree][l + 1 := n.branch[l + 1].tree])
    ensures n.Repr == n.Own() + (R + n.branch[l + 1].Repr + n.branch[l].Repr)
  {
    var x, y := n.branch[l], n.branch[l + 1];
    var rest, rts := n.Branches()[..l] + n.Branches()[l + 2..], ts[..l] + ts[l + 2..];
    PairIn(rest, rts, R, l, x, y);
    hide KidsValid, Stands, BTNode.Valid;
    assert rest[..l] + [x, y] + rest[l..] == n.Branches();
    assert rts[..l] + [x.tree, y.tree] + rts[l..] == ts[l := x.tree][l + 1 := y.tree];
    Adopt(n, ts[l := x.tree][l + 1 := y.tree], R + y.Repr + x.Repr);
  }

  method RotateLeftAt(n: BTNode, c: nat)
    requires n.Valid() && c < n.count
    requires n.branch[c] != null && n.branch[c + 1] != null && n.branch[c].count < MAX_KEYS && n.branch[c + 1].count > 0
    modifies n.Repr
    ensures n.Valid() && n.Repr <= old(n.Repr)
    ensures var t := old(n.tree);
      && |t.kids| == |t.keys| + 1 && c < |t.keys| && t.kids[c].Node? && t.kids[c + 1].Node?
      && |t.kids[c + 1].keys| > 0 && |t.kids[c + 1].kids| == |t.kids[c + 1].keys| + 1
      && n.tree == RotateLeft(t.keys, t.kids, c)
  {
    PairFacts(n, c);
    hide KidsValid, Stands, BTNode.Valid, RotateLeft;
    ghost var t, R := n.tree, n.Repr - n.Own() - n.branch[c].Repr - n.branch[c + 1].Repr;
    var x, y := n.branch[c], n.branch[c + 1];
    RotateLeftIs(t, c);
    RotateLeftKeys(n, c, x, y);
    RefitTwo(n, c, t.kids, R);
  }

  /** What the children c and c + 1 of n stand for, and n without them. */
  lemma PairFacts(n: BTNode, c: nat)
    requires n.Valid() && c < n.count && n.branch[c] != null && n.branch[c + 1] != null
    ensures var t, x, y := n.tree, n.branch[c], n.branch[c + 1];
      var R := n.Repr - n.Own() - x.Repr - y.Repr;
      && n.Arrays() && t.Node? && t.keys == n.Keys() && |t.kids| == |t.keys| + 1 && |t.keys| == n.count
      && x.Valid() && y.Valid() && x.tree == t.kids[c] && y.tree == t.kids[c + 1] && x.Repr !! y.Repr && x.Repr + y.Repr !! R
      && n.Own() !! R + x.Repr + y.Repr && n.Repr == n.Own() + R + x.Repr + y.Repr
      && KidsValid(n.Branches()[..c] + n.Branches()[c + 2..], t.kids[..c] + t.kids[c + 2..], R)
      && NodeOf(x) && NodeOf(y)
  {
    SplitOffTwo(n, c);
    NodeIs(n.branch[c]);
    NodeIs(n.branch[c + 1]);
    hide KidsValid, NodeOf;
  }

  lemma NodeIs(x: BTNode)
    requires x.Valid()
    ensures NodeOf(x)
  {}

  ghost predicate NodeOf(x: BTNode)
    reads x
  {
    x.tree.Node? && |x.tree.keys| == x.count && |x.tree.kids| == |x.tree.keys| + 1
  }

  lemma RotateLeftIs(t: Tree<Item>, c: nat)
    requires t.Node? && c < |t.keys| && |t.kids| == |t.keys| + 1 && t.kids[c].Node? && t.kids[c + 1].Node?
    requires |t.kids[c + 1].keys| > 0 && |t.kids[c + 1].kids| > 0
    ensures var x, y := t.kids[c], t.kids[c + 1];
      RotateLeft(t.keys, t.kids, c) ==
        Node(t.keys[c := y.keys[0]], t.kids[c := Node(x.keys + [t.keys[c]], x.kids + [y.kids[0]])][c + 1 := Node(y.keys[1..], y.kids[1..])])
  {}

  method RotateRightAt(n: BTNode, c: nat)
    requires n.Valid() && 0 < c <= n.count
    requires n.branch[c] != null && n.branch[c - 1] != null && n.branch[c].count < MAX_KEYS && n.branch[c - 1].count > 0
    modifies n.Repr
    ensures n.Valid() && n.Repr <= old(n.Repr)
    ensures var t := old(n.tree);
      && |t.kids| == |t.keys| + 1 && 0 < c <= |t.keys| && t.kids[c].Node? && t.kids[c - 1].Node?
      && |t.kids[c - 1].keys| > 0 && |t.kids[c - 1].kids| == |t.kids[c - 1].keys| + 1
      && n.tree == RotateRight(t.keys, t.kids, c)
  {
    PairFacts(n, c - 1);
    hide KidsValid, Stands, BTNode.Valid, RotateRight;
    ghost var t, R := n.tree, n.Repr - n.Own() - n.branch[c - 1].Repr - n.branch[c].Repr;
    var w, x := n.branch[c - 1], n.branch[c];
    RotateRightIs(t, c);
    RotateRightKeys(n, c - 1, w, x);
    RefitTwo(n, c - 1, t.kids, R);
  }

  lemma RotateRightIs(t: Tree<Item>, c: nat)
    requires t.Node? && 0 < c <= |t.keys| && |t.kids| == |t.keys| + 1 && t.kids[c].Node? && t.kids[c - 1].Node?
    requires |t.kids[c - 1].keys| > 0 && |t.kids[c - 1].kids| == |t.kids[c - 1].keys| + 1
    ensures var w, x := t.kids[c - 1], t.kids[c];
      RotateRight(t.keys, t.kids, c) ==
        Node(t.keys[c - 1 := w.keys[|w.keys| - 1]],
          t.kids[c - 1 := Node(w.keys[..|w.keys| - 1], w.kids[..|w.keys|])][c := Node([t.keys[c - 1]] + x.keys, [w.kids[|w.keys|]] + x.kids)])
  {}

  method MergeAt(n: BTNode, l: nat)
    requires n.Valid() && n.count > 1 && l < n.count && n.branch[l] != null && n.branch[l + 1] != null
    requires n.branch[l].count + 1 + n.branch[l + 1].count <= MAX_KEYS
    modifies n.Repr
    ensures n.Valid() && n.Repr <= old(n.Repr)
    ensures |old(n.tree).kids| == |old(n.tree).keys| + 1 && l < |old(n.tree).keys| && old(n.tree).kids[l].Node? && old(n.tree).kids[l + 1].Node?
    ensures n.tree == Merge(old(n.tree).keys, old(n.tree).kids, l)
  {
    PairFacts(n, l);
    hide KidsValid, Stands, BTNode.Valid, Join;
    ghost var t, ns, R := n.tree, n.Branches(), n.Repr - n.Own() - n.branch[l].Repr - n.branch[l + 1].Repr;
    var w, y := n.branch[l], n.branch[l + 1];
    ghost var z := Join(w.tree, t.keys[l], y.tree);
    Absorb(w, n.key[l], y);
    MergedIn(ns[..l] + ns[l + 2..], t.kids[..l] + t.kids[l + 2..], R, l, w);
    n.DeleteItemToRight(l);
    assert n.Branches() == ns[..l] + [w] + ns[l + 2..];
    Adopt(n, t.kids[..l] + [z] + t.kids[l + 2..], R + w.Repr);
  }

  lemma MergedIn(rest: seq<BTNode?>, rts: seq<Tree<Item>>, R: set<object>, l: nat, w: BTNode)
    requires KidsValid(rest, rts, R) && l <= |rest| && w.Valid() && w.Repr !! R
    ensures KidsValid(rest[..l] + [w] + rest[l..], rts[..l] + [w.tree] + rts[l..], R + w.Repr)
  {
    KidsWith(rest, rts, R, l, w);
  }

  /** The root's only two children merged into the root itself. */
  method CollapseAt(n: BTNode)
    requires n.Valid() && n.count == 1 && n.branch[0] != null && n.branch[1] != null
    requires n.branch[0].count + 1 + n.branch[1].count <= MAX_KEYS
    modifies n.Repr
    ensures n.Valid() && n.Repr <= old(n.Repr)
    ensures |old(n.tree).kids| == 2 && |old(n.tree).keys| == 1 && old(n.tree).kids[0].Node? && old(n.tree).kids[1].Node?
    ensures n.tree == Merge(old(n.tree).keys, old(n.tree).kids, 0)
  {
    SplitOffTwo(n, 0);
    var left, right := n.branch[0], n.branch[1];
    ghost var tl, tr, Rl, Rr := left.tree, right.tree, left.Repr - left.Own(), right.Repr - right.Own();
    KidsConcat(left.Branches(), tl.kids, Rl, right.Branches(), tr.kids, Rr);
    CollapseKeys(n, left, right);
    Adopt(n, tl.kids + tr.kids, Rl + Rr);
  }

  lemma ChildCount(n: BTNode, i: nat, h: nat, c: nat)
    requires n.Valid() && Lean(n.tree.keys, n.tree.kids, c, h) && i <= n.count
    ensures |n.tree.kids| == n.count + 1 && n.tree.kids[i].Node?
    ensures n.branch[i] != null && n.branch[i].count == |n.tree.kids[i].keys| && n.branch[i].tree == n.tree.kids[i]
  {
    ChildStands(n, i);
  }

  /** What the sizes of the children beside c say about mending it. */
  lemma MendChoice(n: BTNode, c: nat, h: nat)
    requires n.Valid() && c <= n.count && Lean(n.tree.keys, n.tree.kids, c, h) && |n.tree.kids[c].keys| < MIN_KEYS
    ensures n.branch[c] != null && n.branch[c].count == MIN_KEYS - 1
    ensures c < n.count ==> n.branch[c + 1] != null
    ensures c > 0 ==> n.branch[c - 1] != null
    ensures Mend(n.tree.keys, n.tree.kids, c, h) ==
      if c < n.count && n.branch[c + 1].count > MIN_KEYS then RotateLeft(n.tree.keys, n.tree.kids, c)
      else if c > 0 && n.branch[c - 1].count > MIN_KEYS then RotateRight(n.tree.keys, n.tree.kids, c)
      else Merge(n.tree.keys, n.tree.kids, if c == 0 then 0 else c - 1)
  {
    ChildCount(n, c, h, c);
    if c < n.count { ChildCount(n, c + 1, h, c); }
    if c > 0 { ChildCount(n, c - 1, h, c); }
  }

  /** Brings child number location + 1 back to MIN_KEYS keys. */
  method MendAt(n: BTNode, location: int, ghost h: nat)
    requires -1 <= location < n.count && n.Valid() && Lean(n.tree.keys, n.tree.kids, location + 1, h)
    requires |n.tree.kids[location + 1].keys| < MIN_KEYS
    modifies n.Repr
    ensures n.Valid() && n.Repr <= old(n.Repr)
    ensures n.tree == Mend(old(n.tree).keys, old(n.tree).kids, location + 1, h)
  {
    MendChoice(n, location + 1, h);
    hide Mend, Lean, RotateLeft, RotateRight, Merge, KidsValid, Stands, BTNode.Valid;
    if location < n.count - 1 && n.branch[location + 2].count > MIN_KEYS {
      RotateLeftAt(n, location + 1);
    } else if location >= 0 && n.branch[location].count > MIN_KEYS {
      RotateRightAt(n, location + 1);
    } else if n.count > 1 {
      MergeAt(n, if location < 0 then 0 else location);
    } else {
      CollapseAt(n);
    }
  }

  // ---------- deletion ----------

  /** A node over Nil children is a leaf, and only such a node. */
  lemma LeafBranch(n: BTNode, c: nat, h: nat)
    requires n.Valid() && h > 0 && Shape(n.tree, h) && c <= n.count
    ensures n.branch[c] == null <==> h == 1
    ensures h > 1 ==> Shape(TreeOf(n.branch[c]), h - 1) && Full(TreeOf(n.branch[c]))
  {
    ChildStands(n, c);
    assert Shape(n.tree.kids[c], h - 1);
  }

  /** What Delete makes of a subtree, looking for f's target or for the first item. */
  ghost function Deleted(t: Tree<Item>, h: nat, f: Item -> int, first: bool): Removed<Item>
    requires Shape(t, h) && h > 0 && |t.keys| > 0 && (first ==> Full(t))
  {
    if first then var d := TakeFirst(t, h); Removed(d.tree, Some(d.item)) else Remove(t, h, f)
  }

  /** Deletes f's target below n, or with nextItemSearch the first item there. Tells whether n is
      left with fewer than MIN_KEYS keys, and which item was deleted. */
  method Delete(n: BTNode, f: Item -> int, nextItemSearch: bool, ghost h: nat) returns (reorder: bool, itemFound: Option<Item>)
    requires n.Valid() && Shape(n.tree, h) && h > 0 && n.count > 0
    requires if nextItemSearch then Full(n.tree) else Strict(f, Items(n.tree))
    modifies n.Repr
    ensures n.Valid() && n.Repr <= old(n.Repr) && reorder == (n.count < MIN_KEYS)
    ensures Removed(n.tree, itemFound) == Deleted(old(n.tree), h, f, nextItemSearch)
    decreases h, 1
  {
    var found, location;
    if nextItemSearch {
      found := n.branch[0] == null;
      location := if found then 0 else -1;
      LeafBranch(n, 0, h);
    } else {
      StrictKeys(f, n.tree.keys, n.tree.kids);
      found, location := n.SearchNode(f);
      SearchIsRank(f, n.Keys(), found, location);
    }
    LeafBranch(n, location + 1, h);
    if found {
      itemFound := Some(n.key[location]);
      if n.branch[location + 1] != null {
        DeleteInner(n, location, f, h);
      } else {
        RemoveAtLeaf(n, location);
      }
    } else if n.branch[location + 1] != null {
      itemFound := DeleteBelow(n, location, f, nextItemSearch, h);
    } else {
      itemFound := None;
    }
    reorder := n.count < MIN_KEYS;
  }

  /** Key location of a leaf goes. */
  method RemoveAtLeaf(n: BTNode, location: nat)
    requires n.Valid() && location < n.count
    modifies n.Repr
    ensures n.Valid() && n.Repr <= old(n.Repr) && |old(n.tree).kids| == |old(n.tree).keys| + 1 && location < |old(n.tree).keys|
    ensures var t := old(n.tree);
      n.tree == Node(t.keys[..location] + t.keys[location + 1..], t.kids[..location + 1] + t.kids[location + 2..])
  {
    ghost var t, ns, R := n.tree, n.Branches(), n.Repr - n.Own();
    KidsWithout(ns, t.kids, R, location + 1);
    ghost var R' := R - Area(ns[location + 1]);
    n.DeleteItemToRight(location);
    Adopt(n, t.kids[..location + 1] + t.kids[location + 2..], R');
  }

  /** Key location of an inner node gives way to its successor. */
  method DeleteInner(n: BTNode, location: nat, f: Item -> int, ghost h: nat)
    requires n.Valid() && h > 1 && Shape(n.tree, h) && Strict(f, Items(n.tree))
    requires HasEqual(f, n.tree.keys) && Rank(f, n.tree.keys) == location
    modifies n.Repr
    ensures n.Valid() && n.Repr <= old(n.Repr)
    ensures n.tree == Remove(old(n.tree), h, f).tree
    decreases h, 0
  {
    ghost var t, p := n.tree, location + 1;
    OpenAt(n, p, h);
    LeafBranch(n, p, h);
    var k := n.branch[location + 1];
    ghost var R, d := n.Repr - n.Own() - k.Repr, TakeFirst(t.kids[p], h - 1);
    var reorder, next := Delete(k, f, true, h - 1);
    n.key[location] := next.value;
    assert Lean(t.keys[location := d.item], t.kids[p := d.tree], p, h) by { KidsFacts(t, h); }
    FinishChild(n, location, t.kids, R, reorder, h);
  }

  method DeleteBelow(n: BTNode, location: int, f: Item -> int, nextItemSearch: bool, ghost h: nat) returns (itemFound: Option<Item>)
    requires n.Valid() && h > 1 && Shape(n.tree, h) && 0 <= location + 1 <= n.count && n.count > 0
    requires if nextItemSearch then Full(n.tree) && location == -1
      else Strict(f, Items(n.tree)) && !HasEqual(f, n.tree.keys) && Rank(f, n.tree.keys) == location + 1
    modifies n.Repr
    ensures n.Valid() && n.Repr <= old(n.Repr)
    ensures Removed(n.tree, itemFound) == Deleted(old(n.tree), h, f, nextItemSearch)
    decreases h, 0
  {
    hide Opened, KidsValid, Deleted, Items, Strict, HasEqual, Mend;
    ghost var t, p, ts := n.tree, location + 1, n.tree.kids;
    OpenAt(n, p, h);
    if !nextItemSearch { StrictKid(t, p, f); }
    KidsFacts(t, h);
    DeletedBelow(t, p, h, f, nextItemSearch);
    var k := n.branch[location + 1];
    ghost var R, d := n.Repr - n.Own() - k.Repr, Deleted(k.tree, h - 1, f, nextItemSearch);
    var reorder;
    reorder, itemFound := Delete(k, f, nextItemSearch, h - 1);
    FinishChild(n, location, ts, R, reorder, h);
  }

  lemma DeletedBelow(t: Tree<Item>, p: nat, h: nat, f: Item -> int, first: bool)
    requires h > 1 && Shape(t, h) && p <= |t.keys| && |t.keys| > 0
    requires if first then Full(t) && p == 0 else !HasEqual(f, t.keys) && Rank(f, t.keys) == p
    requires Shape(t.kids[p], h - 1) && Full(t.kids[p]) && |t.kids[p].keys| > 0
    ensures var d := Deleted(t.kids[p], h - 1, f, first);
      Lean(t.keys, t.kids[p := d.tree], p, h) && Deleted(t, h, f, first) == Removed(Mend(t.keys, t.kids[p := d.tree], p, h), d.item)
  {
    KidsFacts(t, h);
  }

  lemma StrictKid(t: Tree<Item>, p: nat, f: Item -> int)
    requires t.Node? && |t.kids| == |t.keys| + 1 && Strict(f, Items(t))
    requires !HasEqual(f, t.keys) && Rank(f, t.keys) == p
    ensures Strict(f, Items(t.kids[p]))
  {
    RankSplits(f, t.keys);
    ChildSplits(f, t.keys, t.kids, p, Before(t.keys[..p], t.kids[..p]), After(t.keys[p..], t.kids[p + 1..]));
  }

  lemma OpenAt(n: BTNode, p: nat, h: nat)
    requires n.Valid() && h > 1 && Shape(n.tree, h) && p <= n.count
    ensures n.tree.Node? && |n.tree.kids| == n.count + 1 && n.tree.keys == n.Keys()
    ensures var k, ts := n.branch[p], n.tree.kids;
      && k != null && k.Valid() && k.tree == ts[p] && k.Repr <= n.Repr && k.Repr !! n.Own()
      && Opened(n, p, ts, n.Repr - n.Own() - k.Repr)
      && Shape(k.tree, h - 1) && Full(k.tree) && k.count > 0
  {
    SplitOff(n, p);
    ChildStands(n, p);
    LeafBranch(n, p, h);
  }

  /** Child location + 1, which may have lost a key, back in its place and mended. */
  method FinishChild(n: BTNode, location: int, ghost ts: seq<Tree<Item>>, ghost R: set<object>, reorder: bool, ghost h: nat)
    requires -1 <= location < n.count && Opened(n, location + 1, ts, R) && n.branch[location + 1] != null
    requires var k := n.branch[location + 1];
      && k.Valid() && k.Repr !! R + n.Own() && reorder == (k.count < MIN_KEYS)
      && Lean(n.Keys(), ts[location + 1 := k.tree], location + 1, h)
    modifies n, n.key, n.branch, R, n.branch[location + 1].Repr
    ensures n.Valid() && n.Repr <= old(n.Own() + R + n.branch[location + 1].Repr)
    ensures n.tree == Mend(old(n.Keys()), ts[location + 1 := old(n.branch[location + 1].tree)], location + 1, h)
  {
    ghost var p, k := location + 1, n.branch[location + 1];
    ghost var rts := ts[..p] + ts[p + 1..];
    Refit(n, p, rts, R);
    assert rts[..p] + [k.tree] + rts[p..] == ts[p := k.tree];
    if reorder {
      MendAt(n, location, h);
    }
  }
}
