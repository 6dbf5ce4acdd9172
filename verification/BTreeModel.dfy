/** The B-tree as a mathematical value: the trees that `BTNode` objects stand for, what
    insertion and deletion do to them, and what those operations preserve.

    Nothing here refers to the heap. The class in BTreeNode.dfy is proved to compute exactly
    these functions in place; order, balance, occupancy and contents are proved here. */
module BTreeModel {
  import opened Wrappers

  const MIN_KEYS: nat := 5
  const MAX_KEYS: nat := 2 * MIN_KEYS + 1

  datatype Tree<T> = Nil | Node(keys: seq<T>, kids: seq<Tree<T>>)

  // ---------- contents ----------

  /** The items of a tree, in order. */
  function Items<T>(t: Tree<T>): seq<T>
    decreases t
  {
    match t
    case Nil => []
    case Node(keys, kids) => if kids == [] then [] else Items(kids[0]) + After(keys, kids[1..])
  }

  /** key, child, key, child, ... */
  function After<T>(keys: seq<T>, kids: seq<Tree<T>>): seq<T>
    decreases kids
  {
    if keys == [] || kids == [] then [] else [keys[0]] + Items(kids[0]) + After(keys[1..], kids[1..])
  }

  /** child, key, child, key, ... */
  function Before<T>(keys: seq<T>, kids: seq<Tree<T>>): seq<T>
    decreases kids
  {
    if keys == [] || kids == [] then [] else Items(kids[0]) + [keys[0]] + Before(keys[1..], kids[1..])
  }

  lemma {:induction false} AfterConcat<T>(k1: seq<T>, c1: seq<Tree<T>>, k2: seq<T>, c2: seq<Tree<T>>)
    requires |k1| == |c1|
    ensures After(k1 + k2, c1 + c2) == After(k1, c1) + After(k2, c2)
    decreases |k1|
  {
    if k1 == [] {
      assert k1 + k2 == k2 && c1 + c2 == c2;
    } else {
      assert (k1 + k2)[1..] == k1[1..] + k2 && (c1 + c2)[1..] == c1[1..] + c2;
      AfterConcat(k1[1..], c1[1..], k2, c2);
    }
  }

  /** The items of a node around its child x. */
  lemma {:induction false} ItemsAround<T>(k1: seq<T>, c1: seq<Tree<T>>, x: Tree<T>, k2: seq<T>, c2: seq<Tree<T>>)
    requires |k1| == |c1|
    ensures Items(Node(k1 + k2, c1 + [x] + c2)) == Before(k1, c1) + Items(x) + After(k2, c2)
    decreases |k1|
  {
    var kids := c1 + [x] + c2;
    if k1 == [] {
      assert k1 + k2 == k2 && kids[0] == x && kids[1..] == c2;
    } else {
      assert kids[1..] == c1[1..] + ([x] + c2);
      AfterConcat(k1, c1[1..] + [x], k2, c2);
      assert kids[1..] == (c1[1..] + [x]) + c2;
      BeforeAfter(k1, c1, x);
    }
  }

  lemma {:induction false} BeforeAfter<T>(k1: seq<T>, c1: seq<Tree<T>>, x: Tree<T>)
    requires |k1| == |c1| > 0
    ensures Items(c1[0]) + After(k1, c1[1..] + [x]) == Before(k1, c1) + Items(x)
    decreases |k1|
  {
    var d := c1[1..] + [x];
    if |k1| == 1 {
      assert d == [x] && k1[1..] == [] && c1[1..] == [];
    } else {
      assert d[0] == c1[1] && d[1..] == c1[1..][1..] + [x];
      BeforeAfter(k1[1..], c1[1..], x);
      assert After(k1, d) == [k1[0]] + (Items(c1[1]) + After(k1[1..], d[1..]));
    }
  }

  /** One node made of two nodes and a key between them. */
  function Join<T>(x: Tree<T>, k: T, y: Tree<T>): Tree<T>
    requires x.Node? && y.Node?
  {
    Node(x.keys + [k] + y.keys, x.kids + y.kids)
  }

  lemma {:induction false} JoinItems<T>(x: Tree<T>, k: T, y: Tree<T>)
    requires x.Node? && |x.kids| == |x.keys| + 1
    requires y.Node? && |y.kids| == |y.keys| + 1
    ensures Items(Join(x, k, y)) == Items(x) + [k] + Items(y)
  {
    var n := |x.keys|;
    var last, first := x.kids[n], y.kids[0];
    assert x.kids + y.kids == x.kids[..n] + [last] + y.kids;
    assert x.keys + [k] + y.keys == x.keys + ([k] + y.keys);
    ItemsAround(x.keys, x.kids[..n], last, [k] + y.keys, y.kids);
    assert x.keys + [] == x.keys && x.kids[..n] + [last] + [] == x.kids;
    ItemsAround(x.keys, x.kids[..n], last, [], []);
    assert ([k] + y.keys)[1..] == y.keys;
  }

  /** Two neighbouring children and the key between them contribute their join. */
  lemma {:induction false} PairItems<T>(k1: seq<T>, c1: seq<Tree<T>>, x: Tree<T>, k: T, y: Tree<T>, k2: seq<T>, c2: seq<Tree<T>>)
    requires |k1| == |c1|
    ensures Items(Node(k1 + [k] + k2, c1 + [x, y] + c2))
         == Before(k1, c1) + (Items(x) + [k] + Items(y)) + After(k2, c2)
  {
    assert k1 + [k] + k2 == k1 + ([k] + k2) && c1 + [x, y] + c2 == c1 + [x] + ([y] + c2);
    ItemsAround(k1, c1, x, [k] + k2, [y] + c2);
    assert ([k] + k2)[1..] == k2 && ([y] + c2)[1..] == c2;
  }

  // ---------- shape: balance and occupancy ----------

  function Size<T>(t: Tree<T>): nat {
    if t.Nil? then 0 else |t.keys|
  }

  /** A node other than the root holds at least MIN_KEYS keys. */
  predicate Full<T>(t: Tree<T>) {
    t.Node? ==> |t.keys| >= MIN_KEYS
  }

  /** All leaves h levels down; no node over MAX_KEYS keys; no node below the top under MIN_KEYS. */
  ghost predicate Shape<T>(t: Tree<T>, h: nat)
    decreases h
  {
    if h == 0 then t.Nil?
    else
      && t.Node?
      && |t.keys| <= MAX_KEYS
      && |t.kids| == |t.keys| + 1
      && forall i :: 0 <= i < |t.kids| ==> Shape(t.kids[i], h - 1) && Full(t.kids[i])
  }

  // ---------- searching ----------

  /* A comparison function with its target fixed: positive on an item when the target lies beyond
     it, zero when equal, negative when the target lies before it. */

  /** The order of s agrees with f. */
  ghost predicate Mono<T>(f: T -> int, s: seq<T>) {
    forall i, j :: 0 <= i < j < |s| ==> (f(s[i]) <= 0 ==> f(s[j]) <= 0) && (f(s[i]) < 0 ==> f(s[j]) < 0)
  }

  /** The order of s agrees with f, and at most one item equals the target. */
  ghost predicate Strict<T>(f: T -> int, s: seq<T>) {
    forall i, j :: 0 <= i < j < |s| && f(s[i]) <= 0 ==> f(s[j]) < 0
  }

  ghost predicate AllBefore<T>(f: T -> int, s: seq<T>) {
    forall i :: 0 <= i < |s| ==> f(s[i]) > 0
  }

  ghost predicate AllBeyond<T>(f: T -> int, s: seq<T>) {
    forall i :: 0 <= i < |s| ==> f(s[i]) < 0
  }

  /** How many leading items the target lies beyond. */
  function Rank<T>(f: T -> int, s: seq<T>): (p: nat)
    ensures p <= |s|
  {
    if s == [] || f(s[0]) <= 0 then 0 else 1 + Rank(f, s[1..])
  }

  lemma {:induction false} RankSplits<T>(f: T -> int, s: seq<T>)
    ensures var p := Rank(f, s); (forall i :: 0 <= i < p ==> f(s[i]) > 0) && (p < |s| ==> f(s[p]) <= 0)
    decreases |s|
  {
    if s != [] && f(s[0]) > 0 { RankSplits(f, s[1..]); }
  }

  predicate HasEqual<T>(f: T -> int, s: seq<T>) {
    Rank(f, s) < |s| && f(s[Rank(f, s)]) == 0
  }

  /** What inserting x does to a sorted sequence, f comparing with x. */
  function SeqInsert<T>(s: seq<T>, f: T -> int, x: T): seq<T> {
    var p := Rank(f, s);
    if HasEqual(f, s) then s else s[..p] + [x] + s[p..]
  }

  /** What deleting the item equal to f's target does to a sorted sequence. */
  function SeqRemove<T>(s: seq<T>, f: T -> int): seq<T> {
    var p := Rank(f, s);
    if HasEqual(f, s) then s[..p] + s[p + 1..] else s
  }

  function SeqFind<T>(s: seq<T>, f: T -> int): Option<T> {
    if HasEqual(f, s) then Some(s[Rank(f, s)]) else None
  }

  lemma RankFrame<T>(f: T -> int, a: seq<T>, b: seq<T>, c: seq<T>)
    requires AllBefore(f, a) && AllBeyond(f, c)
    ensures Rank(f, a + b + c) == |a| + Rank(f, b)
    ensures HasEqual(f, a + b + c) <==> HasEqual(f, b)
    ensures SeqFind(a + b + c, f) == SeqFind(b, f)
  {
    var s, p := a + b + c, |a| + Rank(f, b);
    RankSplits(f, b);
    assert forall i :: 0 <= i < p ==> f(s[i]) > 0;
    assert p < |s| ==> f(s[p]) <= 0;
    RankIs(f, s, p);
  }

  lemma RankIs<T>(f: T -> int, s: seq<T>, p: nat)
    requires p <= |s|
    requires forall i :: 0 <= i < p ==> f(s[i]) > 0
    requires p < |s| ==> f(s[p]) <= 0
    ensures Rank(f, s) == p
  {
    RankSplits(f, s);
    var q := Rank(f, s);
    if q != p { assert false; }
  }

  lemma InsertFrame<T>(f: T -> int, x: T, a: seq<T>, b: seq<T>, c: seq<T>)
    requires AllBefore(f, a) && AllBeyond(f, c)
    ensures SeqInsert(a + b + c, f, x) == a + SeqInsert(b, f, x) + c
  {
    RankFrame(f, a, b, c);
    Surgery(a, b, c, Rank(f, b), x);
  }

  lemma RemoveFrame<T>(f: T -> int, a: seq<T>, b: seq<T>, c: seq<T>)
    requires AllBefore(f, a) && AllBeyond(f, c)
    ensures SeqRemove(a + b + c, f) == a + SeqRemove(b, f) + c
  {
    hide Rank, AllBefore, AllBeyond;
    RankFrame(f, a, b, c);
    if HasEqual(f, b) { CutOne(a, b, c, Rank(f, b)); }
  }

  lemma CutOne<T>(a: seq<T>, b: seq<T>, c: seq<T>, p: nat)
    requires p < |b|
    ensures (a + b + c)[..|a| + p] + (a + b + c)[|a| + p + 1..] == a + (b[..p] + b[p + 1..]) + c
  {
    assert (a + b + c)[..|a| + p] == a + b[..p];
    assert (a + b + c)[|a| + p + 1..] == b[p + 1..] + c;
  }

  lemma Surgery<T>(a: seq<T>, b: seq<T>, c: seq<T>, p: nat, x: T)
    requires p <= |b|
    ensures (a + b + c)[..|a| + p] + [x] + (a + b + c)[|a| + p..] == a + (b[..p] + [x] + b[p..]) + c
  {
    assert (a + b + c)[..|a| + p] == a + b[..p];
    assert (a + b + c)[|a| + p..] == b[p..] + c;
  }

  /* Where the keys of a node send the search, and what that says about the rest of the tree. */

  lemma KeyAround<T>(keys: seq<T>, kids: seq<Tree<T>>, p: nat)
    requires |kids| == |keys| + 1 && p < |keys|
    ensures Items(Node(keys, kids))
         == Before(keys[..p], kids[..p]) + (Items(kids[p]) + [keys[p]] + Items(kids[p + 1])) + After(keys[p + 1..], kids[p + 2..])
  {
    assert keys == keys[..p] + [keys[p]] + keys[p + 1..];
    assert kids == kids[..p] + [kids[p], kids[p + 1]] + kids[p + 2..];
    PairItems(keys[..p], kids[..p], kids[p], keys[p], kids[p + 1], keys[p + 1..], kids[p + 2..]);
  }

  lemma ChildAround<T>(keys: seq<T>, kids: seq<Tree<T>>, p: nat)
    requires |kids| == |keys| + 1 && p <= |keys|
    ensures Items(Node(keys, kids)) == Before(keys[..p], kids[..p]) + Items(kids[p]) + After(keys[p..], kids[p + 1..])
  {
    assert keys == keys[..p] + keys[p..] && kids == kids[..p] + [kids[p]] + kids[p + 1..];
    ItemsAround(keys[..p], kids[..p], kids[p], keys[p..], kids[p + 1..]);
  }

  /** The search meets the target at key p. */
  lemma FoundSplits<T>(f: T -> int, keys: seq<T>, kids: seq<Tree<T>>, p: nat, a: seq<T>, c: seq<T>)
    requires |kids| == |keys| + 1 && p < |keys| && f(keys[p]) == 0
    requires Strict(f, Items(Node(keys, kids)))
    requires a == Before(keys[..p], kids[..p]) + Items(kids[p])
    requires c == Items(kids[p + 1]) + After(keys[p + 1..], kids[p + 2..])
    ensures Items(Node(keys, kids)) == a + [keys[p]] + c
    ensures AllBefore(f, a) && AllBeyond(f, c)
  {
    KeyAround(keys, kids, p);
    var x, y, l, r := Before(keys[..p], kids[..p]), After(keys[p + 1..], kids[p + 2..]), Items(kids[p]), Items(kids[p + 1]);
    assert x + (l + [keys[p]] + r) + y == (x + l) + [keys[p]] + (r + y);
    StrictAt(f, a, keys[p], c);
  }

  /** The search goes on in child p. */
  lemma ChildSplits<T>(f: T -> int, keys: seq<T>, kids: seq<Tree<T>>, p: nat, a: seq<T>, c: seq<T>)
    requires |kids| == |keys| + 1 && p <= |keys|
    requires p > 0 ==> f(keys[p - 1]) > 0
    requires p < |keys| ==> f(keys[p]) < 0
    requires Strict(f, Items(Node(keys, kids)))
    requires a == Before(keys[..p], kids[..p]) && c == After(keys[p..], kids[p + 1..])
    ensures Items(Node(keys, kids)) == a + Items(kids[p]) + c
    ensures AllBefore(f, a) && AllBeyond(f, c) && Strict(f, Items(kids[p]))
  {
    ChildAround(keys, kids, p);
    if p > 0 { BeforeEnds(keys[..p], kids[..p]); }
    StrictParts(f, a, Items(kids[p]), c);
  }

  lemma StrictAt<T>(f: T -> int, a: seq<T>, k: T, c: seq<T>)
    requires Strict(f, a + [k] + c)
    ensures f(k) <= 0 ==> AllBeyond(f, c)
    ensures f(k) >= 0 ==> AllBefore(f, a)
  {
    var s := a + [k] + c;
    assert s[|a|] == k;
    assert forall i :: 0 <= i < |a| ==> s[i] == a[i];
    assert forall i :: 0 <= i < |c| ==> s[|a| + 1 + i] == c[i];
  }

  lemma StrictParts<T>(f: T -> int, a: seq<T>, b: seq<T>, c: seq<T>)
    requires Strict(f, a + b + c)
    ensures a == [] || f(a[|a| - 1]) > 0 ==> AllBefore(f, a)
    ensures Strict(f, b)
    ensures c == [] || f(c[0]) < 0 ==> AllBeyond(f, c)
  {
    var s := a + b + c;
    assert forall i :: 0 <= i < |a| ==> s[i] == a[i];
    assert forall i :: 0 <= i < |b| ==> s[|a| + i] == b[i];
    assert forall i :: 0 <= i < |c| ==> s[|a| + |b| + i] == c[i];
  }

  lemma {:induction false} BeforeEnds<T>(keys: seq<T>, kids: seq<Tree<T>>)
    requires |keys| == |kids| > 0
    ensures Before(keys, kids) != [] && Before(keys, kids)[|Before(keys, kids)| - 1] == keys[|keys| - 1]
    decreases |keys|
  {
    if |keys| > 1 { BeforeEnds(keys[1..], kids[1..]); }
  }

  lemma {:induction false} AfterHasKeys<T>(keys: seq<T>, kids: seq<Tree<T>>, j: nat)
    requires |kids| == |keys| && j < |keys|
    ensures keys[j] in After(keys, kids)
    decreases |keys|
  {
    if j > 0 { AfterHasKeys(keys[1..], kids[1..], j - 1); }
  }

  lemma StrictKeys<T>(f: T -> int, keys: seq<T>, kids: seq<Tree<T>>)
    requires |kids| == |keys| + 1 && Strict(f, Items(Node(keys, kids)))
    ensures Strict(f, keys)
  {
    forall p, q | 0 <= p < q < |keys| && f(keys[p]) <= 0 ensures f(keys[q]) < 0 {
      StrictKeyPair(f, keys, kids, p, q);
    }
  }

  lemma StrictKeyPair<T>(f: T -> int, keys: seq<T>, kids: seq<Tree<T>>, p: nat, q: nat)
    requires |kids| == |keys| + 1 && Strict(f, Items(Node(keys, kids)))
    requires p < q < |keys| && f(keys[p]) <= 0
    ensures f(keys[q]) < 0
  {
    var x, y, l, r := Before(keys[..p], kids[..p]), After(keys[p + 1..], kids[p + 2..]), Items(kids[p]), Items(kids[p + 1]);
    KeyAround(keys, kids, p);
    AfterHasKeys(keys[p + 1..], kids[p + 2..], q - p - 1);
    hide Items, Before, After, Strict;
    assert x + (l + [keys[p]] + r) + y == (x + l) + [keys[p]] + (r + y);
    StrictAt(f, x + l, keys[p], r + y);
    assert keys[q] in r + y;
  }

  /** A strict search has only one possible outcome. */
  lemma SearchIsRank<T>(f: T -> int, keys: seq<T>, found: bool, location: int)
    requires Strict(f, keys) && -1 <= location < |keys|
    requires found ==> location >= 0 && f(keys[location]) == 0
    requires !found ==> AllBefore(f, keys[..location + 1]) && AllBeyond(f, keys[location + 1..])
    ensures found <==> HasEqual(f, keys)
    ensures Rank(f, keys) == if found then location else location + 1
  {
    if found {
      RankIs(f, keys, location);
    } else {
      assert forall i :: 0 <= i < location + 1 ==> keys[..location + 1][i] == keys[i];
      if location + 1 < |keys| { assert keys[location + 1..][0] == keys[location + 1]; }
      RankIs(f, keys, location + 1);
    }
  }

  // ---------- insertion ----------

  /** The result of pushing an item into a tree: the tree took it (or already held an equal one),
      or it split around an item that the parent has to take. */
  datatype Pushed<T> = Stay(tree: Tree<T>, found: bool) | Up(left: Tree<T>, mid: T, right: Tree<T>)

  /** A node with one key and one child too many, cut so that the left part keeps MIN_KEYS keys. */
  function Cut<T>(keys: seq<T>, kids: seq<Tree<T>>): Pushed<T>
    requires |keys| == MAX_KEYS + 1 && |kids| == MAX_KEYS + 2
  {
    Up(Node(keys[..MIN_KEYS], kids[..MIN_KEYS + 1]), keys[MIN_KEYS], Node(keys[MIN_KEYS + 1..], kids[MIN_KEYS + 1..]))
  }

  /** Puts the result of pushing into child p back into the node, splitting a node that overflows. */
  function PutBack<T>(keys: seq<T>, kids: seq<Tree<T>>, p: nat, r: Pushed<T>): Pushed<T>
    requires p <= |keys| <= MAX_KEYS && |kids| == |keys| + 1
  {
    match r
    case Stay(c, found) => Stay(Node(keys, kids[p := c]), found)
    case Up(l, m, r) =>
      var keys', kids' := keys[..p] + [m] + keys[p..], kids[..p] + [l, r] + kids[p + 1..];
      if |keys| < MAX_KEYS then Stay(Node(keys', kids'), false) else Cut(keys', kids')
  }

  lemma PutBackShape<T>(t: Tree<T>, h: nat, p: nat, r: Pushed<T>)
    requires h > 0 && Shape(t, h) && p <= |t.keys|
    requires r.Stay? ==> Shape(r.tree, h - 1) && Full(r.tree)
    requires r.Up? ==> Shape(r.left, h - 1) && Shape(r.right, h - 1) && Full(r.left) && Full(r.right)
    ensures var r' := PutBack(t.keys, t.kids, p, r);
      && (r'.Stay? ==> Shape(r'.tree, h) && Size(r'.tree) >= Size(t))
      && (r'.Up? ==> Shape(r'.left, h) && Shape(r'.right, h))
  {
    if r.Up? {
      var kids' := t.kids[..p] + [r.left, r.right] + t.kids[p + 1..];
      assert forall i :: 0 <= i < |kids'| ==> Shape(kids'[i], h - 1) && Full(kids'[i]);
    }
  }

  function Push<T>(t: Tree<T>, h: nat, f: T -> int, x: T): (r: Pushed<T>)
    requires Shape(t, h)
    ensures r.Stay? ==> Shape(r.tree, h) && Size(r.tree) >= Size(t)
    ensures r.Up? ==> Shape(r.left, h) && Shape(r.right, h)
    ensures r.Up? && h > 0 ==> Size(r.left) == MIN_KEYS && Size(r.right) == MIN_KEYS + 1
    decreases h
  {
    if h == 0 then Up(Nil, x, Nil)
    else if HasEqual(f, t.keys) then Stay(t, true)
    else
      var p := Rank(f, t.keys);
      var r := Push(t.kids[p], h - 1, f, x);
      PutBackShape(t, h, p, r);
      PutBack(t.keys, t.kids, p, r)
  }

  /** The contents a push leaves, whether or not it split the node. */
  function PushedItems<T>(r: Pushed<T>): seq<T> {
    match r
    case Stay(t, _) => Items(t)
    case Up(l, m, r) => Items(l) + [m] + Items(r)
  }

  lemma PutBackItems<T>(keys: seq<T>, kids: seq<Tree<T>>, p: nat, r: Pushed<T>)
    requires p <= |keys| <= MAX_KEYS && |kids| == |keys| + 1
    ensures PushedItems(PutBack(keys, kids, p, r)) == Before(keys[..p], kids[..p]) + PushedItems(r) + After(keys[p..], kids[p + 1..])
  {
    match r
    case Stay(d, _) =>
      var kids' := kids[p := d];
      ChildAround(keys, kids', p);
      assert kids'[..p] == kids[..p] && kids'[p + 1..] == kids[p + 1..];
    case Up(l, m, r) =>
      PairItems(keys[..p], kids[..p], l, m, r, keys[p..], kids[p + 1..]);
      var keys', kids' := keys[..p] + [m] + keys[p..], kids[..p] + [l, r] + kids[p + 1..];
      if |keys| == MAX_KEYS {
        var u := Cut(keys', kids');
        assert Join(u.left, u.mid, u.right) == Node(keys', kids');
        JoinItems(u.left, u.mid, u.right);
      }
  }

  lemma {:induction false} PushItems<T>(t: Tree<T>, h: nat, f: T -> int, x: T)
    requires Shape(t, h) && Strict(f, Items(t))
    ensures PushedItems(Push(t, h, f, x)) == SeqInsert(Items(t), f, x)
    ensures Push(t, h, f, x).Stay? ==> (Push(t, h, f, x).found <==> HasEqual(f, Items(t)))
    ensures Push(t, h, f, x).Up? ==> !HasEqual(f, Items(t))
    decreases h
  {
    if h > 0 {
      var keys, kids, p := t.keys, t.kids, Rank(f, t.keys);
      if HasEqual(f, keys) {
        var a, c := Before(keys[..p], kids[..p]) + Items(kids[p]), Items(kids[p + 1]) + After(keys[p + 1..], kids[p + 2..]);
        FoundSplits(f, keys, kids, p, a, c);
        RankFrame(f, a, [keys[p]], c);
      } else {
        PushChildItems(t, h, f, x);
      }
    }
  }

  lemma {:induction false} PushChildItems<T>(t: Tree<T>, h: nat, f: T -> int, x: T)
    requires h > 0 && Shape(t, h) && Strict(f, Items(t)) && !HasEqual(f, t.keys)
    ensures PushedItems(Push(t, h, f, x)) == SeqInsert(Items(t), f, x)
    ensures Push(t, h, f, x).Stay? ==> (Push(t, h, f, x).found <==> HasEqual(f, Items(t)))
    ensures Push(t, h, f, x).Up? ==> !HasEqual(f, Items(t))
    decreases h, 0
  {
    var keys, kids, p := t.keys, t.kids, Rank(f, t.keys);
    var a, b, c := Before(keys[..p], kids[..p]), Items(kids[p]), After(keys[p..], kids[p + 1..]);
    var r := Push(kids[p], h - 1, f, x);
    RankSplits(f, keys);
    ChildSplits(f, keys, kids, p, a, c);
    PushItems(kids[p], h - 1, f, x);
    PutBackItems(keys, kids, p, r);
    RankFrame(f, a, b, c);
    InsertFrame(f, x, a, b, c);
  }

  function GrownHeight<T>(t: Tree<T>, h: nat, f: T -> int, x: T): nat
    requires Shape(t, h)
  {
    if Push(t, h, f, x).Up? then h + 1 else h
  }

  /** The tree after inserting at the root, growing a level when the root splits. */
  function Insert<T>(t: Tree<T>, h: nat, f: T -> int, x: T): (r: Tree<T>)
    requires Shape(t, h)
    ensures r.Node? && Shape(r, GrownHeight(t, h, f, x))
  {
    Grown(Push(t, h, f, x))
  }

  /** The tree a push from the root leaves. */
  function Grown<T>(r: Pushed<T>): Tree<T> {
    if r.Up? then Node([r.mid], [r.left, r.right]) else r.tree
  }

  lemma InsertItems<T>(t: Tree<T>, h: nat, f: T -> int, x: T)
    requires Shape(t, h) && Strict(f, Items(t))
    ensures Items(Insert(t, h, f, x)) == SeqInsert(Items(t), f, x)
  {
    PushItems(t, h, f, x);
    match Push(t, h, f, x)
    case Stay(_, _) =>
    case Up(l, m, r) => RootItems(l, m, r);
  }

  lemma RootItems<T>(l: Tree<T>, m: T, r: Tree<T>)
    ensures Items(Node([m], [l, r])) == Items(l) + [m] + Items(r)
  {
    assert Before<T>([], []) == [] && After<T>([], []) == [];
    hide *;
    PairItems([], [], l, m, r, [], []);
    assert [] + [m] + [] == [m] && [] + [l, r] + [] == [l, r];
  }

  // ---------- deletion ----------

  /** A node of height h all of whose children but possibly number c are full enough. */
  ghost predicate Lean<T>(keys: seq<T>, kids: seq<Tree<T>>, c: nat, h: nat) {
    && 0 < |keys| <= MAX_KEYS && |kids| == |keys| + 1 && c <= |keys| && h > 1
    && (forall i :: 0 <= i < |kids| ==> Shape(kids[i], h - 1))
    && (forall i :: 0 <= i < |kids| ==> kids[i].Node? && |kids[i].kids| == |kids[i].keys| + 1)
    && (forall i :: 0 <= i < |kids| && i != c ==> Full(kids[i]))
    && |kids[c].keys| >= MIN_KEYS - 1
  }

  lemma KidsFacts<T>(t: Tree<T>, h: nat)
    requires Shape(t, h) && h > 1
    ensures forall i :: 0 <= i < |t.kids| ==> t.kids[i].Node? && |t.kids[i].kids| == |t.kids[i].keys| + 1
  {
    forall i | 0 <= i < |t.kids| ensures t.kids[i].Node? && |t.kids[i].kids| == |t.kids[i].keys| + 1 {
      assert Shape(t.kids[i], h - 1);
    }
  }

  /** Child c takes the key at c, which the first key of child c + 1 replaces. */
  function RotateLeft<T>(keys: seq<T>, kids: seq<Tree<T>>, c: nat): Tree<T>
    requires c < |keys| && |kids| == |keys| + 1 && kids[c].Node? && kids[c + 1].Node?
    requires |kids[c + 1].keys| > 0 && |kids[c + 1].kids| > 0
  {
    var x, y := kids[c], kids[c + 1];
    Node(keys[c := y.keys[0]],
         kids[c := Node(x.keys + [keys[c]], x.kids + [y.kids[0]])][c + 1 := Node(y.keys[1..], y.kids[1..])])
  }

  /** Child c takes the key at c - 1, which the last key of child c - 1 replaces. */
  function RotateRight<T>(keys: seq<T>, kids: seq<Tree<T>>, c: nat): Tree<T>
    requires 0 < c <= |keys| && |kids| == |keys| + 1 && kids[c].Node? && kids[c - 1].Node?
    requires |kids[c - 1].keys| > 0 && |kids[c - 1].kids| == |kids[c - 1].keys| + 1
  {
    var w, x, n := kids[c - 1], kids[c], |kids[c - 1].keys|;
    Node(keys[c - 1 := w.keys[n - 1]],
         kids[c - 1 := Node(w.keys[..n - 1], w.kids[..n])][c := Node([keys[c - 1]] + x.keys, [w.kids[n]] + x.kids)])
  }

  /** Children l and l + 1 become one; when they were the only ones, they become the whole node. */
  function Merge<T>(keys: seq<T>, kids: seq<Tree<T>>, l: nat): Tree<T>
    requires l < |keys| && |kids| == |keys| + 1 && kids[l].Node? && kids[l + 1].Node?
  {
    var z := Join(kids[l], keys[l], kids[l + 1]);
    if |keys| == 1 then z else Node(keys[..l] + keys[l + 1..], kids[..l] + [z] + kids[l + 2..])
  }

  /** The node after one of its children, number c, may have dropped to MIN_KEYS - 1 keys: that
      child takes a key from its right sibling, else from its left one, else the two are merged. */
  function Mend<T>(keys: seq<T>, kids: seq<Tree<T>>, c: nat, h: nat): (r: Tree<T>)
    requires Lean(keys, kids, c, h)
    ensures (Shape(r, h) && |r.keys| >= |keys| - 1) || (|keys| == 1 && Shape(r, h - 1) && |r.keys| >= MIN_KEYS)
  {
    if |kids[c].keys| >= MIN_KEYS then Node(keys, kids)
    else if c < |keys| && |kids[c + 1].keys| > MIN_KEYS then
      RotateLeftShape(keys, kids, c, h);
      RotateLeft(keys, kids, c)
    else if c > 0 && |kids[c - 1].keys| > MIN_KEYS then
      RotateRightShape(keys, kids, c, h);
      RotateRight(keys, kids, c)
    else
      var l := if c == 0 then 0 else c - 1;
      MergeShape(keys, kids, c, l, h);
      Merge(keys, kids, l)
  }

  lemma RotateLeftShape<T>(keys: seq<T>, kids: seq<Tree<T>>, c: nat, h: nat)
    requires Lean(keys, kids, c, h) && |kids[c].keys| < MIN_KEYS && c < |keys| && |kids[c + 1].keys| > MIN_KEYS
    ensures var r := RotateLeft(keys, kids, c); Shape(r, h) && |r.keys| == |keys|
  {
    var r := RotateLeft(keys, kids, c);
    assert Shape(r.kids[c], h - 1) && Full(r.kids[c]);
    assert Shape(r.kids[c + 1], h - 1) && Full(r.kids[c + 1]);
    forall i | 0 <= i < |r.kids| ensures Shape(r.kids[i], h - 1) && Full(r.kids[i]) {}
  }

  lemma RotateRightShape<T>(keys: seq<T>, kids: seq<Tree<T>>, c: nat, h: nat)
    requires Lean(keys, kids, c, h) && |kids[c].keys| < MIN_KEYS && c > 0 && |kids[c - 1].keys| > MIN_KEYS
    ensures var r := RotateRight(keys, kids, c); Shape(r, h) && |r.keys| == |keys|
  {
    var r := RotateRight(keys, kids, c);
    assert Shape(r.kids[c - 1], h - 1) && Full(r.kids[c - 1]);
    assert Shape(r.kids[c], h - 1) && Full(r.kids[c]);
    forall i | 0 <= i < |r.kids| ensures Shape(r.kids[i], h - 1) && Full(r.kids[i]) {}
  }

  /** A merged node fits: MIN_KEYS - 1, one, and at most MIN_KEYS keys. */
  lemma MergeShape<T>(keys: seq<T>, kids: seq<Tree<T>>, c: nat, l: nat, h: nat)
    requires Lean(keys, kids, c, h) && |kids[c].keys| < MIN_KEYS && l == (if c == 0 then 0 else c - 1)
    requires c < |keys| ==> |kids[c + 1].keys| <= MIN_KEYS
    requires c > 0 ==> |kids[c - 1].keys| <= MIN_KEYS
    ensures Shape(Join(kids[l], keys[l], kids[l + 1]), h - 1)
    ensures 2 * MIN_KEYS <= |Join(kids[l], keys[l], kids[l + 1]).keys| <= MAX_KEYS
    ensures |keys| > 1 ==> Shape(Merge(keys, kids, l), h) && |Merge(keys, kids, l).keys| == |keys| - 1
  {
    var z := Join(kids[l], keys[l], kids[l + 1]);
    assert Shape(kids[l], h - 1) && Shape(kids[l + 1], h - 1);
    forall i | 0 <= i < |z.kids| ensures Shape(z.kids[i], h - 2) && Full(z.kids[i]) {
      assert z.kids[i] == if i < |kids[l].kids| then kids[l].kids[i] else kids[l + 1].kids[i - |kids[l].kids|];
    }
  }

  lemma RotateLeftItems<T>(keys: seq<T>, kids: seq<Tree<T>>, c: nat)
    requires c < |keys| && |kids| == |keys| + 1 && kids[c].Node? && kids[c + 1].Node?
    requires |kids[c].kids| == |kids[c].keys| + 1
    requires |kids[c + 1].keys| > 0 && |kids[c + 1].kids| == |kids[c + 1].keys| + 1
    ensures Items(RotateLeft(keys, kids, c)) == Items(Node(keys, kids))
  {
    var r := RotateLeft(keys, kids, c);
    SamePair(keys, kids, r.keys, r.kids, c);
  }

  lemma RotateRightItems<T>(keys: seq<T>, kids: seq<Tree<T>>, c: nat)
    requires 0 < c <= |keys| && |kids| == |keys| + 1 && kids[c].Node? && kids[c - 1].Node?
    requires |kids[c].kids| == |kids[c].keys| + 1
    requires |kids[c - 1].keys| > 0 && |kids[c - 1].kids| == |kids[c - 1].keys| + 1
    ensures Items(RotateRight(keys, kids, c)) == Items(Node(keys, kids))
  {
    var r := RotateRight(keys, kids, c);
    var w, n := kids[c - 1], |kids[c - 1].keys|;
    assert w.keys == w.keys[..n - 1] + [w.keys[n - 1]] && w.kids == w.kids[..n] + [w.kids[n]];
    SamePair(keys, kids, r.keys, r.kids, c - 1);
  }

  /** Two nodes that differ only at key l and the children beside it, and agree on their join. */
  lemma SamePair<T>(keys: seq<T>, kids: seq<Tree<T>>, keys': seq<T>, kids': seq<Tree<T>>, l: nat)
    requires |keys| == |keys'| && |kids| == |kids'| == |keys| + 1 && l < |keys|
    requires keys[..l] == keys'[..l] && keys[l + 1..] == keys'[l + 1..]
    requires kids[..l] == kids'[..l] && kids[l + 2..] == kids'[l + 2..]
    requires kids[l].Node? && kids[l + 1].Node? && kids'[l].Node? && kids'[l + 1].Node?
    requires |kids[l].kids| == |kids[l].keys| + 1 && |kids[l + 1].kids| == |kids[l + 1].keys| + 1
    requires |kids'[l].kids| == |kids'[l].keys| + 1 && |kids'[l + 1].kids| == |kids'[l + 1].keys| + 1
    requires Join(kids[l], keys[l], kids[l + 1]) == Join(kids'[l], keys'[l], kids'[l + 1])
    ensures Items(Node(keys, kids)) == Items(Node(keys', kids'))
  {
    KeyAround(keys, kids, l);
    KeyAround(keys', kids', l);
    JoinItems(kids[l], keys[l], kids[l + 1]);
    JoinItems(kids'[l], keys'[l], kids'[l + 1]);
  }

  lemma MergeItems<T>(keys: seq<T>, kids: seq<Tree<T>>, l: nat)
    requires l < |keys| && |kids| == |keys| + 1 && kids[l].Node? && kids[l + 1].Node?
    requires |kids[l].kids| == |kids[l].keys| + 1 && |kids[l + 1].kids| == |kids[l + 1].keys| + 1
    ensures Items(Merge(keys, kids, l)) == Items(Node(keys, kids))
  {
    KeyAround(keys, kids, l);
    JoinItems(kids[l], keys[l], kids[l + 1]);
    var z := Join(kids[l], keys[l], kids[l + 1]);
    if |keys| == 1 {
      assert Before(keys[..l], kids[..l]) == [] && After(keys[l + 1..], kids[l + 2..]) == [];
      assert [] + Items(z) + [] == Items(z);
    } else {
      ItemsAround(keys[..l], kids[..l], z, keys[l + 1..], kids[l + 2..]);
    }
  }

  lemma MendItems<T>(keys: seq<T>, kids: seq<Tree<T>>, c: nat, h: nat)
    requires Lean(keys, kids, c, h)
    ensures Items(Mend(keys, kids, c, h)) == Items(Node(keys, kids))
  {
    if |kids[c].keys| >= MIN_KEYS {
    } else if c < |keys| && |kids[c + 1].keys| > MIN_KEYS {
      RotateLeftItems(keys, kids, c);
    } else if c > 0 && |kids[c - 1].keys| > MIN_KEYS {
      RotateRightItems(keys, kids, c);
    } else {
      MergeItems(keys, kids, if c == 0 then 0 else c - 1);
    }
  }
}
