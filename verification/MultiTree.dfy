/** Trees of trees, one level for each key: together they hold one sequence in the order of all keys. */
module MultiTree {
  import opened Wrappers
  import opened BTreeModel
  import opened BTreeRemove
  import opened BTreeHealth

  /** The items of all with the same keys so far, or subtrees by the next key. */
  datatype MTree = Base(items: Tree<int>) | Level(subs: Tree<MTree>)

  function Height<T>(t: Tree<T>): nat { if t.Node? && t.kids != [] then 1 + Height(t.kids[0]) else 0 }

  lemma {:induction false} HeightIs<T>(t: Tree<T>, h: nat)
    requires Shape(t, h)
    ensures Height(t) == h
  {
    if h > 0 { HeightIs(t.kids[0], h - 1); }
  }

  ghost predicate Sound<T>(t: Tree<T>, rank: T -> int) { Healthy(t, Height(t), rank) }

  /** All items, from the first level's keys to the last. */
  function Flat(m: MTree, n: nat): seq<int>
    decreases n, 0
  {
    if m.Base? then Items(m.items) else if n == 0 then [] else FlatAll(Items(m.subs), n - 1)
  }

  function FlatAll(s: seq<MTree>, n: nat): seq<int>
    decreases n, |s| + 1
  {
    if s == [] then [] else Flat(s[0], n) + FlatAll(s[1..], n)
  }

  /** The item by which a subtree is compared: the first key of its root, down all levels. */
  function Rep(m: MTree, n: nat): int
    decreases n
  {
    if m.Base? then (if m.items.Node? && m.items.keys != [] then m.items.keys[0] else 0)
    else if n > 0 && m.subs.Node? && m.subs.keys != [] then Rep(m.subs.keys[0], n - 1)
    else 0
  }

  function KeyOf(k: int -> int, n: nat): MTree -> int { m => k(Rep(m, n)) }

  /** Below one key, every item has it. */
  ghost predicate Uniform(k: int -> int, s: seq<int>, v: int) { forall i :: 0 <= i < |s| ==> k(s[i]) == v }

  ghost predicate GoodSub(s: MTree, ks: seq<int -> int>, rank: int -> int)
    requires ks != []
    decreases |ks|, 0
  {
    && Good(s, ks[1..], rank) && Flat(s, |ks| - 1) != []
    && Uniform(ks[0], Flat(s, |ks| - 1), ks[0](Rep(s, |ks| - 1)))
  }

  /** Every level is a sound tree, and no subtree is empty. */
  ghost predicate Good(m: MTree, ks: seq<int -> int>, rank: int -> int)
    decreases |ks|, 1
  {
    if ks == [] then m.Base? && Sound(m.items, rank)
    else
      && m.Level? && Sound(m.subs, KeyOf(ks[0], |ks| - 1))
      && forall i :: 0 <= i < |Items(m.subs)| ==> GoodSub(Items(m.subs)[i], ks, rank)
  }

  function Empty(n: nat): MTree { if n == 0 then Base(Nil) else Level(Nil) }

  /** The comparison with x on every key in turn, and then on the rank. */
  function Lex(ks: seq<int -> int>, rank: int -> int, x: int, y: int): int {
    if ks == [] then rank(x) - rank(y)
    else if ks[0](x) != ks[0](y) then ks[0](x) - ks[0](y)
    else Lex(ks[1..], rank, x, y)
  }

  function Order(ks: seq<int -> int>, rank: int -> int, x: int): int -> int { y => Lex(ks, rank, x, y) }

  // ---------- one key replaced in place ----------

  /** The key equal to the target becomes x. */
  function SetKey<T>(t: Tree<T>, h: nat, f: T -> int, x: T): Tree<T>
    requires Shape(t, h)
  {
    if h == 0 then t
    else
      var p := Rank(f, t.keys);
      if HasEqual(f, t.keys) then Node(t.keys[p := x], t.kids) else Node(t.keys, t.kids[p := SetKey(t.kids[p], h - 1, f, x)])
  }

  lemma {:induction false} SetKeyShape<T>(t: Tree<T>, h: nat, f: T -> int, x: T)
    requires Shape(t, h)
    ensures Shape(SetKey(t, h, f, x), h) && Size(SetKey(t, h, f, x)) == Size(t)
  {
    if h > 0 && !HasEqual(f, t.keys) { SetKeyShape(t.kids[Rank(f, t.keys)], h - 1, f, x); }
  }

  lemma {:induction false} SetKeyItems<T>(t: Tree<T>, h: nat, f: T -> int, x: T)
    requires Shape(t, h) && Strict(f, Items(t)) && HasEqual(f, Items(t))
    ensures Rank(f, Items(t)) < |Items(t)|
    ensures Items(SetKey(t, h, f, x)) == Items(t)[Rank(f, Items(t)) := x]
  {
    hide Strict, HasEqual, Items, Rank, Before, After;
    SomeItems(t, h, f);
    var p := Rank(f, t.keys);
    if HasEqual(f, t.keys) {
      SetInNode(t, f, x, p);
    } else {
      SetInChild(t, f, t.kids[p], p);
      SetKeyItems(t.kids[p], h - 1, f, x);
      ReplaceChild(t.keys, t.kids, p, SetKey(t.kids[p], h - 1, f, x));
      SetAround(Before(t.keys[..p], t.kids[..p]), Items(t.kids[p]), After(t.keys[p..], t.kids[p + 1..]), Rank(f, Items(t.kids[p])), x);
    }
  }

  lemma SomeItems<T>(t: Tree<T>, h: nat, f: T -> int)
    requires Shape(t, h) && HasEqual(f, Items(t))
    ensures h > 0 && t.Node?
  {}

  lemma SetInNode<T>(t: Tree<T>, f: T -> int, x: T, p: nat)
    requires t.Node? && |t.kids| == |t.keys| + 1 && Strict(f, Items(t)) && HasEqual(f, t.keys) && p == Rank(f, t.keys)
    ensures Rank(f, Items(t)) < |Items(t)| && p < |t.keys|
    ensures Items(Node(t.keys[p := x], t.kids)) == Items(t)[Rank(f, Items(t)) := x]
  {
    var keys, kids := t.keys, t.kids;
    var a, c := Before(keys[..p], kids[..p]) + Items(kids[p]), Items(kids[p + 1]) + After(keys[p + 1..], kids[p + 2..]);
    hide Items, Before, After;
    FoundSplits(f, keys, kids, p, a, c);
    SetFound(f, a, keys[p], c, x);
    KeyAround(keys[p := x], kids, p);
    assert keys[p := x][..p] == keys[..p] && keys[p := x][p + 1..] == keys[p + 1..];
    Around(Before(keys[..p], kids[..p]), Items(kids[p]), [x], Items(kids[p + 1]), After(keys[p + 1..], kids[p + 2..]));
  }

  lemma Around<T>(a: seq<T>, b: seq<T>, x: seq<T>, c: seq<T>, d: seq<T>)
    ensures a + (b + x + c) + d == (a + b) + x + (c + d)
  {}

  lemma SetInChild<T>(t: Tree<T>, f: T -> int, kid: Tree<T>, p: nat)
    requires t.Node? && |t.kids| == |t.keys| + 1 && Strict(f, Items(t)) && HasEqual(f, Items(t))
    requires !HasEqual(f, t.keys) && p == Rank(f, t.keys) && kid == t.kids[p]
    ensures var a, c := Before(t.keys[..p], t.kids[..p]), After(t.keys[p..], t.kids[p + 1..]);
      && Items(t) == a + Items(kid) + c && Strict(f, Items(kid)) && HasEqual(f, Items(kid))
      && Rank(f, Items(t)) == |a| + Rank(f, Items(kid)) && Rank(f, Items(kid)) < |Items(kid)|
  {
    var keys, kids := t.keys, t.kids;
    var a, c := Before(keys[..p], kids[..p]), After(keys[p..], kids[p + 1..]);
    RankSplits(f, keys);
    StrictKeys(f, keys, kids);
    ChildSplits(f, keys, kids, p, a, c);
    RankFrame(f, a, Items(kid), c);
  }

  lemma SetFound<T>(f: T -> int, a: seq<T>, k: T, c: seq<T>, x: T)
    requires AllBefore(f, a) && AllBeyond(f, c) && f(k) == 0
    ensures Rank(f, a + [k] + c) == |a| && (a + [k] + c)[|a| := x] == a + [x] + c
  {
    RankFrame(f, a, [k], c);
  }

  lemma SetAround<T>(a: seq<T>, b: seq<T>, c: seq<T>, p: nat, x: T)
    requires p < |b|
    ensures (a + b + c)[|a| + p := x] == a + b[p := x] + c
  {}

  // ---------- the operations ----------

  /** The subtree for the first key of x, if there is one. */
  function SubOf(m: MTree, ks: seq<int -> int>, x: int): Option<MTree>
    requires ks != [] && m.Level?
  {
    SeqFind(Items(m.subs), ToSub(ks, x))
  }

  /** The comparison of x with subtrees on the first key. */
  function ToSub(ks: seq<int -> int>, x: int): MTree -> int
    requires ks != []
  {
    s => ks[0](x) - KeyOf(ks[0], |ks| - 1)(s)
  }

  /** What Good says of one level. */
  lemma GoodLevel(m: MTree, ks: seq<int -> int>, rank: int -> int, x: int)
    requires Good(m, ks, rank) && ks != []
    ensures m.Level? && Shape(m.subs, Height(m.subs)) && Strict(ToSub(ks, x), Items(m.subs))
    ensures m.subs.Node? ==> Height(m.subs) > 0 && |m.subs.keys| > 0
    ensures SubOf(m, ks, x).Some? ==> m.subs.Node? && GoodSub(SubOf(m, ks, x).value, ks, rank) && Good(SubOf(m, ks, x).value, ks[1..], rank)
  {}

  lemma GoodBase(m: MTree, rank: int -> int)
    requires Good(m, [], rank)
    ensures m.Base? && Shape(m.items, Height(m.items)) && (m.items.Node? ==> Height(m.items) > 0 && |m.items.keys| > 0)
  {}

  /** Inserts x: down the subtree of each key, which is made if there is none, and then by rank. */
  function Put(m: MTree, ks: seq<int -> int>, rank: int -> int, x: int): MTree
    requires Good(m, ks, rank)
    decreases |ks|
  {
    if ks == [] then
      GoodBase(m, rank);
      Base(Insert(m.items, Height(m.items), Compare(rank, x), x))
    else
      GoodLevel(m, ks, rank, x);
      var f, sub := ToSub(ks, x), SubOf(m, ks, x);
      if sub.Some? then Level(SetKey(m.subs, Height(m.subs), f, Put(sub.value, ks[1..], rank, x)))
      else
        EmptyGood(ks[1..], rank);
        var made := Put(Empty(|ks| - 1), ks[1..], rank, x);
        Level(Insert(m.subs, Height(m.subs), Compare(KeyOf(ks[0], |ks| - 1), made), made))
  }

  lemma EmptyGood(ks: seq<int -> int>, rank: int -> int)
    ensures Good(Empty(|ks|), ks, rank) && Flat(Empty(|ks|), |ks|) == []
  {}

  /** Removes what equals x on every key and in rank; a subtree that this empties goes too. */
  function Take(m: MTree, ks: seq<int -> int>, rank: int -> int, x: int): MTree
    requires Good(m, ks, rank)
    decreases |ks|
  {
    if ks == [] then
      GoodBase(m, rank);
      if m.items.Nil? then m else Base(Trim(Remove(m.items, Height(m.items), Compare(rank, x)).tree))
    else
      GoodLevel(m, ks, rank, x);
      var f, sub := ToSub(ks, x), SubOf(m, ks, x);
      if sub.None? then m
      else
        var left := Take(sub.value, ks[1..], rank, x);
        if IsEmpty(left) then Level(Trim(Remove(m.subs, Height(m.subs), Compare(KeyOf(ks[0], |ks| - 1), sub.value)).tree))
        else Level(SetKey(m.subs, Height(m.subs), f, left))
  }

  predicate IsEmpty(m: MTree) { if m.Base? then m.items.Nil? else m.subs.Nil? }

  /** The items with all keys of x. */
  function FindByKeys(m: MTree, ks: seq<int -> int>, rank: int -> int, x: int): seq<int>
    requires Good(m, ks, rank)
    decreases |ks|
  {
    if ks == [] then Items(m.items)
    else
      GoodLevel(m, ks, rank, x);
      var sub := SubOf(m, ks, x);
      if sub.Some? then FindByKeys(sub.value, ks[1..], rank, x) else []
  }

  // ---------- sequences ----------

  lemma {:induction false} FlatConcat(a: seq<MTree>, b: seq<MTree>, n: nat)
    ensures FlatAll(a + b, n) == FlatAll(a, n) + FlatAll(b, n)
    decreases |a|
  {
    if a == [] {
      assert a + b == b;
    } else {
      FlatConcat(a[1..], b, n);
      assert (a + b)[1..] == a[1..] + b;
    }
  }

  lemma FlatAround(s: seq<MTree>, p: nat, n: nat)
    requires p < |s|
    ensures FlatAll(s, n) == FlatAll(s[..p], n) + Flat(s[p], n) + FlatAll(s[p + 1..], n)
  {
    assert s == s[..p] + ([s[p]] + s[p + 1..]);
    FlatConcat(s[..p], [s[p]] + s[p + 1..], n);
    assert ([s[p]] + s[p + 1..])[1..] == s[p + 1..];
  }

  /** Two comparisons that agree on a sequence do the same to it. */
  lemma Agree<T>(s: seq<T>, f: T -> int, g: T -> int, x: T)
    requires forall i :: 0 <= i < |s| ==> f(s[i]) == g(s[i])
    ensures Rank(f, s) == Rank(g, s) && HasEqual(f, s) == HasEqual(g, s)
    ensures SeqInsert(s, f, x) == SeqInsert(s, g, x) && SeqRemove(s, f) == SeqRemove(s, g)
    ensures SeqFind(s, f) == SeqFind(s, g)
  {
    RankSplits(g, s);
    RankIs(f, s, Rank(g, s));
  }

  /** The items of subtrees whose keys are on one side of x's are on that side of x. */
  lemma {:induction false} SideOf(s: seq<MTree>, ks: seq<int -> int>, rank: int -> int, x: int)
    requires ks != [] && forall i :: 0 <= i < |s| ==> GoodSub(s[i], ks, rank)
    ensures AllBefore(ToSub(ks, x), s) ==> AllBefore(Order(ks, rank, x), FlatAll(s, |ks| - 1))
    ensures AllBeyond(ToSub(ks, x), s) ==> AllBeyond(Order(ks, rank, x), FlatAll(s, |ks| - 1))
    decreases |s|
  {
    if s != [] {
      var n := |ks| - 1;
      assert forall i :: 0 <= i < |s[1..]| ==> s[1..][i] == s[i + 1];
      SideOf(s[1..], ks, rank, x);
      var a, b, f := Flat(s[0], n), FlatAll(s[1..], n), Order(ks, rank, x);
      assert GoodSub(s[0], ks, rank);
      assert FlatAll(s, n) == a + b;
      if AllBefore(ToSub(ks, x), s) {
        assert ToSub(ks, x)(s[0]) > 0;
        assert forall i :: 0 <= i < |a| ==> f(a[i]) > 0;
      }
      if AllBeyond(ToSub(ks, x), s) {
        assert ToSub(ks, x)(s[0]) < 0;
        assert forall i :: 0 <= i < |a| ==> f(a[i]) < 0;
      }
    }
  }

  lemma FirstKeyIn<T>(t: Tree<T>, h: nat)
    requires Shape(t, h) && t.Node? && |t.keys| > 0
    ensures t.keys[0] in Items(t)
  {
    var a, b, c := Items(t.kids[0]), Items(t.kids[1]), After(t.keys[1..], t.kids[2..]);
    KeyAround(t.keys, t.kids, 0);
    assert Before(t.keys[..0], t.kids[..0]) == [];
    assert Items(t) == [] + (a + [t.keys[0]] + b) + c;
    assert Items(t)[|a|] == t.keys[0];
  }

  /** A subtree is compared by one of its items. */
  lemma {:induction false} RepIn(m: MTree, ks: seq<int -> int>, rank: int -> int)
    requires Good(m, ks, rank) && Flat(m, |ks|) != []
    ensures Rep(m, |ks|) in Flat(m, |ks|)
    decreases |ks|
  {
    hide *;
    if ks == [] {
      BaseRep(m, rank);
    } else {
      var p := FirstSub(m, ks, rank);
      var s, n := Items(m.subs), |ks| - 1;
      RepIn(s[p], ks[1..], rank);
      FlatAround(s, p, n);
    }
  }

  lemma BaseRep(m: MTree, rank: int -> int)
    requires Good(m, [], rank) && Flat(m, 0) != []
    ensures Rep(m, 0) in Flat(m, 0)
  {
    GoodBase(m, rank);
    FirstKeyIn(m.items, Height(m.items));
  }

  lemma FirstSub(m: MTree, ks: seq<int -> int>, rank: int -> int) returns (p: nat)
    requires Good(m, ks, rank) && ks != [] && Flat(m, |ks|) != []
    ensures m.Level? && p < |Items(m.subs)| && GoodSub(Items(m.subs)[p], ks, rank) && Good(Items(m.subs)[p], ks[1..], rank)
    ensures Flat(Items(m.subs)[p], |ks| - 1) != [] && Rep(m, |ks|) == Rep(Items(m.subs)[p], |ks| - 1) && Flat(m, |ks|) == FlatAll(Items(m.subs), |ks| - 1)
  {
    GoodLevel(m, ks, rank, 0);
    assert m.subs.Node?;
    FirstKeyIn(m.subs, Height(m.subs));
    p :| 0 <= p < |Items(m.subs)| && Items(m.subs)[p] == m.subs.keys[0];
    assert GoodSub(Items(m.subs)[p], ks, rank);
  }

  lemma EmptyFlat(m: MTree, ks: seq<int -> int>, rank: int -> int)
    requires Good(m, ks, rank)
    ensures IsEmpty(m) <==> Flat(m, |ks|) == []
  {
    if ks == [] {
      GoodBase(m, rank);
      if m.items.Node? { FirstKeyIn(m.items, Height(m.items)); }
    } else {
      GoodLevel(m, ks, rank, 0);
      if m.subs.Node? {
        FirstKeyIn(m.subs, Height(m.subs));
        assert GoodSub(Items(m.subs)[0], ks, rank);
      }
    }
  }

  // ---------- one level ----------

  /** The place of x's key among the subtrees. */
  ghost predicate Placed(s: seq<MTree>, ks: seq<int -> int>, rank: int -> int, x: int, p: nat, q: nat)
    requires ks != [] && p <= q <= |s|
  {
    && (forall i :: 0 <= i < |s| ==> GoodSub(s[i], ks, rank))
    && AllBefore(ToSub(ks, x), s[..p]) && AllBeyond(ToSub(ks, x), s[q..])
  }

  lemma SidesOf(s: seq<MTree>, ks: seq<int -> int>, rank: int -> int, x: int, p: nat, q: nat)
    requires ks != [] && p <= q <= |s| && Placed(s, ks, rank, x, p, q)
    ensures AllBefore(Order(ks, rank, x), FlatAll(s[..p], |ks| - 1)) && AllBeyond(Order(ks, rank, x), FlatAll(s[q..], |ks| - 1))
  {
    SideOf(s[..p], ks, rank, x);
    SideOf(s[q..], ks, rank, x);
  }

  /** Within the subtree of x's key, the other keys decide. */
  lemma SubAgrees(sub: MTree, ks: seq<int -> int>, rank: int -> int, x: int)
    requires ks != [] && GoodSub(sub, ks, rank) && ToSub(ks, x)(sub) == 0
    ensures var b, f, g := Flat(sub, |ks| - 1), Order(ks, rank, x), Order(ks[1..], rank, x);
      SeqInsert(b, f, x) == SeqInsert(b, g, x) && SeqRemove(b, f) == SeqRemove(b, g) && HasEqual(f, b) == HasEqual(g, b)
  {
    var b, f, g := Flat(sub, |ks| - 1), Order(ks, rank, x), Order(ks[1..], rank, x);
    forall i | 0 <= i < |b| ensures f(b[i]) == g(b[i]) { assert ks[0](b[i]) == ks[0](x); }
    Agree(b, f, g, x);
  }

  lemma LevelFound(s: seq<MTree>, ks: seq<int -> int>, rank: int -> int, x: int, p: nat, sub: MTree)
    requires ks != [] && p < |s| && Placed(s, ks, rank, x, p, p + 1) && ToSub(ks, x)(s[p]) == 0
    ensures var n, g := |ks| - 1, Order(ks[1..], rank, x);
      && (Flat(sub, n) == SeqInsert(Flat(s[p], n), g, x) ==> FlatAll(s[p := sub], n) == SeqInsert(FlatAll(s, n), Order(ks, rank, x), x))
      && (Flat(sub, n) == SeqRemove(Flat(s[p], n), g) ==> FlatAll(s[p := sub], n) == SeqRemove(FlatAll(s, n), Order(ks, rank, x)))
      && ([] == SeqRemove(Flat(s[p], n), g) ==> FlatAll(s[..p] + s[p + 1..], n) == SeqRemove(FlatAll(s, n), Order(ks, rank, x)))
  {
    hide *;
    var n, f := |ks| - 1, Order(ks, rank, x);
    var a, b, c := FlatAll(s[..p], n), Flat(s[p], n), FlatAll(s[p + 1..], n);
    SidesOf(s, ks, rank, x, p, p + 1);
    PlacedAt(s, ks, rank, x, p);
    SubAgrees(s[p], ks, rank, x);
    InsertFrame(f, x, a, b, c);
    RemoveFrame(f, a, b, c);
    FlatReplaced(s, p, sub, n);
    assert a + [] + c == a + c;
  }

  lemma PlacedAt(s: seq<MTree>, ks: seq<int -> int>, rank: int -> int, x: int, p: nat)
    requires ks != [] && p < |s| && Placed(s, ks, rank, x, p, p + 1)
    ensures GoodSub(s[p], ks, rank)
  {}

  lemma FlatReplaced(s: seq<MTree>, p: nat, sub: MTree, n: nat)
    requires p < |s|
    ensures var a, b, c := FlatAll(s[..p], n), Flat(s[p], n), FlatAll(s[p + 1..], n);
      && FlatAll(s, n) == a + b + c && FlatAll(s[p := sub], n) == a + Flat(sub, n) + c && FlatAll(s[..p] + s[p + 1..], n) == a + c
  {
    hide *;
    FlatAround(s, p, n);
    FlatAround(s[p := sub], p, n);
    assert s[p := sub][..p] == s[..p] && s[p := sub][p + 1..] == s[p + 1..];
    FlatConcat(s[..p], s[p + 1..], n);
  }

  lemma LevelNone(s: seq<MTree>, ks: seq<int -> int>, rank: int -> int, x: int, p: nat, sub: MTree)
    requires ks != [] && p <= |s| && Placed(s, ks, rank, x, p, p)
    ensures var n, f := |ks| - 1, Order(ks, rank, x);
      && (Flat(sub, n) == [x] ==> FlatAll(s[..p] + [sub] + s[p..], n) == SeqInsert(FlatAll(s, n), f, x))
      && SeqRemove(FlatAll(s, n), f) == FlatAll(s, n)
  {
    hide *;
    var n, f := |ks| - 1, Order(ks, rank, x);
    var a, c := FlatAll(s[..p], n), FlatAll(s[p..], n);
    SidesOf(s, ks, rank, x, p, p);
    EmptyInsert(f, x);
    InsertFrame(f, x, a, [], c);
    RemoveFrame(f, a, [], c);
    FlatInserted(s, p, sub, n);
    assert a + [] + c == a + c;
  }

  lemma FlatInserted(s: seq<MTree>, p: nat, sub: MTree, n: nat)
    requires p <= |s|
    ensures var a, c := FlatAll(s[..p], n), FlatAll(s[p..], n);
      FlatAll(s, n) == a + c && FlatAll(s[..p] + [sub] + s[p..], n) == a + Flat(sub, n) + c
  {
    hide *;
    FlatConcat(s[..p], s[p..], n);
    assert s[..p] + s[p..] == s;
    var t := s[..p] + [sub] + s[p..];
    FlatAround(t, p, n);
    assert t[..p] == s[..p] && t[p] == sub && t[p + 1..] == s[p..];
  }

  lemma EmptyInsert(f: int -> int, x: int)
    ensures SeqInsert([], f, x) == [x] && SeqRemove([], f) == []
  {}

  // ---------- insertion ----------

  /** Inserting keeps every level sound, and does to the items what it does to one sequence in the
      order of all keys. */
  ghost predicate PutGood(m: MTree, ks: seq<int -> int>, rank: int -> int, x: int, r: MTree) {
    Good(r, ks, rank) && Flat(r, |ks|) == SeqInsert(Flat(m, |ks|), Order(ks, rank, x), x)
  }

  lemma {:induction false} PutSound(m: MTree, ks: seq<int -> int>, rank: int -> int, x: int)
    requires Good(m, ks, rank)
    ensures PutGood(m, ks, rank, x, Put(m, ks, rank, x))
    decreases |ks|
  {
    hide *;
    if ks == [] {
      PutBase(m, rank, x);
    } else {
      GoodLevel(m, ks, rank, x);
      var sub := SubOf(m, ks, x);
      PutIs(m, ks, rank, x);
      if sub.Some? {
        PutSound(sub.value, ks[1..], rank, x);
        PutFound(m, ks, rank, x, sub.value, Put(sub.value, ks[1..], rank, x));
      } else {
        EmptyGood(ks[1..], rank);
        PutSound(Empty(|ks| - 1), ks[1..], rank, x);
        PutNone(m, ks, rank, x, Put(Empty(|ks| - 1), ks[1..], rank, x));
      }
    }
  }

  lemma PutIs(m: MTree, ks: seq<int -> int>, rank: int -> int, x: int)
    requires Good(m, ks, rank) && ks != []
    ensures Good(Empty(|ks| - 1), ks[1..], rank) && m.Level? && Shape(m.subs, Height(m.subs))
    ensures var sub, made := SubOf(m, ks, x), Put(Empty(|ks| - 1), ks[1..], rank, x);
      && (sub.Some? ==> Good(sub.value, ks[1..], rank))
      && (sub.Some? ==> Put(m, ks, rank, x) == Level(SetKey(m.subs, Height(m.subs), ToSub(ks, x), Put(sub.value, ks[1..], rank, x))))
      && (sub.None? ==> Put(m, ks, rank, x) == Level(Insert(m.subs, Height(m.subs), Compare(KeyOf(ks[0], |ks| - 1), made), made)))
  {
    GoodLevel(m, ks, rank, x);
    EmptyGood(ks[1..], rank);
  }

  lemma PutBase(m: MTree, rank: int -> int, x: int)
    requires Good(m, [], rank)
    ensures PutGood(m, [], rank, x, Put(m, [], rank, x))
  {
    hide *;
    BaseIs(m, rank, x);
    var h, f := Height(m.items), Compare(rank, x);
    SortedStrict(rank, Items(m.items), x);
    InsertKeepsHealthy(m.items, h, rank, x);
    InsertItems(m.items, h, f, x);
    HealthyShape(Insert(m.items, h, f, x), GrownHeight(m.items, h, f, x), rank);
    HeightIs(Insert(m.items, h, f, x), GrownHeight(m.items, h, f, x));
    BaseOrder(Items(m.items), rank, x);
    Agree(Items(m.items), f, Order([], rank, x), x);
    BaseMade(m, rank, x, Insert(m.items, h, f, x));
  }

  lemma BaseIs(m: MTree, rank: int -> int, x: int)
    requires Good(m, [], rank)
    ensures m.Base? && Healthy(m.items, Height(m.items), rank) && Sorted(rank, Items(m.items)) && Shape(m.items, Height(m.items))
    ensures Put(m, [], rank, x) == Base(Insert(m.items, Height(m.items), Compare(rank, x), x)) && Flat(m, 0) == Items(m.items)
  {}

  lemma BaseOrder(s: seq<int>, rank: int -> int, x: int)
    ensures forall i :: 0 <= i < |s| ==> Compare(rank, x)(s[i]) == Order([], rank, x)(s[i])
  {}

  lemma BaseMade(m: MTree, rank: int -> int, x: int, t: Tree<int>)
    requires m.Base? && Healthy(t, Height(t), rank) && Items(t) == SeqInsert(Items(m.items), Order([], rank, x), x)
    ensures PutGood(m, [], rank, x, Base(t))
  {
    hide Items, Healthy, SeqInsert, Order;
  }

  /** Where x's key stands among the subtrees. */
  lemma PlaceOf(m: MTree, ks: seq<int -> int>, rank: int -> int, x: int)
    requires Good(m, ks, rank) && ks != []
    ensures var s, f := Items(m.subs), ToSub(ks, x);
      var p := Rank(f, s);
      && (SubOf(m, ks, x).Some? <==> HasEqual(f, s)) && p <= |s|
      && (HasEqual(f, s) ==> p < |s| && SubOf(m, ks, x) == Some(s[p]) && f(s[p]) == 0 && Placed(s, ks, rank, x, p, p + 1))
      && (!HasEqual(f, s) ==> Placed(s, ks, rank, x, p, p))
  {
    var s, f := Items(m.subs), ToSub(ks, x);
    GoodLevel(m, ks, rank, x);
    RankSplits(f, s);
  }

  ghost predicate Within(b: seq<int>, x: int, c: seq<int>) { forall i :: 0 <= i < |b| ==> b[i] == x || b[i] in c }

  /** A subtree that has only items of the old one, and x, is as good as it. */
  lemma GoodSubKept(sub: MTree, left: MTree, ks: seq<int -> int>, rank: int -> int, x: int)
    requires ks != [] && GoodSub(sub, ks, rank) && ToSub(ks, x)(sub) == 0 && Good(left, ks[1..], rank)
    requires Flat(left, |ks| - 1) != [] && Within(Flat(left, |ks| - 1), x, Flat(sub, |ks| - 1))
    ensures GoodSub(left, ks, rank) && ks[0](Rep(left, |ks| - 1)) == ks[0](x) == ks[0](Rep(sub, |ks| - 1))
  {
    var n, b := |ks| - 1, Flat(left, |ks| - 1);
    RepIn(left, ks[1..], rank);
    forall i | 0 <= i < |b| ensures ks[0](b[i]) == ks[0](x) {
      if b[i] != x { var j :| 0 <= j < |Flat(sub, n)| && Flat(sub, n)[j] == b[i]; }
    }
  }

  /** One subtree is exchanged for another with the same key. */
  lemma LevelSet(m: MTree, ks: seq<int -> int>, rank: int -> int, x: int, sub: MTree, left: MTree)
    requires Good(m, ks, rank) && ks != [] && SubOf(m, ks, x) == Some(sub) && Shape(m.subs, Height(m.subs))
    requires GoodSub(left, ks, rank) && ks[0](Rep(left, |ks| - 1)) == ks[0](Rep(sub, |ks| - 1))
    ensures var r, s := Level(SetKey(m.subs, Height(m.subs), ToSub(ks, x), left)), Items(m.subs);
      Good(r, ks, rank) && Rank(ToSub(ks, x), s) < |s| && Items(r.subs) == s[Rank(ToSub(ks, x), s) := left]
  {
    var h, f, s := Height(m.subs), ToSub(ks, x), Items(m.subs);
    var p, t := Rank(f, s), SetKey(m.subs, h, f, left);
    GoodLevel(m, ks, rank, x);
    PlaceOf(m, ks, rank, x);
    SetKeyItems(m.subs, h, f, left);
    SetKeyShape(m.subs, h, f, left);
    HeightIs(t, h);
    LevelGood(m, t, s, p, left, ks, rank);
  }

  lemma LevelGood(m: MTree, t: Tree<MTree>, s: seq<MTree>, p: nat, left: MTree, ks: seq<int -> int>, rank: int -> int)
    requires ks != [] && Good(m, ks, rank) && m.Level? && m.subs.Node? && s == Items(m.subs) && p < |s| && Items(t) == s[p := left]
    requires GoodSub(left, ks, rank) && ks[0](Rep(left, |ks| - 1)) == ks[0](Rep(s[p], |ks| - 1))
    requires Shape(t, Height(t)) && Size(t) == Size(m.subs)
    ensures Good(Level(t), ks, rank)
  {
    var k := KeyOf(ks[0], |ks| - 1);
    assert Sorted(k, s);
    assert forall i :: 0 <= i < |s| ==> k(s[p := left][i]) == k(s[i]);
    assert Sorted(k, Items(t));
  }

  lemma PutFound(m: MTree, ks: seq<int -> int>, rank: int -> int, x: int, sub: MTree, left: MTree)
    requires Good(m, ks, rank) && ks != [] && m.Level? && SubOf(m, ks, x) == Some(sub) && Shape(m.subs, Height(m.subs))
    requires PutGood(sub, ks[1..], rank, x, left)
    ensures PutGood(m, ks, rank, x, Level(SetKey(m.subs, Height(m.subs), ToSub(ks, x), left)))
  {
    hide *;
    var s, n := Items(m.subs), |ks| - 1;
    GoodLevel(m, ks, rank, x);
    PlaceOf(m, ks, rank, x);
    FoundEqual(m, ks, x, sub);
    PutGoodIs(sub, ks[1..], rank, x, left);
    InsertMembers(Flat(sub, n), Order(ks[1..], rank, x), x);
    GoodSubKept(sub, left, ks, rank, x);
    LevelSet(m, ks, rank, x, sub, left);
    LevelFound(s, ks, rank, x, Rank(ToSub(ks, x), s), left);
    FlatIs(m, ks);
    FlatIs(Level(SetKey(m.subs, Height(m.subs), ToSub(ks, x), left)), ks);
    PutGoodIs(m, ks, rank, x, Level(SetKey(m.subs, Height(m.subs), ToSub(ks, x), left)));
  }

  lemma FoundEqual(m: MTree, ks: seq<int -> int>, x: int, sub: MTree)
    requires ks != [] && m.Level? && SubOf(m, ks, x) == Some(sub)
    ensures HasEqual(ToSub(ks, x), Items(m.subs)) && ToSub(ks, x)(sub) == 0 && Items(m.subs)[Rank(ToSub(ks, x), Items(m.subs))] == sub
  {}

  lemma PutGoodIs(m: MTree, ks: seq<int -> int>, rank: int -> int, x: int, r: MTree)
    ensures PutGood(m, ks, rank, x, r) <==> Good(r, ks, rank) && Flat(r, |ks|) == SeqInsert(Flat(m, |ks|), Order(ks, rank, x), x)
  {}

  lemma FlatIs(m: MTree, ks: seq<int -> int>)
    requires m.Level? && ks != []
    ensures Flat(m, |ks|) == FlatAll(Items(m.subs), |ks| - 1)
  {}

  lemma InsertMembers(s: seq<int>, f: int -> int, x: int)
    ensures SeqInsert(s, f, x) != [] && Within(SeqInsert(s, f, x), x, s)
  {}

  lemma PutNone(m: MTree, ks: seq<int -> int>, rank: int -> int, x: int, made: MTree)
    requires Good(m, ks, rank) && ks != [] && m.Level? && SubOf(m, ks, x) == None && Shape(m.subs, Height(m.subs))
    requires PutGood(Empty(|ks| - 1), ks[1..], rank, x, made)
    ensures PutGood(m, ks, rank, x, Level(Insert(m.subs, Height(m.subs), Compare(KeyOf(ks[0], |ks| - 1), made), made)))
  {
    hide *;
    var s, n := Items(m.subs), |ks| - 1;
    var p, r := Rank(ToSub(ks, x), s), Level(Insert(m.subs, Height(m.subs), Compare(KeyOf(ks[0], |ks| - 1), made), made));
    PlaceOf(m, ks, rank, x);
    MadeIs(ks, rank, x, made);
    LevelAdd(m, ks, rank, x, made);
    LevelNone(s, ks, rank, x, p, made);
    FlatIs(m, ks);
    FlatIs(r, ks);
    PutGoodIs(m, ks, rank, x, r);
  }

  lemma MadeIs(ks: seq<int -> int>, rank: int -> int, x: int, made: MTree)
    requires ks != [] && PutGood(Empty(|ks| - 1), ks[1..], rank, x, made)
    ensures Flat(made, |ks| - 1) == [x] && GoodSub(made, ks, rank) && Rep(made, |ks| - 1) == x
  {
    hide *;
    EmptyGood(ks[1..], rank);
    EmptyInsert(Order(ks[1..], rank, x), x);
    PutGoodIs(Empty(|ks| - 1), ks[1..], rank, x, made);
    RepIn(made, ks[1..], rank);
    OneGood(ks, rank, x, made);
  }

  lemma OneGood(ks: seq<int -> int>, rank: int -> int, x: int, made: MTree)
    requires ks != [] && Good(made, ks[1..], rank) && Flat(made, |ks| - 1) == [x] && Rep(made, |ks| - 1) == x
    ensures GoodSub(made, ks, rank)
  {
    hide Good, Flat, Rep;
  }

  /** A subtree with a new key. */
  lemma LevelAdd(m: MTree, ks: seq<int -> int>, rank: int -> int, x: int, made: MTree)
    requires Good(m, ks, rank) && ks != [] && m.Level? && SubOf(m, ks, x) == None && Shape(m.subs, Height(m.subs))
    requires GoodSub(made, ks, rank) && Rep(made, |ks| - 1) == x
    ensures var r, s := Level(Insert(m.subs, Height(m.subs), Compare(KeyOf(ks[0], |ks| - 1), made), made)), Items(m.subs);
      var p := Rank(ToSub(ks, x), s);
      Good(r, ks, rank) && p <= |s| && Items(r.subs) == s[..p] + [made] + s[p..]
  {
    hide *;
    var h, k, s := Height(m.subs), KeyOf(ks[0], |ks| - 1), Items(m.subs);
    var f := Compare(k, made);
    var t := Insert(m.subs, h, f, made);
    SoundAt(m, ks, rank);
    SortedStrict(k, s, made);
    InsertKeepsHealthy(m.subs, h, k, made);
    InsertItems(m.subs, h, f, made);
    HealthyShape(t, GrownHeight(m.subs, h, f, made), k);
    HeightIs(t, GrownHeight(m.subs, h, f, made));
    SameOrder(s, ks, x, made);
    Agree(s, f, ToSub(ks, x), made);
    Inserted(m, ks, x, made);
    GoodAdded(m, t, ks, rank, made, Rank(ToSub(ks, x), s));
  }

  lemma SoundAt(m: MTree, ks: seq<int -> int>, rank: int -> int)
    requires Good(m, ks, rank) && ks != [] && m.Level?
    ensures Healthy(m.subs, Height(m.subs), KeyOf(ks[0], |ks| - 1)) && Sorted(KeyOf(ks[0], |ks| - 1), Items(m.subs))
  {}

  lemma HealthyShape<T>(t: Tree<T>, h: nat, rank: T -> int)
    requires Healthy(t, h, rank)
    ensures Shape(t, h)
  {}

  lemma SameOrder(s: seq<MTree>, ks: seq<int -> int>, x: int, made: MTree)
    requires ks != [] && Rep(made, |ks| - 1) == x
    ensures forall i :: 0 <= i < |s| ==> Compare(KeyOf(ks[0], |ks| - 1), made)(s[i]) == ToSub(ks, x)(s[i])
  {}

  lemma Inserted(m: MTree, ks: seq<int -> int>, x: int, made: MTree)
    requires ks != [] && m.Level? && SubOf(m, ks, x) == None
    ensures var s, f := Items(m.subs), ToSub(ks, x);
      var p := Rank(f, s);
      p <= |s| && SeqInsert(s, f, made) == s[..p] + [made] + s[p..]
  {}

  lemma GoodAdded(m: MTree, t: Tree<MTree>, ks: seq<int -> int>, rank: int -> int, made: MTree, p: nat)
    requires ks != [] && Good(m, ks, rank) && m.Level? && p <= |Items(m.subs)| && GoodSub(made, ks, rank)
    requires Items(t) == Items(m.subs)[..p] + [made] + Items(m.subs)[p..] && Healthy(t, Height(t), KeyOf(ks[0], |ks| - 1))
    ensures Good(Level(t), ks, rank)
  {
    var s := Items(m.subs);
    forall i | 0 <= i < |Items(t)| ensures GoodSub(Items(t)[i], ks, rank) {
      assert Items(t)[i] == if i < p then s[i] else if i == p then made else s[i - 1];
    }
  }

  // ---------- removal ----------

  ghost predicate TakeGood(m: MTree, ks: seq<int -> int>, rank: int -> int, x: int, r: MTree) {
    Good(r, ks, rank) && Flat(r, |ks|) == SeqRemove(Flat(m, |ks|), Order(ks, rank, x))
  }

  /** Removing keeps every level sound, and does to the items what it does to one sequence in the
      order of all keys. */
  lemma {:induction false} TakeSound(m: MTree, ks: seq<int -> int>, rank: int -> int, x: int)
    requires Good(m, ks, rank)
    ensures TakeGood(m, ks, rank, x, Take(m, ks, rank, x))
    decreases |ks|
  {
    hide *;
    if ks == [] {
      TakeBase(m, rank, x);
    } else {
      GoodLevel(m, ks, rank, x);
      TakeIs(m, ks, rank, x);
      var sub := SubOf(m, ks, x);
      if sub.None? {
        TakeNone(m, ks, rank, x);
      } else {
        var left := Take(sub.value, ks[1..], rank, x);
        TakeSound(sub.value, ks[1..], rank, x);
        TakeGoodIs(sub.value, ks[1..], rank, x, left);
        EmptyFlat(left, ks[1..], rank);
        if IsEmpty(left) {
          TakeLast(m, ks, rank, x, sub.value);
        } else {
          TakeFound(m, ks, rank, x, sub.value, left);
        }
      }
    }
  }

  lemma TakeGoodIs(m: MTree, ks: seq<int -> int>, rank: int -> int, x: int, r: MTree)
    ensures TakeGood(m, ks, rank, x, r) <==> Good(r, ks, rank) && Flat(r, |ks|) == SeqRemove(Flat(m, |ks|), Order(ks, rank, x))
  {}

  lemma TakeIs(m: MTree, ks: seq<int -> int>, rank: int -> int, x: int)
    requires Good(m, ks, rank) && ks != []
    ensures m.Level? && Shape(m.subs, Height(m.subs))
    ensures SubOf(m, ks, x).None? ==> Take(m, ks, rank, x) == m
    ensures SubOf(m, ks, x).Some? ==>
      var sub, k := SubOf(m, ks, x).value, KeyOf(ks[0], |ks| - 1);
      && Good(sub, ks[1..], rank) && Height(m.subs) > 0 && m.subs.Node? && |m.subs.keys| > 0
      && Take(m, ks, rank, x) ==
        if IsEmpty(Take(sub, ks[1..], rank, x)) then Level(Trim(Remove(m.subs, Height(m.subs), Compare(k, sub)).tree))
        else Level(SetKey(m.subs, Height(m.subs), ToSub(ks, x), Take(sub, ks[1..], rank, x)))
  {
    GoodLevel(m, ks, rank, x);
  }

  lemma TakeBase(m: MTree, rank: int -> int, x: int)
    requires Good(m, [], rank)
    ensures TakeGood(m, [], rank, x, Take(m, [], rank, x))
  {
    var h, f, s := Height(m.items), Compare(rank, x), Items(m.items);
    GoodBase(m, rank);
    Agree(s, f, Order([], rank, x), x);
    if m.items.Node? {
      hide Items, SeqRemove, Remove, Trim, Height, Shape;
      SortedStrict(rank, s, x);
      RemoveItems(m.items, h, f);
      RemoveKeepsHealthy(m.items, h, rank, x);
      RemovedRoot(m.items, h, f);
      TrimSound(Trim(Remove(m.items, h, f).tree), h, rank);
    }
  }

  lemma TrimSound<T>(t: Tree<T>, h: nat, rank: T -> int)
    requires h > 0 && (Healthy(t, h, rank) || Healthy(t, h - 1, rank))
    ensures Sound(t, rank)
  {
    if Healthy(t, h, rank) { HeightIs(t, h); } else { HeightIs(t, h - 1); }
  }

  lemma TakeNone(m: MTree, ks: seq<int -> int>, rank: int -> int, x: int)
    requires Good(m, ks, rank) && ks != [] && m.Level? && SubOf(m, ks, x) == None
    ensures TakeGood(m, ks, rank, x, m)
  {
    hide *;
    PlaceOf(m, ks, rank, x);
    LevelNone(Items(m.subs), ks, rank, x, Rank(ToSub(ks, x), Items(m.subs)), m);
    FlatIs(m, ks);
    TakeGoodIs(m, ks, rank, x, m);
  }

  lemma TakeFound(m: MTree, ks: seq<int -> int>, rank: int -> int, x: int, sub: MTree, left: MTree)
    requires Good(m, ks, rank) && ks != [] && m.Level? && SubOf(m, ks, x) == Some(sub) && Shape(m.subs, Height(m.subs))
    requires TakeGood(sub, ks[1..], rank, x, left) && Flat(left, |ks| - 1) != []
    ensures TakeGood(m, ks, rank, x, Level(SetKey(m.subs, Height(m.subs), ToSub(ks, x), left)))
  {
    hide *;
    var s, n := Items(m.subs), |ks| - 1;
    GoodLevel(m, ks, rank, x);
    PlaceOf(m, ks, rank, x);
    FoundEqual(m, ks, x, sub);
    TakeGoodIs(sub, ks[1..], rank, x, left);
    RemoveMembers(Flat(sub, n), Order(ks[1..], rank, x), x);
    GoodSubKept(sub, left, ks, rank, x);
    LevelSet(m, ks, rank, x, sub, left);
    LevelFound(s, ks, rank, x, Rank(ToSub(ks, x), s), left);
    FlatIs(m, ks);
    FlatIs(Level(SetKey(m.subs, Height(m.subs), ToSub(ks, x), left)), ks);
    TakeGoodIs(m, ks, rank, x, Level(SetKey(m.subs, Height(m.subs), ToSub(ks, x), left)));
  }

  lemma RemoveMembers(s: seq<int>, f: int -> int, x: int)
    ensures Within(SeqRemove(s, f), x, s)
  {}

  /** The last item under a key takes the subtree with it. */
  lemma TakeLast(m: MTree, ks: seq<int -> int>, rank: int -> int, x: int, sub: MTree)
    requires Good(m, ks, rank) && ks != [] && m.Level? && SubOf(m, ks, x) == Some(sub) && Shape(m.subs, Height(m.subs))
    requires Height(m.subs) > 0 && m.subs.Node? && |m.subs.keys| > 0
    requires SeqRemove(Flat(sub, |ks| - 1), Order(ks[1..], rank, x)) == []
    ensures TakeGood(m, ks, rank, x, Level(Trim(Remove(m.subs, Height(m.subs), Compare(KeyOf(ks[0], |ks| - 1), sub)).tree)))
  {
    hide *;
    var s := Items(m.subs);
    var p, r := Rank(ToSub(ks, x), s), Level(Trim(Remove(m.subs, Height(m.subs), Compare(KeyOf(ks[0], |ks| - 1), sub)).tree));
    PlaceOf(m, ks, rank, x);
    FoundEqual(m, ks, x, sub);
    LevelDrop(m, ks, rank, x, sub);
    LevelFound(s, ks, rank, x, p, sub);
    FlatIs(m, ks);
    FlatIs(r, ks);
    TakeGoodIs(m, ks, rank, x, r);
  }

  lemma LevelDrop(m: MTree, ks: seq<int -> int>, rank: int -> int, x: int, sub: MTree)
    requires Good(m, ks, rank) && ks != [] && m.Level? && SubOf(m, ks, x) == Some(sub) && Shape(m.subs, Height(m.subs))
    requires Height(m.subs) > 0 && m.subs.Node? && |m.subs.keys| > 0
    ensures var r, s := Level(Trim(Remove(m.subs, Height(m.subs), Compare(KeyOf(ks[0], |ks| - 1), sub)).tree)), Items(m.subs);
      var p := Rank(ToSub(ks, x), s);
      Good(r, ks, rank) && p < |s| && Items(r.subs) == s[..p] + s[p + 1..]
  {
    hide *;
    var h, k, s := Height(m.subs), KeyOf(ks[0], |ks| - 1), Items(m.subs);
    var f := Compare(k, sub);
    SoundAt(m, ks, rank);
    FoundEqual(m, ks, x, sub);
    SortedStrict(k, s, sub);
    RemoveItems(m.subs, h, f);
    RemoveKeepsHealthy(m.subs, h, k, sub);
    RemovedRoot(m.subs, h, f);
    TrimSound(Trim(Remove(m.subs, h, f).tree), h, k);
    SameOrderSub(s, ks, x, sub);
    Agree(s, f, ToSub(ks, x), sub);
    RemovedAt(m, ks, x, sub);
    GoodDropped(m, Trim(Remove(m.subs, h, f).tree), ks, rank, Rank(ToSub(ks, x), s));
  }

  lemma SameOrderSub(s: seq<MTree>, ks: seq<int -> int>, x: int, sub: MTree)
    requires ks != [] && ToSub(ks, x)(sub) == 0
    ensures forall i :: 0 <= i < |s| ==> Compare(KeyOf(ks[0], |ks| - 1), sub)(s[i]) == ToSub(ks, x)(s[i])
  {}

  lemma RemovedAt(m: MTree, ks: seq<int -> int>, x: int, sub: MTree)
    requires ks != [] && m.Level? && SubOf(m, ks, x) == Some(sub)
    ensures var s, f := Items(m.subs), ToSub(ks, x);
      var p := Rank(f, s);
      p < |s| && SeqRemove(s, f) == s[..p] + s[p + 1..]
  {}

  lemma GoodDropped(m: MTree, t: Tree<MTree>, ks: seq<int -> int>, rank: int -> int, p: nat)
    requires ks != [] && Good(m, ks, rank) && m.Level? && p < |Items(m.subs)|
    requires Items(t) == Items(m.subs)[..p] + Items(m.subs)[p + 1..] && Sound(t, KeyOf(ks[0], |ks| - 1))
    ensures Good(Level(t), ks, rank)
  {
    var s := Items(m.subs);
    forall i | 0 <= i < |Items(t)| ensures GoodSub(Items(t)[i], ks, rank) {
      assert Items(t)[i] == if i < p then s[i] else s[i + 1];
    }
  }

  // ---------- search by keys ----------

  predicate SameKeys(ks: seq<int -> int>, x: int, y: int) { forall i :: 0 <= i < |ks| ==> ks[i](x) == ks[i](y) }

  function Filter(s: seq<int>, ks: seq<int -> int>, x: int): seq<int> {
    if s == [] then [] else (if SameKeys(ks, x, s[0]) then [s[0]] else []) + Filter(s[1..], ks, x)
  }

  lemma {:induction false} FilterConcat(a: seq<int>, b: seq<int>, ks: seq<int -> int>, x: int)
    ensures Filter(a + b, ks, x) == Filter(a, ks, x) + Filter(b, ks, x)
  {
    hide SameKeys;
    if a == [] {
      assert a + b == b;
    } else {
      FilterConcat(a[1..], b, ks, x);
      assert (a + b)[1..] == a[1..] + b;
    }
  }

  lemma SameKeysFirst(ks: seq<int -> int>, x: int, y: int)
    requires ks != []
    ensures SameKeys(ks, x, y) <==> ks[0](x) == ks[0](y) && SameKeys(ks[1..], x, y)
  {
    if ks[0](x) == ks[0](y) && SameKeys(ks[1..], x, y) {
      forall i | 0 <= i < |ks| ensures ks[i](x) == ks[i](y) { assert i > 0 ==> ks[1..][i - 1] == ks[i]; }
    }
    if SameKeys(ks, x, y) {
      forall i | 0 <= i < |ks[1..]| ensures ks[1..][i](x) == ks[1..][i](y) { assert ks[1..][i] == ks[i + 1]; }
    }
  }

  /** Among items that all have one first key, the other keys select, or nothing does. */
  lemma {:induction false} FilterUniform(s: seq<int>, ks: seq<int -> int>, x: int, v: int)
    requires ks != [] && Uniform(ks[0], s, v)
    ensures Filter(s, ks, x) == if ks[0](x) == v then Filter(s, ks[1..], x) else []
    decreases |s|
  {
    if s != [] {
      SameKeysFirst(ks, x, s[0]);
      assert ks[0](s[0]) == v;
      assert forall i :: 0 <= i < |s[1..]| ==> s[1..][i] == s[i + 1];
      FilterUniform(s[1..], ks, x, v);
    }
  }

  lemma {:induction false} FilterSides(s: seq<MTree>, ks: seq<int -> int>, rank: int -> int, x: int)
    requires ks != [] && forall i :: 0 <= i < |s| ==> GoodSub(s[i], ks, rank) && ToSub(ks, x)(s[i]) != 0
    ensures Filter(FlatAll(s, |ks| - 1), ks, x) == []
    decreases |s|
  {
    if s != [] {
      var n := |ks| - 1;
      assert forall i :: 0 <= i < |s[1..]| ==> s[1..][i] == s[i + 1];
      FilterSides(s[1..], ks, rank, x);
      assert GoodSub(s[0], ks, rank) && ToSub(ks, x)(s[0]) != 0;
      FilterUniform(Flat(s[0], n), ks, x, ks[0](Rep(s[0], n)));
      FilterConcat(Flat(s[0], n), FlatAll(s[1..], n), ks, x);
    }
  }

  /** The search by keys gives exactly the items that have every key of the target, in their order. */
  lemma {:induction false} FindByKeysExact(m: MTree, ks: seq<int -> int>, rank: int -> int, x: int)
    requires Good(m, ks, rank)
    ensures FindByKeys(m, ks, rank, x) == Filter(Flat(m, |ks|), ks, x)
    decreases |ks|
  {
    hide *;
    if ks == [] {
      FindBase(m, rank, x);
    } else {
      FindIs(m, ks, rank, x);
      if SubOf(m, ks, x).Some? { FindByKeysExact(SubOf(m, ks, x).value, ks[1..], rank, x); }
      FindLevel(m, ks, rank, x);
    }
  }

  lemma {:induction false} AllSame(s: seq<int>, x: int)
    ensures Filter(s, [], x) == s
  {
    if s != [] { AllSame(s[1..], x); }
  }

  lemma FindBase(m: MTree, rank: int -> int, x: int)
    requires Good(m, [], rank)
    ensures FindByKeys(m, [], rank, x) == Filter(Flat(m, 0), [], x)
  {
    AllSame(Items(m.items), x);
  }

  lemma FindIs(m: MTree, ks: seq<int -> int>, rank: int -> int, x: int)
    requires Good(m, ks, rank) && ks != []
    ensures m.Level? && (SubOf(m, ks, x).Some? ==> Good(SubOf(m, ks, x).value, ks[1..], rank))
    ensures FindByKeys(m, ks, rank, x) == if SubOf(m, ks, x).Some? then FindByKeys(SubOf(m, ks, x).value, ks[1..], rank, x) else []
  {
    GoodLevel(m, ks, rank, x);
  }

  lemma FindLevel(m: MTree, ks: seq<int -> int>, rank: int -> int, x: int)
    requires Good(m, ks, rank) && ks != [] && m.Level?
    ensures Filter(Flat(m, |ks|), ks, x) == if SubOf(m, ks, x).Some? then Filter(Flat(SubOf(m, ks, x).value, |ks| - 1), ks[1..], x) else []
  {
    hide *;
    var s, n, f := Items(m.subs), |ks| - 1, ToSub(ks, x);
    var p := Rank(f, s);
    PlaceOf(m, ks, rank, x);
    FlatIs(m, ks);
    if SubOf(m, ks, x).Some? {
      PlacedSides(s, ks, rank, x, p, p + 1);
      PlacedAt(s, ks, rank, x, p);
      FoundKey(s[p], ks, rank, x);
      FilterSides(s[..p], ks, rank, x);
      FilterSides(s[p + 1..], ks, rank, x);
      FilterUniform(Flat(s[p], n), ks, x, ks[0](Rep(s[p], n)));
      FlatAround(s, p, n);
      FilterConcat(FlatAll(s[..p], n) + Flat(s[p], n), FlatAll(s[p + 1..], n), ks, x);
      FilterConcat(FlatAll(s[..p], n), Flat(s[p], n), ks, x);
    } else {
      PlacedSides(s, ks, rank, x, p, p);
      FilterSides(s[..p], ks, rank, x);
      FilterSides(s[p..], ks, rank, x);
      assert s[..p] + s[p..] == s;
      FlatConcat(s[..p], s[p..], n);
      FilterConcat(FlatAll(s[..p], n), FlatAll(s[p..], n), ks, x);
    }
  }

  lemma FoundKey(sub: MTree, ks: seq<int -> int>, rank: int -> int, x: int)
    requires ks != [] && GoodSub(sub, ks, rank) && ToSub(ks, x)(sub) == 0
    ensures Uniform(ks[0], Flat(sub, |ks| - 1), ks[0](Rep(sub, |ks| - 1))) && ks[0](x) == ks[0](Rep(sub, |ks| - 1))
  {}

  lemma PlacedSides(s: seq<MTree>, ks: seq<int -> int>, rank: int -> int, x: int, p: nat, q: nat)
    requires ks != [] && p <= q <= |s| && Placed(s, ks, rank, x, p, q)
    ensures forall i :: 0 <= i < p ==> GoodSub(s[..p][i], ks, rank) && ToSub(ks, x)(s[..p][i]) != 0
    ensures forall i :: 0 <= i < |s| - q ==> GoodSub(s[q..][i], ks, rank) && ToSub(ks, x)(s[q..][i]) != 0
  {
    hide GoodSub, ToSub;
  }

  // ---------- search for one item ----------

  /** The search in the tree of a level, by the keys of the nodes on the way down. */
  function Descend<T>(t: Tree<T>, h: nat, f: T -> int): Option<T>
    requires Shape(t, h)
  {
    if h == 0 then None
    else
      var p := Rank(f, t.keys);
      if HasEqual(f, t.keys) then Some(t.keys[p]) else Descend(t.kids[p], h - 1, f)
  }

  lemma {:induction false} DescendFinds<T>(t: Tree<T>, h: nat, f: T -> int)
    requires Shape(t, h) && Strict(f, Items(t))
    ensures Descend(t, h, f) == SeqFind(Items(t), f)
  {
    if h > 0 {
      var p := Rank(f, t.keys);
      DescendNode(t, h, f);
      if !HasEqual(f, t.keys) { DescendFinds(t.kids[p], h - 1, f); }
    }
  }

  lemma DescendNode<T>(t: Tree<T>, h: nat, f: T -> int)
    requires Shape(t, h) && h > 0 && Strict(f, Items(t))
    ensures var p := Rank(f, t.keys);
      && (HasEqual(f, t.keys) ==> SeqFind(Items(t), f) == Some(t.keys[p]))
      && (!HasEqual(f, t.keys) ==> Strict(f, Items(t.kids[p])) && SeqFind(Items(t), f) == SeqFind(Items(t.kids[p]), f))
  {
    var keys, kids, p := t.keys, t.kids, Rank(f, t.keys);
    RankSplits(f, keys);
    StrictKeys(f, keys, kids);
    assert t == Node(keys, kids);
    if HasEqual(f, keys) {
      var a, c := Before(keys[..p], kids[..p]) + Items(kids[p]), Items(kids[p + 1]) + After(keys[p + 1..], kids[p + 2..]);
      hide Items, Before, After, Strict;
      FoundSplits(f, keys, kids, p, a, c);
      RankFrame(f, a, [keys[p]], c);
    } else {
      var a, c := Before(keys[..p], kids[..p]), After(keys[p..], kids[p + 1..]);
      hide Items, Before, After, Strict;
      ChildSplits(f, keys, kids, p, a, c);
      RankFrame(f, a, Items(kids[p]), c);
    }
  }

  /** The subtree of a key is what the descent finds. */
  lemma SubDescends(m: MTree, ks: seq<int -> int>, rank: int -> int, x: int)
    requires Good(m, ks, rank) && ks != []
    ensures m.Level? && Shape(m.subs, Height(m.subs)) && SubOf(m, ks, x) == Descend(m.subs, Height(m.subs), ToSub(ks, x))
  {
    GoodLevel(m, ks, rank, x);
    DescendFinds(m.subs, Height(m.subs), ToSub(ks, x));
  }

  /** The stored item that equals x: by each key in turn, and then by rank. */
  function Lookup(m: MTree, ks: seq<int -> int>, rank: int -> int, x: int): Option<int>
    requires Good(m, ks, rank)
    decreases |ks|
  {
    if ks == [] then
      GoodBase(m, rank);
      Descend(m.items, Height(m.items), Compare(rank, x))
    else
      SubDescends(m, ks, rank, x);
      GoodLevel(m, ks, rank, x);
      var sub := Descend(m.subs, Height(m.subs), ToSub(ks, x));
      if sub.Some? then Lookup(sub.value, ks[1..], rank, x) else None
  }

  /** Descending by keys and nodes finds the one item of the whole sequence that equals x, or nothing. */
  lemma {:induction false} LookupExact(m: MTree, ks: seq<int -> int>, rank: int -> int, x: int)
    requires Good(m, ks, rank)
    ensures Lookup(m, ks, rank, x) == SeqFind(Flat(m, |ks|), Order(ks, rank, x))
    decreases |ks|
  {
    hide *;
    if ks == [] {
      LookupBase(m, rank, x);
    } else {
      LookupIs(m, ks, rank, x);
      if SubOf(m, ks, x).Some? { LookupExact(SubOf(m, ks, x).value, ks[1..], rank, x); }
      LevelLookup(m, ks, rank, x);
    }
  }

  lemma LookupBase(m: MTree, rank: int -> int, x: int)
    requires Good(m, [], rank)
    ensures Lookup(m, [], rank, x) == SeqFind(Flat(m, 0), Order([], rank, x))
  {
    GoodBase(m, rank);
    SortedStrict(rank, Items(m.items), x);
    DescendFinds(m.items, Height(m.items), Compare(rank, x));
    FindAgrees(Items(m.items), Compare(rank, x), Order([], rank, x));
  }

  lemma {:induction false} FindAgrees<T>(s: seq<T>, f: T -> int, g: T -> int)
    requires forall i :: 0 <= i < |s| ==> f(s[i]) == g(s[i])
    ensures Rank(f, s) == Rank(g, s) && SeqFind(s, f) == SeqFind(s, g)
  {
    if s != [] {
      assert forall i :: 0 <= i < |s[1..]| ==> s[1..][i] == s[i + 1];
      FindAgrees(s[1..], f, g);
    }
  }

  lemma LookupIs(m: MTree, ks: seq<int -> int>, rank: int -> int, x: int)
    requires Good(m, ks, rank) && ks != []
    ensures m.Level? && (SubOf(m, ks, x).Some? ==> Good(SubOf(m, ks, x).value, ks[1..], rank))
    ensures Lookup(m, ks, rank, x) == if SubOf(m, ks, x).Some? then Lookup(SubOf(m, ks, x).value, ks[1..], rank, x) else None
  {
    GoodLevel(m, ks, rank, x);
    SubDescends(m, ks, rank, x);
  }

  lemma LevelLookup(m: MTree, ks: seq<int -> int>, rank: int -> int, x: int)
    requires Good(m, ks, rank) && ks != [] && m.Level?
    ensures SeqFind(Flat(m, |ks|), Order(ks, rank, x)) ==
      if SubOf(m, ks, x).Some? then SeqFind(Flat(SubOf(m, ks, x).value, |ks| - 1), Order(ks[1..], rank, x)) else None
  {
    hide *;
    var s, n, f := Items(m.subs), |ks| - 1, Order(ks, rank, x);
    var p := Rank(ToSub(ks, x), s);
    PlaceOf(m, ks, rank, x);
    FlatIs(m, ks);
    if SubOf(m, ks, x).Some? {
      SidesOf(s, ks, rank, x, p, p + 1);
      PlacedAt(s, ks, rank, x, p);
      SubFinds(s[p], ks, rank, x);
      FlatAround(s, p, n);
      RankFrame(f, FlatAll(s[..p], n), Flat(s[p], n), FlatAll(s[p + 1..], n));
    } else {
      SidesOf(s, ks, rank, x, p, p);
      assert s[..p] + s[p..] == s;
      FlatConcat(s[..p], s[p..], n);
      assert FlatAll(s[..p], n) + [] + FlatAll(s[p..], n) == FlatAll(s, n);
      RankFrame(f, FlatAll(s[..p], n), [], FlatAll(s[p..], n));
      NoneEqual(f);
    }
  }

  lemma SubFinds(sub: MTree, ks: seq<int -> int>, rank: int -> int, x: int)
    requires ks != [] && GoodSub(sub, ks, rank) && ToSub(ks, x)(sub) == 0
    ensures var b := Flat(sub, |ks| - 1); SeqFind(b, Order(ks, rank, x)) == SeqFind(b, Order(ks[1..], rank, x))
  {
    var b, f, g := Flat(sub, |ks| - 1), Order(ks, rank, x), Order(ks[1..], rank, x);
    forall i | 0 <= i < |b| ensures f(b[i]) == g(b[i]) { assert ks[0](b[i]) == ks[0](x); }
    FindAgrees(b, f, g);
  }

  /** The item that a removal gives back. */
  function Taken(m: MTree, ks: seq<int -> int>, rank: int -> int, x: int): Option<int>
    requires Good(m, ks, rank)
    decreases |ks|
  {
    if ks == [] then
      GoodBase(m, rank);
      if m.items.Nil? then None else Remove(m.items, Height(m.items), Compare(rank, x)).item
    else
      GoodLevel(m, ks, rank, x);
      if SubOf(m, ks, x).Some? then Taken(SubOf(m, ks, x).value, ks[1..], rank, x) else None
  }

  /** A removal gives back the item that the search finds, and leaves the sequence without it. */
  lemma {:induction false} TakenExact(m: MTree, ks: seq<int -> int>, rank: int -> int, x: int)
    requires Good(m, ks, rank)
    ensures Taken(m, ks, rank, x) == Lookup(m, ks, rank, x) == SeqFind(Flat(m, |ks|), Order(ks, rank, x))
    ensures TakeGood(m, ks, rank, x, Take(m, ks, rank, x))
    decreases |ks|
  {
    hide *;
    TakeSound(m, ks, rank, x);
    LookupExact(m, ks, rank, x);
    if ks == [] {
      TakenBase(m, rank, x);
    } else {
      LookupIs(m, ks, rank, x);
      TakenIs(m, ks, rank, x);
      if SubOf(m, ks, x).Some? { TakenExact(SubOf(m, ks, x).value, ks[1..], rank, x); }
    }
  }

  lemma TakenBase(m: MTree, rank: int -> int, x: int)
    requires Good(m, [], rank)
    ensures Taken(m, [], rank, x) == Lookup(m, [], rank, x)
  {
    GoodBase(m, rank);
    var h, f, s := Height(m.items), Compare(rank, x), Items(m.items);
    SortedStrict(rank, s, x);
    DescendFinds(m.items, h, f);
    if m.items.Node? { RemoveItems(m.items, h, f); }
  }

  lemma TakenIs(m: MTree, ks: seq<int -> int>, rank: int -> int, x: int)
    requires Good(m, ks, rank) && ks != []
    ensures m.Level? && (SubOf(m, ks, x).Some? ==> Good(SubOf(m, ks, x).value, ks[1..], rank))
    ensures Taken(m, ks, rank, x) == if SubOf(m, ks, x).Some? then Taken(SubOf(m, ks, x).value, ks[1..], rank, x) else None
  {
    GoodLevel(m, ks, rank, x);
  }

  lemma NoneEqual(f: int -> int)
    ensures !HasEqual(f, []) && SeqFind([], f) == None
  {}

  // ---------- runs ----------

  datatype Op = In(x: int) | Out(x: int)

  datatype Store = Store(tree: MTree, numItems: int)

  /** A tree and its count, after a run of insertions and removals. */
  function AfterRun(ops: seq<Op>, ks: seq<int -> int>, rank: int -> int): (r: Store)
    ensures Good(r.tree, ks, rank) && r.numItems == |Flat(r.tree, |ks|)|
    decreases |ops|
  {
    if ops == [] then
      EmptyGood(ks, rank);
      Store(Empty(|ks|), 0)
    else
      var before, op := AfterRun(ops[..|ops| - 1], ks, rank), ops[|ops| - 1];
      var found := Lookup(before.tree, ks, rank, op.x).Some?;
      OpSound(before.tree, ks, rank, op.x);
      if op.In? then Store(Put(before.tree, ks, rank, op.x), before.numItems + if found then 0 else 1)
      else Store(Take(before.tree, ks, rank, op.x), before.numItems - if found then 1 else 0)
  }

  lemma OpSound(m: MTree, ks: seq<int -> int>, rank: int -> int, x: int)
    requires Good(m, ks, rank)
    ensures var n, found, put, take := |ks|, Lookup(m, ks, rank, x).Some?, Put(m, ks, rank, x), Take(m, ks, rank, x);
      && Good(put, ks, rank) && |Flat(put, n)| == |Flat(m, n)| + (if found then 0 else 1)
      && Good(take, ks, rank) && |Flat(take, n)| == |Flat(m, n)| - (if found then 1 else 0)
  {
    PutSound(m, ks, rank, x);
    TakeSound(m, ks, rank, x);
    LookupExact(m, ks, rank, x);
    hide Good, Flat, Order, Put, Take, Lookup;
  }

  /** The items in the order of all keys, after a run. */
  function Sequence(ops: seq<Op>, ks: seq<int -> int>, rank: int -> int): seq<int>
    decreases |ops|
  {
    if ops == [] then []
    else
      var s, op := Sequence(ops[..|ops| - 1], ks, rank), ops[|ops| - 1];
      if op.In? then SeqInsert(s, Order(ks, rank, op.x), op.x) else SeqRemove(s, Order(ks, rank, op.x))
  }

  /** After any run the levels together hold that sequence, the count is its length, and a search by
      keys finds exactly its items with those keys. */
  lemma {:induction false} RunExact(ops: seq<Op>, ks: seq<int -> int>, rank: int -> int, x: int)
    ensures var r, s := AfterRun(ops, ks, rank), Sequence(ops, ks, rank);
      Flat(r.tree, |ks|) == s && r.numItems == |s| && FindByKeys(r.tree, ks, rank, x) == Filter(s, ks, x)
    decreases |ops|
  {
    var r := AfterRun(ops, ks, rank);
    if ops == [] {
      EmptyGood(ks, rank);
    } else {
      var before, op := AfterRun(ops[..|ops| - 1], ks, rank), ops[|ops| - 1];
      RunExact(ops[..|ops| - 1], ks, rank, x);
      PutSound(before.tree, ks, rank, op.x);
      TakeSound(before.tree, ks, rank, op.x);
      hide Good, Flat, Order, Put, Take, Lookup, SeqInsert, SeqRemove, FindByKeys;
    }
    FindByKeysExact(r.tree, ks, rank, x);
  }
}
