/** What a join looks for and what the index of a memory yields. */
module Indexes {
  import opened Wrappers
  import opened Tuples
  import opened Joins
  import opened BTreeModel
  import opened BTreeHealth
  import M = MultiTree
  import W = TimeWindow
  import A = AndNodes

  // ---------- every item once ----------

  lemma StrictFrame<T>(f: T -> int, a: seq<T>, b: seq<T>, c: seq<T>)
    requires AllBefore(f, a) && AllBeyond(f, c) && Strict(f, b)
    ensures Strict(f, a + b + c)
  {}

  lemma {:induction false} LexSelf(ks: seq<int -> int>, rank: int -> int, x: int)
    ensures M.Lex(ks, rank, x, x) == 0
  {
    if ks != [] { LexSelf(ks[1..], rank, x); }
  }

  lemma StrictAs<T>(f: T -> int, g: T -> int, s: seq<T>)
    requires Strict(g, s) && forall i :: 0 <= i < |s| ==> f(s[i]) == g(s[i])
    ensures Strict(f, s)
  {}

  /** The items of all levels are in the order of all keys and the rank, without equals. */
  lemma {:induction false} FlatStrict(m: M.MTree, ks: seq<int -> int>, rank: int -> int, x: int)
    requires M.Good(m, ks, rank)
    ensures Strict(M.Order(ks, rank, x), M.Flat(m, |ks|))
    decreases |ks|
  {
    hide *;
    if ks == [] {
      BaseStrict(m, rank, x);
    } else {
      M.GoodLevel(m, ks, rank, x);
      if M.SubOf(m, ks, x).Some? { FlatStrict(M.SubOf(m, ks, x).value, ks[1..], rank, x); }
      LevelStrict(m, ks, rank, x);
    }
  }

  lemma BaseStrict(m: M.MTree, rank: int -> int, x: int)
    requires M.Good(m, [], rank)
    ensures Strict(M.Order([], rank, x), M.Flat(m, 0))
  {
    SortedStrict(rank, Items(m.items), x);
    StrictAs(M.Order([], rank, x), Compare(rank, x), Items(m.items));
  }

  lemma LevelStrict(m: M.MTree, ks: seq<int -> int>, rank: int -> int, x: int)
    requires M.Good(m, ks, rank) && ks != [] && m.Level?
    requires M.SubOf(m, ks, x).Some? ==> Strict(M.Order(ks[1..], rank, x), M.Flat(M.SubOf(m, ks, x).value, |ks| - 1))
    ensures Strict(M.Order(ks, rank, x), M.Flat(m, |ks|))
  {
    hide *;
    var s, n, f := Items(m.subs), |ks| - 1, M.Order(ks, rank, x);
    var p := Rank(M.ToSub(ks, x), s);
    M.PlaceOf(m, ks, rank, x);
    M.FlatIs(m, ks);
    if M.SubOf(m, ks, x).Some? {
      M.SidesOf(s, ks, rank, x, p, p + 1);
      M.PlacedAt(s, ks, rank, x, p);
      SubStrict(s[p], ks, rank, x);
      M.FlatAround(s, p, n);
      StrictFrame(f, M.FlatAll(s[..p], n), M.Flat(s[p], n), M.FlatAll(s[p + 1..], n));
    } else {
      M.SidesOf(s, ks, rank, x, p, p);
      assert s[..p] + s[p..] == s;
      M.FlatConcat(s[..p], s[p..], n);
      assert M.FlatAll(s[..p], n) + [] + M.FlatAll(s[p..], n) == M.FlatAll(s, n);
      NothingStrict(f);
      StrictFrame(f, M.FlatAll(s[..p], n), [], M.FlatAll(s[p..], n));
    }
  }

  lemma NothingStrict<T>(f: T -> int)
    ensures Strict(f, [])
  {}

  lemma SubStrict(sub: M.MTree, ks: seq<int -> int>, rank: int -> int, x: int)
    requires ks != [] && M.GoodSub(sub, ks, rank) && M.ToSub(ks, x)(sub) == 0
    requires Strict(M.Order(ks[1..], rank, x), M.Flat(sub, |ks| - 1))
    ensures Strict(M.Order(ks, rank, x), M.Flat(sub, |ks| - 1))
  {
    var b, f, g := M.Flat(sub, |ks| - 1), M.Order(ks, rank, x), M.Order(ks[1..], rank, x);
    forall i | 0 <= i < |b| ensures f(b[i]) == g(b[i]) { assert ks[0](b[i]) == ks[0](x); }
    StrictAs(f, g, b);
  }

  ghost predicate NoneTwice<T>(s: seq<T>) { forall i, j :: 0 <= i < j < |s| ==> s[i] != s[j] }

  lemma FlatOnce(m: M.MTree, ks: seq<int -> int>, rank: int -> int)
    requires M.Good(m, ks, rank)
    ensures NoneTwice(M.Flat(m, |ks|))
  {
    var s := M.Flat(m, |ks|);
    forall i, j | 0 <= i < j < |s| ensures s[i] != s[j] {
      FlatStrict(m, ks, rank, s[i]);
      LexSelf(ks, rank, s[i]);
      assert M.Order(ks, rank, s[i])(s[i]) == 0;
    }
  }

  lemma {:induction false} FilterOnce(s: seq<int>, ks: seq<int -> int>, x: int)
    requires NoneTwice(s)
    ensures NoneTwice(M.Filter(s, ks, x))
    ensures forall y :: y in M.Filter(s, ks, x) <==> y in s && M.SameKeys(ks, x, y)
  {
    hide M.SameKeys;
    if s != [] {
      assert forall i, j :: 0 <= i < j < |s[1..]| ==> s[1..][i] == s[i + 1] && s[1..][j] == s[j + 1];
      FilterOnce(s[1..], ks, x);
      assert s == [s[0]] + s[1..];
    }
  }

  // ---------- what the index yields ----------

  /** The keys of an item. */
  function KeyVector(ks: seq<int -> int>, y: int): seq<int> { seq(|ks|, i requires 0 <= i < |ks| => ks[i](y)) }

  lemma SameVector(ks: seq<int -> int>, x: int, y: int)
    ensures M.SameKeys(ks, x, y) <==> KeyVector(ks, x) == KeyVector(ks, y)
  {
    if KeyVector(ks, x) == KeyVector(ks, y) {
      forall i | 0 <= i < |ks| ensures ks[i](x) == ks[i](y) {
        assert KeyVector(ks, x)[i] == KeyVector(ks, y)[i];
      }
    }
  }

  /** The objects that the items of an index stand for. */
  function Objects(obj: int -> Obj, s: seq<int>): seq<Obj> { seq(|s|, i requires 0 <= i < |s| => obj(s[i])) }

  ghost predicate Apart(obj: int -> Obj, s: seq<int>) {
    forall y, z :: y in s && z in s && obj(y) == obj(z) ==> y == z
  }

  ghost function Contents(obj: int -> Obj, s: seq<int>): set<Obj> { set y | y in s :: obj(y) }

  lemma {:induction false} OnceEach(obj: int -> Obj, s: seq<int>)
    requires NoneTwice(s) && Apart(obj, s)
    ensures multiset(Objects(obj, s)) == multiset(Contents(obj, s))
  {
    if s == [] {
      assert Objects(obj, s) == [];
    } else {
      var n := |s| - 1;
      var t, last := s[..n], s[n];
      assert s == t + [last] && forall i :: 0 <= i < n ==> t[i] == s[i];
      OnceEach(obj, t);
      assert Objects(obj, s) == Objects(obj, t) + [obj(last)];
      assert last !in t;
      assert obj(last) !in Contents(obj, t);
      assert Contents(obj, s) == Contents(obj, t) + {obj(last)};
    }
  }

  /** With x for what main looks for, and every item with the keys of its object, the index yields exactly the
      items that a join looks for, each once. */
  lemma IndexFinds(c: Cond, side: Side, main: Obj, m: M.MTree, ks: seq<int -> int>, rank: int -> int, x: int, obj: int -> Obj)
    requires M.Good(m, ks, rank)
    requires Apart(obj, M.Flat(m, |ks|)) && KeyVector(ks, x) == c.Key(side, main)
    requires forall y :: y in M.Flat(m, |ks|) ==> c.Key(Other(side), obj(y)) == KeyVector(ks, y)
    ensures multiset(Objects(obj, M.FindByKeys(m, ks, rank, x))) == multiset(c.Found(side, main, Contents(obj, M.Flat(m, |ks|))))
  {
    hide M.Good, M.Flat, M.FindByKeys, M.SameKeys, M.Filter, KeyVector, Objects;
    var s := M.Flat(m, |ks|);
    M.FindByKeysExact(m, ks, rank, x);
    FlatOnce(m, ks, rank);
    FilterOnce(s, ks, x);
    var found := M.Filter(s, ks, x);
    OnceEach(obj, found);
    forall y | y in s ensures y in found <==> c.Key(Other(side), obj(y)) == c.Key(side, main) {
      SameVector(ks, x, y);
    }
    assert Contents(obj, found) == c.Found(side, main, Contents(obj, s));
  }

  // ---------- a window besides the keys ----------

  lemma {:induction false} FoundSorted(m: M.MTree, ks: seq<int -> int>, rank: int -> int, x: int)
    requires M.Good(m, ks, rank)
    ensures Sorted(rank, M.FindByKeys(m, ks, rank, x))
    decreases |ks|
  {
    if ks != [] {
      M.FindIs(m, ks, rank, x);
      if M.SubOf(m, ks, x).Some? { FoundSorted(M.SubOf(m, ks, x).value, ks[1..], rank, x); }
    }
  }

  /** With index keys, the search for the limit goes on in the subtree of the keys of x: the items there are
      in an order that it can use, and scanning from any place it may stop at finds the items of the whole
      memory that have the keys and are in the window. Where a side is not timed, all with the keys are scanned. */
  lemma KeyedPartners(m: M.MTree, ks: seq<int -> int>, rank: int -> int, x: int, l: W.Look<int>, pre: seq<int>, found: seq<int>)
    requires M.Good(m, ks, rank) && W.LatestFirst(rank, l.span) && M.FindByKeys(m, ks, rank, x) == pre + found
    requires if l.timedMine && l.timedOther then forall i :: 0 <= i < |pre| ==> l.Late()(pre[i]) >= 0 else pre == []
    ensures Mono(l.Late(), M.FindByKeys(m, ks, rank, x))
    ensures W.Filter(found, l) == W.Filter(M.Filter(M.Flat(m, |ks|), ks, x), l)
    ensures forall y :: y in W.Filter(found, l) <==> y in M.Flat(m, |ks|) && M.SameKeys(ks, x, y) && l.Near(y)
  {
    hide *;
    M.FindByKeysExact(m, ks, rank, x);
    FoundSorted(m, ks, rank, x);
    W.LateIs(l);
    W.LatestMono(rank, l.span, l.mine.t1 + l.window + 1, M.FindByKeys(m, ks, rank, x));
    W.FilterConcat(pre, found, l);
    if l.timedMine && l.timedOther { W.NoneTooLate(pre, l); } else { W.FilterEmpty(l); }
    assert [] + W.Filter(found, l) == W.Filter(found, l);
    FlatOnce(m, ks, rank);
    FilterOnce(M.Flat(m, |ks|), ks, x);
    forall y { W.FilterMeans(M.Filter(M.Flat(m, |ks|), ks, x), l, y); }
  }
}
