/** The join of tuples that must lie within a time window: only a part of the other memory is scanned. */
module TimeWindow {
  import opened Wrappers
  import opened BTreeModel
  import opened BTreeRemove
  import opened BTreeHealth
  import opened BTreeNode
  import opened BTreeCursor
  import opened BTreeStore

  const LONG_MAX := 0x7FFF_FFFF_FFFF_FFFF

  /** An interval of time. */
  datatype Span = Span(t1: int, t2: int)

  function Min(a: int, b: int): int { if a < b then a else b }
  function Max(a: int, b: int): int { if a > b then a else b }

  /** The interval of a couple; a side that is not timed does not count. */
  function CompWindow(mine: Span, other: Span, timedMine: bool, timedOther: bool): Span {
    Span(
      Min(if timedMine then mine.t1 else LONG_MAX, if timedOther then other.t1 else LONG_MAX),
      Max(if timedMine then mine.t2 else 0, if timedOther then other.t2 else 0))
  }

  /** A couple is at most window long. */
  predicate InWindow(mine: Span, other: Span, timedMine: bool, timedOther: bool, window: int) {
    var c := CompWindow(mine, other, timedMine, timedOther); c.t2 - c.t1 <= window
  }

  /** Every end of the two intervals is at most window after every start. A side that is not timed ends at 0
      and starts at the latest time there is. */
  predicate Together(a: Span, b: Span, timedA: bool, timedB: bool, window: int) {
    if timedA && timedB then a.t2 - a.t1 <= window && b.t2 - b.t1 <= window && a.t2 - b.t1 <= window && b.t2 - a.t1 <= window
    else if timedA then Alone(a, window)
    else if timedB then Alone(b, window)
    else 0 - LONG_MAX <= window
  }

  predicate Alone(a: Span, window: int) {
    a.t2 - a.t1 <= window && 0 - a.t1 <= window && a.t2 - LONG_MAX <= window && 0 - LONG_MAX <= window
  }

  lemma InWindowMeans(mine: Span, other: Span, timedMine: bool, timedOther: bool, window: int)
    ensures InWindow(mine, other, timedMine, timedOther, window) <==> Together(mine, other, timedMine, timedOther, window)
  {}

  /** For times that a clock gives, a couple with one timed side is in the window exactly if that one is at most
      as long, and a couple with none always. */
  lemma OneTimed(a: Span, b: Span, timedA: bool, timedB: bool, window: int)
    requires 0 <= a.t1 <= LONG_MAX && 0 <= a.t2 <= LONG_MAX && 0 <= b.t1 <= LONG_MAX && 0 <= b.t2 <= LONG_MAX && window >= 0
    ensures !(timedA && timedB) ==>
      (InWindow(a, b, timedA, timedB, window) <==> (timedA ==> a.t2 - a.t1 <= window) && (timedB ==> b.t2 - b.t1 <= window))
  {}

  /** What the search compares: the other end of the item against the limit, highest first. */
  function CompareTw<T>(span: T -> Span, limit: int): T -> int { (x: T) => span(x).t2 - limit }

  /** The memory is ordered from the latest end to the earliest. */
  ghost predicate LatestFirst<T(!new)>(rank: T -> int, span: T -> Span) {
    forall a, b :: rank(a) < rank(b) ==> span(a).t2 >= span(b).t2
  }

  /** A rank that compares the ends of the intervals first, later ones before, and then something else. */
  lemma EndsFirst<T(!new)>(rank: T -> int, span: T -> Span, other: T -> int)
    requires forall a, b :: rank(a) < rank(b) <==> span(a).t2 > span(b).t2 || (span(a).t2 == span(b).t2 && other(a) < other(b))
    ensures LatestFirst(rank, span)
  {}

  lemma LatestMono<T(!new)>(rank: T -> int, span: T -> Span, limit: int, s: seq<T>)
    requires LatestFirst(rank, span) && Sorted(rank, s)
    ensures Mono(CompareTw(span, limit), s)
  {}

  /** What a tuple with the interval mine looks for: the items that are timed or not as it is, in the window. */
  datatype Look<!T> = Look(mine: Span, timedMine: bool, span: T -> Span, timedOther: bool, window: int) {
    predicate Sees(x: T) { InWindow(mine, span(x), timedMine, timedOther, window) }

    /** The same, said of the ends of the intervals. */
    predicate Near(x: T) { Together(mine, span(x), timedMine, timedOther, window) }

    /** Not negative for an item that ends too late, which the search skips. */
    function Late(): T -> int { CompareTw(span, mine.t1 + window + 1) }
  }

  function Filter<T>(s: seq<T>, l: Look<T>): seq<T> {
    if s == [] then [] else (if l.Sees(s[0]) then [s[0]] else []) + Filter(s[1..], l)
  }

  lemma {:induction false} FilterConcat<T>(a: seq<T>, b: seq<T>, l: Look<T>)
    ensures Filter(a + b, l) == Filter(a, l) + Filter(b, l)
  {
    if a == [] {
      assert a + b == b;
    } else {
      FilterConcat(a[1..], b, l);
      assert (a + b)[1..] == a[1..] + b;
    }
  }

  lemma LateIs<T>(l: Look<T>)
    ensures l.Late() == CompareTw(l.span, l.mine.t1 + l.window + 1)
  {}

  /** An item that ends at the limit or later cannot be in the window. */
  lemma {:induction false} NoneTooLate<T>(s: seq<T>, l: Look<T>)
    requires l.timedMine && l.timedOther
    requires forall i :: 0 <= i < |s| ==> l.Late()(s[i]) >= 0
    ensures Filter(s, l) == []
  {
    if s != [] {
      assert l.Late()(s[0]) >= 0;
      assert forall i :: 0 <= i < |s[1..]| ==> s[1..][i] == s[i + 1];
      NoneTooLate(s[1..], l);
    }
  }

  /** An item is seen exactly if it is near, and the items seen are those of s that are. */
  lemma {:induction false} FilterMeans<T>(s: seq<T>, l: Look<T>, x: T)
    ensures l.Sees(x) <==> l.Near(x)
    ensures x in Filter(s, l) <==> x in s && l.Near(x)
  {
    InWindowMeans(l.mine, l.span(x), l.timedMine, l.timedOther, l.window);
    if s != [] {
      FilterMeans(s[1..], l, x);
      InWindowMeans(l.mine, l.span(s[0]), l.timedMine, l.timedOther, l.window);
      assert s == [s[0]] + s[1..];
    }
  }

  lemma FilterEmpty<T>(l: Look<T>)
    ensures Filter([], l) == []
  {}

  lemma FilterOne<T>(s: seq<T>, x: T, l: Look<T>)
    ensures Filter(s + [x], l) == Filter(s, l) + if l.Sees(x) then [x] else []
  {
    FilterConcat(s, [x], l);
    assert Filter([x], l) == (if l.Sees(x) then [x] else []) + Filter([x][1..], l);
  }

  /** Those of the items a cursor has still to yield that are in the window. */
  method See(state: BTState, l: Look<Item>, ghost R: set<object>, ghost h: nat) returns (partners: seq<Item>)
    requires state.Valid(R, h) && h <= FRAMES
    modifies state, state.node, state.loc
    ensures partners == Filter(old(Remaining(state.frames)), l)
  {
    hide Remaining, BTState.Valid, Filter;
    ghost var all, items := Remaining(state.frames), [];
    partners := [];
    FilterEmpty(l);
    var item := state.Walk(R, h);
    Resume([], all);
    while item.Some?
      invariant state.Valid(R, h)
      invariant all == items + Next(item) + Remaining(state.frames) && partners == Filter(items, l)
      invariant item.None? ==> Remaining(state.frames) == []
      decreases |all| - |items|
    {
      FilterOne(items, item.value, l);
      if l.Sees(item.value) { partners := partners + [item.value]; }
      items := items + [item.value];
      Resume(items, Remaining(state.frames));
      item := state.Walk(R, h);
    }
    assert items == all;
  }

  /** The partners of a tuple: if both sides are timed, by scanning from the first item that ends before
      the limit on. A full scan of the memory finds the same ones. */
  method FindPartners(tree: BTree, l: Look<Item>) returns (partners: seq<Item>)
    requires tree.Valid() && tree.numItems < 120932351 && LatestFirst(tree.rank, l.span)
    ensures partners == Filter(tree.Contents(), l)
    ensures forall x :: x in partners <==> x in tree.Contents() && l.Near(x)
  {
    hide *;
    InOrder(tree, l);
    AllNear(tree.Contents(), l);
    var state;
    if l.timedMine && l.timedOther {
      ghost var pre;
      state, pre := tree.FindBiggerThan(l.Late());
      TooLate(pre, l);
      FilterConcat(pre, Remaining(state.frames), l);
    } else {
      state := tree.GetIterator();
    }
    OwnIs(state);
    partners := See(state, l, Area(tree.root), tree.height);
  }

  lemma OwnIs(state: BTState)
    ensures state.Own() == {state, state.node, state.loc}
  {}

  lemma InOrder(tree: BTree, l: Look<Item>)
    requires tree.Valid() && LatestFirst(tree.rank, l.span)
    ensures Mono(l.Late(), tree.Contents())
  {
    assert Sorted(tree.rank, tree.Contents());
    LatestMono(tree.rank, l.span, l.mine.t1 + l.window + 1, tree.Contents());
  }

  lemma AllNear(s: seq<Item>, l: Look<Item>)
    ensures forall x :: x in Filter(s, l) <==> x in s && l.Near(x)
  {
    forall x { FilterMeans(s, l, x); }
  }

  lemma TooLate(pre: seq<Item>, l: Look<Item>)
    requires l.timedMine && l.timedOther && NoneBeyond(l.Late(), pre)
    ensures Filter(pre, l) == [] && forall s :: [] + Filter(s, l) == Filter(s, l)
  {
    NoneTooLate(pre, l);
  }
}
