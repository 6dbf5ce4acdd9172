/** Moving a filter up the network so that it can be shared, without changing what reaches where. */
module Hoisting {
  /** A network of filters: what is at the end of its paths, and the code that is passed on the way. */
  datatype Net = End(id: int) | Filter(code: int, kids: Forest)
  datatype Forest = NoNets | Nets(first: Net, rest: Forest)

  /** The ends that are reached, each with the set of conditions on the path to it. */
  function Paths(t: Net, above: set<int>): multiset<(int, set<int>)> {
    match t case End(id) => multiset{(id, above)} case Filter(c, kids) => AllPaths(kids, above + {c})
  }

  function AllPaths(s: Forest, above: set<int>): multiset<(int, set<int>)> {
    match s case NoNets => multiset{} case Nets(t, rest) => Paths(t, above) + AllPaths(rest, above)
  }

  /** The filters on the way are passed, in order, to the end id. */
  predicate Leads(t: Net, way: seq<int>, id: int) {
    match t
    case End(i) => way == [] && i == id
    case Filter(c, kids) => way != [] && way[0] == c && SomeLeads(kids, way[1..], id)
  }

  predicate SomeLeads(s: Forest, way: seq<int>, id: int) {
    match s case NoNets => false case Nets(t, rest) => Leads(t, way, id) || SomeLeads(rest, way, id)
  }

  function Passed(way: seq<int>): set<int> { set c | c in way }

  /** An end is reached with the conditions that some way to it passes. */
  lemma {:induction false} PathsMean(t: Net, above: set<int>, id: int, cs: set<int>)
    ensures (id, cs) in Paths(t, above) <==> exists way :: Leads(t, way, id) && cs == above + Passed(way)
    decreases t, 0
  {
    match t
    case End(i) =>
      assert above + Passed([]) == above;
      if (id, cs) in Paths(t, above) { assert Leads(t, [], id); }
    case Filter(c, kids) =>
      AllPathsMean(kids, above + {c}, id, cs);
      if way :| SomeLeads(kids, way, id) && cs == above + {c} + Passed(way) {
        PassedFirst(c, way, above);
        assert ([c] + way)[1..] == way && Leads(t, [c] + way, id);
      }
      if way :| Leads(t, way, id) && cs == above + Passed(way) {
        assert way == [c] + way[1..];
        PassedFirst(c, way[1..], above);
        assert SomeLeads(kids, way[1..], id);
      }
  }

  lemma PassedFirst(c: int, way: seq<int>, above: set<int>)
    ensures above + Passed([c] + way) == above + {c} + Passed(way)
  {
    assert Passed([c] + way) == {c} + Passed(way);
  }

  lemma {:induction false} AllPathsMean(s: Forest, above: set<int>, id: int, cs: set<int>)
    ensures (id, cs) in AllPaths(s, above) <==> exists way :: SomeLeads(s, way, id) && cs == above + Passed(way)
    decreases s, 1
  {
    match s
    case NoNets =>
    case Nets(t, rest) =>
      PathsMean(t, above, id, cs);
      AllPathsMean(rest, above, id, cs);
      if way :| Leads(t, way, id) && cs == above + Passed(way) { assert SomeLeads(s, way, id); }
      if way :| SomeLeads(rest, way, id) && cs == above + Passed(way) { assert SomeLeads(s, way, id); }
  }

  function Concat(a: Forest, b: Forest): Forest {
    match a case NoNets => b case Nets(t, rest) => Nets(t, Concat(rest, b))
  }

  lemma {:induction false} ConcatPaths(a: Forest, b: Forest, above: set<int>)
    ensures AllPaths(Concat(a, b), above) == AllPaths(a, above) + AllPaths(b, above)
  {
    match a case NoNets => case Nets(_, rest) => ConcatPaths(rest, b, above);
  }

  /** A node on the way down to the one that moves: its code, and its other children. */
  datatype Crumb = Crumb(code: int, before: Forest, after: Forest)

  /** The network with n at the end of the way. */
  function Rebuild(way: seq<Crumb>, n: Net): Net {
    if way == [] then n
    else
      var c := way[|way| - 1];
      Rebuild(way[..|way| - 1], Filter(c.code, Concat(c.before, Nets(n, c.after))))
  }

  function Codes(way: seq<Crumb>): set<int> {
    if way == [] then {} else Codes(way[..|way| - 1]) + {way[|way| - 1].code}
  }

  /** The paths that branch off on the way. */
  function Aside(way: seq<Crumb>, above: set<int>): multiset<(int, set<int>)> {
    if way == [] then multiset{}
    else
      var c := way[|way| - 1];
      Aside(way[..|way| - 1], above) + AllPaths(Concat(c.before, c.after), above + Codes(way))
  }

  lemma {:induction false} RebuildPaths(way: seq<Crumb>, n: Net, above: set<int>)
    ensures Paths(Rebuild(way, n), above) == Aside(way, above) + Paths(n, above + Codes(way))
    decreases |way|
  {
    if way == [] {
      assert above + {} == above;
    } else {
      var up, c := way[..|way| - 1], way[|way| - 1];
      var a := above + Codes(way);
      RebuildPaths(up, Filter(c.code, Concat(c.before, Nets(n, c.after))), above);
      assert above + Codes(up) + {c.code} == a;
      ConcatPaths(c.before, Nets(n, c.after), a);
      ConcatPaths(c.before, c.after, a);
    }
  }

  /** The parent of the moving node keeps its other children, or is gone if it has none. */
  function Left(c: Crumb): Forest {
    var others := Concat(c.before, c.after);
    if others == NoNets then NoNets else Nets(Filter(c.code, others), NoNets)
  }

  /** The node goes above its parent, a copy of which comes between it and its children. */
  function Over(c: Crumb, n: Net): Net
    requires n.Filter?
  {
    Filter(n.code, Nets(Filter(c.code, n.kids), NoNets))
  }

  /** The way that is left, when the node has gone above its parent. */
  function Shorter(way: seq<Crumb>): seq<Crumb>
    requires |way| >= 2
  {
    var up, c := way[|way| - 2], way[|way| - 1];
    way[..|way| - 2] + [Crumb(up.code, Concat(up.before, Left(c)), up.after)]
  }

  lemma {:induction false} Unsorted(a: Forest, b: Forest, c: Forest, above: set<int>)
    ensures AllPaths(Concat(Concat(a, b), c), above) == AllPaths(Concat(a, c), above) + AllPaths(b, above)
  {
    ConcatPaths(Concat(a, b), c, above);
    ConcatPaths(a, b, above);
    ConcatPaths(a, c, above);
  }

  /** Going above the parent changes no path. */
  lemma HopKeepsPaths(way: seq<Crumb>, n: Net, above: set<int>)
    requires |way| >= 2 && n.Filter?
    ensures Paths(Rebuild(Shorter(way), Over(way[|way| - 1], n)), above) == Paths(Rebuild(way, n), above)
  {
    hide *;
    var up, c, far, near, short := way[|way| - 2], way[|way| - 1], way[..|way| - 2], way[..|way| - 1], Shorter(way);
    var a := above + Codes(near);
    RebuildPaths(way, n, above);
    RebuildPaths(short, Over(c, n), above);
    assert near == far + [up] && way == near + [c];
    ShorterIs(way);
    AsideLast(near, c, above);
    AsideLast(far, up, above);
    AsideLast(far, Crumb(up.code, Concat(up.before, Left(c)), up.after), above);
    Unsorted(up.before, Left(c), up.after, a);
    LeftPaths(c, a);
    OverPaths(c, n, a);
  }

  lemma ShorterIs(way: seq<Crumb>)
    requires |way| >= 2
    ensures var up, c := way[|way| - 2], way[|way| - 1];
      Shorter(way) == way[..|way| - 2] + [Crumb(up.code, Concat(up.before, Left(c)), up.after)]
  {}

  lemma AsideLast(way: seq<Crumb>, c: Crumb, above: set<int>)
    ensures Codes(way + [c]) == Codes(way) + {c.code} && above + Codes(way + [c]) == above + Codes(way) + {c.code}
    ensures Aside(way + [c], above) == Aside(way, above) + AllPaths(Concat(c.before, c.after), above + Codes(way) + {c.code})
  {
    assert (way + [c])[..|way|] == way;
    assert above + (Codes(way) + {c.code}) == above + Codes(way) + {c.code};
  }

  lemma OverPaths(c: Crumb, n: Net, above: set<int>)
    requires n.Filter?
    ensures Paths(Over(c, n), above) == Paths(n, above + {c.code})
  {
    var copy, a := Filter(c.code, n.kids), above + {n.code};
    assert a + {c.code} == above + {c.code} + {n.code};
    assert Paths(Over(c, n), above) == AllPaths(Nets(copy, NoNets), a);
    assert AllPaths(Nets(copy, NoNets), a) == Paths(copy, a) + AllPaths(NoNets, a);
    assert Paths(copy, a) == AllPaths(n.kids, a + {c.code});
  }

  lemma LeftPaths(c: Crumb, above: set<int>)
    ensures AllPaths(Left(c), above) == AllPaths(Concat(c.before, c.after), above + {c.code})
  {}

  /** The node at the head of the way and the moving node below it, when there is nothing between them any more. */
  function MovedUp(way: seq<Crumb>, n: Net): (r: (Crumb, Net))
    requires way != [] && n.Filter?
    ensures r.1.Filter? && r.1.code == n.code && r.0.code == way[0].code
    decreases |way|
  {
    if |way| == 1 then (way[0], n) else MovedUp(Shorter(way), Over(way[|way| - 1], n))
  }

  lemma {:induction false} MovedUpKeepsPaths(way: seq<Crumb>, n: Net, above: set<int>)
    requires way != [] && n.Filter?
    ensures Paths(Rebuild([MovedUp(way, n).0], MovedUp(way, n).1), above) == Paths(Rebuild(way, n), above)
    decreases |way|
  {
    hide Rebuild, Paths, Shorter;
    if |way| == 1 {
      assert way == [way[0]];
    } else {
      ShorterIs(way);
      HopKeepsPaths(way, n, above);
      MovedUpKeepsPaths(Shorter(way), Over(way[|way| - 1], n), above);
    }
  }

  lemma {:induction false} ConcatThree(a: Forest, b: Forest, c: Forest)
    ensures Concat(Concat(a, b), c) == Concat(a, Concat(b, c))
  {
    match a case NoNets => case Nets(_, rest) => ConcatThree(rest, b, c);
  }

  lemma {:induction false} ConcatNone(a: Forest)
    ensures Concat(a, NoNets) == a
  {
    match a case NoNets => case Nets(_, rest) => ConcatNone(rest);
  }

  /** What the moves leave beside the moving node, below the node at the head of the way. */
  function More(way: seq<Crumb>): Forest
    decreases |way|
  {
    if |way| <= 1 then NoNets else if |way| == 2 then Left(way[1]) else More(Shorter(way))
  }

  /** The other children of the node at the head of the way stay. */
  lemma {:induction false} OthersStay(way: seq<Crumb>, n: Net)
    requires way != [] && n.Filter?
    ensures MovedUp(way, n).0 == Crumb(way[0].code, Concat(way[0].before, More(way)), way[0].after)
    decreases |way|
  {
    if |way| == 1 {
      ConcatNone(way[0].before);
    } else {
      OthersStay(Shorter(way), Over(way[|way| - 1], n));
      if |way| == 2 { ConcatNone(Concat(way[0].before, Left(way[1]))); }
    }
  }

  predicate Shared(c: Crumb) { Concat(c.before, c.after) != NoNets }

  /** Passing a parent without other children leaves the way above it as it was. */
  lemma UnsharedHop(way: seq<Crumb>)
    requires |way| >= 2 && !Shared(way[|way| - 1])
    ensures Shorter(way) == way[..|way| - 1]
  {
    var up := way[|way| - 2];
    ConcatNone(up.before);
    assert way[..|way| - 2] + [up] == way[..|way| - 1];
  }

  /** Moves the node past the parents that have no other child, as far as the node at the head of the way. */
  method MoveUp(way: seq<Crumb>, n: Net, ghost above: set<int>) returns (way': seq<Crumb>, n': Net)
    requires way != [] && n.Filter?
    ensures way' != [] && |way'| <= |way| && n'.Filter? && n'.code == n.code && way'[0].code == way[0].code
    ensures MovedUp(way', n') == MovedUp(way, n) && Paths(Rebuild(way', n'), above) == Paths(Rebuild(way, n), above)
    ensures |way'| == 1 || Concat(way'[|way'| - 1].before, way'[|way'| - 1].after) != NoNets
    ensures forall i :: |way'| <= i < |way| ==> !Shared(way[i])
    ensures way' == way[..|way'|] && ((forall i :: 1 <= i < |way| ==> !Shared(way[i])) ==> |way'| == 1)
  {
    hide *;
    way', n' := way, n;
    assert way[..|way|] == way;
    while |way'| > 1 && !Shared(way'[|way'| - 1])
      invariant 0 < |way'| <= |way| && n'.Filter? && n'.code == n.code
      invariant way' == way[..|way'|] && forall i :: |way'| <= i < |way| ==> !Shared(way[i])
      invariant MovedUp(way', n') == MovedUp(way, n) && Paths(Rebuild(way', n'), above) == Paths(Rebuild(way, n), above)
      decreases |way'|
    {
      HopKeepsPaths(way', n', above);
      UnsharedHop(way');
      MovedUpNext(way', n');
      assert way'[..|way'| - 1] == way[..|way'| - 1];
      way', n' := Shorter(way'), Over(way'[|way'| - 1], n');
    }
    SharedIs(way'[|way'| - 1]);
  }

  lemma SharedIs(c: Crumb)
    ensures Shared(c) <==> Concat(c.before, c.after) != NoNets
  {}

  lemma MovedUpNext(way: seq<Crumb>, n: Net)
    requires |way| > 1 && n.Filter?
    ensures Over(way[|way| - 1], n).Filter? && Over(way[|way| - 1], n).code == n.code
    ensures MovedUp(way, n) == MovedUp(Shorter(way), Over(way[|way| - 1], n))
  {}

  /** Moves the node to be a child of the node at the head of the way, copying the parents that others
      share. No path from the root to an end gets another set of conditions. */
  method MoveUpTo(way: seq<Crumb>, n: Net, ghost above: set<int>) returns (top: Crumb, n': Net)
    requires way != [] && n.Filter?
    ensures (top, n') == MovedUp(way, n)
    ensures Useful(Rebuild(way, n)) ==> Useful(Rebuild([top], n'))
    ensures Paths(Rebuild([top], n'), above) == Paths(Rebuild(way, n), above)
  {
    var left;
    left, n' := way, n;
    while |left| > 1
      invariant 0 < |left| && n'.Filter? && MovedUp(left, n') == MovedUp(way, n)
      invariant Paths(Rebuild(left, n'), above) == Paths(Rebuild(way, n), above)
      decreases |left|
    {
      left, n' := MoveUp(left, n', above);
      if |left| > 1 {
        HopKeepsPaths(left, n', above);
        left, n' := Shorter(left), Over(left[|left| - 1], n');
      }
    }
    top := left[0];
    assert left == [top];
    if Useful(Rebuild(way, n)) { MovedUpUseful(way, n); }
  }

  // ---------- no empty filters ----------

  predicate HasEnd(t: Net) { match t case End(_) => true case Filter(_, kids) => SomeEnd(kids) }
  predicate SomeEnd(s: Forest) { match s case NoNets => false case Nets(t, rest) => HasEnd(t) || SomeEnd(rest) }

  /** Every filter has an end below it. */
  predicate Useful(t: Net) { match t case End(_) => true case Filter(_, kids) => SomeEnd(kids) && AllUseful(kids) }
  predicate AllUseful(s: Forest) { match s case NoNets => true case Nets(t, rest) => Useful(t) && AllUseful(rest) }

  lemma {:induction false} ConcatUseful(a: Forest, b: Forest)
    ensures AllUseful(Concat(a, b)) <==> AllUseful(a) && AllUseful(b)
    ensures SomeEnd(Concat(a, b)) <==> SomeEnd(a) || SomeEnd(b)
    ensures Concat(a, b) == NoNets <==> a == NoNets && b == NoNets
  {
    match a case NoNets => case Nets(_, rest) => ConcatUseful(rest, b);
  }

  lemma {:induction false} UsefulEnds(t: Net)
    requires Useful(t)
    ensures HasEnd(t)
  {}

  lemma UsefulSome(s: Forest)
    requires AllUseful(s)
    ensures SomeEnd(s) <==> s != NoNets
  {
    if s.Nets? { UsefulEnds(s.first); }
  }

  /** What stands beside the way and at its end is of use, and nothing more is asked of the network. */
  lemma {:induction false} RebuildUseful(way: seq<Crumb>, n: Net)
    ensures Useful(Rebuild(way, n)) <==> Useful(n) && forall i :: 0 <= i < |way| ==> AllUseful(Concat(way[i].before, way[i].after))
    decreases |way|
  {
    if way != [] {
      var up, c := way[..|way| - 1], way[|way| - 1];
      var m := Filter(c.code, Concat(c.before, Nets(n, c.after)));
      RebuildUseful(up, m);
      ConcatUseful(c.before, Nets(n, c.after));
      ConcatUseful(c.before, c.after);
      if Useful(n) { UsefulEnds(n); }
      assert Useful(m) <==> Useful(n) && AllUseful(Concat(c.before, c.after));
      assert forall i :: 0 <= i < |up| ==> up[i] == way[i];
    }
  }

  lemma OverUseful(c: Crumb, n: Net)
    requires n.Filter? && Useful(n)
    ensures Useful(Over(c, n))
  {
    var copy := Filter(c.code, n.kids);
    assert Useful(copy) && HasEnd(copy);
    assert SomeEnd(Nets(copy, NoNets)) && AllUseful(Nets(copy, NoNets));
  }

  /** Moving a node leaves no filter without an end where there was none. */
  lemma HopUseful(way: seq<Crumb>, n: Net)
    requires |way| >= 2 && n.Filter? && Useful(Rebuild(way, n))
    ensures Useful(Rebuild(Shorter(way), Over(way[|way| - 1], n)))
  {
    var up, c, far, short := way[|way| - 2], way[|way| - 1], way[..|way| - 2], Shorter(way);
    RebuildUseful(way, n);
    RebuildUseful(short, Over(c, n));
    OverUseful(c, n);
    var others := Concat(c.before, c.after);
    UsefulSome(others);
    ConcatUseful(up.before, up.after);
    ConcatUseful(up.before, Left(c));
    ConcatUseful(Concat(up.before, Left(c)), up.after);
    forall i | 0 <= i < |short| ensures AllUseful(Concat(short[i].before, short[i].after)) {
      if i < |far| { assert short[i] == way[i]; } else { assert AllUseful(Concat(way[i].before, way[i].after)) && AllUseful(Concat(way[i + 1].before, way[i + 1].after)); }
    }
  }

  lemma {:induction false} MovedUpUseful(way: seq<Crumb>, n: Net)
    requires way != [] && n.Filter? && Useful(Rebuild(way, n))
    ensures Useful(Rebuild([MovedUp(way, n).0], MovedUp(way, n).1))
    decreases |way|
  {
    if |way| == 1 {
      assert way == [way[0]];
    } else {
      HopUseful(way, n);
      MovedUpUseful(Shorter(way), Over(way[|way| - 1], n));
    }
  }

  // ---------- sharing ----------

  /** Two filters with one code become one, with the children of both. */
  function JoinNode(a: Net, b: Net): Net
    requires a.Filter? && b.Filter?
  {
    Filter(a.code, Concat(a.kids, b.kids))
  }

  lemma JoinPaths(a: Net, b: Net, above: set<int>)
    requires a.Filter? && b.Filter? && a.code == b.code
    ensures Paths(JoinNode(a, b), above) == Paths(a, above) + Paths(b, above)
  {
    ConcatPaths(a.kids, b.kids, above + {a.code});
  }

  /** Joining a child with another to its right or to its left changes no path. */
  lemma JoinKeepsPaths(code: int, a: Forest, n: Net, b: Forest, m: Net, c: Forest, above: set<int>)
    requires n.Filter? && m.Filter? && n.code == m.code
    ensures var before := Paths(Filter(code, Concat(a, Nets(n, Concat(b, Nets(m, c))))), above);
      && Paths(Filter(code, Concat(a, Nets(JoinNode(n, m), Concat(b, c)))), above) == before
      && Paths(Filter(code, Concat(Concat(a, b), Nets(JoinNode(m, n), c))), above) == before
  {
    hide *;
    var i := above + {code};
    JoinPaths(n, m, i);
    JoinPaths(m, n, i);
    ConcatPaths(b, c, i);
    ConcatPaths(a, b, i);
    ChildPaths(code, a, n, Concat(b, Nets(m, c)), above);
    ChildPaths(code, b, m, c, above);
    ChildPaths(code, a, JoinNode(n, m), Concat(b, c), above);
    ChildPaths(code, Concat(a, b), JoinNode(m, n), c, above);
  }

  lemma ChildPaths(code: int, a: Forest, n: Net, b: Forest, above: set<int>)
    ensures var i := above + {code};
      && AllPaths(Concat(a, Nets(n, b)), i) == AllPaths(a, i) + Paths(n, i) + AllPaths(b, i)
      && Paths(Filter(code, Concat(a, Nets(n, b))), above) == AllPaths(Concat(a, Nets(n, b)), i)
  {
    ConcatPaths(a, Nets(n, b), above + {code});
  }

  /** Whether an equal node stands in a subtree before or after that of the moved node, and where. */
  datatype Found = Found(earlier: bool, left: Forest, way: seq<Crumb>, eq: Net, right: Forest)

  /** The children of top on one side of n are those on either side of the subtree that eq is found in. */
  predicate At(f: Found, top: Crumb) {
    (if f.earlier then top.before else top.after) == Concat(f.left, Nets(Rebuild(f.way, f.eq), f.right))
  }

  /** The way to eq, by the parent of n. */
  function WayTo(f: Found, top: Crumb, n: Net): seq<Crumb> {
    [if f.earlier then Crumb(top.code, f.left, Concat(f.right, Nets(n, top.after)))
     else Crumb(top.code, Concat(top.before, Nets(n, f.left)), f.right)] + f.way
  }

  lemma {:induction false} RebuildBelow(c: Crumb, way: seq<Crumb>, n: Net)
    ensures Rebuild([c] + way, n) == Rebuild([c], Rebuild(way, n))
    decreases |way|
  {
    if way == [] {
      assert [c] + way == [c];
    } else {
      var last, all := way[|way| - 1], [c] + way;
      assert all[|all| - 1] == last && all[..|all| - 1] == [c] + way[..|way| - 1];
      RebuildBelow(c, way[..|way| - 1], Filter(last.code, Concat(last.before, Nets(n, last.after))));
    }
  }

  lemma RebuildOne(c: Crumb, n: Net)
    ensures Rebuild([c], n) == Filter(c.code, Concat(c.before, Nets(n, c.after)))
  {
    assert [c][..0] == [];
  }

  /** Both ways lead into the same network. */
  lemma SameNetwork(f: Found, top: Crumb, n: Net)
    requires At(f, top)
    ensures Rebuild(WayTo(f, top, n), f.eq) == Rebuild([top], n)
  {
    hide Rebuild, Concat;
    var way := WayTo(f, top, n);
    RebuildBelow(way[0], f.way, f.eq);
    RebuildOne(way[0], Rebuild(f.way, f.eq));
    RebuildOne(top, n);
    var e := Rebuild(f.way, f.eq);
    if f.earlier {
      ConcatThree(f.left, Nets(e, f.right), Nets(n, top.after));
      NetsFirst(e, f.right, Nets(n, top.after));
    } else {
      ConcatThree(top.before, Nets(n, f.left), Nets(e, f.right));
      NetsFirst(n, f.left, Nets(e, f.right));
    }
  }

  lemma NetsFirst(n: Net, a: Forest, b: Forest)
    ensures Concat(Nets(n, a), b) == Nets(n, Concat(a, b))
  {}

  /** The children of low with m among them, when eq has moved: n on its side, and what it has left behind. */
  lemma TwoChildren(f: Found, top: Crumb, n: Net, low: Crumb, m: Net)
    requires low == var way := WayTo(f, top, n); Crumb(way[0].code, Concat(way[0].before, More(way)), way[0].after)
    ensures var more := More(WayTo(f, top, n));
      Rebuild([low], m) == Filter(top.code,
        if f.earlier then Concat(Concat(f.left, more), Nets(m, Concat(f.right, Nets(n, top.after))))
        else Concat(top.before, Nets(n, Concat(Concat(f.left, more), Nets(m, f.right)))))
  {
    hide Rebuild, Concat, More;
    var more := More(WayTo(f, top, n));
    RebuildOne(low, m);
    if !f.earlier {
      ConcatThree(top.before, Nets(n, f.left), more);
      NetsFirst(n, f.left, more);
      ConcatThree(top.before, Nets(n, Concat(f.left, more)), Nets(m, f.right));
      NetsFirst(n, Concat(f.left, more), Nets(m, f.right));
    }
  }

  /** The node at the head of the way without its two equal children. */
  function Without(f: Found, top: Crumb, more: Forest): Crumb {
    if f.earlier then Crumb(top.code, Concat(Concat(f.left, more), f.right), top.after)
    else Crumb(top.code, top.before, Concat(Concat(f.left, more), f.right))
  }

  /** Moves the node to be a child of the node at the head of its way, then an equal node found below that
      one to be its child too, and joins the two. No path changes. */
  method Share(way: seq<Crumb>, n: Net, f: Found, ghost above: set<int>) returns (top: Crumb, joined: Net)
    requires way != [] && n.Filter? && f.eq.Filter? && f.eq.code == n.code && At(f, MovedUp(way, n).0)
    ensures top.code == way[0].code && joined.Filter? && joined.code == n.code
    ensures var (high, n') := MovedUp(way, n); joined == JoinNode(n', MovedUp(WayTo(f, high, n'), f.eq).1)
    ensures Paths(Rebuild([top], joined), above) == Paths(Rebuild(way, n), above)
  {
    hide Rebuild, Paths, Concat, MovedUp, More, Shorter;
    var high, n' := MoveUpTo(way, n, above);
    SameNetwork(f, high, n');
    var under := WayTo(f, high, n');
    OthersStay(under, f.eq);
    var low, m := MoveUpTo(under, f.eq, above);
    joined, top := JoinNode(n', m), Without(f, high, More(under));
    TwoChildren(f, high, n', low, m);
    RebuildOne(top, joined);
    var left := Concat(f.left, More(under));
    if f.earlier {
      JoinKeepsPaths(high.code, left, m, f.right, n', high.after, above);
    } else {
      JoinKeepsPaths(high.code, high.before, n', left, m, f.right, above);
    }
  }
}
