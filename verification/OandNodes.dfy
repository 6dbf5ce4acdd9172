/** OAND: the left outer join, in which a left item without partners appears with the null single. */
module OandNodes {
  import opened Wrappers
  import opened Tuples
  import opened Joins
  import And = AndNodes
  import Nand = NandNodes

  /** What stands downstream for one left item. */
  ghost function Row(l: Obj, partners: set<Obj>): set<Obj> {
    if partners == {} then {Compound(l, NullSingle)} else set r | r in partners :: Compound(l, r)
  }

  // ---------- an event on the right ----------

  /** The new count of l, and what is sent: the first partner takes the place of the null single and
      the null single that of the last one. */
  function CheckOandRight(c: Cond, x: Event, l: Obj, count: int): (int, seq<Event>) {
    var res, res2 := c.Rest(RIGHT_MEM, x.now, l), x.tag == MODIFY && c.Rest(RIGHT_MEM, x.was, l);
    var prev := NewTag(x.tag, res, res2);
    var now, was, none := Compound(l, x.now), Compound(l, x.was), Compound(l, NullSingle);
    if !(res || res2) then (count, []) else
    var more := if prev == INSERT then count + 1 else count;
    var e :=
      if more == 1 then Event(MODIFY, if prev == RETRACT then none else now, if prev == INSERT then none else was)
      else Event(prev, if prev == RETRACT then was else now, if prev == INSERT then now else was);
    (if prev == RETRACT then more - 1 else more, [e])
  }

  lemma CheckOandRightIs(c: Cond, x: Event, l: Obj, count: int)
    requires x.tag != 0 && (x.tag != MODIFY ==> x.now == x.was)
    ensures var o, n := Goes(x.tag) && c.Rest(RIGHT_MEM, x.was, l), Appears(x.tag) && c.Rest(RIGHT_MEM, x.now, l);
      CheckOandRight(c, x, l, count) == (count + Nand.One(n) - Nand.One(o), RowEvents(l, x, o, n, count))
  {
    NewTagIs(c.Rest(RIGHT_MEM, x.now, l), c.Rest(RIGHT_MEM, x.was, l));
  }

  /** The event that a change of x makes in the row of l, which had count partners. */
  ghost function RowEvents(l: Obj, x: Event, o: bool, n: bool, count: int): seq<Event> {
    var now, was, none := Compound(l, x.now), Compound(l, x.was), Compound(l, NullSingle);
    if o && n then [Event(MODIFY, now, was)]
    else if n then (if count == 0 then [Event(MODIFY, now, none)] else [Event(INSERT, now, now)])
    else if o then (if count == 1 then [Event(MODIFY, none, was)] else [Event(RETRACT, was, was)])
    else []
  }

  ghost function Only(b: bool, o: Obj): set<Obj> { if b then {o} else {} }

  lemma RowTurns(l: Obj, kept: set<Obj>, x: Event, o: bool, n: bool)
    requires NullSingle !in kept && x.now != NullSingle && x.was != NullSingle && (o ==> x.was !in kept)
    requires n ==> Named(kept, x.now) == {} && x.now !in kept
    ensures Nand.Turns(Row(l, kept + Only(o, x.was)), RowEvents(l, x, o, n, |kept + Only(o, x.was)|), Row(l, kept + Only(n, x.now)))
  {
    hide Row;
    assert kept + {} == kept;
    if o && n {
      RowSwaps(l, kept, x);
    } else if n {
      RowGains(l, kept, x);
    } else if o {
      RowLoses(l, kept, x);
    }
  }

  lemma RowGains(l: Obj, ps: set<Obj>, x: Event)
    requires NullSingle !in ps && x.now != NullSingle && Named(ps, x.now) == {} && x.now !in ps
    ensures Nand.Turns(Row(l, ps), RowEvents(l, x, false, true, |ps|), Row(l, ps + {x.now}))
  {
    RowNamed(l, ps, x.now);
    RowAdd(l, ps, x.now);
    if ps != {} {
      assert Row(l, ps) - {} == Row(l, ps);
    }
  }

  lemma RowLoses(l: Obj, ps: set<Obj>, x: Event)
    requires NullSingle !in ps && x.was != NullSingle && x.was !in ps
    ensures Nand.Turns(Row(l, ps + {x.was}), RowEvents(l, x, true, false, |ps + {x.was}|), Row(l, ps))
  {
    RowAdd(l, ps, x.was);
    if ps == {} {
      assert Named(Row(l, ps + {x.was}) - {Compound(l, x.was)}, Compound(l, NullSingle)) == {};
    } else {
      assert Row(l, ps + {x.was}) - {Compound(l, x.was)} == Row(l, ps);
    }
  }

  lemma RowSwaps(l: Obj, ps: set<Obj>, x: Event)
    requires NullSingle !in ps && x.was != NullSingle && x.was !in ps
    requires x.now != NullSingle && Named(ps, x.now) == {} && x.now !in ps
    ensures Nand.Turns(Row(l, ps + {x.was}), RowEvents(l, x, true, true, |ps + {x.was}|), Row(l, ps + {x.now}))
  {
    hide *;
    RowAdd(l, ps, x.was);
    RowAdd(l, ps, x.now);
    RowNamed(l, ps, x.now);
    var base, was, now := if ps == {} then {} else Row(l, ps), Compound(l, x.was), Compound(l, x.now);
    assert {was} == {} + {was} && {now} == {} + {now};
    SwapTurns(base, was, now);
    RowEventsBoth(l, x, |ps + {x.was}|);
  }

  lemma RowEventsBoth(l: Obj, x: Event, count: int)
    ensures RowEvents(l, x, true, true, count) == [Event(MODIFY, Compound(l, x.now), Compound(l, x.was))]
  {}

  lemma SwapTurns(base: set<Obj>, was: Obj, now: Obj)
    requires was !in base && Named(base, now) == {}
    ensures Nand.Turns(base + {was}, [Event(MODIFY, now, was)], base + {now})
  {
    assert base + {was} - {was} == base;
  }

  lemma RowAdd(l: Obj, ps: set<Obj>, r: Obj)
    requires NullSingle !in ps
    ensures ps == {} ==> Row(l, ps) == {Compound(l, NullSingle)} && Row(l, ps + {r}) == {Compound(l, r)}
    ensures ps != {} && r !in ps && r != NullSingle ==> Row(l, ps + {r}) == Row(l, ps) + {Compound(l, r)} && Compound(l, r) !in Row(l, ps)
  {}

  lemma RowNamed(l: Obj, ps: set<Obj>, r: Obj)
    ensures Named({}, Compound(l, r)) == {}
    ensures Named(ps, r) == {} && r != NullSingle ==> Named(Row(l, ps), Compound(l, r)) == {}
  {
    assert Identity(NullSingle) == NullSingle;
    if Named(ps, r) == {} && r != NullSingle {
      forall t | t in Row(l, ps) ensures Identity(t) != Identity(Compound(l, r)) {
        assert t.right in ps ==> t.right !in Named(ps, r);
      }
    }
  }

  /** Tuples whose left part is another than l. */
  ghost predicate Others(rest: set<Obj>, l: Obj) {
    forall t :: t in rest ==> t.Compound? && Identity(t.left) != Identity(l)
  }

  lemma FrameTurns(l: Obj, rest: set<Obj>, row: set<Obj>, es: seq<Event>, row': set<Obj>)
    requires Others(rest, l) && Nand.Turns(row, es, row')
    requires es != [] ==> es[0].now.Compound? && es[0].now.left == l && es[0].was.Compound? && es[0].was.left == l
    ensures Nand.Turns(rest + row, es, rest + row')
  {
    if es != [] {
      var e := es[0];
      assert e.was !in rest;
      assert rest + row - Gone(e) == rest + (row - Gone(e));
      assert Applied(rest + row, e) == rest + Applied(row, e);
      if Appears(e.tag) {
        forall t | t in rest + row - Gone(e) ensures Identity(t) != Identity(e.now) {
          if t in row { assert t !in Named(row - Gone(e), e.now); }
        }
      }
    }
  }

  lemma OuterSplit(c: Cond, ls: set<Obj>, rs: set<Obj>, l: Obj)
    requires l in ls
    ensures Outer(c, ls, rs) == Outer(c, ls - {l}, rs) + Row(l, c.Partners(LEFT_MEM, l, rs))
  {
    var ps, p, q := c.Partners(LEFT_MEM, l, rs), Pairs(c, LEFT_MEM, ls - {l}, rs), Alone(c, ls - {l}, rs);
    assert Pairs(c, LEFT_MEM, ls, rs) == p + set r | r in ps :: Compound(l, r);
    assert Alone(c, ls, rs) == q + Only(ps == {}, l);
    assert Nulls(q + Only(ps == {}, l)) == Nulls(q) + Nulls(Only(ps == {}, l));
    assert Nulls({l}) == {Compound(l, NullSingle)};
    assert Nulls({}) == {};
  }

  lemma OuterOthers(c: Cond, ls: set<Obj>, rs: set<Obj>, part: set<Obj>, l: Obj)
    requires Unique(ls) && l in ls && part <= ls - {l}
    ensures Others(Outer(c, part, rs), l)
  {}

  /** What is downstream when the left items in done have been brought up to date. */
  ghost function Halfway(c: Cond, ls: set<Obj>, rs: set<Obj>, rs': set<Obj>, done: set<Obj>): set<Obj> {
    Outer(c, done, rs') + Outer(c, ls - done, rs)
  }

  lemma HalfwaySplit(c: Cond, ls: set<Obj>, rs: set<Obj>, rs': set<Obj>, done: set<Obj>, l: Obj)
    requires Unique(ls) && done <= ls && l in ls - done
    ensures var rest := Outer(c, done, rs') + Outer(c, ls - done - {l}, rs);
      && Others(rest, l)
      && Halfway(c, ls, rs, rs', done) == rest + Row(l, c.Partners(LEFT_MEM, l, rs))
      && Halfway(c, ls, rs, rs', done + {l}) == rest + Row(l, c.Partners(LEFT_MEM, l, rs'))
  {
    OuterSplit(c, ls - done, rs, l);
    OuterSplit(c, done + {l}, rs', l);
    OuterOthers(c, ls, rs', done, l);
    OuterOthers(c, ls, rs, ls - done - {l}, l);
    hide Outer, Row, Unique;
    assert done + {l} - {l} == done && ls - (done + {l}) == ls - done - {l};
  }

  lemma RightStep(c: Cond, x: Event, ls: set<Obj>, rs: set<Obj>, done: set<Obj>, l: Obj, count: int)
    requires Unique(ls) && Unique(rs) && Exact(rs, x) && Missed(c, RIGHT_MEM, x, ls) == {}
    requires NullSingle !in rs && x.now != NullSingle && x.was != NullSingle
    requires done <= ls && l in ls - done && l in c.Found(RIGHT_MEM, x.now, ls) && count == Nand.Count(c, l, rs)
    ensures var es, rs' := CheckOandRight(c, x, l, count).1, Applied(rs, x);
      Nand.Turns(Halfway(c, ls, rs, rs', done), es, Halfway(c, ls, rs, rs', done + {l}))
  {
    var rs', kept := Applied(rs, x), c.Partners(LEFT_MEM, l, rs - Gone(x));
    var o, n := Goes(x.tag) && c.Match(LEFT_MEM, l, x.was), Appears(x.tag) && c.Match(LEFT_MEM, l, x.now);
    assert l !in Missed(c, RIGHT_MEM, x, ls);
    CheckOandRightIs(c, x, l, count);
    PartnersApplied(c, l, rs, x);
    hide Exact, Applied, Missed, CheckOandRight;
    RowTurns(l, kept, x, o, n);
    HalfwaySplit(c, ls, rs, rs', done, l);
    hide Nand.Turns, Halfway, Outer, Row;
    var rest := Outer(c, done, rs') + Outer(c, ls - done - {l}, rs);
    FrameTurns(l, rest, Row(l, kept + Only(o, x.was)), RowEvents(l, x, o, n, count), Row(l, kept + Only(n, x.now)));
  }

  lemma PartnersApplied(c: Cond, l: Obj, rs: set<Obj>, x: Event)
    requires Unique(rs) && Exact(rs, x)
    ensures var kept := c.Partners(LEFT_MEM, l, rs - Gone(x));
      var o, n := Goes(x.tag) && c.Match(LEFT_MEM, l, x.was), Appears(x.tag) && c.Match(LEFT_MEM, l, x.now);
      && c.Partners(LEFT_MEM, l, rs) == kept + Only(o, x.was) && (o ==> x.was !in kept)
      && c.Partners(LEFT_MEM, l, Applied(rs, x)) == kept + Only(n, x.now)
      && (n ==> Named(kept, x.now) == {} && x.now !in kept)
  {
    var kept := c.Partners(LEFT_MEM, l, rs - Gone(x));
    if Appears(x.tag) {
      assert Named(kept, x.now) <= Named(rs - Gone(x), x.now);
      assert x.now in kept ==> x.now in Named(kept, x.now);
    }
  }

  lemma HalfwayStarts(c: Cond, x: Event, ls: set<Obj>, rs: set<Obj>)
    requires Exact(rs, x) && Missed(c, RIGHT_MEM, x, ls) == {}
    ensures Halfway(c, ls, rs, Applied(rs, x), ls - c.Found(RIGHT_MEM, x.now, ls)) == Outer(c, ls, rs)
  {
    var done, rs' := ls - c.Found(RIGHT_MEM, x.now, ls), Applied(rs, x);
    forall l | l in done ensures c.Partners(LEFT_MEM, l, rs') == c.Partners(LEFT_MEM, l, rs) {
      assert l !in Missed(c, RIGHT_MEM, x, ls);
    }
    SamePartners(c, done, rs, rs');
    assert ls == done + (ls - done);
    OuterUnion(c, done, ls - done, rs);
  }

  lemma SamePartners(c: Cond, ls: set<Obj>, rs: set<Obj>, rs': set<Obj>)
    requires forall l :: l in ls ==> c.Partners(LEFT_MEM, l, rs') == c.Partners(LEFT_MEM, l, rs)
    ensures Outer(c, ls, rs) == Outer(c, ls, rs')
  {
    assert Alone(c, ls, rs) == Alone(c, ls, rs');
    PairsByPartners(c, ls, rs);
    PairsByPartners(c, ls, rs');
  }

  lemma PairsByPartners(c: Cond, ls: set<Obj>, rs: set<Obj>)
    ensures Pairs(c, LEFT_MEM, ls, rs) == set l, r | l in ls && r in c.Partners(LEFT_MEM, l, rs) :: Compound(l, r)
  {}

  lemma OuterUnion(c: Cond, p: set<Obj>, q: set<Obj>, rs: set<Obj>)
    ensures Outer(c, p + q, rs) == Outer(c, p, rs) + Outer(c, q, rs)
  {
    assert Alone(c, p + q, rs) == Alone(c, p, rs) + Alone(c, q, rs);
  }

  lemma HalfwayEnds(c: Cond, x: Event, ls: set<Obj>, rs: set<Obj>)
    ensures Halfway(c, ls, rs, Applied(rs, x), ls) == Outer(c, ls, Applied(rs, x))
  {
    assert ls - ls == {};
  }

  /** What the recount has done when pending is still to come. */
  ghost predicate Rescanned(c: Cond, x: Event, before: map<Obj, int>, rs: set<Obj>, pending: set<Obj>, left: map<Obj, int>, out: seq<Event>) {
    && pending <= c.Found(RIGHT_MEM, x.now, before.Keys) && Nand.Recounted(c, x, before, left, pending)
    && (Missed(c, RIGHT_MEM, x, before.Keys) == {} ==>
      Follow(Outer(c, before.Keys, rs), out) == Some(Halfway(c, before.Keys, rs, Applied(rs, x), before.Keys - pending)))
  }

  lemma RecountStarts(c: Cond, x: Event, before: map<Obj, int>, rs: set<Obj>)
    requires Exact(rs, x)
    ensures c.Found(RIGHT_MEM, x.now, before.Keys) <= before.Keys
    ensures Rescanned(c, x, before, rs, c.Found(RIGHT_MEM, x.now, before.Keys), before, [])
  {
    FollowNone(Outer(c, before.Keys, rs));
    if Missed(c, RIGHT_MEM, x, before.Keys) == {} { HalfwayStarts(c, x, before.Keys, rs); }
    hide Missed, Halfway, Outer, Applied, Follow;
  }

  lemma RecountStep(c: Cond, x: Event, before: map<Obj, int>, rs: set<Obj>, pending: set<Obj>, left: map<Obj, int>, out: seq<Event>, l: Obj)
    requires Unique(before.Keys) && Unique(rs) && Exact(rs, x) && Nand.Counted(c, before, rs)
    requires NullSingle !in rs && x.now != NullSingle && x.was != NullSingle
    requires Rescanned(c, x, before, rs, pending, left, out) && l in pending && l in left
    ensures var (count, es) := CheckOandRight(c, x, l, left[l]); Rescanned(c, x, before, rs, pending - {l}, left[l := count], out + es)
  {
    var ls, done, rs' := before.Keys, before.Keys - pending, Applied(rs, x);
    assert ls - (pending - {l}) == done + {l} && x.tag != 0 && (x.tag != MODIFY ==> x.now == x.was);
    assert left[l] == before[l] == Nand.Count(c, l, rs) && |CheckOandRight(c, x, l, left[l]).1| <= 1;
    CheckOandRightIs(c, x, l, left[l]);
    Nand.RecountedStep(c, x, before, pending, left, l, CheckOandRight(c, x, l, left[l]).0);
    hide *;
    if Missed(c, RIGHT_MEM, x, ls) == {} {
      RightStep(c, x, ls, rs, done, l, left[l]);
      Nand.StreamStep(Outer(c, ls, rs), out, CheckOandRight(c, x, l, left[l]).1, Halfway(c, ls, rs, rs', done), Halfway(c, ls, rs, rs', done + {l}));
    }
    RescannedNext(c, x, before, rs, pending, left, out, l, CheckOandRight(c, x, l, left[l]));
  }

  lemma RescannedNext(c: Cond, x: Event, before: map<Obj, int>, rs: set<Obj>, pending: set<Obj>, left: map<Obj, int>, out: seq<Event>, l: Obj, r: (int, seq<Event>))
    requires Rescanned(c, x, before, rs, pending, left, out) && Nand.Recounted(c, x, before, left[l := r.0], pending - {l})
    requires Missed(c, RIGHT_MEM, x, before.Keys) == {} ==>
      Follow(Outer(c, before.Keys, rs), out + r.1) == Some(Halfway(c, before.Keys, rs, Applied(rs, x), before.Keys - (pending - {l})))
    ensures Rescanned(c, x, before, rs, pending - {l}, left[l := r.0], out + r.1)
  {
    hide Missed, Follow, Outer, Halfway, Nand.Recounted;
  }

  lemma RecountEnds(c: Cond, x: Event, before: map<Obj, int>, rs: set<Obj>, left: map<Obj, int>, out: seq<Event>)
    requires Unique(rs) && Exact(rs, x) && Nand.Counted(c, before, rs) && Rescanned(c, x, before, rs, {}, left, out)
    ensures Nand.Counted(c, left, Applied(rs, x)) <==> Missed(c, RIGHT_MEM, x, before.Keys) == {}
    ensures Missed(c, RIGHT_MEM, x, before.Keys) == {} ==>
      Follow(Outer(c, before.Keys, rs), out) == Some(Outer(c, before.Keys, Applied(rs, x)))
  {
    hide Missed, Halfway, Outer, Follow, Exact, Applied, Nand.Counted;
    assert before.Keys - {} == before.Keys;
    Nand.CountsRight(c, x, before, left, rs);
    HalfwayEnds(c, x, before.Keys, rs);
  }

  /** Recounts the left items that the index finds for x's tuple, and sends what changes in their rows. */
  method Recount(c: Cond, x: Event, before: map<Obj, int>, ghost rs: set<Obj>) returns (left: map<Obj, int>, out: seq<Event>)
    requires Unique(before.Keys) && Unique(rs) && Exact(rs, x) && Nand.Counted(c, before, rs)
    requires NullSingle !in rs && x.now != NullSingle && x.was != NullSingle
    ensures left.Keys == before.Keys
    ensures Nand.Counted(c, left, Applied(rs, x)) <==> Missed(c, RIGHT_MEM, x, before.Keys) == {}
    ensures Missed(c, RIGHT_MEM, x, before.Keys) == {} ==>
      Follow(Outer(c, before.Keys, rs), out) == Some(Outer(c, before.Keys, Applied(rs, x)))
  {
    left, out := before, [];
    var pending := c.Found(RIGHT_MEM, x.now, before.Keys);
    RecountStarts(c, x, before, rs);
    hide *;
    while pending != {}
      invariant left.Keys == before.Keys && pending <= left.Keys && Rescanned(c, x, before, rs, pending, left, out)
      decreases |pending|
    {
      var l :| l in pending;
      var (count, es) := CheckOandRight(c, x, l, left[l]);
      RecountStep(c, x, before, rs, pending, left, out, l);
      left, out := left[l := count], out + es;
      pending := pending - {l};
    }
    RecountEnds(c, x, before, rs, left, out);
  }

  // ---------- an event on the left ----------

  /** The new count of the arriving tuple after one item of the right, and what is sent for the couple. */
  function CheckOandLeft(c: Cond, x: Event, r: Obj, count: int): (int, seq<Event>) {
    var es := And.CheckAnd(c, LEFT_MEM, x, r);
    (if es == [] then count else if es[0].tag == INSERT then count + 1 else if es[0].tag == RETRACT then count - 1 else count, es)
  }

  /** The null single is sent in place of a partner when no couple was. */
  function SendNull(x: Event): seq<Event> { [Event(x.tag, Compound(x.now, NullSingle), Compound(x.was, NullSingle))] }

  lemma LeftStep(c: Cond, x: Event, rs: set<Obj>, done: set<Obj>, r: Obj, count: int)
    requires Appears(x.tag) && (x.tag != MODIFY ==> x.now == x.was) && Missed(c, LEFT_MEM, x, rs) == {} && done <= rs
    requires r in rs - done && r in c.Found(LEFT_MEM, x.now, rs)
    ensures CheckOandLeft(c, x, r, count).0 - count ==
      (Nand.Count(c, x.now, done + {r}) - Nand.OldCount(c, x, done + {r})) - (Nand.Count(c, x.now, done) - Nand.OldCount(c, x, done))
  {
    assert r !in Missed(c, LEFT_MEM, x, rs);
    Nand.CountOneMore(c, x.now, done, r);
    Nand.CountOneMore(c, x.was, done, r);
    NewTagIs(c.Rest(LEFT_MEM, x.now, r), c.Rest(LEFT_MEM, x.was, r));
    hide Missed, Nand.Count, NewTag;
  }

  /** The couples of an arriving tuple, and its new count. */
  method ScanLeft(c: Cond, x: Event, from: int, rs: set<Obj>, ghost ls: set<Obj>) returns (count: int, out: seq<Event>)
    requires Exact(ls, x) && Unique(ls) && Unique(rs)
    requires from == if Goes(x.tag) then Nand.Count(c, x.was, rs) else 0
    ensures And.Sends(c, LEFT_MEM, x, c.Found(LEFT_MEM, x.now, rs), out)
    ensures Missed(c, LEFT_MEM, x, rs) == {} ==> Follow(Pairs(c, LEFT_MEM, ls, rs), out) == Some(Pairs(c, LEFT_MEM, Applied(ls, x), rs))
    ensures Missed(c, LEFT_MEM, x, rs) == {} && Appears(x.tag) ==> count == Nand.Count(c, x.now, rs)
  {
    count, out := from, [];
    var pending := c.Found(LEFT_MEM, x.now, rs);
    ghost var found := pending;
    ScanStarts(c, x, from, rs, ls);
    assert found - pending == {};
    hide *;
    while pending != {}
      invariant pending <= found && Scanned(c, x, from, rs, ls, pending, count, out)
      decreases |pending|
    {
      var r :| r in pending;
      ScanStep(c, x, from, rs, ls, pending, count, out, r);
      var (newCount, es) := CheckOandLeft(c, x, r, count);
      count, out := newCount, out + es;
      pending := pending - {r};
    }
    ScanEnds(c, x, from, rs, ls, count, out);
  }

  /** What a scan of the right memory has done when pending is still to come. */
  ghost predicate Scanned(c: Cond, x: Event, from: int, rs: set<Obj>, ls: set<Obj>, pending: set<Obj>, count: int, out: seq<Event>) {
    var done := c.Found(LEFT_MEM, x.now, rs) - pending;
    && And.Sends(c, LEFT_MEM, x, done, out)
    && (Missed(c, LEFT_MEM, x, rs) == {} ==>
      && Follow(Pairs(c, LEFT_MEM, ls, rs), out) == Some(And.Halfway(c, LEFT_MEM, x, ls - Gone(x), rs, rs - pending))
      && (Appears(x.tag) ==> count == from + Nand.Count(c, x.now, done) - Nand.OldCount(c, x, done)))
  }

  lemma ScanStarts(c: Cond, x: Event, from: int, rs: set<Obj>, ls: set<Obj>)
    requires Exact(ls, x)
    ensures Scanned(c, x, from, rs, ls, c.Found(LEFT_MEM, x.now, rs), from, [])
  {
    var found := c.Found(LEFT_MEM, x.now, rs);
    if Missed(c, LEFT_MEM, x, rs) == {} { And.HalfwayStarts(c, LEFT_MEM, x, ls, rs, rs - found); }
    Nand.CountStarts(c, x, rs);
    FollowNone(Pairs(c, LEFT_MEM, ls, rs));
    assert found - found == {};
    hide Missed, Exact, Pairs, And.Halfway, Nand.Count;
  }

  lemma ScanStep(c: Cond, x: Event, from: int, rs: set<Obj>, ls: set<Obj>, pending: set<Obj>, count: int, out: seq<Event>, r: Obj)
    requires Exact(ls, x) && Unique(ls) && Unique(rs) && Scanned(c, x, from, rs, ls, pending, count, out)
    requires r in pending && pending <= c.Found(LEFT_MEM, x.now, rs)
    ensures var (newCount, es) := CheckOandLeft(c, x, r, count); Scanned(c, x, from, rs, ls, pending - {r}, newCount, out + es)
  {
    var done := c.Found(LEFT_MEM, x.now, rs) - pending;
    assert done + {r} == c.Found(LEFT_MEM, x.now, rs) - (pending - {r});
    assert x.tag != MODIFY ==> x.now == x.was;
    hide Missed, Exact, Pairs, And.Halfway, Nand.Count, Follow, And.Sends, Unique, And.CheckAnd;
    And.SendsOne(c, LEFT_MEM, x, done, out, r);
    if Missed(c, LEFT_MEM, x, rs) == {} {
      And.ScanStep(c, LEFT_MEM, x, ls, rs, Pairs(c, LEFT_MEM, ls, rs), out, pending, r);
      if Appears(x.tag) { LeftStep(c, x, rs, done, r, count); }
    }
  }

  lemma ScanEnds(c: Cond, x: Event, from: int, rs: set<Obj>, ls: set<Obj>, count: int, out: seq<Event>)
    requires Scanned(c, x, from, rs, ls, {}, count, out)
    requires from == if Goes(x.tag) then Nand.Count(c, x.was, rs) else 0
    ensures And.Sends(c, LEFT_MEM, x, c.Found(LEFT_MEM, x.now, rs), out)
    ensures Missed(c, LEFT_MEM, x, rs) == {} ==> Follow(Pairs(c, LEFT_MEM, ls, rs), out) == Some(Pairs(c, LEFT_MEM, Applied(ls, x), rs))
    ensures Missed(c, LEFT_MEM, x, rs) == {} && Appears(x.tag) ==> count == Nand.Count(c, x.now, rs)
  {
    hide Missed, Pairs, And.Halfway, Nand.Count, Follow, And.Sends;
    assert rs - {} == rs && c.Found(LEFT_MEM, x.now, rs) - {} == c.Found(LEFT_MEM, x.now, rs);
    And.HalfwayEnds(c, LEFT_MEM, x, ls, rs);
    if Missed(c, LEFT_MEM, x, rs) == {} && Appears(x.tag) { Nand.CountFound(c, x, rs); }
  }

  /** A modification is wrong if a tuple without partners finds some or one with partners loses all. */
  ghost predicate CrossesNull(c: Cond, x: Event, rs: set<Obj>) {
    x.tag == MODIFY && (Nand.Count(c, x.was, rs) == 0) != (Nand.Count(c, x.now, rs) == 0)
  }

  /** Nothing was sent for couples exactly if the tuple has no partner in either state. */
  lemma SentNone(c: Cond, x: Event, rs: set<Obj>, out: seq<Event>)
    requires x.tag != 0 && (x.tag != MODIFY ==> x.now == x.was) && Missed(c, LEFT_MEM, x, rs) == {}
    requires And.Sends(c, LEFT_MEM, x, c.Found(LEFT_MEM, x.now, rs), out)
    ensures out == [] <==> c.Partners(LEFT_MEM, x.now, rs) == {} && c.Partners(LEFT_MEM, x.was, rs) == {}
  {
    forall r | r in c.Partners(LEFT_MEM, x.was, rs) ensures r in c.Found(LEFT_MEM, x.now, rs) {
      assert r !in Missed(c, LEFT_MEM, x, rs);
    }
    And.SendsNone(c, LEFT_MEM, x, c.Found(LEFT_MEM, x.now, rs), out);
    forall y | y in c.Found(LEFT_MEM, x.now, rs)
      ensures And.CheckAnd(c, LEFT_MEM, x, y) == [] <==> y !in c.Partners(LEFT_MEM, x.now, rs) && y !in c.Partners(LEFT_MEM, x.was, rs)
    {
      assert y !in Missed(c, LEFT_MEM, x, rs);
    }
  }

  /** A stream about tuples that share no identity with extra leaves extra as it is. */
  lemma {:induction false} FollowFrame(mem: set<Obj>, es: seq<Event>, extra: set<Obj>)
    requires Follow(mem, es).Some?
    requires forall i :: 0 <= i < |es| ==> Named(extra, es[i].now) == {} && Named(extra, es[i].was) == {}
    ensures Follow(mem + extra, es) == Some(Follow(mem, es).value + extra)
    decreases |es|
  {
    if es != [] {
      var e, m := es[|es| - 1], Follow(mem, es[..|es| - 1]).value;
      FollowFrame(mem, es[..|es| - 1], extra);
      assert (mem + extra, es[..|es| - 1]) == (mem + extra, es[..|es| - 1]) && Follow(mem + extra, es[..|es| - 1]) == Some(m + extra);
      assert e.was in extra ==> e.was in Named(extra, e.was);
      assert m + extra - Gone(e) == m - Gone(e) + extra;
      assert Applied(m + extra, e) == Applied(m, e) + extra;
      assert Named(m - Gone(e) + extra, e.now) == Named(m - Gone(e), e.now) + Named(extra, e.now);
    }
  }

  lemma NullsNamed(ls: set<Obj>, l: Obj, r: Obj)
    requires r != NullSingle
    ensures Named(Nulls(ls), Compound(l, r)) == {}
  {
    forall t | t in Nulls(ls) ensures Identity(t) != Identity(Compound(l, r)) {
      assert t.right == NullSingle && Identity(t) == Compound(Identity(t.left), Identity(t.right));
      assert Identity(NullSingle) == NullSingle && Identity(r) != NullSingle;
    }
  }

  lemma CouplesVerdict(c: Cond, x: Event, ls: set<Obj>, rs: set<Obj>, out: seq<Event>)
    requires Exact(ls, x) && NullSingle !in rs && And.Sends(c, LEFT_MEM, x, c.Found(LEFT_MEM, x.now, rs), out)
    requires Follow(Pairs(c, LEFT_MEM, ls, rs), out) == Some(Pairs(c, LEFT_MEM, Applied(ls, x), rs))
    requires x.tag == RETRACT || Nand.Count(c, x.now, rs) > 0 || Nand.Count(c, x.was, rs) > 0
    requires x.tag != MODIFY ==> Nand.Count(c, x.now, rs) > 0
    ensures Follow(Outer(c, ls, rs), out) == Some(Outer(c, Applied(ls, x), rs)) <==> !CrossesNull(c, x, rs)
  {
    var nulls, nulls' := Nulls(Alone(c, ls, rs)), Nulls(Alone(c, Applied(ls, x), rs));
    forall i | 0 <= i < |out| ensures Named(nulls, out[i].now) == {} && Named(nulls, out[i].was) == {} {
      var y :| y in c.Found(LEFT_MEM, x.now, rs) && And.CheckAnd(c, LEFT_MEM, x, y) == [out[i]];
      NullsNamed(Alone(c, ls, rs), x.now, y);
      NullsNamed(Alone(c, ls, rs), x.was, y);
    }
    FollowFrame(Pairs(c, LEFT_MEM, ls, rs), out, nulls);
    SameNulls(c, x, ls, rs);
  }

  lemma SameNulls(c: Cond, x: Event, ls: set<Obj>, rs: set<Obj>)
    requires Exact(ls, x) && NullSingle !in rs
    requires x.tag == RETRACT || Nand.Count(c, x.now, rs) > 0 || Nand.Count(c, x.was, rs) > 0
    requires x.tag != MODIFY ==> Nand.Count(c, x.now, rs) > 0
    ensures Pairs(c, LEFT_MEM, Applied(ls, x), rs) + Nulls(Alone(c, ls, rs)) == Outer(c, Applied(ls, x), rs) <==> !CrossesNull(c, x, rs)
  {
    var a, a' := Alone(c, ls, rs), Alone(c, Applied(ls, x), rs);
    Nand.EmptyCount(c, x.now, rs);
    Nand.EmptyCount(c, x.was, rs);
    Nand.AloneApplied(c, x, ls, rs);
    PairsApart(c, Applied(ls, x), rs);
    assert a == a' <==> !CrossesNull(c, x, rs) by {
      hide Alone, Nand.Count;
      if CrossesNull(c, x, rs) { assert (x.was in a && x.was !in a') || (x.now in a' && x.now !in a); }
    }
    assert Outer(c, Applied(ls, x), rs) == Pairs(c, LEFT_MEM, Applied(ls, x), rs) + Nulls(a');
    hide *;
    NullsApart(Pairs(c, LEFT_MEM, Applied(ls, x), rs), a, a');
  }

  lemma PairsApart(c: Cond, ls: set<Obj>, rs: set<Obj>)
    requires NullSingle !in rs
    ensures forall t :: t in Pairs(c, LEFT_MEM, ls, rs) ==> t.Compound? && t.right != NullSingle
  {}

  lemma NullsApart(ps: set<Obj>, a: set<Obj>, b: set<Obj>)
    requires forall t :: t in ps ==> t.Compound? && t.right != NullSingle
    ensures ps + Nulls(a) == ps + Nulls(b) <==> a == b
  {
    if ps + Nulls(a) == ps + Nulls(b) {
      forall l ensures l in a <==> l in b {
        assert Compound(l, NullSingle) in ps + Nulls(a) <==> l in a;
        assert Compound(l, NullSingle) in ps + Nulls(b) <==> l in b;
      }
    }
  }

  lemma NullVerdict(c: Cond, x: Event, ls: set<Obj>, rs: set<Obj>)
    requires Exact(ls, x) && NullSingle !in rs
    requires c.Partners(LEFT_MEM, x.now, rs) == {} && c.Partners(LEFT_MEM, x.was, rs) == {}
    ensures Follow(Outer(c, ls, rs), SendNull(x)) == Some(Outer(c, Applied(ls, x), rs))
  {
    var at, ps, a := Outer(c, ls, rs), Pairs(c, LEFT_MEM, ls, rs), Alone(c, ls, rs);
    AlonesApplied(c, x, ls, rs);
    SamePairs(c, x, ls, rs);
    FollowNone(at);
    hide Outer, Pairs, Alone, Follow, Exact, Applied, Named;
    NullsApplied(a, x, ps, rs);
    FollowStep(at, [], SendNull(x), at, Outer(c, Applied(ls, x), rs));
    assert [] + SendNull(x) == SendNull(x);
  }

  lemma AlonesApplied(c: Cond, x: Event, ls: set<Obj>, rs: set<Obj>)
    requires Exact(ls, x) && c.Partners(LEFT_MEM, x.now, rs) == {} && c.Partners(LEFT_MEM, x.was, rs) == {}
    ensures Alone(c, Applied(ls, x), rs) == Alone(c, ls, rs) - Gone(x) + Come(x)
    ensures x.tag != 0 && (x.tag != MODIFY ==> x.now == x.was) && (Goes(x.tag) ==> x.was in Alone(c, ls, rs))
    ensures Appears(x.tag) ==> Named(Alone(c, ls, rs) - Gone(x), x.now) == {}
  {
    Nand.AloneApplied(c, x, ls, rs);
    Nand.AloneNamed(c, x, ls, rs);
  }

  lemma SamePairs(c: Cond, x: Event, ls: set<Obj>, rs: set<Obj>)
    requires Exact(ls, x) && c.Partners(LEFT_MEM, x.now, rs) == {} && c.Partners(LEFT_MEM, x.was, rs) == {}
    ensures Pairs(c, LEFT_MEM, Applied(ls, x), rs) == Pairs(c, LEFT_MEM, ls, rs)
    ensures NullSingle !in rs ==> forall t :: t in Pairs(c, LEFT_MEM, ls, rs) ==> t.Compound? && t.right != NullSingle
    ensures Outer(c, ls, rs) == Pairs(c, LEFT_MEM, ls, rs) + Nulls(Alone(c, ls, rs))
    ensures Outer(c, Applied(ls, x), rs) == Pairs(c, LEFT_MEM, Applied(ls, x), rs) + Nulls(Alone(c, Applied(ls, x), rs))
    ensures Goes(x.tag) ==> x.was in Alone(c, ls, rs)
  {
    var kept := ls - Gone(x);
    PairsByPartners(c, ls, rs);
    PairsByPartners(c, Applied(ls, x), rs);
  }

  lemma NullsApplied(a: set<Obj>, x: Event, ps: set<Obj>, rs: set<Obj>)
    requires x.tag != 0 && (x.tag != MODIFY ==> x.now == x.was) && (Goes(x.tag) ==> x.was in a)
    requires Appears(x.tag) ==> Named(a - Gone(x), x.now) == {}
    requires forall t :: t in ps ==> t.Compound? && t.right != NullSingle
    ensures var at, e := ps + Nulls(a), SendNull(x)[0];
      Exact(at, e) && Applied(at, e) == ps + Nulls(a - Gone(x) + Come(x))
  {
    var at, e := ps + Nulls(a), SendNull(x)[0];
    assert Gone(e) == Nulls(Gone(x)) && Come(e) == Nulls(Come(x));
    assert Nulls(a) - Nulls(Gone(x)) == Nulls(a - Gone(x));
    assert Nulls(a - Gone(x) + Come(x)) == Nulls(a - Gone(x)) + Nulls(Come(x));
    assert at - Gone(e) == ps + Nulls(a - Gone(x));
    if Appears(x.tag) {
      forall t | t in ps + Nulls(a - Gone(x)) ensures Identity(t) != Identity(e.now) {
        if t in ps {
          assert Identity(t.right) != NullSingle && Identity(NullSingle) == NullSingle;
        } else {
          assert t.left !in Named(a - Gone(x), x.now);
        }
      }
    }
  }

  lemma CouplesModify(c: Cond, x: Event, rs: set<Obj>, out: seq<Event>)
    requires And.Sends(c, LEFT_MEM, x, c.Found(LEFT_MEM, x.now, rs), out)
    ensures x.tag != MODIFY ==> Nand.NoModify(out)
  {
    And.SendsModifies(c, LEFT_MEM, x, c.Found(LEFT_MEM, x.now, rs), out);
  }

  /** The couples of the arriving tuple or its couple with the null single, and its new count. */
  method SendLeft(c: Cond, x: Event, from: int, rs: set<Obj>, ghost ls: set<Obj>) returns (count: int, out: seq<Event>)
    requires Unique(ls) && Unique(rs) && Exact(ls, x) && NullSingle !in rs
    requires from == if Goes(x.tag) then Nand.Count(c, x.was, rs) else 0
    ensures x.tag != MODIFY ==> Nand.NoModify(out)
    ensures Missed(c, LEFT_MEM, x, rs) == {} && Appears(x.tag) ==> count == Nand.Count(c, x.now, rs)
    ensures Missed(c, LEFT_MEM, x, rs) == {} ==>
      (Follow(Outer(c, ls, rs), out) == Some(Outer(c, Applied(ls, x), rs)) <==> !CrossesNull(c, x, rs))
  {
    assert x.tag != MODIFY ==> Nand.NoModify(SendNull(x));
    assert x.tag == RETRACT ==> Goes(x.tag) && !Appears(x.tag);
    hide *;
    if x.tag == RETRACT && from == 0 {
      count, out := from, SendNull(x);
      RetractVerdict(c, x, ls, rs);
      return;
    }
    count, out := ScanLeft(c, x, from, rs, ls);
    CouplesModify(c, x, rs, out);
    ScanVerdict(c, x, ls, rs, out);
    out := if |out| == 0 then SendNull(x) else out;
  }

  /** Stores the arriving tuple with its count. */
  method TakeLeft(c: Cond, x: Event, before: map<Obj, int>, rs: set<Obj>) returns (left: map<Obj, int>, out: seq<Event>)
    requires Unique(before.Keys) && Unique(rs) && Exact(before.Keys, x) && Nand.Counted(c, before, rs) && NullSingle !in rs
    ensures left.Keys == Applied(before.Keys, x) && (x.tag != MODIFY ==> Nand.NoModify(out))
    ensures Missed(c, LEFT_MEM, x, rs) == {} ==> Nand.Counted(c, left, rs)
    ensures Missed(c, LEFT_MEM, x, rs) == {} ==>
      (Follow(Outer(c, before.Keys, rs), out) == Some(Outer(c, left.Keys, rs)) <==> !CrossesNull(c, x, rs))
  {
    var count := if Goes(x.tag) then before[x.was] else 0;
    KeepApplied(c, x, before, rs);
    hide *;
    count, out := SendLeft(c, x, count, rs, before.Keys);
    left := Nand.Keep(before, x, count);
    KeepKeys(before, x, count);
    KeepCounted(c, x, before, rs, count);
  }

  lemma KeepApplied(c: Cond, x: Event, before: map<Obj, int>, rs: set<Obj>)
    requires Exact(before.Keys, x) && Nand.Counted(c, before, rs)
    ensures Goes(x.tag) ==> x.was in before && before[x.was] == Nand.Count(c, x.was, rs)
    ensures Nand.Keep(before, x, 0).Keys == Applied(before.Keys, x)
  {}

  lemma KeepKeys(before: map<Obj, int>, x: Event, count: int)
    ensures Nand.Keep(before, x, count).Keys == Nand.Keep(before, x, 0).Keys
  {}

  lemma KeepCounted(c: Cond, x: Event, before: map<Obj, int>, rs: set<Obj>, count: int)
    requires Nand.Counted(c, before, rs)
    ensures (Appears(x.tag) ==> count == Nand.Count(c, x.now, rs)) ==> Nand.Counted(c, Nand.Keep(before, x, count), rs)
  {}

  lemma RetractVerdict(c: Cond, x: Event, ls: set<Obj>, rs: set<Obj>)
    requires Exact(ls, x) && NullSingle !in rs && x.tag == RETRACT && Nand.Count(c, x.was, rs) == 0
    ensures Follow(Outer(c, ls, rs), SendNull(x)) == Some(Outer(c, Applied(ls, x), rs)) && !CrossesNull(c, x, rs)
  {
    Nand.EmptyCount(c, x.was, rs);
    NullVerdict(c, x, ls, rs);
  }

  /** The couples, or the couple with the null single if there is none, turn one outer join into the other. */
  lemma ScanVerdict(c: Cond, x: Event, ls: set<Obj>, rs: set<Obj>, out: seq<Event>)
    requires Exact(ls, x) && NullSingle !in rs && And.Sends(c, LEFT_MEM, x, c.Found(LEFT_MEM, x.now, rs), out)
    requires Missed(c, LEFT_MEM, x, rs) == {} ==> Follow(Pairs(c, LEFT_MEM, ls, rs), out) == Some(Pairs(c, LEFT_MEM, Applied(ls, x), rs))
    requires x.tag == RETRACT ==> Nand.Count(c, x.was, rs) != 0
    ensures Missed(c, LEFT_MEM, x, rs) == {} ==>
      (Follow(Outer(c, ls, rs), if |out| == 0 then SendNull(x) else out) == Some(Outer(c, Applied(ls, x), rs)) <==> !CrossesNull(c, x, rs))
  {
    if Missed(c, LEFT_MEM, x, rs) == {} {
      SentNone(c, x, rs, out);
      Nand.EmptyCount(c, x.was, rs);
      Nand.EmptyCount(c, x.now, rs);
      hide Missed, And.Sends, Follow, Outer, Nand.Count, Applied, SendNull;
      if |out| == 0 {
        NullVerdict(c, x, ls, rs);
      } else {
        CouplesVerdict(c, x, ls, rs, out);
      }
    }
  }

  class OandNode {
    const c: Cond
    var left: map<Obj, int>
    var right: set<Obj>

    constructor (c: Cond)
      ensures Valid() && this.c == c && left == map[] && right == {}
    {
      this.c := c;
      left, right := map[], {};
    }

    ghost predicate Valid()
      reads this
    {
      Unique(left.Keys) && Unique(right) && NullSingle !in right && Nand.Counted(c, left, right)
    }

    /** What the node has let through. */
    ghost function View(): set<Obj>
      reads this
    {
      Outer(c, left.Keys, right)
    }

    /** An arrival by the right. A modification leaves the counts right exactly if it misses no left item. */
    method CallByRight(e: Event) returns (out: seq<Event>)
      requires Valid() && Fits(right, e) && e.now != NullSingle && e.was != NullSingle
      modifies this
      ensures right == Stored(old(right), e) && left.Keys == old(left.Keys)
      ensures Valid() <==> Missed(c, RIGHT_MEM, e, left.Keys) == {} || Named(old(right), e.was) == {}
      ensures Valid() ==> Follow(old(View()), out) == Some(View())
    {
      out := [];
      ghost var rs := right;
      var go, x;
      right, go, x := Store(right, e);
      FollowNone(Outer(c, left.Keys, rs));
      assert go ==> x.now != NullSingle && x.was != NullSingle;
      if go {
        left, out := Recount(c, x, left, rs);
      }
    }

    /** An arrival by the left. A modification of a stored tuple that misses no right item is wrong exactly
        if it takes the tuple from no partner to some or from some to none. */
    method CallByLeft(e: Event) returns (out: seq<Event>)
      requires Valid() && Fits(left.Keys, e)
      modifies this
      ensures left.Keys == Stored(old(left.Keys), e) && right == old(right)
      ensures var modified := e.tag == MODIFY && Named(old(left.Keys), e.was) != {};
        && (modified ==> Missed(c, LEFT_MEM, e, right) == {}) ==>
        Valid() && (Follow(old(View()), out) == Some(View()) <==> !(modified && CrossesNull(c, e, right)))
      ensures e.tag != MODIFY ==> Nand.NoModify(out)
    {
      out := [];
      ghost var ls := left.Keys;
      var mem, go, x := Store(left.Keys, e);
      FollowNone(Outer(c, ls, right));
      hide Missed, Nand.Counted, Nand.Count, Fits, Follow, Outer;
      if go {
        left, out := TakeLeft(c, x, left, right);
      }
    }
  }

  /** A tuple that stood with the null single finds a partner: its couple is inserted and the null couple stays. */
  lemma CrossesNullExample()
    ensures var c := Cond(_ => [], _ => [], (l: Obj, r: Obj) => l.Single? && r.Single? && l.value == r.value);
      var e, rs := Event(MODIFY, Single(1, 7), Single(1, 3)), {Single(2, 7)};
      CrossesNull(c, e, rs) && Missed(c, LEFT_MEM, e, rs) == {} && Fits({Single(1, 3)}, e)
  {
    Nand.LosesRetractExample();
  }
}
