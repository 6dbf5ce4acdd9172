/** AND: the couples of a left and a right item that satisfy the node's code. */
module AndNodes {
  import opened Wrappers
  import opened Tuples
  import opened Joins

  /** What the node sends on for one couple. */
  function CheckAnd(c: Cond, side: Side, e: Event, item: Obj): (es: seq<Event>) {
    var res, res2 := c.Rest(side, e.now, item), e.tag == MODIFY && c.Rest(side, e.was, item);
    var tag := NewTag(e.tag, res, res2);
    var now, was := Couple(side, e.now, item), Couple(side, e.was, item);
    if res || res2 then [Event(tag, if tag == RETRACT then was else now, if tag == INSERT then now else was)] else []
  }

  /** What is downstream of e when the items in done have been looked at. */
  ghost function Halfway(c: Cond, side: Side, e: Event, kept: set<Obj>, items: set<Obj>, done: set<Obj>): set<Obj> {
    Pairs(c, side, kept, items) + Pairs(c, side, Come(e), done) + Pairs(c, side, Gone(e), items - done)
  }

  lemma HalfwayStarts(c: Cond, side: Side, e: Event, mem: set<Obj>, items: set<Obj>, done: set<Obj>)
    requires Exact(mem, e) && Missed(c, side, e, items) == {} && done <= items
    requires forall x :: x in done && x in c.Found(side, e.now, items) ==> CheckAnd(c, side, e, x) == []
    ensures Halfway(c, side, e, mem - Gone(e), items, done) == Pairs(c, side, mem, items)
  {
    forall x | x in done ensures Old(c, side, e, x) == New(c, side, e, x) == {} {
      if x in c.Found(side, e.now, items) { CheckAndIs(c, side, e, items, x); }
      assert x !in Missed(c, side, e, items);
    }
    NothingNew(c, side, Come(e), done);
    NothingNew(c, side, Gone(e), done);
    assert items == items - done + done;
    assert mem == mem - Gone(e) + Gone(e);
    hide CheckAnd, Missed;
  }

  lemma NothingNew(c: Cond, side: Side, ms: set<Obj>, items: set<Obj>)
    requires forall x :: x in items ==> Pairs(c, side, ms, {x}) == {}
    ensures Pairs(c, side, ms, items) == {}
  {
    forall m, x | m in ms && x in items ensures !c.Match(side, m, x) {
      assert c.Match(side, m, x) ==> Couple(side, m, x) in Pairs(c, side, ms, {x});
    }
  }

  lemma HalfwayEnds(c: Cond, side: Side, e: Event, mem: set<Obj>, items: set<Obj>)
    ensures Halfway(c, side, e, mem - Gone(e), items, items) == Pairs(c, side, Applied(mem, e), items)
  {}

  lemma NoOther(c: Cond, side: Side, kept: set<Obj>, items: set<Obj>, o: Obj, item: Obj)
    requires Named(kept, o) == {} && Unique(items) && item in items
    ensures Named(Pairs(c, side, kept, items), Couple(side, o, item)) == {}
  {
    forall t | t in Pairs(c, side, kept, items) ensures Identity(t) != Identity(Couple(side, o, item)) {
      var m, x :| m in kept && x in items && c.Match(side, m, x) && t == Couple(side, m, x);
      assert m !in Named(kept, o);
    }
  }

  /** The couple that item makes with each state of e's tuple, if they match. */
  ghost function Old(c: Cond, side: Side, e: Event, item: Obj): set<Obj> { Pairs(c, side, Gone(e), {item}) }
  ghost function New(c: Cond, side: Side, e: Event, item: Obj): set<Obj> { Pairs(c, side, Come(e), {item}) }

  lemma HalfwayNext(c: Cond, side: Side, e: Event, kept: set<Obj>, items: set<Obj>, done: set<Obj>, item: Obj)
    requires e.was !in kept && done <= items && item in items - done
    ensures var at, next := Halfway(c, side, e, kept, items, done), Halfway(c, side, e, kept, items, done + {item});
      Old(c, side, e, item) <= at && next == at - Old(c, side, e, item) + New(c, side, e, item)
  {
    SplitItems(c, side, Gone(e), items - done, item);
    assert items - (done + {item}) == items - done - {item};
    assert done + {item} - {item} == done;
    SplitItems(c, side, Come(e), done + {item}, item);
    Apart(c, side, kept, items, Gone(e), item);
    Apart(c, side, Come(e), done, Gone(e), item);
    Apart(c, side, Gone(e), items - done - {item}, Gone(e), item);
  }

  lemma SplitItems(c: Cond, side: Side, ms: set<Obj>, items: set<Obj>, item: Obj)
    requires item in items
    ensures Pairs(c, side, ms, items) == Pairs(c, side, ms, items - {item}) + Pairs(c, side, ms, {item})
  {}

  lemma Apart(c: Cond, side: Side, ms: set<Obj>, items: set<Obj>, gone: set<Obj>, item: Obj)
    requires item !in items || ms !! gone
    ensures Pairs(c, side, ms, items) !! Pairs(c, side, gone, {item})
  {}

  ghost predicate SendsChange(c: Cond, side: Side, e: Event, item: Obj, es: seq<Event>) {
    && |es| == 1 && Gone(es[0]) == Old(c, side, e, item) && Come(es[0]) == New(c, side, e, item)
    && es[0].tag != 0 && (es[0].tag != MODIFY ==> es[0].now == es[0].was)
    && (Appears(es[0].tag) ==> Appears(e.tag) && es[0].now == Couple(side, e.now, item))
  }

  /** What is sent for one couple is what it takes to count its item as done. */
  lemma CheckAndIs(c: Cond, side: Side, e: Event, items: set<Obj>, item: Obj)
    requires e.tag != 0 && (e.tag != MODIFY ==> e.now == e.was) && Missed(c, side, e, items) == {}
    requires item in items && c.Key(Other(side), item) == c.Key(side, e.now)
    ensures CheckAnd(c, side, e, item) == [] ==> Old(c, side, e, item) == New(c, side, e, item) == {}
    ensures CheckAnd(c, side, e, item) != [] ==> SendsChange(c, side, e, item, CheckAnd(c, side, e, item))
  {
    assert item !in Missed(c, side, e, items);
  }

  lemma HalfwayStep(c: Cond, side: Side, e: Event, mem: set<Obj>, items: set<Obj>, done: set<Obj>, item: Obj)
    requires Exact(mem, e) && Missed(c, side, e, items) == {} && Unique(mem) && Unique(items) && done <= items
    requires item in items - done && c.Key(Other(side), item) == c.Key(side, e.now)
    ensures var es, kept := CheckAnd(c, side, e, item), mem - Gone(e);
      var at, next := Halfway(c, side, e, kept, items, done), Halfway(c, side, e, kept, items, done + {item});
      if es == [] then next == at else Exact(at, es[0]) && next == Applied(at, es[0])
  {
    var es, kept := CheckAnd(c, side, e, item), mem - Gone(e);
    var at := Halfway(c, side, e, kept, items, done);
    HalfwayNext(c, side, e, kept, items, done, item);
    CheckAndIs(c, side, e, items, item);
    if es != [] && Appears(es[0].tag) {
      NoOther(c, side, kept, items, e.now, item);
      NoOtherIn(c, side, Come(e), items, done, e.now, item);
      NoOtherIn(c, side, Gone(e), items, items - done - {item}, e.now, item);
      SplitItems(c, side, Gone(e), items - done, item);
      NamedParts(at, es[0], Pairs(c, side, kept, items), Pairs(c, side, Come(e), done), Pairs(c, side, Gone(e), items - done - {item}));
    }
  }

  lemma NoOtherIn(c: Cond, side: Side, ms: set<Obj>, items: set<Obj>, part: set<Obj>, o: Obj, item: Obj)
    requires part <= items - {item} && Unique(items) && item in items
    ensures Named(Pairs(c, side, ms, part), Couple(side, o, item)) == {}
  {}

  lemma NamedParts(at: set<Obj>, e: Event, p: set<Obj>, q: set<Obj>, r: set<Obj>)
    requires at == p + q + (r + Gone(e))
    requires Named(p, e.now) == Named(q, e.now) == Named(r, e.now) == {}
    ensures Named(at - Gone(e), e.now) == {}
  {
    forall x | x in at - Gone(e) ensures Identity(x) != Identity(e.now) {
      assert x !in Named(p, e.now) && x !in Named(q, e.now) && x !in Named(r, e.now);
    }
  }

  /** o is what the node sends on for one of the items ys. */
  ghost predicate SentFor(c: Cond, side: Side, e: Event, ys: set<Obj>, o: Event) {
    exists y :: y in ys && CheckAnd(c, side, e, y) == [o]
  }

  /** es is what the node sends on for the items ys, in some order. */
  ghost predicate Sends(c: Cond, side: Side, e: Event, ys: set<Obj>, es: seq<Event>) {
    && (forall i :: 0 <= i < |es| ==> SentFor(c, side, e, ys, es[i]))
    && (forall y :: y in ys && CheckAnd(c, side, e, y) != [] ==> CheckAnd(c, side, e, y)[0] in es)
  }

  lemma SendsOne(c: Cond, side: Side, e: Event, ys: set<Obj>, es: seq<Event>, y: Obj)
    requires Sends(c, side, e, ys, es)
    ensures Sends(c, side, e, ys + {y}, es + CheckAnd(c, side, e, y))
  {
    var more := CheckAnd(c, side, e, y);
    assert forall i :: |es| <= i < |es + more| ==> more == [(es + more)[i]];
    forall z | z in ys + {y} && CheckAnd(c, side, e, z) != [] ensures CheckAnd(c, side, e, z)[0] in es + more {}
  }

  lemma SendsMore(c: Cond, side: Side, e: Event, ys: set<Obj>, zs: set<Obj>, es: seq<Event>)
    requires Sends(c, side, e, ys, es)
    requires ys <= zs && forall x :: x in zs - ys ==> CheckAnd(c, side, e, x) == []
    ensures Sends(c, side, e, zs, es)
  {
    forall y | y in zs && CheckAnd(c, side, e, y) != [] ensures CheckAnd(c, side, e, y)[0] in es {
      assert y !in zs - ys;
    }
  }

  lemma SendsNone(c: Cond, side: Side, e: Event, ys: set<Obj>, es: seq<Event>)
    requires Sends(c, side, e, ys, es)
    ensures es == [] <==> forall y :: y in ys ==> CheckAnd(c, side, e, y) == []
  {
    if |es| > 0 {
      var k := 0;
      var y :| y in ys && CheckAnd(c, side, e, y) == [es[k]];
    }
  }

  /** The couples of e's tuple with the items that the index finds, but for some that send nothing. */
  method Scan(c: Cond, side: Side, e: Event, items: set<Obj>, seen: set<Obj>, ghost mem: set<Obj>) returns (out: seq<Event>)
    requires Exact(mem, e) && Unique(mem) && Unique(items) && seen <= c.Found(side, e.now, items)
    requires forall x :: x in c.Found(side, e.now, items) - seen ==> CheckAnd(c, side, e, x) == []
    ensures Sends(c, side, e, c.Found(side, e.now, items), out)
    ensures Missed(c, side, e, items) == {} ==> Follow(Pairs(c, side, mem, items), out) == Some(Pairs(c, side, Applied(mem, e), items))
  {
    out := [];
    var pending := seen;
    ghost var all, kept, sound, before := pending, mem - Gone(e), Missed(c, side, e, items) == {}, Pairs(c, side, mem, items);
    if sound { HalfwayStarts(c, side, e, mem, items, items - all); }
    assert all - pending == {} && Sends(c, side, e, {}, []);
    hide Missed, Halfway, CheckAnd, Pairs, Exact, Unique, Follow, Sends;
    FollowNone(before);
    while pending != {}
      invariant pending <= all && Sends(c, side, e, all - pending, out)
      invariant sound ==> Follow(before, out) == Some(Halfway(c, side, e, kept, items, items - pending))
      decreases |pending|
    {
      var item :| item in pending;
      if sound { ScanStep(c, side, e, mem, items, before, out, pending, item); }
      SendsOne(c, side, e, all - pending, out, item);
      out := out + CheckAnd(c, side, e, item);
      assert all - pending + {item} == all - (pending - {item});
      pending := pending - {item};
    }
    assert items - {} == items && all - {} == all;
    SendsMore(c, side, e, all, c.Found(side, e.now, items), out);
    HalfwayEnds(c, side, e, mem, items);
  }

  lemma ScanStep(c: Cond, side: Side, e: Event, mem: set<Obj>, items: set<Obj>, before: set<Obj>, out: seq<Event>, pending: set<Obj>, item: Obj)
    requires Exact(mem, e) && Unique(mem) && Unique(items) && Missed(c, side, e, items) == {}
    requires item in pending && pending <= c.Found(side, e.now, items)
    requires Follow(before, out) == Some(Halfway(c, side, e, mem - Gone(e), items, items - pending))
    ensures Follow(before, out + CheckAnd(c, side, e, item)) == Some(Halfway(c, side, e, mem - Gone(e), items, items - (pending - {item})))
  {
    var kept, done := mem - Gone(e), items - pending;
    assert items - (pending - {item}) == done + {item};
    HalfwayStep(c, side, e, mem, items, done, item);
    hide Halfway, Follow, Exact;
    FollowStep(before, out, CheckAnd(c, side, e, item), Halfway(c, side, e, kept, items, done), Halfway(c, side, e, kept, items, done + {item}));
  }

  /** A tuple that no event names as its old state stays. */
  lemma {:induction false} Lingers(mem: set<Obj>, es: seq<Event>, t: Obj)
    requires t in mem && Follow(mem, es).Some? && forall i :: 0 <= i < |es| ==> es[i].was != t || !Goes(es[i].tag)
    ensures t in Follow(mem, es).value
    decreases |es|
  {
    if es != [] { Lingers(mem, es[..|es| - 1], t); }
  }

  /** A tuple that no event brings in stays away. */
  lemma {:induction false} StaysAway(mem: set<Obj>, es: seq<Event>, t: Obj)
    requires t !in mem && Follow(mem, es).Some? && forall i :: 0 <= i < |es| ==> es[i].now != t || !Appears(es[i].tag)
    ensures t !in Follow(mem, es).value
    decreases |es|
  {
    if es != [] { StaysAway(mem, es[..|es| - 1], t); }
  }

  /** A modification that misses an item gives a wrong stream, in whatever order it is sent. */
  lemma MissedIsWrong(c: Cond, side: Side, e: Event, mem: set<Obj>, items: set<Obj>, out: seq<Event>)
    requires Exact(mem, e) && Missed(c, side, e, items) != {}
    requires Sends(c, side, e, c.Found(side, e.now, items), out)
    ensures Follow(Pairs(c, side, mem, items), out) != Some(Pairs(c, side, Applied(mem, e), items))
  {
    var x :| x in Missed(c, side, e, items);
    var t, before, found := Couple(side, e.was, x), Pairs(c, side, mem, items), c.Found(side, e.now, items);
    SentStates(c, side, e, found, out);
    if c.Key(Other(side), x) == c.Key(side, e.was) {
      assert c.Match(side, e.was, x) && t in before && t !in Pairs(c, side, Applied(mem, e), items) && x !in found;
      hide Follow, Exact, Sends, Missed, CheckAnd, Pairs, Applied;
      if Follow(before, out).Some? { Lingers(before, out, t); }
    } else {
      assert x in found && CheckAnd(c, side, e, x)[0].was == t && Goes(CheckAnd(c, side, e, x)[0].tag);
      assert CheckAnd(c, side, e, x)[0] in out && t !in before;
      hide Exact, Sends, Missed, CheckAnd, Pairs, Applied, Follow;
      var k :| 0 <= k < |out| && out[k] == CheckAnd(c, side, e, x)[0];
      NotThere(before, out, k);
    }
  }

  /** A stream cannot take away what is not there. */
  lemma NotThere(mem: set<Obj>, es: seq<Event>, k: nat)
    requires k < |es| && Goes(es[k].tag) && es[k].was !in mem
    requires forall i :: 0 <= i < |es| ==> es[i].now != es[k].was || !Appears(es[i].tag)
    ensures Follow(mem, es) == None
  {
    if Follow(mem, es).Some? {
      FollowAt(mem, es, k);
      StaysAway(mem, es[..k], es[k].was);
    }
  }

  lemma SentStates(c: Cond, side: Side, e: Event, ys: set<Obj>, out: seq<Event>)
    requires Sends(c, side, e, ys, out) && e.tag == MODIFY && e.now != e.was
    ensures forall i :: 0 <= i < |out| ==> Appears(out[i].tag) ==> exists y :: y in ys && out[i].now == Couple(side, e.now, y)
    ensures forall i :: 0 <= i < |out| ==> Goes(out[i].tag) ==> exists y :: y in ys && out[i].was == Couple(side, e.was, y)
  {
    forall i | 0 <= i < |out|
      ensures Appears(out[i].tag) ==> exists y :: y in ys && out[i].now == Couple(side, e.now, y)
      ensures Goes(out[i].tag) ==> exists y :: y in ys && out[i].was == Couple(side, e.was, y)
    {
      var y :| y in ys && CheckAnd(c, side, e, y) == [out[i]];
      assert out[i] == CheckAnd(c, side, e, y)[0];
    }
  }

  lemma SendsModifies(c: Cond, side: Side, e: Event, ys: set<Obj>, es: seq<Event>)
    requires Sends(c, side, e, ys, es)
    ensures forall i :: 0 <= i < |es| && es[i].tag == MODIFY ==> e.tag == MODIFY && Modifies(side, e, es[i])
  {
    forall i | 0 <= i < |es| && es[i].tag == MODIFY ensures e.tag == MODIFY && Modifies(side, e, es[i]) {
      var y :| y in ys && CheckAnd(c, side, e, y) == [es[i]];
      assert es[i] == CheckAnd(c, side, e, y)[0];
      assert es[i].now == Couple(side, e.now, y) && es[i].was == Couple(side, e.was, y);
    }
  }

  class AndNode {
    const c: Cond
    var left: set<Obj>
    var right: set<Obj>

    constructor (c: Cond)
      ensures Valid() && this.c == c && left == {} && right == {}
    {
      this.c := c;
      left, right := {}, {};
    }

    ghost predicate Valid()
      reads this
    {
      Unique(left) && Unique(right)
    }

    /** What the node has let through. */
    ghost function View(): set<Obj>
      reads this
    {
      Pairs(c, LEFT_MEM, left, right)
    }

    /** An arrival by the left turns the join before it into the join after it, unless it changes the
        key of a stored tuple and so misses some right item. */
    method CallByLeft(e: Event) returns (out: seq<Event>)
      requires Valid() && Fits(left, e)
      modifies this
      ensures Valid() && left == Stored(old(left), e) && right == old(right)
      ensures Follow(old(View()), out) == Some(View()) <==> Missed(c, LEFT_MEM, e, right) == {} || Named(old(left), e.was) == {}
      ensures forall i :: 0 <= i < |out| && out[i].tag == MODIFY ==> e.tag == MODIFY && Modifies(LEFT_MEM, e, out[i])
    {
      out := [];
      ghost var mem := left;
      var go, x;
      left, go, x := Store(left, e);
      if go {
        out := Scan(c, LEFT_MEM, x, right, c.Found(LEFT_MEM, x.now, right), mem);
        SendsModifies(c, LEFT_MEM, x, c.Found(LEFT_MEM, x.now, right), out);
        Verdict(c, LEFT_MEM, x, mem, right, out);
      }
    }

    /** The same by the right. */
    method CallByRight(e: Event) returns (out: seq<Event>)
      requires Valid() && Fits(right, e)
      modifies this
      ensures Valid() && right == Stored(old(right), e) && left == old(left)
      ensures Follow(old(View()), out) == Some(View()) <==> Missed(c, RIGHT_MEM, e, left) == {} || Named(old(right), e.was) == {}
      ensures forall i :: 0 <= i < |out| && out[i].tag == MODIFY ==> e.tag == MODIFY && Modifies(RIGHT_MEM, e, out[i])
    {
      out := [];
      ghost var mem := right;
      var go, x;
      right, go, x := Store(right, e);
      PairsEitherWay(c, left, mem);
      PairsEitherWay(c, left, right);
      if go {
        out := Scan(c, RIGHT_MEM, x, left, c.Found(RIGHT_MEM, x.now, left), mem);
        SendsModifies(c, RIGHT_MEM, x, c.Found(RIGHT_MEM, x.now, left), out);
        Verdict(c, RIGHT_MEM, x, mem, left, out);
      }
    }
  }

  lemma Verdict(c: Cond, side: Side, e: Event, mem: set<Obj>, items: set<Obj>, out: seq<Event>)
    requires Exact(mem, e) && Sends(c, side, e, c.Found(side, e.now, items), out)
    requires Missed(c, side, e, items) == {} ==> Follow(Pairs(c, side, mem, items), out) == Some(Pairs(c, side, Applied(mem, e), items))
    ensures Follow(Pairs(c, side, mem, items), out) == Some(Pairs(c, side, Applied(mem, e), items)) <==> Missed(c, side, e, items) == {}
  {
    if Missed(c, side, e, items) != {} { MissedIsWrong(c, side, e, mem, items, out); }
  }

  /** A tuple found its partner under key 3 and is modified to key 7: the couple is never retracted. */
  lemma MissedExample()
    ensures var c := Cond((l: Obj) => if l.Single? then [l.value] else [], (r: Obj) => if r.Single? then [r.value] else [], (_, _) => true);
      Missed(c, LEFT_MEM, Event(MODIFY, Single(1, 7), Single(1, 3)), {Single(2, 3)}) == {Single(2, 3)}
  {}
}
