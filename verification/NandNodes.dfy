/** NAND: the left items without a partner on the right, by a count of partners for each. */
module NandNodes {
  import opened Wrappers
  import opened Tuples
  import opened Joins

  /** How many items of rs a left item matches. */
  ghost function Count(c: Cond, l: Obj, rs: set<Obj>): nat { |c.Partners(LEFT_MEM, l, rs)| }

  ghost predicate Counted(c: Cond, left: map<Obj, int>, rs: set<Obj>) {
    forall l :: l in left ==> left[l] == Count(c, l, rs)
  }

  function One(b: bool): int { if b then 1 else 0 }

  /** What an event on the right does to the count of l. */
  lemma CountApplied(c: Cond, l: Obj, rs: set<Obj>, x: Event)
    requires Unique(rs) && Exact(rs, x)
    ensures Count(c, l, Applied(rs, x)) ==
      Count(c, l, rs) + One(Appears(x.tag) && c.Match(LEFT_MEM, l, x.now)) - One(Goes(x.tag) && c.Match(LEFT_MEM, l, x.was))
  {
    var kept := rs - Gone(x);
    CountOneMore(c, l, kept, x.was);
    CountOneMore(c, l, kept, x.now);
    assert Goes(x.tag) ==> rs == kept + {x.was};
    assert Applied(rs, x) == if Appears(x.tag) then kept + {x.now} else kept;
    assert Goes(x.tag) || rs == kept;
    if Appears(x.tag) {
      assert x.now in kept ==> x.now in Named(kept, x.now);
    }
  }

  lemma CountOneMore(c: Cond, l: Obj, rs: set<Obj>, r: Obj)
    ensures Count(c, l, rs + {r}) == Count(c, l, rs) + One(r !in rs && c.Match(LEFT_MEM, l, r))
  {
    PartnersOneMore(c, l, rs, r);
    PartnersIn(c, l, rs, r);
    hide *;
    CountIs(c, l, rs);
    CountIs(c, l, rs + {r});
    OneIs(r !in rs && c.Match(LEFT_MEM, l, r));
    if r in rs { assert rs + {r} == rs; }
  }

  lemma PartnersIn(c: Cond, l: Obj, rs: set<Obj>, r: Obj)
    ensures r in c.Partners(LEFT_MEM, l, rs) ==> r in rs
  {}

  lemma CountIs(c: Cond, l: Obj, rs: set<Obj>)
    ensures Count(c, l, rs) == |c.Partners(LEFT_MEM, l, rs)|
  {}

  lemma OneIs(b: bool)
    ensures One(b) == if b then 1 else 0
  {}

  // ---------- an event on the right ----------

  /** The new count of l, and what is sent. */
  function CheckNandRight(c: Cond, x: Event, l: Obj, count: int): (r: (int, seq<Event>)) {
    var res := c.Rest(RIGHT_MEM, x.now, l);
    var res2 := if x.tag == MODIFY then c.Rest(RIGHT_MEM, x.was, l) else res;
    var tag := NewTag(x.tag, res, res2);
    var more := if Appears(tag) && res then count + 1 else count;
    var es := if (res || res2) && more == 1 && tag ^ 3 != 0 then [Event(tag ^ 3, l, l)] else [];
    (if Goes(x.tag) && res2 then more - 1 else more, es)
  }

  lemma CheckNandRightIs(c: Cond, x: Event, l: Obj, count: int)
    requires x.tag != 0 && (x.tag != MODIFY ==> x.now == x.was)
    ensures var r, o, n := CheckNandRight(c, x, l, count), Goes(x.tag) && c.Rest(RIGHT_MEM, x.was, l), Appears(x.tag) && c.Rest(RIGHT_MEM, x.now, l);
      && r.0 == count + One(n) - One(o) && NoModify(r.1)
      && (count >= One(o) ==> r.1 == (if count == 0 && n then [Event(RETRACT, l, l)] else if count == 1 && o && !n then [Event(INSERT, l, l)] else []))
  {
    NewTagIs(c.Rest(RIGHT_MEM, x.now, l), c.Rest(RIGHT_MEM, x.was, l));
  }

  /** The left items alone, when those in done have been brought up to date with rs'. */
  ghost function Halfway(c: Cond, ls: set<Obj>, rs: set<Obj>, rs': set<Obj>, done: set<Obj>): set<Obj> {
    Alone(c, done, rs') + Alone(c, ls - done, rs)
  }

  /** Which items the scan has counted anew. */
  ghost predicate Recounted(c: Cond, x: Event, before: map<Obj, int>, after: map<Obj, int>, pending: set<Obj>) {
    && after.Keys == before.Keys
    && forall l :: l in before ==>
      after[l] == if l in pending || l !in c.Found(RIGHT_MEM, x.now, before.Keys) then before[l]
        else before[l] + One(Appears(x.tag) && c.Rest(RIGHT_MEM, x.now, l)) - One(Goes(x.tag) && c.Rest(RIGHT_MEM, x.was, l))
  }

  /** The counts are right again exactly if no left item was missed. */
  lemma CountsRight(c: Cond, x: Event, before: map<Obj, int>, after: map<Obj, int>, rs: set<Obj>)
    requires Unique(rs) && Exact(rs, x) && Counted(c, before, rs) && Recounted(c, x, before, after, {})
    ensures Counted(c, after, Applied(rs, x)) <==> Missed(c, RIGHT_MEM, x, before.Keys) == {}
  {
    forall l | l in before
      ensures after[l] == Count(c, l, Applied(rs, x)) <==> l !in Missed(c, RIGHT_MEM, x, before.Keys)
    {
      CountApplied(c, l, rs, x);
    }
    if Missed(c, RIGHT_MEM, x, before.Keys) != {} {
      var l :| l in Missed(c, RIGHT_MEM, x, before.Keys);
      assert after[l] != Count(c, l, Applied(rs, x));
    }
  }

  lemma RightStep(c: Cond, x: Event, ls: set<Obj>, rs: set<Obj>, done: set<Obj>, l: Obj, count: int)
    requires Unique(ls) && Unique(rs) && Exact(rs, x) && Missed(c, RIGHT_MEM, x, ls) == {}
    requires done <= ls && l in ls - done && l in c.Found(RIGHT_MEM, x.now, ls) && count == Count(c, l, rs)
    ensures var es, rs' := CheckNandRight(c, x, l, count).1, Applied(rs, x);
      Turns(Halfway(c, ls, rs, rs', done), es, Halfway(c, ls, rs, rs', done + {l}))
  {
    var rs' := Applied(rs, x);
    assert l !in Missed(c, RIGHT_MEM, x, ls);
    CountApplied(c, l, rs, x);
    CheckNandRightIs(c, x, l, count);
    EmptyCount(c, l, rs);
    EmptyCount(c, l, rs');
    HalfwayNext(c, ls, rs, rs', done, l);
    hide *;
    FlipTurns(ls, Halfway(c, ls, rs, rs', done), Halfway(c, ls, rs, rs', done + {l}), l, CheckNandRight(c, x, l, count).1);
  }

  /** es is nothing, or the one exact event that turns at into next. */
  ghost predicate Turns(at: set<Obj>, es: seq<Event>, next: set<Obj>) {
    |es| <= 1 && if es == [] then next == at else Exact(at, es[0]) && next == Applied(at, es[0])
  }

  lemma StreamStep(mem: set<Obj>, es: seq<Event>, more: seq<Event>, at: set<Obj>, next: set<Obj>)
    requires Follow(mem, es) == Some(at) && Turns(at, more, next)
    ensures Follow(mem, es + more) == Some(next)
  {
    hide Follow, Exact;
    FollowStep(mem, es, more, at, next);
  }

  lemma FlipTurns(ls: set<Obj>, at: set<Obj>, next: set<Obj>, l: Obj, es: seq<Event>)
    requires Unique(ls) && at <= ls && l in ls && next - {l} == at - {l}
    requires es == if l !in at && l in next then [Event(INSERT, l, l)] else if l in at && l !in next then [Event(RETRACT, l, l)] else []
    ensures Turns(at, es, next)
  {
    if l in at {
      assert at == at - {l} + {l};
    } else {
      assert at == at - {l};
    }
    assert next == if l in next then at - {l} + {l} else at - {l};
    if es != [] { assert Applied(at, es[0]) == at - Gone(es[0]) + Come(es[0]); }
  }

  lemma EmptyCount(c: Cond, l: Obj, rs: set<Obj>)
    ensures Count(c, l, rs) == 0 <==> c.Partners(LEFT_MEM, l, rs) == {}
  {}

  lemma HalfwayNext(c: Cond, ls: set<Obj>, rs: set<Obj>, rs': set<Obj>, done: set<Obj>, l: Obj)
    requires done <= ls && l in ls - done
    ensures var at, next := Halfway(c, ls, rs, rs', done), Halfway(c, ls, rs, rs', done + {l});
      && at <= ls && (l in at <==> c.Partners(LEFT_MEM, l, rs) == {})
      && (l in next <==> c.Partners(LEFT_MEM, l, rs') == {}) && next - {l} == at - {l}
  {}

  // ---------- an event on the left ----------

  /** The new count of the arriving tuple and the new mask, after one item of the right. */
  function CheckNandLeft(c: Cond, x: Event, r: Obj, count: int, mask: Tag): (int, Tag) {
    var res := c.Rest(LEFT_MEM, x.now, r);
    var res2 := if x.tag == MODIFY then c.Rest(LEFT_MEM, x.was, r) else res;
    var tag := NewTag(x.tag, res, res2);
    var more := if Appears(tag) && res then count + 1 else count;
    (if Goes(x.tag) && res2 then more - 1 else more, if res || res2 then tag else mask)
  }

  /** The items that match the tuple's new state only. */
  ghost function NewOnly(c: Cond, x: Event, rs: set<Obj>): set<Obj> {
    c.Partners(LEFT_MEM, x.now, rs) - c.Partners(LEFT_MEM, x.was, rs)
  }

  /** What the mask says of the items looked at. */
  ghost predicate MaskTells(c: Cond, x: Event, done: set<Obj>, mask: Tag) {
    if x.tag == MODIFY then
      && (mask == 0 <==> c.Partners(LEFT_MEM, x.now, done) + c.Partners(LEFT_MEM, x.was, done) == {})
      && (c.Partners(LEFT_MEM, x.now, done) == {} ==> mask == 0 || mask == RETRACT)
      && (c.Partners(LEFT_MEM, x.was, done) == {} ==> mask == 0 || mask == INSERT)
      && (mask == INSERT ==> NewOnly(c, x, done) != {})
    else mask == if c.Partners(LEFT_MEM, x.now, done) == {} then 0 else INSERT
  }

  ghost function OldCount(c: Cond, x: Event, rs: set<Obj>): nat { if x.tag == MODIFY then Count(c, x.was, rs) else 0 }

  lemma LeftStep(c: Cond, x: Event, rs: set<Obj>, done: set<Obj>, r: Obj, count: int, mask: Tag)
    requires Appears(x.tag) && Missed(c, LEFT_MEM, x, rs) == {} && done <= rs
    requires r in rs - done && r in c.Found(LEFT_MEM, x.now, rs) && MaskTells(c, x, done, mask)
    ensures var (count', mask') := CheckNandLeft(c, x, r, count, mask);
      && count' - count == (Count(c, x.now, done + {r}) - OldCount(c, x, done + {r})) - (Count(c, x.now, done) - OldCount(c, x, done))
      && MaskTells(c, x, done + {r}, mask')
  {
    assert r !in Missed(c, LEFT_MEM, x, rs);
    CountOneMore(c, x.now, done, r);
    CountOneMore(c, x.was, done, r);
    hide Missed, Count;
    MaskStep(c, x, done, r, mask, c.Match(LEFT_MEM, x.now, r), c.Match(LEFT_MEM, x.was, r));
  }

  lemma MaskStep(c: Cond, x: Event, done: set<Obj>, r: Obj, mask: Tag, res: bool, res2: bool)
    requires Appears(x.tag) && MaskTells(c, x, done, mask) && r !in done
    requires res == c.Match(LEFT_MEM, x.now, r) && res2 == c.Match(LEFT_MEM, x.was, r)
    ensures MaskTells(c, x, done + {r}, if x.tag == MODIFY then (if res || res2 then NewTag(MODIFY, res, res2) else mask) else if res then INSERT else mask)
  {
    NewTagIs(res, res2);
    hide NewTag;
    PartnersOneMore(c, x.now, done, r);
    PartnersOneMore(c, x.was, done, r);
    assert NewOnly(c, x, done + {r}) == NewOnly(c, x, done) + if res && !res2 then {r} else {};
    assert res ==> r in c.Partners(LEFT_MEM, x.now, done + {r});
    assert res2 ==> r in c.Partners(LEFT_MEM, x.was, done + {r});
  }

  lemma PartnersOneMore(c: Cond, l: Obj, rs: set<Obj>, r: Obj)
    ensures c.Partners(LEFT_MEM, l, rs + {r}) == c.Partners(LEFT_MEM, l, rs) + if c.Match(LEFT_MEM, l, r) then {r} else {}
  {}

  /** What is sent on for the arriving tuple. */
  function SendLeft(x: Event, count: int, mask: Tag): seq<Event> {
    var tag := x.tag ^ mask;
    if count == 0 && tag != 0 then [Event(tag, x.now, if tag == MODIFY then x.was else x.now)] else []
  }

  /** The one modification whose outcome is wrong: a tuple that was alone finds partners, and is not retracted. */
  ghost predicate LosesRetract(c: Cond, x: Event, rs: set<Obj>) {
    x.tag == MODIFY && Count(c, x.was, rs) == 0 && Count(c, x.now, rs) > 0
  }

  /** The events sent for an arriving tuple, by whether it has partners in its old and its new state. */
  ghost function LeftEvents(x: Event, wasAlone: bool, nowAlone: bool): seq<Event> {
    if x.tag == MODIFY then (if !nowAlone then [] else if wasAlone then [x] else [Event(INSERT, x.now, x.now)])
    else if (if x.tag == INSERT then nowAlone else wasAlone) then [Event(x.tag, x.now, x.now)] else []
  }

  lemma SendLeftIs(c: Cond, x: Event, rs: set<Obj>, count: int, mask: Tag)
    requires x.tag != 0 && (x.tag != MODIFY ==> x.now == x.was)
    requires count == if x.tag == RETRACT then Count(c, x.was, rs) else Count(c, x.now, rs)
    requires if x.tag == RETRACT then mask == 0 else MaskTells(c, x, rs, mask)
    ensures SendLeft(x, count, mask) == LeftEvents(x, Count(c, x.was, rs) == 0, Count(c, x.now, rs) == 0)
    ensures x.tag != MODIFY ==> NoModify(SendLeft(x, count, mask))
  {
    EmptyCount(c, x.now, rs);
    EmptyCount(c, x.was, rs);
    hide Count;
    var p, q := c.Partners(LEFT_MEM, x.now, rs), c.Partners(LEFT_MEM, x.was, rs);
    assert p + q == {} <==> p == {} && q == {};
    assert Event(MODIFY, x.now, x.was) == x || x.tag != MODIFY;
    assert (3 as bv2) ^ 2 == 1 && (3 as bv2) ^ 0 == 3 && (1 as bv2) ^ 1 == 0 && (1 as bv2) ^ 0 == 1 && (2 as bv2) ^ 0 == 2;
  }

  lemma LeftTurns(c: Cond, x: Event, ls: set<Obj>, rs: set<Obj>)
    requires Exact(ls, x)
    ensures Follow(Alone(c, ls, rs), LeftEvents(x, Count(c, x.was, rs) == 0, Count(c, x.now, rs) == 0)) == Some(Alone(c, Applied(ls, x), rs))
      <==> !LosesRetract(c, x, rs)
  {
    EmptyCount(c, x.now, rs);
    EmptyCount(c, x.was, rs);
    AloneApplied(c, x, ls, rs);
    AloneNamed(c, x, ls, rs);
    hide Alone, Count, Applied, Named;
    Sent(x, Count(c, x.was, rs) == 0, Count(c, x.now, rs) == 0, Alone(c, ls, rs), Alone(c, Applied(ls, x), rs));
  }

  lemma AloneApplied(c: Cond, x: Event, ls: set<Obj>, rs: set<Obj>)
    requires Exact(ls, x)
    ensures Alone(c, Applied(ls, x), rs) ==
      Alone(c, ls, rs) - Gone(x) + if Appears(x.tag) && c.Partners(LEFT_MEM, x.now, rs) == {} then {x.now} else {}
    ensures Goes(x.tag) ==> (x.was in Alone(c, ls, rs) <==> c.Partners(LEFT_MEM, x.was, rs) == {})
  {}

  lemma AloneNamed(c: Cond, x: Event, ls: set<Obj>, rs: set<Obj>)
    requires Exact(ls, x)
    ensures Appears(x.tag) ==> Named(Alone(c, ls, rs) - Gone(x), x.now) == {}
  {
    assert Named(Alone(c, ls, rs) - Gone(x), x.now) <= Named(ls - Gone(x), x.now);
  }

  lemma Sent(x: Event, wasAlone: bool, nowAlone: bool, at: set<Obj>, next: set<Obj>)
    requires x.tag != 0 && (x.tag != MODIFY ==> x.now == x.was)
    requires next == at - Gone(x) + if Appears(x.tag) && nowAlone then {x.now} else {}
    requires Goes(x.tag) ==> (x.was in at <==> wasAlone)
    requires Appears(x.tag) ==> Named(at - Gone(x), x.now) == {}
    ensures Follow(at, LeftEvents(x, wasAlone, nowAlone)) == Some(next) <==> !(x.tag == MODIFY && wasAlone && !nowAlone)
  {
    var es := LeftEvents(x, wasAlone, nowAlone);
    FollowNone(at);
    if es == [] {
      assert next == at - Gone(x);
      assert x.tag == MODIFY && wasAlone ==> x.was in at && x.was !in next;
      assert !(x.tag == MODIFY && wasAlone) ==> next == at;
    } else {
      FollowOne(at, [], es[0]);
      assert [] + [es[0]] == es;
      if x.tag == MODIFY && !wasAlone { assert at - Gone(x) == at == at - Gone(es[0]); }
    }
  }

  predicate NoModify(es: seq<Event>) { forall i :: 0 <= i < |es| ==> es[i].tag != MODIFY }

  class NandNode {
    const c: Cond
    var left: map<Obj, int>
    var right: set<Obj>
    var released: set<Obj>   // the stored tuples whose counter has been deleted

    constructor (c: Cond)
      ensures Valid() && this.c == c && left == map[] && right == {}
    {
      this.c := c;
      left, right, released := map[], {}, {};
    }

    ghost predicate Tracks()
      reads this
    {
      Unique(left.Keys) && Unique(right) && Counted(c, left, right)
    }

    ghost predicate Valid()
      reads this
    {
      Tracks() && released == {}
    }

    /** What the node has let through. */
    ghost function View(): set<Obj>
      reads this
    {
      Alone(c, left.Keys, right)
    }

    /** An arrival by the right. A modification leaves the counts right exactly if it misses no left item. */
    method CallByRight(e: Event) returns (out: seq<Event>)
      requires Valid() && Fits(right, e)
      modifies this
      ensures right == Stored(old(right), e) && left.Keys == old(left.Keys)
      ensures Valid() <==> Missed(c, RIGHT_MEM, e, left.Keys) == {} || Named(old(right), e.was) == {}
      ensures Valid() ==> Follow(old(View()), out) == Some(View())
      ensures NoModify(out)
    {
      out := [];
      ghost var rs := right;
      var go, x;
      right, go, x := Store(right, e);
      FollowNone(Alone(c, left.Keys, rs));
      if go {
        left, out := Recount(c, x, left, rs);
      }
    }

    /** An arrival by the left, with the order in which the right items are looked at. What is sent for a
        modification of a stored tuple is wrong exactly if the tuple was alone and is so no longer; and
        its counter is released, although the tuple stays, exactly if the last item that matches in
        either state matches the new one only. */
    method CallByLeft(e: Event) returns (out: seq<Event>, ghost order: seq<Obj>)
      requires Valid() && Fits(left.Keys, e)
      modifies this
      ensures left.Keys == Stored(old(left.Keys), e) && right == old(right)
      ensures var modified := e.tag == MODIFY && Named(old(left.Keys), e.was) != {};
        && (modified ==> Scans(c, e, right, order))
        && released == (if modified && EndsNewOnly(c, e, order) then {e.now} else {})
        && ((modified ==> Missed(c, LEFT_MEM, e, right) == {}) ==>
          && Tracks()
          && (Valid() <==> !(modified && EndsNewOnly(c, e, order)))
          && (Follow(old(View()), out) == Some(View()) <==> !(modified && LosesRetract(c, e, right))))
      ensures e.tag != MODIFY ==> NoModify(out)
    {
      out, order := [], [];
      ghost var ls := left.Keys;
      var mem, go, x := Store(left.Keys, e);
      FollowNone(Alone(c, ls, right));
      if go {
        hide Missed, Counted, Unique, Fits, Count, Follow, Alone, LosesRetract, EndsNewOnly, Scans;
        left, out, released, order := TakeLeft(c, x, left, right);
      }
    }
  }

  // ---------- the counter that is released ----------

  /** order is an order in which the index may yield the items it finds for x. */
  ghost predicate Scans(c: Cond, x: Event, rs: set<Obj>, order: seq<Obj>) {
    multiset(order) == multiset(c.Found(LEFT_MEM, x.now, rs))
  }

  /** An item of the index matches the new state of x, or the old one of a modification. */
  predicate Hits(c: Cond, x: Event, r: Obj) {
    c.Rest(LEFT_MEM, x.now, r) || (x.tag == MODIFY && c.Rest(LEFT_MEM, x.was, r))
  }

  function LastHit(c: Cond, x: Event, order: seq<Obj>): Option<Obj> {
    if order == [] then None
    else if Hits(c, x, order[|order| - 1]) then Some(order[|order| - 1])
    else LastHit(c, x, order[..|order| - 1])
  }

  /** The last item that matches in either state matches the new one only. */
  predicate EndsNewOnly(c: Cond, x: Event, order: seq<Obj>) {
    var r := LastHit(c, x, order);
    x.tag == MODIFY && r.Some? && c.Rest(LEFT_MEM, x.now, r.value) && !c.Rest(LEFT_MEM, x.was, r.value)
  }

  /** The mask after a scan: the tag of the last hit. */
  function MaskOf(c: Cond, x: Event, order: seq<Obj>): Tag {
    var r := LastHit(c, x, order);
    if r.None? then 0
    else NewTag(x.tag, c.Rest(LEFT_MEM, x.now, r.value), x.tag == MODIFY && c.Rest(LEFT_MEM, x.was, r.value))
  }

  lemma MaskNext(c: Cond, x: Event, order: seq<Obj>, r: Obj, count: int)
    ensures CheckNandLeft(c, x, r, count, MaskOf(c, x, order)).1 == MaskOf(c, x, order + [r])
  {
    assert (order + [r])[..|order|] == order && (order + [r])[|order|] == r;
    assert LastHit(c, x, order + [r]) == if Hits(c, x, r) then Some(r) else LastHit(c, x, order);
    hide LastHit;
  }

  lemma ReleasedIs(c: Cond, x: Event, order: seq<Obj>)
    requires x.tag != 0 && (x.tag == RETRACT ==> order == [])
    ensures x.tag ^ MaskOf(c, x, order) == RETRACT && x.tag != RETRACT <==> EndsNewOnly(c, x, order)
  {
    var r := LastHit(c, x, order);
    if r.Some? { NewTagIs(c.Rest(LEFT_MEM, x.now, r.value), c.Rest(LEFT_MEM, x.was, r.value)); }
    hide NewTag;
    assert (3 as bv2) ^ 1 == 2 && (3 as bv2) ^ 0 == 3 && (3 as bv2) ^ 2 == 1 && (3 as bv2) ^ 3 == 0;
    assert (1 as bv2) ^ 1 == 0 && (1 as bv2) ^ 0 == 1;
  }

  lemma {:induction false} LastHitIn(c: Cond, x: Event, order: seq<Obj>)
    ensures LastHit(c, x, order).None? <==> forall i :: 0 <= i < |order| ==> !Hits(c, x, order[i])
    ensures LastHit(c, x, order).Some? ==> LastHit(c, x, order).value in order && Hits(c, x, LastHit(c, x, order).value)
  {
    if order != [] && !Hits(c, x, order[|order| - 1]) { LastHitIn(c, x, order[..|order| - 1]); }
  }

  lemma {:induction false} SomeOrder(items: set<Obj>) returns (order: seq<Obj>)
    ensures multiset(order) == multiset(items)
  {
    order := [];
    if items != {} {
      var r :| r in items;
      order := SomeOrder(items - {r});
      assert items == items - {r} + {r};
      order := order + [r];
    }
  }

  /** An order of the scan that ends with a given item. */
  lemma EndingWith(c: Cond, x: Event, rs: set<Obj>, r: Obj) returns (order: seq<Obj>)
    requires r in c.Found(LEFT_MEM, x.now, rs) && Hits(c, x, r)
    ensures Scans(c, x, rs, order) && LastHit(c, x, order) == Some(r)
  {
    var found := c.Found(LEFT_MEM, x.now, rs);
    order := SomeOrder(found - {r});
    assert found == found - {r} + {r};
    order := order + [r];
  }

  lemma OrderEnds(c: Cond, x: Event, rs: set<Obj>, order: seq<Obj>)
    requires x.tag == MODIFY && Missed(c, LEFT_MEM, x, rs) == {} && Scans(c, x, rs, order)
    ensures EndsNewOnly(c, x, order) ==> NewOnly(c, x, rs) != {}
    ensures LosesRetract(c, x, rs) ==> EndsNewOnly(c, x, order)
  {
    EmptyCount(c, x.now, rs);
    EmptyCount(c, x.was, rs);
    LastHitIn(c, x, order);
    hide Count, LastHit;
    var h := LastHit(c, x, order);
    forall r | r in order
      ensures r in rs && (c.Rest(LEFT_MEM, x.now, r) <==> r in c.Partners(LEFT_MEM, x.now, rs))
      ensures c.Rest(LEFT_MEM, x.was, r) <==> r in c.Partners(LEFT_MEM, x.was, rs)
    {
      assert r in multiset(order);
      FoundMatches(c, x, rs, r);
    }
    if LosesRetract(c, x, rs) {
      var r :| r in c.Partners(LEFT_MEM, x.now, rs);
      assert r in multiset(order);
      assert Hits(c, x, r);
      assert h.Some?;
    }
    if EndsNewOnly(c, x, order) { assert h.value in NewOnly(c, x, rs); }
  }

  lemma FoundMatches(c: Cond, x: Event, rs: set<Obj>, r: Obj)
    requires x.tag == MODIFY && Missed(c, LEFT_MEM, x, rs) == {} && r in c.Found(LEFT_MEM, x.now, rs)
    ensures r in rs && (c.Rest(LEFT_MEM, x.now, r) <==> r in c.Partners(LEFT_MEM, x.now, rs))
    ensures c.Rest(LEFT_MEM, x.was, r) <==> r in c.Partners(LEFT_MEM, x.was, rs)
  {
    assert r !in Missed(c, LEFT_MEM, x, rs);
  }

  /** In some order of the scan the counter is released exactly if some item matches the new state only;
      in every order, exactly if the tuple also loses its retraction. */
  lemma ReleasedInSomeOrder(c: Cond, x: Event, rs: set<Obj>)
    requires x.tag == MODIFY && Missed(c, LEFT_MEM, x, rs) == {}
    ensures (exists order :: Scans(c, x, rs, order) && EndsNewOnly(c, x, order)) <==> NewOnly(c, x, rs) != {}
    ensures (forall order :: Scans(c, x, rs, order) ==> EndsNewOnly(c, x, order)) <==> LosesRetract(c, x, rs)
  {
    var found := c.Found(LEFT_MEM, x.now, rs);
    EmptyCount(c, x.now, rs);
    EmptyCount(c, x.was, rs);
    PartnersFound(c, x, rs);
    assert c.Partners(LEFT_MEM, x.now, rs) <= found && c.Partners(LEFT_MEM, x.was, rs) <= found;
    forall order | Scans(c, x, rs, order)
      ensures EndsNewOnly(c, x, order) ==> NewOnly(c, x, rs) != {}
      ensures LosesRetract(c, x, rs) ==> EndsNewOnly(c, x, order)
    {
      OrderEnds(c, x, rs, order);
    }
    if NewOnly(c, x, rs) != {} {
      var r :| r in NewOnly(c, x, rs);
      var order := EndingWith(c, x, rs, r);
    }
    var any := SomeOrder(found);
    assert Scans(c, x, rs, any);
    if c.Partners(LEFT_MEM, x.was, rs) != {} {
      var r :| r in c.Partners(LEFT_MEM, x.was, rs);
      var order := EndingWith(c, x, rs, r);
      assert !EndsNewOnly(c, x, order);
    } else if c.Partners(LEFT_MEM, x.now, rs) == {} {
      OrderEnds(c, x, rs, any);
    }
  }

  /** Counts the tuple of x, keeps it with its count, and sends it on if it is alone. */
  method TakeLeft(c: Cond, x: Event, before: map<Obj, int>, rs: set<Obj>)
    returns (left: map<Obj, int>, out: seq<Event>, released: set<Obj>, ghost order: seq<Obj>)
    requires Exact(before.Keys, x) && Counted(c, before, rs)
    ensures left.Keys == Applied(before.Keys, x) && (x.tag != MODIFY ==> NoModify(out))
    ensures x.tag != RETRACT ==> Scans(c, x, rs, order)
    ensures released == if EndsNewOnly(c, x, order) then {x.now} else {}
    ensures Missed(c, LEFT_MEM, x, rs) == {} ==> Counted(c, left, rs)
    ensures Missed(c, LEFT_MEM, x, rs) == {} ==>
      (Follow(Alone(c, before.Keys, rs), out) == Some(Alone(c, left.Keys, rs)) <==> !LosesRetract(c, x, rs))
  {
    assert x.tag != 0 && (x.tag != MODIFY ==> x.now == x.was) && (Goes(x.tag) ==> before[x.was] == Count(c, x.was, rs));
    assert Keep(before, x, 0).Keys == Applied(before.Keys, x);
    assert x.tag == RETRACT || x.tag == INSERT ==> Missed(c, LEFT_MEM, x, rs) == {};
    hide Missed, Counted, Count, Follow, Alone, LosesRetract, MaskTells, Exact, Applied, SendLeft, NoModify, MaskOf, EndsNewOnly, Scans;
    var count, mask;
    count, mask, order := CountLeft(c, x, if Goes(x.tag) then before[x.was] else 0, rs);
    left := Keep(before, x, count);
    assert left.Keys == Keep(before, x, 0).Keys;
    out := SendLeft(x, count, mask);
    released := if x.tag ^ mask == RETRACT && x.tag != RETRACT then {x.now} else {};
    ReleasedIs(c, x, order);
    if Missed(c, LEFT_MEM, x, rs) == {} {
      SendLeftIs(c, x, rs, count, mask);
      LeftTurns(c, x, before.Keys, rs);
      KeepCounted(c, x, before, rs, count);
    }
  }

  lemma KeepCounted(c: Cond, x: Event, before: map<Obj, int>, rs: set<Obj>, count: int)
    requires Counted(c, before, rs) && (Appears(x.tag) ==> count == Count(c, x.now, rs))
    ensures Counted(c, Keep(before, x, count), rs)
  {}

  /** The left memory with the tuple of x and its count. */
  function Keep(left: map<Obj, int>, x: Event, count: int): map<Obj, int> {
    var kept := left - Gone(x);
    if Appears(x.tag) then kept[x.now := count] else kept
  }

  /** The count of an arriving tuple, and the mask of its couples; nothing is looked at for a retraction. */
  method CountLeft(c: Cond, x: Event, from: int, rs: set<Obj>) returns (count: int, mask: Tag, ghost order: seq<Obj>)
    requires x.tag != 0 && (x.tag != MODIFY ==> x.now == x.was)
    requires from == if Goes(x.tag) then Count(c, x.was, rs) else 0
    ensures Missed(c, LEFT_MEM, x, rs) == {} ==> count == if x.tag == RETRACT then Count(c, x.was, rs) else Count(c, x.now, rs)
    ensures Missed(c, LEFT_MEM, x, rs) == {} ==> if x.tag == RETRACT then mask == 0 else MaskTells(c, x, rs, mask)
    ensures mask == MaskOf(c, x, order) && if x.tag == RETRACT then order == [] else Scans(c, x, rs, order)
  {
    hide *;
    count, mask, order := from, 0, [];
    NothingScanned(c, x);
    if x.tag == RETRACT { return; }
    var pending := c.Found(LEFT_MEM, x.now, rs);
    CountingStarts(c, x, rs, from);
    while pending != {}
      invariant Counting(c, x, rs, from, pending, count, mask, order)
      decreases |pending|
    {
      var r :| r in pending;
      var (newCount, newMask) := CheckNandLeft(c, x, r, count, mask);
      CountingStep(c, x, rs, from, pending, count, mask, order, r);
      count, mask, order := newCount, newMask, order + [r];
      pending := pending - {r};
    }
    CountingEnds(c, x, rs, from, count, mask, order);
  }

  /** The items that the index finds have been counted, but for those pending. */
  ghost predicate Counting(c: Cond, x: Event, rs: set<Obj>, from: int, pending: set<Obj>, count: int, mask: Tag, order: seq<Obj>) {
    var found := c.Found(LEFT_MEM, x.now, rs);
    && pending <= found && multiset(order) == multiset(found - pending) && mask == MaskOf(c, x, order)
    && (Missed(c, LEFT_MEM, x, rs) == {} ==>
      && MaskTells(c, x, found - pending, mask)
      && count == from + Count(c, x.now, found - pending) - OldCount(c, x, found - pending))
  }

  lemma NothingScanned(c: Cond, x: Event)
    requires x.tag != 0 && (x.tag != MODIFY ==> x.now == x.was)
    ensures MaskOf(c, x, []) == 0 && (x.tag == RETRACT <==> !Appears(x.tag))
    ensures x.tag == RETRACT ==> Goes(x.tag)
  {}

  lemma CountingStarts(c: Cond, x: Event, rs: set<Obj>, from: int)
    requires Appears(x.tag)
    ensures Counting(c, x, rs, from, c.Found(LEFT_MEM, x.now, rs), from, 0, [])
  {
    var found := c.Found(LEFT_MEM, x.now, rs);
    assert found - found == {};
    CountStarts(c, x, rs);
    hide Count, Missed, MaskTells, OldCount;
  }

  lemma CountingStep(c: Cond, x: Event, rs: set<Obj>, from: int, pending: set<Obj>, count: int, mask: Tag, order: seq<Obj>, r: Obj)
    requires Appears(x.tag) && Counting(c, x, rs, from, pending, count, mask, order) && r in pending
    ensures var (count', mask') := CheckNandLeft(c, x, r, count, mask);
      Counting(c, x, rs, from, pending - {r}, count', mask', order + [r])
  {
    hide *;
    var found := c.Found(LEFT_MEM, x.now, rs);
    var done := found - pending;
    CountingIs(c, x, rs, from, pending, count, mask, order);
    MaskNext(c, x, order, r, count);
    FoundIn(c, x, rs);
    if Missed(c, LEFT_MEM, x, rs) == {} { LeftStep(c, x, rs, done, r, count, mask); }
    OneLess(found, pending, r, order);
    var (count', mask') := CheckNandLeft(c, x, r, count, mask);
    CountingIs(c, x, rs, from, pending - {r}, count', mask', order + [r]);
  }

  lemma FoundIn(c: Cond, x: Event, rs: set<Obj>)
    ensures c.Found(LEFT_MEM, x.now, rs) <= rs
  {}

  lemma OneLess(found: set<Obj>, pending: set<Obj>, r: Obj, order: seq<Obj>)
    requires pending <= found && r in pending && multiset(order) == multiset(found - pending)
    ensures found - (pending - {r}) == found - pending + {r} && multiset(order + [r]) == multiset(found - (pending - {r}))
  {
    assert found - (pending - {r}) == found - pending + {r};
  }

  lemma CountingIs(c: Cond, x: Event, rs: set<Obj>, from: int, pending: set<Obj>, count: int, mask: Tag, order: seq<Obj>)
    ensures Counting(c, x, rs, from, pending, count, mask, order) <==>
      var found := c.Found(LEFT_MEM, x.now, rs);
      && pending <= found && multiset(order) == multiset(found - pending) && mask == MaskOf(c, x, order)
      && (Missed(c, LEFT_MEM, x, rs) == {} ==>
        && MaskTells(c, x, found - pending, mask)
        && count == from + Count(c, x.now, found - pending) - OldCount(c, x, found - pending))
  {}

  lemma CountingEnds(c: Cond, x: Event, rs: set<Obj>, from: int, count: int, mask: Tag, order: seq<Obj>)
    requires Appears(x.tag) && Counting(c, x, rs, from, {}, count, mask, order)
    requires (x.tag != MODIFY ==> x.now == x.was) && from == if Goes(x.tag) then Count(c, x.was, rs) else 0
    ensures Missed(c, LEFT_MEM, x, rs) == {} ==> count == Count(c, x.now, rs) && MaskTells(c, x, rs, mask)
    ensures mask == MaskOf(c, x, order) && Scans(c, x, rs, order)
  {
    var found := c.Found(LEFT_MEM, x.now, rs);
    assert found - {} == found;
    if Missed(c, LEFT_MEM, x, rs) == {} { CountEnds(c, x, rs, mask); }
    hide Count, Missed, MaskTells, MaskOf;
  }

  lemma CountStarts(c: Cond, x: Event, rs: set<Obj>)
    ensures Count(c, x.now, {}) == 0 && OldCount(c, x, {}) == 0 && (Appears(x.tag) ==> MaskTells(c, x, {}, 0))
  {}

  lemma CountFound(c: Cond, x: Event, rs: set<Obj>)
    requires Appears(x.tag) && Missed(c, LEFT_MEM, x, rs) == {}
    ensures Count(c, x.now, c.Found(LEFT_MEM, x.now, rs)) == Count(c, x.now, rs)
    ensures OldCount(c, x, c.Found(LEFT_MEM, x.now, rs)) == OldCount(c, x, rs)
  {
    PartnersFound(c, x, rs);
  }

  lemma PartnersFound(c: Cond, x: Event, rs: set<Obj>)
    requires Missed(c, LEFT_MEM, x, rs) == {}
    ensures c.Partners(LEFT_MEM, x.now, c.Found(LEFT_MEM, x.now, rs)) == c.Partners(LEFT_MEM, x.now, rs)
    ensures x.tag == MODIFY ==> c.Partners(LEFT_MEM, x.was, c.Found(LEFT_MEM, x.now, rs)) == c.Partners(LEFT_MEM, x.was, rs)
  {
    forall r | r in c.Partners(LEFT_MEM, x.was, rs) && x.tag == MODIFY ensures r in c.Found(LEFT_MEM, x.now, rs) {
      assert r !in Missed(c, LEFT_MEM, x, rs);
    }
  }

  lemma CountEnds(c: Cond, x: Event, rs: set<Obj>, mask: Tag)
    requires Appears(x.tag) && Missed(c, LEFT_MEM, x, rs) == {} && MaskTells(c, x, c.Found(LEFT_MEM, x.now, rs), mask)
    ensures Count(c, x.now, c.Found(LEFT_MEM, x.now, rs)) == Count(c, x.now, rs)
    ensures OldCount(c, x, c.Found(LEFT_MEM, x.now, rs)) == OldCount(c, x, rs) && MaskTells(c, x, rs, mask)
  {
    CountFound(c, x, rs);
    PartnersFound(c, x, rs);
  }

  /** Recounts the left items that the index finds for x's tuple, and sends those that are no longer or newly alone. */
  method Recount(c: Cond, x: Event, before: map<Obj, int>, ghost rs: set<Obj>) returns (left: map<Obj, int>, out: seq<Event>)
    requires Unique(before.Keys) && Unique(rs) && Exact(rs, x) && Counted(c, before, rs)
    ensures left.Keys == before.Keys
    ensures Counted(c, left, Applied(rs, x)) <==> Missed(c, RIGHT_MEM, x, before.Keys) == {}
    ensures Missed(c, RIGHT_MEM, x, before.Keys) == {} ==>
      Follow(Alone(c, before.Keys, rs), out) == Some(Alone(c, before.Keys, Applied(rs, x)))
    ensures NoModify(out)
  {
    left, out := before, [];
    var pending := c.Found(RIGHT_MEM, x.now, before.Keys);
    RecountStarts(c, x, before, rs);
    hide *;
    while pending != {}
      invariant left.Keys == before.Keys && pending <= left.Keys && Rescanned(c, x, before, rs, pending, left, out)
      decreases |pending|
    {
      var l :| l in pending;
      var (count, es) := CheckNandRight(c, x, l, left[l]);
      RecountStep(c, x, before, rs, pending, left, out, l);
      left, out := left[l := count], out + es;
      pending := pending - {l};
    }
    RecountEnds(c, x, before, rs, left, out);
  }

  lemma HalfwayStarts(c: Cond, x: Event, ls: set<Obj>, rs: set<Obj>)
    requires Exact(rs, x) && Missed(c, RIGHT_MEM, x, ls) == {}
    ensures Halfway(c, ls, rs, Applied(rs, x), ls - c.Found(RIGHT_MEM, x.now, ls)) == Alone(c, ls, rs)
  {
    forall l | l in ls - c.Found(RIGHT_MEM, x.now, ls)
      ensures c.Partners(LEFT_MEM, l, Applied(rs, x)) == c.Partners(LEFT_MEM, l, rs)
    {
      assert l !in Missed(c, RIGHT_MEM, x, ls);
    }
  }

  lemma HalfwayEnds(c: Cond, x: Event, ls: set<Obj>, rs: set<Obj>)
    ensures Halfway(c, ls, rs, Applied(rs, x), ls) == Alone(c, ls, Applied(rs, x))
  {
    assert ls - ls == {};
  }

  lemma RecountedStep(c: Cond, x: Event, before: map<Obj, int>, pending: set<Obj>, left: map<Obj, int>, l: Obj, count: int)
    requires Recounted(c, x, before, left, pending) && l in pending && pending <= c.Found(RIGHT_MEM, x.now, before.Keys)
    requires count == left[l] + One(Appears(x.tag) && c.Rest(RIGHT_MEM, x.now, l)) - One(Goes(x.tag) && c.Rest(RIGHT_MEM, x.was, l))
    ensures Recounted(c, x, before, left[l := count], pending - {l})
  {}

  /** What the recount has done when pending is still to come. */
  ghost predicate Rescanned(c: Cond, x: Event, before: map<Obj, int>, rs: set<Obj>, pending: set<Obj>, left: map<Obj, int>, out: seq<Event>) {
    && pending <= c.Found(RIGHT_MEM, x.now, before.Keys) && Recounted(c, x, before, left, pending) && NoModify(out)
    && (Missed(c, RIGHT_MEM, x, before.Keys) == {} ==>
      Follow(Alone(c, before.Keys, rs), out) == Some(Halfway(c, before.Keys, rs, Applied(rs, x), before.Keys - pending)))
  }

  lemma RecountStarts(c: Cond, x: Event, before: map<Obj, int>, rs: set<Obj>)
    requires Exact(rs, x)
    ensures c.Found(RIGHT_MEM, x.now, before.Keys) <= before.Keys
    ensures Rescanned(c, x, before, rs, c.Found(RIGHT_MEM, x.now, before.Keys), before, [])
  {
    FollowNone(Alone(c, before.Keys, rs));
    if Missed(c, RIGHT_MEM, x, before.Keys) == {} { HalfwayStarts(c, x, before.Keys, rs); }
    hide Missed, Halfway, Alone, Applied, Follow;
  }

  lemma RecountStep(c: Cond, x: Event, before: map<Obj, int>, rs: set<Obj>, pending: set<Obj>, left: map<Obj, int>, out: seq<Event>, l: Obj)
    requires Unique(before.Keys) && Unique(rs) && Exact(rs, x) && Counted(c, before, rs)
    requires Rescanned(c, x, before, rs, pending, left, out) && l in pending && l in left
    ensures var (count, es) := CheckNandRight(c, x, l, left[l]); Rescanned(c, x, before, rs, pending - {l}, left[l := count], out + es)
  {
    var ls, done, rs' := before.Keys, before.Keys - pending, Applied(rs, x);
    assert ls - (pending - {l}) == done + {l} && x.tag != 0 && (x.tag != MODIFY ==> x.now == x.was);
    assert left[l] == before[l] == Count(c, l, rs) && |CheckNandRight(c, x, l, left[l]).1| <= 1;
    CheckNandRightIs(c, x, l, left[l]);
    RecountedStep(c, x, before, pending, left, l, CheckNandRight(c, x, l, left[l]).0);
    hide *;
    if Missed(c, RIGHT_MEM, x, ls) == {} {
      RightStep(c, x, ls, rs, done, l, left[l]);
      StreamStep(Alone(c, ls, rs), out, CheckNandRight(c, x, l, left[l]).1, Halfway(c, ls, rs, rs', done), Halfway(c, ls, rs, rs', done + {l}));
    }
    RescannedNext(c, x, before, rs, pending, left, out, l, CheckNandRight(c, x, l, left[l]));
  }

  lemma RescannedNext(c: Cond, x: Event, before: map<Obj, int>, rs: set<Obj>, pending: set<Obj>, left: map<Obj, int>, out: seq<Event>, l: Obj, r: (int, seq<Event>))
    requires Rescanned(c, x, before, rs, pending, left, out) && Recounted(c, x, before, left[l := r.0], pending - {l})
    requires Missed(c, RIGHT_MEM, x, before.Keys) == {} ==>
      Follow(Alone(c, before.Keys, rs), out + r.1) == Some(Halfway(c, before.Keys, rs, Applied(rs, x), before.Keys - (pending - {l})))
    requires NoModify(r.1)
    ensures Rescanned(c, x, before, rs, pending - {l}, left[l := r.0], out + r.1)
  {
    hide Missed, Follow, Alone, Halfway, Recounted;
  }

  lemma RecountEnds(c: Cond, x: Event, before: map<Obj, int>, rs: set<Obj>, left: map<Obj, int>, out: seq<Event>)
    requires Unique(rs) && Exact(rs, x) && Counted(c, before, rs) && Rescanned(c, x, before, rs, {}, left, out)
    ensures Counted(c, left, Applied(rs, x)) <==> Missed(c, RIGHT_MEM, x, before.Keys) == {}
    ensures Missed(c, RIGHT_MEM, x, before.Keys) == {} ==>
      Follow(Alone(c, before.Keys, rs), out) == Some(Alone(c, before.Keys, Applied(rs, x)))
    ensures NoModify(out)
  {
    hide Missed, Halfway, Alone, Follow, Exact, Applied, Counted;
    assert before.Keys - {} == before.Keys;
    CountsRight(c, x, before, left, rs);
    HalfwayEnds(c, x, before.Keys, rs);
  }

  /** A tuple alone with value 3 is modified to 7, which an item on the right has: it should be retracted and is not. */
  lemma LosesRetractExample()
    ensures var c := Cond(_ => [], _ => [], (l: Obj, r: Obj) => l.Single? && r.Single? && l.value == r.value);
      var e, rs := Event(MODIFY, Single(1, 7), Single(1, 3)), {Single(2, 7)};
      LosesRetract(c, e, rs) && Missed(c, LEFT_MEM, e, rs) == {} && Fits({Single(1, 3)}, e)
  {
    var c := Cond(_ => [], _ => [], (l: Obj, r: Obj) => l.Single? && r.Single? && l.value == r.value);
    assert c.Partners(LEFT_MEM, Single(1, 3), {Single(2, 7)}) == {};
    assert c.Partners(LEFT_MEM, Single(1, 7), {Single(2, 7)}) == {Single(2, 7)};
  }

  /** A tuple modified from 3 to 7 had the partner 2 and now has 5 too: with 5 looked at last, what is sent
      is right and the counter of the stored tuple is released; with 2 last, all is well. */
  lemma ReleasedExample()
    ensures var c := Cond(_ => [], _ => [], (l: Obj, r: Obj) => l.Single? && r.Single? && r.value <= l.value);
      var e, a, b := Event(MODIFY, Single(1, 7), Single(1, 3)), Single(2, 2), Single(3, 5);
      && Missed(c, LEFT_MEM, e, {a, b}) == {} && Fits({Single(1, 3)}, e) && !LosesRetract(c, e, {a, b})
      && Scans(c, e, {a, b}, [a, b]) && EndsNewOnly(c, e, [a, b])
      && Scans(c, e, {a, b}, [b, a]) && !EndsNewOnly(c, e, [b, a])
  {
    var c := Cond(_ => [], _ => [], (l: Obj, r: Obj) => l.Single? && r.Single? && r.value <= l.value);
    var e, a, b := Event(MODIFY, Single(1, 7), Single(1, 3)), Single(2, 2), Single(3, 5);
    assert c.Found(LEFT_MEM, e.now, {a, b}) == {a, b};
    assert multiset({a, b}) == multiset([a, b]) == multiset([b, a]);
    assert a in c.Partners(LEFT_MEM, e.was, {a, b});
    EmptyCount(c, e.was, {a, b});
    assert LastHit(c, e, [a, b]) == Some(b) && LastHit(c, e, [b, a]) == Some(a);
  }
}
