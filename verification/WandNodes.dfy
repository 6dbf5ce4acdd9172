/** The timed AND: the couples that satisfy the node's code and lie within its time window. */
module WandNodes {
  import opened Wrappers
  import opened Tuples
  import opened Joins
  import opened AndNodes
  import opened TimeWindow

  /** Which sides are timed, when a tuple is, and the length of the window. */
  datatype Timing = Timing(timedLeft: bool, timedRight: bool, span: Obj -> Span, window: int) {
    /** What a tuple of a side looks for on the other one. */
    function LookFrom(side: Side, main: Obj): Look<Obj> {
      if side == LEFT_MEM then Look(span(main), timedLeft, span, timedRight, window)
      else Look(span(main), timedRight, span, timedLeft, window)
    }

    predicate Close(l: Obj, r: Obj) { LookFrom(LEFT_MEM, l).Sees(r) }
  }

  /** The condition with the window as a part of it. */
  function Within(c: Cond, t: Timing): Cond { c.(rest := (l, r) => c.rest(l, r) && t.Close(l, r)) }

  /** The window is the same from either side. */
  lemma CloseEitherWay(t: Timing, l: Obj, r: Obj)
    ensures t.LookFrom(RIGHT_MEM, r).Sees(l) == t.Close(l, r)
  {}

  /** The timed join has the couples of stored items with equal keys that satisfy the rest of the code and of
      which every end is at most the window after every start. */
  lemma WithinMeans(c: Cond, t: Timing, ls: set<Obj>, rs: set<Obj>, o: Obj)
    ensures o in Pairs(Within(c, t), LEFT_MEM, ls, rs) <==>
      o.Compound? && o.left in ls && o.right in rs && c.leftKey(o.left) == c.rightKey(o.right) && c.rest(o.left, o.right)
      && Together(t.span(o.left), t.span(o.right), t.timedLeft, t.timedRight, t.window)
  {
    PairsMeans(Within(c, t), ls, rs, o);
    if o.Compound? { InWindowMeans(t.span(o.left), t.span(o.right), t.timedLeft, t.timedRight, t.window); }
    hide Pairs, CompWindow, Together;
  }

  lemma RestWithin(c: Cond, t: Timing, side: Side, main: Obj, item: Obj)
    ensures Within(c, t).Rest(side, main, item) == (c.Rest(side, main, item) && t.LookFrom(side, main).Sees(item))
  {
    if side == RIGHT_MEM { CloseEitherWay(t, item, main); }
    hide CompWindow;
  }

  /** A couple in the window sends what it would send without one, and one outside sends nothing. */
  lemma WindowDecides(c: Cond, t: Timing, side: Side, e: Event, item: Obj)
    requires e.tag == MODIFY ==> t.span(e.now) == t.span(e.was)
    ensures CheckAnd(Within(c, t), side, e, item) == if t.LookFrom(side, e.now).Sees(item) then CheckAnd(c, side, e, item) else []
  {
    RestWithin(c, t, side, e.now, item);
    RestWithin(c, t, side, e.was, item);
    assert e.tag == MODIFY ==> t.LookFrom(side, e.now) == t.LookFrom(side, e.was);
    hide NewTag, InWindow, Within, Cond.Rest, Timing.LookFrom;
  }

  class WandNode {
    const c: Cond
    const t: Timing
    var left: set<Obj>
    var right: set<Obj>

    constructor (c: Cond, t: Timing)
      ensures Valid() && this.c == c && this.t == t && left == {} && right == {}
    {
      this.c, this.t := c, t;
      left, right := {}, {};
    }

    ghost predicate Valid()
      reads this
    {
      Unique(left) && Unique(right)
    }

    /** What the node has let through: the couples in the window. */
    ghost function View(): set<Obj>
      reads this
    {
      Pairs(Within(c, t), LEFT_MEM, left, right)
    }

    /** An arrival by the left, which looks only at items in the window, turns the timed join before it into
        the one after it, unless it changes the key of a stored tuple and so misses some right item. */
    method CallByLeft(e: Event) returns (out: seq<Event>)
      requires Valid() && Fits(left, e) && (e.tag == MODIFY ==> t.span(e.now) == t.span(e.was))
      modifies this
      ensures Valid() && left == Stored(old(left), e) && right == old(right)
      ensures Follow(old(View()), out) == Some(View()) <==> Missed(Within(c, t), LEFT_MEM, e, right) == {} || Named(old(left), e.was) == {}
    {
      out := [];
      ghost var mem := left;
      var go, x;
      left, go, x := Store(left, e);
      if go {
        out := ScanWindow(c, t, LEFT_MEM, x, right, mem);
        Verdict(Within(c, t), LEFT_MEM, x, mem, right, out);
      }
    }

    /** The same by the right. */
    method CallByRight(e: Event) returns (out: seq<Event>)
      requires Valid() && Fits(right, e) && (e.tag == MODIFY ==> t.span(e.now) == t.span(e.was))
      modifies this
      ensures Valid() && right == Stored(old(right), e) && left == old(left)
      ensures Follow(old(View()), out) == Some(View()) <==> Missed(Within(c, t), RIGHT_MEM, e, left) == {} || Named(old(right), e.was) == {}
    {
      out := [];
      ghost var mem := right;
      var go, x;
      right, go, x := Store(right, e);
      PairsEitherWay(Within(c, t), left, mem);
      PairsEitherWay(Within(c, t), left, right);
      if go {
        out := ScanWindow(c, t, RIGHT_MEM, x, left, mem);
        Verdict(Within(c, t), RIGHT_MEM, x, mem, left, out);
      }
    }
  }

  /** The couples of e's tuple with the items that the index finds and that are in the window. */
  method ScanWindow(c: Cond, t: Timing, side: Side, e: Event, items: set<Obj>, ghost mem: set<Obj>) returns (out: seq<Event>)
    requires Exact(mem, e) && Unique(mem) && Unique(items) && (e.tag == MODIFY ==> t.span(e.now) == t.span(e.was))
    ensures var w := Within(c, t);
      && Sends(w, side, e, w.Found(side, e.now, items), out)
      && (Missed(w, side, e, items) == {} ==> Follow(Pairs(w, side, mem, items), out) == Some(Pairs(w, side, Applied(mem, e), items)))
  {
    var w, found := Within(c, t), c.Found(side, e.now, items);
    var look := t.LookFrom(side, e.now);
    var seen := set x | x in found && look.Sees(x);
    assert w.Found(side, e.now, items) == found;
    forall x | x in found - seen ensures CheckAnd(w, side, e, x) == [] {
      WindowDecides(c, t, side, e, x);
    }
    out := Scan(w, side, e, items, seen, mem);
  }
}
