/** What the join nodes decide about a couple, and the joins they are to maintain. */
module Joins {
  import opened Tuples

  datatype Side = LEFT_MEM | RIGHT_MEM

  function Other(side: Side): Side { if side == LEFT_MEM then RIGHT_MEM else LEFT_MEM }

  /** The condition of a node: the two index keys that must be equal, and the rest of the code. */
  datatype Cond = Cond(leftKey: Obj -> seq<int>, rightKey: Obj -> seq<int>, rest: (Obj, Obj) -> bool) {
    function Key(side: Side, o: Obj): seq<int> { if side == LEFT_MEM then leftKey(o) else rightKey(o) }

    predicate Rest(side: Side, main: Obj, item: Obj) { if side == LEFT_MEM then rest(main, item) else rest(item, main) }

    predicate Match(side: Side, main: Obj, item: Obj) { Key(side, main) == Key(Other(side), item) && Rest(side, main, item) }

    /** The items of a memory that the index finds for main. */
    function Found(side: Side, main: Obj, mem: set<Obj>): set<Obj> { set x | x in mem && Key(Other(side), x) == Key(side, main) }

    function Partners(side: Side, main: Obj, mem: set<Obj>): set<Obj> { set x | x in mem && Match(side, main, x) }
  }

  /** The couple of an item of a side and one of the other side. */
  function Couple(side: Side, main: Obj, item: Obj): Obj { if side == LEFT_MEM then Compound(main, item) else Compound(item, main) }

  /** The join of two memories. */
  ghost function Pairs(c: Cond, side: Side, mains: set<Obj>, items: set<Obj>): set<Obj> {
    set m, x | m in mains && x in items && c.Match(side, m, x) :: Couple(side, m, x)
  }

  lemma PairsEitherWay(c: Cond, ls: set<Obj>, rs: set<Obj>)
    ensures Pairs(c, LEFT_MEM, ls, rs) == Pairs(c, RIGHT_MEM, rs, ls)
  {}

  /** The left items without a partner. */
  ghost function Alone(c: Cond, ls: set<Obj>, rs: set<Obj>): set<Obj> {
    set l | l in ls && c.Partners(LEFT_MEM, l, rs) == {}
  }

  /** Left items with the null single in place of a partner. */
  ghost function Nulls(ls: set<Obj>): set<Obj> { set l | l in ls :: Compound(l, NullSingle) }

  /** The left outer join. */
  ghost function Outer(c: Cond, ls: set<Obj>, rs: set<Obj>): set<Obj> { Pairs(c, LEFT_MEM, ls, rs) + Nulls(Alone(c, ls, rs)) }

  function Bit(b: bool): Tag { if b then 1 else 0 }

  /** The tag of a couple: its own for an insertion or a retraction, and for a modification the old
      match in the high bit and the new one in the low bit. */
  function NewTag(tag: Tag, res: bool, res2: bool): Tag {
    if tag == MODIFY then (Bit(res2) << 1) | Bit(res) else tag
  }

  lemma NewTagIs(res: bool, res2: bool)
    ensures NewTag(MODIFY, res, res2) == if res then (if res2 then MODIFY else INSERT) else if res2 then RETRACT else 0
  {}

  /** The items that a modification which changes an index key gets wrong: those that matched under
      the old key, which the index no longer finds, and those it finds under the new key whose other
      conditions held in the old state. Without a change of key there are none. */
  ghost function Missed(c: Cond, side: Side, e: Event, items: set<Obj>): set<Obj> {
    set x | x in items && e.tag == MODIFY && c.Key(side, e.now) != c.Key(side, e.was) && c.Rest(side, e.was, x)
      && (c.Key(Other(side), x) == c.Key(side, e.was) || c.Key(Other(side), x) == c.Key(side, e.now))
  }

  ghost predicate KeepsKey(c: Cond, side: Side, e: Event) { c.Key(side, e.now) == c.Key(side, e.was) }

  /** o is the couple of e's tuple with some item, modified as the tuple was. */
  ghost predicate Modifies(side: Side, e: Event, o: Event) {
    exists y :: o.now == Couple(side, e.now, y) && o.was == Couple(side, e.was, y)
  }

  // ---------- what the joins hold ----------

  /** A couple is in the join exactly if both its items are stored, the left key of the left one is the
      right key of the right one, and the rest of the code lets it through. */
  lemma PairsMeans(c: Cond, ls: set<Obj>, rs: set<Obj>, t: Obj)
    ensures t in Pairs(c, LEFT_MEM, ls, rs) <==>
      t.Compound? && t.left in ls && t.right in rs && c.leftKey(t.left) == c.rightKey(t.right) && c.rest(t.left, t.right)
  {
    if t.Compound? { assert t == Couple(LEFT_MEM, t.left, t.right); }
  }

  ghost predicate Joined(c: Cond, l: Obj, rs: set<Obj>) { exists r :: r in rs && c.leftKey(l) == c.rightKey(r) && c.rest(l, r) }

  /** A left item is alone exactly if no right one has its key and satisfies the rest with it. */
  lemma AloneMeans(c: Cond, ls: set<Obj>, rs: set<Obj>, l: Obj)
    ensures l in Alone(c, ls, rs) <==> l in ls && !Joined(c, l, rs)
  {
    if r :| r in rs && c.leftKey(l) == c.rightKey(r) && c.rest(l, r) {
      assert r in c.Partners(LEFT_MEM, l, rs);
    }
  }

  /** The outer join has the couples of the join, and a null single for every left item that is in none. */
  lemma OuterMeans(c: Cond, ls: set<Obj>, rs: set<Obj>, t: Obj)
    ensures t in Outer(c, ls, rs) <==>
      t.Compound? && t.left in ls
      && ((t.right in rs && c.leftKey(t.left) == c.rightKey(t.right) && c.rest(t.left, t.right))
        || (t.right == NullSingle && !Joined(c, t.left, rs)))
  {
    PairsMeans(c, ls, rs, t);
    if t.Compound? { AloneMeans(c, ls, rs, t.left); }
    hide Pairs, Alone, Joined;
  }

  /** What the index finds from either side: the items of the other one with an equal key of their own. */
  lemma FoundMeans(c: Cond, ls: set<Obj>, rs: set<Obj>, l: Obj, r: Obj)
    ensures r in c.Found(LEFT_MEM, l, rs) <==> r in rs && c.leftKey(l) == c.rightKey(r)
    ensures l in c.Found(RIGHT_MEM, r, ls) <==> l in ls && c.leftKey(l) == c.rightKey(r)
  {}

  /** A modification of a left tuple misses a right item exactly if the left key changes, the rest held in the
      old state, and the item has the old key or the new one. */
  lemma MissedMeans(c: Cond, e: Event, ls: set<Obj>, rs: set<Obj>, l: Obj, r: Obj)
    ensures r in Missed(c, LEFT_MEM, e, rs) <==>
      r in rs && e.tag == MODIFY && c.leftKey(e.now) != c.leftKey(e.was) && c.rest(e.was, r)
      && (c.rightKey(r) == c.leftKey(e.was) || c.rightKey(r) == c.leftKey(e.now))
    ensures l in Missed(c, RIGHT_MEM, e, ls) <==>
      l in ls && e.tag == MODIFY && c.rightKey(e.now) != c.rightKey(e.was) && c.rest(l, e.was)
      && (c.leftKey(l) == c.rightKey(e.was) || c.leftKey(l) == c.rightKey(e.now))
  {}
}
