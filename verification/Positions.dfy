/** Where a modified object stands in the couples that are sent on, as the next node is told. */
module Positions {
  import opened Expressions
  import opened Joins
  import opened Machine
  import opened Keys

  /** Where it stands: items of the right follow those of the left. */
  function PlaceInCouple(side: Side, pos: int, nLeft: nat): int { if side == RIGHT_MEM then pos + nLeft else pos }

  /** What an AND node passes on: the side that it looks at is that of the new couple, which is always the left. */
  function AndPasses(pos: int, nLeft: nat): int {
    var newSide := LEFT_MEM;
    if newSide == RIGHT_MEM && pos >= 0 then pos + nLeft else pos
  }

  /** What an OAND node passes on; -1 stands for an object that is not looked for. */
  function OandPasses(side: Side, pos: int, nLeft: nat): int { if side == RIGHT_MEM then pos + nLeft else pos }

  /** Whether the next node, with these keys on its left, indexes the couple again. */
  ghost predicate Reindexes(keys: seq<int>, objpos: int, was: int -> Value, now: int -> Value) {
    exists nk :: 0 <= nk < |keys| && Touches(keys[nk], 0, objpos, was, now)
  }

  /** The next node is asked about the object that was modified, whatever its keys and the change. */
  ghost predicate AsksRight(passed: int, place: int) {
    forall keys, was, now :: Reindexes(keys, passed, was, now) == Reindexes(keys, place, was, now)
  }

  /** A key that only the object at place has, on its attribute 0. */
  function KeyAt(place: int): int { place * 0x100 * SIDE + N * TYPE }

  lemma OnlyThere(place: int, other: int)
    requires 0 <= place < 0x80 && other != place
    ensures Reindexes([KeyAt(place)], place, _ => Num(0), _ => Num(1)) && !Reindexes([KeyAt(place)], other, _ => Num(0), _ => Num(1))
  {
    var key := KeyAt(place);
    KeyFields(N, place * 0x100, 0);
    assert KeyType(key) == N && KeyPlace(key, 0) == place * 0x100;
    assert Touches([key][0], 0, place, _ => Num(0), _ => Num(1));
  }

  lemma AsksRightIs(passed: int, place: int)
    requires 0 <= place < 0x80
    ensures AsksRight(passed, place) <==> passed == place
  {
    if passed != place { OnlyThere(place, passed); }
  }

  /** An AND node tells the next one about the right object exactly if the modified one came by the left,
      or nothing stands before it. */
  lemma AndPositionRight(side: Side, pos: int, nLeft: nat)
    requires 0 <= pos && pos + nLeft < 0x80
    ensures AsksRight(AndPasses(pos, nLeft), PlaceInCouple(side, pos, nLeft)) <==> side == LEFT_MEM || nLeft == 0
  {
    AsksRightIs(AndPasses(pos, nLeft), PlaceInCouple(side, pos, nLeft));
  }

  /** An OAND node always does. */
  lemma OandPositionRight(side: Side, pos: int, nLeft: nat)
    requires 0 <= pos && pos + nLeft < 0x80
    ensures AsksRight(OandPasses(side, pos, nLeft), PlaceInCouple(side, pos, nLeft))
  {}
}
