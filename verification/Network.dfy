/** A left-deep chain of join nodes that ends in the memory of a production node. */
module Network {
  import opened Wrappers
  import opened Tuples
  import opened Joins
  import opened AndNodes
  import opened NandNodes
  import opened OandNodes

  datatype JoinNode = And(andNode: AndNode) | Nand(nandNode: NandNode) | Oand(oandNode: OandNode) {
    ghost function Ref(): object {
      match this case And(n) => n case Nand(n) => n case Oand(n) => n
    }

    function Condition(): Cond {
      match this case And(n) => n.c case Nand(n) => n.c case Oand(n) => n.c
    }

    ghost predicate Valid()
      reads Ref()
    {
      match this case And(n) => n.Valid() case Nand(n) => n.Valid() case Oand(n) => n.Valid()
    }

    ghost function Left(): set<Obj>
      reads Ref()
    {
      match this case And(n) => n.left case Nand(n) => n.left.Keys case Oand(n) => n.left.Keys
    }

    ghost function Right(): set<Obj>
      reads Ref()
    {
      match this case And(n) => n.right case Nand(n) => n.right case Oand(n) => n.right
    }

    /** What a node of this kind makes of two memories. */
    ghost function Combine(ls: set<Obj>, rs: set<Obj>): set<Obj> {
      match this
      case And(n) => Pairs(n.c, LEFT_MEM, ls, rs)
      case Nand(n) => Alone(n.c, ls, rs)
      case Oand(n) => Outer(n.c, ls, rs)
    }

    ghost function View(): set<Obj>
      reads Ref()
    {
      Combine(Left(), Right())
    }

    method CallByLeft(e: Event) returns (out: seq<Event>)
      requires Valid() && Fits(Left(), e) && (e.tag == MODIFY ==> And? && KeepsKey(Condition(), LEFT_MEM, e))
      modifies Ref()
      ensures Valid() && Left() == Stored(old(Left()), e) && Right() == old(Right())
      ensures Follow(old(View()), out) == Some(View())
      ensures forall i :: 0 <= i < |out| && out[i].tag == MODIFY ==> e.tag == MODIFY && Modifies(LEFT_MEM, e, out[i])
    {
      match this
      case And(n) => out := n.CallByLeft(e);
      case Nand(n) => ghost var order; out, order := n.CallByLeft(e);
      case Oand(n) => out := n.CallByLeft(e);
    }

    method CallByRight(e: Event) returns (out: seq<Event>)
      requires Valid() && Fits(Right(), e) && (e.tag == MODIFY ==> KeepsKey(Condition(), RIGHT_MEM, e))
      requires e.now != NullSingle && e.was != NullSingle
      modifies Ref()
      ensures Valid() && Right() == Stored(old(Right()), e) && Left() == old(Left())
      ensures Follow(old(View()), out) == Some(View())
      ensures !Oand? ==> forall i :: 0 <= i < |out| && out[i].tag == MODIFY ==> And? && e.tag == MODIFY && Modifies(RIGHT_MEM, e, out[i])
    {
      match this
      case And(n) => out := n.CallByRight(e);
      case Nand(n) => out := n.CallByRight(e);
      case Oand(n) => out := n.CallByRight(e);
    }
  }

  class RuleChain {
    const nodes: seq<JoinNode>
    var prod: set<Obj>   // the memory of the production node

    /** Nothing has arrived yet at the nodes of a new chain. */
    constructor (nodes: seq<JoinNode>)
      requires forall i, j :: 0 <= i < j < |nodes| ==> nodes[i].Ref() != nodes[j].Ref()
      requires forall i :: 0 <= i < |nodes| ==> nodes[i].Valid() && nodes[i].Left() == {} && nodes[i].Right() == {}
      ensures this.nodes == nodes && Distinct() && Linked(0) && Unique(Input(0)) && prod == {}
      ensures Input(0) == {} && forall i :: 0 <= i < |nodes| ==> nodes[i].Right() == {}
    {
      this.nodes := nodes;
      prod := {};
    }

    ghost predicate Distinct() {
      && (forall i, j :: 0 <= i < j < |nodes| ==> nodes[i].Ref() != nodes[j].Ref())
      && (forall i :: 0 <= i < |nodes| ==> nodes[i].Ref() != this)
    }

    /** The objects from node k on. */
    ghost function Tail(k: nat): set<object> {
      {this} + set i | k <= i < |nodes| :: nodes[i].Ref()
    }

    /** The memory that node k fills from the left; behind the last node it is the production memory. */
    ghost function Input(k: nat): set<Obj>
      requires k <= |nodes|
      reads Tail(k)
    {
      if k == |nodes| then prod else nodes[k].Left()
    }

    /** From node k on, every memory holds what the node before it lets through. */
    ghost predicate Linked(k: nat)
      requires k <= |nodes|
      reads Tail(k)
    {
      Unique(prod) && forall i :: k <= i < |nodes| ==> nodes[i].Valid() && Input(i + 1) == nodes[i].View()
    }

    /** Modifying a tuple that reaches node k meets only AND nodes and changes none of their keys. */
    ghost predicate KeepsAll(k: nat, was: Obj, now: Obj)
      decreases |nodes| - k
    {
      k < |nodes| ==>
        && nodes[k].And? && nodes[k].Condition().leftKey(now) == nodes[k].Condition().leftKey(was)
        && forall y :: KeepsAll(k + 1, Compound(was, y), Compound(now, y))
    }

    ghost predicate Passes(k: nat, e: Event) {
      e.tag == MODIFY ==> KeepsAll(k, e.was, e.now)
    }

    lemma LinkedHere(k: nat)
      requires k < |nodes|
      ensures Linked(k) <==> nodes[k].Valid() && Input(k + 1) == nodes[k].View() && Linked(k + 1)
    {}

    lemma InputUnique(k: nat)
      requires k <= |nodes| && Linked(k)
      ensures Unique(Input(k))
    {}

    lemma TailHere(k: nat)
      requires k < |nodes| && Distinct()
      ensures Tail(k) == Tail(k + 1) + {nodes[k].Ref()} && nodes[k].Ref() !in Tail(k + 1)
      ensures forall i :: k < i < |nodes| ==> nodes[i].Ref() in Tail(k + 1)
      ensures allocated(nodes[k].Ref()) && forall o {:trigger o in Tail(k + 1)} :: o in Tail(k + 1) ==> allocated(o)
    {}

    lemma PassesOn(k: nat, e: Event, out: seq<Event>)
      requires k < |nodes| && Passes(k, e)
      requires forall i :: 0 <= i < |out| && out[i].tag == MODIFY ==> e.tag == MODIFY && Modifies(LEFT_MEM, e, out[i])
      ensures forall i :: 0 <= i < |out| ==> Passes(k + 1, out[i])
    {}

    lemma PassesHere(k: nat, e: Event)
      requires k < |nodes| && Passes(k, e)
      ensures e.tag == MODIFY ==> nodes[k].And? && KeepsKey(nodes[k].Condition(), LEFT_MEM, e)
    {}

    lemma PassesHereRight(k: nat, e: Event)
      requires k < |nodes| && PassesRight(k, e)
      ensures e.tag == MODIFY ==> KeepsKey(nodes[k].Condition(), RIGHT_MEM, e)
    {}

    /** A tuple at node k, and all that follows from it. */
    method Pass(k: nat, e: Event)
      requires k <= |nodes| && Distinct() && Linked(k) && Fits(Input(k), e) && Passes(k, e)
      modifies Tail(k)
      ensures Linked(k) && Input(k) == Stored(old(Input(k)), e)
      ensures forall i :: k <= i < |nodes| ==> nodes[i].Right() == old(nodes[i].Right())
      decreases |nodes| - k, 0, 1
    {
      hide *;
      InputHere(k);
      if k == |nodes| {
        Keep(e);
        return;
      }
      LinkedHere(k);
      TailHere(k);
      Onward(k, e);
      LinkedHere(k);
      InputHere(k);
    }

    lemma InputHere(k: nat)
      requires k <= |nodes|
      ensures this in Tail(k) && Input(k) == if k == |nodes| then prod else nodes[k].Left()
    {}

    /** A tuple at the production node. */
    method Keep(e: Event)
      requires Linked(|nodes|) && Fits(prod, e)
      modifies this`prod
      ensures Linked(|nodes|) && Input(|nodes|) == Stored(old(Input(|nodes|)), e)
    {
      var go, x;
      prod, go, x := Store(prod, e);
    }

    method Onward(k: nat, e: Event)
      requires k < |nodes| && Distinct() && nodes[k].Valid() && Fits(nodes[k].Left(), e) && Passes(k, e)
      requires Linked(k + 1) && Input(k + 1) == nodes[k].View()
      modifies Tail(k)
      ensures Linked(k + 1) && Input(k + 1) == nodes[k].View() && nodes[k].Valid()
      ensures nodes[k].Left() == Stored(old(nodes[k].Left()), e) && nodes[k].Right() == old(nodes[k].Right())
      ensures forall i :: k < i < |nodes| ==> nodes[i].Right() == old(nodes[i].Right())
      decreases |nodes| - k, 0, 0
    {
      hide *;
      TailHere(k);
      PassesHere(k, e);
      var out := nodes[k].CallByLeft(e);
      PassesOn(k, e, out);
      assert Linked(k + 1) && Input(k + 1) == old(Input(k + 1));
      assert forall i :: k < i < |nodes| ==> nodes[i].Right() == old(nodes[i].Right());
      Forward(k, out);
    }

    /** What node k has sent, and all that follows from it. */
    method Forward(k: nat, out: seq<Event>)
      requires k < |nodes| && Distinct() && Linked(k + 1) && nodes[k].Valid()
      requires Follow(Input(k + 1), out) == Some(nodes[k].View()) && forall i :: 0 <= i < |out| ==> Passes(k + 1, out[i])
      modifies Tail(k + 1)
      ensures Linked(k + 1) && Input(k + 1) == nodes[k].View() && nodes[k].Valid()
      ensures nodes[k].Left() == old(nodes[k].Left()) && nodes[k].Right() == old(nodes[k].Right())
      ensures forall i :: k < i < |nodes| ==> nodes[i].Right() == old(nodes[i].Right())
      decreases |nodes| - k - 1, 2, 0
    {
      hide *;
      TailHere(k);
      ghost var view, ls, rs := nodes[k].View(), nodes[k].Left(), nodes[k].Right();
      PassAll(k + 1, out);
      assert nodes[k].View() == view && nodes[k].Left() == ls && nodes[k].Right() == rs && nodes[k].Valid();
    }

    method PassAll(k: nat, out: seq<Event>)
      requires k <= |nodes| && Distinct() && Linked(k) && Follow(Input(k), out).Some?
      requires forall i :: 0 <= i < |out| ==> Passes(k, out[i])
      modifies Tail(k)
      ensures Linked(k) && Some(Input(k)) == Follow(old(Input(k)), out)
      ensures forall i :: k <= i < |nodes| ==> nodes[i].Right() == old(nodes[i].Right())
      decreases |nodes| - k, 1, 0
    {
      hide *;
      ghost var before := Input(k);
      FollowNone(before);
      assert out[..0] == [] && out[..|out|] == out;
      for i := 0 to |out|
        invariant Linked(k) && Some(Input(k)) == Follow(before, out[..i])
        invariant forall i :: k <= i < |nodes| ==> nodes[i].Right() == old(nodes[i].Right())
      {
        FollowAt(before, out, i);
        InputUnique(k);
        ExactStored(Input(k), out[i]);
        Pass(k, out[i]);
      }
    }

    // ---------- arrivals ----------

    /** What an arrival from the right at node k sends on is a modification only of what keeps its keys. */
    ghost predicate PassesRight(k: nat, e: Event)
      requires k < |nodes|
    {
      && (nodes[k].Oand? ==> k + 1 == |nodes|)
      && (e.tag == MODIFY ==> KeepsKey(nodes[k].Condition(), RIGHT_MEM, e))
      && (e.tag == MODIFY ==> forall y :: KeepsAll(k + 1, Compound(y, e.was), Compound(y, e.now)))
    }

    lemma PassesOnRight(k: nat, e: Event, out: seq<Event>)
      requires k < |nodes| && PassesRight(k, e)
      requires !nodes[k].Oand? ==> forall i :: 0 <= i < |out| && out[i].tag == MODIFY ==> e.tag == MODIFY && Modifies(RIGHT_MEM, e, out[i])
      ensures forall i :: 0 <= i < |out| ==> Passes(k + 1, out[i])
    {}

    /** An object at the right of node k. */
    method FromRight(k: nat, e: Event)
      requires k < |nodes| && Distinct() && Linked(k) && Fits(nodes[k].Right(), e) && PassesRight(k, e)
      requires e.now != NullSingle && e.was != NullSingle
      modifies Tail(k)
      ensures Linked(k) && nodes[k].Left() == old(nodes[k].Left()) && nodes[k].Right() == Stored(old(nodes[k].Right()), e)
      ensures forall i :: k < i < |nodes| ==> nodes[i].Right() == old(nodes[i].Right())
    {
      hide *;
      LinkedHere(k);
      TailHere(k);
      OnwardRight(k, e);
      LinkedHere(k);
    }

    method OnwardRight(k: nat, e: Event)
      requires k < |nodes| && Distinct() && nodes[k].Valid() && Fits(nodes[k].Right(), e) && PassesRight(k, e)
      requires Linked(k + 1) && Input(k + 1) == nodes[k].View() && e.now != NullSingle && e.was != NullSingle
      modifies Tail(k)
      ensures Linked(k + 1) && Input(k + 1) == nodes[k].View() && nodes[k].Valid()
      ensures nodes[k].Left() == old(nodes[k].Left()) && nodes[k].Right() == Stored(old(nodes[k].Right()), e)
      ensures forall i :: k < i < |nodes| ==> nodes[i].Right() == old(nodes[i].Right())
    {
      hide *;
      TailHere(k);
      PassesHereRight(k, e);
      var out := nodes[k].CallByRight(e);
      PassesOnRight(k, e, out);
      assert Linked(k + 1) && Input(k + 1) == old(Input(k + 1));
      assert forall i :: k < i < |nodes| ==> nodes[i].Right() == old(nodes[i].Right());
      Forward(k, out);
    }

    // ---------- runs ----------

    /** What the memories hold after a run of arrivals. */
    ghost predicate Holds(run: seq<Arrival>)
      reads Tail(0)
    {
      && Distinct() && Linked(0) && Input(0) == Live(run, 0)
      && forall i :: 0 <= i < |nodes| ==> nodes[i].Right() == Live(run, i + 1)
    }

    /** What an arrival owes the memories after a run: no null single, the true old state in a
        modification, and no key changed or counter crossed on the way of a modified tuple. */
    ghost predicate Admits(run: seq<Arrival>, a: Arrival) {
      && a.slot <= |nodes| && a.e.now != NullSingle && a.e.was != NullSingle && Fits(Live(run, a.slot), a.e)
      && if a.slot == 0 then Passes(0, a.e) else PassesRight(a.slot - 1, a.e)
    }

    /** Insertions and retractions are admitted in every state. */
    lemma AdmitsPlain(run: seq<Arrival>, slot: nat, tag: Tag, o: Obj)
      requires (tag == INSERT || tag == RETRACT) && o != NullSingle && slot <= |nodes|
      requires slot > 0 && nodes[slot - 1].Oand? ==> slot == |nodes|
      ensures Admits(run, Arrival(slot, Event(tag, o, o)))
    {}

    /** So is the modification of a stored object, if it meets only AND nodes that do not key on it. */
    lemma AdmitsModify(run: seq<Arrival>, slot: nat, now: Obj, was: Obj)
      requires slot <= |nodes| && was in Live(run, slot) && Identity(now) == Identity(was) && was != NullSingle
      requires Unique(Live(run, slot)) && forall i :: 0 <= i < |nodes| ==> nodes[i].And?
      requires forall i, a, b :: 0 <= i < |nodes| ==> nodes[i].Condition().leftKey(a) == nodes[i].Condition().leftKey(b)
      requires slot > 0 ==> nodes[slot - 1].Condition().rightKey(now) == nodes[slot - 1].Condition().rightKey(was)
      ensures Admits(run, Arrival(slot, Event(MODIFY, now, was)))
    {
      if slot == 0 {
        KeylessKeeps(0, was, now);
      } else {
        forall y ensures KeepsAll(slot, Compound(y, was), Compound(y, now)) {
          KeylessKeeps(slot, Compound(y, was), Compound(y, now));
        }
      }
      assert Named(Live(run, slot), was) == {was};
      assert Named(Live(run, slot) - {was}, now) <= Named(Live(run, slot), was) - {was};
    }

    lemma {:induction false} KeylessKeeps(k: nat, was: Obj, now: Obj)
      requires forall i :: 0 <= i < |nodes| ==> nodes[i].And?
      requires forall i, a, b :: 0 <= i < |nodes| ==> nodes[i].Condition().leftKey(a) == nodes[i].Condition().leftKey(b)
      ensures KeepsAll(k, was, now)
      decreases |nodes| - k
    {
      if k < |nodes| {
        forall y ensures KeepsAll(k + 1, Compound(was, y), Compound(now, y)) { KeylessKeeps(k + 1, Compound(was, y), Compound(now, y)); }
      }
    }

    lemma LiveNext(run: seq<Arrival>, a: Arrival, slot: nat)
      ensures Live(run + [a], slot) == if a.slot == slot then Stored(Live(run, slot), a.e) else Live(run, slot)
    {
      assert (run + [a])[..|run|] == run;
    }

    lemma HoldsNext(run: seq<Arrival>, a: Arrival)
      requires Distinct() && Linked(0) && Input(0) == if a.slot == 0 then Stored(Live(run, 0), a.e) else Live(run, 0)
      requires forall i :: 0 <= i < |nodes| ==> nodes[i].Right() == if a.slot == i + 1 then Stored(Live(run, i + 1), a.e) else Live(run, i + 1)
      ensures Holds(run + [a])
    {
      LiveNext(run, a, 0);
      forall i | 0 <= i < |nodes| ensures nodes[i].Right() == Live(run + [a], i + 1) { LiveNext(run, a, i + 1); }
    }

    method Arrive(ghost run: seq<Arrival>, a: Arrival)
      requires Holds(run) && Admits(run, a)
      modifies Tail(0)
      ensures Holds(run + [a])
    {
      if a.slot == 0 {
        Pass(0, a.e);
        HoldsNext(run, a);
      } else {
        ArriveRight(run, a);
      }
    }

    ghost function Head(k: nat): set<object> {
      set i | 0 <= i < k && i < |nodes| :: nodes[i].Ref()
    }

    /** The nodes before node k are linked up to its left memory, and hold what a run left there. */
    ghost predicate HeldTo(k: nat, run: seq<Arrival>, left: set<Obj>)
      requires k < |nodes|
      reads Head(k)
    {
      && (forall i :: 0 <= i < k ==> nodes[i].Valid() && nodes[i].Right() == Live(run, i + 1))
      && (forall i :: 0 <= i < k ==> nodes[i].View() == if i + 1 == k then left else nodes[i + 1].Left())
      && Live(run, 0) == if k == 0 then left else nodes[0].Left()
    }

    method ArriveRight(ghost run: seq<Arrival>, a: Arrival)
      requires Holds(run) && Admits(run, a) && a.slot > 0
      modifies Tail(0)
      ensures Holds(run + [a])
    {
      hide *;
      HeldAround(run, a);
      FromRight(a.slot - 1, a.e);
      HoldsRight(a.slot - 1, run, a);
    }

    /** What an arrival at the right of a node relies on, and what it leaves alone. */
    lemma HeldAround(run: seq<Arrival>, a: Arrival)
      requires Holds(run) && Admits(run, a) && a.slot > 0
      ensures var k := a.slot - 1;
        && k < |nodes| && Distinct() && Linked(k) && Fits(nodes[k].Right(), a.e) && PassesRight(k, a.e)
        && a.e.now != NullSingle && a.e.was != NullSingle
        && HeldTo(k, run, nodes[k].Left()) && Tail(k) <= Tail(0) && Head(k) !! Tail(k)
        && nodes[k].Right() == Live(run, a.slot) && forall i :: k < i < |nodes| ==> nodes[i].Right() == Live(run, i + 1)
      ensures forall o {:trigger o in Head(a.slot - 1)} :: o in Head(a.slot - 1) ==> allocated(o)
    {}

    lemma HoldsRight(k: nat, run: seq<Arrival>, a: Arrival)
      requires k < |nodes| && a.slot == k + 1 && Distinct() && Linked(k) && HeldTo(k, run, nodes[k].Left())
      requires forall i :: k <= i < |nodes| ==> nodes[i].Right() == if i == k then Stored(Live(run, i + 1), a.e) else Live(run, i + 1)
      ensures Holds(run + [a])
    {
      HoldsNext(run, a);
    }

    /** Every run of arrivals, each of which the memories admit when it comes. */
    method Run(run: seq<Arrival>)
      requires Holds([]) && forall i :: 0 <= i < |run| ==> Admits(run[..i], run[i])
      modifies Tail(0)
      ensures Holds(run) && prod == Expected(run, |nodes|)
      ensures forall t :: t in prod <==> Selected(run, |nodes|, t)
    {
      assert run[..0] == [] && run[..|run|] == run;
      for i := 0 to |run|
        invariant Holds(run[..i])
      {
        Arrive(run[..i], run[i]);
        assert run[..i] + [run[i]] == run[..i + 1];
      }
      ChainIsJoin(run, |nodes|);
      forall t { ExpectedMeans(run, |nodes|, t); }
    }

    /** Some object live on the right of node k - 1 has the key of the tuple and satisfies the rest with it. */
    ghost predicate Meets(run: seq<Arrival>, k: nat, t: Obj)
      requires 0 < k <= |nodes|
    {
      var c := nodes[k - 1].Condition();
      exists r :: r in Live(run, k) && c.leftKey(t) == c.rightKey(r) && c.rest(t, r)
    }

    /** What the conditions of the first k nodes say of a tuple and of its parts, down to the live objects. */
    ghost predicate Selected(run: seq<Arrival>, k: nat, t: Obj)
      requires k <= |nodes|
      decreases k
    {
      if k == 0 then t in Live(run, 0)
      else if nodes[k - 1].Nand? then Selected(run, k - 1, t) && !Meets(run, k, t)
      else
        var c := nodes[k - 1].Condition();
        t.Compound? && Selected(run, k - 1, t.left)
        && ((t.right in Live(run, k) && c.leftKey(t.left) == c.rightKey(t.right) && c.rest(t.left, t.right))
          || (nodes[k - 1].Oand? && t.right == NullSingle && !Meets(run, k, t.left)))
    }

    /** The expected tuples are those that the conditions select, part by part. */
    lemma {:induction false} ExpectedMeans(run: seq<Arrival>, k: nat, t: Obj)
      requires k <= |nodes|
      ensures t in Expected(run, k) <==> Selected(run, k, t)
      decreases k
    {
      if k > 0 {
        var c, ls, rs := nodes[k - 1].Condition(), Expected(run, k - 1), Live(run, k);
        PairsMeans(c, ls, rs, t);
        AloneMeans(c, ls, rs, t);
        OuterMeans(c, ls, rs, t);
        ExpectedMeans(run, k - 1, t);
        if t.Compound? { ExpectedMeans(run, k - 1, t.left); }
        hide Pairs, Alone, Outer, Live;
      }
    }

    /** The tuples that the first k nodes should let through: each combines those of the nodes before
        it with the objects live on its right. */
    ghost function Expected(run: seq<Arrival>, k: nat): set<Obj>
      requires k <= |nodes|
    {
      if k == 0 then Live(run, 0) else nodes[k - 1].Combine(Expected(run, k - 1), Live(run, k))
    }

    lemma {:induction false} ChainIsJoin(run: seq<Arrival>, k: nat)
      requires Holds(run) && k <= |nodes|
      ensures Input(k) == Expected(run, k)
    {
      if k > 0 {
        ChainIsJoin(run, k - 1);
        assert Input(k - 1 + 1) == nodes[k - 1].View();
      }
    }
  }

  /** An object that comes to the left input of the chain, slot 0, or to the right of node slot - 1. */
  datatype Arrival = Arrival(slot: nat, e: Event)

  /** What is stored at a slot after a run of arrivals. */
  function Live(run: seq<Arrival>, slot: nat): (mem: set<Obj>)
    decreases |run|
  {
    if run == [] then {}
    else
      var mem, a := Live(run[..|run| - 1], slot), run[|run| - 1];
      if a.slot == slot then Stored(mem, a.e) else mem
  }

  /** Says of an object whether its identity was inserted at slot at step i and not retracted there since. */
  ghost predicate Inserted(run: seq<Arrival>, slot: nat, o: Obj, i: int) {
    && 0 <= i < |run| && run[i].slot == slot && run[i].e.tag == INSERT && Identity(run[i].e.now) == Identity(o)
    && forall j :: i < j < |run| && run[j].slot == slot && run[j].e.tag == RETRACT ==> Identity(run[j].e.now) != Identity(o)
  }

  /** After insertions and retractions, the stored objects are those inserted and not retracted since. */
  lemma {:induction false} LiveIs(run: seq<Arrival>, slot: nat, o: Obj)
    requires forall i :: 0 <= i < |run| ==> run[i].e.tag == INSERT || run[i].e.tag == RETRACT
    ensures Named(Live(run, slot), o) != {} <==> exists i :: Inserted(run, slot, o, i)
    decreases |run|
  {
    if run != [] {
      var n := |run| - 1;
      var before, a, mem := run[..n], run[n], Live(run[..n], slot);
      LiveIs(before, slot, o);
      forall i ensures Inserted(run, slot, o, i) <==> 
        if a.slot == slot && Identity(a.e.now) == Identity(o) then (if a.e.tag == INSERT then i == n || Inserted(before, slot, o, i) else false) else Inserted(before, slot, o, i)
      {}
      NamedStored(mem, a.e, o);
      if a.slot == slot && a.e.tag == INSERT && Identity(a.e.now) == Identity(o) { assert Inserted(run, slot, o, n); }
    }
  }

  lemma NamedStored(mem: set<Obj>, e: Event, o: Obj)
    requires e.tag == INSERT || e.tag == RETRACT
    ensures Named(Stored(mem, e), o) != {} <==> if Identity(e.now) == Identity(o) then e.tag == INSERT else Named(mem, o) != {}
  {
    var m := Stored(mem, e);
    assert Identity(e.now) == Identity(o) ==> Named(mem, e.now) == Named(mem, o);
    if Identity(e.now) != Identity(o) {
      assert Named(m, o) == Named(mem, o);
    } else if e.tag == INSERT && Named(mem, o) == {} {
      assert e.now in Named(m, o);
    }
  }
}
