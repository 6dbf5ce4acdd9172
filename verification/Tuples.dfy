/** The tuples that travel through the network, the tagged events that carry them, and the memory a
    stream of events builds up. */
module Tuples {
  import opened Wrappers

  /** A matched object with its present value, the null single, or a couple made by a join. */
  datatype Obj = Single(id: int, value: int) | NullSingle | Compound(left: Obj, right: Obj)

  /** What the comparison of tuples sees: which objects they hold and not what is in them. */
  function Identity(o: Obj): Obj {
    match o
    case Single(id, _) => Single(id, 0)
    case NullSingle => NullSingle
    case Compound(l, r) => Compound(Identity(l), Identity(r))
  }

  /** Two tuples of one form hold the same objects, place by place. */
  predicate SameObjects(a: Obj, b: Obj) {
    match (a, b)
    case (Single(i, _), Single(j, _)) => i == j
    case (NullSingle, NullSingle) => true
    case (Compound(l, r), Compound(m, s)) => SameObjects(l, m) && SameObjects(r, s)
    case _ => false
  }

  lemma {:induction false} IdentityMeans(a: Obj, b: Obj)
    ensures Identity(a) == Identity(b) <==> SameObjects(a, b)
  {
    if a.Compound? && b.Compound? {
      IdentityMeans(a.left, b.left);
      IdentityMeans(a.right, b.right);
    }
  }

  // The bits of a tag: 1 for a tuple that appears, 2 for one that goes.
  type Tag = bv2
  const INSERT: Tag := 1
  const RETRACT: Tag := 2
  const MODIFY: Tag := 3

  /** A tagged tuple, in its new state and in its old one. */
  datatype Event = Event(tag: Tag, now: Obj, was: Obj)

  predicate Appears(tag: Tag) { tag == INSERT || tag == MODIFY }
  predicate Goes(tag: Tag) { tag == RETRACT || tag == MODIFY }

  /** The items of a memory with the identity of o. */
  function Named(mem: set<Obj>, o: Obj): (s: set<Obj>) {
    set x | x in mem && Identity(x) == Identity(o)
  }

  /** A memory keeps no two items of one identity. */
  ghost predicate Unique(mem: set<Obj>) {
    forall x, y :: x in mem && y in mem && Identity(x) == Identity(y) ==> x == y
  }

  /** What e takes away and brings in. */
  function Gone(e: Event): set<Obj> { if Goes(e.tag) then {e.was} else {} }
  function Come(e: Event): set<Obj> { if Appears(e.tag) then {e.now} else {} }
  function Applied(mem: set<Obj>, e: Event): set<Obj> { mem - Gone(e) + Come(e) }

  /** e says something true of mem: what goes is there in that state, what appears is not. */
  ghost predicate Exact(mem: set<Obj>, e: Event) {
    && e.tag != 0 && (Goes(e.tag) ==> e.was in mem)
    && (Appears(e.tag) ==> Named(mem - Gone(e), e.now) == {})
    && (e.tag != MODIFY ==> e.now == e.was)
  }

  /** The memory after a stream of events each of which was exact when it came. */
  ghost function Follow(mem: set<Obj>, es: seq<Event>): (r: Option<set<Obj>>)
    decreases |es|
  {
    if es == [] then Some(mem)
    else
      var r, e := Follow(mem, es[..|es| - 1]), es[|es| - 1];
      if r.Some? && Exact(r.value, e) then Some(Applied(r.value, e)) else None
  }

  lemma FollowNone(mem: set<Obj>)
    ensures Follow(mem, []) == Some(mem)
  {}

  /** One more event at the end of a stream. */
  lemma FollowOne(mem: set<Obj>, es: seq<Event>, e: Event)
    ensures var r := Follow(mem, es);
      Follow(mem, es + [e]) == if r.Some? && Exact(r.value, e) then Some(Applied(r.value, e)) else None
  {
    assert (es + [e])[..|es|] == es;
  }

  /** No more events, or one. */
  lemma FollowStep(mem: set<Obj>, es: seq<Event>, more: seq<Event>, at: set<Obj>, next: set<Obj>)
    requires Follow(mem, es) == Some(at) && |more| <= 1
    requires if more == [] then next == at else Exact(at, more[0]) && next == Applied(at, more[0])
    ensures Follow(mem, es + more) == Some(next)
  {
    if more == [] {
      assert es + more == es;
    } else {
      assert more == [more[0]];
      FollowOne(mem, es, more[0]);
    }
  }

  lemma {:induction false} FollowPrefix(mem: set<Obj>, es: seq<Event>, k: nat)
    requires k <= |es| && Follow(mem, es).Some?
    ensures Follow(mem, es[..k]).Some?
    decreases |es|
  {
    if k < |es| {
      assert es[..|es| - 1][..k] == es[..k];
      FollowPrefix(mem, es[..|es| - 1], k);
    } else {
      assert es[..k] == es;
    }
  }

  lemma FollowAt(mem: set<Obj>, es: seq<Event>, k: nat)
    requires Follow(mem, es).Some? && k < |es|
    ensures Follow(mem, es[..k]).Some? && Exact(Follow(mem, es[..k]).value, es[k])
    ensures Follow(mem, es[..k + 1]) == Some(Applied(Follow(mem, es[..k]).value, es[k]))
  {
    FollowPrefix(mem, es, k);
    FollowPrefix(mem, es, k + 1);
    assert es[..k + 1] == es[..k] + [es[k]];
    FollowOne(mem, es[..k], es[k]);
  }

  /** A memory that follows exact events keeps its identities apart. */
  lemma AppliedUnique(mem: set<Obj>, e: Event)
    requires Unique(mem) && Exact(mem, e)
    ensures Unique(Applied(mem, e))
  {
    forall x, y | x in Applied(mem, e) && y in Applied(mem, e) && Identity(x) == Identity(y) ensures x == y {
      if Appears(e.tag) {
        assert Identity(x) == Identity(e.now) && x in mem - Gone(e) ==> x in Named(mem - Gone(e), e.now);
        assert Identity(y) == Identity(e.now) && y in mem - Gone(e) ==> y in Named(mem - Gone(e), e.now);
      }
    }
  }

  // ---------- storing an arrival ----------

  /** What a memory holds after an arrival: an item already stored is not stored again, only a stored
      one is removed, and a modification replaces what was stored or else inserts. */
  function Stored(mem: set<Obj>, e: Event): set<Obj> {
    if e.tag == INSERT then (if Named(mem, e.now) == {} then mem + {e.now} else mem)
    else if e.tag == RETRACT then mem - Named(mem, e.now)
    else if Named(mem, e.was) == {} then (if Named(mem, e.now) == {} then mem + {e.now} else mem)
    else mem - Named(mem, e.was) + {e.now}
  }

  /** What an arrival owes the memory it comes to. A stored tuple has the old state that a
      modification names, and the new one is no other stored tuple. */
  ghost predicate Fits(mem: set<Obj>, e: Event) {
    && e.tag != 0
    && (e.tag == MODIFY ==> Named(mem, e.was) <= {e.was} && Named(mem - Named(mem, e.was), e.now) == {})
  }

  /** Insertions and retractions always fit. A modification does exactly if no item of its old identity has
      another state, and no other item has its new identity. */
  lemma FitsMeans(mem: set<Obj>, e: Event)
    requires e.tag != 0
    ensures Fits(mem, e) <==> (e.tag == MODIFY ==>
      forall x :: x in mem ==>
        (SameObjects(x, e.was) ==> x == e.was) && (SameObjects(x, e.now) ==> SameObjects(x, e.was)))
  {
    forall x | x in mem
      ensures x in Named(mem, e.was) <==> SameObjects(x, e.was)
      ensures x in Named(mem, e.now) <==> SameObjects(x, e.now)
    {
      IdentityMeans(x, e.was);
      IdentityMeans(x, e.now);
    }
    hide SameObjects, Identity;
    forall x | x in Named(mem - Named(mem, e.was), e.now) ensures x in Named(mem, e.now) {}
    forall x | x in mem && x in Named(mem, e.now) && x !in Named(mem, e.was) ensures x in Named(mem - Named(mem, e.was), e.now) {}
  }

  lemma ExactStored(mem: set<Obj>, e: Event)
    requires Unique(mem) && Exact(mem, e)
    ensures Fits(mem, e) && Stored(mem, e) == Applied(mem, e)
  {
    assert Goes(e.tag) ==> Named(mem, e.was) == {e.was};
  }

  /** Stores what arrived, and says what that amounts to: nothing, or an exact event. */
  method Store(mem: set<Obj>, e: Event) returns (mem': set<Obj>, go: bool, x: Event)
    requires Unique(mem) && Fits(mem, e)
    ensures mem' == Stored(mem, e) && Unique(mem')
    ensures go ==> Exact(mem, x) && mem' == Applied(mem, x)
    ensures !go ==> mem' == mem && e.tag != MODIFY
    ensures go ==> x == e || x == Event(INSERT, e.now, e.now) || (e.tag == RETRACT && x.tag == RETRACT)
    ensures go && Exact(mem, e) ==> x == e
  {
    x := e;
    if e.tag == INSERT {
      go := Named(mem, e.now) == {};
      mem' := if go then mem + {e.now} else mem;
      x := Event(INSERT, e.now, e.now);
    } else if e.tag == RETRACT {
      if item :| item in mem && Identity(item) == Identity(e.now) {
        assert Named(mem, e.now) == {item};
        go, mem', x := true, mem - {item}, Event(RETRACT, item, item);
      } else {
        go, mem' := false, mem;
      }
    } else if item :| item in mem && Identity(item) == Identity(e.was) {
      assert Named(mem, e.was) == {item} == {e.was};
      go, mem' := true, mem - {item} + {e.now};
    } else {
      assert Named(mem, e.was) == {};
      assert mem - {} == mem;
      go, mem', x := true, mem + {e.now}, Event(INSERT, e.now, e.now);
    }
    if go {
      assert mem' == Applied(mem, x);
      AppliedUnique(mem, x);
    }
  }
}
