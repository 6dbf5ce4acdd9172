/** The queue of actions: one list, and slots in it from which it is consumed depth first. */
module ActionQueue {
  /** An action, with all that its propagation will ask for: first what reaching the network queues, and
      then what each rule that it makes ready queues when it is run. */
  datatype Act = Act(id: int, change: bool, deleted: bool, first: Acts, rounds: Rounds)
  datatype Acts = NoActs | More(act: Act, rest: Acts)
  datatype Rounds = NoRounds | Round(acts: Acts, next: Rounds)

  function Weight(a: Act): nat { 1 + WeightAll(a.first) + WeightRounds(a.rounds) }
  function WeightAll(s: Acts): nat { match s case NoActs => 0 case More(a, rest) => Weight(a) + WeightAll(rest) }
  function WeightRounds(r: Rounds): nat { match r case NoRounds => 0 case Round(s, next) => WeightAll(s) + WeightRounds(next) }

  /** The actions that are carried out because of a, in order: a itself, and then whatever it leads to,
      each with its own consequences before the next. */
  function Visit(a: Act): seq<int> {
    if a.change || a.deleted then [] else [a.id] + VisitAll(a.first) + VisitRounds(a.rounds)
  }
  function VisitAll(s: Acts): seq<int> { match s case NoActs => [] case More(a, rest) => Visit(a) + VisitAll(rest) }
  function VisitRounds(r: Rounds): seq<int> { match r case NoRounds => [] case Round(s, next) => VisitAll(s) + VisitRounds(next) }

  class Action {
    const act: Act
    var next: Action?

    constructor (act: Act)
      ensures this.act == act && next == null
    {
      this.act, next := act, null;
    }
  }

  function At(l: seq<Action>, i: int): Action? { if 0 <= i < |l| then l[i] else null }

  ghost predicate Chain(l: seq<Action>)
    reads l
  {
    && (forall i, j :: 0 <= i < j < |l| ==> l[i] != l[j])
    && (forall i :: 0 <= i < |l| ==> l[i].next == At(l, i + 1))
  }

  ghost function VisitList(l: seq<Action>): seq<int> {
    if l == [] then [] else Visit(l[0].act) + VisitList(l[1..])
  }

  ghost function WeightList(l: seq<Action>): nat {
    if l == [] then 0 else Weight(l[0].act) + WeightList(l[1..])
  }

  /** How many changes without propagation come first. */
  ghost function Changes(l: seq<Action>): (n: nat)
    ensures n <= |l| && (n < |l| ==> !l[n].act.change)
    ensures forall i :: 0 <= i < n ==> l[i].act.change
  {
    if l == [] || !l[0].act.change then 0 else 1 + Changes(l[1..])
  }

  class Queue {
    var head: Action?
    var tail: Action?          // the action behind which the list ends, or null for the head
    ghost var list: seq<Action>
    ghost var nodes: set<Action>   // all that have been in the list
    var log: seq<int>

    constructor ()
      ensures Valid() && list == [] && log == [] && nodes == {}
    {
      head, tail, list, log, nodes := null, null, [], [], {};
    }

    ghost predicate Valid()
      reads this, nodes
    {
      (forall x :: x in list ==> x in nodes) && Chain(list) && head == At(list, 0) && tail == At(list, |list| - 1)
    }

    /** The slot behind an action, or the head. */
    ghost predicate Slot(owner: Action?, k: nat)
      reads this
    {
      k <= |list| && owner == At(list, k - 1)
    }

    method Get(owner: Action?, ghost k: nat) returns (a: Action?)
      requires Valid() && Slot(owner, k)
      ensures a == At(list, k)
    {
      a := if owner == null then head else owner.next;
    }

    /** Puts an action at the end. */
    method Push(a: Action)
      requires Valid() && a !in nodes && a.next == null
      modifies this`head, this`tail, this`list, this`nodes, nodes
      ensures Valid() && list == old(list) + [a] && nodes == old(nodes) + {a}
    {
      if tail == null { head := a; } else { tail.next := a; }
      tail := a;
      list, nodes := list + [a], nodes + {a};
      assert forall i :: 0 <= i < |list| - 1 ==> list[i] == old(list)[i];
    }

    lemma Parts()
      requires Valid()
      ensures Chain(list) && head == At(list, 0) && tail == At(list, |list| - 1)
      ensures forall x :: x in list ==> x in nodes
    {}

    lemma Whole(owner: Action?, k: nat)
      requires Chain(list) && head == At(list, 0) && tail == At(list, |list| - 1)
      requires forall x :: x in list ==> x in nodes
      ensures Valid() && (k <= |list| && owner == At(list, k - 1) ==> Slot(owner, k))
    {}

    lemma SlotIs(owner: Action?, k: nat)
      requires Slot(owner, k)
      ensures k <= |list| && owner == At(list, k - 1) && (owner != null ==> owner in list && k > 0)
    {}

    /** Makes a slot point further on. */
    method Skip(owner: Action?, after: Action?, ghost k: nat, ghost m: nat)
      requires Valid() && Slot(owner, k) && k <= m <= |list| && after == At(list, m)
      modifies this`head, this`tail, this`list, nodes
      ensures Valid() && Slot(owner, k) && list == old(list)[..k] + old(list)[m..]
    {
      hide *;
      Parts();
      SlotIs(owner, k);
      Ends(list, k, m);
      if owner == null {
        head := after;
        ChainTail(list, m);
      } else {
        SetNext(list, owner, after, k, m);
      }
      if after == null { tail := owner; }
      list := list[..k] + list[m..];
      Whole(owner, k);
    }

    /** Takes the first action behind a slot that is not a mere change; changes before it are dropped. */
    method Pop(owner: Action?, ghost k: nat) returns (act: Action?)
      requires Valid() && Slot(owner, k)
      modifies this`head, this`tail, this`list, nodes
      ensures Valid() && Slot(owner, k)
      ensures var rest := old(list)[k..]; var d := Changes(rest);
        if d == |rest| then act == null && list == old(list)[..k]
        else act == rest[d] && list == old(list)[..k] + rest[d + 1..]
    {
      hide *;
      Parts();
      SlotIs(owner, k);
      ghost var m;
      act, m := FirstReal(owner, k);
      AtIs(list, m);
      if act == null {
        Skip(owner, null, k, m);
        assert old(list)[..k] + old(list)[m..] == old(list)[..k];
      } else {
        NextIs(list, m);
        AtIs(list, m + 1);
        assert list[k..][m - k + 1..] == list[m + 1..];
        Skip(owner, act.next, k, m + 1);
      }
    }

    /** The first action behind a slot that is not a mere change. */
    method FirstReal(owner: Action?, ghost k: nat) returns (act: Action?, ghost m: nat)
      requires Valid() && Slot(owner, k)
      ensures k <= m <= |list| && m - k == Changes(list[k..]) && act == At(list, m)
    {
      hide *;
      Parts();
      SlotIs(owner, k);
      m := k;
      act := Get(owner, k);
      AtIs(list, k);
      ghost var rest := list[k..];
      while act != null && act.act.change
        invariant k <= m <= |list| && act == (if m < |list| then list[m] else null)
        invariant forall i :: 0 <= i < m - k ==> rest[i].act.change
        decreases |list| - m
      {
        NextIs(list, m);
        act := act.next;
        m := m + 1;
      }
      ChangesIs(rest, m - k);
      AtIs(list, m);
    }

    lemma End()
      requires Valid()
      ensures Slot(tail, |list|)
    {}

    /** Queues actions in order. */
    method PushAll(acts: Acts)
      requires Valid()
      modifies this`head, this`tail, this`list, this`nodes, nodes
      ensures Valid() && |old(list)| <= |list| && list[..|old(list)|] == old(list) && fresh(nodes - old(nodes))
      ensures VisitList(list[|old(list)|..]) == VisitAll(acts) && WeightList(list[|old(list)|..]) == WeightAll(acts)
    {
      hide *;
      ghost var n := |list|;
      var s := acts;
      EmptyList(list[n..]);
      while s.More?
        invariant Valid() && n <= |list| && list[..n] == old(list) && fresh(nodes - old(nodes))
        invariant VisitList(list[n..]) + VisitAll(s) == VisitAll(acts) && WeightList(list[n..]) + WeightAll(s) == WeightAll(acts)
        decreases s
      {
        var a := new Action(s.act);
        AppendOne(list[n..], a);
        MoreIs(s);
        assert (list + [a])[n..] == list[n..] + [a];
        Push(a);
        s := s.rest;
      }
      MoreIs(s);
    }

    /** Carries out the first action behind a slot, and all that follows from it. */
    method DoLoop(owner: Action?, ghost k: nat)
      requires Valid() && Slot(owner, k)
      modifies this, nodes
      ensures Valid() && Slot(owner, k)
      ensures list == Rest(old(list), k) && log == old(log) + First(old(list), k) && fresh(nodes - old(nodes))
      decreases WeightList(list[k..]), 1
    {
      hide *;
      SlotIs(owner, k);
      RestIs(list, k);
      var act := Pop(owner, k);
      if act == null { return; }
      if act.act.deleted {
        VisitIs(act.act);
        return;
      }
      Carry(act, owner, k);
    }

    /** Carries out an action that has been taken from the list: what it queues comes behind the end,
        and is gone when it returns. */
    method Carry(act: Action, owner: Action?, ghost k: nat)
      requires Valid() && Slot(owner, k) && !act.act.change && !act.act.deleted
      modifies this, nodes
      ensures Valid() && Slot(owner, k) && list == old(list) && log == old(log) + Visit(act.act) && fresh(nodes - old(nodes))
      decreases Weight(act.act), 0
    {
      hide *;
      VisitIs(act.act);
      SlotIs(owner, k);
      End();
      SlotIs(tail, |list|);
      Parts();
      log := log + [act.act.id];
      Whole(tail, |list|);
      var newInit := tail;
      ghost var l := list;
      PushAll(act.act.first);
      SlotKept(newInit, |l|, l);
      Consequences(newInit, |l|, act.act.rounds);
      SlotKept(owner, k, l);
    }

    lemma SlotKept(owner: Action?, k: nat, l: seq<Action>)
      requires k <= |l| <= |list| && list[..|l|] == l && owner == At(l, k - 1)
      ensures Slot(owner, k)
    {}

    /** Runs rules until none is ready, and drains what each of them queues. */
    method Consequences(owner: Action?, ghost k: nat, rounds: Rounds)
      requires Valid() && Slot(owner, k)
      modifies this, nodes
      ensures Valid() && list == old(list)[..k] && log == old(log) + (VisitList(old(list)[k..]) + VisitRounds(rounds))
      ensures fresh(nodes - old(nodes))
      decreases WeightList(list[k..]) + WeightRounds(rounds), 3
    {
      hide *;
      SlotIs(owner, k);
      var r, ran := rounds, true;
      ghost var all := log + (VisitList(list[k..]) + VisitRounds(rounds));
      while ran
        invariant Valid() && k <= |list| && owner == At(list, k - 1) && list[..k] == old(list)[..k] && k <= |old(list)|
        invariant fresh(nodes - old(nodes))
        invariant all == log + (VisitList(list[k..]) + VisitRounds(r))
        invariant WeightList(list[k..]) + WeightRounds(r) <= old(WeightList(list[k..])) + WeightRounds(rounds)
        invariant !ran ==> r == NoRounds && list[k..] == []
        decreases r, ran
      {
        ran := r.Round?;
        RoundIs(r);
        ghost var l := list;
        if ran {
          PushAll(r.acts);
          Joined(l, list, k);
          assert log + (VisitList(l[k..]) + (VisitAll(r.acts) + VisitRounds(r.next))) == log + (VisitList(list[k..]) + VisitRounds(r.next));
          r := r.next;
        }
        SlotKept(owner, k, list);
        l := list;
        ghost var was := log;
        AtPrefix(l, k);
        Drain(owner, k);
        EmptyList(list[k..]);
        assert was + (VisitList(l[k..]) + VisitRounds(r)) == log + ([] + VisitRounds(r));
      }
      EmptyList(list[k..]);
      RoundIs(r);
      assert log + ([] + []) == log && list == list[..k] + list[k..];
    }

    /** Empties the list behind a slot. */
    method Drain(owner: Action?, ghost k: nat)
      requires Valid() && Slot(owner, k)
      modifies this, nodes
      ensures Valid() && Slot(owner, k) && list == old(list)[..k] && log == old(log) + VisitList(old(list)[k..])
      ensures fresh(nodes - old(nodes))
      decreases WeightList(list[k..]), 2
    {
      hide *;
      SlotIs(owner, k);
      ghost var all := log + VisitList(list[k..]);
      var a := Get(owner, k);
      AtIs(list, k);
      while a != null
        invariant Valid() && Slot(owner, k) && k <= |list| && owner == At(list, k - 1) && list[..k] == old(list)[..k] && k <= |old(list)|
        invariant a == if k < |list| then list[k] else null
        invariant fresh(nodes - old(nodes))
        invariant all == log + VisitList(list[k..])
        invariant WeightList(list[k..]) <= old(WeightList(list[k..]))
        decreases |list|
      {
        ghost var l, was := list, log;
        RestIs(list, k);
        DoLoop(owner, k);
        assert was + VisitList(l[k..]) == log + VisitList(list[k..]);
        SlotIs(owner, k);
        a := Get(owner, k);
        AtIs(list, k);
      }
      EmptyList(list[k..]);
      assert log + [] == log && list == list[..k] + list[k..];
    }
  }

  /** The list when the first action behind place k has been carried out, and what that carries out. */
  ghost function Rest(l: seq<Action>, k: nat): seq<Action>
    requires k <= |l|
  {
    var d := Changes(l[k..]);
    l[..k] + if k + d == |l| then [] else l[k + d + 1..]
  }

  ghost function First(l: seq<Action>, k: nat): seq<int>
    requires k <= |l|
  {
    var d := Changes(l[k..]);
    if k + d == |l| then [] else Visit(l[k + d].act)
  }

  lemma RestIs(l: seq<Action>, k: nat)
    requires k <= |l|
    ensures var r, d := l[k..], Changes(l[k..]);
      && Rest(l, k) == l[..k] + (if d == |r| then [] else r[d + 1..]) && First(l, k) == (if d == |r| then [] else Visit(r[d].act))
      && (d < |r| ==> !r[d].act.change && Weight(r[d].act) <= WeightList(r))
    ensures k <= |Rest(l, k)| && Rest(l, k)[..k] == l[..k] && (k < |l| ==> |Rest(l, k)| < |l|)
    ensures forall x :: x in Rest(l, k) ==> x in l
    ensures VisitList(l[k..]) == First(l, k) + VisitList(Rest(l, k)[k..]) && WeightList(Rest(l, k)[k..]) <= WeightList(l[k..])
  {
    var r, d := l[k..], Changes(l[k..]);
    Dropped(r);
    assert Rest(l, k)[k..] == if d == |r| then [] else r[d + 1..];
    assert d < |r| ==> l[k + d + 1..] == r[d + 1..];
  }

  /** Changes carry out nothing, and then comes the first real action. */
  lemma {:induction false} Dropped(l: seq<Action>)
    ensures var d := Changes(l);
      if d == |l| then VisitList(l) == []
      else VisitList(l) == Visit(l[d].act) + VisitList(l[d + 1..]) && WeightList(l) >= Weight(l[d].act) + WeightList(l[d + 1..])
  {
    if l != [] && l[0].act.change {
      Dropped(l[1..]);
      var d := Changes(l[1..]);
      if d < |l[1..]| { assert l[1..][d] == l[d + 1] && l[1..][d + 1..] == l[d + 2..]; }
    }
  }

  lemma EmptyList(l: seq<Action>)
    ensures l == [] ==> VisitList(l) == [] && WeightList(l) == 0
  {}

  lemma {:induction false} Append(l: seq<Action>, m: seq<Action>)
    ensures VisitList(l + m) == VisitList(l) + VisitList(m) && WeightList(l + m) == WeightList(l) + WeightList(m)
  {
    if l == [] {
      assert l + m == m;
    } else {
      Append(l[1..], m);
      assert (l + m)[1..] == l[1..] + m;
    }
  }

  lemma AppendOne(l: seq<Action>, a: Action)
    ensures VisitList(l + [a]) == VisitList(l) + Visit(a.act) && WeightList(l + [a]) == WeightList(l) + Weight(a.act)
  {
    Append(l, [a]);
    assert VisitList([a]) == Visit(a.act) + VisitList([a][1..]) && WeightList([a]) == Weight(a.act) + WeightList([a][1..]);
  }

  lemma Joined(l: seq<Action>, m: seq<Action>, k: nat)
    requires k <= |l| <= |m| && m[..|l|] == l
    ensures VisitList(m[k..]) == VisitList(l[k..]) + VisitList(m[|l|..]) && WeightList(m[k..]) == WeightList(l[k..]) + WeightList(m[|l|..])
    ensures m[..k] == l[..k] && At(m, k - 1) == At(l, k - 1)
  {
    assert m[k..] == l[k..] + m[|l|..];
    Append(l[k..], m[|l|..]);
  }

  lemma AtPrefix(l: seq<Action>, k: nat)
    requires k <= |l|
    ensures At(l[..k], k - 1) == At(l, k - 1)
  {}

  lemma MoreIs(s: Acts)
    ensures s.More? ==> VisitAll(s) == Visit(s.act) + VisitAll(s.rest) && WeightAll(s) == Weight(s.act) + WeightAll(s.rest)
    ensures s.NoActs? ==> VisitAll(s) == [] && WeightAll(s) == 0
  {}

  lemma RoundIs(r: Rounds)
    ensures r.Round? ==> VisitRounds(r) == VisitAll(r.acts) + VisitRounds(r.next) && WeightRounds(r) == WeightAll(r.acts) + WeightRounds(r.next)
    ensures r.NoRounds? ==> VisitRounds(r) == [] && WeightRounds(r) == 0
  {}

  lemma VisitIs(a: Act)
    ensures Visit(a) == if a.change || a.deleted then [] else [a.id] + VisitAll(a.first) + VisitRounds(a.rounds)
    ensures Weight(a) == 1 + WeightAll(a.first) + WeightRounds(a.rounds)
  {}

  lemma AtIs(l: seq<Action>, k: nat)
    ensures At(l, k) == if k < |l| then l[k] else null
  {}

  lemma NextIs(l: seq<Action>, k: nat)
    requires Chain(l) && k < |l|
    ensures l[k].next == if k + 1 < |l| then l[k + 1] else null
  {}

  lemma ChainTail(l: seq<Action>, m: nat)
    requires Chain(l) && m <= |l|
    ensures Chain(l[..0] + l[m..])
  {
    var r := l[..0] + l[m..];
    assert forall i :: 0 <= i < |r| ==> r[i] == l[m + i];
  }

  /** Where the ends of a list are when the part from k to m is taken out. */
  lemma Ends(l: seq<Action>, k: nat, m: nat)
    requires k <= m <= |l|
    ensures var r := l[..k] + l[m..];
      && At(r, 0) == (if k > 0 then At(l, 0) else At(l, m)) && At(r, k - 1) == At(l, k - 1)
      && At(r, |r| - 1) == (if m < |l| then At(l, |l| - 1) else At(l, k - 1))
      && (At(l, m) == null <==> m == |l|) && (At(l, k - 1) == null <==> k == 0) && k <= |r|
  {}

  /** Links the action before k to the one at m. */
  method SetNext(ghost l: seq<Action>, owner: Action, after: Action?, ghost k: nat, ghost m: nat)
    requires Chain(l) && 0 < k <= m <= |l| && owner == At(l, k - 1) && after == At(l, m)
    modifies owner`next
    ensures Chain(l[..k] + l[m..])
  {
    owner.next := after;
    ghost var r := l[..k] + l[m..];
    assert forall i :: 0 <= i < |r| ==> r[i] == if i < k then l[i] else l[i + m - k];
  }

  lemma ChangesIs(l: seq<Action>, d: nat)
    requires d <= |l| && (d < |l| ==> !l[d].act.change) && forall i :: 0 <= i < d ==> l[i].act.change
    ensures Changes(l) == d
  {}
}
