/** The agenda as linked lists, one for each category, and the production nodes that fill it. */
module ConflictSets {
  import opened Agenda

  /** An entry of a conflict set. */
  class ConflictSet {
    const tag: Tag
    const match_: Match
    var prev: ConflictSet?
    var next: ConflictSet?

    constructor (tag: Tag, match_: Match)
      ensures this.tag == tag && this.match_ == match_ && prev == null && next == null
    {
      this.tag, this.match_ := tag, match_;
      prev, next := null, null;
    }

    ghost function View(): Item { Item(match_, tag) }
  }

  ghost function Views(l: seq<ConflictSet>): (q: seq<Item>)
    ensures |q| == |l| && forall i :: 0 <= i < |l| ==> q[i] == l[i].View()
  {
    seq(|l|, i requires 0 <= i < |l| => l[i].View())
  }

  function At(l: seq<ConflictSet>, i: int): ConflictSet? { if 0 <= i < |l| then l[i] else null }

  /** The entries of l are linked in both directions. */
  ghost predicate Linked(l: seq<ConflictSet>)
    reads l
  {
    && (forall i, j :: 0 <= i < j < |l| ==> l[i] != l[j])
    && (forall i :: 0 <= i < |l| ==> l[i].prev == At(l, i - 1) && l[i].next == At(l, i + 1))
  }

  /** No entry is in two lists. */
  ghost predicate Apart(ls: seq<seq<ConflictSet>>) {
    forall c, d, x :: 0 <= c < d < |ls| && x in ls[c] ==> x !in ls[d]
  }

  lemma ApartUpdate(ls: seq<seq<ConflictSet>>, cat: nat, l: seq<ConflictSet>)
    requires Apart(ls) && cat < |ls|
    requires forall x :: x in l ==> x in ls[cat] || forall c :: 0 <= c < |ls| ==> x !in ls[c]
    ensures Apart(ls[cat := l])
  {}

  /** Links e in front of a list. */
  method PushFront(ghost l: seq<ConflictSet>, e: ConflictSet, head: ConflictSet?)
    requires Linked(l) && head == At(l, 0) && e !in l
    modifies e, if head != null then {head} else {}
    ensures Linked([e] + l)
  {
    e.next := head;
    e.prev := null;
    if e.next != null { e.next.prev := e; }
    ghost var m := [e] + l;
    assert forall i :: 0 < i < |m| ==> m[i] == l[i - 1];
    assert forall i :: 0 <= i < |m| ==> At(m, i + 1) == At(l, i);
  }

  /** Links the neighbours of entry k past it. */
  method Unlink(ghost l: seq<ConflictSet>, ghost k: nat, e: ConflictSet)
    requires Linked(l) && k < |l| && l[k] == e
    modifies if e.prev != null then {e.prev} else {}, if e.next != null then {e.next} else {}
    ensures Linked(l[..k] + l[k + 1..])
  {
    var p, n := e.prev, e.next;
    assert p == At(l, k - 1) && n == At(l, k + 1);
    if p != null { p.next := n; }
    if n != null { n.prev := p; }
    ghost var m := l[..k] + l[k + 1..];
    forall i | 0 <= i < |m| ensures m[i].prev == At(m, i - 1) && m[i].next == At(m, i + 1) {
      if i < k {
        assert m[i] == l[i] && At(m, i - 1) == At(l, i - 1);
        assert i < k - 1 ==> At(m, i + 1) == At(l, i + 1);
        assert i == k - 1 ==> At(m, i + 1) == n;
      } else {
        assert m[i] == l[i + 1] && At(m, i + 1) == At(l, i + 2);
        assert i > k ==> At(m, i - 1) == At(l, i);
        assert i == k ==> At(m, i - 1) == p;
      }
    }
  }

  class Queues {
    const heads: array<ConflictSet?>
    ghost var lists: seq<seq<ConflictSet>>

    constructor ()
      ensures Valid() && fresh(heads) && lists == [[], [], []]
    {
      heads := new ConflictSet?[CATEGORIES](_ => null);
      lists := [[], [], []];
    }

    ghost predicate Valid()
      reads this, heads, Entries()
    {
      && heads.Length == |lists| == CATEGORIES
      && (forall c :: 0 <= c < CATEGORIES ==> Linked(lists[c]) && heads[c] == At(lists[c], 0))
      && Apart(lists)
    }

    ghost function Entries(): set<ConflictSet>
      reads this
    {
      set c, i | 0 <= c < |lists| && 0 <= i < |lists[c]| :: lists[c][i]
    }

    /** What Valid says about one category and the others. */
    lemma Unpack(cat: nat)
      requires Valid() && cat < CATEGORIES
      ensures |lists| == heads.Length == CATEGORIES && Apart(lists)
      ensures forall c :: 0 <= c < CATEGORIES ==> Linked(lists[c]) && heads[c] == At(lists[c], 0)
      ensures forall c :: 0 <= c < CATEGORIES && c != cat ==> forall x :: x in lists[cat] ==> x !in lists[c]
      ensures forall c :: 0 <= c < CATEGORIES ==> forall x :: x in lists[c] ==> x in Entries() && allocated(x)
    {}

    /** Valid again, when one category has changed. */
    lemma Pack()
      requires |lists| == heads.Length == CATEGORIES && Apart(lists)
      requires forall c :: 0 <= c < CATEGORIES ==> Linked(lists[c]) && heads[c] == At(lists[c], 0)
      ensures Valid()
    {}

    /** Puts an entry at the head of its category. */
    method Insert(cat: nat, e: ConflictSet)
      requires Valid() && cat < CATEGORIES && e !in Entries()
      modifies this, heads, Entries(), e
      ensures Valid() && lists == old(lists)[cat := [e] + old(lists)[cat]]
    {
      hide *;
      Unpack(cat);
      ghost var was, l := lists, lists[cat];
      AtHead(l);
      assert heads[cat] != null ==> heads[cat] in l;
      assert forall c :: 0 <= c < CATEGORIES ==> e !in was[c];
      PushFront(l, e, heads[cat]);
      assert forall c :: 0 <= c < CATEGORIES && c != cat ==> Linked(was[c]);
      heads[cat] := e;
      lists := lists[cat := [e] + l];
      assert forall c :: 0 <= c < CATEGORIES && c != cat ==> Linked(was[c]);
      ApartUpdate(was, cat, [e] + l);
      AtHead([e] + l);
      Pack();
    }

    lemma AtHead(l: seq<ConflictSet>)
      ensures At(l, 0) == if l == [] then null else l[0]
    {}

    /** Takes an entry out of its category. */
    method Remove(cat: nat, e: ConflictSet, ghost k: nat)
      requires Valid() && cat < CATEGORIES && k < |lists[cat]| && lists[cat][k] == e
      modifies this, heads, Entries()
      ensures Valid() && lists == old(lists)[cat := old(lists)[cat][..k] + old(lists)[cat][k + 1..]]
    {
      hide *;
      Unpack(cat);
      ghost var was, l, m := lists, lists[cat], lists[cat][..k] + lists[cat][k + 1..];
      var p, n := e.prev, e.next;
      Neighbours(l, k);
      Unlink(l, k, e);
      assert forall c :: 0 <= c < CATEGORIES && c != cat ==> Linked(was[c]);
      if p == null { heads[cat] := n; }
      lists := lists[cat := m];
      assert forall c :: 0 <= c < CATEGORIES && c != cat ==> Linked(was[c]);
      ApartUpdate(was, cat, m);
      HeadAfter(l, k);
      Pack();
    }

    lemma Neighbours(l: seq<ConflictSet>, k: nat)
      requires Linked(l) && k < |l|
      ensures l[k].prev == (if k == 0 then null else l[k - 1]) && l[k].next == (if k + 1 < |l| then l[k + 1] else null)
      ensures l[k].prev != null ==> l[k].prev in l
      ensures l[k].next != null ==> l[k].next in l
    {}

    lemma HeadAfter(l: seq<ConflictSet>, k: nat)
      requires k < |l|
      ensures var m := l[..k] + l[k + 1..];
        At(m, 0) == if k > 0 then At(l, 0) else if k + 1 < |l| then l[k + 1] else null
    {}

    /** The newest entry of the first category that has one. */
    method BestCset() returns (cat: nat, e: ConflictSet?)
      requires Valid()
      ensures cat <= CATEGORIES && forall c :: 0 <= c < cat ==> lists[c] == []
      ensures if cat < CATEGORIES then lists[cat] != [] && e == lists[cat][0] else e == null
    {
      cat, e := 0, null;
      while cat < CATEGORIES && heads[cat] == null
        invariant 0 <= cat <= CATEGORIES && forall c :: 0 <= c < cat ==> lists[c] == []
      {
        cat := cat + 1;
      }
      if cat < CATEGORIES { e := heads[cat]; }
    }
  }

  /** Each list, as the abstract agenda sees it. */
  ghost function AllViews(ls: seq<seq<ConflictSet>>): (qs: seq<seq<Item>>)
    ensures |qs| == |ls| && forall c :: 0 <= c < |ls| ==> qs[c] == Views(ls[c])
  {
    seq(|ls|, c requires 0 <= c < |ls| => Views(ls[c]))
  }

  lemma ViewsPushed(ls: seq<seq<ConflictSet>>, cat: nat, e: ConflictSet)
    requires cat < |ls|
    ensures AllViews(ls[cat := [e] + ls[cat]]) == AllViews(ls)[cat := [Item(e.match_, e.tag)] + Views(ls[cat])]
  {
    assert Views([e] + ls[cat]) == [e.View()] + Views(ls[cat]);
  }

  lemma ViewsRemoved(ls: seq<seq<ConflictSet>>, cat: nat, k: nat, m: Match)
    requires cat < |ls| && k < |ls[cat]| && ls[cat][k].match_ == m && Once(Views(ls[cat]))
    ensures AllViews(ls[cat := ls[cat][..k] + ls[cat][k + 1..]]) == AllViews(ls)[cat := Without(Views(ls[cat]), m)]
  {
    var l := ls[cat];
    assert Views(l[..k] + l[k + 1..]) == Views(l)[..k] + Views(l)[k + 1..];
    WithoutAt(Views(l), k, m);
  }

  lemma {:induction false} WithoutAt(q: seq<Item>, k: nat, m: Match)
    requires Once(q) && k < |q| && q[k].match_ == m
    ensures Without(q, m) == q[..k] + q[k + 1..]
  {
    if k > 0 {
      assert q[0].match_ != m;
      var rest := q[1..];
      assert forall i :: 0 <= i < |rest| ==> rest[i] == q[i + 1];
      WithoutAt(rest, k - 1, m);
      assert q[..k] == [q[0]] + rest[..k - 1];
      assert rest[k..] == q[k + 1..];
    }
  }

  /** The index has exactly the entries of the lists. */
  ghost predicate Indexed(category: int -> nat, index: map<Match, ConflictSet>, ls: seq<seq<ConflictSet>>) {
    && (forall m :: m in index ==> category(m.rule) < |ls| && index[m].match_ == m && index[m] in ls[category(m.rule)])
    && (forall c, e :: 0 <= c < |ls| && e in ls[c] ==> e.match_ in index && index[e.match_] == e)
  }

  lemma IndexedPushed(category: int -> nat, index: map<Match, ConflictSet>, ls: seq<seq<ConflictSet>>, e: ConflictSet)
    requires Indexed(category, index, ls) && category(e.match_.rule) < |ls| && e.match_ !in index
    ensures var cat := category(e.match_.rule); Indexed(category, index[e.match_ := e], ls[cat := [e] + ls[cat]])
  {}

  lemma IndexedRemoved(category: int -> nat, index: map<Match, ConflictSet>, ls: seq<seq<ConflictSet>>, m: Match, k: nat)
    requires Indexed(category, index, ls) && m in index && k < |ls[category(m.rule)]| && ls[category(m.rule)][k] == index[m]
    requires forall i, j :: 0 <= i < j < |ls[category(m.rule)]| ==> ls[category(m.rule)][i] != ls[category(m.rule)][j]
    requires Apart(ls)
    ensures var cat := category(m.rule); Indexed(category, index - {m}, ls[cat := ls[cat][..k] + ls[cat][k + 1..]])
  {
    var cat, l := category(m.rule), ls[category(m.rule)];
    var r := l[..k] + l[k + 1..];
    forall x ensures x in r <==> x in l && x != l[k] {
      if x in l && x != l[k] {
        var i :| 0 <= i < |l| && l[i] == x;
        assert if i < k then r[i] == x else r[i - 1] == x;
      }
    }
    forall n | n in index - {m} ensures index[n] in ls[cat := r][category(n.rule)] {
      assert index[n] != index[m];
    }
    assert forall e :: e in r ==> e in l && e != index[m];
    assert forall c, e :: 0 <= c < |ls| && c != cat && e in ls[c] ==> e !in ls[cat];
  }

  /** The index tells which matches wait, and with what tag. */
  lemma IndexTells(category: int -> nat, index: map<Match, ConflictSet>, ls: seq<seq<ConflictSet>>, m: Match)
    requires Indexed(category, index, ls) && category(m.rule) < |ls| && Once(Views(ls[category(m.rule)]))
    ensures m in index <==> In(Views(ls[category(m.rule)]), m)
    ensures m in index ==> TagOf(Views(ls[category(m.rule)]), m) == index[m].tag
  {
    var l, q := ls[category(m.rule)], Views(ls[category(m.rule)]);
    if m in index {
      var i :| 0 <= i < |l| && l[i] == index[m];
      assert q[i] == Item(m, index[m].tag);
      TagOfIs(q, m, index[m].tag);
    }
    if In(q, m) {
      var i :| 0 <= i < |q| && q[i].match_ == m;
      assert l[i] in l;
    }
  }

  lemma {:induction false} NotWithout(q: seq<Item>, m: Match)
    requires !In(q, m)
    ensures Without(q, m) == q
  {
    if q != [] {
      assert q[0].match_ != m && forall i :: 0 <= i < |q[1..]| ==> q[1..][i] == q[i + 1];
      NotWithout(q[1..], m);
    }
  }

  lemma BestIs(qs: seq<seq<Item>>, cat: nat)
    requires cat <= |qs| && (cat < |qs| ==> qs[cat] != []) && forall c :: 0 <= c < cat ==> qs[c] == []
    ensures Best(qs) == cat
  {}

  /** Running the head of the first list that has one, as the abstract agenda sees it. */
  lemma RunOf(memory: set<Match>, ls: seq<seq<ConflictSet>>, log: seq<Item>, cat: nat)
    requires cat <= |ls| && (cat < |ls| ==> ls[cat] != []) && forall c :: 0 <= c < cat ==> ls[c] == []
    ensures var s := Agenda.State.State(memory, AllViews(ls), log);
      if cat == |ls| then Agenda.RunCs(s) == s
      else var e := ls[cat][0];
        && Agenda.RunCs(s) == Agenda.State.State(memory, AllViews(ls[cat := ls[cat][1..]]), log + [Item(e.match_, e.tag)])
        && Agenda.RunCs(s) != s
  {
    BestIs(AllViews(ls), cat);
    if cat < |ls| {
      assert Views(ls[cat][1..]) == Views(ls[cat])[1..];
      assert AllViews(ls[cat := ls[cat][1..]]) == AllViews(ls)[cat := Views(ls[cat])[1..]];
    }
  }

  class Scheduler {
    const category: int -> nat
    const queues: Queues
    var memory: set<Match>               // the memories of the production nodes
    var index: map<Match, ConflictSet>   // the entries by rule and tuple
    var log: seq<Item>                   // the executions

    constructor (category: int -> nat)
      ensures Valid() && State() == Empty && this.category == category && fresh(queues) && fresh(queues.heads)
    {
      this.category := category;
      queues := new Queues();
      memory, index, log := {}, map[], [];
      new;
      AlwaysOrderly(category, []);
      assert AllViews(queues.lists) == [[], [], []];
    }

    ghost function State(): State
      reads this, queues
    {
      Agenda.State.State(memory, AllViews(queues.lists), log)
    }

    ghost predicate Valid()
      reads this, queues, queues.heads, queues.Entries()
    {
      queues.Valid() && Indexed(category, index, queues.lists) && Orderly(State(), category)
    }

    /** A tagged tuple reaches the production node of its rule. */
    method ProdCall(tag: Tag, m: Match)
      requires Valid() && category(m.rule) < CATEGORIES
      modifies this, queues, queues.heads, queues.Entries()
      ensures Valid() && State() == Agenda.ProdCall(old(State()), category(m.rule), tag, m)
    {
      if tag == RETRACT {
        Retract(m);
      } else {
        Enter(tag, m);
      }
    }

    lemma NotEntry()
      ensures forall e: object {:trigger e in queues.Entries()} :: e in queues.Entries() ==> allocated(e) && e != this
    {}

    lemma Known(m: Match)
      requires Valid() && category(m.rule) < CATEGORIES
      ensures queues.Valid() && Indexed(category, index, queues.lists) && Orderly(State(), category) && |queues.lists| == CATEGORIES
      ensures Once(Views(queues.lists[category(m.rule)]))
      ensures State() == Agenda.State.State(memory, AllViews(queues.lists), log)
      ensures AllViews(queues.lists)[category(m.rule)] == Views(queues.lists[category(m.rule)]) && |AllViews(queues.lists)| == CATEGORIES
    {
      NotEntry();
      assert AllViews(queues.lists)[category(m.rule)] == Views(queues.lists[category(m.rule)]);
    }

    lemma Settled(s: State, tag: Tag, m: Match)
      requires queues.Valid() && Indexed(category, index, queues.lists) && Orderly(s, category) && category(m.rule) < CATEGORIES
      requires Agenda.State.State(memory, AllViews(queues.lists), log) == Agenda.ProdCall(s, category(m.rule), tag, m)
      ensures Valid() && State() == Agenda.ProdCall(s, category(m.rule), tag, m)
    {
      ReachesKeepsOrderly(s, category, tag, m);
    }

    /** An insertion or a modification queues the rule, unless it waits already. */
    method Enter(tag: Tag, m: Match)
      requires Valid() && category(m.rule) < CATEGORIES && tag != RETRACT
      modifies this, queues, queues.heads, queues.Entries()
      ensures Valid() && State() == Agenda.ProdCall(old(State()), category(m.rule), tag, m)
    {
      hide *;
      Known(m);
      NotEntry();
      var cat := category(m.rule);
      ghost var s, ls, was := State(), queues.lists, queues.Entries();
      IndexTells(category, index, ls, m);
      EnterIs(s, cat, tag, m);
      if (m in memory) == (tag == INSERT) {
        Settled(s, tag, m);
        return;
      }
      memory := memory + {m};
      if m !in index {
        var e := new ConflictSet(tag, m);
        IndexedPushed(category, index, ls, e);
        ViewsPushed(ls, cat, e);
        index := index[m := e];
        queues.Insert(cat, e);
      }
      Settled(s, tag, m);
    }

    lemma EnterIs(s: State, cat: nat, tag: Tag, m: Match)
      requires cat < |s.queues| && tag != RETRACT
      ensures Agenda.ProdCall(s, cat, tag, m) ==
        if (m in s.memory) == (tag == INSERT) then s
        else if In(s.queues[cat], m) then s.(memory := s.memory + {m})
        else s.(memory := s.memory + {m}, queues := s.queues[cat := [Item(m, tag)] + s.queues[cat]])
    {
      assert m in s.memory ==> s.memory + {m} == s.memory;
    }

    /** A retraction takes a waiting rule from the agenda, and runs the rule at once unless its insertion had not run. */
    method Retract(m: Match)
      requires Valid() && category(m.rule) < CATEGORIES
      modifies this, queues, queues.heads, queues.Entries()
      ensures Valid() && State() == Agenda.ProdCall(old(State()), category(m.rule), RETRACT, m)
    {
      hide *;
      Known(m);
      NotEntry();
      var cat := category(m.rule);
      ghost var s, ls := State(), queues.lists;
      IndexTells(category, index, ls, m);
      RetractIs(s, cat, m);
      if m !in index { WithoutNone(s.queues, cat, m); }
      if m !in memory {
        Settled(s, RETRACT, m);
        return;
      }
      memory := memory - {m};
      var exec := true;
      if m in index {
        var old_ := index[m];
        exec := old_.tag != INSERT;
        Take(cat, old_, m);
      }
      NotEntry();
      if exec { log := log + [Item(m, RETRACT)]; }
      Settled(s, RETRACT, m);
    }

    lemma WithoutNone(qs: seq<seq<Item>>, cat: nat, m: Match)
      requires cat < |qs| && !In(qs[cat], m)
      ensures qs[cat := Without(qs[cat], m)] == qs
    {
      NotWithout(qs[cat], m);
    }

    lemma RetractIs(s: State, cat: nat, m: Match)
      requires cat < |s.queues|
      ensures Agenda.ProdCall(s, cat, RETRACT, m) ==
        if m !in s.memory then s
        else s.(memory := s.memory - {m}, queues := s.queues[cat := Without(s.queues[cat], m)],
          log := if In(s.queues[cat], m) && TagOf(s.queues[cat], m) == INSERT then s.log else s.log + [Item(m, RETRACT)])
    {}

    /** Takes the entry of m from the index and from its queue. */
    method Take(cat: nat, e: ConflictSet, m: Match)
      requires queues.Valid() && Indexed(category, index, queues.lists) && |queues.lists| == CATEGORIES
      requires cat == category(m.rule) < CATEGORIES && Once(Views(queues.lists[cat])) && m in index && index[m] == e
      modifies this`index, queues, queues.heads, queues.Entries()
      ensures queues.Valid() && Indexed(category, index, queues.lists) && |queues.lists| == CATEGORIES
      ensures AllViews(queues.lists) == old(AllViews(queues.lists))[cat := Without(old(Views(queues.lists[cat])), m)]
    {
      hide *;
      ghost var ls := queues.lists;
      ghost var k := Place(cat, e, m);
      IndexedRemoved(category, index, ls, m, k);
      ViewsRemoved(ls, cat, k, m);
      index := index - {m};
      queues.Remove(cat, e, k);
    }

    lemma Place(cat: nat, e: ConflictSet, m: Match) returns (k: nat)
      requires queues.Valid() && Indexed(category, index, queues.lists) && cat == category(m.rule) < CATEGORIES
      requires m in index && index[m] == e
      ensures |queues.lists| == CATEGORIES && k < |queues.lists[cat]| && queues.lists[cat][k] == e && e.match_ == m
      ensures Apart(queues.lists) && forall i, j :: 0 <= i < j < |queues.lists[cat]| ==> queues.lists[cat][i] != queues.lists[cat][j]
    {
      k :| 0 <= k < |queues.lists[cat]| && queues.lists[cat][k] == e;
      assert Linked(queues.lists[cat]);
    }

    /** What running the entry e of category cat comes to. */
    lemma KnownRun(cat: nat, e: ConflictSet?)
      requires Valid() && cat <= CATEGORIES && forall c :: 0 <= c < cat ==> queues.lists[c] == []
      requires if cat < CATEGORIES then queues.lists[cat] != [] && e == queues.lists[cat][0] else e == null
      ensures cat == CATEGORIES ==> Agenda.RunCs(State()) == State()
      ensures cat < CATEGORIES ==> var l, m := queues.lists[cat], e.match_;
        && m in index && |queues.lists| == CATEGORIES && queues.lists[cat][..0] + queues.lists[cat][1..] == l[1..]
        && Indexed(category, index - {m}, queues.lists[cat := l[1..]])
        && Agenda.RunCs(State()) == Agenda.State.State(memory, AllViews(queues.lists[cat := l[1..]]), log + [Item(m, e.tag)])
        && Agenda.RunCs(State()) != State()
    {
      hide *;
      ValidParts();
      RunOf(memory, queues.lists, log, cat);
      if cat < CATEGORIES { FirstKnown(cat, e); }
    }

    lemma FirstKnown(cat: nat, e: ConflictSet)
      requires Valid() && cat < CATEGORIES && queues.lists[cat] != [] && e == queues.lists[cat][0]
      ensures var l, m := queues.lists[cat], e.match_;
        m in index && l[..0] + l[1..] == l[1..] && Indexed(category, index - {m}, queues.lists[cat := l[1..]])
    {
      var l := queues.lists[cat];
      assert l[..0] + l[1..] == l[1..] && e in l && l[0] == e;
      assert State().queues[cat][0].match_ == e.match_ && category(e.match_.rule) == cat;
      assert Linked(l);
      IndexedRemoved(category, index, queues.lists, e.match_, 0);
    }

    lemma SettledRun(s: State)
      requires queues.Valid() && Indexed(category, index, queues.lists) && Orderly(s, category)
      requires Agenda.State.State(memory, AllViews(queues.lists), log) == Agenda.RunCs(s)
      ensures Valid() && State() == Agenda.RunCs(s)
    {
      RunsKeepsOrderly(s, category);
    }

    lemma ValidParts()
      requires Valid()
      ensures queues.Valid() && Orderly(State(), category) && |queues.lists| == CATEGORIES
      ensures State() == Agenda.State.State(memory, AllViews(queues.lists), log)
    {}

    /** Runs the newest entry of the first category that has one. */
    method RunCs() returns (ran: bool)
      requires Valid()
      modifies this, queues, queues.heads, queues.Entries()
      ensures Valid() && State() == Agenda.RunCs(old(State()))
      ensures ran == (old(State()) != State())
    {
      hide *;
      ValidParts();
      NotEntry();
      ghost var s := State();
      var cat, e := queues.BestCset();
      KnownRun(cat, e);
      if e == null { return false; }
      index := index - {e.match_};
      log := log + [Item(e.match_, e.tag)];
      queues.Remove(cat, e, 0);
      SettledRun(s);
      ran := true;
    }
  }
}
