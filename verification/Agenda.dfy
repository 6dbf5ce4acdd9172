/** The agenda of rules ready to run: what it does to every match, over every run. */
module Agenda {
  /** The rule that a tuple has reached, and the tuple. */
  datatype Match = Match(rule: int, tuple: int)

  datatype Tag = INSERT | MODIFY | RETRACT

  /** A rule to be run for a match, with the tag to run it with. */
  datatype Item = Item(match_: Match, tag: Tag)

  /** The memories of the production nodes, the queues of the three categories with the newest item
      first, and the executions so far. */
  datatype State = State(memory: set<Match>, queues: seq<seq<Item>>, log: seq<Item>)

  const CATEGORIES := 3

  function Without(q: seq<Item>, m: Match): seq<Item> {
    if q == [] then [] else if q[0].match_ == m then q[1..] else [q[0]] + Without(q[1..], m)
  }

  predicate In(q: seq<Item>, m: Match) { exists i :: 0 <= i < |q| && q[i].match_ == m }

  function TagOf(q: seq<Item>, m: Match): Tag
    requires In(q, m)
  {
    if q[0].match_ == m then q[0].tag else TagOf(q[1..], m)
  }

  /** What a tagged tuple does at the production node of its rule, of category cat. */
  function ProdCall(s: State, cat: nat, tag: Tag, m: Match): State
    requires cat < |s.queues|
  {
    var q := s.queues[cat];
    match tag
    case INSERT =>
      if m in s.memory then s
      else if In(q, m) then s.(memory := s.memory + {m})
      else s.(memory := s.memory + {m}, queues := s.queues[cat := [Item(m, INSERT)] + q])
    case MODIFY =>
      if m !in s.memory || In(q, m) then s else s.(queues := s.queues[cat := [Item(m, MODIFY)] + q])
    case RETRACT =>
      if m !in s.memory then s
      else
        var r := s.(memory := s.memory - {m}, queues := s.queues[cat := Without(q, m)]);
        if In(q, m) && TagOf(q, m) == INSERT then r else r.(log := s.log + [Item(m, RETRACT)])
  }

  /** The first category with anything in its queue. */
  function Best(queues: seq<seq<Item>>): (cat: nat)
    ensures cat <= |queues| && (cat < |queues| ==> queues[cat] != [])
    ensures forall c :: 0 <= c < cat ==> queues[c] == []
  {
    if queues == [] || queues[0] != [] then 0 else 1 + Best(queues[1..])
  }

  /** Runs the newest item of the first category that has one. */
  function RunCs(s: State): State {
    var cat := Best(s.queues);
    if cat == |s.queues| then s
    else s.(queues := s.queues[cat := s.queues[cat][1..]], log := s.log + [s.queues[cat][0]])
  }

  // ---------- what holds in every run ----------

  /** Whether m is between an INSERT and its RETRACT in the executions; nothing if they break the order
      INSERT, then any number of MODIFY, then RETRACT, over and over. */
  datatype Phase = Wrong | Idle | Active

  function PhaseOf(log: seq<Item>, m: Match): Phase {
    if log == [] then Idle
    else
      var before, last := PhaseOf(log[..|log| - 1], m), log[|log| - 1];
      if last.match_ != m then before
      else match last.tag
        case INSERT => if before == Idle then Active else Wrong
        case MODIFY => if before == Active then Active else Wrong
        case RETRACT => if before == Active then Idle else Wrong
  }

  lemma PhaseNext(log: seq<Item>, x: Item, m: Match)
    ensures PhaseOf(log + [x], m) ==
      if x.match_ != m then PhaseOf(log, m)
      else match x.tag
        case INSERT => if PhaseOf(log, m) == Idle then Active else Wrong
        case MODIFY => if PhaseOf(log, m) == Active then Active else Wrong
        case RETRACT => if PhaseOf(log, m) == Active then Idle else Wrong
  {
    assert (log + [x])[..|log|] == log;
  }

  predicate Once(q: seq<Item>) { forall i, j :: 0 <= i < j < |q| ==> q[i].match_ != q[j].match_ }

  /** A match that is stored and whose INSERT is not waiting has been inserted; no other match has. */
  ghost predicate InStep(s: State, cat: nat, m: Match)
    requires cat < |s.queues|
  {
    (In(s.queues[cat], m) ==> m in s.memory)
    && PhaseOf(s.log, m) == if m in s.memory && Item(m, INSERT) !in s.queues[cat] then Active else Idle
  }

  /** The agenda is in order: a match waits at most once, in its own category and never to be retracted,
      and the executions of every match so far are a prefix of INSERT MODIFY* RETRACT, repeated. */
  ghost predicate Orderly(s: State, category: int -> nat) {
    |s.queues| == CATEGORIES
    && (forall c :: 0 <= c < CATEGORIES ==> Once(s.queues[c]))
    && (forall c, i :: 0 <= c < CATEGORIES && 0 <= i < |s.queues[c]| ==> category(s.queues[c][i].match_.rule) == c && s.queues[c][i].tag != RETRACT)
    && (forall m: Match :: category(m.rule) < CATEGORIES ==> InStep(s, category(m.rule), m))
  }

  /** One thing that happens: a tagged tuple reaches a production node, or the agenda is run. */
  datatype Happening = Reaches(tag: Tag, m: Match) | Runs

  function After(s: State, category: int -> nat, h: Happening): State
    requires |s.queues| == CATEGORIES && (h.Reaches? ==> category(h.m.rule) < CATEGORIES)
  {
    match h case Reaches(tag, m) => ProdCall(s, category(m.rule), tag, m) case Runs => RunCs(s)
  }

  lemma {:induction false} WithoutIs(q: seq<Item>, m: Match)
    requires Once(q)
    ensures Once(Without(q, m)) && !In(Without(q, m), m)
    ensures forall x :: x in Without(q, m) <==> x in q && x.match_ != m
  {
    if q != [] && q[0].match_ != m {
      var rest := q[1..];
      assert forall i, j :: 0 <= i < j < |rest| ==> rest[i] == q[i + 1] && rest[j] == q[j + 1];
      WithoutIs(rest, m);
      var w := [q[0]] + Without(rest, m);
      forall i, j | 0 <= i < j < |w| ensures w[i].match_ != w[j].match_ {
        assert w[j] in Without(rest, m);
        if i == 0 { assert w[j] in rest; }
      }
      assert q == [q[0]] + rest;
    } else if q != [] {
      assert forall i :: 0 <= i < |q[1..]| ==> q[1..][i] == q[i + 1];
      assert q == [q[0]] + q[1..];
    }
  }

  /** The items of a queue tell which matches wait, and with what tag. */
  lemma {:induction false} TagOfIs(q: seq<Item>, m: Match, t: Tag)
    requires Once(q)
    ensures Item(m, t) in q ==> In(q, m) && TagOf(q, m) == t
    ensures In(q, m) ==> Item(m, TagOf(q, m)) in q
  {
    if q != [] {
      assert q == [q[0]] + q[1..];
      var rest := q[1..];
      assert forall i :: 0 <= i < |rest| ==> rest[i] == q[i + 1];
      TagOfIs(rest, m, t);
      if Item(m, t) in q {
        var i :| 0 <= i < |q| && q[i] == Item(m, t);
        assert i > 0 ==> rest[i - 1] == Item(m, t);
        assert q[i].match_ == m;
      }
      if In(q, m) && q[0].match_ != m {
        var i :| 0 <= i < |q| && q[i].match_ == m;
        assert rest[i - 1].match_ == m;
      }
    }
  }

  ghost predicate Sorted(q: seq<Item>, category: int -> nat, c: nat) {
    Once(q) && forall i :: 0 <= i < |q| ==> category(q[i].match_.rule) == c && q[i].tag != RETRACT
  }

  lemma PushSorted(q: seq<Item>, category: int -> nat, c: nat, x: Item)
    requires Sorted(q, category, c) && !In(q, x.match_) && category(x.match_.rule) == c && x.tag != RETRACT
    ensures Sorted([x] + q, category, c)
    ensures forall m :: In([x] + q, m) <==> m == x.match_ || In(q, m)
    ensures forall y :: y in [x] + q <==> y == x || y in q
  {
    var p := [x] + q;
    assert forall i :: 0 < i < |p| ==> p[i] == q[i - 1];
    assert forall i :: 0 <= i < |q| ==> p[i + 1] == q[i];
    assert p[0].match_ == x.match_;
    forall m | In(q, m) ensures In(p, m) {
      var i :| 0 <= i < |q| && q[i].match_ == m;
      assert p[i + 1].match_ == m;
    }
  }

  lemma WithoutSorted(q: seq<Item>, category: int -> nat, c: nat, m: Match)
    requires Sorted(q, category, c)
    ensures Sorted(Without(q, m), category, c)
    ensures forall n :: In(Without(q, m), n) <==> n != m && In(q, n)
    ensures forall x :: x in Without(q, m) <==> x in q && x.match_ != m
  {
    WithoutIs(q, m);
    var w := Without(q, m);
    forall i | 0 <= i < |w| ensures category(w[i].match_.rule) == c && w[i].tag != RETRACT {
      assert w[i] in q;
    }
    forall n ensures In(w, n) <==> n != m && In(q, n) {
      if In(w, n) {
        var i :| 0 <= i < |w| && w[i].match_ == n;
        assert w[i] in q;
      }
      if n != m && In(q, n) {
        var i :| 0 <= i < |q| && q[i].match_ == n;
        assert q[i] in w;
      }
    }
  }

  lemma FirstWithout(q: seq<Item>)
    requires q != []
    ensures q[1..] == Without(q, q[0].match_)
  {}

  /** One queue and the log have changed for the match m alone. */
  lemma KeepsOrderly(s: State, t: State, category: int -> nat, cat: nat, m: Match, q: seq<Item>)
    requires Orderly(s, category) && cat < CATEGORIES && category(m.rule) == cat
    requires t.queues == s.queues[cat := q] && Sorted(q, category, cat) && t.memory - {m} == s.memory - {m}
    requires forall n :: n != m ==> (In(q, n) <==> In(s.queues[cat], n)) && (Item(n, INSERT) in q <==> Item(n, INSERT) in s.queues[cat])
    requires forall n :: n != m ==> PhaseOf(t.log, n) == PhaseOf(s.log, n)
    requires InStep(t, cat, m)
    ensures Orderly(t, category)
  {
    forall n: Match | category(n.rule) < CATEGORIES ensures InStep(t, category(n.rule), n) {
      assert InStep(s, category(n.rule), n);
      if n != m { assert n in t.memory - {m} <==> n in s.memory - {m}; }
    }
  }

  lemma OrderlySorted(s: State, category: int -> nat, cat: nat)
    requires Orderly(s, category) && cat < CATEGORIES
    ensures Sorted(s.queues[cat], category, cat)
  {}

  lemma ReachesKeepsOrderly(s: State, category: int -> nat, tag: Tag, m: Match)
    requires Orderly(s, category) && category(m.rule) < CATEGORIES
    ensures Orderly(ProdCall(s, category(m.rule), tag, m), category)
  {
    var cat := category(m.rule);
    var q, t := s.queues[cat], ProdCall(s, cat, tag, m);
    assert InStep(s, cat, m) && s.queues[cat := q] == s.queues;
    OrderlySorted(s, category, cat);
    assert Item(m, INSERT) in q ==> In(q, m);
    if In(q, m) {
      TagOfIs(q, m, INSERT);
    }
    if t == s {
    } else if tag == RETRACT {
      WithoutSorted(q, category, cat, m);
      forall n { PhaseNext(s.log, Item(m, RETRACT), n); }
      KeepsOrderly(s, t, category, cat, m, Without(q, m));
    } else {
      PushSorted(q, category, cat, Item(m, tag));
      KeepsOrderly(s, t, category, cat, m, [Item(m, tag)] + q);
    }
  }

  lemma RunsKeepsOrderly(s: State, category: int -> nat)
    requires Orderly(s, category)
    ensures Orderly(RunCs(s), category)
  {
    var cat := Best(s.queues);
    if cat < CATEGORIES {
      var q := s.queues[cat];
      var x := q[0];
      assert category(x.match_.rule) == cat && InStep(s, cat, x.match_) && x in q && In(q, x.match_);
      OrderlySorted(s, category, cat);
      TagOfIs(q, x.match_, INSERT);
      FirstWithout(q);
      WithoutSorted(q, category, cat, x.match_);
      forall n { PhaseNext(s.log, x, n); }
      KeepsOrderly(s, RunCs(s), category, cat, x.match_, q[1..]);
    }
  }

  function Happened(s: State, category: int -> nat, run: seq<Happening>): (t: State)
    requires |s.queues| == CATEGORIES && forall i :: 0 <= i < |run| ==> run[i].Reaches? ==> category(run[i].m.rule) < CATEGORIES
    ensures |t.queues| == CATEGORIES
    decreases |run|
  {
    if run == [] then s else After(Happened(s, category, run[..|run| - 1]), category, run[|run| - 1])
  }

  const Empty := State({}, [[], [], []], [])

  /** In every run from an empty agenda. */
  lemma {:induction false} AlwaysOrderly(category: int -> nat, run: seq<Happening>)
    requires forall i :: 0 <= i < |run| ==> run[i].Reaches? ==> category(run[i].m.rule) < CATEGORIES
    ensures Orderly(Happened(Empty, category, run), category)
    decreases |run|
  {
    if run != [] {
      var before, h := run[..|run| - 1], run[|run| - 1];
      AlwaysOrderly(category, before);
      match h
      case Reaches(tag, m) => ReachesKeepsOrderly(Happened(Empty, category, before), category, tag, m);
      case Runs => RunsKeepsOrderly(Happened(Empty, category, before), category);
    }
  }

  /** A match retracted before its INSERT has run leaves the agenda without a trace in the executions. */
  lemma RetractedBeforeItsInsert(s: State, category: int -> nat, m: Match)
    requires Orderly(s, category) && category(m.rule) < CATEGORIES && Item(m, INSERT) in s.queues[category(m.rule)]
    ensures var t := ProdCall(s, category(m.rule), RETRACT, m);
      && t.log == s.log && m !in t.memory && forall c :: 0 <= c < CATEGORIES ==> !In(t.queues[c], m)
  {
    var cat := category(m.rule);
    OrderlySorted(s, category, cat);
    WithoutIs(s.queues[cat], m);
    TagOfIs(s.queues[cat], m, INSERT);
    assert InStep(s, cat, m);
    var t := ProdCall(s, cat, RETRACT, m);
  }

  // ---------- what the executions look like ----------

  /** The last execution of m before place j of the log, or -1. */
  function LastBefore(log: seq<Item>, j: nat, m: Match): (k: int)
    requires j <= |log|
    ensures -1 <= k < j && (k >= 0 ==> log[k].match_ == m)
    ensures forall i :: k < i < j ==> log[i].match_ != m
  {
    if j == 0 then -1 else if log[j - 1].match_ == m then j - 1 else LastBefore(log, j - 1, m)
  }

  /** The last execution of m before place j is there and no RETRACT. */
  predicate Started(log: seq<Item>, j: nat, m: Match)
    requires j <= |log|
  {
    var k := LastBefore(log, j, m);
    k >= 0 && log[k].tag != RETRACT
  }

  /** The first execution of m, and every one after a RETRACT, is an INSERT, and no other one is. */
  predicate InOrder(log: seq<Item>, m: Match) {
    forall j :: 0 <= j < |log| && log[j].match_ == m ==> (log[j].tag == INSERT <==> !Started(log, j, m))
  }

  lemma {:induction false} StartedPrefix(log: seq<Item>, n: nat, j: nat, m: Match)
    requires j <= n <= |log|
    ensures LastBefore(log[..n], j, m) == LastBefore(log, j, m) && Started(log[..n], j, m) == Started(log, j, m)
  {
    if j > 0 { StartedPrefix(log, n, j - 1, m); }
  }

  lemma {:induction false} PhaseMeans(log: seq<Item>, m: Match)
    ensures PhaseOf(log, m) != Wrong <==> InOrder(log, m)
    ensures InOrder(log, m) ==> (PhaseOf(log, m) == Active <==> Started(log, |log|, m))
    decreases |log|
  {
    if log != [] {
      var n := |log| - 1;
      var before := log[..n];
      PhaseMeans(before, m);
      forall j | 0 <= j <= n ensures Started(before, j, m) == Started(log, j, m) { StartedPrefix(log, n, j, m); }
      assert forall j :: 0 <= j < n ==> before[j] == log[j];
      assert InOrder(log, m) <==> InOrder(before, m) && (log[n].match_ == m ==> (log[n].tag == INSERT <==> !Started(log, n, m)));
    }
  }

  /** In every run from an empty agenda, the executions of every match come in that order. */
  lemma AlwaysInOrder(category: int -> nat, run: seq<Happening>, m: Match)
    requires forall i :: 0 <= i < |run| ==> run[i].Reaches? ==> category(run[i].m.rule) < CATEGORIES
    requires category(m.rule) < CATEGORIES
    ensures InOrder(Happened(Empty, category, run).log, m)
  {
    AlwaysOrderly(category, run);
    var s := Happened(Empty, category, run);
    assert InStep(s, category(m.rule), m);
    PhaseMeans(s.log, m);
  }

  /** What a tag does to a match: an INSERT of a new one makes it wait with INSERT, a MODIFY of a stored one that
      does not wait makes it wait with MODIFY, both before all others of its category; a RETRACT of a stored one
      ends its waiting and is executed unless it waited for its INSERT; and all else changes nothing. */
  lemma ProdCallMeans(s: State, category: int -> nat, tag: Tag, m: Match)
    requires Orderly(s, category) && category(m.rule) < CATEGORIES
    ensures var cat := category(m.rule);
      var q, t := s.queues[cat], ProdCall(s, cat, tag, m);
      && |t.queues| == CATEGORIES && (forall c :: 0 <= c < CATEGORIES && c != cat ==> t.queues[c] == s.queues[c])
      && (m in t.memory <==> tag == INSERT || (tag == MODIFY && m in s.memory)) && t.memory - {m} == s.memory - {m}
      && (if tag == RETRACT then (forall x :: x in t.queues[cat] <==> x in q && (m in s.memory ==> x.match_ != m))
          else t.queues[cat] == if (m in s.memory) == (tag == MODIFY) && !In(q, m) then [Item(m, tag)] + q else q)
      && t.log == s.log + if tag == RETRACT && m in s.memory && Item(m, INSERT) !in q then [Item(m, RETRACT)] else []
  {
    var cat := category(m.rule);
    var q := s.queues[cat];
    assert InStep(s, cat, m);
    OrderlySorted(s, category, cat);
    WithoutIs(q, m);
    if In(q, m) { TagOfIs(q, m, INSERT); }
    assert Item(m, INSERT) in q ==> In(q, m);
  }

  // ---------- newest first ----------

  predicate Runnable(category: int -> nat, run: seq<Happening>) {
    forall i :: 0 <= i < |run| ==> run[i].Reaches? ==> category(run[i].m.rule) < CATEGORIES
  }

  /** The queue of a category after a run. */
  function QueueAfter(category: int -> nat, run: seq<Happening>, c: nat): seq<Item>
    requires Runnable(category, run)
  {
    if c < CATEGORIES then Happened(Empty, category, run).queues[c] else []
  }

  /** The step of the run at which m began to wait, as it does at its end; -1 if it does not. */
  function QueuedAt(category: int -> nat, run: seq<Happening>, m: Match): (k: int)
    requires Runnable(category, run)
    ensures In(QueueAfter(category, run, category(m.rule)), m) ==> 0 <= k < |run|
    decreases |run|
  {
    if !In(QueueAfter(category, run, category(m.rule)), m) then -1
    else if In(QueueAfter(category, run[..|run| - 1], category(m.rule)), m) then QueuedAt(category, run[..|run| - 1], m)
    else |run| - 1
  }

  /** Later entries of the queue have waited longer. */
  ghost predicate NewestFirst(category: int -> nat, run: seq<Happening>, c: nat)
    requires Runnable(category, run)
  {
    var q := QueueAfter(category, run, c);
    forall i, j :: 0 <= i < j < |q| ==> QueuedAt(category, run, q[i].match_) > QueuedAt(category, run, q[j].match_)
  }

  /** A queue stays as it is, gets a new head, or loses an entry. */
  ghost predicate Moves(q: seq<Item>, r: seq<Item>) {
    || r == q
    || (r != [] && r[1..] == q && !In(q, r[0].match_))
    || (exists m :: r == Without(q, m))
  }

  lemma QueueMoves(s: State, category: int -> nat, h: Happening, c: nat)
    requires Orderly(s, category) && c < CATEGORIES && (h.Reaches? ==> category(h.m.rule) < CATEGORIES)
    ensures |After(s, category, h).queues| == CATEGORIES && Moves(s.queues[c], After(s, category, h).queues[c])
  {
    if h.Runs? && Best(s.queues) == c { FirstWithout(s.queues[c]); }
  }

  /** Taking out an entry keeps the others in their order. */
  lemma {:induction false} WithoutOrder(q: seq<Item>, m: Match, i: nat, j: nat) returns (k: nat, l: nat)
    requires i < j < |Without(q, m)|
    ensures k < l < |q| && Without(q, m)[i] == q[k] && Without(q, m)[j] == q[l]
  {
    if q[0].match_ == m {
      k, l := i + 1, j + 1;
    } else if i == 0 {
      k := 0;
      if j > 1 {
        var k', l' := WithoutOrder(q[1..], m, 0, j - 1);
        l := l' + 1;
      } else {
        assert Without(q[1..], m) != [];
        l := FirstLeft(q[1..], m);
        l := l + 1;
      }
    } else {
      k, l := WithoutOrder(q[1..], m, i - 1, j - 1);
      k, l := k + 1, l + 1;
    }
  }

  lemma FirstLeft(q: seq<Item>, m: Match) returns (k: nat)
    requires Without(q, m) != []
    ensures k < |q| && Without(q, m)[0] == q[k]
  {
    k := if q[0].match_ == m then 1 else 0;
  }

  lemma {:induction false} AlwaysNewestFirst(category: int -> nat, run: seq<Happening>, c: nat)
    requires Runnable(category, run) && c < CATEGORIES
    ensures NewestFirst(category, run, c)
    decreases |run|
  {
    if run != [] {
      var before := run[..|run| - 1];
      AlwaysNewestFirst(category, before, c);
      AlwaysOrderly(category, before);
      AlwaysOrderly(category, run);
      QueueMoves(Happened(Empty, category, before), category, run[|run| - 1], c);
      var q, r := QueueAfter(category, before, c), QueueAfter(category, run, c);
      forall i, j | 0 <= i < j < |r|
        ensures QueuedAt(category, run, r[i].match_) > QueuedAt(category, run, r[j].match_)
      {
        NewerStill(category, run, c, i, j);
      }
    }
  }

  lemma NewerStill(category: int -> nat, run: seq<Happening>, c: nat, i: nat, j: nat)
    requires run != [] && Runnable(category, run) && c < CATEGORIES
    requires NewestFirst(category, run[..|run| - 1], c) && Moves(QueueAfter(category, run[..|run| - 1], c), QueueAfter(category, run, c))
    requires i < j < |QueueAfter(category, run, c)| && Orderly(Happened(Empty, category, run), category)
    ensures var r := QueueAfter(category, run, c); QueuedAt(category, run, r[i].match_) > QueuedAt(category, run, r[j].match_)
  {
    var before := run[..|run| - 1];
    var q, r := QueueAfter(category, before, c), QueueAfter(category, run, c);
    assert category(r[i].match_.rule) == category(r[j].match_.rule) == c && In(r, r[i].match_) && In(r, r[j].match_);
    if r == q {
    } else if r[1..] == q && !In(q, r[0].match_) {
      assert r[j] == q[j - 1] && In(q, r[j].match_);
      if i > 0 { assert r[i] == q[i - 1] && In(q, r[i].match_); }
    } else {
      var m :| r == Without(q, m);
      var k, l := WithoutOrder(q, m, i, j);
      assert In(q, r[i].match_) && In(q, r[j].match_);
    }
  }

  /** After any run, what the agenda executes is the newest of the entries that wait in the best category
      that has any: every other one there began to wait earlier. */
  lemma RunsNewest(category: int -> nat, run: seq<Happening>)
    requires Runnable(category, run)
    ensures var s := Happened(Empty, category, run);
      var c := Best(s.queues);
      && (c == CATEGORIES ==> RunCs(s) == s)
      && (c < CATEGORIES ==>
        var x := s.queues[c][0];
        && RunCs(s).log == s.log + [x] && !In(RunCs(s).queues[c], x.match_)
        && (forall m :: In(s.queues[c], m) && m != x.match_ ==> QueuedAt(category, run, m) < QueuedAt(category, run, x.match_))
        && (forall b :: 0 <= b < c ==> s.queues[b] == []))
  {
    var s := Happened(Empty, category, run);
    var c := Best(s.queues);
    AlwaysOrderly(category, run);
    if c < CATEGORIES {
      AlwaysNewestFirst(category, run, c);
      var q := s.queues[c];
      assert Once(q);
      assert forall i :: 0 <= i < |q[1..]| ==> q[1..][i] == q[i + 1];
      forall m | In(q, m) && m != q[0].match_ ensures QueuedAt(category, run, m) < QueuedAt(category, run, q[0].match_) {
        var j :| 0 <= j < |q| && q[j].match_ == m;
        assert q == QueueAfter(category, run, c);
      }
    }
  }

  /** What has just been queued runs first, unless a better category has anything to run. */
  lemma NewestRunsFirst(s: State, category: int -> nat, tag: Tag, m: Match)
    requires Orderly(s, category) && category(m.rule) < CATEGORIES && tag != RETRACT
    requires ProdCall(s, category(m.rule), tag, m).queues != s.queues
    requires forall c :: 0 <= c < category(m.rule) ==> s.queues[c] == []
    ensures RunCs(ProdCall(s, category(m.rule), tag, m)).log == s.log + [Item(m, tag)]
    ensures RunCs(ProdCall(s, category(m.rule), tag, m)).queues == s.queues
  {
    var cat := category(m.rule);
    var t := ProdCall(s, cat, tag, m);
    assert t.queues[cat] == [Item(m, tag)] + s.queues[cat] && t.queues[cat][1..] == s.queues[cat];
    assert Best(t.queues) == cat;
    assert t.queues[cat := s.queues[cat]] == s.queues;
  }
}
