/** Cursors over a tree: `Walk`, which resumes where it stopped, and the search that puts a cursor
    on the first item beyond a limit. */
module BTreeCursor {
  import opened Wrappers
  import opened BTreeModel
  import opened BTreeRemove
  import opened BTreeHealth
  import opened BTreeNode

  /** A node on the way down and the branch to visit next (top frame) or being visited (others). */
  datatype Frame = Frame(node: Tree<Item>, loc: nat)

  /** What a frame still has to yield once the branch at loc is done. */
  ghost function Tail(fr: Frame): seq<Item> {
    if fr.node.Nil? || fr.loc >= |fr.node.kids| || fr.loc > |fr.node.keys| then []
    else After(fr.node.keys[fr.loc..], fr.node.kids[fr.loc + 1..])
  }

  /** What a stack of frames, the deepest last, yields once the branch of the deepest is done. */
  ghost function Pending(frames: seq<Frame>): seq<Item> {
    if frames == [] then [] else Tail(frames[|frames| - 1]) + Pending(frames[..|frames| - 1])
  }

  ghost function TopChild(fr: Frame): Tree<Item> {
    if fr.node.Nil? || fr.loc >= |fr.node.kids| then Nil else fr.node.kids[fr.loc]
  }

  /** Everything the cursor has still to yield, in order. */
  ghost function Remaining(frames: seq<Frame>): seq<Item> {
    if frames == [] then [] else Items(TopChild(frames[|frames| - 1])) + Pending(frames)
  }

  lemma PendingPush(frames: seq<Frame>, fr: Frame)
    ensures Pending(frames + [fr]) == Tail(fr) + Pending(frames)
    ensures Remaining(frames + [fr]) == Items(TopChild(fr)) + (Tail(fr) + Pending(frames))
  {
    assert (frames + [fr])[..|frames|] == frames;
  }

  /** Descending into a subtree from its first branch yields that subtree. */
  lemma FirstFrame(t: Tree<Item>)
    requires t.Node? && |t.kids| == |t.keys| + 1
    ensures Items(TopChild(Frame(t, 0))) + Tail(Frame(t, 0)) == Items(t)
  {
    assert t.keys[0..] == t.keys;
  }

  /** Descending one more level changes nothing of what is to come. */
  lemma Descend(frames: seq<Frame>)
    requires frames != []
    requires var c := TopChild(frames[|frames| - 1]); c.Node? && |c.kids| == |c.keys| + 1
    ensures Remaining(frames + [Frame(TopChild(frames[|frames| - 1]), 0)]) == Remaining(frames)
  {
    hide Items, Tail, Pending, TopChild;
    var c := TopChild(frames[|frames| - 1]);
    var fr := Frame(c, 0);
    PendingPush(frames, fr);
    FirstFrame(c);
    Assoc(Items(TopChild(fr)), Tail(fr), Pending(frames));
  }

  lemma Assoc<T>(a: seq<T>, b: seq<T>, c: seq<T>)
    ensures a + (b + c) == (a + b) + c
  {}

  /** A frame past its last key yields nothing more. */
  lemma Climb(frames: seq<Frame>)
    requires frames != [] && (frames[|frames| - 1].node.Node? ==> frames[|frames| - 1].loc >= |frames[|frames| - 1].node.keys|)
    ensures Pending(frames) == Pending(frames[..|frames| - 1])
  {}

  /** The next item is the key at loc of the top frame, and then the branch to its right. */
  lemma Advance(frames: seq<Frame>, fr: Frame)
    requires fr.node.Node? && |fr.node.kids| == |fr.node.keys| + 1 && fr.loc < |fr.node.keys|
    ensures Pending(frames + [fr]) == [fr.node.keys[fr.loc]] + Remaining(frames + [Frame(fr.node, fr.loc + 1)])
  {
    var next, k := Frame(fr.node, fr.loc + 1), fr.node.keys[fr.loc];
    PendingPush(frames, fr);
    PendingPush(frames, next);
    TailStep(fr);
    Regroup([k], Items(TopChild(next)), Tail(next), Pending(frames));
  }

  lemma Regroup<T>(a: seq<T>, b: seq<T>, c: seq<T>, d: seq<T>)
    ensures a + b + c + d == a + (b + (c + d))
  {}

  lemma TailStep(fr: Frame)
    requires fr.node.Node? && |fr.node.kids| == |fr.node.keys| + 1 && fr.loc < |fr.node.keys|
    ensures var next := Frame(fr.node, fr.loc + 1); Tail(fr) == [fr.node.keys[fr.loc]] + Items(TopChild(next)) + Tail(next)
  {
    assert fr.node.keys[fr.loc..][1..] == fr.node.keys[fr.loc + 1..];
    assert fr.node.kids[fr.loc + 1..][1..] == fr.node.kids[fr.loc + 2..];
  }

  lemma TopDone(frames: seq<Frame>)
    requires frames != [] && TopChild(frames[|frames| - 1]) == Nil
    ensures Remaining(frames) == Pending(frames)
  {}

  const FRAMES: nat := 10

  class BTState {
    var level: int
    const node: array<BTNode?>
    const loc: array<nat>
    ghost var frames: seq<Frame>   // what the frames in use stand for

    constructor ()
      ensures level == -1 && frames == [] && fresh(node) && fresh(loc) && Arrays()
    {
      level := -1;
      node := new BTNode?[FRAMES](_ => null);
      loc := new nat[FRAMES](_ => 0);
      frames := [];
    }

    ghost function Own(): set<object> { {this, node, loc} }

    ghost predicate Arrays()
      reads this
    {
      node.Length == FRAMES && loc.Length == FRAMES && -1 <= level < FRAMES && |frames| == level + 1
    }

    /** Frame i stands for a node at height h - i of a tree that lies within R. */
    ghost predicate Valid(R: set<object>, h: nat)
      reads this, node, loc, R
    {
      && Arrays() && Own() !! R && level < h
      && forall i :: 0 <= i <= level ==>
        && node[i] != null && node[i] in R && node[i].Repr <= R && node[i].Valid() && Shape(node[i].tree, h - i)
        && loc[i] <= node[i].count && frames[i] == Frame(node[i].tree, loc[i])
    }

    method Push(n: BTNode, ghost R: set<object>, ghost h: nat)
      requires Valid(R, h) && n in R && n.Repr <= R && n.Valid()
      requires level + 1 < h && level + 1 < FRAMES && Shape(n.tree, h - level - 1)
      modifies this, node, loc
      ensures Valid(R, h) && level == old(level) + 1 == |old(frames)| && frames == old(frames) + [Frame(n.tree, 0)]
      ensures level < node.Length && node[level] == n
    {
      level := level + 1;
      node[level] := n;
      loc[level] := 0;
      frames := frames + [Frame(n.tree, 0)];
    }

    method Pop(ghost R: set<object>, ghost h: nat)
      requires Valid(R, h) && level >= 0
      modifies this`level, this`frames
      ensures Valid(R, h) && level == old(level) - 1 && frames == old(frames)[..old(level)]
    {
      level := level - 1;
      frames := frames[..level + 1];
    }

    method SetLoc(l: nat, ghost R: set<object>, ghost h: nat)
      requires Valid(R, h) && level >= 0 && l <= node[level].count
      modifies this`frames, loc
      ensures Valid(R, h) && level == |frames| - 1
      ensures frames == old(frames)[..level] + [Frame(old(frames)[level].node, l)]
    {
      loc[level] := l;
      frames := frames[..level] + [Frame(frames[level].node, l)];
    }

    /** The next item, or nothing once all have been yielded. */
    method Walk(ghost R: set<object>, ghost h: nat) returns (item: Option<Item>)
      requires Valid(R, h) && h <= FRAMES
      modifies this, node, loc
      ensures Valid(R, h)
      ensures item == if old(Remaining(frames)) == [] then None else Some(old(Remaining(frames))[0])
      ensures Remaining(frames) == if old(Remaining(frames)) == [] then [] else old(Remaining(frames))[1..]
    {
      if level < 0 { return None; }
      DescendAll(R, h);
      TopDone(frames);
      ClimbAll(R, h);
      if level < 0 { return None; }
      item := Yield(R, h);
    }

    /** The key at the top frame's location, which moves on. */
    method Yield(ghost R: set<object>, ghost h: nat) returns (item: Option<Item>)
      requires Valid(R, h) && level >= 0 && loc[level] < node[level].count
      modifies this`frames, loc
      ensures Valid(R, h)
      ensures item.Some? && old(Pending(frames)) == [item.value] + Remaining(frames)
    {
      var n := node[level];
      ghost var below, fr := frames[..level], frames[level];
      assert frames == below + [fr];
      assert Shape(n.tree, h - level) && n.Valid() && n.tree.keys == n.Keys();
      Advance(below, fr);
      item := Some(n.key[loc[level]]);
      assert n.Keys()[loc[level]] == item.value;
      SetLoc(loc[level] + 1, R, h);
    }

    /** Down the first branches, until the branch to visit is empty. */
    method DescendAll(ghost R: set<object>, ghost h: nat)
      requires Valid(R, h) && h <= FRAMES && level >= 0
      modifies this, node, loc
      ensures Valid(R, h) && level >= 0 && TopChild(frames[level]) == Nil
      ensures Remaining(frames) == old(Remaining(frames))
    {
      var current := node[level].branch[loc[level]];
      ChildOfTop(R, h);
      while current != null
        invariant Valid(R, h) && level >= 0 && current == node[level].branch[loc[level]]
        invariant Remaining(frames) == old(Remaining(frames))
        invariant ChildFacts(R, h)
        decreases h - level
      {
        Descend(frames);
        Push(current, R, h);
        ChildOfTop(R, h);
        current := node[level].branch[loc[level]];
      }
    }

    /** What the branch to visit stands for. */
    ghost predicate ChildFacts(R: set<object>, h: nat)
      requires Valid(R, h) && level >= 0
      reads this, node, loc, R
    {
      var c := node[level].branch[loc[level]];
      && (c == null ==> TopChild(frames[level]) == Nil)
      && (c != null ==>
        && c in R && c.Repr <= R && c.Valid() && level + 1 < h && Shape(c.tree, h - level - 1)
        && TopChild(frames[level]) == c.tree && c.tree.Node? && |c.tree.kids| == |c.tree.keys| + 1)
    }

    lemma ChildOfTop(R: set<object>, h: nat)
      requires Valid(R, h) && level >= 0
      ensures ChildFacts(R, h)
    {
      var n := node[level];
      assert Shape(n.tree, h - level) && n.Valid() && loc[level] <= n.count;
      ChildStands(n, loc[level]);
      assert Shape(n.tree.kids[loc[level]], h - level - 1);
    }

    /** Up past every frame that has no key left. */
    method ClimbAll(ghost R: set<object>, ghost h: nat)
      requires Valid(R, h)
      modifies this`level, this`frames
      ensures Valid(R, h) && (level >= 0 ==> loc[level] < node[level].count)
      ensures Pending(frames) == old(Pending(frames))
    {
      while level >= 0 && loc[level] >= node[level].count
        invariant Valid(R, h) && Pending(frames) == old(Pending(frames))
        decreases level
      {
        Climb(frames);
        Pop(R, h);
      }
    }
  }

  // ---------- the first item beyond a limit ----------

  ghost predicate NoneBeyond(f: Item -> int, s: seq<Item>) {
    forall i :: 0 <= i < |s| ==> f(s[i]) >= 0
  }

  ghost predicate NoneBefore(f: Item -> int, s: seq<Item>) {
    forall i :: 0 <= i < |s| ==> f(s[i]) <= 0
  }

  lemma MonoParts(f: Item -> int, a: seq<Item>, b: seq<Item>, c: seq<Item>)
    requires Mono(f, a + b + c)
    ensures Mono(f, b)
    ensures a == [] || f(a[|a| - 1]) >= 0 ==> NoneBeyond(f, a)
    ensures a != [] && f(a[|a| - 1]) <= 0 ==> NoneBefore(f, b) && NoneBefore(f, c)
    ensures c == [] || f(c[0]) <= 0 ==> NoneBefore(f, c)
  {
    var s := a + b + c;
    assert forall i :: 0 <= i < |a| ==> s[i] == a[i];
    assert forall i :: 0 <= i < |b| ==> s[|a| + i] == b[i];
    assert forall i :: 0 <= i < |c| ==> s[|a| + |b| + i] == c[i];
  }

  /** Where to enter a node so as to meet everything beyond f's limit and nothing before it. */
  lemma BeyondSplits(f: Item -> int, keys: seq<Item>, kids: seq<Tree<Item>>, i: nat, found: bool)
    requires |kids| == |keys| + 1 && i <= |keys| && Mono(f, Items(Node(keys, kids)))
    requires found ==> i > 0 && f(keys[i - 1]) == 0
    requires !found ==> (i > 0 ==> f(keys[i - 1]) > 0) && (i < |keys| ==> f(keys[i]) < 0)
    ensures var a, c := Before(keys[..i], kids[..i]), After(keys[i..], kids[i + 1..]);
      && Items(Node(keys, kids)) == a + Items(kids[i]) + c
      && NoneBeyond(f, a) && NoneBefore(f, c) && Mono(f, Items(kids[i]))
      && (found ==> NoneBefore(f, Items(kids[i])))
  {
    var a, b, c := Before(keys[..i], kids[..i]), Items(kids[i]), After(keys[i..], kids[i + 1..]);
    ChildAround(keys, kids, i);
    if i > 0 { BeforeEnds(keys[..i], kids[..i]); }
    MonoParts(f, a, b, c);
  }

  /** The place of the first key beyond the limit, or just after a key equal to it. */
  method FirstBeyond(n: BTNode, f: Item -> int) returns (found: bool, i: nat)
    requires n.Arrays() && Mono(f, n.Keys())
    ensures i <= n.count
    ensures found ==> i > 0 && f(n.key[i - 1]) == 0
    ensures !found ==> (i > 0 ==> f(n.key[i - 1]) > 0) && (i < n.count ==> f(n.key[i]) < 0)
  {
    var j, result, loc: int := n.count - 1, 1, 0;
    i := 0;
    while result != 0 && i <= j
      invariant 0 <= i <= j + 1 <= n.count
      invariant result == 0 ==> 0 <= loc < n.count && f(n.key[loc]) == 0
      invariant i > 0 ==> f(n.Keys()[i - 1]) > 0
      invariant j + 1 < n.count ==> f(n.Keys()[j + 1]) < 0
      decreases result != 0, j - i
    {
      loc := i + (j - i) / 2;
      result := f(n.key[loc]);
      assert n.key[loc] == n.Keys()[loc];
      if result > 0 {
        i := loc + 1;
      } else if result < 0 {
        j := loc - 1;
      }
    }
    found := result == 0;
    if found { i := loc + 1; }
  }

  lemma MonoKeys(f: Item -> int, keys: seq<Item>, kids: seq<Tree<Item>>)
    requires |kids| == |keys| + 1 && Mono(f, Items(Node(keys, kids)))
    ensures Mono(f, keys)
  {
    forall p, q | 0 <= p < q < |keys| ensures (f(keys[p]) <= 0 ==> f(keys[q]) <= 0) && (f(keys[p]) < 0 ==> f(keys[q]) < 0) {
      MonoKeyPair(f, keys, kids, p, q);
    }
  }

  lemma MonoKeyPair(f: Item -> int, keys: seq<Item>, kids: seq<Tree<Item>>, p: nat, q: nat)
    requires |kids| == |keys| + 1 && Mono(f, Items(Node(keys, kids))) && p < q < |keys|
    ensures (f(keys[p]) <= 0 ==> f(keys[q]) <= 0) && (f(keys[p]) < 0 ==> f(keys[q]) < 0)
  {
    var x, y, l, r := Before(keys[..p], kids[..p]), After(keys[p + 1..], kids[p + 2..]), Items(kids[p]), Items(kids[p + 1]);
    KeyAround(keys, kids, p);
    AfterHasKeys(keys[p + 1..], kids[p + 2..], q - p - 1);
    hide Items, Before, After, Mono;
    assert x + (l + [keys[p]] + r) + y == (x + l) + [keys[p]] + (r + y);
    assert keys[q] in r + y;
    MonoAt(f, x + l, keys[p], r + y, keys[q]);
  }

  lemma MonoAt(f: Item -> int, a: seq<Item>, k: Item, c: seq<Item>, x: Item)
    requires Mono(f, a + [k] + c) && x in c
    ensures (f(k) <= 0 ==> f(x) <= 0) && (f(k) < 0 ==> f(x) < 0)
  {
    var s := a + [k] + c;
    var i :| 0 <= i < |c| && c[i] == x;
    assert s[|a|] == k && s[|a| + 1 + i] == x;
  }

  lemma NoneConcat(f: Item -> int, s: seq<Item>, t: seq<Item>)
    ensures NoneBeyond(f, s) && NoneBeyond(f, t) ==> NoneBeyond(f, s + t)
    ensures NoneBefore(f, s) && NoneBefore(f, t) ==> NoneBefore(f, s + t)
  {}

  /** Between steps of the search: pre has been left behind, what the frames have pending comes
      last, and in between the search goes on below n, or the frames already start there. */
  ghost predicate Searching(f: Item -> int, all: seq<Item>, pre: seq<Item>, frames: seq<Frame>, below: Tree<Item>, found: bool) {
    && NoneBeyond(f, pre) && NoneBefore(f, Pending(frames))
    && (if found then all == pre + Remaining(frames) && NoneBefore(f, Remaining(frames))
        else all == pre + Items(below) + Pending(frames) && Mono(f, Items(below)))
  }

  lemma SearchStep(f: Item -> int, all: seq<Item>, pre: seq<Item>, frames: seq<Frame>, t: Tree<Item>, i: nat, found: bool)
    requires Searching(f, all, pre, frames, t, false)
    requires t.Node? && |t.kids| == |t.keys| + 1 && i <= |t.keys|
    requires found ==> i > 0 && f(t.keys[i - 1]) == 0
    requires !found ==> (i > 0 ==> f(t.keys[i - 1]) > 0) && (i < |t.keys| ==> f(t.keys[i]) < 0)
    ensures Searching(f, all, pre + Before(t.keys[..i], t.kids[..i]), frames + [Frame(t, i)], t.kids[i], found)
  {
    var a, b, c, P, fr := Before(t.keys[..i], t.kids[..i]), Items(t.kids[i]), After(t.keys[i..], t.kids[i + 1..]), Pending(frames), Frame(t, i);
    assert Tail(fr) == c && TopChild(fr) == t.kids[i] && t == Node(t.keys, t.kids);
    hide Items, Before, After, Mono, NoneBeyond, NoneBefore, Tail, Pending, Remaining, TopChild;
    BeyondSplits(f, t.keys, t.kids, i, found);
    PendingPush(frames, fr);
    NoneConcat(f, pre, a);
    NoneConcat(f, c, P);
    NoneConcat(f, b, c + P);
    SearchRegroup(pre, a, b, c, P);
  }

  lemma SearchRegroup<T>(pre: seq<T>, a: seq<T>, b: seq<T>, c: seq<T>, p: seq<T>)
    ensures pre + (a + b + c) + p == (pre + a) + (b + (c + p))
    ensures pre + (a + b + c) + p == (pre + a) + b + (c + p)
  {}

  lemma SearchDone(f: Item -> int, all: seq<Item>, pre: seq<Item>, frames: seq<Frame>, t: Tree<Item>, found: bool)
    requires Searching(f, all, pre, frames, t, found) && (found || t == Nil)
    requires !found ==> frames != [] && TopChild(frames[|frames| - 1]) == Nil
    ensures all == pre + Remaining(frames) && NoneBeyond(f, pre) && NoneBefore(f, Remaining(frames))
  {
    hide NoneBeyond, NoneBefore, Mono, Pending, Remaining, TopChild;
    if !found {
      TopDone(frames);
      assert pre + [] + Pending(frames) == pre + Pending(frames);
    }
  }

  lemma SearchStart(f: Item -> int, t: Tree<Item>)
    requires Mono(f, Items(t))
    ensures Searching(f, Items(t), [], [], t, false)
  {
    assert [] + Items(t) + [] == Items(t);
  }

  /** Sets state on the items of root's tree from the first one beyond f's limit on. Items equal to
      the limit may come first. */
  method SearchNodeBiggerThan(root: BTNode, f: Item -> int, state: BTState, ghost h: nat) returns (ghost pre: seq<Item>)
    requires root.Valid() && Shape(root.tree, h) && 0 < h <= FRAMES && Mono(f, Items(root.tree))
    requires state.Valid(root.Repr, h) && state.level == -1
    modifies state, state.node, state.loc
    ensures state.Valid(root.Repr, h)
    ensures Items(root.tree) == pre + Remaining(state.frames)
    ensures NoneBeyond(f, pre) && NoneBefore(f, Remaining(state.frames))
  {
    pre := [];
    var n: BTNode?, found := root, false;
    ghost var R, all := root.Repr, Items(root.tree);
    SearchStart(f, root.tree);
    assert root.Valid() && Shape(root.tree, h - state.level - 1) && Stands(root, root.tree, root.Repr);
    hide BTNode.Valid, BTState.Valid, KidsValid, Shape, Searching, Items, Pending, Remaining, Mono, NoneBeyond, NoneBefore;
    while n != null && !found
      invariant state.Valid(R, h)
      invariant Stands(n, TreeOf(n), Area(n)) && Area(n) <= R
      invariant n != null ==> state.level + 1 < h && Shape(n.tree, h - state.level - 1)
      invariant Searching(f, all, pre, state.frames, TreeOf(n), found)
      invariant !found && n == null ==> state.frames != [] && TopChild(state.frames[|state.frames| - 1]) == Nil
      decreases h - state.level
    {
      found, n, pre := EnterNode(n, f, state, R, h, all, pre);
    }
    SearchDone(f, all, pre, state.frames, TreeOf(n), found);
  }

  lemma MonoKeysOf(f: Item -> int, all: seq<Item>, pre: seq<Item>, frames: seq<Frame>, n: BTNode)
    requires n.Valid() && Searching(f, all, pre, frames, n.tree, false)
    ensures Mono(f, n.Keys()) && n.tree.Node? && n.tree.keys == n.Keys() && |n.tree.kids| == n.count + 1
  {
    MonoKeys(f, n.tree.keys, n.tree.kids);
  }

  method EnterNode(n: BTNode, f: Item -> int, state: BTState, ghost R: set<object>, ghost h: nat, ghost all: seq<Item>, ghost pre: seq<Item>)
    returns (found: bool, next: BTNode?, ghost pre': seq<Item>)
    requires state.Valid(R, h) && h <= FRAMES && n.Valid() && n.Repr <= R
    requires state.level + 1 < h && Shape(n.tree, h - state.level - 1)
    requires Searching(f, all, pre, state.frames, n.tree, false)
    modifies state, state.node, state.loc
    ensures state.Valid(R, h) && state.level == old(state.level) + 1
    ensures Stands(next, TreeOf(next), Area(next)) && Area(next) <= R
    ensures next != null ==> state.level + 1 < h && Shape(next.tree, h - state.level - 1)
    ensures Searching(f, all, pre', state.frames, TreeOf(next), found)
    ensures next == null ==> state.frames != [] && TopChild(state.frames[|state.frames| - 1]) == Nil
  {
    hide KidsValid, Shape, Searching, Items, Mono;
    MonoKeysOf(f, all, pre, state.frames, n);
    ghost var below, t := state.frames, n.tree;
    var i;
    found, i := EnterFrame(n, f, state, R, h);
    next := n.branch[i];
    ChildBelow(n, i, h - old(state.level) - 1);
    pre' := pre + Before(t.keys[..i], t.kids[..i]);
    hide *;
    SearchStep(f, all, pre, below, t, i, found);
    TopChildIs(below, t, i);
  }

  lemma TopChildIs(frames: seq<Frame>, t: Tree<Item>, i: nat)
    requires t.Node? && i < |t.kids|
    ensures var fs := frames + [Frame(t, i)]; fs != [] && TopChild(fs[|fs| - 1]) == t.kids[i]
  {}

  /** A frame for n, on the first key beyond the limit. */
  method EnterFrame(n: BTNode, f: Item -> int, state: BTState, ghost R: set<object>, ghost h: nat) returns (found: bool, i: nat)
    requires state.Valid(R, h) && h <= FRAMES && n.Valid() && n in R && n.Repr <= R && Mono(f, n.Keys())
    requires state.level + 1 < h && Shape(n.tree, h - state.level - 1)
    modifies state, state.node, state.loc
    ensures state.Valid(R, h) && state.level == old(state.level) + 1
    ensures state.frames == old(state.frames) + [Frame(n.tree, i)]
    ensures i <= n.count && n.tree.keys == n.Keys()
    ensures found ==> i > 0 && f(n.tree.keys[i - 1]) == 0
    ensures !found ==> (i > 0 ==> f(n.tree.keys[i - 1]) > 0) && (i < |n.tree.keys| ==> f(n.tree.keys[i]) < 0)
  {
    hide Mono, KidsValid, Shape;
    EntersApart(n, state, R, h);
    ghost var below := state.frames;
    state.Push(n, R, h);
    found, i := FirstBeyond(n, f);
    state.SetLoc(i, R, h);
    assert state.frames == below + [Frame(n.tree, i)];
  }

  lemma EntersApart(n: BTNode, state: BTState, R: set<object>, h: nat)
    requires state.Valid(R, h) && n.Valid() && n in R && n.Repr <= R
    ensures state.Own() !! R && n.tree.keys == n.Keys() && |n.tree.keys| == n.count && n.Arrays()
  {}

  lemma ChildBelow(n: BTNode, i: nat, h: nat)
    requires n.Valid() && i <= n.count && h > 0 && Shape(n.tree, h)
    ensures n.tree.Node? && |n.tree.kids| == n.count + 1 && n.tree.keys == n.Keys()
    ensures var k := n.branch[i];
      && Stands(k, TreeOf(k), Area(k)) && TreeOf(k) == n.tree.kids[i] && Area(k) <= n.Repr
      && (k != null ==> h > 1 && Shape(k.tree, h - 1)) && (k == null ==> n.tree.kids[i] == Nil)
  {
    ChildStands(n, i);
  }
}
