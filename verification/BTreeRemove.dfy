/** Deletion as a function on trees, and what it does to the sequence of the items. */
module BTreeRemove {
  import opened Wrappers
  import opened BTreeModel

  datatype Taken<T> = Taken(tree: Tree<T>, item: T)

  /** Removes the first item, from the leaf that holds it. */
  function TakeFirst<T>(t: Tree<T>, h: nat): (r: Taken<T>)
    requires Shape(t, h) && Full(t) && h > 0
    ensures Shape(r.tree, h) && |r.tree.keys| >= |t.keys| - 1
    decreases h
  {
    if h == 1 then Taken(Node(t.keys[1..], t.kids[..1] + t.kids[2..]), t.keys[0])
    else
      KidsFacts(t, h);
      var d := TakeFirst(t.kids[0], h - 1);
      Taken(Mend(t.keys, t.kids[0 := d.tree], 0, h), d.item)
  }

  datatype Removed<T> = Removed(tree: Tree<T>, item: Option<T>)

  /** Removes the item equal to f's target, replacing it by its successor when it is not in a leaf. */
  function Remove<T>(t: Tree<T>, h: nat, f: T -> int): (r: Removed<T>)
    requires Shape(t, h) && h > 0 && |t.keys| > 0
    ensures r.tree.Node?
    ensures (Shape(r.tree, h) && |r.tree.keys| >= |t.keys| - 1) || (|t.keys| == 1 && h > 1 && Shape(r.tree, h - 1) && |r.tree.keys| >= MIN_KEYS)
    decreases h
  {
    var p := Rank(f, t.keys);
    if HasEqual(f, t.keys) then
      if h == 1 then Removed(Node(t.keys[..p] + t.keys[p + 1..], t.kids[..p + 1] + t.kids[p + 2..]), Some(t.keys[p]))
      else
        KidsFacts(t, h);
        var d := TakeFirst(t.kids[p + 1], h - 1);
        Removed(Mend(t.keys[p := d.item], t.kids[p + 1 := d.tree], p + 1, h), Some(t.keys[p]))
    else if h == 1 then Removed(t, None)
    else
      KidsFacts(t, h);
      var d := Remove(t.kids[p], h - 1, f);
      Removed(Mend(t.keys, t.kids[p := d.tree], p, h), d.item)
  }

  lemma {:induction false} AllNilAfter<T>(keys: seq<T>, kids: seq<Tree<T>>)
    requires |kids| == |keys|
    requires forall i :: 0 <= i < |kids| ==> kids[i].Nil?
    ensures After(keys, kids) == keys
    decreases |keys|
  {
    if keys != [] { AllNilAfter(keys[1..], kids[1..]); }
  }

  /** A leaf's items are its keys. */
  lemma LeafItems<T>(t: Tree<T>)
    requires Shape(t, 1)
    ensures Items(t) == t.keys
  {
    assert forall i :: 0 <= i < |t.kids| ==> t.kids[i].Nil?;
    AllNilAfter(t.keys, t.kids[1..]);
  }

  lemma {:induction false} TakeFirstItems<T>(t: Tree<T>, h: nat)
    requires Shape(t, h) && Full(t) && h > 0
    ensures Items(t) == [TakeFirst(t, h).item] + Items(TakeFirst(t, h).tree)
    decreases h
  {
    var r := TakeFirst(t, h);
    if h == 1 {
      LeafItems(t);
      LeafItems(r.tree);
    } else {
      KidsFacts(t, h);
      var d := TakeFirst(t.kids[0], h - 1);
      TakeFirstItems(t.kids[0], h - 1);
      ReplaceChild(t.keys, t.kids, 0, d.tree);
      MendItems(t.keys, t.kids[0 := d.tree], 0, h);
      var c := After(t.keys[0..], t.kids[1..]);
      assert [] + Items(t.kids[0]) + c == [d.item] + ([] + Items(d.tree) + c);
    }
  }

  lemma ReplaceChild<T>(keys: seq<T>, kids: seq<Tree<T>>, p: nat, d: Tree<T>)
    requires |kids| == |keys| + 1 && p <= |keys|
    ensures Items(Node(keys, kids)) == Before(keys[..p], kids[..p]) + Items(kids[p]) + After(keys[p..], kids[p + 1..])
    ensures Items(Node(keys, kids[p := d])) == Before(keys[..p], kids[..p]) + Items(d) + After(keys[p..], kids[p + 1..])
  {
    ChildAround(keys, kids, p);
    ChildAround(keys, kids[p := d], p);
    assert kids[p := d][..p] == kids[..p] && kids[p := d][p + 1..] == kids[p + 1..];
  }

  lemma {:induction false} RemoveItems<T>(t: Tree<T>, h: nat, f: T -> int)
    requires Shape(t, h) && h > 0 && |t.keys| > 0 && Strict(f, Items(t))
    ensures Items(Remove(t, h, f).tree) == SeqRemove(Items(t), f)
    ensures Remove(t, h, f).item == SeqFind(Items(t), f)
    decreases h
  {
    if h == 1 {
      LeafItems(t);
      if HasEqual(f, t.keys) { LeafItems(Remove(t, h, f).tree); }
    } else if HasEqual(f, t.keys) {
      RemoveKeyItems(t, h, f);
    } else {
      RemoveChildItems(t, h, f);
    }
  }

  lemma RemoveKeyItems<T>(t: Tree<T>, h: nat, f: T -> int)
    requires Shape(t, h) && h > 1 && |t.keys| > 0 && Strict(f, Items(t)) && HasEqual(f, t.keys)
    ensures Items(Remove(t, h, f).tree) == SeqRemove(Items(t), f)
    ensures Remove(t, h, f).item == SeqFind(Items(t), f)
  {
    var p := Rank(f, t.keys);
    KidsFacts(t, h);
    var d := TakeFirst(t.kids[p + 1], h - 1);
    assert Remove(t, h, f) == Removed(Mend(t.keys[p := d.item], t.kids[p + 1 := d.tree], p + 1, h), Some(t.keys[p]));
    hide Items, Remove, Mend, TakeFirst, Before, After, SeqRemove, SeqFind, Strict;
    RemoveFoundKey(f, t.keys, t.kids, p);
    SuccessorItems(t, h, p, d);
  }

  lemma RemoveFoundKey<T>(f: T -> int, keys: seq<T>, kids: seq<Tree<T>>, p: nat)
    requires |kids| == |keys| + 1 && p < |keys| && f(keys[p]) == 0
    requires Strict(f, Items(Node(keys, kids)))
    ensures SeqRemove(Items(Node(keys, kids)), f)
         == (Before(keys[..p], kids[..p]) + Items(kids[p])) + (Items(kids[p + 1]) + After(keys[p + 1..], kids[p + 2..]))
    ensures SeqFind(Items(Node(keys, kids)), f) == Some(keys[p])
  {
    var a, c := Before(keys[..p], kids[..p]) + Items(kids[p]), Items(kids[p + 1]) + After(keys[p + 1..], kids[p + 2..]);
    FoundSplits(f, keys, kids, p, a, c);
    RemoveFound(f, a, keys[p], c);
  }

  lemma RemoveFound<T>(f: T -> int, a: seq<T>, k: T, c: seq<T>)
    requires AllBefore(f, a) && AllBeyond(f, c) && f(k) == 0
    ensures SeqRemove(a + [k] + c, f) == a + c
    ensures SeqFind(a + [k] + c, f) == Some(k)
  {
    var s := a + [k] + c;
    RankIs(f, s, |a|);
    assert s[|a|] == k && s[..|a|] == a && s[|a| + 1..] == c;
  }

  /** Key p replaced by its successor d.item, the tree to its right losing it. */
  lemma SuccessorItems<T>(t: Tree<T>, h: nat, p: nat, d: Taken<T>)
    requires Shape(t, h) && h > 1 && p < |t.keys|
    requires Shape(t.kids[p + 1], h - 1) && Full(t.kids[p + 1]) && d == TakeFirst(t.kids[p + 1], h - 1)
    requires Lean(t.keys[p := d.item], t.kids[p + 1 := d.tree], p + 1, h)
    ensures Items(Mend(t.keys[p := d.item], t.kids[p + 1 := d.tree], p + 1, h))
         == (Before(t.keys[..p], t.kids[..p]) + Items(t.kids[p])) + (Items(t.kids[p + 1]) + After(t.keys[p + 1..], t.kids[p + 2..]))
  {
    TakeFirstItems(t.kids[p + 1], h - 1);
    MendItems(t.keys[p := d.item], t.kids[p + 1 := d.tree], p + 1, h);
    ReplaceKeyAndChild(t.keys, t.kids, p, d.item, d.tree);
  }

  lemma ReplaceKeyAndChild<T>(keys: seq<T>, kids: seq<Tree<T>>, p: nat, k: T, d: Tree<T>)
    requires |kids| == |keys| + 1 && p < |keys|
    ensures Items(Node(keys[p := k], kids[p + 1 := d]))
         == (Before(keys[..p], kids[..p]) + Items(kids[p])) + (([k] + Items(d)) + After(keys[p + 1..], kids[p + 2..]))
  {
    var keys', kids' := keys[p := k], kids[p + 1 := d];
    KeyAround(keys', kids', p);
    assert keys'[..p] == keys[..p] && keys'[p + 1..] == keys[p + 1..] && kids'[..p] == kids[..p] && kids'[p + 2..] == kids[p + 2..];
  }

  /** What is left below an inner node whose keys all differ from the target. */
  lemma RemoveBelow<T>(t: Tree<T>, h: nat, f: T -> int)
    requires Shape(t, h) && h > 1 && |t.keys| > 0 && !HasEqual(f, t.keys)
    ensures t.Node?
    ensures var keys, kids, p := t.keys, t.kids, Rank(f, t.keys);
      && p <= |keys| && |kids| == |keys| + 1 && Shape(kids[p], h - 1) && |kids[p].keys| > 0
      && var d := Remove(kids[p], h - 1, f);
        Lean(keys, kids[p := d.tree], p, h) && Remove(t, h, f) == Removed(Mend(keys, kids[p := d.tree], p, h), d.item)
  {
    KidsFacts(t, h);
  }

  lemma SplitBelow<T>(t: Tree<T>, h: nat, f: T -> int)
    requires Shape(t, h) && h > 1 && Strict(f, Items(t)) && !HasEqual(f, t.keys)
    ensures var keys, kids, p := t.keys, t.kids, Rank(f, t.keys);
      && p <= |keys| && |kids| == |keys| + 1
      && var a, c := Before(keys[..p], kids[..p]), After(keys[p..], kids[p + 1..]);
        Items(t) == a + Items(kids[p]) + c && AllBefore(f, a) && AllBeyond(f, c) && Strict(f, Items(kids[p]))
  {
    var keys, kids, p := t.keys, t.kids, Rank(f, t.keys);
    RankSplits(f, keys);
    assert t == Node(keys, kids);
    hide Items, Before, After, Strict;
    ChildSplits(f, keys, kids, p, Before(keys[..p], kids[..p]), After(keys[p..], kids[p + 1..]));
  }

  lemma {:induction false} RemoveChildItems<T>(t: Tree<T>, h: nat, f: T -> int)
    requires Shape(t, h) && h > 1 && |t.keys| > 0 && Strict(f, Items(t)) && !HasEqual(f, t.keys)
    ensures Items(Remove(t, h, f).tree) == SeqRemove(Items(t), f)
    ensures Remove(t, h, f).item == SeqFind(Items(t), f)
    decreases h, 0
  {
    hide *;
    RemoveBelow(t, h, f);
    SplitBelow(t, h, f);
    var keys, kids, p := t.keys, t.kids, Rank(f, t.keys);
    var d := Remove(kids[p], h - 1, f);
    var a, b, c := Before(keys[..p], kids[..p]), Items(kids[p]), After(keys[p..], kids[p + 1..]);
    RemoveItems(kids[p], h - 1, f);
    ReplaceChild(keys, kids, p, d.tree);
    MendItems(keys, kids[p := d.tree], p, h);
    RankFrame(f, a, b, c);
    RemoveFrame(f, a, b, c);
  }
}
