/** Insertion in place: `PushDown` and what it does to a node when an item comes up from a child,
    proved to compute BTreeModel.Push. */
module BTreeInsert {
  import opened BTreeModel
  import opened BTreeRemove
  import opened BTreeHealth
  import opened BTreeNode

  /** Node n, not full, takes in what came up from its child number location + 1. The children that
      it will have stand for ts within R. */
  method TakeIn(n: BTNode, location: int, newItem: Item, newRight: BTNode?, ghost ts: seq<Tree<Item>>, ghost R: set<object>)
    requires n.Arrays() && -1 <= location < n.count < MAX_KEYS && n.Own() !! R
    requires KidsValid(n.Branches()[..location + 2] + [newRight] + n.Branches()[location + 2..], ts, R)
    modifies n, n.key, n.branch
    ensures n.Valid() && n.Repr == n.Own() + R && n.count == old(n.count) + 1
    ensures n.tree == Node(old(n.Keys())[..location + 1] + [newItem] + old(n.Keys())[location + 1..], ts)
    ensures n.Branches() == old(n.Branches())[..location + 2] + [newRight] + old(n.Branches())[location + 2..]
  {
    ghost var ns := n.Branches()[..location + 2] + [newRight] + n.Branches()[location + 2..];
    n.AddItemToRight(newItem, newRight, location + 1);
    assert n.Branches() == ns;
    assert KidsValid(ns, ts, R);
    Adopt(n, ts, R);
  }

  /** The same for a full node, which splits. */
  method TakeInSplit(n: BTNode, location: int, newItem: Item, newRight: BTNode?, ghost ts: seq<Tree<Item>>, ghost R: set<object>)
    returns (mid: Item, right: BTNode)
    requires n.Arrays() && -1 <= location < n.count == MAX_KEYS && n.Own() !! R
    requires KidsValid(n.Branches()[..location + 2] + [newRight] + n.Branches()[location + 2..], ts, R)
    modifies n, n.key, n.branch
    ensures n.Valid() && n.Repr <= n.Own() + R
    ensures right.Valid() && n.Repr !! right.Repr && fresh(right.Repr - R)
    ensures var keys := old(n.Keys())[..location + 1] + [newItem] + old(n.Keys())[location + 1..];
      Cut(keys, ts) == Up(n.tree, mid, right.tree)
    ensures var kids := old(n.Branches())[..location + 2] + [newRight] + old(n.Branches())[location + 2..];
      n.Branches() == kids[..MIN_KEYS + 1] && right.Branches() == kids[MIN_KEYS + 1..]
  {
    ghost var ns := n.Branches()[..location + 2] + [newRight] + n.Branches()[location + 2..];
    KidsHalves(ns, ts, R, MIN_KEYS + 1);
    mid, right := n.Split(newItem, newRight, location);
    assert right.Own() !! R;
    AdoptTwo(n, right, ts, AreaAll(ns[..MIN_KEYS + 1]), AreaAll(ns[MIN_KEYS + 1..]));
  }

  ghost method AdoptTwo(n: BTNode, right: BTNode, ts: seq<Tree<Item>>, Rl: set<object>, Rr: set<object>)
    requires |ts| == MAX_KEYS + 2
    requires n.Arrays() && right.Arrays() && n.Own() !! right.Own()
    requires KidsValid(n.Branches(), ts[..MIN_KEYS + 1], Rl) && KidsValid(right.Branches(), ts[MIN_KEYS + 1..], Rr)
    requires n.Own() + right.Own() !! Rl + Rr && Rl !! Rr
    modifies n`tree, n`Repr, right`tree, right`Repr
    ensures n.Valid() && n.tree == Node(n.Keys(), ts[..MIN_KEYS + 1]) && n.Repr == n.Own() + Rl
    ensures right.Valid() && right.tree == Node(right.Keys(), ts[MIN_KEYS + 1..]) && right.Repr == right.Own() + Rr
  {
    Adopt(n, ts[..MIN_KEYS + 1], Rl);
    Adopt(right, ts[MIN_KEYS + 1..], Rr);
  }

  /** What a push leaves behind besides the nodes: whether an item moves up, which one and the
      subtree to its right; else the slot that keeps the item, or the equal item found. */
  datatype Outcome = Outcome(moveUp: bool, item: Item, right: BTNode?, slot: BTNode?, pos: nat, found: bool)

  /** A push of item, comparing by f, into n's subtree gave r and left o and kept behind: n and
      o.right stand for r, and unless the item is itself on its way up, place o.pos of node o.slot
      keeps it (or the equal item found). */
  ghost predicate PushDone(r: Pushed<Item>, f: Item -> int, item: Item, n: BTNode?, o: Outcome, kept: Item)
    reads n, Area(n), o.right, Area(o.right)
  {
    o.moveUp == r.Up? &&
    match r
    case Stay(t, found) =>
      && n != null && n.Valid() && n.tree == t && o.found == found && o.right == null
      && n.HasSlot(o.slot, o.pos, kept) && (if found then f(kept) == 0 else kept == item)
    case Up(left, mid, right) =>
      && Stands(n, left, Area(n)) && mid == o.item && Stands(o.right, right, Area(o.right))
      && Area(n) !! Area(o.right) && !o.found && kept == item
      && (n == null ==> o.item == item)
      && (n != null ==> o.right != null)
      && (o.item != item ==> n != null && (n.HasSlot(o.slot, o.pos, item) || o.right.HasSlot(o.slot, o.pos, item)))
  }

  /** Inserts item below n, which may be no node at all. */
  method PushDown(n: BTNode?, item: Item, f: Item -> int, ghost h: nat) returns (o: Outcome, ghost kept: Item)
    requires Stands(n, TreeOf(n), Area(n)) && Shape(TreeOf(n), h) && Strict(f, Items(TreeOf(n)))
    modifies Area(n)
    ensures PushDone(Push(old(TreeOf(n)), h, f, item), f, item, n, o, kept)
    ensures fresh(Area(n) + Area(o.right) - old(Area(n)))
    decreases h, 1
  {
    if n == null { return Outcome(true, item, null, null, 0, false), item; }
    StrictKeys(f, n.tree.keys, n.tree.kids);
    var found, location := n.SearchNode(f);
    SearchIsRank(f, n.Keys(), found, location);
    if found {
      return Outcome(false, item, null, n, location, true), n.key[location];
    } else {
      o, kept := PushIntoChild(n, location, item, f, h);
    }
  }

  /** What the recursive call on child p needs to know, and how its result becomes the node's. */
  lemma OpenChild(n: BTNode, p: nat, h: nat, f: Item -> int, item: Item)
    requires n.Valid() && h > 0 && Shape(n.tree, h) && Strict(f, Items(n.tree))
    requires !HasEqual(f, n.tree.keys) && Rank(f, n.tree.keys) == p
    ensures p <= n.count
    ensures var k, ts := n.branch[p], n.tree.kids;
      && Opened(n, p, ts, n.Repr - n.Own() - Area(k))
      && Stands(k, TreeOf(k), Area(k)) && Area(k) <= n.Repr && Area(k) !! n.Own()
      && Shape(TreeOf(k), h - 1) && Strict(f, Items(TreeOf(k)))
      && Push(n.tree, h, f, item) == PutBack(n.Keys(), ts, p, Push(TreeOf(k), h - 1, f, item))
  {
    var keys, ts := n.tree.keys, n.tree.kids;
    SplitOff(n, p);
    RankSplits(f, keys);
    ChildSplits(f, keys, ts, p, Before(keys[..p], ts[..p]), After(keys[p..], ts[p + 1..]));
  }

  method PushIntoChild(n: BTNode, location: int, item: Item, f: Item -> int, ghost h: nat) returns (o: Outcome, ghost kept: Item)
    requires n.Valid() && h > 0 && Shape(n.tree, h) && Strict(f, Items(n.tree))
    requires !HasEqual(f, n.tree.keys) && Rank(f, n.tree.keys) == location + 1
    modifies n.Repr
    ensures PushDone(Push(old(n.tree), h, f, item), f, item, n, o, kept)
    ensures fresh(n.Repr + Area(o.right) - old(n.Repr))
    decreases h, 0
  {
    hide KidsValid, Stands, PushDone, Opened, Push, PutBack, Shape, Strict, Items, HasEqual;
    OpenChild(n, location + 1, h, f, item);
    var k := n.branch[location + 1];
    ghost var ts, R, r := n.tree.kids, n.Repr - n.Own() - Area(k), Push(TreeOf(k), h - 1, f, item);
    o, kept := PushDown(k, item, f, h - 1);
    assert Opened(n, location + 1, ts, R);
    ghost var below := R + Area(k) + Area(o.right);
    assert fresh(below - (R + old(Area(k))));
    if !o.moveUp {
      CloseStay(n, location + 1, ts, R, r, f, item, o, kept);
    } else {
      o := CloseUp(n, location, o, item, ts, R, r, f);
    }
    assert fresh(n.Repr + Area(o.right) - (n.Own() + below));
  }

  ghost method CloseStay(n: BTNode, p: nat, ts: seq<Tree<Item>>, R: set<object>, r: Pushed<Item>, f: Item -> int, item: Item, o: Outcome, kept: Item)
    requires Opened(n, p, ts, R) && r.Stay?
    requires PushDone(r, f, item, n.branch[p], o, kept)
    requires Area(n.branch[p]) !! R + n.Own()
    modifies n`tree, n`Repr
    ensures PushDone(PutBack(n.Keys(), ts, p, r), f, item, n, o, kept)
    ensures n.Repr == n.Own() + R + Area(n.branch[p])
  {
    var rts := ts[..p] + ts[p + 1..];
    Refit(n, p, rts, R);
    assert rts[..p] + [r.tree] + rts[p..] == ts[p := r.tree];
    SlotInChild(n, p, o.slot, o.pos, kept);
  }

  lemma PairSeq<T>(s: seq<T>, p: nat, x: T, y: T)
    requires p < |s|
    ensures var t := s[..p] + s[p + 1..]; t[..p] + [x, y] + t[p..] == s[..p] + [x, y] + s[p + 1..]
    ensures x == s[p] ==> s[..p] + [x, y] + s[p + 1..] == s[..p + 1] + [y] + s[p + 1..]
  {}

  /** The children n will have once the subtree right hangs in to the right of child p. */
  lemma PrepareUp(n: BTNode, p: nat, right: BTNode?, ts: seq<Tree<Item>>, R: set<object>)
    requires Opened(n, p, ts, R)
    requires var k := n.branch[p]; Stands(k, TreeOf(k), Area(k)) && Area(k) !! Area(right) && Area(k) !! R
    requires Stands(right, TreeOf(right), Area(right)) && Area(right) !! R
    ensures var k := n.branch[p];
      KidsValid(n.Branches()[..p + 1] + [right] + n.Branches()[p + 1..], ts[..p] + [TreeOf(k), TreeOf(right)] + ts[p + 1..], R + Area(right) + Area(k))
  {
    hide KidsValid, Stands;
    var k, ns := n.branch[p], n.Branches();
    PairIn(ns[..p] + ns[p + 1..], ts[..p] + ts[p + 1..], R, p, k, right);
    PairSeq(ns, p, k, right);
    PairSeq(ts, p, TreeOf(k), TreeOf(right));
  }

  method CloseUp(n: BTNode, location: int, o': Outcome, item: Item, ghost ts: seq<Tree<Item>>, ghost R: set<object>, ghost r: Pushed<Item>, ghost f: Item -> int)
    returns (o: Outcome)
    requires -1 <= location < n.count && Opened(n, location + 1, ts, R) && r.Up?
    requires PushDone(r, f, item, n.branch[location + 1], o', item)
    requires Area(n.branch[location + 1]) !! R + n.Own() && Area(o'.right) !! R + n.Own()
    modifies n, n.key, n.branch
    ensures PushDone(PutBack(old(n.Keys()), ts, location + 1, r), f, item, n, o, item)
    ensures var below := R + Area(old(n.branch[location + 1])) + Area(o'.right);
      n.Repr <= n.Own() + below && fresh(Area(o.right) - below)
  {
    ghost var p, k := location + 1, n.branch[location + 1];
    ghost var ts' := ts[..p] + [TreeOf(k), TreeOf(o'.right)] + ts[p + 1..];
    ghost var S := R + Area(o'.right) + Area(k);
    PrepareUp(n, p, o'.right, ts, R);
    if n.count < MAX_KEYS {
      o := CloseUpRoom(n, location, o', item, ts', S, k);
    } else {
      o := CloseUpFull(n, location, o', item, ts', S, k);
    }
  }

  method CloseUpRoom(n: BTNode, location: int, o': Outcome, item: Item, ghost ts: seq<Tree<Item>>, ghost R: set<object>, ghost k: BTNode?)
    returns (o: Outcome)
    requires n.Arrays() && -1 <= location < n.count < MAX_KEYS && n.Own() !! R && k == n.branch[location + 1]
    requires KidsValid(n.Branches()[..location + 2] + [o'.right] + n.Branches()[location + 2..], ts, R)
    requires Area(k) + Area(o'.right) <= R && Slotted(o', item, k, o'.right)
    modifies n, n.key, n.branch
    ensures n.Valid() && n.Repr == n.Own() + R
    ensures n.tree == Node(old(n.Keys())[..location + 1] + [o'.item] + old(n.Keys())[location + 1..], ts)
    ensures !o.moveUp && !o.found && o.right == null && n.HasSlot(o.slot, o.pos, item)
  {
    var p := location + 1;
    TakeIn(n, location, o'.item, o'.right, ts, R);
    if o'.item == item {
      assert n.Keys()[p] == item;
      o := Outcome(false, item, null, n, p, false);
    } else {
      assert n.Branches()[p] == k && n.Branches()[p + 1] == o'.right;
      SlotAmong(n, p, o', item, k);
      o := Outcome(false, item, null, o'.slot, o'.pos, false);
    }
  }

  /** The slot of an item that is not on its way up lies below one of two children. */
  ghost predicate Slotted(o: Outcome, item: Item, k: BTNode?, right: BTNode?)
    reads k, Area(k), right, Area(right)
  {
    o.item != item ==>
      && k != null && right != null && k.Valid() && right.Valid()
      && (k.HasSlot(o.slot, o.pos, item) || right.HasSlot(o.slot, o.pos, item))
  }

  lemma SlotAmong(n: BTNode, p: nat, o: Outcome, item: Item, k: BTNode?)
    requires n.Valid() && p < n.count && n.branch[p] == k && o.item != item && Slotted(o, item, k, n.branch[p + 1])
    ensures n.HasSlot(o.slot, o.pos, item)
  {
    if k.HasSlot(o.slot, o.pos, item) {
      SlotInChild(n, p, o.slot, o.pos, item);
    } else {
      SlotInChild(n, p + 1, o.slot, o.pos, item);
    }
  }

  method CloseUpFull(n: BTNode, location: int, o': Outcome, item: Item, ghost ts: seq<Tree<Item>>, ghost R: set<object>, ghost k: BTNode?)
    returns (o: Outcome)
    requires n.Arrays() && -1 <= location < n.count == MAX_KEYS && n.Own() !! R && k == n.branch[location + 1]
    requires KidsValid(n.Branches()[..location + 2] + [o'.right] + n.Branches()[location + 2..], ts, R)
    requires Area(k) + Area(o'.right) <= R && Slotted(o', item, k, o'.right)
    modifies n, n.key, n.branch
    ensures n.Valid() && n.Repr <= n.Own() + R
    ensures o.moveUp && !o.found && o.right != null && o.right.Valid() && n.Repr !! o.right.Repr && fresh(o.right.Repr - R)
    ensures Cut(old(n.Keys())[..location + 1] + [o'.item] + old(n.Keys())[location + 1..], ts) == Up(n.tree, o.item, o.right.tree)
    ensures Slotted(o, item, n, o.right)
  {
    ghost var keys := n.Keys()[..location + 1] + [o'.item] + n.Keys()[location + 1..];
    ghost var kids := n.Branches()[..location + 2] + [o'.right] + n.Branches()[location + 2..];
    var mid, right := TakeInSplit(n, location, o'.item, o'.right, ts, R);
    if o'.item == item {
      if location < MIN_KEYS {
        o := Outcome(true, mid, right, n, location + 1, false);
      } else {
        o := Outcome(true, mid, right, right, location - MIN_KEYS, false);
      }
      SlotOfKey(n, right, keys, location, mid, item);
    } else {
      o := Outcome(true, mid, right, o'.slot, o'.pos, false);
      assert kids[location + 1] == k && kids[location + 2] == o'.right;
      SlotSplit(n, right, kids, location + 1, o', item);
    }
  }

  lemma SlotOfKey(n: BTNode, right: BTNode, keys: seq<Item>, location: int, mid: Item, item: Item)
    requires n.Valid() && right.Valid() && |keys| == MAX_KEYS + 1 && -1 <= location < MAX_KEYS && keys[location + 1] == item
    requires n.Keys() == keys[..MIN_KEYS] && mid == keys[MIN_KEYS] && right.Keys() == keys[MIN_KEYS + 1..]
    ensures mid != item ==> if location < MIN_KEYS then n.HasSlot(n, location + 1, item) else right.HasSlot(right, location - MIN_KEYS, item)
  {
    if mid != item {
      if location < MIN_KEYS {
        assert n.Keys()[location + 1] == item;
      } else {
        assert right.Keys()[location - MIN_KEYS] == item;
      }
    }
  }

  lemma SlotSplit(n: BTNode, right: BTNode, kids: seq<BTNode?>, p: nat, o: Outcome, item: Item)
    requires n.Valid() && right.Valid() && |kids| == MAX_KEYS + 2 && p < MAX_KEYS + 1
    requires n.Branches() == kids[..MIN_KEYS + 1] && right.Branches() == kids[MIN_KEYS + 1..]
    requires o.item != item && Slotted(o, item, kids[p], kids[p + 1])
    ensures n.HasSlot(o.slot, o.pos, item) || right.HasSlot(o.slot, o.pos, item)
  {
    var c := if kids[p].HasSlot(o.slot, o.pos, item) then p else p + 1;
    if c <= MIN_KEYS {
      assert n.Branches()[c] == kids[c];
      SlotInChild(n, c, o.slot, o.pos, item);
    } else {
      assert right.Branches()[c - MIN_KEYS - 1] == kids[c];
      SlotInChild(right, c - MIN_KEYS - 1, o.slot, o.pos, item);
    }
  }
}
