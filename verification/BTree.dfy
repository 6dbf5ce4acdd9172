/** The tree object: root, item count, and the operations the engine calls. */
module BTreeStore {
  import opened Wrappers
  import opened BTreeModel
  import opened BTreeRemove
  import opened BTreeHealth
  import opened BTreeNode
  import opened BTreeInsert
  import opened BTreeDelete
  import opened BTreeCursor

  class BTree {
    var root: BTNode?
    var numItems: nat
    ghost var height: nat
    const rank: Item -> int   // the comparison function of every call is a difference of ranks

    constructor (rank: Item -> int)
      ensures Valid() && Contents() == [] && this.rank == rank
    {
      this.rank := rank;
      root := null;
      numItems := 0;
      height := 0;
    }

    ghost predicate Valid()
      reads this, root, Area(root)
    {
      && this !in Area(root) && Stands(root, TreeOf(root), Area(root))
      && Healthy(TreeOf(root), height, rank) && numItems == |Contents()|
    }

    /** The stored items in order. */
    ghost function Contents(): seq<Item>
      reads this, root
    {
      Items(TreeOf(root))
    }

    /** Stores item unless an equal one is there; place pos of node slot then holds whichever is. */
    method Insert(item: Item) returns (slot: BTNode?, pos: nat, found: bool, ghost kept: Item)
      requires Valid()
      modifies this, Area(root)
      ensures Valid() && fresh(Area(root) - old(Area(root)))
      ensures Contents() == SeqInsert(old(Contents()), Compare(rank, item), item)
      ensures found == HasEqual(Compare(rank, item), old(Contents()))
      ensures root != null && root.HasSlot(slot, pos, kept)
      ensures slot != null && slot in Area(root) && pos < slot.count && pos < slot.key.Length && slot.key[pos] == kept
      ensures if found then rank(kept) == rank(item) else kept == item
    {
      hide Healthy, Items, Push, SeqInsert, HasEqual, Strict, Shape, Compare, KidsValid, BTNode.Valid, BTNode.HasSlot, PushDone, InsertPlanned, Grown;
      InsertPlan(TreeOf(root), height, rank, item);
      ghost var r := Push(TreeOf(root), height, Compare(rank, item), item);
      ghost var n := numItems;
      var o;
      o, kept := PushDown(root, item, Compare(rank, item), height);
      slot, pos := Settle(o, item, r, kept);
      found := o.found;
      InsertedAsPlanned(old(TreeOf(root)), old(height), item, r, found, n);
      root.SlotHolds(slot, pos, kept);
    }

    lemma InsertedAsPlanned(t: Tree<Item>, h: nat, item: Item, r: Pushed<Item>, found: bool, n: nat)
      requires InsertPlanned(t, h, rank, item, r) && n == |Items(t)|
      requires TreeOf(root) == Grown(r) && found == (r.Stay? && r.found)
      requires height == h + (if r.Up? then 1 else 0) && numItems == n + (if found then 0 else 1)
      ensures Healthy(TreeOf(root), height, rank) && numItems == |Contents()|
      ensures Contents() == SeqInsert(Items(t), Compare(rank, item), item) && found == HasEqual(Compare(rank, item), Items(t))
      ensures forall kept: Item :: Compare(rank, item)(kept) == 0 ==> rank(kept) == rank(item)
    {}

    /** The root and the count after a push that gave r and left o. */
    method Settle(o: Outcome, item: Item, ghost r: Pushed<Item>, ghost kept: Item) returns (slot: BTNode?, pos: nat)
      requires this !in Area(root) + Area(o.right) && PushDone(r, Compare(rank, item), item, root, o, kept)
      modifies this`root, this`height, this`numItems
      ensures root != null && Stands(root, TreeOf(root), Area(root)) && this !in Area(root)
      ensures fresh(Area(root) - old(Area(root)) - Area(o.right))
      ensures TreeOf(root) == Grown(r) && o.found == (r.Stay? && r.found)
      ensures height == old(height) + (if r.Up? then 1 else 0) && numItems == old(numItems) + (if o.found then 0 else 1)
      ensures root.HasSlot(slot, pos, kept) && if o.found then Compare(rank, item)(kept) == 0 else kept == item
    {
      slot, pos := o.slot, o.pos;
      if o.moveUp {
        slot, pos := GrowRoot(o, item);
      }
      if !o.found { numItems := numItems + 1; }
    }

    /** A new root over the old one and what came up from it. */
    method GrowRoot(o: Outcome, item: Item) returns (slot: BTNode?, pos: nat)
      requires this !in Area(root) + Area(o.right)
      requires Stands(root, TreeOf(root), Area(root)) && Stands(o.right, TreeOf(o.right), Area(o.right)) && Area(root) !! Area(o.right)
      requires o.item != item ==> root != null && o.right != null && (root.HasSlot(o.slot, o.pos, item) || o.right.HasSlot(o.slot, o.pos, item))
      modifies this`root, this`height
      ensures root != null && root.Valid() && fresh(root.Repr - old(Area(root)) - Area(o.right)) && this !in root.Repr
      ensures root.tree == Node([o.item], [old(TreeOf(root)), TreeOf(o.right)]) && height == old(height) + 1
      ensures root.HasSlot(slot, pos, item)
    {
      var left := root;
      root := NewRoot(o.item, root, o.right);
      height := height + 1;
      if o.item == item {
        slot, pos := root, 0;
      } else {
        slot, pos := o.slot, o.pos;
        if left.HasSlot(slot, pos, item) {
          SlotInChild(root, 0, slot, pos, item);
        } else {
          SlotInChild(root, 1, slot, pos, item);
        }
      }
    }

    /** Removes the item equal to the given one, if there is one, and returns it. */
    method Delete(item: Item) returns (itemFound: Option<Item>)
      requires Valid()
      modifies this, Area(root)
      ensures Valid() && Area(root) <= old(Area(root))
      ensures Contents() == SeqRemove(old(Contents()), Compare(rank, item))
      ensures itemFound == SeqFind(old(Contents()), Compare(rank, item))
    {
      if root == null { return None; }
      itemFound := DeleteSome(item);
    }

    method DeleteSome(item: Item) returns (itemFound: Option<Item>)
      requires Valid() && root != null
      modifies this, Area(root)
      ensures Valid() && Area(root) <= old(Area(root))
      ensures Contents() == SeqRemove(old(Contents()), Compare(rank, item))
      ensures itemFound == SeqFind(old(Contents()), Compare(rank, item))
    {
      hide Healthy, SettledHeight, Items, Deleted, DeletePlanned, SeqRemove, SeqFind, Strict, Shape, Compare, KidsValid, BTNode.Valid, Trim;
      CountIsSize(root);
      DeletePlan(root.tree, height, rank, item);
      ghost var r := Deleted(root.tree, height, Compare(rank, item), false);
      ghost var n := numItems;
      itemFound := DeleteFromRoot(item);
      if itemFound.Some? { numItems := numItems - 1; }
      SettleHeight(old(TreeOf(root)), item, r, n);
    }

    ghost method SettleHeight(t: Tree<Item>, item: Item, r: Removed<Item>, n: nat)
      requires this !in Area(root) && Stands(root, TreeOf(root), Area(root))
      requires DeletePlanned(t, height, rank, item, r) && n == |Items(t)|
      requires TreeOf(root) == Trim(r.tree) && numItems == n - (if r.item.Some? then 1 else 0)
      modifies this`height
      ensures Valid() && Contents() == SeqRemove(Items(t), Compare(rank, item)) && r.item == SeqFind(Items(t), Compare(rank, item))
    {
      hide Healthy, SettledHeight, Items, DeletePlanned, SeqRemove, SeqFind, Compare, Trim, Stands;
      DeletedAsPlanned(t, height, item, r, n);
      height := SettledHeight(TreeOf(root), height, rank);
      MakeValid();
    }

    lemma MakeValid()
      requires this !in Area(root) && Stands(root, TreeOf(root), Area(root))
      requires Healthy(TreeOf(root), height, rank) && numItems == |Contents()|
      ensures Valid()
    {}

    method DeleteFromRoot(item: Item) returns (itemFound: Option<Item>)
      requires root != null && root.Valid() && this !in root.Repr && Shape(root.tree, height) && height > 0 && |root.tree.keys| > 0
      requires Strict(Compare(rank, item), Items(root.tree))
      modifies this`root, root.Repr
      ensures Stands(root, TreeOf(root), Area(root)) && Area(root) <= old(Area(root))
      ensures var r := Deleted(old(root.tree), height, Compare(rank, item), false);
        TreeOf(root) == Trim(r.tree) && itemFound == r.item
    {
      hide Shape, Items, Strict, Deleted, KidsValid;
      var reorder;
      reorder, itemFound := BTreeDelete.Delete(root, Compare(rank, item), false, height);
      if root.count == 0 {
        root := null;
      }
    }

    lemma DeletedAsPlanned(t: Tree<Item>, h: nat, item: Item, r: Removed<Item>, n: nat)
      requires DeletePlanned(t, h, rank, item, r) && n == |Items(t)|
      requires TreeOf(root) == Trim(r.tree) && numItems == n - (if r.item.Some? then 1 else 0)
      ensures Healthy(TreeOf(root), SettledHeight(TreeOf(root), h, rank), rank)
      ensures numItems == |Contents()| && Contents() == SeqRemove(Items(t), Compare(rank, item))
      ensures r.item == SeqFind(Items(t), Compare(rank, item)) && (r.item.Some? ==> n > 0)
    {}

    /** The stored item equal to the given one. */
    method Find(item: Item) returns (r: Option<Item>)
      requires Valid()
      ensures r == SeqFind(Contents(), Compare(rank, item))
    {
      SortedStrict(rank, Contents(), item);
      r := FindFrom(root, Compare(rank, item), height);
    }

    /** A cursor before the first item. */
    method GetIterator() returns (state: BTState)
      requires Valid()
      ensures fresh(state.Own()) && state.Valid(Area(root), height)
      ensures numItems < 120932351 ==> height <= FRAMES
      ensures Remaining(state.frames) == Contents()
    {
      if numItems < 120932351 { HeightBound(TreeOf(root), height); }
      EmptyFrames();
      assert Shape(TreeOf(root), height) && Stands(root, TreeOf(root), Area(root));
      hide Healthy, Items, Shape, KidsValid, BTNode.Valid, Remaining;
      state := new BTState();
      if root != null {
        EnterRoot(state, root, height);
      }
    }

    /** Every item, by walking a cursor until it yields nothing. */
    method WalkBy() returns (items: seq<Item>)
      requires Valid() && numItems < 120932351
      ensures items == Contents()
    {
      var state := GetIterator();
      items := Drain(state, Area(root), height);
    }

    /** A cursor on the first item that lies beyond the limit of func, which agrees with the order. */
    method FindBiggerThan(func: Item -> int) returns (state: BTState, ghost pre: seq<Item>)
      requires Valid() && numItems < 120932351 && Mono(func, Contents())
      ensures fresh(state.Own()) && state.Valid(Area(root), height) && height <= FRAMES
      ensures Contents() == pre + Remaining(state.frames)
      ensures NoneBeyond(func, pre) && NoneBefore(func, Remaining(state.frames))
    {
      HeightBound(TreeOf(root), height);
      state := new BTState();
      pre := [];
      if root != null {
        pre := SearchNodeBiggerThan(root, func, state, height);
      }
    }
  }

  lemma EmptyFrames()
    ensures Remaining([]) == [] && Items<Item>(Nil) == []
  {}

  /** The first frame of a cursor. */
  method EnterRoot(state: BTState, root: BTNode, ghost h: nat)
    requires state.Valid(root.Repr, h) && state.level == -1 && root.Valid() && Shape(root.tree, h)
    modifies state, state.node, state.loc
    ensures state.Valid(root.Repr, h) && Remaining(state.frames) == Items(root.tree)
  {
    RootFrame(root, h);
    assert state.frames == [] && root.tree.Node?;
    hide Items, Shape, KidsValid, BTNode.Valid, Remaining, BTState.Valid;
    state.Push(root, root.Repr, h);
    assert state.frames == [] + [Frame(root.tree, 0)] == [Frame(root.tree, 0)];
  }

  lemma RootFrame(n: BTNode, h: nat)
    requires n.Valid() && Shape(n.tree, h)
    ensures h > 0 && Shape(n.tree, h - 0) && Remaining([Frame(n.tree, 0)]) == Items(n.tree)
  {
    var fr := Frame(n.tree, 0);
    FirstFrame(n.tree);
    hide Items, Tail, TopChild, BTNode.Valid, Shape;
    assert Pending([fr]) == Tail(fr) + [] by { assert [fr][..0] == []; }
    assert Tail(fr) + [] == Tail(fr);
  }

  /** What a cursor has still to yield, by walking it until it yields nothing. */
  method Drain(state: BTState, ghost R: set<object>, ghost h: nat) returns (items: seq<Item>)
    requires state.Valid(R, h) && h <= FRAMES
    modifies state, state.node, state.loc
    ensures state.Valid(R, h) && Remaining(state.frames) == [] && items == old(Remaining(state.frames))
  {
    hide Remaining, BTState.Valid;
    ghost var all := Remaining(state.frames);
    items := [];
    var item := state.Walk(R, h);
    Resume([], all);
    while item.Some?
      invariant state.Valid(R, h)
      invariant all == items + Next(item) + Remaining(state.frames)
      invariant item.None? ==> Remaining(state.frames) == []
      decreases |all| - |items|
    {
      items := items + [item.value];
      Resume(items, Remaining(state.frames));
      item := state.Walk(R, h);
    }
  }

  ghost function Next(item: Option<Item>): seq<Item> {
    if item.Some? then [item.value] else []
  }

  lemma Resume(items: seq<Item>, rest: seq<Item>)
    ensures rest == [] ==> items + rest == items + Next(None) + rest
    ensures rest != [] ==> items + rest == items + Next(Some(rest[0])) + rest[1..]
  {}

  lemma CountIsSize(n: BTNode)
    requires n.Valid()
    ensures n.tree.Node? && n.count == |n.tree.keys|
  {}

  /** What a push from the root of t has done when it gave r. */
  ghost predicate InsertPlanned(t: Tree<Item>, h: nat, rank: Item -> int, item: Item, r: Pushed<Item>) {
    var f, d := Compare(rank, item), Grown(r);
    var found := r.Stay? && r.found;
    && Healthy(d, h + (if r.Up? then 1 else 0), rank)
    && Items(d) == SeqInsert(Items(t), f, item) && found == HasEqual(f, Items(t))
    && |Items(d)| == |Items(t)| + (if found then 0 else 1)
  }

  lemma InsertPlan(t: Tree<Item>, h: nat, rank: Item -> int, item: Item)
    requires Healthy(t, h, rank)
    ensures Shape(t, h) && Strict(Compare(rank, item), Items(t))
    ensures InsertPlanned(t, h, rank, item, Push(t, h, Compare(rank, item), item))
  {
    PlanShape(t, h, rank, item);
    hide Items, Healthy, Strict, Shape, Push, HasEqual, SeqInsert, Compare, Grown, GrownHeight, InsertPlanned;
    PlanItems(t, h, Compare(rank, item), item);
    PlanHealthy(t, h, rank, item);
    Planned(t, h, rank, item, Push(t, h, Compare(rank, item), item), GrownHeight(t, h, Compare(rank, item), item));
  }

  lemma Planned(t: Tree<Item>, h: nat, rank: Item -> int, item: Item, r: Pushed<Item>, k: nat)
    requires k == h + (if r.Up? then 1 else 0) && Healthy(Grown(r), k, rank)
    requires Items(Grown(r)) == SeqInsert(Items(t), Compare(rank, item), item)
    requires r.Stay? && r.found <==> HasEqual(Compare(rank, item), Items(t))
    requires |Items(Grown(r))| == |Items(t)| + (if r.Stay? && r.found then 0 else 1)
    ensures InsertPlanned(t, h, rank, item, r)
  {
    hide Items, Healthy, HasEqual, SeqInsert, Compare, Grown;
  }

  lemma PlanShape(t: Tree<Item>, h: nat, rank: Item -> int, item: Item)
    requires Healthy(t, h, rank)
    ensures Shape(t, h) && Strict(Compare(rank, item), Items(t))
    ensures GrownHeight(t, h, Compare(rank, item), item) == h + (if Push(t, h, Compare(rank, item), item).Up? then 1 else 0)
  {
    SortedStrict(rank, Items(t), item);
  }

  lemma PlanItems(t: Tree<Item>, h: nat, f: Item -> int, item: Item)
    requires Shape(t, h) && Strict(f, Items(t))
    ensures var r := Push(t, h, f, item);
      && Items(Grown(r)) == SeqInsert(Items(t), f, item) && (r.Stay? && r.found <==> HasEqual(f, Items(t)))
      && |Items(Grown(r))| == |Items(t)| + (if r.Stay? && r.found then 0 else 1)
  {
    PushItems(t, h, f, item);
    InsertItems(t, h, f, item);
    SeqInsertLength(Items(t), f, item);
  }

  lemma PlanHealthy(t: Tree<Item>, h: nat, rank: Item -> int, item: Item)
    requires Healthy(t, h, rank)
    ensures Healthy(Grown(Push(t, h, Compare(rank, item), item)), GrownHeight(t, h, Compare(rank, item), item), rank)
  {
    hide Healthy;
    InsertKeepsHealthy(t, h, rank, item);
  }

  lemma SeqInsertLength(s: seq<Item>, f: Item -> int, x: Item)
    ensures |SeqInsert(s, f, x)| == |s| + (if HasEqual(f, s) then 0 else 1)
  {}

  /** The height of a tree known to have height h or one less. */
  ghost function SettledHeight(t: Tree<Item>, h: nat, rank: Item -> int): nat {
    if Healthy(t, h, rank) || h == 0 then h else h - 1
  }

  /** What a deletion from the root of t has done when it gave r. */
  ghost predicate DeletePlanned(t: Tree<Item>, h: nat, rank: Item -> int, item: Item, r: Removed<Item>) {
    var f, d := Compare(rank, item), Trim(r.tree);
    && h > 0 && r.item == SeqFind(Items(t), f) && Items(d) == SeqRemove(Items(t), f)
    && |Items(d)| == |Items(t)| - (if r.item.Some? then 1 else 0)
    && (Healthy(d, h, rank) || Healthy(d, h - 1, rank))
  }

  lemma DeletePlan(t: Tree<Item>, h: nat, rank: Item -> int, item: Item)
    requires Healthy(t, h, rank) && t.Node?
    ensures Shape(t, h) && Strict(Compare(rank, item), Items(t)) && h > 0 && |t.keys| > 0
    ensures SeqFind(Items(t), Compare(rank, item)).Some? ==> |Items(t)| > 0
    ensures var r := Deleted(t, h, Compare(rank, item), false);
      DeletePlanned(t, h, rank, item, r) && r.item == SeqFind(Items(t), Compare(rank, item))
  {
    var f := Compare(rank, item);
    SortedStrict(rank, Items(t), item);
    RemoveItems(t, h, f);
    RemoveKeepsHealthy(t, h, rank, item);
    RemovedRoot(t, h, f);
  }

  method FindFrom(root: BTNode?, f: Item -> int, ghost h: nat) returns (r: Option<Item>)
    requires Stands(root, TreeOf(root), Area(root)) && Shape(TreeOf(root), h) && Strict(f, Items(TreeOf(root)))
    ensures r == SeqFind(Items(TreeOf(root)), f)
  {
    var current := root;
    ghost var k := h;
    while current != null
      invariant Stands(current, TreeOf(current), Area(current)) && Shape(TreeOf(current), k) && Strict(f, Items(TreeOf(current)))
      invariant SeqFind(Items(TreeOf(root)), f) == SeqFind(Items(TreeOf(current)), f)
      decreases k
    {
      var found, location := Locate(current, f, k);
      if found { return Some(current.key[location]); }
      current := current.branch[location + 1];
      k := k - 1;
    }
    r := None;
  }

  method Locate(n: BTNode, f: Item -> int, ghost h: nat) returns (found: bool, location: int)
    requires n.Valid() && h > 0 && Shape(n.tree, h) && Strict(f, Items(n.tree))
    ensures -1 <= location < n.count && n.Arrays()
    ensures found ==> location >= 0 && SeqFind(Items(n.tree), f) == Some(n.key[location])
    ensures !found ==> var k := n.branch[location + 1];
      && Stands(k, TreeOf(k), Area(k)) && Shape(TreeOf(k), h - 1) && Strict(f, Items(TreeOf(k)))
      && SeqFind(Items(n.tree), f) == SeqFind(Items(TreeOf(k)), f)
  {
    LocatePlan(n, f, h);
    hide Items, Strict, Shape, KidsValid, BTNode.Valid, SeqFind, HasEqual;
    found, location := n.SearchNode(f);
    SearchIsRank(f, n.Keys(), found, location);
  }

  lemma LocatePlan(n: BTNode, f: Item -> int, h: nat)
    requires n.Valid() && h > 0 && Shape(n.tree, h) && Strict(f, Items(n.tree))
    ensures Strict(f, n.Keys()) && Mono(f, n.Keys())
    ensures var p := Rank(f, n.Keys());
      if HasEqual(f, n.Keys()) then p < n.count && SeqFind(Items(n.tree), f) == Some(n.key[p])
      else p <= n.count && var k := n.branch[p];
        && Stands(k, TreeOf(k), Area(k)) && Shape(TreeOf(k), h - 1) && Strict(f, Items(TreeOf(k)))
        && SeqFind(Items(n.tree), f) == SeqFind(Items(TreeOf(k)), f)
  {
    var keys, kids, p := n.tree.keys, n.tree.kids, Rank(f, n.tree.keys);
    StrictKeys(f, keys, kids);
    if HasEqual(f, keys) {
      RemoveFoundKey(f, keys, kids, p);
    } else {
      ChildStands(n, p);
      RankSplits(f, keys);
      var a, c := Before(keys[..p], kids[..p]), After(keys[p..], kids[p + 1..]);
      ChildSplits(f, keys, kids, p, a, c);
      RankFrame(f, a, Items(kids[p]), c);
    }
  }

  /** A node with one key and two branches. */
  method NewRoot(item: Item, left: BTNode?, right: BTNode?) returns (n: BTNode)
    requires Stands(left, TreeOf(left), Area(left)) && Stands(right, TreeOf(right), Area(right)) && Area(left) !! Area(right)
    ensures n.Valid() && fresh(n.Repr - Area(left) - Area(right)) && n.tree == Node([item], [TreeOf(left), TreeOf(right)])
    ensures n.count == 1 && n.key[0] == item && n.branch[0] == left && n.branch[1] == right
  {
    n := new BTNode();
    n.count := 1;
    n.key[0], n.branch[0], n.branch[1] := item, left, right;
    PairIn([], [], {}, 0, left, right);
    assert [] + [left, right] + [] == n.Branches() && n.Keys() == [item];
    assert [] + [TreeOf(left), TreeOf(right)] + [] == [TreeOf(left), TreeOf(right)];
    Adopt(n, [TreeOf(left), TreeOf(right)], {} + Area(right) + Area(left));
  }
}
