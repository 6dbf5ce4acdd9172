/** The nodes of the B-tree as the engine keeps them: fixed arrays of keys and branches that the
    operations shift in place. Each method is proved to turn the tree its node stands for into
    the tree that the function of BTreeModel gives. */
module BTreeNode {
  import opened BTreeModel
  import opened BTreeRemove
  import opened BTreeHealth

  /** A stored pointer: what the comparison functions look at, and which object it is. */
  datatype Item = Item(rank: int, id: int)

  class BTNode {
    var count: nat
    const key: array<Item>
    const branch: array<BTNode?>

    ghost var tree: Tree<Item>     // what this node and everything below it stands for
    ghost var Repr: set<object>    // this node, its arrays, and everything below

    constructor ()
      ensures count == 0 && fresh(key) && fresh(branch)
      ensures key.Length == MAX_KEYS && branch.Length == MAX_KEYS + 1
    {
      count := 0;
      key := new Item[MAX_KEYS](_ => Item(0, 0));
      branch := new BTNode?[MAX_KEYS + 1](_ => null);
      tree := Nil;
      Repr := {};
    }

    ghost function Own(): set<object> { {this, key, branch} }

    /** The keys and branches in use. */
    ghost function Keys(): seq<Item>
      requires key.Length == MAX_KEYS && count <= MAX_KEYS
      reads this, key
    {
      key[..count]
    }

    ghost function Branches(): seq<BTNode?>
      requires branch.Length == MAX_KEYS + 1 && count <= MAX_KEYS
      reads this, branch
    {
      branch[..count + 1]
    }

    ghost predicate Arrays()
      reads this
    {
      key.Length == MAX_KEYS && branch.Length == MAX_KEYS + 1 && count <= MAX_KEYS
    }

    ghost predicate Valid()
      reads this, Repr
      decreases Repr, 0
      ensures Valid() ==> Own() <= Repr && Arrays()
    {
      && Own() <= Repr && Arrays()
      && tree.Node? && tree.keys == Keys()
      && KidsValid(Branches(), tree.kids, Repr - Own())
    }

    /** Place i of node p, somewhere in this subtree, holds x. */
    ghost predicate HasSlot(p: BTNode?, i: nat, x: Item)
      requires Valid()
      reads this, Repr
      decreases Repr, 1
    {
      || (p == this && i < count && key[i] == x)
      || exists c :: 0 <= c < |Branches()| && InChild(Branches()[c], p, i, x)
    }

    ghost predicate InChild(k: BTNode?, p: BTNode?, i: nat, x: Item)
      requires Valid()
      reads this, Repr
      decreases Repr, 0
    {
      k != null && k in Repr && k.Repr <= Repr - Own() && k.Valid() && k.HasSlot(p, i, x)
    }

    /** A slot is a place of a node of the subtree, and holds the item. */
    lemma {:induction false} SlotHolds(p: BTNode?, i: nat, x: Item)
      requires Valid() && HasSlot(p, i, x)
      ensures p != null && p in Repr && i < p.count && i < p.key.Length && p.key[i] == x
      decreases Repr
    {
      if !(p == this && i < count && key[i] == x) {
        var c :| 0 <= c < |Branches()| && InChild(Branches()[c], p, i, x);
        Branches()[c].SlotHolds(p, i, x);
      }
    }

    /** Binary search among the keys of this node. Not found, location is that of the last key the
        target lies beyond, -1 when there is none. */
    method SearchNode(f: Item -> int) returns (found: bool, location: int)
      requires Arrays() && Mono(f, Keys())
      ensures -1 <= location < count
      ensures found ==> location >= 0 && f(key[location]) == 0
      ensures !found ==> AllBefore(f, Keys()[..location + 1]) && AllBeyond(f, Keys()[location + 1..])
    {
      var i, j, result := -1, count as int, 1;
      location := -1;
      while result != 0 && j - i > 1
        invariant -1 <= i < j <= count && -1 <= location < count
        invariant result == 0 ==> location >= 0 && f(key[location]) == 0
        invariant result != 0 ==> location == i || location == j - 1
        invariant i >= 0 ==> f(Keys()[i]) > 0
        invariant j < count ==> f(Keys()[j]) < 0
        invariant result != 0 && j - i <= 1 ==> location == i
        decreases result != 0, j - i
      {
        location := i + (j - i) / 2;
        result := f(key[location]);
        assert key[location] == Keys()[location];
        if result > 0 {
          i := location;
        } else if result < 0 {
          j := location;
          location := location - 1;
        }
      }
      found := result == 0;
    }

    /** Moves the keys from location on, and the branches to their right, one place up. */
    method ShiftUp(location: nat)
      requires Arrays() && count < MAX_KEYS && location <= count
      modifies key, branch
      ensures forall k :: 0 <= k <= location ==> key[k] == old(key[k]) && branch[k] == old(branch[k])
      ensures branch[location + 1] == old(branch[location + 1])
      ensures forall k :: location < k <= count ==> key[k] == old(key[k - 1])
      ensures forall k :: location + 1 < k <= count + 1 ==> branch[k] == old(branch[k - 1])
    {
      var j := count;
      while j > location
        invariant location <= j <= count
        invariant forall k :: 0 <= k <= j ==> key[k] == old(key[k])
        invariant forall k :: j < k <= count ==> key[k] == old(key[k - 1])
        invariant forall k :: 0 <= k <= j + 1 ==> branch[k] == old(branch[k])
        invariant forall k :: j + 1 < k <= count + 1 ==> branch[k] == old(branch[k - 1])
      {
        key[j] := key[j - 1];
        branch[j + 1] := branch[j];
        j := j - 1;
      }
    }

    /** Makes room at location (the end if -1) for a key and the branch to its right. */
    method AddItemToRight(item: Item, right: BTNode?, location: int)
      requires Arrays() && count < MAX_KEYS && -1 <= location <= count
      modifies this`count, key, branch
      ensures Arrays() && count == old(count) + 1
      ensures var l := if location == -1 then old(count) else location;
        && Keys() == old(Keys())[..l] + [item] + old(Keys())[l..]
        && Branches() == old(Branches())[..l + 1] + [right] + old(Branches())[l + 1..]
    {
      var l := if location == -1 then count else location;
      ghost var K, B := Keys(), Branches();
      ShiftUp(l);
      key[l] := item;
      branch[l + 1] := right;
      count := count + 1;
      InsertedAt(K, Keys(), l, item);
      InsertedAt(B, Branches(), l + 1, right);
    }

    /** Makes room at location for a key and the branch to its left. */
    method AddItemToLeft(item: Item, left: BTNode?, location: nat)
      requires Arrays() && count < MAX_KEYS && location <= count
      modifies this`count, key, branch
      ensures Arrays() && count == old(count) + 1
      ensures Keys() == old(Keys())[..location] + [item] + old(Keys())[location..]
      ensures Branches() == old(Branches())[..location] + [left] + old(Branches())[location..]
    {
      ghost var K, B := Keys(), Branches();
      ShiftUp(location);
      branch[location + 1] := branch[location];
      key[location] := item;
      branch[location] := left;
      count := count + 1;
      InsertedAt(K, Keys(), location, item);
      InsertedAt(B, Branches(), location, left);
    }

    /** Removes the key at location (the last one if -1) and the branch to its right. */
    method DeleteItemToRight(location: int)
      requires Arrays() && count > 0 && -1 <= location < count
      modifies this`count, key, branch
      ensures Arrays() && count == old(count) - 1
      ensures var l := if location == -1 then old(count) - 1 else location;
        && Keys() == old(Keys())[..l] + old(Keys())[l + 1..]
        && Branches() == old(Branches())[..l + 1] + old(Branches())[l + 2..]
    {
      var l := if location == -1 then count - 1 else location;
      ghost var K, B := Keys(), Branches();
      var j := l;
      while j < count - 1
        invariant l <= j <= count - 1 && count == |K|
        invariant forall k :: 0 <= k < l || j <= k < count ==> key[k] == K[k]
        invariant forall k :: l <= k < j ==> key[k] == K[k + 1]
        invariant forall k :: 0 <= k <= l || j < k <= count ==> branch[k] == B[k]
        invariant forall k :: l < k <= j ==> branch[k] == B[k + 1]
      {
        key[j] := key[j + 1];
        branch[j + 1] := branch[j + 2];
        j := j + 1;
      }
      count := count - 1;
      RemovedAt(K, Keys(), l);
      RemovedAt(B, Branches(), l + 1);
    }

    /** Removes the key at location and the branch to its left. */
    method DeleteItemToLeft(location: nat)
      requires Arrays() && location < count
      modifies this`count, key, branch
      ensures Arrays() && count == old(count) - 1
      ensures Keys() == old(Keys())[..location] + old(Keys())[location + 1..]
      ensures Branches() == old(Branches())[..location] + old(Branches())[location + 1..]
    {
      ghost var K, B := Keys(), Branches();
      var j := location;
      while j < count - 1
        invariant location <= j <= count - 1 && count == |K|
        invariant forall k :: 0 <= k < location || j <= k < count ==> key[k] == K[k]
        invariant forall k :: location <= k < j ==> key[k] == K[k + 1]
        invariant forall k :: 0 <= k < location || j <= k <= count ==> branch[k] == B[k]
        invariant forall k :: location <= k < j ==> branch[k] == B[k + 1]
      {
        key[j] := key[j + 1];
        branch[j] := branch[j + 1];
        j := j + 1;
      }
      branch[j] := branch[j + 1];
      count := count - 1;
      RemovedAt(K, Keys(), location);
      RemovedAt(B, Branches(), location);
    }

    /** Moves the keys from median on, and the branches to their right, to a new node. */
    method MoveUpper(median: nat) returns (newRight: BTNode)
      requires Arrays() && count == MAX_KEYS && median < MAX_KEYS
      modifies this`count
      ensures Arrays() && newRight.Arrays() && fresh(newRight) && fresh(newRight.key) && fresh(newRight.branch)
      ensures Keys() == old(Keys())[..median] && Branches() == old(Branches())[..median + 1]
      ensures newRight.Keys() == old(Keys())[median..] && newRight.Branches()[1..] == old(Branches())[median + 1..]
    {
      ghost var K, B := Keys(), Branches();
      newRight := new BTNode();
      var j := median;
      while j < MAX_KEYS
        invariant median <= j <= MAX_KEYS && newRight.Arrays() && newRight.count == 0
        invariant forall k :: 0 <= k < j - median ==> newRight.key[k] == K[k + median]
        invariant forall k :: 1 <= k <= j - median ==> newRight.branch[k] == B[k + median]
        invariant key[..] == K && branch[..] == B && count == MAX_KEYS
      {
        newRight.key[j - median] := key[j];
        newRight.branch[j - median + 1] := branch[j + 1];
        j := j + 1;
      }
      newRight.count := MAX_KEYS - median;
      count := median;
      assert newRight.Keys() == K[median..];
      assert newRight.Branches()[1..] == B[median + 1..];
    }

    /** Gives up the last key, its right branch going to the left end of newRight. */
    method GiveMedian(newRight: BTNode) returns (mid: Item)
      requires Arrays() && newRight.Arrays() && count > 0 && newRight != this && newRight.branch != branch
      modifies this`count, newRight.branch
      ensures Arrays() && newRight.Arrays() && mid == old(Keys())[old(count) - 1]
      ensures Keys() == old(Keys())[..old(count) - 1] && Branches() == old(Branches())[..old(count)]
      ensures newRight.Branches() == [old(Branches())[old(count)]] + old(newRight.Branches())[1..]
    {
      newRight.branch[0] := branch[count];
      mid := key[count - 1];
      count := count - 1;
    }

    /** Splits a full node around the median of its keys and the new one: this node keeps the
        MIN_KEYS lowest, the returned one takes the highest MIN_KEYS + 1. */
    method Split(item: Item, right: BTNode?, location: int) returns (mid: Item, newRight: BTNode)
      requires Arrays() && count == MAX_KEYS && -1 <= location < count
      modifies this`count, key, branch
      ensures Arrays() && newRight.Arrays() && fresh(newRight) && fresh(newRight.key) && fresh(newRight.branch)
      ensures var keys, kids := old(Keys())[..location + 1] + [item] + old(Keys())[location + 1..],
                                old(Branches())[..location + 2] + [right] + old(Branches())[location + 2..];
        && Keys() == keys[..MIN_KEYS] && Branches() == kids[..MIN_KEYS + 1]
        && mid == keys[MIN_KEYS]
        && newRight.Keys() == keys[MIN_KEYS + 1..] && newRight.Branches() == kids[MIN_KEYS + 1..]
    {
      ghost var keys, kids := Keys()[..location + 1] + [item] + Keys()[location + 1..], Branches()[..location + 2] + [right] + Branches()[location + 2..];
      if location < MIN_KEYS {
        newRight := SplitLow(item, right, location);
      } else {
        newRight := SplitHigh(item, right, location);
      }
      SplitPieces(keys, kids);
      mid := GiveMedian(newRight);
    }

    /** The new key belongs to the lower half. */
    method SplitLow(item: Item, right: BTNode?, location: int) returns (newRight: BTNode)
      requires Arrays() && count == MAX_KEYS && -1 <= location < MIN_KEYS
      modifies this`count, key, branch
      ensures Arrays() && newRight.Arrays() && fresh(newRight) && fresh(newRight.key) && fresh(newRight.branch)
      ensures var keys, kids := old(Keys())[..location + 1] + [item] + old(Keys())[location + 1..],
                                old(Branches())[..location + 2] + [right] + old(Branches())[location + 2..];
        && Keys() == keys[..MIN_KEYS + 1] && Branches() == kids[..MIN_KEYS + 2]
        && newRight.Keys() == keys[MIN_KEYS + 1..] && newRight.Branches()[1..] == kids[MIN_KEYS + 2..]
    {
      CutLow(Keys(), MIN_KEYS, location + 1, item);
      CutLow(Branches(), MIN_KEYS + 1, location + 2, right);
      newRight := MoveUpper(MIN_KEYS);
      AddItemToRight(item, right, location + 1);
    }

    /** The new key belongs to the upper half. */
    method SplitHigh(item: Item, right: BTNode?, location: int) returns (newRight: BTNode)
      requires Arrays() && count == MAX_KEYS && MIN_KEYS <= location < count
      modifies this`count
      ensures Arrays() && newRight.Arrays() && fresh(newRight) && fresh(newRight.key) && fresh(newRight.branch)
      ensures var keys, kids := old(Keys())[..location + 1] + [item] + old(Keys())[location + 1..],
                                old(Branches())[..location + 2] + [right] + old(Branches())[location + 2..];
        && Keys() == keys[..MIN_KEYS + 1] && Branches() == kids[..MIN_KEYS + 2]
        && newRight.Keys() == keys[MIN_KEYS + 1..] && newRight.Branches()[1..] == kids[MIN_KEYS + 2..]
    {
      CutHigh(Keys(), MIN_KEYS + 1, location + 1, item);
      CutHigh(Branches(), MIN_KEYS + 2, location + 2, right);
      newRight := MoveUpper(MIN_KEYS + 1);
      DropFirst(newRight.Branches(), location - MIN_KEYS + 1, right);
      newRight.AddItemToRight(item, right, location - MIN_KEYS);
    }
  }

  lemma SplitPieces<K, B>(keys: seq<K>, kids: seq<B>)
    requires |keys| == MAX_KEYS + 1 && |kids| == MAX_KEYS + 2
    ensures keys[..MIN_KEYS + 1][..MIN_KEYS] == keys[..MIN_KEYS]
    ensures kids[..MIN_KEYS + 2][..MIN_KEYS + 1] == kids[..MIN_KEYS + 1]
    ensures [kids[..MIN_KEYS + 2][MIN_KEYS + 1]] + kids[MIN_KEYS + 2..] == kids[MIN_KEYS + 1..]
  {}

  lemma CutLow<T>(s: seq<T>, m: nat, l: nat, x: T)
    requires l <= m <= |s|
    ensures s[..m][..l] + [x] + s[..m][l..] == (s[..l] + [x] + s[l..])[..m + 1]
    ensures s[m..] == (s[..l] + [x] + s[l..])[m + 1..]
  {}

  lemma CutHigh<T>(s: seq<T>, m: nat, l: nat, x: T)
    requires m <= l <= |s|
    ensures s[m..][..l - m] + [x] + s[m..][l - m..] == (s[..l] + [x] + s[l..])[m..]
    ensures s[..m] == (s[..l] + [x] + s[l..])[..m]
  {}

  lemma DropFirst<T>(s: seq<T>, l: nat, x: T)
    requires 0 < l <= |s|
    ensures (s[..l] + [x] + s[l..])[1..] == s[1..][..l - 1] + [x] + s[1..][l - 1..]
  {}

  lemma RemovedAt<T>(s: seq<T>, t: seq<T>, l: nat)
    requires |t| + 1 == |s| && l < |s|
    requires forall k :: 0 <= k < l ==> t[k] == s[k]
    requires forall k :: l <= k < |t| ==> t[k] == s[k + 1]
    ensures t == s[..l] + s[l + 1..]
  {}

  lemma InsertedAt<T>(s: seq<T>, t: seq<T>, l: nat, x: T)
    requires |t| == |s| + 1 && l <= |s| && t[l] == x
    requires forall k :: 0 <= k < l ==> t[k] == s[k]
    requires forall k :: l < k < |t| ==> t[k] == s[k - 1]
    ensures t == s[..l] + [x] + s[l..]
  {}

  ghost function Area(n: BTNode?): set<object>
    reads n
  {
    if n == null then {} else n.Repr
  }

  ghost function TreeOf(n: BTNode?): Tree<Item>
    reads n
  {
    if n == null then Nil else n.tree
  }

  /** n is the root of a subtree that stands for t and lies within R. */
  ghost predicate Stands(n: BTNode?, t: Tree<Item>, R: set<object>)
    reads R
    decreases R, 1
  {
    if n == null then t == Nil else n in R && n.Repr <= R && n.Valid() && n.tree == t
  }

  /** Subtrees standing for ts, within R and apart from one another. */
  ghost predicate KidsValid(ns: seq<BTNode?>, ts: seq<Tree<Item>>, R: set<object>)
    reads R
    decreases R, 2
  {
    && |ns| == |ts|
    && (forall i :: 0 <= i < |ns| ==> Stands(ns[i], ts[i], R))
    && Apart(ns)
  }

  lemma KidsSlice(ns: seq<BTNode?>, ts: seq<Tree<Item>>, R: set<object>, lo: nat, hi: nat)
    requires KidsValid(ns, ts, R) && lo <= hi <= |ns|
    ensures KidsValid(ns[lo..hi], ts[lo..hi], R)
  {}

  /** Taking child i away. */
  lemma KidsWithout(ns: seq<BTNode?>, ts: seq<Tree<Item>>, R: set<object>, i: nat)
    requires KidsValid(ns, ts, R) && i < |ns|
    ensures KidsValid(ns[..i] + ns[i + 1..], ts[..i] + ts[i + 1..], R - Area(ns[i]))
  {
    var ns', ts', R' := ns[..i] + ns[i + 1..], ts[..i] + ts[i + 1..], R - Area(ns[i]);
    forall j | 0 <= j < |ns'| ensures Stands(ns'[j], ts'[j], R') {
      var k := if j < i then j else j + 1;
      assert ns'[j] == ns[k] && ts'[j] == ts[k];
      assert Area(ns[k]) !! Area(ns[i]);
    }
  }

  /** Hanging y in as child i. */
  lemma KidsWith(ns: seq<BTNode?>, ts: seq<Tree<Item>>, R: set<object>, i: nat, y: BTNode?)
    requires KidsValid(ns, ts, R) && i <= |ns|
    requires Stands(y, TreeOf(y), Area(y)) && Area(y) !! R
    ensures KidsValid(ns[..i] + [y] + ns[i..], ts[..i] + [TreeOf(y)] + ts[i..], R + Area(y))
  {
    var ns', ts' := ns[..i] + [y] + ns[i..], ts[..i] + [TreeOf(y)] + ts[i..];
    forall j | 0 <= j < |ns'| ensures Stands(ns'[j], ts'[j], R + Area(y)) {
      if j != i {
        var k := if j < i then j else j - 1;
        assert ns'[j] == ns[k] && ts'[j] == ts[k];
        assert Stands(ns[k], ts[k], R);
      }
    }
    forall k | 0 <= k < |ns| ensures Area(ns[k]) !! Area(y) {
      assert Stands(ns[k], ts[k], R);
    }
    ApartWith(ns, i, y);
  }

  ghost predicate Apart(ns: seq<BTNode?>)
    reads set i | 0 <= i < |ns| :: ns[i]
  {
    forall i, j :: 0 <= i < j < |ns| ==> Area(ns[i]) !! Area(ns[j])
  }

  lemma ApartWith(ns: seq<BTNode?>, i: nat, y: BTNode?)
    requires Apart(ns) && i <= |ns|
    requires forall k :: 0 <= k < |ns| ==> Area(ns[k]) !! Area(y)
    ensures Apart(ns[..i] + [y] + ns[i..])
  {}

  lemma KidsConcat(ns: seq<BTNode?>, ts: seq<Tree<Item>>, R: set<object>, ns': seq<BTNode?>, ts': seq<Tree<Item>>, R': set<object>)
    requires KidsValid(ns, ts, R) && KidsValid(ns', ts', R') && R !! R'
    ensures KidsValid(ns + ns', ts + ts', R + R')
  {
    var n, t, S := ns + ns', ts + ts', R + R';
    forall j | 0 <= j < |n| ensures Stands(n[j], t[j], S) {
      if j < |ns| { assert Stands(ns[j], ts[j], R); } else { assert Stands(ns'[j - |ns|], ts'[j - |ns|], R'); }
    }
    forall j, k | 0 <= j < k < |n| ensures Area(n[j]) !! Area(n[k]) {
      if j < |ns| <= k {
        assert Stands(ns[j], ts[j], R) && Stands(ns'[k - |ns|], ts'[k - |ns|], R');
      } else if |ns| <= j {
        assert n[j] == ns'[j - |ns|] && n[k] == ns'[k - |ns|];
      }
    }
  }

  /** The objects of several subtrees. */
  ghost function AreaAll(ns: seq<BTNode?>): set<object>
    reads set i | 0 <= i < |ns| :: ns[i]
  {
    set i, o | 0 <= i < |ns| && o in Area(ns[i]) :: o
  }

  /** Children on both sides of m lie in disjoint regions. */
  lemma KidsHalves(ns: seq<BTNode?>, ts: seq<Tree<Item>>, R: set<object>, m: nat)
    requires KidsValid(ns, ts, R) && m <= |ns|
    ensures KidsValid(ns[..m], ts[..m], AreaAll(ns[..m])) && KidsValid(ns[m..], ts[m..], AreaAll(ns[m..]))
    ensures AreaAll(ns[..m]) !! AreaAll(ns[m..]) && AreaAll(ns[..m]) <= R && AreaAll(ns[m..]) <= R
  {
    KidsSlice(ns, ts, R, 0, m);
    KidsSlice(ns, ts, R, m, |ns|);
    KidsTight(ns[..m], ts[..m], R);
    KidsTight(ns[m..], ts[m..], R);
    forall i, j | 0 <= i < m && 0 <= j < |ns| - m ensures Area(ns[..m][i]) !! Area(ns[m..][j]) {
      assert Area(ns[i]) !! Area(ns[m + j]);
    }
  }

  lemma KidsTight(ns: seq<BTNode?>, ts: seq<Tree<Item>>, R: set<object>)
    requires KidsValid(ns, ts, R)
    ensures KidsValid(ns, ts, AreaAll(ns)) && AreaAll(ns) <= R
  {
    forall i | 0 <= i < |ns| ensures Area(ns[i]) <= R && Stands(ns[i], ts[i], AreaAll(ns)) {
      assert Stands(ns[i], ts[i], R);
    }
  }


  /** Node n without its child c, and that child apart from it. */
  lemma SplitOff(n: BTNode, c: nat)
    requires n.Valid() && c <= n.count
    ensures var ns, ts, R, k := n.Branches(), n.tree.kids, n.Repr - n.Own(), n.branch[c];
      && |ns| == |ts| == n.count + 1 && Stands(k, ts[c], R)
      && KidsValid(ns[..c] + ns[c + 1..], ts[..c] + ts[c + 1..], R - Area(k))
  {
    var ns, ts, R := n.Branches(), n.tree.kids, n.Repr - n.Own();
    assert ns[c] == n.branch[c] && Stands(ns[c], ts[c], R);
    KidsWithout(ns, ts, R, c);
  }

  /** The child c of a valid node, seen from outside. */
  lemma ChildStands(n: BTNode, c: nat)
    requires n.Valid() && c <= n.count
    ensures |n.tree.kids| == n.count + 1 && n.tree.keys == n.Keys()
    ensures Stands(n.branch[c], TreeOf(n.branch[c]), Area(n.branch[c])) && TreeOf(n.branch[c]) == n.tree.kids[c]
    ensures Area(n.branch[c]) <= n.Repr - n.Own()
  {
    assert Stands(n.Branches()[c], n.tree.kids[c], n.Repr - n.Own());
  }

  lemma SlotInChild(n: BTNode, c: nat, p: BTNode?, i: nat, x: Item)
    requires n.Valid() && c <= n.count && n.branch[c] != null && n.branch[c].Valid() && n.branch[c].HasSlot(p, i, x)
    ensures n.HasSlot(p, i, x)
  {
    assert n.Branches()[c] == n.branch[c];
    assert Stands(n.Branches()[c], n.tree.kids[c], n.Repr - n.Own());
    assert n.InChild(n.Branches()[c], p, i, x);
  }

  /** n takes over the children hanging from its branches. */
  ghost method Adopt(n: BTNode, ts: seq<Tree<Item>>, R: set<object>)
    requires n.Arrays() && n.Own() !! R && KidsValid(n.Branches(), ts, R)
    modifies n`tree, n`Repr
    ensures n.Valid() && n.tree == Node(n.Keys(), ts) && n.Repr == n.Own() + R
  {
    n.tree := Node(n.Keys(), ts);
    n.Repr := n.Own() + R;
    assert n.Repr - n.Own() == R;
  }

  lemma TwoInserts<T>(s: seq<T>, p: nat, x: T, y: T)
    requires p <= |s|
    ensures var t := s[..p] + [y] + s[p..]; t[..p] + [x] + t[p..] == s[..p] + [x, y] + s[p..]
  {}

  /** Children k and y side by side among the others. */
  lemma PairIn(rest: seq<BTNode?>, rts: seq<Tree<Item>>, R: set<object>, p: nat, k: BTNode?, y: BTNode?)
    requires KidsValid(rest, rts, R) && p <= |rest|
    requires Stands(k, TreeOf(k), Area(k)) && Stands(y, TreeOf(y), Area(y))
    requires Area(k) !! Area(y) && Area(k) !! R && Area(y) !! R
    ensures KidsValid(rest[..p] + [k, y] + rest[p..], rts[..p] + [TreeOf(k), TreeOf(y)] + rts[p..], R + Area(y) + Area(k))
  {
    KidsWith(rest, rts, R, p, y);
    KidsWith(rest[..p] + [y] + rest[p..], rts[..p] + [TreeOf(y)] + rts[p..], R + Area(y), p, k);
    TwoInserts(rest, p, k, y);
    TwoInserts(rts, p, TreeOf(k), TreeOf(y));
  }

  /** Node n opened at child p: its other children, standing for ts without ts[p], lie within R. */
  ghost predicate Opened(n: BTNode, p: nat, ts: seq<Tree<Item>>, R: set<object>)
    reads n, n.branch, R
  {
    && n.Arrays() && p <= n.count && |ts| == n.count + 1 && n.Own() !! R
    && KidsValid(n.Branches()[..p] + n.Branches()[p + 1..], ts[..p] + ts[p + 1..], R)
  }

  /** Child p, whose subtree may have changed, is one of n's children again. */
  ghost method Refit(n: BTNode, p: nat, rts: seq<Tree<Item>>, R: set<object>)
    requires n.Arrays() && p <= n.count && n.Own() !! R + Area(n.branch[p])
    requires KidsValid(n.Branches()[..p] + n.Branches()[p + 1..], rts, R)
    requires Stands(n.branch[p], TreeOf(n.branch[p]), Area(n.branch[p])) && Area(n.branch[p]) !! R
    modifies n`tree, n`Repr
    ensures n.Valid() && n.tree == Node(n.Keys(), rts[..p] + [TreeOf(n.branch[p])] + rts[p..])
    ensures n.Repr == n.Own() + (R + Area(n.branch[p]))
  {
    var k, rest := n.branch[p], n.Branches()[..p] + n.Branches()[p + 1..];
    KidsWith(rest, rts, R, p, k);
    assert rest[..p] + [k] + rest[p..] == n.Branches();
    Adopt(n, rts[..p] + [TreeOf(k)] + rts[p..], R + Area(k));
  }
}
