// The nested binary trees as the C code keeps them.  A `struct node **`
// argument is a node reference that goes in and comes back out.
module SimpleHeap {
  import opened Bytes
  import opened AdaptiveTree
  import opened AdaptiveOps
  import opened AdaptiveEntries
  import opened AdaptiveMap
  import opened SimpleTree
  import opened Callbacks

  class NodeCell {
    var left: NodeCell?
    var right: NodeCell?
    var key: Byte
    var center: NodeCell?
    var hasValue: bool
    var value: RadixValue
    ghost var repr: set<object>

    constructor (key: Byte)
      ensures left == null && right == null && center == null && this.key == key && !hasValue && repr == {this}
    {
      left, right, center := null, null, null;
      this.key := key;
      hasValue, value := false, 0;
      repr := {this};
    }

    ghost function Own(): Option<RadixValue>
      reads this
    {
      if hasValue then Some(value) else None
    }
  }

  ghost function SFoot(n: NodeCell?): set<object>
    reads n
  {
    if n == null then {} else n.repr
  }

  /** The three subtrees of n lie in its repr, apart from n and each other. */
  ghost predicate Parts(n: NodeCell)
    reads n, n.repr
  {
    && n in n.repr
    && (n.left != null ==> n.left in n.repr)
    && (n.right != null ==> n.right in n.repr)
    && (n.center != null ==> n.center in n.repr)
    && SFoot(n.left) + SFoot(n.right) + SFoot(n.center) <= n.repr - {n}
    && SFoot(n.left) !! SFoot(n.right) !! SFoot(n.center)
  }

  ghost predicate SHolds(n: NodeCell?, t: STree)
    reads n, SFoot(n)
    decreases t
  {
    if n == null then t.Nil?
    else
      && t.Node? && n.key == t.key && n.Own() == t.value && Parts(n)
      && SHolds(n.left, t.left) && SHolds(n.right, t.right) && SHolds(n.center, t.center)
  }

  lemma Owned(n: NodeCell?, t: STree)
    requires SHolds(n, t)
    ensures n != null ==> n in SFoot(n)
    ensures n == null <==> t.Nil?
  {
  }

  lemma OpenNode(n: NodeCell, t: STree)
    requires SHolds(n, t)
    ensures t.Node? && n.key == t.key && n.Own() == t.value && Parts(n)
    ensures SHolds(n.left, t.left) && SHolds(n.right, t.right) && SHolds(n.center, t.center)
  {
  }

  lemma ValsAppend(a: seq<Entry>, b: seq<Entry>)
    ensures Vals(a + b) == Vals(a) + Vals(b)
  {
  }

  lemma SValsSplit(t: STree)
    requires t.Node?
    ensures Vals(SEntries(t)) == Vals(SEntries(t.left)) + Vals(SEntries(t.right)) + Vals(SEntries(t.center))
      + match t.value case Some(v) => [v] case None => []
  {
    var l, r, c := SEntries(t.left), SEntries(t.right), Prefixed([t.key], SEntries(t.center));
    var own := match t.value case Some(v) => [Entry([], v)] case None => [];
    assert SEntries(t) == l + r + c + own;
    assert Vals(own) == match t.value case Some(v) => [v] case None => [];
    ValsPrefixed([t.key], SEntries(t.center));
    hide SEntries, Prefixed, Vals;
    ValsAppend(l, r);
    ValsAppend(l + r, c);
    ValsAppend(l + r + c, own);
  }

  // ------------------------------------------------------------------
  // Lookup and counting
  // ------------------------------------------------------------------

  method FindFrom(n: NodeCell?, ghost t: STree, k: Key) returns (r: Option<RadixValue>)
    requires SHolds(n, t)
    ensures r == SGet(t, k)
    decreases |k|, t
  {
    if n == null {
      r := None;
    } else if k == [] {
      r := if n.hasValue then Some(n.value) else None;
    } else if k[0] < n.key {
      r := FindFrom(n.left, t.left, k);
    } else if k[0] > n.key {
      r := FindFrom(n.right, t.right, k);
    } else {
      r := FindFrom(n.center, t.center, k[1..]);
    }
  }

  method CountValues(n: NodeCell?, ghost t: STree) returns (r: nat)
    requires SHolds(n, t)
    ensures r == |SEntries(t)|
    decreases t
  {
    if n == null { return 0; }
    r := CountValues(n.left, t.left);
    var m := CountValues(n.right, t.right);
    r := r + m;
    m := CountValues(n.center, t.center);
    r := r + m;
    if n.hasValue { r := r + 1; }
  }

  // ------------------------------------------------------------------
  // Storing a subtree
  // ------------------------------------------------------------------

  datatype Side = Left | Right | Center

  ghost function Kid(n: NodeCell, side: Side): NodeCell?
    reads n
  {
    match side
    case Left => n.left
    case Right => n.right
    case Center => n.center
  }

  ghost function Subtree(t: STree, side: Side): STree
    requires t.Node?
  {
    match side
    case Left => t.left
    case Right => t.right
    case Center => t.center
  }

  ghost function WithSubtree(t: STree, side: Side, c: STree): STree
    requires t.Node?
  {
    match side
    case Left => t.(left := c)
    case Right => t.(right := c)
    case Center => t.(center := c)
  }

  /** SHolds, leaving one subtree out; r is what n and the other two own. */
  ghost predicate SHoldsBut(n: NodeCell, t: STree, r: set<object>, side: Side)
    reads n, r
  {
    && n in r && t.Node? && n.key == t.key && n.Own() == t.value
    && (n.left != null && side != Left ==> n.left in r) && (n.right != null && side != Right ==> n.right in r)
    && (n.center != null && side != Center ==> n.center in r)
    && (side != Left ==> SFoot(n.left) <= r - {n} && SHolds(n.left, t.left))
    && (side != Right ==> SFoot(n.right) <= r - {n} && SHolds(n.right, t.right))
    && (side != Center ==> SFoot(n.center) <= r - {n} && SHolds(n.center, t.center))
    && (side != Left && side != Right ==> SFoot(n.left) !! SFoot(n.right))
    && (side != Left && side != Center ==> SFoot(n.left) !! SFoot(n.center))
    && (side != Right && side != Center ==> SFoot(n.right) !! SFoot(n.center))
  }

  /** Taking one subtree out of a node. */
  lemma OpenSide(n: NodeCell, t: STree, side: Side)
    requires SHolds(n, t)
    ensures t.Node? && n.key == t.key && n in n.repr && SHoldsBut(n, t, n.repr - SFoot(Kid(n, side)), side)
    ensures SFoot(Kid(n, side)) <= n.repr - {n} && SHolds(Kid(n, side), Subtree(t, side))
  {
    OpenNode(n, t);
    Owned(n.left, t.left);
    Owned(n.right, t.right);
    Owned(n.center, t.center);
    hide SHolds;
  }

  /** And putting another in its place. */
  method StoreSide(n: NodeCell, ghost t: STree, ghost r: set<object>, side: Side, c: NodeCell?, ghost c': STree)
    requires SHoldsBut(n, t, r, side) && SHolds(c, c') && SFoot(c) !! r
    modifies n
    ensures t.Node? && SHolds(n, WithSubtree(t, side, c')) && n.repr == r + SFoot(c)
  {
    hide SHolds;
    Owned(c, c');
    match side {
      case Left =>
        Owned(n.right, t.right);
        Owned(n.center, t.center);
        n.left := c;
      case Right =>
        Owned(n.left, t.left);
        Owned(n.center, t.center);
        n.right := c;
      case Center =>
        Owned(n.left, t.left);
        Owned(n.right, t.right);
        n.center := c;
    }
    n.repr := r + SFoot(c);
    MakeNode(n, WithSubtree(t, side, c'));
  }

  lemma MakeNode(n: NodeCell, t: STree)
    requires t.Node? && n.key == t.key && n.Own() == t.value && Parts(n)
    requires SHolds(n.left, t.left) && SHolds(n.right, t.right) && SHolds(n.center, t.center)
    ensures SHolds(n, t)
  {
  }

  // ------------------------------------------------------------------
  // Insert
  // ------------------------------------------------------------------

  method InsertFrom(n: NodeCell?, ghost t: STree, k: Key, v: RadixValue, junk: Byte) returns (n': NodeCell)
    requires SHolds(n, t)
    modifies SFoot(n)
    ensures SHolds(n', SInsert(t, k, v, junk))
    ensures fresh(SFoot(n') - old(SFoot(n)))
    decreases |k|, t, 1
  {
    if n == null {
      n' := new NodeCell(if k == [] then junk else k[0]);
      assert SHolds(n', NewNode(k, junk));
      assert SInsert(t, k, v, junk) == SInsert(NewNode(k, junk), k, v, junk);
      if k == [] {
        n'.hasValue, n'.value := true, v;
      } else {
        var c := InsertFrom(null, Nil, k[1..], v, junk);
        StoreSide(n', NewNode(k, junk), {n'}, Center, c, SInsert(Nil, k[1..], v, junk));
      }
    } else {
      n' := n;
      InsertBelow(n, t, k, v, junk);
    }
  }

  method SetValue(n: NodeCell, ghost t: STree, v: RadixValue)
    requires SHolds(n, t)
    modifies n
    ensures t.Node? && SHolds(n, t.(value := Some(v))) && n.repr == old(n.repr) && n in n.repr
  {
    n.hasValue, n.value := true, v;
  }

  method InsertBelow(n: NodeCell, ghost t: STree, k: Key, v: RadixValue, junk: Byte)
    requires SHolds(n, t)
    modifies SFoot(n)
    ensures SHolds(n, SInsert(t, k, v, junk))
    ensures fresh(SFoot(n) - old(SFoot(n)))
    decreases |k|, t, 0
  {
    hide SHolds, SHoldsBut;
    OpenSide(n, t, Center);
    if k == [] {
      SetValue(n, t, v);
    } else if k[0] < n.key {
      OpenSide(n, t, Left);
      ghost var r := n.repr - SFoot(n.left);
      var c := InsertFrom(n.left, t.left, k, v, junk);
      StoreSide(n, t, r, Left, c, SInsert(t.left, k, v, junk));
    } else if k[0] > n.key {
      OpenSide(n, t, Right);
      ghost var r := n.repr - SFoot(n.right);
      var c := InsertFrom(n.right, t.right, k, v, junk);
      StoreSide(n, t, r, Right, c, SInsert(t.right, k, v, junk));
    } else {
      OpenSide(n, t, Center);
      ghost var r := n.repr - SFoot(n.center);
      var c := InsertFrom(n.center, t.center, k[1..], v, junk);
      StoreSide(n, t, r, Center, c, SInsert(t.center, k[1..], v, junk));
    }
  }

  // ------------------------------------------------------------------
  // Remove
  // ------------------------------------------------------------------

  method RemoveFrom(n: NodeCell?, ghost t: STree, k: Key, dtr: Destructor) returns (n': NodeCell?, removed: bool)
    requires SHolds(n, t) && dtr !in SFoot(n)
    modifies SFoot(n), dtr
    ensures SHolds(n', SRemove(t, k).tree)
    ensures SFoot(n') <= old(SFoot(n))
    ensures dtr.seen == old(dtr.seen) + SRemove(t, k).dropped
    ensures removed <==> SRemove(t, k).dropped != []
    decreases |k|, t, 1
  {
    if n == null {
      return null, false;
    } else if k == [] {
      if !n.hasValue { return n, false; }
      dtr.Call(n.value);
      if n.left != null || n.center != null || n.right != null {
        n.hasValue := false;
        return n, true;
      }
      return null, true;
    } else {
      removed := RemoveBelow(n, t, k, dtr);
      n' := n;
    }
  }

  method RemoveBelow(n: NodeCell, ghost t: STree, k: Key, dtr: Destructor) returns (removed: bool)
    requires SHolds(n, t) && dtr !in SFoot(n) && k != []
    modifies SFoot(n), dtr
    ensures SHolds(n, SRemove(t, k).tree)
    ensures SFoot(n) <= old(SFoot(n))
    ensures dtr.seen == old(dtr.seen) + SRemove(t, k).dropped
    ensures removed <==> SRemove(t, k).dropped != []
    decreases |k|, t, 0
  {
    hide SHolds, SHoldsBut;
    var c: NodeCell?;
    if k[0] < n.key {
      OpenSide(n, t, Left);
      ghost var r := n.repr - SFoot(n.left);
      c, removed := RemoveFrom(n.left, t.left, k, dtr);
      StoreSide(n, t, r, Left, c, SRemove(t.left, k).tree);
    } else if k[0] > n.key {
      OpenSide(n, t, Right);
      ghost var r := n.repr - SFoot(n.right);
      c, removed := RemoveFrom(n.right, t.right, k, dtr);
      StoreSide(n, t, r, Right, c, SRemove(t.right, k).tree);
    } else {
      OpenSide(n, t, Center);
      ghost var r := n.repr - SFoot(n.center);
      c, removed := RemoveFrom(n.center, t.center, k[1..], dtr);
      StoreSide(n, t, r, Center, c, SRemove(t.center, k[1..]).tree);
    }
  }

  /** Gives every value to the destructor: left, right, center, then its own. */
  method DestroyTree(n: NodeCell?, ghost t: STree, dtr: Destructor) returns (r: nat)
    requires SHolds(n, t) && dtr !in SFoot(n)
    modifies dtr
    ensures r == |SEntries(t)|
    ensures dtr.seen == old(dtr.seen) + Vals(SEntries(t))
    decreases t, 1
  {
    hide Vals, SEntries, SHolds;
    Owned(n, t);
    if n == null {
      NothingDestroyed();
      return 0;
    }
    OpenNode(n, t);
    ghost var s0 := dtr.seen;
    r := DestroyKids(n, t, dtr);
    if n.hasValue {
      dtr.Call(n.value);
      r := r + 1;
    }
    Destroyed(t, s0, dtr.seen);
  }

  lemma NothingDestroyed()
    ensures SEntries(Nil) == [] && Vals(SEntries(Nil)) == []
  {
  }

  /** What the destructor has seen once a node and its subtrees are gone. */
  lemma Destroyed(t: STree, s0: seq<RadixValue>, s1: seq<RadixValue>)
    requires t.Node?
    requires var s := s0 + Vals(SEntries(t.left)) + Vals(SEntries(t.right)) + Vals(SEntries(t.center));
      s1 == match t.value case Some(v) => s + [v] case None => s
    ensures s1 == s0 + Vals(SEntries(t))
    ensures |SEntries(t)| == |SEntries(t.left)| + |SEntries(t.right)| + |SEntries(t.center)| + if t.value.Some? then 1 else 0
  {
    SValsSplit(t);
    SCountSplit(t);
    var own := match t.value case Some(v) => [v] case None => [];
    Assoc(s0, Vals(SEntries(t.left)), Vals(SEntries(t.right)), Vals(SEntries(t.center)), own);
    hide Vals, SEntries;
  }

  lemma SCountSplit(t: STree)
    requires t.Node?
    ensures |SEntries(t)| == |SEntries(t.left)| + |SEntries(t.right)| + |SEntries(t.center)| + if t.value.Some? then 1 else 0
  {
  }

  lemma Assoc<T>(s: seq<T>, a: seq<T>, b: seq<T>, c: seq<T>, d: seq<T>)
    ensures s + (a + b + c + d) == s + a + b + c + d
  {
  }

  method DestroyKids(n: NodeCell, ghost t: STree, dtr: Destructor) returns (r: nat)
    requires SHolds(n, t) && dtr !in SFoot(n)
    modifies dtr
    ensures r == |SEntries(t.left)| + |SEntries(t.right)| + |SEntries(t.center)|
    ensures dtr.seen == old(dtr.seen) + Vals(SEntries(t.left)) + Vals(SEntries(t.right)) + Vals(SEntries(t.center))
    decreases t, 0
  {
    var x, y, z := n.left, n.right, n.center;
    OpenNode(n, t);
    assert dtr !in SFoot(x) && dtr !in SFoot(y) && dtr !in SFoot(z);
    Owned(x, t.left);
    Owned(y, t.right);
    Owned(z, t.center);
    hide SHolds, Parts, Vals, SEntries;
    r := DestroyTree(x, t.left, dtr);
    assert SHolds(y, t.right) && SHolds(z, t.center);
    var m := DestroyTree(y, t.right, dtr);
    assert SHolds(z, t.center);
    r := r + m;
    m := DestroyTree(z, t.center, dtr);
    r := r + m;
  }

  method PruneFrom(n: NodeCell?, ghost t: STree, k: Key, dtr: Destructor) returns (n': NodeCell?, count: nat)
    requires SHolds(n, t) && dtr !in SFoot(n)
    modifies SFoot(n), dtr
    ensures SHolds(n', SRemovePrefix(t, k).tree)
    ensures SFoot(n') <= old(SFoot(n))
    ensures dtr.seen == old(dtr.seen) + SRemovePrefix(t, k).dropped
    ensures count == |SRemovePrefix(t, k).dropped|
    decreases |k|, t
  {
    if n == null {
      return null, 0;
    } else if k == [] {
      count := DestroyTree(n, t, dtr);
      return null, count;
    }
    n' := n;
    hide SHolds, SHoldsBut;
    var c: NodeCell?;
    if k[0] < n.key {
      OpenSide(n, t, Left);
      ghost var r := n.repr - SFoot(n.left);
      c, count := PruneFrom(n.left, t.left, k, dtr);
      StoreSide(n, t, r, Left, c, SRemovePrefix(t.left, k).tree);
    } else if k[0] > n.key {
      OpenSide(n, t, Right);
      ghost var r := n.repr - SFoot(n.right);
      c, count := PruneFrom(n.right, t.right, k, dtr);
      StoreSide(n, t, r, Right, c, SRemovePrefix(t.right, k).tree);
    } else {
      OpenSide(n, t, Center);
      ghost var r := n.repr - SFoot(n.center);
      c, count := PruneFrom(n.center, t.center, k[1..], dtr);
      StoreSide(n, t, r, Center, c, SRemovePrefix(t.center, k[1..]).tree);
    }
  }

  // ------------------------------------------------------------------
  // struct radix_tree
  // ------------------------------------------------------------------

  class SimpleRadix {
    var root: NodeCell?
    const dtr: Destructor
    ghost var tree: STree

    ghost predicate Valid()
      reads this, root, SFoot(root)
    {
      SHolds(root, tree) && SWf(tree) && this !in SFoot(root) && dtr !in SFoot(root)
    }

    ghost function Contents(): map<Key, RadixValue>
      reads this
    {
      SContent(tree)
    }

    constructor (dtr: Destructor)
      ensures Valid() && Contents() == map[] && this.dtr == dtr
    {
      root, tree := null, Nil;
      this.dtr := dtr;
    }

    method Size() returns (n: nat)
      requires Valid()
      ensures n == |Contents()|
    {
      SContentAt(tree, []);
      n := CountValues(root, tree);
    }

    method Lookup(k: Key) returns (r: Option<RadixValue>)
      requires Valid()
      ensures r == AdaptiveMap.Find(Contents(), k)
    {
      SContentAt(tree, k);
      r := FindFrom(root, tree, k);
    }

    method Insert(k: Key, v: RadixValue, junk: Byte)
      requires Valid()
      modifies this, SFoot(root)
      ensures Valid() && Contents() == old(Contents())[k := v]
      ensures fresh(SFoot(root) - old(SFoot(root)))
    {
      hide SHolds, SWf, SInsert, SContent;
      SInsertIsUpdate(tree, k, v, junk);
      var n := InsertFrom(root, tree, k, v, junk);
      root := n;
      tree := SInsert(tree, k, v, junk);
    }

    method Remove(k: Key) returns (removed: bool)
      requires Valid()
      modifies this, SFoot(root), dtr
      ensures Valid() && Contents() == old(Contents()) - {k}
      ensures removed <==> k in old(Contents())
      ensures dtr.seen == old(dtr.seen) + if removed then [old(Contents())[k]] else []
    {
      hide SHolds, SWf, SRemove, SContent;
      SRemoveIsDelete(tree, k);
      var n;
      n, removed := RemoveFrom(root, tree, k, dtr);
      root := n;
      tree := SRemove(tree, k).tree;
    }

    /** gone lists the removed pairs, each once. */
    method RemovePrefix(k: Key) returns (count: nat, ghost gone: seq<Entry>)
      requires Valid()
      modifies this, SFoot(root), dtr
      ensures Valid() && Contents() == Prune(old(Contents()), k)
      ensures count == |KeysUnder(old(Contents()), k)| == |gone| && KeysDistinct(gone)
      ensures forall e :: e in gone <==> k <= e.key && AdaptiveMap.Find(old(Contents()), e.key) == Some(e.value)
      ensures dtr.seen == old(dtr.seen) + Vals(gone)
    {
      hide SHolds, SWf, SRemovePrefix, SContent, SEntries, Under, Prune, KeysUnder;
      SRemovePrefixIsDelete(tree, k);
      SUnderExact(tree, k);
      gone := Under(SEntries(tree), k);
      var n;
      n, count := PruneFrom(root, tree, k, dtr);
      root := n;
      tree := SRemovePrefix(tree, k).tree;
    }
  }
}
