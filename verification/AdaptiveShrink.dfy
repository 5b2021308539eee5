// Taking an emptied slot out of a node in place, and degrading the node to a
// smaller one when it has become too empty.
module AdaptiveShrink {
  import opened Bytes
  import opened AdaptiveTree
  import opened NodeLemmas
  import opened AdaptiveOps
  import opened AdaptiveHeap

  // ------------------------------------------------------------------
  // _erase_elt
  // ------------------------------------------------------------------

  /** Slides the elements above idx down one place and clears the last. */
  method EraseElt<T>(a: array<T>, count: nat, idx: nat, zero: T)
    requires idx < count <= a.Length
    modifies a
    ensures forall x :: 0 <= x < count - 1 ==> a[x] == old(a[if x < idx then x else x + 1])
    ensures a[count - 1] == if idx == count - 1 then old(a[count - 1]) else zero
    ensures forall x :: count <= x < a.Length ==> a[x] == old(a[x])
  {
    if idx == count - 1 { return; }
    var j := idx;
    while j < count - 1
      invariant idx <= j <= count - 1
      invariant forall x :: 0 <= x < idx ==> a[x] == old(a[x])
      invariant forall x :: idx <= x < j ==> a[x] == old(a[x + 1])
      invariant forall x :: j <= x < a.Length ==> a[x] == old(a[x])
    {
      a[j] := a[j + 1];
      j := j + 1;
    }
    a[count - 1] := zero;
  }

  /** Where the slots of a node come from once slot i of n is erased. */
  ghost function ErasedFrom(n: nat, i: nat): (r: seq<int>)
    requires i < n
    ensures |r| == n - 1 && forall x :: 0 <= x < n - 1 ==> r[x] == if x < i then x else x + 1
  {
    seq(n - 1, x requires 0 <= x < n - 1 => if x < i then x else x + 1)
  }

  lemma ErasedAt(ts: seq<Tree>, i: nat, x: nat)
    requires i < |ts| && x < |ts| - 1
    ensures Erase(ts, i)[x] == ts[if x < i then x else x + 1]
  {
  }

  /** Erasing an empty slot in the slot sequence of a node. */
  lemma KidsErased(slots: seq<Slot>, slots': seq<Slot>, r: set<object>, t: Tree, t': Tree, i: nat)
    requires IsNode(t) && IsNode(t') && i < |t.values| && Kids(slots, r, WithSlot(t, i, Unset))
    requires t'.values == Erase(t.values, i) && |slots'| == |slots| >= |t.values|
    requires forall x :: 0 <= x < |t.values| - 1 ==> slots'[x] == slots[if x < i then x else x + 1]
    requires slots'[|t.values| - 1] == if i == |t.values| - 1 then slots[|t.values| - 1] else Empty
    requires forall x :: |t.values| <= x < |slots| ==> slots'[x] == slots[x]
    ensures Kids(slots', r, t')
  {
    var n := |t.values|;
    var t1 := WithSlot(t, i, Unset);
    hide Holds, Kids;
    KidsShape(slots, r, t1);
    forall x | 0 <= x < n - 1 ensures t'.values[x] == t1.values[if x < i then x else x + 1] {
      ErasedAt(t.values, i, x);
    }
    hide WithSlot, Erase;
    KidsMoved(slots, slots', r, t1, t', ErasedFrom(n, i));
  }

  // ------------------------------------------------------------------
  // Node4 and Node16
  // ------------------------------------------------------------------

  /** Keys and values of a linear node slide down together. */
  method EraseLinear(s: Slot, ghost t: Tree, i: nat)
    requires (s.N4? || s.N16?) && Refilled(s, t, i, Unset)
    modifies s.node, s.node.keys, s.node.values
    ensures s.node.Own() <= s.node.repr && s.node.repr == old(s.node.repr)
    ensures s.node.nrEntries == |t.values| - 1
    ensures s.node.keys[..|t.values| - 1] == Erase(t.keys, i)
    ensures Kids(s.node.values[..], s.node.repr - s.node.Own(), Node4(Erase(t.keys, i), Erase(t.values, i)))
  {
    var n := s.node;
    ghost var slots := n.values[..];
    ghost var r := n.repr - n.Own();
    ghost var t' := Node4(Erase(t.keys, i), Erase(t.values, i));
    assert Kids(slots, r, WithSlot(t, i, Unset));
    hide Holds, Kids;
    EraseElt(n.keys, n.nrEntries, i, 0);
    EraseElt(n.values, n.nrEntries, i, Empty);
    n.nrEntries := n.nrEntries - 1;
    KidsErased(slots, n.values[..], r, t, t', i);
    ErasedKeys(t.keys, n.keys[..|t.values| - 1], i);
  }

  lemma ErasedKeys(keys: seq<Byte>, keys': seq<Byte>, i: nat)
    requires i < |keys| && |keys'| == |keys| - 1
    requires forall x :: 0 <= x < |keys'| ==> keys'[x] == keys[if x < i then x else x + 1]
    ensures keys' == Erase(keys, i)
  {
  }

  method DegradeToN4(n16: Node, ghost keys: seq<Byte>, ghost values: seq<Tree>) returns (s': Slot)
    requires n16.Own() <= n16.repr && n16.keys.Length == 16 == n16.values.Length
    requires n16.nrEntries == |keys| == |values| <= 4 && n16.keys[..|keys|] == keys
    requires Kids(n16.values[..], n16.repr - n16.Own(), Node4(keys, values))
    ensures Holds(s', Node4(keys, values))
    ensures fresh(Foot(s') - n16.repr)
  {
    ghost var t := Node4(keys, values);
    ghost var r, slots := n16.repr - n16.Own(), n16.values[..];
    hide Holds, Kids;
    var n4 := new Node(4, 4);
    assert r !! n4.Own() && Kids(slots, r, t);
    n4.nrEntries := n16.nrEntries;
    forall i | 0 <= i < n16.nrEntries { n4.keys[i] := n16.keys[i]; }
    forall i | 0 <= i < n16.nrEntries { n4.values[i] := n16.values[i]; }
    n4.repr := n4.Own() + r;
    s' := N4(n4);
    SameSlots(slots, n4.values[..], r, t, t);
    MakeHolds(s', t, r);
  }

  /** The used slots have been copied to an array of another size. */
  lemma SameSlots(slots: seq<Slot>, slots': seq<Slot>, r: set<object>, t: Tree, t': Tree)
    requires IsNode(t) && IsNode(t') && Kids(slots, r, t) && t'.values == t.values
    requires |t.values| <= |slots| && |t.values| <= |slots'|
    requires forall x :: 0 <= x < |t.values| ==> slots'[x] == slots[x]
    requires forall x :: |t.values| <= x < |slots'| ==> slots'[x].Empty?
    ensures Kids(slots', r, t')
  {
    hide Holds, Foot, Cell;
    forall x | 0 <= x < |t'.values| ensures Cell(slots'[x]) <= Foot(slots'[x]) <= r && Holds(slots'[x], t'.values[x]) {
      assert slots'[x] == slots[x];
    }
    forall x, y | 0 <= x < y < |t'.values| ensures Foot(slots'[x]) !! Foot(slots'[y]) {
      assert slots'[x] == slots[x] && slots'[y] == slots[y];
    }
  }

  lemma MakeHolds(s: Slot, t: Tree, r: set<object>)
    requires IsNodeSlot(s) && IsNode(t) && Header(s, t)
    requires r !! s.node.Own() && s.node.repr == s.node.Own() + r && Kids(s.node.values[..], r, t)
    ensures Holds(s, t)
  {
  }

  // ------------------------------------------------------------------
  // Node48
  // ------------------------------------------------------------------

  method EraseIndex(keys: array<Byte>, b: Byte, i: nat)
    requires keys.Length == 256
    modifies keys
    ensures keys[..] == IndexErase(old(keys[..]), b, i)
  {
    ghost var index := keys[..];
    keys[b] := 48;
    var j := 0;
    while j < 256
      invariant 0 <= j <= 256
      invariant forall c :: 0 <= c < j ==> keys[c] == IndexErase(index, b, i)[c]
      invariant forall c :: j <= c < 256 ==> keys[c] == if c == b then 48 else index[c]
    {
      if keys[j] < 48 && keys[j] > i { keys[j] := keys[j] - 1; }
      j := j + 1;
    }
  }

  /** The index and the values of a Node48, with slot i gone. */
  method Erase48(s: Slot, ghost t: Tree, b: Byte, i: nat)
    requires s.N48? && Refilled(s, t, i, Unset)
    modifies s.node, s.node.keys, s.node.values
    ensures s.node.Own() <= s.node.repr && s.node.repr == old(s.node.repr)
    ensures s.node.nrEntries == |t.values| - 1 && s.node.keys.Length == 256 && s.node.values.Length == 48
    ensures s.node.keys[..] == IndexErase(t.index, b, i)
    ensures Kids(s.node.values[..], s.node.repr - s.node.Own(), Node48(IndexErase(t.index, b, i), Erase(t.values, i)))
  {
    var n := s.node;
    ghost var slots, r := n.values[..], n.repr - n.Own();
    ghost var t' := Node48(IndexErase(t.index, b, i), Erase(t.values, i));
    assert Kids(slots, r, WithSlot(t, i, Unset));
    hide Holds, Kids, IndexErase;
    EraseIndex(n.keys, b, i);
    EraseElt(n.values, n.nrEntries, i, Empty);
    n.nrEntries := n.nrEntries - 1;
    KidsErased(slots, n.values[..], r, t, t', i);
  }

  /** Copies the used slots of a Node48 in byte order. */
  method CopyUsed(n48: Node, n16: Node, ghost index: seq<Byte>, ghost bs: seq<Byte>, ghost from: seq<int>)
    requires n48.keys.Length == 256 && n48.values.Length == 48 && n16.keys.Length == 16 == n16.values.Length
    requires n16.keys != n48.keys && n16.values != n48.values
    requires n48.keys[..] == index && bs == UsedBytes(index, 0) && |bs| <= 16
    requires |from| == |bs| && forall c :: 0 <= c < |bs| ==> from[c] == index[bs[c]] < 48
    requires forall c :: 0 <= c < 16 ==> n16.values[c].Empty?
    modifies n16.keys, n16.values
    ensures forall c :: 0 <= c < |bs| ==> n16.values[c] == n48.values[from[c]]
    ensures n16.keys[..|bs|] == bs
    ensures forall c :: |bs| <= c < 16 ==> n16.values[c].Empty?
  {
    hide UsedBytes;
    var i, count := 0, 0;
    while i < 256
      invariant 0 <= i <= 256 && count + |UsedBytes(index, i)| == |bs|
      invariant forall c :: 0 <= c < count ==> n16.keys[c] == bs[c]
      invariant forall c :: 0 <= c < count ==> n16.values[c] == n48.values[from[c]]
      invariant forall c :: count <= c < 16 ==> n16.values[c].Empty?
    {
      assert n48.keys[i] == index[i];
      UsedAt(index, 0, i);
      if n48.keys[i] < 48 {
        assert bs[count] == i;
        n16.keys[count] := i;
        n16.values[count] := n48.values[n48.keys[i]];
        count := count + 1;
      }
      i := i + 1;
    }
    UsedEnd(index);
  }

  /** Byte i, when used, comes after the used bytes below it. */
  lemma {:induction false} UsedAt(index: seq<Byte>, j: nat, i: nat)
    requires |index| == 256 && j <= i < 256
    ensures |UsedBytes(index, i)| == |UsedBytes(index, i + 1)| + if index[i] < 48 then 1 else 0
    ensures var u := UsedBytes(index, j);
      index[i] < 48 ==> 0 <= |u| - |UsedBytes(index, i)| < |u| && u[|u| - |UsedBytes(index, i)|] == i
    decreases i - j
  {
    if j < i { UsedAt(index, j + 1, i); }
  }

  lemma UsedEnd(index: seq<Byte>)
    requires |index| == 256
    ensures UsedBytes(index, 256) == []
  {
  }

  /** The Node16 a Node48 degrades to, with the slots its children come from. */
  lemma DegradedShape(index: seq<Byte>, values: seq<Tree>)
    requires |values| <= 16 && IndexOk(index, |values|)
    ensures var bs, t' := UsedBytes(index, 0), DegradeTo16(index, values);
      var from := SlotsOf(index, bs);
      && t'.Node16? && t'.keys == bs && |t'.values| == |bs| == |values|
      && (forall c :: 0 <= c < |bs| ==> from[c] == index[bs[c]] && 0 <= from[c] < |values|)
      && (forall c :: 0 <= c < |bs| ==> t'.values[c] == values[from[c]])
      && (forall x, y :: 0 <= x < y < |from| ==> from[x] != from[y])
  {
    hide UsedBytes;
    UsedSlots(index, |values|);
    UsedCount(index, |values|);
    hide IndexOk;
    var from := SlotsOf(index, UsedBytes(index, 0));
    forall c | 0 <= c < |from| ensures 0 <= from[c] < |values| {
      assert from[c] in from;
    }
  }

  /** The slots of that Node16. */
  lemma DegradedKids(t: Tree, t': Tree, slots: seq<Slot>, slots': seq<Slot>, r: set<object>, from: seq<int>)
    requires IsNode(t) && IsNode(t') && Kids(slots, r, t) && |t.values| <= |slots|
    requires |from| == |t'.values| <= |slots'|
    requires forall c :: 0 <= c < |from| ==> 0 <= from[c] < |t.values|
    requires forall c :: 0 <= c < |from| ==> t'.values[c] == t.values[from[c]]
    requires forall c :: 0 <= c < |from| ==> slots'[c] == slots[from[c]]
    requires forall x, y :: 0 <= x < y < |from| ==> from[x] != from[y]
    requires forall c :: |from| <= c < |slots'| ==> slots'[c].Empty?
    ensures Kids(slots', r, t')
  {
    hide Kids, Holds;
    KidsMoved(slots, slots', r, t, t', from);
  }

  method NewNode16(n48: Node, ghost index: seq<Byte>, ghost bs: seq<Byte>, ghost from: seq<int>, ghost r: set<object>)
    returns (n16: Node)
    requires n48.keys.Length == 256 && n48.values.Length == 48 && n48.nrEntries == |bs|
    requires n48.keys[..] == index && bs == UsedBytes(index, 0) && |bs| <= 16
    requires |from| == |bs| && forall c :: 0 <= c < |bs| ==> from[c] == index[bs[c]] < 48
    ensures fresh(n16.Own()) && n16.keys.Length == 16 == n16.values.Length && n16.nrEntries == |bs|
    ensures r !! n16.Own() && n16.repr == n16.Own() + r
    ensures n16.keys[..|bs|] == bs
    ensures forall c :: 0 <= c < |bs| ==> n16.values[..][c] == n48.values[..][from[c]]
    ensures forall c :: |bs| <= c < 16 ==> n16.values[..][c].Empty?
  {
    hide UsedBytes;
    n16 := new Node(16, 16);
    n16.nrEntries := n48.nrEntries;
    CopyUsed(n48, n16, index, bs, from);
    n16.repr := n16.Own() + r;
  }

  method DegradeToN16(n48: Node, ghost index: seq<Byte>, ghost values: seq<Tree>) returns (s': Slot)
    requires n48.Own() <= n48.repr && n48.keys.Length == 256 && n48.values.Length == 48
    requires n48.nrEntries == |values| <= 16 && n48.keys[..] == index && IndexOk(index, |values|)
    requires Kids(n48.values[..], n48.repr - n48.Own(), Node48(index, values))
    ensures Holds(s', DegradeTo16(index, values))
    ensures fresh(Foot(s') - n48.repr)
  {
    ghost var r, slots := n48.repr - n48.Own(), n48.values[..];
    ghost var bs, t, t' := UsedBytes(index, 0), Node48(index, values), DegradeTo16(index, values);
    ghost var from := SlotsOf(index, bs);
    DegradedShape(index, values);
    hide Holds, Kids, IndexOk, UsedBytes, DegradeTo16, SlotsOf;
    var n16 := NewNode16(n48, index, bs, from, r);
    assert Kids(slots, r, t);
    DegradedKids(t, t', slots, n16.values[..], r, from);
    s' := N16(n16);
    MakeHolds(s', t', r);
  }

  // ------------------------------------------------------------------
  // Node256
  // ------------------------------------------------------------------

  /** Copies the set slots of a Node256 in order and numbers them. */
  method CopySet(n256: Node, n48: Node, ghost ts: seq<Tree>) returns (ghost from: seq<int>)
    requires n256.values.Length == 256 == |ts| && SetCount(ts, 256) <= 48
    requires forall i :: 0 <= i < 256 ==> (n256.values[i].Empty? <==> ts[i].Unset?)
    requires n48.keys.Length == 256 && n48.values.Length == 48 && n48.values != n256.values
    requires forall c :: 0 <= c < 48 ==> n48.values[c].Empty?
    modifies n48.keys, n48.values
    ensures n48.keys[..] == DegradeTo48(ts).index
    ensures |from| == SetCount(ts, 256) == |SetChildren(ts, 256)|
    ensures forall c :: 0 <= c < |from| ==> 0 <= from[c] < 256
    ensures forall c :: 0 <= c < |from| ==> n48.values[c] == n256.values[from[c]]
    ensures forall c :: 0 <= c < |from| ==> SetChildren(ts, 256)[c] == ts[from[c]]
    ensures forall c, d :: 0 <= c < d < |from| ==> from[c] != from[d]
    ensures forall c :: |from| <= c < 48 ==> n48.values[c].Empty?
  {
    var i, count := 0, 0;
    from := [];
    ghost var cs: seq<Tree> := [];
    hide SetCount, SetChildren;
    SetStart(ts);
    while i < 256
      invariant 0 <= i <= 256 && count == SetCount(ts, i) == |from| == |cs| && count <= 48
      invariant cs == SetChildren(ts, i)
      invariant forall b :: 0 <= b < i ==> n48.keys[b] == if ts[b].Unset? then 48 else SetCount(ts, b)
      invariant forall c :: 0 <= c < count ==> 0 <= from[c] < i
      invariant forall c :: 0 <= c < count ==> n48.values[c] == n256.values[from[c]]
      invariant forall c :: 0 <= c < count ==> cs[c] == ts[from[c]]
      invariant forall c, d :: 0 <= c < d < count ==> from[c] != from[d]
      invariant forall c :: count <= c < 48 ==> n48.values[c].Empty?
    {
      SetStep(ts, i);
      if n256.values[i].Empty? {
        n48.keys[i] := 48;
      } else {
        n48.keys[i] := count;
        n48.values[count] := n256.values[i];
        count := count + 1;
        from := from + [i];
        cs := cs + [ts[i]];
      }
      i := i + 1;
    }
  }

  lemma SetStart(ts: seq<Tree>)
    ensures SetCount(ts, 0) == 0 && SetChildren(ts, 0) == []
  {
  }

  lemma SetStep(ts: seq<Tree>, i: nat)
    requires i < |ts|
    ensures SetCount(ts, i + 1) == SetCount(ts, i) + if ts[i].Unset? then 0 else 1
    ensures SetChildren(ts, i + 1) == SetChildren(ts, i) + if ts[i].Unset? then [] else [ts[i]]
    ensures SetCount(ts, i + 1) <= SetCount(ts, |ts|)
  {
    SetCountMonotone(ts, i + 1, |ts|);
  }

  lemma CountedChildren(ts: seq<Tree>)
    requires |ts| == 256 && SetCount(ts, 256) <= 48
    ensures DegradeTo48(ts).Node48? && |DegradeTo48(ts).values| == SetCount(ts, 256)
  {
  }

  method NewNode48From256(n256: Node, ghost ts: seq<Tree>, ghost r: set<object>) returns (n48: Node, ghost from: seq<int>)
    requires n256.values.Length == 256 == |ts| && n256.nrEntries == SetCount(ts, 256) <= 48
    requires forall i :: 0 <= i < 256 ==> (n256.values[i].Empty? <==> ts[i].Unset?)
    ensures fresh(n48.Own()) && n48.keys.Length == 256 && n48.values.Length == 48 && n48.nrEntries == SetCount(ts, 256)
    ensures r !! n48.Own() && n48.repr == n48.Own() + r
    ensures n48.keys[..] == DegradeTo48(ts).index
    ensures DegradeTo48(ts).Node48? && Moved(n256.values[..], n48.values[..], Node256(ts), DegradeTo48(ts), from)
  {
    hide SetCount, SetChildren;
    n48 := new Node(256, 48);
    n48.nrEntries := n256.nrEntries;
    from := CopySet(n256, n48, ts);
    n48.repr := n48.Own() + r;
  }

  method DegradeToN48(n256: Node, ghost ts: seq<Tree>) returns (s': Slot)
    requires n256.Own() <= n256.repr && n256.values.Length == 256 == |ts|
    requires n256.nrEntries == SetCount(ts, 256) <= 48
    requires Kids(n256.values[..], n256.repr - n256.Own(), Node256(ts))
    ensures Holds(s', DegradeTo48(ts))
    ensures fresh(Foot(s') - n256.repr)
  {
    ghost var t, t' := Node256(ts), DegradeTo48(ts);
    ghost var r, slots := n256.repr - n256.Own(), n256.values[..];
    hide Holds, Kids, Moved, SetCount;
    KidsShape(slots, r, t);
    var n48;
    ghost var from;
    n48, from := NewNode48From256(n256, ts, r);
    s' := N48(n48);
    assert Kids(slots, r, t);
    CountedChildren(ts);
    Header48(s', t');
    hide Header, DegradeTo48;
    KidsMoved(slots, n48.values[..], r, t, t', from);
    MakeHolds(s', t', r);
  }

  // ------------------------------------------------------------------
  // Dropping a slot
  // ------------------------------------------------------------------

  method Drop4(s: Slot, ghost t: Tree, b: Byte, i: nat) returns (s': Slot)
    requires s.N4? && Refilled(s, t, i, Unset)
    requires ShapeOk(t) && SlotOf(t, b) == i && !t.values[i].Unset?
    modifies s.node, s.node.keys, s.node.values
    ensures Holds(s', DropChild(t, b))
    ensures fresh(Foot(s') - old(Foot(s)))
  {
    ghost var r := s.node.repr - s.node.Own();
    hide Holds, Kids;
    EraseLinear(s, t, i);
    if s.node.nrEntries == 0 {
      s' := Empty;
      UnsetHolds();
    } else {
      s' := s;
      MakeHolds(s', DropChild(t, b), r);
    }
  }

  method Drop16(s: Slot, ghost t: Tree, b: Byte, i: nat) returns (s': Slot)
    requires s.N16? && Refilled(s, t, i, Unset)
    requires ShapeOk(t) && SlotOf(t, b) == i && !t.values[i].Unset?
    modifies s.node, s.node.keys, s.node.values
    ensures Holds(s', DropChild(t, b))
    ensures fresh(Foot(s') - old(Foot(s)))
  {
    var n := s.node;
    ghost var r := n.repr - n.Own();
    ghost var t' := Node4(Erase(t.keys, i), Erase(t.values, i));
    hide Holds, Kids;
    EraseLinear(s, t, i);
    if n.nrEntries <= 4 {
      s' := DegradeToN4(n, t'.keys, t'.values);
    } else {
      s' := s;
      KidsOnlyValues(n.values[..], r, t', DropChild(t, b));
      MakeHolds(s', DropChild(t, b), r);
    }
  }

  lemma Refilled48(s: Slot, t: Tree, i: nat)
    requires s.N48? && Refilled(s, t, i, Unset)
    ensures t.Node48? && i < |t.values| <= 48 && |t.index| == 256 && s.node.Own() <= s.node.repr
    ensures s.node.keys.Length == 256 && s.node.values.Length == 48 && s.node.nrEntries == |t.values|
  {
  }

  lemma Header48(s: Slot, t: Tree)
    requires s.N48? && t.Node48? && s.node.keys.Length == 256 && s.node.values.Length == 48
    requires s.node.nrEntries == |t.values| <= 48 && s.node.keys[..] == t.index
    ensures Header(s, t)
  {
  }

  lemma Drop48Tree(t: Tree, b: Byte, i: nat)
    requires t.Node48? && ShapeOk(t) && i < |t.values| && SlotOf(t, b) == i
    ensures var t2 := Node48(IndexErase(t.index, b, i), Erase(t.values, i));
      && IndexOk(t2.index, |t2.values|) && |t2.values| == |t.values| - 1
      && DropChild(t, b) == if |t2.values| <= 16 then DegradeTo16(t2.index, t2.values) else t2
  {
    IndexEraseOk(t.index, |t.values|, b);
  }

  method Drop48(s: Slot, ghost t: Tree, b: Byte, i: nat) returns (s': Slot)
    requires s.N48? && Refilled(s, t, i, Unset)
    requires ShapeOk(t) && SlotOf(t, b) == i && !t.values[i].Unset?
    modifies s.node, s.node.keys, s.node.values
    ensures Holds(s', DropChild(t, b))
    ensures fresh(Foot(s') - old(Foot(s)))
  {
    hide Holds, Kids, Header, Refilled, IndexOk, IndexErase, Erase, DegradeTo16, DropChild, SlotOf, ShapeOk;
    Refilled48(s, t, i);
    var n := s.node;
    ghost var r := n.repr - n.Own();
    ghost var t2 := Node48(IndexErase(t.index, b, i), Erase(t.values, i));
    Drop48Tree(t, b, i);
    Erase48(s, t, b, i);
    if n.nrEntries <= 16 {
      s' := DegradeToN16(n, t2.index, t2.values);
    } else {
      s' := s;
      Header48(s', t2);
      MakeHolds(s', t2, r);
    }
  }

  method Drop256(s: Slot, ghost t: Tree, b: Byte, i: nat) returns (s': Slot)
    requires s.N256? && Refilled(s, t, i, Unset)
    requires ShapeOk(t) && SlotOf(t, b) == i && !t.values[i].Unset?
    modifies s.node, s.node.keys, s.node.values
    ensures Holds(s', DropChild(t, b))
    ensures fresh(Foot(s') - old(Foot(s)))
  {
    var n := s.node;
    ghost var r := n.repr - n.Own();
    SetCountUpdate(t.values, b, Unset, 256);
    hide Holds, Kids, SetCount, DegradeTo48;
    n.nrEntries := n.nrEntries - 1;
    if n.nrEntries <= 48 {
      s' := DegradeToN48(n, t.values[b := Unset]);
    } else {
      s' := s;
      MakeHolds(s', DropChild(t, b), r);
    }
  }

  lemma KidsOnlyValues(slots: seq<Slot>, r: set<object>, t: Tree, t': Tree)
    requires IsNode(t) && IsNode(t') && t.values == t'.values && Kids(slots, r, t)
    ensures Kids(slots, r, t')
  {
    hide Holds;
  }

  /** Slot i of s, that of byte b, has become empty: the node shrinks. */
  method DropSlot(s: Slot, ghost t: Tree, b: Byte, i: nat) returns (s': Slot)
    requires IsNodeSlot(s) && Refilled(s, t, i, Unset)
    requires ShapeOk(t) && SlotOf(t, b) == i && !t.values[i].Unset?
    modifies s.node, s.node.keys, s.node.values
    ensures Holds(s', DropChild(t, b))
    ensures fresh(Foot(s') - old(Foot(s)))
  {
    hide Holds, Kids, ShapeOk, DropChild, SlotOf, WithSlot, Refilled;
    if s.N4? {
      s' := Drop4(s, t, b, i);
    } else if s.N16? {
      s' := Drop16(s, t, b, i);
    } else if s.N48? {
      s' := Drop48(s, t, b, i);
    } else {
      s' := Drop256(s, t, b, i);
    }
  }

  lemma UnsetHolds()
    ensures Holds(Empty, Unset)
  {
  }

  /** What a node becomes once c is in slot i, that of byte b. */
  method PutBackSlot(s: Slot, ghost t: Tree, b: Byte, i: nat, ghost c: Tree) returns (s': Slot)
    requires IsNodeSlot(s) && Refilled(s, t, i, c)
    requires ShapeOk(t) && SlotOf(t, b) == i && !t.values[i].Unset?
    modifies s.node, s.node.keys, s.node.values
    ensures Holds(s', PutBack(t, b, c))
    ensures fresh(Foot(s') - old(Foot(s)))
  {
    EmptyHolds(s.node.values[i], c);
    if s.node.values[i].Empty? {
      s' := DropSlot(s, t, b, i);
    } else {
      if t.Node256? { SetCountUpdate(t.values, i, c, 256); }
      s' := s;
    }
  }
}
