// Adding a child to a node in place, growing the node when it is full.
module AdaptiveGrow {
  import opened Bytes
  import opened AdaptiveTree
  import opened NodeLemmas
  import opened AdaptiveOps
  import opened AdaptiveHeap
  import opened AdaptiveShrink

  // c, holding c', can become the child of byte b of the node s, holding t.
  ghost predicate CanAdd(s: Slot, t: Tree, b: Byte, c: Slot, c': Tree)
    reads Cell(s), Foot(s), Cell(c), Foot(c)
  {
    && IsNodeSlot(s) && IsNode(t) && Holds(s, t) && ShapeOk(t)
    && Child(t, b).Unset? && Holds(c, c')
    && Foot(c) !! Foot(s)
  }

  lemma KidsToBut(slots: seq<Slot>, r: set<object>, t: Tree, i: nat)
    requires IsNode(t) && Kids(slots, r, t)
    ensures KidsBut(slots, r, t, i)
  {
    hide Holds;
  }

  /** A new child in an empty slot. */
  lemma KidsAdd(slots: seq<Slot>, r: set<object>, t: Tree, i: nat, c: Slot, c': Tree, t': Tree)
    requires IsNode(t) && IsNode(t') && i <= |t.values| && i < |slots| && Kids(slots, r, t)
    requires t'.values == if i < |t.values| then t.values[i := c'] else t.values + [c']
    requires Holds(c, c') && Foot(c) !! r
    ensures Kids(slots[i := c], r + Foot(c), t')
  {
    CellOwned(c, c');
    KidsToBut(slots, r, t, i);
    hide Holds, Kids;
    KidsSet(slots, r, t, i, c, c', t');
  }

  lemma OpenNode(s: Slot, t: Tree)
    requires IsNodeSlot(s) && IsNode(t) && Holds(s, t)
    ensures s.node.Own() <= s.node.repr && Header(s, t)
    ensures Kids(s.node.values[..], s.node.repr - s.node.Own(), t)
  {
  }

  // ------------------------------------------------------------------
  // Room left
  // ------------------------------------------------------------------

  method AppendLinear(s: Slot, ghost t: Tree, b: Byte, c: Slot, ghost c': Tree)
    requires IsNode(t) && ((s.N4? && |t.values| < 4) || (s.N16? && |t.values| < 16)) && CanAdd(s, t, b, c, c')
    modifies s.node, s.node.keys, s.node.values
    ensures Holds(s, AddChild(t, b, c'))
    ensures Foot(s) == old(Foot(s)) + Foot(c)
  {
    hide Holds, Kids;
    var n := s.node;
    OpenNode(s, t);
    ghost var r, t' := n.repr - n.Own() + Foot(c), AddChild(t, b, c');
    KidsAdd(n.values[..], n.repr - n.Own(), t, n.nrEntries, c, c', t');
    n.values[n.nrEntries] := c;
    n.keys[n.nrEntries] := b;
    n.nrEntries := n.nrEntries + 1;
    n.repr := n.repr + Foot(c);
    MakeHolds(s, t', r);
  }

  method Append48(s: Slot, ghost t: Tree, b: Byte, c: Slot, ghost c': Tree)
    requires s.N48? && IsNode(t) && |t.values| < 48 && CanAdd(s, t, b, c, c')
    modifies s.node, s.node.keys, s.node.values
    ensures Holds(s, AddChild(t, b, c'))
    ensures Foot(s) == old(Foot(s)) + Foot(c)
  {
    hide Holds, Kids;
    var n := s.node;
    OpenNode(s, t);
    ghost var r, t' := n.repr - n.Own() + Foot(c), AddChild(t, b, c');
    KidsAdd(n.values[..], n.repr - n.Own(), t, n.nrEntries, c, c', t');
    n.values[n.nrEntries] := c;
    n.keys[b] := n.nrEntries;
    n.nrEntries := n.nrEntries + 1;
    n.repr := n.repr + Foot(c);
    MakeHolds(s, t', r);
  }

  method Set256(s: Slot, ghost t: Tree, b: Byte, c: Slot, ghost c': Tree)
    requires s.N256? && CanAdd(s, t, b, c, c') && !c'.Unset?
    modifies s.node, s.node.keys, s.node.values
    ensures Holds(s, AddChild(t, b, c'))
    ensures Foot(s) == old(Foot(s)) + Foot(c)
  {
    hide Holds, Kids;
    var n := s.node;
    OpenNode(s, t);
    ghost var r, t' := n.repr - n.Own() + Foot(c), AddChild(t, b, c');
    KidsAdd(n.values[..], n.repr - n.Own(), t, b, c, c', t');
    SetCountUpdate(t.values, b, c', 256);
    n.values[b] := c;
    n.nrEntries := n.nrEntries + 1;
    n.repr := n.repr + Foot(c);
    MakeHolds(s, t', r);
  }

  // ------------------------------------------------------------------
  // Growing
  // ------------------------------------------------------------------

  /** The slots have been copied to a longer array, and c goes behind them. */
  lemma GrownKids(slots: seq<Slot>, slots': seq<Slot>, r: set<object>, t: Tree, c: Slot, c': Tree, t': Tree)
    requires IsNode(t) && IsNode(t') && Kids(slots, r, t) && |t.values| == |slots| < |slots'|
    requires t'.values == t.values + [c']
    requires forall x :: 0 <= x < |slots| ==> slots'[x] == slots[x]
    requires forall x :: |slots| <= x < |slots'| ==> slots'[x].Empty?
    requires Holds(c, c') && Foot(c) !! r
    ensures Kids(slots'[|slots| := c], r + Foot(c), t')
  {
    hide Holds, Kids;
    SameSlots(slots, slots', r, t, t);
    KidsAdd(slots', r, t, |slots|, c, c', t');
  }

  method NewNode16From4(n4: Node) returns (n16: Node)
    requires n4.keys.Length == 4 == n4.values.Length
    ensures fresh(n16.Own()) && n16.keys.Length == 16 == n16.values.Length && n16.nrEntries == 5
    ensures n16.keys[..4] == n4.keys[..]
    ensures forall i :: 0 <= i < 4 ==> n16.values[i] == n4.values[i]
    ensures forall i :: 4 <= i < 16 ==> n16.values[i].Empty?
  {
    n16 := new Node(16, 16);
    n16.nrEntries := 5;
    forall i | 0 <= i < 4 { n16.keys[i] := n4.keys[i]; }
    forall i | 0 <= i < 4 { n16.values[i] := n4.values[i]; }
  }

  method GrowToN16(n4: Node, ghost t: Tree, b: Byte, c: Slot, ghost c': Tree) returns (s': Slot)
    requires t.Node4? && |t.values| == 4 && CanAdd(N4(n4), t, b, c, c')
    ensures Holds(s', AddChild(t, b, c'))
    ensures fresh(Foot(s') - n4.repr - Foot(c))
  {
    hide Holds, Kids;
    OpenNode(N4(n4), t);
    ghost var r, slots, t' := n4.repr - n4.Own(), n4.values[..], AddChild(t, b, c');
    CellOwned(c, c');
    var n16 := NewNode16From4(n4);
    assert r !! n16.Own() && Foot(c) !! n16.Own() && Foot(c) !! r;
    n16.repr := n16.Own() + (r + Foot(c));
    assert Kids(slots, r, t) && Holds(c, c');
    GrownKids(slots, n16.values[..], r, t, c, c', t');
    n16.keys[4] := b;
    n16.values[4] := c;
    s' := N16(n16);
    MakeHolds(s', t', r + Foot(c));
  }

  method FillIndex(n16: Node, n48: Node, ghost keys: seq<Byte>)
    requires n16.keys.Length == 16 == n16.values.Length && n16.keys[..] == keys && NoDup(keys)
    requires n48.keys.Length == 256 && n48.values.Length == 48 && n48.keys != n16.keys && n48.values != n16.values
    requires forall i :: 0 <= i < 48 ==> n48.values[i].Empty?
    modifies n48.keys, n48.values
    ensures n48.keys[..] == IndexFromKeys(keys)
    ensures forall i :: 0 <= i < 16 ==> n48.values[i] == n16.values[i]
    ensures forall i :: 16 <= i < 48 ==> n48.values[i].Empty?
  {
    forall b | 0 <= b < 256 { n48.keys[b] := 48; }
    var i := 0;
    while i < 16
      invariant 0 <= i <= 16
      invariant forall b :: 0 <= b < 256 ==> n48.keys[b] == if FindByte(keys, b) < i then FindByte(keys, b) else 48
      invariant forall j :: 0 <= j < i ==> n48.values[j] == n16.values[j]
      invariant forall j :: i <= j < 48 ==> n48.values[j].Empty?
    {
      FindByteAt(keys, i);
      n48.keys[n16.keys[i]] := i;
      n48.values[i] := n16.values[i];
      i := i + 1;
    }
  }

  method NewNode48(n16: Node, ghost keys: seq<Byte>) returns (n48: Node)
    requires n16.keys.Length == 16 == n16.values.Length && n16.keys[..] == keys && NoDup(keys)
    ensures fresh(n48.Own()) && n48.keys.Length == 256 && n48.values.Length == 48 && n48.nrEntries == 17
    ensures n48.keys[..] == IndexFromKeys(keys)
    ensures forall i :: 0 <= i < 16 ==> n48.values[i] == n16.values[i]
    ensures forall i :: 16 <= i < 48 ==> n48.values[i].Empty?
  {
    n48 := new Node(256, 48);
    n48.nrEntries := 17;
    FillIndex(n16, n48, keys);
  }

  method GrowToN48(n16: Node, ghost t: Tree, b: Byte, c: Slot, ghost c': Tree) returns (s': Slot)
    requires t.Node16? && |t.values| == 16 && CanAdd(N16(n16), t, b, c, c')
    ensures Holds(s', AddChild(t, b, c'))
    ensures fresh(Foot(s') - n16.repr - Foot(c))
  {
    hide Holds, Kids;
    OpenNode(N16(n16), t);
    ghost var r, slots, t' := n16.repr - n16.Own(), n16.values[..], AddChild(t, b, c');
    CellOwned(c, c');
    var n48 := NewNode48(n16, t.keys);
    assert r !! n48.Own() && Foot(c) !! n48.Own() && Foot(c) !! r;
    n48.repr := n48.Own() + (r + Foot(c));
    assert Kids(slots, r, t) && Holds(c, c');
    GrownKids(slots, n48.values[..], r, t, c, c', t');
    n48.keys[b] := 16;
    n48.values[16] := c;
    s' := N48(n48);
    MakeHolds(s', t', r + Foot(c));
  }

  /** Where the slots of the Node256 grown from a Node48 come from. */
  ghost function SpreadFrom(index: seq<Byte>): (from: seq<int>)
    requires |index| == 256
    ensures |from| == 256 && forall b :: 0 <= b < 256 ==> from[b] == if index[b] < 48 then index[b] else -1
  {
    seq(256, (b: nat) requires b < 256 => if index[b] < 48 then index[b] as int else -1)
  }

  method Spread(n48: Node, n256: Node, ghost index: seq<Byte>)
    requires n48.keys.Length == 256 && n48.keys[..] == index && n48.values.Length == 48
    requires n256.values.Length == 256 && n256.values != n48.values
    requires forall b :: 0 <= b < 256 ==> n256.values[b].Empty?
    modifies n256.values
    ensures forall b :: 0 <= b < 256 ==>
      if index[b] < 48 then n256.values[b] == n48.values[index[b]] else n256.values[b].Empty?
  {
    var i := 0;
    while i < 256
      invariant 0 <= i <= 256
      invariant forall b :: 0 <= b < i ==>
        if index[b] < 48 then n256.values[b] == n48.values[index[b]] else n256.values[b].Empty?
      invariant forall b :: i <= b < 256 ==> n256.values[b].Empty?
    {
      assert n48.keys[i] == index[i];
      if n48.keys[i] < 48 { n256.values[i] := n48.values[n48.keys[i]]; }
      i := i + 1;
    }
  }

  lemma SpreadKids(t: Tree, slots: seq<Slot>, slots': seq<Slot>, r: set<object>)
    requires t.Node48? && ShapeOk(t) && |t.values| == 48 == |slots| && Kids(slots, r, t)
    requires |slots'| == 256 && forall b :: 0 <= b < 256 ==>
      if t.index[b] < 48 then slots'[b] == slots[t.index[b]] else slots'[b].Empty?
    ensures Kids(slots', r, Node256(ChildrenByByte(t)))
  {
    hide Kids, Holds;
    KidsMoved(slots, slots', r, t, Node256(ChildrenByByte(t)), SpreadFrom(t.index));
  }

  method NewNode256(n48: Node, ghost index: seq<Byte>) returns (n256: Node)
    requires n48.keys.Length == 256 && n48.keys[..] == index && n48.values.Length == 48
    ensures fresh(n256.Own()) && n256.keys.Length == 0 && n256.values.Length == 256 && n256.nrEntries == 49
    ensures forall b :: 0 <= b < 256 ==>
      if index[b] < 48 then n256.values[b] == n48.values[index[b]] else n256.values[b].Empty?
  {
    n256 := new Node(0, 256);
    n256.nrEntries := 49;
    Spread(n48, n256, index);
  }

  lemma Grown256(t: Tree, b: Byte, c: Tree)
    requires t.Node48? && ShapeOk(t) && |t.values| == 48 && Child(t, b).Unset? && !c.Unset?
    ensures var values := ChildrenByByte(t)[b := c];
      AddChild(t, b, c) == Node256(values) && SetCount(values, 256) == 49
  {
    UsedCount(t.index, 48);
    UsedIsSet(t, 0);
    SetCountUpdate(ChildrenByByte(t), b, c, 256);
  }

  method GrowToN256(n48: Node, ghost t: Tree, b: Byte, c: Slot, ghost c': Tree) returns (s': Slot)
    requires t.Node48? && |t.values| == 48 && CanAdd(N48(n48), t, b, c, c') && !c'.Unset?
    ensures Holds(s', AddChild(t, b, c'))
    ensures fresh(Foot(s') - n48.repr - Foot(c))
  {
    hide Holds, Kids;
    OpenNode(N48(n48), t);
    ghost var r, slots, t' := n48.repr - n48.Own(), n48.values[..], AddChild(t, b, c');
    ghost var mid := Node256(ChildrenByByte(t));
    Grown256(t, b, c');
    CellOwned(c, c');
    hide ShapeOk, SetCount, AddChild;
    var n256 := NewNode256(n48, t.index);
    assert r !! n256.Own() && Foot(c) !! n256.Own() && Foot(c) !! r;
    n256.repr := n256.Own() + (r + Foot(c));
    assert Kids(slots, r, t) && Holds(c, c');
    SpreadKids(t, slots, n256.values[..], r);
    KidsAdd(n256.values[..], r, mid, b, c, c', t');
    n256.values[b] := c;
    s' := N256(n256);
    MakeHolds(s', t', r + Foot(c));
  }

  // ------------------------------------------------------------------

  /** c becomes the child of byte b, which had none. */
  method AddSlot(s: Slot, ghost t: Tree, b: Byte, c: Slot, ghost c': Tree) returns (s': Slot)
    requires CanAdd(s, t, b, c, c') && !c'.Unset?
    modifies s.node, s.node.keys, s.node.values
    ensures Holds(s', AddChild(t, b, c'))
    ensures fresh(Foot(s') - old(Foot(s)) - Foot(c))
  {
    hide Holds, Kids, AddChild;
    OpenNode(s, t);
    var n := s.node;
    s' := s;
    if s.N4? {
      if n.nrEntries == 4 { s' := GrowToN16(n, t, b, c, c'); } else { AppendLinear(s, t, b, c, c'); }
    } else if s.N16? {
      if n.nrEntries == 16 { s' := GrowToN48(n, t, b, c, c'); } else { AppendLinear(s, t, b, c, c'); }
    } else if s.N48? {
      if n.nrEntries == 48 { s' := GrowToN256(n, t, b, c, c'); } else { Append48(s, t, b, c, c'); }
    } else {
      Set256(s, t, b, c, c');
    }
  }
}
