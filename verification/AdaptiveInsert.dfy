// radix_tree_insert, in place.
module AdaptiveInsert {
  import opened Bytes
  import opened AdaptiveTree
  import opened NodeLemmas
  import opened AdaptiveOps
  import opened AdaptiveProofs
  import opened AdaptiveHeap
  import opened AdaptiveShrink
  import opened AdaptiveGrow

  method NewSlotCell(k: Key, v: RadixValue) returns (s: Slot)
    ensures Holds(s, NewSlot(k, v)) && !NewSlot(k, v).Unset? && fresh(Foot(s))
  {
    if k == [] {
      s := Val(v);
    } else {
      var pc := new PrefixChainCell(k, Val(v));
      s := PChain(pc);
    }
  }

  method ValueChainOver(v: RadixValue, s: Slot, ghost t: Tree) returns (s': Slot)
    requires Holds(s, t)
    ensures Holds(s', ValueChain(v, t)) && fresh(Foot(s') - Foot(s))
  {
    CellOwned(s, t);
    hide Holds;
    var vc := new ValueChainCell(v, s);
    s' := VChain(vc);
    MakeValueChain(vc, t);
  }

  lemma MakeValueChain(vc: ValueChainCell, t: Tree)
    requires Holds(vc.child, t) && Cell(vc.child) <= Foot(vc.child)
    requires vc !in Foot(vc.child) && vc.repr == {vc} + Foot(vc.child)
    ensures Holds(VChain(vc), ValueChain(vc.value, t))
  {
  }

  lemma MakePrefixChain(pc: PrefixChainCell, t: Tree)
    requires Holds(pc.child, t) && Cell(pc.child) <= Foot(pc.child)
    requires pc !in Foot(pc.child) && pc.repr == {pc} + Foot(pc.child)
    ensures Holds(PChain(pc), PrefixChain(pc.prefix, t))
  {
  }

  lemma OpenValueChain(s: Slot, t: Tree)
    requires s.VChain? && Holds(s, t)
    ensures t.ValueChain? && t.value == s.vc.value && s.vc in s.vc.repr
    ensures Cell(s.vc.child) <= Foot(s.vc.child) <= s.vc.repr - {s.vc} && Holds(s.vc.child, t.child)
  {
  }

  lemma OpenPrefixChain(s: Slot, t: Tree)
    requires s.PChain? && Holds(s, t)
    ensures t.PrefixChain? && t.prefix == s.pc.prefix && s.pc in s.pc.repr
    ensures Cell(s.pc.child) <= Foot(s.pc.child) <= s.pc.repr - {s.pc} && Holds(s.pc.child, t.child)
  {
  }

  // ------------------------------------------------------------------
  // Insertion where the lookup stopped.  The blind appends of the C code are
  // safe because the lookup stops nowhere else; see LookupStops.
  // ------------------------------------------------------------------

  method InsertAt(s: Slot, ghost t: Tree, k: Key, v: RadixValue) returns (s': Slot, added: nat)
    requires Holds(s, t) && Wf(t) && Stop(t, k)
    modifies Foot(s)
    ensures added == InsertHere(t, k, v).added
    ensures Holds(s', InsertHere(t, k, v).tree)
    ensures fresh(Foot(s') - old(Foot(s)))
    decreases |k|, 1
  {
    EmptyHolds(s, t);
    if k == [] {
      if s.Empty? {
        return Val(v), 1;
      } else if s.Val? {
        return Val(v), 0;
      } else {
        s' := ValueChainOver(v, s, t);
        added := 1;
      }
    } else if s.Empty? {
      s' := NewSlotCell(k, v);
      added := 1;
    } else if s.Val? {
      var c := NewSlotCell(k, v);
      s' := ValueChainOver(s.value, c, NewSlot(k, v));
      added := 1;
    } else if s.PChain? {
      OpenPrefixChain(s, t);
      if k[0] == s.pc.prefix[0] {
        s', added := SplitChain(s, t, k, v);
      } else {
        s' := NodeBeforeChain(s, t, k, v);
        added := 1;
      }
    } else {
      s' := AppendToNode(s, t, k, v);
      added := 1;
    }
  }

  lemma Appended(t: Tree, k: Key, v: RadixValue)
    requires IsNode(t) && ShapeOk(t) && k != [] && Child(t, k[0]).Unset?
    ensures InsertHere(t, k, v) == Inserted(AddChild(t, k[0], NewSlot(k[1..], v)), 1)
  {
  }

  method AppendToNode(s: Slot, ghost t: Tree, k: Key, v: RadixValue) returns (s': Slot)
    requires IsNodeSlot(s) && IsNode(t) && Holds(s, t) && ShapeOk(t) && k != [] && Child(t, k[0]).Unset?
    modifies s.node, s.node.keys, s.node.values
    ensures InsertHere(t, k, v).added == 1
    ensures Holds(s', InsertHere(t, k, v).tree)
    ensures fresh(Foot(s') - old(Foot(s)))
  {
    hide Holds, ShapeOk, InsertHere, AddChild, NewSlot, Child;
    CellOwned(s, t);
    Appended(t, k, v);
    var c := NewSlotCell(k[1..], v);
    CellOwned(c, NewSlot(k[1..], v));
    s' := AddSlot(s, t, k[0], c, NewSlot(k[1..], v));
  }

  method CommonPrefix(p: seq<Byte>, k: Key) returns (i: nat)
    ensures i == CommonLen(p, k) && i <= |p| && i <= |k|
  {
    i := 0;
    while i < |p| && i < |k| && k[i] == p[i]
      invariant i <= |p| && i <= |k| && k[..i] == p[..i]
    {
      i := i + 1;
    }
    CommonLenIs(p, k, i);
  }

  lemma SplitStep(t: Tree, k: Key, v: RadixValue, i: nat)
    requires t.PrefixChain? && Wf(t) && Stop(t, k) && k != [] && k[0] == t.prefix[0] && i == CommonLen(t.prefix, k)
    ensures 0 < i < |t.prefix| && i <= |k|
    ensures var t2 := PrefixChain(t.prefix[i..], t.child);
      && Wf(t2) && Stop(t2, k[i..])
      && var r := InsertHere(t2, k[i..], v);
         InsertHere(t, k, v) == Inserted(PrefixChain(t.prefix[..i], r.tree), r.added)
  {
  }

  /** A chain that shares its first bytes with the key is cut in two. */
  method SplitChain(s: Slot, ghost t: Tree, k: Key, v: RadixValue) returns (s': Slot, added: nat)
    requires s.PChain? && Holds(s, t) && Wf(t) && k != [] && Stop(t, k) && k[0] == s.pc.prefix[0]
    modifies Foot(s)
    ensures added == InsertHere(t, k, v).added
    ensures Holds(s', InsertHere(t, k, v).tree)
    ensures fresh(Foot(s') - old(Foot(s)))
    decreases |k|, 0
  {
    hide Holds, Wf, InsertHere, Stop, CommonLen;
    CellOwned(s, t);
    OpenPrefixChain(s, t);
    var i := CommonPrefix(s.pc.prefix, k);
    SplitStep(t, k, v, i);
    ghost var r := InsertHere(PrefixChain(t.prefix[i..], t.child), k[i..], v);
    var c: Slot;
    c, added := InsertBehind(s, t, i, k[i..], v, r);
    s' := s;
    StoreChain(s.pc, c, r.tree);
  }

  /** Cuts off what follows the first i bytes of a chain and inserts there. */
  method InsertBehind(s: Slot, ghost t: Tree, i: nat, k: Key, v: RadixValue, ghost r: Inserted)
    returns (c: Slot, added: nat)
    requires s.PChain? && Holds(s, t) && t.PrefixChain? && i <= |t.prefix|
    requires Wf(PrefixChain(t.prefix[i..], t.child)) && Stop(PrefixChain(t.prefix[i..], t.child), k)
    requires r == InsertHere(PrefixChain(t.prefix[i..], t.child), k, v)
    modifies Foot(s)
    ensures Holds(c, r.tree) && added == r.added && s.pc.prefix == t.prefix[..i]
    ensures s.pc !in Foot(c) && fresh(Foot(c) - old(Foot(s)))
    decreases |k|, 2
  {
    hide Holds, Wf, InsertHere, Stop;
    OpenPrefixChain(s, t);
    c := CutChain(s, t, i);
    c, added := InsertAt(c, PrefixChain(t.prefix[i..], t.child), k, v);
  }

  /** Leaves the first i bytes in the chain and moves the rest to a chain of its own. */
  method CutChain(s: Slot, ghost t: Tree, i: nat) returns (c: Slot)
    requires s.PChain? && Holds(s, t) && t.PrefixChain? && i <= |t.prefix|
    modifies s.pc
    ensures Holds(c, PrefixChain(t.prefix[i..], t.child)) && s.pc.prefix == t.prefix[..i]
    ensures s.pc !in Foot(c) && fresh(Foot(c) - old(Foot(s)))
  {
    hide Holds;
    CellOwned(s, t);
    OpenPrefixChain(s, t);
    var pc := s.pc;
    var pc2 := new PrefixChainCell(pc.prefix[i..], pc.child);
    MakePrefixChain(pc2, t.child);
    c := PChain(pc2);
    CellOwned(c, PrefixChain(t.prefix[i..], t.child));
    pc.child := c;
    pc.prefix := pc.prefix[..i];
  }

  method StoreChain(pc: PrefixChainCell, c: Slot, ghost c': Tree)
    requires Holds(c, c') && pc !in Foot(c)
    modifies pc
    ensures Holds(PChain(pc), PrefixChain(pc.prefix, c')) && pc.prefix == old(pc.prefix)
    ensures pc.repr == {pc} + Foot(c) && Foot(c) == old(Foot(c))
  {
    CellOwned(c, c');
    hide Holds;
    pc.child := c;
    pc.repr := {pc} + Foot(c);
    MakePrefixChain(pc, c');
  }

  lemma {:induction false} CommonLenIs(p: seq<Byte>, k: Key, i: nat)
    requires i <= |p| && i <= |k| && p[..i] == k[..i] && (i < |p| && i < |k| ==> p[i] != k[i])
    ensures CommonLen(p, k) == i
  {
    if i > 0 {
      assert p[..i][0] == k[..i][0];
      assert p[1..][..i - 1] == p[..i][1..] && k[1..][..i - 1] == k[..i][1..];
      CommonLenIs(p[1..], k[1..], i - 1);
    }
  }

  function ChainTail(t: Tree): Tree
    requires t.PrefixChain? && t.prefix != []
  {
    if |t.prefix| == 1 then t.child else PrefixChain(t.prefix[1..], t.child)
  }

  /** Takes the first byte off a chain. */
  method DropByte(s: Slot, ghost t: Tree) returns (s': Slot)
    requires s.PChain? && Holds(s, t) && t.PrefixChain? && t.prefix != []
    modifies s.pc
    ensures Holds(s', ChainTail(t)) && Foot(s') <= old(Foot(s))
  {
    hide Holds;
    CellOwned(s, t);
    OpenPrefixChain(s, t);
    var pc := s.pc;
    if |pc.prefix| == 1 {
      return pc.child;
    }
    pc.prefix := pc.prefix[1..];
    pc.repr := {pc} + Foot(pc.child);
    s' := s;
    MakePrefixChain(pc, t.child);
  }

  lemma NodeBefore(t: Tree, k: Key, v: RadixValue)
    requires t.PrefixChain? && Wf(t) && k != [] && k[0] != t.prefix[0]
    ensures InsertHere(t, k, v) == Inserted(Node4([t.prefix[0], k[0]], [ChainTail(t), NewSlot(k[1..], v)]), 1)
  {
  }

  /** A chain that shares nothing with the key goes below a new node4. */
  method NodeBeforeChain(s: Slot, ghost t: Tree, k: Key, v: RadixValue) returns (s': Slot)
    requires s.PChain? && Holds(s, t) && Wf(t) && k != [] && s.pc.prefix != [] && k[0] != s.pc.prefix[0]
    modifies Foot(s)
    ensures InsertHere(t, k, v).added == 1
    ensures Holds(s', InsertHere(t, k, v).tree)
    ensures fresh(Foot(s') - old(Foot(s)))
  {
    hide Holds, Wf, InsertHere, NewSlot, ChainTail;
    CellOwned(s, t);
    OpenPrefixChain(s, t);
    NodeBefore(t, k, v);
    var b := s.pc.prefix[0];
    var first := DropByte(s, t);
    CellOwned(first, ChainTail(t));
    var second := NewSlotCell(k[1..], v);
    CellOwned(second, NewSlot(k[1..], v));
    s' := NewPair(b, k[0], first, second, ChainTail(t), NewSlot(k[1..], v));
  }

  lemma KidsPair(slots: seq<Slot>, t: Tree)
    requires t.Node4? && |t.values| == 2 && |slots| == 4 && slots[2].Empty? && slots[3].Empty?
    requires Holds(slots[0], t.values[0]) && Cell(slots[0]) <= Foot(slots[0])
    requires Holds(slots[1], t.values[1]) && Cell(slots[1]) <= Foot(slots[1])
    requires Foot(slots[0]) !! Foot(slots[1])
    ensures Kids(slots, Foot(slots[0]) + Foot(slots[1]), t)
  {
    hide Holds;
  }

  method NewNode4(a: Byte, b: Byte, x: Slot, y: Slot) returns (n4: Node)
    ensures fresh(n4.Own()) && n4.keys.Length == 4 && n4.nrEntries == 2 && n4.keys[..2] == [a, b]
    ensures n4.values[..] == [x, y, Empty, Empty]
  {
    n4 := new Node(4, 4);
    n4.keys[0] := a;
    n4.keys[1] := b;
    n4.values[0] := x;
    n4.values[1] := y;
    n4.nrEntries := 2;
  }

  method NewPair(a: Byte, b: Byte, x: Slot, y: Slot, ghost x': Tree, ghost y': Tree) returns (s': Slot)
    requires Holds(x, x') && Holds(y, y') && Foot(x) !! Foot(y)
    ensures Holds(s', Node4([a, b], [x', y'])) && fresh(Foot(s') - Foot(x) - Foot(y))
  {
    hide Holds, Kids;
    CellOwned(x, x');
    CellOwned(y, y');
    ghost var t' := Node4([a, b], [x', y']);
    ghost var r := Foot(x) + Foot(y);
    var n4 := NewNode4(a, b, x, y);
    assert r !! n4.Own();
    n4.repr := n4.Own() + r;
    s' := N4(n4);
    KidsPair(n4.values[..], t');
    MakeHolds(s', t', r);
  }
}
