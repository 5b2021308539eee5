// The public operations of the adaptive tree, in place, and struct radix_tree.
module AdaptiveRadix {
  import opened Bytes
  import opened AdaptiveTree
  import opened NodeLemmas
  import opened AdaptiveOps
  import opened AdaptiveOrder
  import opened AdaptiveProofs
  import opened AdaptiveEntries
  import opened AdaptiveMap
  import opened AdaptiveHeap
  import opened AdaptiveShrink
  import opened AdaptiveGrow
  import opened AdaptiveInsert
  import opened Callbacks

  // ------------------------------------------------------------------
  // Lookup
  // ------------------------------------------------------------------

  method FindPrefix(s: Slot, ghost t: Tree, k: Key) returns (r: Slot, rest: Key)
    requires Holds(s, t) && Wf(t)
    ensures Holds(r, LookupPrefix(t, k).tree) && rest == LookupPrefix(t, k).rest
    ensures Foot(r) <= Foot(s)
    decreases t
  {
    r, rest := s, k;
    if k == [] || s.Empty? || s.Val? {
    } else if s.VChain? {
      OpenValueChain(s, t);
      r, rest := FindPrefix(s.vc.child, t.child, k);
    } else if s.PChain? {
      OpenPrefixChain(s, t);
      if s.pc.prefix <= k { r, rest := FindPrefix(s.pc.child, t.child, k[|s.pc.prefix|..]); }
    } else {
      EmptyHolds(s, t);
      WfByChildren(t);
      var found, i := FindSlot(s, t, k[0]);
      if found {
        KidAt(s, t, i);
        if !s.node.values[i].Empty? {
          r, rest := FindPrefix(s.node.values[i], t.values[i], k[1..]);
        }
      }
    }
  }

  // ------------------------------------------------------------------
  // Insert
  // ------------------------------------------------------------------

  lemma RefilledHolds(s: Slot, t: Tree, i: nat, c: Tree)
    requires IsNodeSlot(s) && Refilled(s, t, i, c) && !c.Unset? && !t.values[i].Unset?
    ensures Holds(s, WithSlot(t, i, c))
  {
    if t.Node256? { SetCountUpdate(t.values, i, c, 256); }
  }

  /** Walks as the lookup does and inserts where it stops. */
  method InsertFrom(s: Slot, ghost t: Tree, k: Key, v: RadixValue) returns (s': Slot, added: nat)
    requires Holds(s, t) && Wf(t)
    modifies Foot(s)
    ensures added == Insert(t, k, v).added
    ensures Holds(s', Insert(t, k, v).tree)
    ensures fresh(Foot(s') - old(Foot(s)))
    decreases t, 2
  {
    EmptyHolds(s, t);
    if k == [] || s.Empty? || s.Val? {
      s', added := InsertAt(s, t, k, v);
    } else if s.VChain? {
      s', added := InsertBelowValue(s, t, k, v);
    } else if s.PChain? {
      s', added := InsertBelowChain(s, t, k, v);
    } else {
      s', added := InsertBelowNode(s, t, k, v);
    }
  }

  method InsertBelowValue(s: Slot, ghost t: Tree, k: Key, v: RadixValue) returns (s': Slot, added: nat)
    requires s.VChain? && Holds(s, t) && Wf(t) && k != []
    modifies Foot(s)
    ensures added == Insert(t, k, v).added
    ensures Holds(s', Insert(t, k, v).tree)
    ensures fresh(Foot(s') - old(Foot(s)))
    decreases t, 0
  {
    OpenValueChain(s, t);
    ghost var r := Insert(t.child, k, v);
    assert Insert(t, k, v) == Inserted(ValueChain(t.value, r.tree), r.added);
    hide Holds, Wf, Insert;
    var vc := s.vc;
    var c: Slot;
    c, added := InsertFrom(vc.child, t.child, k, v);
    CellOwned(c, r.tree);
    vc.child := c;
    vc.repr := {vc} + Foot(c);
    s' := s;
    MakeValueChain(vc, r.tree);
  }

  method InsertBelowChain(s: Slot, ghost t: Tree, k: Key, v: RadixValue) returns (s': Slot, added: nat)
    requires s.PChain? && Holds(s, t) && Wf(t) && k != []
    modifies Foot(s)
    ensures added == Insert(t, k, v).added
    ensures Holds(s', Insert(t, k, v).tree)
    ensures fresh(Foot(s') - old(Foot(s)))
    decreases t, 0
  {
    OpenPrefixChain(s, t);
    var pc := s.pc;
    if pc.prefix <= k {
      ghost var r := Insert(t.child, k[|t.prefix|..], v);
      assert Insert(t, k, v) == Inserted(PrefixChain(t.prefix, r.tree), r.added);
      hide Holds, Wf, Insert;
      var c: Slot;
      c, added := InsertFrom(pc.child, t.child, k[|pc.prefix|..], v);
      s' := s;
      StoreChain(pc, c, r.tree);
    } else {
      assert Insert(t, k, v) == InsertHere(t, k, v);
      s', added := InsertAt(s, t, k, v);
    }
  }

  method InsertBelowNode(s: Slot, ghost t: Tree, k: Key, v: RadixValue) returns (s': Slot, added: nat)
    requires IsNodeSlot(s) && Holds(s, t) && Wf(t) && k != []
    modifies Foot(s)
    ensures added == Insert(t, k, v).added
    ensures Holds(s', Insert(t, k, v).tree)
    ensures fresh(Foot(s') - old(Foot(s)))
    decreases t, 1
  {
    hide Holds, Wf, ShapeOk, Insert, InsertHere, SlotOf, Stop, Kids, Header;
    EmptyHolds(s, t);
    InsertStep(t, k, v);
    var found, i := FindSlot(s, t, k[0]);
    if found { Open(s, t, i); }
    if !found || s.node.values[i].Empty? {
      s', added := InsertAt(s, t, k, v);
    } else {
      ghost var r := Insert(t.values[i], k[1..], v);
      InsertSets(t.values[i], k[1..], v);
      added := InsertInSlot(s, t, i, k[1..], v, r);
      s' := s;
      RefilledHolds(s, t, i, r.tree);
    }
  }

  lemma InsertSets(t: Tree, k: Key, v: RadixValue)
    requires Wf(t)
    ensures !Insert(t, k, v).tree.Unset?
  {
    if Restacks(t, k) { RestackMeaning(t, k, v, k); } else { InsertMeaning(t, k, v, k); }
  }

  method InsertInSlot(s: Slot, ghost t: Tree, i: nat, k: Key, v: RadixValue, ghost r: Inserted) returns (added: nat)
    requires IsNodeSlot(s) && Holds(s, t) && IsNode(t) && i < |t.values| && Wf(t.values[i])
    requires r == Insert(t.values[i], k, v)
    modifies Foot(s)
    ensures Refilled(s, t, i, r.tree)
    ensures fresh(Foot(s) - old(Foot(s)))
    ensures added == r.added
    decreases t, 0
  {
    hide Holds, Kids, KidsBut, Header, Wf, Insert;
    Open(s, t, i);
    var n := s.node;
    ghost var others := n.repr - n.Own() - Foot(n.values[i]);
    var c: Slot;
    c, added := InsertFrom(n.values[i], t.values[i], k, v);
    PutInSlot(s, t, i, others, c, r.tree);
  }

  // ------------------------------------------------------------------
  // Remove
  // ------------------------------------------------------------------

  method RemoveFrom(s: Slot, ghost t: Tree, k: Key, dtr: Destructor) returns (s': Slot, removed: bool)
    requires Holds(s, t) && Wf(t) && dtr !in Foot(s)
    modifies Foot(s), dtr
    ensures Holds(s', Remove(t, k).tree)
    ensures fresh(Foot(s') - old(Foot(s)))
    ensures dtr.seen == old(dtr.seen) + Remove(t, k).dropped
    ensures removed <==> Remove(t, k).dropped != []
    decreases t, 2
  {
    EmptyHolds(s, t);
    if k == [] {
      if s.Val? {
        dtr.Call(s.value);
        return Empty, true;
      } else if s.VChain? {
        dtr.Call(s.vc.value);
        return s.vc.child, true;
      } else {
        return s, false;
      }
    }
    if s.Empty? || s.Val? {
      return s, false;
    } else if s.VChain? {
      s', removed := RemoveBelowValue(s, t, k, dtr);
    } else if s.PChain? {
      s', removed := RemoveBelowChain(s, t, k, dtr);
    } else {
      s', removed := RemoveBelowNode(s, t, k, dtr);
    }
  }

  /** Stores what is left of the child of a VALUE_CHAIN. */
  method PutBackValue(vc: ValueChainCell, c: Slot, ghost c': Tree) returns (s': Slot)
    requires Holds(c, c') && vc !in Foot(c)
    modifies vc
    ensures Holds(s', PutBackValueChain(old(vc.value), c'))
    ensures Foot(s') <= {vc} + Foot(c)
  {
    CellOwned(c, c');
    EmptyHolds(c, c');
    vc.child := c;
    vc.repr := {vc} + Foot(c);
    if c.Empty? {
      s' := Val(vc.value);
    } else {
      s' := VChain(vc);
      MakeValueChain(vc, c');
    }
  }

  /** Stores what is left of the child of a PREFIX_CHAIN. */
  method PutBackPrefix(pc: PrefixChainCell, c: Slot, ghost c': Tree) returns (s': Slot)
    requires Holds(c, c') && pc !in Foot(c)
    modifies pc
    ensures Holds(s', PutBackChain(old(pc.prefix), c'))
    ensures Foot(s') <= {pc} + Foot(c)
  {
    EmptyHolds(c, c');
    StoreChain(pc, c, c');
    if c.Empty? { s' := Empty; } else { s' := PChain(pc); }
  }

  method RemoveBelowValue(s: Slot, ghost t: Tree, k: Key, dtr: Destructor) returns (s': Slot, removed: bool)
    requires s.VChain? && Holds(s, t) && Wf(t) && dtr !in Foot(s) && k != []
    modifies Foot(s), dtr
    ensures Holds(s', Remove(t, k).tree)
    ensures fresh(Foot(s') - old(Foot(s)))
    ensures dtr.seen == old(dtr.seen) + Remove(t, k).dropped
    ensures removed <==> Remove(t, k).dropped != []
    decreases t, 0
  {
    OpenValueChain(s, t);
    ghost var r := Remove(t.child, k);
    assert Remove(t, k) == Removed(PutBackValueChain(t.value, r.tree), r.dropped);
    hide Holds, Wf, Remove, PutBackValueChain;
    var c: Slot;
    c, removed := RemoveFrom(s.vc.child, t.child, k, dtr);
    s' := PutBackValue(s.vc, c, r.tree);
  }

  method RemoveBelowChain(s: Slot, ghost t: Tree, k: Key, dtr: Destructor) returns (s': Slot, removed: bool)
    requires s.PChain? && Holds(s, t) && Wf(t) && dtr !in Foot(s) && k != []
    modifies Foot(s), dtr
    ensures Holds(s', Remove(t, k).tree)
    ensures fresh(Foot(s') - old(Foot(s)))
    ensures dtr.seen == old(dtr.seen) + Remove(t, k).dropped
    ensures removed <==> Remove(t, k).dropped != []
    decreases t, 0
  {
    OpenPrefixChain(s, t);
    if !(s.pc.prefix <= k) { return s, false; }
    ghost var r := Remove(t.child, k[|t.prefix|..]);
    assert Remove(t, k) == Removed(PutBackChain(t.prefix, r.tree), r.dropped);
    hide Holds, Wf, Remove, PutBackChain;
    var c: Slot;
    c, removed := RemoveFrom(s.pc.child, t.child, k[|s.pc.prefix|..], dtr);
    s' := PutBackPrefix(s.pc, c, r.tree);
  }

  method RemoveBelowNode(s: Slot, ghost t: Tree, k: Key, dtr: Destructor) returns (s': Slot, removed: bool)
    requires IsNodeSlot(s) && Holds(s, t) && Wf(t) && dtr !in Foot(s) && k != []
    modifies Foot(s), dtr
    ensures Holds(s', Remove(t, k).tree)
    ensures fresh(Foot(s') - old(Foot(s)))
    ensures dtr.seen == old(dtr.seen) + Remove(t, k).dropped
    ensures removed <==> Remove(t, k).dropped != []
    decreases t, 1
  {
    hide Holds, Kids, Header, Wf, ShapeOk, Remove, PutBack, SlotOf;
    EmptyHolds(s, t);
    RemoveStep(t, k);
    var found, i := FindSlot(s, t, k[0]);
    if !found { return s, false; }
    Open(s, t, i);
    if s.node.values[i].Empty? { return s, false; }
    ghost var r := Remove(t.values[i], k[1..]);
    removed := RemoveInSlot(s, t, i, k[1..], dtr, r);
    s' := PutBackSlot(s, t, k[0], i, r.tree);
  }

  method RemoveInSlot(s: Slot, ghost t: Tree, i: nat, k: Key, dtr: Destructor, ghost r: Removed) returns (removed: bool)
    requires IsNodeSlot(s) && Holds(s, t) && IsNode(t) && i < |t.values| && Wf(t.values[i]) && dtr !in Foot(s)
    requires r == Remove(t.values[i], k)
    modifies Foot(s), dtr
    ensures Refilled(s, t, i, r.tree)
    ensures fresh(Foot(s) - old(Foot(s)))
    ensures dtr.seen == old(dtr.seen) + r.dropped
    ensures removed <==> r.dropped != []
    decreases t, 0
  {
    hide Holds, Kids, KidsBut, Header, Wf, Remove;
    Open(s, t, i);
    var n := s.node;
    ghost var others := n.repr - n.Own() - Foot(n.values[i]);
    var c: Slot;
    c, removed := RemoveFrom(n.values[i], t.values[i], k, dtr);
    PutInSlot(s, t, i, others, c, r.tree);
  }

  // ------------------------------------------------------------------
  // Freeing and removing a prefix
  // ------------------------------------------------------------------

  /** Gives every value of a subtree to the destructor. */
  method FreeNode(s: Slot, ghost t: Tree, dtr: Destructor) returns (nr: nat)
    requires Holds(s, t) && dtr !in Foot(s)
    modifies dtr
    ensures nr == |Entries(t)|
    ensures dtr.seen == old(dtr.seen) + Vals(Entries(t))
    decreases t, 1
  {
    EmptyHolds(s, t);
    if s.Empty? {
      nr := 0;
    } else if s.Val? {
      dtr.Call(s.value);
      nr := 1;
    } else if s.VChain? {
      OpenValueChain(s, t);
      dtr.Call(s.vc.value);
      nr := FreeNode(s.vc.child, t.child, dtr);
      nr := nr + 1;
    } else if s.PChain? {
      OpenPrefixChain(s, t);
      nr := FreeNode(s.pc.child, t.child, dtr);
      ValsPrefixed(t.prefix, Entries(t.child));
    } else {
      nr := FreeSlots(s, t, dtr);
    }
  }

  method FreeSlots(s: Slot, ghost t: Tree, dtr: Destructor) returns (nr: nat)
    requires IsNodeSlot(s) && IsNode(t) && Holds(s, t) && dtr !in Foot(s)
    modifies dtr
    ensures nr == |Entries(t)|
    ensures dtr.seen == old(dtr.seen) + Vals(Entries(t))
    decreases t, 0
  {
    hide Holds, Kids, Entries, Vals, SlotEntries;
    var n := s.node;
    var nrSlots := if s.N256? then 256 else n.nrEntries;
    OpenNode(s, t);
    CellOwned(s, t);
    SlotsStart(t);
    hide Header;
    var i := 0;
    nr := 0;
    ghost var done: seq<RadixValue> := [];
    while i < nrSlots
      invariant 0 <= i <= nrSlots == |t.values|
      invariant Holds(s, t)
      invariant done == Vals(SlotEntries(t, i)) && nr == |done|
      invariant dtr.seen == old(dtr.seen) + done
    {
      KidAt(s, t, i);
      var m := FreeNode(n.values[i], t.values[i], dtr);
      SlotsStep(t, i);
      nr := nr + m;
      done := done + Vals(Entries(t.values[i]));
      i := i + 1;
    }
  }

  lemma SlotsStart(t: Tree)
    requires IsNode(t)
    ensures Vals(SlotEntries(t, 0)) == []
    ensures SlotEntries(t, |t.values|) == Entries(t) && |Vals(Entries(t))| == |Entries(t)|
  {
  }

  lemma SlotsStep(t: Tree, i: nat)
    requires IsNode(t) && i < |t.values|
    ensures |Vals(Entries(t.values[i]))| == |Entries(t.values[i])|
    ensures Vals(SlotEntries(t, i + 1)) == Vals(SlotEntries(t, i)) + Vals(Entries(t.values[i]))
  {
    ValsPrefixed([ByteOf(t, i)], Entries(t.values[i]));
  }

  method RemoveSubtreeFrom(s: Slot, ghost t: Tree, k: Key, dtr: Destructor) returns (s': Slot, count: nat)
    requires Holds(s, t) && Wf(t) && dtr !in Foot(s)
    modifies Foot(s), dtr
    ensures Holds(s', RemoveSubtree(t, k).tree)
    ensures fresh(Foot(s') - old(Foot(s)))
    ensures dtr.seen == old(dtr.seen) + RemoveSubtree(t, k).dropped
    ensures count == |RemoveSubtree(t, k).dropped|
    decreases t, 2
  {
    EmptyHolds(s, t);
    if k == [] {
      count := FreeNode(s, t, dtr);
      s' := Empty;
    } else if s.Empty? || s.Val? {
      return s, 0;
    } else if s.VChain? {
      s', count := PruneBelowValue(s, t, k, dtr);
    } else if s.PChain? {
      s', count := PruneBelowChain(s, t, k, dtr);
    } else {
      s', count := PruneBelowNode(s, t, k, dtr);
    }
  }

  method PruneBelowValue(s: Slot, ghost t: Tree, k: Key, dtr: Destructor) returns (s': Slot, count: nat)
    requires s.VChain? && Holds(s, t) && Wf(t) && dtr !in Foot(s) && k != []
    modifies Foot(s), dtr
    ensures Holds(s', RemoveSubtree(t, k).tree)
    ensures fresh(Foot(s') - old(Foot(s)))
    ensures dtr.seen == old(dtr.seen) + RemoveSubtree(t, k).dropped
    ensures count == |RemoveSubtree(t, k).dropped|
    decreases t, 0
  {
    OpenValueChain(s, t);
    ghost var r := RemoveSubtree(t.child, k);
    assert RemoveSubtree(t, k) == Removed(PutBackValueChain(t.value, r.tree), r.dropped);
    hide Holds, Wf, RemoveSubtree, PutBackValueChain;
    var c: Slot;
    c, count := RemoveSubtreeFrom(s.vc.child, t.child, k, dtr);
    s' := PutBackValue(s.vc, c, r.tree);
  }

  method PruneBelowChain(s: Slot, ghost t: Tree, k: Key, dtr: Destructor) returns (s': Slot, count: nat)
    requires s.PChain? && Holds(s, t) && Wf(t) && dtr !in Foot(s) && k != []
    modifies Foot(s), dtr
    ensures Holds(s', RemoveSubtree(t, k).tree)
    ensures fresh(Foot(s') - old(Foot(s)))
    ensures dtr.seen == old(dtr.seen) + RemoveSubtree(t, k).dropped
    ensures count == |RemoveSubtree(t, k).dropped|
    decreases t, 0
  {
    hide Holds, Wf, RemoveSubtree, PutBackChain, CommonLen;
    OpenPrefixChain(s, t);
    CellOwned(s, t);
    PruneStep(t, k);
    var i := CommonPrefix(s.pc.prefix, k);
    if i < |s.pc.prefix| && i < |k| { return s, 0; }
    var rest := if |k| < |s.pc.prefix| then [] else k[|s.pc.prefix|..];
    ghost var r := RemoveSubtree(t.child, rest);
    var c: Slot;
    c, count := RemoveSubtreeFrom(s.pc.child, t.child, rest, dtr);
    s' := PutBackPrefix(s.pc, c, r.tree);
  }

  lemma PruneStep(t: Tree, k: Key)
    requires t.PrefixChain? && Wf(t) && k != []
    ensures Wf(t.child)
    ensures var i := CommonLen(t.prefix, k);
      if i < |t.prefix| && i < |k| then RemoveSubtree(t, k) == Removed(t, [])
      else
        var r := RemoveSubtree(t.child, if |k| < |t.prefix| then [] else k[|t.prefix|..]);
        RemoveSubtree(t, k) == Removed(PutBackChain(t.prefix, r.tree), r.dropped)
  {
  }

  method PruneBelowNode(s: Slot, ghost t: Tree, k: Key, dtr: Destructor) returns (s': Slot, count: nat)
    requires IsNodeSlot(s) && Holds(s, t) && Wf(t) && dtr !in Foot(s) && k != []
    modifies Foot(s), dtr
    ensures Holds(s', RemoveSubtree(t, k).tree)
    ensures fresh(Foot(s') - old(Foot(s)))
    ensures dtr.seen == old(dtr.seen) + RemoveSubtree(t, k).dropped
    ensures count == |RemoveSubtree(t, k).dropped|
    decreases t, 1
  {
    hide Holds, Kids, Header, Wf, ShapeOk, RemoveSubtree, PutBack, SlotOf;
    EmptyHolds(s, t);
    RemoveSubtreeStep(t, k);
    var found, i := FindSlot(s, t, k[0]);
    if !found { return s, 0; }
    Open(s, t, i);
    if s.node.values[i].Empty? { return s, 0; }
    ghost var r := RemoveSubtree(t.values[i], k[1..]);
    count := PruneInSlot(s, t, i, k[1..], dtr, r);
    s' := PutBackSlot(s, t, k[0], i, r.tree);
  }

  method PruneInSlot(s: Slot, ghost t: Tree, i: nat, k: Key, dtr: Destructor, ghost r: Removed) returns (count: nat)
    requires IsNodeSlot(s) && Holds(s, t) && IsNode(t) && i < |t.values| && Wf(t.values[i]) && dtr !in Foot(s)
    requires r == RemoveSubtree(t.values[i], k)
    modifies Foot(s), dtr
    ensures Refilled(s, t, i, r.tree)
    ensures fresh(Foot(s) - old(Foot(s)))
    ensures dtr.seen == old(dtr.seen) + r.dropped
    ensures count == |r.dropped|
    decreases t, 0
  {
    hide Holds, Kids, KidsBut, Header, Wf, RemoveSubtree;
    Open(s, t, i);
    var n := s.node;
    ghost var others := n.repr - n.Own() - Foot(n.values[i]);
    var c: Slot;
    c, count := RemoveSubtreeFrom(n.values[i], t.values[i], k, dtr);
    PutInSlot(s, t, i, others, c, r.tree);
  }

  // ------------------------------------------------------------------
  // Iteration
  // ------------------------------------------------------------------

  // Of vals the visitor saw asked, in order, and stopped at its first false.
  ghost predicate Ran(vals: seq<RadixValue>, asked: seq<RadixValue>, answers: seq<bool>, go: bool) {
    && asked <= vals && |answers| == |asked|
    && (forall i :: 0 <= i < |answers| - 1 ==> answers[i])
    && (if go then asked == vals && (answers != [] ==> answers[|answers| - 1])
        else answers != [] && !answers[|answers| - 1])
  }

  lemma RanThen(v1: seq<RadixValue>, a1: seq<RadixValue>, b1: seq<bool>, v2: seq<RadixValue>,
      a2: seq<RadixValue>, b2: seq<bool>, go: bool)
    requires Ran(v1, a1, b1, true) && Ran(v2, a2, b2, go)
    ensures Ran(v1 + v2, a1 + a2, b1 + b2, go)
  {
    assert (v1 + v2)[..|a1 + a2|] == a1 + a2;
  }

  lemma RanStopped(v1: seq<RadixValue>, a1: seq<RadixValue>, b1: seq<bool>, v2: seq<RadixValue>)
    requires Ran(v1, a1, b1, false)
    ensures Ran(v1 + v2, a1, b1, false)
  {
    assert (v1 + v2)[..|a1|] == v1[..|a1|];
  }

  lemma RanOne(v: RadixValue, go: bool)
    ensures Ran([v], [v], [go], go)
  {
  }

  // The values of a node's parts.
  lemma ValsOf(t: Tree)
    ensures t.Value? ==> Vals(Entries(t)) == [t.value]
    ensures t.ValueChain? ==> Vals(Entries(t)) == [t.value] + Vals(Entries(t.child))
    ensures t.PrefixChain? ==> Vals(Entries(t)) == Vals(Entries(t.child))
  {
    if t.PrefixChain? {
      ValsPrefixed(t.prefix, Entries(t.child));
    }
  }

  method IterateFrom(s: Slot, ghost t: Tree, it: Visitor)
    returns (go: bool, ghost asked: seq<RadixValue>, ghost answers: seq<bool>)
    requires Holds(s, t) && Wf(t) && !s.Empty? && it !in Foot(s)
    modifies it
    ensures it.seen == old(it.seen) + asked && it.answers == old(it.answers) + answers
    ensures Ran(Vals(Entries(t)), asked, answers, go)
    decreases t, 1
  {
    hide Ran, Vals, Entries;
    ValsOf(t);
    EmptyHolds(s, t);
    if s.Val? {
      go := it.Visit(s.value);
      asked, answers := [s.value], [go];
      RanOne(s.value, go);
    } else if s.VChain? {
      OpenValueChain(s, t);
      EmptyHolds(s.vc.child, t.child);
      go := it.Visit(s.vc.value);
      asked, answers := [t.value], [go];
      RanOne(t.value, go);
      if go {
        ghost var a, b;
        go, a, b := IterateFrom(s.vc.child, t.child, it);
        RanThen([t.value], asked, answers, Vals(Entries(t.child)), a, b, go);
        asked, answers := asked + a, answers + b;
      } else {
        RanStopped([t.value], asked, answers, Vals(Entries(t.child)));
      }
    } else if s.PChain? {
      OpenPrefixChain(s, t);
      EmptyHolds(s.pc.child, t.child);
      go, asked, answers := IterateFrom(s.pc.child, t.child, it);
    } else {
      go, asked, answers := IterateSlots(s, t, it);
    }
  }

  lemma RanNothing()
    ensures Ran([], [], [], true)
  {
  }

  // Stopped at slot i of a node.
  lemma StoppedAt(t: Tree, i: nat, asked: seq<RadixValue>, answers: seq<bool>)
    requires IsNode(t) && i < |t.values|
    requires Ran(Vals(SlotEntries(t, i)) + Vals(Entries(t.values[i])), asked, answers, false)
    ensures Ran(Vals(Entries(t)), asked, answers, false)
  {
    hide Ran, Vals, SlotEntries;
    SlotsStep(t, i);
    SlotsPrefix(t, i + 1, |t.values|);
    SlotsStart(t);
    var first := Vals(SlotEntries(t, i + 1));
    RanStopped(first, asked, answers, Vals(Entries(t))[|first|..]);
    PrefixSlice(first, Vals(Entries(t)));
  }

  method IterateSlots(s: Slot, ghost t: Tree, it: Visitor)
    returns (go: bool, ghost asked: seq<RadixValue>, ghost answers: seq<bool>)
    requires IsNodeSlot(s) && IsNode(t) && Holds(s, t) && Wf(t) && it !in Foot(s)
    modifies it
    ensures it.seen == old(it.seen) + asked && it.answers == old(it.answers) + answers
    ensures Ran(Vals(Entries(t)), asked, answers, go)
    decreases t, 0
  {
    hide Holds, Kids, Entries, Vals, SlotEntries, ShapeOk, Ran;
    var n := s.node;
    var nrSlots := if s.N256? then 256 else n.nrEntries;
    OpenNode(s, t);
    CellOwned(s, t);
    SlotsStart(t);
    hide Header;
    var i := 0;
    go, asked, answers := true, [], [];
    ghost var done: seq<RadixValue> := [];
    RanNothing();
    while i < nrSlots
      invariant 0 <= i <= nrSlots == |t.values|
      invariant Holds(s, t) && it !in Foot(s)
      invariant it.seen == old(it.seen) + asked && it.answers == old(it.answers) + answers
      invariant done == Vals(SlotEntries(t, i)) && Ran(done, asked, answers, true)
    {
      KidAt(s, t, i);
      SlotsStep(t, i);
      if n.values[i].Empty? {
        UnsetEntries();
        assert done + [] == done;
      } else {
        ghost var a, b;
        go, a, b := IterateFrom(n.values[i], t.values[i], it);
        RanThen(done, asked, answers, Vals(Entries(t.values[i])), a, b, go);
        asked, answers := asked + a, answers + b;
        if !go {
          StoppedAt(t, i, asked, answers);
          return;
        }
      }
      done := done + Vals(Entries(t.values[i]));
      i := i + 1;
    }
  }

  lemma UnsetEntries()
    ensures Vals(Entries(Unset)) == []
  {
  }

  lemma {:induction false} SlotsPrefix(t: Tree, i: nat, n: nat)
    requires IsNode(t) && i <= n <= |t.values|
    ensures Vals(SlotEntries(t, i)) <= Vals(SlotEntries(t, n))
  {
    if i < n {
      SlotsPrefix(t, i, n - 1);
      SlotsStep(t, n - 1);
    }
  }

  method IterateBelow(s: Slot, ghost t: Tree, k: Key, it: Visitor)
    returns (go: bool, ghost asked: seq<RadixValue>, ghost answers: seq<bool>)
    requires Holds(s, t) && Wf(t) && it !in Foot(s)
    modifies it
    ensures it.seen == old(it.seen) + asked && it.answers == old(it.answers) + answers
    ensures Ran(Vals(Under(Entries(t), k)), asked, answers, go)
  {
    IterateIsUnder(t, k);
    LookupStops(t, k);
    ghost var r := LookupPrefix(t, k);
    assert IterateRoot(t, k) == if r.rest == [] || (r.tree.PrefixChain? && r.rest < r.tree.prefix) then r.tree else Unset;
    UnsetEntries();
    hide Wf, Under, Entries, LookupPrefix, Stop, Vals, IterateRoot;
    var p, rest := FindPrefix(s, t, k);
    EmptyHolds(p, r.tree);
    if p.PChain? { OpenPrefixChain(p, r.tree); }
    go, asked, answers := true, [], [];
    if !p.Empty? && (rest == [] || (p.PChain? && rest < p.pc.prefix)) {
      go, asked, answers := IterateFrom(p, r.tree, it);
    } else {
      NotChain(p, r.tree);
    }
  }

  lemma NotChain(s: Slot, t: Tree)
    requires Holds(s, t)
    ensures s.PChain? <==> t.PrefixChain?
    ensures s.PChain? ==> s.pc.prefix == t.prefix
  {
  }

  // ------------------------------------------------------------------
  // struct radix_tree
  // ------------------------------------------------------------------

  class RadixTree {
    var root: Slot
    var nrEntries: nat
    const dtr: Destructor
    ghost var tree: Tree

    ghost predicate Valid()
      reads this, Cell(root), Foot(root)
    {
      && Holds(root, tree) && Wf(tree)
      && nrEntries == |Entries(tree)|
      && this !in Foot(root) && dtr !in Foot(root)
    }

    ghost function Contents(): map<Key, RadixValue>
      requires Wf(tree)
      reads this
    {
      Content(tree)
    }

    constructor (dtr: Destructor)
      ensures Valid() && Contents() == map[] && this.dtr == dtr && Foot(root) == {}
    {
      root, nrEntries, tree := Empty, 0, Unset;
      this.dtr := dtr;
      new;
      ContentMeaning(Unset);
    }

    method Size() returns (n: nat)
      requires Valid()
      ensures n == |Contents()|
    {
      ContentMeaning(tree);
      n := nrEntries;
    }

    method Lookup(k: Key) returns (r: Option<RadixValue>)
      requires Valid()
      ensures r == Find(Contents(), k)
    {
      LookupIsSelect(tree, k);
      var s, rest := FindPrefix(root, tree, k);
      EmptyHolds(s, LookupPrefix(tree, k).tree);
      if rest != [] {
        r := None;
      } else if s.Val? {
        r := Some(s.value);
      } else if s.VChain? {
        r := Some(s.vc.value);
      } else {
        r := None;
      }
    }

    /** Map update, unless it overwrites a key that another stored key extends. */
    method Insert(k: Key, v: RadixValue)
      requires Valid()
      modifies this, Foot(root)
      ensures !Overlapping(old(Contents()), k) ==> Valid() && Contents() == old(Contents())[k := v]
      ensures Overlapping(old(Contents()), k) ==> !Wf(tree) && nrEntries == old(nrEntries) + 1
      ensures fresh(Foot(root) - old(Foot(root)))
    {
      hide Holds, Wf, AdaptiveOps.Insert, Content, Entries, Overlapping;
      InsertIsUpdate(tree, k, v);
      InsertTheorem(tree, k, v);
      ghost var r := AdaptiveOps.Insert(tree, k, v);
      var s, added := InsertFrom(root, tree, k, v);
      root := s;
      nrEntries := nrEntries + added;
      tree := r.tree;
    }

    method Remove(k: Key) returns (removed: bool)
      requires Valid()
      modifies this, Foot(root), dtr
      ensures Valid() && Contents() == old(Contents()) - {k}
      ensures removed <==> k in old(Contents())
      ensures dtr.seen == old(dtr.seen) + if removed then [old(Contents())[k]] else []
      ensures fresh(Foot(root) - old(Foot(root)))
    {
      hide Holds, Wf, AdaptiveOps.Remove, Content, Entries;
      RemoveIsDelete(tree, k);
      ghost var r := AdaptiveOps.Remove(tree, k);
      var s;
      s, removed := RemoveFrom(root, tree, k, dtr);
      root := s;
      if removed { nrEntries := nrEntries - 1; }
      tree := r.tree;
    }

    /** gone lists the removed pairs, each once. */
    method RemovePrefix(k: Key) returns (count: nat, ghost gone: seq<Entry>)
      requires Valid()
      modifies this, Foot(root), dtr
      ensures Valid() && Contents() == Prune(old(Contents()), k)
      ensures count == |KeysUnder(old(Contents()), k)| == |gone| && KeysDistinct(gone)
      ensures forall e :: e in gone <==> k <= e.key && Find(old(Contents()), e.key) == Some(e.value)
      ensures dtr.seen == old(dtr.seen) + Vals(gone)
      ensures fresh(Foot(root) - old(Foot(root)))
    {
      hide Holds, Wf, RemoveSubtree, Content, Entries, Under, Prune, KeysUnder;
      RemoveSubtreeIsDelete(tree, k);
      UnderExact(tree, k);
      gone := Under(Entries(tree), k);
      ghost var r := RemoveSubtree(tree, k);
      var s;
      s, count := RemoveSubtreeFrom(root, tree, k, dtr);
      root := s;
      nrEntries := nrEntries - count;
      tree := r.tree;
    }

    /** Every stored value goes to the destructor once. */
    method Destroy() returns (ghost gone: seq<Entry>)
      requires Valid()
      modifies dtr
      ensures KeysDistinct(gone) && |gone| == |old(Contents())|
      ensures forall e :: e in gone <==> Find(old(Contents()), e.key) == Some(e.value)
      ensures dtr.seen == old(dtr.seen) + Vals(gone)
    {
      ContentMeaning(tree);
      EntriesMeaning(tree);
      gone := Entries(tree);
      hide Holds, Wf, Content, Entries;
      var nr := FreeNode(root, tree, dtr);
    }

    /** The visitor is shown the values below k, each stored pair once, until
        it answers false. */
    method Iterate(k: Key, it: Visitor)
      returns (ghost go: bool, ghost below: seq<Entry>, ghost asked: seq<RadixValue>, ghost answers: seq<bool>)
      requires Valid() && it !in Foot(root) && it.seen == [] && it.answers == []
      modifies it
      ensures KeysDistinct(below)
      ensures forall e :: e in below <==> k <= e.key && Find(Contents(), e.key) == Some(e.value)
      ensures it.seen == asked && it.answers == answers && Ran(Vals(below), asked, answers, go)
      // in the order of the keys, if the slots of every node are in the order of their bytes
      ensures Ascending(tree) ==> Sorted(below)
      ensures k == [] ==> (Sorted(below) <==> Ascending(tree))
    {
      hide Holds, Wf, Under, Entries, Content, Vals, Sorted, Ascending;
      UnderExact(tree, k);
      IterationOrder(tree);
      UnderSorted(Entries(tree), k);
      below := Under(Entries(tree), k);
      var more;
      more, asked, answers := IterateBelow(root, tree, k, it);
      go := more;
    }
  }
}
