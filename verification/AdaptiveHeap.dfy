// The adaptive tree as the C code keeps it: cells on the heap, rewritten in
// place.  A `struct value *` argument is a Slot that goes in and comes back out.
module AdaptiveHeap {
  import opened Bytes
  import opened AdaptiveTree
  import opened NodeLemmas
  import opened AdaptiveOps
  import opened AdaptiveEntries

  datatype Slot =
    | Empty
    | Val(value: RadixValue)
    | VChain(vc: ValueChainCell)
    | PChain(pc: PrefixChainCell)
    | N4(node: Node)
    | N16(node: Node)
    | N48(node: Node)
    | N256(node: Node)

  class ValueChainCell {
    var value: RadixValue
    var child: Slot
    ghost var repr: set<object>

    constructor (value: RadixValue, child: Slot)
      ensures this.value == value && this.child == child
      ensures repr == {this} + Foot(child)
    {
      this.value := value;
      this.child := child;
      this.repr := {this} + Foot(child);
    }
  }

  class PrefixChainCell {
    var child: Slot
    var prefix: seq<Byte>
    ghost var repr: set<object>

    constructor (prefix: seq<Byte>, child: Slot)
      ensures this.prefix == prefix && this.child == child
      ensures repr == {this} + Foot(child)
    {
      this.prefix := prefix;
      this.child := child;
      this.repr := {this} + Foot(child);
    }
  }

  // struct node4, node16, node48 and node256 differ only in their array sizes.
  class Node {
    var nrEntries: nat
    const keys: array<Byte>
    const values: array<Slot>
    ghost var repr: set<object>

    constructor (nrKeys: nat, nrValues: nat)
      ensures fresh(keys) && fresh(values)
      ensures keys.Length == nrKeys && values.Length == nrValues
      ensures forall i :: 0 <= i < nrKeys ==> keys[i] == 0
      ensures forall i :: 0 <= i < nrValues ==> values[i].Empty?
      ensures nrEntries == 0 && repr == Own()
    {
      keys := new Byte[nrKeys](_ => 0);
      values := new Slot[nrValues](_ => Empty);
      nrEntries := 0;
      new;
      repr := Own();
    }

    ghost function Own(): set<object> { {this, keys, values} }
  }

  // ------------------------------------------------------------------
  // Which value tree a slot holds
  // ------------------------------------------------------------------

  predicate IsNodeSlot(s: Slot) { s.N4? || s.N16? || s.N48? || s.N256? }

  ghost function Cell(s: Slot): set<object> {
    match s
    case Empty => {}
    case Val(_) => {}
    case VChain(vc) => {vc}
    case PChain(pc) => {pc}
    case _ => {s.node}
  }

  ghost function Foot(s: Slot): set<object>
    reads Cell(s)
  {
    match s
    case Empty => {}
    case Val(_) => {}
    case VChain(vc) => vc.repr
    case PChain(pc) => pc.repr
    case _ => s.node.repr
  }

  ghost predicate Header(s: Slot, t: Tree)
    requires IsNodeSlot(s)
    reads s.node`nrEntries, s.node.keys
  {
    var n := s.node;
    match s
    case N4(_) => t.Node4? && n.keys.Length == n.values.Length == 4 && n.nrEntries == |t.keys| == |t.values| <= 4
                  && n.keys[..|t.keys|] == t.keys
    case N16(_) => t.Node16? && n.keys.Length == n.values.Length == 16 && n.nrEntries == |t.keys| == |t.values| <= 16
                  && n.keys[..|t.keys|] == t.keys
    case N48(_) => t.Node48? && n.keys.Length == 256 && n.values.Length == 48 && n.nrEntries == |t.values| <= 48
                  && n.keys[..] == t.index
    case N256(_) => t.Node256? && n.keys.Length == 0 && n.values.Length == 256 == |t.values|
                  && n.nrEntries == SetCount(t.values, 256)
    case _ => false
  }

  ghost predicate Holds(s: Slot, t: Tree)
    reads Cell(s), Foot(s)
    decreases t, 1
  {
    && Cell(s) <= Foot(s)
    && match s
       case Empty => t.Unset?
       case Val(v) => t == Value(v)
       case VChain(vc) =>
         && t.ValueChain? && t.value == vc.value
         && Cell(vc.child) <= vc.repr - {vc} && Foot(vc.child) <= vc.repr - {vc} && Holds(vc.child, t.child)
       case PChain(pc) =>
         && t.PrefixChain? && t.prefix == pc.prefix
         && Cell(pc.child) <= pc.repr - {pc} && Foot(pc.child) <= pc.repr - {pc} && Holds(pc.child, t.child)
       case _ =>
         && IsNode(t) && s.node.Own() <= s.node.repr
         && Header(s, t)
         && Kids(s.node.values[..], s.node.repr - s.node.Own(), t)
  }

  /** The slots of a node hold its children, each in its own part of r. */
  ghost predicate Kids(slots: seq<Slot>, r: set<object>, t: Tree)
    requires IsNode(t)
    reads r
    decreases t, 0
  {
    && |t.values| <= |slots|
    && (forall i :: 0 <= i < |t.values| ==> Cell(slots[i]) <= r)
    && (forall i :: 0 <= i < |t.values| ==> Cell(slots[i]) <= Foot(slots[i]) <= r)
    && (forall i :: 0 <= i < |t.values| ==> Holds(slots[i], t.values[i]))
    && (forall i, j :: 0 <= i < j < |t.values| ==> Foot(slots[i]) !! Foot(slots[j]))
    && (forall i :: |t.values| <= i < |slots| ==> slots[i].Empty?)
  }

  lemma CellOwned(s: Slot, t: Tree)
    requires Holds(s, t)
    ensures Cell(s) <= Foot(s)
  {
  }

  lemma EmptyHolds(s: Slot, t: Tree)
    requires Holds(s, t)
    ensures s.Empty? <==> t.Unset?
    ensures IsNodeSlot(s) <==> IsNode(t)
  {
  }

  // ------------------------------------------------------------------
  // Finding a child
  // ------------------------------------------------------------------

  method FindSlot(s: Slot, ghost t: Tree, b: Byte) returns (found: bool, i: nat)
    requires IsNodeSlot(s) && Holds(s, t) && ShapeOk(t)
    ensures i == SlotOf(t, b) && (found <==> i < |t.values|)
    ensures Holds(s, t)
  {
    assert Header(s, t);
    hide Holds, Kids;
    var n := s.node;
    if s.N48? {
      i := n.keys[b];
      found := i < 48;
    } else if s.N256? {
      i := b;
      found := true;
    } else {
      i := 0;
      while i < n.nrEntries && n.keys[i] != b
        invariant i <= n.nrEntries
        invariant forall j :: 0 <= j < i ==> n.keys[j] != b
      {
        i := i + 1;
      }
      FindByteIs(n.keys[..n.nrEntries], b, i);
      found := i < n.nrEntries;
    }
  }

  // ------------------------------------------------------------------
  // Storing and moving children
  // ------------------------------------------------------------------

  /** Kids, leaving slot i out. */
  ghost predicate KidsBut(slots: seq<Slot>, r: set<object>, t: Tree, i: nat)
    requires IsNode(t)
    reads r
  {
    && |t.values| <= |slots|
    && (forall j :: 0 <= j < |t.values| && j != i ==> Cell(slots[j]) <= r)
    && (forall j :: 0 <= j < |t.values| && j != i ==> Cell(slots[j]) <= Foot(slots[j]) <= r)
    && (forall j :: 0 <= j < |t.values| && j != i ==> Holds(slots[j], t.values[j]))
    && (forall j, k :: 0 <= j < k < |t.values| && j != i && k != i ==> Foot(slots[j]) !! Foot(slots[k]))
    && (forall j :: |t.values| <= j < |slots| && j != i ==> slots[j].Empty?)
  }

  /** Slot i of a node, to look at. */
  lemma KidAt(s: Slot, t: Tree, i: nat)
    requires IsNodeSlot(s) && Holds(s, t) && IsNode(t) && i < |t.values|
    ensures i < s.node.values.Length
    ensures Cell(s.node.values[i]) <= Foot(s.node.values[i]) <= Foot(s)
    ensures Holds(s.node.values[i], t.values[i]) && (s.node.values[i].Empty? <==> t.values[i].Unset?)
  {
  }

  lemma KidsShape(slots: seq<Slot>, r: set<object>, t: Tree)
    requires IsNode(t) && Kids(slots, r, t)
    ensures |t.values| <= |slots|
    ensures forall i :: 0 <= i < |t.values| ==> (slots[i].Empty? <==> t.values[i].Unset?)
    ensures forall i :: |t.values| <= i < |slots| ==> slots[i].Empty?
  {
  }

  /** Taking slot i out of a node: what is its own, and what the others own. */
  lemma Open(s: Slot, t: Tree, i: nat)
    requires IsNodeSlot(s) && Holds(s, t) && IsNode(t) && i < |t.values|
    ensures var n := s.node;
      && n.Own() <= n.repr && Header(s, t) && |t.values| <= n.values.Length
      && KidsBut(n.values[..], n.repr - n.Own() - Foot(n.values[i]), t, i)
      && Cell(n.values[i]) <= Foot(n.values[i]) <= n.repr - n.Own()
      && Holds(n.values[i], t.values[i])
      && (n.values[i].Empty? <==> t.values[i].Unset?)
  {
    OpenKids(s.node.values[..], s.node.repr - s.node.Own(), t, i);
  }

  lemma OpenKids(slots: seq<Slot>, r: set<object>, t: Tree, i: nat)
    requires IsNode(t) && Kids(slots, r, t) && i < |t.values|
    ensures KidsBut(slots, r - Foot(slots[i]), t, i)
  {
    hide Holds;
  }

  lemma KidSetAt(slots: seq<Slot>, r: set<object>, t: Tree, i: nat, c: Slot, c': Tree, t': Tree, j: nat)
    requires IsNode(t) && IsNode(t') && i <= |t.values| && i < |slots| && KidsBut(slots, r, t, i)
    requires t'.values == if i < |t.values| then t.values[i := c'] else t.values + [c']
    requires Holds(c, c') && Cell(c) <= Foot(c) && j < |t'.values|
    ensures |t'.values| <= |slots| && j < |slots|
    ensures j != i ==> j < |t.values| && slots[i := c][j] == slots[j] && Foot(slots[j]) <= r
    ensures Cell(slots[i := c][j]) <= Foot(slots[i := c][j]) <= r + Foot(c) && Holds(slots[i := c][j], t'.values[j])
  {
    hide Holds;
  }

  /** Putting c in slot i. */
  lemma KidsSet(slots: seq<Slot>, r: set<object>, t: Tree, i: nat, c: Slot, c': Tree, t': Tree)
    requires IsNode(t) && IsNode(t') && i <= |t.values| && i < |slots| && KidsBut(slots, r, t, i)
    requires t'.values == if i < |t.values| then t.values[i := c'] else t.values + [c']
    requires Holds(c, c') && Cell(c) <= Foot(c) && Foot(c) !! r
    ensures Kids(slots[i := c], r + Foot(c), t')
  {
    hide Holds, Foot, Cell;
    var slots' := slots[i := c];
    forall j | 0 <= j < |t'.values| ensures Cell(slots'[j]) <= Foot(slots'[j]) <= r + Foot(c) && Holds(slots'[j], t'.values[j]) {
      KidSetAt(slots, r, t, i, c, c', t', j);
    }
    forall j, k | 0 <= j < k < |t'.values| ensures Foot(slots'[j]) !! Foot(slots'[k]) {
      KidSetAt(slots, r, t, i, c, c', t', j);
      KidSetAt(slots, r, t, i, c, c', t', k);
    }
  }

  /** The same children in other slots: slot x of the new node is slot from[x]
      of the old one, or empty when from[x] is negative. */
  ghost predicate Moved(slots: seq<Slot>, slots': seq<Slot>, t: Tree, t': Tree, from: seq<int>)
    requires IsNode(t) && IsNode(t') && |t.values| <= |slots|
  {
    && |from| == |t'.values| <= |slots'|
    && (forall x :: 0 <= x < |from| ==> from[x] < |t.values|)
    && (forall x :: 0 <= x < |from| ==>
          if from[x] < 0 then slots'[x].Empty? && t'.values[x].Unset?
          else slots'[x] == slots[from[x]] && t'.values[x] == t.values[from[x]])
    && (forall x, y :: 0 <= x < y < |from| && 0 <= from[x] ==> from[x] != from[y])
    && (forall x :: |from| <= x < |slots'| ==> slots'[x].Empty?)
  }

  lemma MovedApart(slots: seq<Slot>, slots': seq<Slot>, r: set<object>, t: Tree, t': Tree, from: seq<int>, x: nat, y: nat)
    requires IsNode(t) && IsNode(t') && Kids(slots, r, t) && Moved(slots, slots', t, t', from)
    requires x < y < |from|
    ensures Foot(slots'[x]) !! Foot(slots'[y])
  {
    hide Holds;
    if 0 <= from[x] && 0 <= from[y] { assert from[x] != from[y]; }
  }

  lemma MovedHolds(slots: seq<Slot>, slots': seq<Slot>, r: set<object>, t: Tree, t': Tree, from: seq<int>, x: nat)
    requires IsNode(t) && IsNode(t') && Kids(slots, r, t) && Moved(slots, slots', t, t', from)
    requires x < |from|
    ensures Cell(slots'[x]) <= Foot(slots'[x]) <= r && Holds(slots'[x], t'.values[x])
  {
    assert Holds(Empty, Unset);
    hide Holds;
  }

  lemma KidsMoved(slots: seq<Slot>, slots': seq<Slot>, r: set<object>, t: Tree, t': Tree, from: seq<int>)
    requires IsNode(t) && IsNode(t') && Kids(slots, r, t) && Moved(slots, slots', t, t', from)
    ensures Kids(slots', r, t')
  {
    forall x, y | 0 <= x < y < |t'.values| ensures Foot(slots'[x]) !! Foot(slots'[y]) {
      MovedApart(slots, slots', r, t, t', from, x, y);
    }
    forall x | 0 <= x < |t'.values| ensures Cell(slots'[x]) <= Foot(slots'[x]) <= r && Holds(slots'[x], t'.values[x]) {
      MovedHolds(slots, slots', r, t, t', from, x);
    }
    hide Holds, Foot, Cell;
  }

  // The node s, that held t, now has c in slot i; its header is still that of t.
  ghost predicate Refilled(s: Slot, t: Tree, i: nat, c: Tree)
    requires IsNodeSlot(s)
    reads s.node, s.node.keys, s.node.values, s.node.repr
  {
    && IsNode(t) && i < |t.values|
    && s.node.Own() <= s.node.repr && Header(s, t)
    && Kids(s.node.values[..], s.node.repr - s.node.Own(), WithSlot(t, i, c))
  }

  /** The slot that Open took out of a node is filled again; r is what the other
      slots own. */
  method PutInSlot(s: Slot, ghost t: Tree, i: nat, ghost r: set<object>, c: Slot, ghost c': Tree)
    requires IsNodeSlot(s) && IsNode(t) && i < |t.values| <= s.node.values.Length && Header(s, t)
    requires KidsBut(s.node.values[..], r, t, i) && r !! s.node.Own()
    requires Holds(c, c') && Foot(c) !! s.node.Own() && Foot(c) !! r
    modifies s.node`repr, s.node.values
    ensures Refilled(s, t, i, c') && Foot(s) == s.node.Own() + r + Foot(c)
  {
    hide Holds, Kids, KidsBut, Header;
    var n := s.node;
    CellOwned(c, c');
    KidsSet(n.values[..], r, t, i, c, c', WithSlot(t, i, c'));
    n.values[i] := c;
    n.repr := n.Own() + (r + Foot(c));
    assert n.repr - n.Own() == r + Foot(c);
  }
}
