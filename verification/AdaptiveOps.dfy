// The operations of the adaptive tree, branch by branch, as functions on
// values.  The class in AdaptiveHeap carries them out in place.
module AdaptiveOps {
  import opened Bytes
  import opened AdaptiveTree
  import opened NodeLemmas

  // ------------------------------------------------------------------
  // Lookup
  // ------------------------------------------------------------------

  datatype LookupResult = LookupResult(tree: Tree, rest: Key)

  /** The subtree at which a walk along k stops, and what is left of k. */
  function LookupPrefix(t: Tree, k: Key): (r: LookupResult)
    ensures |r.rest| <= |k|
    decreases t
  {
    if k == [] then LookupResult(t, k)
    else match t
      case Unset => LookupResult(t, k)
      case Value(_) => LookupResult(t, k)
      case ValueChain(_, c) => LookupPrefix(c, k)
      case PrefixChain(p, c) =>
        if p <= k then LookupPrefix(c, k[|p|..]) else LookupResult(t, k)
      case _ =>
        var c := Child(t, k[0]);
        if c.Unset? then LookupResult(t, k) else LookupPrefix(c, k[1..])
  }

  function Lookup(t: Tree, k: Key): Option<RadixValue> {
    var r := LookupPrefix(t, k);
    if r.rest != [] then None
    else match r.tree
      case Value(v) => Some(v)
      case ValueChain(v, _) => Some(v)
      case _ => None
  }

  // ------------------------------------------------------------------
  // Insert
  // ------------------------------------------------------------------

  // added is the amount by which the tree's nr_entries grows.
  datatype Inserted = Inserted(tree: Tree, added: nat)

  function CommonLen(p: seq<Byte>, k: Key): (i: nat)
    ensures i <= |p| && i <= |k|
    ensures p[..i] == k[..i]
    ensures i < |p| && i < |k| ==> p[i] != k[i]
  {
    if p == [] || k == [] || p[0] != k[0] then 0
    else
      var i := CommonLen(p[1..], k[1..]);
      assert p[..i + 1] == [p[0]] + p[1..][..i];
      assert k[..i + 1] == [k[0]] + k[1..][..i];
      i + 1
  }

  /** A value put in an empty slot. */
  function NewSlot(k: Key, v: RadixValue): Tree {
    if k == [] then Value(v) else PrefixChain(k, Value(v))
  }

  /** Insertion at the subtree where the lookup stopped. */
  function InsertHere(t: Tree, k: Key, v: RadixValue): Inserted
    decreases |k|, t
  {
    if k == [] then
      match t
      case Unset => Inserted(Value(v), 1)
      case Value(_) => Inserted(Value(v), 0)
      case _ => Inserted(ValueChain(v, t), 1)
    else
      match t
      case Unset => Inserted(NewSlot(k, v), 1)
      case Value(w) => Inserted(ValueChain(w, NewSlot(k, v)), 1)
      case ValueChain(w, c) =>
        var r := InsertHere(c, k, v);
        Inserted(ValueChain(w, r.tree), r.added)
      case PrefixChain(p, c) =>
        if p == [] then Inserted(Value(v), 0)
        else if k[0] == p[0] then
          var i := CommonLen(p, k);
          assert i > 0;
          var r := InsertHere(PrefixChain(p[i..], c), k[i..], v);
          Inserted(PrefixChain(p[..i], r.tree), r.added)
        else
          var rest := if |p| == 1 then c else PrefixChain(p[1..], c);
          Inserted(Node4([p[0], k[0]], [rest, NewSlot(k[1..], v)]), 1)
      case Node256(_) =>
        var c := Child(t, k[0]);
        if c.Unset? then Inserted(AddChild(t, k[0], NewSlot(k[1..], v)), 1)
        else
          var r := InsertHere(c, k[1..], v);
          Inserted(SetChild(t, k[0], r.tree), r.added)
      case _ =>
        Inserted(AddChild(t, k[0], NewSlot(k[1..], v)), 1)
  }

  /** radix_tree_insert: walk as LookupPrefix does, insert where it stops. */
  function Insert(t: Tree, k: Key, v: RadixValue): Inserted
    decreases t
  {
    if k == [] then InsertHere(t, k, v)
    else match t
      case ValueChain(w, c) =>
        var r := Insert(c, k, v);
        Inserted(ValueChain(w, r.tree), r.added)
      case PrefixChain(p, c) =>
        if p <= k then
          var r := Insert(c, k[|p|..], v);
          Inserted(PrefixChain(p, r.tree), r.added)
        else InsertHere(t, k, v)
      case Unset => InsertHere(t, k, v)
      case Value(_) => InsertHere(t, k, v)
      case _ =>
        var c := Child(t, k[0]);
        if c.Unset? then InsertHere(t, k, v)
        else
          var r := Insert(c, k[1..], v);
          Inserted(SetChild(t, k[0], r.tree), r.added)
  }

  // ------------------------------------------------------------------
  // Remove
  // ------------------------------------------------------------------

  // dropped holds the values given to the destructor, in order.
  datatype Removed = Removed(tree: Tree, dropped: seq<RadixValue>)

  /** What a node becomes once its child b has become c. */
  function PutBack(t: Tree, b: Byte, c: Tree): Tree
    requires IsNode(t) && ShapeOk(t) && !Child(t, b).Unset?
  {
    if c.Unset? then DropChild(t, b) else SetChild(t, b, c)
  }

  function PutBackChain(p: seq<Byte>, c: Tree): Tree {
    if c.Unset? then Unset else PrefixChain(p, c)
  }

  function PutBackValueChain(v: RadixValue, c: Tree): Tree {
    if c.Unset? then Value(v) else ValueChain(v, c)
  }

  function Remove(t: Tree, k: Key): Removed
    requires Wf(t)
    decreases t
  {
    if k == [] then
      match t
      case Value(v) => Removed(Unset, [v])
      case ValueChain(v, c) => Removed(c, [v])
      case _ => Removed(t, [])
    else
      match t
      case Unset => Removed(t, [])
      case Value(_) => Removed(t, [])
      case ValueChain(v, c) =>
        var r := Remove(c, k);
        Removed(PutBackValueChain(v, r.tree), r.dropped)
      case PrefixChain(p, c) =>
        if !(p <= k) then Removed(t, [])
        else
          var r := Remove(c, k[|p|..]);
          Removed(PutBackChain(p, r.tree), r.dropped)
      case _ =>
        var c := Child(t, k[0]);
        if c.Unset? then Removed(t, [])
        else
          WfByChildren(t);
          var r := Remove(c, k[1..]);
          Removed(PutBack(t, k[0], r.tree), r.dropped)
  }

  // ------------------------------------------------------------------
  // The stored entries, in the order of iteration and of destruction
  // ------------------------------------------------------------------

  datatype Entry = Entry(key: Key, value: RadixValue)

  function Prefixed(p: Key, es: seq<Entry>): (r: seq<Entry>)
    ensures |r| == |es|
    ensures forall i :: 0 <= i < |es| ==> r[i] == Entry(p + es[i].key, es[i].value)
  {
    seq(|es|, i requires 0 <= i < |es| => Entry(p + es[i].key, es[i].value))
  }

  function Vals(es: seq<Entry>): (r: seq<RadixValue>)
    ensures |r| == |es|
    ensures forall i :: 0 <= i < |es| ==> r[i] == es[i].value
  {
    seq(|es|, i requires 0 <= i < |es| => es[i].value)
  }

  /** The byte of slot i. */
  function ByteOf(t: Tree, i: nat): Byte
    requires IsNode(t) && i < |t.values|
  {
    match t
    case Node4(keys, _) => if i < |keys| then keys[i] else 0
    case Node16(keys, _) => if i < |keys| then keys[i] else 0
    case Node48(index, _) => if i < 256 then FindByte(index, i) % 256 else 0
    case Node256(_) => i % 256
  }

  function Entries(t: Tree): seq<Entry>
    decreases t, 0
  {
    match t
    case Unset => []
    case Value(v) => [Entry([], v)]
    case ValueChain(v, c) => [Entry([], v)] + Entries(c)
    case PrefixChain(p, c) => Prefixed(p, Entries(c))
    case _ => SlotEntries(t, |t.values|)
  }

  /** The entries below the first n slots of a node. */
  function SlotEntries(t: Tree, n: nat): seq<Entry>
    requires IsNode(t) && n <= |t.values|
    decreases t, 0, n
  {
    if n == 0 then []
    else SlotEntries(t, n - 1) + Prefixed([ByteOf(t, n - 1)], Entries(t.values[n - 1]))
  }

  function RemoveSubtree(t: Tree, k: Key): Removed
    requires Wf(t)
    decreases t
  {
    if k == [] then Removed(Unset, Vals(Entries(t)))
    else
      match t
      case Unset => Removed(t, [])
      case Value(_) => Removed(t, [])
      case ValueChain(v, c) =>
        var r := RemoveSubtree(c, k);
        Removed(PutBackValueChain(v, r.tree), r.dropped)
      case PrefixChain(p, c) =>
        if CommonLen(p, k) < |p| && CommonLen(p, k) < |k| then Removed(t, [])
        else
          var r := RemoveSubtree(c, if |k| < |p| then [] else k[|p|..]);
          Removed(PutBackChain(p, r.tree), r.dropped)
      case _ =>
        var c := Child(t, k[0]);
        if c.Unset? then Removed(t, [])
        else
          WfByChildren(t);
          var r := RemoveSubtree(c, k[1..]);
          Removed(PutBack(t, k[0], r.tree), r.dropped)
  }
}
