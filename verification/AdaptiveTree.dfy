// The adaptive radix tree (base/data-struct/radix-tree-adaptive.c) as a value.
// Only the used slots of a node are kept: `nr_entries` of a node is the length
// of its `values`, except in a Node256 where it is the number of set children.
module AdaptiveTree {
  import opened Bytes

  // union radix_value: a pointer or a 64-bit number the tree never inspects
  type RadixValue = nat

  datatype Tree =
    | Unset
    | Value(value: RadixValue)
    | ValueChain(value: RadixValue, child: Tree)
    | PrefixChain(prefix: seq<Byte>, child: Tree)
    | Node4(keys: seq<Byte>, values: seq<Tree>)
    | Node16(keys: seq<Byte>, values: seq<Tree>)
    | Node48(index: seq<Byte>, values: seq<Tree>)
    | Node256(values: seq<Tree>)

  predicate IsNode(t: Tree) {
    t.Node4? || t.Node16? || t.Node48? || t.Node256?
  }

  // ------------------------------------------------------------------
  // Slots
  // ------------------------------------------------------------------

  /** The first position of b in keys, |keys| when it does not occur. */
  function FindByte(keys: seq<Byte>, b: Byte): (i: nat)
    ensures i <= |keys|
    ensures i < |keys| ==> keys[i] == b
    ensures forall j :: 0 <= j < i ==> keys[j] != b
  {
    if keys == [] then 0
    else if keys[0] == b then 0
    else 1 + FindByte(keys[1..], b)
  }

  /** The slot of byte b in a node, |values| or more when b has no child. */
  function SlotOf(t: Tree, b: Byte): nat
    requires IsNode(t)
  {
    match t
    case Node4(keys, _) => FindByte(keys, b)
    case Node16(keys, _) => FindByte(keys, b)
    case Node48(index, _) => if b < |index| then index[b] else 48
    case Node256(_) => b
  }

  function Child(t: Tree, b: Byte): (c: Tree)
    requires IsNode(t)
    ensures c.Unset? || c < t
  {
    var i := SlotOf(t, b);
    if i < |t.values| then t.values[i] else Unset
  }

  // ------------------------------------------------------------------
  // Well-formedness
  // ------------------------------------------------------------------

  ghost predicate IndexOk(index: seq<Byte>, n: nat) {
    && |index| == 256
    && (forall b :: 0 <= b < 256 ==> index[b] < n || index[b] == 48)
    && (forall b, c :: 0 <= b < c < 256 && index[b] < n ==> index[b] != index[c])
    && (forall i :: 0 <= i < n ==> i in index)
  }

  /** Number of set children among the first n. */
  function SetCount(values: seq<Tree>, n: nat): (c: nat)
    requires n <= |values|
    ensures c <= n
  {
    if n == 0 then 0
    else SetCount(values, n - 1) + (if values[n - 1].Unset? then 0 else 1)
  }

  ghost predicate AllSet(values: seq<Tree>) {
    forall i :: 0 <= i < |values| ==> !values[i].Unset?
  }

  /** The shape of one node, without looking into its children. */
  ghost predicate ShapeOk(t: Tree) {
    match t
    case Unset => true
    case Value(_) => true
    case ValueChain(_, c) => c.PrefixChain? || IsNode(c)
    case PrefixChain(p, c) => p != [] && !c.Unset?
    case Node4(keys, values) => 1 <= |keys| == |values| <= 4 && NoDup(keys) && AllSet(values)
    case Node16(keys, values) => 5 <= |keys| == |values| <= 16 && NoDup(keys) && AllSet(values)
    case Node48(index, values) => 17 <= |values| <= 48 && IndexOk(index, |values|) && AllSet(values)
    case Node256(values) => |values| == 256 && SetCount(values, 256) >= 49
  }

  ghost predicate Wf(t: Tree)
    decreases t
  {
    && ShapeOk(t)
    && match t
       case Unset => true
       case Value(_) => true
       case ValueChain(_, c) => Wf(c)
       case PrefixChain(_, c) => Wf(c)
       case Node4(_, values) => forall i :: 0 <= i < |values| ==> Wf(values[i])
       case Node16(_, values) => forall i :: 0 <= i < |values| ==> Wf(values[i])
       case Node48(_, values) => forall i :: 0 <= i < |values| ==> Wf(values[i])
       case Node256(values) => forall i :: 0 <= i < |values| ==> Wf(values[i])
  }

  // ------------------------------------------------------------------
  // What a tree means: the value stored under a key
  // ------------------------------------------------------------------

  function Get(t: Tree, k: Key): Option<RadixValue>
    decreases t
  {
    match t
    case Unset => None
    case Value(v) => if k == [] then Some(v) else None
    case ValueChain(v, c) => if k == [] then Some(v) else Get(c, k)
    case PrefixChain(p, c) => if p <= k then Get(c, k[|p|..]) else None
    case _ =>
      if k == [] then None
      else
        var c := Child(t, k[0]);
        if c.Unset? then None else Get(c, k[1..])
  }

  // ------------------------------------------------------------------
  // Operations on one node
  // ------------------------------------------------------------------

  function WithSlot(t: Tree, i: nat, c: Tree): (t': Tree)
    requires IsNode(t) && i < |t.values|
    ensures IsNode(t') && t'.values == t.values[i := c]
  {
    t.(values := t.values[i := c])
  }

  function SetChild(t: Tree, b: Byte, c: Tree): Tree
    requires IsNode(t) && SlotOf(t, b) < |t.values|
  {
    WithSlot(t, SlotOf(t, b), c)
  }

  function Erase<T>(s: seq<T>, i: nat): seq<T>
    requires i < |s|
  {
    s[..i] + s[i + 1..]
  }

  /** The index of a fresh Node48 made from the sixteen keys of a Node16. */
  function IndexFromKeys(keys: seq<Byte>): (index: seq<Byte>)
    requires |keys| <= 48
    ensures |index| == 256
    ensures forall b :: 0 <= b < 256 ==> index[b] == (if FindByte(keys, b) < |keys| then FindByte(keys, b) else 48)
  {
    seq(256, (b: nat) requires b < 256 => var i := FindByte(keys, b); if i < |keys| then i else 48)
  }

  function ChildrenByByte(t: Tree): (values: seq<Tree>)
    requires IsNode(t)
    ensures |values| == 256
    ensures forall b :: 0 <= b < 256 ==> values[b] == Child(t, b)
  {
    seq(256, (b: nat) requires b < 256 => Child(t, b))
  }

  /** A new child appended to a node, growing it when it is full. */
  function AddChild(t: Tree, b: Byte, c: Tree): Tree
    requires IsNode(t)
  {
    match t
    case Node4(keys, values) =>
      if |values| == 4 then Node16(keys + [b], values + [c]) else Node4(keys + [b], values + [c])
    case Node16(keys, values) =>
      if |values| == 16 && |keys| == 16 then Node48(IndexFromKeys(keys)[b := 16], values + [c])
      else Node16(keys + [b], values + [c])
    case Node48(index, values) =>
      if |values| >= 48 then Node256(ChildrenByByte(t)[b := c])
      else if b < |index| then Node48(index[b := |values|], values + [c]) else t
    case Node256(values) =>
      if b < |values| then Node256(values[b := c]) else t
  }

  /** The bytes a Node48 index uses, in increasing order, from b on. */
  function UsedBytes(index: seq<Byte>, b: nat): (bs: seq<Byte>)
    requires |index| == 256 && b <= 256
    decreases 256 - b
  {
    if b == 256 then []
    else (if index[b] < 48 then [b] else []) + UsedBytes(index, b + 1)
  }

  /** The children of the bytes bs, in that order. */
  function Pick(index: seq<Byte>, values: seq<Tree>, bs: seq<Byte>): (r: seq<Tree>)
    requires |index| == 256 && forall b :: b in bs ==> index[b] < |values|
    ensures |r| == |bs| && forall i :: 0 <= i < |bs| ==> r[i] == values[index[bs[i]]]
  {
    seq(|bs|, i requires 0 <= i < |bs| => values[index[bs[i]]])
  }

  function DegradeTo16(index: seq<Byte>, values: seq<Tree>): Tree
    requires |index| == 256
    requires forall b :: 0 <= b < 256 ==> index[b] < |values| || index[b] >= 48
  {
    var bs := UsedBytes(index, 0);
    UsedBytesMeaning(index, 0);
    Node16(bs, Pick(index, values, bs))
  }

  lemma {:induction false} UsedBytesMeaning(index: seq<Byte>, b: nat)
    requires |index| == 256 && b <= 256
    ensures forall c :: c in UsedBytes(index, b) <==> b <= c < 256 && index[c] < 48
    ensures NoDup(UsedBytes(index, b))
    decreases 256 - b
  {
    if b < 256 { UsedBytesMeaning(index, b + 1); }
  }

  /** The set children of a Node256 in byte order. */
  function SetChildren(values: seq<Tree>, n: nat): (s: seq<Tree>)
    requires n <= |values|
    ensures |s| == SetCount(values, n)
    ensures AllSet(s)
  {
    if n == 0 then []
    else SetChildren(values, n - 1) + (if values[n - 1].Unset? then [] else [values[n - 1]])
  }

  function DegradeTo48(values: seq<Tree>): Tree
    requires |values| == 256 && SetCount(values, 256) <= 48
  {
    Node48(seq(256, (b: nat) requires b < 256 =>
                 if values[b].Unset? then 48 else (SetCountMonotone(values, b, 256); SetCount(values, b))),
           SetChildren(values, 256))
  }

  lemma {:induction false} SetCountMonotone(values: seq<Tree>, m: nat, n: nat)
    requires m <= n <= |values|
    ensures SetCount(values, m) <= SetCount(values, n)
    ensures m < n && !values[m].Unset? ==> SetCount(values, m) < SetCount(values, n)
  {
    if m < n { SetCountMonotone(values, m, n - 1); }
  }

  /** The index of a Node48 after slot i, that of byte b, is erased. */
  function IndexErase(index: seq<Byte>, b: Byte, i: nat): (r: seq<Byte>)
    requires |index| == 256
    ensures |r| == 256
  {
    seq(256, (c: nat) requires c < 256 =>
          if c == b then 48
          else if index[c] < 48 && index[c] > i then index[c] - 1
          else index[c])
  }

  /** Child b goes away; the node shrinks, and degrades when it has become too
      empty for its shape. */
  function DropChild(t: Tree, b: Byte): Tree
    requires IsNode(t) && ShapeOk(t) && !Child(t, b).Unset?
  {
    var i := SlotOf(t, b);
    match t
    case Node4(keys, values) =>
      if |values| == 1 then Unset else Node4(Erase(keys, i), Erase(values, i))
    case Node16(keys, values) =>
      if |values| - 1 <= 4 then Node4(Erase(keys, i), Erase(values, i))
      else Node16(Erase(keys, i), Erase(values, i))
    case Node48(index, values) =>
      if |values| - 1 <= 16 then DegradeTo16(IndexErase(index, b, i), Erase(values, i))
      else Node48(IndexErase(index, b, i), Erase(values, i))
    case Node256(values) =>
      var values' := values[b := Unset];
      if SetCount(values', 256) <= 48 then DegradeTo48(values') else Node256(values')
  }
}
