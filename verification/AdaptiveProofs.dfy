// The adaptive tree behaves as a map from keys to values.
module AdaptiveProofs {
  import opened Bytes
  import opened AdaptiveTree
  import opened NodeLemmas
  import opened AdaptiveOps

  // ------------------------------------------------------------------
  // Lookup
  // ------------------------------------------------------------------

  lemma {:induction false} LookupIsGet(t: Tree, k: Key)
    requires Wf(t)
    ensures Lookup(t, k) == Get(t, k)
    decreases t
  {
    if k != [] {
      match t
      case Unset =>
      case Value(_) =>
      case ValueChain(_, c) => LookupIsGet(c, k);
      case PrefixChain(p, c) => if p <= k { LookupIsGet(c, k[|p|..]); }
      case _ =>
        WfByChildren(t);
        var c := Child(t, k[0]);
        if !c.Unset? { LookupIsGet(c, k[1..]); }
    }
  }

  /** LookupPrefix can go no further: where the blind appends of _insert are safe. */
  ghost predicate Stop(t: Tree, k: Key) {
    k == [] ||
    match t
    case Unset => true
    case Value(_) => true
    case ValueChain(_, _) => false
    case PrefixChain(p, _) => !(p <= k)
    case _ => Child(t, k[0]).Unset?
  }

  lemma {:induction false} LookupStops(t: Tree, k: Key)
    requires Wf(t)
    ensures var r := LookupPrefix(t, k);
      Wf(r.tree) && Stop(r.tree, r.rest) && r.rest == k[|k| - |r.rest|..]
    decreases t
  {
    if k != [] {
      match t
      case Unset =>
      case Value(_) =>
      case ValueChain(_, c) => LookupStops(c, k);
      case PrefixChain(p, c) => if p <= k { LookupStops(c, k[|p|..]); }
      case _ =>
        WfByChildren(t);
        var c := Child(t, k[0]);
        if !c.Unset? { LookupStops(c, k[1..]); }
    }
  }

  // ------------------------------------------------------------------
  // Insert
  // ------------------------------------------------------------------

  lemma NewSlotMeaning(k: Key, v: RadixValue, k': Key)
    ensures Wf(NewSlot(k, v)) && !NewSlot(k, v).Unset?
    ensures Get(NewSlot(k, v), k') == if k' == k then Some(v) else None
  {
    if k != [] && k <= k' && k' != k { assert k'[|k|..] != []; }
  }

  ghost predicate IsInsert(t: Tree, k: Key, v: RadixValue, k': Key, r: Inserted) {
    && Wf(r.tree) && !r.tree.Unset?
    && Get(r.tree, k') == (if k' == k then Some(v) else Get(t, k'))
    && r.added == (if Get(t, k).None? then 1 else 0)
    && (k != [] && (t.PrefixChain? || IsNode(t)) ==> r.tree.PrefixChain? || IsNode(r.tree))
  }

  /** t' is the node t with c as the child of byte b. */
  lemma SameButMeaning(t: Tree, t': Tree, b: Byte, c: Tree, k: Key)
    requires Wf(t) && IsNode(t) && IsNode(t') && ShapeOk(t') && SameBut(t, t', b, c)
    ensures Wf(t') <==> Wf(c)
    ensures Get(t', k) == if k != [] && k[0] == b then Get(c, k[1..]) else Get(t, k)
  {
    WfByChildren(t);
    WfByChildren(t');
    hide Wf, ShapeOk, SlotOf, Child;
    assert Child(t', b) == c;
  }

  lemma InsertInNode(t: Tree, k: Key, v: RadixValue, k': Key)
    requires Wf(t) && IsNode(t) && k != [] && Child(t, k[0]).Unset?
    ensures IsInsert(t, k, v, k', InsertHere(t, k, v))
  {
    var c := NewSlot(k[1..], v);
    NewSlotMeaning(k[1..], v, if k' == [] then [] else k'[1..]);
    AddChildMeaning(t, k[0], c);
    var t' := AddChild(t, k[0], c);
    assert InsertHere(t, k, v) == Inserted(t', 1);
    hide InsertHere, NewSlot, AddChild, ShapeOk;
    SameButMeaning(t, t', k[0], c, k');
    hide Wf, Child;
    if k' != [] && k'[0] == k[0] { assert k' == k <==> k'[1..] == k[1..]; }
  }

  /** The node4 stuck in front of a chain whose first byte differs. */
  lemma PairNode(a: Byte, x: Tree, b: Byte, y: Tree, k: Key)
    requires a != b && !x.Unset? && !y.Unset? && Wf(x) && Wf(y)
    ensures var n := Node4([a, b], [x, y]);
      && Wf(n)
      && Get(n, k) == if k == [] then None else if k[0] == a then Get(x, k[1..])
                      else if k[0] == b then Get(y, k[1..]) else None
  {
    var n := Node4([a, b], [x, y]);
    if k != [] {
      FindByteIs([a, b], k[0], if k[0] == a then 0 else if k[0] == b then 1 else 2);
    }
  }

  lemma TailGet(p: seq<Byte>, c: Tree, k: Key)
    requires p != [] && k != [] && k[0] == p[0]
    ensures Get(if |p| == 1 then c else PrefixChain(p[1..], c), k[1..]) == Get(PrefixChain(p, c), k)
  {
    assert p <= k <==> p[1..] <= k[1..];
    if p <= k { assert k[|p|..] == k[1..][|p| - 1..]; }
  }

  lemma InsertBeforeChain(p: seq<Byte>, c: Tree, k: Key, v: RadixValue, k': Key)
    requires Wf(PrefixChain(p, c)) && k != [] && k[0] != p[0]
    ensures IsInsert(PrefixChain(p, c), k, v, k', InsertHere(PrefixChain(p, c), k, v))
  {
    var t := PrefixChain(p, c);
    var added := NewSlot(k[1..], v);
    var rest := if |p| == 1 then c else PrefixChain(p[1..], c);
    var n := Node4([p[0], k[0]], [rest, added]);
    assert InsertHere(t, k, v) == Inserted(n, 1);
    assert Wf(rest) && Get(t, k) == None;
    NewSlotMeaning(k[1..], v, if k' == [] then [] else k'[1..]);
    hide InsertHere, NewSlot;
    PairNode(p[0], rest, k[0], added, k');
    if k' != [] && k'[0] == p[0] { TailGet(p, c, k'); }
    if k' != [] && k'[0] == k[0] { assert k' == k <==> k'[1..] == k[1..]; }
    assert k' == [] || k'[0] != p[0] ==> Get(t, k') == None;
    hide Get, Wf;
  }

  lemma ChainSplit(p: seq<Byte>, c: Tree, i: nat, k': Key)
    requires i <= |p|
    ensures Get(PrefixChain(p[..i], PrefixChain(p[i..], c)), k') == Get(PrefixChain(p, c), k')
  {
    if p[..i] <= k' {
      assert p == p[..i] + p[i..];
      assert k' == k'[..i] + k'[i..];
      assert p[i..] <= k'[i..] <==> p <= k';
      if p <= k' { assert k'[i..][|p| - i..] == k'[|p|..]; }
    }
  }

  lemma {:induction false} InsertHereMeaning(t: Tree, k: Key, v: RadixValue, k': Key)
    requires Wf(t) && Stop(t, k) && !(k == [] && t.ValueChain?)
    ensures IsInsert(t, k, v, k', InsertHere(t, k, v))
    decreases |k|
  {
    if k != [] {
      match t
      case Unset => NewSlotMeaning(k, v, k');
      case Value(_) => NewSlotMeaning(k, v, k');
      case PrefixChain(p, c) =>
        if k[0] == p[0] {
          SplitMeaning(p, c, k, v, k');
        } else {
          InsertBeforeChain(p, c, k, v, k');
        }
      case _ => InsertInNode(t, k, v, k');
    }
  }

  lemma SplitMeaning(p: seq<Byte>, c: Tree, k: Key, v: RadixValue, k': Key)
    requires Wf(PrefixChain(p, c)) && k != [] && k[0] == p[0] && !(p <= k)
    ensures IsInsert(PrefixChain(p, c), k, v, k', InsertHere(PrefixChain(p, c), k, v))
    decreases |k|, 0
  {
    var i := CommonLen(p, k);
    assert 0 < i < |p|;
    var t2 := PrefixChain(p[i..], c);
    if i < |k| { assert p[i..][0] != k[i..][0]; }
    var pre := p[..i];
    InsertHereMeaning(t2, k[i..], v, if pre <= k' then k'[i..] else []);
    ChainSplit(p, c, i, k');
    assert k == pre + k[i..];
    if pre <= k' {
      assert k' == pre + k'[i..];
      assert k' == k <==> k'[i..] == k[i..];
    }
  }

  lemma InsertStep(t: Tree, k: Key, v: RadixValue)
    requires Wf(t) && IsNode(t) && k != []
    ensures ShapeOk(t)
    ensures var i := SlotOf(t, k[0]);
      if i < |t.values| && !t.values[i].Unset? then
        && Wf(t.values[i])
        && var r := Insert(t.values[i], k[1..], v);
           Insert(t, k, v) == Inserted(WithSlot(t, i, r.tree), r.added)
      else Stop(t, k) && Insert(t, k, v) == InsertHere(t, k, v)
  {
    WfByChildren(t);
  }

  // Re-inserting a key that some stored key properly extends stacks a second
  // VALUE_CHAIN instead of overwriting.
  ghost predicate Restacks(t: Tree, k: Key) {
    var r := LookupPrefix(t, k);
    r.rest == [] && r.tree.ValueChain?
  }

  lemma {:induction false} InsertMeaning(t: Tree, k: Key, v: RadixValue, k': Key)
    requires Wf(t) && !Restacks(t, k)
    ensures IsInsert(t, k, v, k', Insert(t, k, v))
    decreases t
  {
    if Stop(t, k) {
      InsertHereMeaning(t, k, v, k');
    } else if t.ValueChain? {
      InsertMeaning(t.child, k, v, k');
    } else if t.PrefixChain? {
      var p := t.prefix;
      InsertMeaning(t.child, k[|p|..], v, if p <= k' then k'[|p|..] else []);
      if p <= k' { PrefixSlice(p, k); PrefixSlice(p, k'); }
    } else {
      InsertBelowNode(t, k, v, k');
    }
  }

  lemma InsertBelowNode(t: Tree, k: Key, v: RadixValue, k': Key)
    requires Wf(t) && IsNode(t) && k != [] && !Child(t, k[0]).Unset? && !Restacks(t, k)
    ensures IsInsert(t, k, v, k', Insert(t, k, v))
    decreases t, 0
  {
    var c := Child(t, k[0]);
    WfByChildren(t);
    InsertMeaning(c, k[1..], v, if k' == [] then [] else k'[1..]);
    var r := Insert(c, k[1..], v);
    SetChildMeaning(t, k[0], r.tree);
    var t' := SetChild(t, k[0], r.tree);
    assert Insert(t, k, v) == Inserted(t', r.added);
    hide Insert, SetChild, ShapeOk;
    SameButMeaning(t, t', k[0], r.tree, k');
    hide Wf;
    if k' != [] && k'[0] == k[0] { assert k' == k <==> k'[1..] == k[1..]; }
  }

  /** Re-insertion on a VALUE_CHAIN: lookups are right, the shape and the count
      are not. */
  lemma {:induction false} RestackMeaning(t: Tree, k: Key, v: RadixValue, k': Key)
    requires Wf(t) && Restacks(t, k)
    ensures var r := Insert(t, k, v);
      && !Wf(r.tree) && !r.tree.Unset? && r.added == 1 && Get(t, k).Some?
      && Get(r.tree, k') == if k' == k then Some(v) else Get(t, k')
    decreases t
  {
    if k == [] {
    } else if t.ValueChain? {
      RestackMeaning(t.child, k, v, k');
    } else if t.PrefixChain? {
      var p := t.prefix;
      RestackMeaning(t.child, k[|p|..], v, if p <= k' then k'[|p|..] else []);
      if p <= k' { PrefixSlice(p, k); PrefixSlice(p, k'); }
    } else {
      RestackBelowNode(t, k, v, k');
    }
  }

  lemma RestackBelowNode(t: Tree, k: Key, v: RadixValue, k': Key)
    requires Wf(t) && IsNode(t) && k != [] && Restacks(t, k)
    ensures var r := Insert(t, k, v);
      && !Wf(r.tree) && !r.tree.Unset? && r.added == 1 && Get(t, k).Some?
      && Get(r.tree, k') == if k' == k then Some(v) else Get(t, k')
    decreases t, 0
  {
    var c := Child(t, k[0]);
    WfByChildren(t);
    RestackMeaning(c, k[1..], v, if k' == [] then [] else k'[1..]);
    var r := Insert(c, k[1..], v);
    SetChildMeaning(t, k[0], r.tree);
    var t' := SetChild(t, k[0], r.tree);
    assert Insert(t, k, v) == Inserted(t', r.added);
    hide Insert, SetChild, ShapeOk;
    SameButMeaning(t, t', k[0], r.tree, k');
    hide Wf;
    if k' != [] && k'[0] == k[0] { assert k' == k <==> k'[1..] == k[1..]; }
  }

  // ------------------------------------------------------------------
  // When does a key restack?
  // ------------------------------------------------------------------

  /** A well-formed subtree that is set stores something. */
  lemma {:induction false} Inhabited(t: Tree) returns (k: Key)
    requires Wf(t) && !t.Unset?
    ensures Get(t, k).Some?
    ensures t.PrefixChain? || IsNode(t) ==> k != []
    decreases t
  {
    if t.PrefixChain? {
      var k1 := Inhabited(t.child);
      k := t.prefix + k1;
      assert k[|t.prefix|..] == k1;
    } else if IsNode(t) {
      WfByChildren(t);
      var i := SomeSlot(t);
      var b := SlotOwner(t, i);
      var k1 := Inhabited(t.values[i]);
      k := [b] + k1;
      assert Child(t, k[0]) == t.values[i] && k[1..] == k1;
    } else {
      k := [];
    }
  }

  lemma SomeSlot(t: Tree) returns (i: nat)
    requires IsNode(t) && ShapeOk(t)
    ensures i < |t.values| && !t.values[i].Unset?
  {
    if t.Node256? {
      i := NthSet(t.values, 256, 0);
    } else {
      i := 0;
    }
  }

  ghost predicate Present(t: Tree, k: Key) { Get(t, k).Some? }

  ghost predicate HasExtension(t: Tree, k: Key) {
    exists k2 :: k < k2 && Present(t, k2)
  }

  lemma {:induction false} ExtensionBelow(t: Tree, k: Key) returns (k2: Key)
    requires Wf(t) && Restacks(t, k)
    ensures Present(t, k) && k < k2 && Present(t, k2)
    decreases t
  {
    if k == [] {
      k2 := Inhabited(t.child);
    } else if t.ValueChain? {
      k2 := ExtensionBelow(t.child, k);
    } else if t.PrefixChain? {
      var p := t.prefix;
      var s := ExtensionBelow(t.child, k[|p|..]);
      k2 := p + s;
      PrefixSlice(p, k);
      assert k2[|p|..] == s;
    } else {
      WfByChildren(t);
      var s := ExtensionBelow(Child(t, k[0]), k[1..]);
      k2 := [k[0]] + s;
      assert k == [k[0]] + k[1..] && k2[1..] == s;
    }
  }

  lemma {:induction false} ExtensionRestacks(t: Tree, k: Key, k2: Key)
    requires Wf(t) && Present(t, k) && k < k2 && Present(t, k2)
    ensures Restacks(t, k)
    decreases t
  {
    if k == [] {
    } else if t.ValueChain? {
      ExtensionRestacks(t.child, k, k2);
    } else if t.PrefixChain? {
      var p := t.prefix;
      PrefixSlice(p, k);
      PrefixSlice(p, k2);
      ExtensionRestacks(t.child, k[|p|..], k2[|p|..]);
    } else if IsNode(t) {
      WfByChildren(t);
      ExtensionRestacks(Child(t, k[0]), k[1..], k2[1..]);
    }
  }

  // ------------------------------------------------------------------
  // The insert theorem
  // ------------------------------------------------------------------

  /** Insert changes exactly one key, always.  It keeps the tree well formed
      exactly when it does not overwrite a key that another key extends, and
      then nr_entries grows exactly when the key is new. */
  lemma InsertTheorem(t: Tree, k: Key, v: RadixValue)
    requires Wf(t)
    ensures var r := Insert(t, k, v);
      && (forall k' :: Get(r.tree, k') == if k' == k then Some(v) else Get(t, k'))
      && (Wf(r.tree) <==> !(Present(t, k) && HasExtension(t, k)))
      && (Wf(r.tree) ==> r.added == if Present(t, k) then 0 else 1)
      && (!Wf(r.tree) ==> r.added == 1)
  {
    if Restacks(t, k) {
      forall k' ensures Get(Insert(t, k, v).tree, k') == if k' == k then Some(v) else Get(t, k') {
        RestackMeaning(t, k, v, k');
      }
      RestackMeaning(t, k, v, k);
      var k2 := ExtensionBelow(t, k);
    } else {
      forall k' ensures Get(Insert(t, k, v).tree, k') == if k' == k then Some(v) else Get(t, k') {
        InsertMeaning(t, k, v, k');
      }
      InsertMeaning(t, k, v, k);
      if Present(t, k) && HasExtension(t, k) {
        var k2 :| k < k2 && Present(t, k2);
        ExtensionRestacks(t, k, k2);
      }
    }
  }
}
