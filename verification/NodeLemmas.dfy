// What the node operations do to the children, shape by shape.  Past this file
// a node is only its function from bytes to children.
module NodeLemmas {
  import opened Bytes
  import opened AdaptiveTree

  lemma FindByteAt(keys: seq<Byte>, i: nat)
    requires NoDup(keys) && i < |keys|
    ensures FindByte(keys, keys[i]) == i
  {
  }

  lemma {:induction false} SetCountUpdate(values: seq<Tree>, i: nat, c: Tree, n: nat)
    requires i < |values| && n <= |values|
    ensures SetCount(values[i := c], n) == SetCount(values, n)
      + (if i < n then (if c.Unset? then 0 else 1) - (if values[i].Unset? then 0 else 1) else 0)
  {
    if n > 0 { SetCountUpdate(values, i, c, n - 1); }
  }

  /** A slot in use belongs to exactly one byte. */
  lemma SlotOwner(t: Tree, i: nat) returns (b: Byte)
    requires IsNode(t) && ShapeOk(t) && i < |t.values| && !t.values[i].Unset?
    ensures SlotOf(t, b) == i
  {
    match t
    case Node4(keys, _) => b := keys[i]; FindByteAt(keys, i);
    case Node16(keys, _) => b := keys[i]; FindByteAt(keys, i);
    case Node48(index, values) =>
      assert i in index;
      var c :| 0 <= c < |index| && index[c] == i;
      b := c;
    case Node256(_) => b := i;
  }

  lemma SlotsDiffer(t: Tree, b: Byte, c: Byte)
    requires IsNode(t) && ShapeOk(t) && b != c && SlotOf(t, b) < |t.values|
    ensures SlotOf(t, b) != SlotOf(t, c)
  {
  }

  lemma WfByChildren(t: Tree)
    requires IsNode(t)
    ensures Wf(t) <==> ShapeOk(t) && forall b: Byte :: Wf(Child(t, b))
  {
    if ShapeOk(t) && forall b: Byte :: Wf(Child(t, b)) {
      forall i | 0 <= i < |t.values| ensures Wf(t.values[i]) {
        if !t.values[i].Unset? {
          var b := SlotOwner(t, i);
          assert Child(t, b) == t.values[i];
        }
      }
    }
  }

  ghost predicate SameBut(t: Tree, t': Tree, b: Byte, c: Tree)
    requires IsNode(t) && IsNode(t')
  {
    forall b': Byte :: Child(t', b') == if b' == b then c else Child(t, b')
  }

  ghost predicate Added(t: Tree, b: Byte, c: Tree)
    requires IsNode(t)
  {
    var t' := AddChild(t, b, c);
    IsNode(t') && ShapeOk(t') && SameBut(t, t', b, c)
  }

  lemma SetChildMeaning(t: Tree, b: Byte, c: Tree)
    requires IsNode(t) && ShapeOk(t) && !Child(t, b).Unset? && !c.Unset?
    ensures var t' := SetChild(t, b, c);
      IsNode(t') && ShapeOk(t') && SameBut(t, t', b, c)
  {
    var t' := SetChild(t, b, c);
    if t.Node256? { SetCountUpdate(t.values, b, c, 256); }
    forall b': Byte ensures Child(t', b') == if b' == b then c else Child(t, b') {
      if b' != b { SlotsDiffer(t, b, b'); }
    }
  }

  lemma FindByteIs(keys: seq<Byte>, b: Byte, i: nat)
    requires i <= |keys| && (i < |keys| ==> keys[i] == b)
    requires forall j :: 0 <= j < i ==> keys[j] != b
    ensures FindByte(keys, b) == i
  {
  }

  lemma FindByteAppend(keys: seq<Byte>, b: Byte, b': Byte)
    requires FindByte(keys, b) == |keys|
    ensures FindByte(keys + [b], b') ==
      if b' == b then |keys| else if FindByte(keys, b') < |keys| then FindByte(keys, b') else |keys| + 1
  {
    var i := FindByte(keys, b');
    FindByteIs(keys + [b], b', if b' == b then |keys| else if i < |keys| then i else |keys| + 1);
  }

  lemma IndexFromKeysOk(keys: seq<Byte>)
    requires |keys| <= 47 && NoDup(keys)
    ensures IndexOk(IndexFromKeys(keys), |keys|)
  {
    var index := IndexFromKeys(keys);
    forall i | 0 <= i < |keys| ensures i in index {
      FindByteAt(keys, i);
      assert index[keys[i]] == i;
    }
  }

  lemma GrowTo48(keys: seq<Byte>, values: seq<Tree>, b: Byte, c: Tree)
    requires |keys| == |values| == 16 && NoDup(keys) && AllSet(values) && !c.Unset?
    requires FindByte(keys, b) == 16
    ensures Added(Node16(keys, values), b, c)
  {
    IndexFromKeysOk(keys);
    IndexAppend(IndexFromKeys(keys), 16, b);
    hide IndexOk;
  }

  lemma GrowTo256(t: Tree, b: Byte, c: Tree)
    requires t.Node48? && ShapeOk(t) && |t.values| == 48 && Child(t, b).Unset? && !c.Unset?
    ensures Added(t, b, c)
  {
    var all := ChildrenByByte(t);
    SetCountUpdate(all, b, c, 256);
    assert SetCount(all, 256) == 48 by { UsedCount(t.index, 48); UsedIsSet(t, 0); }
  }

  function SlotsOf(index: seq<Byte>, bs: seq<Byte>): (r: seq<int>)
    requires |index| == 256
    ensures |r| == |bs| && forall i :: 0 <= i < |bs| ==> r[i] == index[bs[i]]
  {
    seq(|bs|, i requires 0 <= i < |bs| => index[bs[i]])
  }

  lemma SlotIsUsed(index: seq<Byte>, n: nat, x: nat)
    requires n <= 48 && IndexOk(index, n) && x < n
    ensures x in SlotsOf(index, UsedBytes(index, 0))
  {
    hide UsedBytes;
    var bs := UsedBytes(index, 0);
    UsedBytesMeaning(index, 0);
    assert x in index;
    var b :| 0 <= b < 256 && index[b] == x;
    assert b in bs;
    var j :| 0 <= j < |bs| && bs[j] == b;
    assert SlotsOf(index, bs)[j] == x;
  }

  // The used bytes of an index name each slot of the node once.
  lemma UsedSlots(index: seq<Byte>, n: nat)
    requires n <= 48 && IndexOk(index, n)
    ensures var slots := SlotsOf(index, UsedBytes(index, 0)); NoDup(slots) && forall x :: x in slots <==> 0 <= x < n
  {
    hide UsedBytes;
    var bs := UsedBytes(index, 0);
    UsedBytesMeaning(index, 0);
    var slots := SlotsOf(index, bs);
    forall x | 0 <= x < n ensures x in slots {
      SlotIsUsed(index, n, x);
    }
    forall x | x in slots ensures 0 <= x < n {
      var j :| 0 <= j < |slots| && slots[j] == x;
      assert bs[j] in bs;
    }
    forall i, j | 0 <= i < j < |slots| ensures slots[i] != slots[j] {
      assert bs[i] in bs && bs[j] in bs && bs[i] != bs[j];
    }
  }

  /** A Node48 index names as many bytes as the node has slots. */
  lemma UsedCount(index: seq<Byte>, n: nat)
    requires n <= 48 && IndexOk(index, n)
    ensures |UsedBytes(index, 0)| == n
  {
    hide UsedBytes;
    UsedSlots(index, n);
    PermutationLength(SlotsOf(index, UsedBytes(index, 0)), n);
  }

  lemma {:induction false} UsedIsSet(t: Tree, b: nat)
    requires t.Node48? && ShapeOk(t) && b <= 256
    ensures SetCount(ChildrenByByte(t), b) + |UsedBytes(t.index, b)| == SetCount(ChildrenByByte(t), 256)
    decreases 256 - b
  {
    if b < 256 { UsedIsSet(t, b + 1); }
  }

  function LinearChild(keys: seq<Byte>, values: seq<Tree>, b: Byte): Tree {
    var i := FindByte(keys, b);
    if i < |values| then values[i] else Unset
  }

  lemma AddLinear(keys: seq<Byte>, values: seq<Tree>, b: Byte, c: Tree)
    requires |keys| == |values| && NoDup(keys) && AllSet(values)
    requires FindByte(keys, b) == |keys| && !c.Unset?
    ensures NoDup(keys + [b]) && AllSet(values + [c])
    ensures forall b' :: LinearChild(keys + [b], values + [c], b') == if b' == b then c else LinearChild(keys, values, b')
  {
    forall b' ensures LinearChild(keys + [b], values + [c], b') == if b' == b then c else LinearChild(keys, values, b') {
      FindByteAppend(keys, b, b');
    }
  }

  lemma AddLinear16(t: Tree, b: Byte, c: Tree)
    requires t.Node16? && ShapeOk(t) && |t.values| < 16 && Child(t, b).Unset? && !c.Unset?
    ensures Added(t, b, c)
  {
    AddLinear(t.keys, t.values, b, c);
    var t' := AddChild(t, b, c);
    forall b': Byte ensures Child(t', b') == if b' == b then c else Child(t, b') {
      assert Child(t', b') == LinearChild(t'.keys, t'.values, b');
      assert Child(t, b') == LinearChild(t.keys, t.values, b');
    }
  }

  lemma IndexAppend(index: seq<Byte>, n: nat, b: Byte)
    requires n < 48 && IndexOk(index, n) && index[b] == 48
    ensures IndexOk(index[b := n], n + 1)
  {
    var index' := index[b := n];
    forall i | 0 <= i < n + 1 ensures i in index' {
      if i < n {
        assert i in index;
        var j :| 0 <= j < |index| && index[j] == i;
        assert index'[j] == i;
      } else {
        assert index'[b] == i;
      }
    }
  }

  lemma AddLinear4(t: Tree, b: Byte, c: Tree)
    requires t.Node4? && ShapeOk(t) && Child(t, b).Unset? && !c.Unset?
    ensures Added(t, b, c)
  {
    AddLinear(t.keys, t.values, b, c);
    var t' := AddChild(t, b, c);
    forall b': Byte ensures Child(t', b') == if b' == b then c else Child(t, b') {
      assert Child(t', b') == LinearChild(t'.keys, t'.values, b');
      assert Child(t, b') == LinearChild(t.keys, t.values, b');
    }
  }

  lemma Add48(t: Tree, b: Byte, c: Tree)
    requires t.Node48? && ShapeOk(t) && |t.values| < 48 && Child(t, b).Unset? && !c.Unset?
    ensures Added(t, b, c)
  {
    IndexAppend(t.index, |t.values|, b);
    var t' := AddChild(t, b, c);
    forall b': Byte ensures Child(t', b') == if b' == b then c else Child(t, b') {}
  }

  lemma AddChildMeaning(t: Tree, b: Byte, c: Tree)
    requires IsNode(t) && ShapeOk(t) && Child(t, b).Unset? && !c.Unset?
    ensures Added(t, b, c)
  {
    match t
    case Node4(_, _) => AddLinear4(t, b, c);
    case Node16(keys, values) =>
      if |values| == 16 { GrowTo48(keys, values, b, c); } else { AddLinear16(t, b, c); }
    case Node48(_, values) =>
      if |values| == 48 { GrowTo256(t, b, c); } else { Add48(t, b, c); }
    case Node256(values) =>
      SetCountUpdate(values, b, c, 256);
  }

  lemma FindByteErase(keys: seq<Byte>, i: nat, b: Byte)
    requires NoDup(keys) && i < |keys|
    ensures NoDup(Erase(keys, i))
    ensures var j := FindByte(keys, b);
      FindByte(Erase(keys, i), b) == if j == i then |keys| - 1 else if j < i then j else j - 1
  {
    var e := Erase(keys, i);
    forall j | 0 <= j < |e| ensures e[j] == keys[if j < i then j else j + 1] {}
    var j := FindByte(keys, b);
    FindByteIs(e, b, if j == i then |keys| - 1 else if j < i then j else j - 1);
  }

  lemma DropLinearAt(keys: seq<Byte>, values: seq<Tree>, i: nat, b: Byte)
    requires |keys| == |values| && NoDup(keys) && i < |keys|
    ensures LinearChild(Erase(keys, i), Erase(values, i), b) == if b == keys[i] then Unset else LinearChild(keys, values, b)
  {
    FindByteErase(keys, i, b);
    FindByteAt(keys, i);
    hide FindByte, NoDup;
  }

  lemma DropLinear(keys: seq<Byte>, values: seq<Tree>, b: Byte)
    requires |keys| == |values| && NoDup(keys) && AllSet(values) && FindByte(keys, b) < |keys|
    ensures var i := FindByte(keys, b);
      NoDup(Erase(keys, i)) && AllSet(Erase(values, i))
    ensures var i := FindByte(keys, b);
      forall b' :: LinearChild(Erase(keys, i), Erase(values, i), b') == if b' == b then Unset else LinearChild(keys, values, b')
  {
    var i := FindByte(keys, b);
    forall b' ensures LinearChild(Erase(keys, i), Erase(values, i), b') == if b' == b then Unset else LinearChild(keys, values, b') {
      DropLinearAt(keys, values, i, b');
    }
    FindByteErase(keys, i, b);
  }

  lemma IndexEraseOk(index: seq<Byte>, n: nat, b: Byte)
    requires 1 <= n <= 48 && IndexOk(index, n) && index[b] < n
    ensures IndexOk(IndexErase(index, b, index[b]), n - 1)
  {
    var i := index[b];
    var r := IndexErase(index, b, i);
    forall x | 0 <= x < n - 1 ensures x in r {
      var y := if x < i then x else x + 1;
      assert y in index;
      var c :| 0 <= c < 256 && index[c] == y;
      assert r[c] == x;
    }
  }

  /** Removing slot index[b] from a Node48, before any degrading. */
  lemma Drop48(t: Tree, b: Byte)
    requires t.Node48? && ShapeOk(t) && SlotOf(t, b) < |t.values|
    ensures var i := SlotOf(t, b);
      var t' := Node48(IndexErase(t.index, b, i), Erase(t.values, i));
      IndexOk(t'.index, |t'.values|) && AllSet(t'.values) && SameBut(t, t', b, Unset)
  {
    var i := SlotOf(t, b);
    IndexEraseOk(t.index, |t.values|, b);
    var t' := Node48(IndexErase(t.index, b, i), Erase(t.values, i));
    forall b': Byte ensures Child(t', b') == if b' == b then Unset else Child(t, b') {
      if b' != b { SlotsDiffer(t, b, b'); }
    }
  }

  lemma FindByteIn(bs: seq<Byte>, b: Byte)
    ensures b in bs <==> FindByte(bs, b) < |bs|
  {
  }

  lemma PickChild(index: seq<Byte>, values: seq<Tree>, bs: seq<Byte>, b: Byte)
    requires |index| == 256 && forall c :: c in bs ==> index[c] < |values|
    ensures LinearChild(bs, Pick(index, values, bs), b) == if b in bs then values[index[b]] else Unset
  {
    FindByteIn(bs, b);
  }

  lemma DegradeTo16Child(index: seq<Byte>, values: seq<Tree>, b: Byte)
    requires |index| == 256 && |values| <= 16
    requires forall c :: 0 <= c < 256 ==> index[c] < |values| || index[c] == 48
    ensures Child(DegradeTo16(index, values), b) == Child(Node48(index, values), b)
  {
    var bs := UsedBytes(index, 0);
    UsedBytesMeaning(index, 0);
    var vs := Pick(index, values, bs);
    assert DegradeTo16(index, values) == Node16(bs, vs);
    hide DegradeTo16, UsedBytes;
    PickChild(index, values, bs, b);
    Linear16(bs, vs, b);
    hide Pick, LinearChild;
    assert b in bs <==> index[b] < 48;
  }

  lemma Linear16(keys: seq<Byte>, values: seq<Tree>, b: Byte)
    ensures Child(Node16(keys, values), b) == LinearChild(keys, values, b)
  {
  }

  lemma DegradeTo16Shape(index: seq<Byte>, values: seq<Tree>)
    requires |values| <= 16 && IndexOk(index, |values|) && AllSet(values)
    ensures var t' := DegradeTo16(index, values);
      |t'.keys| == |t'.values| == |values| && NoDup(t'.keys) && AllSet(t'.values)
  {
    UsedBytesMeaning(index, 0);
    UsedCount(index, |values|);
    hide IndexOk, UsedBytes;
    var bs := UsedBytes(index, 0);
    assert forall i :: 0 <= i < |bs| ==> bs[i] in bs;
  }

  lemma DegradeTo16Meaning(index: seq<Byte>, values: seq<Tree>)
    requires |values| <= 16 && IndexOk(index, |values|) && AllSet(values)
    ensures var t' := DegradeTo16(index, values);
      && |t'.keys| == |t'.values| == |values| && NoDup(t'.keys) && AllSet(t'.values)
      && forall b: Byte :: Child(t', b) == Child(Node48(index, values), b)
  {
    DegradeTo16Shape(index, values);
    forall b: Byte ensures Child(DegradeTo16(index, values), b) == Child(Node48(index, values), b) {
      DegradeTo16Child(index, values, b);
    }
  }

  /** SetChildren lists the set children in byte order. */
  lemma {:induction false} SetChildrenAt(values: seq<Tree>, n: nat, i: nat)
    requires i < n <= |values| && !values[i].Unset?
    ensures SetCount(values, i) < SetCount(values, n)
    ensures SetChildren(values, n)[SetCount(values, i)] == values[i]
  {
    SetCountMonotone(values, i, n);
    if i < n - 1 { SetChildrenAt(values, n - 1, i); }
  }

  lemma {:induction false} NthSet(values: seq<Tree>, n: nat, x: nat) returns (i: nat)
    requires n <= |values| && x < SetCount(values, n)
    ensures i < n && !values[i].Unset? && SetCount(values, i) == x
  {
    if !values[n - 1].Unset? && SetCount(values, n - 1) == x {
      i := n - 1;
    } else {
      i := NthSet(values, n - 1, x);
    }
  }

  lemma DegradeTo48Meaning(values: seq<Tree>)
    requires |values| == 256 && SetCount(values, 256) <= 48
    ensures var t' := DegradeTo48(values);
      && |t'.values| == SetCount(values, 256) && IndexOk(t'.index, |t'.values|) && AllSet(t'.values)
      && forall b: Byte :: Child(t', b) == values[b]
  {
    var t' := DegradeTo48(values);
    var n := |t'.values|;
    forall b: Byte ensures Child(t', b) == values[b] && (t'.index[b] < n || t'.index[b] == 48) {
      if !values[b].Unset? { SetChildrenAt(values, 256, b); }
    }
    forall b, c | 0 <= b < c < 256 && t'.index[b] < n ensures t'.index[b] != t'.index[c] {
      if !values[b].Unset? && !values[c].Unset? { SetCountMonotone(values, b + 1, c); SetCountMonotone(values, b, b + 1); }
    }
    forall x | 0 <= x < n ensures x in t'.index {
      var b := NthSet(values, 256, x);
      assert t'.index[b] == x;
    }
  }

  ghost predicate Dropped(t: Tree, t': Tree, b: Byte)
    requires IsNode(t)
  {
    if t'.Unset? then forall b': Byte :: b' != b ==> Child(t, b').Unset?
    else IsNode(t') && ShapeOk(t') && SameBut(t, t', b, Unset)
  }

  lemma DropLinearMeaning(t: Tree, b: Byte)
    requires (t.Node4? || t.Node16?) && ShapeOk(t) && !Child(t, b).Unset?
    ensures Dropped(t, DropChild(t, b), b)
  {
    DropLinear(t.keys, t.values, b);
    forall b': Byte ensures Child(t, b') == LinearChild(t.keys, t.values, b') {}
    var t' := DropChild(t, b);
    if !t'.Unset? {
      forall b': Byte ensures Child(t', b') == LinearChild(t'.keys, t'.values, b') {}
    }
  }

  lemma Drop48Meaning(t: Tree, b: Byte)
    requires t.Node48? && ShapeOk(t) && !Child(t, b).Unset?
    ensures Dropped(t, DropChild(t, b), b)
  {
    var i := SlotOf(t, b);
    Drop48(t, b);
    if |t.values| - 1 <= 16 { DegradeTo16Meaning(IndexErase(t.index, b, i), Erase(t.values, i)); }
  }

  lemma Drop256Meaning(t: Tree, b: Byte)
    requires t.Node256? && ShapeOk(t) && !Child(t, b).Unset?
    ensures Dropped(t, DropChild(t, b), b)
  {
    var values' := t.values[b := Unset];
    SetCountUpdate(t.values, b, Unset, 256);
    if SetCount(values', 256) <= 48 { DegradeTo48Meaning(values'); }
  }

  lemma DropChildMeaning(t: Tree, b: Byte)
    requires IsNode(t) && ShapeOk(t) && !Child(t, b).Unset?
    ensures Dropped(t, DropChild(t, b), b)
  {
    match t
    case Node4(_, _) => DropLinearMeaning(t, b);
    case Node16(_, _) => DropLinearMeaning(t, b);
    case Node48(_, _) => Drop48Meaning(t, b);
    case Node256(_) => Drop256Meaning(t, b);
  }
}
