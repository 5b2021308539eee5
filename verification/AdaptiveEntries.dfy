// The entries of a tree, and the two removals.
module AdaptiveEntries {
  import opened Bytes
  import opened AdaptiveTree
  import opened NodeLemmas
  import opened AdaptiveOps
  import opened AdaptiveProofs

  // ------------------------------------------------------------------
  // Remove
  // ------------------------------------------------------------------

  /** Lookups after putting back: below b the new child answers, elsewhere
      nothing changes. */
  lemma PutBackGet(t: Tree, b: Byte, c: Tree, k: Key)
    requires Wf(t) && IsNode(t) && !Child(t, b).Unset? && Wf(c)
    ensures var t' := PutBack(t, b, c);
      && Wf(t') && (t'.Unset? || IsNode(t'))
      && Get(t', k) == if k != [] && k[0] == b then Get(c, k[1..]) else Get(t, k)
  {
    var t' := PutBack(t, b, c);
    if c.Unset? { DropChildMeaning(t, b); } else { SetChildMeaning(t, b, c); }
    hide PutBack, ShapeOk;
    if t'.Unset? {
      hide Child, Wf;
    } else {
      SameButMeaning(t, t', b, c, k);
    }
  }

  lemma RemoveStep(t: Tree, k: Key)
    requires Wf(t) && IsNode(t) && k != []
    ensures ShapeOk(t)
    ensures var i := SlotOf(t, k[0]);
      if i < |t.values| && !t.values[i].Unset? then
        && Wf(t.values[i])
        && var r := Remove(t.values[i], k[1..]);
           Remove(t, k) == Removed(PutBack(t, k[0], r.tree), r.dropped)
      else Remove(t, k) == Removed(t, [])
  {
    WfByChildren(t);
  }

  lemma RemoveSubtreeStep(t: Tree, k: Key)
    requires Wf(t) && IsNode(t) && k != []
    ensures ShapeOk(t)
    ensures var i := SlotOf(t, k[0]);
      if i < |t.values| && !t.values[i].Unset? then
        && Wf(t.values[i])
        && var r := RemoveSubtree(t.values[i], k[1..]);
           RemoveSubtree(t, k) == Removed(PutBack(t, k[0], r.tree), r.dropped)
      else RemoveSubtree(t, k) == Removed(t, [])
  {
    WfByChildren(t);
  }

  /** A removal that finds nothing leaves the tree alone. */
  lemma {:induction false} RemoveNothing(t: Tree, k: Key)
    requires Wf(t) && Remove(t, k).dropped == []
    ensures Remove(t, k).tree == t
    decreases t
  {
    if k == [] || t.Unset? || t.Value? {
    } else if t.ValueChain? {
      RemoveNothing(t.child, k);
    } else if t.PrefixChain? {
      if t.prefix <= k { RemoveNothing(t.child, k[|t.prefix|..]); }
    } else if !Child(t, k[0]).Unset? {
      WfByChildren(t);
      RemoveNothing(Child(t, k[0]), k[1..]);
      assert t.values[SlotOf(t, k[0]) := Child(t, k[0])] == t.values;
    }
  }

  lemma {:induction false} RemoveMeaning(t: Tree, k: Key, k': Key)
    requires Wf(t)
    ensures var r := Remove(t, k);
      && Wf(r.tree)
      && Get(r.tree, k') == (if k' == k then None else Get(t, k'))
      && (k != [] && (t.PrefixChain? || IsNode(t)) ==> r.tree.Unset? || r.tree.PrefixChain? || IsNode(r.tree))
      && r.dropped == match Get(t, k) case Some(v) => [v] case None => []
    decreases t
  {
    if k == [] || t.Unset? || t.Value? {
    } else if t.ValueChain? {
      RemoveMeaning(t.child, k, k');
    } else if t.PrefixChain? {
      var p := t.prefix;
      if p <= k {
        RemoveMeaning(t.child, k[|p|..], if p <= k' then k'[|p|..] else []);
        PrefixSlice(p, k);
        if p <= k' { PrefixSlice(p, k'); }
      }
    } else {
      RemoveBelowNode(t, k, k');
    }
  }

  lemma RemoveBelowNode(t: Tree, k: Key, k': Key)
    requires Wf(t) && IsNode(t) && k != []
    ensures var r := Remove(t, k);
      && Wf(r.tree)
      && Get(r.tree, k') == (if k' == k then None else Get(t, k'))
      && (r.tree.Unset? || IsNode(r.tree))
      && r.dropped == match Get(t, k) case Some(v) => [v] case None => []
    decreases t, 0
  {
    var c := Child(t, k[0]);
    if !c.Unset? {
      WfByChildren(t);
      RemoveMeaning(c, k[1..], if k' == [] then [] else k'[1..]);
      PutBackGet(t, k[0], Remove(c, k[1..]).tree, k');
      if k' != [] && k'[0] == k[0] { assert k' == k <==> k'[1..] == k[1..]; }
    }
  }

  // ------------------------------------------------------------------
  // Entries
  // ------------------------------------------------------------------

  ghost predicate KeysDistinct(es: seq<Entry>) {
    forall i, j :: 0 <= i < j < |es| ==> es[i].key != es[j].key
  }

  lemma PrefixedHas(p: Key, es: seq<Entry>, e: Entry)
    ensures e in Prefixed(p, es) <==> p <= e.key && Entry(e.key[|p|..], e.value) in es
  {
    if p <= e.key && Entry(e.key[|p|..], e.value) in es {
      var i :| 0 <= i < |es| && es[i] == Entry(e.key[|p|..], e.value);
      assert Prefixed(p, es)[i] == e;
    }
    if e in Prefixed(p, es) {
      var i :| 0 <= i < |es| && Prefixed(p, es)[i] == e;
      assert e.key[|p|..] == es[i].key;
    }
  }

  lemma PrefixedDistinct(p: Key, es: seq<Entry>)
    requires KeysDistinct(es)
    ensures KeysDistinct(Prefixed(p, es))
  {
    forall i, j | 0 <= i < j < |es| ensures p + es[i].key != p + es[j].key {
      assert (p + es[i].key)[|p|..] == es[i].key && (p + es[j].key)[|p|..] == es[j].key;
    }
  }

  lemma AppendDistinct(a: seq<Entry>, b: seq<Entry>)
    requires KeysDistinct(a) && KeysDistinct(b)
    requires forall e, f :: e in a && f in b ==> e.key != f.key
    ensures KeysDistinct(a + b)
  {
    forall i, j | 0 <= i < j < |a + b| ensures (a + b)[i].key != (a + b)[j].key {
      if i < |a| <= j { assert a[i] in a && b[j - |a|] in b; }
    }
  }

  lemma ByteOfSlot(t: Tree, i: nat)
    requires IsNode(t) && ShapeOk(t) && i < |t.values| && !t.values[i].Unset?
    ensures forall b: Byte :: SlotOf(t, b) == i <==> b == ByteOf(t, i)
  {
    var b := SlotOwner(t, i);
    match t
    case Node4(keys, _) => FindByteAt(keys, i);
    case Node16(keys, _) => FindByteAt(keys, i);
    case Node48(index, _) => FindByteIs(index, i, b);
    case Node256(_) =>
  }

  /** Entries lists exactly the pairs that Get finds, each key once. */
  lemma {:induction false} EntriesMeaning(t: Tree)
    requires Wf(t)
    ensures forall e :: e in Entries(t) <==> Get(t, e.key) == Some(e.value)
    ensures KeysDistinct(Entries(t))
    decreases t, 0
  {
    if t.ValueChain? {
      EntriesMeaning(t.child);
      var head := [Entry([], t.value)];
      forall e, f | e in head && f in Entries(t.child) ensures e.key != f.key {
        assert Get(t.child, f.key).Some?;
      }
      AppendDistinct(head, Entries(t.child));
    } else if t.PrefixChain? {
      EntriesMeaning(t.child);
      PrefixedDistinct(t.prefix, Entries(t.child));
      forall e: Entry { PrefixedHas(t.prefix, Entries(t.child), e); }
    } else if IsNode(t) {
      WfByChildren(t);
      SlotEntriesMeaning(t, |t.values|);
      forall e: Entry ensures e in Entries(t) <==> Get(t, e.key) == Some(e.value) {
        if e.key != [] && SlotOf(t, e.key[0]) < |t.values| {
          EntriesMeaning(Child(t, e.key[0]));
        }
      }
    }
  }

  ghost predicate InSlot(t: Tree, n: nat, e: Entry)
    requires IsNode(t) && n <= |t.values|
  {
    e.key != [] && SlotOf(t, e.key[0]) < n &&
    Entry(e.key[1..], e.value) in Entries(t.values[SlotOf(t, e.key[0])])
  }

  /** The entries of one slot carry that slot's byte. */
  lemma OneSlot(t: Tree, i: nat, e: Entry)
    requires IsNode(t) && ShapeOk(t) && i < |t.values|
    ensures e in Prefixed([ByteOf(t, i)], Entries(t.values[i])) <==>
      e.key != [] && SlotOf(t, e.key[0]) == i && Entry(e.key[1..], e.value) in Entries(t.values[i])
  {
    PrefixedHas([ByteOf(t, i)], Entries(t.values[i]), e);
    if !t.values[i].Unset? { ByteOfSlot(t, i); }
  }

  lemma SlotAppend(t: Tree, n: nat, init: seq<Entry>, last: seq<Entry>)
    requires IsNode(t) && 0 < n <= |t.values|
    requires forall e :: e in init <==> InSlot(t, n - 1, e)
    requires forall e :: e in last <==>
      e.key != [] && SlotOf(t, e.key[0]) == n - 1 && Entry(e.key[1..], e.value) in Entries(t.values[n - 1])
    requires KeysDistinct(init) && KeysDistinct(last)
    ensures forall e :: e in init + last <==> InSlot(t, n, e)
    ensures KeysDistinct(init + last)
  {
    hide SlotOf, Entries;
    AppendDistinct(init, last);
  }

  lemma {:induction false} SlotEntriesMeaning(t: Tree, n: nat)
    requires Wf(t) && IsNode(t) && n <= |t.values|
    ensures forall e :: e in SlotEntries(t, n) <==> InSlot(t, n, e)
    ensures KeysDistinct(SlotEntries(t, n))
    decreases t, 0, n
  {
    if n > 0 {
      var c, b := t.values[n - 1], ByteOf(t, n - 1);
      var init, last := SlotEntries(t, n - 1), Prefixed([b], Entries(c));
      assert SlotEntries(t, n) == init + last;
      assert Wf(c) && ShapeOk(t) && c < t;
      hide Wf, ShapeOk, Prefixed, SlotOf, ByteOf, Entries, SlotEntries;
      SlotEntriesMeaning(t, n - 1);
      EntriesMeaning(c);
      PrefixedDistinct([b], Entries(c));
      forall e: Entry ensures e in last <==> e.key != [] && SlotOf(t, e.key[0]) == n - 1 && Entry(e.key[1..], e.value) in Entries(c) {
        OneSlot(t, n - 1, e);
      }
      SlotAppend(t, n, init, last);
    }
  }
}
