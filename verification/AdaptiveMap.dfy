// Counting, prefix removal, and the tree as a finite map.
module AdaptiveMap {
  import opened Bytes
  import opened AdaptiveTree
  import opened NodeLemmas
  import opened AdaptiveOps
  import opened AdaptiveProofs
  import opened AdaptiveEntries

  // ------------------------------------------------------------------
  // The map a tree stands for
  // ------------------------------------------------------------------

  function KeysOf(es: seq<Entry>): (r: seq<Key>)
    ensures |r| == |es|
    ensures forall i :: 0 <= i < |es| ==> r[i] == es[i].key
  {
    seq(|es|, i requires 0 <= i < |es| => es[i].key)
  }

  ghost function Keys(t: Tree): set<Key> {
    Elems(KeysOf(Entries(t)))
  }

  lemma KeysMeaning(t: Tree)
    requires Wf(t)
    ensures forall k :: k in Keys(t) <==> Present(t, k)
    ensures |Keys(t)| == |Entries(t)|
  {
    EntriesMeaning(t);
    var es := Entries(t);
    var ks := KeysOf(es);
    forall k ensures k in ks <==> Present(t, k) {
      KeysOfHas(es, k);
      if Present(t, k) { assert Entry(k, Get(t, k).value) in es; }
    }
    assert NoDup(ks);
  }

  lemma KeysOfHas(es: seq<Entry>, k: Key)
    ensures k in KeysOf(es) <==> exists v :: Entry(k, v) in es
  {
    if k in KeysOf(es) {
      var i :| 0 <= i < |es| && KeysOf(es)[i] == k;
      assert Entry(k, es[i].value) in es;
    }
    if v :| Entry(k, v) in es {
      var i :| 0 <= i < |es| && es[i] == Entry(k, v);
      assert KeysOf(es)[i] == k;
    }
  }

  ghost function Content(t: Tree): map<Key, RadixValue>
    requires Wf(t)
  {
    KeysMeaning(t);
    map k | k in Keys(t) :: Get(t, k).value
  }

  function Find(m: map<Key, RadixValue>, k: Key): Option<RadixValue> {
    if k in m then Some(m[k]) else None
  }

  lemma ContentMeaning(t: Tree)
    requires Wf(t)
    ensures forall k :: Find(Content(t), k) == Get(t, k)
    ensures |Content(t)| == |Entries(t)|
  {
    KeysMeaning(t);
    assert Content(t).Keys == Keys(t);
  }

  lemma ContentAt(t: Tree, k: Key)
    requires Wf(t)
    ensures Find(Content(t), k) == Get(t, k)
  {
    ContentMeaning(t);
  }

  lemma SameMap(m: map<Key, RadixValue>, m': map<Key, RadixValue>)
    requires forall k :: Find(m, k) == Find(m', k)
    ensures m == m'
  {
    assert forall k :: k in m <==> Find(m, k).Some?;
    assert forall k :: k in m' <==> Find(m', k).Some?;
  }

  /** A map that finds what the tree finds is the tree's map. */
  lemma ContentIs(t: Tree, m: map<Key, RadixValue>)
    requires Wf(t) && forall k :: Get(t, k) == Find(m, k)
    ensures Content(t) == m && |m| == |Entries(t)|
  {
    ContentMeaning(t);
    hide *;
    SameMap(Content(t), m);
  }

  // ------------------------------------------------------------------
  // Insert and remove, on maps
  // ------------------------------------------------------------------

  ghost predicate Overlapping(m: map<Key, RadixValue>, k: Key) {
    k in m && exists k2 :: k < k2 && k2 in m
  }

  lemma UpdateCount(m: map<Key, RadixValue>, k: Key, v: RadixValue)
    ensures |m[k := v]| == |m| + if k in m then 0 else 1
  {
    assert m[k := v].Keys == m.Keys + {k};
  }

  lemma FindUpdate(m: map<Key, RadixValue>, k: Key, v: RadixValue, k': Key)
    ensures Find(m[k := v], k') == if k' == k then Some(v) else Find(m, k')
  {
    assert k' in m[k := v] <==> k' == k || k' in m;
  }

  lemma DeleteCount(m: map<Key, RadixValue>, k: Key)
    ensures |m - {k}| + (if k in m then 1 else 0) == |m|
  {
    assert (m - {k}).Keys == m.Keys - {k};
  }

  lemma FindDelete(m: map<Key, RadixValue>, k: Key, k': Key)
    ensures Find(m - {k}, k') == if k' == k then None else Find(m, k')
  {
    assert k' in m - {k} <==> k' in m && k' != k;
  }

  lemma OverlapIsExtension(t: Tree, k: Key)
    requires Wf(t)
    ensures Overlapping(Content(t), k) <==> Present(t, k) && HasExtension(t, k)
  {
    ContentMeaning(t);
    forall k' ensures k' in Content(t) <==> Present(t, k') {
      assert Find(Content(t), k') == Get(t, k');
    }
    hide Content, Wf;
    if HasExtension(t, k) {
      var k2 :| k < k2 && Present(t, k2);
      assert k2 in Content(t);
    }
    if Overlapping(Content(t), k) {
      var k2 :| k < k2 && k2 in Content(t);
      assert Present(t, k2);
    }
  }

  /** radix_tree_insert is map update, and counts the entries, exactly when it
      does not overwrite a key that another stored key extends. */
  lemma InsertIsUpdate(t: Tree, k: Key, v: RadixValue)
    requires Wf(t)
    ensures var r := Insert(t, k, v);
      && (Wf(r.tree) <==> !Overlapping(Content(t), k))
      && (Wf(r.tree) ==> Content(r.tree) == Content(t)[k := v]
                         && |Entries(r.tree)| == |Entries(t)| + r.added)
  {
    InsertTheorem(t, k, v);
    OverlapIsExtension(t, k);
    ContentAt(t, k);
    var r, m := Insert(t, k, v), Content(t);
    assert |m| == |Entries(t)| by { ContentMeaning(t); }
    hide Wf, Content, Insert, Get, Entries;
    if Wf(r.tree) {
      forall k' ensures Get(r.tree, k') == Find(m[k := v], k') {
        FindUpdate(m, k, v, k');
        ContentAt(t, k');
      }
      ContentIs(r.tree, m[k := v]);
      UpdateCount(m, k, v);
    }
  }

  lemma RemoveIsDelete(t: Tree, k: Key)
    requires Wf(t)
    ensures var r := Remove(t, k);
      && Wf(r.tree) && Content(r.tree) == Content(t) - {k}
      && r.dropped == (if k in Content(t) then [Content(t)[k]] else [])
      && |Entries(r.tree)| + |r.dropped| == |Entries(t)|
  {
    var r, m := Remove(t, k), Content(t);
    RemoveMeaning(t, k, k);
    ContentAt(t, k);
    assert |m| == |Entries(t)| by { ContentMeaning(t); }
    hide Wf, Content, Remove, Get, Entries;
    forall k' ensures Get(r.tree, k') == Find(m - {k}, k') {
      RemoveMeaning(t, k, k');
      FindDelete(m, k, k');
      ContentAt(t, k');
    }
    ContentIs(r.tree, m - {k});
    DeleteCount(m, k);
  }

  lemma LookupIsSelect(t: Tree, k: Key)
    requires Wf(t)
    ensures Lookup(t, k) == if k in Content(t) then Some(Content(t)[k]) else None
  {
    LookupIsGet(t, k);
    ContentAt(t, k);
  }

  // ------------------------------------------------------------------
  // Removing a prefix
  // ------------------------------------------------------------------

  /** The entries whose key starts with k, in order. */
  function Under(es: seq<Entry>, k: Key): seq<Entry> {
    if es == [] then []
    else Under(es[..|es| - 1], k) + (if k <= es[|es| - 1].key then [es[|es| - 1]] else [])
  }

  lemma {:induction false} UnderAppend(a: seq<Entry>, b: seq<Entry>, k: Key)
    ensures Under(a + b, k) == Under(a, k) + Under(b, k)
  {
    if b == [] {
      assert a + b == a;
    } else {
      assert (a + b)[..|a + b| - 1] == a + b[..|b| - 1];
      UnderAppend(a, b[..|b| - 1], k);
    }
  }

  lemma {:induction false} UnderNone(es: seq<Entry>, k: Key)
    requires forall i :: 0 <= i < |es| ==> !(k <= es[i].key)
    ensures Under(es, k) == []
  {
    if es != [] { UnderNone(es[..|es| - 1], k); }
  }

  lemma {:induction false} UnderAll(es: seq<Entry>, k: Key)
    requires forall i :: 0 <= i < |es| ==> k <= es[i].key
    ensures Under(es, k) == es
  {
    if es != [] {
      UnderAll(es[..|es| - 1], k);
      assert es == es[..|es| - 1] + [es[|es| - 1]];
    }
  }

  lemma PrefixedAppend(p: Key, a: seq<Entry>, b: seq<Entry>)
    ensures Prefixed(p, a + b) == Prefixed(p, a) + Prefixed(p, b)
  {
  }

  /** Filtering under a prefix p that k extends. */
  lemma {:induction false} UnderPrefixed(p: Key, es: seq<Entry>, k: Key)
    requires p <= k
    ensures Under(Prefixed(p, es), k) == Prefixed(p, Under(es, k[|p|..]))
  {
    if es != [] {
      var init, last := es[..|es| - 1], es[|es| - 1];
      UnderPrefixed(p, init, k);
      assert Prefixed(p, es)[..|es| - 1] == Prefixed(p, init);
      PrefixSlice(p, k);
      if p + k[|p|..] <= p + last.key {
        assert (p + last.key)[|p|..|k|] == k[|p|..];
        assert k[|p|..] <= last.key;
      }
      assert k <= p + last.key <==> k[|p|..] <= last.key;
      PrefixedAppend(p, Under(init, k[|p|..]), if k[|p|..] <= last.key then [last] else []);
    }
  }

  lemma {:induction false} UnderMeaning(es: seq<Entry>, k: Key)
    ensures forall e :: e in Under(es, k) <==> e in es && k <= e.key
    ensures KeysDistinct(es) ==> KeysDistinct(Under(es, k))
  {
    if es != [] {
      var init, last := es[..|es| - 1], es[|es| - 1];
      assert es == init + [last];
      UnderMeaning(init, k);
      if KeysDistinct(es) {
        forall e, f | e in Under(init, k) && f in [last] ensures e.key != f.key {
          var i :| 0 <= i < |init| && init[i] == e;
          assert es[i].key != es[|es| - 1].key;
        }
        AppendDistinct(Under(init, k), if k <= last.key then [last] else []);
      }
    }
  }

  /** Below a node only the slot of k's first byte matters. */
  lemma {:induction false} UnderSlots(t: Tree, n: nat, k: Key)
    requires IsNode(t) && ShapeOk(t) && n <= |t.values| && k != []
    ensures Under(SlotEntries(t, n), k) ==
      if SlotOf(t, k[0]) < n then Prefixed([k[0]], Under(Entries(Child(t, k[0])), k[1..])) else []
  {
    if n > 0 {
      var i := n - 1;
      var init, last := SlotEntries(t, i), Prefixed([ByteOf(t, i)], Entries(t.values[i]));
      assert SlotEntries(t, n) == init + last;
      UnderSlots(t, i, k);
      UnderOneSlot(t, i, k);
      UnderAppend(init, last, k);
      hide ShapeOk, Prefixed, ByteOf, Under, Entries, SlotEntries;
      if SlotOf(t, k[0]) == i { assert Child(t, k[0]) == t.values[i]; }
      hide SlotOf, Child;
    }
  }

  lemma UnderOneSlot(t: Tree, i: nat, k: Key)
    requires IsNode(t) && ShapeOk(t) && i < |t.values| && k != []
    ensures Under(Prefixed([ByteOf(t, i)], Entries(t.values[i])), k) ==
      if SlotOf(t, k[0]) == i then Prefixed([k[0]], Under(Entries(t.values[i]), k[1..])) else []
  {
    var es, b := Entries(t.values[i]), ByteOf(t, i);
    if t.values[i].Unset? {
      assert Prefixed([b], es) == [];
    } else {
      ByteOfSlot(t, i);
      hide ShapeOk, Entries, ByteOf, SlotOf;
      if b == k[0] { UnderPrefixed([b], es, k); } else { UnderNone(Prefixed([b], es), k); }
    }
  }

  lemma ValsPrefixed(p: Key, es: seq<Entry>)
    ensures Vals(Prefixed(p, es)) == Vals(es)
  {
  }

  ghost predicate IsPrefixRemoval(t: Tree, k: Key, k': Key, r: Removed) {
    && Wf(r.tree)
    && Get(r.tree, k') == (if k <= k' then None else Get(t, k'))
    && (k != [] && (t.PrefixChain? || IsNode(t)) ==> r.tree.Unset? || r.tree.PrefixChain? || IsNode(r.tree))
    && r.dropped == Vals(Under(Entries(t), k))
  }

  lemma {:induction false} RemoveSubtreeMeaning(t: Tree, k: Key, k': Key)
    requires Wf(t)
    ensures IsPrefixRemoval(t, k, k', RemoveSubtree(t, k))
    decreases t
  {
    if k == [] {
      UnderAll(Entries(t), k);
    } else if t.Unset? || t.Value? {
      UnderNone(Entries(t), k);
    } else if t.ValueChain? {
      PrunedValueChain(t, k, k');
    } else if t.PrefixChain? {
      PrunedChain(t.prefix, t.child, k, k');
    } else {
      PrunedNode(t, k, k');
    }
  }

  lemma PrunedValueChain(t: Tree, k: Key, k': Key)
    requires Wf(t) && t.ValueChain? && k != []
    ensures IsPrefixRemoval(t, k, k', RemoveSubtree(t, k))
    decreases t, 0
  {
    RemoveSubtreeMeaning(t.child, k, k');
    UnderNone([Entry([], t.value)], k);
    UnderAppend([Entry([], t.value)], Entries(t.child), k);
  }

  lemma PrunedChain(p: seq<Byte>, c: Tree, k: Key, k': Key)
    requires Wf(PrefixChain(p, c)) && k != []
    ensures IsPrefixRemoval(PrefixChain(p, c), k, k', RemoveSubtree(PrefixChain(p, c), k))
    decreases PrefixChain(p, c), 1
  {
    var i := CommonLen(p, k);
    if i < |p| && i < |k| {
      UnderNone(Prefixed(p, Entries(c)), k);
    } else if |k| < |p| {
      PrunedInsideChain(p, c, k, k');
    } else {
      assert p <= k;
      PrunedBelowChain(p, c, k, k');
    }
  }

  lemma UnderInside(p: Key, es: seq<Entry>, k: Key)
    requires k <= p
    ensures Vals(Under(Prefixed(p, es), k)) == Vals(es)
  {
    UnderAll(Prefixed(p, es), k);
    ValsPrefixed(p, es);
  }

  lemma UnderBelow(p: Key, es: seq<Entry>, k: Key)
    requires p <= k
    ensures Vals(Under(Prefixed(p, es), k)) == Vals(Under(es, k[|p|..]))
  {
    UnderPrefixed(p, es, k);
    ValsPrefixed(p, Under(es, k[|p|..]));
  }

  /** The prefix ends inside the chain: everything below goes. */
  lemma PrunedInsideChain(p: seq<Byte>, c: Tree, k: Key, k': Key)
    requires Wf(PrefixChain(p, c)) && k != [] && k < p
    ensures IsPrefixRemoval(PrefixChain(p, c), k, k', RemoveSubtree(PrefixChain(p, c), k))
  {
    var t, es := PrefixChain(p, c), Entries(c);
    assert RemoveSubtree(t, k) == Removed(Unset, Vals(es));
    assert Entries(t) == Prefixed(p, es);
    assert !(k <= k') ==> Get(t, k') == None;
    UnderInside(p, es, k);
    hide Entries, RemoveSubtree, Under, Prefixed, Vals, Wf;
    assert Get(Unset, k') == None && Wf(Unset) by { UnsetFacts(k'); }
    hide Get;
  }

  lemma UnsetFacts(k: Key)
    ensures Get(Unset, k) == None && Wf(Unset)
  {
  }

  lemma PrunedBelowChain(p: seq<Byte>, c: Tree, k: Key, k': Key)
    requires Wf(PrefixChain(p, c)) && k != [] && p <= k
    ensures IsPrefixRemoval(PrefixChain(p, c), k, k', RemoveSubtree(PrefixChain(p, c), k))
    decreases PrefixChain(p, c), 0
  {
    var t, es := PrefixChain(p, c), Entries(c);
    var r := RemoveSubtree(c, k[|p|..]);
    RemoveSubtreeMeaning(c, k[|p|..], if p <= k' then k'[|p|..] else []);
    assert RemoveSubtree(t, k) == Removed(PutBackChain(p, r.tree), r.dropped);
    assert Entries(t) == Prefixed(p, es);
    UnderBelow(p, es, k);
    hide Entries, RemoveSubtree, Under, Prefixed, Vals;
    if p <= k' {
      PrefixSlice(p, k);
      PrefixSlice(p, k');
      assert k <= k' <==> k[|p|..] <= k'[|p|..];
    }
  }

  lemma PrunedNode(t: Tree, k: Key, k': Key)
    requires Wf(t) && IsNode(t) && k != []
    ensures IsPrefixRemoval(t, k, k', RemoveSubtree(t, k))
    decreases t, 0
  {
    var c := Child(t, k[0]);
    assert Under(Entries(t), k) == if c.Unset? then [] else Prefixed([k[0]], Under(Entries(c), k[1..])) by {
      UnderSlots(t, |t.values|, k);
    }
    WfByChildren(t);
    hide ShapeOk, PutBack, Entries, SlotOf, Prefixed, Under;
    if !c.Unset? {
      var r := RemoveSubtree(c, k[1..]);
      RemoveSubtreeMeaning(c, k[1..], if k' == [] then [] else k'[1..]);
      assert RemoveSubtree(t, k) == Removed(PutBack(t, k[0], r.tree), r.dropped);
      hide RemoveSubtree;
      PutBackGet(t, k[0], r.tree, k');
      ValsPrefixed([k[0]], Under(Entries(c), k[1..]));
      hide Child, Wf, Vals;
      if k' != [] && k'[0] == k[0] { assert k <= k' <==> k[1..] <= k'[1..]; }
    }
  }

  ghost function Prune(m: map<Key, RadixValue>, k: Key): map<Key, RadixValue> {
    map k' | k' in m && !(k <= k') :: m[k']
  }

  ghost function KeysUnder(m: map<Key, RadixValue>, k: Key): set<Key> {
    set k' | k' in m && k <= k'
  }

  lemma PruneCount(m: map<Key, RadixValue>, k: Key)
    ensures |Prune(m, k)| + |KeysUnder(m, k)| == |m|
  {
    assert m.Keys == Prune(m, k).Keys + KeysUnder(m, k);
  }

  lemma FindPrune(m: map<Key, RadixValue>, k: Key, k': Key)
    ensures Find(Prune(m, k), k') == if k <= k' then None else Find(m, k')
  {
  }

  lemma UnderHas(t: Tree, k: Key, k': Key)
    requires Wf(t)
    ensures k' in KeysOf(Under(Entries(t), k)) <==> k' in KeysUnder(Content(t), k)
  {
    EntriesMeaning(t);
    ContentAt(t, k');
    UnderMeaning(Entries(t), k);
    KeysOfHas(Under(Entries(t), k), k');
    var m := Content(t);
    hide Wf, Content, Entries, Under;
    if k' in m && k <= k' {
      assert Entry(k', m[k']) in Entries(t);
    }
  }

  lemma UnderCount(t: Tree, k: Key)
    requires Wf(t)
    ensures |Under(Entries(t), k)| == |KeysUnder(Content(t), k)|
  {
    var under := KeysOf(Under(Entries(t), k));
    assert NoDup(under) by {
      EntriesMeaning(t);
      UnderMeaning(Entries(t), k);
    }
    hide Wf, Content, Entries, Under;
    forall k' ensures k' in under <==> k' in KeysUnder(Content(t), k) {
      UnderHas(t, k, k');
    }
    assert Elems(under) == KeysUnder(Content(t), k);
  }

  /** radix_tree_remove_prefix deletes exactly the keys with the prefix, and
      gives each of their values to the destructor once. */
  lemma RemoveSubtreeIsDelete(t: Tree, k: Key)
    requires Wf(t)
    ensures var r := RemoveSubtree(t, k);
      && Wf(r.tree)
      && Content(r.tree) == Prune(Content(t), k)
      && r.dropped == Vals(Under(Entries(t), k))
      && |Entries(r.tree)| + |r.dropped| == |Entries(t)|
      && |r.dropped| == |KeysUnder(Content(t), k)|
  {
    var r, m := RemoveSubtree(t, k), Content(t);
    RemoveSubtreeMeaning(t, k, k);
    UnderCount(t, k);
    assert |m| == |Entries(t)| by { ContentMeaning(t); }
    hide Wf, Content, RemoveSubtree, Get, Entries, Prune, KeysUnder;
    forall k' ensures Get(r.tree, k') == Find(Prune(m, k), k') {
      RemoveSubtreeMeaning(t, k, k');
      FindPrune(m, k, k');
      ContentAt(t, k');
    }
    ContentIs(r.tree, Prune(m, k));
    PruneCount(m, k);
  }

  // ------------------------------------------------------------------
  // Iterating over a prefix
  // ------------------------------------------------------------------

  /** The subtree radix_tree_iterate walks: where the lookup stopped, if the key
      was used up there or ends inside a chain that matches it. */
  function IterateRoot(t: Tree, k: Key): Tree {
    var r := LookupPrefix(t, k);
    if r.rest == [] || (r.tree.PrefixChain? && r.rest < r.tree.prefix) then r.tree else Unset
  }

  lemma {:induction false} IterateIsUnder(t: Tree, k: Key)
    requires Wf(t)
    ensures Vals(Entries(IterateRoot(t, k))) == Vals(Under(Entries(t), k))
    decreases t
  {
    if k == [] {
      UnderAll(Entries(t), k);
    } else if t.Unset? || t.Value? {
      UnderNone(Entries(t), k);
    } else if t.ValueChain? {
      IterateIsUnder(t.child, k);
      UnderNone([Entry([], t.value)], k);
      UnderAppend([Entry([], t.value)], Entries(t.child), k);
    } else if t.PrefixChain? {
      IterateChain(t, k);
    } else {
      IterateNode(t, k);
    }
  }

  lemma IterateChain(t: Tree, k: Key)
    requires t.PrefixChain? && Wf(t) && k != []
    ensures Vals(Entries(IterateRoot(t, k))) == Vals(Under(Entries(t), k))
    decreases t, 0
  {
    var p, es := t.prefix, Entries(t.child);
    if p <= k {
      IterateIsUnder(t.child, k[|p|..]);
      UnderPrefixed(p, es, k);
      ValsPrefixed(p, Under(es, k[|p|..]));
    } else if k < p {
      UnderAll(Prefixed(p, es), k);
    } else {
      UnderNone(Prefixed(p, es), k);
    }
  }

  lemma IterateNode(t: Tree, k: Key)
    requires IsNode(t) && Wf(t) && k != []
    ensures Vals(Entries(IterateRoot(t, k))) == Vals(Under(Entries(t), k))
    decreases t, 0
  {
    var c := Child(t, k[0]);
    WfByChildren(t);
    assert Under(Entries(t), k) == if c.Unset? then [] else Prefixed([k[0]], Under(Entries(c), k[1..])) by {
      UnderSlots(t, |t.values|, k);
    }
    assert IterateRoot(t, k) == if c.Unset? then IterateRoot(t, k) else IterateRoot(c, k[1..]);
    hide ShapeOk, SlotOf, Prefixed, Under;
    if c.Unset? {
      assert LookupPrefix(t, k) == LookupResult(t, k);
    } else {
      hide Entries, IterateRoot;
      IterateIsUnder(c, k[1..]);
      ValsPrefixed([k[0]], Under(Entries(c), k[1..]));
    }
  }

  /** The entries a prefix selects: each stored pair below it once. */
  lemma UnderExact(t: Tree, k: Key)
    requires Wf(t)
    ensures var es := Under(Entries(t), k);
      && KeysDistinct(es)
      && forall e :: e in es <==> k <= e.key && Find(Content(t), e.key) == Some(e.value)
  {
    EntriesMeaning(t);
    UnderMeaning(Entries(t), k);
    var es := Under(Entries(t), k);
    hide Wf, Content, Entries, Under;
    forall e: Entry ensures e in es <==> k <= e.key && Find(Content(t), e.key) == Some(e.value) {
      ContentAt(t, e.key);
    }
  }
}
