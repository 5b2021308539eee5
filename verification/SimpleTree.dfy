// The nested binary trees of base/data-struct/radix-tree-simple.c, as values.
module SimpleTree {
  import opened Bytes
  import opened AdaptiveTree
  import opened AdaptiveOps
  import opened AdaptiveEntries
  import opened AdaptiveMap

  datatype STree = Nil | Node(left: STree, right: STree, key: Byte, center: STree, value: Option<RadixValue>)

  function SGet(t: STree, k: Key): Option<RadixValue>
    decreases |k|, t
  {
    if t.Nil? then None
    else if k == [] then t.value
    else if k[0] < t.key then SGet(t.left, k)
    else if k[0] > t.key then SGet(t.right, k)
    else SGet(t.center, k[1..])
  }

  // A node made for an exhausted key takes whatever byte lies past the key's
  // end; junk stands for that byte.
  function NewNode(k: Key, junk: Byte): (n: STree)
    ensures n.Node?
  {
    Node(Nil, Nil, if k == [] then junk else k[0], Nil, None)
  }

  function SInsert(t: STree, k: Key, v: RadixValue, junk: Byte): (r: STree)
    ensures r.Node?
    decreases |k|, t
  {
    var n := if t.Nil? then NewNode(k, junk) else t;
    if k == [] then n.(value := Some(v))
    else if k[0] < n.key then n.(left := SInsert(n.left, k, v, junk))
    else if k[0] > n.key then n.(right := SInsert(n.right, k, v, junk))
    else n.(center := SInsert(n.center, k[1..], v, junk))
  }

  datatype SRemoved = SRemoved(tree: STree, dropped: seq<RadixValue>)

  function SRemove(t: STree, k: Key): SRemoved
    decreases |k|, t
  {
    if t.Nil? then SRemoved(t, [])
    else if k == [] then
      match t.value
      case None => SRemoved(t, [])
      case Some(v) =>
        SRemoved(if t.left.Nil? && t.center.Nil? && t.right.Nil? then Nil else t.(value := None), [v])
    else if k[0] < t.key then
      var r := SRemove(t.left, k);
      SRemoved(t.(left := r.tree), r.dropped)
    else if k[0] > t.key then
      var r := SRemove(t.right, k);
      SRemoved(t.(right := r.tree), r.dropped)
    else
      var r := SRemove(t.center, k[1..]);
      SRemoved(t.(center := r.tree), r.dropped)
  }

  /** The entries in the order _destroy_tree meets them. */
  function SEntries(t: STree): seq<Entry> {
    if t.Nil? then []
    else SEntries(t.left) + SEntries(t.right) + Prefixed([t.key], SEntries(t.center))
         + match t.value case Some(v) => [Entry([], v)] case None => []
  }

  function SRemovePrefix(t: STree, k: Key): SRemoved
    decreases |k|, t
  {
    if t.Nil? then SRemoved(t, [])
    else if k == [] then SRemoved(Nil, Vals(SEntries(t)))
    else if k[0] < t.key then
      var r := SRemovePrefix(t.left, k);
      SRemoved(t.(left := r.tree), r.dropped)
    else if k[0] > t.key then
      var r := SRemovePrefix(t.right, k);
      SRemoved(t.(right := r.tree), r.dropped)
    else
      var r := SRemovePrefix(t.center, k[1..]);
      SRemoved(t.(center := r.tree), r.dropped)
  }

  // ------------------------------------------------------------------
  // Well-formedness: every level is a binary search tree on bytes, and only
  // its root may hold a value.
  // ------------------------------------------------------------------

  ghost predicate SWf(t: STree) {
    t.Node? ==> Spine(t.left, 0, t.key) && Spine(t.right, t.key + 1, 256) && SWf(t.center)
  }

  ghost predicate Spine(t: STree, lo: int, hi: int) {
    t.Node? ==> lo <= t.key < hi && t.value.None? && Spine(t.left, lo, t.key) && Spine(t.right, t.key + 1, hi) && SWf(t.center)
  }

  lemma {:induction false} SInsertMeaning(t: STree, k: Key, v: RadixValue, junk: Byte, k': Key)
    ensures SGet(SInsert(t, k, v, junk), k') == if k' == k then Some(v) else SGet(t, k')
    decreases |k|, t
  {
    var n := if t.Nil? then NewNode(k, junk) else t;
    assert SGet(n, k') == SGet(t, k');
    if k != [] {
      if k[0] < n.key {
        SInsertMeaning(n.left, k, v, junk, k');
      } else if k[0] > n.key {
        SInsertMeaning(n.right, k, v, junk, k');
      } else {
        SInsertMeaning(n.center, k[1..], v, junk, if k' == [] then [] else k'[1..]);
        if k' != [] && k'[0] == k[0] { assert k' == k <==> k'[1..] == k[1..]; }
      }
    }
  }

  // ------------------------------------------------------------------
  // The shape is kept
  // ------------------------------------------------------------------

  lemma {:induction false} SInsertWf(t: STree, k: Key, v: RadixValue, junk: Byte)
    requires SWf(t)
    ensures SWf(SInsert(t, k, v, junk))
    decreases |k|, t
  {
    var n := if t.Nil? then NewNode(k, junk) else t;
    if k != [] {
      if k[0] < n.key {
        SInsertSpine(n.left, 0, n.key, k, v, junk);
      } else if k[0] > n.key {
        SInsertSpine(n.right, n.key + 1, 256, k, v, junk);
      } else {
        SInsertWf(n.center, k[1..], v, junk);
      }
    }
  }

  lemma {:induction false} SInsertSpine(t: STree, lo: int, hi: int, k: Key, v: RadixValue, junk: Byte)
    requires Spine(t, lo, hi) && k != [] && lo <= k[0] < hi
    ensures Spine(SInsert(t, k, v, junk), lo, hi)
    decreases |k|, t
  {
    var n := if t.Nil? then NewNode(k, junk) else t;
    if k[0] < n.key {
      SInsertSpine(n.left, lo, n.key, k, v, junk);
    } else if k[0] > n.key {
      SInsertSpine(n.right, n.key + 1, hi, k, v, junk);
    } else {
      SInsertWf(n.center, k[1..], v, junk);
    }
  }

  lemma {:induction false} SRemoveMeaning(t: STree, k: Key, k': Key)
    ensures var r := SRemove(t, k);
      && SGet(r.tree, k') == (if k' == k then None else SGet(t, k'))
      && r.dropped == match SGet(t, k) case Some(v) => [v] case None => []
    decreases |k|, t
  {
    if t.Node? && k != [] {
      if k[0] < t.key {
        SRemoveMeaning(t.left, k, k');
      } else if k[0] > t.key {
        SRemoveMeaning(t.right, k, k');
      } else {
        SRemoveMeaning(t.center, k[1..], if k' == [] then [] else k'[1..]);
        if k' != [] && k'[0] == k[0] { assert k' == k <==> k'[1..] == k[1..]; }
      }
    }
  }

  lemma {:induction false} SRemoveWf(t: STree, k: Key)
    ensures SWf(t) ==> SWf(SRemove(t, k).tree) && SWf(SRemovePrefix(t, k).tree)
    ensures forall lo, hi :: Spine(t, lo, hi) && k != [] ==>
      Spine(SRemove(t, k).tree, lo, hi) && Spine(SRemovePrefix(t, k).tree, lo, hi)
    decreases |k|, t
  {
    if t.Node? && k != [] {
      if k[0] < t.key {
        SRemoveWf(t.left, k);
      } else if k[0] > t.key {
        SRemoveWf(t.right, k);
      } else {
        SRemoveWf(t.center, k[1..]);
      }
    }
  }

  // ------------------------------------------------------------------
  // Entries
  // ------------------------------------------------------------------

  ghost predicate Lists(es: seq<Entry>, t: STree) {
    KeysDistinct(es) && forall e :: e in es <==> SGet(t, e.key) == Some(e.value)
  }

  ghost predicate ListsSpine(es: seq<Entry>, t: STree, lo: int, hi: int) {
    KeysDistinct(es) && forall e :: e in es <==> e.key != [] && lo <= e.key[0] < hi && SGet(t, e.key) == Some(e.value)
  }

  lemma CenterEntries(key: Byte, c: STree, es: seq<Entry>, e: Entry)
    requires Lists(es, c)
    ensures e in Prefixed([key], es) <==> e.key != [] && e.key[0] == key && SGet(c, e.key[1..]) == Some(e.value)
  {
    PrefixedHas([key], es, e);
    if e.key != [] {
      assert [key] <= e.key <==> e.key[0] == key;
      assert Entry(e.key[1..], e.value) in es <==> SGet(c, e.key[1..]) == Some(e.value);
    }
  }

  /** The entries of the three subtrees of a node, side by side. */
  lemma JoinEntries(t: STree, l: seq<Entry>, r: seq<Entry>, c: seq<Entry>, lo: int, hi: int)
    requires t.Node? && lo <= t.key < hi
    requires ListsSpine(l, t.left, lo, t.key) && ListsSpine(r, t.right, t.key + 1, hi) && Lists(c, t.center)
    ensures KeysDistinct(l + r + Prefixed([t.key], c))
    ensures forall e :: e in l + r + Prefixed([t.key], c) <==>
      e.key != [] && lo <= e.key[0] < hi && SGet(t, e.key) == Some(e.value)
  {
    var pc := Prefixed([t.key], c);
    PrefixedDistinct([t.key], c);
    forall e: Entry ensures e in pc <==> e.key != [] && e.key[0] == t.key && SGet(t.center, e.key[1..]) == Some(e.value) {
      CenterEntries(t.key, t.center, c, e);
    }
    hide Prefixed, KeysDistinct;
    AppendDistinct(l, r);
    AppendDistinct(l + r, pc);
  }

  lemma {:induction false} SEntriesMeaning(t: STree)
    requires SWf(t)
    ensures Lists(SEntries(t), t)
    decreases t, 1
  {
    if t.Node? {
      SpineEntries(t.left, 0, t.key);
      SpineEntries(t.right, t.key + 1, 256);
      SEntriesMeaning(t.center);
      JoinEntries(t, SEntries(t.left), SEntries(t.right), SEntries(t.center), 0, 256);
      var body := SEntries(t.left) + SEntries(t.right) + Prefixed([t.key], SEntries(t.center));
      var own := match t.value case Some(v) => [Entry([], v)] case None => [];
      AppendDistinct(body, own);
      assert SEntries(t) == body + own;
    }
  }

  lemma {:induction false} SpineEntries(t: STree, lo: int, hi: int)
    requires Spine(t, lo, hi)
    ensures ListsSpine(SEntries(t), t, lo, hi)
    decreases t, 1
  {
    if t.Node? {
      SpineEntries(t.left, lo, t.key);
      SpineEntries(t.right, t.key + 1, hi);
      SEntriesMeaning(t.center);
      JoinEntries(t, SEntries(t.left), SEntries(t.right), SEntries(t.center), lo, hi);
      var body := SEntries(t.left) + SEntries(t.right) + Prefixed([t.key], SEntries(t.center));
      assert SEntries(t) == body + [] == body;
    }
  }

  // ------------------------------------------------------------------
  // Removing a prefix
  // ------------------------------------------------------------------

  lemma {:induction false} SRemovePrefixGet(t: STree, k: Key, k': Key)
    ensures SGet(SRemovePrefix(t, k).tree, k') == if k <= k' then None else SGet(t, k')
    decreases |k|, t
  {
    if t.Node? && k != [] {
      if k[0] < t.key {
        SRemovePrefixGet(t.left, k, k');
      } else if k[0] > t.key {
        SRemovePrefixGet(t.right, k, k');
      } else {
        SRemovePrefixGet(t.center, k[1..], if k' == [] then [] else k'[1..]);
        if k' != [] && k'[0] == k[0] { assert k <= k' <==> k[1..] <= k'[1..]; }
      }
    }
  }

  /** Entries outside the slot range of k's first byte are not below k. */
  lemma OutsideRange(es: seq<Entry>, t: STree, lo: int, hi: int, k: Key)
    requires ListsSpine(es, t, lo, hi) && k != [] && !(lo <= k[0] < hi)
    ensures Under(es, k) == []
  {
    forall i | 0 <= i < |es| ensures !(k <= es[i].key) { assert es[i] in es; }
    UnderNone(es, k);
  }

  lemma CenterUnder(key: Byte, es: seq<Entry>, k: Key)
    requires k != []
    ensures Under(Prefixed([key], es), k) == if k[0] == key then Prefixed([key], Under(es, k[1..])) else []
  {
    if k[0] == key { UnderPrefixed([key], es, k); } else { UnderNone(Prefixed([key], es), k); }
  }

  lemma JoinUnder(l: seq<Entry>, r: seq<Entry>, c: seq<Entry>, own: seq<Entry>, k: Key)
    requires k != [] && (own == [] || (|own| == 1 && own[0].key == []))
    ensures Under(l + r + c + own, k) == Under(l, k) + Under(r, k) + Under(c, k)
  {
    UnderAppend(l, r, k);
    UnderAppend(l + r, c, k);
    UnderAppend(l + r + c, own, k);
    UnderNone(own, k);
  }

  /** The values dropped are those below k, in the order of the entries. */
  lemma {:induction false} SRemovePrefixDropped(t: STree, k: Key)
    requires SWf(t)
    ensures SRemovePrefix(t, k).dropped == Vals(Under(SEntries(t), k))
    decreases |k|, t, 1
  {
    if k == [] {
      UnderAll(SEntries(t), k);
    } else if t.Node? {
      DroppedBelow(t, 0, 256, k);
    }
  }

  lemma {:induction false} SpineDropped(t: STree, lo: int, hi: int, k: Key)
    requires Spine(t, lo, hi) && k != []
    ensures SRemovePrefix(t, k).dropped == Vals(Under(SEntries(t), k))
    decreases |k|, t, 1
  {
    if t.Node? { DroppedBelow(t, lo, hi, k); }
  }

  lemma DroppedBelow(t: STree, lo: int, hi: int, k: Key)
    requires t.Node? && k != []
    requires Spine(t.left, lo, t.key) && Spine(t.right, t.key + 1, hi) && SWf(t.center)
    ensures SRemovePrefix(t, k).dropped == Vals(Under(SEntries(t), k))
    decreases |k|, t, 0
  {
    var l, r, c := SEntries(t.left), SEntries(t.right), SEntries(t.center);
    var own := match t.value case Some(v) => [Entry([], v)] case None => [];
    assert SEntries(t) == l + r + Prefixed([t.key], c) + own;
    JoinUnder(l, r, Prefixed([t.key], c), own, k);
    CenterUnder(t.key, c, k);
    SpineEntries(t.left, lo, t.key);
    SpineEntries(t.right, t.key + 1, hi);
    hide Under, Prefixed, SEntries, Spine, SWf, ListsSpine;
    if k[0] >= t.key { OutsideRange(l, t.left, lo, t.key, k); }
    if k[0] <= t.key { OutsideRange(r, t.right, t.key + 1, hi, k); }
    if k[0] < t.key {
      SpineDropped(t.left, lo, t.key, k);
      assert Under(SEntries(t), k) == Under(l, k) + [] + [] == Under(l, k);
    } else if k[0] > t.key {
      SpineDropped(t.right, t.key + 1, hi, k);
      assert Under(SEntries(t), k) == [] + Under(r, k) + [] == Under(r, k);
    } else {
      SRemovePrefixDropped(t.center, k[1..]);
      ValsPrefixed([t.key], Under(c, k[1..]));
      assert Under(SEntries(t), k) == [] + [] + Prefixed([t.key], Under(c, k[1..])) == Prefixed([t.key], Under(c, k[1..]));
    }
  }

  // ------------------------------------------------------------------
  // The map a simple tree stands for
  // ------------------------------------------------------------------

  /** The map that a duplicate-free list of entries spells out. */
  ghost function MapOf(es: seq<Entry>): (m: map<Key, RadixValue>)
    ensures m.Keys == Elems(KeysOf(es))
  {
    if es == [] then map[]
    else
      var init, last := es[..|es| - 1], es[|es| - 1];
      assert KeysOf(es) == KeysOf(init) + [last.key];
      MapOf(init)[last.key := last.value]
  }

  lemma {:induction false} MapOfFind(es: seq<Entry>, k: Key)
    requires KeysDistinct(es)
    ensures match Find(MapOf(es), k)
      case Some(v) => Entry(k, v) in es
      case None => forall v :: Entry(k, v) !in es
    ensures |MapOf(es)| == |es|
  {
    if es != [] {
      var init, last := es[..|es| - 1], es[|es| - 1];
      assert es == init + [last];
      MapOfFind(init, k);
      MapOfFind(init, last.key);
      UpdateCount(MapOf(init), last.key, last.value);
      assert MapOf(es) == MapOf(init)[last.key := last.value];
    }
  }

  ghost function SContent(t: STree): map<Key, RadixValue> {
    MapOf(SEntries(t))
  }

  lemma SContentAt(t: STree, k: Key)
    requires SWf(t)
    ensures Find(SContent(t), k) == SGet(t, k) && |SContent(t)| == |SEntries(t)|
  {
    SEntriesMeaning(t);
    MapOfFind(SEntries(t), k);
    if SGet(t, k).Some? { assert Entry(k, SGet(t, k).value) in SEntries(t); }
  }

  lemma SContentIs(t: STree, m: map<Key, RadixValue>)
    requires SWf(t) && forall k :: SGet(t, k) == Find(m, k)
    ensures SContent(t) == m && |m| == |SEntries(t)|
  {
    SContentAt(t, []);
    forall k ensures Find(SContent(t), k) == Find(m, k) { SContentAt(t, k); }
    SameMap(SContent(t), m);
  }

  lemma SInsertIsUpdate(t: STree, k: Key, v: RadixValue, junk: Byte)
    requires SWf(t)
    ensures var r := SInsert(t, k, v, junk);
      SWf(r) && SContent(r) == SContent(t)[k := v]
  {
    var r, m := SInsert(t, k, v, junk), SContent(t);
    SInsertWf(t, k, v, junk);
    forall k' ensures SGet(r, k') == Find(m[k := v], k') {
      SInsertMeaning(t, k, v, junk, k');
      SContentAt(t, k');
      FindUpdate(m, k, v, k');
    }
    SContentIs(r, m[k := v]);
  }

  lemma SRemoveIsDelete(t: STree, k: Key)
    requires SWf(t)
    ensures var r := SRemove(t, k);
      && SWf(r.tree) && SContent(r.tree) == SContent(t) - {k}
      && r.dropped == if k in SContent(t) then [SContent(t)[k]] else []
  {
    var r, m := SRemove(t, k), SContent(t);
    SRemoveWf(t, k);
    SRemoveMeaning(t, k, k);
    SContentAt(t, k);
    forall k' ensures SGet(r.tree, k') == Find(m - {k}, k') {
      SRemoveMeaning(t, k, k');
      SContentAt(t, k');
      FindDelete(m, k, k');
    }
    SContentIs(r.tree, m - {k});
  }

  lemma SRemovePrefixIsDelete(t: STree, k: Key)
    requires SWf(t)
    ensures var r := SRemovePrefix(t, k);
      && SWf(r.tree) && SContent(r.tree) == Prune(SContent(t), k)
      && r.dropped == Vals(Under(SEntries(t), k))
      && |r.dropped| == |KeysUnder(SContent(t), k)|
  {
    var r, m := SRemovePrefix(t, k), SContent(t);
    SRemoveWf(t, k);
    SRemovePrefixDropped(t, k);
    forall k' ensures SGet(r.tree, k') == Find(Prune(m, k), k') {
      SRemovePrefixGet(t, k, k');
      SContentAt(t, k');
      FindPrune(m, k, k');
    }
    SContentIs(r.tree, Prune(m, k));
    SUnderCount(t, k);
  }

  lemma SUnderCount(t: STree, k: Key)
    requires SWf(t)
    ensures |Under(SEntries(t), k)| == |KeysUnder(SContent(t), k)|
  {
    var under := KeysOf(Under(SEntries(t), k));
    SEntriesMeaning(t);
    UnderMeaning(SEntries(t), k);
    assert NoDup(under);
    hide SWf, SEntries, Under;
    forall k' ensures k' in under <==> k' in KeysUnder(SContent(t), k) {
      KeysOfHas(Under(SEntries(t), k), k');
      SContentAt(t, k');
      if k' in SContent(t) { assert Entry(k', SContent(t)[k']) in SEntries(t); }
    }
    assert Elems(under) == KeysUnder(SContent(t), k);
  }

  /** The entries a prefix selects: each stored pair below it once. */
  lemma SUnderExact(t: STree, k: Key)
    requires SWf(t)
    ensures var es := Under(SEntries(t), k);
      && KeysDistinct(es)
      && forall e :: e in es <==> k <= e.key && Find(SContent(t), e.key) == Some(e.value)
  {
    SEntriesMeaning(t);
    UnderMeaning(SEntries(t), k);
    var es := Under(SEntries(t), k);
    hide SWf, SContent, SEntries, Under;
    forall e: Entry ensures e in es <==> k <= e.key && Find(SContent(t), e.key) == Some(e.value) {
      SContentAt(t, e.key);
    }
  }
}
