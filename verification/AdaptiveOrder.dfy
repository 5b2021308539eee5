// The order in which the adaptive tree is iterated.
module AdaptiveOrder {
  import opened AdaptiveEntries
  import opened AdaptiveMap
  import opened AdaptiveOps
  import opened AdaptiveProofs
  import opened AdaptiveTree
  import opened Bytes
  import opened NodeLemmas

  // ------------------------------------------------------------------
  // Lexicographic order
  // ------------------------------------------------------------------

  predicate Before(k: Key, l: Key) {
    l != [] && (k == [] || k[0] < l[0] || (k[0] == l[0] && Before(k[1..], l[1..])))
  }

  lemma {:induction false} BeforePrefixed(p: Key, k: Key, l: Key)
    ensures Before(p + k, p + l) <==> Before(k, l)
  {
    if p == [] {
      assert p + k == k && p + l == l;
    } else {
      BeforePrefixed(p[1..], k, l);
      assert (p + k)[1..] == p[1..] + k && (p + l)[1..] == p[1..] + l;
    }
  }

  ghost predicate Sorted(es: seq<Entry>) {
    forall i, j :: 0 <= i < j < |es| ==> Before(es[i].key, es[j].key)
  }

  lemma SortedPrefixed(p: Key, es: seq<Entry>)
    ensures Sorted(Prefixed(p, es)) <==> Sorted(es)
  {
    var ps := Prefixed(p, es);
    forall i, j | 0 <= i < j < |es| ensures Before(ps[i].key, ps[j].key) <==> Before(es[i].key, es[j].key) {
      BeforePrefixed(p, es[i].key, es[j].key);
    }
  }

  // Every entry of a is before every entry of b.
  ghost predicate AllBefore(a: seq<Entry>, b: seq<Entry>) {
    forall e, f :: e in a && f in b ==> Before(e.key, f.key)
  }

  lemma SortedAppend(a: seq<Entry>, b: seq<Entry>)
    ensures Sorted(a + b) <==> Sorted(a) && Sorted(b) && AllBefore(a, b)
  {
    var c := a + b;
    if Sorted(c) {
      forall i, j | 0 <= i < j < |a| ensures Before(a[i].key, a[j].key) {
        assert c[i] == a[i] && c[j] == a[j];
      }
      forall i, j | 0 <= i < j < |b| ensures Before(b[i].key, b[j].key) {
        assert c[|a| + i] == b[i] && c[|a| + j] == b[j];
      }
      forall e, f | e in a && f in b ensures Before(e.key, f.key) {
        var i: nat :| i < |a| && a[i] == e;
        var j: nat :| j < |b| && b[j] == f;
        assert c[i] == e && c[|a| + j] == f;
      }
    } else {
      assert exists i, j :: 0 <= i < j < |c| && !Before(c[i].key, c[j].key);
    }
  }

  // ------------------------------------------------------------------
  // The trees that are iterated in order
  // ------------------------------------------------------------------

  ghost predicate InUse(t: Tree, i: nat)
    requires IsNode(t) && i < |t.values|
  {
    !t.values[i].Unset?
  }

  /** The bytes of the first n slots ascend, as far as the slots are in use. */
  ghost predicate InByteOrder(t: Tree, n: nat)
    requires IsNode(t) && n <= |t.values|
  {
    forall i: nat, j: nat :: i < j < n && InUse(t, i) && InUse(t, j) ==> ByteOf(t, i) < ByteOf(t, j)
  }

  /** So do the slots of every node. */
  ghost predicate Ascending(t: Tree)
    decreases t
  {
    match t
    case Unset => true
    case Value(_) => true
    case ValueChain(_, c) => Ascending(c)
    case PrefixChain(_, c) => Ascending(c)
    case _ => InByteOrder(t, |t.values|) && forall i :: 0 <= i < |t.values| ==> Ascending(t.values[i])
  }

  // A slot in use has an entry.
  lemma {:induction false} SomeEntry(t: Tree)
    requires Wf(t) && !t.Unset?
    ensures Entries(t) != []
    decreases t
  {
    if t.PrefixChain? {
      SomeEntry(t.child);
    } else if IsNode(t) {
      var i := SomeSlot(t);
      SomeEntry(t.values[i]);
      var f := Entries(t.values[i])[0];
      assert f in Entries(t.values[i]);
      var e := InSlotAt(t, i, f);
      SlotEntriesMeaning(t, |t.values|);
      assert e in SlotEntries(t, |t.values|);
    }
  }

  lemma SomeSlot(t: Tree) returns (i: nat)
    requires Wf(t) && IsNode(t)
    ensures i < |t.values| && InUse(t, i)
  {
    if !t.Node256? {
      assert !t.values[0].Unset?;
      return 0;
    }
    i := SomeSet(t.values, 256);
  }

  lemma {:induction false} SomeSet(values: seq<Tree>, n: nat) returns (i: nat)
    requires n <= |values| && SetCount(values, n) > 0
    ensures i < n && !values[i].Unset?
  {
    if !values[n - 1].Unset? {
      return n - 1;
    }
    i := SomeSet(values, n - 1);
  }

  // The entry f of slot i, as an entry of the node.
  lemma InSlotAt(t: Tree, i: nat, f: Entry) returns (e: Entry)
    requires Wf(t) && IsNode(t) && i < |t.values| && f in Entries(t.values[i])
    ensures e == Entry([ByteOf(t, i)] + f.key, f.value) && e.key[0] == ByteOf(t, i)
    ensures SlotOf(t, e.key[0]) == i && forall n :: i < n <= |t.values| ==> InSlot(t, n, e)
  {
    WfByChildren(t);
    e := Entry([ByteOf(t, i)] + f.key, f.value);
    ByteOfSlot(t, i);
    assert e.key[1..] == f.key;
  }

  // The entries of the slots before slot n, and those of slot n.
  ghost predicate BytesBefore(t: Tree, n: nat)
    requires IsNode(t) && n < |t.values|
  {
    forall i: nat :: i < n && InUse(t, i) && InUse(t, n) ==> ByteOf(t, i) < ByteOf(t, n)
  }

  // Two entries of a node, of different slots, are in the order of their slots' bytes.
  lemma SlotsDecide(t: Tree, e: Entry, f: Entry, i: nat, n: nat)
    requires Wf(t) && IsNode(t) && i < n < |t.values| && InSlot(t, n, e) && SlotOf(t, e.key[0]) == i
    requires f in Prefixed([ByteOf(t, n)], Entries(t.values[n]))
    ensures InUse(t, i) && InUse(t, n) && (Before(e.key, f.key) <==> ByteOf(t, i) < ByteOf(t, n))
  {
    WfByChildren(t);
    OneSlot(t, n, f);
    assert InUse(t, i) && InUse(t, n);
    ByteOfSlot(t, i);
    Apart(t, i, n);
  }

  lemma SlotsBefore(t: Tree, n: nat)
    requires Wf(t) && IsNode(t) && n < |t.values|
    ensures AllBefore(SlotEntries(t, n), Prefixed([ByteOf(t, n)], Entries(t.values[n]))) <==> BytesBefore(t, n)
  {
    SlotEntriesMeaning(t, n);
    hide Wf, ShapeOk, SlotOf, ByteOf, Entries, SlotEntries, Before, InSlot;
    var a, b := SlotEntries(t, n), Prefixed([ByteOf(t, n)], Entries(t.values[n]));
    forall i: nat | AllBefore(a, b) && i < n && InUse(t, i) && InUse(t, n) ensures ByteOf(t, i) < ByteOf(t, n) {
      var e := FirstOf(t, i, n);
      assert b[0] in b by {
        IsWf(t, n);
        SomeEntry(t.values[n]);
      }
      SlotsDecide(t, e, b[0], i, n);
    }
    forall e, f | BytesBefore(t, n) && e in a && f in b ensures Before(e.key, f.key) {
      var i := SlotIn(t, e, n);
      SlotsDecide(t, e, f, i, n);
    }
  }

  lemma IsWf(t: Tree, i: nat)
    requires Wf(t) && IsNode(t) && i < |t.values|
    ensures Wf(t.values[i])
  {
  }

  lemma SlotIn(t: Tree, e: Entry, n: nat) returns (i: nat)
    requires IsNode(t) && n <= |t.values| && InSlot(t, n, e)
    ensures i < n && e.key != [] && SlotOf(t, e.key[0]) == i
  {
    i := SlotOf(t, e.key[0]);
  }

  // The first entry of slot i.
  lemma FirstOf(t: Tree, i: nat, n: nat) returns (e: Entry)
    requires Wf(t) && IsNode(t) && i < n <= |t.values| && InUse(t, i)
    ensures InSlot(t, n, e) && e.key != [] && SlotOf(t, e.key[0]) == i
  {
    IsWf(t, i);
    SomeEntry(t.values[i]);
    e := InSlotAt(t, i, Entries(t.values[i])[0]);
  }

  lemma Apart(t: Tree, i: nat, j: nat)
    requires Wf(t) && IsNode(t) && i < j < |t.values| && InUse(t, i) && InUse(t, j)
    ensures ByteOf(t, i) != ByteOf(t, j)
  {
    WfByChildren(t);
    ByteOfSlot(t, i);
    ByteOfSlot(t, j);
    assert SlotOf(t, ByteOf(t, i)) == i && SlotOf(t, ByteOf(t, j)) == j;
  }

  ghost predicate AllAscending(values: seq<Tree>, n: nat)
    requires n <= |values|
  {
    forall i :: 0 <= i < n ==> Ascending(values[i])
  }

  lemma OneSlotMore(t: Tree, n: nat)
    requires IsNode(t) && n < |t.values|
    ensures InByteOrder(t, n + 1) <==> InByteOrder(t, n) && BytesBefore(t, n)
    ensures AllAscending(t.values, n + 1) <==> AllAscending(t.values, n) && Ascending(t.values[n])
  {
    hide ByteOf, InUse, Ascending;
  }

  lemma {:induction false} SlotsOrder(t: Tree, n: nat)
    requires Wf(t) && IsNode(t) && n <= |t.values|
    ensures Sorted(SlotEntries(t, n)) <==> InByteOrder(t, n) && AllAscending(t.values, n)
    decreases t, 0, n
  {
    if n > 0 {
      var a, b := SlotEntries(t, n - 1), Prefixed([ByteOf(t, n - 1)], Entries(t.values[n - 1]));
      assert SlotEntries(t, n) == a + b;
      assert Wf(t.values[n - 1]) && t.values[n - 1] < t;
      OneSlotMore(t, n - 1);
      hide Wf, Prefixed, ByteOf, Entries, SlotEntries, Sorted, AllBefore, Ascending, InByteOrder, BytesBefore,
          AllAscending, InUse;
      SlotsOrder(t, n - 1);
      IterationOrder(t.values[n - 1]);
      SortedPrefixed([ByteOf(t, n - 1)], Entries(t.values[n - 1]));
      SortedAppend(a, b);
      SlotsBefore(t, n - 1);
    }
  }

  /** Iteration is in the lexicographic order of the keys exactly when the slots of
      every node are in the order of their bytes. */
  lemma {:induction false} IterationOrder(t: Tree)
    requires Wf(t)
    ensures Sorted(Entries(t)) <==> Ascending(t)
    decreases t, 0
  {
    if t.ValueChain? {
      var head := [Entry([], t.value)];
      EntriesMeaning(t.child);
      IterationOrder(t.child);
      SortedAppend(head, Entries(t.child));
      forall e, f | e in head && f in Entries(t.child) ensures Before(e.key, f.key) {
        assert Get(t.child, f.key).Some?;
      }
    } else if t.PrefixChain? {
      IterationOrder(t.child);
      SortedPrefixed(t.prefix, Entries(t.child));
    } else if IsNode(t) {
      SlotsOrder(t, |t.values|);
    }
  }

  /** What is below a prefix is in order when all is. */
  lemma {:induction false} UnderSorted(es: seq<Entry>, k: Key)
    ensures Sorted(es) ==> Sorted(Under(es, k))
    ensures forall e :: e in Under(es, k) ==> e in es
    ensures k == [] ==> Under(es, k) == es
  {
    if es != [] {
      var init, last := es[..|es| - 1], [es[|es| - 1]];
      UnderSorted(init, k);
      assert es == init + last;
      SortedAppend(init, last);
      SortedAppend(Under(init, k), if k <= es[|es| - 1].key then last else []);
    }
  }

  /** Two insertions after which iteration is not in order. */
  lemma IterationUnordered(v: RadixValue, w: RadixValue)
    ensures var t := Insert(Insert(Unset, [2], v).tree, [1], w).tree;
      Wf(t) && Entries(t) == [Entry([2], v), Entry([1], w)] && !Sorted(Entries(t))
  {
    var chain := Insert(Unset, [2], v).tree;
    assert chain == PrefixChain([2], Value(v));
    var t := Insert(chain, [1], w).tree;
    var p: Key, q: Key := [2], [1];
    assert p[0] != q[0] && p + [] == p && q + [] == q;
    assert t == Node4(p + q, [Value(v), Value(w)]);
    assert SlotEntries(t, 0) == [];
    assert SlotEntries(t, 1) == [] + Prefixed(p, [Entry([], v)]);
    assert SlotEntries(t, 2) == SlotEntries(t, 1) + Prefixed(q, [Entry([], w)]);
    assert Entries(t) == SlotEntries(t, 2);
    assert !Before(p, q) && Entries(t)[0].key == p && Entries(t)[1].key == q;
  }
}
