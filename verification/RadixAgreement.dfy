// The two radix trees answer every sequence of calls alike, because both
// answer as a plain map does.
module RadixAgreement {
  import opened Bytes
  import opened AdaptiveTree
  import opened AdaptiveOps
  import opened AdaptiveProofs
  import opened AdaptiveEntries
  import opened AdaptiveMap
  import opened SimpleTree

  datatype Op =
    | InsertOp(key: Key, value: RadixValue)
    | LookupOp(key: Key)
    | RemoveOp(key: Key)
    | RemovePrefixOp(key: Key)
    | SizeOp

  datatype Answer =
    | Stored
    | Looked(found: Option<RadixValue>)
    | WasThere(removed: bool)
    | Count(count: nat)

  type Store = map<Key, RadixValue>

  // ------------------------------------------------------------------
  // The specification: a finite map
  // ------------------------------------------------------------------

  ghost function MapStep(m: Store, op: Op): (Store, Answer) {
    match op
    case InsertOp(k, v) => (m[k := v], Stored)
    case LookupOp(k) => (m, Looked(Find(m, k)))
    case RemoveOp(k) => (m - {k}, WasThere(k in m))
    case RemovePrefixOp(k) => (Prune(m, k), Count(|KeysUnder(m, k)|))
    case SizeOp => (m, Count(|m|))
  }

  ghost function MapRun(m: Store, ops: seq<Op>): (r: (Store, seq<Answer>))
    ensures |r.1| == |ops|
    decreases |ops|
  {
    if ops == [] then (m, [])
    else
      var s := MapStep(m, ops[0]);
      var rest := MapRun(s.0, ops[1..]);
      (rest.0, [s.1] + rest.1)
  }

  /** No insert overwrites a key that another stored key extends. */
  ghost predicate NoOverlaps(m: Store, ops: seq<Op>)
    decreases |ops|
  {
    ops == [] ||
    ((ops[0].InsertOp? ==> !Overlapping(m, ops[0].key)) && NoOverlaps(MapStep(m, ops[0]).0, ops[1..]))
  }

  // ------------------------------------------------------------------
  // The adaptive tree with its entry counter
  // ------------------------------------------------------------------

  datatype AState = AState(tree: Tree, nrEntries: int)

  ghost predicate AValid(s: AState) {
    Wf(s.tree) && s.nrEntries == |Entries(s.tree)|
  }

  ghost function AStep(s: AState, op: Op): (AState, Answer)
    requires AValid(s)
  {
    match op
    case InsertOp(k, v) =>
      var r := Insert(s.tree, k, v);
      (AState(r.tree, s.nrEntries + r.added), Stored)
    case LookupOp(k) => (s, Looked(Lookup(s.tree, k)))
    case RemoveOp(k) =>
      var r := Remove(s.tree, k);
      (AState(r.tree, s.nrEntries - |r.dropped|), WasThere(r.dropped != []))
    case RemovePrefixOp(k) =>
      var r := RemoveSubtree(s.tree, k);
      (AState(r.tree, s.nrEntries - |r.dropped|), Count(|r.dropped|))
    case SizeOp => (s, Count(s.nrEntries))
  }

  lemma AStepIsMapStep(s: AState, op: Op)
    requires AValid(s) && (op.InsertOp? ==> !Overlapping(Content(s.tree), op.key))
    ensures var r := AStep(s, op);
      AValid(r.0) && (Content(r.0.tree), r.1) == MapStep(Content(s.tree), op)
  {
    match op
    case InsertOp(k, v) => InsertIsUpdate(s.tree, k, v);
    case LookupOp(k) => LookupIsSelect(s.tree, k);
    case RemoveOp(k) => RemoveIsDelete(s.tree, k);
    case RemovePrefixOp(k) => RemoveSubtreeIsDelete(s.tree, k);
    case SizeOp => ContentMeaning(s.tree);
  }

  ghost function ARun(s: AState, ops: seq<Op>): seq<Answer>
    requires AValid(s) && NoOverlaps(Content(s.tree), ops)
    decreases |ops|
  {
    if ops == [] then []
    else
      var r := AStep(s, ops[0]);
      AStepIsMapStep(s, ops[0]);
      [r.1] + ARun(r.0, ops[1..])
  }

  lemma {:induction false} ARunIsMapRun(s: AState, ops: seq<Op>)
    requires AValid(s) && NoOverlaps(Content(s.tree), ops)
    ensures ARun(s, ops) == MapRun(Content(s.tree), ops).1
    decreases |ops|
  {
    if ops != [] {
      AStepIsMapStep(s, ops[0]);
      ARunIsMapRun(AStep(s, ops[0]).0, ops[1..]);
    }
  }

  // ------------------------------------------------------------------
  // The simple tree
  // ------------------------------------------------------------------

  // junk is the byte found past the end of the key.
  ghost function SStep(t: STree, op: Op, junk: Byte): (STree, Answer) {
    match op
    case InsertOp(k, v) => (SInsert(t, k, v, junk), Stored)
    case LookupOp(k) => (t, Looked(SGet(t, k)))
    case RemoveOp(k) =>
      var r := SRemove(t, k);
      (r.tree, WasThere(r.dropped != []))
    case RemovePrefixOp(k) =>
      var r := SRemovePrefix(t, k);
      (r.tree, Count(|r.dropped|))
    case SizeOp => (t, Count(|SEntries(t)|))
  }

  lemma SStepIsMapStep(t: STree, op: Op, junk: Byte)
    requires SWf(t)
    ensures var r := SStep(t, op, junk);
      SWf(r.0) && (SContent(r.0), r.1) == MapStep(SContent(t), op)
  {
    match op
    case InsertOp(k, v) => SInsertIsUpdate(t, k, v, junk);
    case LookupOp(k) => SContentAt(t, k);
    case RemoveOp(k) => SRemoveIsDelete(t, k);
    case RemovePrefixOp(k) => SRemovePrefixIsDelete(t, k);
    case SizeOp => SContentAt(t, []);
  }

  ghost function SRun(t: STree, ops: seq<Op>, junk: seq<Byte>): seq<Answer>
    requires |junk| == |ops|
    decreases |ops|
  {
    if ops == [] then []
    else
      var r := SStep(t, ops[0], junk[0]);
      [r.1] + SRun(r.0, ops[1..], junk[1..])
  }

  lemma {:induction false} SRunIsMapRun(t: STree, ops: seq<Op>, junk: seq<Byte>)
    requires SWf(t) && |junk| == |ops|
    ensures SRun(t, ops, junk) == MapRun(SContent(t), ops).1
    decreases |ops|
  {
    if ops != [] {
      SStepIsMapStep(t, ops[0], junk[0]);
      SRunIsMapRun(SStep(t, ops[0], junk[0]).0, ops[1..], junk[1..]);
    }
  }

  // ------------------------------------------------------------------
  // Agreement
  // ------------------------------------------------------------------

  const EMPTY_TREE := AState(Unset, 0)

  lemma EmptyMaps()
    ensures AValid(EMPTY_TREE) && Content(Unset) == map[]
    ensures SWf(Nil) && SContent(Nil) == map[]
  {
    ContentMeaning(Unset);
  }

  /** Starting empty, both trees give the answers of a map, whatever bytes lie
      past the ends of the keys. */
  lemma TreesAgree(ops: seq<Op>, junk: seq<Byte>)
    requires NoOverlaps(map[], ops) && |junk| == |ops|
    ensures AValid(EMPTY_TREE) && Content(EMPTY_TREE.tree) == map[]
    ensures ARun(EMPTY_TREE, ops) == SRun(Nil, ops, junk) == MapRun(map[], ops).1
  {
    EmptyMaps();
    ARunIsMapRun(EMPTY_TREE, ops);
    SRunIsMapRun(Nil, ops, junk);
  }

  /** Without the restriction they do not: after a, ab and a again have been
      inserted the adaptive tree counts three entries, the simple tree two. */
  lemma TreesDisagree(a: Byte, b: Byte, v: RadixValue, junk: Byte)
    ensures var t1 := Insert(Unset, [a], v);
      var t2 := Insert(t1.tree, [a, b], v);
      var t3 := Insert(t2.tree, [a], v);
      t1.added + t2.added + t3.added == 3 && !Wf(t3.tree)
    ensures var s1 := SInsert(Nil, [a], v, junk);
      var s2 := SInsert(s1, [a, b], v, junk);
      var s3 := SInsert(s2, [a], v, junk);
      SWf(s3) && |SEntries(s3)| == 2
  {
    InsertTwice(a, b, v);
    SimpleTwice(a, b, v, junk);
    hide *;
  }

  lemma SimpleTwice(a: Byte, b: Byte, v: RadixValue, junk: Byte)
    ensures var s1 := SInsert(Nil, [a], v, junk);
      var s2 := SInsert(s1, [a, b], v, junk);
      var s3 := SInsert(s2, [a], v, junk);
      SWf(s3) && |SEntries(s3)| == 2
  {
    EmptyMaps();
    hide SInsert, SWf, SContent, SEntries, Insert;
    var s1 := SInsert(Nil, [a], v, junk);
    var s2 := SInsert(s1, [a, b], v, junk);
    var s3 := SInsert(s2, [a], v, junk);
    SInsertIsUpdate(Nil, [a], v, junk);
    SInsertIsUpdate(s1, [a, b], v, junk);
    SInsertIsUpdate(s2, [a], v, junk);
    SContentAt(s3, []);
    var m: Store := map[];
    UpdateCount(m, [a], v);
    UpdateCount(m[[a] := v], [a, b], v);
    UpdateCount(m[[a] := v][[a, b] := v], [a], v);
  }

  lemma InsertTwice(a: Byte, b: Byte, v: RadixValue)
    ensures var t1 := Insert(Unset, [a], v);
      var t2 := Insert(t1.tree, [a, b], v);
      var t3 := Insert(t2.tree, [a], v);
      t1.added + t2.added + t3.added == 3 && !Wf(t3.tree)
  {
    InsertIsUpdate(Unset, [a], v);
    var t1 := Insert(Unset, [a], v);
    EmptyMaps();
    assert t1 == Inserted(PrefixChain([a], Value(v)), 1);
    InsertIsUpdate(t1.tree, [a, b], v);
    InsertTheorem(t1.tree, [a, b], v);
    var t2 := Insert(t1.tree, [a, b], v);
    var m := Content(t1.tree);
    assert m == map[[a] := v];
    assert Wf(t2.tree) && Content(t2.tree) == m[[a, b] := v];
    InsertTheorem(t2.tree, [a], v);
    InsertIsUpdate(t2.tree, [a], v);
    assert [a] < [a, b] && [a, b] in Content(t2.tree);
    assert Overlapping(Content(t2.tree), [a]);
    UpdateCount(m, [a, b], v);
    assert |m| == 1;
  }
}
