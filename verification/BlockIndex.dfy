// The index of the block cache: a radix tree under the keys of BlockKeys.
module BlockIndex {
  import opened AdaptiveEntries
  import opened AdaptiveHeap
  import opened AdaptiveMap
  import opened AdaptiveOps
  import opened AdaptiveRadix
  import opened AdaptiveTree
  import opened BlockKeys
  import opened Bytes
  import opened Callbacks

  /** names are the keys of a device's blocks, each once. */
  ghost predicate ListsDevice(names: seq<BlockKey>, index: map<BlockKey, RadixValue>, dev: nat) {
    NoDup(names) && (forall k :: k in names <==> k in index && k.0 == dev)
  }

  ghost function ValuesOf(names: seq<BlockKey>, index: map<BlockKey, RadixValue>): (r: seq<RadixValue>)
    requires forall k :: k in names ==> k in index
    ensures |r| == |names| && forall j :: 0 <= j < |names| ==> r[j] == index[names[j]]
  {
    seq(|names|, j requires 0 <= j < |names| => index[names[j]])
  }

  // The names of the pairs that the tree has below a device's bytes.
  lemma NamesOf(content: map<Key, RadixValue>, index: map<BlockKey, RadixValue>, dev: nat, below: seq<Entry>)
    returns (names: seq<BlockKey>)
    requires Encodes(content, index) && dev < DEV_LIMIT && KeysDistinct(below)
    requires forall e :: e in below <==> DevBytes(dev) <= e.key && Find(content, e.key) == Some(e.value)
    ensures ListsDevice(names, index, dev) && Vals(below) == ValuesOf(names, index)
  {
    hide KeyOf, DevBytes;
    names := [];
    while |names| < |below|
      invariant |names| <= |below|
      invariant forall j :: 0 <= j < |names| ==>
        names[j] in index && names[j].0 == dev && KeyOf(names[j]) == below[j].key && index[names[j]] == below[j].value
    {
      var e := below[|names|];
      assert e in below;
      var k :| k in index && KeyOf(k) == e.key;
      DevPrefix(dev, k);
      names := names + [k];
    }
    forall k | k in index && k.0 == dev ensures k in names {
      DevPrefix(dev, k);
      assert Entry(KeyOf(k), index[k]) in below;
      var j :| 0 <= j < |below| && below[j] == Entry(KeyOf(k), index[k]);
      KeyOfIsInjective(k, names[j]);
    }
  }

  class BlockIndex {
    const tree: RadixTree
    // the name of each block, and the value stored for it
    ghost var index: map<BlockKey, RadixValue>

    ghost predicate Valid()
      reads this, tree, Cell(tree.root), Foot(tree.root)
    {
      tree.Valid() && Cell(tree.root) <= Foot(tree.root) && this !in Foot(tree.root) && Encodes(tree.Contents(), index)
    }

    ghost function Repr(): set<object>
      reads tree, Cell(tree.root)
    {
      {this, tree, tree.dtr} + Foot(tree.root)
    }

    constructor (dtr: Destructor)
      ensures Valid() && index == map[] && tree.dtr == dtr && fresh(tree) && Foot(tree.root) == {}
    {
      tree := new RadixTree(dtr);
      index := map[];
    }

    /** _block_lookup */
    method Lookup(k: BlockKey) returns (r: Option<RadixValue>)
      requires Valid() && InRange(k)
      ensures r == if k in index then Some(index[k]) else None
    {
      LookupIsIndexed(tree.Contents(), index, k);
      r := tree.Lookup(KeyOf(k));
    }

    /** _block_insert */
    method Insert(k: BlockKey, v: RadixValue)
      requires Valid() && InRange(k)
      modifies this, tree, Foot(tree.root)
      ensures Valid() && index == old(index)[k := v]
      ensures fresh(Foot(tree.root) - old(Foot(tree.root)))
    {
      hide Encodes, Holds, Wf, Content, Entries, KeyOf, DevBytes, Overlapping;
      NeverOverlaps(tree.Contents(), index, k);
      InsertIsIndexed(tree.Contents(), index, k, v);
      tree.Insert(KeyOf(k), v);
      CellOwned(tree.root, tree.tree);
      index := index[k := v];
    }

    /** _block_remove: the destructor is given the block, once. */
    method Remove(k: BlockKey)
      requires Valid() && InRange(k)
      modifies this, tree, Foot(tree.root), tree.dtr
      ensures Valid() && index == old(index) - {k}
      ensures tree.dtr.seen == old(tree.dtr.seen) + if k in old(index) then [old(index)[k]] else []
      ensures fresh(Foot(tree.root) - old(Foot(tree.root)))
    {
      hide Encodes, Holds, Wf, Content, Entries, KeyOf, DevBytes, Overlapping;
      LookupIsIndexed(tree.Contents(), index, k);
      RemoveIsIndexed(tree.Contents(), index, k);
      var removed := tree.Remove(KeyOf(k));
      CellOwned(tree.root, tree.tree);
      index := index - {k};
    }

    /** The removal that ends _invalidate_dev: exactly the device's blocks go, and
        the destructor is given each of them once. */
    method RemoveDevice(dev: nat) returns (ghost names: seq<BlockKey>)
      requires Valid() && dev < DEV_LIMIT
      modifies this, tree, Foot(tree.root), tree.dtr
      ensures Valid() && index == (map k | k in old(index) && k.0 != dev :: old(index)[k])
      ensures ListsDevice(names, old(index), dev) && tree.dtr.seen == old(tree.dtr.seen) + ValuesOf(names, old(index))
      ensures fresh(Foot(tree.root) - old(Foot(tree.root)))
    {
      hide Encodes, Holds, Wf, Content, Entries, KeyOf, DevBytes, Overlapping, Prune, KeysUnder;
      PruneIsIndexed(tree.Contents(), index, dev);
      ghost var content := tree.Contents();
      var count;
      ghost var gone;
      count, gone := tree.RemovePrefix(DevBytes(dev));
      CellOwned(tree.root, tree.tree);
      names := NamesOf(content, index, dev, gone);
      index := map k | k in index && k.0 != dev :: index[k];
    }

    /** The walks of _invalidate_dev: the visitor is shown exactly the device's
        blocks, each once, until it answers false. */
    method Iterate(dev: nat, it: Visitor)
      returns (ghost go: bool, ghost names: seq<BlockKey>, ghost asked: seq<RadixValue>, ghost answers: seq<bool>)
      requires Valid() && dev < DEV_LIMIT && it !in Repr() && it.seen == [] && it.answers == []
      modifies it
      ensures Valid() && ListsDevice(names, index, dev)
      ensures it.seen == asked && it.answers == answers && Ran(ValuesOf(names, index), asked, answers, go)
    {
      hide Encodes, Holds, Wf, Content, Entries, KeyOf, DevBytes, Overlapping, Vals;
      CellOwned(tree.root, tree.tree);
      ghost var below;
      go, below, asked, answers := tree.Iterate(DevBytes(dev), it);
      names := NamesOf(tree.Contents(), index, dev, below);
    }
  }
}
