// The cache, the tree that is its index, and the device table.  IoManager changes
// its map of blocks in three places; each is shown here with the call of the
// tree that makes the same change, and with what the table counts.
module IndexedCache {
  import opened AdaptiveHeap
  import opened AdaptiveMap
  import opened AdaptiveOps
  import opened AdaptiveTree
  import opened BlockCache
  import opened BlockIndex
  import opened BlockKeys
  import opened Bytes
  import opened CacheState
  import opened Callbacks
  import opened DeviceTable

  // The tree's map, the cache's map and the table's set have the same blocks;
  // the tree stores a block's place in the array of all blocks.
  ghost predicate Agree(raw: seq<Block>, index: map<BlockKey, RadixValue>, rtree: map<BlockKey, Block>,
      indexed: set<BlockKey>) {
    && index.Keys == rtree.Keys == indexed
    && (forall k :: k in rtree ==> InRange(k) && index[k] < |raw| && raw[index[k]] == rtree[k])
  }

  lemma AgreeInsert(raw: seq<Block>, index: map<BlockKey, RadixValue>, rtree: map<BlockKey, Block>,
      indexed: set<BlockKey>, k: BlockKey, n: nat)
    requires Agree(raw, index, rtree, indexed) && InRange(k) && n < |raw|
    ensures Agree(raw, index[k := n], rtree[k := raw[n]], indexed + {k})
    ensures k !in rtree ==> k !in indexed
  {
  }

  lemma AgreeRemove(raw: seq<Block>, index: map<BlockKey, RadixValue>, rtree: map<BlockKey, Block>,
      indexed: set<BlockKey>, k: BlockKey)
    requires Agree(raw, index, rtree, indexed)
    ensures Agree(raw, index - {k}, rtree - {k}, indexed - {k})
    ensures k in rtree ==> k in indexed && k in index && InRange(k)
  {
  }

  lemma AgreePrune(raw: seq<Block>, index: map<BlockKey, RadixValue>, rtree: map<BlockKey, Block>,
      indexed: set<BlockKey>, dev: nat)
    requires Agree(raw, index, rtree, indexed)
    ensures Agree(raw, map k | k in index && k.0 != dev :: index[k], map k | k in rtree && k.0 != dev :: rtree[k], indexed - BlocksOf(indexed, dev))
  {
  }

  class IndexedCache {
    const iom: IoManager
    const ix: BlockIndex
    const table: Table
    // the array of all blocks
    const raw: seq<Block>

    // The tree shares no object with the others.
    ghost predicate Apart()
      reads ix.tree, Cell(ix.tree.root), table`all, table`lru
    {
      && iom !in ix.Repr() && table !in ix.Repr()
      && (forall b :: b in iom.blocks ==> b !in ix.Repr()) && (forall a :: a in iom.buffers ==> a !in ix.Repr())
      && (forall d :: d in table.all || d in table.lru ==> d !in ix.Repr())
    }

    ghost predicate Valid()
      reads this, iom, ix, ix.tree, Cell(ix.tree.root), Foot(ix.tree.root), table, table.lru, table.all
    {
      ix.Valid() && table.Valid() && Agree(raw, ix.index, iom.rtree, table.indexed) && Apart()
    }

    twostate lemma StillApart()
      requires old(Apart()) && fresh(Foot(ix.tree.root) - old(Foot(ix.tree.root)))
      requires table.all == old(table.all) && forall d :: d in table.lru ==> d in old(table.lru)
      ensures Apart()
    {
    }

    // Where the tree's objects are as they were.
    twostate lemma TreeStands()
      requires old(ix.Valid()) && old(Apart()) && forall o :: o in old(ix.Repr()) ==> unchanged(o)
      ensures ix.Valid() && ix.Repr() == old(ix.Repr())
    {
      hide Encodes, Holds, Wf, Content, Entries;
      assert unchanged(ix) && unchanged(ix.tree);
    }

    /** A cache, a table and a tree that are all empty agree. */
    constructor (iom: IoManager, table: Table, raw: seq<Block>, dtr: Destructor)
      requires iom.rtree == map[] && table.Valid() && table.indexed == {}
      ensures Valid() && this.iom == iom && this.table == table && this.raw == raw && fresh(ix)
    {
      hide Table.Valid, BlockIndex.Valid;
      this.iom, this.table, this.raw := iom, table, raw;
      ix := new BlockIndex(dtr);
    }

    /** _block_lookup finds what the map has. */
    method BlockLookup(d: nat, i: nat) returns (r: Option<Block>)
      requires Valid() && InRange((d, i))
      ensures r == if (d, i) in iom.rtree then Some(iom.rtree[(d, i)]) else None
    {
      hide Table.Valid, Encodes, Holds;
      var v := ix.Lookup((d, i));
      assert (d, i) in ix.index <==> (d, i) in ix.index.Keys;
      if v.None? {
        return None;
      }
      assert (d, i) in iom.rtree.Keys;
      r := Some(raw[v.value]);
    }

    // The tree's part of each step; the cache and the table do not notice.
    method StoreName(k: BlockKey, n: nat)
      requires ix.Valid() && table.Valid() && Apart() && InRange(k)
      modifies ix, ix.tree, Foot(ix.tree.root)
      ensures ix.Valid() && table.Valid() && Apart() && ix.index == old(ix.index)[k := n]
      ensures fresh(Foot(ix.tree.root) - old(Foot(ix.tree.root)))
    {
      hide Table.Listed, Table.Unreferenced, Table.Numbered, Table.Opened, BlocksOf, Encodes, Holds;
      ix.Insert(k, n);
      StillApart();
    }

    method DropName(k: BlockKey)
      requires ix.Valid() && table.Valid() && Apart() && InRange(k) && k in ix.index
      modifies ix, ix.tree, ix.tree.dtr, Foot(ix.tree.root)
      ensures ix.Valid() && table.Valid() && Apart() && ix.index == old(ix.index) - {k}
      ensures ix.tree.dtr.seen == old(ix.tree.dtr.seen) + [old(ix.index)[k]]
      ensures fresh(Foot(ix.tree.root) - old(Foot(ix.tree.root)))
    {
      hide Table.Listed, Table.Unreferenced, Table.Numbered, Table.Opened, BlocksOf, Encodes, Holds;
      ix.Remove(k);
      StillApart();
    }

    method DropDevice(dev: nat) returns (ghost names: seq<BlockKey>)
      requires ix.Valid() && table.Valid() && Apart() && dev < DEV_LIMIT
      modifies ix, ix.tree, ix.tree.dtr, Foot(ix.tree.root)
      ensures ix.Valid() && table.Valid() && Apart()
      ensures ix.index == map k | k in old(ix.index) && k.0 != dev :: old(ix.index)[k]
      ensures ListsDevice(names, old(ix.index), dev)
      ensures ix.tree.dtr.seen == old(ix.tree.dtr.seen) + ValuesOf(names, old(ix.index))
      ensures fresh(Foot(ix.tree.root) - old(Foot(ix.tree.root)))
    {
      hide Table.Listed, Table.Unreferenced, Table.Numbered, Table.Opened, BlocksOf, Encodes, Holds;
      names := ix.RemoveDevice(dev);
      StillApart();
    }

    // The table's part; the tree does not notice.
    method Count(k: BlockKey, dev: Device)
      requires ix.Valid() && table.Valid() && Apart() && dev in table.lru && dev.index == k.0 && k !in table.indexed
      modifies table`indexed, dev`blocks
      ensures ix.Valid() && table.Valid() && Apart() && table.indexed == old(table.indexed) + {k}
      ensures dev.blocks == old(dev.blocks) + 1
    {
      hide Table.Valid, BlockIndex.Valid;
      table.IncBlocks(dev, k);
      TreeStands();
    }

    method Uncount(k: BlockKey, dev: Device)
      requires ix.Valid() && table.Valid() && Apart() && dev in table.lru && dev.index == k.0 && k in table.indexed
      modifies table`nrOpen, table`table, table`lru, table`closed, table`indexed, dev`blocks
      ensures ix.Valid() && table.Valid() && Apart() && table.indexed == old(table.indexed) - {k}
      ensures dev.blocks == old(dev.blocks) - 1
    {
      hide Table.Valid, BlockIndex.Valid;
      table.BlockDtr(dev, k);
      TreeStands();
      StillApart();
    }

    /** _block_insert and _inc_blocks: block n of the array, for device dev. */
    method BlockInsert(b: Block, n: nat, dev: Device)
      requires Valid() && n < |raw| && raw[n] == b && dev in table.lru && dev.index == b.dev && InRange(b.Key())
      requires b in iom.blocks && iom.InvBut(b) && iom.TidyBut(b) && b.place == Detached && b.Key() !in iom.rtree
      modifies iom`rtree, iom`cached, b`place, ix, ix.tree, Foot(ix.tree.root), table`indexed, dev`blocks
      ensures Valid() && iom.InvBut(b) && iom.TidyBut(b) && b.place == Loose
      ensures iom.rtree == old(iom.rtree)[b.Key() := b] && dev.blocks == old(dev.blocks) + 1
    {
      hide Agree, Table.Valid, BlockIndex.Valid, IoManager.InvBut, IoManager.TidyBut;
      var k := (b.dev, b.index);
      AgreeInsert(raw, ix.index, iom.rtree, table.indexed, k, n);
      StoreName(k, n);
      Count(k, dev);
      label Stored:
      iom.BlockInsert(b);
      TreeStands@Stored();
    }

    /** _block_remove: the tree gives the block to _block_dtr, and with its last
        reference the device is closed. */
    method BlockRemove(b: Block, dev: Device)
      requires Valid() && dev in table.lru && dev.index == b.dev && b.Key() in iom.rtree
      requires b in iom.blocks && iom.InvBut(b) && iom.TidyBut(b) && b.place == Loose && iom.OnDisk(b)
      modifies iom`rtree, iom`cached, b`place, ix, ix.tree, ix.tree.dtr, Foot(ix.tree.root)
      modifies table`nrOpen, table`table, table`lru, table`closed, table`indexed, dev`blocks
      ensures Valid() && iom.InvBut(b) && iom.TidyBut(b) && b.place == Detached
      ensures iom.rtree == old(iom.rtree) - {b.Key()} && dev.blocks == old(dev.blocks) - 1
      ensures ix.tree.dtr.seen == old(ix.tree.dtr.seen) + [old(ix.index)[b.Key()]]
    {
      hide Agree, Table.Valid, BlockIndex.Valid, IoManager.InvBut, IoManager.TidyBut, IoManager.OnDisk;
      var k := (b.dev, b.index);
      AgreeRemove(raw, ix.index, iom.rtree, table.indexed, k);
      DropName(k);
      Uncount(k, dev);
      label Dropped:
      iom.BlockRemove(b);
      TreeStands@Dropped();
    }

    /** The removal that ends _invalidate_dev: the tree gives each block of the
        device to _block_dtr, once. */
    method Prune(dev: Device) returns (ghost names: seq<BlockKey>)
      requires Valid() && dev in table.lru && dev.index < DEV_LIMIT
      modifies iom`rtree, ix, ix.tree, ix.tree.dtr, Foot(ix.tree.root)
      modifies table`nrOpen, table`table, table`lru, table`closed, table`indexed, dev`blocks
      ensures Valid() && dev.blocks == 0
      ensures iom.rtree == map k | k in old(iom.rtree) && k.0 != dev.index :: old(iom.rtree)[k]
      ensures ListsDevice(names, old(ix.index), dev.index)
      ensures ix.tree.dtr.seen == old(ix.tree.dtr.seen) + ValuesOf(names, old(ix.index))
    {
      hide Agree, Table.Valid, BlockIndex.Valid, BlocksOf, ListsDevice, Without;
      AgreePrune(raw, ix.index, iom.rtree, table.indexed, dev.index);
      names := DropDevice(dev.index);
      label Dropped:
      iom.Prune(dev.index);
      table.InvalidateDev(dev);
      TreeStands@Dropped();
      StillApart();
    }
  }
}
