// struct io_manager: the lists, the index and the asynchronous engine.
module BlockCache {
  import opened Bytes
  import opened BlockLists
  import opened CacheState

  // The engine's report on one request.
  datatype Completion = Completion(block: Block, run: Run, ok: bool)

  // What asking for a block comes to.  Hung: the caller waits for a request, and
  // there is none.
  datatype Fetched = Got(block: Block) | Nothing | Hung

  // GF_DIRTY and GF_ZERO
  datatype Flags = Flags(dirty: bool, zero: bool) {
    predicate Writes() { dirty || zero }
  }

  class IoManager {
    const blockSectors: nat
    const maxIo: nat
    // the engine: whether it never fails a request
    const reliable: bool
    ghost const blocks: set<Block>
    ghost const buffers: set<array<Byte>>

    // the disks, as the engine sees them
    var disk: Contents
    // what the users of the cache have stored
    ghost var logical: Contents

    var free: seq<Block>
    var clean: seq<Block>
    var dirty: seq<Block>
    var errored: seq<Block>
    var pending: seq<Block>

    // the radix tree of blocks: a map, by the theorems on radix trees
    var rtree: map<BlockKey, Block>
    // what it holds between calls
    ghost var cached: map<BlockKey, Block>
    // the keys of blocks that were dropped although nothing was promised of them
    ghost var gone: set<BlockKey>
    var nrLocked: nat
    var nrIoPending: nat
    // the blocks with a reference, nrLocked of them
    ghost var held: set<Block>

    function BlockSize(): nat { blockSectors * SECTOR_SIZE }

    // ----------------------------------------------------------------
    // Invariant
    // ----------------------------------------------------------------

    ghost predicate Storage() {
      && 0 < blockSectors <= MAX_BLOCK_SECTORS
      && (forall b :: b in blocks ==> b.data in buffers && b.data.Length == BlockSize())
      && (forall b, c :: b in blocks && c in blocks && b.data == c.data ==> b == c)
    }

    ghost function Places(): map<Block, Place>
      reads blocks`place
    {
      map b | b in blocks :: b.place
    }

    ghost predicate Lists()
      reads `free, `clean, `dirty, `errored, `pending, blocks`place
    {
      var at := Places();
      && ListIs(free, Free, at) && ListIs(clean, Clean, at) && ListIs(dirty, Dirty, at)
      && ListIs(errored, Errored, at) && ListIs(pending, Pending, at)
    }

    ghost predicate Index()
      reads `cached, blocks`dev, blocks`index, blocks`place
    {
      && (forall k :: k in cached ==> cached[k] in blocks && cached[k].Key() == k && IsIndexed(cached[k].place))
      && (forall b :: b in blocks && IsIndexed(b.place) ==> b.Key() in cached && cached[b.Key()] == b)
    }

    // A block and the disk together hold the block's logical contents.
    ghost predicate Coherent(b: Block)
      reads `disk, `logical, b`dev, b`index, b`ioDir, b`ioPending, b`error, b`dirtyBits, b`inFlight, b.data
    {
      if b.Awaiting() then
        forall o :: 0 <= o < b.data.Length ==> disk(b.dev, b.index, o) == logical(b.dev, b.index, o)
      else
        forall o :: 0 <= o < b.data.Length ==>
          && b.data[o] == logical(b.dev, b.index, o)
          && (b.Unsynced(SectorOf(o)) || disk(b.dev, b.index, o) == logical(b.dev, b.index, o))
    }

    ghost predicate DiskOnly()
      reads `disk, `logical, `cached, `gone
    {
      forall d: nat, i: nat, o: nat :: (d, i) !in cached && (d, i) !in gone && o < BlockSize() ==> disk(d, i, o) == logical(d, i, o)
    }

    ghost predicate BlockOk(b: Block)
      reads `disk, `logical, b, b.data
    {
      b.StateOk(blockSectors) && (b.error ==> !reliable) && (IsIndexed(b.place) && !b.astray ==> Coherent(b))
    }

    ghost predicate Holders()
      reads `nrLocked, `held, blocks`refCount
    {
      nrLocked == |held| && held <= blocks && (forall b :: b in blocks ==> (b in held <==> b.refCount > 0))
    }

    // Everything but the state of x and the number of pending blocks.
    ghost predicate Core(x: Block)
      reads `disk, `logical, `free, `clean, `dirty, `errored, `pending, `cached, `gone, `nrLocked, `nrIoPending, `held, blocks, buffers
    {
      && Storage() && Lists() && Index() && DiskOnly() && Holders()
      && (forall b :: b in blocks && b != x ==> BlockOk(b))
    }

    ghost predicate InvBut(x: Block)
      reads `disk, `logical, `free, `clean, `dirty, `errored, `pending, `cached, `gone, `nrLocked, `nrIoPending, `held, blocks, buffers
    {
      Core(x) && nrIoPending == |pending|
    }

    ghost predicate Inv()
      reads `disk, `logical, `free, `clean, `dirty, `errored, `pending, `cached, `gone, `nrLocked, `nrIoPending, `held, blocks, buffers
    {
      && Storage() && Lists() && Index() && DiskOnly() && Holders()
      && (forall b :: b in blocks ==> BlockOk(b))
      && nrIoPending == |pending|
    }

    // Between public calls nothing is off the lists or stuck, and only a block whose
    // read failed awaits its data.
    ghost predicate Placed()
      reads blocks
    {
      && (forall b :: b in blocks ==> b.place != Loose && b.place != Detached && !b.IsStuck())
      && (forall b :: b in blocks && IsIndexed(b.place) && b.Awaiting() && !b.ioPending ==> b.place == Errored && b.dirtyBits == {})
    }

    // All that has been stored is in the cache or on the disk.
    ghost predicate Kept()
      reads `gone, blocks`astray
    {
      gone == {} && forall b :: b in blocks ==> !b.astray
    }

    ghost predicate Tidy()
      reads `rtree, `cached, `gone, blocks
    {
      rtree == cached && Placed() && Kept()
    }

    // Between calls, but for x.
    ghost predicate TidyBut(x: Block)
      reads `rtree, `cached, `gone, blocks
    {
      && rtree == cached && Kept()
      && (forall b :: b in blocks && b != x ==> b.place != Loose && b.place != Detached)
      && (forall b :: b in blocks ==> !b.IsStuck())
      && (forall b :: b in blocks && b != x && IsIndexed(b.place) && b.Awaiting() && !b.ioPending ==>
           b.place == Errored && b.dirtyBits == {})
    }

    ghost predicate Valid()
      reads this, blocks, buffers
    {
      Inv() && Tidy()
    }

    // ----------------------------------------------------------------
    // Creation
    // ----------------------------------------------------------------

    // _init_free_list: n blocks with buffers of their own.
    static method FreeList(sectors: nat, n: nat) returns (list: seq<Block>, ghost owned: set<Block>, ghost arrays: set<array<Byte>>)
      ensures |list| == |owned| == n && NoDup(list) && (forall b :: b in list <==> b in owned)
      ensures forall b :: b in owned ==> fresh(b) && b.data in arrays && b.data.Length == sectors * SECTOR_SIZE
      ensures forall b, c :: b in owned && c in owned && b.data == c.data ==> b == c
      ensures forall b :: b in owned ==> b.place == Free && b.IsIdle() && !b.error && b.dirtyBits == {} && !b.astray
      ensures forall a :: a in arrays ==> fresh(a)
    {
      list, owned, arrays := [], {}, {};
      while |list| < n
        invariant |list| == |owned| <= n && NoDup(list) && forall b :: b in list <==> b in owned
        invariant forall b :: b in owned ==> fresh(b) && b.data in arrays && b.data.Length == sectors * SECTOR_SIZE
        invariant forall b, c :: b in owned && c in owned && b.data == c.data ==> b == c
        invariant forall b :: b in owned ==> b.place == Free && b.IsIdle() && !b.error && b.dirtyBits == {} && !b.astray
        invariant forall a :: a in arrays ==> fresh(a)
      {
        var b := new Block(sectors * SECTOR_SIZE);
        list := list + [b];
        owned := owned + {b};
        arrays := arrays + {b.data};
      }
    }

    // The empty lists of io_manager_create.  The disks hold what they hold.
    constructor (sectors: nat, nrBlocks: nat, maxRequests: nat, onDisk: Contents, reliable: bool)
      requires 0 < sectors <= MAX_BLOCK_SECTORS && nrBlocks > 0
      ensures Valid() && fresh(blocks) && fresh(buffers) && |free| == nrBlocks == |blocks| && held == {}
      ensures nrIoPending == 0
      ensures maxIo == if nrBlocks < maxRequests then nrBlocks else maxRequests
      ensures blockSectors == sectors && disk == onDisk && logical == onDisk && rtree == map[]
      ensures this.reliable == reliable
    {
      hide Inv, Tidy;
      var list;
      ghost var owned, arrays;
      list, owned, arrays := FreeList(sectors, nrBlocks);
      blockSectors, maxIo := sectors, if nrBlocks < maxRequests then nrBlocks else maxRequests;
      this.reliable, blocks, buffers := reliable, owned, arrays;
      disk, logical := onDisk, onDisk;
      free, clean, dirty, errored, pending := list, [], [], [], [];
      rtree, cached, gone := map[], map[], {};
      nrLocked, nrIoPending, held := 0, 0, {};
      new;
      Initial();
    }

    lemma Initial()
      requires 0 < blockSectors <= MAX_BLOCK_SECTORS && disk == logical
      requires forall b :: b in blocks ==> b.data in buffers && b.data.Length == BlockSize()
      requires forall b, c :: b in blocks && c in blocks && b.data == c.data ==> b == c
      requires NoDup(free) && (forall b :: b in free ==> b in blocks) && (forall b :: b in blocks ==> b in free)
      requires forall b :: b in blocks ==> b.place == Free && b.IsIdle() && !b.error && b.dirtyBits == {} && !b.astray
      requires clean == dirty == errored == pending == [] && rtree == cached == map[] && gone == {}
      requires nrLocked == nrIoPending == 0 && held == {}
      ensures Valid()
    {
    }

    /** io_manager_create: refuses the sizes that _valid_block_size refuses. */
    static method Create(sectors: nat, nrBlocks: nat, pageSectors: nat, maxRequests: nat, onDisk: Contents,
        reliable: bool)
      returns (r: Option<IoManager>)
      requires pageSectors > 0
      ensures r.None? <==> nrBlocks == 0 || sectors == 0 || sectors % pageSectors != 0 || sectors > MAX_BLOCK_SECTORS
      ensures r.Some? ==> var iom := r.value;
        && fresh(iom) && fresh(iom.blocks) && fresh(iom.buffers) && iom.Valid()
        && iom.blockSectors == sectors && iom.logical == onDisk && iom.reliable == reliable
        && |iom.free| == nrBlocks == |iom.blocks| && iom.rtree == map[] && iom.held == {}
        && iom.nrIoPending == 0 && iom.maxIo == if nrBlocks < maxRequests then nrBlocks else maxRequests
    {
      if nrBlocks == 0 {
        return None;
      }
      if sectors == 0 || sectors % pageSectors != 0 || sectors > MAX_BLOCK_SECTORS {
        return None;
      }
      var iom := new IoManager(sectors, nrBlocks, maxRequests, onDisk, reliable);
      r := Some(iom);
    }

    // ----------------------------------------------------------------
    // Reachable states
    // ----------------------------------------------------------------

    /** Every block is on exactly one list. */
    lemma Conservation()
      requires Valid()
      ensures |free| + |clean| + |dirty| + |errored| + |pending| == |blocks|
      ensures forall b :: b in blocks ==> b in free || b in clean || b in dirty || b in errored || b in pending
      ensures forall b :: b in free ==> b !in clean && b !in dirty && b !in errored && b !in pending
      ensures forall b :: b in clean ==> b !in dirty && b !in errored && b !in pending
      ensures forall b :: b in dirty ==> b !in errored && b !in pending
      ensures forall b :: b in errored ==> b !in pending
    {
      hide ListIs, Index, DiskOnly, Holders, BlockOk;
      var at := Places();
      OnLists(free, clean, dirty, errored, pending, at);
      var all := free + clean + dirty + errored + pending;
      forall i | 0 <= i < |all| ensures all[i] in blocks {
        assert all[i] in all;
      }
      SizeIs(all, blocks);
      assert (forall b | b in all :: b in at) && forall b | b in at :: b in all;
    }

    /** The index names exactly the blocks that are not free, each under its own
        key; a block is pending exactly while it has requests; and the two
        counters are right. */
    lemma Counters()
      requires Valid()
      ensures forall b :: b in blocks ==> (b in free <==> b !in rtree.Values)
      ensures forall k :: k in rtree ==> rtree[k] in blocks && rtree[k].Key() == k
      ensures forall b :: b in blocks ==> (b in pending <==> b.ioPending) && (b.ioPending <==> b.ioCount > 0)
      ensures nrIoPending == |pending| && nrLocked == |set b | b in blocks && b.refCount > 0|
    {
      assert forall b :: b in blocks ==> Places()[b] == b.place;
      Values();
      forall b | b in blocks ensures (b in pending <==> b.ioPending) && (b.ioPending <==> b.ioCount > 0) {
        assert BlockOk(b);
      }
      assert held == set b | b in blocks && b.refCount > 0;
    }

    lemma Values()
      requires Valid()
      ensures forall b :: b in blocks ==> (b.place == Free <==> b !in rtree.Values)
      ensures forall k :: k in rtree ==> rtree[k] in blocks && rtree[k].Key() == k
    {
      forall b | b in blocks && b.place != Free ensures b in rtree.Values {
        assert b.Key() in rtree && rtree[b.Key()] == b;
      }
    }

    /** No block is held while the engine has a request for it, no two requests
        touch one sector, and only dirty sectors are written. */
    lemma Exclusion(b: Block)
      requires Valid() && b in blocks
      ensures b.refCount > 0 ==> b.inFlight == {} && !b.ioPending
      ensures forall q, r, s :: q in b.inFlight && r in b.inFlight && Covers(q, s) && Covers(r, s) ==> q == r
      ensures b.ioDir.Write? ==> forall r, s :: r in b.inFlight && Covers(r, s) ==> s in b.dirtyBits
      ensures |b.inFlight| == b.ioCount
    {
      assert BlockOk(b);
    }

    // ----------------------------------------------------------------
    // Lists
    // ----------------------------------------------------------------

    twostate lemma IndexKept(b: Block)
      requires old(Index()) && cached == old(cached) && IsIndexed(old(b.place)) && IsIndexed(b.place)
      requires forall c :: c in blocks ==> c.dev == old(c.dev) && c.index == old(c.index)
      requires forall c :: c in blocks && c != b ==> c.place == old(c.place)
      ensures Index()
    {
    }

    method Unthread(b: Block)
      modifies `clean, `dirty, `errored, `pending
      ensures clean == Without(old(clean), b) && dirty == Without(old(dirty), b)
      ensures errored == Without(old(errored), b) && pending == Without(old(pending), b)
    {
      clean, dirty := Without(clean, b), Without(dirty, b);
      errored, pending := Without(errored, b), Without(pending, b);
    }

    /** list_del: b leaves the list it is on. */
    method ListDel(b: Block)
      requires b in blocks && Core(b) && IsIndexed(b.place)
      modifies `clean, `dirty, `errored, `pending, b`place
      ensures Core(b) && b.place == Loose
      ensures clean == Without(old(clean), b) && dirty == Without(old(dirty), b)
      ensures errored == Without(old(errored), b) && pending == Without(old(pending), b)
      ensures old(b.place) != Clean ==> clean == old(clean)
      ensures old(b.place) != Dirty ==> dirty == old(dirty)
      ensures old(b.place) != Errored ==> errored == old(errored)
      ensures old(b.place) == Pending ==> |pending| == |old(pending)| - 1
      ensures old(b.place) != Pending ==> pending == old(pending)
    {
      hide BlockOk, ListIs, DiskOnly, Holders, Without, Storage, Index;
      Removed(free, clean, dirty, errored, pending, Places(), b);
      Unthread(b);
      b.place := Loose;
      IndexKept(b);
      assert Places() == old(Places())[b := Loose];
    }

    method AddClean(b: Block)
      requires b in blocks && Core(b) && b.place == Loose
      modifies `clean, b`place
      ensures Core(b) && b.place == Clean && clean == old(clean) + [b]
    {
      hide BlockOk, ListIs, DiskOnly, Holders, Without, Storage;
      Moved(free, clean, dirty, errored, pending, Places(), b, Clean);
      clean := clean + [b];
      b.place := Clean;
      assert Places() == old(Places())[b := Clean];
    }

    method AddDirty(b: Block)
      requires b in blocks && Core(b) && b.place == Loose
      modifies `dirty, b`place
      ensures Core(b) && b.place == Dirty && dirty == old(dirty) + [b]
    {
      hide BlockOk, ListIs, DiskOnly, Holders, Without, Storage;
      Moved(free, clean, dirty, errored, pending, Places(), b, Dirty);
      dirty := dirty + [b];
      b.place := Dirty;
      assert Places() == old(Places())[b := Dirty];
    }

    method AddErrored(b: Block)
      requires b in blocks && Core(b) && b.place == Loose
      modifies `errored, b`place
      ensures Core(b) && b.place == Errored && errored == old(errored) + [b]
    {
      hide BlockOk, ListIs, DiskOnly, Holders, Without, Storage;
      Moved(free, clean, dirty, errored, pending, Places(), b, Errored);
      errored := errored + [b];
      b.place := Errored;
      assert Places() == old(Places())[b := Errored];
    }

    method AddPending(b: Block)
      requires b in blocks && Core(b) && b.place == Loose
      modifies `pending, b`place
      ensures Core(b) && b.place == Pending && pending == old(pending) + [b]
    {
      hide BlockOk, ListIs, DiskOnly, Holders, Without, Storage;
      Moved(free, clean, dirty, errored, pending, Places(), b, Pending);
      pending := pending + [b];
      b.place := Pending;
      assert Places() == old(Places())[b := Pending];
    }

    method AddFree(b: Block)
      requires b in blocks && Core(b) && b.place == Detached
      modifies `free, b`place
      ensures Core(b) && b.place == Free && free == old(free) + [b]
    {
      hide BlockOk, ListIs, DiskOnly, Holders, Without, Storage;
      Moved(free, clean, dirty, errored, pending, Places(), b, Free);
      free := free + [b];
      b.place := Free;
      assert Places() == old(Places())[b := Free];
    }

    // ----------------------------------------------------------------
    // Completion
    // ----------------------------------------------------------------

    // What one finished request does to the disk or to the buffer.
    twostate predicate Transferred(e: Completion)
      reads this, e.block, e.block.data
    {
      var b := e.block;
      && (forall d: nat, i: nat, o: nat :: (d, i) != b.Key() || !Covers(e.run, SectorOf(o)) || b.ioDir.Read? ==>
           disk(d, i, o) == old(disk)(d, i, o))
      && (b.ioDir.Write? ==> b.data[..] == old(b.data[..]))
      && (e.ok ==> forall o: nat :: o < b.data.Length && Covers(e.run, SectorOf(o)) ==> disk(b.dev, b.index, o) == b.data[o])
    }

    method Transfer(e: Completion)
      requires e.run.sb < e.run.se && e.run.se * SECTOR_SIZE <= e.block.data.Length
      modifies `disk, e.block.data
      ensures Transferred(e)
    {
      var b := e.block;
      var garbage: Contents := *;
      var before := disk;
      if b.ioDir.Write? {
        disk := DiskAfter(before, (b.dev, b.index), e.run, if e.ok then b.data[..] else [], garbage);
      } else {
        forall o: nat | o < b.data.Length && Covers(e.run, SectorOf(o)) {
          b.data[o] := if e.ok then before(b.dev, b.index, o) else garbage(b.dev, b.index, o);
        }
      }
    }

    // The disk, once one more request of b has finished.
    ghost predicate Progressed(b: Block, failed: bool)
      reads `disk, `logical, b`dev, b`index, b`ioDir, b`dirtyBits, b`inFlight, b.data
    {
      if b.ioDir.Read? then
        && (failed ==> forall o :: 0 <= o < b.data.Length ==> disk(b.dev, b.index, o) == logical(b.dev, b.index, o))
        && (!failed ==> forall o :: 0 <= o < b.data.Length ==> b.data[o] == disk(b.dev, b.index, o) == logical(b.dev, b.index, o))
      else
        forall o :: 0 <= o < b.data.Length ==>
          && b.data[o] == logical(b.dev, b.index, o)
          && ((if failed then SectorOf(o) in b.dirtyBits else Covered(b.inFlight, SectorOf(o)))
              || disk(b.dev, b.index, o) == logical(b.dev, b.index, o))
    }

    // Without failures the dirty bits no longer matter.
    twostate lemma CleanedStill(b: Block)
      requires old(Progressed(b, false)) && b.inFlight == old(b.inFlight) && b.ioDir == old(b.ioDir)
      requires b.Key() == old(b.Key())
      requires unchanged(b.data) && disk == old(disk) && logical == old(logical)
      ensures Progressed(b, false)
    {
    }

    lemma CloseBlock(b: Block)
      requires InvBut(b) && b in blocks && (b.refCount == 0 || b.astray) && b.ioCount == |b.inFlight|
      requires b.RunsOk(blockSectors) && (b.ioDir.Read? ==> b.inFlight == {})
      requires forall s :: s in b.dirtyBits ==> s < blockSectors
      requires (b.ioPending <==> b.inFlight != {}) && (b.error ==> !reliable)
      requires b.astray || Progressed(b, b.error)
      requires b.ioDir.Write? && (b.ioPending || b.error) <==> b.dirtyBits != {}
      requires b.place == if b.ioPending then Pending else if b.error then Errored else Clean
      ensures Inv()
    {
      hide Lists, Index, DiskOnly, Holders;
      assert BlockOk(b);
    }

    lemma PendingNotEmpty(b: Block)
      requires Lists() && b in blocks && b.place == Pending
      ensures |pending| > 0
    {
      assert Places()[b] == Pending;
    }

    // The last request of b has finished.
    method Settle(b: Block)
      requires InvBut(b) && b in blocks && b.place == Pending
      modifies `clean, `errored, `pending, `dirty, `nrIoPending, b`ioPending, b`place, b`dirtyBits
      ensures InvBut(b) && !b.ioPending
      ensures b.place == if b.error then Errored else Clean
      ensures b.dirtyBits == if b.error then old(b.dirtyBits) else {}
      ensures dirty == old(dirty)
      ensures clean == if b.error then old(clean) else old(clean) + [b]
      ensures errored == if b.error then old(errored) + [b] else old(errored)
    {
      hide BlockOk, Lists, Index, DiskOnly, Holders, Storage, Without;
      PendingNotEmpty(b);
      b.ioPending := false;
      nrIoPending := nrIoPending - 1;
      ListDel(b);
      if b.error {
        AddErrored(b);
      } else {
        b.dirtyBits := {};
        AddClean(b);
      }
    }

    method Finish(b: Block, err: bool)
      requires InvBut(b) && b in blocks && b.place == Pending && b.ioPending && b.ioCount > 0
      modifies `clean, `errored, `pending, `dirty, `nrIoPending, b
      ensures InvBut(b) && b.Waited() && b.inFlight == old(b.inFlight) && b.ioCount == old(b.ioCount) - 1
      ensures b.error == (old(b.error) || err)
      ensures b.ioPending <==> b.ioCount > 0
      ensures b.place == if b.ioPending then Pending else if b.error then Errored else Clean
      ensures dirty == old(dirty) && old(clean) <= clean && old(errored) <= errored
    {
      hide BlockOk, Lists, Index, DiskOnly, Holders, Storage;
      if err && !b.error {
        b.error := true;
      }
      b.ioCount := b.ioCount - 1;
      if b.ioCount == 0 {
        Settle(b);
      }
    }

    method CompleteIo(b: Block, err: bool)
      requires InvBut(b) && b in blocks && b.place == Pending && b.ioPending && (b.refCount == 0 || b.astray)
      requires b.ioCount == |b.inFlight| + 1 && b.RunsOk(blockSectors) && (b.ioDir.Read? ==> b.inFlight == {})
      requires forall s :: s in b.dirtyBits ==> s < blockSectors
      requires (b.ioDir.Write? <==> b.dirtyBits != {}) && (b.error || err ==> !reliable)
      requires b.astray || Progressed(b, b.error || err)
      modifies `clean, `errored, `pending, `dirty, `nrIoPending, b
      ensures Inv()
      ensures b.Waited() && b.inFlight == old(b.inFlight)
      ensures b.error == (old(b.error) || err)
      ensures b.ioPending <==> b.inFlight != {}
      ensures dirty == old(dirty) && old(clean) <= clean && old(errored) <= errored
    {
      hide BlockOk, Lists, Index, DiskOnly, Holders, Storage, Progressed;
      Finish(b, err);
      if !b.error && !b.astray {
        CleanedStill(b);
      }
      CloseBlock(b);
    }

    // Nothing but b's bytes, on the disk or in the buffer, has changed.
    twostate lemma OnlyTransferred(b: Block)
      requires b in blocks && old(InvBut(b)) && IsIndexed(b.place)
      requires forall c :: c in blocks && c != b ==> unchanged(c)
      requires forall c :: c in blocks && c != b ==> unchanged(c.data)
      requires b.place == old(b.place) && b.refCount == old(b.refCount) && b.Key() == old(b.Key())
      requires unchanged(`free, `clean, `dirty, `errored, `pending, `rtree, `cached, `gone, `nrLocked, `held, `nrIoPending)
      requires forall d: nat, i: nat, o: nat :: (d, i) != b.Key() ==>
        disk(d, i, o) == old(disk)(d, i, o) && logical(d, i, o) == old(logical)(d, i, o)
      ensures InvBut(b)
    {
      hide Lists, Holders, Storage;
    }

    // How one finished request moves a block on.
    twostate lemma OneDone(e: Completion)
      requires e.block in blocks && old(BlockOk(e.block)) && Storage()
      requires e.run in old(e.block.inFlight) && e.block.inFlight == old(e.block.inFlight) - {e.run}
      requires unchanged(e.block`ioDir, e.block`dirtyBits, e.block`error, e.block`dev, e.block`index, e.block`place, `logical)
      requires unchanged(e.block`astray)
      requires Transferred(e)
      ensures e.block.astray || Progressed(e.block, e.block.error || !e.ok)
      ensures e.block.RunsOk(blockSectors) && (e.block.ioDir.Read? ==> e.block.inFlight == {})
      ensures |old(e.block.inFlight)| == |e.block.inFlight| + 1
    {
      var b := e.block;
      if b.ioDir.Read? {
        assert e.run == Run(0, blockSectors);
      } else {
        forall o | 0 <= o < b.data.Length ensures b.data[o] == old(b.data[o]) {
          assert b.data[o] == b.data[..][o];
        }
        forall o | 0 <= o < b.data.Length && !Covered(b.inFlight, SectorOf(o)) ensures
          Covered(old(b.inFlight), SectorOf(o)) ==> Covers(e.run, SectorOf(o)) {
        }
      }
    }

    lemma InFlightFacts(b: Block, r: Run)
      requires Inv() && b in blocks && r in b.inFlight
      ensures r.sb < r.se && r.se * SECTOR_SIZE <= b.data.Length
      ensures b.ioPending && b.place == Pending && (b.refCount == 0 || b.astray) && b.ioCount == |b.inFlight|
      ensures (b.ioDir.Write? <==> b.dirtyBits != {}) && (b.error ==> !reliable)
      ensures forall s :: s in b.dirtyBits ==> s < blockSectors
    {
      assert BlockOk(b);
    }

    // Different blocks have different buffers.
    lemma OwnData(b: Block)
      requires Storage() && b in blocks
      ensures b.data in buffers && forall c :: c in blocks && c != b ==> c.data != b.data
    {
    }

    // The engine reports one finished request.
    method CompleteOne(e: Completion)
      requires Inv() && e.block in blocks && e.run in e.block.inFlight && (e.ok || !reliable)
      modifies `disk, `clean, `errored, `pending, `dirty, `nrIoPending, e.block, e.block.data
      ensures Inv()
      ensures e.block.Waited() && e.block.inFlight == old(e.block.inFlight) - {e.run}
      ensures e.block.error == (old(e.block.error) || !e.ok)
      ensures dirty == old(dirty) && old(clean) <= clean && old(errored) <= errored
      ensures forall d: nat, i: nat, o: nat :: (d, i) != e.block.Key() || !Covers(e.run, SectorOf(o)) ==>
        disk(d, i, o) == old(disk)(d, i, o)
    {
      hide Lists, Index, DiskOnly, Holders, Storage, Coherent, Block.RunsOk, Progressed;
      var b := e.block;
      InFlightFacts(b, e.run);
      OwnData(b);
      Transfer(e);
      b.inFlight := b.inFlight - {e.run};
      OnlyTransferred(b);
      OneDone(e);
      CompleteIo(b, !e.ok);
    }

    ghost function InFlight(): set<(Block, Run)>
      reads blocks`inFlight
    {
      set b, r | b in blocks && r in b.inFlight :: (b, r)
    }

    // What waiting may do: requests finish, and nothing else.
    twostate predicate Waits()
      reads this, blocks, buffers
    {
      && Storage() && unchanged(`free, `dirty, `rtree, `cached, `gone, `nrLocked, `held, `logical)
      && old(clean) <= clean && old(errored) <= errored
      && (forall b :: b in blocks ==> b.Waited())
      && (forall b :: b in blocks && old(b.inFlight) == {} ==> unchanged(b))
      && InFlight() <= old(InFlight())
    }

    lemma PendingHasRequest(b: Block)
      requires Inv() && b in pending && !b.IsStuck()
      ensures b in blocks && b.inFlight != {} && b.ioPending
    {
      assert b in blocks && b.place == Pending;
      assert BlockOk(b);
    }

    // Some request is under way.
    predicate Busy()
      reads `pending, pending`inFlight
    {
      exists b :: b in pending && b.inFlight != {}
    }

    lemma BusyIs()
      requires Inv()
      ensures Busy() <==> InFlight() != {}
    {
      if Busy() {
        var b :| b in pending && b.inFlight != {};
        var r :| r in b.inFlight;
        assert b in Places() && (b, r) in InFlight();
      }
      if InFlight() != {} {
        var p :| p in InFlight();
        InFlightFacts(p.0, p.1);
        PendingListed(p.0);
      }
    }

    // Without stuck blocks, something is pending exactly while a request is under way.
    lemma BusyIsPending()
      requires Valid()
      ensures Busy() <==> pending != []
    {
      if pending != [] {
        assert pending[0] in pending && pending[0] in Places();
        PendingHasRequest(pending[0]);
      }
    }

    method CompleteAny()
      requires Inv() && Busy()
      modifies `disk, `clean, `errored, `pending, `dirty, `nrIoPending, blocks, buffers
      ensures Inv() && Waits() && InFlight() < old(InFlight())
    {
      hide Inv, Core, Block.RunsOk;
      var b :| b in pending && b.inFlight != {};
      BusyBlock(b);
      var r :| r in b.inFlight;
      var ok := *;
      Own(b);
      CompleteOne(Completion(b, r, ok || reliable));
      assert (b, r) in old(InFlight()) && (b, r) !in InFlight();
    }

    lemma BusyBlock(b: Block)
      requires Inv() && b in pending
      ensures b in blocks
    {
      assert b in Places();
    }

    lemma AllKept()
      requires Valid()
      ensures Kept()
    {
    }

    lemma StorageHolds()
      requires Inv()
      ensures Storage()
    {
    }

    lemma Own(b: Block)
      requires Inv() && b in blocks
      ensures Storage() && b.data in buffers && forall c :: c in blocks && c != b ==> c.data != b.data
    {
    }

    // The engine's wait: at least one request finishes.  With none under way it
    // never returns.
    method WaitIo() returns (hung: bool)
      requires Inv()
      modifies `disk, `clean, `errored, `pending, `dirty, `nrIoPending, blocks, buffers
      ensures Inv() && Waits() && (hung <==> old(InFlight()) == {})
      ensures if hung then unchanged(this) && forall b :: b in blocks ==> unchanged(b) else InFlight() < old(InFlight())
    {
      hide Inv, Busy;
      StorageHolds();
      BusyIs();
      if !Busy() {
        return true;
      }
      CompleteAny();
      CompleteMore();
      hung := false;
    }

    // Any number of requests finish.
    method CompleteMore()
      requires Inv()
      modifies `disk, `clean, `errored, `pending, `dirty, `nrIoPending, blocks, buffers
      ensures Inv() && Waits()
    {
      hide Inv, Busy;
      StorageHolds();
      var more := *;
      while more && Busy()
        invariant Inv() && Waits()
        decreases InFlight()
      {
        CompleteAny();
        more := *;
      }
    }

    /** _wait_all.  It never returns if and only if a stuck block is pending. */
    method WaitAll() returns (hung: bool)
      requires Inv()
      modifies `disk, `clean, `errored, `pending, `dirty, `nrIoPending, blocks, buffers
      ensures Inv() && Waits() && (hung <==> exists b :: b in blocks && old(b.IsStuck()))
      ensures if hung then pending != [] && InFlight() == {} else pending == []
    {
      hide Inv;
      StorageHolds();
      hung := false;
      while pending != [] && !hung
        invariant Inv() && Waits() && (hung ==> pending != [] && InFlight() == {})
        decreases !hung, InFlight()
      {
        hung := WaitIo();
      }
      if hung {
        HungIsStuck();
      } else {
        NoneStuck();
      }
    }

    // With something pending and no request, a block is stuck, and was.
    twostate lemma HungIsStuck()
      requires old(Inv()) && Inv() && Waits() && pending != [] && InFlight() == {}
      ensures exists b :: b in blocks && old(b.IsStuck())
    {
      hide Lists, Index, DiskOnly, Holders, Coherent;
      var b := pending[0];
      PendingIsIn(b);
      assert BlockOk(b) && b.Waited();
      forall r ensures r !in b.inFlight {
        assert (b, r) !in InFlight();
      }
      assert b.inFlight == {};
      assert old(b.IsStuck());
    }

    lemma PendingIsIn(b: Block)
      requires Inv() && b in pending
      ensures b in blocks && b.ioPending
    {
      assert b in Places() && BlockOk(b);
    }

    twostate lemma NoneStuck()
      requires old(Inv()) && Inv() && Waits() && pending == []
      ensures forall b :: b in blocks ==> !old(b.IsStuck())
    {
      hide Lists, Index, DiskOnly, Holders, Coherent;
      forall b | b in blocks ensures !old(b.IsStuck()) {
        assert old(BlockOk(b));
        NotPendingNow(b);
      }
    }

    method WaitSpecific(b: Block)
      requires Inv() && b in blocks && !b.IsStuck()
      modifies `disk, `clean, `errored, `pending, `dirty, `nrIoPending, blocks, buffers
      ensures Inv() && Waits() && !b.ioPending
    {
      hide Inv;
      StorageHolds();
      while b.ioPending
        invariant Inv() && Waits() && !b.IsStuck()
        decreases InFlight()
      {
        PendingListed(b);
        PendingHasRequest(b);
        var r :| r in b.inFlight;
        assert (b, r) in InFlight();
        var hung := WaitIo();
      }
    }

    lemma PendingListed(b: Block)
      requires Inv() && b in blocks && b.ioPending
      ensures b in pending
    {
      assert BlockOk(b) && Places()[b] == Pending;
    }

    // ----------------------------------------------------------------
    // Issuing requests
    // ----------------------------------------------------------------

    // The engine accepts the request.
    method IssueSectors(b: Block, sb: nat, se: nat)
      requires Run(sb, se) !in b.inFlight && b.ioCount == |b.inFlight|
      modifies b`ioCount, b`inFlight, b`issued
      ensures b.inFlight == old(b.inFlight) + {Run(sb, se)} && b.ioCount == |b.inFlight|
      ensures b.issued == old(b.issued) + [Run(sb, se)]
    {
      b.ioCount := b.ioCount + 1;
      b.inFlight := b.inFlight + {Run(sb, se)};
      b.issued := b.issued + [Run(sb, se)];
    }

    // The scans of _issue_partial_write and _zero_block.
    method SkipClear(bits: set<nat>, from: nat) returns (to: nat)
      requires from <= blockSectors
      ensures from <= to <= blockSectors && forall s :: from <= s < to ==> s !in bits
      ensures to < blockSectors ==> to in bits
    {
      to := from;
      while to < blockSectors && to !in bits
        invariant to <= blockSectors && forall s :: from <= s < to ==> s !in bits
      {
        to := to + 1;
      }
    }

    method SkipSet(bits: set<nat>, from: nat) returns (to: nat)
      requires from <= blockSectors
      ensures from <= to <= blockSectors && forall s :: from <= s < to ==> s in bits
      ensures to < blockSectors ==> to !in bits
    {
      to := from;
      while to < blockSectors && to in bits
        invariant to <= blockSectors && forall s :: from <= s < to ==> s in bits
      {
        to := to + 1;
      }
    }

    /** A request for each maximal run of dirty sectors, in order. */
    method IssuePartialWrite(b: Block) returns (ghost runs: seq<Run>)
      requires b.ioCount == 0 && b.inFlight == {}
      modifies b`ioCount, b`inFlight, b`issued
      ensures IsRunList(runs, b.dirtyBits, blockSectors)
      ensures b.inFlight == Elems(runs) && b.ioCount == |b.inFlight| && b.issued == old(b.issued) + runs
    {
      hide IsRunList, Elems;
      var sb := 0;
      runs := [];
      NoRuns(b.dirtyBits);
      assert Elems(runs) == {};
      while sb < blockSectors
        invariant sb <= blockSectors && IsRunList(runs, b.dirtyBits, sb)
        invariant b.inFlight == Elems(runs) && b.ioCount == |b.inFlight| && b.issued == old(b.issued) + runs
        invariant runs == [] || sb == blockSectors || sb !in b.dirtyBits
      {
        ghost var from := sb;
        sb := SkipClear(b.dirtyBits, sb);
        if sb >= blockSectors {
          RunListDone(runs, b.dirtyBits, from, sb);
          break;
        }
        var se := SkipSet(b.dirtyBits, sb + 1);
        AppendRun(runs, b.dirtyBits, from, sb, se);
        IssueSectors(b, sb, se);
        runs := runs + [Run(sb, se)];
        sb := se;
      }
    }

    method IssueWholeBlock(b: Block)
      requires b.ioCount == 0 && b.inFlight == {}
      modifies b`ioCount, b`inFlight, b`issued
      ensures b.inFlight == {Run(0, blockSectors)} && b.ioCount == 1 && b.issued == old(b.issued) + [Run(0, blockSectors)]
    {
      IssueSectors(b, 0, blockSectors);
    }

    // The disk, the buffer and the dirty bits are right for a read or a write.
    ghost predicate Loaded(b: Block, d: Dir)
      reads `disk, `logical, b`dev, b`index, b`dirtyBits, b.data
    {
      && (forall s :: s in b.dirtyBits ==> s < blockSectors)
      && (d.Read? <==> b.dirtyBits == {})
      && (d.Read? ==> forall o :: 0 <= o < b.data.Length ==> disk(b.dev, b.index, o) == logical(b.dev, b.index, o))
      && (d.Write? ==> forall o :: 0 <= o < b.data.Length ==> b.data[o] == logical(b.dev, b.index, o))
      && (d.Write? ==> forall o :: 0 <= o < b.data.Length ==>
           SectorOf(o) in b.dirtyBits || disk(b.dev, b.index, o) == logical(b.dev, b.index, o))
    }

    // b has nothing to write: the disk has it all.
    ghost predicate Bare(b: Block)
      reads `disk, `logical, b`dev, b`index, b`dirtyBits, b.data
    {
      b.dirtyBits == {} && forall o :: 0 <= o < b.data.Length ==> disk(b.dev, b.index, o) == logical(b.dev, b.index, o)
    }

    // b may be read, or written; if it has something to write, the buffer is right.
    ghost predicate Suits(b: Block, d: Dir)
      reads `disk, `logical, b`dev, b`index, b`dirtyBits, b.data
    {
      Loaded(b, d) || (d.Write? && Bare(b))
    }

    ghost predicate Ready(b: Block, d: Dir)
      reads `disk, `logical, b, b.data
    {
      && IsIndexed(b.place) && b.place != Pending && b.ioCount == 0 && b.inFlight == {} && !b.error
      && (b.refCount == 0 || b.astray) && Suits(b, d)
    }

    lemma Issued(b: Block)
      requires InvBut(b) && b in blocks && b.place == Pending && b.ioPending && !b.error && (b.refCount == 0 || b.astray)
      requires b.RunsOk(blockSectors) && (b.inFlight == {} <==> b.IsStuck()) && b.ioCount == |b.inFlight|
      requires Suits(b, b.ioDir)
      requires forall s :: s in b.dirtyBits ==> Covered(b.inFlight, s)
      ensures Inv()
    {
      hide Lists, Index, DiskOnly, Holders, Storage;
      assert BlockOk(b);
    }

    // Each run of dirty sectors has been issued, in order.
    twostate predicate RunsIssued(b: Block)
      reads b`inFlight, b`dirtyBits, b`issued
    {
      exists runs :: IsRunList(runs, b.dirtyBits, blockSectors) && b.inFlight == Elems(runs) && b.issued == old(b.issued) + runs
    }

    // A request to read a whole block, or to write each run of dirty sectors: for
    // a write of none, no request.
    method Request(b: Block)
      requires b.ioCount == 0 && b.inFlight == {} && 0 < blockSectors
      requires forall s :: s in b.dirtyBits ==> s < blockSectors
      requires b.ioDir.Read? ==> b.dirtyBits == {}
      modifies b`ioCount, b`inFlight, b`issued
      ensures b.RunsOk(blockSectors) && b.ioCount == |b.inFlight|
      ensures b.inFlight == {} <==> b.ioDir.Write? && b.dirtyBits == {}
      ensures forall s :: s in b.dirtyBits ==> Covered(b.inFlight, s)
      ensures b.ioDir.Write? ==> RunsIssued(b)
    {
      hide IsRunList, Elems, Block.RunsOk;
      ghost var runs;
      if b.ioDir == Write && b.dirtyBits != FullMask(blockSectors) {
        runs := IssuePartialWrite(b);
      } else {
        IssueWholeBlock(b);
        runs := [Run(0, blockSectors)];
        OneRun(FullMask(blockSectors), blockSectors);
      }
      if b.ioDir == Write {
        WriteRuns(b, runs);
      } else {
        ReadRun(b);
      }
    }

    lemma WriteRuns(b: Block, runs: seq<Run>)
      requires IsRunList(runs, b.dirtyBits, blockSectors) && b.inFlight == Elems(runs) && b.ioDir.Write?
      requires forall s :: s in b.dirtyBits ==> s < blockSectors
      ensures b.RunsOk(blockSectors) && (b.inFlight == {} <==> b.dirtyBits == {})
      ensures forall s :: s in b.dirtyBits ==> Covered(b.inFlight, s)
    {
      hide IsRunList, Elems;
      RunListCovers(runs, b.dirtyBits, blockSectors);
      if b.dirtyBits != {} {
        var s :| s in b.dirtyBits;
        assert Covered(b.inFlight, s);
      } else {
        forall r ensures r !in b.inFlight {
          assert r in b.inFlight ==> Covers(r, r.sb);
          assert !Covered(b.inFlight, r.sb);
        }
      }
    }

    lemma ReadRun(b: Block)
      requires 0 < blockSectors && b.inFlight == {Run(0, blockSectors)} && b.ioDir.Read? && b.dirtyBits == {}
      ensures b.RunsOk(blockSectors) && b.inFlight != {}
    {
    }

    lemma SomeSectors()
      requires Storage()
      ensures 0 < blockSectors
    {
    }

    lemma LoadedBits(b: Block, d: Dir)
      requires Suits(b, d)
      ensures forall s :: s in b.dirtyBits ==> s < blockSectors
      ensures d.Read? ==> b.dirtyBits == {}
    {
    }

    method MarkPending(b: Block, d: Dir)
      modifies `nrIoPending, b`ioDir, b`ioPending, b`writes
      ensures b.ioDir == d && b.ioPending && nrIoPending == old(nrIoPending) + 1
      ensures b.writes == old(b.writes) + if d.Write? then 1 else 0
    {
      b.ioDir := d;
      b.writes := b.writes + if d.Write? then 1 else 0;
      b.ioPending := true;
      nrIoPending := nrIoPending + 1;
    }

    method Issue(b: Block, d: Dir)
      requires InvBut(b) && b in blocks
      requires b.ioPending || Ready(b, d)
      modifies `clean, `dirty, `errored, `pending, `nrIoPending
      modifies b`ioDir, b`ioPending, b`place, b`ioCount, b`inFlight, b`writes, b`issued
      ensures InvBut(b) && (!old(b.ioPending) ==> Inv())
      ensures b.writes == old(b.writes) + if !old(b.ioPending) && d.Write? then 1 else 0
      ensures old(b.ioPending) ==> unchanged(b) && unchanged(`clean, `dirty, `errored, `pending)
      ensures !old(b.ioPending) ==> b.ioPending && b.place == Pending && b.ioDir == d
      ensures !old(b.ioPending) ==> (b.inFlight == {} <==> d.Write? && b.dirtyBits == {})
      ensures !old(b.ioPending) ==> dirty == Without(old(dirty), b) && errored == Without(old(errored), b)
      ensures old(b.place) != Clean ==> clean == old(clean)
      ensures old(b.place) != Errored ==> errored == old(errored)
      ensures !old(b.ioPending) ==> pending == old(pending) + [b]
      ensures !old(b.ioPending) && d.Write? ==> RunsIssued(b)
    {
      hide InvBut, Inv, Ready, Without, IsRunList, Elems;
      if b.ioPending {
        return;
      }
      IssueNow(b, d);
    }

    // Everything but the requests.
    method MoveToPending(b: Block, d: Dir)
      requires InvBut(b) && b in blocks && !b.ioPending && IsIndexed(b.place) && b.place != Pending
      modifies `clean, `dirty, `errored, `pending, `nrIoPending, b`ioDir, b`ioPending, b`place, b`writes
      ensures InvBut(b) && b.writes == old(b.writes) + (if d.Write? then 1 else 0)
      ensures b.ioPending && b.place == Pending && b.ioDir == d
      ensures dirty == Without(old(dirty), b) && errored == Without(old(errored), b) && pending == old(pending) + [b]
      ensures old(b.place) != Clean ==> clean == old(clean)
      ensures old(b.place) != Errored ==> errored == old(errored)
    {
      hide Lists, Index, DiskOnly, Holders, Without, BlockOk, Storage;
      MarkPending(b, d);
      ListDel(b);
      AddPending(b);
    }

    // b is at rest.
    method IssueNow(b: Block, d: Dir)
      requires InvBut(b) && b in blocks && !b.ioPending && Ready(b, d)
      modifies `clean, `dirty, `errored, `pending, `nrIoPending
      modifies b`ioDir, b`ioPending, b`place, b`ioCount, b`inFlight, b`writes, b`issued
      ensures InvBut(b) && Inv() && b.writes == old(b.writes) + if d.Write? then 1 else 0
      ensures b.ioPending && b.place == Pending && b.ioDir == d && (b.inFlight == {} <==> d.Write? && b.dirtyBits == {})
      ensures dirty == Without(old(dirty), b) && errored == Without(old(errored), b) && pending == old(pending) + [b]
      ensures old(b.place) != Clean ==> clean == old(clean)
      ensures old(b.place) != Errored ==> errored == old(errored)
      ensures d.Write? ==> RunsIssued(b)
    {
      hide Lists, Index, DiskOnly, Holders, Inv, Without, BlockOk, Block.RunsOk, IsRunList, Elems, Suits, Storage;
      SomeSectors();
      LoadedBits(b, d);
      MoveToPending(b, d);
      Request(b);
      Issued(b);
      AllButOne(b);
    }

    lemma LooseIsNotDirty(b: Block)
      requires InvBut(b) && b.place == Loose
      ensures b !in dirty
    {
    }

    method IssueRead(b: Block)
      requires InvBut(b) && b in blocks && !b.ioPending && Ready(b, Read) && b.place == Loose
      modifies `clean, `dirty, `errored, `pending, `nrIoPending
      modifies b`ioDir, b`ioPending, b`place, b`ioCount, b`inFlight, b`writes, b`issued
      ensures Inv() && b.ioPending && b.place == Pending && b.ioDir == Read && b.writes == old(b.writes)
      ensures clean == old(clean) && errored == old(errored) && dirty == old(dirty)
    {
      hide InvBut, Ready, Without;
      WithoutIs(dirty, b);
      LooseIsNotDirty(b);
      Issue(b, Read);
    }

    // A write may start, whatever became of the last one, and if there is nothing
    // to write.
    ghost predicate Writable(b: Block)
      reads `disk, `logical, b, b.data
    {
      IsIndexed(b.place) && b.place != Pending && b.ioCount == 0 && b.inFlight == {} && Suits(b, Write)
    }

    // All of b is on the disk but what is with the engine.
    ghost predicate Recovered(b: Block)
      reads `disk, `logical, b`dev, b`index, b`ioDir, b`inFlight, b.data
    {
      b.ioDir.Write? ==>
        forall o :: 0 <= o < b.data.Length && !Covered(b.inFlight, SectorOf(o)) ==> disk(b.dev, b.index, o) == logical(b.dev, b.index, o)
    }

    // To write b now is more than the cache can answer for: somebody holds it, or a
    // part of the write under way has failed and would be forgotten.
    ghost predicate Rash(b: Block)
      reads `disk, `logical, b, b.data
    {
      b.refCount > 0 || (b.ioPending && !Recovered(b))
    }

    /** _issue_write.  The error of a block that is pending is forgotten, and with
        it what the failed requests should have written.  A block with no dirty
        sectors is pending after that, with no request. */
    method IssueWrite(b: Block)
      requires InvBut(b) && b in blocks
      requires if b.ioPending then BlockOk(b) else Writable(b)
      modifies `clean, `dirty, `errored, `pending, `nrIoPending
      modifies b`error, b`ioDir, b`ioPending, b`place, b`ioCount, b`inFlight, b`writes, b`issued, b`astray
      ensures Inv() && InvBut(b) && !b.error && (b.astray <==> old(b.astray) || old(Rash(b)))
      ensures old(b.ioPending && !b.error && b.refCount == 0) ==> b.astray == old(b.astray)
      ensures b.writes == old(b.writes) + if old(b.ioPending) then 0 else 1
      ensures old(b.ioPending && !b.error) && b.astray == old(b.astray) ==> unchanged(b)
      ensures old(b.ioPending) ==> unchanged(`clean, `dirty, `errored, `pending)
      ensures old(b.ioPending) ==>
        b.ioPending && b.place == old(b.place) && b.ioDir == old(b.ioDir) && b.inFlight == old(b.inFlight) && b.ioCount == old(b.ioCount)
      ensures !old(b.ioPending) ==> b.ioPending && b.place == Pending && b.ioDir == Write
      ensures !old(b.ioPending) ==> (b.inFlight == {} <==> b.dirtyBits == {})
      ensures !old(b.ioPending) ==> dirty == Without(old(dirty), b) && errored == Without(old(errored), b)
      ensures old(b.place) != Clean ==> clean == old(clean)
      ensures old(b.place) != Errored ==> errored == old(errored)
      ensures !old(b.ioPending) ==> pending == old(pending) + [b]
      ensures !old(b.ioPending) ==> RunsIssued(b)
    {
      hide InvBut, Inv, Without, Suits, IsRunList, Elems, BlockOk, Recovered, Lists, Index, DiskOnly, Holders, Storage;
      Clear(b);
      Issue(b, Write);
      if old(b.ioPending) {
        Forgotten(b);
      }
    }

    method Clear(b: Block)
      requires InvBut(b)
      modifies b`error, b`astray
      ensures InvBut(b) && !b.error && (b.astray <==> old(b.astray) || old(Rash(b)))
    {
      if Rash(b) {
        b.astray := true;
      }
      b.error := false;
    }

    twostate lemma Forgotten(b: Block)
      requires b in blocks && old(InvBut(b)) && old(BlockOk(b)) && old(b.ioPending) && InvBut(b) && !b.error
      requires unchanged(`disk, `logical, b.data)
      requires unchanged(b`dev, b`index, b`place, b`ioPending, b`refCount, b`ioDir, b`ioCount, b`dirtyBits, b`inFlight)
      requires b.astray <==> old(b.astray) || old(Rash(b))
      ensures Inv()
      ensures old(!b.error && b.refCount == 0) ==> b.astray == old(b.astray)
    {
      hide Lists, Index, DiskOnly, Holders, Storage;
    }

    // ----------------------------------------------------------------
    // Write back
    // ----------------------------------------------------------------

    // What starting writes may do.
    twostate predicate Starts()
      reads this, blocks, buffers
    {
      && Storage() && unchanged(`disk, `logical, `rtree, `cached, `gone, `free, `clean, `errored, `nrLocked, `held)
      && (forall b :: b in blocks ==> b.MayHaveStarted())
    }

    lemma DirtyIsWritable(b: Block)
      requires Inv() && b in blocks && !b.ioPending && b.dirtyBits != {} && !b.Awaiting()
      requires IsIndexed(b.place) && !b.astray
      ensures InvBut(b) && Writable(b)
    {
      hide Lists, Index, DiskOnly, Holders;
      assert BlockOk(b);
    }

    lemma OnDirty(b: Block)
      requires Inv() && b in blocks
      ensures b in dirty <==> b.place == Dirty
      ensures b in dirty ==> !b.ioPending && (b.dirtyBits != {} || b.Awaiting()) && |Without(dirty, b)| == |dirty| - 1
      ensures NoDup(dirty)
      ensures forall c | c in dirty :: c in blocks && c.place == Dirty
    {
      assert Places()[b] == b.place;
      assert BlockOk(b);
      WithoutIs(dirty, b);
    }

    // Start writing one dirty block.
    method StartWrite(b: Block)
      requires Valid() && b in dirty && b.refCount == 0
      modifies `clean, `dirty, `errored, `pending, `nrIoPending, b
      ensures Valid() && Storage() && b.WriteStarted() && b.dirtyBits != {}
      ensures clean == old(clean) && errored == old(errored)
      ensures dirty == Without(old(dirty), b) && pending == old(pending) + [b]
    {
      hide Inv, InvBut, Without, Writable, RunsIssued;
      Listed(b);
      OnDirty(b);
      DirtyIsWritable(b);
      IssueWrite(b);
      StorageHolds();
    }

    lemma Listed(b: Block)
      requires Inv() && b in dirty
      ensures b in blocks && b.place == Dirty
    {
    }

    twostate lemma NoneStarted()
      requires unchanged(this) && forall b :: b in blocks ==> unchanged(b) && unchanged(b.data)
      ensures forall b :: b in blocks ==> b.MayHaveStarted()
    {
    }

    twostate lemma JustStarted(b: Block)
      requires b in blocks && old(b.place) == Dirty && b.dirtyBits != {} && b.WriteStarted()
      ensures b.MayHaveStarted()
    {
    }

    // One turn of the loop of _writeback: anything still in use stays.
    // Those of s that are in a set, in order.
    static ghost function Within(s: seq<Block>, some: set<Block>): seq<Block> {
      if s == [] then []
      else Within(s[..|s| - 1], some) + (if s[|s| - 1] in some then [s[|s| - 1]] else [])
    }

    // And those that are not.
    static ghost function Besides(s: seq<Block>, some: set<Block>): seq<Block> {
      if s == [] then []
      else Besides(s[..|s| - 1], some) + (if s[|s| - 1] in some then [] else [s[|s| - 1]])
    }

    // A walk over these dirty blocks has come to the rest: it has left those that are
    // held, and has made the others pending, all in order.
    static ghost predicate WalkedTo(rest: seq<Block>, before: seq<Block>, waiting: seq<Block>, held: set<Block>,
        dirty: seq<Block>, pending: seq<Block>)
    {
      && |rest| <= |before| && rest == before[|before| - |rest|..]
      && dirty == Within(before[..|before| - |rest|], held) + rest
      && pending == waiting + Besides(before[..|before| - |rest|], held)
    }

    // One block further.
    static lemma WalkOn(rest: seq<Block>, before: seq<Block>, waiting: seq<Block>, held: set<Block>, dirty: seq<Block>,
        pending: seq<Block>)
      requires rest != [] && WalkedTo(rest, before, waiting, held, dirty, pending) && NoDup(dirty)
      ensures if rest[0] in held then WalkedTo(rest[1..], before, waiting, held, dirty, pending)
              else WalkedTo(rest[1..], before, waiting, held, Without(dirty, rest[0]), pending + [rest[0]])
      ensures rest[0] !in held ==> |Without(dirty, rest[0])| == |dirty| - 1
    {
      var n := |before| - |rest|;
      assert before[..n + 1][..n] == before[..n];
      var i := |Within(before[..n], held)|;
      assert dirty[i] == rest[0];
      WithoutAt(dirty, i);
    }

    static lemma NoneWalked(dirty: seq<Block>, pending: seq<Block>, held: set<Block>)
      ensures WalkedTo(dirty, dirty, pending, held, dirty, pending)
    {
      assert dirty[..0] == [] && dirty[0..] == dirty;
    }

    // So many of them have been walked over.
    static ghost predicate Walked(n: nat, before: seq<Block>, waiting: seq<Block>, held: set<Block>, dirty: seq<Block>,
        pending: seq<Block>)
    {
      n <= |before| && dirty == Within(before[..n], held) + before[n..] && pending == waiting + Besides(before[..n], held)
    }

    twostate predicate InOrder()
      reads `dirty, `pending, `held
    {
      exists n: nat :: Walked(n, old(dirty), old(pending), held, dirty, pending)
    }

    static lemma WalkIs(rest: seq<Block>, before: seq<Block>, waiting: seq<Block>, held: set<Block>, dirty: seq<Block>,
        pending: seq<Block>)
      requires WalkedTo(rest, before, waiting, held, dirty, pending)
      ensures exists n: nat :: Walked(n, before, waiting, held, dirty, pending)
      ensures rest == [] ==> forall b :: b in dirty ==> b in held
    {
      assert Walked(|before| - |rest|, before, waiting, held, dirty, pending);
      WithinIs(before[..|before| - |rest|], held);
    }

    static lemma WithinIs(s: seq<Block>, some: set<Block>)
      ensures forall b :: b in Within(s, some) <==> b in s && b in some
    {
    }

    method WritebackNext(b: Block) returns (started: bool)
      requires Valid() && b in blocks && b.place == Dirty
      modifies `clean, `dirty, `errored, `pending, `nrIoPending, b
      ensures Valid() && (started <==> old(b.refCount) == 0)
      ensures if started then b.WriteStarted() && b.dirtyBits != {} && pending == old(pending) + [b] && dirty == Without(old(dirty), b)
              else unchanged(this) && unchanged(b)
      ensures clean == old(clean) && errored == old(errored)
    {
      hide Inv, Tidy;
      started := b.refCount == 0;
      if started {
        StillDirty(b);
        StartWrite(b);
      }
    }

    // The same, with the walk in view.
    method WalkStep(b: Block, ghost rest: seq<Block>, ghost before: seq<Block>, ghost waiting: seq<Block>) returns (started: bool)
      requires Valid() && b in blocks && b.place == Dirty
      requires rest != [] && rest[0] == b && WalkedTo(rest, before, waiting, held, dirty, pending)
      modifies `clean, `dirty, `errored, `pending, `nrIoPending, b
      ensures Valid() && (started <==> old(b.refCount) == 0)
      ensures WalkedTo(rest[1..], before, waiting, held, dirty, pending)
      ensures if started then b.WriteStarted() && b.dirtyBits != {} && pending != [] && |dirty| == |old(dirty)| - 1
              else unchanged(this) && unchanged(b)
      ensures clean == old(clean) && errored == old(errored)
    {
      hide Inv, Tidy, Without, WalkedTo;
      DirtyOnce(b);
      WalkOn(rest, before, waiting, held, dirty, pending);
      started := WritebackNext(b);
    }

    /** _writeback: up to count dirty blocks, none of them held, are written; the
        first on the list, in order. */
    method Writeback(count: nat) returns (actual: nat)
      requires Valid()
      modifies `clean, `dirty, `errored, `pending, `nrIoPending, blocks
      ensures Valid() && Starts() && InOrder()
      ensures actual <= count && |dirty| + actual == |old(dirty)|
      ensures actual < count ==> forall b :: b in dirty ==> b.refCount > 0
      ensures actual > 0 ==> pending != []
      ensures actual == 0 ==> unchanged(this) && forall b :: b in blocks ==> unchanged(b)
      ensures (forall b :: b in old(dirty) ==> old(b.refCount) > 0) ==> actual == 0
    {
      hide Inv, Tidy, Block.MayHaveStarted, Without, WalkedTo, Walked;
      StorageHolds();
      actual := 0;
      NoneStarted();
      // the walk is safe from the removal of the block it is at
      var rest := dirty;
      ghost var allHeld := forall b :: b in dirty ==> b.refCount > 0;
      NoneWalked(dirty, pending, held);
      while rest != []
        invariant actual <= count && Valid() && WalkedTo(rest, old(dirty), old(pending), held, dirty, pending)
        invariant clean == old(clean) && errored == old(errored) && |dirty| + actual == |old(dirty)|
        invariant if actual > 0 then pending != [] && !allHeld else unchanged(`dirty, `pending, `nrIoPending)
        invariant forall b :: b in blocks ==> b.MayHaveStarted() && (actual == 0 ==> unchanged(b))
        decreases |rest|
      {
        if actual == count {
          break;
        }
        var b := rest[0];
        NextIs(rest, old(dirty), old(pending));
        StillThere(b);
        var started := WalkStep(b, rest, old(dirty), old(pending));
        if started {
          JustStarted(b);
          actual := actual + 1;
        }
        rest := rest[1..];
      }
      WalkIs(rest, old(dirty), old(pending), held, dirty, pending);
      HeldIs();
    }

    lemma NextIs(rest: seq<Block>, before: seq<Block>, waiting: seq<Block>)
      requires Inv() && rest != [] && WalkedTo(rest, before, waiting, held, dirty, pending)
      ensures rest[0] in blocks && rest[0].place == Dirty && rest[0] in before
    {
      hide Index, DiskOnly, Holders, BlockOk;
      DirtyList();
      var n := |before| - |rest|;
      assert dirty[|Within(before[..n], held)|] == rest[0] && before[n] == rest[0];
    }

    // Had it been started, it would not be on the list.
    twostate lemma StillThere(b: Block)
      requires b.MayHaveStarted() && b.place == Dirty
      ensures unchanged(b) && old(b.place) == Dirty
    {
    }

    lemma DirtyOnce(b: Block)
      requires Inv()
      ensures NoDup(dirty) && (b in blocks ==> (b in held <==> b.refCount > 0))
    {
    }

    lemma StillDirty(b: Block)
      requires Inv() && b in blocks && b.place == Dirty
      ensures b in dirty
    {
      DirtyList();
    }

    lemma DirtyList()
      requires Inv()
      ensures NoDup(dirty)
      ensures forall b :: b in dirty ==> b in blocks && b.place == Dirty
      ensures forall b :: b in blocks && b.place == Dirty ==> b in dirty
    {
      assert forall b :: b in blocks ==> Places()[b] == b.place;
    }

    // ----------------------------------------------------------------
    // Allocation
    // ----------------------------------------------------------------

    // What any amount of caching leaves alone.
    twostate predicate Background()
      reads this, blocks, buffers
    {
      && Storage() && unchanged(`logical, `nrLocked, `held)
      && (forall b :: b in blocks && old(b.refCount) > 0 ==> unchanged(b) && b.data[..] == old(b.data[..]))
      && (forall k :: k in rtree && k in old(rtree) ==> rtree[k] == old(rtree[k]))
    }

    lemma HeldIsIdle(b: Block)
      requires Inv() && b in blocks && b.refCount > 0 && !b.astray
      ensures !b.ioPending && !b.error && b.place in {Clean, Dirty, Loose} && b.Key() in cached && cached[b.Key()] == b
    {
      assert BlockOk(b);
    }

    twostate lemma WaitsInBackground()
      requires old(Inv()) && old(Kept()) && Waits()
      ensures Background() && Kept()
    {
      hide Inv;
      forall b | b in blocks && old(b.refCount) > 0 ensures unchanged(b) && b.data[..] == old(b.data[..]) {
        assert !old(b.ioPending) by {
          HeldWasIdle(b);
        }
        assert b.Waited();
      }
    }

    twostate lemma HeldWasIdle(b: Block)
      requires old(Inv()) && b in blocks && old(b.refCount) > 0 && !old(b.astray)
      ensures !old(b.ioPending)
    {
      assert old(BlockOk(b));
    }

    twostate lemma StillTidy()
      requires old(Inv()) && old(Tidy()) && Inv() && Waits()
      ensures Tidy()
    {
      hide Inv, Placed;
      StillPlaced();
    }

    twostate lemma StillPlaced()
      requires old(Inv()) && old(Placed()) && Inv() && Waits()
      ensures Placed()
    {
      hide Lists, Index, DiskOnly, Holders, Coherent;
      forall b | b in blocks ensures b.place != Loose && b.place != Detached
        && !b.IsStuck() && (IsIndexed(b.place) && b.Awaiting() && !b.ioPending ==> b.place == Errored && b.dirtyBits == {}) {
        assert b.Waited() && BlockOk(b) && old(BlockOk(b));
      }
    }

    lemma AllButOne(b: Block)
      requires Inv()
      ensures InvBut(b)
    {
      hide Lists, Index, DiskOnly, Holders, BlockOk;
    }

    lemma FreeIsIdle(b: Block)
      requires Inv() && b in free
      ensures b in blocks && b.place == Free && b.IsIdle()
    {
      assert b in Places();
      assert BlockOk(b);
    }

    /** _alloc_block */
    method AllocBlock() returns (r: Option<Block>)
      requires Valid()
      modifies `free, blocks`place
      ensures r.None? ==> Valid() && unchanged(this) && forall c :: c in blocks ==> unchanged(c)
      ensures r.None? <==> old(free) == []
      ensures r.Some? ==> r.value == old(free)[0] && free == old(free)[1..]
      ensures r.Some? ==> var b := r.value;
        && b in blocks && InvBut(b) && TidyBut(b) && b.place == Detached && old(b.place) == Free && b.IsIdle()
        && forall c :: c in blocks && c != b ==> unchanged(c)
    {
      hide ListIs, Index, DiskOnly, Holders, BlockOk, Storage;
      if free == [] {
        return None;
      }
      var b := free[0];
      AllButOne(b);
      FreeIsIdle(b);
      Popped(free, clean, dirty, errored, pending, Places(), b);
      free := free[1..];
      b.place := Detached;
      assert Places() == old(Places())[b := Detached];
      IndexMoved(b);
      r := Some(b);
    }

    twostate lemma IndexMoved(b: Block)
      requires old(Index()) && cached == old(cached) && !IsIndexed(old(b.place)) && !IsIndexed(b.place)
      requires forall c :: c in blocks ==> c.dev == old(c.dev) && c.index == old(c.index)
      requires forall c :: c in blocks && c != b ==> c.place == old(c.place)
      ensures Index()
    {
    }

    // Nothing in b that the disk lacks.
    ghost predicate OnDisk(b: Block)
      reads `disk, `logical, b`dev, b`index
    {
      forall o :: 0 <= o < BlockSize() ==> disk(b.dev, b.index, o) == logical(b.dev, b.index, o)
    }

    // b's place in the index is given up.
    ghost method Forget(b: Block)
      requires b in blocks && InvBut(b) && b.place == Loose && (OnDisk(b) || b.Key() in gone)
      modifies `cached, b`place
      ensures InvBut(b) && b.place == Detached && cached == old(cached) - {b.Key()}
    {
      hide ListIs, Holders, BlockOk, Storage, Index, DiskOnly;
      Moved(free, clean, dirty, errored, pending, Places(), b, Detached);
      cached := cached - {(b.dev, b.index)};
      b.place := Detached;
      IndexWithout(b);
      assert Places() == old(Places())[b := Detached];
    }

    twostate lemma IndexWithout(b: Block)
      requires b in blocks && cached == old(cached) - {b.Key()} && old(Index()) && old(DiskOnly())
      requires OnDisk(b) || b.Key() in gone
      requires IsIndexed(old(b.place)) && !IsIndexed(b.place) && unchanged(`disk, `logical, `gone)
      requires forall c :: c in blocks ==> c.Key() == old(c.Key())
      requires forall c :: c in blocks && c != b ==> c.place == old(c.place)
      ensures Index() && DiskOnly()
    {
    }

    /** _block_remove */
    method BlockRemove(b: Block)
      requires b in blocks && InvBut(b) && TidyBut(b) && b.place == Loose && OnDisk(b)
      modifies `rtree, `cached, b`place
      ensures InvBut(b) && TidyBut(b) && b.place == Detached && rtree == old(rtree) - {b.Key()}
      ensures DirtySectors() <= old(DirtySectors())
    {
      hide Lists, Index, Holders, BlockOk, Storage, DiskOnly;
      rtree := rtree - {(b.dev, b.index)};
      Forget(b);
    }

    // The sectors whose bit is set, in the blocks of the index.
    ghost function DirtySectors(): iset<(BlockKey, nat)>
      reads `rtree, blocks`dirtyBits
    {
      iset p: (BlockKey, nat) | p.0 in rtree && rtree[p.0] in blocks && p.1 in rtree[p.0].dirtyBits
    }

    /** What is not dirty is on the disk. */
    lemma NotDirtyIsOnDisk(d: nat, i: nat, o: nat)
      requires Valid() && o < BlockSize() && ((d, i), SectorOf(o)) !in DirtySectors()
      ensures disk(d, i, o) == logical(d, i, o)
    {
      hide Lists, Holders;
      if (d, i) in rtree {
        assert BlockOk(rtree[(d, i)]);
      }
    }

    // These sectors of one block.
    ghost function SectorsOf(k: BlockKey, mask: set<nat>): iset<(BlockKey, nat)> {
      iset p: (BlockKey, nat) | p.0 == k && p.1 in mask
    }

    twostate lemma WaitsClean()
      requires Waits()
      ensures DirtySectors() <= old(DirtySectors())
    {
    }

    twostate lemma StartsClean()
      requires Starts()
      ensures DirtySectors() == old(DirtySectors())
    {
    }

    // Some clean block is not held.
    ghost predicate Spare()
      reads `clean, blocks`refCount
    {
      exists b :: b in blocks && b in clean && b.refCount == 0
    }

    // No block can be had at once.
    ghost predicate Starved()
      reads `free, `clean, blocks`refCount
    {
      free == [] && !Spare()
    }

    // Where the first of these blocks is that nobody holds; past the end when all are held.
    static ghost function FirstUnheld(s: seq<Block>): (i: nat)
      reads s`refCount
      ensures i <= |s| && (i < |s| ==> s[i].refCount == 0)
      ensures forall j :: 0 <= j < i ==> s[j].refCount > 0
    {
      if s == [] || s[0].refCount == 0 then 0 else 1 + FirstUnheld(s[1..])
    }

    // The block that is had at once: the first free one, and when there is none the
    // first clean one that nobody holds, which has gone unused for longest.
    ghost function Victim(): Block
      requires !Starved()
      reads `free, `clean, clean`refCount, blocks`refCount
    {
      if free != [] then free[0] else clean[FirstUnheld(clean)]
    }

    // The index without it.
    ghost function Room(): map<BlockKey, Block>
      requires !Starved()
      reads `free, `clean, `rtree, clean, blocks
    {
      if free != [] then rtree else rtree - {Victim().Key()}
    }

    // It has been given up, and nothing else has.
    twostate predicate IsVictim(b: Block)
      requires !old(Starved())
      reads `rtree, `free, `clean, `dirty
    {
      && b == old(Victim()) && rtree == old(Room()) && dirty == old(dirty)
      && free == (if old(free) == [] then [] else old(free)[1..])
      && clean == (if old(free) == [] then Without(old(clean), b) else old(clean))
    }

    // b has left the list it was on for the end of the one it belongs on.
    twostate predicate MovedToEnd(b: Block)
      reads `clean, `dirty, b`dirtyBits
    {
      && clean == Without(old(clean), b) + (if b.dirtyBits == {} then [b] else [])
      && dirty == Without(old(dirty), b) + (if b.dirtyBits == {} then [] else [b])
    }

    // It is the last on its list, and so the last to be given up.
    ghost predicate Newest(b: Block)
      reads `clean, `dirty, b`dirtyBits
    {
      if b.dirtyBits == {} then clean != [] && clean[|clean| - 1] == b else dirty != [] && dirty[|dirty| - 1] == b
    }

    /** _find_unused_clean_block */
    method FindUnusedCleanBlock() returns (r: Option<Block>)
      requires Valid()
      modifies `clean, `dirty, `errored, `pending, `rtree, `cached, blocks`place
      ensures r.None? ==> Valid() && unchanged(this) && forall c :: c in blocks ==> unchanged(c)
      ensures r.Some? <==> old(Spare())
      ensures r.Some? ==> var b := r.value;
        && b in blocks && InvBut(b) && TidyBut(b) && b.place == Detached && b in old(clean) && b.IsIdle()
        && old(b.place) == Clean && b.Key() in old(rtree) && old(rtree)[b.Key()] == b
        && rtree == old(rtree) - {b.Key()} && pending == old(pending)
        && forall c :: c in blocks && c != b ==> unchanged(c)
      // the first on the list that nobody holds, and nothing else leaves a list
      ensures r.Some? ==> var i := old(FirstUnheld(clean));
        && i < |old(clean)| && r.value == old(clean)[i]
        && clean == Without(old(clean), r.value) && dirty == old(dirty)
      ensures r.Some? && free == [] ==> IsVictim(r.value)
      ensures DirtySectors() <= old(DirtySectors())
    {
      hide Inv, InvBut, Without, Coherent, DirtySectors, FirstUnheld;
      var i := 0;
      while i < |clean|
        invariant i <= |clean|
        invariant forall j :: 0 <= j < i ==> clean[j].refCount > 0
      {
        var b := clean[i];
        if b.refCount == 0 {
          assert FirstUnheld(clean) == i;
          CleanIsSynced(b);
          AllButOne(b);
          IsNamed(b);
          Unlink(b);
          BlockRemove(b);
          return Some(b);
        }
        i := i + 1;
      }
      r := None;
    }

    lemma CleanIsSynced(b: Block)
      requires Inv() && Kept() && b in clean && b.refCount == 0
      ensures b in blocks && b.place == Clean && b.IsIdle() && OnDisk(b)
    {
      CleanPlaces();
      hide Lists, Index, DiskOnly, Holders;
      assert BlockOk(b);
    }

    lemma CleanPlaces()
      requires Inv()
      ensures forall b :: b in clean ==> b in blocks && b.place == Clean
    {
      hide Index, DiskOnly, Holders, BlockOk;
      forall b | b in clean ensures b in blocks && b.place == Clean {
        assert b in Places() && Places()[b] == Clean;
      }
    }

    /** _unlink_block */
    method Unlink(b: Block)
      requires b in blocks && InvBut(b) && IsIndexed(b.place) && b.place != Pending
      modifies `clean, `dirty, `errored, `pending, b`place
      ensures InvBut(b) && b.place == Loose && pending == old(pending)
      ensures clean == Without(old(clean), b) && dirty == Without(old(dirty), b) && errored == Without(old(errored), b)
      ensures old(b.place) != Clean ==> clean == old(clean)
      ensures old(b.place) != Dirty ==> dirty == old(dirty)
      ensures old(b.place) != Errored ==> errored == old(errored)
    {
      hide Core, Without;
      ListDel(b);
    }

    twostate lemma StartsInBackground()
      requires Starts()
      ensures Background()
    {
    }

    // b has just been given the key (d, i); nothing has been read yet.
    ghost predicate Newborn(b: Block, d: nat, i: nat)
      reads this, blocks, buffers
    {
      && b in blocks && InvBut(b) && TidyBut(b) && b.place == Loose && b.Key() == (d, i)
      && b.IsIdle() && !b.error && b.dirtyBits == {}
      && (forall o :: 0 <= o < BlockSize() ==> disk(d, i, o) == logical(d, i, o))
    }

    // The fields that _new_block sets.
    method Init(b: Block, d: nat, i: nat)
      modifies b`dev, b`index, b`ioPending, b`refCount, b`error, b`ioCount, b`dirtyBits
      ensures b.dev == d && b.index == i && !b.ioPending && b.refCount == 0 && !b.error && b.ioCount == 0
      ensures b.dirtyBits == {}
    {
      b.dev, b.index, b.ioPending := d, i, false;
      b.refCount, b.error, b.ioCount, b.dirtyBits := 0, false, 0, {};
    }

    method Rekey(b: Block, d: nat, i: nat)
      requires b in blocks && InvBut(b) && TidyBut(b) && b.place == Detached && b.IsIdle() && (d, i) !in rtree
      modifies b`dev, b`index, b`ioPending, b`refCount, b`error, b`ioCount, b`dirtyBits
      ensures InvBut(b) && TidyBut(b) && b.Key() == (d, i) && b.IsIdle() && !b.error && b.dirtyBits == {}
    {
      hide Lists, BlockOk, Storage, DiskOnly;
      Init(b, d, i);
    }

    twostate lemma IndexWith(b: Block)
      requires b in blocks && b.Key() !in old(cached) && cached == old(cached)[b.Key() := b]
      requires old(Index()) && !IsIndexed(old(b.place)) && IsIndexed(b.place)
      requires forall c :: c in blocks ==> c.Key() == old(c.Key())
      requires forall c :: c in blocks && c != b ==> c.place == old(c.place)
      ensures Index()
    {
    }

    lemma NotYetCached(k: BlockKey)
      requires DiskOnly() && Kept() && k !in cached
      ensures forall o :: 0 <= o < BlockSize() ==> disk(k.0, k.1, o) == logical(k.0, k.1, o)
    {
    }

    twostate lemma DiskOnlyMore()
      requires old(DiskOnly()) && unchanged(`disk, `logical, `gone) && forall k :: k in old(cached) ==> k in cached
      ensures DiskOnly()
    {
    }

    /** _block_insert */
    method BlockInsert(b: Block)
      requires b in blocks && InvBut(b) && TidyBut(b) && b.place == Detached && b.Key() !in rtree
      modifies `rtree, `cached, b`place
      ensures InvBut(b) && TidyBut(b) && b.place == Loose && rtree == old(rtree)[b.Key() := b]
      ensures forall o :: 0 <= o < BlockSize() ==> disk(b.dev, b.index, o) == logical(b.dev, b.index, o)
    {
      hide ListIs, BlockOk, Storage, Holders, Index, DiskOnly, Kept;
      NotYetCached((b.dev, b.index));
      Moved(free, clean, dirty, errored, pending, Places(), b, Loose);
      rtree, cached := rtree[(b.dev, b.index) := b], cached[(b.dev, b.index) := b];
      b.place := Loose;
      IndexWith(b);
      DiskOnlyMore();
      assert Places() == old(Places())[b := Loose];
    }

    // The second half of _new_block.
    method Adopt(b: Block, d: nat, i: nat)
      requires b in blocks && InvBut(b) && TidyBut(b) && b.place == Detached && b.IsIdle() && (d, i) !in rtree
      modifies `rtree, `cached, b
      ensures Newborn(b, d, i) && rtree == old(rtree)[(d, i) := b] && DirtySectors() <= old(DirtySectors())
    {
      hide InvBut, TidyBut;
      Rekey(b, d, i);
      BlockInsert(b);
    }

    // Nothing is under way, and no write can be started.
    ghost predicate Stalled()
      reads `dirty, `pending, blocks`refCount
    {
      pending == [] && forall b :: b in blocks && b in dirty ==> b.refCount > 0
    }

    // There are clean blocks, and all are held; and that will not change.
    ghost predicate Jammed()
      reads `free, `clean, `dirty, `pending, blocks`refCount
    {
      free == [] && clean != [] && !Spare() && Stalled()
    }

    // There is no block that could be given up, now or later.
    ghost predicate Exhausted()
      reads `free, `clean
    {
      free == [] && clean == []
    }

    method AwaitAny() returns (hung: bool)
      requires Valid()
      modifies `disk, `clean, `dirty, `errored, `pending, `nrIoPending, blocks, buffers
      ensures Valid() && Background() && dirty == old(dirty) && (hung <==> old(pending) == [])
      ensures if hung then unchanged(this) && forall b :: b in blocks ==> unchanged(b) else InFlight() < old(InFlight())
      ensures DirtySectors() <= old(DirtySectors())
    {
      hide Inv, Tidy, Busy, DirtySectors;
      AllKept();
      BusyIs();
      BusyIsPending();
      hung := WaitIo();
      WaitsClean();
      StillTidy();
      WaitsInBackground();
    }

    // Every clean block is held: wait for a request, having started some writes
    // when there is none.
    method MakeRoom() returns (hung: bool)
      requires Valid() && free == []
      modifies this, blocks, buffers
      ensures Valid() && Background() && rtree == old(rtree) && free == [] && DirtySectors() <= old(DirtySectors())
      ensures hung <==> old(Stalled())
      ensures hung ==> unchanged(this) && forall b :: b in blocks ==> unchanged(b)
      ensures !hung ==> |dirty| < |old(dirty)| || (dirty == old(dirty) && InFlight() < old(InFlight()))
      // sixteen writes are started, or as many as can be, unless a request is under way
      ensures if old(pending) != [] then dirty == old(dirty) else |old(dirty)| - |dirty| <= 16
      ensures old(pending) == [] && |old(dirty)| - |dirty| < 16 ==> forall b :: b in dirty ==> b in held
    {
      hide Inv, Tidy, DirtySectors, InOrder, Block.MayHaveStarted;
      StorageHolds();
      HeldIs();
      DirtyList();
      if pending == [] {
        var n := Writeback(16);
        HeldIs();
        DirtyList();
        StartsClean();
        StartsInBackground();
      }
      hung := AwaitAny();
    }

    // Neither free nor clean.
    predicate InUse(p: Place) { p != Free && p != Clean }

    twostate predicate InUseKept()
      reads `rtree, blocks
    {
      forall k :: k in old(rtree) && old(rtree)[k] in blocks && InUse(old(rtree[k].place)) ==>
        k in rtree && rtree[k] == old(rtree)[k] && unchanged(rtree[k])
    }

    // No buffer has been written.
    twostate predicate SameBytes()
      reads buffers
    {
      forall a :: a in buffers ==> a[..] == old(a[..])
    }

    // Wait for a block, and look again.
    method WaitAndFind() returns (got: Option<Block>, hung: bool)
      requires Valid() && free == [] && clean != [] && !Spare()
      modifies this, blocks, buffers
      ensures Background() && free == [] && DirtySectors() <= old(DirtySectors())
      ensures got.Some? ==> var b := got.value;
        && b in blocks && InvBut(b) && TidyBut(b) && b.place == Detached && b.IsIdle() && old(b.refCount) == 0
        && rtree == old(rtree) - {b.Key()}
      ensures got.None? ==> Valid() && rtree == old(rtree) && !Spare()
      ensures hung ==> got.None? && Jammed()
      ensures old(Stalled()) ==> hung
      ensures got.None? && !hung ==>
        |dirty| < |old(dirty)| || (dirty == old(dirty) && InFlight() < old(InFlight()))
    {
      hide Inv, InvBut, Tidy, TidyBut, Storage, Stalled, Spare, Without, FirstUnheld, IsVictim, SameBytes, DirtySectors;
      got := None;
      hung := MakeRoom();
      NoneSpare();
      if !hung && clean != [] {
        got := FindUnusedCleanBlock();
      }
    }

    // The loop of _new_block, once it has to wait.
    method AwaitClean() returns (got: Option<Block>, hung: bool)
      requires Valid() && free == [] && clean != [] && !Spare()
      modifies this, blocks, buffers
      ensures Background() && free == [] && DirtySectors() <= old(DirtySectors())
      ensures got.Some? ==> var b := got.value;
        && b in blocks && InvBut(b) && TidyBut(b) && b.place == Detached && b.IsIdle() && old(b.refCount) == 0
        && rtree == old(rtree) - {b.Key()}
      ensures got.None? ==> Valid() && rtree == old(rtree) && !Spare()
      ensures got.None? && !hung ==> clean == []
      ensures hung ==> got.None? && Jammed()
      ensures old(Jammed()) ==> hung
    {
      hide Inv, InvBut, Tidy, TidyBut, Storage, Stalled, Spare, Without, FirstUnheld, IsVictim, DirtySectors;
      StorageHolds();
      ghost var jammed := Jammed();
      got, hung := None, false;
      while clean != []
        invariant Valid() && Background() && rtree == old(rtree) && free == [] && !Spare()
        invariant DirtySectors() <= old(DirtySectors())
        invariant jammed ==> clean != [] && Stalled()
        decreases |dirty|, InFlight()
      {
        got, hung := WaitAndFind();
        if got.Some? || hung {
          return;
        }
      }
      return None, false;
    }

    // The loop of _new_block: its first turn, and the others.
    method Reclaim(canWait: bool) returns (got: Option<Block>, hung: bool)
      requires Valid() && free == []
      modifies this, blocks, buffers
      ensures Background() && DirtySectors() <= old(DirtySectors())
      ensures got.Some? ==> var b := got.value;
        && b in blocks && InvBut(b) && TidyBut(b) && b.place == Detached && b.IsIdle() && old(b.refCount) == 0
        && rtree == old(rtree) - {b.Key()}
      ensures free == [] && (got.None? ==> Valid() && rtree == old(rtree))
      ensures got.None? ==> !Spare()
      ensures got.None? && canWait && !hung ==> clean == []
      ensures hung ==> got.None? && canWait && Jammed() && old(clean) != []
      ensures canWait && old(Jammed()) ==> hung
      ensures old(clean) == [] ==> got.None? && !hung
      ensures !canWait && got.Some? ==> old(got.value.place) == Clean
      ensures !canWait ==> unchanged(`disk, `pending) && InUseKept()
      ensures old(Spare()) ==> got.Some?
      ensures !canWait && !old(Spare()) ==> got.None? && unchanged(this) && forall b :: b in blocks ==> unchanged(b)
      // at once: the first clean block that nobody holds, and only that
      ensures old(Spare()) ==> SameBytes() && IsVictim(got.value)
    {
      hide Inv, InvBut, Tidy, TidyBut, Storage, Stalled, Spare, Without, FirstUnheld, IsVictim, DirtySectors;
      StorageHolds();
      NoneSpare();
      if clean == [] {
        return None, false;
      }
      got := FindUnusedCleanBlock();
      hung := false;
      if got.None? && canWait {
        got, hung := AwaitClean();
      }
    }

    lemma NoneSpare()
      ensures clean == [] ==> !Spare()
    {
    }

    // The first half of _new_block.
    method Vacate(canWait: bool) returns (got: Option<Block>, hung: bool)
      requires Valid()
      modifies this, blocks, buffers
      ensures Background() && DirtySectors() <= old(DirtySectors())
      ensures got.Some? ==> var b := got.value;
        && b in blocks && InvBut(b) && TidyBut(b) && b.place == Detached && b.IsIdle() && (!canWait ==> !InUse(old(b.place)))
      ensures forall k :: k in rtree ==> k in old(rtree)
      ensures got.None? ==> Valid() && rtree == old(rtree) && free == [] && !Spare()
      ensures got.None? && canWait && !hung ==> clean == []
      ensures hung ==> got.None? && canWait && Jammed() && old(free) == [] && old(clean) != []
      ensures canWait && old(Jammed()) ==> hung
      ensures old(Exhausted()) ==> got.None? && !hung
      ensures !canWait ==> unchanged(`disk, `pending) && InUseKept()
      ensures !old(Starved()) ==> got.Some? && IsVictim(got.value) && SameBytes()
      ensures !canWait && old(Starved()) ==> got.None? && unchanged(this) && forall b :: b in blocks ==> unchanged(b)
    {
      hide Inv, InvBut, Tidy, TidyBut, Spare, Stalled, Without, FirstUnheld, DirtySectors;
      StorageHolds();
      hung := false;
      got := AllocBlock();
      if got.None? {
        got, hung := Reclaim(canWait);
      }
    }

    /** _new_block: a free block, or a clean one that nobody holds; when every
        clean block is held, wait for a write to finish, if that is allowed.
        When it need not wait it takes the clean block that has gone unused for
        longest, and no other block leaves the cache. */
    method NewBlock(d: nat, i: nat, canWait: bool) returns (r: Fetched)
      requires Valid() && (d, i) !in rtree
      modifies this, blocks, buffers
      ensures Background() && DirtySectors() <= old(DirtySectors())
      ensures r.Got? ==> Newborn(r.block, d, i) && (!canWait ==> !InUse(old(r.block.place)))
      ensures !r.Got? ==> Valid() && rtree == old(rtree)
      ensures !r.Got? ==> free == [] && !Spare()
      ensures r.Nothing? && canWait ==> clean == []
      ensures r.Hung? ==> canWait && Jammed() && old(free) == [] && old(clean) != []
      ensures canWait && old(Jammed()) ==> r.Hung?
      ensures old(Exhausted()) ==> r.Nothing?
      ensures !canWait ==> unchanged(`disk, `pending) && InUseKept()
      ensures !old(Starved()) ==> r.Got? && r.block == old(Victim()) && rtree == old(Room())[(d, i) := r.block]
      ensures !old(Starved()) ==> free == if old(free) == [] then [] else old(free)[1..]
      ensures !old(Starved()) ==>
        clean == (if old(free) == [] then Without(old(clean), r.block) else old(clean)) && dirty == old(dirty)
      ensures r.Got? ==> forall k :: k in rtree ==> k in old(rtree) || k == (d, i)
      ensures !old(Starved()) ==> SameBytes()
      ensures !canWait && old(Starved()) ==> r.Nothing? && unchanged(this) && forall b :: b in blocks ==> unchanged(b)
    {
      hide Inv, InvBut, Tidy, TidyBut, Newborn, Spare, Stalled, Without, FirstUnheld, DirtySectors, Room, Victim;
      var got, hung := Vacate(canWait);
      if got.None? {
        return if hung then Hung else Nothing;
      }
      Adopt(got.value, d, i);
      r := Got(got.value);
    }

    // ----------------------------------------------------------------
    // Getting and putting blocks
    // ----------------------------------------------------------------

    // b has no request under way and may go on the clean or the dirty list.
    ghost predicate Quiet(b: Block)
      reads `disk, `logical, b`dev, b`index, b`ioDir, b`ioPending, b`ioCount, b`error, b`refCount, b`dirtyBits, b`inFlight, b.data
    {
      AtRest(b) && Coherent(b)
    }

    ghost predicate AtRest(b: Block)
      reads b`ioDir, b`ioPending, b`ioCount, b`error, b`refCount, b`dirtyBits, b`inFlight
    {
      && !b.ioPending && b.ioCount == 0 && b.inFlight == {} && (b.error ==> b.refCount == 0 && !reliable)
      && (forall s :: s in b.dirtyBits ==> s < blockSectors)
      && (b.error && b.ioDir.Write? ==> b.dirtyBits != {})
    }

    lemma IsQuiet(b: Block)
      requires Inv() && b in blocks && IsIndexed(b.place) && !b.ioPending && !b.astray
      ensures Quiet(b) && InvBut(b) && Storage() && b.Key() in cached && cached[b.Key()] == b
    {
      hide Lists, DiskOnly, Holders, Coherent;
      assert BlockOk(b);
    }

    lemma QuietIsOk(b: Block)
      requires InvBut(b) && b in blocks && AtRest(b) && (b.astray || Coherent(b))
      requires b.place == if b.dirtyBits == {} then Clean else Dirty
      ensures Inv()
    {
      hide Lists, Index, DiskOnly, Holders, Coherent, Storage;
      assert BlockOk(b);
    }

    /** _link_block */
    method Link(b: Block)
      requires b in blocks && InvBut(b) && AtRest(b) && (b.astray || Coherent(b)) && b.place == Loose
      modifies `clean, `dirty, b`place
      ensures Inv() && b.place == if b.dirtyBits == {} then Clean else Dirty
      ensures clean == old(clean) + (if b.dirtyBits == {} then [b] else [])
      ensures dirty == old(dirty) + (if b.dirtyBits == {} then [] else [b])
    {
      hide Core, AtRest, Coherent;
      if b.dirtyBits != {} {
        AddDirty(b);
      } else {
        AddClean(b);
      }
      QuietIsOk(b);
    }

    /** _hit, but for the statistics: b goes to the end of its list. */
    method Hit(b: Block)
      requires b in blocks && Inv() && Tidy() && IsIndexed(b.place) && !b.ioPending
      modifies `clean, `dirty, `errored, `pending, b`place
      ensures Inv() && TidyBut(b) && b.place == if b.dirtyBits == {} then Clean else Dirty
      ensures pending == old(pending) && MovedToEnd(b)
    {
      hide Inv, InvBut, AtRest, Coherent, Without;
      IsQuiet(b);
      NotPending(b);
      Unlink(b);
      Link(b);
    }

    lemma NotPending(b: Block)
      requires Inv() && b in blocks && !b.ioPending
      ensures b.place != Pending
    {
      assert BlockOk(b);
    }

    // memset of the sectors sb..se of a block
    method ZeroSectors(b: Block, sb: nat, se: nat)
      requires sb <= se && se * SECTOR_SIZE <= b.data.Length
      modifies b.data
      ensures forall o :: 0 <= o < b.data.Length ==>
        b.data[o] == if sb <= SectorOf(o) < se then 0 else old(b.data[o])
    {
      forall o | sb * SECTOR_SIZE <= o < se * SECTOR_SIZE {
        b.data[o] := 0;
      }
    }

    /** _zero_block.  With part of a block to zero, a run is followed through
        the dirty bits and not through the mask: the result is right exactly
        when no such run leaves the mask. */
    method ZeroBlock(b: Block, mask: set<nat>) returns (ghost zeroed: set<nat>)
      requires b.data.Length == BlockSize() && forall s :: s in mask ==> s < blockSectors
      modifies b.data
      ensures forall o :: 0 <= o < b.data.Length ==> b.data[o] == if SectorOf(o) in zeroed then 0 else old(b.data[o])
      ensures ZeroedBelow(zeroed, mask, b.dirtyBits, blockSectors) && mask <= zeroed
      ensures zeroed == mask <==> KeepsDirtyRuns(mask, b.dirtyBits, blockSectors)
    {
      hide KeepsDirtyRuns, SectorOf, ZeroedBelow;
      if mask == FullMask(blockSectors) {
        OffsetsFit(blockSectors);
        ZeroSectors(b, 0, blockSectors);
        ZeroedAll(mask, b.dirtyBits, blockSectors);
        ZeroedIsMask(mask, mask, b.dirtyBits, blockSectors);
        return mask;
      }
      zeroed := {};
      var sb := 0;
      ZeroedNone(mask, b.dirtyBits);
      while sb < blockSectors
        invariant sb <= blockSectors && ZeroedBelow(zeroed, mask, b.dirtyBits, sb)
        invariant 0 < sb < blockSectors ==> sb !in b.dirtyBits
        invariant forall o :: 0 <= o < b.data.Length ==> b.data[o] == if SectorOf(o) in zeroed then 0 else old(b.data[o])
      {
        ghost var from := sb;
        sb := SkipClear(mask, sb);
        if sb >= blockSectors {
          ZeroedRest(zeroed, mask, b.dirtyBits, from, sb);
          break;
        }
        var se := SkipSet(b.dirtyBits, sb + 1);
        ZeroSectors(b, sb, se);
        ZeroedRun(zeroed, mask, b.dirtyBits, from, sb, se);
        zeroed := zeroed + (FullMask(se) - FullMask(sb));
        sb := se;
      }
      ZeroedIsMask(zeroed, mask, b.dirtyBits, blockSectors);
    }

    // Some sectors have been cleared, and the rest is as it was.
    twostate predicate PartlyZeroed(data: array<Byte>, zeroed: set<nat>)
      reads data
    {
      forall o :: 0 <= o < data.Length ==> data[o] == if SectorOf(o) in zeroed then 0 else old(data[o])
    }

    // The clearing half of _zero_block's callers: what is cleared is stored as zero,
    // unless the data is not there.
    method ClearSectors(b: Block, mask: set<nat>) returns (ghost zeroed: set<nat>)
      requires b in blocks && Storage() && forall s :: s in mask ==> s < blockSectors
      modifies `logical, b.data
      ensures mask <= zeroed && ZeroedBelow(zeroed, mask, b.dirtyBits, blockSectors)
      ensures b.dirtyBits == {} || mask == FullMask(blockSectors) ==> zeroed == mask
      ensures forall o :: 0 <= o < b.data.Length ==> b.data[o] == if SectorOf(o) in zeroed then 0 else old(b.data[o])
      ensures logical == if b.Awaiting() then old(logical) else ZeroedSectors(old(logical), b.Key(), zeroed, blockSectors)
    {
      zeroed := ZeroBlock(b, mask);
      if !b.Awaiting() {
        logical := ZeroedSectors(logical, (b.dev, b.index), zeroed, blockSectors);
      }
    }

    // What a get does to the block it has found: GF_ZERO clears the data and
    // either flag makes the mask dirty.  When only a part is cleared of a block that
    // has not been read, the rest is whatever was in the buffer.
    method Prepare(b: Block, flags: Flags, mask: set<nat>) returns (ghost zeroed: set<nat>)
      requires b in blocks && InvBut(b) && AtRest(b) && b.place == Loose && (flags.Writes() ==> b.refCount == 0)
      requires !b.astray
      requires Coherent(b) || (flags.zero && !b.Awaiting() && b.dirtyBits == {} && OnDisk(b))
      requires forall s :: s in mask ==> s < blockSectors
      modifies `logical, b`dirtyBits, b`astray, b.data
      ensures InvBut(b) && AtRest(b) && (b.astray || Coherent(b))
      ensures b.astray ==> exists o :: 0 <= o < b.data.Length && b.data[o] != logical(b.dev, b.index, o)
      ensures old(Coherent(b)) || mask == FullMask(blockSectors) ==> !b.astray
      ensures flags.zero ==> mask <= zeroed <= b.dirtyBits && ZeroedBelow(zeroed, mask, old(b.dirtyBits), blockSectors)
      ensures flags.zero && (old(b.dirtyBits) == {} || mask == FullMask(blockSectors)) ==> zeroed == mask
      ensures logical == if flags.zero && !b.Awaiting() then ZeroedSectors(old(logical), b.Key(), zeroed, blockSectors) else old(logical)
      ensures b.dirtyBits == old(b.dirtyBits) + if flags.Writes() then mask else {}
      ensures !flags.zero ==> b.data[..] == old(b.data[..])
      ensures flags.zero ==> PartlyZeroed(b.data, zeroed)
    {
      hide Lists, Index, DiskOnly, Holders, BlockOk;
      OwnData(b);
      OffsetsFit(blockSectors);
      zeroed := {};
      if flags.zero {
        zeroed := ClearSectors(b, mask);
      }
      if flags.Writes() {
        b.dirtyBits := b.dirtyBits + mask;
      }
      if exists o :: 0 <= o < b.data.Length && b.data[o] != logical(b.dev, b.index, o) && !b.Awaiting() {
        b.astray := true;
      }
      OnlyTransferred(b);
    }

    // A block that is in the cache: wait for it, or count a hit.
    method AwaitOrHit(b: Block)
      requires Valid() && b in blocks && IsIndexed(b.place)
      modifies `disk, `clean, `dirty, `errored, `pending, `nrIoPending, blocks, buffers
      ensures Inv() && TidyBut(b) && !b.ioPending && IsIndexed(b.place)
      ensures Background() && b.Key() == old(b.Key()) && b.refCount == old(b.refCount)
      ensures b.ioDir == old(b.ioDir) && b.dirtyBits <= old(b.dirtyBits)
      ensures !old(b.ioPending) ==> b.error == old(b.error) && b.dirtyBits == old(b.dirtyBits)
      ensures !old(b.ioPending) ==> forall c :: c in blocks && c != b ==> unchanged(c)
      ensures !old(b.ioPending) ==> MovedToEnd(b)
      ensures DirtySectors() <= old(DirtySectors())
    {
      hide Inv, DirtySectors, Without;
      StorageHolds();
      if b.ioPending {
        WaitSpecific(b);
        WaitsClean();
        StillTidy();
        WaitsInBackground();
      } else {
        if b.refCount > 0 {
          HeldPlace(b);
        }
        Hit(b);
      }
    }

    // The same, and then unlink it.
    method AwaitHit(b: Block)
      requires Valid() && b in blocks && IsIndexed(b.place)
      modifies `disk, `clean, `dirty, `errored, `pending, `nrIoPending, blocks, buffers
      ensures InvBut(b) && TidyBut(b) && b.place == Loose && AtRest(b) && Coherent(b)
      ensures unchanged(`logical, `nrLocked, `held) && b.Key() == old(b.Key()) && b.refCount == old(b.refCount)
      ensures b.refCount > 0 ==> b.dirtyBits == old(b.dirtyBits) && b.data[..] == old(b.data[..])
      ensures forall c :: c in blocks && c != b && old(c.refCount) > 0 ==> unchanged(c) && c.data[..] == old(c.data[..])
      ensures b.ioDir == old(b.ioDir) && b.dirtyBits <= old(b.dirtyBits)
      ensures !old(b.ioPending) ==> b.error == old(b.error) && b.dirtyBits == old(b.dirtyBits)
      ensures !old(b.ioPending) ==> forall c :: c in blocks && c != b ==> unchanged(c)
      ensures !old(b.ioPending) ==> clean == Without(old(clean), b) && dirty == Without(old(dirty), b)
      ensures DirtySectors() <= old(DirtySectors())
    {
      hide Inv, InvBut, AtRest, Coherent, Without, DirtySectors;
      WithoutTwice(clean, b);
      WithoutTwice(dirty, b);
      AwaitOrHit(b);
      NotPending(b);
      IsQuiet(b);
      Unlink(b);
    }

    lemma HeldPlace(b: Block)
      requires Inv() && Tidy() && b in blocks && b.refCount > 0
      ensures b.place == if b.dirtyBits == {} then Clean else Dirty
    {
      assert BlockOk(b);
    }

    // The read of a block that was not in the cache is under way.
    method StartRead(b: Block, d: nat, i: nat)
      requires Newborn(b, d, i)
      modifies `clean, `dirty, `errored, `pending, `nrIoPending
      modifies b`ioDir, b`ioPending, b`place, b`ioCount, b`inFlight, b`writes, b`issued
      ensures Valid() && b in blocks && b.ioPending && IsIndexed(b.place) && b.ioDir.Read? && b.dirtyBits == {}
      ensures b.Key() == (d, i) && b.refCount == 0 && (d, i) in rtree && rtree[(d, i)] == b
    {
      hide Inv, InvBut, Loaded;
      NewbornAtRest(b, d, i);
      NewbornReady(b, d, i);
      IssueRead(b);
    }

    // A block that was not in the cache: read it.
    method ReadMiss(b: Block, d: nat, i: nat)
      requires Newborn(b, d, i)
      modifies `disk, `clean, `dirty, `errored, `pending, `nrIoPending, blocks, buffers
      ensures InvBut(b) && TidyBut(b) && b.place == Loose && AtRest(b) && Coherent(b)
      ensures unchanged(`logical, `nrLocked, `held) && b.Key() == (d, i) && b.refCount == 0 && b.ioDir.Read?
      ensures b.dirtyBits == {} && DirtySectors() <= old(DirtySectors())
      ensures forall c :: c in blocks && c != b && old(c.refCount) > 0 ==> unchanged(c) && c.data[..] == old(c.data[..])
    {
      hide Inv, InvBut, Tidy, TidyBut, AtRest, Coherent, Newborn, DirtySectors;
      NewbornAtRest(b, d, i);
      StartRead(b, d, i);
      AwaitHit(b);
    }

    lemma OwnSize(b: Block)
      requires InvBut(b) && b in blocks
      ensures b.data.Length == BlockSize() && Storage()
    {
    }

    // A get can find this block without waiting.
    ghost predicate Available(d: nat, i: nat, writes: bool)
      reads `rtree, blocks
    {
      (d, i) in rtree && var b := rtree[(d, i)]; b in blocks && !b.ioPending && !b.error && (writes ==> b.refCount == 0)
    }

    ghost predicate CleanAt(d: nat, i: nat)
      reads `rtree, blocks
    {
      (d, i) in rtree && var b := rtree[(d, i)]; b in blocks && !b.ioPending && !b.error && b.dirtyBits == {}
    }

    // Only the block of this key may have been changed, and it is at rest.
    twostate predicate HitOnly(d: nat, i: nat, writes: bool)
      reads this, blocks
    {
      && unchanged(`rtree) && (d, i) in rtree
      && var b := rtree[(d, i)];
        && b in blocks && !b.ioPending && !b.error && (!writes ==> b.dirtyBits == old(b.dirtyBits))
        && forall c :: c in blocks && c != b ==> unchanged(c)
    }

    lemma RestIsNotPending(b: Block)
      requires AtRest(b)
      ensures !b.ioPending
    {
    }

    // Between calls, but for x, of which perhaps nothing is promised.
    ghost predicate TidyAround(x: Block)
      reads `rtree, `cached, `gone, blocks
    {
      && rtree == cached && gone == {}
      && (forall b :: b in blocks && b != x ==> b.place != Loose && b.place != Detached && !b.astray)
      && (forall b :: b in blocks ==> !b.IsStuck())
      && (forall b :: b in blocks && b != x && IsIndexed(b.place) && b.Awaiting() && !b.ioPending ==>
           b.place == Errored && b.dirtyBits == {})
    }

    // Mark the block that a get has found, and list it.
    method Relink(b: Block, flags: Flags, mask: set<nat>) returns (ghost zeroed: set<nat>)
      requires b in blocks && InvBut(b) && TidyBut(b) && AtRest(b) && b.place == Loose
      requires flags.Writes() ==> b.refCount == 0
      requires Coherent(b) || (flags.zero && !b.Awaiting() && b.dirtyBits == {} && OnDisk(b))
      requires forall s :: s in mask ==> s < blockSectors
      modifies `logical, `clean, `dirty, b`dirtyBits, b`place, b`astray, b.data
      ensures Inv() && TidyAround(b) && b.place in {Clean, Dirty} && !b.ioPending
      ensures b.astray ==> exists o :: 0 <= o < b.data.Length && b.data[o] != logical(b.dev, b.index, o)
      ensures old(Coherent(b)) || mask == FullMask(blockSectors) ==> !b.astray
      ensures flags.zero ==> mask <= zeroed <= b.dirtyBits && ZeroedBelow(zeroed, mask, old(b.dirtyBits), blockSectors)
      ensures flags.zero && (old(b.dirtyBits) == {} || mask == FullMask(blockSectors)) ==> zeroed == mask
      ensures logical == if flags.zero && !b.Awaiting() then ZeroedSectors(old(logical), b.Key(), zeroed, blockSectors) else old(logical)
      ensures b.dirtyBits == old(b.dirtyBits) + if flags.Writes() then mask else {}
      ensures !flags.zero ==> b.data[..] == old(b.data[..])
      ensures flags.zero ==> PartlyZeroed(b.data, zeroed)
      ensures clean == old(clean) + (if b.dirtyBits == {} then [b] else [])
      ensures dirty == old(dirty) + (if b.dirtyBits == {} then [] else [b])
      ensures DirtySectors() <= old(DirtySectors()) + SectorsOf(b.Key(), if flags.Writes() then mask else {})
    {
      hide Inv, InvBut, AtRest, Coherent, OnDisk, ZeroedSectors, ZeroedBelow, PartlyZeroed;
      RestIsNotPending(b);
      KeptBut(b);
      OnlyItsKey(b);
      zeroed := Prepare(b, flags, mask);
      Link(b);
    }

    lemma OnlyItsKey(b: Block)
      requires InvBut(b) && TidyBut(b)
      ensures forall k :: k in rtree && rtree[k] == b ==> k == b.Key()
    {
    }

    lemma KeptBut(b: Block)
      requires TidyBut(b) && b in blocks
      ensures !b.astray
    {
    }

    // The index has the block, and somebody holds it.
    ghost predicate Taken(d: nat, i: nat)
      reads `rtree, blocks`refCount
    {
      (d, i) in rtree && rtree[(d, i)] in blocks && rtree[(d, i)].refCount > 0
    }

    // The last request for a block of this key has failed.
    ghost predicate Faulty(d: nat, i: nat)
      reads blocks`dev, blocks`index, blocks`error
    {
      exists b :: b in blocks && b.Key() == (d, i) && b.error
    }

    // Why this block cannot be had.
    ghost predicate Refused(d: nat, i: nat, writes: bool)
      reads `free, `clean, `rtree, blocks
    {
      (writes && Taken(d, i)) || Exhausted() || Faulty(d, i)
    }

    // A write of this block has failed, and it is waiting to be written again.
    ghost predicate LostWrite(d: nat, i: nat)
      reads `rtree, blocks
    {
      (d, i) in rtree && var b := rtree[(d, i)]; b in blocks && !b.ioPending && b.error && b.ioDir.Write?
    }

    // A read of this block, for a prefetch, has failed.
    ghost predicate LostRead(d: nat, i: nat)
      reads `rtree, blocks`ioPending, blocks`error, blocks`ioDir, blocks`dirtyBits
    {
      (d, i) in rtree && var b := rtree[(d, i)]; b in blocks && !b.ioPending && b.error && b.ioDir.Read? && b.dirtyBits == {}
    }

    // It is being read.
    ghost predicate Fetching(d: nat, i: nat)
      reads `rtree, blocks`ioPending, blocks`error, blocks`ioDir, blocks`dirtyBits
    {
      (d, i) in rtree && var b := rtree[(d, i)]; b in blocks && b.ioPending && !b.error && b.ioDir.Read? && b.dirtyBits == {}
    }

    // A request for this block is under way.
    ghost predicate UnderWay(d: nat, i: nat)
      reads `rtree, blocks
    {
      (d, i) in rtree && rtree[(d, i)] in blocks && rtree[(d, i)].ioPending
    }

    // The block of the key, once it is at rest; and how it comes to be there.
    twostate predicate Found(new b: Block, d: nat, i: nat)
      reads `rtree, b, blocks
    {
      && (d, i) in rtree && rtree[(d, i)] == b
      && (old(UnderWay(d, i)) || (if (d, i) in old(rtree) then b == old(rtree[(d, i)]) && b.error == old(b.error) && b.ioDir == old(b.ioDir)
          else b.error ==> b.ioDir.Read?))
    }

    // The block, on no list, with no request under way.
    method Obtain(d: nat, i: nat, flags: Flags) returns (r: Fetched)
      requires Valid()
      modifies this, blocks, buffers
      ensures unchanged(`logical, `nrLocked, `held)
      ensures !r.Got? ==> Valid()
      ensures r.Got? ==> var b := r.block;
        && b in blocks && InvBut(b) && TidyBut(b) && b.Key() == (d, i) && b.place == Loose && AtRest(b)
        && (Coherent(b) || (flags.zero && (d, i) !in old(rtree) && !b.Awaiting() && !b.error && b.dirtyBits == {} && OnDisk(b))) && Found(b, d, i)
        && (flags.Writes() ==> b.refCount == 0)
        && b.refCount == old(b.refCount) && (b.refCount > 0 ==> old(b.Key()) == (d, i))
        && (b.refCount > 0 ==> b.dirtyBits == old(b.dirtyBits) && b.data[..] == old(b.data[..]))
        && ((d, i) !in old(rtree) ==> b.dirtyBits == {})
        && ((d, i) in old(rtree) && !old(UnderWay(d, i)) ==> b.dirtyBits == old(rtree[(d, i)].dirtyBits))
      ensures forall c :: c in blocks && old(c.refCount) > 0 && (r.Got? ==> c != r.block) ==>
        unchanged(c) && c.data[..] == old(c.data[..])
      ensures r.Nothing? ==>
        (flags.Writes() && old(Taken(d, i)) && Taken(d, i)) || ((d, i) !in old(rtree) && (d, i) !in rtree && Exhausted())
      ensures r.Hung? ==> (d, i) !in old(rtree) && (d, i) !in rtree && Jammed() && old(free) == [] && old(clean) != []
      ensures (d, i) !in old(rtree) && old(Jammed()) ==> r.Hung?
      ensures ((d, i) !in old(rtree) && old(Exhausted())) || (flags.Writes() && old(Taken(d, i))) ==> r.Nothing?
      ensures old(Available(d, i, flags.Writes())) ==> HitOnly(d, i, false) && r == Got(rtree[(d, i)])
      ensures (d, i) !in old(rtree) && !old(Starved()) ==> r.Got? && (flags.zero ==> !r.block.error && SameBytes())
      ensures DirtySectors() <= old(DirtySectors()) && (!r.Got? || (d, i) in old(rtree) ==> rtree == old(rtree))
      ensures (d, i) !in old(rtree) && !old(Starved()) ==>
        r.block == old(Victim()) && rtree == old(Room())[(d, i) := r.block]
      ensures old(Available(d, i, flags.Writes())) ==>
        clean == Without(old(clean), r.block) && dirty == Without(old(dirty), r.block)
    {
      hide Inv, InvBut, Tidy, TidyBut, AtRest, Coherent, OnDisk, Without, Newborn, Jammed, DirtySectors, Victim, Room;
      var b;
      if (d, i) in rtree {
        b := rtree[(d, i)];
        Indexed((d, i));
        if b.refCount > 0 && flags.Writes() {
          return Nothing;
        }
        AwaitHit(b);
      } else {
        r := NewBlock(d, i, true);
        if !r.Got? {
          return;
        }
        b := r.block;
        NewbornAtRest(b, d, i);
        if !flags.zero {
          ReadMiss(b, d, i);
        }
      }
      IsNamed(b);
      RestIsNotPending(b);
      r := Got(b);
    }

    lemma IsNamed(b: Block)
      requires InvBut(b) && TidyBut(b) && b in blocks && IsIndexed(b.place)
      ensures b.Key() in rtree && rtree[b.Key()] == b
    {
    }

    /** _lookup_or_read_block */
    method LookupOrReadBlock(d: nat, i: nat, flags: Flags, mask: set<nat>) returns (r: Fetched, ghost zeroed: set<nat>)
      requires Valid() && forall s :: s in mask ==> s < blockSectors
      modifies this, blocks, buffers
      ensures !r.Got? ==> Valid() && logical == old(logical)
      ensures r.Got? ==> var b := r.block;
        && b in blocks && Inv() && TidyAround(b) && b.Key() == (d, i) && b.place in {Clean, Dirty} && !b.ioPending
        && logical == (if flags.zero && !b.Awaiting() then ZeroedSectors(old(logical), (d, i), zeroed, blockSectors) else old(logical))
        && (flags.zero ==> mask <= zeroed <= b.dirtyBits)
        && (flags.zero && ((d, i) !in old(rtree) || mask == FullMask(blockSectors)) ==> zeroed == mask)
        && (flags.zero && (d, i) in old(rtree) && !old(UnderWay(d, i)) ==> ZeroedBelow(zeroed, mask, old(rtree[(d, i)].dirtyBits), blockSectors))
        && (b.astray ==> !b.error && exists o :: 0 <= o < b.data.Length && b.data[o] != logical(d, i, o))
        && (b.astray ==> flags.zero && mask != FullMask(blockSectors) && (d, i) !in old(rtree))
        && (flags.Writes() ==> b.refCount == 0 && mask <= b.dirtyBits)
        && (!flags.Writes() && old(b.refCount) > 0 ==> b.dirtyBits == old(b.dirtyBits) && b.data[..] == old(b.data[..]))
        && b.refCount == old(b.refCount) && (b.refCount > 0 ==> old(b.Key()) == (d, i)) && Found(b, d, i)
        && ((d, i) !in old(rtree) ==> b.dirtyBits == if flags.Writes() then mask else {})
      ensures unchanged(`nrLocked, `held)
      ensures forall c :: c in blocks && old(c.refCount) > 0 && (r.Got? ==> c != r.block) ==>
        unchanged(c) && c.data[..] == old(c.data[..])
      ensures r.Nothing? ==>
        (flags.Writes() && old(Taken(d, i)) && Taken(d, i)) || ((d, i) !in old(rtree) && (d, i) !in rtree && Exhausted())
      ensures r.Hung? ==> (d, i) !in old(rtree) && (d, i) !in rtree && Jammed() && old(free) == [] && old(clean) != []
      ensures (d, i) !in old(rtree) && old(Jammed()) ==> r.Hung?
      ensures ((d, i) !in old(rtree) && old(Exhausted())) || (flags.Writes() && old(Taken(d, i))) ==> r.Nothing?
      ensures old(Available(d, i, flags.Writes())) ==> HitOnly(d, i, flags.Writes()) && r == Got(rtree[(d, i)])
      ensures old(Available(d, i, flags.Writes())) ==>
        r.block.dirtyBits == old(rtree[(d, i)].dirtyBits) + if flags.Writes() then mask else {}
      ensures (d, i) !in old(rtree) && !old(Starved()) ==>
        r.Got? && (flags.zero ==> !r.block.error && r.block.data in buffers && PartlyZeroed(r.block.data, mask))
      // what is marked, what leaves the cache, and where the block is listed
      ensures DirtySectors() <= old(DirtySectors()) + SectorsOf((d, i), if flags.Writes() then mask else {})
      ensures !r.Got? || (d, i) in old(rtree) ==> rtree == old(rtree)
      ensures (d, i) !in old(rtree) && !old(Starved()) ==>
        r.block == old(Victim()) && rtree == old(Room())[(d, i) := r.block]
      ensures r.Got? ==> Newest(r.block)
      ensures old(Available(d, i, flags.Writes())) ==> MovedToEnd(r.block)
    {
      hide Inv, InvBut, Tidy, TidyBut, TidyAround, AtRest, Coherent, OnDisk, ZeroedSectors, ZeroedBelow, Jammed;
      hide Without, Victim, Room, DirtySectors, SectorsOf;
      r := Obtain(d, i, flags);
      zeroed := {};
      if r.Got? {
        OwnSize(r.block);
        OwnData(r.block);
        zeroed := Relink(r.block, flags, mask);
      }
    }

    lemma Indexed(k: BlockKey)
      requires Inv() && Tidy() && k in rtree
      ensures rtree[k] in blocks && IsIndexed(rtree[k].place) && rtree[k].Key() == k
    {
    }

    lemma NewbornAtRest(b: Block, d: nat, i: nat)
      requires Newborn(b, d, i)
      ensures AtRest(b) && InvBut(b) && TidyBut(b) && b.place == Loose && b.Key() == (d, i) && !b.Awaiting()
      ensures b in blocks && b.refCount == 0 && !b.error && b.dirtyBits == {} && (d, i) in rtree && rtree[(d, i)] == b
      ensures OnDisk(b)
    {
    }

    lemma IsOnDisk(b: Block)
      requires InvBut(b) && b in blocks && AtRest(b) && Coherent(b)
      requires b.dirtyBits == {} || b.Awaiting()
      ensures OnDisk(b)
    {
    }

    /** _recycle_block */
    method RecycleBlock(b: Block)
      requires Inv() && TidyBut(b) && b in blocks && IsIndexed(b.place) && !b.ioPending && b.refCount == 0
      requires b.dirtyBits == {} || b.Awaiting()
      modifies `free, `clean, `dirty, `errored, `pending, `rtree, `cached, b`place
      ensures Valid() && b.place == Free && rtree == old(rtree) - {b.Key()} && free == old(free) + [b]
      ensures pending == old(pending)
    {
      hide Inv, InvBut, Without, Coherent, OnDisk;
      IsQuiet(b);
      IsOnDisk(b);
      NotPending(b);
      Unlink(b);
      Release(b);
    }

    method Release(b: Block)
      requires InvBut(b) && TidyBut(b) && b in blocks && b.place == Loose && AtRest(b) && b.refCount == 0 && OnDisk(b)
      requires b.dirtyBits == {} || b.Awaiting()
      modifies `free, `rtree, `cached, b`place
      ensures Valid() && b.place == Free && rtree == old(rtree) - {b.Key()} && free == old(free) + [b]
    {
      hide Core, Inv, AtRest, OnDisk;
      BlockRemove(b);
      AddFree(b);
      FreedIsOk(b);
    }

    lemma FreedIsOk(b: Block)
      requires InvBut(b) && b in blocks && b.place == Free && AtRest(b) && b.refCount == 0 && !b.astray
      requires b.dirtyBits == {} || b.Awaiting()
      ensures Inv()
    {
      hide Lists, Index, DiskOnly, Holders;
      assert BlockOk(b);
    }

    // What a get or a put of one block leaves alone: the blocks that others hold.
    twostate predicate OthersKept(b: Block)
      reads this, blocks, buffers
    {
      && Storage()
      && (forall c :: c in blocks && c != b && old(c.refCount) > 0 ==> unchanged(c) && c.data[..] == old(c.data[..]))
    }

    // After a call that gets and puts blocks, the references are as they were.
    twostate predicate HeldKept()
      reads this, blocks, buffers
    {
      && Storage() && held == old(held)
      && (forall c :: c in held && c in blocks ==>
        && c.Key() == old(c.Key()) && c.refCount == old(c.refCount) && c.dirtyBits == old(c.dirtyBits)
        && c.data[..] == old(c.data[..]))
    }

    /** io_get_block_mask.  readOnly: the handle was opened EF_READ_ONLY.  When a
        part is zeroed of a block that is not in the cache, the rest is not read: what
        the client is given is then not what has been stored, unless the buffer
        happens to hold it.  That is the only way in which a get leaves the cache
        not Valid(). */
    method GetBlockMask(readOnly: bool, d: nat, i: nat, flags: Flags, mask: set<nat>) returns (r: Fetched, ghost zeroed: set<nat>)
      requires Valid() && forall s :: s in mask ==> s < blockSectors
      modifies this, blocks, buffers
      ensures Inv() && Storage() && (Valid() <==> !(r.Got? && r.block.astray))
      ensures (flags.zero ==> mask == FullMask(blockSectors) || (d, i) in old(rtree)) ==> Valid()
      ensures r.Got? ==> var b := r.block;
        && b in blocks && b.Key() == (d, i) && held == old(held) + {b} && OthersKept(b)
        && (d, i) in rtree && rtree[(d, i)] == b
        && logical == (if flags.zero then ZeroedSectors(old(logical), (d, i), zeroed, blockSectors) else old(logical))
        && (flags.zero ==> mask <= zeroed <= b.dirtyBits)
        && (!b.astray <==> forall o :: 0 <= o < b.data.Length ==> b.data[o] == logical(d, i, o))
        && (flags.Writes() ==> !readOnly && b !in old(held) && mask <= b.dirtyBits)
        && b.refCount == (if b in old(held) then old(b.refCount) + 1 else 1)
        && (b in old(held) ==> b.dirtyBits == old(b.dirtyBits) && b.data[..] == old(b.data[..]) && old(b.Key()) == (d, i))
        && ((d, i) !in old(rtree) ==> b.dirtyBits == if flags.Writes() then mask else {})
      ensures !r.Got? ==> held == old(held) && forall c :: c in held ==> unchanged(c) && c.data[..] == old(c.data[..])
      // which sectors are zeroed: those asked for, and the dirty runs that leave them
      ensures flags.zero && mask == FullMask(blockSectors) ==> zeroed == mask
      ensures flags.zero && (d, i) !in old(rtree) && r.Got? ==> zeroed == mask
      ensures flags.zero && old(Available(d, i, true)) && !readOnly ==>
        ZeroedBelow(zeroed, mask, old(rtree[(d, i)].dirtyBits), blockSectors)
      // a block whose write has failed is refused, and zeroed all the same
      ensures !r.Got? ==>
        logical == (if flags.zero && !readOnly && LostWrite(d, i) then ZeroedSectors(old(logical), (d, i), zeroed, blockSectors) else old(logical))
      ensures old(LostWrite(d, i)) ==> r.Nothing? && LostWrite(d, i)
      ensures !r.Got? && LostWrite(d, i) ==> old(LostWrite(d, i)) || old(UnderWay(d, i))
      // why there is no block
      ensures r.Nothing? ==> (flags.Writes() && readOnly) || Refused(d, i, flags.Writes())
      ensures (flags.Writes() && (readOnly || old(Taken(d, i)))) || old(LostRead(d, i)) ==> r.Nothing?
      ensures (d, i) !in old(rtree) && old(Exhausted()) ==> r.Nothing?
      ensures r.Hung? ==>
        held != {} && (d, i) !in old(rtree) && (d, i) !in rtree && Jammed() && old(free) == [] && old(clean) != []
      ensures (d, i) !in old(rtree) && old(Jammed()) && !(flags.Writes() && readOnly) ==> r.Hung?
      ensures old(Available(d, i, flags.Writes())) && !(flags.Writes() && readOnly) ==>
        && HitOnly(d, i, flags.Writes()) && r == Got(rtree[(d, i)]) && MovedToEnd(r.block)
        && r.block.dirtyBits == old(rtree[(d, i)].dirtyBits) + if flags.Writes() then mask else {}
      ensures (d, i) !in old(rtree) && !(flags.Writes() && readOnly) && !old(Starved()) ==>
        r.Got? || (!flags.zero && Faulty(d, i))
      // a block that is not cached is not read: what is not zeroed is left in the buffer
      ensures flags.zero && (d, i) !in old(rtree) && !readOnly && !old(Starved()) ==> PartlyZeroed(r.block.data, mask)
      // no sector becomes dirty but those of the mask
      ensures DirtySectors() <= old(DirtySectors()) + SectorsOf((d, i), if flags.Writes() then mask else {})
      // a block that is not cached takes the place of a free one, or of the one that has
      // gone unused for longest; a block that is used goes to the end of its list
      ensures r.Got? ==> Newest(r.block) && ((d, i) in old(rtree) ==> rtree == old(rtree))
      ensures (d, i) !in old(rtree) && !(flags.Writes() && readOnly) && !old(Starved()) ==>
        rtree == if r.Got? then old(Room())[(d, i) := old(Victim())] else old(Room())
    {
      hide Inv, InvBut, Tidy, TidyBut, TidyAround, ZeroedSectors, ZeroedBelow, Storage, PartlyZeroed;
      hide Jammed, Exhausted, Starved, Kept, Placed, FullMask, SectorOf, Core, Lists, Index, Holders, DiskOnly, BlockOk;
      hide Without, Victim, Room, DirtySectors, Newest, SectorsOf, MovedToEnd;
      StorageHolds();
      ghost var room := if Starved() then rtree else Room();
      RoomIs();
      zeroed := mask;
      if flags.Writes() && readOnly {
        return Nothing, mask;
      }
      HeldIs();
      ghost var cleared;
      r, cleared := LookupOrReadBlock(d, i, flags, mask);
      if !r.Got? {
        JammedIsHeld();
        ErrorIsFree();
        return;
      }
      zeroed := cleared;
      ghost var taken := rtree;
      var ok := Deliver(r.block);
      if !ok {
        AddAndTake(room, taken, (d, i), r.block);
        return Nothing, cleared;
      }
    }

    // The end of io_get_block_mask: a reference, unless the last request failed.
    method Deliver(b: Block) returns (ok: bool)
      requires Inv() && TidyAround(b) && b in blocks && b.place in {Clean, Dirty} && !b.ioPending
      requires b.astray ==> !b.error && exists o :: 0 <= o < b.data.Length && b.data[o] != logical(b.dev, b.index, o)
      modifies `free, `clean, `dirty, `errored, `pending, `rtree, `cached, `nrLocked, `held, b`place, b`refCount
      ensures Inv() && (Valid() <==> !b.astray) && (ok <==> !b.error)
      ensures ok ==> held == old(held) + {b} && b.refCount == old(b.refCount) + 1 && rtree == old(rtree)
      ensures ok ==> (!b.astray <==> forall o :: 0 <= o < b.data.Length ==> b.data[o] == logical(b.dev, b.index, o))
      ensures !ok ==> held == old(held) && b.refCount == old(b.refCount) == 0
      ensures !ok ==> rtree == if b.ioDir.Read? then old(rtree) - {b.Key()} else old(rtree)
      ensures ok ==> clean == old(clean) && dirty == old(dirty)
      ensures DirtySectors() <= old(DirtySectors())
    {
      hide Inv, Tidy, TidyBut, TidyAround, Whole;
      FoundFacts(b);
      ok := !b.error;
      if ok {
        AddReference(b);
        TidyIsWhole(b);
      } else if b.ioDir == Read {
        RecycleBlock(b);
      }
    }

    lemma RoomIs()
      ensures !Starved() ==> forall k :: k in Room() ==> k in rtree
    {
    }

    static lemma AddAndTake(room: map<BlockKey, Block>, taken: map<BlockKey, Block>, k: BlockKey, b: Block)
      ensures taken == room[k := b] && k !in room ==> taken - {k} == room
    {
    }

    lemma ErrorIsFree()
      requires Valid()
      ensures forall b :: b in blocks && b.error ==> b.refCount == 0
    {
      forall b | b in blocks && b.error ensures b.refCount == 0 {
        assert BlockOk(b);
      }
    }

    lemma JammedIsHeld()
      requires Inv()
      ensures Jammed() ==> held != {}
    {
      if Jammed() {
        assert clean[0] in clean && clean[0] in blocks;
        HeldIs();
      }
    }

    lemma HeldIs()
      requires Inv()
      ensures held <= blocks && forall b :: b in blocks ==> (b in held <==> b.refCount > 0)
      ensures held != {} ==> nrLocked > 0
    {
      if held != {} {
        var b :| b in held;
        assert |held - {b}| == |held| - 1;
      }
    }

    lemma FoundFacts(b: Block)
      requires Inv() && TidyAround(b) && b in blocks && b.place in {Clean, Dirty} && !b.ioPending
      requires b.astray ==> !b.error && exists o :: 0 <= o < b.data.Length && b.data[o] != logical(b.dev, b.index, o)
      ensures b.error ==> b.refCount == 0 && TidyBut(b)
      ensures b.error && !b.Awaiting() ==> Tidy()
      ensures !b.error ==> Whole() && forall c :: c in blocks && c != b ==> !c.astray
      ensures !b.error ==> (!b.astray <==> forall o :: 0 <= o < b.data.Length ==> b.data[o] == logical(b.dev, b.index, o))
    {
      assert BlockOk(b);
    }

    lemma TidyIsWhole(b: Block)
      requires Inv() && Whole() && forall c :: c in blocks && c != b ==> !c.astray
      ensures b in blocks ==> (Valid() <==> !b.astray)
    {
    }

    twostate lemma Counted(b: Block)
      requires b in blocks && old(Holders()) && forall c :: c in blocks && c != b ==> c.refCount == old(c.refCount)
      requires held == if b.refCount > 0 then old(held) + {b} else old(held) - {b}
      requires nrLocked == old(nrLocked) + (if b.refCount > 0 then 1 else 0) - (if old(b.refCount) > 0 then 1 else 0)
      ensures Holders()
    {
      if b.refCount > 0 {
        assert b in old(held) ==> held == old(held);
      } else {
        assert b !in old(held) ==> held == old(held);
        assert b in old(held) ==> |held| == |old(held)| - 1;
      }
    }

    // The counting half of io_get_block_mask.
    method CountUp(b: Block)
      modifies `nrLocked, `held, b`refCount
      ensures b.refCount == old(b.refCount) + 1 && held == old(held) + {b}
      ensures nrLocked == old(nrLocked) + if old(b.refCount) == 0 then 1 else 0
    {
      if b.refCount == 0 {
        nrLocked := nrLocked + 1;
      }
      held := held + {b};
      b.refCount := b.refCount + 1;
    }

    method AddReference(b: Block)
      requires Inv() && Whole() && b in blocks && !b.ioPending && !b.error && b.place in {Clean, Dirty}
      modifies `nrLocked, `held, b`refCount
      ensures Inv() && Whole() && held == old(held) + {b} && b.refCount == old(b.refCount) + 1
    {
      hide Lists, Index, DiskOnly, Coherent, Storage, BlockOk, Holders;
      PlaceIs(b);
      CountUp(b);
      Counted(b);
      QuietIsOk(b);
    }

    lemma PlaceIs(b: Block)
      requires Inv() && b in blocks && b.place in {Clean, Dirty} && !b.ioPending && !b.error
      ensures b.place == (if b.dirtyBits == {} then Clean else Dirty) && InvBut(b) && AtRest(b) && (b.astray || Coherent(b))
    {
      hide Lists, Index, DiskOnly, Holders, Coherent;
      assert BlockOk(b);
    }

    /** io_put_block.  How many blocks the preemptive write back takes depends on
        counters that are not part of the model. */
    method PutBlock(b: Block)
      requires Valid() && b in blocks
      modifies this, blocks
      ensures Valid() && Storage() && unchanged(`logical, `disk)
      ensures held == if old(b.refCount) == 1 then old(held) - {b} else old(held)
      ensures b.dirtyBits == old(b.dirtyBits) && b.Key() == old(b.Key())
      ensures b.refCount == if old(b.refCount) > 0 then old(b.refCount) - 1 else 0
      ensures OthersKept(b) && unchanged(`rtree) && (old(b.refCount) > 0 ==> !b.error)
      ensures b.dirtyBits == {} ==> !b.ioPending == !old(b.ioPending) && b.error == old(b.error)
      ensures b.dirtyBits == {} ==> forall c :: c in blocks && c != b ==> unchanged(c)
      ensures DirtySectors() == old(DirtySectors())
    {
      hide Inv, Tidy, DirtySectors;
      StorageHolds();
      AllKept();
      HeldIs();
      if b.refCount > 0 {
        HeldIsIdle(b);
        DropReference(b);
      }
      HeldIs();
      if b.dirtyBits != {} {
        var count := *;
        label written:
        var actual := Writeback(count);
        StartsClean@written();
        HeldIs();
      }
    }

    // The counting half of _put_ref.
    method CountDown(b: Block)
      requires b.refCount > 0 && nrLocked > 0
      modifies `nrLocked, `held, b`refCount
      ensures b.refCount == old(b.refCount) - 1 && held == if b.refCount == 0 then old(held) - {b} else old(held)
      ensures nrLocked == old(nrLocked) - if b.refCount == 0 then 1 else 0
    {
      b.refCount := b.refCount - 1;
      if b.refCount == 0 {
        nrLocked := nrLocked - 1;
        held := held - {b};
      }
    }

    method DropReference(b: Block)
      requires Valid() && b in blocks && b.refCount > 0
      modifies `nrLocked, `held, b`refCount
      ensures Valid() && b.refCount == old(b.refCount) - 1
      ensures held == if old(b.refCount) == 1 then old(held) - {b} else old(held)
    {
      hide Lists, Index, DiskOnly, Coherent, Storage, BlockOk, Holders;
      HeldIs();
      HeldIsIdle(b);
      PlaceIs(b);
      CountDown(b);
      Counted(b);
      QuietIsOk(b);
    }

    /** What a client that holds a block does to its data: memcpy and memset
        into sectors that it has made dirty. */
    method Store(b: Block, offset: nat, bytes: seq<Byte>)
      requires Valid() && b in held && offset + |bytes| <= BlockSize()
      requires forall o: nat :: offset <= o < offset + |bytes| ==> SectorOf(o) in b.dirtyBits
      modifies `logical, b.data
      ensures Valid() && logical == StoredAt(old(logical), b.Key(), offset, bytes)
    {
      hide Tidy, StoredAt;
      AllKept();
      Stored(b, offset, bytes);
    }

    // The end of an update of a block that only this client holds.
    method StoreAndPut(b: Block, offset: nat, bytes: seq<Byte>)
      requires Valid() && b in held && b.refCount == 1 && offset + |bytes| <= BlockSize()
      requires forall o: nat :: offset <= o < offset + |bytes| ==> SectorOf(o) in b.dirtyBits
      modifies this, blocks, b.data
      ensures Valid() && Storage() && logical == StoredAt(old(logical), old(b.Key()), offset, bytes)
      ensures held == old(held) - {b} && OthersKept(b) && b.dirtyBits == old(b.dirtyBits)
      ensures unchanged(`rtree) && DirtySectors() == old(DirtySectors())
    {
      hide Inv, Tidy, StoredAt, DirtySectors;
      HeldIs();
      Own(b);
      Store(b, offset, bytes);
      PutBlock(b);
    }

    method Stored(b: Block, offset: nat, bytes: seq<Byte>)
      requires Inv() && Kept() && b in held && offset + |bytes| <= BlockSize()
      requires forall o: nat :: offset <= o < offset + |bytes| ==> SectorOf(o) in b.dirtyBits
      modifies `logical, b.data
      ensures Inv() && logical == StoredAt(old(logical), b.Key(), offset, bytes)
    {
      hide Lists, Index, DiskOnly, Storage, StoredAt;
      HeldIs();
      HeldIsIdle(b);
      Own(b);
      AllButOne(b);
      OwnSize(b);
      forall o | offset <= o < offset + |bytes| {
        b.data[o] := bytes[o - offset];
      }
      logical := StoredAt(logical, (b.dev, b.index), offset, bytes);
      OnlyTransferred(b);
      assert BlockOk(b);
    }

    // Nobody's data or references have changed.
    twostate predicate Unnoticed()
      reads `logical, `nrLocked, `held, blocks, buffers
    {
      && Storage() && unchanged(`logical, `nrLocked, `held)
      && (forall c :: c in blocks && old(c.refCount) > 0 ==> unchanged(c) && c.data[..] == old(c.data[..]))
    }

    lemma LostIsInUse()
      requires Valid()
      ensures forall d: nat, i: nat :: LostWrite(d, i) || Fetching(d, i) ==> InUse(rtree[(d, i)].place)
    {
      hide Lists, DiskOnly, Holders, Coherent;
      forall d: nat, i: nat | LostWrite(d, i) || Fetching(d, i) ensures InUse(rtree[(d, i)].place) {
        assert BlockOk(rtree[(d, i)]);
      }
    }

    /** io_prefetch_block: a block that is not cached is being read after that, unless
        as many requests as there may be are under way, or no block can be had. */
    method PrefetchBlock(d: nat, i: nat)
      requires Valid()
      modifies this, blocks, buffers
      ensures Valid() && Unnoticed()
      ensures (d, i) in old(rtree) || old(nrIoPending) >= maxIo || old(Starved()) ==>
        unchanged(this) && forall c :: c in blocks ==> unchanged(c)
      ensures InUseKept()
      ensures forall e: nat, j: nat :: old(LostWrite(e, j)) ==> LostWrite(e, j)
      ensures forall e: nat, j: nat :: old(Fetching(e, j)) ==> Fetching(e, j)
      ensures forall k :: k in rtree ==> k in old(rtree) || k == (d, i)
      ensures (d, i) !in old(rtree) && old(nrIoPending) < maxIo && !old(Starved()) ==>
        Fetching(d, i) && rtree == old(Room())[(d, i) := old(Victim())]
      ensures DirtySectors() <= old(DirtySectors())
    {
      hide Inv, InvBut, Tidy, TidyBut, AtRest, Newborn, Without, Victim, Room, DirtySectors;
      StorageHolds();
      LostIsInUse();
      if (d, i) !in rtree {
        if nrIoPending < maxIo {
          var r := NewBlock(d, i, false);
          if r.Got? {
            NewbornAtRest(r.block, d, i);
            StartRead(r.block, d, i);
          }
        }
      }
    }

    lemma NewbornReady(b: Block, d: nat, i: nat)
      requires Newborn(b, d, i)
      ensures Ready(b, Read)
    {
    }

    // ----------------------------------------------------------------
    // Flush
    // ----------------------------------------------------------------

    // An errored block is as good on the dirty list.
    twostate lemma StillOk(b: Block)
      requires old(BlockOk(b)) && unchanged(`disk, `logical, b.data, b`astray)
      requires unchanged(b`dev, b`index, b`ioPending, b`refCount, b`error, b`ioDir, b`ioCount, b`dirtyBits, b`inFlight)
      requires b.place == old(b.place) || (old(b.place) == Errored && b.place == Dirty)
      ensures BlockOk(b)
    {
    }

    // The assignments of list_splice.
    method Append()
      requires forall b :: b in errored ==> b in blocks
      modifies `dirty, `errored, blocks`place
      ensures errored == [] && dirty == old(dirty) + old(errored)
      ensures forall b :: b in blocks ==> b.place == if b in old(errored) then Dirty else old(b.place)
    {
      ghost var moved := errored;
      dirty := dirty + errored;
      errored := [];
      forall b | b in moved {
        b.place := Dirty;
      }
    }

    // list_splice of the errored blocks onto the dirty ones
    method SpliceLists()
      requires Inv() && Kept()
      modifies `dirty, `errored, blocks`place
      ensures Inv() && errored == [] && dirty == old(dirty) + old(errored)
      ensures forall b :: b in blocks ==> b.place == if old(b.place) == Errored then Dirty else old(b.place)
      ensures forall b :: b in blocks && old(b.place) == Errored ==> b.refCount == 0
    {
      hide DiskOnly, Holders, Storage, BlockOk, ListIs, Index, Kept;
      ErroredList();
      Spliced(free, clean, dirty, errored, pending, Places());
      Append();
      assert Places() == SplicedPlaces(old(Places()));
      IndexStands();
      forall b | b in blocks ensures BlockOk(b) {
        StillOk(b);
      }
    }

    method SpliceErrored()
      requires Valid()
      modifies `dirty, `errored, blocks`place
      ensures Inv() && TidyOrAdrift() && errored == [] && dirty == old(dirty) + old(errored)
      ensures HeldStand() && forall b :: b in blocks ==> b.Value() == OntoDirty(old(b.Value()))
    {
      hide Inv;
      StorageHolds();
      SpliceLists();
    }

    lemma ErroredList()
      requires Inv() && Kept()
      ensures forall b :: b in blocks ==> (b in errored <==> b.place == Errored)
      ensures forall b :: b in errored ==> b in blocks && b.refCount == 0
    {
      hide Lists, Index, DiskOnly, Holders, Coherent;
      ErroredPlaces();
      forall b | b in errored ensures b.refCount == 0 {
        assert BlockOk(b);
      }
    }

    twostate lemma IndexStands()
      requires old(Index()) && unchanged(`cached)
      requires forall c :: c in blocks ==> c.dev == old(c.dev) && c.index == old(c.index)
      requires forall c :: c in blocks ==> (IsIndexed(c.place) <==> IsIndexed(old(c.place)))
      ensures Index()
    {
    }

    // Between calls, but for held blocks that a flush has taken off their list, and
    // for what a failed prefetch has left, which it puts on the dirty list.
    ghost predicate TidyOrAdrift()
      reads `rtree, `cached, `gone, blocks
    {
      && rtree == cached && Kept()
      && (forall b :: b in blocks ==> b.place != Detached && (b.place == Loose ==> b.refCount > 0))
      && (forall b :: b in blocks && IsIndexed(b.place) && b.Awaiting() && !b.ioPending ==>
           b.place in {Errored, Dirty} && b.dirtyBits == {})
    }

    // Once the dirty list is empty.
    lemma NoneAdrift()
      requires TidyOrAdrift() && forall b :: b in blocks ==> b.place != Dirty
      ensures Tidy() <==> forall b :: b in blocks ==> b.place != Loose && !b.IsStuck()
    {
    }

    // A block on the dirty list has something to write, unless its read failed.
    lemma DirtyIsWanting(b: Block)
      requires Inv() && TidyOrAdrift() && b in blocks && b.place == Dirty
      ensures b in dirty && !b.ioPending && !b.astray
      ensures (b.Awaiting() <==> b.dirtyBits == {}) && (b.refCount > 0 ==> !b.Awaiting())
    {
      OnDirty(b);
      assert BlockOk(b);
    }

    twostate lemma OneFlushed(b: Block)
      requires old(TidyOrAdrift()) && b in blocks && unchanged(`rtree, `cached, `gone) && b.astray == old(b.astray)
      requires (b.place == Pending && b.ioPending) || (b.place == Loose && b.refCount > 0 && !b.Awaiting())
      requires forall c :: c in blocks && c != b ==> unchanged(c)
      ensures TidyOrAdrift()
    {
    }

    // A held block off its list is as good as before.
    lemma LooseIsOk(b: Block)
      requires InvBut(b) && b in blocks && Quiet(b) && b.place == Loose && b.refCount > 0
      ensures Inv()
    {
      hide Lists, Index, DiskOnly, Holders, Coherent, Storage;
      assert BlockOk(b);
    }

    method PopHeld(b: Block)
      requires Inv() && b in blocks && b.place == Dirty && b.refCount > 0 && !b.ioPending && !b.astray
      modifies `clean, `dirty, `errored, `pending, b`place
      ensures Inv() && b.place == Loose && dirty == Without(old(dirty), b)
      ensures clean == old(clean) && errored == old(errored) && pending == old(pending)
    {
      hide Inv, InvBut, Quiet, Without;
      IsQuiet(b);
      Unlink(b);
      LooseIsOk(b);
    }

    twostate lemma JustFlushed(b: Block)
      requires old(b.place) == Dirty && b.data[..] == old(b.data[..])
      requires if b.refCount > 0 then b.Popped() else b.WriteStarted()
      ensures b.MayBeFlushed()
    {
    }

    // Take the first dirty block off its list; write it, if nobody holds it.
    method FlushOne()
      requires Inv() && TidyOrAdrift() && dirty != []
      modifies `clean, `dirty, `errored, `pending, `nrIoPending, blocks
      ensures Inv() && TidyOrAdrift() && dirty == old(dirty)[1..] && clean == old(clean) && errored == old(errored)
      ensures old(dirty)[0] in blocks && old(dirty)[0].MayBeFlushed() && old(dirty)[0].place != Dirty
      ensures forall b :: b in blocks && b != old(dirty)[0] ==> unchanged(b) && unchanged(b.data)
    {
      hide Inv, TidyOrAdrift, Without, Block.MayBeFlushed;
      var b := dirty[0];
      assert b in dirty;
      DirtyList();
      DirtyIsWanting(b);
      WithoutHead(dirty);
      if b.refCount > 0 {
        PopHeld(b);
      } else {
        PopAndWrite(b);
      }
      JustFlushed(b);
      OneFlushed(b);
    }

    method PopAndWrite(b: Block)
      requires Inv() && b in blocks && b.place == Dirty && !b.ioPending && b.refCount == 0 && !b.astray
      requires b.Awaiting() <==> b.dirtyBits == {}
      modifies `clean, `dirty, `errored, `pending, `nrIoPending
      modifies b`error, b`ioDir, b`ioPending, b`place, b`ioCount, b`inFlight, b`writes, b`issued, b`astray
      ensures Inv() && b.WriteStarted() && clean == old(clean) && errored == old(errored)
      ensures dirty == Without(Without(old(dirty), b), b)
    {
      hide Inv, InvBut, Without, Suits, RunsIssued, Coherent;
      if b.dirtyBits != {} {
        DirtyIsWritable(b);
      } else {
        BareIsWritable(b);
      }
      Unlink(b);
      IssueWrite(b);
    }

    // What a failed read has left may be written, too: there is nothing to write.
    lemma BareIsWritable(b: Block)
      requires Inv() && b in blocks && IsIndexed(b.place) && !b.ioPending && !b.astray
      requires b.Awaiting() && b.dirtyBits == {}
      ensures InvBut(b) && Writable(b)
    {
      hide Lists, Index, DiskOnly, Holders;
      assert BlockOk(b);
    }

    // The disks hold all that has been stored.
    ghost predicate Synced()
      reads `disk, `logical
    {
      forall d: nat, i: nat, o: nat :: o < BlockSize() ==> disk(d, i, o) == logical(d, i, o)
    }

    // The index has the block, and it is on no list.
    ghost predicate Adrift(d: nat, i: nat)
      reads `cached, blocks`place
    {
      (d, i) in cached && cached[(d, i)] in blocks && cached[(d, i)].place == Loose
    }

    lemma AllOnDisk()
      requires Inv() && TidyOrAdrift() && dirty == [] && errored == [] && pending == []
      ensures forall d: nat, i: nat, o: nat :: o < BlockSize() && !Adrift(d, i) ==> disk(d, i, o) == logical(d, i, o)
    {
      forall d: nat, i: nat, o: nat | o < BlockSize() && !Adrift(d, i) ensures disk(d, i, o) == logical(d, i, o) {
        if (d, i) in cached {
          var b := cached[(d, i)];
          assert b in blocks && b.Key() == (d, i) && BlockOk(b);
          assert b.place == Clean by {
            assert Places()[b] == b.place;
          }
        }
      }
    }

    lemma ErroredPlaces()
      requires Inv()
      ensures forall b :: b in blocks ==> (b in errored <==> b.place == Errored)
      ensures forall b :: b in errored ==> b in blocks
    {
      assert forall b :: b in blocks ==> Places()[b] == b.place;
    }

    lemma PendingPlaces()
      requires Inv()
      ensures forall b :: b in blocks ==> (b.ioPending <==> b.place == Pending)
    {
      forall b | b in blocks ensures b.ioPending <==> b.place == Pending {
        assert BlockOk(b);
      }
    }

    twostate predicate HeldStand()
      reads blocks, buffers
    {
      Storage() && forall b :: b in blocks && old(b.refCount > 0 && b.place != Dirty) ==> unchanged(b) && b.data[..] == old(b.data[..])
    }

    // A flush has started its writes, and lost the dirty blocks that are held.
    twostate predicate Flushing()
      reads this, blocks, buffers
    {
      && Storage() && unchanged(`logical, `nrLocked, `held, `rtree) && HeldStand()
      && forall b :: b in blocks ==> InFlush(old(b.Value()), b.Value())
    }

    // All that is dirty or errored, and not held, is on its way to the disks; where
    // there is nothing to write, it will never arrive.
    method StartAll()
      requires Valid()
      modifies `clean, `dirty, `errored, `pending, `nrIoPending, blocks
      ensures Inv() && TidyOrAdrift() && Flushing() && dirty == [] && errored == []
    {
      hide Inv, Tidy, TidyOrAdrift, Storage, FlushStep, InFlush, AtEase, OntoDirty, Block.Value;
      StorageHolds();
      AllAtEase();
      SpliceErrored();
      label Spliced:
      StartEach();
      forall b | b in blocks ensures InFlush(old(b.Value()), b.Value()) {
        FlushIs(old(b.Value()), b.Value(), b.Value());
      }
    }

    lemma AllAtEase()
      requires Valid()
      ensures forall b :: b in blocks ==> AtEase(b.Value())
    {
      forall b | b in blocks ensures AtEase(b.Value()) {
        assert BlockOk(b);
      }
    }

    // The loop of io_flush.
    method StartEach()
      requires Inv() && TidyOrAdrift()
      modifies `clean, `dirty, `errored, `pending, `nrIoPending, blocks
      ensures Inv() && TidyOrAdrift() && dirty == [] && errored == old(errored) && HeldStand()
      ensures forall b :: b in blocks ==> FlushStep(old(b.Value()), b.Value())
    {
      hide Inv, TidyOrAdrift, FlushStep;
      StorageHolds();
      WantingBits();
      DirtyList();
      while dirty != []
        invariant Inv() && TidyOrAdrift() && errored == old(errored)
        invariant forall b :: b in blocks ==> b.MayBeFlushed() && (b.place == Dirty ==> unchanged(b))
      {
        DirtyList();
        FlushOne();
      }
      DirtyList();
      forall b | b in blocks ensures FlushStep(old(b.Value()), b.Value()) {
        b.IsFlushStep();
      }
    }

    lemma WantingBits()
      requires Inv() && TidyOrAdrift()
      ensures forall b :: b in blocks && b.place == Dirty ==> (b.Awaiting() <==> b.dirtyBits == {}) && !b.IsStuck()
      ensures forall b :: b in blocks && b.place == Dirty && b.refCount > 0 ==> !b.Awaiting()
    {
      forall b | b in blocks && b.place == Dirty
        ensures (b.Awaiting() <==> b.dirtyBits == {}) && !b.IsStuck() && (b.refCount > 0 ==> !b.Awaiting())
      {
        DirtyIsWanting(b);
      }
    }

    twostate lemma StillTidyOrAdrift()
      requires old(Inv()) && old(TidyOrAdrift()) && Inv() && Waits()
      ensures TidyOrAdrift()
    {
      hide Lists, Index, DiskOnly, Holders, Coherent;
      forall b | b in blocks ensures b.place != Detached && (b.place == Loose ==> b.refCount > 0)
        && (IsIndexed(b.place) && b.Awaiting() && !b.ioPending ==> b.place in {Errored, Dirty} && b.dirtyBits == {}) {
        assert b.Waited() && BlockOk(b) && old(BlockOk(b));
      }
    }

    // What a failed prefetch has left is on the errored list.
    ghost predicate HasLostRead()
      reads `errored, blocks
    {
      exists b :: b in blocks && b in errored && b.Awaiting()
    }

    ghost predicate HoldsDirty()
      reads `dirty, blocks`refCount
    {
      exists b :: b in blocks && b in dirty && b.refCount > 0
    }

    // What a flush has done.
    twostate predicate Flushed()
      reads this, blocks, buffers
    {
      && Storage() && unchanged(`rtree, `logical, `nrLocked, `held) && HeldStand()
      && forall b :: b in blocks ==> AfterFlush(old(b.Value()), b.Value())
    }

    // Start all the writes, and wait for them.
    method WriteAll() returns (hung: bool)
      requires Valid()
      modifies this, blocks, buffers
      ensures Inv() && TidyOrAdrift() && Flushed() && dirty == []
      ensures hung <==> exists b :: b in blocks && old(b.place == Errored && b.Awaiting())
      ensures if hung then pending != [] && InFlight() == {} else pending == []
    {
      hide Inv, Tidy, TidyOrAdrift, Storage, InFlush, WaitStep, AfterFlush, AtEase;
      AllAtEase();
      StartAll();
      StuckAre();
      label Started:
      hung := WaitForAll();
      forall b | b in blocks ensures AfterFlush(old(b.Value()), b.Value()) {
        FlushIs(old(b.Value()), old@Started(b.Value()), b.Value());
      }
    }

    twostate lemma StuckAre()
      requires Flushing() && forall b :: b in blocks ==> AtEase(old(b.Value()))
      ensures forall b :: b in blocks ==> (b.IsStuck() <==> old(b.place == Errored && b.Awaiting()))
    {
      forall b | b in blocks ensures b.IsStuck() <==> old(b.place == Errored && b.Awaiting()) {
        assert InFlush(old(b.Value()), b.Value()) && AtEase(old(b.Value()));
      }
    }

    // The end of a flush.
    method WaitForAll() returns (hung: bool)
      requires Inv() && TidyOrAdrift()
      modifies this, blocks, buffers
      ensures Inv() && TidyOrAdrift() && Background() && unchanged(`rtree, `dirty)
      ensures forall b :: b in blocks ==> WaitStep(old(b.Value()), b.Value())
      ensures hung <==> exists b :: b in blocks && old(b.IsStuck())
      ensures if hung then pending != [] && InFlight() == {} else pending == []
    {
      hide Inv, TidyOrAdrift, WaitStep;
      PendingPlaces();
      RequestsHold();
      AllKeptStill();
      hung := WaitAll();
      StillTidyOrAdrift();
      WaitsInBackground();
      Requestless();
      forall b | b in blocks ensures WaitStep(old(b.Value()), b.Value()) {
        b.IsWaitStep();
      }
    }

    // When nothing is under way, what is pending is stuck.
    lemma Requestless()
      requires Inv() && (pending == [] || InFlight() == {})
      ensures forall b :: b in blocks && b.ioPending ==> b.IsStuck()
    {
      hide Lists, Index, DiskOnly, Holders, Coherent;
      forall b | b in blocks && b.ioPending ensures b.IsStuck() {
        assert BlockOk(b);
        PendingListed(b);
        forall r ensures r !in b.inFlight {
          assert (b, r) !in InFlight();
        }
        assert b.inFlight == {};
      }
    }

    lemma AllKeptStill()
      requires TidyOrAdrift()
      ensures Kept()
    {
    }

    // A stuck block has no request, and what has none is pending only if it is stuck.
    lemma RequestsHold()
      requires Inv()
      ensures forall b :: b in blocks ==> (b.inFlight == {} <==> !b.ioPending || b.IsStuck())
    {
      hide Lists, Index, DiskOnly, Holders, Coherent;
      forall b | b in blocks ensures b.inFlight == {} <==> !b.ioPending || b.IsStuck() {
        assert BlockOk(b);
      }
    }

    twostate lemma AfterAll()
      requires Flushed()
      ensures forall b :: b in blocks ==>
        b.refCount == old(b.refCount) && (b.IsStuck() <==> old(b.place == Errored && b.Awaiting()))
      ensures forall b :: b in blocks ==> (b.place == Loose <==> old(b.refCount > 0 && b.place == Dirty))
    {
      forall b | b in blocks ensures b.refCount == old(b.refCount) && (b.IsStuck() <==> old(b.place == Errored && b.Awaiting()))
        && (b.place == Loose <==> old(b.refCount > 0 && b.place == Dirty)) {
        assert AfterFlush(old(b.Value()), b.Value());
      }
    }

    /** io_flush.  What a failed prefetch has left on the errored list is issued as a
        write of no sectors, and then the flush waits for ever; all else has been
        written, or has failed, by then.  A dirty block that is held is not written,
        and is on no list after that. */
    method Flush() returns (ok: bool, hung: bool)
      requires Valid()
      modifies this, blocks, buffers
      ensures hung <==> old(HasLostRead())
      ensures Inv() && TidyOrAdrift() && Flushed() && dirty == []
      ensures if hung then !ok && pending != [] && InFlight() == {} else pending == []
      ensures (Valid() <==> !hung && !old(HoldsDirty())) && (Valid() ==> Unnoticed())
      ensures forall b :: b in errored ==> b in blocks && b.place == Errored && b.error
      ensures !hung ==> (ok <==> errored == [])
      ensures !hung && ok ==> forall d: nat, i: nat, o: nat :: o < BlockSize() && !Adrift(d, i) ==>
        disk(d, i, o) == logical(d, i, o)
      ensures !hung && ok && Valid() ==> Synced()
    {
      hide Inv, Tidy, TidyOrAdrift, Adrift;
      ErroredPlaces();
      DirtyList();
      hung := WriteAll();
      AfterAll();
      DirtyList();
      NoneAdrift();
      ErroredPlaces();
      ErroredFailed();
      if hung {
        return false, true;
      }
      ok := errored == [];
      if ok {
        AllOnDisk();
        if Tidy() {
          NothingAdrift();
        }
      }
    }

    /** With an engine that never fails a request there are no errors. */
    lemma NoErrors()
      requires Inv() && reliable
      ensures forall b :: b in blocks ==> !b.error && b.place != Errored
    {
      hide Lists, Index, DiskOnly, Holders, Coherent;
      forall b | b in blocks ensures !b.error && b.place != Errored {
        assert BlockOk(b);
      }
    }

    lemma ErroredFailed()
      requires Inv()
      ensures forall b :: b in blocks && b.place == Errored ==> b.error
    {
      hide Lists, Index, DiskOnly, Holders, Coherent;
      forall b | b in blocks && b.place == Errored ensures b.error {
        assert BlockOk(b);
      }
    }

    lemma NothingAdrift()
      requires Tidy()
      ensures forall d: nat, i: nat :: !Adrift(d, i)
    {
    }

    // ----------------------------------------------------------------
    // Invalidation
    // ----------------------------------------------------------------

    method WaitFor(b: Block)
      requires Valid() && b in blocks
      modifies `disk, `clean, `dirty, `errored, `pending, `nrIoPending, blocks, buffers
      ensures Valid() && Unnoticed() && unchanged(`rtree) && !b.ioPending && b.Waited()
    {
      hide Inv, Tidy;
      AllKept();
      NoneStuckNow();
      WaitSpecific(b);
      StillTidy();
      WaitsInBackground();
    }

    // The index has the block, with something to write.
    ghost predicate Unwritten(d: nat, i: nat)
      reads `rtree, blocks
    {
      (d, i) in rtree && rtree[(d, i)] in blocks && rtree[(d, i)].dirtyBits != {}
    }

    /** io_invalidate_block */
    method InvalidateBlock(d: nat, i: nat) returns (ok: bool)
      requires Valid()
      modifies this, blocks, buffers
      ensures Valid() && Unnoticed()
      ensures ok ==> rtree == old(rtree) - {(d, i)}
      ensures ok ==> forall o :: 0 <= o < BlockSize() ==> disk(d, i, o) == logical(d, i, o)
      ensures !ok ==> rtree == old(rtree) && (d, i) in rtree
      ensures !ok ==> var b := rtree[(d, i)];
        b in blocks && (b in held || (b.place == Errored && b.dirtyBits != {} && b.writes == old(b.writes) + 1))
      ensures old(Taken(d, i)) ==> !ok
      ensures old(!Taken(d, i) && !UnderWay(d, i) && !Unwritten(d, i)) ==> ok
    {
      hide Inv, InvBut, Tidy, TidyBut, Writable, RunsIssued;
      StorageHolds();
      if (d, i) !in rtree {
        NotCached((d, i));
        return true;
      }
      var b := rtree[(d, i)];
      Indexed((d, i));
      if b.ioPending {
        WaitFor(b);
      }
      ok := DropOne(b);
    }

    // _invalidate_block, once nothing is under way for the block
    method DropOne(b: Block) returns (ok: bool)
      requires Valid() && b in blocks && IsIndexed(b.place) && !b.ioPending
      modifies this, blocks, buffers
      ensures Valid() && Unnoticed() && rtree == if ok then old(rtree) - {old(b.Key())} else old(rtree)
      ensures ok ==> forall o :: 0 <= o < BlockSize() ==> disk(b.dev, b.index, o) == logical(b.dev, b.index, o)
      ensures !ok ==> b in held || (b.place == Errored && b.dirtyBits != {} && b.writes == old(b.writes) + 1)
      ensures b.Key() == old(b.Key())
      ensures old(b.refCount) > 0 ==> !ok
      ensures old(b.refCount) == 0 && old(b.dirtyBits) == {} ==> ok
    {
      hide Inv, Tidy;
      StorageHolds();
      HeldIs();
      if b.refCount > 0 {
        return false;
      }
      if b.dirtyBits != {} {
        WriteOut(b);
        if b.error {
          return false;
        }
      }
      Discard(b);
      ok := true;
    }

    // A block with nothing to write leaves the cache.
    method Discard(b: Block)
      requires Valid() && b in blocks && IsIndexed(b.place) && !b.ioPending && b.refCount == 0 && b.dirtyBits == {}
      modifies `free, `clean, `dirty, `errored, `pending, `rtree, `cached, b`place
      ensures Valid() && rtree == old(rtree) - {b.Key()}
      ensures forall o :: 0 <= o < BlockSize() ==> disk(b.dev, b.index, o) == logical(b.dev, b.index, o)
    {
      hide Inv, Tidy, TidyBut;
      CleanFacts(b);
      RecycleBlock(b);
      NotCached((b.dev, b.index));
    }

    lemma NotCached(k: BlockKey)
      requires Valid() && k !in rtree
      ensures forall o :: 0 <= o < BlockSize() ==> disk(k.0, k.1, o) == logical(k.0, k.1, o)
    {
    }

    lemma CleanFacts(b: Block)
      requires Valid() && b in blocks
      ensures TidyBut(b)
    {
    }

    method WriteOut(b: Block)
      requires Valid() && b in blocks && IsIndexed(b.place) && !b.ioPending && b.refCount == 0 && b.dirtyBits != {}
      modifies `disk, `clean, `dirty, `errored, `pending, `nrIoPending, blocks, buffers
      ensures Valid() && Unnoticed() && !b.ioPending && b.Key() == old(b.Key()) && b.refCount == 0
      ensures b.writes == old(b.writes) + 1
      ensures if b.error then b.place == Errored && b.dirtyBits != {} else b.place == Clean && b.dirtyBits == {}
    {
      hide Inv, InvBut, Writable, RunsIssued, Without;
      StorageHolds();
      DirtyIsWritable(b);
      IssueWrite(b);
      assert Tidy();
      WaitFor(b);
    }

    // The blocks of one device that the index holds.
    function KeysOf(dev: nat): set<BlockKey>
      reads `rtree
    {
      set k | k in rtree && k.0 == dev
    }

    // To write this block is more than the cache can answer for.
    ghost predicate Unsafe(k: BlockKey)
      reads `rtree, `disk, `logical, blocks, buffers
    {
      Storage() && k in rtree && rtree[k] in blocks && rtree[k].dirtyBits != {} && Rash(rtree[k])
    }

    // A write of this block is under way, a part of it has failed, and what that part
    // should have written is not on the disk.
    ghost predicate Lossy(d: nat, i: nat)
      reads `rtree, `disk, `logical, blocks, buffers
    {
      Storage() && (d, i) in rtree && var b := rtree[(d, i)]; b in blocks && b.refCount == 0 && b.ioPending && !Recovered(b)
    }

    // While a device is invalidated the index is as it was, until its last step.
    ghost predicate Whole()
      reads `rtree, `cached, `gone, blocks
    {
      rtree == cached && gone == {} && Placed()
    }

    // The writes of the device's blocks are under way, but for those of keys.
    ghost predicate Started(dev: nat, keys: set<BlockKey>)
      reads `rtree, blocks, rtree.Values
    {
      forall k :: k in rtree && k.0 == dev ==> rtree[k] in blocks && (k !in keys && rtree[k].dirtyBits != {} ==> rtree[k].ioPending)
    }

    // _writeback_v
    method WritebackV(dev: nat, keys: set<BlockKey>, k: BlockKey)
      requires Inv() && Whole() && Started(dev, keys) && k in keys && keys <= KeysOf(dev)
      requires rtree[k] in blocks && !rtree[k].astray
      modifies `clean, `dirty, `errored, `pending, `nrIoPending
      modifies blocks`error, blocks`ioDir, blocks`ioPending, blocks`place, blocks`ioCount, blocks`inFlight,
          blocks`writes, blocks`issued, blocks`astray
      ensures Inv() && Whole() && Started(dev, keys - {k}) && (rtree[k].astray <==> old(Unsafe(k)))
      ensures forall c :: c in blocks && (c != rtree[k] || c.dirtyBits == {}) ==> unchanged(c)
    {
      hide Inv, Whole, Recovered;
      StorageHolds();
      WholeIndex();
      var b := rtree[k];
      if b.dirtyBits != {} {
        HeldAtRest(b);
        StartAgain(b);
      }
    }

    lemma WholeIndex()
      requires Inv() && Whole()
      ensures forall k :: k in rtree ==> rtree[k] in blocks && rtree[k].Key() == k && IsIndexed(rtree[k].place)
      ensures forall b :: b in blocks && b.astray ==> b.Key() in rtree && rtree[b.Key()] == b
    {
      hide DiskOnly, Holders, Lists, Coherent;
      forall b | b in blocks && b.astray ensures b.Key() in rtree && rtree[b.Key()] == b {
        assert BlockOk(b);
      }
    }

    lemma HeldAtRest(b: Block)
      requires Inv() && b in blocks && !b.astray
      ensures b.refCount > 0 ==> !b.ioPending
    {
      assert BlockOk(b);
    }

    // Of the device's blocks, those of keys are as they were; of the others, exactly
    // the unsafe ones have gone astray.
    ghost predicate SoFar(dev: nat, keys: set<BlockKey>, unsafe: set<BlockKey>)
      reads `rtree, `disk, `logical, blocks, buffers
    {
      && (forall k :: k in rtree ==> rtree[k] in blocks)
      && (forall k :: k in rtree && k in keys ==> !rtree[k].astray && (Unsafe(k) <==> k in unsafe))
      && (forall k :: k in rtree && k !in keys ==> (rtree[k].astray <==> k.0 == dev && k in unsafe))
    }

    // _writeback_v, with the rest of the device in view
    method WritebackStep(dev: nat, keys: set<BlockKey>, k: BlockKey, ghost unsafe: set<BlockKey>)
      requires Inv() && Whole() && Started(dev, keys) && k in keys && keys <= KeysOf(dev) && SoFar(dev, keys, unsafe)
      modifies `clean, `dirty, `errored, `pending, `nrIoPending
      modifies blocks`error, blocks`ioDir, blocks`ioPending, blocks`place, blocks`ioCount, blocks`inFlight,
          blocks`writes, blocks`issued, blocks`astray
      ensures Inv() && Whole() && Started(dev, keys - {k}) && SoFar(dev, keys - {k}, unsafe)
      ensures forall c :: c in blocks && (c.dirtyBits == {} || c.dev != dev) ==> unchanged(c)
    {
      hide Inv, Whole, Storage, Started, Unsafe;
      WholeIndex();
      WritebackV(dev, keys, k);
      forall l | l in keys && l != k ensures Unsafe(l) <==> old(Unsafe(l)) {
        UnsafeStill(l);
      }
    }

    // _writeback_v for every block of the device, in any order
    method WritebackDev(dev: nat)
      requires Valid()
      modifies `clean, `dirty, `errored, `pending, `nrIoPending
      modifies blocks`error, blocks`ioDir, blocks`ioPending, blocks`place, blocks`ioCount, blocks`inFlight,
          blocks`writes, blocks`issued, blocks`astray
      ensures Inv() && Whole() && Started(dev, {})
      ensures forall k :: k in rtree ==> rtree[k] in blocks && (rtree[k].astray <==> k.0 == dev && old(Unsafe(k)))
      ensures forall c :: c in blocks && (c.dirtyBits == {} || c.dev != dev) ==> unchanged(c)
    {
      hide Inv, Whole, Unsafe, Storage, Started, SoFar;
      Begins(dev);
      var keys := KeysOf(dev);
      ghost var unsafe := SoFarFirst(dev);
      while keys != {}
        invariant Inv() && Whole() && keys <= KeysOf(dev) && Started(dev, keys) && SoFar(dev, keys, unsafe)
        invariant forall c :: c in blocks && (c.dirtyBits == {} || c.dev != dev) ==> unchanged(c)
        decreases keys
      {
        var k :| k in keys;
        WritebackStep(dev, keys, k, unsafe);
        keys := keys - {k};
      }
      SoFarLast(dev, unsafe);
    }

    lemma SoFarFirst(dev: nat) returns (unsafe: set<BlockKey>)
      requires Valid()
      ensures SoFar(dev, KeysOf(dev), unsafe) && forall k :: k in unsafe <==> k in rtree && Unsafe(k)
    {
      hide Inv, Placed, Unsafe, Storage;
      IndexHolds();
      unsafe := set k | k in rtree && Unsafe(k);
    }

    lemma SoFarLast(dev: nat, unsafe: set<BlockKey>)
      requires SoFar(dev, {}, unsafe)
      ensures forall k :: k in rtree ==> rtree[k] in blocks && (rtree[k].astray <==> k.0 == dev && k in unsafe)
    {
    }

    twostate lemma UnsafeStill(k: BlockKey)
      requires k in rtree && rtree[k] in blocks && unchanged(`rtree, `disk, `logical, rtree[k], rtree[k].data)
      ensures Unsafe(k) <==> old(Unsafe(k))
    {
    }

    lemma Begins(dev: nat)
      requires Valid()
      ensures Whole() && Kept() && Started(dev, KeysOf(dev)) && Storage()
      ensures forall b :: b in blocks && b.refCount > 0 ==> b.Key() in rtree && rtree[b.Key()] == b
    {
      IndexHolds();
      forall b | b in blocks && b.refCount > 0 ensures b.Key() in rtree && rtree[b.Key()] == b {
        HeldIsIdle(b);
      }
    }

    lemma IndexHolds()
      requires Valid()
      ensures forall k :: k in rtree ==> rtree[k] in blocks && rtree[k].Key() == k && IsIndexed(rtree[k].place)
    {
    }

    // _issue_write for a dirty block, whatever list it is on.
    method StartAgain(b: Block)
      requires Inv() && Whole() && b in blocks && IsIndexed(b.place) && b.dirtyBits != {} && !b.astray
      modifies `clean, `dirty, `errored, `pending, `nrIoPending
      modifies b`error, b`ioDir, b`ioPending, b`place, b`ioCount, b`inFlight, b`writes, b`issued, b`astray
      ensures Inv() && Whole() && b.ioPending && !b.error && (b.astray <==> old(Rash(b)))
      ensures old(b.refCount == 0 && (b.ioPending ==> !b.error)) ==> !b.astray
      ensures b.writes == old(b.writes) + if old(b.ioPending) then 0 else 1
      ensures if old(b.ioPending) then b.ioDir == old(b.ioDir) && b.inFlight == old(b.inFlight) else b.ioDir.Write?
    {
      hide Inv, InvBut, Writable, RunsIssued, Without, BlockOk, Recovered;
      if b.ioPending {
        IsOk(b);
      } else {
        DirtyIsWritable(b);
      }
      IssueWrite(b);
    }

    lemma IsOk(b: Block)
      requires Inv() && b in blocks
      ensures InvBut(b) && BlockOk(b)
    {
    }

    twostate lemma PlacedStill(b: Block)
      requires old(Placed()) && b in blocks && b.place == Free && !b.ioPending
      requires forall c :: c in blocks && c != b ==> unchanged(c)
      ensures Placed()
    {
    }

    // _invalidate_v for one block: it is freed while the index still names it.
    method InvalidateV(b: Block) returns (ok: bool)
      requires Inv() && Placed() && b in blocks && IsIndexed(b.place) && !b.ioPending
      modifies `free, `clean, `dirty, `errored, `pending, `cached, `gone, b`place, b`astray
      ensures Inv() && Placed()
      ensures ok <==> !b.error && b.dirtyBits == {} && b.refCount == 0
      ensures ok ==> cached == old(cached) - {b.Key()} && gone == old(gone) + if old(b.astray) then {b.Key()} else {}
      ensures ok ==> !b.astray
      ensures !ok ==> unchanged(this) && unchanged(b)
    {
      hide InvBut, Inv, Without, OnDisk, Placed;
      if b.error || b.dirtyBits != {} {
        return false;
      }
      if b.refCount > 0 {
        return false;
      }
      AtRestNow(b);
      NotPending(b);
      Unlink(b);
      Drop(b);
      PlacedStill(b);
      ok := true;
    }

    lemma AtRestNow(b: Block)
      requires Inv() && b in blocks && IsIndexed(b.place) && !b.ioPending && !b.error && b.dirtyBits == {}
      ensures InvBut(b) && AtRest(b) && (b.astray || OnDisk(b))
    {
      hide Lists, Index, DiskOnly, Holders;
      assert BlockOk(b);
    }

    // What b should have is given up for lost.
    ghost method Abandon(b: Block)
      requires InvBut(b) && b in blocks
      modifies `gone, b`astray
      ensures InvBut(b) && !b.astray && gone == old(gone) + if old(b.astray) then {b.Key()} else {}
    {
      hide Lists, Index, Holders, BlockOk, Storage;
      if b.astray {
        gone := gone + {b.Key()};
        b.astray := false;
      }
    }

    method Drop(b: Block)
      requires InvBut(b) && b in blocks && b.place == Loose && AtRest(b) && b.refCount == 0 && (b.astray || OnDisk(b))
      requires b.dirtyBits == {}
      modifies `free, `cached, `gone, b`place, b`astray
      ensures Inv() && b.place == Free && cached == old(cached) - {b.Key()} && free == old(free) + [b] && !b.astray
      ensures gone == old(gone) + if old(b.astray) then {b.Key()} else {}
    {
      hide Core, Inv, OnDisk;
      Abandon(b);
      Forget(b);
      AddFree(b);
      FreedIsOk(b);
    }

    lemma CachedIs(k: BlockKey)
      requires Inv() && k in cached
      ensures cached[k] in blocks && cached[k].Key() == k && IsIndexed(cached[k].place)
    {
    }

    // No request; and what is not clean is on the errored list.
    ghost predicate Written(b: Block)
      reads b
    {
      !b.ioPending && (b.error || b.dirtyBits != {} ==> b.place == Errored)
    }

    // So are the device's blocks, as far as they are in the cache.
    ghost predicate AllWritten(dev: nat)
      reads `cached, blocks, cached.Values
    {
      forall k :: k in cached && k.0 == dev ==> cached[k] in blocks && Written(cached[k])
    }

    // What the index will hold: the rest of the cache, and the device's blocks
    // that are in keys or could not be freed; and those are errored or held.
    ghost predicate Remaining(dev: nat, keys: set<BlockKey>)
      reads `rtree, `cached, blocks, rtree.Values, cached.Values
    {
      && (forall k :: k in rtree && (k.0 != dev || k in keys) ==> k in cached)
      && (forall k :: k in cached ==> k in rtree && cached[k] == rtree[k])
      && (forall k :: k in rtree && k.0 == dev && k !in keys ==> (k in cached <==> rtree[k].error || rtree[k].dirtyBits != {} || rtree[k].refCount > 0))
    }

    lemma DistinctBlocks(k: BlockKey)
      requires Inv() && k in cached
      ensures forall l :: l in cached && l != k ==> cached[l] != cached[k]
    {
    }

    // Nothing of the device is under way, or to be written.
    ghost predicate Settled(dev: nat)
      reads `rtree, blocks
    {
      forall k :: k in rtree && k.0 == dev ==> rtree[k] in blocks && !rtree[k].ioPending && rtree[k].dirtyBits == {}
    }

    // Nothing of the device is in the way of dropping it.
    ghost predicate Droppable(dev: nat)
      reads `rtree, blocks`error, blocks`dirtyBits, blocks`refCount
    {
      forall k :: k in rtree && k.0 == dev ==>
        rtree[k] in blocks && !rtree[k].error && rtree[k].dirtyBits == {} && rtree[k].refCount == 0
    }

    // This block cannot be dropped: it is held, or left by a failed prefetch.
    ghost predicate Wedged(d: nat, i: nat)
      reads `rtree, blocks`ioPending, blocks`error, blocks`ioDir, blocks`dirtyBits, blocks`refCount
    {
      LostRead(d, i) || Taken(d, i)
    }

    lemma Dropped(dev: nat)
      requires Remaining(dev, {}) && forall k :: k in rtree ==> rtree[k] in blocks
      ensures (forall k :: k in cached ==> k.0 != dev) <==> Droppable(dev)
      ensures forall i: nat :: Wedged(dev, i) ==> (dev, i) in cached
    {
      forall k | k in rtree && k.0 == dev ensures k in cached <==> rtree[k].error || rtree[k].dirtyBits != {} || rtree[k].refCount > 0 {
      }
    }

    method FreeKey(k: BlockKey, b: Block) returns (freed: bool)
      requires b in blocks && k in cached && cached[k] == b && !b.ioPending && Inv() && Placed()
      modifies `free, `clean, `dirty, `errored, `pending, `cached, `gone, blocks`place, blocks`astray
      ensures Inv() && Placed()
      ensures freed <==> !b.error && b.dirtyBits == {} && b.refCount == 0
      ensures forall c :: c in blocks && (c.refCount > 0 || c != b) ==> unchanged(c)
      ensures if freed then cached == old(cached) - {k} else unchanged(`cached) && unchanged(b)
      ensures gone == old(gone) + (if freed && old(b.astray) then {k} else {}) && (freed ==> !b.astray)
    {
      hide Inv, Placed, IsIndexed, Storage;
      CachedIs(k);
      freed := InvalidateV(b);
    }

    // The same, with the rest of the device in view.
    method FreeStep(dev: nat, keys: set<BlockKey>, k: BlockKey, b: Block) returns (freed: bool)
      requires b in blocks && k in rtree && rtree[k] == b && k in keys && keys <= KeysOf(dev)
      requires Inv() && Placed() && Remaining(dev, keys) && AllWritten(dev)
      modifies `free, `clean, `dirty, `errored, `pending, `cached, `gone, blocks`place, blocks`astray
      ensures Inv() && Placed() && Remaining(dev, keys - {k}) && AllWritten(dev)
      ensures forall c :: c in blocks && (c.refCount > 0 || c != b) ==> unchanged(c)
      ensures k in old(cached) && if freed then cached == old(cached) - {k} else unchanged(`cached) && unchanged(b)
      ensures gone == old(gone) + (if freed && old(b.astray) then {k} else {}) && (freed ==> !b.astray)
    {
      hide Inv, Placed, Storage;
      DistinctBlocks(k);
      freed := FreeKey(k, b);
    }

    // What has been freed of the blocks that were astray is gone.
    ghost predicate Accounted(strayed: set<BlockKey>)
      reads `rtree, `cached, `gone, blocks
    {
      && cached.Keys <= rtree.Keys && gone == strayed - cached.Keys
      && (forall k :: k in rtree ==> rtree[k] in blocks && rtree[k].Key() == k)
      && (forall k :: k in cached ==> (rtree[k].astray <==> k in strayed))
    }

    // The same, one block on.
    method FreeNext(dev: nat, keys: set<BlockKey>, k: BlockKey, ghost strayed: set<BlockKey>) returns (freed: bool)
      requires k in keys && keys <= KeysOf(dev) && Accounted(strayed)
      requires Inv() && Placed() && Remaining(dev, keys) && AllWritten(dev)
      modifies `free, `clean, `dirty, `errored, `pending, `cached, `gone, blocks`place, blocks`astray
      ensures Inv() && Placed() && Remaining(dev, keys - {k}) && AllWritten(dev) && Accounted(strayed)
      ensures forall c :: c in blocks ==> (c.refCount > 0 ==> unchanged(c)) && (c.astray ==> old(c.astray))
      ensures k in old(cached) && cached == if freed then old(cached) - {k} else old(cached)
    {
      hide Inv, Placed, AllWritten, Remaining, Storage;
      freed := FreeStep(dev, keys, k, rtree[k]);
    }

    // _invalidate_v for every block of the device, in any order
    method FreeDev(dev: nat) returns (ok: bool)
      requires Inv() && Whole() && AllWritten(dev)
      modifies `free, `clean, `dirty, `errored, `pending, `cached, `gone, blocks`place, blocks`astray
      ensures Inv() && Placed() && Remaining(dev, {}) && AllWritten(dev)
      ensures forall c :: c in blocks ==> (c.refCount > 0 ==> unchanged(c)) && (c.astray ==> old(c.astray))
      ensures ok <==> forall k :: k in cached ==> k.0 != dev
      ensures forall k :: k in gone <==> k in rtree && k !in cached && rtree[k] in blocks && old(rtree[k].astray)
    {
      hide Inv, Whole, Placed, AllWritten, Remaining, Storage, Accounted;
      ghost var strayed := AccountedFirst(dev);
      ok := true;
      var keys := KeysOf(dev);
      while keys != {}
        invariant Inv() && Placed() && keys <= KeysOf(dev) && Remaining(dev, keys) && AllWritten(dev)
        invariant Accounted(strayed)
        invariant ok <==> forall k :: k in cached && k.0 == dev ==> k in keys
        invariant forall c :: c in blocks ==> (c.refCount > 0 ==> unchanged(c)) && (c.astray ==> old(c.astray))
        decreases keys
      {
        var k :| k in keys;
        var freed := FreeNext(dev, keys, k, strayed);
        ok := ok && freed;
        keys := keys - {k};
      }
      AccountedIs(strayed);
    }

    lemma AccountedFirst(dev: nat) returns (strayed: set<BlockKey>)
      requires Inv() && Whole()
      ensures Accounted(strayed) && Remaining(dev, KeysOf(dev)) && Placed()
      ensures forall k :: k in rtree ==> rtree[k] in blocks && (k in strayed <==> rtree[k].astray)
      ensures forall k :: k in strayed ==> k in rtree
      ensures forall k :: k in cached && k.0 == dev ==> k in KeysOf(dev)
    {
      hide Inv, Whole, Placed, Accounted, Remaining, IsIndexed;
      WholeIndex();
      NoneRemoved(dev);
      strayed := set k | k in rtree && rtree[k].astray;
      NoneFreed(strayed);
    }

    lemma NoneRemoved(dev: nat)
      requires Whole()
      ensures Remaining(dev, KeysOf(dev)) && Placed() && cached == rtree
    {
    }

    lemma NoneFreed(strayed: set<BlockKey>)
      requires Whole() && forall k :: k in rtree ==> rtree[k] in blocks && rtree[k].Key() == k
      requires forall k :: k in strayed <==> k in rtree && rtree[k].astray
      ensures Accounted(strayed)
    {
      hide Placed;
      assert strayed - cached.Keys == {};
    }

    lemma AccountedIs(strayed: set<BlockKey>)
      requires Accounted(strayed)
      ensures forall k :: k in gone <==> k in strayed && k !in cached
      ensures forall k :: k in rtree ==> rtree[k] in blocks
    {
    }

    // After the wait, the blocks of the device are written, or have failed.
    twostate lemma WaitedOut(dev: nat)
      requires old(Inv() && Whole()) && Inv() && Waits() && pending == []
      requires old(Started(dev, {}))
      ensures AllWritten(dev)
    {
      hide Inv, Whole, Block.Waited, Written;
      RequestsOver();
      forall k | k in cached && k.0 == dev ensures cached[k] in blocks && Written(cached[k]) {
        CachedIs(k);
        WholeIs(k);
        WrittenOut(cached[k]);
      }
    }

    lemma RequestsOver()
      requires Inv() && pending == []
      ensures forall b :: b in blocks ==> !b.ioPending
    {
      hide Inv;
      forall b | b in blocks ensures !b.ioPending {
        NotPendingNow(b);
      }
    }

    twostate lemma WholeIs(k: BlockKey)
      requires old(Whole()) && k in cached && unchanged(`cached, `rtree)
      ensures k in rtree && rtree[k] == cached[k] && old(Placed())
    {
    }

    // A block that was at rest and had nothing to write, or has been waited for.
    twostate lemma WrittenOut(b: Block)
      requires b in blocks && old(Inv()) && old(Placed()) && Inv() && b.Waited() && !b.ioPending && IsIndexed(b.place)
      requires old(b.dirtyBits != {} ==> b.ioPending)
      ensures Written(b)
    {
      hide Lists, Index, DiskOnly, Holders, Coherent;
      assert BlockOk(b) && old(BlockOk(b));
    }

    lemma NotPendingNow(b: Block)
      requires Inv() && b in blocks && pending == []
      ensures !b.ioPending
    {
      if b.ioPending {
        PendingListed(b);
      }
    }

    lemma NoneStuckNow()
      requires Valid()
      ensures forall b :: b in blocks ==> !b.IsStuck()
    {
    }

    // Nobody's data or references have changed, but that dirty blocks of the device
    // that are held have been written.
    twostate predicate UnnoticedBut(dev: nat)
      reads `logical, `nrLocked, `held, blocks, buffers
    {
      && Storage() && unchanged(`logical, `nrLocked, `held)
      && forall c :: c in blocks && old(c.refCount) > 0 ==>
        && c.Key() == old(c.Key()) && c.refCount == old(c.refCount) && c.data[..] == old(c.data[..])
        && (c.dev != dev || old(c.dirtyBits) == {} ==> unchanged(c))
    }

    // The wait after it: no data that is held changes.
    method WaitForDev(dev: nat)
      requires Inv() && Whole() && Started(dev, {})
      requires forall b :: b in blocks && b.refCount > 0 && b.ioPending ==> b.ioDir.Write?
      modifies `disk, `clean, `dirty, `errored, `pending, `nrIoPending, blocks, buffers
      ensures Inv() && Whole() && AllWritten(dev) && unchanged(`logical, `nrLocked, `held, `rtree)
      ensures forall c :: c in blocks ==>
        c.Key() == old(c.Key()) && c.refCount == old(c.refCount) && c.astray == old(c.astray)
      ensures forall c :: c in blocks && (!old(c.ioPending) || c.refCount > 0) ==> c.data[..] == old(c.data[..])
      ensures forall c :: c in blocks && !old(c.ioPending) ==> unchanged(c)
    {
      hide Inv, Started, AllWritten;
      NoStuckBlock();
      hide Placed;
      var hung := WaitAll();
      StillPlaced();
      WaitedOut(dev);
    }

    // The first half of _invalidate_dev: write the device out.
    method CleanDev(dev: nat)
      requires Valid()
      modifies `disk, `clean, `dirty, `errored, `pending, `nrIoPending, blocks, buffers
      ensures Inv() && Whole() && UnnoticedBut(dev) && unchanged(`rtree) && AllWritten(dev)
      ensures forall k :: k in rtree ==> rtree[k] in blocks && (rtree[k].astray <==> k.0 == dev && old(Unsafe(k)))
      ensures forall c :: c in blocks && !old(c.ioPending) && old(c.dirtyBits) == {} ==> unchanged(c)
    {
      hide Inv, Whole, Started, AllWritten, Unsafe, Storage, Coherent;
      Begins(dev);
      AllHeldAtRest();
      WritebackDev(dev);
      DirtyIsWritten();
      WaitForDev(dev);
    }

    lemma AllHeldAtRest()
      requires Valid()
      ensures forall b :: b in blocks && b.refCount > 0 ==> !b.ioPending
    {
      forall b | b in blocks && b.refCount > 0 ensures !b.ioPending {
        HeldAtRest(b);
      }
    }

    lemma DirtyIsWritten()
      requires Inv()
      ensures forall b :: b in blocks && b.ioPending && b.dirtyBits != {} ==> b.ioDir.Write?
    {
      hide Lists, Index, DiskOnly, Holders, Coherent;
      forall b | b in blocks && b.ioPending && b.dirtyBits != {} ensures b.ioDir.Write? {
        assert BlockOk(b);
      }
    }

    lemma NoStuckBlock()
      requires Placed()
      ensures forall b :: b in blocks ==> !b.IsStuck()
    {
    }

    // radix_tree_remove_prefix with the four bytes of the device
    method Prune(dev: nat)
      modifies `rtree
      ensures rtree == map k | k in old(rtree) && k.0 != dev :: old(rtree)[k]
    {
      rtree := map k | k in rtree && k.0 != dev :: rtree[k];
    }

    // Writing the device out does nothing to what is not dirty.
    twostate lemma RestKept(dev: nat)
      requires old(Valid()) && UnnoticedBut(dev) && unchanged(`rtree)
      requires forall c :: c in blocks && !old(c.ioPending) && old(c.dirtyBits) == {} ==> unchanged(c)
      ensures old(Settled(dev)) ==> (Droppable(dev) <==> old(Droppable(dev)))
      ensures forall i: nat :: old(Wedged(dev, i)) ==> Wedged(dev, i)
    {
      hide Inv, Tidy;
    }

    // What was lossy is not held, and has something to write.
    lemma LossyIsUnsafe(d: nat, i: nat)
      requires Valid() && (d, i) in rtree
      ensures Lossy(d, i) <==> Unsafe((d, i)) && rtree[(d, i)].refCount == 0
    {
      hide Lists, DiskOnly, Holders, Coherent;
      assert BlockOk(rtree[(d, i)]);
    }

    // Write the device out and free its blocks.
    method EmptyDev(dev: nat) returns (ok: bool)
      requires Valid()
      modifies this, blocks, buffers
      ensures Inv() && Placed() && UnnoticedBut(dev) && unchanged(`rtree) && Remaining(dev, {}) && AllWritten(dev)
      ensures ok <==> forall k :: k in cached ==> k.0 != dev
      ensures forall i: nat :: old(Wedged(dev, i)) ==> (dev, i) in cached
      ensures old(Settled(dev)) ==> (ok <==> old(Droppable(dev)))
      ensures forall k :: k in gone <==> k.0 == dev && k !in cached && old(Lossy(k.0, k.1))
      ensures ok && gone == {} ==> Kept()
    {
      hide Inv, Placed, Started, AllWritten, Settled, Droppable, Wedged, Unsafe, Lossy, Storage, Remaining;
      LossyAre();
      CleanDev(dev);
      RestKept(dev);
      WholeIndex();
      ok := FreeDev(dev);
      Dropped(dev);
      AstrayIsCached();
    }

    lemma LossyFails(d: nat, i: nat)
      requires Valid() && Lossy(d, i)
      ensures rtree[(d, i)].ioPending && rtree[(d, i)].error
    {
      hide Lists, Index, DiskOnly, Holders;
      assert BlockOk(rtree[(d, i)]);
    }

    lemma LossyAre()
      requires Valid()
      ensures forall k: BlockKey :: Lossy(k.0, k.1) <==> k in rtree && Unsafe(k) && rtree[k].refCount == 0
    {
      hide Inv, Tidy, Lossy, Unsafe;
      IndexHolds();
      forall k: BlockKey | k in rtree ensures Lossy(k.0, k.1) <==> Unsafe(k) && rtree[k].refCount == 0 {
        LossyIsUnsafe(k.0, k.1);
      }
      forall k: BlockKey | k !in rtree ensures !Lossy(k.0, k.1) {
        LossyIsIndexed(k.0, k.1);
      }
    }

    lemma LossyIsIndexed(d: nat, i: nat)
      ensures Lossy(d, i) ==> (d, i) in rtree
    {
    }

    lemma AstrayIsCached()
      requires Inv()
      ensures forall b :: b in blocks && b.astray ==> b.Key() in cached && cached[b.Key()] == b
    {
      hide DiskOnly, Holders, Lists, Coherent;
      forall b | b in blocks && b.astray ensures b.Key() in cached && cached[b.Key()] == b {
        assert BlockOk(b);
      }
    }

    // Of what is dirty nobody holds any, and no write that is under way has lost any.
    ghost predicate Released(dev: nat)
      reads `rtree, `disk, `logical, blocks, buffers
    {
      forall i: nat :: !Lossy(dev, i) && !(Taken(dev, i) && Unwritten(dev, i))
    }

    lemma ReleasedIs(dev: nat)
      requires Valid()
      ensures Released(dev) ==> forall b :: b in blocks && b.refCount > 0 ==> b.dev != dev || b.dirtyBits == {}
    {
      hide Inv, Tidy, Lossy;
      Begins(dev);
      if Released(dev) {
        forall b | b in blocks && b.refCount > 0 ensures b.dev != dev || b.dirtyBits == {} {
          assert !(Taken(b.dev, b.index) && Unwritten(b.dev, b.index)) || b.dev != dev;
        }
      }
    }

    /** _invalidate_dev.  Whatever the outcome, the index loses the device; on
        failure the blocks that could not be written, or are held, are left on a
        list, and the cache is no longer Valid().  Nor is it, although the answer is
        success, when a part of a write that was under way had failed: that is
        forgotten, and the stored bytes are gone. */
    method InvalidateDev(dev: nat) returns (ok: bool)
      requires Valid()
      modifies this, blocks, buffers
      ensures Inv() && Placed() && UnnoticedBut(dev) && (old(Released(dev)) ==> Unnoticed())
      ensures forall k :: k in rtree <==> k in old(rtree) && k.0 != dev
      ensures forall k :: k in rtree ==> rtree[k] == old(rtree[k]) && k in cached && cached[k] == rtree[k]
      ensures forall k :: k in cached && k !in rtree ==>
        k.0 == dev && (cached[k].place == Errored || cached[k].refCount > 0)
      ensures !ok ==> exists k :: k in cached && k !in rtree
      ensures Valid() <==> ok && gone == {}
      // what is lost
      ensures forall k :: k in gone <==> k.0 == dev && k !in cached && old(Lossy(k.0, k.1))
      ensures ok ==> forall i: nat, o: nat :: o < BlockSize() && !old(Lossy(dev, i)) ==>
        disk(dev, i, o) == logical(dev, i, o)
      // what a failed prefetch has left, and what is held, cannot be freed; when
      // there is nothing to write, that is all that can be in the way
      ensures forall i: nat :: old(Wedged(dev, i)) ==> !ok && (dev, i) in cached && (dev, i) !in rtree
      ensures old(Settled(dev)) ==> (ok <==> old(Droppable(dev)))
    {
      hide Inv, Placed, Settled, Droppable, Wedged, Lossy, Remaining, AllWritten;
      ReleasedIs(dev);
      ok := EmptyDev(dev);
      RemainingIs(dev);
      Prune(dev);
      if ok {
        assert rtree == cached;
      }
      DeviceOnDisk(dev);
    }

    twostate lemma KeptSame(dev: nat)
      requires UnnoticedBut(dev)
      ensures unchanged(`logical, `nrLocked, `held)
    {
    }

    lemma RemainingIs(dev: nat)
      requires Remaining(dev, {}) && AllWritten(dev)
      ensures forall k :: k in rtree && k.0 != dev ==> k in cached
      ensures forall k :: k in cached ==> k in rtree && cached[k] == rtree[k]
      ensures forall k :: k in cached && k.0 == dev ==> cached[k].place == Errored || cached[k].refCount > 0
    {
    }

    lemma DeviceOnDisk(dev: nat)
      requires Inv()
      ensures forall i: nat, o: nat :: o < BlockSize() && (dev, i) !in cached && (dev, i) !in gone ==>
        disk(dev, i, o) == logical(dev, i, o)
    {
    }
  }
}
