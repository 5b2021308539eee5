// Runs from a new cache that end as the documentation of the cache does not say.
module Departures {
  import opened BlockCache
  import opened ByteIo
  import opened ByteRanges
  import opened Bytes
  import opened CacheState
  import opened DeviceTable

  // A cache of one block.
  method OneBlock(sectors: nat, onDisk: Contents, reliable: bool) returns (iom: IoManager)
    requires 0 < sectors <= MAX_BLOCK_SECTORS
    ensures fresh(iom) && fresh(iom.blocks) && fresh(iom.buffers) && iom.Valid()
    ensures iom.blockSectors == sectors && iom.maxIo == 1 && iom.nrIoPending == 0 && iom.reliable == reliable
    ensures iom.logical == onDisk
    ensures |iom.free| == |iom.blocks| == 1 && iom.rtree == map[] && iom.held == {}
  {
    var made := IoManager.Create(sectors, 1, 1, 1, onDisk, reliable);
    iom := made.value;
  }

  // The block has one sector.
  method Small(onDisk: Contents, reliable: bool) returns (iom: IoManager)
    ensures fresh(iom) && fresh(iom.blocks) && fresh(iom.buffers) && iom.Valid()
    ensures iom.blockSectors == 1 && iom.maxIo == 1 && iom.nrIoPending == 0 && iom.reliable == reliable
    ensures |iom.free| == |iom.blocks| == 1 && iom.rtree == map[] && iom.held == {}
  {
    iom := OneBlock(1, onDisk, reliable);
  }

  // The lists, when the one block is held and clean.
  lemma OnlyClean(iom: IoManager, b: Block)
    requires iom.Valid() && |iom.blocks| == 1 && b in iom.blocks && b.refCount > 0 && b.dirtyBits == {}
    ensures iom.Jammed() && forall k :: k in iom.rtree ==> k == b.Key()
  {
    assert iom.BlockOk(b);
    assert iom.Places()[b] == Clean;
    iom.Conservation();
    assert b in iom.clean;
    iom.IndexHolds();
    OneBlockOnly(iom, b);
  }

  lemma OneBlockOnly(iom: IoManager, b: Block)
    requires |iom.blocks| == 1 && b in iom.blocks
    ensures forall c :: c in iom.blocks ==> c == b
  {
    assert |iom.blocks - {b}| == 0;
    assert iom.blocks == iom.blocks - {b} + {b};
  }

  /** With its only block held for reading, the cache waits for ever when asked for
      another one. */
  method GetHangs(onDisk: Contents) returns (r: Fetched)
    ensures r.Hung?
  {
    hide IoManager.Inv, IoManager.Tidy, IoManager.Jammed;
    var iom := Small(onDisk, true);
    assert iom.free != [];
    ghost var zeroed;
    r, zeroed := iom.GetBlockMask(false, 0, 0, PLAIN, {});
    NothingFaulty(iom, 0, 0);
    iom.HeldIs();
    OnlyClean(iom, r.block);
    r, zeroed := iom.GetBlockMask(false, 0, 1, PLAIN, {});
  }

  lemma NothingFaulty(iom: IoManager, d: nat, i: nat)
    requires iom.Inv() && iom.reliable
    ensures !iom.Faulty(d, i)
  {
    iom.NoErrors();
  }

  // What the failure of requests for b leaves alone.
  twostate predicate OnlyFailed(iom: IoManager, b: Block)
    reads iom, b, b.data
  {
    b.Waited() && unchanged(iom`logical, iom`rtree, iom`cached, iom`held, iom`nrLocked, iom`free)
  }

  // A request for b fails.
  method FailOne(iom: IoManager, b: Block)
    requires iom.Valid() && b in iom.blocks && b.ioPending && !iom.reliable
    modifies iom`disk, iom`clean, iom`errored, iom`pending, iom`dirty, iom`nrIoPending, b, b.data
    ensures iom.Valid() && OnlyFailed(iom, b) && b.error && |b.inFlight| < |old(b.inFlight)|
  {
    hide IoManager.Inv, IoManager.Tidy, IoManager.Core, Block.RunsOk;
    iom.NoneStuckNow();
    iom.PendingListed(b);
    iom.PendingHasRequest(b);
    var r :| r in b.inFlight;
    iom.Own(b);
    iom.CompleteOne(Completion(b, r, false));
    iom.StillTidy();
  }

  // All of them do.
  method FailAll(iom: IoManager, b: Block)
    requires iom.Valid() && b in iom.blocks && b.ioPending && !iom.reliable
    modifies iom`disk, iom`clean, iom`errored, iom`pending, iom`dirty, iom`nrIoPending, b, b.data
    ensures iom.Valid() && OnlyFailed(iom, b) && b.error && !b.ioPending
  {
    hide IoManager.Inv, IoManager.Tidy;
    FailOne(iom, b);
    while b.ioPending
      invariant iom.Valid() && OnlyFailed(iom, b) && b.error
      decreases |b.inFlight|
    {
      FailOne(iom, b);
    }
  }

  // The block holds sevens, and a write of it has failed.
  method Sevens(onDisk: Contents) returns (iom: IoManager)
    ensures fresh(iom) && fresh(iom.blocks) && fresh(iom.buffers) && iom.Valid() && iom.blockSectors == 1
    ensures iom.held == {}
    ensures iom.LostWrite(0, 0) && iom.logical(0, 0, 0) == 7
  {
    hide IoManager.Inv, IoManager.Tidy, IoManager.Refused, IoManager.Faulty;
    iom := Small(onDisk, false);
    assert iom.free != [];
    var got, zeroed := iom.GetBlockMask(false, 0, 0, ZERO, FullMask(1));
    var b := got.block;
    iom.HeldIs();
    HeldIsNamed(iom, b);
    iom.Store(b, 0, Fill(512, 7));
    iom.PutBlock(b);
    iom.HeldIs();
    WillFail(iom, b);
  }

  /** A block whose write has failed is zeroed by a whole-block write that is
      refused: what is read of it after that is neither the old nor the new. */
  method WriteZeroes(onDisk: Contents) returns (r: Outcome, ghost before: Byte, ghost after: Byte)
    ensures r.Failed? && before == 7 && after == 0
  {
    hide IoManager.Inv, IoManager.Tidy, IoManager.Refused, IoManager.Faulty, IoManager.LostWrite;
    var iom := Sevens(onDisk);
    before := iom.logical(0, 0, 0);
    ghost var written, reached;
    r, written, reached := WriteBytes(iom, false, 0, 0, Fill(512, 5));
    assert At(iom.logical, 0, 0, 512) == 0;
    after := iom.logical(0, 0, 0);
  }

  lemma HeldIsNamed(iom: IoManager, b: Block)
    requires iom.Valid() && b in iom.blocks && b.refCount > 0
    ensures b.Key() in iom.rtree && iom.rtree[b.Key()] == b
  {
    hide IoManager.Inv;
    iom.HeldIsIdle(b);
  }

  // Write b out, without success.
  method WillFail(iom: IoManager, b: Block)
    requires iom.Valid() && b in iom.blocks && b.dirtyBits != {} && b.refCount == 0 && !iom.reliable
    requires b.Key() in iom.rtree && iom.rtree[b.Key()] == b
    modifies iom`disk, iom`clean, iom`errored, iom`pending, iom`dirty, iom`nrIoPending, iom.blocks, iom.buffers
    ensures iom.Valid() && iom.LostWrite(old(b.dev), old(b.index)) && unchanged(iom`logical, iom`held)
  {
    hide IoManager.Inv, IoManager.Tidy;
    iom.IndexHolds();
    iom.StorageHolds();
    if !b.ioPending {
      StartWriting(iom, b);
    }
    PendingWrite(iom, b);
    FailAll(iom, b);
  }

  // A write of a block that is at rest.
  method StartWriting(iom: IoManager, b: Block)
    requires iom.Valid() && b in iom.blocks && IsIndexed(b.place) && b.dirtyBits != {} && b.refCount == 0 && !b.ioPending
    modifies iom`clean, iom`dirty, iom`errored, iom`pending, iom`nrIoPending
    modifies b`error, b`ioDir, b`ioPending, b`place, b`ioCount, b`inFlight, b`writes, b`issued, b`astray
    ensures iom.Valid() && b.ioPending && !b.error
  {
    hide IoManager.Inv, IoManager.Placed;
    iom.StartAgain(b);
  }

  lemma PendingWrite(iom: IoManager, b: Block)
    requires iom.Inv() && b in iom.blocks && b.ioPending && b.dirtyBits != {}
    ensures b.ioDir.Write?
  {
    assert iom.BlockOk(b);
    iom.PendingListed(b);
    iom.PendingHasRequest(b);
  }

  /** A device with nothing but a failed prefetch is dropped without success,
      and its block is left behind, on a list but not in the index. */
  method DropLeavesBlock(onDisk: Contents) returns (iom: IoManager, ok: bool)
    ensures !ok && (0, 0) in iom.cached && (0, 0) !in iom.rtree
  {
    hide IoManager.Inv, IoManager.Tidy;
    iom := Small(onDisk, false);
    assert iom.free != [];
    iom.PrefetchBlock(0, 0);
    var b := iom.rtree[(0, 0)];
    FailAll(iom, b);
    iom.HeldIs();
    iom.IndexHolds();
    OneBlockOnly(iom, b);
    assert iom.LostRead(0, 0);
    ok := iom.InvalidateDev(0);
  }

  /** After a failed prefetch a flush waits for ever: the block is pending, with
      nothing to write, and no request is under way. */
  method FlushHangs(onDisk: Contents) returns (iom: IoManager, b: Block, hung: bool)
    ensures hung && b in iom.pending && b.dirtyBits == {} && iom.InFlight() == {}
  {
    hide IoManager.Inv, IoManager.Tidy, IoManager.TidyOrAdrift;
    iom := Small(onDisk, false);
    assert iom.free != [];
    iom.PrefetchBlock(0, 0);
    b := iom.rtree[(0, 0)];
    FailAll(iom, b);
    iom.IndexHolds();
    ReadIsLost(iom, b);
    var ok;
    ok, hung := iom.Flush();
    iom.PendingListed(b);
  }

  lemma ReadIsLost(iom: IoManager, b: Block)
    requires iom.Valid() && b in iom.blocks && b.ioDir.Read? && b.error && !b.ioPending
    requires b.Key() in iom.rtree && iom.rtree[b.Key()] == b
    ensures iom.HasLostRead() && b in iom.errored && b.place == Errored && b.Awaiting()
  {
    iom.IndexHolds();
    iom.ErroredPlaces();
    assert b.Awaiting();
  }

  // The block is read, and dirty in its first and third sectors.
  method TwoDirty(onDisk: Contents) returns (iom: IoManager, b: Block)
    ensures fresh(iom) && fresh(iom.blocks) && fresh(iom.buffers) && iom.Valid() && !iom.reliable && b in iom.blocks
    ensures iom.blockSectors == 3 && iom.held == {b} && b.refCount == 1 && b.Key() == (0, 0) && b.dirtyBits == {0, 2}
    ensures |iom.blocks| == 1
  {
    hide IoManager.Inv, IoManager.Tidy;
    iom := OneBlock(3, onDisk, false);
    assert iom.free != [];
    iom.PrefetchBlock(0, 0);
    b := iom.rtree[(0, 0)];
    SucceedRead(iom, b);
    iom.HeldIs();
    iom.IndexHolds();
    assert iom.Available(0, 0, true);
    var got, zeroed := iom.GetBlockMask(false, 0, 0, DIRTY, {0, 2});
    iom.HeldIs();
  }

  // The read of b works.
  method SucceedRead(iom: IoManager, b: Block)
    requires iom.Valid() && b in iom.blocks && b.ioPending && b.ioDir.Read? && !b.error
    modifies iom`disk, iom`clean, iom`errored, iom`pending, iom`dirty, iom`nrIoPending, iom.blocks, iom.buffers
    ensures iom.Valid() && !b.ioPending && !b.error && b.dirtyBits == {} && b.Waited()
  {
    hide IoManager.Inv, IoManager.Tidy, IoManager.Core, Block.RunsOk;
    iom.PendingListed(b);
    iom.PendingHasRequest(b);
    var r :| r in b.inFlight;
    iom.Own(b);
    OneRead(iom, b, r);
    iom.CompleteOne(Completion(b, r, true));
    NothingPending(iom, b);
    iom.StillTidy();
  }

  lemma OneRead(iom: IoManager, b: Block, r: Run)
    requires iom.Inv() && b in iom.blocks && r in b.inFlight && b.ioDir.Read?
    ensures b.inFlight == {r}
  {
    assert iom.BlockOk(b);
  }

  // One request of a write fails, and the disk is as it was.
  method FailQuietly(iom: IoManager, b: Block, r: Run)
    requires iom.Valid() && b in iom.blocks && r in b.inFlight && b.ioDir.Write? && !iom.reliable
    modifies iom`clean, iom`errored, iom`pending, iom`dirty, iom`nrIoPending, b
    ensures iom.Valid() && b.Waited() && b.inFlight == old(b.inFlight) - {r} && b.error
  {
    hide IoManager.Inv, IoManager.Tidy, IoManager.Storage;
    iom.StorageHolds();
    FailRun(iom, b, r);
    iom.StillTidy();
  }

  method FailRun(iom: IoManager, b: Block, r: Run)
    requires iom.Inv() && b in iom.blocks && r in b.inFlight && b.ioDir.Write? && !iom.reliable
    modifies iom`clean, iom`errored, iom`pending, iom`dirty, iom`nrIoPending, b
    ensures iom.Inv() && b.Waited() && b.inFlight == old(b.inFlight) - {r} && b.error
    ensures iom.dirty == old(iom.dirty) && old(iom.clean) <= iom.clean && old(iom.errored) <= iom.errored
  {
    hide IoManager.Lists, IoManager.Index, IoManager.DiskOnly, IoManager.Holders, IoManager.Coherent, IoManager.Storage;
    hide Block.RunsOk, IoManager.Progressed;
    iom.StorageHolds();
    iom.InFlightFacts(b, r);
    iom.OwnData(b);
    b.inFlight := b.inFlight - {r};
    iom.OnlyTransferred(b);
    iom.OneDone(Completion(b, r, false));
    iom.CompleteIo(b, true);
  }

  // The last request of a write works; what went before is forgotten.
  method FinishWrite(iom: IoManager, b: Block, r: Run)
    requires iom.Inv() && iom.Placed() && b in iom.blocks && b.astray && !b.error && b.ioDir.Write? && b.inFlight == {r}
    requires b.dirtyBits != {}
    modifies iom`disk, iom`clean, iom`errored, iom`pending, iom`dirty, iom`nrIoPending, b, b.data
    ensures iom.Inv() && iom.Placed() && b.Waited() && b.astray && !b.error && !b.ioPending
    ensures forall o: nat :: !Covers(r, SectorOf(o)) ==> iom.disk(b.dev, b.index, o) == old(iom.disk)(b.dev, b.index, o)
  {
    hide IoManager.Inv, IoManager.Placed, IoManager.Storage;
    iom.StorageHolds();
    iom.Own(b);
    iom.CompleteOne(Completion(b, r, true));
    NothingPending(iom, b);
    assert iom.Waits();
    iom.StillPlaced();
  }

  lemma NothingPending(iom: IoManager, b: Block)
    requires iom.Inv() && b in iom.blocks && b.inFlight == {} && !b.IsStuck()
    ensures !b.ioPending
  {
    assert iom.BlockOk(b);
  }

  // The runs of a write of the first and the third sector, neither on the disk.
  lemma TwoRuns(iom: IoManager, b: Block)
    requires iom.Inv() && b in iom.blocks && b.ioPending && !b.error && b.ioDir.Write? && !b.astray
    requires iom.blockSectors == 3 && b.dirtyBits == {0, 2}
    requires iom.disk(b.dev, b.index, 0) != iom.logical(b.dev, b.index, 0)
    requires iom.disk(b.dev, b.index, 1024) != iom.logical(b.dev, b.index, 1024)
    ensures b.inFlight == {Run(0, 1), Run(2, 3)} && b.data.Length == 1536 && b.place == Pending && b.ioCount == 2
    ensures b.data[0] == iom.logical(b.dev, b.index, 0)
  {
    hide IoManager.Lists, IoManager.Index, IoManager.DiskOnly, IoManager.Holders;
    assert iom.BlockOk(b);
    assert Covered(b.inFlight, 0) && Covered(b.inFlight, 2) by {
      assert SectorOf(0) == 0 && SectorOf(1024) == 2;
    }
    forall r | r in b.inFlight ensures r == Run(0, 1) || r == Run(2, 3) {
      assert Covers(r, r.sb) && r.sb in b.dirtyBits;
      assert r.sb + 1 < r.se ==> Covers(r, r.sb + 1);
    }
    assert {Run(0, 1), Run(2, 3)} - {Run(0, 1)} == {Run(2, 3)};
  }

  function Another(v: Byte): Byte { if v == 7 then 8 else 7 }

  // Neither sector is on the disk as it is stored.
  ghost predicate Unsaved(iom: IoManager, b: Block)
    reads iom`disk, iom`logical, b`dev, b`index, b`dirtyBits
  {
    && b.Key() == (0, 0) && b.dirtyBits == {0, 2}
    && iom.disk(0, 0, 0) != iom.logical(0, 0, 0) && iom.disk(0, 0, 1024) != iom.logical(0, 0, 1024)
  }

  method StoreBoth(iom: IoManager, b: Block)
    requires iom.Valid() && b in iom.blocks && iom.blockSectors == 3 && iom.held == {b} && b.refCount == 1
    requires b.Key() == (0, 0) && b.dirtyBits == {0, 2}
    modifies iom, iom.blocks, iom.buffers
    ensures iom.Valid() && b.refCount == 0 && !b.error && IsIndexed(b.place) && Unsaved(iom, b)
  {
    hide IoManager.Inv, IoManager.Tidy;
    iom.HeldIs();
    HeldIsNamed(iom, b);
    iom.Own(b);
    var disk := iom.disk;
    iom.Store(b, 0, [Another(disk(0, 0, 0))]);
    iom.Store(b, 1024, [Another(disk(0, 0, 1024))]);
    iom.PutBlock(b);
    iom.IndexHolds();
    assert iom.rtree[(0, 0)] == b;
  }

  method WriteBoth(iom: IoManager, b: Block)
    requires iom.Valid() && b in iom.blocks && iom.blockSectors == 3
    requires b.refCount == 0 && !b.error && IsIndexed(b.place) && Unsaved(iom, b)
    modifies iom`clean, iom`dirty, iom`errored, iom`pending, iom`nrIoPending
    modifies b`error, b`ioDir, b`ioPending, b`place, b`ioCount, b`inFlight, b`writes, b`issued, b`astray
    ensures iom.Valid() && b.ioDir.Write? && b.inFlight == {Run(0, 1), Run(2, 3)} && b.data.Length == 1536
    ensures b.ioPending && b.refCount == 0 && Unsaved(iom, b)
  {
    hide IoManager.Inv, IoManager.Tidy;
    if !b.ioPending {
      StartWriting(iom, b);
    }
    iom.AllKept();
    PendingWrite(iom, b);
    TwoRuns(iom, b);
  }

  // The write has lost its first run, and is under way with the second.
  ghost predicate HalfLost(iom: IoManager, b: Block)
    reads iom, iom.blocks, iom.buffers
  {
    && iom.Valid() && b in iom.blocks && iom.Lossy(0, 0) && iom.rtree.Keys == {(0, 0)} && iom.rtree[(0, 0)] == b
    && b.Key() == (0, 0) && b.ioPending && b.ioDir.Write? && b.inFlight == {Run(2, 3)} && b.refCount == 0 && b.dirtyBits != {}
    && iom.disk(0, 0, 0) != iom.logical(0, 0, 0)
  }

  method LoseFirst(iom: IoManager, b: Block)
    requires iom.Valid() && b in iom.blocks && iom.blockSectors == 3 && !iom.reliable && b.ioDir.Write? && b.ioPending
    requires b.inFlight == {Run(0, 1), Run(2, 3)} && b.data.Length == 1536 && Unsaved(iom, b) && b.refCount == 0
    requires |iom.blocks| == 1
    modifies iom`clean, iom`errored, iom`pending, iom`dirty, iom`nrIoPending, b
    ensures HalfLost(iom, b)
  {
    hide IoManager.Inv, IoManager.Tidy;
    FailQuietly(iom, b, Run(0, 1));
    assert Run(2, 3) in b.inFlight && b.inFlight == {Run(2, 3)};
    StillUnderWay(iom, b);
    OnlyKey(iom, b);
    NotRecovered(iom, b);
  }

  lemma OnlyKey(iom: IoManager, b: Block)
    requires iom.Valid() && b in iom.blocks && |iom.blocks| == 1 && b.place == Pending
    ensures iom.rtree.Keys == {b.Key()} && iom.rtree[b.Key()] == b && iom.Storage()
  {
    OneBlockOnly(iom, b);
    iom.IndexHolds();
  }

  lemma NotRecovered(iom: IoManager, b: Block)
    requires b.Key() == (0, 0) && b.ioDir.Write? && b.inFlight == {Run(2, 3)} && b.data.Length == 1536
    requires iom.disk(0, 0, 0) != iom.logical(0, 0, 0)
    ensures !iom.Recovered(b)
  {
    assert SectorOf(0) == 0 && !Covered(b.inFlight, 0);
  }

  /** A write of two sectors, of which the first has failed, while the second is under
      way: now the device is invalidated.  _writeback_v starts the write once more,
      and forgets the failure; the second request works; _invalidate_v finds
      nothing amiss.  The answer is success, and what was stored is gone. */
  method DropForgets(onDisk: Contents) returns (iom: IoManager, b: Block, ok: bool)
    ensures ok && iom.rtree == map[] && (0, 0) in iom.gone && iom.disk(0, 0, 0) != iom.logical(0, 0, 0)
  {
    hide IoManager.Inv, IoManager.Tidy, HalfLost;
    iom, b := TwoDirty(onDisk);
    StoreBoth(iom, b);
    WriteBoth(iom, b);
    LoseFirst(iom, b);
    HalfLostIs(iom, b);
    ok := DropHalfLost(iom, b);
  }

  // The steps of _invalidate_dev.
  method DropHalfLost(iom: IoManager, b: Block) returns (ok: bool)
    requires HalfLost(iom, b) && b in iom.blocks && b.data in iom.buffers
    modifies iom, b, b.data
    ensures ok && iom.rtree == map[] && (0, 0) in iom.gone && iom.disk(0, 0, 0) != iom.logical(0, 0, 0)
  {
    hide IoManager.Inv, IoManager.Whole, IoManager.Placed, HalfLost, IoManager.Rash;
    HalfLostIs(iom, b);
    iom.StartAgain(b);
    assert !Covers(Run(2, 3), SectorOf(0));
    WholeIs(iom);
    FinishWrite(iom, b, Run(2, 3));
    WrittenIs(iom, b);
    ok := iom.InvalidateV(b);
    iom.Prune(0);
  }

  lemma HalfLostIs(iom: IoManager, b: Block)
    requires HalfLost(iom, b)
    ensures iom.Inv() && iom.Whole() && IsIndexed(b.place) && !b.astray && iom.Rash(b) && b in iom.blocks
    ensures b.dirtyBits != {}
    ensures iom.rtree.Keys == {(0, 0)} && b.Key() == (0, 0) && b.ioDir.Write? && b.inFlight == {Run(2, 3)}
    ensures b.refCount == 0
    ensures iom.disk(0, 0, 0) != iom.logical(0, 0, 0) && b.ioPending && b.data in iom.buffers
  {
    hide IoManager.Inv, IoManager.Placed, IoManager.Recovered;
    iom.IndexHolds();
  }

  lemma WholeIs(iom: IoManager)
    requires iom.Whole()
    ensures iom.Placed()
  {
  }

  lemma WrittenIs(iom: IoManager, b: Block)
    requires iom.Inv() && b in iom.blocks && b.astray
    ensures IsIndexed(b.place)
  {
    assert iom.BlockOk(b);
  }

  lemma StillUnderWay(iom: IoManager, b: Block)
    requires iom.Inv() && b in iom.blocks && b.inFlight != {}
    ensures b.ioPending && b.place == Pending && b.ioCount == |b.inFlight|
  {
    assert iom.BlockOk(b);
  }

  // The one block of the cache holds v throughout.
  method Filled(onDisk: Contents, v: Byte) returns (iom: IoManager, b: Block)
    ensures fresh(iom) && fresh(iom.blocks) && fresh(iom.buffers) && iom.Valid() && iom.blocks == {b}
    ensures iom.blockSectors == 2
    ensures iom.held == {} && (0, 0) in iom.rtree && iom.logical(0, 0, 512) == v && iom.reliable
    ensures forall o: nat :: iom.logical(0, 1, o) == onDisk(0, 1, o)
  {
    hide IoManager.Inv, IoManager.Tidy;
    iom := OneBlock(2, onDisk, true);
    assert iom.free != [];
    var got, zeroed := iom.GetBlockMask(false, 0, 0, ZERO, FullMask(2));
    b := got.block;
    iom.HeldIs();
    HeldIsNamed(iom, b);
    iom.Own(b);
    OneBlockOnly(iom, b);
    iom.Store(b, 0, Fill(1024, v));
    iom.PutBlock(b);
  }

  // It is clean, and v is in its second sector.
  method Stored(onDisk: Contents, v: Byte) returns (iom: IoManager, b: Block)
    ensures fresh(iom) && fresh(iom.blocks) && fresh(iom.buffers) && iom.Valid() && iom.blocks == {b}
    ensures iom.blockSectors == 2
    ensures iom.held == {} && iom.rtree.Keys == {(0, 0)} && iom.Spare() && b.data.Length == 1024 && b.data[512] == v
    ensures forall o: nat :: iom.logical(0, 1, o) == onDisk(0, 1, o)
  {
    hide IoManager.Inv, IoManager.Tidy, IoManager.TidyOrAdrift, IoManager.Adrift, IoManager.Spare;
    iom, b := Filled(onDisk, v);
    NoneLost(iom);
    var ok, hung := iom.Flush();
    AllClean(iom, b);
  }

  lemma NoneLost(iom: IoManager)
    requires iom.Valid() && iom.reliable && iom.held == {}
    ensures !iom.HasLostRead() && !iom.HoldsDirty()
  {
    iom.NoErrors();
    iom.ErroredPlaces();
    iom.HeldIs();
  }

  // After a flush that has worked.
  lemma AllClean(iom: IoManager, b: Block)
    requires iom.Valid() && iom.reliable && iom.blocks == {b} && iom.held == {} && iom.dirty == iom.pending == []
    requires (0, 0) in iom.rtree && iom.blockSectors == 2
    ensures iom.Spare() && iom.rtree.Keys == {(0, 0)} && b.data.Length == 1024
    ensures forall o :: 0 <= o < 1024 ==> b.data[o] == iom.logical(0, 0, o)
  {
    iom.IndexHolds();
    iom.HeldIs();
    assert b in iom.blocks && b.refCount == 0;
    assert iom.rtree[(0, 0)] == b && forall k :: k in iom.rtree ==> iom.rtree[k] == b;
    assert iom.rtree.Keys == {(0, 0)};
    IsClean(iom, b);
  }

  lemma IsClean(iom: IoManager, b: Block)
    requires iom.Valid() && iom.reliable && b in iom.blocks && IsIndexed(b.place) && iom.dirty == iom.pending == []
    ensures b in iom.clean && b.data.Length == iom.BlockSize()
    ensures forall o :: 0 <= o < b.data.Length ==> b.data[o] == iom.logical(b.dev, b.index, o)
  {
    iom.NoErrors();
    iom.Conservation();
    assert iom.BlockOk(b) && iom.Places()[b] == b.place;
  }

  /** A part of a block is zeroed that is not in the cache: in the rest of it the
      client finds bytes of another block, and not what is stored there. */
  method ZeroExposes(onDisk: Contents) returns (iom: IoManager, b: Block)
    ensures b in iom.held && b.Key() == (0, 1) && b.data.Length == 1024
    ensures b.data[512] == Another(onDisk(0, 1, 512)) != iom.logical(0, 1, 512) == onDisk(0, 1, 512) && !iom.Valid()
  {
    hide IoManager.Inv, IoManager.Tidy;
    iom, b := Stored(onDisk, Another(onDisk(0, 1, 512)));
    assert SectorOf(512) == 1;
    var got, zeroed := iom.GetBlockMask(false, 0, 1, ZERO, {0});
  }

  /** A flush while a dirty block is held: it says that all is well, and the block
      is dirty and on no list. */
  method FlushForgets(onDisk: Contents) returns (iom: IoManager, b: Block, ok: bool)
    ensures ok && b in iom.held && b.dirtyBits != {} && b.place == Loose && !iom.Valid()
  {
    hide IoManager.Inv, IoManager.Tidy, IoManager.TidyOrAdrift, IoManager.Adrift;
    iom := Small(onDisk, true);
    assert iom.free != [];
    var got, zeroed := iom.GetBlockMask(false, 0, 0, ZERO, FullMask(1));
    b := got.block;
    iom.HeldIs();
    HeldDirty(iom, b);
    var hung;
    ok, hung := iom.Flush();
    assert iom.errored != [] ==> iom.errored[0] in iom.errored;
    iom.NoErrors();
  }

  lemma HeldDirty(iom: IoManager, b: Block)
    requires iom.Valid() && b in iom.blocks && b.refCount > 0 && b.dirtyBits != {} && iom.reliable
    ensures b in iom.dirty && b.place == Dirty && !iom.HasLostRead()
  {
    iom.HeldPlace(b);
    iom.DirtyList();
    iom.NoErrors();
    iom.ErroredPlaces();
  }

  // A table with one device, opened for reading while its path named a regular file.
  method OneFile() returns (t: Table, d: Device)
    ensures fresh(t) && t.Valid() && t.opens && (forall e :: e in t.lru ==> fresh(e)) && d in t.lru
    ensures "a" in t.table && t.table["a"] == d && d.path == "a" && d.node == Regular
    ensures d.access == Access(false, true) && d.holders == 1
  {
    hide Table.Listed, Table.Unreferenced, Table.Numbered, Table.Opened, Table.Balanced;
    t := new Table(1, _ => Regular, true);
    var r, same := t.GetDev("a", Access(false, true));
    d := r.value;
    Alone(t, d);
  }

  lemma Alone(t: Table, d: Device)
    requires t.Valid() && d in t.lru
    ensures d.path in t.table && t.table[d.path] == d
  {
  }

  // The file system changes; the table does not notice.
  method Rename(t: Table, names: string -> Node)
    requires t.Valid()
    modifies t`names
    ensures t.Valid() && t.names == names
  {
    t.names := names;
  }

  /** A path is opened for reading, comes to name another device, and is to be opened
      for writing: a descriptor is open that no device has, and the one holder there
      was is lost. */
  method ReopenLeaks() returns (t: Table, d: Device, same: bool, ghost fd: nat)
    ensures !same && t.Leaked(fd) && !t.Valid() && d.holders == 0
  {
    hide Table.Listed, Table.Unreferenced, Table.Numbered, Table.Opened, Table.Balanced;
    t, d := OneFile();
    Rename(t, _ => Special(7));
    fd := t.nextFd;
    assert forall i :: 0 <= i < |t.lru| ==> t.lru[i] in t.lru;
    var r;
    r, same := t.GetDev("a", Access(false, false));
  }
}
