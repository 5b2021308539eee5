// io/io-manager-utils.c: reading and updating ranges of bytes.
module ByteIo {
  import opened BlockCache
  import opened ByteRanges
  import opened Bytes
  import opened CacheState

  datatype Outcome = Done | Failed | Stuck

  // The index has all the blocks of a range.
  ghost predicate InCache(rtree: map<BlockKey, Block>, dev: nat, range: (nat, nat)) {
    forall i: nat :: range.0 <= i < range.1 ==> (dev, i) in rtree
  }

  // Each block of a range was in the cache, or is being read, or could not be.
  ghost predicate Prefetched(iom: IoManager, before: map<BlockKey, Block>, dev: nat, range: (nat, nat))
    reads iom, iom.blocks
  {
    forall i: nat :: range.0 <= i < range.1 ==>
      (dev, i) in before || iom.Fetching(dev, i) || iom.nrIoPending >= iom.maxIo || iom.Starved()
  }

  /** io_prefetch_bytes */
  method PrefetchBytes(iom: IoManager, dev: nat, start: nat, len: nat)
    requires iom.Valid()
    modifies iom, iom.blocks, iom.buffers
    ensures iom.Valid() && iom.Unnoticed()
    ensures iom.BlockSize() > 0
    ensures InCache(old(iom.rtree), dev, BlockRange(start, len, iom.BlockSize())) ==>
      unchanged(iom) && forall c :: c in iom.blocks ==> unchanged(c)
    ensures Prefetched(iom, old(iom.rtree), dev, BlockRange(start, len, iom.BlockSize()))
    ensures iom.DirtySectors() <= old(iom.DirtySectors())
    // nothing comes into the cache but blocks of the range
    ensures var (bb, be) := BlockRange(start, len, iom.BlockSize());
      forall k :: k in iom.rtree && k !in old(iom.rtree) ==> k.0 == dev && bb <= k.1 < be
  {
    hide IoManager.Inv, IoManager.Tidy, IoManager.Spare, IoManager.Victim, IoManager.Room, IoManager.DirtySectors,
        IoManager.Fetching, IoManager.LostWrite, IoManager.InUseKept;
    iom.StorageHolds();
    var (bb, be) := BlockRange(start, len, iom.BlockSize());
    ghost var first := bb;
    while bb < be
      invariant first <= bb <= be && iom.Valid() && iom.Unnoticed() && iom.DirtySectors() <= old(iom.DirtySectors())
      invariant Prefetched(iom, old(iom.rtree), dev, (first, bb))
      invariant forall k :: k in iom.rtree && k !in old(iom.rtree) ==> k.0 == dev && first <= k.1 < bb
      invariant InCache(old(iom.rtree), dev, (first, be)) ==> unchanged(iom) && forall c :: c in iom.blocks ==>
        unchanged(c)
    {
      iom.PrefetchBlock(dev, bb);
      bb := bb + 1;
    }
  }

  const PLAIN := Flags(false, false)
  const DIRTY := Flags(true, false)
  const ZERO := Flags(false, true)

  // The blocks bb..be are in the cache, and clean.
  ghost predicate AllClean(iom: IoManager, dev: nat, bb: nat, be: nat)
    reads iom, iom.blocks
  {
    forall i: nat :: bb <= i < be ==> iom.CleanAt(dev, i)
  }

  lemma CleanIsInCache(iom: IoManager, dev: nat, bb: nat, be: nat)
    requires AllClean(iom, dev, bb, be)
    ensures InCache(iom.rtree, dev, (bb, be))
  {
    forall i: nat | bb <= i < be ensures (dev, i) in iom.rtree {
      assert iom.CleanAt(dev, i);
    }
  }

  method CopyAndPut(iom: IoManager, b: Block, offset: nat, blen: nat, data: array<Byte>, pos: nat)
    requires iom.Valid() && b in iom.blocks && offset + blen <= b.data.Length && pos + blen <= data.Length
    requires data !in iom.buffers && b.data in iom.buffers
    modifies iom, iom.blocks, data
    ensures iom.Valid() && iom.Storage() && iom.logical == old(iom.logical) && iom.OthersKept(b) && unchanged(iom`rtree)
    ensures iom.held == if old(b.refCount) == 1 then old(iom.held) - {b} else old(iom.held)
    ensures b.dirtyBits == old(b.dirtyBits) && b.Key() == old(b.Key()) && b.data[..] == old(b.data[..])
    ensures b.refCount == if old(b.refCount) > 0 then old(b.refCount) - 1 else 0
    ensures b.dirtyBits == {} ==> b.ioPending == old(b.ioPending) && b.error == old(b.error)
    ensures b.dirtyBits == {} ==> forall c :: c in iom.blocks && c != b ==> unchanged(c)
    ensures forall j :: pos <= j < pos + blen ==> data[j] == b.data[offset + (j - pos)]
    ensures forall j :: 0 <= j < data.Length && !(pos <= j < pos + blen) ==> data[j] == old(data[j])
    ensures iom.DirtySectors() == old(iom.DirtySectors())
  {
    hide IoManager.Inv, IoManager.Tidy, IoManager.DirtySectors;
    iom.StorageHolds();
    forall j | pos <= j < pos + blen {
      data[j] := b.data[offset + (j - pos)];
    }
    iom.PutBlock(b);
  }

  // Get a block, copy part of it, put it.
  method ReadPart(iom: IoManager, dev: nat, bb: nat, offset: nat, blen: nat, data: array<Byte>, pos: nat)
    returns (r: Outcome)
    requires iom.Valid() && offset + blen <= iom.BlockSize() && pos + blen <= data.Length && data !in iom.buffers
    modifies iom, iom.blocks, iom.buffers, data
    ensures iom.Valid() && iom.HeldKept() && iom.logical == old(iom.logical)
    ensures r.Done? ==> forall j :: pos <= j < pos + blen ==> data[j] == iom.logical(dev, bb, offset + (j - pos))
    ensures forall j :: 0 <= j < data.Length && !(pos <= j < pos + blen) ==> data[j] == old(data[j])
    ensures r.Stuck? ==> iom.held != {}
    ensures r.Failed? ==> iom.Refused(dev, bb, false)
    ensures old(iom.CleanAt(dev, bb)) ==> r.Done? && iom.HitOnly(dev, bb, false)
    ensures iom.DirtySectors() <= old(iom.DirtySectors())
  {
    hide IoManager.Inv, IoManager.Tidy, FullMask, IoManager.DirtySectors, IoManager.Victim, IoManager.Room,
        IoManager.Newest, IoManager.MovedToEnd, IoManager.Starved, IoManager.Exhausted, IoManager.LostWrite,
        IoManager.LostRead, IoManager.UnderWay, IoManager.Taken;
    iom.HeldIs();
    var got, zeroed := iom.GetBlockMask(false, dev, bb, PLAIN, FullMask(iom.blockSectors));
    if !got.Got? {
      return if got.Hung? then Stuck else Failed;
    }
    var b := got.block;
    iom.Own(b);
    iom.HeldIs();
    CopyAndPut(iom, b, offset, blen, data, pos);
    r := Done;
  }

  // The same, when all the blocks from bb on may be clean.
  method ReadNext(iom: IoManager, dev: nat, bb: nat, ghost be: nat, offset: nat, blen: nat, data: array<Byte>, pos: nat)
    returns (r: Outcome)
    requires iom.Valid() && offset + blen <= iom.BlockSize() && pos + blen <= data.Length && data !in iom.buffers
    modifies iom, iom.blocks, iom.buffers, data
    ensures iom.Valid() && iom.HeldKept() && iom.logical == old(iom.logical)
    ensures r.Done? ==> forall j :: pos <= j < pos + blen ==> data[j] == iom.logical(dev, bb, offset + (j - pos))
    ensures forall j :: 0 <= j < data.Length && !(pos <= j < pos + blen) ==> data[j] == old(data[j])
    ensures r.Stuck? ==> iom.held != {}
    ensures r.Failed? ==> iom.Refused(dev, bb, false)
    ensures bb < be && old(AllClean(iom, dev, bb, be)) ==> r.Done? && AllClean(iom, dev, bb + 1, be)
    ensures iom.DirtySectors() <= old(iom.DirtySectors())
  {
    hide IoManager.Inv, IoManager.Tidy, IoManager.HeldKept, IoManager.DirtySectors;
    iom.IndexHolds();
    assert bb < be && AllClean(iom, dev, bb, be) ==> iom.CleanAt(dev, bb);
    r := ReadPart(iom, dev, bb, offset, blen, data, pos);
    if bb < be && old(AllClean(iom, dev, bb, be)) {
      forall i: nat | bb + 1 <= i < be ensures iom.CleanAt(dev, i) {
        assert old(iom.CleanAt(dev, i));
      }
    }
  }

  /** io_read_bytes: what it reads is what has been stored.  It stops at the
      first block that cannot be had. */
  method ReadBytes(iom: IoManager, dev: nat, start: nat, len: nat, data: array<Byte>)
    returns (r: Outcome, ghost reached: nat)
    requires iom.Valid() && len <= data.Length && data !in iom.buffers
    modifies iom, iom.blocks, iom.buffers, data
    ensures iom.Valid() && iom.Storage() && iom.HeldKept() && iom.logical == old(iom.logical)
    ensures iom.BlockSize() > 0 && iom.DirtySectors() <= old(iom.DirtySectors())
    ensures reached <= len && (r.Done? ==> reached == len)
    ensures forall j :: 0 <= j < reached ==> data[j] == At(iom.logical, dev, start + j, iom.BlockSize())
    ensures forall j :: len <= j < data.Length ==> data[j] == old(data[j])
    ensures r.Stuck? ==> iom.held != {}
    ensures r.Failed? ==> iom.Refused(dev, BlockOf(start + reached, iom.BlockSize()), false)
    ensures var (bb, be) := BlockRange(start, len, iom.BlockSize()); old(AllClean(iom, dev, bb, be)) ==> r.Done?
  {
    hide IoManager.Inv, IoManager.Tidy, IoManager.Refused, At, Address, AllClean, InCache, BlockOf, IoManager.DirtySectors,
        Prefetched;
    iom.StorageHolds();
    iom.HeldIs();
    var size := iom.BlockSize();
    var blockOffset: nat := start % size;
    ghost var range := BlockRange(start, len, size);
    ghost var clean := AllClean(iom, dev, range.0, range.1);
    if clean {
      CleanIsInCache(iom, dev, range.0, range.1);
    }
    PrefetchBytes(iom, dev, start, len);
    var (bb, be) := BlockRange(start, len, size);
    RangeStart(start, len, size);
    var pos: nat, rest: nat := 0, len;
    while bb != be
      invariant bb <= be && pos + rest == len && blockOffset < size
      invariant bb < be ==> Address(bb, blockOffset, size) == start + pos
      invariant bb == be ==> rest == 0
      invariant iom.Valid() && iom.HeldKept() && iom.logical == old(iom.logical)
      invariant forall j :: 0 <= j < pos ==> data[j] == At(iom.logical, dev, start + j, size)
      invariant forall j :: len <= j < data.Length ==> data[j] == old(data[j])
      invariant clean ==> AllClean(iom, dev, bb, be)
      invariant iom.DirtySectors() <= old(iom.DirtySectors())
    {
      var blen: nat := if rest < size - blockOffset then rest else size - blockOffset;
      r := ReadNext(iom, dev, bb, be, blockOffset, blen, data, pos);
      if !r.Done? {
        BlockAt(bb, blockOffset, size);
        reached := pos;
        return;
      }
      forall j | pos <= j < pos + blen ensures data[j] == At(iom.logical, dev, start + j, size) {
        AddressPlus(bb, blockOffset, j - pos, size);
        AtBlock(iom.logical, dev, bb, blockOffset + (j - pos), size);
      }
      NextPart(start, len, bb, be, blockOffset, pos, rest, size);
      blockOffset := 0;
      pos, rest := pos + blen, rest - blen;
      bb := bb + 1;
    }
    r, reached := Done, len;
  }

  // ------------------------------------------------------------------
  // Updates
  // ------------------------------------------------------------------

  // Which callbacks an updater has.
  datatype Kind = WriteKind | ZeroKind | SetKind

  // data holds the caller's bytes that are left, or the one value to set.
  predicate Supplies(kind: Kind, data: seq<Byte>, n: nat) {
    (kind.WriteKind? ==> n <= |data|) && (kind.SetKind? ==> data != [])
  }

  /** The next n bytes that an updater stores. */
  function Part(kind: Kind, data: seq<Byte>, n: nat): (r: seq<Byte>)
    requires Supplies(kind, data, n)
    ensures |r| == n
  {
    match kind
    case WriteKind => data[..n]
    case ZeroKind => Fill(n, 0)
    case SetKind => Fill(n, data[0])
  }

  function Rest(kind: Kind, data: seq<Byte>, n: nat): seq<Byte>
    requires Supplies(kind, data, n)
  {
    if kind.WriteKind? then data[n..] else data
  }

  // Two parts in a row are one.
  lemma PartThenPart(kind: Kind, data: seq<Byte>, n: nat, m: nat)
    requires Supplies(kind, data, n + m)
    ensures Supplies(kind, data, n) && Supplies(kind, Rest(kind, data, n), m)
    ensures Part(kind, data, n) + Part(kind, Rest(kind, data, n), m) == Part(kind, data, n + m)
    ensures Rest(kind, Rest(kind, data, n), m) == Rest(kind, data, n + m)
  {
  }

  lemma NoPart(kind: Kind, data: seq<Byte>)
    requires Supplies(kind, data, 0)
    ensures Part(kind, data, 0) == [] && Rest(kind, data, 0) == data
  {
  }

  lemma NextBlock(bb: nat, offset: nat, size: nat)
    requires offset <= size
    ensures Address(bb + 1, 0, size) == Address(bb, offset, size) + (size - offset)
  {
  }

  function NrWhole(rest: nat, size: nat): nat
    requires size > 0
  {
    rest / size
  }

  lemma WholeBlocks(rest: nat, size: nat)
    requires size > 0
    ensures Address(NrWhole(rest, size), 0, size) <= rest < Address(NrWhole(rest, size), 0, size) + size
    ensures rest < size ==> NrWhole(rest, size) == 0
    ensures rest == size ==> NrWhole(rest, size) == 1 && Address(1, 0, size) == size
  {
    Split(rest, size);
    Unsplit(1, 0, size);
    if rest < size {
      Unsplit(0, rest, size);
    }
  }

  // Counting blocks from bb on.
  lemma Pieces(bb: nat, at: nat, be: nat, size: nat)
    requires bb <= at <= be
    ensures Address(bb, 0, size) + Address(at - bb, 0, size) == Address(at, 0, size)
    ensures Address(0, 0, size) == 0
    ensures at < be ==> Address(at - bb, 0, size) + size <= Address(be - bb, 0, size)
    ensures at < be ==> Address(at + 1 - bb, 0, size) == Address(at - bb, 0, size) + size
  {
    assert bb * size + (at - bb) * size == at * size;
    if at < be {
      NextMultiple(at - bb, be - bb, size);
    }
  }

  // An update that has stopped after reached bytes stands at a whole block of
  // its range, and a write of that block has failed.
  ghost predicate Lost(iom: IoManager, dev: nat, start: nat, len: nat, reached: nat)
    requires iom.BlockSize() > 0
    reads iom, iom.blocks
  {
    && (start + reached) % iom.BlockSize() == 0 && reached + iom.BlockSize() <= len
    && iom.LostWrite(dev, BlockOf(start + reached, iom.BlockSize()))
  }

  /** How an update ends.  One that fails has written its first bytes, up to a
      block that cannot be had; and zeroes in that block exactly if all of it was to
      be written, and an earlier write of it had failed. */
  ghost predicate Ends(iom: IoManager, readOnly: bool, r: Outcome, dev: nat, start: nat, source: seq<Byte>,
      written: seq<Byte>, reached: nat)
    requires iom.BlockSize() > 0
    reads iom, iom.blocks
  {
    if r.Done? then
      written == source
    else
      && TornAt(written, source, iom.BlockSize(), reached, !readOnly && Lost(iom, dev, start, |source|, reached))
      && (r.Failed? ==> readOnly || iom.Refused(dev, BlockOf(start + reached, iom.BlockSize()), true))
      && (r.Stuck? ==> iom.held != {})
  }

  // The range lies in one block that is in the cache, at rest, and that nobody
  // holds.
  ghost predicate OneBlock(iom: IoManager, dev: nat, start: nat, len: nat)
    reads iom, iom.blocks
  {
    && iom.BlockSize() > 0 && start % iom.BlockSize() + len <= iom.BlockSize()
    && iom.Available(dev, BlockOf(start, iom.BlockSize()), true)
  }

  lemma InOneBlock(start: nat, len: nat, size: nat)
    requires size > 0
    ensures start % size + len < size ==> BlockOf(start + len, size) == BlockOf(start, size)
    ensures start % size + len == size ==> (start + len) % size == 0
  {
    Split(start, size);
    if start % size + len < size {
      Unsplit(start / size, start % size + len, size);
    } else if start % size + len == size {
      Unsplit(start / size + 1, 0, size);
    }
  }

  // The range begins with a whole block whose last write has failed.
  ghost predicate LostBlock(iom: IoManager, dev: nat, start: nat, len: nat)
    reads iom, iom.blocks
  {
    && iom.BlockSize() > 0 && start % iom.BlockSize() == 0 && iom.BlockSize() <= len
    && iom.LostWrite(dev, BlockOf(start, iom.BlockSize()))
  }

  lemma NotLost(iom: IoManager, dev: nat, start: nat, len: nat, reached: nat)
    requires iom.BlockSize() > 0
    requires (start + reached) % iom.BlockSize() != 0 || len < reached + iom.BlockSize()
    ensures !Lost(iom, dev, start, len, reached)
  {
  }

  lemma LostAt(iom: IoManager, dev: nat, start: nat, len: nat, reached: nat, bb: nat)
    requires iom.BlockSize() > 0
    requires (start + reached) % iom.BlockSize() == 0 && BlockOf(start + reached, iom.BlockSize()) == bb
    requires reached + iom.BlockSize() <= len
    ensures Lost(iom, dev, start, len, reached) <==> iom.LostWrite(dev, bb)
  {
  }

  // How a failure among the whole blocks is a failure of the update.
  lemma StopsAt(kind: Kind, source: seq<Byte>, done: nat, middle: nat, rest: nat, more: seq<Byte>, size: nat,
      whole: nat, lost: bool)
    requires Supplies(kind, source, done + rest) && middle <= rest
    requires Supplies(kind, source, done) && Supplies(kind, Rest(kind, source, done), middle)
    requires TornAt(more, Part(kind, Rest(kind, source, done), middle), size, whole, lost)
    ensures TornAt(Part(kind, source, done) + more, Part(kind, source, done + rest), size, done + whole, lost)
  {
    hide Part, Rest, TornAt;
    var data := Rest(kind, source, done);
    PartThenPart(kind, source, done, rest);
    PartThenPart(kind, data, middle, rest - middle);
    TornFirst(more, Part(kind, data, middle), Part(kind, Rest(kind, data, middle), rest - middle), size, whole, lost);
    TornLater(more, Part(kind, source, done), Part(kind, data, rest), size, whole, lost);
  }

  class Updater {
    const iom: IoManager
    const readOnly: bool
    const kind: Kind
    var data: seq<Byte>

    constructor (iom: IoManager, readOnly: bool, kind: Kind, data: seq<Byte>)
      ensures this.iom == iom && this.readOnly == readOnly && this.kind == kind && this.data == data
    {
      this.iom, this.readOnly, this.kind, this.data := iom, readOnly, kind, data;
    }

    // The get of an update of part of a block: it makes no sector dirty but those
    // that the part touches.
    method GetPart(dev: nat, bb: nat, offset: nat, len: nat) returns (r: Fetched)
      requires iom.Valid() && offset < iom.BlockSize() && offset + len <= iom.BlockSize()
      modifies iom, iom.blocks, iom.buffers
      ensures iom.Valid() && iom.Storage() && iom.logical == old(iom.logical)
      ensures r.Got? ==> var b := r.block;
        && !readOnly && b in iom.blocks && b.Key() == (dev, bb) && b.refCount == 1 && b !in old(iom.held)
        && iom.held == old(iom.held) + {b} && iom.OthersKept(b)
        && forall o: nat :: offset <= o < offset + len ==> SectorOf(o) in b.dirtyBits
      ensures !r.Got? ==> iom.HeldKept()
      ensures r.Hung? ==> iom.held != {}
      ensures r.Nothing? ==> readOnly || iom.Refused(dev, bb, true)
      ensures !readOnly && old(iom.Available(dev, bb, true)) ==> r.Got?
      ensures iom.DirtySectors() <= old(iom.DirtySectors()) +
        Touched(dev, Address(bb, offset, iom.BlockSize()), len, iom.BlockSize())
      ensures r.Got? ==> forall o: nat :: offset <= o < offset + len ==> ((dev, bb), SectorOf(o)) in iom.DirtySectors()
      ensures r.Got? && old(iom.Available(dev, bb, true) || (dev, bb) !in iom.rtree) ==>
        Marked(old(iom.DirtySectors()), iom.DirtySectors(), dev, bb, Address(bb, offset, iom.BlockSize()), len, iom.BlockSize())
    {
      hide IoManager.Inv, IoManager.Tidy, IoManager.Refused, IoManager.LostWrite, RegionMask, Address, Touched;
      iom.StorageHolds();
      iom.HeldIs();
      RegionMaskFits(offset, len, iom.blockSectors);
      MaskIsTouched(dev, bb, offset, len, iom.blockSectors);
      var mask := RegionToMask(offset, len);
      ghost var zeroed;
      r, zeroed := iom.GetBlockMask(readOnly, dev, bb, DIRTY, mask);
      iom.HeldIs();
    }

    /** _write_partial, _zero_partial and _set_partial */
    method PartialFn(dev: nat, bb: nat, offset: nat, len: nat) returns (r: Outcome)
      requires iom.Valid() && offset < iom.BlockSize() && offset + len <= iom.BlockSize() && Supplies(kind, data, len)
      modifies this, iom, iom.blocks, iom.buffers
      ensures iom.Valid() && iom.Storage() && iom.HeldKept()
      ensures r.Done? ==>
        Updated(old(iom.logical), iom.logical, dev, Address(bb, offset, iom.BlockSize()), Part(kind, old(data), len), iom.BlockSize())
      ensures r.Done? ==> !readOnly && data == Rest(kind, old(data), len)
      ensures !r.Done? ==> iom.logical == old(iom.logical)
      ensures r.Stuck? ==> iom.held != {}
      ensures r.Failed? ==> readOnly || iom.Refused(dev, bb, true)
      ensures !readOnly && old(iom.Available(dev, bb, true)) ==> r.Done?
      // it makes no sector dirty but those that it touches, and of a block that is at
      // rest, or not cached, exactly those
      ensures iom.DirtySectors() <= old(iom.DirtySectors()) +
        Touched(dev, Address(bb, offset, iom.BlockSize()), len, iom.BlockSize())
      ensures r.Done? ==> forall o: nat :: offset <= o < offset + len ==> ((dev, bb), SectorOf(o)) in iom.DirtySectors()
      ensures r.Done? && len > 0 && old(iom.Available(dev, bb, true) || (dev, bb) !in iom.rtree) ==> forall s: nat ::
        ((dev, bb), s) in iom.DirtySectors() <==>
          ((dev, bb), s) in old(iom.DirtySectors()) || exists o: nat :: offset <= o < offset + len && SectorOf(o) == s
      ensures r.Done? && old(iom.Available(dev, bb, true) || (dev, bb) !in iom.rtree) ==>
        Marked(old(iom.DirtySectors()), iom.DirtySectors(), dev, bb, Address(bb, offset, iom.BlockSize()), len, iom.BlockSize())
    {
      hide IoManager.Inv, IoManager.Tidy, IoManager.Refused, IoManager.Available, IoManager.DirtySectors, Updated, Part,
          StoredAt, Address, Touched, Marked;
      iom.StorageHolds();
      iom.HeldIs();
      ghost var before := iom.DirtySectors();
      var got := GetPart(dev, bb, offset, len);
      if len > 0 && Marked(before, iom.DirtySectors(), dev, bb, Address(bb, offset, iom.BlockSize()), len, iom.BlockSize()) {
        MarkedIs(before, iom.DirtySectors(), dev, bb, offset, len, iom.blockSectors);
      }
      if !got.Got? {
        return if got.Hung? then Stuck else Failed;
      }
      var b := got.block;
      iom.HeldIs();
      StoredIsUpdated(iom.logical, dev, bb, offset, Part(kind, data, len), iom.BlockSize());
      iom.StoreAndPut(b, offset, Part(kind, data, len));
      assert iom.held == old(iom.held);
      data := Rest(kind, data, len);
      r := Done;
    }

    // The get of an update of a whole block, which zeroes it; and zeroes it without
    // giving it out when a write of it has failed.
    method GetWhole(dev: nat, bb: nat) returns (r: Fetched, ghost zeroed: seq<Byte>)
      requires iom.Valid()
      modifies iom, iom.blocks, iom.buffers
      ensures iom.Valid() && iom.Storage() && iom.BlockSize() > 0
      ensures Updated(old(iom.logical), iom.logical, dev, Address(bb, 0, iom.BlockSize()), zeroed, iom.BlockSize())
      ensures zeroed == if r.Got? || (!readOnly && iom.LostWrite(dev, bb)) then Fill(iom.BlockSize(), 0) else []
      ensures r.Got? ==> var b := r.block;
        && !readOnly && b in iom.blocks && b.Key() == (dev, bb) && b.refCount == 1 && b !in old(iom.held)
        && iom.held == old(iom.held) + {b} && iom.OthersKept(b) && FullMask(iom.blockSectors) <= b.dirtyBits
      ensures !r.Got? ==> iom.HeldKept()
      ensures r.Hung? ==> iom.held != {}
      ensures r.Nothing? ==> readOnly || iom.Refused(dev, bb, true)
      ensures old(iom.LostWrite(dev, bb)) ==> r.Nothing? && iom.LostWrite(dev, bb)
      ensures !readOnly && old(iom.Available(dev, bb, true)) ==> r.Got?
      ensures !readOnly && (dev, bb) !in old(iom.rtree) && !old(iom.Starved()) ==> r.Got?
      ensures iom.DirtySectors() <= old(iom.DirtySectors()) +
        Touched(dev, Address(bb, 0, iom.BlockSize()), iom.BlockSize(), iom.BlockSize())
      ensures r.Got? && old(iom.Available(dev, bb, true) || (dev, bb) !in iom.rtree) ==>
        Marked(old(iom.DirtySectors()), iom.DirtySectors(),
          dev, bb, Address(bb, 0, iom.BlockSize()), iom.BlockSize(), iom.BlockSize())
    {
      hide IoManager.Inv, IoManager.Tidy, IoManager.Refused, IoManager.LostWrite, Updated, RegionMask, ZeroedAt, Touched, Address;
      iom.StorageHolds();
      iom.HeldIs();
      ghost var size := iom.BlockSize();
      MaskIsTouched(dev, bb, 0, size, iom.blockSectors);
      ZeroedIsUpdated(iom.logical, dev, bb, size);
      UpdatedByNothing(iom.logical, dev, Address(bb, 0, size), size);
      ghost var mask;
      r, mask := iom.GetBlockMask(readOnly, dev, bb, ZERO, FullMask(iom.blockSectors));
      zeroed := if r.Got? || (!readOnly && iom.LostWrite(dev, bb)) then Fill(size, 0) else [];
      iom.HeldIs();
    }

    // One turn of the loop of _write_whole, _zero_whole and _set_whole.
    method WholeBlock(dev: nat, bb: nat) returns (r: Outcome, ghost written: seq<Byte>)
      requires iom.Valid() && Supplies(kind, data, iom.BlockSize())
      modifies this, iom, iom.blocks, iom.buffers
      ensures iom.Valid() && iom.Storage() && iom.HeldKept() && iom.BlockSize() > 0
      ensures Updated(old(iom.logical), iom.logical, dev, Address(bb, 0, iom.BlockSize()), written, iom.BlockSize())
      ensures r.Done? ==>
        !readOnly && written == Part(kind, old(data), iom.BlockSize()) && data == Rest(kind, old(data), iom.BlockSize())
      ensures !r.Done? ==> written == if !readOnly && iom.LostWrite(dev, bb) then Fill(iom.BlockSize(), 0) else []
      ensures r.Stuck? ==> iom.held != {}
      ensures r.Failed? ==> readOnly || iom.Refused(dev, bb, true)
      ensures old(iom.LostWrite(dev, bb)) ==> r.Failed? && iom.LostWrite(dev, bb)
      ensures !readOnly && old(iom.Available(dev, bb, true)) ==> r.Done?
      ensures !readOnly && (dev, bb) !in old(iom.rtree) && !old(iom.Starved()) ==> r.Done?
      ensures iom.DirtySectors() <= old(iom.DirtySectors()) +
        Touched(dev, Address(bb, 0, iom.BlockSize()), iom.BlockSize(), iom.BlockSize())
      ensures r.Done? && old(iom.Available(dev, bb, true) || (dev, bb) !in iom.rtree) ==>
        Marked(old(iom.DirtySectors()), iom.DirtySectors(),
          dev, bb, Address(bb, 0, iom.BlockSize()), iom.BlockSize(), iom.BlockSize())
    {
      hide IoManager.Inv, IoManager.Tidy, IoManager.Refused, IoManager.LostWrite, IoManager.Available, IoManager.Starved,
          IoManager.DirtySectors, Updated, Address, Part, Touched, Marked;
      iom.StorageHolds();
      iom.HeldIs();
      var size := iom.BlockSize();
      ghost var before := iom.logical;
      var got;
      got, written := GetWhole(dev, bb);
      if !got.Got? {
        return if got.Hung? then Stuck else Failed, written;
      }
      iom.HeldIs();
      FinishBlock(got.block, before);
      written := Part(kind, data, size);
      data := Rest(kind, data, size);
      r := Done;
    }

    // A block that is zeroed and held: store the source's bytes, and put it.
    method FinishBlock(b: Block, ghost before: Contents)
      requires iom.Valid() && iom.BlockSize() > 0 && Supplies(kind, data, iom.BlockSize())
      requires b in iom.held && b.refCount == 1 && FullMask(iom.blockSectors) <= b.dirtyBits
      requires Updated(before, iom.logical, b.dev, Address(b.index, 0, iom.BlockSize()), Fill(iom.BlockSize(), 0), iom.BlockSize())
      modifies iom, iom.blocks, iom.buffers
      ensures iom.Valid() && iom.Storage() && iom.held == old(iom.held) - {b} && iom.OthersKept(b)
      ensures iom.DirtySectors() == old(iom.DirtySectors())
      ensures Updated(before, iom.logical, old(b.dev), Address(old(b.index), 0, iom.BlockSize()), Part(kind, data, iom.BlockSize()), iom.BlockSize())
    {
      hide IoManager.Inv, IoManager.Tidy, IoManager.DirtySectors, Updated, StoredAt, Address;
      iom.HeldIs();
      if kind.ZeroKind? {
        iom.PutBlock(b);
      } else {
        ghost var zeroed, size := iom.logical, iom.BlockSize();
        iom.Own(b);
        OffsetsFit(iom.blockSectors);
        StoredIsUpdated(zeroed, b.dev, b.index, 0, Part(kind, data, size), size);
        UpdatedOver(before, zeroed, StoredAt(zeroed, b.Key(), 0, Part(kind, data, size)), b.dev, Address(b.index, 0, size),
          Fill(size, 0), Part(kind, data, size), size);
        iom.StoreAndPut(b, 0, Part(kind, data, iom.BlockSize()));
      }
    }

    /** _write_whole, _zero_whole and _set_whole: the blocks bb..be. */
    method WholeFn(dev: nat, bb: nat, be: nat) returns (r: Outcome, ghost written: seq<Byte>, ghost stop: nat)
      requires iom.Valid() && iom.BlockSize() > 0 && bb <= be
      requires Supplies(kind, data, Address(be - bb, 0, iom.BlockSize()))
      modifies this, iom, iom.blocks, iom.buffers
      ensures iom.Valid() && iom.Storage() && iom.HeldKept()
      ensures Updated(old(iom.logical), iom.logical, dev, Address(bb, 0, iom.BlockSize()), written, iom.BlockSize())
      ensures r.Done? ==> written == Part(kind, old(data), Address(be - bb, 0, iom.BlockSize()))
      ensures r.Done? ==> data == Rest(kind, old(data), Address(be - bb, 0, iom.BlockSize())) && (readOnly ==> bb == be)
      ensures !r.Done? ==> bb <= stop < be
      ensures !r.Done? ==>
        TornAt(written, Part(kind, old(data), Address(be - bb, 0, iom.BlockSize())), iom.BlockSize(),
          Address(stop - bb, 0, iom.BlockSize()), !readOnly && iom.LostWrite(dev, stop))
      ensures r.Stuck? ==> iom.held != {}
      ensures r.Failed? ==> readOnly || iom.Refused(dev, stop, true)
      ensures bb < be && old(iom.LostWrite(dev, bb)) ==> r.Failed? && stop == bb && iom.LostWrite(dev, bb)
      ensures bb == be ==> r.Done? && unchanged(iom) && forall c :: c in iom.blocks ==> unchanged(c)
      ensures be == bb + 1 && !readOnly && old(iom.Available(dev, bb, true)) ==>
        && r.Done?
        && Marked(old(iom.DirtySectors()), iom.DirtySectors(),
             dev, bb, Address(bb, 0, iom.BlockSize()), iom.BlockSize(), iom.BlockSize())
      ensures iom.DirtySectors() <= old(iom.DirtySectors()) +
        Touched(dev, Address(bb, 0, iom.BlockSize()), Address(be - bb, 0, iom.BlockSize()), iom.BlockSize())
    {
      hide IoManager.Inv, IoManager.Tidy, IoManager.LostWrite, IoManager.Refused, IoManager.Storage, IoManager.DirtySectors;
      hide Updated, Part, Rest, TornAt, Address, Touched, Marked;
      iom.StorageHolds();
      iom.HeldIs();
      var size := iom.BlockSize();
      var at := bb;
      ghost var total := Address(be - bb, 0, size);
      ghost var done := 0;
      written := [];
      NoPart(kind, data);
      UpdatedByNothing(iom.logical, dev, Address(bb, 0, size), size);
      Pieces(bb, bb, be, size);
      while at != be
        invariant bb <= at <= be && iom.Valid() && iom.HeldKept() && done <= total && done == Address(at - bb, 0, size)
        invariant Supplies(kind, old(data), total) && Supplies(kind, old(data), done)
        invariant written == Part(kind, old(data), done) && data == Rest(kind, old(data), done)
        invariant Updated(old(iom.logical), iom.logical, dev, Address(bb, 0, size), written, size)
        invariant readOnly || old(iom.LostWrite(dev, bb)) ==> at == bb
        invariant iom.DirtySectors() <= old(iom.DirtySectors()) + Touched(dev, Address(bb, 0, size), total, size)
        invariant at == bb + 1 && !readOnly && old(iom.Available(dev, bb, true)) ==>
          Marked(old(iom.DirtySectors()), iom.DirtySectors(), dev, bb, Address(bb, 0, size), size, size)
        invariant at == bb ==> unchanged(iom) && forall c :: c in iom.blocks ==> unchanged(c)
      {
        Pieces(bb, at, be, size);
        TouchedWithin(dev, Address(bb, 0, size), total, Address(at, 0, size), size, size);
        PartThenPart(kind, old(data), done, total - done);
        PartThenPart(kind, old(data), done, size);
        PartThenPart(kind, data, size, total - done - size);
        ghost var more;
        ghost var before := iom.logical;
        r, more := WholeBlock(dev, at);
        UpdatedTwice(old(iom.logical), before, iom.logical, dev, Address(bb, 0, size), written, more, size);
        if !r.Done? {
          ghost var lost := !readOnly && iom.LostWrite(dev, at);
          TornBlock(Part(kind, Rest(kind, old(data), done), total - done), size, lost);
          TornLater(more, written, Part(kind, Rest(kind, old(data), done), total - done), size, 0, lost);
          written, stop := written + more, at;
          return;
        }
        written := written + more;
        done := done + size;
        at := at + 1;
      }
      r, stop := Done, be;
    }

    // The prefetch of the last block, when only a part of it is to be updated.
    method PrefetchTail(dev: nat, start: nat, len: nat)
      requires iom.Valid() && iom.BlockSize() > 0
      modifies iom, iom.blocks, iom.buffers
      ensures iom.Valid() && iom.HeldKept() && iom.logical == old(iom.logical)
      ensures iom.DirtySectors() <= old(iom.DirtySectors())
      ensures (start + len) % iom.BlockSize() != 0 ==> var bb := BlockOf(start + len, iom.BlockSize());
        (dev, bb) in old(iom.rtree) || iom.Fetching(dev, bb) || old(iom.nrIoPending) >= iom.maxIo || old(iom.Starved())
      ensures old(OneBlock(iom, dev, start, len)) ==>
        OneBlock(iom, dev, start, len) && iom.DirtySectors() == old(iom.DirtySectors())
      ensures old(LostBlock(iom, dev, start, len)) ==> LostBlock(iom, dev, start, len)
    {
      hide IoManager.Inv, IoManager.Tidy, IoManager.LostWrite, IoManager.DirtySectors, IoManager.Victim, IoManager.Room,
          IoManager.Starved, IoManager.Fetching, IoManager.InUseKept, BlockOf;
      iom.StorageHolds();
      iom.HeldIs();
      var size := iom.BlockSize();
      if (start + len) % size != 0 {
        InOneBlock(start, len, size);
        iom.PrefetchBlock(dev, BlockOf(start + len, size));
      }
    }

    /** _update_bytes: a head, whole blocks and a tail, in order. */
    method UpdateBytes(dev: nat, start: nat, len: nat) returns (r: Outcome, ghost written: seq<Byte>, ghost reached: nat)
      requires iom.Valid() && Supplies(kind, data, len)
      modifies this, iom, iom.blocks, iom.buffers
      ensures iom.Valid() && iom.Storage() && iom.BlockSize() > 0 && iom.HeldKept()
      ensures Updated(old(iom.logical), iom.logical, dev, start, written, iom.BlockSize())
      ensures Ends(iom, readOnly, r, dev, start, Part(kind, old(data), len), written, reached)
      ensures r.Done? && readOnly ==> len == 0
      ensures old(OneBlock(iom, dev, start, len)) && !readOnly ==>
        && r.Done?
        && Marked(old(iom.DirtySectors()), iom.DirtySectors(), dev, BlockOf(start, iom.BlockSize()), start, len, iom.BlockSize())
      ensures old(LostBlock(iom, dev, start, len)) ==>
        r.Failed? && reached == 0 && iom.LostWrite(dev, BlockOf(start, iom.BlockSize()))
      ensures iom.DirtySectors() <= old(iom.DirtySectors()) + Touched(dev, start, len, iom.BlockSize())
    {
      hide IoManager.Inv, IoManager.Tidy, IoManager.LostWrite, IoManager.Refused, Updated, Part, Rest, TornAt,
          Address, At, Lost, BlockOf, IoManager.DirtySectors, Touched, Marked;
      iom.StorageHolds();
      iom.HeldIs();
      var size := iom.BlockSize();
      var blockOffset: nat := start % size;
      var (bb, be) := BlockRange(start, len, size);
      RangeStart(start, len, size);
      BlockAt(bb, blockOffset, size);
      ghost var source := data;
      ghost var before := iom.logical;
      written := [];
      NoPart(kind, data);
      UpdatedByNothing(before, dev, start, size);
      PrefetchTail(dev, start, len);
      var done := 0;
      if blockOffset != 0 {
        var blen: nat := if len < size - blockOffset then len else size - blockOffset;
        PartThenPart(kind, data, blen, len - blen);
        TouchedWithin(dev, start, len, start, blen, size);
        r := PartialFn(dev, bb, blockOffset, blen);
        if !r.Done? {
          reached := 0;
          TornBlock(Part(kind, source, len), size, false);
          NotLost(iom, dev, start, len, 0);
          return;
        }
        written := Part(kind, source, blen);
        done := blen;
        if len == blen {
          reached := len;
          return;
        }
        NextBlock(bb, blockOffset, size);
        bb := bb + 1;
      }
      TouchedWithin(dev, start, len, start + done, len - done, size);
      r, written, reached := Body(dev, start, len, bb, done, source, before, written);
    }

    // done bytes have been written, and the block bb is next.
    ghost predicate Halfway(dev: nat, start: nat, len: nat, bb: nat, done: nat, source: seq<Byte>,
        before: Contents, written: seq<Byte>)
      reads this, iom
    {
      && iom.BlockSize() > 0 && done <= len && Supplies(kind, source, len) && Supplies(kind, source, done)
      && Address(bb, 0, iom.BlockSize()) == start + done && (readOnly ==> done == 0)
      && data == Rest(kind, source, done) && written == Part(kind, source, done)
      && Updated(before, iom.logical, dev, start, written, iom.BlockSize())
    }

    // What _update_bytes does after the head: the whole blocks and the tail.
    method Body(dev: nat, start: nat, len: nat, bb: nat, done: nat, ghost source: seq<Byte>,
        ghost before: Contents, ghost head: seq<Byte>)
      returns (r: Outcome, ghost written: seq<Byte>, ghost reached: nat)
      requires iom.Valid() && Halfway(dev, start, len, bb, done, source, before, head)
      modifies this, iom, iom.blocks, iom.buffers
      ensures iom.Valid() && iom.Storage() && iom.HeldKept()
      ensures Updated(before, iom.logical, dev, start, written, iom.BlockSize())
      ensures Ends(iom, readOnly, r, dev, start, Part(kind, source, len), written, reached)
      ensures r.Done? && readOnly ==> len == 0
      ensures done == 0 && len <= iom.BlockSize() && !readOnly && old(iom.Available(dev, bb, true)) ==>
        && r.Done?
        && Marked(old(iom.DirtySectors()), iom.DirtySectors(), dev, bb, start, len, iom.BlockSize())
      ensures iom.DirtySectors() <= old(iom.DirtySectors()) + Touched(dev, start + done, len - done, iom.BlockSize())
      ensures done == 0 && len >= iom.BlockSize() && old(iom.LostWrite(dev, bb)) ==>
        r.Failed? && reached == 0 && iom.LostWrite(dev, bb)
    {
      hide IoManager.Inv, IoManager.Tidy, IoManager.LostWrite, IoManager.Refused, Updated, Part, Rest, TornAt,
          Address, At, NrWhole, Lost, BlockOf, IoManager.DirtySectors, Touched, Marked;
      iom.StorageHolds();
      iom.HeldIs();
      var size := iom.BlockSize();
      var rest: nat := len - done;
      var nrWhole := NrWhole(rest, size);
      ghost var middle := Address(nrWhole, 0, size);
      WholeBlocks(rest, size);
      Pieces(bb, bb + nrWhole, bb + nrWhole, size);
      PartThenPart(kind, source, done, rest);
      PartThenPart(kind, source, done, middle);
      PartThenPart(kind, data, middle, rest - middle);
      TouchedWithin(dev, start + done, rest, start + done, middle, size);
      TouchedWithin(dev, start + done, rest, start + done + middle, rest - middle, size);
      NoneMarked(iom.DirtySectors(), dev, bb, size);
      ghost var mid := iom.logical;
      ghost var more;
      ghost var stop;
      r, more, stop := WholeFn(dev, bb, bb + nrWhole);
      UpdatedTwice(before, mid, iom.logical, dev, start, head, more, size);
      written := head + more;
      if !r.Done? {
        reached := done + Address(stop - bb, 0, size);
        Pieces(bb, stop, bb + nrWhole, size);
        Boundary(start + done, bb, stop, size);
        LostAt(iom, dev, start, len, reached, stop);
        StopsAt(kind, source, done, middle, rest, more, size, Address(stop - bb, 0, size), !readOnly && iom.LostWrite(dev, stop));
        return;
      }
      r, written, reached := Tail(dev, start, len, bb + nrWhole, done + Address(nrWhole, 0, size), source, before, written);
    }

    // The last part of a block.
    method Tail(dev: nat, start: nat, len: nat, bb: nat, done: nat, ghost source: seq<Byte>,
        ghost before: Contents, ghost head: seq<Byte>)
      returns (r: Outcome, ghost written: seq<Byte>, ghost reached: nat)
      requires iom.Valid() && Halfway(dev, start, len, bb, done, source, before, head) && len - done < iom.BlockSize()
      modifies this, iom, iom.blocks, iom.buffers
      ensures iom.Valid() && iom.Storage() && iom.HeldKept()
      ensures Updated(before, iom.logical, dev, start, written, iom.BlockSize())
      ensures Ends(iom, readOnly, r, dev, start, Part(kind, source, len), written, reached)
      ensures r.Done? && readOnly ==> len == 0
      ensures len == done ==> r.Done? && iom.DirtySectors() == old(iom.DirtySectors())
      ensures !readOnly && old(iom.Available(dev, bb, true)) && len > done ==>
        && r.Done?
        && Marked(old(iom.DirtySectors()), iom.DirtySectors(), dev, bb, start + done, len - done, iom.BlockSize())
      ensures iom.DirtySectors() <= old(iom.DirtySectors()) + Touched(dev, start + done, len - done, iom.BlockSize())
    {
      hide IoManager.Inv, IoManager.Tidy, IoManager.LostWrite, IoManager.Refused, Updated, Part, Rest, TornAt,
          Address, At, Lost, BlockOf, IoManager.DirtySectors, Touched, Marked;
      iom.StorageHolds();
      iom.HeldIs();
      var size := iom.BlockSize();
      var rest: nat := len - done;
      written := head;
      if rest == 0 {
        return Done, written, done;
      }
      PartThenPart(kind, source, done, rest);
      ghost var mid := iom.logical;
      r := PartialFn(dev, bb, 0, rest);
      reached := done;
      if r.Done? {
        UpdatedTwice(before, mid, iom.logical, dev, start, head, Part(kind, Rest(kind, source, done), rest), size);
        written := head + Part(kind, Rest(kind, source, done), rest);
      } else {
        BlockAt(bb, 0, size);
        NotLost(iom, dev, start, len, done);
        TornBlock(Part(kind, Rest(kind, source, done), rest), size, false);
        TornLater([], head, Part(kind, Rest(kind, source, done), rest), size, 0, false);
        assert head + [] == head;
      }
    }
  }


  /** io_write_bytes */
  method WriteBytes(iom: IoManager, readOnly: bool, dev: nat, start: nat, data: seq<Byte>)
    returns (r: Outcome, ghost written: seq<Byte>, ghost reached: nat)
    requires iom.Valid()
    modifies iom, iom.blocks, iom.buffers
    ensures iom.Valid() && iom.Storage() && iom.BlockSize() > 0 && iom.HeldKept()
    ensures Updated(old(iom.logical), iom.logical, dev, start, written, iom.BlockSize())
    ensures Ends(iom, readOnly, r, dev, start, data, written, reached)
    ensures r.Done? && readOnly ==> data == []
    ensures old(OneBlock(iom, dev, start, |data|)) && !readOnly ==>
      && r.Done?
      && Marked(old(iom.DirtySectors()), iom.DirtySectors(), dev, BlockOf(start, iom.BlockSize()), start, |data|, iom.BlockSize())
    ensures iom.DirtySectors() <= old(iom.DirtySectors()) + Touched(dev, start, |data|, iom.BlockSize())
    ensures old(LostBlock(iom, dev, start, |data|)) ==>
      r.Failed? && reached == 0 && iom.LostWrite(dev, BlockOf(start, iom.BlockSize()))
  {
    hide IoManager.Valid, IoManager.LostWrite, IoManager.Refused, Updated, Ends, IoManager.DirtySectors, Touched, Marked;
    var u := new Updater(iom, readOnly, WriteKind, data);
    assert Part(WriteKind, data, |data|) == data;
    r, written, reached := u.UpdateBytes(dev, start, |data|);
  }

  /** io_zero_bytes */
  method ZeroBytes(iom: IoManager, readOnly: bool, dev: nat, start: nat, len: nat)
    returns (r: Outcome, ghost written: seq<Byte>, ghost reached: nat)
    requires iom.Valid()
    modifies iom, iom.blocks, iom.buffers
    ensures iom.Valid() && iom.Storage() && iom.BlockSize() > 0 && iom.HeldKept()
    ensures Updated(old(iom.logical), iom.logical, dev, start, written, iom.BlockSize())
    ensures Ends(iom, readOnly, r, dev, start, Fill(len, 0), written, reached)
    ensures r.Done? && readOnly ==> len == 0
    ensures old(OneBlock(iom, dev, start, len)) && !readOnly ==>
      && r.Done?
      && Marked(old(iom.DirtySectors()), iom.DirtySectors(), dev, BlockOf(start, iom.BlockSize()), start, len, iom.BlockSize())
    ensures iom.DirtySectors() <= old(iom.DirtySectors()) + Touched(dev, start, len, iom.BlockSize())
    ensures old(LostBlock(iom, dev, start, len)) ==>
      r.Failed? && reached == 0 && iom.LostWrite(dev, BlockOf(start, iom.BlockSize()))
  {
    hide IoManager.Valid, IoManager.LostWrite, IoManager.Refused, Updated, Ends, IoManager.DirtySectors, Touched, Marked;
    var u := new Updater(iom, readOnly, ZeroKind, []);
    r, written, reached := u.UpdateBytes(dev, start, len);
  }

  /** io_set_bytes */
  method SetBytes(iom: IoManager, readOnly: bool, dev: nat, start: nat, len: nat, val: Byte)
    returns (r: Outcome, ghost written: seq<Byte>, ghost reached: nat)
    requires iom.Valid()
    modifies iom, iom.blocks, iom.buffers
    ensures iom.Valid() && iom.Storage() && iom.BlockSize() > 0 && iom.HeldKept()
    ensures Updated(old(iom.logical), iom.logical, dev, start, written, iom.BlockSize())
    ensures Ends(iom, readOnly, r, dev, start, Fill(len, val), written, reached)
    ensures r.Done? && readOnly ==> len == 0
    ensures old(OneBlock(iom, dev, start, len)) && !readOnly ==>
      && r.Done?
      && Marked(old(iom.DirtySectors()), iom.DirtySectors(), dev, BlockOf(start, iom.BlockSize()), start, len, iom.BlockSize())
    ensures iom.DirtySectors() <= old(iom.DirtySectors()) + Touched(dev, start, len, iom.BlockSize())
    ensures old(LostBlock(iom, dev, start, len)) ==>
      r.Failed? && reached == 0 && iom.LostWrite(dev, BlockOf(start, iom.BlockSize()))
  {
    hide IoManager.Valid, IoManager.LostWrite, IoManager.Refused, Updated, Ends, IoManager.DirtySectors, Touched, Marked;
    var u := new Updater(iom, readOnly, SetKind, [val]);
    r, written, reached := u.UpdateBytes(dev, start, len);
  }
}
