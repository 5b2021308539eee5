// The arithmetic of io/io-manager-utils.c: addresses, blocks and sectors.
module ByteRanges {
  import opened Bytes
  import opened CacheState

  // ------------------------------------------------------------------
  // One flat array per device
  // ------------------------------------------------------------------

  /** The byte at address a of device d. */
  ghost function At(c: Contents, d: nat, a: nat, size: nat): Byte
    requires size > 0
  {
    c(d, a / size, a % size)
  }

  /** The address of an offset in a block. */
  function Address(bb: nat, offset: nat, size: nat): nat { bb * size + offset }

  /** The block of an address. */
  function BlockOf(a: nat, size: nat): (bb: nat)
    requires size > 0
  {
    Split(a, size);
    a / size
  }

  /** after is before with bytes stored from address start of dev on. */
  ghost predicate Updated(before: Contents, after: Contents, dev: nat, start: nat, bytes: seq<Byte>, size: nat)
    requires size > 0
  {
    forall d: nat, a: nat :: At(after, d, a, size) ==
      if d == dev && start <= a < start + |bytes| then bytes[a - start] else At(before, d, a, size)
  }

  lemma UpdatedByNothing(c: Contents, dev: nat, start: nat, size: nat)
    requires size > 0
    ensures Updated(c, c, dev, start, [], size)
  {
  }

  /** Consecutive updates are one update. */
  lemma UpdatedTwice(c0: Contents, c1: Contents, c2: Contents, dev: nat, start: nat, first: seq<Byte>,
      second: seq<Byte>, size: nat)
    requires size > 0 && Updated(c0, c1, dev, start, first, size)
    requires Updated(c1, c2, dev, start + |first|, second, size)
    ensures Updated(c0, c2, dev, start, first + second, size)
  {
  }

  /** The later of two updates of the same range is the one that counts. */
  lemma UpdatedOver(c0: Contents, c1: Contents, c2: Contents, dev: nat, start: nat, first: seq<Byte>,
      second: seq<Byte>, size: nat)
    requires size > 0 && |first| == |second|
    requires Updated(c0, c1, dev, start, first, size) && Updated(c1, c2, dev, start, second, size)
    ensures Updated(c0, c2, dev, start, second, size)
  {
  }

  lemma Split(a: nat, size: nat)
    requires size > 0
    ensures a == a / size * size + a % size && 0 <= a % size < size && a / size >= 0
  {
  }

  lemma {:induction false} NextMultiple(x: nat, y: nat, size: nat)
    requires x < y
    ensures x * size + size <= y * size
  {
    if x + 1 == y {
      assert y * size == x * size + size;
    } else {
      NextMultiple(x, y - 1, size);
      assert y * size == (y - 1) * size + size;
    }
  }

  lemma Unsplit(i: nat, o: nat, size: nat)
    requires o < size
    ensures (i * size + o) / size == i && (i * size + o) % size == o
  {
    var a := i * size + o;
    Split(a, size);
    if a / size < i {
      NextMultiple(a / size, i, size);
    } else if a / size > i {
      NextMultiple(i, a / size, size);
    }
  }

  /** An address is in a range of one block exactly when its offset is. */
  lemma InBlock(a: nat, bb: nat, offset: nat, len: nat, size: nat)
    requires size > 0 && offset + len <= size
    ensures bb * size + offset <= a < bb * size + offset + len <==> a / size == bb && offset <= a % size < offset + len
  {
    Split(a, size);
    if bb * size + offset <= a < bb * size + offset + len {
      Unsplit(bb, a - bb * size, size);
    }
  }

  lemma StoredIsUpdated(before: Contents, dev: nat, bb: nat, offset: nat, bytes: seq<Byte>, size: nat)
    requires size > 0 && offset + |bytes| <= size
    ensures Updated(before, StoredAt(before, (dev, bb), offset, bytes), dev, Address(bb, offset, size), bytes, size)
  {
    var after := StoredAt(before, (dev, bb), offset, bytes);
    forall d: nat, a: nat ensures At(after, d, a, size) ==
      if d == dev && bb * size + offset <= a < bb * size + offset + |bytes| then bytes[a - (bb * size + offset)]
      else At(before, d, a, size)
    {
      InBlock(a, bb, offset, |bytes|, size);
      Split(a, size);
    }
  }

  /** n bytes of v, as memset writes them. */
  function Fill(n: nat, v: Byte): (r: seq<Byte>)
    ensures |r| == n && forall j :: 0 <= j < n ==> r[j] == v
  {
    seq(n, _ => v)
  }

  lemma ZeroedIsUpdated(before: Contents, dev: nat, bb: nat, size: nat)
    requires size > 0
    ensures Updated(before, ZeroedAt(before, (dev, bb), size), dev, Address(bb, 0, size), Fill(size, 0), size)
  {
    var after := ZeroedAt(before, (dev, bb), size);
    forall d: nat, a: nat ensures At(after, d, a, size) ==
      if d == dev && bb * size <= a < bb * size + size then Fill(size, 0)[a - bb * size] else At(before, d, a, size)
    {
      InBlock(a, bb, 0, size, size);
      Split(a, size);
    }
  }

  // ------------------------------------------------------------------
  // Masks
  // ------------------------------------------------------------------

  /** The sectors that _region_to_mask marks. */
  function RegionMask(offset: nat, len: nat): set<nat> {
    FullMask(SectorOf(offset + len + (SECTOR_SIZE - 1))) - FullMask(SectorOf(offset))
  }

  /** They are the sectors that the region touches; with no bytes, the sector
      that the offset cuts. */
  lemma RegionMaskTouches(offset: nat, len: nat, s: nat)
    ensures len > 0 ==>
      (s in RegionMask(offset, len) <==> exists o: nat :: offset <= o < offset + len && SectorOf(o) == s)
    ensures len == 0 ==> (s in RegionMask(offset, len) <==> s * SECTOR_SIZE < offset < (s + 1) * SECTOR_SIZE)
  {
    if len > 0 && s in RegionMask(offset, len) {
      var o: nat := if s * SECTOR_SIZE < offset then offset else s * SECTOR_SIZE;
      assert offset <= o < offset + len && SectorOf(o) == s;
    }
  }

  /** No bit at or above the number of sectors, so none above 63. */
  lemma RegionMaskFits(offset: nat, len: nat, sectors: nat)
    requires offset < sectors * SECTOR_SIZE && offset + len <= sectors * SECTOR_SIZE
    ensures forall s :: s in RegionMask(offset, len) ==> s < sectors
    ensures forall o: nat :: offset <= o < offset + len ==> SectorOf(o) in RegionMask(offset, len)
  {
  }

  /** _region_to_mask */
  method RegionToMask(offset: nat, len: nat) returns (r: set<nat>)
    ensures r == RegionMask(offset, len)
  {
    r := {};
    var sb, se := SectorOf(offset), SectorOf(offset + len + (SECTOR_SIZE - 1));
    var i := sb;
    while i < se
      invariant sb <= i && (i <= se || i == sb) && r == FullMask(i) - FullMask(sb)
    {
      r := r + {i};
      i := i + 1;
    }
  }

  /** The sectors of a device, by block, that begin before the end of a range and end
      after its start. */
  ghost function Touched(dev: nat, start: nat, len: nat, size: nat): iset<(BlockKey, nat)> {
    iset p: (BlockKey, nat) | p.0.0 == dev && (p.1 + 1) * SECTOR_SIZE <= size
      && Address(p.0.1, p.1 * SECTOR_SIZE, size) < start + len && start < Address(p.0.1, (p.1 + 1) * SECTOR_SIZE, size)
  }

  /** They are the sectors that hold a byte of it; with no bytes, the sector that its start cuts. */
  lemma TouchedIs(dev: nat, start: nat, len: nat, sectors: nat, bb: nat, s: nat)
    ensures var size := sectors * SECTOR_SIZE; len > 0 ==>
      (((dev, bb), s) in Touched(dev, start, len, size) <==>
        exists o: nat :: o < size && SectorOf(o) == s && start <= Address(bb, o, size) < start + len)
    ensures var size := sectors * SECTOR_SIZE; len == 0 ==>
      (((dev, bb), s) in Touched(dev, start, len, size) <==>
        s < sectors && Address(bb, s * SECTOR_SIZE, size) < start < Address(bb, (s + 1) * SECTOR_SIZE, size))
  {
    var size := sectors * SECTOR_SIZE;
    if len > 0 && ((dev, bb), s) in Touched(dev, start, len, size) {
      var from := Address(bb, 0, size);
      var o: nat := if from + s * SECTOR_SIZE < start then start - from else s * SECTOR_SIZE;
      assert o < size && SectorOf(o) == s && start <= Address(bb, o, size) < start + len;
    }
  }

  lemma TouchedWithin(dev: nat, start: nat, len: nat, first: nat, n: nat, size: nat)
    requires start <= first && first + n <= start + len
    ensures Touched(dev, first, n, size) <= Touched(dev, start, len, size)
  {
  }

  /** The mask of a part of a block, and of a whole one. */
  lemma MaskIsTouched(dev: nat, bb: nat, offset: nat, len: nat, sectors: nat)
    requires offset <= sectors * SECTOR_SIZE && offset + len <= sectors * SECTOR_SIZE
    ensures var size := sectors * SECTOR_SIZE; forall s: nat ::
      s in RegionMask(offset, len) <==> ((dev, bb), s) in Touched(dev, Address(bb, offset, size), len, size)
    ensures offset == 0 && len == sectors * SECTOR_SIZE ==> RegionMask(offset, len) == FullMask(sectors)
  {
  }

  /** Of this block, the sectors that a range touches have become dirty, and no other. */
  ghost predicate Marked(before: iset<(BlockKey, nat)>, after: iset<(BlockKey, nat)>, dev: nat, bb: nat, start: nat,
      len: nat, size: nat)
  {
    forall s: nat :: ((dev, bb), s) in after <==> ((dev, bb), s) in before || ((dev, bb), s) in Touched(dev, start, len, size)
  }

  /** Within one block, in offsets. */
  lemma MarkedIs(before: iset<(BlockKey, nat)>, after: iset<(BlockKey, nat)>, dev: nat, bb: nat, offset: nat, len: nat,
      sectors: nat)
    requires 0 < len && offset + len <= sectors * SECTOR_SIZE
    requires Marked(before, after, dev, bb, Address(bb, offset, sectors * SECTOR_SIZE), len, sectors * SECTOR_SIZE)
    ensures forall s: nat :: ((dev, bb), s) in after <==>
      ((dev, bb), s) in before || exists o: nat :: offset <= o < offset + len && SectorOf(o) == s
  {
    hide Touched, RegionMask;
    MaskIsTouched(dev, bb, offset, len, sectors);
    forall s: nat ensures ((dev, bb), s) in after <==>
      ((dev, bb), s) in before || exists o: nat :: offset <= o < offset + len && SectorOf(o) == s
    {
      RegionMaskTouches(offset, len, s);
    }
  }

  lemma NoneMarked(marks: iset<(BlockKey, nat)>, dev: nat, bb: nat, size: nat)
    ensures Marked(marks, marks, dev, bb, Address(bb, 0, size), 0, size)
  {
  }

  // ------------------------------------------------------------------
  // Blocks
  // ------------------------------------------------------------------

  /** byte_range_to_block_range */
  function BlockRange(start: nat, len: nat, size: nat): (r: (nat, nat))
    requires size > 0
    ensures Address(r.0, 0, size) <= start < Address(r.0, size, size)
    ensures start + len <= Address(r.1, 0, size) < start + len + size
    ensures r.0 <= r.1
  {
    Split(start, size);
    Split(start + len + size - 1, size);
    var r := (start / size, (start + len + size - 1) / size);
    assert r.0 <= r.1 by {
      if r.1 < r.0 {
        NextMultiple(r.1, r.0, size);
      }
    }
    r
  }

  lemma RangeStart(start: nat, len: nat, size: nat)
    requires size > 0
    ensures var (bb, be) := BlockRange(start, len, size);
      Address(bb, start % size, size) == start && start % size < size && (bb == be ==> len == 0)
  {
    Split(start, size);
  }

  lemma BlockAt(bb: nat, offset: nat, size: nat)
    requires offset < size
    ensures BlockOf(Address(bb, offset, size), size) == bb && Address(bb, offset, size) % size == offset
  {
    Unsplit(bb, offset, size);
  }

  /** Copying the part of one block takes the loop over a range to the next. */
  lemma NextPart(start: nat, len: nat, bb: nat, be: nat, offset: nat, pos: nat, rest: nat, size: nat)
    requires offset < size && Address(bb, offset, size) == start + pos && pos + rest == len
    requires start + len <= Address(be, 0, size) < start + len + size && bb < be
    ensures rest <= size - offset ==> bb + 1 == be
    ensures rest > size - offset ==> bb + 1 < be && Address(bb + 1, 0, size) == start + pos + (size - offset)
  {
    assert (bb + 1) * size == bb * size + size;
    if rest <= size - offset {
      if bb + 1 < be {
        NextMultiple(bb + 1, be, size);
      }
    }
  }

  lemma AddressPlus(bb: nat, offset: nat, n: nat, size: nat)
    ensures Address(bb, offset + n, size) == Address(bb, offset, size) + n
  {
  }

  lemma AtBlock(c: Contents, d: nat, bb: nat, offset: nat, size: nat)
    requires offset < size
    ensures At(c, d, Address(bb, offset, size), size) == c(d, bb, offset)
  {
    Unsplit(bb, offset, size);
  }

  /** What an update has written when it fails: the first done bytes, in order,
      and, if lost, a block of zeroes after them. */
  ghost predicate TornAt(written: seq<Byte>, source: seq<Byte>, size: nat, done: nat, lost: bool) {
    && done + (if lost then size else 0) <= |source|
    && written == source[..done] + (if lost then Fill(size, 0) else [])
  }

  lemma TornLater(written: seq<Byte>, first: seq<Byte>, rest: seq<Byte>, size: nat, done: nat, lost: bool)
    requires TornAt(written, rest, size, done, lost)
    ensures TornAt(first + written, first + rest, size, |first| + done, lost)
  {
    assert (first + rest)[..|first| + done] == first + rest[..done];
  }

  lemma TornFirst(written: seq<Byte>, first: seq<Byte>, rest: seq<Byte>, size: nat, done: nat, lost: bool)
    requires TornAt(written, first, size, done, lost)
    ensures TornAt(written, first + rest, size, done, lost)
  {
    assert (first + rest)[..done] == first[..done];
  }

  // Nothing has been written but perhaps the zeroes.
  lemma TornBlock(source: seq<Byte>, size: nat, lost: bool)
    requires lost ==> size <= |source|
    ensures TornAt(if lost then Fill(size, 0) else [], source, size, 0, lost)
  {
  }

  // A whole number of blocks after a block boundary is another one.
  lemma Boundary(a: nat, bb: nat, stop: nat, size: nat)
    requires bb <= stop && size > 0 && Address(bb, 0, size) == a
    ensures a + Address(stop - bb, 0, size) == Address(stop, 0, size)
    ensures BlockOf(a + Address(stop - bb, 0, size), size) == stop && (a + Address(stop - bb, 0, size)) % size == 0
  {
    assert bb * size + (stop - bb) * size == stop * size;
    Unsplit(stop, 0, size);
  }
}
