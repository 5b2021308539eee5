// The block cache of io/io-manager.c: its state and its invariant.
module CacheState {
  import opened Bytes

  const SECTOR_SIZE := 512
  const MAX_BLOCK_SECTORS := 64

  datatype Dir = Read | Write

  // A request the engine holds: sectors sb..se of one block.
  datatype Run = Run(sb: nat, se: nat)

  // The list a block is on.  Loose: on none, but indexed.  Detached: on none
  // and not indexed.
  datatype Place = Free | Clean | Dirty | Errored | Pending | Loose | Detached

  // device, block, byte offset within the block
  type Contents = (nat, nat, nat) -> Byte

  function SectorOf(offset: nat): nat { offset / SECTOR_SIZE }

  /** _calc_block_mask: a bit for every sector of a block of n. */
  function FullMask(n: nat): (m: set<nat>)
    ensures forall s: nat :: s in m <==> s < n
  {
    if n == 0 then {} else FullMask(n - 1) + {n - 1}
  }

  predicate Covers(r: Run, s: nat) { r.sb <= s < r.se }

  ghost predicate Covered(runs: set<Run>, s: nat) { exists r :: r in runs && Covers(r, s) }

  // The maximal runs of bits below n, in order.
  ghost predicate IsRunList(runs: seq<Run>, bits: set<nat>, n: nat) {
    && (forall i :: 0 <= i < |runs| ==> runs[i].sb < runs[i].se <= n)
    && (forall i, j :: 0 <= i < j < |runs| ==> runs[i].se < runs[j].sb)
    && (forall i, s: nat :: 0 <= i < |runs| && Covers(runs[i], s) ==> s in bits)
    && (forall s :: s in bits && s < n ==> exists i :: 0 <= i < |runs| && Covers(runs[i], s))
  }

  // Run i ends where the bits do, and begins at the first bit after run i - 1.
  lemma RunEnds(runs: seq<Run>, bits: set<nat>, n: nat, i: nat)
    requires IsRunList(runs, bits, n) && i < |runs|
    ensures runs[i].sb in bits
    ensures runs[i].se < n ==> runs[i].se !in bits
    ensures forall s: nat :: s in bits && s < runs[i].sb ==> exists j :: 0 <= j < i && Covers(runs[j], s)
  {
    assert Covers(runs[i], runs[i].sb);
  }

  // Two run lists that agree on their first k runs agree on the next one.
  lemma NextRun(a: seq<Run>, b: seq<Run>, bits: set<nat>, n: nat, k: nat)
    requires IsRunList(a, bits, n) && IsRunList(b, bits, n) && k < |a|
    requires k <= |b| && forall j :: 0 <= j < k ==> a[j] == b[j]
    ensures k < |b| && b[k].sb <= a[k].sb
    ensures a[k].sb == b[k].sb ==> b[k].se <= a[k].se
  {
    RunEnds(a, bits, n, k);
    var j :| 0 <= j < |b| && Covers(b[j], a[k].sb);
    assert j >= k;
    if a[k].sb == b[k].sb && a[k].se < b[k].se {
      assert Covers(b[k], a[k].se);
    }
  }

  /** The properties determine the runs: a set of bits has one run list. */
  lemma RunListIsUnique(a: seq<Run>, b: seq<Run>, bits: set<nat>, n: nat)
    requires IsRunList(a, bits, n) && IsRunList(b, bits, n)
    ensures a == b
  {
    SameRuns(a, b, bits, n, |a|);
    SameRuns(b, a, bits, n, |b|);
  }

  lemma {:induction false} SameRuns(a: seq<Run>, b: seq<Run>, bits: set<nat>, n: nat, k: nat)
    requires IsRunList(a, bits, n) && IsRunList(b, bits, n) && k <= |a|
    ensures k <= |b| && forall j :: 0 <= j < k ==> a[j] == b[j]
  {
    if k > 0 {
      SameRuns(a, b, bits, n, k - 1);
      NextRun(a, b, bits, n, k - 1);
      NextRun(b, a, bits, n, k - 1);
    }
  }

  lemma AppendRun(runs: seq<Run>, bits: set<nat>, from: nat, sb: nat, se: nat)
    requires IsRunList(runs, bits, from) && from <= sb < se
    requires runs == [] || from !in bits
    requires forall s :: from <= s < sb ==> s !in bits
    requires forall s :: sb <= s < se ==> s in bits
    ensures IsRunList(runs + [Run(sb, se)], bits, se)
    ensures Run(sb, se) !in Elems(runs) && Elems(runs + [Run(sb, se)]) == Elems(runs) + {Run(sb, se)}
  {
    hide Elems;
    var longer := runs + [Run(sb, se)];
    assert longer[|runs|] == Run(sb, se);
    forall i, j | 0 <= i < j < |longer| ensures longer[i].se < longer[j].sb {
      assert longer[i] == runs[i] && (j < |runs| ==> longer[j] == runs[j]);
      assert sb in bits;
    }
    forall s | s in bits && s < se ensures exists i :: 0 <= i < |longer| && Covers(longer[i], s) {
      if s >= sb {
        assert Covers(longer[|runs|], s);
      } else {
        assert s < from;
        var i :| 0 <= i < |runs| && Covers(runs[i], s);
        assert longer[i] == runs[i];
      }
    }
  }

  // The last part of the scan finds no more.
  lemma RunListDone(runs: seq<Run>, bits: set<nat>, from: nat, n: nat)
    requires IsRunList(runs, bits, from) && from <= n && forall s :: from <= s < n ==> s !in bits
    ensures IsRunList(runs, bits, n)
  {
  }

  lemma NoRuns(bits: set<nat>)
    ensures IsRunList([], bits, 0)
  {
  }

  lemma OneRun(bits: set<nat>, n: nat)
    requires n > 0 && bits == FullMask(n)
    ensures IsRunList([Run(0, n)], bits, n) && Elems([Run(0, n)]) == {Run(0, n)}
  {
    hide IsRunList, Elems;
    NoRuns(bits);
    var none: seq<Run> := [];
    assert Elems(none) == {};
    AppendRun(none, bits, 0, 0, n);
    assert none + [Run(0, n)] == [Run(0, n)];
  }

  // The requests of a run list are disjoint and reach exactly the bits.
  lemma RunListCovers(runs: seq<Run>, bits: set<nat>, n: nat)
    requires IsRunList(runs, bits, n) && forall s :: s in bits ==> s < n
    ensures forall r :: r in Elems(runs) ==> r.sb < r.se <= n
    ensures forall q, r :: q in Elems(runs) && r in Elems(runs) && q != r ==> q.se <= r.sb || r.se <= q.sb
    ensures forall s :: s in bits <==> Covered(Elems(runs), s)
  {
    hide Elems;
    forall q, r | q in Elems(runs) && r in Elems(runs) && q != r ensures q.se <= r.sb || r.se <= q.sb {
      var i :| 0 <= i < |runs| && runs[i] == q;
      var j :| 0 <= j < |runs| && runs[j] == r;
      assert i < j || j < i;
    }
    forall s | s in bits ensures Covered(Elems(runs), s) {
      var i :| 0 <= i < |runs| && Covers(runs[i], s);
      assert runs[i] in Elems(runs);
    }
    forall s | Covered(Elems(runs), s) ensures s in bits {
      var r :| r in Elems(runs) && Covers(r, s);
      var i :| 0 <= i < |runs| && runs[i] == r;
    }
  }

  // The fields of a block, as one value; and what they mean.
  datatype BlockState = BlockState(place: Place, writes: nat, issued: seq<Run>, astray: bool, dev: nat, index: nat,
      ioPending: bool, refCount: nat, error: bool, ioDir: Dir, ioCount: nat, dirtyBits: set<nat>, inFlight: set<Run>,
      data: seq<Byte>, stuck: bool, awaiting: bool)

  // A flush writes it, if nobody holds it.
  predicate Wanting(s: BlockState) { s.place in {Dirty, Errored} }

  // list_splice of the errored blocks onto the dirty ones
  function OntoDirty(s: BlockState): BlockState { s.(place := if s.place == Errored then Dirty else s.place) }

  // A block between calls.
  predicate AtEase(s: BlockState) {
    && s.place !in {Loose, Detached} && !s.stuck && (s.refCount > 0 ==> s.place !in {Pending, Errored})
    && (s.place == Dirty ==> !s.awaiting)
  }

  // What the loop of a flush does to a block.
  predicate FlushStep(s: BlockState, t: BlockState) {
    if s.place != Dirty then t == s
    else
      && t.dev == s.dev && t.index == s.index && t.refCount == s.refCount && t.dirtyBits == s.dirtyBits && t.data == s.data
      && (s.refCount > 0 ==> t.place == Loose && t.writes == s.writes && t.stuck == s.stuck)
      && (s.refCount == 0 ==> t.place == Pending && t.writes == s.writes + 1 && t.stuck == s.awaiting)
  }

  // What the wait after it does.
  predicate WaitStep(s: BlockState, t: BlockState) {
    if s.place != Pending || s.stuck then t == s
    else
      && t.dev == s.dev && t.index == s.index && t.refCount == s.refCount && t.writes == s.writes && !t.stuck
      && (t.place == Clean || (t.place == Errored && t.dirtyBits == s.dirtyBits))
  }

  // The three steps of a flush.
  lemma FlushIs(s: BlockState, t: BlockState, u: BlockState)
    requires AtEase(s)
    ensures FlushStep(OntoDirty(s), t) ==> InFlush(s, t)
    ensures InFlush(s, t) && WaitStep(t, u) ==> AfterFlush(s, u)
  {
  }

  /** What a flush has done to a block once all writes are started. */
  predicate InFlush(s: BlockState, t: BlockState) {
    && t.dev == s.dev && t.index == s.index && t.refCount == s.refCount && t.dirtyBits == s.dirtyBits && t.data == s.data
    && (!Wanting(s) ==> t == s)
    && (Wanting(s) && s.refCount > 0 ==> t.place == Loose && t.writes == s.writes && !t.stuck)
    && (Wanting(s) && s.refCount == 0 ==> t.place == Pending && t.writes == s.writes + 1)
    && (Wanting(s) && s.refCount == 0 ==> (t.stuck <==> s.awaiting))
  }

  /** What a flush has done to a block in the end.  If it is held it is as it was, but
      for a dirty one, which is on no list.  What a failed prefetch has left is stuck. */
  predicate AfterFlush(s: BlockState, t: BlockState) {
    && t.dev == s.dev && t.index == s.index && t.refCount == s.refCount
    && (s.refCount > 0 ==> t.dirtyBits == s.dirtyBits && t.data == s.data)
    && (s.refCount > 0 ==> if s.place == Dirty then t.place == Loose else t == s)
    && (t.place == Loose ==> s.refCount > 0 && s.place == Dirty)
    && (t.place == Errored ==> t.dirtyBits == s.dirtyBits && (Wanting(s) || s.place == Pending))
    && t.writes == s.writes + (if s.refCount == 0 && Wanting(s) then 1 else 0)
    && (t.stuck <==> s.place == Errored && s.awaiting)
  }

  class Block {
    const data: array<Byte>
    ghost var place: Place
    ghost var writes: nat          // how often a write of it has been started
    ghost var issued: seq<Run>     // every request for it, in the order of issue
    ghost var astray: bool         // nothing is promised of its contents any more
    var dev: nat
    var index: nat
    var ioPending: bool            // BF_IO_PENDING
    var refCount: nat
    var error: bool
    var ioDir: Dir
    var ioCount: nat
    var dirtyBits: set<nat>        // the sectors whose bit is set
    var inFlight: set<Run>         // the engine's requests for this block

    constructor (size: nat)
      ensures fresh(data) && data.Length == size
      ensures place == Free && !ioPending && refCount == 0 && !error && ioCount == 0
      ensures dirtyBits == {} && inFlight == {} && !astray
    {
      data := new Byte[size](_ => 0);
      place, writes, issued, astray := Free, 0, [], false;
      dev, index, ioPending, refCount, error, ioDir, ioCount := 0, 0, false, 0, false, Read, 0;
      dirtyBits, inFlight := {}, {};
    }

    ghost function Key(): BlockKey
      reads `dev, `index
    {
      (dev, index)
    }

    // A write of no sectors has been started: no request will complete it.
    ghost predicate IsStuck()
      reads `ioDir, `ioPending, `dirtyBits
    {
      ioPending && ioDir.Write? && dirtyBits == {}
    }

    // The data is not there: a read is under way or has failed, and perhaps a write
    // of no sectors has been started after that.
    ghost predicate Awaiting()
      reads `ioDir, `ioPending, `error, `dirtyBits
    {
      (ioDir.Read? && (ioPending || error)) || IsStuck()
    }

    ghost function Value(): BlockState
      reads this, data
    {
      BlockState(place, writes, issued, astray, dev, index, ioPending, refCount, error, ioDir, ioCount, dirtyBits, inFlight,
        data[..], IsStuck(), Awaiting())
    }

    // No request and no reference.
    ghost predicate IsIdle()
      reads `ioPending, `ioCount, `inFlight, `refCount
    {
      !ioPending && ioCount == 0 && inFlight == {} && refCount == 0
    }

    // Sectors that the disk may not have yet.
    ghost predicate Unsynced(s: nat)
      reads `ioPending, `error, `inFlight, `dirtyBits
    {
      if ioPending && !error then Covered(inFlight, s) else s in dirtyBits
    }

    // What the completion of some of its requests does to a block.
    twostate predicate Waited()
      reads this, data
    {
      && dev == old(dev) && index == old(index) && refCount == old(refCount) && ioDir == old(ioDir) && writes == old(writes)
      && inFlight <= old(inFlight) && astray == old(astray)
      && (old(error) ==> error)
      && (!old(ioPending) ==> unchanged(this) && data[..] == old(data[..]))
      && (ioDir.Write? ==> data[..] == old(data[..]))
      && (ioPending ==> old(ioPending) && place == old(place) && dirtyBits == old(dirtyBits))
      && (old(ioPending) && !ioPending && error ==> place == Errored && dirtyBits == old(dirtyBits))
      && (old(ioPending) && !ioPending && !error ==> place == Clean && dirtyBits == {})
    }

    // What starting a write does to a block.
    twostate predicate WriteStarted()
      reads this, data
    {
      && dev == old(dev) && index == old(index) && refCount == old(refCount) == 0
      && dirtyBits == old(dirtyBits) && data[..] == old(data[..]) && writes == old(writes) + 1
      && astray == old(astray) && !old(ioPending) && ioPending && place == Pending && ioDir == Write && !error
    }

    // It has been taken off its list, and nothing else.
    twostate predicate Popped()
      reads this
    {
      && dev == old(dev) && index == old(index) && refCount == old(refCount) && dirtyBits == old(dirtyBits)
      && ioPending == old(ioPending) && error == old(error) && ioDir == old(ioDir) && writes == old(writes)
      && place == Loose && astray == old(astray)
    }

    // What a flush may have done to it: write it, or, when it is held, take it off
    // the dirty list.
    twostate predicate MayBeFlushed()
      reads this, data
    {
      && data[..] == old(data[..])
      && (unchanged(this) || (old(place) == Dirty && if refCount > 0 then Popped() else WriteStarted()))
    }

    twostate lemma IsFlushStep()
      requires MayBeFlushed() && place != Dirty && old(place == Dirty ==> (Awaiting() <==> dirtyBits == {}))
      ensures FlushStep(old(Value()), Value())
    {
    }

    twostate lemma IsWaitStep()
      requires Waited() && (old(inFlight) == {} ==> unchanged(this)) && (ioPending ==> IsStuck())
      requires old(inFlight == {} <==> !ioPending || IsStuck()) && old(ioPending <==> place == Pending)
      ensures WaitStep(old(Value()), Value())
    {
    }

    // What starting some writes may do to it.
    twostate predicate MayHaveStarted()
      reads this, data
    {
      data[..] == old(data[..]) && (unchanged(this) || (old(place) == Dirty && dirtyBits != {} && WriteStarted()))
    }

    ghost predicate RunsOk(n: nat)
      reads `inFlight, `ioDir, `dirtyBits
    {
      && (forall r :: r in inFlight ==> r.sb < r.se <= n)
      && (forall q, r :: q in inFlight && r in inFlight && q != r ==> q.se <= r.sb || r.se <= q.sb)
      && (ioDir.Write? ==> forall r, s :: r in inFlight && Covers(r, s) ==> s in dirtyBits)
      && (ioDir.Read? && inFlight != {} ==> inFlight == {Run(0, n)} && dirtyBits == {})
    }

    ghost predicate StateOk(n: nat)
      reads this
    {
      && (forall s :: s in dirtyBits ==> s < n)
      && (ioPending <==> place == Pending) && (ioPending <==> ioCount > 0 || IsStuck()) && ioCount == |inFlight|
      && RunsOk(n)
      && (refCount > 0 && !astray ==> !ioPending && !error && place in {Clean, Dirty, Loose})
      && (astray ==> IsIndexed(place))
      && (place == Clean ==> dirtyBits == {})
      && (place == Dirty ==> dirtyBits != {} || Awaiting())
      && (place == Errored ==> error)
      && (error && ioDir.Write? ==> dirtyBits != {})
      && (IsStuck() ==> ioCount == 0 && !error)
    }
  }

  predicate IsIndexed(p: Place) { p != Free && p != Detached }

  /** before, with the sectors of r in one block replaced by the bytes of now,
      and by anything where now has none. */
  function DiskAfter(before: Contents, key: BlockKey, r: Run, now: seq<Byte>, garbage: Contents): (after: Contents)
    ensures forall d: nat, i: nat, o: nat ::
      ((d, i) == key && Covers(r, SectorOf(o)) ==> after(d, i, o) == (if o < |now| then now[o] else garbage(d, i, o)))
    ensures forall d: nat, i: nat, o: nat :: (d, i) != key || !Covers(r, SectorOf(o)) ==>
      after(d, i, o) == before(d, i, o)
  {
    (d: nat, i: nat, o: nat) =>
      var v: Byte := if (d, i) == key && Covers(r, SectorOf(o)) then (if o < |now| then now[o] else garbage(d, i, o)) else before(d, i, o);
      v
  }

  /** before, with the first size bytes of one block zero. */
  function ZeroedAt(before: Contents, key: BlockKey, size: nat): (after: Contents)
    ensures forall d: nat, i: nat, o: nat :: (d, i) == key && o < size ==> after(d, i, o) == 0
    ensures forall d: nat, i: nat, o: nat :: (d, i) != key || o >= size ==> after(d, i, o) == before(d, i, o)
  {
    (d: nat, i: nat, o: nat) =>
      var v: Byte := if (d, i) == key && o < size then 0 else before(d, i, o);
      v
  }

  /** before, with the sectors of zeroed, in one block of n, zero. */
  function ZeroedSectors(before: Contents, key: BlockKey, zeroed: set<nat>, n: nat): (after: Contents)
    ensures forall d: nat, i: nat, o: nat ::
      (d, i) == key && o < n * SECTOR_SIZE && SectorOf(o) in zeroed ==> after(d, i, o) == 0
    ensures forall d: nat, i: nat, o: nat ::
      (d, i) != key || o >= n * SECTOR_SIZE || SectorOf(o) !in zeroed ==> after(d, i, o) == before(d, i, o)
    ensures zeroed == FullMask(n) ==> after == ZeroedAt(before, key, n * SECTOR_SIZE)
  {
    OffsetsFit(n);
    if zeroed == FullMask(n) then ZeroedAt(before, key, n * SECTOR_SIZE)
    else
      (d: nat, i: nat, o: nat) =>
        var v: Byte := if (d, i) == key && o < n * SECTOR_SIZE && SectorOf(o) in zeroed then 0 else before(d, i, o);
        v
  }

  // No dirty sector that is not in mask comes straight after one that is.
  ghost predicate KeepsDirtyRuns(mask: set<nat>, dirty: set<nat>, n: nat) {
    forall s :: s in mask && s + 1 < n && s + 1 in dirty ==> s + 1 in mask
  }

  /** before, with bytes stored from offset on in one block. */
  function StoredAt(before: Contents, key: BlockKey, offset: nat, bytes: seq<Byte>): (after: Contents)
    ensures forall d: nat, i: nat, o: nat :: (d, i) == key && offset <= o < offset + |bytes| ==>
      after(d, i, o) == bytes[o - offset]
    ensures forall d: nat, i: nat, o: nat :: (d, i) != key || o < offset || offset + |bytes| <= o ==>
      after(d, i, o) == before(d, i, o)
  {
    (d: nat, i: nat, o: nat) =>
      var v: Byte := if (d, i) == key && offset <= o < offset + |bytes| then bytes[o - offset] else before(d, i, o);
      v
  }

  // Sectors reached through dirty bits, from a mask that they do not leave.
  lemma {:induction false} RunStaysInMask(zeroed: set<nat>, mask: set<nat>, dirty: set<nat>, n: nat, s: nat)
    requires forall t :: t in zeroed && t !in mask ==> t > 0 && t in dirty && t - 1 in zeroed
    requires KeepsDirtyRuns(mask, dirty, n) && s in zeroed && s < n
    ensures s in mask
  {
    if s !in mask {
      RunStaysInMask(zeroed, mask, dirty, n, s - 1);
    }
  }

  // What the loop of _zero_block has zeroed below sb.
  ghost predicate ZeroedBelow(zeroed: set<nat>, mask: set<nat>, dirty: set<nat>, sb: nat) {
    && (forall s :: s in zeroed ==> s < sb)
    && (forall s :: s in mask && s < sb ==> s in zeroed)
    && (forall s :: s in zeroed && s !in mask ==> s > 0 && s in dirty && s - 1 in zeroed)
    && (forall s :: s in zeroed && s + 1 < sb && s + 1 in dirty ==> s + 1 in zeroed)
  }

  lemma ZeroedRun(zeroed: set<nat>, mask: set<nat>, dirty: set<nat>, from: nat, sb: nat, se: nat)
    requires ZeroedBelow(zeroed, mask, dirty, from) && from <= sb < se && sb in mask
    requires from > 0 ==> from !in dirty
    requires forall s :: from <= s < sb ==> s !in mask
    requires forall s :: sb < s < se ==> s in dirty
    ensures ZeroedBelow(zeroed + (FullMask(se) - FullMask(sb)), mask, dirty, se)
  {
  }

  lemma ZeroedAll(mask: set<nat>, dirty: set<nat>, n: nat)
    requires mask == FullMask(n)
    ensures ZeroedBelow(mask, mask, dirty, n)
  {
  }

  lemma ZeroedNone(mask: set<nat>, dirty: set<nat>)
    ensures ZeroedBelow({}, mask, dirty, 0)
  {
  }

  lemma OffsetsFit(n: nat)
    ensures forall o: nat :: o < n * SECTOR_SIZE ==> SectorOf(o) < n
  {
  }

  lemma ZeroedRest(zeroed: set<nat>, mask: set<nat>, dirty: set<nat>, from: nat, n: nat)
    requires ZeroedBelow(zeroed, mask, dirty, from) && from <= n && (0 < from < n ==> from !in dirty)
    requires forall s :: from <= s < n ==> s !in mask
    ensures ZeroedBelow(zeroed, mask, dirty, n)
  {
  }

  lemma ZeroedIsMask(zeroed: set<nat>, mask: set<nat>, dirty: set<nat>, n: nat)
    requires ZeroedBelow(zeroed, mask, dirty, n) && forall s :: s in mask ==> s < n
    ensures mask <= zeroed
    ensures zeroed == mask <==> KeepsDirtyRuns(mask, dirty, n)
  {
    if KeepsDirtyRuns(mask, dirty, n) {
      forall s | s in zeroed ensures s in mask {
        RunStaysInMask(zeroed, mask, dirty, n, s);
      }
    }
  }

  /** The loop clears one set of sectors: the mask, and the dirty runs that leave it. */
  lemma ZeroedIsUnique(a: set<nat>, b: set<nat>, mask: set<nat>, dirty: set<nat>, n: nat)
    requires ZeroedBelow(a, mask, dirty, n) && ZeroedBelow(b, mask, dirty, n)
    ensures a == b
  {
    forall s | s in a ensures s in b {
      ZeroedIn(a, b, mask, dirty, n, s);
    }
    forall s | s in b ensures s in a {
      ZeroedIn(b, a, mask, dirty, n, s);
    }
  }

  lemma {:induction false} ZeroedIn(a: set<nat>, b: set<nat>, mask: set<nat>, dirty: set<nat>, n: nat, s: nat)
    requires ZeroedBelow(a, mask, dirty, n) && ZeroedBelow(b, mask, dirty, n) && s in a
    ensures s in b
  {
    if s !in mask {
      ZeroedIn(a, b, mask, dirty, n, s - 1);
    }
  }

  /** It is not always the mask: asked for the first of two sectors, with the
      second dirty, it clears both. */
  lemma ZeroedBeyond(zeroed: set<nat>)
    requires ZeroedBelow(zeroed, {0}, {1}, 2)
    ensures zeroed == {0, 1} && !KeepsDirtyRuns({0}, {1}, 2)
  {
    ZeroedIsUnique(zeroed, {0, 1}, {0}, {1}, 2);
  }
}
