// Whole runs of the block cache, against one flat array per device.
module CacheRuns {
  import opened BlockCache
  import opened ByteIo
  import opened ByteRanges
  import opened Bytes
  import opened CacheState

  datatype Op =
    | Prefetch(dev: nat, start: nat, len: nat)
    | ReadOp(dev: nat, start: nat, len: nat)
    | WriteOp(dev: nat, start: nat, bytes: seq<Byte>)
    | ZeroOp(dev: nat, start: nat, len: nat)
    | SetOp(dev: nat, start: nat, len: nat, val: Byte)
    | FlushOp
    | DropBlock(dev: nat, block: nat)
    | DropDevice(dev: nat)

  datatype Answer = Data(bytes: seq<Byte>) | Success | Failure

  /** How a run ends.  Waiting: the next call, a flush, never returns.  Dropped: the
      last call has dropped a device, without success, and left blocks of it behind.
      Doubtful: the last call has dropped a device, one of whose writes had failed in
      part while it was under way. */
  datatype Ending = Served | Waiting | Dropped | Doubtful

  // The cache between two calls: the clients' bytes and the disks'; whether no
  // block is free or clean; the blocks whose last request failed; of these, the ones
  // that wait to be written again; whether a failed prefetch has left one; the
  // blocks whose write has failed in part while it is under way; and, of these, those
  // of which the disk lacks something.
  datatype View = View(flat: Contents, disk: Contents, exhausted: bool, faulty: set<BlockKey>, lost: set<BlockKey>,
      lostRead: bool, failing: set<BlockKey>, lossy: set<BlockKey>)

  ghost function ViewOf(iom: IoManager): View
    reads iom, iom.blocks, iom.buffers
  {
    View(iom.logical, iom.disk, iom.Exhausted(),
      set b | b in iom.blocks && b.error :: b.Key(),
      (set k | k in iom.rtree && iom.LostWrite(k.0, k.1)),
      iom.HasLostRead(),
      (set k | k in iom.rtree && iom.rtree[k] in iom.blocks && iom.rtree[k].ioPending && iom.rtree[k].error),
      (set k | k in iom.rtree && iom.Lossy(k.0, k.1)))
  }

  predicate Stores(op: Op) { op.WriteOp? || op.ZeroOp? || op.SetOp? }

  /** What an updating call is to store. */
  function Payload(op: Op): seq<Byte>
    requires Stores(op)
  {
    match op
    case WriteOp(_, _, bytes) => bytes
    case ZeroOp(_, _, len) => Fill(len, 0)
    case SetOp(_, _, len, val) => Fill(len, val)
  }

  /** What excuses a call that did not get a block: none was left, or a request
      for this one had failed. */
  predicate Excused(v: View, key: BlockKey) { v.exhausted || key in v.faulty }

  // The block at which a call over a range stopped.
  function StoppedAt(op: Op, reached: nat, size: nat): BlockKey
    requires (Stores(op) || op.ReadOp?) && size > 0
  {
    (op.dev, BlockOf(op.start + reached, size))
  }

  /** An updating call.  One that fails has stored the first bytes, up to a
      block that it did not get, and zeroes in that block exactly if it was to be
      written whole and waits to be written again. */
  ghost predicate StoresOk(op: Op, answer: Answer, before: View, after: View, size: nat, written: seq<Byte>, reached: nat)
    requires Stores(op) && size > 0
  {
    && Updated(before.flat, after.flat, op.dev, op.start, written, size)
    && match answer
       case Success => written == Payload(op)
       case Failure =>
         var key := StoppedAt(op, reached, size);
         && TornAt(written, Payload(op), size, reached,
              (op.start + reached) % size == 0 && reached + size <= |Payload(op)| && key in after.lost)
         && Excused(after, key)
       case Data(_) => false
  }

  // The disk has a byte as it was stored.
  ghost predicate Durable(v: View, d: nat, a: nat, size: nat)
    requires size > 0
  {
    At(v.disk, d, a, size) == At(v.flat, d, a, size)
  }

  ghost predicate ReadOk(op: Op, answer: Answer, v: View, size: nat)
    requires op.ReadOp? && size > 0
  {
    match answer
    case Data(bytes) => |bytes| == op.len && forall j :: 0 <= j < op.len ==> bytes[j] == At(v.flat, op.dev, op.start + j, size)
    case Failure => exists reached: nat :: reached <= op.len && Excused(v, StoppedAt(op, reached, size))
    case Success => false
  }

  /** One call, as a client sees it: it is answered out of, and changes, a flat
      array of bytes; what it says it has written to the disks is there; and what it
      says has failed has failed.  A flush returns only when no failed prefetch has
      left anything; and a device that is dropped has what the disk can still get. */
  ghost predicate StepOk(op: Op, answer: Answer, before: View, after: View, size: nat)
    requires size > 0
  {
    if Stores(op) then
      exists written, reached: nat :: StoresOk(op, answer, before, after, size, written, reached)
    else
      && before.flat == after.flat
      && match op
         case ReadOp(_, _, _) => ReadOk(op, answer, after, size)
         case FlushOp =>
           !before.lostRead &&
           if answer.Success? then forall d: nat, a: nat :: Durable(after, d, a, size)
           else answer.Failure? && after.faulty != {}
         case DropBlock(dev, block) =>
           if answer.Success? then forall a: nat :: BlockOf(a, size) == block ==> Durable(after, dev, a, size)
           else answer.Failure? && (dev, block) in after.faulty
         case DropDevice(dev) =>
           if answer.Success? then forall a: nat :: Durable(after, dev, a, size) || (dev, BlockOf(a, size)) in before.lossy
           else answer.Failure? && exists k :: k in after.faulty && k.0 == dev
         case _ => answer.Success?
  }

  /** A run: the cache before each call and after the last. */
  ghost predicate RunOk(ops: seq<Op>, answers: seq<Answer>, views: seq<View>, size: nat)
    requires size > 0
  {
    && |answers| <= |ops| && |views| == |answers| + 1
    && forall j :: 0 <= j < |answers| ==> StepOk(ops[j], answers[j], views[j], views[j + 1], size)
  }

  // The bytes from start on, len of them.
  predicate Touches(op: Op, dev: nat, start: nat, len: nat) {
    Stores(op) && op.dev == dev && op.start < start + len && start < op.start + |Payload(op)|
  }

  // An update that does not touch a range leaves it alone, whether it works or not.
  lemma Untouched(op: Op, answer: Answer, before: View, after: View, size: nat, dev: nat, start: nat, len: nat, j: nat)
    requires size > 0 && StepOk(op, answer, before, after, size) && !Touches(op, dev, start, len) && j < len
    ensures At(after.flat, dev, start + j, size) == At(before.flat, dev, start + j, size)
  {
    hide At, BlockOf, Durable, Excused;
    if Stores(op) {
      var written, reached: nat :| StoresOk(op, answer, before, after, size, written, reached);
      assert |written| <= |Payload(op)|;
    }
  }

  // What a call has stored is there until the next call that touches it.
  lemma {:induction false} Stays(ops: seq<Op>, answers: seq<Answer>, views: seq<View>, size: nat, w: nat, k: nat)
    requires size > 0 && RunOk(ops, answers, views, size) && w < k <= |answers|
    requires Stores(ops[w]) && answers[w].Success?
    requires forall m :: w < m < k ==> !Touches(ops[m], ops[w].dev, ops[w].start, |Payload(ops[w])|)
    ensures forall j :: 0 <= j < |Payload(ops[w])| ==>
      At(views[k].flat, ops[w].dev, ops[w].start + j, size) == Payload(ops[w])[j]
  {
    hide At, BlockOf, Durable, Excused;
    var p := Payload(ops[w]);
    if k == w + 1 {
      assert StepOk(ops[w], answers[w], views[w], views[w + 1], size);
    } else {
      Stays(ops, answers, views, size, w, k - 1);
      assert StepOk(ops[k - 1], answers[k - 1], views[k - 1], views[k], size);
      forall j | 0 <= j < |p| ensures At(views[k].flat, ops[w].dev, ops[w].start + j, size) == p[j] {
        Untouched(ops[k - 1], answers[k - 1], views[k - 1], views[k], size, ops[w].dev, ops[w].start, |p|, j);
      }
    }
  }

  /** In every run, what a call has stored is what a later read returns, as long
      as no call in between touches it, through any eviction, write back,
      failed write, retry, prefetch, flush and invalidation. */
  lemma ReadsBack(ops: seq<Op>, answers: seq<Answer>, views: seq<View>, size: nat, w: nat, r: nat)
    requires size > 0 && RunOk(ops, answers, views, size) && w < r < |answers|
    requires Stores(ops[w]) && answers[w].Success?
    requires ops[r].ReadOp? && answers[r].Data?
    requires ops[r].dev == ops[w].dev && ops[r].start == ops[w].start && ops[r].len == |Payload(ops[w])|
    requires forall m :: w < m < r ==> !Touches(ops[m], ops[w].dev, ops[w].start, |Payload(ops[w])|)
    ensures answers[r].bytes == Payload(ops[w])
  {
    hide At, BlockOf, Durable, Excused;
    Stays(ops, answers, views, size, w, r);
    assert StepOk(ops[r], answers[r], views[r], views[r + 1], size);
  }

  // The call promises that the bytes of a device are on the disk.
  predicate Writes(op: Op, dev: nat) { op.FlushOp? || (op.DropDevice? && op.dev == dev) }

  /** And what a call has stored is on the disk after the next flush, or
      invalidation of the device, that succeeds; but for a block that the invalidation
      has found with a write under way, a part of which had failed. */
  lemma IsDurable(ops: seq<Op>, answers: seq<Answer>, views: seq<View>, size: nat, w: nat, f: nat)
    requires size > 0 && RunOk(ops, answers, views, size) && w < f < |answers|
    requires Stores(ops[w]) && answers[w].Success?
    requires Writes(ops[f], ops[w].dev) && answers[f].Success?
    requires forall m :: w < m < f ==> !Touches(ops[m], ops[w].dev, ops[w].start, |Payload(ops[w])|)
    ensures forall j :: 0 <= j < |Payload(ops[w])| ==>
      || At(views[f + 1].disk, ops[w].dev, ops[w].start + j, size) == Payload(ops[w])[j]
      || (ops[f].DropDevice? && (ops[w].dev, BlockOf(ops[w].start + j, size)) in views[f].lossy)
  {
    hide At, BlockOf, Excused;
    Stays(ops, answers, views, size, w, f);
    assert StepOk(ops[f], answers[f], views[f], views[f + 1], size);
    forall j | 0 <= j < |Payload(ops[w])|
      ensures At(views[f + 1].disk, ops[w].dev, ops[w].start + j, size) == Payload(ops[w])[j]
        || (ops[f].DropDevice? && (ops[w].dev, BlockOf(ops[w].start + j, size)) in views[f].lossy)
    {
      assert Durable(views[f + 1], ops[w].dev, ops[w].start + j, size)
        || (ops[f].DropDevice? && (ops[w].dev, BlockOf(ops[w].start + j, size)) in views[f].lossy);
    }
  }

  /** A call that fails although no request has failed has found no block that is
      free or clean. */
  lemma FailsExhausted(ops: seq<Op>, answers: seq<Answer>, views: seq<View>, size: nat, j: nat)
    requires size > 0 && RunOk(ops, answers, views, size) && j < |answers| && answers[j].Failure?
    requires views[j + 1].faulty == {}
    ensures views[j + 1].exhausted && (Stores(ops[j]) || ops[j].ReadOp?)
  {
    hide At, BlockOf, Durable;
    assert StepOk(ops[j], answers[j], views[j], views[j + 1], size);
  }

  function AnswerOf(r: Outcome): Answer { if r.Done? then Success else Failure }

  // With nothing held, what stands in the way of a block is what excuses a call.
  lemma Excuse(iom: IoManager, d: nat, i: nat, writes: bool)
    requires iom.Inv() && iom.held == {} && iom.Refused(d, i, writes)
    ensures Excused(ViewOf(iom), (d, i))
  {
    iom.HeldIs();
  }

  lemma LostInView(iom: IoManager, dev: nat, start: nat, len: nat, reached: nat)
    requires iom.BlockSize() > 0
    ensures Lost(iom, dev, start, len, reached) <==>
      (start + reached) % iom.BlockSize() == 0 && reached + iom.BlockSize() <= len
      && (dev, BlockOf(start + reached, iom.BlockSize())) in ViewOf(iom).lost
  {
  }

  // The updating calls.
  method ServeStore(iom: IoManager, op: Op) returns (answer: Answer)
    requires iom.Valid() && iom.held == {} && Stores(op) && iom.BlockSize() > 0
    modifies iom, iom.blocks, iom.buffers
    ensures iom.Valid() && iom.held == {}
    ensures StepOk(op, answer, old(ViewOf(iom)), ViewOf(iom), iom.BlockSize())
  {
    hide IoManager.Inv, IoManager.Tidy, IoManager.Refused, IoManager.LostWrite, Updated, TornAt, Lost, Excused, BlockOf;
    var r;
    ghost var written, reached;
    ghost var before := ViewOf(iom);
    match op {
      case WriteOp(dev, start, bytes) => r, written, reached := WriteBytes(iom, false, dev, start, bytes);
      case ZeroOp(dev, start, len) => r, written, reached := ZeroBytes(iom, false, dev, start, len);
      case SetOp(dev, start, len, val) => r, written, reached := SetBytes(iom, false, dev, start, len, val);
    }
    answer := AnswerOf(r);
    if !r.Done? {
      Excuse(iom, op.dev, BlockOf(op.start + reached, iom.BlockSize()), true);
      LostInView(iom, op.dev, op.start, |Payload(op)|, reached);
    }
    assert StoresOk(op, answer, before, ViewOf(iom), iom.BlockSize(), written, reached);
  }

  method ServeRead(iom: IoManager, op: Op) returns (answer: Answer)
    requires iom.Valid() && iom.held == {} && op.ReadOp? && iom.BlockSize() > 0
    modifies iom, iom.blocks, iom.buffers
    ensures iom.Valid() && iom.held == {}
    ensures StepOk(op, answer, old(ViewOf(iom)), ViewOf(iom), iom.BlockSize())
  {
    hide IoManager.Inv, IoManager.Tidy, IoManager.Refused, IoManager.LostWrite, At, Excused, BlockOf;
    iom.HeldIs();
    var data := new Byte[op.len](_ => 0);
    var r;
    ghost var reached;
    r, reached := ReadBytes(iom, op.dev, op.start, op.len, data);
    if !r.Done? {
      Excuse(iom, op.dev, BlockOf(op.start + reached, iom.BlockSize()), false);
      answer := Failure;
      assert Excused(ViewOf(iom), StoppedAt(op, reached, iom.BlockSize()));
      assert ReadOk(op, answer, ViewOf(iom), iom.BlockSize());
      return;
    }
    answer := Data(data[..]);
  }

  lemma AllDurable(iom: IoManager)
    requires iom.Synced() && iom.BlockSize() > 0
    ensures forall d: nat, a: nat :: Durable(ViewOf(iom), d, a, iom.BlockSize())
  {
  }

  lemma BlockDurable(iom: IoManager, d: nat, i: nat)
    requires iom.BlockSize() > 0 && forall o :: 0 <= o < iom.BlockSize() ==> iom.disk(d, i, o) == iom.logical(d, i, o)
    ensures forall a: nat :: BlockOf(a, iom.BlockSize()) == i ==> Durable(ViewOf(iom), d, a, iom.BlockSize())
  {
  }

  lemma DeviceDurable(iom: IoManager, d: nat, lossy: set<BlockKey>)
    requires iom.BlockSize() > 0 && forall i: nat, o: nat :: o < iom.BlockSize() && (d, i) !in lossy ==>
      iom.disk(d, i, o) == iom.logical(d, i, o)
    ensures forall a: nat :: Durable(ViewOf(iom), d, a, iom.BlockSize()) || (d, BlockOf(a, iom.BlockSize())) in lossy
  {
  }

  lemma IsFaulty(iom: IoManager, b: Block)
    requires iom.Inv() && b in iom.blocks && (b.place == Errored || b in iom.errored || b.error)
    ensures b.Key() in ViewOf(iom).faulty
  {
    assert iom.BlockOk(b);
  }

  method ServeFlush(iom: IoManager) returns (answer: Option<Answer>)
    requires iom.Valid() && iom.held == {} && iom.BlockSize() > 0
    modifies iom, iom.blocks, iom.buffers
    ensures answer.None? <==> old(ViewOf(iom).lostRead)
    ensures answer.None? ==> iom.pending != [] && iom.InFlight() == {}
    ensures answer.Some? ==> iom.Valid() && iom.held == {}
    ensures answer.Some? ==> StepOk(FlushOp, answer.value, old(ViewOf(iom)), ViewOf(iom), iom.BlockSize())
  {
    hide IoManager.Inv, IoManager.Tidy, IoManager.TidyOrAdrift, IoManager.Synced, Durable;
    iom.HeldIs();
    var ok, hung := iom.Flush();
    if hung {
      return None;
    }
    if ok {
      AllDurable(iom);
      answer := Some(Success);
    } else {
      IsFaulty(iom, iom.errored[0]);
      answer := Some(Failure);
    }
  }

  method ServeDropBlock(iom: IoManager, op: Op) returns (answer: Answer)
    requires iom.Valid() && iom.held == {} && op.DropBlock? && iom.BlockSize() > 0
    modifies iom, iom.blocks, iom.buffers
    ensures iom.Valid() && iom.held == {}
    ensures StepOk(op, answer, old(ViewOf(iom)), ViewOf(iom), iom.BlockSize())
  {
    hide IoManager.Inv, IoManager.Tidy, Durable;
    var ok := iom.InvalidateBlock(op.dev, op.block);
    if ok {
      BlockDurable(iom, op.dev, op.block);
      answer := Success;
    } else {
      iom.IndexHolds();
      IsFaulty(iom, iom.rtree[(op.dev, op.block)]);
      answer := Failure;
    }
  }

  // A write of one of the device's blocks is under way, and has failed in part.
  predicate FailsInPart(iom: IoManager, dev: nat)
    reads iom, iom.rtree.Values
  {
    exists k :: k in iom.rtree && k.0 == dev && iom.rtree[k].ioPending && iom.rtree[k].error
  }

  lemma FailingInView(iom: IoManager, dev: nat)
    requires iom.Valid()
    ensures FailsInPart(iom, dev) <==> exists k :: k in ViewOf(iom).failing && k.0 == dev
    ensures forall k: BlockKey :: k in ViewOf(iom).lossy <==> iom.Lossy(k.0, k.1)
    ensures forall i: nat :: iom.Lossy(dev, i) ==> FailsInPart(iom, dev)
  {
    hide IoManager.Inv, IoManager.Tidy;
    iom.IndexHolds();
    forall i: nat | iom.Lossy(dev, i) ensures FailsInPart(iom, dev) {
      iom.LossyFails(dev, i);
      assert (dev, i) in iom.rtree;
    }
  }

  method DropDev(iom: IoManager, op: Op) returns (answer: Answer)
    requires iom.Valid() && iom.held == {} && op.DropDevice? && iom.BlockSize() > 0
    modifies iom, iom.blocks, iom.buffers
    ensures iom.Inv() && iom.held == {} && StepOk(op, answer, old(ViewOf(iom)), ViewOf(iom), iom.BlockSize())
    ensures answer.Success? && !old(FailsInPart(iom, op.dev)) ==> iom.Valid()
  {
    hide IoManager.Inv, IoManager.Tidy, IoManager.Lossy, IoManager.Unnoticed, IoManager.UnnoticedBut, IoManager.Placed;
    hide IoManager.Settled, IoManager.Droppable, IoManager.Wedged, IoManager.Released, Durable, FailsInPart;
    FailingInView(iom, op.dev);
    ghost var lossy := ViewOf(iom).lossy;
    var ok := iom.InvalidateDev(op.dev);
    iom.KeptSame(op.dev);
    if ok {
      DeviceDurable(iom, op.dev, lossy);
      return Success;
    }
    DropFailed(iom);
    answer := Failure;
  }

  method ServeDropDevice(iom: IoManager, op: Op) returns (answer: Answer, ending: Ending)
    requires iom.Valid() && iom.held == {} && op.DropDevice? && iom.BlockSize() > 0
    modifies iom, iom.blocks, iom.buffers
    ensures StepOk(op, answer, old(ViewOf(iom)), ViewOf(iom), iom.BlockSize()) && iom.Inv() && iom.held == {}
    ensures match ending
      case Served => answer.Success? && iom.Valid()
      case Doubtful => answer.Success? && exists k :: k in old(ViewOf(iom)).failing && k.0 == op.dev
      case Dropped => answer.Failure?
      case Waiting => false
  {
    hide IoManager.Inv, IoManager.Tidy, StepOk, ViewOf, FailsInPart;
    FailingInView(iom, op.dev);
    var doubtful := FailsInPart(iom, op.dev);
    answer := DropDev(iom, op);
    ending := if answer.Failure? then Dropped else if doubtful then Doubtful else Served;
    DropAnswer(op, answer, old(ViewOf(iom)), ViewOf(iom), iom.BlockSize());
  }

  lemma DropAnswer(op: Op, answer: Answer, before: View, after: View, size: nat)
    requires size > 0 && StepOk(op, answer, before, after, size) && op.DropDevice?
    ensures answer.Success? || answer.Failure?
  {
    hide Durable;
  }

  lemma DropFailed(iom: IoManager)
    requires iom.Inv() && iom.held == {} && exists k :: k in iom.cached && k !in iom.rtree
    requires forall k :: k in iom.cached && k !in iom.rtree ==>
      iom.cached[k].place == Errored || iom.cached[k].refCount > 0
    ensures exists k :: k in ViewOf(iom).faulty && k in iom.cached && k !in iom.rtree
  {
    hide IoManager.Inv;
    iom.HeldIs();
    var k :| k in iom.cached && k !in iom.rtree;
    iom.CachedIs(k);
    IsFaulty(iom, iom.cached[k]);
  }

  // The calls that store nothing.
  method ServeOther(iom: IoManager, op: Op) returns (answer: Option<Answer>, ending: Ending)
    requires iom.Valid() && iom.held == {} && !Stores(op) && iom.BlockSize() > 0
    modifies iom, iom.blocks, iom.buffers
    ensures answer.None? ==> op.FlushOp? && old(ViewOf(iom).lostRead) && iom.pending != [] && iom.InFlight() == {}
    ensures answer.Some? ==> StepOk(op, answer.value, old(ViewOf(iom)), ViewOf(iom), iom.BlockSize()) && iom.Inv()
    ensures match ending
      case Served => answer.Some? && iom.Valid() && iom.held == {}
      case Waiting => answer.None?
      case Dropped => op.DropDevice? && answer == Some(Failure)
      case Doubtful => op.DropDevice? && answer == Some(Success) && exists k :: k in old(ViewOf(iom)).failing && k.0 == op.dev
  {
    hide IoManager.Inv, IoManager.Tidy, ReadOk, Durable, ViewOf;
    ending := Served;
    var given;
    match op {
      case Prefetch(dev, start, len) =>
        PrefetchBytes(iom, dev, start, len);
        StillFlat(iom);
        given := Success;
      case ReadOp(_, _, _) => given := ServeRead(iom, op);
      case DropBlock(_, _) => given := ServeDropBlock(iom, op);
      case FlushOp =>
        answer := ServeFlush(iom);
        return answer, if answer.None? then Waiting else Served;
      case DropDevice(_) => given, ending := ServeDropDevice(iom, op);
    }
    answer := Some(given);
  }

  twostate lemma StillFlat(iom: IoManager)
    requires iom.logical == old(iom.logical)
    ensures ViewOf(iom).flat == old(ViewOf(iom)).flat
  {
  }

  lemma NoFaults(iom: IoManager)
    requires iom.Inv() && iom.reliable
    ensures ViewOf(iom).faulty == {} && !ViewOf(iom).lostRead && ViewOf(iom).failing == {}
  {
    hide IoManager.Inv;
    iom.ErroredPlaces();
    iom.NoErrors();
  }

  /** Any sequence of calls, from any state in which nobody holds a block.  Over
      an engine that never fails a request, all of them are served. */
  method Serve(iom: IoManager, ops: seq<Op>) returns (answers: seq<Answer>, ending: Ending, ghost views: seq<View>)
    requires iom.Valid() && iom.held == {} && iom.BlockSize() > 0
    modifies iom, iom.blocks, iom.buffers
    ensures RunOk(ops, answers, views, iom.BlockSize()) && views[0] == old(ViewOf(iom))
    ensures !ending.Waiting? ==> views[|answers|] == ViewOf(iom)
    ensures match ending
      case Served => |answers| == |ops| && iom.Valid() && iom.held == {}
      case Waiting => |answers| < |ops| && ops[|answers|].FlushOp? && views[|answers|].lostRead && iom.pending != [] && iom.InFlight() == {}
      case Dropped => LastIsDrop(ops, answers) && answers[|answers| - 1].Failure?
      case Doubtful => LastIsDrop(ops, answers) && exists k :: k in views[|answers| - 1].failing && k.0 == ops[|answers| - 1].dev
    ensures iom.reliable ==> ending.Served? && forall j :: 0 <= j < |views| ==> views[j].faulty == {}
  {
    hide IoManager.Inv, IoManager.Tidy, StepOk, ViewOf;
    answers, ending, views := [], Served, [ViewOf(iom)];
    if iom.reliable {
      NoFaults(iom);
    }
    var i := 0;
    while i < |ops| && ending.Served?
      invariant i <= |ops| && RunOk(ops, answers, views, iom.BlockSize()) && |answers| == i
      invariant views[0] == old(ViewOf(iom)) && views[i] == ViewOf(iom)
      invariant !ending.Waiting? && (ending.Served? ==> iom.Valid() && iom.held == {})
      invariant ending.Dropped? ==> LastIsDrop(ops, answers) && answers[i - 1].Failure?
      invariant ending.Doubtful? ==>
        LastIsDrop(ops, answers) && exists k :: k in views[i - 1].failing && k.0 == ops[i - 1].dev
      invariant iom.reliable ==> ending.Served? && !views[i].lostRead && views[i].failing == {}
      invariant iom.reliable ==> forall j :: 0 <= j < |views| ==> views[j].faulty == {}
      decreases |ops| - i
    {
      var answer;
      if Stores(ops[i]) {
        var given := ServeStore(iom, ops[i]);
        answer := Some(given);
      } else {
        answer, ending := ServeOther(iom, ops[i]);
        if answer.None? {
          return;
        }
      }
      if iom.reliable {
        NoFaults(iom);
        DropsWell(ops[i], answer.value, views[i], ViewOf(iom), iom.BlockSize());
      }
      answers, views := answers + [answer.value], views + [ViewOf(iom)];
      i := i + 1;
    }
  }

  // The last call that was answered is to drop a device.
  predicate LastIsDrop(ops: seq<Op>, answers: seq<Answer>) {
    0 < |answers| <= |ops| && ops[|answers| - 1].DropDevice?
  }

  // A device that could not be written out has a block with an error.
  lemma DropsWell(op: Op, answer: Answer, before: View, after: View, size: nat)
    requires size > 0 && StepOk(op, answer, before, after, size) && after.faulty == {}
    ensures op.DropDevice? ==> !answer.Failure?
  {
    hide Durable;
  }
}
