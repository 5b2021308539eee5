// io/io-processor.c: jobs are read in batches, and each ends in one callback.
module JobProcessor {
  import opened BlockCache
  import ByteIo
  import opened ByteRanges
  import opened Bytes
  import opened CacheState

  // id: the job's identity, given out in the order the jobs are added.
  datatype Job = Job(id: nat, path: string, start: nat, len: nat, context: nat)

  datatype Callback = Task(job: Job, data: seq<Byte>) | Error(job: Job)

  // ------------------------------------------------------------------
  // What is said of a log of callbacks
  // ------------------------------------------------------------------

  function JobsOf(log: seq<Callback>): (r: seq<Job>)
    ensures |r| == |log| && forall i :: 0 <= i < |log| ==> r[i] == log[i].job
  {
    seq(|log|, i requires 0 <= i < |log| => log[i].job)
  }

  function Tasks(log: seq<Callback>): seq<Job> {
    if log == [] then []
    else Tasks(log[..|log| - 1]) + if log[|log| - 1].Task? then [log[|log| - 1].job] else []
  }

  // What the tasks were given: where it was read, and the bytes.
  function Delivered(log: seq<Callback>): seq<(nat, seq<Byte>)> {
    if log == [] then []
    else
      var c := log[|log| - 1];
      Delivered(log[..|log| - 1]) + if c.Task? then [(c.job.start, c.data)] else []
  }

  lemma TasksPush(log: seq<Callback>, c: Callback)
    ensures Tasks(log + [c]) == Tasks(log) + if c.Task? then [c.job] else []
    ensures Delivered(log + [c]) == Delivered(log) + if c.Task? then [(c.job.start, c.data)] else []
    ensures JobsOf(log + [c]) == JobsOf(log) + [c.job]
  {
    assert (log + [c])[..|log|] == log;
  }

  lemma JobsJoin(a: seq<Callback>, b: seq<Callback>)
    ensures JobsOf(a + b) == JobsOf(a) + JobsOf(b)
  {
  }

  lemma NoCallbacks()
    ensures Tasks([]) == [] && Delivered([]) == [] && JobsOf([]) == []
  {
  }

  lemma {:induction false} TasksJoin(a: seq<Callback>, b: seq<Callback>)
    ensures Tasks(a + b) == Tasks(a) + Tasks(b)
    ensures Delivered(a + b) == Delivered(a) + Delivered(b)
    ensures JobsOf(a + b) == JobsOf(a) + JobsOf(b)
  {
    hide JobsOf, Tasks, Delivered;
    JobsJoin(a, b);
    if b == [] {
      assert a + b == a;
      NoCallbacks();
    } else {
      var init, last := b[..|b| - 1], b[|b| - 1];
      TasksJoin(a, init);
      TasksPush(a + init, last);
      TasksPush(init, last);
      assert a + b == a + init + [last] && b == init + [last];
    }
  }

  // The tasks of a log whose jobs are in order are in order too, and are some
  // of its jobs.
  lemma {:induction false} TasksInOrder(log: seq<Callback>)
    requires InOrder(JobsOf(log))
    ensures InOrder(Tasks(log)) && forall t :: t in Tasks(log) ==> t in JobsOf(log)
  {
    if log != [] {
      var init, last := log[..|log| - 1], log[|log| - 1];
      assert log == init + [last];
      TasksPush(init, last);
      hide Tasks;
      TasksInOrder(init);
      forall i | 0 <= i < |Tasks(init)| ensures Tasks(init)[i].id < last.job.id {
        assert Tasks(init)[i] in JobsOf(init);
      }
    }
  }

  lemma {:induction false} NoTasks(log: seq<Callback>)
    requires forall i :: 0 <= i < |log| ==> log[i].Error?
    ensures Tasks(log) == [] && Delivered(log) == []
  {
    if log != [] {
      NoTasks(log[..|log| - 1]);
    }
  }

  // In the order in which they were added.
  predicate InOrder(jobs: seq<Job>) {
    forall i, j :: 0 <= i < j < |jobs| ==> jobs[i].id < jobs[j].id
  }

  // Every job of s comes before every job of t.
  predicate AllBefore(s: seq<Job>, t: seq<Job>) {
    forall i, j :: 0 <= i < |s| && 0 <= j < |t| ==> s[i].id < t[j].id
  }

  // Taking the first job off a list that is in order.
  lemma TakeFirst(jobs: seq<Job>, done: seq<Job>)
    requires jobs != [] && InOrder(jobs) && InOrder(done) && AllBefore(done, jobs)
    ensures InOrder(jobs[1..]) && AllBefore(done, jobs[1..])
    ensures InOrder(done + [jobs[0]]) && AllBefore(done + [jobs[0]], jobs[1..])
  {
  }

  lemma Among(all: seq<Job>, a: seq<Job>, b: seq<Job>, c: seq<Job>)
    requires multiset(a) + multiset(b) + multiset(c) == multiset(all)
    ensures forall j :: j in a || j in b || j in c ==> j in all
  {
    forall j | j in a || j in b || j in c ensures j in all {
      assert j in multiset(a) + multiset(b) + multiset(c);
    }
  }

  // What the operations have been asked, and have answered, in order.
  datatype Event =
    | Opened(path: string, found: bool)
    | Asked(dev: nat, start: nat, len: nat, blocks: nat)
    | Reading(dev: nat, start: nat, len: nat, answer: Option<seq<Byte>>)
    | Closed(dev: nat)

  // One turn of one of the two loops of _batch.
  datatype Turn = Turn(job: Job, reading: bool, events: seq<Event>)

  /** A turn asks for its own job: it opens the job's path, and, if that works,
      prefetches or reads the job's range on the device of that path. */
  ghost predicate TurnOk(t: Turn, devOf: string -> nat) {
    var j, dev := t.job, devOf(t.job.path);
    || t.events == [Opened(j.path, false)]
    || (!t.reading && exists n :: t.events == [Opened(j.path, true), Asked(dev, j.start, j.len, n), Closed(dev)])
    || (t.reading && exists a :: t.events == [Opened(j.path, true), Reading(dev, j.start, j.len, a), Closed(dev)])
  }

  ghost predicate TurnsOk(turns: seq<Turn>, devOf: string -> nat) {
    forall t :: t in turns ==> TurnOk(t, devOf)
  }

  // The callbacks of a turn: for an open or a read that fails an error, for a read that
  // works a task with what was read, and for a prefetch none.
  function EndsOf(t: Turn): seq<Callback> {
    if |t.events| < 2 then [Error(t.job)]
    else match t.events[1]
      case Reading(_, _, _, Some(data)) => [Task(t.job, data)]
      case Reading(_, _, _, None) => [Error(t.job)]
      case _ => []
  }

  function Ends(turns: seq<Turn>): seq<Callback> {
    if turns == [] then [] else Ends(turns[..|turns| - 1]) + EndsOf(turns[|turns| - 1])
  }

  function Events(turns: seq<Turn>): seq<Event> {
    if turns == [] then [] else Events(turns[..|turns| - 1]) + turns[|turns| - 1].events
  }

  // The jobs of the first loop, in order; and those that it keeps for the second.
  function Asking(turns: seq<Turn>): seq<Job> {
    if turns == [] then []
    else
      var t := turns[|turns| - 1];
      Asking(turns[..|turns| - 1]) + if t.reading then [] else [t.job]
  }

  function Kept(turns: seq<Turn>): seq<Job> {
    if turns == [] then []
    else
      var t := turns[|turns| - 1];
      Kept(turns[..|turns| - 1]) + if !t.reading && |t.events| > 1 then [t.job] else []
  }

  lemma TurnsPush(turns: seq<Turn>, t: Turn)
    ensures Ends(turns + [t]) == Ends(turns) + EndsOf(t) && Events(turns + [t]) == Events(turns) + t.events
    ensures Asking(turns + [t]) == Asking(turns) + if t.reading then [] else [t.job]
    ensures Kept(turns + [t]) == Kept(turns) + if !t.reading && |t.events| > 1 then [t.job] else []
  {
    assert (turns + [t])[..|turns|] == turns;
  }

  lemma NoTurns()
    ensures Ends([]) == [] && Events([]) == [] && Asking([]) == [] && Kept([]) == []
  {
  }

  lemma {:induction false} TurnsJoin(a: seq<Turn>, b: seq<Turn>)
    ensures Ends(a + b) == Ends(a) + Ends(b) && Events(a + b) == Events(a) + Events(b)
    ensures Asking(a + b) == Asking(a) + Asking(b)
  {
    hide Ends, Events, Asking, Kept, EndsOf;
    NoTurns();
    if b == [] {
      assert a + b == a;
    } else {
      var init, last := b[..|b| - 1], b[|b| - 1];
      TurnsJoin(a, init);
      TurnsPush(a + init, last);
      TurnsPush(init, last);
      assert a + b == a + init + [last] && b == init + [last];
    }
  }

  // Nobody asks in the second loop.
  lemma {:induction false} NoneAsking(turns: seq<Turn>)
    requires forall i :: 0 <= i < |turns| ==> turns[i].reading
    ensures Asking(turns) == []
  {
    if turns != [] {
      NoneAsking(turns[..|turns| - 1]);
    }
  }

  // The job's path could not be opened, or its range could not be read.
  ghost predicate FailsIn(t: Turn, dev: nat) {
    || t.events == [Opened(t.job.path, false)]
    || t.events == [Opened(t.job.path, true), Reading(dev, t.job.start, t.job.len, None), Closed(dev)]
  }

  // The job's range was read, and was this.
  ghost predicate ReadsIn(t: Turn, dev: nat, data: seq<Byte>) {
    t.events == [Opened(t.job.path, true), Reading(dev, t.job.start, t.job.len, Some(data)), Closed(dev)]
  }

  /** A job is in error exactly if, in one of its turns, its path could not be opened or
      its range could not be read; and it is given exactly what was read there. */
  lemma {:induction false} EndsAre(turns: seq<Turn>, devOf: string -> nat, j: Job, data: seq<Byte>)
    requires TurnsOk(turns, devOf)
    ensures Error(j) in Ends(turns) <==> exists t :: t in turns && t.job == j && FailsIn(t, devOf(j.path))
    ensures Task(j, data) in Ends(turns) <==> exists t :: t in turns && t.job == j && ReadsIn(t, devOf(j.path), data)
  {
    if turns != [] {
      var init, last := turns[..|turns| - 1], turns[|turns| - 1];
      assert turns == init + [last] && last in turns;
      EndsAre(init, devOf, j, data);
      assert TurnOk(last, devOf);
    }
  }

  /** The turns account for all that was asked, and for all the callbacks. */
  ghost predicate Traced(before: seq<Event>, after: seq<Event>, turns: seq<Turn>, ended: seq<Callback>, devOf: string -> nat) {
    TurnsOk(turns, devOf) && after == before + Events(turns) && ended == Ends(turns)
  }

  lemma TracedNothing(before: seq<Event>, devOf: string -> nat)
    ensures Traced(before, before, [], [], devOf)
  {
    NoTurns();
  }

  lemma TracedTurn(before: seq<Event>, mid: seq<Event>, turns: seq<Turn>, ended: seq<Callback>, t: Turn, devOf: string -> nat)
    requires Traced(before, mid, turns, ended, devOf) && TurnOk(t, devOf)
    ensures Traced(before, mid + t.events, turns + [t], ended + EndsOf(t), devOf)
  {
    hide Ends, EndsOf, Events, Asking, Kept, TurnOk;
    TurnsPush(turns, t);
  }

  lemma TracedMore(before: seq<Event>, mid: seq<Event>, after: seq<Event>, a: seq<Turn>, b: seq<Turn>,
      first: seq<Callback>, second: seq<Callback>, devOf: string -> nat)
    requires Traced(before, mid, a, first, devOf) && Traced(mid, after, b, second, devOf)
    ensures Traced(before, after, a + b, first + second, devOf)
  {
    hide Ends, EndsOf, Events, Asking, Kept, TurnOk;
    TurnsJoin(a, b);
  }

  // The jobs that have had their turn are the first of all, in order.
  ghost predicate InTurn(all: seq<Job>, jobs: seq<Job>, turns: seq<Turn>) {
    all == Asking(turns) + jobs
  }

  lemma InTurnIs(all: seq<Job>, jobs: seq<Job>, turns: seq<Turn>)
    ensures InTurn(all, jobs, turns) <==> all == Asking(turns) + jobs
    ensures Asking([]) == []
  {
  }

  lemma InTurnMore(all: seq<Job>, mid: seq<Job>, jobs: seq<Job>, a: seq<Turn>, b: seq<Turn>)
    requires InTurn(all, mid, a) && InTurn(mid, jobs, b)
    ensures InTurn(all, jobs, a + b)
  {
    hide Ends, EndsOf, Events, Asking, Kept, TurnOk;
    TurnsJoin(a, b);
  }

  // And batch are those of them whose path could be opened.
  ghost predicate Taken(all: seq<Job>, jobs: seq<Job>, turns: seq<Turn>, batch: seq<Job>) {
    InTurn(all, jobs, turns) && batch == Kept(turns)
  }

  lemma TakenNothing(all: seq<Job>)
    ensures Taken(all, all, [], [])
  {
    NoTurns();
    assert [] + all == all;
  }

  lemma TakenTurn(all: seq<Job>, jobs: seq<Job>, turns: seq<Turn>, batch: seq<Job>, t: Turn)
    requires Taken(all, jobs, turns, batch) && jobs != [] && t.job == jobs[0] && !t.reading
    ensures Taken(all, jobs[1..], turns + [t], batch + if |t.events| > 1 then [t.job] else [])
  {
    hide Ends, EndsOf, Events, Asking, Kept, TurnOk;
    TurnsPush(turns, t);
    assert Asking(turns) + jobs == Asking(turns) + [t.job] + jobs[1..];
  }

  lemma BatchTurns(all: seq<Job>, batch: seq<Job>, jobs: seq<Job>, first: seq<Turn>, second: seq<Turn>)
    requires Taken(all, jobs, first, batch) && forall i :: 0 <= i < |second| ==> second[i].reading
    ensures InTurn(all, jobs, first + second)
  {
    NoneAsking(second);
    assert [] + jobs == jobs;
    InTurnMore(all, jobs, jobs, first, second);
  }

  // What a prefetch was asked for, and how many blocks it said it covers.
  datatype Prefetch = Prefetch(dev: nat, start: nat, len: nat, blocks: nat)

  function Total(s: seq<Prefetch>): nat {
    if s == [] then 0 else Total(s[..|s| - 1]) + s[|s| - 1].blocks
  }

  lemma TotalPush(s: seq<Prefetch>, p: Prefetch)
    ensures Total(s + [p]) == Total(s) + p.blocks && (s + [p])[..|s + [p]| - 1] == s
  {
    assert (s + [p])[..|s|] == s;
  }

  /** The prefetches of one batch.  It grows while they cover fewer than count
      blocks and, when there are more jobs, until they cover as many. */
  predicate Bounded(s: seq<Prefetch>, count: nat, more: bool) {
    && (s != [] ==> Total(s[..|s| - 1]) < count)
    && (more ==> Total(s) >= count)
  }

  // One prefetch for each of the jobs, on the device of its path.
  predicate AskedFor(s: seq<Prefetch>, batch: seq<Job>, devOf: string -> nat) {
    |s| == |batch| && forall i :: 0 <= i < |s| ==>
      s[i].dev == devOf(batch[i].path) && s[i].start == batch[i].start && s[i].len == batch[i].len
  }

  // The callbacks end with those of the jobs that were prefetched.
  ghost predicate EndsWith(ended: seq<Callback>, s: seq<Prefetch>, devOf: string -> nat) {
    |s| <= |ended| && AskedFor(s, JobsOf(ended)[|ended| - |s|..], devOf)
  }

  lemma NoneAsked(devOf: string -> nat, count: nat)
    ensures AskedFor([], [], devOf) && Bounded([], count, false)
  {
  }

  lemma BoundedPush(s: seq<Prefetch>, count: nat, p: Prefetch)
    requires Total(s) < count
    ensures Bounded(s + [p], count, false)
  {
    TotalPush(s, p);
  }

  lemma BoundedIs(s: seq<Prefetch>, count: nat)
    ensures Bounded(s, count, false) && Total(s) >= count ==> Bounded(s, count, true)
  {
  }

  lemma AskedPush(s: seq<Prefetch>, batch: seq<Job>, devOf: string -> nat, j: Job, n: nat)
    requires AskedFor(s, batch, devOf)
    ensures AskedFor(s + [Prefetch(devOf(j.path), j.start, j.len, n)], batch + [j], devOf)
  {
  }

  function Joined(batches: seq<seq<Prefetch>>): seq<Prefetch> {
    if batches == [] then [] else Joined(batches[..|batches| - 1]) + batches[|batches| - 1]
  }

  // Every batch is bounded; there are more jobs after all but the last.
  predicate AllBounded(batches: seq<seq<Prefetch>>, count: nat, more: bool) {
    forall i :: 0 <= i < |batches| ==> Bounded(batches[i], count, more || i + 1 < |batches|)
  }

  lemma BatchesPush(batches: seq<seq<Prefetch>>, s: seq<Prefetch>, count: nat, more: bool)
    requires AllBounded(batches, count, true) && Bounded(s, count, more)
    ensures AllBounded(batches + [s], count, more) && Joined(batches + [s]) == Joined(batches) + s
  {
    hide Bounded;
    assert (batches + [s])[..|batches|] == batches;
  }

  // ------------------------------------------------------------------
  // The processor and the operations it is given
  // ------------------------------------------------------------------

  /** _blocks_covered: from the block of the first byte to that of the last; a range
      of no bytes covers the block that its start cuts. */
  function BlocksCovered(start: nat, len: nat, size: nat): (n: nat)
    requires size > 0
    ensures len > 0 ==> n == BlockOf(start + len - 1, size) + 1 - BlockOf(start, size)
    ensures len == 0 ==> n == if start % size == 0 then 0 else 1
  {
    var (b, e) := BlockRange(start, len, size);
    CoveredFrom(start, len, size);
    e - b
  }

  lemma CoveredFrom(start: nat, len: nat, size: nat)
    requires size > 0
    ensures var (b, e) := BlockRange(start, len, size);
      && b == BlockOf(start, size) && (len > 0 ==> e == BlockOf(start + len - 1, size) + 1)
      && (len == 0 ==> e == b + if start % size == 0 then 0 else 1)
  {
    var (b, e) := BlockRange(start, len, size);
    BlockIs(start, b, size);
    if len > 0 {
      BlockIs(start + len - 1, e - 1, size);
    } else {
      EmptyCovers(start, b, e, size);
    }
  }

  // A range of no bytes ends at the next block boundary.
  lemma EmptyCovers(start: nat, b: nat, e: nat, size: nat)
    requires size > 0 && b * size <= start < b * size + size && start <= e * size < start + size
    ensures e == b + if start % size == 0 then 0 else 1
  {
    var cut := start % size;
    assert start == b * size + cut by {
      BlockIs(start, b, size);
      Split(start, size);
    }
    Multiple(e, size);
    if cut == 0 {
      BlockIs(e * size, b, size);
    } else {
      if e <= b {
        Multiples(e, b, size);
      } else {
        Multiples(b + 1, e, size);
      }
      assert (b + 1) * size == b * size + size && cut < size;
      BlockIs(e * size, b + 1, size);
    }
  }

  lemma Multiple(e: nat, size: nat)
    requires size > 0
    ensures (e * size) / size == e
  {
    Unsplit(e, 0, size);
  }

  lemma Multiples(x: nat, y: nat, size: nat)
    requires x <= y
    ensures x * size <= y * size
  {
  }

  // The one block that holds a.
  lemma BlockIs(a: nat, bb: int, size: nat)
    requires size > 0 && bb * size <= a < bb * size + size
    ensures bb == BlockOf(a, size) == a / size
  {
    Split(a, size);
    if bb < a / size {
      NextMultiple(bb, a / size, size);
    } else if a / size < bb {
      NextMultiple(a / size, bb, size);
    }
  }

  /** A task is given the bytes that a device has where its job says. */
  ghost predicate IsStored(c: Callback, stored: Contents, dev: nat, size: nat) {
    size > 0 && c.Task? ==>
      |c.data| == c.job.len && forall j :: 0 <= j < c.job.len ==> c.data[j] == At(stored, dev, c.job.start + j, size)
  }

  /** struct processor_ops: those over a cache, which io_processor_create makes, and
      with no cache any behaviour. */
  class Ops {
    const iom: IoManager?
    // the number of the device that a path names
    const devOf: string -> nat
    const batchSize: nat
    var gets: nat
    var puts: nat
    // every read that has worked: where, and the bytes
    var served: seq<(nat, seq<Byte>)>
    // devices not found, and reads that have not worked
    var failures: nat
    // every prefetch, and its answer
    var prefetches: seq<Prefetch>
    var events: seq<Event>

    // The objects of the cache.
    ghost function Below(): set<object> {
      if iom == null then {} else {iom} + iom.blocks + iom.buffers
    }

    // Nobody holds a block, and every answer to a prefetch has been the number of
    // blocks that its range covers.
    ghost predicate Ready()
      reads `prefetches, Below()
    {
      iom != null ==>
        && iom.Valid() && iom.held == {} && iom.BlockSize() > 0
        && forall p :: p in prefetches ==> p.blocks == BlocksCovered(p.start, p.len, iom.BlockSize())
    }

    // What the clients of the cache have stored is as it was.
    twostate predicate Untouched()
      reads Below()
    {
      iom != null ==> iom.logical == old(iom.logical)
    }

    constructor (batchSize: nat, devOf: string -> nat)
      ensures iom == null && this.batchSize == batchSize && this.devOf == devOf && Ready()
      ensures gets == 0 && puts == 0 && served == [] && failures == 0 && prefetches == [] && events == []
    {
      iom, this.devOf, events := null, devOf, [];
      this.batchSize, gets, puts, served, failures, prefetches := batchSize, 0, 0, [], 0, [];
    }

    /** io_processor_create: a batch may prefetch as much as the cache has requests. */
    constructor Over(iom: IoManager, devOf: string -> nat)
      requires iom.Valid() && iom.held == {}
      ensures this.iom == iom && this.devOf == devOf && batchSize == iom.maxIo && Ready()
      ensures gets == 0 && puts == 0 && served == [] && failures == 0 && prefetches == [] && events == []
    {
      this.iom, this.devOf, events := iom, devOf, [];
      this.batchSize, gets, puts, served, failures, prefetches := iom.maxIo, 0, 0, [], 0, [];
      new;
      iom.StorageHolds();
    }

    method GetDev(path: string) returns (found: bool, dev: nat)
      requires Ready()
      modifies `gets, `failures, `events
      ensures Ready() && events == old(events) + [Opened(path, found)]
      ensures gets == old(gets) + (if found then 1 else 0) && failures == old(failures) + (if found then 0 else 1)
      ensures dev == devOf(path)
    {
      found := *;
      dev := devOf(path);
      events := events + [Opened(path, found)];
      if found {
        gets := gets + 1;
      } else {
        failures := failures + 1;
      }
    }

    method PutDev(dev: nat)
      requires puts < gets && Ready()
      modifies `puts, `events
      ensures Ready() && puts == old(puts) + 1 && gets == old(gets) && events == old(events) + [Closed(dev)]
    {
      puts := puts + 1;
      events := events + [Closed(dev)];
    }

    method PrefetchBytes(dev: nat, start: nat, len: nat) returns (covered: nat)
      requires Ready()
      modifies `prefetches, `events, Below()
      ensures Ready() && Untouched() && prefetches == old(prefetches) + [Prefetch(dev, start, len, covered)]
      ensures events == old(events) + [Asked(dev, start, len, covered)]
    {
      hide IoManager.Valid, BlockRange;
      if iom != null {
        ByteIo.PrefetchBytes(iom, dev, start, len);
        covered := BlocksCovered(start, len, iom.BlockSize());
      } else {
        covered := *;
      }
      prefetches := prefetches + [Prefetch(dev, start, len, covered)];
      events := events + [Asked(dev, start, len, covered)];
    }

    // The read itself: of the cache, or any.
    method Fill(dev: nat, start: nat, len: nat, buffer: array<Byte>) returns (ok: bool)
      requires Ready() && len <= buffer.Length && buffer !in Below()
      modifies buffer, Below()
      ensures Ready() && Untouched()
      ensures ok && iom != null ==> forall j :: 0 <= j < len ==>
        buffer[j] == At(iom.logical, dev, start + j, iom.BlockSize())
    {
      hide IoManager.Valid, BlockRange, At;
      if iom != null {
        ghost var reached;
        var r;
        r, reached := ByteIo.ReadBytes(iom, dev, start, len, buffer);
        return r.Done?;
      }
      ok := *;
      var data: seq<Byte> := *;
      forall i | 0 <= i < buffer.Length && i < |data| && i < len {
        buffer[i] := data[i];
      }
    }

    method ReadBytes(dev: nat, start: nat, len: nat, buffer: array<Byte>) returns (ok: bool)
      requires Ready() && len <= buffer.Length && buffer !in Below()
      modifies buffer, `served, `failures, `events, Below()
      ensures Ready() && Untouched()
      ensures events == old(events) + [Reading(dev, start, len, if ok then Some(buffer[..len]) else None)]
      ensures failures == old(failures) + if ok then 0 else 1
      ensures served == old(served) + if ok then [(start, buffer[..len])] else []
      ensures ok && iom != null ==> forall j :: 0 <= j < len ==>
        buffer[j] == At(iom.logical, dev, start + j, iom.BlockSize())
    {
      hide IoManager.Valid, BlocksCovered, At;
      ok := Fill(dev, start, len, buffer);
      events := events + [Reading(dev, start, len, if ok then Some(buffer[..len]) else None)];
      if ok {
        served := served + [(start, buffer[..len])];
      } else {
        failures := failures + 1;
      }
    }
  }

  // Where the logs are.
  datatype Start = Start(log: seq<Callback>, served: seq<(nat, seq<Byte>)>, failures: nat, prefetches: seq<Prefetch>,
    events: seq<Event>)

  ghost predicate JobsAre(log: seq<Callback>, batch: seq<Job>, jobs: seq<Job>, all: seq<Job>) {
    multiset(JobsOf(log)) + multiset(batch) + multiset(jobs) == multiset(all)
  }

  lemma Conserved(log: seq<Callback>, batch: seq<Job>, jobs: seq<Job>, all: seq<Job>)
    requires jobs != [] && JobsAre(log, batch, jobs, all)
    ensures JobsAre(log + [Error(jobs[0])], batch, jobs[1..], all)
    ensures JobsAre(log, batch + [jobs[0]], jobs[1..], all)
  {
    TasksPush(log, Error(jobs[0]));
    assert jobs == [jobs[0]] + jobs[1..];
  }

  lemma NothingYet(jobs: seq<Job>)
    ensures JobsAre([], [], jobs, jobs) && Total([]) == 0 && InOrder([]) && AllBefore([], jobs)
  {
  }

  // ended has called back for each of all once, but for the jobs that are left;
  // its tasks are in order, and before those.
  ghost predicate Ended(ended: seq<Callback>, jobs: seq<Job>, all: seq<Job>) {
    && multiset(JobsOf(ended)) + multiset(jobs) == multiset(all)
    && InOrder(Tasks(ended)) && AllBefore(Tasks(ended), jobs) && forall t :: t in Tasks(ended) ==> t in all
  }

  lemma NoneEnded(jobs: seq<Job>)
    ensures Ended([], jobs, jobs)
  {
    assert JobsOf([]) == [] && Tasks([]) == [];
  }

  lemma BatchEnds(failed: seq<Callback>, last: seq<Callback>, batch: seq<Job>, jobs: seq<Job>, all: seq<Job>)
    requires JobsAre(failed, batch, jobs, all) && JobsOf(last) == batch && InOrder(batch) && AllBefore(batch, jobs)
    requires forall i :: 0 <= i < |failed| ==> failed[i].Error?
    ensures Ended(failed + last, jobs, all)
  {
    hide JobsOf, Tasks, InOrder, Delivered;
    NoTasks(failed);
    TasksJoin(failed, last);
    TasksInOrder(last);
    Among(all, JobsOf(failed), batch, jobs);
    assert multiset(JobsOf(failed) + batch) == multiset(JobsOf(failed)) + multiset(batch);
    assert Tasks(failed + last) == Tasks(last);
    forall i, k | 0 <= i < |Tasks(last)| && 0 <= k < |jobs| ensures Tasks(last)[i].id < jobs[k].id {
      assert Tasks(last)[i] in batch;
      var n :| 0 <= n < |batch| && batch[n] == Tasks(last)[i];
    }
  }

  lemma EndedMore(ended: seq<Callback>, more: seq<Callback>, jobs: seq<Job>, mid: seq<Job>, all: seq<Job>)
    requires Ended(ended, mid, all) && Ended(more, jobs, mid)
    ensures Ended(ended + more, jobs, all)
  {
    hide JobsOf, Tasks, Delivered, InOrder, AllBefore;
    TasksJoin(ended, more);
    Among(all, JobsOf(ended), [], mid);
    Among(mid, JobsOf(more), [], jobs);
    EndedOrder(Tasks(ended), Tasks(more), mid, jobs);
  }

  lemma EndedOrder(a: seq<Job>, b: seq<Job>, mid: seq<Job>, jobs: seq<Job>)
    requires InOrder(a) && InOrder(b) && AllBefore(a, mid) && AllBefore(b, jobs)
    requires forall t :: t in b || t in jobs ==> t in mid
    ensures InOrder(a + b) && AllBefore(a + b, jobs)
  {
    forall i, k | 0 <= i < |a| && 0 <= k < |b| ensures a[i].id < b[k].id {
      assert b[k] in mid;
      var n :| 0 <= n < |mid| && mid[n] == b[k];
    }
    forall i, k | 0 <= i < |a| && 0 <= k < |jobs| ensures a[i].id < jobs[k].id {
      assert jobs[k] in mid;
      var n :| 0 <= n < |mid| && mid[n] == jobs[k];
    }
  }

  lemma BatchIsLast(failed: seq<Callback>, last: seq<Callback>, covered: seq<Prefetch>, batch: seq<Job>, devOf: string -> nat)
    requires AskedFor(covered, batch, devOf) && JobsOf(last) == batch
    ensures EndsWith(failed + last, covered, devOf)
  {
    assert JobsOf(failed + last)[|failed|..] == batch;
  }

  class IoProcessor {
    const ops: Ops
    var jobs: seq<Job>
    var buffer: array<Byte>
    // what task and err have been called with
    var log: seq<Callback>
    var added: nat

    ghost predicate Valid()
      reads this, ops, ops.Below()
    {
      && ops.Ready() && buffer !in ops.Below() && InOrder(jobs) && (forall i :: 0 <= i < |jobs| ==> jobs[i].id < added && jobs[i].len * 512 <= buffer.Length)
      && (forall i :: 0 <= i < |log| ==> log[i].job.id < added)
      && ops.gets == ops.puts
    }

    constructor (ops: Ops)
      requires ops.gets == ops.puts && ops.Ready()
      ensures Valid() && this.ops == ops && jobs == [] && log == [] && fresh(buffer)
    {
      this.ops, jobs, log, added := ops, [], [], 0;
      buffer := new Byte[0];
    }

    // The cache is made of other objects.
    lemma Separate()
      ensures this !in ops.Below() && ops !in ops.Below()
    {
    }

    /** _ensure_buffer: the buffer only grows. */
    method EnsureBuffer(sectors: nat)
      modifies `buffer
      ensures buffer.Length >= sectors * 512 && buffer.Length >= old(buffer.Length)
      ensures buffer == old(buffer) || fresh(buffer)
    {
      var size := sectors * 512;
      if size <= buffer.Length {
        return;
      }
      buffer := new Byte[size](_ => 0);
    }

    /** io_processor_add */
    method Add(path: string, start: nat, len: nat, context: nat)
      requires Valid()
      modifies `jobs, `buffer, `added
      ensures Valid() && jobs == old(jobs) + [Job(old(added), path, start, len, context)]
      ensures buffer == old(buffer) || fresh(buffer)
    {
      hide Ops.Ready;
      EnsureBuffer(len);
      jobs := jobs + [Job(added, path, start, len, context)];
      added := added + 1;
    }

    // One turn of it, but for the bookkeeping.
    method PrefetchJob(j: Job) returns (found: bool, n: nat, ghost t: Turn)
      requires ops.gets == ops.puts && ops.Ready()
      modifies ops, ops.Below()
      ensures ops.Ready() && ops.Untouched() && ops.gets == ops.puts && ops.served == old(ops.served)
      ensures ops.failures == old(ops.failures) + if found then 0 else 1
      ensures ops.prefetches == old(ops.prefetches) + if found then [Prefetch(ops.devOf(j.path), j.start, j.len, n)] else []
      ensures t.job == j && !t.reading && TurnOk(t, ops.devOf) && ops.events == old(ops.events) + t.events
      ensures EndsOf(t) == (if found then [] else [Error(j)]) && (found <==> |t.events| > 1)
    {
      hide Ops.Ready, Ops.Below;
      Separate();
      var dev;
      found, dev := ops.GetDev(j.path);
      t, n := Turn(j, false, [Opened(j.path, found)]), 0;
      if found {
        n := ops.PrefetchBytes(dev, j.start, j.len);
        ops.PutDev(dev);
        t := Turn(j, false, [Opened(j.path, true), Asked(dev, j.start, j.len, n), Closed(dev)]);
      }
    }

    /** The prefetch half of _batch. */
    method PrefetchBatch(count: nat)
      returns (batch: seq<Job>, ghost failed: seq<Callback>, ghost covered: seq<Prefetch>, ghost turns: seq<Turn>)
      requires Valid() && count > 0 && jobs != []
      modifies `jobs, `log, ops, ops.Below()
      ensures Valid() && ops.Untouched() && |jobs| < |old(jobs)| && ops.gets == ops.puts && ops.served == old(ops.served)
      ensures log == old(log) + failed && forall i :: 0 <= i < |failed| ==> failed[i].Error?
      ensures ops.failures == old(ops.failures) + |failed|
      ensures JobsAre(failed, batch, jobs, old(jobs))
      ensures InOrder(batch) && AllBefore(batch, jobs)
      ensures ops.prefetches == old(ops.prefetches) + covered && AskedFor(covered, batch, ops.devOf)
      ensures Bounded(covered, count, jobs != [])
      // the jobs take their turns in order
      ensures Traced(old(ops.events), ops.events, turns, failed, ops.devOf) && Taken(old(jobs), jobs, turns, batch)
    {
      hide InOrder, AllBefore, JobsOf, Total, JobsAre, Ops.Ready, Ops.Below, EndsOf, TurnOk, Traced, Taken, AskedFor,
          Bounded;
      Separate();
      TracedNothing(ops.events, ops.devOf);
      TakenNothing(jobs);
      batch, failed, covered, turns := [], [], [], [];
      ghost var all := jobs;
      NothingYet(jobs);
      NoneAsked(ops.devOf, count);
      var left := count;
      while jobs != [] && left > 0
        invariant Valid() && ops.Untouched() && ops.gets == ops.puts && ops.served == old(ops.served)
        invariant |jobs| < |all| || (jobs == all && left > 0)
        invariant ops.failures == old(ops.failures) + |failed|
        invariant log == old(log) + failed && forall i :: 0 <= i < |failed| ==> failed[i].Error?
        invariant JobsAre(failed, batch, jobs, all)
        invariant InOrder(batch) && AllBefore(batch, jobs)
        invariant ops.prefetches == old(ops.prefetches) + covered && AskedFor(covered, batch, ops.devOf)
        invariant Traced(old(ops.events), ops.events, turns, failed, ops.devOf) && Taken(all, jobs, turns, batch)
        invariant left == if Total(covered) < count then count - Total(covered) else 0
        invariant Bounded(covered, count, false)
        decreases |jobs|
      {
        var j := jobs[0];
        TakeFirst(jobs, batch);
        Conserved(failed, batch, jobs, all);
        var found, n;
        ghost var t;
        ghost var mid := ops.events;
        found, n, t := PrefetchJob(j);
        TracedTurn(old(ops.events), mid, turns, failed, t, ops.devOf);
        TakenTurn(all, jobs, turns, batch, t);
        turns := turns + [t];
        jobs := jobs[1..];
        assert failed + [] == failed && batch + [] == batch;
        if !found {
          log := log + [Error(j)];
          failed := failed + [Error(j)];
        } else {
          left := left - if left < n then left else n;
          TotalPush(covered, Prefetch(ops.devOf(j.path), j.start, j.len, n));
          AskedPush(covered, batch, ops.devOf, j, n);
          BoundedPush(covered, count, Prefetch(ops.devOf(j.path), j.start, j.len, n));
          covered := covered + [Prefetch(ops.devOf(j.path), j.start, j.len, n)];
          batch := batch + [j];
        }
      }
      BoundedIs(covered, count);
    }

    // Over a cache, the tasks are given what its clients have stored.
    ghost predicate AreStored(ended: seq<Callback>)
      reads ops.Below()
    {
      ops.iom != null ==>
        forall c :: c in ended ==> IsStored(c, ops.iom.logical, ops.devOf(c.job.path), ops.iom.BlockSize())
    }

    lemma ErrorsAreStored(failed: seq<Callback>)
      requires forall i :: 0 <= i < |failed| ==> failed[i].Error?
      ensures AreStored(failed)
    {
    }

    // The read of one job, and what it is told.
    method ReadJob(j: Job) returns (c: Callback, ghost t: Turn)
      requires ops.gets == ops.puts && j.len <= buffer.Length && ops.Ready() && buffer !in ops.Below()
      modifies ops, buffer, ops.Below()
      ensures ops.Ready() && ops.Untouched() && AreStored([c])
      ensures t.job == j && t.reading && TurnOk(t, ops.devOf) && EndsOf(t) == [c]
      ensures ops.events == old(ops.events) + t.events
      ensures c.job == j && ops.gets == ops.puts && ops.prefetches == old(ops.prefetches)
      ensures c.Task? ==> |c.data| == j.len
      ensures ops.served == old(ops.served) + if c.Task? then [(j.start, c.data)] else []
      ensures ops.failures == old(ops.failures) + if c.Task? then 0 else 1
    {
      hide Ops.Ready, Ops.Below;
      Separate();
      c := Error(j);
      var found, dev := ops.GetDev(j.path);
      t := Turn(j, true, [Opened(j.path, found)]);
      if !found {
        return;
      }
      var ok := ops.ReadBytes(dev, j.start, j.len, buffer);
      ops.PutDev(dev);
      ghost var answer := if ok then Some(buffer[..j.len]) else None;
      t := Turn(j, true, [Opened(j.path, true), Reading(dev, j.start, j.len, answer), Closed(dev)]);
      if ok {
        c := Task(j, buffer[..j.len]);
      }
    }

    /** The read half of _batch. */
    method ReadBatch(batch: seq<Job>) returns (ghost ended: seq<Callback>, ghost turns: seq<Turn>)
      requires Valid() && InOrder(batch)
      requires forall i :: 0 <= i < |batch| ==> batch[i].id < added && batch[i].len <= buffer.Length
      modifies `log, ops, buffer, ops.Below()
      ensures ops.Untouched() && AreStored(ended)
      ensures Valid() && ops.gets == ops.puts && log == old(log) + ended && ops.prefetches == old(ops.prefetches)
      ensures |Tasks(ended)| + ops.failures == |ended| + old(ops.failures)
      ensures JobsOf(ended) == batch && ops.served == old(ops.served) + Delivered(ended)
      ensures forall i :: 0 <= i < |ended| && ended[i].Task? ==> |ended[i].data| == ended[i].job.len
      ensures |turns| == |batch| && forall i :: 0 <= i < |turns| ==> turns[i].job == batch[i] && turns[i].reading
      ensures Traced(old(ops.events), ops.events, turns, ended, ops.devOf)
    {
      hide Tasks, JobsOf, Delivered, Ops.Ready, IsStored, Ops.Below, EndsOf, TurnOk, Traced;
      Separate();
      ended, turns := [], [];
      NoCallbacks();
      TracedNothing(ops.events, ops.devOf);
      assert batch[..0] == [];
      var i := 0;
      while i < |batch|
        invariant i <= |batch| && Valid() && ops.gets == ops.puts && log == old(log) + ended
        invariant JobsOf(ended) == batch[..i] && ops.Untouched() && AreStored(ended)
        invariant ops.served == old(ops.served) + Delivered(ended) && ops.prefetches == old(ops.prefetches)
        invariant |Tasks(ended)| + ops.failures == |ended| + old(ops.failures)
        invariant forall k :: 0 <= k < |ended| && ended[k].Task? ==> |ended[k].data| == ended[k].job.len
        invariant |turns| == i && forall k :: 0 <= k < i ==> turns[k].job == batch[k] && turns[k].reading
        invariant Traced(old(ops.events), ops.events, turns, ended, ops.devOf)
      {
        var c;
        ghost var t;
        ghost var mid := ops.events;
        c, t := ReadJob(batch[i]);
        TracedTurn(old(ops.events), mid, turns, ended, t, ops.devOf);
        turns := turns + [t];
        assert batch[..i + 1] == batch[..i] + [batch[i]];
        log := log + [c];
        TasksPush(ended, c);
        ended := ended + [c];
        i := i + 1;
      }
    }

    // The jobs of a batch fit the buffer, like all jobs.
    lemma Fits(all: seq<Job>, failed: seq<Callback>, batch: seq<Job>, rest: seq<Job>)
      requires forall i :: 0 <= i < |all| ==> all[i].id < added && all[i].len * 512 <= buffer.Length
      requires JobsAre(failed, batch, rest, all)
      ensures forall i :: 0 <= i < |batch| ==> batch[i].id < added && batch[i].len <= buffer.Length
    {
      Among(all, JobsOf(failed), batch, rest);
      forall i | 0 <= i < |batch| ensures batch[i].id < added && batch[i].len <= buffer.Length {
        assert batch[i] in all;
      }
    }

    /** _batch */
    method Batch(count: nat) returns (ghost ended: seq<Callback>, ghost covered: seq<Prefetch>, ghost turns: seq<Turn>)
      requires Valid() && count > 0 && jobs != []
      modifies `jobs, `log, ops, buffer, ops.Below()
      ensures ops.Untouched() && AreStored(ended)
      ensures Valid() && |jobs| < |old(jobs)| && log == old(log) + ended && Ended(ended, jobs, old(jobs))
      ensures ops.served == old(ops.served) + Delivered(ended)
      ensures |Tasks(ended)| + ops.failures == |ended| + old(ops.failures)
      ensures ops.prefetches == old(ops.prefetches) + covered && EndsWith(ended, covered, ops.devOf)
      ensures Bounded(covered, count, jobs != [])
      ensures Traced(old(ops.events), ops.events, turns, ended, ops.devOf) && InTurn(old(jobs), jobs, turns)
    {
      hide InOrder, AllBefore, JobsOf, Tasks, JobsAre, Ended, Delivered, Bounded, AskedFor, Ops.Ready, IsStored, Ops.Below;
      hide Kept, Traced, InTurn;
      Separate();
      ghost var before := jobs;
      var batch;
      ghost var failed, first;
      batch, failed, covered, first := PrefetchBatch(count);
      Fits(before, failed, batch, jobs);
      ghost var mid := ops.events;
      ghost var last, second := ReadBatch(batch);
      ended := failed + last;
      turns := first + second;
      TracedMore(old(ops.events), mid, ops.events, first, second, failed, last, ops.devOf);
      BatchTurns(before, batch, jobs, first, second);
      NoTasks(failed);
      ErrorsAreStored(failed);
      TasksJoin(failed, last);
      BatchEnds(failed, last, batch, jobs, before);
      BatchIsLast(failed, last, covered, batch, ops.devOf);
    }

    /** io_processor_exec: every job ends in one callback, the tasks run in the
        order in which the jobs were added, they get what was read, and there is
        an error for each failure and for nothing else; and the prefetches come in
        batches of the size that was asked for.  Over a cache, what was read is what
        the clients of the cache have stored, and stays so.  With a batch size of nought and a
        job to do it would go on for ever. */
    method Exec() returns (ghost ended: seq<Callback>, ghost batches: seq<seq<Prefetch>>, ghost turns: seq<Turn>)
      requires Valid() && (ops.batchSize > 0 || jobs == [])
      modifies `jobs, `log, ops, buffer, ops.Below()
      ensures ops.Untouched() && AreStored(ended)
      ensures Valid() && jobs == [] && log == old(log) + ended
      ensures multiset(JobsOf(ended)) == multiset(old(jobs))
      ensures InOrder(Tasks(ended)) && forall t :: t in Tasks(ended) ==> t in old(jobs)
      ensures ops.served == old(ops.served) + Delivered(ended)
      ensures |Tasks(ended)| + ops.failures == |ended| + old(ops.failures)
      ensures ops.prefetches == old(ops.prefetches) + Joined(batches) && AllBounded(batches, ops.batchSize, false)
      // every job asks for itself, in its turn, and what it is told follows from the answers
      ensures Traced(old(ops.events), ops.events, turns, ended, ops.devOf) && Asking(turns) == old(jobs)
    {
      hide SoFar, Valid, IsStored;
      ghost var all := jobs;
      ghost var start := Begin();
      ended, batches, turns := [], [], [];
      while jobs != []
        invariant Valid() && SoFar(start, all, ended, batches, turns) && ops.Untouched()
        decreases |jobs|
      {
        ended, batches, turns := Next(start, all, ended, batches, turns);
      }
      AtEnd(start, all, ended, batches, turns);
    }

    // Where the logs were at the start, and what has been added to them.
    ghost predicate SoFar(start: Start, all: seq<Job>, ended: seq<Callback>, batches: seq<seq<Prefetch>>, turns: seq<Turn>)
      reads this, ops, ops.Below()
    {
      && log == start.log + ended && Ended(ended, jobs, all) && AreStored(ended)
      && ops.served == start.served + Delivered(ended)
      && |Tasks(ended)| + ops.failures == |ended| + start.failures
      && ops.prefetches == start.prefetches + Joined(batches) && AllBounded(batches, ops.batchSize, jobs != [])
      && Traced(start.events, ops.events, turns, ended, ops.devOf) && InTurn(all, jobs, turns)
    }

    lemma Begin() returns (start: Start)
      requires Valid()
      ensures start == Start(log, ops.served, ops.failures, ops.prefetches, ops.events)
      ensures SoFar(start, jobs, [], [], [])
    {
      hide InOrder, AllBefore, JobsOf, Tasks, Delivered, Bounded, Ops.Ready, IsStored;
      start := Start(log, ops.served, ops.failures, ops.prefetches, ops.events);
      TracedNothing(ops.events, ops.devOf);
      TakenNothing(jobs);
      NoneEnded(jobs);
      NoCallbacks();
      assert ops.served + [] == ops.served && log + [] == log && ops.prefetches + [] == ops.prefetches;
    }

    // One turn of the loop of io_processor_exec.
    method Next(ghost start: Start, ghost all: seq<Job>, ghost ended: seq<Callback>, ghost batches: seq<seq<Prefetch>>,
        ghost turns: seq<Turn>)
      returns (ghost ended': seq<Callback>, ghost batches': seq<seq<Prefetch>>, ghost turns': seq<Turn>)
      requires Valid() && SoFar(start, all, ended, batches, turns) && jobs != [] && ops.batchSize > 0
      modifies `jobs, `log, ops, buffer, ops.Below()
      ensures Valid() && SoFar(start, all, ended', batches', turns') && ops.Untouched() && |jobs| < |old(jobs)|
    {
      hide InOrder, AllBefore, JobsOf, Tasks, Delivered, Bounded, EndsWith, Ops.Ready, IsStored, Ops.Below;
      hide Traced, InTurn;
      Separate();
      ghost var before, mid := jobs, ops.events;
      ghost var more, covered, taken := Batch(ops.batchSize);
      TracedMore(start.events, mid, ops.events, turns, taken, ended, more, ops.devOf);
      InTurnMore(all, before, jobs, turns, taken);
      BatchesPush(batches, covered, ops.batchSize, jobs != []);
      EndedMore(ended, more, jobs, before, all);
      TasksJoin(ended, more);
      ended', batches', turns' := ended + more, batches + [covered], turns + taken;
    }

    lemma AtEnd(start: Start, all: seq<Job>, ended: seq<Callback>, batches: seq<seq<Prefetch>>, turns: seq<Turn>)
      requires SoFar(start, all, ended, batches, turns) && jobs == []
      ensures AreStored(ended) && log == start.log + ended && multiset(JobsOf(ended)) == multiset(all)
      ensures InOrder(Tasks(ended)) && forall t :: t in Tasks(ended) ==> t in all
      ensures ops.served == start.served + Delivered(ended)
      ensures |Tasks(ended)| + ops.failures == |ended| + start.failures
      ensures ops.prefetches == start.prefetches + Joined(batches) && AllBounded(batches, ops.batchSize, false)
      ensures Traced(start.events, ops.events, turns, ended, ops.devOf) && Asking(turns) == all
    {
      hide InOrder, AllBefore, JobsOf, Tasks, Delivered, Bounded, IsStored, Traced;
      InTurnIs(all, jobs, turns);
      assert Asking(turns) + [] == Asking(turns);
    }
  }
}
