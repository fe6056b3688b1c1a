/** The concurrent consumer: polls the walk, laps when overtaken, and never delivers a record twice. */
module Poll {
  import opened Bytes
  import opened Layout
  import opened Reads
  import opened StoreLog
  import opened Trace
  import opened Reader
  import opened Control
  import opened Snapshots

  /** The oldest offset of a snapshot. */
  ghost function OldestOf(ops: seq<Op>, at: Times): nat
    requires at.oldest <= |ops|
  {
    MemOldest(ops, at.oldest)
  }

  /** Where a reader stands in time: no later load is satisfied before `least`, the last one was at `now`. */
  datatype Clock = Clock(least: nat, now: nat, view: nat)

  ghost function ClockOf(store: ReaderStore): Clock
    reads store
  {
    Clock(store.Least(), store.now, store.view)
  }

  /** Head and oldest were loaded during a call that began at `before` and ended at `after`: in a sequential run one
  after the other. */
  ghost predicate During(store: ReaderStore, at: Times, before: Clock, after: Clock) {
    && before.least <= at.head <= after.least <= |store.ops| && before.view <= at.oldest <= |store.ops|
    && (store.Sequential() ==> at.head <= at.oldest <= after.now)
  }

  /** `read_raw_from_store`: a control snapshot, then the walk.

  Every record of an accepted batch is one the producer published, under every allowed load. In a sequential run an
  accepted batch holds exactly the records published by the snapshot's head that start in
  [max(cursor, snapshot oldest), snapshot head), and every failure of the walk means that the oldest offset has moved
  above the start of the walk. */
  method ReadRawFromStore(store: ReaderStore, cursor: nat, ghost h: seq<Entry>)
    returns (res: Result<ReadBatch, RingError>, ghost n: nat, ghost at: Times)
    requires store.Valid() && Fed(store, h) && Standing(h, cursor)
    modifies store
    ensures store.Valid() && old(store.Least()) <= store.Least()
    ensures n <= |h| && at.oldest <= |store.ops|
    ensures res.Err? && res.error.ControlBlock?
            ==> store.shared && Disturbed(store.ops, old(store.now), store.now)
    ensures !(res.Err? && res.error.ControlBlock?) ==> During(store, at, old(ClockOf(store)), ClockOf(store))
    ensures res.Ok? ==> res.value.nextAbs == HeadAt(h, n) == MemHead(store.ops, at.head)
                        && res.value.lapped == (cursor < OldestOf(store.ops, at))
                        && Genuine(h, res.value.records, Max(cursor, OldestOf(store.ops, at)), HeadAt(h, n))
                        && MemHead(store.ops, old(store.Least())) <= HeadAt(h, n) <= MemHead(store.ops, store.Least())
    ensures store.Sequential() && res.Ok? ==> res.value.records == Window(h[..n], Max(cursor, OldestOf(store.ops, at)))
    ensures res.Err? && !res.error.ControlBlock? && !res.error.ControlBlockCapacityMismatch?
            ==> WalkError(h, cursor, res.error)
                && (store.Sequential() ==> Overtaken(store.ops, store.now, Max(cursor, OldestOf(store.ops, at)))
                                           && SeenOldest(store.ops, store.now, res.error))
    ensures res.Ok? ==> store.capacity < 0x1_0000_0000
    ensures res.Err? && res.error.ControlBlockCapacityMismatch? ==> store.capacity >= 0x1_0000_0000
  {
    hide MemHead, MemOldest, MemLost, MemLock, TraceOf, Genuine, Overtaken, Window, Standing, HeadAt, Head;
    hide Coherent, EncodedEntry, Laid, Disturbed, SeenOldest;
    n := 0;
    at := Times(0, 0, 0, 0, 0);
    var snapshot: Snapshot;
    if store.shared {
      var taken: Result<Snapshot, ControlError>;
      taken, at := SharedSnapshot(store, h);
      match taken
      case Err(error) =>
        at := Times(0, 0, 0, 0, 0);
        return Err(ControlBlock(error)), n, at;
      case Ok(s) =>
        snapshot := s;
    } else {
      snapshot, at := OwnedSnapshot(store, h);
    }
    if snapshot.bufferBytes != store.capacity {
      return Err(ControlBlockCapacityMismatch(snapshot.bufferBytes, store.capacity)), n, at;
    }
    n := HeadPublished(store.capacity, h, at.head);
    HeadOfPrefix(h, n);
    res := Walk(store, cursor, snapshot.headAbs, snapshot.oldestAbs, h, at.head, at.oldest, n);
    Forward(store.capacity, h, at.head, store.Least());
  }

  /** `added` continues `delivered`. */
  lemma GenuineConcat(h: seq<Entry>, delivered: seq<ReadRecord>, added: seq<ReadRecord>, lo: nat, hi: nat, hi': nat)
    requires Genuine(h, delivered, 0, hi) && EndBy(delivered, lo) && Genuine(h, added, lo, hi') && hi <= hi'
    ensures Genuine(h, delivered + added, 0, hi')
  {
    hide Published;
    var all := delivered + added;
    forall r, s | 0 <= r < s < |all|
      ensures all[r].endAbs <= all[s].startAbs
    {
      if r < |delivered| <= s {
        assert all[s] == added[s - |delivered|];
      }
    }
  }

  lemma GenuineEnds(h: seq<Entry>, records: seq<ReadRecord>, lo: nat, hi: nat, abs: nat)
    requires Genuine(h, records, lo, hi) && hi <= abs
    ensures EndBy(records, abs)
  {
  }

  lemma EndLater(records: seq<ReadRecord>, abs: nat, abs': nat)
    requires EndBy(records, abs) && abs <= abs'
    ensures EndBy(records, abs')
  {
  }

  /** What became of a poll: a batch, a retry after an overwrite, one after a control error, a rejected record, an
  error. */
  datatype Outcome = Delivered | Retried | Blocked | Rejected | Failed

  /** One poll: its result, what became of it, and the snapshot it worked on. */
  datatype Polled = Polled(res: Result<ReadBatch, RingError>, outcome: Outcome, n: nat, at: Times)

  /** A consumer between two polls. */
  datatype Moment = Moment(clock: Clock, cursor: nat, delivered: seq<ReadRecord>, lappedBatches: nat,
                           overwrittenRetries: nat, rejectedRecords: nat)

  /** What one poll does to a consumer of the history `h`.

  A batch delivers only published records, each of them later than everything delivered before. In a sequential run a
  delivered batch is exactly the window of its snapshot; every other outcome, a control error apart, means that the
  walk was overtaken after its snapshot, and the only error of the walk left to the caller is a boundary crossing. A
  control error means that the producer was at work. */
  ghost predicate PollStep(store: ReaderStore, h: seq<Entry>, a: Moment, p: Polled, b: Moment) {
    && (p.res.Err? <==> p.outcome.Failed?) && p.n <= |h| && p.at.oldest <= |store.ops|
    && a.clock.least <= b.clock.least && a.clock.now <= |store.ops| && b.clock.now <= |store.ops|
    && b.delivered == a.delivered + (if p.res.Ok? then p.res.value.records else [])
    && b.cursor == (if p.res.Ok? then p.res.value.nextAbs else a.cursor)
    && b.lappedBatches == a.lappedBatches + (if p.outcome.Delivered? && p.res.value.lapped then 1 else 0)
    && b.overwrittenRetries == a.overwrittenRetries + (if p.outcome.Retried? || p.outcome.Blocked? then 1 else 0)
    && b.rejectedRecords == a.rejectedRecords + (if p.outcome.Rejected? then 1 else 0)
    && (!p.outcome.Blocked? ==> During(store, p.at, a.clock, b.clock))
    && match p.outcome
       case Delivered =>
         && p.res.value.nextAbs == HeadAt(h, p.n) == MemHead(store.ops, p.at.head)
         && p.res.value.lapped == (a.cursor < OldestOf(store.ops, p.at))
         && (store.Sequential() ==> p.res.value.records == Window(h[..p.n], PollFrom(store, a, p)))
       case Blocked =>
         b.cursor == a.cursor && p.res.value.records == [] && store.shared
         && Disturbed(store.ops, a.clock.now, b.clock.now)
       case Failed =>
         || (p.res.error.ControlBlockCapacityMismatch? && store.capacity >= 0x1_0000_0000)
         || (p.res.error.RecordCrossesBoundary?
             && (store.Sequential() ==> Overtaken(store.ops, b.clock.now, PollFrom(store, a, p))))
         || (p.res.error.Wire? && !store.Sequential())
       case _ =>
         && p.res.value.records == [] && p.res.value.lapped && a.cursor < b.cursor
         && (store.Sequential() ==> Overtaken(store.ops, b.clock.now, PollFrom(store, a, p)))
  }

  /** Where the walk of a poll begins: at the cursor, or at the oldest offset of its snapshot. */
  ghost function PollFrom(store: ReaderStore, a: Moment, p: Polled): nat
    requires p.at.oldest <= |store.ops|
  {
    Max(a.cursor, OldestOf(store.ops, p.at))
  }

  class ConcurrentRawConsumer {
    const store: ReaderStore
    var cursor: nat
    var lappedBatches: nat
    var overwrittenRetries: nat
    var rejectedRecords: nat
    /** The history the producer is writing. */
    ghost const hist: seq<Entry>
    /** Everything delivered by polls so far. */
    ghost var delivered: seq<ReadRecord>

    /** The cursor stands on a record boundary, everything delivered lies behind it and behind the head seen, and in a
    sequential run nothing behind it was missed but what has been overwritten. */
    ghost predicate Valid()
      reads this, store
    {
      && store.Valid() && Fed(store, hist) && Standing(hist, cursor)
      && Genuine(hist, delivered, 0, MemHead(store.ops, store.Least())) && EndBy(delivered, cursor)
      && (store.Sequential() ==> Complete(store.ops, store.now, hist, cursor, delivered))
    }

    constructor (store: ReaderStore, ghost hist: seq<Entry>)
      requires store.Valid() && Fed(store, hist)
      ensures Valid() && this.store == store && this.hist == hist && cursor == 0 && delivered == []
      ensures lappedBatches == overwrittenRetries == rejectedRecords == 0
    {
      this.store, this.hist, cursor, delivered := store, hist, 0, [];
      lappedBatches, overwrittenRetries, rejectedRecords := 0, 0, 0;
      new;
      assert Before(hist, 0, 0);
    }

    ghost function Now(): Moment
      reads this, store
    {
      Moment(ClockOf(store), cursor, delivered, lappedBatches, overwrittenRetries, rejectedRecords)
    }

    /** One poll. */
    method Poll() returns (res: Result<ReadBatch, RingError>, ghost poll: Polled)
      requires Valid()
      modifies this, store
      ensures Valid() && poll.res == res && PollStep(store, hist, old(Now()), poll, Now())
    {
      hide MemHead, MemOldest, Genuine, Overtaken, Standing, EndBy, Fed, HeadAt, Window, Complete, Disturbed;
      hide OldestOf, WalkError, SeenOldest;
      ghost var before, least0, now0 := delivered, store.Least(), store.now;
      var walked;
      ghost var n, at;
      walked, n, at := ReadRawFromStore(store, cursor, hist);
      StillPublished(store, hist, before, least0);
      CompleteLater(store, hist, cursor, before, now0);
      match walked
      case Ok(batch) =>
        if batch.lapped {
          lappedBatches := lappedBatches + 1;
        }
        Delivers(store, hist, before, batch.records, cursor, at, n, least0);
        cursor := batch.nextAbs;
        delivered := delivered + batch.records;
        res := Ok(batch);
        poll := Polled(res, Delivered, n, at);
      case Err(error) =>
        ghost var outcome;
        res, outcome := Recover(error, at);
        poll := Polled(res, outcome, n, at);
    }

    /** The handling of a failed read: laps to the oldest offset, or leaves the error to the caller. */
    method Recover(error: RingError, ghost at: Times)
      returns (res: Result<ReadBatch, RingError>, ghost outcome: Outcome)
      requires Valid() && at.oldest <= |store.ops|
      requires !error.ControlBlock? && !error.ControlBlockCapacityMismatch?
               ==> WalkError(hist, cursor, error)
                   && (store.Sequential() ==> Overtaken(store.ops, store.now, Max(cursor, OldestOf(store.ops, at)))
                                              && SeenOldest(store.ops, store.now, error))
      modifies this`cursor, this`overwrittenRetries, this`rejectedRecords, store
      ensures Valid() && old(store.Least()) <= store.Least() && old(store.now) <= |store.ops|
      ensures store.Sequential() ==> old(store.now) <= store.now
      ensures res.Err? ==> outcome.Failed? && res.error == error && cursor == old(cursor)
                           && (error.RecordCrossesBoundary? || error.Wire? || error.ControlBlockCapacityMismatch?)
      ensures res.Ok? ==> cursor == res.value.nextAbs && res.value.records == []
                          && (outcome.Retried? || outcome.Blocked? || outcome.Rejected?)
      ensures outcome.Blocked? <==> error.ControlBlock?
      ensures error.ControlBlockCapacityMismatch? ==> res.Err?
      ensures outcome.Blocked? ==> cursor == old(cursor) && store.now == old(store.now)
      ensures outcome.Retried? || outcome.Rejected? ==> res.value.lapped && old(cursor) < cursor
      ensures store.Sequential() && !outcome.Blocked? && !error.ControlBlockCapacityMismatch?
              ==> Overtaken(store.ops, store.now, Max(old(cursor), OldestOf(store.ops, at)))
      ensures overwrittenRetries == old(overwrittenRetries) + if outcome.Retried? || outcome.Blocked? then 1 else 0
      ensures rejectedRecords == old(rejectedRecords) + if outcome.Rejected? then 1 else 0
      ensures store.Sequential() && res.Err?
              ==> error.RecordCrossesBoundary? || error.ControlBlockCapacityMismatch?
    {
      hide MemHead, MemOldest, Genuine, Overtaken, Standing, EndBy, Fed, Complete, OldestOf;
      match error
      case OverwrittenMidRead(_, oldest) =>
        Resumes(store, hist, delivered, cursor, oldest);
        cursor := oldest;
        overwrittenRetries := overwrittenRetries + 1;
        res, outcome := Ok(ReadBatch([], oldest, true)), Retried;
      case ControlBlock(_) =>
        overwrittenRetries := overwrittenRetries + 1;
        res, outcome := Ok(ReadBatch([], cursor, false)), Blocked;
      case Wire(_) =>
        ghost var seen, least1 := store.now, store.Least();
        var oldest := store.LoadOldestAcquire();
        Absorbs(store, hist, delivered, least1, seen, cursor, at);
        if oldest > cursor {
          Resumes(store, hist, delivered, cursor, oldest);
          cursor := oldest;
          rejectedRecords := rejectedRecords + 1;
          res, outcome := Ok(ReadBatch([], oldest, true)), Rejected;
        } else {
          res, outcome := Err(error), Failed;
        }
      case _ =>
        res, outcome := Err(error), Failed;
    }
  }

  // ---- Nothing is missed -------------------------------------------------------------------

  /** Every entry behind the cursor was delivered, or the oldest offset has passed it. */
  ghost predicate Complete(ops: seq<Op>, t: nat, h: seq<Entry>, cursor: nat, delivered: seq<ReadRecord>)
    requires t <= |ops|
  {
    forall i | 0 <= i < |h| && h[i].start < cursor :: ReadOf(h[i]) in delivered || Overtaken(ops, t, h[i].start)
  }

  lemma CompleteLater(store: ReaderStore, h: seq<Entry>, cursor: nat, delivered: seq<ReadRecord>, t: nat)
    requires store.Valid() && Fed(store, h) && t <= |store.ops|
    requires store.Sequential() ==> t <= store.now && Complete(store.ops, t, h, cursor, delivered)
    ensures store.Sequential() ==> Complete(store.ops, store.now, h, cursor, delivered)
  {
    hide MemOldest, TraceOf, EncodedEntry;
    if store.Sequential() {
      Forward(store.capacity, h, t, store.now);
    }
  }

  /** A window holds every entry of its prefix from its lower end on. */
  lemma {:induction false} WindowHolds(h: seq<Entry>, n: nat, lo: nat, i: nat)
    requires i < n <= |h| && h[i].start >= lo
    ensures ReadOf(h[i]) in Window(h[..n], lo)
  {
    assert h[..n][..n - 1] == h[..n - 1];
    if i == n - 1 {
    } else {
      WindowHolds(h, n - 1, lo, i);
    }
  }

  /** After a window from `max(cursor, oldest)` to the head, nothing behind the head was missed. */
  lemma WindowCompletes(store: ReaderStore, h: seq<Entry>, delivered: seq<ReadRecord>, cursor: nat, at: Times, n: nat)
    requires store.Valid() && Fed(store, h) && n <= |h| && at.oldest <= store.now
    requires Complete(store.ops, store.now, h, cursor, delivered)
    ensures Complete(store.ops, store.now, h, HeadAt(h, n),
                     delivered + Window(h[..n], Max(cursor, OldestOf(store.ops, at))))
  {
    hide MemOldest, TraceOf, EncodedEntry, Window;
    var lo := Max(cursor, OldestOf(store.ops, at));
    Forward(store.capacity, h, at.oldest, store.now);
    forall i | 0 <= i < |h| && h[i].start < HeadAt(h, n)
      ensures ReadOf(h[i]) in delivered + Window(h[..n], lo) || Overtaken(store.ops, store.now, h[i].start)
    {
      EntryBehind(store.capacity, h, n, i);
      if h[i].start >= lo {
        WindowHolds(h, n, lo, i);
      }
    }
  }

  lemma EntryBehind(cap: nat, h: seq<Entry>, n: nat, i: nat)
    requires Laid(cap, h) && n <= |h| && i < |h| && h[i].start < HeadAt(h, n)
    ensures i < n
  {
    LaidFits(cap, h, i);
    if 0 < n <= i {
      Ordered(cap, h, n - 1, i);
    }
  }

  /** Resuming at an oldest offset skips only what has been overwritten. */
  lemma Resumes(store: ReaderStore, h: seq<Entry>, delivered: seq<ReadRecord>, cursor: nat, oldest: nat)
    requires store.Valid() && EndBy(delivered, cursor) && cursor <= oldest
    requires store.Sequential() ==> oldest <= MemOldest(store.ops, store.now)
                                    && Complete(store.ops, store.now, h, cursor, delivered)
    ensures EndBy(delivered, oldest)
    ensures store.Sequential() ==> Complete(store.ops, store.now, h, oldest, delivered)
  {
    hide MemOldest;
  }

  /** What was published stays published. */
  lemma StillPublished(store: ReaderStore, h: seq<Entry>, delivered: seq<ReadRecord>, least0: nat)
    requires store.Valid() && Fed(store, h) && least0 <= store.Least()
    requires Genuine(h, delivered, 0, MemHead(store.ops, least0))
    ensures Genuine(h, delivered, 0, MemHead(store.ops, store.Least()))
  {
    hide MemHead, TraceOf, EncodedEntry;
    Forward(store.capacity, h, least0, store.Least());
  }

  /** A delivered batch continues what was delivered before, and the new cursor stands behind all of it. */
  lemma Delivers(store: ReaderStore, h: seq<Entry>, delivered: seq<ReadRecord>, records: seq<ReadRecord>,
                 cursor: nat, at: Times, n: nat, least0: nat)
    requires store.Valid() && Fed(store, h) && n <= |h| && EndBy(delivered, cursor) && least0 <= store.Least()
    requires at.oldest <= |store.ops|
    requires MemHead(store.ops, least0) <= HeadAt(h, n) <= MemHead(store.ops, store.Least())
    requires Genuine(h, delivered, 0, MemHead(store.ops, least0))
    requires Genuine(h, records, Max(cursor, OldestOf(store.ops, at)), HeadAt(h, n))
    requires store.Sequential() ==> at.oldest <= store.now
                                    && Complete(store.ops, store.now, h, cursor, delivered)
                                    && records == Window(h[..n], Max(cursor, OldestOf(store.ops, at)))
    ensures Genuine(h, delivered + records, 0, MemHead(store.ops, store.Least()))
    ensures EndBy(delivered + records, HeadAt(h, n)) && Standing(h, HeadAt(h, n))
    ensures store.Sequential() ==> Complete(store.ops, store.now, h, HeadAt(h, n), delivered + records)
  {
    hide MemHead, Genuine, EndBy, EncodedEntry, TraceOf, HeadAt, Complete, OldestOf, Window;
    var lo := Max(cursor, OldestOf(store.ops, at));
    EndLater(delivered, cursor, lo);
    GenuineConcat(h, delivered, records, lo, MemHead(store.ops, least0), HeadAt(h, n));
    GenuineEnds(h, delivered + records, 0, HeadAt(h, n), HeadAt(h, n));
    GenuineUpTo(h, delivered + records, 0, HeadAt(h, n), MemHead(store.ops, store.Least()));
    BeforeHead(h, n);
    if store.Sequential() {
      WindowCompletes(store, h, delivered, cursor, at, n);
    }
  }

  lemma BeforeHead(h: seq<Entry>, n: nat)
    requires n <= |h|
    ensures Before(h, n, HeadAt(h, n))
  {
  }

  lemma GenuineUpTo(h: seq<Entry>, records: seq<ReadRecord>, lo: nat, hi: nat, hi': nat)
    requires Genuine(h, records, lo, hi) && hi <= hi'
    ensures Genuine(h, records, lo, hi')
  {
  }

  /** After a wire error the fresh oldest offset is a place to resume, and in a sequential run it is ahead. */
  lemma Absorbs(store: ReaderStore, h: seq<Entry>, delivered: seq<ReadRecord>, least1: nat, seen: nat,
                cursor: nat, at: Times)
    requires store.Valid() && Fed(store, h) && least1 <= store.Least() && seen <= |store.ops|
             && at.oldest <= |store.ops|
    requires Genuine(h, delivered, 0, MemHead(store.ops, least1))
    requires store.Sequential() ==> seen <= store.now
                                    && Overtaken(store.ops, seen, Max(cursor, OldestOf(store.ops, at)))
                                    && Complete(store.ops, seen, h, cursor, delivered)
    ensures Genuine(h, delivered, 0, MemHead(store.ops, store.Least()))
    ensures Standing(h, MemOldest(store.ops, store.now))
    ensures store.Sequential() ==> MemOldest(store.ops, store.now) > cursor
                                   && Overtaken(store.ops, store.now, Max(cursor, OldestOf(store.ops, at)))
                                   && Complete(store.ops, store.now, h, cursor, delivered)
  {
    hide MemHead, TraceOf, EncodedEntry, Standing, Genuine, Complete, OldestOf;
    CompleteLater(store, h, cursor, delivered, seen);
    StillPublished(store, h, delivered, least1);
    OldestStanding(store.capacity, h, store.now);
    if store.Sequential() {
      Forward(store.capacity, h, seen, store.now);
    }
  }

  /** The moments of a run of polls, each poll leading from one to the next. */
  ghost predicate PollsOf(store: ReaderStore, h: seq<Entry>, moments: seq<Moment>, polls: seq<Polled>) {
    |moments| == |polls| + 1 && forall i | 0 <= i < |polls| :: PollStep(store, h, moments[i], polls[i], moments[i + 1])
  }

  lemma PollsLonger(store: ReaderStore, h: seq<Entry>, moments: seq<Moment>, polls: seq<Polled>, p: Polled, b: Moment)
    requires PollsOf(store, h, moments, polls) && PollStep(store, h, moments[|polls|], p, b)
    ensures PollsOf(store, h, moments + [b], polls + [p])
  {
    hide PollStep;
    forall i | 0 <= i < |polls| + 1
      ensures PollStep(store, h, (moments + [b])[i], (polls + [p])[i], (moments + [b])[i + 1])
    {
      if i < |polls| {
        assert PollStep(store, h, moments[i], polls[i], moments[i + 1]);
      }
    }
  }

  /** What the polls delivered, batch after batch. */
  ghost function Batches(polls: seq<Polled>): seq<ReadRecord> {
    if polls == [] then []
    else
      var n := |polls| - 1;
      Batches(polls[..n]) + if polls[n].res.Ok? then polls[n].res.value.records else []
  }

  lemma BatchesStep(polls: seq<Polled>, p: Polled)
    ensures Batches(polls + [p]) == Batches(polls) + if p.res.Ok? then p.res.value.records else []
  {
    assert (polls + [p])[..|polls|] == polls;
  }

  /** Polls any number of times.

  Every poll is a poll step from where the last one ended, and what is returned are their batches. Record starts
  strictly increase, so nothing is delivered twice; and in a sequential run nothing behind the cursor is missing but
  what has been overwritten. */
  method PollMany(consumer: ConcurrentRawConsumer, times: nat)
    returns (all: seq<ReadRecord>, ghost moments: seq<Moment>, ghost polls: seq<Polled>)
    requires consumer.Valid() && consumer.delivered == []
    modifies consumer, consumer.store
    ensures consumer.Valid() && all == consumer.delivered == Batches(polls)
    ensures |polls| == times && PollsOf(consumer.store, consumer.hist, moments, polls)
    ensures moments[0] == old(consumer.Now()) && moments[times] == consumer.Now()
    ensures forall r, s | 0 <= r < s < |all| :: all[r].startAbs < all[s].startAbs
    ensures forall r | 0 <= r < |all| :: Published(consumer.hist, all[r])
    ensures consumer.store.Sequential()
            ==> forall i | 0 <= i < |consumer.hist| && consumer.hist[i].start < consumer.cursor ::
                  ReadOf(consumer.hist[i]) in all
                  || Overtaken(consumer.store.ops, consumer.store.now, consumer.hist[i].start)
  {
    hide PollStep, PollsOf, ConcurrentRawConsumer.Valid, Batches;
    all, moments, polls := [], [consumer.Now()], [];
    FirstMoment(consumer.store, consumer.hist, moments, polls);
    for i := 0 to times
      invariant consumer.Valid() && all == consumer.delivered == Batches(polls)
      invariant |polls| == i && PollsOf(consumer.store, consumer.hist, moments, polls)
      invariant |moments| == i + 1 && moments[0] == old(consumer.Now()) && moments[i] == consumer.Now()
    {
      ghost var before := consumer.Now();
      var res, poll := consumer.Poll();
      PollDelivers(consumer.store, consumer.hist, before, poll, consumer.Now());
      PollsLonger(consumer.store, consumer.hist, moments, polls, poll, consumer.Now());
      BatchesStep(polls, poll);
      moments, polls := moments + [consumer.Now()], polls + [poll];
      if res.Ok? {
        all := all + res.value.records;
      }
    }
    AllGenuine(consumer);
  }

  lemma FirstMoment(store: ReaderStore, h: seq<Entry>, moments: seq<Moment>, polls: seq<Polled>)
    requires |moments| == 1 && polls == []
    ensures PollsOf(store, h, moments, polls) && Batches(polls) == []
  {
  }

  lemma PollDelivers(store: ReaderStore, h: seq<Entry>, a: Moment, p: Polled, b: Moment)
    requires PollStep(store, h, a, p, b)
    ensures b.delivered == a.delivered + if p.res.Ok? then p.res.value.records else []
    ensures p.res.Err? <==> p.outcome.Failed?
  {
  }

  lemma AllGenuine(consumer: ConcurrentRawConsumer)
    requires consumer.Valid()
    ensures forall r, s | 0 <= r < s < |consumer.delivered| ::
              consumer.delivered[r].startAbs < consumer.delivered[s].startAbs
    ensures forall r | 0 <= r < |consumer.delivered| :: Published(consumer.hist, consumer.delivered[r])
    ensures consumer.store.Sequential()
            ==> Complete(consumer.store.ops, consumer.store.now, consumer.hist, consumer.cursor, consumer.delivered)
  {
    hide Genuine, Published, Complete;
    var hi := MemHead(consumer.store.ops, consumer.store.Least());
    StartsRise(consumer.store.capacity, consumer.hist, consumer.delivered, hi);
  }

  lemma StartsRise(cap: nat, h: seq<Entry>, all: seq<ReadRecord>, hi: nat)
    requires History(cap, h) && Genuine(h, all, 0, hi)
    ensures forall r, s | 0 <= r < s < |all| :: all[r].startAbs < all[s].startAbs
    ensures forall r | 0 <= r < |all| :: Published(h, all[r])
  {
    hide EncodedEntry;
    forall r | 0 <= r < |all|
      ensures all[r].startAbs < all[r].endAbs
    {
      assert Published(h, all[r]);
      var x: nat :| x < |h| && all[r] == ReadOf(h[x]);
      assert LaidAt(cap, h, x);
    }
  }
}
