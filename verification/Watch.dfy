/** The reader's loop: polls of a concurrent store, shown to the observer and accounted for. */
module Watching {
  import opened Bytes
  import opened Layout
  import opened Reads
  import opened StoreLog
  import opened Reader
  import opened Poll
  import opened Accounting
  import opened EpochLog
  import opened EpochSteps
  import opened Epoch
  import opened Consumers
  import opened Conformance
  import opened EndToEnd

  /** Builds the sidecar oracle from what the producer announces, then polls a concurrent store up to `times` times,
  shows every batch to the observer and accounts for it. Only a failed poll ends the loop early.

  Under every allowed load the observer, whose oracle predicts the whole history, stays silent. If the log holds no
  loss reports, delivered and lost add up to one more than the largest number delivered; in a sequential run they add
  up to the number produced by the cursor for every stream whose newest record there has not been overwritten. */
  method WatchPolls(consumer: ConcurrentRawConsumer, records: seq<ExpectedRecord>, times: nat, bufferId: u32)
    returns (observer: BatchObserver, accounting: Consumer, ghost moments: seq<Moment>, ghost polls: seq<Polled>)
    requires consumer.Valid() && consumer.delivered == [] && GapFree(RecordsOf(consumer.hist))
    requires |records| == |consumer.hist| && forall i | 0 <= i < |records| :: records[i] == Expect(consumer.hist[i])
    modifies consumer, consumer.store
    ensures consumer.Valid() && fresh(observer) && fresh(accounting) && fresh(accounting.tracker)
    ensures |polls| <= times && (|polls| < times ==> polls != [] && polls[|polls| - 1].outcome.Failed?)
    ensures PollsOf(consumer.store, consumer.hist, moments, polls)
    ensures moments[0] == old(consumer.Now()) && moments[|polls|] == consumer.Now()
    ensures observer.Valid() && Predicts(observer.expected, consumer.hist, |consumer.hist|)
    ensures observer.observed == consumer.delivered == Batches(polls) && observer.violations == []
    ensures accounting.Valid() && accounting.tracker.bufferId == bufferId
    ensures accounting.accounted == Contents(consumer.delivered)
    ensures Quiet(RecordsOf(consumer.hist)) ==> forall k :: Total(accounting, k) == Next(accounting.accounted, k)
    ensures Quiet(RecordsOf(consumer.hist)) && consumer.store.Sequential()
            ==> forall k, n: nat, i: nat | InReach(consumer, k, n, i) ::
                  Total(accounting, k) == Count(RecordsOf(consumer.hist)[..n], k)
  {
    hide GapFree, RecordsOf, DistinctKeys, SourcesIncrease, Predicts, Laid, EncodedEntry, ConcurrentRawConsumer.Valid;
    hide BatchObserver.Valid, Consumer.Valid, PollStep, PollsOf, Batches, Contents, InReach, Quiet, Total, Next, Count;
    ghost var h := consumer.hist;
    GapFreeDistinct(h);
    FedHistory(consumer);
    var built := BuildSidecar(consumer.store.capacity, records, h);
    observer := new BatchObserver(built.value);
    accounting := new Consumer(bufferId);
    moments, polls := [consumer.Now()], [];
    FirstMoment(consumer.store, h, moments, polls);
    NothingSeen(consumer.delivered);
    for i := 0 to times
      invariant consumer.Valid() && fresh(observer) && observer.Valid() && observer.expected == built.value
      invariant observer.observed == consumer.delivered == Batches(polls)
      invariant fresh(accounting) && fresh(accounting.tracker) && accounting.tracker.bufferId == bufferId
      invariant accounting.Valid() && accounting.accounted == Contents(consumer.delivered)
      invariant |polls| == i && PollsOf(consumer.store, h, moments, polls)
      invariant |moments| == i + 1 && moments[0] == old(consumer.Now()) && moments[i] == consumer.Now()
    {
      ghost var before := consumer.Now();
      var res, poll := consumer.Poll();
      PollDelivers(consumer.store, h, before, poll, consumer.Now());
      PollsLonger(consumer.store, h, moments, polls, poll, consumer.Now());
      BatchesStep(polls, poll);
      moments, polls := moments + [consumer.Now()], polls + [poll];
      match res
      case Err(_) =>
        assert before.delivered + [] == before.delivered;
        break;
      case Ok(batch) =>
        observer.ObserveBatch(batch);
        accounting.AccountBatch(batch);
        ContentsConcat(before.delivered, batch.records);
    }
    StaysSilent(consumer, observer);
    if Quiet(RecordsOf(h)) {
      Reconciles(consumer, accounting);
    }
  }

  lemma FedHistory(consumer: ConcurrentRawConsumer)
    requires consumer.Valid()
    ensures History(consumer.store.capacity, consumer.hist) && Laid(consumer.store.capacity, consumer.hist)
  {
    hide Genuine, Standing, Complete, EncodedEntry;
  }

  lemma NothingSeen(delivered: seq<ReadRecord>)
    requires delivered == []
    ensures Contents(delivered) == []
  {
  }

  lemma ContentsConcat(a: seq<ReadRecord>, b: seq<ReadRecord>)
    ensures Contents(a + b) == Contents(a) + Contents(b)
  {
  }

  /** All that was delivered is genuine, so that the observer has had nothing to say. */
  lemma StaysSilent(consumer: ConcurrentRawConsumer, observer: BatchObserver)
    requires consumer.Valid() && observer.Valid() && observer.observed == consumer.delivered
    requires SourcesIncrease(consumer.hist) && Predicts(observer.expected, consumer.hist, |consumer.hist|)
    ensures observer.violations == []
  {
    hide Genuine, Standing, Complete, EncodedEntry, SourcesIncrease, Predicts, FaultFree, Summary, EndBy;
    var hi := MemHead(consumer.store.ops, consumer.store.Least());
    GenuineIsFaultFree(consumer.store.capacity, consumer.hist, observer.expected, consumer.delivered, hi);
  }

  // ---- Accounting for what the polls deliver -------------------------------------------------------

  /** The consumer stands before entry `n`, and entry `i`, the newest of stream `k` behind it, is not overwritten. */
  ghost predicate InReach(consumer: ConcurrentRawConsumer, k: Stream, n: nat, i: nat)
    reads consumer, consumer.store
  {
    && Before(consumer.hist, n, consumer.cursor) && Newest(RecordsOf(consumer.hist), k, n, i)
    && consumer.store.now <= |consumer.store.ops|
    && !Overtaken(consumer.store.ops, consumer.store.now, consumer.hist[i].start)
  }

  /** Everything delivered was written before the entry the consumer stands at. */
  lemma DeliveredWritten(consumer: ConcurrentRawConsumer, n: nat)
    requires consumer.Valid() && Before(consumer.hist, n, consumer.cursor)
    ensures AllWritten(consumer.hist, n, Contents(consumer.delivered))
  {
    hide EncodedEntry, Complete, MemHead, Standing;
    var h, cap, delivered := consumer.hist, consumer.store.capacity, consumer.delivered;
    forall a | a in Contents(delivered)
      ensures WrittenBefore(h, n, a)
    {
      var r :| 0 <= r < |delivered| && a == delivered[r].record;
      assert Published(h, delivered[r]);
      var x: nat :| x < |h| && delivered[r] == ReadOf(h[x]);
      EndsBefore(cap, h, n, x, consumer.cursor);
      assert a == Seen(h[x]);
    }
  }

  lemma EndsBefore(cap: nat, h: seq<Entry>, n: nat, x: nat, cursor: nat)
    requires Laid(cap, h) && x < |h| && Before(h, n, cursor) && h[x].End() <= cursor
    ensures x < n
  {
    assert LaidAt(cap, h, x);
    LaidFits(cap, h, x);
    if n < x {
      Ordered(cap, h, n, x);
      LaidFits(cap, h, n);
    }
  }

  lemma Reconciles(consumer: ConcurrentRawConsumer, accounting: Consumer)
    requires consumer.Valid() && accounting.Valid() && accounting.accounted == Contents(consumer.delivered)
    requires GapFree(RecordsOf(consumer.hist)) && Quiet(RecordsOf(consumer.hist))
    ensures forall k :: Total(accounting, k) == Next(accounting.accounted, k)
    ensures consumer.store.Sequential()
            ==> forall k, n: nat, i: nat | InReach(consumer, k, n, i) ::
                  Total(accounting, k) == Count(RecordsOf(consumer.hist)[..n], k)
  {
    hide GapFree, Quiet, RecordsOf, Consumer.Valid, Total, Next, Count, Contents, AllWritten, Genuine, Complete;
    var h := consumer.hist;
    var at: nat :| at <= |h| && Before(h, at, consumer.cursor);
    DeliveredWritten(consumer, at);
    forall k
      ensures Total(accounting, k) == Next(accounting.accounted, k)
    {
      Balanced(accounting, h, at, k);
    }
    if consumer.store.Sequential() {
      forall k, n: nat, i: nat | InReach(consumer, k, n, i)
        ensures Total(accounting, k) == Count(RecordsOf(h)[..n], k)
      {
        DeliveredWritten(consumer, n);
        StillDelivered(consumer, k, n, i);
        NextIsProduced(h, n, accounting.accounted, k, i);
      }
    }
  }

  /** In a sequential run a record behind the cursor that is not overwritten has been delivered. */
  lemma StillDelivered(consumer: ConcurrentRawConsumer, k: Stream, n: nat, i: nat)
    requires consumer.Valid() && consumer.store.Sequential() && InReach(consumer, k, n, i)
    ensures i < n <= |consumer.hist| && Seen(consumer.hist[i]) in Contents(consumer.delivered)
  {
    hide EncodedEntry, Genuine, Standing, Overtaken;
    var h := consumer.hist;
    BehindCursor(consumer.store.capacity, h, n, i, consumer.cursor);
    var r :| 0 <= r < |consumer.delivered| && consumer.delivered[r] == ReadOf(h[i]);
    assert Contents(consumer.delivered)[r] == Seen(h[i]);
  }

  lemma BehindCursor(cap: nat, h: seq<Entry>, n: nat, i: nat, cursor: nat)
    requires Laid(cap, h) && i < n && Before(h, n, cursor)
    ensures h[i].start < cursor
  {
    assert LaidAt(cap, h, i);
    Ordered(cap, h, i, n);
    if n < |h| {
      LaidFits(cap, h, n);
    }
  }
}
