/** Whole runs: any interleaving of emits, checkpoints, transitions and polls. */
module EndToEnd {
  import opened Bytes
  import opened Wire
  import opened Registry
  import opened Layout
  import opened Reads
  import opened Ring
  import opened Control
  import opened Intervals
  import opened Accounting
  import opened Loss
  import opened EpochLog
  import opened EpochResolution
  import opened EpochSteps
  import opened Epoch
  import opened Consumers
  import Conformance

  datatype Command =
    | Emit(source: u32, event: u32)
    | Mark
    | Begin(defHashOld: Hash, defHashNew: Hash, epoch: u64)
    | Announce
    | FinishWarm
    | FinishCold
    | PollBytes

  /** Data commands use a non-zero source and no lifecycle event id. */
  predicate ProperUse(c: Command) {
    c.Emit? ==> c.source != SYSTEM_SOURCE_ID && OrdinaryEvent(c.event)
  }

  // ---- Reconciliation ---------------------------------------------------------------------

  lemma {:induction false} DeliveredRecord(rs: seq<Record>, k: Stream, x: nat)
    requires x in Delivered(rs, k)
    ensures exists i | 0 <= i < |rs| :: StreamOf(rs[i]) == k && rs[i].seqNo == x
  {
    var n := |rs| - 1;
    if x in Delivered(rs[..n], k) {
      DeliveredRecord(rs[..n], k, x);
      var i :| 0 <= i < n && StreamOf(rs[..n][i]) == k && rs[..n][i].seqNo == x;
      assert rs[i] == rs[..n][i];
    } else {
      assert StreamOf(rs[n]) == k && rs[n].seqNo == x;
    }
  }

  lemma {:induction false} CountGrows(log: seq<Record>, k: Stream, m: nat, n: nat)
    requires m <= n <= |log|
    ensures Count(log[..m], k) <= Count(log[..n], k)
    decreases n
  {
    if m == n {
    } else {
      CountGrows(log, k, m, n - 1);
      assert log[..n][..n - 1] == log[..n - 1];
    }
  }

  lemma {:induction false} CountFlat(log: seq<Record>, k: Stream, m: nat, n: nat)
    requires m <= n <= |log| && forall j | m <= j < n :: StreamOf(log[j]) != k
    ensures Count(log[..m], k) == Count(log[..n], k)
    decreases n
  {
    if m == n {
    } else {
      CountFlat(log, k, m, n - 1);
      assert log[..n][..n - 1] == log[..n - 1];
    }
  }

  /** Record `i` is the newest of stream `k` among the first `n`. */
  predicate Newest(log: seq<Record>, k: Stream, n: nat, i: nat) {
    i < n <= |log| && StreamOf(log[i]) == k && forall j | i < j < n :: StreamOf(log[j]) != k
  }

  /** Everything accounted is one of the first `n` records written. */
  ghost predicate AllWritten(h: seq<Entry>, n: nat, accounted: seq<Record>) {
    n <= |h| && forall a | a in accounted :: WrittenBefore(h, n, a)
  }

  /** Once the newest record of a gap-free stream is accounted, the next expected number is the number produced. */
  lemma NextIsProduced(h: seq<Entry>, n: nat, accounted: seq<Record>, k: Stream, i: nat)
    requires AllWritten(h, n, accounted) && GapFree(RecordsOf(h)) && Newest(RecordsOf(h), k, n, i)
    requires Seen(h[i]) in accounted
    ensures Next(accounted, k) == Count(RecordsOf(h)[..n], k)
  {
    hide Next, Count, Accounting.Delivered;
    var log := RecordsOf(h);
    var a :| 0 <= a < |accounted| && accounted[a] == Seen(h[i]);
    NextIsPastLargest(accounted, k, a);
    CountFlat(log, k, i + 1, n);
    assert log[..i + 1] == log[..i] + [log[i]];
    CountStep(log[..i], log[i], k);
    var x := Next(accounted, k) - 1;
    DeliveredRecord(accounted, k, x);
    var b :| 0 <= b < |accounted| && StreamOf(accounted[b]) == k && accounted[b].seqNo == x;
    assert WrittenBefore(h, n, accounted[b]);
    var j :| 0 <= j < n && accounted[b] == Seen(h[j]);
    assert StreamOf(log[j]) == k && log[j].seqNo == x;
    CountGrows(log, k, j, i);
  }

  lemma QuietReports(h: seq<Entry>, n: nat, accounted: seq<Record>, bufferId: u32)
    requires AllWritten(h, n, accounted) && Quiet(RecordsOf(h))
    ensures forall r | r in accounted :: ParseRecordsDropped(r, bufferId).None?
  {
    forall r | r in accounted
      ensures ParseRecordsDropped(r, bufferId).None?
    {
      assert WrittenBefore(h, n, r);
      var j :| 0 <= j < n && r == Seen(h[j]);
      assert Unreporting(RecordsOf(h)[j]);
    }
  }

  lemma GoodLog(producer: EpochProducer)
    requires producer.Valid() && producer.ring.bytes.Length >= 80 && producer.wellUsed
    ensures GapFree(producer.Log()) && Quiet(producer.Log()) && producer.Log() == RecordsOf(producer.ring.hist)
    ensures Marked(producer.Log(), producer.epochs, producer.run0, producer.epoch0)
    ensures Grammar(producer.Log(), producer.open, producer.depth)
    ensures InForce(producer.ring.hist, producer.prevDefinitionHash, producer.definitionHash, producer.epochFirstAbs)
  {
    hide GapFree, Quiet, Marked, Grammar, Counters, RingBuffer.Valid, RecordsOf, InForce;
  }

  /** The tracker's totals for a stream. */
  ghost function Total(consumer: Consumer, k: Stream): nat
    reads consumer, consumer.tracker
  {
    |Accounting.Delivered(consumer.accounted, k)| + LostTotal(consumer.tracker.lossEvents, k)
  }

  /** Of a log without loss reports, whatever is accounted and in whatever order: for every stream delivered and lost
  add up to one more than the largest number delivered. */
  lemma Balanced(consumer: Consumer, h: seq<Entry>, n: nat, k: Stream)
    requires consumer.Valid() && AllWritten(h, n, consumer.accounted) && Quiet(RecordsOf(h))
    ensures Total(consumer, k) == Next(consumer.accounted, k)
  {
    hide UnionOf, Next, Quiet, LostTotal, Inserted, RecordsOf;
    var rs, b := consumer.accounted, consumer.tracker.bufferId;
    QuietReports(h, n, rs, b);
    NoReports(rs, b, k);
    OneBuffer(consumer.tracker.lossEvents, consumer.tracker.inserted, b);
    Conservation(rs, b, consumer.tracker.lossEvents, k);
  }

  /** For every stream delivered and lost add up to one more than the largest number delivered. */
  lemma Reconciled(producer: EpochProducer, consumer: Consumer, k: Stream)
    requires producer.Valid() && producer.ring.bytes.Length >= 80 && producer.wellUsed
    requires consumer.Valid() && consumer.Tracks(producer.ring.bytes.Length, producer.ring.hist)
    ensures Total(consumer, k) == Next(consumer.accounted, k)
  {
    hide Next, GapFree, Quiet, Oldest, EpochProducer.Valid, Marked, Grammar, Total, Consumer.Valid, RecordsOf, InForce;
    GoodLog(producer);
    Balanced(consumer, producer.ring.hist, consumer.polled, k);
  }

  /** Record `i` was retained when `polled` records had been written. */
  ghost predicate StillThere(producer: EpochProducer, polled: nat, i: nat)
    reads producer, producer.ring, producer.ring.bytes
  {
    && i < polled <= |producer.ring.hist|
    && producer.ring.hist[i].start >= Oldest(producer.ring.bytes.Length, producer.ring.hist[..polled])
  }

  /** If the newest record of a stream was still retained when last polled, delivered and lost add up to the number of
  records produced by then. */
  lemma ReconciledWithProduced(producer: EpochProducer, consumer: Consumer, k: Stream, i: nat)
    requires producer.Valid() && producer.ring.bytes.Length >= 80 && producer.wellUsed
    requires consumer.Valid() && consumer.Tracks(producer.ring.bytes.Length, producer.ring.hist)
    requires Newest(producer.Log(), k, consumer.polled, i) && StillThere(producer, consumer.polled, i)
    ensures consumer.polled <= |producer.Log()|
    ensures Total(consumer, k) == Count(producer.Log()[..consumer.polled], k)
  {
    hide Next, Count, GapFree, Quiet, Oldest, EpochProducer.Valid, Marked, Grammar, Total, InForce;
    hide Consumer.Valid, RecordsOf;
    Reconciled(producer, consumer, k);
    GoodLog(producer);
    NextIsProduced(producer.ring.hist, consumer.polled, consumer.accounted, k, i);
  }

  // ---- Runs -----------------------------------------------------------------------------------

  /** A definition in force: its hash, the hash of the one before it, and where its epoch begins. */
  datatype Installation = Installation(prev: Hash, current: Hash, first: nat)

  /** Where a producer stands: its ledger, its pending transition and the definition in force. */
  datatype Position = Position(ledger: Ledger, transition: Option<Pending>, definition: Installation)

  /** What a command does to the log, given where the producer stands: which record it adds, under which number, which
  numbers come next, and which definition is in force. */
  ghost predicate Effect(c: Command, s: Position, after: Position) {
    var l, k := s.ledger, after.ledger;
    && Installs(c, s, after)
    && match c
       case Emit(source, event) =>
         if s.transition.Some? then Refused(s, after)
         else after.transition == None && k.run == l.run && k.epoch == l.epoch && k.systemSeq == l.systemSeq
              && k.sourceSeq == l.sourceSeq[source := NextSeq(l.sourceSeq, source) + 1]
              && exists r, t: nat :: k.log == l.log + [r] && r.seqNo == NextSeq(l.sourceSeq, source)
                                     && Datum(r, t, l.run, source, event)
       case Mark =>
         if s.transition.Some? then Refused(s, after)
         else after.transition == None && k.run == l.run && k.epoch == l.epoch && k.systemSeq == l.systemSeq
              && Checkpointed(l.log, k.log, l.run, l.sourceSeq, k.sourceSeq, |Ascending(l.sourceSeq.Keys)|)
       case Begin(defHashOld, defHashNew, epoch) =>
         if s.transition.Some? then Refused(s, after)
         else after.transition == Some(Pending(defHashOld, defHashNew, epoch, false)) && k.run == l.run
              && k.epoch == l.epoch && k.systemSeq == l.systemSeq + 1
              && exists r :: Stopped(r) && StreamOf(r) == Stream(l.run, SYSTEM_SOURCE_ID) && r.seqNo == l.systemSeq
                             && Checkpointed(l.log + [r], k.log, l.run, l.sourceSeq, k.sourceSeq,
                                             |Ascending(l.sourceSeq.Keys)|)
       case Announce =>
         if s.transition.None? || s.transition.value.definitionChangedEmitted then Refused(s, after)
         else after.transition == Some(s.transition.value.(definitionChangedEmitted := true))
              && k.run == l.run && k.epoch == l.epoch && k.systemSeq == l.systemSeq + 1 && k.sourceSeq == l.sourceSeq
              && exists r :: k.log == l.log + [r] && AnnouncesAll(r, l.run, s.transition.value)
                             && r.seqNo == l.systemSeq
       case FinishWarm =>
         if s.transition.None? || !s.transition.value.definitionChangedEmitted then Refused(s, after)
         else after.transition == None && k.run == l.run && k.epoch == s.transition.value.epochId
              && k.systemSeq == l.systemSeq + 1 && k.sourceSeq == l.sourceSeq
              && exists r :: k.log == l.log + [r] && Restarts(r, l.run) && r.runId == l.run && r.seqNo == l.systemSeq
       case FinishCold =>
         if s.transition.None? || !s.transition.value.definitionChangedEmitted then Refused(s, after)
         else after.transition == None && k.run == l.run + 1 && k.epoch == s.transition.value.epochId
              && k.systemSeq == 1 && k.sourceSeq == map[]
              && exists r :: k.log == l.log + [r] && Restarts(r, l.run) && r.runId == k.run && r.seqNo == 0
       case PollBytes => Refused(s, after)
  }

  /** Only the end of an announced transition changes the definition in force: to that of the transition. */
  ghost predicate Installs(c: Command, s: Position, after: Position) {
    if (c.FinishWarm? || c.FinishCold?) && s.transition.Some? && s.transition.value.definitionChangedEmitted
    then after.definition.prev == s.transition.value.defHashOld
         && after.definition.current == s.transition.value.defHashNew
    else after.definition == s.definition
  }

  /** Nothing was written, and no number used up. */
  ghost predicate Refused(s: Position, after: Position) {
    && after.transition == s.transition && after.ledger.log == s.ledger.log && after.ledger.run == s.ledger.run
    && after.ledger.epoch == s.ledger.epoch && after.ledger.systemSeq == s.ledger.systemSeq
    && after.ledger.sourceSeq == s.ledger.sourceSeq
  }

  ghost function PositionOf(producer: EpochProducer): Position
    reads producer, producer.ring
  {
    Position(producer.Now(), producer.transition,
             Installation(producer.prevDefinitionHash, producer.definitionHash, producer.epochFirstAbs))
  }

  /** Executes one producer command. */
  method Produce(producer: EpochProducer, c: Command)
    requires producer.Valid() && producer.ring.bytes.Length >= 80 && producer.wellUsed && ProperUse(c)
    requires producer.sourceTime + 1 + |producer.sourceSeq| <= 0xFFFF_FFFF_FFFF_FFFF
    requires producer.runId < 0xFFFF_FFFF_FFFF_FFFF
    modifies producer, producer.ring, producer.ring.bytes
    ensures producer.Valid() && producer.ring.bytes == old(producer.ring.bytes) && producer.wellUsed
    ensures Extends(old(producer.ring.hist), producer.ring.hist)
    ensures Effect(c, old(PositionOf(producer)), PositionOf(producer))
  {
    hide EpochProducer.Valid, RecordsOf, OrdinaryEvent, Extends, Checkpointed, AnnouncesAll, Restarts, NextSeq, Datum;
    hide Ascending;
    ExtendsBy(producer.ring.hist, NO_ENTRY);
    match c
    case Emit(source, event) =>
      var _ := producer.EmitData(source, event);
    case Mark =>
      var _ := producer.CheckpointHighWater();
    case Begin(defHashOld, defHashNew, epoch) =>
      var _ := producer.BeginEpochTransition(defHashOld, defHashNew, epoch);
    case Announce =>
      var _ := producer.EmitDefinitionChanged();
    case FinishWarm =>
      var _ := producer.FinishDefinitionChange();
    case FinishCold =>
      var _ := producer.FinishColdStart();
    case PollBytes =>
  }

  /** Executes one command of a run. A poll accounts for everything retained that is new. */
  method Step(producer: EpochProducer, consumer: Consumer, c: Command)
    requires producer.Valid() && producer.ring.bytes.Length >= 80 && producer.wellUsed && ProperUse(c)
    requires producer.sourceTime + 1 + |producer.sourceSeq| <= 0xFFFF_FFFF_FFFF_FFFF
    requires producer.runId < 0xFFFF_FFFF_FFFF_FFFF
    requires consumer.Valid() && consumer.Tracks(producer.ring.bytes.Length, producer.ring.hist)
    modifies producer, producer.ring, producer.ring.bytes, consumer, consumer.tracker
    ensures producer.Valid() && producer.ring.bytes == old(producer.ring.bytes) && producer.wellUsed
    ensures consumer.Valid() && consumer.Tracks(producer.ring.bytes.Length, producer.ring.hist)
    ensures Advance(producer.ring.bytes.Length, c, old(StageOf(producer, consumer)), StageOf(producer, consumer))
    ensures c.PollBytes? ==> consumer.polled == |producer.ring.hist|
    ensures Extends(old(producer.ring.hist), producer.ring.hist)
  {
    hide EpochProducer.Valid, Consumer.Valid, CaughtUp, RecordsOf, Extends, ProperUse, HeadAt, BatchOf, Contents;
    hide Effect, Announced;
    ghost var before := PositionOf(producer);
    CaughtUpTo(producer.ring.bytes.Length, producer.ring.hist, consumer.polled, consumer.accounted);
    ghost var h, cap := producer.ring.hist, producer.ring.bytes.Length;
    if c.PollBytes? {
      RingShows(producer);
      ExtendsBy(h, NO_ENTRY);
      var _ := consumer.PollRaw(producer.ring, producer.ring.hist);
      PollEffect(before);
    } else {
      Produce(producer, c);
      ExtendsCaughtUp(cap, h, producer.ring.hist, consumer.polled, consumer.accounted);
    }
    StageAnnounced(producer, consumer);
  }

  lemma PollEffect(s: Position)
    ensures Effect(PollBytes, s, s)
  {
  }

  lemma StageAnnounced(producer: EpochProducer, consumer: Consumer)
    requires producer.Valid() && producer.ring.bytes.Length >= 80 && producer.wellUsed
    ensures Announced(StageOf(producer, consumer))
  {
    hide EpochProducer.Valid, GapFree, Quiet, Marked, Grammar, InForce;
    GoodLog(producer);
  }

  lemma CaughtUpTo(cap: nat, h: seq<Entry>, polled: nat, accounted: seq<Record>)
    requires CaughtUp(cap, h, polled, accounted)
    ensures polled <= |h|
  {
  }

  lemma RingShows(producer: EpochProducer)
    requires producer.Valid()
    ensures producer.ring.bytes.Length > 0
    ensures producer.ring.Shows(producer.ring.hist, producer.ring.headAbs, producer.ring.oldestAbs)
  {
    hide Sound, PhaseOf;
    LiveWindowOf(producer.ring);
  }

  lemma ExtendsCaughtUp(cap: nat, h: seq<Entry>, h': seq<Entry>, polled: nat, accounted: seq<Record>)
    requires CaughtUp(cap, h, polled, accounted) && Extends(h, h')
    ensures polled <= |h| && CaughtUp(cap, h', polled, accounted) && HeadAt(h', polled) == HeadAt(h, polled)
  {
    StaysCaughtUp(cap, h, h', polled, accounted);
  }

  /** The clock or the run id is used up: no further command is safe. */
  ghost predicate Exhausted(producer: EpochProducer)
    reads producer
  {
    producer.sourceTime + 1 + |producer.sourceSeq| > 0xFFFF_FFFF_FFFF_FFFF || producer.runId == 0xFFFF_FFFF_FFFF_FFFF
  }

  /** A stage of a run: where the producer stands, what it has written, and what the consumer has accounted. */
  datatype Stage = Stage(position: Position, hist: seq<Entry>, accounted: seq<Record>, polled: nat)

  ghost function StageOf(producer: EpochProducer, consumer: Consumer): Stage
    reads producer, producer.ring, consumer
  {
    Stage(PositionOf(producer), producer.ring.hist, consumer.accounted, consumer.polled)
  }

  /** The definition in force is the one that the log's last completed transition announced. */
  ghost predicate Announced(s: Stage) {
    InForce(s.hist, s.position.definition.prev, s.position.definition.current, s.position.definition.first)
  }

  /** What a command does to producer and consumer: a poll accounts for the retained records that are new. */
  ghost predicate Advance(cap: nat, c: Command, a: Stage, b: Stage) {
    && Effect(c, a.position, b.position) && Extends(a.hist, b.hist) && Announced(b)
    && if c.PollBytes? then
         && a.polled <= |a.hist| && b.hist == a.hist && b.polled == |a.hist|
         && b.accounted == a.accounted + Contents(BatchOf(cap, a.hist, HeadAt(a.hist, a.polled)).records)
       else b.polled == a.polled && b.accounted == a.accounted
  }

  /** The stages of a run, each command of the script taking one to the next. */
  ghost predicate RunOf(cap: nat, stages: seq<Stage>, script: seq<Command>) {
    |stages| == |script| + 1 && forall i | 0 <= i < |script| :: Advance(cap, script[i], stages[i], stages[i + 1])
  }

  lemma RunLonger(cap: nat, stages: seq<Stage>, script: seq<Command>, c: Command, s: Stage)
    requires RunOf(cap, stages, script) && Advance(cap, c, stages[|script|], s)
    ensures RunOf(cap, stages + [s], script + [c])
  {
    hide Advance;
    forall i | 0 <= i < |script| + 1
      ensures Advance(cap, (script + [c])[i], (stages + [s])[i], (stages + [s])[i + 1])
    {
      if i < |script| {
        assert Advance(cap, script[i], stages[i], stages[i + 1]);
      }
    }
  }

  /** Executes a script from a fresh producer and consumer, whatever the order of emits, checkpoints, transitions and
  polls.

  Each command takes its effect on the log; the run stops early only when the 64-bit clock or run id is used up. At the
  end every stream reconciles: delivered and lost add up to one more than the largest number delivered, and to the
  number produced by the last poll wherever the newest record was still retained then. */
  method Run(capacity: nat, run: u64, epoch: u64, script: seq<Command>)
    returns (producer: EpochProducer, consumer: Consumer, executed: nat, ghost stages: seq<Stage>)
    requires capacity >= 80 && forall c | c in script :: ProperUse(c)
    ensures producer.Valid() && producer.wellUsed && producer.ring.bytes.Length == capacity
    ensures producer.run0 == run && producer.epoch0 == epoch
    ensures executed <= |script| && (executed < |script| ==> Exhausted(producer))
    ensures RunOf(capacity, stages, script[..executed]) && stages[executed] == StageOf(producer, consumer)
    ensures Initial(stages[0], run, epoch)
    ensures consumer.Valid() && consumer.Tracks(capacity, producer.ring.hist)
    ensures executed > 0 && script[executed - 1].PollBytes? ==> consumer.polled == |producer.ring.hist|
    ensures forall k :: Total(consumer, k) == Next(consumer.accounted, k)
    ensures forall k, i: nat | Newest(producer.Log(), k, consumer.polled, i)
            && StillThere(producer, consumer.polled, i) ::
              Total(consumer, k) == Count(producer.Log()[..consumer.polled], k)
  {
    hide EpochProducer.Valid, Consumer.Valid, CaughtUp, RecordsOf, OrdinaryEvent, Extends, Total, Next, RunOf;
    hide Advance, Initial;
    hide StillThere, Count;
    producer := new EpochProducer(capacity, run, epoch);
    consumer := new Consumer(DEFAULT_BUFFER_ID);
    NothingToCatchUp(capacity);
    stages := [StageOf(producer, consumer)];
    RunStarts(capacity, producer, consumer, stages, script[..0]);
    executed := 0;
    while executed < |script|
      invariant fresh(producer) && fresh(producer.ring) && fresh(producer.ring.bytes)
      invariant fresh(consumer) && fresh(consumer.tracker)
      invariant producer.Valid() && producer.wellUsed && producer.ring.bytes.Length == capacity
      invariant producer.run0 == run && producer.epoch0 == epoch
      invariant executed <= |script| && |stages| == executed + 1
      invariant RunOf(capacity, stages, script[..executed]) && stages[executed] == StageOf(producer, consumer)
      invariant Initial(stages[0], run, epoch)
      invariant consumer.Valid() && consumer.Tracks(capacity, producer.ring.hist)
      invariant executed > 0 && script[executed - 1].PollBytes? ==> consumer.polled == |producer.ring.hist|
    {
      assert script[executed] in script;
      if producer.sourceTime + 1 + |producer.sourceSeq| > 0xFFFF_FFFF_FFFF_FFFF
          || producer.runId == 0xFFFF_FFFF_FFFF_FFFF {
        break;
      }
      Step(producer, consumer, script[executed]);
      RunLonger(capacity, stages, script[..executed], script[executed], StageOf(producer, consumer));
      assert script[..executed + 1] == script[..executed] + [script[executed]];
      stages := stages + [StageOf(producer, consumer)];
      executed := executed + 1;
    }
    forall k
      ensures Total(consumer, k) == Next(consumer.accounted, k)
    {
      Reconciled(producer, consumer, k);
    }
    forall k, i: nat | Newest(producer.Log(), k, consumer.polled, i) && StillThere(producer, consumer.polled, i)
      ensures Total(consumer, k) == Count(producer.Log()[..consumer.polled], k)
    {
      ReconciledWithProduced(producer, consumer, k, i);
    }
  }

  /** Nothing has been written or accounted. */
  ghost predicate Initial(s: Stage, run: u64, epoch: u64) {
    && s.position.ledger.log == [] && s.position.ledger.run == run && s.position.ledger.epoch == epoch
    && s.position.transition == None && s.hist == [] && s.accounted == [] && s.polled == 0
    && s.position.definition == Installation(NO_HASH, NO_HASH, 0)
  }

  lemma RunStarts(cap: nat, producer: EpochProducer, consumer: Consumer, stages: seq<Stage>, script: seq<Command>)
    requires producer.ring.hist == [] && stages == [StageOf(producer, consumer)] && script == []
    requires producer.transition == None && consumer.accounted == [] && consumer.polled == 0
    requires producer.definitionHash == NO_HASH && producer.prevDefinitionHash == NO_HASH && producer.epochFirstAbs == 0
    ensures RunOf(cap, stages, script) && Initial(stages[0], producer.runId, producer.epochId)
  {
  }

  lemma NothingToCatchUp(cap: nat)
    ensures CaughtUp(cap, [], 0, [])
  {
  }

  // ---- Transitions and epochs ---------------------------------------------------------------------

  /** A completed transition: one checkpoint per active source in ascending order, each with its own number as payload,
  then the announcement, then the restart, after which the announced epoch is in force. */
  lemma CompletedTransition(producer: EpochProducer, p: nat, n: nat)
    requires producer.Valid() && producer.ring.bytes.Length >= 80 && producer.wellUsed
    requires p < |producer.Log()| && Stopped(producer.Log()[p]) && producer.open != Some(p)
             && n == |Due(producer.Log(), p)|
    ensures var log, run := producer.Log(), producer.Log()[p].runId;
            && |producer.epochs| == |log| && p + n + 2 < |log|
            && (forall s: u32 :: s in Due(log, p) <==> s in Active(log[..p], run))
            && (forall i, j | 0 <= i < j < n :: Due(log, p)[i] < Due(log, p)[j])
            && (forall d | 0 <= d < n :: Checkpoint(log[p + 1 + d], run, Due(log, p)[d]))
            && Announces(log[p + n + 1], run, producer.epochs[p + n + 2])
            && Restarts(log[p + n + 2], run)
  {
    hide GapFree, Quiet, Active, Ascending, EpochProducer.Valid, EpochProducer.Log, RecordsOf, Checkpoint, Announces;
    hide InForce;
    GoodLog(producer);
    var log, run := producer.Log(), producer.Log()[p].runId;
    var due := Due(log, p);
    AscendingList(Active(log[..p], run));
    assert Bracket(log, p);
    forall d | 0 <= d < n
      ensures Checkpoint(log[p + 1 + d], run, due[d])
    {
      assert Follows(due, run, d, log[p + 1 + d]);
    }
    assert Follows(due, run, n, log[p + n + 1]);
    assert Follows(due, run, n + 1, log[p + n + 2]);
    assert MarkAt(log, producer.epochs, producer.run0, producer.epoch0, p + n + 2);
    ChangedRun(log[p + n + 1], run);
  }

  lemma ChangedRun(r: Record, run: u64)
    requires exists epoch :: Announces(r, run, epoch)
    ensures r.runId == run
  {
  }

  /** The starts of a history increase. */
  lemma StartsIncrease(cap: nat, h: seq<Entry>, starts: seq<nat>)
    requires Laid(cap, h) && |starts| == |h| && forall i | 0 <= i < |h| :: starts[i] == h[i].start
    ensures Increasing(starts)
  {
    forall i, j | 0 <= i < j < |starts|
      ensures starts[i] < starts[j]
    {
      Ordered(cap, h, i, j);
    }
  }

  function StartsOf(h: seq<Entry>): seq<nat> {
    seq(|h|, i requires 0 <= i < |h| => h[i].start)
  }

  /** Feeds the records from place `from` on to a resolver and asks it for the epoch of each. Fed the whole log, and
  seeded with the initial run and epoch, it is right about every record; fed a suffix, it is right about every record
  that follows a completely observed transition of its run. */
  method ResolveLog(ghost producer: EpochProducer, batch: seq<ReadRecord>, run: u64, epoch: u64, ghost from: nat)
    returns (resolved: seq<Option<u64>>)
    requires producer.Valid() && producer.ring.bytes.Length >= 80 && producer.wellUsed
    requires from + |batch| == |producer.ring.hist|
    requires forall i | 0 <= i < |batch| :: batch[i] == ReadOf(producer.ring.hist[from + i])
    requires from == 0 ==> run == producer.run0 && epoch == producer.epoch0
    ensures |resolved| == |batch| && |producer.epochs| == |producer.Log()| == from + |batch|
    ensures forall i | 0 <= i < |batch|
            && (from == 0 || PairSeen(producer.Log(), from, from + i, batch[i].record.runId)) ::
              resolved[i] == Some(producer.epochs[from + i])
  {
    hide EpochProducer.Valid, GapFree, Quiet, Grammar, PairSeen, Increasing, Marked, EpochResolver.Knows, InForce;
    GoodLog(producer);
    ghost var h, log, epochs := producer.ring.hist, producer.Log(), producer.epochs;
    ghost var starts := StartsOf(h);
    LogShape(producer, starts);
    var resolver := new EpochResolver(DEFAULT_BUFFER_ID, run, epoch);
    KnowsNothing(resolver, log, starts, epochs, producer.run0, producer.epoch0, from);
    for i := 0 to |batch|
      invariant fresh(resolver) && resolver.bufferId == DEFAULT_BUFFER_ID
      invariant resolver.Knows(log, starts, epochs, producer.run0, producer.epoch0, from, from + i)
    {
      resolver.Observe(DEFAULT_BUFFER_ID, batch[i], log, starts, epochs, producer.run0, producer.epoch0, from,
                       from + i);
    }
    resolved := [];
    for i := 0 to |batch|
      invariant |resolved| == i && resolver.bufferId == DEFAULT_BUFFER_ID
      invariant resolver.Knows(log, starts, epochs, producer.run0, producer.epoch0, from, |log|)
      invariant forall j | 0 <= j < i && (from == 0 || PairSeen(log, from, from + j, batch[j].record.runId)) ::
                  resolved[j] == Some(epochs[from + j])
    {
      var answer := resolver.Resolve(DEFAULT_BUFFER_ID, batch[i].record.runId, batch[i].startAbs, log, starts, epochs,
                                     producer.run0, producer.epoch0, from, |log|, from + i);
      resolved := resolved + [answer];
    }
  }

  lemma LogShape(producer: EpochProducer, starts: seq<nat>)
    requires producer.Valid() && producer.ring.bytes.Length >= 80 && producer.wellUsed
    requires starts == StartsOf(producer.ring.hist)
    ensures |producer.epochs| == |producer.Log()| == |starts| == |producer.ring.hist| && Increasing(starts)
    ensures forall i | 0 <= i < |starts| ::
              producer.Log()[i] == producer.ring.hist[i].record && starts[i] == producer.ring.hist[i].start
  {
    hide Sound, PhaseOf, Fields, Kept, Increasing;
    GoodLog(producer);
    StartsIncrease(producer.ring.bytes.Length, producer.ring.hist, starts);
  }

  lemma KnowsNothing(resolver: EpochResolver, log: seq<Record>, starts: seq<nat>, epochs: seq<u64>, run0: u64,
                     epoch0: u64, from: nat)
    requires Marked(log, epochs, run0, epoch0) && |starts| == |log| == |epochs| && Increasing(starts) && from <= |log|
    requires resolver.epochBoundaries == map[] && resolver.pendingEpoch == None
    requires from == 0 ==> resolver.runDefaultEpoch == map[run0 := epoch0]
    ensures resolver.Knows(log, starts, epochs, run0, epoch0, from, from)
  {
    hide Marked, Increasing;
  }

  // ---- Conformance --------------------------------------------------------------------------------

  /** A gap-free log never repeats a record key, and the numbers of each source increase in write order: the sidecar
  oracle can be built from it and stays silent on every genuine read of it. */
  lemma GapFreeDistinct(h: seq<Entry>)
    requires GapFree(RecordsOf(h))
    ensures Conformance.DistinctKeys(h) && Conformance.SourcesIncrease(h)
  {
    hide Count;
    var log := RecordsOf(h);
    forall i, j | 0 <= i < j < |h| && StreamOf(h[i].record) == StreamOf(h[j].record)
      ensures h[i].record.seqNo < h[j].record.seqNo
    {
      var k := StreamOf(h[i].record);
      assert log[..i + 1] == log[..i] + [log[i]];
      CountStep(log[..i], log[i], k);
      CountGrows(log, k, i + 1, j);
    }
  }
}
