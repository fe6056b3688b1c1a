/** Each record an epoch producer writes keeps its log sound. */
module EpochSteps {
  import opened Bytes
  import opened Wire
  import opened Registry
  import opened Control
  import opened Accounting
  import opened EpochLog
  import opened EpochResolution

  datatype Pending = Pending(defHashOld: Hash, defHashNew: Hash, epochId: u64, definitionChangedEmitted: bool)

  /** The record reports nothing as dropped. */
  predicate Unreporting(r: Record) {
    r.eventTypeId != EVENT_RECORDS_DROPPED || r.slots == []
  }

  predicate Quiet(log: seq<Record>) {
    forall i | 0 <= i < |log| :: Unreporting(log[i])
  }

  lemma QuietStep(log: seq<Record>, r: Record)
    requires Quiet(log) && Unreporting(r)
    ensures Quiet(log + [r])
  {
  }

  /** A log with its epoch marks, and the producer's fields that continue it. An open transition has its
  `LoggerStopped` at `open` and is `depth` records further. */
  datatype Ledger = Ledger(
    log: seq<Record>, epochs: seq<u64>, run0: u64, epoch0: u64, run: u64, epoch: u64, systemSeq: nat,
    sourceSeq: map<u32, nat>, open: Option<nat>, depth: nat)
  {
    /** One more record, written in the epoch in force. */
    function Plus(r: Record): Ledger {
      this.(log := log + [r], epochs := epochs + [epoch])
    }
  }

  /** The log is gap-free, bracketed and marked, and the fields continue it. */
  ghost predicate Sound(l: Ledger) {
    && GapFree(l.log) && Counters(l.log, l.run, l.systemSeq, l.sourceSeq) && Grammar(l.log, l.open, l.depth)
       && Quiet(l.log)
    && Marked(l.log, l.epochs, l.run0, l.epoch0)
    && l.run == RunBefore(l.log, l.run0, |l.log|) && l.epoch == EpochBefore(l.epochs, l.epoch0, |l.epochs|)
    && (if l.open.Some? then l.open.value < |l.log| && l.log[l.open.value].runId == l.run else l.depth == 0)
  }

  /** The record announces the transition: its epoch, and its two definition hashes, each under its own key. */
  predicate AnnouncesAll(r: Record, run: u64, pending: Pending) {
    && Announces(r, run, pending.epochId) && Carries(r, KEY_DEF_HASH_OLD, pending.defHashOld)
    && Carries(r, KEY_DEF_HASH_NEW, pending.defHashNew)
  }

  /** The pending transition matches the open bracket. */
  ghost predicate PhaseOf(l: Ledger, transition: Option<Pending>) {
    && transition.Some? == l.open.Some?
    && (l.open.Some? ==>
          && l.open.value < |l.log|
          && l.depth == |Due(l.log, l.open.value)| + (if transition.value.definitionChangedEmitted then 1 else 0)
          && (transition.value.definitionChangedEmitted ==>
                l.log != [] && AnnouncesAll(l.log[|l.log| - 1], l.run, transition.value)))
  }

  /** A record that is not a `LoggerStarted` leaves run and epoch alone. */
  lemma Unmarked(l: Ledger, r: Record)
    requires Marked(l.log, l.epochs, l.run0, l.epoch0) && l.run == RunBefore(l.log, l.run0, |l.log|)
    requires l.epoch == EpochBefore(l.epochs, l.epoch0, |l.epochs|) && r.runId == l.run && !Started(r)
    ensures var k := l.Plus(r);
            && Marked(k.log, k.epochs, k.run0, k.epoch0)
            && k.run == RunBefore(k.log, k.run0, |k.log|) && k.epoch == EpochBefore(k.epochs, k.epoch0, |k.epochs|)
  {
    MarkStep(l.log, l.epochs, l.run0, l.epoch0, r, l.epoch);
  }

  /** A data record or a checkpoint outside a transition. */
  lemma SoundOrdinary(l: Ledger, r: Record)
    requires Sound(l) && l.open == None
    requires r.runId == l.run && r.sourceId != SYSTEM_SOURCE_ID && Ordinary(r) && Unreporting(r)
    requires r.seqNo == if r.sourceId in l.sourceSeq then l.sourceSeq[r.sourceId] else 0
    ensures Sound(l.Plus(r).(sourceSeq := l.sourceSeq[r.sourceId := r.seqNo + 1]))
  {
    hide GapFree, Counters, Grammar, Marked, Quiet;
    SourceStep(l.log, l.run, l.systemSeq, l.sourceSeq, r);
    OrdinaryStep(l.log, r);
    QuietStep(l.log, r);
    Unmarked(l, r);
  }

  /** The checkpoint that is due in an open transition. */
  lemma SoundCheckpoint(l: Ledger, r: Record)
    requires Sound(l) && l.open.Some? && l.depth < |Due(l.log, l.open.value)|
    requires Checkpoint(r, l.run, Due(l.log, l.open.value)[l.depth]) && r.sourceId in l.sourceSeq
    requires r.sourceId != SYSTEM_SOURCE_ID && r.seqNo == l.sourceSeq[r.sourceId]
    ensures Sound(l.Plus(r).(sourceSeq := l.sourceSeq[r.sourceId := r.seqNo + 1], depth := l.depth + 1))
  {
    hide GapFree, Counters, Grammar, Marked, Due, Quiet;
    SourceStep(l.log, l.run, l.systemSeq, l.sourceSeq, r);
    FollowStep(l.log, r, l.open.value, l.depth);
    QuietStep(l.log, r);
    Unmarked(l, r);
  }

  /** `LoggerStopped` opens a transition; the sources due are those with a counter. */
  lemma SoundStop(l: Ledger, r: Record)
    requires Sound(l) && l.open == None
    requires StreamOf(r) == Stream(l.run, SYSTEM_SOURCE_ID) && Stopped(r) && r.slots == [] && r.seqNo == l.systemSeq
    ensures Sound(l.Plus(r).(systemSeq := l.systemSeq + 1, open := Some(|l.log|), depth := 0))
    ensures Due(l.log + [r], |l.log|) == Ascending(l.sourceSeq.Keys)
  {
    hide GapFree, Grammar, Marked, Ascending, Active, Count, Quiet;
    assert Due(l.log + [r], |l.log|) == Ascending(l.sourceSeq.Keys) by { assert (l.log + [r])[..|l.log|] == l.log; }
    SystemStep(l.log, l.run, l.systemSeq, l.sourceSeq, r);
    StopStep(l.log, r);
    QuietStep(l.log, r);
    Unmarked(l, r);
  }

  /** `DefinitionChanged` comes once all checkpoints are done. */
  lemma SoundChange(l: Ledger, r: Record, next: u64)
    requires Sound(l) && l.open.Some? && l.depth == |Due(l.log, l.open.value)|
    requires Announces(r, l.run, next) && r.seqNo == l.systemSeq
    ensures Sound(l.Plus(r).(systemSeq := l.systemSeq + 1, depth := l.depth + 1))
  {
    hide GapFree, Counters, Grammar, Marked, Due, Quiet;
    SystemStep(l.log, l.run, l.systemSeq, l.sourceSeq, r);
    FollowStep(l.log, r, l.open.value, l.depth);
    QuietStep(l.log, r);
    Unmarked(l, r);
  }

  /** `LoggerStarted` closes the transition; `k` holds the new run and counters, and the announced epoch is in force
  from this record on. */
  lemma SoundStart(l: Ledger, r: Record, k: Ledger)
    requires Sound(l) && l.open.Some? && l.depth == |Due(l.log, l.open.value)| + 1
    requires l.log != [] && Announces(l.log[|l.log| - 1], l.run, k.epoch) && Restarts(r, l.run)
    requires r.runId == k.run && r.seqNo == k.systemSeq && Counters(l.log, k.run, k.systemSeq, k.sourceSeq)
    requires k == l.(run := k.run, epoch := k.epoch, systemSeq := k.systemSeq, sourceSeq := k.sourceSeq)
    ensures Sound(k.Plus(r).(systemSeq := k.systemSeq + 1, open := None, depth := 0))
  {
    hide GapFree, Counters, Grammar, Marked, Due, Quiet;
    SystemStep(l.log, k.run, k.systemSeq, k.sourceSeq, r);
    FollowStep(l.log, r, l.open.value, l.depth);
    QuietStep(l.log, r);
    assert |l.log| == |l.epochs| by { MarkedLengths(l.log, l.epochs, l.run0, l.epoch0); }
    assert MarkAt(l.log + [r], l.epochs + [k.epoch], l.run0, l.epoch0, |l.log|);
    MarkStep(l.log, l.epochs, l.run0, l.epoch0, r, k.epoch);
  }

  lemma MarkedLengths(log: seq<Record>, epochs: seq<u64>, run0: u64, epoch0: u64)
    requires Marked(log, epochs, run0, epoch0)
    ensures |log| == |epochs|
  {
  }

  // ---- Sizes ------------------------------------------------------------------------------

  /** The wire sizes of the records a producer writes. */
  lemma SlotSizes(a: Slot, b: Slot, c: Slot)
    requires |a.payload| <= 8 && |b.payload| == |c.payload| == 8
    ensures SlotsFit([]) && TotalLen([], true) == 44
    ensures SlotsFit([a]) && TotalLen([a], true) == 48 + |a.payload| + PaddingLen(|a.payload|)
    ensures SlotsFit([a, b, c]) && TotalLen([a, b, c], true) == 72 + |a.payload| + PaddingLen(|a.payload|)
  {
    assert EncodeSlots([a]) == EncodeSlot(a) + EncodeSlots([]);
    assert [a, b, c][1..] == [b, c] && [b, c][1..] == [c];
    assert EncodeSlots([c]) == EncodeSlot(c) + EncodeSlots([]);
    assert EncodeSlots([b, c]) == EncodeSlot(b) + EncodeSlots([c]);
    assert EncodeSlots([a, b, c]) == EncodeSlot(a) + EncodeSlots([b, c]);
  }
}
