/** The loss tracker: per-source delivery counts and merged loss intervals. */
module Loss {
  import opened Bytes
  import opened Wire
  import opened Registry
  import opened Intervals
  import opened Accounting

  // ---- Counting ---------------------------------------------------------------------------

  /** The numbers from `lo` up to but not including `hi`. */
  function RangeSet(lo: nat, hi: nat): (s: set<nat>)
    ensures forall x: nat :: x in s <==> lo <= x < hi
    ensures |s| == if lo <= hi then hi - lo else 0
    decreases hi
  {
    if lo >= hi then {} else RangeSet(lo, hi - 1) + {hi - 1}
  }

  /** The lost count of a stream, as `LossTracker::lost` sums it. */
  function LostTotal(events: seq<LossEvent>, k: Stream): nat {
    if events == [] then 0
    else
      var n := |events| - 1;
      LostTotal(events[..n], k) + if Of(events[n], k) then events[n].count else 0
  }

  /** The lost sequence numbers of a stream. */
  function LostSet(events: seq<LossEvent>, k: Stream): set<nat> {
    if events == [] then {}
    else
      var n := |events| - 1;
      LostSet(events[..n], k)
      + if Of(events[n], k) then RangeSet(events[n].firstSeq, events[n].lastSeq + 1) else {}
  }

  lemma {:induction false} LostMember(events: seq<LossEvent>, k: Stream, x: nat)
    ensures x in LostSet(events, k) <==> exists e :: e in events && Of(e, k) && Has(e, x)
  {
    if events == [] {
    } else {
      var n := |events| - 1;
      LostMember(events[..n], k, x);
      assert events == events[..n] + [events[n]];
    }
  }

  /** Disjoint intervals: the counts sum to the number of lost sequence numbers. */
  lemma {:induction false} LostSize(events: seq<LossEvent>, k: Stream, bufferId: u32)
    requires Apart(events) && forall e | e in events :: Proper(e) && e.bufferId == bufferId
    ensures |LostSet(events, k)| == LostTotal(events, k)
  {
    if events == [] {
      assert LostSet(events, k) == {};
    } else {
      var n := |events| - 1;
      LostSize(events[..n], k, bufferId);
      if Of(events[n], k) {
        LostApart(events, k, bufferId);
      }
    }
  }

  /** The last of disjoint intervals has no number in common with the others. */
  lemma LostApart(events: seq<LossEvent>, k: Stream, bufferId: u32)
    requires events != [] && Apart(events) && forall e | e in events :: Proper(e) && e.bufferId == bufferId
    requires Of(events[|events| - 1], k)
    ensures var last := events[|events| - 1];
            LostSet(events[..|events| - 1], k) !! RangeSet(last.firstSeq, last.lastSeq + 1)
  {
    hide LostSet, LostTotal;
    var n := |events| - 1;
    var last := events[n];
    forall x | x in RangeSet(last.firstSeq, last.lastSeq + 1)
      ensures x !in LostSet(events[..n], k)
    {
      LostMember(events[..n], k, x);
      forall e | e in events[..n] && Of(e, k)
        ensures !Has(e, x)
      {
        var i :| 0 <= i < n && events[i] == e;
        assert !Merges(events[i], events[n]);
      }
    }
  }

  /** The lost numbers are exactly those of the ranges the intervals are the union of. */
  lemma LostPoints(events: seq<LossEvent>, ranges: set<LossEvent>, k: Stream, x: nat)
    requires UnionOf(events, ranges)
    ensures x in LostSet(events, k) <==> InRanges(ranges, k, x)
  {
    LostMember(events, k, x);
    if e: LossEvent :| e in events && Of(e, k) && Has(e, x) {
      assert Backed(ranges, e, x);
    }
    if i: LossEvent :| i in ranges && Of(i, k) && Has(i, x) {
      assert HeldBy(events, i);
    }
  }

  // ---- Conservation --------------------------------------------------------------------------

  /** Everything reported as dropped is below the next expected number and was not delivered. */
  ghost predicate HonestReports(rs: seq<Record>, bufferId: u32, k: Stream) {
    forall x: nat | Reported(rs, bufferId, k, x) :: x < Next(rs, k) && x !in Delivered(rs, k)
  }

  /** Delivered and lost numbers of a stream together make up everything below the next expected one. They partition
  it, and the two counts add up to it, exactly when every dropped range was reported honestly. */
  lemma Conservation(rs: seq<Record>, bufferId: u32, events: seq<LossEvent>, k: Stream)
    requires UnionOf(events, Inserted(rs, bufferId)) && forall e | e in events :: e.bufferId == bufferId
    ensures RangeSet(0, Next(rs, k)) <= Delivered(rs, k) + LostSet(events, k)
    ensures HonestReports(rs, bufferId, k)
            <==> Delivered(rs, k) !! LostSet(events, k)
                 && Delivered(rs, k) + LostSet(events, k) == RangeSet(0, Next(rs, k))
    ensures HonestReports(rs, bufferId, k) <==> |Delivered(rs, k)| + LostTotal(events, k) == Next(rs, k)
  {
    hide Next, Delivered, LostSet, LostTotal, InRanges, Reported, Inserted, UnionOf;
    var d, l, all := Delivered(rs, k), LostSet(events, k), RangeSet(0, Next(rs, k));
    forall x: nat
      ensures x in l <==> (x in all && x !in d) || Reported(rs, bufferId, k, x)
      ensures x in d ==> x in all
    {
      LostPoints(events, Inserted(rs, bufferId), k, x);
      InsertedPoints(rs, bufferId, k, x);
      DeliveredBelow(rs, k, x);
    }
    UnionApart(events, Inserted(rs, bufferId));
    LostSize(events, k, bufferId);
    Covering(d, l, all);
    assert HonestReports(rs, bufferId, k) <==> l == all - d by {
      forall x: nat
        ensures Reported(rs, bufferId, k, x) ==> x in l
      {
      }
    }
  }

  /** Two sets that cover a third, one of them within it, partition it exactly when the sizes add up. */
  lemma Covering(d: set<nat>, l: set<nat>, all: set<nat>)
    requires d <= all && all - d <= l
    ensures all <= d + l
    ensures l == all - d <==> d !! l && d + l == all
    ensures l == all - d <==> |d| + |l| == |all|
  {
    assert (all - d) + d == all;
    assert |all - d| + |d| == |all|;
    Subset(all - d, l);
  }

  lemma Subset(a: set<nat>, b: set<nat>)
    requires a <= b
    ensures |a| <= |b| && (|a| == |b| ==> a == b)
  {
    assert b == a + (b - a);
    assert |b| == |a| + |b - a|;
  }

  /** Without any accepted `RecordsDropped` the law holds unconditionally. */
  lemma NoReports(rs: seq<Record>, bufferId: u32, k: Stream)
    requires forall r | r in rs :: ParseRecordsDropped(r, bufferId).None?
    ensures HonestReports(rs, bufferId, k)
  {
    forall x: nat
      ensures !Reported(rs, bufferId, k, x)
    {
      forall i | 0 <= i < |rs|
        ensures !Reports(rs[i], bufferId, k, x)
      {
        assert rs[i] in rs;
      }
    }
  }

  // ---- The tracker ------------------------------------------------------------------------------

  function Get(m: map<Stream, nat>, k: Stream): nat {
    if k in m then m[k] else 0
  }

  /** The two maps show the next expected number and the number of deliveries of every stream. */
  ghost predicate Counts(next: map<Stream, nat>, delivered: map<Stream, nat>, rs: seq<Record>) {
    forall k :: Get(next, k) == Next(rs, k) && Get(delivered, k) == |Accounting.Delivered(rs, k)|
  }

  // ---- Inferred and attested losses ---------------------------------------------------------------

  /** An event is synthetic exactly when no record vouches for any of its numbers: neither a checkpoint directly behind
  a gap nor a report that is not itself synthetic. */
  lemma SyntheticMeans(rs: seq<Record>, bufferId: u32, events: seq<LossEvent>, e: LossEvent)
    requires UnionOf(events, Inserted(rs, bufferId)) && e in events
    ensures !e.synthetic
            <==> exists x: nat :: Has(e, x) && Attested(rs, bufferId, Stream(e.runId, e.sourceId), x)
  {
    hide Attested, InSolidRange, UnionOf, Inserted;
    var ranges, k := Inserted(rs, bufferId), Stream(e.runId, e.sourceId);
    InsertedProper(rs, bufferId);
    SolidEvent(events, ranges, e, bufferId);
    forall x: nat
      ensures InSolidRange(ranges, k, x) <==> Attested(rs, bufferId, k, x)
    {
      SolidPoints(rs, bufferId, k, x);
    }
  }

  lemma SolidEvent(events: seq<LossEvent>, ranges: set<LossEvent>, e: LossEvent, bufferId: u32)
    requires UnionOf(events, ranges) && e in events
    requires forall i | i in ranges :: Proper(i) && i.bufferId == bufferId
    ensures !e.synthetic <==> exists x: nat :: Has(e, x) && InSolidRange(ranges, Stream(e.runId, e.sourceId), x)
  {
    var k := Stream(e.runId, e.sourceId);
    OneBuffer(events, ranges, bufferId);
    if !e.synthetic {
      var i :| i in ranges && Holds(e, i) && !i.synthetic;
      assert Has(e, i.firstSeq) && Has(i, i.firstSeq) && InSolidRange(ranges, k, i.firstSeq);
    }
    if x: nat :| Has(e, x) && InSolidRange(ranges, k, x) {
      var i :| i in ranges && !i.synthetic && Of(i, k) && Has(i, x);
      assert HeldBy(events, i);
      var d :| d in events && Holds(d, i);
      NoneBetween(events, d, e);
    }
  }

  /** Without checkpoints and reports every loss is inferred. */
  lemma AllInferred(rs: seq<Record>, bufferId: u32, events: seq<LossEvent>, e: LossEvent)
    requires UnionOf(events, Inserted(rs, bufferId)) && e in events
    requires forall r | r in rs ::
               r.eventTypeId != EVENT_SOURCE_HIGH_WATER && r.eventTypeId != EVENT_RECORDS_DROPPED
    ensures e.synthetic
  {
    hide UnionOf, Inserted;
    SyntheticMeans(rs, bufferId, events, e);
    if x: nat :| Has(e, x) && Attested(rs, bufferId, Stream(e.runId, e.sourceId), x) {
      var i: nat :| i < |rs| && Vouches(rs, bufferId, Stream(e.runId, e.sourceId), x, i);
      Voucher(rs, bufferId, Stream(e.runId, e.sourceId), x, i);
    }
  }

  /** Only checkpoints and reports vouch. */
  lemma Voucher(rs: seq<Record>, bufferId: u32, k: Stream, x: nat, i: nat)
    requires i < |rs| && Vouches(rs, bufferId, k, x, i)
    ensures rs[i] in rs
            && (rs[i].eventTypeId == EVENT_SOURCE_HIGH_WATER || rs[i].eventTypeId == EVENT_RECORDS_DROPPED)
  {
  }

  class LossTracker {
    const bufferId: u32
    var nextSeqBySource: map<Stream, nat>
    var deliveredBySource: map<Stream, nat>
    var lossEvents: seq<LossEvent>
    /** Every range inserted so far. */
    ghost var inserted: set<LossEvent>

    /** The events are the interval union of everything inserted. */
    ghost predicate Merged()
      reads this
    {
      UnionOf(lossEvents, inserted) && forall e | e in inserted :: Proper(e) && e.bufferId == bufferId
    }

    /** The tracker shows what accounting the records `rs` means. */
    ghost predicate Accounts(rs: seq<Record>)
      reads this
    {
      && Merged() && inserted == Inserted(rs, bufferId) && Counts(nextSeqBySource, deliveredBySource, rs)
    }

    constructor (bufferId: u32)
      ensures this.bufferId == bufferId && Accounts([]) && inserted == {}
    {
      this.bufferId := bufferId;
      nextSeqBySource, deliveredBySource, lossEvents, inserted := map[], map[], [], {};
    }

    /** Takes out the intervals that the event touches, merges them with it, and puts the result back. */
    method InsertLossEvent(event: LossEvent)
      requires Merged() && Proper(event) && event.bufferId == bufferId
      modifies this`lossEvents, this`inserted
      ensures Merged() && inserted == old(inserted) + {event}
    {
      hide UnionOf, Split, Bundle, Hull;
      ghost var events, ranges := lossEvents, inserted;
      var kept, intervals := Retain(lossEvents, event, ranges);
      var sorted := SortBy(intervals + [event], FirstLe);
      Bundled(events, ranges, event, kept, intervals, sorted);
      var merged := MergeSorted(sorted, event);
      InsertUnion(events, ranges, event, kept, sorted, merged[0]);
      lossEvents := kept + merged;
      inserted := inserted + {event};
      assert merged == [merged[0]];
    }

    /** Accounts one record: a checkpoint or a jump closes a gap, an authoritative report adds its range. */
    method Account(r: Record, ghost rs: seq<Record>)
      requires Accounts(rs)
      modifies this
      ensures Accounts(rs + [r])
    {
      hide UnionOf, Added, ParseRecordsDropped, Counts, Gaps;
      var k := StreamOf(r);
      CountsStep(nextSeqBySource, deliveredBySource, rs, r, bufferId);
      var expected := Get(nextSeqBySource, k);
      AddedIs(r, bufferId, expected);
      InsertGaps(r, expected);
      if r.seqNo >= expected {
        deliveredBySource := deliveredBySource[k := Get(deliveredBySource, k) + 1];
        nextSeqBySource := nextSeqBySource[k := r.seqNo + 1];
      }
      var dropped := ParseRecordsDropped(r, bufferId);
      if dropped.Some? {
        InsertLossEvent(dropped.value);
      }
    }

    /** The part of `Account` that turns a checkpoint or a jump into loss events. */
    method InsertGaps(r: Record, expected: nat)
      requires Merged()
      modifies this`lossEvents, this`inserted
      ensures Merged() && inserted == old(inserted) + Gaps(r, bufferId, expected)
    {
      hide UnionOf;
      var highWater := ParseSourceHighWater(r);
      if highWater.Some? && highWater.value > expected {
        InsertLossEvent(LossEvent(bufferId, r.runId, r.sourceId, expected, highWater.value - 1,
                                  highWater.value - expected, false));
      }
      if r.seqNo > expected {
        var first, last := expected, r.seqNo - 1;
        InsertLossEvent(LossEvent(bufferId, r.runId, r.sourceId, first, last, last - first + 1, true));
      }
    }

    /** Number of records of a stream delivered. */
    method DeliveredCount(k: Stream, ghost rs: seq<Record>) returns (n: nat)
      requires Accounts(rs)
      ensures n == |Accounting.Delivered(rs, k)|
    {
      n := Get(deliveredBySource, k);
    }

    /** Number of records of a stream known to be lost. */
    method Lost(k: Stream) returns (n: nat)
      requires Merged()
      ensures n == LostTotal(lossEvents, k) == |LostSet(lossEvents, k)|
    {
      n := 0;
      for i := 0 to |lossEvents|
        invariant n == LostTotal(lossEvents[..i], k)
      {
        assert lossEvents[..i + 1][..i] == lossEvents[..i];
        if Of(lossEvents[i], k) {
          n := n + lossEvents[i].count;
        }
      }
      assert lossEvents[..|lossEvents|] == lossEvents;
      OneBuffer(lossEvents, inserted, bufferId);
      LostSize(lossEvents, k, bufferId);
    }

    /** The loss intervals in report order. */
    method LossEvents() returns (events: seq<LossEvent>)
      requires Merged()
      ensures events == SortBy(lossEvents, ReportLe)
      ensures UnionOf(events, inserted) && SortedBy(events, ReportLe)
    {
      events := SortBy(lossEvents, ReportLe);
      ReportOrder();
      SortSorted(lossEvents, ReportLe);
      UnionPermuted(lossEvents, events, inserted);
    }
  }

  /** The `retain` pass: what the event merges with is taken out, the rest is kept in order. */
  method Retain(events: seq<LossEvent>, event: LossEvent, ghost ranges: set<LossEvent>)
    returns (kept: seq<LossEvent>, intervals: seq<LossEvent>)
    requires UnionOf(events, ranges)
    ensures Split(events, event, kept, intervals + [event])
  {
    hide UnionOf;
    assert Apart(events) by { UnionApart(events, ranges); }
    kept, intervals := [], [];
    for i := 0 to |events|
      invariant Apart(kept)
      invariant forall e :: e in kept <==> e in events[..i] && !Merges(e, event)
      invariant forall e :: e in intervals <==> e in events[..i] && Merges(e, event)
    {
      assert events[..i + 1] == events[..i] + [events[i]];
      var existing := events[i];
      if SameLossStream(existing, event) && RangesTouchOrOverlap(existing, event) {
        intervals := intervals + [existing];
      } else {
        forall a | 0 <= a < |kept|
          ensures !Merges(kept[a], existing)
        {
          assert kept[a] in kept;
          assert kept[a] in events[..i];
          var j :| 0 <= j < i && events[j] == kept[a];
        }
        kept := kept + [existing];
      }
    }
    assert events[..|events|] == events;
  }

  lemma UnionApart(events: seq<LossEvent>, ranges: set<LossEvent>)
    requires UnionOf(events, ranges)
    ensures Apart(events) && forall e | e in events :: Proper(e)
  {
  }

  /** The sorted intervals are a bundle around the event and still the same split. */
  lemma Bundled(events: seq<LossEvent>, ranges: set<LossEvent>, event: LossEvent, kept: seq<LossEvent>,
                intervals: seq<LossEvent>, sorted: seq<LossEvent>)
    requires UnionOf(events, ranges) && Proper(event) && Split(events, event, kept, intervals + [event])
    requires sorted == SortBy(intervals + [event], FirstLe)
    ensures Bundle(sorted, event) && Split(events, event, kept, sorted)
  {
    hide UnionOf, SortBy;
    UnionApart(events, ranges);
    FirstOrder();
    SortSorted(intervals + [event], FirstLe);
    forall e
      ensures e in sorted <==> e in intervals + [event]
    {
      SortMembers(intervals + [event], FirstLe, e);
    }
  }

  lemma AddedIs(r: Record, bufferId: u32, expected: nat)
    ensures Added(r, bufferId, expected)
            == Gaps(r, bufferId, expected) + match ParseRecordsDropped(r, bufferId) case Some(e) => {e} case None => {}
  {
  }

  /** What one more record does to the accounts. */
  lemma CountsStep(next: map<Stream, nat>, delivered: map<Stream, nat>, rs: seq<Record>, r: Record, bufferId: u32)
    requires Counts(next, delivered, rs)
    ensures Get(next, StreamOf(r)) == Next(rs, StreamOf(r))
    ensures Inserted(rs + [r], bufferId) == Inserted(rs, bufferId) + Added(r, bufferId, Next(rs, StreamOf(r)))
    ensures var k := StreamOf(r);
            if r.seqNo >= Next(rs, k)
            then Counts(next[k := r.seqNo + 1], delivered[k := Get(delivered, k) + 1], rs + [r])
            else Counts(next, delivered, rs + [r])
  {
    hide Added, Next, Accounting.Delivered, Inserted;
    assert Inserted(rs + [r], bufferId) == Inserted(rs, bufferId) + Added(r, bufferId, Next(rs, StreamOf(r))) by {
      InsertedStep(rs, r, bufferId);
    }
    forall k
      ensures var isNew := k == StreamOf(r) && r.seqNo >= Next(rs, k);
              && Next(rs + [r], k) == (if isNew then r.seqNo + 1 else Next(rs, k))
              && |Accounting.Delivered(rs + [r], k)| == |Accounting.Delivered(rs, k)| + if isNew then 1 else 0
    {
      StreamStep(rs, r, k);
    }
  }

  lemma InsertedStep(rs: seq<Record>, r: Record, bufferId: u32)
    ensures Inserted(rs + [r], bufferId) == Inserted(rs, bufferId) + Added(r, bufferId, Next(rs, StreamOf(r)))
  {
    hide Added;
    assert (rs + [r])[..|rs|] == rs;
  }

  lemma StreamStep(rs: seq<Record>, r: Record, k: Stream)
    ensures var isNew := k == StreamOf(r) && r.seqNo >= Next(rs, k);
            && Next(rs + [r], k) == (if isNew then r.seqNo + 1 else Next(rs, k))
            && Accounting.Delivered(rs + [r], k) == Accounting.Delivered(rs, k) + (if isNew then {r.seqNo} else {})
            && |Accounting.Delivered(rs + [r], k)| == |Accounting.Delivered(rs, k)| + if isNew then 1 else 0
  {
    assert (rs + [r])[..|rs|] == rs;
    DeliveredBelow(rs, k, r.seqNo);
  }

  lemma OneBuffer(events: seq<LossEvent>, ranges: set<LossEvent>, bufferId: u32)
    requires UnionOf(events, ranges) && forall e | e in ranges :: e.bufferId == bufferId
    ensures forall e | e in events :: Proper(e) && e.bufferId == bufferId
  {
    forall e | e in events
      ensures e.bufferId == bufferId
    {
      assert Has(e, e.firstSeq);
      assert Backed(ranges, e, e.firstSeq);
    }
  }

  /** The order in which a union is listed does not matter. */
  lemma UnionPermuted(events: seq<LossEvent>, f: seq<LossEvent>, ranges: set<LossEvent>)
    requires UnionOf(events, ranges) && multiset(events) == multiset(f)
    ensures UnionOf(f, ranges)
  {
    forall e
      ensures e in f <==> e in events
    {
      assert e in f <==> e in multiset(f);
      assert e in events <==> e in multiset(events);
    }
    UnionStrict(events, ranges);
    NoRepeats(events, f);
    forall a, b | 0 <= a < b < |f|
      ensures !Merges(f[a], f[b])
    {
      if Merges(f[a], f[b]) {
        assert f[a] in f && f[b] in f;
        NoneBetween(events, f[a], f[b]);
      }
    }
    forall i | i in ranges
      ensures HeldBy(f, i)
    {
      assert HeldBy(events, i);
    }
  }

  // ---- Order independence ---------------------------------------------------------------------------

  /** Inserts the ranges in the given order and reports. */
  method ReportOf(ranges: seq<LossEvent>, bufferId: u32) returns (report: seq<LossEvent>)
    requires forall e | e in ranges :: Proper(e) && e.bufferId == bufferId
    ensures UnionOf(report, set e | e in ranges) && SortedBy(report, ReportLe)
  {
    hide UnionOf, SortBy, SortedBy;
    var tracker := new LossTracker(bufferId);
    for i := 0 to |ranges|
      invariant fresh(tracker) && tracker.bufferId == bufferId && tracker.Merged()
      invariant tracker.inserted == set e | e in ranges[..i]
    {
      assert ranges[i] in ranges;
      tracker.InsertLossEvent(ranges[i]);
      assert ranges[..i + 1] == ranges[..i] + [ranges[i]];
    }
    assert ranges[..|ranges|] == ranges;
    report := tracker.LossEvents();
  }

  /** The report depends only on which ranges were inserted, not on their order or on repetitions. */
  lemma OrderIndependent(ranges: set<LossEvent>, report: seq<LossEvent>, report': seq<LossEvent>)
    requires UnionOf(report, ranges) && SortedBy(report, ReportLe)
    requires UnionOf(report', ranges) && SortedBy(report', ReportLe)
    ensures report == report'
  {
    hide UnionOf, Strict, SortedBy;
    UnionUnique(report, report', ranges);
    UnionStrict(report, ranges);
    UnionStrict(report', ranges);
    SortedUnique(report, report');
  }

  // ---- Authoritative reports ---------------------------------------------------------------------------

  /** `records_dropped_record`; the count field keeps only the low 32 bits. */
  function RecordsDroppedRecord(seqNo: u64, runId: u64, sourceId: u32, first: u64, last: u64): Record
    requires first <= last && 1_780_000_000_000_000_000 + seqNo <= 0xFFFF_FFFF_FFFF_FFFF
  {
    Record(0, 1_780_000_000_000_000_000 + seqNo, runId, seqNo, sourceId, EVENT_RECORDS_DROPPED,
           [Slot(KEY_DROPPED_COUNT, TY_UDINT, ToLe((last - first + 1) % 0x1_0000_0000, 4)),
            Slot(KEY_FIRST_LOST_SEQ, TY_ULINT, ToLe(first, 8)),
            Slot(KEY_LAST_LOST_SEQ, TY_ULINT, ToLe(last, 8))])
  }

  /** A reported range is read back as itself exactly when its count fits 32 bits; a longer one is dropped silently. */
  lemma ReportRoundTrip(seqNo: u64, runId: u64, sourceId: u32, first: u64, last: u64, bufferId: u32)
    requires first <= last && 1_780_000_000_000_000_000 + seqNo <= 0xFFFF_FFFF_FFFF_FFFF
    ensures ParseRecordsDropped(RecordsDroppedRecord(seqNo, runId, sourceId, first, last), bufferId)
            == if last - first + 1 <= 0xFFFF_FFFF
               then Some(LossEvent(bufferId, runId, sourceId, first, last, last - first + 1, false)) else None
    ensures var r := RecordsDroppedRecord(seqNo, runId, sourceId, first, last);
            r.flags == 0 && r.seqNo == seqNo && r.sourceTime == 1_780_000_000_000_000_000 + seqNo
  {
    hide ToLe, FromLe;
    Widths();
    var r := RecordsDroppedRecord(seqNo, runId, sourceId, first, last);
    var count := (last - first + 1) % 0x1_0000_0000;
    FromToLe(count, 4);
    FromToLe(first, 8);
    FromToLe(last, 8);
    assert r.slots[..2] == [r.slots[0], r.slots[1]] && r.slots[..2][..1] == [r.slots[0]];
    assert LastPayload(r.slots, KEY_LAST_LOST_SEQ, 8) == Some(ToLe(last, 8));
    assert LastPayload(r.slots, KEY_FIRST_LOST_SEQ, 8) == LastPayload(r.slots[..2], KEY_FIRST_LOST_SEQ, 8);
    assert LastPayload(r.slots, KEY_DROPPED_COUNT, 4) == LastPayload(r.slots[..2], KEY_DROPPED_COUNT, 4);
    assert LastPayload(r.slots[..2], KEY_DROPPED_COUNT, 4) == LastPayload(r.slots[..2][..1], KEY_DROPPED_COUNT, 4);
  }
}
