/** Loss accounting as a function of the records accounted: what is expected next, what was delivered, what is lost. */
module Accounting {
  import opened Bytes
  import opened Wire
  import opened Registry
  import opened Intervals

  /** One source of one run. */
  datatype Stream = Stream(runId: u64, sourceId: u32)

  function StreamOf(r: Record): Stream {
    Stream(r.runId, r.sourceId)
  }

  predicate Of(e: LossEvent, k: Stream) {
    e.runId == k.runId && e.sourceId == k.sourceId
  }

  // ---- Parsers --------------------------------------------------------------------------

  /** Payload of the last slot with the given key and width. */
  function LastPayload(slots: seq<Slot>, key: u16, width: nat): (p: Option<seq<byte>>)
    ensures p.Some? ==> |p.value| == width
  {
    if slots == [] then None
    else
      var n := |slots| - 1;
      if slots[n].key == key && |slots[n].payload| == width then Some(slots[n].payload)
      else LastPayload(slots[..n], key, width)
  }

  /** Slot `i` is the last with this key and width, and carries the number `n`. */
  predicate LastAt(slots: seq<Slot>, key: u16, width: nat, n: nat, i: nat) {
    && i < |slots| && slots[i].key == key && |slots[i].payload| == width && FromLe(slots[i].payload) == n
    && forall j | i < j < |slots| :: !(slots[j].key == key && |slots[j].payload| == width)
  }

  /** What is found is the payload of the last such slot, if there is one. */
  lemma {:induction false} LastPayloadAt(slots: seq<Slot>, key: u16, width: nat, n: nat)
    ensures LastPayload(slots, key, width).Some? && FromLe(LastPayload(slots, key, width).value) == n
            <==> exists i: nat :: LastAt(slots, key, width, n, i)
  {
    if slots == [] {
    } else {
      var m := |slots| - 1;
      LastPayloadAt(slots[..m], key, width, n);
      if slots[m].key == key && |slots[m].payload| == width {
        assert LastAt(slots, key, width, FromLe(slots[m].payload), m);
      } else {
        if i: nat :| LastAt(slots, key, width, n, i) {
          assert LastAt(slots[..m], key, width, n, i);
        }
        if i: nat :| LastAt(slots[..m], key, width, n, i) {
          assert LastAt(slots, key, width, n, i);
        }
      }
    }
  }

  /** The range an authoritative `RecordsDropped` record reports; a malformed one reports nothing. */
  function ParseRecordsDropped(r: Record, bufferId: u32): (e: Option<LossEvent>)
    ensures e.Some? ==> Proper(e.value) && Of(e.value, StreamOf(r)) && e.value.bufferId == bufferId
  {
    if r.eventTypeId != EVENT_RECORDS_DROPPED then None
    else
      var count := LastPayload(r.slots, KEY_DROPPED_COUNT, 4);
      var first := LastPayload(r.slots, KEY_FIRST_LOST_SEQ, 8);
      var last := LastPayload(r.slots, KEY_LAST_LOST_SEQ, 8);
      if first.None? || last.None? || count.None? then None
      else
        var f, l, c := FromLe(first.value), FromLe(last.value), FromLe(count.value);
        if l < f || c != l - f + 1 then None
        else Some(LossEvent(bufferId, r.runId, r.sourceId, f, l, c, r.flags / FLAG_SYNTHETIC % 2 == 1))
  }

  /** A record reports a range exactly when it is a `RecordsDropped` whose last well-formed count, first and last number
  are those of the range and agree with each other; the report is synthetic exactly when bit 1 of the flags is set. */
  lemma DroppedMeans(r: Record, bufferId: u32, e: LossEvent)
    ensures ParseRecordsDropped(r, bufferId) == Some(e)
            <==> && r.eventTypeId == EVENT_RECORDS_DROPPED
                 && (exists i: nat :: LastAt(r.slots, KEY_DROPPED_COUNT, 4, e.count, i))
                 && (exists i: nat :: LastAt(r.slots, KEY_FIRST_LOST_SEQ, 8, e.firstSeq, i))
                 && (exists i: nat :: LastAt(r.slots, KEY_LAST_LOST_SEQ, 8, e.lastSeq, i))
                 && e.firstSeq <= e.lastSeq && e.count == e.lastSeq - e.firstSeq + 1
                 && e.bufferId == bufferId && e.runId == r.runId && e.sourceId == r.sourceId
                 && e.synthetic == (r.flags / 2 % 2 == 1)
  {
    hide LastPayload, LastAt, FromLe;
    LastPayloadAt(r.slots, KEY_DROPPED_COUNT, 4, e.count);
    LastPayloadAt(r.slots, KEY_FIRST_LOST_SEQ, 8, e.firstSeq);
    LastPayloadAt(r.slots, KEY_LAST_LOST_SEQ, 8, e.lastSeq);
  }

  /** Some slot carries the record's own sequence number as a high-water mark. */
  predicate IsHighWater(r: Record) {
    && r.eventTypeId == EVENT_SOURCE_HIGH_WATER
    && exists i :: 0 <= i < |r.slots| && MarksHighWater(r.slots[i], r.seqNo)
  }

  predicate MarksHighWater(slot: Slot, seqNo: nat) {
    slot.key == KEY_SOURCE_HIGH_WATER && |slot.payload| == 8 && FromLe(slot.payload) == seqNo
  }

  /** The produced count of a source checkpoint, taken only when it is the record's own sequence number. */
  method ParseSourceHighWater(r: Record) returns (produced: Option<nat>)
    ensures produced == if IsHighWater(r) then Some(r.seqNo) else None
  {
    if r.eventTypeId != EVENT_SOURCE_HIGH_WATER {
      return None;
    }
    for i := 0 to |r.slots|
      invariant forall j | 0 <= j < i :: !MarksHighWater(r.slots[j], r.seqNo)
    {
      var slot := r.slots[i];
      if slot.key != KEY_SOURCE_HIGH_WATER || |slot.payload| != 8 {
        continue;
      }
      var count := FromLe(slot.payload);
      if count == r.seqNo {
        return Some(count);
      }
    }
    produced := None;
  }

  // ---- Accounting as a fold ------------------------------------------------------------------

  /** The sequence number expected next. */
  function Next(rs: seq<Record>, k: Stream): nat {
    if rs == [] then 0
    else
      var n := |rs| - 1;
      var before := Next(rs[..n], k);
      if StreamOf(rs[n]) == k && rs[n].seqNo >= before then rs[n].seqNo + 1 else before
  }

  /** The sequence numbers counted as delivered; a repeated or backward one is not. */
  function Delivered(rs: seq<Record>, k: Stream): set<nat> {
    if rs == [] then {}
    else
      var n := |rs| - 1;
      Delivered(rs[..n], k)
      + if StreamOf(rs[n]) == k && rs[n].seqNo >= Next(rs[..n], k) then {rs[n].seqNo} else {}
  }

  function Gap(r: Record, bufferId: u32, expected: nat, synthetic: bool): LossEvent
    requires r.seqNo > expected
  {
    LossEvent(bufferId, r.runId, r.sourceId, expected, r.seqNo - 1, r.seqNo - expected, synthetic)
  }

  /** The gap before a record, twice when the record is a checkpoint. */
  function Gaps(r: Record, bufferId: u32, expected: nat): set<LossEvent> {
    (if IsHighWater(r) && r.seqNo > expected then {Gap(r, bufferId, expected, false)} else {})
    + (if r.seqNo > expected then {Gap(r, bufferId, expected, true)} else {})
  }

  /** The ranges one record adds: the gap before it and what it reports as dropped. */
  function Added(r: Record, bufferId: u32, expected: nat): set<LossEvent> {
    Gaps(r, bufferId, expected)
    + match ParseRecordsDropped(r, bufferId) case Some(e) => {e} case None => {}
  }

  /** Every range inserted while accounting. */
  function Inserted(rs: seq<Record>, bufferId: u32): set<LossEvent> {
    if rs == [] then {}
    else
      var n := |rs| - 1;
      Inserted(rs[..n], bufferId) + Added(rs[n], bufferId, Next(rs[..n], StreamOf(rs[n])))
  }

  /** Sequence number `x` of stream `k` is in one of the ranges. */
  ghost predicate InRanges(ranges: set<LossEvent>, k: Stream, x: nat) {
    exists e :: e in ranges && Of(e, k) && Has(e, x)
  }

  /** Some accounted record reports `x` of stream `k` as dropped. */
  ghost predicate Reported(rs: seq<Record>, bufferId: u32, k: Stream, x: nat) {
    exists i | 0 <= i < |rs| :: Reports(rs[i], bufferId, k, x)
  }

  predicate Reports(r: Record, bufferId: u32, k: Stream, x: nat) {
    var e := ParseRecordsDropped(r, bufferId);
    e.Some? && Of(e.value, k) && Has(e.value, x)
  }

  /** Only what is below the next expected number can have been delivered. */
  lemma {:induction false} DeliveredBelow(rs: seq<Record>, k: Stream, x: nat)
    ensures x in Delivered(rs, k) ==> x < Next(rs, k)
  {
    if rs == [] {
    } else {
      DeliveredBelow(rs[..|rs| - 1], k, x);
    }
  }

  /** The next expected number is one more than the largest of the stream's numbers; that one was delivered. */
  lemma {:induction false} NextIsPastLargest(rs: seq<Record>, k: Stream, i: nat)
    ensures i < |rs| && StreamOf(rs[i]) == k ==> rs[i].seqNo < Next(rs, k)
    ensures Next(rs, k) > 0 ==> Next(rs, k) - 1 in Delivered(rs, k)
  {
    if rs == [] {
    } else {
      var n := |rs| - 1;
      NextIsPastLargest(rs[..n], k, i);
    }
  }

  /** What one record adds to the ranges of a stream. */
  lemma AddedPoints(r: Record, bufferId: u32, k: Stream, expected: nat, x: nat)
    ensures InRanges(Added(r, bufferId, expected), k, x)
            <==> (StreamOf(r) == k && expected <= x < r.seqNo) || Reports(r, bufferId, k, x)
  {
    var added := Added(r, bufferId, expected);
    if r.seqNo > expected {
      assert Gap(r, bufferId, expected, true) in added;
    }
    var e := ParseRecordsDropped(r, bufferId);
    if e.Some? {
      assert e.value in added;
    }
  }

  lemma InEither(a: set<LossEvent>, b: set<LossEvent>, k: Stream, x: nat)
    ensures InRanges(a + b, k, x) <==> InRanges(a, k, x) || InRanges(b, k, x)
  {
    forall e | e in a || e in b
      ensures e in a + b
    {
    }
  }

  lemma ReportedStep(rs: seq<Record>, bufferId: u32, k: Stream, x: nat)
    requires rs != []
    ensures Reported(rs, bufferId, k, x)
            <==> Reported(rs[..|rs| - 1], bufferId, k, x) || Reports(rs[|rs| - 1], bufferId, k, x)
  {
    hide Reports;
    var n := |rs| - 1;
    assert forall i | 0 <= i < n :: rs[..n][i] == rs[i];
  }

  /** The inserted ranges cover exactly the numbers skipped below the next expected one, and whatever was reported as
  dropped. */
  lemma {:induction false} InsertedPoints(rs: seq<Record>, bufferId: u32, k: Stream, x: nat)
    ensures InRanges(Inserted(rs, bufferId), k, x)
            <==> (x < Next(rs, k) && x !in Delivered(rs, k)) || Reported(rs, bufferId, k, x)
  {
    hide InRanges, Reported, Reports, Added;
    if rs == [] {
      assert !InRanges({}, k, x) && !Reported([], bufferId, k, x) by { NothingYet(bufferId, k, x); }
    } else {
      var n := |rs| - 1;
      var before, r := rs[..n], rs[n];
      InsertedPoints(before, bufferId, k, x);
      InEither(Inserted(before, bufferId), Added(r, bufferId, Next(before, StreamOf(r))), k, x);
      AddedPoints(r, bufferId, k, Next(before, StreamOf(r)), x);
      ReportedStep(rs, bufferId, k, x);
      DeliveredBelow(before, k, x);
    }
  }

  lemma NothingYet(bufferId: u32, k: Stream, x: nat)
    ensures !InRanges({}, k, x) && !Reported([], bufferId, k, x)
  {
  }

  lemma {:induction false} InsertedProper(rs: seq<Record>, bufferId: u32)
    ensures forall e | e in Inserted(rs, bufferId) :: Proper(e) && e.bufferId == bufferId
  {
    if rs == [] {
    } else {
      InsertedProper(rs[..|rs| - 1], bufferId);
    }
  }

  // ---- What the flags mean ----------------------------------------------------------------------

  /** All earlier numbers of the stream are below `x`. */
  predicate AllBelow(rs: seq<Record>, k: Stream, x: nat, n: nat)
    requires n <= |rs|
  {
    forall j | 0 <= j < n && StreamOf(rs[j]) == k :: rs[j].seqNo < x
  }

  /** Number `x` of stream `k` was skipped directly before record `i`. */
  predicate SkippedBefore(rs: seq<Record>, k: Stream, x: nat, i: nat) {
    i < |rs| && StreamOf(rs[i]) == k && x < rs[i].seqNo && AllBelow(rs, k, x, i)
  }

  /** The number expected next is the least above all numbers of the stream. */
  lemma {:induction false} NextAtMost(rs: seq<Record>, k: Stream, x: nat)
    ensures Next(rs, k) <= x <==> AllBelow(rs, k, x, |rs|)
  {
    if rs == [] {
    } else {
      var n := |rs| - 1;
      NextAtMost(rs[..n], k, x);
      assert forall j | 0 <= j < n :: rs[..n][j] == rs[j];
    }
  }

  /** Record `i` carried number `x` of stream `k`, and all earlier numbers of the stream were lower. */
  predicate FirstCarries(rs: seq<Record>, k: Stream, x: nat, i: nat) {
    i < |rs| && StreamOf(rs[i]) == k && rs[i].seqNo == x && AllBelow(rs, k, x, i)
  }

  /** A number counts as delivered exactly when some record carried it and all earlier numbers of its stream were
  lower. */
  lemma {:induction false} DeliveredMeans(rs: seq<Record>, k: Stream, x: nat)
    ensures x in Delivered(rs, k) <==> exists i: nat :: FirstCarries(rs, k, x, i)
  {
    hide FirstCarries;
    if rs == [] {
      forall i: nat
        ensures !FirstCarries(rs, k, x, i)
      {
        CarriesIn(rs, k, x, i);
      }
    } else {
      var n := |rs| - 1;
      DeliveredMeans(rs[..n], k, x);
      CarriesLast(rs, k, x);
      if i: nat :| FirstCarries(rs[..n], k, x, i) {
        CarriesIn(rs[..n], k, x, i);
        CarriesStep(rs, k, x, i);
      }
      if i: nat :| FirstCarries(rs, k, x, i) && i != n {
        CarriesIn(rs, k, x, i);
        CarriesStep(rs, k, x, i);
      }
    }
  }

  lemma CarriesIn(rs: seq<Record>, k: Stream, x: nat, i: nat)
    ensures FirstCarries(rs, k, x, i) ==> i < |rs|
  {
  }

  lemma CarriesStep(rs: seq<Record>, k: Stream, x: nat, i: nat)
    requires i < |rs| - 1
    ensures FirstCarries(rs[..|rs| - 1], k, x, i) <==> FirstCarries(rs, k, x, i)
  {
    var n := |rs| - 1;
    assert forall j | 0 <= j < n :: rs[..n][j] == rs[j];
    assert AllBelow(rs[..n], k, x, i) <==> AllBelow(rs, k, x, i);
  }

  lemma CarriesLast(rs: seq<Record>, k: Stream, x: nat)
    requires rs != []
    ensures var n := |rs| - 1;
            FirstCarries(rs, k, x, n) <==> StreamOf(rs[n]) == k && rs[n].seqNo == x && Next(rs[..n], k) <= x
  {
    var n := |rs| - 1;
    NextAtMost(rs[..n], k, x);
    assert forall j | 0 <= j < n :: rs[..n][j] == rs[j];
    assert AllBelow(rs, k, x, n) <==> AllBelow(rs[..n], k, x, n);
  }

  /** Record `i` vouches for the loss of `x`: it checkpoints its own number just behind `x`, or reports `x` as dropped
  without marking the report as synthetic. */
  predicate Vouches(rs: seq<Record>, bufferId: u32, k: Stream, x: nat, i: nat)
    requires i < |rs|
  {
    || (SkippedBefore(rs, k, x, i) && IsHighWater(rs[i]))
    || (Reports(rs[i], bufferId, k, x) && rs[i].flags / 2 % 2 == 0)
  }

  /** Some record vouches for the loss of `x`. */
  ghost predicate Attested(rs: seq<Record>, bufferId: u32, k: Stream, x: nat) {
    exists i: nat | i < |rs| :: Vouches(rs, bufferId, k, x, i)
  }

  /** Some range that is not synthetic holds `x` of stream `k`. */
  ghost predicate InSolidRange(ranges: set<LossEvent>, k: Stream, x: nat) {
    exists e :: e in ranges && !e.synthetic && Of(e, k) && Has(e, x)
  }

  lemma SolidAdded(r: Record, bufferId: u32, k: Stream, expected: nat, x: nat)
    ensures InSolidRange(Added(r, bufferId, expected), k, x)
            <==> (StreamOf(r) == k && expected <= x < r.seqNo && IsHighWater(r))
                 || (Reports(r, bufferId, k, x) && r.flags / 2 % 2 == 0)
  {
    hide IsHighWater;
    var added := Added(r, bufferId, expected);
    if r.seqNo > expected && IsHighWater(r) {
      assert Gap(r, bufferId, expected, false) in added;
    }
    var e := ParseRecordsDropped(r, bufferId);
    if e.Some? {
      assert e.value in added;
      DroppedMeans(r, bufferId, e.value);
    }
  }

  lemma SolidEither(a: set<LossEvent>, b: set<LossEvent>, k: Stream, x: nat)
    ensures InSolidRange(a + b, k, x) <==> InSolidRange(a, k, x) || InSolidRange(b, k, x)
  {
    forall e | e in a || e in b
      ensures e in a + b
    {
    }
  }

  lemma VouchesStep(rs: seq<Record>, bufferId: u32, k: Stream, x: nat, i: nat)
    requires i < |rs| - 1
    ensures Vouches(rs[..|rs| - 1], bufferId, k, x, i) <==> Vouches(rs, bufferId, k, x, i)
  {
    hide IsHighWater, Reports;
    var n := |rs| - 1;
    assert forall j | 0 <= j < n :: rs[..n][j] == rs[j];
    assert AllBelow(rs[..n], k, x, i) <==> AllBelow(rs, k, x, i);
  }

  /** The numbers in ranges that are not synthetic are exactly those some record vouches for. */
  lemma {:induction false} SolidPoints(rs: seq<Record>, bufferId: u32, k: Stream, x: nat)
    ensures InSolidRange(Inserted(rs, bufferId), k, x) <==> Attested(rs, bufferId, k, x)
  {
    hide InSolidRange, Reports, Added, IsHighWater;
    if rs == [] {
      NothingSolid(k, x);
    } else {
      var n := |rs| - 1;
      var before, r := rs[..n], rs[n];
      SolidPoints(before, bufferId, k, x);
      SolidEither(Inserted(before, bufferId), Added(r, bufferId, Next(before, StreamOf(r))), k, x);
      SolidAdded(r, bufferId, k, Next(before, StreamOf(r)), x);
      NextAtMost(before, k, x);
      assert AllBelow(rs, k, x, n) <==> AllBelow(before, k, x, n);
      AttestedStep(rs, bufferId, k, x);
    }
  }

  lemma AttestedStep(rs: seq<Record>, bufferId: u32, k: Stream, x: nat)
    requires rs != []
    ensures var n := |rs| - 1;
            Attested(rs, bufferId, k, x)
            <==> Attested(rs[..n], bufferId, k, x) || Vouches(rs, bufferId, k, x, n)
  {
    hide Vouches;
    var n: nat := |rs| - 1;
    if i: nat :| i < n && Vouches(rs[..n], bufferId, k, x, i) {
      VouchesStep(rs, bufferId, k, x, i);
    }
    if Attested(rs, bufferId, k, x) && !Vouches(rs, bufferId, k, x, n) {
      var i: nat :| i < |rs| && Vouches(rs, bufferId, k, x, i);
      VouchesStep(rs, bufferId, k, x, i);
    }
  }

  lemma NothingSolid(k: Stream, x: nat)
    ensures !InSolidRange({}, k, x)
  {
  }
}
