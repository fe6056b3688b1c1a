/** The sidecar oracle predicts where every record lies; the batch observer is silent exactly on fault-free reads. */
module Conformance {
  import opened Bytes
  import opened Wire
  import opened Layout
  import opened Reads
  import opened Accounting
  import opened Reader

  datatype ExpectedRecord = ExpectedRecord(runId: u64, sourceId: u32, seqNo: u64, eventTypeId: u32, encodedLen: nat)

  datatype RecordKey = RecordKey(runId: u64, sourceId: u32, seqNo: u64, eventTypeId: u32)

  datatype ConformanceError =
    | ZeroCapacity
    | ZeroLength
    | ExceedsCapacity(encodedLen: nat, capacity: nat)
    | Duplicate(key: RecordKey)

  datatype ViolationKind = ExpectedAbsMismatch | UnexpectedRecord | DuplicateOrBackwardSeq | EventOrderMismatch

  datatype StaleViolation = StaleViolation(kind: ViolationKind, sourceId: u32, seqNo: u64, expectedAbs: nat,
                                           actualAbs: nat)

  function ExpectedKey(e: ExpectedRecord): RecordKey {
    RecordKey(e.runId, e.sourceId, e.seqNo, e.eventTypeId)
  }

  function KeyOfRecord(r: Record): RecordKey {
    RecordKey(r.runId, r.sourceId, r.seqNo, r.eventTypeId)
  }

  /** What the producer tells the oracle about an entry. */
  function Expect(e: Entry): ExpectedRecord {
    ExpectedRecord(e.record.runId, e.record.sourceId, e.record.seqNo, e.record.eventTypeId, |e.bytes|)
  }

  predicate DistinctKeys(h: seq<Entry>) {
    forall i, j | 0 <= i < j < |h| :: KeyOfRecord(h[i].record) != KeyOfRecord(h[j].record)
  }

  /** The map gives the true start of each of the first `n` entries, and of nothing else. */
  ghost predicate Predicts(expected: map<RecordKey, nat>, h: seq<Entry>, n: nat)
    requires n <= |h|
  {
    && (forall i | 0 <= i < n ::
          KeyOfRecord(h[i].record) in expected && expected[KeyOfRecord(h[i].record)] == h[i].start)
    && (forall k | k in expected :: exists i | 0 <= i < n :: k == KeyOfRecord(h[i].record))
  }

  // ---- Building the oracle ---------------------------------------------------------------

  /** Folds the placement rule over the expected records. For any laid-out history with distinct keys it succeeds and
  predicts every start. It never sees the history, only lengths and keys. An error names what is wrong with the first
  record that cannot be placed. */
  method BuildSidecar(capacity: nat, records: seq<ExpectedRecord>, ghost h: seq<Entry>)
    returns (res: Result<map<RecordKey, nat>, ConformanceError>)
    ensures res.Ok? <==> Acceptable(capacity, records)
    ensures res.Err? ==> Unplaceable(capacity, records, res.error)
    ensures Laid(capacity, h) && DistinctKeys(h) && |records| == |h|
            && (forall i | 0 <= i < |h| :: records[i] == Expect(h[i]))
            ==> res.Ok? && Predicts(res.value, h, |h|)
  {
    hide Laid, Predicts, Listed;
    if capacity == 0 {
      NoZero(h);
      return Err(ZeroCapacity);
    }
    ghost var good := Laid(capacity, h) && DistinctKeys(h) && |records| == |h|
                      && forall i | 0 <= i < |h| :: records[i] == Expect(h[i]);
    var expected: map<RecordKey, nat> := map[];
    var head: nat := 0;
    PredictsNone(h);
    ListedNone(capacity, records[..0]);
    for i := 0 to |records|
      invariant good ==> head == HeadAt(h, i) && Predicts(expected, h, i)
      invariant Listed(capacity, records[..i], expected)
    {
      var record := records[i];
      if good {
        PredictNext(capacity, h, i, expected, record);
      }
      ListedAcceptable(capacity, records[..i], expected);
      if record.encodedLen == 0 {
        return Err(ZeroLength);
      }
      if record.encodedLen > capacity {
        return Err(ExceedsCapacity(record.encodedLen, capacity));
      }
      var start := NextStart(capacity, head, record.encodedLen);
      var key := ExpectedKey(record);
      if key in expected {
        ListedMeans(capacity, records[..i], expected, key);
        assert exists j | 0 <= j < i :: ExpectedKey(records[..i][j]) == key;
        return Err(Duplicate(key));
      }
      ListedStep(capacity, records[..i], expected, record, start);
      assert records[..i + 1] == records[..i] + [record];
      expected := expected[key := start];
      head := start + record.encodedLen;
    }
    assert records[..|records|] == records;
    ListedAcceptable(capacity, records, expected);
    res := Ok(expected);
  }

  predicate Acceptable(capacity: nat, records: seq<ExpectedRecord>) {
    && capacity > 0
    && (forall i | 0 <= i < |records| :: 0 < records[i].encodedLen <= capacity)
    && (forall i, j | 0 <= i < j < |records| :: ExpectedKey(records[i]) != ExpectedKey(records[j]))
  }

  /** What an error says of the first record that cannot be placed is true. */
  ghost predicate Unplaceable(capacity: nat, records: seq<ExpectedRecord>, error: ConformanceError) {
    if capacity == 0 then error == ZeroCapacity
    else exists i | 0 <= i < |records| && Acceptable(capacity, records[..i]) :: Misfit(capacity, records, i, error)
  }

  /** What is wrong with record `i`: its length, or that its key occurred before. */
  predicate Misfit(capacity: nat, records: seq<ExpectedRecord>, i: nat, error: ConformanceError)
    requires i < |records|
  {
    if records[i].encodedLen == 0 then error == ZeroLength
    else if records[i].encodedLen > capacity then error == ExceedsCapacity(records[i].encodedLen, capacity)
    else
      && error == Duplicate(ExpectedKey(records[i]))
      && exists j | 0 <= j < i :: ExpectedKey(records[j]) == ExpectedKey(records[i])
  }

  lemma {:induction false} ListedMeans(capacity: nat, records: seq<ExpectedRecord>, expected: map<RecordKey, nat>,
                                       key: RecordKey)
    requires Listed(capacity, records, expected)
    ensures key in expected <==> exists i | 0 <= i < |records| :: ExpectedKey(records[i]) == key
  {
    if records == [] {
    } else {
      var n := |records| - 1;
      ListedMeans(capacity, records[..n], expected - {ExpectedKey(records[n])}, key);
      assert forall i | 0 <= i < n :: records[..n][i] == records[i];
    }
  }

  lemma {:induction false} ListedAcceptable(capacity: nat, records: seq<ExpectedRecord>, expected: map<RecordKey, nat>)
    requires Listed(capacity, records, expected) && capacity > 0
    ensures Acceptable(capacity, records)
  {
    if records == [] {
    } else {
      var n := |records| - 1;
      var rest := expected - {ExpectedKey(records[n])};
      ListedAcceptable(capacity, records[..n], rest);
      ListedMeans(capacity, records[..n], rest, ExpectedKey(records[n]));
      assert forall i | 0 <= i < n :: records[..n][i] == records[i];
    }
  }

  /** The records have valid lengths and distinct keys, and the map has exactly these keys. */
  predicate Listed(capacity: nat, records: seq<ExpectedRecord>, expected: map<RecordKey, nat>) {
    if records == [] then expected == map[]
    else
      var n := |records| - 1;
      && 0 < records[n].encodedLen <= capacity && ExpectedKey(records[n]) in expected
      && Listed(capacity, records[..n], expected - {ExpectedKey(records[n])})
  }

  lemma ListedStep(capacity: nat, records: seq<ExpectedRecord>, expected: map<RecordKey, nat>, record: ExpectedRecord,
                   start: nat)
    requires Listed(capacity, records, expected) && 0 < record.encodedLen <= capacity
             && ExpectedKey(record) !in expected
    ensures Listed(capacity, records + [record], expected[ExpectedKey(record) := start])
  {
    assert (records + [record])[..|records|] == records;
    assert expected[ExpectedKey(record) := start] - {ExpectedKey(record)} == expected;
  }

  lemma NoZero(h: seq<Entry>)
    ensures !Laid(0, h)
  {
  }

  lemma ListedNone(capacity: nat, records: seq<ExpectedRecord>)
    requires records == []
    ensures Listed(capacity, records, map[])
  {
  }

  lemma PredictsNone(h: seq<Entry>)
    ensures Predicts(map[], h, 0)
  {
  }

  /** One more prediction. */
  lemma PredictNext(cap: nat, h: seq<Entry>, i: nat, expected: map<RecordKey, nat>, record: ExpectedRecord)
    requires Laid(cap, h) && DistinctKeys(h) && i < |h| && record == Expect(h[i]) && Predicts(expected, h, i)
    ensures cap > 0 && 0 < record.encodedLen <= cap && h[i].start == NextStart(cap, HeadAt(h, i), record.encodedLen)
    ensures HeadAt(h, i + 1) == h[i].start + record.encodedLen
    ensures ExpectedKey(record) !in expected && Predicts(expected[ExpectedKey(record) := h[i].start], h, i + 1)
  {
    assert LaidAt(cap, h, i);
    var key, after := ExpectedKey(record), expected[ExpectedKey(record) := h[i].start];
    assert forall j | 0 <= j < i :: key != KeyOfRecord(h[j].record);
    forall k | k in after
      ensures exists j | 0 <= j < i + 1 :: k == KeyOfRecord(h[j].record)
    {
      if k in expected {
        var j :| 0 <= j < i && k == KeyOfRecord(h[j].record);
      } else {
        assert k == KeyOfRecord(h[i].record);
      }
    }
  }

  // ---- Observing ------------------------------------------------------------------------------

  predicate InPlace(expected: map<RecordKey, nat>, run: seq<ReadRecord>) {
    forall i | 0 <= i < |run| ::
      KeyOfRecord(run[i].record) in expected && expected[KeyOfRecord(run[i].record)] == run[i].startAbs
  }

  predicate Rising(run: seq<ReadRecord>) {
    forall i, j | 0 <= i < j < |run| :: run[i].startAbs <= run[j].startAbs
  }

  predicate SourcesRising(run: seq<ReadRecord>) {
    forall i, j | 0 <= i < j < |run| && StreamOf(run[i].record) == StreamOf(run[j].record) ::
      run[i].record.seqNo < run[j].record.seqNo
  }

  /** What a run of reads must be for the observer to stay silent: every record expected, at its place, in order, with
  the numbers of each source strictly increasing. */
  predicate FaultFree(expected: map<RecordKey, nat>, run: seq<ReadRecord>) {
    InPlace(expected, run) && Rising(run) && SourcesRising(run)
  }

  /** A violation found at a record. */
  function Objection(kind: ViolationKind, read: ReadRecord, expectedAbs: nat): StaleViolation {
    StaleViolation(kind, read.record.sourceId, read.record.seqNo, expectedAbs, read.startAbs)
  }

  class BatchObserver {
    const expected: map<RecordKey, nat>
    var lastExpectedAbs: Option<nat>
    var nextSeqBySource: map<Stream, nat>
    var seenRecords: set<RecordKey>
    var violations: seq<StaleViolation>
    /** Every record observed. */
    ghost var observed: seq<ReadRecord>

    /** The observer has been silent exactly when all it saw was fault-free; as long as it is, its fields summarise what
    it saw. */
    ghost predicate Valid()
      reads this
    {
      && (violations == [] <==> FaultFree(expected, observed))
      && (violations == [] ==> Summary(observed, lastExpectedAbs, nextSeqBySource, seenRecords))
    }

    constructor (expected: map<RecordKey, nat>)
      ensures Valid() && this.expected == expected && observed == [] && violations == []
    {
      this.expected := expected;
      lastExpectedAbs, nextSeqBySource, seenRecords, violations, observed := None, map[], {}, [], [];
    }

    /** The sidecar oracle's verdict on one record. */
    method ObserveOracle(read: ReadRecord) returns (found: seq<StaleViolation>)
      modifies this`lastExpectedAbs
      ensures found == [] <==> Expected(expected, old(lastExpectedAbs), read)
      ensures found == [] ==> lastExpectedAbs == Some(read.startAbs)
      ensures var key := KeyOfRecord(read.record);
              var Found := (kind: ViolationKind, at: nat) =>
                StaleViolation(kind, read.record.sourceId, read.record.seqNo, at, read.startAbs);
              if key !in expected then
                found == [Found(UnexpectedRecord, 0)] && lastExpectedAbs == old(lastExpectedAbs)
              else
                var misplaced := read.startAbs != expected[key];
                var late := old(lastExpectedAbs).Some? && expected[key] < old(lastExpectedAbs).value;
                && lastExpectedAbs == Some(expected[key])
                && found == (if misplaced then [Found(ExpectedAbsMismatch, expected[key])] else [])
                            + (if late then [Found(EventOrderMismatch, expected[key])] else [])
    {
      found := [];
      var key := KeyOfRecord(read.record);
      if key !in expected {
        return [Objection(UnexpectedRecord, read, 0)];
      }
      var expectedAbs := expected[key];
      if read.startAbs != expectedAbs {
        found := found + [Objection(ExpectedAbsMismatch, read, expectedAbs)];
      }
      if lastExpectedAbs.Some? && expectedAbs < lastExpectedAbs.value {
        found := found + [Objection(EventOrderMismatch, read, expectedAbs)];
      }
      lastExpectedAbs := Some(expectedAbs);
    }

    /** The duplicate and backward check of one record. */
    method ObserveSequence(read: ReadRecord)
      modifies this`violations, this`nextSeqBySource, this`seenRecords
      ensures var key, k := KeyOfRecord(read.record), StreamOf(read.record);
              var isNew := key !in old(seenRecords) && read.record.seqNo >= NextOf(old(nextSeqBySource), k);
              && violations == old(violations)
                               + (if isNew then []
                                  else [StaleViolation(DuplicateOrBackwardSeq, read.record.sourceId, read.record.seqNo,
                                                       0, read.startAbs)])
              && seenRecords == old(seenRecords) + {key}
              && nextSeqBySource == if isNew then old(nextSeqBySource)[k := read.record.seqNo + 1]
                 else old(nextSeqBySource)
    {
      var key := KeyOfRecord(read.record);
      var violation := Objection(DuplicateOrBackwardSeq, read, 0);
      if key in seenRecords {
        violations := violations + [violation];
        return;
      }
      seenRecords := seenRecords + {key};
      var k := StreamOf(read.record);
      if read.record.seqNo < NextOf(nextSeqBySource, k) {
        violations := violations + [violation];
      } else {
        nextSeqBySource := nextSeqBySource[k := read.record.seqNo + 1];
      }
    }

    /** Observes a batch. */
    method ObserveBatch(batch: ReadBatch)
      requires Valid()
      modifies this
      ensures Valid() && observed == old(observed) + batch.records
    {
      hide FaultFree, Summary;
      for i := 0 to |batch.records|
        invariant Valid() && observed == old(observed) + batch.records[..i]
      {
        var read := batch.records[i];
        ghost var last, next, seen := lastExpectedAbs, nextSeqBySource, seenRecords;
        var before := |violations|;
        var found := ObserveOracle(read);
        violations := violations + found;
        ObserveSequence(read);
        if before == 0 {
          ObserveTurn(expected, observed, last, next, seen, read);
        } else {
          StaysFaulty(expected, observed, read);
        }
        observed := observed + [read];
        assert batch.records[..i + 1] == batch.records[..i] + [read];
      }
      assert batch.records[..|batch.records|] == batch.records;
    }
  }

  function NextOf(m: map<Stream, nat>, k: Stream): nat {
    if k in m then m[k] else 0
  }

  predicate Expected(expected: map<RecordKey, nat>, last: Option<nat>, read: ReadRecord) {
    var key := KeyOfRecord(read.record);
    key in expected && expected[key] == read.startAbs && (last.Some? ==> last.value <= read.startAbs)
  }

  /** The keys of a run of reads. */
  function SeenKeys(run: seq<ReadRecord>): set<RecordKey> {
    if run == [] then {} else SeenKeys(run[..|run| - 1]) + {KeyOfRecord(run[|run| - 1].record)}
  }

  /** One past the last number of stream `k`. */
  function NextAfter(run: seq<ReadRecord>, k: Stream): nat {
    if run == [] then 0
    else if StreamOf(run[|run| - 1].record) == k then run[|run| - 1].record.seqNo + 1
    else NextAfter(run[..|run| - 1], k)
  }

  /** The observer's fields after fault-free reads. */
  ghost predicate Summary(run: seq<ReadRecord>, last: Option<nat>, next: map<Stream, nat>, seen: set<RecordKey>) {
    && last == (if run == [] then None else Some(run[|run| - 1].startAbs))
    && seen == SeenKeys(run)
    && forall k: Stream :: NextOf(next, k) == NextAfter(run, k)
  }

  /** The record is new and ahead of its source's others. */
  predicate Ahead(next: map<Stream, nat>, seen: set<RecordKey>, read: ReadRecord) {
    KeyOfRecord(read.record) !in seen && read.record.seqNo >= NextOf(next, StreamOf(read.record))
  }

  lemma StaysFaulty(expected: map<RecordKey, nat>, run: seq<ReadRecord>, read: ReadRecord)
    requires !FaultFree(expected, run)
    ensures !FaultFree(expected, run + [read])
  {
    hide FaultFree;
    Prefix(expected, run, read);
  }

  lemma Prefix(expected: map<RecordKey, nat>, run: seq<ReadRecord>, read: ReadRecord)
    ensures FaultFree(expected, run + [read]) ==> FaultFree(expected, run)
  {
    var all := run + [read];
    assert forall i | 0 <= i < |run| :: all[i] == run[i];
  }

  /** One more read keeps the run fault-free exactly when neither check objects. */
  lemma ObserveTurn(expected: map<RecordKey, nat>, run: seq<ReadRecord>, last: Option<nat>, next: map<Stream, nat>,
                    seen: set<RecordKey>, read: ReadRecord)
    requires FaultFree(expected, run) && Summary(run, last, next, seen)
    ensures FaultFree(expected, run + [read]) <==> Expected(expected, last, read) && Ahead(next, seen, read)
    ensures Expected(expected, last, read) && Ahead(next, seen, read)
            ==> Summary(run + [read], Some(read.startAbs), next[StreamOf(read.record) := read.record.seqNo + 1],
                        seen + {KeyOfRecord(read.record)})
  {
    hide InPlace, Rising, SourcesRising, Ahead, Summary;
    PlaceTurn(expected, run, read);
    RisingTurn(run, last, next, seen, read);
    SourcesTurn(run, last, next, seen, read);
    SummaryTurn(run, last, next, seen, read);
  }

  lemma PlaceTurn(expected: map<RecordKey, nat>, run: seq<ReadRecord>, read: ReadRecord)
    requires InPlace(expected, run)
    ensures InPlace(expected, run + [read])
            <==> KeyOfRecord(read.record) in expected && expected[KeyOfRecord(read.record)] == read.startAbs
  {
    assert (run + [read])[|run|] == read;
  }

  lemma RisingTurn(run: seq<ReadRecord>, last: Option<nat>, next: map<Stream, nat>, seen: set<RecordKey>,
                   read: ReadRecord)
    requires Rising(run) && Summary(run, last, next, seen)
    ensures Rising(run + [read]) <==> (last.Some? ==> last.value <= read.startAbs)
  {
    var all, n := run + [read], |run|;
    assert last == if n == 0 then None else Some(run[n - 1].startAbs);
    if n > 0 && run[n - 1].startAbs <= read.startAbs {
      forall i, j | 0 <= i < j < |all|
        ensures all[i].startAbs <= all[j].startAbs
      {
        assert i < n - 1 ==> run[i].startAbs <= run[n - 1].startAbs;
      }
    }
    assert n > 0 ==> all[n - 1] == run[n - 1] && all[n] == read;
  }

  lemma {:induction false} KeyMember(run: seq<ReadRecord>, key: RecordKey)
    ensures key in SeenKeys(run) <==> exists i | 0 <= i < |run| :: key == KeyOfRecord(run[i].record)
  {
    hide KeyOfRecord;
    if run == [] {
    } else {
      var n := |run| - 1;
      KeyMember(run[..n], key);
      assert forall i | 0 <= i < n :: run[..n][i] == run[i];
    }
  }

  /** Number `x` is ahead of all reads of stream `k` exactly when it is not below the next one. */
  lemma {:induction false} NextBound(run: seq<ReadRecord>, k: Stream, x: nat)
    requires SourcesRising(run)
    ensures NextAfter(run, k) <= x
            <==> forall i | 0 <= i < |run| && StreamOf(run[i].record) == k :: run[i].record.seqNo < x
  {
    if run == [] {
    } else {
      var n := |run| - 1;
      NextBound(run[..n], k, x);
      assert forall i | 0 <= i < n :: run[..n][i] == run[i];
    }
  }

  lemma SourcesTurn(run: seq<ReadRecord>, last: Option<nat>, next: map<Stream, nat>, seen: set<RecordKey>,
                    read: ReadRecord)
    requires SourcesRising(run) && Summary(run, last, next, seen)
    ensures SourcesRising(run + [read]) <==> Ahead(next, seen, read)
  {
    hide SeenKeys, NextAfter;
    KeyMember(run, KeyOfRecord(read.record));
    NextBound(run, StreamOf(read.record), read.record.seqNo);
    RisingSources(run, read);
  }

  /** One more read keeps the sources rising exactly when it is ahead of its own. */
  lemma RisingSources(run: seq<ReadRecord>, read: ReadRecord)
    requires SourcesRising(run)
    ensures SourcesRising(run + [read])
            <==> forall i | 0 <= i < |run| && StreamOf(run[i].record) == StreamOf(read.record) ::
                   run[i].record.seqNo < read.record.seqNo
  {
    var all, n := run + [read], |run|;
    assert all[n] == read;
    if SourcesRising(all) {
      forall i | 0 <= i < n && StreamOf(run[i].record) == StreamOf(read.record)
        ensures run[i].record.seqNo < read.record.seqNo
      {
        assert all[i] == run[i];
      }
    }
  }

  lemma SummaryTurn(run: seq<ReadRecord>, last: Option<nat>, next: map<Stream, nat>, seen: set<RecordKey>,
                    read: ReadRecord)
    requires Summary(run, last, next, seen)
    ensures Summary(run + [read], Some(read.startAbs), next[StreamOf(read.record) := read.record.seqNo + 1],
                    seen + {KeyOfRecord(read.record)})
  {
    var all, next' := run + [read], next[StreamOf(read.record) := read.record.seqNo + 1];
    assert all[..|run|] == run;
    forall k: Stream
      ensures NextOf(next', k) == NextAfter(all, k)
    {
      assert NextOf(next, k) == NextAfter(run, k);
    }
  }

  // ---- Genuine reads are fault-free ------------------------------------------------------------------

  /** The numbers of each source increase in write order. */
  predicate SourcesIncrease(h: seq<Entry>) {
    forall i, j | 0 <= i < j < |h| && StreamOf(h[i].record) == StreamOf(h[j].record) ::
        h[i].record.seqNo < h[j].record.seqNo
  }

  /** Whatever a reader delivers of the published records, in order, the observer has nothing to say. */
  lemma GenuineIsFaultFree(cap: nat, h: seq<Entry>, expected: map<RecordKey, nat>, run: seq<ReadRecord>, hi: nat)
    requires History(cap, h) && SourcesIncrease(h) && Predicts(expected, h, |h|) && Genuine(h, run, 0, hi)
    ensures FaultFree(expected, run)
  {
    hide EncodedEntry, Laid;
    forall i | 0 <= i < |run|
      ensures KeyOfRecord(run[i].record) in expected && expected[KeyOfRecord(run[i].record)] == run[i].startAbs
    {
      var x := Source(h, run, hi, i);
    }
    forall i, j | 0 <= i < j < |run|
      ensures run[i].startAbs <= run[j].startAbs
      ensures StreamOf(run[i].record) == StreamOf(run[j].record) ==> run[i].record.seqNo < run[j].record.seqNo
    {
      var x := Source(h, run, hi, i);
      var y := Source(h, run, hi, j);
      LaterEntry(cap, h, x, y);
    }
  }

  lemma Source(h: seq<Entry>, run: seq<ReadRecord>, hi: nat, i: nat) returns (x: nat)
    requires Genuine(h, run, 0, hi) && i < |run|
    ensures x < |h| && run[i] == ReadOf(h[x])
  {
    assert Published(h, run[i]);
    x :| x < |h| && run[i] == ReadOf(h[x]);
  }

  /** An entry that starts after the end of another was written later. */
  lemma LaterEntry(cap: nat, h: seq<Entry>, x: nat, y: nat)
    requires Laid(cap, h) && x < |h| && y < |h| && h[x].End() <= h[y].start
    ensures x < y
  {
    Ordered(cap, h, x, x + 1);
    if y < x {
      Ordered(cap, h, y, x);
    }
  }
}
