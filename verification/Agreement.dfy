/** Three ways to write the same records: the sequential ring, the concurrent producer, and pre-encoded slices. */
module Agreement {
  import opened Bytes
  import opened Wire
  import opened Layout
  import opened Image
  import opened Reads
  import opened Ring
  import opened Trace
  import opened Producer

  /** The same bytes at the same offsets. */
  predicate SameShape(g: seq<Entry>, h: seq<Entry>) {
    |g| == |h| && forall i | 0 <= i < |g| :: g[i].start == h[i].start && g[i].bytes == h[i].bytes
  }

  lemma {:induction false} SameFirst(g: seq<Entry>, h: seq<Entry>, floor: nat, k: nat)
    requires SameShape(g, h) && k <= |g|
    ensures FirstFrom(g, floor, k) == FirstFrom(h, floor, k)
    decreases |g| - k
  {
    if k == |g| {
    } else {
      SameFirst(g, h, floor, k + 1);
    }
  }

  lemma {:induction false} SameImage(cap: nat, g: seq<Entry>, h: seq<Entry>)
    requires SameShape(g, h) && Laid(cap, g) && Laid(cap, h)
    ensures ImageOf(cap, g) == ImageOf(cap, h)
    decreases |g|
  {
    hide Laid, Written;
    if g == [] {
    } else {
      var n := |g| - 1;
      LaidPrefix(cap, g, n);
      LaidPrefix(cap, h, n);
      LaidFits(cap, g, n);
      LaidFits(cap, h, n);
      SameImage(cap, g[..n], h[..n]);
      SameWritten(cap, ImageOf(cap, g[..n]), HeadAt(g, n), g[n], h[n]);
      assert HeadAt(g, n) == HeadAt(h, n);
    }
  }

  lemma SameWritten(cap: nat, image: seq<byte>, head: nat, d: Entry, e: Entry)
    requires d.start == e.start && d.bytes == e.bytes
    requires cap > 0 && |image| == cap && e.start % cap + |e.bytes| <= cap
    ensures Written(cap, image, head, d) == Written(cap, image, head, e)
  {
  }

  /** A producer and a ring show the same bytes and counters. */
  ghost predicate SameState(ring: RingBuffer, producer: ConcurrentProducer)
    reads ring, ring.bytes, producer, producer.store, producer.store.bytes
  {
    && producer.store.bytes[..] == ring.bytes[..] && producer.store.headAbs == ring.headAbs
    && producer.store.oldestAbs == ring.oldestAbs && producer.store.lostCount == ring.lostCount
  }

  lemma SameShapeSameState(ring: RingBuffer, producer: ConcurrentProducer)
    requires ring.Valid() && producer.Valid() && ring.bytes.Length == producer.store.capacity
    requires SameShape(ring.hist, producer.hist)
    ensures SameState(ring, producer)
  {
    hide ImageOf, FirstFrom, TraceOf, EncodedEntry;
    PublishedState(producer);
    var cap := ring.bytes.Length;
    SameImage(cap, ring.hist, producer.hist);
    SameFirst(ring.hist, producer.hist, Floor(cap, Head(ring.hist)), 0);
  }

  /** The three share no memory. */
  ghost predicate Disjoint(ring: RingBuffer, writer: ConcurrentProducer, appender: ConcurrentProducer)
    reads ring
  {
    && writer != appender && writer.store != appender.store && writer.store.bytes != appender.store.bytes
    && ring.bytes != writer.store.bytes && ring.bytes != appender.store.bytes
  }

  /** The record is encodable and fits the ring. */
  predicate Acceptable(cap: nat, record: Record) {
    Encodable(record, true) && |Encoding(record, true)| <= cap
  }

  /** The history of a ring that was offered `records`: the acceptable ones, each where the placement rule puts it. */
  function HistoryOf(cap: nat, records: seq<Record>): seq<Entry>
    requires cap > 0
  {
    if records == [] then []
    else
      var n := |records| - 1;
      var h := HistoryOf(cap, records[..n]);
      if Acceptable(cap, records[n]) then h + [EntryFor(cap, h, records[n])] else h
  }

  lemma HistoryStep(cap: nat, records: seq<Record>, i: nat)
    requires cap > 0 && i < |records|
    ensures var h := HistoryOf(cap, records[..i]);
            HistoryOf(cap, records[..i + 1])
            == if Acceptable(cap, records[i]) then h + [EntryFor(cap, h, records[i])] else h
  {
    hide EntryFor, Acceptable;
    assert records[..i + 1][..i] == records[..i];
  }

  /** Writing one record either way. */
  lemma SameEntry(cap: nat, g: seq<Entry>, h: seq<Entry>, record: Record, bytes: seq<byte>)
    requires cap > 0 && SameShape(g, h) && Encodable(record, true) && bytes == Encoding(record, true)
    ensures IsCrcEncoding(bytes) && Decode(bytes).Ok?
    ensures SameShape(g + [EntryFor(cap, g, record)], h + [Appended(cap, h, bytes)])
  {
    hide Encoding, Decode;
    assert IsCrcEncoding(bytes);
    CrcEncodings(bytes);
    assert Head(g) == Head(h);
  }

  /** Whatever the records, the three ways accept exactly the acceptable ones, end with the history of those, and show
  the same bytes and counters. */
  method WriteEveryWay(ring: RingBuffer, writer: ConcurrentProducer, appender: ConcurrentProducer, records: seq<Record>)
    returns (accepted: seq<(bool, bool, bool)>)
    requires ring.Valid() && writer.Valid() && appender.Valid()
    requires ring.hist == writer.hist == appender.hist == []
    requires ring.bytes.Length == writer.store.capacity == appender.store.capacity > 0
    requires Disjoint(ring, writer, appender)
    modifies ring, ring.bytes, writer, writer.store, writer.store.bytes, appender, appender.store, appender.store.bytes
    ensures ring.Valid() && writer.Valid() && appender.Valid() && ring.bytes == old(ring.bytes)
    ensures ring.hist == writer.hist == HistoryOf(writer.store.capacity, records)
    ensures SameShape(ring.hist, appender.hist) && SameState(ring, writer) && SameState(ring, appender)
    ensures |accepted| == |records|
    ensures forall i | 0 <= i < |records| ::
              accepted[i].0 == accepted[i].1 == accepted[i].2 == Acceptable(writer.store.capacity, records[i])
  {
    hide RingBuffer.Valid, ConcurrentProducer.Valid, SameState, EntryFor, Appended, Encoding, Acceptable, Decode;
    ghost var cap := writer.store.capacity;
    accepted := [];
    for i := 0 to |records|
      invariant ring.Valid() && writer.Valid() && appender.Valid()
      invariant ring.bytes == old(ring.bytes) && ring.hist == writer.hist == HistoryOf(cap, records[..i])
      invariant SameShape(ring.hist, appender.hist) && |accepted| == i
      invariant forall j | 0 <= j < i ::
                  accepted[j].0 == accepted[j].1 == accepted[j].2 == Acceptable(cap, records[j])
    {
      HistoryStep(cap, records, i);
      var a, b, c := WriteOnce(ring, writer, appender, records[i]);
      accepted := accepted + [(a, b, c)];
    }
    assert records[..|records|] == records;
    SameShapeSameState(ring, appender);
    SameShapeSameState(ring, writer);
  }

  /** One record, offered three ways. */
  method WriteOnce(ring: RingBuffer, writer: ConcurrentProducer, appender: ConcurrentProducer, record: Record)
    returns (byRing: bool, byWriter: bool, byAppender: bool)
    requires ring.Valid() && writer.Valid() && appender.Valid()
    requires ring.hist == writer.hist && SameShape(ring.hist, appender.hist)
    requires ring.bytes.Length == writer.store.capacity == appender.store.capacity > 0
    requires Disjoint(ring, writer, appender)
    modifies ring, ring.bytes, writer, writer.store, writer.store.bytes, appender, appender.store, appender.store.bytes
    ensures ring.Valid() && writer.Valid() && appender.Valid() && ring.bytes == old(ring.bytes)
    ensures byRing == byWriter == byAppender == Acceptable(writer.store.capacity, record)
    ensures ring.hist == writer.hist && SameShape(ring.hist, appender.hist)
    ensures Acceptable(writer.store.capacity, record)
            ==> ring.hist == old(ring.hist) + [EntryFor(writer.store.capacity, old(ring.hist), record)]
    ensures !Acceptable(writer.store.capacity, record)
            ==> ring.hist == old(ring.hist) && appender.hist == old(appender.hist)
  {
    hide RingBuffer.Valid, ConcurrentProducer.Valid, EntryFor, Appended, Encoding, Encodable, Decode, IsCrcEncoding;
    ghost var g, h, cap := ring.hist, appender.hist, writer.store.capacity;
    var written := ring.WriteRecord(record);
    var published := writer.WriteRecord(record);
    byRing, byWriter, byAppender := written.Ok?, published.Ok?, false;
    var encoded := Encode(record, true);
    if encoded.Ok? {
      SameEntry(cap, g, h, record, encoded.value);
      var appended := appender.AppendEncoded(encoded.value);
      byAppender := appended.Ok?;
    }
  }
}
