/** The concurrent producer: one store or fence at a time, always in the order its readers rely on. */
module Producer {
  import opened Bytes
  import opened Wire
  import opened Codec
  import opened Layout
  import opened Image
  import opened Reads
  import opened Ring
  import opened StoreLog
  import opened Trace

  /** The writer's side of a concurrent store: every location holds what the log last put there. */
  class ConcurrentRing {
    const capacity: nat
    const bytes: array<byte>
    var headAbs: nat
    var oldestAbs: nat
    var lostCount: nat
    var seqLock: u32
    /** Every store and fence so far, in program order. */
    ghost var log: seq<Op>

    ghost predicate Valid()
      reads this, bytes
    {
      && bytes.Length == capacity > 0
      && (forall p: nat | p < capacity :: bytes[p] == MemByte(log, p, |log|))
      && headAbs == MemHead(log, |log|) && oldestAbs == MemOldest(log, |log|) && lostCount == MemLost(log, |log|)
      && seqLock == MemLock(log, |log|) % 0x1_0000_0000
    }

    constructor (capacity: nat)
      requires capacity > 0
      ensures Valid() && fresh(bytes) && this.capacity == capacity && log == []
    {
      this.capacity, bytes := capacity, new byte[capacity](_ => 0);
      headAbs, oldestAbs, lostCount, seqLock, log := 0, 0, 0, 0, [];
    }

    method StoreByteRelaxed(phys: nat, value: byte)
      requires Valid() && phys < capacity
      modifies this`log, bytes
      ensures Valid() && log == old(log) + [StoreByte(phys, value)]
    {
      Logged(log, StoreByte(phys, value));
      bytes[phys] := value;
      log := log + [StoreByte(phys, value)];
    }

    method StoreHeadRelease(value: nat)
      requires Valid()
      modifies this`log, this`headAbs
      ensures Valid() && log == old(log) + [StoreHead(value)]
    {
      Logged(log, StoreHead(value));
      headAbs := value;
      log := log + [StoreHead(value)];
    }

    method StoreOldestRelaxed(value: nat)
      requires Valid()
      modifies this`log, this`oldestAbs
      ensures Valid() && log == old(log) + [StoreOldest(value)]
    {
      Logged(log, StoreOldest(value));
      oldestAbs := value;
      log := log + [StoreOldest(value)];
    }

    method FetchAddLostRelease(value: nat)
      requires Valid()
      modifies this`log, this`lostCount
      ensures Valid() && log == old(log) + [AddLost(value)]
    {
      Logged(log, AddLost(value));
      lostCount := lostCount + value;
      log := log + [AddLost(value)];
    }

    method ReleaseBeforeClobber()
      requires Valid()
      modifies this`log
      ensures Valid() && log == old(log) + [ReleaseFence]
    {
      Logged(log, ReleaseFence);
      log := log + [ReleaseFence];
    }

    /** Turns the lock word odd; it wraps around at 32 bits. */
    method BeginControlUpdate()
      requires Valid()
      modifies this`log, this`seqLock
      ensures Valid() && log == old(log) + [BeginUpdate]
    {
      Logged(log, BeginUpdate);
      seqLock := NextLock(seqLock, MemLock(log, |log|));
      log := log + [BeginUpdate];
    }

    method EndControlUpdateRelease()
      requires Valid()
      modifies this`log, this`seqLock
      ensures Valid() && log == old(log) + [EndUpdate]
    {
      Logged(log, EndUpdate);
      seqLock := NextLock(seqLock, MemLock(log, |log|));
      log := log + [EndUpdate];
    }
  }

  /** The lock word after one more increment, where `count` increments have led to `lock`. */
  function NextLock(lock: u32, ghost count: nat): (next: u32)
    requires lock == count % 0x1_0000_0000
    ensures next == (count + 1) % 0x1_0000_0000
  {
    if lock == 0xFFFF_FFFF then 0 else lock + 1
  }

  /** Everything logged before keeps its value. */
  lemma Logged(log: seq<Op>, op: Op)
    ensures var log' := log + [op];
            && (forall p: nat :: MemByte(log', p, |log|) == MemByte(log, p, |log|))
            && MemHead(log', |log|) == MemHead(log, |log|) && MemOldest(log', |log|) == MemOldest(log, |log|)
            && MemLost(log', |log|) == MemLost(log, |log|) && MemLock(log', |log|) == MemLock(log, |log|)
  {
    assert (log + [op])[..|log|] == log[..|log|];
    SamePrefix(log + [op], log, |log|);
  }

  // ---- The producer ------------------------------------------------------------------

  function Spans(h: seq<Entry>): seq<(nat, nat)> {
    seq(|h|, i requires 0 <= i < |h| => (h[i].start, h[i].End()))
  }

  /** The encoded slice is the CRC encoding of some record. */
  ghost predicate IsCrcEncoding(bytes: seq<byte>) {
    exists r: Record :: Encodable(r, true) && bytes == Encoding(r, true)
  }

  class ConcurrentProducer {
    const store: ConcurrentRing
    var spans: seq<(nat, nat)>
    var headAbs: nat
    /** Every record published so far. */
    ghost var hist: seq<Entry>

    /** The log is the trace of the history: nothing was stored out of order. */
    ghost predicate Valid()
      reads this, store, store.bytes
    {
      && store.Valid() && History(store.capacity, hist) && store.log == TraceOf(store.capacity, hist)
      && headAbs == Head(hist) && spans == Spans(hist[Evicted(store.capacity, hist)..])
    }

    constructor (store: ConcurrentRing)
      requires store.Valid() && store.log == []
      ensures Valid() && this.store == store && hist == []
    {
      this.store, spans, headAbs, hist := store, [], 0, [];
      new;
      assert store.log == TraceOf(store.capacity, []);
    }

    method NextStartAbs(encodedLen: nat) returns (start: nat)
      requires Valid()
      ensures start == NextStart(store.capacity, Head(hist), encodedLen)
      ensures 0 < encodedLen <= store.capacity ==> FirstFit(store.capacity, headAbs, encodedLen, start)
    {
      if 0 < encodedLen <= store.capacity {
        NextStartLeast(store.capacity, headAbs, encodedLen, NextStart(store.capacity, headAbs, encodedLen));
      }
      var startPhys := headAbs % store.capacity;
      start := if startPhys == 0 || startPhys + encodedLen <= store.capacity then headAbs
               else headAbs + (store.capacity - startPhys);
    }

    /** Pops the spans below the retention floor, counts them, stores the oldest offset and fences. */
    method EvictBeforeClobber(finalHead: nat, nextRecordStart: nat, ghost e: Entry, ghost base: seq<Op>)
      requires store.Valid() && Laid(store.capacity, hist) && Laid(store.capacity, hist + [e])
      requires finalHead == e.End() && nextRecordStart == e.start
      requires spans == Spans(hist[Evicted(store.capacity, hist)..]) && store.log == base + [BeginUpdate]
      modifies this`spans, store`log, store`lostCount, store`oldestAbs
      ensures store.Valid()
      ensures Evicted(store.capacity, hist + [e]) <= |hist|
      ensures spans == Spans(hist[Evicted(store.capacity, hist + [e])..])
      ensures store.log == base + Prologue(store.capacity, hist, e)
    {
      hide Evicted, Oldest, Laid, EvictionAt, MemByte, MemHead, MemOldest, MemLost, MemLock;
      ghost var cap, h, k0, k := store.capacity, hist, Evicted(store.capacity, hist), Evicted(store.capacity, hist);
      EvictionStart(cap, h, e);
      var floor := Floor(store.capacity, finalHead);
      var evicted := 0;
      while spans != [] && spans[0].0 < floor
        invariant k == k0 + evicted <= |h| && spans == Spans(h[k..]) && EvictionAt(cap, h, e, k)
        decreases |spans|
        modifies this`spans
      {
        SpansTail(h, k);
        EvictionTurn(cap, h, e, k);
        spans := spans[1..];
        evicted, k := evicted + 1, k + 1;
      }
      SpansEnd(cap, h, e, k, spans);
      if evicted > 0 {
        store.FetchAddLostRelease(evicted);
      }
      var newOldest := if spans != [] then spans[0].0 else nextRecordStart;
      store.StoreOldestRelaxed(newOldest);
      store.ReleaseBeforeClobber();
    }

    /** Publishes the bytes of entry `e`: the log grows by exactly the operations of one append. */
    method AppendBytesCore(bytes: seq<byte>, ghost e: Entry)
      requires Valid() && EncodedEntry(e) && Laid(store.capacity, hist + [e]) && e.bytes == bytes
      modifies this, store, store.bytes
      ensures Valid() && hist == old(hist) + [e]
    {
      hide Evicted, Oldest, Laid, Prologue, Marker, RecordStores, Spans, TraceOf, EncodedEntry, Head, History;
      hide MemByte, MemHead, MemOldest, MemLost, MemLock;
      ghost var cap, h := store.capacity, hist;
      Publishes(cap, h, e);
      ghost var base := store.log;
      var startPhys := headAbs % store.capacity;
      var recordStartAbs := NextStartAbs(|bytes|);
      var finalHead := recordStartAbs + |bytes|;
      store.BeginControlUpdate();
      EvictBeforeClobber(finalHead, recordStartAbs, e, base);
      ghost var done := Prologue(cap, h, e);
      StoreBytes(startPhys, recordStartAbs, bytes, e);
      done := done + Marker(cap, h, e) + RecordStores(cap, e);
      assert store.log == base + done;
      SpansAppend(cap, h, e);
      spans := spans + [(recordStartAbs, finalHead)];
      headAbs := finalHead;
      store.StoreHeadRelease(finalHead);
      store.EndControlUpdateRelease();
      hist := h + [e];
      assert store.log == base + (done + [StoreHead(e.End()), EndUpdate]);
    }

    /** The wrap marker of a gap, then the record. */
    method StoreBytes(startPhys: nat, recordStartAbs: nat, bytes: seq<byte>, ghost e: Entry)
      requires store.Valid() && headAbs == Head(hist) && startPhys == headAbs % store.capacity
      requires recordStartAbs == e.start && bytes == e.bytes && e.start % store.capacity + |bytes| <= store.capacity
      modifies store`log, store.bytes
      ensures store.Valid()
      ensures store.log == old(store.log) + Marker(store.capacity, hist, e) + RecordStores(store.capacity, e)
    {
      hide Marker, RecordStores, MemByte, MemHead, MemOldest, MemLost, MemLock;
      MarkerIs(store.capacity, hist, e);
      if recordStartAbs != headAbs {
        store.StoreByteRelaxed(startPhys, 0);
      }
      StoreRecord(recordStartAbs % store.capacity, bytes, e);
    }

    method StoreRecord(recordStart: nat, bytes: seq<byte>, ghost e: Entry)
      requires store.Valid() && recordStart == e.start % store.capacity && bytes == e.bytes
      requires recordStart + |bytes| <= store.capacity
      modifies store`log, store.bytes
      ensures store.Valid() && store.log == old(store.log) + RecordStores(store.capacity, e)
    {
      ghost var stores := RecordStores(store.capacity, e);
      for i := 0 to |bytes|
        invariant store.Valid() && store.log == old(store.log) + stores[..i]
      {
        store.StoreByteRelaxed(recordStart + i, bytes[i]);
        assert stores[..i + 1] == stores[..i] + [stores[i]];
      }
      assert stores[..|bytes|] == stores;
    }

    method WriteRecord(record: Record) returns (res: Result<(), RingError>)
      requires Valid()
      modifies this, store, store.bytes
      ensures Valid()
      ensures !Encodable(record, true) ==> res == Err(RingError.Wire(EncodeError(record, true)))
      ensures Encodable(record, true) && |Encoding(record, true)| > store.capacity
              ==> res == Err(RecordExceedsCapacity(|Encoding(record, true)|, store.capacity))
      ensures res.Err? ==> hist == old(hist)
      ensures Encodable(record, true) && |Encoding(record, true)| <= store.capacity
              ==> res == Ok(()) && hist == old(hist) + [EntryFor(store.capacity, old(hist), record)]
    {
      hide Evicted, TraceOf;
      var encoded := Encode(record, true);
      if encoded.Err? {
        return Err(RingError.Wire(encoded.error));
      }
      if |encoded.value| > store.capacity {
        return Err(RecordExceedsCapacity(|encoded.value|, store.capacity));
      }
      EntryForLaid(store.capacity, hist, record);
      AppendBytesCore(encoded.value, EntryFor(store.capacity, hist, record));
      res := Ok(());
    }

    /** Publishes an encoded slice. It is accepted exactly when it is the CRC encoding of a record that fits; otherwise
    nothing changes. */
    method AppendEncoded(bytes: seq<byte>) returns (res: Result<(), RingError>)
      requires Valid()
      modifies this, store, store.bytes
      ensures Valid()
      ensures res.Ok? <==> IsCrcEncoding(bytes) && |bytes| <= store.capacity
      ensures res.Err? ==> hist == old(hist)
      ensures IsCrcEncoding(bytes) && |bytes| > store.capacity
              ==> res == Err(RecordExceedsCapacity(|bytes|, store.capacity))
      ensures |bytes| >= HEADER_LEN && !HasCrc(ReadU16(bytes, 6))
              ==> res == Err(EncodedRecordMissingCrc(ReadU16(bytes, 6)))
      ensures |bytes| < HEADER_LEN || HasCrc(ReadU16(bytes, 6)) ==>
                match Validation(bytes)
                case Err(e) => res == Err(RingError.Wire(e))
                case Ok(n) => n != |bytes| ==> res == Err(EncodedRecordLengthMismatch(n, |bytes|))
      ensures res.Ok? ==> Decode(bytes).Ok? && hist == old(hist) + [Appended(store.capacity, old(hist), bytes)]
    {
      hide Evicted, TraceOf, History, Validation, Encodable, Encoding, EntryFor;
      Classify(bytes);
      if |bytes| < HEADER_LEN {
        var invalid := ValidateRecord(bytes);
        match invalid
        case Err(error) =>
          return Err(RingError.Wire(error));
        case Ok(_) =>
          assert false;
      }
      var flags := ReadU16(bytes, 6);
      if !HasCrc(flags) {
        return Err(EncodedRecordMissingCrc(flags));
      }
      var validated := ValidateRecord(bytes);
      if validated.Err? {
        return Err(RingError.Wire(validated.error));
      }
      var consumed := validated.value;
      if consumed != |bytes| {
        return Err(EncodedRecordLengthMismatch(consumed, |bytes|));
      }
      if |bytes| > store.capacity {
        return Err(RecordExceedsCapacity(|bytes|, store.capacity));
      }
      AppendedLaid(store.capacity, hist, bytes);
      AppendBytesCore(bytes, Appended(store.capacity, hist, bytes));
      res := Ok(());
    }
  }

  /** The entry an accepted slice becomes. */
  function Appended(cap: nat, h: seq<Entry>, bytes: seq<byte>): Entry
    requires cap > 0 && Decode(bytes).Ok?
  {
    Entry(NextStart(cap, Head(h), |bytes|), Decode(bytes).value.record, bytes)
  }

  lemma AppendedLaid(cap: nat, h: seq<Entry>, bytes: seq<byte>)
    requires History(cap, h) && IsCrcEncoding(bytes) && |bytes| <= cap
    ensures Decode(bytes).Ok? && EncodedEntry(Appended(cap, h, bytes)) && Laid(cap, h + [Appended(cap, h, bytes)])
  {
    hide Decode, Encoding;
    CrcEncodings(bytes);
    LaidExtend(cap, h, Appended(cap, h, bytes));
  }

  /** A CRC encoding decodes whole, to a record it is the encoding of. */
  lemma CrcEncodings(bytes: seq<byte>)
    requires IsCrcEncoding(bytes)
    ensures Decode(bytes).Ok? && Decode(bytes).value.consumed == |bytes| >= HEADER_LEN
    ensures HasCrc(ReadU16(bytes, 6))
    ensures var r := Decode(bytes).value.record; Encodable(r, true) && Encoding(r, true) == bytes
  {
    hide Decode, Encoding, CheckEnvelope, ReadU16;
    var r: Record :| Encodable(r, true) && bytes == Encoding(r, true);
    DecodeOfEncoding(r, true, []);
    EnvelopeAccepts(r, true, []);
    assert bytes + [] == bytes;
    EncodingOfDecode(bytes);
    assert bytes[..|bytes|] == bytes;
  }

  /** The checks of `append_encoded` single out the CRC encodings. */
  lemma Classify(bytes: seq<byte>)
    ensures Validation(bytes).Ok? ==> |bytes| >= HEADER_LEN
    ensures |bytes| >= HEADER_LEN && HasCrc(ReadU16(bytes, 6)) && Validation(bytes) == Ok(|bytes|)
            <==> IsCrcEncoding(bytes)
  {
    hide Encoding, CheckEnvelope, ReadU16, ParseSlots;
    if IsCrcEncoding(bytes) {
      CrcEncodings(bytes);
    }
    if |bytes| >= HEADER_LEN && HasCrc(ReadU16(bytes, 6)) && Validation(bytes) == Ok(|bytes|) {
      EncodingOfDecode(bytes);
      assert bytes[..|bytes|] == bytes;
      assert Decode(bytes).value.record.flags == ReadU16(bytes, 6);
    }
  }

  lemma SpansTail(h: seq<Entry>, k: nat)
    requires k <= |h| && Spans(h[k..]) != []
    ensures k < |h| && Spans(h[k..])[0] == (h[k].start, h[k].End()) && Spans(h[k..])[1..] == Spans(h[k + 1..])
  {
  }

  lemma SpansEnd(cap: nat, h: seq<Entry>, e: Entry, k: nat, spans: seq<(nat, nat)>)
    requires Laid(cap, h + [e]) && EvictionAt(cap, h, e, k) && spans == Spans(h[k..])
    requires spans == [] || spans[0].0 >= Floor(cap, e.End())
    ensures k == Evicted(cap, h + [e]) <= |h|
    ensures Oldest(cap, h + [e]) == if spans != [] then spans[0].0 else e.start
  {
    RetainedExactly(cap, h + [e]);
    if k < |h| {
      SpansTail(h, k);
      assert (h + [e])[k] == h[k];
    }
  }

  lemma SpansAppend(cap: nat, h: seq<Entry>, e: Entry)
    requires Evicted(cap, h + [e]) <= |h|
    ensures Spans((h + [e])[Evicted(cap, h + [e])..]) == Spans(h[Evicted(cap, h + [e])..]) + [(e.start, e.End())]
  {
    hide Evicted;
  }

  lemma Publishes(cap: nat, h: seq<Entry>, e: Entry)
    requires History(cap, h) && EncodedEntry(e) && Laid(cap, h + [e])
    ensures cap > 0 && Laid(cap, h) && History(cap, h + [e]) && Head(h + [e]) == e.End()
    ensures e.start == NextStart(cap, Head(h), |e.bytes|) && e.start % cap + |e.bytes| <= cap
    ensures TraceOf(cap, h + [e])
            == TraceOf(cap, h) + (Prologue(cap, h, e) + Marker(cap, h, e) + RecordStores(cap, e)
                                  + [StoreHead(e.End()), EndUpdate])
  {
    hide EncodedEntry, Prologue, Marker, RecordStores;
    assert LaidAt(cap, h + [e], |h|) && HeadAt(h + [e], |h|) == Head(h);
    LaidFits(cap, h + [e], |h|);
    assert (h + [e])[..|h|] == h;
  }

  lemma MarkerIs(cap: nat, h: seq<Entry>, e: Entry)
    requires cap > 0
    ensures Marker(cap, h, e) == if e.start != Head(h) then [StoreByte(Head(h) % cap, 0)] else []
  {
  }

  // ---- Memory and ring agree -----------------------------------------------------------

  /** Byte `p`, which showed `v`, after `m` operations of the append of `e`. */
  function Partial(cap: nat, g: seq<Entry>, e: Entry, p: nat, v: byte, m: nat): byte
    requires cap > 0
  {
    var q, marked := e.start % cap, |Marker(cap, g, e)|;
    if q <= p < q + |e.bytes| && m > Fenced(cap, g, e) + marked + (p - q) then e.bytes[p - q]
    else if marked > 0 && m > Fenced(cap, g, e) && p == Head(g) % cap then 0
    else v
  }

  lemma {:induction false} BytesDuring(cap: nat, h: seq<Entry>, n: nat, m: nat, p: nat, v: byte)
    requires Laid(cap, h) && n < |h| && m <= |OpsOf(cap, h, n)|
    requires Base(cap, h, n) + m <= |TraceOf(cap, h)| && v == MemByte(TraceOf(cap, h), p, Base(cap, h, n))
    ensures MemByte(TraceOf(cap, h), p, Base(cap, h, n) + m) == Partial(cap, h[..n], h[n], p, v, m)
  {
    hide TraceOf, Base, Prologue, Marker, AppendOps, Head, Evicted, Oldest;
    if m == 0 {
    } else {
      BytesDuring(cap, h, n, m - 1, p, v);
      OpAt(cap, h, n, m - 1);
      OpKind(cap, h[..n], h[n], m - 1);
    }
  }

  /** After each append the bytes in memory are the image of the history. */
  lemma {:induction false} TraceImage(cap: nat, h: seq<Entry>, n: nat, p: nat)
    requires Laid(cap, h) && n <= |h| && p < cap
    ensures Laid(cap, h[..n]) && Base(cap, h, n) <= |TraceOf(cap, h)|
    ensures MemByte(TraceOf(cap, h), p, Base(cap, h, n)) == ImageOf(cap, h[..n])[p]
    decreases n
  {
    hide TraceOf, OpsOf, Prologue, Marker, Written, Base;
    LaidPrefix(cap, h, n);
    TracePrefix(cap, h, n);
    if n == 0 {
      EmptyBase(cap, h);
    } else {
      var g, e := h[..n - 1], h[n - 1];
      assert h[..n] == g + [e];
      TraceImage(cap, h, n - 1, p);
      BaseStep(cap, h, n - 1);
      BytesDuring(cap, h, n - 1, |OpsOf(cap, h, n - 1)|, p, ImageOf(cap, g)[p]);
      AllDone(cap, h, n - 1, p, ImageOf(cap, g)[p]);
      ImageExtend(cap, g, e);
      WrittenAt(cap, ImageOf(cap, g), Head(g), e, p);
    }
  }

  lemma AllDone(cap: nat, h: seq<Entry>, n: nat, p: nat, v: byte)
    requires Laid(cap, h) && n < |h|
    ensures var e, g := h[n], h[..n];
            Partial(cap, g, e, p, v, |OpsOf(cap, h, n)|)
            == if e.start % cap <= p < e.start % cap + |e.bytes| then e.bytes[p - e.start % cap]
               else if e.start != Head(g) && p == Head(g) % cap then 0
               else v
  {
    hide Prologue, AppendOps;
    OpCount(cap, h[..n], h[n]);
  }

  /** What a producer has published is what a sequential ring with the same history holds. */
  lemma PublishedState(producer: ConcurrentProducer)
    requires producer.Valid()
    ensures var cap, h := producer.store.capacity, producer.hist;
            && producer.store.bytes[..] == ImageOf(cap, h) && producer.store.headAbs == Head(h)
            && producer.store.oldestAbs == Oldest(cap, h) && producer.store.lostCount == Evicted(cap, h)
            && producer.store.seqLock == 2 * |h| % 0x1_0000_0000
  {
    hide TraceOf, ImageOf, Oldest, Evicted;
    var cap, h := producer.store.capacity, producer.hist;
    assert h[..|h|] == h;
    Settled(cap, h, |h|);
    forall p: nat | p < cap
      ensures producer.store.bytes[p] == ImageOf(cap, h)[p]
    {
      TraceImage(cap, h, |h|, p);
    }
  }
}
