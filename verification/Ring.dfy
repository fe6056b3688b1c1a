/** The sequential ring: a fixed byte pool, an in-memory index and the loss ranges of evicted records. */
module Ring {
  import opened Bytes
  import opened Wire
  import opened Layout
  import opened Image
  import opened Reads

  datatype RecordIndex = RecordIndex(startAbs: nat, endAbs: nat, runId: u64, sourceId: u32, seqNo: u64)

  /** Identity of a record within the log. */
  datatype Key = Key(runId: u64, sourceId: u32, seqNo: nat)

  /** A contiguous run of evicted records of one source. */
  datatype LossRange = LossRange(runId: u64, sourceId: u32, firstSeq: nat, lastSeq: nat)

  function KeyOf(r: Record): Key {
    Key(r.runId, r.sourceId, r.seqNo)
  }

  function IndexOf(e: Entry): RecordIndex {
    RecordIndex(e.start, e.End(), e.record.runId, e.record.sourceId, e.record.seqNo)
  }

  function Indexes(h: seq<Entry>): seq<RecordIndex> {
    seq(|h|, i requires 0 <= i < |h| => IndexOf(h[i]))
  }

  /** The record keys of a history, in write order. */
  function Keys(h: seq<Entry>): seq<Key> {
    seq(|h|, i requires 0 <= i < |h| => KeyOf(h[i].record))
  }

  /** How many records were preceded by a wrap marker. */
  function WrapsOf(h: seq<Entry>): nat {
    if h == [] then 0
    else WrapsOf(h[..|h| - 1]) + if h[|h| - 1].start != HeadAt(h, |h| - 1) then 1 else 0
  }

  /** The entry lies behind a gap at the end of the ring. */
  predicate BehindGap(h: seq<Entry>, i: nat)
    requires i < |h|
  {
    HeadAt(h, i) < h[i].start
  }

  /** The entries behind a gap. */
  function Wraps(h: seq<Entry>): set<nat> {
    set i | 0 <= i < |h| && BehindGap(h, i)
  }

  lemma {:induction false} WrapsCounted(cap: nat, h: seq<Entry>)
    requires Laid(cap, h)
    ensures WrapsOf(h) == |Wraps(h)|
  {
    hide Laid, BehindGap;
    if h == [] {
      assert Wraps(h) == {};
    } else {
      var n := |h| - 1;
      LaidPrefix(cap, h, n);
      WrapsCounted(cap, h[..n]);
      GapsStay(cap, h);
      var last: set<nat> := if BehindGap(h, n) then {n} else {};
      forall i: nat
        ensures i in Wraps(h) <==> i in Wraps(h[..n]) + last
      {
        assert i < n ==> (BehindGap(h[..n], i) <==> BehindGap(h, i));
      }
      assert Wraps(h) == Wraps(h[..n]) + last;
    }
  }

  lemma GapsStay(cap: nat, h: seq<Entry>)
    requires Laid(cap, h) && h != []
    ensures forall i | 0 <= i < |h| - 1 :: BehindGap(h[..|h| - 1], i) <==> BehindGap(h, i)
    ensures BehindGap(h, |h| - 1) <==> h[|h| - 1].start != HeadAt(h, |h| - 1)
  {
    LaidPrefix(cap, h, |h| - 1);
    LaidFits(cap, h, |h| - 1);
  }

  // ---- Loss ranges -----------------------------------------------------------

  /** The keys a range stands for, in ascending order. */
  function Expand(r: LossRange): (s: seq<Key>)
    decreases r.lastSeq - r.firstSeq
  {
    if r.firstSeq > r.lastSeq then []
    else if r.firstSeq == r.lastSeq then [Key(r.runId, r.sourceId, r.lastSeq)]
    else Expand(r.(lastSeq := r.lastSeq - 1)) + [Key(r.runId, r.sourceId, r.lastSeq)]
  }

  function ExpandAll(rs: seq<LossRange>): seq<Key> {
    if rs == [] then [] else ExpandAll(rs[..|rs| - 1]) + Expand(rs[|rs| - 1])
  }

  /** Adds one evicted key: extends the last range when it continues it, else opens a new one. */
  function AddLoss(rs: seq<LossRange>, k: Key): (s: seq<LossRange>) {
    if rs != [] && rs[|rs| - 1].runId == k.runId && rs[|rs| - 1].sourceId == k.sourceId
       && rs[|rs| - 1].lastSeq + 1 == k.seqNo
    then rs[..|rs| - 1] + [rs[|rs| - 1].(lastSeq := k.seqNo)]
    else rs + [LossRange(k.runId, k.sourceId, k.seqNo, k.seqNo)]
  }

  predicate NonEmptyRanges(rs: seq<LossRange>) {
    forall i | 0 <= i < |rs| :: rs[i].firstSeq <= rs[i].lastSeq
  }

  /** No range continues the one before it: none could be joined to it. */
  predicate Unjoinable(rs: seq<LossRange>) {
    forall i | 0 < i < |rs| ::
      !(rs[i - 1].runId == rs[i].runId && rs[i - 1].sourceId == rs[i].sourceId
        && rs[i - 1].lastSeq + 1 == rs[i].firstSeq)
  }

  /** Merging loses nothing: the ranges stand for one key more. Ranges that could not be joined before still cannot. */
  lemma AddLossExpands(rs: seq<LossRange>, k: Key)
    requires NonEmptyRanges(rs)
    ensures NonEmptyRanges(AddLoss(rs, k))
    ensures ExpandAll(AddLoss(rs, k)) == ExpandAll(rs) + [k]
    ensures Unjoinable(rs) ==> Unjoinable(AddLoss(rs, k))
  {
    var s := AddLoss(rs, k);
    var n := |s| - 1;
    if |s| == |rs| {
      assert s[..n] == rs[..n];
      assert s[n].(lastSeq := s[n].lastSeq - 1) == rs[n];
      assert Expand(s[n]) == Expand(rs[n]) + [k];
    } else {
      assert s[..n] == rs;
      assert Expand(s[n]) == [k];
    }
  }

  lemma {:induction false} ExpandAllConcat(a: seq<LossRange>, b: seq<LossRange>)
    ensures ExpandAll(a + b) == ExpandAll(a) + ExpandAll(b)
  {
    hide ExpandAll, Expand;
    if b == [] {
      assert a + b == a;
      ExpandNone();
    } else {
      var c, r := b[..|b| - 1], b[|b| - 1];
      assert b == c + [r] && a + b == (a + c) + [r];
      calc {
        ExpandAll(a + b);
        { ExpandMore(a + c, r); }
        ExpandAll(a + c) + Expand(r);
        { ExpandAllConcat(a, c); }
        (ExpandAll(a) + ExpandAll(c)) + Expand(r);
        ExpandAll(a) + (ExpandAll(c) + Expand(r));
        { ExpandMore(c, r); }
        ExpandAll(a) + ExpandAll(b);
      }
    }
  }

  lemma ExpandNone()
    ensures ExpandAll([]) == []
  {
  }

  lemma ExpandMore(rs: seq<LossRange>, r: LossRange)
    ensures ExpandAll(rs + [r]) == ExpandAll(rs) + Expand(r)
  {
    hide Expand;
    assert (rs + [r])[..|rs|] == rs;
  }

  // ---- The ring ----------------------------------------------------------------

  lemma IndexesTail(h: seq<Entry>, k: nat)
    requires k < |h|
    ensures Indexes(h[k..])[1..] == Indexes(h[k + 1..]) && Indexes(h[k..])[0] == IndexOf(h[k])
  {
    assert h[k..][1..] == h[k + 1..];
  }

  lemma KeysGrow(h: seq<Entry>, k: nat)
    requires k < |h|
    ensures Keys(h[..k + 1]) == Keys(h[..k]) + [KeyOf(h[k].record)]
  {
  }

  lemma IndexesAppend(h: seq<Entry>, k: nat, e: Entry)
    requires k <= |h|
    ensures Indexes((h + [e])[k..]) == Indexes(h[k..]) + [IndexOf(e)]
  {
  }

  class RingBuffer {
    var bytes: array<byte>
    var headAbs: nat
    var oldestAbs: nat
    var lostCount: nat
    var wraps: nat
    var index: seq<RecordIndex>
    var lossRanges: seq<LossRange>
    /** Every record written so far. */
    ghost var hist: seq<Entry>
    /** Every loss range already handed out. */
    ghost var taken: seq<LossRange>

    /** The ring is what its write history makes it. */
    ghost predicate Valid()
      reads this, bytes
    {
      && History(bytes.Length, hist)
      && bytes[..] == ImageOf(bytes.Length, hist)
      && Fields(bytes.Length, hist, headAbs, oldestAbs, lostCount, wraps)
      && Kept(hist, lostCount, index, taken, lossRanges)
    }

    constructor (capacity: nat)
      requires capacity > 0
      ensures Valid() && fresh(bytes) && bytes.Length == capacity && hist == [] && taken == []
    {
      bytes := new byte[capacity](_ => 0);
      headAbs, oldestAbs, lostCount, wraps := 0, 0, 0, 0;
      index, lossRanges, hist, taken := [], [], [], [];
      new;
      assert bytes[..] == Zeros(capacity);
    }

    /** A read-only view of a captured image: no index and no loss ranges. */
    constructor Captured(image: seq<byte>, head: nat, oldest: nat, lost: nat)
      requires image != []
      ensures fresh(bytes) && bytes[..] == image && headAbs == head && oldestAbs == oldest && lostCount == lost
      ensures index == [] && lossRanges == [] && hist == [] && taken == []
    {
      bytes := new byte[|image|](i requires 0 <= i < |image| => image[i]);
      headAbs, oldestAbs, lostCount, wraps := head, oldest, lost, 0;
      index, lossRanges, hist, taken := [], [], [], [];
      new;
      assert bytes[..] == image;
    }

    /** Builds a view from a captured image, refusing an empty image or an impossible live window. */
    static method FromCaptured(image: seq<byte>, head: nat, oldest: nat, lost: nat)
      returns (res: Result<RingBuffer, RingError>)
      ensures image == [] ==> res == Err(CapturedCapacityZero)
      ensures image != [] && (oldest > head || head - oldest > |image|)
              ==> res == Err(InvalidCapturedWindow(head, oldest, |image|))
      ensures image != [] && oldest <= head <= oldest + |image|
              ==> res.Ok? && fresh(res.value) && res.value.bytes[..] == image && res.value.headAbs == head
                  && res.value.oldestAbs == oldest && res.value.lostCount == lost && res.value.index == []
    {
      if |image| == 0 {
        return Err(CapturedCapacityZero);
      }
      if oldest > head || head - oldest > |image| {
        return Err(InvalidCapturedWindow(head, oldest, |image|));
      }
      var ring := new RingBuffer.Captured(image, head, oldest, lost);
      res := Ok(ring);
    }

    /** Drains the pending loss ranges. */
    method TakeProducerLossRanges() returns (ranges: seq<LossRange>)
      requires Valid()
      modifies this`lossRanges, this`taken
      ensures Valid() && ranges == old(lossRanges) && lossRanges == [] && taken == old(taken) + ranges
    {
      hide ImageOf, History, Indexes, Keys, Fields;
      ranges := lossRanges;
      ExpandAllConcat(taken, lossRanges);
      taken := taken + lossRanges;
      lossRanges := [];
      assert ExpandAll(taken) + [] == ExpandAll(taken);
    }

    /** Pops every record below the retention floor of the coming write, remembering each as lost, and moves the
    oldest offset. */
    method EvictBeforeClobber(finalHead: nat, nextRecordStart: nat, ghost e: Entry)
      requires Laid(bytes.Length, hist) && Laid(bytes.Length, hist + [e])
      requires finalHead == e.End() && nextRecordStart == e.start
      requires lostCount == Evicted(bytes.Length, hist) && Kept(hist, lostCount, index, taken, lossRanges)
      modifies this`index, this`lossRanges, this`lostCount, this`oldestAbs
      ensures lostCount == Evicted(bytes.Length, hist + [e]) && oldestAbs == Oldest(bytes.Length, hist + [e])
      ensures lostCount <= |hist| && Kept(hist, lostCount, index, taken, lossRanges)
    {
      hide Kept, EvictionAt, Evicted, Oldest, Laid;
      ghost var h, k := hist, lostCount;
      EvictionStart(bytes.Length, h, e);
      var floor := Floor(bytes.Length, finalHead);
      var evicted := 0;
      while index != [] && index[0].startAbs < floor
        invariant k == lostCount + evicted && Kept(h, k, index, taken, lossRanges)
        invariant EvictionAt(bytes.Length, h, e, k)
        decreases |index|
      {
        KeptTurn(h, k, index, taken, lossRanges);
        EvictionTurn(bytes.Length, h, e, k);
        var front := index[0];
        index := index[1..];
        RecordProducerLoss(Key(front.runId, front.sourceId, front.seqNo));
        evicted, k := evicted + 1, k + 1;
      }
      lostCount := lostCount + evicted;
      EvictionEnd(bytes.Length, h, e, k, index, taken, lossRanges);
      oldestAbs := if index != [] then index[0].startAbs else nextRecordStart;
    }

    method RecordProducerLoss(k: Key)
      modifies this`lossRanges
      ensures lossRanges == AddLoss(old(lossRanges), k)
      ensures NonEmptyRanges(old(lossRanges))
              ==> NonEmptyRanges(lossRanges) && ExpandAll(lossRanges) == ExpandAll(old(lossRanges)) + [k]
    {
      hide ExpandAll, Expand, NonEmptyRanges;
      if NonEmptyRanges(lossRanges) {
        AddLossExpands(lossRanges, k);
      }
      if |lossRanges| > 0 {
        var last := lossRanges[|lossRanges| - 1];
        if last.runId == k.runId && last.sourceId == k.sourceId && last.lastSeq + 1 == k.seqNo {
          lossRanges := lossRanges[..|lossRanges| - 1] + [last.(lastSeq := k.seqNo)];
          return;
        }
      }
      lossRanges := lossRanges + [LossRange(k.runId, k.sourceId, k.seqNo, k.seqNo)];
    }

    /** Stores the wrap marker of a gap and the record's bytes. */
    method Store(head: nat, start: nat, encoded: seq<byte>, ghost e: Entry)
      requires bytes.Length > 0 && start % bytes.Length + |encoded| <= bytes.Length
      requires e.start == start && e.bytes == encoded
      modifies bytes
      ensures bytes[..] == Written(bytes.Length, old(bytes[..]), head, e)
    {
      ghost var before := bytes[..];
      if start != head {
        bytes[head % bytes.Length] := 0;
      }
      var p := start % bytes.Length;
      forall i | 0 <= i < |encoded| {
        bytes[p + i] := encoded[i];
      }
      forall q: nat | q < bytes.Length
        ensures bytes[q] == Written(bytes.Length, before, head, e)[q]
      {
        WrittenAt(bytes.Length, before, head, e, q);
        if p <= q < p + |encoded| {
          assert bytes[p + (q - p)] == encoded[q - p];
        }
      }
    }

    /** Encodes and appends a record, reclaiming the oldest bytes if needed. */
    method WriteRecord(record: Record) returns (res: Result<(nat, nat), RingError>)
      requires Valid()
      modifies this, bytes
      ensures Valid() && bytes == old(bytes) && taken == old(taken)
      ensures !Encodable(record, true) ==> res == Err(RingError.Wire(EncodeError(record, true)))
      ensures Encodable(record, true) && |Encoding(record, true)| > bytes.Length
              ==> res == Err(RecordExceedsCapacity(|Encoding(record, true)|, bytes.Length))
      ensures res.Err? ==> hist == old(hist) && lossRanges == old(lossRanges)
      ensures Encodable(record, true) && |Encoding(record, true)| <= bytes.Length
              ==> var e := EntryFor(bytes.Length, old(hist), record);
                  && res == Ok((e.start, e.End())) && hist == old(hist) + [e]
                  && e.record == record && e.bytes == Encoding(record, true)
                  && FirstFit(bytes.Length, old(headAbs), |e.bytes|, e.start)
    {
      var encoded := Encode(record, true);
      if encoded.Err? {
        return Err(RingError.Wire(encoded.error));
      }
      if |encoded.value| > bytes.Length {
        return Err(RecordExceedsCapacity(|encoded.value|, bytes.Length));
      }
      ghost var e := EntryFor(bytes.Length, hist, record);
      EntryForLaid(bytes.Length, hist, record);
      NextStartLeast(bytes.Length, headAbs, |encoded.value|, e.start);
      var span := Append(record, encoded.value, e);
      res := Ok(span);
    }

    /** The part of a write after all checks have passed. */
    method Append(record: Record, encoded: seq<byte>, ghost e: Entry) returns (span: (nat, nat))
      requires Valid() && EncodedEntry(e) && Laid(bytes.Length, hist + [e])
      requires e.record == record && e.bytes == encoded
      modifies this, bytes
      ensures Valid() && bytes == old(bytes) && taken == old(taken)
      ensures span == (e.start, e.End()) && hist == old(hist) + [e]
    {
      hide Kept, Evicted, Oldest, Laid, History, ImageOf, Written, WrapsOf, EncodedEntry, Head;
      ghost var h, image := hist, bytes[..];
      AppendedHistory(bytes.Length, h, e, image);
      var startPhys := headAbs % bytes.Length;
      var startAbs := if startPhys == 0 || startPhys + |encoded| <= bytes.Length then headAbs
                      else headAbs + (bytes.Length - startPhys);
      var endAbs := startAbs + |encoded|;
      EvictBeforeClobber(endAbs, startAbs, e);
      if startAbs != headAbs {
        wraps := wraps + 1;
      }
      Store(headAbs, startAbs, encoded, e);
      headAbs := endAbs;
      KeptAppend(h, lostCount, index, taken, lossRanges, e);
      index := index + [RecordIndex(startAbs, endAbs, record.runId, record.sourceId, record.seqNo)];
      hist := h + [e];
      span := (startAbs, endAbs);
    }

    /** Reads records at or after the cursor through the in-memory index. */
    method ReadFrom(cursor: nat) returns (res: Result<ReadBatch, RingError>)
      requires Valid()
      ensures res == Ok(BatchOf(bytes.Length, hist, cursor))
    {
      hide Kept, Evicted, Oldest, Laid, History, ImageOf, Window, Fields, EncodedEntry, Decode;
      ghost var cap, h, image, k := bytes.Length, hist, bytes[..], lostCount;
      IndexReadStart(cap, h, cursor, headAbs, oldestAbs, lostCount, wraps, index, taken, lossRanges);
      var lapped := cursor < oldestAbs;
      var effective := if lapped then oldestAbs else cursor;
      var records := [];
      for j := 0 to |index|
        invariant k + j <= |h| && records == Window(h[..k + j], effective)
      {
        IndexReadTurn(cap, h, k, index, taken, lossRanges, j, effective, image);
        var idx := index[j];
        if idx.startAbs >= effective {
          var start := idx.startAbs % bytes.Length;
          var len := idx.endAbs - idx.startAbs;
          var decoded := DecodeRead(bytes[start..start + len], h[k + j]);
          match decoded
          case Err(e) =>
            return Err(RingError.Wire(e));
          case Ok(d) =>
            records := records + [ReadRecord(idx.startAbs, idx.endAbs, d.record)];
        }
      }
      assert h[..k + |index|] == h;
      res := Ok(ReadBatch(records, headAbs, lapped));
    }

    /** The bytes and control fields are those of a ring with history `h`. */
    ghost predicate Shows(h: seq<Entry>, head: nat, oldest: nat)
      reads this, bytes
    {
      && History(bytes.Length, h) && bytes[..] == ImageOf(bytes.Length, h)
      && head == Head(h) && oldest == Oldest(bytes.Length, h)
    }

    /** Checks and decodes what lies at `abs`, where the first byte is not zero. An entry's own bytes come back as its
    record; of any bytes the result says what is there, or what is wrong with it. */
    method ReadRecordAt(abs: nat, ghost e: Entry) returns (res: Result<ReadRecord, RingError>)
      requires bytes.Length > 0 && bytes[abs % bytes.Length] != 0
      ensures res.Ok? ==> res.value.startAbs == abs && Yields(bytes[..], abs, res.value.endAbs, res.value)
      ensures res.Err? ==> Stuck(bytes[..], abs, res.error)
      ensures EncodedEntry(e) && FoundRecord(bytes[..], abs % bytes.Length, e.bytes)
              ==> res == Ok(ReadRecord(abs, abs + |e.bytes|, ReadOf(e).record))
    {
      hide EncodedEntry, Decode, FromLe, Yields;
      var phys := abs % bytes.Length;
      if phys + HEADER_LEN > bytes.Length {
        return Err(RecordCrossesBoundary(abs));
      }
      if bytes[phys..phys + 4] != SYNC {
        return Err(RingError.Wire(WrongSync));
      }
      var totalLen := ReadU16(bytes[..], phys + 4);
      if totalLen < HEADER_LEN {
        return Err(RingError.Wire(InvalidLength(totalLen, bytes.Length - phys)));
      }
      if phys + totalLen > bytes.Length {
        return Err(RecordCrossesBoundary(abs));
      }
      var decoded := DecodeRead(bytes[phys..phys + totalLen], e);
      if decoded.Err? {
        return Err(RingError.Wire(decoded.error));
      }
      YieldsDecoded(bytes[..], abs, totalLen, decoded.value);
      res := Ok(ReadRecord(abs, abs + decoded.value.consumed, decoded.value.record));
    }

    /** Walks the raw bytes between the cursor and `head`, following wrap markers and checking every record.

    Of any bytes, a batch holds what a walk to the head finds, and an error says where and why it could not go on. On
    bytes that show a history the walk finds the batch of that history. */
    method ReadRawWindow(cursor: nat, head: nat, firstOldest: nat, ghost h: seq<Entry>)
      returns (res: Result<ReadBatch, RingError>)
      requires bytes.Length > 0
      ensures res.Ok? ==> res.value.nextAbs == head && res.value.lapped == (cursor < firstOldest)
      ensures res.Ok? ==> WalkedPast(bytes[..], head, Max(cursor, firstOldest), res.value.records)
      ensures res.Err? ==> WalkedInto(bytes[..], head, Max(cursor, firstOldest), res.error)
      ensures Shows(h, head, firstOldest) && PastHead(h, cursor) ==> res == Ok(BatchOf(bytes.Length, h, cursor))
    {
      hide Evicted, Oldest, Laid, History, ImageOf, Window, EncodedEntry, Head, Before, PastHead, Walked, Stuck;
      hide Yields, Skips, FoundRecord, LegOk, WalkedInto;
      ghost var cap, image := bytes.Length, bytes[..];
      ghost var good := Shows(h, head, firstOldest) && PastHead(h, cursor);
      ghost var i: nat := 0;
      var lapped := cursor < firstOldest;
      var abs: nat := if lapped then firstOldest else cursor;
      ghost var lo := abs;
      if good {
        i := ReadStart(cap, h, cursor);
      }
      var records := [];
      WalkBegun(image, head, lo);
      while abs < head
        invariant lo <= abs && Walked(image, head, lo, abs, records)
        invariant good ==> i <= |h| && Before(h, i, abs) && records == Window(h[..i], lo)
        decreases head - abs
      {
        if firstOldest > abs {
          return Err(OverwrittenMidRead(abs, firstOldest));
        }
        var phys := abs % bytes.Length;
        if good {
          WalkTurn(cap, h, i, abs, image, phys);
        }
        var first := bytes[phys];
        if first == 0 {
          if phys == 0 {
            ZeroFirst(image, abs);
            WalkEnds(image, head, lo, abs, records, UnexpectedWrapMarker(abs));
            return Err(UnexpectedWrapMarker(abs));
          }
          WalkSkips(image, head, lo, abs, phys, records);
          abs := abs + (bytes.Length - phys);
          if good {
            BeforeStart(h, i);
          }
          continue;
        }
        var found := ReadRecordAt(abs, if i < |h| then h[i] else Entry(0, SAMPLE, []));
        match found
        case Err(error) =>
          WalkEnds(image, head, lo, abs, records, error);
          return Err(error);
        case Ok(read) =>
          if firstOldest > abs {
            return Err(OverwrittenMidRead(abs, firstOldest));
          }
          WalkReads(image, head, lo, abs, records, read);
          records := records + [read];
          abs := read.endAbs;
          if good {
            WindowStep(h, lo, i);
            i := i + 1;
          }
      }
      if good {
        ReadEnd(cap, h, i, abs);
      }
      res := Ok(ReadBatch(records, head, lapped));
    }

    /** The raw read of a ring through its own control fields. */
    method ReadRawFrom(cursor: nat, ghost h: seq<Entry>) returns (res: Result<ReadBatch, RingError>)
      requires bytes.Length > 0
      ensures res.Ok? ==> WalkedPast(bytes[..], headAbs, Max(cursor, oldestAbs), res.value.records)
      ensures res.Err? ==> WalkedInto(bytes[..], headAbs, Max(cursor, oldestAbs), res.error)
      ensures Shows(h, headAbs, oldestAbs) && PastHead(h, cursor) ==> res == Ok(BatchOf(bytes.Length, h, cursor))
    {
      res := ReadRawWindow(cursor, headAbs, oldestAbs, h);
    }

    /** The raw read through a control-block snapshot. */
    method ReadRawFromSnapshot(cursor: nat, bufferBytes: u32, head: nat, oldest: nat, ghost h: seq<Entry>)
      returns (res: Result<ReadBatch, RingError>)
      requires bytes.Length > 0
      ensures bufferBytes != bytes.Length ==> res == Err(ControlBlockCapacityMismatch(bufferBytes, bytes.Length))
      ensures res.Ok? ==> WalkedPast(bytes[..], head, Max(cursor, oldest), res.value.records)
      ensures bufferBytes == bytes.Length && res.Err? ==> WalkedInto(bytes[..], head, Max(cursor, oldest), res.error)
      ensures bufferBytes == bytes.Length && Shows(h, head, oldest) && PastHead(h, cursor)
              ==> res == Ok(BatchOf(bytes.Length, h, cursor))
    {
      if bufferBytes != bytes.Length {
        return Err(ControlBlockCapacityMismatch(bufferBytes, bytes.Length));
      }
      res := ReadRawWindow(cursor, head, oldest, h);
    }
  }

  /** What appending one entry does to the values a history determines. */
  lemma AppendedHistory(cap: nat, h: seq<Entry>, e: Entry, image: seq<byte>)
    requires History(cap, h) && EncodedEntry(e) && Laid(cap, h + [e]) && image == ImageOf(cap, h)
    ensures cap > 0 && Laid(cap, h) && History(cap, h + [e]) && e.start == NextStart(cap, Head(h), |e.bytes|)
    ensures e.start % cap + |e.bytes| <= cap && ImageOf(cap, h + [e]) == Written(cap, image, Head(h), e)
    ensures Head(h + [e]) == e.End()
    ensures WrapsOf(h + [e]) == WrapsOf(h) + if e.start != Head(h) then 1 else 0
  {
    hide EncodedEntry, ImageOf, Written;
    assert LaidAt(cap, h + [e], |h|) && HeadAt(h + [e], |h|) == Head(h);
    ImageExtend(cap, h, e);
    assert (h + [e])[..|h|] == h;
  }

  /** The counters of a ring with history `h`. */
  predicate Fields(cap: nat, h: seq<Entry>, head: nat, oldest: nat, lost: nat, wraps: nat) {
    head == Head(h) && oldest == Oldest(cap, h) && lost == Evicted(cap, h) && wraps == WrapsOf(h)
  }

  /** The eviction before writing `e` has popped the entries below `k` and has to go on from there. */
  predicate EvictionAt(cap: nat, h: seq<Entry>, e: Entry, k: nat) {
    k <= |h| && FirstFrom(h + [e], Floor(cap, e.End()), k) == Evicted(cap, h + [e])
  }

  lemma EvictionStart(cap: nat, h: seq<Entry>, e: Entry)
    requires Laid(cap, h) && Laid(cap, h + [e])
    ensures EvictionAt(cap, h, e, Evicted(cap, h))
  {
    EvictedGrows(cap, h, e);
  }

  lemma EvictionTurn(cap: nat, h: seq<Entry>, e: Entry, k: nat)
    requires EvictionAt(cap, h, e, k) && k < |h| && h[k].start < Floor(cap, e.End())
    ensures EvictionAt(cap, h, e, k + 1)
  {
    assert (h + [e])[k] == h[k];
  }

  lemma EvictionEnd(cap: nat, h: seq<Entry>, e: Entry, k: nat, index: seq<RecordIndex>, taken: seq<LossRange>,
                    ranges: seq<LossRange>)
    requires Laid(cap, h + [e]) && EvictionAt(cap, h, e, k) && Kept(h, k, index, taken, ranges)
    requires index == [] || index[0].startAbs >= Floor(cap, e.End())
    ensures k == Evicted(cap, h + [e]) <= |h|
    ensures Oldest(cap, h + [e]) == if index != [] then index[0].startAbs else e.start
  {
    RetainedExactly(cap, h + [e]);
    if k < |h| {
      IndexesTail(h, k);
      assert (h + [e])[k] == h[k];
    }
  }

  /** The ranges, taken and pending, stand for exactly the keys of the first `k` records, and as few pending ones as
  possible do. */
  predicate LossOf(keys: seq<Key>, taken: seq<LossRange>, ranges: seq<LossRange>) {
    NonEmptyRanges(ranges) && Unjoinable(ranges) && ExpandAll(taken) + ExpandAll(ranges) == keys
  }

  /** The index lists the entries from `k` on; the loss ranges stand for exactly those before. */
  predicate Kept(h: seq<Entry>, k: nat, index: seq<RecordIndex>, taken: seq<LossRange>, ranges: seq<LossRange>) {
    k <= |h| && index == Indexes(h[k..]) && LossOf(Keys(h[..k]), taken, ranges)
  }

  lemma LossTurn(keys: seq<Key>, taken: seq<LossRange>, ranges: seq<LossRange>, key: Key)
    requires LossOf(keys, taken, ranges)
    ensures LossOf(keys + [key], taken, AddLoss(ranges, key))
  {
    hide ExpandAll, AddLoss, NonEmptyRanges, Unjoinable;
    AddLossExpands(ranges, key);
    assert ExpandAll(taken) + (ExpandAll(ranges) + [key]) == (ExpandAll(taken) + ExpandAll(ranges)) + [key];
  }

  lemma KeptTurn(h: seq<Entry>, k: nat, index: seq<RecordIndex>, taken: seq<LossRange>, ranges: seq<LossRange>)
    requires Kept(h, k, index, taken, ranges) && index != []
    ensures k < |h| && index[0] == IndexOf(h[k])
    ensures Kept(h, k + 1, index[1..], taken, AddLoss(ranges, KeyOf(h[k].record)))
  {
    IndexesTail(h, k);
    KeysGrow(h, k);
    LossTurn(Keys(h[..k]), taken, ranges, KeyOf(h[k].record));
  }

  lemma KeptAppend(h: seq<Entry>, k: nat, index: seq<RecordIndex>, taken: seq<LossRange>, ranges: seq<LossRange>,
                   e: Entry)
    requires Kept(h, k, index, taken, ranges)
    ensures Kept(h + [e], k, index + [IndexOf(e)], taken, ranges)
  {
    IndexesAppend(h, k, e);
    assert (h + [e])[..k] == h[..k];
  }

  /** The entry a record becomes when it is written next. */
  function EntryFor(cap: nat, h: seq<Entry>, record: Record): Entry
    requires cap > 0 && Encodable(record, true)
  {
    var bytes := Encoding(record, true);
    Entry(NextStart(cap, Head(h), |bytes|), record, bytes)
  }

  lemma EntryForLaid(cap: nat, h: seq<Entry>, record: Record)
    requires History(cap, h) && Encodable(record, true) && |Encoding(record, true)| <= cap
    ensures History(cap, h + [EntryFor(cap, h, record)])
  {
    LaidExtend(cap, h, EntryFor(cap, h, record));
  }

  const SAMPLE: Record := Record(0, 0, 0, 0, 0, 0, [])

  lemma BeforeStart(h: seq<Entry>, i: nat)
    requires i < |h|
    ensures Before(h, i, h[i].start)
  {
  }

  /** An index read starts with nothing to deliver below the first indexed entry. */
  lemma IndexReadStart(cap: nat, h: seq<Entry>, cursor: nat, head: nat, oldest: nat, lost: nat, wraps: nat,
                       index: seq<RecordIndex>, taken: seq<LossRange>, ranges: seq<LossRange>)
    requires History(cap, h) && Fields(cap, h, head, oldest, lost, wraps) && Kept(h, lost, index, taken, ranges)
    ensures cap > 0 && lost + |index| == |h| && head == Head(h) && oldest == Oldest(cap, h)
    ensures Window(h[..lost], Max(cursor, oldest)) == []
  {
    if h != [] {
      RetainedExactly(cap, h);
    }
    WindowEmpty(h[..lost], Max(cursor, oldest));
  }

  lemma IndexReadTurn(cap: nat, h: seq<Entry>, k: nat, index: seq<RecordIndex>, taken: seq<LossRange>,
                      ranges: seq<LossRange>, j: nat, lo: nat, image: seq<byte>)
    requires History(cap, h) && Kept(h, k, index, taken, ranges) && j < |index| && Oldest(cap, h) <= lo
    requires image == ImageOf(cap, h)
    ensures k + j < |h| && index[j] == IndexOf(h[k + j])
    ensures h[k + j].start >= lo ==> FoundRecord(image, h[k + j].start % cap, h[k + j].bytes) && EncodedEntry(h[k + j])
    ensures Window(h[..k + j + 1], lo)
            == Window(h[..k + j], lo) + if h[k + j].start >= lo then [ReadOf(h[k + j])] else []
  {
    hide ImageOf, Evicted, Oldest, Window, EncodedEntry, LossOf, FoundRecord;
    assert h[k..][j] == h[k + j];
    WindowStep(h, lo, k + j);
    if h[k + j].start >= lo {
      FoundByIndex(cap, h, k + j, image);
    }
  }

  /** Whatever has been written: the live window fits the ring, every indexed record is intact and in one piece, evicted
  and indexed records together are the write history, and the loss ranges, taken and pending, stand for exactly the
  evicted ones. */
  lemma RingGuarantees(ring: RingBuffer)
    requires ring.Valid()
    ensures ring.oldestAbs <= ring.headAbs <= ring.oldestAbs + ring.bytes.Length
    ensures ring.lostCount + |ring.index| == |ring.hist|
    ensures forall j | 0 <= j < |ring.index| ::
              ring.index[j] == IndexOf(ring.hist[ring.lostCount + j])
              && FoundRecord(ring.bytes[..], ring.index[j].startAbs % ring.bytes.Length,
                             Encoding(ring.hist[ring.lostCount + j].record, true))
    ensures ExpandAll(ring.taken + ring.lossRanges) == Keys(ring.hist[..ring.lostCount])
    ensures |ExpandAll(ring.taken + ring.lossRanges)| == ring.lostCount && Unjoinable(ring.lossRanges)
    ensures ring.wraps == |Wraps(ring.hist)|
  {
    hide ImageOf, Encoding, Encodable, FoundRecord, Oldest, Evicted, ExpandAll, WrapsOf;
    var cap, h, k := ring.bytes.Length, ring.hist, ring.lostCount;
    LiveWindow(cap, h);
    WrapsCounted(cap, h);
    ExpandAllConcat(ring.taken, ring.lossRanges);
    forall j | 0 <= j < |ring.index|
      ensures ring.index[j] == IndexOf(h[k + j])
      ensures FoundRecord(ring.bytes[..], ring.index[j].startAbs % cap, Encoding(h[k + j].record, true))
    {
      IndexedIntact(cap, h, k, ring.index, ring.taken, ring.lossRanges, ring.bytes[..], j);
    }
  }

  lemma IndexedIntact(cap: nat, h: seq<Entry>, k: nat, index: seq<RecordIndex>, taken: seq<LossRange>,
                      ranges: seq<LossRange>, image: seq<byte>, j: nat)
    requires History(cap, h) && k == Evicted(cap, h) && Kept(h, k, index, taken, ranges) && image == ImageOf(cap, h)
    requires j < |index|
    ensures k + j < |h| && index[j] == IndexOf(h[k + j])
    ensures EncodedEntry(h[k + j]) && FoundRecord(image, index[j].startAbs % cap, Encoding(h[k + j].record, true))
  {
    hide ImageOf, Encoding, FoundRecord, Oldest, Evicted, LossOf, Keys;
    assert h[k..][j] == h[k + j];
    RetainedExactly(cap, h);
    FoundByIndex(cap, h, k + j, image);
  }

  lemma LiveWindow(cap: nat, h: seq<Entry>)
    requires Laid(cap, h)
    ensures Oldest(cap, h) <= Head(h) <= Oldest(cap, h) + cap
  {
    if h != [] {
      RetainedExactly(cap, h);
    }
  }

  /** From a past head, every way of reading a ring gives the same batch: through the index, through the raw bytes,
  through a control snapshot, and from a captured image. */
  method ReadEveryWay(ring: RingBuffer, cursor: nat)
    returns (byIndex: Result<ReadBatch, RingError>, byWalk: Result<ReadBatch, RingError>,
             bySnapshot: Result<ReadBatch, RingError>, byCapture: Result<ReadBatch, RingError>)
    requires ring.Valid() && PastHead(ring.hist, cursor) && ring.bytes.Length < 0x1_0000_0000
    ensures byIndex == byWalk == bySnapshot == byCapture == Ok(BatchOf(ring.bytes.Length, ring.hist, cursor))
  {
    hide History, ImageOf, Oldest, Evicted, PastHead, Kept, BatchOf;
    ghost var h := ring.hist;
    LiveWindowOf(ring);
    byIndex := ring.ReadFrom(cursor);
    byWalk := ring.ReadRawFrom(cursor, h);
    bySnapshot := ring.ReadRawFromSnapshot(cursor, ring.bytes.Length, ring.headAbs, ring.oldestAbs, h);
    var captured := RingBuffer.FromCaptured(ring.bytes[..], ring.headAbs, ring.oldestAbs, ring.lostCount);
    assert captured.value.Shows(h, ring.headAbs, ring.oldestAbs);
    byCapture := captured.value.ReadRawFrom(cursor, h);
  }

  lemma LiveWindowOf(ring: RingBuffer)
    requires ring.Valid()
    ensures ring.bytes.Length > 0 && ring.oldestAbs <= ring.headAbs <= ring.oldestAbs + ring.bytes.Length
  {
    LiveWindow(ring.bytes.Length, ring.hist);
  }
}
