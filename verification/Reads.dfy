/** What a read of a ring returns, as a function of the write history alone. */
module Reads {
  import opened Bytes
  import opened Wire
  import opened Codec
  import opened Layout
  import opened Image

  datatype ReadRecord = ReadRecord(startAbs: nat, endAbs: nat, record: Record)

  datatype ReadBatch = ReadBatch(records: seq<ReadRecord>, nextAbs: nat, lapped: bool)

  datatype ControlError =
    | ControlTruncated(needed: nat, available: nat)
    | ControlWrongSync
    | Updating(seqLock: u32)
    | StaleSnapshot(first: u32, second: u32)
    | ReservedNonZero

  datatype RingError =
    | OverwrittenMidRead(readAbs: nat, oldestAbs: nat)
    | RecordCrossesBoundary(abs: nat)
    | RecordExceedsCapacity(recordLen: nat, capacity: nat)
    | EncodedRecordLengthMismatch(declaredLen: nat, actualLen: nat)
    | EncodedRecordMissingCrc(flags: u16)
    | ControlBlockCapacityMismatch(snapshotBytes: u32, capacity: nat)
    | CapturedCapacityZero
    | InvalidCapturedWindow(headAbs: nat, oldestAbs: nat, capacity: nat)
    | ControlBlock(control: ControlError)
    | UnexpectedWrapMarker(abs: nat)
    | Wire(wire: WireError)

  /** The entry carries the CRC encoding of its record. */
  predicate EncodedEntry(e: Entry) {
    Encodable(e.record, true) && e.bytes == Encoding(e.record, true)
  }

  /** A history of records written to a ring of `cap` bytes. */
  predicate History(cap: nat, h: seq<Entry>) {
    Laid(cap, h) && forall i | 0 <= i < |h| :: EncodedEntry(h[i])
  }

  /** What a reader gets for an entry: the record with its CRC flag set. */
  function ReadOf(e: Entry): ReadRecord {
    ReadRecord(e.start, e.End(), Normalised(e.record, true))
  }

  /** The records of `h` that start at or after `lo`, in order. */
  function Window(h: seq<Entry>, lo: nat): seq<ReadRecord> {
    if h == [] then []
    else
      var n := |h| - 1;
      Window(h[..n], lo) + if h[n].start >= lo then [ReadOf(h[n])] else []
  }

  /** The batch a read from `cursor` must return. */
  function BatchOf(cap: nat, h: seq<Entry>, cursor: nat): ReadBatch {
    ReadBatch(Window(h, Max(cursor, Oldest(cap, h))), Head(h), cursor < Oldest(cap, h))
  }

  /** A head some past read could have returned. */
  predicate PastHead(h: seq<Entry>, abs: nat) {
    exists i: nat :: i <= |h| && abs == HeadAt(h, i)
  }

  lemma {:induction false} WindowEmpty(h: seq<Entry>, lo: nat)
    requires forall i | 0 <= i < |h| :: h[i].start < lo
    ensures Window(h, lo) == []
  {
    if h == [] {
    } else {
      WindowEmpty(h[..|h| - 1], lo);
    }
  }

  lemma WindowStep(h: seq<Entry>, lo: nat, i: nat)
    requires i < |h|
    ensures Window(h[..i + 1], lo) == Window(h[..i], lo) + if h[i].start >= lo then [ReadOf(h[i])] else []
  {
    assert h[..i + 1][..i] == h[..i];
  }

  /** What a reader relies on in the bytes of an entry. */
  predicate Framed(bytes: seq<byte>) {
    |bytes| >= HEADER_LEN + CRC_LEN && bytes[0] != 0 && bytes[..4] == SYNC && ReadU16(bytes, 4) == |bytes|
  }

  lemma EntryFramed(e: Entry)
    requires EncodedEntry(e)
    ensures Framed(e.bytes)
  {
    EnvelopeAccepts(e.record, true, []);
    assert e.bytes + [] == e.bytes;
    assert e.bytes[0] == e.bytes[..4][0];
  }

  /** Decoding bytes read from a ring; bytes that are an entry's own come back as its record. */
  method DecodeRead(bytes: seq<byte>, ghost e: Entry) returns (res: Result<Decoded, WireError>)
    ensures res == Decode(bytes)
    ensures EncodedEntry(e) && bytes == e.bytes ==> res == Ok(Decoded(Normalised(e.record, true), |bytes|))
  {
    res := DecodeRecord(bytes);
    if EncodedEntry(e) && bytes == e.bytes {
      DecodeOfEncoding(e.record, true, []);
      assert bytes + [] == bytes;
    }
  }

  // ---- Walking over any bytes -------------------------------------------------

  /** A zero byte, not at the beginning of the image: the rest of the image is skipped. */
  predicate Skips(image: seq<byte>, abs: nat, next: nat) {
    && image != [] && abs % |image| > 0 && image[abs % |image|] == 0
    && next == abs + (|image| - abs % |image|)
  }

  /** A record lies at `abs`, within the image, and ends at `next`. */
  predicate Yields(image: seq<byte>, abs: nat, next: nat, found: ReadRecord) {
    && image != [] && image[abs % |image|] != 0 && abs < next && abs % |image| + (next - abs) <= |image|
    && Decode(image[abs % |image|..abs % |image| + (next - abs)]) == Ok(Decoded(found.record, next - abs))
    && found.startAbs == abs && found.endAbs == next
  }

  /** One leg of a walk: a skip, or a record. */
  datatype Leg = Leg(abs: nat, next: nat, found: Option<ReadRecord>)

  predicate LegOk(image: seq<byte>, leg: Leg) {
    match leg.found
    case None => Skips(image, leg.abs, leg.next)
    case Some(r) => Yields(image, leg.abs, leg.next, r)
  }

  /** Leg `i` begins where the one before it ended. */
  predicate Continues(legs: seq<Leg>, from: nat, i: nat)
    requires i < |legs|
  {
    legs[i].abs == if i == 0 then from else legs[i - 1].next
  }

  /** The legs lead from `from` to `abs`, each beginning below `head` where the one before it ended. */
  predicate Chain(image: seq<byte>, head: nat, from: nat, abs: nat, legs: seq<Leg>) {
    && (forall i | 0 <= i < |legs| :: legs[i].abs < head && LegOk(image, legs[i]))
    && (forall i | 0 <= i < |legs| :: Continues(legs, from, i))
    && abs == if legs == [] then from else legs[|legs| - 1].next
  }

  /** The records found on the way. */
  function FoundOn(legs: seq<Leg>): seq<ReadRecord> {
    if legs == [] then []
    else
      var n := |legs| - 1;
      FoundOn(legs[..n]) + match legs[n].found case None => [] case Some(r) => [r]
  }

  /** A walk below `head` leads from `from` to `abs` and finds `records` on its way. */
  ghost predicate Walked(image: seq<byte>, head: nat, from: nat, abs: nat, records: seq<ReadRecord>) {
    exists legs :: Chain(image, head, from, abs, legs) && FoundOn(legs) == records
  }

  /** The walk has passed the head and found `records`. */
  ghost predicate WalkedPast(image: seq<byte>, head: nat, from: nat, records: seq<ReadRecord>) {
    exists abs: nat | abs >= head :: Walked(image, head, from, abs, records)
  }

  /** The walk came to a place where it could not go on, for this reason. */
  ghost predicate WalkedInto(image: seq<byte>, head: nat, from: nat, error: RingError) {
    exists abs: nat, records | abs < head :: Walked(image, head, from, abs, records) && Stuck(image, abs, error)
  }

  /** Why a walk cannot go on from `abs`: a zero at the very beginning, a record that seems to cross the end, or one
  that cannot be decoded. */
  predicate Stuck(image: seq<byte>, abs: nat, error: RingError) {
    && image != []
    && var phys, cap := abs % |image|, |image|;
       match error
       case UnexpectedWrapMarker(a) => a == abs && phys == 0 && image[0] == 0
       case RecordCrossesBoundary(a) =>
         && a == abs && image[phys] != 0
         && (phys + 40 > cap
             || (image[phys..phys + 4] == SYNC && FromLe(image[phys + 4..phys + 6]) >= 40
                 && phys + FromLe(image[phys + 4..phys + 6]) > cap))
       case Wire(e) =>
         && image[phys] != 0 && phys + 40 <= cap
         && (if image[phys..phys + 4] != SYNC then e == WrongSync
             else
               var len := FromLe(image[phys + 4..phys + 6]);
               if len < 40 then e == InvalidLength(len, cap - phys)
               else phys + len <= cap && Decode(image[phys..phys + len]) == Err(e))
       case _ => false
  }

  /** A record that is decoded from exactly its own bytes. */
  lemma YieldsDecoded(image: seq<byte>, abs: nat, len: nat, d: Decoded)
    requires image != [] && image[abs % |image|] != 0 && 40 <= len && abs % |image| + len <= |image|
    requires Decode(image[abs % |image|..abs % |image| + len]) == Ok(d)
    requires ReadU16(image, abs % |image| + 4) == len
    ensures d.consumed == len && Yields(image, abs, abs + len, ReadRecord(abs, abs + d.consumed, d.record))
  {
    hide Decode, FromLe;
    var phys := abs % |image|;
    var s := image[phys..phys + len];
    DecodedLength(s);
    Slices(image, phys, phys + len, 4, 6);
  }

  lemma ZeroFirst(image: seq<byte>, abs: nat)
    requires image != [] && abs % |image| == 0 && image[0] == 0
    ensures Stuck(image, abs, UnexpectedWrapMarker(abs))
  {
  }

  /** Where a walk ends, and why. */
  lemma WalkEnds(image: seq<byte>, head: nat, from: nat, abs: nat, records: seq<ReadRecord>, error: RingError)
    requires Walked(image, head, from, abs, records) && abs < head && Stuck(image, abs, error)
    ensures WalkedInto(image, head, from, error)
  {
    hide Walked, Stuck;
  }

  lemma WalkBegun(image: seq<byte>, head: nat, from: nat)
    ensures Walked(image, head, from, from, [])
  {
    assert Chain(image, head, from, from, []);
  }

  lemma WalkSkips(image: seq<byte>, head: nat, from: nat, abs: nat, phys: nat, records: seq<ReadRecord>)
    requires image != [] && phys == abs % |image| > 0 && image[phys] == 0
    requires Walked(image, head, from, abs, records) && abs < head
    ensures Walked(image, head, from, abs + (|image| - phys), records)
  {
    hide Walked;
    WalkGoes(image, head, from, records, Leg(abs, abs + (|image| - phys), None));
    assert records + [] == records;
  }

  lemma WalkReads(image: seq<byte>, head: nat, from: nat, abs: nat, records: seq<ReadRecord>, found: ReadRecord)
    requires Walked(image, head, from, abs, records) && abs < head && Yields(image, abs, found.endAbs, found)
    ensures Walked(image, head, from, found.endAbs, records + [found]) && abs < found.endAbs
  {
    hide Walked, Decode;
    WalkGoes(image, head, from, records, Leg(abs, found.endAbs, Some(found)));
  }

  lemma WalkGoes(image: seq<byte>, head: nat, from: nat, records: seq<ReadRecord>, leg: Leg)
    requires Walked(image, head, from, leg.abs, records) && leg.abs < head && LegOk(image, leg)
    ensures Walked(image, head, from, leg.next, records + match leg.found case None => [] case Some(r) => [r])
  {
    hide LegOk;
    var legs :| Chain(image, head, from, leg.abs, legs) && FoundOn(legs) == records;
    var more := legs + [leg];
    assert more[..|legs|] == legs;
    forall i | 0 <= i < |more|
      ensures more[i].abs < head && LegOk(image, more[i])
      ensures Continues(more, from, i)
    {
      if i < |legs| {
        assert Continues(legs, from, i) && more[i] == legs[i] && (i > 0 ==> more[i - 1] == legs[i - 1]);
      } else {
        assert more[i] == leg && (i > 0 ==> more[i - 1] == legs[|legs| - 1]);
      }
    }
    assert Chain(image, head, from, leg.next, more);
  }

  // ---- Positions a walk can stand on ----------------------------------------

  /** The walk stands before entry `i`: at the end of the previous one or at the start of `i` itself. */
  predicate Before(h: seq<Entry>, i: nat, abs: nat) {
    i <= |h| && (abs == HeadAt(h, i) || (i < |h| && abs == h[i].start))
  }

  /** A walk that starts at a past head or at the oldest record stands before some entry, with nothing to deliver
  behind it. */
  lemma WalkStart(cap: nat, h: seq<Entry>, j: nat, abs: nat)
    requires History(cap, h) && Before(h, j, abs)
    ensures Window(h[..j], abs) == []
  {
    forall i | 0 <= i < j
      ensures h[..j][i].start < abs
    {
      Ordered(cap, h, i, j);
    }
    WindowEmpty(h[..j], abs);
  }

  /** A walk that has not reached the head stands before an entry that exists. */
  lemma NotAtHead(cap: nat, h: seq<Entry>, i: nat, abs: nat)
    requires Laid(cap, h) && Before(h, i, abs) && abs < Head(h)
    ensures i < |h| && h[i].start < Head(h)
  {
    if i < |h| {
      Ordered(cap, h, i, |h|);
    }
  }

  /** In a gap the first byte is zero and the skip lands on the next record. */
  lemma GapSkip(cap: nat, h: seq<Entry>, i: nat, abs: nat)
    requires History(cap, h) && i < |h| && abs == HeadAt(h, i) != h[i].start && Floor(cap, Head(h)) <= abs
    ensures ImageOf(cap, h)[abs % cap] == 0 && abs % cap > 0 && abs + (cap - abs % cap) == h[i].start
  {
    LaidFits(cap, h, i);
    ImageMarker(cap, h, i);
  }

  /** What a reader finds where framed bytes lie. */
  lemma FoundAt(image: seq<byte>, phys: nat, bytes: seq<byte>)
    requires Framed(bytes) && phys + |bytes| <= |image| && image[phys..phys + |bytes|] == bytes
    ensures image[phys] != 0 && image[phys..phys + 4] == SYNC && ReadU16(image, phys + 4) == |bytes|
  {
    Slices(image, phys, phys + |bytes|, 0, 4);
    Slices(image, phys, phys + |bytes|, 4, 6);
    assert image[phys] == image[phys..phys + |bytes|][0];
  }

  /** At a retained record the bytes are its encoding. */
  lemma RecordRead(cap: nat, h: seq<Entry>, i: nat, image: seq<byte>, phys: nat)
    requires History(cap, h) && i < |h| && Oldest(cap, h) <= h[i].start
    requires image == ImageOf(cap, h) && phys == h[i].start % cap
    ensures phys + |h[i].bytes| <= cap && |h[i].bytes| >= HEADER_LEN + CRC_LEN
    ensures image[phys] != 0 && image[phys..phys + 4] == SYNC && ReadU16(image, phys + 4) == |h[i].bytes|
    ensures image[phys..phys + |h[i].bytes|] == h[i].bytes
  {
    hide EncodedEntry, ImageOf, Evicted, Oldest;
    RetainedExactly(cap, h);
    RetainedIntact(cap, h, i);
    EntryFramed(h[i]);
    FoundAt(image, phys, h[i].bytes);
  }

  /** One turn of a raw walk over the bytes of a history: in a gap it finds the marker, at a record the record. */
  lemma WalkTurn(cap: nat, h: seq<Entry>, i: nat, abs: nat, image: seq<byte>, phys: nat)
    requires History(cap, h) && Before(h, i, abs) && Oldest(cap, h) <= abs < Head(h)
    requires image == ImageOf(cap, h) && phys == abs % cap
    ensures i < |h| && phys < |image| == cap
    ensures abs != h[i].start ==> image[phys] == 0 && phys > 0 && abs + (cap - phys) == h[i].start
    ensures abs == h[i].start ==> FoundRecord(image, phys, h[i].bytes) && EncodedEntry(h[i])
    ensures Before(h, i + 1, h[i].End())
  {
    NotAtHead(cap, h, i, abs);
    RetainedExactly(cap, h);
    if abs == h[i].start {
      RecordRead(cap, h, i, image, phys);
    } else {
      GapSkip(cap, h, i, abs);
    }
  }

  /** The bytes of a record as a walk checks them. */
  predicate FoundRecord(image: seq<byte>, phys: nat, bytes: seq<byte>) {
    && HEADER_LEN + CRC_LEN <= |bytes| && phys + |bytes| <= |image|
    && image[phys] != 0 && image[phys..phys + 4] == SYNC && ReadU16(image, phys + 4) == |bytes|
    && image[phys..phys + |bytes|] == bytes
  }

  lemma FoundByIndex(cap: nat, h: seq<Entry>, i: nat, image: seq<byte>)
    requires History(cap, h) && i < |h| && Oldest(cap, h) <= h[i].start && image == ImageOf(cap, h)
    ensures FoundRecord(image, h[i].start % cap, h[i].bytes)
  {
    hide ImageOf, Oldest;
    RecordRead(cap, h, i, image, h[i].start % cap);
  }

  lemma OldestOfNone(cap: nat)
    ensures Oldest(cap, []) == 0
  {
  }

  /** Where a read from a past head begins. */
  lemma ReadStart(cap: nat, h: seq<Entry>, cursor: nat) returns (i: nat)
    requires History(cap, h) && PastHead(h, cursor)
    ensures i <= |h| && Before(h, i, Max(cursor, Oldest(cap, h)))
    ensures Window(h[..i], Max(cursor, Oldest(cap, h))) == []
  {
    hide EncodedEntry, Oldest, Evicted, Laid, Window;
    if h != [] {
      RetainedExactly(cap, h);
    } else {
      OldestOfNone(cap);
    }
    if cursor < Oldest(cap, h) {
      i := Evicted(cap, h);
    } else {
      i :| i <= |h| && cursor == HeadAt(h, i);
    }
    WalkStart(cap, h, i, Max(cursor, Oldest(cap, h)));
  }

  /** A reader that has read the first `k` records is told it was lapped when a record it had not read is gone, and also
  when the oldest record is its next one but lies behind a gap; never otherwise. */
  lemma LappedMeans(cap: nat, h: seq<Entry>, k: nat)
    requires History(cap, h) && k <= |h|
    ensures BatchOf(cap, h, HeadAt(h, k)).lapped
            <==> k < Evicted(cap, h) || (k == Evicted(cap, h) < |h| && HeadAt(h, k) < h[k].start)
    ensures BatchOf(cap, h, HeadAt(h, k)).nextAbs == HeadAt(h, |h|)
  {
    hide EncodedEntry, Evicted, Window;
    if h != [] {
      RetainedExactly(cap, h);
      var m := Evicted(cap, h);
      if k < m {
        Ordered(cap, h, k, m);
        LaidFits(cap, h, k);
      } else if m < k {
        Ordered(cap, h, m, k);
      } else {
        LaidFits(cap, h, k);
      }
    }
  }

  /** A walk that has passed the head has collected the whole window. */
  lemma ReadEnd(cap: nat, h: seq<Entry>, i: nat, abs: nat)
    requires History(cap, h) && Before(h, i, abs) && abs >= Head(h)
    ensures h[..i] == h
  {
    if i < |h| {
      Ordered(cap, h, i, |h|);
      LaidFits(cap, h, i);
      assert false;
    }
  }
}
