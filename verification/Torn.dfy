/** A reader that is overtaken between two bytes of a length: the one failure of a walk that its caller gets to see. */
module TornReads {
  import opened Bytes
  import opened Wire
  import opened Layout
  import opened Image
  import opened Reads
  import opened StoreLog
  import opened Trace
  import opened Reader
  import opened Producer
  import opened Fences

  /** The low byte of one length and the high byte of another. */
  function TornLength(first: nat, second: nat): nat {
    first % 256 + second / 256 * 256
  }

  /** Whenever the low byte of the first length and the high byte of the second make a length beyond the capacity, a
  sequential reader that has seen the first record published reports that the record crosses the physical end. */
  method ReadTorn(cap: nat, first: Record, second: Record)
    returns (store: ReaderStore, res: Result<nat, RingError>)
    requires Encodable(first, true) && Encodable(second, true)
    requires |Encoding(first, true)| <= cap && |Encoding(second, true)| <= cap
    requires TornLength(|Encoding(first, true)|, |Encoding(second, true)|) > cap
    ensures store.Valid() && store.Sequential() && store.capacity == cap
    ensures Fed(store, Overwriting(cap, first, second))
    ensures res == Err(RecordCrossesBoundary(0))
  {
    hide Encoding, Encodable, TraceOf, MemByte, MemHead, EncodedEntry, SeemsToCross, TornLength, Oldest, Evicted;
    var h := Overwriting(cap, first, second);
    TornLaid(cap, first, second, h);
    var ops := TraceOf(cap, h);
    var early := Base(cap, h, 1);
    TracePrefix(cap, h, 1);
    Settled(cap, h, 1);
    store := new ReaderStore(cap, false, ops, (k: nat) => if k < 7 then early else |ops|);
    var head := store.LoadHeadAcquire();
    var byte0 := LoadFirst(store, 0, h, 0, 0, early);
    TornBytes(store, h, 2, early);
    res := ReadLength(store, 0, 0, h, 0, early);
  }

  lemma TornPlaced(cap: nat, a: nat, b: nat)
    requires 0 < a <= cap && 0 < b <= cap && TornLength(a, b) > cap
    ensures NextStart(cap, 0, a) == 0 && NextStart(cap, a, b) == cap
  {
    hide TornLength;
    TornAtMost(a, b);
    ModOf(0, cap, 0, 0);
    if a < cap {
      ModOf(a, cap, 0, a);
    } else {
      ModOf(a, cap, 1, 0);
    }
  }

  lemma TornAtMost(a: nat, b: nat)
    ensures TornLength(a, b) <= a + b
  {
  }

  lemma TornLaid(cap: nat, first: Record, second: Record, h: seq<Entry>)
    requires Encodable(first, true) && Encodable(second, true) && h == Overwriting(cap, first, second)
    requires |h[0].bytes| <= cap && |h[1].bytes| <= cap && TornLength(|h[0].bytes|, |h[1].bytes|) > cap
    ensures History(cap, h) && Head(h) <= 0xFFFF_FFFF_FFFF_FFFF && |h[..1]| == 1 && Head(h[..1]) == |h[0].bytes|
  {
    hide Encoding, Encodable, TornLength, NextStart, Framed;
    TornSize(cap, h[0], h[1]);
    TornPlaced(cap, |h[0].bytes|, |h[1].bytes|);
    assert HeadAt(h, 0) == 0 && HeadAt(h, 1) == |h[0].bytes|;
    assert LaidAt(cap, h, 0);
    assert LaidAt(cap, h, 1);
  }

  lemma TornSize(cap: nat, a: Entry, b: Entry)
    requires EncodedEntry(a) && EncodedEntry(b) && TornLength(|a.bytes|, |b.bytes|) > cap
    ensures 0 < |a.bytes| && 0 < |b.bytes| && cap < 0x1_0200 && |b.bytes| < 0x1_0000
  {
    hide EncodedEntry;
    EntryFramed(a);
    EntryFramed(b);
  }

  /** What the reader sees: four sync bytes and the low length byte of the first record, then the high length byte of
  the second. */
  lemma TornBytes(store: ReaderStore, h: seq<Entry>, from: nat, early: nat)
    requires store.view <= early <= |store.ops| && |h| == 2 && History(store.capacity, h)
    requires store.ops == TraceOf(store.capacity, h) && early == Base(store.capacity, h, 1)
    requires h[0].start == 0 && h[1].start == store.capacity
    requires forall k: nat | from <= k < from + 5 :: store.TimeOf(k) == early
    requires store.TimeOf(from + 5) == |store.ops|
    requires TornLength(|h[0].bytes|, |h[1].bytes|) > store.capacity
    ensures SeemsToCross(store, from, 0)
  {
    hide TraceOf, MemByte, EncodedEntry, Laid, BytesSeen, TornLength, FromLe;
    var cap := store.capacity;
    CandidateFrame(cap, h, 0);
    CandidateFrame(cap, h, 1);
    SeenSync(store, h, from, early);
    SeenLength(store, h, from + 4, early);
    var length := BytesSeen(store, from + 4, 4, 2);
    assert length[0..2] == length;
    LengthBytes(h[0].bytes, h[1].bytes, length);
  }

  lemma SeenSync(store: ReaderStore, h: seq<Entry>, from: nat, early: nat)
    requires store.view <= early <= |store.ops| && |h| == 2 && History(store.capacity, h)
    requires store.ops == TraceOf(store.capacity, h) && early == Base(store.capacity, h, 1) && h[0].start == 0
    requires forall k: nat | from <= k < from + 4 :: store.TimeOf(k) == early
    ensures BytesSeen(store, from, 0, 4) == SYNC
  {
    hide TraceOf, MemByte, EncodedEntry, Laid, BytesSeen, FromLe;
    var cap := store.capacity;
    CandidateFrame(cap, h, 0);
    forall k: nat | k < 4
      ensures MemByte(store.ops, k, early) == h[0].bytes[k]
    {
      Shown(cap, h, 0, k);
    }
    FourSeen(store, from);
    var sync := h[0].bytes[0..4];
    assert sync == [h[0].bytes[0], h[0].bytes[1], h[0].bytes[2], h[0].bytes[3]];
  }

  lemma SeenLength(store: ReaderStore, h: seq<Entry>, from: nat, early: nat)
    requires store.view <= early <= |store.ops| && |h| == 2 && History(store.capacity, h)
    requires store.ops == TraceOf(store.capacity, h) && early == Base(store.capacity, h, 1)
    requires h[0].start == 0 && h[1].start == store.capacity
    requires store.TimeOf(from) == early && store.TimeOf(from + 1) == |store.ops|
    ensures 6 <= |h[0].bytes| && 6 <= |h[1].bytes|
    ensures BytesSeen(store, from, 4, 2) == [h[0].bytes[4], h[1].bytes[5]]
  {
    hide TraceOf, MemByte, EncodedEntry, Laid, BytesSeen, FromLe;
    var cap := store.capacity;
    CandidateFrame(cap, h, 0);
    CandidateFrame(cap, h, 1);
    ModOf(cap, cap, 1, 0);
    Shown(cap, h, 0, 4);
    Shown(cap, h, 1, 5);
    EndOfTrace(cap, h);
    TwoSeen(store, from, 4);
  }

  /** The low byte of one length field before the high byte of another. */
  lemma LengthBytes(a: seq<byte>, b: seq<byte>, length: seq<byte>)
    requires 6 <= |a| && 6 <= |b| && length == [a[4], b[5]]
    ensures FromLe(length) == TornLength(FromLe(a[4..6]), FromLe(b[4..6]))
  {
    hide FromLe;
    assert a[4..6] == [a[4], a[5]] && b[4..6] == [b[4], b[5]];
    TwoBytes(a[4..6], a[4], a[5]);
    TwoBytes(b[4..6], b[4], b[5]);
    TwoBytes(length, a[4], b[5]);
  }

  lemma EndOfTrace(cap: nat, h: seq<Entry>)
    requires cap > 0 && |h| == 2
    ensures Base(cap, h, 2) == |TraceOf(cap, h)|
  {
    assert h[..2] == h;
  }

  lemma FourSeen(store: ReaderStore, from: nat)
    requires store.view <= |store.ops|
    ensures BytesSeen(store, from, 0, 4)
            == [MemByte(store.ops, 0, store.TimeOf(from)), MemByte(store.ops, 1, store.TimeOf(from + 1)),
                MemByte(store.ops, 2, store.TimeOf(from + 2)), MemByte(store.ops, 3, store.TimeOf(from + 3))]
  {
    hide MemByte, BytesSeen;
    SeenNone(store, from, 0);
    SeenStep(store, from, 0, 0);
    SeenStep(store, from, 0, 1);
    SeenStep(store, from, 0, 2);
    SeenStep(store, from, 0, 3);
  }

  lemma TwoSeen(store: ReaderStore, from: nat, p: nat)
    requires store.view <= |store.ops|
    ensures BytesSeen(store, from, p, 2)
            == [MemByte(store.ops, p, store.TimeOf(from)), MemByte(store.ops, p + 1, store.TimeOf(from + 1))]
  {
    hide MemByte, BytesSeen;
    SeenNone(store, from, p);
    SeenStep(store, from, p, 0);
    SeenStep(store, from, p, 1);
  }

  lemma TwoBytes(s: seq<byte>, low: nat, high: nat)
    requires s == [low, high]
    ensures FromLe(s) == low + 256 * high
  {
    assert s[1..] == [high];
    assert s[1..][1..] == [];
  }

  /** Right after an append the record's own bytes are in memory. */
  lemma Shown(cap: nat, h: seq<Entry>, i: nat, k: nat)
    requires History(cap, h) && i < |h| && h[i].start % cap == 0 && k < 6
    ensures k < |h[i].bytes| && Base(cap, h, i + 1) <= |TraceOf(cap, h)|
    ensures MemByte(TraceOf(cap, h), k, Base(cap, h, i + 1)) == h[i].bytes[k]
  {
    hide TraceOf, MemByte, EncodedEntry, ImageOf;
    CandidateFrame(cap, h, i);
    var g := h[..i + 1];
    LaidPrefix(cap, h, i + 1);
    RetainedExactly(cap, g);
    RetainedIntact(cap, g, i);
    TracePrefix(cap, h, i + 1);
    TraceImage(cap, h, i + 1, k);
    var image := ImageOf(cap, g);
    assert image[0..|g[i].bytes|][k] == image[k];
  }
}
