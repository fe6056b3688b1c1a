/** The concurrent reader: loads against a producer's log, and the raw walk over them. */
module Reader {
  import opened Bytes
  import opened Wire
  import opened Layout
  import opened Reads
  import opened StoreLog
  import opened Trace

  /** A reader's handle on a concurrent store, in-process or shared-memory.

  The `n`-th load is satisfied at the time `schedule` proposes, but never before the reader's view. An arbitrary
  schedule covers every stale or new value the memory model allows; a schedule that never goes back covers every
  sequentially consistent interleaving. The shared-memory store is modelled for the latter only. */
  class ReaderStore {
    const capacity: nat
    const shared: bool
    const ops: seq<Op>
    const schedule: nat -> nat
    var loads: nat
    var view: nat
    /** Largest stamp of a relaxed load not yet acquired. */
    var pending: nat
    /** When the last load was satisfied. */
    ghost var now: nat

    ghost predicate Valid()
      reads this
    {
      && view <= |ops| && pending <= |ops| && now <= |ops| && (shared ==> Sequential())
      && (Sequential() ==>
            && view <= now && pending <= now
            && now <= Max(view, if loads == 0 then 0 else Min(schedule(loads - 1), |ops|)))
    }

    /** Loads happen in order: one producer step or one load at a time. */
    ghost predicate Sequential() {
      forall i: nat, j: nat | i <= j :: schedule(i) <= schedule(j)
    }

    /** No later load is satisfied before this time. */
    ghost function Least(): nat
      reads this
    {
      if Sequential() then now else view
    }

    constructor (capacity: nat, shared: bool, ops: seq<Op>, schedule: nat -> nat)
      requires shared ==> forall i: nat, j: nat | i <= j :: schedule(i) <= schedule(j)
      ensures Valid() && this.capacity == capacity && this.ops == ops && this.schedule == schedule
      ensures this.shared == shared && view == 0 && loads == 0
    {
      this.capacity, this.shared, this.ops, this.schedule := capacity, shared, ops, schedule;
      loads, view, pending, now := 0, 0, 0, 0;
    }

    /** When load number `k` is satisfied, as long as the view stays where it is. */
    function TimeOf(k: nat): (t: nat)
      reads this`view
      ensures view <= |ops| ==> view <= t <= |ops|
    {
      Max(view, Min(schedule(k), |ops|))
    }

    /** Picks the time of the next load. */
    method Tick() returns (t: nat)
      requires Valid()
      modifies this`loads, this`now
      ensures loads == old(loads) + 1 && t == TimeOf(old(loads))
      ensures Valid() && now == t && view <= t <= |ops| && old(Least()) <= t && old(Least()) <= Least()
    {
      t := TimeOf(loads);
      loads := loads + 1;
      now := t;
    }

    method LoadByteRelaxed(p: nat) returns (b: byte)
      requires Valid()
      modifies this`loads, this`now, this`pending
      ensures Valid() && view <= now && b == MemByte(ops, p, now)
      ensures old(Least()) <= now && old(Least()) <= Least()
      ensures pending == Max(old(pending), ByteStamp(ops, p, now))
      ensures loads == old(loads) + 1 && now == TimeOf(old(loads))
    {
      var t := Tick();
      b := MemByte(ops, p, t);
      pending := Max(pending, ByteStamp(ops, p, t));
    }

    method LoadHeadAcquire() returns (head: nat)
      requires Valid()
      modifies this`loads, this`now, this`view
      ensures Valid() && old(view) <= view && head == MemHead(ops, view) == MemHead(ops, now)
      ensures loads == old(loads) + 1 && now == old(TimeOf(loads))
      ensures old(Least()) <= now && old(Least()) <= Least()
    {
      var t := Tick();
      head := MemHead(ops, t);
      view := Max(view, HeadStamp(ops, t));
      HeadBetween(ops, HeadStamp(ops, t), t, view);
    }

    method LoadLockAcquire() returns (lock: nat)
      requires Valid()
      modifies this`loads, this`now, this`view
      ensures Valid() && old(view) <= view && lock == MemLock(ops, now) % 0x1_0000_0000
      ensures old(Least()) <= now && old(Least()) <= Least()
      ensures loads == old(loads) + 1
    {
      var t := Tick();
      lock := MemLock(ops, t) % 0x1_0000_0000;
      view := Max(view, LockStamp(ops, t));
    }

    /** Relaxed load of the head, as the seqlocked snapshot does it. */
    method LoadHeadRelaxed() returns (head: nat)
      requires Valid()
      modifies this`loads, this`now, this`pending
      ensures Valid() && head == MemHead(ops, now) && old(Least()) <= now && old(Least()) <= Least()
      ensures loads == old(loads) + 1
    {
      var t := Tick();
      head := MemHead(ops, t);
      pending := Max(pending, HeadStamp(ops, t));
    }

    method LoadLostRelaxed() returns (lost: nat)
      requires Valid()
      modifies this`loads, this`now, this`pending
      ensures Valid() && lost == MemLost(ops, now) && old(Least()) <= now && old(Least()) <= Least()
      ensures loads == old(loads) + 1
    {
      var t := Tick();
      lost := MemLost(ops, t);
      pending := Max(pending, LostStamp(ops, t));
    }

    method LoadOldestAcquire() returns (oldest: nat)
      requires Valid()
      modifies this`loads, this`now, this`view
      ensures Valid() && old(view) <= view && oldest == MemOldest(ops, now) && old(view) <= now
      ensures old(Least()) <= now && old(Least()) <= Least()
      ensures loads == old(loads) + 1
    {
      var t := Tick();
      oldest := MemOldest(ops, t);
      view := Max(view, OldestStamp(ops, t));
    }

    method LoadLostAcquire() returns (lost: nat)
      requires Valid()
      modifies this`loads, this`now, this`view
      ensures Valid() && old(view) <= view && lost == MemLost(ops, now)
      ensures old(Least()) <= now && old(Least()) <= Least()
      ensures loads == old(loads) + 1
    {
      var t := Tick();
      lost := MemLost(ops, t);
      view := Max(view, LostStamp(ops, t));
    }

    method LoadOldestRelaxed() returns (oldest: nat)
      requires Valid()
      modifies this`loads, this`now, this`pending
      ensures Valid() && view <= now && oldest == MemOldest(ops, now) && old(pending) <= pending
      ensures old(Least()) <= now && old(Least()) <= Least()
      ensures loads == old(loads) + 1
    {
      var t := Tick();
      oldest := MemOldest(ops, t);
      pending := Max(pending, OldestStamp(ops, t));
    }

    /** The acquire fence: everything stamped by a relaxed load becomes visible. */
    method AcquireFence()
      requires Valid()
      modifies this`view
      ensures Valid() && view == Max(old(view), pending) && old(Least()) <= Least() && pending <= Least()
    {
      view := Max(view, pending);
    }
  }

  /** No head is stored between the visible store and the time of the load. */
  lemma {:induction false} HeadBetween(ops: seq<Op>, s: nat, t: nat, x: nat)
    requires s <= x <= t <= |ops| && s == HeadStamp(ops, t)
    ensures MemHead(ops, x) == MemHead(ops, t)
    decreases t
  {
    if x == t {
    } else {
      HeadBetween(ops, s, t - 1, x);
    }
  }

  /** The store is fed by a producer that writes the history `h`, whose offsets fit 64 bits. */
  ghost predicate Fed(store: ReaderStore, h: seq<Entry>) {
    History(store.capacity, h) && store.ops == TraceOf(store.capacity, h) && Head(h) <= 0xFFFF_FFFF_FFFF_FFFF
  }

  /** A reader that acquires `seen` learns that the record at `abs` may have been overwritten. */
  predicate Overtaken(ops: seq<Op>, seen: nat, abs: nat)
    requires seen <= |ops|
  {
    MemOldest(ops, seen) > abs
  }

  lemma OvertakenLater(cap: nat, h: seq<Entry>, s: nat, t: nat, abs: nat)
    requires Laid(cap, h) && s <= t <= |TraceOf(cap, h)| && Overtaken(TraceOf(cap, h), s, abs)
    ensures Overtaken(TraceOf(cap, h), t, abs)
  {
    Forward(cap, h, s, t);
  }

  /** One relaxed load of a byte of a published entry: exact, or its stamp tells of the overwrite. */
  lemma LoadExact(cap: nat, h: seq<Entry>, j: nat, k: nat, p: nat, s: nat, t: nat, seen: nat)
    requires Laid(cap, h) && j < |h| && k < |h[j].bytes| && p == h[j].start % cap + k
    requires s <= t <= |TraceOf(cap, h)| && h[j].End() <= MemHead(TraceOf(cap, h), s)
    requires ByteStamp(TraceOf(cap, h), p, t) <= seen <= |TraceOf(cap, h)|
    ensures MemByte(TraceOf(cap, h), p, t) == h[j].bytes[k] || Overtaken(TraceOf(cap, h), seen, h[j].start)
  {
    hide TraceOf, MemHead, MemOldest, MemByte, ByteStamp;
    PublishedByte(cap, h, j, k, p, s, t);
    Forward(cap, h, ByteStamp(TraceOf(cap, h), p, t), seen);
  }

  /** The same for the first byte of a gap. */
  lemma LoadMarker(cap: nat, h: seq<Entry>, j: nat, p: nat, s: nat, t: nat, seen: nat)
    requires Laid(cap, h) && j < |h| && h[j].start != HeadAt(h, j) && p == HeadAt(h, j) % cap
    requires s <= t <= |TraceOf(cap, h)| && h[j].End() <= MemHead(TraceOf(cap, h), s)
    requires ByteStamp(TraceOf(cap, h), p, t) <= seen <= |TraceOf(cap, h)|
    ensures MemByte(TraceOf(cap, h), p, t) == 0 || Overtaken(TraceOf(cap, h), seen, HeadAt(h, j))
  {
    hide TraceOf, MemHead, MemOldest, MemByte, ByteStamp;
    PublishedMarker(cap, h, j, p, s, t);
    Forward(cap, h, ByteStamp(TraceOf(cap, h), p, t), seen);
  }

  /** Physical offset zero holds nothing but first bytes of records: a gap never begins there. */
  lemma StoredAtStart(cap: nat, h: seq<Entry>, n: nat, m: nat)
    requires History(cap, h) && n < |h| && m < |OpsOf(cap, h, n)|
    ensures var op := OpsOf(cap, h, n)[m]; op.StoreByte? && op.phys == 0 ==> op.value == SYNC[0]
  {
    hide Prologue, Marker, AppendOps, EncodedEntry;
    OpKind(cap, h[..n], h[n], m);
    LaidFits(cap, h, n);
    HeadOfPrefix(h, n);
    CandidateFrame(cap, h, n);
    assert h[n].bytes[0] == h[n].bytes[0..4][0];
  }

  /** Once a record's first byte is there, physical offset zero shows such a byte for ever. */
  lemma {:induction false} StaysAtStart(cap: nat, h: seq<Entry>, s: nat, t: nat)
    requires History(cap, h) && s <= t <= |TraceOf(cap, h)| && MemByte(TraceOf(cap, h), 0, s) == SYNC[0]
    ensures MemByte(TraceOf(cap, h), 0, t) == SYNC[0]
    decreases t
  {
    hide TraceOf, OpsOf, Base, EncodedEntry, Laid;
    if s == t {
    } else {
      StaysAtStart(cap, h, s, t - 1);
      TraceNonEmpty(cap, h);
      var n, m := Locate(cap, h, t - 1);
      OpAt(cap, h, n, m);
      StoredAtStart(cap, h, n, m);
    }
  }

  /** From the first publication on, no load at physical offset zero can return a wrap marker. */
  lemma NoMarkerAtStart(cap: nat, h: seq<Entry>, j: nat, s: nat, t: nat)
    requires History(cap, h) && j < |h| && s <= t <= |TraceOf(cap, h)|
    requires h[j].End() <= MemHead(TraceOf(cap, h), s)
    ensures MemByte(TraceOf(cap, h), 0, t) == SYNC[0]
  {
    hide TraceOf, OpsOf, Base, EncodedEntry, MemHead, MemByte, StoredAt, Laid, Marker, Prologue;
    Forward(cap, h, s, t);
    FirstEnds(cap, h, j);
    var n, m := PublishedAfter(cap, h, 0, t);
    var stored := FirstByteStored(cap, h, n, m);
    StaysAtStart(cap, h, stored, t);
  }

  lemma FirstEnds(cap: nat, h: seq<Entry>, j: nat)
    requires History(cap, h) && j < |h|
    ensures h[0].start == 0 && h[0].End() <= h[j].End()
  {
    hide EncodedEntry;
    LaidFits(cap, h, 0);
    LaidFits(cap, h, j);
    if j > 0 {
      Ordered(cap, h, 0, j);
    }
  }

  /** When the first record's first byte was stored. */
  lemma FirstByteStored(cap: nat, h: seq<Entry>, n: nat, m: nat) returns (t: nat)
    requires History(cap, h) && n < |h| && h[0].start == 0 && m <= |OpsOf(cap, h, n)|
    requires n == 0 ==> Filled(cap, h[..0], h[0]) < m
    ensures t <= Base(cap, h, n) + m && t <= |TraceOf(cap, h)| && MemByte(TraceOf(cap, h), 0, t) == SYNC[0]
  {
    hide TraceOf, AppendOps, EncodedEntry, Marker, Prologue;
    CandidateFrame(cap, h, 0);
    ByteStoredBy(cap, h, 0, 0);
    t := Base(cap, h, 0) + StoredAt(cap, h, 0, 0);
    OpAt(cap, h, 0, StoredAt(cap, h, 0, 0) - 1);
    OpKind(cap, h[..0], h[0], StoredAt(cap, h, 0, 0) - 1);
    assert h[0].bytes[0] == h[0].bytes[0..4][0];
    if n > 0 {
      BaseStep(cap, h, 0);
      BaseRises(cap, h, 1, n);
    }
  }

  lemma {:induction false} BaseRises(cap: nat, h: seq<Entry>, a: nat, b: nat)
    requires cap > 0 && a <= b <= |h|
    ensures Base(cap, h, a) <= Base(cap, h, b)
    decreases b
  {
    hide OpsOf, TraceOf;
    if a == b {
    } else {
      BaseRises(cap, h, a, b - 1);
      BaseStep(cap, h, b - 1);
    }
  }

  /** The walk stands at `abs`, before entry `i`, whose end was published when the head was loaded at `headTime`. */
  ghost predicate Facing(store: ReaderStore, h: seq<Entry>, i: nat, abs: nat, headTime: nat)
    reads store
  {
    && store.Valid() && Fed(store, h) && headTime <= store.Least()
    && i < |h| && Before(h, i, abs) && h[i].End() <= MemHead(store.ops, headTime)
  }

  /** The first byte at `abs`: zero in a gap and the record's own byte at a record, unless overtaken. */
  method LoadFirst(store: ReaderStore, phys: nat, ghost h: seq<Entry>, ghost i: nat, ghost abs: nat,
                   ghost headTime: nat)
    returns (first: byte)
    requires Facing(store, h, i, abs, headTime) && phys == abs % store.capacity
    modifies store`loads, store`now, store`pending
    ensures Facing(store, h, i, abs, headTime) && old(store.pending) <= store.pending
    ensures old(store.Least()) <= store.Least()
    ensures Overtaken(store.ops, store.pending, abs)
            || (first == 0 <==> abs != h[i].start)
    ensures phys == 0 ==> first != 0
    ensures store.loads == old(store.loads) + 1 && store.now == store.TimeOf(old(store.loads))
  {
    hide TraceOf, MemHead, MemOldest, MemByte, ByteStamp, Overtaken, EncodedEntry;
    first := store.LoadByteRelaxed(phys);
    if phys == 0 {
      NoMarkerAtStart(store.capacity, h, i, headTime, store.now);
    }
    if abs == h[i].start {
      EntryFramed(h[i]);
      LoadExact(store.capacity, h, i, 0, phys, headTime, store.now, store.pending);
    } else {
      LoadMarker(store.capacity, h, i, phys, headTime, store.now, store.pending);
    }
  }

  /** What `n` loads from load number `from` on return, of the bytes from `p` on. */
  ghost function BytesSeen(store: ReaderStore, from: nat, p: nat, n: nat): (s: seq<byte>)
    requires store.view <= |store.ops|
    reads store`view
    ensures |s| == n
  {
    if n == 0 then []
    else BytesSeen(store, from, p, n - 1) + [MemByte(store.ops, p + n - 1, store.TimeOf(from + n - 1))]
  }

  /** `n` relaxed loads from offset `off` of the record at `abs`: its own bytes, unless overtaken. */
  method LoadRun(store: ReaderStore, phys: nat, off: nat, n: nat,
                 ghost h: seq<Entry>, ghost i: nat, ghost abs: nat, ghost headTime: nat)
    returns (s: seq<byte>)
    requires Facing(store, h, i, abs, headTime) && phys == abs % store.capacity
    modifies store`loads, store`now, store`pending
    ensures Facing(store, h, i, abs, headTime) && old(store.pending) <= store.pending && |s| == n
    ensures old(store.Least()) <= store.Least()
    ensures Overtaken(store.ops, store.pending, abs)
            || (abs == h[i].start && off + n <= |h[i].bytes| ==> s == h[i].bytes[off..off + n])
    ensures store.loads == old(store.loads) + n && s == BytesSeen(store, old(store.loads), phys + off, n)
  {
    hide TraceOf, MemHead, MemOldest, MemByte, ByteStamp, Overtaken, EncodedEntry, BytesSeen;
    s := [];
    SeenNone(store, store.loads, phys + off);
    for k := 0 to n
      invariant Facing(store, h, i, abs, headTime) && old(store.pending) <= store.pending && |s| == k
      invariant old(store.Least()) <= store.Least()
      invariant Overtaken(store.ops, store.pending, abs)
                || (abs == h[i].start && off + n <= |h[i].bytes| ==> s == h[i].bytes[off..off + k])
      invariant store.loads == old(store.loads) + k && s == BytesSeen(store, old(store.loads), phys + off, k)
    {
      ghost var before := store.pending;
      var b := store.LoadByteRelaxed(phys + off + k);
      SeenStep(store, old(store.loads), phys + off, k);
      s := s + [b];
      if Overtaken(store.ops, before, abs) {
        OvertakenLater(store.capacity, h, before, store.pending, abs);
      } else if abs == h[i].start && off + n <= |h[i].bytes| {
        LoadExact(store.capacity, h, i, off + k, phys + off + k, headTime, store.now, store.pending);
        assert h[i].bytes[off..off + k + 1] == h[i].bytes[off..off + k] + [h[i].bytes[off + k]];
      }
    }
  }

  lemma SeenNone(store: ReaderStore, from: nat, p: nat)
    requires store.view <= |store.ops|
    ensures BytesSeen(store, from, p, 0) == []
  {
  }

  lemma SeenStep(store: ReaderStore, from: nat, p: nat, n: nat)
    requires store.view <= |store.ops|
    ensures BytesSeen(store, from, p, n + 1)
            == BytesSeen(store, from, p, n) + [MemByte(store.ops, p + n, store.TimeOf(from + n))]
  {
  }

  /** A failure of the walk proper; one that reports an overwrite names a later oldest offset to resume from. */
  ghost predicate WalkError(h: seq<Entry>, from: nat, error: RingError) {
    && (error.OverwrittenMidRead? || error.RecordCrossesBoundary? || error.Wire?)
    && (error.OverwrittenMidRead? ==> from <= error.readAbs < error.oldestAbs && Standing(h, error.oldestAbs))
    && (error.RecordCrossesBoundary? ==> from <= error.abs)
  }

  /** The offset an overwrite error names is not ahead of the oldest offset. */
  predicate SeenOldest(ops: seq<Op>, t: nat, error: RingError)
    requires t <= |ops|
  {
    error.OverwrittenMidRead? ==> error.oldestAbs <= MemOldest(ops, t)
  }

  /** What has been learned about the candidate at `abs`: it is entry `i`, unless a pending stamp tells otherwise. */
  ghost predicate Candidate(store: ReaderStore, h: seq<Entry>, i: nat, abs: nat)
    reads store
    requires store.Valid() && i < |h|
  {
    Overtaken(store.ops, store.pending, abs) || abs == h[i].start
  }

  /** What has been learned about the length of the candidate at `abs`. */
  ghost predicate Measured(store: ReaderStore, h: seq<Entry>, i: nat, abs: nat, totalLen: nat)
    reads store
    requires store.Valid() && i < |h|
  {
    Overtaken(store.ops, store.pending, abs) || (abs == h[i].start && totalLen == |h[i].bytes|)
  }

  /** The loads from number `from` on make the candidate seem to cross the physical end: it has no room for a header, or
  sync bytes and a length that is too large have been read. */
  ghost predicate SeemsToCross(store: ReaderStore, from: nat, phys: nat)
    requires store.view <= |store.ops|
    reads store`view
  {
    || phys + HEADER_LEN > store.capacity
    || (BytesSeen(store, from, phys, 4) == SYNC
        && var n := ReadU16(BytesSeen(store, from + 4, phys + 4, 2), 0);
           n >= HEADER_LEN && phys + n > store.capacity)
  }

  /** The checks before the copy: room for a header, the sync bytes and a plausible length. */
  method ReadLength(store: ReaderStore, abs: nat, phys: nat, ghost h: seq<Entry>, ghost i: nat, ghost headTime: nat)
    returns (res: Result<nat, RingError>)
    requires Facing(store, h, i, abs, headTime) && phys == abs % store.capacity && Candidate(store, h, i, abs)
    modifies store`loads, store`now, store`pending
    ensures Facing(store, h, i, abs, headTime) && old(store.Least()) <= store.Least()
    ensures res.Ok?
            ==> HEADER_LEN <= res.value && phys + res.value <= store.capacity && Measured(store, h, i, abs, res.value)
    ensures res.Err? ==> res.error == RecordCrossesBoundary(abs) || res.error.Wire?
    ensures res.Err? && res.error.RecordCrossesBoundary? <==> SeemsToCross(store, old(store.loads), phys)
    ensures store.Sequential() && res.Err? ==> Overtaken(store.ops, store.now, abs)
  {
    hide TraceOf, MemHead, MemOldest, MemByte, ByteStamp, Overtaken, EncodedEntry, FromLe, Laid, Before, BytesSeen;
    CandidateFrame(store.capacity, h, i);
    if phys + HEADER_LEN > store.capacity {
      SeenNow(store, h, abs);
      return Err(RecordCrossesBoundary(abs));
    }
    ghost var before := store.pending;
    var sync := LoadRun(store, phys, 0, 4, h, i, abs, headTime);
    KeepCandidate(store, h, i, abs, before);
    if sync != SYNC {
      SeenNow(store, h, abs);
      return Err(RingError.Wire(WrongSync));
    }
    before := store.pending;
    var lenBytes := LoadRun(store, phys, 4, 2, h, i, abs, headTime);
    KeepCandidate(store, h, i, abs, before);
    var totalLen := ReadU16(lenBytes, 0);
    assert lenBytes[0..2] == lenBytes;
    if totalLen < HEADER_LEN {
      SeenNow(store, h, abs);
      return Err(RingError.Wire(InvalidLength(totalLen, store.capacity - phys)));
    }
    if phys + totalLen > store.capacity {
      SeenNow(store, h, abs);
      return Err(RecordCrossesBoundary(abs));
    }
    res := Ok(totalLen);
  }

  /** Reads, rechecks and decodes the candidate record at `abs`.

  Only the record the producer published at `abs` gets through, whatever the loads returned. In a sequential run every
  failure means that the oldest offset has passed `abs`. */
  method ReadCandidate(store: ReaderStore, abs: nat, phys: nat, ghost h: seq<Entry>, ghost i: nat, ghost headTime: nat)
    returns (res: Result<(ReadRecord, nat), RingError>)
    requires Facing(store, h, i, abs, headTime) && phys == abs % store.capacity && Candidate(store, h, i, abs)
    modifies store
    ensures Facing(store, h, i, abs, headTime)
    ensures old(store.Least()) <= store.Least()
    ensures res.Ok? ==> abs == h[i].start && res.value == (ReadOf(h[i]), |h[i].bytes|) && res.value.1 > 0
    ensures store.Sequential() && res.Err? ==> Overtaken(store.ops, store.now, abs)
    ensures res.Err? ==> WalkError(h, abs, res.error)
    ensures store.Sequential() && res.Err? ==> SeenOldest(store.ops, store.now, res.error)
  {
    hide TraceOf, MemHead, MemOldest, MemByte, ByteStamp, Overtaken, EncodedEntry, FromLe, Laid, Standing, Before;
    hide BytesSeen, SeemsToCross, Decode;
    ghost var e := h[i];
    CandidateFrame(store.capacity, h, i);
    var measured := ReadLength(store, abs, phys, h, i, headTime);
    if measured.Err? {
      return Err(measured.error);
    }
    var totalLen := measured.value;
    ghost var lenSeen := store.pending;
    var bytes := LoadRun(store, phys, 0, totalLen, h, i, abs, headTime);
    ghost var bytesSeen := store.pending;
    store.AcquireFence();
    var oldestAfter := store.LoadOldestRelaxed();
    RecheckSees(store.capacity, h, lenSeen, store.now, abs);
    RecheckSees(store.capacity, h, bytesSeen, store.now, abs);
    if oldestAfter > abs {
      OvertakenBy(store.ops, store.now, abs);
      OldestStanding(store.capacity, h, store.now);
      return Err(OverwrittenMidRead(abs, oldestAfter));
    }
    assert e.bytes[0..|e.bytes|] == e.bytes;
    assert totalLen == |e.bytes| && bytes == e.bytes;
    var decoded := DecodeRead(bytes, e);
    match decoded
    case Err(error) =>
      return Err(RingError.Wire(error));
    case Ok(d) =>
      res := Ok((ReadRecord(abs, abs + d.consumed, d.record), totalLen));
  }

  /** Shape of the entry a candidate should be. */
  lemma CandidateFrame(cap: nat, h: seq<Entry>, i: nat)
    requires History(cap, h) && i < |h|
    ensures EncodedEntry(h[i]) && cap > 0 && h[i].start % cap + |h[i].bytes| <= cap
            && |h[i].bytes| >= HEADER_LEN + CRC_LEN
    ensures h[i].bytes[0..4] == SYNC && FromLe(h[i].bytes[4..6]) == |h[i].bytes|
  {
    hide EncodedEntry;
    LaidFits(cap, h, i);
    EntryFramed(h[i]);
    assert h[i].bytes[0..4] == h[i].bytes[..4];
  }

  lemma SeenNow(store: ReaderStore, h: seq<Entry>, abs: nat)
    requires store.Valid() && Fed(store, h) && Overtaken(store.ops, store.pending, abs)
    ensures store.Sequential() ==> Overtaken(store.ops, store.now, abs)
  {
    hide TraceOf, MemOldest, Overtaken;
    if store.Sequential() {
      OvertakenLater(store.capacity, h, store.pending, store.now, abs);
    }
  }

  lemma KeepCandidate(store: ReaderStore, h: seq<Entry>, i: nat, abs: nat, before: nat)
    requires store.Valid() && Fed(store, h) && i < |h| && before <= store.pending
    requires Overtaken(store.ops, before, abs) || abs == h[i].start
    ensures Candidate(store, h, i, abs)
    ensures Overtaken(store.ops, before, abs) ==> Overtaken(store.ops, store.pending, abs)
  {
    hide TraceOf, MemOldest, Overtaken;
    if Overtaken(store.ops, before, abs) {
      OvertakenLater(store.capacity, h, before, store.pending, abs);
    }
  }

  lemma RecheckSees(cap: nat, h: seq<Entry>, s: nat, t: nat, abs: nat)
    requires History(cap, h) && s <= t <= |TraceOf(cap, h)|
    ensures Overtaken(TraceOf(cap, h), s, abs) ==> MemOldest(TraceOf(cap, h), t) > abs
  {
    hide TraceOf, MemOldest;
    Forward(cap, h, s, t);
  }

  lemma OvertakenBy(ops: seq<Op>, t: nat, abs: nat)
    requires t <= |ops| && MemOldest(ops, t) > abs
    ensures Overtaken(ops, t, abs)
  {
  }

  // ---- The walk -------------------------------------------------------------------------------

  /** Every record delivered is one the producer published, in order, starting at or after `lo` and ending by `hi`. */
  predicate Genuine(h: seq<Entry>, records: seq<ReadRecord>, lo: nat, hi: nat) {
    && (forall r | 0 <= r < |records| ::
          lo <= records[r].startAbs && records[r].endAbs <= hi && Published(h, records[r]))
    && (forall r, s | 0 <= r < s < |records| :: records[r].endAbs <= records[s].startAbs)
  }

  predicate Published(h: seq<Entry>, record: ReadRecord) {
    exists x: nat | x < |h| :: record == ReadOf(h[x])
  }

  predicate EndBy(records: seq<ReadRecord>, abs: nat) {
    forall r | 0 <= r < |records| :: records[r].endAbs <= abs
  }

  lemma GenuineNone(h: seq<Entry>, lo: nat, hi: nat)
    ensures Genuine(h, [], lo, hi)
  {
  }

  lemma GenuineAppend(h: seq<Entry>, records: seq<ReadRecord>, lo: nat, hi: nat, i: nat)
    requires i < |h| && Genuine(h, records, lo, hi) && EndBy(records, h[i].start) && lo <= h[i].start
             && h[i].End() <= hi
    ensures Genuine(h, records + [ReadOf(h[i])], lo, hi) && EndBy(records + [ReadOf(h[i])], h[i].End())
  {
    assert Published(h, ReadOf(h[i]));
  }

  /** A position the cursor of a consumer can have: zero, a past head, or the start of a record. */
  ghost predicate Standing(h: seq<Entry>, abs: nat) {
    exists i: nat | i <= |h| :: Before(h, i, abs)
  }

  lemma OldestStanding(cap: nat, h: seq<Entry>, t: nat)
    requires Laid(cap, h) && t <= |TraceOf(cap, h)|
    ensures Standing(h, MemOldest(TraceOf(cap, h), t))
  {
    hide TraceOf, MemOldest;
    var n := OldestPublished(cap, h, t);
    LaidPrefix(cap, h, n);
    if n > 0 {
      RetainedExactly(cap, h[..n]);
      assert Before(h, Evicted(cap, h[..n]), Oldest(cap, h[..n]));
    } else {
      assert h[..0] == [];
      assert Before(h, 0, 0);
    }
  }

  /** Where a skip to the next multiple of the capacity lands: past the head, or before a record. */
  lemma SkipLands(cap: nat, h: seq<Entry>, n: nat, abs: nat, phys: nat) returns (i: nat)
    requires Laid(cap, h) && n <= |h| && phys == abs % cap
    ensures abs + (cap - phys) < HeadAt(h, n) ==> i < n && Before(h, i, abs + (cap - phys))
    ensures abs + (cap - phys) < HeadAt(h, n) ==> abs + (cap - phys) == h[i].start
  {
    var a := abs + (cap - phys);
    i := 0;
    if a < HeadAt(h, n) {
      ModNext(abs, cap);
      i := MultipleIsStart(cap, h, n, a);
    }
  }

  /** The walk's state: where it stands and what it has collected.

  In a sequential run it has collected exactly the records it passed, unless the oldest offset has moved beyond the
  start of the walk, which the final check will notice. */
  ghost predicate Walking(store: ReaderStore, h: seq<Entry>, n: nat, i: nat, lo: nat, abs: nat, head: nat,
                          records: seq<ReadRecord>)
    reads store
  {
    && store.Valid() && Fed(store, h) && n <= |h| && head == HeadAt(h, n)
    && lo <= abs && Genuine(h, records, lo, head) && EndBy(records, abs)
    && (abs < head ==> i < n && Before(h, i, abs))
    && (store.Sequential() ==> Overtaken(store.ops, store.now, lo) || Collected(h, n, i, lo, abs, head, records))
  }

  /** Nothing has been missed so far. */
  predicate Collected(h: seq<Entry>, n: nat, i: nat, lo: nat, abs: nat, head: nat, records: seq<ReadRecord>)
    requires n <= |h|
  {
    (abs >= head ==> records == Window(h[..n], lo)) && (abs < head ==> i < n && records == Window(h[..i], lo))
  }

  lemma CollectDone(h: seq<Entry>, n: nat, i: nat, lo: nat, abs: nat, head: nat, records: seq<ReadRecord>)
    requires n <= |h| && abs >= head
    ensures Collected(h, n, i, lo, abs, head, records) ==> records == Window(h[..n], lo)
  {
  }

  lemma CollectStart(cap: nat, h: seq<Entry>, n: nat, i: nat, abs: nat)
    requires History(cap, h) && n <= |h| && Before(h, i, abs)
    ensures abs < HeadAt(h, n) ==> i < n
    ensures Collected(h, n, i, abs, abs, HeadAt(h, n), [])
  {
    if abs < HeadAt(h, n) {
      if n <= i {
        if n < i {
          Ordered(cap, h, n, i);
        }
        if i < |h| {
          LaidFits(cap, h, i);
        }
        if 0 < n < i {
          Ordered(cap, h, n - 1, i);
        }
        assert false;
      }
      WalkStart(cap, h, i, abs);
    } else {
      forall x | 0 <= x < n
        ensures h[..n][x].start < abs
      {
        Ordered(cap, h, x, n);
      }
      WindowEmpty(h[..n], abs);
    }
  }

  /** Passing record `i` keeps the collection complete. */
  lemma CollectNext(cap: nat, h: seq<Entry>, n: nat, i: nat, lo: nat, head: nat, records: seq<ReadRecord>)
    requires Laid(cap, h) && i < n <= |h| && head == HeadAt(h, n) && lo <= h[i].start
    requires records == Window(h[..i], lo)
    ensures Collected(h, n, i + 1, lo, h[i].End(), head, records + [ReadOf(h[i])])
    ensures h[i].End() < head ==> i + 1 < n
    ensures Before(h, i + 1, h[i].End())
  {
    WindowStep(h, lo, i);
    if i + 1 < n {
      Ordered(cap, h, i, n - 1);
      Ordered(cap, h, n - 1, n);
    }
  }

  lemma WalkBegins(cap: nat, h: seq<Entry>, cursor: nat, oldestTime: nat, n: nat) returns (i: nat)
    requires History(cap, h) && Standing(h, cursor) && oldestTime <= |TraceOf(cap, h)| && n <= |h|
    ensures var lo := Max(cursor, MemOldest(TraceOf(cap, h), oldestTime));
            && (lo < HeadAt(h, n) ==> i < n && Before(h, i, lo))
            && Collected(h, n, i, lo, lo, HeadAt(h, n), [])
  {
    hide TraceOf, MemOldest, Collected, Before, HeadAt;
    var lo := Max(cursor, MemOldest(TraceOf(cap, h), oldestTime));
    OldestStanding(cap, h, oldestTime);
    i :| i <= |h| && Before(h, i, lo);
    CollectStart(cap, h, n, i, lo);
  }

  lemma WalkFacing(store: ReaderStore, h: seq<Entry>, n: nat, i: nat, lo: nat, abs: nat, head: nat,
                   records: seq<ReadRecord>, headTime: nat)
    requires Walking(store, h, n, i, lo, abs, head, records) && abs < head
    requires headTime <= store.Least() && head == MemHead(store.ops, headTime)
    ensures Facing(store, h, i, abs, headTime) && store.capacity > 0
  {
    hide TraceOf, MemHead, Overtaken, Genuine, Collected, EncodedEntry;
    Ordered(store.capacity, h, i, n);
  }

  /** Once overtaken, always overtaken. */
  lemma WalkOn(store: ReaderStore, h: seq<Entry>, lo: nat, before: nat)
    requires store.Valid() && Fed(store, h) && before <= |store.ops|
    requires store.Sequential() ==> before <= store.now
    ensures store.Sequential() && Overtaken(store.ops, before, lo) ==> Overtaken(store.ops, store.now, lo)
  {
    hide TraceOf, Overtaken, MemOldest;
    if store.Sequential() && Overtaken(store.ops, before, lo) {
      OvertakenLater(store.capacity, h, before, store.now, lo);
    }
  }

  lemma OvertakenBelow(store: ReaderStore, h: seq<Entry>, abs: nat, lo: nat)
    requires store.Valid() && lo <= abs && (store.Sequential() ==> Overtaken(store.ops, store.now, abs))
    ensures store.Sequential() ==> Overtaken(store.ops, store.now, lo)
  {
  }

  /** Following a zero byte, marker or not, leads to a place where the walk can go on. */
  lemma Skipped(store: ReaderStore, h: seq<Entry>, n: nat, i: nat, lo: nat, abs: nat, phys: nat, head: nat,
                records: seq<ReadRecord>) returns (i': nat)
    requires Walking(store, h, n, i, lo, abs, head, records) && abs < head
    requires store.capacity > 0 && phys == abs % store.capacity
    requires Overtaken(store.ops, store.pending, abs) || abs != h[i].start
    ensures Walking(store, h, n, i', lo, abs + (store.capacity - phys), head, records)
  {
    hide TraceOf, MemOldest, EncodedEntry, Overtaken, Genuine, Window;
    LaidFits(store.capacity, h, i);
    if Overtaken(store.ops, store.pending, abs) {
      SeenNow(store, h, abs);
      OvertakenBelow(store, h, abs, lo);
      i' := SkipLands(store.capacity, h, n, abs, phys);
    } else {
      i' := i;
      Ordered(store.capacity, h, i, n);
    }
  }

  lemma Passed(store: ReaderStore, h: seq<Entry>, n: nat, i: nat, lo: nat, abs: nat, head: nat,
               records: seq<ReadRecord>)
    requires Walking(store, h, n, i, lo, abs, head, records) && abs < head && abs == h[i].start
    ensures Walking(store, h, n, i + 1, lo, h[i].End(), head, records + [ReadOf(h[i])])
  {
    hide TraceOf, MemOldest, EncodedEntry, Overtaken, Genuine, Window, EndBy;
    Ordered(store.capacity, h, i, n);
    GenuineAppend(h, records, lo, head, i);
    if Collected(h, n, i, lo, abs, head, records) {
      CollectNext(store.capacity, h, n, i, lo, head, records);
    } else if h[i].End() < head {
      PassedStands(store.capacity, h, n, i, head);
    }
  }

  lemma PassedStands(cap: nat, h: seq<Entry>, n: nat, i: nat, head: nat)
    requires i < n <= |h| && head == HeadAt(h, n) && h[i].End() < head
    ensures i + 1 < n && Before(h, i + 1, h[i].End())
  {
  }

  lemma FinalCheck(store: ReaderStore, h: seq<Entry>, oldestTime: nat, lo: nat)
    requires store.Valid() && Fed(store, h) && oldestTime <= |store.ops|
    requires store.Sequential() ==> oldestTime <= store.now
    ensures store.Sequential() ==> MemOldest(store.ops, oldestTime) <= MemOldest(store.ops, store.now)
    ensures Overtaken(store.ops, store.now, lo) <==> MemOldest(store.ops, store.now) > lo
  {
    if store.Sequential() {
      Forward(store.capacity, h, oldestTime, store.now);
    }
  }

  /** The walk over the published bytes from `max(cursor, firstOldest)` to `head`.

  `head` was current at a time no later load can precede; `firstOldest` is an oldest offset of the run. Every record
  of an accepted batch is genuine under every allowed load. In a sequential run an accepted batch holds exactly the
  records published at the time of the head load that start in the window, and a failure means that the oldest offset
  has moved above the start of the walk. */
  method Walk(store: ReaderStore, cursor: nat, head: nat, firstOldest: nat,
              ghost h: seq<Entry>, ghost headTime: nat, ghost oldestTime: nat, ghost n: nat)
    returns (res: Result<ReadBatch, RingError>)
    requires store.Valid() && Fed(store, h) && Standing(h, cursor)
    requires headTime <= store.Least() && head == MemHead(store.ops, headTime) && n <= |h| && head == HeadAt(h, n)
    requires oldestTime <= |store.ops| && firstOldest == MemOldest(store.ops, oldestTime)
    requires store.Sequential() ==> oldestTime <= store.now
    modifies store
    ensures store.Valid()
    ensures old(store.Least()) <= store.Least()
    ensures res.Ok? ==> res.value.nextAbs == head && res.value.lapped == (cursor < firstOldest)
                        && Genuine(h, res.value.records, Max(cursor, firstOldest), head)
    ensures store.Sequential() && res.Ok? ==> res.value.records == Window(h[..n], Max(cursor, firstOldest))
    ensures store.Sequential() && res.Err? ==> Overtaken(store.ops, store.now, Max(cursor, firstOldest))
    ensures res.Err? ==> WalkError(h, cursor, res.error)
    ensures store.Sequential() && res.Err? ==> SeenOldest(store.ops, store.now, res.error)
  {
    hide TraceOf, MemHead, MemOldest, Overtaken, EncodedEntry, Genuine, Collected, Window, Before, Standing;
    hide HeadAt;
    ghost var least0 := store.Least();
    var lapped := cursor < firstOldest;
    var abs: nat := if lapped then firstOldest else cursor;
    ghost var lo := abs;
    ghost var i := WalkBegins(store.capacity, h, cursor, oldestTime, n);
    var records := [];
    assert Genuine(h, records, lo, head) by { GenuineNone(h, lo, head); }
    while abs < head
      invariant Walking(store, h, n, i, lo, abs, head, records)
      invariant headTime <= least0 <= store.Least()
      decreases head - abs
    {
      if firstOldest > abs {
        return Err(OverwrittenMidRead(abs, firstOldest));
      }
      WalkFacing(store, h, n, i, lo, abs, head, records, headTime);
      var phys := abs % store.capacity;
      ghost var before := store.now;
      var first := LoadFirst(store, phys, h, i, abs, headTime);
      WalkOn(store, h, lo, before);
      if first == 0 {
        if phys == 0 {
          return Err(UnexpectedWrapMarker(abs));
        }
        i := Skipped(store, h, n, i, lo, abs, phys, head, records);
        abs := abs + (store.capacity - phys);
        continue;
      }
      assert Candidate(store, h, i, abs);
      before := store.now;
      var candidate := ReadCandidate(store, abs, phys, h, i, headTime);
      WalkOn(store, h, lo, before);
      match candidate
      case Err(error) =>
        OvertakenBelow(store, h, abs, lo);
        return Err(error);
      case Ok(found) =>
        Passed(store, h, n, i, lo, abs, head, records);
        records := records + [found.0];
        abs := abs + found.1;
        i := i + 1;
    }
    CollectDone(h, n, i, lo, abs, head, records);
    ghost var before := store.now;
    var finalOldest := store.LoadOldestAcquire();
    WalkOn(store, h, lo, before);
    FinalCheck(store, h, oldestTime, lo);
    if finalOldest != firstOldest && finalOldest > cursor {
      OldestStanding(store.capacity, h, store.now);
      return Err(OverwrittenMidRead(cursor, finalOldest));
    }
    res := Ok(ReadBatch(records, head, lapped));
  }
}
