/** Control snapshots: three separate loads in process, a seqlocked image in shared memory. */
module Snapshots {
  import opened Bytes
  import opened Registry
  import opened Layout
  import opened Reads
  import opened Control
  import opened StoreLog
  import opened Trace
  import opened Reader

  const CONTROL_SNAPSHOT_RETRIES: nat := 1000

  /** The control words at some time are those after exactly `n` completed appends. */
  predicate Coherent(cap: nat, h: seq<Entry>, n: nat, head: nat, oldest: nat, lost: nat) {
    n <= |h| && head == Head(h[..n]) && oldest == Oldest(cap, h[..n]) && lost == Evicted(cap, h[..n])
  }

  // ---- The seqlock --------------------------------------------------------------------

  /** An even lock word means that no append is in progress, and counts the completed ones. */
  lemma EvenLock(cap: nat, h: seq<Entry>, t: nat)
    requires Laid(cap, h) && t <= |TraceOf(cap, h)| && MemLock(TraceOf(cap, h), t) % 2 == 0
    ensures var ops := TraceOf(cap, h);
            Coherent(cap, h, MemLock(ops, t) / 2, MemHead(ops, t), MemOldest(ops, t), MemLost(ops, t))
  {
    hide TraceOf, Oldest, Evicted, OpsOf, Base, MemHead, MemOldest, MemLost, MemLock, Fenced, Filled;
    TraceNonEmpty(cap, h);
    if h == [] {
      SettledStart(cap, h);
      Settled(cap, h, 0);
      assert Base(cap, h, 0) == 0 by { EmptyBase(cap, h); }
    } else {
      var n, m := Locate(cap, h, t);
      Controlled(cap, h, n, m);
      OpsCounted(cap, h, n);
      HeadOfPrefix(h, n + 1);
    }
  }

  lemma OpsCounted(cap: nat, h: seq<Entry>, n: nat)
    requires cap > 0 && n < |h|
    ensures |OpsOf(cap, h, n)| == Filled(cap, h[..n], h[n]) + 2
    ensures Fenced(cap, h[..n], h[n]) <= Filled(cap, h[..n], h[n])
  {
    hide Prologue, Marker, AppendOps;
    OpCount(cap, h[..n], h[n]);
  }

  lemma {:induction false} LockForward(ops: seq<Op>, s: nat, t: nat)
    requires s <= t <= |ops|
    ensures MemLock(ops, s) <= MemLock(ops, t)
    decreases t
  {
    if s == t {
    } else {
      LockForward(ops, s, t - 1);
    }
  }

  /** Two equal even lock words, read with fewer than 2^31 appends finishing in between, enclose no change at all. */
  lemma SameLock(ops: seq<Op>, s: nat, t: nat, lock: nat)
    requires s <= t <= |ops| && lock % 2 == 0
    requires MemLock(ops, s) % 0x1_0000_0000 == lock == MemLock(ops, t) % 0x1_0000_0000
    requires MemLock(ops, t) / 2 - MemLock(ops, s) / 2 < 0x8000_0000
    ensures MemLock(ops, s) == MemLock(ops, t) && MemLock(ops, s) % 2 == 0
  {
    hide MemLock;
    LockForward(ops, s, t);
  }

  /** Whatever is loaded between two such lock words is coherent. */
  lemma EnclosedLoads(cap: nat, h: seq<Entry>, first: nat, second: nat, lock: nat, a: nat, b: nat, c: nat)
    requires Laid(cap, h) && first <= a <= b <= c <= second <= |TraceOf(cap, h)| && lock % 2 == 0
    requires var ops := TraceOf(cap, h);
             && MemLock(ops, first) % 0x1_0000_0000 == lock == MemLock(ops, second) % 0x1_0000_0000
             && MemLock(ops, second) / 2 - MemLock(ops, first) / 2 < 0x8000_0000
    ensures var ops := TraceOf(cap, h);
            Coherent(cap, h, MemLock(ops, first) / 2, MemHead(ops, a), MemOldest(ops, b), MemLost(ops, c))
  {
    hide TraceOf, MemLock, MemHead, MemOldest, MemLost, Oldest, Evicted, Laid;
    TraceNonEmpty(cap, h);
    var ops := TraceOf(cap, h);
    SameLock(ops, first, second, lock);
    LockForward(ops, first, a);
    LockForward(ops, a, b);
    LockForward(ops, b, c);
    LockForward(ops, c, second);
    EvenLock(cap, h, a);
    EvenLock(cap, h, b);
    EvenLock(cap, h, c);
  }

  // ---- Counters fit their fields --------------------------------------------------------

  lemma {:induction false} CountUpTo(cap: nat, h: seq<Entry>, n: nat)
    requires Laid(cap, h) && n <= |h|
    ensures n <= HeadAt(h, n) <= Head(h)
    decreases n
  {
    if n == 0 {
    } else {
      CountUpTo(cap, h, n - 1);
      Ordered(cap, h, n - 1, |h|);
      LaidFits(cap, h, n - 1);
      assert LaidAt(cap, h, n - 1);
    }
  }

  /** No control word ever exceeds the final head. */
  lemma ControlWordsFit(cap: nat, h: seq<Entry>, t: nat)
    requires Laid(cap, h) && t <= |TraceOf(cap, h)|
    ensures var ops := TraceOf(cap, h);
            MemHead(ops, t) <= Head(h) && MemOldest(ops, t) <= Head(h) && MemLost(ops, t) <= Head(h)
  {
    hide TraceOf, MemHead, MemOldest, MemLost, Evicted;
    var n := HeadPublished(cap, h, t);
    CountUpTo(cap, h, n);
    HeadOfPrefix(h, n);
    n := OldestPublished(cap, h, t);
    CountUpTo(cap, h, n);
    HeadOfPrefix(h, n);
    LaidPrefix(cap, h, n);
    if n > 0 {
      RetainedExactly(cap, h[..n]);
    }
    LostFits(cap, h, t);
  }

  lemma LostFits(cap: nat, h: seq<Entry>, t: nat)
    requires Laid(cap, h) && t <= |TraceOf(cap, h)|
    ensures MemLost(TraceOf(cap, h), t) <= Head(h)
  {
    hide TraceOf, MemHead, MemOldest, MemLock, Evicted, Oldest, Fenced, Filled, OpsOf, Base;
    TraceNonEmpty(cap, h);
    CountUpTo(cap, h, |h|);
    if h != [] {
      var n, m := Locate(cap, h, t);
      Controlled(cap, h, n, m);
    }
  }

  // ---- The snapshots of the two stores -----------------------------------------------------

  /** The capacity as the control block states it. */
  function BufferBytes(cap: nat): u32 {
    if cap <= 0xFFFF_FFFF then cap else 0xFFFF_FFFF
  }

  function SnapshotOf(cap: nat, head: u64, oldest: u64, lost: u64): Snapshot {
    Snapshot(2, 0, DEFAULT_BUFFER_ID, BufferBytes(cap), head, oldest, lost, 0, 0, 0, NO_HASH, NO_HASH)
  }

  /** When the words of a snapshot were loaded; the lock times are those of the accepting attempt. */
  datatype Times = Times(first: nat, head: nat, oldest: nat, lost: nat, second: nat)

  /** The words of `s` are those of the times `at`, none of which lies ahead of the reader. */
  ghost predicate Taken(store: ReaderStore, s: Snapshot, at: Times)
    reads store
  {
    && store.Valid() && at.head <= store.Least() && at.oldest <= |store.ops| && at.lost <= |store.ops|
    && (store.Sequential() ==> at.head <= at.oldest <= at.lost <= store.now)
    && s.version == 2 && s.caps == 0 && s.bufferId == 1 && s.runId == s.epochId == s.epochFirstAbs == 0
    && s.definitionHash == s.prevDefinitionHash == NO_HASH
    && s.bufferBytes == BufferBytes(store.capacity) && s.headAbs == MemHead(store.ops, at.head)
    && s.oldestAbs == MemOldest(store.ops, at.oldest) && s.lostCount == MemLost(store.ops, at.lost)
  }

  /** `OwnedConcurrentStore::read_control_snapshot`. */
  method OwnedSnapshot(store: ReaderStore, ghost h: seq<Entry>) returns (s: Snapshot, ghost at: Times)
    requires store.Valid() && Fed(store, h)
    modifies store
    ensures Taken(store, s, at) && old(store.Least()) <= store.Least()
    ensures old(store.Least()) <= at.head && old(store.view) <= at.oldest
    ensures MemHead(store.ops, old(store.Least())) <= s.headAbs
  {
    hide TraceOf, MemHead, MemOldest, MemLost;
    ghost var least := store.Least();
    var head := store.LoadHeadAcquire();
    ghost var headTime := if store.Sequential() then store.now else store.view;
    ControlWordsFit(store.capacity, h, headTime);
    Forward(store.capacity, h, least, headTime);
    var oldest := store.LoadOldestAcquire();
    ghost var oldestTime := store.now;
    ControlWordsFit(store.capacity, h, oldestTime);
    var lost := store.LoadLostAcquire();
    ControlWordsFit(store.capacity, h, store.now);
    at := Times(headTime, headTime, oldestTime, store.now, store.now);
    s := SnapshotOf(store.capacity, head, oldest, lost);
  }

  /** One attempt of the seqlocked read, once the first lock word is known to be even. */
  method Attempt(store: ReaderStore, first: u32, ghost firstTime: nat, ghost h: seq<Entry>)
    returns (res: Result<Snapshot, ControlError>, ghost at: Times)
    requires store.Valid() && Fed(store, h) && store.Sequential() && firstTime == store.now
    requires first == MemLock(store.ops, firstTime) % 0x1_0000_0000
    modifies store
    ensures store.Valid() && old(store.now) <= store.now && old(store.loads) <= store.loads
    ensures first % 2 == 0 && res.Err? ==> res.error.StaleSnapshot?
    ensures at.first == firstTime <= at.head && at.lost <= at.second <= |store.ops| && at.second == store.now
    ensures first % 2 == 0 && res.Err? ==> MemLock(store.ops, at.second) % 0x1_0000_0000 != first
    ensures res.Ok? ==> Taken(store, res.value, at) && first % 2 == 0
                        && MemHead(store.ops, firstTime) <= res.value.headAbs
                        && MemLock(store.ops, at.second) % 0x1_0000_0000 == first
  {
    hide TraceOf, MemHead, MemOldest, MemLost, MemLock, DecodeWithLocks, ControlImage;
    var head := store.LoadHeadRelaxed();
    ghost var headTime := store.now;
    ControlWordsFit(store.capacity, h, headTime);
    Forward(store.capacity, h, firstTime, headTime);
    var oldest := store.LoadOldestRelaxed();
    ghost var oldestTime := store.now;
    ControlWordsFit(store.capacity, h, oldestTime);
    var lost := store.LoadLostRelaxed();
    ghost var lostTime := store.now;
    ControlWordsFit(store.capacity, h, lostTime);
    var s := SnapshotOf(store.capacity, head, oldest, lost);
    var image := ControlImage(s, first);
    var second := store.LoadLockAcquire();
    at := Times(firstTime, headTime, oldestTime, lostTime, store.now);
    res := DecodeWithLocks(image, first, second);
    AcceptedImage(image, s, first, second);
  }

  /** An image is accepted as the snapshot it was made of, exactly under equal even locks. */
  lemma AcceptedImage(image: seq<byte>, s: Snapshot, first: u32, second: u32)
    requires image == ControlImage(s, first)
    ensures DecodeWithLocks(image, first, second).Ok? <==> first == second && first % 2 == 0
    ensures DecodeWithLocks(image, first, second).Ok? ==> DecodeWithLocks(image, first, second) == Ok(s)
    ensures first != second && first % 2 == 0
            ==> DecodeWithLocks(image, first, second) == Err(StaleSnapshot(first, second))
  {
    hide ControlImage, SnapshotAt, ReadU32;
    ControlBytes(s, first);
    assert image[..CONTROL_BLOCK_LEN] == image;
    AcceptedSnapshots(image, first, first, s);
  }

  /** The producer was at work at some time from `s` to `t`: an append was open at `s`, or one began or ended later. */
  predicate Disturbed(ops: seq<Op>, s: nat, t: nat)
    requires s <= |ops| && t <= |ops|
  {
    MemLock(ops, s) % 2 == 1 || MemLock(ops, s) < MemLock(ops, t)
  }

  lemma OddLock(ops: seq<Op>, s: nat, t: nat, u: nat)
    requires s <= t <= u <= |ops| && MemLock(ops, t) % 0x1_0000_0000 % 2 != 0
    ensures Disturbed(ops, s, u)
  {
    hide MemLock;
    LockForward(ops, s, t);
    LockForward(ops, t, u);
  }

  lemma ChangedLock(ops: seq<Op>, s: nat, t: nat, u: nat)
    requires s <= t <= u <= |ops| && MemLock(ops, t) % 0x1_0000_0000 != MemLock(ops, u) % 0x1_0000_0000
    ensures Disturbed(ops, s, u)
  {
    hide MemLock;
    LockForward(ops, s, t);
    LockForward(ops, t, u);
  }

  /** `SharedConcurrentStore::read_control_snapshot`: retries until no update interferes; it gives up only after a
  thousand attempts, when the producer has been at work.

  With fewer than 2^31 appends finishing during the accepting attempt, the head, the oldest offset and the lost count
  were all current together after some whole number of appends. */
  method SharedSnapshot(store: ReaderStore, ghost h: seq<Entry>)
    returns (res: Result<Snapshot, ControlError>, ghost at: Times)
    requires store.Valid() && Fed(store, h) && store.Sequential()
    modifies store
    ensures store.Valid() && old(store.Least()) <= store.Least()
    ensures res.Ok? ==> Taken(store, res.value, at) && MemHead(store.ops, old(store.Least())) <= res.value.headAbs
    ensures res.Ok? ==> old(store.Least()) <= at.head
    ensures res.Err? ==> Disturbed(store.ops, old(store.now), store.now) && store.loads >= old(store.loads) + 1000
    ensures res.Ok? ==> old(store.now) <= at.first <= at.second <= |store.ops|
                        && (MemLock(store.ops, at.second) / 2 - MemLock(store.ops, at.first) / 2 < 0x8000_0000
                            ==> Coherent(store.capacity, h, MemLock(store.ops, at.first) / 2, res.value.headAbs,
                                         res.value.oldestAbs, res.value.lostCount))
  {
    hide TraceOf, MemHead, MemOldest, MemLost, MemLock, Coherent, Disturbed;
    ghost var least, start := store.Least(), store.now;
    var lastError := Updating(1);
    at := Times(0, 0, 0, 0, 0);
    for k := 0 to CONTROL_SNAPSHOT_RETRIES
      invariant store.Valid() && least <= store.Least() && start <= store.now
      invariant k > 0 ==> Disturbed(store.ops, start, store.now)
      invariant store.loads >= old(store.loads) + k
    {
      var first := store.LoadLockAcquire();
      ghost var firstTime := store.now;
      if first % 2 != 0 {
        OddLock(store.ops, start, firstTime, store.now);
        lastError := Updating(first);
        continue;
      }
      Forward(store.capacity, h, least, firstTime);
      var attempt: Result<Snapshot, ControlError>;
      attempt, at := Attempt(store, first, firstTime, h);
      match attempt
      case Ok(s) =>
        if MemLock(store.ops, at.second) / 2 - MemLock(store.ops, at.first) / 2 < 0x8000_0000 {
          EnclosedLoads(store.capacity, h, at.first, at.second, first, at.head, at.oldest, at.lost);
        }
        return Ok(s), at;
      case Err(error) =>
        ChangedLock(store.ops, start, firstTime, store.now);
        match error
        case Updating(_) =>
          lastError := error;
        case StaleSnapshot(_, _) =>
          lastError := error;
        case _ =>
          return Err(error), at;
    }
    res := Err(lastError);
  }
}
