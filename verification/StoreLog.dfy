/** A single-writer memory seen by readers that may lag behind.

The writer's stores and fences form one log in program order. A location's value at time `t` is that of the last store
to it among the first `t` operations. A load may be satisfied at any time that is not before the reader's view. The
stamp of a store is what an acquiring reader learns from it: the position of the writer's last release fence before a
relaxed store, the store's own position for a release store. Reading a stamp `s` and acquiring it moves the view to at
least `s`, so that every store logged before `s` becomes visible. */
module StoreLog {
  import opened Bytes

  datatype Op =
    | BeginUpdate
    | AddLost(n: nat)
    | StoreOldest(oldest: nat)
    | ReleaseFence
    | StoreByte(phys: nat, value: byte)
    | StoreHead(head: nat)
    | EndUpdate

  // ---- Values ----------------------------------------------------------------

  function MemByte(ops: seq<Op>, p: nat, t: nat): byte
    requires t <= |ops|
  {
    if t == 0 then 0
    else if ops[t - 1].StoreByte? && ops[t - 1].phys == p then ops[t - 1].value
    else MemByte(ops, p, t - 1)
  }

  function MemOldest(ops: seq<Op>, t: nat): nat
    requires t <= |ops|
  {
    if t == 0 then 0 else if ops[t - 1].StoreOldest? then ops[t - 1].oldest else MemOldest(ops, t - 1)
  }

  function MemHead(ops: seq<Op>, t: nat): nat
    requires t <= |ops|
  {
    if t == 0 then 0 else if ops[t - 1].StoreHead? then ops[t - 1].head else MemHead(ops, t - 1)
  }

  function MemLost(ops: seq<Op>, t: nat): nat
    requires t <= |ops|
  {
    if t == 0 then 0 else MemLost(ops, t - 1) + if ops[t - 1].AddLost? then ops[t - 1].n else 0
  }

  /** How often the seqlock word has been incremented. */
  function MemLock(ops: seq<Op>, t: nat): nat
    requires t <= |ops|
  {
    if t == 0 then 0 else MemLock(ops, t - 1) + if ops[t - 1].BeginUpdate? || ops[t - 1].EndUpdate? then 1 else 0
  }

  // ---- Stamps ----------------------------------------------------------------

  /** Position just after the last release fence among the first `t` operations. */
  function FenceAt(ops: seq<Op>, t: nat): (f: nat)
    requires t <= |ops|
    ensures f <= t
  {
    if t == 0 then 0 else if ops[t - 1].ReleaseFence? then t else FenceAt(ops, t - 1)
  }

  /** Stamp of the relaxed byte store visible at `t`. */
  function ByteStamp(ops: seq<Op>, p: nat, t: nat): (s: nat)
    requires t <= |ops|
    ensures s <= t
  {
    if t == 0 then 0
    else if ops[t - 1].StoreByte? && ops[t - 1].phys == p then FenceAt(ops, t - 1)
    else ByteStamp(ops, p, t - 1)
  }

  /** Stamp of the relaxed store of the oldest offset visible at `t`. */
  function OldestStamp(ops: seq<Op>, t: nat): (s: nat)
    requires t <= |ops|
    ensures s <= t
  {
    if t == 0 then 0 else if ops[t - 1].StoreOldest? then FenceAt(ops, t - 1) else OldestStamp(ops, t - 1)
  }

  /** Stamp of the release store of the head visible at `t`. */
  function HeadStamp(ops: seq<Op>, t: nat): (s: nat)
    requires t <= |ops|
    ensures s <= t && MemHead(ops, s) == MemHead(ops, t)
  {
    if t == 0 then 0 else if ops[t - 1].StoreHead? then t else HeadStamp(ops, t - 1)
  }

  /** Stamp of the seqlock increment visible at `t`: the closing one releases, the opening one does not. */
  function LockStamp(ops: seq<Op>, t: nat): (s: nat)
    requires t <= |ops|
    ensures s <= t
  {
    if t == 0 then 0
    else if ops[t - 1].EndUpdate? then t
    else if ops[t - 1].BeginUpdate? then FenceAt(ops, t - 1)
    else LockStamp(ops, t - 1)
  }

  /** Stamp of the release addition to the lost count visible at `t`. */
  function LostStamp(ops: seq<Op>, t: nat): (s: nat)
    requires t <= |ops|
    ensures s <= t
  {
    if t == 0 then 0 else if ops[t - 1].AddLost? then t else LostStamp(ops, t - 1)
  }

  // ---- A log only grows --------------------------------------------------------

  /** Two logs with a common beginning agree on everything up to there. */
  lemma SamePrefix(a: seq<Op>, b: seq<Op>, t: nat)
    requires t <= |a| && t <= |b| && a[..t] == b[..t]
    ensures forall p: nat :: MemByte(a, p, t) == MemByte(b, p, t)
    ensures MemOldest(a, t) == MemOldest(b, t) && MemHead(a, t) == MemHead(b, t) && MemLost(a, t) == MemLost(b, t)
    ensures MemLock(a, t) == MemLock(b, t) && FenceAt(a, t) == FenceAt(b, t)
  {
    hide MemByte, MemOldest, MemHead, MemLost, MemLock, FenceAt;
    SameAt(a, b, t);
    SameWords(a, b, t);
    forall p: nat
      ensures MemByte(a, p, t) == MemByte(b, p, t)
    {
      SameByte(a, b, p, t);
    }
  }

  /** The operations of a common beginning, one by one. */
  predicate Alike(a: seq<Op>, b: seq<Op>, t: nat) {
    t <= |a| && t <= |b| && forall i | 0 <= i < t :: a[i] == b[i]
  }

  lemma SameAt(a: seq<Op>, b: seq<Op>, t: nat)
    requires t <= |a| && t <= |b| && a[..t] == b[..t]
    ensures Alike(a, b, t)
  {
    forall i | 0 <= i < t
      ensures a[i] == b[i]
    {
      assert a[i] == a[..t][i] && b[i] == b[..t][i];
    }
  }

  lemma {:induction false} SameByte(a: seq<Op>, b: seq<Op>, p: nat, t: nat)
    requires Alike(a, b, t)
    ensures MemByte(a, p, t) == MemByte(b, p, t)
  {
    if t == 0 {
      // Both locations still hold their initial value.
    } else {
      SameByte(a, b, p, t - 1);
    }
  }

  lemma {:induction false} SameWords(a: seq<Op>, b: seq<Op>, t: nat)
    requires Alike(a, b, t)
    ensures MemOldest(a, t) == MemOldest(b, t) && MemHead(a, t) == MemHead(b, t) && MemLost(a, t) == MemLost(b, t)
    ensures MemLock(a, t) == MemLock(b, t) && FenceAt(a, t) == FenceAt(b, t)
  {
    if t == 0 {
      // Nothing has been stored.
    } else {
      SameWords(a, b, t - 1);
    }
  }
}
