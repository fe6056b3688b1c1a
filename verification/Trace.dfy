/** The stores a producer issues, record after record, and what any reader can make of them. */
module Trace {
  import opened Bytes
  import opened Layout
  import opened StoreLog

  // ---- The operations of one append ----------------------------------------------

  /** Control update opened, losses counted, oldest offset stored, release fence: all before the first byte. */
  function Prologue(cap: nat, g: seq<Entry>, e: Entry): (ops: seq<Op>)
    ensures 3 <= |ops| <= 4
  {
    var evicted := Evicted(cap, g + [e]) - Evicted(cap, g);
    [BeginUpdate] + (if evicted > 0 then [AddLost(evicted)] else [])
    + [StoreOldest(Oldest(cap, g + [e])), ReleaseFence]
  }

  /** The wrap marker of a gap. */
  function Marker(cap: nat, g: seq<Entry>, e: Entry): (ops: seq<Op>)
    requires cap > 0
    ensures |ops| <= 1
  {
    if e.start != Head(g) then [StoreByte(Head(g) % cap, 0)] else []
  }

  function RecordStores(cap: nat, e: Entry): seq<Op>
    requires cap > 0
  {
    seq(|e.bytes|, i requires 0 <= i < |e.bytes| => StoreByte(e.start % cap + i, e.bytes[i]))
  }

  function AppendOps(cap: nat, g: seq<Entry>, e: Entry): (ops: seq<Op>)
    requires cap > 0
  {
    Prologue(cap, g, e) + Marker(cap, g, e) + RecordStores(cap, e) + [StoreHead(e.End()), EndUpdate]
  }

  /** Everything a producer has stored after writing `h`. */
  function TraceOf(cap: nat, h: seq<Entry>): seq<Op>
    requires cap > 0
  {
    if h == [] then [] else TraceOf(cap, h[..|h| - 1]) + AppendOps(cap, h[..|h| - 1], h[|h| - 1])
  }

  /** Number of operations before the first byte store; the release fence is the last of them. */
  function Fenced(cap: nat, g: seq<Entry>, e: Entry): (n: nat)
    ensures 3 <= n <= 4
  {
    |Prologue(cap, g, e)|
  }

  /** Number of operations up to the store of the head. */
  function Filled(cap: nat, g: seq<Entry>, e: Entry): nat
    requires cap > 0
  {
    Fenced(cap, g, e) + |Marker(cap, g, e)| + |e.bytes|
  }

  lemma OpCount(cap: nat, g: seq<Entry>, e: Entry)
    requires cap > 0
    ensures |AppendOps(cap, g, e)| == Filled(cap, g, e) + 2
  {
    hide Evicted, Oldest;
  }

  /** Which operation comes when. */
  lemma OpKind(cap: nat, g: seq<Entry>, e: Entry, m: nat)
    requires cap > 0 && m < |AppendOps(cap, g, e)|
    ensures var ops, f, n := AppendOps(cap, g, e), Fenced(cap, g, e), Filled(cap, g, e);
            && |ops| == n + 2
            && (m == 0 ==> ops[m] == BeginUpdate)
            && (0 < m < f - 2 ==> ops[m] == AddLost(Evicted(cap, g + [e]) - Evicted(cap, g)))
            && (m == f - 2 ==> ops[m] == StoreOldest(Oldest(cap, g + [e])))
            && (m == f - 1 ==> ops[m] == ReleaseFence)
            && (f <= m < f + |Marker(cap, g, e)| ==> e.start != Head(g) && ops[m] == StoreByte(Head(g) % cap, 0))
            && (f + |Marker(cap, g, e)| <= m < n ==>
                  var i := m - f - |Marker(cap, g, e)|;
                  i < |e.bytes| && ops[m] == StoreByte(e.start % cap + i, e.bytes[i]))
            && (m == n ==> ops[m] == StoreHead(e.End()))
            && (m == n + 1 ==> ops[m] == EndUpdate)
  {
    hide Evicted, Oldest;
  }

  // ---- Where an operation stands in the trace ----------------------------------------

  /** Time at which the append of entry `n` begins. */
  function Base(cap: nat, h: seq<Entry>, n: nat): nat
    requires cap > 0 && n <= |h|
  {
    |TraceOf(cap, h[..n])|
  }

  function OpsOf(cap: nat, h: seq<Entry>, n: nat): seq<Op>
    requires cap > 0 && n < |h|
  {
    AppendOps(cap, h[..n], h[n])
  }

  lemma EmptyBase(cap: nat, h: seq<Entry>)
    requires cap > 0
    ensures Base(cap, h, 0) == 0
  {
  }

  lemma BaseStep(cap: nat, h: seq<Entry>, n: nat)
    requires cap > 0 && n < |h|
    ensures TraceOf(cap, h[..n + 1]) == TraceOf(cap, h[..n]) + OpsOf(cap, h, n)
    ensures Base(cap, h, n + 1) == Base(cap, h, n) + |OpsOf(cap, h, n)|
  {
    assert h[..n + 1][..n] == h[..n] && h[..n + 1][n] == h[n];
  }

  lemma {:induction false} TracePrefix(cap: nat, h: seq<Entry>, n: nat)
    requires cap > 0 && n <= |h|
    ensures Base(cap, h, n) <= |TraceOf(cap, h)|
    ensures TraceOf(cap, h)[..Base(cap, h, n)] == TraceOf(cap, h[..n])
    decreases |h| - n
  {
    hide AppendOps;
    if n == |h| {
      assert h[..n] == h;
    } else {
      BaseStep(cap, h, n);
      TracePrefix(cap, h, n + 1);
      var t, b := TraceOf(cap, h), Base(cap, h, n);
      assert t[..b] == t[..Base(cap, h, n + 1)][..b];
    }
  }

  lemma OpAt(cap: nat, h: seq<Entry>, n: nat, m: nat)
    requires cap > 0 && n < |h| && m < |OpsOf(cap, h, n)|
    ensures Base(cap, h, n) + m < |TraceOf(cap, h)|
    ensures TraceOf(cap, h)[Base(cap, h, n) + m] == OpsOf(cap, h, n)[m]
  {
    hide OpsOf, TraceOf;
    BaseStep(cap, h, n);
    TracePrefix(cap, h, n + 1);
    var t, b := TraceOf(cap, h), Base(cap, h, n);
    assert t[b + m] == t[..Base(cap, h, n + 1)][b + m];
  }

  // ---- The control words at every moment ----------------------------------------------

  /** The control words after the first `m` operations of the append of entry `n`. */
  predicate ControlAt(cap: nat, h: seq<Entry>, n: nat, m: nat)
    requires cap > 0 && n < |h|
  {
    var ops, t := TraceOf(cap, h), Base(cap, h, n) + m;
    var g, g', e := h[..n], h[..n + 1], h[n];
    var fenced, filled := Fenced(cap, g, e), Filled(cap, g, e);
    && t <= |ops|
    && MemHead(ops, t) == (if m <= filled then Head(g) else e.End())
    && MemOldest(ops, t) == (if m < fenced - 1 then Oldest(cap, g) else Oldest(cap, g'))
    && MemLost(ops, t) == (if m < fenced - 2 then Evicted(cap, g) else Evicted(cap, g'))
    && MemLock(ops, t) == 2 * n + (if m == 0 then 0 else if m <= filled + 1 then 1 else 2)
    && (m >= fenced ==> FenceAt(ops, t) == Base(cap, h, n) + fenced)
  }

  /** The control words between two appends: exactly those of the history written so far. */
  predicate SettledAt(cap: nat, h: seq<Entry>, n: nat)
    requires cap > 0 && n <= |h|
  {
    var ops, t, g := TraceOf(cap, h), Base(cap, h, n), h[..n];
    && t <= |ops| && MemHead(ops, t) == Head(g) && MemOldest(ops, t) == Oldest(cap, g)
    && MemLost(ops, t) == Evicted(cap, g) && MemLock(ops, t) == 2 * n
  }

  lemma ControlStart(cap: nat, h: seq<Entry>, n: nat)
    requires Laid(cap, h) && n < |h| && SettledAt(cap, h, n)
    ensures ControlAt(cap, h, n, 0)
  {
    hide TraceOf, Oldest, Evicted, Prologue;
    NoLossNoOp(cap, h, n);
  }

  /** Without a loss operation nothing was evicted. */
  lemma NoLossNoOp(cap: nat, h: seq<Entry>, n: nat)
    requires Laid(cap, h) && n < |h|
    ensures h[..n + 1] == h[..n] + [h[n]] && Evicted(cap, h[..n]) <= Evicted(cap, h[..n + 1])
    ensures Fenced(cap, h[..n], h[n]) == 3 ==> Evicted(cap, h[..n + 1]) == Evicted(cap, h[..n])
  {
    hide Evicted;
    LaidPrefix(cap, h, n);
    LaidPrefix(cap, h, n + 1);
    assert h[..n + 1] == h[..n] + [h[n]];
    EvictedGrows(cap, h[..n], h[n]);
  }

  lemma ControlStep(cap: nat, h: seq<Entry>, n: nat, m: nat)
    requires Laid(cap, h) && n < |h| && m < |OpsOf(cap, h, n)| && ControlAt(cap, h, n, m)
    ensures ControlAt(cap, h, n, m + 1)
  {
    hide TraceOf, Oldest, Evicted, Head, Prologue, Marker, AppendOps;
    NoLossNoOp(cap, h, n);
    OpAt(cap, h, n, m);
    OpKind(cap, h[..n], h[n], m);
  }

  lemma ControlEnd(cap: nat, h: seq<Entry>, n: nat)
    requires Laid(cap, h) && n < |h| && ControlAt(cap, h, n, |OpsOf(cap, h, n)|)
    ensures SettledAt(cap, h, n + 1)
  {
    hide TraceOf, Oldest, Evicted, Prologue, Marker, AppendOps;
    BaseStep(cap, h, n);
    OpCount(cap, h[..n], h[n]);
  }

  lemma SettledStart(cap: nat, h: seq<Entry>)
    requires cap > 0
    ensures SettledAt(cap, h, 0)
  {
    assert h[..0] == [];
    assert TraceOf(cap, []) == [];
  }

  lemma {:induction false} Controlled(cap: nat, h: seq<Entry>, n: nat, m: nat)
    requires Laid(cap, h) && n < |h| && m <= |OpsOf(cap, h, n)|
    ensures ControlAt(cap, h, n, m)
    decreases n, 1, m
  {
    hide ControlAt, SettledAt, OpsOf;
    if m == 0 {
      Settled(cap, h, n);
      ControlStart(cap, h, n);
    } else {
      Controlled(cap, h, n, m - 1);
      ControlStep(cap, h, n, m - 1);
    }
  }

  /** After every completed append the control words are coherent. */
  lemma {:induction false} Settled(cap: nat, h: seq<Entry>, n: nat)
    requires Laid(cap, h) && n <= |h|
    ensures SettledAt(cap, h, n)
    decreases n, 0
  {
    hide ControlAt, SettledAt, OpsOf;
    if n == 0 {
      SettledStart(cap, h);
    } else {
      Controlled(cap, h, n - 1, |OpsOf(cap, h, n - 1)|);
      ControlEnd(cap, h, n - 1);
    }
  }

  // ---- Any moment of a run ----------------------------------------------------------------

  /** Every moment lies within the append of some entry. */
  lemma {:induction false} LocateFrom(cap: nat, h: seq<Entry>, t: nat, from: nat) returns (n: nat, m: nat)
    requires cap > 0 && from < |h| && Base(cap, h, from) <= t <= |TraceOf(cap, h)|
    ensures n < |h| && m <= |OpsOf(cap, h, n)| && t == Base(cap, h, n) + m
    ensures t < |TraceOf(cap, h)| ==> m < |OpsOf(cap, h, n)|
    decreases |h| - from
  {
    hide TraceOf, OpsOf;
    BaseStep(cap, h, from);
    assert from + 1 == |h| ==> h[..from + 1] == h;
    if t < Base(cap, h, from + 1) || from + 1 == |h| {
      n, m := from, t - Base(cap, h, from);
    } else {
      n, m := LocateFrom(cap, h, t, from + 1);
    }
  }

  lemma Locate(cap: nat, h: seq<Entry>, t: nat) returns (n: nat, m: nat)
    requires cap > 0 && h != [] && t <= |TraceOf(cap, h)|
    ensures n < |h| && m <= |OpsOf(cap, h, n)| && t == Base(cap, h, n) + m
    ensures t < |TraceOf(cap, h)| ==> m < |OpsOf(cap, h, n)|
  {
    assert h[..0] == [];
    n, m := LocateFrom(cap, h, t, 0);
  }

  lemma StepForward(cap: nat, h: seq<Entry>, n: nat, m: nat)
    requires Laid(cap, h) && n < |h| && m < |OpsOf(cap, h, n)|
    ensures Base(cap, h, n) + m < |TraceOf(cap, h)|
    ensures var ops, t := TraceOf(cap, h), Base(cap, h, n) + m;
            MemOldest(ops, t) <= MemOldest(ops, t + 1) && MemHead(ops, t) <= MemHead(ops, t + 1)
  {
    hide TraceOf, Oldest, Evicted, OpsOf, MemOldest, MemHead;
    OpAt(cap, h, n, m);
    Controlled(cap, h, n, m);
    Controlled(cap, h, n, m + 1);
    LaidPrefix(cap, h, n);
    LaidPrefix(cap, h, n + 1);
    assert h[..n + 1] == h[..n] + [h[n]];
    EvictedGrows(cap, h[..n], h[n]);
    LaidFits(cap, h, n);
  }

  /** The published head and the oldest offset never move back. */
  lemma {:induction false} Forward(cap: nat, h: seq<Entry>, s: nat, t: nat)
    requires Laid(cap, h) && s <= t <= |TraceOf(cap, h)|
    ensures MemOldest(TraceOf(cap, h), s) <= MemOldest(TraceOf(cap, h), t)
    ensures MemHead(TraceOf(cap, h), s) <= MemHead(TraceOf(cap, h), t)
    decreases t - s
  {
    hide MemOldest, MemHead, Laid, TraceOf, OpsOf, Base;
    if s == t {
    } else {
      Forward(cap, h, s, t - 1);
      TraceNonEmpty(cap, h);
      var n, m := Locate(cap, h, t - 1);
      StepForward(cap, h, n, m);
    }
  }

  lemma TraceNonEmpty(cap: nat, h: seq<Entry>)
    requires Laid(cap, h)
    ensures cap > 0 && (h == [] ==> TraceOf(cap, h) == [])
  {
  }

  /** The published head is always the head after some number of entries. */
  lemma HeadPublished(cap: nat, h: seq<Entry>, t: nat) returns (n: nat)
    requires Laid(cap, h) && t <= |TraceOf(cap, h)|
    ensures n <= |h| && MemHead(TraceOf(cap, h), t) == Head(h[..n])
  {
    hide TraceOf, MemHead, Oldest, Evicted;
    TraceNonEmpty(cap, h);
    if h == [] {
      SettledStart(cap, h);
      n := 0;
    } else {
      var m: nat;
      n, m := Locate(cap, h, t);
      Controlled(cap, h, n, m);
      if m > Filled(cap, h[..n], h[n]) {
        n := n + 1;
      }
    }
  }

  /** The oldest offset is always the start of an entry, or zero before the first. */
  lemma OldestPublished(cap: nat, h: seq<Entry>, t: nat) returns (n: nat)
    requires Laid(cap, h) && t <= |TraceOf(cap, h)|
    ensures n <= |h| && MemOldest(TraceOf(cap, h), t) == Oldest(cap, h[..n])
  {
    hide TraceOf, MemOldest, Oldest, Evicted, Head;
    TraceNonEmpty(cap, h);
    if h == [] {
      SettledStart(cap, h);
      n := 0;
    } else {
      var m: nat;
      n, m := Locate(cap, h, t);
      Controlled(cap, h, n, m);
      if m >= Fenced(cap, h[..n], h[n]) - 1 {
        n := n + 1;
      }
    }
  }

  // ---- Bytes --------------------------------------------------------------------------------

  /** Physical byte `p` still shows `v` at time `t`, or the store that replaced it was fenced behind an oldest offset
  above `s`: a reader that acquires that store cannot miss the move. */
  predicate Guarded(ops: seq<Op>, p: nat, t: nat, v: byte, s: nat)
    requires t <= |ops|
  {
    MemByte(ops, p, t) == v || MemOldest(ops, ByteStamp(ops, p, t)) > s
  }

  lemma GuardedStep(cap: nat, h: seq<Entry>, n: nat, m: nat, p: nat, v: byte, s: nat)
    requires Laid(cap, h) && n < |h| && m < |OpsOf(cap, h, n)| && Base(cap, h, n) + m < |TraceOf(cap, h)|
    requires Guarded(TraceOf(cap, h), p, Base(cap, h, n) + m, v, s)
    requires var op := OpsOf(cap, h, n)[m];
             op.StoreByte? && op.phys == p ==> op.value == v || Oldest(cap, h[..n + 1]) > s
    ensures Guarded(TraceOf(cap, h), p, Base(cap, h, n) + m + 1, v, s)
  {
    hide TraceOf, Oldest, Evicted, AppendOps, MemOldest, MemHead, MemLost, MemLock, Base, Prologue, Marker;
    OpAt(cap, h, n, m);
    var op := OpsOf(cap, h, n)[m];
    if op.StoreByte? && op.phys == p {
      OpKind(cap, h[..n], h[n], m);
      OpCount(cap, h[..n], h[n]);
      Controlled(cap, h, n, m);
      Controlled(cap, h, n, Fenced(cap, h[..n], h[n]));
    }
  }

  lemma {:induction false} GuardedRun(cap: nat, h: seq<Entry>, n: nat, x: nat, y: nat, p: nat, v: byte, s: nat)
    requires Laid(cap, h) && n < |h| && x <= y <= |OpsOf(cap, h, n)| && Base(cap, h, n) + y <= |TraceOf(cap, h)|
    requires Guarded(TraceOf(cap, h), p, Base(cap, h, n) + x, v, s)
    requires forall m | x <= m < y ::
               var op := OpsOf(cap, h, n)[m];
               op.StoreByte? && op.phys == p ==> op.value == v || Oldest(cap, h[..n + 1]) > s
    ensures Guarded(TraceOf(cap, h), p, Base(cap, h, n) + y, v, s)
    decreases y - x
  {
    hide TraceOf, Oldest, OpsOf, Guarded, Base, Laid;
    if x == y {
    } else {
      GuardedStep(cap, h, n, x, p, v, s);
      GuardedRun(cap, h, n, x + 1, y, p, v, s);
    }
  }

  /** A store of a later append that lands on the physical byte of position `a` comes after `a` was reclaimed. */
  lemma StoreReclaims(cap: nat, h: seq<Entry>, n: nat, m: nat, a: nat, p: nat)
    requires Laid(cap, h) && n < |h| && m < |OpsOf(cap, h, n)| && p == a % cap
    requires a < Head(h[..n]) || (a == Head(h[..n]) && h[n].start != a)
    requires OpsOf(cap, h, n)[m].StoreByte? && OpsOf(cap, h, n)[m].phys == p
    ensures (a == Head(h[..n]) && OpsOf(cap, h, n)[m].value == 0) || Oldest(cap, h[..n + 1]) > a
  {
    hide Oldest, Evicted, AppendOps, Prologue, Marker;
    var g, g', e := h[..n], h[..n + 1], h[n];
    OpKind(cap, g, e, m);
    LaidFits(cap, h, n);
    LaidPrefix(cap, h, n + 1);
    RetainedExactly(cap, g');
    var b := m - Fenced(cap, g, e) - |Marker(cap, g, e)|;
    if b >= 0 {
      ModAdd(e.start, b, cap);
      if e.start + b < a + cap {
        ModDistinct(a, e.start + b, cap);
      }
    } else {
      if a < Head(g) && Head(g) < a + cap {
        ModDistinct(a, Head(g), cap);
      }
    }
  }

  /** Index, within its append, just after the store of byte `k`. */
  function StoredAt(cap: nat, h: seq<Entry>, j: nat, k: nat): nat
    requires cap > 0 && j < |h|
  {
    Fenced(cap, h[..j], h[j]) + |Marker(cap, h[..j], h[j])| + k + 1
  }

  /** Right after its store a byte shows its value, and no later store of the same append touches it. */
  lemma OwnAppend(cap: nat, h: seq<Entry>, j: nat, k: nat, p: nat, m: nat)
    requires Laid(cap, h) && j < |h| && k < |h[j].bytes| && p == h[j].start % cap + k
    requires StoredAt(cap, h, j, k) <= m <= |OpsOf(cap, h, j)| && Base(cap, h, j) + m <= |TraceOf(cap, h)|
    ensures Guarded(TraceOf(cap, h), p, Base(cap, h, j) + m, h[j].bytes[k], h[j].start)
  {
    hide TraceOf, Oldest, Evicted, AppendOps, Base, Prologue, Marker, MemOldest, Head;
    var g, e, x := h[..j], h[j], StoredAt(cap, h, j, k);
    OpKind(cap, g, e, x - 1);
    OpAt(cap, h, j, x - 1);
    forall z | x <= z < m
      ensures var op := OpsOf(cap, h, j)[z]; !(op.StoreByte? && op.phys == p)
    {
      OpKind(cap, g, e, z);
    }
    GuardedRun(cap, h, j, x, m, p, e.bytes[k], e.start);
  }

  /** A later append keeps an older position guarded. */
  lemma LaterAppend(cap: nat, h: seq<Entry>, n: nat, m: nat, a: nat, p: nat, v: byte, s: nat)
    requires Laid(cap, h) && n < |h| && m <= |OpsOf(cap, h, n)| && Base(cap, h, n) + m <= |TraceOf(cap, h)|
    requires a < Head(h[..n]) && p == a % cap && s <= a
    requires Guarded(TraceOf(cap, h), p, Base(cap, h, n), v, s)
    ensures Guarded(TraceOf(cap, h), p, Base(cap, h, n) + m, v, s)
  {
    hide TraceOf, Oldest, OpsOf, Base, Guarded, Head;
    forall z | 0 <= z < m
      ensures var op := OpsOf(cap, h, n)[z];
              op.StoreByte? && op.phys == p ==> op.value == v || Oldest(cap, h[..n + 1]) > s
    {
      var op := OpsOf(cap, h, n)[z];
      if op.StoreByte? && op.phys == p {
        StoreReclaims(cap, h, n, z, a, p);
      }
    }
    GuardedRun(cap, h, n, 0, m, p, v, s);
  }

  /** Byte `k` of entry `j` is guarded from its store on, through every later append. */
  lemma {:induction false} ByteGuarded(cap: nat, h: seq<Entry>, j: nat, k: nat, p: nat, n: nat, m: nat)
    requires Laid(cap, h) && j <= n < |h| && k < |h[j].bytes| && p == h[j].start % cap + k
    requires m <= |OpsOf(cap, h, n)| && Base(cap, h, n) + m <= |TraceOf(cap, h)|
    requires n == j ==> StoredAt(cap, h, j, k) <= m
    ensures Guarded(TraceOf(cap, h), p, Base(cap, h, n) + m, h[j].bytes[k], h[j].start)
    decreases n
  {
    hide TraceOf, OpsOf, Base, Guarded, StoredAt;
    if n == j {
      OwnAppend(cap, h, j, k, p, m);
    } else {
      BaseStep(cap, h, n - 1);
      TracePrefix(cap, h, n);
      ByteStoredBy(cap, h, j, k);
      ByteGuarded(cap, h, j, k, p, n - 1, |OpsOf(cap, h, n - 1)|);
      LaidFits(cap, h, j);
      ModAdd(h[j].start, k, cap);
      Ordered(cap, h, j, n);
      HeadOfPrefix(h, n);
      LaterAppend(cap, h, n, m, h[j].start + k, p, h[j].bytes[k], h[j].start);
    }
  }

  lemma HeadOfPrefix(h: seq<Entry>, n: nat)
    requires n <= |h|
    ensures Head(h[..n]) == HeadAt(h, n)
  {
  }

  lemma ByteStoredBy(cap: nat, h: seq<Entry>, j: nat, k: nat)
    requires cap > 0 && j < |h| && k < |h[j].bytes|
    ensures StoredAt(cap, h, j, k) <= Filled(cap, h[..j], h[j]) < |OpsOf(cap, h, j)|
  {
    hide Prologue, Marker;
    OpCount(cap, h[..j], h[j]);
  }

  /** The marker of the gap before entry `j` is guarded from its store on. */
  lemma {:induction false} MarkerGuarded(cap: nat, h: seq<Entry>, j: nat, p: nat, n: nat, m: nat)
    requires Laid(cap, h) && j <= n < |h| && h[j].start != HeadAt(h, j) && p == HeadAt(h, j) % cap
    requires m <= |OpsOf(cap, h, n)| && Base(cap, h, n) + m <= |TraceOf(cap, h)|
    requires n == j ==> Fenced(cap, h[..j], h[j]) < m
    ensures Guarded(TraceOf(cap, h), p, Base(cap, h, n) + m, 0, HeadAt(h, j))
    decreases n
  {
    hide TraceOf, OpsOf, Base, Guarded, Prologue;
    HeadOfPrefix(h, j);
    if n == j {
      OwnMarker(cap, h, j, p, m);
    } else {
      BaseStep(cap, h, n - 1);
      TracePrefix(cap, h, n);
      MarkerStoredBy(cap, h, j);
      MarkerGuarded(cap, h, j, p, n - 1, |OpsOf(cap, h, n - 1)|);
      LaidFits(cap, h, j);
      Ordered(cap, h, j, n);
      HeadOfPrefix(h, n);
      LaterAppend(cap, h, n, m, HeadAt(h, j), p, 0, HeadAt(h, j));
    }
  }

  lemma MarkerStoredBy(cap: nat, h: seq<Entry>, j: nat)
    requires cap > 0 && j < |h|
    ensures Fenced(cap, h[..j], h[j]) <= Filled(cap, h[..j], h[j]) < |OpsOf(cap, h, j)| - 1
  {
    hide Prologue, Marker;
    OpCount(cap, h[..j], h[j]);
  }

  lemma OwnMarker(cap: nat, h: seq<Entry>, j: nat, p: nat, m: nat)
    requires Laid(cap, h) && j < |h| && h[j].start != Head(h[..j]) && p == Head(h[..j]) % cap
    requires Fenced(cap, h[..j], h[j]) < m <= |OpsOf(cap, h, j)| && Base(cap, h, j) + m <= |TraceOf(cap, h)|
    ensures Guarded(TraceOf(cap, h), p, Base(cap, h, j) + m, 0, Head(h[..j]))
  {
    hide TraceOf, Oldest, Evicted, AppendOps, Base, Prologue, MemOldest;
    var g, e, x := h[..j], h[j], Fenced(cap, h[..j], h[j]);
    OpKind(cap, g, e, x);
    OpAt(cap, h, j, x);
    forall z | x + 1 <= z < m
      ensures var op := OpsOf(cap, h, j)[z];
              op.StoreByte? && op.phys == p ==> op.value == 0 || Oldest(cap, h[..j + 1]) > Head(g)
    {
      var op := OpsOf(cap, h, j)[z];
      if op.StoreByte? && op.phys == p {
        StoreReclaims(cap, h, j, z, Head(g), p);
      }
    }
    GuardedRun(cap, h, j, x + 1, m, p, 0, Head(g));
  }

  // ---- What a reader of a published record can count on ----------------------------------------

  /** An entry whose end has been published was completely stored before. */
  lemma PublishedAfter(cap: nat, h: seq<Entry>, j: nat, t: nat) returns (n: nat, m: nat)
    requires Laid(cap, h) && j < |h| && t <= |TraceOf(cap, h)| && h[j].End() <= MemHead(TraceOf(cap, h), t)
    ensures j <= n < |h| && m <= |OpsOf(cap, h, n)| && t == Base(cap, h, n) + m
    ensures n == j ==> Filled(cap, h[..j], h[j]) < m
  {
    hide TraceOf, OpsOf, Base, Oldest, Evicted, Prologue, Marker, MemOldest, MemHead, MemLost, MemLock;
    TraceNonEmpty(cap, h);
    n, m := Locate(cap, h, t);
    Controlled(cap, h, n, m);
    HeadOfPrefix(h, n);
    LaidFits(cap, h, j);
    if n < j {
      Ordered(cap, h, n, j);
      LaidFits(cap, h, n);
    }
    Ordered(cap, h, j, j + 1);
  }

  /** Byte `k` of a published entry, loaded at any time from publication on, is the byte written, or it carries the
  stamp of a fence behind which the oldest offset had already passed the entry. */
  lemma PublishedByte(cap: nat, h: seq<Entry>, j: nat, k: nat, p: nat, s: nat, t: nat)
    requires Laid(cap, h) && j < |h| && k < |h[j].bytes| && p == h[j].start % cap + k
    requires s <= t <= |TraceOf(cap, h)| && h[j].End() <= MemHead(TraceOf(cap, h), s)
    ensures Guarded(TraceOf(cap, h), p, t, h[j].bytes[k], h[j].start)
  {
    hide TraceOf, OpsOf, Base, Guarded, MemHead, StoredAt;
    Forward(cap, h, s, t);
    var n, m := PublishedAfter(cap, h, j, t);
    ByteStoredBy(cap, h, j, k);
    ByteGuarded(cap, h, j, k, p, n, m);
  }

  /** The same for the wrap marker of the gap before a published entry. */
  lemma PublishedMarker(cap: nat, h: seq<Entry>, j: nat, p: nat, s: nat, t: nat)
    requires Laid(cap, h) && j < |h| && h[j].start != HeadAt(h, j) && p == HeadAt(h, j) % cap
    requires s <= t <= |TraceOf(cap, h)| && h[j].End() <= MemHead(TraceOf(cap, h), s)
    ensures Guarded(TraceOf(cap, h), p, t, 0, HeadAt(h, j))
  {
    hide TraceOf, OpsOf, Base, Guarded, MemHead;
    Forward(cap, h, s, t);
    var n, m := PublishedAfter(cap, h, j, t);
    MarkerStoredBy(cap, h, j);
    MarkerGuarded(cap, h, j, p, n, m);
  }
}
