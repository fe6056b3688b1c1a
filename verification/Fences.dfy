/** Both fences of the overwrite recheck are needed, and together they suffice. */
module Fences {
  import opened Bytes
  import opened Wire
  import opened Codec
  import opened Layout
  import opened Image
  import opened Reads
  import opened StoreLog
  import opened Trace
  import opened Reader
  import opened Producer

  /** The times at which one reading of a record is satisfied: the three snapshot loads, the load of each byte and the
  recheck. The first bytes are loaded repeatedly; here all loads of a byte are satisfied at one time. */
  datatype Reading = Reading(head: nat, oldest: nat, lost: nat, loads: seq<nat>, recheck: nat)

  /** The reader's view after the three acquiring loads of the snapshot. */
  function SnapshotView(ops: seq<Op>, a: Reading): nat
    requires a.head <= |ops| && a.oldest <= |ops| && a.lost <= |ops|
  {
    Max(Max(HeadStamp(ops, a.head), OldestStamp(ops, a.oldest)), LostStamp(ops, a.lost))
  }

  /** The largest stamp of the byte loads. */
  function PendingStamp(ops: seq<Op>, phys: nat, loads: seq<nat>): (s: nat)
    requires forall k | 0 <= k < |loads| :: loads[k] <= |ops|
    ensures forall k | 0 <= k < |loads| :: ByteStamp(ops, phys + k, loads[k]) <= s
  {
    if loads == [] then 0
    else
      var n := |loads| - 1;
      assert forall k | 0 <= k < n :: loads[..n][k] == loads[k];
      Max(PendingStamp(ops, phys, loads[..n]), ByteStamp(ops, phys + n, loads[n]))
  }

  /** The memory model allows the reading: no load is satisfied before the view, and the view moves to the stamps read
  by an acquiring load, and by the acquire fence if there is one. */
  predicate Allowed(ops: seq<Op>, phys: nat, a: Reading, acquireFence: bool) {
    && a.head <= |ops| && a.oldest <= |ops| && a.lost <= |ops| && a.recheck <= |ops|
    && HeadStamp(ops, a.head) <= a.oldest && Max(HeadStamp(ops, a.head), OldestStamp(ops, a.oldest)) <= a.lost
    && (forall k | 0 <= k < |a.loads| :: SnapshotView(ops, a) <= a.loads[k] <= |ops|)
    && SnapshotView(ops, a) <= a.recheck
    && (acquireFence ==> PendingStamp(ops, phys, a.loads) <= a.recheck)
  }

  /** The snapshot shows a record at `abs`, and the recheck finds it still there. */
  predicate Rechecked(ops: seq<Op>, abs: nat, a: Reading)
    requires a.head <= |ops| && a.oldest <= |ops| && a.recheck <= |ops|
  {
    MemOldest(ops, a.oldest) <= abs < MemHead(ops, a.head) && MemOldest(ops, a.recheck) <= abs
  }

  function BytesRead(ops: seq<Op>, phys: nat, loads: seq<nat>): (s: seq<byte>)
    requires forall k | 0 <= k < |loads| :: loads[k] <= |ops|
    ensures |s| == |loads|
  {
    seq(|loads|, k requires 0 <= k < |loads| => MemByte(ops, phys + k, loads[k]))
  }

  /** With both fences, every allowed reading of a published record that passes the recheck has read its own bytes. */
  lemma FencesSuffice(cap: nat, h: seq<Entry>, i: nat, a: Reading)
    requires Laid(cap, h) && i < |h| && |a.loads| == |h[i].bytes|
    requires Allowed(TraceOf(cap, h), h[i].start % cap, a, true) && Rechecked(TraceOf(cap, h), h[i].start, a)
    requires h[i].End() <= MemHead(TraceOf(cap, h), a.head)
    ensures BytesRead(TraceOf(cap, h), h[i].start % cap, a.loads) == h[i].bytes
  {
    hide TraceOf, MemByte, ByteStamp, HeadStamp, OldestStamp, LostStamp, MemHead, MemOldest, PendingStamp;
    var ops, phys := TraceOf(cap, h), h[i].start % cap;
    var s := HeadStamp(ops, a.head);
    forall k | 0 <= k < |h[i].bytes|
      ensures MemByte(ops, phys + k, a.loads[k]) == h[i].bytes[k]
    {
      LoadExact(cap, h, i, k, phys + k, s, a.loads[k], a.recheck);
    }
  }

  // ---- Either fence missing ------------------------------------------------------------------

  /** Two records at the beginning of the ring, one written over the other. */
  function Overwriting(cap: nat, first: Record, second: Record): seq<Entry>
    requires Encodable(first, true) && Encodable(second, true)
  {
    [Entry(0, first, Encoding(first, true)), Entry(cap, second, Encoding(second, true))]
  }

  lemma OverwritingLaid(cap: nat, first: Record, second: Record, h: seq<Entry>)
    requires Encodable(first, true) && Encodable(second, true) && h == Overwriting(cap, first, second)
    requires |Encoding(first, true)| == cap == |Encoding(second, true)|
    ensures cap > 0 && History(cap, h) && h[1].start % cap == 0 && Head(h[..1]) == cap && Oldest(cap, h[..1]) == 0
    ensures forall k | 0 <= k < cap :: ImageOf(cap, h)[k] == h[1].bytes[k]
  {
    hide Encoding, Encodable, ImageOf;
    ModOf(cap, cap, 1, 0);
    assert LaidAt(cap, h, 0) && LaidAt(cap, h, 1);
    LaidPrefix(cap, h, 1);
    RetainedExactly(cap, h[..1]);
    RetainedExactly(cap, h);
    RetainedIntact(cap, h, 1);
    var image := ImageOf(cap, h);
    assert image[0..cap] == image;
  }

  /** A reading of the record at offset zero: snapshot and recheck at `early`, every byte at `late`. */
  function Late(cap: nat, early: nat, late: nat): Reading {
    Reading(early, early, early, seq(cap, _ => late), early)
  }

  /** Without the reader's acquire fence: the second record can pass for the one published at offset zero. */
  lemma AcquireFenceNeeded(cap: nat, first: Record, second: Record) returns (a: Reading)
    requires Encodable(first, true) && Encodable(second, true) && Encoding(first, true) != Encoding(second, true)
    requires |Encoding(first, true)| == cap == |Encoding(second, true)|
    ensures cap > 0 && History(cap, Overwriting(cap, first, second))
    ensures var ops := TraceOf(cap, Overwriting(cap, first, second));
            && Allowed(ops, 0, a, false) && Rechecked(ops, 0, a) && MemHead(ops, a.head) == cap == |a.loads|
            && BytesRead(ops, 0, a.loads) == Encoding(second, true)
            && Decode(BytesRead(ops, 0, a.loads)) == Ok(Decoded(Normalised(second, true), cap))
  {
    hide Encoding, Encodable, TraceOf, MemByte, MemHead, MemOldest, MemLost, MemLock, ImageOf, Decode, Oldest, Evicted;
    var h := Overwriting(cap, first, second);
    OverwritingLaid(cap, first, second, h);
    var ops, early, late := TraceOf(cap, h), Base(cap, h, 1), |TraceOf(cap, h)|;
    Settled(cap, h, 1);
    a := Late(cap, early, late);
    LateBytes(cap, h, ops, late, a.loads);
    DecodeSecond(second);
  }

  /** At the end of the trace every byte is the second record's. */
  lemma LateBytes(cap: nat, h: seq<Entry>, ops: seq<Op>, late: nat, loads: seq<nat>)
    requires Laid(cap, h) && |h| == 2 && |h[1].bytes| == cap && late == |TraceOf(cap, h)| <= |ops| && |loads| == cap
    requires forall k | 0 <= k < cap :: loads[k] == late && ImageOf(cap, h)[k] == h[1].bytes[k]
    requires forall p: nat :: MemByte(ops, p, late) == MemByte(TraceOf(cap, h), p, late)
    ensures BytesRead(ops, 0, loads) == h[1].bytes
  {
    hide TraceOf, MemByte, ImageOf, Laid;
    assert h[..2] == h;
    forall k | 0 <= k < cap
      ensures MemByte(ops, 0 + k, loads[k]) == h[1].bytes[k]
    {
      TraceImage(cap, h, 2, k);
    }
  }

  lemma DecodeSecond(r: Record)
    requires Encodable(r, true)
    ensures Decode(Encoding(r, true)) == Ok(Decoded(Normalised(r, true), |Encoding(r, true)|))
  {
    hide Decode, Encoding;
    DecodeOfEncoding(r, true, []);
    assert Encoding(r, true) + [] == Encoding(r, true);
  }

  /** The log of a producer that leaves its release fences out. */
  function Unfenced(ops: seq<Op>): seq<Op> {
    if ops == [] then []
    else
      var n := |ops| - 1;
      Unfenced(ops[..n]) + if ops[n].ReleaseFence? then [] else [ops[n]]
  }

  lemma {:induction false} UnfencedPrefix(ops: seq<Op>, t: nat)
    requires t <= |ops|
    ensures |Unfenced(ops[..t])| <= |Unfenced(ops)| && Unfenced(ops)[..|Unfenced(ops[..t])|] == Unfenced(ops[..t])
    decreases |ops|
  {
    if t == |ops| {
      assert ops[..t] == ops;
    } else {
      var n := |ops| - 1;
      UnfencedPrefix(ops[..n], t);
      assert ops[..n][..t] == ops[..t];
    }
  }

  /** A fence stores nothing: leaving fences out changes no value. */
  lemma {:induction false} UnfencedWords(ops: seq<Op>)
    ensures var u := Unfenced(ops);
            MemHead(u, |u|) == MemHead(ops, |ops|) && MemOldest(u, |u|) == MemOldest(ops, |ops|)
  {
    if ops == [] {
      assert Unfenced(ops) == [];
    } else {
      var n := |ops| - 1;
      var g, u := ops[..n], Unfenced(ops[..n]);
      UnfencedWords(g);
      SamePrefix(g, ops, n);
      SamePrefix(u, Unfenced(ops), |u|);
    }
  }

  lemma {:induction false} UnfencedByte(ops: seq<Op>, p: nat)
    ensures var u := Unfenced(ops); MemByte(u, p, |u|) == MemByte(ops, p, |ops|)
  {
    if ops == [] {
      assert Unfenced(ops) == [];
    } else {
      var n := |ops| - 1;
      var g, u := ops[..n], Unfenced(ops[..n]);
      UnfencedByte(g, p);
      SamePrefix(g, ops, n);
      SamePrefix(u, Unfenced(ops), |u|);
    }
  }

  lemma {:induction false} NoFences(ops: seq<Op>)
    ensures forall i | 0 <= i < |Unfenced(ops)| :: !Unfenced(ops)[i].ReleaseFence?
  {
    if ops == [] {
      assert Unfenced(ops) == [];
    } else {
      NoFences(ops[..|ops| - 1]);
    }
  }

  /** Without a fence a relaxed store teaches nothing. */
  lemma {:induction false} NoStamps(ops: seq<Op>, p: nat, t: nat)
    requires t <= |ops| && forall i | 0 <= i < |ops| :: !ops[i].ReleaseFence?
    ensures FenceAt(ops, t) == 0 && ByteStamp(ops, p, t) == 0
  {
    if t == 0 {
      assert FenceAt(ops, 0) == 0;
    } else {
      NoStamps(ops, p, t - 1);
    }
  }

  lemma {:induction false} NothingPending(ops: seq<Op>, phys: nat, loads: seq<nat>)
    requires forall i | 0 <= i < |ops| :: !ops[i].ReleaseFence?
    requires forall k | 0 <= k < |loads| :: loads[k] <= |ops|
    ensures PendingStamp(ops, phys, loads) == 0
  {
    if loads == [] {
      assert PendingStamp(ops, phys, loads) == 0;
    } else {
      var n := |loads| - 1;
      NothingPending(ops, phys, loads[..n]);
      NoStamps(ops, phys + n, loads[n]);
    }
  }

  /** Without the writer's release fence: the same, although the reader has its acquire fence. */
  lemma ReleaseFenceNeeded(cap: nat, first: Record, second: Record) returns (a: Reading)
    requires Encodable(first, true) && Encodable(second, true) && Encoding(first, true) != Encoding(second, true)
    requires |Encoding(first, true)| == cap == |Encoding(second, true)|
    ensures cap > 0 && History(cap, Overwriting(cap, first, second))
    ensures var ops := Unfenced(TraceOf(cap, Overwriting(cap, first, second)));
            && Allowed(ops, 0, a, true) && Rechecked(ops, 0, a) && MemHead(ops, a.head) == cap == |a.loads|
            && BytesRead(ops, 0, a.loads) == Encoding(second, true)
            && Decode(BytesRead(ops, 0, a.loads)) == Ok(Decoded(Normalised(second, true), cap))
  {
    hide Encoding, Encodable, TraceOf, MemByte, MemHead, MemOldest, MemLost, MemLock, ImageOf, Decode, Oldest, Evicted;
    hide Unfenced, PendingStamp, HeadStamp, OldestStamp, LostStamp;
    var h := Overwriting(cap, first, second);
    OverwritingLaid(cap, first, second, h);
    Settled(cap, h, 1);
    var whole, begun := TraceOf(cap, h), TraceOf(cap, h)[..Base(cap, h, 1)];
    var ops, early, late := Unfenced(whole), |Unfenced(begun)|, |Unfenced(whole)|;
    EarlyWords(whole, Base(cap, h, 1), ops, early);
    NoFences(whole);
    a := Late(cap, early, late);
    NothingPending(ops, 0, a.loads);
    UnfencedBytes(cap, h, whole, ops, a.loads);
    DecodeSecond(second);
  }

  /** The control words at the time the second append begins. */
  lemma EarlyWords(whole: seq<Op>, t: nat, ops: seq<Op>, early: nat)
    requires t <= |whole| && ops == Unfenced(whole) && early == |Unfenced(whole[..t])|
    ensures early <= |ops| && MemHead(ops, early) == MemHead(whole, t) && MemOldest(ops, early) == MemOldest(whole, t)
  {
    hide MemHead, MemOldest, Unfenced;
    UnfencedPrefix(whole, t);
    UnfencedWords(whole[..t]);
    SamePrefix(whole[..t], whole, t);
    SamePrefix(Unfenced(whole[..t]), ops, early);
  }

  lemma UnfencedBytes(cap: nat, h: seq<Entry>, whole: seq<Op>, ops: seq<Op>, loads: seq<nat>)
    requires Laid(cap, h) && |h| == 2 && |h[1].bytes| == cap == |loads| && whole == TraceOf(cap, h)
             && ops == Unfenced(whole)
    requires forall k | 0 <= k < cap :: loads[k] == |ops| && ImageOf(cap, h)[k] == h[1].bytes[k]
    ensures BytesRead(ops, 0, loads) == h[1].bytes
  {
    hide TraceOf, MemByte, ImageOf, Laid, Unfenced;
    assert h[..2] == h;
    forall k | 0 <= k < cap
      ensures MemByte(ops, 0 + k, loads[k]) == h[1].bytes[k]
    {
      TraceImage(cap, h, 2, k);
      UnfencedByte(whole, k);
    }
  }
}
