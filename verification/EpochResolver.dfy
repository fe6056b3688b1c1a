/** The epoch in force at every record, and a resolver that recovers it from what it observes. */
module EpochResolution {
  import opened Bytes
  import opened Wire
  import opened Registry
  import opened Reads
  import opened Accounting
  import opened EpochLog

  // ---- The epoch in force --------------------------------------------------------------

  /** The run just before place `i` of the log. */
  function RunBefore(log: seq<Record>, run0: u64, i: nat): u64
    requires i <= |log|
  {
    if i == 0 then run0 else log[i - 1].runId
  }

  function EpochBefore(epochs: seq<u64>, epoch0: u64, i: nat): u64
    requires i <= |epochs|
  {
    if i == 0 then epoch0 else epochs[i - 1]
  }

  /** Run and epoch change only at a `LoggerStarted`, to the epoch announced by the `DefinitionChanged` before it. */
  predicate MarkAt(log: seq<Record>, epochs: seq<u64>, run0: u64, epoch0: u64, i: nat)
    requires i < |log| == |epochs|
  {
    if Started(log[i]) then
      i > 0 && Announces(log[i - 1], RunBefore(log, run0, i), epochs[i]) && Restarts(log[i], RunBefore(log, run0, i))
    else
      log[i].runId == RunBefore(log, run0, i) && epochs[i] == EpochBefore(epochs, epoch0, i)
  }

  /** `epochs[i]` is the epoch in force when record `i` was written. */
  predicate Marked(log: seq<Record>, epochs: seq<u64>, run0: u64, epoch0: u64) {
    |log| == |epochs| && forall i | 0 <= i < |log| :: MarkAt(log, epochs, run0, epoch0, i)
  }

  lemma MarkStep(log: seq<Record>, epochs: seq<u64>, run0: u64, epoch0: u64, r: Record, epoch: u64)
    requires Marked(log, epochs, run0, epoch0) && MarkAt(log + [r], epochs + [epoch], run0, epoch0, |log|)
    ensures Marked(log + [r], epochs + [epoch], run0, epoch0)
  {
    forall i | 0 <= i < |log|
      ensures MarkAt(log + [r], epochs + [epoch], run0, epoch0, i)
    {
      assert MarkAt(log, epochs, run0, epoch0, i);
    }
  }

  // ---- Parsers ----------------------------------------------------------------------------

  /** The epoch a `DefinitionChanged` record announces: its last well-formed epoch slot. */
  function DefinitionChangedEpoch(r: Record): Option<u64> {
    Widths();
    match LastPayload(r.slots, KEY_EPOCH_ID, 8)
    case Some(p) => Some(FromLe(p))
    case None => None
  }

  /** The cold-start flag: the first well-formed one. */
  function ColdStart(slots: seq<Slot>): Option<bool> {
    if slots == [] then None
    else if slots[0].key == KEY_COLD_START && |slots[0].payload| == 1 then Some(slots[0].payload[0] != 0)
    else ColdStart(slots[1..])
  }

  /** A record announces an epoch exactly when its last well-formed epoch slot carries it. */
  lemma ChangedEpochMeans(r: Record, epoch: u64)
    ensures DefinitionChangedEpoch(r) == Some(epoch) <==> exists i: nat :: LastAt(r.slots, KEY_EPOCH_ID, 8, epoch, i)
  {
    hide LastPayload, LastAt, FromLe;
    LastPayloadAt(r.slots, KEY_EPOCH_ID, 8, epoch);
  }

  /** Slot `i` is the first one-byte cold-start flag. */
  predicate FirstFlag(slots: seq<Slot>, i: nat) {
    && i < |slots| && slots[i].key == KEY_COLD_START && |slots[i].payload| == 1
    && forall j | 0 <= j < i :: !(slots[j].key == KEY_COLD_START && |slots[j].payload| == 1)
  }

  /** A start is cold exactly when the first one-byte flag is not zero. */
  lemma {:induction false} ColdStartMeans(slots: seq<Slot>, cold: bool)
    ensures ColdStart(slots) == Some(cold)
            <==> exists i: nat :: FirstFlag(slots, i) && cold == (slots[i].payload != [0])
  {
    if slots == [] {
    } else {
      var rest := slots[1..];
      ColdStartMeans(rest, cold);
      assert forall j | 0 <= j < |rest| :: rest[j] == slots[j + 1];
      if slots[0].key == KEY_COLD_START && |slots[0].payload| == 1 {
        assert FirstFlag(slots, 0);
      } else {
        if i: nat :| FirstFlag(slots, i) && cold == (slots[i].payload != [0]) {
          assert FirstFlag(rest, i - 1);
        }
        if i: nat :| FirstFlag(rest, i) && cold == (rest[i].payload != [0]) {
          assert FirstFlag(slots, i + 1);
        }
      }
    }
  }

  lemma AnnouncedEpoch(r: Record, run: u64, epoch: u64)
    requires Announces(r, run, epoch)
    ensures DefinitionChangedEpoch(r) == Some(epoch)
  {
    Widths();
    FromToLe(epoch, 8);
  }

  lemma RestartFlag(r: Record, run: u64)
    requires Restarts(r, run)
    ensures ColdStart(r.slots) == Some(r.runId != run)
  {
  }

  // ---- Boundaries ----------------------------------------------------------------------------

  type Boundaries = seq<(nat, u64)>

  /** Stable sort by start, as the standard library does it. */
  function InsertBoundary(s: Boundaries, b: (nat, u64)): Boundaries {
    if s == [] || s[|s| - 1].0 <= b.0 then s + [b]
    else InsertBoundary(s[..|s| - 1], b) + [s[|s| - 1]]
  }

  function SortBoundaries(s: Boundaries): Boundaries {
    if s == [] then [] else InsertBoundary(SortBoundaries(s[..|s| - 1]), s[|s| - 1])
  }

  predicate InOrder(s: Boundaries) {
    forall i, j | 0 <= i < j < |s| :: s[i].0 <= s[j].0
  }

  lemma {:induction false} SortedAlready(s: Boundaries)
    requires InOrder(s)
    ensures SortBoundaries(s) == s
  {
    if s == [] {
    } else {
      SortedAlready(s[..|s| - 1]);
    }
  }

  /** The boundaries an observer of records `from..n` learns for run `run`: every `LoggerStarted` whose
  `DefinitionChanged` it has seen. */
  function Bounds(log: seq<Record>, starts: seq<nat>, epochs: seq<u64>, from: nat, n: nat, run: u64): Boundaries
    requires n <= |log| == |starts| == |epochs|
  {
    if n <= from then []
    else
      Bounds(log, starts, epochs, from, n - 1, run)
      + if Started(log[n - 1]) && n - 1 > from && log[n - 1].runId == run then [(starts[n - 1], epochs[n - 1])] else []
  }

  predicate Increasing(starts: seq<nat>) {
    forall i, j | 0 <= i < j < |starts| :: starts[i] < starts[j]
  }

  /** The boundary is the start of one of the first `n` records. */
  ghost predicate StartsBelow(b: (nat, u64), starts: seq<nat>, n: nat) {
    exists q | 0 <= q < n <= |starts| :: b.0 == starts[q]
  }

  lemma {:induction false} BoundsInOrder(log: seq<Record>, starts: seq<nat>, epochs: seq<u64>, from: nat, n: nat,
                                         run: u64)
    requires n <= |log| == |starts| == |epochs| && Increasing(starts)
    ensures InOrder(Bounds(log, starts, epochs, from, n, run))
    ensures forall b | b in Bounds(log, starts, epochs, from, n, run) :: StartsBelow(b, starts, n)
  {
    hide StartsBelow, Increasing, Bounds, InOrder;
    if n <= from {
      NoBounds(log, starts, epochs, from, n, run);
    } else {
      BoundsInOrder(log, starts, epochs, from, n - 1, run);
      var before := Bounds(log, starts, epochs, from, n - 1, run);
      var after := Bounds(log, starts, epochs, from, n, run);
      var b := (starts[n - 1], epochs[n - 1]);
      forall c | c in before
        ensures c.0 < b.0 && StartsBelow(c, starts, n)
      {
        StartsEarlier(c, starts, n);
      }
      StartsAt(b, starts, n);
      BoundsMore(log, starts, epochs, from, n, run);
      if after == before + [b] {
        InOrderMore(before, b);
      }
    }
  }

  lemma NoBounds(log: seq<Record>, starts: seq<nat>, epochs: seq<u64>, from: nat, n: nat, run: u64)
    requires n <= from && n <= |log| == |starts| == |epochs|
    ensures Bounds(log, starts, epochs, from, n, run) == [] && InOrder([])
  {
  }

  lemma BoundsMore(log: seq<Record>, starts: seq<nat>, epochs: seq<u64>, from: nat, n: nat, run: u64)
    requires from < n <= |log| == |starts| == |epochs|
    ensures var before, after := Bounds(log, starts, epochs, from, n - 1, run), Bounds(log, starts, epochs, from, n,
                                                                                       run);
            after == before || after == before + [(starts[n - 1], epochs[n - 1])]
  {
  }

  lemma InOrderMore(s: Boundaries, b: (nat, u64))
    requires InOrder(s) && forall c | c in s :: c.0 < b.0
    ensures InOrder(s + [b])
  {
    forall i | 0 <= i < |s|
      ensures s[i].0 <= b.0
    {
      assert s[i] in s;
    }
  }

  lemma StartsEarlier(b: (nat, u64), starts: seq<nat>, n: nat)
    requires 0 < n <= |starts| && Increasing(starts) && StartsBelow(b, starts, n - 1)
    ensures b.0 < starts[n - 1] && StartsBelow(b, starts, n)
  {
    var q :| 0 <= q < n - 1 && b.0 == starts[q];
  }

  lemma StartsAt(b: (nat, u64), starts: seq<nat>, n: nat)
    requires 0 < n <= |starts| && b.0 == starts[n - 1]
    ensures StartsBelow(b, starts, n)
  {
  }

  /** The last boundary at or below `abs`. */
  function LastFrom(b: Boundaries, abs: nat): Option<u64> {
    if b == [] then None
    else if abs >= b[|b| - 1].0 then Some(b[|b| - 1].1)
    else LastFrom(b[..|b| - 1], abs)
  }

  /** Boundaries learned after record `i` do not matter for it. */
  lemma {:induction false} LaterIgnored(log: seq<Record>, starts: seq<nat>, epochs: seq<u64>, from: nat, n: nat,
                                        i: nat, run: u64)
    requires i < n <= |log| == |starts| == |epochs| && Increasing(starts)
    ensures LastFrom(Bounds(log, starts, epochs, from, n, run), starts[i])
            == LastFrom(Bounds(log, starts, epochs, from, i + 1, run), starts[i])
    decreases n
  {
    if n <= i + 1 {
    } else {
      LaterIgnored(log, starts, epochs, from, n - 1, i, run);
      if from < n {
        var before := Bounds(log, starts, epochs, from, n - 1, run);
        var after := Bounds(log, starts, epochs, from, n, run);
        assert after != before ==> after[..|after| - 1] == before;
      }
    }
  }

  /** A transition of run `run` has been observed completely, at or before record `i`. */
  predicate PairSeen(log: seq<Record>, from: nat, i: nat, run: u64)
    requires i < |log|
  {
    exists q | from < q <= i :: Started(log[q]) && log[q].runId == run
  }

  /** The newest boundary at record `i` carries the epoch in force there. */
  lemma {:induction false} NewestBoundary(log: seq<Record>, starts: seq<nat>, epochs: seq<u64>, run0: u64, epoch0: u64,
                                          from: nat, i: nat)
    requires Marked(log, epochs, run0, epoch0) && |starts| == |log| && i < |log| && Increasing(starts)
    ensures var found := LastFrom(Bounds(log, starts, epochs, from, i + 1, log[i].runId), starts[i]);
            && (PairSeen(log, from, i, log[i].runId) ==> found == Some(epochs[i]))
            && (from == 0 && !PairSeen(log, from, i, log[i].runId)
                ==> found == None && log[i].runId == run0 && epochs[i] == epoch0)
    decreases i
  {
    hide Bounds;
    var run := log[i].runId;
    assert MarkAt(log, epochs, run0, epoch0, i);
    NoneAfter(log, starts, epochs, from, i, run);
    if Started(log[i]) {
      assert i > from ==> PairSeen(log, from, i, run);
    } else if i > 0 {
      NewestBoundary(log, starts, epochs, run0, epoch0, from, i - 1);
      assert log[i - 1].runId == run;
      PairEarlier(log, from, i, run);
      EarlierIgnored(log, starts, epochs, from, i, run);
    } else {
      assert !PairSeen(log, from, i, run);
    }
  }

  /** One more record: its own boundary, if it is one. */
  lemma NoneAfter(log: seq<Record>, starts: seq<nat>, epochs: seq<u64>, from: nat, i: nat, run: u64)
    requires i < |log| == |starts| == |epochs|
    ensures i < from ==> Bounds(log, starts, epochs, from, i + 1, run) == []
    ensures i == 0 && !(Started(log[0]) && 0 > from) ==> Bounds(log, starts, epochs, from, 1, run) == []
    ensures from < i && Started(log[i]) && log[i].runId == run
            ==> Bounds(log, starts, epochs, from, i + 1, run)
                == Bounds(log, starts, epochs, from, i, run) + [(starts[i], epochs[i])]
    ensures !Started(log[i])
            ==> Bounds(log, starts, epochs, from, i + 1, run) == Bounds(log, starts, epochs, from, i, run)
  {
  }

  lemma PairEarlier(log: seq<Record>, from: nat, i: nat, run: u64)
    requires 0 < i < |log| && !Started(log[i])
    ensures PairSeen(log, from, i, run) <==> PairSeen(log, from, i - 1, run)
  {
  }

  lemma EarlierIgnored(log: seq<Record>, starts: seq<nat>, epochs: seq<u64>, from: nat, i: nat, run: u64)
    requires 0 < i < |log| == |starts| == |epochs| && Increasing(starts)
    ensures LastFrom(Bounds(log, starts, epochs, from, i, run), starts[i])
            == LastFrom(Bounds(log, starts, epochs, from, i, run), starts[i - 1])
  {
    BoundsInOrder(log, starts, epochs, from, i, run);
    var b := Bounds(log, starts, epochs, from, i, run);
    if b != [] {
      assert b[|b| - 1] in b;
      assert StartsBelow(b[|b| - 1], starts, i);
    }
  }

  // ---- The resolver ------------------------------------------------------------------------------

  function BoundariesOf(m: map<u64, Boundaries>, run: u64): Boundaries {
    if run in m then m[run] else []
  }

  ghost predicate Learned(m: map<u64, Boundaries>, log: seq<Record>, starts: seq<nat>, epochs: seq<u64>, from: nat,
                          n: nat)
    requires n <= |log| == |starts| == |epochs|
  {
    forall run :: BoundariesOf(m, run) == Bounds(log, starts, epochs, from, n, run)
  }

  /** One more boundary. */
  function Pushed(m: map<u64, Boundaries>, run: u64, b: (nat, u64)): map<u64, Boundaries> {
    m[run := BoundariesOf(m, run) + [b]]
  }

  function AllSorted(m: map<u64, Boundaries>): map<u64, Boundaries> {
    map run | run in m :: SortBoundaries(m[run])
  }

  /** One boundary more for one run: at the end, and on a warm start every list sorted by start. */
  ghost predicate Learns(m: map<u64, Boundaries>, m': map<u64, Boundaries>, run: u64, b: (nat, u64), cold: bool) {
    forall r :: multiset(BoundariesOf(m', r)) == multiset(BoundariesOf(m, r)) + (if r == run then multiset{b}
                                                                                 else multiset{})
                && (if cold then BoundariesOf(m', r) == BoundariesOf(m, r) + (if r == run then [b] else [])
                    else InOrder(BoundariesOf(m', r)))
  }

  lemma {:induction false} InsertKeeps(s: Boundaries, b: (nat, u64))
    ensures multiset(InsertBoundary(s, b)) == multiset(s) + multiset{b}
    ensures InOrder(s) ==> InOrder(InsertBoundary(s, b))
  {
    if s == [] || s[|s| - 1].0 <= b.0 {
      assert InsertBoundary(s, b) == s + [b];
    } else {
      var g, last := s[..|s| - 1], s[|s| - 1];
      InsertKeeps(g, b);
      assert s == g + [last];
      var r := InsertBoundary(g, b);
      if InOrder(s) {
        BelowLast(g, b, last, r);
      }
    }
  }

  lemma BelowLast(g: Boundaries, b: (nat, u64), last: (nat, u64), r: Boundaries)
    requires InOrder(g + [last]) && InOrder(r) && multiset(r) == multiset(g) + multiset{b} && b.0 <= last.0
    ensures InOrder(r + [last])
  {
    forall i | 0 <= i < |r|
      ensures r[i].0 <= last.0
    {
      assert r[i] in multiset(r);
      if r[i] != b {
        assert r[i] in multiset(g);
        var j :| 0 <= j < |g| && g[j] == r[i];
        assert (g + [last])[j].0 <= (g + [last])[|g|].0;
      }
    }
  }

  /** Sorting loses nothing and sorts. */
  lemma {:induction false} SortKeeps(s: Boundaries)
    ensures multiset(SortBoundaries(s)) == multiset(s) && InOrder(SortBoundaries(s))
  {
    hide InsertBoundary, InOrder;
    if s == [] {
      NoBoundaries();
    } else {
      var g, last := s[..|s| - 1], s[|s| - 1];
      SortKeeps(g);
      InsertKeeps(SortBoundaries(g), last);
      assert s == g + [last];
    }
  }

  lemma LearnsOne(m: map<u64, Boundaries>, run: u64, b: (nat, u64))
    ensures Learns(m, Pushed(m, run, b), run, b, true) && Learns(m, AllSorted(Pushed(m, run, b)), run, b, false)
  {
    hide AllSorted, InOrder, Pushed;
    var p := Pushed(m, run, b);
    forall r
      ensures BoundariesOf(p, r) == BoundariesOf(m, r) + (if r == run then [b] else [])
      ensures multiset(BoundariesOf(AllSorted(p), r)) == multiset(BoundariesOf(p, r))
              && InOrder(BoundariesOf(AllSorted(p), r))
    {
      PushedAt(m, run, b, r);
      SortedAt(p, r);
    }
  }

  lemma PushedAt(m: map<u64, Boundaries>, run: u64, b: (nat, u64), r: u64)
    ensures BoundariesOf(Pushed(m, run, b), r) == BoundariesOf(m, r) + (if r == run then [b] else [])
  {
  }

  lemma SortedAt(m: map<u64, Boundaries>, r: u64)
    ensures multiset(BoundariesOf(AllSorted(m), r)) == multiset(BoundariesOf(m, r))
            && InOrder(BoundariesOf(AllSorted(m), r))
  {
    hide SortBoundaries, InOrder;
    SortKeeps(BoundariesOf(m, r));
    NoBoundaries();
  }

  lemma NoBoundaries()
    ensures InOrder([])
  {
  }

  /** Learning the boundary of record `n` keeps every list in order, so that sorting changes nothing. */
  lemma LearnStep(m: map<u64, Boundaries>, log: seq<Record>, starts: seq<nat>, epochs: seq<u64>, from: nat, n: nat)
    requires from < n < |log| == |starts| == |epochs| && Increasing(starts) && Learned(m, log, starts, epochs, from, n)
    requires Started(log[n])
    ensures var m' := Pushed(m, log[n].runId, (starts[n], epochs[n]));
            Learned(m', log, starts, epochs, from, n + 1) && AllSorted(m') == m'
  {
    hide Bounds, SortBoundaries;
    var m' := Pushed(m, log[n].runId, (starts[n], epochs[n]));
    forall run
      ensures BoundariesOf(m', run) == Bounds(log, starts, epochs, from, n + 1, run)
      ensures SortBoundaries(BoundariesOf(m', run)) == BoundariesOf(m', run)
    {
      assert BoundariesOf(m, run) == Bounds(log, starts, epochs, from, n, run);
      BoundsStep(log, starts, epochs, from, n, run);
      BoundsInOrder(log, starts, epochs, from, n + 1, run);
      assert BoundariesOf(m', run) == Bounds(log, starts, epochs, from, n + 1, run);
      SortedAlready(BoundariesOf(m', run));
    }
    assert forall run | run in m' :: m'[run] == BoundariesOf(m', run);
  }

  lemma BoundsStep(log: seq<Record>, starts: seq<nat>, epochs: seq<u64>, from: nat, n: nat, run: u64)
    requires from < n < |log| == |starts| == |epochs| && Started(log[n])
    ensures Bounds(log, starts, epochs, from, n + 1, run)
            == Bounds(log, starts, epochs, from, n, run) + if log[n].runId == run then [(starts[n], epochs[n])] else []
  {
  }

  lemma LearnNothing(m: map<u64, Boundaries>, log: seq<Record>, starts: seq<nat>, epochs: seq<u64>, from: nat, n: nat)
    requires from <= n < |log| == |starts| == |epochs| && Learned(m, log, starts, epochs, from, n)
    requires !Started(log[n]) || n == from
    ensures Learned(m, log, starts, epochs, from, n + 1)
  {
  }

  /** No boundary from place `j` on is at or below `abs`. */
  predicate NoneFrom(bs: Boundaries, j: nat, abs: nat) {
    forall k | j <= k < |bs| :: bs[k].0 > abs
  }

  /** The last boundary at or below `abs` is one with this epoch. */
  predicate NewestAt(bs: Boundaries, abs: nat, epoch: u64) {
    exists j | 0 <= j < |bs| && bs[j].0 <= abs && NoneFrom(bs, j + 1, abs) :: epoch == bs[j].1
  }

  lemma NoBoundary(abs: nat)
    ensures NoneFrom([], 0, abs) && LastFrom([], abs) == None
  {
  }

  /** Searches the boundaries of a run from the newest on. */
  method FindNewest(boundaries: Boundaries, abs: nat) returns (epoch: Option<u64>)
    ensures epoch == LastFrom(boundaries, abs)
    ensures epoch.Some? ==> NewestAt(boundaries, abs, epoch.value)
    ensures epoch.None? ==> NoneFrom(boundaries, 0, abs)
  {
    var j := |boundaries|;
    assert boundaries[..j] == boundaries;
    while j > 0
      invariant 0 <= j <= |boundaries| && LastFrom(boundaries, abs) == LastFrom(boundaries[..j], abs)
      invariant NoneFrom(boundaries, j, abs)
    {
      j := j - 1;
      assert boundaries[..j + 1][..j] == boundaries[..j];
      if abs >= boundaries[j].0 {
        return Some(boundaries[j].1);
      }
    }
    epoch := None;
  }

  class EpochResolver {
    const bufferId: u32
    var runDefaultEpoch: map<u64, u64>
    var epochBoundaries: map<u64, Boundaries>
    var pendingEpoch: Option<u64>

    constructor (bufferId: u32, initialRunId: u64, initialEpochId: u64)
      ensures this.bufferId == bufferId && runDefaultEpoch == map[initialRunId := initialEpochId]
      ensures epochBoundaries == map[] && pendingEpoch == None
    {
      this.bufferId := bufferId;
      runDefaultEpoch, epochBoundaries, pendingEpoch := map[initialRunId := initialEpochId], map[], None;
    }

    /** What the resolver knows after observing records `from..n` of a marked log. */
    ghost predicate Knows(log: seq<Record>, starts: seq<nat>, epochs: seq<u64>, run0: u64, epoch0: u64, from: nat,
                          n: nat)
      reads this
    {
      && Marked(log, epochs, run0, epoch0) && |starts| == |log| == |epochs| && Increasing(starts) && from <= n <= |log|
      && Learned(epochBoundaries, log, starts, epochs, from, n)
      && (n == from ==> pendingEpoch == None)
      && (n > from && Changed(log[n - 1]) ==> pendingEpoch == DefinitionChangedEpoch(log[n - 1]))
      && (from == 0 ==> run0 in runDefaultEpoch && runDefaultEpoch[run0] == epoch0)
    }

    /** Feeds one record. A resolver that knows a log up to `n` and observes record `n` knows it up to `n + 1`. */
    method Observe(bufferId: u32, read: ReadRecord, ghost log: seq<Record>, ghost starts: seq<nat>,
                   ghost epochs: seq<u64>, ghost run0: u64, ghost epoch0: u64, ghost from: nat, ghost n: nat)
      modifies this
      ensures bufferId != this.bufferId || Ordinary(read.record) || Stopped(read.record)
              ==> runDefaultEpoch == old(runDefaultEpoch) && epochBoundaries == old(epochBoundaries)
                  && pendingEpoch == old(pendingEpoch)
      ensures bufferId == this.bufferId && Changed(read.record)
              ==> runDefaultEpoch == old(runDefaultEpoch) && epochBoundaries == old(epochBoundaries)
                  && pendingEpoch == DefinitionChangedEpoch(read.record)
      ensures bufferId == this.bufferId && Started(read.record) ==> pendingEpoch == None
      ensures bufferId == this.bufferId && Started(read.record) && old(pendingEpoch).None?
              ==> runDefaultEpoch == old(runDefaultEpoch) && epochBoundaries == old(epochBoundaries)
      ensures bufferId == this.bufferId && Started(read.record) && old(pendingEpoch).Some?
              ==> runDefaultEpoch == if ColdStart(read.record.slots) == Some(true)
                                     then old(runDefaultEpoch)[read.record.runId := old(pendingEpoch).value]
                                     else old(runDefaultEpoch)
      ensures bufferId == this.bufferId && Started(read.record) && old(pendingEpoch).Some?
              ==> Learns(old(epochBoundaries), epochBoundaries, read.record.runId,
                         (read.startAbs, old(pendingEpoch).value), ColdStart(read.record.slots) == Some(true))
      ensures bufferId == this.bufferId && old(Knows(log, starts, epochs, run0, epoch0, from, n)) && n < |log|
              && SameContent(read.record, log[n]) && read.startAbs == starts[n]
              ==> Knows(log, starts, epochs, run0, epoch0, from, n + 1)
    {
      hide Marked, Learned, DefinitionChangedEpoch, ColdStart, Pushed, AllSorted, Increasing, Learns;
      if bufferId != this.bufferId {
        return;
      }
      ghost var known := Knows(log, starts, epochs, run0, epoch0, from, n) && n < |log|
                         && SameContent(read.record, log[n]) && read.startAbs == starts[n];
      if known {
        ObserveTurn(log, epochs, run0, epoch0, from, n, read.record);
        if Started(log[n]) && n > from {
          LearnStep(epochBoundaries, log, starts, epochs, from, n);
        } else {
          LearnNothing(epochBoundaries, log, starts, epochs, from, n);
        }
      }
      var record := read.record;
      if record.eventTypeId == EVENT_DEFINITION_CHANGED {
        pendingEpoch := DefinitionChangedEpoch(record);
        return;
      }
      if record.eventTypeId == EVENT_LOGGER_STARTED && pendingEpoch.Some? {
        var pending := pendingEpoch.value;
        pendingEpoch := None;
        LearnsOne(epochBoundaries, record.runId, (read.startAbs, pending));
        epochBoundaries := Pushed(epochBoundaries, record.runId, (read.startAbs, pending));
        if ColdStart(record.slots) == Some(true) {
          runDefaultEpoch := runDefaultEpoch[record.runId := pending];
          return;
        }
        epochBoundaries := AllSorted(epochBoundaries);
      }
    }

    /** The epoch for a record of `run` at `startAbs`: that of the newest boundary at or below it, else the default of
    the run. It is the one in force when that record was written, if the log
    was observed from its beginning by a resolver seeded with the initial run and epoch, or if a complete transition
    of that run was observed before the record. */
    method Resolve(bufferId: u32, run: u64, startAbs: nat, ghost log: seq<Record>, ghost starts: seq<nat>,
                   ghost epochs: seq<u64>, ghost run0: u64, ghost epoch0: u64, ghost from: nat,
                   ghost n: nat, ghost i: nat)
      returns (epoch: Option<u64>)
      ensures bufferId != this.bufferId ==> epoch == None
      ensures bufferId == this.bufferId ==>
                var bs := BoundariesOf(epochBoundaries, run);
                || (epoch.Some? && NewestAt(bs, startAbs, epoch.value))
                || (NoneFrom(bs, 0, startAbs)
                    && epoch == if run in runDefaultEpoch then Some(runDefaultEpoch[run]) else None)
      ensures bufferId == this.bufferId && Knows(log, starts, epochs, run0, epoch0, from, n) && i < n
              && log[i].runId == run && starts[i] == startAbs && (from == 0 || PairSeen(log, from, i, run))
              ==> epoch == Some(epochs[i])
    {
      hide Marked, Bounds, PairSeen, Increasing, LastFrom, NewestAt, NoneFrom;
      if bufferId != this.bufferId {
        return None;
      }
      ghost var known := Knows(log, starts, epochs, run0, epoch0, from, n) && i < n
                         && log[i].runId == run && starts[i] == startAbs;
      if known {
        LaterIgnored(log, starts, epochs, from, n, i, run);
        NewestBoundary(log, starts, epochs, run0, epoch0, from, i);
      }
      if run in epochBoundaries {
        var found := FindNewest(epochBoundaries[run], startAbs);
        if found.Some? {
          return found;
        }
      } else {
        NoBoundary(startAbs);
      }
      epoch := if run in runDefaultEpoch then Some(runDefaultEpoch[run]) else None;
    }
  }

  /** The same record up to its flags and time. */
  predicate SameContent(a: Record, b: Record) {
    a.runId == b.runId && a.eventTypeId == b.eventTypeId && a.slots == b.slots
  }

  /** What observing record `n` should teach. */
  lemma ObserveTurn(log: seq<Record>, epochs: seq<u64>, run0: u64, epoch0: u64, from: nat, n: nat, r: Record)
    requires Marked(log, epochs, run0, epoch0) && from <= n < |log| == |epochs| && SameContent(r, log[n])
    ensures DefinitionChangedEpoch(r) == DefinitionChangedEpoch(log[n])
    ensures Started(r) ==> n > 0 && (ColdStart(r.slots) == Some(true) ==> r.runId > run0)
    ensures Started(r) && n > from ==> Changed(log[n - 1]) && DefinitionChangedEpoch(log[n - 1]) == Some(epochs[n])
  {
    assert MarkAt(log, epochs, run0, epoch0, n);
    if Started(r) {
      if n > from {
        AnnouncedEpoch(log[n - 1], RunBefore(log, run0, n), epochs[n]);
      }
      RestartFlag(log[n], RunBefore(log, run0, n));
      RunsGrow(log, epochs, run0, epoch0, n - 1);
    }
  }

  lemma {:induction false} RunsGrow(log: seq<Record>, epochs: seq<u64>, run0: u64, epoch0: u64, i: nat)
    requires Marked(log, epochs, run0, epoch0) && i < |log|
    ensures run0 <= log[i].runId
    decreases i
  {
    assert MarkAt(log, epochs, run0, epoch0, i);
    if i == 0 {
    } else {
      RunsGrow(log, epochs, run0, epoch0, i - 1);
    }
  }
}
