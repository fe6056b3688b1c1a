/** What the log of an epoch producer looks like: gap-free sequences and bracketed transitions. */
module EpochLog {
  import opened Bytes
  import opened Wire
  import opened Registry
  import opened Accounting

  // ---- Kinds of records --------------------------------------------------------------

  predicate Stopped(r: Record) {
    r.eventTypeId == EVENT_LOGGER_STOPPED
  }

  predicate Changed(r: Record) {
    r.eventTypeId == EVENT_DEFINITION_CHANGED
  }

  predicate Started(r: Record) {
    r.eventTypeId == EVENT_LOGGER_STARTED
  }

  predicate Ordinary(r: Record) {
    !Stopped(r) && !Changed(r) && !Started(r)
  }

  /** A source checkpoint whose payload is its own sequence number. */
  predicate Checkpoint(r: Record, run: u64, source: u32) {
    && r.eventTypeId == EVENT_SOURCE_HIGH_WATER && StreamOf(r) == Stream(run, source)
    && r.slots == [Slot(KEY_SOURCE_HIGH_WATER, TY_ULINT, ToLe(r.seqNo, 8))]
  }

  /** The `DefinitionChanged` record that announces `epoch`. */
  predicate Announces(r: Record, run: u64, epoch: u64) {
    && Changed(r) && StreamOf(r) == Stream(run, SYSTEM_SOURCE_ID)
    && |r.slots| == 3 && r.slots[0].key == KEY_DEF_HASH_OLD && r.slots[1].key == KEY_DEF_HASH_NEW
    && r.slots[2] == Slot(KEY_EPOCH_ID, TY_ULINT, ToLe(epoch, 8))
  }

  /** The only slot of the record with this key carries this payload. */
  predicate Carries(r: Record, key: u16, payload: seq<byte>) {
    exists i | 0 <= i < |r.slots| ::
      r.slots[i].key == key && r.slots[i].payload == payload
      && forall j | 0 <= j < |r.slots| && j != i :: r.slots[j].key != key
  }

  /** The `LoggerStarted` record that ends a transition of run `run`: warm in the same run, cold in the next. */
  predicate Restarts(r: Record, run: u64) {
    && Started(r) && r.sourceId == SYSTEM_SOURCE_ID && |r.slots| == 1
    && ((r.runId == run && r.slots[0] == Slot(KEY_COLD_START, TY_BOOL, [0]))
        || (r.runId == run + 1 && r.slots[0] == Slot(KEY_COLD_START, TY_BOOL, [1])))
  }

  // ---- Sequence numbers -----------------------------------------------------------------

  /** How many records of stream `k` the log holds. */
  function Count(log: seq<Record>, k: Stream): nat {
    if log == [] then 0
    else Count(log[..|log| - 1], k) + if StreamOf(log[|log| - 1]) == k then 1 else 0
  }

  lemma CountStep(log: seq<Record>, r: Record, k: Stream)
    ensures Count(log + [r], k) == Count(log, k) + if StreamOf(r) == k then 1 else 0
  {
    assert (log + [r])[..|log|] == log;
  }

  /** Every record carries the number of its predecessors in its stream: 0, 1, 2, … without gaps. */
  predicate GapFree(log: seq<Record>) {
    forall i | 0 <= i < |log| :: log[i].seqNo == Count(log[..i], StreamOf(log[i]))
  }

  /** The data sources of run `run` that have written. */
  function Active(log: seq<Record>, run: u64): set<u32> {
    if log == [] then {}
    else
      var r := log[|log| - 1];
      Active(log[..|log| - 1], run) + if r.runId == run && r.sourceId != SYSTEM_SOURCE_ID then {r.sourceId} else {}
  }

  lemma ActiveStep(log: seq<Record>, r: Record, run: u64)
    ensures Active(log + [r], run)
            == Active(log, run) + if r.runId == run && r.sourceId != SYSTEM_SOURCE_ID then {r.sourceId} else {}
  {
    assert (log + [r])[..|log|] == log;
  }

  /** The producer's counters continue the log. */
  ghost predicate Counters(log: seq<Record>, run: nat, systemSeq: nat, sourceSeq: map<u32, nat>) {
    && run <= 0xFFFF_FFFF_FFFF_FFFF
    && (forall i | 0 <= i < |log| :: log[i].runId <= run)
    && systemSeq == Count(log, Stream(run, SYSTEM_SOURCE_ID))
    && sourceSeq.Keys == Active(log, run)
    && (forall s: u32 | s != SYSTEM_SOURCE_ID ::
          (if s in sourceSeq then sourceSeq[s] else 0) == Count(log, Stream(run, s)))
  }

  /** A data record or checkpoint takes the next number of its source. */
  lemma SourceStep(log: seq<Record>, run: nat, systemSeq: nat, sourceSeq: map<u32, nat>, r: Record)
    requires GapFree(log) && Counters(log, run, systemSeq, sourceSeq)
    requires r.runId == run && r.sourceId != SYSTEM_SOURCE_ID
    requires r.seqNo == if r.sourceId in sourceSeq then sourceSeq[r.sourceId] else 0
    ensures GapFree(log + [r]) && Counters(log + [r], run, systemSeq, sourceSeq[r.sourceId := r.seqNo + 1])
  {
    hide Count, Active;
    GapFreeStep(log, r);
    ActiveStep(log, r, run);
    CountStep(log, r, Stream(run, SYSTEM_SOURCE_ID));
    forall s: u32
      ensures Count(log + [r], Stream(run, s)) == Count(log, Stream(run, s)) + if s == r.sourceId then 1 else 0
    {
      CountStep(log, r, Stream(run, s));
    }
  }

  lemma SystemStep(log: seq<Record>, run: nat, systemSeq: nat, sourceSeq: map<u32, nat>, r: Record)
    requires GapFree(log) && Counters(log, run, systemSeq, sourceSeq)
    requires r.runId == run && r.sourceId == SYSTEM_SOURCE_ID && r.seqNo == systemSeq
    ensures GapFree(log + [r]) && Counters(log + [r], run, systemSeq + 1, sourceSeq)
  {
    hide Count, Active;
    GapFreeStep(log, r);
    ActiveStep(log, r, run);
    forall s: u32
      ensures Count(log + [r], Stream(run, s)) == Count(log, Stream(run, s)) + if s == SYSTEM_SOURCE_ID then 1 else 0
    {
      CountStep(log, r, Stream(run, s));
    }
  }

  lemma GapFreeStep(log: seq<Record>, r: Record)
    requires GapFree(log) && r.seqNo == Count(log, StreamOf(r))
    ensures GapFree(log + [r])
  {
    var after := log + [r];
    forall i | 0 <= i < |after|
      ensures after[i].seqNo == Count(after[..i], StreamOf(after[i]))
    {
      assert after[..i] == log[..i];
      assert i == |log| ==> log[..i] == log;
    }
  }

  /** Nothing has been written yet in a run above all others. */
  lemma {:induction false} NewRun(log: seq<Record>, run: u64)
    requires forall i | 0 <= i < |log| :: log[i].runId < run
    ensures Active(log, run) == {} && forall s: u32 :: Count(log, Stream(run, s)) == 0
  {
    if log == [] {
    } else {
      NewRun(log[..|log| - 1], run);
    }
  }

  /** A cold start: counters restart under the next run. */
  lemma ColdCounters(log: seq<Record>, run: nat, systemSeq: nat, sourceSeq: map<u32, nat>)
    requires Counters(log, run, systemSeq, sourceSeq) && run < 0xFFFF_FFFF_FFFF_FFFF
    ensures Counters(log, run + 1, 0, map[])
  {
    hide Count, Active;
    NewRun(log, run + 1);
  }

  // ---- Transitions ----------------------------------------------------------------------------

  ghost function Least(s: set<u32>): (x: u32)
    requires s != {}
    ensures x in s && forall y | y in s :: x <= y
  {
    LeastExists(s);
    var x :| x in s && forall y | y in s :: x <= y;
    x
  }

  /** The elements of a set in ascending order. */
  ghost function Ascending(s: set<u32>): seq<u32> {
    if s == {} then [] else [Least(s)] + Ascending(s - {Least(s)})
  }

  /** Every element once, in strictly ascending order. */
  lemma {:induction false} AscendingList(s: set<u32>)
    ensures |Ascending(s)| == |s| && forall x :: x in Ascending(s) <==> x in s
    ensures forall i, j | 0 <= i < j < |Ascending(s)| :: Ascending(s)[i] < Ascending(s)[j]
  {
    hide Ascending;
    if s == {} {
      AscendingNone(s);
    } else {
      var least, rest := Least(s), s - {Least(s)};
      AscendingList(rest);
      AscendingFirst(s);
      var tail := Ascending(rest);
      forall x
        ensures x in [least] + tail <==> x in s
      {
        assert x in [least] + tail <==> x == least || x in tail;
      }
      LeastInFront(least, tail, rest);
    }
  }

  lemma AscendingNone(s: set<u32>)
    requires s == {}
    ensures Ascending(s) == []
  {
  }

  lemma AscendingFirst(s: set<u32>)
    requires s != {}
    ensures Ascending(s) == [Least(s)] + Ascending(s - {Least(s)}) && |s| == |s - {Least(s)}| + 1
    ensures forall x | x in s - {Least(s)} :: Least(s) < x
  {
  }

  lemma LeastInFront(least: u32, tail: seq<u32>, rest: set<u32>)
    requires (forall x | x in rest :: least < x) && forall x :: x in tail <==> x in rest
    requires forall i, j | 0 <= i < j < |tail| :: tail[i] < tail[j]
    ensures forall i, j | 0 <= i < j < |[least] + tail| :: ([least] + tail)[i] < ([least] + tail)[j]
  {
    var all := [least] + tail;
    forall i, j | 0 <= i < j < |all|
      ensures all[i] < all[j]
    {
      assert all[j] == tail[j - 1] && tail[j - 1] in tail;
    }
  }

  /** The sources a transition starting at `p` has to checkpoint, in order. */
  ghost function Due(log: seq<Record>, p: nat): seq<u32>
    requires p < |log|
  {
    Ascending(Active(log[..p], log[p].runId))
  }

  /** Record `r` is what comes `d` places after the `LoggerStopped` of run `run`. */
  ghost predicate Follows(due: seq<u32>, run: u64, d: int, r: Record) {
    if 0 <= d < |due| then Checkpoint(r, run, due[d])
    else if d == |due| then exists epoch :: Announces(r, run, epoch)
    else Restarts(r, run)
  }

  /** The transition that starts at `p`, as far as the log goes: one checkpoint per active source in ascending order,
  `DefinitionChanged`, `LoggerStarted`, and nothing in between. */
  ghost predicate Bracket(log: seq<Record>, p: nat)
    requires p < |log|
  {
    && log[p].sourceId == SYSTEM_SOURCE_ID && log[p].slots == []
    && forall j | p < j < |log| && j <= p + |Due(log, p)| + 2 :: Follows(Due(log, p), log[p].runId, j - p - 1, log[j])
  }

  /** The lifecycle record at `j` is in its place after the `LoggerStopped` at `p`. */
  ghost predicate Placed(log: seq<Record>, p: nat, j: nat)
    requires p < j < |log|
  {
    && Stopped(log[p])
    && (Changed(log[j]) ==> j == p + |Due(log, p)| + 1)
    && (Started(log[j]) ==> j == p + |Due(log, p)| + 2)
  }

  ghost predicate Within(log: seq<Record>, j: nat)
    requires j < |log|
  {
    exists p: nat | p < j :: Placed(log, p, j)
  }

  /** Every transition is bracketed, complete except for the open one, whose `LoggerStopped` is at `open` and which has
  come `d` records further; there are no lifecycle records anywhere else. */
  ghost predicate Grammar(log: seq<Record>, open: Option<nat>, d: nat) {
    && (forall p | 0 <= p < |log| && Stopped(log[p]) ::
          Bracket(log, p) && (open == Some(p) || p + |Due(log, p)| + 3 <= |log|))
    && (open.Some? ==>
          open.value < |log| && Stopped(log[open.value]) && |log| == open.value + 1 + d
              && d <= |Due(log, open.value)| + 1)
    && (forall j | 0 <= j < |log| && (Changed(log[j]) || Started(log[j])) :: Within(log, j))
  }

  lemma DueStays(log: seq<Record>, r: Record, p: nat)
    requires p < |log|
    ensures Due(log + [r], p) == Due(log, p)
  {
    assert (log + [r])[..p] == log[..p];
  }

  /** An older bracket stays as it is, if it is complete or `r` continues it. */
  lemma BracketStays(log: seq<Record>, r: Record, p: nat)
    requires p < |log| && Bracket(log, p)
    requires p + |Due(log, p)| + 3 <= |log| || Follows(Due(log, p), log[p].runId, |log| - p - 1, r)
    ensures Bracket(log + [r], p)
  {
    hide Due, Follows;
    DueStays(log, r, p);
  }

  lemma WithinStays(log: seq<Record>, r: Record, j: nat)
    requires j < |log| && Within(log, j)
    ensures Within(log + [r], j)
  {
    hide Due;
    var p: nat :| p < j && Placed(log, p, j);
    DueStays(log, r, p);
    assert Placed(log + [r], p, j);
  }

  lemma OthersStay(log: seq<Record>, r: Record, open: Option<nat>, d: nat)
    requires Grammar(log, open, d)
    requires open.Some? ==> Follows(Due(log, open.value), log[open.value].runId, d, r)
    ensures forall p | 0 <= p < |log| && Stopped((log + [r])[p]) ::
              Bracket(log + [r], p) && (open == Some(p) || p + |Due(log + [r], p)| + 3 <= |log|)
    ensures forall j | 0 <= j < |log| && (Changed((log + [r])[j]) || Started((log + [r])[j])) :: Within(log + [r], j)
  {
    hide Due, Follows, Bracket, Within;
    forall p | 0 <= p < |log| && Stopped((log + [r])[p])
      ensures Bracket(log + [r], p) && (open == Some(p) || p + |Due(log + [r], p)| + 3 <= |log|)
    {
      DueStays(log, r, p);
      BracketStays(log, r, p);
    }
    forall j | 0 <= j < |log| && (Changed((log + [r])[j]) || Started((log + [r])[j]))
      ensures Within(log + [r], j)
    {
      WithinStays(log, r, j);
    }
  }

  /** Outside a transition anything but a lifecycle record may come. */
  lemma OrdinaryStep(log: seq<Record>, r: Record)
    requires Grammar(log, None, 0) && Ordinary(r)
    ensures Grammar(log + [r], None, 0)
  {
    hide Due, Bracket, Within;
    OthersStay(log, r, None, 0);
  }

  /** A transition opens with `LoggerStopped`. */
  lemma StopStep(log: seq<Record>, r: Record)
    requires Grammar(log, None, 0) && Stopped(r) && r.sourceId == SYSTEM_SOURCE_ID && r.slots == []
    ensures Grammar(log + [r], Some(|log|), 0)
  {
    hide Due, Within;
    OthersStay(log, r, None, 0);
    assert Bracket(log + [r], |log|);
  }

  /** Within a transition only the record that is due may come; the `LoggerStarted` closes it. */
  lemma FollowStep(log: seq<Record>, r: Record, open: nat, d: nat)
    requires Grammar(log, Some(open), d) && Follows(Due(log, open), log[open].runId, d, r)
    ensures if d == |Due(log, open)| + 1 then Grammar(log + [r], None, 0) else Grammar(log + [r], Some(open), d + 1)
  {
    hide Due, Bracket;
    OthersStay(log, r, Some(open), d);
    DueStays(log, r, open);
    if Changed(r) || Started(r) {
      assert Placed(log + [r], open, |log|);
    }
  }
}
