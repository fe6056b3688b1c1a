/** The epoch producer: sequence assignment and the transition state machine over a ring. */
module Epoch {
  import opened Bytes
  import opened Wire
  import opened Registry
  import opened Layout
  import opened Reads
  import opened Ring
  import opened Control
  import opened EpochLog
  import opened EpochResolution
  import opened EpochSteps

  datatype EpochError =
    | DefinitionAlreadyEmitted
    | DefinitionNotEmitted
    | EmissionDuringTransition
    | NoTransitionOpen
    | RingFailed(error: RingError)
    | TransitionAlreadyOpen

  const START_TIME: nat := 1_780_000_000_000_000_000

  /** The records of a write history. */
  function RecordsOf(h: seq<Entry>): seq<Record> {
    seq(|h|, i requires 0 <= i < |h| => h[i].record)
  }

  /** Only more has been written. */
  predicate Extends(h: seq<Entry>, h': seq<Entry>) {
    |h| <= |h'| && h'[..|h|] == h
  }

  lemma ExtendsBy(h: seq<Entry>, e: Entry)
    ensures Extends(h, h) && Extends(h, h + [e])
  {
  }

  lemma ExtendsOn(h: seq<Entry>, h': seq<Entry>, h'': seq<Entry>)
    requires Extends(h, h') && Extends(h', h'')
    ensures Extends(h, h'')
  {
    assert h == h'[..|h|] == h''[..|h'|][..|h|];
  }

  /** Record `j` is the last `LoggerStarted`. */
  predicate LastRestart(log: seq<Record>, j: nat) {
    j < |log| && Started(log[j]) && forall i | j < i < |log| :: !Started(log[i])
  }

  /** The definition hashes and the first offset of the epoch are those of the last completed transition: what its
  announcement carries, and where its `LoggerStarted` lies. Before the first they are empty. */
  ghost predicate InForce(h: seq<Entry>, prev: Hash, current: Hash, first: nat) {
    var log := RecordsOf(h);
    && (forall j: nat | LastRestart(log, j) ::
          && j > 0 && first == h[j].start && Carries(log[j - 1], KEY_DEF_HASH_OLD, prev)
          && Carries(log[j - 1], KEY_DEF_HASH_NEW, current))
    && ((forall i | 0 <= i < |log| :: !Started(log[i])) ==> prev == NO_HASH && current == NO_HASH && first == 0)
  }

  /** Other records leave the definition in force. */
  lemma InForceStays(h: seq<Entry>, h': seq<Entry>, prev: Hash, current: Hash, first: nat)
    requires InForce(h, prev, current, first) && Extends(h, h')
    requires forall i | |h| <= i < |h'| :: !Started(h'[i].record)
    ensures InForce(h', prev, current, first)
  {
    hide Carries;
    var log, log' := RecordsOf(h), RecordsOf(h');
    assert forall i | 0 <= i < |h| :: h'[i] == h[i] && log'[i] == log[i];
    forall j: nat | LastRestart(log', j)
      ensures LastRestart(log, j)
    {
    }
    if forall i | 0 <= i < |log'| :: !Started(log'[i]) {
      assert forall i | 0 <= i < |log| :: !Started(log[i]);
    }
  }

  /** One more record that is not a `LoggerStarted`, or none. */
  lemma InForceAfter(h: seq<Entry>, h': seq<Entry>, r: Record, prev: Hash, current: Hash, first: nat)
    requires InForce(h, prev, current, first) && Extends(h, h') && r.eventTypeId != EVENT_LOGGER_STARTED
    requires RecordsOf(h') == RecordsOf(h) || RecordsOf(h') == RecordsOf(h) + [r]
    ensures InForce(h', prev, current, first)
  {
    hide InForce;
    forall i | |h| <= i < |h'|
      ensures !Started(h'[i].record)
    {
      assert RecordsOf(h')[i] == h'[i].record;
    }
    InForceStays(h, h', prev, current, first);
  }

  /** Checkpoints leave the definition in force. */
  lemma InForceCheckpoints(h: seq<Entry>, h': seq<Entry>, before: Ledger, l: Ledger, prev: Hash, current: Hash,
                           first: nat)
    requires InForce(h, prev, current, first) && Extends(h, h') && before.log == RecordsOf(h) && l.log == RecordsOf(h')
    requires Progress(before, l, |Ascending(before.sourceSeq.Keys)|)
    ensures InForce(h', prev, current, first)
  {
    hide InForce, Ascending, Due;
    forall i | |h| <= i < |h'|
      ensures !Started(h'[i].record)
    {
      var j := i - |h|;
      assert Checkpoint(l.log[|before.log| + j], l.run, Ascending(before.sourceSeq.Keys)[j]);
      assert h'[i].record == l.log[|before.log| + j];
    }
    InForceStays(h, h', prev, current, first);
  }

  /** So does a `LoggerStopped` with its checkpoints. */
  lemma InForceStopped(h: seq<Entry>, h': seq<Entry>, r: Record, h'': seq<Entry>, before: Ledger, l: Ledger, prev: Hash,
                       current: Hash, first: nat)
    requires InForce(h, prev, current, first) && Extends(h, h') && Extends(h', h'')
    requires r.eventTypeId == EVENT_LOGGER_STOPPED && RecordsOf(h') == RecordsOf(h) + [r]
    requires before.log == RecordsOf(h') && l.log == RecordsOf(h'')
    requires Progress(before, l, |Ascending(before.sourceSeq.Keys)|)
    ensures InForce(h'', prev, current, first)
  {
    hide InForce, RecordsOf, Progress, Extends, Ascending;
    InForceAfter(h, h', r, prev, current, first);
    InForceCheckpoints(h', h'', before, l, prev, current, first);
  }

  /** A `LoggerStarted` puts what was announced just before it into force. */
  lemma InForceFrom(h: seq<Entry>, h': seq<Entry>, r: Record, run: u64, pending: Pending, first: nat)
    requires Extends(h, h') && RecordsOf(h') == RecordsOf(h) + [r] && Started(r) && first == h'[|h'| - 1].start
    requires RecordsOf(h) != [] && AnnouncesAll(RecordsOf(h)[|RecordsOf(h)| - 1], run, pending)
    ensures InForce(h', pending.defHashOld, pending.defHashNew, first)
  {
    hide Carries, Announces;
    var log, log' := RecordsOf(h), RecordsOf(h');
    assert log'[|log|] == r && log'[|log| - 1] == log[|log| - 1];
    assert forall j: nat | LastRestart(log', j) :: j == |log|;
  }

  function NextSeq(sourceSeq: map<u32, nat>, source: u32): nat {
    if source in sourceSeq then sourceSeq[source] else 0
  }

  /** No counter is ahead of the clock. */
  predicate Behind(sourceTime: nat, systemSeq: nat, sourceSeq: map<u32, nat>) {
    && START_TIME + systemSeq <= sourceTime <= 0xFFFF_FFFF_FFFF_FFFF
    && forall s | s in sourceSeq :: START_TIME + sourceSeq[s] <= sourceTime
  }

  /** The counters of a map in ascending order of their sources. */
  method CountersInOrder(m: map<u32, nat>) returns (list: seq<(u32, nat)>)
    ensures |list| == |Ascending(m.Keys)|
    ensures forall i | 0 <= i < |list| ::
              list[i].0 == Ascending(m.Keys)[i] && list[i].0 in m && list[i].1 == m[list[i].0]
  {
    list := [];
    var left := m.Keys;
    while left != {}
      invariant left <= m.Keys && |Ascending(m.Keys)| == |list| + |Ascending(left)|
      invariant Ascending(m.Keys)[|list|..] == Ascending(left)
      invariant forall i | 0 <= i < |list| ::
                  list[i].0 == Ascending(m.Keys)[i] && list[i].0 in m && list[i].1 == m[list[i].0]
      decreases |left|
    {
      LeastExists(left);
      var x :| x in left && forall y | y in left :: x <= y;
      assert x == Least(left);
      assert Ascending(left) == [x] + Ascending(left - {x});
      assert Ascending(m.Keys)[|list|] == Ascending(m.Keys)[|list|..][0];
      assert Ascending(m.Keys)[|list| + 1..] == Ascending(m.Keys)[|list|..][1..];
      list := list + [(x, m[x])];
      left := left - {x};
    }
  }

  class EpochProducer {
    const ring: RingBuffer
    var runId: u64
    var epochId: u64
    var epochFirstAbs: nat
    var systemSeq: nat
    var sourceSeq: map<u32, nat>
    var sourceTime: nat
    var definitionHash: Hash
    var prevDefinitionHash: Hash
    var transition: Option<Pending>
    /** The epoch in force at every record written. */
    ghost var epochs: seq<u64>
    ghost const run0: u64
    ghost const epoch0: u64
    /** No data was emitted under the system source or a lifecycle event id. */
    ghost var wellUsed: bool
    ghost var open: Option<nat>
    ghost var depth: nat

    /** Every record written so far. */
    ghost function Log(): seq<Record>
      reads this, ring
    {
      RecordsOf(ring.hist)
    }

    /** The log and the fields that continue it. */
    ghost function Now(): Ledger
      reads this, ring
    {
      Ledger(RecordsOf(ring.hist), epochs, run0, epoch0, runId, epochId, systemSeq, sourceSeq, open, depth)
    }

    /** The fields continue the log, provided that every record fits the ring (the largest takes 80 bytes) and that data
    stayed apart from lifecycle records. */
    ghost predicate Base()
      reads this, ring, ring.bytes
    {
      && ring.Valid() && Behind(sourceTime, systemSeq, sourceSeq)
      && (ring.bytes.Length >= 80 && wellUsed ==> Sound(Now()))
    }

    /** The pending transition is the open one, and the definition is that of the last completed one. */
    ghost predicate Valid()
      reads this, ring, ring.bytes
    {
      && Base()
      && (ring.bytes.Length >= 80 && wellUsed ==>
            && PhaseOf(Now(), transition)
            && InForce(ring.hist, prevDefinitionHash, definitionHash, epochFirstAbs))
    }

    lemma Opened()
      requires Valid()
      ensures Base() && ring.Valid() && Behind(sourceTime, systemSeq, sourceSeq)
      ensures ring.bytes.Length >= 80 && wellUsed ==>
                && Sound(Now()) && PhaseOf(Now(), transition)
                && InForce(ring.hist, prevDefinitionHash, definitionHash, epochFirstAbs)
      ensures Log() == RecordsOf(ring.hist)
      ensures Now() == Ledger(RecordsOf(ring.hist), epochs, run0, epoch0, runId, epochId, systemSeq, sourceSeq, open,
                              depth)
    {
      hide Sound, PhaseOf, InForce;
    }

    lemma Closed(l: Ledger)
      requires ring.Valid() && Behind(sourceTime, systemSeq, sourceSeq)
      requires ring.bytes.Length >= 80 && wellUsed ==>
                 && l == Ledger(RecordsOf(ring.hist), epochs, run0, epoch0, runId, epochId, systemSeq, sourceSeq,
                                open, depth)
                 && Sound(l) && PhaseOf(l, transition)
                 && InForce(ring.hist, prevDefinitionHash, definitionHash, epochFirstAbs)
      ensures Valid() && Log() == RecordsOf(ring.hist)
    {
      hide Sound, PhaseOf, InForce;
    }

    constructor (capacity: nat, runId: u64, epochId: u64)
      requires capacity > 0
      ensures Valid() && fresh(ring) && fresh(ring.bytes) && ring.bytes.Length == capacity && wellUsed
      ensures run0 == this.runId == runId && epoch0 == this.epochId == epochId && transition == None && ring.hist == []
      ensures sourceTime == 1_780_000_000_000_000_000 && systemSeq == 0 && sourceSeq == map[]
      ensures definitionHash == NO_HASH && prevDefinitionHash == NO_HASH && epochFirstAbs == 0
    {
      hide *;
      ring := new RingBuffer(capacity);
      this.runId, this.epochId, epochFirstAbs, systemSeq, sourceSeq := runId, epochId, 0, 0, map[];
      sourceTime, definitionHash, prevDefinitionHash := START_TIME, NO_HASH, NO_HASH;
      transition, epochs, run0, epoch0, wellUsed, open, depth := None, [], runId, epochId, true, None, 0;
      new;
      StartsValid();
      StartTime();
    }

    lemma StartsValid()
      requires ring.Valid() && ring.hist == [] && runId == run0 && epochId == epoch0 && systemSeq == 0
               && sourceSeq == map[]
      requires sourceTime == START_TIME && transition == None && epochs == [] && open == None && depth == 0
      requires definitionHash == NO_HASH && prevDefinitionHash == NO_HASH && epochFirstAbs == 0
      ensures Valid()
    {
      hide Sound, PhaseOf, RingBuffer.Valid, RecordsOf, InForce;
      SoundEmpty(ring.hist, runId, epochId);
      NothingInForce(ring.hist);
    }

    /** Writes a record of the producer; it fails exactly when it is longer than the ring. */
    method Write(r: Record, ghost size: nat) returns (res: Result<(nat, nat), EpochError>)
      requires ring.Valid() && Encodable(r, true) && TotalLen(r.slots, true) == size
      modifies ring, ring.bytes
      ensures ring.Valid() && ring.bytes == old(ring.bytes)
      ensures res.Ok? <==> size <= ring.bytes.Length
      ensures res.Err? ==> ring.hist == old(ring.hist)
      ensures res.Ok? ==> RecordsOf(ring.hist) == RecordsOf(old(ring.hist)) + [r]
                          && ring.hist != [] && res.value.0 == ring.hist[|ring.hist| - 1].start
      ensures Extends(old(ring.hist), ring.hist)
    {
      hide Encodable, Encoding, RingBuffer.Valid, TotalLen, RecordsOf;
      LiveWindowOf(ring);
      var written := ring.WriteRecord(r);
      match written
      case Err(error) =>
        res := Err(RingFailed(error));
      case Ok(span) =>
        WriteEffect(ring.bytes.Length, old(ring.hist), ring.hist, r);
        res := Ok(span);
    }

    method MakeRecord(source: u32, seqNo: nat, event: u32, slots: seq<Slot>) returns (r: Record)
      requires seqNo <= 0xFFFF_FFFF_FFFF_FFFF && sourceTime < 0xFFFF_FFFF_FFFF_FFFF
      modifies this`sourceTime
      ensures r == Record(0, old(sourceTime), runId, seqNo, source, event, slots) && sourceTime == old(sourceTime) + 1
    {
      r := Record(0, sourceTime, runId, seqNo, source, event, slots);
      sourceTime := sourceTime + 1;
    }

    /** Emits one data record with the next sequence number of its source. The number is used up even if the ring
    refuses the record. */
    method EmitData(source: u32, event: u32) returns (res: Result<(), EpochError>)
      requires Valid() && sourceTime < 0xFFFF_FFFF_FFFF_FFFF
      modifies this`sourceSeq, this`sourceTime, this`wellUsed, this`epochs
      modifies ring, ring.bytes
      ensures Extends(old(ring.hist), ring.hist)
      ensures Valid() && ring.bytes == old(ring.bytes) && transition == old(transition) && runId == old(runId)
      ensures sourceTime <= old(sourceTime) + 1 && epochId == old(epochId)
      ensures old(transition).Some?
              ==> res == Err(EmissionDuringTransition) && ring.hist == old(ring.hist) && sourceSeq == old(sourceSeq)
                  && wellUsed == old(wellUsed)
      ensures old(transition).None?
              ==> wellUsed == (old(wellUsed) && source != SYSTEM_SOURCE_ID && OrdinaryEvent(event))
                  && sourceSeq == old(sourceSeq)[source := NextSeq(old(sourceSeq), source) + 1]
                  && (res.Ok? <==> (if event == EVENT_MESSAGE then 52 else 44) <= ring.bytes.Length)
      ensures res.Err? ==> ring.hist == old(ring.hist)
      ensures res.Ok? ==> exists r :: Log() == old(Log()) + [r] && Datum(r, old(sourceTime), runId, source, event)
                                      && r.seqNo == NextSeq(old(sourceSeq), source)
    {
      hide *;
      Opened();
      ExtendsBy(ring.hist, NO_ENTRY);
      if transition.Some? {
        return Err(EmissionDuringTransition);
      }
      ghost var l := Now();
      DataTurn(sourceTime, runId, systemSeq, sourceSeq, source, event);
      var seqNo := NextSeq(sourceSeq, source);
      sourceSeq := sourceSeq[source := seqNo + 1];
      var record := MakeRecord(source, seqNo, event, DataSlots(event));
      DatumMade(record, old(sourceTime), runId, source, event);
      wellUsed := wellUsed && source != SYSTEM_SOURCE_ID && OrdinaryEvent(event);
      var written := Write(record, if event == EVENT_MESSAGE then 52 else 44);
      if ring.bytes.Length >= 80 && wellUsed {
        l := SoundData(l, record);
        epochs := epochs + [epochId];
        NotStarted(event);
        InForceAfter(old(ring.hist), ring.hist, record, prevDefinitionHash, definitionHash, epochFirstAbs);
      }
      Closed(l);
      match written
      case Err(error) =>
        res := Err(error);
      case Ok(_) =>
        res := Ok(());
    }

    /** Emits a record of the system source with the next system sequence number. */
    method EmitSystem(event: u32, slots: seq<Slot>, ghost size: nat)
      returns (res: Result<(nat, nat), EpochError>, ghost r: Record)
      requires ring.Valid() && Behind(sourceTime, systemSeq, sourceSeq) && sourceTime < 0xFFFF_FFFF_FFFF_FFFF
      requires SlotsFit(slots) && TotalLen(slots, true) == size <= 80
      modifies this`systemSeq, this`sourceTime, ring, ring.bytes
      ensures ring.Valid() && ring.bytes == old(ring.bytes) && Behind(sourceTime, systemSeq, sourceSeq)
      ensures systemSeq == old(systemSeq) + 1 && sourceTime == old(sourceTime) + 1
      ensures old(systemSeq) <= 0xFFFF_FFFF_FFFF_FFFF
              && r == Record(0, old(sourceTime), runId, old(systemSeq), SYSTEM_SOURCE_ID, event, slots)
      ensures res.Ok? <==> size <= ring.bytes.Length
      ensures res.Err? ==> ring.hist == old(ring.hist)
      ensures res.Ok? ==> RecordsOf(ring.hist) == RecordsOf(old(ring.hist)) + [r]
                          && ring.hist != [] && res.value.0 == ring.hist[|ring.hist| - 1].start
      ensures Extends(old(ring.hist), ring.hist)
    {
      hide RingBuffer.Valid, RecordsOf, TotalLen, SlotsFit, Extends;
      var seqNo := systemSeq;
      systemSeq := systemSeq + 1;
      var record := MakeRecord(SYSTEM_SOURCE_ID, seqNo, event, slots);
      r := record;
      res := Write(record, size);
    }

    /** One checkpoint per source with a counter, in ascending order, each under the source's own next number. */
    method CheckpointAll() returns (res: Result<(), EpochError>)
      requires Base() && sourceTime + |sourceSeq| <= 0xFFFF_FFFF_FFFF_FFFF
      requires ring.bytes.Length >= 80 && wellUsed ==> Awaits(Now())
      modifies this`sourceSeq, this`sourceTime, this`epochs, this`depth, ring, ring.bytes
      ensures Base() && ring.bytes == old(ring.bytes) && Extends(old(ring.hist), ring.hist)
      ensures res.Ok? <==> ring.bytes.Length >= 56 || old(sourceSeq) == map[]
      ensures res.Ok? ==> Checkpointed(RecordsOf(old(ring.hist)), RecordsOf(ring.hist), runId, old(sourceSeq),
                                       sourceSeq, |Ascending(old(sourceSeq).Keys)|)
      ensures res.Err? ==> ring.hist == old(ring.hist) && sourceSeq == old(sourceSeq)
      ensures ring.bytes.Length >= 80 && wellUsed ==> Progress(old(Now()), Now(), |Ascending(old(sourceSeq).Keys)|)
    {
      hide *;
      ghost var log0, counters := RecordsOf(ring.hist), sourceSeq;
      CheckpointedStart(log0, runId, sourceSeq);
      OpenedBase();
      ghost var before, l := Now(), Now();
      if ring.bytes.Length >= 80 && wellUsed {
        ProgressStart(l);
      }
      CountersSize(sourceSeq);
      ExtendsBy(ring.hist, NO_ENTRY);
      var highWater := CountersInOrder(sourceSeq);
      for i := 0 to |highWater|
        invariant ring.Valid() && ring.bytes == old(ring.bytes) && Behind(sourceTime, systemSeq, sourceSeq)
        invariant sourceTime == old(sourceTime) + i && Extends(old(ring.hist), ring.hist)
        invariant Checkpointed(log0, RecordsOf(ring.hist), runId, counters, sourceSeq, i)
        invariant i == 0 ==> ring.hist == old(ring.hist) && sourceSeq == counters
        invariant i > 0 ==> ring.bytes.Length >= 56
        invariant ring.bytes.Length >= 80 && wellUsed ==>
                    && l == Ledger(RecordsOf(ring.hist), epochs, run0, epoch0, runId, epochId, systemSeq, sourceSeq,
                                   open, depth)
                    && Sound(l) && Progress(before, l, i)
      {
        ghost var h := ring.hist;
        var source, produced := highWater[i].0, highWater[i].1;
        CheckpointFits(old(sourceTime), sourceTime, systemSeq, counters, sourceSeq, source, produced);
        var record := MakeRecord(source, produced, EVENT_SOURCE_HIGH_WATER, CheckpointSlots(produced));
        CheckpointSize(record);
        var written := Write(record, 56);
        ExtendsOn(old(ring.hist), h, ring.hist);
        match written
        case Err(error) =>
          ClosedBase(l);
          return Err(error);
        case Ok(_) =>
          CheckpointedTurn(log0, RecordsOf(h), runId, counters, sourceSeq, i, record);
          sourceSeq := sourceSeq[source := produced + 1];
          if ring.bytes.Length >= 80 && wellUsed {
            l := CheckpointTurn(before, l, i, record);
            epochs, depth := l.epochs, l.depth;
          }
      }
      ClosedBase(l);
      res := Ok(());
    }

    /** Emits a checkpoint for every active source; refused during a transition. */
    method CheckpointHighWater() returns (res: Result<(), EpochError>)
      requires Valid() && sourceTime + |sourceSeq| <= 0xFFFF_FFFF_FFFF_FFFF
      modifies this`sourceSeq, this`sourceTime, this`epochs, this`depth
      modifies ring, ring.bytes
      ensures Extends(old(ring.hist), ring.hist)
      ensures Valid() && ring.bytes == old(ring.bytes) && wellUsed == old(wellUsed)
      ensures transition == old(transition) && runId == old(runId) && epochId == old(epochId)
      ensures old(transition).Some?
              ==> res == Err(EmissionDuringTransition) && ring.hist == old(ring.hist) && sourceSeq == old(sourceSeq)
      ensures old(transition).None? ==> (res.Ok? <==> ring.bytes.Length >= 56 || old(sourceSeq) == map[])
      ensures res.Ok? ==> Checkpointed(old(Log()), Log(), runId, old(sourceSeq), sourceSeq,
                                       |Ascending(old(sourceSeq).Keys)|)
      ensures res.Err? ==> ring.hist == old(ring.hist) && sourceSeq == old(sourceSeq)
    {
      hide *;
      Opened();
      ExtendsBy(ring.hist, NO_ENTRY);
      if transition.Some? {
        return Err(EmissionDuringTransition);
      }
      ghost var before := Now();
      if ring.bytes.Length >= 80 && wellUsed {
        NotOpen(before);
      }
      res := CheckpointAll();
      OpenedBase();
      if ring.bytes.Length >= 80 && wellUsed {
        StillClosed(before, Now(), |Ascending(before.sourceSeq.Keys)|);
        InForceCheckpoints(old(ring.hist), ring.hist, before, Now(), prevDefinitionHash, definitionHash, epochFirstAbs);
      }
      Closed(Now());
    }

    /** The first step of a transition: `LoggerStopped`. */
    method EmitStopped() returns (res: Result<(), EpochError>, ghost r: Record)
      requires Valid() && sourceTime < 0xFFFF_FFFF_FFFF_FFFF && transition == None
      modifies this`systemSeq, this`sourceTime, this`epochs, this`open, this`depth, ring, ring.bytes
      ensures Base() && ring.bytes == old(ring.bytes) && Extends(old(ring.hist), ring.hist)
      ensures systemSeq == old(systemSeq) + 1 && sourceTime == old(sourceTime) + 1
      ensures old(sourceTime) <= 0xFFFF_FFFF_FFFF_FFFF && old(systemSeq) <= 0xFFFF_FFFF_FFFF_FFFF
              && r == StopRecord(old(sourceTime), runId, old(systemSeq)) && r.eventTypeId == EVENT_LOGGER_STOPPED
      ensures res.Ok? <==> ring.bytes.Length >= 44
      ensures res.Err? ==> Valid() && ring.hist == old(ring.hist)
      ensures res.Ok? ==> RecordsOf(ring.hist) == RecordsOf(old(ring.hist)) + [r]
      ensures ring.bytes.Length >= 80 && wellUsed ==> Awaits(Now()) && open.Some?
    {
      hide *;
      Opened();
      ghost var l := Now();
      LifecycleSizes(0, NO_HASH, NO_HASH, 0);
      CountersFit(sourceTime, systemSeq, sourceSeq);
      var stopped;
      stopped, r := EmitSystem(EVENT_LOGGER_STOPPED, [], 44);
      StopIs(r, old(sourceTime), runId, old(systemSeq));
      match stopped
      case Err(error) =>
        Closed(l);
        Opened();
        res := Err(error);
      case Ok(_) =>
        if ring.bytes.Length >= 80 && wellUsed {
          l := SoundStops(l, r);
          epochs, open, depth := l.epochs, l.open, l.depth;
        }
        ClosedBase(l);
        res := Ok(());
    }

    /** Opens a transition: `LoggerStopped`, then the checkpoints. */
    method BeginEpochTransition(defHashOld: Hash, defHashNew: Hash, epoch: u64) returns (res: Result<(), EpochError>)
      requires Valid() && sourceTime + 1 + |sourceSeq| <= 0xFFFF_FFFF_FFFF_FFFF
      modifies this`sourceSeq, this`systemSeq, this`sourceTime, this`transition, this`epochs, this`open, this`depth
      modifies ring, ring.bytes
      ensures Extends(old(ring.hist), ring.hist)
      ensures Valid() && ring.bytes == old(ring.bytes) && wellUsed == old(wellUsed)
      ensures runId == old(runId) && epochId == old(epochId)
      ensures old(transition).Some?
              ==> res == Err(TransitionAlreadyOpen) && ring.hist == old(ring.hist) && transition == old(transition)
                  && sourceSeq == old(sourceSeq) && systemSeq == old(systemSeq)
      ensures old(transition).None?
              ==> (res.Ok? <==> ring.bytes.Length >= 56 || (ring.bytes.Length >= 44 && old(sourceSeq) == map[]))
                  && systemSeq == old(systemSeq) + 1 && old(systemSeq) <= 0xFFFF_FFFF_FFFF_FFFF
      ensures res.Ok? ==> transition == Some(Pending(defHashOld, defHashNew, epoch, false))
                          && Checkpointed(old(Log()) + [StopRecord(old(sourceTime), runId, old(systemSeq))], Log(),
                                          runId, old(sourceSeq), sourceSeq, |Ascending(old(sourceSeq).Keys)|)
      ensures old(transition).None? && res.Err?
              ==> transition == None && sourceSeq == old(sourceSeq)
                  && Log() == old(Log()) + if ring.bytes.Length >= 44
                                           then [StopRecord(old(sourceTime), runId, old(systemSeq))] else []
    {
      hide *;
      Opened();
      ExtendsBy(ring.hist, NO_ENTRY);
      if transition.Some? {
        return Err(TransitionAlreadyOpen);
      }
      var stopped, r := EmitStopped();
      match stopped
      case Err(error) =>
        Opened();
        assert RecordsOf(ring.hist) + [] == RecordsOf(ring.hist);
        return Err(error);
      case Ok(_) =>
        OpenedBase();
        ghost var h, opening := ring.hist, Now();
        var checkpointed := CheckpointAll();
        OpenedBase();
        ghost var l := Now();
        ExtendsOn(old(ring.hist), h, ring.hist);
        if ring.bytes.Length >= 80 && wellUsed {
          InForceStopped(old(ring.hist), h, r, ring.hist, opening, l, prevDefinitionHash, definitionHash,
                         epochFirstAbs);
        }
        match checkpointed
        case Err(error) =>
          assert ring.hist == h;
          Closed(l);
          return Err(error);
        case Ok(_) =>
          transition := Some(Pending(defHashOld, defHashNew, epoch, false));
          if ring.bytes.Length >= 80 && wellUsed {
            NowStopped(opening, l, |Ascending(opening.sourceSeq.Keys)|, transition);
          }
          Closed(l);
          res := Ok(());
    }

    /** Emits `DefinitionChanged`, once per transition. A ring too small for it loses the transition. */
    method EmitDefinitionChanged() returns (res: Result<(), EpochError>)
      requires Valid() && sourceTime < 0xFFFF_FFFF_FFFF_FFFF
      modifies this`systemSeq, this`sourceTime, this`transition, this`epochs, this`depth
      modifies ring, ring.bytes
      ensures Extends(old(ring.hist), ring.hist)
      ensures Valid() && ring.bytes == old(ring.bytes) && wellUsed == old(wellUsed) && sourceSeq == old(sourceSeq)
      ensures runId == old(runId) && epochId == old(epochId)
      ensures old(transition).None?
              ==> res == Err(NoTransitionOpen) && transition == None && ring.hist == old(ring.hist)
      ensures old(transition).Some? && old(transition).value.definitionChangedEmitted
              ==> res == Err(DefinitionAlreadyEmitted) && transition == old(transition) && ring.hist == old(ring.hist)
      ensures old(transition).None? || old(transition).value.definitionChangedEmitted ==> systemSeq == old(systemSeq)
      ensures res.Err? ==> ring.hist == old(ring.hist)
      ensures old(transition).Some? && !old(transition).value.definitionChangedEmitted
              ==> (res.Ok? <==> ring.bytes.Length >= 80) && systemSeq == old(systemSeq) + 1
                  && transition == if res.Ok? then Some(old(transition).value.(definitionChangedEmitted := true))
                     else None
      ensures res.Ok? ==> exists r :: AnnouncesAll(r, runId, old(transition).value) && r.seqNo == old(systemSeq)
                                      && Log() == old(Log()) + [r]
    {
      hide *;
      Opened();
      ExtendsBy(ring.hist, NO_ENTRY);
      match transition
      case None =>
        return Err(NoTransitionOpen);
      case Some(pending) =>
        if pending.definitionChangedEmitted {
          return Err(DefinitionAlreadyEmitted);
        }
        ghost var l := Now();
        transition := None;
        LifecycleSizes(0, pending.defHashOld, pending.defHashNew, pending.epochId);
        var slots := ChangeSlots(pending);
        var emitted, r := EmitSystem(EVENT_DEFINITION_CHANGED, slots, 80);
        match emitted
        case Err(error) =>
          Closed(l);
          res := Err(error);
        case Ok(_) =>
          transition := Some(pending.(definitionChangedEmitted := true));
          Announcement(r, runId, pending);
          LastRecord(ring.hist, l.log, r);
          if wellUsed {
            l := SoundChanges(l, r, pending);
            epochs, depth := l.epochs, l.depth;
            EventIds();
            InForceAfter(old(ring.hist), ring.hist, r, prevDefinitionHash, definitionHash, epochFirstAbs);
          }
          Closed(l);
          res := Ok(());
    }

    /** Emits the `LoggerStarted` of a transition; once it is written, the new definition is in place. */
    method EmitStarted(cold: byte, pending: Pending) returns (res: Result<(), EpochError>, ghost r: Record)
      requires ring.Valid() && Behind(sourceTime, systemSeq, sourceSeq) && sourceTime < 0xFFFF_FFFF_FFFF_FFFF
      requires cold <= 1 && runId >= cold
      modifies this`systemSeq, this`sourceTime, this`epochFirstAbs, this`definitionHash, this`prevDefinitionHash
      modifies ring, ring.bytes
      ensures ring.Valid() && ring.bytes == old(ring.bytes) && Behind(sourceTime, systemSeq, sourceSeq)
      ensures systemSeq == old(systemSeq) + 1 && r.runId == runId && r.seqNo == old(systemSeq)
              && r.eventTypeId == EVENT_LOGGER_STARTED && Restarts(r, runId - cold)
      ensures res.Ok? <==> ring.bytes.Length >= 52
      ensures res.Err? ==> ring.hist == old(ring.hist) && epochFirstAbs == old(epochFirstAbs)
                           && definitionHash == old(definitionHash) && prevDefinitionHash == old(prevDefinitionHash)
      ensures res.Ok? ==> RecordsOf(ring.hist) == RecordsOf(old(ring.hist)) + [r] && Installed(r, pending)
      ensures Extends(old(ring.hist), ring.hist)
    {
      hide *;
      LifecycleSizes(cold, NO_HASH, NO_HASH, 0);
      ghost var log := RecordsOf(ring.hist);
      var started;
      started, r := EmitSystem(EVENT_LOGGER_STARTED, StartSlots(cold), 52);
      Restarting(r, runId - cold, cold);
      match started
      case Err(error) =>
        res := Err(error);
      case Ok(span) =>
        epochFirstAbs := span.0;
        prevDefinitionHash := pending.defHashOld;
        definitionHash := pending.defHashNew;
        LastRecord(ring.hist, log, r);
        Installing(r, pending);
        res := Ok(());
    }

    /** The epoch starts at the record `r` just written, with the definition of the transition. */
    ghost predicate Installed(r: Record, pending: Pending)
      reads this`epochFirstAbs, this`prevDefinitionHash, this`definitionHash, ring`hist
    {
      && ring.hist != [] && ring.hist[|ring.hist| - 1].record == r && epochFirstAbs == ring.hist[|ring.hist| - 1].start
      && prevDefinitionHash == pending.defHashOld && definitionHash == pending.defHashNew
    }

    lemma Installing(r: Record, pending: Pending)
      requires ring.hist != [] && ring.hist[|ring.hist| - 1].record == r
               && epochFirstAbs == ring.hist[|ring.hist| - 1].start
      requires prevDefinitionHash == pending.defHashOld && definitionHash == pending.defHashNew
      ensures Installed(r, pending)
    {
    }

    /** Closes a warm transition: same run, sequences continue, the announced epoch is in force. */
    method FinishDefinitionChange() returns (res: Result<(), EpochError>)
      requires Valid() && sourceTime < 0xFFFF_FFFF_FFFF_FFFF
      modifies this`epochId, this`epochFirstAbs, this`definitionHash, this`prevDefinitionHash, this`systemSeq
      modifies this`sourceTime, this`transition, this`epochs, this`open, this`depth
      modifies ring, ring.bytes
      ensures Extends(old(ring.hist), ring.hist)
      ensures Valid() && ring.bytes == old(ring.bytes) && wellUsed == old(wellUsed)
      ensures runId == old(runId) && sourceSeq == old(sourceSeq)
      ensures old(transition).None?
              ==> res == Err(NoTransitionOpen) && transition == None && ring.hist == old(ring.hist)
      ensures old(transition).Some? && !old(transition).value.definitionChangedEmitted
              ==> res == Err(DefinitionNotEmitted) && transition == old(transition) && ring.hist == old(ring.hist)
      ensures old(transition).Some? && old(transition).value.definitionChangedEmitted
              ==> (res.Ok? <==> ring.bytes.Length >= 52) && transition == None
                  && epochId == old(transition).value.epochId && systemSeq == old(systemSeq) + 1
      ensures old(transition).None? || !old(transition).value.definitionChangedEmitted
              ==> epochId == old(epochId) && systemSeq == old(systemSeq)
      ensures res.Err? ==> ring.hist == old(ring.hist) && epochFirstAbs == old(epochFirstAbs)
                           && definitionHash == old(definitionHash) && prevDefinitionHash == old(prevDefinitionHash)
      ensures res.Ok? ==> exists r :: Restarts(r, runId) && r.runId == runId && r.seqNo == old(systemSeq)
                                      && Installed(r, old(transition).value) && Log() == old(Log()) + [r]
    {
      hide *;
      Opened();
      ExtendsBy(ring.hist, NO_ENTRY);
      match transition
      case None =>
        return Err(NoTransitionOpen);
      case Some(pending) =>
        if !pending.definitionChangedEmitted {
          return Err(DefinitionNotEmitted);
        }
        ghost var l := Now();
        transition := None;
        epochId := pending.epochId;
        ghost var r;
        res, r := EmitStarted(0, pending);
        if ring.bytes.Length >= 80 && wellUsed {
          NowInForce(old(ring.hist), l, r, pending);
          l := SoundWarm(l, r, pending);
          epochs, open, depth := l.epochs, l.open, l.depth;
        }
        Closed(l);
    }

    /** Closes a cold start: the next run, with all sequences starting over. */
    method FinishColdStart() returns (res: Result<(), EpochError>)
      requires Valid() && sourceTime < 0xFFFF_FFFF_FFFF_FFFF && runId < 0xFFFF_FFFF_FFFF_FFFF
      modifies this, ring, ring.bytes
      ensures Extends(old(ring.hist), ring.hist)
      ensures Valid() && ring.bytes == old(ring.bytes) && wellUsed == old(wellUsed)
      ensures old(transition).None?
              ==> res == Err(NoTransitionOpen) && transition == None && ring.hist == old(ring.hist)
      ensures old(transition).Some? && !old(transition).value.definitionChangedEmitted
              ==> res == Err(DefinitionNotEmitted) && transition == old(transition) && ring.hist == old(ring.hist)
      ensures old(transition).None? || !old(transition).value.definitionChangedEmitted
              ==> runId == old(runId) && sourceSeq == old(sourceSeq) && epochId == old(epochId)
                  && systemSeq == old(systemSeq)
      ensures res.Err? ==> ring.hist == old(ring.hist) && epochFirstAbs == old(epochFirstAbs)
                           && definitionHash == old(definitionHash) && prevDefinitionHash == old(prevDefinitionHash)
      ensures old(transition).Some? && old(transition).value.definitionChangedEmitted
              ==> (res.Ok? <==> ring.bytes.Length >= 52) && transition == None && runId == old(runId) + 1
                  && epochId == old(transition).value.epochId && sourceSeq == map[] && systemSeq == 1
      ensures res.Ok? ==> exists r :: Restarts(r, old(runId)) && r.runId == runId && r.seqNo == 0
                                      && Installed(r, old(transition).value) && Log() == old(Log()) + [r]
    {
      hide *;
      Opened();
      ExtendsBy(ring.hist, NO_ENTRY);
      match transition
      case None =>
        return Err(NoTransitionOpen);
      case Some(pending) =>
        if !pending.definitionChangedEmitted {
          return Err(DefinitionNotEmitted);
        }
        res := ColdStart(pending);
    }

    /** The part of a cold start after the checks. */
    method ColdStart(pending: Pending) returns (res: Result<(), EpochError>)
      requires Valid() && transition == Some(pending) && pending.definitionChangedEmitted
      requires sourceTime < 0xFFFF_FFFF_FFFF_FFFF && runId < 0xFFFF_FFFF_FFFF_FFFF
      modifies this, ring, ring.bytes
      ensures Extends(old(ring.hist), ring.hist)
      ensures Valid() && ring.bytes == old(ring.bytes) && wellUsed == old(wellUsed)
      ensures (res.Ok? <==> ring.bytes.Length >= 52) && transition == None && runId == old(runId) + 1
      ensures epochId == pending.epochId && sourceSeq == map[] && systemSeq == 1
      ensures res.Err? ==> ring.hist == old(ring.hist) && epochFirstAbs == old(epochFirstAbs)
                           && definitionHash == old(definitionHash) && prevDefinitionHash == old(prevDefinitionHash)
      ensures res.Ok? ==> exists r :: Restarts(r, old(runId)) && r.runId == runId && r.seqNo == 0
                                      && Installed(r, pending) && Log() == old(Log()) + [r]
    {
      hide *;
      Opened();
      ExtendsBy(ring.hist, NO_ENTRY);
      ghost var l := Now();
      transition := None;
      runId := runId + 1;
      epochId := pending.epochId;
      ClearedBehind(sourceTime, systemSeq, sourceSeq);
      systemSeq := 0;
      sourceSeq := map[];
      ghost var r;
      res, r := EmitStarted(1, pending);
      if ring.bytes.Length >= 80 && wellUsed {
        NowInForce(old(ring.hist), l, r, pending);
        l := SoundCold(l, r, pending);
        epochs, open, depth := l.epochs, l.open, l.depth;
      }
      Closed(l);
    }

    /** What was pending is in force. */
    lemma NowInForce(h: seq<Entry>, l: Ledger, r: Record, pending: Pending)
      requires PhaseOf(l, Some(pending)) && pending.definitionChangedEmitted && l.log == RecordsOf(h)
      requires Extends(h, ring.hist) && RecordsOf(ring.hist) == RecordsOf(h) + [r] && Installed(r, pending)
      requires r.eventTypeId == EVENT_LOGGER_STARTED
      ensures InForce(ring.hist, prevDefinitionHash, definitionHash, epochFirstAbs)
    {
      hide Due, InForce, RecordsOf, Extends, AnnouncesAll;
      InForceFrom(h, ring.hist, r, l.run, pending, epochFirstAbs);
    }

    lemma OpenedBase()
      requires Base()
      ensures ring.Valid() && Behind(sourceTime, systemSeq, sourceSeq)
      ensures ring.bytes.Length >= 80 && wellUsed ==> Sound(Now())
      ensures Now() == Ledger(RecordsOf(ring.hist), epochs, run0, epoch0, runId, epochId, systemSeq, sourceSeq, open,
                              depth)
    {
      hide Sound, InForce;
    }

    lemma ClosedBase(l: Ledger)
      requires ring.Valid() && Behind(sourceTime, systemSeq, sourceSeq)
      requires ring.bytes.Length >= 80 && wellUsed ==>
                 && l == Ledger(RecordsOf(ring.hist), epochs, run0, epoch0, runId, epochId, systemSeq, sourceSeq,
                                open, depth)
                 && Sound(l)
      ensures Base() && (ring.bytes.Length >= 80 && wellUsed ==> Now() == l)
    {
      hide Sound, InForce;
    }
  }

  function CheckpointSlots(produced: nat): seq<Slot> {
    [Slot(KEY_SOURCE_HIGH_WATER, TY_ULINT, ToLe(produced, 8))]
  }

  lemma CheckpointSize(r: Record)
    requires r.slots == CheckpointSlots(r.seqNo)
    ensures Encodable(r, true) && TotalLen(r.slots, true) == 56
  {
    hide ToLe;
    var eight := Slot(0, 0, [0, 0, 0, 0, 0, 0, 0, 0]);
    SlotSizes(r.slots[0], eight, eight);
    assert r.slots == [r.slots[0]];
  }

  lemma CountersSize(m: map<u32, nat>)
    ensures |Ascending(m.Keys)| == |m|
  {
    AscendingList(m.Keys);
    assert |m.Keys| == |m|;
  }

  /** A checkpoint's number fits, and so do the counters after it. */
  lemma CheckpointFits(time0: nat, time: nat, systemSeq: nat, counters: map<u32, nat>, sourceSeq: map<u32, nat>,
                       source: u32, produced: nat)
    requires Behind(time0, systemSeq, counters) && Behind(time, systemSeq, sourceSeq)
             && time0 <= time < 0xFFFF_FFFF_FFFF_FFFF
    requires source in counters && produced == counters[source]
    ensures produced <= 0xFFFF_FFFF_FFFF_FFFF && Behind(time + 1, systemSeq, sourceSeq)
    ensures Behind(time + 1, systemSeq, sourceSeq[source := produced + 1])
  {
  }

  /** The checkpoints of all sources are still to come. */
  ghost predicate Awaits(l: Ledger) {
    l.depth == 0
    && (l.open.Some? ==> l.open.value < |l.log| && Due(l.log, l.open.value) == Ascending(l.sourceSeq.Keys))
  }

  /** The first `i` sources have got their checkpoint: the log has grown by exactly these records, each with the
  number its source had reached, and the counters by one each. */
  ghost predicate Checkpointed(log: seq<Record>, log': seq<Record>, run: u64, counters: map<u32, nat>,
                               counters': map<u32, nat>, i: nat) {
    var due := Ascending(counters.Keys);
    && i <= |due| && |log'| == |log| + i && log'[..|log|] == log && counters'.Keys == counters.Keys
    && (forall j | 0 <= j < |due| :: due[j] in counters && due[j] in counters'
                                     && counters'[due[j]] == counters[due[j]] + if j < i then 1 else 0)
    && (forall j | 0 <= j < i :: Checkpoint(log'[|log| + j], run, due[j]) && log'[|log| + j].seqNo == counters[due[j]])
  }

  lemma CheckpointedStart(log: seq<Record>, run: u64, counters: map<u32, nat>)
    ensures Checkpointed(log, log, run, counters, counters, 0)
  {
    hide Ascending;
    AscendingList(counters.Keys);
    assert log[..|log|] == log;
    var due := Ascending(counters.Keys);
    assert forall j | 0 <= j < |due| :: due[j] in due;
  }

  lemma CheckpointedTurn(log: seq<Record>, log': seq<Record>, run: u64, counters: map<u32, nat>,
                         counters': map<u32, nat>, i: nat, r: Record)
    requires Checkpointed(log, log', run, counters, counters', i) && i < |Ascending(counters.Keys)|
    requires r.sourceId == Ascending(counters.Keys)[i] && r.sourceId in counters && r.seqNo == counters[r.sourceId]
    requires r.runId == run && r.eventTypeId == EVENT_SOURCE_HIGH_WATER && r.slots == CheckpointSlots(r.seqNo)
    ensures Checkpointed(log, log' + [r], run, counters, counters'[r.sourceId := r.seqNo + 1], i + 1)
  {
    hide Ascending, Checkpoint;
    AscendingList(counters.Keys);
    var due := Ascending(counters.Keys);
    CountersTurn(due, counters, counters', i, r);
    RecordsTurn(log, log', run, due, counters, i, r);
  }

  lemma RecordsTurn(log: seq<Record>, log': seq<Record>, run: u64, due: seq<u32>, counters: map<u32, nat>, i: nat,
                    r: Record)
    requires i < |due| && |log'| == |log| + i && log'[..|log|] == log
    requires forall j | 0 <= j < |due| :: due[j] in counters
    requires forall j | 0 <= j < i ::
               Checkpoint(log'[|log| + j], run, due[j]) && log'[|log| + j].seqNo == counters[due[j]]
    requires r.runId == run && r.eventTypeId == EVENT_SOURCE_HIGH_WATER && r.slots == CheckpointSlots(r.seqNo)
    requires r.sourceId == due[i] && r.seqNo == counters[due[i]]
    ensures var all := log' + [r];
            && |all| == |log| + i + 1 && all[..|log|] == log
            && forall j | 0 <= j < i + 1 ::
                 Checkpoint(all[|log| + j], run, due[j]) && all[|log| + j].seqNo == counters[due[j]]
  {
    hide Checkpoint;
    CheckpointMade(r, run);
    var all := log' + [r];
    assert all[..|log|] == log'[..|log|];
    forall j | 0 <= j < i + 1
      ensures Checkpoint(all[|log| + j], run, due[j]) && all[|log| + j].seqNo == counters[due[j]]
    {
      if j < i {
        assert all[|log| + j] == log'[|log| + j];
      }
    }
  }

  lemma CheckpointMade(r: Record, run: u64)
    requires r.runId == run && r.eventTypeId == EVENT_SOURCE_HIGH_WATER && r.slots == CheckpointSlots(r.seqNo)
    ensures Checkpoint(r, run, r.sourceId)
  {
  }

  lemma CountersTurn(due: seq<u32>, counters: map<u32, nat>, counters': map<u32, nat>, i: nat, r: Record)
    requires i < |due| && r.sourceId == due[i] && r.sourceId in counters && r.seqNo == counters[r.sourceId]
    requires forall j, k | 0 <= j < k < |due| :: due[j] < due[k]
    requires counters'.Keys == counters.Keys
    requires forall j | 0 <= j < |due| ::
               due[j] in counters && due[j] in counters'
               && counters'[due[j]] == counters[due[j]] + if j < i then 1 else 0
    ensures var after := counters'[r.sourceId := r.seqNo + 1];
            && after.Keys == counters.Keys
            && forall j | 0 <= j < |due| ::
                 due[j] in counters && due[j] in after
                 && after[due[j]] == counters[due[j]] + if j < i + 1 then 1 else 0
  {
    var after := counters'[r.sourceId := r.seqNo + 1];
    forall j | 0 <= j < |due|
      ensures after[due[j]] == counters[due[j]] + if j < i + 1 then 1 else 0
    {
      assert j < i ==> due[j] < due[i];
      assert j > i ==> due[i] < due[j];
    }
  }

  /** The checkpoints so far, in a ledger: an open transition has come as far. */
  ghost predicate Progress(before: Ledger, l: Ledger, i: nat) {
    && Checkpointed(before.log, l.log, l.run, before.sourceSeq, l.sourceSeq, i)
    && l.run == before.run && l.open == before.open
    && (if l.open.Some?
        then l.depth == i && l.open.value < |l.log| && Due(l.log, l.open.value) == Ascending(before.sourceSeq.Keys)
        else l.depth == 0)
  }

  lemma ProgressStart(l: Ledger)
    requires Awaits(l)
    ensures Progress(l, l, 0)
  {
    hide Ascending, Due, Checkpointed;
    CheckpointedStart(l.log, l.run, l.sourceSeq);
  }

  /** The next checkpoint. */
  lemma CheckpointTurn(before: Ledger, l: Ledger, i: nat, r: Record) returns (k: Ledger)
    requires Sound(l) && Progress(before, l, i) && i < |Ascending(before.sourceSeq.Keys)|
    requires r.sourceId == Ascending(before.sourceSeq.Keys)[i] && r.sourceId in before.sourceSeq
    requires r.seqNo == before.sourceSeq[r.sourceId]
    requires r.runId == l.run && r.eventTypeId == EVENT_SOURCE_HIGH_WATER && r.slots == CheckpointSlots(r.seqNo)
    ensures k == l.(log := l.log + [r], epochs := l.epochs + [l.epoch],
                    sourceSeq := l.sourceSeq[r.sourceId := r.seqNo + 1],
                    depth := if l.open.Some? then l.depth + 1 else 0)
    ensures Sound(k) && Progress(before, k, i + 1)
  {
    hide Sound, Ascending, Due, Progress;
    ProgressNow(before, l, i);
    CountedSource(l, r.sourceId);
    k := l.(log := l.log + [r], epochs := l.epochs + [l.epoch], sourceSeq := l.sourceSeq[r.sourceId := r.seqNo + 1],
            depth := if l.open.Some? then l.depth + 1 else 0);
    ProgressTurn(before, l, i, r, k);
    if l.open.Some? {
      SoundCheckpoint(l, r);
    } else {
      SoundOrdinary(l, r);
    }
  }

  lemma ProgressNow(before: Ledger, l: Ledger, i: nat)
    requires Progress(before, l, i) && i < |Ascending(before.sourceSeq.Keys)|
    ensures var s := Ascending(before.sourceSeq.Keys)[i];
            s in before.sourceSeq && s in l.sourceSeq && l.sourceSeq[s] == before.sourceSeq[s]
    ensures if l.open.Some?
            then l.depth == i && l.open.value < |l.log| && Due(l.log, l.open.value) == Ascending(before.sourceSeq.Keys)
            else l.depth == 0
  {
  }

  lemma ProgressTurn(before: Ledger, l: Ledger, i: nat, r: Record, k: Ledger)
    requires Progress(before, l, i) && i < |Ascending(before.sourceSeq.Keys)|
    requires r.sourceId == Ascending(before.sourceSeq.Keys)[i] && r.sourceId in before.sourceSeq
    requires r.seqNo == before.sourceSeq[r.sourceId] && Checkpoint(r, l.run, r.sourceId)
    requires k.log == l.log + [r] && k.sourceSeq == l.sourceSeq[r.sourceId := r.seqNo + 1]
    requires k.run == l.run && k.open == l.open && k.depth == if l.open.Some? then l.depth + 1 else 0
    ensures Progress(before, k, i + 1)
  {
    hide Ascending, Due, Checkpointed;
    if l.open.Some? {
      DueStays(l.log, r, l.open.value);
    }
    CheckpointedTurn(before.log, l.log, l.run, before.sourceSeq, l.sourceSeq, i, r);
  }

  lemma CountedSource(l: Ledger, s: u32)
    requires Sound(l) && s in l.sourceSeq
    ensures s != SYSTEM_SOURCE_ID
  {
    hide GapFree, Grammar, Marked, Count;
    NeverSystem(l.log, l.run);
  }

  lemma {:induction false} NeverSystem(log: seq<Record>, run: u64)
    ensures SYSTEM_SOURCE_ID !in Active(log, run)
  {
    if log == [] {
    } else {
      NeverSystem(log[..|log| - 1], run);
    }
  }

  lemma WriteEffect(cap: nat, h: seq<Entry>, h': seq<Entry>, r: Record)
    requires cap > 0 && Encodable(r, true) && h' == h + [EntryFor(cap, h, r)]
    ensures RecordsOf(h') == RecordsOf(h) + [r] && Extends(h, h') && h' != []
  {
    hide Encodable, Encoding;
  }

  lemma StartTime()
    ensures START_TIME == 1_780_000_000_000_000_000
  {
  }

  lemma NothingInForce(h: seq<Entry>)
    requires h == []
    ensures InForce(h, NO_HASH, NO_HASH, 0)
  {
  }

  lemma SoundEmpty(h: seq<Entry>, run: u64, epoch: u64)
    requires h == []
    ensures var l := Ledger(RecordsOf(h), [], run, epoch, run, epoch, 0, map[], None, 0);
            Sound(l) && PhaseOf(l, None)
  {
    assert RecordsOf(h) == [];
  }

  predicate OrdinaryEvent(event: u32) {
    event != EVENT_LOGGER_STOPPED && event != EVENT_DEFINITION_CHANGED && event != EVENT_LOGGER_STARTED
  }

  /** A message carries a template id. */
  function DataSlots(event: u32): seq<Slot> {
    if event == EVENT_MESSAGE then [Slot(KEY_MESSAGE_TEMPLATE_ID, TY_UDINT, ToLe(0, 4))] else []
  }

  function DataRecord(time: nat, run: u64, seqNo: nat, source: u32, event: u32): Record
    requires time <= 0xFFFF_FFFF_FFFF_FFFF && seqNo <= 0xFFFF_FFFF_FFFF_FFFF
  {
    Record(0, time, run, seqNo, source, event, DataSlots(event))
  }

  /** A data record: no flags, the time and run of the producer, and for a message template number zero. */
  predicate Datum(r: Record, time: nat, run: u64, source: u32, event: u32) {
    && r.flags == 0 && r.sourceTime == time && r.runId == run && r.sourceId == source && r.eventTypeId == event
    && r.slots == if event == 0x3 then [Slot(0x14, 0x05, [0, 0, 0, 0])] else []
  }

  lemma DatumMade(r: Record, time: nat, run: u64, source: u32, event: u32)
    requires r.flags == 0 && r.sourceTime == time && r.runId == run && r.sourceId == source && r.eventTypeId == event
    requires r.slots == DataSlots(event)
    ensures Datum(r, time, run, source, event)
  {
    assert ToLe(0, 1) == [0] && ToLe(0, 2) == [0, 0] && ToLe(0, 3) == [0, 0, 0];
    assert ToLe(0, 4) == [0, 0, 0, 0];
  }

  lemma DataSize(r: Record)
    requires r.slots == DataSlots(r.eventTypeId)
    ensures Encodable(r, true) && TotalLen(r.slots, true) == if r.eventTypeId == EVENT_MESSAGE then 52 else 44
  {
    var eight := Slot(0, 0, [0, 0, 0, 0, 0, 0, 0, 0]);
    SlotSizes(Slot(KEY_MESSAGE_TEMPLATE_ID, TY_UDINT, ToLe(0, 4)), eight, eight);
  }

  /** What a data record is made of, and that it fits its fields. */
  lemma DataTurn(time: nat, run: u64, systemSeq: nat, sourceSeq: map<u32, nat>, source: u32, event: u32)
    requires Behind(time, systemSeq, sourceSeq) && time < 0xFFFF_FFFF_FFFF_FFFF
    ensures var seqNo := NextSeq(sourceSeq, source);
            && seqNo <= 0xFFFF_FFFF_FFFF_FFFF && Behind(time + 1, systemSeq, sourceSeq[source := seqNo + 1])
            && var r := DataRecord(time, run, seqNo, source, event);
               && r == Record(0, time, run, seqNo, source, event, DataSlots(event))
               && Encodable(r, true) && TotalLen(r.slots, true) == if event == EVENT_MESSAGE then 52 else 44
  {
    hide DataSlots, Encodable, TotalLen;
    DataSize(DataRecord(time, run, NextSeq(sourceSeq, source), source, event));
  }

  /** A data record outside a transition. */
  lemma SoundData(l: Ledger, r: Record) returns (k: Ledger)
    requires Sound(l) && PhaseOf(l, None)
    requires r.runId == l.run && r.sourceId != SYSTEM_SOURCE_ID && OrdinaryEvent(r.eventTypeId)
    requires r.seqNo == NextSeq(l.sourceSeq, r.sourceId) && r.slots == DataSlots(r.eventTypeId)
    ensures k == l.(log := l.log + [r], epochs := l.epochs + [l.epoch],
                    sourceSeq := l.sourceSeq[r.sourceId := r.seqNo + 1])
    ensures Sound(k) && PhaseOf(k, None)
  {
    hide Sound;
    NotOpen(l);
    SoundOrdinary(l, r);
    k := l.Plus(r).(sourceSeq := l.sourceSeq[r.sourceId := r.seqNo + 1]);
  }

  lemma NotOpen(l: Ledger)
    requires Sound(l) && PhaseOf(l, None)
    ensures l.open == None && Awaits(l)
  {
    hide GapFree, Grammar, Marked, Counters, Due;
  }

  lemma StillClosed(before: Ledger, l: Ledger, i: nat)
    requires Progress(before, l, i) && before.open == None
    ensures PhaseOf(l, None)
  {
  }

  lemma SoundStops(l: Ledger, r: Record) returns (k: Ledger)
    requires Sound(l) && PhaseOf(l, None)
    requires r.runId == l.run && r.sourceId == SYSTEM_SOURCE_ID && r.eventTypeId == EVENT_LOGGER_STOPPED
             && r.slots == []
    requires r.seqNo == l.systemSeq
    ensures k == l.(log := l.log + [r], epochs := l.epochs + [l.epoch], systemSeq := l.systemSeq + 1,
                    open := Some(|l.log|), depth := 0)
    ensures Sound(k) && Awaits(k)
  {
    hide Sound, Due, Ascending;
    NotOpen(l);
    SoundStop(l, r);
    k := l.Plus(r).(systemSeq := l.systemSeq + 1, open := Some(|l.log|), depth := 0);
  }

  lemma NowStopped(before: Ledger, l: Ledger, i: nat, transition: Option<Pending>)
    requires Progress(before, l, i) && i == |Ascending(before.sourceSeq.Keys)| && before.open.Some?
    requires transition.Some? && !transition.value.definitionChangedEmitted
    ensures PhaseOf(l, transition)
  {
  }

  lemma SoundChanges(l: Ledger, r: Record, pending: Pending) returns (k: Ledger)
    requires Sound(l) && PhaseOf(l, Some(pending)) && !pending.definitionChangedEmitted
    requires AnnouncesAll(r, l.run, pending) && r.seqNo == l.systemSeq
    ensures k == l.(log := l.log + [r], epochs := l.epochs + [l.epoch], systemSeq := l.systemSeq + 1,
                    depth := l.depth + 1)
    ensures Sound(k) && PhaseOf(k, Some(pending.(definitionChangedEmitted := true)))
  {
    hide Sound, Due;
    SoundChange(l, r, pending.epochId);
    DueStays(l.log, r, l.open.value);
    k := l.Plus(r).(systemSeq := l.systemSeq + 1, depth := l.depth + 1);
  }

  lemma SoundWarm(l: Ledger, r: Record, pending: Pending) returns (k: Ledger)
    requires Sound(l) && PhaseOf(l, Some(pending)) && pending.definitionChangedEmitted
    requires Restarts(r, l.run) && r.runId == l.run && r.seqNo == l.systemSeq
    ensures k == l.(log := l.log + [r], epochs := l.epochs + [pending.epochId], epoch := pending.epochId,
                    systemSeq := l.systemSeq + 1, open := None, depth := 0)
    ensures Sound(k) && PhaseOf(k, None)
  {
    hide Sound, Due, Counters;
    SoundCounters(l);
    var started := l.(epoch := pending.epochId);
    SoundStart(l, r, started);
    k := started.Plus(r).(systemSeq := l.systemSeq + 1, open := None, depth := 0);
  }

  lemma SoundCold(l: Ledger, r: Record, pending: Pending) returns (k: Ledger)
    requires Sound(l) && PhaseOf(l, Some(pending)) && pending.definitionChangedEmitted
    requires l.run < 0xFFFF_FFFF_FFFF_FFFF && Restarts(r, l.run) && r.runId == l.run + 1 && r.seqNo == 0
    ensures k == l.(log := l.log + [r], epochs := l.epochs + [pending.epochId], run := l.run + 1,
                    epoch := pending.epochId, systemSeq := 1, sourceSeq := map[], open := None, depth := 0)
    ensures Sound(k) && PhaseOf(k, None)
  {
    hide Sound, Due, Counters;
    SoundCounters(l);
    ColdCounters(l.log, l.run, l.systemSeq, l.sourceSeq);
    var started := l.(run := l.run + 1, epoch := pending.epochId, systemSeq := 0, sourceSeq := map[]);
    SoundStart(l, r, started);
    k := started.Plus(r).(systemSeq := 1, open := None, depth := 0);
  }

  lemma SoundCounters(l: Ledger)
    requires Sound(l)
    ensures Counters(l.log, l.run, l.systemSeq, l.sourceSeq)
  {
  }

  // ---- Lifecycle records ---------------------------------------------------------------------

  const NO_ENTRY: Entry := Entry(0, SAMPLE, [])

  function ChangeSlots(pending: Pending): seq<Slot> {
    [Slot(KEY_DEF_HASH_OLD, TY_BYTES, pending.defHashOld), Slot(KEY_DEF_HASH_NEW, TY_BYTES, pending.defHashNew),
     Slot(KEY_EPOCH_ID, TY_ULINT, ToLe(pending.epochId, 8))]
  }

  function StartSlots(cold: byte): seq<Slot> {
    [Slot(KEY_COLD_START, TY_BOOL, [cold])]
  }

  lemma LifecycleSizes(cold: byte, before: Hash, after: Hash, epoch: u64)
    ensures SlotsFit([]) && TotalLen([], true) == 44
    ensures SlotsFit(StartSlots(cold)) && TotalLen(StartSlots(cold), true) == 52
    ensures forall emitted :: var slots := ChangeSlots(Pending(before, after, epoch, emitted));
                              SlotsFit(slots) && TotalLen(slots, true) == 80
  {
    hide ToLe, TotalLen;
    var a, b, c := Slot(KEY_DEF_HASH_OLD, TY_BYTES, before), Slot(KEY_DEF_HASH_NEW, TY_BYTES, after),
                   Slot(KEY_EPOCH_ID, TY_ULINT, ToLe(epoch, 8));
    SlotSizes(a, b, c);
    SlotSizes(Slot(KEY_COLD_START, TY_BOOL, [cold]), b, c);
  }

  lemma Announcement(r: Record, run: u64, pending: Pending)
    requires r.runId == run && r.sourceId == SYSTEM_SOURCE_ID && r.eventTypeId == EVENT_DEFINITION_CHANGED
    requires r.slots == ChangeSlots(pending)
    ensures AnnouncesAll(r, run, pending)
  {
    assert r.slots[0].key == KEY_DEF_HASH_OLD && r.slots[1].key == KEY_DEF_HASH_NEW && r.slots[2].key == KEY_EPOCH_ID;
    assert Carries(r, KEY_DEF_HASH_OLD, pending.defHashOld) && Carries(r, KEY_DEF_HASH_NEW, pending.defHashNew);
  }

  lemma EventIds()
    ensures EVENT_DEFINITION_CHANGED != EVENT_LOGGER_STARTED
  {
  }

  lemma NotStarted(event: u32)
    requires OrdinaryEvent(event)
    ensures event != EVENT_LOGGER_STARTED
  {
  }

  lemma Restarting(r: Record, run: u64, cold: byte)
    requires r.sourceId == SYSTEM_SOURCE_ID && r.eventTypeId == EVENT_LOGGER_STARTED && cold <= 1
    requires r.runId == run + cold && r.slots == StartSlots(cold)
    ensures Restarts(r, run)
  {
  }

  /** The `LoggerStopped` of a transition. */
  function StopRecord(time: nat, run: u64, seqNo: nat): Record
    requires time <= 0xFFFF_FFFF_FFFF_FFFF && seqNo <= 0xFFFF_FFFF_FFFF_FFFF
  {
    Record(0, time, run, seqNo, SYSTEM_SOURCE_ID, EVENT_LOGGER_STOPPED, [])
  }

  lemma StopIs(r: Record, time: nat, run: u64, seqNo: nat)
    requires time <= 0xFFFF_FFFF_FFFF_FFFF && seqNo <= 0xFFFF_FFFF_FFFF_FFFF
    requires r == Record(0, time, run, seqNo, SYSTEM_SOURCE_ID, EVENT_LOGGER_STOPPED, [])
    ensures r == StopRecord(time, run, seqNo)
  {
  }

  lemma CountersFit(time: nat, systemSeq: nat, sourceSeq: map<u32, nat>)
    requires Behind(time, systemSeq, sourceSeq)
    ensures time <= 0xFFFF_FFFF_FFFF_FFFF && systemSeq <= 0xFFFF_FFFF_FFFF_FFFF
  {
  }

  lemma LastRecord(h: seq<Entry>, log: seq<Record>, r: Record)
    requires RecordsOf(h) == log + [r]
    ensures h != [] && h[|h| - 1].record == r
  {
    assert RecordsOf(h)[|h| - 1] == (log + [r])[|log|];
  }

  lemma ClearedBehind(time: nat, systemSeq: nat, sourceSeq: map<u32, nat>)
    requires Behind(time, systemSeq, sourceSeq)
    ensures Behind(time, 0, map[])
  {
  }
}
