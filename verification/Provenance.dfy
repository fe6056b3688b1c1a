/** Which definition a record of a producer's log is resolved against. */
module Provenance {
  import opened Wire
  import opened Layout
  import opened Registry
  import opened Control
  import opened Ring
  import opened EpochLog
  import opened EpochSteps
  import opened EpochResolution
  import opened Epoch
  import opened EndToEnd
  import opened Resolver

  /** What the control block of a producer says about its definitions. */
  ghost function WindowOf(producer: EpochProducer): EpochWindow
    reads producer
  {
    EpochWindow(producer.epochId, producer.epochFirstAbs, producer.definitionHash, producer.prevDefinitionHash)
  }

  /** Some transition was completed after record `i`. */
  predicate RestartsAfter(log: seq<Record>, i: nat) {
    exists j | i < j < |log| :: Started(log[j])
  }

  /** A record is resolved against the current definition exactly when no transition was completed after it was
  written. The hash asked for is then the new one of the last announcement before it; for any other record it is the
  old one of the last announcement, the first after it unless it is older than two transitions. */
  lemma RightDefinition(producer: EpochProducer, i: nat)
    requires producer.Valid() && producer.ring.bytes.Length >= 80 && producer.wellUsed && i < |producer.ring.hist|
    ensures var log, h, w := producer.Log(), producer.ring.hist, WindowOf(producer);
            && (EpochAt(h[i].start, w).Current? <==> !RestartsAfter(log, i))
            && (forall j: nat | LastRestart(log, j) ::
                  && j > 0 && Carries(log[j - 1], KEY_DEF_HASH_OLD, w.prevDefinitionHash)
                  && Carries(log[j - 1], KEY_DEF_HASH_NEW, w.definitionHash)
                  && (EpochAt(h[i].start, w).Current? <==> j <= i))
            && ((forall j | 0 <= j < |log| :: !Started(log[j])) ==> w.definitionHash == NO_HASH)
  {
    hide GapFree, Quiet, Marked, Grammar, EpochProducer.Valid, Carries;
    GoodLog(producer);
    var log, h, cap := producer.Log(), producer.ring.hist, producer.ring.bytes.Length;
    LaidOut(producer);
    forall j: nat | LastRestart(log, j)
      ensures h[i].start >= h[j].start <==> j <= i
    {
      StartsInOrder(cap, h, i, j);
    }
    if j: nat :| LastRestart(log, j) {
      assert RestartsAfter(log, i) <==> i < j;
    } else {
      NoRestart(log, i);
    }
  }

  lemma LaidOut(producer: EpochProducer)
    requires producer.Valid()
    ensures Laid(producer.ring.bytes.Length, producer.ring.hist)
    ensures producer.Log() == RecordsOf(producer.ring.hist)
  {
    hide Sound, PhaseOf, InForce, RingBuffer.Valid;
    LiveRing(producer.ring);
  }

  lemma LiveRing(ring: RingBuffer)
    requires ring.Valid()
    ensures Laid(ring.bytes.Length, ring.hist)
  {
  }

  lemma StartsInOrder(cap: nat, h: seq<Entry>, i: nat, j: nat)
    requires Laid(cap, h) && i < |h| && j < |h|
    ensures h[i].start >= h[j].start <==> j <= i
  {
    if i < j {
      Ordered(cap, h, i, j);
    } else if j < i {
      Ordered(cap, h, j, i);
    }
  }

  /** Without a last `LoggerStarted` there is none. */
  lemma NoRestart(log: seq<Record>, i: nat)
    requires forall j: nat :: !LastRestart(log, j)
    ensures forall j | 0 <= j < |log| :: !Started(log[j])
    ensures !RestartsAfter(log, i)
  {
    LastExists(log);
  }

  /** If there is any, there is a last one. */
  lemma LastExists(log: seq<Record>)
    ensures (exists j :: 0 <= j < |log| && Started(log[j])) ==> exists j: nat :: LastRestart(log, j)
  {
    if exists j :: 0 <= j < |log| && Started(log[j]) {
      var j := LastOf(log, |log|);
      assert LastRestart(log, j);
    }
  }

  lemma {:induction false} LastOf(log: seq<Record>, n: nat) returns (j: nat)
    requires n <= |log| && exists i :: 0 <= i < n && Started(log[i])
    ensures j < n && Started(log[j]) && forall i | j < i < n :: !Started(log[i])
  {
    if Started(log[n - 1]) {
      j := n - 1;
    } else {
      var i :| 0 <= i < n && Started(log[i]);
      assert i < n - 1;
      j := LastOf(log, n - 1);
    }
  }
}
