/** Consumers of a sequential ring: they read what is new and account for it. */
module Consumers {
  import opened Bytes
  import opened Wire
  import opened Codec
  import opened Layout
  import opened Reads
  import opened Ring
  import opened Loss

  /** The records of a batch. */
  function Contents(batch: seq<ReadRecord>): seq<Record> {
    seq(|batch|, i requires 0 <= i < |batch| => batch[i].record)
  }

  /** What a reader sees of an entry. */
  function Seen(e: Entry): Record {
    Normalised(e.record, true)
  }

  /** Everything accounted was written, and everything that was still retained at the last poll is accounted. */
  ghost predicate CaughtUp(cap: nat, h: seq<Entry>, polled: nat, accounted: seq<Record>) {
    && polled <= |h|
    && (forall a | a in accounted :: WrittenBefore(h, polled, a))
    && (forall i | 0 <= i < polled && h[i].start >= Oldest(cap, h[..polled]) :: Seen(h[i]) in accounted)
  }

  ghost predicate WrittenBefore(h: seq<Entry>, polled: nat, a: Record)
    requires polled <= |h|
  {
    exists i | 0 <= i < polled :: a == Seen(h[i])
  }

  /** A record of the window is an entry of the history, and conversely. */
  lemma {:induction false} WindowMember(h: seq<Entry>, lo: nat, r: Record)
    ensures r in Contents(Window(h, lo)) <==> exists i | 0 <= i < |h| :: h[i].start >= lo && r == Seen(h[i])
  {
    if h == [] {
    } else {
      var n := |h| - 1;
      WindowMember(h[..n], lo, r);
      var w, last := Window(h[..n], lo), if h[n].start >= lo then [Seen(h[n])] else [];
      assert Contents(Window(h, lo)) == Contents(w) + last;
      assert r in Contents(w) + last <==> r in Contents(w) || r in last;
      assert forall i | 0 <= i < n :: h[..n][i] == h[i];
    }
  }

  /** A poll that starts where the last one ended, of a ring that has grown since. */
  lemma PollCatchesUp(cap: nat, h: seq<Entry>, polled: nat, accounted: seq<Record>, batch: seq<ReadRecord>)
    requires Laid(cap, h) && CaughtUp(cap, h, polled, accounted)
    requires batch == Window(h, Max(HeadAt(h, polled), Oldest(cap, h)))
    ensures CaughtUp(cap, h, |h|, accounted + Contents(batch))
  {
    hide Oldest, Laid, Window;
    var lo := Max(HeadAt(h, polled), Oldest(cap, h));
    assert h[..|h|] == h;
    forall a | a in accounted + Contents(batch)
      ensures WrittenBefore(h, |h|, a)
    {
      if a in accounted {
        assert WrittenBefore(h, polled, a);
        var i :| 0 <= i < polled && a == Seen(h[i]);
      } else {
        WindowMember(h, lo, a);
        var i :| 0 <= i < |h| && h[i].start >= lo && a == Seen(h[i]);
      }
    }
    forall i | 0 <= i < |h| && h[i].start >= Oldest(cap, h)
      ensures Seen(h[i]) in accounted + Contents(batch)
    {
      if i < polled {
        OldestGrows(cap, h, polled);
      } else {
        if polled < i && polled > 0 {
          Ordered(cap, h, polled - 1, i);
        } else {
          LaidFits(cap, h, i);
        }
        assert h[i].start >= lo;
        WindowMember(h, lo, Seen(h[i]));
      }
    }
  }

  /** The oldest offset of a longer history is not lower. */
  lemma {:induction false} OldestGrows(cap: nat, h: seq<Entry>, n: nat)
    requires Laid(cap, h) && n <= |h|
    ensures Oldest(cap, h[..n]) <= Oldest(cap, h)
    decreases |h| - n
  {
    hide Oldest, Laid, Evicted;
    if n < |h| {
      OldestGrows(cap, h, n + 1);
      LaidPrefix(cap, h, n);
      LaidPrefix(cap, h, n + 1);
      assert h[..n + 1] == h[..n] + [h[n]];
      EvictedGrows(cap, h[..n], h[n]);
    } else {
      assert h[..n] == h;
    }
  }

  /** Writing more does not affect what has been caught up with. */
  lemma StaysCaughtUp(cap: nat, h: seq<Entry>, h': seq<Entry>, polled: nat, accounted: seq<Record>)
    requires CaughtUp(cap, h, polled, accounted) && |h| <= |h'| && h'[..|h|] == h
    ensures CaughtUp(cap, h', polled, accounted) && HeadAt(h', polled) == HeadAt(h, polled)
  {
    hide Oldest;
    assert h'[..polled] == h[..polled];
    assert forall i | 0 <= i < |h| :: h'[i] == h[i];
    forall a | a in accounted
      ensures WrittenBefore(h', polled, a)
    {
      assert WrittenBefore(h, polled, a);
    }
  }

  class Consumer {
    const tracker: LossTracker
    var cursorAbs: nat
    /** Every record accounted so far. */
    ghost var accounted: seq<Record>
    /** How many records had been written at the last poll. */
    ghost var polled: nat

    /** The accounts are those of the records accounted. */
    ghost predicate Valid()
      reads this, tracker
    {
      tracker.Accounts(accounted)
    }

    /** The consumer follows a ring of `cap` bytes with history `h`. */
    ghost predicate Tracks(cap: nat, h: seq<Entry>)
      reads this
    {
      CaughtUp(cap, h, polled, accounted) && cursorAbs == HeadAt(h, polled)
    }

    constructor (bufferId: u32)
      ensures Valid() && fresh(tracker) && tracker.bufferId == bufferId && cursorAbs == 0 && accounted == []
              && polled == 0
    {
      tracker := new LossTracker(bufferId);
      cursorAbs, accounted, polled := 0, [], 0;
    }

    /** Accounts every record of a batch and moves the cursor to its end. */
    method AccountBatch(batch: ReadBatch)
      requires Valid()
      modifies this`cursorAbs, this`accounted, tracker
      ensures Valid() && cursorAbs == batch.nextAbs && accounted == old(accounted) + Contents(batch.records)
    {
      hide LossTracker.Accounts;
      for i := 0 to |batch.records|
        invariant Valid() && accounted == old(accounted) + Contents(batch.records[..i])
      {
        tracker.Account(batch.records[i].record, accounted);
        accounted := accounted + [batch.records[i].record];
        assert Contents(batch.records[..i + 1]) == Contents(batch.records[..i]) + [batch.records[i].record];
      }
      assert batch.records[..|batch.records|] == batch.records;
      cursorAbs := batch.nextAbs;
    }

    /** Reads through the raw bytes of a ring. A consumer that follows the ring gets everything new that is retained. */
    method PollRaw(ring: RingBuffer, ghost h: seq<Entry>) returns (res: Result<ReadBatch, RingError>)
      requires Valid() && ring.bytes.Length > 0
      modifies this, tracker
      ensures Valid()
      ensures old(ring.Shows(h, ring.headAbs, ring.oldestAbs) && Tracks(ring.bytes.Length, h))
              ==> res == Ok(BatchOf(ring.bytes.Length, h, old(cursorAbs)))
                  && Tracks(ring.bytes.Length, h) && polled == |h|
      ensures res.Err? ==> accounted == old(accounted) && cursorAbs == old(cursorAbs)
      ensures res.Ok? ==> accounted == old(accounted) + Contents(res.value.records) && cursorAbs == res.value.nextAbs
    {
      hide LossTracker.Accounts, CaughtUp, History, Oldest, PastHead, Window;
      ghost var follows := ring.Shows(h, ring.headAbs, ring.oldestAbs) && Tracks(ring.bytes.Length, h);
      if follows {
        TrackStep(ring.bytes.Length, h, polled, accounted, cursorAbs);
      }
      res := ring.ReadRawFrom(cursorAbs, h);
      if res.Ok? {
        if follows {
          polled := |h|;
        }
        AccountBatch(res.value);
      }
    }

    /** Reads through a control snapshot. */
    method PollSnapshot(ring: RingBuffer, bufferBytes: u32, head: nat, oldest: nat, ghost h: seq<Entry>)
      returns (res: Result<ReadBatch, RingError>)
      requires Valid() && ring.bytes.Length > 0
      modifies this, tracker
      ensures Valid()
      ensures bufferBytes != ring.bytes.Length
              ==> res == Err(ControlBlockCapacityMismatch(bufferBytes, ring.bytes.Length))
      ensures bufferBytes == ring.bytes.Length && old(ring.Shows(h, head, oldest) && Tracks(ring.bytes.Length, h))
              ==> res == Ok(BatchOf(ring.bytes.Length, h, old(cursorAbs)))
                  && Tracks(ring.bytes.Length, h) && polled == |h|
      ensures res.Err? ==> accounted == old(accounted) && cursorAbs == old(cursorAbs)
      ensures res.Ok? ==> accounted == old(accounted) + Contents(res.value.records) && cursorAbs == res.value.nextAbs
    {
      hide LossTracker.Accounts, CaughtUp, History, Oldest, PastHead, Window;
      ghost var follows := bufferBytes == ring.bytes.Length && ring.Shows(h, head, oldest)
          && Tracks(ring.bytes.Length, h);
      if follows {
        TrackStep(ring.bytes.Length, h, polled, accounted, cursorAbs);
      }
      res := ring.ReadRawFromSnapshot(cursorAbs, bufferBytes, head, oldest, h);
      if res.Ok? {
        if follows {
          polled := |h|;
        }
        AccountBatch(res.value);
      }
    }

    /** Reads through the in-memory index. */
    method PollIndex(ring: RingBuffer) returns (res: Result<ReadBatch, RingError>)
      requires Valid() && ring.Valid()
      modifies this, tracker
      ensures Valid() && res == Ok(BatchOf(ring.bytes.Length, ring.hist, old(cursorAbs)))
      ensures old(Tracks(ring.bytes.Length, ring.hist))
              ==> Tracks(ring.bytes.Length, ring.hist) && polled == |ring.hist|
      ensures accounted == old(accounted) + Contents(res.value.records) && cursorAbs == res.value.nextAbs
    {
      hide LossTracker.Accounts, CaughtUp, Oldest, PastHead, Window, Kept, Fields;
      res := ring.ReadFrom(cursorAbs);
      if Tracks(ring.bytes.Length, ring.hist) {
        TrackStep(ring.bytes.Length, ring.hist, polled, accounted, cursorAbs);
        polled := |ring.hist|;
      }
      AccountBatch(res.value);
    }
  }

  /** The cursor of a follower is a past head, and its next batch catches up. */
  lemma TrackStep(cap: nat, h: seq<Entry>, polled: nat, accounted: seq<Record>, cursor: nat)
    requires History(cap, h) && CaughtUp(cap, h, polled, accounted) && cursor == HeadAt(h, polled)
    ensures PastHead(h, cursor)
    ensures CaughtUp(cap, h, |h|, accounted + Contents(BatchOf(cap, h, cursor).records))
    ensures BatchOf(cap, h, cursor).nextAbs == HeadAt(h, |h|)
  {
    hide Oldest, Window, EncodedEntry;
    PollCatchesUp(cap, h, polled, accounted, BatchOf(cap, h, cursor).records);
  }
}
