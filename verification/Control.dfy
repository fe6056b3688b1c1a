/** The 88-byte control block: its image and the checks of a snapshot. */
module Control {
  import opened Bytes
  import opened Reads

  const CONTROL_BLOCK_LEN: nat := 88
  /** ASCII `OOT2`. */
  const CONTROL_BLOCK_SYNC: seq<byte> := [0x4F, 0x4F, 0x54, 0x32]

  type Hash = s: seq<byte> | |s| == 8 witness [0, 0, 0, 0, 0, 0, 0, 0]

  const NO_HASH: Hash := [0, 0, 0, 0, 0, 0, 0, 0]

  datatype Snapshot = Snapshot(
    version: byte, caps: byte, bufferId: u32, bufferBytes: u32, headAbs: u64, oldestAbs: u64, lostCount: u64,
    runId: u64, epochId: u64, epochFirstAbs: u64, definitionHash: Hash, prevDefinitionHash: Hash)

  /** The first 24 bytes: everything up to the counters. */
  function ImageHeader(s: Snapshot, seqLock: u32): (bytes: seq<byte>)
    ensures |bytes| == 24
  {
    CONTROL_BLOCK_SYNC + [s.version, s.caps] + Zeros(2) + ToLe(s.bufferId, 4) + ToLe(s.bufferBytes, 4)
    + ToLe(seqLock, 4) + Zeros(4)
  }

  /** The remaining 64 bytes. */
  function ImageCounters(s: Snapshot): (bytes: seq<byte>)
    ensures |bytes| == 64
  {
    ToLe(s.headAbs, 8) + ToLe(s.oldestAbs, 8) + ToLe(s.lostCount, 8) + ToLe(s.runId, 8) + ToLe(s.epochId, 8)
    + ToLe(s.epochFirstAbs, 8) + s.definitionHash + s.prevDefinitionHash
  }

  /** The control block showing `s` under the lock word `seqLock`. */
  function ControlImage(s: Snapshot, seqLock: u32): (bytes: seq<byte>)
    ensures |bytes| == CONTROL_BLOCK_LEN
  {
    ImageHeader(s, seqLock) + ImageCounters(s)
  }

  /** Copies `data` to `offset`; what lies before and after stays. */
  method WriteAt(bytes: array<byte>, offset: nat, data: seq<byte>)
    requires offset + |data| <= bytes.Length
    modifies bytes
    ensures bytes[..offset + |data|] == old(bytes[..offset]) + data
    ensures bytes[offset + |data|..] == old(bytes[offset + |data|..])
  {
    for i := 0 to |data|
      invariant bytes[..offset] == old(bytes[..offset])
      invariant bytes[offset..offset + i] == data[..i]
      invariant bytes[offset + i..] == old(bytes[offset + i..])
    {
      bytes[offset + i] := data[i];
    }
    assert bytes[..offset + |data|] == bytes[..offset] + bytes[offset..offset + |data|];
  }

  /** Writes the field at `offset`, behind the bytes `done` so far; the rest stays zero. */
  method WriteField(bytes: array<byte>, offset: nat, data: seq<byte>, ghost done: seq<byte>)
    requires bytes.Length == CONTROL_BLOCK_LEN && offset == |done| && offset + |data| <= CONTROL_BLOCK_LEN
    requires bytes[..] == done + Zeros(CONTROL_BLOCK_LEN - offset)
    modifies bytes
    ensures bytes[..] == (done + data) + Zeros(CONTROL_BLOCK_LEN - offset - |data|)
  {
    hide Zeros;
    ghost var m := offset + |data|;
    ghost var was := bytes[..];
    assert was[..offset] == done;
    ZerosTail(was, done, m);
    assert bytes[m..] == was[m..];
    WriteAt(bytes, offset, data);
    assert bytes[..] == bytes[..m] + bytes[m..];
  }

  lemma ZerosTail(s: seq<byte>, done: seq<byte>, m: nat)
    requires |done| <= m <= |s| && s == done + Zeros(|s| - |done|)
    ensures s[m..] == Zeros(|s| - m)
  {
  }

  /** A gap left untouched is a field of zeros. */
  lemma ZerosGap(done: seq<byte>, n: nat, m: nat)
    requires n <= m
    ensures done + Zeros(m) == (done + Zeros(n)) + Zeros(m - n)
  {
  }

  /** The block holds `done` and zeros from there on. */
  ghost predicate Done(bytes: array<byte>, done: seq<byte>)
    reads bytes
  {
    bytes.Length == CONTROL_BLOCK_LEN >= |done| && bytes[..] == done + Zeros(CONTROL_BLOCK_LEN - |done|)
  }

  method EncodeHeader(bytes: array<byte>, s: Snapshot, seqLock: u32)
    requires Done(bytes, [])
    modifies bytes
    ensures Done(bytes, ImageHeader(s, seqLock))
  {
    hide Zeros, ToLe;
    ghost var done: seq<byte> := [];
    WriteField(bytes, 0, CONTROL_BLOCK_SYNC, done);
    done := CONTROL_BLOCK_SYNC;
    WriteField(bytes, 4, [s.version, s.caps], done);
    done := done + [s.version, s.caps];
    ZerosGap(done, 2, 82);
    done := done + Zeros(2);
    WriteField(bytes, 8, ToLe(s.bufferId, 4), done);
    done := done + ToLe(s.bufferId, 4);
    WriteField(bytes, 12, ToLe(s.bufferBytes, 4), done);
    done := done + ToLe(s.bufferBytes, 4);
    WriteField(bytes, 16, ToLe(seqLock, 4), done);
    done := done + ToLe(seqLock, 4);
    ZerosGap(done, 4, 68);
  }

  method EncodeCounters(bytes: array<byte>, s: Snapshot, ghost header: seq<byte>)
    requires |header| == 24 && Done(bytes, header)
    modifies bytes
    ensures Done(bytes, header + ImageCounters(s))
  {
    hide Zeros, ToLe;
    ghost var part: seq<byte> := ToLe(s.headAbs, 8);
    WriteField(bytes, 24, ToLe(s.headAbs, 8), header);
    WriteField(bytes, 32, ToLe(s.oldestAbs, 8), header + part);
    Grow(header, part, ToLe(s.oldestAbs, 8));
    part := part + ToLe(s.oldestAbs, 8);
    WriteField(bytes, 40, ToLe(s.lostCount, 8), header + part);
    Grow(header, part, ToLe(s.lostCount, 8));
    part := part + ToLe(s.lostCount, 8);
    WriteField(bytes, 48, ToLe(s.runId, 8), header + part);
    Grow(header, part, ToLe(s.runId, 8));
    part := part + ToLe(s.runId, 8);
    WriteField(bytes, 56, ToLe(s.epochId, 8), header + part);
    Grow(header, part, ToLe(s.epochId, 8));
    part := part + ToLe(s.epochId, 8);
    WriteField(bytes, 64, ToLe(s.epochFirstAbs, 8), header + part);
    Grow(header, part, ToLe(s.epochFirstAbs, 8));
    part := part + ToLe(s.epochFirstAbs, 8);
    WriteField(bytes, 72, s.definitionHash, header + part);
    Grow(header, part, s.definitionHash);
    part := part + s.definitionHash;
    WriteField(bytes, 80, s.prevDefinitionHash, header + part);
    Grow(header, part, s.prevDefinitionHash);
  }

  lemma Grow(header: seq<byte>, part: seq<byte>, data: seq<byte>)
    ensures (header + part) + data == header + (part + data)
  {
  }

  /** `ControlBlockSnapshot::encode`: field by field into a zeroed block. */
  method EncodeControl(s: Snapshot, seqLock: u32) returns (bytes: array<byte>)
    requires seqLock % 2 == 0
    ensures fresh(bytes) && bytes[..] == ControlImage(s, seqLock)
  {
    hide ImageHeader, ImageCounters;
    bytes := new byte[CONTROL_BLOCK_LEN](_ => 0);
    assert bytes[..] == [] + Zeros(CONTROL_BLOCK_LEN);
    EncodeHeader(bytes, s, seqLock);
    EncodeCounters(bytes, s, ImageHeader(s, seqLock));
  }

  // ---- Snapshots -----------------------------------------------------------------

  /** The fields of an 88-byte image. */
  function SnapshotAt(bytes: seq<byte>): Snapshot
    requires |bytes| >= CONTROL_BLOCK_LEN
  {
    Snapshot(bytes[4], bytes[5], ReadU32(bytes, 8), ReadU32(bytes, 12), ReadU64(bytes, 24), ReadU64(bytes, 32),
             ReadU64(bytes, 40), ReadU64(bytes, 48), ReadU64(bytes, 56), ReadU64(bytes, 64), bytes[72..80],
             bytes[80..88])
  }

  /** `ControlBlockSnapshot::decode_with_locks`: the image with the lock words read before and after it. */
  function DecodeWithLocks(bytes: seq<byte>, first: u32, second: u32): Result<Snapshot, ControlError> {
    if |bytes| < CONTROL_BLOCK_LEN then Err(ControlTruncated(CONTROL_BLOCK_LEN, |bytes|))
    else if bytes[0..4] != CONTROL_BLOCK_SYNC then Err(ControlWrongSync)
    else if first % 2 != 0 then Err(Updating(first))
    else if first != second then Err(StaleSnapshot(first, second))
    else if ReadU32(bytes, 16) != first then Err(StaleSnapshot(first, ReadU32(bytes, 16)))
    else if bytes[6..8] != [0, 0] || bytes[20..24] != [0, 0, 0, 0] then Err(ReservedNonZero)
    else Ok(SnapshotAt(bytes))
  }

  /** Splits the last field off a run of fields that starts at `lo`. */
  lemma Peel(bytes: seq<byte>, lo: nat, fields: seq<byte>, last: seq<byte>, at: nat)
    requires at == lo + |fields| && at + |last| <= |bytes| && bytes[lo..at + |last|] == fields + last
    ensures bytes[lo..at] == fields && bytes[at..at + |last|] == last
  {
    Slices(bytes, lo, at + |last|, 0, |fields|);
    Slices(bytes, lo, at + |last|, |fields|, |fields| + |last|);
    assert (fields + last)[0..|fields|] == fields;
    assert (fields + last)[|fields|..|fields| + |last|] == last;
  }

  /** Joins two neighbouring slices. */
  lemma Join(bytes: seq<byte>, lo: nat, mid: nat, hi: nat)
    requires lo <= mid <= hi <= |bytes|
    ensures bytes[lo..hi] == bytes[lo..mid] + bytes[mid..hi]
  {
  }

  lemma FourBack(bytes: seq<byte>, at: nat, n: u32)
    requires at + 4 <= |bytes| && bytes[at..at + 4] == ToLe(n, 4)
    ensures ReadU32(bytes, at) == n
  {
    hide ToLe, FromLe;
    Widths();
    FromToLe(n, 4);
  }

  lemma EightBack(bytes: seq<byte>, at: nat, n: u64)
    requires at + 8 <= |bytes| && bytes[at..at + 8] == ToLe(n, 8)
    ensures ReadU64(bytes, at) == n
  {
    hide ToLe, FromLe;
    Widths();
    FromToLe(n, 8);
  }

  lemma FourForth(bytes: seq<byte>, at: nat)
    requires at + 4 <= |bytes|
    ensures bytes[at..at + 4] == ToLe(ReadU32(bytes, at), 4)
  {
    hide ToLe, FromLe;
    ToFromLe(bytes[at..at + 4]);
  }

  lemma EightForth(bytes: seq<byte>, at: nat)
    requires at + 8 <= |bytes|
    ensures bytes[at..at + 8] == ToLe(ReadU64(bytes, at), 8)
  {
    hide ToLe, FromLe;
    ToFromLe(bytes[at..at + 8]);
  }

  /** Reading back the head of an image. */
  lemma HeaderBack(s: Snapshot, seqLock: u32, bytes: seq<byte>)
    requires |bytes| >= CONTROL_BLOCK_LEN && bytes[0..24] == ImageHeader(s, seqLock)
    ensures bytes[0..4] == CONTROL_BLOCK_SYNC && bytes[4] == s.version && bytes[5] == s.caps
    ensures bytes[6..8] == [0, 0] && bytes[20..24] == [0, 0, 0, 0]
    ensures ReadU32(bytes, 8) == s.bufferId && ReadU32(bytes, 12) == s.bufferBytes && ReadU32(bytes, 16) == seqLock
  {
    hide ToLe, Zeros, ReadU32;
    var a := CONTROL_BLOCK_SYNC;
    var b := a + [s.version, s.caps];
    var c := b + Zeros(2);
    var d := c + ToLe(s.bufferId, 4);
    var e := d + ToLe(s.bufferBytes, 4);
    var f := e + ToLe(seqLock, 4);
    Peel(bytes, 0, f, Zeros(4), 20);
    Peel(bytes, 0, e, ToLe(seqLock, 4), 16);
    Peel(bytes, 0, d, ToLe(s.bufferBytes, 4), 12);
    Peel(bytes, 0, c, ToLe(s.bufferId, 4), 8);
    Peel(bytes, 0, b, Zeros(2), 6);
    Peel(bytes, 0, a, [s.version, s.caps], 4);
    assert bytes[4] == bytes[4..6][0] && bytes[5] == bytes[4..6][1];
    FourBack(bytes, 8, s.bufferId);
    FourBack(bytes, 12, s.bufferBytes);
    FourBack(bytes, 16, seqLock);
    SmallZeros();
  }

  lemma SmallZeros()
    ensures Zeros(2) == [0, 0] && Zeros(4) == [0, 0, 0, 0]
  {
  }

  lemma CountersBack(s: Snapshot, bytes: seq<byte>)
    requires |bytes| >= CONTROL_BLOCK_LEN && bytes[24..88] == ImageCounters(s)
    ensures ReadU64(bytes, 24) == s.headAbs && ReadU64(bytes, 32) == s.oldestAbs && ReadU64(bytes, 40) == s.lostCount
    ensures ReadU64(bytes, 48) == s.runId && ReadU64(bytes, 56) == s.epochId && ReadU64(bytes, 64) == s.epochFirstAbs
    ensures bytes[72..80] == s.definitionHash && bytes[80..88] == s.prevDefinitionHash
  {
    hide ToLe, ReadU64;
    var a := ToLe(s.headAbs, 8);
    var b := a + ToLe(s.oldestAbs, 8);
    var c := b + ToLe(s.lostCount, 8);
    var d := c + ToLe(s.runId, 8);
    var e := d + ToLe(s.epochId, 8);
    var f := e + ToLe(s.epochFirstAbs, 8);
    var g := f + s.definitionHash;
    Peel(bytes, 24, g, s.prevDefinitionHash, 80);
    Peel(bytes, 24, f, s.definitionHash, 72);
    Peel(bytes, 24, e, ToLe(s.epochFirstAbs, 8), 64);
    Peel(bytes, 24, d, ToLe(s.epochId, 8), 56);
    Peel(bytes, 24, c, ToLe(s.runId, 8), 48);
    Peel(bytes, 24, b, ToLe(s.lostCount, 8), 40);
    Peel(bytes, 24, a, ToLe(s.oldestAbs, 8), 32);
    EightBack(bytes, 24, s.headAbs);
    EightBack(bytes, 32, s.oldestAbs);
    EightBack(bytes, 40, s.lostCount);
    EightBack(bytes, 48, s.runId);
    EightBack(bytes, 56, s.epochId);
    EightBack(bytes, 64, s.epochFirstAbs);
  }

  /** The control block by its byte offsets. */
  lemma ControlBytes(s: Snapshot, seqLock: u32)
    ensures var b := ControlImage(s, seqLock);
            && |b| == 88 && b[0..4] == [0x4F, 0x4F, 0x54, 0x32] && b[4] == s.version && b[5] == s.caps
            && b[6..8] == [0, 0] && b[20..24] == [0, 0, 0, 0]
            && ReadU32(b, 8) == s.bufferId && ReadU32(b, 12) == s.bufferBytes && ReadU32(b, 16) == seqLock
            && ReadU64(b, 24) == s.headAbs && ReadU64(b, 32) == s.oldestAbs && ReadU64(b, 40) == s.lostCount
            && ReadU64(b, 48) == s.runId && ReadU64(b, 56) == s.epochId && ReadU64(b, 64) == s.epochFirstAbs
            && b[72..80] == s.definitionHash && b[80..88] == s.prevDefinitionHash
  {
    hide ImageHeader, ImageCounters, ReadU32, ReadU64;
    var b := ControlImage(s, seqLock);
    assert b[0..24] == ImageHeader(s, seqLock) && b[24..88] == ImageCounters(s);
    HeaderBack(s, seqLock, b);
    CountersBack(s, b);
  }

  /** Why a block is refused, in this order: cut off, no sync bytes, an update in progress, another lock word after it,
  another lock word in it, reserved bytes that are not zero. */
  lemma SnapshotErrors(bytes: seq<byte>, first: u32, second: u32)
    ensures var res := DecodeWithLocks(bytes, first, second);
            if |bytes| < 88 then res == Err(ControlTruncated(88, |bytes|))
            else
              var inside := FromLe(bytes[16..20]);
              if bytes[0..4] != [0x4F, 0x4F, 0x54, 0x32] then res == Err(ControlWrongSync)
              else if first % 2 == 1 then res == Err(Updating(first))
              else if first != second then res == Err(StaleSnapshot(first, second))
              else if first != inside then res == Err(StaleSnapshot(first, inside))
              else res.Err? <==> res == Err(ReservedNonZero) && bytes[6..8] + bytes[20..24] != [0, 0, 0, 0, 0, 0]
  {
    hide SnapshotAt, FromLe;
    if |bytes| >= 88 {
      var a, b := bytes[6..8], bytes[20..24];
      assert a + b == [0, 0, 0, 0, 0, 0] <==> a == [0, 0] && b == [0, 0, 0, 0] by {
        assert (a + b)[..2] == a && (a + b)[2..] == b;
      }
    }
  }

  lemma HeaderForth(s: Snapshot, seqLock: u32, bytes: seq<byte>)
    requires |bytes| >= CONTROL_BLOCK_LEN && bytes[0..4] == CONTROL_BLOCK_SYNC && s == SnapshotAt(bytes)
    requires bytes[6..8] == [0, 0] && bytes[20..24] == [0, 0, 0, 0] && ReadU32(bytes, 16) == seqLock
    ensures bytes[0..24] == ImageHeader(s, seqLock)
  {
    hide ToLe, Zeros, ReadU32, ReadU64;
    FourForth(bytes, 8);
    FourForth(bytes, 12);
    FourForth(bytes, 16);
    SmallZeros();
    assert bytes[4..6] == [s.version, s.caps];
    Join(bytes, 0, 4, 6);
    Join(bytes, 0, 6, 8);
    Join(bytes, 0, 8, 12);
    Join(bytes, 0, 12, 16);
    Join(bytes, 0, 16, 20);
    Join(bytes, 0, 20, 24);
  }

  lemma CountersForth(s: Snapshot, bytes: seq<byte>)
    requires |bytes| >= CONTROL_BLOCK_LEN && s == SnapshotAt(bytes)
    ensures bytes[24..88] == ImageCounters(s)
  {
    hide ToLe, ReadU32, ReadU64;
    EightForth(bytes, 24);
    EightForth(bytes, 32);
    EightForth(bytes, 40);
    EightForth(bytes, 48);
    EightForth(bytes, 56);
    EightForth(bytes, 64);
    Join(bytes, 24, 32, 40);
    Join(bytes, 24, 40, 48);
    Join(bytes, 24, 48, 56);
    Join(bytes, 24, 56, 64);
    Join(bytes, 24, 64, 72);
    Join(bytes, 24, 72, 80);
    Join(bytes, 24, 80, 88);
  }

  /** A snapshot is accepted exactly when both lock words are the same even number and the block is the image of that
  snapshot under that number. */
  lemma AcceptedSnapshots(bytes: seq<byte>, first: u32, second: u32, s: Snapshot)
    ensures DecodeWithLocks(bytes, first, second) == Ok(s)
            <==> |bytes| >= CONTROL_BLOCK_LEN && first == second && first % 2 == 0
                 && bytes[..CONTROL_BLOCK_LEN] == ControlImage(s, first)
  {
    hide ImageHeader, ImageCounters, FromLe, ReadU32, ReadU64;
    if |bytes| >= CONTROL_BLOCK_LEN {
      Join(bytes, 0, 24, 88);
      assert bytes[..88] == bytes[0..88];
      if DecodeWithLocks(bytes, first, second) == Ok(s) {
        HeaderForth(s, first, bytes);
        CountersForth(s, bytes);
      }
      if bytes[..88] == ControlImage(s, first) {
        Peel(bytes, 0, ImageHeader(s, first), ImageCounters(s), 24);
        HeaderBack(s, first, bytes);
        CountersBack(s, bytes);
      }
    }
  }
}
