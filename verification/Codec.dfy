/** The encoder and the validating decoder are inverse to each other, and the checksum guards every short burst. */
module Codec {
  import opened Bytes
  import opened Crc
  import opened Wire

  // ---- Slots -----------------------------------------------------------

  lemma SlotLayout(slot: Slot, rest: seq<byte>, n: nat)
    requires |slot.payload| <= U8_MAX && n == |slot.payload|
    ensures var body := EncodeSlot(slot) + rest;
            && body[0..2] == ToLe(slot.key, 2) && body[2] == slot.ty && body[3] == n
            && body[4..4 + n] == slot.payload
            && body[4 + n..4 + n + PaddingLen(n)] == Zeros(PaddingLen(n))
            && body[4 + n + PaddingLen(n)..] == rest
  {
    var a, b, c, d := ToLe(slot.key, 2), [slot.ty, n], slot.payload, Zeros(PaddingLen(n));
    assert EncodeSlot(slot) == a + b + c + d;
  }

  /** One encoded slot in front of parsable bytes. */
  lemma ParseOne(slot: Slot, rest: seq<byte>, base: nat)
    requires |slot.payload| <= U8_MAX && ParseSlots(rest, base + |EncodeSlot(slot)|).Ok?
    ensures ParseSlots(EncodeSlot(slot) + rest, base) == Ok([slot] + ParseSlots(rest, base + |EncodeSlot(slot)|).value)
  {
    var n := |slot.payload|;
    SlotLayout(slot, rest, n);
    Widths();
    FromToLe(slot.key, 2);
    var body := EncodeSlot(slot) + rest;
    assert FirstNonZero(body[4 + n..4 + n + PaddingLen(n)]).None?;
    var turn := SlotAt(body, base);
    assert turn == Ok(|EncodeSlot(slot)|);
  }

  lemma {:induction false} ParseEncoded(slots: seq<Slot>, base: nat, r: Result<seq<Slot>, WireError>)
    requires SlotsFit(slots) && r == ParseSlots(EncodeSlots(slots), base)
    ensures r == Ok(slots)
  {
    hide ParseSlots, EncodeSlots, EncodeSlot, SlotsFit;
    if slots == [] {
      NothingParsed([], base);
    } else {
      var first, rest := slots[0], slots[1..];
      EncodeFront(slots);
      var next := base + |EncodeSlot(first)|;
      ParseEncoded(rest, next, ParseSlots(EncodeSlots(rest), next));
      ParseOne(first, EncodeSlots(rest), base);
      assert slots == [first] + rest;
    }
  }

  /** A slot without defect is the encoding of what it is read as. */
  lemma FrontSlot(body: seq<byte>, base: nat)
    requires SlotAt(body, base).Ok?
    ensures var next := SlotAt(body, base).value;
            |SlotOf(body).payload| <= U8_MAX && |EncodeSlot(SlotOf(body))| == next
                && body[..next] == EncodeSlot(SlotOf(body))
  {
    hide ToLe, FromLe, PaddingLen, Zeros;
    var len: nat := body[3];
    var next := 4 + len + PaddingLen(len);
    ToFromLe(body[0..2]);
    assert body[4 + len..next] == Zeros(PaddingLen(len));
    FourParts(body, len, next);
  }

  lemma FourParts(body: seq<byte>, len: nat, next: nat)
    requires 4 + len <= next <= |body|
    ensures body[..next] == body[0..2] + [body[2], body[3]] + body[4..4 + len] + body[4 + len..next]
  {
    assert body[..4] == body[0..2] + [body[2], body[3]];
    assert body[..4 + len] == body[..4] + body[4..4 + len];
    assert body[..next] == body[..4 + len] + body[4 + len..next];
  }

  /** The bytes of the first slot of parsable bytes. */
  lemma EncodeOne(body: seq<byte>, base: nat)
    requires body != [] && ParseSlots(body, base).Ok?
    ensures var slots := ParseSlots(body, base).value;
            && slots != [] && |slots[0].payload| <= U8_MAX && |EncodeSlot(slots[0])| <= |body|
            && body[..|EncodeSlot(slots[0])|] == EncodeSlot(slots[0])
            && ParseSlots(body[|EncodeSlot(slots[0])|..], base + |EncodeSlot(slots[0])|) == Ok(slots[1..])
  {
    var turn := SlotAt(body, base);
    FrontSlot(body, base);
    assert ParseSlots(body, base) == Ok([SlotOf(body)] + ParseSlots(body[turn.value..], base + turn.value).value);
  }

  lemma {:induction false} EncodeParsed(body: seq<byte>, base: nat)
    requires ParseSlots(body, base).Ok?
    ensures SlotsFit(ParseSlots(body, base).value)
    ensures EncodeSlots(ParseSlots(body, base).value) == body
    decreases |body|
  {
    hide ParseSlots, EncodeSlot, EncodeSlots, SlotsFit;
    if body == [] {
      NothingParsed(body, base);
    } else {
      EncodeOne(body, base);
      var slots := ParseSlots(body, base).value;
      var first, rest := slots[0], slots[1..];
      var next := |EncodeSlot(first)|;
      EncodeParsed(body[next..], base + next);
      EncodeFront(slots);
      calc {
        EncodeSlots(slots);
        EncodeSlot(first) + EncodeSlots(rest);
        body[..next] + body[next..];
        body;
      }
    }
  }

  lemma NothingParsed(body: seq<byte>, base: nat)
    requires body == []
    ensures ParseSlots(body, base) == Ok([]) && SlotsFit([]) && EncodeSlots([]) == body
  {
  }

  lemma EncodeFront(slots: seq<Slot>)
    requires slots != []
    ensures SlotsFit(slots) <==> |slots[0].payload| <= U8_MAX && SlotsFit(slots[1..])
    ensures SlotsFit(slots) ==> EncodeSlots(slots) == EncodeSlot(slots[0]) + EncodeSlots(slots[1..])
  {
    hide EncodeSlot;
    assert slots == [slots[0]] + slots[1..];
  }

  // ---- Header ----------------------------------------------------------

  /** The fields of a header, read back at their offsets. */
  predicate HeaderOf(bytes: seq<byte>, totalLen: u16, flags: u16, r: Record) {
    && |bytes| >= HEADER_LEN
    && bytes[..4] == SYNC && ReadU16(bytes, 4) == totalLen && ReadU16(bytes, 6) == flags
    && ReadU64(bytes, 8) == r.sourceTime && ReadU64(bytes, 16) == r.runId && ReadU64(bytes, 24) == r.seqNo
    && ReadU32(bytes, 32) == r.sourceId && ReadU32(bytes, 36) == r.eventTypeId
  }

  lemma HeaderSlices(totalLen: u16, flags: u16, r: Record, bytes: seq<byte>)
    requires |bytes| >= HEADER_LEN && bytes[..HEADER_LEN] == Header(totalLen, flags, r)
    ensures bytes[..4] == SYNC && bytes[4..6] == ToLe(totalLen, 2) && bytes[6..8] == ToLe(flags, 2)
    ensures bytes[8..16] == ToLe(r.sourceTime, 8) && bytes[16..24] == ToLe(r.runId, 8)
    ensures bytes[24..32] == ToLe(r.seqNo, 8) && bytes[32..36] == ToLe(r.sourceId, 4)
    ensures bytes[36..40] == ToLe(r.eventTypeId, 4)
  {
    var h := bytes[..HEADER_LEN];
    assert bytes[..4] == h[..4] && bytes[4..6] == h[4..6] && bytes[6..8] == h[6..8];
    assert bytes[8..16] == h[8..16] && bytes[16..24] == h[16..24] && bytes[24..32] == h[24..32];
    assert bytes[32..36] == h[32..36] && bytes[36..40] == h[36..40];
  }

  lemma HeaderReads(totalLen: u16, flags: u16, r: Record, bytes: seq<byte>)
    requires |bytes| >= HEADER_LEN && bytes[..HEADER_LEN] == Header(totalLen, flags, r)
    ensures HeaderOf(bytes, totalLen, flags, r)
  {
    HeaderSlices(totalLen, flags, r, bytes);
    Widths();
    FromToLe(totalLen, 2);
    FromToLe(flags, 2);
    FromToLe(r.sourceTime, 8);
    FromToLe(r.runId, 8);
    FromToLe(r.seqNo, 8);
    FromToLe(r.sourceId, 4);
    FromToLe(r.eventTypeId, 4);
  }

  lemma HeaderWrites(totalLen: u16, flags: u16, r: Record, bytes: seq<byte>)
    requires HeaderOf(bytes, totalLen, flags, r)
    ensures bytes[..HEADER_LEN] == Header(totalLen, flags, r)
  {
    ToFromLe(bytes[4..6]);
    ToFromLe(bytes[6..8]);
    ToFromLe(bytes[8..16]);
    ToFromLe(bytes[16..24]);
    ToFromLe(bytes[24..32]);
    ToFromLe(bytes[32..36]);
    ToFromLe(bytes[36..40]);
    assert bytes[..40] == bytes[..4] + bytes[4..6] + bytes[6..8] + bytes[8..16] + bytes[16..24] + bytes[24..32]
                          + bytes[32..36] + bytes[36..40];
  }

  // ---- Records ---------------------------------------------------------

  function Normalised(r: Record, withCrc: bool): Record {
    r.(flags := SetCrc(r.flags, withCrc))
  }

  lemma EnvelopeAccepts(r: Record, withCrc: bool, tail: seq<byte>)
    requires Encodable(r, withCrc)
    ensures var bytes := Encoding(r, withCrc) + tail;
            && HeaderOf(bytes, |Encoding(r, withCrc)|, SetCrc(r.flags, withCrc), r)
            && CheckEnvelope(bytes) == Ok(HEADER_LEN + |EncodeSlots(r.slots)|)
            && bytes[HEADER_LEN..HEADER_LEN + |EncodeSlots(r.slots)|] == EncodeSlots(r.slots)
  {
    hide Crc32c, EncodeSlots;
    var total := TotalLen(r.slots, withCrc);
    var header := Header(total, SetCrc(r.flags, withCrc), r);
    var slots := EncodeSlots(r.slots);
    var body := header + slots;
    var bytes := Encoding(r, withCrc) + tail;
    assert bytes[..HEADER_LEN] == header;
    HeaderReads(total, SetCrc(r.flags, withCrc), r, bytes);
    assert bytes[HEADER_LEN..HEADER_LEN + |slots|] == slots;
    if withCrc {
      var trailer := total - CRC_LEN;
      assert bytes[..trailer] == body;
      assert bytes[trailer..trailer + 4] == ToLe(Crc32c(body), 4);
      Widths();
      FromToLe(Crc32c(body), 4);
    }
  }

  /** Decoding an encoding, whatever follows it, returns the record with only the CRC flag normalised. */
  lemma DecodeOfEncoding(r: Record, withCrc: bool, tail: seq<byte>)
    requires Encodable(r, withCrc)
    ensures Decode(Encoding(r, withCrc) + tail) == Ok(Decoded(Normalised(r, withCrc), |Encoding(r, withCrc)|))
  {
    hide Crc32c, Encoding, CheckEnvelope, ParseSlots;
    EnvelopeAccepts(r, withCrc, tail);
    ParseEncoded(r.slots, HEADER_LEN, ParseSlots(EncodeSlots(r.slots), HEADER_LEN));
  }

  /** Re-encoding an accepted byte string with its own CRC flag reproduces exactly the bytes consumed. */
  lemma EncodingOfDecode(bytes: seq<byte>)
    requires Decode(bytes).Ok?
    ensures var d := Decode(bytes).value;
            && Encodable(d.record, HasCrc(d.record.flags))
            && Encoding(d.record, HasCrc(d.record.flags)) == bytes[..d.consumed]
  {
    hide Crc32c, ParseSlots, EncodeSlots, FromLe, ToLe;
    var d := Decode(bytes).value;
    var r, withCrc := d.record, HasCrc(d.record.flags);
    var slotsEnd := CheckEnvelope(bytes).value;
    EncodeParsed(bytes[HEADER_LEN..slotsEnd], HEADER_LEN);
    assert EncodeSlots(r.slots) == bytes[HEADER_LEN..slotsEnd];
    assert TotalLen(r.slots, withCrc) == d.consumed;
    HeaderWrites(d.consumed, r.flags, r, bytes);
    assert bytes[..slotsEnd] == bytes[..HEADER_LEN] + bytes[HEADER_LEN..slotsEnd];
    if withCrc {
      ToFromLe(bytes[slotsEnd..slotsEnd + 4]);
      assert bytes[..d.consumed] == bytes[..slotsEnd] + bytes[slotsEnd..slotsEnd + 4];
    }
  }

  /** The byte strings accepted whole are exactly the encodings. */
  lemma AcceptedAreEncodings(bytes: seq<byte>)
    ensures Validation(bytes) == Ok(|bytes|)
            <==> exists r: Record, withCrc: bool :: Encodable(r, withCrc) && bytes == Encoding(r, withCrc)
  {
    if Validation(bytes) == Ok(|bytes|) {
      EncodingOfDecode(bytes);
      assert bytes[..|bytes|] == bytes;
    }
    forall r: Record, withCrc: bool | Encodable(r, withCrc) && bytes == Encoding(r, withCrc)
      ensures Validation(bytes) == Ok(|bytes|)
    {
      DecodeOfEncoding(r, withCrc, []);
      assert bytes + [] == bytes;
    }
  }

  /** Encoding is injective up to the CRC flag. */
  lemma EncodingInjective(a: Record, b: Record, withCrc: bool)
    requires Encodable(a, withCrc) && Encodable(b, withCrc) && Encoding(a, withCrc) == Encoding(b, withCrc)
    ensures Normalised(a, withCrc) == Normalised(b, withCrc)
  {
    DecodeOfEncoding(a, withCrc, []);
    DecodeOfEncoding(b, withCrc, []);
  }

  // ---- Burst errors ----------------------------------------------------

  /** `good` with the bytes from `at` on replaced by `altered`. */
  function Altered(good: seq<byte>, altered: seq<byte>, at: nat): (bad: seq<byte>)
    requires at + |altered| <= |good|
    ensures |bad| == |good|
  {
    good[..at] + altered + good[at + |altered|..]
  }

  lemma AlteredParts(good: seq<byte>, altered: seq<byte>, at: nat, lo: nat, hi: nat)
    requires at + |altered| <= |good| && lo <= hi <= |good| && (hi <= at || at + |altered| <= lo)
    ensures Altered(good, altered, at)[lo..hi] == good[lo..hi]
  {
  }

  lemma AlteredChecksum(good: seq<byte>, altered: seq<byte>, at: nat, trailer: nat)
    requires |altered| <= 4 && at + |altered| <= trailer <= |good| && altered != good[at..at + |altered|]
    ensures Crc32c(Altered(good, altered, at)[..trailer]) != Crc32c(good[..trailer])
  {
    var n := |altered|;
    var prefix, suffix := good[..at], good[at + n..trailer];
    assert good[..trailer] == prefix + good[at..at + n] + suffix;
    assert Altered(good, altered, at)[..trailer] == prefix + altered + suffix;
    BurstDetected(prefix, good[at..at + n], altered, suffix);
  }

  /** Altering at most four consecutive bytes between offset 8 and the trailer of a CRC-protected record makes the
  decoder report a CRC mismatch, whatever the record's length and whatever follows it. */
  lemma BurstRejected(r: Record, altered: seq<byte>, at: nat, tail: seq<byte>)
    requires Encodable(r, true)
    requires |altered| <= 4 && 8 <= at && at + |altered| <= |Encoding(r, true)| - CRC_LEN
    requires altered != Encoding(r, true)[at..at + |altered|]
    ensures var bad, trailer := Altered(Encoding(r, true) + tail, altered, at), |Encoding(r, true)| - CRC_LEN;
            Decode(bad) == Err(CrcMismatch(Crc32c(Encoding(r, true)[..trailer]), Crc32c(bad[..trailer])))
  {
    hide Crc32c, Altered, Encoding, ParseSlots, Decode, CheckEnvelope, FromLe;
    var good, trailer := Encoding(r, true) + tail, |Encoding(r, true)| - CRC_LEN;
    EnvelopeAccepts(r, true, tail);
    assert good[..trailer] == Encoding(r, true)[..trailer];
    assert good[at..at + |altered|] == Encoding(r, true)[at..at + |altered|];
    AlteredChecksum(good, altered, at, trailer);
    AlteredParts(good, altered, at, 0, 4);
    assert Altered(good, altered, at)[..4] == Altered(good, altered, at)[0..4] && good[..4] == good[0..4];
    AlteredParts(good, altered, at, 4, 6);
    AlteredParts(good, altered, at, 6, 8);
    AlteredParts(good, altered, at, trailer, trailer + 4);
    Mismatched(good, Altered(good, altered, at), trailer);
  }

  /** The envelope of a record whose checked bytes have changed. */
  lemma Mismatched(good: seq<byte>, bad: seq<byte>, trailer: nat)
    requires CheckEnvelope(good) == Ok(trailer) && HasCrc(ReadU16(good, 6)) && |bad| == |good|
    requires bad[..4] == good[..4] && bad[4..6] == good[4..6] && bad[6..8] == good[6..8]
    requires trailer + 4 <= |good| && bad[trailer..trailer + 4] == good[trailer..trailer + 4]
    requires Crc32c(bad[..trailer]) != Crc32c(good[..trailer])
    ensures Decode(bad) == Err(CrcMismatch(Crc32c(good[..trailer]), Crc32c(bad[..trailer])))
  {
    hide Crc32c, ParseSlots, FromLe;
  }
}
