/** The wire format by its byte offsets, and every error by its cause. */
module Format {
  import opened Bytes
  import opened Crc
  import opened Wire
  import opened Codec

  /** Byte `i` of a little-endian number has the weight 256^i. */
  lemma {:induction false} LittleEndian(n: nat, width: nat, i: nat)
    requires i < width
    ensures ToLe(n, width)[i] == n / Pow256(i) % 256
  {
    if i == 0 {
      assert n / Pow256(0) == n;
    } else {
      LittleEndian(n / 256, width - 1, i - 1);
      DivTwice(n, 256, Pow256(i - 1));
    }
  }

  // ---- Layout ------------------------------------------------------------------------------

  /** A slot: key, type, length, payload, and zeros up to the next multiple of four. */
  lemma SlotBytes(slot: Slot)
    requires |slot.payload| <= 255
    ensures var s, n := EncodeSlot(slot), |slot.payload|;
            && 4 + n <= |s| < 4 + n + 4 && |s| % 4 == 0
            && s[0..2] == ToLe(slot.key, 2) && s[2] == slot.ty && s[3] == n && s[4..4 + n] == slot.payload
            && forall i | 4 + n <= i < |s| :: s[i] == 0
  {
    PaddingAligns(|slot.payload|);
    SlotLayout(slot, [], |slot.payload|);
    assert EncodeSlot(slot) + [] == EncodeSlot(slot);
  }

  /** The slots follow each other without anything in between, each at a multiple of four. */
  lemma {:induction false} SlotsInARow(a: seq<Slot>, b: seq<Slot>)
    requires SlotsFit(a) && SlotsFit(b)
    ensures SlotsFit(a + b) && EncodeSlots(a + b) == EncodeSlots(a) + EncodeSlots(b) && |EncodeSlots(a)| % 4 == 0
  {
    hide EncodeSlot, EncodeSlots, SlotsFit;
    if a == [] {
      assert a + b == b;
      NothingParsed([], 0);
    } else {
      EncodeFront(a);
      SlotsInARow(a[1..], b);
      SlotBytes(a[0]);
      assert (a + b)[1..] == a[1..] + b && (a + b)[0] == a[0];
      EncodeFront(a + b);
    }
  }

  /** A record: sync bytes, total length, flags with the CRC bit as asked for, the fields at their offsets, the slots,
  and the checksum of everything before it. */
  lemma RecordBytes(r: Record, withCrc: bool)
    requires Encodable(r, withCrc)
    ensures var s := Encoding(r, withCrc);
            var end := if withCrc then |s| - 4 else |s|;
            && 40 <= end && |s| % 4 == 0 && s[0..4] == [0x4F, 0x4F, 0x54, 0x32]
            && s[4..6] == ToLe(|s|, 2) && s[6..8] == ToLe(SetCrc(r.flags, withCrc), 2)
            && s[8..16] == ToLe(r.sourceTime, 8) && s[16..24] == ToLe(r.runId, 8) && s[24..32] == ToLe(r.seqNo, 8)
            && s[32..36] == ToLe(r.sourceId, 4) && s[36..40] == ToLe(r.eventTypeId, 4)
            && s[40..end] == EncodeSlots(r.slots) && (withCrc ==> s[end..] == ToLe(Crc32c(s[..end]), 4))
  {
    hide Crc32c, EncodeSlots, ToLe;
    var s, slots := Encoding(r, withCrc), EncodeSlots(r.slots);
    var header := Header(TotalLen(r.slots, withCrc), SetCrc(r.flags, withCrc), r);
    assert s[..40] == header;
    HeaderSlices(TotalLen(r.slots, withCrc), SetCrc(r.flags, withCrc), r, s);
    assert s[0..4] == s[..4];
    assert s[40..40 + |slots|] == slots;
    assert withCrc ==> s[..40 + |slots|] == header + slots;
    SlotsInARow(r.slots, []);
  }

  /** Why a record cannot be encoded: its first slot with more than 255 payload bytes, else its own length. */
  lemma EncodeErrors(r: Record, withCrc: bool)
    requires !Encodable(r, withCrc)
    ensures match EncodeError(r, withCrc)
            case SlotTooLong(key, len) =>
              exists i | 0 <= i < |r.slots| ::
                r.slots[i].key == key && |r.slots[i].payload| == len > 255
                && forall j | 0 <= j < i :: |r.slots[j].payload| <= 255
            case RecordTooLong(len) =>
              && (forall i | 0 <= i < |r.slots| :: |r.slots[i].payload| <= 255)
              && len == 40 + |EncodeSlots(r.slots)| + (if withCrc then 4 else 0) > 65535
            case _ => false
  {
    hide EncodeSlots, FirstTooLong;
    if !SlotsFit(r.slots) {
      var i := FirstLong(r.slots, 0);
      FirstTooLongAt(r.slots, i);
    }
  }

  lemma {:induction false} FirstLong(slots: seq<Slot>, from: nat) returns (i: nat)
    requires from <= |slots| && !SlotsFit(slots) && SlotsFit(slots[..from])
    ensures i < |slots| && |slots[i].payload| > U8_MAX && SlotsFit(slots[..i])
    decreases |slots| - from
  {
    assert slots[..|slots|] == slots;
    if |slots[from].payload| > U8_MAX {
      i := from;
    } else {
      i := FirstLong(slots, from + 1);
    }
  }

  // ---- Errors ------------------------------------------------------------------------------------

  /** What is wrong with the envelope, in this order: too short for a header, no sync bytes, a length that is too small
  or beyond the end, no room for the checksum, another checksum. */
  lemma EnvelopeErrors(bytes: seq<byte>)
    ensures |bytes| < 40 ==> Decode(bytes) == Err(Truncated(40, |bytes|))
    ensures |bytes| >= 40 && bytes[0..4] != [0x4F, 0x4F, 0x54, 0x32] ==> Decode(bytes) == Err(WrongSync)
    ensures |bytes| >= 40 && bytes[0..4] == [0x4F, 0x4F, 0x54, 0x32] ==>
              var total, checked := FromLe(bytes[4..6]), FromLe(bytes[6..8]) / 8 % 2 == 1;
              && (total < 40 || (checked && total < 44 && total <= |bytes|)
                  ==> Decode(bytes) == Err(InvalidLength(total, |bytes|)))
              && (total >= 40 && total > |bytes| ==> Decode(bytes) == Err(Truncated(total, |bytes|)))
              && (checked && 44 <= total <= |bytes|
                  && FromLe(bytes[total - 4..total]) != Crc32c(bytes[..total - 4])
                  ==> Decode(bytes) == Err(CrcMismatch(FromLe(bytes[total - 4..total]), Crc32c(bytes[..total - 4]))))
  {
    hide Crc32c, ParseSlots, FromLe;
    assert |bytes| >= 40 ==> bytes[0..4] == bytes[..4];
  }

  /** Every proper beginning of an accepted record is reported as cut off, with the length that is missing. */
  lemma PrefixTruncated(bytes: seq<byte>, n: nat)
    requires Decode(bytes).Ok? && n < Decode(bytes).value.consumed
    ensures n <= |bytes|
    ensures Decode(bytes[..n]) == Err(Truncated(if n < 40 then 40 else Decode(bytes).value.consumed, n))
  {
    hide Crc32c, ParseSlots, FromLe;
    var cut := bytes[..n];
    EnvelopeErrors(bytes);
    EnvelopeErrors(cut);
    if n >= 40 {
      assert cut[0..4] == bytes[0..4] && cut[4..6] == bytes[4..6];
    }
  }

  /** The next multiple of four. */
  function Padded(n: nat): (m: nat)
    ensures m % 4 == 0 && n <= m < n + 4
  {
    n + (if n % 4 == 0 then 0 else 4 - n % 4)
  }

  /** What is wrong with the slot at the front: no room for its head or its payload, or a padding byte, the first of
  them, that is not zero. */
  lemma SlotErrors(body: seq<byte>, base: nat, k: nat)
    requires body != []
    ensures |body| < 4 ==> ParseSlots(body, base) == Err(InvalidSlot(base))
    ensures |body| >= 4 ==>
              var len: nat := body[3];
              var end := 4 + len;
              && (Padded(end) > |body| ==> ParseSlots(body, base) == Err(InvalidSlot(base)))
              && (Padded(end) <= |body| && end <= k < Padded(end) && body[k] != 0
                  && (forall i | end <= i < k :: body[i] == 0)
                  ==> ParseSlots(body, base) == Err(InvalidPadding(base + k)))
  {
    hide PaddingLen, Padded, FirstNonZero;
    if |body| >= 4 {
      var len: nat := body[3];
      PaddedLen(len);
      var end := 4 + len;
      if Padded(end) <= |body| && end <= k < Padded(end) && body[k] != 0 && (forall i | end <= i < k :: body[i] == 0) {
        PaddingFound(body[end..Padded(end)], k - end);
      }
    }
  }

  lemma PaddedLen(len: nat)
    ensures Padded(4 + len) == 4 + len + PaddingLen(len)
  {
  }

  lemma PaddingFound(padding: seq<byte>, k: nat)
    requires k < |padding| && padding[k] != 0 && forall i | 0 <= i < k :: padding[i] == 0
    ensures FirstNonZero(padding) == Some(k)
  {
    var found := FirstNonZero(padding);
    assert found.Some? by {
      assert Zeros(|padding|)[k] == 0;
    }
  }

  /** Slots in front of a defect do not matter: it is found behind them, at its own offset. */
  lemma {:induction false} DefectBehind(slots: seq<Slot>, junk: seq<byte>, base: nat)
    requires SlotsFit(slots) && ParseSlots(junk, base + |EncodeSlots(slots)|).Err?
    ensures ParseSlots(EncodeSlots(slots) + junk, base) == ParseSlots(junk, base + |EncodeSlots(slots)|)
  {
    hide ParseSlots, EncodeSlot;
    if slots == [] {
      assert EncodeSlots(slots) + junk == junk;
    } else {
      var first, rest := slots[0], slots[1..];
      var next := base + |EncodeSlot(first)|;
      DefectBehind(rest, junk, next);
      assert EncodeSlots(slots) + junk == EncodeSlot(first) + (EncodeSlots(rest) + junk);
      ParsePast(first, EncodeSlots(rest) + junk, base);
    }
  }

  lemma ParsePast(slot: Slot, rest: seq<byte>, base: nat)
    requires |slot.payload| <= U8_MAX && ParseSlots(rest, base + |EncodeSlot(slot)|).Err?
    ensures ParseSlots(EncodeSlot(slot) + rest, base) == ParseSlots(rest, base + |EncodeSlot(slot)|)
  {
    var n := |slot.payload|;
    SlotLayout(slot, rest, n);
    var body := EncodeSlot(slot) + rest;
    assert FirstNonZero(body[4 + n..4 + n + PaddingLen(n)]).None?;
    var turn := SlotAt(body, base);
    assert turn == Ok(|EncodeSlot(slot)|);
  }
}
