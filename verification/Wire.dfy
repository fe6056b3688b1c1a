/** The binary wire record: a 40-byte little-endian header, 4-byte aligned slots, an optional CRC-32C trailer. */
module Wire {
  import opened Bytes
  import opened Crc

  const HEADER_LEN: nat := 40
  const CRC_LEN: nat := 4
  const U16_MAX: nat := 0xFFFF
  const U8_MAX: nat := 0xFF
  /** ASCII `OOT2`. */
  const SYNC: seq<byte> := [0x4F, 0x4F, 0x54, 0x32]
  const FLAG_SYNTHETIC: u16 := 2
  const FLAG_HAS_CRC: u16 := 8

  datatype Slot = Slot(key: u16, ty: byte, payload: seq<byte>)

  datatype Record = Record(
    flags: u16, sourceTime: u64, runId: u64, seqNo: u64, sourceId: u32, eventTypeId: u32, slots: seq<Slot>)

  datatype Decoded = Decoded(record: Record, consumed: nat)

  datatype WireError =
    | CrcMismatch(expected: u32, actual: u32)
    | InvalidLength(totalLen: nat, lengthAvailable: nat)
    | InvalidPadding(offset: nat)
    | InvalidSlot(offset: nat)
    | RecordTooLong(len: nat)
    | SlotTooLong(key: u16, len: nat)
    | Truncated(needed: nat, available: nat)
    | WrongSync

  predicate HasCrc(flags: u16) {
    flags / FLAG_HAS_CRC % 2 == 1
  }

  /** The flags with the CRC bit set or cleared and every other bit kept. */
  function SetCrc(flags: u16, on: bool): (f: u16)
    ensures HasCrc(f) == on
    ensures HasCrc(flags) == on ==> f == flags
    ensures f % 8 == flags % 8 && f / 16 == flags / 16
  {
    var high, low := flags / 16, flags % 8;
    assert flags == 16 * high + (if HasCrc(flags) then 8 else 0) + low;
    16 * high + (if on then FLAG_HAS_CRC else 0) + low
  }

  function PaddingLen(payloadLen: nat): (p: nat)
    ensures p < 4
  {
    (4 - payloadLen % 4) % 4
  }

  /** The padding is what is missing to the next multiple of four. */
  lemma PaddingAligns(payloadLen: nat)
    ensures (payloadLen + PaddingLen(payloadLen)) % 4 == 0
  {
  }

  // ---- Encoding --------------------------------------------------------

  function EncodeSlot(slot: Slot): (s: seq<byte>)
    requires |slot.payload| <= U8_MAX
    ensures |s| == 4 + |slot.payload| + PaddingLen(|slot.payload|)
  {
    ToLe(slot.key, 2) + [slot.ty, |slot.payload|] + slot.payload + Zeros(PaddingLen(|slot.payload|))
  }

  predicate SlotsFit(slots: seq<Slot>) {
    forall i | 0 <= i < |slots| :: |slots[i].payload| <= U8_MAX
  }

  function EncodeSlots(slots: seq<Slot>): (s: seq<byte>)
    requires SlotsFit(slots)
  {
    if slots == [] then [] else EncodeSlot(slots[0]) + EncodeSlots(slots[1..])
  }

  function Header(totalLen: u16, flags: u16, r: Record): (h: seq<byte>)
    ensures |h| == HEADER_LEN
  {
    SYNC + ToLe(totalLen, 2) + ToLe(flags, 2) + ToLe(r.sourceTime, 8) + ToLe(r.runId, 8) + ToLe(r.seqNo, 8)
    + ToLe(r.sourceId, 4) + ToLe(r.eventTypeId, 4)
  }

  function TotalLen(slots: seq<Slot>, withCrc: bool): nat
    requires SlotsFit(slots)
  {
    HEADER_LEN + |EncodeSlots(slots)| + if withCrc then CRC_LEN else 0
  }

  /** A record whose slots and total length fit their length fields. */
  predicate Encodable(r: Record, withCrc: bool) {
    SlotsFit(r.slots) && TotalLen(r.slots, withCrc) <= U16_MAX
  }

  /** The wire bytes of an encodable record. */
  function Encoding(r: Record, withCrc: bool): (s: seq<byte>)
    requires Encodable(r, withCrc)
    ensures |s| == TotalLen(r.slots, withCrc)
  {
    var body := Header(TotalLen(r.slots, withCrc), SetCrc(r.flags, withCrc), r) + EncodeSlots(r.slots);
    if withCrc then body + ToLe(Crc32c(body), 4) else body
  }

  /** Error of a record that cannot be encoded: its first oversize slot, else its own length. */
  function EncodeError(r: Record, withCrc: bool): WireError
    requires !Encodable(r, withCrc)
  {
    if SlotsFit(r.slots) then RecordTooLong(TotalLen(r.slots, withCrc))
    else FirstTooLong(r.slots)
  }

  function FirstTooLong(slots: seq<Slot>): WireError
    requires !SlotsFit(slots)
  {
    if |slots[0].payload| > U8_MAX then SlotTooLong(slots[0].key, |slots[0].payload|) else FirstTooLong(slots[1..])
  }

  lemma {:induction false} EncodeSlotsAppend(slots: seq<Slot>, slot: Slot)
    requires SlotsFit(slots) && |slot.payload| <= U8_MAX
    ensures SlotsFit(slots + [slot])
    ensures EncodeSlots(slots + [slot]) == EncodeSlots(slots) + EncodeSlot(slot)
  {
    if slots == [] {
      assert slots + [slot] == [slot];
    } else {
      EncodeSlotsAppend(slots[1..], slot);
      assert (slots + [slot])[1..] == slots[1..] + [slot];
    }
  }

  lemma {:induction false} FirstTooLongAt(slots: seq<Slot>, i: nat)
    requires i < |slots| && SlotsFit(slots[..i]) && |slots[i].payload| > U8_MAX
    ensures !SlotsFit(slots)
    ensures FirstTooLong(slots) == SlotTooLong(slots[i].key, |slots[i].payload|)
  {
    if i == 0 {
    } else {
      assert |slots[0].payload| <= U8_MAX by { assert slots[..i][0] == slots[0]; }
      assert slots[1..][..i - 1] == slots[..i][1..];
      FirstTooLongAt(slots[1..], i - 1);
    }
  }

  /** The length pass of `Record::encode`. */
  method SlotsEncodedLen(slots: seq<Slot>) returns (res: Result<nat, WireError>)
    ensures SlotsFit(slots) ==> res == Ok(|EncodeSlots(slots)|)
    ensures !SlotsFit(slots) ==> res == Err(FirstTooLong(slots))
  {
    var slotsLen := 0;
    for i := 0 to |slots|
      invariant SlotsFit(slots[..i])
      invariant slotsLen == |EncodeSlots(slots[..i])|
    {
      var slot := slots[i];
      if |slot.payload| > U8_MAX {
        FirstTooLongAt(slots, i);
        return Err(SlotTooLong(slot.key, |slot.payload|));
      }
      EncodeSlotsAppend(slots[..i], slot);
      assert slots[..i + 1] == slots[..i] + [slot];
      slotsLen := slotsLen + 4 + |slot.payload| + PaddingLen(|slot.payload|);
    }
    assert slots[..|slots|] == slots;
    res := Ok(slotsLen);
  }

  /** The writing pass of `Record::encode`: appends every slot to the output. */
  method EncodeSlotsInto(start: seq<byte>, slots: seq<Slot>) returns (out: seq<byte>)
    requires SlotsFit(slots)
    ensures out == start + EncodeSlots(slots)
  {
    out := start;
    for i := 0 to |slots|
      invariant SlotsFit(slots[..i])
      invariant out == start + EncodeSlots(slots[..i])
    {
      EncodeSlotsAppend(slots[..i], slots[i]);
      assert slots[..i + 1] == slots[..i] + [slots[i]];
      out := out + EncodeSlot(slots[i]);
    }
    assert slots[..|slots|] == slots;
  }

  /** `Record::encode`: the two passes over the slots, the length check and the trailer. */
  method Encode(r: Record, withCrc: bool) returns (res: Result<seq<byte>, WireError>)
    ensures Encodable(r, withCrc) ==> res == Ok(Encoding(r, withCrc))
    ensures !Encodable(r, withCrc) ==> res == Err(EncodeError(r, withCrc))
  {
    var slotsLen := SlotsEncodedLen(r.slots);
    if slotsLen.Err? {
      return Err(slotsLen.error);
    }
    var totalLen := HEADER_LEN + slotsLen.value + if withCrc then CRC_LEN else 0;
    if totalLen > U16_MAX {
      return Err(RecordTooLong(totalLen));
    }
    var out := EncodeSlotsInto(Header(totalLen, SetCrc(r.flags, withCrc), r), r.slots);
    if withCrc {
      var crc := ComputeCrc32c(out);
      out := out + ToLe(crc, 4);
    }
    res := Ok(out);
  }

  // ---- Decoding --------------------------------------------------------

  /** Index of the first non-zero byte. */
  function FirstNonZero(s: seq<byte>): (r: Option<nat>)
    ensures r.None? <==> s == Zeros(|s|)
    ensures r.Some? ==> r.value < |s| && s[r.value] != 0 && forall i | 0 <= i < r.value :: s[i] == 0
  {
    if s == [] then None
    else if s[0] != 0 then Some(0)
    else
      var rest := FirstNonZero(s[1..]);
      assert s == [s[0]] + s[1..];
      if rest.None? then None else Some(rest.value + 1)
  }

  /** What one turn of a slot loop at the front of `body` finds: a defect, or the encoded length of the slot. */
  function SlotAt(body: seq<byte>, base: nat): (r: Result<nat, WireError>)
    ensures r.Ok? ==> 4 <= r.value <= |body| && r.value == 4 + body[3] + PaddingLen(body[3])
  {
    if |body| < 4 then Err(InvalidSlot(base))
    else
      var len: nat := body[3];
      var next := 4 + len + PaddingLen(len);
      if next > |body| then Err(InvalidSlot(base))
      else
        match FirstNonZero(body[4 + len..next])
        case Some(i) => Err(InvalidPadding(base + 4 + len + i))
        case None => Ok(next)
  }

  /** The slot at the front of well-formed bytes. */
  function SlotOf(body: seq<byte>): Slot
    requires |body| >= 4 && 4 + body[3] <= |body|
  {
    Slot(ReadU16(body, 0), body[2], body[4..4 + body[3]])
  }

  /** The slots laid out in `body`, whose first byte is at `base` in the record; or the first defect. */
  function ParseSlots(body: seq<byte>, base: nat): (r: Result<seq<Slot>, WireError>)
    decreases |body|
  {
    if body == [] then Ok([])
    else
      match SlotAt(body, base)
      case Err(e) => Err(e)
      case Ok(next) =>
        match ParseSlots(body[next..], base + next)
        case Err(e) => Err(e)
        case Ok(rest) => Ok([SlotOf(body)] + rest)
  }

  /** Position of the end of the slots, once sync, length and checksum are known to be good. */
  function CheckEnvelope(bytes: seq<byte>): (r: Result<nat, WireError>)
    ensures r.Ok? ==> |bytes| >= HEADER_LEN && HEADER_LEN <= r.value <= ReadU16(bytes, 4) <= |bytes|
  {
    if |bytes| < HEADER_LEN then Err(Truncated(HEADER_LEN, |bytes|))
    else if bytes[..4] != SYNC then Err(WrongSync)
    else
      var totalLen := ReadU16(bytes, 4);
      if totalLen < HEADER_LEN then Err(InvalidLength(totalLen, |bytes|))
      else if totalLen > |bytes| then Err(Truncated(totalLen, |bytes|))
      else if !HasCrc(ReadU16(bytes, 6)) then Ok(totalLen)
      else if totalLen < HEADER_LEN + CRC_LEN then Err(InvalidLength(totalLen, |bytes|))
      else
        var trailer := totalLen - CRC_LEN;
        var expected := ReadU32(bytes, trailer);
        var actual := Crc32c(bytes[..trailer]);
        if expected != actual then Err(CrcMismatch(expected, actual)) else Ok(trailer)
  }

  /** Decodes the record at the front of `bytes`. */
  function Decode(bytes: seq<byte>): (r: Result<Decoded, WireError>)
    ensures r.Ok? ==> HEADER_LEN <= r.value.consumed <= |bytes|
  {
    match CheckEnvelope(bytes)
    case Err(e) => Err(e)
    case Ok(slotsEnd) =>
      match ParseSlots(bytes[HEADER_LEN..slotsEnd], HEADER_LEN)
      case Err(e) => Err(e)
      case Ok(slots) =>
        Ok(Decoded(
             Record(ReadU16(bytes, 6), ReadU64(bytes, 8), ReadU64(bytes, 16), ReadU64(bytes, 24), ReadU32(bytes, 32),
                    ReadU32(bytes, 36), slots),
             ReadU16(bytes, 4)))
  }

  /** What a decoded record consumes is the length it states. */
  lemma DecodedLength(bytes: seq<byte>)
    requires Decode(bytes).Ok?
    ensures |bytes| >= 6 && Decode(bytes).value.consumed == ReadU16(bytes, 4)
  {
    hide CheckEnvelope, ParseSlots, FromLe;
  }

  /** What the validating pass alone reports: the length of the record. */
  function Validation(bytes: seq<byte>): Result<nat, WireError> {
    match Decode(bytes)
    case Err(e) => Err(e)
    case Ok(d) => Ok(d.consumed)
  }

  /** The checks of `validate_record` before its slot loop. */
  method ValidateEnvelope(bytes: seq<byte>) returns (res: Result<nat, WireError>)
    ensures res == CheckEnvelope(bytes)
  {
    if |bytes| < HEADER_LEN {
      return Err(Truncated(HEADER_LEN, |bytes|));
    }
    if bytes[..4] != SYNC {
      return Err(WrongSync);
    }
    var totalLen := ReadU16(bytes, 4);
    if totalLen < HEADER_LEN {
      return Err(InvalidLength(totalLen, |bytes|));
    }
    if totalLen > |bytes| {
      return Err(Truncated(totalLen, |bytes|));
    }
    if !HasCrc(ReadU16(bytes, 6)) {
      return Ok(totalLen);
    }
    if totalLen < HEADER_LEN + CRC_LEN {
      return Err(InvalidLength(totalLen, |bytes|));
    }
    var trailer := totalLen - CRC_LEN;
    var expected := ReadU32(bytes, trailer);
    var actual := ComputeCrc32c(bytes[..trailer]);
    res := if expected != actual then Err(CrcMismatch(expected, actual)) else Ok(trailer);
  }

  /** The slots from `offset` on. */
  function Rest(bytes: seq<byte>, offset: nat, slotsEnd: nat): Result<seq<Slot>, WireError>
    requires offset <= slotsEnd <= |bytes|
  {
    ParseSlots(bytes[offset..slotsEnd], offset)
  }

  /** One turn of a slot loop, in terms of the whole record. */
  lemma LoopTurn(bytes: seq<byte>, offset: nat, slotsEnd: nat)
    requires offset < slotsEnd <= |bytes|
    ensures var turn := SlotAt(bytes[offset..slotsEnd], offset);
            match turn
            case Err(e) => Rest(bytes, offset, slotsEnd) == Err(e)
            case Ok(n) =>
              && 4 <= n <= slotsEnd - offset && n == 4 + bytes[offset + 3] + PaddingLen(bytes[offset + 3])
              && match Rest(bytes, offset + n, slotsEnd)
                 case Err(e) => Rest(bytes, offset, slotsEnd) == Err(e)
                 case Ok(slots) =>
                   Rest(bytes, offset, slotsEnd) == Ok([SlotOf(bytes[offset..slotsEnd])] + slots)
  {
    var body := bytes[offset..slotsEnd];
    var turn := SlotAt(body, offset);
    if turn.Ok? {
      Slices(bytes, offset, slotsEnd, turn.value, |body|);
    }
  }

  /** The slot loop of `validate_record`. */
  method ValidateSlots(bytes: seq<byte>, slotsEnd: nat) returns (defect: Option<WireError>)
    requires HEADER_LEN <= slotsEnd <= |bytes|
    ensures match Rest(bytes, HEADER_LEN, slotsEnd)
            case Ok(_) => defect == None
            case Err(e) => defect == Some(e)
  {
    hide Rest, ParseSlots;
    RestEmpty(bytes, slotsEnd);
    var offset := HEADER_LEN;
    while offset < slotsEnd
      invariant HEADER_LEN <= offset <= slotsEnd
      invariant match Rest(bytes, offset, slotsEnd)
                case Ok(_) => Rest(bytes, HEADER_LEN, slotsEnd).Ok?
                case Err(e) => Rest(bytes, HEADER_LEN, slotsEnd) == Err(e)
    {
      LoopTurn(bytes, offset, slotsEnd);
      var turn := SlotAt(bytes[offset..slotsEnd], offset);
      if turn.Err? {
        return Some(turn.error);
      }
      offset := offset + turn.value;
    }
    defect := None;
  }

  /** `validate_record`. */
  method ValidateRecord(bytes: seq<byte>) returns (res: Result<nat, WireError>)
    ensures res == Validation(bytes)
  {
    var envelope := ValidateEnvelope(bytes);
    if envelope.Err? {
      return Err(envelope.error);
    }
    var defect := ValidateSlots(bytes, envelope.value);
    res := if defect.Some? then Err(defect.value) else Ok(ReadU16(bytes, 4));
  }

  /** `decode`: validates, then collects the slots in a second loop. */
  method DecodeRecord(bytes: seq<byte>) returns (res: Result<Decoded, WireError>)
    ensures res == Decode(bytes)
  {
    var validated := ValidateRecord(bytes);
    if validated.Err? {
      return Err(validated.error);
    }
    var totalLen := validated.value;
    var flags := ReadU16(bytes, 6);
    var slotsEnd := if HasCrc(flags) then totalLen - CRC_LEN else totalLen;
    var slots := CollectSlots(bytes, slotsEnd);
    res := Ok(Decoded(
                Record(flags, ReadU64(bytes, 8), ReadU64(bytes, 16), ReadU64(bytes, 24), ReadU32(bytes, 32),
                       ReadU32(bytes, 36), slots),
                totalLen));
  }

  lemma RestEmpty(bytes: seq<byte>, slotsEnd: nat)
    requires slotsEnd <= |bytes|
    ensures Rest(bytes, slotsEnd, slotsEnd) == Ok([])
  {
    assert bytes[slotsEnd..slotsEnd] == [];
  }

  /** One turn of the collecting loop: the slot read is the first of those that remain. */
  lemma CollectTurn(bytes: seq<byte>, offset: nat, slotsEnd: nat, rest: seq<Slot>, len: nat)
    requires offset < slotsEnd <= |bytes| && Rest(bytes, offset, slotsEnd) == Ok(rest)
    requires offset + 4 <= slotsEnd ==> len == bytes[offset + 3]
    ensures offset + 4 + len + PaddingLen(len) <= slotsEnd && rest != []
    ensures rest[0] == Slot(ReadU16(bytes, offset), bytes[offset + 2], bytes[offset + 4..offset + 4 + len])
    ensures Rest(bytes, offset + 4 + len + PaddingLen(len), slotsEnd) == Ok(rest[1..])
  {
    LoopTurn(bytes, offset, slotsEnd);
    Slices(bytes, offset, slotsEnd, 4, 4 + len);
    Slices(bytes, offset, slotsEnd, 0, 2);
    var after := Rest(bytes, offset + 4 + len + PaddingLen(len), slotsEnd);
    assert rest == [SlotOf(bytes[offset..slotsEnd])] + after.value;
    assert rest[1..] == after.value;
  }

  /** The slot loop of `decode`. */
  method CollectSlots(bytes: seq<byte>, slotsEnd: nat) returns (slots: seq<Slot>)
    requires HEADER_LEN <= slotsEnd <= |bytes|
    requires Rest(bytes, HEADER_LEN, slotsEnd).Ok?
    ensures Rest(bytes, HEADER_LEN, slotsEnd) == Ok(slots)
  {
    hide Rest, ParseSlots, SlotAt, ReadU16;
    slots := [];
    var offset := HEADER_LEN;
    ghost var whole := Rest(bytes, HEADER_LEN, slotsEnd).value;
    ghost var rest := whole;
    while offset < slotsEnd
      invariant HEADER_LEN <= offset <= slotsEnd
      invariant Rest(bytes, offset, slotsEnd) == Ok(rest) && whole == slots + rest
    {
      assert offset + 4 <= slotsEnd by { LoopTurn(bytes, offset, slotsEnd); }
      var len: nat := bytes[offset + 3];
      CollectTurn(bytes, offset, slotsEnd, rest, len);
      var payloadEnd := offset + 4 + len;
      slots := slots + [Slot(ReadU16(bytes, offset), bytes[offset + 2], bytes[offset + 4..payloadEnd])];
      offset := payloadEnd + PaddingLen(len);
      assert rest == [rest[0]] + rest[1..];
      rest := rest[1..];
    }
    RestEmpty(bytes, slotsEnd);
    assert whole == slots;
  }
}
