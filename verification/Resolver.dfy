/** Record resolution: typed fields in slot order, or a placeholder that keeps every raw slot. */
module Resolver {
  import opened Bytes
  import opened Wire
  import opened Control
  import opened Definitions
  import opened FieldTypes
  import opened SlotGrammar
  import opened Schema
  import opened Labels

  datatype DecodeError = NotUtf8 | UnknownType

  datatype ResolvedExtensionField = ResolvedExtensionField(
    key: u16, typeTag: byte, typeName: Option<string>, value: Option<ResolvedValue>, payload: seq<byte>)

  datatype ResolvedEpoch = Current | Prior

  datatype Reason =
    | MissingCurrentDefinition
    | StalePriorEpoch
    | Drift(epoch: ResolvedEpoch, expected: Hash, actual: Hash)
    | FullHashDrift(expectedText: string, actualText: string)
    | NoSuchEvent(id: u32)
    | SchemaFailed(violation: SchemaViolation)
    | EncodeFailed(error: WireError)
    | InvalidUtf8(key: u16)
    | UnknownTag(key: u16, ty: byte)
    | HashFailed

  datatype Resolution =
    | Resolved(eventName: string, source: Option<Source>, sourceId: u32, eventTypeId: u32, runId: u64, epochId: u64,
               sourceTime: u64, seqNo: u64, epoch: ResolvedEpoch, fields: seq<ResolvedField>,
               extensionFields: seq<ResolvedExtensionField>)
    | Unresolved(sourceId: u32, eventTypeId: u32, runId: u64, epochId: u64, seqNo: u64, epoch: ResolvedEpoch,
                 slots: seq<Slot>, reason: Reason)

  /** What the consumer holds: a definition with the full content hash its header states. */
  datatype Held = Held(definition: DefinitionFile, contentHash: string)

  datatype DefinitionSet = DefinitionSet(current: Option<Held>, prior: Option<Held>)

  /** The hash of a definition, as an opaque function: its carriage prefix and its full text, or a failure. */
  type HashFunction = DefinitionFile -> Option<(Hash, string)>

  // ---- Values --------------------------------------------------------------------------------

  /** The payload has the width its type requires. */
  predicate WidthOk(slot: Slot) {
    TypeWidth(slot.ty).Some? && TypeWidth(slot.ty).value.Some? ==> |slot.payload| == TypeWidth(slot.ty).value.value
  }

  /** Two's complement. */
  function Signed(n: nat, width: nat): int {
    if 2 * n < Pow256(width) then n else n - Pow256(width)
  }

  function Unsigned(i: int, width: nat): int {
    if i >= 0 then i else i + Pow256(width)
  }

  /** `decode_value`. Its precondition is what keeps the fixed-width reads from failing. */
  function DecodeValue(slot: Slot, utf8: seq<byte> -> bool): Result<ResolvedValue, DecodeError>
    requires WidthOk(slot)
  {
    var n := FromLe(slot.payload);
    match slot.ty
    case 0x00 => Ok(Bool(slot.payload[0] != 0))
    case 0x01 => Ok(SInt(Signed(n, 1)))
    case 0x02 => Ok(USInt(n))
    case 0x03 => Ok(UInt(n))
    case 0x04 => Ok(Int(Signed(n, 2)))
    case 0x05 => Ok(UDInt(n))
    case 0x06 => Ok(DInt(Signed(n, 4)))
    case 0x07 => Ok(ULInt(n))
    case 0x08 => Ok(LInt(Signed(n, 8)))
    case 0x09 => Ok(Real(n))
    case 0x0A => Ok(LReal(n))
    case 0x0B => Ok(DateTime(n))
    case 0x0C => if utf8(slot.payload) then Ok(Text(slot.payload)) else Err(NotUtf8)
    case 0x0D => Ok(Raw(slot.payload))
    case _ => Err(UnknownType)
  }

  /** The payload a value other than a Boolean was decoded from. */
  function PayloadOf(v: ResolvedValue): seq<byte> {
    match v
    case Bool(on) => [if on then 1 else 0]
    case SInt(i) => ToLe(Max(Unsigned(i, 1), 0), 1)
    case USInt(i) => ToLe(Max(i, 0), 1)
    case UInt(i) => ToLe(Max(i, 0), 2)
    case Int(i) => ToLe(Max(Unsigned(i, 2), 0), 2)
    case UDInt(i) => ToLe(Max(i, 0), 4)
    case DInt(i) => ToLe(Max(Unsigned(i, 4), 0), 4)
    case ULInt(i) => ToLe(Max(i, 0), 8)
    case LInt(i) => ToLe(Max(Unsigned(i, 8), 0), 8)
    case Real(i) => ToLe(Max(i, 0), 4)
    case LReal(i) => ToLe(Max(i, 0), 8)
    case DateTime(i) => ToLe(Max(i, 0), 8)
    case Text(bytes) => bytes
    case Raw(bytes) => bytes
    case Named(_) => []
  }

  /** Decoding loses nothing but the particular non-zero byte of a Boolean. */
  lemma DecodeLossless(slot: Slot, utf8: seq<byte> -> bool)
    requires WidthOk(slot) && DecodeValue(slot, utf8).Ok? && slot.ty != 0
    ensures PayloadOf(DecodeValue(slot, utf8).value) == slot.payload
  {
    hide FromLe, ToLe, Pow256;
    ToFromLe(slot.payload);
    var n := FromLe(slot.payload);
    SignedBack(n, |slot.payload|);
  }

  /** Each type has its own kind of value and its own width; the unsigned values are those of the little-endian payload,
  the signed ones its two's complement. */
  lemma DecodeTyped(slot: Slot, utf8: seq<byte> -> bool)
    requires WidthOk(slot) && DecodeValue(slot, utf8).Ok?
    ensures var v, n := DecodeValue(slot, utf8).value, FromLe(slot.payload);
            && (slot.ty == 0x00 <==> v.Bool?) && (slot.ty == 0x0C <==> v.Text?) && (slot.ty == 0x0D <==> v.Raw?)
            && (slot.ty == 0x01 <==> v.SInt?) && (v.SInt? ==> -0x80 <= v.value < 0x80 && v.value in {n, n - 0x100})
            && (slot.ty == 0x04 <==> v.Int?) && (v.Int? ==> -0x8000 <= v.value < 0x8000 && v.value in {n, n - 0x1_0000})
            && (slot.ty == 0x06 <==> v.DInt?)
            && (v.DInt? ==> -0x8000_0000 <= v.value < 0x8000_0000 && v.value in {n, n - 0x1_0000_0000})
            && (slot.ty == 0x08 <==> v.LInt?)
            && (v.LInt? ==> -0x8000_0000_0000_0000 <= v.value < 0x8000_0000_0000_0000
                            && v.value in {n, n - 0x1_0000_0000_0000_0000})
            && (slot.ty == 0x02 <==> v.USInt?) && (slot.ty == 0x03 <==> v.UInt?) && (slot.ty == 0x05 <==> v.UDInt?)
            && (slot.ty == 0x07 <==> v.ULInt?) && (slot.ty == 0x0B <==> v.DateTime?)
            && (slot.ty == 0x09 <==> v.Real?) && (slot.ty == 0x0A <==> v.LReal?)
            && (v.USInt? || v.UInt? || v.UDInt? || v.ULInt? || v.DateTime? ==> v.value == n)
            && (v.Real? || v.LReal? ==> v.bits == n) && (v.Bool? ==> v.on == (slot.payload != [0]))
            && (v.Bool? || v.SInt? || v.USInt? ==> |slot.payload| == 1) && (v.UInt? || v.Int? ==> |slot.payload| == 2)
            && (v.UDInt? || v.DInt? || v.Real? ==> |slot.payload| == 4)
            && (v.ULInt? || v.LInt? || v.LReal? || v.DateTime? ==> |slot.payload| == 8)
  {
    hide FromLe;
    Widths();
  }

  lemma SignedBack(n: nat, width: nat)
    requires n < Pow256(width)
    ensures Unsigned(Signed(n, width), width) == n
  {
  }

  // ---- Slots ----------------------------------------------------------------------------------

  predicate IsFieldKey(key: u16) {
    0 < key < 0x8000
  }

  /** The slots with core keys, in order. */
  function FieldSlots(slots: seq<Slot>): seq<Slot> {
    if slots == [] then []
    else FieldSlots(slots[..|slots| - 1]) + if IsFieldKey(slots[|slots| - 1].key) then [slots[|slots| - 1]] else []
  }

  /** The slots with private keys, in order. */
  function ExtensionSlots(slots: seq<Slot>): seq<Slot> {
    if slots == [] then []
    else ExtensionSlots(slots[..|slots| - 1]) + if IsVendorKey(slots[|slots| - 1].key) then [slots[|slots| - 1]] else []
  }

  function ZeroSlots(slots: seq<Slot>): seq<Slot> {
    if slots == [] then []
    else ZeroSlots(slots[..|slots| - 1]) + if slots[|slots| - 1].key == 0 then [slots[|slots| - 1]] else []
  }

  /** The list of fields keeps the order of the slots: it can be made piece by piece, slot by slot. */
  lemma {:induction false} FieldsInOrder(a: seq<Slot>, b: seq<Slot>)
    ensures FieldSlots(a + b) == FieldSlots(a) + FieldSlots(b)
    ensures |b| == 1 ==> FieldSlots(b) == if 0 < b[0].key < 0x8000 then b else []
    decreases |b|
  {
    if b == [] {
      assert a + b == a;
    } else {
      var n := |b| - 1;
      FieldsInOrder(a, b[..n]);
      assert (a + b)[..|a + b| - 1] == a + b[..n];
      assert |b| == 1 ==> b == [b[0]];
    }
  }

  /** So does the list of extensions. */
  lemma {:induction false} ExtensionsInOrder(a: seq<Slot>, b: seq<Slot>)
    ensures ExtensionSlots(a + b) == ExtensionSlots(a) + ExtensionSlots(b)
    ensures |b| == 1 ==> ExtensionSlots(b) == if b[0].key >= 0x8000 then b else []
    decreases |b|
  {
    if b == [] {
      assert a + b == a;
    } else {
      var n := |b| - 1;
      ExtensionsInOrder(a, b[..n]);
      assert (a + b)[..|a + b| - 1] == a + b[..n];
      assert |b| == 1 ==> b == [b[0]];
    }
  }

  /** Every slot with a non-zero key is in exactly one of the two lists, once. */
  lemma {:induction false} EveryKeyPlaced(slots: seq<Slot>)
    ensures multiset(slots)
            == multiset(FieldSlots(slots)) + multiset(ExtensionSlots(slots)) + multiset(ZeroSlots(slots))
  {
    hide FieldSlots, ExtensionSlots, ZeroSlots;
    PlacedStep(slots);
    if slots == [] {
    } else {
      var n := |slots| - 1;
      EveryKeyPlaced(slots[..n]);
      assert slots == slots[..n] + [slots[n]];
    }
  }

  /** The last slot goes to one list. */
  lemma PlacedStep(slots: seq<Slot>)
    ensures slots == [] ==> FieldSlots(slots) == ExtensionSlots(slots) == ZeroSlots(slots) == []
    ensures slots != [] ==>
              var g, s := slots[..|slots| - 1], slots[|slots| - 1];
              multiset(FieldSlots(slots)) + multiset(ExtensionSlots(slots)) + multiset(ZeroSlots(slots))
              == multiset(FieldSlots(g)) + multiset(ExtensionSlots(g)) + multiset(ZeroSlots(g)) + multiset{s}
  {
    if slots != [] {
      var g, s := slots[..|slots| - 1], slots[|slots| - 1];
      if s.key == 0 {
        assert ZeroSlots(slots) == ZeroSlots(g) + [s] && FieldSlots(slots) == FieldSlots(g);
      } else if IsFieldKey(s.key) {
        assert FieldSlots(slots) == FieldSlots(g) + [s] && ExtensionSlots(slots) == ExtensionSlots(g);
      } else {
        assert ExtensionSlots(slots) == ExtensionSlots(g) + [s] && FieldSlots(slots) == FieldSlots(g);
      }
    }
  }

  /** `resolve_extension_field`: the raw payload is always kept; decoding is best-effort. */
  function ExtensionField(slot: Slot, utf8: seq<byte> -> bool): (f: ResolvedExtensionField)
    ensures f.key == slot.key && f.typeTag == slot.ty && f.payload == slot.payload
  {
    var typeName := if TypeWidth(slot.ty).Some? then Some(TypeName(slot.ty)) else None;
    ResolvedExtensionField(slot.key, slot.ty, typeName, ExtensionValue(slot, utf8), slot.payload)
  }

  /** An extension is decoded exactly when its type is known, its width right and its text valid; from a decoded value
  the payload can be recovered, a Boolean apart, and its kind is that of its type. */
  lemma ExtensionKept(slot: Slot, utf8: seq<byte> -> bool)
    ensures var f := ExtensionField(slot, utf8);
            && f.key == slot.key && f.typeTag == slot.ty && f.payload == slot.payload
            && (f.typeName.Some? <==> slot.ty < |TYPE_NAMES|)
            && (f.typeName.Some? ==> f.typeName.value == TYPE_NAMES[slot.ty])
            && (f.value.Some?
                <==> TypeWidth(slot.ty).Some? && WidthOk(slot) && (slot.ty == 0x0C ==> utf8(slot.payload)))
            && (f.value.Some? ==>
                  if slot.ty == 0 then f.value == Some(Bool(slot.payload != [0]))
                  else PayloadOf(f.value.value) == slot.payload)
  {
    hide PayloadOf, FromLe, Signed;
    if WidthOk(slot) && DecodeValue(slot, utf8).Ok? && slot.ty != 0 {
      DecodeLossless(slot, utf8);
    }
  }

  /** `decode_extension_value`. */
  function ExtensionValue(slot: Slot, utf8: seq<byte> -> bool): Option<ResolvedValue> {
    match TypeWidth(slot.ty)
    case None => None
    case Some(width) =>
      if width.Some? && |slot.payload| != width.value then None
      else
        match DecodeValue(slot, utf8)
        case Ok(v) => Some(v)
        case Err(_) => None
  }

  /** The slot can be resolved: its type is known, its payload has the right width, and text is valid. */
  predicate Resolvable(slot: Slot, utf8: seq<byte> -> bool) {
    WidthOk(slot) && DecodeValue(slot, utf8).Ok?
  }

  function FieldOf(slot: Slot, utf8: seq<byte> -> bool, context: FieldContext,
                   definition: DefinitionFile): ResolvedField
    requires Resolvable(slot, utf8)
  {
    Labelled(slot.key, slot.ty, DecodeValue(slot, utf8).value, context, definition)
  }

  /** The fields are those of `slots`, one each and in order. */
  predicate FieldsOf(fields: seq<ResolvedField>, slots: seq<Slot>, utf8: seq<byte> -> bool, context: FieldContext,
                     definition: DefinitionFile) {
    && |fields| == |slots|
    && forall i | 0 <= i < |slots| ::
         Resolvable(slots[i], utf8) && fields[i] == FieldOf(slots[i], utf8, context, definition)
  }

  predicate ExtensionsOf(fields: seq<ResolvedExtensionField>, slots: seq<Slot>, utf8: seq<byte> -> bool) {
    |fields| == |slots| && forall i | 0 <= i < |slots| :: fields[i] == ExtensionField(slots[i], utf8)
  }

  /** What validation guarantees about one slot. */
  ghost predicate Vetted(slot: Slot, decls: seq<SlotDefinition>) {
    || IsVendorKey(slot.key)
    || (Declared(decls, slot.key) && TypeWidth(slot.ty).Some? && WidthOk(slot)
        && (IsFieldKey(slot.key) ==> FieldSpec(slot.key).Some? && !FieldSpec(slot.key).value.Reserved?))
  }

  lemma SlotsVetted(slots: seq<Slot>, event: EventTypeDefinition, values: seq<ValueDefinition>, i: nat)
    requires WellFormedEvent(event) && Matches(slots, event.slots, 0, slots, values) && i < |slots|
    ensures Vetted(slots[i], event.slots)
  {
    hide Matches, FieldSpec, InRankOrder, CountsFit, KnownLen;
    var decls := event.slots;
    Decided(slots, decls, values);
    var m := KnownLen(slots, decls);
    if i < m {
      assert slots[..m][i] == slots[i];
      var r := Rank(decls, slots[i].key);
      assert TypeDeclared(decls[r]) && decls[r].key == slots[i].key;
    } else {
      assert slots[m..][i - m] == slots[i];
    }
  }

  lemma ListStep(slots: seq<Slot>, i: nat)
    requires i < |slots|
    ensures FieldSlots(slots[..i + 1]) == FieldSlots(slots[..i]) + if IsFieldKey(slots[i].key) then [slots[i]] else []
    ensures ExtensionSlots(slots[..i + 1]) == ExtensionSlots(slots[..i]) + if IsVendorKey(slots[i].key)
            then [slots[i]] else []
  {
    assert slots[..i + 1][..i] == slots[..i];
  }

  /** The slot is a field whose text is not valid UTF-8. */
  predicate BadText(slot: Slot, utf8: seq<byte> -> bool) {
    IsFieldKey(slot.key) && slot.ty == 0x0C && !utf8(slot.payload)
  }

  /** The reason names the first such field. */
  predicate FirstBadText(slots: seq<Slot>, utf8: seq<byte> -> bool, reason: Reason) {
    exists i | 0 <= i < |slots| && BadText(slots[i], utf8) ::
      reason == InvalidUtf8(slots[i].key) && forall j | 0 <= j < i :: !BadText(slots[j], utf8)
  }

  /** `resolve_slots` on slots that passed validation: no read of a payload can fail, and the only obstacle left is text
  that is not valid UTF-8. */
  method ResolveSlots(slots: seq<Slot>, event: EventTypeDefinition, definition: DefinitionFile, utf8: seq<byte> -> bool)
    returns (res: Result<(seq<ResolvedField>, seq<ResolvedExtensionField>), Reason>)
    requires forall i | 0 <= i < |slots| :: Vetted(slots[i], event.slots)
    ensures res.Ok? ==> FieldsOf(res.value.0, FieldSlots(slots), utf8, ContextOf(slots), definition)
                        && ExtensionsOf(res.value.1, ExtensionSlots(slots), utf8)
    ensures res.Err? ==> FirstBadText(slots, utf8, res.error)
  {
    hide FieldSlots, ExtensionSlots, Resolvable, FieldOf, FieldSpec, Vetted, ContextOf, Labelled;
    var context := ReadContext(slots);
    var fields: seq<ResolvedField> := [];
    var extensionFields: seq<ResolvedExtensionField> := [];
    ListNone(slots[..0]);
    for i := 0 to |slots|
      invariant FieldsOf(fields, FieldSlots(slots[..i]), utf8, context, definition)
      invariant ExtensionsOf(extensionFields, ExtensionSlots(slots[..i]), utf8)
      invariant forall j | 0 <= j < i :: !BadText(slots[j], utf8)
    {
      var slot := slots[i];
      ListStep(slots, i);
      if slot.key >= 0x8000 {
        extensionFields := extensionFields + [ExtensionField(slot, utf8)];
        continue;
      }
      VettedField(slot, event.slots, utf8);
      if Rank(event.slots, slot.key) == |event.slots| {
        continue;
      }
      var spec := FieldSpec(slot.key);
      if spec.None? || spec.value.Reserved? {
        continue;
      }
      if TypeWidth(slot.ty).None? {
        return Err(UnknownTag(slot.key, slot.ty));
      }
      var value := DecodeValue(slot, utf8);
      match value
      case Err(NotUtf8) =>
        return Err(InvalidUtf8(slot.key));
      case Err(UnknownType) =>
        return Err(UnknownTag(slot.key, slot.ty));
      case Ok(v) =>
        FieldMade(slot, utf8, context, definition);
        fields := fields + [Labelled(slot.key, slot.ty, v, context, definition)];
    }
    assert slots[..|slots|] == slots;
    res := Ok((fields, extensionFields));
  }

  lemma ListNone(slots: seq<Slot>)
    requires slots == []
    ensures FieldSlots(slots) == [] && ExtensionSlots(slots) == []
  {
  }

  lemma VettedField(slot: Slot, decls: seq<SlotDefinition>, utf8: seq<byte> -> bool)
    requires Vetted(slot, decls) && slot.key < 0x8000
    ensures Declared(decls, slot.key) && WidthOk(slot)
    ensures DecodeValue(slot, utf8).Err?
            ==> slot.ty == 0x0C && !utf8(slot.payload) && DecodeValue(slot, utf8).error.NotUtf8?
    ensures FieldSpec(slot.key).None? || FieldSpec(slot.key).value.Reserved? ==> !IsFieldKey(slot.key)
    ensures FieldSpec(slot.key).Some? ==> IsFieldKey(slot.key)
    ensures DecodeValue(slot, utf8).Ok? ==> !BadText(slot, utf8)
  {
    hide FieldSpec, FromLe, Signed;
    SpecOfField(slot.key);
  }

  /** Only core keys are in the registry. */
  lemma SpecOfField(key: u16)
    ensures FieldSpec(key).Some? ==> IsFieldKey(key)
  {
  }

  lemma FieldMade(slot: Slot, utf8: seq<byte> -> bool, context: FieldContext, definition: DefinitionFile)
    requires WidthOk(slot) && DecodeValue(slot, utf8).Ok?
    ensures Resolvable(slot, utf8)
    ensures FieldOf(slot, utf8, context, definition)
            == Labelled(slot.key, slot.ty, DecodeValue(slot, utf8).value, context, definition)
  {
  }

  // ---- Records -------------------------------------------------------------------------------

  /** The fields of the control block that resolution uses. */
  datatype EpochWindow = EpochWindow(epochId: u64, epochFirstAbs: nat, definitionHash: Hash, prevDefinitionHash: Hash)

  function KeepSlots(record: Record, window: EpochWindow, epoch: ResolvedEpoch, reason: Reason): Resolution {
    Unresolved(record.sourceId, record.eventTypeId, record.runId, window.epochId, record.seqNo, epoch, record.slots,
               reason)
  }

  /** A record at or after the start of the epoch belongs to the current definition, an earlier one to the prior. */
  function EpochAt(recordAbs: nat, window: EpochWindow): ResolvedEpoch {
    if recordAbs >= window.epochFirstAbs then Current else Prior
  }

  /** The definition held for an epoch, if its hash is the one the control block states for that epoch and agrees with
  its own header. */
  ghost predicate Trusted(held: Option<Held>, expected: Hash, hash: HashFunction) {
    held.Some? && match hash(held.value.definition)
                  case None => false
                  case Some(h) => h.0 == expected && (held.value.contentHash == "" || held.value.contentHash == h.1)
  }

  /** The record can be resolved against `definition`. */
  ghost predicate Answerable(record: Record, definition: DefinitionFile, utf8: seq<byte> -> bool) {
    && Encodable(record, HasCrc(record.flags))
    && Conforms(record, |Encoding(record, HasCrc(record.flags))|, definition)
    && forall i | 0 <= i < |record.slots| && IsFieldKey(record.slots[i].key) && record.slots[i].ty == 0x0C ::
         utf8(record.slots[i].payload)
  }

  /** What a drift reason says is true: it names the two hashes that differ. A full hash is compared only once the
  carriage hashes agree. */
  ghost predicate Distrusted(held: Held, epoch: ResolvedEpoch, expected: Hash, hash: HashFunction, reason: Reason) {
    match reason
    case HashFailed => hash(held.definition) == None
    case Drift(e, x, actual) =>
      e == epoch && x == expected != actual && exists full :: hash(held.definition) == Some((actual, full))
    case FullHashDrift(x, actual) => x == held.contentHash != actual && x != ""
        && hash(held.definition) == Some((expected, actual))
    case _ => false
  }

  /** `verify_definition_hash`. */
  method VerifyHash(held: Held, epoch: ResolvedEpoch, expected: Hash, hash: HashFunction)
    returns (reason: Option<Reason>)
    ensures reason.None? <==> Trusted(Some(held), expected, hash)
    ensures reason.Some? ==> Distrusted(held, epoch, expected, hash, reason.value)
  {
    match hash(held.definition)
    case None =>
      reason := Some(HashFailed);
    case Some(h) =>
      if h.0 != expected {
        return Some(Drift(epoch, expected, h.0));
      }
      if held.contentHash != "" && held.contentHash != h.1 {
        return Some(FullHashDrift(held.contentHash, h.1));
      }
      reason := None;
  }

  /** A resolved record keeps the envelope, names event and source as the definition does, and places every slot with a
  non-zero key once and in order. */
  ghost predicate Tells(res: Resolution, record: Record, window: EpochWindow, definition: DefinitionFile,
                        utf8: seq<byte> -> bool)
    requires res.Resolved?
  {
    && FieldsOf(res.fields, FieldSlots(record.slots), utf8, ContextOf(record.slots), definition)
    && ExtensionsOf(res.extensionFields, ExtensionSlots(record.slots), utf8)
    && res.sourceId == record.sourceId && res.eventTypeId == record.eventTypeId && res.runId == record.runId
    && res.seqNo == record.seqNo && res.sourceTime == record.sourceTime && res.epochId == window.epochId
    && (exists event :: event in definition.eventTypes && event.id == record.eventTypeId && event.name == res.eventName)
    && (match res.source
        case None => forall s | s in definition.sources :: s.sourceId != record.sourceId
        case Some(s) => FirstSource(definition.sources, record.sourceId, s))
  }

  /** The source is the first that the definition lists under this id. */
  predicate FirstSource(sources: seq<Source>, id: u32, source: Source) {
    source.sourceId == id && exists i | 0 <= i < |sources| ::
      sources[i] == source && forall j | 0 <= j < i :: sources[j].sourceId != id
  }

  lemma SourceFound(definition: DefinitionFile, id: u32)
    ensures match Find(definition.sources, (s: Source) => s.sourceId == id)
            case None => forall s | s in definition.sources :: s.sourceId != id
            case Some(s) => FirstSource(definition.sources, id, s)
  {
  }

  /** `resolve_record`: resolves exactly the records that a trusted definition of their epoch can answer for, with every
  non-zero key placed once and in order; any other record becomes a placeholder with all its raw slots. */
  method ResolveRecord(record: Record, recordAbs: nat, window: EpochWindow, definitions: DefinitionSet,
                       hash: HashFunction, utf8: seq<byte> -> bool)
    returns (res: Resolution)
    ensures res.epoch.Current? <==> recordAbs >= window.epochFirstAbs
    ensures var held := if res.epoch.Current? then definitions.current else definitions.prior;
            var expected := if res.epoch.Current? then window.definitionHash else window.prevDefinitionHash;
            res.Resolved? <==> Trusted(held, expected, hash) && Answerable(record, held.value.definition, utf8)
    ensures var held := if res.epoch.Current? then definitions.current else definitions.prior;
            res.Resolved? ==> Tells(res, record, window, held.value.definition, utf8)
    ensures res.Unresolved?
            ==> res == Unresolved(record.sourceId, record.eventTypeId, record.runId, window.epochId, record.seqNo,
                                  res.epoch, record.slots, res.reason)
    ensures var held := if res.epoch.Current? then definitions.current else definitions.prior;
            var expected := if res.epoch.Current? then window.definitionHash else window.prevDefinitionHash;
            res.Unresolved? ==> Explained(record, held, expected, hash, utf8, res.epoch, res.reason)
  {
    hide Conforms, FieldsOf, ExtensionsOf, Encodable, Encoding, FieldSlots, ExtensionSlots, Vetted, IsFieldKey, Grounds;
    hide FirstBadText;
    hide ContextOf, Find;
    var epoch := EpochAt(recordAbs, window);
    var expected := if epoch.Current? then window.definitionHash else window.prevDefinitionHash;
    var held := if epoch.Current? then definitions.current else definitions.prior;
    if held.None? {
      return KeepSlots(record, window, epoch, if epoch.Current? then MissingCurrentDefinition else StalePriorEpoch);
    }
    var drift := VerifyHash(held.value, epoch, expected, hash);
    if drift.Some? {
      return KeepSlots(record, window, epoch, drift.value);
    }
    var definition := held.value.definition;
    var encoded := Encode(record, HasCrc(record.flags));
    if encoded.Err? {
      return KeepSlots(record, window, epoch, EncodeFailed(encoded.error));
    }
    var recordLen := |encoded.value|;
    var validated := Schema.ValidateRecord(record, recordLen, definition);
    match validated
    case Placeholder(_, _, _, _, _, reason) =>
      return KeepSlots(record, window, epoch,
                       match reason case UnknownEventId(id) => NoSuchEvent(id) case other => SchemaFailed(other));
    case Valid(_) =>
      var event := FindEvent(definition.eventTypes, record.eventTypeId);
      AllVetted(record, recordLen, definition);
      var resolved := ResolveSlots(record.slots, event.value, definition, utf8);
      match resolved
      case Err(reason) =>
        Unanswerable(record, definition, utf8);
        res := KeepSlots(record, window, epoch, reason);
      case Ok(parts) =>
        AllText(record.slots, parts.0, utf8, ContextOf(record.slots), definition);
        SourceFound(definition, record.sourceId);
        var source := Find(definition.sources, (s: Source) => s.sourceId == record.sourceId);
        res := Resolved(event.value.name, source, record.sourceId, record.eventTypeId, record.runId, window.epochId,
                        record.sourceTime, record.seqNo, epoch, parts.0, parts.1);
  }

  /** The reason of a placeholder names the first thing that went wrong. */
  ghost predicate Explained(record: Record, held: Option<Held>, expected: Hash, hash: HashFunction,
                            utf8: seq<byte> -> bool, epoch: ResolvedEpoch, reason: Reason) {
    if held.None? then reason == if epoch.Current? then MissingCurrentDefinition else StalePriorEpoch
    else if !Trusted(held, expected, hash) then Distrusted(held.value, epoch, expected, hash, reason)
    else if !Encodable(record, HasCrc(record.flags))
        then reason == EncodeFailed(EncodeError(record, HasCrc(record.flags)))
    else if !Conforms(record, |Encoding(record, HasCrc(record.flags))|, held.value.definition)
    then exists v :: Grounds(record, |Encoding(record, HasCrc(record.flags))|, held.value.definition, v)
                     && reason == if v.UnknownEventId? then NoSuchEvent(v.id) else SchemaFailed(v)
    else FirstBadText(record.slots, utf8, reason)
  }

  lemma AllVetted(record: Record, recordLen: nat, definition: DefinitionFile)
    requires Conforms(record, recordLen, definition)
    ensures var event := FindEvent(definition.eventTypes, record.eventTypeId);
            event.Some? && forall i | 0 <= i < |record.slots| :: Vetted(record.slots[i], event.value.slots)
  {
    hide Matches, Vetted, WellFormedEvent;
    var event := FindEvent(definition.eventTypes, record.eventTypeId).value;
    assert WellFormedEvent(event);
    forall i | 0 <= i < |record.slots|
      ensures Vetted(record.slots[i], event.slots)
    {
      SlotsVetted(record.slots, event, definition.values, i);
    }
  }

  lemma Unanswerable(record: Record, definition: DefinitionFile, utf8: seq<byte> -> bool)
    requires exists reason :: FirstBadText(record.slots, utf8, reason)
    ensures !Answerable(record, definition, utf8)
  {
    hide Conforms, Encodable, Encoding;
    var reason :| FirstBadText(record.slots, utf8, reason);
  }

  /** In a resolved record all text is valid. */
  lemma AllText(slots: seq<Slot>, fields: seq<ResolvedField>, utf8: seq<byte> -> bool, context: FieldContext,
                definition: DefinitionFile)
    requires FieldsOf(fields, FieldSlots(slots), utf8, context, definition)
    ensures forall i | 0 <= i < |slots| && IsFieldKey(slots[i].key) && slots[i].ty == 0x0C :: utf8(slots[i].payload)
  {
    hide Resolvable, FieldSlots, FieldOf;
    forall i | 0 <= i < |slots| && IsFieldKey(slots[i].key) && slots[i].ty == 0x0C
      ensures utf8(slots[i].payload)
    {
      var j := FieldPlace(slots, i);
      TextValid(FieldSlots(slots)[j], utf8);
    }
  }

  lemma TextValid(slot: Slot, utf8: seq<byte> -> bool)
    requires Resolvable(slot, utf8) && slot.ty == 0x0C
    ensures utf8(slot.payload)
  {
  }

  lemma {:induction false} FieldPlace(slots: seq<Slot>, i: nat) returns (j: nat)
    requires i < |slots| && IsFieldKey(slots[i].key)
    ensures j < |FieldSlots(slots)| && FieldSlots(slots)[j] == slots[i]
  {
    var n := |slots| - 1;
    if i < n {
      j := FieldPlace(slots[..n], i);
    } else {
      j := |FieldSlots(slots)| - 1;
    }
  }
}
