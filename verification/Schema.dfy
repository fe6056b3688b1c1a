/** The schema validator, loop by loop, against the slot grammar. */
module Schema {
  import opened Bytes
  import opened Wire
  import opened Definitions
  import opened FieldTypes
  import opened SlotGrammar

  /** Stands for "no fixed type" in violations. */
  const VALUE_PAYLOAD_SCHEMA_TYPE: byte := 0xFF

  datatype DefinitionViolation =
    | DuplicateEventId(id: u32)
    | DuplicateSlotKey(eventId: u32, key: u16)
    | OrderClassNotAscending(eventId: u32, previous: u16, current: u16)
    | CoreTypeMismatch(eventId: u32, key: u16, actual: byte, expected: byte)
    | UnknownDeclaredType(eventId: u32, key: u16, ty: byte)
    | ReservedDeclaredKey(eventId: u32, key: u16)
    | InvalidMaxOccurs(eventId: u32, key: u16)
    | UnknownProceduralModel(stateMachineId: u32, model: string)
    | MissingEnumSet(stateMachineId: u32, enumSet: string)
    | ProceduralStateMismatch(stateMachineId: u32, model: string, value: u16, text: string)

  datatype SchemaViolation =
    | Definition(defect: DefinitionViolation)
    | UnknownEventId(id: u32)
    | RecordTooLarge(actual: nat, max: nat)
    | TooManySlots(actual: nat, max: nat)
    | UnexpectedCoreKey(key: u16)
    | VendorExtensionNotTrailing(key: u16)
    | VendorExtensionOutOfOrder(previous: u16, key: u16)
    | TypeMismatch(key: u16, actualType: byte, expectedType: byte)
    | UnknownTlvType(key: u16, ty: byte)
    | ReservedCoreKey(key: u16)
    | FixedWidthMismatch(key: u16, ty: byte, actual: nat, expected: nat)
    | MissingRequired(key: u16, min: u16, actual: nat)
    | TooManyOccurrences(key: u16, max: nat, actual: nat)
    | RepeatedSlotNotContiguous(key: u16)
    | OrderClassViolation(previousClass: u16, currentClass: u16, key: u16)

  datatype SchemaValidation =
    | Valid(extensionKeys: seq<u16>)
    | Placeholder(sourceId: u32, eventTypeId: u32, runId: u64, seqNo: u64, slots: seq<Slot>, reason: SchemaViolation)

  // ---- Definitions --------------------------------------------------------------------------

  /** The declared type agrees with the registry. */
  predicate TypeDeclared(d: SlotDefinition) {
    match FieldSpec(d.key)
    case Some(Fixed(ty)) => d.tlvType == Some(ty) && !d.valuePayload && TypeWidth(ty).Some?
    case Some(ValuePayload) => d.tlvType == None && d.valuePayload
    case Some(Reserved) => false
    case None => !IsCoreKey(d.key) && d.tlvType.Some? && !d.valuePayload && TypeWidth(d.tlvType.value).Some?
  }

  predicate BoundsDeclared(d: SlotDefinition) {
    match d.maxOccurs
    case Count(max) => d.minOccurs <= max && max > 0
    case Unbounded(text) => text == "unbounded"
  }

  predicate WellFormedEvent(event: EventTypeDefinition) {
    WellOrdered(event.slots) && forall i | 0 <= i < |event.slots| ::
      BoundsDeclared(event.slots[i]) && TypeDeclared(event.slots[i])
  }

  predicate WellFormed(definition: DefinitionFile) {
    && (forall i, j | 0 <= i < j < |definition.eventTypes| ::
        definition.eventTypes[i].id != definition.eventTypes[j].id)
    && (forall i | 0 <= i < |definition.eventTypes| :: WellFormedEvent(definition.eventTypes[i]))
    && (forall i | 0 <= i < |definition.stateMachines| ::
        CanonicalMachine(definition.stateMachines[i], definition.enumSets))
  }

  function ModelNamed(name: string): Option<ProceduralModel> {
    Find(PROCEDURAL_MODELS, (m: ProceduralModel) => SameIgnoringCase(m.name, name))
  }

  /** A machine that names a procedural model has an enum set, and every state in it is canonical for that model. */
  predicate CanonicalMachine(machine: StateMachine, sets: seq<EnumSet>) {
    machine.proceduralModel.Some? ==>
      var model, states := ModelNamed(machine.proceduralModel.value), EnumSetNamed(sets, machine.enumSet);
      model.Some? && states.Some? && forall m | m in states.value.members :: m in model.value.states
  }

  function TypeOr(ty: Option<byte>): byte {
    if ty.Some? then ty.value else VALUE_PAYLOAD_SCHEMA_TYPE
  }

  /** `validate_max_occurs`. */
  function MaxOccursDefect(eventId: u32, d: SlotDefinition): (v: Option<DefinitionViolation>)
    ensures v.None? <==> BoundsDeclared(d)
    ensures v.Some? ==> v.value == InvalidMaxOccurs(eventId, d.key)
  {
    match d.maxOccurs
    case Count(max) => if max < d.minOccurs || max == 0 then Some(InvalidMaxOccurs(eventId, d.key)) else None
    case Unbounded(text) => if text != "unbounded" then Some(InvalidMaxOccurs(eventId, d.key)) else None
  }

  /** What a defect says of a declared type is true: the key has no type in the registry; the type is none at all; or it
  is not the one the registry gives to the key. */
  predicate TypeObjection(eventId: u32, d: SlotDefinition, v: DefinitionViolation) {
    match v
    case ReservedDeclaredKey(e, key) =>
      e == eventId && key == d.key && IsCoreKey(key) && (FieldSpec(key).None? || FieldSpec(key).value.Reserved?)
    case UnknownDeclaredType(e, key, ty) =>
      e == eventId && key == d.key && ty == TypeOr(d.tlvType) && TypeWidth(ty).None? && !d.valuePayload
    case CoreTypeMismatch(e, key, actual, expected) =>
      && e == eventId && key == d.key
      && (match FieldSpec(key)
          case Some(Fixed(ty)) =>
            actual == TypeOr(d.tlvType) && expected == ty && (d.valuePayload || d.tlvType != Some(ty))
          case Some(ValuePayload) =>
            actual == TypeOr(d.tlvType) && expected == VALUE_PAYLOAD_SCHEMA_TYPE && (!d.valuePayload || d.tlvType.Some?)
          case _ => d.valuePayload && actual == VALUE_PAYLOAD_SCHEMA_TYPE && expected == TypeOr(d.tlvType))
    case _ => false
  }

  /** `validate_slot_definition_type`. */
  function SlotTypeDefect(eventId: u32, d: SlotDefinition): (v: Option<DefinitionViolation>)
    ensures v.None? <==> TypeDeclared(d)
    ensures v.Some? ==> TypeObjection(eventId, d, v.value)
  {
    match FieldSpec(d.key)
    case Some(Fixed(ty)) =>
      if d.tlvType != Some(ty) || d.valuePayload then Some(CoreTypeMismatch(eventId, d.key, TypeOr(d.tlvType), ty))
      else PlainTypeDefect(eventId, d)
    case Some(ValuePayload) =>
      if !d.valuePayload || d.tlvType.Some?
      then Some(CoreTypeMismatch(eventId, d.key, TypeOr(d.tlvType), VALUE_PAYLOAD_SCHEMA_TYPE)) else None
    case Some(Reserved) => Some(ReservedDeclaredKey(eventId, d.key))
    case None =>
      if IsCoreKey(d.key) then Some(ReservedDeclaredKey(eventId, d.key)) else PlainTypeDefect(eventId, d)
  }

  /** A slot with a type of its own must name a known one. */
  function PlainTypeDefect(eventId: u32, d: SlotDefinition): Option<DefinitionViolation> {
    if d.valuePayload then Some(CoreTypeMismatch(eventId, d.key, VALUE_PAYLOAD_SCHEMA_TYPE, TypeOr(d.tlvType)))
    else if d.tlvType.None? then Some(UnknownDeclaredType(eventId, d.key, VALUE_PAYLOAD_SCHEMA_TYPE))
    else if TypeWidth(d.tlvType.value).None? then Some(UnknownDeclaredType(eventId, d.key, d.tlvType.value))
    else None
  }

  /** Accepts exactly the well-formed event definitions. */
  method ValidateEventDefinition(event: EventTypeDefinition) returns (defect: Option<DefinitionViolation>)
    ensures defect.None? <==> WellFormedEvent(event)
    ensures defect.Some? ==> EventDefect(event, defect.value)
  {
    hide TypeDeclared, BoundsDeclared, MaxOccursDefect, SlotTypeDefect, SoundUpTo, WellFormedEvent;
    SoundIsWellFormed(event, 0);
    SoundStart(event);
    var previous: Option<u16> := None;
    var keys: set<u16> := {};
    for i := 0 to |event.slots|
      invariant SoundUpTo(event, i)
      invariant forall k :: k in keys <==> exists j | 0 <= j < i :: event.slots[j].key == k
      invariant previous == if i == 0 then None else Some(event.slots[i - 1].orderClass)
    {
      var slot := event.slots[i];
      VerdictNone(event, i);
      SoundIsWellFormed(event, i + 1);
      if slot.key in keys {
        return Some(DuplicateSlotKey(event.id, slot.key));
      }
      if previous.Some? && slot.orderClass <= previous.value {
        return Some(OrderClassNotAscending(event.id, previous.value, slot.orderClass));
      }
      keys := keys + {slot.key};
      previous := Some(slot.orderClass);
      var bounds := MaxOccursDefect(event.id, slot);
      if bounds.Some? {
        return bounds;
      }
      var ty := SlotTypeDefect(event.id, slot);
      if ty.Some? {
        return ty;
      }
    }
    defect := None;
  }

  lemma SoundStart(event: EventTypeDefinition)
    ensures SoundUpTo(event, 0)
  {
  }

  /** The first `n` slot declarations of an event are sound. */
  predicate SoundUpTo(event: EventTypeDefinition, n: nat)
    requires n <= |event.slots|
  {
    WellOrdered(event.slots[..n]) && forall i | 0 <= i < n ::
      BoundsDeclared(event.slots[i]) && TypeDeclared(event.slots[i])
  }

  /** What is wrong with slot declaration `i`, given those before it. */
  function DeclarationVerdict(event: EventTypeDefinition, i: nat): Option<DefinitionViolation>
    requires i < |event.slots|
  {
    var d := event.slots[i];
    if exists j | 0 <= j < i :: event.slots[j].key == d.key then Some(DuplicateSlotKey(event.id, d.key))
    else if i > 0 && d.orderClass <= event.slots[i - 1].orderClass
    then Some(OrderClassNotAscending(event.id, event.slots[i - 1].orderClass, d.orderClass))
    else if !BoundsDeclared(d) then Some(InvalidMaxOccurs(event.id, d.key))
    else SlotTypeDefect(event.id, d)
  }

  /** The defect is that of the first slot declaration that is not sound. */
  ghost predicate EventDefect(event: EventTypeDefinition, v: DefinitionViolation) {
    exists i | 0 <= i < |event.slots| && SoundUpTo(event, i) :: DeclarationVerdict(event, i) == Some(v)
  }

  /** The first `n` events are sound and have ids of their own. */
  predicate EventsSound(definition: DefinitionFile, n: nat)
    requires n <= |definition.eventTypes|
  {
    && (forall k, j | 0 <= k < j < n :: definition.eventTypes[k].id != definition.eventTypes[j].id)
    && (forall j | 0 <= j < n :: WellFormedEvent(definition.eventTypes[j]))
  }

  /** The first `n` state machines are canonical. */
  predicate MachinesCanonical(definition: DefinitionFile, n: nat)
    requires n <= |definition.stateMachines|
  {
    forall j | 0 <= j < n :: CanonicalMachine(definition.stateMachines[j], definition.enumSets)
  }

  /** The defect is that of event `i`: its id occurred before, else one of its own. */
  ghost predicate EventBlamed(definition: DefinitionFile, i: nat, v: DefinitionViolation)
    requires i < |definition.eventTypes|
  {
    var event := definition.eventTypes[i];
    if exists j | 0 <= j < i :: definition.eventTypes[j].id == event.id then v == DuplicateEventId(event.id)
    else EventDefect(event, v)
  }

  /** The defect is that of the first state machine that is not canonical. */
  ghost predicate MachineBlamed(definition: DefinitionFile, v: DefinitionViolation) {
    exists i | 0 <= i < |definition.stateMachines| && MachinesCanonical(definition, i) ::
      MachineDefect(definition.stateMachines[i], definition.enumSets, v)
  }

  /** The defect that a definition is refused for: that of its first unsound event, else of its first state machine that
  is not canonical. */
  ghost predicate DefinitionDefect(definition: DefinitionFile, v: DefinitionViolation) {
    || (exists i | 0 <= i < |definition.eventTypes| && EventsSound(definition, i) :: EventBlamed(definition, i, v))
    || (EventsSound(definition, |definition.eventTypes|) && MachineBlamed(definition, v))
  }

  /** Slot declarations that are sound up to the end are well-formed, and an unsound one is not. */
  lemma SoundIsWellFormed(event: EventTypeDefinition, i: nat)
    requires i <= |event.slots|
    ensures SoundUpTo(event, |event.slots|) <==> WellFormedEvent(event)
    ensures WellFormedEvent(event) ==> SoundUpTo(event, i)
  {
    hide BoundsDeclared, TypeDeclared;
    assert event.slots[..|event.slots|] == event.slots;
  }

  /** A declaration is sound exactly when there is nothing to say against it. */
  lemma VerdictNone(event: EventTypeDefinition, i: nat)
    requires i < |event.slots| && SoundUpTo(event, i)
    ensures DeclarationVerdict(event, i).None? <==> SoundUpTo(event, i + 1)
  {
    hide BoundsDeclared, TypeDeclared, SlotTypeDefect;
    var s, d := event.slots[..i + 1], event.slots[i];
    if DeclarationVerdict(event, i).None? {
      OrderedStep(event.slots, i);
    } else if SoundUpTo(event, i + 1) {
      assert forall j | 0 <= j <= i :: s[j] == event.slots[j];
      assert false;
    }
  }

  lemma SoundLess(event: EventTypeDefinition, i: nat, j: nat)
    requires i <= j <= |event.slots| && SoundUpTo(event, j)
    ensures SoundUpTo(event, i)
  {
    hide BoundsDeclared, TypeDeclared;
    assert forall k | 0 <= k < i :: event.slots[..i][k] == event.slots[..j][k];
  }

  lemma EventDefectOnce(event: EventTypeDefinition, v: DefinitionViolation, w: DefinitionViolation)
    requires EventDefect(event, v) && EventDefect(event, w)
    ensures v == w && !WellFormedEvent(event)
  {
    hide SoundUpTo, DeclarationVerdict, WellFormedEvent;
    var i :| 0 <= i < |event.slots| && SoundUpTo(event, i) && DeclarationVerdict(event, i) == Some(v);
    var j :| 0 <= j < |event.slots| && SoundUpTo(event, j) && DeclarationVerdict(event, j) == Some(w);
    VerdictNone(event, i);
    VerdictNone(event, j);
    SoundIsWellFormed(event, i + 1);
    if i < j {
      SoundLess(event, i + 1, j);
    } else if j < i {
      SoundLess(event, j + 1, i);
    }
  }

  lemma MachineDefectOnce(machine: StateMachine, sets: seq<EnumSet>, v: DefinitionViolation, w: DefinitionViolation)
    requires MachineDefect(machine, sets, v) && MachineDefect(machine, sets, w)
    ensures v == w && !CanonicalMachine(machine, sets)
  {
    hide ModelNamed, EnumSetNamed;
  }

  /** There is only one such defect. */
  lemma DefinitionDefectOnce(definition: DefinitionFile, v: DefinitionViolation, w: DefinitionViolation)
    requires DefinitionDefect(definition, v) && DefinitionDefect(definition, w)
    ensures v == w
  {
    hide EventsSound, EventBlamed, MachineBlamed;
    EventsBlamedOnce(definition, v, w);
    MachinesBlamedOnce(definition, v, w);
  }

  lemma EventsBlamedOnce(definition: DefinitionFile, v: DefinitionViolation, w: DefinitionViolation)
    ensures forall i, j | 0 <= i < |definition.eventTypes| && 0 <= j < |definition.eventTypes|
                          && EventsSound(definition, i) && EventsSound(definition, j)
                          && EventBlamed(definition, i, v) && EventBlamed(definition, j, w) :: v == w
    ensures forall i | 0 <= i < |definition.eventTypes|
                       && (EventBlamed(definition, i, v) || EventBlamed(definition, i, w)) ::
              !EventsSound(definition, |definition.eventTypes|)
  {
    hide EventsSound, EventBlamed;
    forall i: nat, j: nat | i < |definition.eventTypes| && j < |definition.eventTypes|
                            && EventsSound(definition, i) && EventsSound(definition, j)
                            && EventBlamed(definition, i, v) && EventBlamed(definition, j, w)
      ensures v == w
    {
      if i != j {
        BlamedUnsound(definition, i, v, j);
        BlamedUnsound(definition, j, w, i);
      } else {
        SameEventBlamed(definition, i, v, w);
      }
    }
    forall i: nat | i < |definition.eventTypes| && (EventBlamed(definition, i, v) || EventBlamed(definition, i, w))
      ensures !EventsSound(definition, |definition.eventTypes|)
    {
      BlamedUnsound(definition, i, if EventBlamed(definition, i, v) then v else w, |definition.eventTypes|);
    }
  }

  lemma SameEventBlamed(definition: DefinitionFile, i: nat, v: DefinitionViolation, w: DefinitionViolation)
    requires i < |definition.eventTypes| && EventBlamed(definition, i, v) && EventBlamed(definition, i, w)
    ensures v == w
  {
    hide EventDefect;
    if forall j | 0 <= j < i :: definition.eventTypes[j].id != definition.eventTypes[i].id {
      EventDefectOnce(definition.eventTypes[i], v, w);
    }
  }

  /** No longer list of events is sound than up to the one to blame. */
  lemma BlamedUnsound(definition: DefinitionFile, i: nat, v: DefinitionViolation, n: nat)
    requires i < |definition.eventTypes| && EventBlamed(definition, i, v) && n <= |definition.eventTypes|
    ensures i < n ==> !EventsSound(definition, n)
  {
    hide EventDefect, WellFormedEvent;
    if forall j | 0 <= j < i :: definition.eventTypes[j].id != definition.eventTypes[i].id {
      EventDefectOnce(definition.eventTypes[i], v, v);
    }
  }

  lemma MachinesBlamedOnce(definition: DefinitionFile, v: DefinitionViolation, w: DefinitionViolation)
    ensures MachineBlamed(definition, v) && MachineBlamed(definition, w) ==> v == w
  {
    hide MachineDefect, CanonicalMachine;
    if MachineBlamed(definition, v) && MachineBlamed(definition, w) {
      var machines, sets := definition.stateMachines, definition.enumSets;
      var i :| 0 <= i < |machines| && MachinesCanonical(definition, i) && MachineDefect(machines[i], sets, v);
      var j :| 0 <= j < |machines| && MachinesCanonical(definition, j) && MachineDefect(machines[j], sets, w);
      MachineDefectOnce(machines[i], sets, v, v);
      MachineDefectOnce(machines[j], sets, w, w);
      assert i == j;
      MachineDefectOnce(machines[i], sets, v, w);
    }
  }

  lemma OrderedStep(decls: seq<SlotDefinition>, i: nat)
    requires i < |decls| && WellOrdered(decls[..i]) && forall j | 0 <= j < i :: decls[j].key != decls[i].key
    requires i > 0 ==> decls[i - 1].orderClass < decls[i].orderClass
    ensures WellOrdered(decls[..i + 1])
  {
    var d := decls[..i + 1];
    assert forall j | 0 <= j < i :: d[j] == decls[..i][j];
    forall j | 0 <= j < i
      ensures d[j].orderClass < d[i].orderClass
    {
      assert j < i - 1 ==> decls[..i][j].orderClass < decls[..i][i - 1].orderClass;
    }
  }

  /** Accepts exactly the well-formed definitions. */
  method ValidateDefinition(definition: DefinitionFile) returns (defect: Option<DefinitionViolation>)
    ensures defect.None? <==> WellFormed(definition)
    ensures defect.Some? ==> DefinitionDefect(definition, defect.value)
  {
    hide WellFormedEvent, CanonicalMachine, EventDefect, MachineDefect;
    var ids: set<u32> := {};
    for i := 0 to |definition.eventTypes|
      invariant EventsSound(definition, i)
      invariant forall id :: id in ids <==> exists j | 0 <= j < i :: definition.eventTypes[j].id == id
    {
      var event := definition.eventTypes[i];
      if event.id in ids {
        return Some(DuplicateEventId(event.id));
      }
      ids := ids + {event.id};
      var found := ValidateEventDefinition(event);
      if found.Some? {
        return found;
      }
    }
    defect := ValidateStateMachines(definition);
  }

  /** Accepts exactly the definitions whose procedural state machines are canonical; a defect names the machine, and the
  state that is not. */
  method ValidateStateMachines(definition: DefinitionFile) returns (defect: Option<DefinitionViolation>)
    ensures defect.None? <==> MachinesCanonical(definition, |definition.stateMachines|)
    ensures defect.Some? ==> MachineBlamed(definition, defect.value)
  {
    hide ModelNamed, EnumSetNamed;
    for i := 0 to |definition.stateMachines|
      invariant MachinesCanonical(definition, i)
    {
      var machine := definition.stateMachines[i];
      if machine.proceduralModel.None? {
        continue;
      }
      var id, name := machine.stateMachineId, machine.proceduralModel.value;
      var model := ModelNamed(name);
      if model.None? {
        return Some(UnknownProceduralModel(id, name));
      }
      var enumSet := EnumSetNamed(definition.enumSets, machine.enumSet);
      if enumSet.None? {
        return Some(MissingEnumSet(id, machine.enumSet));
      }
      var members := enumSet.value.members;
      for k := 0 to |members|
        invariant forall j | 0 <= j < k :: members[j] in model.value.states
      {
        if members[k] !in model.value.states {
          return Some(ProceduralStateMismatch(id, model.value.name, members[k].value, members[k].text));
        }
      }
    }
    defect := None;
  }

  /** What a defect says of a machine is true: its model is unknown; else its enum set is missing; else this is the
  first of its states that is not canonical. */
  predicate MachineDefect(machine: StateMachine, sets: seq<EnumSet>, v: DefinitionViolation) {
    && machine.proceduralModel.Some?
    && var model, states := ModelNamed(machine.proceduralModel.value), EnumSetNamed(sets, machine.enumSet);
       match v
       case UnknownProceduralModel(id, name) =>
         id == machine.stateMachineId && name == machine.proceduralModel.value && model.None?
       case MissingEnumSet(id, name) =>
         id == machine.stateMachineId && name == machine.enumSet && model.Some? && states.None?
       case ProceduralStateMismatch(id, name, value, text) =>
         && id == machine.stateMachineId && model.Some? && states.Some? && name == model.value.name
         && exists k | 0 <= k < |states.value.members| :: states.value.members[k] == EnumMember(value, text)
              && EnumMember(value, text) !in model.value.states
              && forall j | 0 <= j < k :: states.value.members[j] in model.value.states
       case _ => false
  }

  // ---- One slot --------------------------------------------------------------------------------

  /** `validate_record_slot_type`. */
  function SlotTypeViolation(slot: Slot, d: SlotDefinition): Option<SchemaViolation> {
    match FieldSpec(slot.key)
    case Some(ValuePayload) => if TypeWidth(slot.ty).None? then Some(UnknownTlvType(slot.key, slot.ty)) else None
    case Some(Fixed(ty)) => if slot.ty != ty then Some(TypeMismatch(slot.key, slot.ty, ty)) else None
    case Some(Reserved) => Some(ReservedCoreKey(slot.key))
    case None =>
      if IsCoreKey(slot.key) then Some(ReservedCoreKey(slot.key))
      else if Some(slot.ty) != d.tlvType then Some(TypeMismatch(slot.key, slot.ty, TypeOr(d.tlvType)))
      else None
  }

  /** `validate_value_payload_type`. */
  function ValueTypeViolation(slot: Slot, slots: seq<Slot>, values: seq<ValueDefinition>): (v: Option<SchemaViolation>)
    ensures v.None? <==> ValueTypeOk(slot, slots, values)
    ensures v.Some? ==> v.value.TypeMismatch? && v.value.key == slot.key && v.value.actualType == slot.ty
                        && exists i: nat, d: nat :: RefersTo(slots, values, i, d)
                                                    && v.value.expectedType == values[d].dataType
  {
    ValueTypeDecided(slot, slots, values);
    assert ValueIdOf(slots).Some? && TypeOfValue(values, ValueIdOf(slots).value).Some? ==>
        exists i: nat, d: nat :: RefersTo(slots, values, i, d)
                                 && TypeOfValue(values, ValueIdOf(slots).value).value == values[d].dataType by {
      if ValueIdOf(slots).Some? && TypeOfValue(values, ValueIdOf(slots).value).Some? {
        var i, d := ReferredFound(slots, values);
      }
    }
    if slot.key != KEY_PREVIOUS_VALUE && slot.key != KEY_NEW_VALUE then None
    else
      match ValueIdOf(slots)
      case None => None
      case Some(id) =>
        match TypeOfValue(values, id)
        case None => None
        case Some(ty) => if slot.ty != ty then Some(TypeMismatch(slot.key, slot.ty, ty)) else None
  }

  /** `validate_payload_width`. */
  function WidthViolation(slot: Slot): (v: Option<SchemaViolation>)
    ensures v.None? <==> TypeWidth(slot.ty).Some?
                         && (TypeWidth(slot.ty).value.Some? ==> |slot.payload| == TypeWidth(slot.ty).value.value)
    ensures v.Some? && TypeWidth(slot.ty).None? ==> v.value == UnknownTlvType(slot.key, slot.ty)
    ensures v.Some? && TypeWidth(slot.ty).Some?
            ==> v.value == FixedWidthMismatch(slot.key, slot.ty, |slot.payload|, TypeWidth(slot.ty).value.value)
  {
    match TypeWidth(slot.ty)
    case None => Some(UnknownTlvType(slot.key, slot.ty))
    case Some(width) =>
      if width.Some? && |slot.payload| != width.value
      then Some(FixedWidthMismatch(slot.key, slot.ty, |slot.payload|, width.value))
      else EmptyViolation(slot, width)
  }

  /** Only strings and byte strings may be empty. */
  function EmptyViolation(slot: Slot, width: Option<nat>): Option<SchemaViolation> {
    if |slot.payload| == 0 && slot.ty != 0x0C && slot.ty != 0x0D
    then Some(FixedWidthMismatch(slot.key, slot.ty, 0, if width.Some? then width.value else 1))
    else None
  }

  function SlotViolation(slot: Slot, d: SlotDefinition, slots: seq<Slot>,
                         values: seq<ValueDefinition>): Option<SchemaViolation> {
    if SlotTypeViolation(slot, d).Some? then SlotTypeViolation(slot, d)
    else if ValueTypeViolation(slot, slots, values).Some? then ValueTypeViolation(slot, slots, values)
    else WidthViolation(slot)
  }

  /** The three checks together are the grammar's condition on a slot. */
  lemma SlotChecked(slot: Slot, d: SlotDefinition, slots: seq<Slot>, values: seq<ValueDefinition>)
    requires TypeDeclared(d) && slot.key == d.key
    ensures SlotViolation(slot, d, slots, values).None? <==> SlotOk(slot, d, slots, values)
  {
    hide FieldSpec, ValueTypeOk, TypeWidth;
  }

  /** What is wrong with a declared slot: its type is not the declared one, or unknown where none is declared; else it
  is not that of the datum the record refers to; else its payload does not have the width of its type. */
  lemma SlotViolationMeans(slot: Slot, d: SlotDefinition, slots: seq<Slot>, values: seq<ValueDefinition>)
    requires TypeDeclared(d) && slot.key == d.key
    ensures var v := SlotViolation(slot, d, slots, values);
            if d.tlvType.Some? && slot.ty != d.tlvType.value
            then v == Some(TypeMismatch(slot.key, slot.ty, d.tlvType.value))
            else if TypeWidth(slot.ty).None? then v == Some(UnknownTlvType(slot.key, slot.ty))
            else if !ValueTypeOk(slot, slots, values)
            then exists i: nat, w: nat :: RefersTo(slots, values, i, w)
                                          && v == Some(TypeMismatch(slot.key, slot.ty, values[w].dataType))
            else if TypeWidth(slot.ty).value.Some? && |slot.payload| != TypeWidth(slot.ty).value.value
            then v == Some(FixedWidthMismatch(slot.key, slot.ty, |slot.payload|, TypeWidth(slot.ty).value.value))
            else v == None
  {
    hide FieldSpec, ValueTypeOk, TypeWidth, ValueTypeViolation, WidthViolation, FirstValueId, FromLe;
    ValueKeys(slot.key);
    var v := ValueTypeViolation(slot, slots, values);
    if v.Some? {
      var i: nat, w: nat :| RefersTo(slots, values, i, w) && v.value.expectedType == values[w].dataType;
      ReferredPlaces(slots, values, i, w);
      assert v == Some(TypeMismatch(slot.key, slot.ty, values[w].dataType));
    }
  }

  /** Previous and new values have no type of their own. */
  lemma ValueKeys(key: u16)
    ensures key == KEY_PREVIOUS_VALUE || key == KEY_NEW_VALUE ==> FieldSpec(key) == Some(ValuePayload)
  {
  }

  // ---- Scanning the slots -----------------------------------------------------------------------

  /** Length of the declared slots in front. */
  function KnownLen(slots: seq<Slot>, decls: seq<SlotDefinition>): (n: nat)
    ensures n <= |slots| && (forall i | 0 <= i < n :: Declared(decls, slots[i].key))
    ensures n < |slots| ==> !Declared(decls, slots[n].key)
  {
    if slots == [] || !Declared(decls, slots[0].key) then 0
    else
      assert forall i | 0 <= i < |slots| - 1 :: slots[1..][i] == slots[i + 1];
      KnownLen(slots[1..], decls) + 1
  }

  /** Indices of the slots with this key, ascending. */
  function Places(slots: seq<Slot>, key: u16): (p: seq<nat>)
    ensures |p| == Occurrences(slots, key)
    ensures forall i | 0 <= i < |p| :: p[i] < |slots| && slots[p[i]].key == key
    ensures forall i, j | 0 <= i < j < |p| :: p[i] < p[j]
  {
    if slots == [] then []
    else
      var n := |slots| - 1;
      Places(slots[..n], key) + if slots[n].key == key then [n] else []
  }

  function GetCount(m: map<u16, nat>, key: u16): nat {
    if key in m then m[key] else 0
  }

  function GetPlaces(m: map<u16, seq<nat>>, key: u16): seq<nat> {
    if key in m then m[key] else []
  }

  /** The order class and key of every slot. */
  function Classes(known: seq<Slot>, decls: seq<SlotDefinition>): (c: seq<(u16, u16)>)
    requires forall i | 0 <= i < |known| :: Declared(decls, known[i].key)
    ensures |c| == |known|
  {
    seq(|known|, i requires 0 <= i < |known| => (decls[Rank(decls, known[i].key)].orderClass, known[i].key))
  }

  function KeysOf(slots: seq<Slot>): (k: seq<u16>)
    ensures |k| == |slots|
  {
    seq(|slots|, i requires 0 <= i < |slots| => slots[i].key)
  }

  datatype Scan = Scan(counts: map<u16, nat>, positions: map<u16, seq<nat>>, knownOrder: seq<(u16, u16)>,
                       extensionKeys: seq<u16>)

  /** What the scan has recorded about the declared slots `known` in front and the extensions behind them. */
  ghost predicate Recorded(scan: Scan, known: seq<Slot>, extensions: seq<Slot>, decls: seq<SlotDefinition>,
                           slots: seq<Slot>, values: seq<ValueDefinition>) {
    && AllFit(known, decls, 0, slots, values) && Extensions(extensions, decls)
    && (forall i | 0 <= i < |known| :: Declared(decls, known[i].key))
    && scan.knownOrder == Classes(known, decls) && scan.extensionKeys == KeysOf(extensions)
    && (forall key :: GetCount(scan.counts, key) == Occurrences(known, key))
    && (forall key :: GetPlaces(scan.positions, key) == Places(known, key))
  }

  /** One more declared slot. */
  lemma RecordKnown(scan: Scan, known: seq<Slot>, decls: seq<SlotDefinition>, slots: seq<Slot>,
                    values: seq<ValueDefinition>, slot: Slot, d: SlotDefinition)
    requires Recorded(scan, known, [], decls, slots, values) && Declared(decls, slot.key)
    requires d == decls[Rank(decls, slot.key)] && SlotOk(slot, d, slots, values)
    ensures var key := slot.key;
            Recorded(Scan(scan.counts[key := GetCount(scan.counts, key) + 1],
                          scan.positions[key := GetPlaces(scan.positions, key) + [|known|]],
                          scan.knownOrder + [(d.orderClass, key)], scan.extensionKeys),
                     known + [slot], [], decls, slots, values)
  {
    hide Rank, SlotOk, Declared, Occurrences, Places, Extensions, AllFit;
    var after, key := known + [slot], slot.key;
    assert after[..|known|] == known && after[|known|] == slot;
    FitStep(known, slot, decls, slots, values);
    assert Classes(after, decls) == Classes(known, decls) + [(d.orderClass, key)];
    CountsUpdated(scan.counts, known, slot);
    PlacesUpdated(scan.positions, known, slot);
  }

  lemma FitStep(known: seq<Slot>, slot: Slot, decls: seq<SlotDefinition>, slots: seq<Slot>,
                values: seq<ValueDefinition>)
    requires AllFit(known, decls, 0, slots, values) && Declared(decls, slot.key)
    requires SlotOk(slot, decls[Rank(decls, slot.key)], slots, values)
    ensures AllFit(known + [slot], decls, 0, slots, values)
  {
    hide SlotOk;
  }

  lemma OccurrenceStep(known: seq<Slot>, slot: Slot, k: u16)
    ensures Occurrences(known + [slot], k) == Occurrences(known, k) + if k == slot.key then 1 else 0
    ensures Places(known + [slot], k) == Places(known, k) + if k == slot.key then [|known|] else []
  {
    assert (known + [slot])[..|known|] == known;
  }

  lemma CountsUpdated(counts: map<u16, nat>, known: seq<Slot>, slot: Slot)
    requires forall key :: GetCount(counts, key) == Occurrences(known, key)
    ensures forall key ::
            GetCount(counts[slot.key := GetCount(counts, slot.key) + 1], key) == Occurrences(known + [slot], key)
  {
    hide Occurrences;
    forall key
      ensures GetCount(counts[slot.key := GetCount(counts, slot.key) + 1], key) == Occurrences(known + [slot], key)
    {
      OccurrenceStep(known, slot, key);
      assert GetCount(counts, key) == Occurrences(known, key);
    }
  }

  lemma PlacesUpdated(positions: map<u16, seq<nat>>, known: seq<Slot>, slot: Slot)
    requires forall key :: GetPlaces(positions, key) == Places(known, key)
    ensures forall key :: GetPlaces(positions[slot.key := GetPlaces(positions, slot.key) + [|known|]], key)
                          == Places(known + [slot], key)
  {
    hide Places;
    forall key
      ensures GetPlaces(positions[slot.key := GetPlaces(positions, slot.key) + [|known|]],
                        key) == Places(known + [slot], key)
    {
      OccurrenceStep(known, slot, key);
      assert GetPlaces(positions, key) == Places(known, key);
    }
  }

  /** One more extension. */
  lemma RecordExtension(scan: Scan, known: seq<Slot>, extensions: seq<Slot>, decls: seq<SlotDefinition>,
                        slots: seq<Slot>, values: seq<ValueDefinition>, slot: Slot)
    requires Recorded(scan, known, extensions, decls, slots, values) && !Declared(decls, slot.key)
             && IsVendorKey(slot.key)
    requires extensions == [] || extensions[|extensions| - 1].key < slot.key
    ensures Recorded(scan.(extensionKeys := scan.extensionKeys + [slot.key]), known, extensions + [slot], decls,
                     slots, values)
  {
    hide Rank, SlotOk, Declared, AllFit, Occurrences, Places;
    var n, after := |extensions|, extensions + [slot];
    assert KeysOf(after) == KeysOf(extensions) + [slot.key];
    forall i | 0 <= i < n
      ensures after[i].key < after[n].key
    {
      assert i < n - 1 ==> extensions[i].key < extensions[n - 1].key;
    }
  }

  /** The list is refused: whatever follows, the checks cannot pass. */
  ghost predicate Refused(slots: seq<Slot>, decls: seq<SlotDefinition>, values: seq<ValueDefinition>) {
    !Passes(slots, KnownLen(slots, decls), decls, 0, slots, values)
  }

  /** What is wrong with slot `i`, given the slots before it. */
  function SlotVerdict(slots: seq<Slot>, i: nat, decls: seq<SlotDefinition>,
                       values: seq<ValueDefinition>): Option<SchemaViolation>
    requires i < |slots|
  {
    var m, key := KnownLen(slots, decls), slots[i].key;
    if Declared(decls, key) then
      if m < i then Some(VendorExtensionNotTrailing(key))
      else SlotViolation(slots[i], decls[Rank(decls, key)], slots, values)
    else if !IsVendorKey(key) then Some(UnexpectedCoreKey(key))
    else if m < i && key <= slots[i - 1].key then Some(VendorExtensionOutOfOrder(slots[i - 1].key, key))
    else None
  }

  /** The first `n` slots are all right, one by one. */
  ghost predicate FineUpTo(slots: seq<Slot>, n: nat, decls: seq<SlotDefinition>, values: seq<ValueDefinition>)
    requires n <= |slots|
  {
    forall i | 0 <= i < n :: SlotVerdict(slots, i, decls, values).None?
  }

  /** The violation is that of the first slot that is wrong. */
  ghost predicate SlotBlamed(v: SchemaViolation, slots: seq<Slot>, decls: seq<SlotDefinition>,
                             values: seq<ValueDefinition>) {
    exists i | 0 <= i < |slots| && FineUpTo(slots, i, decls, values) :: SlotVerdict(slots, i, decls, values) == Some(v)
  }

  /** The key is the least whose slots are scattered. */
  predicate Scattered(known: seq<Slot>, key: u16) {
    !IsContiguous(Places(known, key)) && forall k: u16 | k < key :: IsContiguous(Places(known, k))
  }

  /** The violation names the first slot whose order class is below that of its predecessor. */
  predicate OutOfOrder(v: SchemaViolation, classes: seq<(u16, u16)>) {
    exists i | 0 < i < |classes| && Ascends(classes, i) ::
      v == OrderClassViolation(classes[i - 1].0, classes[i].0, classes[i].1) && classes[i].0 < classes[i - 1].0
  }

  predicate Ascends(classes: seq<(u16, u16)>, n: nat)
    requires n <= |classes|
  {
    forall a, b | 0 <= a < b < n :: classes[a].0 <= classes[b].0
  }

  /** The first `n` declarations have as many slots as they allow. */
  predicate CountedUpTo(known: seq<Slot>, decls: seq<SlotDefinition>, n: nat)
    requires n <= |decls|
  {
    forall j | 0 <= j < n :: InBounds(Occurrences(known, decls[j].key), decls[j])
  }

  /** The violation is that of the first declaration with too few or too many slots. */
  ghost predicate Miscounted(v: SchemaViolation, known: seq<Slot>, decls: seq<SlotDefinition>) {
    exists i | 0 <= i < |decls| && CountedUpTo(known, decls, i) ::
      CountViolation(v, decls[i], Occurrences(known, decls[i].key))
  }

  predicate AllContiguous(known: seq<Slot>) {
    forall key: u16 :: IsContiguous(Places(known, key))
  }

  /** The violation that a list of slots is refused for: that of the first wrong slot; else of the least scattered key;
  else of the first slot out of order; else of the first declaration with too few or too many slots. */
  ghost predicate Explains(v: SchemaViolation, slots: seq<Slot>, decls: seq<SlotDefinition>,
                           values: seq<ValueDefinition>) {
    var known := slots[..KnownLen(slots, decls)];
    var classes := Classes(known, decls);
    || SlotBlamed(v, slots, decls, values)
    || (FineUpTo(slots, |slots|, decls, values)
        && (|| (v.RepeatedSlotNotContiguous? && Scattered(known, v.key))
            || (AllContiguous(known) && OutOfOrder(v, classes))
            || (AllContiguous(known) && Ascends(classes, |classes|) && Miscounted(v, known, decls))))
  }

  /** There is only one such violation. */
  lemma ExplainedOnce(v: SchemaViolation, w: SchemaViolation, slots: seq<Slot>, decls: seq<SlotDefinition>,
                      values: seq<ValueDefinition>)
    requires Explains(v, slots, decls, values) && Explains(w, slots, decls, values)
    ensures v == w
  {
    hide KnownLen, SlotBlamed, FineUpTo, Scattered, AllContiguous, Classes, OutOfOrder, Ascends, Miscounted;
    var known := slots[..KnownLen(slots, decls)];
    BlamedOnce(v, w, slots, decls, values);
    ScatteredOnce(v, w, known);
    DisorderedOnce(v, w, Classes(known, decls));
    MiscountedOnce(v, w, known, decls);
  }

  lemma BlamedOnce(v: SchemaViolation, w: SchemaViolation, slots: seq<Slot>, decls: seq<SlotDefinition>,
                   values: seq<ValueDefinition>)
    ensures SlotBlamed(v, slots, decls, values) && SlotBlamed(w, slots, decls, values) ==> v == w
    ensures SlotBlamed(v, slots, decls, values) || SlotBlamed(w, slots, decls, values)
            ==> !FineUpTo(slots, |slots|, decls, values)
  {
    hide SlotVerdict;
  }

  lemma ScatteredOnce(v: SchemaViolation, w: SchemaViolation, known: seq<Slot>)
    ensures var s := v.RepeatedSlotNotContiguous? && Scattered(known, v.key);
            var t := w.RepeatedSlotNotContiguous? && Scattered(known, w.key);
            (s && t ==> v == w) && (s || t ==> !AllContiguous(known))
  {
    hide Places, IsContiguous;
  }

  lemma DisorderedOnce(v: SchemaViolation, w: SchemaViolation, classes: seq<(u16, u16)>)
    ensures OutOfOrder(v, classes) && OutOfOrder(w, classes) ==> v == w
    ensures OutOfOrder(v, classes) || OutOfOrder(w, classes) ==> !Ascends(classes, |classes|)
  {
    if OutOfOrder(v, classes) && OutOfOrder(w, classes) {
      var i :| 0 < i < |classes| && Ascends(classes, i) && classes[i].0 < classes[i - 1].0
               && v == OrderClassViolation(classes[i - 1].0, classes[i].0, classes[i].1);
      var j :| 0 < j < |classes| && Ascends(classes, j) && classes[j].0 < classes[j - 1].0
               && w == OrderClassViolation(classes[j - 1].0, classes[j].0, classes[j].1);
      assert i == j;
    }
  }

  lemma MiscountedOnce(v: SchemaViolation, w: SchemaViolation, known: seq<Slot>, decls: seq<SlotDefinition>)
    ensures Miscounted(v, known, decls) && Miscounted(w, known, decls) ==> v == w
  {
    hide Occurrences;
    if Miscounted(v, known, decls) && Miscounted(w, known, decls) {
      var i :| 0 <= i < |decls| && CountedUpTo(known, decls, i)
               && CountViolation(v, decls[i], Occurrences(known, decls[i].key));
      var j :| 0 <= j < |decls| && CountedUpTo(known, decls, j)
               && CountViolation(w, decls[j], Occurrences(known, decls[j].key));
      assert i == j;
    }
  }

  lemma BadExtension(slots: seq<Slot>, i: nat, decls: seq<SlotDefinition>, values: seq<ValueDefinition>)
    requires KnownLen(slots, decls) <= i < |slots|
    requires Declared(decls, slots[i].key) || !IsVendorKey(slots[i].key)
             || (KnownLen(slots, decls) < i && slots[i].key <= slots[i - 1].key)
    ensures Refused(slots, decls, values)
  {
    hide AllFit, InRankOrder, CountsFit, Declared, KnownLen;
    var m := KnownLen(slots, decls);
    assert slots[m..][i - m] == slots[i];
    assert m < i ==> slots[m..][i - 1 - m] == slots[i - 1];
  }

  lemma BadSlot(slots: seq<Slot>, i: nat, decls: seq<SlotDefinition>, values: seq<ValueDefinition>)
    requires i < KnownLen(slots, decls) && !SlotOk(slots[i], decls[Rank(decls, slots[i].key)], slots, values)
    ensures Refused(slots, decls, values)
  {
    hide InRankOrder, CountsFit, Declared, KnownLen, SlotOk, Rank, Extensions;
    assert slots[..KnownLen(slots, decls)][i] == slots[i];
  }

  /** The declarations by key. */
  method SchemaByKey(decls: seq<SlotDefinition>) returns (m: map<u16, SlotDefinition>)
    requires WellOrdered(decls)
    ensures forall key: u16 :: key in m <==> Declared(decls, key)
    ensures forall key: u16 | key in m :: m[key] == decls[Rank(decls, key)]
  {
    hide Rank;
    m := map[];
    for i := 0 to |decls|
      invariant forall key: u16 :: key in m <==> exists j | 0 <= j < i :: decls[j].key == key
      invariant forall j | 0 <= j < i :: decls[j].key in m && m[decls[j].key] == decls[j]
    {
      m := m[decls[i].key := decls[i]];
    }
    forall key: u16 | key in m
      ensures m[key] == decls[Rank(decls, key)]
    {
      var j :| 0 <= j < |decls| && decls[j].key == key;
      RankAt(decls, j);
    }
  }

  /** The scan is at slot `i`: `m` declared slots in front, then extensions. */
  ghost predicate Scanning(scan: Scan, i: nat, m: nat, slots: seq<Slot>, decls: seq<SlotDefinition>,
                           values: seq<ValueDefinition>) {
    && m <= i <= |slots| && (if m < i then m == KnownLen(slots, decls) else i <= KnownLen(slots, decls))
    && Recorded(scan, slots[..m], slots[m..i], decls, slots, values)
  }

  /** The first loop of `validate_record_slots`: sorts the slots into declared ones and extensions, checking each. */
  method ScanSlots(slots: seq<Slot>, event: EventTypeDefinition, values: seq<ValueDefinition>)
    returns (res: Result<Scan, SchemaViolation>)
    requires WellFormedEvent(event)
    ensures var m := KnownLen(slots, event.slots);
            res.Ok? ==> Recorded(res.value, slots[..m], slots[m..], event.slots, slots, values)
    ensures res.Ok? ==> FineUpTo(slots, |slots|, event.slots, values)
    ensures res.Err? ==> Refused(slots, event.slots, values) && SlotBlamed(res.error, slots, event.slots, values)
  {
    hide Recorded, Refused, WellFormedEvent, Rank, Declared, SlotViolation, KnownLen, SlotOk;
    var decls := event.slots;
    assert WellOrdered(decls) by { EventOrdered(event); }
    var schemaByKey := SchemaByKey(decls);
    var scan := Scan(map[], map[], [], []);
    var previousVendor: Option<u16> := None;
    var sawVendor := false;
    ghost var m := 0;
    ScanStart(slots, decls, values);
    for i := 0 to |slots|
      invariant Scanning(scan, i, m, slots, decls, values)
      invariant sawVendor == (m < i) && previousVendor == if m < i then Some(slots[i - 1].key) else None
      invariant FineUpTo(slots, i, decls, values)
    {
      var slot := slots[i];
      if slot.key in schemaByKey {
        var d := schemaByKey[slot.key];
        if sawVendor {
          BadExtension(slots, i, decls, values);
          return Err(VendorExtensionNotTrailing(slot.key));
        }
        DeclaredType(event, slot, slots, values);
        var violation := SlotViolation(slot, d, slots, values);
        ScanKnown(scan, i, slots, decls, values, d);
        if violation.Some? {
          BadSlot(slots, i, decls, values);
          return Err(violation.value);
        }
        m := i + 1;
        scan := Scan(scan.counts[slot.key := GetCount(scan.counts, slot.key) + 1],
                     scan.positions[slot.key := GetPlaces(scan.positions, slot.key) + [i]],
                     scan.knownOrder + [(d.orderClass, slot.key)], scan.extensionKeys);
      } else if IsVendorKey(slot.key) {
        ScanVendor(scan, i, m, slots, decls, values);
        sawVendor := true;
        if previousVendor.Some? && slot.key <= previousVendor.value {
          BadExtension(slots, i, decls, values);
          return Err(VendorExtensionOutOfOrder(previousVendor.value, slot.key));
        }
        previousVendor := Some(slot.key);
        scan := scan.(extensionKeys := scan.extensionKeys + [slot.key]);
      } else {
        ScanVendor(scan, i, m, slots, decls, values);
        BadExtension(slots, i, decls, values);
        return Err(UnexpectedCoreKey(slot.key));
      }
    }
    ScanEnd(scan, m, slots, decls, values);
    res := Ok(scan);
  }

  lemma EventOrdered(event: EventTypeDefinition)
    requires WellFormedEvent(event)
    ensures WellOrdered(event.slots)
  {
  }

  lemma ScanStart(slots: seq<Slot>, decls: seq<SlotDefinition>, values: seq<ValueDefinition>)
    ensures Scanning(Scan(map[], map[], [], []), 0, 0, slots, decls, values)
  {
    assert slots[..0] == [] && slots[0..0] == [];
  }

  /** The checks on a declared slot are those of its declaration. */
  lemma DeclaredType(event: EventTypeDefinition, slot: Slot, slots: seq<Slot>, values: seq<ValueDefinition>)
    requires WellFormedEvent(event) && Declared(event.slots, slot.key)
    ensures var d := event.slots[Rank(event.slots, slot.key)];
            SlotViolation(slot, d, slots, values).None? <==> SlotOk(slot, d, slots, values)
  {
    hide SlotViolation, SlotOk, TypeDeclared;
    var r := Rank(event.slots, slot.key);
    SlotChecked(slot, event.slots[r], slots, values);
  }

  lemma ScanKnown(scan: Scan, i: nat, slots: seq<Slot>, decls: seq<SlotDefinition>, values: seq<ValueDefinition>,
                  d: SlotDefinition)
    requires i < |slots| && Scanning(scan, i, i, slots, decls, values) && Declared(decls, slots[i].key)
    requires d == decls[Rank(decls, slots[i].key)]
    ensures i < KnownLen(slots, decls)
    ensures SlotOk(slots[i], d, slots, values) ==>
              var key := slots[i].key;
              Scanning(Scan(scan.counts[key := GetCount(scan.counts, key) + 1],
                            scan.positions[key := GetPlaces(scan.positions, key) + [i]],
                            scan.knownOrder + [(d.orderClass, key)], scan.extensionKeys),
                       i + 1, i + 1, slots, decls, values)
  {
    hide Recorded, Rank, SlotOk, Declared;
    assert slots[i..i] == [] && slots[i + 1..i + 1] == [] && slots[..i + 1] == slots[..i] + [slots[i]];
    if SlotOk(slots[i], d, slots, values) {
      RecordKnown(scan, slots[..i], decls, slots, values, slots[i], d);
    }
  }

  lemma ScanVendor(scan: Scan, i: nat, m: nat, slots: seq<Slot>, decls: seq<SlotDefinition>,
                   values: seq<ValueDefinition>)
    requires i < |slots| && Scanning(scan, i, m, slots, decls, values) && !Declared(decls, slots[i].key)
    ensures m == KnownLen(slots, decls)
    ensures IsVendorKey(slots[i].key) && (m < i ==> slots[i - 1].key < slots[i].key) ==>
              Scanning(scan.(extensionKeys := scan.extensionKeys + [slots[i].key]), i + 1, m, slots, decls, values)
  {
    hide Recorded, Declared;
    assert slots[m..i + 1] == slots[m..i] + [slots[i]];
    assert m < i ==> slots[m..i][i - m - 1] == slots[i - 1];
    if IsVendorKey(slots[i].key) && (m < i ==> slots[i - 1].key < slots[i].key) {
      RecordExtension(scan, slots[..m], slots[m..i], decls, slots, values, slots[i]);
    }
  }

  lemma ScanEnd(scan: Scan, m: nat, slots: seq<Slot>, decls: seq<SlotDefinition>, values: seq<ValueDefinition>)
    requires Scanning(scan, |slots|, m, slots, decls, values)
    ensures m == KnownLen(slots, decls) && Recorded(scan, slots[..m], slots[m..], decls, slots, values)
  {
    hide Recorded;
    assert slots[m..|slots|] == slots[m..];
  }

  // ---- Order and counts ------------------------------------------------------------------------------

  predicate IsContiguous(positions: seq<nat>) {
    forall i | 0 <= i < |positions| - 1 :: positions[i + 1] == positions[i] + 1
  }

  /** Positions are contiguous exactly when they are consecutive numbers from the first on. */
  lemma ContiguousMeans(positions: seq<nat>)
    ensures IsContiguous(positions) <==> forall i | 0 <= i < |positions| :: positions[i] == positions[0] + i
  {
    if IsContiguous(positions) {
      forall i: nat | i < |positions|
        ensures positions[i] == positions[0] + i
      {
        ContiguousAt(positions, i);
      }
    }
  }

  lemma {:induction false} ContiguousAt(positions: seq<nat>, i: nat)
    requires IsContiguous(positions) && i < |positions|
    ensures positions[i] == positions[0] + i
  {
    if i == 0 {
    } else {
      ContiguousAt(positions, i - 1);
    }
  }

  lemma {:induction false} PlacesAll(slots: seq<Slot>, key: u16, i: nat)
    requires i < |slots| && slots[i].key == key
    ensures i in Places(slots, key)
  {
    if i == |slots| - 1 {
    } else {
      PlacesAll(slots[..|slots| - 1], key, i);
    }
  }

  /** In rank order the places of every key are contiguous. */
  lemma OrderedContiguous(known: seq<Slot>, decls: seq<SlotDefinition>, key: u16)
    requires InRankOrder(known, decls) && forall i | 0 <= i < |known| :: Declared(decls, known[i].key)
    ensures IsContiguous(Places(known, key))
  {
    hide Rank, Places, Declared;
    var p := Places(known, key);
    forall i | 0 <= i < |p| - 1
      ensures p[i + 1] == p[i] + 1
    {
      var between := p[i] + 1;
      assert p[i] < p[i + 1];
      SameRank(known, decls, p[i], between, p[i + 1]);
      PlacesAll(known, key, between);
      var j :| 0 <= j < |p| && p[j] == between;
      assert j <= i + 1;
    }
  }

  lemma SameRank(known: seq<Slot>, decls: seq<SlotDefinition>, a: nat, b: nat, c: nat)
    requires InRankOrder(known, decls) && a <= b <= c < |known| && known[a].key == known[c].key
    requires forall i | 0 <= i < |known| :: Declared(decls, known[i].key)
    ensures known[b].key == known[a].key
  {
    assert Rank(decls, known[a].key) == Rank(decls, known[b].key);
  }

  lemma EmptyContiguous()
    ensures IsContiguous([])
  {
  }

  lemma LeastScattered(positions: map<u16, seq<nat>>, left: set<u16>, known: seq<Slot>, key: u16)
    requires forall k :: GetPlaces(positions, k) == Places(known, k)
    requires forall k | k in positions.Keys - left :: IsContiguous(Places(known, k))
    requires (forall k | k in left :: key <= k) && !IsContiguous(Places(known, key))
    ensures Scattered(known, key)
  {
    hide Places, IsContiguous;
    EmptyContiguous();
    forall k: u16 | k < key
      ensures IsContiguous(Places(known, k))
    {
      assert GetPlaces(positions, k) == Places(known, k);
      assert k in positions ==> k in positions.Keys - left;
    }
  }

  /** The contiguity loop. It finds nothing that the order loop would let through. */
  method CheckContiguous(positions: map<u16, seq<nat>>, ghost known: seq<Slot>, ghost decls: seq<SlotDefinition>)
    returns (violation: Option<SchemaViolation>)
    requires forall i | 0 <= i < |known| :: Declared(decls, known[i].key)
    requires forall key :: GetPlaces(positions, key) == Places(known, key)
    ensures violation.Some? ==> !InRankOrder(known, decls)
    ensures violation.None? <==> AllContiguous(known)
    ensures violation.Some?
            ==> violation.value.RepeatedSlotNotContiguous? && Scattered(known, violation.value.key)
  {
    hide InRankOrder, Places, Declared, IsContiguous, Scattered;
    EmptyContiguous();
    var left := positions.Keys;
    while left != {}
      invariant left <= positions.Keys
      invariant forall key | key in positions.Keys - left :: IsContiguous(Places(known, key))
      decreases |left|
    {
      LeastExists(left);
      var key :| key in left && forall k | k in left :: key <= k;
      assert positions[key] == GetPlaces(positions, key) == Places(known, key);
      if !IsContiguous(positions[key]) {
        if InRankOrder(known, decls) {
          OrderedContiguous(known, decls, key);
        }
        LeastScattered(positions, left, known, key);
        return Some(RepeatedSlotNotContiguous(key));
      }
      left := left - {key};
    }
    forall key
      ensures IsContiguous(Places(known, key))
    {
      assert GetPlaces(positions, key) == Places(known, key);
      assert key in positions ==> key in positions.Keys - left;
    }
    violation := None;
  }

  /** The order loop: passes exactly the slots in rank order. */
  method CheckOrder(knownOrder: seq<(u16, u16)>, ghost known: seq<Slot>, ghost decls: seq<SlotDefinition>)
    returns (violation: Option<SchemaViolation>)
    requires WellOrdered(decls) && (forall i | 0 <= i < |known| :: Declared(decls, known[i].key))
    requires knownOrder == Classes(known, decls)
    ensures violation.None? <==> InRankOrder(known, decls)
    ensures violation.None? <==> Ascends(knownOrder, |knownOrder|)
    ensures violation.Some? ==> OutOfOrder(violation.value, knownOrder)
  {
    hide Rank, Declared, WellOrdered;
    var previous: Option<u16> := None;
    for i := 0 to |knownOrder|
      invariant previous == if i == 0 then None else Some(knownOrder[i - 1].0)
      invariant Ascends(knownOrder, i)
    {
      if previous.Some? && knownOrder[i].0 < previous.value {
        RankClass(known, decls, i - 1, i);
        return Some(OrderClassViolation(previous.value, knownOrder[i].0, knownOrder[i].1));
      }
      previous := Some(knownOrder[i].0);
    }
    forall a, b | 0 <= a < b < |known|
      ensures Rank(decls, known[a].key) <= Rank(decls, known[b].key)
    {
      RankClass(known, decls, a, b);
    }
    violation := None;
  }

  lemma RankClass(known: seq<Slot>, decls: seq<SlotDefinition>, a: nat, b: nat)
    requires WellOrdered(decls) && a < |known| && b < |known| && forall i | 0 <= i < |known| ::
             Declared(decls, known[i].key)
    ensures Rank(decls, known[a].key) <= Rank(decls, known[b].key)
            <==> Classes(known, decls)[a].0 <= Classes(known, decls)[b].0
  {
    hide Rank;
    var r, s := Rank(decls, known[a].key), Rank(decls, known[b].key);
    assert r < s ==> decls[r].orderClass < decls[s].orderClass;
    assert s < r ==> decls[s].orderClass < decls[r].orderClass;
  }

  /** The violation states the declared bound and the actual count that breaks it. */
  predicate CountViolation(v: SchemaViolation, d: SlotDefinition, actual: nat) {
    if actual < d.minOccurs then v == MissingRequired(d.key, d.minOccurs, actual)
    else d.maxOccurs.Count? && actual > d.maxOccurs.max && v == TooManyOccurrences(d.key, d.maxOccurs.max, actual)
  }

  /** The counting loop. */
  method CheckCounts(counts: map<u16, nat>, decls: seq<SlotDefinition>, ghost known: seq<Slot>)
    returns (violation: Option<SchemaViolation>)
    requires forall key :: GetCount(counts, key) == Occurrences(known, key)
    ensures violation.None? <==> CountsFit(known, decls, 0)
    ensures violation.Some? ==> Miscounted(violation.value, known, decls)
  {
    hide Occurrences;
    for i := 0 to |decls|
      invariant CountedUpTo(known, decls, i)
    {
      var d := decls[i];
      var actual := GetCount(counts, d.key);
      if actual < d.minOccurs {
        return Some(MissingRequired(d.key, d.minOccurs, actual));
      }
      if d.maxOccurs.Count? && actual > d.maxOccurs.max {
        return Some(TooManyOccurrences(d.key, d.maxOccurs.max, actual));
      }
    }
    violation := None;
  }

  // ---- Records -----------------------------------------------------------------------------------------

  predicate AllVendor(slots: seq<Slot>) {
    forall i | 0 <= i < |slots| :: IsVendorKey(slots[i].key)
  }

  /** For a well-formed event definition: accepts exactly the lists that are one block per declared slot in declared
  order, followed by undeclared vendor keys in ascending order, and reports those. */
  method ValidateRecordSlots(slots: seq<Slot>, event: EventTypeDefinition, values: seq<ValueDefinition>)
    returns (res: Result<seq<u16>, SchemaViolation>)
    requires WellFormedEvent(event)
    ensures res.Ok? <==> Matches(slots, event.slots, 0, slots, values)
    ensures res.Ok? ==> var m := KnownLen(slots, event.slots);
                        res.value == KeysOf(slots[m..]) && AllVendor(slots[m..])
    ensures res.Err? ==> Explains(res.error, slots, event.slots, values)
  {
    hide WellFormedEvent, Refused, Matches, KnownLen, AllFit, InRankOrder, CountsFit, WellOrdered, Declared, SlotBlamed;
    hide FineUpTo, AllContiguous, Scattered, OutOfOrder, Ascends, Miscounted, Occurrences, Places;
    var decls := event.slots;
    assert WellOrdered(decls) by { EventOrdered(event); }
    ghost var m := KnownLen(slots, decls);
    Decided(slots, decls, values);
    var scanned := ScanSlots(slots, event, values);
    match scanned
    case Err(violation) =>
      return Err(violation);
    case Ok(scan) =>
      var contiguous := CheckContiguous(scan.positions, slots[..m], decls);
      if contiguous.Some? {
        return Err(contiguous.value);
      }
      var order := CheckOrder(scan.knownOrder, slots[..m], decls);
      if order.Some? {
        return Err(order.value);
      }
      var counts := CheckCounts(scan.counts, decls, slots[..m]);
      if counts.Some? {
        return Err(counts.value);
      }
      res := Ok(scan.extensionKeys);
  }

  /** The checks at the end of the declared slots decide. */
  lemma Decided(slots: seq<Slot>, decls: seq<SlotDefinition>, values: seq<ValueDefinition>)
    requires WellOrdered(decls)
    ensures var m := KnownLen(slots, decls);
            && (Matches(slots, decls, 0, slots, values) <==> Passes(slots, m, decls, 0, slots, values))
            && (Refused(slots, decls, values) <==> !Matches(slots, decls, 0, slots, values))
  {
    hide Matches, WellOrdered, InRankOrder, CountsFit;
    GrammarChecked(slots, decls, values);
    forall n: nat | Passes(slots, n, decls, 0, slots, values)
      ensures n == KnownLen(slots, decls)
    {
      SplitsThere(slots, n, decls, values);
    }
  }

  lemma SplitsThere(slots: seq<Slot>, n: nat, decls: seq<SlotDefinition>, values: seq<ValueDefinition>)
    requires n <= |slots| && AllFit(slots[..n], decls, 0, slots, values) && Extensions(slots[n..], decls)
    ensures n == KnownLen(slots, decls)
  {
    hide SlotOk, Declared, KnownLen;
    var m := KnownLen(slots, decls);
    assert n < |slots| ==> slots[n..][0] == slots[n] && !Declared(decls, slots[n].key);
    forall i | 0 <= i < n
      ensures Declared(decls, slots[i].key)
    {
      assert slots[..n][i] == slots[i];
      assert Rank(decls, slots[..n][i].key) < |decls|;
    }
  }

  /** `placeholder`: the envelope and every raw slot are kept. */
  function KeepRaw(record: Record, reason: SchemaViolation): SchemaValidation {
    Placeholder(record.sourceId, record.eventTypeId, record.runId, record.seqNo, record.slots, reason)
  }

  /** The first definition of an event id. */
  function FindEvent(events: seq<EventTypeDefinition>, id: u32): (e: Option<EventTypeDefinition>)
    ensures e.Some? ==> e.value in events && e.value.id == id
    ensures e.None? ==> forall i | 0 <= i < |events| :: events[i].id != id
  {
    Find(events, (e: EventTypeDefinition) => e.id == id)
  }

  /** The record conforms to a sound definition: within its limits, of a known event type, and with slots that follow
  that event's grammar. */
  ghost predicate Conforms(record: Record, recordLen: nat, definition: DefinitionFile) {
    && WellFormed(definition) && recordLen <= definition.maxRecordSize && |record.slots| <= definition.maxSlots
    && match FindEvent(definition.eventTypes, record.eventTypeId)
       case None => false
       case Some(event) => Matches(record.slots, event.slots, 0, record.slots, definition.values)
  }

  /** The reason a record is refused: the first limit it breaks, else a true violation of its event's grammar. */
  ghost predicate Grounds(record: Record, recordLen: nat, definition: DefinitionFile, reason: SchemaViolation) {
    if !WellFormed(definition) then reason.Definition? && DefinitionDefect(definition, reason.defect)
    else if recordLen > definition.maxRecordSize then reason == RecordTooLarge(recordLen, definition.maxRecordSize)
    else if |record.slots| > definition.maxSlots then reason == TooManySlots(|record.slots|, definition.maxSlots)
    else
      match FindEvent(definition.eventTypes, record.eventTypeId)
      case None => reason == UnknownEventId(record.eventTypeId)
      case Some(event) => Explains(reason, record.slots, event.slots, definition.values)
  }

  /** Every previous and every new value has the type of the datum that the record refers to. */
  predicate ValuesTyped(slots: seq<Slot>, values: seq<ValueDefinition>) {
    forall i, j, v | 0 <= i < |slots| && 0 <= j < |slots| && 0 <= v < |values| && RefersTo(slots, values, j, v)
                     && (slots[i].key == 0x0F || slots[i].key == 0x10) ::
      slots[i].ty == values[v].dataType
  }

  lemma AllValuesTyped(slots: seq<Slot>, event: EventTypeDefinition, values: seq<ValueDefinition>)
    requires WellFormedEvent(event) && Matches(slots, event.slots, 0, slots, values)
    ensures ValuesTyped(slots, values)
  {
    hide Matches, WellFormedEvent, RefersTo;
    forall i: nat | i < |slots| && (slots[i].key == 0x0F || slots[i].key == 0x10)
      ensures ValueTypeOk(slots[i], slots, values)
    {
      ValueSlotFits(slots, event, values, i);
    }
  }

  lemma ValueSlotFits(slots: seq<Slot>, event: EventTypeDefinition, values: seq<ValueDefinition>, i: nat)
    requires WellFormedEvent(event) && Matches(slots, event.slots, 0, slots, values) && i < |slots|
    requires slots[i].key < 0x8000
    ensures ValueTypeOk(slots[i], slots, values)
  {
    hide Matches, InRankOrder, CountsFit, KnownLen, ValueTypeOk, Extensions;
    var decls := event.slots;
    Decided(slots, decls, values);
    var m := KnownLen(slots, decls);
    VendorBehind(slots, decls, m, i);
    assert slots[..m][i] == slots[i];
  }

  lemma VendorBehind(slots: seq<Slot>, decls: seq<SlotDefinition>, m: nat, i: nat)
    requires m <= |slots| && i < |slots| && Extensions(slots[m..], decls)
    ensures m <= i ==> IsVendorKey(slots[i].key)
  {
    if m <= i {
      assert slots[m..][i - m] == slots[i];
    }
  }

  /** `validate_record`: a conforming record is valid; any other becomes a placeholder that loses nothing. */
  method ValidateRecord(record: Record, recordLen: nat, definition: DefinitionFile) returns (res: SchemaValidation)
    ensures res.Valid? <==> Conforms(record, recordLen, definition)
    ensures !Conforms(record, recordLen, definition)
            ==> res == Placeholder(record.sourceId, record.eventTypeId, record.runId, record.seqNo, record.slots,
                                   res.reason)
                && Grounds(record, recordLen, definition, res.reason)
    ensures res.Valid? ==> var event := FindEvent(definition.eventTypes, record.eventTypeId).value;
                           var extensions := record.slots[KnownLen(record.slots, event.slots)..];
                           res.extensionKeys == KeysOf(extensions) && AllVendor(extensions)
    ensures res.Valid? ==> ValuesTyped(record.slots, definition.values)
  {
    hide WellFormedEvent, Matches, KnownLen, Explains, DefinitionDefect;
    var defect := ValidateDefinition(definition);
    if defect.Some? {
      return KeepRaw(record, Definition(defect.value));
    }
    if recordLen > definition.maxRecordSize {
      return KeepRaw(record, RecordTooLarge(recordLen, definition.maxRecordSize));
    }
    if |record.slots| > definition.maxSlots {
      return KeepRaw(record, TooManySlots(|record.slots|, definition.maxSlots));
    }
    var event := FindEvent(definition.eventTypes, record.eventTypeId);
    if event.None? {
      return KeepRaw(record, UnknownEventId(record.eventTypeId));
    }
    var checked := ValidateRecordSlots(record.slots, event.value, definition.values);
    match checked
    case Ok(extensionKeys) =>
      AllValuesTyped(record.slots, event.value, definition.values);
      res := Valid(extensionKeys);
    case Err(reason) =>
      res := KeepRaw(record, reason);
  }
}
