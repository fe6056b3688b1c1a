/** Names, labels and units: what the definition and the registry call a field and its value. */
module Labels {
  import opened Bytes
  import opened Wire
  import opened Registry
  import opened Definitions
  import opened FieldTypes
  import opened Accounting

  /** A decoded value. Floating-point values keep their bits and text keeps its bytes; `Named` is a name substituted for
  an id or a state. */
  datatype ResolvedValue =
    | Bool(on: bool)
    | SInt(value: int)
    | USInt(value: int)
    | UInt(value: int)
    | Int(value: int)
    | UDInt(value: int)
    | DInt(value: int)
    | ULInt(value: int)
    | LInt(value: int)
    | Real(bits: int)
    | LReal(bits: int)
    | DateTime(value: int)
    | Text(bytes: seq<byte>)
    | Raw(bytes: seq<byte>)
    | Named(name: string)

  datatype ResolvedField = ResolvedField(
    key: u16, name: string, typeName: string, value: ResolvedValue, unit: Option<string>, enumLabel: Option<string>)

  /** The ids of a record that its other slots refer to. */
  datatype FieldContext = FieldContext(
    stateMachineId: Option<nat>, category: Option<nat>, valueId: Option<nat>, conditionId: Option<nat>,
    messageTemplateId: Option<nat>)

  function NumberOf(p: Option<seq<byte>>): Option<nat> {
    if p.Some? then Some(FromLe(p.value)) else None
  }

  /** The context a record gives: for each kind of id its last well-formed slot. */
  function ContextOf(slots: seq<Slot>): FieldContext {
    FieldContext(NumberOf(LastPayload(slots, KEY_STATE_MACHINE_ID, 4)), NumberOf(LastPayload(slots, KEY_CATEGORY, 2)),
                 NumberOf(LastPayload(slots, KEY_VALUE_ID, 4)), NumberOf(LastPayload(slots, KEY_CONDITION_ID, 4)),
                 NumberOf(LastPayload(slots, KEY_MESSAGE_TEMPLATE_ID, 4)))
  }

  lemma PayloadStep(slots: seq<Slot>, i: nat, key: u16, width: nat)
    requires i < |slots|
    ensures LastPayload(slots[..i + 1], key, width)
            == if slots[i].key == key && |slots[i].payload| == width then Some(slots[i].payload)
               else LastPayload(slots[..i], key, width)
  {
    assert slots[..i + 1][..i] == slots[..i];
  }

  /** `FieldContext::from_record`: one pass over the slots. */
  method ReadContext(slots: seq<Slot>) returns (context: FieldContext)
    ensures context == ContextOf(slots)
  {
    hide FromLe, LastPayload;
    context := FieldContext(None, None, None, None, None);
    NoPayloads(slots[..0]);
    for i := 0 to |slots|
      invariant context == ContextOf(slots[..i])
    {
      var slot := slots[i];
      PayloadStep(slots, i, KEY_STATE_MACHINE_ID, 4);
      PayloadStep(slots, i, KEY_CATEGORY, 2);
      PayloadStep(slots, i, KEY_VALUE_ID, 4);
      PayloadStep(slots, i, KEY_CONDITION_ID, 4);
      PayloadStep(slots, i, KEY_MESSAGE_TEMPLATE_ID, 4);
      if slot.key == KEY_STATE_MACHINE_ID && |slot.payload| == 4 {
        context := context.(stateMachineId := Some(FromLe(slot.payload)));
      } else if slot.key == KEY_CATEGORY && |slot.payload| == 2 {
        context := context.(category := Some(FromLe(slot.payload)));
      } else if slot.key == KEY_VALUE_ID && |slot.payload| == 4 {
        context := context.(valueId := Some(FromLe(slot.payload)));
      } else if slot.key == KEY_CONDITION_ID && |slot.payload| == 4 {
        context := context.(conditionId := Some(FromLe(slot.payload)));
      } else if slot.key == KEY_MESSAGE_TEMPLATE_ID && |slot.payload| == 4 {
        context := context.(messageTemplateId := Some(FromLe(slot.payload)));
      }
    }
    assert slots[..|slots|] == slots;
  }

  lemma NoPayloads(slots: seq<Slot>)
    requires slots == []
    ensures ContextOf(slots) == FieldContext(None, None, None, None, None)
  {
  }

  /** Each id of the context is that of the last slot with its key and its width. */
  lemma ContextMeans(slots: seq<Slot>, n: nat)
    ensures var c := ContextOf(slots);
            && (c.stateMachineId == Some(n) <==> exists i: nat :: LastAt(slots, 0x01, 4, n, i))
            && (c.category == Some(n) <==> exists i: nat :: LastAt(slots, 0x02, 2, n, i))
            && (c.conditionId == Some(n) <==> exists i: nat :: LastAt(slots, 0x05, 4, n, i))
            && (c.valueId == Some(n) <==> exists i: nat :: LastAt(slots, 0x0D, 4, n, i))
            && (c.messageTemplateId == Some(n) <==> exists i: nat :: LastAt(slots, 0x14, 4, n, i))
  {
    hide FromLe, LastPayload, LastAt;
    LastPayloadAt(slots, 0x01, 4, n);
    LastPayloadAt(slots, 0x02, 2, n);
    LastPayloadAt(slots, 0x05, 4, n);
    LastPayloadAt(slots, 0x0D, 4, n);
    LastPayloadAt(slots, 0x14, 4, n);
  }

  /** The registry gives every key that the context, the labels and the names depend on the width they are read with. */
  lemma RegistryWidths(key: u16)
    ensures key in {0x01, 0x05, 0x09, 0x0D, 0x14}
            ==> FieldSpec(key) == Some(Fixed(0x05)) && TypeWidth(0x05) == Some(Some(4))
    ensures key in {0x02, 0x03, 0x04, 0x08, 0x13, 0x20, 0x22}
            ==> FieldSpec(key) == Some(Fixed(0x03)) && TypeWidth(0x03) == Some(Some(2))
    ensures key in {0x0F, 0x10} ==> FieldSpec(key) == Some(ValuePayload)
  {
  }

  /** And the slots that producers and loss reports write have the types the registry gives to their keys. */
  lemma RegistryTypes(key: u16)
    ensures key in {KEY_MESSAGE_TEMPLATE_ID, KEY_DROPPED_COUNT} ==> FieldSpec(key) == Some(Fixed(TY_UDINT))
    ensures key in {KEY_FIRST_LOST_SEQ, KEY_LAST_LOST_SEQ, KEY_SOURCE_HIGH_WATER, KEY_EPOCH_ID}
            ==> FieldSpec(key) == Some(Fixed(TY_ULINT))
    ensures key in {KEY_DEF_HASH_OLD, KEY_DEF_HASH_NEW} ==> FieldSpec(key) == Some(Fixed(TY_BYTES))
    ensures key == KEY_COLD_START ==> FieldSpec(key) == Some(Fixed(TY_BOOL))
  {
  }

  // ---- Lookups ---------------------------------------------------------------------------------

  function MemberLabel(members: seq<EnumMember>, value: int): Option<string> {
    match Find(members, (m: EnumMember) => m.value == value)
    case Some(m) => Some(m.text)
    case None => None
  }

  /** Bands of the baseline severity scale. */
  function SeverityLabel(severity: int): Option<string> {
    if 1 <= severity <= 332 then Some("Low")
    else if 333 <= severity <= 666 then Some("Medium")
    else if 667 <= severity <= 1000 then Some("High")
    else None
  }

  function MachineOf(definition: DefinitionFile, id: int): Option<StateMachine> {
    Find(definition.stateMachines, (m: StateMachine) => m.stateMachineId == id)
  }

  /** The label a state machine's enum set gives to a state. */
  function StateLabel(definition: DefinitionFile, machineId: int, state: int): Option<string> {
    match MachineOf(definition, machineId)
    case None => None
    case Some(machine) =>
      match EnumSetNamed(definition.enumSets, machine.enumSet)
      case None => None
      case Some(states) => MemberLabel(states.members, state)
  }

  /** `enum_label`: only an unsigned 16-bit value has one. */
  function EnumLabel(key: u16, value: ResolvedValue, context: FieldContext,
                     definition: DefinitionFile): Option<string> {
    if !value.UInt? then None
    else if key == KEY_CATEGORY then MemberLabel(CATEGORY_VALUES, value.value)
    else if key == KEY_AUTH_RESULT then MemberLabel(AUTH_RESULT_VALUES, value.value)
    else if key == KEY_SIGNATURE_MEANING then MemberLabel(SIGNATURE_MEANING_VALUES, value.value)
    else if key == KEY_PREVIOUS_STATE || key == KEY_NEW_STATE then
      if context.stateMachineId.None? then None
      else StateLabel(definition, context.stateMachineId.value, value.value)
    else if key == KEY_SEVERITY then SeverityLabel(value.value)
    else None
  }

  function UnitSymbol(definition: DefinitionFile, id: int): Option<string> {
    match Find(definition.units, (u: Unit) => u.unitId == id)
    case Some(u) => Some(u.symbol)
    case None => None
  }

  function ValueOf(definition: DefinitionFile, id: int): Option<ValueDefinition> {
    Find(definition.values, (v: ValueDefinition) => v.valueId == id)
  }

  /** `unit_label`: the unit a slot names itself, or that of the datum whose value it carries. */
  function UnitLabel(key: u16, value: ResolvedValue, context: FieldContext,
                     definition: DefinitionFile): Option<string> {
    if key == KEY_UNIT then
      if value.UInt? then UnitSymbol(definition, value.value) else None
    else if (key != KEY_PREVIOUS_VALUE && key != KEY_NEW_VALUE) || context.valueId.None? then None
    else
      match ValueOf(definition, context.valueId.value)
      case None => None
      case Some(v) => if v.unit.None? then None else UnitSymbol(definition, v.unit.value)
  }

  /** The condition whose operands a cause refers to. */
  function ConditionOf(definition: DefinitionFile, id: int): Option<Condition> {
    Find(definition.conditions, (c: Condition) => c.conditionId == id)
  }

  function OperandOf(condition: Condition, id: int): Option<Operand> {
    Find(condition.operands, (o: Operand) => o.operandId == id)
  }

  function TemplateOf(definition: DefinitionFile, id: int): Option<Template> {
    Find(definition.templates, (t: Template) => t.messageTemplateId == id)
  }

  /** `semantic_value`: ids that the definition names, and states that have a label, are replaced by that name. */
  function NameOf(key: u16, value: ResolvedValue, context: FieldContext, definition: DefinitionFile): Option<string> {
    if key == KEY_PREVIOUS_STATE || key == KEY_NEW_STATE then EnumLabel(key, value, context, definition)
    else if !value.UDInt? then None
    else if key == KEY_STATE_MACHINE_ID then
      match MachineOf(definition, value.value)
      case Some(m) => Some(m.name)
      case None => None
    else if key == KEY_VALUE_ID then
      match ValueOf(definition, value.value)
      case Some(v) => Some(v.name)
      case None => None
    else if key == KEY_CONDITION_ID then
      match ConditionOf(definition, value.value)
      case Some(c) => Some(c.name)
      case None => None
    else if key == KEY_MESSAGE_TEMPLATE_ID then
      match TemplateOf(definition, value.value)
      case Some(t) => Some(t.format)
      case None => None
    else if key == KEY_CAUSE_OPERAND && context.conditionId.Some? then
      match ConditionOf(definition, context.conditionId.value)
      case None => None
      case Some(c) =>
        match OperandOf(c, value.value)
        case Some(o) => Some(o.name)
        case None => None
    else None
  }

  /** The field name and the type name under which a replaced value is shown. */
  function ReferenceTitle(key: u16): (string, string) {
    if key == KEY_STATE_MACHINE_ID then ("stateMachine", "StateMachineRef")
    else if key == KEY_VALUE_ID then ("value", "ValueRef")
    else if key == KEY_CONDITION_ID then ("condition", "ConditionRef")
    else if key == KEY_MESSAGE_TEMPLATE_ID then ("messageTemplate", "MessageTemplateRef")
    else if key == KEY_CAUSE_OPERAND then ("causeOperand", "CauseOperandRef")
    else (FieldName(key), "StateRef")
  }

  /** The field of a decoded slot: named by the registry and holding its value, unless the value is a reference. */
  function Labelled(key: u16, ty: byte, value: ResolvedValue, context: FieldContext,
                    definition: DefinitionFile): ResolvedField {
    var shown, unit := EnumLabel(key, value, context, definition), UnitLabel(key, value, context, definition);
    match NameOf(key, value, context, definition)
    case None => ResolvedField(key, FieldName(key), TypeName(ty), value, unit, shown)
    case Some(name) =>
      ResolvedField(key, ReferenceTitle(key).0, ReferenceTitle(key).1, Named(name), unit, shown)
  }

  // ---- What the lookups find ---------------------------------------------------------------------

  predicate FirstMachine(machines: seq<StateMachine>, id: int, i: nat) {
    i < |machines| && machines[i].stateMachineId == id && forall j | 0 <= j < i :: machines[j].stateMachineId != id
  }

  predicate FirstSet(sets: seq<EnumSet>, name: string, i: nat) {
    i < |sets| && sets[i].name == name && forall j | 0 <= j < i :: sets[j].name != name
  }

  predicate FirstMember(members: seq<EnumMember>, n: int, i: nat) {
    i < |members| && members[i].value == n && forall j | 0 <= j < i :: members[j].value != n
  }

  predicate FirstUnit(units: seq<Unit>, id: int, i: nat) {
    i < |units| && units[i].unitId == id && forall j | 0 <= j < i :: units[j].unitId != id
  }

  predicate FirstCondition(conditions: seq<Condition>, id: int, i: nat) {
    i < |conditions| && conditions[i].conditionId == id && forall j | 0 <= j < i :: conditions[j].conditionId != id
  }

  predicate FirstOperand(operands: seq<Operand>, id: int, i: nat) {
    i < |operands| && operands[i].operandId == id && forall j | 0 <= j < i :: operands[j].operandId != id
  }

  predicate FirstTemplate(templates: seq<Template>, id: int, i: nat) {
    i < |templates| && templates[i].messageTemplateId == id
    && forall j | 0 <= j < i :: templates[j].messageTemplateId != id
  }

  /** The first entry for `n` has the text. */
  ghost predicate MemberReads(members: seq<EnumMember>, n: int, text: string) {
    exists i: nat :: FirstMember(members, n, i) && members[i].text == text
  }

  /** The first machine with the record's machine id has an enum set, the first of its name, that reads `text` for state
  `n`. */
  ghost predicate StateReads(definition: DefinitionFile, context: FieldContext, n: int, text: string) {
    context.stateMachineId.Some? && exists i: nat, s: nat ::
      && FirstMachine(definition.stateMachines, context.stateMachineId.value, i)
      && FirstSet(definition.enumSets, definition.stateMachines[i].enumSet, s)
      && MemberReads(definition.enumSets[s].members, n, text)
  }

  /** What `text` a slot with key `key` and value `n` is labelled with. */
  ghost predicate ReadsAs(definition: DefinitionFile, context: FieldContext, key: u16, n: int, text: string) {
    || (key == KEY_CATEGORY && MemberReads(CATEGORY_VALUES, n, text))
    || (key == KEY_AUTH_RESULT && MemberReads(AUTH_RESULT_VALUES, n, text))
    || (key == KEY_SIGNATURE_MEANING && MemberReads(SIGNATURE_MEANING_VALUES, n, text))
    || ((key == KEY_PREVIOUS_STATE || key == KEY_NEW_STATE) && StateReads(definition, context, n, text))
    || (key == KEY_SEVERITY && InBand(n, text))
  }

  /** The severity bands: thirds of the scale from 1 to 1000. */
  predicate InBand(n: int, text: string) {
    (1 <= n <= 332 && text == "Low") || (333 <= n <= 666 && text == "Medium") || (667 <= n <= 1000 && text == "High")
  }

  lemma BandFound(n: int, text: string)
    ensures SeverityLabel(n) == Some(text) <==> InBand(n, text)
  {
  }

  lemma MemberFound(members: seq<EnumMember>, n: int, text: string)
    ensures MemberLabel(members, n) == Some(text) <==> MemberReads(members, n, text)
  {
    if MemberReads(members, n, text) {
      var i: nat :| FirstMember(members, n, i) && members[i].text == text;
    }
  }

  lemma StateFound(definition: DefinitionFile, context: FieldContext, n: int, text: string)
    ensures context.stateMachineId.Some?
            ==> (StateLabel(definition, context.stateMachineId.value, n) == Some(text)
                 <==> StateReads(definition, context, n, text))
    ensures context.stateMachineId.None? ==> !StateReads(definition, context, n, text)
  {
    hide MemberReads, MemberLabel, Find;
    if context.stateMachineId.Some? {
      var id := context.stateMachineId.value;
      var found := MachineOf(definition, id);
      if found.Some? {
        var i: nat :| FirstMachine(definition.stateMachines, id, i) && definition.stateMachines[i] == found.value;
        var states := EnumSetNamed(definition.enumSets, found.value.enumSet);
        if states.Some? {
          var s: nat :| FirstSet(definition.enumSets, found.value.enumSet, s) && definition.enumSets[s] == states.value;
          MemberFound(states.value.members, n, text);
        }
      }
    }
  }

  /** A field is labelled exactly with what the registry or the definition reads for its value. */
  lemma EnumLabelReads(key: u16, value: ResolvedValue, context: FieldContext, definition: DefinitionFile, text: string)
    ensures EnumLabel(key, value, context, definition) == Some(text)
            <==> value.UInt? && ReadsAs(definition, context, key, value.value, text)
  {
    hide MemberLabel, MemberReads, StateLabel, StateReads, SeverityLabel, InBand, Find;
    if value.UInt? {
      MemberFound(CATEGORY_VALUES, value.value, text);
      MemberFound(AUTH_RESULT_VALUES, value.value, text);
      MemberFound(SIGNATURE_MEANING_VALUES, value.value, text);
      StateFound(definition, context, value.value, text);
      BandFound(value.value, text);
    }
  }

  /** The unit id that a slot names itself, or that of the first datum with the record's value id. */
  ghost predicate UnitIdOf(definition: DefinitionFile, context: FieldContext, key: u16, value: ResolvedValue, id: int) {
    || (key == KEY_UNIT && value == UInt(id))
    || ((key == KEY_PREVIOUS_VALUE || key == KEY_NEW_VALUE) && context.valueId.Some? && exists i: nat ::
          FirstValue(definition.values, context.valueId.value, i)
          && definition.values[i].unit.Some? && definition.values[i].unit.value == id)
  }

  lemma UnitFound(definition: DefinitionFile, id: int, symbol: string)
    ensures UnitSymbol(definition, id) == Some(symbol)
            <==> exists i: nat :: FirstUnit(definition.units, id, i) && definition.units[i].symbol == symbol
  {
    if i: nat :| FirstUnit(definition.units, id, i) && definition.units[i].symbol == symbol {
      assert UnitSymbol(definition, id) == Some(symbol);
    }
  }

  /** A field shows exactly the symbol of its unit: the first with its unit id. */
  lemma UnitLabelReads(key: u16, value: ResolvedValue, context: FieldContext, definition: DefinitionFile,
                       symbol: string)
    ensures UnitLabel(key, value, context, definition) == Some(symbol)
            <==> exists id, i: nat :: UnitIdOf(definition, context, key, value, id)
                                      && FirstUnit(definition.units, id, i) && definition.units[i].symbol == symbol
  {
    hide UnitSymbol;
    forall id
      ensures UnitSymbol(definition, id) == Some(symbol)
              <==> exists i: nat :: FirstUnit(definition.units, id, i) && definition.units[i].symbol == symbol
    {
      UnitFound(definition, id, symbol);
    }
  }

  /** The name the definition gives to the value `n` of a slot with key `key`: that of the first entry with this id, of
  the record's own condition for an operand, of its own machine for a state. */
  ghost predicate Gives(definition: DefinitionFile, context: FieldContext, key: u16, n: int, name: string) {
    || (key == KEY_STATE_MACHINE_ID && exists i: nat ::
          FirstMachine(definition.stateMachines, n, i) && definition.stateMachines[i].name == name)
    || (key == KEY_VALUE_ID && exists i: nat ::
          FirstValue(definition.values, n, i) && definition.values[i].name == name)
    || (key == KEY_CONDITION_ID && exists i: nat ::
          FirstCondition(definition.conditions, n, i) && definition.conditions[i].name == name)
    || (key == KEY_MESSAGE_TEMPLATE_ID && exists i: nat ::
          FirstTemplate(definition.templates, n, i) && definition.templates[i].format == name)
    || (key == KEY_CAUSE_OPERAND && context.conditionId.Some? && exists i: nat, o: nat ::
          && FirstCondition(definition.conditions, context.conditionId.value, i)
          && FirstOperand(definition.conditions[i].operands, n, o)
          && definition.conditions[i].operands[o].name == name)
    || ((key == KEY_PREVIOUS_STATE || key == KEY_NEW_STATE) && StateReads(definition, context, n, name))
  }

  /** How a replaced value is presented: the name of the field and its type. */
  predicate Titled(f: ResolvedField) {
    || (f.key == 0x01 && f.name == "stateMachine" && f.typeName == "StateMachineRef")
    || (f.key == 0x0D && f.name == "value" && f.typeName == "ValueRef")
    || (f.key == 0x05 && f.name == "condition" && f.typeName == "ConditionRef")
    || (f.key == 0x14 && f.name == "messageTemplate" && f.typeName == "MessageTemplateRef")
    || (f.key == 0x09 && f.name == "causeOperand" && f.typeName == "CauseOperandRef")
    || ((f.key == 0x03 || f.key == 0x04) && f.name == FieldName(f.key) && f.typeName == "StateRef")
  }

  /** The type a field must have for its value to be replaced: 16 bits for a state, 32 for an id. */
  predicate Replaceable(key: u16, value: ResolvedValue) {
    if key == KEY_PREVIOUS_STATE || key == KEY_NEW_STATE then value.UInt? else value.UDInt?
  }

  /** A decoded value is replaced by a name exactly where the definition gives one to it; a field that shows no name
  shows its value under the registry's name and type. */
  lemma NamedExactly(key: u16, ty: byte, value: ResolvedValue, context: FieldContext, definition: DefinitionFile,
                     name: string)
    requires !value.Named?
    ensures Labelled(key, ty, value, context, definition).value == Named(name)
            <==> Replaceable(key, value) && Gives(definition, context, key, value.value, name)
    ensures var f := Labelled(key, ty, value, context, definition);
            && f.key == key && f.unit == UnitLabel(key, value, context, definition)
            && f.enumLabel == EnumLabel(key, value, context, definition)
            && if f.value.Named? then Titled(f)
               else f.value == value && f.name == FieldName(key) && f.typeName == TypeName(ty)
  {
    hide NameOf, Gives, Titled, ReferenceTitle, EnumLabel, UnitLabel;
    NameGiven(key, value, context, definition, name);
    TitleGiven(key, ty, value, context, definition);
  }

  /** What is presented beside the value. */
  lemma TitleGiven(key: u16, ty: byte, value: ResolvedValue, context: FieldContext, definition: DefinitionFile)
    requires !value.Named?
    ensures var f := Labelled(key, ty, value, context, definition);
            && f.key == key && f.unit == UnitLabel(key, value, context, definition)
            && f.enumLabel == EnumLabel(key, value, context, definition)
            && if f.value.Named? then Titled(f)
               else f.value == value && f.name == FieldName(key) && f.typeName == TypeName(ty)
  {
    hide EnumLabel, UnitLabel, MachineOf, ValueOf, ConditionOf, OperandOf, TemplateOf, FieldName, TypeName;
  }

  lemma NameGiven(key: u16, value: ResolvedValue, context: FieldContext, definition: DefinitionFile, name: string)
    ensures NameOf(key, value, context, definition) == Some(name)
            <==> Replaceable(key, value) && Gives(definition, context, key, value.value, name)
  {
    hide EnumLabel, MachineOf, ValueOf, ConditionOf, OperandOf, TemplateOf, StateReads;
    hide FirstMachine, FirstValue, FirstCondition, FirstOperand, FirstTemplate, ReadsAs;
    if key == KEY_PREVIOUS_STATE || key == KEY_NEW_STATE {
      StateNamed(key, value, context, definition, name);
    } else if value.UDInt? {
      MachineNamed(definition, value.value, name);
      ValueNamed(definition, value.value, name);
      ConditionNamed(definition, value.value, name);
      TemplateNamed(definition, value.value, name);
      CauseNamed(definition, context, value.value, name);
    }
  }

  lemma StateNamed(key: u16, value: ResolvedValue, context: FieldContext, definition: DefinitionFile, name: string)
    requires key == KEY_PREVIOUS_STATE || key == KEY_NEW_STATE
    ensures EnumLabel(key, value, context, definition) == Some(name)
            <==> value.UInt? && StateReads(definition, context, value.value, name)
  {
    hide EnumLabel, StateReads, MemberReads, InBand;
    EnumLabelReads(key, value, context, definition, name);
  }

  lemma MachineNamed(definition: DefinitionFile, n: int, name: string)
    ensures MachineOf(definition, n).Some? && MachineOf(definition, n).value.name == name
            <==> exists i: nat ::
                   FirstMachine(definition.stateMachines, n, i) && definition.stateMachines[i].name == name
  {
  }

  lemma ValueNamed(definition: DefinitionFile, n: int, name: string)
    ensures ValueOf(definition, n).Some? && ValueOf(definition, n).value.name == name
            <==> exists i: nat :: FirstValue(definition.values, n, i) && definition.values[i].name == name
  {
  }

  lemma ConditionNamed(definition: DefinitionFile, n: int, name: string)
    ensures ConditionOf(definition, n).Some? && ConditionOf(definition, n).value.name == name
            <==> exists i: nat :: FirstCondition(definition.conditions, n, i) && definition.conditions[i].name == name
  {
  }

  lemma TemplateNamed(definition: DefinitionFile, n: int, name: string)
    ensures TemplateOf(definition, n).Some? && TemplateOf(definition, n).value.format == name
            <==> exists i: nat :: FirstTemplate(definition.templates, n, i) && definition.templates[i].format == name
  {
  }

  lemma OperandNamed(condition: Condition, n: int, name: string)
    ensures OperandOf(condition, n).Some? && OperandOf(condition, n).value.name == name
            <==> exists o: nat :: FirstOperand(condition.operands, n, o) && condition.operands[o].name == name
  {
  }

  lemma CauseNamed(definition: DefinitionFile, context: FieldContext, n: int, name: string)
    ensures context.conditionId.Some?
            ==> var c := ConditionOf(definition, context.conditionId.value);
                c.Some? && OperandOf(c.value, n).Some? && OperandOf(c.value, n).value.name == name
                <==> exists i: nat, o: nat ::
                       && FirstCondition(definition.conditions, context.conditionId.value, i)
                       && FirstOperand(definition.conditions[i].operands, n, o)
                       && definition.conditions[i].operands[o].name == name
  {
    hide OperandOf, FirstOperand;
    if context.conditionId.Some? {
      var c := ConditionOf(definition, context.conditionId.value);
      if c.Some? {
        var i: nat :| FirstCondition(definition.conditions, context.conditionId.value, i)
                      && definition.conditions[i] == c.value;
        OperandNamed(c.value, n, name);
      }
    }
  }
}
