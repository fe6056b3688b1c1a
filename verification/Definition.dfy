/** The definition file: event schemas and the tables that give records their names. */
module Definitions {
  import opened Bytes

  datatype MaxOccurs = Count(max: u16) | Unbounded(text: string)

  datatype SlotDefinition = SlotDefinition(
    key: u16, tlvType: Option<byte>, valuePayload: bool, minOccurs: u16, maxOccurs: MaxOccurs, orderClass: u16)

  datatype EventTypeDefinition = EventTypeDefinition(id: u32, name: string, slots: seq<SlotDefinition>)

  /** A logged datum: its name, its type and its engineering unit. */
  datatype ValueDefinition = ValueDefinition(valueId: u32, name: string, dataType: byte, unit: Option<u16>)

  datatype EnumMember = EnumMember(value: u16, text: string)

  datatype EnumSet = EnumSet(name: string, members: seq<EnumMember>)

  datatype StateMachine = StateMachine(stateMachineId: u32, name: string, proceduralModel: Option<string>,
                                       enumSet: string)

  datatype Operand = Operand(operandId: u32, name: string)

  datatype Condition = Condition(conditionId: u32, name: string, operands: seq<Operand>)

  datatype Template = Template(messageTemplateId: u32, format: string)

  datatype Unit = Unit(unitId: u16, symbol: string)

  datatype Source = Source(sourceId: u32, name: string, path: seq<string>, hierarchy: seq<string>, dynamic: bool)

  datatype DefinitionFile = DefinitionFile(
    maxRecordSize: nat, maxSlots: nat, eventTypes: seq<EventTypeDefinition>, values: seq<ValueDefinition>,
    enumSets: seq<EnumSet>, stateMachines: seq<StateMachine>, conditions: seq<Condition>, templates: seq<Template>,
    units: seq<Unit>, sources: seq<Source>)

  /** The first entry of a table that is `wanted`. */
  function Find<T>(table: seq<T>, wanted: T -> bool): (e: Option<T>)
    ensures e.Some? ==> e.value in table && wanted(e.value)
    ensures e.None? ==> forall i | 0 <= i < |table| :: !wanted(table[i])
    ensures e.Some? ==> exists i | 0 <= i < |table| :: table[i] == e.value && forall j | 0 <= j < i :: !wanted(table[j])
  {
    if table == [] then None
    else if wanted(table[0]) then Some(table[0])
    else
      assert forall i | 0 <= i < |table| - 1 :: table[1..][i] == table[i + 1];
      var rest := Find(table[1..], wanted);
      assert rest.Some? ==> exists i | 0 < i < |table| :: table[i] == rest.value
                                                          && forall j | 0 <= j < i :: !wanted(table[j]) by {
        if rest.Some? {
          var i :| 0 <= i < |table| - 1 && table[1..][i] == rest.value
                   && forall j | 0 <= j < i :: !wanted(table[1..][j]);
          assert table[i + 1] == rest.value;
          assert forall j | 0 < j < i + 1 :: table[j] == table[1..][j - 1];
        }
      }
      rest
  }

  /** Entry `i` is the first datum with this id. */
  predicate FirstValue(values: seq<ValueDefinition>, id: int, i: nat) {
    i < |values| && values[i].valueId == id && forall j | 0 <= j < i :: values[j].valueId != id
  }

  function EnumSetNamed(sets: seq<EnumSet>, name: string): Option<EnumSet> {
    Find(sets, (s: EnumSet) => s.name == name)
  }
}
