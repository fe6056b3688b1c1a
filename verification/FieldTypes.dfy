/** The key and type lookups of the registry that schema validation needs. */
module FieldTypes {
  import opened Bytes
  import opened Definitions

  const KEY_STATE_MACHINE_ID: u16 := 0x01
  const KEY_CATEGORY: u16 := 0x02
  const KEY_PREVIOUS_STATE: u16 := 0x03
  const KEY_NEW_STATE: u16 := 0x04
  const KEY_CONDITION_ID: u16 := 0x05
  const KEY_SEVERITY: u16 := 0x08
  const KEY_CAUSE_OPERAND: u16 := 0x09
  const KEY_VALUE_ID: u16 := 0x0D
  const KEY_PREVIOUS_VALUE: u16 := 0x0F
  const KEY_NEW_VALUE: u16 := 0x10
  const KEY_UNIT: u16 := 0x13
  const KEY_AUTH_RESULT: u16 := 0x20
  const KEY_SIGNATURE_MEANING: u16 := 0x22

  /** Canonical type rule of a core field. */
  datatype FieldKind = Fixed(ty: byte) | ValuePayload | Reserved

  predicate IsCoreKey(key: u16) {
    1 <= key <= 0x7FFF
  }

  predicate IsVendorKey(key: u16) {
    key >= 0x8000
  }

  /** Payload width of a type: `None` for an unknown type, `Some(None)` for a variable-length one. */
  function TypeWidth(ty: byte): (w: Option<Option<nat>>)
    ensures w.Some? && w.value.Some? ==> 1 <= w.value.value <= 8
    ensures w == Some(None) <==> ty == 0x0C || ty == 0x0D
  {
    if ty <= 2 then Some(Some(1))
    else if ty <= 4 then Some(Some(2))
    else if ty <= 6 || ty == 9 then Some(Some(4))
    else if ty <= 0x0B then Some(Some(8))
    else if ty <= 0x0D then Some(None)
    else None
  }

  /** The registry entry of a core key. */
  function FieldSpec(key: u16): Option<FieldKind> {
    if key in {0x0E, 0x2D} then Some(Reserved)
    else if key in {0x0F, 0x10, 0x15} then Some(ValuePayload)
    else if key in {0x01, 0x05, 0x07, 0x09, 0x0A, 0x0C, 0x0D, 0x14, 0x16, 0x1E, 0x23, 0x25, 0x26, 0x28, 0x29, 0x2A,
                    0x34, 0x35}
    then Some(Fixed(5))
    else if key in {0x02, 0x03, 0x04, 0x06, 0x08, 0x11, 0x12, 0x13, 0x20, 0x22, 0x2C, 0x2E, 0x32, 0x33}
        then Some(Fixed(3))
    else if key in {0x0B, 0x1B, 0x1D, 0x1F, 0x21, 0x24, 0x37} then Some(Fixed(0x0C))
    else if key in {0x17, 0x18, 0x2B, 0x2F, 0x31, 0x38, 0x3A} then Some(Fixed(7))
    else if key in {0x19, 0x1A, 0x30} then Some(Fixed(0x0B))
    else if key in {0x1C, 0x39} then Some(Fixed(0x0D))
    else if key == 0x27 then Some(Fixed(0x0A))
    else if key in {0x36, 0x3B} then Some(Fixed(0))
    else None
  }

  /** Canonical names of the core fields, from key 1 on. */
  const FIELD_NAMES: seq<string> := [
    "stateMachineId", "category", "previousState", "newState", "conditionId", "conditionClass", "correlationId",
    "severity", "causeOperand", "actionId", "actor", "contextRef", "valueId", "dataType", "previousValue",
    "newValue", "quality", "semanticRole", "unit", "messageTemplateId", "arg", "count", "firstLostSeq",
    "lastLostSeq", "windowStart", "windowEnd", "sourcePath", "defHashNew", "ackBy", "shelveSecs", "reason",
    "authResult", "workstation", "signatureMeaning", "recipeId", "recipeVersion", "batchId", "materialId",
    "quantity", "programId", "registeredSourceId", "intervalMs", "seqBase", "newPriority", "reserved002D",
    "previousPriority", "signedEventSeq", "effectiveTime", "correctionOf", "clockQuality", "role", "refreshId",
    "groupId", "firstInGroup", "comment", "producedCount", "defHashOld", "epochId", "coldStart"]

  function FieldName(key: u16): string {
    if 1 <= key <= |FIELD_NAMES| then FIELD_NAMES[key - 1] else ""
  }

  const TYPE_NAMES: seq<string> := [
    "Bool", "SInt", "USInt", "UInt", "Int", "UDInt", "DInt", "ULInt", "LInt", "Real", "LReal", "DateTime", "String",
    "Bytes"]

  function TypeName(ty: byte): string {
    if ty < |TYPE_NAMES| then TYPE_NAMES[ty] else ""
  }

  /** Every key that the registry lists has a name of its own place, and no other key has one. */
  lemma NamedFields(key: u16)
    ensures FieldSpec(key).Some? <==> 1 <= key <= |FIELD_NAMES|
    ensures FieldName(key) == if FieldSpec(key).Some? then FIELD_NAMES[key - 1] else ""
    ensures FieldSpec(key).Some? ==> IsCoreKey(key)
  {
  }

  // ---- Value tables ---------------------------------------------------------------------------

  /** Category values. */
  const CATEGORY_VALUES: seq<EnumMember> := [
    EnumMember(0, "ProcessState"), EnumMember(1, "Mode"), EnumMember(2, "Procedural")]

  /** Authorization results. */
  const AUTH_RESULT_VALUES: seq<EnumMember> := [
    EnumMember(0, "Granted"), EnumMember(1, "Denied"), EnumMember(2, "NotRequired"), EnumMember(3, "Pending"),
    EnumMember(4, "Expired")]

  /** Signature meanings. */
  const SIGNATURE_MEANING_VALUES: seq<EnumMember> := [
    EnumMember(0, "Authored"), EnumMember(1, "Reviewed"), EnumMember(2, "Approved"), EnumMember(3, "Verified"),
    EnumMember(4, "Performed"), EnumMember(5, "Witnessed")]

  /** A procedural model and its canonical states. */
  datatype ProceduralModel = ProceduralModel(name: string, states: seq<EnumMember>)

  /** States of procedural model A. */
  const MODEL_A_STATES: seq<EnumMember> := [
    EnumMember(0, "Idle"), EnumMember(1, "Running"), EnumMember(2, "Complete"), EnumMember(3, "Pausing"),
    EnumMember(4, "Paused"), EnumMember(5, "Holding"), EnumMember(6, "Held"), EnumMember(7, "Restarting"),
    EnumMember(8, "Stopping"), EnumMember(9, "Stopped"), EnumMember(10, "Aborting"), EnumMember(11, "Aborted")]

  /** States of procedural model B. */
  const MODEL_B_STATES: seq<EnumMember> := [
    EnumMember(0, "Idle"), EnumMember(1, "Starting"), EnumMember(2, "Execute"), EnumMember(3, "Completing"),
    EnumMember(4, "Complete"), EnumMember(5, "Holding"), EnumMember(6, "Held"), EnumMember(7, "Unholding"),
    EnumMember(8, "Suspending"), EnumMember(9, "Suspended"), EnumMember(10, "Unsuspending"),
    EnumMember(11, "Stopping"), EnumMember(12, "Stopped"), EnumMember(13, "Aborting"), EnumMember(14, "Aborted"),
    EnumMember(15, "Clearing"), EnumMember(16, "Resetting")]

  const PROCEDURAL_MODELS: seq<ProceduralModel> := [
    ProceduralModel("ISA-88", MODEL_A_STATES), ProceduralModel("PackML", MODEL_B_STATES)]

  function LowerChar(c: char): char {
    if 'A' <= c <= 'Z' then c - 'A' + 'a' else c
  }

  /** Equality up to the case of ASCII letters. */
  predicate SameIgnoringCase(a: string, b: string) {
    |a| == |b| && forall i | 0 <= i < |a| :: LowerChar(a[i]) == LowerChar(b[i])
  }

  /** The two are the small and the capital form of one ASCII letter. */
  predicate TwoCases(a: char, b: char) {
    'A' <= a <= 'Z' && 'a' <= b <= 'z' && b as int - a as int == 32
  }

  /** Names count as the same exactly when they differ in nothing but the case of ASCII letters. */
  lemma CaseIgnored(a: string, b: string)
    ensures SameIgnoringCase(a, b)
            <==> |a| == |b| && forall i | 0 <= i < |a| :: a[i] == b[i] || TwoCases(a[i], b[i]) || TwoCases(b[i], a[i])
  {
    forall c: char, d: char
      ensures LowerChar(c) == LowerChar(d) <==> c == d || TwoCases(c, d) || TwoCases(d, c)
    {
    }
  }
}
