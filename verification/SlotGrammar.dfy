/** The grammar of a record's slots: one block per declared slot, then private extensions. */
module SlotGrammar {
  import opened Bytes
  import opened Wire
  import opened Definitions
  import opened FieldTypes

  // ---- Slots ---------------------------------------------------------------------------

  /** The value id a record refers to: its first well-formed one. */
  function ValueIdOf(slots: seq<Slot>): Option<u32> {
    if slots == [] then None
    else if slots[0].key == KEY_VALUE_ID && |slots[0].payload| == 4 then Widths(); Some(FromLe(slots[0].payload))
    else ValueIdOf(slots[1..])
  }

  function TypeOfValue(values: seq<ValueDefinition>, id: u32): Option<byte> {
    if values == [] then None
    else if values[0].valueId == id then Some(values[0].dataType)
    else TypeOfValue(values[1..], id)
  }

  /** Slot `i` is the first well-formed value id. */
  predicate FirstValueId(slots: seq<Slot>, i: nat) {
    && i < |slots| && slots[i].key == KEY_VALUE_ID && |slots[i].payload| == 4
    && forall j | 0 <= j < i :: !(slots[j].key == KEY_VALUE_ID && |slots[j].payload| == 4)
  }

  lemma {:induction false} ValueIdAt(slots: seq<Slot>, id: u32)
    ensures ValueIdOf(slots) == Some(id) <==> exists i: nat :: FirstValueId(slots, i) && FromLe(slots[i].payload) == id
  {
    hide FromLe;
    if slots == [] {
    } else {
      var rest := slots[1..];
      ValueIdAt(rest, id);
      assert forall j | 0 <= j < |rest| :: rest[j] == slots[j + 1];
      if slots[0].key == KEY_VALUE_ID && |slots[0].payload| == 4 {
        assert FirstValueId(slots, 0);
      } else {
        if i: nat :| FirstValueId(slots, i) && FromLe(slots[i].payload) == id {
          assert FirstValueId(rest, i - 1);
        }
        if i: nat :| FirstValueId(rest, i) && FromLe(rest[i].payload) == id {
          assert FirstValueId(slots, i + 1);
        }
      }
    }
  }

  lemma {:induction false} TypeOfValueAt(values: seq<ValueDefinition>, id: u32, ty: byte)
    ensures TypeOfValue(values, id) == Some(ty)
            <==> exists i: nat :: FirstValue(values, id, i) && values[i].dataType == ty
  {
    if values == [] {
    } else {
      var rest := values[1..];
      TypeOfValueAt(rest, id, ty);
      assert forall j | 0 <= j < |rest| :: rest[j] == values[j + 1];
      if values[0].valueId == id {
        assert FirstValue(values, id, 0);
      } else {
        if i: nat :| FirstValue(values, id, i) && values[i].dataType == ty {
          assert FirstValue(rest, id, i - 1);
        }
        if i: nat :| FirstValue(rest, id, i) && rest[i].dataType == ty {
          assert FirstValue(values, id, i + 1);
        }
      }
    }
  }

  /** The record's first well-formed value id names the datum `v`: the first with that id. */
  predicate RefersTo(slots: seq<Slot>, values: seq<ValueDefinition>, i: nat, v: nat) {
    FirstValueId(slots, i) && FirstValue(values, FromLe(slots[i].payload), v)
  }

  /** A previous or new value has the type of the datum the record refers to, if that is defined. */
  predicate ValueTypeOk(slot: Slot, slots: seq<Slot>, values: seq<ValueDefinition>) {
    slot.key == KEY_PREVIOUS_VALUE || slot.key == KEY_NEW_VALUE ==>
      forall i, v | 0 <= i < |slots| && 0 <= v < |values| && RefersTo(slots, values, i, v) ::
        slot.ty == values[v].dataType
  }

  /** What is looked up is the type of the datum the record refers to. */
  lemma ReferredType(slots: seq<Slot>, values: seq<ValueDefinition>, i: nat, v: nat)
    ensures RefersTo(slots, values, i, v)
            ==> ValueIdOf(slots).Some? && TypeOfValue(values, ValueIdOf(slots).value) == Some(values[v].dataType)
  {
    hide FromLe, ValueIdOf, TypeOfValue;
    if RefersTo(slots, values, i, v) {
      Widths();
      ValueIdAt(slots, FromLe(slots[i].payload));
      TypeOfValueAt(values, FromLe(slots[i].payload), values[v].dataType);
    }
  }

  lemma ReferredFound(slots: seq<Slot>, values: seq<ValueDefinition>) returns (i: nat, v: nat)
    requires ValueIdOf(slots).Some? && TypeOfValue(values, ValueIdOf(slots).value).Some?
    ensures RefersTo(slots, values, i, v)
    ensures values[v].dataType == TypeOfValue(values, ValueIdOf(slots).value).value
  {
    hide FromLe, ValueIdOf, TypeOfValue;
    var id := ValueIdOf(slots).value;
    var ty := TypeOfValue(values, id).value;
    ValueIdAt(slots, id);
    TypeOfValueAt(values, id, ty);
    i :| FirstValueId(slots, i) && FromLe(slots[i].payload) == id;
    v :| FirstValue(values, id, v) && values[v].dataType == ty;
  }

  lemma ReferredPlaces(slots: seq<Slot>, values: seq<ValueDefinition>, i: nat, v: nat)
    requires RefersTo(slots, values, i, v)
    ensures i < |slots| && v < |values|
  {
  }

  /** The type that the lookup finds decides. */
  lemma ValueTypeDecided(slot: Slot, slots: seq<Slot>, values: seq<ValueDefinition>)
    ensures ValueTypeOk(slot, slots, values)
            <==> (slot.key == KEY_PREVIOUS_VALUE || slot.key == KEY_NEW_VALUE)
                 && ValueIdOf(slots).Some? && TypeOfValue(values, ValueIdOf(slots).value).Some?
                 ==> slot.ty == TypeOfValue(values, ValueIdOf(slots).value).value
  {
    hide FirstValueId, FirstValue, FromLe, ValueIdOf, TypeOfValue;
    if ValueIdOf(slots).Some? && TypeOfValue(values, ValueIdOf(slots).value).Some? {
      var i, v := ReferredFound(slots, values);
      ReferredPlaces(slots, values, i, v);
    }
    forall i: nat, v: nat | i < |slots| && v < |values| && RefersTo(slots, values, i, v)
      ensures ValueIdOf(slots).Some? && TypeOfValue(values, ValueIdOf(slots).value) == Some(values[v].dataType)
    {
      ReferredType(slots, values, i, v);
    }
  }

  /** The slot has the declared type, or any known type where none is declared, and a payload of the right width. */
  predicate SlotOk(slot: Slot, d: SlotDefinition, slots: seq<Slot>, values: seq<ValueDefinition>) {
    && slot.key == d.key
    && (d.tlvType.Some? ==> slot.ty == d.tlvType.value)
    && TypeWidth(slot.ty).Some?
    && (TypeWidth(slot.ty).value.Some? ==> |slot.payload| == TypeWidth(slot.ty).value.value)
    && ValueTypeOk(slot, slots, values)
  }

  predicate InBounds(n: nat, d: SlotDefinition) {
    d.minOccurs <= n && (d.maxOccurs.Count? ==> n <= d.maxOccurs.max)
  }

  // ---- The grammar ------------------------------------------------------------------------

  predicate Declared(decls: seq<SlotDefinition>, key: u16) {
    exists i | 0 <= i < |decls| :: decls[i].key == key
  }

  /** Private extensions: undeclared vendor keys, strictly ascending. */
  predicate Extensions(slots: seq<Slot>, decls: seq<SlotDefinition>) {
    && (forall i | 0 <= i < |slots| :: IsVendorKey(slots[i].key) && !Declared(decls, slots[i].key))
    && (forall i, j | 0 <= i < j < |slots| :: slots[i].key < slots[j].key)
  }

  predicate Block(block: seq<Slot>, d: SlotDefinition, slots: seq<Slot>, values: seq<ValueDefinition>) {
    InBounds(|block|, d) && forall i | 0 <= i < |block| :: SlotOk(block[i], d, slots, values)
  }

  /** `rest` is one block for each declaration from `k` on, in declared order, followed by private extensions. */
  ghost predicate Matches(rest: seq<Slot>, decls: seq<SlotDefinition>, k: nat, slots: seq<Slot>,
                          values: seq<ValueDefinition>)
    requires k <= |decls|
    decreases |decls| - k
  {
    if k == |decls| then Extensions(rest, decls)
    else exists n: nat | n <= |rest| ::
           Block(rest[..n], decls[k], slots, values) && Matches(rest[n..], decls, k + 1, slots, values)
  }

  /** Declarations with distinct keys in strictly ascending order of class. */
  predicate WellOrdered(decls: seq<SlotDefinition>) {
    forall i, j | 0 <= i < j < |decls| :: decls[i].key != decls[j].key && decls[i].orderClass < decls[j].orderClass
  }

  // ---- The same, as the validator checks it ----------------------------------------------------

  /** Place of the declaration of `key`. */
  function Rank(decls: seq<SlotDefinition>, key: u16): (r: nat)
    ensures r <= |decls| && (r < |decls| <==> Declared(decls, key)) && (r < |decls| ==> decls[r].key == key)
  {
    if decls == [] then 0
    else if decls[0].key == key then 0
    else
      var r := Rank(decls[1..], key);
      assert forall i | 0 <= i < |decls| - 1 :: decls[1..][i] == decls[i + 1];
      assert Declared(decls, key) <==> Declared(decls[1..], key);
      r + 1
  }

  function Occurrences(slots: seq<Slot>, key: u16): nat {
    if slots == [] then 0 else Occurrences(slots[..|slots| - 1], key) + if slots[|slots| - 1].key == key then 1 else 0
  }

  /** Every slot is declared at place `k` or later and fits its declaration. */
  predicate AllFit(known: seq<Slot>, decls: seq<SlotDefinition>, k: nat, slots: seq<Slot>,
                   values: seq<ValueDefinition>) {
    forall i | 0 <= i < |known| ::
      var r := Rank(decls, known[i].key); k <= r < |decls| && SlotOk(known[i], decls[r], slots, values)
  }

  /** The slots come in the order of their declarations. */
  predicate InRankOrder(known: seq<Slot>, decls: seq<SlotDefinition>) {
    forall i, j | 0 <= i < j < |known| :: Rank(decls, known[i].key) <= Rank(decls, known[j].key)
  }

  predicate CountsFit(known: seq<Slot>, decls: seq<SlotDefinition>, k: nat) {
    forall i | k <= i < |decls| :: InBounds(Occurrences(known, decls[i].key), decls[i])
  }

  /** `rest` splits into `m` declared slots that pass the checks, and private extensions. */
  predicate Passes(rest: seq<Slot>, m: nat, decls: seq<SlotDefinition>, k: nat, slots: seq<Slot>,
                   values: seq<ValueDefinition>) {
    && m <= |rest| && AllFit(rest[..m], decls, k, slots, values) && InRankOrder(rest[..m], decls)
    && CountsFit(rest[..m], decls, k) && Extensions(rest[m..], decls)
  }

  lemma {:induction false} RankAt(decls: seq<SlotDefinition>, k: nat)
    requires WellOrdered(decls) && k < |decls|
    ensures Rank(decls, decls[k].key) == k
  {
    var r := Rank(decls, decls[k].key);
    assert Declared(decls, decls[k].key);
    assert decls[r].key == decls[k].key;
  }

  lemma {:induction false} OccurrencesConcat(a: seq<Slot>, b: seq<Slot>, key: u16)
    ensures Occurrences(a + b, key) == Occurrences(a, key) + Occurrences(b, key)
  {
    if b == [] {
      assert a + b == a;
    } else {
      var n := |b| - 1;
      OccurrencesConcat(a, b[..n], key);
      assert (a + b)[..|a| + n] == a + b[..n];
    }
  }

  lemma {:induction false} OccurrencesAll(a: seq<Slot>, key: u16)
    ensures (forall i | 0 <= i < |a| :: a[i].key == key) ==> Occurrences(a, key) == |a|
    ensures (forall i | 0 <= i < |a| :: a[i].key != key) ==> Occurrences(a, key) == 0
  {
    if a == [] {
    } else {
      OccurrencesAll(a[..|a| - 1], key);
    }
  }

  /** From blocks to checks. */
  lemma {:induction false} MatchesPasses(rest: seq<Slot>, decls: seq<SlotDefinition>, k: nat, slots: seq<Slot>,
                                         values: seq<ValueDefinition>) returns (m: nat)
    requires k <= |decls| && WellOrdered(decls) && Matches(rest, decls, k, slots, values)
    ensures Passes(rest, m, decls, k, slots, values)
    decreases |decls| - k
  {
    hide AllFit, InRankOrder, CountsFit, Extensions, Block, WellOrdered;
    if k == |decls| {
      m := 0;
      assert rest[0..] == rest;
      PassesNone(rest[..0], decls, slots, values);
    } else {
      var n: nat :| n <= |rest| && Block(rest[..n], decls[k], slots, values)
                    && Matches(rest[n..], decls, k + 1, slots, values);
      var m' := MatchesPasses(rest[n..], decls, k + 1, slots, values);
      m := n + m';
      assert rest[..m] == rest[..n] + rest[n..][..m'];
      assert rest[m..] == rest[n..][m'..];
      BlockPasses(rest[..n], rest[n..][..m'], decls, k, slots, values);
    }
  }

  lemma PassesNone(known: seq<Slot>, decls: seq<SlotDefinition>, slots: seq<Slot>, values: seq<ValueDefinition>)
    requires known == []
    ensures AllFit(known, decls, |decls|, slots, values) && InRankOrder(known, decls)
            && CountsFit(known, decls, |decls|)
  {
  }

  /** A block in front of slots declared later. */
  lemma BlockPasses(block: seq<Slot>, later: seq<Slot>, decls: seq<SlotDefinition>, k: nat, slots: seq<Slot>,
                    values: seq<ValueDefinition>)
    requires WellOrdered(decls) && k < |decls| && Block(block, decls[k], slots, values)
    requires AllFit(later, decls, k + 1, slots, values) && InRankOrder(later, decls) && CountsFit(later, decls, k + 1)
    ensures AllFit(block + later, decls, k, slots, values) && InRankOrder(block + later, decls)
    ensures CountsFit(block + later, decls, k)
  {
    hide Rank, Occurrences, InBounds, SlotOk;
    RankAt(decls, k);
    assert forall i | 0 <= i < |block| :: block[i].key == decls[k].key by { BlockKeys(block, decls[k], slots, values); }
    forall i | k <= i < |decls|
      ensures InBounds(Occurrences(block + later, decls[i].key), decls[i])
    {
      OccurrencesConcat(block, later, decls[i].key);
      OccurrencesAll(block, decls[i].key);
      if i == k {
        OccurrencesAll(later, decls[k].key);
      }
    }
  }

  lemma BlockKeys(block: seq<Slot>, d: SlotDefinition, slots: seq<Slot>, values: seq<ValueDefinition>)
    requires Block(block, d, slots, values)
    ensures forall i | 0 <= i < |block| :: block[i].key == d.key
  {
  }

  /** How many slots in front have this key. */
  function Leading(slots: seq<Slot>, key: u16): (n: nat)
    ensures n <= |slots| && (forall i | 0 <= i < n :: slots[i].key == key) && (n < |slots| ==> slots[n].key != key)
  {
    if slots == [] || slots[0].key != key then 0
    else
      assert forall i | 0 <= i < |slots| - 1 :: slots[1..][i] == slots[i + 1];
      Leading(slots[1..], key) + 1
  }

  /** In rank order the slots of the first declaration are all in front. */
  lemma FrontBlock(known: seq<Slot>, decls: seq<SlotDefinition>, k: nat, slots: seq<Slot>,
                   values: seq<ValueDefinition>, n: nat)
    requires WellOrdered(decls) && k < |decls| && AllFit(known, decls, k, slots, values) && InRankOrder(known, decls)
    requires CountsFit(known, decls, k) && n == Leading(known, decls[k].key)
    ensures Block(known[..n], decls[k], slots, values)
    ensures AllFit(known[n..], decls, k + 1, slots, values) && InRankOrder(known[n..], decls)
    ensures CountsFit(known[n..], decls, k + 1)
  {
    hide Rank, Occurrences, InBounds, SlotOk, AllFit, InRankOrder, CountsFit, Block;
    assert known == known[..n] + known[n..];
    LaterRanks(known, decls, k, slots, values, n);
    FrontFits(known, decls, k, slots, values, n);
    LaterCounts(known[..n], known[n..], decls, k, slots, values);
  }

  lemma LaterRanks(known: seq<Slot>, decls: seq<SlotDefinition>, k: nat, slots: seq<Slot>,
                   values: seq<ValueDefinition>, n: nat)
    requires WellOrdered(decls) && k < |decls| && AllFit(known, decls, k, slots, values) && InRankOrder(known, decls)
    requires n == Leading(known, decls[k].key)
    ensures AllFit(known[n..], decls, k + 1, slots, values) && InRankOrder(known[n..], decls)
  {
    hide Rank, SlotOk;
    forall i | n <= i < |known|
      ensures Rank(decls, known[i].key) > k
    {
      assert Rank(decls, known[n].key) <= Rank(decls, known[i].key);
      assert Rank(decls, known[n].key) != k;
    }
  }

  lemma FrontFits(known: seq<Slot>, decls: seq<SlotDefinition>, k: nat, slots: seq<Slot>,
                  values: seq<ValueDefinition>, n: nat)
    requires WellOrdered(decls) && k < |decls| && AllFit(known, decls, k, slots, values)
             && n == Leading(known, decls[k].key)
    ensures forall i | 0 <= i < n :: known[..n][i].key == decls[k].key && SlotOk(known[..n][i], decls[k], slots, values)
  {
    hide SlotOk, Leading;
    RankAt(decls, k);
  }

  lemma LaterCounts(block: seq<Slot>, later: seq<Slot>, decls: seq<SlotDefinition>, k: nat, slots: seq<Slot>,
                    values: seq<ValueDefinition>)
    requires WellOrdered(decls) && k < |decls| && CountsFit(block + later, decls, k)
    requires forall i | 0 <= i < |block| :: block[i].key == decls[k].key && SlotOk(block[i], decls[k], slots, values)
    requires AllFit(later, decls, k + 1, slots, values)
    ensures Block(block, decls[k], slots, values) && CountsFit(later, decls, k + 1)
  {
    hide Rank, Occurrences, InBounds, SlotOk;
    RankAt(decls, k);
    forall i | k <= i < |decls|
      ensures Occurrences(block + later, decls[i].key) == (if i == k then |block| else Occurrences(later, decls[i].key))
    {
      OccurrencesConcat(block, later, decls[i].key);
      OccurrencesAll(block, decls[i].key);
      if i == k {
        OccurrencesAll(later, decls[k].key);
      }
    }
  }

  /** From checks to blocks. */
  lemma {:induction false} PassesMatches(rest: seq<Slot>, m: nat, decls: seq<SlotDefinition>, k: nat, slots: seq<Slot>,
                                         values: seq<ValueDefinition>)
    requires k <= |decls| && WellOrdered(decls) && Passes(rest, m, decls, k, slots, values)
    ensures Matches(rest, decls, k, slots, values)
    decreases |decls| - k
  {
    hide AllFit, InRankOrder, CountsFit, Extensions, Block, WellOrdered;
    if k == |decls| {
      NoneLeft(rest[..m], decls, slots, values);
      assert rest[m..] == rest;
    } else {
      var known := rest[..m];
      var n := Leading(known, decls[k].key);
      FrontBlock(known, decls, k, slots, values, n);
      assert rest[n..][..m - n] == known[n..] && rest[n..][m - n..] == rest[m..];
      assert rest[..n] == known[..n];
      PassesMatches(rest[n..], m - n, decls, k + 1, slots, values);
    }
  }

  lemma NoneLeft(known: seq<Slot>, decls: seq<SlotDefinition>, slots: seq<Slot>, values: seq<ValueDefinition>)
    requires AllFit(known, decls, |decls|, slots, values)
    ensures known == []
  {
    hide AllFit;
    if known != [] {
      FitsBelow(known, decls, |decls|, slots, values, 0);
    }
  }

  /** A slot that fits has a declaration. */
  lemma FitsBelow(known: seq<Slot>, decls: seq<SlotDefinition>, k: nat, slots: seq<Slot>, values: seq<ValueDefinition>,
                  i: nat)
    requires AllFit(known, decls, k, slots, values) && i < |known|
    ensures k < |decls|
  {
    assert k <= Rank(decls, known[i].key) < |decls|;
  }

  /** The validator's checks single out exactly the grammar. */
  lemma GrammarChecked(slots: seq<Slot>, decls: seq<SlotDefinition>, values: seq<ValueDefinition>)
    requires WellOrdered(decls)
    ensures Matches(slots, decls, 0, slots, values) <==> exists m: nat :: Passes(slots, m, decls, 0, slots, values)
  {
    hide Matches, Passes;
    if Matches(slots, decls, 0, slots, values) {
      var m := MatchesPasses(slots, decls, 0, slots, values);
    }
    if m: nat :| Passes(slots, m, decls, 0, slots, values) {
      PassesMatches(slots, m, decls, 0, slots, values);
    }
  }
}
