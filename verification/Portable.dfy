/**
 * Which nodes the port translates, said of their keywords alone.
 */
module Portable {
  import opened Wrappers
  import opened Utf16
  import opened JsonSchema
  import opened Wire
  import opened Lowering
  import opened Port

  datatype Name =
    | RefName | AnyOfName | OneOfName | ConstName | TypeName | EnumName | MaxLengthName | MinLengthName | FormatName
    | PatternName | DescriptionName | MinimumName | MaximumName | ItemsName | MinItemsName | MaxItemsName
    | PropertiesName | RequiredName | AdditionalName | MinPropertiesName

  /** The node has no keyword but these. */
  predicate Only(kw: Keywords, allowed: set<Name>) {
    && kw.others == {}
    && (kw.ref.Some? ==> RefName in allowed) && (kw.anyOf.Some? ==> AnyOfName in allowed)
    && (kw.oneOf.Some? ==> OneOfName in allowed) && (kw.constant.Some? ==> ConstName in allowed)
    && (kw.typ.Some? ==> TypeName in allowed) && (kw.enumeration.Some? ==> EnumName in allowed)
    && (kw.maxLength.Some? ==> MaxLengthName in allowed) && (kw.minLength.Some? ==> MinLengthName in allowed)
    && (kw.format.Some? ==> Name.FormatName in allowed) && (kw.pattern.Some? ==> PatternName in allowed)
    && (kw.description.Some? ==> DescriptionName in allowed) && (kw.minimum.Some? ==> MinimumName in allowed)
    && (kw.maximum.Some? ==> MaximumName in allowed) && (kw.items.Some? ==> ItemsName in allowed)
    && (kw.minItems.Some? ==> MinItemsName in allowed) && (kw.maxItems.Some? ==> MaxItemsName in allowed)
    && (kw.properties.Some? ==> PropertiesName in allowed) && (kw.required.Some? ==> RequiredName in allowed)
    && (kw.additionalProperties.Some? ==> AdditionalName in allowed)
    && (kw.minProperties.Some? ==> MinPropertiesName in allowed)
  }

  predicate WordUnit(u: CodeUnit) {
    || 'A' as int <= u <= 'Z' as int || 'a' as int <= u <= 'z' as int
    || '0' as int <= u <= '9' as int || u == '_' as int
  }

  predicate PortableReference(names: set<Text>, kw: Keywords) {
    && Only(kw, {RefName}) && kw.ref.Some? && kw.ref.value.Named? && kw.ref.value.prefix == Defs
    && kw.ref.value.name in names && |kw.ref.value.name| > 0
    && forall i :: 0 <= i < |kw.ref.value.name| ==> WordUnit(kw.ref.value.name[i])
  }

  predicate IsNullType(node: Schema) {
    node.Node? && Only(node.kw, {TypeName}) && node.kw.typ == Some(NullType)
  }

  ghost predicate SafeLength(limit: Option<Json>) {
    limit.Some? ==>
      limit.value.Num? && exists k: int :: 0 <= k <= 0x1F_FFFF_FFFF_FFFF && AsReal(k) == limit.value.n
  }

  function AsReal(k: int): real {
    k as real
  }

  predicate IsNumber(limit: Option<Json>) {
    limit.Some? && limit.value.Num?
  }

  ghost predicate PortableString(kw: Keywords) {
    if kw.enumeration.Some? then
      && Only(kw, {TypeName, EnumName}) && kw.enumeration.value.Arr? && |kw.enumeration.value.items| > 0
      && forall i :: 0 <= i < |kw.enumeration.value.items| ==> kw.enumeration.value.items[i].Str?
    else
      && Only(kw, {TypeName, MaxLengthName, MinLengthName, Name.FormatName, PatternName, DescriptionName})
      && (kw.format.Some? ==> kw.format.value.Known?) && SafeLength(kw.maxLength) && SafeLength(kw.minLength)
  }

  /** The required names are those of the properties at `picks`, and of no other property. */
  ghost predicate Picks(picks: seq<int>, entries: seq<Property>, required: seq<Json>) {
    && |picks| == |required| && (forall j :: 0 <= j < |picks| ==> 0 <= picks[j] < |entries|)
    && (forall i, j :: 0 <= i < j < |picks| ==> picks[i] < picks[j])
    && (forall j :: 0 <= j < |picks| ==> required[j] == Str(entries[picks[j]].name))
    && forall i :: 0 <= i < |entries| && Str(entries[i].name) in required ==> i in picks
  }

  ghost predicate PortableStrict(kw: Keywords) {
    && Only(kw, {TypeName, PropertiesName, RequiredName, AdditionalName, MinPropertiesName, DescriptionName})
    && kw.additionalProperties == Some(Bool(false)) && kw.properties.Some? && kw.properties.value.Table?
    && kw.required.Some? && kw.required.value.Arr?
    && exists picks :: Picks(picks, kw.properties.value.entries, kw.required.value.items)
  }

  /** The node is one of the forms that the contract uses; unions stand at the top level only. */
  ghost predicate Portable(names: set<Text>, node: Schema)
    decreases node
  {
    match node
    case Plain(_) => false
    case Node(kw) =>
      if kw.ref.Some? then PortableReference(names, kw)
      else if kw.anyOf.Some? then
        && Only(kw, {AnyOfName}) && kw.anyOf.value.Schemas? && |kw.anyOf.value.list| == 2
        && IsNullType(kw.anyOf.value.list[1]) && Portable(names, kw.anyOf.value.list[0])
      else if kw.oneOf.Some? then false
      else if kw.constant.Some? then Only(kw, {ConstName}) && (kw.constant.value.Str? || kw.constant.value.Bool?)
      else if kw.typ.None? then false
      else
        match kw.typ.value
        case StringType => PortableString(kw)
        case IntegerType => Only(kw, {TypeName, MinimumName, MaximumName}) && IsNumber(kw.minimum) &&
          IsNumber(kw.maximum)
        case BooleanType => Only(kw, {TypeName})
        case ArrayType =>
          && Only(kw, {TypeName, ItemsName, MinItemsName, MaxItemsName}) && IsNumber(kw.minItems) &&
            IsNumber(kw.maxItems)
          && kw.items.Some? && Portable(names, kw.items.value)
        case ObjectType =>
          if kw.additionalProperties == Some(Bool(true)) then Only(kw, {TypeName, AdditionalName, DescriptionName})
          else
            && PortableStrict(kw)
            && forall i :: 0 <= i < |kw.properties.value.entries| ==>
                 Portable(names, kw.properties.value.entries[i].schema)
        case _ => false
  }

  // ----- Small equivalences ----------------------------------------------------------------------

  lemma LengthsSafe(limit: Option<Json>)
    ensures IsLengthOption(limit) <==> SafeLength(limit)
  {
    if IsLengthOption(limit) && limit.Some? {
      assert AsReal(limit.value.n.Floor) == limit.value.n;
    }
  }

  lemma ReferenceTranslates(names: set<Text>, kw: Keywords)
    requires kw.ref.Some?
    ensures TranslateReference(names, kw).Ok? <==> PortableReference(names, kw)
  {
  }

  lemma NullTypes(node: Schema)
    ensures IsNullType(node) <==> node == NULL_SCHEMA
  {
  }

  lemma StringTranslates(kw: Keywords)
    requires kw.typ == Some(StringType)
    ensures TranslateScalar(kw).Ok? <==> PortableString(kw)
  {
    LengthsSafe(kw.maxLength);
    LengthsSafe(kw.minLength);
  }

  lemma OtherScalarTranslates(kw: Keywords)
    requires kw.typ != Some(StringType) && kw.typ != Some(ArrayType) && !IsStrict(kw)
    ensures TranslateScalar(kw).Ok? <==>
      && kw.typ.Some?
      && match kw.typ.value
         case IntegerType => Only(kw, {TypeName, MinimumName, MaximumName}) && IsNumber(kw.minimum) &&
           IsNumber(kw.maximum)
         case BooleanType => Only(kw, {TypeName})
         case ObjectType => Only(kw, {TypeName, AdditionalName, DescriptionName})
         case _ => false
  {
  }

  // ----- The order of the required names ---------------------------------------------------------

  lemma {:induction false} PicksInOrder(entries: seq<Property>, required: seq<Json>) returns (picks: seq<int>)
    ensures var kept := RequiredInOrder(NamesOf(entries), required);
      && |picks| == |kept| && (forall j :: 0 <= j < |picks| ==> 0 <= picks[j] < |entries|)
      && (forall i, j :: 0 <= i < j < |picks| ==> picks[i] < picks[j])
      && (forall j :: 0 <= j < |picks| ==> kept[j] == entries[picks[j]].name && Str(kept[j]) in required)
      && forall i :: 0 <= i < |entries| && Str(entries[i].name) in required ==> i in picks
    decreases |entries|
  {
    picks := [];
    if entries != [] {
      var init, last := entries[..|entries| - 1], entries[|entries| - 1];
      picks := PicksInOrder(init, required);
      assert NamesOf(entries)[..|entries| - 1] == NamesOf(init);
      if Str(last.name) in required {
        picks := picks + [|entries| - 1];
      }
    }
  }

  predicate Increasing(picks: seq<int>) {
    forall i, j :: 0 <= i < j < |picks| ==> picks[i] < picks[j]
  }

  lemma {:induction false} SamePicks(a: seq<int>, b: seq<int>)
    requires Increasing(a) && Increasing(b) && forall x :: x in a <==> x in b
    ensures a == b
    decreases |a| + |b|
  {
    if a != [] && b != [] {
      var m, n := |a| - 1, |b| - 1;
      assert a[m] in b && b[n] in a;
      assert a[m] == b[n];
      forall x
        ensures x in a[..m] <==> x in a && x != a[m]
        ensures x in b[..n] <==> x in b && x != b[n]
      {
      }
      SamePicks(a[..m], b[..n]);
      assert a == a[..m] + [a[m]] && b == b[..n] + [b[n]];
    } else {
      BothEmpty(a, b);
      BothEmpty(b, a);
    }
  }

  lemma BothEmpty(a: seq<int>, b: seq<int>)
    requires forall x :: x in a <==> x in b
    ensures a == [] ==> b == []
  {
    if b != [] {
      var first := b[0];
      assert first in b;
    }
  }

  lemma OrderIsPicks(entries: seq<Property>, required: seq<Json>)
    ensures Texts(RequiredInOrder(NamesOf(entries), required)) == required
       <==> exists picks :: Picks(picks, entries, required)
  {
    var kept := RequiredInOrder(NamesOf(entries), required);
    var picks := PicksInOrder(entries, required);
    if Texts(kept) == required {
      forall j | 0 <= j < |picks|
        ensures required[j] == Str(entries[picks[j]].name)
      {
        assert Texts(kept)[j] == Str(kept[j]);
      }
      assert Picks(picks, entries, required);
    }
    forall other | Picks(other, entries, required)
      ensures Texts(kept) == required
    {
      PicksAreOrdered(entries, required, picks, other);
    }
  }

  lemma PicksAreOrdered(entries: seq<Property>, required: seq<Json>, picks: seq<int>, other: seq<int>)
    requires Picks(other, entries, required) && Increasing(picks)
    requires var kept := RequiredInOrder(NamesOf(entries), required);
      && |picks| == |kept| && (forall j :: 0 <= j < |picks| ==> 0 <= picks[j] < |entries|)
      && (forall j :: 0 <= j < |picks| ==> kept[j] == entries[picks[j]].name && Str(kept[j]) in required)
      && forall i :: 0 <= i < |entries| && Str(entries[i].name) in required ==> i in picks
    ensures Texts(RequiredInOrder(NamesOf(entries), required)) == required
  {
    var kept := RequiredInOrder(NamesOf(entries), required);
    forall x
      ensures x in other <==> x in picks
    {
      if x in other {
        var j :| 0 <= j < |other| && other[j] == x;
        assert required[j] in required;
      }
      if x in picks {
        var j :| 0 <= j < |picks| && picks[j] == x;
        assert Str(kept[j]) in required;
      }
    }
    SamePicks(other, picks);
    forall j | 0 <= j < |required|
      ensures Texts(kept)[j] == required[j]
    {
    }
    assert Texts(kept) == required;
  }

  lemma {:induction false} FilterIsRequired(entries: seq<Property>, required: seq<Json>)
    requires exists picks :: Picks(picks, entries, required)
    ensures forall k :: k in required ==> k.Str? && k.s in NamesOf(entries)
  {
    var picks :| Picks(picks, entries, required);
    forall k | k in required
      ensures k.Str? && k.s in NamesOf(entries)
    {
      var j :| 0 <= j < |required| && required[j] == k;
      assert NamesOf(entries)[picks[j]] == k.s;
    }
  }

  lemma StrictGuard(kw: Keywords)
    requires kw.typ == Some(ObjectType)
    ensures ObjectGuard(kw).Pass? <==> PortableStrict(kw)
  {
    if kw.properties.Some? && kw.properties.value.Table? && kw.required.Some? && kw.required.value.Arr? {
      var entries, required := kw.properties.value.entries, kw.required.value.items;
      OrderIsPicks(entries, required);
      if exists picks :: Picks(picks, entries, required) {
        FilterIsRequired(entries, required);
      }
    }
    StrictKeywords(kw);
  }

  lemma StrictKeywords(kw: Keywords)
    requires kw.typ == Some(ObjectType)
    ensures Only(kw, {TypeName, PropertiesName, RequiredName, AdditionalName, MinPropertiesName, DescriptionName}) <==>
      kw == NO_KEYWORDS.(typ := kw.typ, properties := kw.properties, required := kw.required,
                         additionalProperties := kw.additionalProperties, minProperties := kw.minProperties,
                         description := kw.description)
  {
  }

  lemma PairGuard(kw: Keywords)
    requires kw.anyOf.Some?
    ensures NullableGuard(kw).Pass? <==>
      && Only(kw, {AnyOfName}) && kw.anyOf.value.Schemas? && |kw.anyOf.value.list| == 2
      && IsNullType(kw.anyOf.value.list[1])
  {
    if kw.anyOf.value.Schemas? && |kw.anyOf.value.list| == 2 {
      NullTypes(kw.anyOf.value.list[1]);
    }
  }

  lemma BoundsGuard(kw: Keywords)
    requires kw.typ == Some(ArrayType)
    ensures ArrayGuard(kw).Pass? <==>
      && Only(kw, {TypeName, ItemsName, MinItemsName, MaxItemsName}) && IsNumber(kw.minItems) && IsNumber(kw.maxItems)
      && kw.items.Some?
  {
  }

  // ----- The theorem -----------------------------------------------------------------------------

  /** Main result: a node translates exactly when it is portable. */
  lemma {:induction false} TranslatesExactly(names: set<Text>, node: Schema)
    ensures Translate(names, node).Ok? <==> Portable(names, node)
    decreases node, 1
  {
    if node.Node? {
      var kw := node.kw;
      if kw.ref.Some? {
        ReferenceTranslates(names, kw);
      } else if kw.anyOf.Some? {
        PairGuard(kw);
        if NullableGuard(kw).Pass? {
          TranslatesExactly(names, kw.anyOf.value.list[0]);
        }
      } else if kw.oneOf.None? && kw.constant.Some? {
        ConstTranslates(kw);
      } else if kw.oneOf.None? && kw.typ == Some(ArrayType) {
        BoundsGuard(kw);
        if ArrayGuard(kw).Pass? {
          TranslatesExactly(names, kw.items.value);
        }
      } else if kw.oneOf.None? && IsStrict(kw) {
        StrictGuard(kw);
        if ObjectGuard(kw).Pass? {
          FieldsTranslate(names, kw.properties.value.entries, kw.required.value.items);
        }
      } else if kw.oneOf.None? && kw.typ == Some(StringType) {
        StringTranslates(kw);
      } else if kw.oneOf.None? {
        OtherScalarTranslates(kw);
      }
    }
  }

  lemma ConstTranslates(kw: Keywords)
    requires kw.constant.Some?
    ensures TranslateConst(kw).Ok? <==> Only(kw, {ConstName}) && (kw.constant.value.Str? || kw.constant.value.Bool?)
  {
  }

  lemma {:induction false} FieldsTranslate(names: set<Text>, entries: seq<Property>, required: seq<Json>)
    ensures TranslateFields(names, entries, required).Ok? <==>
      forall i :: 0 <= i < |entries| ==> Portable(names, entries[i].schema)
    decreases entries, 0
  {
    if entries != [] {
      var init, last := entries[..|entries| - 1], entries[|entries| - 1];
      FieldsTranslate(names, init, required);
      TranslatesExactly(names, last.schema);
      assert forall i :: 0 <= i < |init| ==> init[i] == entries[i];
    }
  }

  lemma {:induction false} AllTranslate(names: set<Text>, nodes: seq<Schema>)
    ensures TranslateAll(names, nodes).Ok? <==> forall i :: 0 <= i < |nodes| ==> Portable(names, nodes[i])
    decreases |nodes|
  {
    if nodes != [] {
      AllTranslate(names, nodes[..|nodes| - 1]);
      TranslatesExactly(names, nodes[|nodes| - 1]);
    }
  }

  // ----- Top-level unions ------------------------------------------------------------------------

  /** The property `key` of the branch is required, and constantly the string `value`. */
  ghost predicate TellsApart(branch: Schema, key: Text, value: Text) {
    && branch.Node? && branch.kw.properties.Some? && branch.kw.properties.value.Table?
    && branch.kw.required.Some? && branch.kw.required.value.Arr? && Str(key) in branch.kw.required.value.items
    && exists i :: IsProperty(branch.kw.properties.value.entries, i, key, value)
  }

  /** The property at `i` is the one named `key`, with the constant `value`. */
  predicate IsProperty(entries: seq<Property>, i: int, key: Text, value: Text) {
    && 0 <= i < |entries| && entries[i].name == key && (forall j :: i < j < |entries| ==> entries[j].name != key)
    && entries[i].schema.Node? && entries[i].schema.kw.constant == Some(Str(value))
  }

  ghost predicate IsDiscriminator(branches: seq<Schema>, key: Text) {
    forall b :: 0 <= b < |branches| ==> HasConstant(branches[b], key)
  }

  ghost predicate HasConstant(branch: Schema, key: Text) {
    exists value :: TellsApart(branch, key, value)
  }

  ghost predicate PortableUnion(names: set<Text>, kw: Keywords) {
    && Only(kw, {OneOfName, DescriptionName}) && kw.oneOf.Some? && kw.oneOf.value.Schemas?
    && |kw.oneOf.value.list| >= 2 && HasTable(kw.oneOf.value.list[0])
    && (exists i :: OneDiscriminator(kw.oneOf.value.list, kw.oneOf.value.list[0].kw.properties.value.entries, i))
    && forall b :: 0 <= b < |kw.oneOf.value.list| ==> Portable(names, kw.oneOf.value.list[b])
  }

  predicate HasTable(branch: Schema) {
    branch.Node? && branch.kw.properties.Some? && branch.kw.properties.value.Table?
  }

  /** Of the first branch's properties, the one at `i` and no other is a discriminator of all branches, and
      no two branches have the same constant under it. */
  ghost predicate OneDiscriminator(branches: seq<Schema>, entries: seq<Property>, i: int) {
    && 0 <= i < |entries| && IsDiscriminator(branches, entries[i].name)
    && (forall j :: 0 <= j < |entries| && j != i ==> !IsDiscriminator(branches, entries[j].name))
    && forall a, b, value :: 0 <= a < b < |branches| && TellsApart(branches[a], entries[i].name, value) ==>
         !TellsApart(branches[b], entries[i].name, value)
  }

  ghost predicate PortableTopLevel(names: set<Text>, node: Schema) {
    node.Node? && if node.kw.oneOf.Some? then PortableUnion(names, node.kw) else Portable(names, node)
  }

  lemma {:induction false} PropertyConstantIs(entries: seq<Property>, key: Text)
    ensures forall value :: PropertyConstant(entries, key) == Some(Str(value)) <==>
      exists i :: IsProperty(entries, i, key, value)
    ensures PropertyConstant(entries, key).Some? ==> PropertyConstant(entries, key).value.Str?
    decreases |entries|
  {
    if entries != [] {
      var init, last, n := entries[..|entries| - 1], entries[|entries| - 1], |entries| - 1;
      PropertyConstantIs(init, key);
      forall value
        ensures PropertyConstant(entries, key) == Some(Str(value)) <==> exists i :: IsProperty(entries, i, key, value)
      {
        if last.name == key {
          assert PropertyConstant(entries, key) == Some(Str(value)) <==> IsProperty(entries, n, key, value);
        } else {
          forall i
            ensures IsProperty(entries, i, key, value) <==> IsProperty(init, i, key, value)
          {
          }
        }
      }
    }
  }

  lemma BranchConstantIs(branch: Schema, key: Text, value: Text)
    ensures BranchConstant(branch, key) == Some(Str(value)) <==> TellsApart(branch, key, value)
    ensures BranchConstant(branch, key).Some? ==> BranchConstant(branch, key).value.Str?
  {
    if HasTable(branch) {
      PropertyConstantIs(branch.kw.properties.value.entries, key);
    }
  }

  lemma DiscriminatorIs(branches: seq<Schema>, key: Text)
    ensures IsCandidate(branches, key) <==> IsDiscriminator(branches, key)
  {
    forall b | 0 <= b < |branches|
      ensures BranchConstant(branches[b], key).Some? <==> HasConstant(branches[b], key)
    {
      forall value
        ensures BranchConstant(branches[b], key) == Some(Str(value)) <==> TellsApart(branches[b], key, value)
      {
        BranchConstantIs(branches[b], key, value);
      }
      BranchConstantIs(branches[b], key, []);
      if BranchConstant(branches[b], key).Some? {
        assert TellsApart(branches[b], key, BranchConstant(branches[b], key).value.s);
      }
    }
  }

  /** The names at exactly one place are candidates. */
  ghost predicate OnlyCandidate(branches: seq<Schema>, keys: seq<Text>, i: int) {
    && 0 <= i < |keys| && IsCandidate(branches, keys[i])
    && forall j :: 0 <= j < |keys| && j != i ==> !IsCandidate(branches, keys[j])
  }

  ghost predicate NoCandidate(branches: seq<Schema>, keys: seq<Text>) {
    forall j :: 0 <= j < |keys| ==> !IsCandidate(branches, keys[j])
  }

  lemma {:induction false} CandidatesAre(branches: seq<Schema>, keys: seq<Text>)
    ensures Candidates(branches, keys) == [] <==> NoCandidate(branches, keys)
    ensures |Candidates(branches, keys)| == 1 <==> exists i :: OnlyCandidate(branches, keys, i)
    ensures forall i :: OnlyCandidate(branches, keys, i) ==> Candidates(branches, keys) == [keys[i]]
    decreases |keys|
  {
    if keys != [] {
      var init, n := keys[..|keys| - 1], |keys| - 1;
      CandidatesAre(branches, init);
      assert forall j :: 0 <= j < |init| ==> init[j] == keys[j];
      if IsCandidate(branches, keys[n]) {
        if NoCandidate(branches, init) {
          assert OnlyCandidate(branches, keys, n);
        }
        forall i
          ensures OnlyCandidate(branches, keys, i) <==> i == n && NoCandidate(branches, init)
        {
        }
      } else {
        forall i
          ensures OnlyCandidate(branches, keys, i) <==> OnlyCandidate(branches, init, i)
        {
        }
      }
    }
  }

  lemma DistinctConstants(branches: seq<Schema>, key: Text)
    requires IsCandidate(branches, key)
    ensures DistinctValues(Constants(branches, key)) <==>
      forall a, b, value :: 0 <= a < b < |branches| && TellsApart(branches[a], key, value) ==>
        !TellsApart(branches[b], key, value)
  {
    var constants := Constants(branches, key);
    forall a, value | 0 <= a < |branches|
      ensures TellsApart(branches[a], key, value) <==> constants[a] == Str(value)
      ensures constants[a].Str?
    {
      BranchConstantIs(branches[a], key, value);
    }
    if !DistinctValues(constants) {
      var a, b :| 0 <= a < b < |constants| && constants[a] == constants[b];
      BranchConstantIs(branches[a], key, []);
      assert TellsApart(branches[a], key, constants[a].s) && TellsApart(branches[b], key, constants[a].s);
    }
  }

  lemma DiscriminatorsAre(branches: seq<Schema>, entries: seq<Property>, i: int)
    ensures OneDiscriminator(branches, entries, i) <==>
      && OnlyCandidate(branches, NamesOf(entries), i)
      && DistinctValues(Constants(branches, NamesOf(entries)[i]))
  {
    var keys := NamesOf(entries);
    forall j | 0 <= j < |entries|
      ensures IsCandidate(branches, keys[j]) <==> IsDiscriminator(branches, entries[j].name)
    {
      DiscriminatorIs(branches, keys[j]);
    }
    if OnlyCandidate(branches, keys, i) {
      DistinctConstants(branches, keys[i]);
    }
  }

  lemma UnionKeywords(kw: Keywords)
    ensures Only(kw, {OneOfName, DescriptionName}) <==>
      kw == NO_KEYWORDS.(oneOf := kw.oneOf, description := kw.description)
  {
  }

  /** Whether the discriminator guard passes, and with which key. */
  lemma UnionGuard(branches: seq<Schema>, entries: seq<Property>)
    ensures var candidates := Candidates(branches, NamesOf(entries));
      (|candidates| == 1 && IsCandidate(branches, candidates[0]) &&
       DistinctValues(Constants(branches, candidates[0])))
      <==> exists i :: OneDiscriminator(branches, entries, i)
  {
    var keys := NamesOf(entries);
    CandidatesAre(branches, keys);
    forall i
      ensures OneDiscriminator(branches, entries, i) <==>
        OnlyCandidate(branches, keys, i) && DistinctValues(Constants(branches, keys[i]))
    {
      DiscriminatorsAre(branches, entries, i);
    }
    if |Candidates(branches, keys)| == 1 {
      var i :| OnlyCandidate(branches, keys, i);
      assert Candidates(branches, keys) == [keys[i]];
    }
  }

  /** Main result: a top-level node translates exactly when it is portable, or a portable union. */
  lemma TopLevelTranslatesExactly(names: set<Text>, node: Schema)
    ensures TranslateTopLevel(names, node).Ok? <==> PortableTopLevel(names, node)
  {
    if node.Plain? || node.kw.oneOf.None? {
      TranslatesExactly(names, node);
    } else {
      UnionTranslates(names, node.kw);
      UnionKeywords(node.kw);
      if UnionForm(node.kw) {
        var branches := node.kw.oneOf.value.list;
        UnionGuard(branches, branches[0].kw.properties.value.entries);
        AllTranslate(names, branches);
      }
    }
  }

  /** What the port asks of a union before it looks for the discriminator. */
  predicate UnionForm(kw: Keywords) {
    && kw == NO_KEYWORDS.(oneOf := kw.oneOf, description := kw.description)
    && kw.oneOf.Some? && kw.oneOf.value.Schemas? && |kw.oneOf.value.list| >= 2 && HasProperties(kw.oneOf.value.list[0])
  }

  lemma UnionTranslates(names: set<Text>, kw: Keywords)
    requires kw.oneOf.Some?
    ensures TranslateTopLevel(names, Node(kw)).Ok? <==>
      && UnionForm(kw)
      && var branches := kw.oneOf.value.list;
         var candidates := Candidates(branches, NamesOf(branches[0].kw.properties.value.entries));
         && |candidates| == 1 && IsCandidate(branches, candidates[0])
         && DistinctValues(Constants(branches, candidates[0])) && TranslateAll(names, branches).Ok?
  {
    if UnionForm(kw) {
      var branches := kw.oneOf.value.list;
      var candidates := Candidates(branches, NamesOf(branches[0].kw.properties.value.entries));
      if |candidates| == 1 {
        assert candidates[0] in candidates;
      }
    }
  }
}
