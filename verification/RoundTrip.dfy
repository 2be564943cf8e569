/**
 * Translating a JSON Schema node, evaluating the builder expression and lowering the result returns the
 * same node: exactly for the nodes whose options the builders take and whose enums are in key order.
 */
module RoundTrip {
  import opened Wrappers
  import opened Utf16
  import opened JsonSchema
  import opened Wire
  import opened Lowering
  import opened Builders
  import opened Port

  // ----- Conditions on the node ------------------------------------------------------------------

  predicate IsTextOption(o: Option<Json>) {
    o.Some? ==> o.value.Str?
  }

  /** The options of the node are ones the builders take: lengths are non-negative safe integers,
      patterns compile, and descriptions are text. */
  predicate Buildable(compiles: Text -> bool, node: Schema)
    decreases node, 1
  {
    node.Node? &&
    var kw := node.kw;
    && IsTextOption(kw.description)
    && (kw.pattern.Some? ==> kw.pattern.value.Str? && compiles(kw.pattern.value.s))
    && IsLengthOption(kw.minItems) && IsLengthOption(kw.maxItems) && IsLengthOption(kw.minProperties)
    && (kw.anyOf.Some? && kw.anyOf.value.Schemas? && kw.anyOf.value.list != [] ==>
          Buildable(compiles, kw.anyOf.value.list[0]))
    && (kw.oneOf.Some? && kw.oneOf.value.Schemas? ==> AllBuildable(compiles, kw.oneOf.value.list))
    && (kw.items.Some? ==> Buildable(compiles, kw.items.value))
    && (kw.properties.Some? && kw.properties.value.Table? ==>
      PropertiesBuildable(compiles, kw.properties.value.entries))
  }

  predicate AllBuildable(compiles: Text -> bool, nodes: seq<Schema>)
    decreases nodes, 0
  {
    nodes == [] || (AllBuildable(compiles, nodes[..|nodes| - 1]) && Buildable(compiles, nodes[|nodes| - 1]))
  }

  predicate PropertiesBuildable(compiles: Text -> bool, entries: seq<Property>)
    decreases entries, 0
  {
    entries == [] ||
    (PropertiesBuildable(compiles, entries[..|entries| - 1]) && Buildable(compiles, entries[|entries| - 1].schema))
  }

  // ----- What evaluation leaves behind -----------------------------------------------------------

  /** Every name is bound to a schema of the heap, none of them an optional wrapper. */
  ghost predicate Bound(h: Heap, names: set<Text>, consts: Bindings) {
    forall n :: n in names ==> n in consts && consts[n] < |h.nodes| && !h.nodes[consts[n]].def.OptionalDef?
  }

  lemma BoundSurvives(h: Heap, h': Heap, names: set<Text>, consts: Bindings)
    requires Bound(h, names, consts) && Extends(h, h')
    ensures Bound(h', names, consts)
  {
    forall n | n in names
      ensures n in consts && consts[n] < |h'.nodes| && !h'.nodes[consts[n]].def.OptionalDef?
    {
      NodeSurvives(h, h', consts[n]);
    }
  }

  /** The heap after evaluating an expression; a new schema is the newest object. */
  ghost predicate Evaluated(h: Heap, h': Heap, ref: Ref, reference: bool) {
    && Sound(h') && Extends(h, h') && ref < |h'.nodes| && !h'.nodes[ref].def.OptionalDef?
    && (!reference ==> |h.nodes| <= ref && ref + 1 == |h'.nodes|)
  }

  lemma ExtendsReflexive(h: Heap)
    ensures Extends(h, h)
  {
  }

  /** A wrapper without checks around an older schema. */
  lemma WrapperStep(h: Heap, h': Heap, def: Def)
    requires Sound(h') && Extends(h, h') && OlderThan(def, |h'.nodes|)
    ensures var (h'', ref) := Created(h', Zod(def, []));
      Sound(h'') && Extends(h, h'') && |h.nodes| <= ref && ref + 1 == |h''.nodes| && h''.nodes[ref] == Zod(def, [])
  {
    CreatedFacts(h', Zod(def, []));
    ExtendsTransitive(h, h', Created(h', Zod(def, [])).0);
  }

  lemma MadeStep(h: Heap, h': Heap, made: (Heap, Ref), def: Def, l: Wire.Lowering)
    requires Extends(h, h') && Made(h', made.0, made.1, def, l) && !def.OptionalDef?
    ensures Evaluated(h, made.0, made.1, false)
  {
    ExtendsTransitive(h, h', made.0);
  }

  lemma {:induction false} EvalOutcome(compiles: Text -> bool, names: set<Text>, h: Heap, consts: Bindings,
                                       node: Schema, e: Expr)
    requires Sound(h) && Bound(h, names, consts) && Translate(names, node) == Ok(e)
    ensures Eval(compiles, h, consts, e).Ok? <==> Buildable(compiles, node)
    ensures Eval(compiles, h, consts, e).Ok? ==>
      var (h', ref) := Eval(compiles, h, consts, e).value; Evaluated(h, h', ref, node.kw.ref.Some?)
    decreases node, 1
  {
    var kw := node.kw;
    if kw.ref.Some? {
      ReferenceOutcome(compiles, names, h, consts, kw, e);
    } else if kw.anyOf.Some? {
      NullableOutcome(compiles, names, h, consts, node, e);
    } else if kw.constant.Some? {
      ConstOutcome(compiles, h, consts, kw, e);
    } else if kw.typ == Some(ArrayType) {
      ArrayOutcome(compiles, names, h, consts, node, e);
    } else if IsStrict(kw) {
      ObjectOutcome(compiles, names, h, consts, node, e);
    } else {
      ScalarOutcome(compiles, names, h, consts, node, e);
    }
  }

  lemma ReferenceOutcome(compiles: Text -> bool, names: set<Text>, h: Heap, consts: Bindings, kw: Keywords, e: Expr)
    requires Sound(h) && Bound(h, names, consts) && kw.ref.Some? && TranslateReference(names, kw) == Ok(e)
    ensures Buildable(compiles, Node(kw))
    ensures Eval(compiles, h, consts, e).Ok?
    ensures var (h', ref) := Eval(compiles, h, consts, e).value; Evaluated(h, h', ref, true)
  {
    ExtendsReflexive(h);
  }

  lemma ConstOutcome(compiles: Text -> bool, h: Heap, consts: Bindings, kw: Keywords, e: Expr)
    requires Sound(h) && kw.constant.Some? && TranslateConst(kw) == Ok(e)
    ensures Buildable(compiles, Node(kw))
    ensures Eval(compiles, h, consts, e).Ok?
    ensures var (h', ref) := Eval(compiles, h, consts, e).value; Evaluated(h, h', ref, false)
  {
    LiteralFacts(h, kw.constant.value);
  }

  lemma {:induction false} NullableOutcome(compiles: Text -> bool, names: set<Text>, h: Heap, consts: Bindings,
                                           node: Schema, e: Expr)
    requires Sound(h) && Bound(h, names, consts) && e.Nullable?
    requires node.Node? && NullableGuard(node.kw).Pass? && Translate(names, node.kw.anyOf.value.list[0]) == Ok(e.inner)
    ensures Eval(compiles, h, consts, e).Ok? <==> Buildable(compiles, node)
    ensures Eval(compiles, h, consts, e).Ok? ==>
      var (h', ref) := Eval(compiles, h, consts, e).value; Evaluated(h, h', ref, false)
    decreases node, 0
  {
    EvalOutcome(compiles, names, h, consts, node.kw.anyOf.value.list[0], e.inner);
    if Eval(compiles, h, consts, e.inner).Ok? {
      var (h', ref) := Eval(compiles, h, consts, e.inner).value;
      WrapperStep(h, h', NullableDef(ref));
    }
  }

  lemma {:induction false} ArrayOutcome(compiles: Text -> bool, names: set<Text>, h: Heap, consts: Bindings,
                                        node: Schema, e: Expr)
    requires Sound(h) && Bound(h, names, consts) && e.TbArray?
    requires node.Node? && ArrayGuard(node.kw).Pass? && Translate(names, node.kw.items.value) == Ok(e.item)
    requires Some(Num(e.minItems)) == node.kw.minItems && Some(Num(e.maxItems)) == node.kw.maxItems
    ensures Eval(compiles, h, consts, e).Ok? <==> Buildable(compiles, node)
    ensures Eval(compiles, h, consts, e).Ok? ==>
      var (h', ref) := Eval(compiles, h, consts, e).value; Evaluated(h, h', ref, false)
    decreases node, 0
  {
    EvalOutcome(compiles, names, h, consts, node.kw.items.value, e.item);
    if Eval(compiles, h, consts, e).Ok? {
      var (h', ref) := Eval(compiles, h, consts, e.item).value;
      ArrayFacts(h', ref, e.minItems, e.maxItems);
      MadeStep(h, h', Eval(compiles, h, consts, e).value, ArrayDef(ref), LArray(e.minItems, e.maxItems));
    }
  }

  function IsScalar(e: Expr): bool {
    e.Literal? || e.Enum? || e.TbString? || e.TbInteger? || e.TbBoolean? || e.TbLoose?
  }

  function ScalarDef(e: Expr): Def
    requires IsScalar(e)
  {
    match e
    case Literal(value) => LiteralDef([value])
    case Enum(values) => EnumDef(KeyOrder(values))
    case TbString(_, _, _, _, _) => StringDef
    case TbInteger(_, _) => NumberDef
    case TbBoolean => BooleanDef
    case TbLoose(_) => RecordDef
  }

  function ScalarLowering(e: Expr): Wire.Lowering
    requires IsScalar(e)
  {
    match e
    case Literal(value) => LConst(value)
    case Enum(values) => LEnum(values)
    case TbString(_, _, _, _, _) => LString(OptionsOf(e))
    case TbInteger(minimum, maximum) => LInteger(minimum, maximum)
    case TbBoolean => LBoolean
    case TbLoose(description) => LLoose(if TextArgument(description).Ok? then TextArgument(description).value else None)
  }

  lemma ScalarMade(compiles: Text -> bool, h: Heap, e: Expr)
    requires Sound(h) && IsScalar(e) && !e.TbString? && EvalScalar(compiles, h, e).Ok?
    ensures var (h', ref) := EvalScalar(compiles, h, e).value; Made(h, h', ref, ScalarDef(e), ScalarLowering(e))
  {
    match e
    case Literal(value) => LiteralFacts(h, value);
    case Enum(values) => EnumFacts(h, values);
    case TbInteger(minimum, maximum) => IntegerFacts(h, minimum, maximum);
    case TbBoolean => BooleanFacts(h);
    case TbLoose(description) => LooseFacts(h, TextArgument(description).value);
  }

  lemma ScalarBuildable(compiles: Text -> bool, h: Heap, kw: Keywords, e: Expr)
    requires TranslateScalar(kw) == Ok(e) && !e.TbString?
    ensures IsScalar(e)
    ensures EvalScalar(compiles, h, e).Ok? <==> Buildable(compiles, Node(kw))
  {
  }

  lemma ScalarOutcome(compiles: Text -> bool, names: set<Text>, h: Heap, consts: Bindings, node: Schema, e: Expr)
    requires Sound(h) && node.Node? && TranslateScalar(node.kw) == Ok(e)
    ensures IsScalar(e) && Eval(compiles, h, consts, e) == EvalScalar(compiles, h, e)
    ensures Eval(compiles, h, consts, e).Ok? <==> Buildable(compiles, node)
    ensures Eval(compiles, h, consts, e).Ok? ==>
      var (h', ref) := Eval(compiles, h, consts, e).value;
      Made(h, h', ref, ScalarDef(e), ScalarLowering(e)) && Evaluated(h, h', ref, false)
  {
    if e.TbString? {
      StringOutcome(compiles, h, node.kw, e);
    } else {
      ScalarBuildable(compiles, h, node.kw, e);
      if EvalScalar(compiles, h, e).Ok? {
        ScalarMade(compiles, h, e);
      }
    }
  }

  /** The options of a string node as the builder receives them. */
  function OptionsOf(e: Expr): StringOptions
    requires e.TbString?
  {
    StringOptions(if NumberArgument(e.maxLength).Ok? then NumberArgument(e.maxLength).value else None,
                  if NumberArgument(e.minLength).Ok? then NumberArgument(e.minLength).value else None,
                  e.format,
                  if TextArgument(e.pattern).Ok? then TextArgument(e.pattern).value else None,
                  if TextArgument(e.description).Ok? then TextArgument(e.description).value else None)
  }

  /** The options are of the types that the builder takes. */
  predicate TypedString(e: Expr)
    requires e.TbString?
  {
    && NumberArgument(e.maxLength).Ok? && NumberArgument(e.minLength).Ok?
    && TextArgument(e.pattern).Ok? && TextArgument(e.description).Ok?
  }

  lemma StringTyped(compiles: Text -> bool, kw: Keywords, e: Expr)
    requires TranslateString(kw) == Ok(e)
    ensures IsOptionalLength(OptionsOf(e).maxLength) && IsOptionalLength(OptionsOf(e).minLength)
    ensures Buildable(compiles, Node(kw)) <==>
      TypedString(e) && (OptionsOf(e).pattern.Some? ==> compiles(OptionsOf(e).pattern.value))
  {
  }

  lemma StringEvaluates(compiles: Text -> bool, h: Heap, e: Expr)
    requires e.TbString?
    ensures TypedString(e) ==> EvalScalar(compiles, h, e) == MakeString(compiles, h, OptionsOf(e))
    ensures !TypedString(e) ==> EvalScalar(compiles, h, e).Err?
  {
  }

  lemma StringOutcome(compiles: Text -> bool, h: Heap, kw: Keywords, e: Expr)
    requires Sound(h) && TranslateString(kw) == Ok(e)
    ensures EvalScalar(compiles, h, e).Ok? <==> Buildable(compiles, Node(kw))
    ensures EvalScalar(compiles, h, e).Ok? ==>
      var (h', ref) := EvalScalar(compiles, h, e).value; Made(h, h', ref, StringDef, LString(OptionsOf(e)))
  {
    StringTyped(compiles, kw, e);
    StringEvaluates(compiles, h, e);
    if EvalScalar(compiles, h, e).Ok? {
      StringFacts(h, OptionsOf(e));
    }
  }

  /** The slots of an evaluated object: the field names in order, each on an existing schema. */
  ghost predicate SlotsOf(h: Heap, shape: seq<Slot>, entries: seq<Property>) {
    |shape| == |entries| &&
    forall i :: 0 <= i < |shape| ==> shape[i].key == entries[i].name && shape[i].schema < |h.nodes|
  }

  lemma ObjectBuildable(compiles: Text -> bool, kw: Keywords)
    requires ObjectGuard(kw).Pass?
    ensures Buildable(compiles, Node(kw)) <==>
      && PropertiesBuildable(compiles, kw.properties.value.entries)
      && NumberArgument(kw.minProperties).Ok? && IsOptionalLength(NumberArgument(kw.minProperties).value)
      && TextArgument(kw.description).Ok?
  {
  }

  lemma {:induction false} ObjectOutcome(compiles: Text -> bool, names: set<Text>, h: Heap, consts: Bindings,
                                         node: Schema, e: Expr)
    requires Sound(h) && Bound(h, names, consts) && e.TbObject?
    requires node.Node? && ObjectGuard(node.kw).Pass?
    requires TranslateFields(names, node.kw.properties.value.entries, node.kw.required.value.items) == Ok(e.fields)
    requires e.minProperties == node.kw.minProperties && e.description == node.kw.description
    ensures Eval(compiles, h, consts, e).Ok? <==> Buildable(compiles, node)
    ensures Eval(compiles, h, consts, e).Ok? ==>
      var (h', ref) := Eval(compiles, h, consts, e).value; Evaluated(h, h', ref, false)
    decreases node, 0
  {
    var entries := node.kw.properties.value.entries;
    FieldsOutcome(compiles, names, h, consts, entries, node.kw.required.value.items, e.fields);
    ObjectBuildable(compiles, node.kw);
    if Eval(compiles, h, consts, e).Ok? {
      var (h', shape) := EvalFields(compiles, h, consts, e.fields).value;
      var limit, text := NumberArgument(e.minProperties).value, TextArgument(e.description).value;
      ObjectFacts(h', shape, limit, text);
      MadeStep(h, h', Eval(compiles, h, consts, e).value, ObjectDef(shape, Some(|h'.nodes|)), LObject(limit, text));
    }
  }

  lemma FieldsSplit(names: set<Text>, entries: seq<Property>, required: seq<Json>, fields: seq<Port.Field>)
    requires entries != [] && TranslateFields(names, entries, required) == Ok(fields)
    ensures TranslateFields(names, entries[..|entries| - 1], required) == Ok(fields[..|fields| - 1])
    ensures var last, field := entries[|entries| - 1], fields[|fields| - 1];
      && Translate(names, last.schema) == Ok(field.expr) && field.name == last.name
      && field.optional == (Str(last.name) !in required)
  {
    var init := TranslateFields(names, entries[..|entries| - 1], required).value;
    assert fields[..|fields| - 1] == init;
  }

  lemma SlotsStep(h: Heap, h': Heap, shape: seq<Slot>, entries: seq<Property>, ref: Ref)
    requires entries != [] && SlotsOf(h, shape, entries[..|entries| - 1]) && |h.nodes| <= |h'.nodes| && ref < |h'.nodes|
    ensures SlotsOf(h', shape + [Slot(entries[|entries| - 1].name, ref)], entries)
  {
  }

  lemma {:induction false} FieldsOutcome(compiles: Text -> bool, names: set<Text>, h: Heap, consts: Bindings,
                                         entries: seq<Property>, required: seq<Json>, fields: seq<Port.Field>)
    requires Sound(h) && Bound(h, names, consts)
    requires TranslateFields(names, entries, required) == Ok(fields)
    ensures EvalFields(compiles, h, consts, fields).Ok? <==> PropertiesBuildable(compiles, entries)
    ensures EvalFields(compiles, h, consts, fields).Ok? ==>
      var (h', shape) := EvalFields(compiles, h, consts, fields).value;
      Sound(h') && Extends(h, h') && SlotsOf(h', shape, entries)
    decreases entries, 0
  {
    if entries == [] {
      ExtendsReflexive(h);
    } else {
      var init, last := entries[..|entries| - 1], entries[|entries| - 1];
      var first, field := fields[..|fields| - 1], fields[|fields| - 1];
      FieldsSplit(names, entries, required, fields);
      FieldsOutcome(compiles, names, h, consts, init, required, first);
      if EvalFields(compiles, h, consts, first).Ok? {
        var (h', shape) := EvalFields(compiles, h, consts, first).value;
        BoundSurvives(h, h', names, consts);
        FieldOutcome(compiles, names, h', consts, last.schema, field);
        if EvalField(compiles, h', consts, field).Ok? {
          var (h'', ref) := EvalField(compiles, h', consts, field).value;
          ExtendsTransitive(h, h', h'');
          SlotsStep(h', h'', shape, entries, ref);
          assert EvalFields(compiles, h, consts, fields) == Ok((h'', shape + [Slot(field.name, ref)]));
        }
      }
    }
  }

  lemma {:induction false} FieldOutcome(compiles: Text -> bool, names: set<Text>, h: Heap, consts: Bindings,
                                        node: Schema, f: Port.Field)
    requires Sound(h) && Bound(h, names, consts) && Translate(names, node) == Ok(f.expr)
    ensures EvalField(compiles, h, consts, f).Ok? <==> Buildable(compiles, node)
    ensures EvalField(compiles, h, consts, f).Ok? ==>
      var (h', ref) := EvalField(compiles, h, consts, f).value;
      Sound(h') && Extends(h, h') && ref < |h'.nodes|
    decreases node, 2
  {
    EvalOutcome(compiles, names, h, consts, node, f.expr);
    if f.optional && Eval(compiles, h, consts, f.expr).Ok? {
      var (h', ref) := Eval(compiles, h, consts, f.expr).value;
      WrapperStep(h, h', OptionalDef(ref));
    }
  }

  // ----- Lowering the result ---------------------------------------------------------------------

  /** Every enum of the node lists its values without repetitions, index names first and ascending. */
  predicate EnumsInOrder(node: Schema)
    decreases node, 1
  {
    node.Plain? ||
    var kw := node.kw;
    && (kw.enumeration.Some? && kw.enumeration.value.Arr? && AllStrings(kw.enumeration.value.items) ==>
          InKeyOrder(Strings(kw.enumeration.value.items)))
    && (kw.anyOf.Some? && kw.anyOf.value.Schemas? ==> AllEnumsInOrder(kw.anyOf.value.list))
    && (kw.oneOf.Some? && kw.oneOf.value.Schemas? ==> AllEnumsInOrder(kw.oneOf.value.list))
    && (kw.items.Some? ==> EnumsInOrder(kw.items.value))
    && (kw.properties.Some? && kw.properties.value.Table? ==> PropertyEnumsInOrder(kw.properties.value.entries))
  }

  predicate AllEnumsInOrder(nodes: seq<Schema>)
    decreases nodes, 0
  {
    nodes == [] || (AllEnumsInOrder(nodes[..|nodes| - 1]) && EnumsInOrder(nodes[|nodes| - 1]))
  }

  predicate PropertyEnumsInOrder(entries: seq<Property>)
    decreases entries, 0
  {
    entries == [] || (PropertyEnumsInOrder(entries[..|entries| - 1]) && EnumsInOrder(entries[|entries| - 1].schema))
  }

  /** What lowering the evaluated node must give. */
  function Expected(node: Schema): LowerResult {
    if EnumsInOrder(node) then Ok(node) else Err(EntriesDiffer)
  }

  function ExpectedFields(entries: seq<Property>, required: seq<Text>): Result<Fields, Refusal> {
    if PropertyEnumsInOrder(entries) then Ok(Fields(entries, required)) else Err(EntriesDiffer)
  }

  function ExpectedAll(nodes: seq<Schema>): Result<seq<Schema>, Refusal> {
    if AllEnumsInOrder(nodes) then Ok(nodes) else Err(EntriesDiffer)
  }

  /** The catalog names the bound constants by their names, and of the objects from `low` to `high` at
      most `root`. */
  ghost predicate IndexedOnly(index: Names, names: set<Text>, consts: Bindings, low: nat, high: nat, root: Ref) {
    && (forall n :: n in names ==> n in consts && consts[n] in index && index[consts[n]] == n)
    && forall r :: r in index && low <= r < high ==> r == root
  }

  /** A later heap that still is sound. */
  ghost predicate Later(h: Heap, final: Heap) {
    Sound(final) && Extends(h, final)
  }

  lemma RecordSurvives(h: Heap, h': Heap, final: Heap, ref: Ref, def: Def, l: Wire.Lowering)
    requires Made(h, h', ref, def, l) && Later(h', final)
    ensures ref < |final.nodes| && final.nodes[ref].def == def
    ensures Require(final, ref, KindOf(l)) == Ok(l)
  {
    NodeSurvives(h', final, ref);
  }

  lemma NumOptionArgument(o: Option<Json>)
    requires NumberArgument(o).Ok?
    ensures NumOption(NumberArgument(o).value) == o
  {
  }

  lemma TextOptionArgument(o: Option<Json>)
    requires TextArgument(o).Ok?
    ensures TextOption(TextArgument(o).value) == o
  {
  }

  lemma StringRelowered(compiles: Text -> bool, h: Heap, kw: Keywords, e: Expr, final: Heap)
    requires Sound(h) && kw.typ == Some(StringType) && TranslateString(kw) == Ok(e)
    requires EvalScalar(compiles, h, e).Ok? && Later(EvalScalar(compiles, h, e).value.0, final)
    ensures EvalScalar(compiles, h, e).value.1 < |final.nodes|
    ensures LowerScalar(final, EvalScalar(compiles, h, e).value.1) == Expected(Node(kw))
  {
    var (h', ref) := EvalScalar(compiles, h, e).value;
    StringOutcome(compiles, h, kw, e);
    RecordSurvives(h, h', final, ref, StringDef, LString(OptionsOf(e)));
    NumOptionArgument(e.maxLength);
    NumOptionArgument(e.minLength);
    TextOptionArgument(e.pattern);
    TextOptionArgument(e.description);
    assert StringSchema(OptionsOf(e)) == Node(kw);
  }

  lemma EnumNode(kw: Keywords, values: seq<Text>)
    requires TranslateScalar(kw) == Ok(Enum(values))
    ensures EnumSchema(values) == Node(kw)
    ensures EnumsInOrder(Node(kw)) <==> KeyOrder(values) == values
  {
    KeyOrderFixed(values);
    assert kw.enumeration.value.Arr? && values == Strings(kw.enumeration.value.items);
  }

  lemma LooseNode(kw: Keywords, description: Option<Json>)
    requires TranslateScalar(kw) == Ok(TbLoose(description)) && !IsStrict(kw) && TextArgument(description).Ok?
    ensures LooseSchema(TextArgument(description).value) == Node(kw) && EnumsInOrder(Node(kw))
  {
    TextOptionArgument(description);
  }

  lemma IntegerNode(kw: Keywords, minimum: real, maximum: real)
    requires TranslateScalar(kw) == Ok(TbInteger(minimum, maximum))
    ensures IntegerSchema(minimum, maximum) == Node(kw) && EnumsInOrder(Node(kw))
  {
  }

  lemma BooleanNode(kw: Keywords)
    requires TranslateScalar(kw) == Ok(TbBoolean)
    ensures Node(NO_KEYWORDS.(typ := Some(BooleanType))) == Node(kw) && EnumsInOrder(Node(kw))
  {
  }

  /** What a registered scalar lowers to. */
  function ScalarSchema(e: Expr): LowerResult
    requires IsScalar(e) && !e.TbString?
  {
    match ScalarLowering(e)
    case LConst(value) => Ok(Node(NO_KEYWORDS.(constant := Some(value))))
    case LEnum(values) => if KeyOrder(values) == values then Ok(EnumSchema(values)) else Err(EntriesDiffer)
    case LInteger(minimum, maximum) => Ok(IntegerSchema(minimum, maximum))
    case LBoolean => Ok(Node(NO_KEYWORDS.(typ := Some(BooleanType))))
    case LLoose(description) => Ok(LooseSchema(description))
  }

  lemma ScalarLowers(final: Heap, ref: Ref, e: Expr)
    requires IsScalar(e) && !e.TbString? && ref < |final.nodes| && final.nodes[ref].def == ScalarDef(e)
    requires Require(final, ref, KindOf(ScalarLowering(e))) == Ok(ScalarLowering(e))
    ensures LowerScalar(final, ref) == ScalarSchema(e)
  {
  }

  lemma ScalarNode(kw: Keywords, e: Expr)
    requires TranslateScalar(kw) == Ok(e) && !e.TbString? && !IsStrict(kw)
    requires e.TbLoose? ==> TextArgument(e.description).Ok?
    ensures IsScalar(e) && ScalarSchema(e) == Expected(Node(kw))
  {
    match e
    case Enum(values) => EnumNode(kw, values);
    case TbLoose(description) => LooseNode(kw, description);
    case TbInteger(minimum, maximum) => IntegerNode(kw, minimum, maximum);
    case TbBoolean => BooleanNode(kw);
  }

  lemma ScalarRelowered(compiles: Text -> bool, h: Heap, kw: Keywords, e: Expr, final: Heap)
    requires Sound(h) && TranslateScalar(kw) == Ok(e) && !e.TbString? && !IsStrict(kw)
    requires EvalScalar(compiles, h, e).Ok? && Later(EvalScalar(compiles, h, e).value.0, final)
    ensures EvalScalar(compiles, h, e).value.1 < |final.nodes|
    ensures LowerScalar(final, EvalScalar(compiles, h, e).value.1) == Expected(Node(kw))
  {
    var (h', ref) := EvalScalar(compiles, h, e).value;
    ScalarNode(kw, e);
    ScalarMade(compiles, h, e);
    RecordSurvives(h, h', final, ref, ScalarDef(e), ScalarLowering(e));
    ScalarLowers(final, ref, e);
  }

  lemma ConstNode(kw: Keywords, e: Expr)
    requires kw.constant.Some? && TranslateConst(kw) == Ok(e)
    ensures IsScalar(e) && !e.TbString? && ScalarSchema(e) == Expected(Node(kw))
  {
    assert e == Literal(kw.constant.value) && kw == NO_KEYWORDS.(constant := kw.constant);
    assert EnumsInOrder(Node(kw));
  }

  lemma ConstRelowered(compiles: Text -> bool, h: Heap, kw: Keywords, e: Expr, final: Heap)
    requires Sound(h) && kw.constant.Some? && TranslateConst(kw) == Ok(e)
    requires Later(EvalScalar(compiles, h, e).value.0, final)
    ensures EvalScalar(compiles, h, e).value.1 < |final.nodes|
    ensures LowerScalar(final, EvalScalar(compiles, h, e).value.1) == Expected(Node(kw))
  {
    var (h', ref) := EvalScalar(compiles, h, e).value;
    ConstNode(kw, e);
    ScalarMade(compiles, h, e);
    RecordSurvives(h, h', final, ref, ScalarDef(e), ScalarLowering(e));
    ScalarLowers(final, ref, e);
  }

  /** The node lowered as a child: by reference when it was one. */
  ghost function Relowered(final: Heap, index: Names, node: Schema, ref: Ref): LowerResult
    requires Ordered(final) && ref < |final.nodes|
  {
    if node.Node? && node.kw.ref.Some? then Lower(final, index, Defs, ref, false)
    else LowerDef(final, index, Defs, ref)
  }

  /** A new schema that the catalog does not name is lowered in place. */
  lemma LoweredInPlace(h: Heap, h': Heap, final: Heap, names: set<Text>, consts: Bindings, index: Names,
                       node: Schema, ref: Ref, high: nat, root: Ref)
    requires Evaluated(h, h', ref, node.Node? && node.kw.ref.Some?) && Later(h', final)
    requires IndexedOnly(index, names, consts, |h.nodes|, high, root) && |h'.nodes| <= root < high
    ensures ref < |final.nodes| && Lower(final, index, Defs, ref, false) == Relowered(final, index, node, ref)
  {
  }

  lemma ReferenceRelowered(names: set<Text>, h: Heap, consts: Bindings, kw: Keywords, e: Expr,
                           final: Heap, index: Names, low: nat, high: nat, root: Ref)
    requires Bound(h, names, consts) && kw.ref.Some? && TranslateReference(names, kw) == Ok(e)
    requires Later(h, final) && IndexedOnly(index, names, consts, low, high, root)
    ensures consts[e.name] < |final.nodes|
    ensures Lower(final, index, Defs, consts[e.name], false) == Ok(Node(kw))
  {
    assert e.name in names;
  }

  lemma NullableRelowered(final: Heap, ref: Ref, inner: Schema, kw: Keywords)
    requires NullableGuard(kw).Pass? && inner == kw.anyOf.value.list[0]
    requires ref < |final.nodes| && final.nodes[ref].checks == []
    ensures AsNullable(final, ref, Expected(inner)) == Expected(Node(kw))
  {
    var list := kw.anyOf.value.list;
    assert list == [inner, NULL_SCHEMA];
    assert list[..1] == [inner] && [inner][..0] == [];
    assert AllEnumsInOrder(list) <==> AllEnumsInOrder([inner]) && EnumsInOrder(NULL_SCHEMA);
    assert AllEnumsInOrder([inner]) <==> EnumsInOrder(inner);
  }

  lemma ArrayRelowered(final: Heap, index: Names, ref: Ref, child: Ref, kw: Keywords, minItems: real, maxItems: real)
    requires ArrayGuard(kw).Pass? && kw.typ == Some(ArrayType)
    requires Some(Num(minItems)) == kw.minItems && Some(Num(maxItems)) == kw.maxItems
    requires Ordered(final) && ref < |final.nodes| && final.nodes[ref].def == ArrayDef(child) && child < ref
    requires Require(final, ref, KArray) == Ok(LArray(minItems, maxItems))
    requires Lower(final, index, Defs, child, false) == Expected(kw.items.value)
    ensures LowerDef(final, index, Defs, ref) == Expected(Node(kw))
  {
    assert ArraySchema(kw.items.value, minItems, maxItems) == Node(kw);
    assert LowerDef(final, index, Defs, ref) == AsArray(final, ref, Expected(kw.items.value));
  }

  lemma ObjectRelowered(final: Heap, index: Names, ref: Ref, shape: seq<Slot>, never: Ref, kw: Keywords,
                        limit: Option<real>, text: Option<Text>)
    requires ObjectGuard(kw).Pass? && kw.typ == Some(ObjectType)
    requires NumberArgument(kw.minProperties) == Ok(limit) && TextArgument(kw.description) == Ok(text)
    requires Ordered(final) && ref < |final.nodes| && final.nodes[ref].def == ObjectDef(shape, Some(never))
    requires OldSlots(shape, ref) && never < |final.nodes| && final.nodes[never].def.NeverDef?
    requires Require(final, ref, KObject) == Ok(LObject(limit, text))
    requires var entries := kw.properties.value.entries;
      LowerSlots(final, index, Defs, shape, ref)
      == ExpectedFields(entries, RequiredInOrder(NamesOf(entries), kw.required.value.items))
    ensures LowerDef(final, index, Defs, ref) == Expected(Node(kw))
  {
    var entries := kw.properties.value.entries;
    var required := RequiredInOrder(NamesOf(entries), kw.required.value.items);
    NumOptionArgument(kw.minProperties);
    TextOptionArgument(kw.description);
    assert ObjectSchema(Fields(entries, required), limit, text) == Node(kw);
    assert LowerDef(final, index, Defs, ref) == AsObject(final, ref, ExpectedFields(entries, required));
  }

  lemma SlotRelowered(final: Heap, entries: seq<Property>, required: seq<Json>, slot: Slot)
    requires entries != [] && Ordered(final) && slot.schema < |final.nodes|
    requires slot.key == entries[|entries| - 1].name
    requires final.nodes[slot.schema].def.OptionalDef? == (Str(slot.key) !in required)
    requires final.nodes[slot.schema].def.OptionalDef? ==> final.nodes[slot.schema].checks == []
    ensures var init := entries[..|entries| - 1];
      WithSlot(final, ExpectedFields(init, RequiredInOrder(NamesOf(init), required)), slot,
               Expected(entries[|entries| - 1].schema))
      == ExpectedFields(entries, RequiredInOrder(NamesOf(entries), required))
  {
    var init, last := entries[..|entries| - 1], entries[|entries| - 1];
    assert NamesOf(entries)[..|entries| - 1] == NamesOf(init);
    assert init + [Property(slot.key, last.schema)] == entries;
  }

  lemma BranchRelowered(nodes: seq<Schema>)
    requires nodes != []
    ensures WithBranch(ExpectedAll(nodes[..|nodes| - 1]), Expected(nodes[|nodes| - 1])) == ExpectedAll(nodes)
  {
    assert nodes[..|nodes| - 1] + [nodes[|nodes| - 1]] == nodes;
  }

  /** Main result: lowering the evaluated expression gives the node back, unless an enum of the node is
      not in key order, and then the lowering refuses it. */
  lemma {:induction false} Relowers(compiles: Text -> bool, names: set<Text>, h: Heap, consts: Bindings,
                                    node: Schema, e: Expr, final: Heap, index: Names)
    requires Sound(h) && Bound(h, names, consts) && Translate(names, node) == Ok(e)
    requires Eval(compiles, h, consts, e).Ok?
    requires var (h', ref) := Eval(compiles, h, consts, e).value;
      Later(h', final) && IndexedOnly(index, names, consts, |h.nodes|, |h'.nodes|, ref)
    ensures var (h', ref) := Eval(compiles, h, consts, e).value;
      ref < |final.nodes| && Relowered(final, index, node, ref) == Expected(node)
    decreases node, 1
  {
    EvalOutcome(compiles, names, h, consts, node, e);
    var kw := node.kw;
    var (h', ref) := Eval(compiles, h, consts, e).value;
    if kw.ref.Some? {
      ReferenceRelowered(names, h, consts, kw, e, final, index, |h.nodes|, |h'.nodes|, ref);
    } else if kw.anyOf.Some? {
      NullableRelowers(compiles, names, h, consts, node, e, final, index);
    } else if kw.constant.Some? {
      ConstRelowered(compiles, h, kw, e, final);
      RecordLowersAsScalar(compiles, h, e, final, index);
    } else if kw.typ == Some(ArrayType) {
      ArrayRelowers(compiles, names, h, consts, node, e, final, index);
    } else if IsStrict(kw) {
      ObjectRelowers(compiles, names, h, consts, node, e, final, index);
    } else {
      ScalarOutcome(compiles, names, h, consts, node, e);
      ScalarRelowers(compiles, h, kw, e, final, index);
    }
  }

  lemma ScalarIsString(kw: Keywords, e: Expr)
    requires TranslateScalar(kw) == Ok(e) && e.TbString?
    ensures kw.typ == Some(StringType) && TranslateString(kw) == Ok(e)
  {
  }

  lemma ScalarRelowers(compiles: Text -> bool, h: Heap, kw: Keywords, e: Expr, final: Heap, index: Names)
    requires Sound(h) && IsScalar(e) && TranslateScalar(kw) == Ok(e) && !IsStrict(kw)
    requires EvalScalar(compiles, h, e).Ok?
    requires var (h', ref) := EvalScalar(compiles, h, e).value;
      Made(h, h', ref, ScalarDef(e), ScalarLowering(e)) && Later(h', final)
    ensures var ref := EvalScalar(compiles, h, e).value.1;
      ref < |final.nodes| && LowerDef(final, index, Defs, ref) == Expected(Node(kw))
  {
    if e.TbString? {
      ScalarIsString(kw, e);
      StringRelowered(compiles, h, kw, e, final);
    } else {
      ScalarRelowered(compiles, h, kw, e, final);
    }
    RecordLowersAsScalar(compiles, h, e, final, index);
  }

  lemma RecordLowersAsScalar(compiles: Text -> bool, h: Heap, e: Expr, final: Heap, index: Names)
    requires Sound(h) && IsScalar(e) && EvalScalar(compiles, h, e).Ok?
    requires var (h', ref) := EvalScalar(compiles, h, e).value;
      Made(h, h', ref, ScalarDef(e), ScalarLowering(e)) && Later(h', final)
    ensures var ref := EvalScalar(compiles, h, e).value.1;
      ref < |final.nodes| && LowerDef(final, index, Defs, ref) == LowerScalar(final, ref)
  {
    var (h', ref) := EvalScalar(compiles, h, e).value;
    NodeSurvives(h', final, ref);
  }

  lemma {:induction false} NullableRelowers(compiles: Text -> bool, names: set<Text>, h: Heap, consts: Bindings,
                                            node: Schema, e: Expr, final: Heap, index: Names)
    requires Sound(h) && Bound(h, names, consts) && e.Nullable?
    requires node.Node? && NullableGuard(node.kw).Pass? && Translate(names, node.kw.anyOf.value.list[0]) == Ok(e.inner)
    requires Eval(compiles, h, consts, e).Ok?
    requires var (h', ref) := Eval(compiles, h, consts, e).value;
      Later(h', final) && IndexedOnly(index, names, consts, |h.nodes|, |h'.nodes|, ref)
    ensures var (h', ref) := Eval(compiles, h, consts, e).value;
      ref < |final.nodes| && LowerDef(final, index, Defs, ref) == Expected(node)
    decreases node, 0
  {
    var inner := node.kw.anyOf.value.list[0];
    var (h1, child) := Eval(compiles, h, consts, e.inner).value;
    var (h', ref) := Eval(compiles, h, consts, e).value;
    EvalOutcome(compiles, names, h, consts, inner, e.inner);
    CreatedFacts(h1, Zod(NullableDef(child), []));
    ExtendsTransitive(h1, h', final);
    Relowers(compiles, names, h, consts, inner, e.inner, final, index);
    LoweredInPlace(h, h1, final, names, consts, index, inner, child, |h'.nodes|, ref);
    NodeSurvives(h', final, ref);
    NullableRelowered(final, ref, inner, node.kw);
  }

  lemma ArrayEvaluated(compiles: Text -> bool, h: Heap, consts: Bindings, e: Expr)
    requires e.TbArray? && Eval(compiles, h, consts, e).Ok?
    requires var (h1, child) := Eval(compiles, h, consts, e.item).value; Sound(h1) && child < |h1.nodes|
    ensures var (h1, child) := Eval(compiles, h, consts, e.item).value;
      var (h', ref) := Eval(compiles, h, consts, e).value;
      Made(h1, h', ref, ArrayDef(child), LArray(e.minItems, e.maxItems))
  {
    var (h1, child) := Eval(compiles, h, consts, e.item).value;
    ArrayFacts(h1, child, e.minItems, e.maxItems);
  }

  lemma {:induction false} ArrayRelowers(compiles: Text -> bool, names: set<Text>, h: Heap, consts: Bindings,
                                         node: Schema, e: Expr, final: Heap, index: Names)
    requires Sound(h) && Bound(h, names, consts) && e.TbArray?
    requires node.Node? && node.kw.typ == Some(ArrayType) && ArrayGuard(node.kw).Pass?
    requires Translate(names, node.kw.items.value) == Ok(e.item)
    requires Some(Num(e.minItems)) == node.kw.minItems && Some(Num(e.maxItems)) == node.kw.maxItems
    requires Eval(compiles, h, consts, e).Ok?
    requires var (h', ref) := Eval(compiles, h, consts, e).value;
      Later(h', final) && IndexedOnly(index, names, consts, |h.nodes|, |h'.nodes|, ref)
    ensures var (h', ref) := Eval(compiles, h, consts, e).value;
      ref < |final.nodes| && LowerDef(final, index, Defs, ref) == Expected(node)
    decreases node, 0
  {
    var item := node.kw.items.value;
    var (h1, child) := Eval(compiles, h, consts, e.item).value;
    var (h', ref) := Eval(compiles, h, consts, e).value;
    EvalOutcome(compiles, names, h, consts, item, e.item);
    ArrayEvaluated(compiles, h, consts, e);
    ExtendsTransitive(h1, h', final);
    Relowers(compiles, names, h, consts, item, e.item, final, index);
    LoweredInPlace(h, h1, final, names, consts, index, item, child, |h'.nodes|, ref);
    ArrayOnTop(h1, child, h', ref, node.kw, e.minItems, e.maxItems, final, index);
  }

  lemma ArrayOnTop(h: Heap, child: Ref, h': Heap, ref: Ref, kw: Keywords, minItems: real, maxItems: real,
                   final: Heap, index: Names)
    requires Made(h, h', ref, ArrayDef(child), LArray(minItems, maxItems)) && Later(h', final)
    requires ArrayGuard(kw).Pass? && kw.typ == Some(ArrayType)
    requires Some(Num(minItems)) == kw.minItems && Some(Num(maxItems)) == kw.maxItems
    requires child < ref && child < |final.nodes|
    requires Lower(final, index, Defs, child, false) == Expected(kw.items.value)
    ensures ref < |final.nodes| && LowerDef(final, index, Defs, ref) == Expected(Node(kw))
  {
    RecordSurvives(h, h', final, ref, ArrayDef(child), LArray(minItems, maxItems));
    ArrayRelowered(final, index, ref, child, kw, minItems, maxItems);
  }

  lemma ObjectSurvives(h: Heap, h': Heap, final: Heap, ref: Ref, shape: seq<Slot>, limit: Option<real>,
                       text: Option<Text>)
    requires Made(h, h', ref, ObjectDef(shape, Some(|h.nodes|)), LObject(limit, text)) && Later(h', final)
    requires |h.nodes| < |h'.nodes| && h'.nodes[|h.nodes|].def.NeverDef?
    ensures ref < |final.nodes| && final.nodes[ref].def == ObjectDef(shape, Some(|h.nodes|))
    ensures |h.nodes| < |final.nodes| && final.nodes[|h.nodes|].def.NeverDef?
    ensures Require(final, ref, KObject) == Ok(LObject(limit, text))
  {
    RecordSurvives(h, h', final, ref, ObjectDef(shape, Some(|h.nodes|)), LObject(limit, text));
    NodeSurvives(h', final, |h.nodes|);
  }

  lemma {:induction false} ObjectRelowers(compiles: Text -> bool, names: set<Text>, h: Heap, consts: Bindings,
                                          node: Schema, e: Expr, final: Heap, index: Names)
    requires Sound(h) && Bound(h, names, consts) && e.TbObject?
    requires node.Node? && node.kw.typ == Some(ObjectType) && ObjectGuard(node.kw).Pass?
    requires TranslateFields(names, node.kw.properties.value.entries, node.kw.required.value.items) == Ok(e.fields)
    requires e.minProperties == node.kw.minProperties && e.description == node.kw.description
    requires Eval(compiles, h, consts, e).Ok?
    requires var (h', ref) := Eval(compiles, h, consts, e).value;
      Later(h', final) && IndexedOnly(index, names, consts, |h.nodes|, |h'.nodes|, ref)
    ensures var (h', ref) := Eval(compiles, h, consts, e).value;
      ref < |final.nodes| && LowerDef(final, index, Defs, ref) == Expected(node)
    decreases node, 0
  {
    var entries, required := node.kw.properties.value.entries, node.kw.required.value.items;
    var (h1, shape) := EvalFields(compiles, h, consts, e.fields).value;
    var (h', ref) := Eval(compiles, h, consts, e).value;
    var limit, text := NumberArgument(e.minProperties).value, TextArgument(e.description).value;
    FieldsOutcome(compiles, names, h, consts, entries, required, e.fields);
    ObjectFacts(h1, shape, limit, text);
    ExtendsTransitive(h1, h', final);
    ObjectSurvives(h1, h', final, ref, shape, limit, text);
    FieldsRelower(compiles, names, h, consts, entries, required, e.fields, final, index, ref);
    ObjectRelowered(final, index, ref, shape, |h1.nodes|, node.kw, limit, text);
  }

  lemma {:induction false} FieldsRelower(compiles: Text -> bool, names: set<Text>, h: Heap, consts: Bindings,
                                         entries: seq<Property>, required: seq<Json>, fields: seq<Port.Field>,
                                         final: Heap, index: Names, owner: Ref)
    requires Sound(h) && Bound(h, names, consts)
    requires TranslateFields(names, entries, required) == Ok(fields)
    requires EvalFields(compiles, h, consts, fields).Ok?
    requires var (h', shape) := EvalFields(compiles, h, consts, fields).value;
      && Later(h', final) && |h'.nodes| <= owner < |final.nodes| && OldSlots(shape, owner)
      && IndexedOnly(index, names, consts, |h.nodes|, owner + 1, owner)
    ensures var (h', shape) := EvalFields(compiles, h, consts, fields).value;
      LowerSlots(final, index, Defs, shape, owner)
      == ExpectedFields(entries, RequiredInOrder(NamesOf(entries), required))
    decreases entries, 0
  {
    if entries != [] {
      var init, last := entries[..|entries| - 1], entries[|entries| - 1];
      var first, field := fields[..|fields| - 1], fields[|fields| - 1];
      FieldsSplit(names, entries, required, fields);
      var (h1, before) := EvalFields(compiles, h, consts, first).value;
      var (h', ref) := EvalField(compiles, h1, consts, field).value;
      var shape := EvalFields(compiles, h, consts, fields).value.1;
      assert shape == before + [Slot(field.name, ref)] && shape[..|shape| - 1] == before;
      FieldsOutcome(compiles, names, h, consts, init, required, first);
      BoundSurvives(h, h1, names, consts);
      FieldOutcome(compiles, names, h1, consts, last.schema, field);
      ExtendsTransitive(h1, h', final);
      FieldsRelower(compiles, names, h, consts, init, required, first, final, index, owner);
      FieldRelowers(compiles, names, h1, consts, last.schema, field, final, index, owner);
      SlotRelowered(final, entries, required, Slot(field.name, ref));
    }
  }

  lemma {:induction false} FieldRelowers(compiles: Text -> bool, names: set<Text>, h: Heap, consts: Bindings,
                                         node: Schema, f: Port.Field, final: Heap, index: Names, owner: Ref)
    requires Sound(h) && Bound(h, names, consts) && Translate(names, node) == Ok(f.expr)
    requires EvalField(compiles, h, consts, f).Ok?
    requires var (h', ref) := EvalField(compiles, h, consts, f).value;
      Later(h', final) && |h'.nodes| <= owner && IndexedOnly(index, names, consts, |h.nodes|, owner + 1, owner)
    ensures var (h', ref) := EvalField(compiles, h, consts, f).value;
      && ref < |final.nodes| && final.nodes[ref].def.OptionalDef? == f.optional
      && (f.optional ==> final.nodes[ref].checks == [])
      && Lower(final, index, Defs, Unwrapped(final, ref), false) == Expected(node)
    decreases node, 2
  {
    var (h1, child) := Eval(compiles, h, consts, f.expr).value;
    var (h', ref) := EvalField(compiles, h, consts, f).value;
    EvalOutcome(compiles, names, h, consts, node, f.expr);
    if f.optional {
      CreatedFacts(h1, Zod(OptionalDef(child), []));
    }
    NodeSurvives(h', final, ref);
    ExtendsTransitive(h1, h', final);
    Relowers(compiles, names, h, consts, node, f.expr, final, index);
    LoweredInPlace(h, h1, final, names, consts, index, node, child, owner + 1, owner);
  }
}
