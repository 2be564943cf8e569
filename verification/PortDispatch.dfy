/**
 * The unions of the port have dispatch tables, so the catalog of the evaluated modules accepts exactly the
 * values that are valid against the frozen definitions.
 */
module PortDispatch {
  import opened Wrappers
  import opened Utf16
  import opened JsonSchema
  import opened Wire
  import opened Lowering
  import opened Builders
  import opened Meaning
  import opened Dispatch
  import opened Artifacts
  import opened Port
  import opened RoundTrip
  import opened PortBundle
  import opened FrozenBundle
  import Planning

  // ----- The branches of a ported union ----------------------------------------------------------

  /** What the language guarantees of the properties of an object: no key occurs twice. */
  ghost predicate DistinctNames(entries: seq<Property>) {
    forall i, j :: 0 <= i < j < |entries| ==> entries[i].name != entries[j].name
  }

  ghost predicate BranchesDistinct(branches: seq<Schema>) {
    forall i :: 0 <= i < |branches| && HasProperties(branches[i]) ==>
      DistinctNames(branches[i].kw.properties.value.entries)
  }

  /** A branch with a string constant under `key` is a strict object. */
  lemma BranchIsObject(names: set<Text>, branch: Schema, key: Text, e: Expr)
    requires BranchConstant(branch, key).Some? && Translate(names, branch) == Ok(e)
    ensures e.TbObject? && ObjectGuard(branch.kw).Pass? && branch.kw.ref.None?
    ensures TranslateFields(names, branch.kw.properties.value.entries, branch.kw.required.value.items) == Ok(e.fields)
    ensures e.minProperties == branch.kw.minProperties && e.description == branch.kw.description
  {
    assert branch.kw.properties.Some?;
  }

  lemma ConstantIsLiteral(names: set<Text>, node: Schema, e: Expr)
    requires node.Node? && node.kw.constant.Some? && Translate(names, node) == Ok(e)
    ensures e == Literal(node.kw.constant.value)
  {
  }

  ghost predicate HasConstantSlot(h: Heap, shape: seq<Slot>, key: Text, value: Json) {
    exists i :: 0 <= i < |shape| && shape[i].key == key && IsConstant(h, shape[i].schema, value)
  }

  lemma ConstantSlotSurvives(h: Heap, h': Heap, shape: seq<Slot>, more: seq<Slot>, key: Text, value: Json)
    requires Extends(h, h') && HasConstantSlot(h, shape, key, value)
    ensures HasConstantSlot(h', shape + more, key, value)
  {
    var i :| 0 <= i < |shape| && shape[i].key == key && IsConstant(h, shape[i].schema, value);
    NodeSurvives(h, h', shape[i].schema);
    assert (shape + more)[i] == shape[i] && IsConstant(h', shape[i].schema, value);
  }

  /** The required constant property of a branch evaluates to a slot with that constant. */
  lemma {:induction false} FieldsConstant(compiles: Text -> bool, names: set<Text>, h: Heap, consts: Bindings,
                                          entries: seq<Property>, required: seq<Json>, fields: seq<Port.Field>,
                                          key: Text, value: Json)
    requires Sound(h) && Bound(h, names, consts)
    requires TranslateFields(names, entries, required) == Ok(fields) && EvalFields(compiles, h, consts, fields).Ok?
    requires PropertyConstant(entries, key) == Some(value) && Str(key) in required
    ensures var (h', shape) := EvalFields(compiles, h, consts, fields).value; HasConstantSlot(h', shape, key, value)
    decreases |entries|
  {
    var init, last := entries[..|entries| - 1], entries[|entries| - 1];
    var first, field := fields[..|fields| - 1], fields[|fields| - 1];
    FieldsSplit(names, entries, required, fields);
    var (h1, before) := EvalFields(compiles, h, consts, first).value;
    var (h', ref) := EvalField(compiles, h1, consts, field).value;
    FieldsOutcome(compiles, names, h, consts, init, required, first);
    if last.name == key {
      ConstantIsLiteral(names, last.schema, field.expr);
      assert !field.optional && EvalField(compiles, h1, consts, field) == Ok(MakeLiteral(h1, value));
      LiteralFacts(h1, value);
      assert h'.nodes[ref].def == LiteralDef([value]);
      var shape := before + [Slot(key, ref)];
      assert shape[|before|] == Slot(key, ref) && IsConstant(h', ref, value);
    } else {
      FieldsConstant(compiles, names, h, consts, init, required, first, key, value);
      BoundSurvives(h, h1, names, consts);
      FieldOutcome(compiles, names, h1, consts, last.schema, field);
      ConstantSlotSurvives(h1, h', before, [Slot(field.name, ref)], key, value);
    }
  }

  lemma BranchEvaluates(compiles: Text -> bool, names: set<Text>, h: Heap, consts: Bindings,
                        branch: Schema, e: Expr, key: Text)
    requires Sound(h) && Bound(h, names, consts) && Translate(names, branch) == Ok(e)
    requires BranchConstant(branch, key).Some? && Eval(compiles, h, consts, e).Ok?
    requires DistinctNames(branch.kw.properties.value.entries)
    ensures var (h', ref) := Eval(compiles, h, consts, e).value;
      IsBranch(h', ref, key, BranchConstant(branch, key).value)
  {
    BranchIsObject(names, branch, key, e);
    var entries, required := branch.kw.properties.value.entries, branch.kw.required.value.items;
    var value := BranchConstant(branch, key).value;
    var (h1, shape) := EvalFields(compiles, h, consts, e.fields).value;
    var (h', ref) := Eval(compiles, h, consts, e).value;
    var limit, text := NumberArgument(e.minProperties).value, TextArgument(e.description).value;
    FieldsOutcome(compiles, names, h, consts, entries, required, e.fields);
    FieldsConstant(compiles, names, h, consts, entries, required, e.fields, key, value);
    ObjectFacts(h1, shape, limit, text);
    ConstantSlotSurvives(h1, h', shape, [], key, value);
    assert shape + [] == shape;
    SlotsDistinct(h1, shape, entries);
  }

  lemma SlotsDistinct(h: Heap, shape: seq<Slot>, entries: seq<Property>)
    requires SlotsOf(h, shape, entries) && DistinctNames(entries)
    ensures DistinctSlots(shape)
  {
  }

  /** The evaluated options: existing schemas, and branches with the constants of their nodes. */
  ghost predicate BranchesOf(h: Heap, options: seq<Ref>, branches: seq<Schema>, key: Text) {
    |options| == |branches| &&
    forall i :: 0 <= i < |options| ==>
      options[i] < |h.nodes| &&
      (BranchConstant(branches[i], key).Some? ==> IsBranch(h, options[i], key, BranchConstant(branches[i], key).value))
  }

  lemma BranchesStep(h: Heap, h': Heap, options: seq<Ref>, branches: seq<Schema>, key: Text, ref: Ref)
    requires branches != [] && BranchesOf(h, options, branches[..|branches| - 1], key) && Extends(h, h')
    requires ref < |h'.nodes|
    requires var last := branches[|branches| - 1];
      BranchConstant(last, key).Some? ==> IsBranch(h', ref, key, BranchConstant(last, key).value)
    ensures BranchesOf(h', options + [ref], branches, key)
  {
    var init := branches[..|branches| - 1];
    forall i | 0 <= i < |options|
      ensures options[i] < |h'.nodes|
      ensures BranchConstant(branches[i], key).Some? ==>
        IsBranch(h', options[i], key, BranchConstant(branches[i], key).value)
    {
      assert init[i] == branches[i];
      if BranchConstant(branches[i], key).Some? {
        BranchSurvives(h, h', options[i], key, BranchConstant(branches[i], key).value);
      }
    }
  }

  lemma {:induction false} AllBranches(compiles: Text -> bool, names: set<Text>, h: Heap, consts: Bindings,
                                       nodes: seq<Schema>, es: seq<Expr>, key: Text)
    requires Sound(h) && Bound(h, names, consts) && BranchesDistinct(nodes)
    requires TranslateAll(names, nodes) == Ok(es) && EvalAll(compiles, h, consts, es).Ok?
    ensures var (h', options) := EvalAll(compiles, h, consts, es).value;
      Sound(h') && Extends(h, h') && BranchesOf(h', options, nodes, key)
    decreases |nodes|
  {
    AllOutcome(compiles, names, h, consts, nodes, es);
    if nodes != [] {
      var init, last := nodes[..|nodes| - 1], nodes[|nodes| - 1];
      var first, e := es[..|es| - 1], es[|es| - 1];
      AllSplit(names, nodes, es);
      AllBranches(compiles, names, h, consts, init, first, key);
      var (h1, options) := EvalAll(compiles, h, consts, first).value;
      var (h', ref) := Eval(compiles, h1, consts, e).value;
      BoundSurvives(h, h1, names, consts);
      EvalOutcome(compiles, names, h1, consts, last, e);
      if BranchConstant(last, key).Some? {
        BranchEvaluates(compiles, names, h1, consts, last, e, key);
      }
      BranchesStep(h1, h', options, nodes, key, ref);
    }
  }

  /** The port's guard on the discriminator gives the evaluated union a complete dispatch table. */
  lemma BranchesDispatch(h: Heap, options: seq<Ref>, branches: seq<Schema>, key: Text)
    requires Ordered(h) && BranchesOf(h, options, branches, key) && IsCandidate(branches, key)
    requires DistinctValues(Constants(branches, key))
    ensures OldRefs(options, |h.nodes|) && Tabled(h, options, key) && AllKeyed(h, options, key)
  {
    var constants := Constants(branches, key);
    forall i | 0 <= i < |options|
      ensures IsBranch(h, options[i], key, constants[i])
    {
      assert BranchConstant(branches[i], key).Some?;
    }
    BranchesTabled(h, options, key, constants);
  }

  // ----- Dispatch tables survive -----------------------------------------------------------------

  /** The later heap has the older nodes where they were. */
  ghost predicate Prefixed(h: Heap, h': Heap) {
    Ordered(h) && Ordered(h') && |h.nodes| <= |h'.nodes| && h'.nodes[..|h.nodes|] == h.nodes
  }

  lemma SameNode(h: Heap, h': Heap, ref: Ref)
    requires Prefixed(h, h') && ref < |h.nodes|
    ensures h'.nodes[ref] == h.nodes[ref]
  {
    assert h'.nodes[..|h.nodes|][ref] == h.nodes[ref];
  }

  lemma {:induction false} ValuesSurvive(h: Heap, h': Heap, ref: Ref, x: Option<Json>)
    requires Prefixed(h, h') && ref < |h.nodes|
    ensures HasValues(h, ref) == HasValues(h', ref) && InValues(h, ref, x) == InValues(h', ref, x)
    decreases ref
  {
    SameNode(h, h', ref);
    match h.nodes[ref].def
    case NullableDef(inner) => ValuesSurvive(h, h', inner, x);
    case OptionalDef(inner) => ValuesSurvive(h, h', inner, x);
    case _ =>
  }

  lemma {:induction false} DiscriminableSurvives(h: Heap, h': Heap, option: Ref)
    requires Prefixed(h, h') && option < |h.nodes|
    ensures Discriminable(h, option) == Discriminable(h', option)
    decreases option
  {
    SameNode(h, h', option);
    match h.nodes[option].def
    case ObjectDef(shape, _) =>
      forall i | 0 <= i < |shape|
        ensures HasValuedSlot(h, shape, shape[i].key) == HasValuedSlot(h', shape, shape[i].key)
      {
        ValuedSlotSurvives(h, h', shape, shape[i].key);
      }
    case UnionDef(options, _, _, _) =>
      forall i | 0 <= i < |options|
        ensures Discriminable(h, options[i]) == Discriminable(h', options[i])
      {
        DiscriminableSurvives(h, h', options[i]);
      }
    case _ =>
  }

  lemma ValuedSlotSurvives(h: Heap, h': Heap, shape: seq<Slot>, key: Text)
    requires Prefixed(h, h') && forall i :: 0 <= i < |shape| ==> shape[i].schema < |h.nodes|
    ensures HasValuedSlot(h, shape, key) == HasValuedSlot(h', shape, key)
  {
    forall i | 0 <= i < |shape|
      ensures HasValues(h, shape[i].schema) == HasValues(h', shape[i].schema)
    {
      ValuesSurvive(h, h', shape[i].schema, None);
    }
  }

  lemma {:induction false} KeyedSurvives(h: Heap, h': Heap, option: Ref, key: Text)
    requires Prefixed(h, h') && option < |h.nodes|
    ensures Keyed(h, option, key) == Keyed(h', option, key)
    decreases option
  {
    SameNode(h, h', option);
    match h.nodes[option].def
    case ObjectDef(shape, _) => ValuedSlotSurvives(h, h', shape, key);
    case UnionDef(options, _, _, _) =>
      forall i | 0 <= i < |options|
        ensures Keyed(h, options[i], key) == Keyed(h', options[i], key)
      {
        KeyedSurvives(h, h', options[i], key);
      }
    case _ =>
  }

  lemma {:induction false} SelectsSurvives(h: Heap, h': Heap, option: Ref, key: Text, x: Option<Json>)
    requires Prefixed(h, h') && option < |h.nodes|
    ensures Selects(h, option, key, x) == Selects(h', option, key, x)
    decreases option
  {
    SameNode(h, h', option);
    match h.nodes[option].def
    case ObjectDef(shape, _) =>
      forall i | 0 <= i < |shape|
        ensures HasValues(h, shape[i].schema) == HasValues(h', shape[i].schema)
        ensures InValues(h, shape[i].schema, x) == InValues(h', shape[i].schema, x)
      {
        ValuesSurvive(h, h', shape[i].schema, x);
      }
    case UnionDef(options, _, _, _) =>
      DiscriminableSurvives(h, h', option);
      forall i | 0 <= i < |options|
        ensures Selects(h, options[i], key, x) == Selects(h', options[i], key, x)
      {
        SelectsSurvives(h, h', options[i], key, x);
      }
    case _ =>
  }

  lemma TabledSurvives(h: Heap, h': Heap, options: seq<Ref>, key: Text)
    requires Prefixed(h, h') && OldRefs(options, |h.nodes|) && Tabled(h, options, key) && AllKeyed(h, options, key)
    ensures Tabled(h', options, key) && AllKeyed(h', options, key)
  {
    forall i, x | 0 <= i < |options|
      ensures Selects(h, options[i], key, x) == Selects(h', options[i], key, x)
    {
      SelectsSurvives(h, h', options[i], key, x);
    }
    forall i | 0 <= i < |options|
      ensures Keyed(h', options[i], key) && Selectable(h', options[i], key)
    {
      KeyedSurvives(h, h', options[i], key);
      assert Selectable(h, options[i], key);
      var x :| Selects(h, options[i], key, x);
      assert Selects(h', options[i], key, x);
    }
    forall i, j, x | 0 <= i < j < |options| && Selects(h', options[i], key, x)
      ensures !Selects(h', options[j], key, x)
    {
      assert Selects(h, options[i], key, x);
    }
  }

  /** Every union of the heap has a complete dispatch table. */
  ghost predicate AllTabled(h: Heap)
    requires Ordered(h)
  {
    forall r {:trigger Dispatchable(h, r, true)} :: 0 <= r < |h.nodes| ==> Dispatchable(h, r, true)
  }

  lemma DispatchableSurvives(h: Heap, h': Heap, ref: Ref)
    requires Prefixed(h, h') && ref < |h.nodes| && Dispatchable(h, ref, true)
    ensures Dispatchable(h', ref, true)
  {
    SameNode(h, h', ref);
    var def := h.nodes[ref].def;
    if def.UnionDef? && def.discriminator.Some? {
      TabledSurvives(h, h', def.options, def.discriminator.value);
    }
  }

  // ----- Evaluation adds no other unions ---------------------------------------------------------

  ghost predicate UnionFree(e: Expr)
    decreases e
  {
    match e
    case Nullable(inner) => UnionFree(inner)
    case TbArray(item, _, _) => UnionFree(item)
    case TbObject(fields, _, _) => forall i :: 0 <= i < |fields| ==> UnionFree(fields[i].expr)
    case TbOneOf(_, _, _) => false
    case _ => true
  }

  /** Unions are translated at the top level only. */
  lemma {:induction false} TranslateUnionFree(names: set<Text>, node: Schema, e: Expr)
    requires Translate(names, node) == Ok(e)
    ensures UnionFree(e)
    decreases node, 1
  {
    if node.kw.ref.None? {
      match e
      case Nullable(inner) => TranslateUnionFree(names, node.kw.anyOf.value.list[0], inner);
      case TbArray(item, _, _) => TranslateUnionFree(names, node.kw.items.value, item);
      case TbObject(fields, _, _) =>
        FieldsUnionFree(names, node.kw.properties.value.entries, node.kw.required.value.items, fields);
      case _ =>
    }
  }

  lemma {:induction false} FieldsUnionFree(names: set<Text>, entries: seq<Property>, required: seq<Json>,
                                           fields: seq<Port.Field>)
    requires TranslateFields(names, entries, required) == Ok(fields)
    ensures forall i :: 0 <= i < |fields| ==> UnionFree(fields[i].expr)
    decreases entries, 0
  {
    if entries != [] {
      FieldsSplit(names, entries, required, fields);
      FieldsUnionFree(names, entries[..|entries| - 1], required, fields[..|fields| - 1]);
      TranslateUnionFree(names, entries[|entries| - 1].schema, fields[|fields| - 1].expr);
    }
  }

  ghost predicate AddsNoUnion(h: Heap, h': Heap) {
    && |h.nodes| <= |h'.nodes| && h'.nodes[..|h.nodes|] == h.nodes
    && forall r :: |h.nodes| <= r < |h'.nodes| ==> !h'.nodes[r].def.UnionDef?
  }

  lemma AddsTransitive(a: Heap, b: Heap, c: Heap)
    requires AddsNoUnion(a, b) && AddsNoUnion(b, c)
    ensures AddsNoUnion(a, c)
  {
    assert c.nodes[..|a.nodes|] == c.nodes[..|b.nodes|][..|a.nodes|];
    forall r | |a.nodes| <= r < |b.nodes|
      ensures !c.nodes[r].def.UnionDef?
    {
      assert c.nodes[..|b.nodes|][r] == b.nodes[r];
    }
  }

  lemma BuiltAddsNoUnion(h: Heap, def: Def, described: bool, l: Wire.Lowering)
    requires !def.UnionDef?
    ensures AddsNoUnion(h, Built(h, def, described, l).0)
  {
    BuiltNodes(h, def, described, l);
  }

  lemma CreatedAddsNoUnion(h: Heap, def: Def)
    requires !def.UnionDef?
    ensures AddsNoUnion(h, Created(h, Zod(def, [])).0)
  {
  }

  lemma ScalarAddsNoUnion(compiles: Text -> bool, h: Heap, e: Expr)
    requires EvalScalar(compiles, h, e).Ok?
    ensures AddsNoUnion(h, EvalScalar(compiles, h, e).value.0)
  {
    match e
    case Literal(value) => BuiltAddsNoUnion(h, LiteralDef([value]), false, LConst(value));
    case Enum(values) => BuiltAddsNoUnion(h, EnumDef(KeyOrder(values)), false, LEnum(values));
    case TbString(_, _, _, _, _) =>
      StringEvaluates(compiles, h, e);
      BuiltAddsNoUnion(h, StringDef, OptionsOf(e).description.Some?, LString(OptionsOf(e)));
    case TbInteger(minimum, maximum) => BuiltAddsNoUnion(h, NumberDef, false, LInteger(minimum, maximum));
    case TbBoolean => BuiltAddsNoUnion(h, BooleanDef, false, LBoolean);
    case TbLoose(description) =>
      var text := TextArgument(description).value;
      BuiltAddsNoUnion(h, RecordDef, text.Some?, LLoose(text));
  }

  lemma ObjectAddsNoUnion(h: Heap, shape: seq<Slot>, limit: Option<real>, text: Option<Text>)
    requires IsOptionalLength(limit)
    ensures AddsNoUnion(h, MakeObject(h, shape, limit, text).value.0)
  {
    var (h1, never) := Created(h, Zod(NeverDef, []));
    CreatedAddsNoUnion(h, NeverDef);
    BuiltAddsNoUnion(h1, ObjectDef(shape, Some(never)), text.Some?, LObject(limit, text));
    AddsTransitive(h, h1, MakeObject(h, shape, limit, text).value.0);
  }

  lemma {:induction false} EvalAddsNoUnion(compiles: Text -> bool, h: Heap, consts: Bindings, e: Expr)
    requires UnionFree(e) && Eval(compiles, h, consts, e).Ok?
    ensures AddsNoUnion(h, Eval(compiles, h, consts, e).value.0)
    decreases e, 1
  {
    match e
    case NamedSchema(_) =>
    case Nullable(inner) =>
      var (h1, child) := Eval(compiles, h, consts, inner).value;
      EvalAddsNoUnion(compiles, h, consts, inner);
      CreatedAddsNoUnion(h1, NullableDef(child));
      AddsTransitive(h, h1, Eval(compiles, h, consts, e).value.0);
    case TbArray(item, minItems, maxItems) =>
      var (h1, child) := Eval(compiles, h, consts, item).value;
      EvalAddsNoUnion(compiles, h, consts, item);
      BuiltAddsNoUnion(h1, ArrayDef(child), false, LArray(minItems, maxItems));
      AddsTransitive(h, h1, Eval(compiles, h, consts, e).value.0);
    case TbObject(fields, minProperties, description) =>
      var (h1, shape) := EvalFields(compiles, h, consts, fields).value;
      FieldsAddNoUnion(compiles, h, consts, fields);
      ObjectAddsNoUnion(h1, shape, NumberArgument(minProperties).value, TextArgument(description).value);
      AddsTransitive(h, h1, Eval(compiles, h, consts, e).value.0);
    case _ => ScalarAddsNoUnion(compiles, h, e);
  }

  lemma {:induction false} FieldsAddNoUnion(compiles: Text -> bool, h: Heap, consts: Bindings, fields: seq<Port.Field>)
    requires (forall i :: 0 <= i < |fields| ==> UnionFree(fields[i].expr)) &&
      EvalFields(compiles, h, consts, fields).Ok?
    ensures AddsNoUnion(h, EvalFields(compiles, h, consts, fields).value.0)
    decreases fields, 0
  {
    if fields != [] {
      var init, last := fields[..|fields| - 1], fields[|fields| - 1];
      var (h1, before) := EvalFields(compiles, h, consts, init).value;
      FieldsAddNoUnion(compiles, h, consts, init);
      var (h2, ref) := Eval(compiles, h1, consts, last.expr).value;
      EvalAddsNoUnion(compiles, h1, consts, last.expr);
      AddsTransitive(h, h1, h2);
      if last.optional {
        CreatedAddsNoUnion(h2, OptionalDef(ref));
        AddsTransitive(h, h2, EvalFields(compiles, h, consts, fields).value.0);
      }
    }
  }

  lemma {:induction false} AllAddNoUnion(compiles: Text -> bool, names: set<Text>, h: Heap, consts: Bindings,
                                         nodes: seq<Schema>, es: seq<Expr>)
    requires TranslateAll(names, nodes) == Ok(es) && EvalAll(compiles, h, consts, es).Ok?
    ensures AddsNoUnion(h, EvalAll(compiles, h, consts, es).value.0)
    decreases |nodes|
  {
    if nodes != [] {
      var first, e := es[..|es| - 1], es[|es| - 1];
      AllSplit(names, nodes, es);
      AllAddNoUnion(compiles, names, h, consts, nodes[..|nodes| - 1], first);
      TranslateUnionFree(names, nodes[|nodes| - 1], e);
      var h1 := EvalAll(compiles, h, consts, first).value.0;
      EvalAddsNoUnion(compiles, h1, consts, e);
      AddsTransitive(h, h1, EvalAll(compiles, h, consts, es).value.0);
    }
  }

  lemma TabledWithoutUnion(h: Heap, h': Heap)
    requires Ordered(h) && Ordered(h') && AllTabled(h) && AddsNoUnion(h, h')
    ensures AllTabled(h')
  {
    forall r | 0 <= r < |h'.nodes|
      ensures Dispatchable(h', r, true)
    {
      if r < |h.nodes| {
        DispatchableSurvives(h, h', r);
      }
    }
  }

  // ----- The modules -----------------------------------------------------------------------------

  /** The branches of a top-level union are objects in which no key occurs twice. */
  ghost predicate ProperUnion(node: Schema) {
    node.Node? && node.kw.oneOf.Some? && node.kw.oneOf.value.Schemas? ==> BranchesDistinct(node.kw.oneOf.value.list)
  }

  lemma UnionTabled(compiles: Text -> bool, names: set<Text>, h: Heap, consts: Bindings, kw: Keywords, e: Expr)
    requires Sound(h) && Bound(h, names, consts) && IsUnion(names, kw, e) && Eval(compiles, h, consts, e).Ok?
    requires AllTabled(h) && BranchesDistinct(kw.oneOf.value.list)
    ensures Sound(Eval(compiles, h, consts, e).value.0) && AllTabled(Eval(compiles, h, consts, e).value.0)
  {
    var branches, key := kw.oneOf.value.list, e.discriminator;
    UnionOutcome(compiles, names, h, consts, kw, e);
    UnionEvaluates(compiles, h, consts, e);
    AllAddNoUnion(compiles, names, h, consts, branches, e.branches);
    AllBranches(compiles, names, h, consts, branches, e.branches, key);
    var (h1, options) := EvalAll(compiles, h, consts, e.branches).value;
    TabledWithoutUnion(h, h1);
    BranchesDispatch(h1, options, branches, key);
    UnionOnTop(h1, options, key, TextArgument(e.description).value);
  }

  lemma UnionOnTop(h: Heap, options: seq<Ref>, key: Text, text: Option<Text>)
    requires Sound(h) && AllTabled(h) && OldRefs(options, |h.nodes|)
    requires Tabled(h, options, key) && AllKeyed(h, options, key)
    ensures Sound(MakeOneOf(h, key, options, text).0) && AllTabled(MakeOneOf(h, key, options, text).0)
  {
    var def, h' := UnionDef(options, Some(key), false, false), MakeOneOf(h, key, options, text).0;
    OneOfFacts(h, key, options, text);
    BuiltNodes(h, def, text.Some?, LOneOf(key, text));
    forall r | 0 <= r < |h'.nodes|
      ensures Dispatchable(h', r, true)
    {
      if r < |h.nodes| {
        DispatchableSurvives(h, h', r);
      } else {
        TabledSurvives(h, h', options, key);
      }
    }
  }

  lemma TopLevelTabled(compiles: Text -> bool, names: set<Text>, h: Heap, consts: Bindings, node: Schema, e: Expr)
    requires Sound(h) && Bound(h, names, consts) && TranslateTopLevel(names, node) == Ok(e)
    requires Eval(compiles, h, consts, e).Ok? && AllTabled(h) && ProperUnion(node)
    ensures Sound(Eval(compiles, h, consts, e).value.0) && AllTabled(Eval(compiles, h, consts, e).value.0)
  {
    if node.Node? && node.kw.oneOf.Some? {
      OneOfGuard(names, node, e);
      UnionTabled(compiles, names, h, consts, node.kw, e);
    } else {
      EvalOutcome(compiles, names, h, consts, node, e);
      TranslateUnionFree(names, node, e);
      EvalAddsNoUnion(compiles, h, consts, e);
      TabledWithoutUnion(h, Eval(compiles, h, consts, e).value.0);
    }
  }

  lemma {:induction false} ModulesTabled(compiles: Text -> bool, defs: Definitions, order: seq<Text>)
    requires Emitted(defs, order) && EvalModules(compiles, defs, order).Ok?
    requires forall n :: n in order ==> ProperUnion(defs[n])
    ensures var h := EvalModules(compiles, defs, order).value.0; Sound(h) && AllTabled(h)
    decreases |order|
  {
    ModulesOutcome(compiles, defs, order);
    if order != [] {
      var init, name := order[..|order| - 1], order[|order| - 1];
      EmittedInit(defs, order);
      ModulesOutcome(compiles, defs, init);
      ModulesTabled(compiles, defs, init);
      var (h, consts) := EvalModules(compiles, defs, init).value;
      var e := TranslateTopLevel(defs.Keys, defs[name]).value;
      ModuleStep(compiles, defs, order, h, consts, e);
      TopLevelTabled(compiles, consts.Keys, h, consts, defs[name], e);
    }
  }

  function RefsBelow(n: nat): (refs: set<Ref>)
    ensures forall r: Ref :: r in refs <==> r < n
  {
    if n == 0 then {} else RefsBelow(n - 1) + {n - 1}
  }

  lemma WholeHeapInScope(h: Heap)
    requires Ordered(h) && AllTabled(h)
    ensures InScope(h, RefsBelow(|h.nodes|), true)
  {
  }

  /** The catalog of the evaluated modules has an index, and lowers to the frozen definitions. */
  lemma CatalogOfModules(compiles: Text -> bool, defs: Definitions, order: seq<Text>) returns (names: Names)
    requires Emitted(defs, order) && Planning.Elements(order) == defs.Keys
    requires EvalModules(compiles, defs, order).Ok? && NoneIsReference(defs, order) && AllEnumsOrdered(defs, order)
    ensures var (h, consts) := EvalModules(compiles, defs, order).value;
      && Running(h, consts, order) && (forall n :: n in order ==> n in consts)
      && var catalog := CatalogOf(order, consts);
         Present(h, catalog) && Indexes(catalog, names) && CatalogLowers(h, names, Defs, catalog, defs)
  {
    BundleReproduced(compiles, defs, order, order, map[]);
    names := IndexExists(CatalogOf(order, EvalModules(compiles, defs, order).value.1));
    BundleReproduced(compiles, defs, order, order, names);
  }

  /** Main result of the port, from end to end: the schema evaluated for a name accepts exactly the values
      that are valid against the frozen definition of that name. */
  lemma PortKeepsMeaning(compiles: Text -> bool, defs: Definitions, order: seq<Text>, w: World, i: nat, hops: nat,
                         v: Json)
    requires Emitted(defs, order) && Planning.Elements(order) == defs.Keys
    requires EvalModules(compiles, defs, order).Ok? && NoneIsReference(defs, order) && AllEnumsOrdered(defs, order)
    requires (forall n :: n in order ==> ProperUnion(defs[n])) && i < |order|
    ensures var (h, consts) := EvalModules(compiles, defs, order).value;
      && Sound(h) && order[i] in consts && consts[order[i]] < |h.nodes|
      && (hops >= |h.nodes| ==>
            (Accepts(w, h, consts[order[i]], Some(v)) <==> Valid(w.oracle, defs, hops, defs[order[i]], v)))
  {
    var (h, consts) := EvalModules(compiles, defs, order).value;
    ModulesTabled(compiles, defs, order);
    WholeHeapInScope(h);
    var names := CatalogOfModules(compiles, defs, order);
    var catalog := CatalogOf(order, consts);
    assert catalog[i] == Entry(order[i], consts[order[i]]);
    if hops >= |h.nodes| {
      BundleMeaning(w, h, names, Defs, catalog, defs, RefsBelow(|h.nodes|), true, i, hops, v);
    }
  }
}
