/**
 * Lowering preserves meaning: a value that the runtime checks of a builder schema accept is valid against
 * the lowered JSON Schema, with references resolved in the lowered catalog; and the converse holds where
 * every discriminated union in reach has a dispatch table.
 */
module Meaning {
  import opened Wrappers
  import opened Utf16
  import opened JsonSchema
  import opened Wire
  import opened Lowering

  /** `defs` holds the lowering of every named schema under its name. */
  ghost predicate Resolves(h: Heap, names: Names, prefix: Prefix, defs: map<Text, Schema>)
    requires Ordered(h)
  {
    forall c {:trigger Resolved(h, names, prefix, defs, c)} :: c in names ==> Resolved(h, names, prefix, defs, c)
  }

  ghost predicate Resolved(h: Heap, names: Names, prefix: Prefix, defs: map<Text, Schema>, c: Ref)
    requires Ordered(h) && c in names
  {
    c < |h.nodes| && names[c] in defs && Lower(h, names, prefix, c, true) == Ok(defs[names[c]])
  }

  /** The setting of the theorem. */
  ghost predicate Lowered(h: Heap, names: Names, prefix: Prefix, defs: map<Text, Schema>) {
    Sound(h) && Resolves(h, names, prefix, defs)
  }

  /** The two verdicts on a value. `exact` is whether validity implies acceptance as well. */
  ghost predicate Agree(exact: bool, accepted: bool, valid: bool) {
    (accepted ==> valid) && (exact && valid ==> accepted)
  }

  /** The set holds everything its schemas are made of. */
  ghost predicate Closed(h: Heap, scope: set<Ref>) {
    forall p :: p in scope ==> p < |h.nodes| && forall c :: Child(h, p, c) ==> c in scope
  }

  /** A union whose dispatch table exists finds every object of its options in it; with `exact`, the table
      does exist. Options that are object schemas satisfy the first half. */
  ghost predicate Dispatchable(h: Heap, ref: Ref, exact: bool)
    requires Ordered(h) && ref < |h.nodes|
  {
    var def := h.nodes[ref].def;
    def.UnionDef? && def.discriminator.Some? ==>
      && (Tabled(h, def.options, def.discriminator.value) ==> AllKeyed(h, def.options, def.discriminator.value))
      && (exact ==> Tabled(h, def.options, def.discriminator.value))
  }

  ghost predicate AllKeyed(h: Heap, options: seq<Ref>, key: Text)
    requires Ordered(h) && OldRefs(options, |h.nodes|)
  {
    forall i :: 0 <= i < |options| ==> Keyed(h, options[i], key)
  }

  ghost predicate InScope(h: Heap, scope: set<Ref>, exact: bool)
    requires Ordered(h)
  {
    Closed(h, scope) && forall r {:trigger Dispatchable(h, r, exact)} :: r in scope ==> Dispatchable(h, r, exact)
  }

  // ----- What lowering says about the object it lowered ------------------------------------------

  lemma {:induction false} RejectsUndefined(w: World, h: Heap, names: Names, prefix: Prefix,
                                            defs: map<Text, Schema>, ref: Ref, root: bool)
    requires Lowered(h, names, prefix, defs) && ref < |h.nodes| && Lower(h, names, prefix, ref, root).Ok?
    ensures !Accepts(w, h, ref, None)
    decreases ref
  {
    if !root && ref in names {
      assert Resolved(h, names, prefix, defs, ref);
    }
    assert LowerDef(h, names, prefix, ref).Ok?;
    match h.nodes[ref].def
    case NullableDef(inner) => RejectsUndefined(w, h, names, prefix, defs, inner, false);
    case _ =>
  }

  lemma {:induction false} SlotsLowered(h: Heap, names: Names, prefix: Prefix, shape: seq<Slot>, owner: Ref)
    requires Ordered(h) && owner < |h.nodes| && OldSlots(shape, owner)
    requires LowerSlots(h, names, prefix, shape, owner).Ok?
    ensures var properties := LowerSlots(h, names, prefix, shape, owner).value.properties;
      |properties| == |shape| && forall i :: 0 <= i < |shape| ==>
        && properties[i].name == shape[i].key
        && Lower(h, names, prefix, Unwrapped(h, shape[i].schema), false) == Ok(properties[i].schema)
        && (h.nodes[shape[i].schema].def.OptionalDef? ==> h.nodes[shape[i].schema].checks == [])
    decreases |shape|
  {
    if shape != [] {
      var init := shape[..|shape| - 1];
      SlotsLowered(h, names, prefix, init, owner);
      assert forall i :: 0 <= i < |init| ==> init[i] == shape[i];
    }
  }

  /** The key of a slot that is not optional. */
  ghost predicate RequiredKey(h: Heap, shape: seq<Slot>, k: Text)
    requires OldSlots(shape, |h.nodes|)
  {
    exists i :: 0 <= i < |shape| && shape[i].key == k && !h.nodes[shape[i].schema].def.OptionalDef?
  }

  lemma RequiredSnoc(h: Heap, shape: seq<Slot>, slot: Slot, k: Text)
    requires OldSlots(shape + [slot], |h.nodes|) && OldSlots(shape, |h.nodes|) && slot.schema < |h.nodes|
    ensures RequiredKey(h, shape + [slot], k) <==>
      RequiredKey(h, shape, k) || (slot.key == k && !h.nodes[slot.schema].def.OptionalDef?)
  {
    var longer := shape + [slot];
    if RequiredKey(h, shape, k) {
      var i :| 0 <= i < |shape| && shape[i].key == k && !h.nodes[shape[i].schema].def.OptionalDef?;
      assert longer[i] == shape[i];
    }
    assert longer[|shape|] == slot;
  }

  lemma {:induction false} RequiredLowered(h: Heap, names: Names, prefix: Prefix, shape: seq<Slot>, owner: Ref, k: Text)
    requires Ordered(h) && owner < |h.nodes| && OldSlots(shape, owner)
    requires LowerSlots(h, names, prefix, shape, owner).Ok?
    ensures k in LowerSlots(h, names, prefix, shape, owner).value.required <==> RequiredKey(h, shape, k)
    decreases |shape|
  {
    if shape != [] {
      var init, last := shape[..|shape| - 1], shape[|shape| - 1];
      RequiredLowered(h, names, prefix, init, owner, k);
      RequiredSnoc(h, init, last, k);
      assert init + [last] == shape;
    }
  }

  lemma {:induction false} AllLowered(h: Heap, names: Names, prefix: Prefix, refs: seq<Ref>, owner: Ref)
    requires Ordered(h) && owner < |h.nodes| && OldRefs(refs, owner)
    requires LowerAll(h, names, prefix, refs, owner).Ok?
    ensures forall i :: 0 <= i < |refs| ==>
      Lower(h, names, prefix, refs[i], false) == Ok(LowerAll(h, names, prefix, refs, owner).value[i])
    decreases |refs|
  {
    if refs != [] {
      AllLowered(h, names, prefix, refs[..|refs| - 1], owner);
    }
  }

  // ----- One lemma per construct -----------------------------------------------------------------

  lemma BooleanMeaning(w: World, h: Heap, names: Names, prefix: Prefix, defs: map<Text, Schema>,
                       hops: nat, ref: Ref, v: Json)
    requires Lowered(h, names, prefix, defs) && ref < |h.nodes| && LowerDef(h, names, prefix, ref).Ok?
    requires h.nodes[ref].def.BooleanDef?
    ensures Accepts(w, h, ref, Some(v)) <==>
            Valid(w.oracle, defs, hops, LowerDef(h, names, prefix, ref).value, v)
  {
    assert RegisteredWell(h, ref);
  }

  lemma EnumMeaning(w: World, h: Heap, names: Names, prefix: Prefix, defs: map<Text, Schema>,
                    hops: nat, ref: Ref, v: Json)
    requires Lowered(h, names, prefix, defs) && ref < |h.nodes| && LowerDef(h, names, prefix, ref).Ok?
    requires h.nodes[ref].def.EnumDef?
    ensures Accepts(w, h, ref, Some(v)) <==>
            Valid(w.oracle, defs, hops, LowerDef(h, names, prefix, ref).value, v)
  {
    assert RegisteredWell(h, ref);
    var values := h.registrations[ref].lowering.values;
    TextsElements(values);
    assert LowerDef(h, names, prefix, ref).value == EnumSchema(values);
    assert LocallyValid(w.oracle, EnumSchema(values).kw, v) <==> v.Str? && v in Texts(values);
  }

  lemma ConstMeaning(w: World, h: Heap, names: Names, prefix: Prefix, defs: map<Text, Schema>,
                     hops: nat, ref: Ref, v: Json)
    requires Lowered(h, names, prefix, defs) && ref < |h.nodes| && LowerDef(h, names, prefix, ref).Ok?
    requires h.nodes[ref].def.LiteralDef?
    ensures Accepts(w, h, ref, Some(v)) <==>
            Valid(w.oracle, defs, hops, LowerDef(h, names, prefix, ref).value, v)
  {
    assert RegisteredWell(h, ref);
  }

  lemma LooseMeaning(w: World, h: Heap, names: Names, prefix: Prefix, defs: map<Text, Schema>,
                     hops: nat, ref: Ref, v: Json)
    requires Lowered(h, names, prefix, defs) && ref < |h.nodes| && LowerDef(h, names, prefix, ref).Ok?
    requires h.nodes[ref].def.RecordDef?
    ensures Accepts(w, h, ref, Some(v)) <==>
            Valid(w.oracle, defs, hops, LowerDef(h, names, prefix, ref).value, v)
  {
    assert RegisteredWell(h, ref);
  }

  lemma TextsElements(ts: seq<Text>)
    ensures forall t :: Str(t) in Texts(ts) <==> t in ts
    ensures forall j :: j in Texts(ts) ==> j.Str?
  {
    forall t | t in ts
      ensures Str(t) in Texts(ts)
    {
      var i :| 0 <= i < |ts| && ts[i] == t;
      assert Texts(ts)[i] == Str(t);
    }
  }

  lemma StringMeaning(w: World, h: Heap, names: Names, prefix: Prefix, defs: map<Text, Schema>,
                      hops: nat, ref: Ref, v: Json)
    requires Lowered(h, names, prefix, defs) && ref < |h.nodes| && LowerDef(h, names, prefix, ref).Ok?
    requires h.nodes[ref].def.StringDef?
    ensures Accepts(w, h, ref, Some(v)) <==>
            Valid(w.oracle, defs, hops, LowerDef(h, names, prefix, ref).value, v)
  {
    assert RegisteredWell(h, ref);
    var o := h.registrations[ref].lowering.options;
    StringTestsPass(w, h, h.nodes[ref].checks, o, v);
    assert LowerDef(h, names, prefix, ref).value == StringSchema(o);
  }

  ghost predicate AllPass(w: World, h: Heap, checks: seq<nat>, v: Option<Json>)
    requires forall i :: 0 <= i < |checks| ==> checks[i] < |h.tests|
  {
    forall i :: 0 <= i < |checks| ==> Passes(w, h.tests[checks[i]], v)
  }

  ghost predicate TestsPass(w: World, tests: seq<Test>, v: Option<Json>) {
    forall t :: t in tests ==> Passes(w, t, v)
  }

  lemma ChecksAreTests(w: World, h: Heap, checks: seq<nat>, tests: seq<Test>, v: Option<Json>)
    requires Carries(h, checks, tests)
    ensures AllPass(w, h, checks, v) <==> TestsPass(w, tests, v)
  {
    if AllPass(w, h, checks, v) {
      forall t | t in tests
        ensures Passes(w, t, v)
      {
        var i :| 0 <= i < |tests| && tests[i] == t;
        assert h.tests[checks[i]] == t;
      }
    }
  }

  lemma LengthTestsPass(w: World, o: StringOptions, v: Option<Json>)
    ensures TestsPass(w, LengthTests(o), v) <==>
      && (o.maxLength.Some? ==> Passes(w, MaxCodePoints(o.maxLength.value), v))
      && (o.minLength.Some? ==> Passes(w, MinCodePoints(o.minLength.value), v))
  {
    assert o.maxLength.Some? ==> MaxCodePoints(o.maxLength.value) in LengthTests(o);
    assert o.minLength.Some? ==> MinCodePoints(o.minLength.value) in LengthTests(o);
  }

  lemma ContentTestsPass(w: World, o: StringOptions, v: Option<Json>)
    ensures TestsPass(w, ContentTests(o), v) <==>
      && (o.format.Some? ==> Passes(w, HasFormat(o.format.value), v))
      && (o.pattern.Some? ==> Passes(w, HasPattern(o.pattern.value), v))
  {
    assert o.format.Some? ==> HasFormat(o.format.value) in ContentTests(o);
    assert o.pattern.Some? ==> HasPattern(o.pattern.value) in ContentTests(o);
  }

  /** The checks of a string hold exactly when each given option does. */
  lemma StringTestsPass(w: World, h: Heap, checks: seq<nat>, o: StringOptions, v: Json)
    requires Carries(h, checks, StringTests(o))
    ensures AllPass(w, h, checks, Some(v)) <==>
      && (o.maxLength.Some? ==> Passes(w, MaxCodePoints(o.maxLength.value), Some(v)))
      && (o.minLength.Some? ==> Passes(w, MinCodePoints(o.minLength.value), Some(v)))
      && (o.format.Some? ==> Passes(w, HasFormat(o.format.value), Some(v)))
      && (o.pattern.Some? ==> Passes(w, HasPattern(o.pattern.value), Some(v)))
  {
    ChecksAreTests(w, h, checks, StringTests(o), Some(v));
    LengthTestsPass(w, o, Some(v));
    ContentTestsPass(w, o, Some(v));
    assert TestsPass(w, StringTests(o), Some(v)) <==>
      TestsPass(w, LengthTests(o), Some(v)) && TestsPass(w, ContentTests(o), Some(v));
  }

  lemma IntegerMeaning(w: World, h: Heap, names: Names, prefix: Prefix, defs: map<Text, Schema>,
                       hops: nat, ref: Ref, v: Json)
    requires Lowered(h, names, prefix, defs) && ref < |h.nodes| && LowerDef(h, names, prefix, ref).Ok?
    requires h.nodes[ref].def.NumberDef?
    ensures Accepts(w, h, ref, Some(v)) <==>
            Valid(w.oracle, defs, hops, LowerDef(h, names, prefix, ref).value, v)
  {
    assert RegisteredWell(h, ref);
    var LInteger(minimum, maximum) := h.registrations[ref].lowering;
    var checks, tests := h.nodes[ref].checks, IntegerTests(minimum, maximum);
    assert Carries(h, checks, tests);
    assert h.tests[checks[0]] == IsInteger && h.tests[checks[1]] == AtLeast(minimum) &&
      h.tests[checks[2]] == AtMost(maximum);
  }

  lemma ScalarMeaning(w: World, h: Heap, names: Names, prefix: Prefix, defs: map<Text, Schema>,
                      hops: nat, ref: Ref, v: Json)
    requires Lowered(h, names, prefix, defs) && ref < |h.nodes| && LowerScalar(h, ref).Ok?
    requires LowerDef(h, names, prefix, ref) == LowerScalar(h, ref)
    ensures Accepts(w, h, ref, Some(v)) <==> Valid(w.oracle, defs, hops, LowerScalar(h, ref).value, v)
  {
    match h.nodes[ref].def
    case StringDef => StringMeaning(w, h, names, prefix, defs, hops, ref, v);
    case NumberDef => IntegerMeaning(w, h, names, prefix, defs, hops, ref, v);
    case BooleanDef => BooleanMeaning(w, h, names, prefix, defs, hops, ref, v);
    case EnumDef(_) => EnumMeaning(w, h, names, prefix, defs, hops, ref, v);
    case LiteralDef(_) => ConstMeaning(w, h, names, prefix, defs, hops, ref, v);
    case RecordDef => LooseMeaning(w, h, names, prefix, defs, hops, ref, v);
    case _ =>
  }

  ghost predicate AcceptsItems(w: World, h: Heap, element: Ref, items: seq<Json>)
    requires Ordered(h) && element < |h.nodes|
  {
    forall i :: 0 <= i < |items| ==> Accepts(w, h, element, Some(items[i]))
  }

  ghost predicate ValidItems(oracle: Oracle, defs: map<Text, Schema>, hops: nat, item: Schema, items: seq<Json>) {
    forall i :: 0 <= i < |items| ==> Valid(oracle, defs, hops, item, items[i])
  }

  lemma AcceptsArray(w: World, h: Heap, ref: Ref, element: Ref, minItems: real, maxItems: real, v: Json)
    requires Sound(h) && ref < |h.nodes| && Require(h, ref, KArray) == Ok(LArray(minItems, maxItems))
    requires h.nodes[ref].def == ArrayDef(element) && element < ref
    ensures Accepts(w, h, ref, Some(v)) <==>
            v.Arr? && minItems <= |v.items| as real <= maxItems && AcceptsItems(w, h, element, v.items)
  {
    assert RegisteredWell(h, ref);
    var checks := h.nodes[ref].checks;
    assert Carries(h, checks, ArrayTests(minItems, maxItems));
    assert h.tests[checks[0]] == MinItems(minItems) && h.tests[checks[1]] == MaxItems(maxItems);
    assert AllPass(w, h, checks, Some(v)) <==>
      Passes(w, MinItems(minItems), Some(v)) && Passes(w, MaxItems(maxItems), Some(v));
    assert Accepts(w, h, ref, Some(v)) <==> AcceptsDef(w, h, ref, Some(v)) && AllPass(w, h, checks, Some(v));
  }

  lemma ArrayMeaning(w: World, h: Heap, names: Names, prefix: Prefix, defs: map<Text, Schema>,
                     exact: bool, hops: nat, ref: Ref, v: Json)
    requires Lowered(h, names, prefix, defs) && ref < |h.nodes| && LowerDef(h, names, prefix, ref).Ok?
    requires h.nodes[ref].def.ArrayDef?
    requires forall x :: Agree(exact, Accepts(w, h, h.nodes[ref].def.element, Some(x)),
      Valid(w.oracle, defs, hops, Lower(h, names, prefix, h.nodes[ref].def.element, false).value, x))
    ensures Agree(exact, Accepts(w, h, ref, Some(v)),
                  Valid(w.oracle, defs, hops, LowerDef(h, names, prefix, ref).value, v))
  {
    var LArray(minItems, maxItems) := h.registrations[ref].lowering;
    var element := h.nodes[ref].def.element;
    var item := Lower(h, names, prefix, element, false).value;
    AcceptsArray(w, h, ref, element, minItems, maxItems, v);
    if v.Arr? {
      ItemsAgree(w, h, defs, exact, hops, element, item, v.items);
    }
    ValidArray(w.oracle, defs, hops, item, minItems, maxItems, v);
    assert LowerDef(h, names, prefix, ref).value == ArraySchema(item, minItems, maxItems);
  }

  lemma ItemsAgree(w: World, h: Heap, defs: map<Text, Schema>, exact: bool, hops: nat, element: Ref, item: Schema,
                   items: seq<Json>)
    requires Ordered(h) && element < |h.nodes|
    requires forall x :: Agree(exact, Accepts(w, h, element, Some(x)), Valid(w.oracle, defs, hops, item, x))
    ensures Agree(exact, AcceptsItems(w, h, element, items), ValidItems(w.oracle, defs, hops, item, items))
  {
    forall i | 0 <= i < |items|
      ensures Agree(exact, Accepts(w, h, element, Some(items[i])), Valid(w.oracle, defs, hops, item, items[i]))
    {
    }
  }

  lemma ValidArray(oracle: Oracle, defs: map<Text, Schema>, hops: nat, item: Schema, minItems: real, maxItems: real,
                   v: Json)
    ensures Valid(oracle, defs, hops, ArraySchema(item, minItems, maxItems), v) <==>
      v.Arr? && minItems <= |v.items| as real <= maxItems && ValidItems(oracle, defs, hops, item, v.items)
  {
  }

  lemma ValidNullable(oracle: Oracle, defs: map<Text, Schema>, hops: nat, inner: Schema, v: Json)
    ensures Valid(oracle, defs, hops, NullableSchema(inner), v) <==> v.Null? || Valid(oracle, defs, hops, inner, v)
  {
    var branches := [inner, NULL_SCHEMA];
    assert NullableSchema(inner).kw.anyOf == Some(Schemas(branches));
    assert branches[0] == inner && branches[1] == NULL_SCHEMA;
    assert Valid(oracle, defs, hops, NULL_SCHEMA, v) <==> v.Null?;
  }

  lemma NullableMeaning(w: World, h: Heap, names: Names, prefix: Prefix, defs: map<Text, Schema>,
                        exact: bool, hops: nat, ref: Ref, v: Json)
    requires Lowered(h, names, prefix, defs) && ref < |h.nodes| && LowerDef(h, names, prefix, ref).Ok?
    requires h.nodes[ref].def.NullableDef?
    requires Agree(exact, Accepts(w, h, h.nodes[ref].def.inner, Some(v)),
      Valid(w.oracle, defs, hops, Lower(h, names, prefix, h.nodes[ref].def.inner, false).value, v))
    ensures Agree(exact, Accepts(w, h, ref, Some(v)),
                  Valid(w.oracle, defs, hops, LowerDef(h, names, prefix, ref).value, v))
  {
    var inner := Lower(h, names, prefix, h.nodes[ref].def.inner, false).value;
    ValidNullable(w.oracle, defs, hops, inner, v);
    assert LowerDef(h, names, prefix, ref).value == NullableSchema(inner);
    assert Accepts(w, h, ref, Some(v)) <==> v.Null? || Accepts(w, h, h.nodes[ref].def.inner, Some(v));
  }

  // ----- Objects ---------------------------------------------------------------------------------

  /** A slot agrees with the property it was lowered to; only an optional one accepts absence. */
  ghost predicate SlotAgrees(w: World, h: Heap, defs: map<Text, Schema>, exact: bool, hops: nat,
                             slot: Slot, property: Property, m: map<Text, Json>)
    requires Ordered(h) && slot.schema < |h.nodes|
  {
    && property.name == slot.key
    && var accepted := Accepts(w, h, slot.schema, Lookup(m, slot.key));
       if slot.key in m then Agree(exact, accepted, Valid(w.oracle, defs, hops, property.schema, m[slot.key]))
       else accepted == h.nodes[slot.schema].def.OptionalDef?
  }

  ghost predicate SlotsAgree(w: World, h: Heap, defs: map<Text, Schema>, exact: bool, hops: nat,
                             shape: seq<Slot>, fields: Fields, m: map<Text, Json>)
    requires Ordered(h) && OldSlots(shape, |h.nodes|)
  {
    |fields.properties| == |shape| && forall i :: 0 <= i < |shape| ==>
      SlotAgrees(w, h, defs, exact, hops, shape[i], fields.properties[i], m)
  }

  lemma ValidObject(oracle: Oracle, defs: map<Text, Schema>, hops: nat, fields: Fields,
                    minProperties: Option<real>, description: Option<Text>, v: Json)
    ensures Valid(oracle, defs, hops, ObjectSchema(fields, minProperties, description), v) <==>
      && v.Obj?
      && (minProperties.Some? ==> |v.members| as real >= minProperties.value)
      && (forall k :: k in v.members ==> k in PropertyNames(fields.properties))
      && ValidParts(oracle, defs, hops, fields, v.members)
  {
    TextsElements(fields.required);
    var schema := ObjectSchema(fields, minProperties, description);
    assert LocallyValid(oracle, schema.kw, v) <==>
      && v.Obj?
      && (minProperties.Some? ==> |v.members| as real >= minProperties.value)
      && (forall k :: k in fields.required ==> k in v.members)
      && (forall k :: k in v.members ==> k in PropertyNames(fields.properties));
  }

  lemma AcceptsObject(w: World, h: Heap, ref: Ref, shape: seq<Slot>, minProperties: Option<real>, v: Json)
    requires Sound(h) && ref < |h.nodes| && Require(h, ref, KObject).Ok?
    requires h.nodes[ref].def.ObjectDef? && shape == h.nodes[ref].def.shape
    requires minProperties == h.registrations[ref].lowering.minProperties
    requires h.nodes[ref].def.catchall.Some? && h.nodes[h.nodes[ref].def.catchall.value].def.NeverDef?
    ensures Accepts(w, h, ref, Some(v)) <==>
      && v.Obj?
      && (minProperties.Some? ==> |v.members| as real >= minProperties.value)
      && (forall k :: k in v.members ==> k in SlotKeys(shape))
      && AcceptsSlots(w, h, shape, v.members)
  {
    assert RegisteredWell(h, ref);
    var checks, never := h.nodes[ref].checks, h.nodes[ref].def.catchall.value;
    assert Carries(h, checks, ObjectTests(minProperties));
    assert minProperties.Some? ==> h.tests[checks[0]] == MinKeys(minProperties.value);
    if AcceptsDef(w, h, ref, Some(v)) {
      forall k | k in v.members
        ensures k in SlotKeys(shape)
      {
        assert !Accepts(w, h, never, Some(v.members[k]));
      }
    }
    assert AllPass(w, h, checks, Some(v)) <==>
      (minProperties.Some? ==> Passes(w, MinKeys(minProperties.value), Some(v)));
  }

  lemma ObjectMeaning(w: World, h: Heap, names: Names, prefix: Prefix, defs: map<Text, Schema>,
                      exact: bool, hops: nat, ref: Ref, v: Json)
    requires Lowered(h, names, prefix, defs) && ref < |h.nodes| && LowerDef(h, names, prefix, ref).Ok?
    requires h.nodes[ref].def.ObjectDef?
    requires v.Obj? ==> SlotsAgree(w, h, defs, exact, hops, h.nodes[ref].def.shape,
                                   LowerSlots(h, names, prefix, h.nodes[ref].def.shape, ref).value, v.members)
    ensures Agree(exact, Accepts(w, h, ref, Some(v)),
                  Valid(w.oracle, defs, hops, LowerDef(h, names, prefix, ref).value, v))
  {
    var shape := h.nodes[ref].def.shape;
    var LObject(minProperties, description) := h.registrations[ref].lowering;
    var fields := LowerSlots(h, names, prefix, shape, ref).value;
    ValidObject(w.oracle, defs, hops, fields, minProperties, description, v);
    AcceptsObject(w, h, ref, shape, minProperties, v);
    if v.Obj? {
      SlotsLowered(h, names, prefix, shape, ref);
      SlotNames(shape, fields);
      forall k
        ensures k in fields.required <==> RequiredKey(h, shape, k)
      {
        RequiredLowered(h, names, prefix, shape, ref, k);
      }
      ObjectParts(w, h, defs, exact, hops, shape, fields, v.members);
    }
    assert LowerDef(h, names, prefix, ref).value == ObjectSchema(fields, minProperties, description);
    assert Agree(exact, Accepts(w, h, ref, Some(v)),
                 Valid(w.oracle, defs, hops, ObjectSchema(fields, minProperties, description), v));
  }

  lemma SlotNames(shape: seq<Slot>, fields: Fields)
    requires |fields.properties| == |shape|
    requires forall i :: 0 <= i < |shape| ==> fields.properties[i].name == shape[i].key
    ensures PropertyNames(fields.properties) == SlotKeys(shape)
  {
    forall k
      ensures k in PropertyNames(fields.properties) <==> k in SlotKeys(shape)
    {
      if k in SlotKeys(shape) {
        var i :| 0 <= i < |shape| && shape[i].key == k;
        assert fields.properties[i].name == k && fields.properties[i] in fields.properties;
      }
      if k in PropertyNames(fields.properties) {
        var i :| 0 <= i < |shape| && fields.properties[i].name == k;
        assert shape[i].key == k && shape[i] in shape;
      }
    }
  }

  ghost predicate AcceptsSlots(w: World, h: Heap, shape: seq<Slot>, m: map<Text, Json>)
    requires Ordered(h) && OldSlots(shape, |h.nodes|)
  {
    forall i :: 0 <= i < |shape| ==> Accepts(w, h, shape[i].schema, Lookup(m, shape[i].key))
  }

  ghost predicate ValidParts(oracle: Oracle, defs: map<Text, Schema>, hops: nat, fields: Fields, m: map<Text, Json>) {
    && (forall k :: k in fields.required ==> k in m)
    && forall i :: 0 <= i < |fields.properties| ==>
         fields.properties[i].name in m ==>
         Valid(oracle, defs, hops, fields.properties[i].schema, m[fields.properties[i].name])
  }

  /** Accepting every slot is having every required property and only valid values. */
  lemma ObjectParts(w: World, h: Heap, defs: map<Text, Schema>, exact: bool, hops: nat, shape: seq<Slot>,
                    fields: Fields, m: map<Text, Json>)
    requires Ordered(h) && OldSlots(shape, |h.nodes|) && SlotsAgree(w, h, defs, exact, hops, shape, fields, m)
    requires forall k :: k in fields.required <==> RequiredKey(h, shape, k)
    ensures Agree(exact, AcceptsSlots(w, h, shape, m), ValidParts(w.oracle, defs, hops, fields, m))
  {
    if AcceptsSlots(w, h, shape, m) {
      forall k | k in fields.required
        ensures k in m
      {
        var i :| 0 <= i < |shape| && shape[i].key == k && !h.nodes[shape[i].schema].def.OptionalDef?;
        assert SlotAgrees(w, h, defs, exact, hops, shape[i], fields.properties[i], m);
      }
      forall i | 0 <= i < |shape| && fields.properties[i].name in m
        ensures Valid(w.oracle, defs, hops, fields.properties[i].schema, m[fields.properties[i].name])
      {
        assert SlotAgrees(w, h, defs, exact, hops, shape[i], fields.properties[i], m);
      }
    }
    if exact && ValidParts(w.oracle, defs, hops, fields, m) {
      forall i | 0 <= i < |shape|
        ensures Accepts(w, h, shape[i].schema, Lookup(m, shape[i].key))
      {
        assert SlotAgrees(w, h, defs, exact, hops, shape[i], fields.properties[i], m);
        assert shape[i].key !in m ==> !RequiredKey(h, shape, shape[i].key);
      }
    }
  }

  // ----- Discriminated unions --------------------------------------------------------------------

  /** A schema limited to a set of values accepts nothing else. */
  lemma {:induction false} AcceptsInValues(w: World, h: Heap, ref: Ref, x: Option<Json>)
    requires Ordered(h) && ref < |h.nodes| && HasValues(h, ref) && Accepts(w, h, ref, x)
    ensures InValues(h, ref, x)
    decreases ref
  {
    match h.nodes[ref].def
    case NullableDef(inner) => if x != Some(Null) { AcceptsInValues(w, h, inner, x); }
    case OptionalDef(inner) => if x != None { AcceptsInValues(w, h, inner, x); }
    case _ =>
  }

  lemma {:induction false} KeyedDiscriminable(h: Heap, option: Ref, key: Text)
    requires Ordered(h) && option < |h.nodes| && Keyed(h, option, key)
    ensures Discriminable(h, option)
    decreases option
  {
    match h.nodes[option].def
    case ObjectDef(shape, _) =>
      var i :| 0 <= i < |shape| && shape[i].key == key && HasValues(h, shape[i].schema);
      assert HasValuedSlot(h, shape, shape[i].key);
    case UnionDef(options, _, _, _) =>
      forall i | 0 <= i < |options|
        ensures Discriminable(h, options[i])
      {
        KeyedDiscriminable(h, options[i], key);
      }
    case _ =>
  }

  /** An option accepts only objects that the dispatch table leads to it. */
  lemma {:induction false} AcceptsSelected(w: World, h: Heap, option: Ref, key: Text, v: Json)
    requires Ordered(h) && option < |h.nodes| && Keyed(h, option, key) && Accepts(w, h, option, Some(v))
    ensures v.Obj? && Selects(h, option, key, Lookup(v.members, key))
    decreases option
  {
    KeyedDiscriminable(h, option, key);
    match h.nodes[option].def
    case ObjectDef(shape, _) =>
      var i :| 0 <= i < |shape| && shape[i].key == key && HasValues(h, shape[i].schema);
      AcceptsInValues(w, h, shape[i].schema, Lookup(v.members, key));
    case UnionDef(options, discriminator, _, _) =>
      assert DispatchAccepts(w, h, options, discriminator.value, option, v);
      var i :| 0 <= i < |options| && Accepts(w, h, options[i], Some(v));
      AcceptsSelected(w, h, options[i], key, v);
    case _ =>
  }

  /** Which options accept the value. */
  ghost function Acceptances(w: World, h: Heap, options: seq<Ref>, v: Json): (bs: seq<bool>)
    requires Ordered(h) && OldRefs(options, |h.nodes|)
    ensures |bs| == |options|
    ensures forall i :: 0 <= i < |options| ==> bs[i] == Accepts(w, h, options[i], Some(v))
  {
    if options == [] then []
    else Acceptances(w, h, options[..|options| - 1], v) + [Accepts(w, h, options[|options| - 1], Some(v))]
  }

  /** With a dispatch table that finds every object of the options, exactly one option accepts the value
      exactly when the option its discriminator selects accepts it. */
  lemma DispatchIsExactlyOne(w: World, h: Heap, options: seq<Ref>, discriminator: Text, owner: Ref, v: Json)
    requires Ordered(h) && owner < |h.nodes| && OldRefs(options, owner)
    requires Tabled(h, options, discriminator) && AllKeyed(h, options, discriminator)
    ensures ExactlyOne(Acceptances(w, h, options, v)) <==> DispatchAccepts(w, h, options, discriminator, owner, v)
  {
    forall i | 0 <= i < |options| && Accepts(w, h, options[i], Some(v))
      ensures v.Obj? && Selects(h, options[i], discriminator, Lookup(v.members, discriminator))
    {
      AcceptsSelected(w, h, options[i], discriminator, v);
    }
  }

  lemma {:induction false} ValidInValues(w: World, h: Heap, names: Names, prefix: Prefix, defs: map<Text, Schema>,
                                         hops: nat, ref: Ref, root: bool, x: Json)
    requires Lowered(h, names, prefix, defs) && ref < |h.nodes| && Lower(h, names, prefix, ref, root).Ok?
    requires if root then hops >= ref else hops > ref
    requires HasValues(h, ref) && Valid(w.oracle, defs, hops, Lower(h, names, prefix, ref, root).value, x)
    ensures InValues(h, ref, Some(x))
    decreases ref, if root then 0 else 1
  {
    if !root && ref in names {
      assert Resolved(h, names, prefix, defs, ref);
      ValidReference(w.oracle, defs, hops, prefix, names[ref], x);
      ValidInValues(w, h, names, prefix, defs, hops - 1, ref, true, x);
    } else {
      match h.nodes[ref].def
      case NullableDef(inner) =>
        ValidNullable(w.oracle, defs, hops, Lower(h, names, prefix, inner, false).value, x);
        if x != Null {
          ValidInValues(w, h, names, prefix, defs, hops, inner, false, x);
        }
      case _ => ScalarInValues(w, h, names, prefix, defs, hops, ref, x);
    }
  }

  lemma ScalarInValues(w: World, h: Heap, names: Names, prefix: Prefix, defs: map<Text, Schema>, hops: nat,
                       ref: Ref, x: Json)
    requires Lowered(h, names, prefix, defs) && ref < |h.nodes| && LowerScalar(h, ref).Ok? && HasValues(h, ref)
    requires LowerDef(h, names, prefix, ref) == LowerScalar(h, ref)
    requires Valid(w.oracle, defs, hops, LowerScalar(h, ref).value, x)
    ensures InValues(h, ref, Some(x))
  {
    ScalarMeaning(w, h, names, prefix, defs, hops, ref, x);
    AcceptsInValues(w, h, ref, Some(x));
  }

  /** A valid object has the discriminator among the values of its property, or may lack it. */
  lemma ValidSlot(w: World, h: Heap, names: Names, prefix: Prefix, defs: map<Text, Schema>, hops: nat,
                  ref: Ref, i: nat, v: Json)
    requires Lowered(h, names, prefix, defs) && ref < |h.nodes| && LowerDef(h, names, prefix, ref).Ok? && hops >= ref
    requires h.nodes[ref].def.ObjectDef? && i < |h.nodes[ref].def.shape|
    requires HasValues(h, h.nodes[ref].def.shape[i].schema)
    requires Valid(w.oracle, defs, hops, LowerDef(h, names, prefix, ref).value, v)
    ensures v.Obj? && var slot := h.nodes[ref].def.shape[i]; InValues(h, slot.schema, Lookup(v.members, slot.key))
  {
    var shape := h.nodes[ref].def.shape;
    var LObject(minProperties, description) := h.registrations[ref].lowering;
    var fields := LowerSlots(h, names, prefix, shape, ref).value;
    assert LowerDef(h, names, prefix, ref).value == ObjectSchema(fields, minProperties, description);
    ValidObject(w.oracle, defs, hops, fields, minProperties, description, v);
    SlotsLowered(h, names, prefix, shape, ref);
    var slot := shape[i];
    assert fields.properties[i].name == slot.key;
    if slot.key in v.members {
      ValidInValues(w, h, names, prefix, defs, hops, Unwrapped(h, slot.schema), false, v.members[slot.key]);
    } else {
      RequiredLowered(h, names, prefix, shape, ref, slot.key);
      assert !RequiredKey(h, shape, slot.key);
    }
  }

  lemma ValidBranch(w: World, h: Heap, names: Names, prefix: Prefix, defs: map<Text, Schema>, hops: nat,
                    ref: Ref, v: Json) returns (i: nat)
    requires Lowered(h, names, prefix, defs) && ref < |h.nodes| && LowerDef(h, names, prefix, ref).Ok?
    requires h.nodes[ref].def.UnionDef? && Valid(w.oracle, defs, hops, LowerDef(h, names, prefix, ref).value, v)
    ensures i < |h.nodes[ref].def.options| && Lower(h, names, prefix, h.nodes[ref].def.options[i], false).Ok?
    ensures Valid(w.oracle, defs, hops, Lower(h, names, prefix, h.nodes[ref].def.options[i], false).value, v)
  {
    var options, l := h.nodes[ref].def.options, h.registrations[ref].lowering;
    var branches := LowerAll(h, names, prefix, options, ref).value;
    assert LowerDef(h, names, prefix, ref).value == OneOfSchema(branches, l.description);
    ValidOneOf(w.oracle, defs, hops, branches, l.description, v);
    VerdictsAre(w.oracle, defs, hops, branches, v);
    AllLowered(h, names, prefix, options, ref);
    i :| 0 <= i < |options| && Valid(w.oracle, defs, hops, branches[i], v);
  }

  /** Only objects that the dispatch table leads to the option are valid against what it lowers to. */
  lemma {:induction false} ValidSelected(w: World, h: Heap, names: Names, prefix: Prefix, defs: map<Text, Schema>,
                                         hops: nat, option: Ref, root: bool, key: Text, v: Json)
    requires Lowered(h, names, prefix, defs) && option < |h.nodes| && Lower(h, names, prefix, option, root).Ok?
    requires if root then hops >= option else hops > option
    requires Keyed(h, option, key) && Valid(w.oracle, defs, hops, Lower(h, names, prefix, option, root).value, v)
    ensures v.Obj? && Selects(h, option, key, Lookup(v.members, key))
    decreases option, if root then 0 else 1
  {
    if !root && option in names {
      assert Resolved(h, names, prefix, defs, option);
      ValidReference(w.oracle, defs, hops, prefix, names[option], v);
      ValidSelected(w, h, names, prefix, defs, hops - 1, option, true, key, v);
    } else {
      KeyedDiscriminable(h, option, key);
      match h.nodes[option].def
      case ObjectDef(shape, _) =>
        var i :| 0 <= i < |shape| && shape[i].key == key && HasValues(h, shape[i].schema);
        ValidSlot(w, h, names, prefix, defs, hops, option, i, v);
      case UnionDef(options, _, _, _) =>
        var i := ValidBranch(w, h, names, prefix, defs, hops, option, v);
        ValidSelected(w, h, names, prefix, defs, hops, options[i], false, key, v);
      case _ =>
    }
  }

  /** The verdicts of the options and of the lowered branches agree. */
  ghost predicate OptionsAgree(w: World, h: Heap, defs: map<Text, Schema>, exact: bool, hops: nat,
                               options: seq<Ref>, branches: seq<Schema>, v: Json)
    requires Ordered(h) && OldRefs(options, |h.nodes|)
  {
    |branches| == |options| && forall i :: 0 <= i < |options| ==>
      Agree(exact, Accepts(w, h, options[i], Some(v)), Valid(w.oracle, defs, hops, branches[i], v))
  }

  lemma AllSelected(w: World, h: Heap, names: Names, prefix: Prefix, defs: map<Text, Schema>, hops: nat,
                    options: seq<Ref>, owner: Ref, key: Text, v: Json)
    requires Lowered(h, names, prefix, defs) && owner < |h.nodes| && OldRefs(options, owner) && hops >= owner
    requires LowerAll(h, names, prefix, options, owner).Ok? && AllKeyed(h, options, key)
    ensures forall i :: 0 <= i < |options| ==>
      Valid(w.oracle, defs, hops, LowerAll(h, names, prefix, options, owner).value[i], v) ==>
      v.Obj? && Selects(h, options[i], key, Lookup(v.members, key))
  {
    AllLowered(h, names, prefix, options, owner);
    var branches := LowerAll(h, names, prefix, options, owner).value;
    forall i | 0 <= i < |options| && Valid(w.oracle, defs, hops, branches[i], v)
      ensures v.Obj? && Selects(h, options[i], key, Lookup(v.members, key))
    {
      ValidSelected(w, h, names, prefix, defs, hops, options[i], false, key, v);
    }
  }

  /** Dispatch against the verdicts of the branches. */
  lemma DispatchAgrees(w: World, h: Heap, defs: map<Text, Schema>, exact: bool, hops: nat, options: seq<Ref>,
                       branches: seq<Schema>, key: Text, owner: Ref, v: Json)
    requires Ordered(h) && owner < |h.nodes| && OldRefs(options, owner) && Tabled(h, options, key)
    requires OptionsAgree(w, h, defs, exact, hops, options, branches, v)
    requires forall i :: 0 <= i < |options| ==> Valid(w.oracle, defs, hops, branches[i], v) ==>
      v.Obj? && Selects(h, options[i], key, Lookup(v.members, key))
    ensures Agree(exact, DispatchAccepts(w, h, options, key, owner, v),
                  ExactlyOne(Verdicts(w.oracle, defs, hops, branches, v)))
  {
    var verdicts := Verdicts(w.oracle, defs, hops, branches, v);
    VerdictsAre(w.oracle, defs, hops, branches, v);
    if DispatchAccepts(w, h, options, key, owner, v) {
      var i :| 0 <= i < |options| && Selects(h, options[i], key, Lookup(v.members, key)) &&
        Accepts(w, h, options[i], Some(v));
      assert Agree(exact, Accepts(w, h, options[i], Some(v)), Valid(w.oracle, defs, hops, branches[i], v));
      assert verdicts[i];
      forall j | 0 <= j < |options| && j != i
        ensures !verdicts[j]
      {
      }
    }
    if exact && ExactlyOne(verdicts) {
      var i :| 0 <= i < |verdicts| && verdicts[i];
      assert Agree(exact, Accepts(w, h, options[i], Some(v)), Valid(w.oracle, defs, hops, branches[i], v));
    }
  }

  lemma UnionMeaning(w: World, h: Heap, names: Names, prefix: Prefix, defs: map<Text, Schema>,
                     exact: bool, hops: nat, ref: Ref, v: Json)
    requires Lowered(h, names, prefix, defs) && ref < |h.nodes| && LowerDef(h, names, prefix, ref).Ok? && hops >= ref
    requires h.nodes[ref].def.UnionDef? && Dispatchable(h, ref, exact)
    requires OptionsAgree(w, h, defs, exact, hops, h.nodes[ref].def.options,
                          LowerAll(h, names, prefix, h.nodes[ref].def.options, ref).value, v)
    ensures Agree(exact, Accepts(w, h, ref, Some(v)),
                  Valid(w.oracle, defs, hops, LowerDef(h, names, prefix, ref).value, v))
  {
    var options, l := h.nodes[ref].def.options, h.registrations[ref].lowering;
    var branches := LowerAll(h, names, prefix, options, ref).value;
    AcceptsUnion(w, h, ref, v);
    ValidOneOf(w.oracle, defs, hops, branches, l.description, v);
    if Tabled(h, options, l.discriminator) {
      AllSelected(w, h, names, prefix, defs, hops, options, ref, l.discriminator, v);
      DispatchAgrees(w, h, defs, exact, hops, options, branches, l.discriminator, ref, v);
    }
    assert LowerDef(h, names, prefix, ref).value == OneOfSchema(branches, l.description);
  }

  lemma AcceptsUnion(w: World, h: Heap, ref: Ref, v: Json)
    requires Sound(h) && ref < |h.nodes| && Require(h, ref, KOneOf).Ok? && h.nodes[ref].def.UnionDef?
    requires h.nodes[ref].def.discriminator.Some?
    ensures Accepts(w, h, ref, Some(v)) <==>
            DispatchAccepts(w, h, h.nodes[ref].def.options, h.nodes[ref].def.discriminator.value, ref, v)
  {
    assert RegisteredWell(h, ref);
  }

  lemma {:induction false} VerdictsAre(oracle: Oracle, defs: map<Text, Schema>, hops: nat, branches: seq<Schema>,
                                       v: Json)
    ensures forall i :: 0 <= i < |branches| ==>
      Verdicts(oracle, defs, hops, branches, v)[i] == Valid(oracle, defs, hops, branches[i], v)
  {
    if branches != [] {
      VerdictsAre(oracle, defs, hops, branches[..|branches| - 1], v);
    }
  }

  lemma ValidOneOf(oracle: Oracle, defs: map<Text, Schema>, hops: nat, branches: seq<Schema>,
                   description: Option<Text>, v: Json)
    ensures Valid(oracle, defs, hops, OneOfSchema(branches, description), v)
       <==> ExactlyOne(Verdicts(oracle, defs, hops, branches, v))
  {
    assert LocallyValid(oracle, OneOfSchema(branches, description).kw, v);
  }

  // ----- The theorem -----------------------------------------------------------------------------

  lemma ValidReference(oracle: Oracle, defs: map<Text, Schema>, hops: nat, prefix: Prefix, name: Text, v: Json)
    requires hops > 0 && name in defs
    ensures Valid(oracle, defs, hops, RefSchema(prefix, name), v) <==> Valid(oracle, defs, hops - 1, defs[name], v)
  {
    assert LocallyValid(oracle, RefSchema(prefix, name).kw, v);
  }

  /** Agreement on every schema of the scope, for every value and any sufficient number of references. */
  lemma {:induction false} Agreement(w: World, h: Heap, names: Names, prefix: Prefix, defs: map<Text, Schema>,
                                     scope: set<Ref>, exact: bool, hops: nat, ref: Ref, root: bool, v: Json)
    requires Lowered(h, names, prefix, defs) && ref < |h.nodes| && Lower(h, names, prefix, ref, root).Ok?
    requires InScope(h, scope, exact) && ref in scope
    requires if root then hops >= ref else hops > ref
    ensures Agree(exact, Accepts(w, h, ref, Some(v)),
                  Valid(w.oracle, defs, hops, Lower(h, names, prefix, ref, root).value, v))
    decreases ref, if root then 2 else 3
  {
    if !root && ref in names {
      assert Resolved(h, names, prefix, defs, ref);
      Agreement(w, h, names, prefix, defs, scope, exact, hops - 1, ref, true, v);
      ValidReference(w.oracle, defs, hops, prefix, names[ref], v);
    } else {
      NodeMeaning(w, h, names, prefix, defs, scope, exact, hops, ref, v);
    }
  }

  lemma {:induction false} NodeMeaning(w: World, h: Heap, names: Names, prefix: Prefix, defs: map<Text, Schema>,
                                       scope: set<Ref>, exact: bool, hops: nat, ref: Ref, v: Json)
    requires Lowered(h, names, prefix, defs) && ref < |h.nodes| && LowerDef(h, names, prefix, ref).Ok?
    requires InScope(h, scope, exact) && ref in scope && hops >= ref
    ensures Agree(exact, Accepts(w, h, ref, Some(v)),
                  Valid(w.oracle, defs, hops, LowerDef(h, names, prefix, ref).value, v))
    decreases ref, 1
  {
    match h.nodes[ref].def
    case ArrayDef(element) =>
      assert Child(h, ref, element);
      ItemsMeaning(w, h, names, prefix, defs, scope, exact, hops, element);
      ArrayMeaning(w, h, names, prefix, defs, exact, hops, ref, v);
    case NullableDef(inner) =>
      assert Child(h, ref, inner);
      Agreement(w, h, names, prefix, defs, scope, exact, hops, inner, false, v);
      NullableMeaning(w, h, names, prefix, defs, exact, hops, ref, v);
    case ObjectDef(shape, _) =>
      if v.Obj? {
        SlotsMeaning(w, h, names, prefix, defs, scope, exact, hops, ref, v.members);
      }
      ObjectMeaning(w, h, names, prefix, defs, exact, hops, ref, v);
    case UnionDef(options, _, _, _) =>
      OptionsMeaning(w, h, names, prefix, defs, scope, exact, hops, ref, v);
      assert Dispatchable(h, ref, exact);
      UnionMeaning(w, h, names, prefix, defs, exact, hops, ref, v);
    case _ => LeafMeaning(w, h, names, prefix, defs, exact, hops, ref, v);
  }

  lemma LeafMeaning(w: World, h: Heap, names: Names, prefix: Prefix, defs: map<Text, Schema>,
                    exact: bool, hops: nat, ref: Ref, v: Json)
    requires Lowered(h, names, prefix, defs) && ref < |h.nodes| && LowerScalar(h, ref).Ok?
    requires LowerDef(h, names, prefix, ref) == LowerScalar(h, ref)
    ensures Agree(exact, Accepts(w, h, ref, Some(v)),
                  Valid(w.oracle, defs, hops, LowerDef(h, names, prefix, ref).value, v))
  {
    ScalarMeaning(w, h, names, prefix, defs, hops, ref, v);
  }

  lemma {:induction false} ItemsMeaning(w: World, h: Heap, names: Names, prefix: Prefix, defs: map<Text, Schema>,
                                        scope: set<Ref>, exact: bool, hops: nat, element: Ref)
    requires Lowered(h, names, prefix, defs) && element < |h.nodes| && hops > element
    requires InScope(h, scope, exact) && element in scope
    requires Lower(h, names, prefix, element, false).Ok?
    ensures forall x :: Agree(exact, Accepts(w, h, element, Some(x)),
      Valid(w.oracle, defs, hops, Lower(h, names, prefix, element, false).value, x))
    decreases element, 4
  {
    forall x
      ensures Agree(exact, Accepts(w, h, element, Some(x)),
                    Valid(w.oracle, defs, hops, Lower(h, names, prefix, element, false).value, x))
    {
      Agreement(w, h, names, prefix, defs, scope, exact, hops, element, false, x);
    }
  }

  lemma {:induction false} OptionsMeaning(w: World, h: Heap, names: Names, prefix: Prefix, defs: map<Text, Schema>,
                                          scope: set<Ref>, exact: bool, hops: nat, ref: Ref, v: Json)
    requires Lowered(h, names, prefix, defs) && ref < |h.nodes| && hops >= ref && InScope(h, scope, exact) &&
      ref in scope
    requires h.nodes[ref].def.UnionDef? && LowerAll(h, names, prefix, h.nodes[ref].def.options, ref).Ok?
    ensures OptionsAgree(w, h, defs, exact, hops, h.nodes[ref].def.options,
                         LowerAll(h, names, prefix, h.nodes[ref].def.options, ref).value, v)
    decreases ref, 0
  {
    var options := h.nodes[ref].def.options;
    AllLowered(h, names, prefix, options, ref);
    forall i | 0 <= i < |options|
      ensures Agree(exact, Accepts(w, h, options[i], Some(v)),
                    Valid(w.oracle, defs, hops, LowerAll(h, names, prefix, options, ref).value[i], v))
    {
      assert Child(h, ref, options[i]);
      Agreement(w, h, names, prefix, defs, scope, exact, hops, options[i], false, v);
    }
  }

  lemma UnwrappedInScope(h: Heap, scope: set<Ref>, ref: Ref, i: nat)
    requires Ordered(h) && Closed(h, scope) && ref in scope && ref < |h.nodes|
    requires h.nodes[ref].def.ObjectDef? && i < |h.nodes[ref].def.shape|
    ensures Unwrapped(h, h.nodes[ref].def.shape[i].schema) in scope
  {
    var slot := h.nodes[ref].def.shape[i].schema;
    assert Child(h, ref, slot);
    if h.nodes[slot].def.OptionalDef? {
      assert Child(h, slot, h.nodes[slot].def.inner);
    }
  }

  lemma {:induction false} SlotsMeaning(w: World, h: Heap, names: Names, prefix: Prefix, defs: map<Text, Schema>,
                                        scope: set<Ref>, exact: bool, hops: nat, ref: Ref, m: map<Text, Json>)
    requires Lowered(h, names, prefix, defs) && ref < |h.nodes| && hops >= ref && InScope(h, scope, exact) &&
      ref in scope
    requires h.nodes[ref].def.ObjectDef? && LowerSlots(h, names, prefix, h.nodes[ref].def.shape, ref).Ok?
    ensures SlotsAgree(w, h, defs, exact, hops, h.nodes[ref].def.shape,
                       LowerSlots(h, names, prefix, h.nodes[ref].def.shape, ref).value, m)
    decreases ref, 0
  {
    var shape := h.nodes[ref].def.shape;
    SlotsLowered(h, names, prefix, shape, ref);
    var fields := LowerSlots(h, names, prefix, shape, ref).value;
    forall i | 0 <= i < |shape|
      ensures SlotAgrees(w, h, defs, exact, hops, shape[i], fields.properties[i], m)
    {
      var inner := Unwrapped(h, shape[i].schema);
      UnwrappedInScope(h, scope, ref, i);
      if shape[i].key in m {
        Agreement(w, h, names, prefix, defs, scope, exact, hops, inner, false, m[shape[i].key]);
      } else {
        RejectsUndefined(w, h, names, prefix, defs, inner, false);
      }
    }
  }

  /** Main result: where every union in reach has a complete dispatch table, a value is accepted exactly
      when it is valid, for every schema, every value and any sufficient number of references. */
  lemma MeaningPreserved(w: World, h: Heap, names: Names, prefix: Prefix, defs: map<Text, Schema>,
                         scope: set<Ref>, hops: nat, ref: Ref, root: bool, v: Json)
    requires Lowered(h, names, prefix, defs) && ref < |h.nodes| && Lower(h, names, prefix, ref, root).Ok?
    requires InScope(h, scope, true) && ref in scope
    requires if root then hops >= ref else hops > ref
    ensures Accepts(w, h, ref, Some(v)) <==>
            Valid(w.oracle, defs, hops, Lower(h, names, prefix, ref, root).value, v)
  {
    Agreement(w, h, names, prefix, defs, scope, true, hops, ref, root, v);
  }

  /** Main result: a value that is accepted is valid, also where a union has no dispatch table. */
  lemma AcceptedIsValid(w: World, h: Heap, names: Names, prefix: Prefix, defs: map<Text, Schema>,
                        scope: set<Ref>, hops: nat, ref: Ref, root: bool, v: Json)
    requires Lowered(h, names, prefix, defs) && ref < |h.nodes| && Lower(h, names, prefix, ref, root).Ok?
    requires InScope(h, scope, false) && ref in scope
    requires if root then hops >= ref else hops > ref
    ensures Accepts(w, h, ref, Some(v)) ==> Valid(w.oracle, defs, hops, Lower(h, names, prefix, ref, root).value, v)
  {
    Agreement(w, h, names, prefix, defs, scope, false, hops, ref, root, v);
  }
}
