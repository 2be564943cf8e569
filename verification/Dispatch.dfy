/**
 * When a discriminated union has a dispatch table, and what happens when it has none: the builder and the
 * lowering take the union all the same.
 */
module Dispatch {
  import opened Wrappers
  import opened Utf16
  import opened JsonSchema
  import opened Wire
  import opened Lowering
  import opened Builders
  import opened Meaning

  ghost predicate DistinctSlots(shape: seq<Slot>) {
    forall i, j :: 0 <= i < j < |shape| ==> shape[i].key != shape[j].key
  }

  ghost predicate IsConstant(h: Heap, ref: Ref, value: Json) {
    ref < |h.nodes| && h.nodes[ref].def == LiteralDef([value])
  }

  /** A strict object whose property `key` is required and constant. */
  ghost predicate IsBranch(h: Heap, option: Ref, key: Text, value: Json) {
    && option < |h.nodes| && h.nodes[option].def.ObjectDef? && DistinctSlots(h.nodes[option].def.shape)
    && exists i :: 0 <= i < |h.nodes[option].def.shape| && h.nodes[option].def.shape[i].key == key
         && IsConstant(h, h.nodes[option].def.shape[i].schema, value)
  }

  /** The documented use of oneOf, but for the constants being distinct. */
  ghost predicate AreBranches(h: Heap, options: seq<Ref>, key: Text, values: seq<Json>) {
    |values| == |options| && forall i :: 0 <= i < |options| ==> IsBranch(h, options[i], key, values[i])
  }

  lemma BranchSurvives(h: Heap, h': Heap, option: Ref, key: Text, value: Json)
    requires Extends(h, h') && IsBranch(h, option, key, value)
    ensures IsBranch(h', option, key, value)
  {
    NodeSurvives(h, h', option);
    var shape := h.nodes[option].def.shape;
    var i :| 0 <= i < |shape| && shape[i].key == key && IsConstant(h, shape[i].schema, value);
    NodeSurvives(h, h', shape[i].schema);
    assert IsConstant(h', shape[i].schema, value);
  }

  lemma BranchSelects(h: Heap, option: Ref, key: Text, value: Json, x: Option<Json>)
    requires Ordered(h) && IsBranch(h, option, key, value)
    ensures Keyed(h, option, key)
    ensures Selects(h, option, key, x) <==> x == Some(value)
  {
    var shape := h.nodes[option].def.shape;
    var i :| 0 <= i < |shape| && shape[i].key == key && IsConstant(h, shape[i].schema, value);
    assert HasValues(h, shape[i].schema) && (InValues(h, shape[i].schema, x) <==> x == Some(value));
  }

  /** For branches with constants the dispatch table exists exactly when the constants are distinct. */
  lemma BranchesTabled(h: Heap, options: seq<Ref>, key: Text, values: seq<Json>)
    requires Ordered(h) && AreBranches(h, options, key, values) && OldRefs(options, |h.nodes|)
    ensures AllKeyed(h, options, key)
    ensures Tabled(h, options, key) <==> DistinctValues(values)
  {
    forall i | 0 <= i < |options|
      ensures Keyed(h, options[i], key) && Selectable(h, options[i], key)
      ensures Selects(h, options[i], key, Some(values[i]))
    {
      BranchSelects(h, options[i], key, values[i], Some(values[i]));
    }
    if DistinctValues(values) {
      forall i, j, x | 0 <= i < j < |options| && Selects(h, options[i], key, x)
        ensures !Selects(h, options[j], key, x)
      {
        BranchSelects(h, options[i], key, values[i], x);
        BranchSelects(h, options[j], key, values[j], x);
        assert values[i] != values[j];
      }
    } else {
      var i, j :| 0 <= i < j < |values| && values[i] == values[j];
      assert Selects(h, options[i], key, Some(values[i])) && Selects(h, options[j], key, Some(values[j]));
    }
  }

  /** Options that are object schemas, as the documentation asks, are complete: an existing table finds
      each of their objects. */
  lemma ObjectOptionsComplete(h: Heap, ref: Ref)
    requires Ordered(h) && ref < |h.nodes| && h.nodes[ref].def.UnionDef?
    requires forall i :: 0 <= i < |h.nodes[ref].def.options| ==> h.nodes[h.nodes[ref].def.options[i]].def.ObjectDef?
    ensures Dispatchable(h, ref, false)
  {
    var options, discriminator := h.nodes[ref].def.options, h.nodes[ref].def.discriminator;
    if discriminator.Some? && Tabled(h, options, discriminator.value) {
      forall i | 0 <= i < |options|
        ensures Keyed(h, options[i], discriminator.value)
      {
        assert Selectable(h, options[i], discriminator.value);
        var x :| Selects(h, options[i], discriminator.value, x);
      }
    }
  }

  /** A lowered union with complete options that agree accepts exactly the valid values if its dispatch
      table exists, and nothing otherwise. */
  lemma UnionAcceptsExactly(w: World, h: Heap, names: Names, prefix: Prefix, defs: map<Text, Schema>,
                            hops: nat, ref: Ref, v: Json)
    requires Lowered(h, names, prefix, defs) && ref < |h.nodes| && LowerDef(h, names, prefix, ref).Ok? && hops >= ref
    requires h.nodes[ref].def.UnionDef? && Dispatchable(h, ref, false)
    requires OptionsAgree(w, h, defs, true, hops, h.nodes[ref].def.options,
                          LowerAll(h, names, prefix, h.nodes[ref].def.options, ref).value, v)
    ensures Accepts(w, h, ref, Some(v)) <==>
      && Valid(w.oracle, defs, hops, LowerDef(h, names, prefix, ref).value, v)
      && Tabled(h, h.nodes[ref].def.options, h.nodes[ref].def.discriminator.value)
  {
    AcceptsUnion(w, h, ref, v);
    if Tabled(h, h.nodes[ref].def.options, h.nodes[ref].def.discriminator.value) {
      UnionMeaning(w, h, names, prefix, defs, true, hops, ref, v);
    }
  }

  /** For the documented use: acceptance is validity and the constants being distinct. */
  lemma BranchesAcceptExactly(w: World, h: Heap, names: Names, prefix: Prefix, defs: map<Text, Schema>,
                              hops: nat, ref: Ref, values: seq<Json>, v: Json)
    requires Lowered(h, names, prefix, defs) && ref < |h.nodes| && LowerDef(h, names, prefix, ref).Ok? && hops >= ref
    requires h.nodes[ref].def.UnionDef?
    requires AreBranches(h, h.nodes[ref].def.options, h.nodes[ref].def.discriminator.value, values)
    requires OptionsAgree(w, h, defs, true, hops, h.nodes[ref].def.options,
                          LowerAll(h, names, prefix, h.nodes[ref].def.options, ref).value, v)
    ensures Accepts(w, h, ref, Some(v)) <==>
      Valid(w.oracle, defs, hops, LowerDef(h, names, prefix, ref).value, v) && DistinctValues(values)
  {
    ObjectOptionsComplete(h, ref);
    BranchesTabled(h, h.nodes[ref].def.options, h.nodes[ref].def.discriminator.value, values);
    UnionAcceptsExactly(w, h, names, prefix, defs, hops, ref, v);
  }

  // ----- A union without a dispatch table --------------------------------------------------------

  const K: Text := [0x6B]
  const M: Text := [0x6D]
  const A: Json := Str([0x61])

  /** oneOf('k', [object({k: literal('a')}), object({k: literal('a'), m: boolean()})]), built in order. */
  function RepeatedConstant(): (Heap, Ref) {
    var (h1, a) := MakeLiteral(EMPTY_HEAP, A);
    var (h2, flag) := MakeBoolean(h1);
    var (h3, first) := MakeObject(h2, [Slot(K, a)], None, None).value;
    var (h4, second) := MakeObject(h3, [Slot(K, a), Slot(M, flag)], None, None).value;
    MakeOneOf(h4, K, [first, second], None)
  }

  /** A registered object at `ref` without checks. */
  ghost predicate Holds(h: Heap, ref: Ref, def: Def, l: Wire.Lowering) {
    ref < |h.nodes| && h.nodes[ref] == Zod(def, []) && ref in h.registrations &&
      h.registrations[ref] == Registration(l, [])
  }

  /** What these calls leave behind. */
  ghost predicate IsRepeated(h: Heap, a: Ref, flag: Ref, first: Ref, second: Ref, ref: Ref) {
    && Sound(h) && a < first < ref && a < flag < second < ref && 0 < first && 0 < second
    && Holds(h, a, LiteralDef([A]), LConst(A)) && Holds(h, flag, BooleanDef, LBoolean)
    && Holds(h, first, ObjectDef([Slot(K, a)], Some(first - 1)), LObject(None, None))
    && Holds(h, second, ObjectDef([Slot(K, a), Slot(M, flag)], Some(second - 1)), LObject(None, None))
    && h.nodes[first - 1].def.NeverDef? && h.nodes[second - 1].def.NeverDef?
    && Holds(h, ref, UnionDef([first, second], Some(K), false, false), LOneOf(K, None))
  }

  lemma HoldsSurvives(h: Heap, h': Heap, ref: Ref, def: Def, l: Wire.Lowering)
    requires Holds(h, ref, def, l) && Extends(h, h')
    ensures Holds(h', ref, def, l)
  {
    NodeSurvives(h, h', ref);
  }

  lemma BuiltHolds(h: Heap, def: Def, l: Wire.Lowering)
    requires Sound(h) && OlderThan(def, |h.nodes|) && TestsOf(l) == []
    ensures var (h', ref) := Built(h, def, false, l);
      ref == |h.nodes| && |h'.nodes| == ref + 1 && Sound(h') && Extends(h, h') && Holds(h', ref, def, l)
  {
    BuiltFacts(h, def, false, l);
    assert NewChecks(h, []) == [];
  }

  lemma ObjectHolds(h: Heap, shape: seq<Slot>)
    requires Sound(h) && forall i :: 0 <= i < |shape| ==> shape[i].schema < |h.nodes|
    ensures var (h', ref) := MakeObject(h, shape, None, None).value;
      && ref == |h.nodes| + 1 && |h'.nodes| == ref + 1 && Sound(h') && Extends(h, h')
      && Holds(h', ref, ObjectDef(shape, Some(ref - 1)), LObject(None, None)) && h'.nodes[ref - 1].def.NeverDef?
  {
    ObjectFacts(h, shape, None, None);
    CreatedFacts(h, Zod(NeverDef, []));
    BuiltHolds(Created(h, Zod(NeverDef, [])).0, ObjectDef(shape, Some(|h.nodes|)), LObject(None, None));
  }

  lemma ScalarsAreBuilt()
    ensures var (h1, a) := MakeLiteral(EMPTY_HEAP, A);
      var (h, flag) := MakeBoolean(h1);
      && Sound(h) && |h.nodes| == 2 && (a, flag) == (0, 1)
      && Holds(h, 0, LiteralDef([A]), LConst(A)) && Holds(h, 1, BooleanDef, LBoolean)
  {
    var (h1, a) := MakeLiteral(EMPTY_HEAP, A);
    BuiltHolds(EMPTY_HEAP, LiteralDef([A]), LConst(A));
    BuiltHolds(h1, BooleanDef, LBoolean);
    var (h, flag) := MakeBoolean(h1);
    HoldsSurvives(h1, h, a, LiteralDef([A]), LConst(A));
  }

  lemma FirstIsBuilt(h2: Heap)
    requires Sound(h2) && |h2.nodes| == 2
    requires Holds(h2, 0, LiteralDef([A]), LConst(A)) && Holds(h2, 1, BooleanDef, LBoolean)
    ensures var (h, first) := MakeObject(h2, [Slot(K, 0)], None, None).value;
      && Sound(h) && |h.nodes| == 4 && first == 3
      && Holds(h, 0, LiteralDef([A]), LConst(A)) && Holds(h, 1, BooleanDef, LBoolean)
      && Holds(h, 3, ObjectDef([Slot(K, 0)], Some(2)), LObject(None, None)) && h.nodes[2].def.NeverDef?
  {
    var (h, first) := MakeObject(h2, [Slot(K, 0)], None, None).value;
    ObjectHolds(h2, [Slot(K, 0)]);
    HoldsSurvives(h2, h, 0, LiteralDef([A]), LConst(A));
    HoldsSurvives(h2, h, 1, BooleanDef, LBoolean);
  }

  lemma RestIsBuilt(h3: Heap)
    requires Sound(h3) && |h3.nodes| == 4
    requires Holds(h3, 0, LiteralDef([A]), LConst(A)) && Holds(h3, 1, BooleanDef, LBoolean)
    requires Holds(h3, 3, ObjectDef([Slot(K, 0)], Some(2)), LObject(None, None)) && h3.nodes[2].def.NeverDef?
    ensures var (h4, second) := MakeObject(h3, [Slot(K, 0), Slot(M, 1)], None, None).value;
      var (h, ref) := MakeOneOf(h4, K, [3, second], None);
      second == 5 && ref == 6 && IsRepeated(h, 0, 1, 3, 5, 6)
  {
    var (h4, second) := MakeObject(h3, [Slot(K, 0), Slot(M, 1)], None, None).value;
    ObjectHolds(h3, [Slot(K, 0), Slot(M, 1)]);
    var (h, ref) := MakeOneOf(h4, K, [3, second], None);
    BuiltHolds(h4, UnionDef([3, second], Some(K), false, false), LOneOf(K, None));
    ExtendsTransitive(h3, h4, h);
    HoldsSurvives(h3, h, 0, LiteralDef([A]), LConst(A));
    HoldsSurvives(h3, h, 1, BooleanDef, LBoolean);
    HoldsSurvives(h3, h, 3, ObjectDef([Slot(K, 0)], Some(2)), LObject(None, None));
    HoldsSurvives(h4, h, 5, ObjectDef([Slot(K, 0), Slot(M, 1)], Some(4)), LObject(None, None));
    NodeSurvives(h3, h, 2);
    NodeSurvives(h4, h, 4);
  }

  lemma RepeatedIsBuilt()
    ensures IsRepeated(RepeatedConstant().0, 0, 1, 3, 5, 6) && RepeatedConstant().1 == 6
  {
    ScalarsAreBuilt();
    var h2 := MakeBoolean(MakeLiteral(EMPTY_HEAP, A).0).0;
    FirstIsBuilt(h2);
    RestIsBuilt(MakeObject(h2, [Slot(K, 0)], None, None).value.0);
  }

  const NO_NAMES: Names := map[]
  const NO_DEFS: map<Text, Schema> := map[]

  lemma SlotLowers(h: Heap, shape: seq<Slot>, slot: Slot, owner: Ref)
    requires Ordered(h) && owner < |h.nodes| && OldSlots(shape + [slot], owner) && OldSlots(shape, owner) &&
      slot.schema < owner
    requires LowerSlots(h, NO_NAMES, Defs, shape, owner).Ok?
    requires !h.nodes[slot.schema].def.OptionalDef? && LowerDef(h, NO_NAMES, Defs, slot.schema).Ok?
    ensures LowerSlots(h, NO_NAMES, Defs, shape + [slot], owner).Ok?
  {
    assert (shape + [slot])[..|shape|] == shape;
  }

  lemma BranchesLower(h: Heap, a: Ref, flag: Ref, first: Ref, second: Ref, ref: Ref)
    requires IsRepeated(h, a, flag, first, second, ref)
    ensures LowerDef(h, NO_NAMES, Defs, first).Ok? && LowerDef(h, NO_NAMES, Defs, second).Ok?
  {
    SlotLowers(h, [], Slot(K, a), first);
    SlotLowers(h, [], Slot(K, a), second);
    SlotLowers(h, [Slot(K, a)], Slot(M, flag), second);
    assert [] + [Slot(K, a)] == [Slot(K, a)] && [Slot(K, a)] + [Slot(M, flag)] == [Slot(K, a), Slot(M, flag)];
  }

  lemma OptionLowers(h: Heap, options: seq<Ref>, option: Ref, owner: Ref)
    requires Ordered(h) && owner < |h.nodes| && OldRefs(options, owner) && option < owner
    requires LowerAll(h, NO_NAMES, Defs, options, owner).Ok? && LowerDef(h, NO_NAMES, Defs, option).Ok?
    ensures LowerAll(h, NO_NAMES, Defs, options + [option], owner).Ok?
  {
    assert (options + [option])[..|options|] == options;
  }

  lemma UnionLowers(h: Heap, a: Ref, flag: Ref, first: Ref, second: Ref, ref: Ref)
    requires IsRepeated(h, a, flag, first, second, ref)
    ensures LowerAll(h, NO_NAMES, Defs, [first, second], ref).Ok? && LowerDef(h, NO_NAMES, Defs, ref).Ok?
  {
    BranchesLower(h, a, flag, first, second, ref);
    OptionLowers(h, [], first, ref);
    OptionLowers(h, [first], second, ref);
    assert [] + [first] == [first] && [first] + [second] == [first, second];
  }

  lemma ScalarVerdicts(w: World, h: Heap, a: Ref, flag: Ref)
    requires Ordered(h) && Holds(h, a, LiteralDef([A]), LConst(A)) && Holds(h, flag, BooleanDef, LBoolean)
    ensures Accepts(w, h, a, Some(A)) && !Accepts(w, h, flag, None)
  {
    assert h.nodes[a].def.values == [A] && h.nodes[flag].def == BooleanDef;
  }

  /** Only the first branch accepts {k: 'a'}. */
  lemma FirstAccepts(w: World, h: Heap, a: Ref, flag: Ref, first: Ref, second: Ref, ref: Ref)
    requires IsRepeated(h, a, flag, first, second, ref)
    ensures Accepts(w, h, first, Some(Obj(map[K := A]))) && !Accepts(w, h, second, Some(Obj(map[K := A])))
  {
    var v, shape := Obj(map[K := A]), [Slot(K, a), Slot(M, flag)];
    AcceptsObject(w, h, first, [Slot(K, a)], None, v);
    AcceptsObject(w, h, second, shape, None, v);
    assert Slot(K, a) in [Slot(K, a)];
    ScalarVerdicts(w, h, a, flag);
    assert shape[1] == Slot(M, flag) && Lookup(v.members, M) == None;
    assert !Accepts(w, h, shape[1].schema, Lookup(v.members, shape[1].key));
  }

  lemma BranchesAgree(w: World, h: Heap, a: Ref, flag: Ref, first: Ref, second: Ref, ref: Ref, hops: nat)
    requires IsRepeated(h, a, flag, first, second, ref) && hops >= ref
    ensures LowerAll(h, NO_NAMES, Defs, [first, second], ref).Ok?
    ensures OptionsAgree(w, h, NO_DEFS, true, hops, [first, second],
                         LowerAll(h, NO_NAMES, Defs, [first, second], ref).value, Obj(map[K := A]))
  {
    UnionLowers(h, a, flag, first, second, ref);
    var options, scope, v := [first, second], {a, flag, first, second}, Obj(map[K := A]);
    AllLowered(h, NO_NAMES, Defs, options, ref);
    assert InScope(h, scope, true);
    assert Lowered(h, NO_NAMES, Defs, NO_DEFS);
    forall i | 0 <= i < |options|
      ensures Agree(true, Accepts(w, h, options[i], Some(v)),
                    Valid(w.oracle, NO_DEFS, hops, LowerAll(h, NO_NAMES, Defs, options, ref).value[i], v))
    {
      Agreement(w, h, NO_NAMES, Defs, NO_DEFS, scope, true, hops, options[i], false, v);
    }
  }

  lemma RepeatedIsUntabled(h: Heap, a: Ref, flag: Ref, first: Ref, second: Ref, ref: Ref)
    requires IsRepeated(h, a, flag, first, second, ref)
    ensures !Tabled(h, [first, second], K)
  {
    var shape := [Slot(K, a), Slot(M, flag)];
    assert [Slot(K, a)][0].key == K && shape[0].key == K && shape[1].key != K;
    assert IsConstant(h, a, A);
    assert IsBranch(h, first, K, A);
    assert IsBranch(h, second, K, A);
    BranchesTabled(h, [first, second], K, [A, A]);
    assert [A, A][0] == [A, A][1];
  }

  /** The union is built and lowers, {k: 'a'} is valid against the lowered document, and it is not accepted. */
  lemma RepeatedConstantRefused(w: World, hops: nat)
    requires hops >= 6
    ensures var (h, ref) := RepeatedConstant();
      && Sound(h) && ref < |h.nodes| && Lower(h, NO_NAMES, Defs, ref, true).Ok?
      && Valid(w.oracle, NO_DEFS, hops, Lower(h, NO_NAMES, Defs, ref, true).value, Obj(map[K := A]))
      && !Accepts(w, h, ref, Some(Obj(map[K := A])))
  {
    RepeatedIsBuilt();
    RepeatedRefused(w, RepeatedConstant().0, 0, 1, 3, 5, 6, hops);
  }

  lemma RepeatedRefused(w: World, h: Heap, a: Ref, flag: Ref, first: Ref, second: Ref, ref: Ref, hops: nat)
    requires IsRepeated(h, a, flag, first, second, ref) && hops >= ref
    ensures LowerDef(h, NO_NAMES, Defs, ref).Ok?
    ensures Valid(w.oracle, NO_DEFS, hops, LowerDef(h, NO_NAMES, Defs, ref).value, Obj(map[K := A]))
    ensures !Accepts(w, h, ref, Some(Obj(map[K := A])))
  {
    var v, options := Obj(map[K := A]), [first, second];
    UnionLowers(h, a, flag, first, second, ref);
    BranchesAgree(w, h, a, flag, first, second, ref, hops);
    FirstAccepts(w, h, a, flag, first, second, ref);
    var branches := LowerAll(h, NO_NAMES, Defs, options, ref).value;
    VerdictsAre(w.oracle, NO_DEFS, hops, branches, v);
    ValidOneOf(w.oracle, NO_DEFS, hops, branches, None, v);
    assert Agree(true, Accepts(w, h, options[0], Some(v)), Valid(w.oracle, NO_DEFS, hops, branches[0], v));
    assert Agree(true, Accepts(w, h, options[1], Some(v)), Valid(w.oracle, NO_DEFS, hops, branches[1], v));
    assert Verdicts(w.oracle, NO_DEFS, hops, branches, v)[0];
    RepeatedIsUntabled(h, a, flag, first, second, ref);
    AcceptsUnion(w, h, ref, v);
  }
}
