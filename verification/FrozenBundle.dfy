/**
 * The whole port: the modules are emitted in plan order, evaluated schema by schema, and the resulting
 * catalog is lowered again. The frozen definitions come back exactly when every definition is
 * reproducible.
 */
module FrozenBundle {
  import opened Wrappers
  import opened Utf16
  import opened JsonSchema
  import opened Wire
  import opened Lowering
  import opened Builders
  import opened Artifacts
  import opened Port
  import opened RoundTrip
  import opened PortBundle
  import Planning
  import ModulePlan

  type Definitions = map<Text, Schema>

  // ----- The references of a document ------------------------------------------------------------

  /** The names a document refers to, at any depth. */
  function CollectRefs(node: Schema): set<Text>
    decreases node, 1
  {
    match node
    case Plain(_) => {}
    case Node(kw) =>
      (if kw.ref.Some? && kw.ref.value.Named? then {kw.ref.value.name} else {}) +
      (if kw.anyOf.Some? && kw.anyOf.value.Schemas? then CollectAll(kw.anyOf.value.list) else {}) +
      (if kw.oneOf.Some? && kw.oneOf.value.Schemas? then CollectAll(kw.oneOf.value.list) else {}) +
      (if kw.items.Some? then CollectRefs(kw.items.value) else {}) +
      (if kw.properties.Some? && kw.properties.value.Table? then CollectProperties(kw.properties.value.entries) else {})
  }

  function CollectAll(nodes: seq<Schema>): set<Text>
    decreases nodes, 0
  {
    if nodes == [] then {} else CollectAll(nodes[..|nodes| - 1]) + CollectRefs(nodes[|nodes| - 1])
  }

  function CollectProperties(entries: seq<Property>): set<Text>
    decreases entries, 0
  {
    if entries == [] then {}
    else CollectProperties(entries[..|entries| - 1]) + CollectRefs(entries[|entries| - 1].schema)
  }

  lemma PairRefs(list: seq<Schema>)
    requires |list| == 2 && list[1] == NULL_SCHEMA
    ensures CollectAll(list) == CollectRefs(list[0])
  {
    assert list[..1] == [list[0]] && [list[0]][..0] == [];
    assert CollectAll([list[0]]) == CollectAll([]) + CollectRefs(list[0]);
    assert CollectAll(list) == CollectAll(list[..1]) + CollectRefs(NULL_SCHEMA);
  }

  /** A translation depends on no names but the references the document collects. */
  lemma {:induction false} TranslateUses(names: set<Text>, names': set<Text>, node: Schema)
    requires Translate(names, node).Ok?
    ensures CollectRefs(node) <= names
    ensures CollectRefs(node) <= names' ==> Translate(names', node) == Translate(names, node)
    decreases node, 1
  {
    var kw := node.kw;
    if kw.ref.Some? {
    } else if kw.anyOf.Some? {
      PairRefs(kw.anyOf.value.list);
      TranslateUses(names, names', kw.anyOf.value.list[0]);
    } else if kw.constant.Some? {
    } else if kw.typ == Some(ArrayType) {
      TranslateUses(names, names', kw.items.value);
    } else if IsStrict(kw) {
      FieldsUse(names, names', kw.properties.value.entries, kw.required.value.items);
    } else {
      ScalarUsesNothing(kw);
    }
  }

  lemma ScalarUsesNothing(kw: Keywords)
    requires TranslateScalar(kw).Ok?
    ensures CollectRefs(Node(kw)) == {} && kw.ref.None?
  {
  }

  lemma {:induction false} FieldsUse(names: set<Text>, names': set<Text>, entries: seq<Property>, required: seq<Json>)
    requires TranslateFields(names, entries, required).Ok?
    ensures CollectProperties(entries) <= names
    ensures CollectProperties(entries) <= names' ==>
      TranslateFields(names', entries, required) == TranslateFields(names, entries, required)
    decreases entries, 0
  {
    if entries != [] {
      FieldsUse(names, names', entries[..|entries| - 1], required);
      TranslateUses(names, names', entries[|entries| - 1].schema);
    }
  }

  lemma {:induction false} AllUse(names: set<Text>, names': set<Text>, nodes: seq<Schema>)
    requires TranslateAll(names, nodes).Ok?
    ensures CollectAll(nodes) <= names
    ensures CollectAll(nodes) <= names' ==> TranslateAll(names', nodes) == TranslateAll(names, nodes)
    decreases nodes, 0
  {
    if nodes != [] {
      AllUse(names, names', nodes[..|nodes| - 1]);
      TranslateUses(names, names', nodes[|nodes| - 1]);
    }
  }

  lemma TopLevelUses(names: set<Text>, names': set<Text>, node: Schema)
    requires TranslateTopLevel(names, node).Ok?
    ensures CollectRefs(node) <= names
    ensures CollectRefs(node) <= names' ==> TranslateTopLevel(names', node) == TranslateTopLevel(names, node)
  {
    if node.Node? && node.kw.oneOf.Some? {
      OneOfGuard(names, node, TranslateTopLevel(names, node).value);
      AllUse(names, names', node.kw.oneOf.value.list);
      assert CollectRefs(node) == CollectAll(node.kw.oneOf.value.list);
    } else {
      TranslateUses(names, names', node);
    }
  }

  // ----- Evaluating the emitted modules ----------------------------------------------------------

  /** Evaluates the constants one after another; a constant is bound only once it is evaluated. */
  function EvalModules(compiles: Text -> bool, defs: Definitions, order: seq<Text>)
      : (r: Result<(Heap, Bindings), BuildError>)
    requires forall n :: n in order ==> n in defs
  {
    if order == [] then Ok((EMPTY_HEAP, map[]))
    else
      var (h, consts) :- EvalModules(compiles, defs, order[..|order| - 1]);
      var name := order[|order| - 1];
      match TranslateTopLevel(defs.Keys, defs[name])
      case Err(_) => Err(BadExpression)
      case Ok(e) =>
        var (h', ref) :- Eval(compiles, h, consts, e);
        Ok((h', consts[name := ref]))
  }

  /** What the frozen bundle has passed before: documents that translate, emitted with every reference
      before its user. */
  ghost predicate Emitted(defs: Definitions, order: seq<Text>) {
    && Planning.Distinct(order) && (forall n :: n in order ==> n in defs)
    && (forall n :: n in order ==> TranslateTopLevel(defs.Keys, defs[n]).Ok?)
    && forall i :: 0 <= i < |order| ==> CollectRefs(defs[order[i]]) <= Planning.Elements(order[..i])
  }

  ghost predicate AllTopLevelBuildable(compiles: Text -> bool, defs: Definitions, order: seq<Text>)
    requires forall n :: n in order ==> n in defs
  {
    forall n :: n in order ==> Buildable(compiles, defs[n])
  }

  ghost predicate NoneIsReference(defs: Definitions, order: seq<Text>)
    requires forall n :: n in order ==> n in defs
  {
    forall n :: n in order ==> !IsReference(defs[n])
  }

  /** The state after evaluating `order`: one bound schema for each name, none of them optional. */
  ghost predicate Running(h: Heap, consts: Bindings, order: seq<Text>) {
    Sound(h) && consts.Keys == Planning.Elements(order) && Bound(h, consts.Keys, consts)
  }

  lemma LastApart(order: seq<Text>)
    requires Planning.Distinct(order) && order != []
    ensures order[|order| - 1] !in order[..|order| - 1]
    ensures Planning.Elements(order) == Planning.Elements(order[..|order| - 1]) + {order[|order| - 1]}
  {
    var init := order[..|order| - 1];
    assert forall n :: n in order <==> n in init || n == order[|order| - 1];
  }

  lemma EmittedInit(defs: Definitions, order: seq<Text>)
    requires Emitted(defs, order) && order != []
    ensures Emitted(defs, order[..|order| - 1])
    ensures order[|order| - 1] !in order[..|order| - 1]
    ensures Planning.Elements(order) == Planning.Elements(order[..|order| - 1]) + {order[|order| - 1]}
    ensures CollectRefs(defs[order[|order| - 1]]) <= Planning.Elements(order[..|order| - 1])
  {
    LastApart(order);
    var init := order[..|order| - 1];
    forall i | 0 <= i < |init|
      ensures CollectRefs(defs[init[i]]) <= Planning.Elements(init[..i])
    {
      assert init[i] == order[i] && init[..i] == order[..i];
    }
  }

  /** One more constant. */
  lemma ModuleStep(compiles: Text -> bool, defs: Definitions, order: seq<Text>, h: Heap, consts: Bindings, e: Expr)
    requires Emitted(defs, order) && order != [] && Running(h, consts, order[..|order| - 1])
    requires TranslateTopLevel(defs.Keys, defs[order[|order| - 1]]) == Ok(e)
    ensures var node := defs[order[|order| - 1]];
      && TranslateTopLevel(consts.Keys, node) == Ok(e)
      && (Eval(compiles, h, consts, e).Ok? <==> Buildable(compiles, node))
      && (Eval(compiles, h, consts, e).Ok? ==>
            var (h', ref) := Eval(compiles, h, consts, e).value;
            Evaluated(h, h', ref, IsReference(node)) && Running(h', consts[order[|order| - 1] := ref], order))
  {
    var name := order[|order| - 1];
    var node := defs[name];
    EmittedInit(defs, order);
    TopLevelUses(defs.Keys, consts.Keys, node);
    TopLevelOutcome(compiles, consts.Keys, h, consts, node, e);
    if Eval(compiles, h, consts, e).Ok? {
      var (h', ref) := Eval(compiles, h, consts, e).value;
      BoundSurvives(h, h', consts.Keys, consts);
      OneMoreBound(h', consts, name, ref);
    }
  }

  lemma OneMoreBound(h: Heap, consts: Bindings, name: Text, ref: Ref)
    requires Bound(h, consts.Keys, consts) && ref < |h.nodes| && !h.nodes[ref].def.OptionalDef?
    ensures Bound(h, consts[name := ref].Keys, consts[name := ref])
    ensures consts[name := ref].Keys == consts.Keys + {name}
  {
  }

  lemma {:induction false} ModulesOutcome(compiles: Text -> bool, defs: Definitions, order: seq<Text>)
    requires Emitted(defs, order)
    ensures EvalModules(compiles, defs, order).Ok? <==> AllTopLevelBuildable(compiles, defs, order)
    ensures EvalModules(compiles, defs, order).Ok? ==>
      var (h, consts) := EvalModules(compiles, defs, order).value; Running(h, consts, order)
  {
    if order != [] {
      var init, name := order[..|order| - 1], order[|order| - 1];
      EmittedInit(defs, order);
      ModulesOutcome(compiles, defs, init);
      assert forall n :: n in order <==> n in init || n == name;
      if EvalModules(compiles, defs, init).Ok? {
        var (h, consts) := EvalModules(compiles, defs, init).value;
        ModuleStep(compiles, defs, order, h, consts, TranslateTopLevel(defs.Keys, defs[name]).value);
      }
    }
  }

  /** The index names exactly the constants evaluated so far, among the objects of the heap. */
  ghost predicate IndexesConstants(index: Names, consts: Bindings, h: Heap) {
    && (forall n :: n in consts ==> consts[n] in index && index[consts[n]] == n)
    && forall r :: r in index && r < |h.nodes| ==> exists n :: n in consts && consts[n] == r
  }

  /** Every definition is expected back from lowering the schema bound to its name. */
  ghost predicate ComesBack(defs: Definitions, order: seq<Text>, consts: Bindings, final: Heap, index: Names)
    requires Ordered(final) && forall n :: n in order ==> n in defs
  {
    forall n :: n in order ==>
      && n in consts && consts[n] < |final.nodes|
      && Lower(final, index, Defs, consts[n], true) == Expected(defs[n])
  }

  lemma OneMoreComesBack(defs: Definitions, order: seq<Text>, before: Bindings, ref: Ref, final: Heap, index: Names)
    requires Ordered(final) && order != [] && (forall n :: n in order ==> n in defs)
    requires order[|order| - 1] !in order[..|order| - 1]
    requires ComesBack(defs, order[..|order| - 1], before, final, index)
    requires ref < |final.nodes| && Lower(final, index, Defs, ref, true) == Expected(defs[order[|order| - 1]])
    ensures ComesBack(defs, order, before[order[|order| - 1] := ref], final, index)
  {
    assert forall n :: n in order <==> n in order[..|order| - 1] || n == order[|order| - 1];
  }

  lemma {:induction false} ModulesRelower(compiles: Text -> bool, defs: Definitions, order: seq<Text>,
                                          final: Heap, index: Names)
    requires Emitted(defs, order) && NoneIsReference(defs, order) && EvalModules(compiles, defs, order).Ok?
    requires var (h, consts) := EvalModules(compiles, defs, order).value;
      Later(h, final) && IndexesConstants(index, consts, h)
    ensures var (h, consts) := EvalModules(compiles, defs, order).value;
      consts.Keys == Planning.Elements(order) && ComesBack(defs, order, consts, final, index)
    decreases |order|
  {
    ModulesOutcome(compiles, defs, order);
    if order != [] {
      var init, name := order[..|order| - 1], order[|order| - 1];
      EmittedInit(defs, order);
      ModulesOutcome(compiles, defs, init);
      var (h1, before) := EvalModules(compiles, defs, init).value;
      var e := TranslateTopLevel(defs.Keys, defs[name]).value;
      assert EvalModules(compiles, defs, order).value.1 == before[name := Eval(compiles, h1, before, e).value.1];
      assert forall n :: n in init ==> n in order;
      ModuleRelowers(compiles, defs, order, h1, before, e, final, index);
      ModulesRelower(compiles, defs, init, final, index);
      OneMoreComesBack(defs, order, before, Eval(compiles, h1, before, e).value.1, final, index);
    }
  }

  /** The last module, on top of the others. */
  lemma ModuleRelowers(compiles: Text -> bool, defs: Definitions, order: seq<Text>, h1: Heap, before: Bindings,
                       e: Expr, final: Heap, index: Names)
    requires Emitted(defs, order) && order != [] && Running(h1, before, order[..|order| - 1])
    requires var name := order[|order| - 1];
      && !IsReference(defs[name]) && TranslateTopLevel(defs.Keys, defs[name]) == Ok(e)
      && Eval(compiles, h1, before, e).Ok?
      && var (h, ref) := Eval(compiles, h1, before, e).value;
         Later(h, final) && IndexesConstants(index, before[name := ref], h)
    ensures Later(h1, final) && IndexesConstants(index, before, h1)
    ensures var ref := Eval(compiles, h1, before, e).value.1;
      ref < |final.nodes| && Lower(final, index, Defs, ref, true) == Expected(defs[order[|order| - 1]])
  {
    var name := order[|order| - 1];
    var (h, ref) := Eval(compiles, h1, before, e).value;
    EmittedInit(defs, order);
    ModuleStep(compiles, defs, order, h1, before, e);
    assert name !in Planning.Elements(order[..|order| - 1]);
    IndexesEarlier(index, before, name, ref, h1, h);
    ExtendsTransitive(h1, h, final);
    TopLevelRoundTrip(compiles, before.Keys, h1, before, defs[name], e, final, index);
  }

  lemma IndexesEarlier(index: Names, before: Bindings, name: Text, ref: Ref, h1: Heap, h: Heap)
    requires name !in before && Bound(h1, before.Keys, before)
    requires IndexesConstants(index, before[name := ref], h) && |h1.nodes| <= ref && ref + 1 == |h.nodes|
    ensures IndexesConstants(index, before, h1)
    ensures IndexedOnly(index, before.Keys, before, |h1.nodes|, |h.nodes|, ref)
  {
    var consts := before[name := ref];
    forall n | n in before
      ensures before[n] in index && index[before[n]] == n && before[n] < |h1.nodes|
    {
      assert consts[n] == before[n];
    }
    forall r | r in index && r < |h.nodes|
      ensures r == ref || exists n :: n in before && before[n] == r
    {
      var n :| n in consts && consts[n] == r;
      if n != name {
        assert n in before && before[n] == r;
      }
    }
  }

  // ----- The catalog -----------------------------------------------------------------------------

  /** The catalog lists every schema constant under its name. */
  function CatalogOf(ordered: seq<Text>, consts: Bindings): Catalog
    requires forall n :: n in ordered ==> n in consts
  {
    seq(|ordered|, i requires 0 <= i < |ordered| => Entry(ordered[i], consts[ordered[i]]))
  }

  lemma {:induction false} ConstantsDistinct(compiles: Text -> bool, defs: Definitions, order: seq<Text>)
    requires Emitted(defs, order) && NoneIsReference(defs, order) && EvalModules(compiles, defs, order).Ok?
    ensures var (h, consts) := EvalModules(compiles, defs, order).value;
      && consts.Keys == Planning.Elements(order)
      && (forall n :: n in consts ==> consts[n] < |h.nodes|)
      && forall m, n :: m in consts && n in consts && m != n ==> consts[m] != consts[n]
    decreases |order|
  {
    ModulesOutcome(compiles, defs, order);
    if order != [] {
      var init, name := order[..|order| - 1], order[|order| - 1];
      EmittedInit(defs, order);
      ConstantsDistinct(compiles, defs, init);
      ModulesOutcome(compiles, defs, init);
      var (h1, before) := EvalModules(compiles, defs, init).value;
      ModuleStep(compiles, defs, order, h1, before, TranslateTopLevel(defs.Keys, defs[name]).value);
    }
  }

  /** A bare reference is the very object it names, which the catalog then holds twice. */
  lemma {:induction false} ReferenceRepeats(compiles: Text -> bool, defs: Definitions, order: seq<Text>, name: Text)
    returns (other: Text)
    requires Emitted(defs, order) && EvalModules(compiles, defs, order).Ok?
    requires name in order && IsReference(defs[name])
    ensures other in order && other != name
    ensures var consts := EvalModules(compiles, defs, order).value.1;
      name in consts && other in consts && consts[other] == consts[name]
    decreases |order|
  {
    var init, last := order[..|order| - 1], order[|order| - 1];
    EmittedInit(defs, order);
    ModulesOutcome(compiles, defs, init);
    var (h1, before) := EvalModules(compiles, defs, init).value;
    ModuleStep(compiles, defs, order, h1, before, TranslateTopLevel(defs.Keys, defs[last]).value);
    assert forall n :: n in order <==> n in init || n == last;
    if name != last {
      other := ReferenceRepeats(compiles, defs, init, name);
    } else {
      other := ReferenceTarget(before.Keys, defs[name]);
      assert other in Planning.Elements(init);
    }
  }

  lemma ReferenceTarget(names: set<Text>, node: Schema) returns (target: Text)
    requires IsReference(node) && TranslateTopLevel(names, node).Ok?
    ensures TranslateTopLevel(names, node) == Ok(NamedSchema(target)) && target in names
  {
    target := TranslateReference(names, node.kw).value.name;
  }

  lemma RepeatedSchemas(ordered: seq<Text>, consts: Bindings, name: Text, other: Text)
    requires (forall n :: n in ordered ==> n in consts) && name in ordered && other in ordered && other != name
    requires consts[other] == consts[name]
    ensures !DistinctEntries(CatalogOf(ordered, consts))
  {
    var i :| 0 <= i < |ordered| && ordered[i] == name;
    var j :| 0 <= j < |ordered| && ordered[j] == other;
    var catalog := CatalogOf(ordered, consts);
    assert catalog[i].schema == consts[name] && catalog[j].schema == consts[other];
    assert i < j || j < i;
  }

  ghost predicate AllEnumsOrdered(defs: Definitions, order: seq<Text>)
    requires forall n :: n in order ==> n in defs
  {
    forall n :: n in order ==> EnumsInOrder(defs[n])
  }

  lemma ConstantsExist(compiles: Text -> bool, defs: Definitions, order: seq<Text>)
    requires Emitted(defs, order) && EvalModules(compiles, defs, order).Ok?
    ensures var (h, consts) := EvalModules(compiles, defs, order).value;
      forall n :: n in consts ==> consts[n] < |h.nodes|
  {
    ModulesOutcome(compiles, defs, order);
  }

  lemma DistinctBundle(compiles: Text -> bool, defs: Definitions, ordered: seq<Text>, order: seq<Text>)
    requires Emitted(defs, order) && NoneIsReference(defs, order) && EvalModules(compiles, defs, order).Ok?
    requires Planning.Distinct(ordered) && forall n :: n in ordered <==> n in order
    ensures var (h, consts) := EvalModules(compiles, defs, order).value;
      && (forall n :: n in ordered <==> n in consts)
      && Present(h, CatalogOf(ordered, consts)) && DistinctEntries(CatalogOf(ordered, consts))
  {
    var (h, consts) := EvalModules(compiles, defs, order).value;
    ConstantsDistinct(compiles, defs, order);
    assert forall n :: n in order <==> n in Planning.Elements(order);
    CatalogDistinct(ordered, consts, h);
  }

  lemma IndexedBundle(compiles: Text -> bool, defs: Definitions, ordered: seq<Text>, order: seq<Text>,
                      index: Names, h: Heap, consts: Bindings)
    requires Emitted(defs, order) && NoneIsReference(defs, order)
    requires EvalModules(compiles, defs, order) == Ok((h, consts)) && Running(h, consts, order)
    requires (forall n :: n in ordered <==> n in defs) && (forall n :: n in order <==> n in defs)
    requires consts.Keys == defs.Keys && Present(h, CatalogOf(ordered, consts))
    requires Indexes(CatalogOf(ordered, consts), index)
    ensures CatalogLowers(h, index, Defs, CatalogOf(ordered, consts), defs) <==> AllEnumsOrdered(defs, order)
    ensures Lowerable(h, index, Defs, CatalogOf(ordered, consts)) <==> AllEnumsOrdered(defs, order)
  {
    IndexOfCatalog(ordered, consts, index, h);
    ExtendsReflexive(h);
    ModulesRelower(compiles, defs, order, h, index);
    CatalogComesBack(defs, ordered, order, consts, index, h);
  }

  lemma CatalogPresent(ordered: seq<Text>, consts: Bindings, h: Heap)
    requires (forall n :: n in ordered ==> n in consts) && forall n :: n in consts ==> consts[n] < |h.nodes|
    ensures Present(h, CatalogOf(ordered, consts))
  {
  }

  /** Main result of the port: the emitted modules evaluate exactly when the builders take every
      definition; the catalog is then accepted exactly when no definition is a bare reference; and its
      lowering is the frozen bundle again exactly when every enum is in key order. */
  lemma BundleReproduced(compiles: Text -> bool, defs: Definitions, ordered: seq<Text>, order: seq<Text>,
                         index: Names)
    requires Emitted(defs, order) && Planning.Elements(order) == defs.Keys
    requires Planning.Distinct(ordered) && Planning.Elements(ordered) == defs.Keys
    ensures EvalModules(compiles, defs, order).Ok? <==> AllTopLevelBuildable(compiles, defs, order)
    ensures EvalModules(compiles, defs, order).Ok? ==>
      var (h, consts) := EvalModules(compiles, defs, order).value;
      && Running(h, consts, order) && (forall n :: n in ordered ==> n in consts)
      && var catalog := CatalogOf(ordered, consts);
         && Present(h, catalog) && (DistinctEntries(catalog) <==> NoneIsReference(defs, order))
         && (DistinctEntries(catalog) && Indexes(catalog, index) ==>
               && (CatalogLowers(h, index, Defs, catalog, defs) <==> AllEnumsOrdered(defs, order))
               && (Lowerable(h, index, Defs, catalog) <==> AllEnumsOrdered(defs, order)))
  {
    ModulesOutcome(compiles, defs, order);
    assert forall n :: n in ordered <==> n in Planning.Elements(ordered);
    assert forall n :: n in order <==> n in Planning.Elements(order);
    if EvalModules(compiles, defs, order).Ok? {
      var (h, consts) := EvalModules(compiles, defs, order).value;
      if NoneIsReference(defs, order) {
        DistinctBundle(compiles, defs, ordered, order);
        if Indexes(CatalogOf(ordered, consts), index) {
          IndexedBundle(compiles, defs, ordered, order, index, h, consts);
        }
      } else {
        ConstantsExist(compiles, defs, order);
        var name :| name in order && IsReference(defs[name]);
        var other := ReferenceRepeats(compiles, defs, order, name);
        RepeatedSchemas(ordered, consts, name, other);
        CatalogPresent(ordered, consts, h);
      }
    }
  }

  lemma CatalogDistinct(ordered: seq<Text>, consts: Bindings, h: Heap)
    requires Planning.Distinct(ordered) && (forall n :: n in ordered ==> n in consts)
    requires forall n :: n in consts ==> consts[n] < |h.nodes|
    requires forall m, n :: m in consts && n in consts && m != n ==> consts[m] != consts[n]
    ensures Present(h, CatalogOf(ordered, consts)) && DistinctEntries(CatalogOf(ordered, consts))
  {
  }

  lemma IndexOfCatalog(ordered: seq<Text>, consts: Bindings, index: Names, h: Heap)
    requires (forall n :: n in ordered <==> n in consts) && Indexes(CatalogOf(ordered, consts), index)
    ensures IndexesConstants(index, consts, h)
  {
    var catalog := CatalogOf(ordered, consts);
    forall n | n in consts
      ensures consts[n] in index && index[consts[n]] == n
    {
      var i :| 0 <= i < |ordered| && ordered[i] == n;
      assert catalog[i] == Entry(n, consts[n]);
    }
    forall r | r in index
      ensures exists n :: n in consts && consts[n] == r
    {
      var i :| 0 <= i < |catalog| && catalog[i].schema == r;
      assert ordered[i] in consts;
    }
  }

  lemma CatalogComesBack(defs: Definitions, ordered: seq<Text>, order: seq<Text>, consts: Bindings,
                         index: Names, h: Heap)
    requires (forall n :: n in ordered <==> n in defs) && (forall n :: n in order <==> n in defs)
    requires consts.Keys == defs.Keys && Sound(h) && Present(h, CatalogOf(ordered, consts))
    requires forall n :: n in order ==>
      consts[n] < |h.nodes| && Lower(h, index, Defs, consts[n], true) == Expected(defs[n])
    ensures CatalogLowers(h, index, Defs, CatalogOf(ordered, consts), defs) <==> AllEnumsOrdered(defs, order)
    ensures Lowerable(h, index, Defs, CatalogOf(ordered, consts)) <==> AllEnumsOrdered(defs, order)
  {
    var catalog := CatalogOf(ordered, consts);
    forall n | n in order
      ensures exists i :: 0 <= i < |catalog| && catalog[i] == Entry(n, consts[n])
    {
      var i :| 0 <= i < |ordered| && ordered[i] == n;
      assert catalog[i] == Entry(n, consts[n]);
    }
    forall i | 0 <= i < |catalog|
      ensures catalog[i].name in order && catalog[i].schema == consts[catalog[i].name]
    {
      assert ordered[i] in ordered;
    }
  }

  /** The emission of an accepted plan is such an order, when no references lead from ProductionContext back
      to itself. */
  lemma PlannedEmission(defs: Definitions, ordered: seq<Text>, deps: Planning.Graph<Text>, target: Text,
                        plan: ModulePlan.Plan<Text>)
    requires Planning.Elements(ordered) == defs.Keys && target in ordered
    requires deps == map n | n in defs :: CollectRefs(defs[n])
    requires forall n :: n in defs ==> TranslateTopLevel(defs.Keys, defs[n]).Ok?
    requires ModulePlan.Grouped(ordered, deps, target, plan) && !ModulePlan.Reaches(ordered, deps, target, target)
    ensures Emitted(defs, ModulePlan.Emission(plan, target))
    ensures Planning.Elements(ModulePlan.Emission(plan, target)) == defs.Keys
  {
    var order := ModulePlan.Emission(plan, target);
    assert forall n :: n in order <==> n in Planning.Elements(order);
    assert forall n :: n in ordered <==> n in Planning.Elements(ordered);
    forall n | n in ordered
      ensures Planning.References(deps, n) <= Planning.Elements(ordered)
    {
      TopLevelUses(defs.Keys, {}, defs[n]);
    }
    ModulePlan.PlanOrdersAll(ordered, deps, target, plan);
    forall i | 0 <= i < |order|
      ensures CollectRefs(defs[order[i]]) <= Planning.Elements(order[..i])
    {
      assert order[i] in order;
      TopLevelUses(defs.Keys, {}, defs[order[i]]);
      assert Planning.InGroup(ordered, deps, order[i]) == CollectRefs(defs[order[i]]);
    }
  }

  // ----- Where the port does not give the node back ----------------------------------------------

  const INDEX_NAME_ENUM: Schema :=
    Node(NO_KEYWORDS.(typ := Some(StringType), enumeration := Some(Arr([Str([0x61]), Str([0x30])]))))

  lemma IndexNameOutOfOrder()
    ensures Translate({}, INDEX_NAME_ENUM) == Ok(Enum([[0x61], [0x30]])) && !EnumsInOrder(INDEX_NAME_ENUM)
  {
    var values: seq<Text> := [[0x61], [0x30]];
    assert Strings([Str([0x61]), Str([0x30])]) == values;
    assert IndexValue([0x30]) == 10 * IndexValue([0x30][..0]);
    assert !Precedes(values[0], values[1]);
  }

  /** The enum of "a" and "0" translates and evaluates, and the lowering refuses it: JavaScript lists the
      entry 0 first. */
  lemma IndexNameEnumRefused(compiles: Text -> bool)
    ensures Translate({}, INDEX_NAME_ENUM).Ok?
    ensures var outcome := Eval(compiles, EMPTY_HEAP, map[], Translate({}, INDEX_NAME_ENUM).value);
      && outcome.Ok? && Sound(outcome.value.0) && outcome.value.1 < |outcome.value.0.nodes|
      && Lower(outcome.value.0, map[], Defs, outcome.value.1, true) == Err(EntriesDiffer)
  {
    IndexNameOutOfOrder();
    var e := Enum([[0x61], [0x30]]);
    assert Buildable(compiles, INDEX_NAME_ENUM);
    EvalOutcome(compiles, {}, EMPTY_HEAP, map[], INDEX_NAME_ENUM, e);
    var (h, ref) := Eval(compiles, EMPTY_HEAP, map[], e).value;
    ExtendsReflexive(h);
    Relowers(compiles, {}, EMPTY_HEAP, map[], INDEX_NAME_ENUM, e, h, map[]);
  }

  /** A boolean under the name A and a bare reference to it under B pass every test of the port, and the
      catalog of the evaluated modules is refused. */
  lemma BareReferenceRefused(compiles: Text -> bool)
    ensures var defs: Definitions := map[[0x41] := Node(NO_KEYWORDS.(typ := Some(BooleanType))),
                                         [0x42] := RefSchema(Defs, [0x41])];
      var order: seq<Text> := [[0x41], [0x42]];
      && Emitted(defs, order) && EvalModules(compiles, defs, order).Ok?
      && var consts := EvalModules(compiles, defs, order).value.1;
         [0x41] in consts && [0x42] in consts && !DistinctEntries(CatalogOf(order, consts))
  {
    var a: Text, b: Text := [0x41], [0x42];
    var defs: Definitions := map[a := Node(NO_KEYWORDS.(typ := Some(BooleanType))), b := RefSchema(Defs, a)];
    var order: seq<Text> := [a, b];
    assert TranslateTopLevel(defs.Keys, defs[b]) == Ok(NamedSchema(a));
    assert CollectRefs(defs[b]) == {a} && order[..1] == [a] && CollectRefs(defs[a]) == {};
    assert Emitted(defs, order);
    ModulesOutcome(compiles, defs, order);
    var consts := EvalModules(compiles, defs, order).value.1;
    assert a in order && b in order && IsReference(defs[b]);
    var other := ReferenceRepeats(compiles, defs, order, b);
    RepeatedSchemas(order, consts, b, other);
  }
}
