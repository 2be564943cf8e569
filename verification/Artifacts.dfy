/**
 * The catalog of named schemas and its lowering: the definitions of the JSON Schema bundle and the
 * component schemas of the OpenAPI document.
 */
module Artifacts {
  import opened Wrappers
  import opened Utf16
  import opened JsonSchema
  import opened Wire
  import opened Lowering
  import opened Meaning

  datatype Entry = Entry(name: Text, schema: Ref)

  datatype CatalogError = DuplicateName | DuplicateSchema | Refused(name: Text, refusal: Refusal)

  type Catalog = seq<Entry>

  ghost predicate Present(h: Heap, catalog: Catalog) {
    forall i :: 0 <= i < |catalog| ==> catalog[i].schema < |h.nodes|
  }

  ghost predicate DistinctEntries(catalog: Catalog) {
    forall i, j :: 0 <= i < j < |catalog| ==>
      catalog[i].name != catalog[j].name && catalog[i].schema != catalog[j].schema
  }

  /** `names` is the index of the catalog: each schema object under its one name, and nothing else. */
  ghost predicate Indexes(catalog: Catalog, names: Names) {
    && (forall i :: 0 <= i < |catalog| ==> catalog[i].schema in names && names[catalog[i].schema] == catalog[i].name)
    && forall c :: c in names ==> exists i :: 0 <= i < |catalog| && catalog[i].schema == c
  }

  /** The loop state after the entries so far: their index and the names seen. */
  ghost predicate IndexState(catalog: Catalog, names: Names, seen: set<Text>) {
    DistinctEntries(catalog) && Indexes(catalog, names) && seen == set e | e in catalog :: e.name
  }

  method CatalogIndex(catalog: Catalog) returns (r: Result<Names, CatalogError>)
    ensures r.Ok? <==> DistinctEntries(catalog)
    ensures r.Ok? ==> Indexes(catalog, r.value)
  {
    var names: Names, seen: set<Text> := map[], {};
    for i := 0 to |catalog|
      invariant IndexState(catalog[..i], names, seen)
    {
      var Entry(name, schema) := catalog[i];
      assert catalog[..i + 1] == catalog[..i] + [catalog[i]];
      if name in seen || schema in names {
        IndexClash(catalog, i, names, seen);
        return Err(if name in seen then DuplicateName else DuplicateSchema);
      }
      IndexStep(catalog[..i], catalog[i], names, seen);
      seen := seen + {name};
      names := names[schema := name];
    }
    assert catalog[..|catalog|] == catalog;
    return Ok(names);
  }

  lemma IndexClash(catalog: Catalog, i: nat, names: Names, seen: set<Text>)
    requires i < |catalog| && IndexState(catalog[..i], names, seen)
    requires catalog[i].name in seen || catalog[i].schema in names
    ensures !DistinctEntries(catalog)
  {
    var init := catalog[..i];
    if catalog[i].name in seen {
      var e :| e in init && e.name == catalog[i].name;
      var j :| 0 <= j < |init| && init[j] == e;
      assert catalog[j].name == catalog[i].name;
    } else {
      var j :| 0 <= j < |init| && init[j].schema == catalog[i].schema;
      assert catalog[j].schema == catalog[i].schema;
    }
  }

  lemma IndexStep(init: Catalog, entry: Entry, names: Names, seen: set<Text>)
    requires IndexState(init, names, seen) && entry.name !in seen && entry.schema !in names
    ensures IndexState(init + [entry], names[entry.schema := entry.name], seen + {entry.name})
  {
    var next, names' := init + [entry], names[entry.schema := entry.name];
    forall i | 0 <= i < |init|
      ensures init[i].name != entry.name && init[i].schema != entry.schema
    {
      assert init[i] in init;
    }
    forall c | c in names'
      ensures exists j :: 0 <= j < |next| && next[j].schema == c
    {
      if c == entry.schema {
        assert next[|init|].schema == c;
      } else {
        var j :| 0 <= j < |init| && init[j].schema == c;
        assert next[j].schema == c;
      }
    }
    assert forall e :: e in next <==> e in init || e == entry;
  }

  lemma LastIsNew(catalog: Catalog, names: Names)
    requires DistinctEntries(catalog) && catalog != [] && Indexes(catalog[..|catalog| - 1], names)
    ensures DistinctEntries(catalog[..|catalog| - 1])
    ensures catalog[|catalog| - 1].schema !in names
    ensures forall e :: e in catalog[..|catalog| - 1] ==> e.name != catalog[|catalog| - 1].name
  {
    var init, last := catalog[..|catalog| - 1], catalog[|catalog| - 1];
    assert forall i :: 0 <= i < |init| ==> init[i] == catalog[i];
  }

  lemma {:induction false} IndexExists(catalog: Catalog) returns (names: Names)
    requires DistinctEntries(catalog)
    ensures Indexes(catalog, names)
    decreases |catalog|
  {
    names := map[];
    if catalog != [] {
      var init, last := catalog[..|catalog| - 1], catalog[|catalog| - 1];
      names := IndexExists(init);
      var seen := set e | e in init :: e.name;
      LastIsNew(catalog, names);
      IndexStep(init, last, names, seen);
      names := names[last.schema := last.name];
      assert init + [last] == catalog;
    }
  }

  /** Every entry lowers, and `defs` holds exactly the results under the entries' names. */
  ghost predicate CatalogLowers(h: Heap, names: Names, prefix: Prefix, catalog: Catalog, defs: map<Text, Schema>)
    requires Ordered(h) && Present(h, catalog)
  {
    && (forall i :: 0 <= i < |catalog| ==>
          catalog[i].name in defs && Lower(h, names, prefix, catalog[i].schema, true) == Ok(defs[catalog[i].name]))
    && forall n :: n in defs ==> exists i :: 0 <= i < |catalog| && catalog[i].name == n
  }

  ghost predicate Lowerable(h: Heap, names: Names, prefix: Prefix, catalog: Catalog)
    requires Ordered(h) && Present(h, catalog)
  {
    forall i :: 0 <= i < |catalog| ==> Lower(h, names, prefix, catalog[i].schema, true).Ok?
  }

  method LowerCatalog(h: Heap, catalog: Catalog, prefix: Prefix) returns (r: Result<map<Text, Schema>, CatalogError>)
    requires Ordered(h) && Present(h, catalog)
    ensures r.Ok? ==> DistinctEntries(catalog)
    ensures forall names :: Indexes(catalog, names) ==>
      (r.Ok? <==> DistinctEntries(catalog) && Lowerable(h, names, prefix, catalog))
      && (r.Ok? ==> CatalogLowers(h, names, prefix, catalog, r.value))
  {
    var index := CatalogIndex(catalog);
    if index.Err? {
      return Err(index.error);
    }
    var names := index.value;
    forall other | Indexes(catalog, other)
      ensures other == names
    {
      SameIndex(catalog, names, other);
    }
    var out: map<Text, Schema> := map[];
    for i := 0 to |catalog|
      invariant CatalogLowers(h, names, prefix, catalog[..i], out)
    {
      var Entry(name, schema) := catalog[i];
      var lowered := LowerSchema(h, names, prefix, schema, true);
      if lowered.Err? {
        return Err(Refused(name, lowered.error));
      }
      CatalogStep(h, names, prefix, catalog, i, out, lowered.value);
      out := out[name := lowered.value];
    }
    assert catalog[..|catalog|] == catalog;
    return Ok(out);
  }

  lemma SameIndex(catalog: Catalog, a: Names, b: Names)
    requires Indexes(catalog, a) && Indexes(catalog, b)
    ensures a == b
  {
    forall c
      ensures c in a <==> c in b
      ensures c in a ==> a[c] == b[c]
    {
      if c in a {
        var i :| 0 <= i < |catalog| && catalog[i].schema == c;
      }
      if c in b {
        var i :| 0 <= i < |catalog| && catalog[i].schema == c;
      }
    }
  }

  lemma CatalogStep(h: Heap, names: Names, prefix: Prefix, catalog: Catalog, i: nat,
                    out: map<Text, Schema>, lowered: Schema)
    requires Ordered(h) && Present(h, catalog) && DistinctEntries(catalog) && i < |catalog|
    requires CatalogLowers(h, names, prefix, catalog[..i], out)
    requires Lower(h, names, prefix, catalog[i].schema, true) == Ok(lowered)
    ensures CatalogLowers(h, names, prefix, catalog[..i + 1], out[catalog[i].name := lowered])
  {
    var next, out' := catalog[..i + 1], out[catalog[i].name := lowered];
    forall j | 0 <= j < |next|
      ensures next[j].name in out' && Lower(h, names, prefix, next[j].schema, true) == Ok(out'[next[j].name])
    {
      if j < i {
        assert next[j] == catalog[..i][j];
        assert next[j].name != catalog[i].name;
      }
    }
    forall n | n in out'
      ensures exists j :: 0 <= j < |next| && next[j].name == n
    {
      if n == catalog[i].name {
        assert next[i].name == n;
      } else {
        var j :| 0 <= j < i && catalog[..i][j].name == n;
        assert next[j].name == n;
      }
    }
  }

  // ----- The bundle means what the builders check ------------------------------------------------

  lemma CatalogResolves(h: Heap, names: Names, prefix: Prefix, catalog: Catalog, defs: map<Text, Schema>)
    requires Ordered(h) && Present(h, catalog) && Indexes(catalog, names)
    requires CatalogLowers(h, names, prefix, catalog, defs)
    ensures Resolves(h, names, prefix, defs)
  {
    forall c | c in names
      ensures Resolved(h, names, prefix, defs, c)
    {
      var i :| 0 <= i < |catalog| && catalog[i].schema == c;
    }
  }

  /** Main result: a value that a catalog schema accepts is valid against the definition of that name in the
      bundle, and the other way round where every union in reach has a dispatch table; however many
      references may be followed beyond the number of schema objects. */
  lemma BundleMeaning(w: World, h: Heap, names: Names, prefix: Prefix, catalog: Catalog, defs: map<Text, Schema>,
                      scope: set<Ref>, exact: bool, i: nat, hops: nat, v: Json)
    requires Sound(h) && Present(h, catalog) && Indexes(catalog, names)
    requires CatalogLowers(h, names, prefix, catalog, defs)
    requires i < |catalog| && hops >= |h.nodes|
    requires InScope(h, scope, exact) && catalog[i].schema in scope
    ensures Agree(exact, Accepts(w, h, catalog[i].schema, Some(v)),
                  Valid(w.oracle, defs, hops, defs[catalog[i].name], v))
  {
    CatalogResolves(h, names, prefix, catalog, defs);
    Agreement(w, h, names, prefix, defs, scope, exact, hops, catalog[i].schema, true, v);
  }

  // ----- Foreign checks --------------------------------------------------------------------------

  lemma BuilderTests(l: Wire.Lowering, i: nat)
    requires i < |TestsOf(l)|
    ensures !TestsOf(l)[i].Foreign?
  {
  }

  lemma SamePasses(w: World, w': World, t: Test, v: Option<Json>)
    requires !t.Foreign? && w.oracle == w'.oracle
    ensures Passes(w, t, v) <==> Passes(w', t, v)
  {
  }

  /** The registered checks do not depend on what lies outside the builders. */
  lemma SameChecks(w: World, w': World, h: Heap, ref: Ref, v: Option<Json>)
    requires Sound(h) && ref < |h.nodes| && ref in h.registrations && w.oracle == w'.oracle
    requires h.nodes[ref].checks == h.registrations[ref].checks
    ensures AllPass(w, h, h.nodes[ref].checks, v) <==> AllPass(w', h, h.nodes[ref].checks, v)
  {
    assert RegisteredWell(h, ref);
    var checks, l := h.nodes[ref].checks, h.registrations[ref].lowering;
    forall i | 0 <= i < |checks|
      ensures Passes(w, h.tests[checks[i]], v) <==> Passes(w', h.tests[checks[i]], v)
    {
      BuilderTests(l, i);
      SamePasses(w, w', TestsOf(l)[i], v);
    }
  }

  lemma {:induction false} SameAcceptance(w: World, w': World, h: Heap, names: Names, prefix: Prefix,
                                          defs: map<Text, Schema>, ref: Ref, root: bool, v: Option<Json>)
    requires Lowered(h, names, prefix, defs) && ref < |h.nodes| && Lower(h, names, prefix, ref, root).Ok?
    requires w.oracle == w'.oracle
    ensures Accepts(w, h, ref, v) <==> Accepts(w', h, ref, v)
    decreases ref, 1
  {
    LoweredDef(h, names, prefix, defs, ref, root);
    SameChildren(w, w', h, names, prefix, defs, ref, v);
    SameNode(w, w', h, ref, v);
  }

  lemma {:induction false} SameChildren(w: World, w': World, h: Heap, names: Names, prefix: Prefix,
                                        defs: map<Text, Schema>, ref: Ref, v: Option<Json>)
    requires Lowered(h, names, prefix, defs) && ref < |h.nodes| && LowerDef(h, names, prefix, ref).Ok?
    requires w.oracle == w'.oracle
    ensures forall c, x :: Child(h, ref, c) && (h.nodes[ref].def.ArrayDef? || h.nodes[ref].def.ObjectDef? || x == v) ==>
      (Accepts(w, h, c, x) <==> Accepts(w', h, c, x))
    decreases ref, 0, 1
  {
    match h.nodes[ref].def
    case ArrayDef(element) =>
      forall x
        ensures Accepts(w, h, element, x) <==> Accepts(w', h, element, x)
      {
        SameAcceptance(w, w', h, names, prefix, defs, element, false, x);
      }
    case NullableDef(inner) =>
      SameAcceptance(w, w', h, names, prefix, defs, inner, false, v);
    case ObjectDef(shape, _) =>
      SameSlots(w, w', h, names, prefix, defs, ref);
    case UnionDef(options, _, _, _) =>
      AllLowered(h, names, prefix, options, ref);
      forall i | 0 <= i < |options|
        ensures Accepts(w, h, options[i], v) <==> Accepts(w', h, options[i], v)
      {
        SameAcceptance(w, w', h, names, prefix, defs, options[i], false, v);
      }
    case _ =>
  }

  lemma {:induction false} SameSlots(w: World, w': World, h: Heap, names: Names, prefix: Prefix,
                                     defs: map<Text, Schema>, ref: Ref)
    requires Lowered(h, names, prefix, defs) && ref < |h.nodes| && w.oracle == w'.oracle
    requires h.nodes[ref].def.ObjectDef? && LowerSlots(h, names, prefix, h.nodes[ref].def.shape, ref).Ok?
    ensures forall i, x :: 0 <= i < |h.nodes[ref].def.shape| ==>
      (Accepts(w, h, h.nodes[ref].def.shape[i].schema, x) <==> Accepts(w', h, h.nodes[ref].def.shape[i].schema, x))
    decreases ref, 0, 0
  {
    var shape := h.nodes[ref].def.shape;
    SlotsLowered(h, names, prefix, shape, ref);
    forall i, x | 0 <= i < |shape|
      ensures Accepts(w, h, shape[i].schema, x) <==> Accepts(w', h, shape[i].schema, x)
    {
      SameAcceptance(w, w', h, names, prefix, defs, Unwrapped(h, shape[i].schema), false, x);
    }
  }

  /** A permitted schema whose parts accept the same accepts the same. */
  lemma SameNode(w: World, w': World, h: Heap, ref: Ref, v: Option<Json>)
    requires Sound(h) && ref < |h.nodes| && Permitted(h, ref) && w.oracle == w'.oracle
    requires forall c, x ::
      Child(h, ref, c) && (h.nodes[ref].def.ArrayDef? || h.nodes[ref].def.ObjectDef? || x == v) ==>
      (Accepts(w, h, c, x) <==> Accepts(w', h, c, x))
    ensures Accepts(w, h, ref, v) <==> Accepts(w', h, ref, v)
  {
    SameParts(w, w', h, ref, v);
    if !h.nodes[ref].def.NullableDef? {
      SameChecks(w, w', h, ref, v);
    }
    assert Accepts(w, h, ref, v) <==> AcceptsDef(w, h, ref, v) && AllPass(w, h, h.nodes[ref].checks, v);
    assert Accepts(w', h, ref, v) <==> AcceptsDef(w', h, ref, v) && AllPass(w', h, h.nodes[ref].checks, v);
  }

  lemma NeverAccepts(w: World, h: Heap, ref: Ref, x: Option<Json>)
    requires Ordered(h) && ref < |h.nodes| && h.nodes[ref].def.NeverDef?
    ensures !Accepts(w, h, ref, x)
  {
  }

  lemma SameParts(w: World, w': World, h: Heap, ref: Ref, v: Option<Json>)
    requires Ordered(h) && ref < |h.nodes| && Permitted(h, ref)
    requires forall c, x ::
      Child(h, ref, c) && (h.nodes[ref].def.ArrayDef? || h.nodes[ref].def.ObjectDef? || x == v) ==>
      (Accepts(w, h, c, x) <==> Accepts(w', h, c, x))
    ensures AcceptsDef(w, h, ref, v) <==> AcceptsDef(w', h, ref, v)
  {
    match h.nodes[ref].def
    case ArrayDef(element) => assert Child(h, ref, element);
    case NullableDef(inner) => assert Child(h, ref, inner);
    case ObjectDef(shape, catchall) =>
      assert forall i :: 0 <= i < |shape| ==> Child(h, ref, shape[i].schema);
      forall x
        ensures !Accepts(w, h, catchall.value, x) && !Accepts(w', h, catchall.value, x)
      {
        NeverAccepts(w, h, catchall.value, x);
        NeverAccepts(w', h, catchall.value, x);
      }
    case UnionDef(options, discriminator, _, _) =>
      assert forall i :: 0 <= i < |options| ==> Child(h, ref, options[i]);
      if v.Some? {
        assert DispatchAccepts(w, h, options, discriminator.value, ref, v.value)
          <==> DispatchAccepts(w', h, options, discriminator.value, ref, v.value);
      }
    case _ =>
  }

  /** Nothing outside the builders has a say in what a lowered schema accepts. */
  lemma ForeignChecksHaveNoSay(w: World, w': World, h: Heap, names: Names, prefix: Prefix, catalog: Catalog,
                               defs: map<Text, Schema>, i: nat, v: Option<Json>)
    requires Sound(h) && Present(h, catalog) && Indexes(catalog, names)
    requires CatalogLowers(h, names, prefix, catalog, defs)
    requires i < |catalog| && w.oracle == w'.oracle
    ensures Accepts(w, h, catalog[i].schema, v) <==> Accepts(w', h, catalog[i].schema, v)
  {
    CatalogResolves(h, names, prefix, catalog, defs);
    SameAcceptance(w, w', h, names, prefix, defs, catalog[i].schema, true, v);
  }

  // ----- The lowering fails closed ---------------------------------------------------------------

  ghost predicate Descent(h: Heap, path: seq<Ref>) {
    (forall i :: 0 <= i < |path| ==> path[i] < |h.nodes|) &&
    forall i :: 0 <= i < |path| - 1 ==> Child(h, path[i], path[i + 1])
  }

  /** The object is what the builder of the registration makes of the registered parameters, apart from
      the schemas it is made of. */
  ghost predicate Matches(h: Heap, def: Def, l: Wire.Lowering)
    requires Ordered(h) && OlderThan(def, |h.nodes|)
  {
    match l
    case LString(_) => def.StringDef?
    case LInteger(_, _) => def.NumberDef?
    case LBoolean => def.BooleanDef?
    case LEnum(values) => def == EnumDef(values)
    case LConst(value) => def == LiteralDef([value])
    case LArray(_, _) => def.ArrayDef?
    case LObject(_, _) => def.ObjectDef? && def.catchall.Some? && h.nodes[def.catchall.value].def.NeverDef?
    case LLoose(_) => def.RecordDef?
    case LOneOf(discriminator, _) => def.UnionDef? && def == UnionDef(def.options, Some(discriminator), false, false)
  }

  /** A builder schema with exactly its registered checks, the same objects in the same order, or a
      nullable wrapper without checks. */
  ghost predicate Permitted(h: Heap, ref: Ref)
    requires Ordered(h) && ref < |h.nodes|
  {
    if h.nodes[ref].def.NullableDef? then h.nodes[ref].checks == []
    else
      && ref in h.registrations && h.registrations[ref].checks == h.nodes[ref].checks
      && Matches(h, h.nodes[ref].def, h.registrations[ref].lowering)
  }

  /** An optional wrapper without checks, around something that lowers. */
  ghost predicate OptionalProperty(h: Heap, names: Names, prefix: Prefix, ref: Ref)
    requires Ordered(h) && ref < |h.nodes|
  {
    h.nodes[ref].def.OptionalDef? && h.nodes[ref].checks == [] &&
    Lower(h, names, prefix, h.nodes[ref].def.inner, false).Ok?
  }

  lemma LoweredDef(h: Heap, names: Names, prefix: Prefix, defs: map<Text, Schema>, ref: Ref, root: bool)
    requires Ordered(h) && Resolves(h, names, prefix, defs) && ref < |h.nodes| && Lower(h, names, prefix, ref, root).Ok?
    ensures LowerDef(h, names, prefix, ref).Ok? && Permitted(h, ref) && !h.nodes[ref].def.OptionalDef?
  {
    if !root && ref in names {
      assert Resolved(h, names, prefix, defs, ref);
    }
  }

  lemma LoweredChild(h: Heap, names: Names, prefix: Prefix, parent: Ref, child: Ref)
    requires Ordered(h) && parent < |h.nodes| && Child(h, parent, child)
    requires LowerDef(h, names, prefix, parent).Ok? || OptionalProperty(h, names, prefix, parent)
    ensures child < |h.nodes|
    ensures Lower(h, names, prefix, child, false).Ok? ||
            (h.nodes[parent].def.ObjectDef? && OptionalProperty(h, names, prefix, child))
  {
    match h.nodes[parent].def
    case ObjectDef(shape, _) => LoweredSlot(h, names, prefix, parent, child);
    case UnionDef(options, _, _, _) =>
      AllLowered(h, names, prefix, options, parent);
    case _ =>
  }

  lemma LoweredSlot(h: Heap, names: Names, prefix: Prefix, parent: Ref, child: Ref)
    requires Ordered(h) && parent < |h.nodes| && Child(h, parent, child) && h.nodes[parent].def.ObjectDef?
    requires LowerDef(h, names, prefix, parent).Ok?
    ensures child < |h.nodes|
    ensures Lower(h, names, prefix, child, false).Ok? || OptionalProperty(h, names, prefix, child)
  {
    var shape := h.nodes[parent].def.shape;
    SlotsLowered(h, names, prefix, shape, parent);
    var i :| 0 <= i < |shape| && shape[i].schema == child;
    assert Lower(h, names, prefix, Unwrapped(h, child), false).Ok?;
  }

  /** Main result: when every catalog entry lowers, every schema met on the way down from the catalog,
      references included, is permitted, or an optional wrapper directly on an object property. */
  lemma {:induction false} FailsClosed(h: Heap, names: Names, prefix: Prefix, catalog: Catalog,
                                       defs: map<Text, Schema>, path: seq<Ref>)
    requires Ordered(h) && Present(h, catalog) && Indexes(catalog, names)
    requires CatalogLowers(h, names, prefix, catalog, defs)
    requires Descent(h, path) && path != [] && exists i :: 0 <= i < |catalog| && catalog[i].schema == path[0]
    ensures var last := path[|path| - 1];
      || (Permitted(h, last) && LowerDef(h, names, prefix, last).Ok?)
      || (|path| > 1 && h.nodes[path[|path| - 2]].def.ObjectDef? && OptionalProperty(h, names, prefix, last))
    decreases |path|
  {
    CatalogResolves(h, names, prefix, catalog, defs);
    if |path| == 1 {
      LoweredDef(h, names, prefix, defs, path[0], true);
    } else {
      var init := path[..|path| - 1];
      FailsClosed(h, names, prefix, catalog, defs, init);
      var parent, last := init[|init| - 1], path[|path| - 1];
      assert Child(h, path[|path| - 2], path[|path| - 2 + 1]);
      LoweredChild(h, names, prefix, parent, last);
      if Lower(h, names, prefix, last, false).Ok? {
        LoweredDef(h, names, prefix, defs, last, false);
      }
    }
  }

  /** The schema stands where it may: permitted with its parts standing where they may, an optional wrapper
      without checks directly on a property, or a named schema wherever a reference may stand. */
  ghost predicate Acceptable(h: Heap, names: Names, ref: Ref, root: bool)
    requires Ordered(h) && ref < |h.nodes|
    decreases ref, 1
  {
    (!root && ref in names) || (Permitted(h, ref) && PartsAcceptable(h, names, ref))
  }

  ghost predicate PartsAcceptable(h: Heap, names: Names, ref: Ref)
    requires Ordered(h) && ref < |h.nodes|
    decreases ref, 0
  {
    match h.nodes[ref].def
    case ArrayDef(element) => Acceptable(h, names, element, false)
    case NullableDef(inner) => Acceptable(h, names, inner, false)
    case ObjectDef(shape, _) => forall i :: 0 <= i < |shape| ==> PropertyAcceptable(h, names, shape[i].schema)
    case UnionDef(options, _, _, _) => forall i :: 0 <= i < |options| ==> Acceptable(h, names, options[i], false)
    case _ => true
  }

  ghost predicate PropertyAcceptable(h: Heap, names: Names, ref: Ref)
    requires Ordered(h) && ref < |h.nodes|
    decreases ref, 2
  {
    if h.nodes[ref].def.OptionalDef?
    then h.nodes[ref].checks == [] && Acceptable(h, names, h.nodes[ref].def.inner, false)
    else Acceptable(h, names, ref, false)
  }

  lemma {:induction false} SlotsLowerExactly(h: Heap, names: Names, prefix: Prefix, shape: seq<Slot>, owner: Ref)
    requires Ordered(h) && owner < |h.nodes| && OldSlots(shape, owner)
    ensures LowerSlots(h, names, prefix, shape, owner).Ok?
      <==> forall i :: 0 <= i < |shape| ==> PropertyAcceptable(h, names, shape[i].schema)
    decreases owner, 0, |shape|
  {
    if shape != [] {
      var init, last := shape[..|shape| - 1], shape[|shape| - 1];
      SlotsLowerExactly(h, names, prefix, init, owner);
      LowersExactly(h, names, prefix, Unwrapped(h, last.schema), false);
      assert forall i :: 0 <= i < |shape| ==> shape[i] == if i < |init| then init[i] else last;
    }
  }

  lemma {:induction false} AllLowerExactly(h: Heap, names: Names, prefix: Prefix, refs: seq<Ref>, owner: Ref)
    requires Ordered(h) && owner < |h.nodes| && OldRefs(refs, owner)
    ensures LowerAll(h, names, prefix, refs, owner).Ok?
      <==> forall i :: 0 <= i < |refs| ==> Acceptable(h, names, refs[i], false)
    decreases owner, 0, |refs|
  {
    if refs != [] {
      var init, last := refs[..|refs| - 1], refs[|refs| - 1];
      AllLowerExactly(h, names, prefix, init, owner);
      LowersExactly(h, names, prefix, last, false);
      assert forall i :: 0 <= i < |refs| ==> refs[i] == if i < |init| then init[i] else last;
    }
  }

  lemma ScalarLowersExactly(h: Heap, ref: Ref)
    requires Ordered(h) && ref < |h.nodes|
    requires !h.nodes[ref].def.ArrayDef? && !h.nodes[ref].def.NullableDef?
    requires !h.nodes[ref].def.ObjectDef? && !h.nodes[ref].def.UnionDef?
    ensures LowerScalar(h, ref).Ok? <==> Permitted(h, ref)
  {
  }

  lemma ArrayLowersExactly(h: Heap, ref: Ref, item: LowerResult)
    requires Ordered(h) && ref < |h.nodes| && h.nodes[ref].def.ArrayDef?
    ensures AsArray(h, ref, item).Ok? <==> Permitted(h, ref) && item.Ok?
  {
  }

  lemma ObjectLowersExactly(h: Heap, ref: Ref, slots: Result<Fields, Refusal>)
    requires Ordered(h) && ref < |h.nodes| && h.nodes[ref].def.ObjectDef?
    ensures AsObject(h, ref, slots).Ok? <==> Permitted(h, ref) && slots.Ok?
  {
  }

  lemma UnionLowersExactly(h: Heap, ref: Ref, options: Result<seq<Schema>, Refusal>)
    requires Ordered(h) && ref < |h.nodes| && h.nodes[ref].def.UnionDef?
    ensures AsOneOf(h, ref, options).Ok? <==> Permitted(h, ref) && options.Ok?
  {
  }

  lemma {:induction false} DefLowersExactly(h: Heap, names: Names, prefix: Prefix, ref: Ref)
    requires Ordered(h) && ref < |h.nodes|
    ensures LowerDef(h, names, prefix, ref).Ok? <==> Permitted(h, ref) && PartsAcceptable(h, names, ref)
    decreases ref, 1
  {
    match h.nodes[ref].def
    case ArrayDef(element) =>
      LowersExactly(h, names, prefix, element, false);
      ArrayLowersExactly(h, ref, Lower(h, names, prefix, element, false));
    case NullableDef(inner) => LowersExactly(h, names, prefix, inner, false);
    case ObjectDef(shape, _) =>
      SlotsLowerExactly(h, names, prefix, shape, ref);
      ObjectLowersExactly(h, ref, LowerSlots(h, names, prefix, shape, ref));
    case UnionDef(options, _, _, _) =>
      AllLowerExactly(h, names, prefix, options, ref);
      UnionLowersExactly(h, ref, LowerAll(h, names, prefix, options, ref));
    case _ => ScalarLowersExactly(h, ref);
  }

  /** Main result, both directions: a schema lowers exactly when everything down to the next references
      stands where it may. */
  lemma {:induction false} LowersExactly(h: Heap, names: Names, prefix: Prefix, ref: Ref, root: bool)
    requires Ordered(h) && ref < |h.nodes|
    ensures Lower(h, names, prefix, ref, root).Ok? <==> Acceptable(h, names, ref, root)
    decreases ref, 2
  {
    if root || ref !in names {
      DefLowersExactly(h, names, prefix, ref);
    }
  }

  // ----- References of a document ----------------------------------------------------------------

  /** Every reference anywhere in the schema is `prefix` followed by one of the names. */
  ghost predicate RefersOnlyTo(schema: Schema, prefix: Prefix, known: set<Text>)
    decreases schema
  {
    match schema
    case Plain(_) => true
    case Node(kw) =>
      && (kw.ref.Some? ==> kw.ref.value.Named? && kw.ref.value.prefix == prefix && kw.ref.value.name in known)
      && (kw.anyOf.Some? && kw.anyOf.value.Schemas? ==>
            forall i :: 0 <= i < |kw.anyOf.value.list| ==> RefersOnlyTo(kw.anyOf.value.list[i], prefix, known))
      && (kw.oneOf.Some? && kw.oneOf.value.Schemas? ==>
            forall i :: 0 <= i < |kw.oneOf.value.list| ==> RefersOnlyTo(kw.oneOf.value.list[i], prefix, known))
      && (kw.items.Some? ==> RefersOnlyTo(kw.items.value, prefix, known))
      && (kw.properties.Some? && kw.properties.value.Table? ==>
            forall i :: 0 <= i < |kw.properties.value.entries| ==>
              RefersOnlyTo(kw.properties.value.entries[i].schema, prefix, known))
  }

  lemma {:induction false} LoweredRefersOnlyTo(h: Heap, names: Names, prefix: Prefix, ref: Ref, root: bool)
    requires Ordered(h) && ref < |h.nodes| && Lower(h, names, prefix, ref, root).Ok?
    ensures RefersOnlyTo(Lower(h, names, prefix, ref, root).value, prefix, names.Values)
    decreases ref
  {
    if root || ref !in names {
      match h.nodes[ref].def
      case ArrayDef(element) => LoweredRefersOnlyTo(h, names, prefix, element, false);
      case NullableDef(inner) =>
        LoweredRefersOnlyTo(h, names, prefix, inner, false);
      case ObjectDef(shape, _) =>
        SlotsLowered(h, names, prefix, shape, ref);
        forall i | 0 <= i < |shape|
          ensures RefersOnlyTo(LowerSlots(h, names, prefix, shape, ref).value.properties[i].schema, prefix,
                               names.Values)
        {
          LoweredRefersOnlyTo(h, names, prefix, Unwrapped(h, shape[i].schema), false);
        }
      case UnionDef(options, _, _, _) =>
        AllLowered(h, names, prefix, options, ref);
        forall i | 0 <= i < |options|
          ensures RefersOnlyTo(LowerAll(h, names, prefix, options, ref).value[i], prefix, names.Values)
        {
          LoweredRefersOnlyTo(h, names, prefix, options[i], false);
        }
      case _ =>
    }
  }

  /** The same document with its references under another prefix. */
  ghost function Rebased(schema: Schema, prefix: Prefix): Schema
    decreases schema
  {
    match schema
    case Plain(_) => schema
    case Node(kw) =>
      Node(kw.(
        ref := if kw.ref.Some? && kw.ref.value.Named? then Some(Named(prefix, kw.ref.value.name)) else kw.ref,
        anyOf := if kw.anyOf.Some? && kw.anyOf.value.Schemas?
                 then Some(Schemas(RebasedAll(kw.anyOf.value.list, prefix))) else kw.anyOf,
        oneOf := if kw.oneOf.Some? && kw.oneOf.value.Schemas?
                 then Some(Schemas(RebasedAll(kw.oneOf.value.list, prefix))) else kw.oneOf,
        items := if kw.items.Some? then Some(Rebased(kw.items.value, prefix)) else None,
        properties := if kw.properties.Some? && kw.properties.value.Table?
                      then Some(Table(RebasedProperties(kw.properties.value.entries, prefix))) else kw.properties))
  }

  ghost function RebasedAll(schemas: seq<Schema>, prefix: Prefix): seq<Schema>
    decreases schemas
  {
    if schemas == [] then []
    else RebasedAll(schemas[..|schemas| - 1], prefix) + [Rebased(schemas[|schemas| - 1], prefix)]
  }

  ghost function RebasedProperties(ps: seq<Property>, prefix: Prefix): seq<Property>
    decreases ps
  {
    if ps == [] then []
    else
      var last := ps[|ps| - 1];
      RebasedProperties(ps[..|ps| - 1], prefix) + [Property(last.name, Rebased(last.schema, prefix))]
  }

  ghost function RebasedResult(r: LowerResult, prefix: Prefix): LowerResult {
    match r
    case Ok(schema) => Ok(Rebased(schema, prefix))
    case Err(e) => Err(e)
  }

  ghost function RebasedFields(r: Result<Fields, Refusal>, prefix: Prefix): Result<Fields, Refusal> {
    match r
    case Ok(fields) => Ok(Fields(RebasedProperties(fields.properties, prefix), fields.required))
    case Err(e) => Err(e)
  }

  ghost function RebasedList(r: Result<seq<Schema>, Refusal>, prefix: Prefix): Result<seq<Schema>, Refusal> {
    match r
    case Ok(schemas) => Ok(RebasedAll(schemas, prefix))
    case Err(e) => Err(e)
  }

  lemma RebasedPair(schema: Schema, q: Prefix)
    ensures Rebased(NullableSchema(schema), q) == NullableSchema(Rebased(schema, q))
  {
    var pair := [schema, NULL_SCHEMA];
    assert pair[..1] == [schema] && [schema][..0] == [];
    assert RebasedAll([schema], q) == RebasedAll([], q) + [Rebased(schema, q)];
    assert RebasedAll(pair, q) == RebasedAll(pair[..1], q) + [Rebased(NULL_SCHEMA, q)];
    assert Rebased(NULL_SCHEMA, q) == NULL_SCHEMA;
    assert RebasedAll(pair, q) == [Rebased(schema, q), NULL_SCHEMA];
  }

  lemma RebasedArray(item: Schema, minItems: real, maxItems: real, q: Prefix)
    ensures Rebased(ArraySchema(item, minItems, maxItems), q) == ArraySchema(Rebased(item, q), minItems, maxItems)
  {
  }

  lemma RebasedObject(fields: Fields, minProperties: Option<real>, description: Option<Text>, q: Prefix)
    ensures Rebased(ObjectSchema(fields, minProperties, description), q)
         == ObjectSchema(Fields(RebasedProperties(fields.properties, q), fields.required), minProperties, description)
  {
  }

  lemma RebasedOneOf(branches: seq<Schema>, description: Option<Text>, q: Prefix)
    ensures Rebased(OneOfSchema(branches, description), q) == OneOfSchema(RebasedAll(branches, q), description)
  {
  }

  lemma ScalarRebased(h: Heap, ref: Ref, q: Prefix)
    requires ref < |h.nodes|
    ensures RebasedResult(LowerScalar(h, ref), q) == LowerScalar(h, ref)
  {
  }

  /** Lowering under another prefix gives the same document up to that prefix, and the same refusals. */
  lemma {:induction false} PrefixOnly(h: Heap, names: Names, p: Prefix, q: Prefix, ref: Ref, root: bool)
    requires Ordered(h) && ref < |h.nodes|
    ensures Lower(h, names, q, ref, root) == RebasedResult(Lower(h, names, p, ref, root), q)
    decreases ref, 2
  {
    if root || ref !in names {
      PrefixOnlyDef(h, names, p, q, ref);
    }
  }

  lemma {:induction false} PrefixOnlyDef(h: Heap, names: Names, p: Prefix, q: Prefix, ref: Ref)
    requires Ordered(h) && ref < |h.nodes|
    ensures LowerDef(h, names, q, ref) == RebasedResult(LowerDef(h, names, p, ref), q)
    decreases ref, 1
  {
    match h.nodes[ref].def
    case ArrayDef(element) =>
      PrefixOnly(h, names, p, q, element, false);
      PrefixArray(h, ref, Lower(h, names, p, element, false), q);
    case NullableDef(inner) =>
      PrefixOnly(h, names, p, q, inner, false);
      PrefixNullable(h, ref, Lower(h, names, p, inner, false), q);
    case ObjectDef(shape, _) =>
      PrefixOnlySlots(h, names, p, q, shape, ref);
      PrefixObject(h, ref, LowerSlots(h, names, p, shape, ref), q);
    case UnionDef(options, _, _, _) =>
      PrefixOnlyAll(h, names, p, q, options, ref);
      PrefixUnion(h, ref, LowerAll(h, names, p, options, ref), q);
    case _ => ScalarRebased(h, ref, q);
  }

  lemma PrefixArray(h: Heap, ref: Ref, item: LowerResult, q: Prefix)
    requires ref < |h.nodes|
    ensures AsArray(h, ref, RebasedResult(item, q)) == RebasedResult(AsArray(h, ref, item), q)
  {
    if AsArray(h, ref, item).Ok? {
      var l := h.registrations[ref].lowering;
      RebasedArray(item.value, l.minItems, l.maxItems, q);
    }
  }

  lemma PrefixNullable(h: Heap, ref: Ref, inner: LowerResult, q: Prefix)
    requires ref < |h.nodes|
    ensures AsNullable(h, ref, RebasedResult(inner, q)) == RebasedResult(AsNullable(h, ref, inner), q)
  {
    if inner.Ok? {
      RebasedPair(inner.value, q);
    }
  }

  lemma PrefixObject(h: Heap, ref: Ref, slots: Result<Fields, Refusal>, q: Prefix)
    requires Ordered(h) && ref < |h.nodes| && h.nodes[ref].def.ObjectDef?
    ensures AsObject(h, ref, RebasedFields(slots, q)) == RebasedResult(AsObject(h, ref, slots), q)
  {
    if AsObject(h, ref, slots).Ok? {
      var l := h.registrations[ref].lowering;
      RebasedObject(slots.value, l.minProperties, l.description, q);
    }
  }

  lemma PrefixUnion(h: Heap, ref: Ref, options: Result<seq<Schema>, Refusal>, q: Prefix)
    requires ref < |h.nodes| && h.nodes[ref].def.UnionDef?
    ensures AsOneOf(h, ref, RebasedList(options, q)) == RebasedResult(AsOneOf(h, ref, options), q)
  {
    if AsOneOf(h, ref, options).Ok? {
      RebasedOneOf(options.value, h.registrations[ref].lowering.description, q);
    }
  }

  lemma PrefixSlot(h: Heap, init: Result<Fields, Refusal>, slot: Slot, lowered: LowerResult, q: Prefix)
    requires slot.schema < |h.nodes|
    ensures WithSlot(h, RebasedFields(init, q), slot, RebasedResult(lowered, q))
         == RebasedFields(WithSlot(h, init, slot, lowered), q)
  {
    var r := WithSlot(h, init, slot, lowered);
    if r.Ok? {
      assert r.value.properties[..|r.value.properties| - 1] == init.value.properties;
    }
  }

  lemma PrefixBranch(init: Result<seq<Schema>, Refusal>, last: LowerResult, q: Prefix)
    ensures WithBranch(RebasedList(init, q), RebasedResult(last, q)) == RebasedList(WithBranch(init, last), q)
  {
    var r := WithBranch(init, last);
    if r.Ok? {
      assert r.value[..|r.value| - 1] == init.value;
    }
  }

  lemma {:induction false} PrefixOnlySlots(h: Heap, names: Names, p: Prefix, q: Prefix, shape: seq<Slot>, owner: Ref)
    requires Ordered(h) && owner < |h.nodes| && OldSlots(shape, owner)
    ensures LowerSlots(h, names, q, shape, owner) == RebasedFields(LowerSlots(h, names, p, shape, owner), q)
    decreases owner, 0, |shape|
  {
    if shape != [] {
      var init, slot := shape[..|shape| - 1], shape[|shape| - 1];
      var target := Unwrapped(h, slot.schema);
      PrefixOnlySlots(h, names, p, q, init, owner);
      PrefixOnly(h, names, p, q, target, false);
      PrefixSlot(h, LowerSlots(h, names, p, init, owner), slot, Lower(h, names, p, target, false), q);
    }
  }

  lemma {:induction false} PrefixOnlyAll(h: Heap, names: Names, p: Prefix, q: Prefix, refs: seq<Ref>, owner: Ref)
    requires Ordered(h) && owner < |h.nodes| && OldRefs(refs, owner)
    ensures LowerAll(h, names, q, refs, owner) == RebasedList(LowerAll(h, names, p, refs, owner), q)
    decreases owner, 0, |refs|
  {
    if refs != [] {
      var init, ref := refs[..|refs| - 1], refs[|refs| - 1];
      PrefixOnlyAll(h, names, p, q, init, owner);
      PrefixOnly(h, names, p, q, ref, false);
      PrefixBranch(LowerAll(h, names, p, init, owner), Lower(h, names, p, ref, false), q);
    }
  }

  /** The component schemas are the bundle's definitions with their references rebased. */
  lemma ComponentsAreRebasedDefinitions(h: Heap, names: Names, catalog: Catalog,
                                        defs: map<Text, Schema>, components: map<Text, Schema>)
    requires Ordered(h) && Present(h, catalog)
    requires CatalogLowers(h, names, Defs, catalog, defs) && CatalogLowers(h, names, Components, catalog, components)
    ensures components == map n | n in defs :: Rebased(defs[n], Components)
  {
    forall n
      ensures n in components <==> n in defs
      ensures n in defs && n in components ==> components[n] == Rebased(defs[n], Components)
    {
      if n in defs || n in components {
        var i :| 0 <= i < |catalog| && catalog[i].name == n;
        PrefixOnly(h, names, Defs, Components, catalog[i].schema, true);
      }
    }
  }
}
