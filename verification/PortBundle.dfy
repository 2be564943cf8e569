/**
 * The port of a whole bundle: top-level schemas, the references of a document, and the theorem that
 * evaluating the emitted modules and lowering the catalog gives the frozen bundle back.
 */
module PortBundle {
  import opened Wrappers
  import opened Utf16
  import opened JsonSchema
  import opened Wire
  import opened Lowering
  import opened Builders
  import opened Port
  import opened RoundTrip

  // ----- Discriminated unions --------------------------------------------------------------------

  lemma AllSplit(names: set<Text>, nodes: seq<Schema>, es: seq<Expr>)
    requires nodes != [] && TranslateAll(names, nodes) == Ok(es)
    ensures TranslateAll(names, nodes[..|nodes| - 1]) == Ok(es[..|es| - 1])
    ensures Translate(names, nodes[|nodes| - 1]) == Ok(es[|es| - 1])
  {
    var init := TranslateAll(names, nodes[..|nodes| - 1]).value;
    assert es[..|es| - 1] == init;
  }

  lemma {:induction false} AllOutcome(compiles: Text -> bool, names: set<Text>, h: Heap, consts: Bindings,
                                      nodes: seq<Schema>, es: seq<Expr>)
    requires Sound(h) && Bound(h, names, consts)
    requires TranslateAll(names, nodes) == Ok(es)
    ensures EvalAll(compiles, h, consts, es).Ok? <==> AllBuildable(compiles, nodes)
    ensures EvalAll(compiles, h, consts, es).Ok? ==>
      var (h', options) := EvalAll(compiles, h, consts, es).value;
      Sound(h') && Extends(h, h') && |options| == |nodes| && OldRefs(options, |h'.nodes|)
    decreases |nodes|
  {
    if nodes == [] {
      ExtendsReflexive(h);
    } else {
      var init, last := nodes[..|nodes| - 1], nodes[|nodes| - 1];
      var first, e := es[..|es| - 1], es[|es| - 1];
      AllSplit(names, nodes, es);
      AllOutcome(compiles, names, h, consts, init, first);
      if EvalAll(compiles, h, consts, first).Ok? {
        var (h', options) := EvalAll(compiles, h, consts, first).value;
        BoundSurvives(h, h', names, consts);
        EvalOutcome(compiles, names, h', consts, last, e);
        if Eval(compiles, h', consts, e).Ok? {
          var (h'', ref) := Eval(compiles, h', consts, e).value;
          ExtendsTransitive(h, h', h'');
          assert EvalAll(compiles, h, consts, es) == Ok((h'', options + [ref]));
        }
      }
    }
  }

  lemma {:induction false} AllRelower(compiles: Text -> bool, names: set<Text>, h: Heap, consts: Bindings,
                                      nodes: seq<Schema>, es: seq<Expr>,
                                      final: Heap, index: Names, owner: Ref)
    requires Sound(h) && Bound(h, names, consts)
    requires TranslateAll(names, nodes) == Ok(es) && EvalAll(compiles, h, consts, es).Ok?
    requires var (h', options) := EvalAll(compiles, h, consts, es).value;
      && Later(h', final) && |h'.nodes| <= owner < |final.nodes| && OldRefs(options, owner)
      && IndexedOnly(index, names, consts, |h.nodes|, owner + 1, owner)
    ensures var (h', options) := EvalAll(compiles, h, consts, es).value;
      LowerAll(final, index, Defs, options, owner) == ExpectedAll(nodes)
    decreases |nodes|
  {
    if nodes != [] {
      var init, last := nodes[..|nodes| - 1], nodes[|nodes| - 1];
      var first, e := es[..|es| - 1], es[|es| - 1];
      AllSplit(names, nodes, es);
      var (h1, before) := EvalAll(compiles, h, consts, first).value;
      var (h', ref) := Eval(compiles, h1, consts, e).value;
      var options := EvalAll(compiles, h, consts, es).value.1;
      assert options == before + [ref] && options[..|options| - 1] == before;
      AllOutcome(compiles, names, h, consts, init, first);
      BoundSurvives(h, h1, names, consts);
      EvalOutcome(compiles, names, h1, consts, last, e);
      ExtendsTransitive(h1, h', final);
      AllRelower(compiles, names, h, consts, init, first, final, index, owner);
      Relowers(compiles, names, h1, consts, last, e, final, index);
      LoweredInPlace(h1, h', final, names, consts, index, last, ref, owner + 1, owner);
      BranchRelowered(nodes);
    }
  }

  // ----- Top-level schemas -----------------------------------------------------------------------

  /** What the top-level guard of a discriminated union establishes. */
  ghost predicate IsUnion(names: set<Text>, kw: Keywords, e: Expr) {
    && e.TbOneOf? && kw.oneOf.Some? && kw == NO_KEYWORDS.(oneOf := kw.oneOf, description := kw.description)
    && kw.oneOf.value.Schemas? && e.description == kw.description
    && TranslateAll(names, kw.oneOf.value.list) == Ok(e.branches)
    && IsCandidate(kw.oneOf.value.list, e.discriminator)
    && DistinctValues(Constants(kw.oneOf.value.list, e.discriminator))
  }

  lemma OneOfGuard(names: set<Text>, node: Schema, e: Expr)
    requires node.Node? && node.kw.oneOf.Some? && TranslateTopLevel(names, node) == Ok(e)
    ensures IsUnion(names, node.kw, e)
  {
    var branches := node.kw.oneOf.value.list;
    var candidates := Candidates(branches, NamesOf(branches[0].kw.properties.value.entries));
    assert candidates[0] in candidates;
  }

  lemma UnionBuildable(compiles: Text -> bool, kw: Keywords)
    requires kw.oneOf.Some? && kw == NO_KEYWORDS.(oneOf := kw.oneOf, description := kw.description)
    requires kw.oneOf.value.Schemas?
    ensures Buildable(compiles, Node(kw)) <==>
      AllBuildable(compiles, kw.oneOf.value.list) && TextArgument(kw.description).Ok?
  {
  }

  lemma UnionEvaluates(compiles: Text -> bool, h: Heap, consts: Bindings, e: Expr)
    requires e.TbOneOf?
    ensures Eval(compiles, h, consts, e).Ok? <==>
      EvalAll(compiles, h, consts, e.branches).Ok? && TextArgument(e.description).Ok?
    ensures Eval(compiles, h, consts, e).Ok? ==>
      var (h1, options) := EvalAll(compiles, h, consts, e.branches).value;
      Eval(compiles, h, consts, e).value == MakeOneOf(h1, e.discriminator, options, TextArgument(e.description).value)
  {
  }

  /** The evaluated union is the newest object, on top of the evaluated branches. */
  lemma UnionOutcome(compiles: Text -> bool, names: set<Text>, h: Heap, consts: Bindings, kw: Keywords, e: Expr)
    requires Sound(h) && Bound(h, names, consts) && IsUnion(names, kw, e)
    ensures Eval(compiles, h, consts, e).Ok? <==>
      AllBuildable(compiles, kw.oneOf.value.list) && TextArgument(kw.description).Ok?
    ensures Eval(compiles, h, consts, e).Ok? ==>
      && EvalAll(compiles, h, consts, e.branches).Ok? && TextArgument(e.description).Ok?
      && var (h1, options) := EvalAll(compiles, h, consts, e.branches).value;
         var (h', ref) := Eval(compiles, h, consts, e).value;
         && Sound(h1) && Extends(h, h1)
         && Made(h1, h', ref, UnionDef(options, Some(e.discriminator), false, false),
                 LOneOf(e.discriminator, TextArgument(e.description).value))
  {
    AllOutcome(compiles, names, h, consts, kw.oneOf.value.list, e.branches);
    UnionEvaluates(compiles, h, consts, e);
    if Eval(compiles, h, consts, e).Ok? {
      var (h1, options) := EvalAll(compiles, h, consts, e.branches).value;
      OneOfFacts(h1, e.discriminator, options, TextArgument(e.description).value);
    }
  }

  lemma UnionRelowers(compiles: Text -> bool, names: set<Text>, h: Heap, consts: Bindings,
                      kw: Keywords, e: Expr, final: Heap, index: Names)
    requires Sound(h) && Bound(h, names, consts) && IsUnion(names, kw, e)
    requires Eval(compiles, h, consts, e).Ok?
    requires var (h', ref) := Eval(compiles, h, consts, e).value;
      Later(h', final) && IndexedOnly(index, names, consts, |h.nodes|, |h'.nodes|, ref)
    ensures var (h', ref) := Eval(compiles, h, consts, e).value;
      ref < |final.nodes| && LowerDef(final, index, Defs, ref) == Expected(Node(kw))
  {
    UnionOutcome(compiles, names, h, consts, kw, e);
    var key, text := e.discriminator, TextArgument(e.description).value;
    var (h1, options) := EvalAll(compiles, h, consts, e.branches).value;
    var (h', ref) := Eval(compiles, h, consts, e).value;
    ExtendsTransitive(h1, h', final);
    RecordSurvives(h1, h', final, ref, UnionDef(options, Some(key), false, false), LOneOf(key, text));
    AllRelower(compiles, names, h, consts, kw.oneOf.value.list, e.branches, final, index, ref);
    UnionRelowered(final, ref, kw, key, text);
  }

  lemma UnionRelowered(final: Heap, ref: Ref, kw: Keywords, key: Text, text: Option<Text>)
    requires kw.oneOf.Some? && kw.oneOf.value.Schemas?
    requires kw == NO_KEYWORDS.(oneOf := kw.oneOf, description := kw.description)
    requires TextArgument(kw.description) == Ok(text)
    requires ref < |final.nodes| && final.nodes[ref].def.UnionDef?
    requires final.nodes[ref].def == UnionDef(final.nodes[ref].def.options, Some(key), false, false)
    requires Require(final, ref, KOneOf) == Ok(LOneOf(key, text))
    ensures AsOneOf(final, ref, ExpectedAll(kw.oneOf.value.list)) == Expected(Node(kw))
  {
    TextOptionArgument(kw.description);
    assert OneOfSchema(kw.oneOf.value.list, text) == Node(kw);
  }

  lemma UnionEvaluated(compiles: Text -> bool, h: Heap, consts: Bindings, e: Expr)
    requires e.TbOneOf? && Eval(compiles, h, consts, e).Ok? && TextArgument(e.description).Ok?
    requires EvalAll(compiles, h, consts, e.branches).Ok?
    requires var (h1, options) := EvalAll(compiles, h, consts, e.branches).value;
      var (h', ref) := Eval(compiles, h, consts, e).value;
      Extends(h, h1) && Made(h1, h', ref, UnionDef(options, Some(e.discriminator), false, false),
                             LOneOf(e.discriminator, TextArgument(e.description).value))
    ensures var (h', ref) := Eval(compiles, h, consts, e).value; Evaluated(h, h', ref, false)
  {
    var (h1, options) := EvalAll(compiles, h, consts, e.branches).value;
    MadeStep(h, h1, Eval(compiles, h, consts, e).value, UnionDef(options, Some(e.discriminator), false, false),
             LOneOf(e.discriminator, TextArgument(e.description).value));
  }

  predicate IsReference(node: Schema) {
    node.Node? && node.kw.ref.Some?
  }

  lemma TopLevelOutcome(compiles: Text -> bool, names: set<Text>, h: Heap, consts: Bindings, node: Schema, e: Expr)
    requires Sound(h) && Bound(h, names, consts) && TranslateTopLevel(names, node) == Ok(e)
    ensures Eval(compiles, h, consts, e).Ok? <==> Buildable(compiles, node)
    ensures Eval(compiles, h, consts, e).Ok? ==>
      var (h', ref) := Eval(compiles, h, consts, e).value; Evaluated(h, h', ref, IsReference(node))
  {
    if node.Node? && node.kw.oneOf.Some? {
      OneOfGuard(names, node, e);
      UnionBuildable(compiles, node.kw);
      UnionOutcome(compiles, names, h, consts, node.kw, e);
      if Eval(compiles, h, consts, e).Ok? {
        UnionEvaluated(compiles, h, consts, e);
      }
    } else {
      EvalOutcome(compiles, names, h, consts, node, e);
    }
  }

  /** Main result for one top-level schema that is not a bare reference: the builder expression evaluates
      and its lowering is the node again exactly when the builders take the options of the node and its
      enums are in key order. */
  lemma TopLevelRoundTrip(compiles: Text -> bool, names: set<Text>, h: Heap, consts: Bindings,
                          node: Schema, e: Expr, final: Heap, index: Names)
    requires Sound(h) && Bound(h, names, consts) && TranslateTopLevel(names, node) == Ok(e)
    requires !IsReference(node)
    requires Eval(compiles, h, consts, e).Ok? ==>
      var (h', ref) := Eval(compiles, h, consts, e).value;
      Later(h', final) && IndexedOnly(index, names, consts, |h.nodes|, |h'.nodes|, ref)
    ensures Eval(compiles, h, consts, e).Ok? <==> Buildable(compiles, node)
    ensures Eval(compiles, h, consts, e).Ok? ==>
      var ref := Eval(compiles, h, consts, e).value.1;
      ref < |final.nodes| && Lower(final, index, Defs, ref, true) == Expected(node)
  {
    TopLevelOutcome(compiles, names, h, consts, node, e);
    if Eval(compiles, h, consts, e).Ok? {
      if node.Node? && node.kw.oneOf.Some? {
        OneOfGuard(names, node, e);
          UnionRelowers(compiles, names, h, consts, node.kw, e, final, index);
      } else {
        Relowers(compiles, names, h, consts, node, e, final, index);
      }
    }
  }
}
