/**
 * A union nested in another one, some of whose objects the outer dispatch table does not know: the outer
 * union is built, has a table and lowers, and accepts a value that its document refuses.
 */
module NestedUnion {
  import opened Wrappers
  import opened Utf16
  import opened JsonSchema
  import opened Wire
  import opened Lowering
  import opened Builders
  import opened Meaning
  import opened Dispatch

  const T: Text := [0x74]
  const B: Json := Str([0x62])
  const ANY_STRING: StringOptions := StringOptions(None, None, None, None, None)

  /** {k: 'b', t: 'b'} */
  const VALUE: Json := Obj(map[K := B, T := B])

  /** oneOf('t', [oneOf('k', [object({k: literal('a'), t: literal('a')}), object({k: literal('b'), t: string()})]),
      object({k: string(), t: literal('b')})]), built in order. */
  function Nested(compiles: Text -> bool): (Heap, Ref) {
    var (h1, a) := MakeLiteral(EMPTY_HEAP, A);
    var (h2, b) := MakeLiteral(h1, B);
    var (h3, text) := MakeString(compiles, h2, ANY_STRING).value;
    var (h4, first) := MakeObject(h3, [Slot(K, a), Slot(T, a)], None, None).value;
    var (h5, second) := MakeObject(h4, [Slot(K, b), Slot(T, text)], None, None).value;
    var (h6, inner) := MakeOneOf(h5, K, [first, second], None);
    var (h7, third) := MakeObject(h6, [Slot(K, text), Slot(T, b)], None, None).value;
    MakeOneOf(h7, T, [inner, third], None)
  }

  ghost predicate HasScalars(h: Heap) {
    && Sound(h) && |h.nodes| >= 3
    && Holds(h, 0, LiteralDef([A]), LConst(A)) && Holds(h, 1, LiteralDef([B]), LConst(B))
    && Holds(h, 2, StringDef, LString(ANY_STRING))
  }

  /** A strict object of two properties at `ref`. */
  ghost predicate HasObject(h: Heap, ref: Ref, k: Ref, t: Ref) {
    && 0 < ref && Holds(h, ref, ObjectDef([Slot(K, k), Slot(T, t)], Some(ref - 1)), LObject(None, None))
    && h.nodes[ref - 1].def.NeverDef?
  }

  ghost predicate HasUnion(h: Heap, ref: Ref, key: Text, options: seq<Ref>) {
    Holds(h, ref, UnionDef(options, Some(key), false, false), LOneOf(key, None))
  }

  /** Where the schemas are. */
  datatype Parts = Parts(a: Ref, b: Ref, text: Ref, first: Ref, second: Ref, inner: Ref, third: Ref, outer: Ref)

  const PARTS: Parts := Parts(0, 1, 2, 4, 6, 7, 9, 10)

  ghost predicate IsNested(h: Heap, p: Parts) {
    && Sound(h) && p.a < p.b < p.text < p.first < p.second < p.inner < p.third < p.outer
    && Holds(h, p.a, LiteralDef([A]), LConst(A)) && Holds(h, p.b, LiteralDef([B]), LConst(B))
    && Holds(h, p.text, StringDef, LString(ANY_STRING))
    && HasObject(h, p.first, p.a, p.a) && HasObject(h, p.second, p.b, p.text)
    && HasUnion(h, p.inner, K, [p.first, p.second])
    && HasObject(h, p.third, p.text, p.b) && HasUnion(h, p.outer, T, [p.inner, p.third])
  }

  // ----- The heap is built -----------------------------------------------------------------------

  lemma ScalarsSurvive(h: Heap, h': Heap)
    requires HasScalars(h) && Extends(h, h') && Sound(h')
    ensures HasScalars(h')
  {
    HoldsSurvives(h, h', 0, LiteralDef([A]), LConst(A));
    HoldsSurvives(h, h', 1, LiteralDef([B]), LConst(B));
    HoldsSurvives(h, h', 2, StringDef, LString(ANY_STRING));
  }

  lemma ObjectSurvives(h: Heap, h': Heap, ref: Ref, k: Ref, t: Ref)
    requires HasObject(h, ref, k, t) && Extends(h, h')
    ensures HasObject(h', ref, k, t)
  {
    HoldsSurvives(h, h', ref, ObjectDef([Slot(K, k), Slot(T, t)], Some(ref - 1)), LObject(None, None));
    NodeSurvives(h, h', ref - 1);
  }

  lemma ScalarsBuilt(compiles: Text -> bool)
    ensures var (h1, a) := MakeLiteral(EMPTY_HEAP, A);
      var (h2, b) := MakeLiteral(h1, B);
      MakeString(compiles, h2, ANY_STRING).Ok? &&
      var (h, text) := MakeString(compiles, h2, ANY_STRING).value;
      (a, b, text) == (0, 1, 2) && HasScalars(h) && |h.nodes| == 3
  {
    var (h1, a) := MakeLiteral(EMPTY_HEAP, A);
    BuiltHolds(EMPTY_HEAP, LiteralDef([A]), LConst(A));
    var (h2, b) := MakeLiteral(h1, B);
    BuiltHolds(h1, LiteralDef([B]), LConst(B));
    assert TestsOf(LString(ANY_STRING)) == [];
    BuiltHolds(h2, StringDef, LString(ANY_STRING));
    var (h, text) := MakeString(compiles, h2, ANY_STRING).value;
    ExtendsTransitive(h1, h2, h);
    HoldsSurvives(h1, h, 0, LiteralDef([A]), LConst(A));
    HoldsSurvives(h2, h, 1, LiteralDef([B]), LConst(B));
  }

  lemma ObjectBuilt(h: Heap, k: Ref, t: Ref)
    requires HasScalars(h) && k < 3 && t < 3
    ensures var (h', ref) := MakeObject(h, [Slot(K, k), Slot(T, t)], None, None).value;
      && ref == |h.nodes| + 1 && |h'.nodes| == ref + 1 && Extends(h, h') && HasScalars(h') && HasObject(h', ref, k, t)
  {
    ObjectHolds(h, [Slot(K, k), Slot(T, t)]);
    ScalarsSurvive(h, MakeObject(h, [Slot(K, k), Slot(T, t)], None, None).value.0);
  }

  lemma UnionBuilt(h: Heap, key: Text, options: seq<Ref>)
    requires HasScalars(h) && OldRefs(options, |h.nodes|)
    ensures var (h', ref) := MakeOneOf(h, key, options, None);
      && ref == |h.nodes| && |h'.nodes| == ref + 1 && Extends(h, h') && HasScalars(h') &&
        HasUnion(h', ref, key, options)
  {
    BuiltHolds(h, UnionDef(options, Some(key), false, false), LOneOf(key, None));
    ScalarsSurvive(h, MakeOneOf(h, key, options, None).0);
  }

  lemma InnerBuilt(h3: Heap)
    requires HasScalars(h3) && |h3.nodes| == 3
    ensures var (h4, first) := MakeObject(h3, [Slot(K, 0), Slot(T, 0)], None, None).value;
      var (h5, second) := MakeObject(h4, [Slot(K, 1), Slot(T, 2)], None, None).value;
      var (h, inner) := MakeOneOf(h5, K, [first, second], None);
      && (first, second, inner) == (4, 6, 7) && HasScalars(h) && |h.nodes| == 8
      && HasObject(h, 4, 0, 0) && HasObject(h, 6, 1, 2) && HasUnion(h, 7, K, [4, 6])
  {
    ObjectBuilt(h3, 0, 0);
    var h4 := MakeObject(h3, [Slot(K, 0), Slot(T, 0)], None, None).value.0;
    ObjectBuilt(h4, 1, 2);
    var h5 := MakeObject(h4, [Slot(K, 1), Slot(T, 2)], None, None).value.0;
    UnionBuilt(h5, K, [4, 6]);
    var h := MakeOneOf(h5, K, [4, 6], None).0;
    ExtendsTransitive(h4, h5, h);
    ObjectSurvives(h4, h, 4, 0, 0);
    ObjectSurvives(h5, h, 6, 1, 2);
  }

  lemma OuterBuilt(h6: Heap)
    requires HasScalars(h6) && |h6.nodes| == 8
    requires HasObject(h6, 4, 0, 0) && HasObject(h6, 6, 1, 2) && HasUnion(h6, 7, K, [4, 6])
    ensures var (h7, third) := MakeObject(h6, [Slot(K, 2), Slot(T, 1)], None, None).value;
      var (h, ref) := MakeOneOf(h7, T, [7, third], None);
      third == 9 && ref == 10 && IsNested(h, PARTS)
  {
    ObjectBuilt(h6, 2, 1);
    var h7 := MakeObject(h6, [Slot(K, 2), Slot(T, 1)], None, None).value.0;
    UnionBuilt(h7, T, [7, 9]);
    var h := MakeOneOf(h7, T, [7, 9], None).0;
    ExtendsTransitive(h6, h7, h);
    ObjectSurvives(h6, h, 4, 0, 0);
    ObjectSurvives(h6, h, 6, 1, 2);
    HoldsSurvives(h6, h, 7, UnionDef([4, 6], Some(K), false, false), LOneOf(K, None));
    ObjectSurvives(h7, h, 9, 2, 1);
  }

  lemma NestedIsBuilt(compiles: Text -> bool)
    ensures IsNested(Nested(compiles).0, PARTS) && Nested(compiles).1 == 10
  {
    ScalarsBuilt(compiles);
    var h3 := MakeString(compiles, MakeLiteral(MakeLiteral(EMPTY_HEAP, A).0, B).0, ANY_STRING).value.0;
    InnerBuilt(h3);
    var h4 := MakeObject(h3, [Slot(K, 0), Slot(T, 0)], None, None).value.0;
    var h5 := MakeObject(h4, [Slot(K, 1), Slot(T, 2)], None, None).value.0;
    OuterBuilt(MakeOneOf(h5, K, [4, 6], None).0);
  }

  // ----- It lowers -------------------------------------------------------------------------------

  lemma ObjectLowers(h: Heap, ref: Ref, k: Ref, t: Ref)
    requires Sound(h) && HasObject(h, ref, k, t) && k < ref && t < ref
    requires !h.nodes[k].def.OptionalDef? && LowerDef(h, NO_NAMES, Defs, k).Ok?
    requires !h.nodes[t].def.OptionalDef? && LowerDef(h, NO_NAMES, Defs, t).Ok?
    ensures LowerDef(h, NO_NAMES, Defs, ref).Ok?
  {
    SlotLowers(h, [], Slot(K, k), ref);
    SlotLowers(h, [Slot(K, k)], Slot(T, t), ref);
    assert [] + [Slot(K, k)] == [Slot(K, k)] && [Slot(K, k)] + [Slot(T, t)] == [Slot(K, k), Slot(T, t)];
  }

  lemma PairLowers(h: Heap, ref: Ref, key: Text, x: Ref, y: Ref)
    requires Sound(h) && HasUnion(h, ref, key, [x, y]) && x < ref && y < ref
    requires LowerDef(h, NO_NAMES, Defs, x).Ok? && LowerDef(h, NO_NAMES, Defs, y).Ok?
    ensures LowerAll(h, NO_NAMES, Defs, [x, y], ref).Ok? && LowerDef(h, NO_NAMES, Defs, ref).Ok?
  {
    OptionLowers(h, [], x, ref);
    OptionLowers(h, [x], y, ref);
    assert [] + [x] == [x] && [x] + [y] == [x, y];
  }

  lemma NestedLowers(h: Heap, p: Parts)
    requires IsNested(h, p)
    ensures LowerDef(h, NO_NAMES, Defs, p.inner).Ok? && LowerDef(h, NO_NAMES, Defs, p.third).Ok?
    ensures LowerAll(h, NO_NAMES, Defs, [p.inner, p.third], p.outer).Ok?
    ensures LowerDef(h, NO_NAMES, Defs, p.outer).Ok?
  {
    ObjectLowers(h, p.first, p.a, p.a);
    ObjectLowers(h, p.second, p.b, p.text);
    ObjectLowers(h, p.third, p.text, p.b);
    PairLowers(h, p.inner, K, p.first, p.second);
    PairLowers(h, p.outer, T, p.inner, p.third);
  }

  // ----- The dispatch tables ---------------------------------------------------------------------

  lemma IsBranchOf(h: Heap, ref: Ref, k: Ref, t: Ref, value: Json)
    requires HasObject(h, ref, k, t)
    ensures IsConstant(h, k, value) ==> IsBranch(h, ref, K, value)
    ensures IsConstant(h, t, value) ==> IsBranch(h, ref, T, value)
  {
    var shape := [Slot(K, k), Slot(T, t)];
    assert shape[0].key == K && shape[1].key == T && K != T;
  }

  lemma InnerTabled(h: Heap, p: Parts)
    requires IsNested(h, p)
    ensures Tabled(h, [p.first, p.second], K) && AllKeyed(h, [p.first, p.second], K) && Discriminable(h, p.inner)
  {
    var options := [p.first, p.second];
    IsBranchOf(h, p.first, p.a, p.a, A);
    IsBranchOf(h, p.second, p.b, p.text, B);
    assert A != B;
    BranchesTabled(h, options, K, [A, B]);
    forall i | 0 <= i < |options|
      ensures Discriminable(h, options[i])
    {
      KeyedDiscriminable(h, options[i], K);
    }
  }

  lemma SecondOffersNothing(h: Heap, p: Parts, x: Option<Json>)
    requires IsNested(h, p)
    ensures !Selects(h, p.second, T, x)
  {
    var shape := [Slot(K, p.b), Slot(T, p.text)];
    assert shape[0].key != T && !HasValues(h, p.text);
  }

  /** The inner union offers only the 't' of its first option. */
  lemma InnerSelects(h: Heap, p: Parts, x: Option<Json>)
    requires IsNested(h, p)
    ensures Selects(h, p.inner, T, x) <==> x == Some(A)
  {
    InnerTabled(h, p);
    IsBranchOf(h, p.first, p.a, p.a, A);
    BranchSelects(h, p.first, T, A, x);
    SecondOffersNothing(h, p, x);
    var options := [p.first, p.second];
    assert options[0] == p.first && options[1] == p.second;
    assert Selects(h, p.first, T, x) ==> Selects(h, options[0], T, x);
  }

  lemma OuterTabled(h: Heap, p: Parts)
    requires IsNested(h, p)
    ensures Tabled(h, [p.inner, p.third], T) && Selects(h, p.third, T, Some(B))
  {
    var options := [p.inner, p.third];
    IsBranchOf(h, p.third, p.text, p.b, B);
    InnerSelects(h, p, Some(A));
    BranchSelects(h, p.third, T, B, Some(B));
    assert Selectable(h, options[0], T) && Selectable(h, options[1], T);
    forall i, j, x | 0 <= i < j < |options| && Selects(h, options[i], T, x)
      ensures !Selects(h, options[j], T, x)
    {
      InnerSelects(h, p, x);
      BranchSelects(h, p.third, T, B, x);
    }
  }

  // ----- The two verdicts ------------------------------------------------------------------------

  lemma ScalarsAccept(w: World, h: Heap, p: Parts)
    requires IsNested(h, p)
    ensures Accepts(w, h, p.b, Some(B)) && Accepts(w, h, p.text, Some(B))
  {
    assert h.nodes[p.b].def.values == [B];
  }

  lemma ObjectAccepts(w: World, h: Heap, ref: Ref, k: Ref, t: Ref)
    requires Sound(h) && HasObject(h, ref, k, t) && k < ref && t < ref
    requires Accepts(w, h, k, Some(B)) && Accepts(w, h, t, Some(B))
    ensures Accepts(w, h, ref, Some(VALUE))
  {
    var shape := [Slot(K, k), Slot(T, t)];
    assert shape[0] in shape && shape[1] in shape;
    assert Lookup(VALUE.members, K) == Some(B) && Lookup(VALUE.members, T) == Some(B);
    AcceptsObject(w, h, ref, shape, None, VALUE);
  }

  lemma UnionAccepts(w: World, h: Heap, ref: Ref, key: Text, x: Ref, y: Ref)
    requires Sound(h) && HasUnion(h, ref, key, [x, y]) && x < ref && y < ref && key in VALUE.members
    requires Tabled(h, [x, y], key) && Selects(h, y, key, Some(B)) && Accepts(w, h, y, Some(VALUE))
    ensures Accepts(w, h, ref, Some(VALUE))
  {
    var options := [x, y];
    assert options[1] == y && Lookup(VALUE.members, key) == Some(B);
    AcceptsUnion(w, h, ref, VALUE);
    assert DispatchAccepts(w, h, options, key, ref, VALUE);
  }

  lemma NestedAccepts(w: World, h: Heap, p: Parts)
    requires IsNested(h, p)
    ensures Accepts(w, h, p.inner, Some(VALUE)) && Accepts(w, h, p.third, Some(VALUE))
    ensures Accepts(w, h, p.outer, Some(VALUE))
  {
    ScalarsAccept(w, h, p);
    ObjectAccepts(w, h, p.second, p.b, p.text);
    ObjectAccepts(w, h, p.third, p.text, p.b);
    InnerTabled(h, p);
    IsBranchOf(h, p.second, p.b, p.text, B);
    BranchSelects(h, p.second, K, B, Some(B));
    UnionAccepts(w, h, p.inner, K, p.first, p.second);
    OuterTabled(h, p);
    UnionAccepts(w, h, p.outer, T, p.inner, p.third);
  }

  /** Everything below the outer union. */
  function Below(p: Parts): set<Ref> {
    {p.a, p.b, p.text, p.first, p.second, p.inner, p.third}
  }

  lemma BelowInScope(h: Heap, p: Parts)
    requires IsNested(h, p)
    ensures InScope(h, Below(p), true)
  {
    InnerTabled(h, p);
  }

  /** Both options of the outer union are valid. */
  lemma BothValid(w: World, h: Heap, p: Parts, hops: nat)
    requires IsNested(h, p) && hops >= p.outer
    ensures LowerAll(h, NO_NAMES, Defs, [p.inner, p.third], p.outer).Ok?
    ensures var branches := LowerAll(h, NO_NAMES, Defs, [p.inner, p.third], p.outer).value;
      forall i :: 0 <= i < |branches| ==> Valid(w.oracle, NO_DEFS, hops, branches[i], VALUE)
  {
    NestedLowers(h, p);
    NestedAccepts(w, h, p);
    BelowInScope(h, p);
    var options := [p.inner, p.third];
    AllLowered(h, NO_NAMES, Defs, options, p.outer);
    var branches := LowerAll(h, NO_NAMES, Defs, options, p.outer).value;
    forall i | 0 <= i < |branches|
      ensures Valid(w.oracle, NO_DEFS, hops, branches[i], VALUE)
    {
      MeaningPreserved(w, h, NO_NAMES, Defs, NO_DEFS, Below(p), hops, options[i], false, VALUE);
    }
  }

  lemma OuterInvalid(w: World, h: Heap, p: Parts, hops: nat)
    requires IsNested(h, p) && hops >= p.outer
    ensures LowerDef(h, NO_NAMES, Defs, p.outer).Ok?
    ensures !Valid(w.oracle, NO_DEFS, hops, LowerDef(h, NO_NAMES, Defs, p.outer).value, VALUE)
  {
    NestedLowers(h, p);
    BothValid(w, h, p, hops);
    TwoValid(w.oracle, hops, LowerAll(h, NO_NAMES, Defs, [p.inner, p.third], p.outer).value);
    UnionLowersTo(h, p.outer, T, [p.inner, p.third]);
  }

  lemma UnionLowersTo(h: Heap, ref: Ref, key: Text, options: seq<Ref>)
    requires Sound(h) && HasUnion(h, ref, key, options) && OldRefs(options, ref)
    requires LowerAll(h, NO_NAMES, Defs, options, ref).Ok?
    ensures LowerDef(h, NO_NAMES, Defs, ref) == Ok(OneOfSchema(LowerAll(h, NO_NAMES, Defs, options, ref).value, None))
  {
  }

  lemma TwoValid(oracle: Oracle, hops: nat, branches: seq<Schema>)
    requires |branches| == 2 && forall i :: 0 <= i < 2 ==> Valid(oracle, NO_DEFS, hops, branches[i], VALUE)
    ensures !Valid(oracle, NO_DEFS, hops, OneOfSchema(branches, None), VALUE)
  {
    VerdictsAre(oracle, NO_DEFS, hops, branches, VALUE);
    var verdicts := Verdicts(oracle, NO_DEFS, hops, branches, VALUE);
    assert verdicts[0] && verdicts[1];
    ValidOneOf(oracle, NO_DEFS, hops, branches, None, VALUE);
  }

  /** The outer union is built, has a dispatch table and lowers; it accepts {k: 'b', t: 'b'}, which is not
      valid against the lowered document because two branches are. */
  lemma NestedUnionAcceptsInvalid(compiles: Text -> bool, w: World, hops: nat)
    requires hops >= 10
    ensures AcceptsInvalid(w, hops, Nested(compiles).0, Nested(compiles).1)
  {
    NestedIsBuilt(compiles);
    NestedVerdicts(w, Nested(compiles).0, PARTS, hops);
  }

  /** A lowered union with a dispatch table that accepts a value its document refuses. */
  ghost predicate AcceptsInvalid(w: World, hops: nat, h: Heap, ref: Ref) {
    && Sound(h) && ref < |h.nodes| && Lower(h, NO_NAMES, Defs, ref, true).Ok?
    && h.nodes[ref].def.UnionDef? && h.nodes[ref].def.discriminator == Some(T)
    && Tabled(h, h.nodes[ref].def.options, T)
    && Accepts(w, h, ref, Some(VALUE))
    && !Valid(w.oracle, NO_DEFS, hops, Lower(h, NO_NAMES, Defs, ref, true).value, VALUE)
  }

  lemma NestedVerdicts(w: World, h: Heap, p: Parts, hops: nat)
    requires IsNested(h, p) && hops >= p.outer
    ensures AcceptsInvalid(w, hops, h, p.outer)
  {
    OuterTabled(h, p);
    NestedAccepts(w, h, p);
    OuterInvalid(w, h, p, hops);
  }
}
