/**
 * The builders as they run: each creates schema objects, pushes check objects and records the
 * registration. Whatever else creates schemas (wrappers, foreign constructs, derived copies), the heap
 * stays sound: registered checks test the registered parameters.
 */
module Builders {
  import opened Wrappers
  import opened Utf16
  import opened JsonSchema
  import opened Wire

  // ----- Older facts survive ---------------------------------------------------------------------

  lemma ExtendsTransitive(a: Heap, b: Heap, c: Heap)
    requires Extends(a, b) && Extends(b, c)
    ensures Extends(a, c)
  {
    assert c.nodes[..|a.nodes|] == c.nodes[..|b.nodes|][..|a.nodes|];
    assert c.tests[..|a.tests|] == c.tests[..|b.tests|][..|a.tests|];
  }

  lemma NodeSurvives(h: Heap, h': Heap, ref: Ref)
    requires Extends(h, h') && ref < |h.nodes|
    ensures h'.nodes[ref] == h.nodes[ref]
  {
    assert h'.nodes[..|h.nodes|][ref] == h.nodes[ref];
  }

  lemma CarriesSurvives(h: Heap, h': Heap, checks: seq<nat>, tests: seq<Test>)
    requires Extends(h, h') && Carries(h, checks, tests)
    ensures Carries(h', checks, tests)
  {
    forall i | 0 <= i < |checks|
      ensures h'.tests[checks[i]] == tests[i]
    {
      assert h'.tests[..|h.tests|][checks[i]] == h.tests[checks[i]];
    }
  }

  /** Adding schemas that refer to older ones, with existing checks, and registering at most one of
      them, well, keeps the heap sound. */
  lemma StaysSound(h: Heap, h': Heap)
    requires Sound(h) && Extends(h, h') && Ordered(h')
    requires forall r :: r in h'.registrations && r >= |h.nodes| ==> RegisteredWell(h', r)
    ensures Sound(h')
  {
    forall r | r in h'.registrations
      ensures RegisteredWell(h', r)
    {
      if r < |h.nodes| {
        assert RegisteredWell(h, r);
        CarriesSurvives(h, h', h.registrations[r].checks, TestsOf(h.registrations[r].lowering));
      }
    }
  }

  // ----- One builder call ------------------------------------------------------------------------

  lemma CreatedFacts(h: Heap, node: Zod)
    requires Sound(h) && OlderThan(node.def, |h.nodes|)
    requires forall i :: 0 <= i < |node.checks| ==> node.checks[i] < |h.tests|
    ensures var (h', ref) := Created(h, node);
      Sound(h') && Extends(h, h') && ref == |h.nodes| && |h'.nodes| == ref + 1 && h'.nodes[ref] == node
  {
    assert forall r :: r in h.registrations ==> RegisteredWell(h, r);
    StaysSound(h, Created(h, node).0);
  }

  lemma OlderThanMonotone(def: Def, r: Ref, s: Ref)
    requires OlderThan(def, r) && r <= s
    ensures OlderThan(def, s)
  {
  }

  lemma NewChecksCarry(h: Heap, tests: seq<Test>, h': Heap)
    requires h'.tests == h.tests + tests
    ensures Carries(h', NewChecks(h, tests), tests)
  {
  }

  /** The new objects all have the definition, and no checks or all of them. */
  ghost predicate NewNodes(h: Heap, h': Heap, def: Def, checks: seq<nat>) {
    |h.nodes| <= |h'.nodes| && h'.nodes[..|h.nodes|] == h.nodes &&
    forall r :: |h.nodes| <= r < |h'.nodes| ==> h'.nodes[r] == Zod(def, []) || h'.nodes[r] == Zod(def, checks)
  }

  lemma Appended(nodes: seq<Zod>, objects: seq<Zod>, def: Def, checks: seq<nat>)
    requires objects != [] && objects[|objects| - 1] == Zod(def, checks)
    requires forall i :: 0 <= i < |objects| ==> objects[i] == Zod(def, []) || objects[i] == Zod(def, checks)
    ensures var all := nodes + objects;
      && all[..|nodes|] == nodes && all[|all| - 1] == Zod(def, checks)
      && forall r :: |nodes| <= r < |all| ==> all[r] == Zod(def, []) || all[r] == Zod(def, checks)
  {
    var all := nodes + objects;
    forall r | |nodes| <= r < |all|
      ensures all[r] == Zod(def, []) || all[r] == Zod(def, checks)
    {
      assert all[r] == objects[r - |nodes|];
    }
  }

  lemma BuiltNodes(h: Heap, def: Def, described: bool, l: Lowering)
    ensures var (h', ref) := Built(h, def, described, l);
      && NewNodes(h, h', def, NewChecks(h, TestsOf(l))) && |h.nodes| <= ref && |h'.nodes| == ref + 1
      && h'.nodes[ref] == Zod(def, NewChecks(h, TestsOf(l)))
  {
    var checks := NewChecks(h, TestsOf(l));
    Appended(h.nodes, NewObjects(def, checks, described), def, checks);
  }

  lemma BuiltExtends(h: Heap, def: Def, described: bool, l: Lowering)
    ensures Extends(h, Built(h, def, described, l).0)
  {
    BuiltNodes(h, def, described, l);
    assert (h.tests + TestsOf(l))[..|h.tests|] == h.tests;
  }

  lemma BuiltOrdered(h: Heap, h': Heap, def: Def, tests: seq<Test>)
    requires Ordered(h) && OlderThan(def, |h.nodes|)
    requires NewNodes(h, h', def, NewChecks(h, tests)) && h'.tests == h.tests + tests
    ensures Ordered(h')
  {
    forall r | 0 <= r < |h'.nodes|
      ensures OlderThan(h'.nodes[r].def, r)
      ensures forall i :: 0 <= i < |h'.nodes[r].checks| ==> h'.nodes[r].checks[i] < |h'.tests|
    {
      if r < |h.nodes| {
        assert h'.nodes[r] == h'.nodes[..|h.nodes|][r] == h.nodes[r];
      } else {
        OlderThanMonotone(def, |h.nodes|, r);
      }
    }
  }

  /** `ref` is the newest object of the sound heap h', built on top of h as described and registered with
      exactly its checks. */
  ghost predicate Made(h: Heap, h': Heap, ref: Ref, def: Def, l: Lowering) {
    && Sound(h') && Extends(h, h') && |h.nodes| <= ref && |h'.nodes| == ref + 1 && h'.nodes[ref].def == def
    && ref in h'.registrations && h'.registrations[ref] == Registration(l, h'.nodes[ref].checks)
  }

  lemma BuiltFacts(h: Heap, def: Def, described: bool, l: Lowering)
    requires Sound(h) && OlderThan(def, |h.nodes|)
    ensures var (h', ref) := Built(h, def, described, l); Made(h, h', ref, def, l)
  {
    var (h', ref) := Built(h, def, described, l);
    BuiltNodes(h, def, described, l);
    BuiltExtends(h, def, described, l);
    BuiltOrdered(h, h', def, TestsOf(l));
    NewChecksCarry(h, TestsOf(l), h');
    assert forall r :: r in h.registrations ==> RegisteredWell(h, r);
    StaysSound(h, h');
  }

  // ----- Which limits the builders take ----------------------------------------------------------

  /** The number is the non-negative integer `k`, which JavaScript holds safely. */
  predicate IsSafe(limit: real, k: int) {
    limit == k as real && 0 <= k <= 0x1F_FFFF_FFFF_FFFF
  }

  ghost predicate SafeLimit(limit: real) {
    exists k :: IsSafe(limit, k)
  }

  ghost predicate SafeOption(limit: Option<real>) {
    limit.Some? ==> SafeLimit(limit.value)
  }

  lemma LengthsAreSafe(limit: real)
    ensures IsLength(limit) <==> SafeLimit(limit)
  {
    if IsLength(limit) {
      assert IsSafe(limit, limit.Floor);
    }
  }

  lemma OptionsAreSafe(limit: Option<real>)
    ensures IsOptionalLength(limit) <==> SafeOption(limit)
  {
    if limit.Some? {
      LengthsAreSafe(limit.value);
    }
  }

  /** Main result on refusals: a string is refused exactly for an unsafe length or a pattern that does not
      compile, an array and an object exactly for an unsafe limit. Zero and the largest safe integer are
      taken. */
  lemma RefusedExactly(compiles: Text -> bool, h: Heap, o: StringOptions, item: Ref, minItems: real, maxItems: real,
                       shape: seq<Slot>, minProperties: Option<real>, description: Option<Text>)
    ensures MakeString(compiles, h, o).Ok? <==>
      SafeOption(o.maxLength) && SafeOption(o.minLength) && (o.pattern.Some? ==> compiles(o.pattern.value))
    ensures MakeArray(h, item, minItems, maxItems).Ok? <==> SafeLimit(minItems) && SafeLimit(maxItems)
    ensures MakeObject(h, shape, minProperties, description).Ok? <==> SafeOption(minProperties)
  {
    LengthsAreSafe(minItems);
    LengthsAreSafe(maxItems);
    OptionsAreSafe(o.maxLength);
    OptionsAreSafe(o.minLength);
    OptionsAreSafe(minProperties);
  }

  // ----- The builders ----------------------------------------------------------------------------

  class Builders {
    var nodes: seq<Zod>
    var tests: seq<Test>
    var registrations: map<Ref, Registration>

    constructor ()
      ensures Heap() == EMPTY_HEAP && Sound(Heap())
    {
      nodes, tests, registrations := [], [], map[];
    }

    ghost function Heap(): Heap
      reads this
    {
      Wire.Heap(nodes, tests, registrations)
    }

    ghost predicate Valid()
      reads this
    {
      Sound(Heap())
    }

    /** Any schema created outside the builders: a wrapper, a foreign construct, or a copy of a schema
        with more checks. It is not registered. */
    method Create(node: Zod) returns (ref: Ref)
      requires Valid() && OlderThan(node.def, |nodes|)
      requires forall i :: 0 <= i < |node.checks| ==> node.checks[i] < |tests|
      modifies this
      ensures Valid() && (Heap(), ref) == Created(old(Heap()), node) && Extends(old(Heap()), Heap())
    {
      CreatedFacts(Heap(), node);
      ref := |nodes|;
      nodes := nodes + [node];
    }

    method Push(test: Test) returns (check: nat)
      modifies this`tests
      ensures tests == old(tests) + [test] && check == |old(tests)|
    {
      check := |tests|;
      tests := tests + [test];
    }

    /** Creates the schema object and its copies with the pushed checks and the description. */
    method CreateObjects(def: Def, checks: seq<nat>, described: bool)
      modifies this`nodes
      ensures nodes == old(nodes) + NewObjects(def, checks, described)
    {
      nodes := nodes + [Zod(def, [])];
      if checks != [] {
        nodes := nodes + [Zod(def, checks)];
      }
      if described {
        nodes := nodes + [Zod(def, checks)];
      }
    }

    /** Creates the objects and registers the last one. */
    method Register(def: Def, checks: seq<nat>, described: bool, l: Lowering, ghost before: Wire.Heap)
        returns (ref: Ref)
      requires before.nodes == nodes && before.registrations == registrations
      requires tests == before.tests + TestsOf(l) && checks == NewChecks(before, TestsOf(l))
      modifies this`nodes, this`registrations
      ensures (Heap(), ref) == Built(before, def, described, l)
    {
      CreateObjects(def, checks, described);
      ref := |nodes| - 1;
      registrations := registrations[ref := Registration(l, checks)];
    }

    method PushLengthChecks(o: StringOptions) returns (checks: seq<nat>)
      modifies this`tests
      ensures tests == old(tests) + LengthTests(o)
      ensures |checks| == |LengthTests(o)| && forall i :: 0 <= i < |checks| ==> checks[i] == |old(tests)| + i
    {
      checks := [];
      if o.maxLength.Some? {
        var check := Push(MaxCodePoints(o.maxLength.value));
        checks := checks + [check];
      }
      if o.minLength.Some? {
        var check := Push(MinCodePoints(o.minLength.value));
        checks := checks + [check];
      }
    }

    method PushContentChecks(o: StringOptions) returns (checks: seq<nat>)
      modifies this`tests
      ensures tests == old(tests) + ContentTests(o)
      ensures |checks| == |ContentTests(o)| && forall i :: 0 <= i < |checks| ==> checks[i] == |old(tests)| + i
    {
      checks := [];
      if o.format.Some? {
        var check := Push(HasFormat(o.format.value));
        checks := checks + [check];
      }
      if o.pattern.Some? {
        var check := Push(HasPattern(o.pattern.value));
        checks := checks + [check];
      }
    }

    method PushStringChecks(o: StringOptions) returns (checks: seq<nat>)
      modifies this`tests
      ensures tests == old(tests) + StringTests(o) && checks == NewChecks(old(Heap()), StringTests(o))
    {
      var lengthChecks := PushLengthChecks(o);
      var contentChecks := PushContentChecks(o);
      checks := lengthChecks + contentChecks;
    }

    method String(compiles: Text -> bool, options: StringOptions) returns (r: Result<Ref, BuildError>)
      requires Valid()
      modifies this
      ensures Valid() && Extends(old(Heap()), Heap())
      ensures r.Ok? <==>
        && SafeOption(options.maxLength) && SafeOption(options.minLength)
        && (options.pattern.Some? ==> compiles(options.pattern.value))
      ensures match MakeString(compiles, old(Heap()), options)
        case Ok(made) => r.Ok? && (Heap(), r.value) == made
        case Err(e) => r == Err(e) && Heap() == old(Heap())
    {
      OptionsAreSafe(options.maxLength);
      OptionsAreSafe(options.minLength);
      if !IsOptionalLength(options.maxLength) || !IsOptionalLength(options.minLength) {
        return Err(BadLimit);
      }
      if options.pattern.Some? && !compiles(options.pattern.value) {
        return Err(BadPattern);
      }
      ghost var before := Heap();
      StringFacts(before, options);
      var checks := PushStringChecks(options);
      var ref := Register(StringDef, checks, options.description.Some?, LString(options), before);
      assert MakeString(compiles, before, options) == Ok((Heap(), ref));
      return Ok(ref);
    }

    method Integer(minimum: real, maximum: real) returns (ref: Ref)
      requires Valid()
      modifies this
      ensures Valid() && Extends(old(Heap()), Heap())
      ensures (Heap(), ref) == MakeInteger(old(Heap()), minimum, maximum)
    {
      ghost var before := Heap();
      var first := Push(IsInteger);
      var second := Push(AtLeast(minimum));
      var third := Push(AtMost(maximum));
      assert tests == before.tests + IntegerTests(minimum, maximum);
      assert [first, second, third] == NewChecks(before, IntegerTests(minimum, maximum));
      ref := Register(NumberDef, [first, second, third], false, LInteger(minimum, maximum), before);
      IntegerFacts(before, minimum, maximum);
    }

    /** A builder without checks. */
    method Unchecked(def: Def, described: bool, l: Lowering) returns (ref: Ref)
      requires TestsOf(l) == []
      modifies this`nodes, this`registrations
      ensures (Heap(), ref) == Built(old(Heap()), def, described, l)
    {
      ghost var before := Heap();
      assert tests == before.tests + [] && [] == NewChecks(before, []);
      ref := Register(def, [], described, l, before);
    }

    method Boolean() returns (ref: Ref)
      requires Valid()
      modifies this
      ensures Valid() && Extends(old(Heap()), Heap()) && (Heap(), ref) == MakeBoolean(old(Heap()))
    {
      BooleanFacts(Heap());
      ref := Unchecked(BooleanDef, false, LBoolean);
    }

    method Enum(values: seq<Text>) returns (ref: Ref)
      requires Valid()
      modifies this
      ensures Valid() && Extends(old(Heap()), Heap()) && (Heap(), ref) == MakeEnum(old(Heap()), values)
    {
      EnumFacts(Heap(), values);
      ref := Unchecked(EnumDef(KeyOrder(values)), false, LEnum(values));
    }

    method Literal(value: Json) returns (ref: Ref)
      requires Valid()
      modifies this
      ensures Valid() && Extends(old(Heap()), Heap()) && (Heap(), ref) == MakeLiteral(old(Heap()), value)
    {
      LiteralFacts(Heap(), value);
      ref := Unchecked(LiteralDef([value]), false, LConst(value));
    }

    method Array(item: Ref, minItems: real, maxItems: real) returns (r: Result<Ref, BuildError>)
      requires Valid() && item < |nodes|
      modifies this
      ensures Valid() && Extends(old(Heap()), Heap())
      ensures r.Ok? <==> SafeLimit(minItems) && SafeLimit(maxItems)
      ensures match MakeArray(old(Heap()), item, minItems, maxItems)
        case Ok(made) => r.Ok? && (Heap(), r.value) == made
        case Err(e) => r == Err(e) && Heap() == old(Heap())
    {
      LengthsAreSafe(minItems);
      LengthsAreSafe(maxItems);
      if !IsLength(minItems) || !IsLength(maxItems) {
        return Err(BadLimit);
      }
      ghost var before := Heap();
      var first := Push(MinItems(minItems));
      var second := Push(MaxItems(maxItems));
      assert tests == before.tests + ArrayTests(minItems, maxItems);
      assert [first, second] == NewChecks(before, ArrayTests(minItems, maxItems));
      var ref := Register(ArrayDef(item), [first, second], false, LArray(minItems, maxItems), before);
      ArrayFacts(before, item, minItems, maxItems);
      return Ok(ref);
    }

    method Object(shape: seq<Slot>, minProperties: Option<real>, description: Option<Text>)
        returns (r: Result<Ref, BuildError>)
      requires Valid() && forall i :: 0 <= i < |shape| ==> shape[i].schema < |nodes|
      modifies this
      ensures Valid() && Extends(old(Heap()), Heap())
      ensures r.Ok? <==> SafeOption(minProperties)
      ensures match MakeObject(old(Heap()), shape, minProperties, description)
        case Ok(made) => r.Ok? && (Heap(), r.value) == made
        case Err(e) => r == Err(e) && Heap() == old(Heap())
    {
      OptionsAreSafe(minProperties);
      if !IsOptionalLength(minProperties) {
        return Err(BadLimit);
      }
      ghost var start := Heap();
      var never := Create(Zod(NeverDef, []));
      ghost var before := Heap();
      var checks: seq<nat> := [];
      if minProperties.Some? {
        var check := Push(MinKeys(minProperties.value));
        checks := [check];
      }
      var def := ObjectDef(shape, Some(never));
      assert tests == before.tests + ObjectTests(minProperties);
      assert checks == NewChecks(before, ObjectTests(minProperties));
      var ref := Register(def, checks, description.Some?, LObject(minProperties, description), before);
      ObjectFacts(start, shape, minProperties, description);
      return Ok(ref);
    }

    method LooseObject(description: Option<Text>) returns (ref: Ref)
      requires Valid()
      modifies this
      ensures Valid() && Extends(old(Heap()), Heap()) && (Heap(), ref) == MakeLoose(old(Heap()), description)
    {
      LooseFacts(Heap(), description);
      ref := Unchecked(RecordDef, description.Some?, LLoose(description));
    }

    method OneOf(discriminator: Text, options: seq<Ref>, description: Option<Text>) returns (ref: Ref)
      requires Valid() && forall i :: 0 <= i < |options| ==> options[i] < |nodes|
      modifies this
      ensures Valid() && Extends(old(Heap()), Heap())
      ensures (Heap(), ref) == MakeOneOf(old(Heap()), discriminator, options, description)
    {
      OneOfFacts(Heap(), discriminator, options, description);
      ref := Unchecked(UnionDef(options, Some(discriminator), false, false), description.Some?,
                       LOneOf(discriminator, description));
    }
  }

  lemma StringFacts(h: Heap, o: StringOptions)
    requires Sound(h)
    ensures var (h', ref) := Built(h, StringDef, o.description.Some?, LString(o));
      Made(h, h', ref, StringDef, LString(o))
  {
    BuiltFacts(h, StringDef, o.description.Some?, LString(o));
  }

  lemma ObjectFacts(h: Heap, shape: seq<Slot>, minProperties: Option<real>, description: Option<Text>)
    requires Sound(h) && forall i :: 0 <= i < |shape| ==> shape[i].schema < |h.nodes|
    requires IsOptionalLength(minProperties)
    ensures var (h', ref) := MakeObject(h, shape, minProperties, description).value;
      && Made(h, h', ref, ObjectDef(shape, Some(|h.nodes|)), LObject(minProperties, description))
      && h'.nodes[|h.nodes|] == Zod(NeverDef, [])
  {
    var (h1, never) := Created(h, Zod(NeverDef, []));
    CreatedFacts(h, Zod(NeverDef, []));
    var def, l := ObjectDef(shape, Some(never)), LObject(minProperties, description);
    var (h', ref) := Built(h1, def, description.Some?, l);
    BuiltFacts(h1, def, description.Some?, l);
    NodeSurvives(h1, h', never);
    ExtendsTransitive(h, h1, h');
  }

  lemma OneOfFacts(h: Heap, discriminator: Text, options: seq<Ref>, description: Option<Text>)
    requires Sound(h) && forall i :: 0 <= i < |options| ==> options[i] < |h.nodes|
    ensures var (h', ref) := MakeOneOf(h, discriminator, options, description);
      Made(h, h', ref, UnionDef(options, Some(discriminator), false, false), LOneOf(discriminator, description))
  {
    BuiltFacts(h, UnionDef(options, Some(discriminator), false, false), description.Some?,
               LOneOf(discriminator, description));
  }

  lemma IntegerFacts(h: Heap, minimum: real, maximum: real)
    requires Sound(h)
    ensures var (h', ref) := MakeInteger(h, minimum, maximum); Made(h, h', ref, NumberDef, LInteger(minimum, maximum))
  {
    BuiltFacts(h, NumberDef, false, LInteger(minimum, maximum));
  }

  lemma BooleanFacts(h: Heap)
    requires Sound(h)
    ensures var (h', ref) := MakeBoolean(h); Made(h, h', ref, BooleanDef, LBoolean)
  {
    BuiltFacts(h, BooleanDef, false, LBoolean);
  }

  lemma EnumFacts(h: Heap, values: seq<Text>)
    requires Sound(h)
    ensures var (h', ref) := MakeEnum(h, values); Made(h, h', ref, EnumDef(KeyOrder(values)), LEnum(values))
  {
    BuiltFacts(h, EnumDef(KeyOrder(values)), false, LEnum(values));
  }

  lemma LiteralFacts(h: Heap, value: Json)
    requires Sound(h)
    ensures var (h', ref) := MakeLiteral(h, value); Made(h, h', ref, LiteralDef([value]), LConst(value))
  {
    BuiltFacts(h, LiteralDef([value]), false, LConst(value));
  }

  lemma ArrayFacts(h: Heap, item: Ref, minItems: real, maxItems: real)
    requires Sound(h) && item < |h.nodes| && IsLength(minItems) && IsLength(maxItems)
    ensures var (h', ref) := MakeArray(h, item, minItems, maxItems).value;
      Made(h, h', ref, ArrayDef(item), LArray(minItems, maxItems))
  {
    BuiltFacts(h, ArrayDef(item), false, LArray(minItems, maxItems));
  }

  lemma LooseFacts(h: Heap, description: Option<Text>)
    requires Sound(h)
    ensures var (h', ref) := MakeLoose(h, description); Made(h, h', ref, RecordDef, LLoose(description))
  {
    BuiltFacts(h, RecordDef, description.Some?, LLoose(description));
  }
}
