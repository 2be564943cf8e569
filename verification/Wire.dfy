/**
 * The tb builders. Zod schemas are objects on a heap; a reference is the position at which the object
 * was created, so a schema can only refer to older ones. Registrations are keyed by object identity,
 * as in the WeakMap of the builders, and checks are compared by identity as well.
 */
module Wire {
  import opened Wrappers
  import opened Utf16
  import opened JsonSchema

  type Ref = nat

  /** A refinement attached to a schema; Foreign ones were written outside the builders. */
  datatype Test =
    | MaxCodePoints(limit: real)
    | MinCodePoints(limit: real)
    | HasFormat(format: Format)
    | HasPattern(pattern: Text)
    | IsInteger
    | AtLeast(limit: real)
    | AtMost(limit: real)
    | MinItems(limit: real)
    | MaxItems(limit: real)
    | MinKeys(limit: real)
    | Foreign(id: nat)

  datatype Slot = Slot(key: Text, schema: Ref)

  /** What a Zod schema object is. OtherDef stands for every construct not listed. */
  datatype Def =
    | StringDef
    | NumberDef
    | BooleanDef
    | EnumDef(entries: seq<Text>)
    | LiteralDef(values: seq<Json>)
    | ArrayDef(element: Ref)
    | ObjectDef(shape: seq<Slot>, catchall: Option<Ref>)
    | RecordDef
    | UnionDef(options: seq<Ref>, discriminator: Option<Text>, unionFallback: bool, inclusive: bool)
    | NullableDef(inner: Ref)
    | OptionalDef(inner: Ref)
    | NeverDef
    | OtherDef(id: nat)

  /** A schema object: its definition and the check objects attached to it. */
  datatype Zod = Zod(def: Def, checks: seq<nat>)

  datatype StringOptions = StringOptions(
    maxLength: Option<real>,
    minLength: Option<real>,
    format: Option<Format>,
    pattern: Option<Text>,
    description: Option<Text>)

  datatype Lowering =
    | LString(options: StringOptions)
    | LInteger(minimum: real, maximum: real)
    | LBoolean
    | LEnum(values: seq<Text>)
    | LConst(value: Json)
    | LArray(minItems: real, maxItems: real)
    | LObject(minProperties: Option<real>, description: Option<Text>)
    | LLoose(description: Option<Text>)
    | LOneOf(discriminator: Text, description: Option<Text>)

  datatype Registration = Registration(lowering: Lowering, checks: seq<nat>)

  datatype Heap = Heap(nodes: seq<Zod>, tests: seq<Test>, registrations: map<Ref, Registration>)

  const EMPTY_HEAP := Heap([], [], map[])

  datatype BuildError = BadLimit | BadPattern | BadExpression

  // ----- Property order of JavaScript objects ----------------------------------------------------

  /** Canonical array indices: JavaScript lists such keys first, in numeric order. */
  predicate IsIndexName(t: Text) {
    && t != [] && (forall i :: 0 <= i < |t| ==> 0x30 <= t[i] <= 0x39)
    && (|t| == 1 || t[0] != 0x30) && IndexValue(t) < 0xFFFF_FFFF
  }

  function IndexValue(t: Text): int {
    if t == [] then 0 else 10 * IndexValue(t[..|t| - 1]) + t[|t| - 1] - 0x30
  }

  /** Where a new key goes among the keys an object has: nowhere when it is present. */
  function AddKey(keys: seq<Text>, key: Text): seq<Text> {
    if key in keys then keys
    else if !IsIndexName(key) then keys + [key]
    else AddIndex(keys, key)
  }

  function AddIndex(keys: seq<Text>, key: Text): seq<Text> {
    if keys == [] || !IsIndexName(keys[0]) || IndexValue(key) < IndexValue(keys[0]) then [key] + keys
    else [keys[0]] + AddIndex(keys[1..], key)
  }

  /** The own-key order of an object to which the keys were added one after another. */
  function KeyOrder(keys: seq<Text>): seq<Text> {
    if keys == [] then [] else AddKey(KeyOrder(keys[..|keys| - 1]), keys[|keys| - 1])
  }

  lemma {:induction false} AddIndexElements(keys: seq<Text>, key: Text)
    ensures forall k :: k in AddIndex(keys, key) <==> k == key || k in keys
  {
    if keys != [] {
      AddIndexElements(keys[1..], key);
      assert forall k :: k in keys <==> k == keys[0] || k in keys[1..];
    }
  }

  /** The entries of an enum are its values, without repetitions and in key order. */
  lemma {:induction false} KeyOrderElements(keys: seq<Text>)
    ensures forall k :: k in KeyOrder(keys) <==> k in keys
  {
    if keys != [] {
      var init, last := keys[..|keys| - 1], keys[|keys| - 1];
      KeyOrderElements(init);
      AddIndexElements(KeyOrder(init), last);
      assert forall k :: k in keys <==> k == last || k in init;
    }
  }

  /** Without repetitions, the index names first and in ascending order. */
  predicate InKeyOrder(keys: seq<Text>) {
    forall i, j :: 0 <= i < j < |keys| ==> Precedes(keys[i], keys[j])
  }

  /** `a` may come before `b` among the keys of an object. */
  predicate Precedes(a: Text, b: Text) {
    a != b && (IsIndexName(b) ==> IsIndexName(a) && IndexValue(a) <= IndexValue(b))
  }

  lemma InKeyOrderCons(key: Text, keys: seq<Text>)
    ensures InKeyOrder([key] + keys) <==> InKeyOrder(keys) && forall k :: k in keys ==> Precedes(key, k)
  {
    var all := [key] + keys;
    if InKeyOrder(all) {
      forall i, j | 0 <= i < j < |keys|
        ensures Precedes(keys[i], keys[j])
      {
        assert all[i + 1] == keys[i] && all[j + 1] == keys[j];
      }
      forall j | 0 <= j < |keys|
        ensures Precedes(key, keys[j])
      {
        assert all[0] == key && all[j + 1] == keys[j];
      }
    }
  }

  lemma {:induction false} AddIndexInOrder(keys: seq<Text>, key: Text)
    requires InKeyOrder(keys) && IsIndexName(key) && key !in keys
    ensures InKeyOrder(AddIndex(keys, key))
  {
    InKeyOrderCons(key, keys);
    if keys != [] {
      assert keys == [keys[0]] + keys[1..];
      InKeyOrderCons(keys[0], keys[1..]);
      AddIndexInOrder(keys[1..], key);
      AddIndexElements(keys[1..], key);
      InKeyOrderCons(keys[0], AddIndex(keys[1..], key));
    }
  }

  lemma {:induction false} KeyOrderInOrder(keys: seq<Text>)
    ensures InKeyOrder(KeyOrder(keys))
  {
    if keys != [] {
      var init, last := KeyOrder(keys[..|keys| - 1]), keys[|keys| - 1];
      KeyOrderInOrder(keys[..|keys| - 1]);
      if last !in init && IsIndexName(last) {
        AddIndexInOrder(init, last);
      }
    }
  }

  lemma {:induction false} AddIndexLast(keys: seq<Text>, key: Text)
    requires IsIndexName(key) && forall k :: k in keys ==> Precedes(k, key)
    ensures AddIndex(keys, key) == keys + [key]
  {
    if keys != [] {
      assert keys[0] in keys;
      AddIndexLast(keys[1..], key);
      assert [keys[0]] + (keys[1..] + [key]) == keys + [key];
    }
  }

  /** Which lists JavaScript keeps as they are when they become the keys of an object. */
  lemma {:induction false} KeyOrderFixed(keys: seq<Text>)
    ensures KeyOrder(keys) == keys <==> InKeyOrder(keys)
  {
    KeyOrderInOrder(keys);
    if keys != [] && InKeyOrder(keys) {
      var init, last := keys[..|keys| - 1], keys[|keys| - 1];
      KeyOrderFixed(init);
      forall k | k in init
        ensures Precedes(k, last)
      {
        var i :| 0 <= i < |init| && init[i] == k;
        assert Precedes(keys[i], keys[|keys| - 1]);
      }
      if IsIndexName(last) {
        AddIndexLast(init, last);
      }
      assert last !in init;
      assert init + [last] == keys;
    }
  }

  // ----- The builders as functions of the heap ---------------------------------------------------

  predicate IsLength(value: real) {
    value.Floor as real == value && 0.0 <= value <= MAX_SAFE_INTEGER as real
  }

  predicate IsOptionalLength(value: Option<real>) {
    value.Some? ==> IsLength(value.value)
  }

  function When<T>(condition: bool, item: T): seq<T> {
    if condition then [item] else []
  }

  function LengthTests(o: StringOptions): seq<Test> {
    (if o.maxLength.Some? then [MaxCodePoints(o.maxLength.value)] else []) +
    (if o.minLength.Some? then [MinCodePoints(o.minLength.value)] else [])
  }

  function ContentTests(o: StringOptions): seq<Test> {
    (if o.format.Some? then [HasFormat(o.format.value)] else []) +
    (if o.pattern.Some? then [HasPattern(o.pattern.value)] else [])
  }

  function StringTests(o: StringOptions): seq<Test> {
    LengthTests(o) + ContentTests(o)
  }

  function IntegerTests(minimum: real, maximum: real): seq<Test> {
    [IsInteger, AtLeast(minimum), AtMost(maximum)]
  }

  function ArrayTests(minItems: real, maxItems: real): seq<Test> {
    [MinItems(minItems), MaxItems(maxItems)]
  }

  function ObjectTests(minProperties: Option<real>): seq<Test> {
    if minProperties.Some? then [MinKeys(minProperties.value)] else []
  }

  function NewChecks(h: Heap, tests: seq<Test>): (cs: seq<nat>)
    ensures |cs| == |tests|
  {
    seq(|tests|, i requires 0 <= i => |h.tests| + i)
  }

  /** The tests that a builder pushes and registers for its parameters. */
  function TestsOf(l: Lowering): seq<Test> {
    match l
    case LString(options) => StringTests(options)
    case LInteger(minimum, maximum) => IntegerTests(minimum, maximum)
    case LArray(minItems, maxItems) => ArrayTests(minItems, maxItems)
    case LObject(minProperties, _) => ObjectTests(minProperties)
    case _ => []
  }

  /** A schema, the copy with the checks, and the copy with the description, as far as they are made. */
  function NewObjects(def: Def, checks: seq<nat>, described: bool): (objects: seq<Zod>)
    ensures objects != [] && objects[|objects| - 1] == Zod(def, checks)
    ensures forall i :: 0 <= i < |objects| ==> objects[i] == Zod(def, []) || objects[i] == Zod(def, checks)
  {
    [Zod(def, [])] + When(checks != [], Zod(def, checks)) + When(described, Zod(def, checks))
  }

  /** Creates the objects and registers the last one. */
  function Built(h: Heap, def: Def, described: bool, l: Lowering): (Heap, Ref) {
    var checks := NewChecks(h, TestsOf(l));
    var nodes := h.nodes + NewObjects(def, checks, described);
    var ref := |nodes| - 1;
    (Heap(nodes, h.tests + TestsOf(l), h.registrations[ref := Registration(l, checks)]), ref)
  }

  function Created(h: Heap, node: Zod): (Heap, Ref) {
    (h.(nodes := h.nodes + [node]), |h.nodes|)
  }

  type Outcome = Result<(Heap, Ref), BuildError>

  function MakeString(compiles: Text -> bool, h: Heap, o: StringOptions): Outcome {
    if !IsOptionalLength(o.maxLength) || !IsOptionalLength(o.minLength) then Err(BadLimit)
    else if o.pattern.Some? && !compiles(o.pattern.value) then Err(BadPattern)
    else Ok(Built(h, StringDef, o.description.Some?, LString(o)))
  }

  function MakeInteger(h: Heap, minimum: real, maximum: real): (Heap, Ref) {
    Built(h, NumberDef, false, LInteger(minimum, maximum))
  }

  function MakeBoolean(h: Heap): (Heap, Ref) {
    Built(h, BooleanDef, false, LBoolean)
  }

  function MakeEnum(h: Heap, values: seq<Text>): (Heap, Ref) {
    Built(h, EnumDef(KeyOrder(values)), false, LEnum(values))
  }

  function MakeLiteral(h: Heap, value: Json): (Heap, Ref) {
    Built(h, LiteralDef([value]), false, LConst(value))
  }

  function MakeArray(h: Heap, item: Ref, minItems: real, maxItems: real): Outcome {
    if !IsLength(minItems) || !IsLength(maxItems) then Err(BadLimit)
    else Ok(Built(h, ArrayDef(item), false, LArray(minItems, maxItems)))
  }

  function MakeObject(h: Heap, shape: seq<Slot>, minProperties: Option<real>, description: Option<Text>): Outcome {
    if !IsOptionalLength(minProperties) then Err(BadLimit)
    else
      var (h', never) := Created(h, Zod(NeverDef, []));
      Ok(Built(h', ObjectDef(shape, Some(never)), description.Some?, LObject(minProperties, description)))
  }

  function MakeLoose(h: Heap, description: Option<Text>): (Heap, Ref) {
    Built(h, RecordDef, description.Some?, LLoose(description))
  }

  function MakeOneOf(h: Heap, discriminator: Text, options: seq<Ref>, description: Option<Text>): (Heap, Ref) {
    Built(h, UnionDef(options, Some(discriminator), false, false), description.Some?,
          LOneOf(discriminator, description))
  }

  // ----- What every heap of schemas satisfies ----------------------------------------------------

  ghost predicate OlderThan(def: Def, ref: Ref) {
    match def
    case ArrayDef(element) => element < ref
    case ObjectDef(shape, catchall) =>
      (forall i :: 0 <= i < |shape| ==> shape[i].schema < ref) && (catchall.Some? ==> catchall.value < ref)
    case UnionDef(options, _, _, _) => forall i :: 0 <= i < |options| ==> options[i] < ref
    case NullableDef(inner) => inner < ref
    case OptionalDef(inner) => inner < ref
    case _ => true
  }

  /** Schemas refer to older schemas and to existing checks. */
  ghost predicate Ordered(h: Heap) {
    (forall r :: 0 <= r < |h.nodes| ==> OlderThan(h.nodes[r].def, r)) &&
    forall r, i :: 0 <= r < |h.nodes| && 0 <= i < |h.nodes[r].checks| ==> h.nodes[r].checks[i] < |h.tests|
  }

  /** The tests behind a list of check objects. */
  ghost predicate Carries(h: Heap, checks: seq<nat>, tests: seq<Test>) {
    |checks| == |tests| && forall i :: 0 <= i < |checks| ==> checks[i] < |h.tests| && h.tests[checks[i]] == tests[i]
  }

  /** The registered checks test the registered parameters. Nothing is said of the object itself, which
      may have been changed since: the lowering compares it with its registration. */
  ghost predicate RegisteredWell(h: Heap, ref: Ref) {
    && ref in h.registrations && ref < |h.nodes|
    && Carries(h, h.registrations[ref].checks, TestsOf(h.registrations[ref].lowering))
  }

  /** The invariant of every reachable heap. */
  ghost predicate Sound(h: Heap) {
    Ordered(h) && forall r {:trigger RegisteredWell(h, r)} :: r in h.registrations ==> RegisteredWell(h, r)
  }

  /** `child` is a schema that `parent` is made of. */
  ghost predicate Child(h: Heap, parent: Ref, child: Ref)
    requires parent < |h.nodes|
  {
    match h.nodes[parent].def
    case ArrayDef(element) => child == element
    case ObjectDef(shape, _) => exists i :: 0 <= i < |shape| && shape[i].schema == child
    case UnionDef(options, _, _, _) => exists i :: 0 <= i < |options| && options[i] == child
    case NullableDef(inner) => child == inner
    case OptionalDef(inner) => child == inner
    case _ => false
  }

  /** Later heaps keep every older schema, check and registration, and register no older schema. */
  ghost predicate Extends(h: Heap, h': Heap) {
    && |h.nodes| <= |h'.nodes| && h'.nodes[..|h.nodes|] == h.nodes
    && |h.tests| <= |h'.tests| && h'.tests[..|h.tests|] == h.tests
    && forall r :: r < |h.nodes| ==>
         (r in h.registrations <==> r in h'.registrations) &&
         (r in h.registrations ==> h.registrations[r] == h'.registrations[r])
  }

  // ----- Runtime acceptance ----------------------------------------------------------------------

  /** What lies outside the model: foreign constructs and foreign checks. */
  datatype World = World(oracle: Oracle, foreignSchema: (nat, Option<Json>) -> bool,
                         foreignCheck: (nat, Option<Json>) -> bool)

  ghost predicate Passes(w: World, t: Test, v: Option<Json>) {
    match t
    case MaxCodePoints(limit) => v.Some? && v.value.Str? ==> CodePoints(v.value.s) as real <= limit
    case MinCodePoints(limit) => v.Some? && v.value.Str? ==> CodePoints(v.value.s) as real >= limit
    case HasFormat(format) => v.Some? && v.value.Str? ==> w.oracle.matchesFormat(format, v.value.s)
    case HasPattern(pattern) => v.Some? && v.value.Str? ==> w.oracle.matchesPattern(pattern, v.value.s)
    case IsInteger => v.Some? && v.value.Num? ==> v.value.n.Floor as real == v.value.n
    case AtLeast(limit) => v.Some? && v.value.Num? ==> v.value.n >= limit
    case AtMost(limit) => v.Some? && v.value.Num? ==> v.value.n <= limit
    case MinItems(limit) => v.Some? && v.value.Arr? ==> |v.value.items| as real >= limit
    case MaxItems(limit) => v.Some? && v.value.Arr? ==> |v.value.items| as real <= limit
    case MinKeys(limit) => v.Some? && v.value.Obj? ==> |v.value.members| as real >= limit
    case Foreign(id) => w.foreignCheck(id, v)
  }

  function Lookup(members: map<Text, Json>, key: Text): Option<Json> {
    if key in members then Some(members[key]) else None
  }

  function SlotKeys(shape: seq<Slot>): set<Text> {
    set s | s in shape :: s.key
  }

  // ----- Discriminated unions --------------------------------------------------------------------

  /** The schema is limited to a known set of values: a literal, an enum, or a wrapper around one. */
  ghost predicate HasValues(h: Heap, ref: Ref)
    requires Ordered(h) && ref < |h.nodes|
    decreases ref
  {
    match h.nodes[ref].def
    case EnumDef(_) => true
    case LiteralDef(_) => true
    case NullableDef(inner) => HasValues(h, inner)
    case OptionalDef(inner) => HasValues(h, inner)
    case _ => false
  }

  /** `x` is in that set; None is undefined. */
  ghost predicate InValues(h: Heap, ref: Ref, x: Option<Json>)
    requires Ordered(h) && ref < |h.nodes|
    decreases ref
  {
    match h.nodes[ref].def
    case EnumDef(entries) => x.Some? && x.value.Str? && x.value.s in entries
    case LiteralDef(values) => x.Some? && x.value in values
    case NullableDef(inner) => x == Some(Null) || InValues(h, inner, x)
    case OptionalDef(inner) => x == None || InValues(h, inner, x)
    case _ => false
  }

  ghost predicate HasValuedSlot(h: Heap, shape: seq<Slot>, key: Text)
    requires Ordered(h) && forall i :: 0 <= i < |shape| ==> shape[i].schema < |h.nodes|
  {
    exists i :: 0 <= i < |shape| && shape[i].key == key && HasValues(h, shape[i].schema)
  }

  /** Some property of the option tells its objects apart; a union needs that of each of its options. */
  ghost predicate Discriminable(h: Heap, option: Ref)
    requires Ordered(h) && option < |h.nodes|
    decreases option
  {
    match h.nodes[option].def
    case ObjectDef(shape, _) => exists i :: 0 <= i < |shape| && HasValuedSlot(h, shape, shape[i].key)
    case UnionDef(options, discriminator, _, _) =>
      discriminator.Some? && forall i :: 0 <= i < |options| ==> Discriminable(h, options[i])
    case _ => false
  }

  /** The dispatch table has an entry for the value `x` of the property `key` that leads to the option. */
  ghost predicate Selects(h: Heap, option: Ref, key: Text, x: Option<Json>)
    requires Ordered(h) && option < |h.nodes|
    decreases option
  {
    match h.nodes[option].def
    case ObjectDef(shape, _) =>
      exists i :: 0 <= i < |shape| && shape[i].key == key && HasValues(h, shape[i].schema) &&
        InValues(h, shape[i].schema, x)
    case UnionDef(options, _, _, _) =>
      Discriminable(h, option) && exists i :: 0 <= i < |options| && Selects(h, options[i], key, x)
    case _ => false
  }

  ghost predicate Selectable(h: Heap, option: Ref, key: Text)
    requires Ordered(h) && option < |h.nodes|
  {
    exists x :: Selects(h, option, key, x)
  }

  /** The dispatch table exists: every option has entries, and no entry leads to two options. Otherwise
      parsing any object throws. */
  ghost predicate Tabled(h: Heap, options: seq<Ref>, key: Text)
    requires Ordered(h) && forall i :: 0 <= i < |options| ==> options[i] < |h.nodes|
  {
    && (forall i :: 0 <= i < |options| ==> Selectable(h, options[i], key))
    && forall i, j, x :: 0 <= i < j < |options| && Selects(h, options[i], key, x) ==> !Selects(h, options[j], key, x)
  }

  /** Every object of the option has entries under `key`: for an object schema that is a property with
      known values, for a nested union the same for all its options. */
  ghost predicate Keyed(h: Heap, option: Ref, key: Text)
    requires Ordered(h) && option < |h.nodes|
    decreases option
  {
    match h.nodes[option].def
    case ObjectDef(shape, _) => HasValuedSlot(h, shape, key)
    case UnionDef(options, discriminator, _, _) =>
      discriminator.Some? && forall i :: 0 <= i < |options| ==> Keyed(h, options[i], key)
    case _ => false
  }

  /** The schema accepts the value; None is JavaScript's undefined, as for an absent property. */
  ghost predicate Accepts(w: World, h: Heap, ref: Ref, v: Option<Json>)
    requires Ordered(h) && ref < |h.nodes|
    decreases ref, 1
  {
    AcceptsDef(w, h, ref, v) &&
    forall i :: 0 <= i < |h.nodes[ref].checks| ==> Passes(w, h.tests[h.nodes[ref].checks[i]], v)
  }

  ghost predicate AcceptsDef(w: World, h: Heap, ref: Ref, v: Option<Json>)
    requires Ordered(h) && ref < |h.nodes|
    decreases ref, 0, 1
  {
    match h.nodes[ref].def
    case StringDef => v.Some? && v.value.Str?
    case NumberDef => v.Some? && v.value.Num?
    case BooleanDef => v.Some? && v.value.Bool?
    case EnumDef(entries) => v.Some? && v.value.Str? && v.value.s in entries
    case LiteralDef(values) => v.Some? && v.value in values
    case ArrayDef(element) =>
      v.Some? && v.value.Arr? &&
      forall i :: 0 <= i < |v.value.items| ==> Accepts(w, h, element, Some(v.value.items[i]))
    case ObjectDef(shape, catchall) =>
      && v.Some? && v.value.Obj?
      && (forall i :: 0 <= i < |shape| ==> Accepts(w, h, shape[i].schema, Lookup(v.value.members, shape[i].key)))
      && (catchall.Some? ==>
            forall k :: k in v.value.members && k !in SlotKeys(shape) ==>
              Accepts(w, h, catchall.value, Some(v.value.members[k])))
    case RecordDef => v.Some? && v.value.Obj?
    case UnionDef(options, discriminator, _, _) =>
      if discriminator.Some? then v.Some? && DispatchAccepts(w, h, options, discriminator.value, ref, v.value)
      else exists i :: 0 <= i < |options| && Accepts(w, h, options[i], v)
    case NullableDef(inner) => v == Some(Null) || Accepts(w, h, inner, v)
    case OptionalDef(inner) => v == None || Accepts(w, h, inner, v)
    case NeverDef => false
    case OtherDef(id) => w.foreignSchema(id, v)
  }

  /** Parsing a discriminated union: only the option that the discriminator selects is tried. */
  ghost predicate DispatchAccepts(w: World, h: Heap, options: seq<Ref>, discriminator: Text, owner: Ref, v: Json)
    requires Ordered(h) && owner < |h.nodes| && forall i :: 0 <= i < |options| ==> options[i] < owner
    decreases owner, 0, 0
  {
    v.Obj? && Tabled(h, options, discriminator) &&
    exists i :: 0 <= i < |options| && Selects(h, options[i], discriminator, Lookup(v.members, discriminator)) &&
      Accepts(w, h, options[i], Some(v))
  }
}
