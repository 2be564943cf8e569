/**
 * The restricted lowering of builder schemas to JSON Schema. It accepts builder schemas with exactly
 * their registered checks, nullable wrappers, optional wrappers directly on object properties, and
 * references to named catalog schemas; anything else is refused.
 */
module Lowering {
  import opened Wrappers
  import opened Utf16
  import opened JsonSchema
  import opened Wire

  datatype Refusal =
    | NotBuilt | WrongBuilder | ForeignChecks | ChecksOnWrapper | EntriesDiffer | LiteralDiffers
    | NotStrict | NotExclusive | MisplacedOptional | UnsupportedConstruct

  type Names = map<Ref, Text>

  datatype Kind = KString | KInteger | KBoolean | KEnum | KConst | KArray | KObject | KLoose | KOneOf

  function KindOf(l: Wire.Lowering): Kind {
    match l
    case LString(_) => KString
    case LInteger(_, _) => KInteger
    case LBoolean => KBoolean
    case LEnum(_) => KEnum
    case LConst(_) => KConst
    case LArray(_, _) => KArray
    case LObject(_, _) => KObject
    case LLoose(_) => KLoose
    case LOneOf(_, _) => KOneOf
  }

  function Require(h: Heap, ref: Ref, kind: Kind): (r: Result<Wire.Lowering, Refusal>)
    requires ref < |h.nodes|
    ensures r.Ok? <==> ref in h.registrations && KindOf(h.registrations[ref].lowering) == kind
                       && h.nodes[ref].checks == h.registrations[ref].checks
    ensures r.Ok? ==> r.value == h.registrations[ref].lowering
  {
    if ref !in h.registrations then Err(NotBuilt)
    else if KindOf(h.registrations[ref].lowering) != kind then Err(WrongBuilder)
    else if h.nodes[ref].checks != h.registrations[ref].checks then Err(ForeignChecks)
    else Ok(h.registrations[ref].lowering)
  }

  function TextOption(t: Option<Text>): Option<Json> {
    match t
    case None => None
    case Some(s) => Some(Str(s))
  }

  function NumOption(n: Option<real>): Option<Json> {
    match n
    case None => None
    case Some(r) => Some(Num(r))
  }

  function FormatOption(f: Option<Format>): Option<FormatName> {
    match f
    case None => None
    case Some(format) => Some(Known(format))
  }

  function Texts(ts: seq<Text>): seq<Json> {
    seq(|ts|, i requires 0 <= i < |ts| => Str(ts[i]))
  }

  function RefSchema(prefix: Prefix, name: Text): Schema {
    Node(NO_KEYWORDS.(ref := Some(Named(prefix, name))))
  }

  function StringSchema(o: StringOptions): Schema {
    Node(NO_KEYWORDS.(typ := Some(StringType), maxLength := NumOption(o.maxLength),
      minLength := NumOption(o.minLength), format := FormatOption(o.format),
      pattern := TextOption(o.pattern), description := TextOption(o.description)))
  }

  function IntegerSchema(minimum: real, maximum: real): Schema {
    Node(NO_KEYWORDS.(typ := Some(IntegerType), minimum := Some(Num(minimum)), maximum := Some(Num(maximum))))
  }

  function EnumSchema(values: seq<Text>): Schema {
    Node(NO_KEYWORDS.(typ := Some(StringType), enumeration := Some(Arr(Texts(values)))))
  }

  function ArraySchema(item: Schema, minItems: real, maxItems: real): Schema {
    Node(NO_KEYWORDS.(typ := Some(ArrayType), items := Some(item),
      minItems := Some(Num(minItems)), maxItems := Some(Num(maxItems))))
  }

  function ObjectSchema(fields: Fields, minProperties: Option<real>, description: Option<Text>): Schema {
    Node(NO_KEYWORDS.(typ := Some(ObjectType), properties := Some(Table(fields.properties)),
      required := Some(Arr(Texts(fields.required))), additionalProperties := Some(Bool(false)),
      minProperties := NumOption(minProperties), description := TextOption(description)))
  }

  function NullableSchema(schema: Schema): Schema {
    Node(NO_KEYWORDS.(anyOf := Some(Schemas([schema, NULL_SCHEMA]))))
  }

  function LooseSchema(description: Option<Text>): Schema {
    Node(NO_KEYWORDS.(typ := Some(ObjectType), additionalProperties := Some(Bool(true)),
      description := TextOption(description)))
  }

  function OneOfSchema(branches: seq<Schema>, description: Option<Text>): Schema {
    Node(NO_KEYWORDS.(oneOf := Some(Schemas(branches)), description := TextOption(description)))
  }

  datatype Fields = Fields(properties: seq<Property>, required: seq<Text>)

  /** The property schema itself, without an optional wrapper. */
  function Unwrapped(h: Heap, ref: Ref): (r: Ref)
    requires Ordered(h) && ref < |h.nodes|
    ensures r <= ref
  {
    if h.nodes[ref].def.OptionalDef? then h.nodes[ref].def.inner else ref
  }

  ghost predicate OldSlots(shape: seq<Slot>, ref: Ref) {
    forall i :: 0 <= i < |shape| ==> shape[i].schema < ref
  }

  ghost predicate OldRefs(refs: seq<Ref>, ref: Ref) {
    forall i :: 0 <= i < |refs| ==> refs[i] < ref
  }

  type LowerResult = Result<Schema, Refusal>

  /** The cases of the lowering without subschemas, and the refused constructs. */
  function LowerScalar(h: Heap, ref: Ref): LowerResult
    requires ref < |h.nodes|
  {
    match h.nodes[ref].def
    case StringDef =>
      var l :- Require(h, ref, KString);
      Ok(StringSchema(l.options))
    case NumberDef =>
      var l :- Require(h, ref, KInteger);
      Ok(IntegerSchema(l.minimum, l.maximum))
    case BooleanDef =>
      var l :- Require(h, ref, KBoolean);
      Ok(Node(NO_KEYWORDS.(typ := Some(BooleanType))))
    case EnumDef(entries) =>
      var l :- Require(h, ref, KEnum);
      if entries != l.values then Err(EntriesDiffer) else Ok(EnumSchema(l.values))
    case LiteralDef(values) =>
      var l :- Require(h, ref, KConst);
      if values != [l.value] then Err(LiteralDiffers)
      else Ok(Node(NO_KEYWORDS.(constant := Some(l.value))))
    case RecordDef =>
      var l :- Require(h, ref, KLoose);
      Ok(LooseSchema(l.description))
    case OptionalDef(_) => Err(MisplacedOptional)
    case _ => Err(UnsupportedConstruct)
  }

  /** Lowers one schema. `root` disables the reference for the schema being defined itself. */
  ghost function Lower(h: Heap, names: Names, prefix: Prefix, ref: Ref, root: bool): LowerResult
    requires Ordered(h) && ref < |h.nodes|
    decreases ref, 1
  {
    if !root && ref in names then Ok(RefSchema(prefix, names[ref]))
    else LowerDef(h, names, prefix, ref)
  }

  ghost function LowerDef(h: Heap, names: Names, prefix: Prefix, ref: Ref): LowerResult
    requires Ordered(h) && ref < |h.nodes|
    decreases ref, 0
  {
    match h.nodes[ref].def
    case NullableDef(inner) => AsNullable(h, ref, Lower(h, names, prefix, inner, false))
    case ArrayDef(element) => AsArray(h, ref, Lower(h, names, prefix, element, false))
    case ObjectDef(shape, _) => AsObject(h, ref, LowerSlots(h, names, prefix, shape, ref))
    case UnionDef(options, _, _, _) => AsOneOf(h, ref, LowerAll(h, names, prefix, options, ref))
    case _ => LowerScalar(h, ref)
  }

  ghost function LowerAll(h: Heap, names: Names, prefix: Prefix, refs: seq<Ref>, owner: Ref)
      : (r: Result<seq<Schema>, Refusal>)
    requires Ordered(h) && owner < |h.nodes| && OldRefs(refs, owner)
    ensures r.Ok? ==> |r.value| == |refs|
    decreases owner, 0, |refs|
  {
    if refs == [] then Ok([])
    else WithBranch(LowerAll(h, names, prefix, refs[..|refs| - 1], owner),
                    Lower(h, names, prefix, refs[|refs| - 1], false))
  }

  ghost function LowerSlots(h: Heap, names: Names, prefix: Prefix, shape: seq<Slot>, owner: Ref)
      : (r: Result<Fields, Refusal>)
    requires Ordered(h) && owner < |h.nodes| && OldSlots(shape, owner)
    ensures r.Ok? ==> |r.value.properties| == |shape|
    decreases owner, 0, |shape|
  {
    if shape == [] then Ok(Fields([], []))
    else
      var slot := shape[|shape| - 1];
      WithSlot(h, LowerSlots(h, names, prefix, shape[..|shape| - 1], owner), slot,
               Lower(h, names, prefix, Unwrapped(h, slot.schema), false))
  }

  // The cases with subschemas, given the lowered subschemas.

  function AsNullable(h: Heap, ref: Ref, inner: LowerResult): LowerResult
    requires ref < |h.nodes|
  {
    if h.nodes[ref].checks != [] then Err(ChecksOnWrapper)
    else
      var schema :- inner;
      Ok(NullableSchema(schema))
  }

  function AsArray(h: Heap, ref: Ref, element: LowerResult): LowerResult
    requires ref < |h.nodes|
  {
    var l :- Require(h, ref, KArray);
    var item :- element;
    Ok(ArraySchema(item, l.minItems, l.maxItems))
  }

  function AsObject(h: Heap, ref: Ref, slots: Result<Fields, Refusal>): LowerResult
    requires Ordered(h) && ref < |h.nodes| && h.nodes[ref].def.ObjectDef?
  {
    var l :- Require(h, ref, KObject);
    var catchall := h.nodes[ref].def.catchall;
    if catchall.None? || !h.nodes[catchall.value].def.NeverDef? then Err(NotStrict)
    else
      var fields :- slots;
      Ok(ObjectSchema(fields, l.minProperties, l.description))
  }

  function AsOneOf(h: Heap, ref: Ref, options: Result<seq<Schema>, Refusal>): LowerResult
    requires ref < |h.nodes| && h.nodes[ref].def.UnionDef?
  {
    var l :- Require(h, ref, KOneOf);
    var def := h.nodes[ref].def;
    if def.discriminator != Some(l.discriminator) || def.unionFallback || def.inclusive then Err(NotExclusive)
    else
      var branches :- options;
      Ok(OneOfSchema(branches, l.description))
  }

  function WithBranch(init: Result<seq<Schema>, Refusal>, last: LowerResult): (r: Result<seq<Schema>, Refusal>)
    ensures r.Ok? ==> init.Ok? && last.Ok? && r.value == init.value + [last.value]
  {
    var schemas :- init;
    var schema :- last;
    Ok(schemas + [schema])
  }

  function WithSlot(h: Heap, init: Result<Fields, Refusal>, slot: Slot, lowered: LowerResult)
      : (r: Result<Fields, Refusal>)
    requires slot.schema < |h.nodes|
    ensures r.Ok? ==> init.Ok? && lowered.Ok? && |r.value.properties| == |init.value.properties| + 1
  {
    var fields :- init;
    var optional := h.nodes[slot.schema].def.OptionalDef?;
    if optional && h.nodes[slot.schema].checks != [] then Err(ChecksOnWrapper)
    else
      var schema :- lowered;
      Ok(Fields(fields.properties + [Property(slot.key, schema)],
                if optional then fields.required else fields.required + [slot.key]))
  }

  // ----- The lowering as the loop it is ----------------------------------------------------------

  lemma LowerSlotsPrefix(h: Heap, names: Names, prefix: Prefix, shape: seq<Slot>, owner: Ref, n: nat)
    requires Ordered(h) && owner < |h.nodes| && OldSlots(shape, owner) && n <= |shape|
    requires LowerSlots(h, names, prefix, shape[..n], owner).Err?
    ensures LowerSlots(h, names, prefix, shape, owner) == Err(LowerSlots(h, names, prefix, shape[..n], owner).error)
    decreases |shape|
  {
    if n == |shape| {
      assert shape[..n] == shape;
    } else {
      assert shape[..|shape| - 1][..n] == shape[..n];
      LowerSlotsPrefix(h, names, prefix, shape[..|shape| - 1], owner, n);
    }
  }

  lemma LowerAllPrefix(h: Heap, names: Names, prefix: Prefix, refs: seq<Ref>, owner: Ref, n: nat)
    requires Ordered(h) && owner < |h.nodes| && OldRefs(refs, owner) && n <= |refs|
    requires LowerAll(h, names, prefix, refs[..n], owner).Err?
    ensures LowerAll(h, names, prefix, refs, owner) == Err(LowerAll(h, names, prefix, refs[..n], owner).error)
    decreases |refs|
  {
    if n == |refs| {
      assert refs[..n] == refs;
    } else {
      assert refs[..|refs| - 1][..n] == refs[..n];
      LowerAllPrefix(h, names, prefix, refs[..|refs| - 1], owner, n);
    }
  }

  lemma LowerSlotsStep(h: Heap, names: Names, prefix: Prefix, shape: seq<Slot>, owner: Ref, i: nat)
    requires Ordered(h) && owner < |h.nodes| && OldSlots(shape, owner) && i < |shape|
    ensures LowerSlots(h, names, prefix, shape[..i + 1], owner)
         == WithSlot(h, LowerSlots(h, names, prefix, shape[..i], owner), shape[i],
                     Lower(h, names, prefix, Unwrapped(h, shape[i].schema), false))
  {
    assert shape[..i + 1][..i] == shape[..i];
  }

  method LowerSchema(h: Heap, names: Names, prefix: Prefix, ref: Ref, root: bool) returns (r: LowerResult)
    requires Ordered(h) && ref < |h.nodes|
    ensures r == Lower(h, names, prefix, ref, root)
    decreases ref, 1
  {
    if !root && ref in names {
      return Ok(RefSchema(prefix, names[ref]));
    }
    match h.nodes[ref].def
    case NullableDef(inner) =>
      if h.nodes[ref].checks != [] {
        return Err(ChecksOnWrapper);
      }
      var schema :- LowerSchema(h, names, prefix, inner, false);
      return Ok(NullableSchema(schema));
    case ArrayDef(element) =>
      var l :- Require(h, ref, KArray);
      var item :- LowerSchema(h, names, prefix, element, false);
      return Ok(ArraySchema(item, l.minItems, l.maxItems));
    case ObjectDef(shape, catchall) =>
      var l :- Require(h, ref, KObject);
      if catchall.None? || !h.nodes[catchall.value].def.NeverDef? {
        return Err(NotStrict);
      }
      var fields :- LowerShape(h, names, prefix, shape, ref);
      return Ok(ObjectSchema(fields, l.minProperties, l.description));
    case UnionDef(options, discriminator, unionFallback, inclusive) =>
      var l :- Require(h, ref, KOneOf);
      if discriminator != Some(l.discriminator) || unionFallback || inclusive {
        return Err(NotExclusive);
      }
      var branches :- LowerOptions(h, names, prefix, options, ref);
      return Ok(OneOfSchema(branches, l.description));
    case _ =>
      return LowerScalar(h, ref);
  }

  /** The loop over the keys of an object, filling `properties` and pushing to `required`. */
  method LowerShape(h: Heap, names: Names, prefix: Prefix, shape: seq<Slot>, owner: Ref)
      returns (r: Result<Fields, Refusal>)
    requires Ordered(h) && owner < |h.nodes| && OldSlots(shape, owner)
    ensures r == LowerSlots(h, names, prefix, shape, owner)
    decreases owner, 0
  {
    var properties: seq<Property>, required: seq<Text> := [], [];
    for i := 0 to |shape|
      invariant LowerSlots(h, names, prefix, shape[..i], owner) == Ok(Fields(properties, required))
    {
      ghost var before: Result<Fields, Refusal> := Ok(Fields(properties, required));
      var key, property := shape[i].key, shape[i].schema;
      if h.nodes[property].def.OptionalDef? {
        if h.nodes[property].checks != [] {
          LowerSlotsStep(h, names, prefix, shape, owner, i);
          LowerSlotsPrefix(h, names, prefix, shape, owner, i + 1);
          return Err(ChecksOnWrapper);
        }
        property := h.nodes[property].def.inner;
      } else {
        required := required + [key];
      }
      var lowered := LowerSchema(h, names, prefix, property, false);
      if lowered.Err? {
        LowerSlotsStep(h, names, prefix, shape, owner, i);
        LowerSlotsPrefix(h, names, prefix, shape, owner, i + 1);
        return Err(lowered.error);
      }
      properties := properties + [Property(key, lowered.value)];
      assert WithSlot(h, before, shape[i], lowered) == Ok(Fields(properties, required));
      LowerSlotsStep(h, names, prefix, shape, owner, i);
    }
    assert shape[..|shape|] == shape;
    return Ok(Fields(properties, required));
  }

  method LowerOptions(h: Heap, names: Names, prefix: Prefix, options: seq<Ref>, owner: Ref)
      returns (r: Result<seq<Schema>, Refusal>)
    requires Ordered(h) && owner < |h.nodes| && OldRefs(options, owner)
    ensures r == LowerAll(h, names, prefix, options, owner)
    decreases owner, 0
  {
    var branches: seq<Schema> := [];
    for i := 0 to |options|
      invariant LowerAll(h, names, prefix, options[..i], owner) == Ok(branches)
    {
      assert options[..i + 1][..i] == options[..i];
      var lowered := LowerSchema(h, names, prefix, options[i], false);
      if lowered.Err? {
        LowerAllPrefix(h, names, prefix, options, owner, i + 1);
        return Err(lowered.error);
      }
      branches := branches + [lowered.value];
    }
    assert options[..|options|] == options;
    return Ok(branches);
  }
}
