/**
 * The one-time port: JSON Schema nodes are translated to builder expressions. An expression is kept as
 * a tree of builder calls; evaluating it runs the builders on the heap.
 */
module Port {
  import opened Wrappers
  import opened Utf16
  import opened JsonSchema
  import opened Wire
  import opened Lowering

  datatype Field = Field(name: Text, expr: Expr, optional: bool)

  datatype Expr =
    | NamedSchema(name: Text)
    | Nullable(inner: Expr)
    | Literal(value: Json)
    | Enum(values: seq<Text>)
    | TbString(maxLength: Option<Json>, minLength: Option<Json>, format: Option<Format>,
               pattern: Option<Json>, description: Option<Json>)
    | TbInteger(minimum: real, maximum: real)
    | TbBoolean
    | TbArray(item: Expr, minItems: real, maxItems: real)
    | TbLoose(description: Option<Json>)
    | TbObject(fields: seq<Field>, minProperties: Option<Json>, description: Option<Json>)
    | TbOneOf(discriminator: Text, branches: seq<Expr>, description: Option<Json>)

  datatype PortError =
    | NotASchema | UnsupportedKeyword | UnsupportedReference | NotNullable | NestedOneOf | UnsupportedConst
    | UnsupportedEnum | UnsupportedFormat | InvalidLength | BoundsMissing | NotClosed | PropertiesMissing
    | UnknownRequired | RequiredOrder | UnsupportedType | InvalidOneOf | NoDiscriminator | DiscriminatorRepeats

  type Translated = Result<Expr, PortError>

  // ----- Small pieces ----------------------------------------------------------------------------

  predicate AllStrings(items: seq<Json>) {
    forall i :: 0 <= i < |items| ==> items[i].Str?
  }

  function Strings(items: seq<Json>): (ts: seq<Text>)
    requires AllStrings(items)
    ensures Texts(ts) == items
  {
    seq(|items|, i requires 0 <= i < |items| => items[i].s)
  }

  /** A name that the reference pattern admits: one or more of A-Z, a-z, 0-9 and underscore. */
  predicate IsWordName(t: Text) {
    t != [] && forall i :: 0 <= i < |t| ==>
      0x30 <= t[i] <= 0x39 || 0x41 <= t[i] <= 0x5A || t[i] == 0x5F || 0x61 <= t[i] <= 0x7A
  }

  predicate IsLengthOption(limit: Option<Json>) {
    limit.Some? ==> limit.value.Num? && IsLength(limit.value.n)
  }

  function NamesOf(entries: seq<Property>): (ts: seq<Text>)
    ensures |ts| == |entries|
  {
    seq(|entries|, i requires 0 <= i < |entries| => entries[i].name)
  }

  /** The property names that are required, in property order. */
  function RequiredInOrder(names: seq<Text>, required: seq<Json>): seq<Text> {
    if names == [] then []
    else
      var init, last := RequiredInOrder(names[..|names| - 1], required), names[|names| - 1];
      if Str(last) in required then init + [last] else init
  }

  // ----- Translation -----------------------------------------------------------------------------

  datatype Guard = Pass | Fail(error: PortError)

  function NullableGuard(kw: Keywords): (g: Guard)
    ensures g.Pass? ==>
      && kw.anyOf.Some? && kw == NO_KEYWORDS.(anyOf := kw.anyOf)
      && kw.anyOf.value.Schemas? && |kw.anyOf.value.list| == 2 && kw.anyOf.value.list[1] == NULL_SCHEMA
  {
    if kw.anyOf.None? || kw != NO_KEYWORDS.(anyOf := kw.anyOf) then Fail(UnsupportedKeyword)
    else if !kw.anyOf.value.Schemas? || |kw.anyOf.value.list| != 2 || kw.anyOf.value.list[1] != NULL_SCHEMA then
      Fail(NotNullable)
    else Pass
  }

  function ArrayGuard(kw: Keywords): (g: Guard)
    ensures g.Pass? ==>
      && kw == NO_KEYWORDS.(typ := kw.typ, items := kw.items, minItems := kw.minItems, maxItems := kw.maxItems)
      && kw.minItems.Some? && kw.minItems.value.Num? && kw.maxItems.Some? && kw.maxItems.value.Num? && kw.items.Some?
  {
    if kw != NO_KEYWORDS.(typ := kw.typ, items := kw.items, minItems := kw.minItems, maxItems := kw.maxItems) then
      Fail(UnsupportedKeyword)
    else if !(kw.minItems.Some? && kw.minItems.value.Num? && kw.maxItems.Some? && kw.maxItems.value.Num?) then
      Fail(BoundsMissing)
    else if kw.items.None? then Fail(NotASchema)
    else Pass
  }

  function ObjectGuard(kw: Keywords): (g: Guard)
    ensures g.Pass? ==>
      && kw == NO_KEYWORDS.(typ := kw.typ, properties := kw.properties, required := kw.required,
               additionalProperties := kw.additionalProperties, minProperties := kw.minProperties,
               description := kw.description)
      && kw.additionalProperties == Some(Bool(false))
      && kw.properties.Some? && kw.properties.value.Table? && kw.required.Some? && kw.required.value.Arr?
      && Texts(RequiredInOrder(NamesOf(kw.properties.value.entries), kw.required.value.items)) ==
        kw.required.value.items
  {
    if kw != NO_KEYWORDS.(typ := kw.typ, properties := kw.properties, required := kw.required,
             additionalProperties := kw.additionalProperties, minProperties := kw.minProperties,
             description := kw.description) then Fail(UnsupportedKeyword)
    else if kw.additionalProperties != Some(Bool(false)) then Fail(NotClosed)
    else if !(kw.properties.Some? && kw.properties.value.Table? && kw.required.Some? && kw.required.value.Arr?) then
      Fail(PropertiesMissing)
    else
      var entries, required := kw.properties.value.entries, kw.required.value.items;
      if exists k :: k in required && !(k.Str? && k.s in NamesOf(entries)) then Fail(UnknownRequired)
      else if Texts(RequiredInOrder(NamesOf(entries), required)) != required then Fail(RequiredOrder)
      else Pass
  }

  function Translate(names: set<Text>, node: Schema): Translated
    decreases node, 1
  {
    if node.Plain? then Err(NotASchema)
    else
      var kw := node.kw;
      if kw.ref.Some? then TranslateReference(names, kw)
      else if kw.anyOf.Some? then
        match NullableGuard(kw)
        case Fail(e) => Err(e)
        case Pass =>
          var inner :- Translate(names, kw.anyOf.value.list[0]);
          Ok(Nullable(inner))
      else if kw.oneOf.Some? then Err(NestedOneOf)
      else if kw.constant.Some? then TranslateConst(kw)
      else if kw.typ == Some(ArrayType) then
        match ArrayGuard(kw)
        case Fail(e) => Err(e)
        case Pass =>
          var item :- Translate(names, kw.items.value);
          Ok(TbArray(item, kw.minItems.value.n, kw.maxItems.value.n))
      else if IsStrict(kw) then
        match ObjectGuard(kw)
        case Fail(e) => Err(e)
        case Pass =>
          var fields :- TranslateFields(names, kw.properties.value.entries, kw.required.value.items);
          Ok(TbObject(fields, kw.minProperties, kw.description))
      else TranslateScalar(kw)
  }

  /** An object type that is not an open one. */
  predicate IsStrict(kw: Keywords) {
    kw.typ == Some(ObjectType) && kw.additionalProperties != Some(Bool(true))
  }

  function TranslateReference(names: set<Text>, kw: Keywords): Translated
    requires kw.ref.Some?
  {
    if kw != NO_KEYWORDS.(ref := kw.ref) then Err(UnsupportedKeyword)
    else if kw.ref.value.Named? && kw.ref.value.prefix == Defs && IsWordName(kw.ref.value.name)
            && kw.ref.value.name in names then Ok(NamedSchema(kw.ref.value.name))
    else Err(UnsupportedReference)
  }

  function TranslateConst(kw: Keywords): Translated
    requires kw.constant.Some?
  {
    if kw != NO_KEYWORDS.(constant := kw.constant) then Err(UnsupportedKeyword)
    else if kw.constant.value.Str? || kw.constant.value.Bool? then Ok(Literal(kw.constant.value))
    else Err(UnsupportedConst)
  }

  function TranslateString(kw: Keywords): Translated {
    if kw != NO_KEYWORDS.(typ := kw.typ, maxLength := kw.maxLength, minLength := kw.minLength,
         format := kw.format, pattern := kw.pattern, description := kw.description) then Err(UnsupportedKeyword)
    else if kw.format.Some? && !kw.format.value.Known? then Err(UnsupportedFormat)
    else if !IsLengthOption(kw.maxLength) || !IsLengthOption(kw.minLength) then Err(InvalidLength)
    else
      Ok(TbString(kw.maxLength, kw.minLength, if kw.format.Some? then Some(kw.format.value.format) else None,
                  kw.pattern, kw.description))
  }

  /** The types without subschemas: strings, enums, integers, booleans and loose objects. */
  function TranslateScalar(kw: Keywords): Translated {
    match kw.typ
    case Some(StringType) =>
      if kw.enumeration.None? then TranslateString(kw)
      else if kw != NO_KEYWORDS.(typ := kw.typ, enumeration := kw.enumeration) then Err(UnsupportedKeyword)
      else if kw.enumeration.value.Arr? && kw.enumeration.value.items != [] &&
        AllStrings(kw.enumeration.value.items) then
        Ok(Enum(Strings(kw.enumeration.value.items)))
      else Err(UnsupportedEnum)
    case Some(IntegerType) =>
      if kw != NO_KEYWORDS.(typ := kw.typ, minimum := kw.minimum, maximum := kw.maximum) then Err(UnsupportedKeyword)
      else if kw.minimum.Some? && kw.minimum.value.Num? && kw.maximum.Some? && kw.maximum.value.Num? then
        Ok(TbInteger(kw.minimum.value.n, kw.maximum.value.n))
      else Err(BoundsMissing)
    case Some(BooleanType) =>
      if kw != NO_KEYWORDS.(typ := kw.typ) then Err(UnsupportedKeyword) else Ok(TbBoolean)
    case Some(ObjectType) =>
      if kw != NO_KEYWORDS.(typ := kw.typ, additionalProperties := kw.additionalProperties,
                            description := kw.description)
      then Err(UnsupportedKeyword)
      else Ok(TbLoose(kw.description))
    case _ => Err(UnsupportedType)
  }

  function TranslateFields(names: set<Text>, entries: seq<Property>, required: seq<Json>)
      : (r: Result<seq<Field>, PortError>)
    ensures r.Ok? ==> |r.value| == |entries|
    decreases entries, 0
  {
    if entries == [] then Ok([])
    else
      var init :- TranslateFields(names, entries[..|entries| - 1], required);
      var last := entries[|entries| - 1];
      var expr :- Translate(names, last.schema);
      Ok(init + [Field(last.name, expr, Str(last.name) !in required)])
  }

  function TranslateAll(names: set<Text>, nodes: seq<Schema>): (r: Result<seq<Expr>, PortError>)
    ensures r.Ok? ==> |r.value| == |nodes|
    decreases nodes, 0
  {
    if nodes == [] then Ok([])
    else
      var init :- TranslateAll(names, nodes[..|nodes| - 1]);
      var last :- Translate(names, nodes[|nodes| - 1]);
      Ok(init + [last])
  }

  // ----- Top-level schemas -----------------------------------------------------------------------

  predicate HasProperties(node: Schema) {
    node.Node? && node.kw.properties.Some? && node.kw.properties.value.Table?
  }

  /** The constant of the property `key`, when it is a required string constant of the branch. */
  function BranchConstant(branch: Schema, key: Text): Option<Json> {
    if HasProperties(branch) && branch.kw.required.Some? && branch.kw.required.value.Arr?
       && Str(key) in branch.kw.required.value.items
    then PropertyConstant(branch.kw.properties.value.entries, key)
    else None
  }

  function PropertyConstant(entries: seq<Property>, key: Text): Option<Json> {
    if entries == [] then None
    else
      var last := entries[|entries| - 1];
      if last.name != key then PropertyConstant(entries[..|entries| - 1], key)
      else if last.schema.Node? && last.schema.kw.constant.Some? && last.schema.kw.constant.value.Str? then
        last.schema.kw.constant
      else None
  }

  predicate IsCandidate(branches: seq<Schema>, key: Text) {
    forall i :: 0 <= i < |branches| ==> BranchConstant(branches[i], key).Some?
  }

  function Candidates(branches: seq<Schema>, keys: seq<Text>): (r: seq<Text>)
    ensures forall k :: k in r ==> k in keys && IsCandidate(branches, k)
  {
    if keys == [] then []
    else
      var init, last := Candidates(branches, keys[..|keys| - 1]), keys[|keys| - 1];
      if IsCandidate(branches, last) then init + [last] else init
  }

  function Constants(branches: seq<Schema>, key: Text): (r: seq<Json>)
    requires IsCandidate(branches, key)
    ensures |r| == |branches| && forall i :: 0 <= i < |branches| ==> r[i] == BranchConstant(branches[i], key).value
  {
    if branches == [] then []
    else Constants(branches[..|branches| - 1], key) + [BranchConstant(branches[|branches| - 1], key).value]
  }

  function TranslateTopLevel(names: set<Text>, node: Schema): Translated {
    if node.Plain? || node.kw.oneOf.None? then Translate(names, node)
    else
      var kw := node.kw;
      if kw != NO_KEYWORDS.(oneOf := kw.oneOf, description := kw.description) then Err(UnsupportedKeyword)
      else if !kw.oneOf.value.Schemas? || |kw.oneOf.value.list| < 2 || !HasProperties(kw.oneOf.value.list[0]) then
        Err(InvalidOneOf)
      else
        var branches := kw.oneOf.value.list;
        var candidates := Candidates(branches, NamesOf(branches[0].kw.properties.value.entries));
        if |candidates| != 1 then Err(NoDiscriminator)
        else
          var key := candidates[0];
          assert key in candidates;
          var constants := Constants(branches, key);
          if exists i, j :: 0 <= i < j < |constants| && constants[i] == constants[j] then Err(DiscriminatorRepeats)
          else
            var expressions :- TranslateAll(names, branches);
            Ok(TbOneOf(key, expressions, kw.description))
  }

  // ----- Evaluation ------------------------------------------------------------------------------

  /** An option whose value TypeScript accepts as a string. */
  function TextArgument(o: Option<Json>): Result<Option<Text>, BuildError> {
    match o
    case None => Ok(None)
    case Some(Str(s)) => Ok(Some(s))
    case Some(_) => Err(BadExpression)
  }

  function NumberArgument(o: Option<Json>): Result<Option<real>, BuildError> {
    match o
    case None => Ok(None)
    case Some(Num(n)) => Ok(Some(n))
    case Some(_) => Err(BadExpression)
  }

  type Bindings = map<Text, Ref>

  function Eval(compiles: Text -> bool, h: Heap, consts: Bindings, e: Expr): Outcome
    decreases e, 1
  {
    match e
    case NamedSchema(name) => if name in consts then Ok((h, consts[name])) else Err(BadExpression)
    case Nullable(inner) =>
      var (h', ref) :- Eval(compiles, h, consts, inner);
      Ok(Created(h', Zod(NullableDef(ref), [])))
    case TbArray(item, minItems, maxItems) =>
      var (h', ref) :- Eval(compiles, h, consts, item);
      MakeArray(h', ref, minItems, maxItems)
    case TbObject(fields, minProperties, description) =>
      var (h', shape) :- EvalFields(compiles, h, consts, fields);
      var limit :- NumberArgument(minProperties);
      var text :- TextArgument(description);
      MakeObject(h', shape, limit, text)
    case TbOneOf(discriminator, branches, description) =>
      var (h', options) :- EvalAll(compiles, h, consts, branches);
      var text :- TextArgument(description);
      Ok(MakeOneOf(h', discriminator, options, text))
    case _ => EvalScalar(compiles, h, e)
  }

  function EvalScalar(compiles: Text -> bool, h: Heap, e: Expr): Outcome {
    match e
    case Literal(value) => Ok(MakeLiteral(h, value))
    case Enum(values) => Ok(MakeEnum(h, values))
    case TbString(maxLength, minLength, format, pattern, description) =>
      var most :- NumberArgument(maxLength);
      var least :- NumberArgument(minLength);
      var expression :- TextArgument(pattern);
      var text :- TextArgument(description);
      MakeString(compiles, h, StringOptions(most, least, format, expression, text))
    case TbInteger(minimum, maximum) => Ok(MakeInteger(h, minimum, maximum))
    case TbBoolean => Ok(MakeBoolean(h))
    case TbLoose(description) =>
      var text :- TextArgument(description);
      Ok(MakeLoose(h, text))
    case _ => Err(BadExpression)
  }

  function EvalField(compiles: Text -> bool, h: Heap, consts: Bindings, f: Field): Outcome
    decreases f, 2
  {
    var (h', ref) :- Eval(compiles, h, consts, f.expr);
    Ok(if f.optional then Created(h', Zod(OptionalDef(ref), [])) else (h', ref))
  }

  function EvalFields(compiles: Text -> bool, h: Heap, consts: Bindings, fields: seq<Field>)
      : (r: Result<(Heap, seq<Slot>), BuildError>)
    ensures r.Ok? ==> |r.value.1| == |fields|
    decreases fields, 0
  {
    if fields == [] then Ok((h, []))
    else
      var (h', shape) :- EvalFields(compiles, h, consts, fields[..|fields| - 1]);
      var last := fields[|fields| - 1];
      var (h'', ref) :- EvalField(compiles, h', consts, last);
      Ok((h'', shape + [Slot(last.name, ref)]))
  }

  function EvalAll(compiles: Text -> bool, h: Heap, consts: Bindings, es: seq<Expr>)
      : (r: Result<(Heap, seq<Ref>), BuildError>)
    ensures r.Ok? ==> |r.value.1| == |es|
    decreases es, 0
  {
    if es == [] then Ok((h, []))
    else
      var (h', refs) :- EvalAll(compiles, h, consts, es[..|es| - 1]);
      var (h'', ref) :- Eval(compiles, h', consts, es[|es| - 1]);
      Ok((h'', refs + [ref]))
  }
}
