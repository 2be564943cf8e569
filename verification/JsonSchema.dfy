/**
 * JSON values, JSON Schema documents of the dialect 2020-12, and when a value is valid against one.
 * Validity is written keyword by keyword from JSON Schema Validation (sections 6.1 to 6.5) and JSON
 * Schema Core (sections 8.2.3, 10.2.1 and 10.3), independently of the code that emits the documents.
 */
module JsonSchema {
  import opened Wrappers
  import opened Utf16

  datatype Json =
    | Null
    | Bool(b: bool)
    | Num(n: real)
    | Str(s: Text)
    | Arr(items: seq<Json>)
    | Obj(members: map<Text, Json>)

  datatype Format = Uuid | Uri | Email | Date | DateTime

  /** Format checking and regular expressions are shared by both sides and left uninterpreted. */
  datatype Oracle = Oracle(matchesFormat: (Format, Text) -> bool, matchesPattern: (Text, Text) -> bool)

  // ----- Documents -----------------------------------------------------------------------------

  /** The two places that references point into: #/$defs/ and #/components/schemas/. */
  datatype Prefix = Defs | Components

  datatype Reference = Named(prefix: Prefix, name: Text) | OtherReference(json: Json)

  datatype TypeName = StringType | IntegerType | BooleanType | ArrayType | ObjectType | NullType | OtherType(json: Json)

  datatype FormatName = Known(format: Format) | OtherFormat(json: Json)

  datatype SchemaList = Schemas(list: seq<Schema>) | NotSchemas(json: Json)

  datatype Property = Property(name: Text, schema: Schema)

  /** The properties of an object schema, in the order of the document. */
  datatype Properties = Table(entries: seq<Property>) | NotTable(json: Json)

  /** A JSON value in the place of a schema: an object, read as one slot per keyword, or anything else. */
  datatype Schema = Node(kw: Keywords) | Plain(json: Json)

  datatype Keywords = Keywords(
    ref: Option<Reference>,
    anyOf: Option<SchemaList>,
    oneOf: Option<SchemaList>,
    constant: Option<Json>,
    typ: Option<TypeName>,
    enumeration: Option<Json>,
    maxLength: Option<Json>,
    minLength: Option<Json>,
    format: Option<FormatName>,
    pattern: Option<Json>,
    description: Option<Json>,
    minimum: Option<Json>,
    maximum: Option<Json>,
    items: Option<Schema>,
    minItems: Option<Json>,
    maxItems: Option<Json>,
    properties: Option<Properties>,
    required: Option<Json>,
    additionalProperties: Option<Json>,
    minProperties: Option<Json>,
    others: set<Text>)

  const NO_KEYWORDS := Keywords(None, None, None, None, None, None, None, None, None, None, None,
                                None, None, None, None, None, None, None, None, None, {})

  const NULL_SCHEMA := Node(NO_KEYWORDS.(typ := Some(NullType)))

  function PropertyNames(entries: seq<Property>): set<Text> {
    set p | p in entries :: p.name
  }

  ghost predicate DistinctValues(values: seq<Json>) {
    forall i, j :: 0 <= i < j < |values| ==> values[i] != values[j]
  }

  // ----- Validity ------------------------------------------------------------------------------

  ghost predicate HasType(t: TypeName, v: Json) {
    match t
    case StringType => v.Str?
    case IntegerType => v.Num? && v.n.Floor as real == v.n
    case BooleanType => v.Bool?
    case ArrayType => v.Arr?
    case ObjectType => v.Obj?
    case NullType => v.Null?
    case OtherType(_) => false
  }

  ghost predicate UpperLimit(limit: Option<Json>, size: real) {
    limit.Some? ==> limit.value.Num? && size <= limit.value.n
  }

  ghost predicate LowerLimit(limit: Option<Json>, size: real) {
    limit.Some? ==> limit.value.Num? && size >= limit.value.n
  }

  /** The keywords that look at the value without looking into subschemas. */
  ghost predicate LocallyValid(oracle: Oracle, kw: Keywords, v: Json) {
    && (kw.typ.Some? ==> HasType(kw.typ.value, v))
    && (kw.constant.Some? ==> v == kw.constant.value)
    && (kw.enumeration.Some? ==> kw.enumeration.value.Arr? && v in kw.enumeration.value.items)
    && (v.Str? ==>
          && UpperLimit(kw.maxLength, CodePoints(v.s) as real)
          && LowerLimit(kw.minLength, CodePoints(v.s) as real)
          && (kw.format.Some? && kw.format.value.Known? ==> oracle.matchesFormat(kw.format.value.format, v.s))
          && (kw.pattern.Some? ==> kw.pattern.value.Str? && oracle.matchesPattern(kw.pattern.value.s, v.s)))
    && (v.Num? ==> UpperLimit(kw.maximum, v.n) && LowerLimit(kw.minimum, v.n))
    && (v.Arr? ==> UpperLimit(kw.maxItems, |v.items| as real) && LowerLimit(kw.minItems, |v.items| as real))
    && (v.Obj? ==>
          && LowerLimit(kw.minProperties, |v.members| as real)
          && (kw.required.Some? ==>
                kw.required.value.Arr? &&
                forall k :: k in kw.required.value.items ==> k.Str? && k.s in v.members)
          && (kw.additionalProperties.Some? ==>
                kw.additionalProperties.value.Bool? &&
                (!kw.additionalProperties.value.b ==>
                  forall k :: k in v.members ==>
                    kw.properties.Some? && kw.properties.value.Table? &&
                    k in PropertyNames(kw.properties.value.entries))))
  }

  /** Validity when at most `hops` references in a row are followed. */
  ghost predicate Valid(oracle: Oracle, defs: map<Text, Schema>, hops: nat, schema: Schema, v: Json)
    decreases hops, schema
  {
    match schema
    case Plain(json) => json == Bool(true)
    case Node(kw) =>
      && LocallyValid(oracle, kw, v)
      && (kw.ref.Some? ==>
            && kw.ref.value.Named? && kw.ref.value.name in defs && hops > 0
            && Valid(oracle, defs, hops - 1, defs[kw.ref.value.name], v))
      && (kw.anyOf.Some? ==>
            && kw.anyOf.value.Schemas?
            && exists i :: 0 <= i < |kw.anyOf.value.list| && Valid(oracle, defs, hops, kw.anyOf.value.list[i], v))
      && (kw.oneOf.Some? ==>
            kw.oneOf.value.Schemas? && ExactlyOne(Verdicts(oracle, defs, hops, kw.oneOf.value.list, v)))
      && (kw.items.Some? && v.Arr? ==>
            forall i :: 0 <= i < |v.items| ==> Valid(oracle, defs, hops, kw.items.value, v.items[i]))
      && (kw.properties.Some? && v.Obj? ==>
            && kw.properties.value.Table?
            && forall i :: 0 <= i < |kw.properties.value.entries| ==>
                 var p := kw.properties.value.entries[i];
                 p.name in v.members ==> Valid(oracle, defs, hops, p.schema, v.members[p.name]))
  }

  /** The verdict of each schema of a list on the same value. */
  ghost function Verdicts(oracle: Oracle, defs: map<Text, Schema>, hops: nat, schemas: seq<Schema>,
                          v: Json): (bs: seq<bool>)
    ensures |bs| == |schemas|
    decreases hops, schemas
  {
    if schemas == [] then []
    else
      Verdicts(oracle, defs, hops, schemas[..|schemas| - 1], v) +
      [Valid(oracle, defs, hops, schemas[|schemas| - 1], v)]
  }

  ghost predicate ExactlyOne(bs: seq<bool>) {
    exists i :: 0 <= i < |bs| && bs[i] && forall j :: 0 <= j < |bs| && j != i ==> !bs[j]
  }
}
