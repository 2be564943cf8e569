/**
 * The OpenAPI document assembled from the operations, the document source and the schema catalog:
 * when the assembly succeeds, and why every reference of its result names a component it contains.
 */
module OpenApi {
  import opened Wrappers
  import opened Utf16
  import opened JsonSchema
  import opened Wire
  import opened Lowering
  import opened Artifacts

  // ----- The sources -----------------------------------------------------------------------------

  datatype HttpMethod = Get | Post | Patch | Delete

  datatype SharedName = IfMatch | IdempotencyKey | Csrf

  type Status = nat

  datatype SuccessSpec = Content(status: SuccessStatus, schema: Ref) | NoContent

  datatype SuccessStatus = Fetched | Created

  datatype Place = InPath | InQuery

  datatype InlineParameter = InlineParameter(
    name: Text, place: Place, required: bool, style: Option<Text>, explode: Option<bool>,
    schema: Ref, schemaDefault: Option<real>)

  datatype ParameterSpec = Shared(name: SharedName) | Inline(parameter: InlineParameter)

  datatype OperationSpec = OperationSpec(
    operationId: Text, httpMethod: HttpMethod, path: Text, tags: seq<Text>, summary: Text,
    parameters: seq<ParameterSpec>, requestBody: Option<Ref>, success: SuccessSpec, errors: seq<Status>,
    session: bool, preconditionTarget: Option<Text>, idempotentWrite: bool)

  type Requirement = map<Text, seq<Text>>

  datatype HeaderSource = HeaderSource(schema: Ref, description: Option<Text>, example: Option<Text>)

  datatype SharedParameter = SharedParameter(name: Text, schema: Ref, description: Text)

  datatype Server = Server(url: Text, description: Text)

  datatype SecurityScheme = SecurityScheme(typ: Text, place: Text, name: Text, description: Text)

  /** What the document takes over as it is. */
  datatype Metadata = Metadata(
    openapi: Text, title: Text, version: Text, description: Text,
    servers: seq<Server>, tags: seq<Text>, securitySchemes: map<Text, SecurityScheme>)

  datatype DocumentSource = DocumentSource(
    metadata: Metadata, security: seq<Requirement>, sharedParameters: map<SharedName, SharedParameter>,
    errorName: Text, errorDescription: Text, errorSchema: Ref,
    successDescription: Text, headers: map<Text, HeaderSource>, noContentDescription: Text)

  // ----- The document ----------------------------------------------------------------------------

  datatype HeaderObject = HeaderObject(schema: Schema, description: Option<Text>, example: Option<Text>)

  datatype Response =
    | EmptyResponse(description: Text)
    | JsonResponse(description: Text, headers: map<Text, HeaderObject>, body: Schema)
    | ResponseRef(name: Text)

  datatype ParameterObject =
    | ParameterRef(name: SharedName)
    | ParameterObject(paramName: Text, place: Place, required: bool, style: Option<Text>, explode: Option<bool>,
                      schema: Schema, schemaDefault: Option<real>)

  datatype OperationObject = OperationObject(
    operationId: Text, tags: seq<Text>, summary: Text, parameters: seq<ParameterObject>,
    responses: map<Status, Response>, security: seq<Requirement>, preconditionTarget: Option<Text>,
    idempotentWrite: bool, requestBody: Option<Schema>)

  datatype SharedParameterObject = SharedParameterObject(name: Text, schema: Schema, description: Text)

  type Paths = map<Text, map<HttpMethod, OperationObject>>

  datatype Document = Document(
    metadata: Metadata, paths: Paths, schemas: map<Text, Schema>, parameters: map<SharedName, SharedParameterObject>,
    responses: map<Text, Response>, security: seq<Requirement>)

  datatype OpenApiError =
    | InCatalog(error: CatalogError)
    | NotInline(refusal: Refusal)
    | NotAnObject
    | Unnamed
    | DuplicateOperationId(id: Text)
    | DuplicateResponse(status: Status)
    | DuplicateMethod(path: Text, httpMethod: HttpMethod)

  // ----- What the sources refer to ---------------------------------------------------------------

  ghost predicate PresentParameters(h: Heap, parameters: seq<ParameterSpec>) {
    forall i :: 0 <= i < |parameters| && parameters[i].Inline? ==> parameters[i].parameter.schema < |h.nodes|
  }

  ghost predicate PresentOperations(h: Heap, operations: seq<OperationSpec>) {
    forall i :: 0 <= i < |operations| ==> PresentParameters(h, operations[i].parameters)
  }

  /** The source's schemas exist, and its record of shared parameters has every shared name. */
  ghost predicate PresentSource(h: Heap, source: DocumentSource) {
    && (forall k :: k in source.headers ==> source.headers[k].schema < |h.nodes|)
    && (forall k :: k in source.sharedParameters ==> source.sharedParameters[k].schema < |h.nodes|)
    && forall k: SharedName :: k in source.sharedParameters
  }

  // ----- Inline schemas --------------------------------------------------------------------------

  /** Lowering without a catalog: there is no name to refer to. */
  ghost function InlineLowering(h: Heap, ref: Ref): LowerResult
    requires Ordered(h) && ref < |h.nodes|
  {
    Lower(h, map[], Components, ref, true)
  }

  /** A lowered schema is always an object, so lowerInline has no other case. */
  lemma LoweredIsNode(h: Heap, names: Names, prefix: Prefix, ref: Ref, root: bool)
    requires Ordered(h) && ref < |h.nodes| && Lower(h, names, prefix, ref, root).Ok?
    ensures Lower(h, names, prefix, ref, root).value.Node?
  {
  }

  method LowerInline(h: Heap, ref: Ref) returns (r: Result<Schema, OpenApiError>)
    requires Ordered(h) && ref < |h.nodes|
    ensures r.Ok? <==> InlineLowering(h, ref).Ok?
    ensures r.Ok? ==> Ok(r.value) == InlineLowering(h, ref)
  {
    var lowered := LowerSchema(h, map[], Components, ref, true);
    if lowered.Err? {
      return Err(NotInline(lowered.error));
    }
    LoweredIsNode(h, map[], Components, ref, true);
    if !lowered.value.Node? {
      return Err(NotAnObject);
    }
    return Ok(lowered.value);
  }

  /** The loops over the records of header and shared parameter schemas. */
  method LowerRecord<K(==)>(h: Heap, schemas: map<K, Ref>) returns (r: Result<map<K, Schema>, OpenApiError>)
    requires Ordered(h) && forall k :: k in schemas ==> schemas[k] < |h.nodes|
    ensures r.Ok? <==> forall k :: k in schemas ==> InlineLowering(h, schemas[k]).Ok?
    ensures r.Ok? ==> r.value.Keys == schemas.Keys
    ensures r.Ok? ==> forall k :: k in schemas ==> InlineLowering(h, schemas[k]) == Ok(r.value[k])
  {
    var out: map<K, Schema>, todo := map[], schemas.Keys;
    while todo != {}
      invariant todo <= schemas.Keys && out.Keys == schemas.Keys - todo
      invariant forall k :: k in out ==> InlineLowering(h, schemas[k]) == Ok(out[k])
      decreases |todo|
    {
      var k :| k in todo;
      var lowered := LowerInline(h, schemas[k]);
      if lowered.Err? {
        return Err(lowered.error);
      }
      out := out[k := lowered.value];
      todo := todo - {k};
    }
    return Ok(out);
  }

  // ----- One operation ---------------------------------------------------------------------------

  function Code(success: SuccessSpec): Status {
    match success
    case NoContent => 204
    case Content(Fetched, _) => 200
    case Content(Created, _) => 201
  }

  ghost predicate ParameterFine(h: Heap, spec: ParameterSpec)
    requires Ordered(h) && (spec.Inline? ==> spec.parameter.schema < |h.nodes|)
  {
    spec.Inline? ==> InlineLowering(h, spec.parameter.schema).Ok?
  }

  /** A shared parameter is referred to; an inline one is described with its lowered schema. */
  ghost predicate ParameterDescribed(h: Heap, spec: ParameterSpec, out: ParameterObject)
    requires Ordered(h) && (spec.Inline? ==> spec.parameter.schema < |h.nodes|)
  {
    match spec
    case Shared(name) => out == ParameterRef(name)
    case Inline(p) =>
      && out.ParameterObject? && InlineLowering(h, p.schema) == Ok(out.schema)
      && out == ParameterObject(p.name, p.place, p.required, p.style, p.explode, out.schema, p.schemaDefault)
  }

  /** No status is answered twice, and every schema named or inline as its place demands. */
  ghost predicate OperationFine(h: Heap, names: Names, op: OperationSpec)
    requires Ordered(h) && PresentParameters(h, op.parameters)
  {
    && (forall i :: 0 <= i < |op.errors| ==> op.errors[i] != Code(op.success))
    && (forall i, j :: 0 <= i < j < |op.errors| ==> op.errors[i] != op.errors[j])
    && (op.success.Content? ==> op.success.schema in names)
    && (op.requestBody.Some? ==> op.requestBody.value in names)
    && (forall i :: 0 <= i < |op.parameters| ==> ParameterFine(h, op.parameters[i]))
  }

  ghost predicate SuccessDescribed(names: Names, source: DocumentSource, headers: map<Text, HeaderObject>,
                                   success: SuccessSpec, out: Response) {
    match success
    case NoContent => out == EmptyResponse(source.noContentDescription)
    case Content(_, schema) =>
      schema in names && out == JsonResponse(source.successDescription, headers, RefSchema(Components, names[schema]))
  }

  ghost predicate ResponsesDescribed(names: Names, source: DocumentSource, headers: map<Text, HeaderObject>,
                                     success: SuccessSpec, errors: seq<Status>, out: map<Status, Response>) {
    && Code(success) in out && SuccessDescribed(names, source, headers, success, out[Code(success)])
    && (forall i :: 0 <= i < |errors| ==> errors[i] in out && out[errors[i]] == ResponseRef(source.errorName))
    && forall s :: s in out ==> s == Code(success) || s in errors
  }

  ghost predicate BodyDescribed(names: Names, body: Option<Ref>, out: Option<Schema>) {
    match body
    case None => out.None?
    case Some(schema) => schema in names && out == Some(RefSchema(Components, names[schema]))
  }

  ghost predicate OperationDescribed(h: Heap, names: Names, source: DocumentSource, headers: map<Text, HeaderObject>,
                                     op: OperationSpec, out: OperationObject)
    requires Ordered(h) && PresentParameters(h, op.parameters)
  {
    && out.operationId == op.operationId && out.tags == op.tags && out.summary == op.summary
    && out.preconditionTarget == op.preconditionTarget && out.idempotentWrite == op.idempotentWrite
    && out.security == (if op.session then source.security else [])
    && ResponsesDescribed(names, source, headers, op.success, op.errors, out.responses)
    && |out.parameters| == |op.parameters|
    && (forall i :: 0 <= i < |op.parameters| ==> ParameterDescribed(h, op.parameters[i], out.parameters[i]))
    && BodyDescribed(names, op.requestBody, out.requestBody)
  }

  method SchemaRef(names: Names, schema: Ref) returns (r: Result<Schema, OpenApiError>)
    ensures r.Ok? <==> schema in names
    ensures r.Ok? ==> r.value == RefSchema(Components, names[schema])
  {
    if schema !in names {
      return Err(Unnamed);
    }
    return Ok(RefSchema(Components, names[schema]));
  }

  method BuildResponses(names: Names, source: DocumentSource, headers: map<Text, HeaderObject>,
                        success: SuccessSpec, errors: seq<Status>)
      returns (r: Result<map<Status, Response>, OpenApiError>)
    ensures r.Ok? <==>
      && (success.Content? ==> success.schema in names)
      && (forall i :: 0 <= i < |errors| ==> errors[i] != Code(success))
      && (forall i, j :: 0 <= i < j < |errors| ==> errors[i] != errors[j])
    ensures r.Ok? ==> ResponsesDescribed(names, source, headers, success, errors, r.value)
  {
    var responses: map<Status, Response> := map[];
    if success.NoContent? {
      responses := responses[204 := EmptyResponse(source.noContentDescription)];
    } else {
      var body :- SchemaRef(names, success.schema);
      responses := responses[Code(success) := JsonResponse(source.successDescription, headers, body)];
    }
    for i := 0 to |errors|
      invariant ResponsesDescribed(names, source, headers, success, errors[..i], responses)
      invariant forall j :: 0 <= j < i ==> errors[j] != Code(success)
      invariant forall j, k :: 0 <= j < k < i ==> errors[j] != errors[k]
    {
      if errors[i] in responses {
        return Err(DuplicateResponse(errors[i]));
      }
      assert errors[..i + 1] == errors[..i] + [errors[i]];
      responses := responses[errors[i] := ResponseRef(source.errorName)];
    }
    assert errors[..|errors|] == errors;
    return Ok(responses);
  }

  method BuildParameters(h: Heap, parameters: seq<ParameterSpec>)
      returns (r: Result<seq<ParameterObject>, OpenApiError>)
    requires Ordered(h) && PresentParameters(h, parameters)
    ensures r.Ok? <==> forall i :: 0 <= i < |parameters| ==> ParameterFine(h, parameters[i])
    ensures r.Ok? ==> |r.value| == |parameters|
    ensures r.Ok? ==> forall i :: 0 <= i < |parameters| ==> ParameterDescribed(h, parameters[i], r.value[i])
  {
    var out: seq<ParameterObject> := [];
    for i := 0 to |parameters|
      invariant |out| == i
      invariant forall j :: 0 <= j < i ==>
        ParameterFine(h, parameters[j]) && ParameterDescribed(h, parameters[j], out[j])
    {
      match parameters[i]
      case Shared(name) => out := out + [ParameterRef(name)];
      case Inline(p) =>
        var schema :- LowerInline(h, p.schema);
        out := out + [ParameterObject(p.name, p.place, p.required, p.style, p.explode, schema, p.schemaDefault)];
    }
    return Ok(out);
  }

  method BuildOperation(h: Heap, names: Names, source: DocumentSource, headers: map<Text, HeaderObject>,
                        op: OperationSpec) returns (r: Result<OperationObject, OpenApiError>)
    requires Ordered(h) && PresentParameters(h, op.parameters)
    ensures r.Ok? <==> OperationFine(h, names, op)
    ensures r.Ok? ==> OperationDescribed(h, names, source, headers, op, r.value)
  {
    var responses :- BuildResponses(names, source, headers, op.success, op.errors);
    var parameters :- BuildParameters(h, op.parameters);
    var requestBody: Option<Schema> := None;
    if op.requestBody.Some? {
      var body :- SchemaRef(names, op.requestBody.value);
      requestBody := Some(body);
    }
    return Ok(OperationObject(op.operationId, op.tags, op.summary, parameters, responses,
                              if op.session then source.security else [], op.preconditionTarget,
                              op.idempotentWrite, requestBody));
  }

  // ----- The paths -------------------------------------------------------------------------------

  /** The operations' ids are distinct, and so are their places. */
  ghost predicate DistinctOperations(operations: seq<OperationSpec>) {
    forall i, j :: 0 <= i < j < |operations| ==>
      && operations[i].operationId != operations[j].operationId
      && (operations[i].path != operations[j].path || operations[i].httpMethod != operations[j].httpMethod)
  }

  ghost predicate AllFine(h: Heap, names: Names, operations: seq<OperationSpec>)
    requires Ordered(h) && PresentOperations(h, operations)
  {
    forall i :: 0 <= i < |operations| ==> OperationFine(h, names, operations[i])
  }

  predicate HasEntry(paths: Paths, path: Text, httpMethod: HttpMethod) {
    path in paths && httpMethod in paths[path]
  }

  function AddEntry(paths: Paths, path: Text, httpMethod: HttpMethod, out: OperationObject): Paths {
    var pathItem := if path in paths then paths[path] else map[];
    paths[path := pathItem[httpMethod := out]]
  }

  ghost predicate EntryFor(h: Heap, names: Names, source: DocumentSource, headers: map<Text, HeaderObject>,
                           op: OperationSpec, paths: Paths)
    requires Ordered(h) && PresentParameters(h, op.parameters)
  {
    HasEntry(paths, op.path, op.httpMethod) &&
    OperationDescribed(h, names, source, headers, op, paths[op.path][op.httpMethod])
  }

  /** Every operation has its entry, and there is no entry nor path without an operation. */
  ghost predicate PathsDescribed(h: Heap, names: Names, source: DocumentSource, headers: map<Text, HeaderObject>,
                                 operations: seq<OperationSpec>, paths: Paths)
    requires Ordered(h) && PresentOperations(h, operations)
  {
    && (forall i :: 0 <= i < |operations| ==> EntryFor(h, names, source, headers, operations[i], paths))
    && (forall p, m :: HasEntry(paths, p, m) ==>
          exists i :: 0 <= i < |operations| && operations[i].path == p && operations[i].httpMethod == m)
    && (forall p :: p in paths ==> paths[p] != map[])
  }

  /** The loop state after the operations so far. */
  ghost predicate PathsState(h: Heap, names: Names, source: DocumentSource, headers: map<Text, HeaderObject>,
                             done: seq<OperationSpec>, paths: Paths, operationIds: set<Text>)
    requires Ordered(h) && PresentOperations(h, done)
  {
    && DistinctOperations(done) && AllFine(h, names, done)
    && PathsDescribed(h, names, source, headers, done, paths)
    && operationIds == set op | op in done :: op.operationId
  }

  method BuildPaths(h: Heap, names: Names, source: DocumentSource, headers: map<Text, HeaderObject>,
                    operations: seq<OperationSpec>) returns (r: Result<Paths, OpenApiError>)
    requires Ordered(h) && PresentOperations(h, operations)
    ensures r.Ok? <==> DistinctOperations(operations) && AllFine(h, names, operations)
    ensures r.Ok? ==> PathsDescribed(h, names, source, headers, operations, r.value)
  {
    var paths: Paths, operationIds: set<Text> := map[], {};
    for i := 0 to |operations|
      invariant PathsState(h, names, source, headers, operations[..i], paths, operationIds)
    {
      var op := operations[i];
      assert operations[..i + 1] == operations[..i] + [op];
      if op.operationId in operationIds {
        IdClash(operations, i);
        return Err(DuplicateOperationId(op.operationId));
      }
      var out := BuildOperation(h, names, source, headers, op);
      if out.Err? {
        assert !OperationFine(h, names, operations[i]);
        return Err(out.error);
      }
      var pathItem := if op.path in paths then paths[op.path] else map[];
      if op.httpMethod in pathItem {
        PlaceClash(h, names, source, headers, operations, i, paths);
        return Err(DuplicateMethod(op.path, op.httpMethod));
      }
      PathsStep(h, names, source, headers, operations[..i], op, paths, operationIds, out.value);
      operationIds := operationIds + {op.operationId};
      paths := paths[op.path := pathItem[op.httpMethod := out.value]];
    }
    assert operations[..|operations|] == operations;
    return Ok(paths);
  }

  lemma IdClash(operations: seq<OperationSpec>, i: nat)
    requires i < |operations| && exists op :: op in operations[..i] && op.operationId == operations[i].operationId
    ensures !DistinctOperations(operations)
  {
    var op :| op in operations[..i] && op.operationId == operations[i].operationId;
    var j :| 0 <= j < i && operations[j] == op;
  }

  lemma PlaceClash(h: Heap, names: Names, source: DocumentSource, headers: map<Text, HeaderObject>,
                   operations: seq<OperationSpec>, i: nat, paths: Paths)
    requires Ordered(h) && PresentOperations(h, operations) && i < |operations|
    requires PathsDescribed(h, names, source, headers, operations[..i], paths)
    requires HasEntry(paths, operations[i].path, operations[i].httpMethod)
    ensures !DistinctOperations(operations)
  {
    var done := operations[..i];
    var j :| 0 <= j < i && done[j].path == operations[i].path && done[j].httpMethod == operations[i].httpMethod;
    assert operations[j] == done[j];
  }

  lemma PathsStep(h: Heap, names: Names, source: DocumentSource, headers: map<Text, HeaderObject>,
                  done: seq<OperationSpec>, op: OperationSpec, paths: Paths, ids: set<Text>, out: OperationObject)
    requires Ordered(h) && PresentOperations(h, done) && PresentParameters(h, op.parameters)
    requires PathsState(h, names, source, headers, done, paths, ids) && op.operationId !in ids
    requires OperationFine(h, names, op) && OperationDescribed(h, names, source, headers, op, out)
    requires !HasEntry(paths, op.path, op.httpMethod)
    ensures PathsState(h, names, source, headers, done + [op], AddEntry(paths, op.path, op.httpMethod, out),
                       ids + {op.operationId})
  {
    OperationAdded(h, names, source, headers, done, op, paths, out);
    DistinctAdded(done, op, ids);
  }

  lemma DistinctAdded(done: seq<OperationSpec>, op: OperationSpec, ids: set<Text>)
    requires DistinctOperations(done) && ids == set o | o in done :: o.operationId
    requires op.operationId !in ids
    requires forall i :: 0 <= i < |done| ==> done[i].path != op.path || done[i].httpMethod != op.httpMethod
    ensures DistinctOperations(done + [op])
    ensures ids + {op.operationId} == set o | o in done + [op] :: o.operationId
  {
    forall i | 0 <= i < |done|
      ensures done[i].operationId != op.operationId
    {
      assert done[i] in done;
    }
    assert forall o :: o in done + [op] <==> o in done || o == op;
  }

  lemma OperationAdded(h: Heap, names: Names, source: DocumentSource, headers: map<Text, HeaderObject>,
                       done: seq<OperationSpec>, op: OperationSpec, paths: Paths, out: OperationObject)
    requires Ordered(h) && PresentOperations(h, done) && PresentParameters(h, op.parameters)
    requires PathsDescribed(h, names, source, headers, done, paths)
    requires OperationDescribed(h, names, source, headers, op, out)
    requires !HasEntry(paths, op.path, op.httpMethod)
    ensures PathsDescribed(h, names, source, headers, done + [op], AddEntry(paths, op.path, op.httpMethod, out))
    ensures forall i :: 0 <= i < |done| ==> done[i].path != op.path || done[i].httpMethod != op.httpMethod
  {
    EntriesKept(h, names, source, headers, done, op, paths, out);
    NoStrayEntry(done, op, paths, out);
    EntryAdded(paths, op.path, op.httpMethod, out, op.path, op.httpMethod);
    assert EntryFor(h, names, source, headers, op, AddEntry(paths, op.path, op.httpMethod, out));
  }

  lemma EntriesKept(h: Heap, names: Names, source: DocumentSource, headers: map<Text, HeaderObject>,
                    done: seq<OperationSpec>, op: OperationSpec, paths: Paths, out: OperationObject)
    requires Ordered(h) && PresentOperations(h, done) && !HasEntry(paths, op.path, op.httpMethod)
    requires forall i :: 0 <= i < |done| ==> EntryFor(h, names, source, headers, done[i], paths)
    ensures forall i :: 0 <= i < |done| ==>
      && (done[i].path != op.path || done[i].httpMethod != op.httpMethod)
      && EntryFor(h, names, source, headers, done[i], AddEntry(paths, op.path, op.httpMethod, out))
  {
    forall i | 0 <= i < |done|
      ensures done[i].path != op.path || done[i].httpMethod != op.httpMethod
      ensures EntryFor(h, names, source, headers, done[i], AddEntry(paths, op.path, op.httpMethod, out))
    {
      assert EntryFor(h, names, source, headers, done[i], paths);
      EntryAdded(paths, op.path, op.httpMethod, out, done[i].path, done[i].httpMethod);
    }
  }

  lemma NoStrayEntry(done: seq<OperationSpec>, op: OperationSpec, paths: Paths, out: OperationObject)
    requires forall p, m :: HasEntry(paths, p, m) ==>
      exists i :: 0 <= i < |done| && done[i].path == p && done[i].httpMethod == m
    ensures forall p, m :: HasEntry(AddEntry(paths, op.path, op.httpMethod, out), p, m) ==>
      exists i :: 0 <= i < |done + [op]| && (done + [op])[i].path == p && (done + [op])[i].httpMethod == m
  {
    var next := done + [op];
    forall p, m | HasEntry(AddEntry(paths, op.path, op.httpMethod, out), p, m)
      ensures exists i :: 0 <= i < |next| && next[i].path == p && next[i].httpMethod == m
    {
      EntryAdded(paths, op.path, op.httpMethod, out, p, m);
      if p == op.path && m == op.httpMethod {
        assert next[|done|].path == p;
      } else {
        var i :| 0 <= i < |done| && done[i].path == p && done[i].httpMethod == m;
        assert next[i].path == p;
      }
    }
  }

  /** One more entry leaves the others alone. */
  lemma EntryAdded(paths: Paths, path: Text, httpMethod: HttpMethod, out: OperationObject, p: Text, m: HttpMethod)
    ensures var paths' := AddEntry(paths, path, httpMethod, out);
      && HasEntry(paths', path, httpMethod) && paths'[path][httpMethod] == out && paths'[path] != map[]
      && (p != path || m != httpMethod ==>
            && (HasEntry(paths', p, m) <==> HasEntry(paths, p, m))
            && (HasEntry(paths, p, m) ==> paths'[p][m] == paths[p][m]))
  {
    assert httpMethod in AddEntry(paths, path, httpMethod, out)[path];
  }

  // ----- The document ----------------------------------------------------------------------------

  ghost predicate HeadersDescribed(h: Heap, source: DocumentSource, headers: map<Text, HeaderObject>)
    requires Ordered(h) && PresentSource(h, source)
  {
    headers.Keys == source.headers.Keys &&
    forall k :: k in headers ==>
      InlineLowering(h, source.headers[k].schema) == Ok(headers[k].schema) &&
      headers[k].description == source.headers[k].description && headers[k].example == source.headers[k].example
  }

  ghost predicate SharedDescribed(h: Heap, source: DocumentSource, parameters: map<SharedName, SharedParameterObject>)
    requires Ordered(h) && PresentSource(h, source)
  {
    parameters.Keys == source.sharedParameters.Keys &&
    forall k :: k in parameters ==>
      InlineLowering(h, source.sharedParameters[k].schema) == Ok(parameters[k].schema) &&
      parameters[k].name == source.sharedParameters[k].name &&
      parameters[k].description == source.sharedParameters[k].description
  }

  ghost predicate HeadersLower(h: Heap, source: DocumentSource)
    requires Ordered(h) && PresentSource(h, source)
  {
    forall k :: k in source.headers ==> InlineLowering(h, source.headers[k].schema).Ok?
  }

  ghost predicate SharedLower(h: Heap, source: DocumentSource)
    requires Ordered(h) && PresentSource(h, source)
  {
    forall k :: k in source.sharedParameters ==> InlineLowering(h, source.sharedParameters[k].schema).Ok?
  }

  /** Everything a caller can check before the assembly. */
  ghost predicate Assembles(h: Heap, names: Names, source: DocumentSource, operations: seq<OperationSpec>,
                            catalog: Catalog)
    requires Ordered(h) && PresentSource(h, source) && PresentOperations(h, operations) && Present(h, catalog)
  {
    && DistinctEntries(catalog) && Lowerable(h, names, Components, catalog)
    && HeadersLower(h, source) && SharedLower(h, source)
    && source.errorSchema in names
    && DistinctOperations(operations) && AllFine(h, names, operations)
  }

  ghost predicate DocumentDescribed(h: Heap, names: Names, source: DocumentSource, operations: seq<OperationSpec>,
                                    catalog: Catalog, headers: map<Text, HeaderObject>, d: Document)
    requires Ordered(h) && PresentSource(h, source) && PresentOperations(h, operations) && Present(h, catalog)
  {
    && HeadersDescribed(h, source, headers)
    && PathsDescribed(h, names, source, headers, operations, d.paths)
    && CatalogLowers(h, names, Components, catalog, d.schemas)
    && SharedDescribed(h, source, d.parameters)
    && source.errorSchema in names
    && d.responses == map[source.errorName :=
         JsonResponse(source.errorDescription, map[], RefSchema(Components, names[source.errorSchema]))]
    && d.security == source.security && d.metadata == source.metadata
  }

  /** Main result on the assembly: it succeeds exactly when the operations' ids and places are distinct,
      no status is answered twice, bodies are named and everything lowers; then the document has one
      entry for each operation and no other. */
  method BuildOpenApiDocument(h: Heap, source: DocumentSource, operations: seq<OperationSpec>, catalog: Catalog)
    returns (r: Result<Document, OpenApiError>)
    requires Ordered(h) && PresentSource(h, source) && PresentOperations(h, operations) && Present(h, catalog)
    ensures r.Ok? ==> DistinctEntries(catalog)
    ensures forall names :: Indexes(catalog, names) ==>
      Assembled(h, names, source, operations, catalog, r)
  {
    var index := CatalogIndex(catalog);
    if index.Err? {
      return Err(InCatalog(index.error));
    }
    var names := index.value;
    r := Assemble(h, names, source, operations, catalog);
    forall other | Indexes(catalog, other)
      ensures other == names
    {
      SameIndex(catalog, names, other);
    }
  }

  /** The assembly succeeds exactly when it can, and gives a document as described. */
  ghost predicate Assembled(h: Heap, names: Names, source: DocumentSource, operations: seq<OperationSpec>,
                            catalog: Catalog, r: Result<Document, OpenApiError>)
    requires Ordered(h) && PresentSource(h, source) && PresentOperations(h, operations) && Present(h, catalog)
  {
    && (r.Ok? <==> Assembles(h, names, source, operations, catalog))
    && (r.Ok? ==> exists headers :: DocumentDescribed(h, names, source, operations, catalog, headers, r.value))
  }

  method BuildHeaders(h: Heap, source: DocumentSource) returns (r: Result<map<Text, HeaderObject>, OpenApiError>)
    requires Ordered(h) && PresentSource(h, source)
    ensures r.Ok? <==> HeadersLower(h, source)
    ensures r.Ok? ==> HeadersDescribed(h, source, r.value)
  {
    var refs := map k | k in source.headers :: source.headers[k].schema;
    var lowered := LowerRecord(h, refs);
    assert forall k :: k in refs ==> refs[k] == source.headers[k].schema;
    if lowered.Err? {
      return Err(lowered.error);
    }
    return Ok(map k | k in source.headers ::
      HeaderObject(lowered.value[k], source.headers[k].description, source.headers[k].example));
  }

  method BuildSharedParameters(h: Heap, source: DocumentSource)
      returns (r: Result<map<SharedName, SharedParameterObject>, OpenApiError>)
    requires Ordered(h) && PresentSource(h, source)
    ensures r.Ok? <==> SharedLower(h, source)
    ensures r.Ok? ==> SharedDescribed(h, source, r.value)
  {
    var refs := map k | k in source.sharedParameters :: source.sharedParameters[k].schema;
    var lowered := LowerRecord(h, refs);
    assert forall k :: k in refs ==> refs[k] == source.sharedParameters[k].schema;
    if lowered.Err? {
      return Err(lowered.error);
    }
    return Ok(map k | k in source.sharedParameters :: SharedParameterObject(
      source.sharedParameters[k].name, lowered.value[k], source.sharedParameters[k].description));
  }

  /** The assembly with the index of the catalog at hand. */
  method Assemble(h: Heap, names: Names, source: DocumentSource, operations: seq<OperationSpec>, catalog: Catalog)
    returns (r: Result<Document, OpenApiError>)
    requires Ordered(h) && PresentSource(h, source) && PresentOperations(h, operations) && Present(h, catalog)
    requires Indexes(catalog, names)
    ensures r.Ok? ==> DistinctEntries(catalog)
    ensures Assembled(h, names, source, operations, catalog, r)
  {
    var headers :- BuildHeaders(h, source);
    var paths :- BuildPaths(h, names, source, headers, operations);
    var parameters :- BuildSharedParameters(h, source);
    var schemas := LowerCatalog(h, catalog, Components);
    if schemas.Err? {
      return Err(InCatalog(schemas.error));
    }
    var errorBody :- SchemaRef(names, source.errorSchema);
    var d := Document(source.metadata, paths, schemas.value, parameters,
                      map[source.errorName := JsonResponse(source.errorDescription, map[], errorBody)],
                      source.security);
    assert DocumentDescribed(h, names, source, operations, catalog, headers, d);
    return Ok(d);
  }

  // ----- References ------------------------------------------------------------------------------

  /** Every reference of the response, its headers' and its body's schemas included, names a component. */
  ghost predicate ResponseResolves(out: Response, d: Document) {
    match out
    case EmptyResponse(_) => true
    case ResponseRef(name) => name in d.responses
    case JsonResponse(_, headers, body) =>
      RefersOnlyTo(body, Components, d.schemas.Keys) &&
      forall k :: k in headers ==> RefersOnlyTo(headers[k].schema, Components, {})
  }

  ghost predicate ParameterResolves(out: ParameterObject, d: Document) {
    match out
    case ParameterRef(name) => name in d.parameters
    case ParameterObject(_, _, _, _, _, schema, _) => RefersOnlyTo(schema, Components, {})
  }

  ghost predicate OperationResolves(out: OperationObject, d: Document) {
    && (forall s :: s in out.responses ==> ResponseResolves(out.responses[s], d))
    && (forall i :: 0 <= i < |out.parameters| ==> ParameterResolves(out.parameters[i], d))
    && (out.requestBody.Some? ==> RefersOnlyTo(out.requestBody.value, Components, d.schemas.Keys))
  }

  /** Every reference anywhere in the document names a component of it; inline schemas have none. */
  ghost predicate Closed(d: Document) {
    && (forall p, m :: HasEntry(d.paths, p, m) ==> OperationResolves(d.paths[p][m], d))
    && (forall n :: n in d.schemas ==> RefersOnlyTo(d.schemas[n], Components, d.schemas.Keys))
    && (forall k :: k in d.parameters ==> RefersOnlyTo(d.parameters[k].schema, Components, {}))
    && (forall n :: n in d.responses ==> ResponseResolves(d.responses[n], d))
  }

  lemma InlineHasNoReference(h: Heap, ref: Ref)
    requires Ordered(h) && ref < |h.nodes| && InlineLowering(h, ref).Ok?
    ensures RefersOnlyTo(InlineLowering(h, ref).value, Components, {})
  {
    var none: Names := map[];
    LoweredRefersOnlyTo(h, none, Components, ref, true);
    assert none.Values == {};
  }

  /** The names that references use are the names of the component schemas. */
  lemma NamesAreComponents(h: Heap, names: Names, catalog: Catalog, schemas: map<Text, Schema>)
    requires Ordered(h) && Present(h, catalog) && Indexes(catalog, names)
    requires CatalogLowers(h, names, Components, catalog, schemas)
    ensures names.Values == schemas.Keys
  {
    forall n
      ensures n in names.Values <==> n in schemas
    {
      if n in names.Values {
        var c :| c in names && names[c] == n;
        var i :| 0 <= i < |catalog| && catalog[i].schema == c;
        assert names[catalog[i].schema] == catalog[i].name;
      }
      if n in schemas {
        var i :| 0 <= i < |catalog| && catalog[i].name == n;
        assert names[catalog[i].schema] == n;
      }
    }
  }

  lemma ComponentsResolve(h: Heap, names: Names, catalog: Catalog, schemas: map<Text, Schema>)
    requires Ordered(h) && Present(h, catalog) && Indexes(catalog, names)
    requires CatalogLowers(h, names, Components, catalog, schemas)
    ensures forall n :: n in schemas ==> RefersOnlyTo(schemas[n], Components, names.Values)
  {
    forall n | n in schemas
      ensures RefersOnlyTo(schemas[n], Components, names.Values)
    {
      var i :| 0 <= i < |catalog| && catalog[i].name == n;
      LoweredRefersOnlyTo(h, names, Components, catalog[i].schema, true);
    }
  }

  lemma OperationCloses(h: Heap, names: Names, source: DocumentSource, headers: map<Text, HeaderObject>,
                        op: OperationSpec, out: OperationObject, d: Document)
    requires Ordered(h) && PresentSource(h, source) && PresentParameters(h, op.parameters)
    requires HeadersDescribed(h, source, headers) && SharedDescribed(h, source, d.parameters)
    requires OperationDescribed(h, names, source, headers, op, out)
    requires names.Values == d.schemas.Keys && source.errorName in d.responses
    ensures OperationResolves(out, d)
  {
    forall s | s in out.responses
      ensures ResponseResolves(out.responses[s], d)
    {
      if s == Code(op.success) {
        if op.success.Content? {
          assert names[op.success.schema] in names.Values;
          forall k | k in headers
            ensures RefersOnlyTo(headers[k].schema, Components, {})
          {
            InlineHasNoReference(h, source.headers[k].schema);
          }
        }
      } else {
        var i :| 0 <= i < |op.errors| && op.errors[i] == s;
      }
    }
    forall i | 0 <= i < |out.parameters|
      ensures ParameterResolves(out.parameters[i], d)
    {
      assert ParameterDescribed(h, op.parameters[i], out.parameters[i]);
      if op.parameters[i].Inline? {
        InlineHasNoReference(h, op.parameters[i].parameter.schema);
      }
    }
    if op.requestBody.Some? {
      assert names[op.requestBody.value] in names.Values;
    }
  }

  lemma PathsClose(h: Heap, names: Names, source: DocumentSource, operations: seq<OperationSpec>,
                   headers: map<Text, HeaderObject>, d: Document)
    requires Ordered(h) && PresentSource(h, source) && PresentOperations(h, operations)
    requires HeadersDescribed(h, source, headers) && SharedDescribed(h, source, d.parameters)
    requires PathsDescribed(h, names, source, headers, operations, d.paths)
    requires names.Values == d.schemas.Keys && source.errorName in d.responses
    ensures forall p, m :: HasEntry(d.paths, p, m) ==> OperationResolves(d.paths[p][m], d)
  {
    forall p, m | HasEntry(d.paths, p, m)
      ensures OperationResolves(d.paths[p][m], d)
    {
      var i :| 0 <= i < |operations| && operations[i].path == p && operations[i].httpMethod == m;
      assert EntryFor(h, names, source, headers, operations[i], d.paths);
      OperationCloses(h, names, source, headers, operations[i], d.paths[p][m], d);
    }
  }

  /** Main result on references: every reference anywhere in the document names a component it contains,
      and inline schemas contain none. */
  lemma DocumentIsClosed(h: Heap, names: Names, source: DocumentSource, operations: seq<OperationSpec>,
                         catalog: Catalog, headers: map<Text, HeaderObject>, d: Document)
    requires Ordered(h) && PresentSource(h, source) && PresentOperations(h, operations) && Present(h, catalog)
    requires Indexes(catalog, names)
    requires DocumentDescribed(h, names, source, operations, catalog, headers, d)
    ensures Closed(d)
  {
    NamesAreComponents(h, names, catalog, d.schemas);
    assert names[source.errorSchema] in names.Values;
    assert source.errorName in d.responses;
    PathsClose(h, names, source, operations, headers, d);
    ComponentsResolve(h, names, catalog, d.schemas);
    forall k | k in d.parameters
      ensures RefersOnlyTo(d.parameters[k].schema, Components, {})
    {
      InlineHasNoReference(h, source.sharedParameters[k].schema);
    }
  }

  /** The statuses that a described operation answers. */
  lemma AnsweredStatuses(h: Heap, names: Names, source: DocumentSource, headers: map<Text, HeaderObject>,
                         op: OperationSpec, out: OperationObject, s: Status)
    requires Ordered(h) && PresentParameters(h, op.parameters)
    requires OperationDescribed(h, names, source, headers, op, out)
    ensures s in out.responses <==>
      || s in op.errors
      || s == match op.success
              case NoContent => 204
              case Content(status, _) => if status.Created? then 201 else 200
  {
    if s in op.errors {
      var i :| 0 <= i < |op.errors| && op.errors[i] == s;
      assert op.errors[i] in out.responses;
    }
  }

  lemma OperationOf(h: Heap, names: Names, source: DocumentSource, headers: map<Text, HeaderObject>,
                    operations: seq<OperationSpec>, paths: Paths, p: Text, m: HttpMethod) returns (i: nat)
    requires Ordered(h) && PresentOperations(h, operations) && DistinctOperations(operations)
    requires PathsDescribed(h, names, source, headers, operations, paths) && HasEntry(paths, p, m)
    ensures i < |operations| && operations[i].path == p && operations[i].httpMethod == m
    ensures OperationDescribed(h, names, source, headers, operations[i], paths[p][m])
    ensures forall j :: 0 <= j < |operations| && operations[j].path == p && operations[j].httpMethod == m ==> j == i
  {
    i :| 0 <= i < |operations| && operations[i].path == p && operations[i].httpMethod == m;
    assert EntryFor(h, names, source, headers, operations[i], paths);
  }

  /** An entry stands for exactly one operation, so distinct entries carry distinct operation ids. */
  lemma EntriesAreOperations(h: Heap, names: Names, source: DocumentSource, headers: map<Text, HeaderObject>,
                             operations: seq<OperationSpec>, paths: Paths, p: Text, m: HttpMethod, p': Text,
                             m': HttpMethod)
    requires Ordered(h) && PresentOperations(h, operations) && DistinctOperations(operations)
    requires PathsDescribed(h, names, source, headers, operations, paths)
    requires HasEntry(paths, p, m) && HasEntry(paths, p', m')
    ensures exists i ::
      && 0 <= i < |operations| && operations[i].path == p && operations[i].httpMethod == m
      && OperationDescribed(h, names, source, headers, operations[i], paths[p][m])
      && forall j :: 0 <= j < |operations| && operations[j].path == p && operations[j].httpMethod == m ==> j == i
    ensures paths[p][m].operationId == paths[p'][m'].operationId ==> p == p' && m == m'
  {
    var i := OperationOf(h, names, source, headers, operations, paths, p, m);
    var i' := OperationOf(h, names, source, headers, operations, paths, p', m');
  }
}
