# Contract compiler, canonical text, account recovery and two event protocols

This project models the code of the repository that is easiest to get subtly wrong, and proves what that
code is for.

- **The contract compiler.** `Wire` and `Builders` hold the Zod objects that the `tb` builders create: a heap
  of schema objects, their checks, and the table of registrations, all with identity. `Lowering` is the
  restricted lowering to JSON Schema 2020-12, `JsonSchema` says independently of it when a value is valid
  against a document, and `Meaning` proves that the two agree, `Dispatch` and `NestedUnion` where they do not.
  `Artifacts` and `OpenApi` assemble whole documents. `Port`, `RoundTrip`, `PortBundle`, `FrozenBundle` and
  `PortDispatch` run the other way, from JSON Schema nodes to builder expressions, and prove when lowering gives
  the node, or the whole bundle, back; `Portable` says which nodes that is about, from their keywords alone.
  `Planning` and `ModulePlan` are the graph algorithms of the port.
- **Canonical text.** `Utf16` (surrogates, code points), `CanonicalJson` (the printer), `CanonicalParser` (a
  parser that undoes it), `Digest` (the bytes that are hashed) and `Rfc8259`, which says with literal code units,
  sharing nothing with the printer, which text and which bytes these are.
- **Account recovery.** `Recovery` interleaves any number of the four local commands, each a lookup and a
  transaction, with logins that create sessions.
- **Event protocols.** `Sandbox` interleaves empty-start checks and stop calls of the UI sandbox; `Terminal` is
  the reader of a hidden line fed with arbitrary chunks.

Code that changes things step by step is a class or a method with loops, proved against a specification
function; the properties are then proved of that function. Every main theorem is about all inputs, all
schemas, all runs or all chunkings.

## Findings

Six statements one would expect are false of the code. Each comes with its condition and a concrete input.

- A union whose branches repeat a discriminator constant is built and lowers, but has no dispatch table: parsing
  throws, so values that its document admits are not accepted. For branches with constants, acceptance is
  validity and the constants being distinct (`Dispatch.BranchesAcceptExactly`); for any complete options it is
  validity and the table existing (`Dispatch.UnionAcceptsExactly`); `Dispatch.RepeatedConstantRefused` is an input.
- A union nested in another one may hold objects that the outer table does not know; then the outer union can
  accept a value that its document refuses, because two branches are valid. With every option keyed by the
  discriminator, as object options always are (`Dispatch.ObjectOptionsComplete`), this cannot happen
  (`Meaning.AcceptedIsValid`); `NestedUnion.NestedUnionAcceptsInvalid` is an input. This condition is sufficient
  only: whether some value tells the two apart depends on which values satisfy arbitrary patterns.
- The module planner does not notice a cycle through `ProductionContext` itself. It accepts a graph exactly when
  every cycle passes through it (`ModulePlan.PlanModules`), and an accepted plan emits every schema after its
  references exactly when no references lead from `ProductionContext` back to itself, that is when the graph is
  acyclic (`ModulePlan.PlanOrdersAll`); `ModulePlan.UndetectedCycle` is an input.
- An enum translates and evaluates, but lowering refuses it, unless its values are without repetitions, array-index
  names first and ascending: `RoundTrip.Relowers` has the condition, `Wire.KeyOrderFixed` is why,
  `FrozenBundle.IndexNameEnumRefused` an input.
- A top-level schema that is a bare reference evaluates to the object it names, so the catalog holds one object
  twice and its index throws: `FrozenBundle.BundleReproduced` has the condition,
  `FrozenBundle.BareReferenceRefused` an input.
- A disable or enable command that loses a race reports the state its lookup saw, not the row's:
  `Recovery.UnchangedReportsTheLookup` says exactly when the two differ, `Recovery.LateDisableReportsEnabled` is an
  input.

## Model

| member | source | states |
|---|---|---|
| Utf16.AssertText | apps/api/src/infrastructure/integrity/tb-canonical-json.ts:18-31 | The loop accepts exactly the NUL-free well-formed UTF-16 texts, returns them unchanged, and its two errors are told apart. |
| Utf16.WellFormedIsPaired | apps/api/src/infrastructure/integrity/tb-canonical-json.ts:20-29 | The left-to-right surrogate scan accepts exactly the encodings of sequences of Unicode scalar values. |
| Utf16.DecodeEncode | apps/api/src/infrastructure/integrity/tb-canonical-json.ts:20-29 | Decoding undoes the UTF-16 encoding of every sequence of scalar values. |
| Utf16.EncodeScalarIsUtf16 | apps/api/src/infrastructure/integrity/tb-canonical-json.ts:20-29 | The encoding of a scalar value is the one of section 3 of RFC 2781, written with literal bounds, and no other text is. |
| Utf16.BeforeIsUnitOrder | apps/api/src/infrastructure/integrity/tb-canonical-json.ts:44-45 | Keys are compared as JavaScript sorts strings: by the first differing UTF-16 code unit, a proper prefix first. |
| Utf16.AdmissibleConcat | apps/api/src/infrastructure/integrity/tb-canonical-json.ts:18-31 | Accepted texts stay accepted when joined. |
| Utf16.CodePointLength | packages/contracts/src/primitives/unicode.ts:9-22 | The loop returns the length minus the number of positions where a high surrogate is directly followed by a low one. |
| Utf16.CodePointsConcat | packages/contracts/src/primitives/unicode.ts:9-22 | The count of a concatenation is the sum of the counts, less one exactly when the seam joins a pair. |
| Utf16.DecodedLength | packages/contracts/src/primitives/unicode.ts:9-22 | On accepted text the count is the number of scalar values. |
| CanonicalJson.AdmitsExactly | apps/api/src/infrastructure/integrity/tb-canonical-json.ts:34-50 | The encoding succeeds exactly on trees of null, booleans, safe integers other than -0, admissible strings and keys, arrays and plain objects. |
| CanonicalJson.SortedMembers | apps/api/src/infrastructure/integrity/tb-canonical-json.ts:44-45 | Sorting the keys in code-unit order is strictly ascending and loses or adds no member. |
| CanonicalParser.ParseUndoes | apps/api/src/infrastructure/integrity/tb-canonical-json.ts:34-50 | The parser recovers the value from its canonical text followed by any continuation that does not start with a digit. |
| CanonicalParser.TreeDeterminesText | apps/api/src/infrastructure/integrity/tb-canonical-json.ts:41-48 | Values equal with objects read as maps have the same text, whatever their key order. |
| CanonicalParser.TextIdentifiesValue | apps/api/src/infrastructure/integrity/tb-canonical-json.ts:34-50 | Two admitted values have the same canonical text if and only if they are equal with objects read as maps. |
| Rfc8259.CanonicalDenoted | apps/api/src/infrastructure/integrity/tb-canonical-json.ts:34-50 | The text of every admitted value stands in the grammar relation of RFC 8259 to the value: its words, punctuation, escapes and digits as literal code units, members ascending, no white space. |
| Rfc8259.CanonicalIsTheText | apps/api/src/infrastructure/integrity/tb-canonical-json.ts:34-50 | The encoding of an admitted value is a text if and only if the text stands in that relation to the value, so it is the only such text. |
| Rfc8259.TextBytesAreUtf8 | apps/api/src/infrastructure/integrity/tb-canonical-json.ts:70-74 | The bytes hashed for an exact text are the UTF-8 encoding of its scalar values, by the tables of section 3 of RFC 3629, and no others. |
| Rfc8259.HashedBytes | apps/api/src/infrastructure/integrity/tb-canonical-json.ts:53-57 | The bytes hashed for an admitted value are the UTF-8 encoding of the text the grammar relation gives it, and no others. |
| Digest.CanonicalAdmissible | apps/api/src/infrastructure/integrity/tb-canonical-json.ts:34-57 | Every text the encoding returns passes the second text check, so that check never throws. |
| Digest.DigestRefusals | apps/api/src/infrastructure/integrity/tb-canonical-json.ts:53-57 | The digest refuses exactly the values the encoding refuses, with the encoding's error. |
| Digest.DigestIdentifiesValue | apps/api/src/infrastructure/integrity/tb-canonical-json.ts:53-57 | The hashed bytes are equal exactly for equal values, so equal digests of different values exhibit a hash collision. |
| Digest.ExactTextIdentifies | apps/api/src/infrastructure/integrity/tb-canonical-json.ts:70-74 | The digest of an exact text is refused exactly for inadmissible texts, and equal digests of different texts exhibit a hash collision. |
| Digest.TextBytesInjective | apps/api/src/infrastructure/integrity/tb-canonical-json.ts:70-74 | The bytes hashed for an exact text determine the text. |
| Digest.Utf8Injective | apps/api/src/infrastructure/integrity/tb-canonical-json.ts:55-55 | UTF-8 bytes determine the sequence of scalar values. |
| Digest.ScalarBytesAreUtf8 | apps/api/src/infrastructure/integrity/tb-canonical-json.ts:55-55 | The bytes of a scalar value are those of section 3 of RFC 3629, with literal lead and trail bytes. |
| Builders.Builders.String | packages/contracts/src/primitives/wire.ts:70-107 | Refuses exactly lengths that are not integers from 0 to 9007199254740991 and patterns that do not compile, changing nothing; otherwise pushes the checks in order, creates the copies and registers the last one with just these checks. |
| Builders.Builders.Integer | packages/contracts/src/primitives/wire.ts:115-123 | Creates and registers a number schema with its three checks in order. |
| Builders.Builders.Boolean | packages/contracts/src/primitives/wire.ts:125-127 | Registers a fresh boolean schema without checks; older objects stay as they were. |
| Builders.Builders.Enum | packages/contracts/src/primitives/wire.ts:129-133 | Registers an enum whose entries are the values in key order, with the values as given. |
| Builders.Builders.Literal | packages/contracts/src/primitives/wire.ts:135-137 | Registers a literal of one value. |
| Builders.Builders.Array | packages/contracts/src/primitives/wire.ts:144-157 | Refuses exactly item counts that are not integers from 0 to 9007199254740991; otherwise registers the array with its two length checks. |
| Builders.Builders.Object | packages/contracts/src/primitives/wire.ts:166-187 | Refuses exactly a minimum that is not an integer from 0 to 9007199254740991; otherwise creates the strict object on a fresh never schema, with the minimum check and description where given. |
| Builders.Builders.LooseObject | packages/contracts/src/primitives/wire.ts:190-196 | Registers an open record without checks. |
| Builders.Builders.OneOf | packages/contracts/src/primitives/wire.ts:198-213 | Registers a discriminated union of any options, in order. |
| Builders.StaysSound | packages/contracts/src/primitives/wire.ts:36-50 | Adding objects and registrations whose checks test their parameters keeps this true of every older registration, whatever was added. |
| Builders.RefusedExactly | packages/contracts/src/primitives/wire.ts:52-56 | Strings, arrays and objects are built exactly for limits that are integers from 0 to 9007199254740991, both ends included, and patterns that compile. |
| Builders.StringFacts | packages/contracts/src/primitives/wire.ts:70-107 | The registered string carries exactly the registered checks, which test exactly the recorded options. |
| Builders.ObjectFacts | packages/contracts/src/primitives/wire.ts:166-187 | The registered object is strict over the given shape and carries exactly the recorded minimum. |
| Builders.OneOfFacts | packages/contracts/src/primitives/wire.ts:198-213 | The registered union has exactly the given options and no checks. |
| Lowering.LowerSchema | packages/contracts/src/generation/json-schema.ts:69-182 | The recursion computes the specified lowering, with the same refusal in the same order of tests. |
| Lowering.LowerShape | packages/contracts/src/generation/json-schema.ts:136-150 | The loop over the keys fills the properties and the required list in key order, optional wrappers left out of the list. |
| Lowering.LowerOptions | packages/contracts/src/generation/json-schema.ts:170-173 | The branches are lowered in order and the first refusal is the result. |
| Meaning.MeaningPreserved | packages/contracts/src/generation/json-schema.ts:69-182 | When all named schemas lower and every union in reach of a schema has a complete dispatch table, a value is accepted by the schema's runtime checks if and only if it is valid against the lowered document, references resolved, for every schema tree and value. |
| Meaning.AcceptedIsValid | packages/contracts/src/generation/json-schema.ts:69-182 | A value that a lowered schema accepts is valid against the document also where a union in reach has no dispatch table. |
| Meaning.RejectsUndefined | packages/contracts/src/generation/json-schema.ts:141-151 | A schema that lowers never accepts undefined, so required means what the emitted list says. |
| Meaning.ObjectMeaning | packages/contracts/src/generation/json-schema.ts:129-154 | Given agreement on each property, acceptance and validity under properties, required, additionalProperties and minProperties together agree in the same directions. |
| Meaning.DispatchIsExactlyOne | packages/contracts/src/primitives/wire.ts:198-213 | For any number of options with a complete dispatch table, over literals, enums, their wrappers and nested unions, exactly one option accepts a value if and only if the one its discriminator selects accepts it. |
| Dispatch.BranchesTabled | packages/contracts/src/primitives/wire.ts:198-213 | For object options with a constant discriminator the dispatch table exists exactly when the constants are pairwise distinct. |
| Dispatch.UnionAcceptsExactly | packages/contracts/src/generation/json-schema.ts:161-176 | A lowered union whose options agree accepts exactly the valid values if its dispatch table exists, and nothing otherwise. |
| Dispatch.BranchesAcceptExactly | packages/contracts/src/generation/json-schema.ts:161-176 | For the documented use, acceptance is validity together with the constants being distinct. |
| Dispatch.RepeatedConstantRefused | packages/contracts/src/generation/json-schema.ts:161-176 | A concrete union that is built and lowers, and a value valid against its document that it does not accept. |
| NestedUnion.NestedUnionAcceptsInvalid | packages/contracts/src/generation/json-schema.ts:161-176 | A concrete nested union with a dispatch table that lowers and accepts a value its document refuses. |
| Artifacts.CatalogIndex | packages/contracts/src/generation/artifacts.ts:22-33 | Succeeds exactly when names and schema objects are pairwise distinct, and then maps each object to its one name and nothing else. |
| Artifacts.LowerCatalog | packages/contracts/src/generation/artifacts.ts:35-46 | Succeeds exactly when the entries are distinct and each lowers; the result holds exactly the lowered entries under their names. |
| Artifacts.BundleMeaning | packages/contracts/src/generation/artifacts.ts:48-51 | In a lowered catalog every value an entry accepts is valid against its definition, and conversely where every union in reach has a dispatch table. |
| Artifacts.ForeignChecksHaveNoSay | packages/contracts/src/generation/json-schema.ts:52-66 | Whatever checks and constructs made outside the builders do, they cannot change what a lowered entry accepts, unions without a table included. |
| Artifacts.FailsClosed | packages/contracts/src/generation/json-schema.ts:39-182 | On any heap, if every entry lowers, every schema reachable from the catalog, through references too, is registered with exactly the checks it carries and of the registered kind and parameters, or is a check-free nullable wrapper, or a check-free optional wrapper directly on an object property. |
| Artifacts.LowersExactly | packages/contracts/src/generation/json-schema.ts:69-182 | The other direction as well: a schema lowers exactly when everything down to the next references is such a schema in such a place. |
| Artifacts.LoweredRefersOnlyTo | packages/contracts/src/generation/json-schema.ts:75-78 | Every reference anywhere in a lowered schema is the prefix followed by a catalog name. |
| Artifacts.PrefixOnly | packages/contracts/src/generation/artifacts.ts:35-46 | Lowering under two prefixes gives the same document up to the prefix, and the same refusals. |
| Artifacts.ComponentsAreRebasedDefinitions | packages/contracts/src/generation/artifacts.ts:184-184 | The component schemas of the OpenAPI document are the bundle's definitions with references rebased. |
| OpenApi.BuildResponses | packages/contracts/src/generation/artifacts.ts:113-128 | Succeeds exactly when the body schema is named and no status is answered twice; then the statuses are the success and the listed errors, each with its response. |
| OpenApi.BuildParameters | packages/contracts/src/generation/artifacts.ts:71-85 | Succeeds exactly when the inline schemas lower; shared parameters become references, inline ones keep their order and settings. |
| OpenApi.BuildPaths | packages/contracts/src/generation/artifacts.ts:106-148 | Succeeds exactly when operation ids and places are distinct and every operation is fine; then entries and operations correspond. |
| OpenApi.BuildOpenApiDocument | packages/contracts/src/generation/artifacts.ts:88-200 | Succeeds exactly under conditions on its arguments that a caller can check; then it takes over the metadata and describes every operation and component and nothing else. |
| OpenApi.AnsweredStatuses | packages/contracts/src/generation/artifacts.ts:113-128 | A described operation answers with its listed errors and with 204 without content, 201 for a created resource, 200 otherwise, and with nothing else. |
| OpenApi.EntriesAreOperations | packages/contracts/src/generation/artifacts.ts:106-148 | Each path and method entry stands for exactly one operation, and different entries have different operation ids. |
| OpenApi.DocumentIsClosed | packages/contracts/src/generation/artifacts.ts:88-200 | Every reference anywhere in the document names a component it contains, and inline schemas contain none. |
| Portable.TranslatesExactly | scripts/migrations/port-frozen-contract-v1.ts:131-243 | A node translates if and only if its keywords are exactly those of one supported form, with values that form takes, down to its leaves; the forms are read off the keywords. |
| Portable.TopLevelTranslatesExactly | scripts/migrations/port-frozen-contract-v1.ts:245-291 | The same for top-level nodes, where a union of known references with one constant discriminator is a form too. |
| RoundTrip.EvalOutcome | scripts/migrations/port-frozen-contract-v1.ts:131-243 | The expression of a translated node evaluates if and only if the builders take the node's options, and yields a new, soundly registered schema. |
| RoundTrip.Relowers | scripts/migrations/port-frozen-contract-v1.ts:131-243 | Lowering the evaluated expression gives the node back, required list included, if and only if every enum of the node is in key order; otherwise it is refused. |
| RoundTrip.StringOutcome | scripts/migrations/port-frozen-contract-v1.ts:104-129 | The string builder takes a translated node exactly when pattern and description are strings and the pattern compiles. |
| PortDispatch.BranchesDispatch | scripts/migrations/port-frozen-contract-v1.ts:254-283 | The port's guard on the discriminator gives the evaluated union a complete dispatch table. |
| PortDispatch.PortKeepsMeaning | scripts/migrations/port-frozen-contract-v1.ts:763-801 | From end to end: the schema evaluated for a name accepts exactly the values valid against the frozen definition of that name. |
| PortBundle.TopLevelOutcome | scripts/migrations/port-frozen-contract-v1.ts:245-291 | The same as EvalOutcome for top-level nodes, discriminated unions included. |
| PortBundle.TopLevelRoundTrip | scripts/migrations/port-frozen-contract-v1.ts:245-291 | A top-level node that is no bare reference evaluates exactly when buildable, and then lowers to itself exactly when its enums are in key order. |
| FrozenBundle.TopLevelUses | scripts/migrations/port-frozen-contract-v1.ts:297-306 | The collected references of a translated node are known names, and every set of names that holds them gives the same expression. |
| FrozenBundle.BundleReproduced | scripts/migrations/port-frozen-contract-v1.ts:763-801 | The emitted modules evaluate exactly when all definitions are buildable; the catalog is accepted exactly when none is a bare reference; its lowering is the frozen bundle exactly when all enums are in key order. |
| FrozenBundle.PlannedEmission | scripts/migrations/port-frozen-contract-v1.ts:791-801 | An accepted plan without references from ProductionContext back to itself is an emission order in which every constant is defined before its use. |
| FrozenBundle.ReferenceRepeats | scripts/migrations/port-frozen-contract-v1.ts:137-145 | A bare top-level reference evaluates to an object that the catalog holds under another name as well. |
| FrozenBundle.BareReferenceRefused | scripts/migrations/port-frozen-contract-v1.ts:137-145 | A concrete pair of definitions that passes the port's tests and evaluates, and whose catalog is refused. |
| FrozenBundle.IndexNameEnumRefused | scripts/migrations/port-frozen-contract-v1.ts:172-183 | A concrete enum that translates and evaluates, and whose schema the lowering refuses. |
| Wire.KeyOrderFixed | packages/contracts/src/generation/json-schema.ts:105-111 | A list of values keeps its order as keys of an object exactly when it is without repetitions, array-index names first and ascending. |
| Planning.TopologicalOrder | scripts/migrations/port-frozen-contract-v1.ts:308-333 | Terminates; fails exactly when the in-group reference graph has a cycle, a self-reference included; otherwise returns the lexicographically least of all orders with references first; each name enters the ready list at most once. |
| Planning.Release | scripts/migrations/port-frozen-contract-v1.ts:323-329 | One inner loop keeps the counts of pending references and appends exactly the names that became ready, each once. |
| Planning.GreedyIsLeast | scripts/migrations/port-frozen-contract-v1.ts:319-322 | Taking the least ready name each time gives an order no other order precedes. |
| Planning.StuckHasCycle | scripts/migrations/port-frozen-contract-v1.ts:331-331 | Names left over, each waiting for another, contain a cycle. |
| Planning.OrderExcludesCycles | scripts/migrations/port-frozen-contract-v1.ts:331-331 | A graph with an order has no cycle. |
| ModulePlan.Dependents | scripts/migrations/port-frozen-contract-v1.ts:777-790 | The fixpoint terminates with exactly the schemas that reach ProductionContext through one or more references. |
| ModulePlan.PlanModules | scripts/migrations/port-frozen-contract-v1.ts:791-801 | Succeeds exactly when every reference cycle passes through ProductionContext; core then uses core only, bound is the dependents, and each group is the least order of its schemas by index with references first. |
| ModulePlan.PlanOrdersAll | scripts/migrations/port-frozen-contract-v1.ts:791-801 | Core, ProductionContext, bound lists every schema once with its references earlier if and only if no references lead from ProductionContext to itself, if and only if the graph is acyclic. |
| ModulePlan.UndetectedCycle | scripts/migrations/port-frozen-contract-v1.ts:783-801 | A graph that the planner accepts, since every cycle passes through ProductionContext, although the emitted order is wrong. |
| Recovery.Store.ResetPassword | apps/api/src/cli/admin-recovery-core.ts:130-152 | The transaction's whole new state and outcome. |
| Recovery.Store.DisableUser | apps/api/src/cli/admin-recovery-core.ts:175-204 | The same, unchanged when the row is already disabled. |
| Recovery.Store.EnableUser | apps/api/src/cli/admin-recovery-core.ts:220-249 | The same, unchanged when the row is already enabled. |
| Recovery.Store.RevokeUserSessions | apps/api/src/cli/admin-recovery-core.ts:263-280 | The same; only epoch, sessions and audit trail change. |
| Recovery.CommandEffects | apps/api/src/cli/admin-recovery-core.ts:115-281 | A change is reported exactly when there was something to change; then the epoch grows by one, exactly the unexpired sessions of the user end and are counted, one audit event with the real epochs is appended, and each command sets its own columns of its own row to the stated values and nothing else. |
| Recovery.LookDecides | apps/api/src/cli/admin-recovery-core.ts:99-268 | What a lookup decides in any run: an unacceptable email or a missing row is refused; a row already as wanted is reported unchanged; an ordinary row goes on to the transaction unless the password is weak; the rest is refused; nothing else changes. |
| Recovery.ProceedingCommandSucceeds | apps/api/src/cli/admin-recovery-core.ts:120-281 | A lookup that goes on, directly followed by its transaction, leaves the row as wanted, with the one column set, the epoch one higher and a change reported. |
| Recovery.UnchangedReportsTheLookup | apps/api/src/cli/admin-recovery-core.ts:175-180 | A transaction on a row already in the wanted state changes nothing and reports the looked-up state, which is the row's exactly when the lookup saw that state too. |
| Recovery.LateDisableReportsEnabled | apps/api/src/cli/admin-recovery-core.ts:160-205 | A concrete run of two disable commands whose later outcome says enabled while the row is disabled. |
| Recovery.StepKeepsConsistent | apps/api/src/cli/admin-recovery-core.ts:99-281 | Every step keeps the store consistent and no command waiting on a fixture, removes no user and makes no row a fixture or stop being one. |
| Recovery.EpochAccounting | apps/api/src/cli/admin-recovery-core.ts:120-281 | In every interleaving a user's epoch minus its start is the number of the user's audit events and of outcomes reported as changed, and each event's before-epoch is the previous one's after-epoch. |
| Recovery.LoginStateAlternates | apps/api/src/cli/admin-recovery-core.ts:160-250 | Where enabled means disabledAt is null at the start it does so forever, and changed disable and enable commands of a user strictly alternate. |
| Recovery.RunKeepsSessions | apps/api/src/cli/admin-recovery-core.ts:90-96 | In every run a revokedAt that is set is never changed. |
| Recovery.ChangeEndsSessions | apps/api/src/cli/admin-recovery-core.ts:120-281 | After a command reported a change at a time, no session the user then had is active at that or a later time, whatever runs next. |
| Recovery.FixturesNeverWritten | apps/api/src/cli/admin-recovery-core.ts:106-113 | In no interleaving is a protected fixture's row, session or trail written. |
| Recovery.OthersNeverWritten | apps/api/src/cli/admin-recovery-core.ts:256-281 | A user that no running command is about is never written. |
| Sandbox.SandboxLifecycle.Resume | scripts/local/sandbox-lifecycle.ts:153-157 | A claim past its checks arms the cleanup exactly when no stop has begun. |
| Sandbox.SandboxLifecycle.ClearPointers | scripts/local/sandbox-lifecycle.ts:116-116 | The first cleanup loop, up to the first failing statement, is the specified teardown. |
| Sandbox.SandboxLifecycle.DeleteRows | scripts/local/sandbox-lifecycle.ts:117-117 | The same for the second loop. |
| Sandbox.SandboxLifecycle.AssertEmpty | scripts/local/sandbox-lifecycle.ts:100-113 | Counts every table before it fails over one with rows, and fails at once on a wrong schema or an error. |
| Sandbox.SandboxLifecycle.StopAndExit | scripts/local/sandbox-lifecycle.ts:158-186 | One stop call is the specified teardown to its end; a second one changes nothing. |
| Sandbox.WritesOnlyOwnedRows | scripts/local/sandbox-lifecycle.ts:143-188 | In every interleaving an UPDATE or DELETE occurs only if the schema check and all table checks of one claim passed before the first stop began. |
| Sandbox.VerifiedClaimCleansUp | scripts/local/sandbox-lifecycle.ts:143-188 | In every interleaving a claim whose checks all passed and that resumes before any stop has begun arms the cleanup for good; a teardown that exited without a failed cleanup statement has cleared, deleted and verified every table. |
| Sandbox.OneOrderlyTeardown | scripts/local/sandbox-lifecycle.ts:158-186 | In every interleaving teardown steps run at most once and in order; exit is last, with the first stop's code or 1 exactly when a step failed; an armed teardown runs the whole cleanup unless it fails. |
| Terminal.FeedConcat | apps/api/src/cli/terminal-input.ts:57-91 | Feeding two chunks is feeding their concatenation. |
| Terminal.FeedMeetsSpec | apps/api/src/cli/terminal-input.ts:57-91 | The automaton settles as a one-pass specification does on the text without escape sequences. |
| Terminal.EndsLiterally | apps/api/src/cli/terminal-input.ts:74-80 | The line ends exactly at carriage return, line feed, Ctrl+C, or Ctrl+D with nothing typed, with the line or the cancellation each of them means. |
| Terminal.EraseTakesBack | apps/api/src/cli/terminal-input.ts:82-85 | A printable character and a backspace or delete after it leave the line as it was. |
| Terminal.ControlDoesNothing | apps/api/src/cli/terminal-input.ts:82-90 | Erasing an empty line and every other control character leave the line as it was. |
| Terminal.PrintableIsTyped | apps/api/src/cli/terminal-input.ts:91-91 | Printable text is the line as typed. |
| Terminal.EscapeStripped | apps/api/src/cli/terminal-input.ts:61-73 | An escape sequence leaves no trace: ESC [ up to its final byte, ESC O with one character, ESC with any other. |
| Terminal.NothingToStrip | apps/api/src/cli/terminal-input.ts:86-89 | Text without the escape character is read as it is. |
| Terminal.HiddenLineReader.Finish | apps/api/src/cli/terminal-input.ts:46-55 | Settles once: restores the earlier raw mode, stops listening and writes one newline. |
| Terminal.HiddenLineReader.OnData | apps/api/src/cli/terminal-input.ts:57-91 | One data event advances the automaton by its text, whatever was fed before. |
| Terminal.ReadHiddenLine | apps/api/src/cli/terminal-input.ts:34-98 | For every chunking the promise settles as the specification of the whole input says; only the prompt and one newline are written and the raw mode is restored exactly once. |

## Left out

- Error messages and the schema paths inside them; refusals are kept apart by their kind.
- String formats and regular expressions are uninterpreted predicates shared by the builders and JSON Schema; whether a pattern compiles is a parameter.
- SHA-256 is a parameter; the results are about the bytes it is given.
- JavaScript values with exotic prototypes, sparse arrays, the key `__proto__`, and objects that are not Zod schemas. JSON values are finite trees.
- JSON.stringify's escapes for lone surrogates: the text check comes first, so they are never reached.
- Numbers in schemas and JSON values are reals; floating-point rounding is not the point of any property.
- The order of keywords inside an emitted schema object: a node is a record of keyword slots. The order of properties, required names, enum values and branches is kept.
- Schema objects refer only to older ones, as the builders create them; lazy or cyclic Zod schemas are not built by them.
- A JSON Schema's references are followed a bounded number of times; the theorems hold for every bound that is at least the number of schema objects, so for resolution without a bound.
- Builder expressions are trees of calls, not TypeScript text; an ill-typed option, which the compiler would report, is an evaluation failure. Quoting of names, imports and the constant for the PFC schema version are text.
- The port's operations, endpoints, file emission and its comparison of the two frozen documents.
- OpenApi.BuildOpenApiDocument: does not state the order of paths, methods and components, only which there are and what they say; parameter and header records are iterated in no fixed order.
- Meaning.MeaningPreserved: demands complete dispatch tables of the unions in reach, because without them it is false; Meaning.AcceptedIsValid, Dispatch.UnionAcceptsExactly and the two inputs named under Findings say what holds then.
- Zod's own sets of values for constructs that the lowering refuses; such an option counts as having no dispatch entries. Parsing with a union that has no dispatch table throws, which counts as not accepting.
- The lookup of a user and the password policy are a step with any outcome the store allows; the hasher's output is any text that does not start with the fixture marker.
- Audit fields other than command, user, epochs and count: the others come from the lookup outside the transaction.
- Transactions are atomic, as the database isolates them; expiry and creation of sessions by logins are given as steps.
- UTF-8 decoding of chunks, the visible prompt, and reading a password from standard input.
- The order in which sandbox tables may be deleted: the foreign keys are not part of this model, only when statements may be issued.
- Sandbox.SandboxLifecycle.StopAndExit: runs one stop call without interruption; the interleaved runs are those of Sandbox.Run, whose steps are its segments.
- Readiness, validation, web, deployment and smoke-script code.
