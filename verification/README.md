# Verified models of TheAuth

Dafny models of seven parts of TheAuth, with the properties that users of those parts rely on.
`dafny verify dfyconfig.toml` checks everything.

| directory | part | main results |
|---|---|---|
| `codemod/` | the Kavach-to-TheAuth rename of scripts | lossless lexing, structure preservation, idempotence, which strings are import specifiers |
| `openapi/` | Zod to JSON Schema | soundness, completeness on the exact fragment, plain unions, sharing of components, where references lead |
| `grants/` | canonical argument keys, approval grants | canonical printing, refinement of an abstract map over every trace |
| `session/` | the browser session store | what is shown after each step and what stays, in every interleaving of its asynchronous steps |
| `stepup/` | `WWW-Authenticate` parsing, step-up parameters | what is read of every header of RFC 9110's grammar, step-up round trip |
| `resolve/` | component dependencies | exactly the needed components, in an order that three equations fix; a dependency comes late exactly when its own visit is still going on |
| `bytes/` | base64url | round trips in both directions; text and bytes are one number |
| `regions/` | generated regions of the client libraries | generate-then-check, only interiors change, independence of regions, regeneration |

How the models are laid out:

- Code that works step by step is a method or a class with the source's loop or fields (`Lexer.Tokenize`,
  `Codemod.TransformScript`, `Grants.ApprovalGrants`, `SessionStore.Store`, `Challenges.ParseChallenges`,
  `Resolve.Resolver`, `Base64.Base64UrlToBuffer`, `Regions.Workspace`). Its contract equates the result or the new
  state with a function, and the laws are about that function. The helpers of one loop turn (`Lexer.ReadToken`,
  `Codemod.TransformSegment`, `Challenges.ReadItem`) are the loop body of the source.
- Each part has its model files and its files of laws (`*Laws.dfy`, `RewriteTwice`, `Structure`, `Nesting`,
  `Tokens`, `Renaming`, `Contexts`, `PackagePaths`, `ZodMeaning`, `Sharing`, `Documents`, `Annotations`, `Expansion`,
  `UnionKinds`, `SessionOutcomes`, `Grammar`, `ResolveOrder`, `Base64Numbers`, `Outside`, `Bodies`, `Regenerate`).
  `Prelude.dfy` and `Text.dfy` are shared by all parts.
- `ZodMeaning.Means` reads off a Zod schema what the schema compiled from it accepts; `ZodMeaning.SharedIsMeant` proves
  it right for every document, and the other results on the compiler are about it.
- JavaScript and Go strings are `string`: sequences of code points. Where UTF-16 units matter (`minLength`) they are
  counted explicitly.

What is taken as given:

- `CODE_PATTERN`: the identifier alternative matches a maximal run of `[A-Za-z0-9_$]` that is an old name; this is
  what its lookbehind and lookahead say. The env alternative comes first. `Words.ValidTable` states what the codemod's
  theorems need of a rename table, and `RenameTable.RenameMapIsValid` proves it of the shipped one.
- Zod: a schema is its `_def`; a refinement and the date rule are arbitrary predicates over the wire value, so the
  results hold for all of them. JSON Schema is read as 2020-12 (Core sections 8.2.3, 10.2 and 10.3, Validation
  section 6): an assertion applies to its own instance type.
- The session store: listeners do not call back into the store while they are notified, storage does not throw and is
  not shared with another tab, stored text is a session or absent. Every piece of code between two awaits is one step,
  and any enabled step may come next.
- The component loader answers the same for the same name; the registry is the map of the names it knows.
- A `$ref` is evaluated as a JSON Pointer in a fragment (RFC 6901 section 6) on the document's components, for names
  without `/`, `~` and `%`, as all component names of the source are; so no percent-decoding is needed.
- `resolve(root, file)` gives different paths for different files, and nothing else writes to them during a run.

Where the code does something other than it promises:

- `mapImportPath` looks its override up in a plain object, so `@kavachos/constructor` and the other names inherited from
  `Object.prototype` map to the printed form of what they inherit: `ImportPath.ConstructorIsPrinted` gives the value,
  `ImportPath.PackageKeepsItsName` the exact condition. The model does the same, and the other laws hold regardless.
- `stringSchema` copies Zod's minimum, which counts UTF-16 units, into `minLength`, which counts code points:
  `ZodLaws.MinTwoIsUnsound` gives the input, `ZodLaws.LengthSafeIsExact` the exact condition.
- `withNull` over a bare enum keeps `enum` and so refuses null: `ZodLaws.NullableIsExact` says exactly when.
- A plain union becomes `oneOf`, which refuses what two options accept: `UnionKinds.StringOrStringIsUnsound` gives the
  input. Options of different kinds of values are safe, and among options that take the plainest value of each of their
  kinds only those: `UnionKinds.UnionIsSoundIffKindsDiffer`. Discriminated unions need no condition.
- `parseChallenges` does not know token68: the token is read as one more challenge, or as an empty parameter when it has
  one padding character, and with more padding the rest of the header is lost (`Grammar.HeaderIsRead`,
  `Grammar.Token68EndsIffPadded`).
- Hydrating a session without a token leaves the old one in storage, and a reload shows that one
  (`SessionLaws.HydrateWithoutToken`, `SessionLaws.ReloadShowsTheSession`).
- `StepUpParams` refuses four kinds of white space, `strings.Fields` splits at all of Unicode's: the step-up round trip
  holds if and only if no value holds any of them (`StepUpLaws.CarriedRoundTrip`).
- On a cyclic registry a dependency comes late exactly when its visit is still going on
  (`ResolveOrder.OnlyThoseInProgressComeLate`); beyond direct dependencies a cycle leaves no order
  (`ResolveOrder.CyclesBreakLongerOrder`).
- A region whose body or begin marker holds its end marker grows with every generation: `RegionLaws.ApplyTwice`.

## Model

| member | source | states |
|---|---|---|
| RenameTable.RenameMapIsValid | packages/cli/src/rename-map.ts:12-127 | the shipped table is valid: canonical names are identifiers, no canonical name is an old name, and no name interferes with the env pattern or its prefixes |
| RenameTable.CanonicalIsNotOld | packages/cli/src/rename-map.ts:12-123 | across any two rows, a canonical name is never the other row's old name |
| Rewriter.PiecesCover | packages/cli/src/codemod.ts:164-178 | one pass splits its input into pieces that together are the input, and replaces only identifier text by identifier text |
| Rewriter.SwapsAreListed | packages/cli/src/codemod.ts:164-178 | every replacement is a mapped name with its own canonical name, counted under the old name; or an env name with only its prefix changed, counted under `env:` and that whole name |
| Renaming.EnvHeadIsSplit | packages/cli/src/codemod.ts:39-43 | the env alternative matches exactly where the text is `process.env` or `import.meta.env`, a dot with white space around it, and an old env name with something behind its prefix |
| Renaming.WordIsRenamed | packages/cli/src/codemod.ts:164-178 | a whole word that starts no env reference becomes its canonical name if and only if it is an old name, and otherwise stays |
| Renaming.EnvNameIsRenamed | packages/cli/src/codemod.ts:164-168 | an env reference keeps its object, its white space and its name, under the new prefix |
| Renaming.OtherIsKept | packages/cli/src/codemod.ts:39-43 | a character outside words stays, and a word may start behind it |
| Renaming.RestOfWordIsKept | packages/cli/src/codemod.ts:39-43 | what follows a word character in the same word stays |
| RewriteTwice.EnvNotCreated | packages/cli/src/codemod.ts:39-43 | renaming what follows an identifier cannot make an env reference that was not there |
| RewriteTwice.RewrittenIsInert | packages/cli/src/codemod.ts:164-178 | rewritten text holds no further match, at any position and after any preceding character |
| RewriteTwice.ReplaceCodeTwice | packages/cli/src/codemod.ts:164-178 | rewriting code twice is rewriting it once, and the second time counts nothing |
| RewriteTwice.NoOldNameLeft | packages/cli/src/codemod.ts:164-178 | afterwards no mapped name and no old env reference stands anywhere an identifier could begin |
| ImportPath.NewPathsAreFixed | packages/cli/src/rename-map.ts:140-153 | a mapped import path is not an old path, so it is never mapped again |
| ImportPath.MappedHead | packages/cli/src/rename-map.ts:140-153 | mapping exchanges only a head of the specifier, and neither head holds a quote, a backslash or a newline |
| PackagePaths.OldRootIsMapped | packages/cli/src/rename-map.ts:140-143 | `kavachos`, alone or with a path, becomes `@glinr/theauth` with that path |
| PackagePaths.OldScopedIsMapped | packages/cli/src/rename-map.ts:131-153 | `@kavachos/name`, alone or with a path, becomes the root package for `core`, `@glinr/theauth-plugin-discovery` and `-plugin-telemetry` for these two, and otherwise `@glinr/theauth-` and the name |
| PackagePaths.OnlyOldIsMapped | packages/cli/src/rename-map.ts:140-147 | every other specifier has no new path |
| ImportPath.PackageKeepsItsName | packages/cli/src/rename-map.ts:131-153 | a scoped package other than core keeps its name behind the new prefix if and only if the name is neither an override nor inherited by every object |
| ImportPath.ConstructorIsPrinted | packages/cli/src/rename-map.ts:151-152 | the value at `@kavachos/constructor`, which is no path |
| Lexer.FindStringEnd | packages/cli/src/codemod.ts:56-69 | the end of the first unescaped closing quote on the line, or -1 when the line or the text ends first |
| Quotes.StringEndByMarks | packages/cli/src/codemod.ts:57-69 | whether a quote is closed depends only on the order of quotes, newlines and escapes behind it |
| Quotes.CleanOfStringEnd | packages/cli/src/codemod.ts:57-69 | the end found is the quote itself, and the text before it has no unescaped quote or newline and no dangling escape |
| Quotes.StringEndOfClean | packages/cli/src/codemod.ts:57-69 | conversely, after such text the very next quote is found |
| Lexer.ReadTemplateText | packages/cli/src/codemod.ts:71-86 | the end of template text and whether an expression opens there, for closed and unterminated templates alike |
| Lexer.PushTemplate | packages/cli/src/codemod.ts:102-110 | a piece of template text, with the depth saved and reset exactly when an expression opens |
| Lexer.ReadToken | packages/cli/src/codemod.ts:112-159 | one turn of the lexer's loop, in every branch: the kind, the end and the nesting behind it |
| Lexer.Tokenize | packages/cli/src/codemod.ts:88-162 | the loop with its pending code and its depth stack yields the segments of the lexical specification |
| Tokens.SourceIsShaped | packages/cli/src/codemod.ts:88-162 | each segment of a source read without the lexer: a string ends at the first unescaped quote of its line, template text at the first unescaped backtick or `${`, a line comment before its newline, a block comment at the first `*/`; no character of code starts any of these; and the nesting behind it |
| Tokens.ClosedStringEnds | packages/cli/src/codemod.ts:57-69 | a quote closed on its line ends at that quote, whatever follows |
| Structure.LexIsWellFormed | packages/cli/src/codemod.ts:88-162 | lossless: segments join to the source; none is empty, no two code segments are adjacent, each is what the lexer reads in its place |
| Structure.WellFormedIsLex | packages/cli/src/codemod.ts:88-162 | such a segmentation is unique, so it is enough to check one to know the lexing of a text |
| Structure.CodeRunPieces | packages/cli/src/codemod.ts:164-178 | rewriting a stretch of code leaves it a stretch of code with the same nesting behind it, whatever similar text follows |
| Nesting.NestingHolds | packages/cli/src/codemod.ts:89-162 | at every segment, brace depth is not negative while a template expression is open, and the stack is as high as opened minus resumed expressions |
| Nesting.SourceNesting | packages/cli/src/codemod.ts:89-162 | the same for every source, from an empty stack |
| Nesting.CodeHoldsNoOpener | packages/cli/src/codemod.ts:112-158 | a code segment holds no backtick and no comment opener, not even one reaching across its end |
| Codemod.ReplaceCodeCounting | packages/cli/src/codemod.ts:164-178 | the new text, and the counts raised by exactly the matches |
| Codemod.TransformStringCounting | packages/cli/src/codemod.ts:187-202 | one string rewritten in its context, and the counts raised to match; `Contexts.StringBecomes` says to what |
| Codemod.TransformSegment | packages/cli/src/codemod.ts:208-218 | one segment rewritten by its kind, and the code the next string sees before it |
| Codemod.TransformScript | packages/cli/src/codemod.ts:204-221 | the loop computes the segment-wise rewriting of the lexed source, and the counts it adds; `Contexts.QuotedSegmentBecomes` and the `Renaming` rows say what that is |
| CodemodLaws.CodeKept | packages/cli/src/codemod.ts:204-221 | a rewritten code segment still reads as code, with the same nesting |
| CodemodLaws.CommentKept | packages/cli/src/codemod.ts:204-221 | a rewritten comment still reads as one comment of its whole text |
| CodemodLaws.StringKept | packages/cli/src/codemod.ts:204-221 | a rewritten string or template text still reads as one string segment with the same nesting |
| CodemodLaws.RewriteIsWellFormed | packages/cli/src/codemod.ts:204-221 | rewriting a well-formed segmentation gives a well-formed one whose text has the same marks |
| CodemodLaws.StructurePreserved | packages/cli/src/codemod.ts:89-221 | lexing the output gives exactly the rewritten segments of the input: same number, same kinds |
| CodemodLaws.OtherStringsUntouched | packages/cli/src/codemod.ts:187-202 | template text and every string outside an import or env-bracket context is the same segment of the output |
| Contexts.ImportContextIsSplit | packages/cli/src/codemod.ts:47-48 | code ends in an import context if and only if it splits into anything, one of the six words as a whole word, white space, and for the four calls `(` and white space |
| Contexts.EnvContextIsSplit | packages/cli/src/codemod.ts:49 | the same for `process.env` and `import.meta.env` followed by `[` |
| Contexts.CodeBeforeStandsBefore | packages/cli/src/codemod.ts:204-221 | the code a string is judged by is the rewriting of the last code segment before it with only comments between, and otherwise empty |
| Contexts.OnlyOneStandsBefore | packages/cli/src/codemod.ts:204-221 | that names one text for every segment |
| Contexts.StringBecomes | packages/cli/src/codemod.ts:187-202 | what a quoted string becomes behind a given code, and the key counted: a mapped specifier in an import context, an old env name in a bracket context, otherwise itself |
| Contexts.QuotedSegmentBecomes | packages/cli/src/codemod.ts:187-221 | the same for each quoted segment of the lexed output of the whole script |
| Contexts.SpecifierIsMappedIffImported | packages/cli/src/codemod.ts:187-195 | a specifier that has a new path is replaced in the output if and only if the code before it ends in an import context |
| Contexts.TemplateTextStays | packages/cli/src/codemod.ts:188-189 | template text stays, wherever it stands |
| Contexts.EachKeyIsCounted | packages/cli/src/codemod.ts:52-54 | the counts rise by the number of times each key occurs |
| Contexts.KeysBySegment | packages/cli/src/codemod.ts:204-221 | the keys counted are those of the segments, one after the other |
| CodemodLaws.TransformTwice | packages/cli/src/codemod.ts:204-221 | running the codemod on its output changes nothing and counts nothing, for every source |
| ZodCompiler.BuildStringSchema | packages/core/src/openapi-zod.ts:55-62 | the loop over the checks ends with the last minimum |
| ZodCompiler.BuildNumberSchema | packages/core/src/openapi-zod.ts:46-53 | integer if any check says so, with the last minimum |
| ZodCompiler.BuildObjectSchema | packages/core/src/openapi-zod.ts:120-131 | properties in order and required keys filled field by field, or the first unsupported field's error |
| ZodCompiler.RequiredKeys | packages/core/src/openapi-zod.ts:123-127 | a key is required exactly when its schema does not accept a missing value |
| Annotations.AnnotationsAreCarried | packages/core/src/openapi-zod.ts:42-135 | a schema written out has its own description if that is not empty, a date its format, a discriminated union its discriminator, and a wrapper what it wraps |
| Annotations.NullableKeeps | packages/core/src/openapi-zod.ts:36-40 | a nullable keeps the annotations of a schema with a single type and holds any other unchanged beside null |
| Annotations.MinimumIsTheLast | packages/core/src/openapi-zod.ts:46-62 | the minimum written is that of the last `min`, whatever checks stand around it; without one there is none |
| Annotations.RequiredIsNotEmpty | packages/core/src/openapi-zod.ts:127-130 | `required` is left out exactly when every field is optional, and never empty |
| Annotations.FailureNamesTheType | packages/core/src/openapi-zod.ts:132-133 | a failed compilation names an unsupported type that the schema holds where the compiler looks |
| ZodMeaning.CompilableCompiles | packages/core/src/openapi-zod.ts:70-135 | a schema without unsupported types compiles, with any components |
| ZodMeaning.CompiledIsCompilable | packages/core/src/openapi-zod.ts:132-133 | and without components only such a schema does |
| SchemaMeaning.DescriptionMeansNothing | packages/core/src/openapi-zod.ts:42-44 | a description never changes what a schema accepts, with or without `$ref` |
| SchemaMeaning.WithNullMeaning | packages/core/src/openapi-zod.ts:36-40 | of any schema, `withNull` accepts what the schema accepted, null if the rest of the schema lets null pass, and nothing else |
| ZodMeaning.CompiledShape | packages/core/src/openapi-zod.ts:70-135 | a compiled schema with a single type carries no `$ref`, `const` or union, and an `enum` exactly when it comes from a bare enum |
| ZodMeaning.SharedIsMeant | packages/core/src/openapi-zod.ts:70-135 | in any document whose references stand for their components, a compiled schema accepts exactly the values read off its Zod schema |
| Sharing.SharedIsUnshared | packages/core/src/openapi-zod.ts:33-44 | compiled with components and references resolved, a schema accepts what it accepts compiled without any, as long as no component hides an enum from a nullable around it |
| Sharing.HiddenEnumTakesNull | packages/core/src/openapi-zod.ts:36-40 | when a component does, null passes with it and not without |
| Sharing.ResolutionExists | packages/core/src/openapi-zod.ts:70-78 | references can be resolved: some environment lets each stand for its component; `Documents.PlacesCanResolve` ties it to the places in the document |
| Sharing.ResolutionIsUnique | packages/core/src/openapi-zod.ts:70-78 | and only one: any two agree on every component |
| Documents.ReferenceLeads | packages/core/src/openapi.ts:239-253 | a component compiles to `#/components/schemas/` and its name, and evaluated there as a JSON Pointer of RFC 6901 the document holds that component, compiled without its own reference |
| Documents.PlacesResolve | packages/core/src/openapi-zod.ts:70-76 | so when references are resolved by their place in the document, each stands for its component |
| Documents.OnlyReferencesLead | packages/core/src/openapi.ts:239-253 | no other reference leads to a component |
| Documents.PlacesCanResolve | packages/core/src/openapi.ts:239-253 | resolving by place is possible in every document of supported components |
| Documents.DocumentIsExact | packages/core/src/openapi.ts:239-253 | in a document whose references are resolved by place, a supported schema accepts every value it parses, and exactly these when nothing is dropped |
| Expansion.CompiledRefsBelow | packages/core/src/openapi-zod.ts:70-78 | every `$ref` in a compiled schema names a component smaller than the schema it was compiled from |
| Expansion.ExpandedHasNoRef | packages/core/src/openapi-zod.ts:70-78 | replacing each `$ref` by its component, with the bound going down each time, leaves no `$ref` |
| Expansion.ResolutionEnds | packages/core/src/openapi-zod.ts:33-78 | so resolving ends, and the schema written out accepts without any document exactly what the schema accepts in its document |
| ZodLaws.LengthSafeIsExact | packages/core/src/openapi-zod.ts:55-62 | the compiled `minLength` admits every string that meets Zod's minimums if and only if the last minimum is small enough for the largest one |
| ZodLaws.MinTwoIsUnsound | packages/core/src/openapi-zod.ts:55-62 | one character outside the basic plane passes `min(2)` and fails its JSON Schema |
| ZodLaws.NullableIsExact | packages/core/src/openapi-zod.ts:36-40 | in any document, null passes the JSON Schema of a nullable if and only if the inner schema does not compile to a bare enum |
| ZodLaws.DiscriminatedIsExclusive | packages/core/src/openapi-zod.ts:115-119 | with distinct discriminator values, no JSON value is accepted by two generated options |
| ZodLaws.DocumentIsSound | packages/core/src/openapi-zod.ts:33-135 | in any document, every value a supported schema parses is accepted by the generated JSON Schema, dropped refinements, maximums and last-wins minimums included |
| ZodLaws.CompilerIsSound | packages/core/src/openapi-zod.ts:70-135 | the same without components |
| ZodLaws.CompilerIsComplete | packages/core/src/openapi-zod.ts:70-135 | every value the generated schema accepts is parsed, when nothing the schema checks is dropped |
| ZodLaws.CompilerIsExact | packages/core/src/openapi-zod.ts:70-135 | both: the two languages accept the same values |
| UnionKinds.UnionIsSoundIffExclusive | packages/core/src/openapi-zod.ts:113-114 | a plain union of sound options is sound if and only if no parsed value is accepted by two generated options |
| UnionKinds.MeansOneOfItsKinds | packages/core/src/openapi-zod.ts:79-131 | what a generated schema accepts is of a JSON type that the Zod schema has room for, read off its syntax |
| UnionKinds.ExclusiveIffDisjointKinds | packages/core/src/openapi-zod.ts:113-114 | options of different kinds are exclusive, and unconstrained options only then |
| UnionKinds.UnionIsSoundIffKindsDiffer | packages/core/src/openapi-zod.ts:113-114 | a plain union of supported, unconstrained options is sound if and only if no two share a kind |
| UnionKinds.DisjointKindsAreSupported | packages/core/src/openapi-zod.ts:113-114 | a plain union of supported options of different kinds is supported, so all results on supported schemas apply |
| UnionKinds.StringOrStringIsUnsound | packages/core/src/openapi-zod.ts:113-114 | a string-or-string union parses "x" and its JSON Schema refuses it |
| UnionKinds.AudienceIsExact | packages/core/src/openapi-schemas.ts:367 | the string-or-list-of-strings union accepts the same values in both languages |
| KeyOrder.SortSorts | packages/agent-frameworks/src/shared.ts:68-69 | entries with distinct keys come out strictly ascending |
| KeyOrder.SameKeysSameOrder | packages/agent-frameworks/src/shared.ts:68-69 | two sorted lists with the same set of keys have the same keys place by place |
| Scalars.QuoteIsPrefixFree | packages/agent-frameworks/src/shared.ts:66 | quoted strings followed by anything agree only if the strings and what follows agree |
| Scalars.IntIsPrefixFree | packages/agent-frameworks/src/shared.ts:66 | the same for printed integers, before a character that ends a value |
| CanonicalLaws.PrefixFree | packages/agent-frameworks/src/shared.ts:65-72 | two printed values followed by more text agree only if they mean the same and the rest is the same |
| CanonicalLaws.SameMeaningPrintsAlike | packages/agent-frameworks/src/shared.ts:65-72 | values equal up to key order at every depth print alike |
| CanonicalLaws.PrintIsCanonical | packages/agent-frameworks/src/shared.ts:65-72 | values print alike if and only if they are equal up to key order at every depth |
| CanonicalLaws.PrintHasNoNul | packages/agent-frameworks/src/shared.ts:65-72 | printed JSON never holds a raw U+0000 |
| GrantLaws.KeyIsExact | packages/agent-frameworks/src/shared.ts:87 | two calls share a key if and only if tool names are equal and arguments are equal up to key order, whatever characters a tool name holds |
| Grants.ApprovalGrants.Grant | packages/agent-frameworks/src/shared.ts:89-91 | the key maps to the new id, every other key is as before |
| Grants.ApprovalGrants.ApprovalIdFor | packages/agent-frameworks/src/shared.ts:92-99 | hands out the id under the key and removes it; without one nothing changes |
| GrantLaws.StepRefines | packages/agent-frameworks/src/shared.ts:85-101 | one operation on string keys answers and acts as on a map from calls to ids |
| GrantLaws.TraceRefines | packages/agent-frameworks/src/shared.ts:85-101 | so does every trace of operations |
| GrantLaws.LookupIsLatest | packages/agent-frameworks/src/shared.ts:92-99 | after any trace a lookup returns the latest grant for that call not yet spent, and nothing if there is none |
| GrantLaws.SpentOnce | packages/agent-frameworks/src/shared.ts:74-77 | no grant is handed out twice |
| GrantLaws.SizeCountsOutstanding | packages/agent-frameworks/src/shared.ts:100 | the size is the number of calls with an unspent grant |
| Grants.ResumeAfterApproval | packages/agent-frameworks/src/shared.ts:128-157 | checks until a status is missing, `approved`, `denied` or `expired` or the time is over, and answers approved, denied, expired, not found or pending exactly by that last status; the delay between checks and its defaults; the store changes exactly on approval of a given call whose key does not hold the id yet, and then only there |
| SessionStore.Store.Refresh | packages/client/src/session-store.ts:290-341 | the synchronous start of a refresh: at most one in flight, stored session shown, token chosen |
| SessionStore.Store.OnAnswer | packages/client/src/session-store.ts:306-325 | the step after the fetch, in every branch of epoch and status |
| SessionStore.Store.OnFailure | packages/client/src/session-store.ts:326-331 | the step after a failed or aborted fetch |
| SessionStore.Store.OnBody | packages/client/src/session-store.ts:311-322 | the step after the body is read: commit only under the same epoch |
| SessionStore.Store.OnCleared | packages/client/src/session-store.ts:334-341 | the in-flight mark is cleared after the run has ended |
| SessionStore.Store.FinishAuthenticate | packages/client/src/session-store.ts:261-281 | a successful sign-in or sign-up is the step `AuthSucceeded`, which `SessionOutcomes.SignInShows` describes; otherwise nothing changes |
| SessionStore.Store.HydrateSession | packages/client/src/session-store.ts:373-382 | bumps the epoch and persists the given session, or signs out when there is none or it is expired |
| SessionStore.Store.BeginSignOut | packages/client/src/session-store.ts:394-399 | bumps the epoch, aborts, clears memory and storage, and keeps the token for the request |
| SessionStore.Store.DestroyStore | packages/client/src/session-store.ts:349-355 | bumps the epoch, aborts, stops loading, keeps the session |
| SessionLaws.InvariantHolds | packages/client/src/session-store.ts:192-355 | single flight, live controller, live loading and mirrored storage hold after every prefix of every interleaving |
| SessionLaws.LoadingNeverSticks | packages/client/src/session-store.ts:192-202 | once anything has started, loading means that one refresh is outstanding and its answer still counts; never are two outstanding |
| SessionLaws.SettledIsNotLoading | packages/client/src/session-store.ts:290-332 | whenever the outstanding refresh settles, overtaken or not, loading is false |
| SessionLaws.StorageAgrees | packages/client/src/session-store.ts:204-233 | a session with a token equals the stored one, and once something has decided, no session means empty storage |
| SessionLaws.ReloadShowsTheSession | packages/client/src/session-store.ts:221-233 | in every reachable state, a reload shows the session that was there if and only if it has a token |
| SessionLaws.HydrateWithoutToken | packages/client/src/session-store.ts:373-382 | hydrating without a token over a stored session leaves that in storage, and the next refresh carries its token |
| SessionLaws.DecisionAborts | packages/client/src/session-store.ts:349-351 | sign-out and destroy abort the outstanding request |
| SessionLaws.OnlyCurrentCommits | packages/client/src/session-store.ts:290-332 | a step of a refresh that changes session, loading or storage belongs to the current epoch |
| SessionLaws.RefreshIsAtomic | packages/client/src/session-store.ts:290-332 | a refresh that commits does so on the very state it started from: nothing visible changed and nothing decided in between |
| SessionLaws.SignOutSignsOut | packages/client/src/session-store.ts:394-399 | after sign-out the session is null, storage is empty and no earlier refresh counts |
| SessionLaws.SignedOutStays | packages/client/src/session-store.ts:394-399 | it stays so in every interleaving until a sign-in or sign-up completes, a hydrate runs or a later refresh reads a user |
| SessionOutcomes.SignInShows | packages/client/src/session-store.ts:278-279 | in every run a successful sign-in or sign-up leaves its session shown, not loading, and stored where there is storage |
| SessionOutcomes.SignedInStays | packages/client/src/session-store.ts:278-341 | it stays shown and stored, in every interleaving, until the next decision or the answer to a refresh begun after it |
| SessionOutcomes.HydrateShows | packages/client/src/session-store.ts:373-382 | a hydrated session is shown as given and stored if it has a token, unless it is expired or has no user; then nobody is signed in and storage is empty |
| SessionOutcomes.SignOutShowsNobody | packages/client/src/session-store.ts:394-399 | sign-out leaves nobody signed in, not loading, and storage empty |
| SessionOutcomes.DestroySettles | packages/client/src/session-store.ts:349-355 | destroying the store only stops it loading |
| SessionOutcomes.NothingShown | packages/client/src/session-store.ts:261-276 | a request sent, a failed sign-in and the clearing of the in-flight mark change nothing that is shown |
| SessionOutcomes.RefreshBegins | packages/client/src/session-store.ts:290-303 | a refresh that begins shows the stored session while none is shown, and asks with the token of the session shown or else of the stored one |
| SessionOutcomes.RefreshOnce | packages/client/src/session-store.ts:334-341 | while one is in flight another does nothing |
| SessionOutcomes.AnswerShows | packages/client/src/session-store.ts:305-325 | the answer to a refresh that still counts: 401 and 403 sign out and empty storage, success goes on to the body, anything else leaves the session |
| SessionOutcomes.BodyShows | packages/client/src/session-store.ts:311-322 | a body with a user shows that user under the token the refresh asked with and the expiry of the body or else of the session; without one the session stays |
| SessionOutcomes.FailureSettles | packages/client/src/session-store.ts:326-328 | a failed fetch leaves the session |
| SessionOutcomes.OvertakenShowsNothing | packages/client/src/session-store.ts:305-328 | a refresh that was overtaken changes nothing that is shown |
| SessionOutcomes.SettledIsOver | packages/client/src/session-store.ts:329-332 | with its last answer a refresh is over, overtaken or not |
| SessionOutcomes.ClearedMakesRoom | packages/client/src/session-store.ts:334-341 | and then the next one can begin |
| SessionOutcomes.WhatIsOutstanding | packages/client/src/session-store.ts:261-281 | a sign-in is pending from its request to its answer; only sign-out and destroy abort, and only the refresh under way |
| Challenges.ReadParamValue | sdks/go/stepup.go:183-210 | the value of a quoted string with its escapes resolved, or of a bare word, and where it ends |
| Challenges.ReadItem | sdks/go/stepup.go:150-179 | one turn of the parser: end, a parameter or a new scheme, and where it ends |
| Challenges.ParseChallenges | sdks/go/stepup.go:146-181 | the parser ends, in bounds, on every header, with the challenges of the specification |
| Grammar.QuotedIsRead | sdks/go/stepup.go:183-202 | a quoted-string of RFC 9110 section 5.6.4, with any mix of plain characters and quoted pairs, is read to its meaning and its end |
| Grammar.OpenQuoteIsRead | sdks/go/stepup.go:183-202 | a quoted string without its end is read to the end of the header, a backslash there included |
| Grammar.ParamIsRead | sdks/go/stepup.go:154-175 | an auth-param with any bad whitespace around `=` is read as its name and value |
| Grammar.HeaderIsRead | sdks/go/stepup.go:144-181 | what is read of every list of challenges, with parameters or a token68 with any padding, printed in any way RFC 9110 section 11.6.1 allows and behind any separators; words of any ASCII but blanks, `,` and `=`, and bare values that are empty or no token too |
| Grammar.ParserInvertsPrinter | sdks/go/stepup.go:144-181 | without token68 that is the list itself; names lower-cased, the last of equal names winning |
| Grammar.LastOfName | sdks/go/stepup.go:170-173 | a parameter has a value if and only if its name is printed, in whatever letters, and then that of the last one |
| Grammar.LowerIsExact | sdks/go/stepup.go:172 | names: the capitals of ASCII change, each to its small letter, and nothing else |
| Grammar.EarlyParamsAreDropped | sdks/go/stepup.go:170-173 | parameters in front of every challenge are dropped |
| Grammar.EqualsEndsTheHeader | sdks/go/stepup.go:155-160 | an `=` where a word should stand ends the parse |
| Grammar.PaddingEndsTheHeader | sdks/go/stepup.go:161-178 | a token68 with two or more padding characters becomes a challenge of its own and everything behind it is lost |
| Grammar.Token68EndsIffPadded | sdks/go/stepup.go:150-179 | the challenges behind a token68 are read if and only if it has at most one padding character, or there are none |
| StepUp.IsDigits | sdks/go/stepup.go:127-137 | true exactly for a non-empty text of ASCII digits |
| StepUp.StepUpParams | sdks/go/stepup.go:48-67 | the first invalid value's error before a negative age's error; else the joined values if any and the decimal age if given |
| StepUp.ParseStepUpChallenge | sdks/go/stepup.go:69-94 | the first challenge of any header that asks for step-up, or none; `StepUpLaws.StepUpRoundTrip` says what each of its five fields is |
| StepUpLaws.FirstAskingIsFirst | sdks/go/stepup.go:74-94 | what is read is the challenge that asks and has none that asks before it |
| StepUpLaws.NoneAsks | sdks/go/stepup.go:69-94 | no challenge of a list is found exactly when none asks |
| StepUpLaws.NothingIsRead | sdks/go/stepup.go:69-94 | nothing is read exactly when no challenge of any header has `error="insufficient_user_authentication"` |
| StepUpLaws.ParamsAreExact | sdks/go/stepup.go:48-67 | the parameters of a request are refused exactly for an empty value, one with a blank, a tab or a line break, or a negative age, naming the first such value; otherwise they are just the joined values, which split into the values again, and the age |
| StepUpLaws.MaxAgeIsExact | sdks/go/stepup.go:82-86 | an age is read if and only if it is its decimal numeral, behind any zeros, and below 2^63 |
| Text.NumberOfDecimal | sdks/go/stepup.go:64 | a printed number reads as itself |
| StepUpLaws.FieldsOfJoin | sdks/go/stepup.go:58 | words without white space survive joining and splitting |
| StepUpLaws.FieldsOfSpaced | sdks/go/stepup.go:77 | words without white space, with any white space between and around them, are read as these words |
| StepUpLaws.CarriedRoundTrip | sdks/go/stepup.go:39-67 | a challenge that carries a request's parameters asks for that request if and only if no value holds white space of any kind |
| StepUpLaws.StepUpRoundTrip | sdks/go/stepup.go:39-94 | the same through printing and parsing, among other parameters, challenges and headers; and the printed `error_description` and `resource_metadata` come back in their own fields, each empty when not printed |
| StepUpLaws.WrittenRoundTrip | sdks/go/stepup.go:39-94 | in particular for the challenge written with escaped quoted strings, with any description and metadata beside it |
| StepUpLaws.ReadChallengesAreValid | sdks/go/stepup.go:39-44 | whatever was received, `AuthorizeParams` never meets the error it ignores, and a second trip changes nothing |
| Resolve.Resolver.Visit | packages/cli/src/add-command.ts:125-133 | marks, follows the dependencies, moves the name to the end; records what is in progress at each entry; an unknown name abandons the search |
| Resolve.Resolver.VisitDependencies | packages/cli/src/add-command.ts:130 | visits a list of names in order, stopping at the first failure |
| Resolve.ResolveRequest | packages/cli/src/add-command.ts:122-136 | terminates on every finite registry, cyclic or not, with the order of the search or the first unknown name |
| ResolveOrder.ResolvesTheNeeded | packages/cli/src/add-command.ts:122-136 | each name reachable from the request comes exactly once and nothing else; it fails if and only if a reachable name is unknown, and names one |
| ResolveOrder.OnlyThoseInProgressComeLate | packages/cli/src/add-command.ts:121-136 | on every registry, a dependency comes before its dependent if and only if it is not the dependent itself and its visit was not going on when it was followed |
| ResolveOrder.InProgressLeadsHere | packages/cli/src/add-command.ts:125-133 | what is going on when an item is visited leads to it |
| ResolveOrder.DependenciesComeFirst | packages/cli/src/add-command.ts:121-136 | so a dependency comes first unless it leads back to its dependent |
| ResolveOrder.AcyclicIsTopological | packages/cli/src/add-command.ts:121-136 | without cycles everything an item leads to comes before it |
| ResolveOrder.CyclesBreakLongerOrder | packages/cli/src/add-command.ts:121-136 | a registry on which an indirect dependency that does not lead back comes after |
| RequestLaws.OneMoreAsked | packages/cli/src/add-command.ts:134 | one more item asked for adds, behind what the others need, what it needs besides, in the order of a request of its own |
| RequestLaws.OneAsked | packages/cli/src/add-command.ts:125-133 | an item comes behind its dependencies, resolved as a request of their own in which it has none itself; with the row above and the empty request this fixes the order on every registry |
| RequestLaws.NameIsExact | packages/cli/src/add-command.ts:126 | the name of any text is its last segment, before slashes at its end, less one `.json` |
| ResolveLaws.AddressesMeanTheItem | packages/cli/src/add-command.ts:126 | a bare name, its file and any address of the file are the same item |
| Base64.BufferToBase64Url | packages/client/src/webauthn.ts:18-23 | the URL-safe, unpadded base64 of the buffer, for every buffer |
| Base64.Base64UrlToBuffer | packages/client/src/webauthn.ts:10-16 | a fresh buffer with the decoded bytes, or an error exactly when `atob` gives one |
| Base64Laws.BytesOfSextets | packages/client/src/webauthn.ts:18-23 | decoding undoes grouping into sextets; their number is the bits rounded up, never 1 modulo 4 |
| Base64Laws.SextetsOfBytes | packages/client/src/webauthn.ts:10-16 | grouping undoes decoding if and only if the bits no byte takes up are zero |
| Base64Laws.RoundTrip | packages/client/src/webauthn.ts:10-23 | every buffer survives encoding and decoding; the restored padding is what was stripped |
| Base64Laws.DecodeThenEncode | packages/client/src/webauthn.ts:10-23 | a URL-safe text decodes unless its length is 1 modulo 4, and encodes back to itself if and only if it has no stray bits |
| Base64Numbers.EncodeIsExact | packages/client/src/webauthn.ts:18-23 | the text, in the alphabet of RFC 4648 section 5, is as a number in base 64 the bytes as a number in base 256, filled up with zero bits |
| Base64Numbers.DecodeIsExact | packages/client/src/webauthn.ts:10-16 | what is decoded is that number without the bits that fill it up, whatever they are |
| Base64Numbers.EitherAlphabetDecodes | packages/client/src/webauthn.ts:11 | the standard alphabet is decoded like the URL-safe one |
| Base64Numbers.ForeignIsRefused | packages/client/src/webauthn.ts:10-16 | a text with any other character, except white space and `=`, is refused |
| Regions.Workspace.SyncClientCodes | packages/core/scripts/generate-openapi.ts:20-35 | reports the stale files, writes only in write mode and only after all regions were found; on an error nothing is written |
| RegionLaws.ApplyTwice | packages/core/scripts/sdk-decision-codes.ts:60-67 | wherever `applyRegion` succeeds, a second application succeeds too, and changes nothing if and only if neither the begin marker nor the body holds the end marker; otherwise the text grows |
| Bodies.RegionApplies | packages/core/scripts/sdk-decision-codes.ts:60-67 | a region applies if and only if both markers occur, the first end marker not before the first begin marker; its body then stands between them on lines of its own |
| RegionLaws.LastBodyWins | packages/core/scripts/sdk-decision-codes.ts:60-67 | applying a region over an earlier body gives what applying it at first would have given |
| RegionLaws.RegionsCommute | packages/core/scripts/sdk-decision-codes.ts:60-67 | two regions apart from each other can be applied in either order |
| RegionLaws.LayoutStays | packages/core/scripts/generate-openapi.ts:24-29 | applying one region leaves every region of every file in its place and apart from the others |
| RegionLaws.UpToDateStays | packages/core/scripts/generate-openapi.ts:24-29 | applying one region makes it current and leaves current what was |
| RegionLaws.GenerateThenCheck | packages/core/scripts/generate-openapi.ts:20-35 | after writing, a check reports no stale file and another write changes nothing, for any files with their markers in place |
| Outside.AppliedKeepsOutside | packages/core/scripts/sdk-decision-codes.ts:60-67 | applying a region keeps, character for character, the text of a file outside all its regions |
| Outside.OnlyInteriorsChange | packages/core/scripts/generate-openapi.ts:20-35 | so does the whole write for every file; between each pair of markers stands the body on lines of its own, and files without regions are untouched |
| RegionLaws.StaleIsExact | packages/core/scripts/generate-openapi.ts:30-31 | the files reported are exactly those that writing would change |
| Bodies.FirstFailureWins | packages/core/scripts/generate-openapi.ts:20-29 | when a region is the first whose file is missing or whose markers are not found, generating fails and names its file |
| Bodies.SomeRegionFails | packages/core/scripts/generate-openapi.ts:20-29 | and it fails only then |
| Regenerate.GeneratingForgets | packages/core/scripts/generate-openapi.ts:20-35 | generating over earlier generations gives what generating over the first text would have given |
| Regenerate.ClientRegionsAreProper | packages/core/scripts/sdk-decision-codes.ts:30-58 | for codes without `#` and `/` the three client regions meet the conditions |
| Bodies.ClientBodies | packages/core/scripts/sdk-decision-codes.ts:30-58 | both Python bodies hold one line for each code, the Go body its constant, the names aligned on the longest |
| Bodies.GoNameOfParts | packages/core/scripts/sdk-decision-codes.ts:14-20 | a code is named part by part |
| Bodies.GoNameOfPart | packages/core/scripts/sdk-decision-codes.ts:12-20 | `ip` becomes `IP`, any other part gets a capital if it starts with a small letter |
| Regenerate.ClientCodesStayInStep | packages/core/scripts/generate-openapi.ts:20-35 | for the client libraries: the check is clean after writing, and later codes give the text they would have given at first |

## Left out

- The `sfc`, `markup` and dotenv modes of the codemod, `findLeftovers` and reporting: regular-expression block matching around the script mode that is modelled.
- Regular expressions as such: the patterns of the codemod are modelled by their reading above, with `\w`, `\s` and `\b` on single characters.
- Lone surrogates: strings are sequences of characters, so a surrogate never stands alone.
- Non-integer numbers, `toJSON`, dates and functions as arguments of `stableStringify`.
- CanonicalLaws.PrintIsCanonical: about well-formed values, those whose objects have distinct keys, as every JavaScript object has.
- `normalizeDecision` and the override proxy beside the grants: single branches.
- Zod preprocessing, transforms and coercion, `format` as an assertion, and discriminators wrapped in anything but a literal or an enum.
- Property keys such as `__proto__` with a meaning of their own in JavaScript objects.
- ZodLaws.CompilerIsComplete: states the converse of soundness only for schemas of which nothing is dropped, since a dropped check does make the JSON Schema accept more.
- Session listeners, subscription counting and refetch triggers, the reading of wire bodies, the verify and reset actions, and the answer to the sign-out request: none of them writes state or storage.
- SessionLaws.LoadingNeverSticks: says nothing about a server that never answers; loading then stays until something decides.
- Bytes outside ASCII in `WWW-Authenticate`: header text is characters, and parameter names are lower-cased as ASCII.
- Grammar.ParserInvertsPrinter: for lists without token68, for which the parsed challenge has no field; `Grammar.HeaderIsRead` covers them.
- UnionKinds.UnionIsSoundIffKindsDiffer: the converse is for options that take the plainest value of each of their kinds; whether two constrained schemas of one kind overlap (two enums, two patterns) is not decided from syntax here.
- `ACRSatisfies`, `AuthIsFresh` and the error types of the Go client: a rank comparison and a clock comparison.
- Loading and writing of components, backslashes in item names, and the items' contents: an item is its name and its dependencies.
- Bodies.GoNameOfPart: a part that is the name of a member of `Object.prototype`, which the source's lookup of acronyms would find, is named like any other; and capitals are those of ASCII.
- The conversion of WebAuthn options and credentials around base64url: field by field.
- RegionLaws.GenerateThenCheck: for files in which every end marker stands behind its begin marker; `applyRegion` itself also takes an end marker that starts inside the begin marker.
- The OpenAPI document itself beside the client regions, and reading a file while another process writes it.
