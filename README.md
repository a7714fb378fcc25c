# OpenArchiver core, modelled in Dafny

OpenArchiver archives email from Google Workspace, Microsoft 365, IMAP servers and uploaded PST, EML (zip) and mbox files. It stores each message as an `.eml` object, records it in a relational database, indexes it for search, and lets administrators restrict what users see through CASL-style IAM policies. This project models the sequential logic of the backend and proves properties about it:

- **Authorization and filtering.** Expanding `ingestion` grants into `archive` grants and renaming their condition fields (`Ability`). Deciding between full access, deny inversion, no access and compiled filters (`FilterBuilder`). The two compilers from a Mongo-style condition object to a relational expression (`MongoToDrizzle`) and to a search filter string (`MongoToMeli`). A common semantics for the two compilers, under which they are proved to select the same emails (`QuerySemantics`). The policy and resource validators (`PolicyValidator`, `IamDefinitions`).
- **Connectors.** Thread-id header priority (`ConnectorUtils`). The PST folder walk and the `.eml` serialiser (`PstFormat`, `PstFolderNames`, `PstConnector`). The EML zip importer (`EmlConnector`). The mbox splitter (`MboxConnector`). The synthetic mailbox names and upload checks the three file importers share.
- **Ingestion.** `processEmail`, with identity derivation, duplicate skip, storage paths and attachment upsert by content hash. The source life cycle of `IngestionService`. Listing, reading and reference-counted deletion of archived emails (`ArchivedEmailService`).
- **Sync orchestration.** The scheduler, the continuous-sync guard and fan-out, the per-mailbox job with its batching and error descriptors, and the barrier that finishes a sync cycle.
- **Small stateful pieces.** The LRU `TikaCache` and the Tika URL fallback (`OcrService`), connector dispatch (`EmailProviderFactory`), and settings get-or-default and merge (`SettingsService`).

The database, object storage, search index and job queue are modelled as the in-memory state of one class, `ArchiveStore.Archive`, plus `Storage.Store` for object stores. Each service method that changes them is a Dafny `method` whose `ensures` gives the whole new state. The pure parts (compilers, validators, the `.eml` serialiser) are functions, with lemmas relating them to independent reference definitions. JavaScript behaviour the code relies on is modelled where it matters: insertion-ordered object keys, `split`, `trim`, truthiness and `toLowerCase`, the last for the capitals of the main alphabetic blocks and `İ`, with the gaps listed under Left out (`JsStrings`, `Json`). So are Node's base64 and UTF-8 encoders (`Base64`, `Utf8`).

Where the code's own comments and its behaviour differ, the model follows the behaviour:

- The per-mailbox job (`process-mailbox.processor.ts:28-57`) is written to batch processed emails for the indexer, sending a batch whenever it reaches the configured size. The job pushes the value `processEmail` returns, but `processEmail` returns nothing, so no batch is ever formed. Indexing happens inside `processEmail` instead. `ProcessMailboxProcessor.Process` proves that the pushed list stays empty.
- The comment on deny inversion (`FilterBuilder.ts:37-38`) says the AND of the `cannot` conditions excludes them. The code excludes more rows than the deny rules match, as listed under Findings.

## Model

| member | source | states |
|---|---|---|
| Ability.RenameKey | packages/backend/src/iam-policy/ability.ts:48-54 | `id` becomes `ingestionSourceId`; `userId`, `name`, `provider`, `status` get the `ingestionSource.` prefix; any other key is kept |
| Ability.Translate | packages/backend/src/iam-policy/ability.ts:27-58 | a value that is not an object is kept; an object becomes the object in which each key reads the last translated entry assigned to it |
| Ability.RenameKeyLeavesNoSourceKey | packages/backend/src/iam-policy/ability.ts:48-56 | a renamed key is never `id` nor a bare source field |
| Ability.RenameKeyIdempotent | packages/backend/src/iam-policy/ability.ts:48-54 | renaming twice is renaming once, and never produces a logical operator |
| Ability.Entries | packages/backend/src/iam-policy/ability.ts:34-57 | one translated entry per own key of the condition, in for-in order |
| Ability.TranslateEntry | packages/backend/src/iam-policy/ability.ts:38-56 | `$or`/`$and`/`$nor` arrays are translated element by element, a `$not` object is translated, every other value is kept under the renamed key |
| Ability.AssignedLookup | packages/backend/src/iam-policy/ability.ts:34-58 | assigning the translated entries one by one into a fresh record leaves, for each key, the value of the last entry assigned to it (later renamed keys overwrite earlier ones) and no value for a key no entry has |
| Ability.TranslateKeepsOrder | packages/backend/src/iam-policy/ability.ts:34-58 | when renaming creates no clash, the translated object is exactly the translated entries in order |
| Ability.TranslateLeavesNoSourceKey | packages/backend/src/iam-policy/ability.ts:27-58 | the translated object has unique keys, none of which is `id` or a bare source field |
| Ability.EntryKeyClean | packages/backend/src/iam-policy/ability.ts:48-56 | each translated entry's key is free of source keys |
| Ability.TranslateIdempotent | packages/backend/src/iam-policy/ability.ts:27-58 | translating an already translated condition changes nothing |
| Ability.TranslateEntryIdempotent | packages/backend/src/iam-policy/ability.ts:38-56 | translating one entry twice equals translating it once |
| Ability.MirrorOf | packages/backend/src/iam-policy/ability.ts:93-99 | the mirror has subject `archive`, the same action, inversion, fields and reason, and translated conditions when the original has truthy conditions |
| Ability.ExpandPolicies | packages/backend/src/iam-policy/ability.ts:68-107 | the result is the policies unchanged followed by the mirrors the forward scan appends |
| Ability.AddActions | packages/backend/src/iam-policy/ability.ts:74-77 | the seen archive actions grow by exactly the policy's actions |
| Ability.HasExplicitArchiveRule | packages/backend/src/iam-policy/ability.ts:83-85 | true exactly when some action of the grant, or `manage`, was already seen on an archive policy |
| Ability.ExpandOnlyAppendsMirrors | packages/backend/src/iam-policy/ability.ts:68-107 | at most one policy is appended per input policy, and each appended one is an `archive` grant that mirrors an `ingestion` policy |
| Ability.MirroredWhenUnclaimed | packages/backend/src/iam-policy/ability.ts:79-100 | an ingestion grant none of whose actions (nor `manage`) an earlier archive policy names has its mirror appended |
| Ability.LaterArchivePolicyDoesNotBlock | packages/backend/src/iam-policy/ability.ts:73-91 | the scan only looks back: an archive deny listed after an ingestion grant does not stop the mirror, the same deny listed before it does |
| FilterBuilder.CannotConditions | packages/backend/src/services/FilterBuilder.ts:27-29 | exactly the conditions of inverted rules whose conditions are truthy |
| FilterBuilder.NeEntries | packages/backend/src/services/FilterBuilder.ts:40-43 | each entry `(k, v)` becomes `(k, {$ne: v})`, same length and order |
| FilterBuilder.NeConditionOfObject | packages/backend/src/services/FilterBuilder.ts:39-45 | for an object condition, the built object has the same keys in the same order, each value wrapped in `$ne` |
| FilterBuilder.NeEntriesUnique | packages/backend/src/services/FilterBuilder.ts:40-43 | wrapping in `$ne` keeps keys unique |
| FilterBuilder.DenyQuery | packages/backend/src/services/FilterBuilder.ts:39-46 | `{$and: [...]}` with one `$ne`-object per deny condition, in order |
| FilterBuilder.IntendedDenyQuery | packages/backend/src/services/FilterBuilder.ts:36-47 | the corrected inversion: `{$and: [...]}` with `{$not: c}` per deny condition `c` |
| FilterBuilder.CreateFullAccess | packages/backend/src/services/FilterBuilder.ts:24-51 | both filters are absent exactly when an unconditional grant meets no conditional deny, or when there is no unconditional grant and the rules reduce to `null` |
| FilterBuilder.CreateNoAccess | packages/backend/src/services/FilterBuilder.ts:49-55 | a non-null query with no keys gives the never-true pair `1=0` / `ingestionSourceId = "-1"`; an undefined query makes `Object.keys` throw |
| FilterBuilder.CreateCompiles | packages/backend/src/services/FilterBuilder.ts:53-56 | otherwise both filters are compiled from the same query, and the first compiler error is the result |
| FilterBuilder.DenyInversionIgnoresQuery | packages/backend/src/services/FilterBuilder.ts:34-47 | with an unconditional grant the result does not depend on what the rules reduce to |
| FilterBuilder.UnconditionalDenyIgnored | packages/backend/src/services/FilterBuilder.ts:24-29 | adding a deny rule without conditions changes neither the deny list nor the result |
| FilterBuilder.UnconditionalCanSuffix | packages/backend/src/services/FilterBuilder.ts:24-26 | an inverted rule never changes whether an unconditional grant exists |
| FilterBuilder.CannotSuffix | packages/backend/src/services/FilterBuilder.ts:27-29 | a rule that is not a conditional deny adds nothing to the deny list |
| MongoToDrizzle.AndOf | packages/backend/src/helpers/mongoToDrizzle.ts:94 | `and()` of nothing is undefined and of one expression is that expression |
| MongoToDrizzle.OrOf | packages/backend/src/helpers/mongoToDrizzle.ts:31 | `or()` of nothing is undefined and of one expression is that expression |
| MongoToDrizzle.Present | packages/backend/src/helpers/mongoToDrizzle.ts:31-36 | `filter(Boolean)` keeps exactly the defined expressions |
| MongoToDrizzle.CamelToSnake | packages/backend/src/helpers/mongoToDrizzle.ts:3-4 | a capital letter becomes `_` and its lower case, any other character is kept; so the result has no capitals and is never shorter |
| MongoToDrizzle.CamelToSnakeAppend | packages/backend/src/helpers/mongoToDrizzle.ts:3-4 | the conversion works character by character: converting a concatenation converts each part |
| MongoToDrizzle.CamelToSnakeKeepsLowerCase | packages/backend/src/helpers/mongoToDrizzle.ts:3-4 | a name without capitals is unchanged |
| MongoToDrizzle.DrizzleColumn | packages/backend/src/helpers/mongoToDrizzle.ts:6-22 | `ingestionSource.x` names `"ingestion_sources"."x"` in snake case; a dotted key whose first segment is a name every object inherits from `Object.prototype` takes the same branch with that property's text as the table; any other key is a snake-case identifier |
| MongoToDrizzle.InheritedRelationTaken | packages/backend/src/helpers/mongoToDrizzle.ts:14-19 | `constructor.id` names column `id` of the `Object` function's text, not the identifier `constructor.id` |
| MongoToDrizzle.MongoToDrizzle | packages/backend/src/helpers/mongoToDrizzle.ts:24-95 | the loop over the entries returns exactly the compilation that QuerySemantics proves meaning-preserving |
| MongoToDrizzle.EntryCondition | packages/backend/src/helpers/mongoToDrizzle.ts:28-87 | one turn of the loop pushes exactly what that entry compiles to, or returns its error |
| MongoToDrizzle.CompileList | packages/backend/src/helpers/mongoToDrizzle.ts:31-36 | `value.map(mongoToDrizzle)` gives each sub-condition's compilation in order, or the first error |
| MongoToMeli.SnakeToCamel | packages/backend/src/helpers/mongoToMeli.ts:4-6 | `_` followed by a lower-case letter becomes that letter in upper case, a lone character is kept; never longer than the input |
| MongoToMeli.SnakeToCamelAppend | packages/backend/src/helpers/mongoToMeli.ts:4-6 | a part not ending in `_` converts on its own, so each `_x` becomes `X` and nothing else changes |
| MongoToMeli.SnakeToCamelWithoutUnderscore | packages/backend/src/helpers/mongoToMeli.ts:4-6 | a name without `_` is unchanged |
| MongoToMeli.MeliColumn | packages/backend/src/helpers/mongoToMeli.ts:8-16 | a dotted key keeps its first two segments joined by `.`; any other key is camel-cased |
| MongoToMeli.QuoteIfString | packages/backend/src/helpers/mongoToMeli.ts:18-23 | strings are wrapped in double quotes, everything else is kept |
| MongoToMeli.RenderEach | packages/backend/src/helpers/mongoToMeli.ts:99 | one text per condition, in order |
| MongoToMeli.RenderAll | packages/backend/src/helpers/mongoToMeli.ts:31-38 | one text per sub-filter, in order |
| MongoToMeli.CompileAll | packages/backend/src/helpers/mongoToMeli.ts:31-37 | a successful `map(mongoToMeli)` has one filter per sub-condition |
| MongoToMeli.MongoToMeli | packages/backend/src/helpers/mongoToMeli.ts:25-100 | the loop returns exactly the rendering of the filter that QuerySemantics proves meaning-preserving, or its error |
| MongoToMeli.EntriesStep | packages/backend/src/helpers/mongoToMeli.ts:27-98 | one loop step: an entry's error ends the compilation, otherwise its conditions are appended |
| MongoToMeli.AppendRendered | packages/backend/src/helpers/mongoToMeli.ts:26-98 | appending rendered texts and their conditions keeps them index by index in step |
| MongoToMeli.EntryConditions | packages/backend/src/helpers/mongoToMeli.ts:28-97 | the texts one entry pushes are the renderings of its conditions, or its error |
| MongoToMeli.ListCondition | packages/backend/src/helpers/mongoToMeli.ts:30-40 | an `$or`/`$and` entry pushes the parenthesised join of its sub-filters' texts |
| MongoToMeli.FieldCondition | packages/backend/src/helpers/mongoToMeli.ts:84-96 | a plain value pushes `column = value`, or for `ingestionSource.userId` the `ingestionSourceId IN [...]` of the owner's sources |
| MongoToMeli.SubFilters | packages/backend/src/helpers/mongoToMeli.ts:31-37 | the texts of the sub-filters, one per element, or the first error |
| MongoToMeli.OperatorText | packages/backend/src/helpers/mongoToMeli.ts:49-83 | the comparison texts of the first operator, nothing for an unsupported one |
| MongoToMeli.MembershipText | packages/backend/src/helpers/mongoToMeli.ts:72-82 | `IN`/`NOT IN` lists and `EXISTS`/`NOT EXISTS`, and the error `.map` raises on a non-array |
| QuerySemantics.AndOfEval | packages/backend/src/helpers/mongoToDrizzle.ts:94 | `and(...)` over defined operands is their conjunction |
| QuerySemantics.OrOfEval | packages/backend/src/helpers/mongoToDrizzle.ts:31 | `or(...)` over defined operands is their disjunction |
| QuerySemantics.PresentAllSome | packages/backend/src/helpers/mongoToDrizzle.ts:94 | filtering a list with no undefined element keeps it |
| QuerySemantics.DrizzleCompileCorrect | packages/backend/src/helpers/mongoToDrizzle.ts:24-95 | for a well-formed condition and a row without NULLs the expression is TRUE exactly when the document matches, and never UNKNOWN |
| QuerySemantics.DrizzleEntriesCorrect | packages/backend/src/helpers/mongoToDrizzle.ts:27-88 | each entry compiles to an expression whose value is whether that entry matches |
| QuerySemantics.DrizzleEntryCorrect | packages/backend/src/helpers/mongoToDrizzle.ts:28-87 | one entry compiles to one expression with the entry's truth value |
| QuerySemantics.DrizzleListEntryCorrect | packages/backend/src/helpers/mongoToDrizzle.ts:30-38 | `$or` is true exactly when some sub-condition matches, `$and` when all do |
| QuerySemantics.DrizzleAllCorrect | packages/backend/src/helpers/mongoToDrizzle.ts:31-36 | every sub-condition of a list compiles faithfully |
| QuerySemantics.DrizzleOperatorCorrect | packages/backend/src/helpers/mongoToDrizzle.ts:50-84 | each supported operator compiles to the comparison that means it |
| QuerySemantics.MatchesAllEntries | packages/backend/src/helpers/mongoToDrizzle.ts:94 | an object condition matches exactly when all its entries do |
| QuerySemantics.AnyItemMatches | packages/backend/src/helpers/mongoToDrizzle.ts:31 | `$or` truth over the list is existence of a matching sub-condition |
| QuerySemantics.EveryItemMatches | packages/backend/src/helpers/mongoToDrizzle.ts:36 | `$and` truth over the list is every sub-condition matching |
| QuerySemantics.MeliCompileCorrect | packages/backend/src/helpers/mongoToMeli.ts:25-100 | for a well-formed condition the search filter, as a filter tree, holds exactly on the documents that match it |
| QuerySemantics.FilterHoldsAllAtoms | packages/backend/src/helpers/mongoToMeli.ts:99 | conditions joined with ` AND ` hold exactly when each one does |
| QuerySemantics.MeliEntriesCorrect | packages/backend/src/helpers/mongoToMeli.ts:27-98 | the conditions pushed for the entries hold exactly when the entries match, one by one |
| QuerySemantics.MeliEntryCorrect | packages/backend/src/helpers/mongoToMeli.ts:28-97 | one entry pushes one condition with the entry's truth value, the owner lookup included |
| QuerySemantics.MeliListEntryCorrect | packages/backend/src/helpers/mongoToMeli.ts:30-40 | an `$or` entry pushes a condition that holds exactly when some sub-condition matches, `$and` when all do |
| QuerySemantics.MeliAllCorrect | packages/backend/src/helpers/mongoToMeli.ts:31-37 | every sub-condition of a list compiles faithfully |
| QuerySemantics.MeliOperatorCorrect | packages/backend/src/helpers/mongoToMeli.ts:49-83 | each supported operator becomes the search condition that means it |
| QuerySemantics.CompilersAgree | packages/backend/src/services/FilterBuilder.ts:56 | on rows without NULL columns, the relational filter and the search filter built from one well-formed query select the same emails (`NeOnNullColumn` shows where they part on NULL columns) |
| QuerySemantics.NeOnNullColumn | packages/backend/src/helpers/mongoToDrizzle.ts:58-59 | on a NULL column `{f: {$ne: v}}` matches as a condition but compiles to `NOT (f = v)`, which SQL evaluates to UNKNOWN |
| QuerySemantics.NeCompiles | packages/backend/src/helpers/mongoToDrizzle.ts:58-59 | `{f: {$ne: v}}` compiles to `NOT (f = v)` |
| QuerySemantics.ColumnOfPlainName | packages/backend/src/helpers/mongoToDrizzle.ts:21 | a plain lower-case key names its own column |
| QuerySemantics.NeConditionMatches | packages/backend/src/services/FilterBuilder.ts:39-45 | the inverted deny condition matches exactly when every field differs from the value the deny names |
| QuerySemantics.NeEntryMatches | packages/backend/src/services/FilterBuilder.ts:39-45 | one entry `{k: {$ne: v}}` of the inverted deny condition holds exactly when the document's `k` differs from `v` |
| QuerySemantics.DenyQueryMatches | packages/backend/src/services/FilterBuilder.ts:36-47 | the deny-inversion query matches exactly when, for every deny, every field differs |
| QuerySemantics.DenyInversionOverExcludes | packages/backend/src/services/FilterBuilder.ts:39-45 | a document that does not match the deny `{a: 1, b: 2}` is still excluded when it has `a = 1` |
| QuerySemantics.NeConditionSingleField | packages/backend/src/services/FilterBuilder.ts:39-45 | for a one-field deny the inversion is the exact negation |
| QuerySemantics.IntendedDenyQueryMatches | packages/backend/src/services/FilterBuilder.ts:36-47 | the corrected inversion matches exactly the documents that match no deny condition |
| QuerySemantics.IntendedDenyQueryWF | packages/backend/src/services/FilterBuilder.ts:36-47 | the corrected inversion of well-formed denies is well-formed, so both compilers keep its meaning |
| PolicyValidator.IsActionValid | packages/backend/src/iam-policy/policy-validator.ts:79-84 | valid exactly for the eight whitelisted actions; otherwise the reason names the action |
| PolicyValidator.IsSubjectValid | packages/backend/src/iam-policy/policy-validator.ts:92-98 | valid exactly for the seven whitelisted subjects; otherwise the reason names the subject |
| PolicyValidator.FirstFailure | packages/backend/src/iam-policy/policy-validator.ts:52-57 | absent exactly when every name passes; otherwise the verdict of the first name that fails |
| PolicyValidator.IsValidIff | packages/backend/src/iam-policy/policy-validator.ts:42-71 | a policy is valid exactly when it, its action and its subject are present and every action and subject is whitelisted, and the reason is `valid` exactly then |
| PolicyValidator.MissingFieldsReason | packages/backend/src/iam-policy/policy-validator.ts:43-48 | a missing policy, action or subject, and only that, gives the missing-fields verdict |
| PolicyValidator.FirstInvalidActionDecides | packages/backend/src/iam-policy/policy-validator.ts:50-57 | the first action outside the whitelist decides the reason |
| PolicyValidator.FirstInvalidSubjectDecides | packages/backend/src/iam-policy/policy-validator.ts:59-66 | with every action valid, the first subject outside the whitelist decides |
| PolicyValidator.ScalarAsArray | packages/backend/src/iam-policy/policy-validator.ts:51-60 | a single name is validated as the one-element list holding it |
| PolicyValidator.EmptyListsValid | packages/backend/src/iam-policy/policy-validator.ts:43-70 | empty action and subject lists pass (an array is truthy), an empty string counts as missing |
| IamDefinitions.ValidActionsByService | packages/backend/src/iam-policy/iam-definitions.ts:97-102 | every valid action belongs to one service and starts with that service's `service:` prefix |
| IamDefinitions.PrefixedSegmentIff | packages/backend/src/iam-policy/iam-definitions.ts:116-118 | a prefix followed by `[^\/]+` is exactly the prefix followed by a non-empty segment without `/` |
| IamDefinitions.ArchiveResourceIff | packages/backend/src/iam-policy/iam-definitions.ts:116 | an archive resource is `archive/all` or one segment under `ingestion-source/`, `mailbox/` or `custodian/` |
| IamDefinitions.IngestionResourceIff | packages/backend/src/iam-policy/iam-definitions.ts:117 | an ingestion resource is `ingestion-source/` followed by one segment (`*` included) |
| IamDefinitions.WildcardResources | packages/backend/src/iam-policy/iam-definitions.ts:112-119 | `dashboard/*` is accepted and `dashboard/main` is not; `archive/*` is rejected although the comment above the patterns says it is valid |
| ArchiveStore.Decrypt | packages/backend/src/services/IngestionService.ts:34-44 | the credentials column decrypts exactly when it is intact |
| ArchiveStore.DecryptEncrypt | packages/backend/src/services/IngestionService.ts:58-69 | what `encryptObject` stores, `decryptObject` gives back |
| ArchiveStore.DecryptSource | packages/backend/src/services/IngestionService.ts:31-47 | a row decrypts exactly when its credentials do, keeping every other column |
| ArchiveStore.UpsertOne | packages/backend/src/services/IngestionService.ts:372-385 | an upsert keyed by content hash adds at most the row's hash to the table |
| ArchiveStore.Referrers | packages/backend/src/services/ArchivedEmailService.ts:207-210 | the emails that link an attachment, as the reference count counts them |
| IngestionService.ReturnFileBasedIngestions | packages/backend/src/services/IngestionService.ts:49-51 | exactly PST and EML imports are file based; Mbox is not |
| IngestionService.HeaderMessageId | packages/backend/src/services/IngestionService.ts:304-310 | a non-empty message id comes from a `message-id` header |
| IngestionService.MessageIdOf | packages/backend/src/services/IngestionService.ts:304-315 | the id is never empty: the header's first value when there is one, else `generated-<sha256>-<source>-<email>` |
| IngestionService.EmailPathsCollide | packages/backend/src/services/IngestionService.ts:334-335 | folder `Inbox` with id `12` and folder `Inbox1` with id `2` get the same storage path |
| IngestionService.SlashSplitsUniquely | packages/backend/src/services/IngestionService.ts:335 | with a `/` between folder and id, and no `/` in the id, the path splits in one way only |
| IngestionService.EmailKeySlash | packages/backend/src/services/IngestionService.ts:334-335 | the corrected key contains a `/` exactly when the email has a folder path |
| IngestionService.EmailKeyInjective | packages/backend/src/services/IngestionService.ts:334-335 | distinct (folder, id) pairs give distinct corrected keys |
| IngestionService.IntendedEmailPathInjective | packages/backend/src/services/IngestionService.ts:335 | the corrected storage path never puts two emails at one path |
| IngestionService.IntendedAttachmentPathsDistinct | packages/backend/src/services/IngestionService.ts:366-369 | attachments with different hashes get distinct corrected paths |
| IngestionService.UpsertAllStep | packages/backend/src/services/IngestionService.ts:364-394 | one more attachment upserts onto what the earlier ones left |
| IngestionService.UpsertAllKeys | packages/backend/src/services/IngestionService.ts:372-385 | upserting adds exactly the new content hashes: never a second row for a hash |
| IngestionService.UpsertAllKeepsRows | packages/backend/src/services/IngestionService.ts:381-384 | a row already present keeps everything but its file name |
| IngestionService.AttachmentRows | packages/backend/src/services/IngestionService.ts:365-380 | one row per attachment, in order, with its hash and path |
| IngestionService.SameFileNameOverwrites | packages/backend/src/services/IngestionService.ts:369-370 | two attachments with one file name and different contents: the first row's object ends up holding the second content |
| IngestionService.StoreAttachments | packages/backend/src/services/IngestionService.ts:363-395 | the loop leaves the table, the links and the objects as the three folds over the attachments say |
| IngestionService.AttachmentStep | packages/backend/src/services/IngestionService.ts:364-394 | what one attachment adds to the table, the objects and the links |
| IngestionService.ProcessEmail | packages/backend/src/services/IngestionService.ts:295-421 | a duplicate (same message id and source) changes nothing; otherwise the `.eml` is stored and, when the email has a sender and its source exists, a new row under the id the database generates, its attachments, links and index entry are added, else the insert is refused; nothing is returned |
| IngestionService.ApplyUpdate | packages/backend/src/services/IngestionService.ts:123-138 | the given fields replace the row's, new credentials are encrypted, id and owner are kept |
| IngestionService.ApplyNoUpdate | packages/backend/src/services/IngestionService.ts:123-138 | an empty update leaves the row unchanged |
| IngestionService.ApplyUpdateIdempotent | packages/backend/src/services/IngestionService.ts:123-138 | applying one update twice is applying it once |
| IngestionService.FindById | packages/backend/src/services/IngestionService.ts:104-117 | `Ingestion source not found` for a missing id, the decryption error for unreadable credentials, otherwise the decrypted row with that id |
| IngestionService.Update | packages/backend/src/services/IngestionService.ts:119-158 | the row gets the update and an initial import is queued exactly when the status becomes `auth_success` from another status; a lookup error changes nothing |
| IngestionService.TriggerInitialImport | packages/backend/src/services/IngestionService.ts:207-211 | an existing source gets one waiting `initial-import` job, a lookup error changes nothing |
| IngestionService.ConnectionTest | packages/backend/src/services/IngestionService.ts:76-79 | a file-based connector passes only when its uploaded file is in storage |
| IngestionService.ObjectsAfterDelete | packages/backend/src/services/IngestionService.ts:166-178 | exactly the objects outside the source's folder survive, unchanged, except the upload of a file-based source, which goes |
| IngestionService.Create | packages/backend/src/services/IngestionService.ts:53-87 | the new source is kept, marked `auth_success` and imported exactly when its connection test passes, nothing else changing; otherwise it is deleted as `delete` does and the test's error is the result |
| IngestionService.InsertPending | packages/backend/src/services/IngestionService.ts:57-75 | the new row is stored `pending_auth` with its credentials sealed and nothing else changes; reading it back decrypts to the source, so the decryption-error branch is never taken |
| IngestionService.TestNewSource | packages/backend/src/services/IngestionService.ts:76-86 | the try/catch of `create`: on success the update to `auth_success`, on failure the delete (row, emails by cascade, their links and search documents, the source's objects) and the rethrown error |
| IngestionService.Delete | packages/backend/src/services/IngestionService.ts:160-205 | the source goes, its emails by cascade with their links and search documents, and its stored objects; every other row, link, document and object is kept unchanged; a lookup error changes nothing |
| IngestionService.WithoutStale | packages/backend/src/services/IngestionService.ts:221-235 | the queued jobs left, in order: those that are not a pending job of the source, and those whose removal fails |
| IngestionService.WithoutStaleAppend | packages/backend/src/services/IngestionService.ts:221-235 | the clean-up works job by job: a concatenation is cleaned part by part |
| IngestionService.WithoutStaleIdempotent | packages/backend/src/services/IngestionService.ts:221-235 | cleaning an already cleaned queue changes nothing |
| IngestionService.ForceSyncTwiceQueuesOneCycle | packages/backend/src/services/IngestionService.ts:213-244 | two forced syncs in a row leave the queue as one does, with the single pending job of the source the `continuous-sync` at the end |
| IngestionService.RemoveStaleJobs | packages/backend/src/services/IngestionService.ts:221-235 | the loop removes exactly the source's jobs in the five listed states, except those whose `remove()` throws, and nothing else changes |
| IngestionService.TriggerForceSync | packages/backend/src/services/IngestionService.ts:213-244 | stale jobs are removed (those whose removal fails stay), the status becomes `active` with the force-sync message, and one `continuous-sync` job is queued; a lookup error changes nothing |
| IngestionService.MailboxJobs | packages/backend/src/services/IngestionService.ts:264-272 | at most one job per listed mailbox |
| IngestionService.MailboxJobsMembers | packages/backend/src/services/IngestionService.ts:264-272 | a `process-mailbox` job is queued exactly for each listed mailbox with an address |
| IngestionService.QueuedMailboxJobsStep | packages/backend/src/services/IngestionService.ts:264-272 | one more listed mailbox adds at most one job, at the end |
| IngestionService.QueueMailboxJobs | packages/backend/src/services/IngestionService.ts:264-272 | the loop queues the mailbox jobs in listing order |
| IngestionService.PerformBulkImport | packages/backend/src/services/IngestionService.ts:246-293 | the source is marked `importing`, the mailboxes listed before any error get their jobs, and a listing error marks the source `error` with the message and fails the job |
| ArchivedEmailService.ToRecipients | packages/backend/src/services/ArchivedEmailService.ts:42-45 | each address becomes a recipient with the same name and address, in order |
| ArchivedEmailService.MapRecipients | packages/backend/src/services/ArchivedEmailService.ts:37-46 | `to`, then `cc`, then `bcc`, a missing group counting as empty |
| ArchivedEmailService.View | packages/backend/src/services/ArchivedEmailService.ts:86-92 | the row with its recipients flattened and an empty path shown as `null` |
| ArchivedEmailService.Window | packages/backend/src/services/ArchivedEmailService.ts:76-77 | `LIMIT`/`OFFSET`: at most `limit` rows, starting at `offset` |
| ArchivedEmailService.GetArchivedEmails | packages/backend/src/services/ArchivedEmailService.ts:48-97 | the page holds the visible emails of the source from `(page - 1) * limit` on, newest first; the total counts them all; a negative offset or limit is an error |
| ArchivedEmailService.PagesTile | packages/backend/src/services/ArchivedEmailService.ts:54-77 | pages `1..n` together are exactly the first `n * limit` rows, so every email is on exactly one page |
| ArchivedEmailService.WindowSlice | packages/backend/src/services/ArchivedEmailService.ts:76-77 | a window is the slice between its clipped ends |
| ArchivedEmailService.DistinctCount | packages/backend/src/services/ArchivedEmailService.ts:58-69 | a listing without repetitions has as many ids as the set it lists |
| ArchivedEmailService.TotalCountsSelection | packages/backend/src/services/ArchivedEmailService.ts:58-69 | the total is the number of visible emails of the source |
| ArchivedEmailService.Thread | packages/backend/src/services/ArchivedEmailService.ts:121-137 | no thread without a thread id; otherwise exactly the emails of the same source with the same thread id |
| ArchivedEmailService.GetArchivedEmailById | packages/backend/src/services/ArchivedEmailService.ts:99-180 | `null` exactly for a missing or unreadable email; a readable email whose `.eml` object is missing is an error; otherwise its view, its raw `.eml`, its thread oldest first with each email once, and, when it has attachments, exactly the linked attachment rows |
| ArchivedEmailService.OwnThread | packages/backend/src/services/ArchivedEmailService.ts:123-137 | an email with a thread id is in its own thread |
| ArchivedEmailService.Orphans | packages/backend/src/services/ArchivedEmailService.ts:206-212 | the linked attachments whose only referrer is the deleted email |
| ArchivedEmailService.PathsOf | packages/backend/src/services/ArchivedEmailService.ts:213 | the storage paths of those attachment rows |
| ArchivedEmailService.SoleReferrerIff | packages/backend/src/services/ArchivedEmailService.ts:207-212 | a reference count of one with a link from the email means the email is the only referrer |
| ArchivedEmailService.ReferrersFrame | packages/backend/src/services/ArchivedEmailService.ts:206-235 | earlier passes do not change the referrers of an attachment not yet visited |
| ArchivedEmailService.ReferrersUnlink | packages/backend/src/services/ArchivedEmailService.ts:214-233 | removing one link removes exactly that referrer |
| ArchivedEmailService.DetachAttachment | packages/backend/src/services/ArchivedEmailService.ts:207-234 | the sole referrer deletes the object, the link and the row; a shared attachment loses only the link; a failing delete changes nothing |
| ArchivedEmailService.DetachAll | packages/backend/src/services/ArchivedEmailService.ts:195-239 | after the loop every link of the email is gone, and exactly the orphaned attachments and their objects with them, unless some orphan's object could not be deleted, in which case the links of some of this email's attachments are gone, with exactly the orphans among them and their objects, and nothing else has changed |
| ArchivedEmailService.DeleteArchivedEmail | packages/backend/src/services/ArchivedEmailService.ts:182-248 | a missing email is an error; a failed attachment delete fails with `Failed to delete email attachments` and keeps the email, with the links of some of its attachments gone and exactly the orphans among them and their objects deleted; a failed delete of the email's own object propagates the storage error after all links and orphans are gone, keeping the row and search document; otherwise the email, its search document, its object, its links and its orphaned attachments go |
| ArchivedEmailService.DetachStep | packages/backend/src/services/ArchivedEmailService.ts:206-235 | one pass of the loop moves the state from the visited set to the visited set plus one |
| ArchivedEmailService.OrphansStep | packages/backend/src/services/ArchivedEmailService.ts:206-235 | visiting one more attachment adds it to the orphans exactly when the email is its sole referrer |
| OcrService.WithoutFacts | packages/backend/src/services/OcrService.ts:16-17 | deleting a key from the insertion order removes exactly that key and keeps the order distinct |
| OcrService.DistinctAppend | packages/backend/src/services/OcrService.ts:37 | re-inserting a deleted key at the end keeps each key once |
| OcrService.TracksRemove | packages/backend/src/services/OcrService.ts:26-34 | deleting a key from the map and from its order keeps them in step |
| OcrService.TracksAdd | packages/backend/src/services/OcrService.ts:37 | inserting a new key keeps the map and its order in step |
| OcrService.WithoutHead | packages/backend/src/services/OcrService.ts:30-34 | evicting the first key of the order drops the oldest entry |
| OcrService.EntriesCount | packages/backend/src/services/OcrService.ts:44 | the cache's size is the length of its insertion order |
| OcrService.TikaCache.constructor | packages/backend/src/services/OcrService.ts:5-9 | an empty cache with both counters at zero |
| OcrService.TikaCache.Get | packages/backend/src/services/OcrService.ts:11-22 | a hit returns the value, counts a hit and moves the key to the most recent end; a miss counts a miss and changes nothing else |
| OcrService.TikaCache.Set | packages/backend/src/services/OcrService.ts:24-38 | the key holds the value and is the most recent; an existing key is moved, a new key into a full cache evicts the oldest, and the cache never exceeds 50 entries |
| OcrService.TikaCache.Reset | packages/backend/src/services/OcrService.ts:52-56 | empty cache, both counters zero |
| OcrService.TikaCache.Stats | packages/backend/src/services/OcrService.ts:40-50 | size, bound 50, hits and misses as the cache holds them |
| OcrService.TikaUrls | packages/backend/src/services/OcrService.ts:145-151 | `<url>/tika` first, and a `localhost` fallback exactly when the url contains `://tika:` |
| OcrService.FirstAnswer | packages/backend/src/services/OcrService.ts:153-194 | no answer exactly when every url fails |
| OcrService.FirstAnswerAt | packages/backend/src/services/OcrService.ts:153-194 | the answer is the trimmed text of the first url that answers |
| OcrService.ExtractTextWithTika | packages/backend/src/services/OcrService.ts:117-201 | no `TIKA_URL` is an error and leaves the cache as it was; a cached hash returns its text, counts a hit and becomes the most recent entry; otherwise both lookups count misses and the first answer's trimmed text, or `""` when all urls fail, is cached under the hash as the most recent entry (evicting the least recent from a full cache) and returned |
| SettingsService.Merge | packages/backend/src/services/SettingsService.ts:35 | every field given in the update wins, every other field is kept |
| SettingsService.MergeNoChange | packages/backend/src/services/SettingsService.ts:35 | an empty update changes nothing |
| SettingsService.MergeIdempotent | packages/backend/src/services/SettingsService.ts:35 | merging one update twice is merging it once |
| SettingsService.MergeThen | packages/backend/src/services/SettingsService.ts:33-40 | two updates in a row are one combined update |
| SettingsService.MergeFull | packages/backend/src/services/SettingsService.ts:35 | a full update replaces the settings |
| SettingsService.Current | packages/backend/src/services/SettingsService.ts:18-26 | the first stored row, or the defaults (`en`, `system`, no support email) when there is none |
| SettingsService.SettingsStore.GetSystemSettings | packages/backend/src/services/SettingsService.ts:18-26 | returns the first row; an empty table gets the default row inserted first |
| SettingsService.SettingsStore.CreateDefaultSystemSettings | packages/backend/src/services/SettingsService.ts:48-54 | inserts and returns the defaults |
| SettingsService.SettingsStore.UpdateSystemSettings | packages/backend/src/services/SettingsService.ts:33-41 | every row becomes the merge of the current settings with the update, which is returned |
| SettingsService.UpdateThenGet | packages/backend/src/services/SettingsService.ts:18-41 | a read after an update returns what the update returned |
| EmailProviderFactory.ParseProvider | packages/backend/src/services/EmailProviderFactory.ts:37-51 | a name parses only to the provider whose wire name it is |
| EmailProviderFactory.ParseProviderTag | packages/backend/src/services/EmailProviderFactory.ts:37-49 | every provider's wire name parses back to it |
| EmailProviderFactory.CreateConnector | packages/backend/src/services/EmailProviderFactory.ts:33-53 | one of the six wire names gives the connector serving that provider with the credentials unchanged; any other name fails with `Unsupported provider: <name>` |
| EmailProviderFactory.SourceGetsItsConnector | packages/backend/src/services/EmailProviderFactory.ts:33-49 | every stored source gets a connector for its own provider |
| EmailProviderFactory.DistinctTagsDistinctConnectors | packages/backend/src/services/EmailProviderFactory.ts:37-49 | different wire names never give connectors for the same provider |
| ConnectorUtils.HeaderValue | packages/backend/src/services/ingestion-connectors/helpers/utils.ts:3-14 | a string header is its own text; anything else gives text only through an array's first element or an object's `value` |
| ConnectorUtils.HeaderValueUnwraps | packages/backend/src/services/ingestion-connectors/helpers/utils.ts:3-14 | any nesting of arrays and `{ value }` objects around a text unwraps to that text |
| ConnectorUtils.HeaderText | packages/backend/src/services/ingestion-connectors/helpers/utils.ts:17-21 | a header counts only when present, truthy and with non-empty text |
| ConnectorUtils.FirstWithText | packages/backend/src/services/ingestion-connectors/helpers/utils.ts:16-54 | reference priority rule: absent exactly when no listed header has text |
| ConnectorUtils.ThreadIdIsPriority | packages/backend/src/services/ingestion-connectors/helpers/utils.ts:16-54 | `getThreadId` is the priority rule over References, In-Reply-To, Conversation-Id and Message-ID, and absent exactly when none of them has text |
| ConnectorUtils.ThreadIdTrimmed | packages/backend/src/services/ingestion-connectors/helpers/utils.ts:22-49 | the identifier has no whitespace at either end |
| ConnectorUtils.ReferencesTokenHasNoSpace | packages/backend/src/services/ingestion-connectors/helpers/utils.ts:19-23 | the identifier taken from References holds no space |
| ConnectorUtils.BlankReferencesDecide | packages/backend/src/services/ingestion-connectors/helpers/utils.ts:19-23 | a References header of blanks gives the empty identifier rather than falling through to Message-ID |
| ConnectorUtils.SyntheticAddress | packages/backend/src/services/ingestion-connectors/EMLConnector.ts:59 | the address ends in the domain and is at least as long as name and domain; for a name without `İ` it is exactly as long, each space of the name a dot and each other character lower-cased |
| ConnectorUtils.SyntheticAddressShape | packages/backend/src/services/ingestion-connectors/EMLConnector.ts:59 | everything in front of the domain has no space and no ASCII capital, whatever the name holds |
| ConnectorUtils.SyntheticAddressKeepsPlainNames | packages/backend/src/services/ingestion-connectors/EMLConnector.ts:59 | a name without spaces that lower-casing leaves alone is kept as it is |
| ConnectorUtils.SyntheticAddressOfDottedI | packages/backend/src/services/ingestion-connectors/EMLConnector.ts:59 | the mailbox `İpek` gets the address `i` + U+0307 + `pek@eml.local`, one character longer than name and domain |
| ConnectorUtils.SyntheticMailbox | packages/backend/src/services/ingestion-connectors/EMLConnector.ts:59-64 | id and primary address are the synthetic address; the display name is kept |
| ConnectorUtils.UploadDisplayName | packages/backend/src/services/ingestion-connectors/EMLConnector.ts:56-57 | the uploaded file name, or the prefix and the timestamp when there is none; never empty |
| ConnectorUtils.UploadCheck | packages/backend/src/services/ingestion-connectors/EMLConnector.ts:35-53 | passes exactly when the path is given, names the right format and is stored; each failure has its own message |
| ConnectorUtils.MapAddresses | packages/backend/src/services/ingestion-connectors/EMLConnector.ts:187-198 | one address per parsed address, name kept, single quotes removed |
| ConnectorUtils.Senders | packages/backend/src/services/ingestion-connectors/EMLConnector.ts:207-210 | never empty: `No Sender` stands in for a missing sender |
| ConnectorUtils.MapAttachment | packages/backend/src/services/ingestion-connectors/EMLConnector.ts:180-185 | an unnamed attachment is called `untitled`; content, size and type are kept |
| ConnectorUtils.MapAttachments | packages/backend/src/services/ingestion-connectors/EMLConnector.ts:180-185 | one attachment per parsed attachment, in order |
| ConnectorUtils.ToEmailObject | packages/backend/src/services/ingestion-connectors/EMLConnector.ts:212-227 | every field of the email object comes from the parsed message, the date falling back to now |
| ConnectorUtils.FileMessageId | packages/backend/src/services/ingestion-connectors/EMLConnector.ts:201-205 | the parsed message id, or `generated-<sha256>` when it is empty |
| EmlConnector.TestConnection | packages/backend/src/services/ingestion-connectors/EMLConnector.ts:35-53 | the three checks of `testConnection` in order, with their messages |
| EmlConnector.ListAllUsers | packages/backend/src/services/ingestion-connectors/EMLConnector.ts:55-65 | exactly one mailbox, named after the upload, at `@eml.local` |
| EmlConnector.Extract | packages/backend/src/services/ingestion-connectors/EMLConnector.ts:129-160 | the first file entry that cannot be read ends the process, and the first that comes before any directory entry making its directory rejects the extraction; the directory holds the files of the entries before that one (all entries when none fails), each with its last content, metadata and directories skipped, and the names are listed in first-write order |
| EmlConnector.ExtractStatusSticks | packages/backend/src/services/ingestion-connectors/EMLConnector.ts:148-153 | once a file could not be read or written, later entries do not change how the extraction ends |
| EmlConnector.UnpackedPrefixAt | packages/backend/src/services/ingestion-connectors/EMLConnector.ts:133-153 | when entry `i` ends the extraction, exactly the entries before it were unpacked |
| EmlConnector.UnreadableEntryCrashes | packages/backend/src/services/ingestion-connectors/EMLConnector.ts:148-150 | a file entry whose data cannot be read ends the process |
| EmlConnector.NestedFileNeedsDirectoryEntry | packages/backend/src/services/ingestion-connectors/EMLConnector.ts:148-153 | an archive holding only `a/b.eml` is rejected; with the entry `a/` before it, it unpacks |
| EmlConnector.ExtractedNamesMatchFiles | packages/backend/src/services/ingestion-connectors/EMLConnector.ts:162-175 | the listing names every extracted file exactly once |
| EmlConnector.ExtractedFilesIff | packages/backend/src/services/ingestion-connectors/EMLConnector.ts:135-156 | a name is extracted exactly when some entry of that name is neither metadata nor a directory |
| EmlConnector.ExtractedContentIsLast | packages/backend/src/services/ingestion-connectors/EMLConnector.ts:148-154 | a later entry of the same name overwrites an earlier one |
| EmlConnector.LastSlash | packages/backend/src/services/ingestion-connectors/EMLConnector.ts:97-101 | the position of the last `/`, absent exactly when there is none |
| EmlConnector.RelativeDirSplitsName | packages/backend/src/services/ingestion-connectors/EMLConnector.ts:96-101 | the folder path is empty exactly for a top-level file, and otherwise the name is folder, `/`, file name |
| EmlConnector.ParseMessage | packages/backend/src/services/ingestion-connectors/EMLConnector.ts:177-228 | the id falls back to the content hash and the sender to `No Sender`; the path is the folder inside the archive |
| EmlConnector.EmailsAppend | packages/backend/src/services/ingestion-connectors/EMLConnector.ts:89-112 | the messages of two listings are the messages of each, in order |
| EmlConnector.EmailsStep | packages/backend/src/services/ingestion-connectors/EMLConnector.ts:89-112 | one more file adds its message when it ends in `.eml` and parses, else nothing |
| EmlConnector.EmailsFromEmlFiles | packages/backend/src/services/ingestion-connectors/EMLConnector.ts:89-104 | every message yielded comes from a listed `.eml` file that parses |
| EmlConnector.EmlFilesYieldEmails | packages/backend/src/services/ingestion-connectors/EMLConnector.ts:89-104 | every listed `.eml` file that parses yields its message |
| EmlConnector.ParseExtracted | packages/backend/src/services/ingestion-connectors/EMLConnector.ts:89-112 | the loop yields the messages of the listed files in listing order, skipping files that fail |
| EmlConnector.FetchEmails | packages/backend/src/services/ingestion-connectors/EMLConnector.ts:67-160 | a missing upload fails with the storage error and changes nothing; an archive yauzl cannot open, or an entry it cannot read, ends the process with the upload and the unpacked files left in place; a rejected extraction fails with the write error, rethrown as it came, and otherwise the messages of the extracted `.eml` files are returned, and on both these paths the upload and the temporary directory are removed |
| MboxConnector.TestConnection | packages/backend/src/services/ingestion-connectors/MboxConnector.ts:24-42 | the three checks of `testConnection` in order, with their messages |
| MboxConnector.ListAllUsers | packages/backend/src/services/ingestion-connectors/MboxConnector.ts:44-54 | exactly one mailbox, named after the upload, at `@mbox.local` |
| MboxConnector.Pieces | packages/backend/src/services/ingestion-connectors/MboxConnector.ts:63-70 | the text split at `\nFrom `, the first piece dropped unless the file starts with `From ` |
| MboxConnector.PieceText | packages/backend/src/services/ingestion-connectors/MboxConnector.ts:78-79 | `From ` is put back in front of every piece except the first of a file not starting with `From ` before any message was parsed |
| MboxConnector.FolderPath | packages/backend/src/services/ingestion-connectors/MboxConnector.ts:141-151 | a non-empty Gmail label header gives its first label (the whole header when it has no comma, else the text before its first comma), else the X-Folder header, else no folder |
| MboxConnector.FirstLabel | packages/backend/src/services/ingestion-connectors/MboxConnector.ts:148 | the first label has no comma and is the whole label list or the text before its first comma |
| MboxConnector.ParseMessage | packages/backend/src/services/ingestion-connectors/MboxConnector.ts:104-169 | the id falls back to the content hash, the sender to `No Sender`, the path to the header folder |
| MboxConnector.RunAfterFirstMessage | packages/backend/src/services/ingestion-connectors/MboxConnector.ts:75-90 | once a message was parsed, or when the file starts with `From `, every piece is parsed with `From ` in front |
| MboxConnector.RunBeforeFirstMessage | packages/backend/src/services/ingestion-connectors/MboxConnector.ts:75-90 | before the first message of a file not starting with `From `, pieces are parsed bare until one parses |
| MboxConnector.RunAtMostOnePerPiece | packages/backend/src/services/ingestion-connectors/MboxConnector.ts:75-90 | at most one message per piece |
| MboxConnector.RunStep | packages/backend/src/services/ingestion-connectors/MboxConnector.ts:75-90 | one iteration of the loop: the piece's message when it parses, the count going up with it |
| MboxConnector.ParsePieces | packages/backend/src/services/ingestion-connectors/MboxConnector.ts:73-90 | the loop yields what the reference run over the pieces yields |
| MboxConnector.FetchEmails | packages/backend/src/services/ingestion-connectors/MboxConnector.ts:56-102 | the upload is deleted whatever happens; a missing upload fails with the storage error, otherwise the messages of its pieces |
| MboxConnector.LeadingFromDoubled | packages/backend/src/services/ingestion-connectors/MboxConnector.ts:65-79 | a file starting with `From ` hands its first message to the parser as `From From ...` |
| MboxConnector.FirstPieceKeepsFromLine | packages/backend/src/services/ingestion-connectors/MboxConnector.ts:65-68 | the first piece of a file starting with `From ` still starts with `From ` |
| MboxConnector.Restored | packages/backend/src/services/ingestion-connectors/MboxConnector.ts:78-79 | the corrected pieces: `From ` put back in front of every piece after the split |
| MboxConnector.IntendedTextsRejoin | packages/backend/src/services/ingestion-connectors/MboxConnector.ts:63-79 | the corrected message texts joined by line breaks are the file again, the first one unchanged |
| MboxConnector.RestoredJoin | packages/backend/src/services/ingestion-connectors/MboxConnector.ts:63-79 | pieces with `From ` restored, joined by line breaks, are `From ` and the pieces joined by `\nFrom ` |
| PstFolderNames.ListedIff | packages/backend/src/services/ingestion-connectors/PSTConnector.ts:27-112 | the name-by-name lookup agrees with membership in the list |
| PstFolderNames.DeniedIff | packages/backend/src/services/ingestion-connectors/PSTConnector.ts:27-112 | a name is denied exactly when it is in the deleted-items set or the junk set |
| PstConnector.MailboxName | packages/backend/src/services/ingestion-connectors/PSTConnector.ts:162-163 | the root folder's name, else the file name, else the timestamp; never empty |
| PstConnector.ListAllUsers | packages/backend/src/services/ingestion-connectors/PSTConnector.ts:157-179 | a file that cannot be opened fails with the error `loadPstFile` throws, rethrown as it came; otherwise exactly one mailbox, named as above, at `@pst.local` |
| PstConnector.TestConnection | packages/backend/src/services/ingestion-connectors/PSTConnector.ts:132-150 | the three checks of `testConnection` in order, with their messages |
| PstConnector.MessageId | packages/backend/src/services/ingestion-connectors/PSTConnector.ts:275-286 | the message's internet id, else an id generated from the hash of the constructed `.eml` |
| PstConnector.ParseMessage | packages/backend/src/services/ingestion-connectors/PSTConnector.ts:240-303 | nothing exactly when the parser throws; otherwise the email's `.eml` is the constructed message, its path the folder path, its id as above |
| PstConnector.UntilFailure | packages/backend/src/services/ingestion-connectors/PSTConnector.ts:188-193 | the values before the first failure, each in place, and whether a failure ended the stream |
| PstConnector.FetchEmails | packages/backend/src/services/ingestion-connectors/PSTConnector.ts:181-205 | the upload is deleted whatever happens; a file that cannot be opened fails with its error before any email; otherwise the emails of the walk in walk order up to the first message that fails to parse, which fails the fetch with the parser's error |
| PstFormat.FolderPath | packages/backend/src/services/ingestion-connectors/PSTConnector.ts:218 | the folder's name alone at the top, else the parent's path, `/` and the name |
| PstFormat.Tag | packages/backend/src/services/ingestion-connectors/PSTConnector.ts:220-231 | every message of the folder, in order, tagged with the folder's path |
| PstFormat.ReadChildren | packages/backend/src/services/ingestion-connectors/PSTConnector.ts:220-231 | the `getNextChild` loop yields exactly the folder's messages, in order |
| PstFormat.ProcessFolder | packages/backend/src/services/ingestion-connectors/PSTConnector.ts:207-238 | the recursive walk yields what the reference traversal yields |
| PstFormat.ContentsOfAppend | packages/backend/src/services/ingestion-connectors/PSTConnector.ts:207-238 | the messages of two runs of folders are those of each, in order |
| PstFormat.TraverseIsPreOrder | packages/backend/src/services/ingestion-connectors/PSTConnector.ts:207-238 | the walk is a pre-order over the folders it enters: each folder's own messages, then its subfolders' |
| PstFormat.SubfoldersArePreOrder | packages/backend/src/services/ingestion-connectors/PSTConnector.ts:233-237 | the same for the subfolders, one after the other |
| PstFormat.SkippedCapitalSpam | packages/backend/src/services/ingestion-connectors/PSTConnector.ts:212-216 | a folder named `SPAM` is skipped, since its name is lower-cased before the lookup |
| PstFormat.SkippedCapitalKorzina | packages/backend/src/services/ingestion-connectors/PSTConnector.ts:212-216 | so is the Cyrillic `КОРЗИНА` |
| PstFormat.SkippedCapitalKos | packages/backend/src/services/ingestion-connectors/PSTConnector.ts:212-216 | so is the Czech `KOŠ` |
| PstFormat.VisibleNeverSkipped | packages/backend/src/services/ingestion-connectors/PSTConnector.ts:212-218 | no folder the walk enters is on a deny-list, and each one's path ends in its name |
| PstFormat.VisibleSubfoldersNeverSkipped | packages/backend/src/services/ingestion-connectors/PSTConnector.ts:233-237 | the same for the subfolders |
| PstFormat.FoldAscii | packages/backend/src/services/ingestion-connectors/PSTConnector.ts:342 | the case folding of the `i` flag: ASCII capitals lowered, all else kept |
| PstFormat.FoldAsciiAppend | packages/backend/src/services/ingestion-connectors/PSTConnector.ts:342 | folding distributes over concatenation |
| PstFormat.DeclaredStartsWithHeaders | packages/backend/src/services/ingestion-connectors/PSTConnector.ts:343-351 | the multipart declarations come right after the header lines |
| PstFormat.AppendWhen | packages/backend/src/services/ingestion-connectors/PSTConnector.ts:312-338 | each `if (field) headers += line` step |
| PstFormat.WriteHeaders | packages/backend/src/services/ingestion-connectors/PSTConnector.ts:310-339 | the header lines are written exactly as the header function says |
| PstFormat.WriteEnvelope | packages/backend/src/services/ingestion-connectors/PSTConnector.ts:342-352 | headers and declarations are emitted only when the headers do not mention `Content-Type:` |
| PstFormat.ConstructEml | packages/backend/src/services/ingestion-connectors/PSTConnector.ts:305-391 | the whole message is written exactly as the reference construction says |
| PstFormat.WriteAttachments | packages/backend/src/services/ingestion-connectors/PSTConnector.ts:373-388 | one part per attachment that has a stream, in order |
| PstFormat.BodyPartsPresentIff | packages/backend/src/services/ingestion-connectors/PSTConnector.ts:354-371 | the alternative boundary is closed exactly when a text or HTML part exists |
| PstFormat.AttachmentPayloadRoundTrip | packages/backend/src/services/ingestion-connectors/PSTConnector.ts:378-384 | the base64 payload of an attachment part decodes to the attachment's bytes |
| PstFormat.AttachmentPartsInOrder | packages/backend/src/services/ingestion-connectors/PSTConnector.ts:374-386 | one more attachment adds its part at the end, nothing when it has no stream |
| PstFormat.HeadersKeptWithoutContentTypeText | packages/backend/src/services/ingestion-connectors/PSTConnector.ts:342-352 | when no field mentions `Content-Type:`, the message starts with its headers and the multipart declaration |
| PstFormat.BodyKeepsPrefix | packages/backend/src/services/ingestion-connectors/PSTConnector.ts:353-388 | the body and attachment parts never change how the message starts |
| PstFormat.HeaderBlockAgreesWithoutThreadFields | packages/backend/src/services/ingestion-connectors/PSTConnector.ts:310-339 | without In-Reply-To and Conversation-Id the header lines are as intended |
| PstFormat.ThreadFieldsAbsent | packages/backend/src/services/ingestion-connectors/PSTConnector.ts:333-338 | absent thread fields write nothing |
| PstFormat.PrefixAsLines | packages/backend/src/services/ingestion-connectors/PSTConnector.ts:312-332 | the first seven fields each end in a line break |
| PstFormat.LinesAppend | packages/backend/src/services/ingestion-connectors/PSTConnector.ts:310-339 | lines written one after the other join |
| PstFormat.LinesThenMimeVersion | packages/backend/src/services/ingestion-connectors/PSTConnector.ts:339 | `MIME-Version: 1.0` is written as a line of its own after the others |
| PstFormat.NoEarlyFields | packages/backend/src/services/ingestion-connectors/PSTConnector.ts:312-332 | absent fields write nothing |
| PstFormat.OnlyInReplyTo | packages/backend/src/services/ingestion-connectors/PSTConnector.ts:333-335 | a message with only In-Reply-To writes that field without a line break |
| PstFormat.OnlySubject | packages/backend/src/services/ingestion-connectors/PSTConnector.ts:324-339 | a message with only a subject writes the subject line and the MIME version |
| PstFormat.InReplyToRunsIntoMimeVersion | packages/backend/src/services/ingestion-connectors/PSTConnector.ts:333-339 | In-Reply-To `<a@b>` alone gives the single line `In-Reply-To: <a@b>MIME-Version: 1.0`, where two lines were meant |
| PstFormat.HeaderBlockIntendedLines | packages/backend/src/services/ingestion-connectors/PSTConnector.ts:310-339 | the corrected header block splits into exactly the present fields and `MIME-Version: 1.0` |
| PstFormat.SplitLines | packages/backend/src/services/ingestion-connectors/PSTConnector.ts:310-339 | lines without line breaks split back into themselves |
| PstFormat.ContentTypeInSubjectDropsHeaders | packages/backend/src/services/ingestion-connectors/PSTConnector.ts:324-352 | a subject containing `content-type:` in any case makes the message lose every header line, the subject and MIME version included |
| PstFormat.EmlIntendedKeepsHeaders | packages/backend/src/services/ingestion-connectors/PSTConnector.ts:305-352 | the corrected message always starts with every present field on its own line, `MIME-Version: 1.0` and the multipart declaration, whatever the fields say |
| SyncCycleFinishedProcessor.Member | packages/backend/src/jobs/processors/sync-cycle-finished.processor.ts:38-52 | a property of a non-object is `undefined` |
| SyncCycleFinishedProcessor.Prop | packages/backend/src/jobs/processors/sync-cycle-finished.processor.ts:52 | reading a property fails exactly on `null` and `undefined` |
| SyncCycleFinishedProcessor.FailedOf | packages/backend/src/jobs/processors/sync-cycle-finished.processor.ts:38 | exactly the children with a truthy `error`, in order |
| SyncCycleFinishedProcessor.SucceededOf | packages/backend/src/jobs/processors/sync-cycle-finished.processor.ts:40 | exactly the other children, `null` and `undefined` included |
| SyncCycleFinishedProcessor.Partition | packages/backend/src/jobs/processors/sync-cycle-finished.processor.ts:38-40 | every child lands in exactly one of the two lists |
| SyncCycleFinishedProcessor.PartitionMultiset | packages/backend/src/jobs/processors/sync-cycle-finished.processor.ts:38-40 | the two lists together are a permutation of the children |
| SyncCycleFinishedProcessor.NonEmptyOf | packages/backend/src/jobs/processors/sync-cycle-finished.processor.ts:42 | exactly the sync states with at least one key |
| SyncCycleFinishedProcessor.FragmentsMembers | packages/backend/src/jobs/processors/sync-cycle-finished.processor.ts:40-42 | the merged fragments are exactly the non-empty states of children that did not fail |
| SyncCycleFinishedProcessor.RateLimitMessageSpec | packages/backend/src/jobs/processors/sync-cycle-finished.processor.ts:52 | `find` throws exactly when a nullish child comes before any child with a status message; otherwise the first status message, or `undefined` when there is none |
| SyncCycleFinishedProcessor.FailureTexts | packages/backend/src/jobs/processors/sync-cycle-finished.processor.ts:56 | one text per failed child, its message rendered as `join` renders it |
| SyncCycleFinishedProcessor.Finalize | packages/backend/src/jobs/processors/sync-cycle-finished.processor.ts:35-69 | the status and message computation fails exactly when reading the rate-limit message throws |
| SyncCycleFinishedProcessor.FinalizeStatus | packages/backend/src/jobs/processors/sync-cycle-finished.processor.ts:45-57 | `error` exactly when some child failed, else `imported` for a PST import and `active` for the others |
| SyncCycleFinishedProcessor.FinalizeMessage | packages/backend/src/jobs/processors/sync-cycle-finished.processor.ts:54-69 | the failure count and every failure message, else the rate-limit message, else the initial-import or continuous-sync message |
| SyncCycleFinishedProcessor.JoinContains | packages/backend/src/jobs/processors/sync-cycle-finished.processor.ts:56 | every part appears in the joined text |
| SyncCycleFinishedProcessor.Completion | packages/backend/src/jobs/processors/sync-cycle-finished.processor.ts:71-86 | the finishing time is always set; a failed computation gives the unexpected-error update, otherwise status, message and merged sync state |
| SyncCycleFinishedProcessor.Process | packages/backend/src/jobs/processors/sync-cycle-finished.processor.ts:30-88 | a missing source fails the job and changes nothing; otherwise exactly the source's row gets the completion update |
| SyncCycleFinishedProcessor.NullChildAborts | packages/backend/src/jobs/processors/sync-cycle-finished.processor.ts:40-52 | a child that returned nothing counts as successful and makes the rate-limit lookup throw |
| SyncCycleFinishedProcessor.IntendedRateLimitAgrees | packages/backend/src/jobs/processors/sync-cycle-finished.processor.ts:52 | the corrected lookup, which skips nullish children, agrees with the original wherever that does not throw |
| SyncCycleFinishedProcessor.IntendedFinalizeSpec | packages/backend/src/jobs/processors/sync-cycle-finished.processor.ts:45-69 | the corrected computation never fails, is `error` exactly when some child failed, agrees with the original where that succeeds, and finishes a cycle of empty children normally |
| ProcessMailboxProcessor.FlattenAppend | packages/backend/src/jobs/processors/process-mailbox.processor.ts:56-59 | one more batch adds its emails at the end |
| ProcessMailboxProcessor.Threshold | packages/backend/src/jobs/processors/process-mailbox.processor.ts:28-57 | the batch size, at least one email per batch |
| ProcessMailboxProcessor.ChunksSpec | packages/backend/src/jobs/processors/process-mailbox.processor.ts:55-68 | the batches hold exactly the emails pushed, in order, none empty or over the batch size |
| ProcessMailboxProcessor.ChunksOfFull | packages/backend/src/jobs/processors/process-mailbox.processor.ts:57-68 | full batches and a short remainder are the batching of what they hold |
| ProcessMailboxProcessor.Items | packages/backend/src/jobs/processors/process-mailbox.processor.ts:55-56 | a processed email adds one entry, none otherwise |
| ProcessMailboxProcessor.Collect | packages/backend/src/jobs/processors/process-mailbox.processor.ts:55-61 | pushing keeps the batching invariant: full batches sent, a short batch pending |
| ProcessMailboxProcessor.Flush | packages/backend/src/jobs/processors/process-mailbox.processor.ts:65-68 | after the final flush the batches sent are the batching of everything pushed |
| ProcessMailboxProcessor.Descriptor | packages/backend/src/jobs/processors/process-mailbox.processor.ts:79-84 | the error descriptor `Failed to process mailbox for <user>: <message>`, always flagged as an error |
| ProcessMailboxProcessor.BarrierReadsResults | packages/backend/src/jobs/processors/process-mailbox.processor.ts:70-84 | the barrier reads a descriptor as a failure with its message, and a file import's empty state as a success with nothing to merge |
| ProcessMailboxProcessor.ArchivedPersists | packages/backend/src/jobs/processors/process-mailbox.processor.ts:47-63 | emails archived earlier stay archived as rows are added |
| ProcessMailboxProcessor.AfterEntry | packages/backend/src/jobs/processors/process-mailbox.processor.ts:48-62 | one entry through `processEmail`: a null entry changes nothing, old rows are kept, and a new row exists only for an email with a sender, with the source's id and the email's message id |
| ProcessMailboxProcessor.AfterStreamAddsStreamedRows | packages/backend/src/jobs/processors/process-mailbox.processor.ts:47-63 | over fresh ids the stream keeps every old row and adds only rows of streamed emails with a sender, each with the source's id and its message id |
| ProcessMailboxProcessor.ArchiveEntry | packages/backend/src/jobs/processors/process-mailbox.processor.ts:48-62 | one stream entry changes the store exactly as `processEmail` does (`AfterEntry`), and a fetched email with a sender ends up archived for the source; nothing is returned to batch |
| ProcessMailboxProcessor.ArchiveStep | packages/backend/src/jobs/processors/process-mailbox.processor.ts:48-62 | one turn of the stream loop extends the fold by one entry and keeps every earlier email with a sender archived |
| ProcessMailboxProcessor.ArchiveStream | packages/backend/src/jobs/processors/process-mailbox.processor.ts:47-63 | the stream loop leaves the store as `AfterStream` says, archives every email with a sender, and pushes nothing to batch |
| ProcessMailboxProcessor.Process | packages/backend/src/jobs/processors/process-mailbox.processor.ts:26-86 | a missing source gives the error descriptor and changes nothing; otherwise the store becomes `processEmail` folded over the stream (`AfterStream`), every fetched email with a sender is archived, nothing is batched for indexing, and the result is the connector's sync state or the descriptor of the error thrown |
| ContinuousSyncProcessor.Fanout | packages/backend/src/jobs/processors/continuous-sync.processor.ts:53-67 | no flow without mailbox jobs; otherwise the jobs and then the barrier waiting for them |
| ContinuousSyncProcessor.CollectJobs | packages/backend/src/jobs/processors/continuous-sync.processor.ts:29-50 | the loop collects the `process-mailbox` jobs exactly as the bulk import does |
| ContinuousSyncProcessor.BarrierIffSomeAddress | packages/backend/src/jobs/processors/continuous-sync.processor.ts:31-53 | a barrier is queued exactly when some listed mailbox has an address |
| ContinuousSyncProcessor.Process | packages/backend/src/jobs/processors/continuous-sync.processor.ts:8-85 | a missing source fails; a source not `active` or `error` is left alone; otherwise it is marked `syncing` and its flow is queued, or, when listing fails, marked `error` with the message and the job fails |
| ScheduleContinuousSyncProcessor.Selected | packages/backend/src/jobs/processors/schedule-continuous-sync.processor.ts:10-13 | exactly the sources with status `active` or `error` |
| ScheduleContinuousSyncProcessor.SyncJobs | packages/backend/src/jobs/processors/schedule-continuous-sync.processor.ts:15-18 | one `continuous-sync` job per id, in order |
| ScheduleContinuousSyncProcessor.Enumerate | packages/backend/src/jobs/processors/schedule-continuous-sync.processor.ts:10-13 | the query lists every selected id exactly once |
| ScheduleContinuousSyncProcessor.EnumeratesStep | packages/backend/src/jobs/processors/schedule-continuous-sync.processor.ts:10-13 | listing one more id keeps the enumeration invariant |
| ScheduleContinuousSyncProcessor.QueuedSyncJobsStep | packages/backend/src/jobs/processors/schedule-continuous-sync.processor.ts:15-18 | one more id adds its waiting job at the end |
| ScheduleContinuousSyncProcessor.EnqueueSyncJobs | packages/backend/src/jobs/processors/schedule-continuous-sync.processor.ts:15-18 | the loop appends the jobs and changes nothing else |
| ScheduleContinuousSyncProcessor.Schedule | packages/backend/src/jobs/processors/schedule-continuous-sync.processor.ts:7-19 | every `active` or `error` source gets exactly one `continuous-sync` job and nothing else changes |
| ScheduleContinuousSyncProcessor.JobsExactlyForSyncable | packages/backend/src/jobs/processors/schedule-continuous-sync.processor.ts:10-18 | a source gets a job exactly when its status is `active` or `error` |
| Base64.Encode | packages/backend/src/services/ingestion-connectors/PSTConnector.ts:384 | four alphabet or padding characters for every started group of three octets |
| Base64.DecodeEncode | packages/backend/src/services/ingestion-connectors/PSTConnector.ts:384 | the base64 text of any octets decodes back to them |
| Base64.EncodeInjective | packages/backend/src/services/ingestion-connectors/PSTConnector.ts:384 | different octets never share a base64 text |
| Utf8.Encode | packages/backend/src/services/ingestion-connectors/PSTConnector.ts:246 | at least one octet per character, exactly one for ASCII text |
| Utf8.EncodeAppend | packages/backend/src/services/ingestion-connectors/MboxConnector.ts:80 | encoding distributes over concatenation |
| JsStrings.Split | packages/backend/src/services/ingestion-connectors/MboxConnector.ts:65 | `split` never returns an empty list |
| JsStrings.JoinSplit | packages/backend/src/services/ingestion-connectors/MboxConnector.ts:65 | joining the pieces of a split with the separator gives the text back |
| JsStrings.SplitPiecesAvoidSeparator | packages/backend/src/services/ingestion-connectors/helpers/utils.ts:22 | no piece of a split contains the separator |
| JsStrings.TrimSpec | packages/backend/src/services/ingestion-connectors/helpers/utils.ts:22 | `trim` removes exactly the whitespace at both ends |
| JsStrings.LowerCharIdempotent | packages/backend/src/services/ingestion-connectors/PSTConnector.ts:212 | lower-casing a character a second time changes nothing: every mapped capital lands on a character the mapping keeps |
| JsStrings.ToLowerAppend | packages/backend/src/services/ingestion-connectors/PSTConnector.ts:212 | lower-casing a concatenation lower-cases each part |
| JsStrings.ToLowerProperties | packages/backend/src/services/ingestion-connectors/PSTConnector.ts:212 | lower-casing leaves no ASCII capital, adds no space and is idempotent |
| JsStrings.ToLowerPerChar | packages/backend/src/services/ingestion-connectors/EMLConnector.ts:59 | a string without `İ` keeps its length and is lower-cased character by character |
| JsStrings.DottedCapitalIGrows | packages/backend/src/services/ingestion-connectors/EMLConnector.ts:59 | `İpek` lower-cases to `i`, U+0307 and `pek`: one character more |
| JsStrings.ParseNatToString | packages/backend/src/services/ingestion-connectors/PSTConnector.ts:163 | the decimal text of a number reads back as that number |

## Left out

- The database, object storage, search index and job queue are in-memory state (`ArchiveStore.Archive`, `Storage.Store`). Transactions, concurrency between workers and the accepted race on the (message id, source) duplicate check are not modelled. The `Archive` and `Store` methods stand for single database or storage calls, so they have no rows above.
- Network connectors (Google Workspace, Microsoft 365, IMAP) are not part of this model. `EmailProviderFactory` dispatches to them, and their listings and message streams reach the processors as input sequences.
- `IngestionService.PerformBulkImport`: only the `listAllUsers` branch is modelled. The branch for connectors that return a single IMAP user (`IngestionService.ts:273-282`) depends on a method the modelled connectors do not have.
- CASL's `rulesFor` and `rulesToQuery` are library calls. Their results are inputs to `FilterBuilder.Create` (the rules and the query object).
- SHA-256, `mailparser`, `pst-extractor`, `yauzl` and the credential cipher are oracles: function parameters or plain input records. The cipher is modelled as sealing the credentials, and a row whose credentials do not decrypt gives the decryption error.
- The random uuid of a new source is the parameter `newId` of `IngestionService.Create`. The uuid the database generates for a new email row is the parameter `newId` of `IngestionService.ProcessEmail`, and one such id per stream entry is the parameter `ids` of `ProcessMailboxProcessor.Process`. The clock is the parameter `now`. `Date` values are integers.
- `deepmerge` is a function parameter of the barrier. The model states which fragments are handed to it, not how they are merged.
- Numbers are unbounded integers. Floating point, `Math.round` in the cache statistics and the hit-rate percentage are not modelled.
- JavaScript objects keep keys in insertion order. The rule that puts integer-like keys first is not modelled.
- Job options (`removeOnComplete`, `removeOnFail`, timeouts) and logging are not modelled.
- Any thrown value that is not an `Error` is modelled with its fallback message. Rethrown errors become an `Err`/`Fail` result carrying the error's own message. Where that error comes from a library or from storage, its message is a parameter (`readError`, `writeError`, `parseError`, or the `Err` of `PstConnector`'s `root`).
- `OcrService.ExtractTextWithTika` makes both cache lookups, the one before and the one after waiting, and a miss counts twice. What is not modelled is the `TikaSemaphore` itself and a parallel request for the same hash filling the cache between the two lookups, since both need requests that run concurrently. `checkTikaAvailability`, `initializeTextExtractor` and the statistics getters only log or read the environment, so they are not modelled either.
- `ArchivedEmailService.GetArchivedEmails`: the page order is newest first. Ties between equal dates are ordered by the database and are left open.
- `ArchivedEmailService.GetArchivedEmailById`: the thread query's answer is a parameter, constrained to hold each email of the thread once, oldest first. The order among emails sent at the same time is the database's and is left open.
- `ScheduleContinuousSyncProcessor.Enumerate`: the order in which the database returns the selected rows is left open. Each row comes exactly once.
- `EmlConnector.Extract`: the listing is in first-write order. The operating system's directory order and `path.join` normalisation of `./` and leading `/` are not modelled. A write that fails for another reason than a missing directory (disk full, permissions) is not modelled.
- `EmlConnector.FetchEmails`: when yauzl reports an error through a callback (`EMLConnector.ts:131-133`, `:148-150`), the callback calls `reject` and then uses the missing `zipfile` or read stream, and the `TypeError` ends the process (`UncaughtTypeError`). Which parts of that callback's last step still happen, such as the empty file `createWriteStream` may create for an unreadable entry, and what a process-level `uncaughtException` handler elsewhere would do, are not modelled.
- `PstFormat.ReadChildren`: a folder's messages are those `getNextChild` hands out before it returns null or throws inside the loop's `try`. A throw from the first `getNextChild` of a folder (`PSTConnector.ts:221`), outside that `try`, would end the whole fetch with an error; it is not modelled.
- `JsStrings.ToLower` applies the simple lower-case mappings of Basic Latin, Latin-1, Latin Extended-A, the regular runs of Latin Extended-B, Greek and Coptic, Cyrillic and its supplements, Armenian, Georgian, Cherokee, Latin Extended Additional, letterlike symbols, Roman numerals, circled letters, Glagolitic, Coptic, Cyrillic Extended-B and fullwidth Latin, and the two-character mapping of `İ`. It does not apply the context-dependent final sigma (`Σ` becomes `ς` at the end of a word), the Greek Extended capitals (U+1F08 onwards), the irregular capitals of Latin Extended-B (U+0181-U+01BC, U+0220, U+023A-U+0245), Latin Extended-C and -D, or capitals outside the Basic Multilingual Plane; these are kept as they are. Lengths are counted in characters, not UTF-16 code units.
- `PstConnector.MessageId`: only the prefix of a generated id (`generated-<hash>-<hash>-`) is stated. The submit-time suffix is formatted by `Date` and is not modelled.
- `MongoToDrizzle.DrizzleColumn`: the text of an inherited function is the one Node.js prints for a native function. What the database makes of the resulting `"function Object() { [native code] }"."id"` reference is not modelled.
- `QuerySemantics.CompilersAgree` holds for rows without NULL columns only. On a nullable column (thread id, message id, subject, sender name, recipients, path, tags) a `$ne` condition, which deny inversion produces, matches in the search filter but is UNKNOWN in SQL, so the listing drops rows that search keeps; `QuerySemantics.NeOnNullColumn` states this case.
- `QuerySemantics.MeliCompileCorrect` proves agreement over the filter tree, not over the text sent to the search engine. `quoteIfString` does not escape, so string values containing `"` or `\` can render as a different filter, and that case is not covered.
- `Ability.MirroredWhenUnclaimed` proves one direction. The exact condition is `Ability.Mirrors`, the function that `Ability.ExpandPolicies` is proved against, and `Ability.LaterArchivePolicyDoesNotBlock` shows the blocking direction by example.
- `IngestionService.ProcessEmail`: the only write failures modelled are refused inserts, which happen after the `.eml` is stored: an email without a sender (a NOT NULL column) and a source row that no longer exists (the foreign key). Failures of storage, search or other database calls are not modelled. The source only logs them.
- The HTTP controllers, routes, middleware, the user, API-key and auth services, and the text extractors are outside the modelled core.

## Findings

| source | as written | input that shows it | evidently intended | confidence | as-written member | corrected member |
|---|---|---|---|---|---|---|
| packages/backend/src/services/ingestion-connectors/MboxConnector.ts:64-79 | when the file starts with `From `, the first piece keeps its `From ` line and gets `From ` prepended again | a file `From a@b Mon\nSubject: x\n\nhi\n` is handed to the parser as `From From a@b Mon…` | `From ` is put back only on pieces after the split, so that the texts joined by line breaks give the file back | not executed | MboxConnector.LeadingFromDoubled | MboxConnector.IntendedTextsRejoin |
| packages/backend/src/services/IngestionService.ts:334-335 | the email path glues the folder path and the message id with no separator | folder `Inbox` with id `12` and folder `Inbox1` with id `2` both give `…/emails/Inbox12.eml`, and the second write overwrites the first | one path per (folder, id), with a `/` between them | not executed | IngestionService.EmailPathsCollide | IngestionService.IntendedEmailPathInjective |
| packages/backend/src/services/IngestionService.ts:366-370 | the attachment object is stored under the attachment's file name, while the row is keyed by content hash | two attachments named `report.pdf` with different contents: the first hash's row points at an object that now holds the second content | the object path determined by the content hash | not executed | IngestionService.SameFileNameOverwrites | IngestionService.IntendedAttachmentPathsDistinct |
| packages/backend/src/jobs/processors/sync-cycle-finished.processor.ts:40-52 | `successfulJobs` keeps `null` and `undefined` children, and `find(j => j.statusMessage)` then reads a property of them and throws | a cycle whose only child value is `null` ends in the unexpected-error branch | nullish children are skipped by the rate-limit lookup, and the cycle finishes as successful | not executed; needs a child that returns nothing | SyncCycleFinishedProcessor.NullChildAborts | SyncCycleFinishedProcessor.IntendedFinalizeSpec |
| packages/backend/src/services/ingestion-connectors/PSTConnector.ts:333-339 | In-Reply-To and Conversation-Id are written without a line break | a message with only In-Reply-To `<a@b>` gives the single line `In-Reply-To: <a@b>MIME-Version: 1.0` | every header field on its own line | not executed | PstFormat.InReplyToRunsIntoMimeVersion | PstFormat.HeaderBlockIntendedLines |
| packages/backend/src/services/ingestion-connectors/PSTConnector.ts:342-352 | the header block is emitted only inside `if (!/Content-Type:/i.test(headers))`, so a field value mentioning `Content-Type:` drops every header | a message whose only header field is the subject `Re: content-type: question` is serialised as its body parts alone, with no Subject and no MIME-Version line | the headers are always emitted, and only the added multipart declaration depends on the test | not executed | PstFormat.ContentTypeInSubjectDropsHeaders | PstFormat.EmlIntendedKeepsHeaders |
| packages/backend/src/services/FilterBuilder.ts:39-46 | a deny condition is inverted field by field into `{k: {$ne: v}}` objects that are ANDed, which negates each field instead of the whole condition | with the deny `{a: 1, b: 2}`, a row with `a = 1, b = 3` (not denied) is still excluded | the inversion excludes exactly the rows that match some deny condition (`{$not: c}` per condition) | not executed | QuerySemantics.DenyInversionOverExcludes | QuerySemantics.IntendedDenyQueryMatches |
