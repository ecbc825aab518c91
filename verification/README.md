# Face-Cam: a model of its hard parts

Face-Cam is a multi-tenant attendance platform: organizations (tenants) keep
members, enrol their faces, and run everything on one shared database. This
Dafny project models the parts where a mistake leaks data, loses data or leaves
biometric data behind, and proves what they promise.

`dafny verify dfyconfig.toml` checks all of it.

| module | what it models |
|---|---|
| `Common`, `Text` | result types; `trim`, `join`, decimal notation |
| `Csv` | `csvCell` and `parseCsv`: the printer, the parser loop, the automaton it refines |
| `MemberImport`, `ImportTheorems`, `ImportFields` | the bulk import on the `members` table, and what it promises for the table as a whole and field by field |
| `MemberExport`, `ExportImport` | the export file, the rows the import screen makes of it, and what comes back |
| `TenantScope` | query rewriting, row-level security policies, statements on a table of rows |
| `TenantIsolation` | many requests interleaving transactions on one pool of connections |
| `ScopedClient`, `HookMeaning` | the query hook on one mutable connection, and its place in the protocol; what each kind of call reads and stores through it, with both layers in place |
| `RequestContext` | `asPlatform`: the save, set and restore bracket around a mutable flag |
| `FaceData`, `FaceTheorems`, `FaceErasure`, `FaceOutcomes` | enrolment, erasure and consent over three stores, a failure possible at every call; what an erasure reaches and whom it spares; what each photo adds, what the answers mean, who gave a consent |
| `Auth`, `LoginRuns` | login lockout under a clock; refresh tokens and `logoutEverywhere`; both together over runs of logins |
| `SingleFlight`, `RefreshHistory` | concurrent API calls sharing one session refresh; what a call ends with, read off the responses |
| `Slug`, `SlugWords` | `slugify`, `validateSlug`, `tenantSlugFromHost`, `resolveSlug`; the first two by the words of a name and by plain conditions |
| `Tenants` | creating organizations on a table with a unique slug of at most 40 characters |
| `ObjectStorage` | storage keys and the paginated `deletePrefix` |
| `FieldDefinitions` | create, archive, restore, reorder and list a tenant's member fields |

How the modules are built: what the source updates in place is a class whose
methods are proved equal to a function of the old state (`MemberTable.Run` to
`AfterImport`, `FaceStores.EraseMemberFaces` to `AfterErase`, `AuthService.Login`
to `AfterLogin`, and so on); the theorems are then about those functions over
every input or every run. Loops of the source are loops here. Calls that leave
the process take their outcome as a parameter (`Fine`, `Refused`, or `LostReply`
for a call that took effect and still threw), so a theorem about "every run" is
also about every pattern of failures. Clocks, generated ids, page sizes, listing
order and the verdict of the validation schema are parameters too.

## Where the promise needs a condition

Six things the code or its comments suggest hold only under a condition. Each
exact condition is proved for all inputs, and each comes with an input that fails.

- An import file made from an export gives every member back exactly when no
  attribute key repeats one of the columns `code`, `fullName`, `email`, `phone`,
  `consentAt`, `faceEnrolledAt`, and none is one of the seven names that the
  field-key rule admits and every JavaScript object inherits: `constructor`,
  `toString`, `valueOf`, `hasOwnProperty`, `isPrototypeOf`, `propertyIsEnumerable`,
  `toLocaleString`. For a member that lacks such an attribute the export prints the
  inherited function, and the import takes its text for the value. Member by member:
  it comes back exactly when it has a value of its own, null included, under each
  such key. The key `status` is harmless: the attribute stands further right than
  the core column and wins. (`ExportImport.ComesBackIff`,
  `ExportImport.MemberComesBackIff`; failing members in `ExportImport.ClashLoses`
  and `ExportImport.InheritedClash`)
- The column mapping guessed for such a file is the identity exactly when no
  field's key or caption resembles a column further left than the first of its own
  name. (`ExportImport.GuessIsIdentityIff`; failing field in `ExportImport.GuessMisses`)
- An erasure sweeps one subject only, that of the member's first row that has one.
  What it reports as cleared leaves no face that names the member exactly when every
  such face was under that subject. It fails in two ways. A failed capture leaves a
  face without a row, and the early return at face-data.service.ts:53 reports
  `comprefaceCleared: true` all the same. And a code change between two enrolments
  leaves rows under two subjects, of which the second keeps its faces. Either way
  consent can be withdrawn while a face can still be matched. While the code stays,
  an erasure that finds a row and reports suffices, whatever failed before it, and in no
  case does it take what belongs to another member.
  (`FaceErasure.EraseSweeps`, `FaceErasure.EraseClearsMember`,
  `FaceErasure.ErasedAfterRun`, `FaceErasure.EraseSparesOthers`; failing runs in
  `FaceErasure.OrphanSurvivesWithdrawal` and `FaceErasure.CodeChangeLeavesFace`)
- The query extension does not look at the tenant column in the data of an
  update, updateMany or upsert. On its own it lets rows leave the tenant exactly when
  the filter finds some; row-level security refuses precisely those calls.
  (`TenantScope.UpdateEscapes`; failing update in `TenantScope.MovesAway`)
- A filter that rules the request's tenant out, by another tenant's name, a list or
  a negation, finds nothing under row-level security,
  while the extension overwrites the name and finds the request's own rows. The two
  then agree exactly when the call makes nothing of those rows: a read whose answer
  is that of no rows, an update or delete with none to find, an upsert with none to
  find and a create that names the request's tenant itself.
  (`TenantScope.NamedTenantParts`; failing deletion in `TenantScope.DeletesOwn`)
- Two organizations of the same name are meant to be able to register without
  anybody resolving the clash (tenants.service.ts:224-227). `resolveSlug` appends its
  suffix without looking at the length, and the column takes 40 characters: the
  database refuses a creation exactly when the base has 38 characters and its first
  nine candidates are taken, or has more and is taken itself. Slugs run out exactly
  for a base of at most 37 characters with all fifty candidates taken. What is stored
  is always valid, and its portal reachable under its host name.
  (`Tenants.TooLongIff`, `Tenants.UnavailableIff`, `Tenants.PortalsReachable`; failing
  name in `Tenants.SecondNameRefused`)

A row that lacks a mapped column called like an inherited property makes `mapRow`
throw. The run then ends before any write, and a dry run ends the same way
(`ImportTheorems.AllOrNothing`, `ImportTheorems.DryRunPredicts`; such a file in
`ImportTheorems.InheritedColumnThrows`).

Two comments in the source are off and the model follows the code: `memberPrefix`
is described as one member's prefix but covers the whole tenant
(storage.interface.ts:74), and restoring a field is described as bringing the
column back, but archiving also drops `required`, which restoring does not set
again (`FieldDefinitions.RestoreUndoesArchive`). An operation that has no delegate
counterpart runs without the tenant variable; row-level security then shows it
nothing at all, so the first layer's scoping (tenant-scope.ts:135) does not help it
(`TenantScope.UnsetFailsClosed`).

## Model

| member | source | states |
|---|---|---|
| `TenantIsolation.NonInterference` | apps/api/src/prisma/tenant-scope.ts:139-149 | For every interleaving of begin, set_config, statement, commit and rollback by any number of tenants on shared connections: one tenant gets exactly the answers, and ends with exactly the rows, of the run with everybody else's steps removed, even against a database whose other rows differ. New row ids are assumed fresh |
| `TenantIsolation.AgreementIsKept` | apps/api/src/prisma/tenant-scope.ts:139-149 | Two databases that agree on a tenant's rows, behind pools of any size, under two arbitrary schedules with the same steps of that tenant, each transaction on whatever connection was idle, give it identical answers and agree on its rows again at the end |
| `TenantIsolation.PairedRun` | apps/api/src/prisma/prisma.service.ts:78-85 | Which pooled connection a transaction runs on does not matter: the same steps on renamed connections have the same answers and leave the same rows |
| `TenantIsolation.StatementTenant` | apps/api/src/prisma/prisma.service.ts:78-85 | In every reachable state, a statement runs with the tenant variable equal to its own request's tenant |
| `TenantIsolation.UnconfiguredIsUnset` | apps/api/src/prisma/tenant-scope.ts:139-143 | Before the variable is set and again after commit or rollback, no tenant is set on the connection |
| `TenantIsolation.StepInv` | apps/api/src/prisma/tenant-scope.ts:139-149 | Every step keeps the protocol invariant: clean sessions, only own rows pending, transactions of different tenants writing disjoint rows |
| `TenantIsolation.RunInv` | apps/api/src/prisma/tenant-scope.ts:139-149 | That invariant holds over whole runs |
| `TenantIsolation.RunTouchesOwn` | apps/api/prisma/migrations/20260818060000_row_level_security/migration.sql:81-98 | Over a whole run, a tenant that takes no step keeps its rows, and no tenant's step changes a row without a tenant |
| `TenantScope.LayersAgree` | apps/api/src/prisma/tenant-scope.ts:107-113 | Rewritten without row security, and untouched under row security: same answer, same changes, for every find, count, update and delete whose filter does not rule the tenant out |
| `TenantScope.NamedTenantParts` | apps/api/src/prisma/tenant-scope.ts:112 | When the filter of a find, count, update, delete or upsert rules the tenant out, by one value, a list or a negation, rewriting alone and policies alone agree exactly when the call makes nothing of the tenant's own rows, said for each kind of call |
| `TenantScope.DeletesOwn` | apps/api/src/prisma/tenant-scope.ts:112 | A deleteMany that names another tenant deletes the request's own row by the extension alone, and nothing by row security alone |
| `TenantScope.UpdateEscapes` | apps/api/src/prisma/tenant-scope.ts:107-118 | The tenant column in the data of an update, updateMany or upsert is not rewritten: rows escape exactly when some row is found, and exactly then the two layers together refuse the call whole; policies alone refuse the same updates |
| `TenantScope.MovesAway` | apps/api/src/prisma/tenant-scope.ts:107-113 | An update that moves a tenant's only row to another tenant: gone by the extension alone, refused with row security |
| `TenantScope.BothLayersContain` | apps/api/src/prisma/tenant-scope.ts:107-127 | With both layers, no well-formed call of any kind leaves a row under another tenant or touches a foreign row; a refused call writes nothing; stamped creates are never refused |
| `TenantScope.ExecWritesOwn` | apps/api/prisma/migrations/20260818060000_row_level_security/migration.sql:81-98 | USING and WITH CHECK alone confine any statement at all to the tenant's rows |
| `TenantScope.ExecSeesOwn` | apps/api/prisma/migrations/20260818060000_row_level_security/migration.sql:81-98 | Answer and effect of a statement depend on nothing but the tenant's own rows |
| `TenantScope.UnsetFailsClosed` | apps/api/prisma/migrations/20260818060000_row_level_security/migration.sql:66-72 | With the variable unset or empty, nothing is found and nothing can be written |
| `ScopedClient.PooledConnection.AllOperations` | apps/api/src/prisma/tenant-scope.ts:89-150 | The hook as written: unscoped models pass, platform scope and a missing tenant are refused untouched, everything else runs rewritten with the variable set, and the connection goes back with no tenant set |
| `ScopedClient.RewriteArgs` | apps/api/src/prisma/tenant-scope.ts:105-127 | The in-place assignments to `where`, `create` and `data` compute the rewriting the isolation theorems are about |
| `ScopedClient.HookIsATransaction` | apps/api/src/prisma/tenant-scope.ts:144-149 | One call of the hook is one transaction of the protocol, with the same answer and the same database |
| `ScopedClient.SessionLevelLeaks` | apps/api/src/prisma/tenant-scope.ts:139-143 | Why the value is transaction-local: a session-level one lets the next user of the connection read this tenant's rows |
| `HookMeaning.HookReads` | apps/api/src/prisma/tenant-scope.ts:107-113 | Through the hook, each of the eight reading operations answers from exactly the rows of the model that are the tenant's own and pass the rest of the caller's filter, whatever tenant that filter names, and writes nothing |
| `HookMeaning.HookUpdates` | apps/api/src/prisma/tenant-scope.ts:107-113 | An update or updateMany with no other tenant in its data changes exactly those rows, each to its own data changed as asked, and nothing else; `update` throws exactly when there are none |
| `HookMeaning.HookDeletes` | apps/api/src/prisma/tenant-scope.ts:107-113 | A delete or deleteMany removes exactly those rows; `delete` throws exactly when there are none |
| `HookMeaning.HookCreates` | apps/api/src/prisma/tenant-scope.ts:115-127 | A create or createMany with distinct new ids writes exactly those ids, row by row the model, the tenant and the data that was asked for, whatever tenant the caller named; never refused |
| `HookMeaning.HookUpserts` | apps/api/src/prisma/tenant-scope.ts:115-127 | An upsert that meets none of the tenant's rows stores the row asked for, whole, under the tenant; otherwise it changes the rows met and nothing else |
| `HookMeaning.ScopedIsPoliced` | apps/api/prisma/migrations/20260818060000_row_level_security/migration.sql:74-98 | The models the hook rewrites are exactly those of the seven tables that the migrations put under a policy: on any other model a call runs as written, on these never without a tenant |
| `HookMeaning.TransactionIsAtomic` | apps/api/src/prisma/prisma.service.ts:78-85 | `withTenantTx` with any number of statements: each sees what the ones before it wrote, nobody else sees any of it; a commit is possible exactly when no statement was refused and stores all of it, a rollback stores none, and either gives the connection back with no tenant left on it |
| `RequestContext.RequestStore.Run` | apps/api/src/common/context/request-context.ts:85-98 | Saving, setting and restoring the flag amounts to lexical nesting, and leaves the flag as it was, also when the callback throws |
| `RequestContext.LexicalIsNested` | apps/api/src/common/context/request-context.ts:85-98 | Which queries are reached depends on the throws alone, and each runs with the scope on exactly when it stands in at least one `asPlatform`, at any depth |
| `RequestContext.ClientSeesNesting` | apps/api/src/prisma/tenant-scope.ts:92-103 | The scoped client refuses a query for the platform scope exactly when it is on a tenant-owned model and written under `asPlatform`, however deep; for a missing tenant exactly when it is owned, not under `asPlatform`, and the request has none |
| `Csv.ParseCsv` | apps/web/src/app/t/[slug]/members/import/import-wizard.tsx:232-276 | The index loop terminates, refines the recursive automaton, and returns trimmed cells in non-blank rows |
| `Csv.RoundTrip` | apps/web/src/app/t/[slug]/members/import/import-wizard.tsx:238-275 | For every table, printing and parsing gives the table with cells trimmed and blank rows dropped, under LF, CR or CRLF, with or without byte-order mark and last terminator |
| `Csv.ParseIsNormal` | apps/web/src/app/t/[slug]/members/import/import-wizard.tsx:240-275 | Any text at all, malformed quoting included, parses to trimmed cells and non-blank rows |
| `Csv.ParsePrintParse` | apps/web/src/app/t/[slug]/members/import/import-wizard.tsx:232-276 | A parsed table survives any further print and parse unchanged |
| `Csv.ScanCell` | apps/api/src/members/members.controller.ts:227-231 | The parser reads a printed cell back exactly, quotes, commas and line ends inside included |
| `Csv.QuotedPiece` | apps/web/src/app/t/[slug]/members/import/import-wizard.tsx:243-257 | A quoted piece may start in the middle of a cell and adds its text to what is there |
| `Csv.UnclosedQuote` | apps/web/src/app/t/[slug]/members/import/import-wizard.tsx:243-273 | A quote that is never closed swallows the rest of the file into one last cell, wherever it opens: behind any rows, any cells, any plain start of its cell |
| `Csv.LeadingBom` | apps/web/src/app/t/[slug]/members/import/import-wizard.tsx:238 | The stripped mark of a file without one of its own can only be the first character of its first cell |
| `Csv.PlainFile` | apps/web/src/app/t/[slug]/members/import/import-wizard.tsx:258-275 | A file without quotes parses to the cells between its commas, line by line, trimmed, without blank rows, under LF or CRLF |
| `MemberExport.ToCsvPrints` | apps/api/src/members/members.controller.ts:233-263 | The export is the printed table of header and members, although the header is not quoted; a missing attribute with an inherited name prints the inherited function |
| `MemberExport.ActiveKeysAre` | apps/api/src/members/members.controller.ts:234 | The attribute columns of an export are the keys of the fields that are not archived |
| `MemberExport.ExportReadsBack` | apps/web/src/app/t/[slug]/members/import/import-wizard.tsx:44-56 | Opening an export gives one row object a member, every exported cell under its header name |
| `MemberExport.RowObjectAt` | apps/web/src/app/t/[slug]/members/import/import-wizard.tsx:55 | Of equal header names the last one wins; a missing cell reads as empty |
| `MemberExport.EmptyExportRefused` | apps/web/src/app/t/[slug]/members/import/import-wizard.tsx:44-56 | An export without members has no data rows and is refused by the import screen |
| `ExportImport.ExportThenImport` | apps/api/src/members/member-import.service.ts:180-200 | Export, parse, row objects and `mapRow` under the identity mapping, for any number of members: `mapRow` never throws, and each member's code, name, email, phone and attributes come back, absent values as empty text, exactly when the member lacks no attribute with an inherited name |
| `ExportImport.ComesBackIff` | apps/api/src/members/members.controller.ts:235-244 | Every member comes back exactly when no attribute key repeats a column the pipeline reads or the export appends and none is an inherited name |
| `ExportImport.OtherColumns` | apps/api/src/members/members.controller.ts:239-258 | Consent date and enrolment date read back under their own names, and so does the status unless an attribute is called that |
| `ExportImport.ClashLoses` | apps/api/src/members/members.controller.ts:235-244 | For keys that repeat a column, a member that does not come back |
| `ExportImport.MemberComesBackIff` | apps/api/src/members/members.controller.ts:246-256 | For keys that repeat no column: a given member comes back exactly when it has a value of its own under every key with an inherited name |
| `ExportImport.InheritedClash` | apps/api/src/members/members.controller.ts:253 | For keys with an inherited name among them, a member without attributes that does not come back |
| `ExportImport.InheritedNames` | packages/shared/src/member.ts:10-17 | Of the names every object inherits, exactly seven are admitted by the field-key rule |
| `ExportImport.GuessMapping` | apps/web/src/app/t/[slug]/members/import/import-wizard.tsx:60-69 | The auto-mapping loop gives each target the first column that resembles its key or caption |
| `ExportImport.GuessIsIdentityIff` | apps/web/src/app/t/[slug]/members/import/import-wizard.tsx:60-69 | The guess is the identity exactly when no target resembles a column left of the first of its own name; header names may repeat |
| `ExportImport.GuessMisses` | apps/web/src/app/t/[slug]/members/import/import-wizard.tsx:61-67 | A field with the caption Email is guessed to read a core column instead of its own |
| `MemberImport.MapRow` | apps/api/src/members/member-import.service.ts:180-200 | Splits a row into core columns and attributes, independent of the order of the mapping; a core column called `attributes` is lost; throws exactly when a mapped column is missing from the row and names an inherited property |
| `ImportFields.MappedCells` | apps/api/src/members/member-import.service.ts:180-200 | Each target with a column receives that column's trimmed cell, or empty text where the row has none, as an attribute exactly when it is an attribute key and else as a core field; nothing else is in the payload |
| `ImportFields.VerdictsAre` | apps/api/src/members/member-import.service.ts:49-68 | The verdict on each row is what the schema says to the mapped cells of that row |
| `MemberImport.CheckRows` | apps/api/src/members/member-import.service.ts:49-96 | The validation loop prepares the rows that are valid and first with their code, and reports the others in file order; it throws exactly when some row cannot be mapped |
| `MemberImport.SeenIsFirst` | apps/api/src/members/member-import.service.ts:72-81 | A remembered code stands for the first row that carried it |
| `MemberImport.SplitRows` | apps/api/src/members/member-import.service.ts:98-121 | The second loop splits the prepared rows into create, update and conflict |
| `MemberImport.CreateMany` | apps/api/src/members/member-import.service.ts:143-145 | Inserts one row per entry under its new id, without consent |
| `MemberImport.UpdateEach` | apps/api/src/members/member-import.service.ts:147-159 | Patches the member each code stood for, four columns and no others |
| `MemberImport.MemberTable.Run` | apps/api/src/members/member-import.service.ts:39-177 | The whole run on the table: report and new contents, or an untouched table on a dry run, on any error, on a row that cannot be mapped, and on a failed transaction |
| `MemberImport.MemberTable.WritePlan` | apps/api/src/members/member-import.service.ts:142-160 | The transaction writes all creates and updates or leaves the table as it was |
| `ImportFields.RunStoresRows` | apps/api/src/members/member-import.service.ts:142-160 | After a run that writes, the member under the code of row i has that row's name, email, phone and attributes, column by column; an existing member keeps its id and consent, a new one has no consent |
| `ImportFields.RunSparesOthers` | apps/api/src/members/member-import.service.ts:142-160 | A member of another tenant, or whose code is not in the file, is exactly as it was |
| `ImportFields.RunAddsOnlyRows` | apps/api/src/members/member-import.service.ts:143-145 | Every new member is the tenant's and stands under the code of some row |
| `ImportFields.ReportCounts` | apps/api/src/members/member-import.service.ts:123-176 | A run that writes reports as created and updated the rows with that fate; one that does not reports zero for both |
| `ImportFields.ErrorsInOrder` | apps/api/src/members/member-import.service.ts:42-131 | The error list is in file order twice over: the problems of the file itself, then the codes already taken |
| `ImportTheorems.RunRefinesUpsert` | apps/api/src/members/member-import.service.ts:98-160 | A run that writes leaves the code-to-member map of upserting the rows one by one in file order, keeps (tenant, code) unique, leaves other tenants alone and changes nobody's consent |
| `ImportTheorems.SplitRefines` | apps/api/src/members/member-import.service.ts:105-121 | Creating first and updating afterwards is as good as file order |
| `ImportTheorems.UpsertCommutes` | apps/api/src/members/member-import.service.ts:142-160 | Upserts of different codes commute |
| `ImportTheorems.ReimportChangesNothing` | apps/api/src/members/member-import.service.ts:142-160 | Importing the same file again updates every row, creates none and changes no field |
| `ImportTheorems.Accounting` | apps/api/src/members/member-import.service.ts:123-131 | Every row has one of five fates; valid counts two of them, skipped the other three, they add up to all rows, and errors are empty exactly when nothing is skipped |
| `ImportTheorems.ErrorsNameRows` | apps/api/src/members/member-import.service.ts:56-120 | The errors are exactly those the rows call for: every issue of a rejected row, the first row of a repeated code, the code of a clash |
| `ImportTheorems.AllOrNothing` | apps/api/src/members/member-import.service.ts:49-163 | Either nothing is written, or created plus updated is every row of the file; a run throws before any write exactly when some row cannot be mapped |
| `ImportTheorems.InheritedColumnThrows` | apps/api/src/members/member-import.service.ts:188-190 | A file that makes the run throw: one row without the column `constructor`, mapped to the code |
| `ImportTheorems.DryRunPredicts` | apps/api/src/members/member-import.service.ts:49-135 | A dry run predicts the errors and counts of the real run on the same state, whether it writes, and whether it throws |
| `FaceData.SubjectsDiffer` | apps/api/src/face/enrolment.service.ts:196-198 | Different members have different subjects, whatever their codes, in spite of the cut at 200 characters |
| `FaceOutcomes.SubjectIs` | apps/api/src/face/enrolment.service.ts:188-200 | A subject is member id, bar and code, or the first 200 characters of that |
| `FaceData.FaceStores.EnrolCapture` | apps/api/src/face/enrolment.service.ts:111-161 | One photo, with a failure possible at each of its three writes |
| `FaceData.FaceStores.Enrol` | apps/api/src/face/enrolment.service.ts:62-186 | The whole enrolment: refusals in order, the loop over photos, the final update |
| `FaceOutcomes.RefusedPhoto` | apps/api/src/face/enrolment.service.ts:111-125 | A photo that is too large, looks like a screen or a print, or could not be scored leaves no trace in any store and is not counted |
| `FaceOutcomes.OnePhotoAdds` | apps/api/src/face/enrolment.service.ts:110-161 | Store by store what one photo leaves, for every pattern of failures: a face only when checks and engine went through, a stored photo only if kept, a row only after both; it counts exactly when every check and call succeeded |
| `FaceOutcomes.EnrolmentAdds` | apps/api/src/face/enrolment.service.ts:110-161 | Every face, photo and row an enrolment adds is that of a photo of the request that was small enough and taken for a live face; everything there before stays |
| `FaceOutcomes.EnrolledIff` | apps/api/src/face/enrolment.service.ts:62-186 | Success exactly for two to eight photos of a consenting member of a provisioned tenant of which one got through and whose member could be updated; the answer counts the photos that did and lists exactly the others, ascending |
| `FaceOutcomes.EnrolRefuses` | apps/api/src/face/enrolment.service.ts:62-101 | Which refusal is given when several apply; a refusal before the loop changes nothing |
| `FaceData.FaceStores.DeleteStoredImages` | apps/api/src/face/face-data.service.ts:74-86 | The loop over stored photos counts confirmed deletions and goes on after a failure |
| `FaceData.FaceStores.EraseMemberFaces` | apps/api/src/face/face-data.service.ts:45-101 | Erasure in order: collection, photos, rows, member, with a failure possible at each |
| `FaceOutcomes.ReportsIff` | apps/api/src/face/face-data.service.ts:45-106 | An erasure reports exactly when the member is there and, if it has rows, engine, rows and member could be updated; no failure of a photo holds it up |
| `FaceOutcomes.ReportIs` | apps/api/src/face/face-data.service.ts:45-106 | The report counts the rows found and the photo deletions that were confirmed, and calls the engine cleared unless there is no collection and some row names a face; the consent stays |
| `FaceData.FaceStores.WithdrawConsent` | apps/api/src/face/face-data.service.ts:110-126 | Consent columns are cleared only after an erasure that reported |
| `FaceOutcomes.WithdrawIs` | apps/api/src/face/face-data.service.ts:115-131 | A withdrawal reports exactly when the erasure did and the update went through, and has then cleared date and version of the consent, noted its time and removed the rows; a failed one leaves the consent as it was unless only the last answer was lost; other members are untouched |
| `FaceData.FaceStores.RecordConsent` | apps/api/src/face/face-data.service.ts:129-145 | Sets date and version of consent together |
| `FaceTheorems.ConsentHolds` | apps/api/src/face/enrolment.service.ts:79-90 | Over every run of create, update, import, enrol, erase, withdraw and record, with a failure possible at every call: a member with a template row has consented, and consent comes with its version |
| `FaceOutcomes.ConsentWasGiven` | apps/api/src/members/members.service.ts:95-133 | Over every run from empty stores, with any failures: a recorded consent, and behind every template row there is one, was granted with this time and version by a creation, an edit or a recording of that run; `granted: false` never grants |
| `FaceOutcomes.GrantsAreRecorded` | apps/api/src/members/members.service.ts:168-175 | A granting event that goes through does record the consent, with its version or else the current one |
| `FaceOutcomes.UpdateKeepsConsent` | apps/api/src/members/members.service.ts:128-130 | An ordinary edit neither takes a consent away nor replaces it |
| `FaceTheorems.StepKeepsLawful` | apps/api/src/members/members.service.ts:91-131 | Each of the seven operations keeps that |
| `FaceTheorems.EraseKeepsLawful` | apps/api/src/face/face-data.service.ts:45-101 | An erasure grants and withdraws nothing; once it reports, the member has no rows |
| `FaceTheorems.AgreementHolds` | apps/api/src/face/enrolment.service.ts:111-161 | Over every run in which no call fails and no enrolled member's code changes, from before a collection is provisioned on, rows, engine faces and stored photos stay in one-to-one correspondence; only erasing existing rows needs the collection's key |
| `FaceTheorems.PhotosFollowSetting` | apps/api/src/face/enrolment.service.ts:105-153 | Over every run, whatever fails: while the tenant keeps photos every new row has one, and while it keeps embeddings only none has |
| `FaceTheorems.StepAgrees` | apps/api/src/face/face-data.service.ts:45-145 | Each operation keeps that correspondence |
| `FaceTheorems.EnrolAllAgrees` | apps/api/src/face/enrolment.service.ts:111-161 | Enrolling any number of photos keeps it |
| `FaceTheorems.CleanEraseEmpties` | apps/api/src/face/face-data.service.ts:51-100 | While nothing fails, an erasure empties all three stores for the member and leaves every other member's rows, faces and photos |
| `FaceErasure.FailedEraseKeepsRows` | apps/api/src/face/face-data.service.ts:57-65 | When `deleteSubject` throws, from any state, the caller is told and rows, photos and members are as before; nothing at all changed exactly when the engine had really refused or had no face under the subject; faces of others stay |
| `FaceErasure.EraseSweeps` | apps/api/src/face/face-data.service.ts:51-69 | A reported erasure leaves no face under a subject exactly when it is the subject of the first row that has one or there was no such face; with all rows under one subject, exactly when there is a row, orphans of failed captures included; faces under other subjects always stay |
| `FaceErasure.EraseClearsMember` | apps/api/src/face/face-data.service.ts:51-69 | After a reported erasure no face names the member exactly when every face that did was under the swept subject |
| `FaceErasure.RunKeepsNames` | apps/api/src/face/enrolment.service.ts:104-153 | Over every run, whatever fails and whatever codes change, a row carries a subject that names its own member |
| `FaceErasure.EraseSparesOthers` | apps/api/src/face/enrolment.service.ts:188-198 | In any state a run reaches, failures included, an erasure that reports or throws takes no row and no face of another member |
| `FaceErasure.EraseSparesPhotos` | apps/api/src/face/face-data.service.ts:74-86 | Nor does it take another member's stored photo, photo keys being fresh |
| `FaceErasure.RunKeepsOneName` | apps/api/src/face/enrolment.service.ts:104-161 | Over every run in which a member's code stays once something carries it, whatever fails, all its rows and all faces that name it carry the subject of its present code |
| `FaceErasure.ErasedAfterRun` | apps/api/src/face/face-data.service.ts:51-69 | After any such run, failures included, a reported erasure leaves the member unmatchable exactly when it found a row or the member was unmatchable before; with a row, orphans of failed captures go too |
| `FaceErasure.OrphanSurvivesWithdrawal` | apps/api/src/face/face-data.service.ts:53-55 | The failing run: two captures lose their rows, the withdrawal reports the engine cleared, a face remains |
| `FaceErasure.CodeChangeLeavesFace` | apps/api/src/face/face-data.service.ts:61-65 | The other failing run, from empty stores: create, enrol, change the code, enrol, withdraw; the engine is reported cleared, and a face is left under the present code |
| `Auth.AuthService.Login` | apps/api/src/auth/auth.service.ts:62-89 | Login on one account: lock and status first, then the password, then the reset and a session |
| `Auth.AuthService.RecordFailure` | apps/api/src/auth/auth.service.ts:194-211 | The fifth failure locks for fifteen minutes and starts the count over |
| `Auth.AuthService.Refresh` | apps/api/src/auth/auth.service.ts:98-121 | A refresh token is exchanged only at the account's current version and while the account is usable |
| `Auth.AuthService.LogoutEverywhere` | apps/api/src/auth/auth.service.ts:124-131 | Raises the token version by one |
| `Auth.AuthService.IssueSession` | apps/api/src/auth/auth.service.ts:146-161 | A new token carries the account's current version |
| `Auth.StepKeepsCount` | apps/api/src/auth/auth.service.ts:194-206 | Zero to four failures are counted, and none while a lock is on record |
| `Auth.GuessesWithinBudget` | apps/api/src/auth/auth.service.ts:73-86 | Wrong passwords that reach verification never exceed what lock, count and remaining time allow |
| `Auth.LockoutBound` | apps/api/src/auth/auth.service.ts:178-206 | From any reachable state and without a successful login, at most 5 * (T div 900000 + 1) wrong passwords are looked at within T milliseconds |
| `Auth.LockoutBoundIsTight` | packages/shared/src/auth.ts:51-55 | The bound is reached exactly, for every span |
| `LoginRuns.LoginAnswers` | apps/api/src/auth/auth.service.ts:62-89 | A login gets in exactly with the right password of an account that exists and is neither locked nor disabled; otherwise the answer names the first of these that fails |
| `LoginRuns.LoginClears` | apps/api/src/auth/auth.service.ts:80-88 | A successful login sets the count to zero, clears the lock and issues a token of the present version, and touches no other account |
| `LoginRuns.WrongAnswersBound` | apps/api/src/auth/auth.service.ts:73-86 | In any run among any accounts and events: while no login of the user succeeds, at most 5 * (T div 900000 + 1) of its logins within T milliseconds are answered as a wrong password |
| `LoginRuns.FifthWrongLocks` | apps/api/src/auth/auth.service.ts:194-206 | After the fifth wrong answer in a row every login of the user within fifteen minutes is answered as locked, the right password included, whatever else happens |
| `LoginRuns.FourWrongDoNotLock` | apps/api/src/auth/auth.service.ts:194-206 | With at most four in a row the right password gets in |
| `LoginRuns.AnswersAreCounted` | apps/api/src/auth/auth.service.ts:194-206 | Below five, the count goes up with every wrong answer and with nothing else |
| `LoginRuns.RunKeepsCounted` | apps/api/src/auth/auth.service.ts:194-206 | Over every run each account counts zero to four failures, and none while a lock is on record |
| `Auth.RunInv` | apps/api/src/auth/auth.service.ts:146-161 | Over whole runs every refresh token ever issued carries a version its account has reached |
| `Auth.LogoutIsFinal` | apps/api/src/auth/auth.service.ts:98-131 | After `logoutEverywhere` no earlier refresh token, nor any in its refresh chain, is accepted again, whatever follows |
| `Auth.LogoutRevokes` | apps/api/src/auth/auth.service.ts:124-131 | At that moment all tokens of the account are out of date |
| `Auth.LoginIsAccepted` | apps/api/src/auth/auth.service.ts:88-112 | Until then a token is good: right after a login its refresh is accepted |
| `LoginRuns.RefreshAnswers` | apps/api/src/auth/auth.service.ts:98-121 | A refresh is accepted exactly for a token that was issued, is still good, and carries the present version of an account neither locked nor disabled; no account changes |
| `LoginRuns.RefreshExtendsChain` | apps/api/src/auth/auth.service.ts:98-121 | A token got by refreshing is the next of its chain, with the same account and version |
| `LoginRuns.DisabledGetsNothing` | apps/api/src/auth/auth.service.ts:186-191 | A disabled account gets no token, by login or by refresh |
| `SingleFlight.SingleFlightHolds` | apps/web/src/lib/api.ts:54-68 | In every reachable state of any number of callers: at most one refresh outstanding, everyone who joined one was told the same, refreshes never exceed 401s received, at most two requests per call to its own path |
| `SingleFlight.JoinsOpenRefresh` | apps/web/src/lib/api.ts:56-67 | A caller that needs a refresh always joins one that is still open, and starts one only if none is |
| `RefreshHistory.CallsEndAsAnswered` | apps/web/src/lib/api.ts:61-104 | Over every run, read off the events: a call is told what the server answered to the refresh it joined; told yes it sends its request again; done, it has the status of the last response to its own path; it gives up with a 401 after one request only if it may not refresh or was told no |
| `RefreshHistory.RequestsSent` | apps/web/src/lib/api.ts:86-103 | A call's request goes out once when made and once more after a refresh that worked, and at no other step |
| `RefreshHistory.RefreshPosted` | apps/web/src/lib/api.ts:56-68 | A refresh is posted exactly when a 401 that may be refreshed finds none unsettled |
| `RefreshHistory.RefreshesWithin401s` | apps/web/src/lib/api.ts:56-68 | Over every run, no more refreshes than responses with a 401 |
| `SingleFlight.StepWorks` | apps/web/src/lib/api.ts:74-104 | Every step uses up some of a finite amount of work |
| `SingleFlight.NeverStuck` | apps/web/src/lib/api.ts:101-104 | As long as a call is not done, some step can be taken |
| `SingleFlight.Terminates` | apps/web/src/lib/api.ts:74-104 | Every run has at most seven steps a call, and one that cannot go on has answered everybody |
| `SingleFlight.ApiClient.RefreshSession` | apps/web/src/lib/api.ts:56-68 | Joins the refresh in flight or starts one |
| `SingleFlight.ApiClient.OnFirstResponse` | apps/web/src/lib/api.ts:101-102 | A 401 that may be refreshed waits, everything else is final |
| `SingleFlight.ApiClient.OnRefreshSettle` | apps/web/src/lib/api.ts:63-65 | The variable is cleared when the refresh settles, whatever its outcome |
| `SingleFlight.ApiClient.OnResume` | apps/web/src/lib/api.ts:103 | One retry after a good refresh, none after a failed one |
| `Slug.SlugifyForm` | packages/shared/src/slug.ts:11-21 | Whatever the name: slug characters, no double hyphen, none at either end, at most 40 long |
| `Slug.SlugifyFixes` | packages/shared/src/slug.ts:11-21 | The texts `slugify` leaves alone are exactly those |
| `Slug.SlugifyTwice` | apps/api/src/tenants/tenants.service.ts:229 | Applying it twice, as tenant creation does, is applying it once |
| `SlugWords.SlugifyIs` | packages/shared/src/slug.ts:11-21 | The slug of a name is its words, maximal runs of letters and digits, with single hyphens between them, cut to forty characters without a hyphen at the cut |
| `SlugWords.ValidIff` | packages/shared/src/slug.ts:27-33 | Valid exactly: three to forty lower-case letters, digits and hyphens, no hyphen at either end, not reserved |
| `Slug.DerivedSlugErrors` | packages/shared/src/slug.ts:27-33 | A derived slug is empty or matches the pattern, and can only be too short or reserved |
| `Slug.HostIff` | packages/shared/src/slug.ts:40-52 | A slug is read off a host exactly when the host, lower-cased and without port, is slug, dot and root, and the slug is valid |
| `Slug.HostRoundTrip` | packages/shared/src/slug.ts:40-52 | Building a tenant's host and reading it back is the identity for every root domain, with or without a port, in any case, also when the request names a port of its own |
| `Slug.PortalReachable` | packages/shared/src/slug.ts:40-52 | A slug is read back off its own portal host exactly when it is valid |
| `Slug.ResolveSlug` | apps/api/src/tenants/tenants.service.ts:228-252 | Returns the first free candidate; fails exactly when all fifty are taken, so only with fifty slugs taken; the result is valid exactly when at most 40 long, always so for a base of at most 37 |
| `Slug.CandidatesDiffer` | apps/api/src/tenants/tenants.service.ts:243 | The candidates are pairwise distinct |
| `Slug.FiftyTaken` | apps/api/src/tenants/tenants.service.ts:242-251 | Running out means at least fifty slugs are taken |
| `Slug.CandidateLegal` | packages/shared/src/enums.ts:92-116 | With a legal base a candidate is legal exactly when it is not too long; no numbered one is reserved |
| `Slug.CandidateReachable` | apps/api/src/tenants/tenants.service.ts:243 | A candidate is read back off its own portal host exactly when it has at most 40 characters |
| `Tenants.TenantTable.Create` | apps/api/src/tenants/tenants.service.ts:36-77 | Resolve, then insert under the unique index and the column limit, with administrator and fields or not at all |
| `Tenants.CreateStoresIff` | apps/api/src/tenants/tenants.service.ts:36-56 | A legal base is stored exactly when its first free candidate has at most 40 characters and the transaction commits, under that candidate; otherwise the table stays |
| `Tenants.BaseIs` | apps/api/src/tenants/tenants.service.ts:37 | A requested slug in normal form is the base as it stands; without one the name gives it |
| `Tenants.UnavailableIff` | apps/api/src/tenants/tenants.service.ts:242-251 | Slugs run out exactly for a base of at most 37 characters with all fifty candidates taken |
| `Tenants.TooLongIff` | apps/api/prisma/schema.prisma:64 | The column refuses exactly a base of 38 characters whose first nine candidates are taken, and a longer one that is taken itself |
| `Tenants.RunInv` | apps/api/src/tenants/tenants.service.ts:36-77 | Over every interleaving of creations each stored slug is valid, stays with its organization, and is never given to a second one |
| `Tenants.PortalsReachable` | packages/shared/src/slug.ts:40-52 | Over every such run each stored slug is read back off its portal host |
| `Tenants.CreateIsTwoSteps` | apps/api/src/tenants/tenants.service.ts:37-46 | A creation nobody comes in between of is the two steps of the run |
| `Tenants.SecondNameRefused` | apps/api/src/tenants/tenants.service.ts:223-227 | The second organization with the same name of 39 letters is refused by the database |
| `ObjectStorage.Bucket.DeletePrefix` | apps/api/src/storage/s3.storage.ts:84-115 | The paginated loop terminates for any page sizes, removes exactly the objects under the prefix and returns their number |
| `ObjectStorage.PageStep` | apps/api/src/storage/s3.storage.ts:88-112 | One page removes what it shows, and the continuation token misses nothing although objects vanish meanwhile |
| `ObjectStorage.KeyUnderPrefix` | apps/api/src/storage/storage.interface.ts:59-77 | With tenant ids free of slashes, a key lies under its own tenant's prefix and no other |
| `ObjectStorage.EraseTenant` | apps/api/src/storage/storage.interface.ts:74-77 | Erasing a tenant's prefix leaves exactly the photos of the other tenants |
| `FieldDefinitions.ReorderLists` | apps/api/src/members/field-definitions.service.ts:165-181 | After reordering by any ids, `list()` gives the named active fields in the order in which their ids stood last, foreign and archived ids ignored; when the ids cover the active fields, that is the whole listing |
| `FieldDefinitions.DistinctOrder` | apps/api/src/members/field-definitions.service.ts:172-177 | Distinct ids of active fields are listed as they stand |
| `FieldDefinitions.ReorderedAt` | apps/api/src/members/field-definitions.service.ts:172-177 | Reordering by any ids changes nothing but sort orders, and only of the tenant's own fields named |
| `FieldDefinitions.ReorderedRank` | apps/api/src/members/field-definitions.service.ts:172-177 | A field ends at ten times the last position of its id |
| `FieldDefinitions.CreateAppends` | apps/api/src/members/field-definitions.service.ts:93-113 | A new field is the last of `list()`, and what stands before it is the old list |
| `FieldDefinitions.KeysStayUnique` | apps/api/src/members/field-definitions.service.ts:79-181 | No sequence of create, archive, restore and reorder gives two fields of a tenant the same key |
| `FieldDefinitions.RestoreUndoesArchive` | apps/api/src/members/field-definitions.service.ts:147-163 | Restoring undoes archiving exactly for fields that were not required |
| `FieldDefinitions.ArchiveHides` | apps/api/src/members/field-definitions.service.ts:147-154 | Archiving takes exactly this field out of `list()` and changes nothing of it but archive date and `required` |
| `FieldDefinitions.RestoreShows` | apps/api/src/members/field-definitions.service.ts:156-163 | Restoring puts exactly this field back into `list()` |
| `FieldDefinitions.FieldTable.Create` | apps/api/src/members/field-definitions.service.ts:76-116 | Refuses a key in use, archived or not, and says which; otherwise stores the field ten behind the greatest sort order |
| `FieldDefinitions.FieldTable.Archive` | apps/api/src/members/field-definitions.service.ts:147-154 | Hides the field and makes it optional; a foreign id is not found |
| `FieldDefinitions.FieldTable.Restore` | apps/api/src/members/field-definitions.service.ts:156-163 | Shows it again; a foreign id is not found |
| `FieldDefinitions.FieldTable.Reorder` | apps/api/src/members/field-definitions.service.ts:165-181 | All of the list or, when the transaction fails, none of it |

## Left out

- TenantScope.Exec: filters see one row; filters over related rows, foreign keys, cascades and unique constraints across tenants are not part of the model, and the database picks ids nobody has.
- TenantIsolation.Enabled: row locks are not modelled. Every commit order is allowed, which includes all the orders locking permits. The `tenants` table, which has no policy, takes no part in the protocol; `ScopedClient.PooledConnection.AllOperations` passes its queries through.
- TenantIsolation.NonInterference: raw SQL that changes the tenant variable itself, and the superuser client, are outside the protocol.
- RequestContext.RequestStore.Run: `asPlatform` calls that overlap instead of nesting; the code restores a stale flag there and promises nothing.
- Csv.RoundTrip: texts are sequences of characters; lone surrogates and decoding the file are left out.
- ExportImport.ExportThenImport: an export of more than 5000 members reads back as proved, but the request schema refuses to import it in one piece. Attribute values are text or absent, as the printer sees them after `String(value)`. The text of an inherited function is the one the V8 engine gives. Of the names objects treat specially, the field-key rule excludes those that start with an underscore.
- ExportImport.GuessMapping: `normalise` is any function on text, so lower-casing needs no model of Unicode. Target keys are distinct in `ExportImport.GuessIsIdentityIff`; an attribute key that repeats a core one is a clash of `ExportImport.ComesBackIff` already.
- MemberImport.MemberTable.Run: the request schema, which refuses an empty file and more than 5000 rows (packages/shared/src/member.ts:155-157), stands before the model; the theorems hold for any number. The validation schema is any total function to a record or at least one issue. Imports racing each other are covered only by the flag that says whether the transaction goes through.
- MemberImport.MapRow: the order of `Object.entries` is left open, since the result does not depend on it; `__proto__` as a key of the mapping is left out.
- FaceData.FaceStores.Enrol: operations on one member are serial, the spoof threshold is a verdict per photo, and failure texts are left out. Enrolment racing a withdrawal is not covered, because consent is read once at the start.
- FaceTheorems.AgreementHolds: code changes of an enrolled member are excluded; a later enrolment then uses another subject, with the effect `FaceErasure.CodeChangeLeavesFace` shows.
- Auth.AuthService.Login: attempts on one account are atomic, since the code reads and writes the count in separate steps. Hashing, signing and expiry are abstract: a password fits or not, a presented token is genuine or not.
- SingleFlight.Terminates: aborted requests count as failed ones; reading the response body is left out.
- Tenants.Step: the lookups of one `resolveSlug` see one state of the table; branding, settings, administrator and seeded fields are the flag that says whether the transaction commits.
- Slug.Slugify: decomposition, dropping diacritics and lower-casing are one abstract function that leaves slug characters alone; `toLowerCase` in host names is abstract too.
- ObjectStorage.Bucket.DeletePrefix: the listing shows keys in a fixed order; uploads during the erasure and deletions refused key by key are left out.
- FieldDefinitions.Listing: fields with equal sort order may come in any order, so the tie-break by caption is left open; sort orders are unbounded integers; the columns that only describe a field are left out.
- HTTP routing, React screens, logging, audit entries, user administration, tenant suspension, templates and local-disk storage.
