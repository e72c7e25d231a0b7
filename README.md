# ReportsAPI core in Dafny

This project models the logic of the ReportsAPI service (a TypeScript/Express
back end for class reports) and proves properties of the model.

The following parts are modelled:

- **Report-request lifecycle.**
  - `ReportsService.create` checks the fields, checks the turma through the
    participation table, writes a `pendente` request and enqueues a job.
  - `getStatus` and `getDownloadUrl` are guard chains over the requests table
    (`solicitacoes_relatorio`) and the artifacts table (`relatorios_gerados`).
  - The repository and the job queue are classes whose fields the methods
    update.
- **Request DTO.** `validateDTO` with the class-validator constraints of
  `CreateReportDTO`.
- **Parameterised SQL builders.** `UserRepository.update`,
  `ParticipacaoRepository.list` and `AtividadeRepository.list` are written as
  methods. Their running `$n` counters are proved against specification
  functions: placeholders are consecutive, `params[i-1]` binds `$i`, and
  LIMIT/OFFSET come last.
- **Users.**
  - The three validators. The e-mail regular expression
    `^[^\s@]+@[^\s@]+\.[^\s@]+$` is stated as a predicate (`EmailSplit`).
  - `create`, `update`, `delete` and `list` over a users table held in a
    repository class.
- **Pagination clamp and guard-then-delegate services.**
  - The services are Turma, Participacao, Atividade, Aluno and Professor.
  - The clamp is `limit = max(1, min(100, pageSize))` and
    `offset = (max(1, page) - 1) * limit`.
  - A missing record becomes NotFound.
- **The two PDF generators' helpers.**
  - HTML escaping, with a decode round trip.
  - Concept, status and grade classes and colours.
  - `fmtBool`, `textOrDash` and `fmtNum`.
  - Grouping rows per student, with the per-group stripe and the rowspan cell.
  - The PDFKit row loop: the empty-result error, background by row parity,
    the bold grade cell and cell alignment.
- **The Postgres pool singleton.** `init` is idempotent, `getPool` is
  guarded, and `end` resets the pool.

Some behaviour of the code differs from the system's design description. The
model follows the code:

- **Status transitions.** Nothing enforces forward-only transitions.
  `updateStatus` overwrites any status, and
  `ReportsService.StatusOverwriteWithdrawsDownload` shows the effect: a
  completed request loses its download link when its status is overwritten.
- **Artifact recording.** `insertMetadados` is a plain INSERT, not an upsert.
  Recording the same request twice adds a second row. The download stays
  available (`ReportsService.RecordingAgainKeepsDownload`), but the lookup
  has no ORDER BY, so it may then return either row
  (`ReportsRepository.RecordAgainAnswers`).
- **Artifact type.** `insertMetadados` always stores the type `"excel"`,
  whatever type it is given.
- **Report type.** `create` accepts any non-empty report type. Only the DTO
  restricts it to exactly `"PDF"` or `"Excel"`, and the check is
  case-sensitive.
- **Unknown id on download.** `getDownloadUrl` gives ValidationError, not
  NotFound, for an unknown id.
- **Status substring tests.**
  - `"reprovado"` does not contain `"aprovado"` (re-p-r-o-v-a-d-o), so a
    plain `"reprovado"` status is classed `status-reprovado`.
  - `"não aprovado"` does contain `"aprovado"`, so it is classed as approved.
  - The HTML and PDFKit generators test "pendente" and "falta" in opposite
    orders (`PdfKit.StatusOrderDiffers`).

## Model

| member | source | states |
|---|---|---|
| Common.Trim | src/infrastructure/repositories/UserRepository.ts:54 | `String.prototype.trim`: no whitespace is left at either end, the result is no longer than the input, it is empty exactly when the input is all whitespace, and it is a contiguous piece of the input with only whitespace before it and only whitespace after it (`IsTrimmedInfix`) |
| Common.TrimCut | src/infrastructure/repositories/UserRepository.ts:54 | cutting a string where the leading whitespace ends and the trailing whitespace starts gives a piece with no whitespace at either end, empty exactly when the string is all whitespace, and lying between a whitespace-only prefix and a whitespace-only suffix |
| Common.LeadingWhitespace | src/infrastructure/repositories/UserRepository.ts:54 | the length of the whitespace run `trim` removes at the front: every character before it is whitespace and the one at it is not |
| Common.TrailingWhitespaceStart | src/infrastructure/repositories/UserRepository.ts:54 | where the whitespace run `trim` removes at the back begins: every character from it on is whitespace and the one before it is not |
| Common.TrimFixedPoint | src/infrastructure/repositories/UserRepository.ts:54-55 | trimming a string that has no whitespace at either end changes nothing |
| Common.ToLower | src/infrastructure/repositories/UserRepository.ts:55 | `toLowerCase` keeps the length and maps each character |
| Common.ToUpper | src/infrastructure/reports/reports-pdf.generator.tsx:421 | `toUpperCase` keeps the length and maps each character; twice is once (`PdfHtml.ToUpperIdempotent`) |
| Common.ToLowerIdempotent | src/domain/services/UserService.ts:75-79 | lower-casing twice is lower-casing once |
| Common.Contains | src/infrastructure/reports/reports-pdf.generator.tsx:435-437 | `includes`; its meaning, an occurrence at some position, is stated by `Common.ContainsIff` |
| Common.ContainsIff | src/infrastructure/reports/reports-pdf.generator.tsx:435-437 | `includes` holds exactly when the word occurs at some position |
| Common.ContainsTransitive | src/infrastructure/reports/reports-pdf.generator.tsx:435-437 | a text containing a word contains every part of that word |
| Common.NatToString | src/infrastructure/reports/reports-pdf.generator.ts:213 | `String(i)` of a non-negative integer is a non-empty run of decimal digits |
| Common.NatToStringRoundTrip | src/infrastructure/repositories/ParticipacaoRepository.ts:25 | reading the digits back gives the number |
| Common.NatToStringInjective | src/infrastructure/repositories/ParticipacaoRepository.ts:25-34 | different numbers give different digit strings |
| Common.PlaceholdersDistinct | src/infrastructure/repositories/ParticipacaoRepository.ts:25-34 | `$m` and `$n` differ when m and n differ |
| Common.Join | src/infrastructure/repositories/ParticipacaoRepository.ts:39 | `join`: empty list gives "", one item gives that item |
| Common.FirstMatch | src/infrastructure/repositories/UserRepository.ts:17-24 | `rows[0]` of a WHERE-filtered query: none iff no row has the key; otherwise a table row with that key |
| Common.RequireFound | src/domain/services/AlunoService.ts:20-24 | the record when the lookup found one, NotFound with the message otherwise |
| Pagination.Clamp | src/domain/services/AlunoService.ts:14-17 | 1 ≤ limit ≤ 100, limit = pageSize inside the bounds, 1 below and 100 above; offset = (page−1)·limit ≥ 0 and page ≤ 1 gives offset 0 |
| Pagination.NextPageIsAdjacent | src/domain/services/TurmaService.ts:28-32 | page p+1 starts where page p ends |
| Pagination.LaterPageStartsAfter | src/domain/services/TurmaService.ts:28-32 | the windows of different pages do not overlap |
| Pagination.ClampIdempotent | src/domain/services/ParticipacaoService.ts:19-20 | clamping a clamped window again changes nothing |
| Pagination.DefaultWindow | src/domain/services/UserService.ts:51-53 | the defaults page 1, pageSize 20 give limit 20, offset 0 |
| AlunoService.List | src/domain/services/AlunoService.ts:14-18 | delegates exactly the clamped window |
| AlunoService.GetById | src/domain/services/AlunoService.ts:20-24 | NotFound "Aluno não encontrado" iff the repository returned null, else that record |
| ProfessorService.List | src/domain/services/ProfessorService.ts:14-18 | delegates exactly the clamped window |
| ProfessorService.GetById | src/domain/services/ProfessorService.ts:20-24 | NotFound "Professor não encontrado" iff the repository returned null, else that record |
| AtividadeService.List | src/domain/services/AtividadeService.ts:14-18 | the clamped window and `turma_id` = turmaId unchanged |
| AtividadeService.GetById | src/domain/services/AtividadeService.ts:20-24 | Ok iff some activity has the id, then that activity; otherwise NotFound "Atividade não encontrada" |
| ParticipacaoService.List | src/domain/services/ParticipacaoService.ts:14-29 | the clamped window; the three filters renamed unchanged, all absent when no filters are given |
| ParticipacaoService.GetById | src/domain/services/ParticipacaoService.ts:31-35 | Ok iff some participation has the id, then that record; otherwise NotFound "Participação não encontrada" |
| TurmaService.List | src/domain/services/TurmaService.ts:28-32 | delegates exactly the clamped window |
| TurmaService.GetById | src/domain/services/TurmaService.ts:34-38 | NotFound "Turma não encontrada" iff the lookup returned null, else that turma |
| TurmaService.GetProfessoresByTurmaId | src/domain/services/TurmaService.ts:40-46 | NotFound for an unknown turma, else the professors of that turma |
| TurmaService.GetAlunosByTurmaId | src/domain/services/TurmaService.ts:48-54 | NotFound for an unknown turma, else the students of that turma |
| TurmaService.GetAtividadesByTurmaId | src/domain/services/TurmaService.ts:56-65 | NotFound iff the turma is unknown; otherwise list options with the clamped window and `turma_id` = the id |
| ParticipacaoRepository.ActiveFilters | src/infrastructure/repositories/ParticipacaoRepository.ts:24-35 | at most three filters, one per truthy option |
| ParticipacaoRepository.ActiveFiltersOrder | src/infrastructure/repositories/ParticipacaoRepository.ts:24-35 | a filter is present iff its option is truthy; filters come in the fixed order turma_id, aluno_id, atividade_id |
| ParticipacaoRepository.AddFilter | src/infrastructure/repositories/ParticipacaoRepository.ts:24-35 | one `if (x) { push; push }` step keeps clauses, params and paramIndex = k+1 in step with the filters so far |
| ParticipacaoRepository.AddFilters | src/infrastructure/repositories/ParticipacaoRepository.ts:24-35 | the three filter steps leave exactly the active filters' clauses `column = $(i+1)` and values, with paramIndex = k+1 |
| ParticipacaoRepository.BuildList | src/infrastructure/repositories/ParticipacaoRepository.ts:8-49 | k filter params then limit and offset; LIMIT $(k+1), OFFSET $(k+2); the same WHERE text on both statements; count params = params without the last two |
| ParticipacaoRepository.FindById | src/infrastructure/repositories/ParticipacaoRepository.ts:74-84 | null iff no row has the id, otherwise a row with that id |
| AtividadeRepository.BuildList | src/infrastructure/repositories/AtividadeRepository.ts:8-28 | `WHERE turma_id = $1` on both statements iff turma_id is truthy; LIMIT $(n+1), OFFSET $(n+2) bind the last two params; count params `[turma_id]` or `[]` |
| AtividadeRepository.FindById | src/infrastructure/repositories/AtividadeRepository.ts:41-44 | null iff no row has the id, otherwise a row with that id |
| TurmaRepository.CountByTurma | src/infrastructure/repositories/TurmaRepository.ts:7 | the count is at most the number of participation rows |
| TurmaRepository.ValidateTurmaExists | src/infrastructure/repositories/TurmaRepository.ts:6-9 | `count > 0`; `TurmaRepository.ValidateTurmaExistsIff` proves it true iff some participation row has the turma_id |
| TurmaRepository.ValidateTurmaExistsIff | src/infrastructure/repositories/TurmaRepository.ts:6-9 | true iff some participation row has that turma_id (count > 0) |
| TurmaRepository.OtherRowsDoNotCount | src/infrastructure/repositories/TurmaRepository.ts:7-8 | a turma without participations stays nonexistent when rows of other turmas are added |
| ReportsDtos.IsString | src/domain/dtos/reports.dtos.ts:4 | `@IsString`: the value is a string; used by the message lists below |
| ReportsDtos.IsNotEmpty | src/domain/dtos/reports.dtos.ts:5 | `@IsNotEmpty`: not "", null or undefined; used by the message lists below |
| ReportsDtos.IsIn | src/domain/dtos/reports.dtos.ts:10 | `@IsIn(["PDF", "Excel"])`: a string equal to one of the two, case included |
| ReportsDtos.TurmaIdMessages | src/domain/dtos/reports.dtos.ts:4-6 | no messages iff turmaId is a non-empty string; every message is non-empty |
| ReportsDtos.TipoMessages | src/domain/dtos/reports.dtos.ts:8-11 | no messages iff tipoRelatorio is exactly "PDF" or "Excel"; every message is non-empty |
| ReportsDtos.ValidateDTO | src/domain/dtos/reports.dtos.ts:3-28 | valid iff turmaId is a non-empty string and tipoRelatorio is exactly "PDF" or "Excel"; valid iff no errors; one entry per failing property, turmaId first, each entry being that property's constraint messages joined by ", " |
| ReportsDtos.MissingTurmaIdEntry | src/domain/dtos/reports.dtos.ts:4-24 | a missing turmaId's entry is its two messages joined by ", " |
| ReportsDtos.LowerCaseTipoRejected | src/domain/dtos/reports.dtos.ts:10 | "pdf" is rejected with the IsIn message only |
| ReportsRepository.StatusOf | src/infrastructure/repositories/ReportsRepository.ts:25-28 | the row's status, or null iff no row has the id |
| ReportsRepository.FileRefOf | src/infrastructure/repositories/ReportsRepository.ts:49-56 | null iff no artifact row has the request id, otherwise the key and name of such a row (the model picks the earliest; see Left out) |
| ReportsRepository.Answers | src/infrastructure/repositories/ReportsRepository.ts:49-56 | what the unordered SELECT may return: null iff no row has the request id, otherwise the key and name of any row that has it |
| ReportsRepository.FileRefOfAnswers | src/infrastructure/repositories/ReportsRepository.ts:49-56 | the model's pick is one of the answers the database may give |
| ReportsRepository.RecordAgainAnswers | src/infrastructure/repositories/ReportsRepository.ts:37-56 | after a second INSERT for a request the lookup may return the new row or any earlier row of it, and nothing else; an insert for another request changes no answer |
| ReportsRepository.FileRefOfAppend | src/infrastructure/repositories/ReportsRepository.ts:37-56 | once a row exists the lookup keeps succeeding; the first insert for a request makes it return that row; an insert for another request changes nothing |
| ReportsRepository.Store.CreateRequest | src/infrastructure/repositories/ReportsRepository.ts:6-14 | adds one `pendente` row with the given turma and type under a fresh id and returns that id; nothing else changes |
| ReportsRepository.Store.ValidateTurmaExists | src/infrastructure/repositories/ReportsRepository.ts:16-19 | true iff some participation row has that turma_id |
| ReportsRepository.Store.UpdateStatus | src/infrastructure/repositories/ReportsRepository.ts:21-23 | overwrites only the status of the matching row, whatever its old value; an unknown id changes nothing |
| ReportsRepository.Store.GetStatus | src/infrastructure/repositories/ReportsRepository.ts:25-28 | the stored status, or null iff no row has the id |
| ReportsRepository.Store.InsertMetadados | src/infrastructure/repositories/ReportsRepository.ts:30-47 | appends one artifact row with type "excel" whatever type is given; no conflict handling |
| ReportsRepository.Store.GetFileKeyBySolicitacaoId | src/infrastructure/repositories/ReportsRepository.ts:49-56 | the lookup `FileRefOf`: an artifact row of the request, or null iff none exists |
| ReportsService.JobQueue.Enqueue | src/domain/services/ReportsService.ts:35 | appends exactly the job when the queue accepts it, otherwise fails and appends nothing |
| ReportsService.FieldsPresent | src/domain/services/ReportsService.ts:21 | both turmaId and tipoRelatorio are present and non-empty, so the guard does not throw; `Service.Create` states its effect |
| ReportsService.Service.Create | src/domain/services/ReportsService.ts:19-38 | missing field: ValidationError, no store access; no participations: ValidationError, nothing written; otherwise one new `pendente` request, then one job carrying the id just created, in that order, and that id returned |
| ReportsService.GetStatus | src/domain/services/ReportsService.ts:48-59 | the stored status unchanged; NotFound iff the id is unknown or its status is empty |
| ReportsService.GetDownloadUrl | src/domain/services/ReportsService.ts:71-93 | Ok iff the status is "concluido" and an artifact row exists; ValidationError otherwise (message with the status, or the missing-artifact message); on Ok a presign of that row's file key and name with TTL 300 |
| ReportsService.UnknownIdDownloadIsValidationError | src/domain/services/ReportsService.ts:76-78 | an unknown id gives ValidationError whose message says "não encontrado", not NotFound |
| ReportsService.RecordingAgainKeepsDownload | src/infrastructure/repositories/ReportsRepository.ts:37-46 | inserting a second artifact for a request keeps its download available; the first insert for a completed request enables it; an artifact of another request changes nothing |
| ReportsService.StatusOverwriteWithdrawsDownload | src/infrastructure/repositories/ReportsRepository.ts:21-23 | overwriting a completed request's status withdraws its download although the artifact stays |
| UserRepository.Normalize | src/infrastructure/repositories/UserRepository.ts:53-55 | name trimmed, e-mail lower-cased then trimmed, each only when present; password hash untouched |
| UserRepository.Includable | src/infrastructure/repositories/UserRepository.ts:58-60 | `set` skips a missing value and a whitespace-only string; its effect is stated by `Assignments` and `SetAll` |
| UserRepository.Assignments | src/infrastructure/repositories/UserRepository.ts:58-67 | at most three assignments: the includable fields in the order name, email, password_hash |
| UserRepository.Set | src/infrastructure/repositories/UserRepository.ts:58-63 | one `set` call adds a field only when its value is present and not whitespace-only, keeping fields, values and idx in step |
| UserRepository.SetAll | src/infrastructure/repositories/UserRepository.ts:57-67 | the three `set` calls leave the SET items `column=$(i+1)`, the values and the counter $(k+1) of exactly the includable fields, in the order name, email, password_hash |
| UserRepository.BuildUpdate | src/infrastructure/repositories/UserRepository.ts:48-80 | the patch is normalised in place; no UPDATE is built exactly when no field of it is includable; otherwise the statement is the UPDATE of its assignments |
| UserRepository.BuildStatement | src/infrastructure/repositories/UserRepository.ts:57-78 | the `set` calls and the statement over a normalised patch: none exactly when nothing is includable, otherwise the UPDATE of its assignments |
| UserRepository.UpdateStatement | src/infrastructure/repositories/UserRepository.ts:69-78 | the UPDATE built from the assignments; its layout is stated by `UpdateStatementLayout` |
| UserRepository.UpdateStatementLayout | src/infrastructure/repositories/UserRepository.ts:61-78 | with k assignments: SET items `column=$(i+1)` in the order name, email, password_hash, `updated_at=NOW()` last, $1..$k bound to the values, the id bound to the WHERE placeholder $(k+1) |
| UserRepository.Apply | src/infrastructure/repositories/UserRepository.ts:73-77 | applying SET assignments never changes the id |
| UserRepository.ApplyToId | src/infrastructure/repositories/UserRepository.ts:73-77 | only rows with that id change, and each by the assignments |
| UserRepository.ApplyConcat | src/infrastructure/repositories/UserRepository.ts:74 | applying two assignment lists in a row is applying their concatenation |
| UserRepository.ApplyAssignments | src/infrastructure/repositories/UserRepository.ts:58-67 | each includable field is set to its value; every other column keeps its old value |
| UserRepository.ApplyOne | src/infrastructure/repositories/UserRepository.ts:74 | applying at most one assignment |
| UserRepository.FindById | src/infrastructure/repositories/UserRepository.ts:17-24 | null iff no user has the id, otherwise a user with that id |
| UserRepository.FindByEmail | src/infrastructure/repositories/UserRepository.ts:26-33 | null iff no user has exactly that e-mail, otherwise a user with it |
| UserRepository.CountId | src/infrastructure/repositories/UserRepository.ts:87 | the number of rows with the id is at most the table size |
| UserRepository.RemoveId | src/infrastructure/repositories/UserRepository.ts:87 | DELETE leaves no row with the id, keeps only rows of the table, and removes as many rows as have the id |
| UserRepository.RemoveIdKeepsOthers | src/infrastructure/repositories/UserRepository.ts:87 | DELETE by id keeps every row whose id is different |
| UserRepository.CountIdUnique | src/infrastructure/repositories/UserRepository.ts:86-89 | with unique ids the row count of an id is 1 if present, else 0 |
| UserRepository.RemoveKeepsUnique | src/infrastructure/repositories/UserRepository.ts:86-89 | deleting keeps ids unique |
| UserRepository.Repository.Create | src/infrastructure/repositories/UserRepository.ts:7-15 | inserts the user and returns it; an existing id is the primary-key error with the table unchanged |
| UserRepository.Repository.Update | src/infrastructure/repositories/UserRepository.ts:48-84 | the table becomes the normalised assignments applied to the id's row; with none, nothing changes; the result is the updated row, null iff no row had the id |
| UserRepository.Repository.Delete | src/infrastructure/repositories/UserRepository.ts:86-89 | removes the id's row; true iff exactly one row was removed |
| UserService.IndexOf | src/domain/services/UserService.ts:19 | the first position of the character, or none iff it does not occur |
| UserService.MatchesEmailPattern | src/domain/services/UserService.ts:19 | the language of `^[^\s@]+@[^\s@]+\.[^\s@]+$` as the existence of a split into local part, domain head and domain tail |
| UserService.EmailOk | src/domain/services/UserService.ts:19 | a direct test of the pattern; `EmailOkIff` proves it equal to `MatchesEmailPattern` |
| UserService.EmailOkIff | src/domain/services/UserService.ts:19 | the computable check agrees with the regular expression: one '@', non-empty local part, a '.' in the domain with characters on each side, no whitespace |
| UserService.ValidateEmail | src/domain/services/UserService.ts:18-22 | passes iff the e-mail matches `^[^\s@]+@[^\s@]+\.[^\s@]+$`; otherwise ValidationError "Email inválido" |
| UserService.ValidateName | src/domain/services/UserService.ts:24-26 | passes iff the trimmed name has at least two characters; otherwise ValidationError "Nome muito curto" |
| UserService.ValidatePassword | src/domain/services/UserService.ts:28-30 | passes iff the password has at least six characters; otherwise ValidationError |
| UserService.PasswordBoundIsSix | src/domain/services/UserService.ts:29 | six characters pass, five fail |
| UserService.LowerCharKeepsNonWhitespace | src/domain/services/UserService.ts:79 | lower-casing never turns a character into whitespace |
| UserService.ValidEmailTrimIsNoop | src/infrastructure/repositories/UserRepository.ts:55 | the repository's trim after lower-casing changes no valid e-mail |
| UserService.CheckCreate | src/domain/services/UserService.ts:32-38 | name, then e-mail, then password, then the conflict check on the raw e-mail; passes iff all three hold and no user has that exact e-mail; the first failing validation's error is returned, and a valid body whose raw e-mail is taken is a ConflictError |
| UserService.NewUser | src/domain/services/UserService.ts:40-42 | the stored user has the trimmed name, the lower-cased e-mail, the new id and the hash |
| UserService.CreateConflictIsCaseSensitive | src/domain/services/UserService.ts:37-42 | "Ana@x.io" passes the conflict check next to a stored "ana@x.io", and the new user then has that same stored e-mail |
| UserService.SampleEmailMatches | src/domain/services/UserService.ts:19 | "Ana@x.io" matches the e-mail pattern |
| UserService.SampleEmailLowered | src/domain/services/UserService.ts:42 | "Ana@x.io" lower-cases to "ana@x.io" |
| UserService.CheckEmailChange | src/domain/services/UserService.ts:71-79 | passes iff the e-mail is valid, the user exists, and the lower-cased e-mail is the current one or belongs to no other id; an invalid e-mail returns its ValidationError, a valid e-mail for a missing user is NotFoundError, and a valid e-mail held by another user (and not the current one) is ConflictError |
| UserService.PlanUpdate | src/domain/services/UserService.ts:57-85 | empty or absent body is ValidationError; otherwise succeeds iff every present field passes its check; on failure the error is the first failing check in the order name, e-mail, password, with the e-mail check's NotFound and Conflict errors passed on unchanged; the patch holds the trimmed name, lower-cased e-mail and the hash of exactly the given fields |
| UserService.OwnEmailIsNoConflict | src/domain/services/UserService.ts:75 | re-submitting one's own e-mail in any letter case never conflicts |
| UserService.TakenEmailConflicts | src/domain/services/UserService.ts:75-77 | an e-mail held by another user is a Conflict |
| UserService.UpdateStoresNormalized | src/domain/services/UserService.ts:67-84 | the patch survives the repository's normalisation unchanged and every given field is includable |
| UserService.TrimTwice | src/domain/services/UserService.ts:69 | a name that passed validation is trimmed once for good and is not blank |
| UserService.UnknownKeysChangeNothing | src/domain/services/UserService.ts:58-59 | a body with only unknown keys passes the emptiness check and yields an empty patch |
| UserService.Service.Create | src/domain/services/UserService.ts:32-43 | a failing check stores nothing and returns its error; otherwise the new user is stored and returned |
| UserService.Service.GetById | src/domain/services/UserService.ts:45-49 | the user with that id, or NotFound "Usuário não encontrado" |
| UserService.Service.List | src/domain/services/UserService.ts:51-55 | delegates exactly the clamped window |
| UserService.Service.Update | src/domain/services/UserService.ts:57-89 | the plan decides the outcome (success iff every present field passes; errors in the order name, e-mail, password; NotFound and Conflict from the e-mail check): a failing plan changes nothing and returns its error; otherwise the repository update, NotFound when it returns null |
| UserService.Service.Delete | src/domain/services/UserService.ts:91-95 | removes the user; Ok(true) iff it existed, otherwise NotFound |
| PdfHtml.ReplaceAll | src/infrastructure/reports/reports-pdf.generator.tsx:459-463 | a global one-character replace leaves text without that character unchanged |
| PdfHtml.ReplaceAllConcat | src/infrastructure/reports/reports-pdf.generator.tsx:459-463 | a global replace distributes over concatenation |
| PdfHtml.EscapeChar | src/infrastructure/reports/reports-pdf.generator.tsx:459-463 | each character becomes its entity or itself, never nothing |
| PdfHtml.ChainOfOne | src/infrastructure/reports/reports-pdf.generator.tsx:459-463 | the five-pass chain on one character is that character's escape |
| PdfHtml.ChainConcat | src/infrastructure/reports/reports-pdf.generator.tsx:459-463 | the chain distributes over concatenation |
| PdfHtml.EscapeChain | src/infrastructure/reports/reports-pdf.generator.tsx:458-463 | the five global replaces, `&` first; `EscapeChainIsPerChar` proves it equal to per-character escaping |
| PdfHtml.EscapeHtml | src/infrastructure/reports/reports-pdf.generator.tsx:456-464 | "" for null or undefined, otherwise the per-character escape of the text |
| PdfHtml.EscapeChainIsPerChar | src/infrastructure/reports/reports-pdf.generator.tsx:458-463 | because `&` goes first, the chain equals escaping character by character |
| PdfHtml.EscapeEachNoRawMarkup | src/infrastructure/reports/reports-pdf.generator.tsx:459-463 | per-character escaping leaves no raw `<`, `>`, `"` or `'` |
| PdfHtml.EscapeHtmlNoRawMarkup | src/infrastructure/reports/reports-pdf.generator.tsx:456-464 | `escapeHtml` output never holds a raw `<`, `>`, `"` or `'`, null and undefined giving "" |
| PdfHtml.EscapeEachPlain | src/infrastructure/reports/reports-pdf.generator.tsx:459-463 | text without the five characters is unchanged |
| PdfHtml.EscapeHtmlPlain | src/infrastructure/reports/reports-pdf.generator.tsx:456-464 | text without the five characters comes out unchanged; null gives "" |
| PdfHtml.EscapeEachAmpersands | src/infrastructure/reports/reports-pdf.generator.tsx:459-463 | every `&` produced begins one of the five entities |
| PdfHtml.EscapeHtmlAmpersands | src/infrastructure/reports/reports-pdf.generator.tsx:456-464 | every `&` in the output begins `&amp;`, `&lt;`, `&gt;`, `&quot;` or `&#039;` |
| PdfHtml.DecodeStep | src/infrastructure/reports/reports-pdf.generator.tsx:459-463 | decoding one escaped character gives it back |
| PdfHtml.DecodeEscapeEach | src/infrastructure/reports/reports-pdf.generator.tsx:459-463 | decoding undoes per-character escaping |
| PdfHtml.EscapeHtmlRoundTrip | src/infrastructure/reports/reports-pdf.generator.tsx:456-464 | decoding the five entities recovers the escaped text |
| PdfHtml.ConceptClass | src/infrastructure/reports/reports-pdf.generator.tsx:419-427 | "" for a missing or empty concept; otherwise each class iff the upper-cased concept is in its list, in the order excelente, bom, regular, insuficiente |
| PdfHtml.UpperCharIdempotent | src/infrastructure/reports/reports-pdf.generator.tsx:421 | upper-casing a character twice is upper-casing it once |
| PdfHtml.ToUpperIdempotent | src/infrastructure/reports/reports-pdf.generator.tsx:421 | upper-casing twice is upper-casing once |
| PdfHtml.ConceptClassIgnoresCase | src/infrastructure/reports/reports-pdf.generator.tsx:421-425 | the class does not depend on the concept's letter case |
| PdfHtml.LowerCaseOtimoIsExcelente | src/infrastructure/reports/reports-pdf.generator.tsx:422 | "ótimo" is classed excelente |
| PdfHtml.StatusClass | src/infrastructure/reports/reports-pdf.generator.tsx:432-439 | "" for a missing or empty status; otherwise aprovado iff "aprovado" or "concluído" occurs, else pendente iff "pendente" or "em andamento", else reprovado iff "reprovado" or "falta" |
| PdfHtml.ToLowerFixed | src/infrastructure/reports/reports-pdf.generator.tsx:434 | lower-casing leaves lower-case text alone |
| PdfHtml.NoBigram | src/infrastructure/reports/reports-pdf.generator.tsx:435-437 | a word whose first two letters never stand side by side in the text does not occur in it |
| PdfHtml.NaoAprovadoIsClassedAprovado | src/infrastructure/reports/reports-pdf.generator.tsx:435 | "não aprovado" is classed `status-aprovado` |
| PdfHtml.NaoAprovadoLower | src/infrastructure/reports/reports-pdf.generator.tsx:434 | "não aprovado" is already lower case |
| PdfHtml.NaoAprovadoContains | src/infrastructure/reports/reports-pdf.generator.tsx:435 | "não aprovado" contains "aprovado" |
| PdfHtml.ReprovadoIsClassedReprovado | src/infrastructure/reports/reports-pdf.generator.tsx:435-437 | "reprovado" is classed `status-reprovado` |
| PdfHtml.ReprovadoLacks | src/infrastructure/reports/reports-pdf.generator.tsx:435-436 | "reprovado" contains no word that starts with a letter pair absent from it |
| PdfHtml.NotaClass | src/infrastructure/reports/reports-pdf.generator.tsx:444-451 | null and undefined as 0 (`nota ?? 0`), any other value through `Number`; excelente iff ≥ 9, boa iff in [7, 9), regular iff in [5, 7), baixa iff in (0, 5), "" otherwise and for NaN |
| PdfHtml.NotaClassMonotone | src/infrastructure/reports/reports-pdf.generator.tsx:446-450 | a higher grade never gets a lower class |
| PdfHtml.DistinctKeysSound | src/infrastructure/reports/reports-pdf.generator.tsx:91-98 | the group keys have no repeats and are exactly the keys `${aluno_id}-${aluno}` that occur in the rows |
| PdfHtml.RowsWithKeyMembers | src/infrastructure/reports/reports-pdf.generator.tsx:97 | a group holds only rows of the result, all with its key, and no more of them than there are rows |
| PdfHtml.RowsWithKeyAbsent | src/infrastructure/reports/reports-pdf.generator.tsx:94-97 | a key no row has has no rows |
| PdfHtml.RowsWithKeySnoc | src/infrastructure/reports/reports-pdf.generator.tsx:96-97 | one step of the pass: the row joins its key's group and no other |
| PdfHtml.DistinctKeysSnoc | src/infrastructure/reports/reports-pdf.generator.tsx:94-96 | one step of the pass: a key seen for the first time is added last, a known key changes nothing |
| PdfHtml.Key | src/infrastructure/reports/reports-pdf.generator.tsx:93 | the group key `${aluno_id}-${aluno}`; grouping by it is stated by `GroupRows` |
| PdfHtml.GroupStep | src/infrastructure/reports/reports-pdf.generator.tsx:92-97 | one iteration of the fill (create the group on first sight, then push) keeps keys and groups equal to the grouping of the rows seen so far |
| PdfHtml.GroupRows | src/infrastructure/reports/reports-pdf.generator.tsx:91-98 | the map's keys are the distinct keys in first-appearance order, and each group is its key's rows in their original order |
| PdfHtml.SumSizesAppend | src/infrastructure/reports/reports-pdf.generator.tsx:97 | a new row adds one to exactly one group |
| PdfHtml.GroupSizesSum | src/infrastructure/reports/reports-pdf.generator.tsx:91-98 | the group sizes add up to `rows.length` |
| PdfHtml.Stripe | src/infrastructure/reports/reports-pdf.generator.tsx:105 | `row-even` for an even group index, `row-odd` otherwise; `StripeAlternates` states the alternation |
| PdfHtml.RenderRow | src/infrastructure/reports/reports-pdf.generator.tsx:107-133 | one `<tr>`: the group's stripe; the escaped name and e-mail cell iff it is the group's first row; activity and type escaped; the concept, status and grade classes of the row's values; grade and hours "-" iff the value is falsy (a numeric 0 included), else formatted from that value; the presence mark a tick iff `presenca` is truthy; concept and status escaped, "-" when empty; the grade class of the row's grade |
| PdfHtml.NumText | src/infrastructure/reports/reports-pdf.generator.tsx:127-130 | `x ? Number(x).toFixed(p) : "-"`: a dash iff the value is falsy, otherwise the value with its number of places |
| PdfHtml.PresenceMark | src/infrastructure/reports/reports-pdf.generator.tsx:129 | a tick iff the presence value is truthy, otherwise a cross |
| PdfHtml.PresenceMarkOnEncodings | src/infrastructure/reports/reports-pdf.generator.tsx:129 | over the encodings a presence can arrive in (boolean, "t"/"f", 1/0, "1"/"0"), the tick shows for every present student and also for an absent one stored as "f" or "0" |
| PdfHtml.ZeroCells | src/infrastructure/reports/reports-pdf.generator.tsx:127-130 | a numeric 0 grade or hours shows "-", while the string "0" is formatted |
| PdfHtml.RenderGroup | src/infrastructure/reports/reports-pdf.generator.tsx:103-134 | one `<tr>` per row of the group, all with the group's stripe, the student cell with rowspan = group size on the first only |
| PdfHtml.RenderGroups | src/infrastructure/reports/reports-pdf.generator.tsx:103-137 | the groups one after the other, as many rows as the groups hold |
| PdfHtml.TableLength | src/infrastructure/reports/reports-pdf.generator.tsx:103-137 | the table has one `<tr>` per result row |
| PdfHtml.GroupPlacement | src/infrastructure/reports/reports-pdf.generator.tsx:103-136 | row idx of group gi sits after all rows of earlier groups, carries stripe gi, and has the student cell iff idx = 0 |
| PdfHtml.StripeAlternates | src/infrastructure/reports/reports-pdf.generator.tsx:105 | neighbouring groups get different stripes |
| PdfHtml.AppendGroup | src/infrastructure/reports/reports-pdf.generator.tsx:107-134 | the inner loop appends the group's rendered rows |
| PdfHtml.RenderTable | src/infrastructure/reports/reports-pdf.generator.tsx:100-137 | the outer loop with `rowIndex++` produces the groups in key order |
| PdfHtml.GeneratePdfHtml | src/infrastructure/reports/reports-pdf.generator.tsx:83-137 | the table body of the result set, `rows.length` participations and one student per distinct key |
| PdfKit.FmtBool | src/infrastructure/reports/reports-pdf.generator.ts:44-48 | "-" iff null/undefined; "Sim" iff true, "t", 1 or "1"; "Não" for every other value |
| PdfKit.FmtBoolOnPresenca | src/infrastructure/reports/reports-pdf.generator.ts:44-48 | over the presence encodings, "Sim" means present and "Não" absent |
| PdfKit.PresenceMarksDiffer | src/infrastructure/reports/reports-pdf.generator.ts:44-48 | an absent student stored as "f" or "0" reads "Não" in the PDFKit table but gets a tick in the HTML report |
| PdfKit.TextOrDash | src/infrastructure/reports/reports-pdf.generator.ts:49-53 | never empty; "-" for null or blank text, else the trimmed text |
| PdfKit.TextOrDashIdempotent | src/infrastructure/reports/reports-pdf.generator.ts:49-53 | formatting a formatted cell again changes nothing |
| PdfKit.ReplaceFirstComma | src/infrastructure/reports/reports-pdf.generator.ts:40 | `replace(",", ".")` keeps the length |
| PdfKit.ReplaceFirstCommaChangesOne | src/infrastructure/reports/reports-pdf.generator.ts:40 | exactly the first comma changes |
| PdfKit.FmtNum | src/infrastructure/reports/reports-pdf.generator.ts:38-43 | "-" iff null, undefined or ""; a number is fixed to the places; a string is parsed after its first comma becomes a point, and kept raw when it is no finite number |
| PdfKit.StatusColor | src/infrastructure/reports/reports-pdf.generator.ts:55-61 | success iff aprovado/concluído; danger iff not those and reprovado/falta; warning iff only pendente/andamento; text colour otherwise |
| PdfKit.StatusOrderDiffers | src/infrastructure/reports/reports-pdf.generator.ts:57-59 | a status with "pendente" and "falta" is pending in the HTML report but danger here |
| PdfKit.StatusColorMatchesClass | src/infrastructure/reports/reports-pdf.generator.ts:55-61 | where the test order does not matter, the colour is the HTML class's colour |
| PdfKit.ConceptColor | src/infrastructure/reports/reports-pdf.generator.ts:63-70 | each colour iff the upper-cased concept is in the matching list, and the default text colour iff it is in none of them |
| PdfKit.ConceptColorMatchesClass | src/infrastructure/reports/reports-pdf.generator.ts:63-70 | the concept colour is the colour of the HTML concept class, for every concept |
| PdfKit.NoteColor | src/infrastructure/reports/reports-pdf.generator.ts:72-79 | NaN (a "-" cell) takes the text colour |
| PdfKit.NoteColorMatchesClass | src/infrastructure/reports/reports-pdf.generator.ts:72-79 | the colour of `Number(nota)` is the colour of the HTML grade class: same thresholds 9, 7, 5, 0, and null or undefined get the text colour in both |
| PdfKit.Values | src/infrastructure/reports/reports-pdf.generator.ts:176-186 | nine cell values in header order |
| PdfKit.EveryCellCentred | src/infrastructure/reports/reports-pdf.generator.ts:213 | `String(i)` never names a column, so every cell is centred |
| PdfKit.AlignOf | src/infrastructure/reports/reports-pdf.generator.ts:213 | the alignment test on `String(i)`; `EveryCellCentred` proves it always centre |
| PdfKit.CellFor | src/infrastructure/reports/reports-pdf.generator.ts:189-214 | every cell centred and drawn with its value; the grade cell is regular iff it reads "-" and its colour is left open; concept and status cells bold, the status cell coloured by `StatusColor` and the concept cell by `ConceptColor` of the cell text; other cells regular in the text colour |
| PdfKit.DrawCells | src/infrastructure/reports/reports-pdf.generator.ts:189-217 | one cell per value, each drawn by the per-column rules |
| PdfKit.GenerateReportPdf | src/infrastructure/reports/reports-pdf.generator.ts:104-220 | error "Nenhum dado encontrado para PDF." iff the result is empty; otherwise one drawn row per result row, in order |
| PdfKit.Background | src/infrastructure/reports/reports-pdf.generator.ts:167 | `idx % 2 === 0 ? rowOdd : rowEven`; `BackgroundAlternates` states the alternation |
| PdfKit.BackgroundAlternates | src/infrastructure/reports/reports-pdf.generator.ts:167 | consecutive rows alternate backgrounds; row 0 gets rowOdd |
| PdfKit.GradeCellBoldUnlessDash | src/infrastructure/reports/reports-pdf.generator.ts:201-205 | the grade cell is bold iff its text is not "-"; a null grade is regular |
| Postgres.Postgres.Init | src/infrastructure/postgres/Postgres.ts:6-19 | creates a pool (max 10, idle 30000 ms) only when none is held; otherwise returns the same pool |
| Postgres.Postgres.GetPool | src/infrastructure/postgres/Postgres.ts:21-24 | the held pool, or "Postgres pool not initialized" iff none |
| Postgres.Postgres.End | src/infrastructure/postgres/Postgres.ts:31-36 | closes and clears a held pool, so `getPool` fails; no pool is a no-op |
| Postgres.ReinitAfterEnd | src/infrastructure/postgres/Postgres.ts:6-36 | `init` after `end` gives a new pool, not the closed one |

## Left out

- Database, queue and object-store I/O are not modelled. Tables are values in classes; SQL execution and row mapping are not modelled. The models are the query text and parameters, and the state each statement leaves.
- The report worker and the queue module are not part of this model. Enqueueing appends to a job list whose failure is an input (`accepting`).
- Presigning is not modelled. `getDownloadUrl` returns the presign request (key, TTL 300, name) rather than a URL.
- The `total` of the listing queries and the row mapping (`Number.parseFloat` of horas and nota) are not modelled; they come from executing the SQL.
- `UserRepository.list` is left out: it is fixed SQL with no logic. The Aluno and Professor repositories are left out for the same reason.
- TurmaRepository has no `findById`, although TurmaService calls it. TurmaService's lookup result is therefore an input.
- Ids are inputs. `randomUUID` is a parameter of user creation, and the database's request ids are a counter of the store.
- Password hashing (`hashPassword`, scrypt) is left out; the hash is a parameter.
- Logging is left out.
- UserService.Service.Create, UserService.Service.Update, Postgres.Postgres.End: each asynchronous operation is one atomic step, so calls never interleave at an `await`. In the source, two concurrent creates with the same e-mail can both pass the `findByEmail` check and both insert (UserService.ts:37-42), and the same gap lies between `update`'s conflict check and its UPDATE. `pool.end()` is taken never to fail and to finish before anything else runs. In the source, a `getPool` or `init` during that wait sees the closing pool, and a rejected `end()` leaves the pool field set.
- Dates (`toLocaleString`, created_at, updated_at) are left out.
- The HTTP layer is left out (controllers, routes, middleware, app and server).
- Floating point is not modelled. `toFixed` is kept as the value and the number of places. JavaScript `Number` is a parameter that answers a real or nothing. Grades are reals or NaN; infinities are not modelled. In the HTML report, what `Number` makes of a string grade is carried with the row (`PdfHtml.Grade`).
- Case mapping is modelled for ASCII letters and the one-to-one Latin-1 letter pairs (U+00C0–U+00DE with U+00E0–U+00FE, except × and ÷), which includes "ó" and "í". JavaScript's special mappings are not modelled: "ß" upper-cases to "SS", "µ" to "Μ" and "ÿ" to "Ÿ" there, but the model leaves all three unchanged; the case rules of other Unicode blocks are not modelled either. String lengths count characters, not UTF-16 code units.
- Page numbers and sizes are integers. The controllers take them as `Number(req.query.page)` and `Number(req.query.pageSize)`; NaN (a non-numeric query value) and fractional values are not modelled.
- SQL text is modelled with its whitespace collapsed: the multi-line query strings of ParticipacaoRepository and AtividadeRepository and the user UPDATE of UserRepository are kept with each run of spaces and newlines written as one space. The clauses, their order and the `$n` placeholders are kept exactly.
- `String(...)` of non-string values is not modelled. Text columns are strings or null. The columns tested for truthiness or read as numbers (`presenca`, `horas`, `nota`) are JavaScript values.
- Page geometry is left out: column widths, page breaks, header drawing, font sizes and the HTML text outside the table.
- The xlsx generators are left out; they are thin wrappers over the spreadsheet library.
- `convertHTMLToPDF` is left out; it only wraps the HTML text into a buffer.
- `ping` is left out: it is one database round trip.
- The Postgres connection settings read from the environment are left out. Only the fixed pool limits are kept.
- PdfKit.GenerateReportPdf: the grade cell's colour is left open (None). It is `getNoteColor` of the `toFixed` text, whose value depends on floating-point rounding. The shared thresholds are proved in PdfKit.NoteColorMatchesClass.
- PdfKit.NoteColor: its own contract states only the NaN case. Its thresholds are stated through PdfKit.NoteColorMatchesClass.
- PdfHtml.GroupRows: two students whose `${aluno_id}-${aluno}` keys coincide share a group, as in the source. The model does not prove that keys are distinct per student.
- UserRepository.Repository.Create: a duplicate id is the database's primary-key error. The schema is not part of this model, so the model's table has no e-mail uniqueness constraint: a second row with the same stored e-mail is accepted (see UserService.CreateConflictIsCaseSensitive).
- UserService.UpdateStoresNormalized: it assumes the password hash is not blank, which the hashing function guarantees.
- ReportsRepository.FileRefOf: the model reads relatorios_gerados in insertion order and returns the earliest row of the request. The SELECT has no ORDER BY, so with several rows for a request the program may return any of them; `ReportsRepository.Answers` states that set and `ReportsRepository.RecordAgainAnswers` what a second insert does to it. `GetFileKeyBySolicitacaoId` and `GetDownloadUrl` inherit the pick, and no lemma claims that a particular row answers once a request has several.
- ReportsRepository.Store.ValidateTurmaExists: the count is a number here; the `parseInt` of the driver's text is not modelled.
