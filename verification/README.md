# Primo task tracker: store and assistant post-processing in Dafny

This project models the core of the Primo personal task tracker. Users register and sign in, then create, list, read, update and delete their own tasks. An optional language-model assistant suggests task names, expands descriptions and breaks tasks into subtasks. The model has three parts.

* **Records and validation** (`models.dfy`, module `Models`). This part covers the `TaskStatus` and `TaskPriority` enumerations with their string values. It also holds the `TaskCreate` and `TaskUpdate` input records, which are subset types carrying their length bounds (title 1..200, description at most 1000), and the `Task` and `User` records. `MakeTaskCreate` and `MakeTaskUpdate` model construction with validation: an omitted field takes its default, and `None` as result stands for a raised validation error.
* **The SQLite store** (`database.dfy`, class `Database.SQLiteDatabase`). The store holds two tables, plus the AUTOINCREMENT counter `nextId`:
  * `users`: a map from user id to (email, password hash, created_at);
  * `tasks`: a map from task id to `Task`.

  The meaning of each SQL statement on these tables is written as functions in `tables.dfy` (module `Tables`). The class invariant `Valid()` has four parts: the counter is at least 1, emails are unique, every task id is below `nextId` and equals its key, and every stored row satisfies the title and description bounds. Password hashing (`passwords.dfy`) is `salt + kdf(password, salt)`. The key-derivation function is a parameter, and the 32-character salt is a subset type.
* **Assistant post-processing** (`text.dfy`, `ai_service.dfy`). `Text` models Python's `str.strip()`, `str.strip(chars)`, `str.split('\n')` and `'\n'.join`. `AiService` models how the reply text is cleaned into at most 5 names (each at most 100 characters) or at most 7 subtasks (each at most 80 characters). It also models how an expanded description is cut to 250 characters. The reply is an input of type `Reply`, which is one of three cases:
  * no client configured;
  * the call raised;
  * the content string.

Collaborators that are not modelled become parameters:
* the generated user id, the salt, SQLite's `CURRENT_TIMESTAMP` (`now` / `createdAt`) and the application clock (`clock`, used for the `created_at` that `sign_up` returns);
* the key-derivation function `kdf`;
* the language model's reply.

Dates and timestamps are stored as values, so the ISO formatting and parsing done on the way in and out is the identity here.

The model keeps these behaviours of the code:
* `sign_up` maps every integrity error to "Email already exists". That includes a collision of the randomly generated user id, so the model reports that case the same way.
* The tasks table declares a foreign key to users, but SQLite does not enforce it unless foreign keys are switched on, which the code never does. So `CreateTask` accepts any owner id.
* `update_task` cannot clear a description or a due date, because a missing field means "leave unchanged". Nothing promises that `updated_at` strictly increases, since `CURRENT_TIMESTAMP` has one-second resolution. The model claims only that it equals the statement's time.
* `strip('1234567890. ')` works at both ends of a line. So digits, dots and spaces at the end of a suggestion are removed too, and `CleanLine` models exactly that (`AiService.TrailingNumberStripped` works one line through).

## Model

| member | source | states |
|---|---|---|
| `Models.ParseStatus` | models.py:6-9 | a status value parses exactly when it is one of "todo", "in_progress", "completed", and the member it gives has that value |
| `Models.ParsePriority` | models.py:11-15 | a priority value parses exactly when it is one of "low", "medium", "high", "urgent", and the member it gives has that value |
| `Models.StatusLabelRoundTrip` | models.py:6-9 | every status parses back from its value; distinct statuses have distinct values |
| `Models.PriorityLabelRoundTrip` | models.py:11-15 | every priority parses back from its value; distinct priorities have distinct values |
| `Models.MakeTaskCreate` | models.py:25-30 | construction succeeds iff 1 <= len(title) <= 200 and the description is absent or at most 1000 long; title, description and due date are kept; priority is the given one or MEDIUM, status the given one or TODO |
| `Models.TaskCreateDefaults` | models.py:28-30 | omitted fields default to no description, no due date, MEDIUM and TODO; an omitted priority is MEDIUM and an omitted status TODO whatever other fields are given |
| `Models.MakeTaskUpdate` | models.py:32-37 | every field is optional; construction succeeds iff a present title has length 1..200 and a present description is at most 1000 long |
| `Passwords.HashPassword` | database.py:53-57 | no contract; defined as the salt followed by `kdf(password, salt)`; its layout is `Passwords.HashLayout` |
| `Passwords.VerifyPassword` | database.py:59-64 | no contract; defined as cutting the stored hash at 32 characters (or its length) and comparing `kdf(password, salt)` with the rest; its meaning is `Passwords.HashThenVerify` and `Passwords.VerifyOtherPassword` |
| `Passwords.HashLayout` | database.py:53-57 | the stored hash is the salt (first 32 characters) followed by the digest |
| `Passwords.HashThenVerify` | database.py:59-64 | a password verifies against a hash made from it, for any salt and any key-derivation function |
| `Passwords.VerifyOtherPassword` | database.py:59-64 | another password verifies against that hash exactly when it yields the same digest under the stored salt |
| `Tables.Authenticate` | database.py:99-125 | sign-in succeeds iff some user has that email and the password verifies against that user's hash; the result is that user's id, email and created_at; every failure is "Invalid email or password" |
| `Tables.LoginErrorIsUniform` | database.py:110-114 | an unknown email and a wrong password give the identical error |
| `Tables.RegisterKeepsEmailsUnique` | database.py:18-23 | adding a user whose email is not present keeps emails unique |
| `Tables.SignUpThenSignIn` | test_registration.py:33-45 | after registering a new email and id, signing in with the same password returns that user |
| `Tables.ApplyUpdate` | database.py:237-258 | supplied fields take their new values, omitted ones keep the old; id, owner and created_at never change; updated_at is the statement time; a row within the bounds stays within them |
| `Tables.EmptyUpdateOnlyTouches` | database.py:257-258 | an update with no fields changes only updated_at |
| `Tables.UpdateIdempotent` | database.py:262-266 | repeating an update at the same time changes nothing further |
| `Tables.UpdatesCompose` | database.py:262-266 | two successive updates equal one update where the later supplied fields win |
| `Tables.SetClause` | database.py:234-258 | no contract; defined as one `column = ?` item per supplied field, in the order title, description, due_date, priority, status, then `updated_at`; its content is `Tables.SetClauseItems` |
| `Database.BuildSetClause` | database.py:234-258 | the list built field by field with conditional appends is exactly `Tables.SetClause` of the update |
| `Tables.SetClauseItems` | database.py:234-258 | the SET clause holds an item for a field exactly when the update supplies it, with the supplied value, and ends with the `updated_at` item |
| `Tables.AssignAll` | database.py:262-266 | no contract; defined as executing the SET items from left to right; its partners are `Tables.AssignAllAppend` and `Tables.SetClauseMeansApplyUpdate` |
| `Tables.SetClauseMeansApplyUpdate` | database.py:234-266 | running the SET clause built from the supplied fields plus `updated_at` gives exactly the row `ApplyUpdate` describes |
| `Tables.UpdateIsolation` | database.py:262-266 | updating a row owned by one user leaves every other user's rows unchanged |
| `Tables.DeleteIsolation` | database.py:287-291 | deleting a row owned by one user leaves every other user's rows unchanged |
| `Tables.OnlyOwnerSees` | database.py:212-215 | a row matches (id, user) only for its owner, and it is among its owner's rows and no one else's |
| `Tables.InsertNewestFirst` | database.py:184-186 | placing a row into a newest-first listing keeps it newest-first and adds exactly that row |
| `Database.SQLiteDatabase.constructor` | database.py:10-49 | a new database has empty users and tasks tables and the counter at 1 |
| `Database.SQLiteDatabase.SignUp` | database.py:71-97 | fails with "Email already exists" exactly when the email or the generated id is present, leaving users unchanged; otherwise adds exactly one row holding the salted hash and returns id, email and the clock time; tasks untouched |
| `Database.SQLiteDatabase.SignIn` | database.py:99-125 | returns exactly what `Tables.Authenticate` prescribes for the current users table |
| `Database.SQLiteDatabase.GetUserById` | database.py:129-142 | returns id, email and created_at (a `User`, which has no hash field) iff the id is present, none otherwise |
| `Database.SQLiteDatabase.CreateTask` | database.py:148-175 | inserts one row under the counter's value, an id absent before and larger than every existing id (so a deleted id is never issued again), holding the given fields and owner with created_at = updated_at; returns that row; nothing else changes |
| `Database.SQLiteDatabase.GetTasks` | database.py:179-202 | returns each row owned by the user exactly once (as a multiset), ordered by created_at descending |
| `Database.SQLiteDatabase.GetTask` | database.py:207-225 | returns the row iff both id and owner match; a wrong owner looks like an absent task |
| `Database.SQLiteDatabase.UpdateTask` | database.py:230-282 | on the row matching id and owner, writes exactly `ApplyUpdate` and returns the new row; otherwise "Task not found" and no change; other users' rows never change |
| `Database.SQLiteDatabase.DeleteTask` | database.py:284-299 | succeeds iff a row matched id and owner; then exactly that row is gone; otherwise "Task not found" and no change; other users' rows never change |
| `Text.LeadingRun` | ai_service.py:96 | the characters a strip removes at the front are all in the strip set, and the first remaining one is not |
| `Text.TrailingRun` | ai_service.py:96 | the characters a strip removes at the back are all in the strip set, and the last remaining one is not |
| `Text.StripWith` | ai_service.py:96 | a stripped string neither starts nor ends with a character of the strip set, and is no longer than the input |
| `Text.StripWithRemovesEnds` | ai_service.py:96 | the stripped string is the contiguous piece of the input after the leading run, and every character before and after it is in the strip set; with `Text.StripWith` this fixes the result |
| `Text.StripWithExact` | ai_service.py:96 | conversely, a text whose ends are not in the strip set, with only strip-set characters around it, strips to exactly that text |
| `Text.StripWithUnchanged` | ai_service.py:96 | a text whose ends are not in the strip set is left unchanged |
| `Text.StripIdempotent` | ai_service.py:96 | stripping twice is the same as stripping once |
| `Text.Split` | ai_service.py:89 | splitting yields at least one piece and no piece contains the separator |
| `Text.JoinSplit` | ai_service.py:89 | joining the pieces of a split with the separator gives back the original text |
| `AiService.NonBlank` | ai_service.py:90 | the kept lines are stripped and non-empty, and there are no more of them than input lines |
| `AiService.NonBlankAppend` | ai_service.py:90 | the filter works line by line: the list of a concatenation is the concatenation of the lists |
| `AiService.NonBlankKeeps` | ai_service.py:90 | a line that is not blank, between any lines `before` and `after`, is kept as its stripped form, after the lines kept from `before` and ahead of those kept from `after` |
| `AiService.ReplyLines` | ai_service.py:89-90 | every line taken from the reply is non-empty and has no surrounding whitespace |
| `AiService.CleanLine` | ai_service.py:96 | no contract; defined as stripping `- `, then `1234567890. `, then whitespace, each from both ends |
| `AiService.TrailingNumberStripped` | ai_service.py:96 | cleaning `2. Go 10` gives `Go`: the number at the end goes with the numbering at the start |
| `AiService.Cleaned` | ai_service.py:93-96 | one cleaned line per input line, at the same position |
| `AiService.Filtered` | ai_service.py:97-98 | the filter keeps no more strings than it is given; its meaning is `AiService.FilteredSources`, `AiService.FilteredKeeps` and `AiService.FilteredBounded` |
| `AiService.Kept` | ai_service.py:93-98 | what the cleaning loop keeps is no longer than its input; its meaning is `AiService.KeptInLineOrder` and `AiService.KeptPresentable` |
| `AiService.BlankLinesVanish` | ai_service.py:90 | a blank line anywhere in the reply contributes nothing, so blank lines are dropped before the cap is applied |
| `AiService.FilteredSources` | ai_service.py:93-98 | each kept string is a cleaned line, at strictly increasing positions; with `AiService.FilteredKeeps`, every passing position is among them |
| `AiService.FilteredKeeps` | ai_service.py:97-98 | every non-empty cleaned line of at most `maxLength` characters is kept: its position is among the sources and the string is in the result |
| `AiService.FilteredBounded` | ai_service.py:97 | every kept string comes from the cleaned lines and is non-empty and within the length limit |
| `AiService.KeptPresentable` | ai_service.py:96-98 | every kept string is non-empty, within the length limit and has no leading or trailing whitespace |
| `AiService.KeptInLineOrder` | ai_service.py:93-98 | the kept strings are the cleaned forms of source lines taken in their original order, and every line whose cleaned form is non-empty and within the limit is among them |
| `AiService.CleanLines` | ai_service.py:93-98 | the loop returns exactly the kept cleaned forms of the first `limit` lines, so at most `limit` strings |
| `AiService.SuggestTaskNames` | ai_service.py:34-104 | with no client or a failed call returns []; otherwise at most 5 names, each non-empty, at most 100 characters and stripped, taken from the first 5 non-blank lines in order |
| `AiService.SuggestTaskBreakdown` | ai_service.py:157-211 | with no client or a failed call returns []; otherwise at most 7 subtasks, each non-empty, at most 80 characters and stripped, from the first 7 non-blank lines in order |
| `AiService.Truncate` | ai_service.py:147-149 | the result is at most 250 long; it equals the input iff the input is at most 250 long; otherwise it is the first 247 characters followed by "..." |
| `AiService.ExpandTaskDescription` | ai_service.py:106-155 | with no client or a failed call returns the brief description unchanged; otherwise `Truncate` of the stripped reply: unchanged when at most 250 characters, else its first 247 characters followed by `...` |

## Left out

- The `except Exception` paths of every store operation (I/O failures surfaced as `str(e)`, or `None`/`[]` after printing) are not modelled; SQLite never fails in the model.
- Reopening an existing database file (`CREATE TABLE IF NOT EXISTS` keeping old rows) is not modelled; the constructor starts from empty tables.
- PBKDF2-HMAC-SHA256, `secrets.token_hex`, `secrets.token_urlsafe`, `CURRENT_TIMESTAMP` and `datetime.now()` are parameters; the hex encoding and the 100000 iterations are inside the abstract `kdf`.
- ISO date and timestamp formatting and parsing (`isoformat`, `fromisoformat`) are the identity on the stored values.
- The order of rows with equal `created_at` in `get_tasks` is left unspecified, as SQLite leaves it.
- Pydantic's validation error messages are not modelled; a failed validation is `None`.
- The OpenAI request itself (prompts, model name, temperature, token limits, timeouts, the context string built from `existing_tasks`) and the module-level convenience wrappers are not modelled; the reply is an input.
- `test_connection`, the console printing, the FastAPI routes and templates, the Supabase client and the SSL bypass scripts are not part of this model.
