# Employee intake: the add-employee form and the uniqueness-gated insert

This project models the two places where an employee record is accepted.

The first is the client's add-employee form (`frontend/src/App.jsx`). It holds seven text fields, a
success message, an error message and a map of validation errors. Three handlers change it:

- a keystroke normalises the edited field: digits only for the id and the phone, letters and white
  space only for the name, and a phone edit with more than ten digits is dropped;
- submit checks four fields (id, e-mail, phone, date of joining), collects every failure, and posts
  the form only when none failed;
- reset returns the form to its empty state.

The second is the server's `POST /employee` handler (`backend/server.js`). It refuses a record whose
id or e-mail already appears in the `employees` table. Otherwise it inserts the record as it came.

Modules:

- `Text` holds the regular-expression character classes, the `replace(/[^…]/g, '')` filter (`Keep`)
  and JavaScript's string `<` (`StrLess`).
- `EmailSyntax` holds the e-mail regular expression. `MatchesPattern` states its language as a
  split; `IsValidEmail` decides it by scanning. The two are proved equal.
- `IsoDates` proves that for `yyyy-mm-dd` dates the string order the form uses is calendar order.
- `EmployeeForm` holds the form data, the per-field rules, and the class `AddEmployeeForm` with the
  three handlers.
- `EmployeeServer` holds the table class `EmployeeTable`, its existence query and the handler.

The current date, the outcome of the HTTP post, and whether the database query or insert fails are
all parameters. The handler checks no field's format, and any insert failure, a duplicate key
included, answers "Failed to add employee" (backend/server.js:37-38).

## Model

| member | source | states |
|---|---|---|
| `Text.Keep` | frontend/src/App.jsx:23 | the filtered value holds only characters of the kept class and is no longer than the input |
| `Text.KeepIsSubsequence` | frontend/src/App.jsx:22-35 | the filtered value is an order-preserving subsequence of the input |
| `Text.KeepCounts` | frontend/src/App.jsx:22-35 | the filter removes exactly the characters outside the class: each kept character occurs as often as in the input, every other character not at all |
| `Text.KeepAppend` | frontend/src/App.jsx:23 | filtering a concatenation is concatenating the filtered pieces |
| `Text.KeepClean` | frontend/src/App.jsx:23 | a value already inside the class passes the filter unchanged |
| `Text.KeepIdempotent` | frontend/src/App.jsx:23 | filtering twice equals filtering once |
| `Text.StrLessIrreflexive` | frontend/src/App.jsx:64 | no string is greater than itself, so a date equal to today is not "in the future" |
| `Text.StrLessConcat` | frontend/src/App.jsx:64 | when the first parts have equal length, the string order compares them first, and the remainders only when the first parts are equal |
| `EmailSyntax.SplitIsFound` | frontend/src/App.jsx:42-45 | every split of the regular language is the one the scanner finds, so the scanner accepts |
| `EmailSyntax.IsValidEmailIsPattern` | frontend/src/App.jsx:42-45 | `isValidEmail` accepts exactly the strings of `^[a-zA-Z0-9._%+-]+@[a-zA-Z0-9.-]+\.[a-zA-Z]{2,}$` (both directions) |
| `EmailSyntax.ValidEmailShape` | frontend/src/App.jsx:42-45 | an accepted address contains exactly one `@` and ends with a `.` followed by two or more letters |
| `EmailSyntax.AcceptedExample` | frontend/src/App.jsx:42-45 | `ada@example.com` is accepted |
| `EmailSyntax.RejectsMissingAt` | frontend/src/App.jsx:42-45 | `not-an-email` is rejected |
| `EmailSyntax.RejectsEmptyLocalPart` | frontend/src/App.jsx:42-45 | `@example.com` is rejected |
| `EmailSyntax.RejectsShortTopLevel` | frontend/src/App.jsx:42-45 | `ada@example.c` is rejected |
| `IsoDates.StrLessDigits` | frontend/src/App.jsx:64 | for digit strings of equal length, string order equals numeric order |
| `IsoDates.IsoDateOrder` | frontend/src/App.jsx:64 | for two `yyyy-mm-dd` dates, the string `<` holds exactly when the first date's yyyymmdd number is smaller |
| `IsoDates.DateOrderExample` | frontend/src/App.jsx:64 | `2023-12-31` orders before `2024-01-01`, and a date does not order before itself |
| `EmployeeForm.FormData.Set` | frontend/src/App.jsx:40 | `{ ...formData, [name]: value }` gives the named field the value and leaves the other six fields as they were |
| `EmployeeForm.ApplyEdit` | frontend/src/App.jsx:20-41 | a keystroke changes only the named field, either to its normalised value or not at all |
| `EmployeeForm.VerbatimFields` | frontend/src/App.jsx:40 | an edit to e-mail, department, date of joining or role stores the input exactly as typed |
| `EmployeeForm.OnlyPhoneDropped` | frontend/src/App.jsx:32-37 | an edit is dropped exactly when it is a phone edit with more than ten digits |
| `EmployeeForm.EmptyFormReachable` | frontend/src/App.jsx:6-14 | the initial all-empty form satisfies the keystroke invariant |
| `EmployeeForm.EditPreservesReachable` | frontend/src/App.jsx:20-41 | every keystroke keeps the id and phone digit-only, the phone at most ten characters, and the name letters and white space only |
| `EmployeeForm.EmployeeIdEdit` | frontend/src/App.jsx:22-25 | after an id keystroke, the id is the input with every non-digit removed: digits only, in input order, each digit kept as often as it occurs |
| `EmployeeForm.NameEdit` | frontend/src/App.jsx:27-30 | after a name keystroke, the name holds only letters and white space, in input order, each such character kept |
| `EmployeeForm.PhoneEdit` | frontend/src/App.jsx:32-37 | a phone keystroke with more than ten digits leaves the whole form unchanged (no truncation); otherwise the phone becomes the digits |
| `EmployeeForm.FiltersIdempotent` | frontend/src/App.jsx:23-35 | on a reachable form, typing the stored id, name or phone again stores the same form |
| `EmployeeForm.CollectErrors` | frontend/src/App.jsx:52-66 | the error map has a key exactly for each failing field, with that field's message; every check runs |
| `EmployeeForm.ChecksArePerField` | frontend/src/App.jsx:52-66 | a field's check depends on that field only |
| `EmployeeForm.UncheckedFields` | frontend/src/App.jsx:52-66 | name, department and role never get an error |
| `EmployeeForm.IdCheckOnReachable` | frontend/src/App.jsx:53-55 | on any form reachable by keystrokes, the id error appears exactly when the id is empty |
| `EmployeeForm.EmailCheck` | frontend/src/App.jsx:57-59 | the e-mail error appears exactly when the address is outside the regular language |
| `EmployeeForm.PhoneBoundary` | frontend/src/App.jsx:61-63 | nine or eleven phone characters give an error; ten do not |
| `EmployeeForm.DateCheck` | frontend/src/App.jsx:64-66 | a date equal to today passes; for well-formed dates, the error appears exactly when the date is later than today |
| `EmployeeForm.FiveDigitYearPasses` | frontend/src/App.jsx:64-66 | a joining date in year 10000 passes the date check when today is 2024-01-10, because the string comparison puts it before today |
| `EmployeeForm.CompleteRecordPasses` | frontend/src/App.jsx:52-71 | the record 101 / Ada Lovelace / ada@example.com / 9876543210 / Engineering / 2024-01-10 / Engineer passes every check when today is 2024-01-10 |
| `EmployeeForm.BadEmailFailsAlone` | frontend/src/App.jsx:52-66 | on a form that passes every check, replacing the e-mail with `not-an-email` makes the e-mail check fail and no other |
| `EmployeeForm.FutureDateFailsAlone` | frontend/src/App.jsx:52-66 | on a form that passes every check, any joining date after today makes the date check fail and no other |
| `EmployeeForm.FailingScenarios` | frontend/src/App.jsx:52-66 | the complete record above with `not-an-email`, or joining on 2024-01-11, fails that one field only |
| `EmployeeForm.FailureText` | frontend/src/App.jsx:86 | the error shown is the server's message when it is present and non-empty, and "Something went wrong!" otherwise |
| `EmployeeForm.AddEmployeeForm.constructor` | frontend/src/App.jsx:6-18 | the form starts empty, with no messages and no errors |
| `EmployeeForm.AddEmployeeForm.HandleChange` | frontend/src/App.jsx:20-41 | the form data becomes the edited data, the messages and errors are untouched, and the keystroke invariant is kept |
| `EmployeeForm.AddEmployeeForm.HandleSubmit` | frontend/src/App.jsx:46-88 | nothing is posted exactly when some field fails; then the form is unchanged, both messages are empty and the errors are exactly the failing fields. Otherwise the unchanged form is posted and the errors are empty; a success shows the server's message and empties the form, a failure shows the failure text and keeps the form |
| `EmployeeForm.AddEmployeeForm.HandleReset` | frontend/src/App.jsx:90-103 | every field, both messages and the errors are emptied. The new state does not depend on the old one, so reset is idempotent, and its form data equals the data after a successful post |
| `EmployeeServer.ResponsesDistinct` | backend/server.js:30-39 | the four responses are pairwise different |
| `EmployeeServer.Matching` | backend/server.js:28-29 | the existence query returns only rows of the table that match the id or the e-mail; it returns nothing exactly when no row matches |
| `EmployeeServer.InsertKeepsDistinct` | backend/server.js:28-39 | inserting a record that no row conflicts with keeps ids and e-mails pairwise distinct |
| `EmployeeServer.FindById` | backend/server.js:37 | a lookup by id returns a stored row with that id, and returns nothing exactly when no row has that id |
| `EmployeeServer.FindInserted` | backend/server.js:35-39 | a record inserted after the check passed is what a lookup by its id returns, with every field as submitted |
| `EmployeeServer.FindStored` | backend/server.js:28-39 | when ids are distinct, a lookup by a stored row's id returns that row |
| `EmployeeServer.EmployeeTable.Select` | backend/server.js:28-29 | the query's result is the matching rows of the table, in table order |
| `EmployeeServer.EmployeeTable.PostEmployee` | backend/server.js:26-42 | exactly one of four responses is produced. A failed query gives 500 "Database error"; a match gives 400 "already exists"; a failed insert gives 500 "Failed to add employee". In these three cases the table is unchanged. Otherwise the table gains exactly the submitted record and the response is "Employee added successfully!". Distinct ids and e-mails stay distinct. |
| `EmployeeServer.IntakeScenario` | backend/server.js:26-42 | on an empty table, a record is added; the same id with another e-mail is refused; a record with a malformed e-mail and an empty name is added as it is |

## Left out

- Rendering, styling and the browser-side input constraints: the `required` and `max` attributes, `type="email"` (the browser's own address check, which blocks submit and trims the value) and `type="date"` (which yields `""` or a date whose year has four or more digits; for a five-digit year the string comparison at frontend/src/App.jsx:64 gets the order wrong, as `FiveDigitYearPasses` shows, and only `max` blocks such a date). These act before the handlers run and are not handler code, so the model accepts any string in every field.
- The HTTP transport: the axios post is replaced by a `PostResult` parameter. The server's reply is not connected to it, and a network error is a failure without a server message.
- The clock: `today` is a parameter. The model does not compute it from `new Date().toISOString()`.
- Express, cors, body-parser, the MySQL connection and the process exit when it fails: these are process wiring and I/O.
- Storage failures are boolean parameters of `PostEmployee`, not a model of the database. A failed insert is taken to write nothing.
- `EmployeeForm.Fails`: JavaScript's `isNaN` is taken as "not all ASCII digits". The two differ on strings such as `" 12"` or `"1e3"`, but those never reach the id field, because it keeps only digits (`IdCheckOnReachable`).
- `Text.StrLess`: this compares Unicode scalar values, while JavaScript compares UTF-16 code units. The two orders differ only for characters beyond U+FFFF, and ISO dates contain none.
- `EmployeeServer.Conflicts`: this is exact string equality. MySQL collation (for example, case-insensitive e-mails) and the coercion of `employee_id` to an integer column are not modelled. Request fields are taken as strings.
- EmployeeForm.AddEmployeeForm.HandleSubmit: the awaited post is one atomic step. Keystrokes or a reset that run while the post is in flight are not modelled. In the source, a later success empties such edits, and a later failure sets the error message after a reset.
- Concurrency: two requests racing between the check and the insert are not modelled. Requests are handled one at a time.
- `EmployeeServer.FindById` is a reading of the table by id used to state the round trip. The handler itself has no lookup operation.
