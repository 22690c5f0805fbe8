# Schema-maintenance scripts and user service, modelled in Dafny

This project models the logic of a web application's small data layer.
SQL sessions and statements are replaced by plain immutable data:

- the `users` table is a sequence of `User` rows;
- a table schema is a sequence of column names;
- the SQLite catalog is a map of named tables (columns with their NOT NULL flag, and rows) plus a map of named indexes.

Four pieces are modelled:

- **User service** (`AuthService`). `authenticate_user` looks a user up by exact email and compares the stored password with plain string equality. `create_user` refuses a known email and keeps `student_id` only for role `"student"` and `instructor_id` only for role `"teacher"`. It stores the password verbatim and appends the row. The INSERT's outcome is a parameter: the id the engine assigns, or an `IntegrityError` from a concurrent signup, which is rolled back.
- **Constraint-relaxing rebuild** (`FixExamStudentId`, over `SqlCatalog`). The script reads `PRAGMA table_info(exams)` and stops at the first `student_id` column. If there is none it stops; if its `notnull` flag is 0 it does nothing. Otherwise it runs these steps in order:
  1. drop the scratch table `exams_new`;
  2. create it with every column nullable;
  3. copy the rows through the parallel INSERT-column and SELECT-expression lists;
  4. drop `exams`;
  5. rename `exams_new` to `exams`;
  6. try the three index statements one by one, tolerating failures.
- **User field validator** (`VerifyUsers`). Each user goes through four checks in order: missing first name, missing last name, student without `student_id`, teacher without `instructor_id`. The checks use Python truthiness, so `None` and `""` both count as missing. The id columns are shown as `"N/A"` when blank.
- **Idempotent column adders** (`ColumnAdder`, `MigrateUsers`, `MigrateExamDifficulty`). Each migration column is checked against the schema as it currently stands and appended if absent. A failing statement is rolled back and the remaining columns are still tried. Which statements fail is a parameter.

Modules: `Common` (nullable values, `Blank`, `NoDups`, `IsPrefix`), `Models` (the `User` row, the unique-email invariant, email counting), then one module per script as listed above.

Facts the proofs bring out:

- The "No columns to copy" branch of the rebuild can never run: the INSERT list always holds at least the eleven new columns.
- A column outside both lists is silently lost by the rebuild. This includes the `exam_difficulty` column that `migrate_exam_difficulty` adds (`RebuildDropsExamDifficulty`).
- An id cell reads `"N/A"` exactly when the id is blank, or when the stored id is literally the text `"N/A"` (`IdCellShowsValue`).

## Model

| member | source | states |
|---|---|---|
| AuthService.FindByEmail | app/services/auth_service.py:6 | The lookup finds nothing exactly when no stored user has the email; otherwise it returns a stored user with that email. |
| AuthService.FindByEmailUnique | app/services/auth_service.py:6 | With unique emails, the lookup returns exactly the one stored user with that email. |
| AuthService.AuthenticateUser | app/services/auth_service.py:5-14 | Returns none when no user has the email. A user is returned only if stored, with that exact email and a password equal to the one given. Nothing else is returned, and the store is an input only. |
| AuthService.AuthenticateExact | app/services/auth_service.py:7-14 | With unique emails, authenticating a stored user's email returns that user when the passwords are equal and none when they differ. |
| AuthService.CreateUser | app/services/auth_service.py:16-57 | A user is created iff no stored user has the email and the insert succeeds. On refusal or integrity error the result is none and the store is unchanged. On success the store gains exactly the new row at the end, other rows unchanged. The row stores the password verbatim and both names. `student_id` is null unless the role is "student" and `instructor_id` is null unless the role is "teacher"; otherwise they are the given values. |
| AuthService.CreateKeepsEmailsUnique | app/services/auth_service.py:34-54 | `create_user` preserves email uniqueness. Afterwards exactly one user has the email, both after a success and after a refused duplicate. |
| AuthService.CreateThenAuthenticate | app/services/auth_service.py:5-54 | Round trip: after a successful `create_user(email, pw, ...)`, `authenticate_user(email, pw)` on the new store returns the created user, for every starting store (a successful create means no stored user had the email). |
| AuthService.CreateTwiceRefused | app/services/auth_service.py:35-37 | A second `create_user` with the same email returns none, leaves the store unchanged and leaves the email count at one. |
| VerifyUsers.UserIssues | app/db/verify_users.py:56-64 | A user gets each issue exactly when its condition holds: blank first name; blank last name; role "student" with blank `student_id`; role "teacher" with blank `instructor_id`. Issues follow check order and name that user. The list is empty iff the user passes, with at most three issues. |
| VerifyUsers.OtherRolesHaveNoIdIssue | app/db/verify_users.py:61-64 | A user whose role is neither "student" nor "teacher" only ever gets name issues. |
| VerifyUsers.Issues | app/db/verify_users.py:55-64 | The issue list has at most three entries per user. |
| VerifyUsers.IssuesEmptyIffAllPass | app/db/verify_users.py:55-71 | The issue list is empty iff every user passes all four checks. |
| VerifyUsers.IssuesFromUsers | app/db/verify_users.py:55-64 | Every reported issue is an issue of some listed user, and the lemma names that user. |
| VerifyUsers.IssuesOfUserReported | app/db/verify_users.py:55-64 | Every issue of a listed user is reported. |
| VerifyUsers.IssuesMembership | app/db/verify_users.py:55-64 | An issue is in the list iff it is an issue of some listed user. |
| VerifyUsers.IssuesDistribute | app/db/verify_users.py:56-64 | The issues of a concatenation of user lists are the issues of the first part followed by those of the second, so issues are ordered by user. |
| VerifyUsers.IdCellShowsValue | app/db/verify_users.py:34-35 | The id cell shows the stored id when it is not blank. It reads "N/A" iff the id is blank or literally "N/A". |
| VerifyUsers.VerifyUsersReport | app/db/verify_users.py:13-71 | An empty user list gives the "no users" outcome and no issue list. Otherwise there is one display row per user, in order. Each row's Student ID and Instructor ID cells are the user's id, or "N/A" when it is blank (`value or "N/A"`). The issue list is the per-user checks' issues in user order, and it is empty iff every user passes. |
| VerifyUsers.CreatedUserPasses | app/db/verify_users.py:56-64 | A user just created by `create_user` raises no issue iff both names are non-empty and the id its role requires was given non-blank. |
| ColumnAdder.AddColumnIfAbsentAppends | app/db/migrate_users.py:27-41 | One guarded add only appends, adds nothing but the named column, and leaves it present unless the statement failed. It keeps the schema duplicate-free. |
| ColumnAdder.AddColumnIfAbsentIdempotent | app/db/migrate_users.py:31-38 | After a successful add, repeating the guarded add changes nothing, whether or not the repeat would fail. |
| MigrateExamDifficulty.MigrateExamDifficulty | app/db/migrate_exam_difficulty.py:20-35 | Existing columns stay in place and only `exam_difficulty` can be added. It is present afterwards unless the add failed. The schema is unchanged if the column was already present or the add failed. |
| MigrateExamDifficulty.MigrateExamDifficultyAppends | app/db/migrate_exam_difficulty.py:28-32 | If the column is absent and the add succeeds, the schema becomes the old schema followed by `exam_difficulty`. |
| MigrateExamDifficulty.MigrateExamDifficultyIdempotent | app/db/migrate_exam_difficulty.py:20-32 | A second run after a successful one is a no-op. |
| MigrateUsers.MigrateUsersTable | app/db/migrate_users.py:18-41 | The result is the old schema followed by the migration columns that were absent and did not fail, in list order. A column is present afterwards iff it was present before or is listed and did not fail. The schema stays duplicate-free, and with no failures all four columns are present. |
| MigrateUsers.AddEachAppendsInOrder | app/db/migrate_users.py:25-38 | The loop, which checks each column against the schema left by the earlier ones, equals the reference: old schema followed by the missing, non-failing columns in order. |
| MigrateUsers.AddEachNoop | app/db/migrate_users.py:33-38 | A pass over columns that are each present or failing leaves the schema unchanged. |
| MigrateUsers.MigrateUsersIdempotent | app/db/migrate_users.py:25-38 | Re-running with the same failures changes nothing. After a run without failures, any re-run is a no-op. |
| MigrateUsers.FailureDoesNotStopLaterColumns | app/db/migrate_users.py:39-41 | A column whose add fails stays absent, and a later absent column that does not fail is still added. |
| FixExamStudentId.CandidateFacts | app/db/fix_exam_student_id.py:58-97 | The standard and new lists are duplicate-free and disjoint, and together they name exactly the columns of the new table. |
| FixExamStudentId.FindColumn | app/db/fix_exam_student_id.py:19-23 | The scan finds nothing iff no column has the name. Otherwise it returns a catalog column with that name. |
| FixExamStudentId.FindColumnFirst | app/db/fix_exam_student_id.py:20-23 | The scan returns the first column with the name (the `break`). |
| FixExamStudentId.Decide | app/db/fix_exam_student_id.py:19-34 | The decision is "missing" iff no column is named `student_id`. It is "already nullable" only with a `student_id` column whose notnull flag is 0, and "rebuild" only with one that is NOT NULL. |
| FixExamStudentId.DecideFollowsFlag | app/db/fix_exam_student_id.py:29-34 | With unique column names, the decision follows the `student_id` column's own notnull flag. |
| FixExamStudentId.NewSchemaNullable | app/db/fix_exam_student_id.py:58-81 | The new table's `student_id` is nullable, so the decision on it is "already nullable". |
| FixExamStudentId.PlanCopyShape | app/db/fix_exam_student_id.py:99-106 | The two lists stay parallel and each column is paired with its own expression: itself if the old table has it, NULL otherwise. A candidate is kept iff the old table has it or it is a new column. |
| FixExamStudentId.BuildCopyLists | app/db/fix_exam_student_id.py:90-109 | `columns_to_copy` is the old table's standard columns in order, followed by all eleven new columns. It is duplicate-free, never empty, and as long as `select_expressions`. Each expression is the column itself when the old table has it, else NULL, and NULL only for new columns. Old columns outside both lists are not copied. |
| FixExamStudentId.CopyRowValues | app/db/fix_exam_student_id.py:114-119 | The row the INSERT ... SELECT stores holds exactly the listed columns, the i-th with the i-th expression's value. |
| FixExamStudentId.CopiedRow | app/db/fix_exam_student_id.py:99-119 | A copied row holds the old value of every column the old table has, and NULL for a new column it lacked. It has no standard column the old table lacked and no column outside both lists. |
| FixExamStudentId.CopyRowsCarryOver | app/db/fix_exam_student_id.py:85-121 | The copied table has as many rows as the old one, row by row with the old values carried over as above. |
| FixExamStudentId.CreateIndexesEffect | app/db/fix_exam_student_id.py:136-149 | The index loop leaves all tables untouched and removes no index. Every statement that does not raise creates its index, and a name already taken keeps its old index. |
| FixExamStudentId.RebuildTables | app/db/fix_exam_student_id.py:45-149 | After the step sequence, `exams` is the new table holding the copied rows and `exams_new` is gone. Every other table is unchanged, and each index that did not fail exists. |
| FixExamStudentId.FixStudentIdNullable | app/db/fix_exam_student_id.py:6-34 | "Not found" iff `exams` has no `student_id` column, counting a missing table as no columns. "No change" only for a nullable `student_id`. In both cases the catalog is unchanged. A rebuild happens only for a NOT NULL `student_id`. |
| FixExamStudentId.RebuildGuarantees | app/db/fix_exam_student_id.py:45-149 | After a rebuild: `exams` exists with the new schema and a nullable `student_id`, and `exams_new` does not exist. Row count and copied values are kept row by row, and other tables are untouched. A failing index statement neither stops the later ones nor undoes the rebuild. |
| FixExamStudentId.FixStudentIdNullableIdempotent | app/db/fix_exam_student_id.py:29-34 | A second run after any first run changes nothing and does not rebuild again. |
| FixExamStudentId.RebuildDropsExamDifficulty | app/db/fix_exam_student_id.py:58-106 | After a rebuild, no column of `exams` is `exam_difficulty` and no row carries it, even if the old table had it. |

## Left out

- Session handling is not modelled: `SessionLocal`, commit, rollback, close and the `text(...)` SQL strings. A rollback is modelled as "the state is as before the statement".
- Console output is not modelled: `print`, the `tabulate` rendering and `traceback`. `VerifyUsers.Message` gives each issue's text but carries no contract.
- `app/db/migrate_enrollments.py` is not modelled. It only calls the ORM's `create_all`, whose behaviour lives in a library that is not part of this model.
- The ORM model file (`app/db/models.py`) is not part of this model. The `User` fields are taken from the code that uses them.
- Column types, defaults and AUTOINCREMENT are SQL text and are not modelled. SQLite's type affinity during `INSERT ... SELECT` is not modelled either: for example, text "42" copied into `instructor_id INTEGER` (app/db/fix_exam_student_id.py:67) is stored as an integer. "Copied values are kept" (`CopiedRow`, `RebuildGuarantees`) holds because values are untyped here. A column left out of the INSERT list is absent from the copied row. This stands for the engine's default: `status` 'in_progress', `created_at` the current time, and a fresh `id`.
- Values are NULL, integers or text. Floating-point (REAL) and date-time values are not distinguished.
- Foreign keys and constraint checks on the copy's INSERT are not modelled (for example a duplicate `exam_id` against its UNIQUE constraint). The copy is modelled as succeeding.
- FixExamStudentId.FixStudentIdNullable: the create, copy, drop and rename steps are modelled as succeeding. The outer exception handler and the partial states it leaves between committed steps are not modelled. The failure the scratch-table cleanup tolerates is not modelled either.
- The outer error handlers of the migration scripts are not modelled. `SessionLocal()` runs before `try:` in both scripts, so no handler covers a failure to open the session. In `migrate_exam_difficulty` the outer handler covers the catalog query (lines 20-23); a failure there leaves the schema unchanged. In `migrate_users` the catalog query sits inside the per-column `try`, so its failure is a per-column failure, which the `failing` set already models; the outer handler covers only what runs outside that `try` (the console output around the loop). An error in the `verify_users` query is not modelled either.
- Password hashing is not modelled. Passwords are compared with plain string equality, exactly as the source does.
- Concurrency is not modelled. A concurrent signup appears only as the `IntegrityError` insert outcome.
- The engine assigns `User.id`. It enters `create_user` as a parameter, and its uniqueness is not modelled.
- The default arguments of `create_user` (role "student", empty names, `None` ids; app/services/auth_service.py:16-18) are not modelled: callers pass every argument. `create_user` stores both names as given strings. A caller passing `None` for a name is not modelled.
- `.first()` without ORDER BY is modelled as the earliest row in sequence order. Under the unique email constraint at most one row matches, so the choice does not matter.
- The order of `db.query(User).all()` is taken as the given sequence order.
