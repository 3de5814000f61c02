# Weight tracker and investment console: a verified model

This project models the stateful core of two small applications from one repository.

- **The Android weight tracker** keeps everything in one SQLite database, reached through `dbConnector`. It has four tables:
  - `users`: unique username, password hash, phone, role
  - `goal`: append-only goals with a positive value and an optional target date
  - `user_data`: dated weights, each with a copy of the goal in force when it was recorded
  - `session`: zero or one row naming the logged-in user

  Two view models sit on top of the store. `HistoryViewModel` caches a user's entries and turns them into three index-aligned chart series. `TrackingViewModel` caches the current goal.
- **The C++ investment console** has:
  - `DbHandler.cpp`: Users and Clients tables, plus a per-username failed-login counter that locks a name after three failures for the life of the process
  - `PassUtils.cpp`: PBKDF2 hashes written in hexadecimal, and a random password generator
  - `ConsoleApp.cpp`: an input validator applied to the login words before authentication, and group-based menu gating

The Android store is modelled twice:
- `StoreTables` describes each public method as a transaction. It is a function from the tables before the call to the result code and the tables after it.
- `DbHelper.DbConnector` is a class with one sequence field per table, whose methods change them statement by statement. Each method is proved to perform exactly its transaction. Every method except `SetCurrentUserId` is also proved to keep the table constraints; `SetCurrentUserId` keeps them when it points the session at a registered user, which is how registration and login call it.

`StoreProperties` proves what the transactions guarantee alone and in sequence. The console's handler, the two view models and the password generator are likewise classes or methods with loop invariants, proved against functions whose properties are proved as lemmas.

Oracles and parameters:
- bcrypt is an oracle `Hasher` with one law: a password verifies against any hash of itself.
- PBKDF2-HMAC-SHA256 (section 5.2 of RFC 8018) is an oracle returning 32 bytes. The hexadecimal encoding around it is concrete: upper-case digits, as the default `HexEncoder` writes them.
- Randomness (salt bytes, character picks, shuffle draws), clock readings (today's date) and storage faults are parameters.

Where the code differs from its own comments or from what a reader might expect, the model follows the code:
- `setTargetDate` updates every goal row of the user (`dbConnector.java:406`), not only the latest one. Reading back through `getMostRecentTargetDate` still gives the new date (`StoreProperties.TargetDateReadBack`).
- `setCurrentUserId` is a delete followed by an insert and opens no transaction of its own (`dbConnector.java:244-250`). Called from `registerUser` (`dbConnector.java:168`) it runs inside registration's transaction; called from `loginUser` (`dbConnector.java:228-230`) it runs outside any. Nothing can observe the step between the delete and the insert in this single-threaded model.
- `isValidInput` follows its pattern (`ConsoleApp.cpp:145`), which admits `!@#$%^&*()-=+` besides letters, digits and `_`. Its comment says "alphanumeric and underscores" (`ConsoleApp.cpp:139`).
- Foreign keys are declared but never switched on, so goals and weight entries are accepted for any user id.

## Model

| member | source | states |
|---|---|---|
| StoreTables.RoleFor | AndroidApp/app/src/main/java/com/example/androidapp/dbHelper/dbConnector.java:135-144 | "537" becomes admin, "1237" becomes paid, every other code becomes user (each as an if-and-only-if) |
| StoreTables.FindUser | AndroidApp/app/src/main/java/com/example/androidapp/dbHelper/dbConnector.java:127-128 | no row is found exactly when no row has the name; a found row is in the table and carries the name |
| StoreTables.Register | AndroidApp/app/src/main/java/com/example/androidapp/dbHelper/dbConnector.java:114-181 | -3 for a null argument or a failed insert, -1 exactly when the name exists, 1 otherwise; anything but 1 leaves every table unchanged; 1 appends one row whose password is the hash (not the plaintext) and whose role is the mapped code, and makes its id the session user |
| StoreTables.Login | AndroidApp/app/src/main/java/com/example/androidapp/dbHelper/dbConnector.java:192-237 | -2 for null arguments, an unknown name or a wrong password, with nothing changed; 1 exactly when the name exists and its stored hash verifies, and then only the session changes, to that row's id |
| StoreTables.LatestGoal | AndroidApp/app/src/main/java/com/example/androidapp/dbHelper/dbConnector.java:297 | none exactly when the user has no goal; otherwise a goal row of the user with the largest id among the user's rows |
| StoreTables.MostRecentGoalWeight | AndroidApp/app/src/main/java/com/example/androidapp/dbHelper/dbConnector.java:295-305 | -1 when the user has no goal; otherwise the goal value of the user's goal row with the largest id (positivity under the constraints: StoreProperties.MostRecentGoalWeightMeaning) |
| StoreTables.MostRecentTargetDate | AndroidApp/app/src/main/java/com/example/androidapp/dbHelper/dbConnector.java:337-350 | null when the user has no goal; otherwise the target date, possibly null, of the user's goal row with the largest id |
| StoreTables.CurrentUserId | AndroidApp/app/src/main/java/com/example/androidapp/dbHelper/dbConnector.java:257-270 | -1 for an empty session table; otherwise one of its rows (exactly the one row under the constraints: StoreProperties.SessionHasAtMostOneRow) |
| StoreTables.SetSession | AndroidApp/app/src/main/java/com/example/androidapp/dbHelper/dbConnector.java:244-250 | the session table holds exactly the given id and every other table is unchanged |
| StoreTables.SetGoal | AndroidApp/app/src/main/java/com/example/androidapp/dbHelper/dbConnector.java:279-287 | corrected: true exactly when the value is positive (CHECK at line 67); on success one row is appended with the next id and no target date, and nothing else changes; false leaves the tables unchanged |
| StoreTables.SetGoalAsWritten | AndroidApp/app/src/main/java/com/example/androidapp/dbHelper/dbConnector.java:286 | as written: a constraint exception exactly when the value is not positive, with nothing written; for a positive value it returns true and appends the same goal row as the corrected transaction |
| StoreTables.ZeroGoalRaises | AndroidApp/app/src/main/java/com/example/androidapp/dbHelper/dbConnector.java:286 | for the goal 0 the code as written raises, where the corrected store returns false with the tables unchanged |
| StoreTables.AddWeight | AndroidApp/app/src/main/java/com/example/androidapp/dbHelper/dbConnector.java:314-329 | true exactly when the user has a goal and the weight is positive (CHECK at line 57); on success one row is appended that copies the current goal value; on failure nothing changes |
| StoreTables.UserWeightsWithTarget | AndroidApp/app/src/main/java/com/example/androidapp/dbHelper/dbConnector.java:358-375 | every row of the user appears as its (weight, goal, date) point, and every listed point comes from a row of the user |
| StoreTables.RemoveMatching | AndroidApp/app/src/main/java/com/example/androidapp/dbHelper/dbConnector.java:385-392 | a row survives exactly when it does not match all four values; when nothing matches the table is unchanged |
| StoreTables.DeleteEntry | AndroidApp/app/src/main/java/com/example/androidapp/dbHelper/dbConnector.java:385-392 | only the weight table changes; a row survives exactly when it does not match all four values (the listing afterwards: StoreProperties.HistoryAfterDelete) |
| StoreTables.SetTargetDate | AndroidApp/app/src/main/java/com/example/androidapp/dbHelper/dbConnector.java:401-409 | true exactly when the user has a goal; every goal row of the user takes the new date and every other field and row stays as it was |
| StoreTables.UpdatePassword | AndroidApp/app/src/main/java/com/example/androidapp/dbHelper/dbConnector.java:418-437 | true exactly when a user has that id; that row's password becomes the hash of the new password, nothing else changes |
| StoreProperties.FreshIsValid | AndroidApp/app/src/main/java/com/example/androidapp/dbHelper/dbConnector.java:40-84 | the empty tables onCreate makes meet every constraint |
| StoreProperties.SetSessionPreservesValid | AndroidApp/app/src/main/java/com/example/androidapp/dbHelper/dbConnector.java:244-250 | replacing the session row by a registered user id keeps every table constraint |
| StoreProperties.RegisterPreservesValid | AndroidApp/app/src/main/java/com/example/androidapp/dbHelper/dbConnector.java:42-49 | registration keeps ids ascending and below the counter, names unique, and the session naming a registered user |
| StoreProperties.LoginPreservesValid | AndroidApp/app/src/main/java/com/example/androidapp/dbHelper/dbConnector.java:202-219 | login keeps every constraint; the session it sets names an existing user |
| StoreProperties.UpdatePasswordPreservesValid | AndroidApp/app/src/main/java/com/example/androidapp/dbHelper/dbConnector.java:431 | a password update keeps every constraint |
| StoreProperties.SetGoalPreservesValid | AndroidApp/app/src/main/java/com/example/androidapp/dbHelper/dbConnector.java:63-70 | setting a goal keeps goal ids ascending and every goal value positive |
| StoreProperties.AddWeightPreservesValid | AndroidApp/app/src/main/java/com/example/androidapp/dbHelper/dbConnector.java:52-60 | adding a weight keeps entry ids ascending, weights positive and goal copies positive |
| StoreProperties.DeletePreservesValid | AndroidApp/app/src/main/java/com/example/androidapp/dbHelper/dbConnector.java:385-392 | deleting keeps every constraint |
| StoreProperties.RemoveMatchingKeepsOrder | AndroidApp/app/src/main/java/com/example/androidapp/dbHelper/dbConnector.java:390 | deleting keeps the surviving rows in ascending id order |
| StoreProperties.ApplyPreservesValid | AndroidApp/app/src/main/java/com/example/androidapp/dbHelper/dbConnector.java:114-437 | every public call keeps every table constraint |
| StoreProperties.RunPreservesValid | AndroidApp/app/src/main/java/com/example/androidapp/dbHelper/dbConnector.java:114-437 | so does every sequence of calls |
| StoreProperties.SessionHasAtMostOneRow | AndroidApp/app/src/main/java/com/example/androidapp/dbHelper/dbConnector.java:244-270 | from a new database, after any calls, the session holds at most one row, and getCurrentUserID is -1 exactly when it holds none |
| StoreProperties.RegisterThenLogin | AndroidApp/app/src/main/java/com/example/androidapp/dbHelper/dbConnector.java:147-170 | after a successful registration the same credentials log in, as the new id |
| StoreProperties.RegisterSameNameTwice | AndroidApp/app/src/main/java/com/example/androidapp/dbHelper/dbConnector.java:127-131 | registering a taken name returns -1 with nothing changed, and exactly one row carries the name |
| StoreProperties.UpdatePasswordThenLogin | AndroidApp/app/src/main/java/com/example/androidapp/dbHelper/dbConnector.java:418-437 | after a password change the new password logs in as the same id, and a login succeeds exactly when the attempt verifies against the new hash |
| StoreProperties.MostRecentGoalWeightMeaning | AndroidApp/app/src/main/java/com/example/androidapp/dbHelper/dbConnector.java:295-305 | -1 means exactly that the user has no goal; any other result is positive |
| StoreProperties.SetGoalBecomesLatest | AndroidApp/app/src/main/java/com/example/androidapp/dbHelper/dbConnector.java:279-305 | the goal just set is what getMostRecentGoalWeight returns, its target date reads as null, and every other user's latest goal value and target date are unchanged |
| StoreProperties.NoGoalNoEntry | AndroidApp/app/src/main/java/com/example/androidapp/dbHelper/dbConnector.java:321-325 | without a goal, addDailyWeight returns false and inserts nothing |
| StoreProperties.EntryPersists | AndroidApp/app/src/main/java/com/example/androidapp/dbHelper/dbConnector.java:314-329 | a weight entry survives, unchanged, every later call except a delete that matches it |
| StoreProperties.SnapshotSurvivesNewGoals | AndroidApp/app/src/main/java/com/example/androidapp/dbHelper/dbConnector.java:321-328 | after goal 150 and weight 160, the point (160, 150) stays in the history whatever later goals are set, until that user deletes |
| StoreProperties.HistoryAfterDelete | AndroidApp/app/src/main/java/com/example/androidapp/dbHelper/dbConnector.java:385-392 | after a delete the user's history is the old one in order, minus every copy of the deleted point; other users' histories are unchanged |
| StoreProperties.DeletedTupleGone | AndroidApp/app/src/main/java/com/example/androidapp/dbHelper/dbConnector.java:385-392 | after a delete no point equal to the deleted tuple is listed |
| StoreProperties.TargetDateReadBack | AndroidApp/app/src/main/java/com/example/androidapp/dbHelper/dbConnector.java:337-350 | after setTargetDate on a user with a goal, getMostRecentTargetDate returns the new date |
| StoreProperties.UserWeightsAppend | AndroidApp/app/src/main/java/com/example/androidapp/dbHelper/dbConnector.java:364-369 | reading one more row extends the listing by that row's point exactly when it is the user's |
| StoreProperties.Without | AndroidApp/app/src/main/java/com/example/androidapp/dbHelper/dbConnector.java:387 | a point is kept exactly when it differs from the removed one |
| DbHelper.DbConnector.constructor | AndroidApp/app/src/main/java/com/example/androidapp/dbHelper/dbConnector.java:30-84 | a new helper holds four empty tables meeting every constraint |
| DbHelper.DbConnector.SetCurrentUserId | AndroidApp/app/src/main/java/com/example/androidapp/dbHelper/dbConnector.java:244-250 | the session table afterwards holds exactly one row, the given user, and nothing else changes; from a valid state, pointing it at a registered user keeps the table constraints |
| DbHelper.DbConnector.RegisterUser | AndroidApp/app/src/main/java/com/example/androidapp/dbHelper/dbConnector.java:114-181 | returns the code of, and leaves the tables as, the Register transaction; constraints kept |
| DbHelper.DbConnector.LoginUser | AndroidApp/app/src/main/java/com/example/androidapp/dbHelper/dbConnector.java:192-237 | returns the code of, and leaves the tables as, the Login transaction; constraints kept |
| DbHelper.DbConnector.GetCurrentUserId | AndroidApp/app/src/main/java/com/example/androidapp/dbHelper/dbConnector.java:257-270 | -1 exactly when the session is empty; otherwise the id of a registered user, and the session holds that one row |
| DbHelper.DbConnector.SetGoalWeight | AndroidApp/app/src/main/java/com/example/androidapp/dbHelper/dbConnector.java:279-287 | performs the corrected SetGoal transaction; constraints kept |
| DbHelper.DbConnector.GetMostRecentGoalWeight | AndroidApp/app/src/main/java/com/example/androidapp/dbHelper/dbConnector.java:295-305 | -1 exactly when the user has no goal; otherwise a positive value, the goal value of the user's goal row with the largest id |
| DbHelper.DbConnector.AddDailyWeight | AndroidApp/app/src/main/java/com/example/androidapp/dbHelper/dbConnector.java:314-329 | reads the current goal, then performs the AddWeight transaction; constraints kept |
| DbHelper.DbConnector.GetMostRecentTargetDate | AndroidApp/app/src/main/java/com/example/androidapp/dbHelper/dbConnector.java:337-350 | null when the user has no goal; otherwise the target date (possibly null) of the user's goal row with the largest id |
| DbHelper.DbConnector.GetUserWeightsWithTarget | AndroidApp/app/src/main/java/com/example/androidapp/dbHelper/dbConnector.java:358-375 | the cursor loop returns exactly UserWeightsWithTarget of the entry table |
| DbHelper.DbConnector.DeleteWeightEntry | AndroidApp/app/src/main/java/com/example/androidapp/dbHelper/dbConnector.java:385-392 | removes exactly the matching rows; constraints kept |
| DbHelper.DbConnector.SetTargetDate | AndroidApp/app/src/main/java/com/example/androidapp/dbHelper/dbConnector.java:401-409 | performs the SetTargetDate transaction; constraints kept |
| DbHelper.DbConnector.UpdatePassword | AndroidApp/app/src/main/java/com/example/androidapp/dbHelper/dbConnector.java:418-437 | performs the UpdatePassword transaction; constraints kept |
| History.HistoryViewModel.LoadWeightsForUser | AndroidApp/app/src/main/java/com/example/androidapp/ui/dashboard/history/HistoryViewModel.java:62-65 | the cached list becomes exactly the store's listing for the user |
| History.HistoryViewModel.DeleteWeightEntry | AndroidApp/app/src/main/java/com/example/androidapp/ui/dashboard/history/HistoryViewModel.java:52-55 | the store performs the delete; the reloaded list is the old listing minus every copy of the deleted point, so the point is no longer listed |
| History.HistoryViewModel.GetWeightEntries | AndroidApp/app/src/main/java/com/example/androidapp/ui/dashboard/history/HistoryViewModel.java:72-83 | empty when nothing is cached; otherwise as long as the list, with entry i equal to (i, weight i) |
| History.HistoryViewModel.GetTargetWeightEntries | AndroidApp/app/src/main/java/com/example/androidapp/ui/dashboard/history/HistoryViewModel.java:90-101 | as long as the list, with entry i equal to (i, goal copy i) |
| History.HistoryViewModel.GetDateLabels | AndroidApp/app/src/main/java/com/example/androidapp/ui/dashboard/history/HistoryViewModel.java:108-118 | as long as the list, with label i the date of entry i, so all three series align by index |
| Tracking.TrackingViewModel.LoadGoalWeight | AndroidApp/app/src/main/java/com/example/androidapp/ui/dashboard/tracking/TrackingViewModel.java:34-39 | unchanged when the user has no goal; otherwise the latest goal value |
| Tracking.TrackingViewModel.SetGoalWeight | AndroidApp/app/src/main/java/com/example/androidapp/ui/dashboard/tracking/TrackingViewModel.java:50-56 | returns the store's result; on success the cache holds the new goal, which is also the store's latest; on failure the cache is unchanged |
| Tracking.TrackingViewModel.AddDailyWeight | AndroidApp/app/src/main/java/com/example/androidapp/ui/dashboard/tracking/TrackingViewModel.java:66-68 | delegates to the store without touching the cache; a new entry copies the goal still in force |
| PassUtils.GenerateSalt | ConsoleApp/PassUtils.cpp:13-18 | exactly 16 characters, the first 16 bytes of the random block |
| PassUtils.HexEncode | ConsoleApp/PassUtils.cpp:31-34 | two upper-case hexadecimal digits per byte |
| PassUtils.DecodeEncode | ConsoleApp/PassUtils.cpp:31-34 | decoding an encoding gives the bytes back |
| PassUtils.EncodeDecode | ConsoleApp/PassUtils.cpp:31-34 | any text that decodes is the encoding of what it decodes to |
| PassUtils.EncodeInjective | ConsoleApp/PassUtils.cpp:31-34 | different keys have different encodings |
| PassUtils.HashPasswordPBKDF2 | ConsoleApp/PassUtils.cpp:20-36 | 64 characters that decode to the 32-byte derived key |
| PassUtils.VerifyPasswordPBKDF2 | ConsoleApp/PassUtils.cpp:38-41 | an accepted stored hash is 64 hex digits that decode to the key derived from the password and salt (both directions: PassUtils.VerifyMeaning) |
| PassUtils.HashThenVerify | ConsoleApp/PassUtils.cpp:38-41 | a password verifies against its own hash under the same salt |
| PassUtils.VerifyMeaning | ConsoleApp/PassUtils.cpp:38-41 | the check passes exactly when the stored text decodes to the derived key, so a lower-case or wrong-length hash never matches |
| PassUtils.VerifySameKey | ConsoleApp/PassUtils.cpp:38-41 | two passwords pass against one stored hash only if they derive the same key |
| PassUtils.Drawn | ConsoleApp/PassUtils.cpp:74-83 | 4 plus the number of picks characters, all from the allowed set, with at least one of each class |
| PassUtils.DrawCharacters | ConsoleApp/PassUtils.cpp:74-83 | the string built before the shuffle is exactly the drawn characters |
| PassUtils.FillRemaining | ConsoleApp/PassUtils.cpp:81-83 | keeps the four required characters at the front and puts a character of the allowed alphabet, chosen by the matching pick, at every remaining position up to the full length |
| PassUtils.Shuffle | ConsoleApp/PassUtils.cpp:86 | the shuffle rearranges the characters: same multiset |
| PassUtils.GenerateRandomPassword | ConsoleApp/PassUtils.cpp:52-91 | exactly 16 characters, all from the allowed set, at least one lower-case letter, upper-case letter, digit and symbol, and a rearrangement of the characters drawn |
| PassUtils.MultisetKeepsClasses | ConsoleApp/PassUtils.cpp:86 | a rearrangement keeps the length, the alphabet and every class present |
| DbHandler.FindByName | ConsoleApp/DbHandler.cpp:159-162 | no row is found exactly when no row has the name; a found row carries the name |
| DbHandler.Authenticate | ConsoleApp/DbHandler.cpp:150-189 | success exactly when the name is below the limit and its credentials accept the password; a locked name's counter is untouched; success resets it to 0, failure adds one; other names are untouched |
| DbHandler.LockIsPermanent | ConsoleApp/DbHandler.cpp:152-155 | once a name reaches 3 failures, every later attempt for it fails, the right password included, and its counter stays |
| DbHandler.FailuresLock | ConsoleApp/DbHandler.cpp:176-182 | from below the limit, k failed attempts raise the counter to the old count plus k, capped at 3 |
| DbHandler.Window | ConsoleApp/DbHandler.cpp:434-436 | LIMIT/OFFSET as SQLite reads them: never more rows than a non-negative limit; a page that fits is exactly those rows; a partial last page is the rest of the rows from the offset; nothing past the end; a negative offset reads from the start; a negative limit means no limit |
| DbHandler.WindowSplit | ConsoleApp/DbHandler.cpp:434-436 | two adjacent windows read as one |
| DbHandler.PagesTile | ConsoleApp/DbHandler.cpp:433-436 | pages 1 to n of one size give the first n times size rows in order, none skipped or repeated |
| DbHandler.Handler.constructor | ConsoleApp/DbHandler.cpp:46-63 | empty tables and an empty failure map satisfy the invariant |
| DbHandler.Handler.InitializeDatabase | ConsoleApp/DbHandler.cpp:66-78 | an "admin" user exists afterwards; if one existed nothing changes, so a second call adds no duplicate; otherwise one row is added whose password "admin" is accepted |
| DbHandler.Handler.CheckUserPermissionAccess | ConsoleApp/DbHandler.cpp:150-189 | result and counters as Authenticate; the id and group are taken from the row whenever the name is found and not locked, and are left as passed in otherwise |
| DbHandler.Handler.AddNewUser | ConsoleApp/DbHandler.cpp:199-227 | a taken name changes nothing; otherwise exactly one row with the name, the group, a fresh 16-byte salt and the hash, after which the password is accepted |
| DbHandler.Handler.ListUsers | ConsoleApp/DbHandler.cpp:431-456 | the caller's vector is kept and extended by the page's users in user_id order; false exactly when the vector is empty afterwards |
| DbHandler.Handler.ChangeClientServiceChoice | ConsoleApp/DbHandler.cpp:386-419 | values other than 1 and 2 are refused with the clients unchanged; otherwise true, and the rows with that id take the choice and the date; valid choices stay valid |
| DbHandler.AppendedIsFound | ConsoleApp/DbHandler.cpp:159-162 | a name added by the last insert is found as that row |
| ConsoleApp.InPatternIff | ConsoleApp/ConsoleApp.cpp:145 | the bracket expression admits exactly ASCII letters, digits and `_!@#$%^&*()-=+` |
| ConsoleApp.IsValidInput | ConsoleApp/ConsoleApp.cpp:144-147 | definition: the whole input matches the pattern; its meaning is proved by ConsoleApp.IsValidInputIff, ConsoleApp.LengthBounds and ConsoleApp.RejectsOtherCharacters |
| ConsoleApp.IsValidInputIff | ConsoleApp/ConsoleApp.cpp:144-147 | valid exactly when 1 to 20 characters long and every character is in that class |
| ConsoleApp.LengthBounds | ConsoleApp/ConsoleApp.cpp:145 | the empty string and strings over 20 characters are rejected |
| ConsoleApp.RejectsOtherCharacters | ConsoleApp/ConsoleApp.cpp:145 | a space, dot or quote anywhere makes the input invalid |
| ConsoleApp.AcceptsSymbols | ConsoleApp/ConsoleApp.cpp:139-145 | symbols the comment does not mention, such as `!`, `=` and `-`, are accepted |
| ConsoleApp.GeneratedPasswordIsValidInput | ConsoleApp/ConsoleApp.cpp:145 | every password the generator can return passes the validator |
| ConsoleApp.MenuOptions | ConsoleApp/ConsoleApp.cpp:154-171 | option 6 is shown exactly to admin and manager, 7 exactly to admin, 0 to 5 to everyone |
| ConsoleApp.Dispatch | ConsoleApp/ConsoleApp.cpp:82-128 | the admin menu is reached only by admin or manager, monthly interest only by admin |
| ConsoleApp.MenuMatchesDispatch | ConsoleApp/ConsoleApp.cpp:102-120 | a choice is shown exactly when it is neither refused nor unknown; a group allowed to apply interest may also open the admin menu |
| ConsoleApp.LoginStep | ConsoleApp/ConsoleApp.cpp:60-70 | no authentication and no counter change unless both words pass the validator; otherwise the counters and success are Authenticate's, and a successful login carries the id and group of the row found under that name |

## Left out

- Cryptography: bcrypt (`passUtils.java`), PBKDF2-HMAC-SHA256 with 10000 rounds, and CryptoPP's random pool are oracles. Only their shapes are modelled (32-byte keys, 16-byte salts, the verify law of the hash).
- `Login` (`StoreTables.Login`): a wrong password fails only up to bcrypt. If some other password happens to verify against the stored hash, it is accepted. The model assumes nothing about collisions.
- The SQL engine: query text, the indexes, the destructive `onUpgrade` and foreign-key cascades (no path deletes a user). Tables are sequences with AUTOINCREMENT counters.
- `loginUser`'s -1 path for missing cursor columns cannot happen with the query as written.
- `DbHelper.DbConnector.RegisterUser`: the -3 results for a thrown SQLiteException are folded into the `insertFails` parameter. Other thrown storage errors are not modelled: the -3 of `loginUser`, the logged errors of the getters, and the swallowed exceptions in `DbHandler.cpp`.
- `Math.toIntExact` and 32-bit `int` overflow are not modelled. Ids, weights and the page offset `(page - 1) * page_size` are unbounded integers.
- Clock readings: today's date is a parameter. Its formatting (`MM-dd-yyyy`, `%Y-%m-%d`) is not modelled.
- Money and interest code in `DbHandler.cpp`:
  - the balance functions, `UpdateClientBalance` and `ApplyMonthlyInterest` (floating point)
  - the `cash_balance` column
  - the rate table
- `initializeDatabase`: creating the tables and seeding the five default clients with random usernames are not modelled; only the default-admin part is.
- Interactive loops: the rest of `main`, `ChangeCustomerChoice`, `AdminHandler.cpp` and `UserHandler.cpp`. Only one login step of `main` and the menu dispatch are modelled.
- Console and log output.
- `generateRandomPassword` printing the password is not modelled.
- Android UI:
  - Fragments, activities, LiveData observers and chart rendering.
  - Chart `Entry` coordinates are floats in the app and integer pairs here.
  - `LoginFragment.java:59` reads the password from the username field. This is a bug in the screen, not in the store.
- `HomeViewModel` only delegates to the store.
- `TrackingFragment` catching only `NumberFormatException` is covered by the finding below, not modelled as a screen.

## Findings

| source | as written | input that shows it | evidently intended | confidence | as-written member | corrected member |
|---|---|---|---|---|---|---|
| AndroidApp/app/src/main/java/com/example/androidapp/dbHelper/dbConnector.java:286 | `setGoalWeight` uses `insertWithOnConflict(..., CONFLICT_REPLACE)`. Unlike `insert`, it does not catch `SQLException`, and under REPLACE a CHECK(goal_value > 0) violation aborts the statement, so a `SQLiteConstraintException` escapes. TrackingFragment catches only `NumberFormatException`. | goal weight 0 (the user types "0") | return false, as the method's documentation says, with no row written | medium, not executed: it rests on Android's documented `SQLiteDatabase` behaviour, which is outside the repository | StoreTables.SetGoalAsWritten, StoreTables.ZeroGoalRaises | StoreTables.SetGoal |
