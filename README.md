# SGS Annual Function app: login, CSV stores and notices, in Dafny

This project models the logic of `DEVISOFT/app.py`, a Streamlit app for a school's
annual function. It covers four parts:

- **`load_csv`** (module `CsvStore`). Reading a CSV store falls back to a header-only
  table when pandas cannot read the file. That empty table is also written over the file.
- **The sidebar login** (module `Login`).
  - "Send OTP" issues a six-digit code, but only to a mobile number that is on the allow-list.
  - "Verify" logs the session in when the typed code equals the stored one.
  - The session fields `logged_in`, `otp` and `mobile` are the fields of class
    `Login.Session`. Its two button handlers update them in place.
  - `SessionState`, `SendOtpStep`, `VerifyStep` and `Run` are the specification.
    Invariants over any sequence of button presses are proved about them.
- **The registration form and the admin notice form** (module `App`).
  - Each form reads its whole CSV file, appends one row at index `len(df)`, and writes the whole file back.
  - Both forms sit behind the login: the script calls `st.stop()` for a session that is not logged in.
  - Posting a notice is further gated by an equality test against `ADMIN_PASSWORD` (`"sgs2025"`).
- **The notices tab** (module `App`). It shows "No notices" for an empty table.

`Decimal` models `str()` of a non-negative integer. It is the basis for the claim that
every code has exactly six digits and no leading zero. `Wrappers` holds the `Option` type.

Inputs that the program takes from outside are parameters here:

- the mobile number, the code and the form fields typed in;
- `random.randint(100000, 999999)`, as the subset type `Login.Draw`;
- `datetime.now()`, as an opaque timestamp string `now`.

The file system is a map from file name to an optional parsed table:

- a name missing from the map is a missing file;
- a name mapped to `None` is a file that `pd.read_csv` cannot parse.

The model follows the code as written:

- Allow-list membership is an exact string match against the `mobile_number` column (line 34).
- A successful verify keeps `otp` in the session (lines 45-47), so the same code verifies again.
- No line sets `logged_in` back to false once it is true.
- Codes come from `random.randint(100000, 999999)` (line 35), so they never start with `0`.
- The registration's `Contact` is only pre-filled with the session mobile (line 70). The user can edit it.
- Every button press reruns the whole script, so the three `load_csv` calls (lines 22-24) run before
  each handler. `App.SubmitRun` and `App.PostRun` compose the two.
- Line 90 opens a string literal that never closes, so Python rejects `app.py` as written and none of it
  runs. The model describes the program with the notice-rendering statement at lines 88-90 repaired
  into one f-string.

## Model

| member | source | states |
|---|---|---|
| `Decimal.Show` | DEVISOFT/app.py:35 | `str(n)` of a non-negative int is a non-empty string of decimal digits whose first digit is `'0'` exactly when n is 0 |
| `Decimal.ParseShow` | DEVISOFT/app.py:35 | reading the decimal text back gives the number written: `Parse(Show(n)) == n` |
| `Decimal.ShowInjective` | DEVISOFT/app.py:35 | distinct numbers have distinct decimal texts |
| `Decimal.ShowLength` | DEVISOFT/app.py:35 | a number between 10^(k-1) and 10^k - 1 is written with exactly k characters |
| `Login.OtpCode` | DEVISOFT/app.py:35 | `str(random.randint(100000, 999999))` is exactly six digits, the first not `'0'`, and its value is the draw |
| `Login.OtpCodeInjective` | DEVISOFT/app.py:35 | different draws give different codes |
| `Login.SendOtpStep` | DEVISOFT/app.py:33-40 | a code is issued iff the typed mobile is on the allow-list; then `otp` is the six-digit code of the draw, `mobile` is exactly the typed string and `logged_in` is unchanged; otherwise "not registered" and the session is unchanged |
| `Login.VerifyStep` | DEVISOFT/app.py:42-49 | without an `otp` there is no Verify button; login succeeds iff the typed code equals `otp`; `logged_in` becomes true exactly then (or stays true); `otp` and `mobile` are never cleared |
| `Login.StepKeepsConsistent` | DEVISOFT/app.py:29-49 | one button press keeps the session consistent: code and mobile stored together, code six digits, mobile allow-listed, login only with a code |
| `Login.RunKeepsConsistent` | DEVISOFT/app.py:26-49 | every sequence of presses keeps the session consistent |
| `Login.LoggedInIsMonotone` | DEVISOFT/app.py:26-49 | once `logged_in` is true it stays true under any sequence of presses (there is no logout) |
| `Login.LoggedInMeansAllowed` | DEVISOFT/app.py:26-46 | from a fresh session, a logged-in session holds a six-digit code and a mobile on the allow-list |
| `Login.LoginNeedsStoredCode` | DEVISOFT/app.py:42-47 | a session that was not logged in becomes logged in only through a Verify whose code equals the code stored at that moment |
| `Login.EmptyAllowListLocksOut` | DEVISOFT/app.py:33-40 | with an empty allow-list, no press changes a fresh session: no code is issued and nobody logs in |
| `Login.IssueThenVerify` | DEVISOFT/app.py:33-47 | an allow-listed mobile gets the code of the draw, and verifying with that code logs in |
| `Login.OnlyLatestCodeVerifies` | DEVISOFT/app.py:35-46 | re-sending overwrites `otp`: a code from an earlier, different draw gets "Wrong OTP" and changes nothing |
| `Login.CodeStaysValid` | DEVISOFT/app.py:44-47 | after a successful verify the code is still stored and verifies again |
| `Login.Session.constructor` | DEVISOFT/app.py:26-27 | a new session has `logged_in` false and no `otp` or `mobile` |
| `Login.Session.SendOtp` | DEVISOFT/app.py:33-40 | the "Send OTP" handler updates the fields in place exactly as `SendOtpStep` and keeps the session consistent |
| `Login.Session.Verify` | DEVISOFT/app.py:42-49 | the "Verify" handler updates the fields in place exactly as `VerifyStep` and keeps the session consistent |
| `CsvStore.Load` | DEVISOFT/app.py:14-20 | a successful read returns the stored table and changes no file; a failed read returns a zero-row table whose columns are the given schema, writes it over the file, and the file then reads back as it |
| `CsvStore.IsEmpty` | DEVISOFT/app.py:84 | `df.empty` holds exactly when the table has no cell at all: no rows, or rows of zero width |
| `CsvStore.LoadIsIdempotent` | DEVISOFT/app.py:14-20 | loading twice gives the same table and file system as loading once |
| `CsvStore.LoadTouchesOneFile` | DEVISOFT/app.py:14-20 | loading one file leaves every other file as it was |
| `CsvStore.LoadCsv` | DEVISOFT/app.py:14-20 | the imperative `load_csv`, with its write-back side effect, behaves as `Load` |
| `CsvStore.ColumnIndex` | DEVISOFT/app.py:34 | the position of the first column with the given name, or none iff no column has that name |
| `CsvStore.DistinctColumnIndex` | DEVISOFT/app.py:22-23 | in a header without repeated names, each name is found at its own position |
| `CsvStore.ColumnValues` | DEVISOFT/app.py:34 | `df[name].values` as a set: defined iff the column exists, and a value is in it iff some row holds it under that column |
| `CsvStore.FileSystem.Read` | DEVISOFT/app.py:72 | `pd.read_csv` returns the stored table, or nothing for a missing or unreadable file |
| `CsvStore.FileSystem.Write` | DEVISOFT/app.py:74 | `to_csv` replaces that one file's contents with the whole table |
| `CsvStore.DataFrame.AppendRow` | DEVISOFT/app.py:73 | `df.loc[len(df)] = row` adds the row after the existing ones iff it is as wide as the header, and otherwise fails and changes nothing |
| `App.Startup` | DEVISOFT/app.py:22-24 | the three start-up loads of registrations, notices and the allow-list run in order and leave the tables and files of `StartupLoads` |
| `App.StartupLoads` | DEVISOFT/app.py:22-24 | after the three start-up loads every store reads back; a store that read before is returned unchanged, a store whose read failed becomes the header-only table of its own columns, and no other file changes |
| `App.AllowList` | DEVISOFT/app.py:34 | the allow-list is defined iff allowed_users.csv has a `mobile_number` column, and a string is on it iff some row holds it under that column |
| `App.MissingAllowedFileLocksOut` | DEVISOFT/app.py:17-40 | a missing or unreadable allowed_users.csv loads as an empty allow-list, and with the allow-list so loaded no sequence of presses gets a code or logs in |
| `App.StartupWithoutAllowedFileLocksOut` | DEVISOFT/app.py:24-40 | when allowed_users.csv cannot be read, the allow-list left by the start-up loads is empty, and no sequence of presses gets a code or logs in |
| `App.AppendRecord` | DEVISOFT/app.py:72-74 | on success the file gains exactly one row at the end, equal to the given row, with the header and every earlier row unchanged; an unreadable file or a row of the wrong width writes nothing; other files never change |
| `App.AppendRecordToFile` | DEVISOFT/app.py:72-74 | the read, `df.loc[len(df)] = row`, `to_csv` sequence behaves as `AppendRecord` |
| `App.AppendAllRoundTrip` | DEVISOFT/app.py:72-74 | appending N rows of the right width and reading back gives the earlier rows followed by exactly those N, in order |
| `App.RegistrationRow` | DEVISOFT/app.py:63-73 | the submitted row has one cell per registration column, Status `"Pending"`, and Contact equal to the session mobile unless it was edited |
| `App.RegistrationRowFields` | DEVISOFT/app.py:64-73 | looked up by column name, the row holds the timestamp, name, class, section, item, contact, address, bus choice and `"Pending"`, each under its own column |
| `App.Submit` | DEVISOFT/app.py:52-74 | "Submit" is stopped exactly when the session is not logged in; a write adds the registration row after the file's earlier rows, keeps its header, and leaves every other file unchanged; any other outcome writes nothing |
| `App.SubmitRegistration` | DEVISOFT/app.py:52-75 | the "Submit" handler changes the files exactly as `Submit` |
| `App.SubmitAppendsPendingRow` | DEVISOFT/app.py:70-74 | a registration is written iff the session is logged in and the file reads with nine columns; then exactly the registration row is added after the unchanged earlier rows |
| `App.DefaultContactIsAllowListed` | DEVISOFT/app.py:34-73 | after any run of login presses, a written registration with the Contact left pre-filled carries an allow-listed mobile |
| `App.SubmitAfterStartup` | DEVISOFT/app.py:14-74 | after a run's start-up loads, the read at "Submit" never fails; an unreadable registrations.csv has been replaced by its header, and the new registration becomes its only row |
| `App.SubmitRun` | DEVISOFT/app.py:22-74 | one run of the script ending in "Submit" changes the files as `Submit` after `StartupLoads` |
| `App.AdminAuthorized` | DEVISOFT/app.py:96 | the admin gate opens exactly for the password `"sgs2025"` |
| `App.NoticeRow` | DEVISOFT/app.py:98-103 | the posted row has one cell per notice column, with the timestamp, the title, the message and the poster (default `"Admin"`) under their column names |
| `App.Post` | DEVISOFT/app.py:92-107 | posting is stopped exactly without a login and refused exactly for a logged-in session with a wrong password; a write adds the notice row after the earlier notices, keeps the header and leaves every other file unchanged; any other outcome writes nothing |
| `App.PostNotice` | DEVISOFT/app.py:92-107 | the "Post Notice" handler changes the files exactly as `Post` |
| `App.PostedNoticeIsLatest` | DEVISOFT/app.py:95-104 | a notice is written iff logged in, the password equals `ADMIN_PASSWORD` and the file reads with four columns; then the board lists the earlier notices unchanged, followed by the new one |
| `App.PostAfterStartup` | DEVISOFT/app.py:14-104 | after a run's start-up loads, the read at "Post Notice" never fails; an unreadable notices.csv has been replaced by its header, and the new notice is the only one listed |
| `App.PostRun` | DEVISOFT/app.py:22-104 | one run of the script ending in "Post Notice" changes the files as `Post` after `StartupLoads` |
| `App.WrongPasswordWritesNothing` | DEVISOFT/app.py:96-107 | a password other than `ADMIN_PASSWORD` never changes any file |
| `App.BoardOf` | DEVISOFT/app.py:83-86 | an empty notice table shows "No notices" and not an error; a non-empty one lists its rows in file order |
| `App.ShowNotices` | DEVISOFT/app.py:81-86 | the notices tab reads notices.csv and shows what `BoardOf` gives |
| `App.FreshNoticeFileShowsNoNotices` | DEVISOFT/app.py:17-20 | a notices file that `load_csv` had to create shows "No notices" |
| `App.NoticesAfterStartup` | DEVISOFT/app.py:22-86 | after a run's start-up loads the notices tab is never unreadable: it shows the stored board, or "No notices" where the file had to be recreated |

## Left out

- Streamlit widgets, tabs, page configuration and styling. Each button press is one method call, and `st.stop()` is the `Stopped` outcome.
- The rerun behaviour of the nested "Post Notice" button (lines 95-101). Clicking "Post Notice" starts a new run, and in that run "Login as Admin" is false, so lines 102-105 never execute: as written, the app never appends a notice. `App.Post`, `App.PostNotice`, `App.PostRun`, `App.PostedNoticeIsLatest` and `App.PostAfterStartup` describe the gate taken as "password matches, then append".
- Notice rendering (lines 87-90). It is presentational. As written, the unterminated string at line 90 stops the whole module from parsing; the model assumes that statement repaired.
- The registrations list tab (line 79). It only displays the file.
- pandas CSV parsing and type coercion. This includes `astype(str)` on the allow-list, numbers losing leading zeros, and empty cells read back as NaN. Cells are strings, and a table written with `to_csv` reads back unchanged.
- The allow-list is fixed when a `Session` is created. The script re-reads allowed_users.csv on every rerun; a file changed mid-session is not modelled.
- A missing `mobile_number` column makes `AllowList` return `None` (`df[...]` raises a KeyError). No `Session` is built from it.
- `datetime.now()` and `random.randint` are inputs. The timestamp is an opaque string; the draw is any value in 100000..999999.
- Concurrent sessions writing the same CSV file, and the lost updates of full-file rewrites. They are not modellable here.
- `App.SubmitRegistration`, `App.PostNotice` and `App.ShowNotices` start from the files as they are when the handler runs. The reload at lines 22-23 that precedes them in every run is composed only in `App.SubmitRun`, `App.PostRun`, `App.SubmitAfterStartup`, `App.PostAfterStartup` and `App.NoticesAfterStartup`. Taken alone, their `ReadFailed` and `Unreadable` outcomes stand for a file that changed after that run's start-up reads.
- `CsvStore.FileSystem.Write`: `to_csv` always succeeds here. A write error such as a permission error or a full disk escapes `load_csv` at line 19 and ends the script run at lines 74 and 104. The model does not capture that failure.
