# Campus ERP core in Dafny

This is a model of the computation core of a small campus ERP demo, a single-page app in `app/page.tsx`. Its parts:

- **The access table.** There are eight roles and seven sections (tabs). Each section has one list of roles that may view it and one list of roles that may edit it. `canView` and `canEdit` are membership tests on those lists.
- **The records.** Students, library log entries (BORROW or RETURN) and transport passes.
- **The dashboard.** These figures are derived afresh from the three lists:
  - total students;
  - fees collected;
  - dues, counting only positive shortfalls;
  - hostel beds occupied and free, out of a fixed 40;
  - the pass rate, rounded;
  - books out, from a loop that folds the log into a `Map` keyed by the joined string `studentId|bookId`;
  - passes still valid.
- **The six actions.** These are: admit a student, pay fees, allocate a bed, upload marks, submit a library entry and issue a transport pass. Each one checks the current role's edit right on its section and validates its input. It then either leaves the state alone or changes it. An admission appends a student. A library entry appends a log entry. Paying fees, allocating a bed and uploading marks each rewrite the record of the student found by the trimmed id. Issuing a pass changes two lists: it prepends the pass, and it rewrites the records whose id equals the id as typed. New students get the ids `STU001`, `STU002`, … (`nextId`).

The Dafny files:

- `wrappers.dfy`: an `Option` type.
- `text.dfy`:
  - JavaScript `trim`, over the ECMAScript whitespace and line-terminator set;
  - `padStart`;
  - `String(n)`, with the round trip back to the number.
- `permissions.dfy`: the access table, written down literally, and its properties.
- `records.dfy`: the record types, the id scheme and its injectivity.
- `ledger.dfy`:
  - per-pair library balances;
  - the "every RETURN has an open borrow" invariant;
  - the `booksOut` loop, proved against a specification function, and how it moves under each action.
- `totals.dfy`: every dashboard figure as a function, lemmas for each, and `ComputeTotals`.
- `campus.dfy`:
  - the class `Campus`, holding the three lists as `seq` fields;
  - its constructor, which builds the seed data;
  - one method per action.

The class invariant `Valid()` says four things:

- ids are sequential, so they are unique and `nextId` is fresh;
- fees, payments and cgpa are in range;
- every RETURN in the log is covered by an earlier borrow;
- no student id in the log contains `|`, so the joined `Map` keys behave like pairs.

Each action method states:

- its outcome, as a status whose rejection reasons come in the source's own check order;
- its exact new state;
- its effect on the dashboard figures it moves: fees and dues for a payment, occupancy for a bed, passing for marks, dues for an admission, `booksOut` for a library entry and the active-pass count for a pass.

Some inputs of the page are parameters here:

- the current role;
- the random ids (`newTxnId`);
- the clock's timestamps;
- the `now` used by `activePasses`;
- a date parser `instant` standing for `new Date(...)`.

## Model

| member | source | states |
|---|---|---|
| Permissions.PermissionsOf | app/page.tsx:86-106 | `PERMISSIONS`: the literal view and edit lists of each of the seven sections |
| Permissions.CanView | app/page.tsx:108-110 | `canView`: membership in the section's view list |
| Permissions.CanEdit | app/page.tsx:111-113 | `canEdit`: membership in the section's edit list |
| Permissions.RolesComplete | app/page.tsx:65-75 | `ROLES` lists every one of the eight roles, each exactly once |
| Permissions.EditExact | app/page.tsx:86-113 | `canEdit(tab, role)` holds exactly for Admin and the section's own role (no role besides Admin on the dashboard) |
| Permissions.ViewExact | app/page.tsx:86-113 | every role may view the dashboard; on any other section, view rights coincide with edit rights |
| Permissions.EditWithinView | app/page.tsx:86-113 | edit implies view everywhere; only Admin edits the dashboard |
| Permissions.AdminAndViewer | app/page.tsx:86-113 | Admin edits every section; Viewer edits none and views only the dashboard |
| Text.Trim | app/page.tsx:368 | `trim`: the leading whitespace dropped, then the trailing whitespace |
| Text.Decimal | app/page.tsx:331 | `String(n)` for a non-negative integer: its decimal digits, most significant first |
| Text.PadStart | app/page.tsx:331 | `padStart(width, c)`: the string prefixed by enough copies of `c` to reach the width, or unchanged if already that long |
| Text.TrimStartShape | app/page.tsx:368 | `trim`'s first half drops only leading whitespace and keeps a suffix that does not start with whitespace |
| Text.TrimEndShape | app/page.tsx:368 | `trim`'s second half drops only trailing whitespace and keeps a prefix that does not end with whitespace |
| Text.TrimShape | app/page.tsx:368 | `id.trim()` is the infix of the input left after whitespace is dropped at both ends; all that is dropped is whitespace, and the result neither starts nor ends with it |
| Text.TrimOfTrimmed | app/page.tsx:368 | a string with no whitespace at its ends is its own trim |
| Text.TrimIdempotent | app/page.tsx:368 | trimming twice is trimming once |
| Text.TrimBlankIff | app/page.tsx:338 | `!name.trim()` holds exactly when every character is whitespace |
| Text.TrimKeepsNonWhitespace | app/page.tsx:368 | a non-whitespace character occurs in a string exactly when it occurs in its trim |
| Text.DecimalShape | app/page.tsx:331 | `String(n)` is a non-empty run of digits with no leading zero unless n is 0 |
| Text.RepeatShape | app/page.tsx:331 | the pad is k copies of the pad character |
| Text.PadStartShape | app/page.tsx:331 | `padStart(3, "0")` gives at least 3 characters, ends in the original, and is zeros before it |
| Text.DecimalRoundTrip | app/page.tsx:331 | reading the digits of `String(n)` back gives n |
| Text.LeadingZerosValue | app/page.tsx:331 | leading zeros do not change the value read back |
| Text.PaddedDecimalRoundTrip | app/page.tsx:331 | the zero-padded rendering still reads back as n |
| Records.StudentId | app/page.tsx:331 | the id of the n-th student: `STU` followed by `String(n)` padded with zeros to three digits |
| Records.StudentIdRoundTrip | app/page.tsx:331 | the number read back from `STU` + the zero-padded `String(n)` is `n` |
| Records.StudentIdInjective | app/page.tsx:331 | different numbers give different ids |
| Records.StudentIdDigits | app/page.tsx:331 | an id is `STU` followed by at least three decimal digits |
| Records.StudentIdShape | app/page.tsx:331 | an id has no whitespace at its ends, so `trim` leaves it alone, and it has no `\|` |
| Ledger.Balance | app/page.tsx:433-442 | the RETURN check's `reduce`: +1 for each BORROW and -1 for each RETURN of the pair, comparing the ids as typed |
| Ledger.Key | app/page.tsx:293 | the `Map` key `${studentId}\|${bookId}` |
| Ledger.KeyBalance | app/page.tsx:292-296 | the value the `forEach` leaves under one key: the net count of the entries with that joined key |
| Ledger.BooksOutSpec | app/page.tsx:290-300 | `booksOut`: over the keys in insertion order, the sum of the positive net counts |
| Ledger.DistinctKeysFromEntries | app/page.tsx:291-296 | every key in the `Map`'s insertion order is the key of some log entry |
| Ledger.BalanceAppend | app/page.tsx:433-442 | one more entry moves its own pair's count by +1 for BORROW and -1 for RETURN, and leaves every other pair's count alone |
| Ledger.AppendKeepsCovered | app/page.tsx:432-443 | appending keeps every RETURN covered exactly when the new entry is a BORROW or a RETURN whose pair count is positive |
| Ledger.CoveredAt | app/page.tsx:432-443 | in a covered log, every RETURN was preceded by a positive count for its pair |
| Ledger.CoveredPrefix | app/page.tsx:432-443 | every prefix of a covered log is covered |
| Ledger.CoveredBalanceNonNegative | app/page.tsx:432-443 | a covered log leaves no pair with a negative count |
| Ledger.CoveredBalancesNonNegative | app/page.tsx:432-443 | the same, for all pairs at once |
| Ledger.RunningBalanceNonNegative | app/page.tsx:432-443 | the running count of every pair is non-negative at every point of a covered log |
| Ledger.AcceptedAppendKeepsBalances | app/page.tsx:432-453 | from non-negative counts, an accepted BORROW or covered RETURN keeps all counts non-negative |
| Ledger.DistinctKeys | app/page.tsx:291-296 | the `Map`'s insertion order holds no key twice and holds the key of every entry |
| Ledger.KeyBalanceAppend | app/page.tsx:292-296 | one step of the `forEach` changes only the entry's own key, by plus or minus one |
| Ledger.AbsentKeyBalance | app/page.tsx:294 | a key never inserted has count 0, which is what `get(k) \|\| 0` reads |
| Ledger.TallyOpenBorrows | app/page.tsx:291-296 | the `forEach` loop: the map's keys are exactly the keys of the entries, in first-occurrence order, each mapped to its net count |
| Ledger.BooksOut | app/page.tsx:290-300 | the loop computes the sum, in insertion order, of the positive net counts (`BooksOutSpec`) |
| Ledger.SumPositiveNonNegative | app/page.tsx:297-300 | a sum of positive parts is non-negative |
| Ledger.BooksOutNonNegative | app/page.tsx:290-300 | `booksOut` is never negative |
| Ledger.SumPositiveOtherKeys | app/page.tsx:297-300 | an entry under a key outside the sum does not change the sum |
| Ledger.SumPositiveOwnKey | app/page.tsx:297-300 | an entry under a key in the sum moves it by the change in that key's positive part |
| Ledger.BooksOutAppend | app/page.tsx:290-300 | one more log entry moves `booksOut` by the change in the positive part of its own key's count |
| Ledger.BooksOutAfterBorrowOrReturn | app/page.tsx:290-300 | a BORROW adds one book out when its key's count was not negative; a RETURN of an open borrow removes one |
| Ledger.BorrowThenReturnNeutral | app/page.tsx:290-300 | a BORROW followed by a RETURN of the same pair leaves `booksOut` and the pair's count unchanged |
| Ledger.KeyInjective | app/page.tsx:293 | the joined key `sid\|bid` determines the pair when the student ids hold no `\|` |
| Ledger.KeyBalanceIsPairBalance | app/page.tsx:293-295 | when no student id holds `\|`, the count under the joined key equals the count by pair that `submitLibrary` uses |
| Totals.FeesCollected | app/page.tsx:277 | `feesCollected`: the sum of `totalPaid` over the students |
| Totals.Dues | app/page.tsx:278-281 | `dues`: the sum of `max(0, totalFee - totalPaid)` over the students |
| Totals.Occupied | app/page.tsx:283 | the occupancy filter: the label is not `-` and its trim is not empty |
| Totals.HostelOccupied | app/page.tsx:282-284 | `hostelOccupied`: how many students pass the occupancy filter |
| Totals.HostelFree | app/page.tsx:285 | `hostelFree`: 40 less the occupied count, not clamped |
| Totals.Passing | app/page.tsx:287 | how many students have no backlog |
| Totals.ActivePasses | app/page.tsx:302-304 | `activePasses`: how many passes have a date that parses and is not before `now` |
| Totals.Due | app/page.tsx:278-281 | a student's term of `dues` is non-negative, at least fee minus paid, and zero exactly when paid covers the fee |
| Totals.PassRate | app/page.tsx:286-288 | None exactly when there are no students; otherwise a value 0..100 that is the nearest integer to 100·passing/total, a half rounding up |
| Totals.RoundedPercent | app/page.tsx:286-288 | `Math.round(p / t * 100)` in exact arithmetic: the result r is in 0..100 with 2t·r ≤ 200p + t < 2t·(r+1) |
| Totals.SumByNonNegative | app/page.tsx:277-281 | a `reduce` of non-negative terms is non-negative |
| Totals.CountBounded | app/page.tsx:282-288 | a `filter(...).length` lies between 0 and the number of students |
| Totals.SumByUpdate | app/page.tsx:277-288 | replacing one record changes each sum by the change in that record's term |
| Totals.SumByAppend | app/page.tsx:277-288 | appending a record adds its term |
| Totals.DuesZeroIff | app/page.tsx:278-281 | `dues` is non-negative, and zero exactly when every student has paid at least the fee |
| Totals.CollectedPlusDuesCoverFees | app/page.tsx:277-281 | fees collected plus dues is at least the total of fees charged |
| Totals.OccupiedIff | app/page.tsx:282-284 | a student counts as occupying a bed exactly when the label is not `-` and has a non-whitespace character |
| Totals.HostelBounds | app/page.tsx:282-285 | occupancy is between 0 and the student count; free beds plus occupied beds equal 40 |
| Totals.HostelFreeNotClamped | app/page.tsx:285 | with every student in a bed and more than 40 students, `hostelFree` is negative (it is not clamped) |
| Totals.PassRateExtremes | app/page.tsx:286-288 | with every student passing the rate is 100; with none passing it is 0 |
| Totals.ActivePassesPrepend | app/page.tsx:474 | a prepended pass raises the active count by one exactly when its date parses and is not before `now` |
| Totals.IssuedPassEffect | app/page.tsx:474 | for every current instant and date reading, a prepended pass raises the active count by one exactly when its date parses and is not before that instant |
| Totals.ActivePassesBounded | app/page.tsx:302-304 | the active count lies between 0 and the number of passes |
| Totals.ComputeTotals | app/page.tsx:275-316 | every dashboard figure equals its defining function, with dues ≥ 0, 0 ≤ occupied ≤ students, books out ≥ 0 and 0 ≤ active passes ≤ passes |
| Campus.FindStudent | app/page.tsx:368 | `find` by id: the index of the first student with that id, or None exactly when no student has it |
| Campus.MapMatching | app/page.tsx:372-376 | `prev.map(...)`: same length; every student with the id is replaced by its update, every other student is kept |
| Campus.NextId | app/page.tsx:331 | `nextId`: the id of student number `students.length + 1` |
| Campus.SequentialIdsDistinct | app/page.tsx:331 | under sequential ids, two students with the same id are the same student |
| Campus.NextIdFresh | app/page.tsx:331 | `nextId` is the id of no existing student |
| Campus.AdmissionKeepsIdsSequential | app/page.tsx:339-357 | appending a student under `nextId` keeps the ids sequential |
| Campus.MatchingIsPointUpdate | app/page.tsx:372-376 | with unique ids, mapping over the found student's id rewrites that one record alone |
| Campus.PointUpdateKeepsIdsSequential | app/page.tsx:372-376 | a record rewrite that keeps the id keeps ids sequential |
| Campus.UntrimmedIdMatchesNoStudent | app/page.tsx:476-482 | an id that `trim` changes is no student's id, so the untrimmed `map` in `issuePass` matches nobody |
| Campus.WithPayment | app/page.tsx:374 | the payment adds exactly the amount to `totalPaid` and changes no other field |
| Campus.ClampMarks | app/page.tsx:404 | the marks are clamped into 0..100: unchanged inside, 0 below, 100 above |
| Campus.BlendCgpa | app/page.tsx:406-407 | the new cgpa (in tenths) is the mean of old cgpa and marks/10, a half rounding up, and stays in range |
| Campus.WithMarks | app/page.tsx:404-418 | the cgpa becomes the blend of the old cgpa with the clamped marks; backlogs grow by one exactly when the clamped marks are below 40, and are unchanged otherwise; the cgpa stays in range; no other field changes |
| Campus.HostelSlot | app/page.tsx:393 | the slot label `${hostel}/${room}/${bed}` |
| Campus.SlotIsOccupied | app/page.tsx:393 | every `hostel/room/bed` label counts as an occupied bed |
| Campus.PaymentEffect | app/page.tsx:372-376 | a payment adds its amount to fees collected, lowers dues by the part still owed, and leaves occupancy and passing unchanged |
| Campus.AllocationEffect | app/page.tsx:394-396 | an allocation fills one more bed unless the student already had one; fees and dues are unchanged |
| Campus.MarksEffect | app/page.tsx:407-418 | a failed upload takes a backlog-free student out of the passing count; fees, dues and occupancy are unchanged |
| Campus.LibraryEntryEffect | app/page.tsx:446-455 | an accepted entry keeps the log covered and `\|`-free, moves its pair's count by one to a non-negative value, and moves `booksOut` by +1 (BORROW) or -1 (RETURN) |
| Campus.AdmissionEffect | app/page.tsx:339-357 | an admission adds the default 20000 fee to dues and changes neither fees collected nor occupancy |
| Campus.Campus.Valid | app/page.tsx:331-490 | the state invariant every action keeps: ids sequential, amounts in range, every RETURN covered, and no `\|` in the student ids of the log |
| Campus.Campus.constructor | app/page.tsx:167-272 | the seed state (two students, one BORROW, one pass) satisfies the invariant |
| Campus.Campus.AddAdmission | app/page.tsx:336-364 | denied without admissions edit; refused for a blank name; otherwise appends one student under `nextId` with the trimmed name, fee 20000, nothing paid, bed `-`, cgpa 0, no backlog; the invariant is kept |
| Campus.Campus.PayFees | app/page.tsx:366-387 | denied, not found (trimmed id) and bad amount, in that order; otherwise only the found student's payment grows by the amount, a receipt names that student, fees collected grows by the amount and dues fall by the part owed |
| Campus.Campus.AllocateHostel | app/page.tsx:389-398 | denied or not found; otherwise only the found student's label becomes `hostel/room/bed`, and occupancy rises by one unless they had a bed |
| Campus.Campus.UploadMarks | app/page.tsx:400-420 | denied or not found; otherwise only the found student's cgpa and backlogs change as `WithMarks` says; no one's backlogs ever fall |
| Campus.Campus.SubmitLibrary | app/page.tsx:422-457 | denied, blank ids, not found, and RETURN with no open borrow (counted on the ids as typed), in that order; otherwise appends one entry with the ids as typed; every pair's count stays non-negative, a BORROW raises `booksOut` by one and a RETURN lowers it by one |
| Campus.Campus.IssuePass | app/page.tsx:459-490 | as written: denied, blank id, not found (trimmed id); otherwise prepends the pass and rewrites the transport of every student whose id equals the id AS TYPED, so a padded id changes no student; the active-pass count rises by one exactly when the new pass is still valid |
| Campus.Campus.IssuePassToFoundStudent | app/page.tsx:459-490 | as intended: the same checks and pass, with the transport details written onto the student the trimmed id found, and the same active-pass effect |

## Left out

- The user interface is not modelled: the JSX, tab visibility, the role switcher, the chart data and the receipt's rendering.
- React state hooks and `useMemo` are replaced by the class's fields and an explicit `ComputeTotals` call.
- Persisting the role in `localStorage` is left out. The role is a parameter of each action.
- There is no randomness or clock. `newTxnId` results and the `toLocaleString`/`toLocaleDateString` timestamps are parameters, the current instant is the parameter `now`, and `new Date(validTill)` is the parameter `instant`.
- Form resets after each action are not modelled, because they touch only UI state.
- Alerts and silent returns are both `Rejected(reason)`.
- `Number(...)` parsing of the amount and marks fields is not modelled: amounts and marks are integers. Fractional amounts and `NaN` (which the fee check rejects, and which upload turns into a backlog with a `NaN` cgpa) are out of scope.
- Campus.BlendCgpa, Campus.WithMarks: the cgpa is held as integer tenths and blended in exact arithmetic, so the rounded result can differ from the page's floating-point one. For cgpa 0.1 and marks 46, the page computes `(0.1 + 4.6) / 2 * 10` as 23.499999999999996 and stores 2.3, where the model gives 2.4 (24 tenths). Of the 10201 pairs of cgpa in 0.0..10.0 and marks in 0..100, 246 are such cases.
- The record's `cgpa` is always a number. `(st.cgpa || 0)` reads an undefined or zero cgpa as 0, and in this model it is never undefined.
- Totals.PassRate: the source divides by zero with no students and produces `NaN`; the model returns None instead. The rate uses exact rational arithmetic, not floating point, so a rate at an exact half can round differently: with 23 of 40 students passing, the page computes `23 / 40 * 100` as 57.49999999999999 and shows 57, where the model gives 58.
- `trim` is modelled over Unicode scalar values, not UTF-16 code units. Both give the same results for the whitespace set.
- The `transport: null` of a new student and the absent `transport` field are both `None`.
- The fee form's payment `mode` is not modelled: the form collects it, but no action reads it.
- Campus.Campus.PayFees: a refused payment returns no receipt. The page leaves the last receipt on screen, which is UI state.
- `submitLibrary` looks students up by the trimmed id but stores the ids and counts open borrows exactly as typed. The model keeps this as written. Padded ids thus form pairs of their own, and the invariant is stated in the same terms.

## Findings

| source | as written | input that shows it | evidently intended | confidence | as-written member | corrected member |
|---|---|---|---|---|---|---|
| app/page.tsx:463-482 | `issuePass` finds the student with `studentId.trim()`, but rewrites the transport of the students whose id equals the untrimmed `studentId` | role Admin, studentId `"STU001 "` (trailing space): the lookup finds STU001 and a pass is prepended, but no student record gets the transport details | the found student's record is updated, as `st.id` is used in every other action | not executed | Campus.Campus.IssuePass (with Campus.UntrimmedIdMatchesNoStudent) | Campus.Campus.IssuePassToFoundStudent |
