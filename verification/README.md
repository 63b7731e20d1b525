# Student portal admin rules — a verified Dafny model

The student portal is a school-administration console. Admins create student
accounts and manage each student's fee records and academic results. The data
lives in a hosted document store and the sign-in accounts in a hosted identity
provider. Most of the code is UI bound directly to those services. This project
models the rules buried in that UI and proves properties about them:

- **Account creation** (`CreateStudentFlow`). The server action
  `createStudentAuthUser` validates its input. It then builds the display name,
  asks the identity provider to create the account, and folds every outcome into
  `{ uid }` or `{ error }`. It only creates the account; the client writes the
  profile document afterwards. The provider call, the admin SDK accessor and the
  e-mail syntax check are parameters. The result is the output together with the
  trace of external effects (the account request and the error log line).
- **Student table** (`StudentManagement`). It covers the index from student id
  to fee record, where the last record of a student wins, and the
  case-insensitive name filter. It also covers the fee-status badge and label,
  and the delete-confirmation state (`DeleteConfirmation`).
- **Fee dialog** (`FeeDialog`). It covers the fee form schema and the documents
  written on add and on update, with `balanceRemaining = amount − amountPaid`
  unclamped. It also covers the edit pre-fill and the row badge. `FeeEditor`
  holds the `fees` collection as a map from document id to record. Its methods
  add, update and delete records and open or close the editor.
- **Results dialog** (`ResultDialog`). It covers the result form schema and the
  documents written on add and on update. The form's `subject` is stored in the
  record's `className` field. It also covers the edit pre-fill and `ResultEditor`,
  which works like `FeeEditor`.
- **Spreadsheet rows** (`ExcelUtils`). Each raw row is normalised with its
  header fallbacks (`Email` before `email`, and so on) and a default empty
  comment. Rows missing a required field are dropped.

Shared helpers: `Wrappers.Option` (an absent value), `JsText` (ASCII
`toLowerCase` and `String.prototype.includes`), `JsArray` (`Array.prototype.filter`
and `map`, with the order-preserving subsequence relation), and `Records` (the
stored documents).

The server action only creates the identity account. Nothing in the modelled
code records the steps of a provisioning run, undoes a step that succeeded when a
later one fails, or deletes a student's documents in both stores together. The
input schema accepts any string as a first or last name, including the empty one
(`CreateStudentFlow.EmptyNamesAccepted`).

## Model

| member | source | states |
|---|---|---|
| `CreateStudentFlow.Validate` | src/ai/flows/create-student-flow.ts:15-20 | input accepted iff every field is a string, the e-mail passes the syntax check and the password has at least 6 characters; the accepted input carries the given fields unchanged |
| `CreateStudentFlow.EmptyNamesAccepted` | src/ai/flows/create-student-flow.ts:18-19 | empty first and last names pass validation |
| `CreateStudentFlow.DisplayName` | src/ai/flows/create-student-flow.ts:49 | the display name is the first name, one space, then the last name, split at those positions |
| `CreateStudentFlow.DisplayNameInjective` | src/ai/flows/create-student-flow.ts:49 | given the first name's length, the display name determines both names |
| `CreateStudentFlow.ErrorMessage` | src/ai/flows/create-student-flow.ts:60-66 | with a truthy code: "Error (" + code + "): " + message (absent message renders as "undefined"); else a truthy message; else the fixed default; never empty |
| `CreateStudentFlow.RequestFor` | src/ai/flows/create-student-flow.ts:46-50 | the provider request carries the validated e-mail and password and a display name that splits into the first name, one space and the last name |
| `CreateStudentFlow.CreateStudentAuthUser` | src/ai/flows/create-student-flow.ts:31-71 | exactly one of uid/error; error never empty; invalid input gives exactly `{error: 'Invalid input.'}` with no effect; a throwing `getAdminAuth` gives exactly its formatted message as the error and one log line of it, with no account request; a falsy handle gives exactly the not-initialised message with no effect; createUser is called at most once, first, only on valid input with a usable handle, with the validated e-mail, password and display name; uid present iff that call created an account, and then it is the provider's uid and the account request is the only effect (no profile write) |
| `CreateStudentFlow.ProviderRejectionReported` | src/ai/flows/create-student-flow.ts:46-69 | a provider rejection yields the formatted message as the error, after exactly one account request and one log line |
| `StudentManagement.FeeIndexKeys` | src/components/admin/student-management.tsx:60-64 | the map built by setting each fee under its studentId in list order has a key for exactly the students that have a fee in the list |
| `StudentManagement.FeeIndexLastWins` | src/components/admin/student-management.tsx:60-64 | in that map each student's entry is the student's last fee in list order |
| `StudentManagement.IndexFeesByStudent` | src/components/admin/student-management.tsx:60-64 | the loop builds exactly that map (an absent list gives the empty map): the keys are exactly the studentIds in the list, and each key maps to the last fee of that student in list order |
| `StudentManagement.FilteredStudents` | src/components/admin/student-management.tsx:66-69 | an absent list gives nothing; never longer than the list; every kept student's lower-cased "first last" contains the lower-cased filter |
| `StudentManagement.FullName` | src/components/admin/student-management.tsx:67 | the searched name is the first name, one space, then the last name, split at those positions |
| `StudentManagement.MatchesFilter` | src/components/admin/student-management.tsx:67 | an empty filter matches every student; a matching filter is never longer than the full name |
| `StudentManagement.MatchesFilterIff` | src/components/admin/student-management.tsx:67 | a student matches iff the lower-cased filter occurs at some position of the lower-cased "first last" name |
| `StudentManagement.FilteredStudentsSelect` | src/components/admin/student-management.tsx:66-69 | the result is an order-preserving subsequence of the students, keeps a student iff it is in the list and its name matches, and keeps every copy of a matching student and none of another |
| `StudentManagement.EmptyFilterKeepsAll` | src/components/admin/student-management.tsx:66-69 | an empty filter keeps every student, in order |
| `StudentManagement.FilterIgnoresCase` | src/components/admin/student-management.tsx:67 | a filter and its lower-cased form select the same students |
| `StudentManagement.FeeStatusOf` | src/components/admin/student-management.tsx:107-108 | the status is present iff the student has an indexed fee, and is that fee's status |
| `StudentManagement.StatusBadge` | src/components/admin/student-management.tsx:109 | Paid→success, Partial→warning, Pending→destructive, each iff; anything else or no record→outline |
| `StudentManagement.StatusLabel` | src/components/admin/student-management.tsx:114 | the label is the status when it is non-empty, otherwise "Not Set"; never empty |
| `StudentManagement.FeeCell` | src/components/admin/student-management.tsx:107-114 | a student without a fee record shows an outlined "Not Set"; with one, the badge is `StatusBadge` of its status and the label is that status, or "Not Set" when the status is empty |
| `StudentManagement.DeleteConfirmation.constructor` | src/components/admin/student-management.tsx:40-46 | no student selected, not deleting, no requests, no toasts |
| `StudentManagement.DeleteConfirmation.AskToDelete` | src/components/admin/student-management.tsx:137 | selects the student for deletion and changes nothing else |
| `StudentManagement.DeleteConfirmation.Dismiss` | src/components/admin/student-management.tsx:170-179 | closing the dialog (`onOpenChange` or Cancel) clears the selection and changes nothing else |
| `StudentManagement.DeleteConfirmation.PerformDeleteStudent` | src/components/admin/student-management.tsx:71-84 | no selection: nothing changes; otherwise one delete request for the selected student's id, a success or failure toast, and afterwards isDeleting is false and no student is selected, whatever the outcome |
| `FeeDialog.FeeSchemaRules` | src/components/admin/fee-dialog.tsx:24-31 | for an accepted form, changing one field keeps it accepted iff the new value meets that field's rule (listed term and status, non-empty session and due date, non-negative amounts); the balance never exceeds the amount |
| `FeeDialog.OverpaymentAccepted` | src/components/admin/fee-dialog.tsx:24-31 | the fee schema does not require amountPaid ≤ amount: raising amountPaid above amount keeps a valid form valid |
| `FeeDialog.Decimal` | src/components/admin/fee-dialog.tsx:49 | the year is rendered as a non-empty string of decimal digits, without a leading zero (just "0" for zero), that denotes the year |
| `FeeDialog.DefaultFeeForm` | src/components/admin/fee-dialog.tsx:47-54 | the defaults are term 1st, amounts 0, status Pending, due today, and a session that is exactly the decimal rendering of the year, a slash, and the decimal rendering of the next year |
| `FeeDialog.DefaultFeeFormAccepted` | src/components/admin/fee-dialog.tsx:45-55 | the form's defaults (term 1st, session "year/year+1", amounts 0, Pending, due today) satisfy the schema |
| `FeeDialog.EditFormOf` | src/components/admin/fee-dialog.tsx:171 | editing pre-fills term, session, amount, status and due date as stored, and amountPaid with the stored value, or 0 when the record has none |
| `FeeDialog.NewFee` | src/components/admin/fee-dialog.tsx:68-74 | the added record has the generated id, the dialog's studentId, both timestamps set, the form's values (reopening it gives back the form) and balance = amount − amountPaid, negative iff overpaid |
| `FeeDialog.UpdatedFee` | src/components/admin/fee-dialog.tsx:58-65 | an update keeps id, studentId and createdAt, sets updatedAt, stores the form's values (reopening gives back the form) and balance = amount − amountPaid, negative iff overpaid |
| `FeeDialog.ResubmitUnchangedFee` | src/components/admin/fee-dialog.tsx:169-171 | reopening a consistent fee and saving it unchanged only moves its update time |
| `FeeDialog.UpdateTouchesOnlyEdited` | src/components/admin/fee-dialog.tsx:60-65 | saving an edit keeps the collection's ids, the edited record's studentId and createdAt, and every other record |
| `FeeDialog.FeeRowBadge` | src/components/admin/fee-dialog.tsx:166 | for the form's statuses the row badge equals the student table's badge; any other status shows a warning where the student table shows an outline |
| `FeeDialog.FeeEditor.constructor` | src/components/admin/fee-dialog.tsx:36-55 | the editor starts closed with the default form loaded over the given collection |
| `FeeDialog.FeeEditor.OpenAdd` | src/components/admin/fee-dialog.tsx:151 | opens the add form and changes nothing else |
| `FeeDialog.FeeEditor.StartEdit` | src/components/admin/fee-dialog.tsx:169-171 | remembers the fee and loads its pre-filled values, which also become what an argument-less reset restores |
| `FeeDialog.FeeEditor.Cancel` | src/components/admin/fee-dialog.tsx:144 | closes the form; the collection is unchanged |
| `FeeDialog.FeeEditor.Submit` | src/components/admin/fee-dialog.tsx:57-83 | saved iff the schema accepts, the write succeeds and an edited fee still exists; adding stores `NewFee` under the new id, editing replaces only the edited record with `UpdatedFee` of it; on save the editor closes and the form resets to the last values given to a reset (the initial defaults, or the last edited fee's values); on failure nothing changes; the collection stays keyed by id |
| `FeeDialog.FeeEditor.DeleteFee` | src/components/admin/fee-dialog.tsx:85-93 | deleted iff confirmed and the write succeeds; then only that id is removed; otherwise the collection and the editor are unchanged |
| `ResultDialog.ResultSchemaRules` | src/components/admin/result-dialog.tsx:24-30 | for an accepted form, changing one field keeps it accepted iff the new value meets that field's rule (non-empty subject, listed term and grade, year from 2000); any comment is accepted |
| `ResultDialog.DefaultResultForm` | src/components/admin/result-dialog.tsx:46-52 | the defaults are an empty subject, term 1st, the given year, grade C and an empty comment |
| `ResultDialog.DefaultResultFormNeedsSubject` | src/components/admin/result-dialog.tsx:24-30 | the defaults fail the schema; with a subject filled in they pass iff the subject is non-empty and the year is at least 2000 |
| `ResultDialog.EditFormOf` | src/components/admin/result-dialog.tsx:165 | editing loads the stored className as the subject, and term, year, grade and comments as stored |
| `ResultDialog.NewResult` | src/components/admin/result-dialog.tsx:67-75 | the added record has the generated id, the dialog's studentId, the creation time, className = subject, and reopening it gives back the form |
| `ResultDialog.UpdatedResult` | src/components/admin/result-dialog.tsx:58-64 | an update keeps id, studentId and createdAt, stores className = subject, and reopening it gives back the form |
| `ResultDialog.ResubmitUnchangedResult` | src/components/admin/result-dialog.tsx:58-64 | reopening a result and saving it unchanged leaves the record identical |
| `ResultDialog.UpdateDeterminedByForm` | src/components/admin/result-dialog.tsx:58-64 | two updates of one record agree iff their forms are equal |
| `ResultDialog.EditRoundTripKeepsCollection` | src/components/admin/result-dialog.tsx:163-165 | an unchanged edit-and-save leaves the whole collection as it was |
| `ResultDialog.ResultEditor.constructor` | src/components/admin/result-dialog.tsx:35-53 | the editor starts closed with the default form loaded over the given collection |
| `ResultDialog.ResultEditor.OpenAdd` | src/components/admin/result-dialog.tsx:147 | opens the add form and changes nothing else |
| `ResultDialog.ResultEditor.StartEdit` | src/components/admin/result-dialog.tsx:163-165 | remembers the result and loads its values with className as subject; they also become what an argument-less reset restores |
| `ResultDialog.ResultEditor.Cancel` | src/components/admin/result-dialog.tsx:140 | closes the form; the collection is unchanged |
| `ResultDialog.ResultEditor.Submit` | src/components/admin/result-dialog.tsx:55-84 | saved iff the schema accepts, the write succeeds and an edited result still exists; adding stores `NewResult` under the new id, editing replaces only the edited record with `UpdatedResult` of it; on save the editor closes and resets to the last values given to a reset; on failure nothing changes |
| `ResultDialog.ResultEditor.DeleteResult` | src/components/admin/result-dialog.tsx:86-94 | deleted iff confirmed and the write succeeds; then only that id is removed; otherwise nothing changes |
| `ExcelUtils.Or` | src/lib/excel-utils.ts:29 | JavaScript `or` of two cells is the first when it is truthy, else the second; the result is truthy iff either is |
| `ExcelUtils.Lookup` | src/lib/excel-utils.ts:29-33 | a field takes the capitalised header's cell when it is truthy, otherwise the lower-case header's cell |
| `ExcelUtils.Normalise` | src/lib/excel-utils.ts:28-35 | each field uses the header fallback; year is parseInt of the fallback value; comments are the first truthy comment cell under either spelling, otherwise the empty string, and never undefined |
| `ExcelUtils.ParseRows` | src/lib/excel-utils.ts:38-42 | no more rows out than in, and every row out has e-mail, subject, grade and term truthy and a numeric year |
| `ExcelUtils.ParseRowsSelect` | src/lib/excel-utils.ts:28-42 | the output is an order-preserving subsequence of the normalised rows, holds a normalised row iff it passes the check, and holds it exactly as many times as the normalised rows do |
| `ExcelUtils.RowKeptIff` | src/lib/excel-utils.ts:38-40 | a row is kept iff each of e-mail, subject, grade and term is truthy under either spelling and the year parses |
| `ExcelUtils.GradeAndTermNotChecked` | src/lib/excel-utils.ts:38-42 | presence only: a row with grade "Z" and term "9th" is kept |
| `JsText.Lower` | src/components/admin/student-management.tsx:67 | lower-casing keeps the length, maps each character, and leaves no upper-case ASCII letter |
| `JsText.LowerIdempotent` | src/components/admin/student-management.tsx:67 | lower-casing twice equals lower-casing once |
| `JsText.Includes` | src/components/admin/student-management.tsx:67 | `includes` holds iff the needle occurs at some position of the haystack |
| `JsArray.Filter` | src/lib/excel-utils.ts:38-40 | the filtered sequence is no longer than the input and every element passes the predicate |
| `JsArray.FilterIsSubsequence` | src/lib/excel-utils.ts:38-40 | the filter result is an order-preserving subsequence of its input |
| `JsArray.FilterMembership` | src/components/admin/student-management.tsx:67 | an element is in the result iff it is in the input and passes |
| `JsArray.FilterCount` | src/lib/excel-utils.ts:38-40 | every copy of a passing element is kept and no copy of a failing one |
| `JsArray.FilterKeepsAll` | src/components/admin/student-management.tsx:67 | when every element passes, the result is the input |
| `JsArray.SubsequenceLength` | src/lib/excel-utils.ts:38-42 | a subsequence is never longer than its sequence |
| `JsArray.Map` | src/lib/excel-utils.ts:28 | `map` keeps the length and applies the function at every position |

## Left out

- Spreadsheet reading: `FileReader`, `XLSX.read` and `sheet_to_json` are a browser API and a foreign library. The model starts from the rows `sheet_to_json` returns. Read errors and the promise's rejection are not modelled.
- `parseInt` is a parameter that gives an integer or NaN (`None`). Its exact JavaScript semantics are not modelled.
- The e-mail syntax check of the schema library is a parameter predicate. So is the identity provider's `createUser`, which maps a request to an outcome.
- `getAdminAuth` is an input with three cases: a usable handle, a falsy handle, or a throw. Admin SDK initialisation in src/lib/firebase-admin.ts is not part of this model. As written there, `getAdminAuth` throws rather than returning a falsy handle, so the "not initialized" branch cannot arise with that file.
- CreateStudentFlow.CreateStudentAuthUser: the log line records the formatted message only, not the console's fixed prefix.
- The delete flow called by `performDeleteStudent` (src/ai/flows/delete-student-flow) is not part of this model. Its success is a boolean input, and the cascading deletion it may perform is not modelled.
- StudentManagement.DeleteConfirmation.PerformDeleteStudent: the state in which `isDeleting` is true while the flow runs is passed through but not exposed. Only the state after the awaited call finishes is stated.
- Firestore subscriptions and queries (`useCollection`, `where`, `orderBy`) and display order are not modelled. The index and filter take the fetched lists as inputs, and each editor holds the whole collection as a map.
- `serverTimestamp()` is an integer parameter. The id `addDoc` generates is a parameter, required to be fresh. Whether a write succeeds is a boolean input. So is the browser's `confirm()`.
- ResultDialog.ResultEditor.Submit: a write whose `comments` value is absent is not forced to fail. The document store rejects an undefined field value under its default settings, so saving a result whose stored comments are missing fails in the source; the model takes the write's success as an input and does not tie it to the comments.
- FeeDialog.FeeEditor.Submit and ResultDialog.ResultEditor.Submit: the reset target follows the form library's documented behaviour, in which `reset(values)` also replaces the values an argument-less `reset()` restores. Each editor object stands for one mounting of its dialog. The components that mount the dialogs are not part of this model, so a fresh mounting, which would bring back the initial defaults, is not modelled.
- Toasts of the fee and result dialogs and all rendering are not modelled. The student table's delete toasts are kept as titles.
- Form input handling is not modelled: field-by-field typing and `z.coerce.number` turning text into a number. The submitted values are an input. Fee amounts and years are integers, so fractional and floating-point values are not modelled.
- `toLowerCase` is ASCII-only, and string length counts characters rather than UTF-16 code units.
- The other dialogs opened from the student table are not modelled: the student form, the fee and result management dialogs, and their open flags. They are rendering glue.
- src/components/layout/network-status-indicator.tsx, src/firebase/index.ts and src/firebase/config.ts are not part of this model. They are browser event listeners and SDK configuration.
