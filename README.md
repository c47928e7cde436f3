# Attendance record store

This project models the attendance record store of the UIL attendance
portal, with the two pages that act on it.

The store maps each course name to the ordered list of that course's entries.
Each entry is a `{name, matric, date, status}` record.

- **Check-in page** (`src/main.js`). A student submits a name, a matric
  number and a course.
  - The entry is recorded as "Present" for today unless that matric is
    already recorded in that course on the same date.
  - After an accepted check-in the session goes back to the guest.
  - The same page holds the staff sign-in: a fixed list of users, where the
    name is compared ignoring letter case and the password exactly.
- **Staff page** (`src/submission.js`). One form adds an entry or, while an
  edit is pending, overwrites the edited entry.
  - Staff can also delete entries, switch the course filter, and read a
    per-date summary.
  - Before it is shown, every course's list is sorted in place by matric.
  - The staff page's duplicate rule is stricter than the check-in page's: a
    staff save is refused when any other index of the course already has the
    matric, whatever its date. Check-ins may still record one matric in a
    course on several dates. The invariant both pages keep is therefore the
    weaker one: no course has two entries sharing matric and date.
  - The staff duplicate rule is by matric alone, whatever the date, and an
    edit save has no not-found error.

Modules:

- `Text`: ASCII trim and lower-case.
- `Records`: entries, the store, sessions, and the course filter.
- `MatricOrder`: the sort, as an in-place insertion sort on an array.
- `Summary`: the per-date tallies.
- `Submission`: the staff page.
  - `StaffSave` and `DeleteAt` are pure specification functions.
  - The class `SubmissionPage` has the fields `records`, `saved`, `edit`,
    `currentCourse` and `currentUser`.
- `CheckIn`: the check-in page.
  - `SelfCheckIn` and `FindUser` are pure specification functions.
  - The class `CheckInPage` holds the page's state.

The page methods tie each new state to these functions. The lemmas state the
promised properties of the functions.

Persistence in browser storage is modelled as follows:

- The `saved` field is the stored snapshot of the records. It becomes
  `Some(records)` after every save.
- `storedUser` is the stored session.
- Page load takes the stored values as `Option` parameters.

Call-time inputs:

- The current date is a `DD-MM-YYYY` string parameter `today`.
- The locale-aware numeric matric comparison is a parameter `leq`. The model
  requires only that `leq` is a total preorder.

## Model

| member | source | states |
|---|---|---|
| Text.Trim | src/main.js:48-50 | the result is a contiguous slice of the input with no leading or trailing whitespace |
| Text.TrimCutsOnlySpace | src/submission.js:177-178 | everything trimming removes, before and after the kept slice, is whitespace |
| Text.TrimEmptyIffBlank | src/main.js:53 | a field trims to empty exactly when it is all whitespace, which is what the "fill in all fields" test rejects |
| Text.TrimIdempotent | src/main.js:48 | trimming a trimmed value changes nothing |
| Text.ToLower | src/main.js:136 | same length, each character lower-cased, and no upper-case letter left |
| Text.ToLowerIdempotent | src/main.js:136 | lower-casing twice is lower-casing once |
| Records.CountMatricOnZero | src/main.js:62 | the (matric, date) count is zero exactly when no entry has that matric on that date |
| Records.CountMatricOnAppend | src/main.js:68 | pushing an entry adds exactly one to its own (matric, date) count |
| Records.NoDupMatricIsStronger | src/submission.js:198 | a store without a repeated matric in any course has no repeated (matric, date) pair either |
| MatricOrder.SortByMatric | src/submission.js:57-61 | after the in-place sort the array is ordered by matric under the comparator and holds exactly the same entries (a permutation) |
| MatricOrder.SortedCopy | src/submission.js:58-60 | one course's list, sorted through an array: ordered by matric and a permutation of the input |
| Records.PermutationKeepsNoDupMatricDate | src/submission.js:58-60 | any reordering of a list without a repeated (matric, date) pair has none either |
| Records.StorePermutationKeepsNoDupMatricDate | src/submission.js:57-61 | reordering every course's list keeps the store free of repeated (matric, date) pairs |
| Summary.TallyCourse | src/submission.js:338-346 | the loop's map has the keys Present, Absent, Excused and every status seen on the date, and each key maps to the number of that day's entries with that status |
| Summary.TallyVisible | src/submission.js:335-347 | tallies exist exactly for the courses the filter lets through, and each is that course's tally |
| Summary.StatusesOnMembers | src/submission.js:343-344 | a status gets its own key exactly when some entry on the target date has it |
| Summary.CountOfPositive | src/submission.js:342-346 | a status's count is positive exactly when it occurs on the target date |
| Summary.CountsBounded | src/submission.js:339-346 | Present + Absent + Excused is at most the number of entries on the date, which is at most the list's length |
| Summary.HasEntryOnStatuses | src/submission.js:343 | a course has an entry on the date exactly when some status occurs on that date |
| Summary.AllZeroIffNoEntry | src/submission.js:349 | a course's tally is all zeros exactly when the course has no entry on the date |
| Summary.NoRecordsIffNoEntry | src/submission.js:349 | "no records" (no tallies, or every count zero) holds exactly when no visible course has an entry on the date |
| Submission.SavedStatus | src/submission.js:180 | an empty status saves as "Present"; any other status is kept |
| Submission.StaffSave | src/submission.js:176-213 | an empty name or matric gives MissingField; otherwise an empty or "all" target gives NoCourseSelected; any other refusal is DuplicateMatric; the save is accepted exactly when the fields are filled, a real course is targeted and no other index of that course has the matric |
| Submission.StaffAddAppends | src/submission.js:195-213 | with no edit pending, exactly one entry (today, chosen status or "Present") is appended to the filtered course, creating it if needed; other courses are unchanged |
| Submission.StaffAddRejectsKnownMatric | src/submission.js:198-202 | a new entry whose matric is already in the course, on any date, is refused as a duplicate |
| Submission.StaffEditReplacesOne | src/submission.js:204-206 | an edit save overwrites only the edited position, whose date becomes today; length, other positions and other courses are unchanged |
| Submission.StaffEditKeepsOwnMatric | src/submission.js:198 | in a course without repeated matrics (check-ins on different dates can break this), keeping the edited entry's own matric never counts as a duplicate |
| Submission.StaffSavePreservesNoDupMatric | src/submission.js:198-213 | if no course repeats a matric before a save, none does after it |
| Submission.StaffSavePreservesNoDupMatricDate | src/submission.js:198-213 | if no course has two entries sharing matric and date before a save, none does after it; this is the invariant the shared store keeps |
| Submission.DeleteAt | src/submission.js:126-127 | other courses are untouched; a course key that remains has a non-empty list |
| Submission.DeleteAtRemovesOne | src/submission.js:126-127 | deleting an existing index removes exactly that entry, keeping the others in order; the key disappears exactly when the list had one entry |
| Submission.DeleteAtPreservesNoDup | src/submission.js:126-127 | a delete keeps both duplicate rules |
| Submission.GuestCannotDelete | src/submission.js:85 | the default session's role does not pass the delete gate |
| Submission.CanDeleteIgnoresCase | src/submission.js:85 | example of CanDeleteCaseInsensitive: the role "Lecturer" passes |
| Submission.CanDeleteCaseInsensitive | src/submission.js:85 | for every role, the gate gives the same answer as for the lower-cased role |
| Submission.StaleEditSlotAfterDelete | src/submission.js:122-129 | as written: with an edit pending at index 1 when index 0 is deleted, saving the entry's own matric is refused, and saving a new matric overwrites the wrong entry |
| Submission.SubmissionPage.constructor | src/submission.js:11-31 | on load: the stored records or an empty store, the stored session or the guest, no edit, and the filter set to "all" |
| Submission.SubmissionPage.BeginEdit | src/submission.js:109-111 | the edit slot holds the clicked row's course and index; the store is unchanged |
| Submission.SubmissionPage.CancelEdit | src/submission.js:224-232 | the slot is emptied and nothing else changes |
| Submission.SubmissionPage.SelectCourse | src/submission.js:386-387 | the filter becomes the chosen value and any pending edit is cancelled |
| Submission.SubmissionPage.AddInfo | src/submission.js:176-220 | refused: store, snapshot and slot unchanged, with StaffSave's error; accepted: the store becomes StaffSave's result, is persisted, and the slot is emptied; (matric, date) duplicate-freedom is kept |
| Submission.SubmissionPage.Delete | src/submission.js:122-129 | refused without the role; otherwise the store becomes DeleteAt's result, is persisted, and (corrected) the pending edit is cancelled; (matric, date) duplicate-freedom is kept |
| Submission.SubmissionPage.SortAll | src/submission.js:57-61 | every course keeps its key, is ordered by matric and is a permutation of its old list; (matric, date) duplicate-freedom is kept |
| Submission.SubmissionPage.Summary | src/submission.js:327-352 | "no records" exactly when no visible course has an entry on the target date; otherwise one tally per visible course |
| CheckIn.FindUser | src/main.js:136 | finds a user exactly when some user matches (name ignoring case, password exactly), and then the first such user |
| CheckIn.FindUserIgnoresNameCase | src/main.js:136 | the typed name's letter case never changes the lookup |
| CheckIn.SignInPasswordIsCaseSensitive | src/main.js:136 | example of FindUser's exact password match: "Lecturer" matches no account |
| CheckIn.SelfCheckIn | src/main.js:47-68 | an empty name, matric or course gives MissingField; filled fields with that (matric, date) already in the course give AlreadyRecorded; the check-in is accepted exactly when the fields are filled and the course has no entry with that matric on that date |
| CheckIn.SelfCheckInAppends | src/main.js:58-68 | an accepted check-in appends exactly one "Present" entry dated today, creating the course if it is missing; other courses are unchanged |
| CheckIn.SelfCheckInRecordsOnce | src/main.js:62-68 | after an accepted check-in, the matric appears exactly once on that date in that course |
| CheckIn.SecondCheckInRefused | src/main.js:62-66 | repeating the same check-in on the same day is refused as AlreadyRecorded |
| CheckIn.SelfCheckInOtherDateAccepted | src/main.js:62 | a matric recorded only on other dates is accepted |
| CheckIn.SelfCheckInPreservesNoDup | src/main.js:62-68 | if no course repeats a (matric, date) pair before a check-in, none does after it |
| CheckIn.CheckInPage.constructor | src/main.js:91 | on load: the stored records or an empty store, and the session forced back to the guest |
| CheckIn.CheckInPage.AddInfo | src/main.js:47-80 | refused: store, snapshot and session unchanged, with SelfCheckIn's error; accepted: the store becomes SelfCheckIn's result, is persisted, and the session resets to the guest; (matric, date) duplicate-freedom is kept |
| CheckIn.CheckInPage.Login | src/main.js:132-145 | succeeds exactly when FindUser finds a user; the session then becomes that user's name and role and is persisted; a failed login changes nothing |

## Left out

- Rendering is not modelled: HTML rows, striping, buttons, modals, alerts and their timers, event wiring, the Alt+L key handler, page redirects and `populateFilter`. They only display the store.
- The PDF export (`src/submission.js:234-325`) is not modelled. It calls a foreign PDF library, and its counting loop repeats the summary's without the all-zero test.
- Browser storage and JSON are abstracted. Each save sets the snapshot field `saved`; load receives the stored values as `Option` parameters.
- The date library is not modelled. The current date is the `today` parameter, and the picked summary date arrives already formatted.
- The numeric, locale-aware comparison is not modelled. It is the `leq` parameter, assumed only to be a total preorder.
- MatricOrder.SortByMatric: stability is not stated. The insertion sort never moves an entry past an equal one, but only ordering and permutation are proved.
- Submission.SubmissionPage.SortAll: same as SortByMatric, no stability. It also requires that no edit is pending, because the slot's index would no longer name the same entry after sorting. Every render follows a save, a delete or a filter change. In the model each of these empties the slot; for the delete this holds only because Delete is the corrected handler (see "## Findings").
- Submission.SubmissionPage.AddInfo: the handler's trailing render, which re-sorts every course in place (`src/submission.js:219`, then 139 and 57-61), is the separate SortAll step. Right after AddInfo the model's `records` is the pre-sort store, equal to the snapshot; in the source only the snapshot is unsorted and the in-memory store is already sorted.
- Submission.SubmissionPage.Delete: the same split as AddInfo; the render at `src/submission.js:128` is the separate SortAll step, so right after Delete `records` equals the unsorted snapshot.
- Submission.SubmissionPage.constructor: the render on page load (`src/submission.js:411`) that sorts the loaded store in place is likewise the separate SortAll step.
- Text.Trim and Text.ToLower handle ASCII only. JavaScript's Unicode whitespace and case mapping are not modelled.
- Summary.CountsBounded: it bounds the three displayed buckets. It does not bound the sum over every status key, including keys for unexpected statuses.
- The logout handler (`src/submission.js:33-39`) is not modelled. It only removes the stored session and redirects.
- A stored session without a role (the `?.` in the gate) is not modelled; the role is always a string here.
- The order in which courses are visited (JavaScript key order) is not modelled; the tallies are a map.
- Submission.SubmissionPage.BeginEdit requires that the clicked row exists, as it does for every rendered row.
- Submission.SubmissionPage.Delete: a course missing at delete time returns NoSuchCourse. The browser code would throw there, but the button exists only for a rendered row.
- The cancel button registers its listener twice. Cancelling twice is the same as cancelling once, so it is not modelled.
- Location checks are not modelled, because nothing in the source performs one.
- CheckIn.SelfCheckIn: the store is modelled as a plain map, not as a JavaScript object with inherited keys. For a course typed as "constructor", "toString" or "__proto__", the source finds an inherited value at `src/main.js:58`, and `.some` at line 62 throws: nothing is pushed or saved and the session is not reset. The model accepts the check-in and creates the course.
- CheckIn.CheckInPage.AddInfo: the same inherited-key gap as SelfCheckIn; the model records the check-in where the source throws.
- Submission.StaffSave: the same inherited-key gap for a target course named like an inherited property (`src/submission.js:195-198`); there line 195 stores the inherited value as the course's list and `.some` at line 198 throws, while the model treats the course as absent.
- Submission.StaffSave requires that a pending edit names an existing position. The stale-slot finding therefore covers only a slot that is still in range. In the source a delete can leave the slot out of range: deleting while the last index is edited makes line 206 write past the end, and deleting a course's only entry while it is edited makes line 206 re-create the pruned course. With the corrected Delete this cannot happen.

## Findings

| source | as written | input that shows it | evidently intended | confidence | as-written member | corrected member |
|---|---|---|---|---|---|---|
| src/submission.js:122-129 | the delete handler removes the entry but leaves `editIndex`/`editCourse` set, although every later index of that course shifts down by one | course Math = [Ada CS/100, Ben CS/101, Cy CS/102]; start editing Ben (index 1); delete Ada; save Ben with CS/101 (refused as a duplicate of Ben himself) or with CS/201 (overwrites Cy, and Ben's old entry stays) | a delete cancels the pending edit, as a change of filter does | medium, not executed | Submission.StaleEditSlotAfterDelete | Submission.SubmissionPage.Delete |
