# Attendance, blog and contact stores

This repository holds three small browser apps, and each keeps one list of records in
`localStorage`:

- an **attendance tracker** with an add form, an edit dialog, delete buttons, a
  search/status/date filter, ten-per-page paging and the day's status counts;
- a **blog manager**, where one editor both creates and updates posts, and posts carry
  comma-separated tags, a search-and-category view and a 200-character preview;
- a **contact manager**, where one form adds or edits contacts, with a
  name/phone/email search.

The model has one module per app. Each app is a class whose fields are the script's
state:

- the list, as a `seq`;
- the filtered view and the current page (attendance);
- the edit-mode flags (blog, contacts);
- a ghost snapshot of the storage key, where `None` means the key was never written.

Every class keeps `Valid()`, which says the snapshot reloads to the current list, plus
the app's own invariant:

- attendance: the filtered view is the filter of the list, and the page is in range;
- contacts: edit mode is on exactly when an id is set, and that id is in the list.

Each handler is a method. Its `ensures` gives the new list in terms of a specification
function on the old one. Lemmas about those functions state what the apps promise:

- filters are order-preserving subsequences with exact multiplicities;
- edits keep ids and creation times, and leave the other positions alone;
- validation is an if-and-only-if;
- pages partition the filtered list;
- tags round-trip through the editor.

Shared modules model the JavaScript built-ins the scripts use:

- `JsString`: `trim`, ASCII `toLowerCase`/`toUpperCase`, `includes`, `split` and `join`;
- `JsArray`: `filter`, `findIndex`, `slice` and `length` of a filter;
- `Storage`: `JSON.parse(getItem(key)) || []`, with a snapshot predicate;
- `Wrappers`: `Option`.

Values the scripts read from outside become method parameters:

- form fields;
- ids from `Date.now()` (a number in the first two apps, a string in the contacts app);
- ISO timestamps and "today";
- the answer to `confirm()`;
- the values of the filter controls.

## Model

| member | source | states |
|---|---|---|
| Attendance.NewRecord | Attendence_Mangement_System/app.js:99-108 | the added entry has the given id and timestamp, no `updatedAt`, the form's date and status, the form's name and remarks trimmed, and the form's student id trimmed and upper-cased; the result is normalised |
| Attendance.EditedRecord | Attendence_Mangement_System/app.js:162-170 | the rewritten entry keeps id and `createdAt`, gets `updatedAt`, takes the dialog's date and status, its name and remarks trimmed and its student id trimmed and upper-cased, and is normalised like an added one |
| Attendance.ResubmitUnchanged | Attendence_Mangement_System/app.js:137-142 | saving the edit dialog as filled from a normalised entry changes only `updatedAt` |
| Attendance.ValidationErrors | Attendence_Mangement_System/app.js:409-441 | each error is raised exactly when its condition holds: name under 2 characters, id under 3, another entry (different id) with the same student id and date |
| Attendance.ValidateRecord | Attendence_Mangement_System/app.js:409-441 | accepted if and only if the name has at least 2 characters, the id at least 3, and no other entry has the same student id and date |
| Attendance.AddKeepsInvariants | Attendence_Mangement_System/app.js:110-116 | an accepted entry with a fresh id, put in front, keeps ids unique and at most one entry per student and day |
| Attendance.IndexOfId | Attendence_Mangement_System/app.js:157-159 | -1 exactly when no entry has the id, otherwise the first index holding it |
| Attendance.EditRecords | Attendence_Mangement_System/app.js:156-170 | same length; an absent id leaves the list unchanged; the entry at the first index holding the id becomes the edited entry built from the dialog; every other index is unchanged; every id and `createdAt` is kept |
| Attendance.EditKeepsUniqueIds | Attendence_Mangement_System/app.js:162-170 | an edit keeps ids unique |
| Attendance.EditCanDuplicateEntry | Attendence_Mangement_System/app.js:153-177 | two entries for different students on one day, unique in both senses; editing the second onto the first's student id breaks one-entry-per-student-and-day |
| Attendance.CheckedEditRecords | Attendence_Mangement_System/app.js:153-177 | the edit with `validateRecord` applied: for a present id, the plain edit when the edited entry passes validation and the unchanged list when it fails; it keeps one-entry-per-student-and-day whenever ids are unique |
| Attendance.CheckedEditKeepsEntries | Attendence_Mangement_System/app.js:429-433 | replacing an entry by a validated one with the same id keeps one-entry-per-student-and-day |
| Attendance.RemoveId | Attendence_Mangement_System/app.js:187 | no entry with the id remains; the rest is an order-preserving subsequence holding every other entry as often as before; an absent id changes nothing |
| Attendance.DeleteKeepsInvariants | Attendence_Mangement_System/app.js:187 | a delete keeps ids unique and one entry per student and day |
| Attendance.FilterRecords | Attendence_Mangement_System/app.js:197-215 | the view is an order-preserving subsequence holding each entry as often as the list does when it passes all three of search, status and date, and never otherwise |
| Attendance.ClearedFiltersShowAll | Attendence_Mangement_System/app.js:221-226 | with all three controls empty the view is the whole list |
| Attendance.SearchIgnoresCase | Attendence_Mangement_System/app.js:198-206 | typing the search term in capitals gives the same view |
| Attendance.TotalPages | Attendence_Mangement_System/app.js:248 | the smallest page count whose pages hold `n` entries; zero exactly when `n` is zero |
| Attendance.PageOf | Attendence_Mangement_System/app.js:249-251 | page `p` is the filtered entries from index `(p-1)*10` to `p*10`, clipped to the list, at most 10 of them |
| Attendance.PageHoldsEntry | Attendence_Mangement_System/app.js:248-251 | entry `i` of the view appears on page `i/10+1`, which is a real page, at row `i%10` |
| Attendance.PageSizes | Attendence_Mangement_System/app.js:248-251 | pages before the last hold 10 entries, the last holds the remainder, later pages are empty |
| Attendance.ClampPage | Attendence_Mangement_System/app.js:319-324 | the new page is the stepped page when that is in range; otherwise it is clamped to 1 or to the last page; it is 0 when the view is empty |
| Attendance.TodayStats | Attendence_Mangement_System/app.js:335-343 | total is the list length; today's total and the Present, Absent and Late counts are the counts of the matching entries; present + absent + late <= today's total <= total |
| Attendance.AttendanceApp.constructor | Attendence_Mangement_System/app.js:4-7 | the list is the saved one (empty when nothing was saved), filtered by the controls, on page 1 |
| Attendance.AttendanceApp.ApplyFilters | Attendence_Mangement_System/app.js:197-219 | the view becomes the filter of the unchanged list and the page resets to 1 |
| Attendance.AttendanceApp.ClearAllFilters | Attendence_Mangement_System/app.js:221-226 | the controls are emptied and the view is the whole list, on page 1 |
| Attendance.AttendanceApp.HandleAddRecord | Attendence_Mangement_System/app.js:96-127 | a rejected entry changes nothing; an accepted one is put in front of the unchanged old list, which is saved and re-filtered; both uniqueness invariants are kept for a fresh id |
| Attendance.AttendanceApp.HandleEditRecord | Attendence_Mangement_System/app.js:153-177 | an absent id changes nothing; otherwise the list becomes the edited list, is saved and re-filtered, and ids stay unique |
| Attendance.AttendanceApp.DeleteRecord | Attendence_Mangement_System/app.js:182-192 | an unconfirmed delete changes nothing; a confirmed one removes the id, saves and re-filters, and keeps both invariants |
| Attendance.AttendanceApp.ChangePage | Attendence_Mangement_System/app.js:319-324 | only the page changes, to the clamped step, which stays within the pages of a non-empty view |
| Blog.ParseTags | BlogManagementSystem/blog-script.js:42 | empty text gives no tags; otherwise the text is the comma-join of comma-free pieces, one per comma plus one, and each tag is its piece trimmed |
| Blog.TrimmedPiecesOfJoin | BlogManagementSystem/blog-script.js:160 | splitting the `", "`-joined tags at commas and trimming gives the tags back |
| Blog.JoinedTagsParseBack | BlogManagementSystem/blog-script.js:160 | the tags shown in the editor parse back to the same tags, except the single empty tag |
| Blog.NewPost | BlogManagementSystem/blog-script.js:51-60 | the new post has the given id, the form's fields, the parsed tags, and `createdAt` equal to `updatedAt` |
| Blog.UpdatedPost | BlogManagementSystem/blog-script.js:36-44 | the updated post keeps id and `createdAt`, takes the form's fields and parsed tags, and gets the new `updatedAt` |
| Blog.ResubmitUnchanged | BlogManagementSystem/blog-script.js:156-160 | opening a post in the editor and saving it unchanged changes only `updatedAt`, for every post whose tags are parser output other than the single empty tag `[""]` (which the editor shows as empty text and which then saves as no tags) |
| Blog.IndexOfPost | BlogManagementSystem/blog-script.js:34 | -1 exactly when no post has the id, otherwise the first index holding it |
| Blog.UpdatePosts | BlogManagementSystem/blog-script.js:34-46 | same length; an absent id leaves the list unchanged; the post at the first index holding the id becomes the updated post built from the form; every other index is unchanged; ids and `createdAt` are kept |
| Blog.RemovePost | BlogManagementSystem/blog-script.js:173 | no post with the id remains; the rest is an order-preserving subsequence with every other post as often as before; an absent id changes nothing |
| Blog.SaveAfterDeletingEditedPost | BlogManagementSystem/blog-script.js:171-179 | after the post being edited is deleted, saving the editor leaves the list as the delete left it |
| Blog.VisiblePostsSpec | BlogManagementSystem/blog-script.js:89-107 | the two optional filters are one filter: a post is shown, as often as it is in the list and in list order, exactly when the search term is empty or matches title, author, content or a tag ignoring case, and the category is empty or equal |
| Blog.VisiblePosts | BlogManagementSystem/blog-script.js:89-107 | never more posts than the list; with a category chosen every shown post is in it; with a search term every shown post matches it; with neither, the whole list |
| Blog.Preview | BlogManagementSystem/blog-script.js:128 | content of at most 200 characters is shown whole; longer content shows its first 200 characters plus `...`; never more than 203 |
| Blog.Stats | BlogManagementSystem/blog-script.js:190-193 | the total and the published count both equal the number of posts |
| Blog.BlogApp.constructor | BlogManagementSystem/blog-script.js:2-3 | the saved posts (empty when nothing was saved), nothing under edit |
| Blog.BlogApp.Submit | BlogManagementSystem/blog-script.js:23-70 | in edit mode the list becomes the updated list (unchanged if the post is gone) and edit mode ends; otherwise the new post goes in front of the unchanged list; the list is saved |
| Blog.BlogApp.Cancel | BlogManagementSystem/blog-script.js:73-76 | edit mode ends, the posts are unchanged |
| Blog.BlogApp.EditPost | BlogManagementSystem/blog-script.js:150-154 | the post under edit becomes the id exactly when a post has it; otherwise nothing changes |
| Blog.BlogApp.DeletePost | BlogManagementSystem/blog-script.js:171-179 | an unconfirmed delete changes nothing; a confirmed one removes the id and saves; edit mode is untouched |
| Contacts.FilteredContacts | script.js:22-26 | the shown contacts are an order-preserving subsequence, each as often as in the list exactly when name or email (ignoring case) or phone (case-sensitive) contains the filter; an empty filter shows all |
| Contacts.PhoneMatchIsCaseSensitive | script.js:24 | there is a contact that a filter finds through its phone number and that the same filter typed in lower case does not find |
| Contacts.ReplaceContact | script.js:95-97 | same length and ids; contacts with the edited id get the new name, phone and email; the others are unchanged; a missing id changes nothing |
| Contacts.RemoveContact | script.js:60 | no contact with the id remains; the rest is an order-preserving subsequence with every other contact as often as before |
| Contacts.RemoveKeepsOthers | script.js:60 | a contact with a different id survives the delete |
| Contacts.ContactApp.constructor | script.js:10-12 | the saved contacts (empty when nothing was saved), not editing |
| Contacts.ContactApp.ResetForm | script.js:48-55 | edit mode is off and no id is set; the contacts are unchanged |
| Contacts.ContactApp.DeleteContact | script.js:58-65 | an unconfirmed delete changes nothing; a confirmed one removes the id and saves, and leaves edit mode exactly when that id was being edited |
| Contacts.ContactApp.EditContact | script.js:67-84 | edit mode is entered with that id exactly when a contact has it; otherwise nothing changes |
| Contacts.ContactApp.Submit | script.js:87-111 | editing: every contact with the edited id is replaced in place; adding: the new contact goes at the end of the unchanged list; the list is saved and edit mode is off |
| JsString.Trim | Attendence_Mangement_System/app.js:102-106 | the result is a slice of the input with no whitespace at either end, and everything cut off before and after it is whitespace |
| JsString.TrimOfTrimmed | Attendence_Mangement_System/app.js:164-168 | trimming text without outer whitespace changes nothing |
| JsString.SplitCount | BlogManagementSystem/blog-script.js:42 | splitting gives one piece per separator plus one |
| JsString.JoinSplit | BlogManagementSystem/blog-script.js:42 | joining the pieces of a split with the separator gives the text back |
| JsArray.Filter | Attendence_Mangement_System/app.js:202 | no longer than the input, and every kept element satisfies the predicate |
| JsString.Lower | Attendence_Mangement_System/app.js:198 | same length, no ASCII capital left, and each character is the input's up to case |
| JsString.Upper | Attendence_Mangement_System/app.js:103 | same length, no ASCII lower-case letter left, and each character is the input's up to case |
| JsString.IncludesIsSlice | Attendence_Mangement_System/app.js:205 | `includes` holds exactly when the term is a contiguous slice of the text |
| JsString.Split | BlogManagementSystem/blog-script.js:42 | at least one piece, and no piece holds the separator |
| JsString.Join | BlogManagementSystem/blog-script.js:160 | the joined text starts with the first part and is as long as the parts plus one separator between each neighbouring pair |
| JsString.JoinHoldsParts | BlogManagementSystem/blog-script.js:160 | every part occurs in the joined text |
| Storage.Load | Attendence_Mangement_System/app.js:4 | a key never written reads as the empty list, a saved list reads as itself |
| JsArray.FilterSpec | Attendence_Mangement_System/app.js:202-215 | a filter is an order-preserving subsequence holding each element as often as the input when the predicate holds, and never otherwise |
| JsArray.FindIndex | Attendence_Mangement_System/app.js:157 | -1 exactly when no element satisfies the predicate, otherwise the first index that does |
| JsArray.Slice | Attendence_Mangement_System/app.js:251 | for bounds in order, the slice between the clipped bounds; empty when the end is not after the start |

## Left out

- Rendering is not modelled: HTML templating, `escapeHtml`, modal show/hide, button labels, `scrollIntoView` and the empty-state messages. The model keeps the lists that rendering reads.
- `openEditModal` and the copying of a post or contact into the form are not modelled as operations. What the form then holds is the `FormOf` function, and the resubmit lemmas use it.
- `JSON.parse` and `JSON.stringify` are not modelled. A saved list is a ghost snapshot of the list value. A missing key reads as the empty list. Malformed saved text makes the scripts throw at start-up, and the model does not represent it.
- `confirm()` dialogs are a boolean parameter of each delete.
- Alerts, notifications, `setTimeout` and the search box's debounce are not modelled: they are timers and display only.
- `Date.now()`, `new Date().toISOString()`, `formatDate` and locale formatting are parameters.
- Blog.NewPost: the create branch reads the clock twice (`createdAt`, `updatedAt`); the model passes one reading for both.
- Ids are not modelled as unique. The uniqueness lemmas take a fresh id as a precondition.
- The attendance percentages are not modelled, because they use floating-point division and `Math.round`.
- CSV export and the Blob download are not modelled: they are browser file I/O with locale dates.
- Keyboard shortcuts are not modelled.
- JsString.Lower and JsString.Upper map ASCII letters only. JavaScript's `toLowerCase`/`toUpperCase` apply full Unicode case mapping.
- Strings are sequences of code points, while JavaScript's `length`, `substring` and `slice` count UTF-16 code units. The two members below differ on text outside the Basic Multilingual Plane.
- Blog.Preview: a character outside the Basic Multilingual Plane counts once, not twice, so the cut at 200 can fall elsewhere than in the browser.
- Attendance.ValidateRecord: the name and id length checks count code points, so a name of one emoji (JavaScript length 2) is rejected here but accepted by the page.
- The attendance edit handler's `parseInt` of the hidden id field is an integer parameter. A `NaN` id matches no record, like any absent id.
- The paging buttons are disabled on the first and last page (Attendence_Mangement_System/app.js:309-310), which is display only. `ChangePage` accepts any step and clamps, as the handler does.
- Clamping of the current page lives in `changePage`. `renderRecords` slices with whatever page is current, so `PageOf` takes any page and `ClampPage` models the clamp.

## Findings

| source | as written | input that shows it | evidently intended | confidence | as-written member | corrected member |
|---|---|---|---|---|---|---|
| Attendence_Mangement_System/app.js:153-177 | `handleEditRecord` writes the edited entry without calling `validateRecord`, whose `r.id !== record.id` clause exists only for edits; an edit can give one student two entries on one day, and skips the length checks too | entries 1 (S001) and 2 (S002) on 2024-01-01; edit entry 2 to student id S001 on the same date | validate the edited entry against the other entries and reject the edit on failure, so at most one entry per student and day survives edits | medium, not executed | Attendance.EditCanDuplicateEntry | Attendance.CheckedEditRecords |
