# Lecture notes: note and course consistency

A Dafny model of the data logic of a small lecture-notes web application
(React handlers over a Supabase back end). A signed-in user owns courses;
each course holds notes, and each note is a file in the `notes` storage
bucket plus a row in the `notes` table. Every `courses` row carries a
denormalised `note_count` counter. The handlers coordinate three remote
stores with no transaction:

- the object store;
- the `notes` table;
- the `courses` table.

The model covers which step may fail, what each failure leaves behind, and
which lists the pages show.

Modules, in dependency order:

- `Strings`: `trim`, ASCII `toLowerCase`, `split('.').pop()`, and the decimal
  rendering of a number in a template string.
- `Lists`: a generic filter and a newest-first ordering (ties later-inserted first), with the
  lemmas that relate them.
- `Tables`: rows, the listing queries, the counter updates, and the lemmas
  about the counter (`CounterExact`) and about the listings after inserts
  and deletes.
- `Store`: class `Backend`, the three stores and one method per remote
  request. Each request takes an `ok` flag that says whether the service
  answers with an error.
- `Supabase`: `getFileType` and `uploadFile`.
- `NoteUpload`: class `NoteUploadForm`, with the file check of
  `handleFileChange` and the validate → upload → insert → counter sequence
  of `handleSubmit`.
- `CourseDetail`: class `CourseDetailPage`, which fetches a course, adds a
  note, deletes a note and deletes a course.
- `CourseForm`: class `CourseModal`, which creates a course.
- `Dashboard`: class `DashboardPage`, which lists courses and shows their
  counters.

Three behaviours are modelled as the code has them, although a reader might expect a refused delete, an error for a missing note, or a different course query:

- Deleting a course that the viewer does not own is not refused. The
  owner-scoped delete matches no row and reports no error, the note rows of
  that course have already been deleted, and the page returns to the
  dashboard (`CourseDetail.DeleteCourseRequests`,
  `Tables.FindCourseAfterCourseDelete`).
- Deleting a note whose row is already gone is not an error. The delete
  matches no row, and the decrement still runs, so the counter ends one
  below the number of rows (`Tables.StaleDeleteUndercounts`).
- `src/pages/CourseDetailPage.jsx:42-43` repeats the line `.single();`,
  which does not parse as written. The model treats the course query as the
  single chain `.select('*').eq('id', id).single()`.

## Model

| member | source | states |
|---|---|---|
| Strings.Trim | src/components/NoteUploadModal.jsx:99-103 | `trim()`: the result is a contiguous slice of the input, everything before and after that slice is white space, the result has no white space at either end, and it is empty exactly when the input is all white space |
| Strings.ToLower | src/lib/supabase.js:49 | `toLowerCase()` keeps the length and lower-cases each letter, leaving other characters alone |
| Strings.StartsWith | src/components/NoteUploadModal.jsx:63 | `startsWith(prefix)` holds iff the prefix is no longer than the string and agrees with it position by position |
| Strings.AfterLast | src/lib/supabase.js:14 | `split(sep).pop()` holds no separator, and the character in front of it is the separator unless it is the whole string |
| Strings.AfterLastIsSuffix | src/lib/supabase.js:14 | `split(sep).pop()` is a suffix of the string |
| Strings.AfterLastNoSep | src/components/NoteUploadModal.jsx:60 | a string with no separator is its own last segment |
| Strings.AfterLastOfJoin | src/lib/supabase.js:14-15 | the last segment of `p + sep + e` is `e` when `e` has no separator |
| Strings.AfterLastToLower | src/lib/supabase.js:49 | lower-casing commutes with taking the last dot segment |
| Strings.NatToString | src/components/NoteUploadModal.jsx:124 | the template rendering of a number is a non-empty string of digits; with `ParseNatToString` it reads back as the number |
| Strings.NatToStringDigits | src/components/NoteUploadModal.jsx:124 | the rendering of `Date.now()` is all digits, with no leading zero |
| Strings.ParseNatToString | src/components/NoteUploadModal.jsx:138 | the decimal rendering of a number reads back as that number |
| Supabase.Extension | src/lib/supabase.js:49 | the extension holds no dot and no upper-case letter, and is no longer than the name |
| Supabase.ExtensionWithoutDot | src/components/NoteUploadModal.jsx:60 | a name with no dot is its own extension, lower-cased |
| Supabase.GetFileType | src/lib/supabase.js:48-62 | each of the five answers holds exactly when the extension is in its table row, and `other` exactly when it is in none |
| Supabase.GetFileTypeIgnoresCase | src/lib/supabase.js:49 | names equal up to letter case get the same category |
| Supabase.GetFileTypeOfLowered | src/lib/supabase.js:49 | lower-casing a name keeps its category |
| Supabase.StoredName | src/lib/supabase.js:14-15 | the generated name is exactly the random token, a dot, and the original name's last dot segment: it starts with `token.`, has the length of those three parts, and its last dot segment is the original's, so no other part of the picked name survives |
| Supabase.StoredPath | src/lib/supabase.js:16 | the path is exactly `folder/` (nothing for an empty folder) followed by the generated name: it ends with that name and has the length of the two parts together |
| Supabase.StoredPathKeepsExtension | src/lib/supabase.js:14-16 | the stored path ends in the original name's last dot segment, with its case kept |
| Supabase.StoredPathUnderFolder | src/lib/supabase.js:16 | with a non-empty folder, the stored path starts with `folder/` |
| Supabase.StoredPathKeepsFileType | src/lib/supabase.js:14-16 | the stored object has the category of the picked file's name |
| Supabase.PublicUrl | src/lib/supabase.js:31-34 | the public URL of an object lies under the project URL |
| Supabase.UploadFile | src/lib/supabase.js:8-46 | no file: the error `No file provided` with the bucket untouched. Refused write or existing path (`upsert: false`): the error `Failed to upload file to storage`, bucket untouched. Otherwise the file sits at `folder/token.ext`, and that path and its URL are returned. The only new object is the given file |
| Store.Backend.Upload | src/lib/supabase.js:19-29 | an upload succeeds only when the service accepts it and the path is free; it then adds exactly that object |
| Store.Backend.Remove | src/pages/CourseDetailPage.jsx:100-102 | on success, exactly the listed paths of the bucket are gone; nothing else changes |
| Store.Backend.InsertNote | src/components/NoteUploadModal.jsx:148-161 | on success, one row with a fresh id is appended and returned; on failure, nothing changes |
| Store.Backend.DeleteNote | src/pages/CourseDetailPage.jsx:110-113 | on success, the rows with that id are gone, the rest in order; no matching row is not an error |
| Store.Backend.DeleteCourseNotes | src/pages/CourseDetailPage.jsx:146-149 | on success, every note row of the course is gone |
| Store.Backend.ReadNoteCount | src/components/NoteUploadModal.jsx:171-175 | answers the stored counter exactly when the request succeeds and the course exists |
| Store.Backend.UpdateNoteCount | src/components/NoteUploadModal.jsx:180-183 | on success, only the counter of that course is rewritten |
| Store.Backend.DecrementNoteCount | src/pages/CourseDetailPage.jsx:121 | on success, the displayed counter of that course goes down by one |
| Store.Backend.InsertCourse | src/components/CourseModal.jsx:24-36 | on success, one course row with a fresh id and the given fields is appended and returned |
| Store.Backend.DeleteCourse | src/pages/CourseDetailPage.jsx:156-160 | on success, the row with that id and that owner is gone; a course of another owner stays |
| Store.Backend.SelectCourse | src/pages/CourseDetailPage.jsx:38-43 | the course with that id, or nothing; an error when the request fails |
| Store.Backend.SelectNotes | src/pages/CourseDetailPage.jsx:57-61 | exactly the course's note rows, newest first |
| Store.Backend.SelectCourses | src/pages/DashboardPage.jsx:24-29 | exactly the user's course rows, newest first |
| Tables.CourseIdsKept | src/components/NoteUploadModal.jsx:180-183 | rewriting counters keeps course ids unique and below the next id |
| Lists.Filter | src/pages/CourseDetailPage.jsx:128 | `filter(p)` keeps, in order, exactly the elements that satisfy `p`, and is no longer than its input |
| Lists.SortDesc | src/pages/DashboardPage.jsx:29 | `order('created_at', { ascending: false })` is a permutation of its input, sorted newest first |
| Tables.ListNotes | src/pages/CourseDetailPage.jsx:57-61 | a note is listed iff it belongs to the course; the listing is a permutation of those rows, newest first |
| Tables.ListCourses | src/pages/DashboardPage.jsx:24-29 | a course is listed iff the user owns it; the listing is a permutation of those rows, newest first |
| Tables.WithoutNote | src/pages/CourseDetailPage.jsx:128 | `notes.filter(n => n.id !== k)` keeps exactly the notes whose id is not `k` |
| Tables.Displayed | src/pages/DashboardPage.jsx:94 | `note_count \|\| 0`: 0 for a missing counter, the stored value otherwise |
| Tables.FindCourse | src/pages/CourseDetailPage.jsx:38-43 | finds a row of the table with that id, or reports that no row has it |
| Tables.SetNoteCount | src/components/NoteUploadModal.jsx:180-183 | only the counter of the rows of that id is replaced |
| Tables.Decremented | src/pages/CourseDetailPage.jsx:121 | the displayed counter is one lower and the id is kept |
| Tables.DecrementCount | src/pages/CourseDetailPage.jsx:121 | only the rows of that id are decremented |
| Tables.FindCourseAfterSet | src/components/NoteUploadModal.jsx:180-183 | after a counter write, the course reads back with the new counter, and other courses read back unchanged |
| Tables.FindCourseAfterDecrement | src/pages/CourseDetailPage.jsx:121 | after a decrement, the course reads back decremented, and other courses read back unchanged |
| Tables.CountAfterAppend | src/components/NoteUploadModal.jsx:148-161 | an inserted note adds one to its course's row count |
| Tables.BumpedCount | src/components/NoteUploadModal.jsx:171-189 | after the counter step, the table has the same length and only the course's own counter may change; when read and write succeed the course reads back with its displayed counter plus one, otherwise the table is unchanged |
| Tables.UploadKeepsCounterExact | src/components/NoteUploadModal.jsx:148-189 | an exact counter stays exact through an upload whose counter read and write both succeed |
| Tables.UploadWithoutCountLags | src/components/NoteUploadModal.jsx:177-188 | when the counter read or write fails, the counter ends one below the number of rows |
| Tables.WithoutPresentNote | src/pages/CourseDetailPage.jsx:110-113 | with unique ids, deleting a present id removes exactly one row |
| Tables.DeleteShrinksCourseCount | src/pages/CourseDetailPage.jsx:110-113 | deleting a present note removes one row from its course |
| Tables.DeleteKeepsCounterExact | src/pages/CourseDetailPage.jsx:110-125 | an exact counter stays exact through a delete of a present note whose decrement succeeds |
| Tables.DeleteWithoutDecrementLeads | src/pages/CourseDetailPage.jsx:120-125 | when the decrement fails, the counter ends one above the number of rows |
| Tables.StaleDeleteUndercounts | src/pages/CourseDetailPage.jsx:110-125 | deleting an id no row has removes nothing, yet the decrement leaves the counter one below the number of rows |
| Tables.NoteListingAfterInsert | src/pages/CourseDetailPage.jsx:76-78 | prepending the newest note of the course gives the listing the table would return after the insert |
| Tables.NoteListingAfterDelete | src/pages/CourseDetailPage.jsx:128 | filtering the id out of the listing gives the listing the table would return after the delete |
| Tables.NoteListingAfterCourseDelete | src/pages/CourseDetailPage.jsx:146-149 | after the notes of a course are deleted, it lists none |
| Tables.CourseListingAfterInsert | src/pages/DashboardPage.jsx:44-46 | prepending the user's newest course gives the listing the table would return after the insert |
| Tables.FindCourseAfterCourseDelete | src/pages/CourseDetailPage.jsx:156-160 | after the owner-scoped delete, the course is gone iff the viewer owned it |
| Tables.FindCourseAppend | src/components/CourseModal.jsx:24-36 | appending a row changes a lookup only when no earlier row had that id |
| Tables.NewCourseCounterExact | src/components/CourseModal.jsx:24-33 | a course inserted with `note_count: 0` whose fresh id no note refers to starts with an exact counter |
| NoteUpload.Accept | src/components/NoteUploadModal.jsx:24-45 | the `accept` text of a category is empty exactly for `text`, the category that picks no file |
| NoteUpload.IsValidType | src/components/NoteUploadModal.jsx:57-69 | `image` iff the MIME type starts with `image/`, `audio` iff it starts with `audio/`, `pdf` iff the MIME type is `application/pdf` or the name's extension is `pdf`; no picked file passes under `text` |
| NoteUpload.InvalidTypeMessage | src/components/NoteUploadModal.jsx:72-74 | the message is `Invalid file type. Please select a <category> file (`, then the category's `accept` text, then `)` |
| NoteUpload.IsValidTypeIgnoresCase | src/components/NoteUploadModal.jsx:60 | the check ignores the letter case of the name |
| NoteUpload.ReplaceUnsafe | src/components/NoteUploadModal.jsx:123 | the replacement is one for one: every character outside `[a-zA-Z0-9._-]` becomes `_`, the others stay |
| NoteUpload.SafeTitle | src/components/NoteUploadModal.jsx:123 | the safe title has the trimmed title's length, each character its lower-cased self or `_`, and is `note` for a blank title; every character is in `[a-z0-9._-]` |
| NoteUpload.TextNoteName | src/components/NoteUploadModal.jsx:124 | a text note's name is the safe title, `_`, the decimal rendering of `Date.now()` and `.txt`, in that order and nothing else |
| NoteUpload.TextNoteNameIsText | src/components/NoteUploadModal.jsx:124 | a text note's generated name is filed as `text` by the extension table |
| NoteUpload.TextNoteNameIsSafe | src/components/NoteUploadModal.jsx:123-124 | a text note's generated name holds only characters of `[a-z0-9._-]` |
| NoteUpload.CourseFolder | src/components/NoteUploadModal.jsx:138 | the folder is `course_` followed by at least one digit and nothing else |
| NoteUpload.CourseFolderInjective | src/components/NoteUploadModal.jsx:138 | different courses get different `course_${courseId}` folders |
| NoteUpload.ValidationError | src/components/NoteUploadModal.jsx:99-111 | the form passes iff the trimmed title is non-empty, a text note has non-blank text, and another category has a file; a blank title gives `Note title is required` |
| NoteUpload.FileToUpload | src/components/NoteUploadModal.jsx:117-127 | outside `text`, the picked file itself; for `text`, a `text/plain` file holding the typed text under the generated text-note name, made of safe characters only |
| NoteUpload.DraftRow | src/components/NoteUploadModal.jsx:148-161 | the inserted row carries the fresh id, the course, the stored path and URL, the selected category, the uploaded file's name and the trimmed title (`title.trim()`), which is non-empty with no white space at either end |
| NoteUpload.UploadPath | src/components/NoteUploadModal.jsx:138 | the path the upload writes lies under `course_<id>/` and keeps the last dot segment of the uploaded file's name |
| NoteUpload.FileToUploadChecked | src/components/NoteUploadModal.jsx:117-127 | the uploaded file either passed the category check, or is the typed text as a `text/plain` file filed as `text` |
| NoteUpload.NoteUploadForm.SelectType | src/components/NoteUploadModal.jsx:15-22 | changing the category clears the file, the preview, the text and the error; keeping it changes nothing |
| NoteUpload.NoteUploadForm.HandleFileChange | src/components/NoteUploadModal.jsx:47-92 | no file: nothing changes. Accepted file: held, error cleared, preview reset outside `image`. Rejected file: file and preview cleared, the invalid-type message shown. Held files always pass the check |
| NoteUpload.NoteUploadForm.HandleSubmit | src/components/NoteUploadModal.jsx:94-201 | the stores and the error end as `Handled` says for the form's values: an invalid form shows its error and touches no store; a valid one ends as `Submitted`. `loading` is untouched for an invalid form and false afterwards otherwise. Every new object passed the check or holds the typed text |
| NoteUpload.ValidateAndSubmit | src/components/NoteUploadModal.jsx:96-193 | the form's values lead to the outcome `Handled`: the validation error with no store touched, or the upload and database steps; every new object passed the category check when picked, or holds the typed text |
| NoteUpload.SubmitDraft | src/components/NoteUploadModal.jsx:114-193 | after validation the stores end as `Submitted`: a refused upload or an occupied path shows `Failed to upload file. (Failed to upload file to storage)` with every store unchanged; otherwise the object is stored at the generated path and the row and counter follow `Saved`. A failed insert leaves the object with no row pointing at its path when none did before |
| NoteUpload.UploadFailedMessage | src/components/NoteUploadModal.jsx:143 | the message is `Failed to upload file. (`, the error's message, then `)` |
| NoteUpload.SaveNoteRow | src/components/NoteUploadModal.jsx:148-193 | insert failure: `Failed to save note information to database.`, tables unchanged. Insert success: the row is reported whatever the counter steps do, and the counter is bumped only when read and write both succeed |
| NoteUpload.BumpNoteCount | src/components/NoteUploadModal.jsx:171-189 | the counter becomes its displayed value plus one when the read and write succeed, and is unchanged otherwise |
| CourseDetail.CourseDetailPage.FetchCourseDetails | src/pages/CourseDetailPage.jsx:32-74 | failed course query: the load error. Missing course: back to the dashboard. Otherwise the course is shown, then either its listing is shown (in step with the table) or the load error. `loading` ends false |
| CourseDetail.CourseDetailPage.HandleNoteAdded | src/pages/CourseDetailPage.jsx:76-78 | the new note goes first and the rest keep their order; a page in step with the table stays in step after the insert |
| CourseDetail.CourseDetailPage.HandleDeleteNoteRequest | src/pages/CourseDetailPage.jsx:80-84 | the note is chosen, the confirmation opens and the delete error clears |
| CourseDetail.CourseDetailPage.CancelDeleteNote | src/pages/CourseDetailPage.jsx:86-90 | the confirmation closes, the choice and the delete error clear |
| CourseDetail.CourseDetailPage.ConfirmDeleteNote | src/pages/CourseDetailPage.jsx:92-139 | no chosen note: nothing changes. Failed row delete: the page list and the choice stay, with `Failed to delete note from database.` shown. Otherwise the note leaves the page list, the confirmation closes, and a page in step with the table stays in step |
| CourseDetail.DeleteNoteRequests | src/pages/CourseDetailPage.jsx:99-125 | the file removal is best effort and the row delete does not depend on it. The decrement follows only a successful row delete, and its failure is ignored. An exact counter stays exact when the note was present and the decrement succeeds |
| CourseDetail.CourseDetailPage.HandleDeleteCourse | src/pages/CourseDetailPage.jsx:141-174 | goes to the dashboard iff both deletes succeed, otherwise shows `Failed to delete course. Please try again.`; the confirmation closes either way |
| CourseDetail.DeleteCourseRequests | src/pages/CourseDetailPage.jsx:145-164 | the note rows go first, and a failure there leaves the course row alone. Afterwards the course lists no notes, and its row is gone iff the viewer owned it. No stored file is removed, because the bucket is outside the frame |
| CourseForm.CourseValidationError | src/components/CourseModal.jsx:15-18 | a course passes iff title and professor are non-empty, without trimming; otherwise the required-fields message |
| CourseForm.CourseModal.HandleSubmit | src/components/CourseModal.jsx:12-50 | invalid input: error shown, no insert. Failed insert: `Failed to create course. Please try again.`, modal open. Success: the row has the user's id, the description as given and counter 0, and is handed on as the modal closes; a fresh id no note uses starts counted exactly |
| Dashboard.DashboardPage.FetchCourses | src/pages/DashboardPage.jsx:20-42 | success: the user's courses newest first, in step with the table. Failure: the load error, the list kept. `loading` ends false |
| Dashboard.DashboardPage.HandleCourseAdded | src/pages/DashboardPage.jsx:44-46 | the new course goes first and the rest keep their order; a dashboard in step with the table stays in step after the insert |
| Dashboard.ShownCountMatchesCoursePage | src/pages/DashboardPage.jsx:94 | a course with an exact counter shows, as `note_count \|\| 0`, the number of notes its page lists |

## Left out

- Rendering, styling, icons and the open/close state of modals (`isUploadModalOpen`, `isModalOpen`) are not modelled. `onClose` is modelled only as the `closed` result.
- The image preview read through `FileReader` is not modelled: browser I/O that completes later. An accepted image keeps the preview it had. The reset of the DOM file input is not modelled either.
- The Supabase client is replaced by `Store.Backend`. Each request's outcome is a boolean parameter, and the database's ids come from a counter (`nextId`).
- `getPublicUrl` is modelled as `Supabase.PublicUrl`, the project URL followed by the public-object path. Its `urlError` branch is not modelled, because the call makes no request and reports no error.
- The body of the `decrement_note_count` procedure is not part of the repository. It is modelled as setting the displayed counter minus one.
- `Math.random().toString(36).substring(2, 15)`, `Date.now()` and the database's `created_at` clock are inputs (`token`, `now`, `createdAt`).
- Store.Backend.SelectCourse: `.single()` reports an error when no row matches. The model leaves that to the `ok` flag, so a missing course may show as the load error (flag false) or as the navigation to the dashboard (flag true).
- `notesData || []` and `data || []` are not modelled separately: a successful query always answers with a list.
- Exceptions thrown by the client (network failures) are folded into the same flags as returned errors. The fallback messages used when an error has no message are unreachable with the fixed messages used here.
- The check in `handleSubmit` for a missing file after validation (`Something went wrong...`) is unreachable: validation already demands a file or builds one. It is not modelled.
- Concurrency is not modelled: two uploads whose read-then-write counter updates interleave, and a second tab. Every handler runs to completion on its own.
- The foreign key from notes to courses is not enforced. `CourseForm.CourseModal.HandleSubmit` states the exact counter of a new course only under the premise that no note refers to its id.
- `toLowerCase` is modelled on ASCII letters only. Other Unicode case mappings are left out. They cannot change a category: no extension in the table contains a letter that a non-ASCII character lower-cases to. In the safe title they come after the replacement, which has already turned every non-ASCII character into `_`.
- NoteUpload.ReplaceUnsafe, NoteUpload.SafeTitle: strings are sequences of Unicode code points here, while JavaScript strings are sequences of UTF-16 code units. A title character outside the Basic Multilingual Plane (an emoji such as U+1F4D8) becomes one `_` in the model and two `_` in the program, so the stated length of the safe title counts code points, not code units.
- Strings.Trim and the other string functions share that reading: `Trim`, `ToLower` and `AfterLast` work on code points. The white-space set is the same, since every JavaScript white-space character lies in the Basic Multilingual Plane.
- NoteUpload.CourseFolder: the course id is the route parameter of `/course/:id`, a string, used as given in `course_${courseId}` and in the decrement call. The model takes it to be the decimal rendering of a numeric id, so a route such as `/course/abc` or `/course/007` gives a folder the model cannot produce, and `NoteUpload.CourseFolderInjective` relies on this reading.
- Lists.SortDesc: rows with equal `created_at` are listed with the later-inserted row first. The database leaves the order of such ties unspecified. `Tables.NoteListingAfterInsert`, `Tables.CourseListingAfterInsert` and the "stays in step" clauses of `CourseDetail.CourseDetailPage.HandleNoteAdded` and `Dashboard.DashboardPage.HandleCourseAdded` rely on this choice only when the new row's `created_at` equals an older one's; a strictly newer row comes first under any tie order.
- The authentication session, routing, the note card (fetching and previewing content), and the landing, login, navigation and footer components are not part of this model.
