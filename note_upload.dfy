/** The note upload form of a course: the category picker, the check of a
    picked file against the selected category, and `handleSubmit`, which
    validates the form, stores the file (or the typed text as a `.txt` file),
    inserts the note row and bumps the course's note counter. */
module NoteUpload {
  import opened Strings
  import opened Lists
  import opened Tables
  import opened Store
  import opened Supabase

  /** The bucket every note file is stored in. */
  const NotesBucket: string := "notes"

  /** The storage folder of a course: `course_${courseId}`. */
  function CourseFolder(c: Id): (r: string)
    ensures StartsWith(r, "course_") && |r| > 7
    ensures forall i :: 7 <= i < |r| ==> IsDigit(r[i])
  {
    NatToStringDigits(c);
    StartsWithConcat("course_", NatToString(c));
    "course_" + NatToString(c)
  }

  /** Different courses store their files in different folders. */
  lemma CourseFolderInjective(c: Id, d: Id)
    requires CourseFolder(c) == CourseFolder(d)
    ensures c == d
  {
    assert NatToString(c) == CourseFolder(c)[7..];
    assert NatToString(d) == CourseFolder(d)[7..];
    ParseNatToString(c);
    ParseNatToString(d);
  }

  /** The `accept` string the form shows for each category. */
  function Accept(t: NoteType): (r: string)
    ensures r == "" <==> t == Text
  {
    match t
    case Image => "image/*"
    case Audio => "audio/*"
    case Pdf => ".pdf,application/pdf"
    case Text => ""
  }

  /** `handleFileChange`'s check of a picked file (MIME type and name) against
      the selected category. A PDF may be recognised by its MIME type or by the
      extension table's verdict on its name; nothing picked in the text
      category passes, since a text note is typed, not picked. */
  function IsValidType(selected: NoteType, mime: string, name: string): (ok: bool)
    ensures selected == Text ==> !ok
    ensures selected == Image ==> (ok <==> StartsWith(mime, "image/"))
    ensures selected == Audio ==> (ok <==> StartsWith(mime, "audio/"))
    ensures selected == Pdf ==> (ok <==> mime == "application/pdf" || GetFileType(name) == Pdf)
  {
    match selected
    case Image => StartsWith(mime, "image/")
    case Audio => StartsWith(mime, "audio/")
    case Pdf => mime == "application/pdf" || Extension(name) == "pdf"
    case Text => false
  }

  /** The check does not care about the case of the letters in the name. */
  lemma IsValidTypeIgnoresCase(selected: NoteType, mime: string, a: string, b: string)
    requires ToLower(a) == ToLower(b)
    ensures IsValidType(selected, mime, a) == IsValidType(selected, mime, b)
  {
    GetFileTypeIgnoresCase(a, b);
  }

  /** The message shown for a file of the wrong category. */
  function InvalidTypeMessage(t: NoteType): (m: string)
    ensures StartsWith(m, "Invalid file type. Please select a " + KindName(t) + " file (")
    ensures m[|m| - 1] == ')'
    ensures m[|"Invalid file type. Please select a " + KindName(t) + " file ("|..|m| - 1] == Accept(t)
  {
    StartsWithConcat("Invalid file type. Please select a " + KindName(t) + " file (", Accept(t) + ")");
    "Invalid file type. Please select a " + KindName(t) + " file (" + Accept(t) + ")"
  }

  /** The message `handleSubmit` shows when `uploadFile` throws with `message`. */
  function UploadFailedMessage(message: string): (r: string)
    ensures StartsWith(r, "Failed to upload file. (") && r[|r| - 1] == ')'
    ensures r[|"Failed to upload file. ("|..|r| - 1] == message
  {
    "Failed to upload file. (" + message + ")"
  }

  /** Characters the title pattern `[a-z0-9._-]` matches, case ignored. */
  predicate IsKeptChar(c: char) {
    IsUpper(c) || IsLower(c) || IsDigit(c) || c == '.' || c == '_' || c == '-'
  }

  /** Characters a generated text note name is made of, besides its digits. */
  predicate IsSafeChar(c: char) {
    IsLower(c) || IsDigit(c) || c == '.' || c == '_' || c == '-'
  }

  /** `s.replace(/[^a-z0-9\._-]/gi, '_')` */
  function ReplaceUnsafe(s: string): (r: string)
    ensures |r| == |s|
    ensures forall i :: 0 <= i < |s| ==> r[i] == if IsKeptChar(s[i]) then s[i] else '_'
  {
    if s == [] then [] else [if IsKeptChar(s[0]) then s[0] else '_'] + ReplaceUnsafe(s[1..])
  }

  /** `title.trim().replace(...).toLowerCase() || 'note'`: the trimmed title,
      letter for letter, with each letter lower-cased and every other character
      outside `[a-z0-9._-]` turned into `_`. */
  function SafeTitle(title: string): (r: string)
    ensures forall i :: 0 <= i < |r| ==> IsSafeChar(r[i])
    ensures Trim(title) == "" ==> r == "note"
    ensures Trim(title) != "" ==> |r| == |Trim(title)|
    ensures Trim(title) != "" ==>
              forall i :: 0 <= i < |r| ==>
                r[i] == if IsKeptChar(Trim(title)[i]) then LowerChar(Trim(title)[i]) else '_'
  {
    var s := ToLower(ReplaceUnsafe(Trim(title)));
    if s == "" then "note" else s
  }

  /** The file name of a text note: `${safeTitle}_${Date.now()}.txt`. */
  function TextNoteName(title: string, now: nat): (r: string)
    ensures StartsWith(r, SafeTitle(title) + "_")
    ensures |r| >= 4 && r[|r| - 4..] == ".txt"
    ensures |r| == |SafeTitle(title)| + 1 + |NatToString(now)| + 4
    ensures r[|SafeTitle(title)| + 1..|r| - 4] == NatToString(now)
  {
    StartsWithConcat(SafeTitle(title) + "_", NatToString(now) + ".txt");
    SafeTitle(title) + "_" + NatToString(now) + ".txt"
  }

  /** A text note's generated name is filed as text by the extension table. */
  lemma {:induction false} TextNoteNameIsText(title: string, now: nat)
    ensures GetFileType(TextNoteName(title, now)) == Text
  {
    var stem := SafeTitle(title) + "_" + NatToString(now);
    assert TextNoteName(title, now) == stem + ['.'] + "txt";
    AfterLastOfJoin(stem, '.', "txt");
    assert Extension(TextNoteName(title, now)) == ToLower("txt");
    assert ToLower("txt") == "txt" by {
      assert forall i :: 0 <= i < 3 ==> !IsUpper("txt"[i]);
    }
  }

  /** Every character of `s` is one a generated name may hold. */
  predicate AllSafe(s: string) {
    forall i :: 0 <= i < |s| ==> IsSafeChar(s[i])
  }

  lemma AllSafeConcat(a: string, b: string)
    requires AllSafe(a) && AllSafe(b)
    ensures AllSafe(a + b)
  {
    forall i | 0 <= i < |a + b| ensures IsSafeChar((a + b)[i]) {
      if i >= |a| {
        assert (a + b)[i] == b[i - |a|];
      }
    }
  }

  /** A text note's generated name holds no character outside `[a-z0-9._-]`. */
  lemma {:induction false} TextNoteNameIsSafe(title: string, now: nat)
    ensures AllSafe(TextNoteName(title, now))
  {
    var digits := NatToString(now);
    NatToStringDigits(now);
    assert AllSafe(digits);
    assert AllSafe("_") && AllSafe(".txt");
    AllSafeConcat(SafeTitle(title), "_");
    AllSafeConcat(SafeTitle(title) + "_", digits);
    AllSafeConcat(SafeTitle(title) + "_" + digits, ".txt");
  }

  /** What the form holds when it is submitted. */
  datatype Draft = Draft(title: string, file: Option<FileObj>, selectedType: NoteType, writtenText: string)

  /** The form's validation, in the order `handleSubmit` checks it. */
  function ValidationError(d: Draft): (e: Option<string>)
    ensures e.None? <==>
              && Trim(d.title) != ""
              && (d.selectedType == Text ==> Trim(d.writtenText) != "")
              && (d.selectedType != Text ==> d.file.Some?)
    ensures Trim(d.title) == "" ==> e == Some("Note title is required")
  {
    if Trim(d.title) == "" then Some("Note title is required")
    else if d.selectedType == Text && Trim(d.writtenText) == "" then Some("Text content cannot be empty")
    else if d.selectedType != Text && d.file.None? then Some("Please select a " + KindName(d.selectedType) + " file to upload.")
    else None
  }

  /** What `handleSubmit` uploads: the picked file, or for a text note the
      typed text as a `text/plain` file named after the title and the clock. */
  function FileToUpload(d: Draft, now: nat): (f: FileObj)
    requires ValidationError(d).None?
    ensures d.selectedType != Text ==> d.file == Some(f)
    ensures d.selectedType == Text ==>
              && f.payload == Chars(d.writtenText) && f.mime == "text/plain"
              && AllSafe(f.name) && f.name == TextNoteName(d.title, now)
  {
    TextNoteNameIsSafe(d.title, now);
    if d.selectedType == Text then FileObj(TextNoteName(d.title, now), "text/plain", Chars(d.writtenText))
    else d.file.value
  }

  /** The file `handleSubmit` uploads passed the category check when it was
      picked, or is the typed text as a `text/plain` file the extension table
      files as text. */
  lemma FileToUploadChecked(d: Draft, now: nat)
    requires ValidationError(d).None?
    requires d.file.Some? ==> IsValidType(d.selectedType, d.file.value.mime, d.file.value.name)
    ensures d.selectedType == Text ==>
              && FileToUpload(d, now).payload == Chars(d.writtenText)
              && FileToUpload(d, now).mime == "text/plain"
              && GetFileType(FileToUpload(d, now).name) == Text
    ensures d.selectedType != Text ==>
              IsValidType(d.selectedType, FileToUpload(d, now).mime, FileToUpload(d, now).name)
  {
    if d.selectedType == Text {
      TextNoteNameIsText(d.title, now);
    }
  }

  /** The path the upload of a valid form of course `c` writes, for the random `token`. */
  function UploadPath(d: Draft, c: Id, now: nat, token: string): (r: string)
    requires ValidationError(d).None?
    ensures StartsWith(r, CourseFolder(c) + "/")
    ensures AfterLast(r, '.') == AfterLast(FileToUpload(d, now).name, '.')
  {
    StoredPathUnderFolder(CourseFolder(c), token, FileToUpload(d, now).name);
    StoredPathKeepsExtension(CourseFolder(c), token, FileToUpload(d, now).name);
    StoredPath(CourseFolder(c), token, FileToUpload(d, now).name)
  }

  /** The note upload modal of course `courseId`. */
  class NoteUploadForm {
    const courseId: Id
    var title: string
    var file: Option<FileObj>
    var preview: Option<string>
    var selectedType: NoteType
    var writtenText: string
    var error: Option<string>
    var loading: bool

    /** A file held by the form passed the check for the selected category. */
    ghost predicate Valid()
      reads this`file, this`selectedType
    {
      file.Some? ==> IsValidType(selectedType, file.value.mime, file.value.name)
    }

    /** The values `handleSubmit` reads from the form. */
    function CurrentDraft(): Draft
      reads this`title, this`file, this`selectedType, this`writtenText
    {
      Draft(title, file, selectedType, writtenText)
    }

    constructor (courseId: Id)
      ensures Valid()
      ensures this.courseId == courseId && title == "" && file == None && preview == None
      ensures selectedType == Image && writtenText == "" && error == None && !loading
    {
      this.courseId := courseId;
      title, file, preview := "", None, None;
      selectedType, writtenText, error, loading := Image, "", None, false;
    }

    /** Picking a category; the effect on `selectedType` clears the file, the
        preview, the typed text and the error whenever the category changes. */
    method SelectType(t: NoteType)
      requires Valid()
      modifies this`selectedType, this`file, this`preview, this`writtenText, this`error
      ensures Valid()
      ensures selectedType == t
      ensures t != old(selectedType) ==> file == None && preview == None && writtenText == "" && error == None
      ensures t == old(selectedType) ==>
                file == old(file) && preview == old(preview) && writtenText == old(writtenText) && error == old(error)
    {
      if t != selectedType {
        selectedType := t;
        file, preview, writtenText, error := None, None, "", None;
      }
    }

    /** `handleFileChange`: `picked` is the first file of the input, if any.
        The image preview is read asynchronously and is not modelled: on an
        accepted image the preview keeps its value. */
    method HandleFileChange(picked: Option<FileObj>)
      requires Valid()
      modifies this`file, this`preview, this`error
      ensures Valid()
      ensures picked.None? ==> file == old(file) && preview == old(preview) && error == old(error)
      ensures picked.Some? && IsValidType(selectedType, picked.value.mime, picked.value.name) ==>
                && file == picked && error == None
                && preview == (if selectedType == Image then old(preview) else None)
      ensures picked.Some? && !IsValidType(selectedType, picked.value.mime, picked.value.name) ==>
                file == None && preview == None && error == Some(InvalidTypeMessage(selectedType))
    {
      if picked.None? {
        return;
      }
      file := picked;
      error := None;
      var f := picked.value;
      if !IsValidType(selectedType, f.mime, f.name) {
        error := Some(InvalidTypeMessage(selectedType));
        file := None;
        preview := None;
        return;
      }
      if selectedType != Image {
        preview := None;
      }
    }

    /** `handleSubmit`. `now` is `Date.now()`, `token` the random object name,
        `createdAt` the database clock; the remaining flags say whether the
        storage write, the row insert, the counter read and the counter write
        succeed. `added` is the row passed to `onNoteAdded`, and `closed` says
        whether `onClose` was called. */
    method HandleSubmit(b: Backend, now: nat, token: string, storageOk: bool, createdAt: int,
                        insertOk: bool, countReadOk: bool, countWriteOk: bool)
      returns (added: Option<NoteRow>, closed: bool)
      requires Valid() && b.Valid()
      modifies this`error, this`loading, b`objects, b`notes, b`courses, b`nextId
      ensures Valid() && b.Valid()
      ensures closed <==> added.Some?
      ensures Handled(old(b.objects), old(b.notes), old(b.courses), old(b.nextId), b.projectUrl,
                      old(CurrentDraft()), courseId, now, token, storageOk, createdAt, insertOk,
                      countReadOk && countWriteOk, b.objects, b.notes, b.courses, b.nextId, added, error)
      // `loading` is set for the duration of the requests and cleared in `finally`;
      // an invalid form returns before setting it.
      ensures ValidationError(old(CurrentDraft())).Some? ==> loading == old(loading)
      ensures ValidationError(old(CurrentDraft())).None? ==> !loading
      // A new object holds a file that passed the category check, or the typed text.
      ensures forall k :: k in b.objects && k !in old(b.objects) ==>
                if old(selectedType) == Text then b.objects[k].payload == Chars(old(writtenText))
                else IsValidType(old(selectedType), b.objects[k].mime, b.objects[k].name)
    {
      var d := CurrentDraft();
      var e;
      added, e := ValidateAndSubmit(b, d, courseId, now, token, storageOk, createdAt,
                                    insertOk, countReadOk, countWriteOk);
      error, loading := e, if ValidationError(d).None? then false else loading;
      closed := added.Some?;
    }
  }

  /** The outcome of `handleSubmit` once it has read the form's values `d`:
      an invalid form shows its validation error and reaches no store; a
      valid one goes through the upload and the database steps (`Submitted`). */
  ghost predicate Handled(
    objects0: map<(string, string), FileObj>, notes0: seq<NoteRow>, courses0: seq<CourseRow>, nextId0: nat,
    projectUrl: string, d: Draft, c: Id, now: nat, token: string, storageOk: bool, createdAt: int,
    insertOk: bool, countOk: bool,
    objects: map<(string, string), FileObj>, notes: seq<NoteRow>, courses: seq<CourseRow>, nextId: nat,
    added: Option<NoteRow>, error: Option<string>)
  {
    && (ValidationError(d).Some? ==>
          && error == ValidationError(d) && added == None
          && objects == objects0 && notes == notes0 && courses == courses0 && nextId == nextId0)
    && (ValidationError(d).None? ==>
          Submitted(objects0, notes0, courses0, nextId0, projectUrl, d, c, now, token, storageOk, createdAt,
                    insertOk, countOk, objects, notes, courses, nextId, added, error))
  }

  /** `handleSubmit` after it has read the form's values `d`: validate, then
      upload and save. Every new object passed the category check when it was
      picked, or holds the typed text. */
  method ValidateAndSubmit(b: Backend, d: Draft, c: Id, now: nat, token: string, storageOk: bool, createdAt: int,
                           insertOk: bool, countReadOk: bool, countWriteOk: bool)
    returns (added: Option<NoteRow>, error: Option<string>)
    requires b.Valid()
    requires d.file.Some? ==> IsValidType(d.selectedType, d.file.value.mime, d.file.value.name)
    modifies b`objects, b`notes, b`courses, b`nextId
    ensures b.Valid()
    ensures Handled(old(b.objects), old(b.notes), old(b.courses), old(b.nextId), b.projectUrl,
                    d, c, now, token, storageOk, createdAt, insertOk, countReadOk && countWriteOk,
                    b.objects, b.notes, b.courses, b.nextId, added, error)
    ensures forall k :: k in b.objects && k !in old(b.objects) ==>
              if d.selectedType == Text then b.objects[k].payload == Chars(d.writtenText)
              else IsValidType(d.selectedType, b.objects[k].mime, b.objects[k].name)
  {
    var v := ValidationError(d);
    if v.Some? {
      return None, v;
    }
    FileToUploadChecked(d, now);
    added, error := SubmitDraft(b, d, c, now, token, storageOk, createdAt, insertOk, countReadOk, countWriteOk);
  }

  /** The database outcome of saving `row`, the row `handleSubmit` inserts for
      an uploaded file: from the tables before (`notes0`, `courses0`) to the
      tables after, the added row and the error shown. A failed insert leaves
      the stored file with no row pointing at it. `countOk` says whether the
      counter read and write both succeed. */
  ghost predicate Saved(notes0: seq<NoteRow>, courses0: seq<CourseRow>, row: NoteRow, insertOk: bool, countOk: bool,
                        notes: seq<NoteRow>, courses: seq<CourseRow>, added: Option<NoteRow>, error: Option<string>)
  {
    && (!insertOk ==>
          && error == Some(InsertFailedMessage) && added == None
          && notes == notes0 && courses == courses0)
    && (insertOk ==>
          && error == None && added == Some(row)
          && notes == notes0 + [row]
          && courses == BumpedCount(courses0, row.courseId, countOk))
  }

  /** The row `handleSubmit` inserts for a valid draft `d` of course `c`, stored
      at `path`, given the id the database hands out. */
  function DraftRow(id: Id, d: Draft, c: Id, now: nat, path: string, url: string, createdAt: int): (r: NoteRow)
    requires ValidationError(d).None?
    ensures r.id == id && r.courseId == c && r.createdAt == createdAt
    ensures r.filePath == path && r.fileUrl == url && r.fileType == d.selectedType
    ensures r.fileName == FileToUpload(d, now).name
    ensures r.title == Trim(d.title)
    ensures r.title != [] && !IsSpace(r.title[0]) && !IsSpace(r.title[|r.title| - 1])
  {
    NoteRow(id, Trim(d.title), url, path, d.selectedType, FileToUpload(d, now).name, c, createdAt)
  }

  /** The outcome of `handleSubmit` for a valid draft `d` of course `c`, from the
      stores before (`objects0`, `notes0`, `courses0`, `nextId0`) to the stores
      after, the added row and the error shown. A refused upload, or an object
      already at the generated path, stops there with every store unchanged;
      a stored object is followed by the database steps described by `Saved`. */
  ghost predicate Submitted(
    objects0: map<(string, string), FileObj>, notes0: seq<NoteRow>, courses0: seq<CourseRow>, nextId0: nat,
    projectUrl: string, d: Draft, c: Id, now: nat, token: string, storageOk: bool, createdAt: int,
    insertOk: bool, countOk: bool,
    objects: map<(string, string), FileObj>, notes: seq<NoteRow>, courses: seq<CourseRow>, nextId: nat,
    added: Option<NoteRow>, error: Option<string>)
  {
    && ValidationError(d).None?
    && var path := UploadPath(d, c, now, token);
       && (!(storageOk && (NotesBucket, path) !in objects0) ==>
             && error == Some(UploadFailedMessage("Failed to upload file to storage"))
             && added == None
             && objects == objects0 && notes == notes0 && courses == courses0 && nextId == nextId0)
       && (storageOk && (NotesBucket, path) !in objects0 ==>
             && objects == objects0[(NotesBucket, path) := FileToUpload(d, now)]
             && Saved(notes0, courses0,
                      DraftRow(nextId0, d, c, now, path, PublicUrl(projectUrl, NotesBucket, path), createdAt),
                      insertOk, countOk, notes, courses, added, error))
  }

  /** The part of `handleSubmit` after validation: upload the file, then save
      the row and bump the counter. Returns the added row and the error to show. */
  method SubmitDraft(b: Backend, d: Draft, c: Id, now: nat, token: string, storageOk: bool, createdAt: int,
                     insertOk: bool, countReadOk: bool, countWriteOk: bool)
    returns (added: Option<NoteRow>, error: Option<string>)
    requires ValidationError(d).None? && b.Valid()
    modifies b`objects, b`notes, b`courses, b`nextId
    ensures b.Valid()
    ensures Submitted(old(b.objects), old(b.notes), old(b.courses), old(b.nextId), b.projectUrl,
                      d, c, now, token, storageOk, createdAt, insertOk, countReadOk && countWriteOk,
                      b.objects, b.notes, b.courses, b.nextId, added, error)
    ensures forall k :: k in b.objects && k !in old(b.objects) ==> b.objects[k] == FileToUpload(d, now)
    ensures var path := UploadPath(d, c, now, token);
            added.None? && (forall m :: m in old(b.notes) ==> m.filePath != path) ==>
              forall m :: m in b.notes ==> m.filePath != path
  {
    var f := FileToUpload(d, now);
    var up := UploadFile(b, Some(f), NotesBucket, CourseFolder(c), token, storageOk);
    if up.Err? {
      return None, Some(UploadFailedMessage(up.message));
    }
    added, error := SaveNoteRow(b, Trim(d.title), up.value.publicUrl, up.value.filePath, d.selectedType, f.name,
                                c, createdAt, insertOk, countReadOk, countWriteOk);
  }

  /** The message shown when the note row cannot be inserted. */
  const InsertFailedMessage: string := "Failed to save note information to database."

  /** The database half of `handleSubmit`: insert the note row; once it exists,
      read the course's `note_count` and write it back plus one. A failed read
      skips the write, and a failed write is only logged. */
  method SaveNoteRow(b: Backend, title: string, fileUrl: string, filePath: string, fileType: NoteType,
                     fileName: string, courseId: Id, createdAt: int,
                     insertOk: bool, countReadOk: bool, countWriteOk: bool)
    returns (added: Option<NoteRow>, error: Option<string>)
    requires b.Valid()
    modifies b`notes, b`courses, b`nextId
    ensures b.Valid()
    ensures Saved(old(b.notes), old(b.courses),
                  NoteRow(old(b.nextId), title, fileUrl, filePath, fileType, fileName, courseId, createdAt),
                  insertOk, countReadOk && countWriteOk, b.notes, b.courses, added, error)
  {
    added := b.InsertNote(title, fileUrl, filePath, fileType, fileName, courseId, createdAt, insertOk);
    if added.None? {
      return added, Some(InsertFailedMessage);
    }
    error := None;
    BumpNoteCount(b, courseId, countReadOk, countWriteOk);
  }

  /** The counter step of `handleSubmit`: read the course's `note_count` and,
      when that succeeds, write back its displayed value plus one. */
  method BumpNoteCount(b: Backend, c: Id, readOk: bool, writeOk: bool)
    requires b.Valid()
    modifies b`courses
    ensures b.Valid()
    ensures b.courses == BumpedCount(old(b.courses), c, readOk && writeOk)
  {
    var count := b.ReadNoteCount(c, readOk);
    if count.Some? {
      var v := Some(Displayed(count.value) + 1);
      assert v == Some(Displayed(FindCourse(b.courses, c).value.noteCount) + 1);
      var _ := b.UpdateNoteCount(c, v, writeOk);
    }
  }
}
