/** The page of one course: it loads the course and its notes, adds a note the
    upload modal saved, deletes a single note after a confirmation, and
    deletes the whole course. */
module CourseDetail {
  import opened Lists
  import opened Tables
  import opened Store
  import opened NoteUpload

  const LoadFailedMessage: string := "Failed to load course details. Please try again."
  const DeleteNoteFailedMessage: string := "Failed to delete note from database."
  const DeleteCourseFailedMessage: string := "Failed to delete course. Please try again."

  /** Where the page sends the user: nowhere, or back to `/dashboard`. */
  datatype Route = Stay | ToDashboard

  /** The page of course `courseId`, viewed by user `userId`. */
  class CourseDetailPage {
    const courseId: Id
    const userId: UserId
    var course: Option<CourseRow>
    var notes: seq<NoteRow>
    var loading: bool
    var error: Option<string>
    var deleteError: Option<string>
    var isDeleteConfirmOpen: bool
    var deleteLoading: bool
    var isDeleteNoteConfirmOpen: bool
    var noteToDelete: Option<NoteRow>
    var noteDeleteLoading: bool

    /** The note confirmation dialog is open exactly while a note is chosen. */
    ghost predicate Valid()
      reads this`isDeleteNoteConfirmOpen, this`noteToDelete
    {
      isDeleteNoteConfirmOpen <==> noteToDelete.Some?
    }

    /** The page shows the notes of its course as the database lists them. */
    ghost predicate Synced(b: Backend)
      reads this`notes, b`notes
    {
      notes == ListNotes(b.notes, courseId)
    }

    constructor (courseId: Id, userId: UserId)
      ensures Valid()
      ensures this.courseId == courseId && this.userId == userId
      ensures course == None && notes == [] && loading && error == None && deleteError == None
      ensures !isDeleteConfirmOpen && !deleteLoading && noteToDelete == None && !noteDeleteLoading
    {
      this.courseId, this.userId := courseId, userId;
      course, notes, loading, error, deleteError := None, [], true, None, None;
      isDeleteConfirmOpen, deleteLoading := false, false;
      isDeleteNoteConfirmOpen, noteToDelete, noteDeleteLoading := false, None, false;
    }

    /** `fetchCourseDetails`: the course by id, then its notes newest first.
        A failed query shows the load error; a course that is not there sends
        the user to the dashboard. */
    method FetchCourseDetails(b: Backend, courseOk: bool, notesOk: bool) returns (route: Route)
      modifies this`loading, this`error, this`course, this`notes
      ensures !loading
      ensures route == ToDashboard <==> courseOk && FindCourse(b.courses, courseId).None?
      ensures !courseOk ==> error == Some(LoadFailedMessage) && course == old(course) && notes == old(notes)
      ensures route == ToDashboard ==> error == None && course == old(course) && notes == old(notes)
      ensures courseOk && FindCourse(b.courses, courseId).Some? ==>
                && course == FindCourse(b.courses, courseId)
                && (notesOk ==> error == None && Synced(b))
                && (!notesOk ==> error == Some(LoadFailedMessage) && notes == old(notes))
    {
      loading, error := true, None;
      var r := b.SelectCourse(courseId, courseOk);
      if r.None? {
        error, loading := Some(LoadFailedMessage), false;
        return Stay;
      }
      if r.value.None? {
        loading := false;
        return ToDashboard;
      }
      course := r.value;
      var ns := b.SelectNotes(courseId, notesOk);
      if ns.None? {
        error := Some(LoadFailedMessage);
      } else {
        notes := ns.value;
      }
      loading := false;
      route := Stay;
    }

    /** `handleNoteAdded`: the row the upload modal saved goes in front. When
        the page was in step with the table and the row is the newest of its
        course, the page is in step with the table after the insert. */
    method HandleNoteAdded(newNote: NoteRow, ghost rows: seq<NoteRow>)
      modifies this`notes
      ensures notes == [newNote] + old(notes)
      ensures && old(notes) == ListNotes(rows, courseId) && newNote.courseId == courseId
              && (forall m :: m in rows ==> m.createdAt <= newNote.createdAt)
              ==> notes == ListNotes(rows + [newNote], courseId)
    {
      if newNote.courseId == courseId && forall m :: m in rows ==> m.createdAt <= newNote.createdAt {
        NoteListingAfterInsert(rows, newNote, courseId);
      }
      notes := [newNote] + notes;
    }

    /** `handleDeleteNoteRequest`: opens the confirmation for `n`. */
    method HandleDeleteNoteRequest(n: NoteRow)
      modifies this`noteToDelete, this`deleteError, this`isDeleteNoteConfirmOpen
      ensures Valid()
      ensures noteToDelete == Some(n) && deleteError == None && isDeleteNoteConfirmOpen
    {
      noteToDelete, deleteError, isDeleteNoteConfirmOpen := Some(n), None, true;
    }

    /** `cancelDeleteNote`: closes the confirmation and forgets the note. */
    method CancelDeleteNote()
      modifies this`noteToDelete, this`deleteError, this`isDeleteNoteConfirmOpen
      ensures Valid()
      ensures noteToDelete == None && deleteError == None && !isDeleteNoteConfirmOpen
    {
      isDeleteNoteConfirmOpen, noteToDelete, deleteError := false, None, None;
    }

    /** `confirmDeleteNote`: with a chosen note, the requests of
        `DeleteNoteRequests`, then the note leaves the page and the
        confirmation closes; a failed row delete shows its error instead. */
    method ConfirmDeleteNote(b: Backend, removeOk: bool, deleteOk: bool, rpcOk: bool)
      requires Valid() && b.Valid()
      modifies this`notes, this`deleteError, this`noteDeleteLoading, this`noteToDelete,
               this`isDeleteNoteConfirmOpen, b`objects, b`notes, b`courses
      ensures Valid() && b.Valid()
      ensures old(noteToDelete).None? ==>
                && notes == old(notes) && deleteError == old(deleteError)
                && noteToDelete == None && !isDeleteNoteConfirmOpen
                && noteDeleteLoading == old(noteDeleteLoading) && unchanged(b)
      ensures old(noteToDelete).Some? ==>
                && !noteDeleteLoading
                && RequestsDone(old(b.objects), old(b.notes), old(b.courses), courseId, old(noteToDelete).value,
                                removeOk, deleteOk, rpcOk, b.objects, b.notes, b.courses)
      ensures old(noteToDelete).Some? && !deleteOk ==>
                notes == old(notes) && noteToDelete == old(noteToDelete) && deleteError == Some(DeleteNoteFailedMessage)
      ensures old(noteToDelete).Some? && deleteOk ==>
                && notes == WithoutNote(old(notes), old(noteToDelete).value.id)
                && noteToDelete == None && deleteError == None
      ensures old(noteToDelete).Some? && deleteOk && old(Synced(b)) ==> Synced(b)
    {
      if noteToDelete.None? {
        return;
      }
      var n := noteToDelete.value;
      noteDeleteLoading, deleteError := true, None;
      var deleted := DeleteNoteRequests(b, courseId, n, removeOk, deleteOk, rpcOk);
      if !deleted {
        deleteError, noteDeleteLoading := Some(DeleteNoteFailedMessage), false;
        return;
      }
      NoteListingAfterDelete(old(b.notes), courseId, n.id);
      notes := WithoutNote(notes, n.id);
      CancelDeleteNote();
      noteDeleteLoading := false;
    }

    /** `handleDeleteCourse`: the requests of `DeleteCourseRequests`; when
        both succeed the page returns to the dashboard, otherwise it shows
        the error and stays. The confirmation closes either way. */
    method HandleDeleteCourse(b: Backend, notesOk: bool, courseOk: bool) returns (route: Route)
      requires b.Valid()
      modifies this`error, this`deleteLoading, this`isDeleteConfirmOpen, b`notes, b`courses
      ensures b.Valid()
      ensures !deleteLoading && !isDeleteConfirmOpen
      ensures route == ToDashboard <==> notesOk && courseOk
      ensures error == if route == ToDashboard then old(error) else Some(DeleteCourseFailedMessage)
      ensures CourseRequestsDone(old(b.notes), old(b.courses), courseId, userId, notesOk, courseOk, b.notes, b.courses)
    {
      deleteLoading := true;
      var deleted := DeleteCourseRequests(b, courseId, userId, notesOk, courseOk);
      route := if deleted then ToDashboard else Stay;
      if !deleted {
        error := Some(DeleteCourseFailedMessage);
      }
      deleteLoading, isDeleteConfirmOpen := false, false;
    }
  }

  /** What the requests of `handleDeleteCourse` for course `c` and viewer `u`
      do to the tables: the course's note rows go when their delete succeeds,
      and only then is the row of `c` owned by `u` deleted, when that request
      succeeds. */
  ghost predicate CourseRequestsDone(
    notes0: seq<NoteRow>, courses0: seq<CourseRow>, c: Id, u: UserId, notesOk: bool, courseOk: bool,
    notes: seq<NoteRow>, courses: seq<CourseRow>)
  {
    && notes == (if notesOk then Filter(notes0, Not(InCourse(c))) else notes0)
    && courses == (if notesOk && courseOk then Filter(courses0, Not(IsOwnedCourse(c, u))) else courses0)
  }

  /** The two requests of `handleDeleteCourse`: delete the note rows of `c`
      (an error stops here), then the row of `c` restricted to owner `u`.
      Afterwards the course lists no notes, and its row is gone exactly when
      `u` owned it; the stored files stay. */
  method DeleteCourseRequests(b: Backend, c: Id, u: UserId, notesOk: bool, courseOk: bool) returns (deleted: bool)
    requires b.Valid()
    modifies b`notes, b`courses
    ensures b.Valid()
    ensures deleted == (notesOk && courseOk)
    ensures CourseRequestsDone(old(b.notes), old(b.courses), c, u, notesOk, courseOk, b.notes, b.courses)
    ensures notesOk ==> ListNotes(b.notes, c) == []
    ensures deleted ==>
              var f := FindCourse(old(b.courses), c);
              FindCourse(b.courses, c) == if f.Some? && f.value.userId == u then None else f
  {
    NoteListingAfterCourseDelete(b.notes, c);
    FindCourseAfterCourseDelete(b.courses, c, u);
    deleted := b.DeleteCourseNotes(c, notesOk);
    if deleted {
      deleted := b.DeleteCourse(c, u, courseOk);
    }
  }

  /** What the requests of `confirmDeleteNote` for note `n` on the page of
      course `c` do to the stores: the file goes when its removal succeeds;
      the row goes when its delete succeeds, and only then is the counter of
      `c` decremented, when the call succeeds. */
  ghost predicate RequestsDone(
    objects0: map<(string, string), FileObj>, notes0: seq<NoteRow>, courses0: seq<CourseRow>,
    c: Id, n: NoteRow, removeOk: bool, deleteOk: bool, rpcOk: bool,
    objects: map<(string, string), FileObj>, notes: seq<NoteRow>, courses: seq<CourseRow>)
  {
    && (forall k :: k in objects <==> k in objects0 && !(removeOk && k == (NotesBucket, n.filePath)))
    && (forall k :: k in objects ==> objects[k] == objects0[k])
    && notes == (if deleteOk then WithoutNote(notes0, n.id) else notes0)
    && courses == (if deleteOk && rpcOk then DecrementCount(courses0, c) else courses0)
  }

  /** The three requests of `confirmDeleteNote`: remove the stored file (an
      error is only logged), delete the row (an error stops here), decrement
      the counter of the page's course (an error is only logged). A note of
      `c` that was counted exactly stays counted exactly. */
  method DeleteNoteRequests(b: Backend, c: Id, n: NoteRow, removeOk: bool, deleteOk: bool, rpcOk: bool)
    returns (deleted: bool)
    requires b.Valid()
    modifies b`objects, b`notes, b`courses
    ensures b.Valid()
    ensures deleted == deleteOk
    ensures RequestsDone(old(b.objects), old(b.notes), old(b.courses), c, n, removeOk, deleteOk, rpcOk,
                         b.objects, b.notes, b.courses)
    ensures && deleteOk && rpcOk && n in old(b.notes) && n.courseId == c
            && CounterExact(old(b.notes), old(b.courses), c)
            ==> CounterExact(b.notes, b.courses, c)
  {
    if deleteOk && rpcOk && n in b.notes && n.courseId == c && CounterExact(b.notes, b.courses, c) {
      DeleteKeepsCounterExact(b.notes, b.courses, n);
    }
    var _ := b.Remove(NotesBucket, [n.filePath], removeOk);
    deleted := b.DeleteNote(n.id, deleteOk);
    if deleted {
      var _ := b.DecrementNoteCount(c, rpcOk);
    }
  }
}
