/** The modal that creates a course for the signed-in user. */
module CourseForm {
  import opened Lists
  import opened Tables
  import opened Store

  const RequiredMessage: string := "Course title and professor name are required"
  const CreateFailedMessage: string := "Failed to create course. Please try again."

  /** The check `handleSubmit` makes before any request: a title and a
      professor must be given. Blank text passes; it is not trimmed. */
  function CourseValidationError(title: string, professor: string): (e: Option<string>)
    ensures e.None? <==> title != [] && professor != []
    ensures e.Some? ==> e.value == RequiredMessage
  {
    if title == [] || professor == [] then Some(RequiredMessage) else None
  }

  /** The course modal of user `userId`. */
  class CourseModal {
    const userId: UserId
    var title: string
    var description: string
    var professor: string
    var loading: bool
    var error: Option<string>

    constructor (userId: UserId)
      ensures this.userId == userId && title == "" && description == "" && professor == ""
      ensures !loading && error == None
    {
      this.userId := userId;
      title, description, professor, loading, error := "", "", "", false, None;
    }

    /** `handleSubmit`: a course row with `note_count: 0` for the user; the
        modal hands the row to the dashboard and closes, or shows an error.
        A new course whose id no note row refers to starts counted exactly. */
    method HandleSubmit(b: Backend, createdAt: int, ok: bool) returns (added: Option<CourseRow>, closed: bool)
      requires b.Valid()
      modifies this`loading, this`error, b`courses, b`nextId
      ensures b.Valid()
      ensures closed <==> added.Some?
      ensures CourseValidationError(title, professor).Some? ==>
                && error == CourseValidationError(title, professor) && loading == old(loading)
                && added == None && unchanged(b)
      ensures CourseValidationError(title, professor).None? ==> !loading
      ensures CourseValidationError(title, professor).None? && !ok ==>
                && error == Some(CreateFailedMessage) && added == None && unchanged(b)
      ensures CourseValidationError(title, professor).None? && ok ==>
                && error == None
                && added == Some(CourseRow(old(b.nextId), title, description, professor, userId, Some(0), createdAt))
                && b.courses == old(b.courses) + [added.value]
                && Displayed(added.value.noteCount) == 0
      ensures added.Some? && (forall n :: n in b.notes ==> n.courseId != added.value.id) ==>
                CounterExact(b.notes, b.courses, added.value.id)
    {
      var v := CourseValidationError(title, professor);
      if v.Some? {
        error := v;
        return None, false;
      }
      loading, error := true, None;
      added := b.InsertCourse(title, description, professor, userId, Some(0), createdAt, ok);
      if added.None? {
        error := Some(CreateFailedMessage);
      } else if forall n :: n in b.notes ==> n.courseId != added.value.id {
        NewCourseCounterExact(b.notes, old(b.courses), added.value);
      }
      loading := false;
      closed := added.Some?;
    }
  }
}
