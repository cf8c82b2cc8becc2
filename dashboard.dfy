/** The dashboard: the signed-in user's courses, newest first, each with the
    note counter it shows. */
module Dashboard {
  import opened Lists
  import opened Tables
  import opened Store

  const LoadFailedMessage: string := "Failed to load courses. Please try again."

  /** The dashboard of user `userId`. */
  class DashboardPage {
    const userId: UserId
    var courses: seq<CourseRow>
    var loading: bool
    var error: Option<string>

    /** The dashboard shows the user's courses as the database lists them. */
    ghost predicate Synced(b: Backend)
      reads this`courses, b`courses
    {
      courses == ListCourses(b.courses, userId)
    }

    constructor (userId: UserId)
      ensures this.userId == userId && courses == [] && loading && error == None
    {
      this.userId := userId;
      courses, loading, error := [], true, None;
    }

    /** `fetchCourses`: the user's courses newest first, or the load error. */
    method FetchCourses(b: Backend, ok: bool)
      modifies this`courses, this`loading, this`error
      ensures !loading
      ensures ok ==> error == None && Synced(b)
      ensures !ok ==> error == Some(LoadFailedMessage) && courses == old(courses)
    {
      loading, error := true, None;
      var r := b.SelectCourses(userId, ok);
      if r.None? {
        error := Some(LoadFailedMessage);
      } else {
        courses := r.value;
      }
      loading := false;
    }

    /** `handleCourseAdded`: the row the course modal saved goes in front.
        When the dashboard was in step with the table and the row is the
        user's newest, it is in step with the table after the insert. */
    method HandleCourseAdded(newCourse: CourseRow, ghost rows: seq<CourseRow>)
      modifies this`courses
      ensures courses == [newCourse] + old(courses)
      ensures && old(courses) == ListCourses(rows, userId) && newCourse.userId == userId
              && (forall x :: x in rows ==> x.createdAt <= newCourse.createdAt)
              ==> courses == ListCourses(rows + [newCourse], userId)
    {
      if newCourse.userId == userId && forall x :: x in rows ==> x.createdAt <= newCourse.createdAt {
        CourseListingAfterInsert(rows, newCourse);
      }
      courses := [newCourse] + courses;
    }
  }

  /** A course whose counter is exact shows on the dashboard, as
      `note_count || 0`, the number of notes its own page lists. */
  lemma {:induction false} ShownCountMatchesCoursePage(
    notes: seq<NoteRow>, rows: seq<CourseRow>, u: UserId, i: nat)
    requires UniqueCourseIds(rows)
    requires i < |ListCourses(rows, u)|
    requires CounterExact(notes, rows, ListCourses(rows, u)[i].id)
    ensures Displayed(ListCourses(rows, u)[i].noteCount) == |ListNotes(notes, ListCourses(rows, u)[i].id)|
  {
    var x := ListCourses(rows, u)[i];
    assert x in ListCourses(rows, u);
    SameIdSameCourse(rows, x, FindCourse(rows, x.id).value);
    assert |ListNotes(notes, x.id)| == |multiset(ListNotes(notes, x.id))|;
  }
}
