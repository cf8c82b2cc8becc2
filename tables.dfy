/** Rows of the `notes` and `courses` tables, the objects of the `notes`
    storage bucket, and what the queries and updates the handlers issue do to
    them. */
module Tables {
  import opened Strings
  import opened Lists

  datatype Option<+T> = None | Some(value: T)

  /** The outcome of a call that either returns a value or throws an `Error`
      with a message. */
  datatype Result<+T> = Ok(value: T) | Err(message: string)

  type Id = nat
  type UserId = string

  /** The five answers of the extension table; the first four are also the note
      categories a user can pick. */
  datatype Kind = Image | Audio | Pdf | Text | Other

  /** The `file_type` of a note: one of `image`, `audio`, `pdf`, `text`. */
  type NoteType = k: Kind | k != Other witness Image

  function KindName(k: Kind): (s: string)
    ensures |s| >= 3
  {
    match k
    case Image => "image"
    case Audio => "audio"
    case Pdf => "pdf"
    case Text => "text"
    case Other => "other"
  }

  /** What a stored object holds: the bytes of a picked file, or the text typed
      for a text note. */
  datatype Payload = Bytes(bytes: seq<bv8>) | Chars(text: string)

  /** A browser `File`: its name, its declared MIME type, its contents. */
  datatype FileObj = FileObj(name: string, mime: string, payload: Payload)

  datatype NoteRow = NoteRow(
    id: Id, title: string, fileUrl: string, filePath: string, fileType: NoteType,
    fileName: string, courseId: Id, createdAt: int)

  /** `noteCount` is `None` when the column holds null. */
  datatype CourseRow = CourseRow(
    id: Id, title: string, description: string, professor: string,
    userId: UserId, noteCount: Option<int>, createdAt: int)

  function NoteTime(n: NoteRow): int { n.createdAt }
  function NoteKey(n: NoteRow): int { n.id }
  function CourseTime(r: CourseRow): int { r.createdAt }
  function CourseKey(r: CourseRow): int { r.id }

  /** The `id` primary key: no two note rows share an id. */
  predicate UniqueNoteIds(rows: seq<NoteRow>) {
    forall i, j :: 0 <= i < j < |rows| ==> rows[i].id != rows[j].id
  }

  /** The `id` primary key: no two course rows share an id. */
  predicate UniqueCourseIds(rows: seq<CourseRow>) {
    forall i, j :: 0 <= i < j < |rows| ==> rows[i].id != rows[j].id
  }

  lemma NoteIdsAsKeys(rows: seq<NoteRow>)
    ensures UniqueNoteIds(rows) <==> UniqueKeys(rows, NoteKey)
  {
  }

  lemma CourseIdsAsKeys(rows: seq<CourseRow>)
    ensures UniqueCourseIds(rows) <==> UniqueKeys(rows, CourseKey)
  {
  }

  /** Rewriting rows in place, id for id, keeps the ids unique and below
      the next id the table hands out. */
  lemma CourseIdsKept(before: seq<CourseRow>, after: seq<CourseRow>, bound: nat)
    requires |after| == |before|
    requires forall i :: 0 <= i < |before| ==> after[i].id == before[i].id
    requires UniqueCourseIds(before)
    requires forall r :: r in before ==> r.id < bound
    ensures UniqueCourseIds(after)
    ensures forall r :: r in after ==> r.id < bound
  {
    forall r | r in after ensures r.id < bound {
      var i :| 0 <= i < |after| && after[i] == r;
      assert before[i] in before;
    }
  }

  /** `.eq('course_id', c)` */
  function InCourse(c: Id): NoteRow -> bool { (n: NoteRow) => n.courseId == c }
  /** `.eq('id', k)` on notes */
  function HasNoteId(k: Id): NoteRow -> bool { (n: NoteRow) => n.id == k }
  /** `.eq('user_id', u)` */
  function OwnedBy(u: UserId): CourseRow -> bool { (r: CourseRow) => r.userId == u }
  /** `.eq('id', c).eq('user_id', u)` */
  function IsOwnedCourse(c: Id, u: UserId): CourseRow -> bool { (r: CourseRow) => r.id == c && r.userId == u }

  /** The notes of course `c`, newest first. */
  function ListNotes(rows: seq<NoteRow>, c: Id): (r: seq<NoteRow>)
    ensures forall n :: n in r <==> n in rows && n.courseId == c
    ensures multiset(r) == multiset(Filter(rows, InCourse(c)))
    ensures SortedDesc(r, NoteTime)
  {
    SortDesc(Filter(rows, InCourse(c)), NoteTime)
  }

  /** The courses owned by `u`, newest first. */
  function ListCourses(rows: seq<CourseRow>, u: UserId): (r: seq<CourseRow>)
    ensures forall x :: x in r <==> x in rows && x.userId == u
    ensures multiset(r) == multiset(Filter(rows, OwnedBy(u)))
    ensures SortedDesc(r, CourseTime)
  {
    SortDesc(Filter(rows, OwnedBy(u)), CourseTime)
  }

  /** The rows whose id is not `k`, in their order: both `.delete().eq('id', k)`
      on the table and `notes.filter(n => n.id !== k)` on the page's list. */
  function WithoutNote(rows: seq<NoteRow>, k: Id): (r: seq<NoteRow>)
    ensures forall n :: n in r <==> n in rows && n.id != k
  {
    Filter(rows, Not(HasNoteId(k)))
  }

  /** The displayed counter, `note_count || 0`. */
  function Displayed(v: Option<int>): (d: int)
    ensures v == None ==> d == 0
    ensures v.Some? ==> d == v.value
  {
    match v
    case None => 0
    case Some(n) => n
  }

  /** The course row with id `c`, as `.eq('id', c).single()` reads it. */
  function FindCourse(rows: seq<CourseRow>, c: Id): (r: Option<CourseRow>)
    ensures r.Some? ==> r.value in rows && r.value.id == c
    ensures r.None? ==> forall x :: x in rows ==> x.id != c
  {
    if rows == [] then None
    else if rows[0].id == c then Some(rows[0])
    else FindCourse(rows[1..], c)
  }

  /** `.update({ note_count: v }).eq('id', c)` */
  function SetNoteCount(rows: seq<CourseRow>, c: Id, v: Option<int>): (r: seq<CourseRow>)
    ensures |r| == |rows|
    ensures forall i :: 0 <= i < |rows| ==>
              r[i] == if rows[i].id == c then rows[i].(noteCount := v) else rows[i]
  {
    if rows == [] then []
    else [if rows[0].id == c then rows[0].(noteCount := v) else rows[0]] + SetNoteCount(rows[1..], c, v)
  }

  /** A course row whose displayed counter went down by one. */
  function Decremented(x: CourseRow): (y: CourseRow)
    ensures y.id == x.id && Displayed(y.noteCount) == Displayed(x.noteCount) - 1
  {
    x.(noteCount := Some(Displayed(x.noteCount) - 1))
  }

  /** The effect of the `decrement_note_count` remote procedure on course `c`:
      its displayed counter goes down by one. */
  function DecrementCount(rows: seq<CourseRow>, c: Id): (r: seq<CourseRow>)
    ensures |r| == |rows|
    ensures forall i :: 0 <= i < |rows| ==>
              r[i] == if rows[i].id == c then Decremented(rows[i]) else rows[i]
  {
    if rows == [] then []
    else
      var x := rows[0];
      [if x.id == c then Decremented(x) else x] + DecrementCount(rows[1..], c)
  }

  /** Updating the counter of `c` changes nothing but that counter. */
  lemma {:induction false} FindCourseAfterSet(rows: seq<CourseRow>, c: Id, v: Option<int>, d: Id)
    ensures FindCourse(SetNoteCount(rows, c, v), d) ==
            match FindCourse(rows, d)
            case None => None
            case Some(x) => Some(if d == c then x.(noteCount := v) else x)
  {
    if rows != [] {
      var x, t := rows[0], SetNoteCount(rows[1..], c, v);
      var y := if x.id == c then x.(noteCount := v) else x;
      assert SetNoteCount(rows, c, v) == [y] + t;
      assert ([y] + t)[1..] == t;
      if x.id != d {
        FindCourseAfterSet(rows[1..], c, v, d);
      }
    }
  }

  lemma {:induction false} FindCourseAfterDecrement(rows: seq<CourseRow>, c: Id, d: Id)
    ensures FindCourse(DecrementCount(rows, c), d) ==
            match FindCourse(rows, d)
            case None => None
            case Some(x) => Some(if d == c then Decremented(x) else x)
  {
    if rows != [] {
      var x, t := rows[0], DecrementCount(rows[1..], c);
      var y := if x.id == c then Decremented(x) else x;
      assert DecrementCount(rows, c) == [y] + t;
      assert ([y] + t)[1..] == t;
      if x.id != d {
        FindCourseAfterDecrement(rows[1..], c, d);
      }
    }
  }

  /** The denormalised counter of course `c` equals the number of its note rows. */
  ghost predicate CounterExact(notes: seq<NoteRow>, courses: seq<CourseRow>, c: Id) {
    var f := FindCourse(courses, c);
    f.Some? && Displayed(f.value.noteCount) == |Filter(notes, InCourse(c))|
  }

  /** Appending a note row of `c` adds one to the count of `c`'s rows. */
  lemma CountAfterAppend(notes: seq<NoteRow>, n: NoteRow)
    ensures |Filter(notes + [n], InCourse(n.courseId))| == |Filter(notes, InCourse(n.courseId))| + 1
  {
    FilterConcat(notes, [n], InCourse(n.courseId));
    assert Filter([n], InCourse(n.courseId)) == [n];
  }

  /** The courses table after the counter step of an upload: the counter of `c`
      rewritten as its displayed value plus one, when the course was read and
      the write succeeded (`ok`). */
  function BumpedCount(courses: seq<CourseRow>, c: Id, ok: bool): (r: seq<CourseRow>)
    ensures |r| == |courses|
    ensures forall i :: 0 <= i < |courses| ==> r[i] == courses[i].(noteCount := r[i].noteCount)
    ensures forall i :: 0 <= i < |courses| && courses[i].id != c ==> r[i] == courses[i]
    ensures !ok || FindCourse(courses, c).None? ==> r == courses
    ensures ok && FindCourse(courses, c).Some? ==>
              && FindCourse(r, c).Some?
              && Displayed(FindCourse(r, c).value.noteCount) == Displayed(FindCourse(courses, c).value.noteCount) + 1
  {
    var f := FindCourse(courses, c);
    if ok && f.Some? then
      var v := Some(Displayed(f.value.noteCount) + 1);
      FindCourseAfterSet(courses, c, v, c);
      SetNoteCount(courses, c, v)
    else courses
  }

  /** An upload whose counter read and write both succeed keeps the counter exact. */
  lemma UploadKeepsCounterExact(notes: seq<NoteRow>, courses: seq<CourseRow>, n: NoteRow)
    requires CounterExact(notes, courses, n.courseId)
    ensures CounterExact(notes + [n], BumpedCount(courses, n.courseId, true), n.courseId)
  {
    var c := n.courseId;
    FindCourseAfterSet(courses, c, Some(Displayed(FindCourse(courses, c).value.noteCount) + 1), c);
    CountAfterAppend(notes, n);
  }

  /** An upload whose counter step is skipped or fails leaves the counter one
      below the number of rows. */
  lemma UploadWithoutCountLags(notes: seq<NoteRow>, courses: seq<CourseRow>, n: NoteRow)
    requires CounterExact(notes, courses, n.courseId)
    ensures Displayed(FindCourse(BumpedCount(courses, n.courseId, false), n.courseId).value.noteCount) ==
            |Filter(notes + [n], InCourse(n.courseId))| - 1
  {
    CountAfterAppend(notes, n);
  }

  /** With unique ids, removing the id of a present row removes exactly one row. */
  lemma {:induction false} WithoutPresentNote(rows: seq<NoteRow>, n: NoteRow)
    requires UniqueNoteIds(rows)
    requires n in rows
    ensures |WithoutNote(rows, n.id)| == |rows| - 1
  {
    var p := Not(HasNoteId(n.id));
    assert rows == [rows[0]] + rows[1..];
    if rows[0].id == n.id {
      forall m | m in rows[1..] ensures p(m) {
        var j :| 0 <= j < |rows[1..]| && rows[1..][j] == m;
        assert rows[0].id != rows[j + 1].id;
      }
      FilterAll(rows[1..], p);
    } else {
      assert n in rows[1..];
      assert UniqueNoteIds(rows[1..]) by {
        forall i, j | 0 <= i < j < |rows[1..]| ensures rows[1..][i].id != rows[1..][j].id {
          assert rows[1..][i] == rows[i + 1] && rows[1..][j] == rows[j + 1];
        }
      }
      WithoutPresentNote(rows[1..], n);
    }
  }

  /** Deleting a note of `c` whose counter decrement succeeds keeps the counter exact. */
  lemma DeleteKeepsCounterExact(notes: seq<NoteRow>, courses: seq<CourseRow>, n: NoteRow)
    requires CounterExact(notes, courses, n.courseId)
    requires UniqueNoteIds(notes) && n in notes
    ensures CounterExact(WithoutNote(notes, n.id), DecrementCount(courses, n.courseId), n.courseId)
  {
    var c := n.courseId;
    FindCourseAfterDecrement(courses, c, c);
    DeleteShrinksCourseCount(notes, n);
  }

  /** Deleting a note whose counter decrement fails leaves the counter one above
      the number of rows. */
  lemma DeleteWithoutDecrementLeads(notes: seq<NoteRow>, courses: seq<CourseRow>, n: NoteRow)
    requires CounterExact(notes, courses, n.courseId)
    requires UniqueNoteIds(notes) && n in notes
    ensures Displayed(FindCourse(courses, n.courseId).value.noteCount) ==
            |Filter(WithoutNote(notes, n.id), InCourse(n.courseId))| + 1
  {
    DeleteShrinksCourseCount(notes, n);
  }

  lemma DeleteShrinksCourseCount(notes: seq<NoteRow>, n: NoteRow)
    requires UniqueNoteIds(notes) && n in notes
    ensures |Filter(WithoutNote(notes, n.id), InCourse(n.courseId))| ==
            |Filter(notes, InCourse(n.courseId))| - 1
  {
    var c := n.courseId;
    FilterCommute(notes, Not(HasNoteId(n.id)), InCourse(c));
    NoteIdsAsKeys(notes);
    FilterKeepsUnique(notes, InCourse(c), NoteKey);
    NoteIdsAsKeys(Filter(notes, InCourse(c)));
    WithoutPresentNote(Filter(notes, InCourse(c)), n);
  }

  /** A note row appended with the latest timestamp heads its course's listing,
      in front of the rows listed before; other courses' listings do not change. */
  lemma NoteListingAfterInsert(rows: seq<NoteRow>, n: NoteRow, c: Id)
    requires forall m :: m in rows ==> m.createdAt <= n.createdAt
    ensures ListNotes(rows + [n], c) ==
            if n.courseId == c then [n] + ListNotes(rows, c) else ListNotes(rows, c)
  {
    FilterConcat(rows, [n], InCourse(c));
    if n.courseId == c {
      assert Filter([n], InCourse(c)) == [n];
      SortDescAppendNewest(Filter(rows, InCourse(c)), n, NoteTime);
    } else {
      assert Filter([n], InCourse(c)) == [];
      assert Filter(rows, InCourse(c)) + [] == Filter(rows, InCourse(c));
    }
  }

  /** Deleting the row with id `k` and listing again gives the old listing with
      that id filtered out, the other notes in their order. */
  lemma NoteListingAfterDelete(rows: seq<NoteRow>, c: Id, k: Id)
    ensures ListNotes(WithoutNote(rows, k), c) == WithoutNote(ListNotes(rows, c), k)
  {
    FilterCommute(rows, Not(HasNoteId(k)), InCourse(c));
    FilterSortDesc(Filter(rows, InCourse(c)), Not(HasNoteId(k)), NoteTime);
  }

  /** After `.delete().eq('course_id', c)` the course lists no notes. */
  lemma NoteListingAfterCourseDelete(rows: seq<NoteRow>, c: Id)
    ensures ListNotes(Filter(rows, Not(InCourse(c))), c) == []
  {
  }

  /** A course row appended with the latest timestamp heads its owner's listing. */
  lemma CourseListingAfterInsert(rows: seq<CourseRow>, x: CourseRow)
    requires forall y :: y in rows ==> y.createdAt <= x.createdAt
    ensures ListCourses(rows + [x], x.userId) == [x] + ListCourses(rows, x.userId)
  {
    FilterConcat(rows, [x], OwnedBy(x.userId));
    assert Filter([x], OwnedBy(x.userId)) == [x];
    SortDescAppendNewest(Filter(rows, OwnedBy(x.userId)), x, CourseTime);
  }

  /** With unique ids, two course rows with the same id are the same row. */
  lemma SameIdSameCourse(rows: seq<CourseRow>, x: CourseRow, y: CourseRow)
    requires UniqueCourseIds(rows) && x in rows && y in rows && x.id == y.id
    ensures x == y
  {
    var i :| 0 <= i < |rows| && rows[i] == x;
    var j :| 0 <= j < |rows| && rows[j] == y;
    assert i == j;
  }

  /** Deleting course `c` on behalf of `u` removes it when `u` owns it and
      leaves the lookup of `c` as it was otherwise. */
  lemma FindCourseAfterCourseDelete(rows: seq<CourseRow>, c: Id, u: UserId)
    requires UniqueCourseIds(rows)
    ensures var f := FindCourse(rows, c);
            FindCourse(Filter(rows, Not(IsOwnedCourse(c, u))), c) ==
            if f.Some? && f.value.userId == u then None else f
  {
    var f := FindCourse(rows, c);
    var kept := Filter(rows, Not(IsOwnedCourse(c, u)));
    var g := FindCourse(kept, c);
    if g.Some? {
      assert g.value in rows;
      assert f.Some?;
      SameIdSameCourse(rows, g.value, f.value);
    }
    if f.Some? && f.value.userId != u {
      assert f.value in kept;
      assert g.Some?;
    }
  }

  /** Appending a row changes the lookup of `c` only when no earlier row has id `c`. */
  lemma {:induction false} FindCourseAppend(rows: seq<CourseRow>, x: CourseRow, c: Id)
    ensures FindCourse(rows + [x], c) ==
            if FindCourse(rows, c).Some? then FindCourse(rows, c)
            else if x.id == c then Some(x) else None
  {
    if rows == [] {
      assert rows + [x] == [x];
      assert [x][1..] == [];
    } else {
      assert (rows + [x])[1..] == rows[1..] + [x];
      if rows[0].id != c {
        FindCourseAppend(rows[1..], x, c);
      }
    }
  }

  /** A course inserted with `note_count: 0` under a fresh id that no note row
      refers to starts with an exact counter. */
  lemma NewCourseCounterExact(notes: seq<NoteRow>, courses: seq<CourseRow>, x: CourseRow)
    requires forall r :: r in courses ==> r.id != x.id
    requires forall n :: n in notes ==> n.courseId != x.id
    requires x.noteCount == Some(0)
    ensures CounterExact(notes, courses + [x], x.id)
  {
    FindCourseAppend(courses, x, x.id);
    FilterNone(notes, InCourse(x.id));
  }

  /** Deleting a note whose row is already gone matches no row, yet the
      decrement that follows still lowers the counter, which ends one below the
      number of the course's rows. */
  lemma StaleDeleteUndercounts(notes: seq<NoteRow>, courses: seq<CourseRow>, n: NoteRow)
    requires CounterExact(notes, courses, n.courseId)
    requires forall m :: m in notes ==> m.id != n.id
    ensures WithoutNote(notes, n.id) == notes
    ensures Displayed(FindCourse(DecrementCount(courses, n.courseId), n.courseId).value.noteCount) ==
            |Filter(WithoutNote(notes, n.id), InCourse(n.courseId))| - 1
  {
    FilterAll(notes, Not(HasNoteId(n.id)));
    FindCourseAfterDecrement(courses, n.courseId, n.courseId);
  }
}
