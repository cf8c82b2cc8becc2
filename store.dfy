/** The two remote stores the handlers talk to through the Supabase client: the
    object storage (bucket, path) -> object, and the `notes` and `courses`
    tables. Every remote call takes an `ok` parameter that says whether the
    service answered with an error; the stores change only when it did not. */
module Store {
  import opened Tables
  import opened Lists

  class Backend {
    /** Stored objects, keyed by (bucket, path). */
    var objects: map<(string, string), FileObj>
    /** The `notes` table, in insertion order. */
    var notes: seq<NoteRow>
    /** The `courses` table, in insertion order. */
    var courses: seq<CourseRow>
    /** The next id the database hands out. */
    var nextId: nat
    /** The project URL the client was created with. */
    const projectUrl: string

    /** Row ids are unique and were handed out before `nextId`. */
    ghost predicate Valid()
      reads this`notes, this`courses, this`nextId
    {
      && UniqueNoteIds(notes)
      && UniqueCourseIds(courses)
      && (forall n :: n in notes ==> n.id < nextId)
      && (forall r :: r in courses ==> r.id < nextId)
    }

    constructor (projectUrl: string)
      ensures Valid()
      ensures objects == map[] && notes == [] && courses == [] && this.projectUrl == projectUrl
    {
      objects, notes, courses, nextId := map[], [], [], 0;
      this.projectUrl := projectUrl;
    }

    /** `storage.from(bucket).upload(path, f, { upsert: false })`: an existing
        object at `path` is never overwritten; the upload fails instead. */
    method Upload(bucket: string, path: string, f: FileObj, ok: bool) returns (success: bool)
      modifies this`objects
      ensures success == (ok && (bucket, path) !in old(objects))
      ensures objects == if success then old(objects)[(bucket, path) := f] else old(objects)
    {
      success := ok && (bucket, path) !in objects;
      if success {
        objects := objects[(bucket, path) := f];
      }
    }

    /** `storage.from(bucket).remove(paths)`: paths that hold no object are
        skipped without error. */
    method Remove(bucket: string, paths: seq<string>, ok: bool) returns (success: bool)
      modifies this`objects
      ensures success == ok
      ensures forall k :: k in objects <==> k in old(objects) && !(ok && k.0 == bucket && k.1 in paths)
      ensures forall k :: k in objects ==> objects[k] == old(objects)[k]
    {
      success := ok;
      if ok {
        objects := map k | k in objects && !(k.0 == bucket && k.1 in paths) :: objects[k];
      }
    }

    /** `.from('notes').insert([...]).select().single()`: the database assigns
        the id; `createdAt` is its clock reading. */
    method InsertNote(title: string, fileUrl: string, filePath: string, fileType: NoteType,
                      fileName: string, courseId: Id, createdAt: int, ok: bool)
      returns (r: Option<NoteRow>)
      requires Valid()
      modifies this`notes, this`nextId
      ensures Valid()
      ensures !ok ==> r == None && notes == old(notes) && nextId == old(nextId)
      ensures ok ==> && r == Some(NoteRow(old(nextId), title, fileUrl, filePath, fileType, fileName, courseId, createdAt))
                     && notes == old(notes) + [r.value]
                     && nextId == old(nextId) + 1
    {
      if !ok {
        return None;
      }
      var row := NoteRow(nextId, title, fileUrl, filePath, fileType, fileName, courseId, createdAt);
      notes := notes + [row];
      nextId := nextId + 1;
      r := Some(row);
    }

    /** `.from('notes').delete().eq('id', k)`: matching no row is not an error. */
    method DeleteNote(k: Id, ok: bool) returns (success: bool)
      requires Valid()
      modifies this`notes
      ensures Valid()
      ensures success == ok
      ensures notes == if ok then WithoutNote(old(notes), k) else old(notes)
    {
      success := ok;
      if ok {
        NoteIdsAsKeys(notes);
        FilterKeepsUnique(notes, Not(HasNoteId(k)), NoteKey);
        NoteIdsAsKeys(WithoutNote(notes, k));
        notes := WithoutNote(notes, k);
      }
    }

    /** `.from('notes').delete().eq('course_id', c)` */
    method DeleteCourseNotes(c: Id, ok: bool) returns (success: bool)
      requires Valid()
      modifies this`notes
      ensures Valid()
      ensures success == ok
      ensures notes == if ok then Filter(old(notes), Not(InCourse(c))) else old(notes)
    {
      success := ok;
      if ok {
        NoteIdsAsKeys(notes);
        FilterKeepsUnique(notes, Not(InCourse(c)), NoteKey);
        NoteIdsAsKeys(Filter(notes, Not(InCourse(c))));
        notes := Filter(notes, Not(InCourse(c)));
      }
    }

    /** `.from('courses').select('note_count').eq('id', c).single()`: `None` for
        an error, which includes finding no such course. */
    method ReadNoteCount(c: Id, ok: bool) returns (r: Option<Option<int>>)
      ensures r.Some? <==> ok && FindCourse(courses, c).Some?
      ensures r.Some? ==> r.value == FindCourse(courses, c).value.noteCount
    {
      var f := FindCourse(courses, c);
      if ok && f.Some? {
        r := Some(f.value.noteCount);
      } else {
        r := None;
      }
    }

    /** `.from('courses').update({ note_count: v }).eq('id', c)` */
    method UpdateNoteCount(c: Id, v: Option<int>, ok: bool) returns (success: bool)
      requires Valid()
      modifies this`courses
      ensures Valid()
      ensures success == ok
      ensures courses == if ok then SetNoteCount(old(courses), c, v) else old(courses)
    {
      success := ok;
      if ok {
        CourseIdsKept(courses, SetNoteCount(courses, c, v), nextId);
        courses := SetNoteCount(courses, c, v);
      }
    }

    /** `.rpc('decrement_note_count', { course_id: c })` */
    method DecrementNoteCount(c: Id, ok: bool) returns (success: bool)
      requires Valid()
      modifies this`courses
      ensures Valid()
      ensures success == ok
      ensures courses == if ok then DecrementCount(old(courses), c) else old(courses)
    {
      success := ok;
      if ok {
        CourseIdsKept(courses, DecrementCount(courses, c), nextId);
        courses := DecrementCount(courses, c);
      }
    }

    /** `.from('courses').insert([...]).select().single()` */
    method InsertCourse(title: string, description: string, professor: string, userId: UserId,
                        noteCount: Option<int>, createdAt: int, ok: bool)
      returns (r: Option<CourseRow>)
      requires Valid()
      modifies this`courses, this`nextId
      ensures Valid()
      ensures !ok ==> r == None && courses == old(courses) && nextId == old(nextId)
      ensures ok ==> && r == Some(CourseRow(old(nextId), title, description, professor, userId, noteCount, createdAt))
                     && courses == old(courses) + [r.value]
                     && nextId == old(nextId) + 1
    {
      if !ok {
        return None;
      }
      var row := CourseRow(nextId, title, description, professor, userId, noteCount, createdAt);
      courses := courses + [row];
      nextId := nextId + 1;
      r := Some(row);
    }

    /** `.from('courses').delete().eq('id', c).eq('user_id', u)`: a course that
        `u` does not own matches no row and stays, without an error. */
    method DeleteCourse(c: Id, u: UserId, ok: bool) returns (success: bool)
      requires Valid()
      modifies this`courses
      ensures Valid()
      ensures success == ok
      ensures courses == if ok then Filter(old(courses), Not(IsOwnedCourse(c, u))) else old(courses)
    {
      success := ok;
      if ok {
        CourseIdsAsKeys(courses);
        FilterKeepsUnique(courses, Not(IsOwnedCourse(c, u)), CourseKey);
        CourseIdsAsKeys(Filter(courses, Not(IsOwnedCourse(c, u))));
        courses := Filter(courses, Not(IsOwnedCourse(c, u)));
      }
    }

    /** `.from('courses').select('*').eq('id', c).single()`: `None` for an
        error; `Some(None)` stands for an answer without data. */
    method SelectCourse(c: Id, ok: bool) returns (r: Option<Option<CourseRow>>)
      ensures r == if ok then Some(FindCourse(courses, c)) else None
    {
      r := if ok then Some(FindCourse(courses, c)) else None;
    }

    /** `.from('notes').select('*').eq('course_id', c).order('created_at', { ascending: false })` */
    method SelectNotes(c: Id, ok: bool) returns (r: Option<seq<NoteRow>>)
      ensures ok <==> r.Some?
      ensures r.Some? ==> forall n :: n in r.value <==> n in notes && n.courseId == c
      ensures r.Some? ==> SortedDesc(r.value, NoteTime) && r.value == ListNotes(notes, c)
    {
      r := if ok then Some(ListNotes(notes, c)) else None;
    }

    /** `.from('courses').select('*').eq('user_id', u).order('created_at', { ascending: false })` */
    method SelectCourses(u: UserId, ok: bool) returns (r: Option<seq<CourseRow>>)
      ensures ok <==> r.Some?
      ensures r.Some? ==> forall x :: x in r.value <==> x in courses && x.userId == u
      ensures r.Some? ==> SortedDesc(r.value, CourseTime) && r.value == ListCourses(courses, u)
    {
      r := if ok then Some(ListCourses(courses, u)) else None;
    }
  }
}
