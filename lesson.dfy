/** The lesson handlers of src/handlers/lesson.rs over the tables `lesson` and `word`:
    the filtered listings `get_lessons` and `get_all_word_for_lesson`, which answer 404
    rather than an empty list, and the two statements that change table `lesson`,
    `update_lesson_patch` (a COALESCE merge guarded against an empty patch) and
    `delete_lesson`. */
module Lessons {
  import opened Common
  import opened Decimal
  import opened Http

  /** A row of table `lesson`, with the columns its statements name. */
  datatype Lesson = Lesson(id: int, title: string, text: string, videoUrl: Option<string>,
                           createdAt: int, textbookId: int)

  /** A row of table `word`. */
  datatype Word = Word(id: int, term: string, definition: string, lessonId: int)

  /** `LessonQuery`: the optional `textbook_id` of the query string. */
  datatype LessonQuery = LessonQuery(textbookId: Option<i32>)

  /** The JSON body of a PATCH: each field absent or the new value. */
  datatype PatchLesson = PatchLesson(title: Option<string>, text: Option<string>,
                                     videoUrl: Option<string>, textbookId: Option<i32>)
  {
    predicate IsEmpty() {
      title.None? && text.None? && videoUrl.None? && textbookId.None?
    }
  }

  const NO_FIELDS := "No fields to update"
  const UPDATE_FAILED := "Failed to update lesson"

  function LessonNotFound(id: int): string {
    "Lesson with id " + IntToDecimal(id) + " not found"
  }

  /** The rows a `WHERE` keeps, in table order. Each row that satisfies `keep` occurs in the
      result exactly as often as in the table, and no other row occurs. */
  function Filter<T(!new)>(rows: seq<T>, keep: T -> bool): (r: seq<T>)
    ensures forall x :: multiset(r)[x] == if keep(x) then multiset(rows)[x] else 0
    ensures forall i :: 0 <= i < |r| ==> keep(r[i])
  {
    if rows == [] then []
    else
      assert rows == [rows[0]] + rows[1..];
      (if keep(rows[0]) then [rows[0]] else []) + Filter(rows[1..], keep)
  }

  /** `COALESCE($n, column)` for each patched column; `id` and `created_at` stay. */
  function Merge(l: Lesson, p: PatchLesson): (r: Lesson)
    ensures r.id == l.id && r.createdAt == l.createdAt
    ensures r.title == (if p.title.Some? then p.title.value else l.title)
    ensures r.text == (if p.text.Some? then p.text.value else l.text)
    ensures r.videoUrl == (if p.videoUrl.Some? then p.videoUrl else l.videoUrl)
    ensures r.textbookId == (if p.textbookId.Some? then p.textbookId.value as int else l.textbookId)
  {
    Lesson(l.id, p.title.GetOr(l.title), p.text.GetOr(l.text),
           if p.videoUrl.Some? then p.videoUrl else l.videoUrl,
           l.createdAt, if p.textbookId.Some? then p.textbookId.value else l.textbookId)
  }

  /** `UPDATE lesson SET ... WHERE id = $5`: the rows with that id are merged with the
      patch; every other row, and the order of the rows, stay as they were. */
  function UpdateWhereId(rows: seq<Lesson>, id: int, p: PatchLesson): (r: seq<Lesson>)
    ensures |r| == |rows|
    ensures forall i :: 0 <= i < |rows| ==> r[i] == if rows[i].id == id then Merge(rows[i], p) else rows[i]
  {
    seq(|rows|, i requires 0 <= i < |rows| => if rows[i].id == id then Merge(rows[i], p) else rows[i])
  }

  /** The first row with the given id, as `fetch_optional` takes it from `RETURNING`. */
  function FindById(rows: seq<Lesson>, id: int): (r: Option<nat>)
    ensures r.None? <==> forall i :: 0 <= i < |rows| ==> rows[i].id != id
    ensures r.Some? ==> r.value < |rows| && rows[r.value].id == id
  {
    if rows == [] then None
    else if rows[0].id == id then Some(0)
    else match FindById(rows[1..], id)
      case None => None
      case Some(i) => Some(i + 1)
  }

  predicate OfTextbook(query: LessonQuery, l: Lesson) {
    query.textbookId.None? || l.textbookId == query.textbookId.value as int
  }

  /** The database: the two tables the lesson handlers read and write. */
  class LessonStore {
    var lessons: seq<Lesson>
    var words: seq<Word>

    constructor (lessons: seq<Lesson>, words: seq<Word>)
      ensures this.lessons == lessons && this.words == words
    {
      this.lessons := lessons;
      this.words := words;
    }

    /** `get_lessons`: `SELECT * FROM lesson`, filtered by `textbook_id = $1` when the
        query gives one; an empty answer is 404, a failed query 500. */
    function GetLessons(query: LessonQuery, dbFails: bool): (r: Response<seq<Lesson>>)
      reads this
      ensures dbFails ==> r == StatusOnly(INTERNAL_SERVER_ERROR)
      ensures !dbFails && (forall i :: 0 <= i < |lessons| ==> !OfTextbook(query, lessons[i])) ==>
        r == StatusOnly(NOT_FOUND)
      ensures !dbFails && (exists i :: 0 <= i < |lessons| && OfTextbook(query, lessons[i])) ==>
        && r.body.Json? && r == JsonReply(OK, r.body.value)
        && forall l :: multiset(r.body.value)[l] == if OfTextbook(query, l) then multiset(lessons)[l] else 0
    {
      if dbFails then StatusOnly(INTERNAL_SERVER_ERROR)
      else
        var selected := Filter(lessons, l => OfTextbook(query, l));
        if selected == [] then
          assert forall i :: 0 <= i < |lessons| ==> !OfTextbook(query, lessons[i]) by {
            forall i | 0 <= i < |lessons| ensures !OfTextbook(query, lessons[i]) {
              assert lessons[i] in multiset(lessons);
            }
          }
          StatusOnly(NOT_FOUND)
        else
          assert selected[0] in multiset(selected);
          JsonReply(OK, selected)
    }

    /** `get_all_word_for_lesson`: `SELECT * FROM word WHERE lesson_id = $1`; an empty
        answer is 404, a failed query 500. */
    function GetAllWordForLesson(id: i32, dbFails: bool): (r: Response<seq<Word>>)
      reads this
      ensures dbFails ==> r == StatusOnly(INTERNAL_SERVER_ERROR)
      ensures !dbFails && (forall i :: 0 <= i < |words| ==> words[i].lessonId != id) ==>
        r == StatusOnly(NOT_FOUND)
      ensures !dbFails && (exists i :: 0 <= i < |words| && words[i].lessonId == id) ==>
        && r.body.Json? && r == JsonReply(OK, r.body.value)
        && forall w :: multiset(r.body.value)[w] == if w.lessonId == id then multiset(words)[w] else 0
    {
      if dbFails then StatusOnly(INTERNAL_SERVER_ERROR)
      else
        var selected := Filter(words, (w: Word) => w.lessonId == id);
        if selected == [] then
          assert forall i :: 0 <= i < |words| ==> words[i].lessonId != id by {
            forall i | 0 <= i < |words| ensures words[i].lessonId != id {
              assert words[i] in multiset(words);
            }
          }
          StatusOnly(NOT_FOUND)
        else
          assert selected[0] in multiset(selected);
          JsonReply(OK, selected)
    }

    /** `update_lesson_patch`. An all-absent patch is refused with 400 before any
        statement runs; otherwise the UPDATE merges the patch into the row with that id,
        whose new value is the reply, or answers 404 when there is no such row. */
    method UpdateLessonPatch(lessonId: i32, patch: PatchLesson, dbFails: bool)
      returns (r: Response<Lesson>)
      modifies this
      ensures words == old(words)
      ensures patch.IsEmpty() ==> r == TextReply(BAD_REQUEST, NO_FIELDS) && lessons == old(lessons)
      ensures !patch.IsEmpty() && dbFails ==>
        r == TextReply(INTERNAL_SERVER_ERROR, UPDATE_FAILED) && lessons == old(lessons)
      ensures !patch.IsEmpty() && !dbFails ==> lessons == UpdateWhereId(old(lessons), lessonId, patch)
      ensures !patch.IsEmpty() && !dbFails && (forall i :: 0 <= i < |old(lessons)| ==> old(lessons)[i].id != lessonId) ==>
        r == TextReply(NOT_FOUND, LessonNotFound(lessonId)) && lessons == old(lessons)
      ensures !patch.IsEmpty() && !dbFails && (exists i :: 0 <= i < |old(lessons)| && old(lessons)[i].id == lessonId) ==>
        exists i :: 0 <= i < |old(lessons)| && old(lessons)[i].id == lessonId &&
          r == JsonReply(OK, Merge(old(lessons)[i], patch))
    {
      if patch.IsEmpty() {
        return TextReply(BAD_REQUEST, NO_FIELDS);
      }
      if dbFails {
        return TextReply(INTERNAL_SERVER_ERROR, UPDATE_FAILED);
      }
      var found := FindById(lessons, lessonId);
      ghost var before := lessons;
      lessons := UpdateWhereId(lessons, lessonId, patch);
      if found.None? {
        assert lessons == before;
      }
      match found
      case Some(i) =>
        r := JsonReply(OK, lessons[i]);
      case None =>
        r := TextReply(NOT_FOUND, LessonNotFound(lessonId));
    }

    /** `delete_lesson`: `DELETE FROM lesson WHERE id = $1`; 204 when a row went, 404
        when there was none. */
    method DeleteLesson(id: i32, dbFails: bool) returns (r: Response<()>)
      modifies this
      ensures words == old(words)
      ensures dbFails ==> r == StatusOnly(INTERNAL_SERVER_ERROR) && lessons == old(lessons)
      ensures !dbFails ==> lessons == Filter(old(lessons), (l: Lesson) => l.id != id)
      ensures !dbFails ==>
        r == if exists i :: 0 <= i < |old(lessons)| && old(lessons)[i].id == id
             then StatusOnly(NO_CONTENT) else StatusOnly(NOT_FOUND)
      ensures r.status == NOT_FOUND ==> lessons == old(lessons)
    {
      if dbFails {
        return StatusOnly(INTERNAL_SERVER_ERROR);
      }
      var found := FindById(lessons, id);
      if found.None? {
        FilterKeepingAll(lessons, (l: Lesson) => l.id != id);
      }
      lessons := Filter(lessons, (l: Lesson) => l.id != id);
      r := if found.Some? then StatusOnly(NO_CONTENT) else StatusOnly(NOT_FOUND);
    }
  }

  /** After a delete no row with that id is left, and every other row is kept as often
      as it was. */
  lemma DeleteRemovesOnlyThatId(rows: seq<Lesson>, id: int)
    ensures var r := Filter(rows, (l: Lesson) => l.id != id);
      && (forall i :: 0 <= i < |r| ==> r[i].id != id)
      && (forall l: Lesson :: l.id != id ==> multiset(r)[l] == multiset(rows)[l])
  {
  }

  /** Applying the same patch twice leaves the table as applying it once. */
  lemma PatchIdempotent(rows: seq<Lesson>, id: int, p: PatchLesson)
    ensures UpdateWhereId(UpdateWhereId(rows, id, p), id, p) == UpdateWhereId(rows, id, p)
  {
  }

  /** A patch with nothing in it would change nothing, which is why it is refused. */
  lemma EmptyPatchChangesNothing(rows: seq<Lesson>, id: int, p: PatchLesson)
    requires p.IsEmpty()
    ensures UpdateWhereId(rows, id, p) == rows
  {
  }

  /** A filter that every row passes returns the rows as they are, in order. */
  lemma {:induction false} FilterKeepingAll<T(!new)>(rows: seq<T>, keep: T -> bool)
    requires forall i :: 0 <= i < |rows| ==> keep(rows[i])
    ensures Filter(rows, keep) == rows
  {
    if rows != [] {
      FilterKeepingAll(rows[1..], keep);
    }
  }

  /** With no `textbook_id` every lesson is listed, in table order. */
  lemma UnfilteredListsAll(rows: seq<Lesson>)
    ensures Filter(rows, l => OfTextbook(LessonQuery(None), l)) == rows
  {
    FilterKeepingAll(rows, l => OfTextbook(LessonQuery(None), l));
  }

  /** A patch of an id no row has leaves the table as it was. */
  lemma UpdateOfMissingIdChangesNothing(rows: seq<Lesson>, id: int, p: PatchLesson)
    requires forall i :: 0 <= i < |rows| ==> rows[i].id != id
    ensures UpdateWhereId(rows, id, p) == rows
  {
  }
}
