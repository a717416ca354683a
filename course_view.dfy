/**
 * The course page component of `components/courses/CourseDetail.tsx`: completion
 * lookup, completion percentage, the sorted chapter list with its linear
 * prerequisite rule, chapter selection, and the complete-then-award-then-reload
 * sequence.
 */
module CourseView {
  import opened Wrappers
  import opened Entities
  import opened Percent
  import opened ChapterOrder
  import opened Store
  import opened Seqs

  /** `isChapterCompleted`: some loaded progress row names the chapter. */
  function IsChapterCompleted(progress: seq<ProgressRow>, chapterId: Id): (b: bool)
    ensures b <==> exists i :: 0 <= i < |progress| && progress[i].chapterId == chapterId
  {
    if progress == [] then false
    else if progress[0].chapterId == chapterId then true
    else
      var b := IsChapterCompleted(progress[1..], chapterId);
      assert b ==> exists i :: 0 <= i < |progress| && progress[i].chapterId == chapterId by {
        if b {
          var i :| 0 <= i < |progress[1..]| && progress[1..][i].chapterId == chapterId;
          assert progress[i + 1] == progress[1..][i];
        }
      }
      assert (exists i :: 0 <= i < |progress| && progress[i].chapterId == chapterId) ==> b by {
        if exists i :: 0 <= i < |progress| && progress[i].chapterId == chapterId {
          var i :| 0 <= i < |progress| && progress[i].chapterId == chapterId;
          assert i > 0 && progress[1..][i - 1] == progress[i];
        }
      }
      b
  }

  /** A completion appended to the rows marks that chapter and leaves the others as they were. */
  lemma CompletedAfterAppend(progress: seq<ProgressRow>, row: ProgressRow, chapterId: Id)
    ensures IsChapterCompleted(progress + [row], chapterId) ==
            (IsChapterCompleted(progress, chapterId) || row.chapterId == chapterId)
  {
    var p := progress + [row];
    if IsChapterCompleted(progress, chapterId) {
      var i :| 0 <= i < |progress| && progress[i].chapterId == chapterId;
      assert p[i] == progress[i];
    }
    if row.chapterId == chapterId {
      assert p[|progress|] == row;
    }
    if IsChapterCompleted(p, chapterId) {
      var i :| 0 <= i < |p| && p[i].chapterId == chapterId;
      if i < |progress| {
        assert p[i] == progress[i];
      }
    }
  }

  /** `getCompletedChaptersCount`: the number of progress rows, not of distinct chapters. */
  function CompletedCount(progress: seq<ProgressRow>): nat
  {
    |progress|
  }

  /** The count of rows bounds the number of distinct completed chapters from above. */
  lemma DistinctCompletedAtMostCount(progress: seq<ProgressRow>)
    ensures |Image(progress, ChapterIdOf)| <= CompletedCount(progress)
  {
    ImageCardAtMost(progress, ChapterIdOf);
  }

  /** Two rows for one chapter count twice. */
  lemma DuplicateRowsCountTwice(row: ProgressRow)
    ensures CompletedCount([row, row]) == 2
    ensures |Image([row, row], ChapterIdOf)| == 1
  {
    var rows := [row, row];
    assert forall i :: 0 <= i < |rows| ==> rows[i] == row;
    assert ChapterIdOf(rows[0]) in Image(rows, ChapterIdOf);
    assert Image(rows, ChapterIdOf) == {row.chapterId};
  }

  /**
   * `getProgressPercentage`: 0 without a course or without a `course_chapters` field,
   * otherwise `Math.round(rows / chapters * 100)`, which is NaN or Infinity for an
   * empty chapter array.
   */
  function ProgressPercentage(course: Option<Course>, progress: seq<ProgressRow>): (r: JsNumber)
    ensures course.None? || course.value.chapters.None? ==> r == Finite(0)
    ensures course.Some? && course.value.chapters.Some? && |course.value.chapters.value| > 0 ==>
      var n := |course.value.chapters.value|;
      r.Finite? && n * (2 * r.value - 1) <= 200 * |progress| < n * (2 * r.value + 1)
    ensures course.Some? && course.value.chapters == Some([]) ==>
      r == if progress == [] then NaN else Infinity
  {
    if course.None? || course.value.chapters.None? then Finite(0)
    else JsRoundPercent(CompletedCount(progress), |course.value.chapters.value|)
  }

  /** With no more rows than chapters, the percentage shown lies in 0..100. */
  lemma ProgressPercentageInRange(course: Course, progress: seq<ProgressRow>)
    requires course.chapters.Some? && |progress| <= |course.chapters.value| && |course.chapters.value| > 0
    ensures ProgressPercentage(Some(course), progress).Finite?
    ensures 0 <= ProgressPercentage(Some(course), progress).value <= 100
  {
    PercentInRange(|progress|, |course.chapters.value|);
  }

  /**
   * `canAccess` of the entry at `index` of the sorted list: the first chapter always,
   * any other one when its predecessor in the list has a progress row.
   */
  function CanAccess(chapters: seq<Chapter>, progress: seq<ProgressRow>, index: nat): (b: bool)
    requires index < |chapters|
    ensures b <==> (index == 0 ||
      exists j :: 0 <= j < |progress| && progress[j].chapterId == chapters[index - 1].id)
  {
    index == 0 || IsChapterCompleted(progress, chapters[index - 1].id)
  }

  /** Only the predecessor's completion matters: rows that agree on it give the same access. */
  lemma AccessDependsOnlyOnPredecessor(chapters: seq<Chapter>, p1: seq<ProgressRow>, p2: seq<ProgressRow>, index: nat)
    requires 0 < index < |chapters|
    requires IsChapterCompleted(p1, chapters[index - 1].id) == IsChapterCompleted(p2, chapters[index - 1].id)
    ensures CanAccess(chapters, p1, index) == CanAccess(chapters, p2, index)
  {
  }

  /** Completing a chapter unlocks its successor in the list and nothing else. */
  lemma CompletionUnlocksOnlySuccessor(chapters: seq<Chapter>, progress: seq<ProgressRow>, row: ProgressRow, index: nat)
    requires index < |chapters|
    ensures CanAccess(chapters, progress + [row], index) ==
            (CanAccess(chapters, progress, index) || (index > 0 && chapters[index - 1].id == row.chapterId))
  {
    if index > 0 {
      CompletedAfterAppend(progress, row, chapters[index - 1].id);
    }
  }

  /** Completing the chapters in list order keeps the next one open. */
  lemma InOrderCompletionKeepsNextOpen(chapters: seq<Chapter>, progress: seq<ProgressRow>, k: nat)
    requires k < |chapters|
    requires forall j :: 0 <= j < k ==> IsChapterCompleted(progress, chapters[j].id)
    ensures forall j :: 0 <= j <= k ==> CanAccess(chapters, progress, j)
  {
    forall j | 0 < j <= k ensures CanAccess(chapters, progress, j) {
      assert IsChapterCompleted(progress, chapters[j - 1].id);
    }
  }

  /** With distinct `order_index` values, access does not depend on how the list was sorted. */
  lemma AccessIndependentOfSortRun(a: seq<Chapter>, b: seq<Chapter>, progress: seq<ProgressRow>, index: nat)
    requires SortedByOrder(a) && SortedByOrder(b) && DistinctOrder(a) && multiset(a) == multiset(b)
    requires index < |a|
    ensures index < |b| && CanAccess(a, progress, index) == CanAccess(b, progress, index)
  {
    SortedPermutationUnique(a, b);
  }

  /** After a progress write, reloading the learner's rows of the course shows the chapter completed. */
  lemma WrittenRowIsReloaded(t: seq<ProgressRow>, row: ProgressRow, id: Option<Id>)
    requires id == Some(row.courseId)
    ensures IsChapterCompleted(Filter(Upsert(t, row), ByUserAndCourse(row.userId, id)), row.chapterId)
  {
    var reloaded := Filter(Upsert(t, row), ByUserAndCourse(row.userId, id));
    assert ByUserAndCourse(row.userId, id)(row);
    assert row in reloaded;
    var i :| 0 <= i < |reloaded| && reloaded[i] == row;
  }

  /** The steps `markChapterComplete` takes, in order. */
  datatype Step = Write | Award | Reload

  /** Backend failures that the component may meet, one per backend call. */
  datatype Faults = Faults(
    update: Option<string>,   // `updateProgress` returns this error
    progressRead: bool,       // `awardBadge` reads no progress rows
    chaptersRead: bool,       // `awardBadge` reads no chapters
    insert: Option<string>,   // the badge insert returns this error
    reload: bool)             // the reload of progress returns an error

  /** The component's state. */
  class CourseDetailView {
    var course: Option<Course>
    var progress: seq<ProgressRow>
    var loading: bool
    var currentChapter: Option<Chapter>

    constructor ()
      ensures course == None && progress == [] && loading && currentChapter == None
    {
      course, progress, loading, currentChapter := None, [], true, None;
    }

    /**
     * `loadCourse`: without an id nothing happens; on an error the state is kept;
     * otherwise the course is stored and its first chapter, in the order the backend
     * returned them (before any sorting), becomes current.
     */
    method LoadCourse(id: Option<Id>, response: Response<Option<Course>>)
      modifies this`course, this`currentChapter
      ensures !Present(id) || response.Err? ==> course == old(course) && currentChapter == old(currentChapter)
      ensures Present(id) && response.Ok? ==> course == response.value
      ensures Present(id) && response.Ok? ==>
        currentChapter ==
          if response.value.Some? && response.value.value.chapters.Some? && |response.value.value.chapters.value| > 0
          then Some(response.value.value.chapters.value[0])
          else old(currentChapter)
    {
      if !Present(id) {
        return;
      }
      if response.Err? {
        return;
      }
      course := response.value;
      if response.value.Some? && response.value.value.chapters.Some? && |response.value.value.chapters.value| > 0 {
        currentChapter := Some(response.value.value.chapters.value[0]);
      }
    }

    /**
     * `loadProgress`: without an id or a user nothing happens; otherwise the learner's
     * rows for the course replace `progress` when the read succeeds, and loading ends.
     */
    method LoadProgress(db: Db, user: Option<Id>, id: Option<Id>, readFails: bool)
      modifies this`progress, this`loading
      ensures !Present(id) || user.None? ==> progress == old(progress) && loading == old(loading)
      ensures Present(id) && user.Some? ==> !loading
      ensures Present(id) && user.Some? ==>
        progress == if readFails then old(progress) else Filter(db.userProgress, ByUserAndCourse(user.value, id))
    {
      if !Present(id) || user.None? {
        return;
      }
      if !readFails {
        var data := db.GetUserProgress(user.value, id);
        progress := data;
      }
      loading := false;
    }

    /**
     * `markChapterComplete`: without a user or an id nothing happens. The progress
     * write comes first; if it fails, neither the badge award nor the reload runs.
     * Otherwise the badge award runs against the updated table, then the reload.
     */
    method MarkChapterComplete(db: Db, user: Option<Id>, id: Option<Id>, chapterId: Id,
                               writtenAt: Timestamp, earnedAt: Timestamp, faults: Faults)
      returns (steps: seq<Step>)
      requires db.Valid()
      modifies this`progress, this`loading, db`userProgress, db`userBadges
      ensures db.Valid()
      ensures user.None? || !Present(id) ==>
        steps == [] && db.userProgress == old(db.userProgress) && db.userBadges == old(db.userBadges)
        && progress == old(progress) && loading == old(loading)
      ensures user.Some? && Present(id) && faults.update.Some? ==>
        steps == [Write] && db.userProgress == old(db.userProgress) && db.userBadges == old(db.userBadges)
        && progress == old(progress) && loading == old(loading)
      ensures user.Some? && Present(id) && faults.update.None? ==>
        && steps == [Write, Award, Reload]
        && db.userProgress == Upsert(old(db.userProgress), ProgressRow(user.value, id.value, chapterId, writtenAt))
        && db.userBadges == old(db.userBadges) +
             (if !faults.progressRead && !faults.chaptersRead && faults.insert.None?
                 && Eligible(db.userProgress, db.courseChapters, user.value, id.value)
              then [BadgeRow(user.value, id.value, earnedAt)] else [])
        && !loading
        && progress == (if faults.reload then old(progress) else Filter(db.userProgress, ByUserAndCourse(user.value, id)))
        && (!faults.reload ==> IsChapterCompleted(progress, chapterId))
    {
      if user.None? || !Present(id) {
        return [];
      }
      steps := WriteAwardReload(db, user.value, id, chapterId, writtenAt, earnedAt, faults);
    }

    /** `markChapterComplete` for a signed-in user and a course id: write, then award and reload. */
    method WriteAwardReload(db: Db, userId: Id, id: Option<Id>, chapterId: Id,
                            writtenAt: Timestamp, earnedAt: Timestamp, faults: Faults)
      returns (steps: seq<Step>)
      requires db.Valid() && Present(id)
      modifies this`progress, this`loading, db`userProgress, db`userBadges
      ensures db.Valid()
      ensures faults.update.Some? ==>
        steps == [Write] && db.userProgress == old(db.userProgress) && db.userBadges == old(db.userBadges)
        && progress == old(progress) && loading == old(loading)
      ensures faults.update.None? ==>
        && steps == [Write, Award, Reload]
        && db.userProgress == Upsert(old(db.userProgress), ProgressRow(userId, id.value, chapterId, writtenAt))
        && db.userBadges == old(db.userBadges) +
             (if !faults.progressRead && !faults.chaptersRead && faults.insert.None?
                 && Eligible(db.userProgress, db.courseChapters, userId, id.value)
              then [BadgeRow(userId, id.value, earnedAt)] else [])
        && !loading
        && progress == (if faults.reload then old(progress) else Filter(db.userProgress, ByUserAndCourse(userId, id)))
        && (!faults.reload ==> IsChapterCompleted(progress, chapterId))
    {
      var error := db.UpdateProgress(userId, id.value, chapterId, writtenAt, faults.update);
      if error.Some? {
        return [Write];
      }
      AwardAndReload(db, userId, id, earnedAt, faults);
      WrittenRowIsReloaded(old(db.userProgress), ProgressRow(userId, id.value, chapterId, writtenAt), id);
      steps := [Write, Award, Reload];
    }

    /** The tail of `markChapterComplete` once the write succeeded: the badge award, then the reload. */
    method AwardAndReload(db: Db, userId: Id, id: Option<Id>, earnedAt: Timestamp, faults: Faults)
      requires Present(id)
      modifies this`progress, this`loading, db`userBadges
      ensures db.userBadges == old(db.userBadges) +
        (if !faults.progressRead && !faults.chaptersRead && faults.insert.None?
            && Eligible(db.userProgress, db.courseChapters, userId, id.value)
         then [BadgeRow(userId, id.value, earnedAt)] else [])
      ensures !loading
      ensures progress == if faults.reload then old(progress) else Filter(db.userProgress, ByUserAndCourse(userId, id))
    {
      var outcome := db.AwardBadge(userId, id.value, earnedAt, faults.progressRead, faults.chaptersRead, faults.insert);
      LoadProgress(db, Some(userId), id, faults.reload);
    }

    /**
     * The chapter list: `course_chapters` is sorted in place by `order_index` (the
     * course keeps the sorted order) and each entry's access is computed on that order.
     * Without a `course_chapters` field the render throws, given here as None.
     */
    method RenderChapterList() returns (access: Option<seq<bool>>)
      requires course.Some?
      modifies this`course
      ensures course.Some? && course.value.chapters.Some? <==> old(course.value.chapters).Some?
      ensures old(course.value.chapters).None? ==> access.None? && course == old(course)
      ensures old(course.value.chapters).Some? ==>
        && course == Some(old(course.value).(chapters := course.value.chapters))
        && SortedByOrder(course.value.chapters.value)
        && multiset(course.value.chapters.value) == multiset(old(course.value.chapters.value))
        && access.Some? && |access.value| == |course.value.chapters.value|
        && forall i :: 0 <= i < |access.value| ==> access.value[i] == CanAccess(course.value.chapters.value, progress, i)
    {
      if course.value.chapters.None? {
        return None;
      }
      var sorted := SortChapters(course.value.chapters.value);
      course := Some(course.value.(chapters := Some(sorted)));
      var rows := progress;
      access := Some(seq(|sorted|, i requires 0 <= i < |sorted| => CanAccess(sorted, rows, i)));
    }

    /**
     * The click on entry `index` of the rendered list: only an accessible chapter becomes
     * current. The list exists only after `RenderChapterList` sorted the chapters in place.
     */
    method SelectChapter(index: nat)
      requires course.Some? && course.value.chapters.Some? && index < |course.value.chapters.value|
      requires SortedByOrder(course.value.chapters.value)
      modifies this`currentChapter
      ensures currentChapter ==
        if CanAccess(course.value.chapters.value, progress, index) then Some(course.value.chapters.value[index])
        else old(currentChapter)
    {
      if CanAccess(course.value.chapters.value, progress, index) {
        currentChapter := Some(course.value.chapters.value[index]);
      }
    }

    /** The "mark complete" action is offered for a current chapter without a progress row. */
    function OffersMarkComplete(): (b: bool)
      reads this
      ensures b <==> (currentChapter.Some? &&
        forall i :: 0 <= i < |progress| ==> progress[i].chapterId != currentChapter.value.id)
    {
      currentChapter.Some? && !IsChapterCompleted(progress, currentChapter.value.id)
    }
  }
}
