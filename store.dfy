/**
 * The progress and badge helpers of the data layer (`db.getUserProgress`,
 * `db.updateProgress`, `db.awardBadge`), run against an in-memory copy of the
 * `user_progress`, `course_chapters` and `user_badges` tables.
 *
 * Model assumption: the upsert of `updateProgress` resolves conflicts on the key
 * (user_id, course_id, chapter_id); the code does not name the conflict target.
 * Backend failures are parameters: a failing write returns its error message, a
 * failing read returns no data.
 */
module Store {
  import opened Wrappers
  import opened Entities
  import opened Seqs

  /** The upsert key of a progress row. */
  function Key(r: ProgressRow): (Id, Id, Id)
  {
    (r.userId, r.courseId, r.chapterId)
  }

  /** No two progress rows share a key. */
  ghost predicate KeysUnique(t: seq<ProgressRow>)
  {
    Injective(t, Key)
  }

  /** The table already holds a row with the key of `row`. */
  predicate HasKey(t: seq<ProgressRow>, row: ProgressRow)
  {
    exists i :: 0 <= i < |t| && Key(t[i]) == Key(row)
  }

  /**
   * Insert-or-update: the first row with the key of `row` is replaced by `row`;
   * when there is none, `row` is appended.
   */
  function Upsert(t: seq<ProgressRow>, row: ProgressRow): (r: seq<ProgressRow>)
    ensures row in r
    ensures |r| == if HasKey(t, row) then |t| else |t| + 1
    ensures forall x :: x in r ==> x == row || x in t
    ensures forall x :: x in t && Key(x) != Key(row) ==> x in r
  {
    if t == [] then [row]
    else if Key(t[0]) == Key(row) then [row] + t[1..]
    else
      assert HasKey(t, row) <==> HasKey(t[1..], row) by {
        if HasKey(t, row) {
          var i :| 0 <= i < |t| && Key(t[i]) == Key(row);
          assert t[1..][i - 1] == t[i];
        }
        if HasKey(t[1..], row) {
          var i :| 0 <= i < |t[1..]| && Key(t[1..][i]) == Key(row);
          assert t[i + 1] == t[1..][i];
        }
      }
      [t[0]] + Upsert(t[1..], row)
  }

  /** Upserting keeps the keys of the table unique, and `row` is then the only row with its key. */
  lemma {:induction false} UpsertKeepsKeysUnique(t: seq<ProgressRow>, row: ProgressRow)
    requires KeysUnique(t)
    ensures KeysUnique(Upsert(t, row))
    ensures forall x :: x in Upsert(t, row) && Key(x) == Key(row) ==> x == row
  {
    if t != [] {
      var tail := t[1..];
      TailKeysUnique(t);
      if Key(t[0]) == Key(row) {
        ConsKeysUnique(row, tail);
      } else {
        UpsertKeepsKeysUnique(tail, row);
        var u := Upsert(tail, row);
        assert forall x :: x in u ==> Key(x) != Key(t[0]);
        ConsKeysUnique(t[0], u);
      }
    }
  }

  /** The rest of a table with unique keys has unique keys, none equal to the head's. */
  lemma TailKeysUnique(t: seq<ProgressRow>)
    requires t != [] && KeysUnique(t)
    ensures KeysUnique(t[1..])
    ensures forall x :: x in t[1..] ==> Key(x) != Key(t[0])
  {
    var tail := t[1..];
    forall i, j | 0 <= i < j < |tail| ensures Key(tail[i]) != Key(tail[j]) {
      assert tail[i] == t[i + 1] && tail[j] == t[j + 1];
    }
    forall x | x in tail ensures Key(x) != Key(t[0]) {
      var i :| 0 <= i < |tail| && tail[i] == x;
      assert t[i + 1] == x;
    }
  }

  /** A row whose key no row of `u` has can be put in front of `u`. */
  lemma ConsKeysUnique(h: ProgressRow, u: seq<ProgressRow>)
    requires KeysUnique(u)
    requires forall x :: x in u ==> Key(x) != Key(h)
    ensures KeysUnique([h] + u)
  {
    var r := [h] + u;
    forall i, j | 0 <= i < j < |r| ensures Key(r[i]) != Key(r[j]) {
      assert r[j] == u[j - 1];
      if i > 0 {
        assert r[i] == u[i - 1];
      } else {
        assert r[j] in u;
      }
    }
  }

  /** A second upsert with the same key overwrites the first: the last write wins. */
  lemma {:induction false} UpsertLastWriteWins(t: seq<ProgressRow>, a: ProgressRow, b: ProgressRow)
    requires Key(a) == Key(b)
    ensures Upsert(Upsert(t, a), b) == Upsert(t, b)
  {
    if t != [] && Key(t[0]) != Key(a) {
      UpsertLastWriteWins(t[1..], a, b);
      assert Upsert(t, a) == [t[0]] + Upsert(t[1..], a);
      assert (Upsert(t, a))[1..] == Upsert(t[1..], a);
    }
  }

  /** Repeating an upsert adds no second row for the key. */
  lemma UpsertRepeatKeepsSize(t: seq<ProgressRow>, a: ProgressRow, b: ProgressRow)
    requires Key(a) == Key(b)
    ensures |Upsert(Upsert(t, a), b)| == |Upsert(t, a)|
  {
    UpsertLastWriteWins(t, a, b);
    assert HasKey(Upsert(t, a), b) by {
      var r := Upsert(t, a);
      var i :| 0 <= i < |r| && r[i] == a;
    }
  }

  /** Rows of a user, and of one course when `courseId` is present (`src/lib/supabase.ts`, lines 111-115). */
  function ByUserAndCourse(userId: Id, courseId: Option<Id>): ProgressRow -> bool
  {
    (r: ProgressRow) => r.userId == userId && (Present(courseId) ==> r.courseId == courseId.value)
  }

  function ByUser(userId: Id): ProgressRow -> bool
  {
    (r: ProgressRow) => r.userId == userId
  }

  function ByCourse(courseId: Id): ProgressRow -> bool
  {
    (r: ProgressRow) => r.courseId == courseId
  }

  /** Rows of one learner in one course, as the badge check selects them (`src/lib/supabase.ts`, lines 147-151). */
  function ByUserCourse(userId: Id, courseId: Id): ProgressRow -> bool
  {
    (r: ProgressRow) => r.userId == userId && r.courseId == courseId
  }

  function ChapterOfCourse(courseId: Id): ChapterRow -> bool
  {
    (c: ChapterRow) => c.courseId == courseId
  }

  function ChapterIdOf(r: ProgressRow): Id { r.chapterId }

  function IdOf(c: ChapterRow): Id { c.id }

  /** The completion test of `awardBadge`: as many progress rows as chapters. */
  predicate Eligible(t: seq<ProgressRow>, chapters: seq<ChapterRow>, userId: Id, courseId: Id)
  {
    |Filter(t, ByUserCourse(userId, courseId))| == |Filter(chapters, ChapterOfCourse(courseId))|
  }

  /** The chapters of a course the learner has a progress row for. */
  function CompletedChapterIds(t: seq<ProgressRow>, userId: Id, courseId: Id): set<Id>
  {
    Image(Filter(t, ByUserCourse(userId, courseId)), ChapterIdOf)
  }

  /** The chapters of a course. */
  function CourseChapterIds(chapters: seq<ChapterRow>, courseId: Id): set<Id>
  {
    Image(Filter(chapters, ChapterOfCourse(courseId)), IdOf)
  }

  /** Every progress row of the learner in the course names a chapter of that course. */
  ghost predicate RowsNameCourseChapters(t: seq<ProgressRow>, chapters: seq<ChapterRow>, userId: Id, courseId: Id)
  {
    forall r :: r in t && r.userId == userId && r.courseId == courseId ==>
      exists c :: c in chapters && c.courseId == courseId && c.id == r.chapterId
  }

  /**
   * What the count test of `awardBadge` means: when progress keys are unique, chapter
   * ids are unique and every progress row names a chapter of the course, the counts
   * agree exactly when every chapter of the course has been completed.
   */
  lemma EligibleIffAllChaptersCompleted(t: seq<ProgressRow>, chapters: seq<ChapterRow>, userId: Id, courseId: Id)
    requires KeysUnique(t) && Injective(chapters, IdOf)
    requires RowsNameCourseChapters(t, chapters, userId, courseId)
    ensures Eligible(t, chapters, userId, courseId) <==>
            CompletedChapterIds(t, userId, courseId) == CourseChapterIds(chapters, courseId)
  {
    var rows := Filter(t, ByUserCourse(userId, courseId));
    var own := Filter(chapters, ChapterOfCourse(courseId));
    FilterInjective(t, ByUserCourse(userId, courseId), Key);
    assert Injective(rows, ChapterIdOf) by {
      forall i, j | 0 <= i < j < |rows| ensures rows[i].chapterId != rows[j].chapterId {
        assert rows[i] in rows && rows[j] in rows;
        assert Key(rows[i]) != Key(rows[j]);
      }
    }
    InjectiveImageCard(rows, ChapterIdOf);
    FilterInjective(chapters, ChapterOfCourse(courseId), IdOf);
    InjectiveImageCard(own, IdOf);
    var done := CompletedChapterIds(t, userId, courseId);
    var all := CourseChapterIds(chapters, courseId);
    assert done <= all by {
      forall y | y in done ensures y in all {
        ImageMember(rows, ChapterIdOf, y);
        var r :| r in rows && r.chapterId == y;
        var c :| c in chapters && c.courseId == courseId && c.id == r.chapterId;
        assert c in own;
        ImageMember(own, IdOf, y);
      }
    }
    if |done| == |all| {
      SubsetSameSizeEqual(done, all);
    }
  }

  lemma SubsetSameSizeEqual(a: set<Id>, b: set<Id>)
    requires a <= b && |a| == |b|
    ensures a == b
  {
    assert |b - a| == |b| - |a|;
  }

  /** A course without chapters passes the count test for a learner without progress in it. */
  lemma EmptyCourseIsEligible(t: seq<ProgressRow>, chapters: seq<ChapterRow>, userId: Id, courseId: Id)
    requires forall i :: 0 <= i < |t| ==> t[i].userId != userId || t[i].courseId != courseId
    requires forall i :: 0 <= i < |chapters| ==> chapters[i].courseId != courseId
    ensures Eligible(t, chapters, userId, courseId)
  {
    FilterNone(t, ByUserCourse(userId, courseId));
    FilterNone(chapters, ChapterOfCourse(courseId));
  }

  /** The outcome of `awardBadge`. */
  datatype AwardOutcome =
    | NotCompleted          // the test failed: `{ data: null, error: null }`
    | Inserted              // a badge row was inserted
    | InsertFailed(message: string)  // the insert returned an error

  /** The three tables that the helpers read and write. */
  class Db {
    var userProgress: seq<ProgressRow>
    var courseChapters: seq<ChapterRow>
    var userBadges: seq<BadgeRow>

    ghost predicate Valid()
      reads this
    {
      KeysUnique(userProgress)
    }

    constructor (progress: seq<ProgressRow>, chapters: seq<ChapterRow>, badges: seq<BadgeRow>)
      requires KeysUnique(progress)
      ensures Valid()
      ensures userProgress == progress && courseChapters == chapters && userBadges == badges
    {
      userProgress := progress;
      courseChapters := chapters;
      userBadges := badges;
    }

    /**
     * `getUserProgress(userId, courseId?)`: the rows of the user, narrowed to the course
     * when a (non-empty) course id is given, in table order.
     */
    method GetUserProgress(userId: Id, courseId: Option<Id>) returns (data: seq<ProgressRow>)
      ensures data == Filter(userProgress, ByUserAndCourse(userId, courseId))
      ensures forall r :: r in data <==>
        r in userProgress && r.userId == userId && (Present(courseId) ==> r.courseId == courseId.value)
      ensures IsSubsequence(data, userProgress)
    {
      var query := Filter(userProgress, ByUser(userId));
      if Present(courseId) {
        query := Filter(query, ByCourse(courseId.value));
        FilterFilter(userProgress, ByUser(userId), ByCourse(courseId.value), ByUserAndCourse(userId, courseId));
      } else {
        FilterExt(userProgress, ByUser(userId), ByUserAndCourse(userId, courseId));
      }
      data := query;
      FilterIsSubsequence(userProgress, ByUserAndCourse(userId, courseId));
    }

    /**
     * `updateProgress`: upserts the row (user, course, chapter, now); on a backend error
     * the table is unchanged and the error is returned.
     */
    method UpdateProgress(userId: Id, courseId: Id, chapterId: Id, now: Timestamp, failure: Option<string>)
      returns (error: Option<string>)
      requires Valid()
      modifies this`userProgress
      ensures Valid()
      ensures error == failure
      ensures failure.Some? ==> userProgress == old(userProgress)
      ensures failure.None? ==> userProgress == Upsert(old(userProgress), ProgressRow(userId, courseId, chapterId, now))
      ensures failure.None? ==> ProgressRow(userId, courseId, chapterId, now) in userProgress
    {
      error := failure;
      if failure.None? {
        UpsertKeepsKeysUnique(userProgress, ProgressRow(userId, courseId, chapterId, now));
        userProgress := Upsert(userProgress, ProgressRow(userId, courseId, chapterId, now));
      }
    }

    /**
     * `awardBadge`: reads the learner's progress rows for the course and the course's
     * chapters (a failed read yields no data); when both reads returned data and the
     * counts agree, inserts the badge row (user, course, now). There is no check for
     * an existing badge. Only `userBadges` can change.
     */
    method AwardBadge(userId: Id, courseId: Id, now: Timestamp,
                      progressReadFails: bool, chaptersReadFails: bool, insertFailure: Option<string>)
      returns (outcome: AwardOutcome)
      modifies this`userBadges
      ensures outcome != NotCompleted <==>
        !progressReadFails && !chaptersReadFails && Eligible(userProgress, courseChapters, userId, courseId)
      ensures outcome == Inserted <==> outcome != NotCompleted && insertFailure.None?
      ensures outcome.InsertFailed? ==> insertFailure == Some(outcome.message)
      ensures userBadges == if outcome == Inserted then old(userBadges) + [BadgeRow(userId, courseId, now)]
                            else old(userBadges)
    {
      var progress: Option<seq<ProgressRow>> := None;
      if !progressReadFails {
        progress := Some(Filter(userProgress, ByUserCourse(userId, courseId)));
      }
      var totalChapters: Option<seq<ChapterRow>> := None;
      if !chaptersReadFails {
        totalChapters := Some(Filter(courseChapters, ChapterOfCourse(courseId)));
      }
      if progress.Some? && totalChapters.Some? && |progress.value| == |totalChapters.value| {
        if insertFailure.Some? {
          return InsertFailed(insertFailure.value);
        }
        userBadges := userBadges + [BadgeRow(userId, courseId, now)];
        return Inserted;
      }
      return NotCompleted;
    }
  }

  /**
   * Two calls of `awardBadge` on a completed course insert two badge rows: nothing
   * in the helper makes the award happen once.
   */
  method AwardTwice(db: Db, userId: Id, courseId: Id, first: Timestamp, second: Timestamp)
    requires Eligible(db.userProgress, db.courseChapters, userId, courseId)
    modifies db`userBadges
    ensures db.userBadges == old(db.userBadges) + [BadgeRow(userId, courseId, first), BadgeRow(userId, courseId, second)]
  {
    var o1 := db.AwardBadge(userId, courseId, first, false, false, None);
    var o2 := db.AwardBadge(userId, courseId, second, false, false, None);
  }
}
