/** The records the progression logic reads and writes. */
module Entities {
  import opened Wrappers

  type Id = string

  /** An ISO timestamp produced by the clock; the model treats it as an opaque value. */
  type Timestamp = string

  /** A chapter of a course, as loaded with the course. */
  datatype Chapter = Chapter(id: Id, title: string, orderIndex: int, durationMinutes: int)

  /** A course of the catalog; `chapters` is None when the `course_chapters` field is missing. */
  datatype Course = Course(
    id: Id,
    title: string,
    description: string,
    instructor: string,
    courseModule: string,
    difficulty: string,
    durationHours: Option<int>,
    chapters: Option<seq<Chapter>>)

  /** A row of the `user_progress` table: one completed chapter of one learner. */
  datatype ProgressRow = ProgressRow(userId: Id, courseId: Id, chapterId: Id, completedAt: Timestamp)

  /** A row of the `course_chapters` table, reduced to the columns the badge check reads. */
  datatype ChapterRow = ChapterRow(id: Id, courseId: Id)

  /** A row of the `user_badges` table. */
  datatype BadgeRow = BadgeRow(userId: Id, courseId: Id, earnedAt: Timestamp)
}
