# Course progression and badges: a Dafny model

This project models the course-progression core of a course-delivery web application
(a React front end over a Supabase backend). It covers:

- the course page component (`src/components/courses/CourseDetail.tsx`):
  - completion lookup over the loaded progress rows;
  - the completed count and the completion percentage;
  - the chapter list, sorted in place by `order_index`, with its linear prerequisite rule;
  - chapter selection;
  - the write, then award, then reload sequence of "mark chapter complete";
- the second course page (`src/pages/CourseDetail.tsx`):
  - the memoised percentage;
  - the sorted load with a default selection;
  - the completion request that grows the set of completed chapter ids;
- the backend helpers (`src/lib/supabase.ts`): `getUserProgress`, `updateProgress` and
  `awardBadge`, over in-memory `user_progress`, `course_chapters` and `user_badges` tables;
- the catalog (`src/pages/Courses.tsx`): the three conditional filters and the per-course
  percentage;
- the dashboard (`src/pages/Dashboard.tsx`): the statistics, the module distribution and
  the pending figure.

Modules:

| file | module | models |
|---|---|---|
| `wrappers.dfy` | `Wrappers` | `Option`, `Response` (data or error), and JavaScript truthiness of an id |
| `entities.dfy` | `Entities` | course, chapter, progress row, chapter row and badge row records |
| `seqs.dfy` | `Seqs` | `Array.prototype.filter`, order-preserving subsequences, images of sequences |
| `percent.dfy` | `Percent` | `Math.round((k / n) * 100)` in exact integers, with NaN and Infinity for n = 0 |
| `text.dfy` | `Text` | ASCII `toLowerCase` and `includes` |
| `chapter_order.dfy` | `ChapterOrder` | the in-place sort by `order_index` (an insertion sort on an array) |
| `store.dfy` | `Store` | `src/lib/supabase.ts`: the tables as fields of class `Db` |
| `course_view.dfy` | `CourseView` | `src/components/courses/CourseDetail.tsx`: class `CourseDetailView` |
| `course_page.dfy` | `CoursePage` | `src/pages/CourseDetail.tsx`: class `CourseDetailPage` |
| `catalog.dfy` | `Catalog` | `src/pages/Courses.tsx`: class `CatalogPage` |
| `dashboard.dfy` | `Dashboard` | `src/pages/Dashboard.tsx`: class `DashboardPage` |

React state becomes the fields of a class. Each backend or HTTP reply becomes an input
of the method that receives it: a `Response` holds data or an error message, and a
`bool` or `Option` fault parameter says what a backend call returns. Clock readings
(`new Date().toISOString()`) are `Timestamp` parameters.

Some behaviours of the code are easy to miss; the model keeps them as written:

- **Re-completing a chapter.** `updateProgress` is an upsert, so re-completing a chapter
  overwrites `completed_at`: the last write wins (`Store.UpsertLastWriteWins`). An
  insert that skipped existing rows would keep the first `completed_at` instead.
- **Badge awarding.** `awardBadge` inserts whenever the number of progress rows of the
  course equals the number of its chapters. Nothing in the code prevents a second
  badge (`Store.AwardTwice`). A course with no chapters also passes the count test
  (`Store.EmptyCourseIsEligible`).
- **Prerequisites.** Neither page checks them before writing a completion. The
  component only refuses to *select* a locked chapter (`CourseView.CourseDetailView.SelectChapter`).
  The second page has no lock at all.
- **An empty chapter array.** The component and the catalog give `NaN` (no rows) or
  `Infinity` (some rows) for an empty `course_chapters` array, not 0. The second page
  guards the division.
- **Rounding at 100.** The percentage rounds half up. So "100 exactly when every chapter
  is completed" holds only below 200 chapters: 199 of 200 already shows 100
  (`Percent.NearlyCompleteShowsFull`).
- **Dashboard figures.** `completedCourses` counts every course that has at least one
  progress row joined with a course. `hoursLearned` is always 0, because the join in
  `getUserProgress` does not select `duration_hours` (`Dashboard.DashboardHoursAlwaysZero`).
  The pending figure is not negative when the courses query returns the table the rows
  were joined with (`Dashboard.DashboardPendingNonNegative`), but it can be negative when
  that query returns no data (`Dashboard.PendingNegativeWithoutCourses`).

## Model

| member | source | states |
|---|---|---|
| Seqs.Filter | src/pages/Courses.tsx:70-85 | the result is no longer than the input and holds exactly the input's elements that satisfy the predicate |
| Seqs.FilterIsSubsequence | src/pages/Courses.tsx:70-85 | a filter keeps what it keeps in the original order (an order-preserving subsequence) |
| Seqs.FilterFilter | src/pages/Courses.tsx:78-85 | filtering by p and then by q equals one filter by the conjunction of p and q |
| Percent.RoundPercent | src/components/courses/CourseDetail.tsx:98 | the result r is 100k/n rounded half up: n(2r-1) <= 200k < n(2r+1) |
| Percent.JsRoundPercent | src/components/courses/CourseDetail.tsx:98 | with n = 0 the result is NaN exactly when k = 0 and Infinity exactly when k > 0; otherwise it is finite and within the rounding bounds |
| Percent.RoundPercentUnique | src/components/courses/CourseDetail.tsx:98 | the rounding bounds determine the percentage uniquely |
| Percent.PercentInRange | src/pages/CourseDetail.tsx:42 | with k <= n the percentage lies in 0..100 |
| Percent.PercentFullWhenComplete | src/pages/CourseDetail.tsx:42 | n of n chapters give 100 |
| Percent.PercentFullIff | src/pages/CourseDetail.tsx:42 | with k <= n the percentage is 100 exactly when 199n <= 200k |
| Percent.PercentFullIffCompleteBelow200 | src/pages/CourseDetail.tsx:42 | below 200 chapters the percentage is 100 exactly when k = n |
| Percent.NearlyCompleteShowsFull | src/pages/CourseDetail.tsx:42 | 199 of 200 chapters already show 100 |
| Percent.PercentMonotone | src/components/courses/CourseDetail.tsx:98 | more completions never lower the percentage |
| Percent.PercentZeroIff | src/components/courses/CourseDetail.tsx:98 | the percentage is 0 exactly when 200k < n |
| ChapterOrder.SortByOrderIndex | src/components/courses/CourseDetail.tsx:204-205 | the array ends sorted ascending by `order_index` and is a permutation of its old contents |
| ChapterOrder.InsertAt | src/components/courses/CourseDetail.tsx:205 | one insertion step extends the sorted prefix by one entry and keeps the multiset |
| ChapterOrder.SortChapters | src/pages/CourseDetail.tsx:54 | the loaded list comes back sorted, of the same length and the same multiset |
| ChapterOrder.SortedPermutationUnique | src/components/courses/CourseDetail.tsx:205 | with distinct `order_index` values, two sorted permutations of the same chapters are equal |
| Store.Upsert | src/lib/supabase.ts:121-131 | the row is present afterwards; the table grows by one exactly when no row had its key; rows of other keys are kept; nothing else appears |
| Store.UpsertKeepsKeysUnique | src/lib/supabase.ts:124-129 | an upsert keeps keys unique, and the written row is the only row with its key |
| Store.UpsertLastWriteWins | src/lib/supabase.ts:124-129 | two upserts with the same key equal the second one alone, so the later `completed_at` wins |
| Store.UpsertRepeatKeepsSize | src/lib/supabase.ts:124-129 | repeating an upsert for a key adds no second row |
| Store.Eligible | src/lib/supabase.ts:147-158 | definition: the learner's progress rows of the course are as many as the course's chapters (see `Store.EligibleIffAllChaptersCompleted`, `Store.EmptyCourseIsEligible`) |
| Store.EligibleIffAllChaptersCompleted | src/lib/supabase.ts:147-158 | when keys are unique and every row names a chapter of the course, the count test holds exactly when the completed chapter ids equal the course's chapter ids |
| Store.EmptyCourseIsEligible | src/lib/supabase.ts:158 | a course without chapters, and without rows for it, passes the count test |
| Store.Db.constructor | src/lib/supabase.ts:102-171 | the three tables start from the given contents, with unique upsert keys |
| Store.Db.GetUserProgress | src/lib/supabase.ts:103-119 | returns exactly the user's rows, narrowed to the course when a non-empty course id is given |
| Store.Db.UpdateProgress | src/lib/supabase.ts:121-131 | on an error the table is unchanged and the error returned; otherwise the table is the upsert of the row, keys stay unique |
| Store.Db.AwardBadge | src/lib/supabase.ts:145-171 | an insert is attempted exactly when both reads returned data and the counts agree; a badge row is appended exactly when that insert succeeds; no other table changes |
| Store.AwardTwice | src/lib/supabase.ts:145-171 | two awards on a passing course append two badge rows |
| CourseView.IsChapterCompleted | src/components/courses/CourseDetail.tsx:88-90 | true exactly when some loaded row names the chapter |
| CourseView.CompletedAfterAppend | src/components/courses/CourseDetail.tsx:88-90 | an added row marks its chapter completed and leaves every other chapter as it was |
| CourseView.CompletedCount | src/components/courses/CourseDetail.tsx:92-94 | definition: the number of loaded rows, not of distinct chapters (see `CourseView.DistinctCompletedAtMostCount`, `CourseView.DuplicateRowsCountTwice`) |
| CourseView.DistinctCompletedAtMostCount | src/components/courses/CourseDetail.tsx:92-94 | the number of distinct completed chapters is at most the completed count |
| CourseView.DuplicateRowsCountTwice | src/components/courses/CourseDetail.tsx:92-94 | two rows for one chapter count as 2 completed chapters while naming one |
| CourseView.ProgressPercentage | src/components/courses/CourseDetail.tsx:96-99 | 0 without a course or without a chapters field; within the rounding bounds for a non-empty chapter list; NaN or Infinity for an empty one |
| CourseView.ProgressPercentageInRange | src/components/courses/CourseDetail.tsx:96-99 | with no more rows than chapters the percentage is finite and in 0..100 |
| CourseView.CanAccess | src/components/courses/CourseDetail.tsx:206-208 | entry 0 is always accessible; entry i > 0 is accessible exactly when some row names the chapter at i-1 |
| CourseView.AccessDependsOnlyOnPredecessor | src/components/courses/CourseDetail.tsx:208 | two row lists that agree on the predecessor give the same access |
| CourseView.CompletionUnlocksOnlySuccessor | src/components/courses/CourseDetail.tsx:207-208 | a new row unlocks the entry after its chapter and no other |
| CourseView.InOrderCompletionKeepsNextOpen | src/components/courses/CourseDetail.tsx:206-208 | when the first k entries are completed, entries 0..k are all accessible |
| CourseView.AccessIndependentOfSortRun | src/components/courses/CourseDetail.tsx:204-208 | with distinct `order_index` values, access is the same for any sorted order of the chapters |
| CourseView.WrittenRowIsReloaded | src/components/courses/CourseDetail.tsx:82-85 | after the upsert of a row, reloading the user's rows of the course shows its chapter completed |
| CourseView.CourseDetailView.constructor | src/components/courses/CourseDetail.tsx:33-36 | no course, no rows, loading, no current chapter |
| CourseView.CourseDetailView.LoadCourse | src/components/courses/CourseDetail.tsx:45-58 | without an id or on an error nothing changes; otherwise the course is stored, and its first chapter as returned (before sorting) becomes current if there is one |
| CourseView.CourseDetailView.LoadProgress | src/components/courses/CourseDetail.tsx:60-68 | without an id or a user nothing changes; otherwise loading ends and the rows become the user's rows of the course unless the read fails |
| CourseView.CourseDetailView.MarkChapterComplete | src/components/courses/CourseDetail.tsx:70-86 | no step without a user or an id; only the write when it fails; otherwise write, award, reload, in that order, with the resulting tables; the rows are reloaded, and then show the chapter completed, unless the reload fails, which keeps the old rows |
| CourseView.CourseDetailView.WriteAwardReload | src/components/courses/CourseDetail.tsx:73-85 | the write; on its error nothing else; otherwise the award on the updated table and the reload, which keeps the old rows when it fails |
| CourseView.CourseDetailView.AwardAndReload | src/components/courses/CourseDetail.tsx:82-85 | the badge table grows by one badge exactly when the award succeeds; loading ends; the rows are reloaded unless the read fails |
| CourseView.CourseDetailView.RenderChapterList | src/components/courses/CourseDetail.tsx:204-208 | the course's chapters are sorted in place (a permutation) and each entry's access is computed on the sorted list; without a chapters field nothing is rendered and nothing changes |
| CourseView.CourseDetailView.SelectChapter | src/components/courses/CourseDetail.tsx:204-223 | on the list as sorted for rendering, an accessible entry becomes current; a locked one leaves the current chapter unchanged |
| CourseView.CourseDetailView.OffersMarkComplete | src/components/courses/CourseDetail.tsx:268 | the action is offered exactly when there is a current chapter and no row names it |
| CoursePage.PagePercent | src/pages/CourseDetail.tsx:39-44 | 0 without chapters; otherwise within the rounding bounds of completed/total |
| CoursePage.PagePercentInRange | src/pages/CourseDetail.tsx:39-44 | with completed <= total the percentage is in 0..100, and 100 when all are completed |
| CoursePage.PagePercentFullIffComplete | src/pages/CourseDetail.tsx:42 | below 200 chapters the percentage is 100 exactly when completed = total |
| CoursePage.CourseDetailPage.constructor | src/pages/CourseDetail.tsx:32-37 | the initial state of the page: no course, no chapters, no selection, no completed ids, loading |
| CoursePage.CourseDetailPage.ProgressPercent | src/pages/CourseDetail.tsx:39-44 | the header's percentage of the state, at most 100 while no more ids than chapters are completed |
| CoursePage.CourseDetailPage.Load | src/pages/CourseDetail.tsx:46-64 | a course error is stored and stops; a chapters error is stored after the course; otherwise the chapters are sorted (a permutation), the first one is selected if any, and the error is cleared; loading ends |
| CoursePage.CourseDetailPage.SelectChapter | src/pages/CourseDetail.tsx:124 | a click selects the listed chapter |
| CoursePage.CourseDetailPage.CompleteEnabled | src/pages/CourseDetail.tsx:142-154 | definition: the button exists only with a selected chapter and is disabled exactly when that chapter's id is already completed (see `CoursePage.CourseDetailPage.HandleComplete`, whose success case leaves it disabled, and `CoursePage.CompleteTwice`) |
| CoursePage.CourseDetailPage.HandleComplete | src/pages/CourseDetail.tsx:66-83 | no request without a selected chapter id; on success the set becomes old ∪ {id}, the button is disabled and the completion notice shows exactly when the reply's percentage is >= 100; on an error the set is unchanged; the set grows by at most one |
| CoursePage.CompleteTwice | src/pages/CourseDetail.tsx:75 | completing the same chapter twice leaves the set as completing it once |
| Catalog.SearchMatch | src/pages/Courses.tsx:70-74 | definition: the lowercased title, description or instructor includes the lowercased term (see `Catalog.SearchIgnoresTermCase`, `Catalog.EmptyTermMatchesAll`) |
| Catalog.NoCriteriaKeepsAll | src/pages/Courses.tsx:65-88 | with an empty term and "all" for module and difficulty the list is the whole catalog |
| Catalog.ListedIsSubsequence | src/pages/Courses.tsx:65-88 | the listed courses are an order-preserving subsequence of the catalog |
| Catalog.SearchStep | src/pages/Courses.tsx:69-75 | the search step (skipped for an empty term) leaves exactly the courses meeting the search criterion |
| Catalog.ModuleStep | src/pages/Courses.tsx:78-80 | the module step (skipped for "all") leaves exactly the courses meeting search and module |
| Catalog.DifficultyStep | src/pages/Courses.tsx:83-85 | the difficulty step (skipped for "all") leaves exactly the courses meeting all three criteria |
| Text.Lower | src/pages/Courses.tsx:71-73 | definition: `toLowerCase` on ASCII letters, character by character (see `Catalog.LowerIdempotent`, `Catalog.SearchIgnoresTermCase`) |
| Text.Contains | src/pages/Courses.tsx:71-73 | definition: `includes`, the term occurs at some position (see `Catalog.EmptyTermMatchesAll`) |
| Catalog.LowerIdempotent | src/pages/Courses.tsx:71-73 | lowercasing twice is lowercasing once |
| Catalog.SearchIgnoresTermCase | src/pages/Courses.tsx:71-73 | a term and its lowercase find the same courses |
| Catalog.EmptyTermMatchesAll | src/pages/Courses.tsx:69 | an empty term would match every course, so skipping it changes nothing |
| Catalog.FindCourse | src/pages/Courses.tsx:92 | None exactly when no course has the id; otherwise the first course with the id |
| Catalog.CourseProgress | src/pages/Courses.tsx:90-100 | 0 for an unknown course or one without a chapters field; otherwise within the rounding bounds of the course's rows over its chapters, or NaN or Infinity when it has none |
| Catalog.CourseProgressIgnoresOtherCourses | src/pages/Courses.tsx:91 | rows of other courses do not change a course's percentage |
| Catalog.CourseProgressFullWhenAllRows | src/pages/Courses.tsx:96-99 | as many rows as chapters show 100 |
| Catalog.CatalogPage.constructor | src/pages/Courses.tsx:22-28 | the module filter starts from the `module` query parameter, "all" when absent or empty |
| Catalog.CatalogPage.SyncModule | src/pages/Courses.tsx:41-46 | a present query parameter replaces the module filter; an absent one keeps it |
| Catalog.CatalogPage.LoadCourses | src/pages/Courses.tsx:48-54 | the courses are replaced on success and kept on failure; loading ends |
| Catalog.CatalogPage.LoadUserProgress | src/pages/Courses.tsx:56-63 | for a signed-in user whose read succeeds, the rows become exactly that user's rows; otherwise they are kept |
| Catalog.CatalogPage.FilterCourses | src/pages/Courses.tsx:65-88 | the result is the catalog filtered by the active criteria, in order; a course is listed exactly when it meets every active criterion |
| Catalog.CatalogPage.GetCourseProgress | src/pages/Courses.tsx:90-100 | over the page's loaded courses and rows: 0 when no course has the id; otherwise, for the first course with the id, 0 without a chapters field, NaN or Infinity for an empty one, and the rounding bounds of the course's rows over its chapters |
| Dashboard.JoinRow | src/lib/supabase.ts:106-110 | the joined record is present exactly when a course has the row's id, and it never carries `duration_hours` |
| Dashboard.JoinRows | src/lib/supabase.ts:106-110 | definition: the join applied to every row, in order (see `Dashboard.JoinedRowsGiveNoHours`, `Dashboard.DashboardHoursAlwaysZero`, `Dashboard.DashboardPendingNonNegative`) |
| Dashboard.JoinedCourseIds | src/pages/Dashboard.tsx:49-58 | an id is in the set exactly when some row with a joined course has it |
| Dashboard.Recent | src/pages/Dashboard.tsx:69 | the first min(3, n) courses in order, or none without data |
| Dashboard.RowHours | src/pages/Dashboard.tsx:56 | definition: `duration_hours || 0` of a row with a joined course (see `Dashboard.JoinedRowsGiveNoHours`) |
| Dashboard.TotalHours | src/pages/Dashboard.tsx:53-57 | definition: one `duration_hours` term (0 when missing) per row with a joined course (see `Dashboard.TotalHoursConcat`, `Dashboard.RowsOfOneCourse`, `Dashboard.JoinedRowsGiveNoHours`) |
| Dashboard.CountCourse | src/pages/Dashboard.tsx:102-104 | definition: the entry of a known module is incremented, any other module changes nothing (see `Dashboard.ModuleCountsCountKnown`) |
| Dashboard.CountModules | src/pages/Dashboard.tsx:100-107 | definition: one increment per course of a known module (see `Dashboard.ModuleCountsCountKnown`, `Dashboard.CountByModule`) |
| Dashboard.Pending | src/pages/Dashboard.tsx:174 | definition: total courses minus courses with progress (see `Dashboard.PendingNonNegative`, `Dashboard.DashboardPendingNonNegative`, `Dashboard.PendingNegativeWithoutCourses`) |
| Dashboard.DashboardStats | src/pages/Dashboard.tsx:49-67 | definition: the four stat-card figures of the three query results (see `Dashboard.DashboardHoursAlwaysZero`, `Dashboard.DashboardPendingNonNegative`) |
| Dashboard.ModuleCountsCountKnown | src/pages/Dashboard.tsx:100-107 | the four counts sum to the number of courses in the four known modules, at most the number of courses |
| Dashboard.TotalHoursConcat | src/pages/Dashboard.tsx:50-57 | the hours are additive over rows |
| Dashboard.RowsOfOneCourse | src/pages/Dashboard.tsx:53-57 | k rows of one course count the course once but add its hours k times |
| Dashboard.JoinedRowsGiveNoHours | src/pages/Dashboard.tsx:56 | over rows joined by `getUserProgress` the hours figure is 0 |
| Dashboard.PendingNonNegative | src/pages/Dashboard.tsx:174 | when every joined row names a listed course, the pending figure is not negative |
| Dashboard.DashboardHoursAlwaysZero | src/pages/Dashboard.tsx:53-67 | when the progress rows are those joined by `getUserProgress`, the stored hours figure is 0 |
| Dashboard.DashboardPendingNonNegative | src/pages/Dashboard.tsx:174 | when the courses query returns the table the rows were joined with, the stored statistics give a pending figure that is not negative |
| Dashboard.PendingNegativeWithoutCourses | src/pages/Dashboard.tsx:174 | without course data, one joined row gives -1 pending courses |
| Dashboard.CollectProgress | src/pages/Dashboard.tsx:49-59 | the loop leaves the set of course ids with a joined course and the sum of their hours |
| Dashboard.CountByModule | src/pages/Dashboard.tsx:100-107 | the loop leaves the per-module counts, which sum to at most the number of courses |
| Dashboard.DashboardPage.constructor | src/pages/Dashboard.tsx:20-29 | zero statistics, no recent courses, zero counts, loading |
| Dashboard.DashboardPage.LoadDashboardData | src/pages/Dashboard.tsx:37-121 | without a user nothing changes; otherwise the statistics are `DashboardStats` of the inputs (0 for absent data), the recent courses and the module counts are those of the inputs, and loading ends |

## Left out

- Rendering, styling, animations, icons, toasts, `alert` and the charts: presentation only.
  The second page's alerts appear only as the `Notice` that `HandleComplete` returns.
- The per-module chart values (`src/pages/Dashboard.tsx:79-97`): they add unrounded
  floating-point percentages before rounding.
- Floating point in the percentages: `(k / n) * 100` is modelled as the exact rational.
  In binary floating point some exact halves come out just below .5 (29/200 * 100 is one),
  and those round down in the source but up in the model.
- The network, authentication and routing. The Supabase client, `src/lib/api.ts` and the
  auth context are not part of this model. Their replies are method inputs. That includes
  `getCourse`, `getCourses`, the HTTP replies of the second page, and the
  `progressPercent` that the server computes.
- Concurrency and effect ordering. The loads in an effect, and the reload that
  `markChapterComplete` starts without awaiting it, are modelled as consecutive steps.
  Races between completion or badge requests are not modelled.
- Database constraints. The upsert conflict key of `user_progress` is not visible in the
  code; the model assumes (user_id, course_id, chapter_id). No uniqueness constraint on
  `user_badges` is assumed, so exactly-once issuance is not modelled.
- The joined columns `courses (title, module)` and `course_chapters (title)` of
  `getUserProgress` appear only in the dashboard's `ProgressView`. Everywhere else a row
  is its four table columns.
- Unicode case mapping: `Text.Lower` lowercases ASCII letters only.
- Store.Db.GetUserProgress: the query has no `.order()`, so the backend promises no row order;
  returning the rows in table order (`IsSubsequence`) is a choice of the model, and no consumer relies on it.
- Timestamps are opaque parameters; `completed_at` and `earned_at` are never compared.
- Catalog.SearchMatch: a course whose description or instructor is null can make the source
  throw (when the search reaches that field); the model's course record always has strings there.
- CoursePage.CourseDetailPage.Load: the HTTP helper returns `null` for an empty reply body,
  and the page then stores a null course; the model's `Response<Course>` cannot hold that reply.
- ChapterOrder.SortByOrderIndex: the contract states sorted and permutation, not stability.
  It is stable, as `Array.prototype.sort` is, but no lemma relies on it.
- CoursePage.CourseDetailPage.ProgressPercent: `completedIds` is not reset when the route's
  course id changes, so more ids than chapters can be held. The bound 0..100 is then not
  stated.
- CourseView.CourseDetailView.RenderChapterList: a missing `course_chapters` field throws
  in the source; the model returns None and leaves the state unchanged.
