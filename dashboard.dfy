/**
 * The statistics of `pages/Dashboard.tsx`: the set of course ids with joined progress
 * rows, the hours summed over those rows, the list lengths, the three recent courses,
 * the per-module course counts, and the pending figure of the welcome banner.
 */
module Dashboard {
  import opened Wrappers
  import opened Entities
  import opened Seqs
  import Catalog

  /** The `courses (title, module)` record a progress row is joined with. */
  datatype JoinedCourse = JoinedCourse(title: string, courseModule: string, durationHours: Option<int>)

  /** A progress row as `getUserProgress` returns it: its course id and the joined course, if any. */
  datatype ProgressView = ProgressView(courseId: Id, course: Option<JoinedCourse>)

  /** The four figures of the stat cards. */
  datatype Stats = Stats(totalCourses: nat, completedCourses: nat, badges: nat, hoursLearned: int)

  /** The course counts of the module distribution. */
  datatype ModuleCount = ModuleCount(fullstack: nat, apis: nat, cloud: nat, data: nat)

  /**
   * The join `getUserProgress` performs for a row: the course with the row's id,
   * projected to its title and module. `duration_hours` is not among the selected
   * columns, so the joined record never carries it.
   */
  function JoinRow(row: ProgressRow, courseTable: seq<Course>): (v: ProgressView)
    ensures v.courseId == row.courseId
    ensures v.course.Some? <==> exists c :: c in courseTable && c.id == row.courseId
    ensures v.course.Some? ==> v.course.value.durationHours.None?
  {
    var found := Catalog.FindCourse(courseTable, row.courseId);
    ProgressView(row.courseId,
      if found.Some? then Some(JoinedCourse(found.value.title, found.value.courseModule, None)) else None)
  }

  function JoinRows(rows: seq<ProgressRow>, courseTable: seq<Course>): (r: seq<ProgressView>)
    ensures |r| == |rows|
    ensures forall i :: 0 <= i < |rows| ==> r[i] == JoinRow(rows[i], courseTable)
  {
    seq(|rows|, i requires 0 <= i < |rows| => JoinRow(rows[i], courseTable))
  }

  /** The course ids the loop over progress rows adds to `completedCourseIds`. */
  function JoinedCourseIds(ps: seq<ProgressView>): (r: set<Id>)
    ensures forall id :: id in r <==> exists p :: p in ps && p.course.Some? && p.courseId == id
  {
    if ps == [] then {}
    else
      var last := ps[|ps| - 1];
      var head := JoinedCourseIds(ps[..|ps| - 1]);
      assert forall p :: p in ps <==> p in ps[..|ps| - 1] || p == last;
      head + (if last.course.Some? then {last.courseId} else {})
  }

  /** `p.courses.duration_hours || 0`. */
  function RowHours(p: ProgressView): int
  {
    if p.course.Some? && p.course.value.durationHours.Some? then p.course.value.durationHours.value else 0
  }

  /** The hours the loop over progress rows adds up: one term per row. */
  function TotalHours(ps: seq<ProgressView>): int
  {
    if ps == [] then 0 else TotalHours(ps[..|ps| - 1]) + RowHours(ps[|ps| - 1])
  }

  /** The modules `moduleCount` has an entry for. */
  predicate KnownModule(m: string)
  {
    m == "fullstack" || m == "apis" || m == "cloud" || m == "data"
  }

  function InKnownModule(c: Course): bool
  {
    KnownModule(c.courseModule)
  }

  /** `moduleCount[course.module]++` when the module has an entry. */
  function CountCourse(mc: ModuleCount, c: Course): ModuleCount
  {
    match c.courseModule
    case "fullstack" => mc.(fullstack := mc.fullstack + 1)
    case "apis" => mc.(apis := mc.apis + 1)
    case "cloud" => mc.(cloud := mc.cloud + 1)
    case "data" => mc.(data := mc.data + 1)
    case _ => mc
  }

  function CountModules(cs: seq<Course>): ModuleCount
  {
    if cs == [] then ModuleCount(0, 0, 0, 0) else CountCourse(CountModules(cs[..|cs| - 1]), cs[|cs| - 1])
  }

  function CountSum(mc: ModuleCount): nat
  {
    mc.fullstack + mc.apis + mc.cloud + mc.data
  }

  function CourseIdOf(c: Course): Id { c.id }

  /** The list length, 0 when the query returned no data. */
  function LengthOrZero<T>(s: Option<seq<T>>): nat
  {
    if s.Some? then |s.value| else 0
  }

  /** `courses?.slice(0, 3) || []`. */
  function Recent(courses: Option<seq<Course>>): (r: seq<Course>)
    ensures courses.None? ==> r == []
    ensures courses.Some? ==> |r| == (if |courses.value| < 3 then |courses.value| else 3)
    ensures courses.Some? ==> r == courses.value[..|r|]
  {
    if courses.None? then []
    else if |courses.value| < 3 then courses.value
    else courses.value[..3]
  }

  /** 'Tienes N cursos pendientes': total courses minus courses with progress. */
  function Pending(s: Stats): int
  {
    s.totalCourses - s.completedCourses
  }

  /** The four module counts together count exactly the courses of the known modules. */
  lemma {:induction false} ModuleCountsCountKnown(cs: seq<Course>)
    ensures CountSum(CountModules(cs)) == |Filter(cs, InKnownModule)|
    ensures CountSum(CountModules(cs)) <= |cs|
  {
    if cs != [] {
      ModuleCountsCountKnown(cs[..|cs| - 1]);
    }
  }

  /** Progress rows contribute hours one by one, so the sum over a concatenation adds up. */
  lemma {:induction false} TotalHoursConcat(a: seq<ProgressView>, b: seq<ProgressView>)
    ensures TotalHours(a + b) == TotalHours(a) + TotalHours(b)
  {
    if b == [] {
      assert a + b == a;
    } else {
      assert (a + b)[..|a + b| - 1] == a + b[..|b| - 1];
      TotalHoursConcat(a, b[..|b| - 1]);
    }
  }

  /**
   * k rows of one course count that course once among completed courses but add
   * its hours k times.
   */
  lemma RowsOfOneCourse(ps: seq<ProgressView>, id: Id, jc: JoinedCourse)
    requires ps != []
    requires forall i :: 0 <= i < |ps| ==> ps[i] == ProgressView(id, Some(jc))
    ensures JoinedCourseIds(ps) == {id}
    ensures TotalHours(ps) == |ps| * RowHours(ProgressView(id, Some(jc)))
  {
    assert ps[0] in ps;
    RowsOfOneCourseHours(ps, ProgressView(id, Some(jc)));
  }

  lemma {:induction false} RowsOfOneCourseHours(ps: seq<ProgressView>, p: ProgressView)
    requires forall i :: 0 <= i < |ps| ==> ps[i] == p
    ensures TotalHours(ps) == |ps| * RowHours(p)
  {
    if ps != [] {
      var n := |ps| - 1;
      RowsOfOneCourseHours(ps[..n], p);
      assert TotalHours(ps) == n * RowHours(p) + RowHours(p);
      assert n * RowHours(p) + RowHours(p) == (n + 1) * RowHours(p);
    }
  }

  /** Rows joined by `getUserProgress` carry no `duration_hours`, so the hours figure is 0. */
  lemma {:induction false} JoinedRowsGiveNoHours(rows: seq<ProgressRow>, courseTable: seq<Course>)
    ensures TotalHours(JoinRows(rows, courseTable)) == 0
  {
    var ps := JoinRows(rows, courseTable);
    if rows != [] {
      var n := |rows| - 1;
      assert ps[..n] == JoinRows(rows[..n], courseTable);
      JoinedRowsGiveNoHours(rows[..n], courseTable);
      assert RowHours(ps[n]) == 0;
    }
  }

  /** Every course id with joined progress names a listed course: then nothing is pending below zero. */
  lemma PendingNonNegative(courses: seq<Course>, ps: seq<ProgressView>, badges: nat)
    requires forall p :: p in ps && p.course.Some? ==> exists c :: c in courses && c.id == p.courseId
    ensures Pending(Stats(|courses|, |JoinedCourseIds(ps)|, badges, TotalHours(ps))) >= 0
  {
    var ids := Image(courses, CourseIdOf);
    forall id | id in JoinedCourseIds(ps) ensures id in ids {
      var p :| p in ps && p.course.Some? && p.courseId == id;
      var c :| c in courses && c.id == p.courseId;
      ImageMember(courses, CourseIdOf, id);
    }
    ImageCardAtMost(courses, CourseIdOf);
    SubsetCard(JoinedCourseIds(ps), ids);
  }

  lemma SubsetCard(a: set<Id>, b: set<Id>)
    requires a <= b
    ensures |a| <= |b|
  {
    assert b == a + (b - a);
  }

  /** A failed courses query with one joined progress row shows -1 pending courses. */
  lemma PendingNegativeWithoutCourses(id: Id, jc: JoinedCourse)
    ensures Pending(Stats(LengthOrZero<Course>(None), |JoinedCourseIds([ProgressView(id, Some(jc))])|, 0, 0)) == -1
  {
    assert JoinedCourseIds([ProgressView(id, Some(jc))]) == {id} by {
      RowsOfOneCourse([ProgressView(id, Some(jc))], id, jc);
    }
  }

  /**
   * The `progress.forEach` loop: rows with a joined course add their course id to the
   * set and their `duration_hours` (0 when missing) to the total.
   */
  method CollectProgress(ps: seq<ProgressView>) returns (completedCourseIds: set<Id>, totalHours: int)
    ensures completedCourseIds == JoinedCourseIds(ps)
    ensures forall id :: id in completedCourseIds <==> exists p :: p in ps && p.course.Some? && p.courseId == id
    ensures totalHours == TotalHours(ps)
  {
    completedCourseIds, totalHours := {}, 0;
    var i := 0;
    while i < |ps|
      invariant 0 <= i <= |ps|
      invariant completedCourseIds == JoinedCourseIds(ps[..i])
      invariant totalHours == TotalHours(ps[..i])
    {
      assert ps[..i + 1][..i] == ps[..i];
      if ps[i].course.Some? {
        completedCourseIds := completedCourseIds + {ps[i].courseId};
        totalHours := totalHours + RowHours(ps[i]);
      }
      i := i + 1;
    }
    assert ps[..|ps|] == ps;
  }

  /** The `courses.forEach` loop that increments the entry of each known module. */
  method CountByModule(cs: seq<Course>) returns (moduleCount: ModuleCount)
    ensures moduleCount == CountModules(cs)
    ensures CountSum(moduleCount) == |Filter(cs, InKnownModule)| <= |cs|
  {
    moduleCount := ModuleCount(0, 0, 0, 0);
    var j := 0;
    while j < |cs|
      invariant 0 <= j <= |cs|
      invariant moduleCount == CountModules(cs[..j])
    {
      assert cs[..j + 1][..j] == cs[..j];
      moduleCount := CountCourse(moduleCount, cs[j]);
      j := j + 1;
    }
    assert cs[..|cs|] == cs;
    ModuleCountsCountKnown(cs);
  }

  /**
   * The four stat-card figures the load computes from the three query results (None
   * where a query returned no data): courses, courses with joined progress, badges,
   * and the hours of the progress rows.
   */
  function DashboardStats(courses: Option<seq<Course>>, progress: Option<seq<ProgressView>>,
                          badges: Option<seq<BadgeRow>>): Stats
  {
    Stats(LengthOrZero(courses),
          if progress.Some? then |JoinedCourseIds(progress.value)| else 0,
          LengthOrZero(badges),
          if progress.Some? then TotalHours(progress.value) else 0)
  }

  /**
   * When the progress rows are those `getUserProgress` joins with the course table,
   * the dashboard's hours figure is 0.
   */
  lemma DashboardHoursAlwaysZero(courses: Option<seq<Course>>, rows: seq<ProgressRow>,
                                 courseTable: seq<Course>, badges: Option<seq<BadgeRow>>)
    ensures DashboardStats(courses, Some(JoinRows(rows, courseTable)), badges).hoursLearned == 0
  {
    JoinedRowsGiveNoHours(rows, courseTable);
  }

  /**
   * When the courses query returns the very table the progress rows were joined with,
   * the banner's pending figure is not negative.
   */
  lemma DashboardPendingNonNegative(courseTable: seq<Course>, rows: seq<ProgressRow>,
                                    badges: Option<seq<BadgeRow>>)
    ensures Pending(DashboardStats(Some(courseTable), Some(JoinRows(rows, courseTable)), badges)) >= 0
  {
    var ps := JoinRows(rows, courseTable);
    forall p | p in ps && p.course.Some? ensures exists c :: c in courseTable && c.id == p.courseId {
      var i :| 0 <= i < |ps| && ps[i] == p;
      assert p == JoinRow(rows[i], courseTable);
    }
    PendingNonNegative(courseTable, ps, LengthOrZero(badges));
  }

  /** The dashboard's state. */
  class DashboardPage {
    var stats: Stats
    var recentCourses: seq<Course>
    var moduleData: ModuleCount
    var loading: bool

    constructor ()
      ensures stats == Stats(0, 0, 0, 0) && recentCourses == [] && moduleData == ModuleCount(0, 0, 0, 0) && loading
    {
      stats := Stats(0, 0, 0, 0);
      recentCourses := [];
      moduleData := ModuleCount(0, 0, 0, 0);
      loading := true;
    }

    /**
     * `loadDashboardData`, given the three query results (None where the query
     * returned no data): walks the progress rows, then the courses, and stores the
     * figures. Without a signed-in user nothing is loaded.
     */
    method LoadDashboardData(user: Option<Id>, courses: Option<seq<Course>>,
                             progress: Option<seq<ProgressView>>, badges: Option<seq<BadgeRow>>)
      modifies this
      ensures user.None? ==> stats == old(stats) && recentCourses == old(recentCourses) &&
                             moduleData == old(moduleData) && loading == old(loading)
      ensures user.Some? ==> !loading
      ensures user.Some? ==> stats == DashboardStats(courses, progress, badges)
      ensures user.Some? ==> recentCourses == Recent(courses)
      ensures user.Some? ==> moduleData == if courses.Some? then CountModules(courses.value) else ModuleCount(0, 0, 0, 0)
      ensures user.Some? ==> CountSum(moduleData) <= stats.totalCourses
    {
      if user.None? {
        return;
      }
      var completedCourseIds: set<Id> := {};
      var totalHours := 0;
      if progress.Some? {
        completedCourseIds, totalHours := CollectProgress(progress.value);
      }
      stats := Stats(LengthOrZero(courses), |completedCourseIds|, LengthOrZero(badges), totalHours);
      recentCourses := Recent(courses);
      var moduleCount := ModuleCount(0, 0, 0, 0);
      if courses.Some? {
        moduleCount := CountByModule(courses.value);
        ModuleCountsCountKnown(courses.value);
      }
      moduleData := moduleCount;
      loading := false;
    }

  }
}
