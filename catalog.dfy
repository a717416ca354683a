/**
 * The course catalog of `pages/Courses.tsx`: the three conditional filters (search,
 * module, difficulty) applied to the loaded courses, and the per-course percentage
 * computed from the learner's progress rows.
 */
module Catalog {
  import opened Wrappers
  import opened Entities
  import opened Seqs
  import opened Text
  import opened Percent
  import Store

  /** The module and difficulty value that switches a filter off. */
  const AllOption: string := "all"

  /** The lowercased title, description or instructor includes the lowercased term. */
  predicate SearchMatch(term: string, c: Course)
  {
    || Contains(Lower(c.title), Lower(term))
    || Contains(Lower(c.description), Lower(term))
    || Contains(Lower(c.instructor), Lower(term))
  }

  function SearchFilter(term: string): Course -> bool
  {
    (c: Course) => SearchMatch(term, c)
  }

  function ModuleFilter(m: string): Course -> bool
  {
    (c: Course) => c.courseModule == m
  }

  function DifficultyFilter(d: string): Course -> bool
  {
    (c: Course) => c.difficulty == d
  }

  /**
   * What a course must meet to be listed: each criterion applies only when it is
   * active (a non-empty term, a module or difficulty other than "all").
   */
  function Criteria(term: string, m: string, d: string): Course -> bool
  {
    (c: Course) =>
      && (term == "" || SearchMatch(term, c))
      && (m == AllOption || c.courseModule == m)
      && (d == AllOption || c.difficulty == d)
  }

  /** With no active criterion the catalog lists every course, in order. */
  lemma NoCriteriaKeepsAll(courses: seq<Course>)
    ensures Filter(courses, Criteria("", AllOption, AllOption)) == courses
  {
    FilterAll(courses, Criteria("", AllOption, AllOption));
  }

  /** The listed courses keep the catalog's order. */
  lemma ListedIsSubsequence(courses: seq<Course>, term: string, m: string, d: string)
    ensures IsSubsequence(Filter(courses, Criteria(term, m, d)), courses)
  {
    FilterIsSubsequence(courses, Criteria(term, m, d));
  }

  /** The search step leaves exactly the courses meeting the search criterion. */
  lemma SearchStep(courses: seq<Course>, term: string)
    ensures (if term != "" then Filter(courses, SearchFilter(term)) else courses)
            == Filter(courses, Criteria(term, AllOption, AllOption))
  {
    if term != "" {
      FilterExt(courses, SearchFilter(term), Criteria(term, AllOption, AllOption));
    } else {
      FilterAll(courses, Criteria(term, AllOption, AllOption));
    }
  }

  /** The module step narrows the search result to the courses meeting both criteria. */
  lemma ModuleStep(courses: seq<Course>, term: string, m: string)
    ensures (if m != AllOption
             then Filter(Filter(courses, Criteria(term, AllOption, AllOption)), ModuleFilter(m))
             else Filter(courses, Criteria(term, AllOption, AllOption)))
            == Filter(courses, Criteria(term, m, AllOption))
  {
    if m != AllOption {
      FilterFilter(courses, Criteria(term, AllOption, AllOption), ModuleFilter(m), Criteria(term, m, AllOption));
    }
  }

  /** The difficulty step narrows the result to the courses meeting all three criteria. */
  lemma DifficultyStep(courses: seq<Course>, term: string, m: string, d: string)
    ensures (if d != AllOption
             then Filter(Filter(courses, Criteria(term, m, AllOption)), DifficultyFilter(d))
             else Filter(courses, Criteria(term, m, AllOption)))
            == Filter(courses, Criteria(term, m, d))
  {
    if d != AllOption {
      FilterFilter(courses, Criteria(term, m, AllOption), DifficultyFilter(d), Criteria(term, m, d));
    }
  }

  /** Lowercasing is idempotent on ASCII letters. */
  lemma {:induction false} LowerIdempotent(s: string)
    ensures Lower(Lower(s)) == Lower(s)
  {
    forall i | 0 <= i < |s|
      ensures Lower(Lower(s))[i] == Lower(s)[i]
    {
      var c := s[i];
      if 'A' <= c <= 'Z' {
        assert 'a' <= LowerChar(c) <= 'z';
      }
    }
  }

  /** The search is case-insensitive: a lowercased term finds the same courses. */
  lemma SearchIgnoresTermCase(term: string, c: Course)
    ensures SearchMatch(Lower(term), c) == SearchMatch(term, c)
  {
    LowerIdempotent(term);
  }

  /** An empty term would match every course, so skipping the search step for it changes nothing. */
  lemma EmptyTermMatchesAll(c: Course)
    ensures SearchMatch("", c)
  {
    ContainsEmpty(Lower(c.title));
  }

  /** `courses.find(c => c.id === courseId)`: the first course with that id. */
  function FindCourse(courses: seq<Course>, courseId: Id): (r: Option<Course>)
    ensures r.None? <==> forall c :: c in courses ==> c.id != courseId
    ensures r.Some? ==> r.value in courses && r.value.id == courseId
    ensures r.Some? ==> exists i :: 0 <= i < |courses| && courses[i] == r.value &&
                          forall j :: 0 <= j < i ==> courses[j].id != courseId
  {
    if courses == [] then None
    else if courses[0].id == courseId then
      Some(courses[0])
    else
      var r := FindCourse(courses[1..], courseId);
      assert forall c :: c in courses ==> c == courses[0] || c in courses[1..];
      if r.Some? then
        assert exists i :: 0 <= i < |courses| && courses[i] == r.value &&
                 forall j :: 0 <= j < i ==> courses[j].id != courseId by {
          var i :| 0 <= i < |courses[1..]| && courses[1..][i] == r.value &&
                   forall j :: 0 <= j < i ==> courses[1..][j].id != courseId;
          assert courses[i + 1] == r.value;
          forall j | 0 <= j < i + 1 ensures courses[j].id != courseId {
            if j > 0 {
              assert courses[j] == courses[1..][j - 1];
            }
          }
        }
        r
      else
        r
  }

  /**
   * The value a course card shows for a found course with k progress rows: 0 without a
   * `course_chapters` field, NaN or Infinity for an empty one, and otherwise
   * `Math.round(k / n * 100)` for its n chapters.
   */
  predicate CardValue(chapters: Option<seq<Chapter>>, k: nat, r: JsNumber)
  {
    && (chapters.None? ==> r == Finite(0))
    && (chapters.Some? && |chapters.value| == 0 ==> (r == NaN <==> k == 0) && (r == Infinity <==> k > 0))
    && (chapters.Some? && |chapters.value| > 0 ==>
          r.Finite? && |chapters.value| * (2 * r.value - 1) <= 200 * k < |chapters.value| * (2 * r.value + 1))
  }

  /** Entry i is the first course of the list with the id, the one `find` returns. */
  predicate FirstWithId(courses: seq<Course>, courseId: Id, i: int)
  {
    0 <= i < |courses| && courses[i].id == courseId && forall j :: 0 <= j < i ==> courses[j].id != courseId
  }

  /**
   * `getCourseProgress`: 0 for an unknown course; otherwise the card value of the
   * course, where k counts the progress rows of that course (all chapters, any
   * learner the list was loaded for).
   */
  function CourseProgress(courses: seq<Course>, userProgress: seq<ProgressRow>, courseId: Id): (r: JsNumber)
    ensures FindCourse(courses, courseId).None? ==> r == Finite(0)
    ensures FindCourse(courses, courseId).Some? ==>
      CardValue(FindCourse(courses, courseId).value.chapters, |Filter(userProgress, Store.ByCourse(courseId))|, r)
  {
    var courseRows := Filter(userProgress, Store.ByCourse(courseId));
    var course := FindCourse(courses, courseId);
    if course.None? || course.value.chapters.None? then Finite(0)
    else JsRoundPercent(|courseRows|, |course.value.chapters.value|)
  }

  /** Only one entry can be the first with an id. */
  lemma FirstWithIdUnique(courses: seq<Course>, courseId: Id, i: int, j: int)
    requires FirstWithId(courses, courseId, i) && FirstWithId(courses, courseId, j)
    ensures i == j
  {
  }

  /** Rows of other courses do not change a course's percentage. */
  lemma CourseProgressIgnoresOtherCourses(courses: seq<Course>, userProgress: seq<ProgressRow>, row: ProgressRow, courseId: Id)
    requires row.courseId != courseId
    ensures CourseProgress(courses, userProgress + [row], courseId) == CourseProgress(courses, userProgress, courseId)
  {
    FilterConcat(userProgress, [row], Store.ByCourse(courseId));
    assert Filter([row], Store.ByCourse(courseId)) == [];
  }

  /** A course whose chapters all have a row of progress is shown at 100 percent. */
  lemma CourseProgressFullWhenAllRows(courses: seq<Course>, userProgress: seq<ProgressRow>, courseId: Id)
    requires FindCourse(courses, courseId).Some?
    requires FindCourse(courses, courseId).value.chapters.Some?
    requires |FindCourse(courses, courseId).value.chapters.value| > 0
    requires |Filter(userProgress, Store.ByCourse(courseId))| == |FindCourse(courses, courseId).value.chapters.value|
    ensures CourseProgress(courses, userProgress, courseId) == Finite(100)
  {
    PercentFullWhenComplete(|FindCourse(courses, courseId).value.chapters.value|);
  }

  /** The catalog page's state. */
  class CatalogPage {
    var courses: seq<Course>
    var filteredCourses: seq<Course>
    var userProgress: seq<ProgressRow>
    var loading: bool
    var searchTerm: string
    var selectedModule: string
    var selectedDifficulty: string

    /** The initial module comes from the `module` query parameter, "all" when absent or empty. */
    constructor (moduleParam: Option<string>)
      ensures courses == [] && filteredCourses == [] && userProgress == [] && loading
      ensures searchTerm == "" && selectedDifficulty == AllOption
      ensures selectedModule == if Present(moduleParam) then moduleParam.value else AllOption
    {
      courses, filteredCourses, userProgress := [], [], [];
      loading := true;
      searchTerm := "";
      selectedModule := if Present(moduleParam) then moduleParam.value else AllOption;
      selectedDifficulty := AllOption;
    }

    /** A later `module` query parameter replaces the selection when present and different. */
    method SyncModule(moduleParam: Option<string>)
      modifies this`selectedModule
      ensures selectedModule == if Present(moduleParam) then moduleParam.value else old(selectedModule)
    {
      if Present(moduleParam) && moduleParam.value != selectedModule {
        selectedModule := moduleParam.value;
      }
    }

    /** `loadCourses`: keeps the old list when the query fails; always stops loading. */
    method LoadCourses(reply: Response<seq<Course>>)
      modifies this`courses, this`loading
      ensures courses == if reply.Ok? then reply.value else old(courses)
      ensures !loading
    {
      if reply.Ok? {
        courses := reply.value;
      }
      loading := false;
    }

    /** `loadUserProgress`: only for a signed-in user; keeps the old rows when the query fails. */
    method LoadUserProgress(db: Store.Db, user: Option<Id>, readFails: bool)
      modifies this`userProgress
      ensures user.None? || readFails ==> userProgress == old(userProgress)
      ensures user.Some? && !readFails ==>
        userProgress == Filter(db.userProgress, Store.ByUserAndCourse(user.value, None))
      ensures user.Some? && !readFails ==> forall r :: r in userProgress <==> r in db.userProgress && r.userId == user.value
    {
      if user.None? {
        return;
      }
      var data := db.GetUserProgress(user.value, None);
      if !readFails {
        userProgress := data;
      }
    }

    /**
     * `filterCourses`: starts from all courses and narrows them by the search term,
     * then the module, then the difficulty, each step only when its criterion is active.
     */
    method FilterCourses()
      modifies this`filteredCourses
      ensures filteredCourses == Filter(courses, Criteria(searchTerm, selectedModule, selectedDifficulty))
      ensures forall c :: c in filteredCourses <==>
        && c in courses
        && (searchTerm != "" ==> SearchMatch(searchTerm, c))
        && (selectedModule != AllOption ==> c.courseModule == selectedModule)
        && (selectedDifficulty != AllOption ==> c.difficulty == selectedDifficulty)
      ensures IsSubsequence(filteredCourses, courses)
    {
      var filtered := courses;
      SearchStep(courses, searchTerm);
      if searchTerm != "" {
        filtered := Filter(filtered, SearchFilter(searchTerm));
      }
      ModuleStep(courses, searchTerm, selectedModule);
      if selectedModule != AllOption {
        filtered := Filter(filtered, ModuleFilter(selectedModule));
      }
      DifficultyStep(courses, searchTerm, selectedModule, selectedDifficulty);
      if selectedDifficulty != AllOption {
        filtered := Filter(filtered, DifficultyFilter(selectedDifficulty));
      }
      filteredCourses := filtered;
      ListedIsSubsequence(courses, searchTerm, selectedModule, selectedDifficulty);
    }

    /**
     * The percentage on the card of `courseId`: 0 when no loaded course has the id,
     * otherwise the card value of the first loaded course with it, over the loaded
     * progress rows of that course.
     */
    function GetCourseProgress(courseId: Id): (r: JsNumber)
      reads this
      ensures (forall c :: c in courses ==> c.id != courseId) ==> r == Finite(0)
      ensures forall i :: FirstWithId(courses, courseId, i) ==>
        CardValue(courses[i].chapters, |Filter(userProgress, Store.ByCourse(courseId))|, r)
    {
      var found := FindCourse(courses, courseId);
      assert forall i :: FirstWithId(courses, courseId, i) ==> found == Some(courses[i]) by {
        forall i | FirstWithId(courses, courseId, i) ensures found == Some(courses[i]) {
          var i0 :| 0 <= i0 < |courses| && courses[i0] == found.value &&
                    forall j :: 0 <= j < i0 ==> courses[j].id != courseId;
          FirstWithIdUnique(courses, courseId, i, i0);
        }
      }
      CourseProgress(courses, userProgress, courseId)
    }
  }
}
