/**
 * The course page of `pages/CourseDetail.tsx`: the memoised percentage with its
 * zero-chapter guard, loading and sorting the chapters, and the completion request
 * that adds the selected chapter to the set of completed ids. This page has no
 * prerequisite rule: any listed chapter can be selected.
 */
module CoursePage {
  import opened Wrappers
  import opened Entities
  import opened Percent
  import opened ChapterOrder

  /** `progressPercent`: 0 without chapters, otherwise `Math.round(completed / total * 100)`. */
  function PagePercent(completed: nat, total: nat): (r: nat)
    ensures total == 0 ==> r == 0
    ensures total > 0 ==> total * (2 * r - 1) <= 200 * completed < total * (2 * r + 1)
  {
    if total == 0 then 0 else RoundPercent(completed, total)
  }

  /** With completed <= total the percentage lies in 0..100 and is 100 when all are completed. */
  lemma PagePercentInRange(completed: nat, total: nat)
    requires completed <= total
    ensures 0 <= PagePercent(completed, total) <= 100
    ensures 0 < total && completed == total ==> PagePercent(completed, total) == 100
  {
    if total > 0 {
      PercentInRange(completed, total);
      if completed == total {
        PercentFullWhenComplete(total);
      }
    }
  }

  /** Below 200 chapters the percentage is 100 exactly when every chapter is completed. */
  lemma PagePercentFullIffComplete(completed: nat, total: nat)
    requires 0 < total < 200 && completed <= total
    ensures PagePercent(completed, total) == 100 <==> completed == total
  {
    PercentFullIffCompleteBelow200(completed, total);
  }

  /** The alert shown after a click on the completion button. */
  datatype Notice =
    | NoChapterSelected          // 'No hay capítulo seleccionado'
    | CourseCompleted            // the course-completed alert
    | RequestFailed(message: string)
    | NoNotice

  /** The page's state. */
  class CourseDetailPage {
    var course: Option<Course>
    var chapters: seq<Chapter>
    var selected: Option<Chapter>
    var completedIds: set<Id>
    var loading: bool
    var err: Option<string>

    constructor ()
      ensures course == None && chapters == [] && selected == None && completedIds == {}
      ensures loading && err == None
    {
      course, chapters, selected, completedIds := None, [], None, {};
      loading, err := true, None;
    }

    /** The percentage of the header; within 0..100 while no more ids than chapters are completed. */
    function ProgressPercent(): (r: nat)
      reads this
      ensures r == PagePercent(|completedIds|, |chapters|)
      ensures |completedIds| <= |chapters| ==> r <= 100
    {
      if |completedIds| <= |chapters| then
        PagePercentInRange(|completedIds|, |chapters|);
        PagePercent(|completedIds|, |chapters|)
      else
        PagePercent(|completedIds|, |chapters|)
    }

    /**
     * The load effect: fetches the course, then its chapters; sorts the chapters in
     * place by `order_index` and selects the first one if there is any. A failed
     * request stores its message in `err` and leaves the later steps undone.
     */
    method Load(courseReply: Response<Course>, chaptersReply: Response<seq<Chapter>>)
      modifies this`course, this`chapters, this`selected, this`loading, this`err
      ensures !loading
      ensures courseReply.Err? ==>
        err == Some(courseReply.message) && course == old(course) && chapters == old(chapters) && selected == old(selected)
      ensures courseReply.Ok? ==> course == Some(courseReply.value)
      ensures courseReply.Ok? && chaptersReply.Err? ==>
        err == Some(chaptersReply.message) && chapters == old(chapters) && selected == old(selected)
      ensures courseReply.Ok? && chaptersReply.Ok? ==>
        && err == None
        && SortedByOrder(chapters)
        && multiset(chapters) == multiset(chaptersReply.value)
        && selected == (if |chapters| > 0 then Some(chapters[0]) else old(selected))
        && (|chapters| > 0 ==> forall c :: c in chapters ==> chapters[0].orderIndex <= c.orderIndex)
    {
      loading := true;
      err := None;
      if courseReply.Err? {
        err := Some(courseReply.message);
        loading := false;
        return;
      }
      course := Some(courseReply.value);
      if chaptersReply.Err? {
        err := Some(chaptersReply.message);
        loading := false;
        return;
      }
      var ch := SortChapters(chaptersReply.value);
      chapters := ch;
      if |ch| > 0 {
        selected := Some(ch[0]);
      }
      loading := false;
    }

    /** A click on a listed chapter selects it; nothing else changes. */
    method SelectChapter(index: nat)
      requires index < |chapters|
      modifies this`selected
      ensures selected == Some(chapters[index])
    {
      selected := Some(chapters[index]);
    }

    /**
     * The completion button exists only for a selected chapter, and it is disabled
     * once that chapter's id is among the completed ids.
     */
    function CompleteEnabled(): (b: bool)
      reads this
      ensures b ==> selected.Some?
      ensures selected.Some? && selected.value.id in completedIds ==> !b
      ensures selected.Some? && selected.value.id !in completedIds ==> b
    {
      selected.Some? && selected.value.id !in completedIds
    }

    /**
     * `handleComplete`: without a selected chapter (or with an empty id) it only alerts.
     * Otherwise it sends the completion request; on success the chapter id joins
     * `completedIds` and the completion alert shows when the reply's
     * `progressPercent` is at least 100; on an error the set is unchanged.
     */
    method HandleComplete(reply: Response<Option<int>>) returns (requestSent: bool, notice: Notice)
      modifies this`completedIds
      ensures requestSent <==> selected.Some? && selected.value.id != ""
      ensures !requestSent ==> notice == NoChapterSelected && completedIds == old(completedIds)
      ensures requestSent && reply.Ok? ==>
        && completedIds == old(completedIds) + {selected.value.id}
        && !CompleteEnabled()
        && (notice == CourseCompleted <==> reply.value.Some? && reply.value.value >= 100)
        && (notice != CourseCompleted ==> notice == NoNotice)
      ensures requestSent && reply.Err? ==>
        notice == RequestFailed(reply.message) && completedIds == old(completedIds)
      ensures old(completedIds) <= completedIds && |completedIds| <= |old(completedIds)| + 1
    {
      if selected.None? || selected.value.id == "" {
        return false, NoChapterSelected;
      }
      requestSent := true;
      if reply.Err? {
        return requestSent, RequestFailed(reply.message);
      }
      completedIds := completedIds + {selected.value.id};
      if reply.value.Some? && reply.value.value >= 100 {
        notice := CourseCompleted;
      } else {
        notice := NoNotice;
      }
    }
  }

  /** Completing the same chapter twice leaves the set as completing it once. */
  method CompleteTwice(page: CourseDetailPage, first: Response<Option<int>>, second: Response<Option<int>>)
    requires page.selected.Some? && page.selected.value.id != ""
    requires first.Ok? && second.Ok?
    modifies page`completedIds
    ensures page.completedIds == old(page.completedIds) + {page.selected.value.id}
  {
    var sent1, notice1 := page.HandleComplete(first);
    var sent2, notice2 := page.HandleComplete(second);
  }
}
