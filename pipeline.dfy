/**
 * The script end to end, from the course objects of the landing page to `df_plot_semester_final`
 * (update_page.py, lines 50-128). Downloading a course's review page is a parameter: `fetch`
 * gives the list items of the page of the course with that name.
 */
module Pipeline {
  import opened Outcomes
  import opened Cleaning
  import opened Badges
  import opened Grouping
  import opened Aggregation
  import opened Semesters

  /** The review pages of the cleaned courses, in table order. */
  function PagesOf(courses: seq<Course>, fetch: string -> seq<Item>): (pages: seq<CoursePage>)
    ensures |pages| == |courses|
    ensures forall i :: 0 <= i < |courses| ==> pages[i].name == courses[i].name
  {
    seq(|courses|, i requires 0 <= i < |courses| => CoursePage(courses[i].name, fetch(courses[i].name)))
  }

  /**
   * Lines 50-128. With no course left after the review-count filter, the merge of line 121
   * fails, because the empty concatenation has no `name` column.
   */
  function Report(raws: seq<RawCourse>, fetch: string -> seq<Item>): Result<seq<Keyed>, PipelineError>
    requires forall i :: 0 <= i < |raws| ==> |raws[i].codes| > 0
  {
    var df := Cleaned(raws);
    match AggregatePages(Unassigned, PagesOf(df, fetch))
    case Err(e) => Err(e)
    case Ok(a) => if df == [] then Err(NoCourses) else Ok(SemesterTable(a.rows, df))
  }

  /** The script's steps in order: cleaning in place, the course loop, then the semester table. */
  method RunReport(raws: seq<RawCourse>, fetch: string -> seq<Item>) returns (r: Result<seq<Keyed>, PipelineError>)
    requires forall i :: 0 <= i < |raws| ==> |raws[i].codes| > 0
    ensures r == Report(raws, fetch)
  {
    var df := CleanCourses(raws);
    var courses := df[..];
    var aggregated := AggregateCourses(PagesOf(courses, fetch));
    if aggregated.Err? {
      return Err(aggregated.error);
    }
    if df.Length == 0 {
      return Err(NoCourses);
    }
    r := Ok(SemesterTable(aggregated.value.rows, courses));
  }

  /**
   * The script stops exactly when a course's page fails or no course is left; otherwise its
   * table is in (year, period) order, has no "All" rows, and each of its rows counts at least one
   * review of a course that passed the review-count filter.
   */
  lemma ReportRows(raws: seq<RawCourse>, fetch: string -> seq<Item>)
    requires forall i :: 0 <= i < |raws| ==> |raws[i].codes| > 0
    ensures Report(raws, fetch).Err? <==>
      AggregatePages(Unassigned, PagesOf(Cleaned(raws), fetch)).Err? || Cleaned(raws) == []
    ensures Report(raws, fetch).Ok? ==>
      && Sorted(Report(raws, fetch).value)
      && forall k :: k in Report(raws, fetch).value ==>
        && k.period != AllTime
        && k.row.reviewCount >= 1
        && exists j :: 0 <= j < |Cleaned(raws)| &&
             Cleaned(raws)[j].name == k.row.name && Cleaned(raws)[j].reviewCount >= MinReviewCount
  {
    var df := Cleaned(raws);
    var pages := PagesOf(df, fetch);
    if AggregatePages(Unassigned, pages).Ok? && df != [] {
      var rows := AggregatePages(Unassigned, pages).value.rows;
      var t := SemesterTable(rows, df);
      assert Report(raws, fetch) == Ok(t);
      SemesterTableRows(rows, df);
      AggregatedRows(Unassigned, pages);
      CleanedReviewed(raws);
      forall k | k in t
        ensures k.row.reviewCount >= 1
        ensures exists j :: 0 <= j < |df| && df[j].name == k.row.name && df[j].reviewCount >= MinReviewCount
      {
        var i, j :| 0 <= i < |rows| && 0 <= j < |df| &&
          df[j].name == rows[i].key.name && k == Relabel(KeyRow(FromGroup(rows[i], df[j])));
        assert rows[i] in rows;
      }
    }
  }

  /** Every course of the cleaned table passed the review-count filter. */
  lemma CleanedReviewed(raws: seq<RawCourse>)
    requires forall i :: 0 <= i < |raws| ==> |raws[i].codes| > 0
    ensures forall j :: 0 <= j < |Cleaned(raws)| ==> Cleaned(raws)[j].reviewCount >= MinReviewCount
  {
    DcCorrection(KeepReviewed(Derived(raws)));
  }

  /**
   * The merge of line 121 is an outer merge, but here it never has an unmatched side: every
   * grouped row names a course of the table, and every course of the table has a grouped row.
   */
  lemma MergeUnmatchedNone(courses: seq<Course>, fetch: string -> seq<Item>)
    requires AggregatePages(Unassigned, PagesOf(courses, fetch)).Ok?
    ensures forall g :: g in AggregatePages(Unassigned, PagesOf(courses, fetch)).value.rows ==>
      exists j :: 0 <= j < |courses| && courses[j].name == g.key.name
    ensures forall j :: 0 <= j < |courses| ==>
      HasRowFor(AggregatePages(Unassigned, PagesOf(courses, fetch)).value.rows, courses[j].name)
  {
    var pages := PagesOf(courses, fetch);
    var rows := AggregatePages(Unassigned, pages).value.rows;
    assert forall g :: g in rows ==> exists j :: 0 <= j < |courses| && courses[j].name == g.key.name by {
      AggregatedRows(Unassigned, pages);
      RowsNameCourses(rows, pages, courses);
    }
    assert forall j :: 0 <= j < |courses| ==> HasRowFor(rows, courses[j].name) by {
      EveryCourseGrouped(Unassigned, pages);
      CoursesHaveRows(rows, pages, courses);
    }
  }

  /** A row named after a page is named after the course of that page. */
  lemma RowsNameCourses(rows: seq<GroupRow>, pages: seq<CoursePage>, courses: seq<Course>)
    requires |pages| == |courses|
    requires forall i :: 0 <= i < |courses| ==> pages[i].name == courses[i].name
    requires forall g :: g in rows ==> exists i :: 0 <= i < |pages| && pages[i].name == g.key.name
    ensures forall g :: g in rows ==> exists j :: 0 <= j < |courses| && courses[j].name == g.key.name
  {
    forall g | g in rows ensures exists j :: 0 <= j < |courses| && courses[j].name == g.key.name {
      var i :| 0 <= i < |pages| && pages[i].name == g.key.name;
      assert courses[i].name == g.key.name;
    }
  }

  /** A course whose page has a row of its name has a row of its name. */
  lemma CoursesHaveRows(rows: seq<GroupRow>, pages: seq<CoursePage>, courses: seq<Course>)
    requires |pages| == |courses|
    requires forall i :: 0 <= i < |courses| ==> pages[i].name == courses[i].name
    requires forall i :: 0 <= i < |pages| ==> HasRowFor(rows, pages[i].name)
    ensures forall j :: 0 <= j < |courses| ==> HasRowFor(rows, courses[j].name)
  {
    forall j | 0 <= j < |courses| ensures HasRowFor(rows, courses[j].name) {
      assert HasRowFor(rows, pages[j].name);
      assert pages[j].name == courses[j].name;
    }
  }
}
