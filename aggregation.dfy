/**
 * The loop over the courses of the cleaned table (lines 77-117 of update_page.py): each course's
 * review page is parsed into records, the records are grouped by semester, and the grouped rows
 * of all courses are concatenated. The badge variables are globals of the script, so the values
 * left by one course's page are still in place when the next course's page is read.
 */
module Aggregation {
  import opened Outcomes
  import opened Strings
  import opened Badges
  import opened Grouping

  /** A course's name together with the list items of its review page, already extracted. */
  datatype CoursePage = CoursePage(name: string, items: seq<Item>)

  /** The concatenated grouped rows so far, and the badge values the script still holds. */
  datatype Aggregate = Aggregate(rows: seq<GroupRow>, state: Carried)

  /** What the course loop computes, course after course, from the badge values it starts with. */
  function AggregatePages(st: Carried, pages: seq<CoursePage>): Result<Aggregate, PipelineError> {
    if pages == [] then Ok(Aggregate([], st))
    else
      var last := pages[|pages| - 1];
      match AggregatePages(st, pages[..|pages| - 1])
      case Err(e) => Err(e)
      case Ok(a) => AddPage(a, last)
  }

  /** One pass of the course loop: parse the page, stop on an empty review list, append its groups. */
  function AddPage(a: Aggregate, page: CoursePage): Result<Aggregate, PipelineError> {
    match ParseItems(page.name, a.state, page.items)
    case Err(e) => Err(e)
    case Ok(p) =>
      if p.reviews == [] then Err(NoReviews(page.name))
      else Ok(Aggregate(a.rows + Group(p.reviews), p.state))
  }

  /** The courses up to and including the i-th are those before it plus one pass for it. */
  lemma AggregateSnoc(st: Carried, pages: seq<CoursePage>, i: nat)
    requires i < |pages|
    requires AggregatePages(st, pages[..i]).Ok?
    ensures AggregatePages(st, pages[..i + 1]) == AddPage(AggregatePages(st, pages[..i]).value, pages[i])
  {
    assert pages[..i + 1][..i] == pages[..i];
  }

  /** Once a course has stopped the loop, the later courses do not matter. */
  lemma {:induction false} AggregateErrorSticks(st: Carried, pages: seq<CoursePage>, i: nat)
    requires i <= |pages|
    requires AggregatePages(st, pages[..i]).Err?
    ensures AggregatePages(st, pages) == AggregatePages(st, pages[..i])
  {
    if i < |pages| {
      var init := pages[..|pages| - 1];
      assert init[..i] == pages[..i];
      AggregateErrorSticks(st, init, i);
    } else {
      assert pages[..i] == pages;
    }
  }

  /** Lines 77-117: the course loop, starting with none of the badge variables assigned. */
  method AggregateCourses(pages: seq<CoursePage>) returns (r: Result<Aggregate, PipelineError>)
    ensures r == AggregatePages(Unassigned, pages)
  {
    var rows: seq<GroupRow> := [];
    var st := Unassigned;
    var i := 0;
    while i < |pages|
      invariant i <= |pages|
      invariant AggregatePages(Unassigned, pages[..i]) == Ok(Aggregate(rows, st))
    {
      var page := pages[i];
      AggregateSnoc(Unassigned, pages, i);
      var parsed := ParseReviewList(page.name, st, page.items);
      if parsed.Err? {
        AggregateErrorSticks(Unassigned, pages, i + 1);
        return Err(parsed.error);
      }
      if parsed.value.reviews == [] {
        AggregateErrorSticks(Unassigned, pages, i + 1);
        return Err(NoReviews(page.name));
      }
      rows := rows + Group(parsed.value.reviews);
      st := parsed.value.state;
      i := i + 1;
    }
    assert pages[..i] == pages;
    r := Ok(Aggregate(rows, st));
  }

  /**
   * Every aggregated row belongs to one of the courses, was seen at least once, and has a
   * semester other than "Unknown Semester".
   */
  lemma {:induction false} AggregatedRows(st: Carried, pages: seq<CoursePage>)
    requires AggregatePages(st, pages).Ok?
    ensures forall g :: g in AggregatePages(st, pages).value.rows ==>
      g.reviewCount >= 1 && g.key.semester != UnknownSemester &&
      exists i :: 0 <= i < |pages| && pages[i].name == g.key.name
  {
    if pages != [] {
      var init, last := pages[..|pages| - 1], pages[|pages| - 1];
      var a := AggregatePages(st, init).value;
      var p := ParseItems(last.name, a.state, last.items).value;
      AggregatedRows(st, init);
      ParsedReviews(last.name, a.state, last.items);
      PageRows(last.name, p.reviews);
      assert AggregatePages(st, pages).value.rows == a.rows + Group(p.reviews);
      forall g | g in a.rows + Group(p.reviews)
        ensures g.reviewCount >= 1 && g.key.semester != UnknownSemester
        ensures exists i :: 0 <= i < |pages| && pages[i].name == g.key.name
      {
        if g in a.rows {
          var i :| 0 <= i < |init| && init[i].name == g.key.name;
          assert pages[i] == init[i];
        } else {
          assert pages[|pages| - 1].name == g.key.name;
        }
      }
    }
  }

  /** The grouped rows of one page's records are counted, dated and carry the page's course name. */
  lemma PageRows(name: string, rs: seq<Review>)
    requires forall r :: r in rs ==> r.name == name && r.semester != UnknownSemester
    ensures forall g :: g in Group(rs) ==> g.reviewCount >= 1 && g.key.semester != UnknownSemester && g.key.name == name
  {
    GroupKeysFromRecords(rs);
    GroupCounts(rs);
    forall g | g in Group(rs) ensures g.reviewCount >= 1 && g.key.semester != UnknownSemester && g.key.name == name {
      var n :| 0 <= n < |Group(rs)| && Group(rs)[n] == g;
      var j :| 0 <= j < |rs| && KeyOf(rs[j]) == g.key;
      assert rs[j] in rs;
    }
  }

  /** Records that all carry one name give at least one grouped row with that name. */
  lemma GroupNamed(rs: seq<Review>, name: string) returns (g: GroupRow)
    requires rs != []
    requires forall r :: r in rs ==> r.name == name
    ensures g in Group(rs) && g.key.name == name
  {
    RecordsHaveGroups(rs);
    var n :| 0 <= n < |Group(rs)| && Group(rs)[n].key == KeyOf(rs[0]);
    assert rs[0] in rs;
    g := Group(rs)[n];
  }

  /** Some grouped row carries the course name `name`. */
  predicate HasRowFor(rows: seq<GroupRow>, name: string) {
    exists g :: g in rows && g.key.name == name
  }

  /** Every course contributes at least one row, in its own name. */
  lemma {:induction false} EveryCourseGrouped(st: Carried, pages: seq<CoursePage>)
    requires AggregatePages(st, pages).Ok?
    ensures forall i :: 0 <= i < |pages| ==> HasRowFor(AggregatePages(st, pages).value.rows, pages[i].name)
  {
    if pages != [] {
      var init, last := pages[..|pages| - 1], pages[|pages| - 1];
      var a := AggregatePages(st, init).value;
      var p := ParseItems(last.name, a.state, last.items).value;
      var rows := AggregatePages(st, pages).value.rows;
      assert rows == a.rows + Group(p.reviews);
      EveryCourseGrouped(st, init);
      ParsedReviews(last.name, a.state, last.items);
      var h := GroupNamed(p.reviews, last.name);
      CoverSnoc(pages, init, a.rows, Group(p.reviews), h);
    }
  }

  /** If the rows so far cover all courses but the last, and a new row covers the last, all are covered. */
  lemma CoverSnoc(pages: seq<CoursePage>, init: seq<CoursePage>, rows: seq<GroupRow>, more: seq<GroupRow>, h: GroupRow)
    requires pages != [] && init == pages[..|pages| - 1]
    requires forall i :: 0 <= i < |init| ==> HasRowFor(rows, init[i].name)
    requires h in more && h.key.name == pages[|pages| - 1].name
    ensures forall i :: 0 <= i < |pages| ==> HasRowFor(rows + more, pages[i].name)
  {
    forall i | 0 <= i < |pages|
      ensures HasRowFor(rows + more, pages[i].name)
    {
      if i < |pages| - 1 {
        var g :| g in rows && g.key.name == init[i].name;
        assert g in rows + more;
      } else {
        assert h in rows + more;
      }
    }
  }

  /**
   * The badge variables are not reset between courses: when a course's page has no badge of a
   * kind, that kind keeps the value the previous course's page left behind.
   */
  lemma CarriedAcrossCourses(st: Carried, pages: seq<CoursePage>, page: CoursePage, k: Kind)
    requires AggregatePages(st, pages + [page]).Ok?
    requires forall i, b :: 0 <= i < |page.items| && 0 <= b < |page.items[i].badges| ==>
      !Contains(page.items[i].badges[b], Keyword(k))
    ensures AggregatePages(st, pages).Ok?
    ensures Get(AggregatePages(st, pages + [page]).value.state, k) == Get(AggregatePages(st, pages).value.state, k)
  {
    assert (pages + [page])[..|pages|] == pages;
    var a := AggregatePages(st, pages).value;
    MissingBadgeCarriesOver(page.name, a.state, page.items, 0, k);
    assert page.items[..0] == [];
  }
}
