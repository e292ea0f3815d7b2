/**
 * The per-semester table behind the animated charts (update_page.py, lines 120-128): the grouped
 * rows get the course's tag, department, code and description; the per-course totals are added
 * under the semester "All"; each label is split into a period token and a year token; the table
 * is sorted by (year, period); the label is rebuilt from the two tokens; and the "All" rows are
 * dropped.
 */
module Semesters {
  import opened Outcomes
  import opened Strings
  import opened Cleaning
  import opened Grouping
  import Tables

  /** A row of `df_plot_semester`, before the period and year columns are added. */
  datatype PlotRow = PlotRow(
    name: string,
    semester: string,
    rating: real,
    difficulty: real,
    workload: real,
    reviewCount: int,
    tag: string,
    dept: string,
    code: string,
    description: string)

  /** A grouped row with the columns of its course. */
  function FromGroup(g: GroupRow, c: Course): PlotRow {
    PlotRow(g.key.name, g.key.semester, g.rating, g.difficulty, g.workload, g.reviewCount,
            c.tag, c.dept, c.code, c.description)
  }

  /** A course of the cleaned table as a row of the semester table (line 75 sets its semester). */
  function FromCourse(c: Course): PlotRow {
    PlotRow(c.name, "All", c.rating, c.difficulty, c.workload, c.reviewCount,
            c.tag, c.dept, c.code, c.description)
  }

  // ---------------------------------------------------------------------------
  // Line 121: the merge on the course name

  /** Whether a course carries the given name: the merge key. */
  function HasName(name: string): Course -> bool {
    (c: Course) => c.name == name
  }

  /** The grouped row `g` with the columns of each course of `cs`, in the order of `cs`. */
  function JoinWith(g: GroupRow, cs: seq<Course>): seq<PlotRow> {
    seq(|cs|, k requires 0 <= k < |cs| => FromGroup(g, cs[k]))
  }

  /** `r` is the grouped row `g` joined with one of the courses of the same name. */
  predicate JoinsCourse(g: GroupRow, courses: seq<Course>, r: PlotRow) {
    exists j :: 0 <= j < |courses| && courses[j].name == g.key.name && r == FromGroup(g, courses[j])
  }

  /** `r` is one of the grouped rows joined with a course of the same name. */
  predicate IsJoin(groups: seq<GroupRow>, courses: seq<Course>, r: PlotRow) {
    exists i, j ::
      0 <= i < |groups| && 0 <= j < |courses| &&
      courses[j].name == groups[i].key.name && r == FromGroup(groups[i], courses[j])
  }

  /**
   * The grouped row `g` joined with the courses of its name: one row per such course, in table
   * order, so a name that occurs twice among the courses gives two rows.
   */
  function Matches(g: GroupRow, courses: seq<Course>): (m: seq<PlotRow>)
    ensures |m| == |Tables.Filter(HasName(g.key.name), courses)|
    ensures forall r :: r in m <==> JoinsCourse(g, courses, r)
  {
    var f := Tables.Filter(HasName(g.key.name), courses);
    MatchesMembers(g, courses, f);
    JoinWith(g, f)
  }

  /** Joining `g` with the courses of its name gives the rows that join `g` with some course. */
  lemma MatchesMembers(g: GroupRow, courses: seq<Course>, f: seq<Course>)
    requires forall c :: multiset(f)[c] == if HasName(g.key.name)(c) then multiset(courses)[c] else 0
    ensures forall r :: r in JoinWith(g, f) <==> JoinsCourse(g, courses, r)
  {
    var m := JoinWith(g, f);
    forall r | r in m ensures JoinsCourse(g, courses, r) {
      var k :| 0 <= k < |f| && m[k] == r;
      assert multiset(f)[f[k]] > 0;
      var j :| 0 <= j < |courses| && courses[j] == f[k];
    }
    forall r | JoinsCourse(g, courses, r) ensures r in m {
      var j :| 0 <= j < |courses| && courses[j].name == g.key.name && r == FromGroup(g, courses[j]);
      assert multiset(courses)[courses[j]] > 0;
      assert courses[j] in f;
      var k :| 0 <= k < |f| && f[k] == courses[j];
      assert m[k] == r;
    }
  }

  /** The matches of each grouped row, one block per grouped row. */
  function Blocks(groups: seq<GroupRow>, courses: seq<Course>): seq<seq<PlotRow>> {
    seq(|groups|, i requires 0 <= i < |groups| => Matches(groups[i], courses))
  }

  /** Every grouped row joined with the courses of its name, in the order of the grouped rows. */
  function Tagged(groups: seq<GroupRow>, courses: seq<Course>): (t: seq<PlotRow>)
    ensures forall r :: r in t <==> IsJoin(groups, courses, r)
  {
    var blocks := Blocks(groups, courses);
    Tables.ConcatMembers(blocks);
    TaggedMembers(groups, courses, blocks);
    Tables.Concat(blocks)
  }

  lemma TaggedMembers(groups: seq<GroupRow>, courses: seq<Course>, blocks: seq<seq<PlotRow>>)
    requires blocks == Blocks(groups, courses)
    ensures forall r :: (exists i :: 0 <= i < |blocks| && r in blocks[i]) <==> IsJoin(groups, courses, r)
  {
    forall r | IsJoin(groups, courses, r) ensures exists i :: 0 <= i < |blocks| && r in blocks[i] {
      var i, j :| 0 <= i < |groups| && 0 <= j < |courses| &&
        courses[j].name == groups[i].key.name && r == FromGroup(groups[i], courses[j]);
      assert JoinsCourse(groups[i], courses, r);
      assert r in blocks[i];
    }
  }

  /**
   * The merged table consists of one block per grouped row, in order: the rows from position
   * `|Tagged(groups[..i])|` up to `|Tagged(groups[..i + 1])|` are the i-th grouped row's matches,
   * one per course of its name.
   */
  lemma TaggedBlock(groups: seq<GroupRow>, courses: seq<Course>, i: nat)
    requires i < |groups|
    ensures |Tagged(groups[..i], courses)| + |Matches(groups[i], courses)| == |Tagged(groups[..i + 1], courses)|
    ensures |Tagged(groups[..i + 1], courses)| <= |Tagged(groups, courses)|
    ensures Tagged(groups, courses)[|Tagged(groups[..i], courses)|..|Tagged(groups[..i + 1], courses)|] ==
      Matches(groups[i], courses)
  {
    var blocks := Blocks(groups, courses);
    assert Blocks(groups[..i], courses) == blocks[..i];
    assert Blocks(groups[..i + 1], courses) == blocks[..i + 1];
    Tables.ConcatBlock(blocks, i);
  }

  /** The per-course totals, one per course, in the order of the courses. */
  function Totals(courses: seq<Course>): seq<PlotRow> {
    seq(|courses|, i requires 0 <= i < |courses| => FromCourse(courses[i]))
  }

  /** Line 122: the tagged grouped rows followed by the per-course totals. */
  function Combined(groups: seq<GroupRow>, courses: seq<Course>): seq<PlotRow> {
    Tagged(groups, courses) + Totals(courses)
  }

  // ---------------------------------------------------------------------------
  // Lines 123-125: period and year

  /**
   * The categories of the period column; a token outside them becomes a missing value, which
   * sorts after every category and prints as "nan".
   */
  datatype Period = Spring | Summer | Fall | AllTime | Missing

  function PeriodFrom(token: string): Period {
    if token == "Spring" then Spring
    else if token == "Summer" then Summer
    else if token == "Fall" then Fall
    else if token == "All" then AllTime
    else Missing
  }

  /** Position in the category list; the missing value comes last. */
  function Rank(p: Period): nat {
    match p
    case Spring => 0
    case Summer => 1
    case Fall => 2
    case AllTime => 3
    case Missing => 4
  }

  /** The text a period category is written as. */
  function PeriodText(p: Period): (text: string)
    ensures !Contains(text, " ")
  {
    var text := match p
      case Spring => "Spring"
      case Summer => "Summer"
      case Fall => "Fall"
      case AllTime => "All"
      case Missing => "nan";
    LacksChar(text, ' ');
    text
  }

  /** The category's text names the category back. */
  lemma PeriodTextNamesPeriod(p: Period)
    ensures PeriodFrom(PeriodText(p)) == p
  {
  }

  /** A row with its period and year columns. */
  datatype Keyed = Keyed(row: PlotRow, period: Period, year: string)

  /** Lines 123-125: the period is the label's first space-separated token, the year its last. */
  function KeyRow(r: PlotRow): Keyed {
    Keyed(r, PeriodFrom(FirstField(r.semester, " ")), LastField(r.semester, " "))
  }

  function KeyRows(rows: seq<PlotRow>): seq<Keyed> {
    Tables.Map(KeyRow, rows)
  }

  // ---------------------------------------------------------------------------
  // Line 126: sorting by year, then by period

  /** Year as text first, period rank within a year. */
  predicate KeyLe(a: Keyed, b: Keyed) {
    if a.year == b.year then Rank(a.period) <= Rank(b.period) else StrLe(a.year, b.year)
  }

  lemma KeyLeTotal(a: Keyed, b: Keyed)
    ensures KeyLe(a, b) || KeyLe(b, a)
  {
    StrLeTotal(a.year, b.year);
  }

  lemma KeyLeTransitive(a: Keyed, b: Keyed, c: Keyed)
    requires KeyLe(a, b) && KeyLe(b, c)
    ensures KeyLe(a, c)
  {
    if a.year != b.year && b.year != c.year {
      StrLeTransitive(a.year, b.year, c.year);
      if a.year == c.year {
        StrLeAntisymmetric(a.year, b.year);
      }
    }
  }

  predicate Sorted(ks: seq<Keyed>) {
    forall i, j :: 0 <= i < j < |ks| ==> KeyLe(ks[i], ks[j])
  }

  /** A row that comes before every row of a sorted table can be put in front of it. */
  lemma SortedCons(a: Keyed, ks: seq<Keyed>)
    requires Sorted(ks)
    requires forall j :: 0 <= j < |ks| ==> KeyLe(a, ks[j])
    ensures Sorted([a] + ks)
  {
    var r := [a] + ks;
    forall i, j | 0 <= i < j < |r| ensures KeyLe(r[i], r[j]) {
      if i > 0 {
        assert r[i] == ks[i - 1] && r[j] == ks[j - 1];
      }
    }
  }

  /** `x` placed before the first row it does not come after. */
  function Insert(x: Keyed, ks: seq<Keyed>): (r: seq<Keyed>)
    requires Sorted(ks)
    ensures Sorted(r)
    ensures multiset(r) == multiset(ks) + multiset{x}
    ensures forall y :: y in r ==> y == x || y in ks
  {
    if ks == [] then [x]
    else if KeyLe(x, ks[0]) then
      assert forall j :: 0 <= j < |ks| ==> KeyLe(x, ks[j]) by {
        forall j | 0 <= j < |ks| ensures KeyLe(x, ks[j]) {
          if j > 0 { KeyLeTransitive(x, ks[0], ks[j]); }
        }
      }
      SortedCons(x, ks);
      [x] + ks
    else
      var rest := Insert(x, ks[1..]);
      assert ks == [ks[0]] + ks[1..];
      assert forall j :: 0 <= j < |rest| ==> KeyLe(ks[0], rest[j]) by {
        KeyLeTotal(x, ks[0]);
        forall j | 0 <= j < |rest| ensures KeyLe(ks[0], rest[j]) {
          assert rest[j] in rest;
          if rest[j] != x {
            var m :| 0 <= m < |ks[1..]| && ks[1..][m] == rest[j];
            assert ks[m + 1] == rest[j];
          }
        }
      }
      SortedCons(ks[0], rest);
      [ks[0]] + rest
  }

  /** The sorted table: ordered by (year, period) and a permutation of its rows. */
  function SortRows(ks: seq<Keyed>): (r: seq<Keyed>)
    ensures Sorted(r)
    ensures multiset(r) == multiset(ks)
  {
    if ks == [] then []
    else
      assert ks == [ks[0]] + ks[1..];
      Insert(ks[0], SortRows(ks[1..]))
  }

  // ---------------------------------------------------------------------------
  // Line 127: the label rebuilt from period and year; line 128: the "All" rows dropped

  function Relabel(k: Keyed): Keyed {
    k.(row := k.row.(semester := PeriodText(k.period) + " " + k.year))
  }

  function Relabeled(ks: seq<Keyed>): seq<Keyed> {
    Tables.Map(Relabel, ks)
  }

  /** The mask of line 128: a missing period is not "All" and is kept. */
  predicate NotAllTime(k: Keyed) {
    k.period != AllTime
  }

  function Final(ks: seq<Keyed>): seq<Keyed> {
    Tables.Filter(NotAllTime, ks)
  }

  /** Lines 123-128 applied to the concatenated table. */
  function Arrange(rows: seq<PlotRow>): seq<Keyed> {
    Final(Relabeled(SortRows(KeyRows(rows))))
  }

  /** Lines 120-128: `df_plot_semester_final` from the grouped rows and the cleaned courses. */
  function SemesterTable(groups: seq<GroupRow>, courses: seq<Course>): seq<Keyed> {
    Arrange(Combined(groups, courses))
  }

  /** A label of two space-free tokens splits into exactly those tokens. */
  lemma SplitTwoTokens(t: string, y: string)
    requires !Contains(t, " ") && !Contains(y, " ")
    ensures FirstField(t + " " + y, " ") == t
    ensures LastField(t + " " + y, " ") == y
  {
    var s := t + " " + y;
    assert s[..|t|] == t;
    assert OccursAt(s, " ", |t|);
    forall j | 0 <= j < |t| ensures !OccursAt(s, " ", j) {
      if OccursAt(s, " ", j) {
        assert t[j..j + 1] == s[j..j + 1];
        ContainsOccurs(t, " ", j);
      }
    }
    FirstFieldAt(s, " ", |t|);
    assert s[|t| + 1..] == y;
    assert IndexOf(s, " ") == Some(|t|);
    assert Split(s, " ") == [t] + Split(y, " ");
  }

  /** Rebuilding the label of a "period year" row gives back the same label. */
  lemma RelabelKeepsTwoTokenLabel(r: PlotRow, t: string, y: string)
    requires PeriodFrom(t) != Missing && !Contains(y, " ")
    requires r.semester == t + " " + y
    ensures KeyRow(r).period == PeriodFrom(t) && KeyRow(r).year == y
    ensures Relabel(KeyRow(r)).row == r
  {
    assert PeriodText(PeriodFrom(t)) == t;
    SplitTwoTokens(t, y);
  }

  /**
   * A label whose first token is not a category is rebuilt as "nan" followed by its year. Its key
   * sorts after (or level with) the key of every row of the same year, and strictly before every
   * row of a later year.
   */
  lemma RelabelUnknownPeriod(r: PlotRow, t: string, y: string)
    requires PeriodFrom(t) == Missing && !Contains(t, " ") && !Contains(y, " ")
    requires r.semester == t + " " + y
    ensures KeyRow(r).period == Missing && KeyRow(r).year == y
    ensures Relabel(KeyRow(r)).row.semester == "nan " + y
    ensures forall b: Keyed :: b.year == y ==> KeyLe(b, KeyRow(r))
    ensures forall b: Keyed :: b.year != y && StrLe(y, b.year) ==> KeyLe(KeyRow(r), b) && !KeyLe(b, KeyRow(r))
  {
    SplitTwoTokens(t, y);
    forall b: Keyed | b.year != y && StrLe(y, b.year)
      ensures KeyLe(KeyRow(r), b) && !KeyLe(b, KeyRow(r))
    {
      if KeyLe(b, KeyRow(r)) {
        StrLeAntisymmetric(y, b.year);
      }
    }
  }

  /** The per-course totals are labelled "All": both tokens are "All", and the label becomes "All All". */
  lemma RelabelAllLabel(r: PlotRow)
    requires r.semester == "All"
    ensures KeyRow(r).period == AllTime && KeyRow(r).year == "All"
    ensures Relabel(KeyRow(r)).row.semester == "All All"
  {
    assert KeyRow(r).period == AllTime && KeyRow(r).year == "All" by {
      LacksChar(r.semester, ' ');
      FieldsWithoutSeparator(r.semester, " ");
    }
    assert PeriodText(AllTime) == "All";
  }

  /** In a sorted table, every row whose year is "All" comes after every row with a digit year. */
  lemma AllAfterDigitYears(ks: seq<Keyed>, i: nat, j: nat)
    requires Sorted(ks) && i < |ks| && j < |ks|
    requires ks[i].year == "All" && IsDigits(ks[j].year)
    ensures j < i
  {
    assert IsDigit(ks[j].year[0]);
    assert ks[i].year != ks[j].year;
    assert !KeyLe(ks[i], ks[j]);
  }

  /** The rows of the final table are the rows of its input whose period is not "All". */
  lemma FinalMembers(ks: seq<Keyed>)
    ensures forall k :: k in Final(ks) <==> NotAllTime(k) && k in ks
  {
    forall k ensures k in Final(ks) <==> NotAllTime(k) && k in ks {
      assert k in Final(ks) <==> k in multiset(Final(ks));
      assert k in ks <==> k in multiset(ks);
    }
  }

  /** The rows of the relabelled table are the relabelled rows. */
  lemma RelabeledMembers(ks: seq<Keyed>)
    ensures |Relabeled(ks)| == |ks|
    ensures forall k :: k in Relabeled(ks) <==> exists x :: x in ks && k == Relabel(x)
  {
    Tables.MapMembers(Relabel, ks);
  }

  /** The keyed table holds the keyed rows. */
  lemma KeyRowsMembers(rows: seq<PlotRow>)
    ensures forall x :: x in KeyRows(rows) <==> exists r :: r in rows && x == KeyRow(r)
  {
    Tables.MapMembers(KeyRow, rows);
  }

  /** Sorting neither adds nor loses rows. */
  lemma SortedMembers(ks: seq<Keyed>)
    ensures forall x :: x in SortRows(ks) <==> x in ks
  {
    forall x ensures x in SortRows(ks) <==> x in ks {
      assert x in SortRows(ks) <==> x in multiset(SortRows(ks));
      assert x in ks <==> x in multiset(ks);
    }
  }

  /** Dropping rows keeps a sorted table sorted. */
  lemma FinalSorted(ks: seq<Keyed>)
    requires Sorted(ks)
    ensures Sorted(Final(ks))
  {
    Tables.SubsequenceOrdered(KeyLe, Final(ks), ks);
  }

  /** Relabelling keeps the period and year columns, so a sorted table stays sorted. */
  lemma RelabeledSorted(ks: seq<Keyed>)
    requires Sorted(ks)
    ensures Sorted(Relabeled(ks))
  {
    var l := Relabeled(ks);
    forall i, j | 0 <= i < j < |l| ensures KeyLe(l[i], l[j]) {
      assert KeyLe(ks[i], ks[j]);
      assert l[i] == Relabel(ks[i]) && l[j] == Relabel(ks[j]);
    }
  }

  /**
   * The arranged table is sorted by (year, period), has no "All" row, and holds exactly the
   * given rows, relabelled, whose period is not "All".
   */
  lemma ArrangedRows(rows: seq<PlotRow>)
    ensures Sorted(Arrange(rows))
    ensures multiset(Arrange(rows)) == multiset(Final(Relabeled(KeyRows(rows))))
    ensures forall k :: k in Arrange(rows) ==> k.period != AllTime
    ensures forall k :: k in Arrange(rows) <==> NotAllTime(k) && exists r :: r in rows && k == Relabel(KeyRow(r))
  {
    var ks := KeyRows(rows);
    var s := SortRows(ks);
    var l := Relabeled(s);
    RelabeledSorted(s);
    FinalSorted(l);
    FinalMembers(l);
    RelabeledMembers(s);
    SortedMembers(ks);
    KeyRowsMembers(rows);
    Tables.MapPermutation(Relabel, s, ks);
    var u := Relabeled(ks);
    assert forall k :: multiset(Final(l))[k] == multiset(Final(u))[k];
  }

  /** The per-course totals, labelled "All", never reach the final table. */
  lemma CourseTotalDropped(c: Course)
    ensures !NotAllTime(Relabel(KeyRow(FromCourse(c))))
  {
    RelabelAllLabel(FromCourse(c));
  }

  /**
   * `df_plot_semester_final` holds exactly the grouped rows joined with a course of the same
   * name, relabelled, whose period is not "All"; the per-course totals are all dropped.
   */
  lemma SemesterTableRows(groups: seq<GroupRow>, courses: seq<Course>)
    ensures Sorted(SemesterTable(groups, courses))
    ensures multiset(SemesterTable(groups, courses)) == multiset(Final(Relabeled(KeyRows(Tagged(groups, courses)))))
    ensures forall k :: k in SemesterTable(groups, courses) <==>
      NotAllTime(k) &&
      exists i, j ::
        0 <= i < |groups| && 0 <= j < |courses| &&
        courses[j].name == groups[i].key.name && k == Relabel(KeyRow(FromGroup(groups[i], courses[j])))
  {
    ArrangedRows(Combined(groups, courses));
    JoinedRowsOnly(SemesterTable(groups, courses), groups, courses);
    var tagged, totals := Tagged(groups, courses), Totals(courses);
    Tables.MapConcat(KeyRow, tagged, totals);
    Tables.MapConcat(Relabel, KeyRows(tagged), KeyRows(totals));
    TotalsDropped(courses);
    FinalIgnoresAllTime(Relabeled(KeyRows(tagged)), Relabeled(KeyRows(totals)));
  }

  /** After relabelling, every per-course total has the period "All". */
  lemma TotalsDropped(courses: seq<Course>)
    ensures forall k :: k in Relabeled(KeyRows(Totals(courses))) ==> !NotAllTime(k)
  {
    var totals := Totals(courses);
    var keyed := KeyRows(totals);
    var l := Relabeled(keyed);
    forall k | k in l ensures !NotAllTime(k) {
      var i :| 0 <= i < |l| && l[i] == k;
      assert keyed[i] == KeyRow(totals[i]) && totals[i] == FromCourse(courses[i]);
      CourseTotalDropped(courses[i]);
    }
  }

  /** Rows the mask drops can be appended without changing what survives it. */
  lemma FinalIgnoresAllTime(a: seq<Keyed>, b: seq<Keyed>)
    requires forall k :: k in b ==> !NotAllTime(k)
    ensures multiset(Final(a + b)) == multiset(Final(a))
  {
    forall k ensures multiset(Final(a + b))[k] == multiset(Final(a))[k] {
      if NotAllTime(k) {
        assert k !in multiset(b);
      }
    }
  }

  /** A table holding the dated, relabelled rows of `Combined` holds only joined grouped rows. */
  lemma JoinedRowsOnly(t: seq<Keyed>, groups: seq<GroupRow>, courses: seq<Course>)
    requires forall k :: k in t <==> NotAllTime(k) && exists r :: r in Combined(groups, courses) && k == Relabel(KeyRow(r))
    ensures forall k :: k in t <==>
      NotAllTime(k) &&
      exists i, j ::
        0 <= i < |groups| && 0 <= j < |courses| &&
        courses[j].name == groups[i].key.name && k == Relabel(KeyRow(FromGroup(groups[i], courses[j])))
  {
    forall k | k in t
      ensures exists i, j ::
        0 <= i < |groups| && 0 <= j < |courses| &&
        courses[j].name == groups[i].key.name && k == Relabel(KeyRow(FromGroup(groups[i], courses[j])))
    {
      var r :| r in Combined(groups, courses) && k == Relabel(KeyRow(r));
      KeptCombinedTagged(groups, courses, r);
    }
    forall i, j | 0 <= i < |groups| && 0 <= j < |courses| && courses[j].name == groups[i].key.name &&
        NotAllTime(Relabel(KeyRow(FromGroup(groups[i], courses[j]))))
      ensures Relabel(KeyRow(FromGroup(groups[i], courses[j]))) in t
    {
      TaggedCombined(groups, courses, FromGroup(groups[i], courses[j]));
    }
  }

  /** A row of `Combined` that survives the filter is one of the joined grouped rows. */
  lemma KeptCombinedTagged(groups: seq<GroupRow>, courses: seq<Course>, r: PlotRow)
    requires r in Combined(groups, courses) && NotAllTime(Relabel(KeyRow(r)))
    ensures r in Tagged(groups, courses)
  {
    var totals := Totals(courses);
    if r in totals {
      var j :| 0 <= j < |totals| && totals[j] == r;
      CourseTotalDropped(courses[j]);
    }
  }

  /** The joined grouped rows are rows of `Combined`. */
  lemma TaggedCombined(groups: seq<GroupRow>, courses: seq<Course>, r: PlotRow)
    requires r in Tagged(groups, courses)
    ensures r in Combined(groups, courses)
  {
  }
}
