/**
 * Cleaning of the course table scraped from the landing page (update_page.py, lines 50-71):
 * the code and department columns, the tag column, the review-count threshold and the
 * workload correction for the course tagged "DC".
 */
module Cleaning {
  import opened Outcomes
  import opened Strings
  import Tables

  /** Courses with fewer reviews than this are dropped. */
  const MinReviewCount: int := 5

  /** The tag of the course whose workload is replaced. */
  const DcTag: string := "DC"

  /** One course object of the embedded JSON payload; `tags` is None when it is not a list. */
  datatype RawCourse = RawCourse(
    name: string,
    codes: seq<string>,
    tags: Option<seq<string>>,
    description: string,
    reviewCount: int,
    rating: real,
    difficulty: real,
    workload: real)

  /** A row of the cleaned table, with the derived `code`, `dept` and `tag` columns. */
  datatype Course = Course(
    name: string,
    code: string,
    dept: string,
    tag: string,
    tags: Option<seq<string>>,
    description: string,
    reviewCount: int,
    rating: real,
    difficulty: real,
    workload: real)

  // ---------------------------------------------------------------------------
  // Department: the code up to its first '-'

  /** The department is the code up to its first '-', or the whole code when it has none. */
  function DeptOf(code: string): (dept: string)
    ensures |dept| <= |code| && dept == code[..|dept|]
    ensures forall i :: 0 <= i < |dept| ==> dept[i] != '-'
    ensures dept == code || code[|dept|] == '-'
  {
    var dept := FirstField(code, "-");
    assert forall i :: 0 <= i < |dept| ==> dept[i] != '-' by {
      forall i | 0 <= i < |dept| && dept[i] == '-'
        ensures false
      {
        assert dept[i..i + 1] == "-";
        ContainsOccurs(dept, "-", i);
      }
    }
    assert dept != code ==> code[|dept|..|dept| + 1] == "-";
    dept
  }

  // ---------------------------------------------------------------------------
  // Tag: initials of the capitalised words of the name

  /** The first character of every word that starts with an upper-case letter, in order. */
  function InitialsOf(words: seq<string>): (tag: string)
    requires forall i :: 0 <= i < |words| ==> |words[i]| > 0
    ensures |tag| <= |words|
    ensures forall i :: 0 <= i < |tag| ==> IsUpper(tag[i])
  {
    if words == [] then []
    else (if IsUpper(words[0][0]) then [words[0][0]] else []) + InitialsOf(words[1..])
  }

  /** The initials of the name: the first character of each word that starts with an upper-case letter. */
  function InitialsTag(name: string): (tag: string)
    ensures |tag| <= |Words(name)|
    ensures forall i :: 0 <= i < |tag| ==> IsUpper(tag[i])
  {
    InitialsOf(Words(name))
  }

  /**
   * Reference definition character by character: an upper-case character is kept when it
   * opens the text or follows whitespace (`atStart` says whether the previous one did).
   */
  function WordStartCapitals(s: string, atStart: bool): string {
    if s == [] then []
    else (if atStart && IsUpper(s[0]) then [s[0]] else []) + WordStartCapitals(s[1..], IsSpace(s[0]))
  }

  /** Inside a word nothing is kept: skipping to the end of the current word is harmless. */
  lemma {:induction false} SkipWord(t: string)
    ensures WordStartCapitals(t, false) == WordStartCapitals(t[WordLength(t)..], true)
  {
    if t != [] && !IsSpace(t[0]) {
      SkipWord(t[1..]);
      assert t[1..][WordLength(t[1..])..] == t[WordLength(t)..];
    }
  }

  /** The derived tag is exactly the sequence of upper-case characters that start a word. */
  lemma {:induction false} InitialsAreWordStartCapitals(name: string)
    ensures InitialsTag(name) == WordStartCapitals(name, true)
    decreases |name|
  {
    if name != [] {
      if IsSpace(name[0]) {
        InitialsAreWordStartCapitals(name[1..]);
      } else {
        var n := WordLength(name);
        var ws := Words(name);
        assert ws == [name[..n]] + Words(name[n..]);
        assert ws[1..] == Words(name[n..]);
        assert ws[0][0] == name[0];
        InitialsAreWordStartCapitals(name[n..]);
        SkipWord(name[1..]);
        assert WordLength(name[1..]) == n - 1;
        assert name[1..][n - 1..] == name[n..];
      }
    }
  }

  /** Lines 59-62: a non-empty `tags` list overrides the derived tag with its first element. */
  function ListedTag(c: Course): (r: Course)
    ensures r.tag == if c.tags.Some? && |c.tags.value| > 0 then c.tags.value[0] else c.tag
    ensures r == c.(tag := r.tag)
  {
    match c.tags
    case Some(list) => if |list| > 0 then c.(tag := list[0]) else c
    case None => c
  }

  /** Lines 50-56: the derived columns of one course. */
  function Derive(raw: RawCourse): (c: Course)
    requires |raw.codes| > 0
    ensures c.code == raw.codes[0]
    ensures |c.dept| <= |c.code| && c.dept == c.code[..|c.dept|] && (c.dept == c.code || c.code[|c.dept|] == '-')
    ensures forall i :: 0 <= i < |c.dept| ==> c.dept[i] != '-'
    ensures c.tag == WordStartCapitals(raw.name, true) && |c.tag| <= |Words(raw.name)|
    ensures c.name == raw.name && c.tags == raw.tags && c.description == raw.description
    ensures c.reviewCount == raw.reviewCount && c.rating == raw.rating
    ensures c.difficulty == raw.difficulty && c.workload == raw.workload
  {
    var code := raw.codes[0];
    InitialsAreWordStartCapitals(raw.name);
    Course(raw.name, code, DeptOf(code), InitialsTag(raw.name), raw.tags, raw.description,
           raw.reviewCount, raw.rating, raw.difficulty, raw.workload)
  }

  /** Lines 59-62, in place: the row loop that writes the listed tag into the table. */
  method ApplyListedTags(rows: array<Course>)
    modifies rows
    ensures forall i :: 0 <= i < rows.Length ==> rows[i] == ListedTag(old(rows[i]))
  {
    for i := 0 to rows.Length
      invariant forall k :: 0 <= k < i ==> rows[k] == ListedTag(old(rows[k]))
      invariant forall k :: i <= k < rows.Length ==> rows[k] == old(rows[k])
    {
      var row := rows[i];
      if row.tags.Some? {
        if |row.tags.value| > 0 {
          rows[i] := row.(tag := row.tags.value[0]);
        }
      }
    }
  }

  // ---------------------------------------------------------------------------
  // Line 65: the review-count threshold

  /** The rows with at least `MinReviewCount` reviews, in their original order, unchanged. */
  function KeepReviewed(rows: seq<Course>): (kept: seq<Course>)
    ensures Tables.IsSubsequence(kept, rows)
    ensures forall c :: multiset(kept)[c] == if c.reviewCount >= MinReviewCount then multiset(rows)[c] else 0
    ensures forall i :: 0 <= i < |kept| ==> kept[i].reviewCount >= MinReviewCount
  {
    Tables.Filter((c: Course) => c.reviewCount >= MinReviewCount, rows)
  }

  // ---------------------------------------------------------------------------
  // Lines 70-71: the "DC" workload correction

  /** Every course tagged "DC" gets the workload `w`; every other row is left as it is. */
  function WithDcWorkload(rows: seq<Course>, w: real): seq<Course> {
    seq(|rows|, i requires 0 <= i < |rows| => if rows[i].tag == DcTag then rows[i].(workload := w) else rows[i])
  }

  /** The largest workload of a non-empty table. */
  function MaxWorkload(rows: seq<Course>): (m: real)
    requires |rows| > 0
    ensures exists i :: 0 <= i < |rows| && rows[i].workload == m
    ensures forall i :: 0 <= i < |rows| ==> rows[i].workload <= m
  {
    if |rows| == 1 then rows[0].workload
    else
      var m := MaxWorkload(rows[1..]);
      assert forall i :: 1 <= i < |rows| ==> rows[i] == rows[1..][i - 1];
      if rows[0].workload >= m then rows[0].workload else m
  }

  /** The workload the DC rows receive: the column maximum once they were zeroed. */
  function DcWorkload(rows: seq<Course>): real
    requires |rows| > 0
  {
    MaxWorkload(WithDcWorkload(rows, 0.0))
  }

  /** The two assignments of lines 70-71: zero the DC rows, then give them the column maximum. */
  function DcCorrected(rows: seq<Course>): seq<Course> {
    if |rows| == 0 then rows else WithDcWorkload(WithDcWorkload(rows, 0.0), DcWorkload(rows))
  }

  /**
   * What the correction achieves: the other rows are untouched, and every DC row gets one
   * workload `m` that bounds every non-DC workload, is the workload of some non-DC row unless
   * it is 0, and is never negative when a DC row exists; so it is the largest non-DC workload
   * when that is non-negative, and `m` is the maximum of the corrected column.
   */
  lemma DcCorrection(rows: seq<Course>)
    ensures |DcCorrected(rows)| == |rows|
    ensures forall i :: 0 <= i < |rows| && rows[i].tag != DcTag ==> DcCorrected(rows)[i] == rows[i]
    ensures |rows| > 0 ==>
      var m := DcWorkload(rows);
      && (forall i :: 0 <= i < |rows| && rows[i].tag == DcTag ==> DcCorrected(rows)[i] == rows[i].(workload := m))
      && (forall i :: 0 <= i < |rows| && rows[i].tag != DcTag ==> rows[i].workload <= m)
      && (forall i :: 0 <= i < |rows| ==> DcCorrected(rows)[i].workload <= m)
      && ((exists i :: 0 <= i < |rows| && rows[i].tag == DcTag) ==> m >= 0.0)
      && (m == 0.0 || exists i :: 0 <= i < |rows| && rows[i].tag != DcTag && rows[i].workload == m)
  {
    if |rows| > 0 {
      var zeroed := WithDcWorkload(rows, 0.0);
      var m := DcWorkload(rows);
      var j :| 0 <= j < |zeroed| && zeroed[j].workload == m;
      assert forall i :: 0 <= i < |rows| && rows[i].tag == DcTag ==> zeroed[i].workload == 0.0;
      assert forall i :: 0 <= i < |rows| && rows[i].tag != DcTag ==> zeroed[i] == rows[i];
      assert m == 0.0 || (rows[j].tag != DcTag && rows[j].workload == m);
    }
  }

  /** Sets the workload of every course tagged "DC" to `w`, in place. */
  method SetDcWorkload(rows: array<Course>, w: real)
    modifies rows
    ensures rows[..] == WithDcWorkload(old(rows[..]), w)
  {
    ghost var original := rows[..];
    for i := 0 to rows.Length
      invariant forall k :: 0 <= k < i ==>
        rows[k] == if original[k].tag == DcTag then original[k].(workload := w) else original[k]
      invariant forall k :: i <= k < rows.Length ==> rows[k] == original[k]
    {
      if rows[i].tag == DcTag {
        rows[i] := rows[i].(workload := w);
      }
    }
    assert rows[..] == WithDcWorkload(original, w);
  }

  /** Lines 70-71, in place on the filtered table. */
  method CorrectDcWorkload(rows: array<Course>)
    modifies rows
    ensures rows[..] == DcCorrected(old(rows[..]))
  {
    SetDcWorkload(rows, 0.0);
    if rows.Length > 0 {
      var m := MaxWorkload(rows[..]);
      SetDcWorkload(rows, m);
    }
  }

  // ---------------------------------------------------------------------------
  // Lines 50-71 together

  /** Lines 50-62 for every course of the payload, in payload order. */
  function Derived(raws: seq<RawCourse>): seq<Course>
    requires forall i :: 0 <= i < |raws| ==> |raws[i].codes| > 0
  {
    seq(|raws|, i requires 0 <= i < |raws| => ListedTag(Derive(raws[i])))
  }

  /** The cleaned table `df` as a function of the payload's courses. */
  function Cleaned(raws: seq<RawCourse>): seq<Course>
    requires forall i :: 0 <= i < |raws| ==> |raws[i].codes| > 0
  {
    DcCorrected(KeepReviewed(Derived(raws)))
  }

  /** Builds `raw_df` with its derived columns, then overrides the tags in place. */
  method DeriveCourses(raws: seq<RawCourse>) returns (table: array<Course>)
    requires forall i :: 0 <= i < |raws| ==> |raws[i].codes| > 0
    ensures fresh(table)
    ensures table[..] == Derived(raws)
  {
    table := new Course[|raws|](i requires 0 <= i < |raws| => Derive(raws[i]));
    ApplyListedTags(table);
  }

  /** Builds the table, overrides the tags in place, filters, and corrects the DC workload in place. */
  method CleanCourses(raws: seq<RawCourse>) returns (df: array<Course>)
    requires forall i :: 0 <= i < |raws| ==> |raws[i].codes| > 0
    ensures fresh(df)
    ensures df[..] == Cleaned(raws)
  {
    var table := DeriveCourses(raws);
    var kept := KeepReviewed(table[..]);
    df := new Course[|kept|](i requires 0 <= i < |kept| => kept[i]);
    assert df[..] == kept;
    CorrectDcWorkload(df);
  }
}
