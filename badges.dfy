/**
 * Parsing of one course's review page (update_page.py, lines 97-113). A list item is
 * reduced to the texts of its `capitalize` spans and of its green badge spans. The three
 * metric strings live in variables that are never reset: a badge kind missing from an item
 * keeps the value an earlier item (or an earlier course) left behind, and reading one that
 * was never assigned is a NameError.
 */
module Badges {
  import opened Outcomes
  import opened Strings

  /** The word whose presence anywhere in a badge's text makes the badge assign that metric. */
  function Keyword(k: Kind): string {
    match k
    case Rating => "Rating"
    case Difficulty => "Difficulty"
    case Workload => "Workload"
  }

  /** The text the value is cut at. */
  function Separator(k: Kind): string {
    match k
    case Rating => " / "
    case Difficulty => " / "
    case Workload => " hours / "
  }

  /** How many leading characters of the first field are dropped. */
  function PrefixLength(k: Kind): nat {
    match k
    case Rating => 8
    case Difficulty => 12
    case Workload => 10
  }

  /** The label a well-formed badge starts with; its length is the prefix that is dropped. */
  function Label(k: Kind): (prefix: string)
    ensures |prefix| == PrefixLength(k)
  {
    match k
    case Rating => "Rating: "
    case Difficulty => "Difficulty: "
    case Workload => "Workload: "
  }

  /**
   * The value a badge assigns: the text before the first separator, less its first
   * `PrefixLength(k)` characters; empty when that field is no longer than the prefix.
   */
  function BadgeValue(k: Kind, text: string): (v: string)
    ensures !Contains(v, Separator(k))
    ensures |text| <= PrefixLength(k) ==> v == []
    ensures v != [] ==> PrefixLength(k) + |v| <= |text| && text[PrefixLength(k)..PrefixLength(k) + |v|] == v
  {
    var field := FirstField(text, Separator(k));
    var n := PrefixLength(k);
    if |field| <= n then []
    else
      FieldTail(text, Separator(k), n);
      var v := field[n..];
      v
  }

  /** A badge written as label, digits, separator and anything else yields exactly the digits. */
  lemma WellFormedBadge(k: Kind, d: string, rest: string)
    requires forall i :: 0 <= i < |d| ==> IsDigit(d[i])
    ensures BadgeValue(k, Label(k) + d + Separator(k) + rest) == d
  {
    var prefix, sep := Label(k), Separator(k);
    var text := prefix + d + sep + rest;
    var at := |prefix| + |d|;
    assert text[at..at + |sep|] == sep;
    forall j | 0 <= j < at
      ensures !OccursAt(text, sep, j)
    {
      if j + |sep| <= |text| {
        assert text[j..j + |sep|][0] == text[j] && text[j..j + |sep|][1] == text[j + 1];
        if j < |prefix| - 1 {
          assert text[j] == prefix[j] != ' ';
        } else if j == |prefix| - 1 {
          assert text[j + 1] == if |d| > 0 then d[0] else sep[0];
          assert text[j + 1] != sep[1];
        } else {
          assert text[j] == d[j - |prefix|];
        }
      }
    }
    assert OccursAt(text, sep, at);
    FirstFieldAt(text, sep, at);
    assert text[..at] == prefix + d;
    assert (prefix + d)[|prefix|..] == d;
  }

  /** A badge whose first separator starts after the label's length yields the text between the two. */
  lemma BadgeAt(k: Kind, text: string, at: nat)
    requires OccursAt(text, Separator(k), at) && at > PrefixLength(k)
    requires forall j :: 0 <= j < at ==> !OccursAt(text, Separator(k), j)
    ensures BadgeValue(k, text) == text[PrefixLength(k)..at]
  {
    FirstFieldAt(text, Separator(k), at);
    assert text[..at][PrefixLength(k)..] == text[PrefixLength(k)..at];
  }

  /** A badge whose first separator starts within the label's length yields the empty string. */
  lemma ShortBadge(k: Kind, text: string, at: nat)
    requires OccursAt(text, Separator(k), at) && at <= PrefixLength(k)
    requires forall j :: 0 <= j < at ==> !OccursAt(text, Separator(k), j)
    ensures BadgeValue(k, text) == []
  {
    FirstFieldAt(text, Separator(k), at);
  }

  // ---------------------------------------------------------------------------
  // The carried metric strings

  /** The three variables `rating`, `difficulty`, `workload`; None until first assigned. */
  datatype Carried = Carried(rating: Option<string>, difficulty: Option<string>, workload: Option<string>)

  /** Nothing assigned yet: the state at the start of the script. */
  const Unassigned := Carried(None, None, None)

  function Get(st: Carried, k: Kind): Option<string> {
    match k
    case Rating => st.rating
    case Difficulty => st.difficulty
    case Workload => st.workload
  }

  /** Assigns the value of the badge to its variable when the badge mentions that metric. */
  function Read(st: Carried, k: Kind, text: string): (r: Carried)
    ensures Get(r, k) == if Contains(text, Keyword(k)) then Some(BadgeValue(k, text)) else Get(st, k)
    ensures forall other :: other != k ==> Get(r, other) == Get(st, other)
  {
    if !Contains(text, Keyword(k)) then st
    else
      var v := Some(BadgeValue(k, text));
      match k
      case Rating => st.(rating := v)
      case Difficulty => st.(difficulty := v)
      case Workload => st.(workload := v)
  }

  /** Lines 104-110: the three independent `if`s for one badge. */
  function ReadBadge(st: Carried, text: string): Carried {
    Read(Read(Read(st, Rating, text), Difficulty, text), Workload, text)
  }

  lemma ReadBadgeGet(st: Carried, text: string, k: Kind)
    ensures Get(ReadBadge(st, text), k) ==
      if Contains(text, Keyword(k)) then Some(BadgeValue(k, text)) else Get(st, k)
  {
  }

  /** Lines 103-110: the badges of one item, read in order. */
  function ReadBadges(st: Carried, texts: seq<string>): Carried {
    if texts == [] then st else ReadBadge(ReadBadges(st, texts[..|texts| - 1]), texts[|texts| - 1])
  }

  /** A metric no badge of the item mentions keeps its earlier value. */
  lemma {:induction false} BadgesKeepMissing(st: Carried, texts: seq<string>, k: Kind)
    requires forall i :: 0 <= i < |texts| ==> !Contains(texts[i], Keyword(k))
    ensures Get(ReadBadges(st, texts), k) == Get(st, k)
  {
    if texts != [] {
      BadgesKeepMissing(st, texts[..|texts| - 1], k);
      ReadBadgeGet(ReadBadges(st, texts[..|texts| - 1]), texts[|texts| - 1], k);
    }
  }

  /** Otherwise the last badge that mentions the metric decides its value. */
  lemma {:induction false} LastBadgeWins(st: Carried, texts: seq<string>, j: nat, k: Kind)
    requires j < |texts| && Contains(texts[j], Keyword(k))
    requires forall i :: j < i < |texts| ==> !Contains(texts[i], Keyword(k))
    ensures Get(ReadBadges(st, texts), k) == Some(BadgeValue(k, texts[j]))
  {
    var init := texts[..|texts| - 1];
    ReadBadgeGet(ReadBadges(st, init), texts[|texts| - 1], k);
    if j < |texts| - 1 {
      LastBadgeWins(st, init, j, k);
    }
  }

  // ---------------------------------------------------------------------------
  // List items and review records

  /** A list item: texts of its `capitalize` spans and of its badge spans, in document order. */
  datatype Item = Item(capitalize: seq<string>, badges: seq<string>)

  /** One review, with the three metrics as parsed from digit strings. */
  datatype Review = Review(name: string, semester: string, rating: nat, difficulty: nat, workload: nat)

  function Metric(r: Review, k: Kind): nat {
    match k
    case Rating => r.rating
    case Difficulty => r.difficulty
    case Workload => r.workload
  }

  const UnknownSemester: string := "Unknown Semester"

  /** Lines 98-101: the item's semester, or None when the item is skipped. */
  function SemesterOf(item: Item): (sem: Option<string>)
    ensures sem.Some? <==> |item.capitalize| > 0 && Title(item.capitalize[0]) != UnknownSemester
    ensures sem.Some? ==> sem.value == Title(item.capitalize[0])
  {
    if |item.capitalize| == 0 then None
    else
      var semester := Title(item.capitalize[0]);
      if semester == UnknownSemester then None else Some(semester)
  }

  /** Where a metric is read in the condition of line 111: rating, then difficulty, then workload. */
  function ReadOrder(k: Kind): nat {
    match k
    case Rating => 0
    case Difficulty => 1
    case Workload => 2
  }

  /**
   * Line 111: the first metric variable, in evaluation order, that was never assigned; None
   * exactly when all three are assigned.
   */
  function FirstUnbound(st: Carried): (u: Option<Kind>)
    ensures u.None? <==> forall k :: Get(st, k).Some?
    ensures u.Some? ==> Get(st, u.value).None?
    ensures u.Some? ==> forall k :: ReadOrder(k) < ReadOrder(u.value) ==> Get(st, k).Some?
  {
    if st.rating.None? then assert Get(st, Rating).None?; Some(Rating)
    else if st.difficulty.None? then assert Get(st, Difficulty).None?; Some(Difficulty)
    else if st.workload.None? then assert Get(st, Workload).None?; Some(Workload)
    else None
  }

  /** All three variables hold non-empty digit strings. */
  predicate AllDigits(st: Carried) {
    && st.rating.Some? && IsDigits(st.rating.value)
    && st.difficulty.Some? && IsDigits(st.difficulty.value)
    && st.workload.Some? && IsDigits(st.workload.value)
  }

  /** Line 112: the record built from the carried strings. */
  function RecordOf(name: string, semester: string, st: Carried): Review
    requires AllDigits(st)
  {
    Review(name, semester, DecimalValue(st.rating.value), DecimalValue(st.difficulty.value),
           DecimalValue(st.workload.value))
  }

  /** The state after one item and the record it emits, if any. */
  datatype Step = Step(state: Carried, review: Option<Review>)

  /** Lines 98-113 for one item. */
  function StepItem(name: string, st: Carried, item: Item): Result<Step, PipelineError> {
    match SemesterOf(item)
    case None => Ok(Step(st, None))
    case Some(semester) =>
      var after := ReadBadges(st, item.badges);
      match FirstUnbound(after)
      case Some(k) => Err(UnboundName(k))
      case None =>
        if AllDigits(after) then Ok(Step(after, Some(RecordOf(name, semester, after))))
        else Ok(Step(after, None))
  }

  /**
   * An item emits a record exactly when it names a known semester and, after its badges were
   * read, all three variables hold non-empty digit strings; the record carries the course name,
   * that semester and the values of those strings. Skipped items leave the state alone.
   */
  lemma StepItemEmits(name: string, st: Carried, item: Item)
    ensures StepItem(name, st, item).Ok? && StepItem(name, st, item).value.review.Some?
      <==> SemesterOf(item).Some? && AllDigits(ReadBadges(st, item.badges))
    ensures StepItem(name, st, item).Ok? && StepItem(name, st, item).value.review.Some? ==>
      StepItem(name, st, item).value.review.value ==
        RecordOf(name, SemesterOf(item).value, ReadBadges(st, item.badges))
    ensures SemesterOf(item).None? ==> StepItem(name, st, item) == Ok(Step(st, None))
    ensures SemesterOf(item).Some? ==>
      (StepItem(name, st, item).Err? <==> FirstUnbound(ReadBadges(st, item.badges)).Some?)
  {
  }

  // ---------------------------------------------------------------------------
  // The loop over the list items of one page

  /** The records of one page and the variables afterwards. */
  datatype Parsed = Parsed(reviews: seq<Review>, state: Carried)

  function Emitted(r: Option<Review>): seq<Review> {
    match r
    case None => []
    case Some(review) => [review]
  }

  /** Lines 97-113 as a function of the items: each item in turn, first to last. */
  function ParseItems(name: string, st: Carried, items: seq<Item>): Result<Parsed, PipelineError> {
    if items == [] then Ok(Parsed([], st))
    else
      match ParseItems(name, st, items[..|items| - 1])
      case Err(e) => Err(e)
      case Ok(p) => AddItem(name, p, items[|items| - 1])
  }

  /** One pass of the item loop: the records so far, plus the one this item emits, and the new state. */
  function AddItem(name: string, p: Parsed, item: Item): Result<Parsed, PipelineError> {
    match StepItem(name, p.state, item)
    case Err(e) => Err(e)
    case Ok(step) => Ok(Parsed(p.reviews + Emitted(step.review), step.state))
  }

  /** One more item: the definition unfolded at a prefix of the page. */
  lemma ParseItemsSnoc(name: string, st: Carried, items: seq<Item>, i: nat)
    requires i < |items|
    ensures ParseItems(name, st, items[..i + 1]) ==
      match ParseItems(name, st, items[..i])
      case Err(e) => Err(e)
      case Ok(p) => AddItem(name, p, items[i])
  {
    assert items[..i + 1][..i] == items[..i];
  }

  /** Once an item raised, the rest of the page is never reached. */
  lemma {:induction false} ParseErrorSticks(name: string, st: Carried, items: seq<Item>, i: nat)
    requires i <= |items|
    requires ParseItems(name, st, items[..i]).Err?
    ensures ParseItems(name, st, items) == ParseItems(name, st, items[..i])
  {
    if i < |items| {
      var init := items[..|items| - 1];
      assert init[..i] == items[..i];
      ParseErrorSticks(name, st, init, i);
    } else {
      assert items[..i] == items;
    }
  }

  /** Lines 103-110: the inner loop over the badges of one item. */
  method ReadItemBadges(st0: Carried, badges: seq<string>) returns (st: Carried)
    ensures st == ReadBadges(st0, badges)
  {
    st := st0;
    var j := 0;
    while j < |badges|
      invariant 0 <= j <= |badges|
      invariant st == ReadBadges(st0, badges[..j])
    {
      assert badges[..j + 1][..j] == badges[..j];
      var text := badges[j];
      if Contains(text, "Rating") {
        st := st.(rating := Some(BadgeValue(Rating, text)));
      }
      if Contains(text, "Difficulty") {
        st := st.(difficulty := Some(BadgeValue(Difficulty, text)));
      }
      if Contains(text, "Workload") {
        st := st.(workload := Some(BadgeValue(Workload, text)));
      }
      j := j + 1;
    }
    assert badges[..j] == badges;
  }

  /** Lines 98-113 for one list item: the semester check, the badge loop and the digit check. */
  method ParseItem(name: string, st0: Carried, item: Item) returns (r: Result<Step, PipelineError>)
    ensures r == StepItem(name, st0, item)
  {
    if |item.capitalize| == 0 {
      return Ok(Step(st0, None));
    }
    var semester := Title(item.capitalize[0]);
    if semester == UnknownSemester {
      return Ok(Step(st0, None));
    }
    var st := ReadItemBadges(st0, item.badges);
    if st.rating.None? {
      return Err(UnboundName(Rating));
    }
    if st.difficulty.None? {
      return Err(UnboundName(Difficulty));
    }
    if st.workload.None? {
      return Err(UnboundName(Workload));
    }
    if IsDigits(st.rating.value) && IsDigits(st.difficulty.value) && IsDigits(st.workload.value) {
      r := Ok(Step(st, Some(RecordOf(name, semester, st))));
    } else {
      r := Ok(Step(st, None));
    }
  }

  /** Lines 97-113: the item loop, appending to the review list. */
  method ParseReviewList(name: string, st0: Carried, items: seq<Item>) returns (r: Result<Parsed, PipelineError>)
    ensures r == ParseItems(name, st0, items)
  {
    var reviews: seq<Review> := [];
    var st := st0;
    var i := 0;
    while i < |items|
      invariant 0 <= i <= |items|
      invariant ParseItems(name, st0, items[..i]) == Ok(Parsed(reviews, st))
    {
      ParseItemsSnoc(name, st0, items, i);
      var step := ParseItem(name, st, items[i]);
      if step.Err? {
        ParseErrorSticks(name, st0, items, i + 1);
        return Err(step.error);
      }
      reviews := reviews + Emitted(step.value.review);
      st := step.value.state;
      i := i + 1;
    }
    assert items[..i] == items;
    r := Ok(Parsed(reviews, st));
  }

  // ---------------------------------------------------------------------------
  // What the loop promises

  /**
   * At most one record per item; every record carries the course name and the semester of
   * some item, which is never "Unknown Semester".
   */
  lemma {:induction false} ParsedReviews(name: string, st: Carried, items: seq<Item>)
    requires ParseItems(name, st, items).Ok?
    ensures |ParseItems(name, st, items).value.reviews| <= |items|
    ensures forall r :: r in ParseItems(name, st, items).value.reviews ==>
      && r.name == name
      && r.semester != UnknownSemester
      && exists j :: 0 <= j < |items| && SemesterOf(items[j]) == Some(r.semester)
  {
    if items != [] {
      var init := items[..|items| - 1];
      var last := items[|items| - 1];
      ParsedReviews(name, st, init);
      var p := ParseItems(name, st, init).value;
      StepItemEmits(name, p.state, last);
      forall r | r in ParseItems(name, st, items).value.reviews
        ensures exists j :: 0 <= j < |items| && SemesterOf(items[j]) == Some(r.semester)
      {
        if r in p.reviews {
          var j :| 0 <= j < |init| && SemesterOf(init[j]) == Some(r.semester);
          assert items[j] == init[j];
        } else {
          assert SemesterOf(items[|items| - 1]) == Some(r.semester);
        }
      }
    }
  }

  /**
   * Carry-over: when no item from index `j` on has a badge mentioning metric `k`, the variable
   * after the page still holds what it held after the first `j` items.
   */
  lemma {:induction false} MissingBadgeCarriesOver(name: string, st: Carried, items: seq<Item>, j: nat, k: Kind)
    requires j <= |items|
    requires forall i, b :: j <= i < |items| && 0 <= b < |items[i].badges| ==> !Contains(items[i].badges[b], Keyword(k))
    requires ParseItems(name, st, items).Ok?
    ensures ParseItems(name, st, items[..j]).Ok?
    ensures Get(ParseItems(name, st, items).value.state, k) == Get(ParseItems(name, st, items[..j]).value.state, k)
  {
    if j < |items| {
      var init := items[..|items| - 1];
      var last := items[|items| - 1];
      assert init[..j] == items[..j];
      MissingBadgeCarriesOver(name, st, init, j, k);
      var p := ParseItems(name, st, init).value;
      if SemesterOf(last).Some? {
        BadgesKeepMissing(p.state, last.badges, k);
      }
    } else {
      assert items[..j] == items;
    }
  }

  /** The records `pre` put in front of a parse result; an error is left as it is. */
  function Prepend(pre: seq<Review>, r: Result<Parsed, PipelineError>): Result<Parsed, PipelineError> {
    match r
    case Err(e) => Err(e)
    case Ok(q) => Ok(Parsed(pre + q.reviews, q.state))
  }

  /** An item's pass does not look at the records before it. */
  lemma AddItemPrepend(name: string, pre: seq<Review>, q: Parsed, item: Item)
    ensures AddItem(name, Parsed(pre + q.reviews, q.state), item) == Prepend(pre, AddItem(name, q, item))
  {
    match StepItem(name, q.state, item)
    case Err(e) =>
    case Ok(step) =>
      assert pre + q.reviews + Emitted(step.review) == pre + (q.reviews + Emitted(step.review));
  }

  /** Variables carried across items: parsing a page in two parts threads the state through. */
  lemma {:induction false} ParseConcat(name: string, st: Carried, xs: seq<Item>, ys: seq<Item>)
    requires ParseItems(name, st, xs).Ok?
    ensures ParseItems(name, st, xs + ys) ==
      Prepend(ParseItems(name, st, xs).value.reviews, ParseItems(name, ParseItems(name, st, xs).value.state, ys))
    decreases |ys|
  {
    var p := ParseItems(name, st, xs).value;
    if ys == [] {
      assert xs + ys == xs;
      assert p.reviews + [] == p.reviews;
    } else {
      var ys' := ys[..|ys| - 1];
      var last := ys[|ys| - 1];
      assert (xs + ys)[..|xs + ys| - 1] == xs + ys';
      assert (xs + ys)[|xs + ys| - 1] == last;
      ParseConcat(name, st, xs, ys');
      match ParseItems(name, p.state, ys')
      case Err(e) =>
      case Ok(q) => AddItemPrepend(name, p.reviews, q, last);
    }
  }
}
