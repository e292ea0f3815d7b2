/**
 * Lines 114-116: the reviews of one course grouped by (name, semester), with the mean of
 * each metric and the number of reviews per group.
 */
module Grouping {
  import opened Outcomes
  import opened Badges

  datatype Key = Key(name: string, semester: string)

  function KeyOf(r: Review): Key {
    Key(r.name, r.semester)
  }

  // ---------------------------------------------------------------------------
  // Reference definitions over the records themselves

  /** How many records have the key. */
  function CountOf(rs: seq<Review>, key: Key): nat {
    if rs == [] then 0
    else CountOf(rs[..|rs| - 1], key) + (if KeyOf(rs[|rs| - 1]) == key then 1 else 0)
  }

  /** The sum of one metric over the records with the key. */
  function TotalOf(rs: seq<Review>, key: Key, k: Kind): nat {
    if rs == [] then 0
    else TotalOf(rs[..|rs| - 1], key, k) + (if KeyOf(rs[|rs| - 1]) == key then Metric(rs[|rs| - 1], k) else 0)
  }

  lemma {:induction false} CountOfPositive(rs: seq<Review>, key: Key)
    ensures CountOf(rs, key) > 0 <==> exists j :: 0 <= j < |rs| && KeyOf(rs[j]) == key
  {
    if rs != [] {
      var init := rs[..|rs| - 1];
      CountOfPositive(init, key);
      if exists j :: 0 <= j < |init| && KeyOf(init[j]) == key {
        var j :| 0 <= j < |init| && KeyOf(init[j]) == key;
        assert KeyOf(rs[j]) == key;
      }
      if exists j :: 0 <= j < |rs| && KeyOf(rs[j]) == key {
        var j :| 0 <= j < |rs| && KeyOf(rs[j]) == key;
        if j < |init| {
          assert KeyOf(init[j]) == key;
        }
      }
    }
  }

  // ---------------------------------------------------------------------------
  // Running tallies, one per key in order of first appearance

  datatype Tally = Tally(key: Key, count: nat, ratingSum: nat, difficultySum: nat, workloadSum: nat)

  function SumOf(t: Tally, k: Kind): nat {
    match k
    case Rating => t.ratingSum
    case Difficulty => t.difficultySum
    case Workload => t.workloadSum
  }

  /** The count recorded for the key (0 when absent). */
  function CountIn(ts: seq<Tally>, key: Key): nat {
    if ts == [] then 0 else (if ts[0].key == key then ts[0].count else 0) + CountIn(ts[1..], key)
  }

  /** The sum recorded for the key (0 when absent). */
  function TotalIn(ts: seq<Tally>, key: Key, k: Kind): nat {
    if ts == [] then 0 else (if ts[0].key == key then SumOf(ts[0], k) else 0) + TotalIn(ts[1..], key, k)
  }

  /** The sum of all counts. */
  function Counts(ts: seq<Tally>): nat {
    if ts == [] then 0 else ts[0].count + Counts(ts[1..])
  }

  predicate UniqueKeys(ts: seq<Tally>) {
    forall i, j :: 0 <= i < j < |ts| ==> ts[i].key != ts[j].key
  }

  predicate HasKey(ts: seq<Tally>, key: Key) {
    exists i :: 0 <= i < |ts| && ts[i].key == key
  }

  predicate Positive(ts: seq<Tally>) {
    forall i :: 0 <= i < |ts| ==> ts[i].count >= 1
  }

  /** With positive counts, a key has a tally exactly when its recorded count is positive. */
  lemma {:induction false} HasKeyIffCounted(ts: seq<Tally>, key: Key)
    requires Positive(ts)
    ensures HasKey(ts, key) <==> CountIn(ts, key) > 0
  {
    if ts != [] {
      HasKeyIffCounted(ts[1..], key);
      if HasKey(ts[1..], key) {
        var j :| 0 <= j < |ts[1..]| && ts[1..][j].key == key;
        assert ts[j + 1].key == key;
      }
      if HasKey(ts, key) && ts[0].key != key {
        var j :| 0 <= j < |ts| && ts[j].key == key;
        assert ts[1..][j - 1].key == key;
      }
    }
  }

  function Bump(t: Tally, r: Review): Tally {
    Tally(t.key, t.count + 1, t.ratingSum + r.rating, t.difficultySum + r.difficulty, t.workloadSum + r.workload)
  }

  /** Adds one record to the tally of its key, opening a new tally at the end when the key is new. */
  function Add(ts: seq<Tally>, r: Review): (ts': seq<Tally>)
    ensures Positive(ts) ==> Positive(ts')
    ensures forall key :: CountIn(ts', key) == CountIn(ts, key) + (if key == KeyOf(r) then 1 else 0)
    ensures forall key, k :: TotalIn(ts', key, k) == TotalIn(ts, key, k) + (if key == KeyOf(r) then Metric(r, k) else 0)
    ensures Counts(ts') == Counts(ts) + 1
  {
    if ts == [] then
      var ts' := [Tally(KeyOf(r), 1, r.rating, r.difficulty, r.workload)];
      assert ts'[1..] == [];
      ts'
    else if ts[0].key == KeyOf(r) then
      var ts' := [Bump(ts[0], r)] + ts[1..];
      assert ts'[1..] == ts[1..];
      ts'
    else
      var rest := Add(ts[1..], r);
      var ts' := [ts[0]] + rest;
      assert ts'[1..] == rest;
      ts'
  }

  /** Adding a record never creates a second tally for a key. */
  lemma {:induction false} AddKeepsKeysUnique(ts: seq<Tally>, r: Review)
    requires Positive(ts) && UniqueKeys(ts)
    ensures UniqueKeys(Add(ts, r))
  {
    if ts != [] && ts[0].key != KeyOf(r) {
      var rest := Add(ts[1..], r);
      var ts' := Add(ts, r);
      assert ts' == [ts[0]] + rest;
      assert UniqueKeys(ts[1..]);
      AddKeepsKeysUnique(ts[1..], r);
      assert !HasKey(ts[1..], ts[0].key) by {
        forall m | 0 <= m < |ts[1..]| ensures ts[1..][m].key != ts[0].key {
          assert ts[1..][m] == ts[m + 1];
        }
      }
      HasKeyIffCounted(ts[1..], ts[0].key);
      forall j | 0 < j < |ts'| ensures ts'[0].key != ts'[j].key {
        assert ts'[j] == rest[j - 1];
        assert HasKey(rest, ts'[j].key);
        HasKeyIffCounted(rest, ts'[j].key);
      }
    }
  }

  lemma {:induction false} NoneCountedNoneSummed(rs: seq<Review>, key: Key, k: Kind)
    requires CountOf(rs, key) == 0
    ensures TotalOf(rs, key, k) == 0
  {
    if rs != [] {
      NoneCountedNoneSummed(rs[..|rs| - 1], key, k);
    }
  }

  /** Lines 115-116 before the means: tallies of the records in order of first appearance. */
  function Tallies(rs: seq<Review>): (ts: seq<Tally>)
    ensures Positive(ts)
    ensures forall key :: CountIn(ts, key) == CountOf(rs, key)
    ensures forall key, k :: TotalIn(ts, key, k) == TotalOf(rs, key, k)
    ensures Counts(ts) == |rs|
  {
    if rs == [] then [] else Add(Tallies(rs[..|rs| - 1]), rs[|rs| - 1])
  }

  lemma {:induction false} TalliesUnique(rs: seq<Review>)
    ensures UniqueKeys(Tallies(rs))
  {
    if rs != [] {
      TalliesUnique(rs[..|rs| - 1]);
      AddKeepsKeysUnique(Tallies(rs[..|rs| - 1]), rs[|rs| - 1]);
    }
  }

  /** With distinct keys, the count recorded for a tally's key is that tally's count. */
  lemma {:induction false} CountInAt(ts: seq<Tally>, i: nat, k: Kind)
    requires UniqueKeys(ts) && i < |ts|
    ensures CountIn(ts, ts[i].key) == ts[i].count
    ensures TotalIn(ts, ts[i].key, k) == SumOf(ts[i], k)
  {
    assert UniqueKeys(ts[1..]);
    if i > 0 {
      CountInAt(ts[1..], i - 1, k);
    } else {
      Absent(ts[1..], ts[0].key, k);
    }
  }

  lemma {:induction false} Absent(ts: seq<Tally>, key: Key, k: Kind)
    requires forall i :: 0 <= i < |ts| ==> ts[i].key != key
    ensures CountIn(ts, key) == 0 && TotalIn(ts, key, k) == 0
  {
    if ts != [] {
      Absent(ts[1..], key, k);
    }
  }

  // ---------------------------------------------------------------------------
  // The grouped table

  /** One row of `groupby(["name", "semester"]).mean()` with its `reviewCount`. */
  datatype GroupRow = GroupRow(key: Key, rating: real, difficulty: real, workload: real, reviewCount: nat)

  function MeanOf(g: GroupRow, k: Kind): real {
    match k
    case Rating => g.rating
    case Difficulty => g.difficulty
    case Workload => g.workload
  }

  function Mean(t: Tally, k: Kind): real
    requires t.count > 0
  {
    SumOf(t, k) as real / t.count as real
  }

  function RowOf(t: Tally): GroupRow
    requires t.count > 0
  {
    GroupRow(t.key, Mean(t, Rating), Mean(t, Difficulty), Mean(t, Workload), t.count)
  }

  /** Lines 115-116: the grouped, averaged and counted reviews of one course. */
  function Group(rs: seq<Review>): (g: seq<GroupRow>)
    ensures |g| <= |rs|
  {
    var ts := Tallies(rs);
    assert |ts| <= |rs| by { CountsBound(ts); }
    seq(|ts|, i requires 0 <= i < |ts| => RowOf(ts[i]))
  }

  lemma {:induction false} CountsBound(ts: seq<Tally>)
    requires Positive(ts)
    ensures |ts| <= Counts(ts)
  {
    if ts != [] {
      CountsBound(ts[1..]);
    }
  }

  function ReviewCounts(g: seq<GroupRow>): nat {
    if g == [] then 0 else g[0].reviewCount + ReviewCounts(g[1..])
  }

  lemma {:induction false} ReviewCountsOfTallies(ts: seq<Tally>)
    requires Positive(ts)
    ensures ReviewCounts(seq(|ts|, i requires 0 <= i < |ts| => RowOf(ts[i]))) == Counts(ts)
  {
    if ts != [] {
      var g := seq(|ts|, i requires 0 <= i < |ts| => RowOf(ts[i]));
      ReviewCountsOfTallies(ts[1..]);
      assert g[1..] == seq(|ts[1..]|, i requires 0 <= i < |ts[1..]| => RowOf(ts[1..][i]));
    }
  }

  /** One group row: its count is the number of records with its key. */
  lemma GroupCountAt(rs: seq<Review>, i: nat)
    requires i < |Group(rs)|
    ensures Group(rs)[i].reviewCount == CountOf(rs, Group(rs)[i].key) >= 1
  {
    var ts := Tallies(rs);
    TalliesUnique(rs);
    CountInAt(ts, i, Rating);
    assert Group(rs)[i] == RowOf(ts[i]);
  }

  /** One group row: each mean is the metric's sum over the records with its key, divided by their number. */
  lemma GroupMeanAt(rs: seq<Review>, i: nat, k: Kind)
    requires i < |Group(rs)|
    ensures CountOf(rs, Group(rs)[i].key) >= 1
    ensures MeanOf(Group(rs)[i], k) == TotalOf(rs, Group(rs)[i].key, k) as real / CountOf(rs, Group(rs)[i].key) as real
  {
    var ts := Tallies(rs);
    TalliesUnique(rs);
    CountInAt(ts, i, k);
    assert Group(rs)[i] == RowOf(ts[i]);
  }

  /** No two rows of the grouped table share a (name, semester). */
  lemma GroupKeysUnique(rs: seq<Review>)
    ensures forall i, j :: 0 <= i < j < |Group(rs)| ==> Group(rs)[i].key != Group(rs)[j].key
  {
    var ts := Tallies(rs);
    TalliesUnique(rs);
    assert forall i :: 0 <= i < |ts| ==> Group(rs)[i].key == ts[i].key;
  }

  /** Every row of the grouped table is the (name, semester) of some record. */
  lemma GroupKeysFromRecords(rs: seq<Review>)
    ensures forall i :: 0 <= i < |Group(rs)| ==> exists j :: 0 <= j < |rs| && KeyOf(rs[j]) == Group(rs)[i].key
  {
    var g := Group(rs);
    forall i | 0 <= i < |g| ensures exists j :: 0 <= j < |rs| && KeyOf(rs[j]) == g[i].key {
      GroupCountAt(rs, i);
      CountOfPositive(rs, g[i].key);
    }
  }

  /** Every record's (name, semester) has a row in the grouped table. */
  lemma RecordsHaveGroups(rs: seq<Review>)
    ensures forall j :: 0 <= j < |rs| ==> exists i :: 0 <= i < |Group(rs)| && Group(rs)[i].key == KeyOf(rs[j])
  {
    var ts := Tallies(rs);
    var g := Group(rs);
    forall j | 0 <= j < |rs| ensures exists i :: 0 <= i < |g| && g[i].key == KeyOf(rs[j]) {
      CountOfPositive(rs, KeyOf(rs[j]));
      HasKeyIffCounted(ts, KeyOf(rs[j]));
      var i :| 0 <= i < |ts| && ts[i].key == KeyOf(rs[j]);
      assert g[i].key == ts[i].key;
    }
  }

  /**
   * The counts of the grouped table: each is the number of records with the row's key (so at
   * least 1), and together they add up to the number of records.
   */
  lemma GroupCounts(rs: seq<Review>)
    ensures forall i :: 0 <= i < |Group(rs)| ==>
      Group(rs)[i].reviewCount == CountOf(rs, Group(rs)[i].key) >= 1
    ensures ReviewCounts(Group(rs)) == |rs|
  {
    ReviewCountsOfTallies(Tallies(rs));
    forall i | 0 <= i < |Group(rs)|
      ensures Group(rs)[i].reviewCount == CountOf(rs, Group(rs)[i].key) >= 1
    {
      GroupCountAt(rs, i);
    }
  }

  /** The means of the grouped table: each is the metric's average over the records with the row's key. */
  lemma GroupMeans(rs: seq<Review>)
    ensures forall i, k :: 0 <= i < |Group(rs)| ==>
      (CountOf(rs, Group(rs)[i].key) >= 1 &&
       MeanOf(Group(rs)[i], k) == TotalOf(rs, Group(rs)[i].key, k) as real / CountOf(rs, Group(rs)[i].key) as real)
  {
    forall i, k | 0 <= i < |Group(rs)|
      ensures CountOf(rs, Group(rs)[i].key) >= 1
      ensures MeanOf(Group(rs)[i], k) == TotalOf(rs, Group(rs)[i].key, k) as real / CountOf(rs, Group(rs)[i].key) as real
    {
      GroupMeanAt(rs, i, k);
    }
  }

  /** `x` added up `n` times. */
  function Repeat(x: real, n: nat): real {
    if n == 0 then 0.0 else Repeat(x, n - 1) + x
  }

  lemma {:induction false} RepeatIsProduct(x: real, n: nat)
    ensures Repeat(x, n) == x * n as real
  {
    if n > 0 {
      RepeatIsProduct(x, n - 1);
      assert x * n as real == x * (n - 1) as real + x;
    }
  }

  /** If every record of the key exceeds `lo`, their sum exceeds `lo` taken once per record. */
  lemma {:induction false} TotalAbove(rs: seq<Review>, key: Key, k: Kind, lo: real)
    requires CountOf(rs, key) > 0
    requires forall j :: 0 <= j < |rs| && KeyOf(rs[j]) == key ==> Metric(rs[j], k) as real > lo
    ensures TotalOf(rs, key, k) as real > Repeat(lo, CountOf(rs, key))
  {
    var init := rs[..|rs| - 1];
    assert forall j :: 0 <= j < |init| ==> init[j] == rs[j];
    if CountOf(init, key) == 0 {
      NoneCountedNoneSummed(init, key, k);
    } else {
      TotalAbove(init, key, k, lo);
    }
  }

  /** If every record of the key is below `hi`, their sum is below `hi` taken once per record. */
  lemma {:induction false} TotalBelow(rs: seq<Review>, key: Key, k: Kind, hi: real)
    requires CountOf(rs, key) > 0
    requires forall j :: 0 <= j < |rs| && KeyOf(rs[j]) == key ==> Metric(rs[j], k) as real < hi
    ensures TotalOf(rs, key, k) as real < Repeat(hi, CountOf(rs, key))
  {
    var init := rs[..|rs| - 1];
    assert forall j :: 0 <= j < |init| ==> init[j] == rs[j];
    if CountOf(init, key) == 0 {
      NoneCountedNoneSummed(init, key, k);
    } else {
      TotalBelow(init, key, k, hi);
    }
  }

  /** A mean, added up once per record, gives back the total. */
  lemma MeanRepeated(mean: real, t: real, n: nat)
    requires n > 0 && mean == t / n as real
    ensures Repeat(mean, n) == t
  {
    RepeatIsProduct(mean, n);
  }

  /** Some record of the key is at most the average of its records. */
  lemma SomeAtMost(rs: seq<Review>, key: Key, k: Kind, mean: real)
    requires CountOf(rs, key) > 0
    requires Repeat(mean, CountOf(rs, key)) == TotalOf(rs, key, k) as real
    ensures exists j :: 0 <= j < |rs| && KeyOf(rs[j]) == key && Metric(rs[j], k) as real <= mean
  {
    if !exists j :: 0 <= j < |rs| && KeyOf(rs[j]) == key && Metric(rs[j], k) as real <= mean {
      TotalAbove(rs, key, k, mean);
    }
  }

  /** Some record of the key is at least the average of its records. */
  lemma SomeAtLeast(rs: seq<Review>, key: Key, k: Kind, mean: real)
    requires CountOf(rs, key) > 0
    requires Repeat(mean, CountOf(rs, key)) == TotalOf(rs, key, k) as real
    ensures exists j :: 0 <= j < |rs| && KeyOf(rs[j]) == key && Metric(rs[j], k) as real >= mean
  {
    if !exists j :: 0 <= j < |rs| && KeyOf(rs[j]) == key && Metric(rs[j], k) as real >= mean {
      TotalBelow(rs, key, k, mean);
    }
  }

  /** Every mean lies between the smallest and the largest value of its group. */
  lemma MeanWithinGroup(rs: seq<Review>, i: nat, k: Kind)
    requires i < |Group(rs)|
    ensures exists j :: 0 <= j < |rs| && KeyOf(rs[j]) == Group(rs)[i].key && Metric(rs[j], k) as real <= MeanOf(Group(rs)[i], k)
    ensures exists j :: 0 <= j < |rs| && KeyOf(rs[j]) == Group(rs)[i].key && Metric(rs[j], k) as real >= MeanOf(Group(rs)[i], k)
  {
    GroupMeanAt(rs, i, k);
    var g := Group(rs)[i];
    MeanRepeated(MeanOf(g, k), TotalOf(rs, g.key, k) as real, CountOf(rs, g.key));
    SomeAtMost(rs, g.key, k, MeanOf(g, k));
    SomeAtLeast(rs, g.key, k, MeanOf(g, k));
  }
}
