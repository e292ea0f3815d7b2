/**
 * Row selection as a pandas boolean mask does it (order kept, rows themselves untouched), and
 * tables stacked one after another.
 */
module Tables {

  /** `a` is obtained from `b` by deleting elements. */
  predicate IsSubsequence<T(==)>(a: seq<T>, b: seq<T>)
    decreases |b|
  {
    if a == [] then true
    else if b == [] then false
    else (a[0] == b[0] && IsSubsequence(a[1..], b[1..])) || IsSubsequence(a, b[1..])
  }

  /** Every row of a subsequence is a row of the sequence. */
  lemma {:induction false} SubsequenceMembers<T>(a: seq<T>, b: seq<T>)
    requires IsSubsequence(a, b)
    ensures forall x :: x in a ==> x in b
    decreases |b|
  {
    if a != [] {
      if a[0] == b[0] && IsSubsequence(a[1..], b[1..]) {
        SubsequenceMembers(a[1..], b[1..]);
        assert forall x :: x in a ==> x == a[0] || x in a[1..];
      } else {
        SubsequenceMembers(a, b[1..]);
      }
    }
  }

  /** Deleting rows keeps every pair of remaining rows in the relative order `le` held them in. */
  lemma {:induction false} SubsequenceOrdered<T>(le: (T, T) -> bool, a: seq<T>, b: seq<T>)
    requires IsSubsequence(a, b)
    requires forall i, j :: 0 <= i < j < |b| ==> le(b[i], b[j])
    ensures forall i, j :: 0 <= i < j < |a| ==> le(a[i], a[j])
    decreases |b|
  {
    if a != [] {
      if a[0] == b[0] && IsSubsequence(a[1..], b[1..]) {
        assert forall i, j :: 0 <= i < j < |b[1..]| ==> b[1..][i] == b[i + 1] && b[1..][j] == b[j + 1];
        SubsequenceOrdered(le, a[1..], b[1..]);
        SubsequenceMembers(a[1..], b[1..]);
        forall i, j | 0 <= i < j < |a| ensures le(a[i], a[j]) {
          if i == 0 {
            assert a[j] in b[1..] by { assert a[j] == a[1..][j - 1]; }
            var m :| 0 <= m < |b[1..]| && b[1..][m] == a[j];
            assert b[m + 1] == a[j];
          } else {
            assert a[i] == a[1..][i - 1] && a[j] == a[1..][j - 1];
          }
        }
      } else {
        assert forall i, j :: 0 <= i < j < |b[1..]| ==> b[1..][i] == b[i + 1] && b[1..][j] == b[j + 1];
        SubsequenceOrdered(le, a, b[1..]);
      }
    }
  }

  /** The rows of `rows` for which `keep` holds (`df[mask]`). */
  function Filter<T(!new)>(keep: T -> bool, rows: seq<T>): (r: seq<T>)
    ensures IsSubsequence(r, rows)
    ensures forall x :: multiset(r)[x] == if keep(x) then multiset(rows)[x] else 0
    ensures forall i :: 0 <= i < |r| ==> keep(r[i])
  {
    if rows == [] then []
    else
      var rest := Filter(keep, rows[1..]);
      assert rows == [rows[0]] + rows[1..];
      if keep(rows[0]) then
        assert ([rows[0]] + rest)[1..] == rest;
        [rows[0]] + rest
      else rest
  }

  /** The tables of `blocks` stacked in order. */
  function Concat<T>(blocks: seq<seq<T>>): seq<T> {
    if blocks == [] then [] else Concat(blocks[..|blocks| - 1]) + blocks[|blocks| - 1]
  }

  /** A row of the stacked table is a row of one of the blocks, and every row of a block is in it. */
  lemma {:induction false} ConcatMembers<T>(blocks: seq<seq<T>>)
    ensures forall x :: x in Concat(blocks) <==> exists i :: 0 <= i < |blocks| && x in blocks[i]
  {
    if blocks != [] {
      var init := blocks[..|blocks| - 1];
      ConcatMembers(init);
      assert forall i :: 0 <= i < |init| ==> init[i] == blocks[i];
    }
  }

  /**
   * The i-th block sits in the stacked table right after the blocks before it: from position
   * `|Concat(blocks[..i])|` up to `|Concat(blocks[..i + 1])|`.
   */
  lemma {:induction false} ConcatBlock<T>(blocks: seq<seq<T>>, i: nat)
    requires i < |blocks|
    ensures |Concat(blocks[..i])| + |blocks[i]| == |Concat(blocks[..i + 1])| <= |Concat(blocks)|
    ensures Concat(blocks)[|Concat(blocks[..i])|..|Concat(blocks[..i + 1])|] == blocks[i]
    decreases |blocks|
  {
    var n := |blocks| - 1;
    var init := blocks[..n];
    assert blocks[..i + 1][..i] == blocks[..i];
    if i == n {
      assert blocks[..i + 1] == blocks;
    } else {
      assert init[..i] == blocks[..i] && init[..i + 1] == blocks[..i + 1];
      ConcatBlock(init, i);
    }
  }

  /** `f` applied to every row, in order (a column computed row by row). */
  function Map<T, U>(f: T -> U, rows: seq<T>): seq<U> {
    seq(|rows|, i requires 0 <= i < |rows| => f(rows[i]))
  }

  /** The computed column holds the results for the rows, and only those. */
  lemma MapMembers<T, U>(f: T -> U, rows: seq<T>)
    ensures forall y :: y in Map(f, rows) <==> exists x :: x in rows && y == f(x)
  {
    var m := Map(f, rows);
    forall y ensures y in m <==> exists x :: x in rows && y == f(x) {
      if y in m {
        var i :| 0 <= i < |m| && m[i] == y;
        assert rows[i] in rows;
      }
      if exists x :: x in rows && y == f(x) {
        var x :| x in rows && y == f(x);
        var i :| 0 <= i < |rows| && rows[i] == x;
        assert m[i] == y;
      }
    }
  }

  /** A row-by-row computation distributes over stacked tables. */
  lemma MapConcat<T, U>(f: T -> U, x: seq<T>, y: seq<T>)
    ensures Map(f, x + y) == Map(f, x) + Map(f, y)
  {
    forall i | 0 <= i < |x| + |y| ensures Map(f, x + y)[i] == (Map(f, x) + Map(f, y))[i] {
      if i >= |x| {
        assert (x + y)[i] == y[i - |x|];
      }
    }
  }

  /** Computing row by row over the same rows in another order gives the same results, as often each. */
  lemma {:induction false} MapPermutation<T, U>(f: T -> U, a: seq<T>, b: seq<T>)
    requires multiset(a) == multiset(b)
    ensures multiset(Map(f, a)) == multiset(Map(f, b))
    decreases |a|
  {
    if a == [] {
      assert |b| == |multiset(b)| == 0;
    } else {
      assert a[0] in multiset(b);
      var j :| 0 <= j < |b| && b[j] == a[0];
      var front, back := b[..j], b[j + 1..];
      assert b == front + ([b[j]] + back);
      assert a == [a[0]] + a[1..];
      RemoveAt(a[0], a[1..], front, back);
      MapPermutation(f, a[1..], front + back);
      MapConcat(f, [a[0]], a[1..]);
      MapConcat(f, front, [b[j]] + back);
      MapConcat(f, [b[j]], back);
      MapConcat(f, front, back);
      var one, fa, ff, fb := multiset(Map(f, [a[0]])), multiset(Map(f, a[1..])), multiset(Map(f, front)), multiset(Map(f, back));
      assert multiset(Map(f, a)) == one + fa;
      assert multiset(Map(f, b)) == ff + (one + fb);
      assert fa == ff + fb;
    }
  }

  /** Taking one row out of two tables with the same rows leaves tables with the same rows. */
  lemma RemoveAt<T>(x: T, a: seq<T>, front: seq<T>, back: seq<T>)
    ensures multiset([x] + a) == multiset(front + ([x] + back)) <==> multiset(a) == multiset(front + back)
  {
    var l, r := multiset(a), multiset(front + back);
    assert multiset([x] + a) == multiset{x} + l;
    assert multiset(front + ([x] + back)) == multiset{x} + r;
    if multiset{x} + l == multiset{x} + r {
      forall y ensures l[y] == r[y] {
        assert (multiset{x} + l)[y] == (multiset{x} + r)[y];
      }
    }
  }
}
